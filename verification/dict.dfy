/** Python's `dict` as the note store and the searcher use it: keys in
    insertion order, an assignment to an existing key keeping its place. */
module Dict {

  type Dict<K, V> = seq<(K, V)>

  predicate DistinctKeys<K(==), V>(d: Dict<K, V>) {
    forall i, j :: 0 <= i < j < |d| ==> d[i].0 != d[j].0
  }

  /** `k in d`. */
  predicate HasKey<K(==), V>(d: Dict<K, V>, k: K) {
    exists i :: 0 <= i < |d| && d[i].0 == k
  }

  function Keys<K, V>(d: Dict<K, V>): (r: seq<K>)
    ensures |r| == |d|
    ensures forall i :: 0 <= i < |d| ==> r[i] == d[i].0
  {
    seq(|d|, i requires 0 <= i < |d| => d[i].0)
  }

  function IndexOf<K(==), V>(d: Dict<K, V>, k: K): (r: int)
    ensures -1 <= r < |d|
    ensures r != -1 ==> d[r].0 == k && forall j :: 0 <= j < r ==> d[j].0 != k
    ensures r == -1 <==> !HasKey(d, k)
  {
    if |d| == 0 then -1
    else if d[0].0 == k then 0
    else
      var r := IndexOf(d[1..], k);
      if r == -1 then -1 else r + 1
  }

  /** `d[k]`. */
  function Get<K(==), V>(d: Dict<K, V>, k: K): V
    requires HasKey(d, k)
  {
    d[IndexOf(d, k)].1
  }

  /** `d[k] = v`: replaces the value in place when `k` is present and
      appends the pair otherwise. */
  function Put<K(==,!new), V>(d: Dict<K, V>, k: K, v: V): (r: Dict<K, V>)
    ensures HasKey(r, k) && Get(r, k) == v
    ensures forall k' :: HasKey(r, k') <==> k' == k || HasKey(d, k')
    ensures forall k' :: k' != k && HasKey(d, k') ==> Get(r, k') == Get(d, k')
    ensures DistinctKeys(d) ==> DistinctKeys(r)
    ensures |r| == if HasKey(d, k) then |d| else |d| + 1
  {
    var i := IndexOf(d, k);
    if i == -1 then
      var r := d + [(k, v)];
      AppendKeepsIndex(d, k, v);
      FirstIndexUnique(r, k, |d|);
      r
    else
      var r := d[i := (k, v)];
      UpdateKeepsIndex(d, i, v);
      FirstIndexUnique(r, k, i);
      r
  }

  /** Assignment keeps the key order: an existing key keeps its place and
      a new key goes last. */
  lemma PutKeys<K(!new), V>(d: Dict<K, V>, k: K, v: V)
    ensures Keys(Put(d, k, v)) == if HasKey(d, k) then Keys(d) else Keys(d) + [k]
  {
    var i := IndexOf(d, k);
    if i != -1 {
      assert Put(d, k, v) == d[i := (k, v)];
    } else {
      assert Put(d, k, v) == d + [(k, v)];
    }
  }

  /** Appending a new key leaves every other key where it was. */
  lemma AppendKeepsIndex<K, V>(d: Dict<K, V>, k: K, v: V)
    ensures forall k' :: k' != k && HasKey(d, k') ==> IndexOf(d + [(k, v)], k') == IndexOf(d, k')
  {
    forall k' | k' != k && HasKey(d, k') ensures IndexOf(d + [(k, v)], k') == IndexOf(d, k') {
      FirstIndexUnique(d + [(k, v)], k', IndexOf(d, k'));
    }
  }

  /** Replacing the value at position `i` leaves every other key where it
      was. */
  lemma UpdateKeepsIndex<K, V>(d: Dict<K, V>, i: int, v: V)
    requires 0 <= i < |d|
    ensures forall k' :: k' != d[i].0 && HasKey(d, k') ==> IndexOf(d[i := (d[i].0, v)], k') == IndexOf(d, k')
  {
    forall k' | k' != d[i].0 && HasKey(d, k') ensures IndexOf(d[i := (d[i].0, v)], k') == IndexOf(d, k') {
      FirstIndexUnique(d[i := (d[i].0, v)], k', IndexOf(d, k'));
    }
  }

  /** The first position holding `k` is what `IndexOf` returns. */
  lemma FirstIndexUnique<K, V>(d: Dict<K, V>, k: K, i: int)
    requires 0 <= i < |d| && d[i].0 == k
    requires forall j :: 0 <= j < i ==> d[j].0 != k
    ensures IndexOf(d, k) == i
  {
    var r := IndexOf(d, k);
    assert r != -1;
    assert !(r < i) && !(i < r);
  }

  /** With distinct keys, every position is the position of its key. */
  lemma GetAt<K, V>(d: Dict<K, V>, i: int)
    requires DistinctKeys(d) && 0 <= i < |d|
    ensures HasKey(d, d[i].0) && Get(d, d[i].0) == d[i].1
  {
    FirstIndexUnique(d, d[i].0, i);
  }

  lemma HasKeyFirst<K, V>(d: Dict<K, V>)
    requires |d| > 0
    ensures forall k :: HasKey(d, k) <==> k == d[0].0 || HasKey(d[1..], k)
  {
    forall k | HasKey(d, k) ensures k == d[0].0 || HasKey(d[1..], k) {
      var i :| 0 <= i < |d| && d[i].0 == k;
      if i > 0 {
        assert d[1..][i - 1].0 == k;
      }
    }
    forall k | HasKey(d[1..], k) ensures HasKey(d, k) {
      var i :| 0 <= i < |d[1..]| && d[1..][i].0 == k;
      assert d[i + 1].0 == k;
    }
  }

  ghost function KeySet<K, V>(d: Dict<K, V>): set<K> {
    set i | 0 <= i < |d| :: d[i].0
  }

  /** A dictionary holds as many entries as it has distinct keys. */
  lemma {:induction false} KeyCount<K, V>(d: Dict<K, V>)
    requires DistinctKeys(d)
    ensures |KeySet(d)| == |d|
  {
    if |d| > 0 {
      var t := d[1..];
      KeyCount(t);
      KeySetCons(d);
      TailLacksHead(d);
      assert d[0].0 !in KeySet(t);
    }
  }

  lemma KeySetCons<K, V>(d: Dict<K, V>)
    requires |d| > 0
    ensures KeySet(d) == KeySet(d[1..]) + {d[0].0}
  {
    var t := d[1..];
    forall k | k in KeySet(d) ensures k in KeySet(t) + {d[0].0} {
      var i :| 0 <= i < |d| && d[i].0 == k;
      if i > 0 {
        assert t[i - 1].0 == k;
      }
    }
    forall k | k in KeySet(t) ensures k in KeySet(d) {
      var i :| 0 <= i < |t| && t[i].0 == k;
      assert d[i + 1].0 == k;
    }
  }

  /** With distinct keys, a key is listed at most once. */
  lemma {:induction false} KeysOnce<K, V>(d: Dict<K, V>, x: K)
    requires DistinctKeys(d)
    ensures multiset(Keys(d))[x] <= 1
  {
    if |d| > 0 {
      KeysOnce(d[1..], x);
      assert Keys(d) == [d[0].0] + Keys(d[1..]);
      if d[0].0 == x {
        assert x !in Keys(d[1..]) by {
          forall i | 0 <= i < |d[1..]| ensures Keys(d[1..])[i] != x {
            assert d[1..][i] == d[i + 1];
          }
        }
      }
    }
  }

  /** With distinct keys, the first key does not occur again. */
  lemma TailLacksHead<K, V>(d: Dict<K, V>)
    requires DistinctKeys(d) && |d| > 0
    ensures !HasKey(d[1..], d[0].0)
  {
    forall i | 0 <= i < |d[1..]| ensures d[1..][i].0 != d[0].0 {
      assert d[1..][i] == d[i + 1];
    }
  }

  // ------------------------------------------------ first-occurrence order

  /** Where `k` first occurs in `s`, or `|s|` when it does not occur. */
  function FirstPos<K(==)>(s: seq<K>, k: K): (r: nat)
    ensures r <= |s|
    ensures r < |s| <==> k in s
    ensures r < |s| ==> s[r] == k
    ensures forall i :: 0 <= i < r ==> s[i] != k
  {
    if |s| == 0 then 0
    else if s[0] == k then 0
    else
      var r := FirstPos(s[1..], k);
      assert forall i :: 1 <= i <= r ==> s[i] == s[1..][i - 1];
      r + 1
  }

  /** `keys` lists its elements in the order in which they first occur in
      `s`. Together with "the same elements, each once" this fixes `keys`
      completely. */
  predicate FirstOccurrenceOrder<K(==)>(keys: seq<K>, s: seq<K>) {
    forall i, j :: 0 <= i < j < |keys| ==> FirstPos(s, keys[i]) < FirstPos(s, keys[j])
  }

  /** One more element at the end of `s` moves no first occurrence; an
      element new to `s` first occurs at the end. */
  lemma FirstPosAppend<K>(s: seq<K>, y: K, k: K)
    ensures FirstPos(s + [y], k) == if k in s then FirstPos(s, k) else if k == y then |s| else |s| + 1
  {
    var t := s + [y];
    assert forall i :: 0 <= i < |s| ==> t[i] == s[i];
    assert t[|s|] == y;
  }

  /** Listing one more element keeps a first-occurrence order of elements
      already listed, and an element seen for the first time goes last. */
  lemma FirstOccurrenceOrderAppend<K>(keys: seq<K>, s: seq<K>, y: K)
    requires FirstOccurrenceOrder(keys, s)
    requires forall i :: 0 <= i < |keys| ==> keys[i] in s
    ensures FirstOccurrenceOrder(keys, s + [y])
    ensures y !in s ==> FirstOccurrenceOrder(keys + [y], s + [y])
  {
    forall i | 0 <= i < |keys| ensures FirstPos(s + [y], keys[i]) == FirstPos(s, keys[i]) < |s| {
      FirstPosAppend(s, y, keys[i]);
    }
    if y !in s {
      FirstPosAppend(s, y, y);
      var ks := keys + [y];
      forall i, j | 0 <= i < j < |ks| ensures FirstPos(s + [y], ks[i]) < FirstPos(s + [y], ks[j]) {
        assert ks[i] == keys[i];
        if j < |keys| {
          assert ks[j] == keys[j];
        }
      }
    }
  }
}
