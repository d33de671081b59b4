/** The "keep the latest version per key" loop that appears twice in the
    source: `list_notes` keeps the greatest timestamp per title, and
    `rebuild_index` keeps the latest note per (project, title). Both walk
    their input in order and replace the kept entry only when the new
    timestamp is strictly greater, so on a tie the first-seen entry stays. */
module Grouping {
  import opened Strings
  import opened Dict

  /** One input of the loop: its grouping key, the timestamp compared with
      `>`, and the value kept. */
  datatype Stamped<K, V> = Stamped(key: K, stamp: string, value: V)

  /** The kept entry `x` for key `k` is one of the inputs with that key, no
      input with that key has a greater timestamp, and every input with
      that key seen before it has a strictly smaller one. */
  ghost predicate IsLatest<K, V>(items: seq<Stamped<K, V>>, k: K, x: Stamped<K, V>) {
    exists i :: 0 <= i < |items| && items[i] == x && x.key == k
      && (forall j :: 0 <= j < |items| && items[j].key == k ==> LessEq(items[j].stamp, x.stamp))
      && (forall j :: 0 <= j < i && items[j].key == k ==> Less(items[j].stamp, x.stamp))
  }

  ghost predicate Occurs<K, V>(items: seq<Stamped<K, V>>, k: K) {
    exists i :: 0 <= i < |items| && items[i].key == k
  }

  /** One iteration: `if key not in d or x.stamp > d[key].stamp: d[key] = x`. */
  function Step<K(==,!new), V>(d: Dict<K, Stamped<K, V>>, x: Stamped<K, V>): Dict<K, Stamped<K, V>> {
    if !HasKey(d, x.key) || Less(Get(d, x.key).stamp, x.stamp) then Put(d, x.key, x) else d
  }

  /** The whole loop over `items`, in order. */
  function GroupLatest<K(==,!new), V>(items: seq<Stamped<K, V>>): (r: Dict<K, Stamped<K, V>>)
    ensures DistinctKeys(r)
    ensures forall k :: HasKey(r, k) <==> Occurs(items, k)
    ensures forall k :: HasKey(r, k) ==> IsLatest(items, k, Get(r, k))
  {
    if |items| == 0 then []
    else
      var n := |items| - 1;
      var prev := GroupLatest(items[..n]);
      var r := Step(prev, items[n]);
      StepOccurs(items, prev, r);
      StepLatest(items, prev, r);
      r
  }

  lemma StepOccurs<K(!new), V>(items: seq<Stamped<K, V>>, prev: Dict<K, Stamped<K, V>>, r: Dict<K, Stamped<K, V>>)
    requires |items| > 0 && r == Step(prev, items[|items| - 1])
    requires forall k :: HasKey(prev, k) <==> Occurs(items[..|items| - 1], k)
    ensures forall k :: HasKey(r, k) <==> Occurs(items, k)
  {
    var n := |items| - 1;
    var p := items[..n];
    forall k ensures HasKey(r, k) <==> Occurs(items, k) {
      if Occurs(items, k) {
        var i :| 0 <= i < |items| && items[i].key == k;
        if i < n {
          assert p[i].key == k;
        }
      }
      if Occurs(p, k) {
        var i :| 0 <= i < |p| && p[i].key == k;
        assert items[i].key == k;
      }
    }
  }

  lemma StepLatest<K(!new), V>(items: seq<Stamped<K, V>>, prev: Dict<K, Stamped<K, V>>, r: Dict<K, Stamped<K, V>>)
    requires |items| > 0 && r == Step(prev, items[|items| - 1])
    requires forall k :: HasKey(prev, k) <==> Occurs(items[..|items| - 1], k)
    requires forall k :: HasKey(prev, k) ==> IsLatest(items[..|items| - 1], k, Get(prev, k))
    ensures forall k :: HasKey(r, k) ==> IsLatest(items, k, Get(r, k))
  {
    var n := |items| - 1;
    var p := items[..n];
    var x := items[n];
    forall k | HasKey(r, k) ensures IsLatest(items, k, Get(r, k)) {
      if k != x.key {
        LatestExtends(items, k, Get(prev, k));
      } else if !HasKey(prev, k) {
        assert !Occurs(p, k);
        LatestFirst(items);
      } else {
        var v := Get(prev, k);
        if Less(v.stamp, x.stamp) {
          LatestReplaced(items, v);
        } else {
          LatestKept(items, v);
        }
      }
    }
  }

  /** An input with another key leaves the kept entry for `k` the latest. */
  lemma LatestExtends<K, V>(items: seq<Stamped<K, V>>, k: K, v: Stamped<K, V>)
    requires |items| > 0 && items[|items| - 1].key != k
    requires IsLatest(items[..|items| - 1], k, v)
    ensures IsLatest(items, k, v)
  {
    var p := items[..|items| - 1];
    var i :| 0 <= i < |p| && p[i] == v && v.key == k
      && (forall j :: 0 <= j < |p| && p[j].key == k ==> LessEq(p[j].stamp, v.stamp))
      && (forall j :: 0 <= j < i && p[j].key == k ==> Less(p[j].stamp, v.stamp));
    assert items[i] == v;
    forall j | 0 <= j < |items| && items[j].key == k ensures LessEq(items[j].stamp, v.stamp) {
      assert p[j] == items[j];
    }
    forall j | 0 <= j < i && items[j].key == k ensures Less(items[j].stamp, v.stamp) {
      assert p[j] == items[j];
    }
  }

  /** The first input with its key is the latest so far. */
  lemma LatestFirst<K, V>(items: seq<Stamped<K, V>>)
    requires |items| > 0
    requires !Occurs(items[..|items| - 1], items[|items| - 1].key)
    ensures IsLatest(items, items[|items| - 1].key, items[|items| - 1])
  {
    var n := |items| - 1;
    var p := items[..n];
    var x := items[n];
    forall j | 0 <= j < n ensures items[j].key != x.key {
      assert p[j] == items[j];
    }
  }

  /** A strictly later timestamp displaces the kept entry. */
  lemma LatestReplaced<K, V>(items: seq<Stamped<K, V>>, v: Stamped<K, V>)
    requires |items| > 0
    requires IsLatest(items[..|items| - 1], items[|items| - 1].key, v)
    requires Less(v.stamp, items[|items| - 1].stamp)
    ensures IsLatest(items, items[|items| - 1].key, items[|items| - 1])
  {
    var n := |items| - 1;
    var p := items[..n];
    var x := items[n];
    var k := x.key;
    var i :| 0 <= i < |p| && p[i] == v && v.key == k
      && (forall j :: 0 <= j < |p| && p[j].key == k ==> LessEq(p[j].stamp, v.stamp))
      && (forall j :: 0 <= j < i && p[j].key == k ==> Less(p[j].stamp, v.stamp));
    forall j | 0 <= j < n && items[j].key == k ensures Less(items[j].stamp, x.stamp) {
      assert p[j] == items[j];
      if items[j].stamp != v.stamp {
        LessTransitive(items[j].stamp, v.stamp, x.stamp);
      }
    }
    LessIrreflexive(x.stamp);
  }

  /** A timestamp that is not strictly later leaves the kept entry. */
  lemma LatestKept<K, V>(items: seq<Stamped<K, V>>, v: Stamped<K, V>)
    requires |items| > 0
    requires IsLatest(items[..|items| - 1], items[|items| - 1].key, v)
    requires !Less(v.stamp, items[|items| - 1].stamp)
    ensures IsLatest(items, items[|items| - 1].key, v)
  {
    var n := |items| - 1;
    var p := items[..n];
    var x := items[n];
    var k := x.key;
    var i :| 0 <= i < |p| && p[i] == v && v.key == k
      && (forall j :: 0 <= j < |p| && p[j].key == k ==> LessEq(p[j].stamp, v.stamp))
      && (forall j :: 0 <= j < i && p[j].key == k ==> Less(p[j].stamp, v.stamp));
    NotLessIsLessEq(v.stamp, x.stamp);
    assert items[i] == v;
    forall j | 0 <= j < |items| && items[j].key == k ensures LessEq(items[j].stamp, v.stamp) {
      if j < n {
        assert p[j] == items[j];
      }
    }
    forall j | 0 <= j < i && items[j].key == k ensures Less(items[j].stamp, v.stamp) {
      assert p[j] == items[j];
    }
  }

  /** The position of the kept entry among the inputs. */
  lemma LatestIndex<K, V>(items: seq<Stamped<K, V>>, k: K, x: Stamped<K, V>) returns (i: int)
    requires IsLatest(items, k, x)
    ensures 0 <= i < |items| && items[i] == x && x.key == k
    ensures forall j :: 0 <= j < |items| && items[j].key == k ==> LessEq(items[j].stamp, x.stamp)
    ensures forall j :: 0 <= j < i && items[j].key == k ==> Less(items[j].stamp, x.stamp)
  {
    i :| 0 <= i < |items| && items[i] == x && x.key == k
      && (forall j :: 0 <= j < |items| && items[j].key == k ==> LessEq(items[j].stamp, x.stamp))
      && (forall j :: 0 <= j < i && items[j].key == k ==> Less(items[j].stamp, x.stamp));
  }

  ghost function StampedKeys<K, V>(items: seq<Stamped<K, V>>): set<K> {
    set i | 0 <= i < |items| :: items[i].key
  }

  /** The loop keeps one entry per distinct key. */
  lemma GroupLatestCount<K(!new), V>(items: seq<Stamped<K, V>>)
    ensures |GroupLatest(items)| == |StampedKeys(items)|
  {
    var r := GroupLatest(items);
    KeyCount(r);
    assert KeySet(r) == StampedKeys(items) by {
      forall k | k in KeySet(r) ensures k in StampedKeys(items) {
        var i :| 0 <= i < |r| && r[i].0 == k;
        assert HasKey(r, k);
      }
      forall k | k in StampedKeys(items) ensures k in KeySet(r) {
        assert Occurs(items, k);
        var i :| 0 <= i < |r| && r[i].0 == k;
      }
    }
  }

  /** No input with key `k` has a later timestamp than the kept entry. */
  lemma LatestBounds<K(!new), V>(items: seq<Stamped<K, V>>, k: K, j: int)
    requires 0 <= j < |items| && items[j].key == k
    ensures HasKey(GroupLatest(items), k)
    ensures LessEq(items[j].stamp, Get(GroupLatest(items), k).stamp)
  {
    assert Occurs(items, k);
    var x := Get(GroupLatest(items), k);
    assert IsLatest(items, k, x);
  }

  /** The inputs' keys, in input order. */
  function KeyList<K, V>(items: seq<Stamped<K, V>>): (r: seq<K>)
    ensures |r| == |items|
    ensures forall i :: 0 <= i < |items| ==> r[i] == items[i].key
  {
    seq(|items|, i requires 0 <= i < |items| => items[i].key)
  }

  /** The loop keeps the keys in the order of their first input: a key
      enters the dictionary when first seen, and a later replacement keeps
      its place. */
  lemma {:induction false} GroupLatestOrder<K(!new), V>(items: seq<Stamped<K, V>>)
    ensures FirstOccurrenceOrder(Keys(GroupLatest(items)), KeyList(items))
  {
    if |items| > 0 {
      var n := |items| - 1;
      var prefix := items[..n];
      var prev := GroupLatest(prefix);
      var x := items[n];
      var keys := KeyList(prefix);
      GroupLatestOrder(prefix);
      assert KeyList(items) == keys + [x.key];
      assert GroupLatest(items) == Step(prev, x);
      StepKeys(prev, x);
      forall i | 0 <= i < |Keys(prev)| ensures Keys(prev)[i] in keys {
        KeptKeySeen(prefix, prev, i);
      }
      FirstOccurrenceOrderAppend(Keys(prev), keys, x.key);
      if !HasKey(prev, x.key) {
        UnseenKey(prefix, x.key);
      }
    }
  }

  /** One iteration keeps the key order, and a new key goes last. */
  lemma StepKeys<K(!new), V>(d: Dict<K, Stamped<K, V>>, x: Stamped<K, V>)
    ensures Keys(Step(d, x)) == if HasKey(d, x.key) then Keys(d) else Keys(d) + [x.key]
  {
    PutKeys(d, x.key, x);
  }

  lemma UnseenKey<K(!new), V>(items: seq<Stamped<K, V>>, k: K)
    requires !HasKey(GroupLatest(items), k)
    ensures k !in KeyList(items)
  {
    forall i | 0 <= i < |items| ensures KeyList(items)[i] != k {
      assert Occurs(items, items[i].key);
    }
  }

  /** Every key the loop has kept was among its inputs. */
  lemma KeptKeySeen<K(!new), V>(items: seq<Stamped<K, V>>, r: Dict<K, Stamped<K, V>>, i: int)
    requires r == GroupLatest(items) && 0 <= i < |r|
    ensures Keys(r)[i] in KeyList(items)
  {
    var k := r[i].0;
    assert HasKey(r, k);
    var j :| 0 <= j < |items| && items[j].key == k;
    assert KeyList(items)[j] == k;
  }
}
