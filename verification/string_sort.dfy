/** Python's `sorted` on a list of strings, as an insertion sort, with the
    facts the note store needs: the result is an ascending permutation of
    the input, and that description determines it completely. Because two
    equal strings are the same string, `sorted(xs, reverse=True)` is the
    reverse of `sorted(xs)`. */
module StringSort {
  import opened Strings

  predicate Ascending(s: seq<string>) {
    forall i, j :: 0 <= i < j < |s| ==> LessEq(s[i], s[j])
  }

  predicate Descending(s: seq<string>) {
    forall i, j :: 0 <= i < j < |s| ==> LessEq(s[j], s[i])
  }

  /** Puts `x` before the first element it does not exceed. */
  function Insert(x: string, s: seq<string>): (r: seq<string>)
    ensures multiset(r) == multiset(s) + multiset{x}
    ensures Ascending(s) ==> Ascending(r)
  {
    if |s| == 0 then [x]
    else if LessEq(x, s[0]) then
      FrontAscending(x, s);
      [x] + s
    else
      var rest := Insert(x, s[1..]);
      assert s == [s[0]] + s[1..];
      NotLessIsLessEq(x, s[0]);
      HeadBelowRest(s, x, rest);
      [s[0]] + rest
  }

  /** An element below everything else may go first. */
  lemma ConsAscending(h: string, s: seq<string>)
    requires Ascending(s) && forall y :: y in s ==> LessEq(h, y)
    ensures Ascending([h] + s)
  {
    var r := [h] + s;
    forall i, j | 0 <= i < j < |r| ensures LessEq(r[i], r[j]) {
      assert r[j] == s[j - 1];
      if i > 0 {
        assert r[i] == s[i - 1];
      }
    }
  }

  /** An element not above the head of an ascending sequence may go
      first. */
  lemma FrontAscending(x: string, s: seq<string>)
    requires |s| > 0 && LessEq(x, s[0])
    ensures Ascending(s) ==> Ascending([x] + s)
  {
    if Ascending(s) {
      forall y | y in s ensures LessEq(x, y) {
        var j :| 0 <= j < |s| && s[j] == y;
        LessEqTransitive(x, s[0], s[j]);
      }
      ConsAscending(x, s);
    }
  }

  /** The head of an ascending sequence may stay first once an element
      above it is inserted into the rest. */
  lemma HeadBelowRest(s: seq<string>, x: string, rest: seq<string>)
    requires |s| > 0 && LessEq(s[0], x)
    requires multiset(rest) == multiset(s[1..]) + multiset{x}
    requires Ascending(s[1..]) ==> Ascending(rest)
    ensures Ascending(s) ==> Ascending([s[0]] + rest)
  {
    if Ascending(s) {
      assert Ascending(s[1..]) by {
        forall i, j | 0 <= i < j < |s[1..]| ensures LessEq(s[1..][i], s[1..][j]) {
          assert s[1..][i] == s[i + 1] && s[1..][j] == s[j + 1];
        }
      }
      forall y | y in rest ensures LessEq(s[0], y) {
        assert y in multiset(rest);
        if y != x {
          assert y in multiset(s[1..]);
          var j :| 0 <= j < |s[1..]| && s[1..][j] == y;
          assert s[j + 1] == y;
        }
      }
      ConsAscending(s[0], rest);
    }
  }

  /** `sorted(s)`. */
  function Sort(s: seq<string>): (r: seq<string>)
    ensures multiset(r) == multiset(s)
    ensures Ascending(r)
  {
    if |s| == 0 then []
    else
      assert s == [s[0]] + s[1..];
      Insert(s[0], Sort(s[1..]))
  }

  function Reverse<T>(s: seq<T>): (r: seq<T>)
    ensures |r| == |s|
    ensures forall i :: 0 <= i < |s| ==> r[i] == s[|s| - 1 - i]
  {
    if |s| == 0 then [] else Reverse(s[1..]) + [s[0]]
  }

  /** `sorted(s, reverse=True)`. */
  function SortDescending(s: seq<string>): (r: seq<string>)
    ensures multiset(r) == multiset(s)
    ensures Descending(r)
  {
    var up := Sort(s);
    var r := Reverse(up);
    assert multiset(r) == multiset(up) by {
      ReverseMultiset(up);
    }
    r
  }

  lemma {:induction false} ReverseMultiset<T>(s: seq<T>)
    ensures multiset(Reverse(s)) == multiset(s)
  {
    if |s| > 0 {
      ReverseMultiset(s[1..]);
      assert s == [s[0]] + s[1..];
      assert Reverse(s) == Reverse(s[1..]) + [s[0]];
    }
  }

  /** An ascending arrangement of a multiset of strings is unique: whatever
      sorts correctly returns what `Sort` returns. */
  lemma {:induction false} AscendingUnique(a: seq<string>, b: seq<string>)
    requires multiset(a) == multiset(b)
    requires Ascending(a) && Ascending(b)
    ensures a == b
    decreases |a|
  {
    assert |b| == |multiset(b)| == |multiset(a)| == |a|;
    if |a| > 0 {
      SameHead(a, b);
      TailMultiset(a);
      TailMultiset(b);
      AscendingUnique(a[1..], b[1..]);
      assert a == [a[0]] + a[1..] && b == [b[0]] + b[1..];
    }
  }

  lemma SameHead(a: seq<string>, b: seq<string>)
    requires multiset(a) == multiset(b) && |a| > 0 && |b| > 0
    requires Ascending(a) && Ascending(b)
    ensures a[0] == b[0]
  {
    assert a[0] in multiset(b) && b[0] in multiset(a);
    assert LessEq(b[0], a[0]) && LessEq(a[0], b[0]);
    LessEqAntisymmetric(a[0], b[0]);
  }

  lemma TailMultiset<T>(a: seq<T>)
    requires |a| > 0
    ensures multiset(a[1..]) == multiset(a) - multiset{a[0]}
  {
    assert a == [a[0]] + a[1..];
  }

  /** `Sort` is Python's `sorted`: it is the only ascending permutation. */
  lemma SortIsSorted(s: seq<string>, t: seq<string>)
    requires multiset(t) == multiset(s) && Ascending(t)
    ensures Sort(s) == t
  {
    AscendingUnique(Sort(s), t);
  }

  /** The first element of a descending arrangement is the greatest. */
  lemma DescendingHeadIsMax(s: seq<string>, x: string)
    requires Descending(s) && x in s
    ensures LessEq(x, s[0])
  {
  }

  /** An ascending arrangement without repeats is strictly ascending. */
  lemma StrictlyAscending(s: seq<string>)
    requires Ascending(s)
    requires forall x :: multiset(s)[x] <= 1
    ensures forall i, j :: 0 <= i < j < |s| ==> Less(s[i], s[j])
  {
    forall i, j | 0 <= i < j < |s| ensures Less(s[i], s[j]) {
      RepeatCount(s, i, j);
    }
  }

  lemma RepeatCount<T>(s: seq<T>, i: int, j: int)
    requires 0 <= i < j < |s|
    ensures s[i] == s[j] ==> multiset(s)[s[i]] >= 2
  {
    assert s == s[..j] + s[j..];
    assert s[i] == s[..j][i] && s[j] == s[j..][0];
    assert multiset(s)[s[i]] == multiset(s[..j])[s[i]] + multiset(s[j..])[s[i]];
  }
}
