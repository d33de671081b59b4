/** The pieces of Python's `str` that the note store and the searcher rely
    on: character classes, `lower()`, `replace()` of one character,
    `find()`, `in`, `rfind()`, slicing with clamping, and the ordering that
    `<` and `sorted` use. Character classes are restricted to ASCII. */
module Strings {

  /** `str.isalnum()` on ASCII: letters and digits. */
  predicate IsAlnum(c: char) {
    ('a' <= c <= 'z') || ('A' <= c <= 'Z') || ('0' <= c <= '9')
  }

  /** The ASCII characters `str.strip()` removes: tab, line feed, vertical
      tab, form feed, carriage return, the four separators 0x1C-0x1F and
      space. */
  predicate IsSpace(c: char) {
    (9 <= c as int <= 13) || (28 <= c as int <= 32)
  }

  function LowerChar(c: char): char {
    if 'A' <= c <= 'Z' then (c as int + 32) as char else c
  }

  /** `str.lower()` on ASCII letters; every other character is unchanged. */
  function Lower(s: string): (r: string)
    ensures |r| == |s|
  {
    seq(|s|, i requires 0 <= i < |s| => LowerChar(s[i]))
  }

  lemma LowerSlice(s: string, i: int, j: int)
    requires 0 <= i <= j <= |s|
    ensures Lower(s[i..j]) == Lower(s)[i..j]
  {
  }

  lemma LowerConcat(a: string, b: string)
    ensures Lower(a + b) == Lower(a) + Lower(b)
  {
  }

  /** `s.replace(a, b)` for single characters. */
  function ReplaceChar(s: string, a: char, b: char): (r: string)
    ensures |r| == |s|
    ensures a != b ==> forall i :: 0 <= i < |r| ==> r[i] != a
  {
    seq(|s|, i requires 0 <= i < |s| => if s[i] == a then b else s[i])
  }

  /** Slicing `s[:n]`: Python clamps the bound to the length. */
  function Take(s: string, n: nat): (r: string)
    ensures |r| == if |s| <= n then |s| else n
    ensures r <= s
  {
    if |s| <= n then s else s[..n]
  }

  predicate StartsWith(s: string, prefix: string) {
    |prefix| <= |s| && s[..|prefix|] == prefix
  }

  predicate EndsWith(s: string, suffix: string) {
    |suffix| <= |s| && s[|s| - |suffix|..] == suffix
  }

  /** `needle` occurs in `hay` starting at index `i`. */
  predicate OccursAt(hay: string, needle: string, i: int) {
    0 <= i && i + |needle| <= |hay| && hay[i..i + |needle|] == needle
  }

  /** Python's `needle in hay`. */
  predicate Contains(hay: string, needle: string) {
    exists i :: 0 <= i <= |hay| - |needle| && OccursAt(hay, needle, i)
  }

  function FindFrom(hay: string, needle: string, from: nat): (r: int)
    requires from <= |hay|
    ensures r == -1 || (from <= r && OccursAt(hay, needle, r))
    ensures r != -1 ==> forall j :: from <= j < r ==> !OccursAt(hay, needle, j)
    ensures r == -1 ==> forall j :: from <= j ==> !OccursAt(hay, needle, j)
    decreases |hay| - from
  {
    if from + |needle| > |hay| then -1
    else if hay[from..from + |needle|] == needle then from
    else if from == |hay| then -1
    else FindFrom(hay, needle, from + 1)
  }

  /** `hay.find(needle)`: the first index where `needle` occurs, or -1. */
  function Find(hay: string, needle: string): (r: int)
    ensures r == -1 <==> !Contains(hay, needle)
    ensures r != -1 ==> OccursAt(hay, needle, r)
    ensures r != -1 ==> forall j :: 0 <= j < r ==> !OccursAt(hay, needle, j)
  {
    FindFrom(hay, needle, 0)
  }

  /** `s.rfind(c)` for a single character: the last index holding `c`,
      or -1 when `c` does not occur. */
  function LastIndexOf(s: string, c: char): (r: int)
    ensures -1 <= r < |s|
    ensures r != -1 ==> s[r] == c && forall j :: r < j < |s| ==> s[j] != c
    ensures r == -1 <==> c !in s
  {
    if |s| == 0 then -1
    else if s[|s| - 1] == c then |s| - 1
    else
      assert forall j :: 0 <= j < |s| - 1 ==> s[..|s| - 1][j] == s[j];
      LastIndexOf(s[..|s| - 1], c)
  }

  /** Python's `a < b` on `str`: lexicographic by code point, a proper
      prefix being smaller. */
  predicate Less(a: string, b: string)
    decreases |a|
  {
    if |a| == 0 then |b| > 0
    else if |b| == 0 then false
    else if a[0] != b[0] then a[0] < b[0]
    else Less(a[1..], b[1..])
  }

  predicate LessEq(a: string, b: string) {
    a == b || Less(a, b)
  }

  /** Strings that agree before position `k` and differ there are ordered
      by their characters at `k`. */
  lemma {:induction false} LessAt(a: string, b: string, k: nat)
    requires k < |a| && k < |b| && a[..k] == b[..k] && a[k] < b[k]
    ensures Less(a, b)
  {
    if k > 0 {
      assert a[0] == a[..k][0] == b[..k][0] == b[0];
      assert a[1..][..k - 1] == a[..k][1..] == b[..k][1..] == b[1..][..k - 1];
      LessAt(a[1..], b[1..], k - 1);
    }
  }

  lemma {:induction false} LessIrreflexive(a: string)
    ensures !Less(a, a)
    decreases |a|
  {
    if |a| > 0 {
      LessIrreflexive(a[1..]);
    }
  }

  lemma {:induction false} LessAsymmetric(a: string, b: string)
    requires Less(a, b)
    ensures !Less(b, a)
    decreases |a|
  {
    if |a| > 0 && |b| > 0 && a[0] == b[0] {
      LessAsymmetric(a[1..], b[1..]);
    }
  }

  lemma {:induction false} LessTransitive(a: string, b: string, c: string)
    requires Less(a, b) && Less(b, c)
    ensures Less(a, c)
    decreases |a|
  {
    if |a| > 0 && a[0] == b[0] && b[0] == c[0] {
      LessTransitive(a[1..], b[1..], c[1..]);
    }
  }

  lemma {:induction false} LessTotal(a: string, b: string)
    ensures a == b || Less(a, b) || Less(b, a)
    decreases |a|
  {
    if |a| > 0 && |b| > 0 && a[0] == b[0] {
      LessTotal(a[1..], b[1..]);
      if a[1..] == b[1..] {
        assert a == [a[0]] + a[1..] && b == [b[0]] + b[1..];
      }
    }
  }

  lemma LessEqTransitive(a: string, b: string, c: string)
    requires LessEq(a, b) && LessEq(b, c)
    ensures LessEq(a, c)
  {
    if a != b && b != c {
      LessTransitive(a, b, c);
    }
  }

  lemma LessEqAntisymmetric(a: string, b: string)
    requires LessEq(a, b) && LessEq(b, a)
    ensures a == b
  {
    if a != b {
      LessAsymmetric(a, b);
    }
  }

  /** `not (a < b)` is `b <= a`: the order is total. */
  lemma NotLessIsLessEq(a: string, b: string)
    requires !Less(a, b)
    ensures LessEq(b, a)
  {
    LessTotal(a, b);
  }
}
