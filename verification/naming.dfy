/** How the note store turns project names, titles and timestamps into
    directory and file names, and how it reads them back.

    A version of note `title` stamped `ts` is stored as
    `<Sanitize(title)>_<ts with ':' replaced by '-'>.md`; readers split the
    file's stem at its last `_` and turn `-` back into `:` and `_` back
    into a space. */
module Naming {
  import opened Results
  import opened Strings

  /** The characters the sanitiser keeps: alphanumerics, space, `-`, `_`. */
  predicate IsKept(c: char) {
    IsAlnum(c) || c == ' ' || c == '-' || c == '_'
  }

  /** The characters a sanitised name is made of. */
  predicate IsSafe(c: char) {
    IsAlnum(c) || c == '-' || c == '_'
  }

  predicate AllSafe(s: string) {
    forall i :: 0 <= i < |s| ==> IsSafe(s[i])
  }

  /** `"".join(c for c in s if c.isalnum() or c in (" ", "-", "_"))`. */
  function KeepAllowed(s: string): (r: string)
    ensures forall i :: 0 <= i < |r| ==> IsKept(r[i])
    ensures (forall i :: 0 <= i < |s| ==> IsKept(s[i])) ==> r == s
  {
    if |s| == 0 then []
    else if IsKept(s[0]) then [s[0]] + KeepAllowed(s[1..])
    else KeepAllowed(s[1..])
  }

  function StripLeading(s: string): (r: string)
    ensures forall i :: 0 <= i < |r| ==> r[i] in s
    ensures |s| > 0 && !IsSpace(s[0]) ==> r == s
  {
    if |s| > 0 && IsSpace(s[0]) then StripLeading(s[1..]) else s
  }

  function StripTrailing(s: string): (r: string)
    ensures forall i :: 0 <= i < |r| ==> r[i] in s
    ensures |s| > 0 && !IsSpace(s[|s| - 1]) ==> r == s
  {
    if |s| > 0 && IsSpace(s[|s| - 1]) then StripTrailing(s[..|s| - 1]) else s
  }

  /** `str.strip()`. */
  function Strip(s: string): string {
    StripTrailing(StripLeading(s))
  }

  /** The sanitiser of `_get_project_dir` and `_generate_filename`: keep
      the allowed characters, strip surrounding whitespace, then turn the
      remaining spaces into underscores. */
  function Sanitize(raw: string): (r: string)
    ensures AllSafe(r)
  {
    var kept := KeepAllowed(raw);
    var stripped := Strip(kept);
    assert forall i :: 0 <= i < |stripped| ==> IsKept(stripped[i]) by {
      forall i | 0 <= i < |stripped| ensures IsKept(stripped[i]) {
        var c := stripped[i];
        assert c in StripLeading(kept);
        var j :| 0 <= j < |StripLeading(kept)| && StripLeading(kept)[j] == c;
        assert c in kept;
      }
    }
    ReplaceChar(stripped, ' ', '_')
  }

  /** A sanitised name is left alone by the sanitiser. */
  lemma SanitizeKeepsSafe(s: string)
    requires AllSafe(s)
    ensures Sanitize(s) == s
  {
    SanitizeInner(s);
    assert ReplaceChar(s, ' ', '_') == s;
  }

  /** The names the sanitiser leaves unchanged are exactly the names made
      of alphanumerics, `-` and `_`. */
  lemma SanitizeFixedPoints(s: string)
    ensures Sanitize(s) == s <==> AllSafe(s)
  {
    if AllSafe(s) {
      SanitizeKeepsSafe(s);
    }
  }

  /** Sanitising twice gives what sanitising once gives. */
  lemma SanitizeIdempotent(raw: string)
    ensures Sanitize(Sanitize(raw)) == Sanitize(raw)
  {
    SanitizeKeepsSafe(Sanitize(raw));
  }

  /** The alphanumeric characters of `s`, in order: what the sanitiser
      never drops. */
  function Alnums(s: string): string {
    if |s| == 0 then []
    else if IsAlnum(s[0]) then [s[0]] + Alnums(s[1..])
    else Alnums(s[1..])
  }

  /** The filter works character by character: a single character is kept
      exactly when it is allowed, and a concatenation is filtered piecewise.
      Together these determine `KeepAllowed` on every string. */
  lemma KeepAllowedOne(c: char)
    ensures KeepAllowed([c]) == if IsKept(c) then [c] else []
  {
    assert [c][1..] == [];
  }

  lemma {:induction false} KeepAllowedConcat(a: string, b: string)
    ensures KeepAllowed(a + b) == KeepAllowed(a) + KeepAllowed(b)
  {
    if |a| == 0 {
      assert a + b == b;
    } else {
      assert (a + b)[0] == a[0];
      assert (a + b)[1..] == a[1..] + b;
      KeepAllowedConcat(a[1..], b);
    }
  }

  lemma {:induction false} AlnumsConcat(a: string, b: string)
    ensures Alnums(a + b) == Alnums(a) + Alnums(b)
  {
    if |a| == 0 {
      assert a + b == b;
    } else {
      assert (a + b)[0] == a[0];
      assert (a + b)[1..] == a[1..] + b;
      AlnumsConcat(a[1..], b);
    }
  }

  /** Whitespace holds no alphanumeric character. */
  lemma {:induction false} AlnumsOfSpaces(s: string)
    requires forall k :: 0 <= k < |s| ==> IsSpace(s[k])
    ensures Alnums(s) == []
  {
    if |s| > 0 {
      AlnumsOfSpaces(s[1..]);
    }
  }

  /** Filtering keeps every alphanumeric character, in order. */
  lemma {:induction false} AlnumsOfKept(s: string)
    ensures Alnums(KeepAllowed(s)) == Alnums(s)
  {
    if |s| > 0 {
      AlnumsOfKept(s[1..]);
      if IsKept(s[0]) {
        var t := [s[0]] + KeepAllowed(s[1..]);
        assert t[0] == s[0] && t[1..] == KeepAllowed(s[1..]);
      }
    }
  }

  /** `lstrip()` drops exactly the leading whitespace: a prefix of spaces
      followed by a non-space or the end. */
  lemma {:induction false} StripLeadingDrops(s: string) returns (i: nat)
    ensures i <= |s| && StripLeading(s) == s[i..]
    ensures forall k :: 0 <= k < i ==> IsSpace(s[k])
    ensures i < |s| ==> !IsSpace(s[i])
  {
    if |s| > 0 && IsSpace(s[0]) {
      var j := StripLeadingDrops(s[1..]);
      i := j + 1;
      assert s[1..][j..] == s[i..];
      forall k | 0 < k < i ensures IsSpace(s[k]) {
        assert s[k] == s[1..][k - 1];
      }
    } else {
      i := 0;
    }
  }

  /** `rstrip()` drops exactly the trailing whitespace. */
  lemma {:induction false} StripTrailingDrops(s: string) returns (j: nat)
    ensures j <= |s| && StripTrailing(s) == s[..j]
    ensures forall k :: j <= k < |s| ==> IsSpace(s[k])
    ensures j > 0 ==> !IsSpace(s[j - 1])
  {
    if |s| > 0 && IsSpace(s[|s| - 1]) {
      var t := s[..|s| - 1];
      j := StripTrailingDrops(t);
      assert t[..j] == s[..j];
      forall k | j <= k < |s| - 1 ensures IsSpace(s[k]) {
        assert s[k] == t[k];
      }
    } else {
      j := |s|;
    }
  }

  /** Stripping whitespace keeps every alphanumeric character. */
  lemma AlnumsOfStrip(s: string)
    ensures Alnums(Strip(s)) == Alnums(s)
  {
    var i := StripLeadingDrops(s);
    var m := s[i..];
    assert s == s[..i] + m;
    AlnumsConcat(s[..i], m);
    AlnumsOfSpaces(s[..i]);
    var j := StripTrailingDrops(m);
    assert m == m[..j] + m[j..];
    AlnumsConcat(m[..j], m[j..]);
    AlnumsOfSpaces(m[j..]);
  }

  /** Turning spaces into underscores keeps every alphanumeric character. */
  lemma {:induction false} AlnumsOfReplace(s: string)
    ensures Alnums(ReplaceChar(s, ' ', '_')) == Alnums(s)
  {
    if |s| > 0 {
      var r := ReplaceChar(s, ' ', '_');
      assert r[1..] == ReplaceChar(s[1..], ' ', '_');
      AlnumsOfReplace(s[1..]);
    }
  }

  /** The sanitiser keeps every letter and digit of its input, in order:
      only other characters are dropped or rewritten. */
  lemma SanitizeKeepsAlnums(raw: string)
    ensures Alnums(Sanitize(raw)) == Alnums(raw)
  {
    var kept := KeepAllowed(raw);
    AlnumsOfKept(raw);
    AlnumsOfStrip(kept);
    AlnumsOfReplace(Strip(kept));
  }

  /** A name of allowed characters that neither starts nor ends with
      whitespace is only rewritten: each inner space becomes `_`. */
  lemma SanitizeInner(s: string)
    requires forall k :: 0 <= k < |s| ==> IsKept(s[k])
    requires |s| > 0 ==> !IsSpace(s[0]) && !IsSpace(s[|s| - 1])
    ensures Sanitize(s) == ReplaceChar(s, ' ', '_')
  {
    assert KeepAllowed(s) == s;
    if |s| > 0 {
      assert StripLeading(s) == s;
    }
  }

  /** Two safe words joined by a space become one name joined by `_`. */
  lemma SanitizeJoin(x: string, y: string)
    requires AllSafe(x) && AllSafe(y) && |x| > 0 && |y| > 0
    ensures Sanitize(x + " " + y) == x + "_" + y
  {
    var s := x + " " + y;
    forall k | 0 <= k < |s| ensures IsKept(s[k]) {
      if k < |x| {
        assert s[k] == x[k];
      } else if k > |x| {
        assert s[k] == y[k - |x| - 1];
      }
    }
    assert s[0] == x[0] && s[|s| - 1] == y[|y| - 1];
    SanitizeInner(s);
    var r := ReplaceChar(s, ' ', '_');
    forall k | 0 <= k < |s| ensures r[k] == (x + "_" + y)[k] {
      if k < |x| {
        assert s[k] == x[k];
      } else if k > |x| {
        assert s[k] == y[k - |x| - 1];
      }
    }
  }

  const Extension: string := ".md"

  /** `timestamp.replace(":", "-")`: the version token put in file names. */
  function VersionToken(ts: string): (r: string)
    ensures ':' !in r
    ensures '_' in r <==> '_' in ts
  {
    var r := ReplaceChar(ts, ':', '-');
    assert forall i :: 0 <= i < |r| ==> (r[i] == '_' <==> ts[i] == '_');
    r
  }

  /** `_generate_filename(title, ts)`. */
  function FileName(title: string, ts: string): (r: string)
    ensures ':' !in r
    ensures StartsWith(r, Sanitize(title) + "_") && EndsWith(r, Extension)
    ensures |r| >= 4
  {
    var safe := Sanitize(title);
    var r := safe + "_" + VersionToken(ts) + Extension;
    assert forall i :: 0 <= i < |safe| ==> safe[i] != ':';
    assert r[..|safe + "_"|] == safe + "_";
    r
  }

  /** pathlib's `stem`: the name without its last suffix, where a suffix
      starts at the last `.` provided that dot is neither the first nor the
      last character. */
  function Stem(name: string): string {
    var i := LastIndexOf(name, '.');
    if 0 < i < |name| - 1 then name[..i] else name
  }

  /** `stem.rsplit("_", 1)` when it yields two parts: the text before and
      after the last `_`. */
  function SplitLast(stem: string): (r: Option<(string, string)>)
    ensures r.None? <==> '_' !in stem
    ensures r.Some? ==> stem == r.value.0 + "_" + r.value.1 && '_' !in r.value.1
  {
    var i := LastIndexOf(stem, '_');
    if i == -1 then None
    else
      var tail := stem[i + 1..];
      assert '_' !in tail by {
        forall j | 0 <= j < |tail| ensures tail[j] != '_' {
          assert tail[j] == stem[i + 1 + j];
        }
      }
      assert stem == stem[..i] + "_" + tail;
      Some((stem[..i], tail))
  }

  /** `stem.split("_")[-1]`: the text after the last `_`, or the whole stem
      when it holds none. */
  function LastPart(stem: string): (r: string)
    ensures '_' !in r
    ensures '_' in stem ==> exists head :: stem == head + "_" + r
  {
    match SplitLast(stem)
    case None => stem
    case Some(parts) => parts.1
  }

  /** `name.replace("_", " ")`: the display form of a directory or title. */
  function DisplayName(s: string): string {
    ReplaceChar(s, '_', ' ')
  }

  /** `token.replace("-", ":")`: the timestamp readers report for a token. */
  function VersionOf(token: string): string {
    ReplaceChar(token, '-', ':')
  }

  lemma LastIndexIs(s: string, c: char, i: int)
    requires 0 <= i < |s| && s[i] == c
    requires forall j :: i < j < |s| ==> s[j] != c
    ensures LastIndexOf(s, c) == i
  {
    var r := LastIndexOf(s, c);
    assert r != -1 by {
      assert c in s;
    }
  }

  /** Splitting the stem of a generated file name at its last `_` gives
      back the sanitised title and the version token, provided the
      timestamp holds no `_`. */
  lemma FileNameRoundTrip(title: string, ts: string)
    requires '_' !in ts
    ensures SplitLast(Stem(FileName(title, ts))) == Some((Sanitize(title), VersionToken(ts)))
  {
    StemOfFileName(title, ts);
    SplitLastJoin(Sanitize(title), VersionToken(ts));
  }

  /** A generated file name loses exactly its `.md` suffix in `stem`. */
  lemma StemOfFileName(title: string, ts: string)
    ensures Stem(FileName(title, ts)) == Sanitize(title) + "_" + VersionToken(ts)
  {
    var stem := Sanitize(title) + "_" + VersionToken(ts);
    var name := FileName(title, ts);
    assert name == stem + ".md";
    LastIndexIs(name, '.', |stem|);
  }

  /** `rsplit("_", 1)` undoes joining with `_` when the tail holds none. */
  lemma SplitLastJoin(head: string, tail: string)
    requires '_' !in tail
    ensures SplitLast(head + "_" + tail) == Some((head, tail))
  {
    var stem := head + "_" + tail;
    forall j | |head| < j < |stem| ensures stem[j] != '_' {
      assert stem[j] == tail[j - |head| - 1];
    }
    LastIndexIs(stem, '_', |head|);
    assert stem[..|head|] == head;
    assert stem[|head| + 1..] == tail;
  }

  /** A stem is a prefix of its name. */
  lemma StemIsPrefix(name: string)
    ensures |Stem(name)| <= |name| && name[..|Stem(name)|] == Stem(name)
  {
  }

  /** The last part of a stem is its suffix. */
  lemma LastPartIsSuffix(stem: string)
    ensures |LastPart(stem)| <= |stem| && stem[|stem| - |LastPart(stem)|..] == LastPart(stem)
  {
    if '_' in stem {
      var parts := SplitLast(stem).value;
      assert stem == parts.0 + "_" + parts.1;
    }
  }

  /** Turning `-` into `:` and back restores a token that held no `:`. */
  lemma VersionTokenOfVersion(token: string)
    requires ':' !in token
    ensures VersionToken(VersionOf(token)) == token
  {
  }

  /** A generated file name contains the version token of its clock
      reading. */
  lemma FileNameHasToken(title: string, ts: string)
    ensures Contains(FileName(title, ts), VersionToken(ts))
  {
    var safe := Sanitize(title);
    var name := FileName(title, ts);
    assert name == safe + "_" + VersionToken(ts) + Extension;
    assert OccursAt(name, VersionToken(ts), |safe| + 1);
  }

  /** Readers get back the clock reading a name was made from exactly
      when that reading holds no `-`; an ISO date always does, so its
      hyphens come back as colons. */
  lemma ClockReadingRoundTrip(ts: string)
    ensures VersionOf(VersionToken(ts)) == ts <==> '-' !in ts
  {
    var back := VersionOf(VersionToken(ts));
    if '-' in ts {
      var i :| 0 <= i < |ts| && ts[i] == '-';
      assert back[i] == ':';
    } else {
      assert forall i :: 0 <= i < |ts| ==> back[i] == ts[i];
    }
  }
}
