/**
 The few operations on Python `str` values that the assistant relies on:
 `str.isspace`, `str.lower`, `str.find`, the `in` substring test,
 `str.strip` and `str.split` with a one-character separator.
 Lower-casing is modelled on ASCII only (a length-preserving per-character map).
 */
module Text {
  import opened Wrappers

  /** Python's `str.isspace` for one character: the code points with
      bidirectional class WS, B or S, or category Zs. The regular-expression
      class `\s` of a `str` pattern is the same set. */
  predicate IsSpace(c: char) {
    var n := c as int;
    || 0x09 <= n <= 0x0D
    || 0x1C <= n <= 0x20
    || n == 0x85 || n == 0xA0 || n == 0x1680
    || 0x2000 <= n <= 0x200A
    || n == 0x2028 || n == 0x2029 || n == 0x202F || n == 0x205F || n == 0x3000
  }

  predicate AllSpace(s: string) {
    forall i :: 0 <= i < |s| ==> IsSpace(s[i])
  }

  /** A whitespace slice consists of whitespace characters of the whole string. */
  lemma AllSpaceSlice(s: string, lo: int, hi: int)
    requires 0 <= lo <= hi <= |s| && AllSpace(s[lo..hi])
    ensures forall c :: lo <= c < hi ==> IsSpace(s[c])
  {
    forall c | lo <= c < hi
      ensures IsSpace(s[c])
    {
      assert s[lo..hi][c - lo] == s[c];
    }
  }

  /** No leading and no trailing whitespace. */
  predicate IsStripped(s: string) {
    s == [] || (!IsSpace(s[0]) && !IsSpace(s[|s| - 1]))
  }

  /* ---------------- lower-casing ---------------- */

  function LowerChar(c: char): char {
    if 'A' <= c <= 'Z' then (c as int + 32) as char else c
  }

  function Lower(s: string): (r: string)
    ensures |r| == |s|
  {
    if |s| == 0 then [] else [LowerChar(s[0])] + Lower(s[1..])
  }

  /** No upper-case ASCII letter. */
  predicate IsLowerCase(s: string) {
    forall i :: 0 <= i < |s| ==> !('A' <= s[i] <= 'Z')
  }

  /** Element-wise view of `Lower`. */
  lemma {:induction false} LowerAt(s: string, i: int)
    requires 0 <= i < |s|
    ensures Lower(s)[i] == LowerChar(s[i])
    decreases |s|
  {
    if i > 0 {
      LowerAt(s[1..], i - 1);
    }
  }

  /** `Lower` leaves no upper-case letter, and changes nothing else. */
  lemma LowerIsLowerCase(s: string)
    ensures IsLowerCase(Lower(s))
    ensures forall i :: 0 <= i < |s| && !('A' <= s[i] <= 'Z') ==> Lower(s)[i] == s[i]
  {
    LowerEach(s);
  }

  /** Every character of `Lower(s)` is the lower-cased character of `s`. */
  lemma LowerEach(s: string)
    ensures forall i :: 0 <= i < |s| ==> Lower(s)[i] == LowerChar(s[i])
  {
    forall i | 0 <= i < |s|
      ensures Lower(s)[i] == LowerChar(s[i])
    {
      LowerAt(s, i);
    }
  }

  /** Text with no upper-case letter is its own lower-case form. */
  lemma LowerOfLowerCase(s: string)
    requires IsLowerCase(s)
    ensures Lower(s) == s
  {
    LowerEach(s);
  }

  /** Lower-casing works piecewise. */
  lemma {:induction false} LowerAppend(a: string, b: string)
    ensures Lower(a + b) == Lower(a) + Lower(b)
    decreases |a|
  {
    if |a| > 0 {
      LowerAppend(a[1..], b);
      assert (a + b)[1..] == a[1..] + b;
    } else {
      assert a + b == b;
    }
  }

  /** Lower-casing twice is lower-casing once. */
  lemma {:induction false} LowerIdempotent(s: string)
    ensures Lower(Lower(s)) == Lower(s)
    decreases |s|
  {
    if |s| > 0 {
      LowerIdempotent(s[1..]);
      assert Lower(s)[1..] == Lower(s[1..]);
    }
  }

  /* ---------------- substring search ---------------- */

  /** `pat` occurs in `s` starting at index `i`. */
  predicate OccursAt(s: string, pat: string, i: int) {
    0 <= i && i + |pat| <= |s| && s[i..i + |pat|] == pat
  }

  /** The first occurrence of `pat` in `s` starts at `i`. */
  ghost predicate IsFirstOccurrence(s: string, pat: string, i: int) {
    OccursAt(s, pat, i) && forall j :: 0 <= j < i ==> !OccursAt(s, pat, j)
  }

  /** Character-by-character prefix test. */
  predicate StartsWith(s: string, pat: string)
    decreases |pat|
  {
    |pat| == 0 || (|s| > 0 && s[0] == pat[0] && StartsWith(s[1..], pat[1..]))
  }

  lemma {:induction false} StartsWithIff(s: string, pat: string)
    ensures StartsWith(s, pat) <==> |pat| <= |s| && s[..|pat|] == pat
    decreases |pat|
  {
    if |pat| > 0 && |s| > 0 {
      StartsWithIff(s[1..], pat[1..]);
      if s[0] == pat[0] && |pat| <= |s| {
        assert s[..|pat|] == [s[0]] + s[1..][..|pat| - 1];
        assert pat == [pat[0]] + pat[1..];
      }
    }
  }

  /** Python's `s.find(pat, start)`; `None` stands for the `-1` result. */
  function FindFrom(s: string, pat: string, start: nat): (r: Option<nat>)
    ensures r.Some? ==> start <= r.value && OccursAt(s, pat, r.value)
    ensures r.Some? ==> forall j :: start <= j < r.value ==> !OccursAt(s, pat, j)
    ensures r.None? ==> forall j :: start <= j ==> !OccursAt(s, pat, j)
    decreases |s| + 1 - start
  {
    if start + |pat| > |s| then None
    else
      StartsWithIff(s[start..], pat);
      assert s[start..][..|pat|] == s[start..start + |pat|];
      if StartsWith(s[start..], pat) then Some(start)
      else FindFrom(s, pat, start + 1)
  }

  /** Python's `s.find(pat)`. */
  function Find(s: string, pat: string): (r: Option<nat>)
    ensures r.Some? ==> IsFirstOccurrence(s, pat, r.value)
    ensures r.None? ==> forall j :: !OccursAt(s, pat, j)
  {
    FindFrom(s, pat, 0)
  }

  /** Two first occurrences are the same occurrence. */
  lemma FirstOccurrenceUnique(s: string, pat: string, i: int, j: int)
    requires IsFirstOccurrence(s, pat, i) && IsFirstOccurrence(s, pat, j)
    ensures i == j
  {
  }

  /** `find` returns the first occurrence. */
  lemma FindFirstOccurrence(s: string, pat: string, i: int)
    requires IsFirstOccurrence(s, pat, i)
    ensures Find(s, pat) == Some(i)
  {
    var q := Find(s, pat);
    FirstOccurrenceUnique(s, pat, i, q.value);
  }

  /** Occurrences in a suffix are occurrences in the whole string, shifted. */
  lemma OccursAtSuffix(s: string, a: int, pat: string, j: int)
    requires 0 <= a <= |s| && 0 <= j
    ensures OccursAt(s[a..], pat, j) <==> OccursAt(s, pat, a + j)
  {
    if a + j + |pat| <= |s| {
      assert s[a..] == s[a..|s|];
      SliceOfSlice(s, a, |s|, j, j + |pat|);
    }
  }

  /** An occurrence starts with the pattern's first character. */
  lemma OccursAtHead(s: string, pat: string, c: int)
    requires OccursAt(s, pat, c) && |pat| > 0
    ensures s[c] == pat[0]
  {
    assert s[c] == s[c..c + |pat|][0];
  }

  /** `find` from `start` returns the first occurrence at or after `start`. */
  lemma FindFromFirst(s: string, pat: string, start: nat, c: int)
    requires start <= c && OccursAt(s, pat, c)
    requires forall j :: start <= j < c ==> !OccursAt(s, pat, j)
    ensures FindFrom(s, pat, start) == Some(c)
  {
  }

  /** Occurrences in a slice are occurrences in the whole string. */
  lemma OccursAtSlice(s: string, lo: int, hi: int, pat: string, j: int)
    requires 0 <= lo <= hi <= |s| && OccursAt(s[lo..hi], pat, j)
    ensures OccursAt(s, pat, lo + j)
  {
    SliceOfSlice(s, lo, hi, j, j + |pat|);
  }

  /** Where a pattern occurs, so does each of its prefixes. */
  lemma OccursAtPatternPrefix(s: string, pat: string, q: string, i: int)
    requires OccursAt(s, pat, i) && |q| <= |pat| && pat[..|q|] == q
    ensures OccursAt(s, q, i)
  {
    SliceOfSlice(s, i, i + |pat|, 0, |q|);
    assert pat[..|q|] == pat[0..|q|];
  }

  /** A slice of a slice is a slice. */
  lemma SliceOfSlice(s: string, lo: int, hi: int, j: int, k: int)
    requires 0 <= lo <= hi <= |s| && 0 <= j <= k <= hi - lo
    ensures s[lo..hi][j..k] == s[lo + j..lo + k]
  {
    forall m | 0 <= m < k - j
      ensures s[lo..hi][j..k][m] == s[lo + j..lo + k][m]
    {
      assert s[lo..hi][j..k][m] == s[lo..hi][j + m] == s[lo + j + m];
    }
  }

  /** Python's `pat in s`. */
  predicate Contains(s: string, pat: string) {
    Find(s, pat).Some?
  }

  /** An occurrence anywhere makes `in` hold. */
  lemma ContainsAt(s: string, pat: string, i: int)
    requires OccursAt(s, pat, i)
    ensures Contains(s, pat)
  {
  }

  /** The pattern occurs at some position of `s`. */
  ghost predicate Occurs(s: string, pat: string) {
    exists i: int :: OccursAt(s, pat, i)
  }

  /** `in` holds exactly when the pattern occurs at some position. */
  lemma ContainsExists(s: string, pat: string)
    ensures Contains(s, pat) <==> Occurs(s, pat)
  {
    if Contains(s, pat) {
      assert OccursAt(s, pat, Find(s, pat).value);
    }
  }

  /** A pattern longer than the text cannot occur in it. */
  lemma ShorterAbsent(s: string, pat: string)
    requires |s| < |pat|
    ensures !Contains(s, pat)
  {
  }

  /** An occurrence inside a suffix is an occurrence in the whole string. */
  lemma ContainsSuffix(s: string, start: int, pat: string)
    requires 0 <= start <= |s| && Contains(s[start..], pat)
    ensures Contains(s, pat)
  {
    var p := Find(s[start..], pat).value;
    OccursAtSuffix(s, start, pat, p);
    ContainsAt(s, pat, start + p);
  }

  /* ---------------- stripping ---------------- */

  /** Python's `s.lstrip()`. */
  function LStrip(s: string): (r: string)
    ensures |r| <= |s| && r == s[|s| - |r|..]
    ensures AllSpace(s[..|s| - |r|])
    ensures r == [] || !IsSpace(r[0])
    decreases |s|
  {
    if |s| > 0 && IsSpace(s[0]) then
      var r := LStrip(s[1..]);
      assert s[..|s| - |r|] == [s[0]] + s[1..][..|s| - 1 - |r|];
      r
    else s
  }

  /** Python's `s.rstrip()`. */
  function RStrip(s: string): (r: string)
    ensures |r| <= |s| && r == s[..|r|]
    ensures AllSpace(s[|r|..])
    ensures r == [] || !IsSpace(r[|r| - 1])
    decreases |s|
  {
    if |s| > 0 && IsSpace(s[|s| - 1]) then
      var r := RStrip(s[..|s| - 1]);
      assert s[|r|..] == s[..|s| - 1][|r|..] + [s[|s| - 1]];
      r
    else s
  }

  /** `r` sits in `s` at offset `a` with only whitespace around it. */
  ghost predicate TrimsAt(s: string, r: string, a: int) {
    && 0 <= a && a + |r| <= |s|
    && s[a..a + |r|] == r
    && AllSpace(s[..a])
    && AllSpace(s[a + |r|..])
  }

  ghost predicate Trims(s: string, r: string) {
    exists a :: TrimsAt(s, r, a)
  }

  /** Python's `s.strip()`: the slice of `s` left after removing the
      whitespace at both ends. */
  function Strip(s: string): (r: string)
    ensures IsStripped(r)
    ensures Trims(s, r)
  {
    var t := LStrip(s);
    var r := RStrip(t);
    StripPieces(s, t, r);
    r
  }

  /** A prefix `r` of a suffix `t` of `s`, with whitespace before `t` and after `r`, trims `s`. */
  lemma StripPieces(s: string, t: string, r: string)
    requires |t| <= |s| && t == s[|s| - |t|..] && AllSpace(s[..|s| - |t|])
    requires |r| <= |t| && r == t[..|r|] && AllSpace(t[|r|..])
    ensures TrimsAt(s, r, |s| - |t|)
  {
    var a := |s| - |t|;
    assert s[a..a + |r|] == t[..|r|];
    assert s[a + |r|..] == t[|r|..];
  }

  /** At most one stripped string trims `s`, so the contract of `Strip`
      determines it. */
  lemma TrimsUnique(s: string, r1: string, r2: string)
    requires IsStripped(r1) && Trims(s, r1)
    requires IsStripped(r2) && Trims(s, r2)
    ensures r1 == r2
  {
    var a1 :| TrimsAt(s, r1, a1);
    var a2 :| TrimsAt(s, r2, a2);
    TrimShape(s, r1, a1);
    TrimShape(s, r2, a2);
    if r1 != [] {
      TrimSlice(s, r1, a1);
      TrimSlice(s, r2, a2);
    }
  }

  /** A stripped trim is empty exactly for an all-whitespace string, and
      otherwise spans from the first to the last non-whitespace character. */
  lemma TrimShape(s: string, r: string, a: int)
    requires TrimsAt(s, r, a) && IsStripped(r)
    ensures r == [] <==> AllSpace(s)
    ensures r != [] ==> a == |s| - |LStrip(s)| && a + |r| == |RStrip(s)|
  {
    if r == [] {
      assert s == s[..a] + s[a..];
      AllSpaceConcat(s[..a], s[a..]);
    } else {
      assert s[a] == r[0];
      assert s[a + |r| - 1] == r[|r| - 1];
      var l := LStrip(s);
      var b := |s| - |l|;
      if b < |s| {
        assert s[b] == l[0];
      }
      assert s[..b] == s[0..b] && s[..a] == s[0..a];
      RunEnd(s, 0, b, a);
      var e := |RStrip(s)|;
      if e > 0 {
        assert s[e - 1] == RStrip(s)[e - 1];
      }
      RunStart(s, e, a + |r|);
    }
  }

  /** A non-empty stripped trim is the slice between the two whitespace runs. */
  lemma TrimSlice(s: string, r: string, a: int)
    requires TrimsAt(s, r, a) && IsStripped(r) && r != []
    ensures r == s[|s| - |LStrip(s)|..|RStrip(s)|]
  {
    TrimShape(s, r, a);
  }

  /** Two ends of the same whitespace run from `lo` are the same. */
  lemma RunEnd(s: string, lo: int, a0: int, a: int)
    requires 0 <= lo <= a0 <= |s| && lo <= a <= |s|
    requires AllSpace(s[lo..a0]) && (a0 < |s| ==> !IsSpace(s[a0]))
    requires AllSpace(s[lo..a]) && (a < |s| ==> !IsSpace(s[a]))
    ensures a0 == a
  {
    AllSpaceSlice(s, lo, a0);
    AllSpaceSlice(s, lo, a);
  }

  /** Two starts of the same trailing whitespace run are the same. */
  lemma RunStart(s: string, e0: int, e: int)
    requires 0 <= e0 <= |s| && 0 <= e <= |s|
    requires AllSpace(s[e0..]) && (e0 > 0 ==> !IsSpace(s[e0 - 1]))
    requires AllSpace(s[e..]) && (e > 0 ==> !IsSpace(s[e - 1]))
    ensures e0 == e
  {
    assert s[e0..] == s[e0..|s|] && s[e..] == s[e..|s|];
    AllSpaceSlice(s, e0, |s|);
    AllSpaceSlice(s, e, |s|);
  }

  /** Trailing whitespace after a text that does not end in whitespace is exactly what `RStrip` removes. */
  lemma {:induction false} RStripPadded(g: string, w: string)
    requires AllSpace(w) && (g == [] || !IsSpace(g[|g| - 1]))
    ensures RStrip(g + w) == g
    decreases |w|
  {
    if w == [] {
      assert g + w == g;
    } else {
      var w' := w[..|w| - 1];
      assert (g + w)[..|g + w| - 1] == g + w';
      assert (g + w)[|g + w| - 1] == w[|w| - 1];
      RStripPadded(g, w');
    }
  }

  /** A string without surrounding whitespace is left as it is. */
  lemma StripStripped(s: string)
    requires IsStripped(s)
    ensures Strip(s) == s
  {
    assert TrimsAt(s, s, 0);
    TrimsUnique(s, Strip(s), s);
  }

  lemma AllSpaceConcat(x: string, y: string)
    requires AllSpace(x) && AllSpace(y)
    ensures AllSpace(x + y)
  {
  }

  lemma TrimsPadded(w1: string, s: string, w2: string, r: string, a: int)
    requires AllSpace(w1) && AllSpace(w2)
    requires TrimsAt(s, r, a)
    ensures TrimsAt(w1 + s + w2, r, |w1| + a)
  {
    var t := w1 + s + w2;
    var b := |w1| + a;
    assert t[b..b + |r|] == s[a..a + |r|];
    assert t[..b] == w1 + s[..a];
    assert t[b + |r|..] == s[a + |r|..] + w2;
    AllSpaceConcat(w1, s[..a]);
    AllSpaceConcat(s[a + |r|..], w2);
  }

  /** Whitespace added at either end makes no difference to `strip`. */
  lemma StripAbsorbsSpace(w1: string, s: string, w2: string)
    requires AllSpace(w1) && AllSpace(w2)
    ensures Strip(w1 + s + w2) == Strip(s)
  {
    var r := Strip(s);
    var a :| TrimsAt(s, r, a);
    TrimsPadded(w1, s, w2, r, a);
    TrimsUnique(w1 + s + w2, Strip(w1 + s + w2), r);
  }

  /** The result of `strip` occurs in its argument. */
  lemma StripContained(s: string)
    ensures Contains(s, Strip(s))
  {
    var a :| TrimsAt(s, Strip(s), a);
    ContainsAt(s, Strip(s), a);
  }

  /* ---------------- splitting ---------------- */

  /** Python's `s.split(sep)` for a one-character separator: every
      separator cuts, empty pieces are kept, and the result is never empty. */
  function Split(s: string, sep: char): (r: seq<string>)
    ensures |r| >= 1
    ensures forall i :: 0 <= i < |r| ==> sep !in r[i]
    decreases |s|
  {
    if |s| == 0 then [""]
    else
      if s[0] == sep then [""] + Split(s[1..], sep)
      else PrependToFirst(s[0], Split(s[1..], sep))
  }

  /** Puts `c` in front of the first piece. */
  function PrependToFirst(c: char, pieces: seq<string>): (r: seq<string>)
    requires |pieces| >= 1
    ensures |r| == |pieces| && r[0] == [c] + pieces[0] && r[1..] == pieces[1..]
  {
    [[c] + pieces[0]] + pieces[1..]
  }

  /** Python's `sep.join(parts)`. */
  function Join(parts: seq<string>, sep: char): string
    requires |parts| >= 1
    decreases |parts|
  {
    if |parts| == 1 then parts[0] else parts[0] + [sep] + Join(parts[1..], sep)
  }

  /** Joining the pieces again gives back the string that was split. */
  lemma {:induction false} JoinSplit(s: string, sep: char)
    ensures Join(Split(s, sep), sep) == s
    decreases |s|
  {
    if |s| > 0 {
      var rest := Split(s[1..], sep);
      JoinSplit(s[1..], sep);
      if s[0] != sep {
        if |rest| > 1 {
          assert ([[s[0]] + rest[0]] + rest[1..])[1..] == rest[1..];
        }
      }
    }
  }

  /** Splitting a joined list gives back the list, when no piece holds the
      separator. */
  lemma {:induction false} SplitJoin(parts: seq<string>, sep: char)
    requires |parts| >= 1
    requires forall i :: 0 <= i < |parts| ==> sep !in parts[i]
    ensures Split(Join(parts, sep), sep) == parts
    decreases |parts|
  {
    if |parts| == 1 {
      SplitNoSep(parts[0], sep);
    } else {
      SplitJoin(parts[1..], sep);
      SplitPrefix(parts[0], Join(parts[1..], sep), sep);
    }
  }

  lemma {:induction false} SplitNoSep(s: string, sep: char)
    requires sep !in s
    ensures Split(s, sep) == [s]
    decreases |s|
  {
    if |s| > 0 {
      SplitNoSep(s[1..], sep);
      assert [s[0]] + s[1..] == s;
    }
  }

  lemma {:induction false} SplitPrefix(p: string, rest: string, sep: char)
    requires sep !in p
    ensures Split(p + [sep] + rest, sep) == [p] + Split(rest, sep)
    decreases |p|
  {
    if |p| == 0 {
      assert p + [sep] + rest == [sep] + rest;
      assert ([sep] + rest)[1..] == rest;
    } else {
      var s := p + [sep] + rest;
      assert s[1..] == p[1..] + [sep] + rest;
      SplitPrefix(p[1..], rest, sep);
      assert [p[0]] + p[1..] == p;
    }
  }
}
