/**
 Extraction of a JSON document from a model's reply: the reply is stripped,
 the content of the first fenced block opened by "```json" is taken when
 there is one, and the selected text goes to a JSON decoder. The decoder is
 a parameter; a failed decode is its `None`.

 The search is stated for any opening and closing delimiter, so that the
 proofs do not depend on the characters of the fences beyond the few facts
 `FenceFacts` records.
 */
module Parsers {
  import opened Wrappers
  import opened Text

  const OpenFence: string := "```json"
  const CloseFence: string := "```"

  /** The properties of the two fences that the search relies on. */
  lemma FenceFacts()
    ensures |OpenFence| == 7 && |CloseFence| == 3
    ensures forall m :: 0 <= m < |CloseFence| ==> CloseFence[m] == '`'
    ensures !IsSpace('`')
    ensures OpenFence[..|CloseFence|] == CloseFence
  {
  }

  /* ---------------- the search, for any delimiters ---------------- */

  /** The end of the whitespace run that starts at `lo`: what `\s*` consumes. */
  function SkipSpace(s: string, lo: nat): (a: nat)
    requires lo <= |s|
    ensures lo <= a <= |s|
    ensures forall j :: lo <= j < a ==> IsSpace(s[j])
    ensures a < |s| ==> !IsSpace(s[a])
    decreases |s| - lo
  {
    if lo < |s| && IsSpace(s[lo]) then SkipSpace(s, lo + 1) else lo
  }

  /** Group 1 of a search for `opening\s*(.*?)\s*closing` (dot matching
      newlines), when `closing` starts with a non-whitespace character (as
      `FirstDelimitedMatchIff` requires): after the first `opening` and the
      whitespace that follows it, the text up to the first `closing`, without
      its trailing whitespace. `None` when there is no `closing` after the
      first `opening`. A `closing` that starts with whitespace could make the
      regular expression backtrack into the first `\s*`, which this does not
      model. */
  function FirstDelimited(s: string, opening: string, closing: string): (r: Option<string>)
    ensures r.Some? ==> IsStripped(r.value)
    ensures r.Some? && |closing| > 0 ==> !Contains(r.value, closing)
  {
    match Find(s, opening)
    case None => None
    case Some(i) =>
      var a := SkipSpace(s, i + |opening|);
      match FindFrom(s, closing, a)
      case None => None
      case Some(c) =>
        GroupHasNoClosing(s, closing, a, c);
        Some(RStrip(s[a..c]))
  }

  /** The group ends before the first closing delimiter, so it holds none. */
  lemma GroupHasNoClosing(s: string, closing: string, a: int, c: int)
    requires 0 <= a <= c <= |s| && (a < |s| ==> !IsSpace(s[a]))
    requires forall j :: a <= j < c ==> !OccursAt(s, closing, j)
    ensures IsStripped(RStrip(s[a..c]))
    ensures |closing| > 0 ==> !Contains(RStrip(s[a..c]), closing)
  {
    var g := RStrip(s[a..c]);
    assert g == s[a..c][..|g|];
    if g != [] {
      assert g[0] == s[a];
    }
    if |closing| > 0 && Contains(g, closing) {
      var p := Find(g, closing).value;
      assert g == s[a..a + |g|];
      OccursAtSlice(s, a, a + |g|, closing, p);
    }
  }

  /** The match the search finds: `i` is the first opening delimiter, the
      group starts at `a` after the whitespace that follows it, and `c` is
      the first closing delimiter from there on. */
  ghost predicate DelimitedAt(s: string, opening: string, closing: string, i: int, a: int, c: int) {
    && IsFirstOccurrence(s, opening, i)
    && OccursAt(s, closing, c)
    && i + |opening| <= a <= c
    && (forall j :: i + |opening| <= j < a ==> IsSpace(s[j]))
    && (a < |s| ==> !IsSpace(s[a]))
    && (forall j :: a <= j < c ==> !OccursAt(s, closing, j))
  }

  /** The group is the trailing-trimmed text between the group start and
      the first closing delimiter after the first opening one. */
  lemma FirstDelimitedIsBlock(s: string, opening: string, closing: string)
    requires FirstDelimited(s, opening, closing).Some?
    ensures exists i, a, c :: DelimitedAt(s, opening, closing, i, a, c)
                           && FirstDelimited(s, opening, closing).value == RStrip(s[a..c])
  {
    var i := Find(s, opening).value;
    var a := SkipSpace(s, i + |opening|);
    var c := FindFrom(s, closing, a).value;
    assert DelimitedAt(s, opening, closing, i, a, c);
  }

  /** The search has one answer. */
  lemma DelimitedAtUnique(s: string, opening: string, closing: string, i: int, a: int, c: int, i': int, a': int, c': int)
    requires DelimitedAt(s, opening, closing, i, a, c) && DelimitedAt(s, opening, closing, i', a', c')
    ensures i == i' && a == a' && c == c'
  {
    FirstOccurrenceUnique(s, opening, i, i');
  }

  /** Conversely, the search returns the trailing-trimmed group of the block it matches. */
  lemma DelimitedAtFound(s: string, opening: string, closing: string, i: int, a: int, c: int)
    requires DelimitedAt(s, opening, closing, i, a, c)
    ensures FirstDelimited(s, opening, closing) == Some(RStrip(s[a..c]))
  {
    FindFirstOccurrence(s, opening, i);
    var a0 := SkipSpace(s, i + |opening|);
    assert a0 == a;
    FindFromFirst(s, closing, a, c);
  }

  /** With a closing delimiter that starts with a non-space character, the
      search succeeds exactly when some opening delimiter is followed, at or
      after its end, by a closing one. */
  lemma FirstDelimitedMatchIff(s: string, opening: string, closing: string)
    requires |closing| > 0 && !IsSpace(closing[0])
    ensures FirstDelimited(s, opening, closing).Some? <==>
            exists i, c :: OccursAt(s, opening, i) && OccursAt(s, closing, c) && i + |opening| <= c
  {
    if FirstDelimited(s, opening, closing).Some? {
      var i := Find(s, opening).value;
      var c := FindFrom(s, closing, SkipSpace(s, i + |opening|)).value;
      assert OccursAt(s, opening, i) && OccursAt(s, closing, c);
    }
    if exists i, c :: OccursAt(s, opening, i) && OccursAt(s, closing, c) && i + |opening| <= c {
      var i0, c0 :| OccursAt(s, opening, i0) && OccursAt(s, closing, c0) && i0 + |opening| <= c0;
      MatchFromDelimiters(s, opening, closing, i0, c0);
    }
  }

  /** An opening delimiter followed by a closing one makes the search succeed:
      the closing one lies beyond the whitespace after the first opening one. */
  lemma MatchFromDelimiters(s: string, opening: string, closing: string, i0: int, c0: int)
    requires |closing| > 0 && !IsSpace(closing[0])
    requires OccursAt(s, opening, i0) && OccursAt(s, closing, c0) && i0 + |opening| <= c0
    ensures FirstDelimited(s, opening, closing).Some?
  {
    var i := Find(s, opening).value;
    var a := SkipSpace(s, i + |opening|);
    OccursAtHead(s, closing, c0);
    assert i <= i0;
    assert !IsSpace(s[c0]);
  }

  /** A text holding no closing delimiter holds no opening one either when
      the closing delimiter begins the opening one, so the search fails on it. */
  lemma NoClosingNoMatch(g: string, opening: string, closing: string)
    requires |closing| <= |opening| && opening[..|closing|] == closing
    requires !Contains(g, closing)
    ensures FirstDelimited(g, opening, closing).None?
  {
    if Find(g, opening).Some? {
      var i := Find(g, opening).value;
      OccursAtPatternPrefix(g, opening, closing, i);
      ContainsAt(g, closing, i);
    }
  }

  /* ---------------- a delimited block, built ---------------- */

  /** Every character of an occurrence of a one-character-repeated delimiter is that character. */
  lemma RepeatedChar(u: string, closing: string, ch: char, j: int, k: int)
    requires forall m :: 0 <= m < |closing| ==> closing[m] == ch
    requires OccursAt(u, closing, j) && j <= k < j + |closing|
    ensures u[k] == ch
  {
    assert u[k] == u[j..j + |closing|][k - j];
  }

  /** In a group followed by whitespace and the closing delimiter, that
      delimiter is the first one, provided the group holds none and does not
      end in the delimiter's character. */
  lemma FirstClosingAfterGroup(g: string, w: string, closing: string, ch: char, j: int)
    requires |closing| > 0 && (forall m :: 0 <= m < |closing| ==> closing[m] == ch) && !IsSpace(ch)
    requires AllSpace(w) && !Contains(g, closing) && (g == [] || g[|g| - 1] != ch)
    requires 0 <= j < |g| + |w|
    ensures !OccursAt(g + w + closing, closing, j)
  {
    var u := g + w + closing;
    if OccursAt(u, closing, j) {
      if j + |closing| <= |g| {
        assert u[j..j + |closing|] == g[j..j + |closing|];
        ContainsAt(g, closing, j);
      } else if j < |g| {
        RepeatedChar(u, closing, ch, j, |g| - 1);
      } else {
        assert u[j] == w[j - |g|];
        RepeatedChar(u, closing, ch, j, j);
      }
    }
  }

  /** The closing delimiter of a built block. */
  lemma ClosingOfBlock(s: string, b: int, g: string, w2: string, closing: string)
    requires 0 <= b <= |s| && s[b..] == g + w2 + closing
    ensures OccursAt(s, closing, b + |g| + |w2|)
  {
    var u := g + w2 + closing;
    assert u[|g| + |w2|..|g| + |w2| + |closing|] == closing;
    OccursAtSuffix(s, b, closing, |g| + |w2|);
  }

  /** The positions of a built block: the group starts at `a` and the closing
      delimiter sits at `c`. */
  lemma BuiltBlock(s: string, opening: string, w1: string, g: string, w2: string, closing: string, ch: char)
      returns (a: int, c: int)
    requires s == opening + w1 + g + w2 + closing
    requires |closing| > 0 && (forall m :: 0 <= m < |closing| ==> closing[m] == ch) && !IsSpace(ch)
    requires AllSpace(w1) && AllSpace(w2) && IsStripped(g)
    requires !Contains(g, closing) && (g == [] || g[|g| - 1] != ch)
    ensures DelimitedAt(s, opening, closing, 0, a, c)
    ensures s[a..c] == if g == [] then [] else g + w2
  {
    var lo := |opening|;
    var b := lo + |w1|;
    c := b + |g| + |w2|;
    a := if g == [] then c else b;
    assert s[..lo] == opening;
    assert s[b..] == g + w2 + closing;
    ClosingOfBlock(s, b, g, w2, closing);
    forall j | a <= j < c
      ensures !OccursAt(s, closing, j)
    {
      FirstClosingAfterGroup(g, w2, closing, ch, j - b);
      OccursAtSuffix(s, b, closing, j - b);
    }
    if g == [] {
      assert s[lo..a] == w1 + w2;
      AllSpaceConcat(w1, w2);
      AllSpaceSlice(s, lo, a);
      if a < |s| {
        OccursAtHead(s, closing, c);
      }
    } else {
      assert s[lo..a] == w1;
      AllSpaceSlice(s, lo, a);
      assert s[a] == g[0];
    }
  }

  /** Building a block around a stripped group and searching it gives the
      group back, whatever whitespace surrounds it. */
  lemma FirstDelimitedBuilt(opening: string, w1: string, g: string, w2: string, closing: string, ch: char)
    requires |closing| > 0 && (forall m :: 0 <= m < |closing| ==> closing[m] == ch) && !IsSpace(ch)
    requires AllSpace(w1) && AllSpace(w2) && IsStripped(g)
    requires !Contains(g, closing) && (g == [] || g[|g| - 1] != ch)
    ensures FirstDelimited(opening + w1 + g + w2 + closing, opening, closing) == Some(g)
  {
    var s := opening + w1 + g + w2 + closing;
    var a, c := BuiltBlock(s, opening, w1, g, w2, closing, ch);
    RStripPadded(g, w2);
    DelimitedAtFound(s, opening, closing, 0, a, c);
  }

  /* ---------------- the JSON fence ---------------- */

  /** Group 1 of `re.search(r"```json\s*(.*?)\s*```", s, re.DOTALL)`; `None`
      when the search finds no match. The group never has whitespace at
      either end and never holds a closing fence. */
  function ExtractFenced(s: string): (r: Option<string>)
    ensures r.Some? ==> IsStripped(r.value)
    ensures r.Some? ==> !Contains(r.value, CloseFence)
  {
    FirstDelimited(s, OpenFence, CloseFence)
  }

  /** The search finds a match exactly when some "```json" is followed, at
      or after its end, by "```". */
  lemma MatchIff(s: string)
    ensures ExtractFenced(s).Some? <==>
            exists i, c :: OccursAt(s, OpenFence, i) && OccursAt(s, CloseFence, c) && i + |OpenFence| <= c
  {
    FenceFacts();
    FirstDelimitedMatchIff(s, OpenFence, CloseFence);
  }

  /** A stripped block without a closing fence and not ending in a backtick,
      fenced with any whitespace around it, is extracted unchanged. */
  lemma ExtractWrapped(w1: string, g: string, w2: string)
    requires AllSpace(w1) && AllSpace(w2) && IsStripped(g)
    requires !Contains(g, CloseFence) && (g == [] || g[|g| - 1] != '`')
    ensures ExtractFenced(OpenFence + w1 + g + w2 + CloseFence) == Some(g)
  {
    FenceFacts();
    FirstDelimitedBuilt(OpenFence, w1, g, w2, CloseFence, '`');
  }

  /** The text handed to the decoder: the stripped reply, or the content of
      its first fenced block when there is one. It is stripped and holds no
      fenced block. */
  function SelectJsonText(s: string): (r: string)
    ensures IsStripped(r)
    ensures ExtractFenced(r).None?
  {
    var t := Strip(s);
    match ExtractFenced(t)
    case Some(g) =>
      FenceFacts();
      NoClosingNoMatch(g, OpenFence, CloseFence);
      g
    case None => t
  }

  /** `parse_json_from_gemini` with the decoder `decode` (`json.loads`, whose
      failure is `None`). */
  function ParseJsonFromGemini<J>(s: string, decode: string -> Option<J>): (r: Option<J>)
    ensures ExtractFenced(Strip(s)).None? ==> r == decode(Strip(s))
    ensures ExtractFenced(Strip(s)).Some? ==> r == decode(ExtractFenced(Strip(s)).value)
  {
    decode(SelectJsonText(s))
  }

  /** Selecting from the selected text selects nothing new. */
  lemma SelectIdempotent(s: string)
    ensures SelectJsonText(SelectJsonText(s)) == SelectJsonText(s)
  {
    StripStripped(SelectJsonText(s));
  }

  /** Without a fenced block the whole stripped reply is decoded. */
  lemma ParseWithoutBlock<J>(s: string, decode: string -> Option<J>)
    requires !exists i, c :: OccursAt(Strip(s), OpenFence, i) && OccursAt(Strip(s), CloseFence, c) && i + |OpenFence| <= c
    ensures ParseJsonFromGemini(s, decode) == decode(Strip(s))
  {
    MatchIff(Strip(s));
  }

  /** With one, exactly the block's group is decoded. */
  lemma ParseDecodesBlock<J>(s: string, decode: string -> Option<J>, i: int, a: int, c: int)
    requires DelimitedAt(Strip(s), OpenFence, CloseFence, i, a, c)
    ensures ParseJsonFromGemini(s, decode) == decode(RStrip(Strip(s)[a..c]))
  {
    DelimitedAtFound(Strip(s), OpenFence, CloseFence, i, a, c);
  }

  /** Whitespace around the reply does not change the result. */
  lemma ParseIgnoresSurroundingSpace<J>(w1: string, s: string, w2: string, decode: string -> Option<J>)
    requires AllSpace(w1) && AllSpace(w2)
    ensures ParseJsonFromGemini(w1 + s + w2, decode) == ParseJsonFromGemini(s, decode)
  {
    StripAbsorbsSpace(w1, s, w2);
  }
}
