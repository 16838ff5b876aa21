/**
 * The three Python string operations the service relies on:
 * `str.strip()`, `str.replace(pattern, "")` and `str.split("\n")[0]`.
 * Each is written index by index over its argument.
 */
module PyText {

  /** Python's `str.isspace` for a single code point: the characters `str.strip()` removes. */
  predicate IsSpace(c: char) {
    || c == ' '
    || '\t' <= c <= '\r'              // \t \n \v \f \r
    || '\U{1c}' <= c <= '\U{1f}'      // file, group, record and unit separators
    || c == '\U{85}' || c == '\U{a0}' || c == '\U{1680}'
    || '\U{2000}' <= c <= '\U{200a}'
    || c == '\U{2028}' || c == '\U{2029}' || c == '\U{202f}' || c == '\U{205f}' || c == '\U{3000}'
  }

  predicate AllSpace(s: string) {
    forall k :: 0 <= k < |s| ==> IsSpace(s[k])
  }

  /** The first index at or after `i` that does not hold whitespace (or `|s|`). */
  function SkipSpace(s: string, i: nat): (j: nat)
    requires i <= |s|
    ensures i <= j <= |s|
    ensures forall k :: i <= k < j ==> IsSpace(s[k])
    ensures j < |s| ==> !IsSpace(s[j])
    decreases |s| - i
  {
    if i < |s| && IsSpace(s[i]) then SkipSpace(s, i + 1) else i
  }

  /** The end of `s[lo..hi]` once its trailing whitespace is dropped. */
  function SkipSpaceBack(s: string, lo: nat, hi: nat): (j: nat)
    requires lo <= hi <= |s|
    ensures lo <= j <= hi
    ensures forall k :: j <= k < hi ==> IsSpace(s[k])
    ensures lo < j ==> !IsSpace(s[j - 1])
    decreases hi
  {
    if lo < hi && IsSpace(s[hi - 1]) then SkipSpaceBack(s, lo, hi - 1) else hi
  }

  /** `s.strip()`: `s` without its leading and trailing whitespace. */
  function Strip(s: string): (r: string)
    ensures |r| <= |s|
    ensures r != [] ==> !IsSpace(r[0]) && !IsSpace(r[|r| - 1])
  {
    var i := SkipSpace(s, 0);
    s[i..SkipSpaceBack(s, i, |s|)]
  }

  /**
   * Reference definition of `strip`: `r` is the slice `s[i..i + |r|]`, everything outside
   * the slice is whitespace, and the slice neither starts nor ends with whitespace.
   */
  ghost predicate IsStripOf(s: string, r: string) {
    exists i :: IsStripAt(s, r, i)
  }

  ghost predicate IsStripAt(s: string, r: string, i: int) {
    && 0 <= i <= i + |r| <= |s|
    && r == s[i..i + |r|]
    && (forall k :: 0 <= k < i ==> IsSpace(s[k]))
    && (forall k :: i + |r| <= k < |s| ==> IsSpace(s[k]))
    && (r != [] ==> !IsSpace(r[0]) && !IsSpace(r[|r| - 1]))
  }

  /** `Strip` meets the reference definition. */
  lemma StripMeetsReference(s: string)
    ensures IsStripAt(s, Strip(s), SkipSpace(s, 0))
  {
    var i := SkipSpace(s, 0);
    var j := SkipSpaceBack(s, i, |s|);
    var r := Strip(s);
    assert r == s[i..j];
    if r != [] {
      assert r[0] == s[i];
      assert r[|r| - 1] == s[j - 1];
    }
  }

  /** Anything that meets the reference definition is `Strip(s)`: the definition determines `strip`. */
  lemma ReferenceIsStrip(s: string, r: string)
    requires IsStripOf(s, r)
    ensures r == Strip(s)
  {
    var i :| IsStripAt(s, r, i);
    StripMeetsReference(s);
    var t := Strip(s);
    var j := SkipSpace(s, 0);
    if r != [] {
      assert s[i] == r[0];
      assert s[i + |r| - 1] == r[|r| - 1];
    }
    if t != [] {
      assert s[j] == t[0];
      assert s[j + |t| - 1] == t[|t| - 1];
    }
  }

  /** A non-empty stripped string starts with a character that is not whitespace. */
  lemma StripStartsSolid(s: string)
    ensures Strip(s) != [] ==> !IsSpace(Strip(s)[0])
  {
    StripMeetsReference(s);
  }

  /** A stripped string starts and ends with non-whitespace, so stripping again changes nothing. */
  lemma StripIdempotent(s: string)
    ensures Strip(Strip(s)) == Strip(s)
  {
    var t := Strip(s);
    StripMeetsReference(s);
    assert t[0..|t|] == t;
    assert IsStripAt(t, t, 0);
    ReferenceIsStrip(t, t);
  }

  /** `strip` yields the empty string exactly when the input is all whitespace. */
  lemma StripEmptyIff(s: string)
    ensures Strip(s) == [] <==> AllSpace(s)
  {
    StripMeetsReference(s);
    if AllSpace(s) {
      assert IsStripAt(s, [], 0);
      ReferenceIsStrip(s, []);
    }
  }

  /** A string that neither starts nor ends with whitespace is its own strip. */
  lemma StripNoOp(s: string)
    requires s != [] ==> !IsSpace(s[0]) && !IsSpace(s[|s| - 1])
    ensures Strip(s) == s
  {
    assert s[0..|s|] == s;
    assert IsStripAt(s, s, 0);
    ReferenceIsStrip(s, s);
  }

  /** Whitespace appended at the end does not survive `strip`. */
  lemma StripDropsTrailingSpace(s: string, w: string)
    requires AllSpace(w)
    ensures Strip(s + w) == Strip(s)
  {
    var t := Strip(s);
    var i := SkipSpace(s, 0);
    StripMeetsReference(s);
    forall k | i + |t| <= k < |s + w| ensures IsSpace((s + w)[k]) {
      if k >= |s| { assert (s + w)[k] == w[k - |s|]; }
    }
    assert (s + w)[i..i + |t|] == s[i..i + |t|];
    assert IsStripAt(s + w, t, i);
    ReferenceIsStrip(s + w, t);
  }

  /**
   * Stripping `w + x`, where `w` is whitespace and `x` starts with a character that is not,
   * keeps `x` up to at least its last character that is not whitespace.
   */
  lemma StripAfterSpace(w: string, x: string, k: int)
    requires AllSpace(w)
    requires 0 <= k < |x| && !IsSpace(x[0]) && !IsSpace(x[k])
    ensures var t := Strip(w + x); k < |t| <= |x| && t[..k + 1] == x[..k + 1]
  {
    var s := w + x;
    StripMeetsReference(s);
    var t := Strip(s);
    var i := SkipSpace(s, 0);
    assert s[|w|] == x[0];
    assert i == |w|;
    assert s[|w| + k] == x[k];
    assert k < |t|;
    assert t[..k + 1] == s[|w|..|w| + k + 1] == x[..k + 1];
  }

  /** Python's `s.replace(pat, "")` applied to `s[i..]`: the non-overlapping occurrences of `pat`
      found left to right are removed; an empty `pat` leaves the text as it is. */
  function RemoveFrom(s: string, pat: string, i: nat): (r: string)
    requires i <= |s|
    ensures |r| <= |s| - i
    decreases |s| - i
  {
    if pat == [] || |s| - i < |pat| then s[i..]
    else if s[i..i + |pat|] == pat then RemoveFrom(s, pat, i + |pat|)
    else [s[i]] + RemoveFrom(s, pat, i + 1)
  }

  /** Python's `s.replace(pat, "")`. */
  function RemoveAll(s: string, pat: string): (r: string)
    ensures |r| <= |s|
  {
    RemoveFrom(s, pat, 0)
  }

  predicate OccursAt(pat: string, s: string, i: int) {
    0 <= i && i + |pat| <= |s| && s[i..i + |pat|] == pat
  }

  /** `pat` occurs in `s` at or after index `i`. */
  ghost predicate OccursFrom(pat: string, s: string, i: int) {
    exists j :: i <= j && OccursAt(pat, s, j)
  }

  /** Removal from `s[i..]` leaves it unchanged exactly when a non-empty `pat` does not occur there. */
  lemma {:induction false} RemoveFromUnchangedIff(s: string, pat: string, i: nat)
    requires pat != [] && i <= |s|
    ensures RemoveFrom(s, pat, i) == s[i..] <==> !OccursFrom(pat, s, i)
    decreases |s| - i
  {
    if |s| - i < |pat| {
    } else if s[i..i + |pat|] == pat {
      assert OccursAt(pat, s, i);
    } else {
      RemoveFromUnchangedIff(s, pat, i + 1);
      assert s[i..] == [s[i]] + s[i + 1..];
      if OccursFrom(pat, s, i) {
        var j :| i <= j && OccursAt(pat, s, j);
        assert j != i;
        assert OccursFrom(pat, s, i + 1);
      }
      if OccursFrom(pat, s, i + 1) {
        var j :| i + 1 <= j && OccursAt(pat, s, j);
        assert OccursFrom(pat, s, i);
      }
    }
  }

  /** `s.replace(pat, "")` changes `s` exactly when a non-empty `pat` occurs in it. */
  lemma RemoveAllUnchangedIff(s: string, pat: string)
    requires pat != []
    ensures RemoveAll(s, pat) == s <==> !OccursFrom(pat, s, 0)
  {
    RemoveFromUnchangedIff(s, pat, 0);
    assert s[0..] == s;
  }

  /** A non-empty string removed from itself leaves nothing. */
  lemma RemoveAllSelf(pat: string)
    requires pat != []
    ensures RemoveAll(pat, pat) == []
  {
    assert pat[0..|pat|] == pat;
  }

  /** A pattern longer than the text cannot occur in it. */
  lemma RemoveAllShorter(s: string, pat: string)
    requires |s| < |pat|
    ensures RemoveAll(s, pat) == s
  {
    assert s[0..] == s;
  }

  /** `s` holds no newline character. */
  predicate SingleLine(s: string) {
    forall k :: 0 <= k < |s| ==> s[k] != '\n'
  }

  /** The index of the first newline at or after `i`, or `|s|` if there is none. */
  function NextNewline(s: string, i: nat): (j: nat)
    requires i <= |s|
    ensures i <= j <= |s|
    ensures forall k :: i <= k < j ==> s[k] != '\n'
    ensures j < |s| ==> s[j] == '\n'
    decreases |s| - i
  {
    if i == |s| || s[i] == '\n' then i else NextNewline(s, i + 1)
  }

  /** Python's `s.split("\n")[0]`: the text before the first newline, or all of `s` if it has none. */
  function FirstLine(s: string): (r: string)
    ensures SingleLine(r)
    ensures |r| <= |s| && r == s[..|r|] && (|r| < |s| ==> s[|r|] == '\n')
  {
    s[..NextNewline(s, 0)]
  }

  /** Reference definition of the first line: a prefix with no newline, followed by a newline or the end. */
  lemma FirstLineIff(s: string, r: string)
    ensures r == FirstLine(s) <==>
      |r| <= |s| && r == s[..|r|] && SingleLine(r) && (|r| < |s| ==> s[|r|] == '\n')
  {
  }
}
