/** The two pieces of Python string behaviour the service relies on:
    `str.strip()` with no argument, and the substring test `needle in hay`.
    Strings are sequences of Unicode scalar values: Python's `str` without
    the lone surrogates U+D800..U+DFFF it can also hold. */
module Text {

  /** Python's `str.isspace()` for one code point: the characters that
      `str.strip()` removes when given no argument. */
  predicate IsSpace(c: char) {
    || ('\t' <= c <= '\r')
    || ('\U{1C}' <= c <= ' ')
    || c == '\U{85}' || c == '\U{A0}' || c == '\U{1680}'
    || ('\U{2000}' <= c <= '\U{200A}')
    || c == '\U{2028}' || c == '\U{2029}' || c == '\U{202F}' || c == '\U{205F}' || c == '\U{3000}'
  }

  predicate AllSpace(s: string) {
    forall k :: 0 <= k < |s| ==> IsSpace(s[k])
  }

  /** Every code point of `s` from index `lo` up to, not including, `hi` is whitespace. */
  predicate SpaceIn(s: string, lo: nat, hi: nat)
    requires lo <= hi <= |s|
  {
    forall k :: lo <= k < hi ==> IsSpace(s[k])
  }

  /** The slice `s[lo..hi]` neither starts nor ends with whitespace. */
  predicate TrimmedAt(s: string, lo: nat, hi: nat)
    requires lo <= hi <= |s|
  {
    lo < hi ==> !IsSpace(s[lo]) && !IsSpace(s[hi - 1])
  }

  /** `s` without its leading whitespace (`str.lstrip()`). */
  function TrimStart(s: string): (r: string)
    ensures |r| <= |s| && r == s[|s| - |r|..]
    ensures SpaceIn(s, 0, |s| - |r|)
    ensures r == [] || !IsSpace(r[0])
    decreases |s|
  {
    if |s| > 0 && IsSpace(s[0]) then TrimStart(s[1..]) else s
  }

  /** `s` without its trailing whitespace (`str.rstrip()`). */
  function TrimEnd(s: string): (r: string)
    ensures |r| <= |s| && r == s[..|r|]
    ensures SpaceIn(s, |r|, |s|)
    ensures r == [] || !IsSpace(r[|r| - 1])
    decreases |s|
  {
    if |s| > 0 && IsSpace(s[|s| - 1]) then TrimEnd(s[..|s| - 1]) else s
  }

  /** Where the text `str.strip()` keeps begins and ends in `s`: only
      whitespace lies before and after it, and none at its own ends. */
  function StripBounds(s: string): (b: (nat, nat))
    ensures b.0 <= b.1 <= |s|
    ensures SpaceIn(s, 0, b.0) && SpaceIn(s, b.1, |s|) && TrimmedAt(s, b.0, b.1)
  {
    var t := TrimStart(s);
    var r := TrimEnd(t);
    TrailingSpace(s, t, r);
    KeptEnds(s, t, r);
    (|s| - |t|, |s| - |t| + |r|)
  }

  /** What `TrimEnd` removed from the `TrimStart` result is whitespace of `s`. */
  lemma TrailingSpace(s: string, t: string, r: string)
    requires |t| <= |s| && t == s[|s| - |t|..]
    requires |r| <= |t| && SpaceIn(t, |r|, |t|)
    ensures SpaceIn(s, |s| - |t| + |r|, |s|)
  {
  }

  /** The ends of the kept slice are the ends `TrimStart` and `TrimEnd` left. */
  lemma KeptEnds(s: string, t: string, r: string)
    requires |t| <= |s| && t == s[|s| - |t|..] && (t == [] || !IsSpace(t[0]))
    requires |r| <= |t| && r == t[..|r|] && (r == [] || !IsSpace(r[|r| - 1]))
    ensures TrimmedAt(s, |s| - |t|, |s| - |t| + |r|)
  {
  }

  /** Python's `str.strip()`: `s` without leading and trailing whitespace. */
  function Strip(s: string): string {
    s[StripBounds(s).0..StripBounds(s).1]
  }

  /** Stripping is determined by the characterisation: any slice of `s`
      with only whitespace around it and none at its ends is `Strip(s)`. */
  lemma StripUnique(s: string, i: nat, j: nat)
    requires i <= j <= |s|
    requires SpaceIn(s, 0, i) && SpaceIn(s, j, |s|) && TrimmedAt(s, i, j)
    ensures Strip(s) == s[i..j]
  {
  }

  /** Stripping twice changes nothing more than stripping once. */
  lemma StripIdempotent(s: string)
    ensures Strip(Strip(s)) == Strip(s)
  {
    var r := Strip(s);
    var (k, m) := StripBounds(s);
    assert forall n :: 0 <= n < |r| ==> r[n] == s[k + n];
    assert r[0..|r|] == r;
    StripUnique(r, 0, |r|);
  }

  /** A string strips to nothing exactly when it is all whitespace. */
  lemma StripEmptyIff(s: string)
    ensures Strip(s) == [] <==> AllSpace(s)
  {
  }

  /** Python's `needle in hay`: some slice of `hay` equals `needle`. */
  function Contains(hay: string, needle: string): (b: bool)
    ensures b <==> exists i {:trigger hay[i..]} :: 0 <= i <= |hay| - |needle| && hay[i..][..|needle|] == needle
    decreases |hay|
  {
    if |hay| < |needle| then false
    else if hay[..|needle|] == needle then (assert hay[0..][..|needle|] == needle; true)
    else
      var rest := Contains(hay[1..], needle);
      if rest then
        var i :| 0 <= i <= |hay| - 1 - |needle| && hay[1..][i..][..|needle|] == needle;
        assert hay[i + 1..] == hay[1..][i..];
        rest
      else
        assert forall i :: 1 <= i <= |hay| - |needle| ==> hay[i..] == hay[1..][i - 1..];
        assert hay[0..] == hay;
        rest
  }

  /** A string contains itself after any prefix: the base of "the message embeds the body". */
  lemma ContainsSuffix(prefix: string, s: string)
    ensures Contains(prefix + s, s)
  {
    var h := prefix + s;
    assert h[|prefix|..][..|s|] == s;
  }
}
