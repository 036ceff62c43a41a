/** The Arabic-ratio gate (`is_mostly_arabic`, main.py:40-42): a sentence
    passes when more than half of its code points lie in the Arabic block
    U+0600..U+06FF. The source compares `len(matches) > len(text) * 0.5` in
    floating point; for every string length that product is exact, so the
    model states it as the integer comparison `2 * count > |text|`. */
module Gate {
  import Text

  /** The character class `[\u0600-\u06FF]` of the source's regular expression. */
  predicate IsArabic(c: char) {
    '\U{0600}' <= c <= '\U{06FF}'
  }

  /** `re.findall(r'[\u0600-\u06FF]', s)`: the Arabic code points of `s`, in
      order. Exactly the Arabic part of `s` survives, each code point as
      often as it occurs, and nothing else. */
  function ArabicMatches(s: string): (r: string)
    ensures |r| <= |s|
    ensures forall c {:trigger multiset(r)[c]} :: IsArabic(c) ==> multiset(r)[c] == multiset(s)[c]
    ensures forall c {:trigger multiset(r)[c]} :: !IsArabic(c) ==> multiset(r)[c] == 0
    decreases |s|
  {
    if s == [] then []
    else
      assert s == [s[0]] + s[1..];
      (if IsArabic(s[0]) then [s[0]] else []) + ArabicMatches(s[1..])
  }

  /** `is_mostly_arabic`: strictly more than half of the code points are Arabic. */
  predicate IsMostlyArabic(s: string) {
    2 * |ArabicMatches(s)| > |s|
  }

  /** Counting distributes over concatenation. */
  lemma {:induction false} ArabicMatchesAppend(a: string, b: string)
    ensures ArabicMatches(a + b) == ArabicMatches(a) + ArabicMatches(b)
    decreases |a|
  {
    if a == [] {
      assert a + b == b;
    } else {
      var head := if IsArabic(a[0]) then [a[0]] else [];
      assert (a + b)[0] == a[0] && (a + b)[1..] == a[1..] + b;
      assert ArabicMatches(a + b) == head + ArabicMatches(a[1..] + b);
      ArabicMatchesAppend(a[1..], b);
      assert ArabicMatches(a) == head + ArabicMatches(a[1..]);
    }
  }

  /** Every code point of `s` is Arabic exactly when all of `s` matches. */
  lemma {:induction false} AllArabicIff(s: string)
    ensures |ArabicMatches(s)| == |s| <==> forall i :: 0 <= i < |s| ==> IsArabic(s[i])
    decreases |s|
  {
    if s != [] {
      AllArabicIff(s[1..]);
      if forall i :: 0 <= i < |s| ==> IsArabic(s[i]) {
        assert forall i :: 0 <= i < |s[1..]| ==> IsArabic(s[1..][i]) by {
          forall i | 0 <= i < |s[1..]| ensures IsArabic(s[1..][i]) { assert s[1..][i] == s[i + 1]; }
        }
      } else if IsArabic(s[0]) {
        var i :| 0 <= i < |s| && !IsArabic(s[i]);
        assert s[1..][i - 1] == s[i];
      }
    }
  }

  /** The gate's boundary: the empty string is refused, and so is any
      sentence at least half of which is non-Arabic, here a part `a`
      followed by a part `b` with no Arabic code point and at least as long
      as `a`. Exactly half Arabic is not enough. */
  lemma {:induction false} GateBoundary(a: string, b: string)
    requires |a| <= |b|
    requires forall i :: 0 <= i < |b| ==> !IsArabic(b[i])
    ensures !IsMostlyArabic([])
    ensures !IsMostlyArabic(a + b)
  {
    ArabicMatchesAppend(a, b);
    NoArabicMatches(b);
  }

  /** A string without Arabic code points has no matches. */
  lemma {:induction false} NoArabicMatches(s: string)
    requires forall i :: 0 <= i < |s| ==> !IsArabic(s[i])
    ensures ArabicMatches(s) == []
    decreases |s|
  {
    if s != [] {
      assert forall i :: 0 <= i < |s[1..]| ==> s[1..][i] == s[i + 1];
      NoArabicMatches(s[1..]);
    }
  }

  /** A non-empty string made only of Arabic code points passes the gate. */
  lemma AllArabicPasses(s: string)
    requires s != []
    requires forall i :: 0 <= i < |s| ==> IsArabic(s[i])
    ensures IsMostlyArabic(s)
  {
    AllArabicIff(s);
  }

  /** Whitespace counts toward the length but never toward the Arabic
      count, so padding a sentence with whitespace, any amount on either
      side, can only move it toward rejection: if the padded sentence
      passes, so does the bare one. */
  lemma {:induction false} PaddingNeverHelps(pre: string, s: string, post: string)
    requires Text.AllSpace(pre) && Text.AllSpace(post)
    ensures IsMostlyArabic(pre + s + post) ==> IsMostlyArabic(s)
  {
    NoArabicInSpace(pre);
    NoArabicInSpace(post);
    ArabicMatchesAppend(pre, s);
    ArabicMatchesAppend(pre + s, post);
  }

  /** No whitespace code point lies in the Arabic block. */
  lemma NoArabicInSpace(pad: string)
    requires Text.AllSpace(pad)
    ensures ArabicMatches(pad) == []
  {
    NoArabicMatches(pad);
  }

  /** Worked boundary cases: two Latin letters and one Arabic letter are a
      third Arabic and are refused; a Latin phrase is refused; a short
      Arabic word passes. */
  lemma GateExamples()
    ensures !IsMostlyArabic("ab\U{0628}")
    ensures !IsMostlyArabic("hello world")
    ensures IsMostlyArabic("\U{0630}\U{0647}\U{0628}")
  {
  }

  /** Reading a sentence left to right and counting Arabic code points gives
      the length of the source's match list. */
  method CountArabic(s: string) returns (n: nat)
    ensures n == |ArabicMatches(s)|
    ensures n <= |s|
  {
    n := 0;
    var i := 0;
    while i < |s|
      invariant 0 <= i <= |s|
      invariant n == |ArabicMatches(s[..i])|
    {
      assert s[..i + 1] == s[..i] + [s[i]];
      ArabicMatchesAppend(s[..i], [s[i]]);
      if IsArabic(s[i]) {
        n := n + 1;
      }
      i := i + 1;
    }
    assert s[..i] == s;
  }
}
