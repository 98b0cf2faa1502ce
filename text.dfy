/** Python's notion of whitespace and its argument-less `str.strip()`,
    which every stage of the pipeline relies on. */
module Text {

  /** The code-point ranges of the characters for which Python's
      `str.isspace()` holds; `re`'s `\s` class on `str` patterns matches exactly
      the same set. */
  const SpaceRanges: seq<(int, int)> :=
    [(0x09, 0x0D), (0x1C, 0x20), (0x85, 0x85), (0xA0, 0xA0), (0x1680, 0x1680),
     (0x2000, 0x200A), (0x2028, 0x2029), (0x202F, 0x202F), (0x205F, 0x205F), (0x3000, 0x3000)]

  /** `n` lies in one of the first `k` ranges. */
  predicate InRanges(n: int, k: nat)
    requires k <= |SpaceRanges|
  {
    k > 0 && ((SpaceRanges[k - 1].0 <= n <= SpaceRanges[k - 1].1) || InRanges(n, k - 1))
  }

  /** Whitespace in Python's sense. */
  predicate IsSpace(c: char) {
    InRanges(c as int, |SpaceRanges|)
  }

  /** The whitespace table written out. */
  lemma IsSpaceCodes(c: char)
    ensures IsSpace(c) <==>
      var n := c as int;
      || (0x09 <= n <= 0x0D) || (0x1C <= n <= 0x20) || n == 0x85 || n == 0xA0 || n == 0x1680
      || (0x2000 <= n <= 0x200A) || n == 0x2028 || n == 0x2029 || n == 0x202F || n == 0x205F || n == 0x3000
  {
    var n := c as int;
    assert InRanges(n, 10) <==> n == 0x3000 || InRanges(n, 9);
    assert InRanges(n, 9) <==> n == 0x205F || InRanges(n, 8);
    assert InRanges(n, 8) <==> n == 0x202F || InRanges(n, 7);
    assert InRanges(n, 7) <==> (0x2028 <= n <= 0x2029) || InRanges(n, 6);
    assert InRanges(n, 6) <==> (0x2000 <= n <= 0x200A) || InRanges(n, 5);
    assert InRanges(n, 5) <==> n == 0x1680 || InRanges(n, 4);
    assert InRanges(n, 4) <==> n == 0xA0 || InRanges(n, 3);
    assert InRanges(n, 3) <==> n == 0x85 || InRanges(n, 2);
    assert InRanges(n, 2) <==> (0x1C <= n <= 0x20) || InRanges(n, 1);
    assert InRanges(n, 1) <==> (0x09 <= n <= 0x0D);
  }

  /** Every character of `s[lo..hi]` is whitespace. */
  predicate SpaceBetween(s: string, lo: nat, hi: nat)
    requires lo <= hi <= |s|
  {
    forall m :: lo <= m < hi ==> IsSpace(s[m])
  }

  /** Neither the first nor the last character is whitespace. */
  predicate NoEdgeSpace(s: string) {
    s == [] || (!IsSpace(s[0]) && !IsSpace(s[|s| - 1]))
  }

  /** The index of the first non-whitespace character at or after `i`. */
  function SkipForward(s: string, i: nat): (j: nat)
    requires i <= |s|
    ensures i <= j <= |s| && SpaceBetween(s, i, j)
    ensures j == |s| || !IsSpace(s[j])
    decreases |s| - i
  {
    if i < |s| && IsSpace(s[i]) then SkipForward(s, i + 1) else i
  }

  /** `SkipForward` stops at the first non-whitespace character at or after
      `i`: any index past a whitespace run and at a non-whitespace character
      (or the end) is the one it returns. */
  lemma SkipForwardAt(s: string, i: nat, k: nat)
    requires i <= k <= |s| && SpaceBetween(s, i, k)
    requires k == |s| || !IsSpace(s[k])
    ensures SkipForward(s, i) == k
  {
  }

  /** The index just past the last non-whitespace character of `s[lo..j]`. */
  function SkipBackward(s: string, lo: nat, j: nat): (k: nat)
    requires lo <= j <= |s|
    ensures lo <= k <= j && SpaceBetween(s, k, j)
    ensures k == lo || !IsSpace(s[k - 1])
  {
    if lo < j && IsSpace(s[j - 1]) then SkipBackward(s, lo, j - 1) else j
  }

  /** Where `strip()` cuts `s`: the start and end of what it keeps. */
  function StripStart(s: string): nat {
    SkipForward(s, 0)
  }

  function StripEnd(s: string): (hi: nat)
    ensures StripStart(s) <= hi <= |s|
  {
    SkipBackward(s, StripStart(s), |s|)
  }

  /** `s.strip()`: what lies between the cut points. It is empty exactly
      when `s` is all whitespace. */
  function Strip(s: string): (r: string)
    ensures |r| <= |s|
    ensures r == [] <==> SpaceBetween(s, 0, |s|)
  {
    s[StripStart(s)..StripEnd(s)]
  }

  /** After `strip()` no whitespace is left at either end. */
  lemma StripNoEdgeSpace(s: string)
    ensures NoEdgeSpace(Strip(s))
  {
    var lo, hi := StripStart(s), StripEnd(s);
    assert lo < hi ==> s[lo..hi][0] == s[lo] && s[lo..hi][hi - lo - 1] == s[hi - 1];
  }

  /** What `strip()` drops: `Strip(s)` is the infix of `s` between the cut
      points, and everything outside it is whitespace. */
  lemma StripIsInfix(s: string)
    ensures Strip(s) == s[StripStart(s)..StripEnd(s)]
    ensures SpaceBetween(s, 0, StripStart(s)) && SpaceBetween(s, StripEnd(s), |s|)
  {
  }

  /** A string is left alone by `strip()` exactly when its ends are not whitespace. */
  lemma StripFixpoint(s: string)
    ensures Strip(s) == s <==> NoEdgeSpace(s)
  {
    StripIsInfix(s);
    StripNoEdgeSpace(s);
    if NoEdgeSpace(s) && s != [] {
      assert StripStart(s) == 0;
      assert StripEnd(s) == |s|;
    }
  }

  /** `strip()` is idempotent. */
  lemma StripIdempotent(s: string)
    ensures Strip(Strip(s)) == Strip(s)
  {
    StripFixpoint(Strip(s));
  }

  /** The non-whitespace characters of `s`, in order. */
  function NonSpace(s: string): (r: string)
    ensures forall i :: 0 <= i < |r| ==> !IsSpace(r[i])
    ensures |r| <= |s|
  {
    if s == [] then []
    else if IsSpace(s[0]) then NonSpace(s[1..])
    else [s[0]] + NonSpace(s[1..])
  }

  lemma {:induction false} NonSpaceAppend(a: string, b: string)
    ensures NonSpace(a + b) == NonSpace(a) + NonSpace(b)
  {
    if a != [] {
      assert (a + b)[0] == a[0];
      assert (a + b)[1..] == a[1..] + b;
      NonSpaceAppend(a[1..], b);
    } else {
      assert a + b == b;
    }
  }

  /** A string made only of whitespace has no non-whitespace content. */
  lemma {:induction false} NonSpaceOfSpaces(s: string)
    requires SpaceBetween(s, 0, |s|)
    ensures NonSpace(s) == []
  {
    if s != [] {
      NonSpaceOfSpaces(s[1..]);
    }
  }

  /** `strip()` removes whitespace only: the non-whitespace content survives. */
  lemma StripKeepsContent(s: string)
    ensures NonSpace(Strip(s)) == NonSpace(s)
  {
    var lo, hi := StripStart(s), StripEnd(s);
    StripIsInfix(s);
    assert s == s[..lo] + s[lo..hi] + s[hi..];
    NonSpaceAppend(s[..lo] + s[lo..hi], s[hi..]);
    NonSpaceAppend(s[..lo], s[lo..hi]);
    NonSpaceOfSpaces(s[..lo]);
    NonSpaceOfSpaces(s[hi..]);
  }
}
