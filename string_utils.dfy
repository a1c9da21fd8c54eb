/**
 * The two helpers of Apache Commons Lang's StringUtils that the handler uses:
 * `strip(str, stripChars)` with a single strip character and `isBlank(str)`.
 */
module StringUtils {

  /** stripStart: removes every leading occurrence of `c`. */
  function StripStart(s: string, c: char): (r: string)
    ensures |r| <= |s| && r == s[|s| - |r|..]
    ensures forall k :: 0 <= k < |s| - |r| ==> s[k] == c
    ensures r == [] || r[0] != c
  {
    if |s| > 0 && s[0] == c then StripStart(s[1..], c) else s
  }

  /** stripEnd: removes every trailing occurrence of `c`. */
  function StripEnd(s: string, c: char): (r: string)
    ensures r <= s
    ensures forall k :: |r| <= k < |s| ==> s[k] == c
    ensures r == [] || r[|r| - 1] != c
  {
    if |s| > 0 && s[|s| - 1] == c then StripEnd(s[..|s| - 1], c) else s
  }

  /**
   * strip(s, c): the part of `s` left once every leading and every trailing `c` is removed.
   * The result is a slice of `s` that is surrounded only by `c` and neither starts nor ends
   * with `c`.
   */
  function Strip(s: string, c: char): (r: string)
    ensures |r| <= |s|
    ensures r == [] || (r[0] != c && r[|r| - 1] != c)
    ensures exists i :: SliceAmid(s, r, i, c)
  {
    var t := StripStart(s, c);
    var r := StripEnd(t, c);
    SuffixThenPrefix(s, t, r, c);
    r
  }

  /**
   * A prefix `r` of a suffix `t` of `s`, with only `c` cut off either side, is a slice amid
   * `c`; when `t` does not start with `c` and `r` does not end with it, neither end of `r` is `c`.
   */
  lemma SuffixThenPrefix(s: string, t: string, r: string, c: char)
    requires |t| <= |s| && t == s[|s| - |t|..]
    requires forall k :: 0 <= k < |s| - |t| ==> s[k] == c
    requires t == [] || t[0] != c
    requires r <= t
    requires forall k :: |r| <= k < |t| ==> t[k] == c
    requires r == [] || r[|r| - 1] != c
    ensures |r| <= |s|
    ensures r == [] || (r[0] != c && r[|r| - 1] != c)
    ensures exists i :: SliceAmid(s, r, i, c)
  {
    var i := |s| - |t|;
    assert r == t[..|r|];
    forall k | i + |r| <= k < |s| ensures s[k] == c {
      assert s[k] == t[k - i];
    }
    assert SliceAmid(s, r, i, c);
    if r != [] {
      assert r[0] == t[0];
    }
  }

  /** `r` is the slice of `s` that starts at `i`, with nothing but `c` before and after it. */
  predicate SliceAmid(s: string, r: string, i: int, c: char)
  {
    && 0 <= i <= |s| - |r| && r == s[i..i + |r|]
    && (forall k :: 0 <= k < i ==> s[k] == c)
    && (forall k :: i + |r| <= k < |s| ==> s[k] == c)
  }

  /** Every character of `s` is `c`. */
  predicate AllOf(s: string, c: char)
  {
    forall k :: 0 <= k < |s| ==> s[k] == c
  }

  lemma {:induction false} StripStartPadded(pad: string, u: string, c: char)
    requires AllOf(pad, c)
    requires u == [] || u[0] != c
    ensures StripStart(pad + u, c) == u
  {
    if |pad| > 0 {
      assert (pad + u)[1..] == pad[1..] + u;
      StripStartPadded(pad[1..], u, c);
    }
  }

  lemma {:induction false} StripEndPadded(u: string, pad: string, c: char)
    requires AllOf(pad, c)
    requires u == [] || u[|u| - 1] != c
    ensures StripEnd(u + pad, c) == u
  {
    if |pad| > 0 {
      assert (u + pad)[..|u + pad| - 1] == u + pad[..|pad| - 1];
      StripEndPadded(u, pad[..|pad| - 1], c);
    } else {
      assert u + pad == u;
    }
  }

  /**
   * Strip is determined by its shape: a core that neither starts nor ends with `c`,
   * padded on both sides with nothing but `c`, strips to exactly that core.
   */
  lemma StripOfPadded(left: string, core: string, right: string, c: char)
    requires AllOf(left, c) && AllOf(right, c)
    requires core == [] || (core[0] != c && core[|core| - 1] != c)
    ensures Strip(left + core + right, c) == core
  {
    if core == [] {
      assert left + core + right == left + right;
      assert AllOf(left + right, c);
      StripStartPadded(left + right, [], c);
      assert left + right + [] == left + right;
    } else {
      assert left + core + right == left + (core + right);
      StripStartPadded(left, core + right, c);
      StripEndPadded(core, right, c);
    }
  }

  /** Stripping twice is stripping once. */
  lemma StripIdempotent(s: string, c: char)
    ensures Strip(Strip(s, c), c) == Strip(s, c)
  {
    StripOfUnpadded(Strip(s, c), c);
  }

  /** A string that neither starts nor ends with `c` strips to itself. */
  lemma StripOfUnpadded(r: string, c: char)
    requires r == [] || (r[0] != c && r[|r| - 1] != c)
    ensures Strip(r, c) == r
  {
    assert [] + r + [] == r;
    StripOfPadded([], r, [], c);
  }

  /**
   * Character.isWhitespace: the Unicode space, line and paragraph separators other than the
   * non-breaking spaces U+00A0, U+2007 and U+202F, and the controls U+0009 to U+000D and
   * U+001C to U+001F.
   */
  predicate IsWhitespace(ch: char): (b: bool)
    ensures ch == ' ' || ch == '\t' || ch == '\n' || ch == '\r' ==> b
    ensures ch == '\U{00A0}' || ch == '\U{2007}' || ch == '\U{202F}' ==> !b
    ensures b ==> ch != '/' && ch <= '\U{3000}'
  {
    || '\U{0009}' <= ch <= '\U{000D}'
    || '\U{001C}' <= ch <= '\U{0020}'
    || ch == '\U{1680}'
    || ('\U{2000}' <= ch <= '\U{200A}' && ch != '\U{2007}')
    || ch == '\U{2028}' || ch == '\U{2029}' || ch == '\U{205F}' || ch == '\U{3000}'
  }

  /** isBlank: the string is empty or consists only of whitespace. */
  predicate IsBlank(s: string)
  {
    forall k :: 0 <= k < |s| ==> IsWhitespace(s[k])
  }

  /**
   * The empty string is blank, a blank string holds no '/', and a concatenation is blank
   * exactly when both parts are.
   */
  lemma BlankStrings(s: string, t: string)
    ensures IsBlank([])
    ensures IsBlank(s) ==> '/' !in s
    ensures IsBlank(s + t) <==> IsBlank(s) && IsBlank(t)
  {
    if IsBlank(s + t) {
      forall k | 0 <= k < |s| ensures IsWhitespace(s[k]) {
        assert (s + t)[k] == s[k];
      }
      forall k | 0 <= k < |t| ensures IsWhitespace(t[k]) {
        assert (s + t)[|s| + k] == t[k];
      }
    }
    if IsBlank(s) && IsBlank(t) {
      forall k | 0 <= k < |s + t| ensures IsWhitespace((s + t)[k]) {
        if k >= |s| { assert (s + t)[k] == t[k - |s|]; }
      }
    }
  }
}
