/** The few JavaScript string primitives the front-end relies on:
    the white-space class shared by the regular-expression escape `\s` and
    `String.prototype.trim`, `startsWith`, the suffix test that the `$` anchor
    performs without the `m` flag, and `trim` itself.
    Strings are sequences of Unicode scalar values. */
module JsString {

  /** ECMAScript WhiteSpace and LineTerminator code points: TAB, VT, FF, SP,
      NBSP, ZWNBSP, the other Unicode space separators, LF, CR, LS and PS.
      The ordinary separators are in; letters, digits and the characters of
      fences, tags and comments are out; nothing lies outside U+0009..U+FEFF. */
  function IsSpace(c: char): (r: bool)
    ensures c == ' ' || c == '\t' || c == '\n' || c == '\r' ==> r
    ensures r ==> c != '`' && c != '<' && c != '>' && c != '!' && c != '-'
    ensures r ==> !('0' <= c <= '9') && !('A' <= c <= 'Z') && !('a' <= c <= 'z')
    ensures r ==> '\t' <= c <= '\U{FEFF}'
  {
    || c == '\t' || c == '\n' || c == '\U{000B}' || c == '\U{000C}' || c == '\r'
    || c == ' ' || c == '\U{00A0}' || c == '\U{1680}'
    || ('\U{2000}' <= c <= '\U{200A}')
    || c == '\U{2028}' || c == '\U{2029}' || c == '\U{202F}' || c == '\U{205F}'
    || c == '\U{3000}' || c == '\U{FEFF}'
  }

  /** Every character of `s` is white space (vacuously true of ""). */
  predicate AllSpace(s: string) {
    forall i :: 0 <= i < |s| ==> IsSpace(s[i])
  }

  /** `r` occurs in `s` starting at offset `i`. */
  ghost predicate InfixAt(s: string, r: string, i: int) {
    0 <= i && i + |r| <= |s| && s[i..i + |r|] == r
  }

  /** `s.startsWith(p)`, compared character by character from the front. */
  function StartsWith(s: string, p: string): (r: bool)
    ensures r <==> |p| <= |s| && s[..|p|] == p
  {
    if |p| == 0 then true
    else if |s| == 0 || s[0] != p[0] then false
    else
      assert |p| <= |s| ==> s[..|p|] == [s[0]] + s[1..][..|p| - 1];
      assert p == [p[0]] + p[1..];
      StartsWith(s[1..], p[1..])
  }

  /** `s` ends with `p`: the test a pattern `p$` without the `m` flag makes,
      compared character by character from the back. */
  function EndsWith(s: string, p: string): (r: bool)
    ensures r <==> |p| <= |s| && s[|s| - |p|..] == p
  {
    if |p| == 0 then true
    else if |s| == 0 || s[|s| - 1] != p[|p| - 1] then false
    else
      assert |p| <= |s| ==> s[|s| - |p|..] == s[..|s| - 1][|s| - |p|..] + [s[|s| - 1]];
      assert p == p[..|p| - 1] + [p[|p| - 1]];
      EndsWith(s[..|s| - 1], p[..|p| - 1])
  }

  /** Length of the longest prefix of `s` made only of white space. */
  function LeadingSpace(s: string): (n: nat)
    ensures n <= |s|
    ensures AllSpace(s[..n])
    ensures n == |s| || !IsSpace(s[n])
  {
    if |s| == 0 || !IsSpace(s[0]) then 0
    else
      var tail := s[1..];
      var k := LeadingSpace(tail);
      assert s[..1 + k] == [s[0]] + tail[..k];
      SpaceJoin([s[0]], tail[..k]);
      assert k < |tail| ==> s[1 + k] == tail[k];
      1 + k
  }

  /** Length of the longest suffix of `s` made only of white space. */
  function TrailingSpace(s: string): (n: nat)
    ensures n <= |s|
    ensures AllSpace(s[|s| - n..])
    ensures n == |s| || !IsSpace(s[|s| - n - 1])
  {
    if |s| == 0 || !IsSpace(s[|s| - 1]) then 0
    else
      var k := TrailingSpace(s[..|s| - 1]);
      TrailingSpaceStep(s, k);
      1 + k
  }

  /** One more white-space character at the end extends the trailing run. */
  lemma TrailingSpaceStep(s: string, k: nat)
    requires |s| > 0 && IsSpace(s[|s| - 1])
    requires k <= |s| - 1 && AllSpace(s[..|s| - 1][|s| - 1 - k..])
    requires k == |s| - 1 || !IsSpace(s[..|s| - 1][|s| - 1 - k - 1])
    ensures AllSpace(s[|s| - (1 + k)..])
    ensures 1 + k == |s| || !IsSpace(s[|s| - (1 + k) - 1])
  {
    var init := s[..|s| - 1];
    assert s[|s| - 1 - k..] == init[|init| - k..] + [s[|s| - 1]];
    SpaceJoin(init[|init| - k..], [s[|s| - 1]]);
    assert k < |init| ==> s[|s| - k - 2] == init[|init| - k - 1];
  }

  /** `s` is `r` framed by white space: `s == lead + r + trail`. */
  ghost predicate SpaceFramed(s: string, r: string, k: int) {
    InfixAt(s, r, k) && AllSpace(s[..k]) && AllSpace(s[k + |r|..])
  }

  /** `s.trim()`: drops white space from both ends. */
  function Trim(s: string): (r: string)
    ensures |r| <= |s|
    ensures exists k :: SpaceFramed(s, r, k)
    ensures r == [] || (!IsSpace(r[0]) && !IsSpace(r[|r| - 1]))
    ensures r == [] <==> AllSpace(s)
  {
    var a := LeadingSpace(s);
    var t := s[a..];
    var b := TrailingSpace(t);
    var r := t[..|t| - b];
    TrimFramed(s, a, b);
    if r == [] then
      SpaceJoin(s[..a], t[|t| - b..]);
      assert s == s[..a] + t[|t| - b..];
      r
    else
      assert r[0] == s[a];
      assert r[|r| - 1] == t[|t| - b - 1];
      r
  }

  /** The piece between a leading and a trailing white-space run is framed by them. */
  lemma TrimFramed(s: string, a: nat, b: nat)
    requires a <= |s| && AllSpace(s[..a])
    requires b <= |s| - a && AllSpace(s[a..][|s| - a - b..])
    ensures SpaceFramed(s, s[a..][..|s| - a - b], a)
  {
    var r := s[a..][..|s| - a - b];
    assert s[a..a + |r|] == r;
    assert s[a + |r|..] == s[a..][|s| - a - b..];
  }

  /** Joining two white-space strings gives a white-space string. */
  lemma SpaceJoin(x: string, y: string)
    requires AllSpace(x) && AllSpace(y)
    ensures AllSpace(x + y)
  {
    forall i | 0 <= i < |x + y|
      ensures IsSpace((x + y)[i])
    {
      if i < |x| {
        assert (x + y)[i] == x[i];
      } else {
        assert (x + y)[i] == y[i - |x|];
      }
    }
  }

  /** `!s.trim()`: the JavaScript test for a blank string. */
  function IsBlank(s: string): (r: bool)
    ensures r <==> AllSpace(s)
  {
    Trim(s) == []
  }
}
