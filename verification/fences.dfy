// Removal of markdown code fences from a model response: three chained
// `String.prototype.replace` calls with the patterns `^```html\s*`, then
// `^```\s*`, then `````$`, each replacing its match by the empty string.
// None of the patterns carries the `m` flag, so `^` and `$` anchor only at the
// very start and the very end of the whole string, and none carries the `g`
// flag, so each replace rewrites at most one match.
module Fences {
  import opened Wrappers
  import opened JsString

  const HtmlFence := "```html"
  const Fence := "```"

  /** `s[..m]` matches the pattern `^tag\s*`. */
  ghost predicate LeadingMatch(s: string, tag: string, m: int) {
    |tag| <= m <= |s| && s[..|tag|] == tag && AllSpace(s[|tag|..m])
  }

  /** The end of the match that the greedy pattern `^tag\s*` selects, or None
      when the pattern does not match: the match is the longest one. */
  function LeadingMatchEnd(s: string, tag: string): (m: Option<nat>)
    ensures m.None? ==> forall k :: !LeadingMatch(s, tag, k)
    ensures m.Some? ==> LeadingMatch(s, tag, m.value)
    ensures m.Some? ==> forall k :: LeadingMatch(s, tag, k) ==> k <= m.value
  {
    if StartsWith(s, tag) then
      var n := LeadingSpace(s[|tag|..]);
      assert s[|tag|..|tag| + n] == s[|tag|..][..n];
      Some(|tag| + n)
    else
      None
  }

  /** `s[p..]` matches the pattern `tag$`. */
  ghost predicate TrailingMatch(s: string, tag: string, p: int) {
    0 <= p && p + |tag| == |s| && s[p..] == tag
  }

  /** The start of the (only possible) match of `tag$`, or None. */
  function TrailingMatchStart(s: string, tag: string): (p: Option<nat>)
    ensures p.None? ==> forall k :: !TrailingMatch(s, tag, k)
    ensures p.Some? ==> TrailingMatch(s, tag, p.value)
    ensures p.Some? ==> forall k :: TrailingMatch(s, tag, k) ==> k == p.value
  {
    if EndsWith(s, tag) then Some(|s| - |tag|) else None
  }

  // `s.replace(/^tag\s*/, '')`: when the tag opens the text, the tag and the
  // whole white-space run after it are removed; otherwise nothing changes.
  function ReplaceLeading(s: string, tag: string): (r: string)
    ensures |r| <= |s| && r == s[|s| - |r|..]
    ensures !StartsWith(s, tag) ==> r == s
    ensures StartsWith(s, tag) ==>
              LeadingMatch(s, tag, |s| - |r|) && (r == [] || !IsSpace(r[0]))
  {
    match LeadingMatchEnd(s, tag)
    case None => s
    case Some(m) =>
      assert LeadingMatch(s, tag, m);
      s[m..]
  }

  // `s.replace(/tag$/, '')`: when the tag closes the text, exactly those last
  // characters are removed; otherwise nothing changes.
  function ReplaceTrailing(s: string, tag: string): (r: string)
    ensures |r| <= |s| && r == s[..|r|]
    ensures !EndsWith(s, tag) ==> r == s
    ensures EndsWith(s, tag) ==> r == s[..|s| - |tag|]
  {
    match TrailingMatchStart(s, tag)
    case None => s
    case Some(p) => s[..p]
  }

  /** Dropping a prefix and then a suffix leaves a contiguous piece. */
  lemma InfixOfSuffixPrefix(s: string, a: string, b: string, c: string)
    requires |a| <= |s| && a == s[|s| - |a|..]
    requires |b| <= |a| && b == a[|a| - |b|..]
    requires |c| <= |b| && c == b[..|c|]
    ensures |c| <= |s| && InfixAt(s, c, |s| - |b|)
  {
  }

  /** Text not starting with three backticks does not start with the html fence. */
  lemma NoFenceNoHtmlFence(s: string)
    requires !StartsWith(s, Fence)
    ensures !StartsWith(s, HtmlFence)
  {
  }

  /** Both leading replaces leave text without an opening fence alone. */
  lemma NoOpeningFenceKept(s: string)
    requires !StartsWith(s, Fence)
    ensures ReplaceLeading(ReplaceLeading(s, HtmlFence), Fence) == s
  {
    NoFenceNoHtmlFence(s);
  }

  /** Hence the whole cleanup reduces to the trailing replace on such text. */
  lemma NoOpeningFenceTrailingOnly(s: string)
    requires !StartsWith(s, Fence)
    ensures ReplaceTrailing(ReplaceLeading(ReplaceLeading(s, HtmlFence), Fence), Fence)
         == ReplaceTrailing(s, Fence)
  {
    NoOpeningFenceKept(s);
  }

  /** The cleanup applied to every non-empty model response. Text without an
      opening fence loses exactly a closing fence, if it has one. */
  function StripFences(s: string): (r: string)
    ensures |r| <= |s|
    ensures exists i :: InfixAt(s, r, i)
    ensures !StartsWith(s, Fence) && !EndsWith(s, Fence) ==> r == s
    ensures !StartsWith(s, Fence) && EndsWith(s, Fence) ==> r == s[..|s| - |Fence|]
  {
    CleanupIsInfix(s);
    if !StartsWith(s, Fence) then
      NoOpeningFenceTrailingOnly(s);
      ReplaceTrailing(ReplaceLeading(ReplaceLeading(s, HtmlFence), Fence), Fence)
    else
      ReplaceTrailing(ReplaceLeading(ReplaceLeading(s, HtmlFence), Fence), Fence)
  }

  /** The three replaces in a row keep a contiguous piece of the text. */
  lemma CleanupIsInfix(s: string)
    ensures var c := ReplaceTrailing(ReplaceLeading(ReplaceLeading(s, HtmlFence), Fence), Fence);
      |c| <= |s| && exists i :: InfixAt(s, c, i)
  {
    var a := ReplaceLeading(s, HtmlFence);
    var b := ReplaceLeading(a, Fence);
    var c := ReplaceTrailing(b, Fence);
    InfixOfSuffixPrefix(s, a, b, c);
    assert InfixAt(s, c, |s| - |b|);
  }

  /** A match that stops before a non-space character is the greedy one. */
  lemma GreedyMatchEnd(s: string, tag: string, m: nat)
    requires LeadingMatch(s, tag, m)
    requires m == |s| || !IsSpace(s[m])
    ensures LeadingMatchEnd(s, tag) == Some(m)
  {
  }

  /** An opening `tag` followed by white space `w` and then text `rest` that
      does not start with white space: the leading replace leaves `rest`. */
  lemma OpeningRemoved(tag: string, w: string, rest: string)
    requires AllSpace(w)
    requires rest == [] || !IsSpace(rest[0])
    ensures ReplaceLeading(tag + w + rest, tag) == rest
  {
    var s := tag + w + rest;
    var m := |tag| + |w|;
    assert s[..|tag|] == tag;
    assert s[|tag|..m] == w;
    assert s[m..] == rest;
    if rest != [] {
      assert s[m] == rest[0];
    }
    GreedyMatchEnd(s, tag, m);
  }

  /** A body the fenced round trip returns intact: it neither starts with white
      space (which `\s*` would swallow) nor with three backticks (which the
      second replace would take for an untagged opening fence). */
  predicate PlainStart(body: string) {
    body == [] || (!IsSpace(body[0]) && !StartsWith(body, Fence))
  }

  /** Stricter: no leading backtick at all. Needed once white space follows the
      closing fence, since a short run of backticks at the start of the body
      would then join the closing fence into a new opening one. */
  predicate BacktickFreeStart(body: string) {
    body == [] || (!IsSpace(body[0]) && body[0] != '`')
  }

  /** Whatever follows a plain-start body behind a fence starts with no white space. */
  lemma PlainStartBeforeFence(body: string, tail: string)
    requires PlainStart(body)
    ensures !IsSpace((body + Fence + tail)[0])
  {
    if body == [] {
      assert (body + Fence + tail)[0] == Fence[0];
    } else {
      assert (body + Fence + tail)[0] == body[0];
    }
  }

  /** The fenced-document round trip behind the cleanup: a body wrapped in an
      html-tagged fence, any white space, and a closing fence comes back. */
  lemma {:induction false} HtmlFencedRoundTrip(w: string, body: string)
    requires AllSpace(w) && PlainStart(body)
    ensures StripFences(HtmlFence + w + body + Fence) == body
  {
    var rest := body + Fence;
    assert HtmlFence + w + body + Fence == HtmlFence + w + rest;
    assert rest == body + Fence + [];
    PlainStartBeforeFence(body, []);
    OpeningRemoved(HtmlFence, w, rest);
    ClosingFenceRemoved(body);
  }

  /** The same round trip for an untagged fence; the white space after it must
      be non-empty, or a body starting with `html` would read as a tag. */
  lemma {:induction false} PlainFencedRoundTrip(w: string, body: string)
    requires AllSpace(w) && |w| > 0 && PlainStart(body)
    ensures StripFences(Fence + w + body + Fence) == body
  {
    var rest := body + Fence;
    var s := Fence + w + rest;
    assert Fence + w + body + Fence == s;
    UntaggedFenceNotHtml(w, rest);
    var a := ReplaceLeading(s, HtmlFence);
    assert a == s;
    assert rest == body + Fence + [];
    PlainStartBeforeFence(body, []);
    OpeningRemoved(Fence, w, rest);
    var b := ReplaceLeading(a, Fence);
    assert b == rest;
    ClosingFenceRemoved(body);
    assert StripFences(s) == ReplaceTrailing(b, Fence);
  }

  /** Three backticks followed by white space do not open an html fence. */
  lemma UntaggedFenceNotHtml(w: string, rest: string)
    requires |w| > 0 && AllSpace(w)
    ensures !StartsWith(Fence + w + rest, HtmlFence)
  {
    var s := Fence + w + rest;
    assert s[3] == w[0];
    FourthCharNotH(s);
  }

  /** The html fence has `h` as its fourth character. */
  lemma FourthCharNotH(s: string)
    requires |s| > 3 && s[3] != 'h'
    ensures !StartsWith(s, HtmlFence)
  {
    assert HtmlFence[3] == 'h';
  }

  /** What remains after the opening fence: stages two and three return the body. */
  lemma ClosingFenceRemoved(body: string)
    requires PlainStart(body)
    ensures ReplaceTrailing(ReplaceLeading(body + Fence, Fence), Fence) == body
  {
    var a := body + Fence;
    if body == [] {
      assert a == Fence + [] + [];
      OpeningRemoved(Fence, [], []);
    } else if StartsWith(a, Fence) {
      ShortBacktickBody(body);
    } else {
      assert a[|a| - 3..] == Fence;
      assert a[..|a| - 3] == body;
    }
  }

  /** A body of one or two backticks: with the closing fence it reads as an
      untagged opening fence, whose removal leaves exactly the body again. */
  lemma ShortBacktickBody(body: string)
    requires body != [] && PlainStart(body) && StartsWith(body + Fence, Fence)
    ensures ReplaceTrailing(ReplaceLeading(body + Fence, Fence), Fence) == body
  {
    var a := body + Fence;
    if |body| >= 3 {
      assert false;
    }
    assert body[0] == a[0] == '`';
    if |body| == 1 {
      assert body == "`";
      assert a == Fence + [] + "`";
      OpeningRemoved(Fence, [], "`");
      assert !EndsWith("`", Fence);
    } else {
      assert body[1] == a[1] == '`';
      assert body == "``";
      assert a == Fence + [] + "``";
      OpeningRemoved(Fence, [], "``");
      assert !EndsWith("``", Fence);
    }
  }

  /** An opening html fence without a closing one is still removed, together
      with the white space after it. */
  lemma {:induction false} UnclosedHtmlFenceRemoved(w: string, body: string)
    requires AllSpace(w) && PlainStart(body) && !EndsWith(body, Fence)
    ensures StripFences(HtmlFence + w + body) == body
  {
    if body != [] {
      OpeningRemoved(HtmlFence, w, body);
    } else {
      assert HtmlFence + w + body == HtmlFence + w + [];
      OpeningRemoved(HtmlFence, w, []);
    }
  }

  /** `$` without the `m` flag matches only at the very end: a fenced document
      whose closing fence is followed by white space (a trailing newline, say)
      keeps that closing fence. */
  lemma {:induction false} FenceBeforeTrailingSpaceKept(v: string, body: string, w: string)
    requires AllSpace(v) && BacktickFreeStart(body) && body != []
    requires AllSpace(w) && |w| > 0
    ensures StripFences(HtmlFence + v + body + Fence + w) == body + Fence + w
  {
    var rest := body + Fence + w;
    assert HtmlFence + v + body + Fence + w == HtmlFence + v + rest;
    assert !IsSpace(rest[0]) by {
      assert rest[0] == body[0];
    }
    OpeningRemoved(HtmlFence, v, rest);
    assert !StartsWith(rest, Fence) by {
      assert rest[0] == body[0];
    }
    assert !EndsWith(rest, Fence) by {
      assert rest[|rest| - 1] == w[|w| - 1];
    }
  }

  /** Why the lemma above needs a backtick-free start: a one-backtick body
      followed by the closing fence reads as "````", so the second replace
      takes three backticks as an opening fence and the closing one is lost. */
  lemma BacktickBodyBeforeTrailingSpace()
    ensures StripFences(HtmlFence + "\n" + "`" + Fence + "\n") == "`\n"
  {
    var rest := "````\n";
    assert HtmlFence + "\n" + "`" + Fence + "\n" == HtmlFence + "\n" + rest;
    assert AllSpace("\n");
    OpeningRemoved(HtmlFence, "\n", rest);
    assert rest == Fence + [] + "`\n";
    OpeningRemoved(Fence, [], "`\n");
    assert !EndsWith("`\n", Fence);
  }

  /** The one exception: with an empty body the second replace sees
      "```" + white space, and removes the closing fence with the white space
      after it, leaving nothing. */
  lemma {:induction false} EmptyFencedDocumentVanishes(v: string, w: string)
    requires AllSpace(v) && AllSpace(w)
    ensures StripFences(HtmlFence + v + Fence + w) == []
  {
    var rest := Fence + w;
    assert HtmlFence + v + Fence + w == HtmlFence + v + rest;
    assert rest[0] == '`';
    OpeningRemoved(HtmlFence, v, rest);
    assert rest == Fence + w + [];
    OpeningRemoved(Fence, w, []);
  }
}
