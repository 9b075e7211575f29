/** The generation pipeline `bringToLife`: it assembles the prompt text, builds
    the ordered list of request parts, hands the request to the hosted model,
    and turns the model's answer into an HTML string. The remote call is a
    parameter: any total function from requests to call outcomes. */
module Gemini {
  import opened Wrappers
  import opened JsString
  import Fences

  const GeminiModel := "gemini-3-pro-preview"
  const Temperature: real := 0.5

  /** Fixed prompt used whenever a file is attached. */
  const AnalysisPrompt := "Analyze this image/document. Detect what functionality is implied. If it is a real-world object (like a desk), gamify it. Build a fully interactive web app. IMPORTANT: Do NOT use external image URLs. Recreate the visuals using CSS, SVGs, or Emojis."
  /** Label in front of the user's text when it accompanies a file. */
  const InstructionLabel := "\n\nUSER INSTRUCTION: "
  /** Fixed prompt used in text-only mode when the user typed nothing. */
  const DefaultPrompt := "Create a demo app " + "that shows off your capabilities " + "(e.g. a physics simulation or a creative tool)."
  /** Returned, as a success, when the model answers without text. */
  const Placeholder := "<!-- Failed to generate content -->"

  /** One element of the request's content: text, or an inline file payload. */
  datatype Part = Text(text: string) | InlineData(data: string, mimeType: string)

  /** What is sent to the hosted model (the system instruction travels with
      every request unchanged and is not part of this model). */
  datatype Request = Request(model: string, parts: seq<Part>, temperature: real)

  /** How the remote call ended: it raised `error`, or it returned a response
      whose `text` may be absent. */
  datatype CallOutcome<E> = CallFailed(error: E) | CallReturned(text: Option<string>)

  /** JavaScript truthiness of an optional string: present and non-empty. */
  function Truthy(v: Option<string>): (r: bool)
    ensures !r <==> v.None? || v.value == []
  {
    v.Some? && |v.value| > 0
  }

  /** The text of the first part. */
  function FinalPrompt(prompt: string, fileBase64: Option<string>): (p: string)
    ensures |p| > 0
    ensures Truthy(fileBase64) ==> StartsWith(p, AnalysisPrompt)
    ensures Truthy(fileBase64) ==> (|p| == |AnalysisPrompt| <==> prompt == [])
    ensures !Truthy(fileBase64) && prompt != [] ==> p == prompt
    ensures !Truthy(fileBase64) && prompt == [] ==> p == DefaultPrompt
  {
    if Truthy(fileBase64) then
      if prompt != [] then
        PrefixKept(AnalysisPrompt, InstructionLabel + prompt);
        AnalysisPrompt + (InstructionLabel + prompt)
      else
        PrefixKept(AnalysisPrompt, []);
        AnalysisPrompt
    else if prompt != [] then prompt
    else DefaultPrompt
  }

  /** A string starts with itself, and with any prefix it was extended from. */
  lemma PrefixKept(a: string, b: string)
    ensures StartsWith(a + b, a)
  {
    assert (a + b)[..|a|] == a;
  }

  /** Recovers the user's text from a prompt built with a file attached. */
  function UserInstruction(p: string): string {
    if |p| <= |AnalysisPrompt| + |InstructionLabel| then [] else p[|AnalysisPrompt| + |InstructionLabel|..]
  }

  /** With a file attached, the user's text rides unchanged (untrimmed, even
      when it is only white space) behind the label, and can be read back. */
  lemma FileModeInstructionRoundTrip(prompt: string, fileBase64: Option<string>)
    requires Truthy(fileBase64)
    ensures UserInstruction(FinalPrompt(prompt, fileBase64)) == prompt
    ensures prompt != [] ==> FinalPrompt(prompt, fileBase64) == AnalysisPrompt + InstructionLabel + prompt
  {
    if prompt != [] {
      LabelledSuffix(AnalysisPrompt, InstructionLabel, prompt);
    }
  }

  /** The text after a prefix and a label is recovered by slicing past both. */
  lemma LabelledSuffix(a: string, l: string, t: string)
    requires t != []
    ensures a + (l + t) == a + l + t
    ensures |a + l + t| > |a| + |l|
    ensures (a + l + t)[|a| + |l|..] == t
  {
  }

  /** A white-space-only prompt is not trimmed: in text-only mode it is sent as
      is instead of the default prompt, and with a file it still adds the label. */
  lemma BlankPromptKept(prompt: string, fileBase64: Option<string>)
    requires prompt != [] && AllSpace(prompt)
    ensures !Truthy(fileBase64) ==> FinalPrompt(prompt, fileBase64) == prompt
    ensures !Truthy(fileBase64) ==> FinalPrompt(prompt, fileBase64) != DefaultPrompt
    ensures Truthy(fileBase64) ==> |FinalPrompt(prompt, fileBase64)| > |AnalysisPrompt|
  {
    if !Truthy(fileBase64) {
      assert IsSpace(prompt[0]);
      assert DefaultPrompt[0] == 'C';
      assert !IsSpace('C');
    }
  }

  /** The ordered list of parts: the prompt text, then the file when both its
      data and its MIME type are non-empty. */
  function Parts(prompt: string, fileBase64: Option<string>, mimeType: Option<string>): (ps: seq<Part>)
    ensures 1 <= |ps| <= 2
    ensures ps[0] == Text(FinalPrompt(prompt, fileBase64))
    ensures |ps| == 2 <==> Truthy(fileBase64) && Truthy(mimeType)
    ensures |ps| == 2 ==> ps[1] == InlineData(fileBase64.value, mimeType.value)
  {
    var first := [Text(FinalPrompt(prompt, fileBase64))];
    if Truthy(fileBase64) && Truthy(mimeType) then
      first + [InlineData(fileBase64.value, mimeType.value)]
    else
      first
  }

  /** A file without a MIME type still selects the analysis prompt but is
      not sent. */
  lemma FileWithoutMimeTypeNotSent(prompt: string, fileBase64: Option<string>, mimeType: Option<string>)
    requires Truthy(fileBase64) && !Truthy(mimeType)
    ensures Parts(prompt, fileBase64, mimeType) == [Text(FinalPrompt(prompt, fileBase64))]
    ensures StartsWith(Parts(prompt, fileBase64, mimeType)[0].text, AnalysisPrompt)
  {
  }

  /** The request handed to the remote call. */
  function BuildRequest(prompt: string, fileBase64: Option<string>, mimeType: Option<string>): (r: Request)
    ensures r.model == GeminiModel && r.temperature == Temperature
    ensures |r.parts| >= 1 && r.parts[0] == Text(FinalPrompt(prompt, fileBase64))
    ensures |r.parts| == 2 <==> Truthy(fileBase64) && Truthy(mimeType)
    ensures |r.parts| == 2 ==> r.parts[1] == InlineData(fileBase64.value, mimeType.value)
  {
    Request(GeminiModel, Parts(prompt, fileBase64, mimeType), Temperature)
  }

  /** The answer handling: the placeholder when the text is missing or empty,
      otherwise the text with its code fences removed; a failed call is
      re-raised with the same error. */
  function HandleOutcome<E>(outcome: CallOutcome<E>): (r: Result<string, E>)
    ensures outcome.CallFailed? <==> r.Failure?
    ensures outcome.CallFailed? ==> r.error == outcome.error
    ensures outcome.CallReturned? && !Truthy(outcome.text) ==> r == Success(Placeholder)
    ensures outcome.CallReturned? && Truthy(outcome.text) ==>
              |r.value| <= |outcome.text.value| && exists i :: InfixAt(outcome.text.value, r.value, i)
    ensures outcome.CallReturned? && Truthy(outcome.text) ==> r == Success(Fences.StripFences(outcome.text.value))
  {
    match outcome
    case CallFailed(e) => Failure(e)
    case CallReturned(text) =>
      var t := if Truthy(text) then text.value else Placeholder;
      Success(Fences.StripFences(t))
  }

  /** `bringToLife(prompt, fileBase64, mimeType)` with the remote call `call`. */
  function BringToLife<E>(prompt: string, fileBase64: Option<string>, mimeType: Option<string>,
                          call: Request -> CallOutcome<E>): (r: Result<string, E>)
    ensures var o := call(BuildRequest(prompt, fileBase64, mimeType));
      && (o.CallFailed? <==> r.Failure?)
      && (o.CallFailed? ==> r.error == o.error)
      && (o.CallReturned? && !Truthy(o.text) ==> r == Success(Placeholder))
      && (o.CallReturned? && Truthy(o.text) ==> r == Success(Fences.StripFences(o.text.value)))
  {
    var o := call(BuildRequest(prompt, fileBase64, mimeType));
    HandleOutcome(o)
  }

  /** Cleanup leaves the placeholder as it is. */
  lemma PlaceholderSurvivesCleanup()
    ensures Fences.StripFences(Placeholder) == Placeholder
  {
    assert Placeholder[0] == '<' && Placeholder[|Placeholder| - 1] == '>';
  }

  /** A response wrapped in an html-tagged fence comes back without it. */
  lemma FencedResponseUnwrapped<E>(body: string)
    requires Fences.PlainStart(body)
    ensures HandleOutcome<E>(CallReturned(Some("```html\n" + body + "```"))) == Success(body)
  {
    assert "```html\n" + body + "```" == Fences.HtmlFence + "\n" + body + Fences.Fence;
    Fences.HtmlFencedRoundTrip("\n", body);
  }
}
