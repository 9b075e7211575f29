# Bring-to-life front-end: request building, response cleanup and input events

A Dafny model of the two pieces of deterministic logic in a small browser
front-end that turns a text prompt or a dropped image/PDF into a generated
single-page HTML application by calling a hosted generative model:

- **`bringToLife`** (`services/gemini.ts`): how the prompt text is assembled
  from the optional file and the user's text, how the ordered list of request
  parts is built, how a missing or empty answer becomes a placeholder, how a
  failed call is re-raised, and how markdown code fences are removed from the
  answer by three anchored regular-expression replaces.
- **`InputArea`** (`components/InputArea.tsx`): the component's event handlers
  (file picker, drop, drag-over, drag-leave, submit click, key press, example
  button, text edits) as one transition function from props, state and event
  to a new state and the effects `Generate(prompt, file?)` or `Alert`, plus the
  index step of the `CyclingText` word rotation.

Modules:

- `Wrappers` (`wrappers.dfy`): `Option` and `Result`.
- `JsString` (`js_string.dfy`): the ECMAScript white-space class shared by `\s`
  and `String.prototype.trim`, `startsWith`, the suffix test that `$` without
  the `m` flag performs, and `trim`, each specified by slices of the string.
- `Fences` (`fences.dfy`): the fence cleanup. The patterns carry neither the
  `m` nor the `g` flag, so `^` and `$` anchor at the ends of the whole string
  and each replace rewrites at most one match. A match is stated as a
  predicate (`LeadingMatch`, `TrailingMatch`) and the computed match is proved
  to be the one JavaScript picks: the longest for the greedy `\s*`, the only
  one for `$`.
- `Gemini` (`gemini.dfy`): `bringToLife`, with the remote call as a parameter
  `call: Request -> CallOutcome<E>`; an outcome is `CallFailed(error)` or
  `CallReturned(text?)`, and the result is `Success(html)` or `Failure(error)`.
- `InputArea` and `CyclingText` (`input_area.dfy`): the event transition
  function `Step`, its fold `Run` over event sequences, and the rotation step.

Three behaviours of the code that differ from a naive reading of it:

- A prompt made only of white space is not trimmed by `bringToLife`: in
  text-only mode it is sent as is rather than replaced by the default demo
  prompt, and with a file it still adds the `USER INSTRUCTION` suffix
  (`services/gemini.ts:46`, `:51` use JavaScript truthiness, not `trim`).
- The inline file part is added only when both the base64 data and the MIME
  type are non-empty (`services/gemini.ts:56`), not whenever a file is given.
- The file-picker handler does not check `isGenerating` or `disabled`
  (`components/InputArea.tsx:56-60`). While a generation is in flight it is
  blocked only in the DOM: by the `disabled` attribute on the `<input>`
  (`components/InputArea.tsx:211`, set when `isGenerating || disabled`) and by
  the `pointer-events-none` class on the drop-zone label
  (`components/InputArea.tsx:162`, set when `isGenerating`). Both are
  presentation and are not part of this model.

## Model

| member | source | states |
|---|---|---|
| JsString.IsSpace | services/gemini.ts:80 | the characters `\s` and `trim` treat as white space, ECMAScript WhiteSpace and LineTerminator: space, tab, LF and CR are in; letters, digits, backticks and the markup characters `<>!-` are out; every member lies in U+0009..U+FEFF |
| JsString.StartsWith | components/InputArea.tsx:49 | `startsWith` holds exactly when the prefix fits and equals the string's leading slice |
| JsString.EndsWith | services/gemini.ts:80 | the suffix test that `$` without the `m` flag performs: holds exactly when the suffix fits and equals the string's trailing slice |
| JsString.IsBlank | components/InputArea.tsx:84 | `!s.trim()`: a string is blank exactly when every character is white space |
| JsString.LeadingSpace | services/gemini.ts:80 | the greedy run matched by `\s*`: all of it is white space and the next character, if any, is not |
| JsString.TrailingSpace | components/InputArea.tsx:84 | the white-space run `trim` removes at the end: all white space and maximal |
| JsString.Trim | components/InputArea.tsx:84 | `trim` returns the input minus white-space runs at both ends; the result has no white space at either end and is empty exactly when the input is all white space |
| Fences.LeadingMatchEnd | services/gemini.ts:80 | `^tag\s*` matches iff the text starts with the tag; the chosen match is a valid match and the longest one (greedy) |
| Fences.TrailingMatchStart | services/gemini.ts:80 | `tag$` matches only as the very last characters, and that match is unique |
| Fences.ReplaceLeading | services/gemini.ts:80 | when the text starts with the tag, the result is the text after a valid match of `^tag\s*` and does not start with white space (the tag and the whole white-space run are gone); otherwise the text is unchanged |
| Fences.ReplaceTrailing | services/gemini.ts:80 | when the text ends with the tag, exactly those last characters are removed; otherwise the text is unchanged |
| Fences.StripFences | services/gemini.ts:80 | the cleanup never lengthens the text and returns a contiguous piece of it; text without an opening fence loses exactly a closing "```" if it ends with one, and is otherwise unchanged |
| Fences.GreedyMatchEnd | services/gemini.ts:80 | a leading match that stops before a non-space character is the one the greedy pattern selects |
| Fences.HtmlFencedRoundTrip | services/gemini.ts:80 | "```html" + any white space + body + "```" comes back as exactly body, for a body that starts neither with white space nor with "```" |
| Fences.PlainFencedRoundTrip | services/gemini.ts:80 | the same round trip with an untagged opening fence followed by non-empty white space |
| Fences.OpeningRemoved | services/gemini.ts:80 | an opening tag, any white space, then text not starting with white space: the leading replace leaves exactly that text |
| Fences.ClosingFenceRemoved | services/gemini.ts:80 | after the opening fence is gone, the second and third replaces turn body + "```" into body |
| Fences.UnclosedHtmlFenceRemoved | services/gemini.ts:80 | an html-tagged opening fence without a closing one is removed with its white space: "```html" + white space + body becomes body |
| Fences.ShortBacktickBody | services/gemini.ts:80 | a body of one or two backticks still survives the closing-fence step: with the fence appended it reads as an untagged opening fence, whose removal leaves the body |
| Fences.FenceBeforeTrailingSpaceKept | services/gemini.ts:80 | a fenced document, whose body starts with neither white space nor a backtick, whose closing fence is followed by non-empty white space (a trailing newline) loses only its opening fence: the closing "```" and the white space stay, because `$` only matches at the very end |
| Fences.BacktickBodyBeforeTrailingSpace | services/gemini.ts:80 | why the lemma above excludes a leading backtick: "```html\n`" + "```" + "\n" becomes "`\n", since the second replace takes the first three of the four backticks for an opening fence |
| Fences.EmptyFencedDocumentVanishes | services/gemini.ts:80 | the exception to the above: "```html" + white space + "```" + white space becomes "", because the second replace removes the closing fence with its white space |
| Gemini.Truthy | services/gemini.ts:44-56 | an optional string is falsy exactly when it is absent or empty, so truthy iff present and non-empty |
| Gemini.FinalPrompt | services/gemini.ts:44-52 | with a file the prompt starts with the analysis text and is longer exactly when the user typed something; without one a non-empty prompt is used verbatim and an empty one becomes the default; never empty |
| Gemini.FileModeInstructionRoundTrip | services/gemini.ts:44-48 | with a file the user's text, untrimmed, is appended after the `USER INSTRUCTION` label and can be read back exactly |
| Gemini.BlankPromptKept | services/gemini.ts:44-52 | a white-space-only prompt is not trimmed: text-only mode sends it instead of the default prompt, and file mode still appends it |
| Gemini.Parts | services/gemini.ts:54-63 | one or two parts; the first is the prompt text; the second exists exactly when both file data and MIME type are non-empty and carries both unchanged |
| Gemini.FileWithoutMimeTypeNotSent | services/gemini.ts:44-63 | a file with a missing or empty MIME type selects the analysis prompt but yields only the text part |
| Gemini.BuildRequest | services/gemini.ts:66-75 | the request names the fixed model and temperature and carries the parts: the prompt text first, the file second exactly when data and MIME type are both non-empty |
| Gemini.HandleOutcome | services/gemini.ts:77-86 | a failed call is re-raised with the same error; an absent or empty text is a success carrying the placeholder; a text answer is a success carrying its fence-stripped form, a contiguous, no longer piece of it |
| Gemini.BringToLife | services/gemini.ts:38-87 | the result fails exactly when the call made with the built request fails, with that call's error; an answer without text yields the placeholder; a text answer yields its fence-stripped form |
| Gemini.PlaceholderSurvivesCleanup | services/gemini.ts:77-80 | the fence cleanup leaves the placeholder unchanged |
| Gemini.FencedResponseUnwrapped | services/gemini.ts:77-82 | an answer "```html\n" + body + "```" is returned as exactly body |
| InputArea.AcceptsMime | components/InputArea.tsx:49 | a MIME type is accepted iff its first six characters are `image/` or it equals `application/pdf` |
| InputArea.AcceptedMimeExamples | components/InputArea.tsx:49 | `image/`, `image/png` and `application/pdf` are accepted |
| InputArea.RejectedMimeExamples | components/InputArea.tsx:49 | `application/pdfx`, `Image/png`, `image`, `text/html` and the empty type are rejected |
| InputArea.HandleFile | components/InputArea.tsx:48-54 | exactly one effect: `Generate(prompt, file)` with the current prompt for an accepted type, the alert otherwise |
| InputArea.FirstFile | components/InputArea.tsx:56-60 | only the first file of a present, non-empty list is passed on |
| InputArea.HandleFiles | components/InputArea.tsx:56-60 | the picker and drop file branch: no effect for an absent or empty list; otherwise one effect, a generation with the current prompt and the first file when its type is accepted, the alert when it is not |
| InputArea.SubmitText | components/InputArea.tsx:83-86 | at most one effect; a generation happens exactly when the prompt is not all white space and nothing is generating, and it carries the untrimmed prompt and no file |
| InputArea.Step | components/InputArea.tsx:44-97 | every event yields at most one effect; a generation always carries the current prompt; only edits and the example button change the prompt; only drag events and drop change the drag flag |
| InputArea.FileGenerationIff | components/InputArea.tsx:48-69 | a generation with a file happens iff the picker, or a drop while input is allowed, delivers that file first and its type is accepted |
| InputArea.AlertIff | components/InputArea.tsx:48-69 | an alert is shown iff a delivered first file has a rejected type |
| InputArea.TextGenerationIff | components/InputArea.tsx:83-93 | a text-only generation happens iff submit is clicked or Enter is pressed without Shift, the prompt is not blank, and nothing is generating; `disabled` plays no part |
| InputArea.KeyDownIsSubmit | components/InputArea.tsx:88-93 | Enter without Shift behaves as a submit click; every other key changes nothing and emits nothing |
| InputArea.DragHighlight | components/InputArea.tsx:62-81 | drag-over sets the flag only when input is allowed; drag-leave and every drop clear it; a blocked drop emits nothing |
| InputArea.EditSetsPromptOnly | components/InputArea.tsx:105-107 | editing the textarea sets the prompt to the edited value, keeps the drag flag, and emits nothing |
| InputArea.ExampleSetsPromptOnly | components/InputArea.tsx:95-97 | the example button replaces the prompt with the fixed example text and changes nothing else |
| InputArea.Run | components/InputArea.tsx:44-97 | emits no more effects than there are events, and every alert carries the fixed message |
| InputArea.SilentWhileGenerating | components/InputArea.tsx:62-93 | while a generation is in flight, any sequence of events without the file picker emits no effect at all |
| InputArea.NoHighlightWhileBlocked | components/InputArea.tsx:62-81 | while input is disabled or generating, the drag flag never turns on |
| CyclingText.Next | components/InputArea.tsx:30 | the step stays in the six-word range, moves to the next index, and wraps from the last to the first |
| CyclingText.Advance | components/InputArea.tsx:26-33 | after at least one tick the index is a valid word index |
| CyclingText.AdvanceIsOffset | components/InputArea.tsx:30 | n ticks move a valid index forward by n modulo six |
| CyclingText.Period | components/InputArea.tsx:30 | the rotation returns to its start exactly after a multiple of six ticks |

## Left out

- The hosted-model SDK call, its client construction and the `API_KEY` environment lookup (`services/gemini.ts:10`, `:66-75`): foreign library and ambient I/O; the call is the parameter `call` and its outcome an input.
- The text of the system instruction (`services/gemini.ts:12-36`): prose for the remote model that no code inspects; it is sent unchanged with every request and is not a field of `Request`.
- `console.error` logging and the browser `alert` dialog: recorded only as the error being re-raised and as the `Alert` effect.
- React rendering, class names, the `disabled` attributes (`components/InputArea.tsx:111`, `:115`, `:211`) and the label's `pointer-events-none` class (`components/InputArea.tsx:162`): presentation. The handlers are modelled as written, so the file-picker event is not blocked by `isGenerating` in the model.
- The `useCallback` dependency lists: `handleDrop` omits `onGenerate` from its dependencies; the model always calls the current callback.
- `preventDefault` calls on events: browser behaviour only.
- `CyclingText` timers, the fade flag (the 3000 ms interval and 500 ms delay) and the rendering of the current word: only the index step is modelled.
- Reading the file and encoding it as base64: not in these files; a `File` is reduced to its MIME type.
- The parent's `isGenerating` life cycle: owned by code that is not part of this model; it is an input of `Step`.
- Strings are sequences of Unicode scalar values, so JavaScript strings holding lone UTF-16 surrogates cannot be represented; the white-space class is the ECMAScript set with the Unicode space separators of current Unicode versions.
