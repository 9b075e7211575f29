/** The input collector: the event handlers of the `InputArea` component as a
    transition function from (props, state, event) to a new state and the
    effects the handlers trigger. A `File` is reduced to its MIME type. */
module InputArea {
  import opened Wrappers
  import opened JsString

  const AlertMessage := "Please upload an image or PDF."
  const ExamplePrompt := "Create a Space Tower Defense game. " + "Use 'Python-style' Object Oriented Programming (Classes for Tower, Enemy, Projectile, GameState) but adapted for JavaScript. Features: 1. Neon vector graphics on a dark space background. 2. Enemies follow a defined path (waypoints). 3. Click to place towers (cost money). 4. Particle effects for explosions. 5. Wave system. 6. Playable immediately."

  datatype File = File(mimeType: string)

  /** Inputs owned by the parent; `disabled` defaults to false. */
  datatype Props = Props(isGenerating: bool, disabled: bool)

  datatype State = State(isDragging: bool, prompt: string)

  const Initial := State(false, "")

  /** A file list is absent (null) or a sequence of files. */
  datatype Event =
    | PromptEdited(value: string)
    | FileChosen(files: Option<seq<File>>)
    | Drop(files: Option<seq<File>>)
    | DragOver
    | DragLeave
    | SubmitClicked
    | KeyDown(key: string, shiftKey: bool)
    | ExampleClicked

  /** `onGenerate(prompt, file?)`, or a user-facing `alert`. */
  datatype Effect = Generate(prompt: string, file: Option<File>) | Alert(message: string)

  datatype Transition = Transition(state: State, effects: seq<Effect>)

  /** The MIME types the collector takes: any `image/` type, or exactly PDF. */
  function AcceptsMime(mimeType: string): (ok: bool)
    ensures ok <==> (|mimeType| >= 6 && mimeType[..6] == "image/") || mimeType == "application/pdf"
  {
    StartsWith(mimeType, "image/") || mimeType == "application/pdf"
  }

  /** `handleFile`: one effect, a generation for an accepted file, an alert otherwise. */
  function HandleFile(prompt: string, f: File): (effects: seq<Effect>)
    ensures |effects| == 1
    ensures effects[0].Generate? <==> AcceptsMime(f.mimeType)
    ensures effects[0].Generate? ==> effects[0] == Generate(prompt, Some(f))
    ensures effects[0].Alert? ==> effects[0].message == AlertMessage
  {
    if AcceptsMime(f.mimeType) then [Generate(prompt, Some(f))] else [Alert(AlertMessage)]
  }

  /** `files && files[0]`: the first file, if any. */
  function FirstFile(files: Option<seq<File>>): (f: Option<File>)
    ensures f.Some? <==> files.Some? && |files.value| > 0
    ensures f.Some? ==> f.value == files.value[0]
  {
    if files.Some? && |files.value| > 0 then Some(files.value[0]) else None
  }

  /** The file part shared by the picker and the drop handlers. */
  function HandleFiles(prompt: string, files: Option<seq<File>>): (effects: seq<Effect>)
    ensures |effects| <= 1
    ensures effects != [] <==> files.Some? && |files.value| > 0
    ensures effects != [] ==> (effects[0].Generate? <==> AcceptsMime(files.value[0].mimeType))
    ensures effects != [] && effects[0].Generate? ==> effects[0] == Generate(prompt, Some(files.value[0]))
    ensures effects != [] && effects[0].Alert? ==> effects[0].message == AlertMessage
  {
    match FirstFile(files)
    case None => []
    case Some(f) => HandleFile(prompt, f)
  }

  /** `handleTextSubmit`: a no-op for a blank prompt or while generating;
      `disabled` is not consulted. */
  function SubmitText(props: Props, prompt: string): (effects: seq<Effect>)
    ensures |effects| <= 1
    ensures effects != [] <==> !AllSpace(prompt) && !props.isGenerating
    ensures effects != [] ==> effects[0] == Generate(prompt, None)
  {
    if IsBlank(prompt) || props.isGenerating then [] else [Generate(prompt, None)]
  }

  /** The component's reaction to one event. */
  function Step(props: Props, s: State, e: Event): (t: Transition)
    ensures |t.effects| <= 1
    ensures forall x :: x in t.effects && x.Generate? ==> x.prompt == s.prompt
    ensures forall x :: x in t.effects && x.Alert? ==> x.message == AlertMessage
    ensures !e.PromptEdited? && !e.ExampleClicked? ==> t.state.prompt == s.prompt
    ensures !e.Drop? && !e.DragOver? && !e.DragLeave? ==> t.state.isDragging == s.isDragging
  {
    match e
    case PromptEdited(value) => Transition(s.(prompt := value), [])
    case FileChosen(files) => Transition(s, HandleFiles(s.prompt, files))
    case Drop(files) =>
      var s' := s.(isDragging := false);
      if props.disabled || props.isGenerating then Transition(s', [])
      else Transition(s', HandleFiles(s.prompt, files))
    case DragOver =>
      if !props.disabled && !props.isGenerating then Transition(s.(isDragging := true), [])
      else Transition(s, [])
    case DragLeave => Transition(s.(isDragging := false), [])
    case SubmitClicked => Transition(s, SubmitText(props, s.prompt))
    case KeyDown(key, shiftKey) =>
      if key == "Enter" && !shiftKey then Transition(s, SubmitText(props, s.prompt))
      else Transition(s, [])
    case ExampleClicked => Transition(s.(prompt := ExamplePrompt), [])
  }

  /** Any type under `image/` is accepted, including the bare prefix. */
  lemma AcceptedMimeExamples()
    ensures AcceptsMime("image/") && AcceptsMime("image/png") && AcceptsMime("application/pdf")
  {
    assert "image/png"[..6] == "image/";
  }

  /** The acceptance rule is a case-sensitive prefix test and an exact
      equality: near misses are rejected. */
  lemma RejectedMimeExamples()
    ensures !AcceptsMime("") && !AcceptsMime("image") && !AcceptsMime("Image/png")
    ensures !AcceptsMime("application/pdfx") && !AcceptsMime("text/html")
  {
    assert "Image/png"[0] != 'i';
    assert "application/pdfx"[0] != 'i' && |"application/pdfx"| != |"application/pdf"|;
    assert "text/html"[0] != 'i' && |"text/html"| != |"application/pdf"|;
  }

  /** The events that deliver files to `handleFile`: the picker always, a drop
      only when neither `disabled` nor `isGenerating` is set. */
  predicate DeliversFile(props: Props, e: Event, f: File) {
    match e
    case FileChosen(files) => FirstFile(files) == Some(f)
    case Drop(files) => !props.disabled && !props.isGenerating && FirstFile(files) == Some(f)
    case _ => false
  }

  /** Enter without Shift. */
  predicate IsSubmitKey(e: Event) {
    e.KeyDown? && e.key == "Enter" && !e.shiftKey
  }

  /** A generation with a file happens exactly when an accepted first file is
      delivered, and it carries the current, untrimmed prompt. */
  lemma FileGenerationIff(props: Props, s: State, e: Event, f: File)
    ensures Generate(s.prompt, Some(f)) in Step(props, s, e).effects
            <==> DeliversFile(props, e, f) && AcceptsMime(f.mimeType)
    ensures forall p :: Generate(p, Some(f)) in Step(props, s, e).effects ==> p == s.prompt
  {
    match e
    case FileChosen(files) =>
      assert Step(props, s, e).effects == HandleFiles(s.prompt, files);
    case Drop(files) =>
      if !props.disabled && !props.isGenerating {
        assert Step(props, s, e).effects == HandleFiles(s.prompt, files);
      }
    case _ =>
  }

  /** An alert is shown exactly when a delivered first file is rejected. */
  lemma AlertIff(props: Props, s: State, e: Event)
    ensures (exists x :: x in Step(props, s, e).effects && x.Alert?)
            <==> exists f :: DeliversFile(props, e, f) && !AcceptsMime(f.mimeType)
  {
    if exists f :: DeliversFile(props, e, f) && !AcceptsMime(f.mimeType) {
      var f :| DeliversFile(props, e, f) && !AcceptsMime(f.mimeType);
      assert Step(props, s, e).effects == [Alert(AlertMessage)];
    }
  }

  /** A text-only generation happens exactly on a click or Enter without Shift,
      with a non-blank prompt, when nothing is generating; `disabled` plays no
      part, and the prompt is sent untrimmed. */
  lemma TextGenerationIff(props: Props, s: State, e: Event)
    ensures Generate(s.prompt, None) in Step(props, s, e).effects
            <==> (e.SubmitClicked? || IsSubmitKey(e)) && !IsBlank(s.prompt) && !props.isGenerating
  {
  }

  /** Enter without Shift is a click on submit; every other key does nothing. */
  lemma KeyDownIsSubmit(props: Props, s: State, key: string, shiftKey: bool)
    ensures Step(props, s, KeyDown(key, shiftKey))
            == if key == "Enter" && !shiftKey then Step(props, s, SubmitClicked) else Transition(s, [])
  {
  }

  /** The drag highlight: set on drag-over only when input is allowed, cleared
      by drag-leave and by every drop, including a blocked one. */
  lemma DragHighlight(props: Props, s: State, files: Option<seq<File>>)
    ensures Step(props, s, DragOver).state.isDragging == (s.isDragging || (!props.disabled && !props.isGenerating))
    ensures !Step(props, s, DragLeave).state.isDragging
    ensures !Step(props, s, Drop(files)).state.isDragging
    ensures props.disabled || props.isGenerating ==> Step(props, s, Drop(files)).effects == []
  {
  }

  /** Editing the textarea replaces the prompt with the edited value and
      nothing else. */
  lemma EditSetsPromptOnly(props: Props, s: State, value: string)
    ensures Step(props, s, PromptEdited(value)) == Transition(State(s.isDragging, value), [])
  {
  }

  /** The example button replaces the prompt and nothing else. */
  lemma ExampleSetsPromptOnly(props: Props, s: State)
    ensures Step(props, s, ExampleClicked) == Transition(State(s.isDragging, ExamplePrompt), [])
  {
  }

  /** A sequence of events under fixed props: the final state and every effect,
      in order. */
  function Run(props: Props, s: State, es: seq<Event>): (t: Transition)
    ensures |t.effects| <= |es|
    ensures forall x :: x in t.effects && x.Alert? ==> x.message == AlertMessage
    decreases |es|
  {
    if es == [] then Transition(s, [])
    else
      var first := Step(props, s, es[0]);
      var rest := Run(props, first.state, es[1..]);
      Transition(rest.state, first.effects + rest.effects)
  }

  /** While a generation is in flight, no event other than the file picker
      emits anything. The picker is blocked only in the DOM, by the `disabled`
      attribute on the `<input>` and the `pointer-events-none` class on the
      drop-zone label; both are presentation and outside this model. */
  lemma {:induction false} SilentWhileGenerating(props: Props, s: State, es: seq<Event>)
    requires props.isGenerating
    requires forall i :: 0 <= i < |es| ==> !es[i].FileChosen?
    ensures Run(props, s, es).effects == []
    decreases |es|
  {
    if es != [] {
      SilentWhileGenerating(props, Step(props, s, es[0]).state, es[1..]);
    }
  }

  /** While input is blocked, the drag highlight can never come on. */
  lemma {:induction false} NoHighlightWhileBlocked(props: Props, s: State, es: seq<Event>)
    requires props.disabled || props.isGenerating
    requires !s.isDragging
    ensures !Run(props, s, es).state.isDragging
    decreases |es|
  {
    if es != [] {
      NoHighlightWhileBlocked(props, Step(props, s, es[0]).state, es[1..]);
    }
  }
}

/** The rotating word under the drop-zone title: every tick advances the
    index by one, wrapping around the six words. */
module CyclingText {

  const Words := ["a napkin sketch", "a chaotic whiteboard", "a game level design",
                  "a sci-fi interface", "a diagram of a machine", "an ancient scroll"]

  /** `(prev + 1) % words.length`; for non-negative operands JavaScript's
      truncating `%` agrees with Dafny's. */
  function Next(index: nat): (r: nat)
    ensures r < |Words|
    ensures index < |Words| - 1 ==> r == index + 1
    ensures index == |Words| - 1 ==> r == 0
  {
    (index + 1) % |Words|
  }

  /** The index after `n` ticks. */
  function Advance(index: nat, n: nat): (r: nat)
    ensures n > 0 ==> r < |Words|
    decreases n
  {
    if n == 0 then index else Advance(Next(index), n - 1)
  }

  /** `n` ticks move a valid index forward by `n`, modulo the word count. */
  lemma {:induction false} AdvanceIsOffset(index: nat, n: nat)
    requires index < |Words|
    ensures Advance(index, n) == (index + n) % |Words|
    decreases n
  {
    if n > 0 {
      AdvanceIsOffset(Next(index), n - 1);
    }
  }

  /** The rotation returns to its start exactly after a multiple of six ticks. */
  lemma Period(index: nat, n: nat)
    requires index < |Words|
    ensures Advance(index, n) == index <==> n % |Words| == 0
  {
    AdvanceIsOffset(index, n);
  }
}
