/** The Anthropic server-sent event stream without tools (app/products/anthropic/messages_stream_format.go):
    a formatter that opens and closes content blocks as events arrive, and the exact streams it brackets well. */
module MessagesStream {
  import opened Wrappers

  datatype Kind = Thinking | Text

  /** The final delta carries the token totals, the search sources and the annotations. */
  datatype Frame =
    | MessageStart
    | Ping
    | BlockStart(index: nat, kind: Kind)
    | Delta(index: nat, kind: Kind, content: string)
    | BlockStop(index: nat)
    | MessageDelta(inputTokens: nat, outputTokens: nat, sources: seq<string>, annotations: seq<string>)
    | MessageStop
    | Done

  datatype Event =
    | ThinkingEvent(content: string)
    | TextEvent(content: string)
    | Annotation(data: string)
    | SoftStop

  /** What the end of the stream is given: the token estimate, the input's total, and the sources. */
  datatype Closing = Closing(tokens: string -> nat, inputTokens: nat, sources: seq<string>)

  // ---- The formatter on values --------------------------------------------

  datatype State = State(
    frames: seq<Frame>,
    textParts: seq<string>,
    thinkParts: seq<string>,
    annotations: seq<string>,
    blockIndex: nat,
    thinkStarted: bool,
    thinkClosed: bool,
    textStarted: bool)

  const START := State([MessageStart, Ping], [], [], [], 0, false, false, false)

  function Emit(s: State, f: Frame): State {
    s.(frames := s.frames + [f])
  }

  function HandleThinking(s: State, emit: bool, content: string): State {
    if !emit || s.thinkClosed || content == "" then s
    else
      var t := if s.thinkStarted then s else Emit(s, BlockStart(s.blockIndex, Thinking)).(thinkStarted := true);
      Emit(t, Delta(s.blockIndex, Thinking, content)).(thinkParts := s.thinkParts + [content])
  }

  function CloseThinking(s: State): State {
    if !s.thinkStarted || s.thinkClosed then s
    else Emit(s, BlockStop(s.blockIndex)).(thinkClosed := true, blockIndex := s.blockIndex + 1)
  }

  function EmitText(s: State, content: string): State {
    if content == "" then s
    else
      var t := if s.textStarted then s else Emit(s, BlockStart(s.blockIndex, Text)).(textStarted := true);
      Emit(t, Delta(s.blockIndex, Text, content)).(textParts := s.textParts + [content])
  }

  function Handle(s: State, emit: bool, e: Event): State {
    match e
    case ThinkingEvent(content) => HandleThinking(s, emit, content)
    case TextEvent(content) => EmitText(CloseThinking(s), content)
    case Annotation(data) => s.(annotations := s.annotations + [data])
    case SoftStop => s
  }

  function Run(s: State, emit: bool, es: seq<Event>): State {
    if es == [] then s else Handle(Run(s, emit, es[..|es| - 1]), emit, es[|es| - 1])
  }

  function EmitAll(s: State, parts: seq<string>): State {
    if parts == [] then s else EmitText(EmitAll(s, parts[..|parts| - 1]), parts[|parts| - 1])
  }

  function FinalDelta(s: State, c: Closing): Frame {
    MessageDelta(c.inputTokens, c.tokens(Concat(s.textParts)) + c.tokens(Concat(s.thinkParts)), c.sources, s.annotations)
  }

  function Finish(s: State, tail: seq<string>, c: Closing): State {
    var t := CloseThinking(EmitAll(s, tail));
    var u := if t.textStarted then Emit(t, BlockStop(t.blockIndex)) else t;
    Emit(Emit(Emit(u, FinalDelta(u, c)), MessageStop), Done)
  }

  function Concat(parts: seq<string>): string {
    if parts == [] then "" else Concat(parts[..|parts| - 1]) + parts[|parts| - 1]
  }

  /** The events of the batches up to the first soft stop, which ends the stream. */
  function Heard(batches: seq<seq<Event>>): seq<Event> {
    if batches == [] then []
    else if SoftStop in batches[0] then UntilStop(batches[0])
    else batches[0] + Heard(batches[1..])
  }

  function UntilStop(es: seq<Event>): (r: seq<Event>)
    ensures r <= es && SoftStop !in r
    ensures r == es <==> SoftStop !in es
    ensures |r| < |es| ==> es[|r|] == SoftStop
  {
    if es == [] || es[0] == SoftStop then [] else [es[0]] + UntilStop(es[1..])
  }

  /** What the end of the stream adds as text: each image that resolves, on its line, then the references. */
  function Tail(images: seq<Option<string>>, references: string): seq<string> {
    Lines(images) + if references == "" then [] else [references]
  }

  function Lines(images: seq<Option<string>>): seq<string> {
    if images == [] then []
    else
      var last := images[|images| - 1];
      Lines(images[..|images| - 1]) + if last.None? || last.value == "" then [] else [last.value + "\n"]
  }

  /** The batches one after the other. */
  function Flat(batches: seq<seq<Event>>): seq<Event> {
    if batches == [] then [] else batches[0] + Flat(batches[1..])
  }

  lemma {:induction false} UntilStopJoined(a: seq<Event>, b: seq<Event>)
    ensures UntilStop(a + b) == if SoftStop in a then UntilStop(a) else a + UntilStop(b)
  {
    if a == [] {
      assert a + b == b;
    } else {
      assert (a + b)[1..] == a[1..] + b;
      UntilStopJoined(a[1..], b);
    }
  }

  /** How the events are batched does not matter: what is heard is what comes before the first soft stop. */
  lemma {:induction false} HeardIsUntilStop(batches: seq<seq<Event>>)
    ensures Heard(batches) == UntilStop(Flat(batches))
  {
    if batches != [] {
      HeardIsUntilStop(batches[1..]);
      UntilStopJoined(batches[0], Flat(batches[1..]));
    }
  }

  lemma {:induction false} LinesJoined(images: seq<Option<string>>, n: nat)
    requires n <= |images|
    ensures Lines(images) == Lines(images[..n]) + Lines(images[n..])
    decreases |images| - n
  {
    var m := |images| - 1;
    if n == |images| {
      assert images[..n] == images && images[n..] == [];
    } else {
      LinesJoined(images[..m], n);
      assert images[..m][..n] == images[..n] && images[..m][n..] == images[n..][..m - n] && images[n..][m - n] == images[m];
    }
  }

  /** The tail in order: the first image, if it resolves to a link, with its line end, then what the others and the
      references make; after the last image the references, if there are any. */
  lemma TailMeans(images: seq<Option<string>>, references: string)
    ensures Tail([], references) == if |references| > 0 then [references] else []
    ensures images != [] ==>
      Tail(images, references) ==
        (match images[0] case Some(link) => if |link| > 0 then [link + ['\n']] else [] case None => [])
        + Tail(images[1..], references)
  {
    if images != [] {
      LinesJoined(images, 1);
      assert images[..1][..0] == [];
    }
  }

  // ---- The formatter in place ---------------------------------------------

  class MessagesStreamState {
    var frames: seq<Frame>
    var textParts: seq<string>
    var thinkParts: seq<string>
    var annotations: seq<string>
    var blockIndex: nat
    var thinkStarted: bool
    var thinkClosed: bool
    var textStarted: bool

    ghost function View(): State
      reads this
    {
      State(frames, textParts, thinkParts, annotations, blockIndex, thinkStarted, thinkClosed, textStarted)
    }

    constructor ()
      ensures View() == START
    {
      frames := [MessageStart, Ping];
      textParts, thinkParts, annotations := [], [], [];
      blockIndex, thinkStarted, thinkClosed, textStarted := 0, false, false, false;
    }

    method HandleThinkingEvent(emitThink: bool, content: string)
      modifies this
      ensures View() == HandleThinking(old(View()), emitThink, content)
    {
      if !emitThink || thinkClosed || content == "" {
        return;
      }
      if !thinkStarted {
        thinkStarted := true;
        frames := frames + [BlockStart(blockIndex, Thinking)];
      }
      thinkParts := thinkParts + [content];
      frames := frames + [Delta(blockIndex, Thinking, content)];
    }

    method HandleTextEvent(content: string)
      modifies this
      ensures View() == EmitText(CloseThinking(old(View())), content)
    {
      CloseThinkingBlock();
      EmitTextDelta(content);
    }

    method EmitTextDelta(content: string)
      modifies this
      ensures View() == EmitText(old(View()), content)
    {
      if content == "" {
        return;
      }
      if !textStarted {
        textStarted := true;
        frames := frames + [BlockStart(blockIndex, Text)];
      }
      textParts := textParts + [content];
      frames := frames + [Delta(blockIndex, Text, content)];
    }

    method CloseThinkingBlock()
      modifies this
      ensures View() == CloseThinking(old(View()))
    {
      if !thinkStarted || thinkClosed {
        return;
      }
      thinkClosed := true;
      frames := frames + [BlockStop(blockIndex)];
      blockIndex := blockIndex + 1;
    }

    method HandleEvents(emitThink: bool, events: seq<Event>) returns (stop: bool)
      modifies this
      ensures stop == (SoftStop in events)
      ensures View() == Run(old(View()), emitThink, UntilStop(events))
    {
      hide Handle;
      assert events[..0] == [];
      for i := 0 to |events|
        invariant SoftStop !in events[..i]
        invariant View() == Run(old(View()), emitThink, events[..i])
      {
        assert events[..i + 1][..i] == events[..i];
        if events[i] == SoftStop {
          StopAt(events, i);
          return true;
        }
        HandleOne(emitThink, events[i]);
      }
      assert events[..|events|] == events;
      return false;
    }

    method HandleOne(emitThink: bool, event: Event)
      modifies this
      ensures View() == Handle(old(View()), emitThink, event)
    {
      match event {
        case ThinkingEvent(content) =>
          HandleThinkingEvent(emitThink, content);
        case TextEvent(content) =>
          HandleTextEvent(content);
        case Annotation(data) =>
          annotations := annotations + [data];
        case SoftStop =>
      }
    }

    method Consume(emitThink: bool, batches: seq<seq<Event>>)
      modifies this
      ensures View() == Run(old(View()), emitThink, Heard(batches))
    {
      hide Run, UntilStop;
      ghost var done: seq<Event> := [];
      RunNothing(View(), emitThink);
      for i := 0 to |batches|
        invariant View() == Run(old(View()), emitThink, done)
        invariant done + Heard(batches[i..]) == Heard(batches)
      {
        var stop := HandleEvents(emitThink, batches[i]);
        RunAppend(old(View()), emitThink, done, UntilStop(batches[i]));
        done := done + UntilStop(batches[i]);
        assert batches[i..][1..] == batches[i + 1..];
        if stop {
          return;
        }
      }
      assert batches[|batches|..] == [] && done + [] == done;
    }

    method AppendImagesAndReferences(images: seq<Option<string>>, references: string)
      modifies this
      ensures View() == EmitAll(old(View()), Tail(images, references))
    {
      hide EmitText, EmitAll;
      EmitAllStep(View(), [], "");
      for i := 0 to |images|
        invariant View() == EmitAll(old(View()), Lines(images[..i]))
      {
        assert images[..i + 1][..i] == images[..i];
        assert Lines(images[..i]) + [] == Lines(images[..i]);
        if images[i].Some? && images[i].value != "" {
          EmitAllStep(old(View()), Lines(images[..i]), images[i].value + "\n");
          EmitTextDelta(images[i].value + "\n");
        }
      }
      assert images[..|images|] == images && Lines(images) + [] == Lines(images);
      if references != "" {
        EmitAllStep(old(View()), Lines(images), references);
        EmitTextDelta(references);
      }
    }

    method FinishStream(images: seq<Option<string>>, references: string, c: Closing)
      modifies this
      ensures View() == Finish(old(View()), Tail(images, references), c)
    {
      hide EmitAll, CloseThinking, Concat;
      AppendImagesAndReferences(images, references);
      CloseThinkingBlock();
      if textStarted {
        frames := frames + [BlockStop(blockIndex)];
      }
      var outputTokens := c.tokens(Concat(textParts)) + c.tokens(Concat(thinkParts));
      frames := frames + [MessageDelta(c.inputTokens, outputTokens, c.sources, annotations)];
      frames := frames + [MessageStop] + [Done];
    }
  }

  lemma {:induction false} StopAt(es: seq<Event>, i: nat)
    requires i < |es| && es[i] == SoftStop && SoftStop !in es[..i]
    ensures UntilStop(es) == es[..i]
  {
    if i > 0 {
      assert es[0] == es[..i][0];
      assert forall e :: e in es[1..][..i - 1] ==> e in es[..i];
      StopAt(es[1..], i - 1);
    }
  }

  lemma RunNothing(s: State, emit: bool)
    ensures Run(s, emit, []) == s
  {
  }

  lemma EmitAllStep(s: State, parts: seq<string>, last: string)
    ensures EmitAll(s, []) == s
    ensures EmitAll(s, parts + [last]) == EmitText(EmitAll(s, parts), last)
  {
    assert (parts + [last])[..|parts|] == parts;
  }

  lemma {:induction false} RunAppend(s: State, emit: bool, a: seq<Event>, b: seq<Event>)
    ensures Run(s, emit, a + b) == Run(Run(s, emit, a), emit, b)
  {
    hide Handle;
    if b == [] {
      assert a + b == a;
    } else {
      assert (a + b)[..|a + b| - 1] == a + b[..|b| - 1];
      RunAppend(s, emit, a, b[..|b| - 1]);
    }
  }

  // ---- Well-bracketed streams ---------------------------------------------

  /** How far a reader of the stream has come, or that it has met a frame out of place. */
  datatype Mode = Unstarted | Started | Idle(next: nat) | Open(index: nat, kind: Kind) | Ending | Ended | Finished | Broken

  function Next(m: Mode, f: Frame): Mode {
    match (m, f)
    case (Unstarted, MessageStart) => Started
    case (Started, Ping) => Idle(0)
    case (Idle(next), BlockStart(index, kind)) => if index == next then Open(index, kind) else Broken
    case (Idle(_), MessageDelta(_, _, _, _)) => Ending
    case (Open(index, kind), Delta(i, k, content)) => if i == index && k == kind && content != "" then m else Broken
    case (Open(index, _), BlockStop(i)) => if i == index then Idle(index + 1) else Broken
    case (Ending, MessageStop) => Ended
    case (Ended, Done) => Finished
    case _ => Broken
  }

  function Track(frames: seq<Frame>): Mode {
    if frames == [] then Unstarted else Next(Track(frames[..|frames| - 1]), frames[|frames| - 1])
  }

  /** Start, ping, blocks numbered from zero that open and close one after the other with only their own
      nonempty deltas inside, then the three closing frames. */
  predicate WellBracketed(frames: seq<Frame>) {
    Track(frames) == Finished
  }

  lemma TrackEmit(s: State, f: Frame)
    ensures Track(Emit(s, f).frames) == Next(Track(s.frames), f)
  {
    assert (s.frames + [f])[..|s.frames|] == s.frames;
  }

  // ---- What the events ask for --------------------------------------------

  predicate IsThought(e: Event) {
    e.ThinkingEvent? && e.content != ""
  }

  predicate IsText(e: Event) {
    e.TextEvent? && e.content != ""
  }

  /** The position of the first thought, or the number of events. */
  function FirstThought(es: seq<Event>): (n: nat)
    ensures n <= |es|
    ensures forall i :: 0 <= i < n ==> !IsThought(es[i])
    ensures n < |es| ==> IsThought(es[n])
  {
    if es == [] || IsThought(es[0]) then 0 else 1 + FirstThought(es[1..])
  }

  /** Nonempty text among the first `n` events. */
  predicate TextWithin(es: seq<Event>, n: nat)
    requires n <= |es|
  {
    exists i :: 0 <= i < n && IsText(es[i])
  }

  /** A text event, even an empty one, after position `n`. */
  predicate TextEventAfter(es: seq<Event>, n: nat) {
    exists i :: n < i < |es| && es[i].TextEvent?
  }

  /** The streams the formatter cannot bracket: the first thought comes after text has begun, or no text
      event ever closes the thinking block and images or references still follow. */
  predicate Misordered(emit: bool, es: seq<Event>, tail: seq<string>) {
    var n := FirstThought(es);
    emit && n < |es| && (TextWithin(es, n) || (!TextEventAfter(es, n) && tail != []))
  }

  function TextIn(es: seq<Event>): string {
    if es == [] then ""
    else
      var last := es[|es| - 1];
      TextIn(es[..|es| - 1]) + if last.TextEvent? then last.content else ""
  }

  /** Thinking that is shown: all of it up to the first text event after the first thought. */
  function ThinkingIn(es: seq<Event>): string {
    if es == [] then ""
    else
      var last, before := es[|es| - 1], es[..|es| - 1];
      ThinkingIn(before) + if last.ThinkingEvent? && !TextEventAfter(before, FirstThought(before)) then last.content else ""
  }

  /** The deltas of one kind, joined: what a client shows. */
  function Shown(frames: seq<Frame>, kind: Kind): string {
    if frames == [] then ""
    else
      var last := frames[|frames| - 1];
      Shown(frames[..|frames| - 1], kind) + if last.Delta? && last.kind == kind then last.content else ""
  }

  // ---- The formatter against the events -----------------------------------

  /** While nothing is out of place the flags say which block is open and which index is next. */
  predicate InStep(s: State) {
    match Track(s.frames)
    case Broken => true
    case Idle(next) => s.blockIndex == next && !s.textStarted && s.thinkStarted == s.thinkClosed
    case Open(index, Thinking) => s.blockIndex == index && !s.textStarted && s.thinkStarted && !s.thinkClosed
    case Open(index, Text) => s.blockIndex == index && s.textStarted && s.thinkStarted == s.thinkClosed
    case _ => false
  }

  predicate ThinkingOpen(s: State) {
    Track(s.frames).Open? && Track(s.frames).kind == Thinking
  }

  predicate OutOfPlace(s: State) {
    Track(s.frames).Broken?
  }

  lemma ThinkingInStep(s: State, emit: bool, content: string)
    requires InStep(s)
    ensures var t := HandleThinking(s, emit, content);
      InStep(t) && (OutOfPlace(t) <==>
        OutOfPlace(s) || (emit && content != "" && !s.thinkStarted && !s.thinkClosed && s.textStarted))
  {
    hide Track;
    TrackEmit(s, BlockStart(s.blockIndex, Thinking));
    var t := if s.thinkStarted then s else Emit(s, BlockStart(s.blockIndex, Thinking)).(thinkStarted := true);
    TrackEmit(t, Delta(s.blockIndex, Thinking, content));
  }

  lemma CloseInStep(s: State)
    requires InStep(s) && (s.thinkClosed ==> s.thinkStarted)
    ensures var t := CloseThinking(s);
      InStep(t) && !ThinkingOpen(t) && (OutOfPlace(t) <==> OutOfPlace(s)) && t.thinkStarted == t.thinkClosed
  {
    hide Track;
    TrackEmit(s, BlockStop(s.blockIndex));
  }

  lemma TextInStep(s: State, content: string)
    requires InStep(s)
    ensures var t := EmitText(s, content);
      && InStep(t) && (content != "" ==> !ThinkingOpen(t))
      && (OutOfPlace(t) <==> OutOfPlace(s) || (ThinkingOpen(s) && content != ""))
  {
    hide Track;
    TrackEmit(s, BlockStart(s.blockIndex, Text));
    var t := if s.textStarted then s else Emit(s, BlockStart(s.blockIndex, Text)).(textStarted := true);
    TrackEmit(t, Delta(s.blockIndex, Text, content));
  }

  lemma HandleInStep(s: State, emit: bool, e: Event)
    requires InStep(s) && (s.thinkClosed ==> s.thinkStarted)
    ensures var t := Handle(s, emit, e);
      InStep(t) && (OutOfPlace(t) <==> OutOfPlace(s) || (emit && IsThought(e) && !s.thinkStarted && s.textStarted))
  {
    hide Track, InStep, HandleThinking, CloseThinking, EmitText;
    match e {
      case ThinkingEvent(content) =>
        ThinkingInStep(s, emit, content);
      case TextEvent(content) =>
        CloseInStep(s);
        TextInStep(CloseThinking(s), content);
      case Annotation(data) =>
        SameFrames(s, s.(annotations := s.annotations + [data]));
      case SoftStop =>
    }
  }

  lemma SameFrames(s: State, t: State)
    requires t == s.(annotations := t.annotations)
    ensures InStep(t) == InStep(s)
  {
    hide Track;
  }

  // ---- Events seen so far -------------------------------------------------

  lemma FirstThoughtStep(es: seq<Event>, e: Event)
    ensures FirstThought(es + [e])
      == if FirstThought(es) < |es| then FirstThought(es) else if IsThought(e) then |es| else |es| + 1
  {
    hide FirstThought, IsThought;
    var n, m := FirstThought(es), FirstThought(es + [e]);
    assert forall i :: 0 <= i < |es| ==> (es + [e])[i] == es[i];
    assert n < |es| ==> IsThought((es + [e])[n]);
    assert m < |es| ==> IsThought(es[m]);
    assert (es + [e])[|es|] == e;
  }

  lemma WithinStep(es: seq<Event>, e: Event, n: nat)
    requires n <= |es|
    ensures TextWithin(es + [e], n) == TextWithin(es, n)
    ensures TextWithin(es + [e], |es| + 1) <==> TextWithin(es, |es|) || IsText(e)
    ensures TextEventAfter(es + [e], n) <==> TextEventAfter(es, n) || (n < |es| && e.TextEvent?)
  {
    hide IsText;
    var all := es + [e];
    assert all[|es|] == e;
    assert forall i :: 0 <= i < |es| ==> all[i] == es[i];
    if TextWithin(es, n) {
      var i :| 0 <= i < n && IsText(es[i]);
      assert IsText(all[i]);
    }
    if TextWithin(es, |es|) {
      var i :| 0 <= i < |es| && IsText(es[i]);
      assert IsText(all[i]);
    }
    if TextEventAfter(es, n) {
      var i :| n < i < |es| && es[i].TextEvent?;
      assert all[i].TextEvent?;
    }
  }

  /** The three flags say exactly what has been seen. */
  lemma {:induction false} FlagsTell(emit: bool, es: seq<Event>)
    ensures var s := Run(START, emit, es); var n := FirstThought(es);
      && (s.thinkStarted <==> emit && n < |es|)
      && (s.thinkClosed <==> emit && TextEventAfter(es, n))
      && (s.textStarted <==> TextWithin(es, |es|))
  {
    hide FirstThought, TextWithin, TextEventAfter;
    if es == [] {
      NothingSeen();
    } else {
      var before, e := es[..|es| - 1], es[|es| - 1];
      assert es == before + [e];
      FlagsTell(emit, before);
      FirstThoughtStep(before, e);
      WithinStep(before, e, FirstThought(before));
      NoneAfterEnd(es, FirstThought(es));
      NoneAfterEnd(before, FirstThought(before));
    }
  }

  lemma NothingSeen()
    ensures FirstThought([]) == 0 && !TextWithin([], 0) && !TextEventAfter([], 0)
  {
  }

  lemma NoneAfterEnd(es: seq<Event>, n: nat)
    ensures n + 1 >= |es| ==> !TextEventAfter(es, n)
  {
  }

  /** A frame is out of place exactly when thinking has started inside a text block. */
  lemma {:induction false} RunInStep(emit: bool, es: seq<Event>)
    ensures var s := Run(START, emit, es); var n := FirstThought(es);
      InStep(s) && (OutOfPlace(s) <==> emit && n < |es| && TextWithin(es, n))
  {
    hide FirstThought, TextWithin, TextEventAfter, InStep, OutOfPlace, Handle;
    if es == [] {
      NothingSeen();
      StartInStep();
    } else {
      var before, e := es[..|es| - 1], es[|es| - 1];
      assert es == before + [e];
      RunInStep(emit, before);
      FlagsTell(emit, before);
      NoneAfterEnd(before, FirstThought(before));
      HandleInStep(Run(START, emit, before), emit, e);
      FirstThoughtStep(before, e);
      WithinStep(before, e, FirstThought(before));
    }
  }

  lemma StartInStep()
    ensures InStep(START) && !OutOfPlace(START)
  {
    var frames := START.frames;
    assert frames[..1] == [MessageStart] && frames[..1][..0] == [];
    assert Track(frames[..1]) == Started;
  }

  lemma {:induction false} EmitAllInStep(s: State, parts: seq<string>)
    requires InStep(s) && "" !in parts
    ensures var t := EmitAll(s, parts);
      && InStep(t) && (OutOfPlace(t) <==> OutOfPlace(s) || (ThinkingOpen(s) && parts != []))
      && (parts != [] ==> !ThinkingOpen(t))
      && t.thinkStarted == s.thinkStarted && t.thinkClosed == s.thinkClosed
  {
    hide InStep, OutOfPlace, ThinkingOpen;
    if parts != [] {
      var before, last := parts[..|parts| - 1], parts[|parts| - 1];
      EmitAllInStep(s, before);
      TextInStep(EmitAll(s, before), last);
    }
  }

  lemma FinishBracketed(s: State, tail: seq<string>, c: Closing)
    requires InStep(s) && "" !in tail && (s.thinkClosed ==> s.thinkStarted)
    ensures WellBracketed(Finish(s, tail, c).frames) <==> !OutOfPlace(s) && (ThinkingOpen(s) ==> tail == [])
  {
    hide Track, EmitAll, CloseThinking, Concat;
    EmitAllInStep(s, tail);
    assert tail == [] ==> EmitAll(s, tail) == s by {
      EmitAllStep(s, [], "");
    }
    CloseInStep(EmitAll(s, tail));
    var t := CloseThinking(EmitAll(s, tail));
    TrackEmit(t, BlockStop(t.blockIndex));
    var u := if t.textStarted then Emit(t, BlockStop(t.blockIndex)) else t;
    var delta := FinalDelta(u, c);
    TrackEmit(u, delta);
    TrackEmit(Emit(u, delta), MessageStop);
    TrackEmit(Emit(Emit(u, delta), MessageStop), Done);
  }

  lemma {:induction false} LinesNonempty(images: seq<Option<string>>)
    ensures "" !in Lines(images)
  {
    if images != [] {
      LinesNonempty(images[..|images| - 1]);
      var last := images[|images| - 1];
      if last.Some? {
        assert |last.value + "\n"| > 0;
      }
    }
  }

  /** The exact condition, for every stream of events and every tail: the frames are well bracketed unless
      the first thought comes after text, or thinking is never closed by a text event and something still
      follows. */
  lemma WellBracketedIff(emit: bool, batches: seq<seq<Event>>, images: seq<Option<string>>, references: string, c: Closing)
    ensures var tail := Tail(images, references);
      WellBracketed(Finish(Run(START, emit, Heard(batches)), tail, c).frames) <==> !Misordered(emit, Heard(batches), tail)
  {
    hide InStep, OutOfPlace, ThinkingOpen, Run, Finish, FirstThought, TextWithin, TextEventAfter;
    var es, tail := Heard(batches), Tail(images, references);
    var s := Run(START, emit, es);
    LinesNonempty(images);
    RunInStep(emit, es);
    FlagsTell(emit, es);
    NoneAfterEnd(es, FirstThought(es));
    OpenIff(s);
    FinishBracketed(s, tail, c);
  }

  lemma HeardOne(es: seq<Event>)
    requires SoftStop !in es
    ensures Heard([es]) == es
  {
    var one: seq<seq<Event>> := [es];
    assert one[1..] == [] && Heard(one[1..]) == [];
  }

  /** The two failing shapes: thinking after text, and a reference after thinking alone. */
  lemma MisorderedStreams(c: Closing)
    ensures !WellBracketed(Finish(Run(START, true, Heard([[TextEvent("a"), ThinkingEvent("b")]])), Tail([], ""), c).frames)
    ensures !WellBracketed(Finish(Run(START, true, Heard([[ThinkingEvent("b")]])), Tail([], "r"), c).frames)
  {
    hide WellBracketed, Finish, Run;
    var late: seq<Event>, alone: seq<Event> := [TextEvent("a"), ThinkingEvent("b")], [ThinkingEvent("b")];
    WellBracketedIff(true, [late], [], "", c);
    WellBracketedIff(true, [alone], [], "r", c);
    HeardOne(late);
    HeardOne(alone);
    assert FirstThought(late) == 1 && IsText(late[0]) && FirstThought(alone) == 0;
    assert TextWithin(late, 1) && !TextEventAfter(alone, 0) && Tail([], "r") != [];
  }

  lemma OpenIff(s: State)
    requires InStep(s)
    ensures !OutOfPlace(s) ==> (ThinkingOpen(s) <==> s.thinkStarted && !s.thinkClosed)
  {
    hide Track;
  }

  // ---- The text that is shown ---------------------------------------------

  lemma ConcatStep(parts: seq<string>, last: string)
    ensures Concat(parts + [last]) == Concat(parts) + last
  {
    assert (parts + [last])[..|parts|] == parts;
  }

  lemma ShownEmit(s: State, f: Frame, kind: Kind)
    ensures Shown(Emit(s, f).frames, kind)
      == Shown(s.frames, kind) + if f.Delta? && f.kind == kind then f.content else ""
  {
    assert (s.frames + [f])[..|s.frames|] == s.frames;
  }

  predicate PartsShown(s: State) {
    Concat(s.textParts) == Shown(s.frames, Text) && Concat(s.thinkParts) == Shown(s.frames, Thinking)
  }

  lemma EmitTextShown(s: State, content: string)
    requires PartsShown(s)
    ensures var t := EmitText(s, content);
      PartsShown(t) && Concat(t.textParts) == Concat(s.textParts) + content && t.thinkParts == s.thinkParts
  {
    hide Concat, Shown;
    var t := if s.textStarted then s else Emit(s, BlockStart(s.blockIndex, Text)).(textStarted := true);
    ShownBoth(s, BlockStart(s.blockIndex, Text));
    ShownBoth(t, Delta(s.blockIndex, Text, content));
    ConcatStep(s.textParts, content);
    assert Concat(s.textParts) + "" == Concat(s.textParts);
  }

  lemma ShownBoth(s: State, f: Frame)
    ensures Shown(Emit(s, f).frames, Text)
      == if f.Delta? && f.kind == Text then Shown(s.frames, Text) + f.content else Shown(s.frames, Text)
    ensures Shown(Emit(s, f).frames, Thinking)
      == if f.Delta? && f.kind == Thinking then Shown(s.frames, Thinking) + f.content else Shown(s.frames, Thinking)
  {
    ShownEmit(s, f, Text);
    ShownEmit(s, f, Thinking);
  }

  lemma ThinkingShown(s: State, emit: bool, content: string)
    requires PartsShown(s)
    ensures var t := HandleThinking(s, emit, content);
      && PartsShown(t) && t.textParts == s.textParts
      && Concat(t.thinkParts) == Concat(s.thinkParts) + if emit && !s.thinkClosed then content else ""
  {
    hide Concat, Shown;
    var t := if s.thinkStarted then s else Emit(s, BlockStart(s.blockIndex, Thinking)).(thinkStarted := true);
    ShownBoth(s, BlockStart(s.blockIndex, Thinking));
    ShownBoth(t, Delta(s.blockIndex, Thinking, content));
    ConcatStep(s.thinkParts, content);
    assert Concat(s.thinkParts) + "" == Concat(s.thinkParts);
  }

  lemma CloseShown(s: State)
    requires PartsShown(s)
    ensures var t := CloseThinking(s); PartsShown(t) && t.textParts == s.textParts && t.thinkParts == s.thinkParts
  {
    hide Concat, Shown;
    ShownBoth(s, BlockStop(s.blockIndex));
  }

  lemma {:induction false} RunShows(emit: bool, es: seq<Event>)
    ensures var s := Run(START, emit, es);
      PartsShown(s) && Concat(s.textParts) == TextIn(es) && Concat(s.thinkParts) == if emit then ThinkingIn(es) else ""
  {
    hide FirstThought, TextEventAfter, PartsShown, EmitText, CloseThinking, HandleThinking, Concat;
    if es == [] {
      assert PartsShown(START) && Concat([]) == "" by {
        StartShown();
      }
    } else {
      var before, e := es[..|es| - 1], es[|es| - 1];
      RunShows(emit, before);
      FlagsTell(emit, before);
      var s := Run(START, emit, before);
      assert forall x: string :: x + "" == x;
      match e {
        case ThinkingEvent(content) =>
          ThinkingShown(s, emit, content);
        case TextEvent(content) =>
          CloseShown(s);
          EmitTextShown(CloseThinking(s), content);
        case Annotation(data) =>
          AnnotationShown(s, s.annotations + [data]);
        case SoftStop =>
      }
    }
  }

  lemma StartShown()
    ensures PartsShown(START) && Concat([]) == ""
  {
    assert START.frames[..1][..0] == [];
  }

  lemma AnnotationShown(s: State, a: seq<string>)
    ensures PartsShown(s.(annotations := a)) == PartsShown(s)
  {
  }

  lemma {:induction false} EmitAllShows(s: State, parts: seq<string>)
    requires PartsShown(s)
    ensures var t := EmitAll(s, parts);
      PartsShown(t) && Concat(t.textParts) == Concat(s.textParts) + Concat(parts) && t.thinkParts == s.thinkParts
  {
    hide PartsShown, EmitText;
    if parts == [] {
      assert Concat(s.textParts) + "" == Concat(s.textParts);
    } else {
      var before := parts[..|parts| - 1];
      EmitAllShows(s, before);
      EmitTextShown(EmitAll(s, before), parts[|parts| - 1]);
    }
  }

  /** The annotations, in order. */
  function NotesIn(es: seq<Event>): seq<string> {
    if es == [] then []
    else
      var last := es[|es| - 1];
      NotesIn(es[..|es| - 1]) + if last.Annotation? then [last.data] else []
  }

  lemma {:induction false} RunNotes(emit: bool, es: seq<Event>)
    ensures Run(START, emit, es).annotations == NotesIn(es)
  {
    if es != [] {
      RunNotes(emit, es[..|es| - 1]);
      var a := NotesIn(es[..|es| - 1]);
      assert a + [] == a;
    }
  }

  lemma {:induction false} EmitAllNotes(s: State, parts: seq<string>)
    ensures EmitAll(s, parts).annotations == s.annotations
  {
    if parts != [] {
      EmitAllNotes(s, parts[..|parts| - 1]);
    }
  }

  /** What the final delta must say: the tokens of what was shown, the sources, and every annotation. */
  ghost predicate Totals(delta: Frame, c: Closing, text: string, thinking: string, notes: seq<string>) {
    delta == MessageDelta(c.inputTokens, c.tokens(text) + c.tokens(thinking), c.sources, notes)
  }

  /** Well bracketed or not, the text deltas join to the text events, then the images, then the references;
      the thinking deltas to the thinking before the first text event that follows a thought; and the
      final delta counts exactly these two texts and carries every annotation. */
  lemma TextsShown(emit: bool, batches: seq<seq<Event>>, images: seq<Option<string>>, references: string, c: Closing)
    ensures var es, tail := Heard(batches), Tail(images, references);
      var frames := Finish(Run(START, emit, es), tail, c).frames;
      && Shown(frames, Text) == TextIn(es) + Concat(tail)
      && Shown(frames, Thinking) == (if emit then ThinkingIn(es) else "")
      && |frames| >= 3 && Totals(frames[|frames| - 3], c, Shown(frames, Text), Shown(frames, Thinking), NotesIn(es))
  {
    hide Run, EmitAll, CloseThinking, Concat, Shown, PartsShown, Heard, Tail, TextIn, ThinkingIn, NotesIn;
    var es, tail := Heard(batches), Tail(images, references);
    RunShows(emit, es);
    RunNotes(emit, es);
    var s := EmitAll(Run(START, emit, es), tail);
    EmitAllShows(Run(START, emit, es), tail);
    EmitAllNotes(Run(START, emit, es), tail);
    CloseShown(s);
    FinishShows(CloseThinking(s), c);
    CloseNotes(s);
  }

  lemma CloseNotes(s: State)
    ensures CloseThinking(s).annotations == s.annotations
  {
  }

  lemma FinishShows(t: State, c: Closing)
    requires PartsShown(t)
    ensures var u := if t.textStarted then Emit(t, BlockStop(t.blockIndex)) else t;
      var v := Emit(Emit(Emit(u, FinalDelta(u, c)), MessageStop), Done);
      Shown(v.frames, Text) == Concat(t.textParts) && Shown(v.frames, Thinking) == Concat(t.thinkParts)
  {
    hide Concat, Shown;
    ShownBoth(t, BlockStop(t.blockIndex));
    var u := if t.textStarted then Emit(t, BlockStop(t.blockIndex)) else t;
    ShownBoth(u, FinalDelta(u, c));
    ShownBoth(Emit(u, FinalDelta(u, c)), MessageStop);
    ShownBoth(Emit(Emit(u, FinalDelta(u, c)), MessageStop), Done);
  }

  /** The whole call: what a client receives. */
  method MessagesStreamResult(emitThink: bool, batches: seq<seq<Event>>, images: seq<Option<string>>, references: string,
                              c: Closing)
    returns (frames: seq<Frame>)
    ensures WellBracketed(frames) <==> !Misordered(emitThink, Heard(batches), Tail(images, references))
    ensures Shown(frames, Text) == TextIn(Heard(batches)) + Concat(Tail(images, references))
    ensures Shown(frames, Thinking) == if emitThink then ThinkingIn(Heard(batches)) else ""
    ensures |frames| >= 3
    ensures Totals(frames[|frames| - 3], c, Shown(frames, Text), Shown(frames, Thinking), NotesIn(Heard(batches)))
  {
    hide Finish, Run;
    var state := new MessagesStreamState();
    state.Consume(emitThink, batches);
    state.FinishStream(images, references, c);
    frames := state.frames;
    WellBracketedIff(emitThink, batches, images, references, c);
    TextsShown(emitThink, batches, images, references, c);
  }

  // ---- What well bracketed means ------------------------------------------

  datatype Block = Block(kind: Kind, deltas: seq<string>)

  function Deltas(index: nat, b: Block): seq<Frame> {
    seq(|b.deltas|, i requires 0 <= i < |b.deltas| => Delta(index, b.kind, b.deltas[i]))
  }

  /** Complete blocks, numbered from zero in order. */
  function Render(blocks: seq<Block>): seq<Frame> {
    if blocks == [] then []
    else
      var k := |blocks| - 1;
      Render(blocks[..k]) + ([BlockStart(k, blocks[k].kind)] + Deltas(k, blocks[k]) + [BlockStop(k)])
  }

  /** The mode of a stream in order tells the complete blocks before it and the block still open. */
  predicate Reads(m: Mode, frames: seq<Frame>, blocks: seq<Block>, last: Block) {
    match m
    case Unstarted => frames == []
    case Started => frames == [MessageStart]
    case Idle(next) => |blocks| == next && frames == [MessageStart, Ping] + Render(blocks)
    case Open(index, kind) =>
      && |blocks| == index && last.kind == kind
      && frames == [MessageStart, Ping] + Render(blocks) + ([BlockStart(index, kind)] + Deltas(index, last))
    case _ => true
  }

  lemma {:induction false} ModeReads(frames: seq<Frame>) returns (blocks: seq<Block>, last: Block)
    ensures Reads(Track(frames), frames, blocks, last)
  {
    hide Render, Deltas, Next;
    blocks, last := [], Block(Text, []);
    if frames != [] {
      var before, f := frames[..|frames| - 1], frames[|frames| - 1];
      assert frames == before + [f];
      blocks, last := ModeReads(before);
      hide Track, Reads;
      blocks, last := ReadsNext(Track(before), before, f, blocks, last);
    }
  }

  lemma ReadsNext(m: Mode, before: seq<Frame>, f: Frame, blocks: seq<Block>, last: Block)
    returns (blocks': seq<Block>, last': Block)
    requires Reads(m, before, blocks, last)
    ensures Reads(Next(m, f), before + [f], blocks', last')
  {
    hide Render, Deltas;
    blocks', last' := blocks, last;
    match m {
      case Started =>
        blocks' := [];
        NoBlocks();
      case Idle(next) =>
        if f.BlockStart? {
          last' := Block(f.kind, []);
          NoDeltas(next, f.kind);
        }
      case Open(index, kind) =>
        if f.Delta? {
          last' := Extended(index, last, f.content);
        } else if f == BlockStop(index) {
          Closed(before, blocks, last);
          blocks' := blocks + [last];
        }
      case _ =>
    }
  }

  lemma NoBlocks()
    ensures Render([]) == []
  {
  }

  lemma NoDeltas(index: nat, kind: Kind)
    ensures Deltas(index, Block(kind, [])) == []
  {
  }

  lemma Extended(index: nat, b: Block, content: string) returns (c: Block)
    ensures c.kind == b.kind && Deltas(index, c) == Deltas(index, b) + [Delta(index, b.kind, content)]
  {
    c := b.(deltas := b.deltas + [content]);
  }

  /** The stop frame makes the open block one more complete block. */
  lemma {:induction false} Closed(before: seq<Frame>, blocks: seq<Block>, last: Block)
    requires var k := |blocks|;
      before == [MessageStart, Ping] + Render(blocks) + ([BlockStart(k, last.kind)] + Deltas(k, last))
    ensures before + [BlockStop(|blocks|)] == [MessageStart, Ping] + Render(blocks + [last])
  {
    hide Deltas;
    assert (blocks + [last])[..|blocks|] == blocks;
  }

  /** A well-bracketed stream is start, ping, complete blocks numbered in order, and the closing frames. */
  lemma BracketedIsBlocks(frames: seq<Frame>) returns (blocks: seq<Block>, delta: Frame)
    requires WellBracketed(frames)
    ensures delta.MessageDelta?
    ensures frames == [MessageStart, Ping] + Render(blocks) + [delta, MessageStop, Done]
  {
    hide Render, Track, Reads;
    var n := |frames|;
    TrackLast(frames);
    TrackLast(frames[..n - 1]);
    assert frames[..n - 1][..n - 2] == frames[..n - 2];
    TrackLast(frames[..n - 2]);
    assert frames[..n - 2][..n - 3] == frames[..n - 3];
    delta := frames[n - 3];
    var last;
    blocks, last := ModeReads(frames[..n - 3]);
    IdleReads(frames[..n - 3], blocks, last);
    assert frames == frames[..n - 3] + [delta, MessageStop, Done];
  }

  lemma IdleReads(frames: seq<Frame>, blocks: seq<Block>, last: Block)
    requires Track(frames).Idle? && Reads(Track(frames), frames, blocks, last)
    ensures frames == [MessageStart, Ping] + Render(blocks)
  {
    hide Track, Render;
  }

  /** The last frame of a closing stream and the mode before it. */
  lemma TrackLast(frames: seq<Frame>)
    requires Track(frames) in {Finished, Ended, Ending}
    ensures frames != []
    ensures var before, f := Track(frames[..|frames| - 1]), frames[|frames| - 1];
      && (Track(frames) == Finished ==> before == Ended && f == Done)
      && (Track(frames) == Ended ==> before == Ending && f == MessageStop)
      && (Track(frames) == Ending ==> before.Idle? && f.MessageDelta?)
  {
  }
}
