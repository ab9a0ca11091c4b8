/**
 Tool calls in the OpenAI Responses stream: which frames open, feed and close a call, and what the
 canonical event stream then says about its arguments.
 */
module Responses {
  import opened Common
  import opened Json

  type Index = u32

  datatype AiEvent =
    | ToolCallStart(index: Index, id: string, name: string)
    | ToolCallArgsDelta(index: Index, json: string)
    | ToolCallEnd(index: Index)
    | Plain(note: string)

  /** A frame as far as tool calls are concerned. */
  datatype Frame =
    | Added(index: Index, id: string, name: string, inlined: Option<string>)
    | Delta(index: Index, fragment: Option<string>)
    | Done(index: Index, arguments: Option<string>)
    | Unrelated(labels: seq<string>)

  function Nested(v: Value, outer: string, inner: string): Option<Value> {
    match Get(v, outer) case None => None case Some(o) => Get(o, inner)
  }

  function OrEmpty(s: Option<string>): string {
    match s case None => "" case Some(text) => text
  }

  /** A missing, negative, fractional or too large `output_index` counts as 0. */
  function OutputIndex(v: Value): Index {
    match Get(v, "output_index")
    case Some(Num(Integer(n))) => if 0 <= n < 0x1_0000_0000 then n else 0
    case _ => 0
  }

  /** The branch of the decoder a frame takes; `labels` stands for the events of all other branches. */
  function Classify(v: Value, labels: Value -> seq<string>): Frame {
    match AsStr(Get(v, "type"))
    case None => Unrelated([])
    case Some(kind) =>
      if kind == "response.output_item.added" then
        if AsStr(Nested(v, "item", "type")) != Some("function_call") then Unrelated([])
        else
          var callId := Nested(v, "item", "call_id");
          Added(OutputIndex(v),
                OrEmpty(AsStr(if callId.Some? then callId else Nested(v, "item", "id"))),
                OrEmpty(AsStr(Nested(v, "item", "name"))),
                AsStr(Nested(v, "item", "arguments")))
      else if kind == "response.function_call_arguments.delta" then Delta(OutputIndex(v), AsStr(Get(v, "delta")))
      else if kind == "response.function_call_arguments.done" then Done(OutputIndex(v), AsStr(Get(v, "arguments")))
      else Unrelated(labels(v))
  }

  datatype State = State(toolIndices: set<Index>, toolArgsStreamed: set<Index>)

  const FRESH := State({}, {})

  datatype Outcome = Outcome(state: State, events: seq<AiEvent>)

  function Plains(labels: seq<string>): seq<AiEvent> {
    seq(|labels|, i requires 0 <= i < |labels| => Plain(labels[i]))
  }

  function NonEmptyDelta(index: Index, text: Option<string>): seq<AiEvent> {
    if OrEmpty(text) == "" then [] else [ToolCallArgsDelta(index, OrEmpty(text))]
  }

  function Decode(s: State, f: Frame): Outcome {
    match f
    case Added(i, id, name, inlined) =>
      if i in s.toolIndices then Outcome(s, [])
      else Outcome(State(s.toolIndices + {i},
                         if OrEmpty(inlined) == "" then s.toolArgsStreamed else s.toolArgsStreamed + {i}),
                   [ToolCallStart(i, id, name)] + NonEmptyDelta(i, inlined))
    case Delta(i, fragment) =>
      if fragment.None? then Outcome(s, [])
      else Outcome(s.(toolArgsStreamed := s.toolArgsStreamed + {i}), [ToolCallArgsDelta(i, fragment.value)])
    case Done(i, arguments) =>
      if i !in s.toolIndices then Outcome(s, [])
      else Outcome(s, (if i in s.toolArgsStreamed then [] else NonEmptyDelta(i, arguments)) + [ToolCallEnd(i)])
    case Unrelated(labels) => Outcome(s, Plains(labels))
  }

  class ResponsesDecoder {
    var toolIndices: set<Index>
    var toolArgsStreamed: set<Index>

    constructor ()
      ensures Value() == FRESH
    {
      toolIndices, toolArgsStreamed := {}, {};
    }

    ghost function Value(): State
      reads this
    {
      State(toolIndices, toolArgsStreamed)
    }

    method DecodeFrame(v: Json.Value, labels: Json.Value -> seq<string>) returns (out: seq<AiEvent>)
      modifies this
      ensures Outcome(Value(), out) == Decode(old(Value()), Classify(v, labels))
    {
      out := [];
      match Classify(v, labels) {
        case Added(index, id, name, inlined) =>
          if index !in toolIndices {
            toolIndices := toolIndices + {index};
            out := out + [ToolCallStart(index, id, name)];
            if inlined.Some? && inlined.value != "" {
              toolArgsStreamed := toolArgsStreamed + {index};
              out := out + [ToolCallArgsDelta(index, inlined.value)];
            }
          }
        case Delta(index, fragment) =>
          if fragment.Some? {
            toolArgsStreamed := toolArgsStreamed + {index};
            out := [ToolCallArgsDelta(index, fragment.value)];
          }
        case Done(index, arguments) =>
          if index in toolIndices {
            if index !in toolArgsStreamed && arguments.Some? && arguments.value != "" {
              out := [ToolCallArgsDelta(index, arguments.value)];
            }
            out := out + [ToolCallEnd(index)];
          }
        case Unrelated(names) =>
          out := Plains(names);
      }
    }
  }

  function Run(s: State, fs: seq<Frame>): Outcome
    decreases |fs|
  {
    if fs == [] then Outcome(s, [])
    else
      var first := Decode(s, fs[0]);
      var rest := Run(first.state, fs[1..]);
      Outcome(rest.state, first.events + rest.events)
  }

  // ---------------------------------------------------------------- bracketing

  /** Events about call `i`, given whether it is already open: it opens at most once, and it is open
      whenever it ends. */
  ghost predicate Bracketed(open: bool, events: seq<AiEvent>, i: Index)
    decreases |events|
  {
    events != [] ==>
      match events[0]
      case ToolCallStart(j, _, _) =>
        if j == i then !open && Bracketed(true, events[1..], i) else Bracketed(open, events[1..], i)
      case ToolCallEnd(j) => (j == i ==> open) && Bracketed(open, events[1..], i)
      case _ => Bracketed(open, events[1..], i)
  }

  predicate Opens(events: seq<AiEvent>, i: Index) {
    exists k | 0 <= k < |events| :: events[k].ToolCallStart? && events[k].index == i
  }

  lemma {:induction false} BracketedConcat(open: bool, es: seq<AiEvent>, fs: seq<AiEvent>, i: Index)
    requires Bracketed(open, es, i) && Bracketed(open || Opens(es, i), fs, i)
    ensures Bracketed(open, es + fs, i)
    decreases |es|
  {
    if es == [] {
      assert es + fs == fs;
    } else {
      assert (es + fs)[1..] == es[1..] + fs && (es + fs)[0] == es[0];
      var now := open || (es[0].ToolCallStart? && es[0].index == i);
      assert es == [es[0]] + es[1..];
      assert open || Opens(es, i) <==> now || Opens(es[1..], i);
      BracketedConcat(now, es[1..], fs, i);
    }
  }

  lemma DecodeBracketed(s: State, f: Frame, i: Index)
    ensures Bracketed(i in s.toolIndices, Decode(s, f).events, i)
    ensures i in Decode(s, f).state.toolIndices <==> i in s.toolIndices || Opens(Decode(s, f).events, i)
  {
    var events := Decode(s, f).events;
    if f.Unrelated? {
      PlainsBracketed(i in s.toolIndices, f.labels, i);
    } else if |events| > 0 {
      var tail := events[1..];
      assert |tail| > 0 ==> tail[1..] == [];
    }
  }

  lemma {:induction false} PlainsBracketed(open: bool, labels: seq<string>, i: Index)
    ensures Bracketed(open, Plains(labels), i)
    decreases |labels|
  {
    if labels != [] {
      assert Plains(labels)[1..] == Plains(labels[1..]);
      PlainsBracketed(open, labels[1..], i);
    }
  }

  /** Over every frame sequence, every call opens at most once and ends only after it opened. */
  lemma {:induction false} RunBracketed(s: State, fs: seq<Frame>, i: Index)
    ensures Bracketed(i in s.toolIndices, Run(s, fs).events, i)
    decreases |fs|
  {
    if fs != [] {
      var first := Decode(s, fs[0]);
      DecodeBracketed(s, fs[0], i);
      RunBracketed(first.state, fs[1..], i);
      BracketedConcat(i in s.toolIndices, first.events, Run(first.state, fs[1..]).events, i);
    }
  }

  /** The same, by position in the output of a fresh decoder. */
  lemma StartsAndEnds(fs: seq<Frame>, i: Index, k: nat)
    requires k < |Run(FRESH, fs).events|
    ensures var events := Run(FRESH, fs).events;
            && (events[k].ToolCallStart? && events[k].index == i ==> !Opens(events[..k], i))
            && (events[k] == ToolCallEnd(i) ==> Opens(events[..k], i))
  {
    RunBracketed(FRESH, fs, i);
    BracketedAt(false, Run(FRESH, fs).events, i, k);
  }

  lemma {:induction false} BracketedAt(open: bool, events: seq<AiEvent>, i: Index, k: nat)
    requires Bracketed(open, events, i) && k < |events|
    ensures events[k].ToolCallStart? && events[k].index == i ==> !open && !Opens(events[..k], i)
    ensures events[k] == ToolCallEnd(i) ==> open || Opens(events[..k], i)
    decreases |events|
  {
    if k > 0 {
      var now := open || (events[0].ToolCallStart? && events[0].index == i);
      BracketedAt(now, events[1..], i, k - 1);
      assert events[..k] == [events[0]] + events[1..][..k - 1];
    }
  }

  // ---------------------------------------------------------------- interleaving

  predicate EventAbout(e: AiEvent, i: Index) { !e.Plain? && e.index == i }

  predicate FrameAbout(f: Frame, i: Index) { !f.Unrelated? && f.index == i }

  function EventsOf(events: seq<AiEvent>, i: Index): seq<AiEvent> {
    if events == [] then [] else (if EventAbout(events[0], i) then [events[0]] else []) + EventsOf(events[1..], i)
  }

  function FramesOf(fs: seq<Frame>, i: Index): seq<Frame> {
    if fs == [] then [] else (if FrameAbout(fs[0], i) then [fs[0]] else []) + FramesOf(fs[1..], i)
  }

  lemma {:induction false} EventsOfConcat(es: seq<AiEvent>, fs: seq<AiEvent>, i: Index)
    ensures EventsOf(es + fs, i) == EventsOf(es, i) + EventsOf(fs, i)
    decreases |es|
  {
    if es == [] {
      assert es + fs == fs;
    } else {
      assert (es + fs)[1..] == es[1..] + fs && (es + fs)[0] == es[0];
      EventsOfConcat(es[1..], fs, i);
      Assoc(if EventAbout(es[0], i) then [es[0]] else [], EventsOf(es[1..], i), EventsOf(fs, i));
    }
  }

  lemma {:induction false} EventsOfAll(es: seq<AiEvent>, i: Index)
    ensures (forall e | e in es :: EventAbout(e, i)) ==> EventsOf(es, i) == es
    ensures (forall e | e in es :: !EventAbout(e, i)) ==> EventsOf(es, i) == []
    decreases |es|
  {
    if es != [] {
      EventsOfAll(es[1..], i);
      assert es == [es[0]] + es[1..];
    }
  }

  /** Two decoder states agree on call `i`. */
  ghost predicate SameAt(s: State, q: State, i: Index) {
    (i in s.toolIndices <==> i in q.toolIndices) && (i in s.toolArgsStreamed <==> i in q.toolArgsStreamed)
  }

  lemma DecodeAt(s: State, q: State, f: Frame, i: Index)
    requires SameAt(s, q, i)
    ensures SameAt(Decode(s, f).state, if FrameAbout(f, i) then Decode(q, f).state else q, i)
    ensures EventsOf(Decode(s, f).events, i) == if FrameAbout(f, i) then Decode(q, f).events else []
  {
    DecodeStaysOnIndex(s, f, i);
    EventsOfAll(Decode(s, f).events, i);
  }

  lemma DecodeStaysOnIndex(s: State, f: Frame, i: Index)
    ensures forall e | e in Decode(s, f).events :: EventAbout(e, i) <==> FrameAbout(f, i)
  {
  }

  /** Calls do not disturb each other: however frames interleave, the events about one call are those
      of a decoder that saw only that call's frames. */
  lemma {:induction false} CallsAreIndependent(s: State, q: State, fs: seq<Frame>, i: Index)
    requires SameAt(s, q, i)
    ensures EventsOf(Run(s, fs).events, i) == Run(q, FramesOf(fs, i)).events
    decreases |fs|
  {
    if fs != [] {
      var first := Decode(s, fs[0]);
      var q' := if FrameAbout(fs[0], i) then Decode(q, fs[0]).state else q;
      DecodeAt(s, q, fs[0], i);
      CallsAreIndependent(first.state, q', fs[1..], i);
      EventsOfConcat(first.events, Run(first.state, fs[1..]).events, i);
      if FrameAbout(fs[0], i) {
        assert FramesOf(fs, i)[1..] == FramesOf(fs[1..], i);
      } else {
        assert FramesOf(fs, i) == FramesOf(fs[1..], i);
      }
    }
  }

  // ---------------------------------------------------------------- arguments

  /** The argument text a consumer assembles for one call's events. */
  function Arguments(events: seq<AiEvent>): string {
    if events == [] then ""
    else (if events[0].ToolCallArgsDelta? then events[0].json else "") + Arguments(events[1..])
  }

  function Deltas(i: Index, fragments: seq<Option<string>>): seq<Frame> {
    seq(|fragments|, k requires 0 <= k < |fragments| => Delta(i, fragments[k]))
  }

  function Text(fragments: seq<Option<string>>): string {
    if fragments == [] then "" else OrEmpty(fragments[0]) + Text(fragments[1..])
  }

  /** One complete call: opened, fed, and closed once with its final arguments. */
  function CallFrames(i: Index, id: string, name: string, inlined: Option<string>, fragments: seq<Option<string>>,
                      final: Option<string>): seq<Frame>
  {
    [Added(i, id, name, inlined)] + (Deltas(i, fragments) + [Done(i, final)])
  }

  /** Anything counts as streamed: a non-empty inlined opening, or any fragment, even an empty one. */
  predicate Streamed(inlined: Option<string>, fragments: seq<Option<string>>) {
    OrEmpty(inlined) != "" || exists k | 0 <= k < |fragments| :: fragments[k].Some?
  }

  lemma {:induction false} ArgumentsConcat(es: seq<AiEvent>, fs: seq<AiEvent>)
    ensures Arguments(es + fs) == Arguments(es) + Arguments(fs)
    decreases |es|
  {
    if es == [] {
      assert es + fs == fs;
    } else {
      assert (es + fs)[1..] == es[1..] + fs && (es + fs)[0] == es[0];
      ArgumentsConcat(es[1..], fs);
      Assoc(if es[0].ToolCallArgsDelta? then es[0].json else "", Arguments(es[1..]), Arguments(fs));
    }
  }

  lemma RunArguments(s: State, f: Frame, fs: seq<Frame>)
    ensures Arguments(Run(s, [f] + fs).events)
         == Arguments(Decode(s, f).events) + Arguments(Run(Decode(s, f).state, fs).events)
  {
    assert ([f] + fs)[1..] == fs;
    ArgumentsConcat(Decode(s, f).events, Run(Decode(s, f).state, fs).events);
  }

  /** The argument text one frame contributes. */
  lemma DecodeArguments(s: State, f: Frame)
    requires !f.Unrelated?
    ensures Arguments(Decode(s, f).events)
         == match f
            case Added(i, _, _, inlined) => if i in s.toolIndices then "" else OrEmpty(inlined)
            case Delta(i, fragment) => OrEmpty(fragment)
            case Done(i, arguments) => if i !in s.toolIndices || i in s.toolArgsStreamed then "" else OrEmpty(arguments)
  {
    match f {
      case Added(i, id, name, inlined) =>
        ArgumentsOfOne(ToolCallStart(i, id, name));
        ArgumentsOfDelta(i, inlined);
        ArgumentsConcat([ToolCallStart(i, id, name)], NonEmptyDelta(i, inlined));
        assert "" + OrEmpty(inlined) == OrEmpty(inlined);
      case Delta(i, fragment) =>
        ArgumentsOfOne(ToolCallArgsDelta(i, OrEmpty(fragment)));
      case Done(i, arguments) =>
        ArgumentsOfOne(ToolCallEnd(i));
        ArgumentsOfDelta(i, arguments);
        ArgumentsConcat(NonEmptyDelta(i, arguments), [ToolCallEnd(i)]);
        assert OrEmpty(arguments) + "" == OrEmpty(arguments);
        assert [] + [ToolCallEnd(i)] == [ToolCallEnd(i)];
    }
  }

  lemma ArgumentsOfOne(e: AiEvent)
    ensures Arguments([e]) == if e.ToolCallArgsDelta? then e.json else ""
  {
  }

  lemma ArgumentsOfDelta(i: Index, text: Option<string>)
    ensures Arguments(NonEmptyDelta(i, text)) == OrEmpty(text)
  {
  }

  /** What the closing frame adds: its arguments, unless something was streamed before. */
  function Fallback(s: State, i: Index, fragments: seq<Option<string>>, final: Option<string>): string {
    if i in s.toolArgsStreamed || Streamed(None, fragments) then "" else OrEmpty(final)
  }

  lemma {:induction false} FedCall(s: State, i: Index, fragments: seq<Option<string>>, final: Option<string>)
    requires i in s.toolIndices
    ensures Arguments(Run(s, Deltas(i, fragments) + [Done(i, final)]).events)
         == Text(fragments) + Fallback(s, i, fragments, final)
    decreases |fragments|
  {
    if fragments == [] {
      assert Deltas(i, fragments) + [Done(i, final)] == [Done(i, final)] + [];
      RunArguments(s, Done(i, final), []);
      DecodeArguments(s, Done(i, final));
      var suffix := Fallback(s, i, fragments, final);
      assert Arguments(Run(s, [Done(i, final)] + []).events) == suffix + [] == suffix;
      assert Text(fragments) + suffix == suffix;
    } else {
      var f, rest := Delta(i, fragments[0]), fragments[1..];
      assert Deltas(i, fragments) + [Done(i, final)] == [f] + (Deltas(i, rest) + [Done(i, final)]);
      RunArguments(s, f, Deltas(i, rest) + [Done(i, final)]);
      DecodeArguments(s, f);
      FedCall(Decode(s, f).state, i, rest, final);
      StreamedCons(fragments);
      Assoc(OrEmpty(fragments[0]), Text(rest), Fallback(s, i, fragments, final));
    }
  }

  lemma StreamedCons(fragments: seq<Option<string>>)
    requires fragments != []
    ensures Streamed(None, fragments) <==> fragments[0].Some? || Streamed(None, fragments[1..])
  {
  }

  lemma WholeCall(i: Index, id: string, name: string, inlined: Option<string>, fragments: seq<Option<string>>,
                  final: Option<string>)
    ensures Arguments(Run(FRESH, CallFrames(i, id, name, inlined, fragments, final)).events)
         == if Streamed(inlined, fragments) then OrEmpty(inlined) + Text(fragments) else OrEmpty(final)
  {
    var opening := Added(i, id, name, inlined);
    RunArguments(FRESH, opening, Deltas(i, fragments) + [Done(i, final)]);
    DecodeArguments(FRESH, opening);
    FedCall(Decode(FRESH, opening).state, i, fragments, final);
    var fallback := Fallback(Decode(FRESH, opening).state, i, fragments, final);
    if Streamed(inlined, fragments) {
      assert fallback == "" && Text(fragments) + "" == Text(fragments);
    } else {
      TextOfAbsent(fragments);
      assert fallback == OrEmpty(final) && "" + ("" + fallback) == fallback;
    }
  }

  lemma {:induction false} TextOfAbsent(fragments: seq<Option<string>>)
    ensures !Streamed(None, fragments) ==> Text(fragments) == ""
    decreases |fragments|
  {
    if fragments != [] {
      TextOfAbsent(fragments[1..]);
      StreamedCons(fragments);
    }
  }

  /** For any interleaving with other frames, a complete call's assembled arguments are its final
      arguments if and only if nothing was streamed or what was streamed adds up to them. */
  lemma ArgumentsReachFinal(fs: seq<Frame>, i: Index, id: string, name: string, inlined: Option<string>,
                            fragments: seq<Option<string>>, final: Option<string>)
    requires FramesOf(fs, i) == CallFrames(i, id, name, inlined, fragments, final)
    ensures Arguments(EventsOf(Run(FRESH, fs).events, i)) == OrEmpty(final)
       <==> !Streamed(inlined, fragments) || OrEmpty(inlined) + Text(fragments) == OrEmpty(final)
  {
    CallsAreIndependent(FRESH, FRESH, fs, i);
    WholeCall(i, id, name, inlined, fragments, final);
  }

  /** The condition can fail: one empty fragment marks the call as streamed and its arguments are lost. */
  lemma EmptyFragmentLosesArguments(i: Index)
    ensures Arguments(Run(FRESH, CallFrames(i, "", "f", None, [Some("")], Some("{}"))).events) == ""
  {
    WholeCall(i, "", "f", None, [Some("")], Some("{}"));
    assert [Some("")][0].Some?;
    assert [Some("")][1..] == [];
  }

  // ---------------------------------------------------------------- one call's events, and its frames

  /** The events of a complete call: one start with the frame's id and name, argument deltas, one end. */
  ghost predicate CallShape(events: seq<AiEvent>, i: Index, id: string, name: string) {
    && |events| >= 2
    && events[0] == ToolCallStart(i, id, name)
    && events[|events| - 1] == ToolCallEnd(i)
    && forall k | 0 < k < |events| - 1 :: events[k].ToolCallArgsDelta? && events[k].index == i
  }

  ghost predicate AllDeltas(events: seq<AiEvent>, i: Index) {
    forall e | e in events :: e.ToolCallArgsDelta? && e.index == i
  }

  lemma {:induction false} FedCallShape(s: State, i: Index, fragments: seq<Option<string>>, final: Option<string>)
      returns (deltas: seq<AiEvent>)
    requires i in s.toolIndices
    ensures Run(s, Deltas(i, fragments) + [Done(i, final)]).events == deltas + [ToolCallEnd(i)] && AllDeltas(deltas, i)
    decreases |fragments|
  {
    if fragments == [] {
      var done := Done(i, final);
      assert Deltas(i, fragments) + [done] == [done] && [done][1..] == [];
      deltas := if i in s.toolArgsStreamed then [] else NonEmptyDelta(i, final);
      assert Decode(s, done).events + [] == Decode(s, done).events;
    } else {
      var f, rest := Delta(i, fragments[0]), fragments[1..];
      var frames := Deltas(i, fragments) + [Done(i, final)];
      assert frames[0] == f && frames[1..] == Deltas(i, rest) + [Done(i, final)];
      var later := FedCallShape(Decode(s, f).state, i, rest, final);
      deltas := Decode(s, f).events + later;
      Assoc(Decode(s, f).events, later, [ToolCallEnd(i)]);
    }
  }

  lemma BracketedShape(inner: seq<AiEvent>, i: Index, id: string, name: string)
    requires AllDeltas(inner, i)
    ensures CallShape([ToolCallStart(i, id, name)] + (inner + [ToolCallEnd(i)]), i, id, name)
  {
    var events := [ToolCallStart(i, id, name)] + (inner + [ToolCallEnd(i)]);
    assert forall k | 0 < k < |events| - 1 :: events[k] == inner[k - 1] && inner[k - 1] in inner;
  }

  lemma OpenedShape(i: Index, id: string, name: string, inlined: Option<string>, rest: seq<Frame>,
                    deltas: seq<AiEvent>)
    requires AllDeltas(deltas, i)
    requires Run(Decode(FRESH, Added(i, id, name, inlined)).state, rest).events == deltas + [ToolCallEnd(i)]
    ensures CallShape(Run(FRESH, [Added(i, id, name, inlined)] + rest).events, i, id, name)
  {
    var added, inner := Added(i, id, name, inlined), NonEmptyDelta(i, inlined);
    assert ([added] + rest)[1..] == rest;
    assert ([ToolCallStart(i, id, name)] + inner) + (deltas + [ToolCallEnd(i)])
        == [ToolCallStart(i, id, name)] + ((inner + deltas) + [ToolCallEnd(i)]);
    BracketedShape(inner + deltas, i, id, name);
  }

  /** However other frames interleave, a complete call emits exactly one start, with its own id and name, then
      its deltas, then exactly one end. */
  lemma CompleteCallShape(fs: seq<Frame>, i: Index, id: string, name: string, inlined: Option<string>,
                          fragments: seq<Option<string>>, final: Option<string>)
    requires FramesOf(fs, i) == CallFrames(i, id, name, inlined, fragments, final)
    ensures CallShape(EventsOf(Run(FRESH, fs).events, i), i, id, name)
  {
    CallsAreIndependent(FRESH, FRESH, fs, i);
    var start := Decode(FRESH, Added(i, id, name, inlined)).state;
    var deltas := FedCallShape(start, i, fragments, final);
    OpenedShape(i, id, name, inlined, Deltas(i, fragments) + [Done(i, final)], deltas);
  }

  /** The index of a frame: the number it carries if that fits, and 0 otherwise. */
  lemma OutputIndexIs(fields: map<string, Value>, n: JsonInt)
    ensures OutputIndex(Obj(fields["output_index" := Num(Integer(n))])) == if 0 <= n < 0x1_0000_0000 then n else 0
    ensures "output_index" !in fields ==> OutputIndex(Obj(fields)) == 0
  {
  }

  /** A frame that opens a call: its id is `call_id`, or `id` where there is none. */
  lemma OpeningFrame(v: Value, item: Value, labels: Value -> seq<string>)
    requires Get(v, "type") == Some(Str("response.output_item.added")) && Get(v, "item") == Some(item)
    ensures Get(item, "type") != Some(Str("function_call")) ==> Classify(v, labels) == Unrelated([])
    ensures Get(item, "type") == Some(Str("function_call")) ==>
              var f := Classify(v, labels);
              && f.Added? && f.index == OutputIndex(v)
              && (forall id | Get(item, "call_id") == Some(Str(id)) :: f.id == id)
              && (forall id | Get(item, "call_id") == None && Get(item, "id") == Some(Str(id)) :: f.id == id)
              && (forall name | Get(item, "name") == Some(Str(name)) :: f.name == name)
              && (forall text | Get(item, "arguments") == Some(Str(text)) :: f.inlined == Some(text))
  {
  }

  lemma FeedingFrame(v: Value, text: string, labels: Value -> seq<string>)
    requires Get(v, "type") == Some(Str("response.function_call_arguments.delta"))
    ensures Get(v, "delta") == Some(Str(text)) ==> Classify(v, labels) == Delta(OutputIndex(v), Some(text))
  {
    assert "response.function_call_arguments.delta"[9] != "response.output_item.added"[9];
  }

  lemma ClosingFrame(v: Value, text: string, labels: Value -> seq<string>)
    requires Get(v, "type") == Some(Str("response.function_call_arguments.done"))
    ensures Get(v, "arguments") == Some(Str(text)) ==> Classify(v, labels) == Done(OutputIndex(v), Some(text))
  {
    assert "response.function_call_arguments.done"[9] != "response.output_item.added"[9];
    assert |"response.function_call_arguments.delta"| != |"response.function_call_arguments.done"|;
  }
}
