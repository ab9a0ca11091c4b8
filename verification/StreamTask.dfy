/** Framers: what one push of raw bytes hands to the stream task, over any incremental parser. */
module Framers {
  import opened Common
  import opened Framing

  /** What one framer push hands to the stream task. */
  datatype PushResult<V, E> = Values(values: seq<V>) | PushError(error: E)

  function Carried<V>(frame: Option<V>): seq<V> {
    match frame case None => [] case Some(v) => [v]
  }

  /** The values of frames that carry one. */
  function Present<V>(frames: seq<Option<V>>): seq<V> {
    if frames == [] then [] else Carried(frames[0]) + Present(frames[1..])
  }

  lemma {:induction false} PresentConcat<V>(fs: seq<Option<V>>, gs: seq<Option<V>>)
    ensures Present(fs + gs) == Present(fs) + Present(gs)
  {
    if fs == [] {
      assert fs + gs == gs;
    } else {
      assert (fs + gs)[1..] == fs[1..] + gs;
      PresentConcat(fs[1..], gs);
      Assoc(Carried(fs[0]), Present(fs[1..]), Present(gs));
    }
  }

  /** The values handed on are those of the frames that carry one, each once and in order. */
  lemma PresentAppends<V(!new)>(frames: seq<Option<V>>, frame: Option<V>)
    ensures Present(frames + [frame]) == match frame case None => Present(frames) case Some(v) => Present(frames) + [v]
  {
    PresentConcat(frames, [frame]);
    assert Present([frame]) == Carried(frame) + [] == Carried(frame);
    assert Present(frames) + [] == Present(frames);
  }

  /** A framer: how raw bytes become buffer elements, the frame parser, and the buffer limit. */
  datatype Framer<!B(!new), !V(!new), !E(!new)> = Framer(
    intake: seq<byte> -> seq<B>,
    parse: seq<B> -> Step<Option<V>, E>,
    fits: seq<B> -> bool,
    overflow: E)

  datatype Pushed<B, V, E> = Pushed(buffer: seq<B>, result: PushResult<V, E>)

  function PushBytes<B(!new), V(!new), E(!new)>(f: Framer<B, V, E>, buffer: seq<B>, bytes: seq<byte>): Pushed<B, V, E>
    requires Bounded(f.parse)
  {
    var input := buffer + f.intake(bytes);
    if !f.fits(input) then Pushed(input, PushError(f.overflow))
    else
      var s := ScanAll(f.parse, input);
      Pushed(input[s.used..],
             match s.status case Waiting => Values(Present(s.frames)) case Failed(e) => PushError(e))
  }

  /** The buffer limit is respected at every push of `chunks`. */
  ghost predicate NeverOverflows<B(!new), V(!new), E(!new)>(f: Framer<B, V, E>, buffer: seq<B>, chunks: seq<seq<byte>>)
    requires Bounded(f.parse)
    decreases |chunks|
  {
    chunks != [] ==>
      && f.fits(buffer + f.intake(chunks[0]))
      && NeverOverflows(f, PushBytes(f, buffer, chunks[0]).buffer, chunks[1..])
  }

  /** Values handed on by successive pushes, up to the first failing push. */
  datatype Delivery<V, E> = Delivery(values: seq<V>, error: Option<E>)

  function Deliver<B(!new), V(!new), E(!new)>(
      f: Framer<B, V, E>, buffer: seq<B>, chunks: seq<seq<byte>>): Delivery<V, E>
    requires Bounded(f.parse)
    decreases |chunks|
  {
    if chunks == [] then Delivery([], None)
    else
      var p := PushBytes(f, buffer, chunks[0]);
      match p.result
      case PushError(e) => Delivery([], Some(e))
      case Values(vs) =>
        var rest := Deliver(f, p.buffer, chunks[1..]);
        Delivery(vs + rest.values, rest.error)
  }

  function Intakes<B(!new), V(!new), E(!new)>(f: Framer<B, V, E>, chunks: seq<seq<byte>>): seq<B> {
    if chunks == [] then [] else f.intake(chunks[0]) + Intakes(f, chunks[1..])
  }

  /** What is delivered is decided by the whole input: all values when every frame reads, and
      otherwise that input's first error after some of the values that precede it. */
  lemma {:induction false} DeliveryIsOfWholeInput<B(!new), V(!new), E(!new)>(
      f: Framer<B, V, E>, buffer: seq<B>, chunks: seq<seq<byte>>)
    requires Incremental(f.parse) && f.parse(buffer).NeedMore?
    requires NeverOverflows(f, buffer, chunks)
    ensures var d, s := Deliver(f, buffer, chunks), ScanAll(f.parse, buffer + Intakes(f, chunks));
            if s.status.Waiting? then d == Delivery(Present(s.frames), None)
            else d.error == Some(s.status.error) && d.values <= Present(s.frames)
    decreases |chunks|
  {
    if chunks == [] {
      assert buffer + [] == buffer;
    } else {
      var input, more := buffer + f.intake(chunks[0]), Intakes(f, chunks[1..]);
      var s := ScanAll(f.parse, input);
      Assoc(buffer, f.intake(chunks[0]), more);
      ScanResumes(f.parse, input, more);
      if s.status.Waiting? {
        UnreadIsIncomplete(f.parse, input);
        DeliveryIsOfWholeInput(f, input[s.used..], chunks[1..]);
        PresentConcat(s.frames, ScanAll(f.parse, input[s.used..] + more).frames);
      }
    }
  }

  /** On an error, what is delivered is exactly what the pushes before the failing one complete: some
      `good` pushes read without error, the next one meets it, and its own values are lost. */
  lemma {:induction false} DeliveryBeforeError<B(!new), V(!new), E(!new)>(
      f: Framer<B, V, E>, buffer: seq<B>, chunks: seq<seq<byte>>) returns (good: nat)
    requires Incremental(f.parse) && f.parse(buffer).NeedMore?
    requires NeverOverflows(f, buffer, chunks) && Deliver(f, buffer, chunks).error.Some?
    ensures good < |chunks|
    ensures ScanAll(f.parse, buffer + Intakes(f, chunks[..good])).status.Waiting?
    ensures ScanAll(f.parse, buffer + Intakes(f, chunks[..good + 1])).status.Failed?
    ensures Deliver(f, buffer, chunks).values == Present(ScanAll(f.parse, buffer + Intakes(f, chunks[..good])).frames)
    decreases |chunks|
  {
    var input := buffer + f.intake(chunks[0]);
    var s := ScanAll(f.parse, input);
    if s.status.Failed? {
      good := 0;
      assert chunks[..0] == [] && buffer + [] == buffer;
      IntakesCons(f, chunks, 1);
      assert f.intake(chunks[0]) + Intakes(f, []) == f.intake(chunks[0]);
    } else {
      UnreadIsIncomplete(f.parse, input);
      var later := DeliveryBeforeError(f, input[s.used..], chunks[1..]);
      good := later + 1;
      GoodPushResumes(f, buffer, chunks, good);
      GoodPushResumes(f, buffer, chunks, good + 1);
      PresentConcat(s.frames, ScanAll(f.parse, input[s.used..] + Intakes(f, chunks[1..][..later])).frames);
    }
  }

  lemma IntakesCons<B(!new), V(!new), E(!new)>(f: Framer<B, V, E>, chunks: seq<seq<byte>>, n: nat)
    requires 0 < n <= |chunks|
    ensures Intakes(f, chunks[..n]) == f.intake(chunks[0]) + Intakes(f, chunks[1..][..n - 1])
  {
    assert chunks[..n][1..] == chunks[1..][..n - 1];
  }

  /** Reading the first `n` chunks is reading the first and resuming with the others. */
  lemma GoodPushResumes<B(!new), V(!new), E(!new)>(f: Framer<B, V, E>, buffer: seq<B>, chunks: seq<seq<byte>>, n: nat)
    requires Incremental(f.parse) && 0 < n <= |chunks|
    requires ScanAll(f.parse, buffer + f.intake(chunks[0])).status.Waiting?
    ensures var input := buffer + f.intake(chunks[0]);
            var s := ScanAll(f.parse, input);
            ScanAll(f.parse, buffer + Intakes(f, chunks[..n]))
            == ScanAll(f.parse, input[s.used..] + Intakes(f, chunks[1..][..n - 1])).After(s.frames, s.used)
  {
    var more := Intakes(f, chunks[1..][..n - 1]);
    IntakesCons(f, chunks, n);
    Assoc(buffer, f.intake(chunks[0]), more);
    ScanResumes(f.parse, buffer + f.intake(chunks[0]), more);
  }
}

/** The spawned task of a streamed response: read chunks, frame, decode, send, and finish if clean. */
module StreamTask {
  import opened Common
  import opened Framing
  import opened Framers

  datatype Arrival = Bytes(bytes: seq<byte>) | ByteError

  datatype Item<Ev, E> = Event(event: Ev) | NetworkError | FramingError(error: E)

  datatype Decoder<!D(!new), !V(!new), !Ev(!new)> = Decoder(
    decode: (D, V) -> (D, seq<Ev>),
    finish: D -> seq<Ev>)

  datatype Decoded<D, Ev> = Decoded(state: D, events: seq<Ev>)

  /** The decoder folded over a list of values. */
  function DecodeAll<D(!new), V(!new), Ev(!new)>(c: Decoder<D, V, Ev>, d: D, values: seq<V>): Decoded<D, Ev>
    decreases |values|
  {
    if values == [] then Decoded(d, [])
    else
      var (next, events) := c.decode(d, values[0]);
      var rest := DecodeAll(c, next, values[1..]);
      Decoded(rest.state, events + rest.events)
  }

  lemma {:induction false} DecodeAllConcat<D(!new), V(!new), Ev(!new)>(
      c: Decoder<D, V, Ev>, d: D, vs: seq<V>, us: seq<V>)
    ensures var first := DecodeAll(c, d, vs);
            var rest := DecodeAll(c, first.state, us);
            DecodeAll(c, d, vs + us) == Decoded(rest.state, first.events + rest.events)
    decreases |vs|
  {
    if vs == [] {
      assert vs + us == us;
      assert [] + DecodeAll(c, d, us).events == DecodeAll(c, d, us).events;
    } else {
      var (next, events) := c.decode(d, vs[0]);
      assert (vs + us)[1..] == vs[1..] + us;
      DecodeAllConcat(c, next, vs[1..], us);
      var first := DecodeAll(c, next, vs[1..]);
      Assoc(events, first.events, DecodeAll(c, first.state, us).events);
    }
  }

  function Sent<Ev, E>(events: seq<Ev>): seq<Item<Ev, E>> {
    seq(|events|, i requires 0 <= i < |events| => Event(events[i]))
  }

  /** Everything the loop sends to a receiver that never hangs up. */
  function Output<B(!new), V(!new), E(!new), D(!new), Ev(!new)>(
      f: Framer<B, V, E>, c: Decoder<D, V, Ev>, buffer: seq<B>, d: D, arrivals: seq<Arrival>): seq<Item<Ev, E>>
    requires Bounded(f.parse)
    decreases |arrivals|
  {
    if arrivals == [] then Sent(c.finish(d))
    else if arrivals[0].ByteError? then [NetworkError]
    else
      var p := PushBytes(f, buffer, arrivals[0].bytes);
      match p.result
      case PushError(e) => [FramingError(e)]
      case Values(vs) =>
        var decoded := DecodeAll(c, d, vs);
        Sent(decoded.events) + Output(f, c, p.buffer, decoded.state, arrivals[1..])
  }

  /** The sending half of the channel; the receiver hangs up after taking `room` items. */
  class Channel<Ev(!new), E(!new)> {
    const room: nat
    var sent: seq<Item<Ev, E>>

    constructor (room: nat)
      ensures this.room == room && sent == []
    {
      this.room := room;
      sent := [];
    }

    ghost predicate Valid()
      reads this
    {
      |sent| <= room
    }

    predicate Closed()
      reads this
    {
      |sent| >= room
    }

    method Send(item: Item<Ev, E>) returns (ok: bool)
      requires Valid()
      modifies this
      ensures Valid()
      ensures ok == (|old(sent)| < room)
      ensures sent == if ok then old(sent) + [item] else old(sent)
    {
      ok := |sent| < room;
      if ok {
        sent := sent + [item];
      }
    }

    /** `full` cut to what the receiver takes. */
    ghost function Taken(full: seq<Item<Ev, E>>): seq<Item<Ev, E>> {
      if |full| <= room then full else full[..room]
    }

    method SendEvents(events: seq<Ev>) returns (ok: bool)
      requires Valid()
      modifies this
      ensures Valid()
      ensures sent == Taken(old(sent) + Sent(events))
      ensures ok ==> sent == old(sent) + Sent(events)
      ensures !ok ==> |sent| == room
    {
      var i := 0;
      while i < |events|
        invariant 0 <= i <= |events| && Valid()
        invariant sent == old(sent) + Sent(events)[..i]
      {
        ok := Send(Event(events[i]));
        if !ok {
          return;
        }
        i := i + 1;
      }
      assert Sent<Ev, E>(events)[..i] == Sent(events);
      ok := true;
    }
  }

  /** The spawned loop. A hang-up is noticed at the top of the loop or by a failing send; either way
      the receiver has a prefix of the full output. */
  method Run<B(!new), V(!new), E(!new), D(!new), Ev(!new)>(
      f: Framer<B, V, E>, c: Decoder<D, V, Ev>, d0: D, arrivals: seq<Arrival>, tx: Channel<Ev, E>)
    requires Bounded(f.parse)
    requires tx.Valid() && tx.sent == []
    modifies tx
    ensures tx.sent == tx.Taken(Output(f, c, [], d0, arrivals))
  {
    ghost var full := Output(f, c, [], d0, arrivals);
    var buffer: seq<B> := [];
    var d := d0;
    var hadStreamError := false;
    var i := 0;
    assert arrivals[0..] == arrivals;
    while i < |arrivals| && !hadStreamError
      invariant 0 <= i <= |arrivals| && tx.Valid()
      invariant if hadStreamError then tx.sent == tx.Taken(full)
                else full == tx.sent + Output(f, c, buffer, d, arrivals[i..])
    {
      if tx.Closed() {
        var noticed: bool := *;
        if noticed {
          return;
        }
      }
      assert arrivals[i..][1..] == arrivals[i + 1..];
      match arrivals[i] {
        case ByteError =>
          hadStreamError := true;
          var _ := tx.Send(NetworkError);
        case Bytes(bytes) =>
          var pushed := PushBytes(f, buffer, bytes);
          match pushed.result {
            case PushError(e) =>
              hadStreamError := true;
              var _ := tx.Send(FramingError(e));
            case Values(values) =>
              ghost var decoded := DecodeAll(c, d, values);
              ghost var rest := Output(f, c, pushed.buffer, decoded.state, arrivals[i + 1..]);
              Assoc(tx.sent, Sent(decoded.events), rest);
              var ok: bool;
              d, ok := SendDecoded(c, d, values, tx);
              if !ok {
                return;
              }
              buffer := pushed.buffer;
          }
      }
      i := i + 1;
    }
    if !hadStreamError {
      assert arrivals[i..] == [];
      var _ := tx.SendEvents(c.finish(d));
    }
  }

  method SendDecoded<D(!new), V(!new), E(!new), Ev(!new)>(
      c: Decoder<D, V, Ev>, d0: D, values: seq<V>, tx: Channel<Ev, E>) returns (d: D, ok: bool)
    requires tx.Valid()
    modifies tx
    ensures tx.Valid()
    ensures tx.sent == tx.Taken(old(tx.sent) + Sent(DecodeAll(c, d0, values).events))
    ensures ok ==>
              && d == DecodeAll(c, d0, values).state
              && tx.sent == old(tx.sent) + Sent(DecodeAll(c, d0, values).events)
    ensures !ok ==> |tx.sent| == tx.room
  {
    d := d0;
    ok := true;
    var i := 0;
    ghost var all := tx.sent + Sent(DecodeAll(c, d0, values).events);
    assert values[0..] == values;
    while i < |values|
      invariant 0 <= i <= |values| && tx.Valid() && ok
      invariant DecodeAll(c, d0, values).state == DecodeAll(c, d, values[i..]).state
      invariant all == tx.sent + Sent(DecodeAll(c, d, values[i..]).events)
    {
      var (next, events) := c.decode(d, values[i]);
      assert values[i..][1..] == values[i + 1..];
      ghost var later := DecodeAll(c, next, values[i + 1..]).events;
      SentConcat<Ev, E>(events, later);
      Assoc<Item<Ev, E>>(tx.sent, Sent(events), Sent(later));
      ok := tx.SendEvents(events);
      if !ok {
        return;
      }
      d := next;
      i := i + 1;
    }
    assert values[i..] == [];
  }

  lemma SentConcat<Ev, E>(es: seq<Ev>, fs: seq<Ev>)
    ensures Sent<Ev, E>(es + fs) == Sent(es) + Sent(fs)
  {
  }

  // ---------------------------------------------------------------- what is sent

  /** The chunks that arrive before the connection breaks, if it does. */
  function Leading(arrivals: seq<Arrival>): seq<seq<byte>> {
    if arrivals == [] || arrivals[0].ByteError? then [] else [arrivals[0].bytes] + Leading(arrivals[1..])
  }

  predicate Broken(arrivals: seq<Arrival>) {
    ByteError in arrivals
  }

  /** How the output ends: with one error, or with the decoder's closing events. */
  function Ending<D(!new), V(!new), E(!new), Ev(!new)>(c: Decoder<D, V, Ev>, d: D, error: Option<E>, broken: bool)
      : seq<Item<Ev, E>>
  {
    if error.Some? then [FramingError(error.value)] else if broken then [NetworkError] else Sent(c.finish(d))
  }

  /** For all arrivals: the events of the delivered values, then one ending. So an error is sent at
      most once, it is the last item, and closing events appear only when there was none. */
  lemma {:induction false} OutputShape<B(!new), V(!new), E(!new), D(!new), Ev(!new)>(
      f: Framer<B, V, E>, c: Decoder<D, V, Ev>, buffer: seq<B>, d: D, arrivals: seq<Arrival>)
    requires Bounded(f.parse)
    ensures var delivery := Deliver(f, buffer, Leading(arrivals));
            var decoded := DecodeAll(c, d, delivery.values);
            Output(f, c, buffer, d, arrivals)
            == Sent(decoded.events) + Ending(c, decoded.state, delivery.error, Broken(arrivals))
    decreases |arrivals|
  {
    if arrivals == [] || arrivals[0].ByteError? {
      assert Sent<Ev, E>([]) == [];
    } else {
      var p := PushBytes(f, buffer, arrivals[0].bytes);
      var chunks := Leading(arrivals[1..]);
      assert Leading(arrivals)[1..] == chunks;
      assert arrivals == [arrivals[0]] + arrivals[1..];
      match p.result {
        case PushError(e) =>
          assert Sent<Ev, E>([]) == [];
        case Values(vs) =>
          var decoded := DecodeAll(c, d, vs);
          OutputShape(f, c, p.buffer, decoded.state, arrivals[1..]);
          var rest := Deliver(f, p.buffer, chunks);
          DecodeAllConcat(c, d, vs, rest.values);
          var later := DecodeAll(c, decoded.state, rest.values);
          SentConcat<Ev, E>(decoded.events, later.events);
          Assoc<Item<Ev, E>>(Sent(decoded.events), Sent(later.events),
              Ending(c, later.state, rest.error, Broken(arrivals)));
      }
    }
  }

  lemma ErrorIsSingleAndLast<B(!new), V(!new), E(!new), D(!new), Ev(!new)>(
      f: Framer<B, V, E>, c: Decoder<D, V, Ev>, d: D, arrivals: seq<Arrival>, i: nat)
    requires Bounded(f.parse)
    requires i < |Output(f, c, [], d, arrivals)|
    requires !Output(f, c, [], d, arrivals)[i].Event?
    ensures i == |Output(f, c, [], d, arrivals)| - 1
    ensures Broken(arrivals) || Deliver(f, [], Leading(arrivals)).error.Some?
  {
    OutputShape(f, c, [], d, arrivals);
  }

  /** A connection that ends normally, over any incremental framer whose limit is never met: the
      output is the decoder folded over the frames of the whole input and its closing events,
      whatever the chunks were. */
  lemma CleanOutput<B(!new), V(!new), E(!new), D(!new), Ev(!new)>(
      f: Framer<B, V, E>, c: Decoder<D, V, Ev>, d: D, arrivals: seq<Arrival>)
    requires Incremental(f.parse) && f.parse([]).NeedMore?
    requires !Broken(arrivals) && NeverOverflows(f, [], Leading(arrivals))
    requires ScanAll(f.parse, Intakes(f, Leading(arrivals))).status.Waiting?
    ensures var decoded := DecodeAll(c, d, Present(ScanAll(f.parse, Intakes(f, Leading(arrivals))).frames));
            Output(f, c, [], d, arrivals) == Sent(decoded.events + c.finish(decoded.state))
  {
    var input := Intakes(f, Leading(arrivals));
    assert [] + input == input;
    DeliveryIsOfWholeInput(f, [], Leading(arrivals));
    OutputShape(f, c, [], d, arrivals);
    var decoded := DecodeAll(c, d, Present(ScanAll(f.parse, input).frames));
    SentConcat<Ev, E>(decoded.events, c.finish(decoded.state));
  }
}
