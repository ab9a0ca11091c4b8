/**
 Incremental framing, independent of any one format. A parser looks at the front of a buffer and
 answers "need more", "malformed" or "a frame of this size". The laws below hold for every parser
 that never takes an answer back when more input arrives; the segment scanner, the AWS event-stream
 decoder and the SSE framer are three such parsers.
 */
module Framing {
  import opened Common

  datatype Step<+F, +E> = NeedMore | Bad(error: E) | Good(frame: F, size: nat)

  ghost predicate Bounded<B(!new), F(!new), E(!new)>(parse: seq<B> -> Step<F, E>) {
    forall t: seq<B> {:trigger parse(t)} :: parse(t).Good? ==> 0 < parse(t).size <= |t|
  }

  /** An answer other than "need more" survives any continuation of the input. */
  ghost predicate StableAt<B, F, E>(parse: seq<B> -> Step<F, E>, t: seq<B>, more: seq<B>) {
    !parse(t).NeedMore? ==> parse(t + more) == parse(t)
  }

  ghost predicate Stable<B(!new), F(!new), E(!new)>(parse: seq<B> -> Step<F, E>) {
    forall t: seq<B>, more: seq<B> :: StableAt(parse, t, more)
  }

  /** A frame is recognised as soon as its last element has arrived. */
  ghost predicate PromptAt<B(!new), F(!new), E(!new)>(parse: seq<B> -> Step<F, E>, t: seq<B>)
    requires Bounded(parse)
  {
    parse(t).Good? ==> parse(t[..parse(t).size]) == parse(t)
  }

  ghost predicate Prompt<B(!new), F(!new), E(!new)>(parse: seq<B> -> Step<F, E>)
    requires Bounded(parse)
  {
    forall t: seq<B> :: PromptAt(parse, t)
  }

  ghost predicate Incremental<B(!new), F(!new), E(!new)>(parse: seq<B> -> Step<F, E>) {
    Bounded(parse) && Stable(parse) && Prompt(parse)
  }

  datatype Status<+E> = Waiting | Failed(error: E)

  /** Frames read in order, how much of the input they occupy, and why reading stopped. */
  datatype Scan<F, E> = Scan(frames: seq<F>, used: nat, status: Status<E>) {
    function After(earlier: seq<F>, size: nat): Scan<F, E> {
      Scan(earlier + frames, size + used, status)
    }
  }

  function ScanAll<B(!new), F(!new), E(!new)>(parse: seq<B> -> Step<F, E>, t: seq<B>): (r: Scan<F, E>)
    requires Bounded(parse)
    ensures r.used <= |t|
    decreases |t|
  {
    match parse(t)
    case NeedMore => Scan([], 0, Waiting)
    case Bad(e) => Scan([], 0, Failed(e))
    case Good(frame, size) => ScanAll(parse, t[size..]).After([frame], size)
  }

  lemma AfterNothing<F, E>(s: Scan<F, E>)
    ensures s.After([], 0) == s
  {
  }

  lemma AfterTwice<F, E>(s: Scan<F, E>, fs: seq<F>, m: nat, gs: seq<F>, n: nat)
    ensures s.After(gs, n).After(fs, m) == s.After(fs + gs, m + n)
  {
  }

  /** One turn of a scanning loop that has taken `frames` off the front of `input` and holds `rest`. */
  lemma LoopTurn<B(!new), F(!new), E(!new)>(
      parse: seq<B> -> Step<F, E>, input: seq<B>, position: nat, rest: seq<B>, frames: seq<F>)
    requires Bounded(parse)
    requires position <= |input| && rest == input[position..]
    requires ScanAll(parse, input) == ScanAll(parse, rest).After(frames, position)
    ensures parse(rest).NeedMore? ==> ScanAll(parse, input) == Scan(frames, position, Waiting)
    ensures parse(rest).Bad? ==> ScanAll(parse, input) == Scan(frames, position, Failed(parse(rest).error))
    ensures parse(rest).Good? ==> Rest(input, position, rest, parse(rest).size)
    ensures parse(rest).Good? ==>
              ScanAll(parse, input)
              == ScanAll(parse, rest[parse(rest).size..]).After(
                   frames + [parse(rest).frame], position + parse(rest).size)
  {
  }

  ghost predicate Rest<B>(input: seq<B>, position: nat, rest: seq<B>, size: nat)
    requires size <= |rest|
  {
    position + size <= |input| && rest[size..] == input[position + size..]
  }

  /** The loop every scanner runs: take frames off the front until the parser stops it. */
  method ReadFrames<B(!new), F(!new), E(!new)>(parse: seq<B> -> Step<F, E>, input: seq<B>) returns (s: Scan<F, E>)
    requires Bounded(parse)
    ensures s == ScanAll(parse, input)
  {
    var frames: seq<F> := [];
    var position := 0;
    assert input[0..] == input;
    AfterNothing(ScanAll(parse, input));
    var step := parse(input);
    while step.Good?
      invariant 0 <= position <= |input|
      invariant step == parse(input[position..])
      invariant ScanAll(parse, input) == ScanAll(parse, input[position..]).After(frames, position)
      decreases |input| - position
    {
      var Good(frame, size) := step;
      LoopTurn(parse, input, position, input[position..], frames);
      frames := frames + [frame];
      position := position + size;
      step := parse(input[position..]);
    }
    LoopTurn(parse, input, position, input[position..], frames);
    s := Scan(frames, position, if step.Bad? then Failed(step.error) else Waiting);
  }

  /** Reading can stop anywhere and resume on the unread remainder. */
  lemma {:induction false} ScanResumes<B(!new), F(!new), E(!new)>(parse: seq<B> -> Step<F, E>, t: seq<B>, more: seq<B>)
    requires Incremental(parse)
    ensures var first := ScanAll(parse, t);
            match first.status
            case Waiting =>
              ScanAll(parse, t + more) == ScanAll(parse, t[first.used..] + more).After(first.frames, first.used)
            case Failed(_) => ScanAll(parse, t + more) == first
    decreases |t|
  {
    var first := ScanAll(parse, t);
    match parse(t)
    case NeedMore =>
      assert t[0..] + more == t + more;
      AfterNothing(ScanAll(parse, t + more));
    case Bad(_) =>
      assert StableAt(parse, t, more);
    case Good(frame, size) =>
      assert StableAt(parse, t, more);
      assert (t + more)[size..] == t[size..] + more;
      ScanResumes(parse, t[size..], more);
      var rest := ScanAll(parse, t[size..]);
      if rest.status.Waiting? {
        assert t[size..][rest.used..] == t[first.used..];
        AfterTwice(ScanAll(parse, t[first.used..] + more), [frame], size, rest.frames, rest.used);
      }
  }

  /** What is kept of any input reads again as the same frames, with nothing left over. */
  lemma {:induction false} KeptReadsTheSame<B(!new), F(!new), E(!new)>(parse: seq<B> -> Step<F, E>, t: seq<B>)
    requires Incremental(parse) && parse([]).NeedMore?
    ensures var s := ScanAll(parse, t);
            ScanAll(parse, t[..s.used]) == Scan(s.frames, s.used, Waiting)
    decreases |t|
  {
    var s := ScanAll(parse, t);
    if parse(t).Good? {
      var Good(frame, size) := parse(t);
      var kept, rest := t[..s.used], t[size..];
      assert t[..size] + t[size..s.used] == kept;
      assert PromptAt(parse, t) && StableAt(parse, t[..size], t[size..s.used]);
      assert kept[size..] == rest[..s.used - size];
      KeptReadsTheSame(parse, rest);
    } else {
      assert t[..s.used] == [];
    }
  }

  /** Cutting any input keeps exactly the frames that ended at or before the cut: the frames of the
      prefix are the first ones of the whole, and the next frame of the whole would cross the cut. */
  lemma CutKeepsWholeFrames<B(!new), F(!new), E(!new)>(
      parse: seq<B> -> Step<F, E>, t: seq<B>, cut: nat) returns (part: Scan<F, E>)
    requires Incremental(parse) && cut <= |t|
    requires ScanAll(parse, t).status.Waiting?
    ensures part == ScanAll(parse, t[..cut]) && part.status.Waiting?
    ensures part.frames <= ScanAll(parse, t).frames
    ensures parse(t[part.used..]).Good? ==> cut < part.used + parse(t[part.used..]).size
  {
    var head, tail := t[..cut], t[cut..];
    part := ScanAll(parse, head);
    assert head + tail == t;
    ScanResumes(parse, head, tail);
    UnreadIsIncomplete(parse, head);
    var unread := head[part.used..];
    assert t[part.used..] == unread + tail;
    if parse(unread + tail).Good? && parse(unread + tail).size <= |unread| {
      CompleteIsSeen(parse, unread, tail);
    }
    assert part.frames <= part.frames + ScanAll(parse, unread + tail).frames;
  }

  lemma CompleteIsSeen<B(!new), F(!new), E(!new)>(parse: seq<B> -> Step<F, E>, t: seq<B>, more: seq<B>)
    requires Incremental(parse) && parse(t + more).Good? && parse(t + more).size <= |t|
    ensures parse(t) == parse(t + more)
  {
    var size := parse(t + more).size;
    assert PromptAt(parse, t + more);
    assert (t + more)[..size] == t[..size] && t[..size] + t[size..] == t;
    assert StableAt(parse, t[..size], t[size..]);
  }

  /** Input that ends in an incomplete frame reads as if that end were not there yet. */
  lemma IncompleteTailWaits<B(!new), F(!new), E(!new)>(
      parse: seq<B> -> Step<F, E>, fs: seq<F>, kept: seq<B>, leftover: seq<B>)
    requires Incremental(parse)
    requires ScanAll(parse, kept) == Scan(fs, |kept|, Waiting)
    requires parse(leftover).NeedMore?
    ensures ScanAll(parse, kept + leftover) == Scan(fs, |kept|, Waiting)
  {
    ScanResumes(parse, kept, leftover);
    assert kept[|kept|..] + leftover == leftover;
    assert fs + [] == fs;
  }

  lemma {:induction false} UnreadIsIncomplete<B(!new), F(!new), E(!new)>(parse: seq<B> -> Step<F, E>, t: seq<B>)
    requires Bounded(parse)
    requires ScanAll(parse, t).status.Waiting?
    ensures parse(t[ScanAll(parse, t).used..]).NeedMore?
    decreases |t|
  {
    var s := ScanAll(parse, t);
    if parse(t).Good? {
      var size := parse(t).size;
      UnreadIsIncomplete(parse, t[size..]);
      assert t[size..][s.used - size..] == t[s.used..];
    } else {
      assert t[0..] == t;
    }
  }

  /** `piece` is the encoding of frame `f`: it reads as `f` whatever follows it. */
  ghost predicate Encodes<B(!new), F(!new), E(!new)>(parse: seq<B> -> Step<F, E>, piece: seq<B>, f: F) {
    forall more: seq<B> {:trigger parse(piece + more)} :: parse(piece + more) == Good(f, |piece|)
  }

  /** Concatenated encodings read as exactly the encoded frames, with nothing left over. */
  lemma {:induction false} EncodedFramesRead<B(!new), F(!new), E(!new)>(
      parse: seq<B> -> Step<F, E>, pieces: seq<seq<B>>, fs: seq<F>)
    requires Bounded(parse) && parse([]).NeedMore?
    requires |pieces| == |fs| && forall i | 0 <= i < |fs| :: Encodes(parse, pieces[i], fs[i])
    ensures ScanAll(parse, Concat(pieces)) == Scan(fs, |Concat(pieces)|, Waiting)
    decreases |pieces|
  {
    if pieces != [] {
      var first, more := pieces[0], Concat(pieces[1..]);
      assert Encodes(parse, pieces[0], fs[0]);
      assert parse(first + more) == Good(fs[0], |first|);
      assert (first + more)[|first|..] == more;
      EncodedFramesRead(parse, pieces[1..], fs[1..]);
      assert [fs[0]] + fs[1..] == fs;
    }
  }

  /** Appending one encoded frame to input that reads to its end adds exactly that frame. */
  lemma AppendedFrameReads<B(!new), F(!new), E(!new)>(
      parse: seq<B> -> Step<F, E>, t: seq<B>, fs: seq<F>, piece: seq<B>, f: F)
    requires Incremental(parse) && parse([]).NeedMore?
    requires ScanAll(parse, t) == Scan(fs, |t|, Waiting) && Encodes(parse, piece, f)
    ensures ScanAll(parse, t + piece) == Scan(fs + [f], |t| + |piece|, Waiting)
  {
    ScanResumes(parse, t, piece);
    assert t[|t|..] + piece == piece;
    assert piece + [] == piece && parse(piece + []) == Good(f, |piece|);
    assert piece[|piece|..] == [] && [f] + [] == [f];
  }

  // ---------------------------------------------------------------- chunked input

  /** A reader's frames so far, its unread buffer, and whether it has failed. */
  datatype Reader<B, F, E> = Reader(frames: seq<F>, buffer: seq<B>, status: Status<E>)

  function Start<B, F, E>(): Reader<B, F, E> { Reader([], [], Waiting) }

  function Push<B(!new), F(!new), E(!new)>(
      parse: seq<B> -> Step<F, E>, r: Reader<B, F, E>, chunk: seq<B>): Reader<B, F, E>
    requires Bounded(parse)
  {
    if r.status.Failed? then r
    else
      var input := r.buffer + chunk;
      var s := ScanAll(parse, input);
      Reader(r.frames + s.frames, input[s.used..], s.status)
  }

  function PushAll<B(!new), F(!new), E(!new)>(
      parse: seq<B> -> Step<F, E>, r: Reader<B, F, E>, chunks: seq<seq<B>>): Reader<B, F, E>
    requires Bounded(parse)
    decreases |chunks|
  {
    if chunks == [] then r else PushAll(parse, Push(parse, r, chunks[0]), chunks[1..])
  }

  function Concat<B>(chunks: seq<seq<B>>): seq<B> {
    if chunks == [] then [] else chunks[0] + Concat(chunks[1..])
  }

  /** The reader of `input` in one piece. */
  function ReadWhole<B(!new), F(!new), E(!new)>(parse: seq<B> -> Step<F, E>, input: seq<B>): Reader<B, F, E>
    requires Bounded(parse)
  {
    Push(parse, Start(), input)
  }

  /** Chunking is irrelevant: for every input, well formed or not, and every way of splitting it, the
      same frames are read, the same error (if any) is met, and while none is met the same bytes wait. */
  lemma ChunkingIrrelevant<B(!new), F(!new), E(!new)>(parse: seq<B> -> Step<F, E>, chunks: seq<seq<B>>)
    requires Incremental(parse) && parse([]).NeedMore?
    ensures var run, whole := PushAll(parse, Start(), chunks), ReadWhole(parse, Concat(chunks));
            && run.frames == whole.frames
            && run.status == whole.status
            && (run.status.Waiting? ==> run.buffer == whole.buffer)
  {
    PushAllIsPushConcat(parse, Start(), chunks);
  }

  /** Two readers nothing downstream can tell apart; a failed reader's buffer is never read again. */
  ghost predicate Same<B(!new), F(!new), E(!new)>(r: Reader<B, F, E>, q: Reader<B, F, E>) {
    r.frames == q.frames && r.status == q.status && (r.status.Waiting? ==> r.buffer == q.buffer)
  }

  lemma {:induction false} PushAllIsPushConcat<B(!new), F(!new), E(!new)>(
      parse: seq<B> -> Step<F, E>, r: Reader<B, F, E>, chunks: seq<seq<B>>)
    requires Incremental(parse)
    requires r.status.Waiting? ==> parse(r.buffer).NeedMore?
    ensures Same(PushAll(parse, r, chunks), Push(parse, r, Concat(chunks)))
    decreases |chunks|
  {
    if r.status.Failed? {
      FailedStays(parse, r, chunks);
    } else if chunks == [] {
      assert r.buffer + [] == r.buffer && r.frames + [] == r.frames && r.buffer[0..] == r.buffer;
    } else {
      PushTwice(parse, r, chunks[0], Concat(chunks[1..]));
      PushAllIsPushConcat(parse, Push(parse, r, chunks[0]), chunks[1..]);
    }
  }

  lemma PushTwice<B(!new), F(!new), E(!new)>(
      parse: seq<B> -> Step<F, E>, r: Reader<B, F, E>, chunk: seq<B>, more: seq<B>)
    requires Incremental(parse)
    requires r.status.Waiting?
    ensures var next := Push(parse, r, chunk);
            && (next.status.Waiting? ==> parse(next.buffer).NeedMore?)
            && Same(Push(parse, next, more), Push(parse, r, chunk + more))
  {
    var input := r.buffer + chunk;
    var s := ScanAll(parse, input);
    Assoc(r.buffer, chunk, more);
    ScanResumes(parse, input, more);
    if s.status.Waiting? {
      UnreadIsIncomplete(parse, input);
      var rest := ScanAll(parse, input[s.used..] + more);
      Assoc(r.frames, s.frames, rest.frames);
      DropTwice(input, more, s.used, rest.used);
    }
  }

  lemma DropTwice<T>(a: seq<T>, b: seq<T>, m: nat, n: nat)
    requires m <= |a| && m + n <= |a| + |b|
    ensures (a[m..] + b)[n..] == (a + b)[m + n..]
  {
  }

  lemma {:induction false} FailedStays<B(!new), F(!new), E(!new)>(
      parse: seq<B> -> Step<F, E>, r: Reader<B, F, E>, chunks: seq<seq<B>>)
    requires Bounded(parse) && r.status.Failed?
    ensures PushAll(parse, r, chunks) == r
    decreases |chunks|
  {
    if chunks != [] {
      FailedStays(parse, r, chunks[1..]);
    }
  }
}
