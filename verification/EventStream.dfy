/**
 The AWS `application/vnd.amazon.eventstream` decoder and the framer that unwraps Bedrock chunks.
 Message: total length, headers length, prelude CRC (12 bytes), headers, payload, message CRC.
 */
module EventStream {
  import opened Common
  import opened Framing
  import opened Framers
  import BigEndian
  import opened Json
  import opened StreamTask

  const MAX_MESSAGE_BYTES: nat := 16 * 1024 * 1024
  const MAX_BUFFER_BYTES: nat := 2 * MAX_MESSAGE_BYTES
  const STRING_TYPE: byte := 7

  type Header = (string, string)

  datatype EventMessage = EventMessage(headers: seq<Header>, payload: seq<byte>) {
    function Header(name: string): Option<string> {
      FindHeader(headers, name)
    }
  }

  function FindHeader(headers: seq<Header>, name: string): Option<string> {
    if headers == [] then None
    else if headers[0].0 == name then Some(headers[0].1)
    else FindHeader(headers[1..], name)
  }

  /** Library functions the decoder and the framer call. */
  datatype Wire = Wire(
    crc32: seq<byte> -> u32,
    utf8: string -> seq<byte>,
    utf8Lossy: seq<byte> -> string,
    errorMessage: seq<byte> -> Option<string>,
    unwrapChunk: seq<byte> -> Option<Value>)
  {
    ghost predicate Sound() {
      forall s: string {:trigger utf8(s)} :: utf8Lossy(utf8(s)) == s
    }
  }

  datatype HeaderError =
    | TruncatedHeader
    | TruncatedName
    | UnsupportedType(found: byte)
    | TruncatedLength
    | TruncatedValue

  datatype DecodeError =
    | BufferExceeded
    | BadLengths
    | PreludeCrcMismatch
    | MessageTooLong
    | MessageCrcMismatch
    | BadHeader(header: HeaderError)

  // ---------------------------------------------------------------- headers

  datatype HeaderStep = HeaderStep(name: string, value: string, size: nat) | HeaderFault(error: HeaderError)

  /** The header at the front of a non-empty slice. */
  function FirstHeader(w: Wire, slice: seq<byte>): (r: HeaderStep)
    requires slice != []
    ensures r.HeaderStep? ==> 4 <= r.size <= |slice|
  {
    if |slice| < 2 then HeaderFault(TruncatedHeader)
    else
      var nameLen: nat := slice[0];
      var nameEnd: nat := 1 + nameLen;
      if |slice| - 1 < nameLen + 1 then HeaderFault(TruncatedName)
      else if slice[nameEnd] != STRING_TYPE then HeaderFault(UnsupportedType(slice[nameEnd]))
      else if |slice| < nameEnd + 3 then HeaderFault(TruncatedLength)
      else
        var valueLen := BigEndian.Decode(slice[nameEnd + 1..nameEnd + 3]);
        var valueStart := nameEnd + 3;
        if |slice| - valueStart < valueLen then HeaderFault(TruncatedValue)
        else HeaderStep(w.utf8Lossy(slice[1..nameEnd]), w.utf8Lossy(slice[valueStart..valueStart + valueLen]),
                        valueStart + valueLen)
  }

  datatype Headers = HeadersOk(headers: seq<Header>) | HeadersErr(error: HeaderError)

  function HeadersOf(w: Wire, slice: seq<byte>): Headers
    decreases |slice|
  {
    if slice == [] then HeadersOk([])
    else
      match FirstHeader(w, slice)
      case HeaderFault(e) => HeadersErr(e)
      case HeaderStep(name, value, size) =>
        match HeadersOf(w, slice[size..])
        case HeadersErr(e) => HeadersErr(e)
        case HeadersOk(more) => HeadersOk([(name, value)] + more)
  }

  method ParseHeaders(w: Wire, slice: seq<byte>) returns (r: Headers)
    ensures r == HeadersOf(w, slice)
  {
    var headers: seq<Header> := [];
    var rest := slice;
    while rest != []
      invariant HeadersOf(w, slice)
             == match HeadersOf(w, rest)
                case HeadersErr(e) => HeadersErr(e)
                case HeadersOk(more) => HeadersOk(headers + more)
      decreases |rest|
    {
      match FirstHeader(w, rest) {
        case HeaderFault(e) =>
          return HeadersErr(e);
        case HeaderStep(name, value, size) =>
          rest := rest[size..];
          ghost var tail := HeadersOf(w, rest);
          if tail.HeadersOk? {
            Assoc(headers, [(name, value)], tail.headers);
          }
          headers := headers + [(name, value)];
      }
    }
    assert headers + [] == headers;
    return HeadersOk(headers);
  }

  // ---------------------------------------------------------------- messages

  function TotalLen(buf: seq<byte>): nat
    requires |buf| >= 12
  {
    BigEndian.Decode(buf[0..4])
  }

  function HeadersLen(buf: seq<byte>): nat
    requires |buf| >= 12
  {
    BigEndian.Decode(buf[4..8])
  }

  /** Checks on the first twelve bytes, in the decoder's order. */
  function PreludeFault(w: Wire, buf: seq<byte>): Option<DecodeError>
    requires |buf| >= 12
  {
    var total := TotalLen(buf);
    if total < 16 || HeadersLen(buf) > (if total < 16 then 0 else total - 16) then Some(BadLengths)
    else if w.crc32(buf[..8]) != BigEndian.Decode(buf[8..12]) then Some(PreludeCrcMismatch)
    else if total > MAX_MESSAGE_BYTES then Some(MessageTooLong)
    else None
  }

  /** A whole message of known bounds. */
  function OpenMessage(w: Wire, message: seq<byte>, headersLen: nat): Step<EventMessage, DecodeError>
    requires |message| >= 16 && headersLen <= |message| - 16
  {
    var payloadEnd := |message| - 4;
    if w.crc32(message[..payloadEnd]) != BigEndian.Decode(message[payloadEnd..]) then Bad(MessageCrcMismatch)
    else
      match HeadersOf(w, message[12..12 + headersLen])
      case HeadersErr(e) => Bad(BadHeader(e))
      case HeadersOk(headers) => Good(EventMessage(headers, message[12 + headersLen..payloadEnd]), |message|)
  }

  /** `next_message` as a function of the buffer. */
  function DecodeStep(w: Wire, buf: seq<byte>): (r: Step<EventMessage, DecodeError>)
    ensures r.Good? ==> 16 <= r.size <= |buf|
  {
    if |buf| < 12 then
      if |buf| > MAX_BUFFER_BYTES then Bad(BufferExceeded) else NeedMore
    else
      match PreludeFault(w, buf)
      case Some(e) => Bad(e)
      case None =>
        if |buf| < TotalLen(buf) then
          if |buf| > MAX_BUFFER_BYTES then Bad(BufferExceeded) else NeedMore
        else OpenMessage(w, buf[..TotalLen(buf)], HeadersLen(buf))
  }

  /** What `next_message` leaves in the buffer: early faults clear it, later ones drop one message. */
  function Remainder(w: Wire, buf: seq<byte>): seq<byte> {
    match DecodeStep(w, buf)
    case NeedMore => buf
    case Good(_, size) => buf[size..]
    case Bad(e) =>
      if (e.MessageCrcMismatch? || e.BadHeader?) && |buf| >= 12 && TotalLen(buf) <= |buf|
      then buf[TotalLen(buf)..] else []
  }

  class EventStreamDecoder {
    var buf: seq<byte>

    constructor ()
      ensures buf == []
    {
      buf := [];
    }

    method Push(bytes: seq<byte>)
      modifies this
      ensures buf == old(buf) + bytes
    {
      buf := buf + bytes;
    }

    method NextMessage(w: Wire) returns (r: Step<EventMessage, DecodeError>)
      modifies this
      ensures r == DecodeStep(w, old(buf))
      ensures buf == Remainder(w, old(buf))
      ensures !r.NeedMore? ==> |buf| < |old(buf)|
    {
      r := NeedMore;
      if |buf| >= 12 {
        var total, headersLen := TotalLen(buf), HeadersLen(buf);
        var fault := PreludeFault(w, buf);
        if fault.Some? {
          r := Bad(fault.value);
          buf := [];
        } else if |buf| >= total {
          var message := buf[..total];
          buf := buf[total..];
          if w.crc32(message[..total - 4]) != BigEndian.Decode(message[total - 4..]) {
            r := Bad(MessageCrcMismatch);
          } else {
            var headers := ParseHeaders(w, message[12..12 + headersLen]);
            r := match headers
                 case HeadersErr(e) => Bad(BadHeader(e))
                 case HeadersOk(hs) => Good(EventMessage(hs, message[12 + headersLen..total - 4]), total);
          }
        }
      }
    }
  }

  /** Both "buffer exceeded" exits are dead: a buffer that waits holds less than one message, so it
      stays below 16 MiB, half the limit those exits test. */
  lemma BufferExceededUnreachable(w: Wire, buf: seq<byte>)
    ensures DecodeStep(w, buf) != Bad(BufferExceeded)
    ensures DecodeStep(w, buf).NeedMore? ==> |buf| < MAX_MESSAGE_BYTES
  {
  }

  function DecodeParser(w: Wire): (f: seq<byte> -> Step<EventMessage, DecodeError>)
    ensures Bounded(f)
  {
    (buf: seq<byte>) => DecodeStep(w, buf)
  }

  lemma DecodeStable(w: Wire, t: seq<byte>, more: seq<byte>)
    requires !DecodeStep(w, t).NeedMore?
    ensures DecodeStep(w, t + more) == DecodeStep(w, t)
  {
    var u := t + more;
    assert u[0..4] == t[0..4] && u[4..8] == t[4..8] && u[8..12] == t[8..12] && u[..8] == t[..8];
    if PreludeFault(w, t).None? {
      assert u[..TotalLen(t)] == t[..TotalLen(t)];
    }
  }

  lemma DecodePrompt(w: Wire, t: seq<byte>)
    requires DecodeStep(w, t).Good?
    ensures DecodeStep(w, t[..DecodeStep(w, t).size]) == DecodeStep(w, t)
  {
    var u := t[..TotalLen(t)];
    assert u[0..4] == t[0..4] && u[4..8] == t[4..8] && u[8..12] == t[8..12] && u[..8] == t[..8];
    assert u[..TotalLen(t)] == u;
  }

  lemma DecoderIncremental(w: Wire)
    ensures Incremental(DecodeParser(w)) && DecodeParser(w)([]).NeedMore?
  {
    forall t: seq<byte>, more: seq<byte>
      ensures StableAt(DecodeParser(w), t, more)
    {
      if !DecodeStep(w, t).NeedMore? {
        DecodeStable(w, t, more);
      }
    }
    forall t: seq<byte>
      ensures PromptAt(DecodeParser(w), t)
    {
      if DecodeStep(w, t).Good? {
        DecodePrompt(w, t);
      }
    }
  }

  // ---------------------------------------------------------------- the encoder of the format

  function HeaderBytes(w: Wire, h: Header): (r: seq<byte>)
    requires |w.utf8(h.0)| < 256
    ensures |r| >= 4
  {
    [|w.utf8(h.0)|] + (w.utf8(h.0) + ([STRING_TYPE] + (BigEndian.Encode(|w.utf8(h.1)|, 2) + w.utf8(h.1))))
  }

  ghost predicate EncodableHeaders(w: Wire, headers: seq<Header>) {
    forall h: Header | h in headers :: |w.utf8(h.0)| < 256 && |w.utf8(h.1)| < 0x1_0000
  }

  ghost function HeadersBytes(w: Wire, headers: seq<Header>): seq<byte>
    requires EncodableHeaders(w, headers)
  {
    if headers == [] then [] else HeaderBytes(w, headers[0]) + HeadersBytes(w, headers[1..])
  }

  ghost predicate Encodable(w: Wire, m: EventMessage) {
    EncodableHeaders(w, m.headers) && 16 + |HeadersBytes(w, m.headers)| + |m.payload| <= MAX_MESSAGE_BYTES
  }

  ghost function Prelude(w: Wire, m: EventMessage): seq<byte>
    requires Encodable(w, m)
  {
    var headers := HeadersBytes(w, m.headers);
    BigEndian.Encode(16 + |headers| + |m.payload|, 4) + BigEndian.Encode(|headers|, 4)
  }

  ghost function Head(w: Wire, m: EventMessage): (r: seq<byte>)
    requires Encodable(w, m)
    ensures |r| == 12
  {
    Prelude(w, m) + BigEndian.Encode(w.crc32(Prelude(w, m)), 4)
  }

  ghost function Unsealed(w: Wire, m: EventMessage): seq<byte>
    requires Encodable(w, m)
  {
    Head(w, m) + (HeadersBytes(w, m.headers) + m.payload)
  }

  ghost function MessageBytes(w: Wire, m: EventMessage): seq<byte>
    requires Encodable(w, m)
  {
    var unsealed := Unsealed(w, m);
    unsealed + BigEndian.Encode(w.crc32(unsealed), 4)
  }

  lemma HeaderSlices(n: byte, name: seq<byte>, size: seq<byte>, value: seq<byte>, after: seq<byte>)
    requires n == |name| && |size| == 2
    ensures var s := [n] + (name + ([STRING_TYPE] + (size + value))) + after;
            && |s| == 4 + n + |value| + |after|
            && s[0] == n && s[1..1 + n] == name && s[1 + n] == STRING_TYPE
            && s[2 + n..4 + n] == size && s[4 + n..4 + n + |value|] == value
            && s[4 + n + |value|..] == after
  {
  }

  lemma FirstHeaderRoundTrip(w: Wire, h: Header, more: seq<byte>)
    requires w.Sound() && EncodableHeaders(w, [h])
    ensures var piece := HeaderBytes(w, h);
            && FirstHeader(w, piece + more) == HeaderStep(h.0, h.1, |piece|)
            && (piece + more)[|piece|..] == more
  {
    assert h in [h];
    BigEndian.Widths();
    BigEndian.RoundTrip(|w.utf8(h.1)|, 2);
    HeaderSlices(|w.utf8(h.0)|, w.utf8(h.0), BigEndian.Encode(|w.utf8(h.1)|, 2), w.utf8(h.1), more);
  }

  lemma {:induction false} HeadersRoundTrip(w: Wire, headers: seq<Header>)
    requires w.Sound() && EncodableHeaders(w, headers)
    ensures HeadersOf(w, HeadersBytes(w, headers)) == HeadersOk(headers)
  {
    if headers != [] {
      FirstHeaderRoundTrip(w, headers[0], HeadersBytes(w, headers[1..]));
      HeadersRoundTrip(w, headers[1..]);
      assert [headers[0]] + headers[1..] == headers;
    }
  }

  lemma MessageSlices(head: seq<byte>, headers: seq<byte>, payload: seq<byte>, crc: seq<byte>)
    requires |head| == 12 && |crc| == 4
    ensures var unsealed := head + (headers + payload);
            var m := unsealed + crc;
            && |m| == 16 + |headers| + |payload|
            && m[..|m| - 4] == unsealed && m[|m| - 4..] == crc
            && m[12..12 + |headers|] == headers && m[12 + |headers|..|m| - 4] == payload
  {
  }

  lemma PreludeRoundTrip(w: Wire, m: EventMessage, buf: seq<byte>)
    requires Encodable(w, m)
    requires |buf| >= 12 && buf[..8] == Prelude(w, m) && buf[8..12] == BigEndian.Encode(w.crc32(Prelude(w, m)), 4)
    ensures PreludeFault(w, buf).None?
    ensures TotalLen(buf) == 16 + |HeadersBytes(w, m.headers)| + |m.payload|
    ensures HeadersLen(buf) == |HeadersBytes(w, m.headers)|
  {
    var headers := HeadersBytes(w, m.headers);
    var total := 16 + |headers| + |m.payload|;
    BigEndian.Widths();
    BigEndian.RoundTrip(total, 4);
    BigEndian.RoundTrip(|headers|, 4);
    BigEndian.RoundTrip(w.crc32(Prelude(w, m)), 4);
    assert buf[0..4] == buf[..8][0..4] == BigEndian.Encode(total, 4);
    assert buf[4..8] == buf[..8][4..8] == BigEndian.Encode(|headers|, 4);
  }

  /** A message given by its parts opens as them. */
  lemma OpenParts(w: Wire, head: seq<byte>, headers: seq<byte>, payload: seq<byte>, crc: seq<byte>, parsed: seq<Header>)
    requires |head| == 12 && |crc| == 4
    requires w.crc32(head + (headers + payload)) == BigEndian.Decode(crc) && HeadersOf(w, headers) == HeadersOk(parsed)
    ensures var m := (head + (headers + payload)) + crc;
            && |m| == 16 + |headers| + |payload|
            && OpenMessage(w, m, |headers|) == Good(EventMessage(parsed, payload), |m|)
  {
    MessageSlices(head, headers, payload, crc);
  }

  lemma OpenMessageRoundTrip(w: Wire, m: EventMessage)
    requires w.Sound() && Encodable(w, m)
    ensures var message, headersLen := MessageBytes(w, m), |HeadersBytes(w, m.headers)|;
            && |message| == 16 + headersLen + |m.payload|
            && OpenMessage(w, message, headersLen) == Good(m, |message|)
  {
    var unsealed := Unsealed(w, m);
    BigEndian.Widths();
    BigEndian.RoundTrip(w.crc32(unsealed), 4);
    HeadersRoundTrip(w, m.headers);
    OpenParts(w, Head(w, m), HeadersBytes(w, m.headers), m.payload, BigEndian.Encode(w.crc32(unsealed), 4), m.headers);
  }

  /** Decoding inverts encoding, whatever follows in the buffer. */
  lemma MessageRoundTrip(w: Wire, m: EventMessage, after: seq<byte>)
    requires w.Sound() && Encodable(w, m)
    ensures DecodeStep(w, MessageBytes(w, m) + after) == Good(m, |MessageBytes(w, m)|)
  {
    var message := MessageBytes(w, m);
    var buf := message + after;
    OpenMessageRoundTrip(w, m);
    assert buf[..12] == message[..12] == Head(w, m);
    assert buf[..8] == buf[..12][..8] && buf[8..12] == buf[..12][8..];
    PreludeRoundTrip(w, m, buf);
    assert buf[..|message|] == message;
  }

  ghost predicate AllEncodable(w: Wire, ms: seq<EventMessage>) {
    forall m | m in ms :: Encodable(w, m)
  }

  ghost function StreamPieces(w: Wire, ms: seq<EventMessage>): (r: seq<seq<byte>>)
    requires AllEncodable(w, ms)
    ensures |r| == |ms|
  {
    seq(|ms|, i requires 0 <= i < |ms| => MessageBytes(w, ms[i]))
  }

  /** However the encoding of any list of valid messages is split into pushes, the decoder yields
      exactly those messages in order, meets no error and holds no leftover byte. */
  lemma EverySplitDecodes(w: Wire, ms: seq<EventMessage>, chunks: seq<seq<byte>>)
    requires w.Sound() && AllEncodable(w, ms)
    requires Concat(chunks) == Concat(StreamPieces(w, ms))
    ensures PushAll(DecodeParser(w), Start(), chunks) == Reader(ms, [], Waiting)
  {
    var parse, pieces := DecodeParser(w), StreamPieces(w, ms);
    DecoderIncremental(w);
    forall i | 0 <= i < |ms|
      ensures Encodes(parse, pieces[i], ms[i])
    {
      forall more: seq<byte>
        ensures parse(pieces[i] + more) == Good(ms[i], |pieces[i]|)
      {
        MessageRoundTrip(w, ms[i], more);
      }
    }
    EncodedFramesRead(parse, pieces, ms);
    ChunkingIrrelevant(parse, chunks);
    assert [] + Concat(chunks) == Concat(chunks) && [] + ms == ms;
  }

  // ---------------------------------------------------------------- the framer

  datatype FramerError = Malformed(decode: DecodeError) | Exception(kind: string, message: string)

  function LowerAscii(s: string): string {
    seq(|s|, i requires 0 <= i < |s| => if 'A' <= s[i] <= 'Z' then s[i] - 'A' + 'a' else s[i])
  }

  predicate EndsWith(s: string, suffix: string) {
    |suffix| <= |s| && s[|s| - |suffix|..] == suffix
  }

  /** A message the upstream sent to end the stream, rather than a chunk. */
  function StreamError(w: Wire, m: EventMessage): Option<FramerError> {
    var kind := m.Header(":event-type");
    if m.Header(":message-type") == Some("exception") || (kind.Some? && EndsWith(LowerAscii(kind.value), "exception"))
    then
      var message := w.errorMessage(m.payload);
      Some(Exception(if kind.Some? then kind.value else "exception",
                     if message.Some? then message.value else "upstream stream error"))
    else None
  }

  /** One turn of the framer's loop; a chunk that does not unwrap is a frame without a value. */
  function FrameStep(w: Wire, buf: seq<byte>): Step<Option<Value>, FramerError> {
    match DecodeStep(w, buf)
    case NeedMore => NeedMore
    case Bad(e) => Bad(Malformed(e))
    case Good(m, size) =>
      match StreamError(w, m)
      case Some(e) => Bad(e)
      case None => Good(w.unwrapChunk(m.payload), size)
  }

  function FrameParser(w: Wire): (f: seq<byte> -> Step<Option<Value>, FramerError>)
    ensures Bounded(f)
  {
    (buf: seq<byte>) => FrameStep(w, buf)
  }

  lemma FramerIncremental(w: Wire)
    ensures Incremental(FrameParser(w)) && FrameParser(w)([]).NeedMore?
  {
    forall t: seq<byte>, more: seq<byte>
      ensures StableAt(FrameParser(w), t, more)
    {
      if !DecodeStep(w, t).NeedMore? {
        DecodeStable(w, t, more);
      }
    }
    forall t: seq<byte>
      ensures PromptAt(FrameParser(w), t)
    {
      if DecodeStep(w, t).Good? {
        DecodePrompt(w, t);
      }
    }
  }

  class EventStreamFramer {
    const decoder: EventStreamDecoder

    constructor ()
      ensures fresh(decoder) && decoder.buf == []
    {
      decoder := new EventStreamDecoder();
    }

    /** The body of the loop: the next message, checked for an upstream exception and unwrapped. */
    method NextFrame(w: Wire) returns (r: Step<Option<Value>, FramerError>)
      modifies decoder
      ensures r == FrameParser(w)(old(decoder.buf))
      ensures r.NeedMore? ==> decoder.buf == old(decoder.buf) && |decoder.buf| < MAX_MESSAGE_BYTES
      ensures r.Good? ==> r.size <= |old(decoder.buf)| && decoder.buf == old(decoder.buf)[r.size..]
      ensures !r.NeedMore? ==> |decoder.buf| < |old(decoder.buf)|
    {
      BufferExceededUnreachable(w, decoder.buf);
      var step := decoder.NextMessage(w);
      match step {
        case NeedMore =>
          return NeedMore;
        case Bad(e) =>
          return Bad(Malformed(e));
        case Good(m, size) =>
          var error := StreamError(w, m);
          return if error.Some? then Bad(error.value) else Good(w.unwrapChunk(m.payload), size);
      }
    }

    /** Values of all messages completed by `bytes`, or the first error; values read before an error
        in the same push are lost, as `Err` carries none. */
    method Push(w: Wire, bytes: seq<byte>) returns (r: PushResult<Value, FramerError>)
      modifies decoder
      ensures r == PushBytes(ByteFramer(w), old(decoder.buf), bytes).result
      ensures r.Values? ==> decoder.buf == PushBytes(ByteFramer(w), old(decoder.buf), bytes).buffer
      ensures r.Values? ==> |decoder.buf| < MAX_MESSAGE_BYTES
    {
      decoder.Push(bytes);
      ghost var input, parse := decoder.buf, FrameParser(w);
      ghost var position := 0;
      var frames: seq<Option<Value>> := [];
      AfterNothing(ScanAll(parse, input));
      while true
        invariant 0 <= position <= |input|
        invariant decoder.buf == input[position..]
        invariant ScanAll(parse, input) == ScanAll(parse, decoder.buf).After(frames, position)
        decreases |decoder.buf|
      {
        LoopTurn(parse, input, position, decoder.buf, frames);
        var step := NextFrame(w);
        match step {
          case NeedMore =>
            return Values(Present(frames));
          case Bad(e) =>
            return PushError(e);
          case Good(value, size) =>
            frames := frames + [value];
            position := position + size;
        }
      }
    }
  }

  /** The event-stream framer buffers raw bytes and has no limit of its own. */
  function ByteFramer(w: Wire): (f: Framer<byte, Value, FramerError>)
    ensures Bounded(f.parse)
  {
    Framer((bytes: seq<byte>) => bytes, FrameParser(w), (_: seq<byte>) => true, Malformed(BufferExceeded))
  }

  lemma {:induction false} ByteFramerTakesAll(w: Wire, buffer: seq<byte>, chunks: seq<seq<byte>>)
    ensures NeverOverflows(ByteFramer(w), buffer, chunks)
    ensures Intakes(ByteFramer(w), chunks) == Concat(chunks)
    decreases |chunks|
  {
    if chunks != [] {
      ByteFramerTakesAll(w, PushBytes(ByteFramer(w), buffer, chunks[0]).buffer, chunks[1..]);
    }
  }

  /** An event-stream response that ends normally: for every chunking of any bytes without a framing
      or upstream error, the events sent are the decoder folded over the unwrapped messages of the
      whole byte stream, then its closing events. */
  lemma EventStreamOutputIgnoresChunking<D(!new), Ev(!new)>(
      w: Wire, c: Decoder<D, Value, Ev>, d: D, arrivals: seq<Arrival>)
    requires !Broken(arrivals)
    requires ScanAll(FrameParser(w), Concat(Leading(arrivals))).status.Waiting?
    ensures var decoded := DecodeAll(c, d, Present(ScanAll(FrameParser(w), Concat(Leading(arrivals))).frames));
            Output(ByteFramer(w), c, [], d, arrivals) == Sent(decoded.events + c.finish(decoded.state))
  {
    FramerIncremental(w);
    ByteFramerTakesAll(w, [], Leading(arrivals));
    CleanOutput(ByteFramer(w), c, d, arrivals);
  }

  // ---------------------------------------------------------------- what is refused

  /** A message that says it is an exception. */
  predicate IsException(m: EventMessage) {
    || m.Header(":message-type") == Some("exception")
    || (m.Header(":event-type").Some? && EndsWith(LowerAscii(m.Header(":event-type").value), "exception"))
  }

  /** What a push reads when the next message in the buffer is `m`: an exception ends it, with the event type
      as its kind and the upstream's words if it has any; anything else is unwrapped. */
  lemma MessageMeans(w: Wire, m: EventMessage, after: seq<byte>)
    requires w.Sound() && Encodable(w, m)
    ensures IsException(m) ==>
              FrameStep(w, MessageBytes(w, m) + after) ==
                Bad(Exception(if m.Header(":event-type").Some? then m.Header(":event-type").value else "exception",
                              if w.errorMessage(m.payload).Some? then w.errorMessage(m.payload).value
                              else "upstream stream error"))
    ensures !IsException(m) ==>
              FrameStep(w, MessageBytes(w, m) + after) == Good(w.unwrapChunk(m.payload), |MessageBytes(w, m)|)
  {
    MessageRoundTrip(w, m, after);
  }

  /** The first header of a name is the one that counts. */
  lemma HeaderIsFirst(headers: seq<Header>, name: string, value: string, payload: seq<byte>)
    requires forall h: Header | h in headers :: h.0 != name
    ensures EventMessage(headers + [(name, value)], payload).Header(name) == Some(value)
    ensures EventMessage(headers, payload).Header(name) == None
  {
    FindAppendedHeader(headers, name, value);
  }

  lemma {:induction false} FindAppendedHeader(headers: seq<Header>, name: string, value: string)
    requires forall h: Header | h in headers :: h.0 != name
    ensures FindHeader(headers + [(name, value)], name) == Some(value) && FindHeader(headers, name) == None
    decreases |headers|
  {
    if headers == [] {
      assert headers + [(name, value)] == [(name, value)];
    } else {
      assert (headers + [(name, value)])[1..] == headers[1..] + [(name, value)];
      FindAppendedHeader(headers[1..], name, value);
    }
  }

  /** The checks a whole message has to pass, in the decoder's order, with their limits: each one that fails
      ends the push with its error. */
  lemma RefusedMessages(w: Wire, buf: seq<byte>)
    requires |buf| >= 12
    ensures var total, headers := BigEndian.Decode(buf[0..4]), BigEndian.Decode(buf[4..8]);
            var lengthsOk := total >= 16 && headers <= total - 16;
            var preludeOk := w.crc32(buf[..8]) == BigEndian.Decode(buf[8..12]);
            && (!lengthsOk ==> DecodeStep(w, buf) == Bad(BadLengths))
            && (lengthsOk && !preludeOk ==> DecodeStep(w, buf) == Bad(PreludeCrcMismatch))
            && (lengthsOk && preludeOk && total > 16_777_216 ==> DecodeStep(w, buf) == Bad(MessageTooLong))
            && (lengthsOk && preludeOk && total <= 16_777_216 && |buf| >= total
                && w.crc32(buf[..total - 4]) != BigEndian.Decode(buf[total - 4..total]) ==>
                  DecodeStep(w, buf) == Bad(MessageCrcMismatch))
            && (lengthsOk && preludeOk && total <= 16_777_216 && |buf| < total ==> DecodeStep(w, buf) == NeedMore)
  {
    var total := BigEndian.Decode(buf[0..4]);
    if 16 <= total <= |buf| {
      assert buf[..total][..total - 4] == buf[..total - 4] && buf[..total][total - 4..] == buf[total - 4..total];
    }
  }

  /** A header that is not a string is refused, whatever its value. */
  lemma OnlyStringHeaders(w: Wire, name: seq<byte>, kind: byte, more: seq<byte>)
    requires |name| < 256 && kind != 7
    ensures HeadersOf(w, [|name|] + name + [kind] + more) == HeadersErr(UnsupportedType(kind))
  {
    var slice := [|name|] + name + [kind] + more;
    assert slice[0] == |name| && slice[1 + |name|] == kind;
  }

  /** Any event type that ends in `Exception`, in any case, is one. */
  lemma ExceptionInAnyCase(m: EventMessage, name: string)
    requires m.Header(":event-type") == Some(name + "Exception") || m.Header(":event-type") == Some(name + "EXCEPTION")
    ensures IsException(m)
  {
    var kind := m.Header(":event-type").value;
    var lower, n := LowerAscii(kind), |name|;
    assert "Exception"[0] == 'E' && "EXCEPTION"[0] == 'E';
    assert forall i | 0 <= i < 9 :: lower[n + i] == "exception"[i];
    assert lower[n..] == "exception";
  }

  /** A whole message with a wrong checksum or a bad header is dropped alone, and the decoder goes on with what
      follows it; a fault in the first twelve bytes drops everything. */
  lemma BadMessageIsDropped(w: Wire, message: seq<byte>, after: seq<byte>)
    requires |message| >= 12 && BigEndian.Decode(message[0..4]) == |message| && DecodeStep(w, message).Bad?
    ensures Remainder(w, message + after) == if PreludeFault(w, message).None? then after else []
  {
    var buf := message + after;
    assert buf[0..4] == message[0..4] && buf[4..8] == message[4..8] && buf[8..12] == message[8..12];
    assert buf[..8] == message[..8] && buf[..|message|] == message && message[..|message|] == message;
    assert buf[|message|..] == after;
  }

  /** A header list cut off inside a header is refused for the field it was cut in. */
  lemma CutHeaderIsNamed(w: Wire, h: Header, n: nat)
    requires w.Sound() && EncodableHeaders(w, [h]) && 0 < n < |HeaderBytes(w, h)|
    ensures var name := |w.utf8(h.0)|;
            HeadersOf(w, HeaderBytes(w, h)[..n])
            == HeadersErr(if n < 2 then TruncatedHeader else if n < name + 2 then TruncatedName
                          else if n < name + 4 then TruncatedLength else TruncatedValue)
  {
    assert h in [h];
    var name, value := w.utf8(h.0), w.utf8(h.1);
    var all := HeaderBytes(w, h);
    BigEndian.Widths();
    BigEndian.RoundTrip(|value|, 2);
    HeaderSlices(|name|, name, BigEndian.Encode(|value|, 2), value, []);
    assert all + [] == all;
    var cut := all[..n];
    assert cut[0] == all[0] == |name|;
    assert n >= |name| + 2 ==> cut[1 + |name|] == all[1 + |name|];
    assert n >= |name| + 4 ==> cut[|name| + 2..|name| + 4] == all[|name| + 2..|name| + 4];
  }
}
