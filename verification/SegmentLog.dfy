/**
 The capture segment file: an 8-byte magic followed by checksummed, compressed record frames.
 Appending may be cut short by a crash; the scanner recovers the whole frames and drops the tail.
 */
module SegmentLog {
  import opened Common
  import BigEndian
  import opened Framing

  const SEGMENT_MAGIC: seq<byte> := [0x53, 0x42, 0x43, 0x41, 0x50, 0x30, 0x30, 0x31] // "SBCAP001"
  const RECORD_MAGIC: seq<byte> := [0x52, 0x45, 0x43, 0x31] // "REC1"
  const HEADER_BYTES: nat := 24
  const RECORD_MAX_BYTES: nat := 512 * 1024 * 1024

  datatype BodyRecord = BodyRecord(
    eventId: string,
    requestId: string,
    observedAt: int,
    captureStage: string,
    protocol: string,
    upstream: Option<string>,
    model: Option<string>,
    status: Option<nat>,
    contentType: Option<string>,
    bodySha256: string,
    bodyBytes: nat,
    compressedBytes: nat,
    archivePath: string,
    storage: string,
    isProtected: bool,
    redactionState: string,
    thresholdShrunk: bool,
    metadata: string)

  datatype SegmentFrame = SegmentFrame(record: BodyRecord, body: seq<byte>)

  /** The libraries the format is built on; every result below holds for all choices of them. */
  datatype Primitives = Primitives(
    crc32: seq<byte> -> u32,
    compress: seq<byte> -> seq<byte>,
    decompress: seq<byte> -> Option<seq<byte>>,
    toJson: BodyRecord -> seq<byte>,
    fromJson: seq<byte> -> Option<BodyRecord>,
    sha256: seq<byte> -> string)
  {
    /** Decompression undoes compression and parsing undoes printing. */
    ghost predicate Sound() {
      && (forall b: seq<byte> {:trigger compress(b)} :: decompress(compress(b)) == Some(b))
      && (forall r: BodyRecord {:trigger toJson(r)} :: fromJson(toJson(r)) == Some(r))
    }
  }

  // ---------------------------------------------------------------- encoding

  function Payload(p: Primitives, record: BodyRecord, body: seq<byte>): seq<byte> {
    var metadata := p.toJson(record);
    BigEndian.Encode(|metadata|, 4) + metadata + body
  }

  function Compressed(p: Primitives, record: BodyRecord, body: seq<byte>): seq<byte> {
    p.compress(Payload(p, record, body))
  }

  function FrameBytes(p: Primitives, record: BodyRecord, body: seq<byte>): (s: seq<byte>)
    ensures |s| == HEADER_BYTES + |Compressed(p, record, body)|
  {
    var compressed := Compressed(p, record, body);
    RECORD_MAGIC
    + (BigEndian.Encode(|compressed|, 8)
    + (BigEndian.Encode(|Payload(p, record, body)|, 8)
    + (BigEndian.Encode(p.crc32(compressed), 4)
    + compressed)))
  }

  /** `written` is the record as serialised into the frame, `final` the record handed back to the caller. */
  datatype Settled = Settled(final: BodyRecord, written: BodyRecord)

  /** At most `rounds` attempts at a record whose `compressedBytes` is its own compressed size. */
  function Settle(p: Primitives, record: BodyRecord, body: seq<byte>, rounds: nat): Option<Settled>
    requires rounds > 0
    decreases rounds
  {
    if |p.toJson(record)| >= 0x1_0000_0000 then None
    else
      var size := |Compressed(p, record, body)|;
      if record.compressedBytes == size then Some(Settled(record, record))
      else if rounds == 1 then Some(Settled(record.(compressedBytes := size), record))
      else Settle(p, record.(compressedBytes := size), body, rounds - 1)
  }

  datatype Encoded = Encoded(record: BodyRecord, frame: seq<byte>)

  function EncodeResult(p: Primitives, record: BodyRecord, body: seq<byte>): Result<Encoded> {
    match Settle(p, record, body, 4)
    case None => Err("capture segment metadata exceeds u32")
    case Some(s) =>
      if |Compressed(p, s.written, body)| > RECORD_MAX_BYTES || |Payload(p, s.written, body)| > RECORD_MAX_BYTES
      then Err("capture segment record exceeds safety limit")
      else Ok(Encoded(s.final, FrameBytes(p, s.written, body)))
  }

  method EncodeSegmentFrame(p: Primitives, record: BodyRecord, body: seq<byte>) returns (r: Result<Encoded>)
    ensures r == EncodeResult(p, record, body)
  {
    var current, written := record, record;
    var round := 0;
    var settled := false;
    while round < 4 && !settled
      invariant 0 <= round <= 4
      invariant round == 0 ==> !settled
      invariant !settled && round < 4 ==> Settle(p, record, body, 4) == Settle(p, current, body, 4 - round)
      invariant settled || round == 4 ==> Settle(p, record, body, 4) == Some(Settled(current, written))
    {
      if |p.toJson(current)| >= 0x1_0000_0000 {
        return Err("capture segment metadata exceeds u32");
      }
      written := current;
      var size := |Compressed(p, current, body)|;
      if current.compressedBytes == size {
        settled := true;
      } else {
        current := current.(compressedBytes := size);
      }
      round := round + 1;
    }
    if |Compressed(p, written, body)| > RECORD_MAX_BYTES || |Payload(p, written, body)| > RECORD_MAX_BYTES {
      return Err("capture segment record exceeds safety limit");
    }
    return Ok(Encoded(current, FrameBytes(p, written, body)));
  }

  // ---------------------------------------------------------------- scanning

  function OpenPayload(p: Primitives, payload: seq<byte>): Result<SegmentFrame> {
    if |payload| < 4 then Err("capture segment payload length mismatch")
    else
      var metadataEnd := 4 + BigEndian.Decode(payload[..4]);
      if metadataEnd > |payload| then Err("capture segment metadata is incomplete")
      else
        match p.fromJson(payload[4..metadataEnd])
        case None => Err("json")
        case Some(record) =>
          var body := payload[metadataEnd..];
          if record.bodyBytes != |body| || record.bodySha256 != p.sha256(body)
          then Err("capture segment body integrity mismatch")
          else Ok(SegmentFrame(record, body))
  }

  function OpenFrame(p: Primitives, compressed: seq<byte>, payloadLen: nat, checksum: nat): Result<SegmentFrame> {
    if p.crc32(compressed) != checksum then Err("capture segment record checksum mismatch")
    else
      match p.decompress(compressed)
      case None => Err("zstd")
      case Some(payload) =>
        if |payload| != payloadLen then Err("capture segment payload length mismatch")
        else OpenPayload(p, payload)
  }

  /** One turn of the scan loop on the unread bytes `tail`. An exhausted file and a torn tail both
      leave the loop; `ScanFile` tells them apart. */
  function ParseFrame(p: Primitives, tail: seq<byte>): (r: Step<SegmentFrame, string>)
    ensures r.Good? ==> HEADER_BYTES <= r.size <= |tail|
  {
    if |tail| < HEADER_BYTES then NeedMore
    else if tail[..4] != RECORD_MAGIC then Bad("capture segment record magic mismatch")
    else
      var compressedLen := BigEndian.Decode(tail[4..12]);
      var payloadLen := BigEndian.Decode(tail[12..20]);
      var checksum := BigEndian.Decode(tail[20..24]);
      if compressedLen > RECORD_MAX_BYTES || payloadLen > RECORD_MAX_BYTES
      then Bad("capture segment record exceeds safety limit")
      else if |tail| - HEADER_BYTES < compressedLen then NeedMore
      else
        match OpenFrame(p, tail[24..24 + compressedLen], payloadLen, checksum)
        case Err(e) => Bad(e)
        case Ok(frame) => Good(frame, HEADER_BYTES + compressedLen)
  }

  function Parser(p: Primitives): (f: seq<byte> -> Step<SegmentFrame, string>)
    ensures Bounded(f)
  {
    (tail: seq<byte>) => ParseFrame(p, tail)
  }

  function TornMessage(tail: seq<byte>): string {
    if |tail| < HEADER_BYTES then "capture segment has incomplete record header"
    else "capture segment record body is incomplete"
  }

  /** What `scan_segment` returns and the bytes it leaves in the file. */
  datatype ScanOutcome = ScanOutcome(result: Result<seq<SegmentFrame>>, bytes: seq<byte>)

  function ScanFile(p: Primitives, bytes: seq<byte>, recoverTail: bool): ScanOutcome {
    if |bytes| < 8 then ScanOutcome(Err("capture segment header incomplete"), bytes)
    else if bytes[..8] != SEGMENT_MAGIC then ScanOutcome(Err("capture segment magic mismatch"), bytes)
    else
      var s := ScanAll(Parser(p), bytes[8..]);
      match s.status
      case Failed(e) => ScanOutcome(Err(e), bytes)
      case Waiting =>
        if recoverTail then ScanOutcome(Ok(s.frames), bytes[..8 + s.used])
        else if s.used == |bytes| - 8 then ScanOutcome(Ok(s.frames), bytes)
        else ScanOutcome(Err(TornMessage(bytes[8 + s.used..])), bytes)
  }

  class SegmentFile {
    var bytes: seq<byte>

    constructor (bytes: seq<byte>)
      ensures this.bytes == bytes
    {
      this.bytes := bytes;
    }

    method ScanSegment(p: Primitives, recoverTail: bool) returns (r: Result<seq<SegmentFrame>>)
      modifies this
      ensures r == ScanFile(p, old(bytes), recoverTail).result
      ensures bytes == ScanFile(p, old(bytes), recoverTail).bytes
    {
      if |bytes| < 8 {
        return Err("capture segment header incomplete");
      }
      if bytes[..8] != SEGMENT_MAGIC {
        return Err("capture segment magic mismatch");
      }
      var s := ReadFrames(Parser(p), bytes[8..]);
      if s.status.Failed? {
        return Err(s.status.error);
      }
      if s.used < |bytes| - 8 {
        if !recoverTail {
          return Err(TornMessage(bytes[8 + s.used..]));
        }
        bytes := bytes[..8 + s.used];
      }
      return Ok(s.frames);
    }
  }

  // ---------------------------------------------------------------- laws of the scan

  /** The segment scanner never takes an answer back, so the laws of incremental framing apply. */
  lemma ParserIncremental(p: Primitives)
    ensures Incremental(Parser(p)) && Parser(p)([]).NeedMore?
  {
    forall t: seq<byte>, more: seq<byte>
      ensures StableAt(Parser(p), t, more)
    {
      if !ParseFrame(p, t).NeedMore? {
        ParseFrameStable(p, t, more);
      }
    }
    forall t: seq<byte>
      ensures PromptAt(Parser(p), t)
    {
      if ParseFrame(p, t).Good? {
        ParseFramePrompt(p, t);
      }
    }
  }

  lemma ParseFrameStable(p: Primitives, t: seq<byte>, more: seq<byte>)
    requires !ParseFrame(p, t).NeedMore?
    ensures ParseFrame(p, t + more) == ParseFrame(p, t)
  {
    var u := t + more;
    assert u[..4] == t[..4] && u[4..12] == t[4..12] && u[12..20] == t[12..20] && u[20..24] == t[20..24];
    var compressedLen := BigEndian.Decode(t[4..12]);
    if compressedLen <= |t| - HEADER_BYTES {
      assert u[24..24 + compressedLen] == t[24..24 + compressedLen];
    }
  }

  lemma ParseFramePrompt(p: Primitives, t: seq<byte>)
    requires ParseFrame(p, t).Good?
    ensures ParseFrame(p, t[..ParseFrame(p, t).size]) == ParseFrame(p, t)
  {
    var size := ParseFrame(p, t).size;
    var u := t[..size];
    assert u[..4] == t[..4] && u[4..12] == t[4..12] && u[12..20] == t[12..20] && u[20..24] == t[20..24];
    assert u[24..size] == t[24..size];
  }

  /** Recovery is idempotent for any bytes at all: after a successful recovering scan, either kind of
      scan returns the same frames and leaves the file alone. */
  lemma RecoveryIdempotent(p: Primitives, bytes: seq<byte>, again: bool)
    requires ScanFile(p, bytes, true).result.Ok?
    ensures var first := ScanFile(p, bytes, true);
            ScanFile(p, first.bytes, again) == first
  {
    var s := ScanAll(Parser(p), bytes[8..]);
    ParserIncremental(p);
    KeptReadsTheSame(Parser(p), bytes[8..]);
    var kept := bytes[..8 + s.used];
    assert kept[..8] == bytes[..8] && kept[8..] == bytes[8..][..s.used];
    assert kept[..|kept|] == kept;
  }

  /** A read-only scan succeeds exactly on the files a recovering scan would accept unchanged. */
  lemma ReadOnlyScanIffNothingTorn(p: Primitives, bytes: seq<byte>)
    ensures ScanFile(p, bytes, false).result.Ok?
       <==> ScanFile(p, bytes, true).result.Ok? && ScanFile(p, bytes, true).bytes == bytes
    ensures ScanFile(p, bytes, false).result.Ok? ==> ScanFile(p, bytes, false) == ScanFile(p, bytes, true)
    ensures ScanFile(p, bytes, false).bytes == bytes
  {
  }

  /** What a payload must hold: the length of its metadata, the metadata, and a body of the length and hash the
      metadata gives. */
  ghost predicate GoodPayload(p: Primitives, payload: seq<byte>) {
    && |payload| >= 4
    && var end := 4 + BigEndian.Decode(payload[..4]);
       && end <= |payload|
       && p.fromJson(payload[4..end]).Some?
       && p.fromJson(payload[4..end]).value.bodyBytes == |payload| - end
       && p.fromJson(payload[4..end]).value.bodySha256 == p.sha256(payload[end..])
  }

  /** Exactly which bytes are taken for a frame: the magic, lengths of at most 512 MiB, as many bytes as they say,
      their checksum, a payload of the length they say, and in it a good body. A frame with its magic and lengths
      waits for its bytes; everything else is an error. */
  lemma AcceptedFrames(p: Primitives, tail: seq<byte>)
    requires |tail| >= 24
    ensures var size, length := BigEndian.Decode(tail[4..12]), BigEndian.Decode(tail[12..20]);
            var headed := tail[..4] == [0x52, 0x45, 0x43, 0x31] && size <= 536_870_912 && length <= 536_870_912;
            && (ParseFrame(p, tail).NeedMore? <==> headed && |tail| < 24 + size)
            && (ParseFrame(p, tail).Good? <==>
                  && headed && 24 + size <= |tail|
                  && p.crc32(tail[24..24 + size]) == BigEndian.Decode(tail[20..24])
                  && p.decompress(tail[24..24 + size]).Some?
                  && |p.decompress(tail[24..24 + size]).value| == length
                  && GoodPayload(p, p.decompress(tail[24..24 + size]).value))
  {
    var size := BigEndian.Decode(tail[4..12]);
    if 24 + size <= |tail| && p.decompress(tail[24..24 + size]).Some? {
      GoodPayloadOpens(p, p.decompress(tail[24..24 + size]).value);
    }
  }

  lemma GoodPayloadOpens(p: Primitives, payload: seq<byte>)
    ensures OpenPayload(p, payload).Ok? <==> GoodPayload(p, payload)
  {
  }

  /** The error of a read-only scan tells a cut header from a cut body. */
  lemma TornTailIsNamed(p: Primitives, bytes: seq<byte>)
    requires ScanFile(p, bytes, true).result.Ok? && ScanFile(p, bytes, true).bytes != bytes
    ensures var torn := |bytes| - |ScanFile(p, bytes, true).bytes|;
            ScanFile(p, bytes, false).result
            == Err(if torn < 24 then "capture segment has incomplete record header"
                   else "capture segment record body is incomplete")
  {
    assert bytes[..|bytes|] == bytes;
  }

  // ---------------------------------------------------------------- encoder against scanner

  /** What the writer guarantees of a frame it appends: sizes within the limits, and a record that
      describes its own body. */
  ghost predicate WellFormed(p: Primitives, f: SegmentFrame) {
    && |p.toJson(f.record)| < 0x1_0000_0000
    && |Compressed(p, f.record, f.body)| <= RECORD_MAX_BYTES
    && |Payload(p, f.record, f.body)| <= RECORD_MAX_BYTES
    && f.record.bodyBytes == |f.body|
    && f.record.bodySha256 == p.sha256(f.body)
  }

  lemma OpenPayloadInverts(p: Primitives, f: SegmentFrame)
    requires p.Sound() && WellFormed(p, f)
    ensures OpenPayload(p, Payload(p, f.record, f.body)) == Ok(f)
  {
    var metadata := p.toJson(f.record);
    var payload := Payload(p, f.record, f.body);
    BigEndian.Widths();
    BigEndian.RoundTrip(|metadata|, 4);
    assert payload[..4] == BigEndian.Encode(|metadata|, 4);
    assert payload[4..4 + |metadata|] == metadata;
    assert payload[4 + |metadata|..] == f.body;
  }

  lemma HeaderSlices(a: seq<byte>, b: seq<byte>, c: seq<byte>, d: seq<byte>, e: seq<byte>, after: seq<byte>)
    requires |a| == 4 && |b| == 8 && |c| == 8 && |d| == 4
    ensures var t := a + (b + (c + (d + e))) + after;
            && |t| >= 24 + |e|
            && t[..4] == a && t[4..12] == b && t[12..20] == c && t[20..24] == d && t[24..24 + |e|] == e
  {
  }

  lemma ParseFrameInverts(p: Primitives, f: SegmentFrame, after: seq<byte>)
    requires p.Sound() && WellFormed(p, f)
    ensures ParseFrame(p, FrameBytes(p, f.record, f.body) + after)
         == Good(f, |FrameBytes(p, f.record, f.body)|)
  {
    var compressed := Compressed(p, f.record, f.body);
    var payload := Payload(p, f.record, f.body);
    var tail := FrameBytes(p, f.record, f.body) + after;
    BigEndian.Widths();
    BigEndian.RoundTrip(|compressed|, 8);
    BigEndian.RoundTrip(|payload|, 8);
    BigEndian.RoundTrip(p.crc32(compressed), 4);
    HeaderSlices(RECORD_MAGIC, BigEndian.Encode(|compressed|, 8), BigEndian.Encode(|payload|, 8),
                 BigEndian.Encode(p.crc32(compressed), 4), compressed, after);
    OpenPayloadInverts(p, f);
  }

  /** Every frame the encoder accepts is one the scanner reads back: the same body, and the caller's
      record except that `compressedBytes` may be one attempt behind. The two agree on that field
      exactly when the last attempt settled. */
  lemma EncoderWritesWellFormedFrames(p: Primitives, record: BodyRecord, body: seq<byte>) returns (written: BodyRecord)
    requires EncodeResult(p, record, body).Ok?
    requires record.bodyBytes == |body| && record.bodySha256 == p.sha256(body)
    ensures WellFormed(p, SegmentFrame(written, body))
    ensures var e := EncodeResult(p, record, body).value;
            && e.frame == FrameBytes(p, written, body)
            && e.record.compressedBytes == |e.frame| - HEADER_BYTES
            && e.record == written.(compressedBytes := e.record.compressedBytes)
            && e.record == record.(compressedBytes := e.record.compressedBytes)
  {
    SettleFacts(p, record, body, 4);
    written := Settle(p, record, body, 4).value.written;
  }

  lemma {:induction false} SettleFacts(p: Primitives, record: BodyRecord, body: seq<byte>, rounds: nat)
    requires rounds > 0
    requires Settle(p, record, body, rounds).Some?
    ensures var s := Settle(p, record, body, rounds).value;
            && |p.toJson(s.written)| < 0x1_0000_0000
            && s.written == record.(compressedBytes := s.written.compressedBytes)
            && s.final == s.written.(compressedBytes := |Compressed(p, s.written, body)|)
    decreases rounds
  {
    var size := |Compressed(p, record, body)|;
    if record.compressedBytes != size && rounds > 1 {
      SettleFacts(p, record.(compressedBytes := size), body, rounds - 1);
    }
  }

  /** The record after `n` attempts: each takes the compressed size of the one before. */
  function Attempt(p: Primitives, record: BodyRecord, body: seq<byte>, n: nat): BodyRecord {
    if n == 0 then record
    else
      var before := Attempt(p, record, body, n - 1);
      before.(compressedBytes := |Compressed(p, before, body)|)
  }

  /** The record says its own compressed size. */
  predicate SaysOwnSize(p: Primitives, record: BodyRecord, body: seq<byte>) {
    record.compressedBytes == |Compressed(p, record, body)|
  }

  lemma {:induction false} AttemptShift(p: Primitives, record: BodyRecord, body: seq<byte>, n: nat)
    ensures Attempt(p, Attempt(p, record, body, 1), body, n) == Attempt(p, record, body, n + 1)
  {
    if n > 0 {
      AttemptShift(p, record, body, n - 1);
    }
  }

  /** An attempt that settled is the last: further ones would not change it. */
  lemma {:induction false} SettledStays(p: Primitives, record: BodyRecord, body: seq<byte>, n: nat)
    requires SaysOwnSize(p, record, body)
    ensures Attempt(p, record, body, n) == record
  {
    if n > 0 {
      SettledStays(p, record, body, n - 1);
    }
  }

  lemma {:induction false} SettleIsAttempt(p: Primitives, record: BodyRecord, body: seq<byte>, rounds: nat)
    requires rounds > 0 && Settle(p, record, body, rounds).Some?
    ensures Settle(p, record, body, rounds).value.written == Attempt(p, record, body, rounds - 1)
    decreases rounds
  {
    if SaysOwnSize(p, record, body) {
      SettledStays(p, record, body, rounds - 1);
    } else if rounds > 1 {
      var next := record.(compressedBytes := |Compressed(p, record, body)|);
      assert next == Attempt(p, record, body, 1);
      SettleIsAttempt(p, next, body, rounds - 1);
      AttemptShift(p, record, body, rounds - 2);
    }
  }

  /** The record in an encoded frame says its own compressed size, and is the record handed back, if and only
      if the fourth attempt does, which it does as soon as an earlier one did. */
  lemma FrameSaysOwnSizeIff(p: Primitives, record: BodyRecord, body: seq<byte>, k: nat)
    requires Settle(p, record, body, 4).Some?
    ensures var s := Settle(p, record, body, 4).value;
            && (SaysOwnSize(p, s.written, body) <==> SaysOwnSize(p, Attempt(p, record, body, 3), body))
            && (s.final == s.written <==> SaysOwnSize(p, s.written, body))
    ensures k <= 3 && SaysOwnSize(p, Attempt(p, record, body, k), body) ==>
              SaysOwnSize(p, Settle(p, record, body, 4).value.written, body)
  {
    SettleIsAttempt(p, record, body, 4);
    SettleFacts(p, record, body, 4);
    if k <= 3 && SaysOwnSize(p, Attempt(p, record, body, k), body) {
      AttemptsStaySettled(p, record, body, k, 3);
    }
  }

  /** The frame holds the fourth attempt and the caller gets what a fifth would be. */
  lemma EncodedIsFourthAttempt(p: Primitives, record: BodyRecord, body: seq<byte>)
    requires EncodeResult(p, record, body).Ok?
    ensures var e := EncodeResult(p, record, body).value;
            e.frame == FrameBytes(p, Attempt(p, record, body, 3), body) && e.record == Attempt(p, record, body, 4)
  {
    SettledIs(p, record, body);
  }

  lemma SettledIs(p: Primitives, record: BodyRecord, body: seq<byte>)
    requires Settle(p, record, body, 4).Some?
    ensures Settle(p, record, body, 4).value == Settled(Attempt(p, record, body, 4), Attempt(p, record, body, 3))
  {
    SettleIsAttempt(p, record, body, 4);
    SettleFacts(p, record, body, 4);
  }

  /** Metadata of 4 GiB at one of the first `rounds` attempts. */
  ghost predicate MetadataTooLong(p: Primitives, record: BodyRecord, body: seq<byte>, rounds: nat) {
    exists k: nat :: k < rounds && |p.toJson(Attempt(p, record, body, k))| >= 0x1_0000_0000
  }

  lemma MetadataShift(p: Primitives, record: BodyRecord, body: seq<byte>, rounds: nat)
    requires |p.toJson(record)| < 0x1_0000_0000
    ensures MetadataTooLong(p, record, body, rounds + 1) <==>
              MetadataTooLong(p, Attempt(p, record, body, 1), body, rounds)
  {
    var next := Attempt(p, record, body, 1);
    if MetadataTooLong(p, record, body, rounds + 1) {
      var k: nat :| k < rounds + 1 && |p.toJson(Attempt(p, record, body, k))| >= 0x1_0000_0000;
      AttemptShift(p, record, body, k - 1);
      assert Attempt(p, next, body, k - 1) == Attempt(p, record, body, k);
    }
    if MetadataTooLong(p, next, body, rounds) {
      var k: nat :| k < rounds && |p.toJson(Attempt(p, next, body, k))| >= 0x1_0000_0000;
      AttemptShift(p, record, body, k);
      assert Attempt(p, next, body, k) == Attempt(p, record, body, k + 1);
    }
  }

  /** Encoding fails for its metadata exactly when that reaches 4 GiB at some attempt. */
  lemma {:induction false} SettleFailsIff(p: Primitives, record: BodyRecord, body: seq<byte>, rounds: nat)
    requires rounds > 0
    ensures Settle(p, record, body, rounds).None? <==> MetadataTooLong(p, record, body, rounds)
    decreases rounds
  {
    assert Attempt(p, record, body, 0) == record;
    if |p.toJson(record)| < 0x1_0000_0000 {
      if SaysOwnSize(p, record, body) {
        forall k: nat
          ensures Attempt(p, record, body, k) == record
        {
          SettledStays(p, record, body, k);
        }
      } else if rounds > 1 {
        assert Attempt(p, record, body, 1) == record.(compressedBytes := |Compressed(p, record, body)|);
        MetadataShift(p, record, body, rounds - 1);
        SettleFailsIff(p, Attempt(p, record, body, 1), body, rounds - 1);
      }
    }
  }

  /** What the encoder refuses, and why: metadata of 4 GiB at one of the four attempts, or a payload, as it is or
      compressed, of more than 512 MiB at the last. */
  lemma RefusedRecords(p: Primitives, record: BodyRecord, body: seq<byte>)
    ensures var r, last := EncodeResult(p, record, body), Attempt(p, record, body, 3);
            var long := MetadataTooLong(p, record, body, 4);
            var large := |Compressed(p, last, body)| > 536_870_912 || |Payload(p, last, body)| > 536_870_912;
            && (long ==> r == Err("capture segment metadata exceeds u32"))
            && (!long && large ==> r == Err("capture segment record exceeds safety limit"))
            && (!long && !large ==> r.Ok?)
  {
    SettleFailsIff(p, record, body, 4);
    if Settle(p, record, body, 4).Some? {
      SettleIsAttempt(p, record, body, 4);
    }
  }

  lemma {:induction false} AttemptsStaySettled(p: Primitives, record: BodyRecord, body: seq<byte>, k: nat, n: nat)
    requires k <= n && SaysOwnSize(p, Attempt(p, record, body, k), body)
    ensures Attempt(p, record, body, n) == Attempt(p, record, body, k)
    decreases n
  {
    if k < n {
      AttemptsStaySettled(p, record, body, k, n - 1);
    }
  }

  /** The layout of a frame: magic, three lengths and checksums, and the compressed payload, which begins with
      the length of the metadata. */
  lemma FrameLayout(p: Primitives, f: SegmentFrame)
    requires WellFormed(p, f)
    ensures var frame, compressed := FrameBytes(p, f.record, f.body), Compressed(p, f.record, f.body);
            && |frame| == 24 + |compressed|
            && frame[..4] == [0x52, 0x45, 0x43, 0x31]
            && BigEndian.Decode(frame[4..12]) == |compressed|
            && BigEndian.Decode(frame[12..20]) == 4 + |p.toJson(f.record)| + |f.body|
            && BigEndian.Decode(frame[20..24]) == p.crc32(compressed)
            && frame[24..] == compressed
  {
    var compressed, payload := Compressed(p, f.record, f.body), Payload(p, f.record, f.body);
    var frame := FrameBytes(p, f.record, f.body);
    BigEndian.Widths();
    BigEndian.RoundTrip(|compressed|, 8);
    BigEndian.RoundTrip(|payload|, 8);
    BigEndian.RoundTrip(p.crc32(compressed), 4);
    HeaderSlices(RECORD_MAGIC, BigEndian.Encode(|compressed|, 8), BigEndian.Encode(|payload|, 8),
                 BigEndian.Encode(p.crc32(compressed), 4), compressed, []);
    assert frame + [] == frame && frame[24..24 + |compressed|] == frame[24..];
  }

  function EncodeAll(p: Primitives, fs: seq<SegmentFrame>): seq<byte> {
    if fs == [] then [] else FrameBytes(p, fs[0].record, fs[0].body) + EncodeAll(p, fs[1..])
  }

  ghost predicate AllWellFormed(p: Primitives, fs: seq<SegmentFrame>) {
    forall f | f in fs :: WellFormed(p, f)
  }

  /** On written frames the scanner reads exactly those frames and waits for more. */
  lemma {:induction false} ScanReadsWritten(p: Primitives, fs: seq<SegmentFrame>)
    requires p.Sound() && AllWellFormed(p, fs)
    ensures ScanAll(Parser(p), EncodeAll(p, fs)) == Scan(fs, |EncodeAll(p, fs)|, Waiting)
  {
    if fs != [] {
      var first, more := FrameBytes(p, fs[0].record, fs[0].body), EncodeAll(p, fs[1..]);
      ParseFrameInverts(p, fs[0], more);
      ScanReadsWritten(p, fs[1..]);
      ScanCons(Parser(p), first, fs[0], more);
      assert [fs[0]] + fs[1..] == fs;
    }
  }

  lemma ScanCons(parse: seq<byte> -> Step<SegmentFrame, string>, first: seq<byte>, f: SegmentFrame, more: seq<byte>)
    requires Bounded(parse) && parse(first + more) == Good(f, |first|)
    ensures ScanAll(parse, first + more) == ScanAll(parse, more).After([f], |first|)
  {
  }

  /** Torn-tail recovery. However a written segment is cut at or after its magic, a recovering scan
      returns exactly the frames written in full and truncates the file to their end. */
  lemma CutRecoversWholeFrames(p: Primitives, fs: seq<SegmentFrame>, cut: nat) returns (whole: nat)
    requires p.Sound() && AllWellFormed(p, fs)
    requires 8 <= cut <= 8 + |EncodeAll(p, fs)|
    ensures whole <= |fs|
    ensures 8 + |EncodeAll(p, fs[..whole])| <= cut
    ensures whole < |fs| ==> cut < 8 + |EncodeAll(p, fs[..whole + 1])|
    ensures ScanFile(p, (SEGMENT_MAGIC + EncodeAll(p, fs))[..cut], true)
         == ScanOutcome(Ok(fs[..whole]), SEGMENT_MAGIC + EncodeAll(p, fs[..whole]))
  {
    whole := SplitAtCut(p, fs, cut - 8);
    var kept := EncodeAll(p, fs[..whole]);
    EncodeAllSplits(p, fs, whole);
    var leftover := CutBehind(kept, EncodeAll(p, fs[whole..]), cut);
    ScanReadsWritten(p, fs[..whole]);
    LeftoverIsIncomplete(p, fs, whole, |leftover|);
    RecoverDropsLeftover(p, fs[..whole], kept, leftover);
  }

  lemma CutBehind(kept: seq<byte>, rest: seq<byte>, cut: nat) returns (leftover: seq<byte>)
    requires 8 + |kept| <= cut <= 8 + |kept| + |rest|
    ensures leftover == rest[..cut - 8 - |kept|]
    ensures (SEGMENT_MAGIC + (kept + rest))[..cut] == SEGMENT_MAGIC + (kept + leftover)
  {
    leftover := rest[..cut - 8 - |kept|];
    assert (kept + rest)[..cut - 8] == kept + leftover;
    assert (SEGMENT_MAGIC + (kept + rest))[..cut] == SEGMENT_MAGIC + (kept + rest)[..cut - 8];
  }

  lemma RecoverDropsLeftover(p: Primitives, fs: seq<SegmentFrame>, kept: seq<byte>, leftover: seq<byte>)
    requires ScanAll(Parser(p), kept) == Scan(fs, |kept|, Waiting)
    requires ParseFrame(p, leftover).NeedMore?
    ensures ScanFile(p, SEGMENT_MAGIC + (kept + leftover), true) == ScanOutcome(Ok(fs), SEGMENT_MAGIC + kept)
  {
    ParserIncremental(p);
    IncompleteTailWaits(Parser(p), fs, kept, leftover);
    RecoveredFile(p, kept + leftover);
    assert (kept + leftover)[..|kept|] == kept;
  }

  lemma RecoveredFile(p: Primitives, tail: seq<byte>)
    requires ScanAll(Parser(p), tail).status.Waiting?
    ensures var s := ScanAll(Parser(p), tail);
            ScanFile(p, SEGMENT_MAGIC + tail, true) == ScanOutcome(Ok(s.frames), SEGMENT_MAGIC + tail[..s.used])
  {
  }

  /** A proper part of the next frame is never mistaken for a frame. */
  lemma LeftoverIsIncomplete(p: Primitives, fs: seq<SegmentFrame>, whole: nat, cut: nat)
    requires p.Sound() && AllWellFormed(p, fs)
    requires whole <= |fs| && cut <= |EncodeAll(p, fs[whole..])|
    requires whole < |fs| ==> cut < |EncodeAll(p, fs[..whole + 1])| - |EncodeAll(p, fs[..whole])|
    ensures ParseFrame(p, EncodeAll(p, fs[whole..])[..cut]).NeedMore?
  {
    if whole < |fs| {
      var next := fs[whole];
      EncodeAllSnoc(p, fs[..whole], next);
      assert fs[..whole] + [next] == fs[..whole + 1];
      assert EncodeAll(p, fs[whole..])[..cut] == FrameBytes(p, next.record, next.body)[..cut];
      PartIsIncomplete(p, next, cut);
    }
  }

  lemma PartIsIncomplete(p: Primitives, f: SegmentFrame, cut: nat)
    requires p.Sound() && WellFormed(p, f) && cut < |FrameBytes(p, f.record, f.body)|
    ensures ParseFrame(p, FrameBytes(p, f.record, f.body)[..cut]).NeedMore?
  {
    var frame := FrameBytes(p, f.record, f.body);
    assert frame + [] == frame == frame[..cut] + frame[cut..];
    ParseFrameInverts(p, f, []);
    if !ParseFrame(p, frame[..cut]).NeedMore? {
      ParseFrameStable(p, frame[..cut], frame[cut..]);
    }
  }

  lemma {:induction false} EncodeAllSplits(p: Primitives, fs: seq<SegmentFrame>, n: nat)
    requires n <= |fs|
    ensures EncodeAll(p, fs) == EncodeAll(p, fs[..n]) + EncodeAll(p, fs[n..])
  {
    if n == 0 {
      assert fs[..n] == [] && fs[n..] == fs;
    } else {
      EncodeAllSplits(p, fs[1..], n - 1);
      assert fs[..n][1..] == fs[1..][..n - 1] && fs[1..][n - 1..] == fs[n..];
      Assoc(FrameBytes(p, fs[0].record, fs[0].body), EncodeAll(p, fs[..n][1..]), EncodeAll(p, fs[n..]));
    }
  }

  lemma EncodeAllSnoc(p: Primitives, fs: seq<SegmentFrame>, f: SegmentFrame)
    ensures EncodeAll(p, fs + [f]) == EncodeAll(p, fs) + FrameBytes(p, f.record, f.body)
  {
    EncodeAllSplits(p, fs + [f], |fs|);
    assert (fs + [f])[..|fs|] == fs && (fs + [f])[|fs|..] == [f];
    assert EncodeAll(p, [f]) == FrameBytes(p, f.record, f.body);
  }

  lemma {:induction false} SplitAtCut(p: Primitives, fs: seq<SegmentFrame>, cut: nat) returns (whole: nat)
    requires cut <= |EncodeAll(p, fs)|
    ensures whole <= |fs|
    ensures |EncodeAll(p, fs[..whole])| <= cut
    ensures whole < |fs| ==> cut < |EncodeAll(p, fs[..whole + 1])|
  {
    whole := 0;
    while whole < |fs| && |EncodeAll(p, fs[..whole + 1])| <= cut
      invariant whole <= |fs|
      invariant |EncodeAll(p, fs[..whole])| <= cut
    {
      whole := whole + 1;
    }
  }

  /** On an uncut file the scan inverts the encoder, with or without recovery. */
  lemma ScanInvertsEncodeAll(p: Primitives, fs: seq<SegmentFrame>, recoverTail: bool)
    requires p.Sound() && AllWellFormed(p, fs)
    ensures var file := SEGMENT_MAGIC + EncodeAll(p, fs);
            ScanFile(p, file, recoverTail) == ScanOutcome(Ok(fs), file)
  {
    var file := SEGMENT_MAGIC + EncodeAll(p, fs);
    assert file[8..] == EncodeAll(p, fs);
    ScanReadsWritten(p, fs);
  }

  /** A crash, a recovery and further appends: every whole frame from before and after is read back. */
  lemma AppendAfterRecovery(p: Primitives, before: seq<SegmentFrame>, cut: nat, later: seq<SegmentFrame>)
      returns (whole: nat)
    requires p.Sound() && AllWellFormed(p, before) && AllWellFormed(p, later)
    requires 8 <= cut <= 8 + |EncodeAll(p, before)|
    ensures whole <= |before|
    ensures whole < |before| ==> cut < 8 + |EncodeAll(p, before[..whole + 1])|
    ensures var recovered := ScanFile(p, (SEGMENT_MAGIC + EncodeAll(p, before))[..cut], true).bytes;
            ScanFile(p, recovered + EncodeAll(p, later), false).result == Ok(before[..whole] + later)
  {
    whole := CutRecoversWholeFrames(p, before, cut);
    var all := before[..whole] + later;
    EncodeAllSplits(p, all, whole);
    assert all[..whole] == before[..whole] && all[whole..] == later;
    Assoc(SEGMENT_MAGIC, EncodeAll(p, before[..whole]), EncodeAll(p, later));
    ScanInvertsEncodeAll(p, all, false);
  }

  /** A file reads to its end: the magic, then nothing but whole frames. */
  lemma ReadOnlyScan(p: Primitives, bytes: seq<byte>, fs: seq<SegmentFrame>)
    ensures ScanFile(p, bytes, false).result == Ok(fs)
       <==> && |bytes| >= 8 && bytes[..8] == SEGMENT_MAGIC
            && ScanAll(Parser(p), bytes[8..]) == Scan(fs, |bytes| - 8, Waiting)
  {
  }

  lemma FrameEncodes(p: Primitives, f: SegmentFrame)
    requires p.Sound() && WellFormed(p, f)
    ensures Encodes(Parser(p), FrameBytes(p, f.record, f.body), f)
  {
    forall more: seq<byte>
      ensures Parser(p)(FrameBytes(p, f.record, f.body) + more) == Good(f, |FrameBytes(p, f.record, f.body)|)
    {
      ParseFrameInverts(p, f, more);
    }
  }

  /** Appending one written frame to a file that scans adds exactly that frame. */
  lemma AppendScans(p: Primitives, bytes: seq<byte>, fs: seq<SegmentFrame>, f: SegmentFrame)
    requires p.Sound() && WellFormed(p, f)
    requires ScanFile(p, bytes, false).result == Ok(fs)
    ensures ScanFile(p, bytes + FrameBytes(p, f.record, f.body), false).result == Ok(fs + [f])
  {
    var frame := FrameBytes(p, f.record, f.body);
    ParserIncremental(p);
    FrameEncodes(p, f);
    ReadOnlyScan(p, bytes, fs);
    AppendedFrameReads(Parser(p), bytes[8..], fs, frame, f);
    GrownFileReads(p, bytes, frame, fs + [f]);
  }

  lemma GrownFileReads(p: Primitives, bytes: seq<byte>, more: seq<byte>, fs: seq<SegmentFrame>)
    requires |bytes| >= 8 && bytes[..8] == SEGMENT_MAGIC
    requires ScanAll(Parser(p), bytes[8..] + more) == Scan(fs, |bytes| - 8 + |more|, Waiting)
    ensures ScanFile(p, bytes + more, false).result == Ok(fs)
  {
    GrownFileSlices(bytes, more);
    ReadOnlyScan(p, bytes + more, fs);
  }

  lemma GrownFileSlices(bytes: seq<byte>, more: seq<byte>)
    requires |bytes| >= 8
    ensures (bytes + more)[..8] == bytes[..8] && (bytes + more)[8..] == bytes[8..] + more
  {
  }

  /** Every frame a scan returns carries the checksum of its own body. */
  lemma {:induction false} ScannedBodiesMatch(p: Primitives, tail: seq<byte>)
    ensures forall f | f in ScanAll(Parser(p), tail).frames :: f.record.bodySha256 == p.sha256(f.body)
    decreases |tail|
  {
    var step := Parser(p)(tail);
    if step.Good? {
      ScannedBodiesMatch(p, tail[step.size..]);
    }
  }

  // ---------------------------------------------------------------- writes cut short

  /** A proper part of a frame is never mistaken for a frame. */
  lemma TornPieceWaits(p: Primitives, f: SegmentFrame, cut: nat)
    requires p.Sound() && WellFormed(p, f) && cut < |FrameBytes(p, f.record, f.body)|
    ensures ParseFrame(p, FrameBytes(p, f.record, f.body)[..cut]).NeedMore?
  {
    var frame := FrameBytes(p, f.record, f.body);
    assert frame + [] == frame == frame[..cut] + frame[cut..];
    ParseFrameInverts(p, f, []);
    if !ParseFrame(p, frame[..cut]).NeedMore? {
      ParseFrameStable(p, frame[..cut], frame[cut..]);
    }
  }

  /** Whatever follows a file that scans, except something that reads as a frame: a read-only scan
      fails, and a recovering scan gives back the file and its frames exactly when the parser waits
      for more. */
  lemma UnreadableTail(p: Primitives, bytes: seq<byte>, fs: seq<SegmentFrame>, tail: seq<byte>)
    requires ScanFile(p, bytes, false).result == Ok(fs) && tail != [] && !ParseFrame(p, tail).Good?
    ensures ScanFile(p, bytes + tail, false).result.Err?
    ensures ParseFrame(p, tail).NeedMore? ==> ScanFile(p, bytes + tail, true) == ScanOutcome(Ok(fs), bytes)
    ensures ParseFrame(p, tail).Bad? ==> forall recoverTail ::
              ScanFile(p, bytes + tail, recoverTail) == ScanOutcome(Err(ParseFrame(p, tail).error), bytes + tail)
  {
    ReadOnlyScan(p, bytes, fs);
    ParserIncremental(p);
    GrownFileSlices(bytes, tail);
    var kept := bytes[8..];
    ScanResumes(Parser(p), kept, tail);
    assert kept[|kept|..] + tail == tail;
    assert fs + [] == fs;
    assert (bytes + tail)[..|bytes|] == bytes;
    assert bytes + tail != bytes by { assert |bytes + tail| > |bytes|; }
  }

  /** A write cut short as the last thing in a file: unreadable until recovery, which removes exactly
      the torn bytes and returns every frame written before. */
  lemma TornWriteRecovers(p: Primitives, bytes: seq<byte>, fs: seq<SegmentFrame>, f: SegmentFrame, cut: nat)
    requires p.Sound() && WellFormed(p, f) && 0 < cut < |FrameBytes(p, f.record, f.body)|
    requires ScanFile(p, bytes, false).result == Ok(fs)
    ensures var torn := bytes + FrameBytes(p, f.record, f.body)[..cut];
            ScanFile(p, torn, false).result.Err? && ScanFile(p, torn, true) == ScanOutcome(Ok(fs), bytes)
  {
    TornPieceWaits(p, f, cut);
    UnreadableTail(p, bytes, fs, FrameBytes(p, f.record, f.body)[..cut]);
  }

  lemma FrameStartsWithMagic(p: Primitives, f: SegmentFrame)
    ensures RECORD_MAGIC <= FrameBytes(p, f.record, f.body)
  {
  }

  /** A frame behind the first one, two or three bytes of another reads as a wrong magic. */
  lemma TornMagicIsBad(p: Primitives, f: SegmentFrame, cut: nat, g: SegmentFrame, after: seq<byte>)
    requires 1 <= cut <= 3
    ensures ParseFrame(p, FrameBytes(p, f.record, f.body)[..cut] + (FrameBytes(p, g.record, g.body) + after))
         == Bad("capture segment record magic mismatch")
  {
    FrameStartsWithMagic(p, f);
    FrameStartsWithMagic(p, g);
    var piece, behind := FrameBytes(p, f.record, f.body)[..cut], FrameBytes(p, g.record, g.body) + after;
    assert piece == RECORD_MAGIC[..cut];
    assert behind[..4] == RECORD_MAGIC;
    assert (piece + behind)[cut] == behind[0] == 0x52;
    assert RECORD_MAGIC[cut] != 0x52;
    assert (piece + behind)[..4][cut] != RECORD_MAGIC[cut];
  }

  /** Frames behind a torn write are lost to every scan: behind a torn magic the whole file stops
      reading, and behind a whole header recovery takes what follows for the rest of the torn body and
      cuts it off. */
  lemma FramesBehindTearAreLost(
      p: Primitives, bytes: seq<byte>, fs: seq<SegmentFrame>, f: SegmentFrame, cut: nat, g: SegmentFrame)
    requires p.Sound() && WellFormed(p, f) && 0 < cut < |FrameBytes(p, f.record, f.body)|
    requires ScanFile(p, bytes, false).result == Ok(fs)
    ensures var piece, behind := FrameBytes(p, f.record, f.body)[..cut], FrameBytes(p, g.record, g.body);
            var file := bytes + (piece + behind);
            && (cut <= 3 ==> forall recoverTail ::
                  ScanFile(p, file, recoverTail).result == Err("capture segment record magic mismatch"))
            && (HEADER_BYTES <= cut && cut + |behind| < |FrameBytes(p, f.record, f.body)| ==>
                  ScanFile(p, file, true) == ScanOutcome(Ok(fs), bytes))
  {
    var frame, behind := FrameBytes(p, f.record, f.body), FrameBytes(p, g.record, g.body);
    var tail := frame[..cut] + behind;
    if cut <= 3 {
      assert behind + [] == behind;
      TornMagicIsBad(p, f, cut, g, []);
      UnreadableTail(p, bytes, fs, tail);
    } else if HEADER_BYTES <= cut && cut + |behind| < |frame| {
      TornHeaderWaits(p, f, cut, behind);
      UnreadableTail(p, bytes, fs, tail);
    }
  }

  /** With a whole header in place, the parser waits until the torn body would be complete. */
  lemma TornHeaderWaits(p: Primitives, f: SegmentFrame, cut: nat, more: seq<byte>)
    requires WellFormed(p, f) && HEADER_BYTES <= cut && cut + |more| < |FrameBytes(p, f.record, f.body)|
    ensures ParseFrame(p, FrameBytes(p, f.record, f.body)[..cut] + more).NeedMore?
  {
    var compressed, payload := Compressed(p, f.record, f.body), Payload(p, f.record, f.body);
    var frame := FrameBytes(p, f.record, f.body);
    var tail := frame[..cut] + more;
    BigEndian.Widths();
    BigEndian.RoundTrip(|compressed|, 8);
    BigEndian.RoundTrip(|payload|, 8);
    HeaderSlices(RECORD_MAGIC, BigEndian.Encode(|compressed|, 8), BigEndian.Encode(|payload|, 8),
                 BigEndian.Encode(p.crc32(compressed), 4), compressed, []);
    assert frame + [] == frame;
    assert tail[..4] == frame[..4] && tail[4..12] == frame[4..12] && tail[12..20] == frame[12..20];
  }
}
