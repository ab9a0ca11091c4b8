/**
 The segment writer: which file a captured record is appended to, when a new one is started, and what
 every file then holds, whatever the timestamps and wherever an operation fails.
 */
module Rotation {
  import opened Common
  import opened Days
  import opened SegmentLog

  const SEGMENT_MAX_BYTES: nat := 64 * 1024 * 1024

  datatype Storage = Archive | Spool

  datatype Path = Path(storage: Storage, date: Date, bucket: int, sequence: nat)

  /** What the writer takes from its surroundings. */
  datatype Env = Env(p: Primitives, calendar: int -> Date, render: Path -> string)

  /** The first write cut short in a file: the bytes and whole frames before it, and whether anything
      was written behind it. */
  datatype Tear = Tear(at: nat, kept: nat, buried: bool)

  /** A file's bytes, and beside them its history: the frames whose writes completed, the number of
      writes that left anything behind, the first of them cut short, the frames a recovering scan found
      (after which nobody writes to it), and whether it has its manifest. */
  datatype Segment = Segment(
    bytes: seq<byte>, frames: seq<SegmentFrame>, writes: nat, tear: Option<Tear>,
    recovered: Option<seq<SegmentFrame>>, isSealed: bool)

  const NewSegment := Segment(SEGMENT_MAGIC, [], 0, None, None, false)

  /** A segment whose magic may have been cut short. */
  function Started(written: nat): Segment { NewSegment.(bytes := SEGMENT_MAGIC[..Min(written, |SEGMENT_MAGIC|)]) }

  /** The whole magic is there. */
  predicate Whole(s: Segment) { |s.bytes| >= |SEGMENT_MAGIC| }

  datatype Active = Active(path: Path, storage: Storage, bucket: int, lastWrite: int)

  datatype Writer = Writer(active: Option<Active>, segments: map<Path, Segment>, nextId: nat)

  const Initial := Writer(None, map[], 0)

  /** How creating a segment ends: well, before its file exists, or with a file that holds the first
      `written` bytes of the magic, all of them when only a later step failed. */
  datatype Creation = Created | NoFile | FileOnly(written: nat)

  /** Where sealing meets an I/O failure: nowhere, before its scan, or between truncation and manifest. */
  datatype SealFault = NoFault | BeforeScan | AfterScan

  /** The failures one append can meet, in the order it meets them; `cut` is the length of a write that
      stops short. */
  datatype Faults = Faults(seal: SealFault, create: Creation, seal2: SealFault, create2: Creation, cut: Option<nat>)

  datatype Outcome = Outcome(writer: Writer, record: Result<BodyRecord>)

  // ---------------------------------------------------------------- specification

  function Name(storage: Storage): string {
    if storage == Archive then "archive_segment" else "spool_segment"
  }

  function Placed(e: Env, record: BodyRecord, path: Path): BodyRecord {
    record.(archivePath := e.render(path), storage := Name(path.storage))
  }

  function PathFor(e: Env, storage: Storage, bucket: int, sequence: nat): Path {
    Path(storage, DateParts(e.calendar, DayFloor(bucket)), bucket, sequence)
  }

  /** `segment_would_exceed_limit`, on saturating 64-bit sizes. */
  function WouldExceed(existing: nat, frame: nat): bool {
    existing > |SEGMENT_MAGIC| && Min(existing + frame, U64_MAX) > SEGMENT_MAX_BYTES
  }

  function Create(e: Env, w: Writer, storage: Storage, bucket: int, creation: Creation): Writer {
    var path := PathFor(e, storage, bucket, w.nextId);
    match creation
    case NoFile => Writer(None, w.segments, w.nextId + 1)
    case FileOnly(written) => Writer(None, w.segments[path := Started(written)], w.nextId + 1)
    case Created => Writer(Some(Active(path, storage, bucket, bucket)), w.segments[path := NewSegment], w.nextId + 1)
  }

  datatype Sealing = Sealing(segment: Segment, ok: bool)

  /** `seal_segment`: scan with recovery, which truncates a torn tail, then write the manifest. A scan
      that fails leaves the file as it is. */
  function Seal(e: Env, s: Segment, fault: SealFault): Sealing {
    var scan := ScanFile(e.p, s.bytes, true);
    if fault == BeforeScan || scan.result.Err? then Sealing(s, false)
    else Sealing(s.(bytes := scan.bytes, recovered := Some(scan.result.value),
                    isSealed := s.isSealed || fault == NoFault),
                 fault == NoFault)
  }

  /** Give up the active segment, sealing it as far as that goes. */
  function LetGo(e: Env, w: Writer, fault: SealFault): Writer
    requires ActiveExists(w)
  {
    if w.active.None? then w
    else
      var path := w.active.value.path;
      Writer(None, w.segments[path := Seal(e, w.segments[path], fault).segment], w.nextId)
  }

  function SealOk(e: Env, w: Writer, fault: SealFault): bool
    requires ActiveExists(w)
  {
    w.active.Some? ==> Seal(e, w.segments[w.active.value.path], fault).ok
  }

  /** Give up the active segment and start another; without an active segment in the result it failed. */
  function Rotated(e: Env, w: Writer, storage: Storage, bucket: int, fault: SealFault, creation: Creation): Writer
    requires ActiveExists(w)
  {
    if SealOk(e, w, fault) then Create(e, LetGo(e, w, fault), storage, bucket, creation) else LetGo(e, w, fault)
  }

  /** A write that leaves `n` bytes of the frame in the file. */
  function GrownBy(s: Segment, frame: seq<byte>, content: SegmentFrame, n: nat): Segment
    requires n <= |frame|
  {
    if n == 0 then s
    else
      var tear := if s.tear.Some? then Some(s.tear.value.(buried := true))
                  else if n < |frame| then Some(Tear(|s.bytes|, |s.frames|, false)) else None;
      s.(bytes := s.bytes + frame[..n], frames := if n == |frame| then s.frames + [content] else s.frames,
         writes := s.writes + 1, tear := tear)
  }

  function Grown(s: Segment, frame: seq<byte>, content: SegmentFrame, cut: Option<nat>): Segment {
    GrownBy(s, frame, content, if cut.None? then |frame| else Min(cut.value, |frame|))
  }

  /** The record as it is serialised into its frame. */
  function Written(e: Env, record: BodyRecord, body: seq<byte>): BodyRecord
    requires EncodeResult(e.p, record, body).Ok?
  {
    Settle(e.p, record, body, 4).value.written
  }

  function Write(e: Env, w: Writer, record: BodyRecord, body: seq<byte>, cut: Option<nat>): Outcome
    requires w.active.Some? && w.active.value.path in w.segments && EncodeResult(e.p, record, body).Ok?
  {
    var active, encoded := w.active.value, EncodeResult(e.p, record, body).value;
    var grown := Grown(w.segments[active.path], encoded.frame, SegmentFrame(Written(e, record, body), body), cut);
    if cut.None?
    then Outcome(Writer(Some(active.(lastWrite := record.observedAt)), w.segments[active.path := grown], w.nextId),
                 Ok(encoded.record))
    else Outcome(w.(segments := w.segments[active.path := grown]), Err("write failed"))
  }

  function StorageFor(archiveAvailable: bool): Storage { if archiveAvailable then Archive else Spool }

  /** The active segment is the one this record belongs to. */
  predicate Matches(w: Writer, storage: Storage, bucket: int) {
    w.active.Some? && w.active.value.storage == storage && w.active.value.bucket == bucket
  }

  ghost predicate ActiveExists(w: Writer) { w.active.Some? ==> w.active.value.path in w.segments }

  /** Write to the segment just started; when the record does not encode, that segment is let go. */
  function AppendFresh(e: Env, w: Writer, record: BodyRecord, body: seq<byte>, cut: Option<nat>): Outcome
    requires ActiveExists(w)
  {
    if w.active.None? then Outcome(w, Err("rotation failed"))
    else
      var placed := Placed(e, record, w.active.value.path);
      var encoded := EncodeResult(e.p, placed, body);
      if encoded.Err? then Outcome(w.(active := None), Err(encoded.error)) else Write(e, w, placed, body, cut)
  }

  /** Write to the active segment, or to a new one when it is full. */
  function AppendTo(e: Env, w: Writer, record: BodyRecord, body: seq<byte>, storage: Storage, f: Faults): Outcome
    requires ActiveExists(w)
  {
    if w.active.None? then Outcome(w, Err("rotation failed"))
    else
      var path := w.active.value.path;
      var placed := Placed(e, record, path);
      var encoded := EncodeResult(e.p, placed, body);
      if encoded.Err? then Outcome(w, Err(encoded.error))
      else if WouldExceed(|w.segments[path].bytes|, |encoded.value.frame|)
      then AppendFresh(e, Rotated(e, w, storage, BucketFloor(record.observedAt), f.seal2, f.create2),
                       record, body, f.cut)
      else Write(e, w, placed, body, f.cut)
  }

  /** The writer with a segment for this record active, as far as one could be started. */
  function Opened(e: Env, w: Writer, storage: Storage, bucket: int, f: Faults): Writer
    requires ActiveExists(w)
  {
    if Matches(w, storage, bucket) then w else Rotated(e, w, storage, bucket, f.seal, f.create)
  }

  /** `append_segment_frame`. */
  function Append(e: Env, w: Writer, record: BodyRecord, body: seq<byte>, archiveAvailable: bool, f: Faults): Outcome
    requires ActiveExists(w)
  {
    var storage := StorageFor(archiveAvailable);
    AppendTo(e, Opened(e, w, storage, BucketFloor(record.observedAt), f), record, body, storage, f)
  }

  /** The record a capture starts from: its hash and size are those of the body. */
  function Stamped(p: Primitives, record: BodyRecord, body: seq<byte>): BodyRecord {
    record.(bodySha256 := p.sha256(body), bodyBytes := |body|, compressedBytes := 0)
  }

  /** What happens to the writer and its files: captures, seals on demand, when idle or on shutdown, a
      crash, and recovery of a file that no writer holds. */
  datatype Op =
    | Record(record: BodyRecord, body: seq<byte>, archiveAvailable: bool, faults: Faults)
    | SealActive(fault: SealFault)
    | SealIdle(now: int, minimumIdle: int, fault: SealFault)
    | Crash
    | Recover(path: Path, fault: SealFault)

  predicate Orphan(w: Writer, path: Path) {
    path in w.segments && !w.segments[path].isSealed && (w.active.Some? ==> w.active.value.path != path)
  }

  function Next(e: Env, w: Writer, op: Op): Writer
    requires ActiveExists(w)
  {
    match op
    case Record(record, body, archiveAvailable, faults) =>
      Append(e, w, Stamped(e.p, record, body), body, archiveAvailable, faults).writer
    case SealActive(fault) => LetGo(e, w, fault)
    case SealIdle(now, minimumIdle, fault) =>
      if w.active.Some? && now - w.active.value.lastWrite >= Max(minimumIdle, 0) then LetGo(e, w, fault) else w
    case Crash => w.(active := None)
    case Recover(path, fault) =>
      if Orphan(w, path) then w.(segments := w.segments[path := Seal(e, w.segments[path], fault).segment]) else w
  }

  // ---------------------------------------------------------------- invariant

  /** A file holds at most one write or is within the limit; until it is recovered it has grown exactly
      when written to. */
  ghost predicate Bounded(s: Segment) {
    && (!Whole(s) ==> s == Started(|s.bytes|))
    && (s.writes > 1 ==> |s.bytes| <= SEGMENT_MAX_BYTES)
    && (Whole(s) && s.recovered.None? ==> (s.writes == 0 <==> |s.bytes| == |SEGMENT_MAGIC|))
    && |s.frames| <= s.writes
  }

  /** A record belongs in the file: its bucket, its date and its location are the file's. */
  ghost predicate Belongs(e: Env, path: Path, record: BodyRecord) {
    && BucketFloor(record.observedAt) == path.bucket
    && DateParts(e.calendar, record.observedAt) == path.date
    && DayFloor(record.observedAt) == DayFloor(path.bucket)
    && record.archivePath == e.render(path)
    && record.storage == Name(path.storage)
  }

  ghost predicate AllBelong(e: Env, path: Path, s: Segment) {
    forall k | 0 <= k < |s.frames| :: Belongs(e, path, s.frames[k].record)
  }

  /** The file up to its first torn write scans to the frames before it; a torn write nothing follows
      is an incomplete frame. */
  ghost predicate TornAt(p: Primitives, s: Segment, t: Tear) {
    && t.at < |s.bytes| && t.kept <= |s.frames|
    && ScanFile(p, s.bytes[..t.at], false).result == Ok(s.frames[..t.kept])
    && (!t.buried ==> t.kept == |s.frames| && ParseFrame(p, s.bytes[t.at..]).NeedMore?)
  }

  /** What a scan of the file finds, as far as its history decides it. */
  ghost predicate Scans(p: Primitives, s: Segment) {
    && (s.recovered.None? && s.tear.None? ==> ScanFile(p, s.bytes, false).result == Ok(s.frames))
    && (s.recovered.None? && s.tear.Some? ==> TornAt(p, s, s.tear.value))
    && (s.recovered.Some? ==> ScanFile(p, s.bytes, false).result == Ok(s.recovered.value))
    && (s.recovered.Some? && (s.tear.None? || !s.tear.value.buried) ==> s.recovered.value == s.frames)
    && (s.isSealed ==> s.recovered.Some?)
  }

  ghost predicate Readable(e: Env, s: Segment) { e.p.Sound() && Whole(s) ==> Scans(e.p, s) }

  ghost predicate Fits(e: Env, path: Path, s: Segment) {
    Bounded(s) && AllBelong(e, path, s) && Readable(e, s)
  }

  ghost predicate ActiveCurrent(e: Env, w: Writer) {
    w.active.Some? ==>
      && w.active.value.path in w.segments
      && w.active.value.path == PathFor(e, w.active.value.storage, w.active.value.bucket, w.active.value.path.sequence)
      && Whole(w.segments[w.active.value.path])
      && w.segments[w.active.value.path].recovered.None? && !w.segments[w.active.value.path].isSealed
  }

  ghost predicate Inv(e: Env, w: Writer) {
    && ActiveCurrent(e, w)
    && (forall path | path in w.segments :: path.sequence < w.nextId && Fits(e, path, w.segments[path]))
  }

  /** A file with part of the magic fails every scan, so sealing and recovering it fail and leave it as it
      is. */
  lemma CutMagicFails(e: Env, s: Segment, fault: SealFault)
    requires !Whole(s)
    ensures forall recoverTail ::
              ScanFile(e.p, s.bytes, recoverTail).result == Err("capture segment header incomplete")
    ensures Seal(e, s, fault) == Sealing(s, false)
  {
  }

  lemma StartedFits(e: Env, path: Path, written: nat)
    ensures Fits(e, path, Started(written)) && Fits(e, path, NewSegment)
  {
    assert written >= |SEGMENT_MAGIC| ==> Started(written) == NewSegment;
    assert Whole(NewSegment);
  }

  lemma WrittenBelongs(e: Env, record: BodyRecord, body: seq<byte>, path: Path)
    requires HashOf(e, record, body)
    requires path == PathFor(e, path.storage, BucketFloor(record.observedAt), path.sequence)
    requires EncodeResult(e.p, Placed(e, record, path), body).Ok?
    ensures var placed := Placed(e, record, path);
            && Belongs(e, path, Written(e, placed, body))
            && WellFormed(e.p, SegmentFrame(Written(e, placed, body), body))
            && EncodeResult(e.p, placed, body).value.frame == FrameBytes(e.p, Written(e, placed, body), body)
  {
    var placed := Placed(e, record, path);
    SettleFacts(e.p, placed, body, 4);
    BucketWithinDay(record.observedAt);
    DateOfDay(e.calendar, record.observedAt);
  }

  lemma WholeGrows(p: Primitives, s: Segment, content: SegmentFrame)
    requires p.Sound() && Scans(p, s) && s.recovered.None? && s.tear.None? && WellFormed(p, content)
    ensures var frame := FrameBytes(p, content.record, content.body);
            Scans(p, GrownBy(s, frame, content, |frame|))
  {
    var frame := FrameBytes(p, content.record, content.body);
    assert frame[..|frame|] == frame;
    AppendScans(p, s.bytes, s.frames, content);
  }

  lemma TearOpens(p: Primitives, s: Segment, content: SegmentFrame, n: nat)
    requires p.Sound() && Scans(p, s) && s.recovered.None? && s.tear.None? && WellFormed(p, content)
    requires 0 < n < |FrameBytes(p, content.record, content.body)|
    ensures Scans(p, GrownBy(s, FrameBytes(p, content.record, content.body), content, n))
  {
    var piece := FrameBytes(p, content.record, content.body)[..n];
    TornPieceWaits(p, content, n);
    assert (s.bytes + piece)[..|s.bytes|] == s.bytes && (s.bytes + piece)[|s.bytes|..] == piece;
    assert s.frames[..|s.frames|] == s.frames;
  }

  lemma TearStays(p: Primitives, s: Segment, frame: seq<byte>, content: SegmentFrame, n: nat)
    requires Scans(p, s) && s.recovered.None? && s.tear.Some? && 0 < n <= |frame|
    ensures Scans(p, GrownBy(s, frame, content, n))
  {
    var t, g := s.tear.value, GrownBy(s, frame, content, n);
    assert g.bytes[..t.at] == s.bytes[..t.at];
    assert g.frames[..t.kept] == s.frames[..t.kept];
  }

  lemma GrownFits(e: Env, path: Path, s: Segment, frame: seq<byte>, content: SegmentFrame, cut: Option<nat>)
    requires Fits(e, path, s) && Whole(s) && s.recovered.None? && !WouldExceed(|s.bytes|, |frame|)
    requires Belongs(e, path, content.record) && WellFormed(e.p, content)
    requires frame == FrameBytes(e.p, content.record, content.body)
    ensures Fits(e, path, Grown(s, frame, content, cut))
  {
    var n := if cut.None? then |frame| else Min(cut.value, |frame|);
    if e.p.Sound() && n > 0 {
      if s.tear.Some? {
        TearStays(e.p, s, frame, content, n);
      } else if n < |frame| {
        TearOpens(e.p, s, content, n);
      } else {
        WholeGrows(e.p, s, content);
      }
    }
  }

  /** A torn write that is the last one: a recovering scan returns every frame and removes only it. */
  lemma TornLastRecovers(p: Primitives, s: Segment)
    requires Scans(p, s) && s.recovered.None? && s.tear.Some? && !s.tear.value.buried
    ensures ScanFile(p, s.bytes, false).result.Err?
    ensures ScanFile(p, s.bytes, true) == ScanOutcome(Ok(s.frames), s.bytes[..s.tear.value.at])
  {
    var t := s.tear.value;
    assert s.bytes[..t.at] + s.bytes[t.at..] == s.bytes && s.frames[..t.kept] == s.frames;
    UnreadableTail(p, s.bytes[..t.at], s.frames, s.bytes[t.at..]);
  }

  /** A file with something behind a torn write: unless what is there happens to read as a frame with
      a valid checksum, a recovering scan fails or drops everything from the tear on, so it returns all
      frames exactly when none was completed behind the tear and the parser waits there. */
  lemma BuriedRecovers(p: Primitives, s: Segment)
    requires Scans(p, s) && s.recovered.None? && s.tear.Some? && !ParseFrame(p, s.bytes[s.tear.value.at..]).Good?
    ensures var t, scan := s.tear.value, ScanFile(p, s.bytes, true);
            && ScanFile(p, s.bytes, false).result.Err?
            && (scan.result.Err? || scan == ScanOutcome(Ok(s.frames[..t.kept]), s.bytes[..t.at]))
            && (scan.result == Ok(s.frames) <==> t.kept == |s.frames| && ParseFrame(p, s.bytes[t.at..]).NeedMore?)
  {
    var t := s.tear.value;
    assert s.bytes[..t.at] + s.bytes[t.at..] == s.bytes;
    UnreadableTail(p, s.bytes[..t.at], s.frames[..t.kept], s.bytes[t.at..]);
    assert t.kept == |s.frames| <==> s.frames[..t.kept] == s.frames;
  }

  lemma UntornRecovers(p: Primitives, bytes: seq<byte>, fs: seq<SegmentFrame>)
    requires ScanFile(p, bytes, false).result == Ok(fs)
    ensures ScanFile(p, bytes, true) == ScanOutcome(Ok(fs), bytes)
  {
    ReadOnlyScanIffNothingTorn(p, bytes);
  }

  lemma SealScans(p: Primitives, e: Env, s: Segment, fault: SealFault)
    requires p == e.p && Scans(p, s)
    ensures Scans(p, Seal(e, s, fault).segment)
  {
    var scan := ScanFile(p, s.bytes, true);
    if fault != BeforeScan && scan.result.Ok? {
      RecoveryIdempotent(p, s.bytes, false);
      if s.recovered.Some? {
        UntornRecovers(p, s.bytes, s.recovered.value);
      } else if s.tear.None? {
        UntornRecovers(p, s.bytes, s.frames);
      } else if !s.tear.value.buried {
        TornLastRecovers(p, s);
      }
    }
  }

  lemma ScanKeepsMagic(p: Primitives, bytes: seq<byte>)
    requires |bytes| >= 8
    ensures 8 <= |ScanFile(p, bytes, true).bytes| <= |bytes|
    ensures ScanFile(p, bytes, true).bytes <= bytes
  {
  }

  lemma SealFits(e: Env, path: Path, s: Segment, fault: SealFault)
    requires Fits(e, path, s)
    ensures Fits(e, path, Seal(e, s, fault).segment)
  {
    if !Whole(s) {
      CutMagicFails(e, s, fault);
    } else {
      ScanKeepsMagic(e.p, s.bytes);
      if e.p.Sound() {
        SealScans(e.p, e, s, fault);
      }
    }
  }

  /** The active segment takes records of this bucket. */
  ghost predicate Ready(e: Env, w: Writer, bucket: int) {
    Inv(e, w) && w.active.Some? && w.active.value.bucket == bucket
  }

  lemma LetGoKeeps(e: Env, w: Writer, fault: SealFault)
    requires Inv(e, w)
    ensures Inv(e, LetGo(e, w, fault))
  {
    if w.active.Some? {
      SealFits(e, w.active.value.path, w.segments[w.active.value.path], fault);
    }
  }

  lemma CreateKeeps(e: Env, w: Writer, storage: Storage, bucket: int, creation: Creation)
    requires Inv(e, w)
    ensures var w' := Create(e, w, storage, bucket, creation);
            && Inv(e, w')
            && (w'.active.Some? ==>
                  && Ready(e, w', bucket) && w'.segments[w'.active.value.path] == NewSegment
                  && w'.active.value.storage == storage)
  {
    StartedFits(e, PathFor(e, storage, bucket, w.nextId), if creation.FileOnly? then creation.written else 0);
  }

  lemma RotatedKeeps(e: Env, w: Writer, storage: Storage, bucket: int, fault: SealFault, creation: Creation)
    requires Inv(e, w)
    ensures var w' := Rotated(e, w, storage, bucket, fault, creation);
            && Inv(e, w')
            && (w'.active.Some? ==>
                  && Ready(e, w', bucket) && w'.segments[w'.active.value.path] == NewSegment
                  && w'.active.value.storage == storage)
  {
    LetGoKeeps(e, w, fault);
    CreateKeeps(e, LetGo(e, w, fault), storage, bucket, creation);
  }

  lemma WriteKeeps(e: Env, w: Writer, record: BodyRecord, body: seq<byte>, cut: Option<nat>)
    requires Ready(e, w, BucketFloor(record.observedAt)) && HashOf(e, record, body)
    requires EncodeResult(e.p, Placed(e, record, w.active.value.path), body).Ok?
    requires !WouldExceed(|w.segments[w.active.value.path].bytes|,
                          |EncodeResult(e.p, Placed(e, record, w.active.value.path), body).value.frame|)
    ensures Inv(e, Write(e, w, Placed(e, record, w.active.value.path), body, cut).writer)
  {
    var path := w.active.value.path;
    var placed := Placed(e, record, path);
    WrittenBelongs(e, record, body, path);
    GrownFits(e, path, w.segments[path], EncodeResult(e.p, placed, body).value.frame,
              SegmentFrame(Written(e, placed, body), body), cut);
  }

  ghost predicate HashOf(e: Env, record: BodyRecord, body: seq<byte>) {
    record.bodyBytes == |body| && record.bodySha256 == e.p.sha256(body)
  }

  lemma AppendFreshKeeps(e: Env, w: Writer, record: BodyRecord, body: seq<byte>, cut: Option<nat>)
    requires Inv(e, w) && HashOf(e, record, body)
    requires w.active.Some? ==>
               Ready(e, w, BucketFloor(record.observedAt)) && w.segments[w.active.value.path] == NewSegment
    ensures Inv(e, AppendFresh(e, w, record, body, cut).writer)
  {
    if w.active.Some? && EncodeResult(e.p, Placed(e, record, w.active.value.path), body).Ok? {
      WriteKeeps(e, w, record, body, cut);
    }
  }

  lemma AppendToKeeps(e: Env, w: Writer, record: BodyRecord, body: seq<byte>, storage: Storage, f: Faults)
    requires Inv(e, w) && HashOf(e, record, body)
    requires w.active.Some? ==> w.active.value.bucket == BucketFloor(record.observedAt)
    ensures Inv(e, AppendTo(e, w, record, body, storage, f).writer)
  {
    if w.active.Some? {
      var path, bucket := w.active.value.path, BucketFloor(record.observedAt);
      var encoded := EncodeResult(e.p, Placed(e, record, path), body);
      if encoded.Ok? {
        if WouldExceed(|w.segments[path].bytes|, |encoded.value.frame|) {
          RotatedKeeps(e, w, storage, bucket, f.seal2, f.create2);
          AppendFreshKeeps(e, Rotated(e, w, storage, bucket, f.seal2, f.create2), record, body, f.cut);
        } else {
          WriteKeeps(e, w, record, body, f.cut);
        }
      }
    }
  }

  lemma AppendKeeps(e: Env, w: Writer, record: BodyRecord, body: seq<byte>, archiveAvailable: bool, f: Faults)
    requires Inv(e, w) && HashOf(e, record, body)
    ensures Inv(e, Append(e, w, record, body, archiveAvailable, f).writer)
  {
    var storage, bucket := StorageFor(archiveAvailable), BucketFloor(record.observedAt);
    RotatedKeeps(e, w, storage, bucket, f.seal, f.create);
    AppendToKeeps(e, Opened(e, w, storage, bucket, f), record, body, storage, f);
  }

  lemma NextKeeps(e: Env, w: Writer, op: Op)
    requires Inv(e, w)
    ensures Inv(e, Next(e, w, op))
  {
    match op {
      case Record(record, body, archiveAvailable, faults) =>
        AppendKeeps(e, w, Stamped(e.p, record, body), body, archiveAvailable, faults);
      case SealActive(fault) => LetGoKeeps(e, w, fault);
      case SealIdle(_, _, fault) => LetGoKeeps(e, w, fault);
      case Crash =>
      case Recover(path, fault) =>
        if Orphan(w, path) {
          SealFits(e, path, w.segments[path], fault);
        }
    }
  }

  /** A successful append ends with this body as the last frame of the active file, in the storage
      chosen for it; the record handed back is the one in the frame up to its compressed size. */
  ghost predicate Landed(e: Env, w: Writer, r: BodyRecord, record: BodyRecord, body: seq<byte>, storage: Storage) {
    && w.active.Some? && w.active.value.path in w.segments && w.active.value.lastWrite == record.observedAt
    && w.active.value.path.storage == storage
    && var frames := w.segments[w.active.value.path].frames;
       && frames != []
       && frames[|frames| - 1].body == body
       && frames[|frames| - 1].record.(compressedBytes := 0) == r.(compressedBytes := 0)
       && r.compressedBytes == |Compressed(e.p, frames[|frames| - 1].record, body)|
       && r == record.(archivePath := r.archivePath, storage := Name(storage), compressedBytes := r.compressedBytes)
  }

  lemma WriteLands(e: Env, w: Writer, record: BodyRecord, body: seq<byte>, cut: Option<nat>)
    requires Ready(e, w, BucketFloor(record.observedAt)) && HashOf(e, record, body)
    requires EncodeResult(e.p, Placed(e, record, w.active.value.path), body).Ok?
    ensures var o := Write(e, w, Placed(e, record, w.active.value.path), body, cut);
            o.record.Ok? ==> Landed(e, o.writer, o.record.value, record, body, w.active.value.storage)
  {
    SettleFacts(e.p, Placed(e, record, w.active.value.path), body, 4);
  }

  lemma AppendLands(e: Env, w: Writer, record: BodyRecord, body: seq<byte>, archiveAvailable: bool, f: Faults)
    requires Inv(e, w) && HashOf(e, record, body)
    ensures var o := Append(e, w, record, body, archiveAvailable, f);
            o.record.Ok? ==> Landed(e, o.writer, o.record.value, record, body, StorageFor(archiveAvailable))
  {
    var storage, bucket := StorageFor(archiveAvailable), BucketFloor(record.observedAt);
    RotatedKeeps(e, w, storage, bucket, f.seal, f.create);
    AppendToLands(e, Opened(e, w, storage, bucket, f), record, body, storage, f);
  }

  lemma AppendToLands(e: Env, w: Writer, record: BodyRecord, body: seq<byte>, storage: Storage, f: Faults)
    requires Inv(e, w) && HashOf(e, record, body)
    requires w.active.Some? ==> Matches(w, storage, BucketFloor(record.observedAt))
    ensures var o := AppendTo(e, w, record, body, storage, f);
            o.record.Ok? ==> Landed(e, o.writer, o.record.value, record, body, storage)
  {
    if w.active.Some? && EncodeResult(e.p, Placed(e, record, w.active.value.path), body).Ok? {
      WriteLands(e, w, record, body, f.cut);
      RotatedKeeps(e, w, storage, BucketFloor(record.observedAt), f.seal2, f.create2);
      AppendFreshLands(e, Rotated(e, w, storage, BucketFloor(record.observedAt), f.seal2, f.create2),
                       record, body, storage, f.cut);
    }
  }

  lemma AppendFreshLands(e: Env, w: Writer, record: BodyRecord, body: seq<byte>, storage: Storage, cut: Option<nat>)
    requires Inv(e, w) && HashOf(e, record, body)
    requires w.active.Some? ==> Matches(w, storage, BucketFloor(record.observedAt))
    ensures var o := AppendFresh(e, w, record, body, cut);
            o.record.Ok? ==> Landed(e, o.writer, o.record.value, record, body, storage)
  {
    if w.active.Some? && EncodeResult(e.p, Placed(e, record, w.active.value.path), body).Ok? {
      WriteLands(e, w, record, body, cut);
    }
  }

  /** With the archive mounted a capture goes to the archive, otherwise to the spool, and its record says so. */
  lemma AppendGoesWhere(e: Env, w: Writer, record: BodyRecord, body: seq<byte>, archiveAvailable: bool, f: Faults)
    requires Inv(e, w) && HashOf(e, record, body) && Append(e, w, record, body, archiveAvailable, f).record.Ok?
    ensures var o := Append(e, w, record, body, archiveAvailable, f);
            && o.writer.active.Some?
            && (archiveAvailable ==>
                  o.writer.active.value.path.storage == Archive && o.record.value.storage == "archive_segment")
            && (!archiveAvailable ==>
                  o.writer.active.value.path.storage == Spool && o.record.value.storage == "spool_segment")
  {
    AppendLands(e, w, record, body, archiveAvailable, f);
  }

  /** A new segment is started only when it has to be: a record of the active segment's storage and bucket
      whose frame fits goes there, whatever else may fail. */
  lemma RotatesOnlyWhenNeeded(e: Env, w: Writer, record: BodyRecord, body: seq<byte>, archiveAvailable: bool, f: Faults)
    requires ActiveCurrent(e, w) && w.active.Some?
    requires w.active.value.storage == (if archiveAvailable then Archive else Spool)
    requires w.active.value.bucket == BucketFloor(record.observedAt)
    requires var encoded := EncodeResult(e.p, Placed(e, record, w.active.value.path), body);
             var size := |w.segments[w.active.value.path].bytes|;
             encoded.Ok? ==> size == 8 || size + |encoded.value.frame| <= 67_108_864
    ensures var o := Append(e, w, record, body, archiveAvailable, f);
            && o.writer.nextId == w.nextId && o.writer.segments.Keys == w.segments.Keys
            && o.writer.active.Some? && o.writer.active.value.path == w.active.value.path
  {
  }

  const NO_FAULTS := Faults(NoFault, Created, NoFault, Created, None)

  /** Nothing but a fault or the limits stops a capture: from every state of a run whose active segment is not
      torn, a record the encoder accepts is appended. */
  lemma AppendSucceeds(e: Env, w: Writer, record: BodyRecord, body: seq<byte>, archiveAvailable: bool)
    requires Inv(e, w) && e.p.Sound() && ActiveWhole(w)
    requires forall path: Path :: EncodeResult(e.p, Placed(e, record, path), body).Ok?
    ensures Append(e, w, record, body, archiveAvailable, NO_FAULTS).record.Ok?
  {
    var storage, bucket := StorageFor(archiveAvailable), BucketFloor(record.observedAt);
    RotationSucceeds(e, w, storage, bucket);
    RotatedKeeps(e, w, storage, bucket, NoFault, Created);
    AppendToSucceeds(e, Opened(e, w, storage, bucket, NO_FAULTS), record, body, storage);
  }

  lemma AppendToSucceeds(e: Env, w: Writer, record: BodyRecord, body: seq<byte>, storage: Storage)
    requires Inv(e, w) && e.p.Sound() && ActiveWhole(w) && w.active.Some?
    requires forall path: Path :: EncodeResult(e.p, Placed(e, record, path), body).Ok?
    ensures AppendTo(e, w, record, body, storage, NO_FAULTS).record.Ok?
  {
    var bucket := BucketFloor(record.observedAt);
    RotationSucceeds(e, w, storage, bucket);
    AppendFreshSucceeds(e, Rotated(e, w, storage, bucket, NoFault, Created), record, body);
  }

  lemma AppendFreshSucceeds(e: Env, w: Writer, record: BodyRecord, body: seq<byte>)
    requires ActiveExists(w) && w.active.Some?
    requires EncodeResult(e.p, Placed(e, record, w.active.value.path), body).Ok?
    ensures AppendFresh(e, w, record, body, None).record.Ok?
  {
  }

  /** A record the encoder refuses changes nothing; refused for the path of a segment just started for it, that
      segment is given up, empty. */
  lemma RefusedByEncoder(e: Env, w: Writer, record: BodyRecord, body: seq<byte>, storage: Storage, f: Faults)
    requires ActiveExists(w) && w.active.Some?
    requires EncodeResult(e.p, Placed(e, record, w.active.value.path), body).Err?
    ensures AppendTo(e, w, record, body, storage, f).writer == w
    ensures AppendFresh(e, w, record, body, f.cut).writer == Writer(None, w.segments, w.nextId)
    ensures AppendTo(e, w, record, body, storage, f).record.Err? && AppendFresh(e, w, record, body, f.cut).record.Err?
  {
  }

  /** A rotation lets go of a readable segment sealed, and starts an empty one of the given storage and bucket
      under the next number, whose idle time counts from the bucket. */
  lemma RotationSucceeds(e: Env, w: Writer, storage: Storage, bucket: int)
    requires Inv(e, w) && e.p.Sound() && ActiveWhole(w)
    ensures var t := Rotated(e, w, storage, bucket, NoFault, Created);
            && t.active == Some(Active(Path(storage, DateParts(e.calendar, DayFloor(bucket)), bucket, w.nextId),
                                       storage, bucket, bucket))
            && t.nextId == w.nextId + 1
            && t.segments[t.active.value.path] == Segment(SEGMENT_MAGIC, [], 0, None, None, false)
            && (w.active.Some? ==>
                  var path := w.active.value.path;
                  && path in t.segments && t.segments[path].isSealed
                  && t.segments[path].recovered == Some(w.segments[path].frames))
  {
    if w.active.Some? {
      var s := w.segments[w.active.value.path];
      assert Fits(e, w.active.value.path, s) && Scans(e.p, s);
      ReadOnlyScanIffNothingTorn(e.p, s.bytes);
    }
  }

  /** Letting go of the active segment, and a crash, leave no writer. Sealing scans with recovery and marks what
      it could scan; a crash changes no file. */
  lemma LettingGoMeans(e: Env, w: Writer, path: Path)
    requires ActiveExists(w) && path in w.segments && (w.active.Some? ==> w.active.value.path == path)
    ensures Next(e, w, Crash) == Writer(None, w.segments, w.nextId)
    ensures var op := if w.active.Some? then SealActive(NoFault) else Recover(path, NoFault);
            var t, scan := Next(e, w, op), ScanFile(e.p, w.segments[path].bytes, true);
            && t.active.None? && t.nextId == w.nextId
            && (forall other | other in w.segments && other != path ::
                  other in t.segments && t.segments[other] == w.segments[other])
            && (scan.result.Err? ==> t.segments == w.segments)
            && (scan.result.Ok? && !w.segments[path].isSealed ==>
                  && t.segments[path].isSealed && t.segments[path].bytes == scan.bytes
                  && t.segments[path].recovered == Some(scan.result.value))
  {
    if w.active.Some? {
      var seal := Seal(e, w.segments[path], NoFault);
      assert w.segments[path := w.segments[path]] == w.segments;
    }
  }

  /** Hash, length and compressed size are the writer's own: what a caller puts there is ignored. */
  lemma GivenSizesAreIgnored(
      e: Env, w: Writer, record: BodyRecord, body: seq<byte>, archiveAvailable: bool, f: Faults, sha: string,
      bytes: nat, compressed: nat)
    requires ActiveExists(w)
    ensures var other := record.(bodySha256 := sha, bodyBytes := bytes, compressedBytes := compressed);
            Next(e, w, Record(other, body, archiveAvailable, f))
            == Next(e, w, Record(record, body, archiveAvailable, f))
    ensures HashOf(e, Stamped(e.p, record, body), body)
  {
    var other := record.(bodySha256 := sha, bodyBytes := bytes, compressedBytes := compressed);
    assert Stamped(e.p, other, body) == Stamped(e.p, record, body);
  }

  /** An idle segment is let go exactly when its last write is at least the interval ago. */
  lemma IdleIsLetGo(e: Env, w: Writer, now: int, minimumIdle: nat, fault: SealFault)
    requires ActiveExists(w) && w.active.Some?
    ensures Next(e, w, SealIdle(now, minimumIdle, fault)).active.None? <==>
              now - w.active.value.lastWrite >= minimumIdle
  {
  }

  // ---------------------------------------------------------------- runs

  ghost predicate IsRun(e: Env, ws: seq<Writer>, ops: seq<Op>) {
    && |ws| == |ops| + 1
    && ws[0] == Initial
    && forall i | 0 <= i < |ops| :: ActiveExists(ws[i]) && ws[i + 1] == Next(e, ws[i], ops[i])
  }

  lemma {:induction false} RunKeeps(e: Env, ws: seq<Writer>, ops: seq<Op>, n: nat)
    requires IsRun(e, ws, ops) && n < |ws|
    ensures Inv(e, ws[n])
    decreases n
  {
    if n > 0 {
      RunKeeps(e, ws, ops, n - 1);
      NextKeeps(e, ws[n - 1], ops[n - 1]);
    }
  }

  /** In every run each file holds at most one frame or is at most 64 MiB, and all its records are of
      its 15-minute bucket, of the UTC day that bucket starts on and of the date its directory is named
      for, and say where they are. */
  lemma RotationBounds(e: Env, ws: seq<Writer>, ops: seq<Op>, n: nat, path: Path)
    requires IsRun(e, ws, ops) && n < |ws| && path in ws[n].segments
    ensures var s := ws[n].segments[path];
            && (|s.frames| <= 1 || |s.bytes| <= SEGMENT_MAX_BYTES)
            && AllBelong(e, path, s)
  {
    RunKeeps(e, ws, ops, n);
  }

  /** What scanning a file finds, in every run. Without its whole magic it holds no frame and fails every
      scan. Otherwise, untorn or recovered, it scans. With a torn write last it
      does not, and recovery gives all its frames. With something behind a torn write, recovery fails
      or gives the frames before it, unless a checksum matches by coincidence. */
  lemma RunScans(e: Env, ws: seq<Writer>, ops: seq<Op>, n: nat, path: Path)
    requires e.p.Sound() && IsRun(e, ws, ops) && n < |ws| && path in ws[n].segments
    ensures var s := ws[n].segments[path];
            !Whole(s) ==> s.frames == [] && forall recoverTail :: ScanFile(e.p, s.bytes, recoverTail).result.Err?
    ensures var s := ws[n].segments[path];
            var readOnly, recovering := ScanFile(e.p, s.bytes, false).result, ScanFile(e.p, s.bytes, true);
            Whole(s) ==>
            && (s.recovered.Some? ==> readOnly == Ok(s.recovered.value))
            && (s.recovered.None? && s.tear.None? ==> readOnly == Ok(s.frames))
            && (s.recovered.None? && s.tear.Some? ==> TornAt(e.p, s, s.tear.value))
            && (s.recovered.None? && s.tear.Some? && !s.tear.value.buried ==>
                  readOnly.Err? && recovering == ScanOutcome(Ok(s.frames), s.bytes[..s.tear.value.at]))
            && (s.recovered.None? && s.tear.Some? && !ParseFrame(e.p, s.bytes[s.tear.value.at..]).Good? ==>
                  readOnly.Err?
                  && (recovering.result.Err? || recovering.result == Ok(s.frames[..s.tear.value.kept])))
  {
    RunKeeps(e, ws, ops, n);
    var s := ws[n].segments[path];
    assert Fits(e, path, s);
    if !Whole(s) {
      CutMagicFails(e, s, NoFault);
    } else if s.recovered.None? && s.tear.Some? {
      if !s.tear.value.buried {
        TornLastRecovers(e.p, s);
      }
      if !ParseFrame(e.p, s.bytes[s.tear.value.at..]).Good? {
        BuriedRecovers(e.p, s);
      }
    }
  }

  // ---------------------------------------------------------------- which runs lose nothing

  /** No capture starts while the active file ends in a torn write: whoever sees a write fail seals the
      segment, or restarts, before recording again. */
  ghost predicate Careful(ws: seq<Writer>, ops: seq<Op>)
    requires |ws| == |ops| + 1
  {
    forall i | 0 <= i < |ops| && ops[i].Record? :: ActiveWhole(ws[i])
  }

  ghost predicate ActiveWhole(w: Writer) {
    w.active.Some? && w.active.value.path in w.segments ==> w.segments[w.active.value.path].tear.None?
  }

  ghost predicate NothingBuried(w: Writer) {
    forall path | path in w.segments && w.segments[path].tear.Some? :: !w.segments[path].tear.value.buried
  }

  lemma LetGoBuriesNothing(e: Env, w: Writer, fault: SealFault)
    requires ActiveExists(w) && NothingBuried(w)
    ensures NothingBuried(LetGo(e, w, fault))
  {
  }

  lemma RotatedBuriesNothing(e: Env, w: Writer, storage: Storage, bucket: int, fault: SealFault, creation: Creation)
    requires ActiveExists(w) && NothingBuried(w)
    ensures NothingBuried(Rotated(e, w, storage, bucket, fault, creation))
    ensures ActiveWhole(Rotated(e, w, storage, bucket, fault, creation))
  {
    LetGoBuriesNothing(e, w, fault);
  }

  lemma WriteBuriesNothing(e: Env, w: Writer, record: BodyRecord, body: seq<byte>, cut: Option<nat>)
    requires w.active.Some? && w.active.value.path in w.segments && EncodeResult(e.p, record, body).Ok?
    requires NothingBuried(w) && ActiveWhole(w)
    ensures NothingBuried(Write(e, w, record, body, cut).writer)
  {
  }

  lemma AppendBuriesNothing(
    e: Env, w: Writer, record: BodyRecord, body: seq<byte>, archiveAvailable: bool, f: Faults)
    requires Inv(e, w) && NothingBuried(w) && ActiveWhole(w)
    ensures NothingBuried(Append(e, w, record, body, archiveAvailable, f).writer)
  {
    var storage, bucket := StorageFor(archiveAvailable), BucketFloor(record.observedAt);
    RotatedKeeps(e, w, storage, bucket, f.seal, f.create);
    RotatedBuriesNothing(e, w, storage, bucket, f.seal, f.create);
    AppendToBuriesNothing(e, Opened(e, w, storage, bucket, f), record, body, storage, f);
  }

  lemma AppendToBuriesNothing(e: Env, w: Writer, record: BodyRecord, body: seq<byte>, storage: Storage, f: Faults)
    requires Inv(e, w) && NothingBuried(w) && ActiveWhole(w)
    ensures NothingBuried(AppendTo(e, w, record, body, storage, f).writer)
  {
    if w.active.Some? && EncodeResult(e.p, Placed(e, record, w.active.value.path), body).Ok? {
      var bucket := BucketFloor(record.observedAt);
      WriteBuriesNothing(e, w, Placed(e, record, w.active.value.path), body, f.cut);
      RotatedKeeps(e, w, storage, bucket, f.seal2, f.create2);
      RotatedBuriesNothing(e, w, storage, bucket, f.seal2, f.create2);
      AppendFreshBuriesNothing(e, Rotated(e, w, storage, bucket, f.seal2, f.create2), record, body, f.cut);
    }
  }

  lemma AppendFreshBuriesNothing(e: Env, w: Writer, record: BodyRecord, body: seq<byte>, cut: Option<nat>)
    requires ActiveExists(w) && NothingBuried(w) && ActiveWhole(w)
    ensures NothingBuried(AppendFresh(e, w, record, body, cut).writer)
  {
    if w.active.Some? && EncodeResult(e.p, Placed(e, record, w.active.value.path), body).Ok? {
      WriteBuriesNothing(e, w, Placed(e, record, w.active.value.path), body, cut);
    }
  }

  lemma {:induction false} CarefulRunBuriesNothing(e: Env, ws: seq<Writer>, ops: seq<Op>, n: nat)
    requires IsRun(e, ws, ops) && Careful(ws, ops) && n < |ws|
    ensures NothingBuried(ws[n])
    decreases n
  {
    if n > 0 {
      CarefulRunBuriesNothing(e, ws, ops, n - 1);
      RunKeeps(e, ws, ops, n - 1);
      var w, op := ws[n - 1], ops[n - 1];
      match op {
        case Record(record, body, archiveAvailable, faults) =>
          AppendBuriesNothing(e, w, Stamped(e.p, record, body), body, archiveAvailable, faults);
        case SealActive(fault) => LetGoBuriesNothing(e, w, fault);
        case SealIdle(_, _, fault) => LetGoBuriesNothing(e, w, fault);
        case Crash =>
        case Recover(_, _) =>
      }
    }
  }

  /** A careful run loses no frame, whatever fails in it: a recovering scan of a file, before or after it
      was sealed, returns exactly the frames whose writes completed if and only if the file has its whole
      magic, without which it never had a frame. */
  lemma CarefulRunLosesNothing(e: Env, ws: seq<Writer>, ops: seq<Op>, n: nat, path: Path)
    requires e.p.Sound() && IsRun(e, ws, ops) && Careful(ws, ops) && n < |ws| && path in ws[n].segments
    ensures ScanFile(e.p, ws[n].segments[path].bytes, true).result == Ok(ws[n].segments[path].frames)
       <==> Whole(ws[n].segments[path])
    ensures !Whole(ws[n].segments[path]) ==>
              ws[n].segments[path].frames == [] && ScanFile(e.p, ws[n].segments[path].bytes, true).result.Err?
  {
    CarefulRunBuriesNothing(e, ws, ops, n);
    RunKeeps(e, ws, ops, n);
    var s := ws[n].segments[path];
    assert Fits(e, path, s);
    if !Whole(s) {
      CutMagicFails(e, s, NoFault);
    } else if s.recovered.Some? || s.tear.None? {
      UntornRecovers(e.p, s.bytes, s.frames);
    } else {
      TornLastRecovers(e.p, s);
    }
  }

  /** Such a file is what the first capture leaves when the disk fills up, or the process dies, while it
      writes the magic of a new segment. */
  lemma CutMagicIsReached(e: Env, record: BodyRecord, body: seq<byte>, archiveAvailable: bool, written: nat)
    requires written < |SEGMENT_MAGIC|
    ensures var faults := Faults(NoFault, FileOnly(written), NoFault, Created, None);
            var w := Next(e, Initial, Record(record, body, archiveAvailable, faults));
            var path := PathFor(e, StorageFor(archiveAvailable), BucketFloor(record.observedAt), 0);
            IsRun(e, [Initial, w], [Record(record, body, archiveAvailable, faults)])
            && w.active.None? && path in w.segments && w.segments[path] == Started(written) && !Whole(w.segments[path])
  {
  }

  /** The converse, for any write that completes behind a tear, however many bytes are torn: it is
      acknowledged, and every scan fails or returns only the frames before the tear, unless the bytes at
      the tear happen to carry a valid checksum. */
  lemma CarelessWriteIsLost(e: Env, w: Writer, record: BodyRecord, body: seq<byte>)
    requires e.p.Sound() && Ready(e, w, BucketFloor(record.observedAt)) && !ActiveWhole(w) && HashOf(e, record, body)
    requires EncodeResult(e.p, Placed(e, record, w.active.value.path), body).Ok?
    requires !WouldExceed(|w.segments[w.active.value.path].bytes|,
                          |EncodeResult(e.p, Placed(e, record, w.active.value.path), body).value.frame|)
    ensures var o := Write(e, w, Placed(e, record, w.active.value.path), body, None);
            var s := o.writer.segments[w.active.value.path];
            && o.record.Ok? && s.tear.Some? && s.tear.value.kept < |s.frames| && s.tear.value.at < |s.bytes|
            && (!ParseFrame(e.p, s.bytes[s.tear.value.at..]).Good? ==>
                  forall recoverTail ::
                    var result := ScanFile(e.p, s.bytes, recoverTail).result;
                    result.Err? || result == Ok(s.frames[..s.tear.value.kept]))
  {
    WriteKeeps(e, w, record, body, None);
    var path := w.active.value.path;
    var s := Write(e, w, Placed(e, record, path), body, None).writer.segments[path];
    assert Fits(e, path, w.segments[path]) && Fits(e, path, s);
    if !ParseFrame(e.p, s.bytes[s.tear.value.at..]).Good? {
      BuriedRecovers(e.p, s);
    }
  }

  /** A retry after a torn write to the same file is acknowledged and lost: with one to three bytes of
      the first attempt in the file, no scan of it succeeds any more, so neither reading, sealing nor
      recovering it does. */
  lemma CarelessRetryLosesFile(e: Env, w: Writer, record: BodyRecord, body: seq<byte>, cut: nat, again: BodyRecord)
    requires e.p.Sound() && Ready(e, w, BucketFloor(record.observedAt)) && ActiveWhole(w) && 1 <= cut <= 3
    requires HashOf(e, record, body) && HashOf(e, again, body)
    requires BucketFloor(again.observedAt) == BucketFloor(record.observedAt)
    requires EncodeResult(e.p, Placed(e, record, w.active.value.path), body).Ok?
    requires EncodeResult(e.p, Placed(e, again, w.active.value.path), body).Ok?
    ensures var path := w.active.value.path;
            var torn := Write(e, w, Placed(e, record, path), body, Some(cut)).writer;
            var retried := Write(e, torn, Placed(e, again, path), body, None);
            && retried.record.Ok?
            && retried.writer.segments[path].tear.Some? && retried.writer.segments[path].tear.value.buried
            && forall recoverTail ::
                 ScanFile(e.p, retried.writer.segments[path].bytes, recoverTail).result
                 == Err("capture segment record magic mismatch")
  {
    var path := w.active.value.path;
    var s := w.segments[path];
    WrittenBelongs(e, record, body, path);
    WrittenBelongs(e, again, body, path);
    var f := SegmentFrame(Written(e, Placed(e, record, path), body), body);
    var g := SegmentFrame(Written(e, Placed(e, again, path), body), body);
    var piece, behind := FrameBytes(e.p, f.record, f.body)[..cut], FrameBytes(e.p, g.record, g.body);
    FramesBehindTearAreLost(e.p, s.bytes, s.frames, f, cut, g);
    Assoc(s.bytes, piece, behind);
    assert behind[..|behind|] == behind;
  }

  // ---------------------------------------------------------------- released files

  /** A file nobody writes to any more: it never grows, its bytes never change once it is recovered, and
      nothing about it changes once it is sealed. */
  ghost predicate LeftAlone(s: Segment, s': Segment) {
    && s'.frames == s.frames && s'.writes == s.writes && s'.tear == s.tear
    && s'.bytes <= s.bytes
    && (s.recovered.Some? ==> s'.bytes == s.bytes && s'.recovered == s.recovered)
    && (s.isSealed ==> s' == s)
  }

  ghost predicate Released(w: Writer, w': Writer, path: Path) {
    && path in w.segments && path in w'.segments && LeftAlone(w.segments[path], w'.segments[path])
    && (w'.active.Some? ==> w'.active.value.path != path)
  }

  lemma SealLeavesAlone(e: Env, path: Path, s: Segment, fault: SealFault)
    requires e.p.Sound() && Fits(e, path, s) && !s.isSealed
    ensures LeftAlone(s, Seal(e, s, fault).segment)
  {
    if !Whole(s) {
      CutMagicFails(e, s, fault);
    } else {
      ScanKeepsMagic(e.p, s.bytes);
      if s.recovered.Some? {
        UntornRecovers(e.p, s.bytes, s.recovered.value);
      }
    }
  }

  lemma LetGoReleases(e: Env, w: Writer, path: Path, fault: SealFault)
    requires e.p.Sound() && Inv(e, w) && path in w.segments
    ensures Released(w, LetGo(e, w, fault), path)
  {
    if w.active.Some? && w.active.value.path == path {
      SealLeavesAlone(e, path, w.segments[path], fault);
    }
  }

  lemma RotatedReleases(
    e: Env, w: Writer, path: Path, storage: Storage, bucket: int, fault: SealFault, creation: Creation)
    requires e.p.Sound() && Inv(e, w) && path in w.segments
    ensures Released(w, Rotated(e, w, storage, bucket, fault, creation), path)
  {
    LetGoReleases(e, w, path, fault);
    assert path.sequence < w.nextId;
  }

  lemma WriteReleases(e: Env, w: Writer, path: Path, record: BodyRecord, body: seq<byte>, cut: Option<nat>)
    requires w.active.Some? && w.active.value.path in w.segments && EncodeResult(e.p, record, body).Ok?
    requires Released(w, w, path)
    ensures Released(w, Write(e, w, record, body, cut).writer, path)
  {
  }

  lemma AppendFreshReleases(e: Env, w: Writer, path: Path, record: BodyRecord, body: seq<byte>, cut: Option<nat>)
    requires ActiveExists(w) && Released(w, w, path)
    ensures Released(w, AppendFresh(e, w, record, body, cut).writer, path)
  {
    if w.active.Some? && EncodeResult(e.p, Placed(e, record, w.active.value.path), body).Ok? {
      WriteReleases(e, w, path, Placed(e, record, w.active.value.path), body, cut);
    }
  }

  lemma ReleasedTransitive(w: Writer, w': Writer, w'': Writer, path: Path)
    requires Released(w, w', path) && Released(w', w'', path)
    ensures Released(w, w'', path)
  {
  }

  lemma FullReleases(e: Env, w: Writer, path: Path, record: BodyRecord, body: seq<byte>, storage: Storage, f: Faults)
    requires e.p.Sound() && Inv(e, w) && Released(w, w, path)
    ensures var w2 := Rotated(e, w, storage, BucketFloor(record.observedAt), f.seal2, f.create2);
            ActiveExists(w2) && Released(w, AppendFresh(e, w2, record, body, f.cut).writer, path)
  {
    var bucket := BucketFloor(record.observedAt);
    var w2 := Rotated(e, w, storage, bucket, f.seal2, f.create2);
    RotatedReleases(e, w, path, storage, bucket, f.seal2, f.create2);
    RotatedKeeps(e, w, storage, bucket, f.seal2, f.create2);
    AppendFreshReleases(e, w2, path, record, body, f.cut);
    ReleasedTransitive(w, w2, AppendFresh(e, w2, record, body, f.cut).writer, path);
  }

  lemma AppendToReleases(
      e: Env, w: Writer, path: Path, record: BodyRecord, body: seq<byte>, storage: Storage, f: Faults)
    requires e.p.Sound() && Inv(e, w) && Released(w, w, path)
    ensures Released(w, AppendTo(e, w, record, body, storage, f).writer, path)
  {
    if w.active.Some? && EncodeResult(e.p, Placed(e, record, w.active.value.path), body).Ok? {
      WriteReleases(e, w, path, Placed(e, record, w.active.value.path), body, f.cut);
      FullReleases(e, w, path, record, body, storage, f);
    }
  }

  lemma AppendReleases(
    e: Env, w: Writer, path: Path, record: BodyRecord, body: seq<byte>, archiveAvailable: bool, f: Faults)
    requires e.p.Sound() && Inv(e, w) && Released(w, w, path)
    ensures Released(w, Append(e, w, record, body, archiveAvailable, f).writer, path)
  {
    var storage, bucket := StorageFor(archiveAvailable), BucketFloor(record.observedAt);
    RotatedKeeps(e, w, storage, bucket, f.seal, f.create);
    RotatedReleases(e, w, path, storage, bucket, f.seal, f.create);
    var w1 := Opened(e, w, storage, bucket, f);
    AppendToReleases(e, w1, path, record, body, storage, f);
    ReleasedTransitive(w, w1, AppendTo(e, w1, record, body, storage, f).writer, path);
  }

  /** One step leaves alone every file except the active one. */
  lemma OnlyActiveGrows(e: Env, w: Writer, op: Op, path: Path)
    requires e.p.Sound() && Inv(e, w) && Released(w, w, path)
    ensures Released(w, Next(e, w, op), path)
  {
    match op {
      case Record(record, body, archiveAvailable, faults) =>
        AppendReleases(e, w, path, Stamped(e.p, record, body), body, archiveAvailable, faults);
      case SealActive(fault) => LetGoReleases(e, w, path, fault);
      case SealIdle(_, _, fault) => LetGoReleases(e, w, path, fault);
      case Crash =>
      case Recover(orphan, fault) =>
        if Orphan(w, orphan) {
          SealLeavesAlone(e, orphan, w.segments[orphan], fault);
        }
    }
  }

  /** A file the writer has let go of is never written again; recovery may cut a torn tail off it once. */
  lemma {:induction false} ReleasedStaysSame(e: Env, ws: seq<Writer>, ops: seq<Op>, m: nat, n: nat, path: Path)
    requires e.p.Sound() && IsRun(e, ws, ops) && m <= n < |ws| && Released(ws[m], ws[m], path)
    ensures Released(ws[m], ws[n], path)
    decreases n
  {
    if m < n {
      ReleasedStaysSame(e, ws, ops, m, n - 1, path);
      RunKeeps(e, ws, ops, n - 1);
      ReleasedStep(e, ws[m], ws[n - 1], ops[n - 1], path);
    }
  }

  lemma ReleasedStep(e: Env, was: Writer, w: Writer, op: Op, path: Path)
    requires e.p.Sound() && Inv(e, w) && Released(was, w, path)
    ensures Released(was, Next(e, w, op), path)
  {
    assert Released(w, w, path);
    OnlyActiveGrows(e, w, op, path);
    ReleasedTransitive(was, w, Next(e, w, op), path);
  }

  // ---------------------------------------------------------------- the writer itself

  class SegmentWriter {
    const e: Env
    var active: Option<Active>
    var segments: map<Path, Segment>
    var nextId: nat

    constructor (e: Env)
      ensures this.e == e && State() == Initial && Inv(e, State())
    {
      this.e := e;
      active, segments, nextId := None, map[], 0;
    }

    function State(): Writer
      reads this
    {
      Writer(active, segments, nextId)
    }

    /** `create_segment` and `create_segment_at`. */
    method CreateSegment(storage: Storage, bucket: int, creation: Creation) returns (ok: bool)
      requires active == None
      modifies this
      ensures State() == Create(e, old(State()), storage, bucket, creation)
      ensures ok == active.Some?
    {
      var path := Path(storage, DateParts(e.calendar, DayFloor(bucket)), bucket, nextId);
      nextId := nextId + 1;
      if creation.NoFile? {
        return false;
      }
      if creation.FileOnly? {
        segments := segments[path := Started(creation.written)];
        return false;
      }
      segments := segments[path := NewSegment];
      active := Some(Active(path, storage, bucket, bucket));
      ok := true;
    }

    /** `seal_active_segment` on a segment already taken: truncate, then write the manifest. */
    method SealTaken(path: Path, fault: SealFault) returns (ok: bool)
      requires path in segments
      modifies this`segments
      ensures segments == old(segments)[path := Seal(e, old(segments)[path], fault).segment]
      ensures ok == Seal(e, old(segments)[path], fault).ok
    {
      if fault == BeforeScan {
        return false;
      }
      var file := new SegmentFile(segments[path].bytes);
      var frames := file.ScanSegment(e.p, true);
      if frames.Err? {
        return false;
      }
      segments := segments[path := segments[path].(bytes := file.bytes, recovered := Some(frames.value))];
      if fault == AfterScan {
        return false;
      }
      segments := segments[path := segments[path].(isSealed := true)];
      ok := true;
    }

    method Rotate(storage: Storage, bucket: int, fault: SealFault, creation: Creation) returns (ok: bool)
      requires ActiveExists(State())
      modifies this
      ensures State() == Rotated(e, old(State()), storage, bucket, fault, creation)
      ensures ok == active.Some?
    {
      if active.Some? {
        var path := active.value.path;
        active := None;
        var sealed := SealTaken(path, fault);
        if !sealed {
          return false;
        }
      }
      ok := CreateSegment(storage, bucket, creation);
    }

    /** The write itself, to the active file. */
    method WriteFrame(placed: BodyRecord, body: seq<byte>, encoded: Encoded, cut: Option<nat>)
      returns (r: Result<BodyRecord>)
      requires active.Some? && active.value.path in segments && EncodeResult(e.p, placed, body) == Ok(encoded)
      modifies this
      ensures Outcome(State(), r) == Write(e, old(State()), placed, body, cut)
    {
      var path := active.value.path;
      var content := SegmentFrame(Written(e, placed, body), body);
      segments := segments[path := Grown(segments[path], encoded.frame, content, cut)];
      if cut.Some? {
        return Err("write failed");
      }
      active := Some(active.value.(lastWrite := placed.observedAt));
      r := Ok(encoded.record);
    }

    /** The record goes to a segment started for it; the segment is active again only once it encodes. */
    method WriteFresh(record: BodyRecord, body: seq<byte>, cut: Option<nat>) returns (r: Result<BodyRecord>)
      requires active.Some? && active.value.path in segments
      modifies this
      ensures Outcome(State(), r) == AppendFresh(e, old(State()), record, body, cut)
    {
      var started := active;
      active := None;
      var placed := Placed(e, record, started.value.path);
      var encoded := EncodeSegmentFrame(e.p, placed, body);
      if encoded.Err? {
        return Err(encoded.error);
      }
      active := started;
      r := WriteFrame(placed, body, encoded.value, cut);
    }

    /** Appends one record: what is written where is `Append`, and the invariant is kept. */
    method AppendSegmentFrame(record: BodyRecord, body: seq<byte>, archiveAvailable: bool, f: Faults)
      returns (r: Result<BodyRecord>)
      requires Inv(e, State()) && HashOf(e, record, body)
      modifies this
      ensures Outcome(State(), r) == Append(e, old(State()), record, body, archiveAvailable, f)
      ensures Inv(e, State())
    {
      AppendKeeps(e, State(), record, body, archiveAvailable, f);
      var storage := StorageFor(archiveAvailable);
      var bucket := BucketFloor(record.observedAt);
      if !Matches(State(), storage, bucket) {
        RotatedKeeps(e, State(), storage, bucket, f.seal, f.create);
        var ok := Rotate(storage, bucket, f.seal, f.create);
        if !ok {
          return Err("rotation failed");
        }
      }
      var placed := Placed(e, record, active.value.path);
      var encoded := EncodeSegmentFrame(e.p, placed, body);
      if encoded.Err? {
        return Err(encoded.error);
      }
      if !WouldExceed(|segments[active.value.path].bytes|, |encoded.value.frame|) {
        r := WriteFrame(placed, body, encoded.value, f.cut);
        return;
      }
      RotatedKeeps(e, State(), storage, bucket, f.seal2, f.create2);
      var ok := Rotate(storage, bucket, f.seal2, f.create2);
      if !ok {
        return Err("rotation failed");
      }
      r := WriteFresh(record, body, f.cut);
    }
  }
}
