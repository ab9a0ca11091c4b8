/** One pressure state file shared by any number of capture processes, under a file lock. */
module PressureShared {
  import opened Common
  import opened Pressure

  datatype StateFile = Missing | Invalid | Unreadable | Stored(state: State)

  function ReadState(file: StateFile): State {
    match file
    case Missing => DEFAULT
    case Invalid => DEFAULT.(mode := MetadataOnly, reasons := ["pressure_state_invalid"])
    case Unreadable => DEFAULT.(mode := MetadataOnly, reasons := ["pressure_state_unreadable"])
    case Stored(s) => s
  }

  predicate PersistedChanged(before: State, after: State) {
    || before.mode != after.mode
    || before.reasons != after.reasons
    || before.resumeBlockers != after.resumeBlockers
    || before.healthyCycles != after.healthyCycles
    || before.lastGeneration != after.lastGeneration
    || before.writerFailures != after.writerFailures
    || before.queueDrops != after.queueDrops
  }

  function AbsDiff(a: u64, b: u64): u64 { if a < b then b - a else a - b }

  /** Unbacked bytes alone are written out when they moved far, or moved at all a minute ago. */
  predicate SnapshotDue(before: State, after: State, now: i64) {
    var drift := AbsDiff(after.unbackedBytes, before.unbackedBytes);
    drift > 0 && (drift >= UNBACKED_SNAPSHOT_BYTES || SatSub(now, before.updatedAt) >= UNBACKED_SNAPSHOT_INTERVAL_MS)
  }

  /** The operations that take the lock, in the order a process issues them. */
  datatype LockedOp =
    | Evaluate(observation: Observation, now: i64)
    | WriterFailure(reason: string, now: i64)
    | QueueDrop(now: i64)
    | Reconcile(unbackedBytes: u64, now: i64)

  /** What a lone controller that never skips a write would hold afterwards. */
  function Sequential(s: State, op: LockedOp): State {
    match op
    case Evaluate(o, now) => Evaluated(s, o, now)
    case WriterFailure(reason, now) =>
      s.(mode := MetadataOnly, reasons := ["writer_failed:" + reason], resumeBlockers := [], healthyCycles := 0,
         writerFailures := SatAdd(s.writerFailures, 1), updatedAt := now)
    case QueueDrop(now) => s.(queueDrops := SatAdd(s.queueDrops, 1), updatedAt := now)
    case Reconcile(bytes, now) => s.(unbackedBytes := bytes, updatedAt := now)
  }

  predicate Persists(before: State, op: LockedOp) {
    op.Evaluate? ==>
      PersistedChanged(before, Sequential(before, op)) || SnapshotDue(before, Sequential(before, op), op.now)
  }

  /** How the file system treats one operation: its read may fail although the file is there, and so may
      its write. */
  datatype Io = Io(readFails: bool, writeFails: bool)

  const WORKING := Io(false, false)

  /** The state an operation starts from. */
  function Seen(file: StateFile, io: Io): State { ReadState(if io.readFails then Unreadable else file) }

  /** A write replaces the file or, when it fails, leaves it; the caller is then told. */
  function FileAfter(file: StateFile, op: LockedOp, io: Io): StateFile {
    var before := Seen(file, io);
    if Persists(before, op) && !io.writeFails then Stored(Sequential(before, op)) else file
  }

  // ---------------------------------------------------------------- the controller object

  const WRITE_FAILED := "pressure state write failed"

  class SharedFile {
    var file: StateFile

    constructor (file: StateFile)
      ensures this.file == file
    {
      this.file := file;
    }
  }

  datatype Status = Status(state: State, warnings: seq<string>, queueDepth: u64, queueHighWatermark: u64)

  /** One process's controller. `state` may be stale between operations; every locked operation
      starts by reading the shared file again. */
  class PressureController {
    const shared: SharedFile
    var state: State
    var latest: Status
    var localQueueDepth: u64
    var localQueueHighWatermark: u64

    constructor (shared: SharedFile)
      ensures this.shared == shared
      ensures state == ReadState(shared.file) && latest == Status(state, [], 0, 0)
      ensures localQueueDepth == localQueueHighWatermark == 0
    {
      this.shared := shared;
      state := ReadState(shared.file);
      latest := Status(ReadState(shared.file), [], 0, 0);
      localQueueDepth, localQueueHighWatermark := 0, 0;
    }

    /** The healing branch: count healthy cycles, then resume, probe or stay degraded. */
    method HealMode(observation: Observation, now: i64)
      modifies this`state
      ensures state == Heal(old(state), observation, now)
    {
      var blockers := ResumeBlockers(observation, now);
      var healthy := blockers == [];
      state := state.(resumeBlockers := blockers);
      if healthy
         && (FreshReceipt(observation, now) || observation.backupGeneration > state.lastGeneration
             || NothingLeft(observation))
      {
        state := state.(healthyCycles := SatInc32(state.healthyCycles));
      } else if !healthy {
        state := state.(healthyCycles := 0);
      }
      if state.healthyCycles >= HEALTHY_BACKUP_CYCLES_TO_RESUME {
        state := state.(mode := SegmentedFullWire, reasons := [], resumeBlockers := [], healthyCycles := 0);
      } else if healthy && state.healthyCycles == 1 {
        state := state.(mode := HealingProbe, reasons := ["healing_backup_probe"]);
      } else {
        state := state.(mode := MetadataOnly, reasons := ["healing_backup_cycles"]);
      }
    }

    method DecideMode(observation: Observation, now: i64)
      modifies this`state
      ensures state == Decide(old(state), observation, now)
    {
      var severe := Severe(state, observation, now);
      if severe != [] {
        state := state.(mode := MetadataOnly, reasons := severe, resumeBlockers := [], healthyCycles := 0);
      } else if BackupAge(observation, now).None? && observation.backupGeneration == 0 {
        state := state.(mode := SegmentedFullWire, reasons := [], resumeBlockers := [], healthyCycles := 0);
      } else if state.mode != SegmentedFullWire {
        HealMode(observation, now);
      } else {
        state := state.(reasons := [], resumeBlockers := [], healthyCycles := 0);
      }
    }

    method Evaluate(observation: Observation, now: i64, io: Io) returns (r: Result<Status>)
      modifies this, shared
      ensures shared.file == FileAfter(old(shared.file), LockedOp.Evaluate(observation, now), io)
      ensures r.Err? <==> io.writeFails && Persists(Seen(old(shared.file), io), LockedOp.Evaluate(observation, now))
      ensures r.Ok? ==> r.value == latest
      ensures state == Sequential(Seen(old(shared.file), io), LockedOp.Evaluate(observation, now))
      ensures latest == Status(state, Warnings(observation, now), localQueueDepth, localQueueHighWatermark)
      ensures localQueueDepth == old(localQueueDepth) && localQueueHighWatermark == old(localQueueHighWatermark)
    {
      var previous := Seen(shared.file, io);
      state := previous;
      DecideMode(observation, now);
      DecisionKeepsGeneration(previous, observation, now);
      state := state.(lastGeneration := Max(state.lastGeneration, observation.backupGeneration),
                      unbackedBytes := observation.unbackedBytes, updatedAt := now);
      latest := Status(state, Warnings(observation, now), localQueueDepth, localQueueHighWatermark);
      if PersistedChanged(previous, state) || SnapshotDue(previous, state, now) {
        if io.writeFails {
          return Err(WRITE_FAILED);
        }
        shared.file := Stored(state);
      }
      r := Ok(latest);
    }

    method MarkWriterFailure(now: i64, reason: string, io: Io) returns (r: Result<Status>)
      modifies this, shared
      ensures shared.file == FileAfter(old(shared.file), WriterFailure(reason, now), io)
      ensures state == Sequential(Seen(old(shared.file), io), WriterFailure(reason, now))
      ensures latest == Status(state, [], localQueueDepth, localQueueHighWatermark)
      ensures r == if io.writeFails then Err(WRITE_FAILED) else Ok(latest)
      ensures localQueueDepth == old(localQueueDepth) && localQueueHighWatermark == old(localQueueHighWatermark)
    {
      state := Seen(shared.file, io);
      state := state.(mode := MetadataOnly, reasons := ["writer_failed:" + reason], resumeBlockers := [],
                      healthyCycles := 0, writerFailures := SatAdd(state.writerFailures, 1), updatedAt := now);
      latest := Status(state, [], localQueueDepth, localQueueHighWatermark);
      if io.writeFails {
        return Err(WRITE_FAILED);
      }
      shared.file := Stored(state);
      r := Ok(latest);
    }

    method NoteQueueDrop(now: i64, io: Io) returns (r: Result<()>)
      modifies this, shared
      ensures shared.file == FileAfter(old(shared.file), QueueDrop(now), io)
      ensures state == Sequential(Seen(old(shared.file), io), QueueDrop(now))
      ensures latest == old(latest).(state := old(latest).state.(queueDrops := state.queueDrops, updatedAt := now))
      ensures r == if io.writeFails then Err(WRITE_FAILED) else Ok(())
      ensures localQueueDepth == old(localQueueDepth) && localQueueHighWatermark == old(localQueueHighWatermark)
    {
      state := Seen(shared.file, io);
      state := state.(queueDrops := SatAdd(state.queueDrops, 1), updatedAt := now);
      latest := latest.(state := latest.state.(queueDrops := state.queueDrops, updatedAt := now));
      if io.writeFails {
        return Err(WRITE_FAILED);
      }
      shared.file := Stored(state);
      r := Ok(());
    }

    method ReconcileUnbackedBytes(unbackedBytes: u64, now: i64, io: Io) returns (r: Result<()>)
      modifies this, shared
      ensures shared.file == FileAfter(old(shared.file), Reconcile(unbackedBytes, now), io)
      ensures state == Sequential(Seen(old(shared.file), io), Reconcile(unbackedBytes, now))
      ensures latest == old(latest).(state := old(latest).state.(unbackedBytes := unbackedBytes, updatedAt := now))
      ensures r == if io.writeFails then Err(WRITE_FAILED) else Ok(())
      ensures localQueueDepth == old(localQueueDepth) && localQueueHighWatermark == old(localQueueHighWatermark)
    {
      state := Seen(shared.file, io);
      state := state.(unbackedBytes := unbackedBytes, updatedAt := now);
      latest := latest.(state := latest.state.(unbackedBytes := unbackedBytes, updatedAt := now));
      if io.writeFails {
        return Err(WRITE_FAILED);
      }
      shared.file := Stored(state);
      r := Ok(());
    }

    /** Not locked: a captured body moves only this process's copy, until the next observation. */
    method NoteFullCapture(bodyBytes: u64)
      modifies this
      ensures state == old(state).(unbackedBytes := SatAdd(old(state).unbackedBytes, bodyBytes))
      ensures latest == old(latest).(state := old(latest).state.(unbackedBytes := state.unbackedBytes))
      ensures localQueueDepth == old(localQueueDepth) && localQueueHighWatermark == old(localQueueHighWatermark)
    {
      state := state.(unbackedBytes := SatAdd(state.unbackedBytes, bodyBytes));
      latest := latest.(state := latest.state.(unbackedBytes := state.unbackedBytes));
    }
  }

  // ---------------------------------------------------------------- interleavings

  /** The fields every process must agree on. */
  datatype Core = Core(
    mode: Mode, reasons: seq<string>, resumeBlockers: seq<string>, healthyCycles: u32, lastGeneration: u64,
    writerFailures: u64, queueDrops: u64)

  function CoreOf(s: State): Core {
    Core(s.mode, s.reasons, s.resumeBlockers, s.healthyCycles, s.lastGeneration, s.writerFailures, s.queueDrops)
  }

  /** A step of one process: a locked operation, whose read or write may fail, or a capture that touches
      only its own copy. */
  datatype Action = Locked(op: LockedOp, io: Io) | Captured(bodyBytes: u64)

  datatype Step = Step(process: nat, action: Action)

  /** The file and every process's possibly stale copy of it. */
  datatype World = World(file: StateFile, copies: map<nat, State>)

  function CopyOf(w: World, process: nat): State {
    if process in w.copies then w.copies[process] else ReadState(w.file)
  }

  function Next(w: World, step: Step): World {
    match step.action
    case Locked(op, io) =>
      World(FileAfter(w.file, op, io), w.copies[step.process := Sequential(Seen(w.file, io), op)])
    case Captured(bytes) =>
      var c := CopyOf(w, step.process);
      w.(copies := w.copies[step.process := c.(unbackedBytes := SatAdd(c.unbackedBytes, bytes))])
  }

  function RunWorld(w: World, steps: seq<Step>): World {
    if steps == [] then w else Next(RunWorld(w, steps[..|steps| - 1]), steps[|steps| - 1])
  }

  /** The locked operations of a run whose writes did not fail, in lock order, performed by one controller
      that always writes, and that forgets everything when a read fails. */
  function RunAlone(s: State, steps: seq<Step>): State {
    if steps == [] then s
    else
      var before := RunAlone(s, steps[..|steps| - 1]);
      match steps[|steps| - 1].action
      case Locked(op, io) =>
        if io.writeFails then before else Sequential(if io.readFails then ReadState(Unreadable) else before, op)
      case Captured(_) => before
  }

  lemma SequentialOnCore(s: State, t: State, op: LockedOp)
    requires CoreOf(s) == CoreOf(t)
    ensures CoreOf(Sequential(s, op)) == CoreOf(Sequential(t, op))
  {
  }

  lemma DecisionKeepsGeneration(s: State, o: Observation, now: i64)
    ensures Decide(s, o, now).lastGeneration == s.lastGeneration
  {
  }

  lemma SevereAreShort(s: State, o: Observation, now: i64)
    ensures forall reason | reason in Severe(s, o, now) :: |reason| < 25
  {
    SevereReasons(s, o, now);
    assert |"backup_stale"| < 25 && |"free_bytes"| < 25 && |"unbacked_bytes"| < 25;
  }

  /** The reasons an evaluation gives are none of those a failed read gives. */
  lemma ReasonsAreShort(s: State, o: Observation, now: i64)
    ensures forall reason | reason in Evaluated(s, o, now).reasons :: |reason| < 25
  {
    SevereAreShort(s, o, now);
    assert |"healing_backup_probe"| < 25 && |"healing_backup_cycles"| < 25;
    assert Evaluated(s, o, now).reasons == Severe(s, o, now)
        || Evaluated(s, o, now).reasons == []
        || Evaluated(s, o, now).reasons == ["healing_backup_probe"]
        || Evaluated(s, o, now).reasons == ["healing_backup_cycles"];
  }

  /** Whatever an operation makes of a file it could not read, it writes it back. */
  lemma UnreadableIsReplaced(op: LockedOp)
    ensures Persists(ReadState(Unreadable), op)
  {
    if op.Evaluate? {
      var unread, after := ReadState(Unreadable), Sequential(ReadState(Unreadable), op);
      ReasonsAreShort(unread, op.observation, op.now);
      assert |"pressure_state_unreadable"| == 25;
      assert "pressure_state_unreadable" in unread.reasons && "pressure_state_unreadable" !in after.reasons;
    }
  }

  lemma SkippedWriteKeepsCore(file: StateFile, op: LockedOp, io: Io)
    requires !io.writeFails
    ensures CoreOf(ReadState(FileAfter(file, op, io))) == CoreOf(Sequential(Seen(file, io), op))
  {
    UnreadableIsReplaced(op);
  }

  /** No lost update: for every interleaving of any number of processes, what the file says about the
      capture decision is what one controller would say after the same operations in lock order, less
      those whose callers were told that the write failed; only a read that fails makes it start over. */
  lemma {:induction false} NoLostUpdate(w: World, steps: seq<Step>)
    ensures CoreOf(ReadState(RunWorld(w, steps).file)) == CoreOf(RunAlone(ReadState(w.file), steps))
  {
    if steps != [] {
      var before, last := steps[..|steps| - 1], steps[|steps| - 1];
      NoLostUpdate(w, before);
      if last.action.Locked? && !last.action.io.writeFails {
        var file := RunWorld(w, before).file;
        SkippedWriteKeepsCore(file, last.action.op, last.action.io);
        SequentialOnCore(ReadState(file), RunAlone(ReadState(w.file), before), last.action.op);
      }
    }
  }

  /** Calls of one kind counted from `start`, forgotten when a read fails. */
  function Count(start: nat, counts: LockedOp -> bool, steps: seq<Step>): nat {
    if steps == [] then start
    else
      var before := Count(start, counts, steps[..|steps| - 1]);
      match steps[|steps| - 1].action
      case Captured(_) => before
      case Locked(op, io) =>
        if io.writeFails then before else (if io.readFails then 0 else before) + (if counts(op) then 1 else 0)
  }

  function IsFailure(): LockedOp -> bool { (op: LockedOp) => op.WriterFailure? }

  function IsDrop(): LockedOp -> bool { (op: LockedOp) => op.QueueDrop? }

  /** No operation writes back what it could not read. */
  predicate NeverForgets(steps: seq<Step>) {
    forall step | step in steps && step.action.Locked? :: !(step.action.io.readFails && !step.action.io.writeFails)
  }

  ghost predicate Counted(start: State, end: State, steps: seq<Step>) {
    && end.writerFailures == Min(Count(start.writerFailures, IsFailure(), steps), U64_MAX)
    && end.queueDrops == Min(Count(start.queueDrops, IsDrop(), steps), U64_MAX)
  }

  lemma CountersAfter(file: StateFile, op: LockedOp, io: Io)
    requires !io.writeFails
    ensures var before, after := Seen(file, io), ReadState(FileAfter(file, op, io));
            && after.writerFailures == Min(before.writerFailures + (if op.WriterFailure? then 1 else 0), U64_MAX)
            && after.queueDrops == Min(before.queueDrops + (if op.QueueDrop? then 1 else 0), U64_MAX)
            && before.lastGeneration <= after.lastGeneration
  {
    SkippedWriteKeepsCore(file, op, io);
    var after := CoreOf(ReadState(FileAfter(file, op, io)));
    assert after == CoreOf(Sequential(Seen(file, io), op));
  }

  /** The counters in the file count every call of every process whose write did not fail, up to saturation,
      since the start or since the last read that failed. */
  lemma {:induction false} CountersCountAllCalls(w: World, steps: seq<Step>)
    ensures Counted(ReadState(w.file), ReadState(RunWorld(w, steps).file), steps)
  {
    if steps != [] {
      var before, last := steps[..|steps| - 1], steps[|steps| - 1];
      CountersCountAllCalls(w, before);
      if last.action.Locked? && !last.action.io.writeFails {
        CountersAfter(RunWorld(w, before).file, last.action.op, last.action.io);
      }
    }
  }

  /** The backup generation never goes back unless a read that failed is written back. */
  lemma {:induction false} GenerationOnlyRises(w: World, steps: seq<Step>)
    requires NeverForgets(steps)
    ensures ReadState(w.file).lastGeneration <= ReadState(RunWorld(w, steps).file).lastGeneration
  {
    if steps != [] {
      var before, last := steps[..|steps| - 1], steps[|steps| - 1];
      assert last in steps && forall step | step in before :: step in steps;
      GenerationOnlyRises(w, before);
      if last.action.Locked? && !last.action.io.writeFails {
        CountersAfter(RunWorld(w, before).file, last.action.op, last.action.io);
      }
    }
  }

  /** Such a read does set it back: whatever the file held, a queue drop then leaves one drop, no failure and
      generation 0. */
  lemma FailedReadForgets(file: StateFile, now: i64)
    ensures var after := ReadState(FileAfter(file, QueueDrop(now), Io(true, false)));
            after.lastGeneration == 0 && after.writerFailures == 0 && after.queueDrops == 1
  {
  }

  /** An evaluation that skips its write leaves the published unbacked bytes exact, or off by less than
      64 MiB on a snapshot less than a minute old. */
  lemma SkippedWriteIsClose(file: StateFile, o: Observation, now: i64)
    ensures var published := ReadState(FileAfter(file, LockedOp.Evaluate(o, now), WORKING));
            || published.unbackedBytes == o.unbackedBytes
            || (-67_108_864 < published.unbackedBytes - o.unbackedBytes < 67_108_864
                && now - published.updatedAt < 60_000)
  {
  }

  /** A failed writer degrades capture with its reason and is counted; nothing else is forgotten. */
  lemma WriterFailureDegrades(s: State, reason: string, now: i64)
    ensures var r := Sequential(s, WriterFailure(reason, now));
            && Coherent(r) && r.mode == MetadataOnly && r.reasons == ["writer_failed:" + reason]
            && r.writerFailures == Min(s.writerFailures + 1, U64_MAX)
            && r.queueDrops == s.queueDrops && r.lastGeneration == s.lastGeneration
            && r.unbackedBytes == s.unbackedBytes
  {
  }

  /** A dropped item and a reconciled byte count leave the capture decision alone. */
  lemma BookkeepingKeepsDecision(s: State, now: i64, bytes: u64)
    ensures var dropped := CoreOf(Sequential(s, QueueDrop(now)));
            var reconciled := CoreOf(Sequential(s, Reconcile(bytes, now)));
            && dropped == CoreOf(s).(queueDrops := Min(s.queueDrops + 1, U64_MAX))
            && reconciled == CoreOf(s)
            && Sequential(s, Reconcile(bytes, now)).unbackedBytes == bytes
            && Sequential(s, QueueDrop(now)).unbackedBytes == s.unbackedBytes
  {
  }

  /** An evaluation that changes neither the decision nor the byte count does not touch the file. */
  lemma QuietEvaluationSkipsWrite(file: StateFile, o: Observation, now: i64)
    requires CoreOf(Evaluated(ReadState(file), o, now)) == CoreOf(ReadState(file))
    requires o.unbackedBytes == ReadState(file).unbackedBytes
    ensures FileAfter(file, LockedOp.Evaluate(o, now), WORKING) == file
  {
  }

  /** Without a state file the controller starts in full-wire mode with nothing counted; a file it cannot parse or
      read puts it in metadata-only mode, with that as the reason, and the next locked operation stores that. */
  lemma StateFileDecidesStart(w: World, process: nat, now: i64)
    ensures var t := Next(w, Step(process, Locked(QueueDrop(now), WORKING))).file;
            && (w.file.Missing? ==> t == Stored(State(SegmentedFullWire, [], [], 0, 0, 0, 1, 0, now)))
            && (w.file.Invalid? ==>
                  t == Stored(State(MetadataOnly, ["pressure_state_invalid"], [], 0, 0, 0, 1, 0, now)))
            && (w.file.Unreadable? ==>
                  t == Stored(State(MetadataOnly, ["pressure_state_unreadable"], [], 0, 0, 0, 1, 0, now)))
  {
  }

  /** A capture adds its bytes, up to saturation, to the process's own copy, and nothing else moves. */
  lemma CaptureMovesOwnCopy(w: World, process: nat, bytes: u64)
    ensures var t, was := Next(w, Step(process, Captured(bytes))), CopyOf(w, process);
            && t.file == w.file && CopyOf(t, process).unbackedBytes == Min(was.unbackedBytes + bytes, U64_MAX)
            && CopyOf(t, process).(unbackedBytes := was.unbackedBytes) == was
            && forall other | other != process :: CopyOf(t, other) == CopyOf(w, other)
  {
  }
}
