/**
 The capture pressure controller: degrade to metadata-only under pressure, heal by consecutive
 healthy backup cycles, and share the decision between processes through one state file.
 */
module Pressure {
  import opened Common

  const BACKUP_WARN_AGE_MS := 6 * 60 * 60 * 1_000
  const BACKUP_DEGRADE_AGE_MS := 24 * 60 * 60 * 1_000
  const FREE_WARN_BYTES := 100_000_000_000
  const FREE_DEGRADE_BYTES := 50_000_000_000
  const FREE_WARN_BPS := 1_500
  const FREE_DEGRADE_BPS := 800
  const UNBACKED_DEGRADE_BYTES := 50_000_000_000
  const UNBACKED_RESUME_BYTES := 10_000_000_000
  const HEALTHY_BACKUP_CYCLES_TO_RESUME := 2
  const UNBACKED_SNAPSHOT_BYTES := 64 * 1024 * 1024
  const UNBACKED_SNAPSHOT_INTERVAL_MS := 60 * 1_000

  type i64 = x: int | -0x8000_0000_0000_0000 <= x <= 0x7FFF_FFFF_FFFF_FFFF

  function SatSub(a: i64, b: i64): i64 {
    if a - b < -0x8000_0000_0000_0000 then -0x8000_0000_0000_0000
    else if a - b > 0x7FFF_FFFF_FFFF_FFFF then 0x7FFF_FFFF_FFFF_FFFF
    else a - b
  }

  function SatMul(a: u64, b: u64): u64 {
    if a * b > U64_MAX then U64_MAX else assert a * b >= 0; a * b
  }

  function SatInc32(a: u32): u32 { if a == 0xFFFF_FFFF then a else a + 1 }

  datatype Mode = SegmentedFullWire | HealingProbe | MetadataOnly

  datatype Observation = Observation(
    freeBytes: u64, capacityBytes: u64, lastBackupAt: Option<i64>, backupGeneration: u64, unbackedBytes: u64)

  /** The persisted state; queue gauges are process-local and always stored as zero. */
  datatype State = State(
    mode: Mode,
    reasons: seq<string>,
    resumeBlockers: seq<string>,
    healthyCycles: u32,
    lastGeneration: u64,
    writerFailures: u64,
    queueDrops: u64,
    unbackedBytes: u64,
    updatedAt: i64)

  const DEFAULT := State(SegmentedFullWire, [], [], 0, 0, 0, 0, 0, 0)

  // ---------------------------------------------------------------- thresholds

  function RatioBps(freeBytes: u64, capacityBytes: u64): u64 {
    if capacityBytes == 0 then 0
    else
      DivisionShrinks(SatMul(freeBytes, 10_000), capacityBytes);
      SatMul(freeBytes, 10_000) / capacityBytes
  }

  lemma DivisionShrinks(a: nat, b: nat)
    requires b > 0
    ensures 0 <= a / b <= a
  {
    DivAtLeast(a, b, a + 1);
    MulGrows(a + 1, b);
  }

  lemma MulGrows(x: nat, b: nat)
    requires b > 0
    ensures x * b >= x
  {
  }

  function ResumeFreeThreshold(capacityBytes: u64): u64 {
    Min(FREE_WARN_BYTES, SatMul(FREE_WARN_BPS, capacityBytes) / 10_000)
  }

  predicate FreeSevere(o: Observation) {
    o.freeBytes < FREE_DEGRADE_BYTES || RatioBps(o.freeBytes, o.capacityBytes) < FREE_DEGRADE_BPS
  }

  predicate FreeBlocksResume(o: Observation) {
    o.freeBytes < ResumeFreeThreshold(o.capacityBytes)
  }

  // ---------------------------------------------------------------- one evaluation

  function BackupAge(o: Observation, now: i64): Option<nat> {
    match o.lastBackupAt
    case None => None
    case Some(completed) => Some(Max(SatSub(now, completed), 0))
  }

  predicate NothingLeft(o: Observation) { o.unbackedBytes == 0 }

  function If(condition: bool, reason: string): seq<string> { if condition then [reason] else [] }

  function Severe(s: State, o: Observation, now: i64): seq<string> {
    var age := BackupAge(o, now);
    If((age.Some? && age.value > BACKUP_DEGRADE_AGE_MS && !NothingLeft(o)) || (age.None? && s.lastGeneration > 0),
       "backup_stale")
    + If(FreeSevere(o), "free_bytes")
    + If(o.unbackedBytes > UNBACKED_DEGRADE_BYTES, "unbacked_bytes")
  }

  function Warnings(o: Observation, now: i64): seq<string> {
    var age := BackupAge(o, now);
    (if age.Some? && age.value > BACKUP_WARN_AGE_MS then ["backup_stale"] else If(age.None?, "backup_missing"))
    + If(o.freeBytes < FREE_WARN_BYTES || RatioBps(o.freeBytes, o.capacityBytes) < FREE_WARN_BPS, "free_bytes")
  }

  predicate FreshReceipt(o: Observation, now: i64) {
    BackupAge(o, now).Some? && BackupAge(o, now).value <= BACKUP_WARN_AGE_MS
  }

  function ResumeBlockers(o: Observation, now: i64): seq<string> {
    If(!(FreshReceipt(o, now) || NothingLeft(o)), "backup_stale_for_resume")
    + If(FreeBlocksResume(o), "free_bytes_below_resume")
    + If(o.unbackedBytes >= UNBACKED_RESUME_BYTES, "unbacked_bytes_above_resume")
  }

  /** The healing branch, for a controller that is not in full-wire mode. */
  function Heal(s: State, o: Observation, now: i64): State {
    var blockers := ResumeBlockers(o, now);
    var healthy := blockers == [];
    var trigger := FreshReceipt(o, now) || o.backupGeneration > s.lastGeneration || NothingLeft(o);
    var cycles := if healthy && trigger then SatInc32(s.healthyCycles) else if !healthy then 0 else s.healthyCycles;
    if cycles >= HEALTHY_BACKUP_CYCLES_TO_RESUME then
      s.(mode := SegmentedFullWire, reasons := [], resumeBlockers := [], healthyCycles := 0)
    else if healthy && cycles == 1 then
      s.(mode := HealingProbe, reasons := ["healing_backup_probe"], resumeBlockers := blockers, healthyCycles := cycles)
    else
      s.(mode := MetadataOnly, reasons := ["healing_backup_cycles"], resumeBlockers := blockers,
         healthyCycles := cycles)
  }

  function Decide(s: State, o: Observation, now: i64): State {
    var severe := Severe(s, o, now);
    if severe != [] then s.(mode := MetadataOnly, reasons := severe, resumeBlockers := [], healthyCycles := 0)
    else if BackupAge(o, now).None? && o.backupGeneration == 0 then
      s.(mode := SegmentedFullWire, reasons := [], resumeBlockers := [], healthyCycles := 0)
    else if s.mode != SegmentedFullWire then Heal(s, o, now)
    else s.(reasons := [], resumeBlockers := [], healthyCycles := 0)
  }

  function Evaluated(s: State, o: Observation, now: i64): State {
    Decide(s, o, now).(lastGeneration := Max(s.lastGeneration, o.backupGeneration),
                       unbackedBytes := o.unbackedBytes, updatedAt := now)
  }

  // ---------------------------------------------------------------- laws of one controller

  /** What every state written by an evaluation satisfies. */
  ghost predicate Coherent(s: State) {
    && (s.mode == HealingProbe <==> s.healthyCycles == 1)
    && (s.mode != HealingProbe ==> s.healthyCycles == 0)
    && (s.reasons == [] <==> s.mode == SegmentedFullWire)
    && (s.mode == SegmentedFullWire ==> s.resumeBlockers == [])
  }

  /** Passing every resume gate always counts as a healthy cycle, so no gate-free state is stuck. */
  lemma GatesImplyTrigger(o: Observation, now: i64)
    requires ResumeBlockers(o, now) == []
    ensures FreshReceipt(o, now) || NothingLeft(o)
  {
  }

  /** From any persisted state whatever, one evaluation restores coherence, and a metadata-only result
      names a severe reason or at least one resume gate. */
  lemma EvaluationIsCoherent(s: State, o: Observation, now: i64)
    ensures var r := Evaluated(s, o, now);
            && Coherent(r)
            && (r.mode == MetadataOnly ==>
                  (r.reasons == Severe(s, o, now) && r.reasons != [])
                  || (r.reasons == ["healing_backup_cycles"] && r.resumeBlockers != []))
            && (r.mode == HealingProbe ==> r.resumeBlockers == [])
  {
  }

  function Repeat(s: State, o: Observation, now: i64, n: nat): State {
    if n == 0 then s else Evaluated(Repeat(s, o, now, n - 1), o, now)
  }

  lemma ThirdModeIsSecond(s: State, o: Observation, now: i64)
    ensures Evaluated(Evaluated(Evaluated(s, o, now), o, now), o, now).mode
         == Evaluated(Evaluated(s, o, now), o, now).mode
  {
  }

  /** Repeating one observation never oscillates: the mode is constant from the second evaluation on. */
  lemma {:induction false} NoOscillation(s: State, o: Observation, now: i64, n: nat)
    requires n >= 2
    ensures Repeat(s, o, now, n).mode == Repeat(s, o, now, 2).mode
  {
    if n > 2 {
      NoOscillation(s, o, now, n - 1);
      var t := Repeat(s, o, now, n - 3);
      ThirdModeIsSecond(t, o, now);
      assert Repeat(s, o, now, n - 2) == Evaluated(t, o, now);
      assert Repeat(s, o, now, n - 1) == Evaluated(Repeat(s, o, now, n - 2), o, now);
    }
  }

  datatype Input = Input(observation: Observation, now: i64)

  function Run(s: State, inputs: seq<Input>): State
    decreases |inputs|
  {
    if inputs == [] then s else Run(Evaluated(s, inputs[0].observation, inputs[0].now), inputs[1..])
  }

  /** Nothing unbacked, a receipt of any age, and free space that neither degrades nor blocks. */
  predicate Clean(i: Input) {
    var o := i.observation;
    NothingLeft(o) && o.lastBackupAt.Some? && !FreeSevere(o) && !FreeBlocksResume(o)
  }

  lemma CleanStep(s: State, i: Input)
    requires Clean(i)
    ensures var r := Evaluated(s, i.observation, i.now);
            && (r.mode == SegmentedFullWire || (r.mode == HealingProbe && r.healthyCycles == 1))
            && (s.mode == SegmentedFullWire || (s.mode == HealingProbe && s.healthyCycles == 1) ==>
                r.mode == SegmentedFullWire)
  {
    assert Severe(s, i.observation, i.now) == [];
    assert ResumeBlockers(i.observation, i.now) == [];
  }

  /** A clean install is full-wire after two evaluations and stays so, however old its backup gets. */
  lemma {:induction false} CleanRunResumes(s: State, inputs: seq<Input>)
    requires forall i | i in inputs :: Clean(i)
    requires |inputs| >= 2
    ensures Run(s, inputs).mode == SegmentedFullWire
  {
    var once := Evaluated(s, inputs[0].observation, inputs[0].now);
    CleanStep(s, inputs[0]);
    CleanRunStays(once, inputs[1..]);
  }

  lemma {:induction false} CleanRunStays(s: State, inputs: seq<Input>)
    requires forall i | i in inputs :: Clean(i)
    requires inputs != [] && (s.mode == SegmentedFullWire || (s.mode == HealingProbe && s.healthyCycles == 1))
    ensures Run(s, inputs).mode == SegmentedFullWire
    decreases |inputs|
  {
    CleanStep(s, inputs[0]);
    if |inputs| > 1 {
      CleanRunStays(Evaluated(s, inputs[0].observation, inputs[0].now), inputs[1..]);
    }
  }

  /** Data is waiting and the newest receipt is over six hours old. */
  predicate Overdue(i: Input) {
    var age := BackupAge(i.observation, i.now);
    !NothingLeft(i.observation) && age.Some? && age.value > BACKUP_WARN_AGE_MS
  }

  /** A degraded controller never resumes while every observation is overdue. */
  lemma {:induction false} OverdueNeverResumes(s: State, inputs: seq<Input>)
    requires forall i | i in inputs :: Overdue(i)
    requires s.mode != SegmentedFullWire && inputs != []
    ensures Run(s, inputs).mode == MetadataOnly
    decreases |inputs|
  {
    var r := Evaluated(s, inputs[0].observation, inputs[0].now);
    assert Overdue(inputs[0]);
    assert ResumeBlockers(inputs[0].observation, inputs[0].now) != [];
    if |inputs| > 1 {
      OverdueNeverResumes(r, inputs[1..]);
    }
  }

  // ---------------------------------------------------------------- the free-space dead band

  function CeilDiv(a: nat, b: nat): nat
    requires b > 0
  {
    (a + b - 1) / b
  }

  function DegradeFloor(capacity: u64): nat { Max(FREE_DEGRADE_BYTES, CeilDiv(FREE_DEGRADE_BPS * capacity, 10_000)) }

  function ResumeCeiling(capacity: u64): nat { Min(FREE_WARN_BYTES, FREE_WARN_BPS * capacity / 10_000) }

  /** A free value that neither degrades nor lets a degraded controller resume. */
  predicate InDeadBand(freeBytes: u64, capacity: u64) {
    var o := Observation(freeBytes, capacity, None, 0, 0);
    !FreeSevere(o) && FreeBlocksResume(o)
  }

  lemma SaturationDoesNotMoveCeiling(capacity: u64)
    ensures ResumeFreeThreshold(capacity) == ResumeCeiling(capacity)
  {
  }

  lemma RatioTest(freeBytes: u64, capacity: u64)
    requires freeBytes < FREE_WARN_BYTES && capacity > 0
    ensures RatioBps(freeBytes, capacity) >= FREE_DEGRADE_BPS <==>
              freeBytes >= CeilDiv(FREE_DEGRADE_BPS * capacity, 10_000)
  {
    var scaled := freeBytes * 10_000;
    assert SatMul(freeBytes, 10_000) == scaled;
    DivAtLeast(scaled, capacity, FREE_DEGRADE_BPS);
  }

  lemma DivAtLeast(a: nat, b: nat, k: nat)
    requires b > 0
    ensures a / b >= k <==> a >= k * b
  {
    var q, r := a / b, a % b;
    assert a == q * b + r;
    if q >= k {
      assert q * b >= k * b;
    } else {
      assert (q + 1) * b <= k * b;
    }
  }

  /** The band the two thresholds describe, for every capacity. */
  lemma DeadBandIs(freeBytes: u64, capacity: u64)
    ensures InDeadBand(freeBytes, capacity) <==> DegradeFloor(capacity) <= freeBytes < ResumeCeiling(capacity)
  {
    SaturationDoesNotMoveCeiling(capacity);
    if capacity > 0 && freeBytes < FREE_WARN_BYTES {
      RatioTest(freeBytes, capacity);
    }
  }

  /** A stuck free value exists exactly when the degrade floor lies below the resume ceiling. */
  lemma DeadBandExistsIff(capacity: u64)
    ensures (exists freeBytes: u64 :: InDeadBand(freeBytes, capacity)) <==>
              DegradeFloor(capacity) < ResumeCeiling(capacity)
  {
    if DegradeFloor(capacity) < ResumeCeiling(capacity) {
      DeadBandIs(DegradeFloor(capacity), capacity);
    } else {
      forall freeBytes: u64
        ensures !InDeadBand(freeBytes, capacity)
      {
        DeadBandIs(freeBytes, capacity);
      }
    }
  }

  // ---------------------------------------------------------------- when it degrades and when it resumes

  /** The receipt is over a day old with bytes waiting, or it is gone although a generation was seen. */
  predicate BackupIsStale(s: State, o: Observation, now: i64) {
    if o.lastBackupAt.Some? then now - o.lastBackupAt.value > 86_400_000 && o.unbackedBytes > 0
    else s.lastGeneration > 0
  }

  /** Less than 50 GB or less than 8 % free, the latter on a free count that saturates when scaled. */
  predicate SpaceIsLow(o: Observation) {
    || o.freeBytes < 50_000_000_000
    || o.capacityBytes == 0
    || Min(o.freeBytes * 10_000, U64_MAX) < 800 * o.capacityBytes
  }

  predicate TooMuchUnbacked(o: Observation) { o.unbackedBytes > 50_000_000_000 }

  predicate MustDegrade(s: State, o: Observation, now: i64) {
    BackupIsStale(s, o, now) || SpaceIsLow(o) || TooMuchUnbacked(o)
  }

  function DegradeReasons(s: State, o: Observation, now: i64): seq<string> {
    (if BackupIsStale(s, o, now) then ["backup_stale"] else [])
    + (if SpaceIsLow(o) then ["free_bytes"] else [])
    + (if TooMuchUnbacked(o) then ["unbacked_bytes"] else [])
  }

  /** Below saturation that is 8 % of the capacity. */
  lemma SpaceIsLowBelowEightPercent(o: Observation)
    requires o.freeBytes <= 1_844_674_407_370_955 && o.capacityBytes > 0
    ensures SpaceIsLow(o) <==> o.freeBytes < 50_000_000_000 || 100 * o.freeBytes < 8 * o.capacityBytes
  {
  }

  lemma SevereSpace(o: Observation)
    ensures FreeSevere(o) <==> SpaceIsLow(o)
  {
    if o.capacityBytes > 0 {
      var scaled: nat := SatMul(o.freeBytes, 10_000);
      DivAtLeast(scaled, o.capacityBytes, 800);
    }
  }

  lemma SevereReasons(s: State, o: Observation, now: i64)
    ensures Severe(s, o, now) == DegradeReasons(s, o, now)
  {
    SevereSpace(o);
  }

  /** From any state, an evaluation degrades with exactly these reasons if and only if one of the three
      conditions holds. */
  lemma DegradesIff(s: State, o: Observation, now: i64)
    ensures var r := Evaluated(s, o, now);
            MustDegrade(s, o, now) <==>
              r.mode == MetadataOnly && r.reasons == DegradeReasons(s, o, now) && r.reasons != []
    ensures MustDegrade(s, o, now) ==>
              Evaluated(s, o, now).resumeBlockers == [] && Evaluated(s, o, now).healthyCycles == 0
  {
    SevereReasons(s, o, now);
  }

  /** A full-wire controller leaves full-wire only then, and an install that never backed up is full-wire
      otherwise. */
  lemma FullWireUnlessDegraded(s: State, o: Observation, now: i64)
    requires s.mode == SegmentedFullWire || (o.lastBackupAt.None? && o.backupGeneration == 0)
    ensures Evaluated(s, o, now).mode == SegmentedFullWire <==> !MustDegrade(s, o, now)
  {
    SevereReasons(s, o, now);
  }

  /** Bytes are waiting and the newest receipt is over six hours old or missing. */
  predicate ReceiptBlocks(o: Observation, now: i64) {
    o.unbackedBytes > 0 && (o.lastBackupAt.None? || now - o.lastBackupAt.value > 21_600_000)
  }

  /** Less free than 100 GB and than 15 % of the capacity, again scaled with saturation. */
  predicate SpaceBlocks(o: Observation) {
    o.freeBytes < 100_000_000_000 && o.freeBytes < Min(1_500 * o.capacityBytes, U64_MAX) / 10_000
  }

  predicate UnbackedBlocks(o: Observation) { o.unbackedBytes >= 10_000_000_000 }

  function Blockers(o: Observation, now: i64): seq<string> {
    (if ReceiptBlocks(o, now) then ["backup_stale_for_resume"] else [])
    + (if SpaceBlocks(o) then ["free_bytes_below_resume"] else [])
    + (if UnbackedBlocks(o) then ["unbacked_bytes_above_resume"] else [])
  }

  /** A degraded controller with nothing to degrade it, and some backup behind it: it stays degraded and
      names the gates that hold it if there are any, and otherwise probes first and resumes next. */
  lemma HealsIff(s: State, o: Observation, now: i64)
    requires s.mode != SegmentedFullWire && !MustDegrade(s, o, now)
    requires o.lastBackupAt.Some? || o.backupGeneration > 0
    ensures var r := Evaluated(s, o, now);
            && (Blockers(o, now) != [] ==>
                  && r.mode == MetadataOnly && r.reasons == ["healing_backup_cycles"]
                  && r.resumeBlockers == Blockers(o, now))
            && (Blockers(o, now) == [] && s.healthyCycles == 0 ==>
                  r.mode == HealingProbe && r.reasons == ["healing_backup_probe"])
            && (Blockers(o, now) == [] && s.healthyCycles > 0 ==> r.mode == SegmentedFullWire)
  {
    SevereReasons(s, o, now);
    assert ResumeBlockers(o, now) == Blockers(o, now);
    if Blockers(o, now) == [] {
      GatesImplyTrigger(o, now);
    }
  }

  /** What an evaluation takes from the observation, and what it leaves alone. */
  lemma EvaluationKeepsCounters(s: State, o: Observation, now: i64)
    ensures var r := Evaluated(s, o, now);
            && r.writerFailures == s.writerFailures && r.queueDrops == s.queueDrops
            && r.unbackedBytes == o.unbackedBytes && r.updatedAt == now
            && r.lastGeneration >= s.lastGeneration && r.lastGeneration >= o.backupGeneration
            && (r.lastGeneration == s.lastGeneration || r.lastGeneration == o.backupGeneration)
  {
  }

  /** The warnings: a receipt over six hours old or missing, and less than 100 GB or 15 % free. */
  lemma WarningsAre(o: Observation, now: i64)
    ensures "backup_stale" in Warnings(o, now) <==> o.lastBackupAt.Some? && now - o.lastBackupAt.value > 21_600_000
    ensures "backup_missing" in Warnings(o, now) <==> o.lastBackupAt.None?
    ensures "free_bytes" in Warnings(o, now) <==>
              || o.freeBytes < 100_000_000_000
              || o.capacityBytes == 0
              || Min(o.freeBytes * 10_000, U64_MAX) < 1_500 * o.capacityBytes
    ensures |Warnings(o, now)| <= 2
  {
    if o.capacityBytes > 0 {
      var scaled: nat := SatMul(o.freeBytes, 10_000);
      DivAtLeast(scaled, o.capacityBytes, 1_500);
    }
    assert |"backup_stale"| == 12 && |"backup_missing"| == 14 && |"free_bytes"| == 10;
  }
}
