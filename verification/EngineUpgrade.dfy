/**
 The engine upgrade: stop the service, replace several owned files one after the other, start it
 again, and put every file back when anything goes wrong before the new engine is live.
 */
module EngineUpgrade {
  import opened Common

  type Path = string

  datatype Content = Content(bytes: seq<byte>, mode: nat)

  /** The files, and which of them have an unfinished temporary file beside them. */
  datatype Disk = Disk(files: map<Path, Content>, temps: set<Path>)

  /** Where a write is interrupted: before its temporary file exists, with that file left behind, or
      after the replacement took effect. */
  datatype WriteFault = NoFault | BeforeTemp | LeavesTemp | AfterReplace

  datatype Written = Written(disk: Disk, ok: bool)

  /** `atomic`: refuses to start over an unfinished write. */
  function Atomic(d: Disk, path: Path, content: Content, fault: WriteFault): Written {
    if path in d.temps then Written(d, false)
    else match fault
      case NoFault => Written(d.(files := d.files[path := content]), true)
      case BeforeTemp => Written(d, false)
      case LeavesTemp => Written(d.(temps := d.temps + {path}), false)
      case AfterReplace => Written(d.(files := d.files[path := content]), false)
  }

  /** The targets written in order until one fails; `fault` strikes write number `at`. */
  function WriteAll(d: Disk, targets: seq<Path>, contents: seq<Content>, at: int, fault: WriteFault): Written
    requires |contents| == |targets|
    decreases |targets|
  {
    if targets == [] then Written(d, true)
    else
      var n := |targets| - 1;
      var before := WriteAll(d, targets[..n], contents[..n], at, fault);
      if before.ok then Atomic(before.disk, targets[n], contents[n], if n == at then fault else NoFault) else before
  }

  ghost predicate Distinct(targets: seq<Path>) {
    forall i, j | 0 <= i < j < |targets| :: targets[i] != targets[j]
  }

  /** The files with the first `n` targets holding new contents. */
  function Replaced(files: map<Path, Content>, targets: seq<Path>, contents: seq<Content>, n: nat): map<Path, Content>
    requires n <= |targets| == |contents|
  {
    if n == 0 then files else Replaced(files, targets, contents, n - 1)[targets[n - 1] := contents[n - 1]]
  }

  lemma {:induction false} ReplacedAt(files: map<Path, Content>, targets: seq<Path>, contents: seq<Content>, n: nat)
    requires n <= |targets| == |contents| && Distinct(targets)
    ensures var after := Replaced(files, targets, contents, n);
            && (forall k | 0 <= k < n :: targets[k] in after && after[targets[k]] == contents[k])
            && (forall path | path !in targets[..n] :: path in after <==> path in files)
            && (forall path | path !in targets[..n] && path in files :: after[path] == files[path])
  {
    if n > 0 {
      ReplacedAt(files, targets, contents, n - 1);
      assert targets[..n] == targets[..n - 1] + [targets[n - 1]];
    }
  }

  lemma {:induction false} ReplacedPrefix(
      files: map<Path, Content>, targets: seq<Path>, contents: seq<Content>, m: nat, n: nat)
    requires n <= m <= |targets| == |contents|
    ensures Replaced(files, targets[..m], contents[..m], n) == Replaced(files, targets, contents, n)
    decreases n
  {
    if n > 0 {
      ReplacedPrefix(files, targets, contents, m, n - 1);
    }
  }

  // ---------------------------------------------------------------- how far the writes get

  /** The first target with an unfinished write beside it, or the number of targets. */
  function FirstStale(temps: set<Path>, targets: seq<Path>): (n: nat)
    ensures n <= |targets|
    ensures n < |targets| ==> targets[n] in temps
    ensures forall k | 0 <= k < n :: targets[k] !in temps
  {
    if targets == [] then 0
    else
      var m := |targets| - 1;
      var front := FirstStale(temps, targets[..m]);
      if front < m then front else if targets[m] in temps then m else m + 1
  }

  /** How many of `n` writes replace their file before the fault stops them. */
  function Struck(n: nat, at: int, fault: WriteFault): nat {
    if fault == NoFault || !(0 <= at < n) then n else if fault == AfterReplace then at + 1 else at
  }

  /** How many targets the writes replace: an unfinished write or the fault stops them, whichever comes
      first. */
  function Reach(d: Disk, targets: seq<Path>, at: int, fault: WriteFault): nat {
    Min(FirstStale(d.temps, targets), Struck(|targets|, at, fault))
  }

  /** The temporary file the fault leaves, if it gets that far. */
  function Leftover(d: Disk, targets: seq<Path>, at: int, fault: WriteFault): set<Path> {
    if fault == LeavesTemp && 0 <= at < FirstStale(d.temps, targets) then {targets[at]} else {}
  }

  /** What a sequence of writes leaves, in terms of its inputs alone. */
  lemma {:induction false} WriteAllExact(
      d: Disk, targets: seq<Path>, contents: seq<Content>, at: int, fault: WriteFault)
    requires |contents| == |targets|
    ensures var w := WriteAll(d, targets, contents, at, fault);
            && w.disk.files == Replaced(d.files, targets, contents, Reach(d, targets, at, fault))
            && w.disk.temps == d.temps + Leftover(d, targets, at, fault)
            && (w.ok <==> FirstStale(d.temps, targets) == |targets| && (fault == NoFault || !(0 <= at < |targets|)))
    decreases |targets|
  {
    if targets != [] {
      var m := |targets| - 1;
      WriteAllExact(d, targets[..m], contents[..m], at, fault);
      ReplacedPrefix(d.files, targets, contents, m, Reach(d, targets[..m], at, fault));
    }
  }

  ghost predicate OriginalsOf(d: Disk, targets: seq<Path>, originals: seq<Content>) {
    && |originals| == |targets|
    && forall k | 0 <= k < |targets| :: targets[k] in d.files && originals[k] == d.files[targets[k]]
  }

  /** What a failed upgrade leaves when its rollback may fail too. The writes replaced `Reach` targets;
      of those, the ones from `Struck` on, where the rollback's own fault stopped it, stay new. All other
      targets and all other files are as they were. */
  lemma RollbackExact(
      d: Disk, targets: seq<Path>, contents: seq<Content>, originals: seq<Content>,
      at: int, fault: WriteFault, at2: int, fault2: WriteFault)
    requires Distinct(targets) && |contents| == |targets| && OriginalsOf(d, targets, originals)
    ensures var w := WriteAll(d, targets, contents, at, fault);
            var r := WriteAll(w.disk, targets, originals, at2, fault2);
            && d.temps <= r.disk.temps
            && Left(d.files, r.disk.files, targets, contents,
                    Struck(|targets|, at2, fault2), Reach(d, targets, at, fault))
  {
    var w := WriteAll(d, targets, contents, at, fault);
    var n, m := Reach(d, targets, at, fault), Reach(w.disk, targets, at2, fault2);
    WriteAllExact(d, targets, contents, at, fault);
    WriteAllExact(w.disk, targets, originals, at2, fault2);
    assert n <= FirstStale(w.disk.temps, targets);
    PartlyRestored(d.files, targets, contents, originals, n, m);
  }

  /** Exactly the targets from `lo` up to `hi` are new, and everything else is as it was. */
  ghost predicate Left(
      was: map<Path, Content>, now: map<Path, Content>, targets: seq<Path>, contents: seq<Content>, lo: nat, hi: nat)
    requires |contents| == |targets|
  {
    && now.Keys == was.Keys
    && (forall path | path in was && path !in targets :: now[path] == was[path])
    && (forall k | 0 <= k < |targets| && targets[k] in was ::
          now[targets[k]] == if lo <= k < hi then contents[k] else was[targets[k]])
  }

  /** Every new content differs from the one it replaces. */
  ghost predicate AllDiffer(was: map<Path, Content>, targets: seq<Path>, contents: seq<Content>)
    requires |contents| == |targets|
  {
    forall k | 0 <= k < |targets| && targets[k] in was :: contents[k] != was[targets[k]]
  }

  /** Nothing is left new exactly when the range is empty. */
  lemma LeftNothingIff(
      was: map<Path, Content>, now: map<Path, Content>, targets: seq<Path>, contents: seq<Content>, lo: nat, hi: nat)
    requires |contents| == |targets| && Left(was, now, targets, contents, lo, hi) && hi <= |targets|
    requires forall k | 0 <= k < |targets| :: targets[k] in was
    ensures hi <= lo ==> now == was
    ensures AllDiffer(was, targets, contents) ==> (now == was <==> hi <= lo)
  {
    if hi <= lo {
      forall path | path in was
        ensures now[path] == was[path]
      {
        if path in targets {
          var k :| 0 <= k < |targets| && targets[k] == path;
        }
      }
    } else {
      assert now[targets[lo]] == contents[lo];
    }
  }

  lemma PartlyRestored(
      files: map<Path, Content>, targets: seq<Path>, contents: seq<Content>, originals: seq<Content>, n: nat, m: nat)
    requires Distinct(targets) && n <= |targets| && m <= |targets| && |contents| == |targets| == |originals|
    requires forall k | 0 <= k < |targets| :: targets[k] in files && originals[k] == files[targets[k]]
    ensures var after := Replaced(Replaced(files, targets, contents, n), targets, originals, m);
            && after.Keys == files.Keys
            && (forall path | path in files && path !in targets :: after[path] == files[path])
            && (forall k | 0 <= k < |targets| ::
                after[targets[k]] == if m <= k < n then contents[k] else files[targets[k]])
  {
    var changed := Replaced(files, targets, contents, n);
    ReplacedAt(files, targets, contents, n);
    ReplacedAt(changed, targets, originals, m);
    InPrefix(targets, n);
    InPrefix(targets, m);
  }

  lemma InPrefix(targets: seq<Path>, n: nat)
    requires Distinct(targets) && n <= |targets|
    ensures forall k | 0 <= k < |targets| :: targets[k] in targets[..n] <==> k < n
    ensures forall path | path in targets[..n] :: path in targets
  {
    forall k | 0 <= k < |targets|
      ensures targets[k] in targets[..n] <==> k < n
    {
      if k < n {
        assert targets[..n][k] == targets[k];
      }
    }
  }

  /** Whatever single fault stops the writes, and whatever unfinished writes were lying around before,
      writing the originals back in the same order leaves every file as it was, even when the rollback
      itself stops at a temporary file. */
  lemma RollbackRestores(
    d: Disk, targets: seq<Path>, contents: seq<Content>, originals: seq<Content>, at: int, fault: WriteFault)
    requires Distinct(targets) && |contents| == |targets| && OriginalsOf(d, targets, originals)
    ensures var w := WriteAll(d, targets, contents, at, fault);
            WriteAll(w.disk, targets, originals, -1, NoFault).disk == w.disk.(files := d.files)
  {
    var w := WriteAll(d, targets, contents, at, fault);
    RollbackExact(d, targets, contents, originals, at, fault, -1, NoFault);
    WriteAllExact(w.disk, targets, originals, -1, NoFault);
    var after := WriteAll(w.disk, targets, originals, -1, NoFault).disk.files;
    LeftNothingIff(d.files, after, targets, contents, |targets|, Reach(d, targets, at, fault));
  }

  /** A second fault in the rollback can leave old and new files side by side. */
  lemma TwoFaultsLeaveMix()
    ensures exists d: Disk, a: Path, b: Path, x: Content, y: Content ::
              && a != b && a in d.files && b in d.files && d.temps == {}
              && var w := WriteAll(d, [a, b], [x, y], -1, NoFault);
                 var r := WriteAll(w.disk, [a, b], [d.files[a], d.files[b]], 1, BeforeTemp).disk.files;
                 w.ok && a in r && b in r && r[a] == d.files[a] != x && r[b] == y != d.files[b]
  {
    var was, x, y := Content([], 0), Content([1], 0), Content([2], 0);
    var d := Disk(map["a" := was, "b" := was], {});
    var w := WriteAll(d, ["a", "b"], [x, y], -1, NoFault);
    assert ["a", "b"][..1] == ["a"] && [x, y][..1] == [x] && ["a"][..0] == [] && [x][..0] == [];
    assert w == Written(Disk(map["a" := x, "b" := y], {}), true);
    assert [was, was][..1] == [was] && [was][..0] == [];
    assert WriteAll(w.disk, ["a", "b"], [was, was], 1, BeforeTemp).disk.files == map["a" := was, "b" := y];
    assert d.files["a"] == was && d.files["b"] == was;
  }

  /** Restoring in the opposite order does not have this property. */
  lemma ReverseRollbackLeavesNewFile()
    ensures exists d: Disk, a: Path, b: Path, x: Content, y: Content, fault: WriteFault ::
              && a != b && a in d.files && b in d.files && d.temps == {}
              && var w := WriteAll(d, [a, b], [x, y], 1, fault);
                 !w.ok && WriteAll(w.disk, [b, a], [d.files[b], d.files[a]], -1, NoFault).disk.files != d.files
  {
    var was, x, y := Content([], 0), Content([1], 0), Content([2], 0);
    var d := Disk(map["a" := was, "b" := was], {});
    var w := WriteAll(d, ["a", "b"], [x, y], 1, LeavesTemp);
    assert ["a", "b"][..1] == ["a"] && [x, y][..1] == [x] && ["a"][..0] == [] && [x][..0] == [];
    assert w == Written(Disk(map["a" := x, "b" := was], {"b"}), false);
    assert ["b", "a"][..1] == ["b"] && [was, was][..1] == [was] && ["b"][..0] == [] && [was][..0] == [];
    assert WriteAll(w.disk, ["b", "a"], [was, was], -1, NoFault) == Written(w.disk, false);
    assert w.disk.files["a"] != d.files["a"];
  }

  // ---------------------------------------------------------------- the cutover

  /** The one thing that goes wrong: stopping the service, something before write `k` (a work guard or
      a read), write `k` itself, the first start, or storing the receipt. */
  datatype Fault =
    | Nothing
    | Stopping
    | Writing(k: nat, how: WriteFault)
    | Starting(alive: bool)
    | Receipt

  datatype Action = StopTried | WriteTried(path: Path) | StartTried

  function WriteFaultOf(fault: Fault): WriteFault { if fault.Writing? then fault.how else NoFault }

  function FaultIndex(fault: Fault): int { if fault.Writing? then fault.k else -1 }

  /** The writes go through: no fault among them, and no unfinished write beside a target. */
  ghost predicate WritesSucceed(d: Disk, targets: seq<Path>, fault: Fault) {
    && (fault.Writing? ==> fault.k >= |targets| || fault.how == NoFault)
    && forall k | 0 <= k < |targets| :: targets[k] !in d.temps
  }

  lemma WriteAllOkIff(d: Disk, targets: seq<Path>, contents: seq<Content>, fault: Fault)
    requires |contents| == |targets|
    ensures WriteAll(d, targets, contents, FaultIndex(fault), WriteFaultOf(fault)).ok <==>
              WritesSucceed(d, targets, fault)
  {
    WriteAllExact(d, targets, contents, FaultIndex(fault), WriteFaultOf(fault));
  }

  /** How many targets the upgrade replaces before it fails. */
  function Replacements(d: Disk, targets: seq<Path>, fault: Fault): nat {
    if fault.Stopping? then 0 else Reach(d, targets, FaultIndex(fault), WriteFaultOf(fault))
  }

  /** How many of them its rollback undoes: none when the service came up, failed to stay, and cannot be
      stopped again, otherwise all before the one its own fault strikes. */
  ghost function Restores(d: Disk, targets: seq<Path>, fault: Fault, second: Fault): nat {
    if fault.Starting? && fault.alive && second.Stopping? && WritesSucceed(d, targets, fault) then 0
    else Struck(|targets|, FaultIndex(second), WriteFaultOf(second))
  }

  ghost predicate AllWrites(actions: seq<Action>) { forall a | a in actions :: a.WriteTried? }

  /** Files are only written while the service is stopped: every write comes after a stop, with no start in
      between that brought it up. */
  ghost predicate Quiet(actions: seq<Action>, comesUp: bool) {
    forall i | 0 <= i < |actions| && actions[i].WriteTried? :: StoppedAt(actions, i, comesUp)
  }

  ghost predicate StoppedAt(actions: seq<Action>, i: nat, comesUp: bool)
    requires i <= |actions|
  {
    exists j :: 0 <= j < i && actions[j] == StopTried && (comesUp ==> forall k | j < k < i :: actions[k] != StartTried)
  }

  lemma QuietAppend(actions: seq<Action>, more: seq<Action>, comesUp: bool)
    requires Quiet(actions, comesUp) && AllWrites(more) && StoppedAt(actions, |actions|, comesUp)
    ensures Quiet(actions + more, comesUp) && StoppedAt(actions + more, |actions + more|, comesUp)
  {
    var all := actions + more;
    var j :| 0 <= j < |actions| && actions[j] == StopTried
             && (comesUp ==> forall k | j < k < |actions| :: actions[k] != StartTried);
    assert forall k | |actions| <= k < |all| :: all[k] == more[k - |actions|] && all[k] in more;
    forall i | 0 <= i < |all| && all[i].WriteTried?
      ensures StoppedAt(all, i, comesUp)
    {
      if i < |actions| {
        var j' :| 0 <= j' < i && actions[j'] == StopTried
                  && (comesUp ==> forall k | j' < k < i :: actions[k] != StartTried);
        assert all[j'] == StopTried;
      } else {
        assert all[j] == StopTried;
      }
    }
    assert all[j] == StopTried;
  }

  lemma QuietStop(actions: seq<Action>, comesUp: bool)
    requires Quiet(actions, comesUp)
    ensures Quiet(actions + [StopTried], comesUp)
    ensures StoppedAt(actions + [StopTried], |actions| + 1, comesUp)
  {
    QuietMore(actions, StopTried, comesUp);
    assert (actions + [StopTried])[|actions|] == StopTried;
  }

  lemma QuietMore(actions: seq<Action>, a: Action, comesUp: bool)
    requires Quiet(actions, comesUp) && !a.WriteTried?
    ensures Quiet(actions + [a], comesUp)
    ensures !comesUp && StoppedAt(actions, |actions|, comesUp) ==> StoppedAt(actions + [a], |actions| + 1, comesUp)
  {
    var all := actions + [a];
    forall i | 0 <= i < |all| && all[i].WriteTried?
      ensures StoppedAt(all, i, comesUp)
    {
      var j :| 0 <= j < i && actions[j] == StopTried
               && (comesUp ==> forall k | j < k < i :: actions[k] != StartTried);
      assert all[j] == StopTried;
    }
    if !comesUp && StoppedAt(actions, |actions|, comesUp) {
      var j :| 0 <= j < |actions| && actions[j] == StopTried;
      assert all[j] == StopTried;
    }
  }

  /** Since the trace was `start`, files were only written while the service was stopped. */
  ghost predicate Calm(start: seq<Action>, now: seq<Action>, comesUp: bool) {
    start <= now && Quiet(now[|start|..], comesUp)
  }

  /** And it is stopped. */
  ghost predicate Down(start: seq<Action>, now: seq<Action>, comesUp: bool) {
    start <= now && StoppedAt(now[|start|..], |now| - |start|, comesUp)
  }

  lemma CalmStop(start: seq<Action>, now: seq<Action>, comesUp: bool)
    requires Calm(start, now, comesUp)
    ensures Calm(start, now + [StopTried], comesUp) && Down(start, now + [StopTried], comesUp)
  {
    QuietStop(now[|start|..], comesUp);
    assert (now + [StopTried])[|start|..] == now[|start|..] + [StopTried];
  }

  lemma CalmStart(start: seq<Action>, now: seq<Action>, comesUp: bool)
    requires Calm(start, now, comesUp)
    ensures Calm(start, now + [StartTried], comesUp)
    ensures !comesUp && Down(start, now, comesUp) ==> Down(start, now + [StartTried], comesUp)
  {
    QuietMore(now[|start|..], StartTried, comesUp);
    assert (now + [StartTried])[|start|..] == now[|start|..] + [StartTried];
  }

  lemma CalmWrites(start: seq<Action>, now: seq<Action>, later: seq<Action>, comesUp: bool)
    requires Calm(start, now, comesUp) && Down(start, now, comesUp) && now <= later && AllWrites(later[|now|..])
    ensures Calm(start, later, comesUp) && Down(start, later, comesUp)
  {
    QuietAppend(now[|start|..], later[|now|..], comesUp);
    assert later[|start|..] == now[|start|..] + later[|now|..];
  }

  /** The rollback gets to its end: it could stop the service, nothing strikes its writes, and no target has an
      unfinished write beside it, from before or from the upgrade itself. */
  ghost predicate RollbackCompletes(d: Disk, targets: seq<Path>, fault: Fault, second: Fault) {
    && !second.Stopping? && WritesSucceed(d, targets, second)
    && !(fault.Writing? && fault.how == LeavesTemp && fault.k < |targets|)
  }

  class Owner {
    var disk: Disk
    var trace: seq<Action>

    constructor (disk: Disk)
      ensures this.disk == disk && trace == []
    {
      this.disk, trace := disk, [];
    }

    method WriteTargets(targets: seq<Path>, contents: seq<Content>, at: int, fault: WriteFault) returns (ok: bool)
      requires |contents| == |targets|
      modifies this
      ensures Written(disk, ok) == WriteAll(old(disk), targets, contents, at, fault)
      ensures old(trace) <= trace && AllWrites(trace[|old(trace)|..])
    {
      ok := true;
      var i := 0;
      while i < |targets| && ok
        invariant 0 <= i <= |targets|
        invariant Written(disk, ok) == WriteAll(old(disk), targets[..i], contents[..i], at, fault)
        invariant old(trace) <= trace && AllWrites(trace[|old(trace)|..])
      {
        assert targets[..i + 1][..i] == targets[..i] && contents[..i + 1][..i] == contents[..i];
        var w := Atomic(disk, targets[i], contents[i], if i == at then fault else NoFault);
        trace := trace + [WriteTried(targets[i])];
        disk, ok := w.disk, w.ok;
        i := i + 1;
      }
      if ok {
        assert targets[..i] == targets && contents[..i] == contents;
      } else {
        WritesStopped(old(disk), targets, contents, at, fault, i);
      }
    }

    /** The rollback: write the originals back and start the service; if that fails, or the writes did, start it
        once more. */
    method RollBack(
        targets: seq<Path>, originals: seq<Content>, second: Fault, restartFails: bool, ghost start: seq<Action>,
        ghost comesUp: bool)
      returns (ok: bool)
      requires |originals| == |targets| && Calm(start, trace, comesUp) && Down(start, trace, comesUp)
      modifies this
      ensures Written(disk, ok) == WriteAll(old(disk), targets, originals, FaultIndex(second), WriteFaultOf(second))
      ensures Calm(start, trace, comesUp) && trace != [] && trace[|trace| - 1] == StartTried
      ensures ok && restartFails ==> |trace| >= 2 && trace[|trace| - 2] == StartTried
    {
      ok := WriteTargets(targets, originals, FaultIndex(second), WriteFaultOf(second));
      CalmWrites(start, old(trace), trace, comesUp);
      var stopped := true;
      if ok {
        CalmStart(start, trace, comesUp);
        trace := trace + [StartTried];
        stopped := restartFails;
      }
      if stopped {
        CalmStart(start, trace, comesUp);
        trace := trace + [StartTried];
      }
    }

    /** Stop, write, start, and roll back if any of that fails. `stopped` says that the service could be stopped
        whenever that was tried, so that the rollback was. */
    method Upgrade(
        targets: seq<Path>, contents: seq<Content>, originals: seq<Content>, fault: Fault, second: Fault,
        restartFails: bool)
      returns (activated: bool, ghost stopped: bool)
      requires |contents| == |targets| == |originals|
      modifies this
      ensures var w := WriteAll(old(disk), targets, contents, FaultIndex(fault), WriteFaultOf(fault));
              var r := WriteAll(w.disk, targets, originals, FaultIndex(second), WriteFaultOf(second));
              && (activated <==> !fault.Stopping? && !fault.Starting? && w.ok)
              && (activated ==> disk == w.disk)
              && (stopped <==> !(fault.Stopping? || (fault.Starting? && fault.alive && second.Stopping? && w.ok)))
              && (!activated && stopped ==> disk == r.disk)
              && (!activated && !stopped ==> disk == if fault.Stopping? then old(disk) else w.disk)
              && (!activated && stopped && r.ok && restartFails ==>
                    |trace| >= 2 && trace[|trace| - 2] == StartTried)
      ensures fault.Stopping? ==> trace == old(trace) + [StopTried]
      ensures !fault.Stopping? ==> trace != [] && trace[|trace| - 1] == StartTried
      ensures Calm(old(trace), trace, fault.Starting? && fault.alive)
    {
      ghost var start, comesUp := trace, fault.Starting? && fault.alive;
      assert trace[|start|..] == [];
      CalmStop(start, trace, comesUp);
      trace := trace + [StopTried];
      if fault.Stopping? {
        return false, false;
      }
      ghost var before := trace;
      var ok := WriteTargets(targets, contents, FaultIndex(fault), WriteFaultOf(fault));
      CalmWrites(start, before, trace, comesUp);
      if ok {
        CalmStart(start, trace, comesUp);
        trace := trace + [StartTried];
        if !fault.Starting? {
          return true, true;
        }
        if fault.alive {
          CalmStop(start, trace, comesUp);
          trace := trace + [StopTried];
          if second.Stopping? {
            CalmStart(start, trace, comesUp);
            trace := trace + [StartTried];
            return false, false;
          }
        }
      }
      ok := RollBack(targets, originals, second, restartFails, start, comesUp);
      activated, stopped := false, true;
    }

    /** `apply_locked` from the stop on. The new engine becomes live exactly when nothing before that
        failed and no target had an unfinished write; then every target holds its new content. In all
        other cases exactly the targets from `Restores` up to `Replacements` are new, nothing else
        changed, and unless the service could not be stopped the last thing tried is to start it. So all
        files are as they were if and only if the rollback, which `second` may strike, gets as far as the
        writes did. `restartFails` is the outcome of the start after a rollback, which is then tried again.
        No file is written while the service is up. */
    method ApplyLocked(targets: seq<Path>, contents: seq<Content>, fault: Fault, second: Fault, restartFails: bool)
      returns (activated: bool, raised: bool)
      requires Distinct(targets) && |contents| == |targets| && forall k | 0 <= k < |targets| :: targets[k] in disk.files
      modifies this
      ensures activated <==> !fault.Stopping? && !fault.Starting? && WritesSucceed(old(disk), targets, fault)
      ensures raised <==> !activated || fault.Receipt?
      ensures activated ==> disk == Disk(Replaced(old(disk).files, targets, contents, |targets|), old(disk).temps)
      ensures !activated ==>
                Left(old(disk).files, disk.files, targets, contents, Restores(old(disk), targets, fault, second),
                     Replacements(old(disk), targets, fault))
      ensures !activated && Replacements(old(disk), targets, fault) <= Restores(old(disk), targets, fault, second) ==>
                disk.files == old(disk).files
      ensures !activated && AllDiffer(old(disk).files, targets, contents) ==>
                (disk.files == old(disk).files <==>
                   Replacements(old(disk), targets, fault) <= Restores(old(disk), targets, fault, second))
      ensures old(disk).temps <= disk.temps
      ensures !fault.Stopping? ==> trace != [] && trace[|trace| - 1] == StartTried
      ensures fault.Stopping? ==> disk == old(disk) && trace == old(trace) + [StopTried]
      ensures old(trace) <= trace && Quiet(trace[|old(trace)|..], fault.Starting? && fault.alive)
      ensures !activated && !fault.Stopping? && restartFails && RollbackCompletes(old(disk), targets, fault, second) ==>
                |trace| >= 2 && trace[|trace| - 2] == StartTried
    {
      var originals: seq<Content> := [];
      while |originals| < |targets|
        invariant |originals| <= |targets|
        invariant forall k | 0 <= k < |originals| :: originals[k] == disk.files[targets[k]]
      {
        originals := originals + [disk.files[targets[|originals|]]];
      }
      ghost var start := disk;
      WriteAllOkIff(disk, targets, contents, fault);
      AllNew(disk, targets, contents, fault);
      RollbackExact(disk, targets, contents, originals, FaultIndex(fault), WriteFaultOf(fault),
                    FaultIndex(second), WriteFaultOf(second));
      RollbackOk(disk, targets, contents, originals, fault, second);
      ghost var stopped;
      activated, stopped := Upgrade(targets, contents, originals, fault, second, restartFails);
      raised := !activated || fault.Receipt?;
      if !activated {
        LeftNothingIff(start.files, disk.files, targets, contents, Restores(start, targets, fault, second),
                       Replacements(start, targets, fault));
      }
    }
  }

  lemma RollbackOk(d: Disk, targets: seq<Path>, contents: seq<Content>, originals: seq<Content>, fault: Fault,
                   second: Fault)
    requires Distinct(targets) && |contents| == |targets| == |originals|
    ensures RollbackCompletes(d, targets, fault, second) ==>
              var w := WriteAll(d, targets, contents, FaultIndex(fault), WriteFaultOf(fault));
              WriteAll(w.disk, targets, originals, FaultIndex(second), WriteFaultOf(second)).ok
  {
    var w := WriteAll(d, targets, contents, FaultIndex(fault), WriteFaultOf(fault));
    WriteAllExact(d, targets, contents, FaultIndex(fault), WriteFaultOf(fault));
    WriteAllOkIff(w.disk, targets, originals, second);
  }

  /** Writes that all succeed. */
  lemma AllNew(d: Disk, targets: seq<Path>, contents: seq<Content>, fault: Fault)
    requires Distinct(targets) && |contents| == |targets| && forall k | 0 <= k < |targets| :: targets[k] in d.files
    ensures var w := WriteAll(d, targets, contents, FaultIndex(fault), WriteFaultOf(fault));
            && d.temps <= w.disk.temps
            && (w.ok ==> && w.disk == Disk(Replaced(d.files, targets, contents, |targets|), d.temps)
                         && Reach(d, targets, FaultIndex(fault), WriteFaultOf(fault)) == |targets|
                         && Left(d.files, w.disk.files, targets, contents, 0, |targets|))
  {
    WriteAllExact(d, targets, contents, FaultIndex(fault), WriteFaultOf(fault));
    ReplacedAt(d.files, targets, contents, |targets|);
    assert targets[..|targets|] == targets;
  }

  lemma {:induction false} WritesStopped(
    d: Disk, targets: seq<Path>, contents: seq<Content>, at: int, fault: WriteFault, n: nat)
    requires n <= |targets| == |contents| && !WriteAll(d, targets[..n], contents[..n], at, fault).ok
    ensures WriteAll(d, targets, contents, at, fault) == WriteAll(d, targets[..n], contents[..n], at, fault)
    decreases |targets|
  {
    var m := |targets| - 1;
    if n < |targets| {
      assert targets[..m][..n] == targets[..n] && contents[..m][..n] == contents[..n];
      WritesStopped(d, targets[..m], contents[..m], at, fault, n);
    } else {
      assert targets[..n] == targets && contents[..n] == contents;
    }
  }
}
