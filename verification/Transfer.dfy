/** The transfer agent: copy pending segments off the host, then offer a receipt for exactly that set
    while capture keeps sealing segments and other agents may interfere. */
module Transfer {
  import opened Common
  import opened Backup

  const MAX_PASSES := 8

  /** `sameSegmentSet`: equal lengths, and every left hash occurs on the right. */
  predicate SameSegmentSet(left: Plan, right: Plan) {
    |left.segments| == |right.segments| && forall i | i in left.segments :: i.sha in PlanHashes(right.segments)
  }

  lemma HashesSnoc(rest: seq<PlanItem>, last: PlanItem)
    ensures PlanHashes(rest + [last]) == PlanHashes(rest) + {last.sha}
  {
  }

  lemma DistinctSnoc(rest: seq<PlanItem>, last: PlanItem)
    ensures DistinctPlan(rest + [last]) <==> DistinctPlan(rest) && last.sha !in PlanHashes(rest)
  {
    var items := rest + [last];
    assert items[|rest|] == last;
    forall i | 0 <= i < |rest|
      ensures items[i] == rest[i] && (DistinctPlan(items) ==> rest[i].sha != last.sha)
    {
    }
  }

  lemma {:induction false} HashCount(items: seq<PlanItem>)
    ensures |PlanHashes(items)| <= |items|
    ensures DistinctPlan(items) <==> |PlanHashes(items)| == |items|
    decreases |items|
  {
    if items != [] {
      var last, rest := items[|items| - 1], items[..|items| - 1];
      assert items == rest + [last];
      HashCount(rest);
      HashesSnoc(rest, last);
      DistinctSnoc(rest, last);
    }
  }

  /** Between plans without duplicate hashes the comparison is equality of hash sets. */
  lemma SameSegmentSetIsSetEquality(left: Plan, right: Plan)
    requires DistinctPlan(left.segments) && DistinctPlan(right.segments)
    ensures SameSegmentSet(left, right) <==> PlanHashes(left.segments) == PlanHashes(right.segments)
  {
    HashCount(left.segments);
    HashCount(right.segments);
    assert forall i | i in left.segments :: i.sha in PlanHashes(left.segments);
    if SameSegmentSet(left, right) {
      AcceptedSetsAreEqual(left, right);
    }
  }

  lemma SubsetOfSameSize<T>(a: set<T>, b: set<T>)
    requires a <= b && |b| <= |a|
    ensures a == b
  {
    assert b == a + (b - a);
  }

  /** A hash that occurs in none of the items. */
  lemma {:induction false} FreshHash(items: seq<PlanItem>) returns (sha: Sha)
    ensures sha !in PlanHashes(items)
    ensures forall i | i in items :: |i.sha| < |sha|
    decreases |items|
  {
    sha := "0";
    if items != [] {
      var rest := FreshHash(items[1..]);
      assert items == [items[0]] + items[1..];
      sha := rest + items[0].sha + "0";
    }
  }

  /** Replacing one of two equal hashes by a new one keeps the set's inclusion and not its equality. */
  lemma DuplicateAdmitsOther(left: Plan) returns (right: Plan)
    requires !DistinctPlan(left.segments)
    ensures SameSegmentSet(left, right) && PlanHashes(left.segments) != PlanHashes(right.segments)
  {
    var items := left.segments;
    var i, j :| 0 <= i < j < |items| && items[i].sha == items[j].sha;
    var sha := FreshHash(items);
    var other := items[j].(sha := sha);
    var changed := items[j := other];
    right := left.(segments := changed);
    forall s | s in items
      ensures s.sha in PlanHashes(changed)
    {
      var k :| 0 <= k < |items| && items[k] == s;
      var k' := if k == j then i else k;
      assert changed[k'] in changed && changed[k'].sha == s.sha;
    }
    assert changed[j] in changed && sha in PlanHashes(changed);
  }

  /** Exactly the plans without duplicates are compared with equal hash sets only. */
  lemma ComparisonSoundIff(left: Plan)
    ensures (forall right: Plan :: SameSegmentSet(left, right) ==>
              PlanHashes(left.segments) == PlanHashes(right.segments))
       <==> DistinctPlan(left.segments)
  {
    if DistinctPlan(left.segments) {
      forall right: Plan | SameSegmentSet(left, right)
        ensures PlanHashes(left.segments) == PlanHashes(right.segments)
      {
        AcceptedSetsAreEqual(left, right);
      }
    } else {
      var right := DuplicateAdmitsOther(left);
    }
  }

  lemma AcceptedSetsAreEqual(left: Plan, right: Plan)
    requires DistinctPlan(left.segments) && SameSegmentSet(left, right)
    ensures PlanHashes(left.segments) == PlanHashes(right.segments)
  {
    HashCount(left.segments);
    HashCount(right.segments);
    var l, r := PlanHashes(left.segments), PlanHashes(right.segments);
    assert l <= r;
    SubsetOfSameSize(l, r);
  }

  /** Duplicates on the left would make it accept two different sets. */
  lemma DuplicatesFoolTheComparison(a: PlanItem, b: PlanItem)
    requires a.sha != b.sha
    ensures SameSegmentSet(Plan(1, [a, a]), Plan(1, [a, b]))
    ensures PlanHashes([a, a]) != PlanHashes([a, b])
  {
    assert a in [a, b] && b in [a, b];
    assert a.sha in PlanHashes([a, b]);
    assert b.sha in PlanHashes([a, b]) && b.sha !in PlanHashes([a, a]);
  }

  /** The store and what others will do to it at each of the agent's pauses. */
  class World {
    const store: BackupStore
    var script: seq<seq<Op>>
    ghost var performed: seq<Op>

    constructor (store: BackupStore, script: seq<seq<Op>>)
      ensures this.store == store && this.script == script && performed == []
    {
      this.store, this.script, this.performed := store, script, [];
    }

    /** `performed` is everything done to the store since `start`. */
    ghost predicate Tracks(start: Store)
      reads this, store
    {
      store.Value() == Backup.Run(start, performed)
    }

    method Do(op: Op) returns (plan: Result<Plan>, accepted: Result<()>)
      modifies store
      ensures store.Value() == Backup.Perform(old(store.Value()), op)
      ensures op.LoadPlan? ==> plan == MakePlan(old(store.Value())).plan
      ensures op.Offer? ==> accepted == OfferOutcome(old(store.Value()), op.receipt)
    {
      plan, accepted := Err("no plan"), Err("no acceptance");
      match op {
        case Capture(rows, manifests) =>
          store.rows, store.manifests := rows, manifests;
        case LoadPlan =>
          plan := store.BackupPlan();
        case Offer(receipt, writes) =>
          accepted := store.AcceptBackupReceipt(receipt, writes);
        case Restart(listing) =>
          if (forall g | g in listing :: g in store.receipts) && (forall g | g in store.receipts.Keys :: g in listing) {
            store.Reopen(listing);
          }
        case RestartWithoutIndex(listing) =>
          if (forall g | g in listing :: g in store.receipts) && (forall g | g in store.receipts.Keys :: g in listing) {
            store.rows, store.projection := [], map[];
            store.Reopen(listing);
          }
      }
    }

    method Perform(op: Op, ghost start: Store) returns (plan: Result<Plan>, accepted: Result<()>)
      requires Tracks(start)
      modifies this`performed, store
      ensures Tracks(start) && store.Value() == Backup.Perform(old(store.Value()), op)
      ensures op.LoadPlan? ==> plan == MakePlan(old(store.Value())).plan
      ensures op.Offer? ==> accepted == OfferOutcome(old(store.Value()), op.receipt)
    {
      plan, accepted := Do(op);
      RunSnoc(start, performed, op);
      performed := performed + [op];
    }

    /** Others take their turn. */
    method Interfere(ghost start: Store)
      requires Tracks(start)
      modifies this`performed, this`script, store
      ensures Tracks(start)
      ensures old(script) == [] ==> script == [] && store.Value() == old(store.Value())
    {
      if script != [] {
        var ops := script[0];
        script := script[1..];
        var i := 0;
        while i < |ops|
          invariant Tracks(start)
        {
          var _, _ := Perform(ops[i], start);
          i := i + 1;
        }
      }
    }
  }

  ghost function OfferOutcome(s: Store, r: Receipt): Result<()> {
    match MakePlan(s).plan
    case Err(e) => Err(e)
    case Ok(p) => match Refusal(p, r) case Some(e) => Err(e) case None => Ok(())
  }

  lemma RunSnoc(s: Store, ops: seq<Op>, op: Op)
    ensures Backup.Run(s, ops + [op]) == Backup.Perform(Backup.Run(s, ops), op)
  {
  }

  /** Proofs of transfer so far: one verified item per hash, each transferred by this call. */
  ghost predicate ProofsHold(items: map<Sha, ReceiptItem>, transferred: seq<Sha>) {
    && (forall sha | sha in items :: items[sha].sha == sha && items[sha].checksumVerified && sha in transferred)
    && (forall sha | sha in transferred :: sha in items)
    && (forall i, j | 0 <= i < j < |transferred| :: transferred[i] != transferred[j])
  }

  /** The proof of one of these segments: its hash, and its own manifest's. */
  ghost predicate ProvedFrom(segments: seq<PlanItem>, item: ReceiptItem) {
    exists s | s in segments :: item == ReceiptItem(s.sha, s.manifestSha, true)
  }

  /** Every segment of the plan has its proof. */
  ghost predicate AllProved(segments: seq<PlanItem>, items: map<Sha, ReceiptItem>) {
    forall s | s in segments :: s.sha in items && items[s.sha] == ReceiptItem(s.sha, s.manifestSha, true)
  }

  lemma ProofsAreOwn(segments: seq<PlanItem>, items: map<Sha, ReceiptItem>)
    requires DistinctPlan(segments) && (forall s | s in segments :: s.sha in items)
    requires forall sha | sha in items :: items[sha].sha == sha && ProvedFrom(segments, items[sha])
    ensures AllProved(segments, items)
  {
    forall s | s in segments
      ensures items[s.sha] == ReceiptItem(s.sha, s.manifestSha, true)
    {
      var other :| other in segments && items[s.sha] == ReceiptItem(other.sha, other.manifestSha, true);
      var i :| 0 <= i < |segments| && segments[i] == s;
      var j :| 0 <= j < |segments| && segments[j] == other;
    }
  }

  /** A receipt made of the plan's own proofs is not refused. */
  lemma OwnReceiptIsAccepted(plan: Plan, items: map<Sha, ReceiptItem>)
    requires DistinctPlan(plan.segments) && plan.segments != [] && AllProved(plan.segments, items)
    ensures var own := ItemsFor(plan.segments, items);
            own.Some? && Refusal(plan, Receipt(plan.nextGeneration, true, own.value)).None?
  {
    var own := ItemsFor(plan.segments, items).value;
    forall k | 0 <= k < |plan.segments|
      ensures own[k] == ReceiptItem(plan.segments[k].sha, plan.segments[k].manifestSha, true)
    {
      assert plan.segments[k] in plan.segments;
    }
    var r := Receipt(plan.nextGeneration, true, own);
    forall sha, manifestSha
      ensures InReceipt(r, sha, manifestSha) <==> InPlan(plan, sha, manifestSha)
    {
    }
    AcceptedIff(plan, r);
  }

  /** Transfer what this call has not transferred yet. `reachable` says whether the remote copies and
      verifies a segment. */
  method TransferMissing(
      segments: seq<PlanItem>, items: map<Sha, ReceiptItem>, transferred: seq<Sha>, reachable: PlanItem -> bool)
      returns (ok: bool, items': map<Sha, ReceiptItem>, transferred': seq<Sha>)
    requires ProofsHold(items, transferred)
    ensures ProofsHold(items', transferred')
    ensures ok ==> forall s | s in segments :: s.sha in items'
    ensures !ok ==> exists s | s in segments :: s.sha !in items && !reachable(s)
    ensures transferred <= transferred'
    ensures forall sha | sha in items' ::
              (sha in items && items'[sha] == items[sha]) || ProvedFrom(segments, items'[sha])
  {
    ok, items', transferred' := true, items, transferred;
    var i := 0;
    while i < |segments|
      invariant 0 <= i <= |segments| && ok
      invariant ProofsHold(items', transferred')
      invariant forall k | 0 <= k < i :: segments[k].sha in items'
      invariant transferred <= transferred'
      invariant forall sha | sha in items :: sha in items'
      invariant forall sha | sha in items' ::
                  (sha in items && items'[sha] == items[sha]) || ProvedFrom(segments, items'[sha])
    {
      var segment := segments[i];
      if segment.sha !in items' {
        if !reachable(segment) {
          ok := false;
          return;
        }
        items' := items'[segment.sha := ReceiptItem(segment.sha, segment.manifestSha, true)];
        transferred' := transferred' + [segment.sha];
      }
      i := i + 1;
    }
  }

  /** Receipt items for a plan, or nothing if one lacks proof. */
  function ItemsFor(segments: seq<PlanItem>, items: map<Sha, ReceiptItem>): Option<seq<ReceiptItem>> {
    if forall s | s in segments :: s.sha in items
    then Some(seq(|segments|, i requires 0 <= i < |segments| => assert segments[i] in segments; items[segments[i].sha]))
    else None
  }

  datatype Done = Done(plan: Plan, items: seq<ReceiptItem>)

  /** What offering a receipt for the stable plan leads to. */
  datatype Offered = Accepted(items: seq<ReceiptItem>) | Again(plan: Plan) | Failed(error: string)

  /** The plan is the store's, has something in it, and every segment of it has its proof. */
  ghost predicate Offerable(s: Store, stable: Plan, items: map<Sha, ReceiptItem>) {
    MakePlan(s).plan == Ok(stable) && stable.segments != [] && AllProved(stable.segments, items)
  }

  lemma AcceptedIsStored(s: Store, r: Receipt, writes: nat)
    ensures OfferOutcome(s, r).Ok? && writes >= 1 ==>
              Backup.Perform(s, Offer(r, writes)).receipts == s.receipts[r.generation := r]
  {
  }

  lemma OwnOfferIsAccepted(s: Store, stable: Plan, items: map<Sha, ReceiptItem>)
    requires Offerable(s, stable, items)
    ensures var own := ItemsFor(stable.segments, items);
            own.Some? && OfferOutcome(s, Receipt(stable.nextGeneration, true, own.value)).Ok?
  {
    PlanIsFresh(s);
    OwnReceiptIsAccepted(stable, items);
  }

  /** Offer a receipt for exactly the plan. The accepting command may be stopped after some of its three
      durable writes, and the agent then fails without knowing how many; when the offer is refused because
      more was sealed meanwhile, take the larger plan, provided it contains this one and is of the same
      generation. */
  method OfferPlan(
      w: World, stable: Plan, items: map<Sha, ReceiptItem>, writes: nat, ghost transferred: seq<Sha>,
      ghost start: Store)
      returns (outcome: Offered)
    requires w.Tracks(start) && ProofsHold(items, transferred)
    modifies w`performed, w`script, w.store
    ensures w.Tracks(start)
    ensures outcome.Again? ==> outcome.plan.nextGeneration == stable.nextGeneration
    ensures outcome.Accepted? ==>
              && outcome.items != [] && Hashes(outcome.items) == PlanHashes(stable.segments)
              && (forall i | i in outcome.items :: i.checksumVerified && i.sha in transferred)
              && stable.nextGeneration in w.store.receipts
              && w.store.receipts[stable.nextGeneration] == Receipt(stable.nextGeneration, true, outcome.items)
    ensures old(w.script) == [] && writes >= 3 && Offerable(old(w.store.Value()), stable, items) ==> outcome.Accepted?
  {
    if Offerable(w.store.Value(), stable, items) {
      OwnOfferIsAccepted(w.store.Value(), stable, items);
    }
    var receiptItems := ItemsFor(stable.segments, items);
    if receiptItems.None? {
      return Failed("stabilized segment lacks remote checksum proof");
    }
    var receipt := Receipt(stable.nextGeneration, true, receiptItems.value);
    w.Interfere(start);
    AcceptedIsStored(w.store.Value(), receipt, writes);
    var _, accepted := w.Perform(Offer(receipt, writes), start);
    if accepted.Ok? && writes < 3 {
      return Failed("accepting command stopped");
    }
    if accepted.Ok? {
      OfferedItems(stable.segments, items, transferred);
      return Accepted(receiptItems.value);
    }
    if accepted.error != EXACT_SET {
      return Failed(accepted.error);
    }
    outcome := TakeLargerPlan(w, stable, start);
  }

  /** More was sealed before the offer: take the larger plan. */
  method TakeLargerPlan(w: World, stable: Plan, ghost start: Store) returns (outcome: Offered)
    requires w.Tracks(start)
    modifies w`performed, w`script, w.store
    ensures w.Tracks(start) && !outcome.Accepted?
    ensures outcome.Again? ==>
              && outcome.plan.nextGeneration == stable.nextGeneration
              && PlanHashes(stable.segments) <= PlanHashes(outcome.plan.segments)
              && |stable.segments| < |outcome.plan.segments|
    ensures old(w.script) == [] && MakePlan(old(w.store.Value())).plan.Ok? ==>
              var plan := MakePlan(old(w.store.Value())).plan.value;
              && (outcome.Again? <==>
                    && plan.nextGeneration == stable.nextGeneration && |stable.segments| < |plan.segments|
                    && PlanHashes(stable.segments) <= PlanHashes(plan.segments))
              && (outcome.Again? ==> outcome.plan == plan)
  {
    w.Interfere(start);
    var retry, _ := w.Perform(LoadPlan, start);
    if retry.Err? {
      return Failed(retry.error);
    }
    if retry.value.nextGeneration != stable.nextGeneration {
      return Failed("backup generation changed during receipt acceptance");
    }
    if |retry.value.segments| <= |stable.segments|
       || !(forall s | s in stable.segments :: s.sha in PlanHashes(retry.value.segments))
    {
      return Failed(EXACT_SET);
    }
    return Again(retry.value);
  }

  /** What one pass leads to. */
  datatype Pass = Settled(done: Done) | Changed(plan: Plan) | GaveUp(error: string)

  /** Nobody else is at the store, its plan is this one, and everything in it can be transferred. */
  ghost predicate Undisturbed(script: seq<seq<Op>>, s: Store, plan: Plan, reachable: PlanItem -> bool) {
    && script == [] && MakePlan(s).plan == Ok(plan) && plan.segments != []
    && forall item | item in plan.segments :: reachable(item)
  }

  /** The stored receipt is exactly of the plan, and everything in it was transferred and verified. */
  ghost predicate Stored(d: Done, receipts: map<nat, Receipt>, transferred: seq<Sha>) {
    && d.items != [] && Hashes(d.items) == PlanHashes(d.plan.segments)
    && (forall i | i in d.items :: i.checksumVerified && i.sha in transferred)
    && d.plan.nextGeneration in receipts
    && receipts[d.plan.nextGeneration] == Receipt(d.plan.nextGeneration, true, d.items)
  }

  lemma ReplannedIsOfferable(s: Store, plan: Plan, items: map<Sha, ReceiptItem>)
    requires MakePlan(s).plan == Ok(plan) && plan.segments != [] && (forall s | s in plan.segments :: s.sha in items)
    requires forall sha | sha in items :: items[sha].sha == sha && ProvedFrom(plan.segments, items[sha])
    ensures Offerable(MakePlan(s).store, plan, items)
  {
    PlanIsFresh(s);
    PlanIsRepeatable(s);
    ProofsAreOwn(plan.segments, items);
  }

  /** One pass: transfer what is missing, plan again, and offer the plan if it is still the same set. */
  method OnePass(
      w: World, plan: Plan, items: map<Sha, ReceiptItem>, transferred: seq<Sha>, reachable: PlanItem -> bool,
      writes: nat, ghost start: Store)
      returns (outcome: Pass, items': map<Sha, ReceiptItem>, transferred': seq<Sha>)
    requires w.Tracks(start) && ProofsHold(items, transferred)
    modifies w`performed, w`script, w.store
    ensures w.Tracks(start) && ProofsHold(items', transferred')
    ensures outcome.Changed? ==> outcome.plan.nextGeneration == plan.nextGeneration
    ensures outcome.Settled? ==>
              outcome.done.plan.nextGeneration == plan.nextGeneration
              && Stored(outcome.done, w.store.receipts, transferred')
    ensures Undisturbed(old(w.script), old(w.store.Value()), plan, reachable) && items == map[] && writes >= 3 ==>
              outcome.Settled? && outcome.done.plan == plan
  {
    ghost var clear := Undisturbed(w.script, w.store.Value(), plan, reachable) && items == map[];
    var ok: bool;
    ok, items', transferred' := TransferMissing(plan.segments, items, transferred, reachable);
    if !ok {
      return GaveUp("transfer failed"), items', transferred';
    }
    if clear {
      ReplannedIsOfferable(w.store.Value(), plan, items');
    }
    w.Interfere(start);
    var refreshed, _ := w.Perform(LoadPlan, start);
    if refreshed.Err? {
      return GaveUp(refreshed.error), items', transferred';
    }
    var stable := refreshed.value;
    if stable.nextGeneration != plan.nextGeneration {
      return GaveUp("backup generation changed during transfer"), items', transferred';
    }
    if !SameSegmentSet(plan, stable) {
      return Changed(stable), items', transferred';
    }
    var offered := OfferPlan(w, stable, items', writes, transferred', start);
    outcome := match offered
      case Accepted(receiptItems) => Settled(Done(stable, receiptItems))
      case Failed(error) => GaveUp(error)
      case Again(larger) => Changed(larger);
  }

  /** The transfer and acceptance loop. Every step it or anyone else takes on the store is one of the
      operations whose runs keep the ledger, and it gives up after eight passes. `stopAfter` says after how
      many durable writes the accepting command of each pass is stopped, and `gaveUp` that a pass failed
      rather than the last one found the set changed. With nobody else at the store and
      nothing failing, the first pass succeeds with the plan it was given. */
  method TransferAndAccept(w: World, plan: Plan, reachable: PlanItem -> bool, stopAfter: nat -> nat)
      returns (r: Result<Done>, transferred: seq<Sha>, passes: nat, ghost gaveUp: bool)
    requires w.performed == []
    modifies w, w.store
    ensures w.store.Value() == Backup.Run(old(w.store.Value()), w.performed)
    ensures passes <= 8
    ensures r.Err? && !gaveUp ==> passes == 8 && r.error == "pending sealed segment set did not stabilize"
    ensures forall i, j | 0 <= i < j < |transferred| :: transferred[i] != transferred[j]
    ensures r.Ok? ==>
              r.value.plan.nextGeneration == plan.nextGeneration && Stored(r.value, w.store.receipts, transferred)
    ensures Undisturbed(old(w.script), old(w.store.Value()), plan, reachable) && stopAfter(1) >= 3 ==>
              r.Ok? && r.value.plan == plan && passes == 1
  {
    ghost var start := w.store.Value();
    ghost var clear := Undisturbed(w.script, start, plan, reachable) && stopAfter(1) >= 3;
    var items: map<Sha, ReceiptItem> := map[];
    var stable := plan;
    transferred, passes := [], 0;
    while passes < MAX_PASSES
      invariant passes <= MAX_PASSES
      invariant w.Tracks(start)
      invariant ProofsHold(items, transferred)
      invariant stable.nextGeneration == plan.nextGeneration
      invariant clear ==> passes == 0 && items == map[] && stable == plan && w.script == [] && w.store.Value() == start
    {
      passes := passes + 1;
      var outcome: Pass;
      outcome, items, transferred := OnePass(w, stable, items, transferred, reachable, stopAfter(passes), start);
      match outcome {
        case Settled(done) =>
          return Ok(done), transferred, passes, false;
        case GaveUp(error) =>
          return Err(error), transferred, passes, true;
        case Changed(next) =>
          stable := next;
      }
    }
    return Err("pending sealed segment set did not stabilize"), transferred, passes, false;
  }

  lemma OfferedItems(segments: seq<PlanItem>, items: map<Sha, ReceiptItem>, transferred: seq<Sha>)
    requires ProofsHold(items, transferred) && ItemsFor(segments, items).Some?
    ensures var offered := ItemsFor(segments, items).value;
            Hashes(offered) == PlanHashes(segments)
            && forall i | i in offered :: i.checksumVerified && i.sha in transferred
  {
    var offered := ItemsFor(segments, items).value;
    forall k | 0 <= k < |segments|
      ensures offered[k].sha == segments[k].sha && offered[k] in offered
    {
      assert segments[k] in segments;
    }
  }
}
