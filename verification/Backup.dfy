/**
 Off-host backup by generation-numbered receipts: the transfer plan, acceptance of a receipt as a
 series of durable writes, and the startup sequence that repairs an interrupted acceptance.
 */
module Backup {
  import opened Common

  type Sha = string
  type Path = string

  datatype Row = Row(path: Path, sha: Option<Sha>, bodyBytes: nat, isSealed: bool)

  datatype Manifest = Manifest(
    sha: Sha, manifestSha: Sha, bodyBytes: nat, isSealed: bool, firstAt: Option<int>, lastAt: Option<int>)

  /** The manifest beside a segment, as `read_verified_segment_manifest` finds it. */
  datatype ManifestFile = Absent | Corrupt | Present(manifest: Manifest)

  datatype PlanItem = PlanItem(path: Path, sha: Sha, manifestSha: Sha)

  datatype Plan = Plan(nextGeneration: nat, segments: seq<PlanItem>)

  datatype ReceiptItem = ReceiptItem(sha: Sha, manifestSha: Sha, checksumVerified: bool)

  /** `wellFormed` stands for the schema, completion-time and remote-path checks. */
  datatype Receipt = Receipt(generation: nat, wellFormed: bool, segments: seq<ReceiptItem>)

  /** The segment table in its plan order, the files beside it, and the backup projection. */
  datatype Store = Store(
    rows: seq<Row>,
    manifests: map<Path, ManifestFile>,
    receipts: map<nat, Receipt>,
    latest: Option<Receipt>,
    projection: map<Sha, nat>)

  const EXACT_SET := "backup receipt must cover the exact pending sealed segment set"

  function Hashes(items: seq<ReceiptItem>): set<Sha> { set i | i in items :: i.sha }

  function PlanHashes(items: seq<PlanItem>): set<Sha> { set i | i in items :: i.sha }

  predicate DistinctItems(items: seq<ReceiptItem>) {
    forall i, j | 0 <= i < j < |items| :: items[i].sha != items[j].sha
  }

  predicate DistinctPlan(items: seq<PlanItem>) {
    forall i, j | 0 <= i < j < |items| :: items[i].sha != items[j].sha
  }

  // ---------------------------------------------------------------- the plan

  datatype Visit = Skipped | Open | Pending(row: Row, manifest: Manifest) | Fault(error: string)

  function ManifestOf(manifests: map<Path, ManifestFile>, path: Path): ManifestFile {
    if path in manifests then manifests[path] else Absent
  }

  /** One row of `verified_segment_projection`. */
  function VisitRow(row: Row, file: ManifestFile, verified: set<Sha>): Visit {
    if row.sha.Some? && row.sha.value in verified then Skipped
    else
      match file
      case Corrupt => Fault("capture segment checksum proof failed")
      case Absent => if row.isSealed then Fault("sealed segment manifest is missing") else Open
      case Present(m) =>
        if !m.isSealed then
          if row.isSealed then Fault("sealed segment manifest is not marked sealed") else Open
        else if !row.isSealed || row.sha != Some(m.sha) then
          var bodyBytes := if m.bodyBytes > 0 then m.bodyBytes else row.bodyBytes;
          Pending(row.(isSealed := true, sha := Some(m.sha), bodyBytes := bodyBytes), m)
        else Pending(row, m)
  }

  datatype Refreshed = Refreshed(rows: seq<Row>, pending: Result<seq<(Row, Manifest)>>)

  /** All rows in order; rows refreshed before a fault stay refreshed. */
  function Refresh(rows: seq<Row>, manifests: map<Path, ManifestFile>, verified: set<Sha>): Refreshed {
    if rows == [] then Refreshed([], Ok([]))
    else
      var visit := VisitRow(rows[0], ManifestOf(manifests, rows[0].path), verified);
      if visit.Fault? then Refreshed(rows, Err(visit.error))
      else
        var row := if visit.Pending? then visit.row else rows[0];
        var rest := Refresh(rows[1..], manifests, verified);
        var found := if visit.Pending? then [(visit.row, visit.manifest)] else [];
        Refreshed([row] + rest.rows, match rest.pending case Err(e) => Err(e) case Ok(more) => Ok(found + more))
  }

  /** The plan loop over the pending segments. */
  function Collect(pending: seq<(Row, Manifest)>, verified: set<Sha>, planned: set<Sha>): Result<seq<PlanItem>> {
    if pending == [] then Ok([])
    else
      var (row, m) := pending[0];
      if m.sha in verified then Collect(pending[1..], verified, planned)
      else if m.sha in planned then Err("sealed segment checksum is duplicated in the projection")
      else if m.firstAt.None? then Err("sealed segment manifest has no first record timestamp")
      else if m.lastAt.None? then Err("sealed segment manifest has no last record timestamp")
      else
        match Collect(pending[1..], verified, planned + {m.sha})
        case Err(e) => Err(e)
        case Ok(more) => Ok([PlanItem(row.path, m.sha, m.manifestSha)] + more)
  }

  /** `MAX(receipt_generation)`, 0 for an empty table. */
  ghost function MaxGeneration(projection: map<Sha, nat>): (g: nat)
    ensures forall sha | sha in projection :: projection[sha] <= g
    ensures g == 0 || exists sha | sha in projection :: projection[sha] == g
    decreases |projection|
  {
    if projection == map[] then 0
    else
      var sha :| sha in projection;
      var rest := projection - {sha};
      assert |rest| < |projection| by { assert rest.Keys == projection.Keys - {sha}; }
      assert forall other | other in rest :: other in projection && rest[other] == projection[other];
      assert forall other | other in projection :: other == sha || other in rest;
      var g := MaxGeneration(rest);
      Max(g, projection[sha])
  }

  datatype Planned = Planned(store: Store, plan: Result<Plan>)

  ghost function MakePlan(s: Store): Planned {
    var verified := s.projection.Keys;
    var refreshed := Refresh(s.rows, s.manifests, verified);
    var items := match refreshed.pending case Err(e) => Err(e) case Ok(p) => Collect(p, verified, {});
    Planned(s.(rows := refreshed.rows),
            match items case Err(e) => Err(e) case Ok(segments) => Ok(Plan(MaxGeneration(s.projection) + 1, segments)))
  }

  /** No hash is planned twice, and none that a receipt already proves. */
  lemma {:induction false} CollectIsFresh(pending: seq<(Row, Manifest)>, verified: set<Sha>, planned: set<Sha>)
    requires Collect(pending, verified, planned).Ok?
    ensures var items := Collect(pending, verified, planned).value;
            && DistinctPlan(items)
            && (forall i | i in items :: i.sha !in verified && i.sha !in planned)
    decreases |pending|
  {
    if pending != [] {
      var m := pending[0].1;
      if m.sha in verified {
        CollectIsFresh(pending[1..], verified, planned);
      } else {
        CollectIsFresh(pending[1..], verified, planned + {m.sha});
        var more := Collect(pending[1..], verified, planned + {m.sha}).value;
        assert forall j | 0 <= j < |more| :: more[j] in more;
      }
    }
  }

  // ---------------------------------------------------------------- what the plan contains

  /** No receipt proves the hash the row carries, if it carries one. */
  predicate Unproved(row: Row, verified: set<Sha>) { row.sha.None? || row.sha.value !in verified }

  /** The row's segment has this manifest beside it, and it is sealed. */
  predicate SealedAs(row: Row, manifests: map<Path, ManifestFile>, m: Manifest) {
    ManifestOf(manifests, row.path) == Present(m) && m.isSealed
  }

  /** The row claims a seal its manifest does not bear out, or the manifest's checksum is wrong. */
  predicate Faulty(row: Row, manifests: map<Path, ManifestFile>, verified: set<Sha>) {
    var file := ManifestOf(manifests, row.path);
    Unproved(row, verified) && (file.Corrupt? || (row.isSealed && (file.Absent? || !file.manifest.isSealed)))
  }

  /** What the plan makes of a row: it catches up with a sealed manifest and is left alone otherwise. */
  ghost predicate CaughtUpRow(row: Row, after: Row, manifests: map<Path, ManifestFile>, verified: set<Sha>) {
    && after.path == row.path
    && (forall m | Unproved(row, verified) && SealedAs(row, manifests, m) ::
          && after.isSealed && after.sha == Some(m.sha)
          && after.bodyBytes == if m.bodyBytes == 0 || (row.isSealed && row.sha == Some(m.sha)) then row.bodyBytes
                                else m.bodyBytes)
    && (!Unproved(row, verified) || !(exists m :: SealedAs(row, manifests, m)) ==> after == row)
  }

  /** A row and manifest the plan has to look at. */
  ghost predicate Waiting(
      rows: seq<Row>, manifests: map<Path, ManifestFile>, verified: set<Sha>, path: Path, m: Manifest)
  {
    exists row :: row in rows && row.path == path && Unproved(row, verified) && SealedAs(row, manifests, m)
  }

  ghost predicate Found(pending: seq<(Row, Manifest)>, path: Path, m: Manifest) {
    exists k :: 0 <= k < |pending| && pending[k].0.path == path && pending[k].1 == m
  }

  lemma VisitFaultIff(row: Row, manifests: map<Path, ManifestFile>, verified: set<Sha>)
    ensures VisitRow(row, ManifestOf(manifests, row.path), verified).Fault? <==> Faulty(row, manifests, verified)
  {
  }

  /** And the fault says which it is. */
  lemma FaultsAreNamed(row: Row, manifests: map<Path, ManifestFile>, verified: set<Sha>)
    requires Faulty(row, manifests, verified)
    ensures VisitRow(row, ManifestOf(manifests, row.path), verified)
            == Fault(match ManifestOf(manifests, row.path)
                     case Corrupt => "capture segment checksum proof failed"
                     case Absent => "sealed segment manifest is missing"
                     case Present(_) => "sealed segment manifest is not marked sealed")
  {
  }

  lemma VisitCatchesUp(row: Row, manifests: map<Path, ManifestFile>, verified: set<Sha>)
    requires !Faulty(row, manifests, verified)
    ensures var visit := VisitRow(row, ManifestOf(manifests, row.path), verified);
            CaughtUpRow(row, if visit.Pending? then visit.row else row, manifests, verified)
  {
    var file := ManifestOf(manifests, row.path);
    assert file.Present? && file.manifest.isSealed ==> SealedAs(row, manifests, file.manifest);
  }

  lemma {:induction false} RefreshExact(rows: seq<Row>, manifests: map<Path, ManifestFile>, verified: set<Sha>)
    ensures Refresh(rows, manifests, verified).pending.Ok? <==>
              forall row | row in rows :: !Faulty(row, manifests, verified)
    ensures |Refresh(rows, manifests, verified).rows| == |rows|
    ensures Refresh(rows, manifests, verified).pending.Ok? ==>
              forall i | 0 <= i < |rows| ::
                CaughtUpRow(rows[i], Refresh(rows, manifests, verified).rows[i], manifests, verified)
    decreases |rows|
  {
    if rows != [] {
      var all, rest := Refresh(rows, manifests, verified), Refresh(rows[1..], manifests, verified);
      RefreshExact(rows[1..], manifests, verified);
      VisitFaultIff(rows[0], manifests, verified);
      assert rows == [rows[0]] + rows[1..];
      assert rows[0] in rows && forall row | row in rows[1..] :: row in rows;
      if all.pending.Ok? {
        VisitCatchesUp(rows[0], manifests, verified);
        forall i | 0 <= i < |rows|
          ensures CaughtUpRow(rows[i], all.rows[i], manifests, verified)
        {
          if i > 0 {
            assert rows[1..][i - 1] == rows[i] && all.rows[i] == rest.rows[i - 1];
          }
        }
      }
    }
  }

  lemma {:induction false} PendingExact(
      rows: seq<Row>, manifests: map<Path, ManifestFile>, verified: set<Sha>, path: Path, m: Manifest)
    requires Refresh(rows, manifests, verified).pending.Ok?
    ensures Found(Refresh(rows, manifests, verified).pending.value, path, m) <==>
              Waiting(rows, manifests, verified, path, m)
    decreases |rows|
  {
    if rows != [] {
      var row, all := rows[0], Refresh(rows, manifests, verified).pending.value;
      var rest := Refresh(rows[1..], manifests, verified).pending.value;
      PendingExact(rows[1..], manifests, verified, path, m);
      assert rows == [row] + rows[1..];
      var visit := VisitRow(row, ManifestOf(manifests, row.path), verified);
      var first := row.path == path && Unproved(row, verified) && SealedAs(row, manifests, m);
      assert Waiting(rows, manifests, verified, path, m) <==> first || Waiting(rows[1..], manifests, verified, path, m);
      if visit.Pending? {
        FoundCons((visit.row, visit.manifest), rest, path, m);
        assert all == [(visit.row, visit.manifest)] + rest;
      } else {
        assert all == [] + rest == rest;
      }
    }
  }

  lemma FoundCons(first: (Row, Manifest), rest: seq<(Row, Manifest)>, path: Path, m: Manifest)
    ensures Found([first] + rest, path, m) <==> (first.0.path == path && first.1 == m) || Found(rest, path, m)
  {
    var all := [first] + rest;
    assert all[0] == first && forall k | 0 <= k < |rest| :: all[k + 1] == rest[k];
  }

  /** The plan's item for a waiting manifest no receipt proves. */
  ghost predicate PlannedFrom(pending: seq<(Row, Manifest)>, verified: set<Sha>, item: PlanItem) {
    exists path, m :: Found(pending, path, m) && m.sha !in verified && item == PlanItem(path, m.sha, m.manifestSha)
  }

  lemma PlannedCons(first: (Row, Manifest), rest: seq<(Row, Manifest)>, verified: set<Sha>, item: PlanItem)
    ensures PlannedFrom([first] + rest, verified, item) <==>
              || (first.1.sha !in verified && item == PlanItem(first.0.path, first.1.sha, first.1.manifestSha))
              || PlannedFrom(rest, verified, item)
  {
    forall path, m
      ensures Found([first] + rest, path, m) <==> (first.0.path == path && first.1 == m) || Found(rest, path, m)
    {
      FoundCons(first, rest, path, m);
    }
    if first.1.sha !in verified && item == PlanItem(first.0.path, first.1.sha, first.1.manifestSha) {
      assert Found([first] + rest, first.0.path, first.1);
    }
    if PlannedFrom(rest, verified, item) {
      var path, m :| Found(rest, path, m) && m.sha !in verified && item == PlanItem(path, m.sha, m.manifestSha);
      assert Found([first] + rest, path, m);
    }
  }

  lemma {:induction false} CollectExact(
      pending: seq<(Row, Manifest)>, verified: set<Sha>, planned: set<Sha>, item: PlanItem)
    requires Collect(pending, verified, planned).Ok?
    ensures item in Collect(pending, verified, planned).value <==> PlannedFrom(pending, verified, item)
    decreases |pending|
  {
    if pending != [] {
      var first, rest := pending[0], pending[1..];
      assert pending == [first] + rest;
      PlannedCons(first, rest, verified, item);
      if first.1.sha in verified {
        CollectExact(rest, verified, planned, item);
      } else {
        CollectExact(rest, verified, planned + {first.1.sha}, item);
      }
    }
  }

  /** Every manifest to be planned has both its times and a hash of its own, which is not planned yet. */
  ghost predicate Plannable(pending: seq<(Row, Manifest)>, verified: set<Sha>, planned: set<Sha>) {
    && (forall k | 0 <= k < |pending| && pending[k].1.sha !in verified ::
          pending[k].1.sha !in planned && pending[k].1.firstAt.Some? && pending[k].1.lastAt.Some?)
    && (forall j, k | 0 <= j < k < |pending| && pending[j].1.sha !in verified :: pending[j].1.sha != pending[k].1.sha)
  }

  lemma PlannableCons(first: (Row, Manifest), rest: seq<(Row, Manifest)>, verified: set<Sha>, planned: set<Sha>)
    ensures first.1.sha in verified ==>
              (Plannable([first] + rest, verified, planned) <==> Plannable(rest, verified, planned))
    ensures first.1.sha !in verified ==>
              (Plannable([first] + rest, verified, planned) <==>
                 && first.1.sha !in planned && first.1.firstAt.Some? && first.1.lastAt.Some?
                 && Plannable(rest, verified, planned + {first.1.sha}))
  {
    var all := [first] + rest;
    assert all[0] == first && forall k | 0 <= k < |rest| :: all[k + 1] == rest[k];
    if Plannable(all, verified, planned) {
      forall k | 0 <= k < |rest| && rest[k].1.sha !in verified
        ensures rest[k].1.sha !in planned && rest[k].1.firstAt.Some? && rest[k].1.lastAt.Some?
        ensures first.1.sha !in verified ==> rest[k].1.sha != first.1.sha
      {
        assert all[k + 1] == rest[k];
      }
      forall j, k | 0 <= j < k < |rest| && rest[j].1.sha !in verified
        ensures rest[j].1.sha != rest[k].1.sha
      {
        assert all[j + 1] == rest[j] && all[k + 1] == rest[k];
      }
    }
  }

  /** A plan is made exactly then: a repeated hash or a missing time makes it fail. */
  lemma {:induction false} CollectOkIff(pending: seq<(Row, Manifest)>, verified: set<Sha>, planned: set<Sha>)
    ensures Collect(pending, verified, planned).Ok? <==> Plannable(pending, verified, planned)
    decreases |pending|
  {
    if pending != [] {
      var first, rest := pending[0], pending[1..];
      assert pending == [first] + rest;
      PlannableCons(first, rest, verified, planned);
      CollectOkIff(rest, verified, if first.1.sha in verified then planned else planned + {first.1.sha});
    }
  }

  /** Some row that no receipt proves has a sealed manifest beside it, also unproved, which the item is for. */
  ghost predicate MustBePlanned(s: Store, item: PlanItem) {
    exists path, m ::
      && Waiting(s.rows, s.manifests, s.projection.Keys, path, m) && m.sha !in s.projection
      && item == PlanItem(path, m.sha, m.manifestSha)
  }

  /** A plan holds exactly what must be backed up: every sealed segment no receipt proves, with its path and
      its manifest's checksum, and nothing else. */
  lemma PlanIsExact(s: Store, item: PlanItem)
    requires MakePlan(s).plan.Ok?
    ensures item in MakePlan(s).plan.value.segments <==> MustBePlanned(s, item)
  {
    var verified := s.projection.Keys;
    var pending := Refresh(s.rows, s.manifests, verified).pending.value;
    CollectExact(pending, verified, {}, item);
    forall path, m
      ensures Found(pending, path, m) <==> Waiting(s.rows, s.manifests, verified, path, m)
    {
      PendingExact(s.rows, s.manifests, verified, path, m);
    }
  }

  // ---------------------------------------------------------------- acceptance

  /** Why a receipt is refused, if it is. */
  function Refusal(plan: Plan, r: Receipt): Option<string> {
    if !r.wellFormed then Some("backup receipt is malformed")
    else if r.segments == [] then Some("empty backup receipts cannot advance capture freshness")
    else if exists i | i in r.segments :: !i.checksumVerified
    then Some("backup receipt contains a segment without remote checksum proof")
    else if !DistinctItems(r.segments) then Some("backup receipt contains duplicate segment")
    else if Hashes(r.segments) != PlanHashes(plan.segments) then Some(EXACT_SET)
    else if r.generation != plan.nextGeneration then Some("backup receipt generation does not match planned generation")
    else if exists i, j | i in r.segments && j in plan.segments :: i.sha == j.sha && i.manifestSha != j.manifestSha
    then Some("backup receipt manifest checksum does not match pending segment")
    else None
  }

  function Project(items: seq<ReceiptItem>, generation: nat, projection: map<Sha, nat>): map<Sha, nat> {
    if items == [] then projection
    else Project(items[1..], generation, projection[items[0].sha := generation])
  }

  /** The durable writes of an acceptance, in order: the numbered receipt, the latest receipt, the
      projection transaction. `writes` of them happen before the process stops. */
  function WriteReceipt(s: Store, r: Receipt, writes: nat): Store {
    var s1 := if writes >= 1 then s.(receipts := s.receipts[r.generation := r]) else s;
    var s2 := if writes >= 2 then s1.(latest := Some(r)) else s1;
    if writes >= 3 then s2.(projection := Project(r.segments, r.generation, s2.projection)) else s2
  }

  ghost function Accept(s: Store, r: Receipt, writes: nat): Store {
    var planned := MakePlan(s);
    if planned.plan.Err? || Refusal(planned.plan.value, r).Some? then planned.store
    else WriteReceipt(planned.store, r, writes)
  }

  /** A receipt is accepted exactly when it is well formed, not empty, repeats no hash, proves every item,
      continues the plan's generation, and names the plan's segments, each with its manifest's checksum. */
  lemma AcceptedIff(plan: Plan, r: Receipt)
    requires DistinctPlan(plan.segments)
    ensures Refusal(plan, r).None? <==>
              && r.wellFormed && r.segments != [] && r.generation == plan.nextGeneration
              && (forall i | i in r.segments :: i.checksumVerified) && DistinctItems(r.segments)
              && (forall sha, manifestSha :: InReceipt(r, sha, manifestSha) <==> InPlan(plan, sha, manifestSha))
  {
    var same := forall sha, manifestSha :: InReceipt(r, sha, manifestSha) <==> InPlan(plan, sha, manifestSha);
    if Refusal(plan, r).None? {
      forall sha, manifestSha
        ensures InReceipt(r, sha, manifestSha) <==> InPlan(plan, sha, manifestSha)
      {
        PairsAgree(plan, r, sha, manifestSha);
      }
    }
    if same && DistinctItems(r.segments) {
      SamePairsSameHashes(plan, r);
    }
  }

  /** The one refusal that makes the agent plan again means that the receipt, good in itself, is not for the set of
      segments now pending. */
  lemma ExactSetRefusalIff(plan: Plan, r: Receipt)
    ensures Refusal(plan, r) == Some(EXACT_SET) <==>
              && r.wellFormed && r.segments != [] && (forall i | i in r.segments :: i.checksumVerified)
              && DistinctItems(r.segments) && Hashes(r.segments) != PlanHashes(plan.segments)
  {
    ExactSetStandsApart();
  }

  lemma ExactSetStandsApart()
    ensures EXACT_SET != "backup receipt is malformed" && EXACT_SET != "backup receipt contains duplicate segment"
    ensures EXACT_SET != "empty backup receipts cannot advance capture freshness"
    ensures EXACT_SET != "backup receipt contains a segment without remote checksum proof"
    ensures EXACT_SET != "backup receipt generation does not match planned generation"
    ensures EXACT_SET != "backup receipt manifest checksum does not match pending segment"
  {
    assert |EXACT_SET| == 62;
    assert |"backup receipt is malformed"| == 27 && |"backup receipt contains duplicate segment"| == 41;
    assert |"empty backup receipts cannot advance capture freshness"| == 54;
    assert |"backup receipt contains a segment without remote checksum proof"| == 63;
    assert |"backup receipt generation does not match planned generation"| == 59;
    assert |"backup receipt manifest checksum does not match pending segment"| == 63;
  }

  ghost predicate InReceipt(r: Receipt, sha: Sha, manifestSha: Sha) {
    exists k :: 0 <= k < |r.segments| && r.segments[k].sha == sha && r.segments[k].manifestSha == manifestSha
  }

  ghost predicate InPlan(plan: Plan, sha: Sha, manifestSha: Sha) {
    exists k :: 0 <= k < |plan.segments| && plan.segments[k].sha == sha && plan.segments[k].manifestSha == manifestSha
  }

  lemma PairsAgree(plan: Plan, r: Receipt, sha: Sha, manifestSha: Sha)
    requires Hashes(r.segments) == PlanHashes(plan.segments)
    requires forall i, j | i in r.segments && j in plan.segments && i.sha == j.sha :: i.manifestSha == j.manifestSha
    ensures InReceipt(r, sha, manifestSha) <==> InPlan(plan, sha, manifestSha)
  {
    if InReceipt(r, sha, manifestSha) {
      var k :| 0 <= k < |r.segments| && r.segments[k].sha == sha && r.segments[k].manifestSha == manifestSha;
      assert r.segments[k] in r.segments && sha in PlanHashes(plan.segments);
      var j :| j in plan.segments && j.sha == sha;
      assert j.manifestSha == manifestSha;
    }
    if InPlan(plan, sha, manifestSha) {
      var k :| 0 <= k < |plan.segments| && plan.segments[k].sha == sha && plan.segments[k].manifestSha == manifestSha;
      assert plan.segments[k] in plan.segments && sha in Hashes(r.segments);
      var i :| i in r.segments && i.sha == sha;
      assert i.manifestSha == manifestSha;
    }
  }

  lemma SamePairsSameHashes(plan: Plan, r: Receipt)
    requires forall sha, manifestSha :: InReceipt(r, sha, manifestSha) <==> InPlan(plan, sha, manifestSha)
    requires DistinctPlan(plan.segments)
    ensures Hashes(r.segments) == PlanHashes(plan.segments)
    ensures forall i, j | i in r.segments && j in plan.segments && i.sha == j.sha :: i.manifestSha == j.manifestSha
  {
    forall i | i in r.segments
      ensures i.sha in PlanHashes(plan.segments)
      ensures forall j | j in plan.segments && i.sha == j.sha :: i.manifestSha == j.manifestSha
    {
      assert InReceipt(r, i.sha, i.manifestSha);
      var k :| && 0 <= k < |plan.segments|
               && plan.segments[k].sha == i.sha && plan.segments[k].manifestSha == i.manifestSha;
      assert plan.segments[k] in plan.segments;
      forall j | j in plan.segments && i.sha == j.sha
        ensures i.manifestSha == j.manifestSha
      {
        var l :| 0 <= l < |plan.segments| && plan.segments[l] == j;
        assert l == k;
      }
    }
    forall j | j in plan.segments
      ensures j.sha in Hashes(r.segments)
    {
      assert InPlan(plan, j.sha, j.manifestSha);
      var k :| 0 <= k < |r.segments| && r.segments[k].sha == j.sha && r.segments[k].manifestSha == j.manifestSha;
      assert r.segments[k] in r.segments;
    }
  }

  /** After a complete acceptance every sealed segment is proved. */
  lemma AcceptanceLeavesNothing(s: Store, r: Receipt, row: Row, m: Manifest)
    requires MakePlan(s).plan.Ok? && Refusal(MakePlan(s).plan.value, r).None?
    requires row in Accept(s, r, 3).rows && SealedAs(row, s.manifests, m)
    ensures !Unproved(row, Accept(s, r, 3).projection.Keys)
  {
    var verified := s.projection.Keys;
    var after := Refresh(s.rows, s.manifests, verified).rows;
    CompleteAcceptanceIs(s, r);
    RefreshExact(s.rows, s.manifests, verified);
    var i :| 0 <= i < |after| && after[i] == row;
    var was := s.rows[i];
    assert CaughtUpRow(was, row, s.manifests, verified) && SealedAs(was, s.manifests, m);
    WaitingIsPlanned(s, was, m);
  }

  /** A complete acceptance leaves the rows the plan left, stores the receipt, makes it the latest, and proves the
      plan's hashes under its generation. */
  lemma CompleteAcceptanceIs(s: Store, r: Receipt)
    requires MakePlan(s).plan.Ok? && Refusal(MakePlan(s).plan.value, r).None?
    ensures var t := Accept(s, r, 3);
            && t.rows == Refresh(s.rows, s.manifests, s.projection.Keys).rows
            && t.projection.Keys == s.projection.Keys + PlanHashes(MakePlan(s).plan.value.segments)
            && t.receipts == s.receipts[r.generation := r] && t.latest == Some(r) && t.manifests == s.manifests
            && (forall i | i in r.segments :: t.projection[i.sha] == r.generation)
  {
    ProjectAdds(r.segments, r.generation, s.projection);
  }

  lemma WaitingIsPlanned(s: Store, row: Row, m: Manifest)
    requires MakePlan(s).plan.Ok? && row in s.rows && SealedAs(row, s.manifests, m)
    ensures Unproved(row, s.projection.Keys) && m.sha !in s.projection ==>
              m.sha in PlanHashes(MakePlan(s).plan.value.segments)
  {
    if Unproved(row, s.projection.Keys) && m.sha !in s.projection {
      assert Waiting(s.rows, s.manifests, s.projection.Keys, row.path, m);
      PlanIsExact(s, PlanItem(row.path, m.sha, m.manifestSha));
    }
  }

  lemma VisitSettled(row: Row, manifests: map<Path, ManifestFile>, verified: set<Sha>)
    requires !Faulty(row, manifests, verified) && forall m | SealedAs(row, manifests, m) :: !Unproved(row, verified)
    ensures var visit := VisitRow(row, ManifestOf(manifests, row.path), verified);
            visit.Skipped? || visit.Open?
  {
    var file := ManifestOf(manifests, row.path);
    assert file.Present? && file.manifest.isSealed ==> SealedAs(row, manifests, file.manifest);
  }

  lemma {:induction false} NothingWaits(rows: seq<Row>, manifests: map<Path, ManifestFile>, verified: set<Sha>)
    requires forall row | row in rows :: !Faulty(row, manifests, verified)
    requires forall row, m | row in rows && SealedAs(row, manifests, m) :: !Unproved(row, verified)
    ensures Refresh(rows, manifests, verified) == Refreshed(rows, Ok([]))
    decreases |rows|
  {
    if rows != [] {
      assert rows == [rows[0]] + rows[1..];
      assert rows[0] in rows && forall row | row in rows[1..] :: row in rows;
      NothingWaits(rows[1..], manifests, verified);
      VisitSettled(rows[0], manifests, verified);
      var none: seq<(Row, Manifest)> := [];
      assert none + none == none;
    }
  }

  lemma AcceptedRowsAreSound(s: Store, r: Receipt, row: Row)
    requires MakePlan(s).plan.Ok? && Refusal(MakePlan(s).plan.value, r).None? && row in Accept(s, r, 3).rows
    ensures !Faulty(row, s.manifests, Accept(s, r, 3).projection.Keys)
  {
    var t, verified := Accept(s, r, 3), s.projection.Keys;
    RefreshExact(s.rows, s.manifests, verified);
    ProjectAdds(r.segments, r.generation, s.projection);
    var i :| 0 <= i < |t.rows| && t.rows[i] == row;
    assert s.rows[i] in s.rows && !Faulty(s.rows[i], s.manifests, verified);
    assert CaughtUpRow(s.rows[i], row, s.manifests, verified);
    var file := ManifestOf(s.manifests, row.path);
    assert file.Present? && file.manifest.isSealed ==> SealedAs(s.rows[i], s.manifests, file.manifest);
  }

  lemma NothingPendingAfter(s: Store, r: Receipt)
    requires MakePlan(s).plan.Ok? && Refusal(MakePlan(s).plan.value, r).None?
    ensures var t := Accept(s, r, 3);
            Refresh(t.rows, t.manifests, t.projection.Keys) == Refreshed(t.rows, Ok([]))
  {
    var t := Accept(s, r, 3);
    forall row, m | row in t.rows && SealedAs(row, t.manifests, m)
      ensures !Unproved(row, t.projection.Keys)
    {
      AcceptanceLeavesNothing(s, r, row, m);
    }
    forall row | row in t.rows
      ensures !Faulty(row, t.manifests, t.projection.Keys)
    {
      AcceptedRowsAreSound(s, r, row);
    }
    NothingWaits(t.rows, t.manifests, t.projection.Keys);
  }

  lemma AcceptedGeneration(s: Store, n: nat, m: nat, r: Receipt)
    requires Weak(s, n, m) && MakePlan(s).plan.Ok? && Refusal(MakePlan(s).plan.value, r).None?
    ensures r.generation == m + 1 && MaxGeneration(Accept(s, r, 3).projection) == m + 1
  {
    CoverageIsMax(s.projection, s.receipts, n, m);
    PlanIsFresh(s);
    WritesKeepWeak(MakePlan(s).store, n, m, r, 3);
    var t := Accept(s, r, 3);
    CoverageIsMax(t.projection, t.receipts, m + 1, m + 1);
  }

  /** So the next plan, if nothing else is sealed, is of the next generation and empty. */
  lemma NextPlanIsEmpty(s: Store, n: nat, m: nat, r: Receipt)
    requires Weak(s, n, m) && MakePlan(s).plan.Ok? && Refusal(MakePlan(s).plan.value, r).None?
    ensures MakePlan(Accept(s, r, 3)).plan == Ok(Plan(r.generation + 1, []))
  {
    NothingPendingAfter(s, r);
    AcceptedGeneration(s, n, m, r);
  }

  /** A row caught up with its manifest is visited to the same end, unless its hash turned out to be proved. */
  lemma VisitTwice(row: Row, file: ManifestFile, verified: set<Sha>)
    ensures var visit := VisitRow(row, file, verified);
            visit.Pending? ==>
              VisitRow(visit.row, file, verified) == if visit.manifest.sha in verified then Skipped else visit
    ensures var visit := VisitRow(row, file, verified);
            visit.Pending? ==> visit.row.path == row.path
  {
  }

  lemma RefreshHead(row: Row, rows: seq<Row>, manifests: map<Path, ManifestFile>, verified: set<Sha>)
    requires !VisitRow(row, ManifestOf(manifests, row.path), verified).Fault?
    requires Refresh(rows, manifests, verified).pending.Ok?
    ensures var visit := VisitRow(row, ManifestOf(manifests, row.path), verified);
            var rest := Refresh(rows, manifests, verified);
            Refresh([row] + rows, manifests, verified)
            == if visit.Pending?
               then Refreshed([visit.row] + rest.rows, Ok([(visit.row, visit.manifest)] + rest.pending.value))
               else Refreshed([row] + rest.rows, Ok(rest.pending.value))
  {
    assert ([row] + rows)[1..] == rows;
    assert [] + Refresh(rows, manifests, verified).pending.value == Refresh(rows, manifests, verified).pending.value;
  }

  lemma CollectHead(
      first: (Row, Manifest), more: seq<(Row, Manifest)>, also: seq<(Row, Manifest)>, verified: set<Sha>,
      planned: set<Sha>)
    requires var next := if first.1.sha in verified then planned else planned + {first.1.sha};
             Collect(more, verified, next) == Collect(also, verified, next)
    ensures Collect([first] + more, verified, planned) == Collect([first] + also, verified, planned)
    ensures first.1.sha in verified ==> Collect([first] + more, verified, planned) == Collect(also, verified, planned)
  {
    assert ([first] + more)[1..] == more && ([first] + also)[1..] == also;
  }

  lemma {:induction false} RefreshTwice(
      rows: seq<Row>, manifests: map<Path, ManifestFile>, verified: set<Sha>, planned: set<Sha>)
    requires Refresh(rows, manifests, verified).pending.Ok?
    ensures var once := Refresh(rows, manifests, verified);
            var twice := Refresh(once.rows, manifests, verified);
            && twice.rows == once.rows && twice.pending.Ok?
            && Collect(twice.pending.value, verified, planned) == Collect(once.pending.value, verified, planned)
    decreases |rows|
  {
    if rows != [] {
      var row, file := rows[0], ManifestOf(manifests, rows[0].path);
      var visit, rest := VisitRow(row, file, verified), Refresh(rows[1..], manifests, verified);
      assert rows == [row] + rows[1..];
      RefreshHead(row, rows[1..], manifests, verified);
      VisitTwice(row, file, verified);
      if visit.Pending? {
        var sha, first := visit.manifest.sha, (visit.row, visit.manifest);
        RefreshTwice(rows[1..], manifests, verified, if sha in verified then planned else planned + {sha});
        RefreshHead(visit.row, rest.rows, manifests, verified);
        var again := Refresh(rest.rows, manifests, verified).pending.value;
        CollectHead(first, rest.pending.value, again, verified, planned);
      } else {
        RefreshTwice(rows[1..], manifests, verified, planned);
        RefreshHead(row, rest.rows, manifests, verified);
      }
    }
  }

  /** Planning changes nothing a second plan would see: it comes out the same. */
  lemma PlanIsRepeatable(s: Store)
    requires Refresh(s.rows, s.manifests, s.projection.Keys).pending.Ok?
    ensures MakePlan(MakePlan(s).store) == MakePlan(s)
  {
    RefreshTwice(s.rows, s.manifests, s.projection.Keys, {});
  }

  // ---------------------------------------------------------------- startup

  /** The stored receipt of the highest generation, which is the first in descending file-name order. */
  function Highest(receipts: map<nat, Receipt>, listing: seq<nat>): Option<Receipt>
    requires forall g | g in listing :: g in receipts
  {
    if listing == [] then None
    else
      var rest := Highest(receipts, listing[1..]);
      var r := receipts[listing[0]];
      if r.segments == [] then rest
      else if rest.Some? && rest.value.generation > r.generation then rest
      else Some(r)
  }

  function ProjectMax(items: seq<ReceiptItem>, generation: nat, projection: map<Sha, nat>): map<Sha, nat> {
    if items == [] then projection
    else
      var sha := items[0].sha;
      var known := if sha in projection then projection[sha] else 0;
      ProjectMax(items[1..], generation, projection[sha := Max(known, generation)])
  }

  function RebuildFrom(receipts: map<nat, Receipt>, listing: seq<nat>, projection: map<Sha, nat>): map<Sha, nat>
    requires forall g | g in listing :: g in receipts
  {
    if listing == [] then projection
    else
      var r := receipts[listing[0]];
      RebuildFrom(receipts, listing[1..], ProjectMax(r.segments, r.generation, projection))
  }

  /** `reconcile_latest_backup_receipt` then `rebuild_backup_projection`, reading the receipts
      directory in the order `listing`. */
  ghost function Startup(s: Store, listing: seq<nat>): Store
    requires forall g | g in listing :: g in s.receipts
  {
    var latest := Highest(s.receipts, listing);
    var expected := if latest.Some? then latest.value.generation else 0;
    s.(latest := latest,
       projection := if MaxGeneration(s.projection) == expected then s.projection
                     else RebuildFrom(s.receipts, listing, map[]))
  }

  // ---------------------------------------------------------------- the ledger

  /** Receipts 1..n, nothing missing; each proves a non-empty set of hashes, no two the same hash. */
  ghost predicate Ledger(receipts: map<nat, Receipt>, n: nat) {
    && (forall g {:trigger g in receipts} :: g in receipts <==> 1 <= g <= n)
    && (forall g | g in receipts ::
          && receipts[g].generation == g && receipts[g].segments != [] && DistinctItems(receipts[g].segments)
          && forall i | i in receipts[g].segments :: i.checksumVerified)
    && (forall g, h | g in receipts && h in receipts && g != h ::
          Hashes(receipts[g].segments) !! Hashes(receipts[h].segments))
  }

  /** The projection holds exactly the hashes of receipts 1..m, each under its generation. */
  ghost predicate Covers(projection: map<Sha, nat>, receipts: map<nat, Receipt>, m: nat) {
    && (forall sha | sha in projection ::
          1 <= projection[sha] <= m && projection[sha] in receipts && sha in Hashes(receipts[projection[sha]].segments))
    && (forall g | g in receipts && g <= m :: forall sha | sha in Hashes(receipts[g].segments) ::
          sha in projection && projection[sha] == g)
  }

  /** The generation of the latest receipt, if there is one, is stored. */
  ghost predicate LatestStored(s: Store) {
    s.latest.Some? ==> s.latest.value.generation in s.receipts
  }

  /** What every crash leaves: the projection is at most one receipt behind, and the latest receipt is never
      ahead of the stored ones. */
  ghost predicate Weak(s: Store, n: nat, m: nat) {
    Ledger(s.receipts, n) && m <= n <= m + 1 && Covers(s.projection, s.receipts, m) && LatestStored(s)
  }

  /** What startup restores: nothing is behind. */
  ghost predicate Consistent(s: Store, n: nat) {
    && Ledger(s.receipts, n) && Covers(s.projection, s.receipts, n)
    && s.latest == if n == 0 then None else Some(s.receipts[n])
  }

  lemma {:induction false} ProjectAdds(items: seq<ReceiptItem>, generation: nat, projection: map<Sha, nat>)
    ensures var p := Project(items, generation, projection);
            && p.Keys == projection.Keys + Hashes(items)
            && (forall sha | sha in Hashes(items) :: p[sha] == generation)
            && (forall sha | sha in projection && sha !in Hashes(items) :: p[sha] == projection[sha])
    decreases |items|
  {
    if items != [] {
      ProjectAdds(items[1..], generation, projection[items[0].sha := generation]);
      assert Hashes(items) == {items[0].sha} + Hashes(items[1..]) by {
        assert items == [items[0]] + items[1..];
      }
    }
  }

  /** Accepting any receipt whatever, stopped after any number of its writes, keeps the ledger a gapless
      partition with the projection at most one receipt behind. */
  lemma AcceptKeepsWeak(s: Store, n: nat, m: nat, r: Receipt, writes: nat) returns (n': nat, m': nat)
    requires Weak(s, n, m)
    ensures Weak(Accept(s, r, writes), n', m')
  {
    var planned := MakePlan(s);
    if planned.plan.Err? || Refusal(planned.plan.value, r).Some? || writes == 0 {
      n', m' := n, m;
    } else {
      n', m' := m + 1, if writes >= 3 then m + 1 else m;
      CoverageIsMax(s.projection, s.receipts, n, m);
      PlanIsFresh(s);
      WritesKeepWeak(planned.store, n, m, r, writes);
    }
  }

  /** A receipt the checks let through continues the ledger. */
  ghost predicate Continues(s: Store, m: nat, r: Receipt) {
    && r.generation == m + 1 && r.segments != [] && DistinctItems(r.segments)
    && (forall i | i in r.segments :: i.checksumVerified)
    && Hashes(r.segments) !! s.projection.Keys
  }

  lemma WritesKeepWeak(s: Store, n: nat, m: nat, r: Receipt, writes: nat)
    requires Weak(s, n, m) && Continues(s, m, r) && writes >= 1
    ensures Weak(WriteReceipt(s, r, writes), m + 1, if writes >= 3 then m + 1 else m)
  {
    NewReceiptExtendsLedger(s, n, m, r);
    if writes >= 3 {
      ProjectAdds(r.segments, r.generation, s.projection);
      var t := WriteReceipt(s, r, writes);
      forall sha | sha in t.projection
        ensures 1 <= t.projection[sha] <= m + 1 && sha in Hashes(t.receipts[t.projection[sha]].segments)
      {
        if sha !in Hashes(r.segments) {
          assert sha in s.projection;
        }
      }
    }
  }

  lemma PlanIsFresh(s: Store)
    requires MakePlan(s).plan.Ok?
    ensures DistinctPlan(MakePlan(s).plan.value.segments)
    ensures PlanHashes(MakePlan(s).plan.value.segments) !! s.projection.Keys
  {
    CollectIsFresh(Refresh(s.rows, s.manifests, s.projection.Keys).pending.value, s.projection.Keys, {});
  }

  lemma NewReceiptExtendsLedger(s: Store, n: nat, m: nat, r: Receipt)
    requires Weak(s, n, m) && Continues(s, m, r)
    ensures Ledger(s.receipts[m + 1 := r], m + 1)
    ensures Covers(s.projection, s.receipts[m + 1 := r], m)
  {
    var receipts := s.receipts[m + 1 := r];
    forall g | g in receipts && g != m + 1
      ensures Hashes(receipts[g].segments) !! Hashes(r.segments)
    {
      assert g <= m;
    }
  }

  // ---------------------------------------------------------------- startup repairs

  /** `listing` names every stored receipt, in any order. */
  ghost predicate Lists(receipts: map<nat, Receipt>, listing: seq<nat>) {
    (forall g | g in listing :: g in receipts) && (forall g | g in receipts :: g in listing)
  }

  lemma {:induction false} HighestIsMax(receipts: map<nat, Receipt>, n: nat, listing: seq<nat>)
    requires Ledger(receipts, n) && forall g | g in listing :: g in receipts
    ensures var h := Highest(receipts, listing);
            && (listing == [] <==> h.None?)
            && (h.Some? ==> h.value.generation in listing && h.value == receipts[h.value.generation]
                            && forall g | g in listing :: g <= h.value.generation)
    decreases |listing|
  {
    if listing != [] {
      HighestIsMax(receipts, n, listing[1..]);
      assert listing == [listing[0]] + listing[1..];
    }
  }

  /** Of any stored receipts, the one startup takes is of the highest generation among those that are not empty. */
  lemma {:induction false} HighestOfNonEmpty(receipts: map<nat, Receipt>, listing: seq<nat>)
    requires forall g | g in listing :: g in receipts
    ensures var h := Highest(receipts, listing);
            && (h.None? <==> forall g | g in listing :: receipts[g].segments == [])
            && (h.Some? ==>
                  && h.value.segments != [] && (exists g | g in listing :: receipts[g] == h.value)
                  && forall g | g in listing && receipts[g].segments != [] ::
                       receipts[g].generation <= h.value.generation)
    decreases |listing|
  {
    if listing != [] {
      HighestOfNonEmpty(receipts, listing[1..]);
      assert listing == [listing[0]] + listing[1..] && listing[0] in listing;
      assert forall g | g in listing[1..] :: g in listing;
    }
  }

  /** The latest receipt is the highest one, whatever order the directory is read in. */
  lemma HighestIsLast(receipts: map<nat, Receipt>, n: nat, listing: seq<nat>)
    requires Ledger(receipts, n) && Lists(receipts, listing)
    ensures Highest(receipts, listing) == if n == 0 then None else Some(receipts[n])
  {
    HighestIsMax(receipts, n, listing);
    assert listing == [] || listing[0] in listing;
    assert n > 0 ==> n in receipts && n in listing;
  }

  /** The projection holds exactly the hashes of the receipts listed so far. */
  ghost predicate CoversListed(projection: map<Sha, nat>, receipts: map<nat, Receipt>, listed: set<nat>) {
    && (forall sha | sha in projection ::
          projection[sha] in listed && projection[sha] in receipts && sha in Hashes(receipts[projection[sha]].segments))
    && (forall g | g in listed && g in receipts :: forall sha | sha in Hashes(receipts[g].segments) ::
          sha in projection && projection[sha] == g)
  }

  lemma {:induction false} ProjectMaxAdds(items: seq<ReceiptItem>, generation: nat, projection: map<Sha, nat>)
    requires forall sha | sha in projection && sha in Hashes(items) :: projection[sha] <= generation
    ensures ProjectMax(items, generation, projection) == Project(items, generation, projection)
    decreases |items|
  {
    if items != [] {
      assert Hashes(items) == {items[0].sha} + Hashes(items[1..]) by {
        assert items == [items[0]] + items[1..];
      }
      ProjectMaxAdds(items[1..], generation, projection[items[0].sha := generation]);
    }
  }

  /** The hash is in the receipt. */
  predicate Proves(r: Receipt, sha: Sha) { sha in Hashes(r.segments) }

  lemma {:induction false} ProjectMaxIs(items: seq<ReceiptItem>, generation: nat, projection: map<Sha, nat>, sha: Sha)
    ensures var p := ProjectMax(items, generation, projection);
            && (sha in p <==> sha in projection || sha in Hashes(items))
            && (sha in Hashes(items) ==>
                  p[sha] == if sha in projection then Max(projection[sha], generation) else generation)
            && (sha in projection && sha !in Hashes(items) ==> p[sha] == projection[sha])
    decreases |items|
  {
    if items != [] {
      var first := items[0].sha;
      assert items == [items[0]] + items[1..];
      assert Hashes(items) == {first} + Hashes(items[1..]);
      var known := if first in projection then projection[first] else 0;
      ProjectMaxIs(items[1..], generation, projection[first := Max(known, generation)], sha);
    }
  }

  /** A rebuilt projection gives each hash the highest generation of all receipts that prove it, for any receipts
      in any order. */
  lemma {:induction false} RebuildTakesHighest(
      receipts: map<nat, Receipt>, listing: seq<nat>, projection: map<Sha, nat>, sha: Sha)
    requires forall g | g in listing :: g in receipts
    ensures var p := RebuildFrom(receipts, listing, projection);
            && (sha in p <==> sha in projection || exists g | g in listing :: Proves(receipts[g], sha))
            && (sha in p ==>
                  && (forall g | g in listing && Proves(receipts[g], sha) :: receipts[g].generation <= p[sha])
                  && (sha in projection ==> projection[sha] <= p[sha])
                  && ((sha in projection && p[sha] == projection[sha])
                      || exists g | g in listing :: Proves(receipts[g], sha) && receipts[g].generation == p[sha]))
    decreases |listing|
  {
    if listing != [] {
      var r := receipts[listing[0]];
      var next := ProjectMax(r.segments, r.generation, projection);
      ProjectMaxIs(r.segments, r.generation, projection, sha);
      RebuildTakesHighest(receipts, listing[1..], next, sha);
      assert listing == [listing[0]] + listing[1..] && listing[0] in listing;
      assert forall g | g in listing[1..] :: g in listing;
    }
  }

  lemma {:induction false} RebuildCovers(
      receipts: map<nat, Receipt>, n: nat, listing: seq<nat>, done: set<nat>, projection: map<Sha, nat>)
    requires Ledger(receipts, n) && forall g | g in listing :: g in receipts
    requires CoversListed(projection, receipts, done)
    ensures CoversListed(RebuildFrom(receipts, listing, projection), receipts, done + Elements(listing))
    decreases |listing|
  {
    if listing == [] {
      assert done + {} == done;
    } else {
      var g := listing[0];
      RebuildOne(receipts, n, g, done, projection);
      RebuildCovers(receipts, n, listing[1..], done + {g}, Project(receipts[g].segments, g, projection));
      assert done + Elements(listing) == (done + {g}) + Elements(listing[1..]);
    }
  }

  lemma RebuildOne(receipts: map<nat, Receipt>, n: nat, g: nat, done: set<nat>, projection: map<Sha, nat>)
    requires Ledger(receipts, n) && g in receipts
    requires CoversListed(projection, receipts, done)
    ensures ProjectMax(receipts[g].segments, receipts[g].generation, projection)
              == Project(receipts[g].segments, g, projection)
    ensures CoversListed(Project(receipts[g].segments, g, projection), receipts, done + {g})
  {
    var items := receipts[g].segments;
    forall sha | sha in projection && sha in Hashes(items)
      ensures projection[sha] == g
    {
      SameHashSameReceipt(receipts, n, projection[sha], g, sha);
    }
    ProjectMaxAdds(items, g, projection);
    ProjectAdds(items, g, projection);
    var p := Project(items, g, projection);
    forall h, sha | h in done && h in receipts && sha in Hashes(receipts[h].segments)
      ensures sha in p && p[sha] == h
    {
      if sha in Hashes(items) {
        SameHashSameReceipt(receipts, n, h, g, sha);
      }
    }
  }

  lemma SameHashSameReceipt(receipts: map<nat, Receipt>, n: nat, g: nat, h: nat, sha: Sha)
    requires Ledger(receipts, n) && g in receipts && h in receipts
    requires sha in Hashes(receipts[g].segments) && sha in Hashes(receipts[h].segments)
    ensures g == h
  {
  }

  function Elements(listing: seq<nat>): set<nat> {
    if listing == [] then {} else {listing[0]} + Elements(listing[1..])
  }

  lemma {:induction false} ElementsAreMembers(listing: seq<nat>, g: nat)
    ensures g in Elements(listing) <==> g in listing
    decreases |listing|
  {
    if listing != [] {
      ElementsAreMembers(listing[1..], g);
      assert listing == [listing[0]] + listing[1..];
    }
  }

  lemma CoverageIsMax(projection: map<Sha, nat>, receipts: map<nat, Receipt>, n: nat, m: nat)
    requires Ledger(receipts, n) && m <= n && Covers(projection, receipts, m)
    ensures MaxGeneration(projection) == m
  {
    if m > 0 {
      assert m in receipts;
      var i := receipts[m].segments[0];
      assert i.sha in Hashes(receipts[m].segments);
    }
  }

  /** Receipt acceptance is crash-recoverable: however far the projection is behind the receipts, up to
      an index that was lost altogether, startup puts the latest receipt at the highest generation and
      the projection at the union of all stored receipts, whatever order the directory is read in. */
  lemma StartupRepairs(s: Store, n: nat, m: nat, listing: seq<nat>)
    requires Ledger(s.receipts, n) && m <= n && Covers(s.projection, s.receipts, m) && Lists(s.receipts, listing)
    ensures Consistent(Startup(s, listing), n)
  {
    HighestIsLast(s.receipts, n, listing);
    CoverageIsMax(s.projection, s.receipts, n, m);
    if m != n {
      RebuildCovers(s.receipts, n, listing, {}, map[]);
      forall g: nat
        ensures g in {} + Elements(listing) <==> g in s.receipts
      {
        ElementsAreMembers(listing, g);
      }
    }
  }

  // ---------------------------------------------------------------- whole runs

  /** Capture may do anything to the segment table and the manifests; plans are loaded; receipts of any content may be
      offered and any acceptance may be cut short; the service may restart, with its index or after
      losing it. */
  datatype Op =
    | Capture(rows: seq<Row>, manifests: map<Path, ManifestFile>)
    | LoadPlan
    | Offer(receipt: Receipt, writes: nat)
    | Restart(listing: seq<nat>)
    | RestartWithoutIndex(listing: seq<nat>)

  ghost function Perform(s: Store, op: Op): Store {
    match op
    case Capture(rows, manifests) => s.(rows := rows, manifests := manifests)
    case LoadPlan => MakePlan(s).store
    case Offer(receipt, writes) => Accept(s, receipt, writes)
    case Restart(listing) => if Lists(s.receipts, listing) then Startup(s, listing) else s
    case RestartWithoutIndex(listing) =>
      if Lists(s.receipts, listing) then Startup(s.(rows := [], projection := map[]), listing) else s
  }

  ghost function Run(s: Store, ops: seq<Op>): Store {
    if ops == [] then s else Perform(Run(s, ops[..|ops| - 1]), ops[|ops| - 1])
  }

  lemma PerformKeepsWeak(s: Store, n: nat, m: nat, op: Op) returns (n': nat, m': nat)
    requires Weak(s, n, m)
    ensures Weak(Perform(s, op), n', m')
  {
    n', m' := n, m;
    match op {
      case Capture(_, _) =>
      case LoadPlan =>
      case Offer(receipt, writes) =>
        n', m' := AcceptKeepsWeak(s, n, m, receipt, writes);
      case Restart(listing) =>
        if Lists(s.receipts, listing) {
          StartupRepairs(s, n, m, listing);
          m' := n;
        }
      case RestartWithoutIndex(listing) =>
        if Lists(s.receipts, listing) {
          StartupRepairs(s.(rows := [], projection := map[]), n, 0, listing);
          m' := n;
        }
    }
  }

  /** Over every run from an empty ledger the accepted generations are 1, 2, 3, ... without a gap, no
      hash is in two receipts, every accepted hash carries a remote checksum proof, the projection is at
      most one receipt behind, and the latest receipt is never ahead of the stored ones. */
  lemma {:induction false} GenerationsPartition(s: Store, ops: seq<Op>) returns (n: nat, m: nat)
    requires s.receipts == map[] && s.projection == map[] && s.latest.None?
    ensures Weak(Run(s, ops), n, m)
  {
    if ops == [] {
      n, m := 0, 0;
    } else {
      n, m := GenerationsPartition(s, ops[..|ops| - 1]);
      n, m := PerformKeepsWeak(Run(s, ops[..|ops| - 1]), n, m, ops[|ops| - 1]);
    }
  }

  /** And a restart at any point of any run, however the last acceptance ended and whether or not the
      index survived, restores consistency. */
  lemma RestartAlwaysRepairs(s: Store, ops: seq<Op>, listing: seq<nat>) returns (n: nat)
    requires s.receipts == map[] && s.projection == map[] && s.latest.None?
    requires Lists(Run(s, ops).receipts, listing)
    ensures Consistent(Startup(Run(s, ops), listing), n)
    ensures Consistent(Startup(Run(s, ops).(rows := [], projection := map[]), listing), n)
  {
    var m: nat;
    n, m := GenerationsPartition(s, ops);
    StartupRepairs(Run(s, ops), n, m, listing);
    StartupRepairs(Run(s, ops).(rows := [], projection := map[]), n, 0, listing);
  }

  // ---------------------------------------------------------------- unbacked bytes

  predicate Backed(row: Row, hashes: set<Sha>) { row.sha.Some? && row.sha.value in hashes }

  /** Body bytes of the rows whose hash is, or is not, in `hashes`. */
  function BytesIn(rows: seq<Row>, hashes: set<Sha>): nat {
    if rows == [] then 0 else (if Backed(rows[0], hashes) then rows[0].bodyBytes else 0) + BytesIn(rows[1..], hashes)
  }

  function Unbacked(rows: seq<Row>, hashes: set<Sha>): nat {
    if rows == [] then 0 else (if Backed(rows[0], hashes) then 0 else rows[0].bodyBytes) + Unbacked(rows[1..], hashes)
  }

  /** By how much the manifests the plan reads correct the body bytes of their rows. */
  function Corrected(rows: seq<Row>, manifests: map<Path, ManifestFile>, verified: set<Sha>): int {
    if rows == [] then 0
    else
      var visit := VisitRow(rows[0], ManifestOf(manifests, rows[0].path), verified);
      (if visit.Pending? then visit.row.bodyBytes - rows[0].bodyBytes else 0)
      + Corrected(rows[1..], manifests, verified)
  }

  /** Rows agree with the manifests beside them, as they do when nothing was captured in between;
      manifests from before body bytes were recorded say 0. */
  predicate InStep(rows: seq<Row>, manifests: map<Path, ManifestFile>) {
    forall r | r in rows ::
      var file := ManifestOf(manifests, r.path);
      file.Present? && file.manifest.isSealed ==> file.manifest.bodyBytes == 0 || file.manifest.bodyBytes == r.bodyBytes
  }

  lemma {:induction false} InStepCorrectsNothing(rows: seq<Row>, manifests: map<Path, ManifestFile>, verified: set<Sha>)
    requires InStep(rows, manifests)
    ensures Corrected(rows, manifests, verified) == 0
    decreases |rows|
  {
    if rows != [] {
      assert rows[0] in rows;
      InStepCorrectsNothing(rows[1..], manifests, verified);
    }
  }

  /** Body bytes of rows the plan finds to be second copies of segments already proved. */
  function CaughtUp(rows: seq<Row>, manifests: map<Path, ManifestFile>, verified: set<Sha>): nat {
    if rows == [] then 0
    else
      var visit := VisitRow(rows[0], ManifestOf(manifests, rows[0].path), verified);
      (if visit.Pending? && Backed(visit.row, verified) then visit.row.bodyBytes else 0)
      + CaughtUp(rows[1..], manifests, verified)
  }

  lemma {:induction false} UnbackedSplits(rows: seq<Row>, before: set<Sha>, added: set<Sha>)
    requires before !! added
    ensures Unbacked(rows, before) == Unbacked(rows, before + added) + BytesIn(rows, added)
    decreases |rows|
  {
    if rows != [] {
      UnbackedSplits(rows[1..], before, added);
    }
  }

  lemma {:induction false} RefreshUnbacked(rows: seq<Row>, manifests: map<Path, ManifestFile>, verified: set<Sha>)
    requires Refresh(rows, manifests, verified).pending.Ok?
    ensures Unbacked(rows, verified) + Corrected(rows, manifests, verified)
         == Unbacked(Refresh(rows, manifests, verified).rows, verified) + CaughtUp(rows, manifests, verified)
    decreases |rows|
  {
    if rows != [] {
      var visit := VisitRow(rows[0], ManifestOf(manifests, rows[0].path), verified);
      RefreshUnbacked(rows[1..], manifests, verified);
      assert Refresh(rows, manifests, verified).rows[1..] == Refresh(rows[1..], manifests, verified).rows;
    }
  }

  /** Acceptance lowers the unbacked bytes, as corrected by the manifests its plan reads, by exactly the
      body bytes of the accepted segments and of any second copies of older ones that the plan finds;
      rows that agree with their manifests need no correction. */
  lemma AcceptanceLowersUnbacked(s: Store, r: Receipt)
    requires MakePlan(s).plan.Ok? && Refusal(MakePlan(s).plan.value, r).None?
    ensures InStep(s.rows, s.manifests) ==> Corrected(s.rows, s.manifests, s.projection.Keys) == 0
    ensures var t := Accept(s, r, 3);
            Unbacked(s.rows, s.projection.Keys) + Corrected(s.rows, s.manifests, s.projection.Keys)
            == Unbacked(t.rows, t.projection.Keys) + BytesIn(t.rows, Hashes(r.segments))
               + CaughtUp(s.rows, s.manifests, s.projection.Keys)
  {
    if InStep(s.rows, s.manifests) {
      InStepCorrectsNothing(s.rows, s.manifests, s.projection.Keys);
    }
    PlanIsFresh(s);
    ProjectAdds(r.segments, r.generation, s.projection);
    RefreshUnbacked(s.rows, s.manifests, s.projection.Keys);
    UnbackedSplits(Refresh(s.rows, s.manifests, s.projection.Keys).rows, s.projection.Keys, Hashes(r.segments));
  }

  // ---------------------------------------------------------------- the store object

  class BackupStore {
    var rows: seq<Row>
    var manifests: map<Path, ManifestFile>
    var receipts: map<nat, Receipt>
    var latest: Option<Receipt>
    var projection: map<Sha, nat>

    constructor ()
      ensures Value() == Store([], map[], map[], None, map[])
    {
      rows, manifests, receipts, latest, projection := [], map[], map[], None, map[];
    }

    ghost function Value(): Store
      reads this
    {
      Store(rows, manifests, receipts, latest, projection)
    }

    method LatestGeneration() returns (g: nat)
      ensures g == MaxGeneration(projection)
    {
      g := 0;
      var left := projection.Keys;
      while left != {}
        invariant left <= projection.Keys
        invariant forall sha | sha in projection && sha !in left :: projection[sha] <= g
        invariant g == 0 || exists sha | sha in projection :: projection[sha] == g
        decreases |left|
      {
        var sha :| sha in left;
        g := Max(g, projection[sha]);
        left := left - {sha};
      }
    }

    /** The plan; as a side effect rows catch up with sealed manifests. */
    method BackupPlan() returns (plan: Result<Plan>)
      modifies this`rows
      ensures Planned(Value(), plan) == MakePlan(old(Value()))
    {
      var verified := projection.Keys;
      var generation := LatestGeneration();
      var refreshed := Refresh(rows, manifests, verified);
      rows := refreshed.rows;
      if refreshed.pending.Err? {
        return Err(refreshed.pending.error);
      }
      var items := Collect(refreshed.pending.value, verified, {});
      return match items case Err(e) => Err(e) case Ok(segments) => Ok(Plan(generation + 1, segments));
    }

    /** Accept a receipt; the process dies after `writes` durable writes, if that is fewer than three. */
    method AcceptBackupReceipt(r: Receipt, writes: nat) returns (outcome: Result<()>)
      modifies this
      ensures Value() == Accept(old(Value()), r, writes)
      ensures var plan := MakePlan(old(Value())).plan;
              match plan
              case Err(e) => outcome == Err(e)
              case Ok(p) => outcome == (match Refusal(p, r) case Some(e) => Err(e) case None => Ok(()))
    {
      var plan := BackupPlan();
      if plan.Err? {
        return Err(plan.error);
      }
      var refusal := Refusal(plan.value, r);
      if refusal.Some? {
        return Err(refusal.value);
      }
      if writes >= 1 {
        receipts := receipts[r.generation := r];
      }
      if writes >= 2 {
        latest := Some(r);
      }
      if writes >= 3 {
        var i := 0;
        ghost var start := projection;
        assert r.segments[0..] == r.segments;
        while i < |r.segments|
          invariant 0 <= i <= |r.segments|
          invariant Project(r.segments[i..], r.generation, projection) == Project(r.segments, r.generation, start)
          invariant rows == MakePlan(old(Value())).store.rows && manifests == old(manifests)
          invariant receipts == old(receipts)[r.generation := r] && latest == Some(r)
        {
          assert r.segments[i..][1..] == r.segments[i + 1..];
          projection := projection[r.segments[i].sha := r.generation];
          i := i + 1;
        }
      }
      return Ok(());
    }

    /** Reopen the store, reading the receipts directory in the order `listing`. */
    method Reopen(listing: seq<nat>)
      requires forall g | g in listing :: g in receipts
      modifies this
      ensures Value() == Startup(old(Value()), listing)
    {
      latest := Highest(receipts, listing);
      var expected := if latest.Some? then latest.value.generation else 0;
      var current := LatestGeneration();
      if current != expected {
        projection := RebuildFrom(receipts, listing, map[]);
      }
    }
  }
}
