/**
 The SQLite index as a projection of the segment log: built record by record while capturing, rebuilt
 from the files when it is lost, and reconciled with unsealed segments at startup.
 */
module IndexRecovery {
  import opened Common

  type Path = string
  type Id = string

  /** The fields that make a captured body what it is. */
  datatype Identity = Identity(
    requestId: string, observedAt: int, captureStage: string, protocol: string, bodySha256: string, bodyBytes: nat)

  /** What has been learned about it since. */
  datatype Enrichment = Enrichment(
    upstream: Option<string>, model: Option<string>, status: Option<nat>, contentType: Option<string>,
    compressedBytes: nat, isProtected: bool, redactionState: string, thresholdShrunk: bool, metadata: string)

  /** `path` stands for `archive_path` and `storage` together: the second is decided by the first. */
  datatype Record = Record(id: Id, identity: Identity, enrichment: Enrichment, path: Path)

  datatype SegmentRow = SegmentRow(records: nat, bodyBytes: nat)

  type Events = map<Id, Record>
  type Rows = map<Path, SegmentRow>

  datatype Index = Index(events: Events, segments: Rows)

  const EmptyIndex := Index(map[], map[])

  /** A segment file: its frames in order, and the counts in its manifest once it is sealed. */
  datatype File = File(frames: seq<Record>, manifest: Option<SegmentRow>)

  /** The segments that can be used. A path found on disk whose custody record, manifest or frames cannot
      be read is not among them, and recovery stops with an error when it gets there. */
  type Files = map<Path, File>

  datatype Store = Store(files: Files, index: Index)

  function BodyBytes(frames: seq<Record>): nat {
    if frames == [] then 0 else BodyBytes(frames[..|frames| - 1]) + frames[|frames| - 1].identity.bodyBytes
  }

  function RowOf(frames: seq<Record>): SegmentRow { SegmentRow(|frames|, BodyBytes(frames)) }

  // ---------------------------------------------------------------- recovery

  datatype Inserted = Inserted(events: Events, ok: bool)

  /** Plain inserts of a file's frames at its path; the first event id already present stops them. */
  function InsertAll(events: Events, frames: seq<Record>, path: Path): Inserted {
    if frames == [] then Inserted(events, true)
    else
      var before := InsertAll(events, frames[..|frames| - 1], path);
      var r := frames[|frames| - 1].(path := path);
      if !before.ok then before
      else if r.id in before.events then before.(ok := false)
      else Inserted(before.events[r.id := r], true)
  }

  /** `insert_recovered_record_on`: a new event is inserted, a known one is only relocated, and one
      whose identity differs from the indexed row is skipped. */
  function Reconcile(events: Events, r: Record): Events {
    if r.id !in events then events[r.id := r]
    else if events[r.id].identity != r.identity then events
    else if events[r.id] == r then events
    else events[r.id := events[r.id].(path := r.path)]
  }

  function ReconcileAll(events: Events, frames: seq<Record>, path: Path): Events {
    if frames == [] then events
    else Reconcile(ReconcileAll(events, frames[..|frames| - 1], path), frames[|frames| - 1].(path := path))
  }

  /** `upsert_segment_manifest_projection_on`: no row for a segment without frames, and a body byte
      count of zero never replaces a recorded one. */
  function UpsertRow(rows: Rows, path: Path, manifest: SegmentRow, recovered: Option<nat>): Rows {
    if manifest.records == 0 then rows
    else
      var bytes := if recovered.Some? then recovered.value else manifest.bodyBytes;
      rows[path := SegmentRow(manifest.records, if bytes > 0 || path !in rows then bytes else rows[path].bodyBytes)]
  }

  datatype Outcome = Outcome(store: Store, ok: bool)

  function RecoverPath(rebuild: bool, s: Store, path: Path): Outcome {
    if path !in s.files then Outcome(s, false)
    else
      var file := s.files[path];
      if !rebuild && file.manifest.Some? then
        Outcome(s.(index := s.index.(segments := UpsertRow(s.index.segments, path, file.manifest.value, None))), true)
      else
        var inserted := if rebuild then InsertAll(s.index.events, file.frames, path)
                        else Inserted(ReconcileAll(s.index.events, file.frames, path), true);
        if !inserted.ok then Outcome(s.(index := s.index.(events := inserted.events)), false)
        else
          var manifest := if file.manifest.Some? then file.manifest.value else RowOf(file.frames);
          Outcome(
            Store(s.files[path := file.(manifest := Some(manifest))],
                  Index(inserted.events,
                        UpsertRow(s.index.segments, path, manifest, Some(BodyBytes(file.frames))))),
            true)
  }

  function RecoverAll(rebuild: bool, locked: set<Path>, s: Store, listing: seq<Path>): Outcome {
    if listing == [] then Outcome(s, true)
    else
      var before := RecoverAll(rebuild, locked, s, listing[..|listing| - 1]);
      var path := listing[|listing| - 1];
      if !before.ok || path in locked then before else RecoverPath(rebuild, before.store, path)
  }

  class BodyIndex {
    var store: Store

    constructor (files: Files, index: Index)
      ensures store == Store(files, index)
    {
      store := Store(files, index);
    }

    /** The frames of one file, each inserted or reconciled by a statement of its own. */
    method ReplayFile(rebuild: bool, path: Path) returns (ok: bool)
      requires path in store.files
      modifies this
      ensures store.files == old(store.files) && store.index.segments == old(store.index.segments)
      ensures rebuild ==>
                InsertAll(old(store.index.events), store.files[path].frames, path) == Inserted(store.index.events, ok)
      ensures !rebuild ==>
                ok && store.index.events == ReconcileAll(old(store.index.events), store.files[path].frames, path)
    {
      var frames := store.files[path].frames;
      ok := true;
      var i := 0;
      while i < |frames| && ok
        invariant 0 <= i <= |frames|
        invariant store.files == old(store.files) && store.index.segments == old(store.index.segments)
        invariant !rebuild ==> ok && store.index.events == ReconcileAll(old(store.index.events), frames[..i], path)
        invariant rebuild && ok ==>
                  InsertAll(old(store.index.events), frames[..i], path) == Inserted(store.index.events, true)
        invariant rebuild && !ok ==>
                  InsertAll(old(store.index.events), frames, path) == Inserted(store.index.events, false)
      {
        var r := frames[i].(path := path);
        assert frames[..i + 1][..i] == frames[..i];
        if rebuild {
          if r.id in store.index.events {
            ok := false;
            InsertStopped(old(store.index.events), frames, path, i + 1);
          } else {
            store := store.(index := store.index.(events := store.index.events[r.id := r]));
          }
        } else {
          store := store.(index := store.index.(events := Reconcile(store.index.events, r)));
        }
        i := i + 1;
      }
      assert ok ==> frames[..i] == frames;
    }

    /** `recover_segments` over a sorted listing; `locked` holds the segments another writer owns. */
    method RecoverSegments(rebuild: bool, locked: set<Path>, listing: seq<Path>) returns (ok: bool)
      modifies this
      ensures RecoverAll(rebuild, locked, old(store), listing) == Outcome(store, ok)
    {
      ok := true;
      var i := 0;
      while i < |listing|
        invariant 0 <= i <= |listing|
        invariant ok && RecoverAll(rebuild, locked, old(store), listing[..i]) == Outcome(store, true)
      {
        var path := listing[i];
        assert listing[..i + 1][..i] == listing[..i];
        ghost var before := store;
        if path !in locked {
          if path !in store.files {
            ok := false;
          } else {
            var file := store.files[path];
            if !rebuild && file.manifest.Some? {
              store := store.(index := store.index.(segments :=
                UpsertRow(store.index.segments, path, file.manifest.value, None)));
            } else {
              ok := ReplayFile(rebuild, path);
              if ok {
                var manifest := if file.manifest.Some? then file.manifest.value else RowOf(file.frames);
                store := Store(store.files[path := file.(manifest := Some(manifest))],
                               store.index.(segments :=
                                 UpsertRow(store.index.segments, path, manifest, Some(BodyBytes(file.frames)))));
              }
            }
          }
          assert RecoverPath(rebuild, before, path) == Outcome(store, ok);
          if !ok {
            RecoveryStopped(rebuild, locked, old(store), listing, i + 1);
            return;
          }
        }
        i := i + 1;
      }
      assert listing[..i] == listing;
    }
  }

  lemma {:induction false} InsertStopped(events: Events, frames: seq<Record>, path: Path, n: nat)
    requires n <= |frames| && !InsertAll(events, frames[..n], path).ok
    ensures InsertAll(events, frames, path) == InsertAll(events, frames[..n], path)
    decreases |frames|
  {
    if n < |frames| {
      assert frames[..|frames| - 1][..n] == frames[..n];
      InsertStopped(events, frames[..|frames| - 1], path, n);
    } else {
      assert frames[..n] == frames;
    }
  }

  lemma {:induction false} RecoveryStopped(rebuild: bool, locked: set<Path>, s: Store, listing: seq<Path>, n: nat)
    requires n <= |listing| && !RecoverAll(rebuild, locked, s, listing[..n]).ok
    ensures RecoverAll(rebuild, locked, s, listing) == RecoverAll(rebuild, locked, s, listing[..n])
    decreases |listing|
  {
    if n < |listing| {
      assert listing[..|listing| - 1][..n] == listing[..n];
      RecoveryStopped(rebuild, locked, s, listing[..|listing| - 1], n);
    } else {
      assert listing[..n] == listing;
    }
  }

  // ---------------------------------------------------------------- faithfulness

  ghost predicate At(files: Files, path: Path, k: nat, id: Id) {
    path in files && k < |files[path].frames| && files[path].frames[k].id == id
  }

  /** Every event id occurs once in the whole log. */
  ghost predicate UniqueIds(files: Files) {
    forall path, k: nat, path', k': nat, id | At(files, path, k, id) && At(files, path', k', id) ::
        path == path' && k == k'
  }

  ghost predicate ManifestsCount(files: Files) {
    forall path | path in files && files[path].manifest.Some? :: files[path].manifest.value == RowOf(files[path].frames)
  }

  /** The frame an indexed event came from. */
  ghost predicate FrameOf(files: Files, path: Path, k: nat, id: Id, identity: Identity) {
    At(files, path, k, id) && files[path].frames[k].identity == identity
  }

  /** Every indexed event has a frame with its identity. */
  ghost predicate Backed(files: Files, events: Events) {
    forall id | id in events :: exists path, k: nat :: FrameOf(files, path, k, id, events[id].identity)
  }

  /** A segment row belongs to a file with frames and never counts more body bytes than it holds. */
  ghost predicate RowsBelow(files: Files, rows: Rows) {
    forall path | path in rows ::
      path in files && files[path].frames != [] && rows[path].bodyBytes <= BodyBytes(files[path].frames)
  }

  /** The frames are indexed, at this path, under their own identities. */
  ghost predicate Indexed(frames: seq<Record>, events: Events, path: Path) {
    forall k | 0 <= k < |frames| ::
      && frames[k].id in events
      && events[frames[k].id].identity == frames[k].identity
      && events[frames[k].id].path == path
  }

  ghost predicate Counted(frames: seq<Record>, rows: Rows, path: Path) {
    frames != [] ==> path in rows && rows[path] == RowOf(frames)
  }

  /** What holds of every index that has only ever fallen behind its log. */
  ghost predicate Sound(s: Store) {
    UniqueIds(s.files) && ManifestsCount(s.files) && Backed(s.files, s.index.events)
        && RowsBelow(s.files, s.index.segments)
  }

  ghost predicate Projected(s: Store, path: Path) {
    path in s.files ==>
      && Indexed(s.files[path].frames, s.index.events, path)
      && Counted(s.files[path].frames, s.index.segments, path)
  }

  /** Every frame is indexed under its identity and its file, every indexed event has a frame, and the
      segment rows count exactly the files that hold frames. */
  ghost predicate Faithful(s: Store) {
    Sound(s) && forall path :: Projected(s, path)
  }

  /** Two faithful indexes of the same files agree on which events there are, on every identity field,
      on where each event is, and on every segment's count and bytes. */
  lemma FaithfulIsUnique(files: Files, files': Files, a: Index, b: Index)
    requires Faithful(Store(files, a)) && Faithful(Store(files', b))
    requires files.Keys == files'.Keys && forall path | path in files :: files[path].frames == files'[path].frames
    ensures a.events.Keys == b.events.Keys
    ensures forall id | id in a.events ::
              a.events[id].identity == b.events[id].identity && a.events[id].path == b.events[id].path
    ensures a.segments == b.segments
  {
    EventsAgree(Store(files, a), Store(files', b));
    EventsAgree(Store(files', b), Store(files, a));
    RowsAgree(Store(files, a), Store(files', b));
    RowsAgree(Store(files', b), Store(files, a));
  }

  lemma EventsAgree(s: Store, t: Store)
    requires Faithful(s) && Faithful(t)
    requires forall path | path in s.files :: path in t.files && s.files[path].frames == t.files[path].frames
    ensures forall id | id in s.index.events ::
              && id in t.index.events
              && s.index.events[id].identity == t.index.events[id].identity
              && s.index.events[id].path == t.index.events[id].path
  {
    forall id | id in s.index.events
      ensures id in t.index.events
      ensures s.index.events[id].identity == t.index.events[id].identity
                && s.index.events[id].path == t.index.events[id].path
    {
      var path, k: nat :| FrameOf(s.files, path, k, id, s.index.events[id].identity);
      assert Projected(s, path) && Projected(t, path);
    }
  }

  lemma RowsAgree(s: Store, t: Store)
    requires Faithful(s) && Faithful(t)
    requires forall path | path in s.files :: path in t.files && s.files[path].frames == t.files[path].frames
    ensures forall path | path in s.index.segments ::
              path in t.index.segments && s.index.segments[path] == t.index.segments[path]
  {
    forall path | path in s.index.segments
      ensures path in t.index.segments && s.index.segments[path] == t.index.segments[path]
    {
      assert Projected(s, path) && Projected(t, path);
    }
  }

  // ---------------------------------------------------------------- replaying one file

  ghost predicate Mentions(frames: seq<Record>, id: Id) {
    exists k :: 0 <= k < |frames| && frames[k].id == id
  }

  ghost predicate Distinct(frames: seq<Record>) {
    forall k, k' | 0 <= k < k' < |frames| :: frames[k].id != frames[k'].id
  }

  /** Reconciling never drops an event, never changes an identity field, and never touches what was
      learned about an event after its frame was written; events the file does not mention stay as
      they are, and nothing else appears. */
  lemma {:induction false} ReconcileKeeps(events: Events, frames: seq<Record>, path: Path)
    ensures var after := ReconcileAll(events, frames, path);
            && (forall id | id in events ::
                  && id in after && after[id].identity == events[id].identity
                  && after[id].enrichment == events[id].enrichment
                  && (!Mentions(frames, id) ==> after[id] == events[id]))
            && (forall id | id in after :: id in events || Mentions(frames, id))
    decreases |frames|
  {
    if frames != [] {
      var front := frames[..|frames| - 1];
      ReconcileKeeps(events, front, path);
      assert forall id | Mentions(front, id) :: Mentions(frames, id);
      assert Mentions(frames, frames[|frames| - 1].id);
    }
  }

  lemma IndexOneMore(events: Events, front: seq<Record>, last: Record, path: Path)
    requires Indexed(front, events, path) && !Mentions(front, last.id)
    requires last.id in events ==> events[last.id].identity == last.identity
    ensures Indexed(front + [last], Reconcile(events, last.(path := path)), path)
  {
  }

  /** The position of the first frame with this id. */
  function FirstWith(frames: seq<Record>, id: Id): (k: nat)
    requires exists k :: 0 <= k < |frames| && frames[k].id == id
    ensures k < |frames| && frames[k].id == id && forall j | 0 <= j < k :: frames[j].id != id
  {
    if frames[0].id == id then 0
    else
      var k :| 0 <= k < |frames| && frames[k].id == id;
      assert frames[1..][k - 1].id == id;
      1 + FirstWith(frames[1..], id)
  }

  lemma FirstWithOneMore(front: seq<Record>, last: Record, id: Id)
    requires Mentions(front + [last], id)
    ensures FirstWith(front + [last], id) == if Mentions(front, id) then FirstWith(front, id) else |front|
  {
    var frames := front + [last];
    var k := FirstWith(frames, id);
    assert forall j | 0 <= j < |front| :: frames[j] == front[j];
    if Mentions(front, id) {
      var j := FirstWith(front, id);
      assert frames[j].id == id;
      assert k <= j;
      assert front[k].id == id;
    } else {
      assert k < |front| ==> Mentions(front, id);
    }
  }

  lemma ReconcileNew(events: Events, r: Record)
    requires r.id !in events
    ensures Reconcile(events, r) == events[r.id := r]
  {
  }

  /** A frame at the path an event is already at does not change that event. */
  lemma ReconcileInPlace(events: Events, r: Record, id: Id)
    requires id in events && events[id].path == r.path
    ensures id in Reconcile(events, r) && Reconcile(events, r)[id] == events[id]
  {
    assert events[id].(path := r.path) == events[id];
  }

  /** An event that replaying a file adds holds every column of its first frame there, at the file's path. */
  lemma {:induction false} ReconcileAdds(events: Events, frames: seq<Record>, path: Path, id: Id)
    requires id in ReconcileAll(events, frames, path) && id !in events
    ensures Mentions(frames, id)
    ensures ReconcileAll(events, frames, path)[id] == frames[FirstWith(frames, id)].(path := path)
    decreases |frames|
  {
    var front, last := frames[..|frames| - 1], frames[|frames| - 1];
    assert frames == front + [last];
    var before := ReconcileAll(events, front, path);
    ReconciledIds(events, frames, path);
    ReconciledIds(events, front, path);
    FirstWithOneMore(front, last, id);
    if id in before {
      ReconcileAdds(events, front, path, id);
      ReconcileInPlace(before, last.(path := path), id);
    } else {
      ReconcileNew(before, last.(path := path));
    }
  }

  /** A file whose ids are distinct and clash with no indexed identity ends up indexed at its path. */
  lemma {:induction false} ReconcileIndexes(events: Events, frames: seq<Record>, path: Path)
    requires Distinct(frames)
    requires forall k | 0 <= k < |frames| && frames[k].id in events ::
              events[frames[k].id].identity == frames[k].identity
    ensures Indexed(frames, ReconcileAll(events, frames, path), path)
    decreases |frames|
  {
    if frames != [] {
      var front, last := frames[..|frames| - 1], frames[|frames| - 1];
      ReconcileIndexes(events, front, path);
      ReconcileKeeps(events, front, path);
      assert !Mentions(front, last.id);
      assert front + [last] == frames;
      IndexOneMore(ReconcileAll(events, front, path), front, last, path);
    }
  }

  /** None of the frames' ids is indexed. */
  ghost predicate AllNew(frames: seq<Record>, events: Events) {
    forall k | 0 <= k < |frames| :: frames[k].id !in events
  }

  lemma DistinctOneMore(front: seq<Record>, last: Record)
    ensures Distinct(front + [last]) <==> Distinct(front) && !Mentions(front, last.id)
  {
    var frames := front + [last];
    assert frames[|front|] == last;
    assert forall k | 0 <= k < |front| :: frames[k] == front[k];
  }

  lemma AllNewOneMore(front: seq<Record>, last: Record, events: Events)
    ensures AllNew(front + [last], events) <==> AllNew(front, events) && last.id !in events
  {
    var frames := front + [last];
    assert frames[|front|] == last;
    assert forall k | 0 <= k < |front| :: frames[k] == front[k];
  }

  lemma {:induction false} ReconciledIds(events: Events, frames: seq<Record>, path: Path)
    ensures forall id :: id in ReconcileAll(events, frames, path) <==> id in events || Mentions(frames, id)
  {
    ReconcileKeeps(events, frames, path);
    ReconcileAbsorbs(events, frames, path);
  }

  /** On new distinct ids plain inserting and reconciling are the same; inserting succeeds on no others. */
  lemma {:induction false} InsertIsReconcile(events: Events, frames: seq<Record>, path: Path)
    ensures InsertAll(events, frames, path).ok <==> Distinct(frames) && AllNew(frames, events)
    ensures InsertAll(events, frames, path).ok ==>
              InsertAll(events, frames, path).events == ReconcileAll(events, frames, path)
    decreases |frames|
  {
    if frames != [] {
      var front, last := frames[..|frames| - 1], frames[|frames| - 1];
      assert frames == front + [last];
      InsertIsReconcile(events, front, path);
      DistinctOneMore(front, last);
      AllNewOneMore(front, last, events);
      ReconciledIds(events, front, path);
    }
  }

  ghost predicate Absorbed(events: Events, r: Record) {
    r.id in events && (events[r.id].identity == r.identity ==> events[r.id].path == r.path)
  }

  lemma {:induction false} ReconcileAbsorbs(events: Events, frames: seq<Record>, path: Path)
    ensures forall k | 0 <= k < |frames| :: Absorbed(ReconcileAll(events, frames, path), frames[k].(path := path))
    decreases |frames|
  {
    if frames != [] {
      ReconcileAbsorbs(events, frames[..|frames| - 1], path);
    }
  }

  lemma {:induction false} AbsorbedIsNoOp(events: Events, frames: seq<Record>, path: Path)
    requires forall k | 0 <= k < |frames| :: Absorbed(events, frames[k].(path := path))
    ensures ReconcileAll(events, frames, path) == events
    decreases |frames|
  {
    if frames != [] {
      AbsorbedIsNoOp(events, frames[..|frames| - 1], path);
      var r := frames[|frames| - 1].(path := path);
      if events[r.id].identity == r.identity && events[r.id] != r {
        assert events[r.id].(path := r.path) == events[r.id];
      }
    }
  }

  /** A replay that stopped after any number of frames and is started over ends where an uninterrupted
      one does; in particular replaying a file twice is replaying it once. */
  lemma {:induction false} InterruptedReplayResumes(events: Events, frames: seq<Record>, path: Path, n: nat)
    requires n <= |frames|
    ensures ReconcileAll(ReconcileAll(events, frames[..n], path), frames, path) == ReconcileAll(events, frames, path)
    decreases |frames|
  {
    if n == |frames| {
      assert frames[..n] == frames;
      ReconcileAbsorbs(events, frames, path);
      AbsorbedIsNoOp(ReconcileAll(events, frames, path), frames, path);
    } else {
      var front := frames[..|frames| - 1];
      assert front[..n] == frames[..n];
      InterruptedReplayResumes(events, front, path, n);
    }
  }

  // ---------------------------------------------------------------- recovering one file

  lemma FileIdsDistinct(files: Files, path: Path)
    requires UniqueIds(files) && path in files
    ensures Distinct(files[path].frames)
  {
    var frames := files[path].frames;
    forall k, k' | 0 <= k < k' < |frames|
      ensures frames[k].id != frames[k'].id
    {
      assert At(files, path, k, frames[k].id) && At(files, path, k', frames[k'].id);
    }
  }

  /** An indexed event that a file mentions agrees with that file's frame. */
  lemma BackedAgrees(s: Store, path: Path, k: nat)
    requires Sound(s) && path in s.files && k < |s.files[path].frames| && s.files[path].frames[k].id in s.index.events
    ensures s.index.events[s.files[path].frames[k].id].identity == s.files[path].frames[k].identity
  {
    var id := s.files[path].frames[k].id;
    var path', k': nat :| FrameOf(s.files, path', k', id, s.index.events[id].identity);
    assert At(s.files, path, k, id);
  }

  ghost predicate SameFrames(files: Files, files': Files) {
    files.Keys == files'.Keys && forall path | path in files :: files[path].frames == files'[path].frames
  }

  lemma SameFramesSound(s: Store, t: Store)
    requires Sound(s) && SameFrames(s.files, t.files)
    ensures UniqueIds(t.files) && Backed(t.files, s.index.events) && RowsBelow(t.files, s.index.segments)
  {
    forall path, k: nat, id | At(t.files, path, k, id)
      ensures At(s.files, path, k, id)
    {
    }
    forall id | id in s.index.events
      ensures exists path, k: nat :: FrameOf(t.files, path, k, id, s.index.events[id].identity)
    {
      var path, k: nat :| FrameOf(s.files, path, k, id, s.index.events[id].identity);
      assert FrameOf(t.files, path, k, id, s.index.events[id].identity);
    }
  }

  lemma ReplayBacked(s: Store, path: Path)
    requires Sound(s) && path in s.files
    ensures Backed(s.files, ReconcileAll(s.index.events, s.files[path].frames, path))
    ensures Indexed(s.files[path].frames, ReconcileAll(s.index.events, s.files[path].frames, path), path)
  {
    var frames := s.files[path].frames;
    var after := ReconcileAll(s.index.events, frames, path);
    FileIdsDistinct(s.files, path);
    forall k | 0 <= k < |frames| && frames[k].id in s.index.events
      ensures s.index.events[frames[k].id].identity == frames[k].identity
    {
      BackedAgrees(s, path, k);
    }
    ReconcileIndexes(s.index.events, frames, path);
    ReconcileKeeps(s.index.events, frames, path);
    forall id | id in after
      ensures exists p, k: nat :: FrameOf(s.files, p, k, id, after[id].identity)
    {
      if id in s.index.events {
        var p, k: nat :| FrameOf(s.files, p, k, id, s.index.events[id].identity);
        assert FrameOf(s.files, p, k, id, after[id].identity);
      } else {
        var k :| 0 <= k < |frames| && frames[k].id == id;
        assert FrameOf(s.files, path, k, id, after[id].identity);
      }
    }
  }

  lemma IdsOfTwoFiles(files: Files, path: Path, k: nat, other: Path, k': nat)
    requires UniqueIds(files) && path in files && other in files && path != other
    requires k < |files[path].frames| && k' < |files[other].frames|
    ensures files[path].frames[k].id != files[other].frames[k'].id
  {
    assert At(files, path, k, files[path].frames[k].id) && At(files, other, k', files[other].frames[k'].id);
  }

  /** Replaying one file leaves the events of every other file alone. */
  lemma ReplayKeepsOthers(s: Store, path: Path, other: Path)
    requires Sound(s) && path in s.files && other in s.files && other != path
    ensures Indexed(s.files[other].frames, ReconcileAll(s.index.events, s.files[path].frames, path), other)
       <==> Indexed(s.files[other].frames, s.index.events, other)
  {
    var frames := s.files[path].frames;
    ReconcileKeeps(s.index.events, frames, path);
    forall k | 0 <= k < |s.files[other].frames|
      ensures !Mentions(frames, s.files[other].frames[k].id)
    {
      forall k' | 0 <= k' < |frames|
        ensures frames[k'].id != s.files[other].frames[k].id
      {
        IdsOfTwoFiles(s.files, path, k', other, k);
      }
    }
  }

  lemma UpsertCounts(s: Store, path: Path, recovered: Option<nat>)
    requires Sound(s) && path in s.files && recovered in {None, Some(BodyBytes(s.files[path].frames))}
    ensures var rows := UpsertRow(s.index.segments, path, RowOf(s.files[path].frames), recovered);
            && RowsBelow(s.files, rows)
            && Counted(s.files[path].frames, rows, path)
            && forall other, frames | other != path ::
                 Counted(frames, rows, other) <==> Counted(frames, s.index.segments, other)
  {
  }

  /** What recovery does to one file's standing: a visited file is sealed and counted, and its events
      become indexed when it was not sealed before; everything else keeps its standing. */
  ghost predicate Recovered(s: Store, t: Store, path: Path, visited: bool)
    requires path in s.files
  {
    && path in t.files
    && t.files[path].frames == s.files[path].frames
    && (t.files[path].manifest.Some? <==> s.files[path].manifest.Some? || visited)
    && (Indexed(t.files[path].frames, t.index.events, path) <==>
          Indexed(s.files[path].frames, s.index.events, path) || (visited && s.files[path].manifest.None?))
    && (Counted(t.files[path].frames, t.index.segments, path) <==>
          Counted(s.files[path].frames, s.index.segments, path) || visited)
  }

  lemma RecoverSealed(s: Store, path: Path)
    requires Sound(s) && path in s.files && s.files[path].manifest.Some?
    ensures RecoverPath(false, s, path).ok && Sound(RecoverPath(false, s, path).store)
    ensures RecoverPath(false, s, path).store.files == s.files
    ensures forall other | other in s.files :: Recovered(s, RecoverPath(false, s, path).store, other, other == path)
  {
    UpsertCounts(s, path, None);
  }

  lemma RecoverUnsealedSound(s: Store, path: Path)
    requires Sound(s) && path in s.files && s.files[path].manifest.None?
    ensures Sound(RecoverPath(false, s, path).store)
  {
    var t := RecoverPath(false, s, path).store;
    UpsertCounts(s, path, Some(BodyBytes(s.files[path].frames)));
    ReplayBacked(s, path);
    SameFramesSound(Store(s.files, Index(t.index.events, t.index.segments)), t);
  }

  lemma RecoverUnsealed(s: Store, path: Path, other: Path)
    requires Sound(s) && path in s.files && s.files[path].manifest.None? && other in s.files
    ensures Recovered(s, RecoverPath(false, s, path).store, other, other == path)
  {
    UpsertCounts(s, path, Some(BodyBytes(s.files[path].frames)));
    if other == path {
      ReplayBacked(s, path);
    } else {
      ReplayKeepsOthers(s, path, other);
    }
  }

  lemma RecoverOne(s: Store, path: Path)
    requires Sound(s) && path in s.files
    ensures RecoverPath(false, s, path).ok
    ensures Sound(RecoverPath(false, s, path).store)
    ensures RecoverPath(false, s, path).store.files.Keys == s.files.Keys
    ensures forall other | other in s.files :: Recovered(s, RecoverPath(false, s, path).store, other, other == path)
  {
    if s.files[path].manifest.Some? {
      RecoverSealed(s, path);
    } else {
      RecoverUnsealedSound(s, path);
      forall other | other in s.files
        ensures Recovered(s, RecoverPath(false, s, path).store, other, other == path)
      {
        RecoverUnsealed(s, path, other);
      }
    }
  }

  // ---------------------------------------------------------------- recovering a listing

  /** The paths recovery visits. */
  ghost predicate Visited(listing: seq<Path>, locked: set<Path>, path: Path) {
    path in listing && path !in locked
  }

  lemma VisitedOneMore(listing: seq<Path>, locked: set<Path>, path: Path)
    requires listing != []
    ensures Visited(listing, locked, path) <==>
              Visited(listing[..|listing| - 1], locked, path) || (path == listing[|listing| - 1] && path !in locked)
  {
  }

  lemma VisitedFront(listing: seq<Path>, locked: set<Path>, files: Files)
    requires listing != [] && forall path | Visited(listing, locked, path) :: path in files
    ensures forall path | Visited(listing[..|listing| - 1], locked, path) :: path in files
    ensures listing[|listing| - 1] !in locked ==> listing[|listing| - 1] in files
  {
    var front, last := listing[..|listing| - 1], listing[|listing| - 1];
    forall path | Visited(front, locked, path)
      ensures path in files
    {
      VisitedOneMore(listing, locked, path);
    }
    if last !in locked {
      VisitedOneMore(listing, locked, last);
    }
  }

  /** Recovery that keeps the index always completes on usable files and keeps the store sound; the
      standing of every file afterwards is decided by whether it was visited. */
  lemma {:induction false} RecoveryStandings(locked: set<Path>, s: Store, listing: seq<Path>)
    requires Sound(s) && forall path | Visited(listing, locked, path) :: path in s.files
    ensures RecoverAll(false, locked, s, listing).ok
    ensures Sound(RecoverAll(false, locked, s, listing).store)
    ensures RecoverAll(false, locked, s, listing).store.files.Keys == s.files.Keys
    ensures forall path | path in s.files ::
              Recovered(s, RecoverAll(false, locked, s, listing).store, path, Visited(listing, locked, path))
    decreases |listing|
  {
    if listing != [] {
      var front, last := listing[..|listing| - 1], listing[|listing| - 1];
      VisitedFront(listing, locked, s.files);
      RecoveryStandings(locked, s, front);
      var t := RecoverAll(false, locked, s, front).store;
      if last !in locked {
        RecoverOne(t, last);
      }
      forall path | path in s.files
        ensures Recovered(s, RecoverAll(false, locked, s, listing).store, path, Visited(listing, locked, path))
      {
        VisitedOneMore(listing, locked, path);
        assert Recovered(s, t, path, Visited(front, locked, path));
      }
    }
  }

  /** A file another writer holds must be projected already; of the others, the sealed ones must have
      their frames indexed. */
  ghost predicate Recoverable(s: Store, locked: set<Path>, path: Path)
    requires path in s.files
  {
    if path in locked then Projected(s, path)
    else s.files[path].manifest.Some? ==> Indexed(s.files[path].frames, s.index.events, path)
  }

  /** Recovery over any listing of the files and any set of locked ones completes if and only if every
      listed file that is not locked can be used. It then turns a sound store into a faithful one if and
      only if no sealed file has an unindexed frame and no locked file is unprojected. */
  lemma RecoveryCompletesIff(locked: set<Path>, s: Store, listing: seq<Path>)
    requires Sound(s) && forall path | path in s.files :: path in listing
    ensures RecoverAll(false, locked, s, listing).ok <==>
              forall path | Visited(listing, locked, path) :: path in s.files
    ensures RecoverAll(false, locked, s, listing).ok ==>
              (Faithful(RecoverAll(false, locked, s, listing).store)
               <==> forall path | path in s.files :: Recoverable(s, locked, path))
  {
    if forall path | Visited(listing, locked, path) :: path in s.files {
      RecoveryStandings(locked, s, listing);
      var t := RecoverAll(false, locked, s, listing).store;
      forall path | path in s.files
        ensures Projected(t, path) <==> Recoverable(s, locked, path)
      {
        assert Recovered(s, t, path, Visited(listing, locked, path));
      }
    } else {
      var k := UsablePrefix(locked, s, listing);
      var path :| Visited(listing, locked, path) && path !in s.files;
      var i :| 0 <= i < |listing| && listing[i] == path;
    }
  }

  /** Recovery of any listing stops at its first unusable file that is not locked, and has then done what
      it would do on the files before that one. */
  lemma {:induction false} UsablePrefix(locked: set<Path>, s: Store, listing: seq<Path>) returns (k: nat)
    ensures k <= |listing|
    ensures forall path | Visited(listing[..k], locked, path) :: path in s.files
    ensures forall i | 0 <= i < k :: listing[i] in locked || listing[i] in s.files
    ensures k < |listing| ==> listing[k] !in locked && listing[k] !in s.files
    ensures RecoverAll(false, locked, s, listing)
         == Outcome(RecoverAll(false, locked, s, listing[..k]).store, k == |listing|)
    decreases |listing|
  {
    if listing == [] {
      k := 0;
    } else {
      var front, last := listing[..|listing| - 1], listing[|listing| - 1];
      k := UsablePrefix(locked, s, front);
      assert front[..k] == listing[..k];
      if k == |front| {
        assert listing[..k] == front;
        RecoveryKeepsFiles(locked, s, front);
        if last in locked || last in s.files {
          k := k + 1;
          assert listing[..k] == listing;
          forall path | Visited(listing, locked, path)
            ensures path in s.files
          {
            VisitedOneMore(listing, locked, path);
          }
        }
      }
    }
  }

  lemma {:induction false} RecoveryKeepsFiles(locked: set<Path>, s: Store, listing: seq<Path>)
    ensures RecoverAll(false, locked, s, listing).store.files.Keys == s.files.Keys
    decreases |listing|
  {
    if listing != [] {
      RecoveryKeepsFiles(locked, s, listing[..|listing| - 1]);
    }
  }

  /** No recovery drops an event, changes an identity field or erases enrichment. */
  lemma {:induction false} RecoveryKeepsEvents(locked: set<Path>, s: Store, listing: seq<Path>)
    ensures var t := RecoverAll(false, locked, s, listing).store;
            forall id | id in s.index.events ::
              && id in t.index.events
              && t.index.events[id].identity == s.index.events[id].identity
              && t.index.events[id].enrichment == s.index.events[id].enrichment
    decreases |listing|
  {
    if listing != [] {
      var front, last := listing[..|listing| - 1], listing[|listing| - 1];
      RecoveryKeepsEvents(locked, s, front);
      var t := RecoverAll(false, locked, s, front).store;
      if last in t.files {
        ReconcileKeeps(t.index.events, t.files[last].frames, last);
      }
    }
  }

  /** The event with this id is a copy of this frame, in every column, at the file's path. */
  ghost predicate CopyOf(files: Files, path: Path, k: nat, id: Id, event: Record) {
    At(files, path, k, id) && event == files[path].frames[k].(path := path)
  }

  ghost predicate AddedAs(s: Store, id: Id, event: Record) {
    exists path, k: nat :: CopyOf(s.files, path, k, id, event)
  }

  /** Every event that is in `t` and not in `s` is a copy of one of the frames. */
  ghost predicate Added(s: Store, t: Store) {
    forall id | id in t.index.events && id !in s.index.events :: AddedAs(s, id, t.index.events[id])
  }

  lemma ReplayAdds(s: Store, t: Store, path: Path, id: Id)
    requires UniqueIds(s.files) && SameFrames(s.files, t.files) && Added(s, t) && path in s.files
    requires id in ReconcileAll(t.index.events, t.files[path].frames, path) && id !in s.index.events
    ensures AddedAs(s, id, ReconcileAll(t.index.events, t.files[path].frames, path)[id])
  {
    var frames := t.files[path].frames;
    var after := ReconcileAll(t.index.events, frames, path);
    if id in t.index.events {
      assert AddedAs(s, id, t.index.events[id]);
      var p, k: nat :| CopyOf(s.files, p, k, id, t.index.events[id]);
      KnownStays(s, t, path, id, p, k);
    } else {
      ReconcileAdds(t.index.events, frames, path, id);
      assert CopyOf(s.files, path, FirstWith(frames, id), id, after[id]);
    }
  }

  lemma RecoverPathAdds(s: Store, t: Store, path: Path)
    requires UniqueIds(s.files) && SameFrames(s.files, t.files) && Added(s, t) && path in s.files
    ensures Added(s, RecoverPath(false, t, path).store)
  {
    if t.files[path].manifest.None? {
      var u := RecoverPath(false, t, path).store;
      forall id | id in u.index.events && id !in s.index.events
        ensures AddedAs(s, id, u.index.events[id])
      {
        ReplayAdds(s, t, path, id);
      }
    }
  }

  /** An event copied from a frame is not changed by replaying any file of unique ids. */
  lemma KnownStays(s: Store, t: Store, path: Path, id: Id, p: Path, k: nat)
    requires UniqueIds(s.files) && SameFrames(s.files, t.files) && path in s.files
    requires id in t.index.events && CopyOf(s.files, p, k, id, t.index.events[id])
    ensures id in ReconcileAll(t.index.events, t.files[path].frames, path)
    ensures ReconcileAll(t.index.events, t.files[path].frames, path)[id] == t.index.events[id]
  {
    var frames, events := t.files[path].frames, t.index.events;
    ReconcileKeeps(events, frames, path);
    if Mentions(frames, id) {
      var j :| 0 <= j < |frames| && frames[j].id == id;
      assert At(s.files, path, j, id) && At(s.files, p, k, id);
      ReconcilePlaces(events, frames, path, id);
    }
  }

  lemma RecoverySameFrames(locked: set<Path>, s: Store, listing: seq<Path>)
    requires Sound(s) && forall path | Visited(listing, locked, path) :: path in s.files
    ensures SameFrames(s.files, RecoverAll(false, locked, s, listing).store.files)
  {
    RecoveryStandings(locked, s, listing);
    var t := RecoverAll(false, locked, s, listing).store;
    forall path | path in s.files
      ensures s.files[path].frames == t.files[path].frames
    {
      assert Recovered(s, t, path, Visited(listing, locked, path));
    }
  }

  /** What recovery writes into the row of a segment with a manifest. Without a rebuild the manifest is believed,
      except that a manifest without body bytes leaves those of the row; a rebuild counts the bodies themselves.
      A manifest of no records writes no row. */
  lemma RecoveredRow(rebuild: bool, s: Store, path: Path)
    requires path in s.files && s.files[path].manifest.Some? && RecoverPath(rebuild, s, path).ok
    ensures var manifest, t := s.files[path].manifest.value, RecoverPath(rebuild, s, path).store;
            var bodies := if rebuild then BodyBytes(s.files[path].frames) else manifest.bodyBytes;
            && t.files == s.files
            && (!rebuild ==> t.index.events == s.index.events)
            && (manifest.records == 0 ==> t.index.segments == s.index.segments)
            && (manifest.records > 0 ==>
                  && t.index.segments.Keys == s.index.segments.Keys + {path}
                  && t.index.segments[path].records == manifest.records
                  && (bodies > 0 ==> t.index.segments[path].bodyBytes == bodies)
                  && (bodies == 0 && path in s.index.segments ==>
                        t.index.segments[path].bodyBytes == s.index.segments[path].bodyBytes))
  {
    var file := s.files[path];
    assert file.(manifest := Some(file.manifest.value)) == file;
  }

  /** Everything recovery adds to the index is a frame, in every column. */
  lemma {:induction false} RecoveryAddsFrames(locked: set<Path>, s: Store, listing: seq<Path>)
    requires Sound(s) && forall path | Visited(listing, locked, path) :: path in s.files
    ensures Added(s, RecoverAll(false, locked, s, listing).store)
    decreases |listing|
  {
    if listing != [] {
      var front, last := listing[..|listing| - 1], listing[|listing| - 1];
      VisitedFront(listing, locked, s.files);
      RecoveryAddsFrames(locked, s, front);
      var t := RecoverAll(false, locked, s, front).store;
      RecoverySameFrames(locked, s, front);
      if last !in locked {
        RecoverPathAdds(s, t, last);
      }
    }
  }

  /** Replaying a file leaves an event where it was or at the file. */
  lemma {:induction false} ReconcilePlaces(events: Events, frames: seq<Record>, path: Path, id: Id)
    requires id in events
    ensures id in ReconcileAll(events, frames, path)
    ensures ReconcileAll(events, frames, path)[id] in {events[id], events[id].(path := path)}
    decreases |frames|
  {
    if frames != [] {
      ReconcilePlaces(events, frames[..|frames| - 1], path, id);
    }
  }

  // ---------------------------------------------------------------- recovering twice

  /** A sealed file whose row a further upsert would not change. */
  ghost predicate Settled(s: Store, path: Path) {
    && path in s.files && s.files[path].manifest.Some?
    && UpsertRow(s.index.segments, path, s.files[path].manifest.value, None) == s.index.segments
  }

  lemma RecoverSettles(s: Store, path: Path)
    requires path in s.files
    ensures Settled(RecoverPath(false, s, path).store, path)
  {
  }

  lemma RecoverKeepsSettled(s: Store, path: Path, other: Path)
    requires path in s.files && Settled(s, other)
    ensures Settled(RecoverPath(false, s, path).store, other)
  {
  }

  lemma {:induction false} RecoverySettles(locked: set<Path>, s: Store, listing: seq<Path>)
    requires forall path | Visited(listing, locked, path) :: path in s.files
    ensures RecoverAll(false, locked, s, listing).ok
    ensures RecoverAll(false, locked, s, listing).store.files.Keys == s.files.Keys
    ensures forall path | Visited(listing, locked, path) :: Settled(RecoverAll(false, locked, s, listing).store, path)
    decreases |listing|
  {
    if listing != [] {
      var front, last := listing[..|listing| - 1], listing[|listing| - 1];
      VisitedFront(listing, locked, s.files);
      RecoverySettles(locked, s, front);
      var t := RecoverAll(false, locked, s, front).store;
      forall path | Visited(listing, locked, path)
        ensures Settled(RecoverAll(false, locked, s, listing).store, path)
      {
        VisitedOneMore(listing, locked, path);
        if last !in locked {
          RecoverSettles(t, last);
          if path != last {
            RecoverKeepsSettled(t, last, path);
          }
        }
      }
    }
  }

  lemma {:induction false} SettledRecoveryIsNoOp(locked: set<Path>, s: Store, listing: seq<Path>)
    requires forall path | Visited(listing, locked, path) :: Settled(s, path)
    ensures RecoverAll(false, locked, s, listing) == Outcome(s, true)
    decreases |listing|
  {
    if listing != [] {
      var front, last := listing[..|listing| - 1], listing[|listing| - 1];
      forall path | Visited(front, locked, path)
        ensures Settled(s, path)
      {
        VisitedOneMore(listing, locked, path);
      }
      SettledRecoveryIsNoOp(locked, s, front);
      if last !in locked {
        VisitedOneMore(listing, locked, last);
      }
    }
  }

  /** Running recovery a second time changes neither a file nor a row, whatever state it started from and
      however it ended; it ends the same way again. */
  lemma RecoveryIdempotent(locked: set<Path>, s: Store, listing: seq<Path>)
    ensures var first := RecoverAll(false, locked, s, listing);
            RecoverAll(false, locked, first.store, listing) == first
  {
    var k := UsablePrefix(locked, s, listing);
    var front := listing[..k];
    RecoverySettles(locked, s, front);
    var t := RecoverAll(false, locked, s, front).store;
    SettledRecoveryIsNoOp(locked, t, front);
    if k == |listing| {
      assert front == listing;
    } else {
      assert listing[..k + 1][..k] == front;
      RecoveryStopped(false, locked, t, listing, k + 1);
    }
  }

  // ---------------------------------------------------------------- rebuilding

  function Unsealed(files: Files): Files {
    map path | path in files :: File(files[path].frames, None)
  }

  ghost predicate NoRepeats(listing: seq<Path>) {
    forall i, j | 0 <= i < j < |listing| :: listing[i] != listing[j]
  }

  ghost predicate MentionedIn(files: Files, path: Path, id: Id) {
    path in files && Mentions(files[path].frames, id)
  }

  /** Every event id occurs once among the listed files. */
  ghost predicate UniqueAmong(files: Files, listing: seq<Path>) {
    && (forall path | path in listing && path in files :: Distinct(files[path].frames))
    && (forall path, path', id |
          path in listing && path' in listing && MentionedIn(files, path, id) && MentionedIn(files, path', id) ::
          path == path')
  }

  lemma UniqueAmongOneMore(files: Files, front: seq<Path>, last: Path)
    requires last in files && last !in front
    ensures UniqueAmong(files, front + [last]) <==>
              && UniqueAmong(files, front)
              && Distinct(files[last].frames)
              && forall path, id | path in front && MentionedIn(files, path, id) :: !MentionedIn(files, last, id)
  {
  }

  /** The events are those of the listed files. */
  ghost predicate EventsOf(files: Files, listing: seq<Path>, events: Events) {
    && (forall path, id | path in listing && MentionedIn(files, path, id) :: id in events)
    && (forall id | id in events :: exists path :: path in listing && MentionedIn(files, path, id))
  }

  lemma NewToListed(files: Files, front: seq<Path>, last: Path, events: Events)
    requires last in files && EventsOf(files, front, events)
    ensures AllNew(files[last].frames, events) <==>
              forall path, id | path in front && MentionedIn(files, path, id) :: !MentionedIn(files, last, id)
  {
  }

  lemma EventsOfOneMore(files: Files, front: seq<Path>, last: Path, events: Events)
    requires last in files && EventsOf(files, front, events)
    ensures EventsOf(files, front + [last], ReconcileAll(events, files[last].frames, last))
  {
    var frames := files[last].frames;
    ReconciledIds(events, frames, last);
    forall id | id in ReconcileAll(events, frames, last)
      ensures exists path :: path in front + [last] && MentionedIn(files, path, id)
    {
      if id in events {
        var path :| path in front && MentionedIn(files, path, id);
        assert path in front + [last];
      } else {
        assert MentionedIn(files, last, id) && last in front + [last];
      }
    }
  }

  /** A rebuild so far, beside a reconciliation of the same files with their manifests taken away. */
  ghost predicate Mirrors(files: Files, listing: seq<Path>, r: Store, u: Store) {
    && r.index == u.index
    && SameFrames(files, r.files) && SameFrames(files, u.files)
    && ManifestsCount(r.files)
    && EventsOf(files, listing, r.index.events)
    && (forall path | path in files && path !in listing ::
          u.files[path].manifest == None && r.files[path] == files[path])
  }

  lemma MirrorStep(files: Files, front: seq<Path>, last: Path, r: Store, u: Store)
    requires Mirrors(files, front, r, u) && ManifestsCount(files) && last in files && last !in front
    ensures RecoverPath(true, r, last).ok <==>
              && Distinct(files[last].frames)
              && forall path, id | path in front && MentionedIn(files, path, id) :: !MentionedIn(files, last, id)
    ensures RecoverPath(true, r, last).ok ==>
              && RecoverPath(false, u, last).ok
              && Mirrors(files, front + [last], RecoverPath(true, r, last).store, RecoverPath(false, u, last).store)
  {
    NewToListed(files, front, last, r.index.events);
    InsertIsReconcile(r.index.events, files[last].frames, last);
    EventsOfOneMore(files, front, last, r.index.events);
  }

  /** Rebuilding an empty index over a listing succeeds exactly when no event id repeats, and then
      builds what reconciling the same files would build if none of them were sealed. */
  lemma {:induction false} RebuildMirrors(files: Files, listing: seq<Path>)
    requires NoRepeats(listing) && ManifestsCount(files) && forall path | path in listing :: path in files
    ensures RecoverAll(true, {}, Store(files, EmptyIndex), listing).ok <==> UniqueAmong(files, listing)
    ensures RecoverAll(true, {}, Store(files, EmptyIndex), listing).ok ==>
              && RecoverAll(false, {}, Store(Unsealed(files), EmptyIndex), listing).ok
              && Mirrors(files, listing, RecoverAll(true, {}, Store(files, EmptyIndex), listing).store,
                         RecoverAll(false, {}, Store(Unsealed(files), EmptyIndex), listing).store)
    decreases |listing|
  {
    if listing != [] {
      var front, last := listing[..|listing| - 1], listing[|listing| - 1];
      assert listing == front + [last];
      RebuildMirrors(files, front);
      UniqueAmongOneMore(files, front, last);
      var r := RecoverAll(true, {}, Store(files, EmptyIndex), front);
      if r.ok {
        MirrorStep(files, front, last, r.store, RecoverAll(false, {}, Store(Unsealed(files), EmptyIndex), front).store);
      }
    }
  }

  lemma UniqueEverywhere(files: Files, listing: seq<Path>)
    requires forall path :: path in listing <==> path in files
    ensures UniqueAmong(files, listing) <==> UniqueIds(files)
  {
    if UniqueAmong(files, listing) {
      forall path, k: nat, path', k': nat, id | At(files, path, k, id) && At(files, path', k', id)
        ensures path == path' && k == k'
      {
        assert MentionedIn(files, path, id) && MentionedIn(files, path', id);
      }
    }
    if UniqueIds(files) {
      forall path | path in files
        ensures Distinct(files[path].frames)
      {
        FileIdsDistinct(files, path);
      }
      forall path, path', id | MentionedIn(files, path, id) && MentionedIn(files, path', id)
        ensures path == path'
      {
        var k :| 0 <= k < |files[path].frames| && files[path].frames[k].id == id;
        var k' :| 0 <= k' < |files[path'].frames| && files[path'].frames[k'].id == id;
        assert At(files, path, k, id) && At(files, path', k', id);
      }
    }
  }

  /** Rebuilding from all the files succeeds exactly when every event id is unique in the log, and
      then gives a faithful index of the same frames. */
  lemma RebuildIsFaithful(files: Files, listing: seq<Path>)
    requires NoRepeats(listing) && ManifestsCount(files) && forall path :: path in listing <==> path in files
    ensures var r := RecoverAll(true, {}, Store(files, EmptyIndex), listing);
            && (r.ok <==> UniqueIds(files))
            && (r.ok ==> Faithful(r.store) && SameFrames(files, r.store.files))
  {
    RebuildMirrors(files, listing);
    UniqueEverywhere(files, listing);
    var r := RecoverAll(true, {}, Store(files, EmptyIndex), listing);
    if r.ok {
      var s := Store(Unsealed(files), EmptyIndex);
      assert SameFrames(files, s.files);
      SameFramesSound(Store(files, EmptyIndex), s);
      RecoveryCompletesIff({}, s, listing);
      var u := RecoverAll(false, {}, s, listing).store;
      SameFramesSound(u, r.store);
      forall path
        ensures Projected(r.store, path)
      {
        assert Projected(u, path);
      }
    }
  }

  /** Every frame is indexed as it stands in its file, in every column. */
  ghost predicate Verbatim(s: Store) {
    forall path, k: nat, id | At(s.files, path, k, id) ::
      id in s.index.events && s.index.events[id] == s.files[path].frames[k].(path := path)
  }

  /** A rebuilt index holds every frame in every column. */
  lemma RebuildIsVerbatim(files: Files, listing: seq<Path>)
    requires NoRepeats(listing) && ManifestsCount(files) && UniqueIds(files)
    requires forall path :: path in listing <==> path in files
    ensures Verbatim(RecoverAll(true, {}, Store(files, EmptyIndex), listing).store)
  {
    RebuildMirrors(files, listing);
    UniqueEverywhere(files, listing);
    RebuildIsFaithful(files, listing);
    var r := RecoverAll(true, {}, Store(files, EmptyIndex), listing).store;
    var s := Store(Unsealed(files), EmptyIndex);
    assert SameFrames(files, s.files);
    SameFramesSound(Store(files, EmptyIndex), s);
    RecoveryAddsFrames({}, s, listing);
    forall path, k: nat, id | At(r.files, path, k, id)
      ensures id in r.index.events && r.index.events[id] == r.files[path].frames[k].(path := path)
    {
      assert Projected(r, path);
      assert AddedAs(s, id, r.index.events[id]);
      var p, j: nat :| CopyOf(s.files, p, j, id, r.index.events[id]);
      assert At(s.files, path, k, id);
    }
  }

  // ---------------------------------------------------------------- capturing

  datatype Step =
    | Open(path: Path)
    | Capture(record: Record, finalSize: nat)
    | Enrich(id: Id, enrichment: Enrichment)
    | Seal(path: Path)
    | Move(src: Path, dest: Path)

  /** `upsert_segment_projection_on` for one record. */
  function CountOne(rows: Rows, path: Path, bytes: nat): Rows {
    var row := if path in rows then rows[path] else SegmentRow(0, 0);
    rows[path := SegmentRow(row.records + 1, row.bodyBytes + bytes)]
  }

  function MovedEvents(events: Events, src: Path, dest: Path): Events {
    map id | id in events :: if events[id].path == src then events[id].(path := dest) else events[id]
  }

  function MovedRows(rows: Rows, src: Path, dest: Path): Rows {
    if src in rows then (rows - {src})[dest := rows[src]] else rows
  }

  /** A record with another compressed size. */
  function Sized(r: Record, size: nat): Record { r.(enrichment := r.enrichment.(compressedBytes := size)) }

  /** A capture appends to an unsealed segment under a new event id, then commits its event and its count
      together; the record committed may say another compressed size than the one in the frame. A drain moves a
      sealed file and its rows to an unused path. A step whose conditions do not hold changes nothing. */
  function Next(s: Store, step: Step): Store {
    match step
    case Open(path) => if path in s.files then s else s.(files := s.files[path := File([], None)])
    case Capture(r, size) =>
      if r.path !in s.files || s.files[r.path].manifest.Some? || r.id in s.index.events then s
      else Store(s.files[r.path := File(s.files[r.path].frames + [r], None)],
                 Index(s.index.events[r.id := Sized(r, size)],
                       CountOne(s.index.segments, r.path, r.identity.bodyBytes)))
    case Enrich(id, enrichment) =>
      if id !in s.index.events then s
      else s.(index := s.index.(events := s.index.events[id := s.index.events[id].(enrichment := enrichment)]))
    case Seal(path) =>
      if path !in s.files then s
      else s.(files := s.files[path := s.files[path].(manifest := Some(RowOf(s.files[path].frames)))])
    case Move(src, dest) =>
      if src !in s.files || dest in s.files || s.files[src].manifest.None? then s
      else Store((s.files - {src})[dest := s.files[src]],
                 Index(MovedEvents(s.index.events, src, dest), MovedRows(s.index.segments, src, dest)))
  }

  function Run(steps: seq<Step>): Store {
    if steps == [] then Store(map[], EmptyIndex) else Next(Run(steps[..|steps| - 1]), steps[|steps| - 1])
  }

  lemma OpenKeeps(s: Store, path: Path)
    requires Faithful(s)
    ensures Faithful(Next(s, Open(path)))
  {
    var t := Next(s, Open(path));
    forall p, k: nat, id
      ensures At(t.files, p, k, id) <==> At(s.files, p, k, id)
    {
    }
    forall id | id in s.index.events
      ensures exists p, k: nat :: FrameOf(t.files, p, k, id, s.index.events[id].identity)
    {
      var p, k: nat :| FrameOf(s.files, p, k, id, s.index.events[id].identity);
      assert FrameOf(t.files, p, k, id, s.index.events[id].identity);
    }
    forall p
      ensures Projected(t, p)
    {
      assert Projected(s, p);
    }
  }

  lemma SealKeeps(s: Store, path: Path)
    requires Faithful(s)
    ensures Faithful(Next(s, Seal(path)))
  {
    var t := Next(s, Seal(path));
    SameFramesSound(s, t);
    forall p
      ensures Projected(t, p)
    {
      assert Projected(s, p);
    }
  }

  lemma EnrichKeeps(s: Store, id: Id, enrichment: Enrichment)
    requires Faithful(s)
    ensures Faithful(Next(s, Enrich(id, enrichment)))
  {
    var t := Next(s, Enrich(id, enrichment));
    forall p
      ensures Projected(t, p)
    {
      assert Projected(s, p);
    }
    forall e | e in t.index.events
      ensures exists p, k: nat :: FrameOf(t.files, p, k, e, t.index.events[e].identity)
    {
      var p, k: nat :| FrameOf(s.files, p, k, e, s.index.events[e].identity);
      assert FrameOf(t.files, p, k, e, t.index.events[e].identity);
    }
  }

  ghost predicate Absent(files: Files, id: Id) {
    forall path, k: nat :: !At(files, path, k, id)
  }

  lemma UnindexedIsAbsent(s: Store, id: Id)
    requires Faithful(s) && id !in s.index.events
    ensures Absent(s.files, id)
  {
    forall path, k: nat
      ensures !At(s.files, path, k, id)
    {
      assert Projected(s, path);
    }
  }

  lemma AppendKeepsUnique(files: Files, r: Record)
    requires UniqueIds(files) && r.path in files && Absent(files, r.id)
    ensures UniqueIds(files[r.path := File(files[r.path].frames + [r], None)])
  {
    var front := files[r.path].frames;
    var after := files[r.path := File(front + [r], None)];
    forall path, k: nat, id | At(after, path, k, id)
      ensures At(files, path, k, id) || (path == r.path && k == |front| && id == r.id)
    {
    }
  }

  lemma BodyBytesOneMore(front: seq<Record>, r: Record)
    ensures BodyBytes(front + [r]) == BodyBytes(front) + r.identity.bodyBytes
  {
  }

  lemma CaptureIndexes(events: Events, frames: seq<Record>, path: Path, r: Record, size: nat)
    requires Indexed(frames, events, path) && r.id !in events
    ensures Indexed(frames, events[r.id := Sized(r, size)], path)
    ensures path == r.path ==> Indexed(frames + [r], events[r.id := Sized(r, size)], path)
  {
  }

  lemma CaptureCounts(rows: Rows, frames: seq<Record>, path: Path, r: Record)
    requires Counted(frames, rows, path) && (frames == [] ==> path !in rows)
    ensures path != r.path ==> Counted(frames, CountOne(rows, r.path, r.identity.bodyBytes), path)
    ensures path == r.path ==> Counted(frames + [r], CountOne(rows, r.path, r.identity.bodyBytes), path)
  {
    BodyBytesOneMore(frames, r);
  }

  lemma CaptureProjects(s: Store, r: Record, size: nat, path: Path)
    requires Faithful(s) && r.path in s.files && s.files[r.path].manifest.None? && r.id !in s.index.events
    ensures Projected(Next(s, Capture(r, size)), path)
  {
    assert Projected(s, path);
    if path in s.files {
      CaptureIndexes(s.index.events, s.files[path].frames, path, r, size);
      CaptureCounts(s.index.segments, s.files[path].frames, path, r);
    }
  }

  lemma CaptureKeeps(s: Store, r: Record, size: nat)
    requires Faithful(s)
    ensures Faithful(Next(s, Capture(r, size)))
  {
    if r.path in s.files && s.files[r.path].manifest.None? && r.id !in s.index.events {
      UnindexedIsAbsent(s, r.id);
      AppendKeepsUnique(s.files, r);
      CaptureBacked(s.files, s.index.events, r, size);
      forall path
        ensures Projected(Next(s, Capture(r, size)), path)
      {
        CaptureProjects(s, r, size, path);
      }
      CaptureRows(s, r, size);
    }
  }

  lemma CaptureRows(s: Store, r: Record, size: nat)
    requires Faithful(s) && r.path in s.files && s.files[r.path].manifest.None? && r.id !in s.index.events
    ensures RowsBelow(Next(s, Capture(r, size)).files, Next(s, Capture(r, size)).index.segments)
  {
    BodyBytesOneMore(s.files[r.path].frames, r);
    assert Projected(s, r.path);
  }

  lemma AppendKeepsBacked(files: Files, events: Events, r: Record)
    requires Backed(files, events) && r.path in files
    ensures Backed(files[r.path := File(files[r.path].frames + [r], None)], events)
  {
    var after := files[r.path := File(files[r.path].frames + [r], None)];
    forall id | id in events
      ensures exists p, k: nat :: FrameOf(after, p, k, id, events[id].identity)
    {
      var p, k: nat :| FrameOf(files, p, k, id, events[id].identity);
      assert FrameOf(after, p, k, id, events[id].identity);
    }
  }

  lemma CaptureBacked(files: Files, events: Events, r: Record, size: nat)
    requires Backed(files, events) && r.path in files
    ensures Backed(files[r.path := File(files[r.path].frames + [r], None)], events[r.id := Sized(r, size)])
  {
    AppendKeepsBacked(files, events, r);
    var after := files[r.path := File(files[r.path].frames + [r], None)];
    assert FrameOf(after, r.path, |files[r.path].frames|, r.id, r.identity);
  }

  lemma MoveBacked(s: Store, src: Path, dest: Path)
    requires Backed(s.files, s.index.events)
    ensures Backed(Next(s, Move(src, dest)).files, Next(s, Move(src, dest)).index.events)
  {
    var t := Next(s, Move(src, dest));
    forall id | id in t.index.events
      ensures exists p, k: nat :: FrameOf(t.files, p, k, id, t.index.events[id].identity)
    {
      var p, k: nat :| FrameOf(s.files, p, k, id, s.index.events[id].identity);
      assert FrameOf(t.files, p, k, id, t.index.events[id].identity)
          || FrameOf(t.files, dest, k, id, t.index.events[id].identity);
    }
  }

  lemma MoveKeepsUnique(files: Files, src: Path, dest: Path)
    requires UniqueIds(files) && src in files && dest !in files
    ensures UniqueIds((files - {src})[dest := files[src]])
  {
    var moved := (files - {src})[dest := files[src]];
    forall p, k: nat, id | At(moved, p, k, id)
      ensures At(files, if p == dest then src else p, k, id)
    {
    }
  }

  /** The moved file is projected at its new path and the others where they were. */
  lemma MoveProjects(s: Store, src: Path, dest: Path, path: Path)
    requires Faithful(s) && src in s.files && dest !in s.files && s.files[src].manifest.Some?
    ensures Projected(Next(s, Move(src, dest)), path)
  {
    var t := Next(s, Move(src, dest));
    if path in t.files {
      var origin := if path == dest then src else path;
      assert Projected(s, origin);
      var frames := s.files[origin].frames;
      assert Indexed(frames, s.index.events, origin) && Counted(frames, s.index.segments, origin);
      assert Indexed(frames, t.index.events, path);
      assert Counted(frames, t.index.segments, path);
    }
  }

  lemma MoveKeeps(s: Store, src: Path, dest: Path)
    requires Faithful(s)
    ensures Faithful(Next(s, Move(src, dest)))
  {
    if src in s.files && dest !in s.files && s.files[src].manifest.Some? {
      MoveKeepsUnique(s.files, src, dest);
      MoveBacked(s, src, dest);
      forall path
        ensures Projected(Next(s, Move(src, dest)), path)
      {
        MoveProjects(s, src, dest, path);
      }
    }
  }

  /** Over every run of captures, enrichments, seals and drains the index stays a faithful projection. */
  lemma {:induction false} RunKeepsFaithful(steps: seq<Step>)
    ensures Faithful(Run(steps))
    decreases |steps|
  {
    if steps != [] {
      RunKeepsFaithful(steps[..|steps| - 1]);
      var s := Run(steps[..|steps| - 1]);
      match steps[|steps| - 1] {
        case Open(path) => OpenKeeps(s, path);
        case Capture(r, size) => CaptureKeeps(s, r, size);
        case Enrich(id, enrichment) => EnrichKeeps(s, id, enrichment);
        case Seal(path) => SealKeeps(s, path);
        case Move(src, dest) => MoveKeeps(s, src, dest);
      }
    }
  }

  /** After every such run, throwing the index away and rebuilding it from the files succeeds and
      gives the same events on all identity fields, at the same places, and the same segment counts. */
  lemma RebuildMatchesIncremental(steps: seq<Step>, listing: seq<Path>)
    requires NoRepeats(listing) && forall path :: path in listing <==> path in Run(steps).files
    ensures var s := Run(steps);
            var r := RecoverAll(true, {}, Store(s.files, EmptyIndex), listing);
            && r.ok
            && r.store.index.events.Keys == s.index.events.Keys
            && (forall id | id in s.index.events ::
                  && r.store.index.events[id].identity == s.index.events[id].identity
                  && r.store.index.events[id].path == s.index.events[id].path)
            && r.store.index.segments == s.index.segments
  {
    var s := Run(steps);
    RunKeepsFaithful(steps);
    RebuildIsFaithful(s.files, listing);
    var r := RecoverAll(true, {}, Store(s.files, EmptyIndex), listing);
    FaithfulIsUnique(s.files, r.store.files, s.index, r.store.index);
  }

  /** The event has every column of the frame at the path, but for the compressed size unless `exact`. */
  predicate Copies(event: Record, frame: Record, path: Path, exact: bool) {
    event == if exact then frame.(path := path) else Sized(frame.(path := path), event.enrichment.compressedBytes)
  }

  ghost predicate AllCopied(files: Files, events: Events, exact: bool) {
    forall path, k: nat, id | At(files, path, k, id) ::
      id in events && Copies(events[id], files[path].frames[k], path, exact)
  }

  /** Nothing is learned after the capture, and with `exact` every encoder settles on the size in its frame. */
  predicate Plain(step: Step, exact: bool) {
    && !step.Enrich?
    && (exact && step.Capture? ==> step.finalSize == step.record.enrichment.compressedBytes)
  }

  lemma CaptureCopies(s: Store, r: Record, size: nat, exact: bool)
    requires Faithful(s) && AllCopied(s.files, s.index.events, exact)
    requires exact ==> size == r.enrichment.compressedBytes
    ensures AllCopied(Next(s, Capture(r, size)).files, Next(s, Capture(r, size)).index.events, exact)
  {
    var t := Next(s, Capture(r, size));
    if r.path in s.files && s.files[r.path].manifest.None? && r.id !in s.index.events {
      UnindexedIsAbsent(s, r.id);
      forall path, k: nat, id | At(t.files, path, k, id)
        ensures id in t.index.events && Copies(t.index.events[id], t.files[path].frames[k], path, exact)
      {
        if !(path == r.path && k == |s.files[r.path].frames|) {
          assert At(s.files, path, k, id);
        }
      }
    }
  }

  lemma MoveCopies(s: Store, src: Path, dest: Path, exact: bool)
    requires Faithful(s) && AllCopied(s.files, s.index.events, exact)
    ensures AllCopied(Next(s, Move(src, dest)).files, Next(s, Move(src, dest)).index.events, exact)
  {
    var t := Next(s, Move(src, dest));
    if src in s.files && dest !in s.files && s.files[src].manifest.Some? {
      forall path, k: nat, id | At(t.files, path, k, id)
        ensures id in t.index.events && Copies(t.index.events[id], t.files[path].frames[k], path, exact)
      {
        assert At(s.files, if path == dest then src else path, k, id);
      }
    }
  }

  lemma PlainStepCopies(s: Store, step: Step, exact: bool)
    requires Faithful(s) && AllCopied(s.files, s.index.events, exact) && Plain(step, exact)
    ensures AllCopied(Next(s, step).files, Next(s, step).index.events, exact)
  {
    var t := Next(s, step);
    match step {
      case Capture(r, size) => CaptureCopies(s, r, size, exact);
      case Move(src, dest) => MoveCopies(s, src, dest, exact);
      case Open(_) => assert forall path, k: nat, id | At(t.files, path, k, id) :: At(s.files, path, k, id);
      case Seal(_) => assert forall path, k: nat, id | At(t.files, path, k, id) :: At(s.files, path, k, id);
    }
  }

  lemma {:induction false} PlainRunCopies(steps: seq<Step>, exact: bool)
    requires forall step | step in steps :: Plain(step, exact)
    ensures AllCopied(Run(steps).files, Run(steps).index.events, exact)
    decreases |steps|
  {
    if steps != [] {
      var before := steps[..|steps| - 1];
      assert steps[|steps| - 1] in steps && forall step | step in before :: step in steps;
      PlainRunCopies(before, exact);
      RunKeepsFaithful(before);
      PlainStepCopies(Run(before), steps[|steps| - 1], exact);
    }
  }

  lemma CopiesAgree(s: Store, r: Store, id: Id, exact: bool)
    requires AllCopied(s.files, s.index.events, exact) && Verbatim(r) && SameFrames(s.files, r.files)
    requires id in s.index.events && Backed(s.files, s.index.events)
    ensures id in r.index.events && Sized(s.index.events[id], 0) == Sized(r.index.events[id], 0)
    ensures exact ==> s.index.events[id] == r.index.events[id]
  {
    var path, k: nat :| FrameOf(s.files, path, k, id, s.index.events[id].identity);
    assert At(s.files, path, k, id) && At(r.files, path, k, id);
    assert Copies(s.index.events[id], s.files[path].frames[k], path, exact);
  }

  /** After every run in which nothing is learned later, a rebuild gives the incremental index in every
      column of every event, but for compressed sizes an encoder did not settle on; when all settle, it
      gives exactly the incremental index. */
  lemma RebuildMatchesEveryColumn(steps: seq<Step>, listing: seq<Path>, exact: bool)
    requires forall step | step in steps :: Plain(step, exact)
    requires NoRepeats(listing) && forall path :: path in listing <==> path in Run(steps).files
    ensures var s := Run(steps);
            var r := RecoverAll(true, {}, Store(s.files, EmptyIndex), listing);
            && r.ok && r.store.index.events.Keys == s.index.events.Keys
            && (forall id | id in s.index.events ::
                  Sized(s.index.events[id], 0) == Sized(r.store.index.events[id], 0))
            && (exact ==> r.store.index == s.index)
  {
    var s := Run(steps);
    RunKeepsFaithful(steps);
    PlainRunCopies(steps, exact);
    RebuildMatchesIncremental(steps, listing);
    RebuildIsFaithful(s.files, listing);
    RebuildIsVerbatim(s.files, listing);
    var r := RecoverAll(true, {}, Store(s.files, EmptyIndex), listing).store;
    forall id | id in s.index.events
      ensures Sized(s.index.events[id], 0) == Sized(r.index.events[id], 0)
      ensures exact ==> s.index.events[id] == r.index.events[id]
    {
      CopiesAgree(s, r, id, exact);
    }
  }

  // ---------------------------------------------------------------- a frame whose commit was lost

  /** A frame appended without its commit, as a crash between the two leaves it. */
  function LoseCommit(s: Store, r: Record): Store {
    if r.path !in s.files || s.files[r.path].manifest.Some? then s
    else s.(files := s.files[r.path := File(s.files[r.path].frames + [r], None)])
  }

  /** Such a frame is brought back by the next recovery, in every column, as long as recovery is what seals
      its segment. */
  lemma LostCommitIsRecovered(s: Store, r: Record, listing: seq<Path>)
    requires Faithful(s) && r.id !in s.index.events
    requires forall path :: path in listing <==> path in s.files
    ensures Faithful(RecoverAll(false, {}, LoseCommit(s, r), listing).store)
    ensures r.path in s.files && s.files[r.path].manifest.None? ==>
              && r.id in RecoverAll(false, {}, LoseCommit(s, r), listing).store.index.events
              && RecoverAll(false, {}, LoseCommit(s, r), listing).store.index.events[r.id] == r
  {
    var t := LoseCommit(s, r);
    if r.path in s.files && s.files[r.path].manifest.None? {
      LostCommitSound(s, r);
      forall path | path in t.files && t.files[path].manifest.Some?
        ensures Indexed(t.files[path].frames, t.index.events, path)
      {
        assert Projected(s, path);
      }
      RecoveryCompletesIff({}, t, listing);
      RecoveryAddsFrames({}, t, listing);
      RecoverySameFrames({}, t, listing);
      LostFrameComesBack(t, RecoverAll(false, {}, t, listing).store, r);
    } else {
      assert forall path | path in s.files :: Projected(s, path);
      RecoveryCompletesIff({}, t, listing);
    }
  }

  lemma LostFrameComesBack(t: Store, u: Store, r: Record)
    requires UniqueIds(t.files) && r.id !in t.index.events && Faithful(u) && Added(t, u) && SameFrames(t.files, u.files)
    requires r.path in t.files && t.files[r.path].frames != []
    requires t.files[r.path].frames[|t.files[r.path].frames| - 1] == r
    ensures r.id in u.index.events && u.index.events[r.id] == r
  {
    var k := |t.files[r.path].frames| - 1;
    assert Projected(u, r.path) && u.files[r.path].frames[k] == r;
    assert AddedAs(t, r.id, u.index.events[r.id]);
    var p, j: nat :| CopyOf(t.files, p, j, r.id, u.index.events[r.id]);
    assert At(t.files, r.path, k, r.id);
  }

  lemma LostCommitRows(files: Files, rows: Rows, r: Record)
    requires RowsBelow(files, rows) && ManifestsCount(files) && r.path in files
    ensures RowsBelow(files[r.path := File(files[r.path].frames + [r], None)], rows)
    ensures ManifestsCount(files[r.path := File(files[r.path].frames + [r], None)])
  {
  }

  lemma LostCommitSound(s: Store, r: Record)
    requires Faithful(s) && r.id !in s.index.events && r.path in s.files && s.files[r.path].manifest.None?
    ensures Sound(LoseCommit(s, r))
  {
    UnindexedIsAbsent(s, r.id);
    AppendKeepsUnique(s.files, r);
    AppendKeepsBacked(s.files, s.index.events, r);
    LostCommitRows(s.files, s.index.segments, r);
  }

  /** If the writer lives on and seals the segment itself, recovery reads only the manifest and never
      indexes the frame. */
  lemma SealedLostCommitStaysLost()
    ensures exists s: Store, r: Record ::
              && Faithful(s) && r.id !in s.index.events
              && r.id !in RecoverAll(false, {}, Next(LoseCommit(s, r), Seal(r.path)), [r.path]).store.index.events
  {
    var r := Record("e1", Identity("q", 0, "request", "http", "h", 1),
                    Enrichment(None, None, None, None, 0, true, "raw_local", false, "{}"), "seg");
    var s := Run([Open("seg")]);
    assert [Open("seg")][..0] == [];
    RunKeepsFaithful([Open("seg")]);
    var t := Next(LoseCommit(s, r), Seal("seg"));
    assert ["seg"][..0] == [];
    assert RecoverAll(false, {}, t, [r.path]) == RecoverPath(false, t, "seg");
  }

  /** The life of one capture in any store: started, captured, enriched, sealed and drained, its frame is in the file
      at the destination, and its event is there with the enrichment it was given. */
  lemma OneLife(s: Store, r: Record, size: nat, enrichment: Enrichment, dest: Path)
    requires Faithful(s) && r.path !in s.files && dest !in s.files && dest != r.path && r.id !in s.index.events
    ensures var started := Next(s, Open(r.path));
            var captured := Next(started, Capture(r, size));
            var enriched := Next(captured, Enrich(r.id, enrichment));
            var t := Next(Next(enriched, Seal(r.path)), Move(r.path, dest));
            && captured.index.events[r.id] == Sized(r, size)
            && r.path !in t.files && dest in t.files
            && t.files[dest] == File([r], Some(SegmentRow(1, r.identity.bodyBytes)))
            && t.index.events.Keys == s.index.events.Keys + {r.id}
            && t.index.events[r.id] == Record(r.id, r.identity, enrichment, dest)
            && r.path !in t.index.segments && dest in t.index.segments
            && t.index.segments[dest] == SegmentRow(1, r.identity.bodyBytes)
  {
    FirstCapture(s, r, size);
    var captured := Next(Next(s, Open(r.path)), Capture(r, size));
    SealedAndMoved(Next(captured, Enrich(r.id, enrichment)), r, dest);
  }

  lemma FirstCapture(s: Store, r: Record, size: nat)
    requires Faithful(s) && r.path !in s.files && r.id !in s.index.events
    ensures var t := Next(Next(s, Open(r.path)), Capture(r, size));
            && t.files == s.files[r.path := File([r], None)] && t.index.events == s.index.events[r.id := Sized(r, size)]
            && t.index.segments == s.index.segments[r.path := SegmentRow(1, r.identity.bodyBytes)]
  {
    assert [] + [r] == [r];
    assert r.path !in s.index.segments;
  }

  lemma SealedAndMoved(s: Store, r: Record, dest: Path)
    requires r.path in s.files && s.files[r.path].frames == [r] && dest !in s.files && dest != r.path
    requires r.path in s.index.segments && s.index.segments[r.path] == SegmentRow(1, r.identity.bodyBytes)
    requires r.id in s.index.events && s.index.events[r.id].path == r.path
    ensures var t := Next(Next(s, Seal(r.path)), Move(r.path, dest));
            && r.path !in t.files && dest in t.files
            && t.files[dest] == File([r], Some(SegmentRow(1, r.identity.bodyBytes)))
            && t.index.events.Keys == s.index.events.Keys
            && t.index.events[r.id] == s.index.events[r.id].(path := dest)
            && r.path !in t.index.segments && dest in t.index.segments
            && t.index.segments[dest] == SegmentRow(1, r.identity.bodyBytes)
  {
    assert [r][..0] == [];
    assert BodyBytes([r]) == BodyBytes([r][..0]) + r.identity.bodyBytes == r.identity.bodyBytes;
  }
}
