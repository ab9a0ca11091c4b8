/** The files a writer leaves, as startup recovery finds them: when recovery gets through all of them. */
module Startup {
  import opened Common
  import SegmentLog
  import Rotation
  import IndexRecovery

  /** A record as the index keeps it. */
  function Entry(r: SegmentLog.BodyRecord): IndexRecovery.Record {
    IndexRecovery.Record(
      r.eventId,
      IndexRecovery.Identity(r.requestId, r.observedAt, r.captureStage, r.protocol, r.bodySha256, r.bodyBytes),
      IndexRecovery.Enrichment(r.upstream, r.model, r.status, r.contentType, r.compressedBytes, r.isProtected,
                               r.redactionState, r.thresholdShrunk, r.metadata),
      r.archivePath)
  }

  function Entries(frames: seq<SegmentLog.SegmentFrame>): seq<IndexRecovery.Record> {
    seq(|frames|, i requires 0 <= i < |frames| => Entry(frames[i].record))
  }

  function Recovering(e: Rotation.Env, s: Rotation.Segment): Result<seq<SegmentLog.SegmentFrame>> {
    SegmentLog.ScanFile(e.p, s.bytes, true).result
  }

  /** The files among `paths` that a recovering scan can read, under their names. */
  function Usable(e: Rotation.Env, segments: map<Rotation.Path, Rotation.Segment>, paths: seq<Rotation.Path>)
      : IndexRecovery.Files
  {
    if paths == [] then map[]
    else
      var last := paths[|paths| - 1];
      var others := Usable(e, segments, paths[..|paths| - 1]);
      if last in segments && Recovering(e, segments[last]).Ok? then
        var entries := Entries(Recovering(e, segments[last]).value);
        others[e.render(last) := IndexRecovery.File(
                 entries, if segments[last].isSealed then Some(IndexRecovery.RowOf(entries)) else None)]
      else others
  }

  function Names(e: Rotation.Env, paths: seq<Rotation.Path>): seq<string> {
    seq(|paths|, i requires 0 <= i < |paths| => e.render(paths[i]))
  }

  ghost function LockedNames(e: Rotation.Env, locked: set<Rotation.Path>): set<string> {
    set path | path in locked :: e.render(path)
  }

  /** Different files have different names. */
  ghost predicate NamesApart(e: Rotation.Env, paths: seq<Rotation.Path>) {
    forall p, q | p in paths && q in paths && e.render(p) == e.render(q) :: p == q
  }

  lemma {:induction false} UsableIff(
      e: Rotation.Env, segments: map<Rotation.Path, Rotation.Segment>, paths: seq<Rotation.Path>, path: Rotation.Path)
    requires NamesApart(e, paths + [path])
    ensures e.render(path) in Usable(e, segments, paths) <==>
              path in paths && path in segments && Recovering(e, segments[path]).Ok?
    decreases |paths|
  {
    if paths != [] {
      var front, last := paths[..|paths| - 1], paths[|paths| - 1];
      assert paths == front + [last];
      forall p | p in front + [path]
        ensures p in paths + [path]
      {
      }
      UsableIff(e, segments, front, path);
      assert last in paths + [path] && path in paths + [path];
    }
  }

  /** Startup recovery of everything on disk completes if and only if a recovering scan of every file that
      no other writer holds succeeds. */
  lemma StartupCompletesIff(
      e: Rotation.Env, segments: map<Rotation.Path, Rotation.Segment>, paths: seq<Rotation.Path>,
      locked: set<Rotation.Path>, index: IndexRecovery.Index)
    requires (forall path :: path in paths <==> path in segments) && NamesApart(e, paths)
    requires forall path | path in locked :: path in segments
    ensures var store := IndexRecovery.Store(Usable(e, segments, paths), index);
            IndexRecovery.RecoverAll(false, LockedNames(e, locked), store, Names(e, paths)).ok
            <==> forall path | path in segments && path !in locked :: Recovering(e, segments[path]).Ok?
  {
    var store := IndexRecovery.Store(Usable(e, segments, paths), index);
    var names, held := Names(e, paths), LockedNames(e, locked);
    forall path | path in segments
      ensures e.render(path) in held <==> path in locked
      ensures e.render(path) in store.files <==> Recovering(e, segments[path]).Ok?
    {
      assert forall p | p in paths + [path] :: p in paths;
      UsableIff(e, segments, paths, path);
    }
    var k := IndexRecovery.UsablePrefix(held, store, names);
    if k == |names| {
      forall path | path in segments && path !in locked
        ensures Recovering(e, segments[path]).Ok?
      {
        var i :| 0 <= i < |paths| && paths[i] == path;
        assert names[i] == e.render(path);
      }
    } else {
      assert names[k] == e.render(paths[k]) && paths[k] in segments;
    }
  }

  /** After a careful run it completes if and only if no such file had its magic cut short: one file of
      fewer than eight bytes stops every start. */
  lemma CutMagicStopsStartup(
      e: Rotation.Env, ws: seq<Rotation.Writer>, ops: seq<Rotation.Op>, n: nat, paths: seq<Rotation.Path>,
      locked: set<Rotation.Path>, index: IndexRecovery.Index)
    requires e.p.Sound() && Rotation.IsRun(e, ws, ops) && Rotation.Careful(ws, ops) && n < |ws|
    requires (forall path :: path in paths <==> path in ws[n].segments) && NamesApart(e, paths)
    requires forall path | path in locked :: path in ws[n].segments
    ensures var store := IndexRecovery.Store(Usable(e, ws[n].segments, paths), index);
            IndexRecovery.RecoverAll(false, LockedNames(e, locked), store, Names(e, paths)).ok
            <==> forall path | path in ws[n].segments && path !in locked :: Rotation.Whole(ws[n].segments[path])
  {
    StartupCompletesIff(e, ws[n].segments, paths, locked, index);
    forall path | path in ws[n].segments
      ensures Recovering(e, ws[n].segments[path]).Ok? <==> Rotation.Whole(ws[n].segments[path])
    {
      Rotation.CarefulRunLosesNothing(e, ws, ops, n, path);
    }
  }

  // ---------------------------------------------------------------- what an indexed event says

  /** The event says what the record in its frame says, column by column; where it is, the index knows better. */
  ghost predicate SameColumns(event: IndexRecovery.Record, r: SegmentLog.BodyRecord) {
    && event.id == r.eventId
    && event.identity.requestId == r.requestId && event.identity.observedAt == r.observedAt
    && event.identity.captureStage == r.captureStage && event.identity.protocol == r.protocol
    && event.identity.bodySha256 == r.bodySha256 && event.identity.bodyBytes == r.bodyBytes
    && event.enrichment.upstream == r.upstream && event.enrichment.model == r.model
    && event.enrichment.status == r.status && event.enrichment.contentType == r.contentType
    && event.enrichment.compressedBytes == r.compressedBytes && event.enrichment.isProtected == r.isProtected
    && event.enrichment.redactionState == r.redactionState
    && event.enrichment.thresholdShrunk == r.thresholdShrunk && event.enrichment.metadata == r.metadata
  }

  /** The path is that of a file a recovering scan of which finds the record as its `k`-th. */
  ghost predicate ScannedAt(
      e: Rotation.Env, segments: map<Rotation.Path, Rotation.Segment>, path: Rotation.Path, k: nat,
      r: SegmentLog.BodyRecord)
  {
    && path in segments && Recovering(e, segments[path]).Ok?
    && k < |Recovering(e, segments[path]).value| && Recovering(e, segments[path]).value[k].record == r
  }

  /** A file recovery sees is what a recovering scan of some segment finds, and has a manifest exactly when that
      segment is sealed. */
  lemma {:induction false} UsableFrom(
      e: Rotation.Env, segments: map<Rotation.Path, Rotation.Segment>, paths: seq<Rotation.Path>, name: string)
      returns (path: Rotation.Path)
    requires name in Usable(e, segments, paths)
    ensures path in paths && path in segments && e.render(path) == name && Recovering(e, segments[path]).Ok?
    ensures Usable(e, segments, paths)[name].frames == Entries(Recovering(e, segments[path]).value)
    ensures Usable(e, segments, paths)[name].manifest.Some? <==> segments[path].isSealed
    decreases |paths|
  {
    var front, last := paths[..|paths| - 1], paths[|paths| - 1];
    assert paths == front + [last];
    if last in segments && Recovering(e, segments[last]).Ok? && e.render(last) == name {
      path := last;
    } else {
      path := UsableFrom(e, segments, front, name);
    }
  }

  /** End to end: every event startup recovery adds to a sound index is in one of the segments on disk, and says
      what its record there says in every column, at that segment's path. */
  lemma StartupAddsRecords(
      e: Rotation.Env, segments: map<Rotation.Path, Rotation.Segment>, paths: seq<Rotation.Path>,
      locked: set<Rotation.Path>, index: IndexRecovery.Index, id: string)
      returns (path: Rotation.Path, k: nat, r: SegmentLog.BodyRecord)
    requires (forall path :: path in paths <==> path in segments) && NamesApart(e, paths)
    requires forall path | path in segments && path !in locked :: Recovering(e, segments[path]).Ok?
    requires IndexRecovery.Sound(IndexRecovery.Store(Usable(e, segments, paths), index))
    requires var store := IndexRecovery.Store(Usable(e, segments, paths), index);
             id !in index.events
             && id in IndexRecovery.RecoverAll(false, LockedNames(e, locked), store, Names(e, paths)).store.index.events
    ensures var store := IndexRecovery.Store(Usable(e, segments, paths), index);
            var after := IndexRecovery.RecoverAll(false, LockedNames(e, locked), store, Names(e, paths)).store;
            && ScannedAt(e, segments, path, k, r) && SameColumns(after.index.events[id], r)
            && after.index.events[id].path == e.render(path)
  {
    var store := IndexRecovery.Store(Usable(e, segments, paths), index);
    var names, held := Names(e, paths), LockedNames(e, locked);
    forall name | IndexRecovery.Visited(names, held, name)
      ensures name in store.files
    {
      var i :| 0 <= i < |paths| && names[i] == name;
      assert paths[i] !in locked;
      assert forall p | p in paths + [paths[i]] :: p in paths;
      UsableIff(e, segments, paths, paths[i]);
    }
    IndexRecovery.RecoveryAddsFrames(held, store, names);
    var after := IndexRecovery.RecoverAll(false, held, store, names).store;
    var event := after.index.events[id];
    assert IndexRecovery.AddedAs(store, id, event);
    var name: string, n: nat :| IndexRecovery.CopyOf(store.files, name, n, id, event);
    path := UsableFrom(e, segments, paths, name);
    k, r := n, Recovering(e, segments[path]).value[n].record;
  }

  /** A sealed segment is believed: recovery takes its counts from the manifest and reads none of its frames. */
  lemma SealedIsBelieved(
      e: Rotation.Env, segments: map<Rotation.Path, Rotation.Segment>, paths: seq<Rotation.Path>,
      path: Rotation.Path, index: IndexRecovery.Index)
    requires NamesApart(e, paths) && path in paths && path in segments && Recovering(e, segments[path]).Ok?
    ensures var store := IndexRecovery.Store(Usable(e, segments, paths), index);
            segments[path].isSealed ==>
              IndexRecovery.RecoverPath(false, store, e.render(path)).store.index.events == index.events
  {
    assert forall p | p in paths + [path] :: p in paths;
    UsableIff(e, segments, paths, path);
    var same := UsableFrom(e, segments, paths, e.render(path));
    assert same == path;
  }
}
