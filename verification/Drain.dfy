/**
 Recording, sealing and draining: where the index says a body is, that body is. Every durable write
 of the drain is a step of its own, so the claim covers a crash between any two of them.
 */
module Drain {
  import opened Common
  import opened SegmentLog
  import Framing

  type Path = string
  type Sha = string

  /** What the store needs of the segment format: a new file's bytes, the frame written for an event,
      which files scan, what a recovering scan leaves of one, and the body found in a file under a hash.
      `isSpool` tells the spool tree from the archive tree. */
  datatype Env = Env(
    sha256: seq<byte> -> Sha,
    isSpool: Path -> bool,
    newFile: seq<byte>,
    encode: (Path, string, seq<byte>) -> Option<seq<byte>>,
    scans: seq<byte> -> bool,
    recover: seq<byte> -> Option<seq<byte>>,
    find: (seq<byte>, Sha) -> Option<seq<byte>>)
  {
    /** No two byte strings in play share a SHA-256. */
    ghost predicate CollisionFree() {
      forall a: seq<byte>, b: seq<byte> {:trigger sha256(a), sha256(b)} :: sha256(a) == sha256(b) ==> a == b
    }

    /** Appending an encoded frame keeps a file readable, keeps its bodies, and adds the new one. */
    ghost predicate AppendLaw(bytes: seq<byte>, path: Path, id: string, body: seq<byte>) {
      scans(bytes) && encode(path, id, body).Some? ==>
        var longer := bytes + encode(path, id, body).value;
        && scans(longer)
        && find(longer, sha256(body)) == Some(body)
        && (forall sha | find(bytes, sha).Some? :: find(longer, sha) == find(bytes, sha))
    }

    /** A frame cut short makes a readable file unreadable; recovery removes exactly the torn bytes. */
    ghost predicate TornLaw(bytes: seq<byte>, path: Path, id: string, body: seq<byte>, cut: nat) {
      scans(bytes) && encode(path, id, body).Some? && 0 < cut < |encode(path, id, body).value| ==>
        var torn := bytes + encode(path, id, body).value[..cut];
        !scans(torn) && recover(torn) == Some(bytes)
    }

    /** Whatever stands behind a readable part, recovery keeps that part's bodies; a readable file it
        leaves alone. */
    ghost predicate RecoverLaw(bytes: seq<byte>, more: seq<byte>) {
      scans(bytes) ==>
        && recover(bytes) == Some(bytes)
        && (recover(bytes + more).Some? ==>
              && scans(recover(bytes + more).value)
              && (forall sha | find(bytes, sha).Some? :: find(recover(bytes + more).value, sha) == find(bytes, sha)))
    }

    /** A new file cut short neither scans nor recovers. */
    ghost predicate StubLaw(n: nat) {
      n < |newFile| ==> !scans(newFile[..n]) && recover(newFile[..n]) == None
    }

    ghost predicate Lawful() {
      && CollisionFree()
      && scans(newFile)
      && (forall n: nat :: StubLaw(n))
      && (forall bytes: seq<byte>, path: Path, id: string, body: seq<byte> :: AppendLaw(bytes, path, id, body))
      && (forall bytes: seq<byte>, path: Path, id: string, body: seq<byte>, cut: nat ::
          TornLaw(bytes, path, id, body, cut))
      && (forall bytes: seq<byte>, more: seq<byte> :: RecoverLaw(bytes, more))
    }
  }

  datatype Storage = SpoolSegment | ArchiveSegment

  datatype Location = Location(storage: Storage, path: Path)

  datatype Manifest = Manifest(sha: Sha, segmentBytes: nat)

  /** A frame that is in the active file but not yet in the index. */
  datatype Pending = Pending(path: Path, id: string, body: seq<byte>)

  /** The drain in progress: which of its durable writes have happened. */
  datatype Stage = Locked | SegmentCopied | ManifestCopied | IndexMoved | SourceRemoved

  datatype Job = NoJob | Job(src: Path, dest: Path, stage: Stage)

  /** The SQLite tables that name segment paths. */
  datatype Index = Index(blobs: map<Sha, Location>, events: map<string, Location>, segments: map<Path, Storage>)

  /** A file with a write cut short in it: what it held before, and whether anything was written behind. */
  datatype Tear = Tear(clean: seq<byte>, buried: bool)

  /** What has been committed: the body first committed under each hash and the body of each event, and of
      these the ones whose only frame was written behind a tear. */
  datatype History = History(
    recorded: map<Sha, seq<byte>>, behind: set<Sha>, logged: map<string, seq<byte>>, late: set<string>)

  /** `files` are the segments with a whole magic and `stubs` those whose magic was cut short when they
      were created. `past` and `tears`, the files a torn write is still in, are history. */
  datatype Store = Store(
    files: map<Path, seq<byte>>,
    stubs: map<Path, seq<byte>>,
    manifests: map<Path, Manifest>,
    index: Index,
    active: Option<Path>,
    pending: Option<Pending>,
    job: Job,
    tears: map<Path, Tear>,
    past: History)

  /** `read_blob` for bodies stored in segments. */
  function ReadBlob(e: Env, s: Store, sha: Sha): Option<seq<byte>> {
    if sha !in s.index.blobs then None
    else
      var path := s.index.blobs[sha].path;
      if path !in s.files || !e.scans(s.files[path]) then None else e.find(s.files[path], sha)
  }

  // ---------------------------------------------------------------- steps

  function StorageOf(e: Env, path: Path): Storage { if e.isSpool(path) then SpoolSegment else ArchiveSegment }

  function ManifestOf(e: Env, bytes: seq<byte>): Manifest { Manifest(e.sha256(bytes), |bytes|) }

  /** Paths somebody holds the segment lock on. */
  predicate Held(s: Store, path: Path) {
    s.active == Some(path) || (s.job.Job? && (path == s.job.src || path == s.job.dest))
  }

  /** A new segment is created only under a path nothing is at. */
  predicate Taken(s: Store, path: Path) {
    s.active.Some? || Held(s, path) || path in s.files || path in s.stubs || path in s.manifests
  }

  function OpenSegment(e: Env, s: Store, path: Path): Store {
    if Taken(s, path) then s else s.(files := s.files[path := e.newFile], active := Some(path))
  }

  /** Creation that fails with `n` bytes of the new file written, or after all of them. */
  function OpenCut(e: Env, s: Store, path: Path, n: nat): Store {
    if Taken(s, path) then s
    else if n < |e.newFile| then s.(stubs := s.stubs[path := e.newFile[..n]])
    else s.(files := s.files[path := e.newFile])
  }

  function AppendFrame(e: Env, s: Store, id: string, body: seq<byte>): Store {
    if s.active.None? || s.active.value !in s.files || s.pending.Some? then s
    else
      var path := s.active.value;
      match e.encode(path, id, body)
      case None => s
      case Some(frame) =>
        s.(files := s.files[path := s.files[path] + frame], pending := Some(Pending(path, id, body)),
           tears := if path in s.tears then s.tears[path := s.tears[path].(buried := true)] else s.tears)
  }

  /** A write that stops after `cut` bytes; the writer may die of it or go on. */
  function TearFrame(e: Env, s: Store, id: string, body: seq<byte>, cut: nat): Store {
    if s.active.None? || s.active.value !in s.files || s.pending.Some? then s
    else
      var path := s.active.value;
      match e.encode(path, id, body)
      case None => s
      case Some(frame) =>
        if !(0 < cut < |frame|) then s
        else s.(files := s.files[path := s.files[path] + frame[..cut]],
                tears := s.tears[path := if path in s.tears then s.tears[path].(buried := true)
                                         else Tear(s.files[path], false)])
  }

  function InsertRows(index: Index, sha: Sha, id: string, here: Location): Index {
    Index(if sha in index.blobs then index.blobs else index.blobs[sha := here],
          index.events[id := here], index.segments[here.path := here.storage])
  }

  function Remembered(e: Env, past: History, id: string, body: seq<byte>, torn: bool): History {
    var sha := e.sha256(body);
    History(if sha in past.recorded then past.recorded else past.recorded[sha := body],
            if sha !in past.recorded && torn then past.behind + {sha} else past.behind,
            past.logged[id := body],
            if torn then past.late + {id} else past.late)
  }

  /** The index transaction of a capture; an event id that is taken makes it fail. */
  function CommitPending(e: Env, s: Store): Store {
    if s.pending.None? || s.pending.value.id in s.index.events then s.(pending := None)
    else
      var Pending(path, id, body) := s.pending.value;
      s.(pending := None,
         index := InsertRows(s.index, e.sha256(body), id, Location(StorageOf(e, path), path)),
         past := Remembered(e, s.past, id, body, path in s.tears))
  }

  /** `seal_segment`: what a recovering scan leaves gets a manifest; a file it fails on stays as it is. */
  function Sealed(e: Env, s: Store, path: Path): Store
    requires path in s.files
  {
    match e.recover(s.files[path])
    case None => s
    case Some(bytes) =>
      s.(files := s.files[path := bytes], manifests := s.manifests[path := ManifestOf(e, bytes)],
         tears := s.tears - {path})
  }

  /** An index commit that fails; the frame stays in the file and the writer goes on. */
  function AbandonPending(s: Store): Store { s.(pending := None) }

  function SealActive(e: Env, s: Store): Store {
    if s.active.None? || s.active.value !in s.files || s.pending.Some? then s
    else Sealed(e, s, s.active.value).(active := None)
  }

  /** Recovery seals a segment whose writer is gone. */
  function SealOrphan(e: Env, s: Store, path: Path): Store {
    if Held(s, path) || path !in s.files || path in s.manifests then s else Sealed(e, s, path)
  }

  function StartDrain(e: Env, s: Store, src: Path, dest: Path): Store {
    if s.job.Job? || Held(s, src) || Held(s, dest) || !e.isSpool(src) || e.isSpool(dest) || src !in s.manifests then s
    else s.(job := Job(src, dest, Locked))
  }

  /** The files after the verified copy, unless the source has lost its checksum or something else is at the
      destination; a stub always is something else. */
  function CopiedFiles(e: Env, s: Store, src: Path, dest: Path): Option<map<Path, seq<byte>>> {
    if src !in s.files || src !in s.manifests || e.sha256(s.files[src]) != s.manifests[src].sha then None
    else if dest in s.stubs then None
    else if dest !in s.files then Some(s.files[dest := s.files[src]])
    else if e.sha256(s.files[dest]) != e.sha256(s.files[src]) then None
    else Some(s.files)
  }

  /** Copy the segment unless an identical one is there; a mismatch abandons the drain. */
  function CopySegment(e: Env, s: Store, src: Path, dest: Path): Store {
    match CopiedFiles(e, s, src, dest)
    case None => s.(job := NoJob)
    case Some(files) => s.(files := files, tears := s.tears - {dest}, job := Job(src, dest, SegmentCopied))
  }

  function CopiedManifests(manifests: map<Path, Manifest>, src: Path, dest: Path): Option<map<Path, Manifest>> {
    if src !in manifests then None
    else if dest !in manifests then Some(manifests[dest := manifests[src]])
    else if manifests[dest] != manifests[src] then None
    else Some(manifests)
  }

  function CopyManifest(s: Store, src: Path, dest: Path): Store {
    match CopiedManifests(s.manifests, src, dest)
    case None => s.(job := NoJob)
    case Some(manifests) => s.(manifests := manifests, job := Job(src, dest, ManifestCopied))
  }

  function MoveRow(l: Location, src: Path, dest: Path): Location {
    if l == Location(SpoolSegment, src) then Location(ArchiveSegment, dest) else l
  }

  /** The index transaction of the drain. */
  function MoveIndex(index: Index, src: Path, dest: Path): Index {
    Index(map sha | sha in index.blobs :: MoveRow(index.blobs[sha], src, dest),
          map id | id in index.events :: MoveRow(index.events[id], src, dest),
          if src in index.segments then (index.segments - {src})[dest := ArchiveSegment] else index.segments)
  }

  /** A table whose rows at the drained spool file have become rows of the archived copy; no row is lost,
      gained or otherwise changed. */
  ghost predicate Relocated<K(!new)>(was: map<K, Location>, now: map<K, Location>, src: Path, dest: Path) {
    && now.Keys == was.Keys
    && forall k | k in was ::
         now[k] == if was[k] == Location(SpoolSegment, src) then Location(ArchiveSegment, dest) else was[k]
  }

  /** What one drain does to the index. */
  ghost predicate Drained(was: Index, now: Index, src: Path, dest: Path) {
    && Relocated(was.blobs, now.blobs, src, dest)
    && Relocated(was.events, now.events, src, dest)
    && now.segments.Keys == was.segments.Keys - {src} + (if src in was.segments then {dest} else {})
    && (src in was.segments ==> now.segments[dest] == ArchiveSegment)
    && (forall path | path in was.segments && path != src && path != dest :: now.segments[path] == was.segments[path])
  }

  /** The next durable write of the drain. */
  function DrainWrite(e: Env, s: Store): Store {
    if s.job.NoJob? then s
    else
      var Job(src, dest, stage) := s.job;
      match stage
      case Locked => CopySegment(e, s, src, dest)
      case SegmentCopied => CopyManifest(s, src, dest)
      case ManifestCopied => s.(index := MoveIndex(s.index, src, dest), job := Job(src, dest, IndexMoved))
      case IndexMoved => s.(files := s.files - {src}, job := Job(src, dest, SourceRemoved))
      case SourceRemoved => s.(manifests := s.manifests - {src}, job := NoJob)
  }

  /** A crash loses what was only in memory; locks are released. */
  function Crashed(s: Store): Store { s.(active := None, pending := None, job := NoJob) }

  datatype Step =
    | DoOpen(path: Path)
    | DoOpenCut(path: Path, n: nat)
    | DoAppend(id: string, body: seq<byte>)
    | DoTear(id: string, body: seq<byte>, cut: nat)
    | DoCommit
    | DoAbandon
    | DoSeal
    | DoSealOrphan(path: Path)
    | DoStartDrain(src: Path, dest: Path)
    | DoDrainWrite
    | DoCrash

  function Next(e: Env, s: Store, step: Step): Store {
    match step
    case DoOpen(path) => OpenSegment(e, s, path)
    case DoOpenCut(path, n) => OpenCut(e, s, path, n)
    case DoAppend(id, body) => AppendFrame(e, s, id, body)
    case DoTear(id, body, cut) => TearFrame(e, s, id, body, cut)
    case DoCommit => CommitPending(e, s)
    case DoAbandon => AbandonPending(s)
    case DoSeal => SealActive(e, s)
    case DoSealOrphan(path) => SealOrphan(e, s, path)
    case DoStartDrain(src, dest) => StartDrain(e, s, src, dest)
    case DoDrainWrite => DrainWrite(e, s)
    case DoCrash => Crashed(s)
  }

  // ---------------------------------------------------------------- the invariant

  /** A file without a tear scans; one with a tear begins with what scanned before it. */
  ghost predicate FileOk(e: Env, bytes: seq<byte>, tear: Option<Tear>) {
    match tear
    case None => e.scans(bytes)
    case Some(t) =>
      && e.scans(t.clean) && t.clean <= bytes && t.clean != bytes
      && (!t.buried ==> !e.scans(bytes) && e.recover(bytes) == Some(t.clean))
  }

  function TearAt(tears: map<Path, Tear>, path: Path): Option<Tear> {
    if path in tears then Some(tears[path]) else None
  }

  ghost predicate FilesOk(e: Env, files: map<Path, seq<byte>>, manifests: map<Path, Manifest>, tears: map<Path, Tear>) {
    && (forall path | path in files :: FileOk(e, files[path], TearAt(tears, path)))
    && (forall path | path in tears :: path in files && path !in manifests)
    && (forall path | path in manifests && path in files :: manifests[path] == ManifestOf(e, files[path]))
    && (forall path | path in manifests && !e.isSpool(path) :: path in files)
  }

  ghost predicate Placed(e: Env, files: map<Path, seq<byte>>, l: Location) {
    l.path in files && l.storage == StorageOf(e, l.path)
  }

  /** Every row names a file that is there, in the tree its storage says, and every such file has its own
      row. */
  ghost predicate IndexOk(e: Env, files: map<Path, seq<byte>>, index: Index) {
    && (forall sha | sha in index.blobs ::
          Placed(e, files, index.blobs[sha]) && index.blobs[sha].path in index.segments)
    && (forall id | id in index.events :: Placed(e, files, index.events[id]) && index.events[id].path in index.segments)
    && (forall path | path in index.segments :: path in files && index.segments[path] == StorageOf(e, path))
  }

  /** What of a file is certain to be read again. */
  function CleanPart(files: map<Path, seq<byte>>, tears: map<Path, Tear>, path: Path): seq<byte>
    requires path in files
  {
    if path in tears then tears[path].clean else files[path]
  }

  /** The body is in the clean part of the file. */
  ghost predicate Holds(e: Env, files: map<Path, seq<byte>>, tears: map<Path, Tear>, l: Location, body: seq<byte>) {
    l.path in files && e.find(CleanPart(files, tears, l.path), e.sha256(body)) == Some(body)
  }

  /** A table has exactly the rows that were committed, and each names a file that holds its body, unless
      that was written behind a tear. */
  ghost predicate RowsOk<K(!new)>(
      e: Env, files: map<Path, seq<byte>>, tears: map<Path, Tear>, rows: map<K, Location>, bodies: map<K, seq<byte>>,
      behind: set<K>)
  {
    && rows.Keys == bodies.Keys && behind <= bodies.Keys
    && forall k | k in bodies && k !in behind :: Holds(e, files, tears, rows[k], bodies[k])
  }

  ghost predicate BodiesOk(e: Env, files: map<Path, seq<byte>>, tears: map<Path, Tear>, index: Index, past: History) {
    && RowsOk(e, files, tears, index.blobs, past.recorded, past.behind)
    && (forall sha | sha in past.recorded :: e.sha256(past.recorded[sha]) == sha)
    && RowsOk(e, files, tears, index.events, past.logged, past.late)
  }

  ghost predicate WriterOk(e: Env, s: Store) {
    && (s.active.Some? ==> s.active.value in s.files && s.active.value !in s.manifests)
    && (s.pending.Some? ==>
          && s.active == Some(s.pending.value.path)
          && (s.active.value !in s.tears ==>
                e.find(s.files[s.active.value], e.sha256(s.pending.value.body)) == Some(s.pending.value.body)))
  }

  ghost predicate Unreferenced(index: Index, path: Path) {
    && (forall sha | sha in index.blobs :: index.blobs[sha].path != path)
    && (forall id | id in index.events :: index.events[id].path != path)
    && path !in index.segments
  }

  ghost predicate JobOk(e: Env, s: Store) {
    s.job.Job? ==>
      && e.isSpool(s.job.src) && !e.isSpool(s.job.dest) && s.job.src in s.manifests
      && s.active != Some(s.job.src) && s.active != Some(s.job.dest)
      && (s.job.stage == SegmentCopied || s.job.stage == ManifestCopied ==>
            && s.job.src in s.files && s.job.dest in s.files && s.files[s.job.dest] == s.files[s.job.src]
            && s.job.dest !in s.tears)
      && (s.job.stage == IndexMoved || s.job.stage == SourceRemoved ==> Unreferenced(s.index, s.job.src))
  }

  /** What the files hold and what the index says of them. */
  ghost predicate ContentsOk(e: Env, s: Store) {
    && FilesOk(e, s.files, s.manifests, s.tears)
    && IndexOk(e, s.files, s.index)
    && BodiesOk(e, s.files, s.tears, s.index, s.past)
  }

  /** A stub is a proper part of a new file, under a path where nothing else is. */
  ghost predicate StubsOk(e: Env, files: map<Path, seq<byte>>, stubs: map<Path, seq<byte>>) {
    forall path | path in stubs ::
      path !in files && |stubs[path]| < |e.newFile| && stubs[path] == e.newFile[..|stubs[path]|]
  }

  /** What holds at every moment, between any two durable writes. */
  ghost predicate Inv(e: Env, s: Store) {
    ContentsOk(e, s) && StubsOk(e, s.files, s.stubs) && WriterOk(e, s) && JobOk(e, s)
  }

  // ---------------------------------------------------------------- every step keeps it

  function WithTear(tears: map<Path, Tear>, path: Path, tear: Option<Tear>): map<Path, Tear> {
    if tear.Some? then tears[path := tear.value] else tears - {path}
  }

  function CleanOf(bytes: seq<byte>, tear: Option<Tear>): seq<byte> {
    if tear.Some? then tear.value.clean else bytes
  }

  lemma ReplacedFilesOk(e: Env, s: Store, path: Path, bytes: seq<byte>, tear: Option<Tear>)
    requires FilesOk(e, s.files, s.manifests, s.tears) && path !in s.manifests && FileOk(e, bytes, tear)
    ensures FilesOk(e, s.files[path := bytes], s.manifests, WithTear(s.tears, path, tear))
  {
    var files, tears := s.files[path := bytes], WithTear(s.tears, path, tear);
    forall p | p in files
      ensures FileOk(e, files[p], TearAt(tears, p))
    {
      assert p != path ==> FileOk(e, s.files[p], TearAt(s.tears, p)) && TearAt(tears, p) == TearAt(s.tears, p);
    }
  }

  lemma ReplacedRowsOk<K(!new)>(
      e: Env, s: Store, path: Path, bytes: seq<byte>, tear: Option<Tear>, rows: map<K, Location>,
      bodies: map<K, seq<byte>>, behind: set<K>)
    requires RowsOk(e, s.files, s.tears, rows, bodies, behind)
    requires path in s.files ==>
               forall sha | e.find(CleanPart(s.files, s.tears, path), sha).Some? ::
                 e.find(CleanOf(bytes, tear), sha) == e.find(CleanPart(s.files, s.tears, path), sha)
    ensures RowsOk(e, s.files[path := bytes], WithTear(s.tears, path, tear), rows, bodies, behind)
  {
    var files, tears := s.files[path := bytes], WithTear(s.tears, path, tear);
    forall k | k in bodies && k !in behind
      ensures Holds(e, files, tears, rows[k], bodies[k])
    {
      assert Holds(e, s.files, s.tears, rows[k], bodies[k]);
      var p := rows[k].path;
      assert CleanPart(files, tears, p) == if p == path then CleanOf(bytes, tear) else CleanPart(s.files, s.tears, p);
    }
  }

  /** A file without a manifest may be replaced by one whose clean part has all the bodies the old clean
      part had. */
  lemma ReplacedFileKeeps(e: Env, s: Store, path: Path, bytes: seq<byte>, tear: Option<Tear>)
    requires ContentsOk(e, s) && path !in s.manifests && FileOk(e, bytes, tear)
    requires path in s.files ==>
               forall sha | e.find(CleanPart(s.files, s.tears, path), sha).Some? ::
                 e.find(CleanOf(bytes, tear), sha) == e.find(CleanPart(s.files, s.tears, path), sha)
    ensures ContentsOk(e, s.(files := s.files[path := bytes], tears := WithTear(s.tears, path, tear)))
  {
    ReplacedFilesOk(e, s, path, bytes, tear);
    ReplacedRowsOk(e, s, path, bytes, tear, s.index.blobs, s.past.recorded, s.past.behind);
    ReplacedRowsOk(e, s, path, bytes, tear, s.index.events, s.past.logged, s.past.late);
  }

  lemma NewFileContentsOk(e: Env, s: Store, path: Path)
    requires e.Lawful() && ContentsOk(e, s) && path !in s.files && path !in s.manifests
    ensures ContentsOk(e, s.(files := s.files[path := e.newFile]))
  {
    ReplacedFileKeeps(e, s, path, e.newFile, None);
    assert s.tears - {path} == s.tears;
  }

  /** A file where none was does not concern the writer or the drain. */
  lemma NewFileRestOk(e: Env, s: Store, path: Path, bytes: seq<byte>)
    requires WriterOk(e, s) && JobOk(e, s) && path !in s.files && !Held(s, path)
    ensures WriterOk(e, s.(files := s.files[path := bytes])) && JobOk(e, s.(files := s.files[path := bytes]))
  {
  }

  lemma OpenKeeps(e: Env, s: Store, path: Path)
    requires e.Lawful() && Inv(e, s)
    ensures Inv(e, OpenSegment(e, s, path))
  {
    if !Taken(s, path) {
      NewFileContentsOk(e, s, path);
      NewFileRestOk(e, s, path, e.newFile);
    }
  }

  lemma OpenCutKeeps(e: Env, s: Store, path: Path, n: nat)
    requires e.Lawful() && Inv(e, s)
    ensures Inv(e, OpenCut(e, s, path, n))
  {
    if !Taken(s, path) && n >= |e.newFile| {
      NewFileContentsOk(e, s, path);
      NewFileRestOk(e, s, path, e.newFile);
    }
  }

  lemma AppendContentsOk(e: Env, s: Store, id: string, body: seq<byte>)
    requires e.Lawful() && ContentsOk(e, s) && s.active.Some? && s.active.value in s.files
              && s.active.value !in s.manifests
    requires e.encode(s.active.value, id, body).Some? && s.pending.None?
    ensures ContentsOk(e, AppendFrame(e, s, id, body))
  {
    var path := s.active.value;
    var longer := s.files[path] + e.encode(path, id, body).value;
    assert FileOk(e, s.files[path], TearAt(s.tears, path));
    if path in s.tears {
      ReplacedFileKeeps(e, s, path, longer, Some(s.tears[path].(buried := true)));
    } else {
      assert e.AppendLaw(s.files[path], path, id, body);
      ReplacedFileKeeps(e, s, path, longer, None);
      assert s.tears - {path} == s.tears;
    }
  }

  lemma AppendKeeps(e: Env, s: Store, id: string, body: seq<byte>)
    requires e.Lawful() && Inv(e, s)
    ensures Inv(e, AppendFrame(e, s, id, body))
  {
    if s.active.Some? && s.pending.None? && e.encode(s.active.value, id, body).Some? {
      var path := s.active.value;
      AppendContentsOk(e, s, id, body);
      assert FileOk(e, s.files[path], TearAt(s.tears, path));
      assert e.AppendLaw(s.files[path], path, id, body);
      assert WriterOk(e, AppendFrame(e, s, id, body));
    }
  }

  lemma TearKeeps(e: Env, s: Store, id: string, body: seq<byte>, cut: nat)
    requires e.Lawful() && Inv(e, s)
    ensures Inv(e, TearFrame(e, s, id, body, cut))
  {
    if s.active.Some? && s.pending.None? && e.encode(s.active.value, id, body).Some? {
      var path, frame := s.active.value, e.encode(s.active.value, id, body).value;
      if 0 < cut < |frame| {
        assert FileOk(e, s.files[path], TearAt(s.tears, path));
        assert e.TornLaw(s.files[path], path, id, body, cut);
        var tear := if path in s.tears then s.tears[path].(buried := true) else Tear(s.files[path], false);
        ReplacedFileKeeps(e, s, path, s.files[path] + frame[..cut], Some(tear));
      }
    }
  }

  /** New rows for a file that is there, beside rows that stand. */
  lemma InsertedRowsOk(e: Env, files: map<Path, seq<byte>>, index: Index, sha: Sha, id: string, path: Path)
    requires IndexOk(e, files, index) && path in files
    ensures IndexOk(e, files, InsertRows(index, sha, id, Location(StorageOf(e, path), path)))
  {
  }

  /** One more row, for a body in a file that is there, beside rows that stand. */
  lemma InsertedRowOk<K(!new)>(
      e: Env, files: map<Path, seq<byte>>, tears: map<Path, Tear>, rows: map<K, Location>, bodies: map<K, seq<byte>>,
      behind: set<K>, k: K, here: Location, body: seq<byte>, torn: bool)
    requires RowsOk(e, files, tears, rows, bodies, behind) && k !in rows
    requires !torn ==> Holds(e, files, tears, here, body)
    ensures RowsOk(e, files, tears, rows[k := here], bodies[k := body], if torn then behind + {k} else behind)
  {
    var late := if torn then behind + {k} else behind;
    forall j | j in bodies[k := body] && j !in late
      ensures Holds(e, files, tears, rows[k := here][j], bodies[k := body][j])
    {
      assert j != k ==> Holds(e, files, tears, rows[j], bodies[j]);
    }
  }

  lemma CommitBodiesOk(e: Env, s: Store)
    requires BodiesOk(e, s.files, s.tears, s.index, s.past) && WriterOk(e, s)
    ensures BodiesOk(e, s.files, s.tears, CommitPending(e, s).index, CommitPending(e, s).past)
  {
    if s.pending.Some? && s.pending.value.id !in s.index.events {
      var Pending(path, id, body) := s.pending.value;
      var here, torn, sha := Location(StorageOf(e, path), path), path in s.tears, e.sha256(body);
      InsertedRowOk(e, s.files, s.tears, s.index.events, s.past.logged, s.past.late, id, here, body, torn);
      if sha !in s.index.blobs {
        InsertedRowOk(e, s.files, s.tears, s.index.blobs, s.past.recorded, s.past.behind, sha, here, body, torn);
      }
    }
  }

  lemma InsertKeepsUnreferenced(index: Index, sha: Sha, id: string, here: Location, path: Path)
    requires Unreferenced(index, path) && here.path != path
    ensures Unreferenced(InsertRows(index, sha, id, here), path)
  {
  }

  lemma CommitRestOk(e: Env, s: Store)
    requires WriterOk(e, s) && JobOk(e, s)
    ensures WriterOk(e, CommitPending(e, s)) && JobOk(e, CommitPending(e, s))
  {
    if s.pending.Some? && s.job.Job? && (s.job.stage == IndexMoved || s.job.stage == SourceRemoved) {
      var Pending(path, id, body) := s.pending.value;
      InsertKeepsUnreferenced(s.index, e.sha256(body), id, Location(StorageOf(e, path), path), s.job.src);
    }
  }

  lemma CommitKeeps(e: Env, s: Store)
    requires Inv(e, s)
    ensures Inv(e, CommitPending(e, s))
  {
    if s.pending.Some? {
      var Pending(path, id, body) := s.pending.value;
      InsertedRowsOk(e, s.files, s.index, e.sha256(body), id, path);
    }
    CommitBodiesOk(e, s);
    CommitRestOk(e, s);
  }

  /** A file is its clean part and something behind it. */
  lemma CleanPrefix(e: Env, s: Store, path: Path) returns (more: seq<byte>)
    requires ContentsOk(e, s) && path in s.files
    ensures var clean := CleanPart(s.files, s.tears, path);
            e.scans(clean) && s.files[path] == clean + more
  {
    assert FileOk(e, s.files[path], TearAt(s.tears, path));
    var clean := CleanPart(s.files, s.tears, path);
    more := s.files[path][|clean|..];
  }

  lemma SealedKeeps(e: Env, s: Store, path: Path)
    requires e.Lawful() && ContentsOk(e, s) && path in s.files && path !in s.manifests
    ensures ContentsOk(e, Sealed(e, s, path))
  {
    var more := CleanPrefix(e, s, path);
    var clean := CleanPart(s.files, s.tears, path);
    assert e.RecoverLaw(clean, more);
    if e.recover(s.files[path]).Some? {
      ReplacedFileKeeps(e, s, path, e.recover(s.files[path]).value, None);
    }
  }

  lemma SealedKeepsJob(e: Env, s: Store, path: Path)
    requires JobOk(e, s) && path in s.files && (s.job.Job? ==> path != s.job.src && path != s.job.dest)
    ensures JobOk(e, Sealed(e, s, path))
  {
  }

  lemma SealActiveKeeps(e: Env, s: Store)
    requires e.Lawful() && Inv(e, s)
    ensures Inv(e, SealActive(e, s))
  {
    if s.active.Some? && s.pending.None? {
      SealedKeeps(e, s, s.active.value);
      SealedKeepsJob(e, s, s.active.value);
    }
  }

  lemma SealOrphanKeeps(e: Env, s: Store, path: Path)
    requires e.Lawful() && Inv(e, s)
    ensures Inv(e, SealOrphan(e, s, path))
  {
    if !Held(s, path) && path in s.files && path !in s.manifests {
      SealedKeeps(e, s, path);
      SealedKeepsJob(e, s, path);
    }
  }

  lemma StartDrainKeeps(e: Env, s: Store, src: Path, dest: Path)
    requires Inv(e, s)
    ensures Inv(e, StartDrain(e, s, src, dest))
  {
  }

  /** A file that turns out to scan keeps the bodies of its clean part. */
  lemma ScanningFileKeeps(e: Env, s: Store, path: Path)
    requires e.Lawful() && ContentsOk(e, s) && path in s.files && e.scans(s.files[path])
    ensures ContentsOk(e, s.(tears := s.tears - {path}))
  {
    if path in s.tears {
      var more := CleanPrefix(e, s, path);
      assert e.RecoverLaw(CleanPart(s.files, s.tears, path), more) && e.RecoverLaw(s.files[path], []);
      ReplacedFileKeeps(e, s, path, s.files[path], None);
      assert s.files[path := s.files[path]] == s.files;
    } else {
      assert s.tears - {path} == s.tears;
    }
  }

  lemma CopyNewContentsOk(e: Env, s: Store, src: Path, dest: Path)
    requires ContentsOk(e, s) && src in s.manifests && src in s.files && dest !in s.files && !e.isSpool(dest)
    ensures ContentsOk(e, s.(files := s.files[dest := s.files[src]], tears := s.tears - {dest}))
  {
    assert FileOk(e, s.files[src], TearAt(s.tears, src));
    ReplacedFileKeeps(e, s, dest, s.files[src], None);
  }

  lemma CopyContentsOk(e: Env, s: Store, src: Path, dest: Path)
    requires e.Lawful() && ContentsOk(e, s) && src in s.manifests && !e.isSpool(dest)
    ensures ContentsOk(e, CopySegment(e, s, src, dest))
  {
    if src in s.files {
      if dest !in s.files {
        CopyNewContentsOk(e, s, src, dest);
      } else if e.sha256(s.files[dest]) == e.sha256(s.files[src]) {
        assert FileOk(e, s.files[src], TearAt(s.tears, src));
        ScanningFileKeeps(e, s, dest);
      }
    }
  }

  lemma CopySegmentKeeps(e: Env, s: Store)
    requires e.Lawful() && Inv(e, s) && s.job.Job? && s.job.stage == Locked
    ensures Inv(e, CopySegment(e, s, s.job.src, s.job.dest))
  {
    CopyContentsOk(e, s, s.job.src, s.job.dest);
    CopyRestOk(e, s);
  }

  lemma CopyRestOk(e: Env, s: Store)
    requires e.CollisionFree() && WriterOk(e, s) && JobOk(e, s) && s.job.Job?
    requires s.job.dest in s.tears ==> s.job.dest in s.files
    ensures var t := CopySegment(e, s, s.job.src, s.job.dest);
            WriterOk(e, t) && JobOk(e, t)
  {
  }

  lemma CopyManifestContentsOk(e: Env, s: Store, src: Path, dest: Path)
    requires ContentsOk(e, s) && src in s.files && dest in s.files && s.files[dest] == s.files[src] && dest !in s.tears
    ensures ContentsOk(e, CopyManifest(s, src, dest))
  {
    assert src in s.manifests ==> s.manifests[src] == ManifestOf(e, s.files[src]);
  }

  lemma CopyManifestKeeps(e: Env, s: Store)
    requires Inv(e, s) && s.job.Job? && s.job.stage == SegmentCopied
    ensures Inv(e, CopyManifest(s, s.job.src, s.job.dest))
  {
    CopyManifestContentsOk(e, s, s.job.src, s.job.dest);
    CopyManifestRestOk(e, s);
  }

  lemma CopyManifestFields(s: Store, src: Path, dest: Path)
    ensures var t := CopyManifest(s, src, dest);
            && t.files == s.files && t.tears == s.tears && t.past == s.past && t.index == s.index
            && t.active == s.active && t.pending == s.pending
            && (t.job.NoJob? || t.job == Job(src, dest, ManifestCopied))
            && s.manifests.Keys <= t.manifests.Keys <= s.manifests.Keys + {dest}
  {
  }

  lemma CopyManifestRestOk(e: Env, s: Store)
    requires WriterOk(e, s) && JobOk(e, s) && s.job.Job? && s.job.stage == SegmentCopied
    ensures var t := CopyManifest(s, s.job.src, s.job.dest);
            WriterOk(e, t) && JobOk(e, t)
  {
    CopyManifestFields(s, s.job.src, s.job.dest);
  }

  lemma MoveIndexKeeps(e: Env, s: Store)
    requires Inv(e, s) && s.job.Job? && s.job.stage == ManifestCopied
    ensures Inv(e, DrainWrite(e, s))
  {
    MovedBodiesOk(e, s);
    MovedIndexOk(e, s);
  }

  /** Moving the rows of one file to an equal copy. */
  lemma MovedRowsOk<K(!new)>(
      e: Env, s: Store, rows: map<K, Location>, bodies: map<K, seq<byte>>, behind: set<K>, src: Path, dest: Path)
    requires RowsOk(e, s.files, s.tears, rows, bodies, behind)
    requires src in s.files && dest in s.files && s.files[dest] == s.files[src] && src !in s.tears && dest !in s.tears
    ensures RowsOk(e, s.files, s.tears, map k | k in rows :: MoveRow(rows[k], src, dest), bodies, behind)
  {
    var moved := map k | k in rows :: MoveRow(rows[k], src, dest);
    assert moved.Keys == rows.Keys;
    forall k | k in bodies && k !in behind
      ensures Holds(e, s.files, s.tears, moved[k], bodies[k])
    {
      assert Holds(e, s.files, s.tears, rows[k], bodies[k]);
    }
  }

  lemma MovedBodiesOk(e: Env, s: Store)
    requires Inv(e, s) && s.job.Job? && s.job.stage == ManifestCopied
    ensures BodiesOk(e, s.files, s.tears, DrainWrite(e, s).index, s.past)
  {
    var src, dest := s.job.src, s.job.dest;
    MovedRowsOk(e, s, s.index.blobs, s.past.recorded, s.past.behind, src, dest);
    MovedRowsOk(e, s, s.index.events, s.past.logged, s.past.late, src, dest);
  }

  lemma MovedPlaced<K(!new)>(e: Env, s: Store, rows: map<K, Location>, k: K)
    requires JobOk(e, s) && s.job.Job? && s.job.stage == ManifestCopied && k in rows
    requires Placed(e, s.files, rows[k]) && rows[k].path in s.index.segments
    ensures var l := MoveRow(rows[k], s.job.src, s.job.dest);
            Placed(e, s.files, l) && l.path != s.job.src && l.path in MoveIndex(s.index, s.job.src, s.job.dest).segments
  {
  }

  lemma MovedIndexOk(e: Env, s: Store)
    requires Inv(e, s) && s.job.Job? && s.job.stage == ManifestCopied
    ensures IndexOk(e, s.files, DrainWrite(e, s).index) && Unreferenced(DrainWrite(e, s).index, s.job.src)
  {
    var src, t := s.job.src, MoveIndex(s.index, s.job.src, s.job.dest);
    forall sha | sha in t.blobs
      ensures Placed(e, s.files, t.blobs[sha]) && t.blobs[sha].path != src && t.blobs[sha].path in t.segments
    {
      MovedPlaced(e, s, s.index.blobs, sha);
    }
    forall id | id in t.events
      ensures Placed(e, s.files, t.events[id]) && t.events[id].path != src && t.events[id].path in t.segments
    {
      MovedPlaced(e, s, s.index.events, id);
    }
  }

  /** A file no row refers to may go. */
  lemma RemovedFileKeeps(e: Env, s: Store, path: Path)
    requires ContentsOk(e, s) && Unreferenced(s.index, path) && e.isSpool(path) && path !in s.tears
    ensures ContentsOk(e, s.(files := s.files - {path}))
  {
    var t := s.(files := s.files - {path});
    forall p | p in t.files
      ensures FileOk(e, t.files[p], TearAt(t.tears, p))
    {
      assert FileOk(e, s.files[p], TearAt(s.tears, p));
    }
    RemovedRowsOk(e, s, s.index.blobs, s.past.recorded, s.past.behind, path);
    RemovedRowsOk(e, s, s.index.events, s.past.logged, s.past.late, path);
  }

  lemma RemovedRowsOk<K(!new)>(
      e: Env, s: Store, rows: map<K, Location>, bodies: map<K, seq<byte>>, behind: set<K>, path: Path)
    requires RowsOk(e, s.files, s.tears, rows, bodies, behind) && forall k | k in rows :: rows[k].path != path
    ensures RowsOk(e, s.files - {path}, s.tears, rows, bodies, behind)
  {
    forall k | k in bodies && k !in behind
      ensures Holds(e, s.files - {path}, s.tears, rows[k], bodies[k])
    {
      assert Holds(e, s.files, s.tears, rows[k], bodies[k]);
    }
  }

  lemma RemoveSourceKeeps(e: Env, s: Store)
    requires Inv(e, s) && s.job.Job? && s.job.stage == IndexMoved
    ensures Inv(e, DrainWrite(e, s))
  {
    RemovedFileKeeps(e, s, s.job.src);
  }

  lemma DrainWriteKeeps(e: Env, s: Store)
    requires e.Lawful() && Inv(e, s)
    ensures Inv(e, DrainWrite(e, s))
  {
    if s.job.Job? {
      match s.job.stage {
        case Locked => CopySegmentKeeps(e, s);
        case SegmentCopied => CopyManifestKeeps(e, s);
        case ManifestCopied => MoveIndexKeeps(e, s);
        case IndexMoved => RemoveSourceKeeps(e, s);
        case SourceRemoved =>
      }
    }
  }

  lemma StepKeeps(e: Env, s: Store, step: Step)
    requires e.Lawful() && Inv(e, s)
    ensures Inv(e, Next(e, s, step))
  {
    match step {
      case DoOpen(path) => OpenKeeps(e, s, path);
      case DoOpenCut(path, n) => OpenCutKeeps(e, s, path, n);
      case DoAppend(id, body) => AppendKeeps(e, s, id, body);
      case DoTear(id, body, cut) => TearKeeps(e, s, id, body, cut);
      case DoCommit => CommitKeeps(e, s);
      case DoAbandon =>
      case DoSeal => SealActiveKeeps(e, s);
      case DoSealOrphan(path) => SealOrphanKeeps(e, s, path);
      case DoStartDrain(src, dest) => StartDrainKeeps(e, s, src, dest);
      case DoDrainWrite => DrainWriteKeeps(e, s);
      case DoCrash =>
    }
  }

  // ---------------------------------------------------------------- runs

  function Run(e: Env, s: Store, steps: seq<Step>): Store {
    if steps == [] then s else Next(e, Run(e, s, steps[..|steps| - 1]), steps[|steps| - 1])
  }

  const EMPTY := Store(map[], map[], map[], Index(map[], map[], map[]), None, None, NoJob, map[],
                       History(map[], {}, map[], {}))

  lemma {:induction false} RunKeeps(e: Env, steps: seq<Step>)
    requires e.Lawful()
    ensures Inv(e, Run(e, EMPTY, steps))
  {
    if steps != [] {
      RunKeeps(e, steps[..|steps| - 1]);
      StepKeeps(e, Run(e, EMPTY, steps[..|steps| - 1]), steps[|steps| - 1]);
    }
  }

  /** The drain never loses a body. After every step of every run, torn writes, crashes and careless
      retries included, a committed hash whose frame is not behind a tear reads back as the body first
      committed under it exactly while the file it is in scans, which it does unless a write was cut
      short in it; and once that file is recovered it reads back, which succeeds unless something was
      written behind the tear. A file with a manifest has the bytes the manifest proves. */
  lemma EveryBodyStaysReadable(e: Env, steps: seq<Step>, sha: Sha)
    requires e.Lawful() && sha in Run(e, EMPTY, steps).past.recorded && sha !in Run(e, EMPTY, steps).past.behind
    ensures var s := Run(e, EMPTY, steps);
            && sha in s.index.blobs && s.index.blobs[sha].path in s.files
            && var path := s.index.blobs[sha].path;
               && (ReadBlob(e, s, sha) == Some(s.past.recorded[sha]) <==> e.scans(s.files[path]))
               && (path !in s.tears ==> e.scans(s.files[path]))
               && (path in s.tears && !s.tears[path].buried ==>
                     ReadBlob(e, s, sha) == None && e.recover(s.files[path]).Some?)
               && (e.recover(s.files[path]).Some? ==>
                     ReadBlob(e, Sealed(e, s, path), sha) == Some(s.past.recorded[sha]))
               && (path in s.manifests ==>
                     && s.manifests[path].sha == e.sha256(s.files[path])
                     && s.manifests[path].segmentBytes == |s.files[path]|)
  {
    RunKeeps(e, steps);
    var s := Run(e, EMPTY, steps);
    assert Holds(e, s.files, s.tears, s.index.blobs[sha], s.past.recorded[sha]);
    var path := s.index.blobs[sha].path;
    assert FileOk(e, s.files[path], TearAt(s.tears, path));
    var more := CleanPrefix(e, s, path);
    assert e.RecoverLaw(CleanPart(s.files, s.tears, path), more);
    if e.scans(s.files[path]) {
      assert e.RecoverLaw(s.files[path], []);
    }
  }

  /** No event is ever lost. After every step of every run the index has exactly the events that were
      committed; each names a file that is there, in the tree its storage says, with a row of its own, and
      that file's clean part holds the event's body, unless it was written behind a tear. */
  lemma EveryEventStaysPlaced(e: Env, steps: seq<Step>)
    requires e.Lawful()
    ensures var s := Run(e, EMPTY, steps);
            && s.index.events.Keys == s.past.logged.Keys
            && (forall id | id in s.past.logged ::
                  var l := s.index.events[id];
                  && l.path in s.files && l.path in s.index.segments
                  && l.storage == s.index.segments[l.path]
                  && l.storage == if e.isSpool(l.path) then SpoolSegment else ArchiveSegment)
            && (forall id | id in s.past.logged && id !in s.past.late ::
                  Holds(e, s.files, s.tears, s.index.events[id], s.past.logged[id]))
  {
    RunKeeps(e, steps);
    var s := Run(e, EMPTY, steps);
    forall id | id in s.past.logged
      ensures Placed(e, s.files, s.index.events[id]) && s.index.events[id].path in s.index.segments
    {
      assert id in s.index.events;
    }
  }

  /** A new segment is empty and active; one whose creation is cut short is left without a writer. */
  lemma OpeningLeaves(e: Env, s: Store, path: Path, n: nat)
    requires !Taken(s, path)
    ensures Next(e, s, DoOpen(path)) == s.(files := s.files[path := e.newFile], active := Some(path))
    ensures var t := Next(e, s, DoOpenCut(path, n));
            && t.active.None? && t.index == s.index
            && (n < |e.newFile| ==> path in t.stubs && t.stubs[path] == e.newFile[..n] && t.files == s.files)
            && (n >= |e.newFile| ==> path in t.files && t.files[path] == e.newFile && t.stubs == s.stubs)
  {
  }

  /** A commit under a new id indexes its event, and its hash unless that is indexed already, at the segment that
      holds the frame. */
  lemma CommitIndexes(e: Env, s: Store)
    requires s.pending.Some? && s.pending.value.id !in s.index.events
    ensures var Pending(path, id, body) := s.pending.value;
            var t, sha := Next(e, s, DoCommit), e.sha256(body);
            var here := Location(if e.isSpool(path) then SpoolSegment else ArchiveSegment, path);
            && t.pending.None? && t.files == s.files
            && t.index.events == s.index.events[id := here]
            && t.index.blobs == (if sha in s.index.blobs then s.index.blobs else s.index.blobs[sha := here])
            && t.index.segments == s.index.segments[path := here.storage]
  {
  }

  /** A frame whose commit is given up, or lost in a crash, stays in its file without a row. */
  lemma AbandonedStaysInFile(e: Env, s: Store)
    ensures Next(e, s, DoAbandon) == s.(pending := None)
    ensures Next(e, s, DoCrash) == s.(active := None, pending := None, job := NoJob)
  {
  }

  /** Sealing, by the writer or by recovery, leaves what a recovering scan leaves, with a manifest of exactly
      that; a file no scan recovers stays as it is. */
  lemma SealingLeaves(e: Env, s: Store, path: Path)
    requires path in s.files && s.pending.None?
    ensures s.active == Some(path) ==> Next(e, s, DoSeal).active.None?
    ensures var t := Next(e, s, if s.active == Some(path) then DoSeal else DoSealOrphan(path));
            s.active == Some(path) || (!Held(s, path) && path !in s.manifests) ==>
              && t.index == s.index
              && (match e.recover(s.files[path])
                  case None => t.files == s.files && t.manifests == s.manifests
                  case Some(bytes) =>
                    && t.files == s.files[path := bytes]
                    && t.manifests == s.manifests[path := Manifest(e.sha256(bytes), |bytes|)])
  {
  }

  /** One step of the table: nothing goes, and only a drain moves a row, from its source to its copy. */
  ghost predicate RowsFollow<K(!new)>(was: map<K, Location>, now: map<K, Location>, job: Job) {
    forall k | k in was ::
      && k in now
      && (now[k] == was[k]
          || (job.Job? && was[k] == Location(SpoolSegment, job.src) && now[k] == Location(ArchiveSegment, job.dest)))
  }

  lemma DrainMovesRows(e: Env, s: Store)
    ensures RowsFollow(s.index.blobs, DrainWrite(e, s).index.blobs, s.job)
    ensures RowsFollow(s.index.events, DrainWrite(e, s).index.events, s.job)
  {
    if s.job.Job? && s.job.stage == ManifestCopied {
      var t := MoveIndex(s.index, s.job.src, s.job.dest);
      assert DrainWrite(e, s).index == t;
    } else {
      assert DrainWrite(e, s).index == s.index;
    }
  }

  /** A row, once committed, stays where it is until a drain moves it. */
  lemma RowsStayUnlessDrained(e: Env, s: Store, step: Step)
    ensures RowsFollow(s.index.blobs, Next(e, s, step).index.blobs, s.job)
    ensures RowsFollow(s.index.events, Next(e, s, step).index.events, s.job)
  {
    if step.DoDrainWrite? {
      DrainMovesRows(e, s);
    } else if !step.DoCommit? {
      assert Next(e, s, step).index == s.index;
    }
  }

  // ---------------------------------------------------------------- torn writes

  /** No frame is appended while the active file has a torn write in it: the segment is sealed, or the
      process restarted, first. */
  ghost predicate Careful(e: Env, steps: seq<Step>) {
    forall n | 0 <= n < |steps| && (steps[n].DoAppend? || steps[n].DoTear?) :: ActiveWhole(Run(e, EMPTY, steps[..n]))
  }

  ghost predicate ActiveWhole(s: Store) { s.active.Some? ==> s.active.value !in s.tears }

  /** Nothing stands behind a tear, and no commit waits for a frame in a torn file. */
  ghost predicate NothingBuried(s: Store) {
    && s.past.behind == {} && s.past.late == {}
    && (forall path | path in s.tears :: !s.tears[path].buried)
    && (s.pending.Some? ==> s.pending.value.path !in s.tears)
  }

  lemma WriteBuriesNothing(e: Env, s: Store, id: string, body: seq<byte>, cut: nat)
    requires NothingBuried(s) && ActiveWhole(s)
    ensures NothingBuried(AppendFrame(e, s, id, body)) && NothingBuried(TearFrame(e, s, id, body, cut))
  {
  }

  lemma SealBuriesNothing(e: Env, s: Store, path: Path)
    requires NothingBuried(s)
    ensures NothingBuried(SealActive(e, s)) && NothingBuried(SealOrphan(e, s, path))
  {
  }

  /** The drain only ever takes a tear away. */
  lemma DrainTouchesTears(e: Env, s: Store)
    ensures var t := DrainWrite(e, s);
            && t.past == s.past && t.pending == s.pending
            && (t.tears == s.tears || (s.job.Job? && t.tears == s.tears - {s.job.dest}))
  {
    if s.job.Job? {
      match s.job.stage {
        case Locked =>
        case SegmentCopied =>
        case ManifestCopied =>
        case IndexMoved =>
        case SourceRemoved =>
      }
    }
  }

  lemma DrainBuriesNothing(e: Env, s: Store)
    requires NothingBuried(s)
    ensures NothingBuried(DrainWrite(e, s))
  {
    DrainTouchesTears(e, s);
  }

  lemma StepBuriesNothing(e: Env, s: Store, step: Step)
    requires NothingBuried(s) && (step.DoAppend? || step.DoTear? ==> ActiveWhole(s))
    ensures NothingBuried(Next(e, s, step))
  {
    match step {
      case DoOpen(_) =>
      case DoOpenCut(_, _) =>
      case DoAppend(id, body) => WriteBuriesNothing(e, s, id, body, 0);
      case DoTear(id, body, cut) => WriteBuriesNothing(e, s, id, body, cut);
      case DoCommit =>
      case DoAbandon =>
      case DoSeal => SealBuriesNothing(e, s, "");
      case DoSealOrphan(path) => SealBuriesNothing(e, s, path);
      case DoStartDrain(_, _) =>
      case DoDrainWrite => DrainBuriesNothing(e, s);
      case DoCrash =>
    }
  }

  lemma {:induction false} CarefulRunBuriesNothing(e: Env, steps: seq<Step>)
    requires Careful(e, steps)
    ensures NothingBuried(Run(e, EMPTY, steps))
    decreases |steps|
  {
    if steps != [] {
      CarefulBefore(e, steps);
      CarefulRunBuriesNothing(e, steps[..|steps| - 1]);
      StepBuriesNothing(e, Run(e, EMPTY, steps[..|steps| - 1]), steps[|steps| - 1]);
    }
  }

  lemma CarefulBefore(e: Env, steps: seq<Step>)
    requires Careful(e, steps) && steps != []
    ensures Careful(e, steps[..|steps| - 1])
  {
    var before := steps[..|steps| - 1];
    forall k | 0 <= k < |before| && (before[k].DoAppend? || before[k].DoTear?)
      ensures ActiveWhole(Run(e, EMPTY, before[..k]))
    {
      assert before[..k] == steps[..k] && before[k] == steps[k];
    }
  }

  /** In a careful run recovery succeeds on every segment with a whole magic, every event's file holds its
      body, and every committed hash reads back once its segment is recovered; recovery fails on every segment
      without one, and no row refers to such a segment. */
  lemma CarefulRunLosesNothing(e: Env, steps: seq<Step>)
    requires e.Lawful() && Careful(e, steps)
    ensures var s := Run(e, EMPTY, steps);
            && (forall path | path in s.files :: e.recover(s.files[path]).Some?)
            && (forall path | path in s.stubs ::
                  e.recover(s.stubs[path]) == None && !e.scans(s.stubs[path]) && Unreferenced(s.index, path))
            && (forall id | id in s.past.logged ::
                  id in s.index.events && Holds(e, s.files, s.tears, s.index.events[id], s.past.logged[id]))
            && (forall sha | sha in s.past.recorded ::
                  && sha in s.index.blobs && s.index.blobs[sha].path in s.files
                  && ReadBlob(e, Sealed(e, s, s.index.blobs[sha].path), sha) == Some(s.past.recorded[sha]))
  {
    var s := Run(e, EMPTY, steps);
    CarefulRunBuriesNothing(e, steps);
    RunKeeps(e, steps);
    forall path | path in s.files
      ensures e.recover(s.files[path]).Some?
    {
      assert FileOk(e, s.files[path], TearAt(s.tears, path));
      assert e.RecoverLaw(s.files[path], []);
    }
    forall path | path in s.stubs
      ensures e.recover(s.stubs[path]) == None && !e.scans(s.stubs[path])
    {
      assert e.StubLaw(|s.stubs[path]|);
    }
    forall sha | sha in s.past.recorded
      ensures sha in s.index.blobs && s.index.blobs[sha].path in s.files
      ensures ReadBlob(e, Sealed(e, s, s.index.blobs[sha].path), sha) == Some(s.past.recorded[sha])
    {
      EveryBodyStaysReadable(e, steps, sha);
    }
  }

  lemma RunSnoc(e: Env, steps: seq<Step>, step: Step)
    ensures Run(e, EMPTY, steps + [step]) == Next(e, Run(e, EMPTY, steps), step)
  {
    assert (steps + [step])[..|steps|] == steps;
  }

  /** The failing case, from every state: when a write to the active segment is cut short and the process
      dies, no body in that segment can be read; once recovery has sealed it, all of them can. */
  lemma TornWriteHidesBodies(e: Env, s: Store, id: string, body: seq<byte>, cut: nat, sha: Sha)
    requires e.Lawful() && Inv(e, s) && s.active.Some? && s.pending.None? && s.job.NoJob? && s.active.value !in s.tears
    requires e.encode(s.active.value, id, body).Some? && 0 < cut < |e.encode(s.active.value, id, body).value|
    requires sha in s.past.recorded && sha !in s.past.behind && s.index.blobs[sha].path == s.active.value
    ensures var torn := Crashed(TearFrame(e, s, id, body, cut));
            && ReadBlob(e, s, sha) == Some(s.past.recorded[sha])
            && ReadBlob(e, torn, sha) == None
            && ReadBlob(e, SealOrphan(e, torn, s.active.value), sha) == Some(s.past.recorded[sha])
  {
    var path := s.active.value;
    assert FileOk(e, s.files[path], TearAt(s.tears, path));
    assert Holds(e, s.files, s.tears, s.index.blobs[sha], s.past.recorded[sha]);
    assert e.TornLaw(s.files[path], path, id, body, cut);
    var torn := Crashed(TearFrame(e, s, id, body, cut));
    assert torn.files[path] == s.files[path] + e.encode(path, id, body).value[..cut];
  }

  /** And such a state is reached: one segment, one committed body. */
  lemma FirstCommit(e: Env, path: Path, id: string, body: seq<byte>) returns (s: Store)
    requires e.encode(path, id, body).Some?
    ensures s == Run(e, EMPTY, [DoOpen(path)] + [DoAppend(id, body)] + [DoCommit])
    ensures s.active == Some(path) && s.pending.None? && s.job.NoJob? && s.tears == map[] && s.past.behind == {}
    ensures e.sha256(body) in s.past.recorded && s.past.recorded[e.sha256(body)] == body
    ensures e.sha256(body) in s.index.blobs && s.index.blobs[e.sha256(body)].path == path
  {
    assert [] + [DoOpen(path)] == [DoOpen(path)];
    RunSnoc(e, [], DoOpen(path));
    RunSnoc(e, [DoOpen(path)], DoAppend(id, body));
    RunSnoc(e, [DoOpen(path)] + [DoAppend(id, body)], DoCommit);
    s := Run(e, EMPTY, [DoOpen(path)] + [DoAppend(id, body)] + [DoCommit]);
    var started := OpenSegment(e, EMPTY, path);
    assert started.active == Some(path) && path in started.files;
    var appended := AppendFrame(e, started, id, body);
    assert appended.pending == Some(Pending(path, id, body));
  }

  /** A careless retry: a body is appended to a torn segment and committed. If the bytes behind the tear
      do not happen to read as a frame, the commit is recorded and the body is lost: it cannot be read, and
      if the segment recovers at all it cannot be read then either. */
  lemma CarelessCommitIsLost(e: Env, s: Store, id: string, body: seq<byte>)
    requires Inv(e, s) && s.active.Some? && s.pending.None? && s.active.value in s.tears
    requires e.encode(s.active.value, id, body).Some? && e.sha256(body) !in s.index.blobs && id !in s.index.events
    requires var grown, clean := AppendFrame(e, s, id, body).files[s.active.value], s.tears[s.active.value].clean;
             && !e.scans(grown) && (e.recover(grown) == None || e.recover(grown) == Some(clean))
             && e.find(clean, e.sha256(body)) == None
    ensures var t, sha := CommitPending(e, AppendFrame(e, s, id, body)), e.sha256(body);
            && sha in t.past.recorded && t.past.recorded[sha] == body
            && ReadBlob(e, t, sha) == None && ReadBlob(e, Sealed(e, t, s.active.value), sha) == None
  {
    var grown := AppendFrame(e, s, id, body);
    assert grown.pending == Some(Pending(s.active.value, id, body));
  }

  /** No row of any table ever names a segment that is not there. */
  lemma NoDanglingRows(e: Env, steps: seq<Step>)
    requires e.Lawful()
    ensures IndexOk(e, Run(e, EMPTY, steps).files, Run(e, EMPTY, steps).index)
  {
    RunKeeps(e, steps);
  }

  /** One step only adds to what has been committed. */
  lemma StepKeepsHistory(e: Env, s: Store, step: Step)
    requires s.past.logged.Keys <= s.index.events.Keys
    ensures Grown(s.past, Next(e, s, step).past)
  {
    if step.DoCommit? {
      CommitKeepsHistory(e, s);
    } else {
      OnlyCommitsAddHistory(e, s, step);
    }
  }

  lemma CommitKeepsHistory(e: Env, s: Store)
    requires s.past.logged.Keys <= s.index.events.Keys
    ensures Grown(s.past, CommitPending(e, s).past)
  {
    if s.pending.Some? && s.pending.value.id !in s.index.events {
      RememberedGrows(e, s.past, s.pending.value.id, s.pending.value.body, s.pending.value.path in s.tears);
    }
  }

  lemma RememberedGrows(e: Env, past: History, id: string, body: seq<byte>, torn: bool)
    requires id !in past.logged
    ensures Grown(past, Remembered(e, past, id, body, torn))
  {
    var now := Remembered(e, past, id, body, torn);
    assert forall k | k in past.logged :: k in now.logged && now.logged[k] == past.logged[k];
    assert forall k | k in past.recorded :: k in now.recorded && now.recorded[k] == past.recorded[k];
  }

  ghost predicate Grown(was: History, now: History) {
    Extends(now.recorded, was.recorded) && Extends(now.logged, was.logged)
  }

  lemma OnlyCommitsAddHistory(e: Env, s: Store, step: Step)
    requires !step.DoCommit?
    ensures Next(e, s, step).past == s.past
  {
    if step.DoDrainWrite? {
      DrainTouchesTears(e, s);
    }
  }

  ghost predicate Extends<K(!new)>(now: map<K, seq<byte>>, was: map<K, seq<byte>>) {
    forall k | k in was :: k in now && now[k] == was[k]
  }

  /** History never changes: what was committed under a hash, or as an event, stays what it was. */
  lemma {:induction false} HistoryStays(e: Env, steps: seq<Step>, m: nat)
    requires e.Lawful() && m <= |steps|
    ensures Extends(Run(e, EMPTY, steps).past.recorded, Run(e, EMPTY, steps[..m]).past.recorded)
    ensures Extends(Run(e, EMPTY, steps).past.logged, Run(e, EMPTY, steps[..m]).past.logged)
    decreases |steps|
  {
    if m == |steps| {
      assert steps[..m] == steps;
    } else {
      var before := steps[..|steps| - 1];
      assert before[..m] == steps[..m];
      HistoryStays(e, before, m);
      RunKeeps(e, before);
      StepKeepsHistory(e, Run(e, EMPTY, before), steps[|steps| - 1]);
    }
  }

  // ---------------------------------------------------------------- the drain as it runs

  function Writes(e: Env, s: Store, n: nat): Store
    decreases n
  {
    if n == 0 then s else Writes(e, DrainWrite(e, s), n - 1)
  }

  /** What a drain asks for: a sealed spool file that nobody holds and that has its manifest's checksum, and a
      destination that is free or holds the same file and the same manifest. */
  ghost predicate Drainable(e: Env, s: Store, src: Path, dest: Path) {
    && s.active != Some(src) && s.active != Some(dest)
    && e.isSpool(src) && !e.isSpool(dest)
    && src in s.files && src in s.manifests && s.manifests[src].sha == e.sha256(s.files[src])
    && dest !in s.stubs
    && (dest in s.files ==> e.sha256(s.files[dest]) == e.sha256(s.files[src]))
    && (dest in s.manifests ==> s.manifests[dest] == s.manifests[src])
  }

  class CaptureStore {
    var files: map<Path, seq<byte>>
    var stubs: map<Path, seq<byte>>
    var manifests: map<Path, Manifest>
    var index: Index
    var active: Option<Path>
    var pending: Option<Pending>
    ghost var tears: map<Path, Tear>
    ghost var past: History

    constructor ()
      ensures Value() == EMPTY
    {
      files, stubs, manifests, index := map[], map[], map[], Index(map[], map[], map[]);
      active, pending := None, None;
      tears, past := map[], History(map[], {}, map[], {});
    }

    ghost function Value(): Store
      reads this
    {
      Store(files, stubs, manifests, index, active, pending, NoJob, tears, past)
    }

    /** The store in the middle of a drain. */
    ghost function During(src: Path, dest: Path, stage: Stage): Store
      reads this
    {
      Value().(job := Job(src, dest, stage))
    }

    /** `copy_file_verified` for the segment; a destination that is there must have the same checksum. */
    method CopyVerified(e: Env, src: Path, dest: Path) returns (ok: bool)
      modifies this`files, this`tears
      ensures ok ==> During(src, dest, SegmentCopied) == CopySegment(e, old(During(src, dest, Locked)), src, dest)
      ensures !ok ==> Value() == old(Value()) == CopySegment(e, old(During(src, dest, Locked)), src, dest)
      ensures ok <==>
                && src in old(files) && src in manifests && e.sha256(old(files)[src]) == manifests[src].sha
                && dest !in stubs && (dest in old(files) ==> e.sha256(old(files)[dest]) == e.sha256(old(files)[src]))
      ensures ok ==> files == if dest in old(files) then old(files) else old(files)[dest := old(files)[src]]
    {
      if src !in files || src !in manifests || e.sha256(files[src]) != manifests[src].sha {
        return false;
      }
      if dest in stubs {
        return false;
      }
      ok := dest !in files || e.sha256(files[dest]) == e.sha256(files[src]);
      if ok {
        if dest !in files {
          files := files[dest := files[src]];
        }
        tears := tears - {dest};
      }
    }

    /** The same for the manifest. */
    method CopyManifestVerified(src: Path, dest: Path) returns (ok: bool)
      modifies this`manifests
      ensures ok ==> During(src, dest, ManifestCopied) == CopyManifest(old(During(src, dest, SegmentCopied)), src, dest)
      ensures !ok ==> Value() == old(Value()) == CopyManifest(old(During(src, dest, SegmentCopied)), src, dest)
      ensures ok <==> src in old(manifests) && (dest in old(manifests) ==> old(manifests)[dest] == old(manifests)[src])
      ensures ok ==> manifests == old(manifests)[dest := old(manifests)[src]]
    {
      if src !in manifests {
        return false;
      }
      if dest !in manifests {
        manifests := manifests[dest := manifests[src]];
        return true;
      }
      ok := manifests[dest] == manifests[src];
    }

    /** Both copies: the first two writes of a drain, or all of it if one cannot be made. */
    method CopyBoth(e: Env, src: Path, dest: Path) returns (ok: bool)
      modifies this`files, this`tears, this`manifests
      ensures ok ==> Writes(e, During(src, dest, ManifestCopied), 3) == Writes(e, old(During(src, dest, Locked)), 5)
      ensures !ok ==> Value() == Writes(e, old(During(src, dest, Locked)), 5)
      ensures ok <==>
                && src in old(files) && src in old(manifests)
                && e.sha256(old(files)[src]) == old(manifests)[src].sha
                && dest !in stubs && (dest in old(files) ==> e.sha256(old(files)[dest]) == e.sha256(old(files)[src]))
                && (dest in old(manifests) ==> old(manifests)[dest] == old(manifests)[src])
      ensures ok ==>
                && files == (if dest in old(files) then old(files) else old(files)[dest := old(files)[src]])
                && manifests == old(manifests)[dest := old(manifests)[src]]
      ensures !ok ==>
                && manifests == old(manifests)
                && forall path | path in old(files) :: path in files && files[path] == old(files)[path]
    {
      WritesUnroll(e, During(src, dest, Locked), 5);
      ok := CopyVerified(e, src, dest);
      if !ok {
        IdleWrites(e, Value(), 4);
        return;
      }
      WritesUnroll(e, During(src, dest, SegmentCopied), 4);
      ok := CopyManifestVerified(src, dest);
      if !ok {
        IdleWrites(e, Value(), 3);
      }
    }

    /** The index transaction, then the source and its manifest. */
    method PublishAndRemove(e: Env, src: Path, dest: Path)
      modifies this
      ensures Value() == Writes(e, old(During(src, dest, ManifestCopied)), 3)
      ensures Drained(old(index), index, src, dest)
      ensures active == old(active) && pending == old(pending)
      ensures files == old(files) - {src} && manifests == old(manifests) - {src}
    {
      ghost var s := During(src, dest, ManifestCopied);
      index := MoveIndex(index, src, dest);
      assert During(src, dest, IndexMoved) == DrainWrite(e, s);
      files := files - {src};
      assert During(src, dest, SourceRemoved) == DrainWrite(e, DrainWrite(e, s));
      manifests := manifests - {src};
      WritesUnroll(e, s, 3);
      WritesUnroll(e, DrainWrite(e, s), 2);
      WritesUnroll(e, DrainWrite(e, DrainWrite(e, s)), 1);
    }

    /** Drain one sealed spool segment: copy, copy the manifest, move the index rows, and only then
        remove the source. Uninterrupted, it is the five writes of the step model. Every row of the source
        becomes a row of the copy, and no other row changes. */
    method DrainSegment(e: Env, src: Path, dest: Path) returns (drained: bool)
      modifies this
      ensures drained <==> Drainable(e, old(Value()), src, dest)
      ensures drained ==>
                && files
                   == (old(files) - {src})[dest := if dest in old(files) then old(files)[dest] else old(files)[src]]
                && manifests == (old(manifests) - {src})[dest := old(manifests)[src]]
      ensures !drained ==>
                && manifests == old(manifests)
                && forall path | path in old(files) :: path in files && files[path] == old(files)[path]
      ensures Value() == Writes(e, StartDrain(e, old(Value()), src, dest), 5)
      ensures active == old(active) && pending == old(pending)
      ensures drained ==> src !in files && src !in manifests && dest in files && dest in manifests
      ensures if drained then Drained(old(index), index, src, dest) else index == old(index)
    {
      drained := false;
      if active == Some(src) || active == Some(dest) || !e.isSpool(src) || e.isSpool(dest) || src !in manifests {
        IdleWrites(e, Value(), 5);
        return;
      }
      drained := CopyBoth(e, src, dest);
      if drained {
        PublishAndRemove(e, src, dest);
        ReplacedByCopy(old(files), src, dest);
        ReplacedByCopy(old(manifests), src, dest);
      }
    }
  }

  lemma ReplacedByCopy<V>(m: map<Path, V>, src: Path, dest: Path)
    requires src in m && src != dest
    ensures m[dest := m[src]] - {src} == (m - {src})[dest := m[src]]
    ensures dest in m ==> m - {src} == (m - {src})[dest := m[dest]]
  {
  }

  lemma WritesUnroll(e: Env, s: Store, n: nat)
    requires n > 0
    ensures Writes(e, s, n) == Writes(e, DrainWrite(e, s), n - 1)
  {
  }

  lemma {:induction false} IdleWrites(e: Env, s: Store, n: nat)
    requires s.job.NoJob?
    ensures Writes(e, s, n) == s
  {
    if n > 0 {
      IdleWrites(e, s, n - 1);
    }
  }

  // ---------------------------------------------------------------- the real format

  function FindBody(frames: seq<SegmentFrame>, sha: Sha): Option<seq<byte>> {
    if frames == [] then None
    else if frames[0].record.bodySha256 == sha then Some(frames[0].body)
    else FindBody(frames[1..], sha)
  }

  /** `read_body_from_segment`. */
  function BodyFromSegment(p: Primitives, bytes: seq<byte>, sha: Sha): Option<seq<byte>> {
    match ScanFile(p, bytes, false).result
    case Err(_) => None
    case Ok(frames) => FindBody(frames, sha)
  }

  /** The record a capture builds; it describes its own body. */
  type Describe = (Path, string, seq<byte>) -> BodyRecord

  ghost predicate Truthful(p: Primitives, describe: Describe) {
    forall path: Path, id: string, body: seq<byte> {:trigger describe(path, id, body)} ::
      describe(path, id, body).bodySha256 == p.sha256(body) && describe(path, id, body).bodyBytes == |body|
  }

  function SegmentFrameFor(p: Primitives, record: BodyRecord, body: seq<byte>): Option<seq<byte>> {
    match EncodeResult(p, record, body) case Err(_) => None case Ok(x) => Some(x.frame)
  }

  /** What a recovering scan leaves in the file, if it succeeds. */
  function RecoveredBytes(p: Primitives, bytes: seq<byte>): Option<seq<byte>> {
    var scan := ScanFile(p, bytes, true);
    if scan.result.Ok? then Some(scan.bytes) else None
  }

  function SegmentEnv(p: Primitives, describe: Describe, isSpool: Path -> bool): Env {
    Env(p.sha256, isSpool, SEGMENT_MAGIC,
        (path: Path, id: string, body: seq<byte>) => SegmentFrameFor(p, describe(path, id, body), body),
        (bytes: seq<byte>) => ScanFile(p, bytes, false).result.Ok?,
        (bytes: seq<byte>) => RecoveredBytes(p, bytes),
        (bytes: seq<byte>, sha: Sha) => BodyFromSegment(p, bytes, sha))
  }

  lemma {:induction false} FindAppended(fs: seq<SegmentFrame>, f: SegmentFrame, sha: Sha)
    ensures FindBody(fs + [f], sha)
         == if FindBody(fs, sha).Some? then FindBody(fs, sha)
            else if f.record.bodySha256 == sha then Some(f.body) else None
    decreases |fs|
  {
    if fs == [] {
      assert fs + [f] == [f] && [f][1..] == [];
    } else {
      assert (fs + [f])[1..] == fs[1..] + [f];
      FindAppended(fs[1..], f, sha);
    }
  }

  lemma {:induction false} FoundIsMember(fs: seq<SegmentFrame>, sha: Sha) returns (f: SegmentFrame)
    requires FindBody(fs, sha).Some?
    ensures f in fs && f.record.bodySha256 == sha && f.body == FindBody(fs, sha).value
    decreases |fs|
  {
    if fs[0].record.bodySha256 == sha {
      f := fs[0];
    } else {
      f := FoundIsMember(fs[1..], sha);
    }
  }

  /** A body found under a hash has that hash. */
  lemma FoundBodyHasHash(p: Primitives, bytes: seq<byte>, fs: seq<SegmentFrame>, sha: Sha)
    requires ScanFile(p, bytes, false).result == Ok(fs) && FindBody(fs, sha).Some?
    ensures p.sha256(FindBody(fs, sha).value) == sha
  {
    ReadOnlyScan(p, bytes, fs);
    ScannedBodiesMatch(p, bytes[8..]);
    var f := FoundIsMember(fs, sha);
  }

  /** Appending an encoded frame to a scanned file, in terms of the bodies found in it. */
  lemma AppendedBodies(p: Primitives, bytes: seq<byte>, record: BodyRecord, body: seq<byte>, sha: Sha)
    requires p.Sound() && ScanFile(p, bytes, false).result.Ok? && SegmentFrameFor(p, record, body).Some?
    requires record.bodyBytes == |body| && record.bodySha256 == p.sha256(body)
    ensures var longer := bytes + SegmentFrameFor(p, record, body).value;
            && ScanFile(p, longer, false).result.Ok?
            && BodyFromSegment(p, longer, sha)
               == if BodyFromSegment(p, bytes, sha).Some? then BodyFromSegment(p, bytes, sha)
                  else if p.sha256(body) == sha then Some(body) else None
  {
    var written := EncoderWritesWellFormedFrames(p, record, body);
    var frame, fs := SegmentFrame(written, body), ScanFile(p, bytes, false).result.value;
    AppendScans(p, bytes, fs, frame);
    FindAppended(fs, frame, sha);
  }

  lemma SegmentAppendLaw(
      p: Primitives, describe: Describe, isSpool: Path -> bool, bytes: seq<byte>, path: Path, id: string,
      body: seq<byte>)
    requires p.Sound() && Truthful(p, describe) && SegmentEnv(p, describe, isSpool).CollisionFree()
    ensures SegmentEnv(p, describe, isSpool).AppendLaw(bytes, path, id, body)
  {
    var e := SegmentEnv(p, describe, isSpool);
    if e.scans(bytes) && e.encode(path, id, body).Some? {
      var record, own := describe(path, id, body), p.sha256(body);
      AppendedBodies(p, bytes, record, body, own);
      if BodyFromSegment(p, bytes, own).Some? {
        FoundBodyHasHash(p, bytes, ScanFile(p, bytes, false).result.value, own);
        assert e.sha256(body) == e.sha256(BodyFromSegment(p, bytes, own).value);
      }
      forall sha | e.find(bytes, sha).Some?
        ensures e.find(bytes + e.encode(path, id, body).value, sha) == e.find(bytes, sha)
      {
        AppendedBodies(p, bytes, record, body, sha);
      }
    }
  }

  lemma TornBytes(p: Primitives, bytes: seq<byte>, record: BodyRecord, body: seq<byte>, cut: nat)
    requires p.Sound() && ScanFile(p, bytes, false).result.Ok? && SegmentFrameFor(p, record, body).Some?
    requires record.bodyBytes == |body| && record.bodySha256 == p.sha256(body)
    requires 0 < cut < |SegmentFrameFor(p, record, body).value|
    ensures var torn := bytes + SegmentFrameFor(p, record, body).value[..cut];
            ScanFile(p, torn, false).result.Err? && RecoveredBytes(p, torn) == Some(bytes)
  {
    var written := EncoderWritesWellFormedFrames(p, record, body);
    TornWriteRecovers(p, bytes, ScanFile(p, bytes, false).result.value, SegmentFrame(written, body), cut);
  }

  lemma SegmentTornLaw(
      p: Primitives, describe: Describe, isSpool: Path -> bool, bytes: seq<byte>, path: Path, id: string,
      body: seq<byte>, cut: nat)
    requires p.Sound() && Truthful(p, describe)
    ensures SegmentEnv(p, describe, isSpool).TornLaw(bytes, path, id, body, cut)
  {
    var e := SegmentEnv(p, describe, isSpool);
    if e.scans(bytes) && e.encode(path, id, body).Some? && 0 < cut < |e.encode(path, id, body).value| {
      TornBytes(p, bytes, describe(path, id, body), body, cut);
    }
  }

  lemma {:induction false} FindInLonger(fs: seq<SegmentFrame>, gs: seq<SegmentFrame>, sha: Sha)
    requires FindBody(fs, sha).Some?
    ensures FindBody(fs + gs, sha) == FindBody(fs, sha)
    decreases |fs|
  {
    if fs[0].record.bodySha256 != sha {
      assert (fs + gs)[1..] == fs[1..] + gs;
      FindInLonger(fs[1..], gs, sha);
    }
  }

  /** Whatever is behind a file that scans, the frames a recovering scan finds begin with its frames. */
  lemma RecoveredFramesBegin(p: Primitives, bytes: seq<byte>, fs: seq<SegmentFrame>, more: seq<byte>)
    requires ScanFile(p, bytes, false).result == Ok(fs) && ScanFile(p, bytes + more, true).result.Ok?
    ensures fs <= ScanFile(p, bytes + more, true).result.value
  {
    ReadOnlyScan(p, bytes, fs);
    ParserIncremental(p);
    GrownFileSlices(bytes, more);
    Framing.ScanResumes(Parser(p), bytes[8..], more);
  }

  /** What a recovering scan of a longer file leaves scans to frames that begin with the old ones. */
  lemma RecoveredScan(p: Primitives, bytes: seq<byte>, more: seq<byte>)
      returns (fs: seq<SegmentFrame>, all: seq<SegmentFrame>)
    requires ScanFile(p, bytes, false).result.Ok? && RecoveredBytes(p, bytes + more).Some?
    ensures ScanFile(p, bytes, false).result == Ok(fs)
    ensures ScanFile(p, RecoveredBytes(p, bytes + more).value, false).result == Ok(all) && fs <= all
  {
    fs, all := ScanFile(p, bytes, false).result.value, ScanFile(p, bytes + more, true).result.value;
    RecoveryIdempotent(p, bytes + more, false);
    RecoveredFramesBegin(p, bytes, fs, more);
  }

  lemma RecoveredBodies(p: Primitives, bytes: seq<byte>, more: seq<byte>, sha: Sha)
    requires ScanFile(p, bytes, false).result.Ok? && RecoveredBytes(p, bytes + more).Some?
    ensures var kept := RecoveredBytes(p, bytes + more).value;
            && ScanFile(p, kept, false).result.Ok?
            && (BodyFromSegment(p, bytes, sha).Some? ==>
                BodyFromSegment(p, kept, sha) == BodyFromSegment(p, bytes, sha))
  {
    var fs, all := RecoveredScan(p, bytes, more);
    assert all == fs + all[|fs|..];
    if FindBody(fs, sha).Some? {
      FindInLonger(fs, all[|fs|..], sha);
    }
  }

  lemma SegmentRecoverLaw(p: Primitives, describe: Describe, isSpool: Path -> bool, bytes: seq<byte>, more: seq<byte>)
    ensures SegmentEnv(p, describe, isSpool).RecoverLaw(bytes, more)
  {
    var e := SegmentEnv(p, describe, isSpool);
    if e.scans(bytes) {
      ReadOnlyScanIffNothingTorn(p, bytes);
      if e.recover(bytes + more).Some? {
        RecoveredBodies(p, bytes, more, "");
        forall sha | e.find(bytes, sha).Some?
          ensures e.find(e.recover(bytes + more).value, sha) == e.find(bytes, sha)
        {
          RecoveredBodies(p, bytes, more, sha);
        }
      }
    }
  }

  /** The segment format meets every law the store relies on, so all of the above holds for it. */
  lemma SegmentFormatIsLawful(p: Primitives, describe: Describe, isSpool: Path -> bool)
    requires p.Sound() && Truthful(p, describe) && SegmentEnv(p, describe, isSpool).CollisionFree()
    ensures SegmentEnv(p, describe, isSpool).Lawful()
  {
    ScanInvertsEncodeAll(p, [], false);
    assert SEGMENT_MAGIC + EncodeAll(p, []) == SEGMENT_MAGIC;
    assert forall n: nat :: SegmentEnv(p, describe, isSpool).StubLaw(n);
    forall bytes: seq<byte>, path: Path, id: string, body: seq<byte>
      ensures SegmentEnv(p, describe, isSpool).AppendLaw(bytes, path, id, body)
    {
      SegmentAppendLaw(p, describe, isSpool, bytes, path, id, body);
    }
    forall bytes: seq<byte>, path: Path, id: string, body: seq<byte>, cut: nat
      ensures SegmentEnv(p, describe, isSpool).TornLaw(bytes, path, id, body, cut)
    {
      SegmentTornLaw(p, describe, isSpool, bytes, path, id, body, cut);
    }
    forall bytes: seq<byte>, more: seq<byte>
      ensures SegmentEnv(p, describe, isSpool).RecoverLaw(bytes, more)
    {
      SegmentRecoverLaw(p, describe, isSpool, bytes, more);
    }
  }

  /** A stub is no copy of a sealed segment: their checksums differ. */
  lemma StubIsMismatch(e: Env, s: Store, src: Path, dest: Path)
    requires e.Lawful() && Inv(e, s) && src in s.manifests && src in s.files && dest in s.stubs
    ensures e.sha256(s.stubs[dest]) != e.sha256(s.files[src])
  {
    assert FileOk(e, s.files[src], TearAt(s.tears, src));
    assert e.StubLaw(|s.stubs[dest]|);
  }

  /** Files are read and recovered by the segment scan. */
  ghost predicate ReadsSegments(p: Primitives, e: Env) {
    && (forall bytes: seq<byte> {:trigger e.scans(bytes)} :: e.scans(bytes) == ScanFile(p, bytes, false).result.Ok?)
    && (forall bytes: seq<byte> {:trigger e.recover(bytes)} :: e.recover(bytes) == RecoveredBytes(p, bytes))
  }

  lemma SegmentEnvReadsSegments(p: Primitives, describe: Describe, isSpool: Path -> bool)
    ensures ReadsSegments(p, SegmentEnv(p, describe, isSpool))
  {
  }

  lemma SegmentTail(p: Primitives, clean: seq<byte>, grown: seq<byte>)
    requires ScanFile(p, clean, false).result.Ok? && clean <= grown && clean != grown
    requires !ParseFrame(p, grown[|clean|..]).Good?
    ensures ScanFile(p, grown, false).result.Err?
    ensures RecoveredBytes(p, grown) == None || RecoveredBytes(p, grown) == Some(clean)
  {
    var tail := grown[|clean|..];
    assert grown == clean + tail && tail != [];
    UnreadableTail(p, clean, ScanFile(p, clean, false).result.value, tail);
  }

  lemma AppendGrows(e: Env, s: Store, id: string, body: seq<byte>)
    requires ContentsOk(e, s) && s.active.Some? && s.pending.None? && s.active.value in s.tears
    requires e.encode(s.active.value, id, body).Some?
    ensures var grown, clean := AppendFrame(e, s, id, body).files, s.tears[s.active.value].clean;
            && s.active.value in grown && e.scans(clean)
            && clean <= grown[s.active.value] && clean != grown[s.active.value]
  {
    assert FileOk(e, s.files[s.active.value], TearAt(s.tears, s.active.value));
  }

  /** For the real format: what is committed behind a tear is lost unless the bytes there happen to carry a
      valid checksum. */
  lemma SegmentCarelessCommitIsLost(p: Primitives, e: Env, s: Store, id: string, body: seq<byte>)
    requires ReadsSegments(p, e)
    requires Inv(e, s) && s.active.Some? && s.pending.None? && s.active.value in s.tears
    requires e.encode(s.active.value, id, body).Some? && e.sha256(body) !in s.index.blobs && id !in s.index.events
    requires e.find(s.tears[s.active.value].clean, e.sha256(body)) == None
    requires var grown := AppendFrame(e, s, id, body).files;
             var clean := s.tears[s.active.value].clean;
             && s.active.value in grown && |clean| <= |grown[s.active.value]|
             && !ParseFrame(p, grown[s.active.value][|clean|..]).Good?
    ensures var t, sha := CommitPending(e, AppendFrame(e, s, id, body)), e.sha256(body);
            && sha in t.past.recorded && t.past.recorded[sha] == body
            && ReadBlob(e, t, sha) == None && ReadBlob(e, Sealed(e, t, s.active.value), sha) == None
  {
    AppendGrows(e, s, id, body);
    var clean, grown := s.tears[s.active.value].clean, AppendFrame(e, s, id, body).files[s.active.value];
    SegmentTail(p, clean, grown);
    CarelessCommitIsLost(e, s, id, body);
  }
}
