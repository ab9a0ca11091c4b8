/**
 Which state directories have projected a segment into their index. A record that says `complete`
 must name all of them, whatever processes create, recover and drain, and wherever they crash.
 */
module Custody {
  import opened Common

  type Path = string

  /** A canonical state directory; the order is the one owner lists are sorted by. */
  type Dir = nat

  const MAX_OWNERS := 64

  /** `wellFormed` stands for the file's size and type, its schema, the segment name in it and the form of
      its owner paths. */
  datatype Record = Record(complete: bool, owners: seq<Dir>, wellFormed: bool)

  predicate Distinct(owners: seq<Dir>) {
    forall i, j | 0 <= i < j < |owners| :: owners[i] != owners[j]
  }

  /** The checks of `read`; a missing record is not an error. */
  predicate Readable(r: Option<Record>) {
    r.Some? ==> r.value.wellFormed && r.value.owners != [] && |r.value.owners| <= MAX_OWNERS && Distinct(r.value.owners)
  }

  function Insert(d: Dir, owners: seq<Dir>): (r: seq<Dir>)
    ensures multiset(r) == multiset(owners) + multiset{d}
  {
    if owners == [] then [d]
    else if d <= owners[0] then [d] + owners
    else
      assert owners == [owners[0]] + owners[1..];
      [owners[0]] + Insert(d, owners[1..])
  }

  function Sort(owners: seq<Dir>): (r: seq<Dir>)
    ensures multiset(r) == multiset(owners)
  {
    if owners == [] then []
    else
      assert owners == [owners[0]] + owners[1..];
      Insert(owners[0], Sort(owners[1..]))
  }

  /** What `register_owner` writes, given what it read; `None` means the record already names `dir`. */
  function Registered(seen: Option<Record>, dir: Dir, created: bool): Result<Option<Record>> {
    if !Readable(seen) then Err("invalid segment custody record")
    else if created && seen.Some? then Err("new segment already has a custody record")
    else
      var r := if seen.Some? then seen.value else Record(created, [], true);
      if dir in r.owners then Ok(None)
      else if |r.owners| >= MAX_OWNERS then Err("segment custody owner limit reached")
      else Ok(Some(r.(owners := Sort(r.owners + [dir]))))
  }

  /** What `prepare_drain` writes for the destination; `None` means it already has usable custody. */
  function Prepared(source: Option<Record>, dest: Option<Record>, destExists: bool, dir: Dir): Result<Option<Record>> {
    if !Readable(source) then Err("invalid segment custody record")
    else if source.None? then Err("spool drain lacks complete segment custody")
    else if !source.value.complete || source.value.owners != [dir]
    then Err("spool drain requires complete exclusive custody")
    else if !Readable(dest) then Err("invalid segment custody record")
    else
      match dest
      case Some(r) => if r.complete && dir in r.owners then Ok(None) else Err("drain destination has ambiguous custody")
      case None => if destExists then Err("existing drain destination lacks custody") else Ok(source)
  }

  lemma RegisteredOwners(seen: Option<Record>, dir: Dir, created: bool)
    requires Registered(seen, dir, created).Ok?
    ensures match Registered(seen, dir, created).value
            case None => seen.Some? && dir in seen.value.owners
            case Some(r) =>
              && dir in r.owners
              && r.complete == (if seen.Some? then seen.value.complete else created)
              && (seen.Some? ==> forall d | d in seen.value.owners :: d in r.owners)
              && forall d | d in r.owners :: d == dir || (seen.Some? && d in seen.value.owners)
  {
    var before := if seen.Some? then seen.value.owners else [];
    var sorted := Sort(before + [dir]);
    assert multiset(sorted) == multiset(before) + multiset{dir};
    assert forall d: Dir :: d in sorted <==> d in multiset(sorted);
    assert forall d: Dir :: d in before <==> d in multiset(before);
  }

  // ---------------------------------------------------------------- what is refused and written

  /** Registration is refused for an unreadable record, for a new segment that already has one, and for a
      sixty-fifth owner, and for nothing else. */
  lemma RegistrationRefusedIff(seen: Option<Record>, dir: Dir, created: bool)
    ensures Registered(seen, dir, created).Err? <==>
              || !Readable(seen)
              || (created && seen.Some?)
              || (seen.Some? && dir !in seen.value.owners && |seen.value.owners| >= 64)
  {
  }

  /** A drain is allowed exactly when the directory alone owns the complete source, and the destination
      either has nothing at all or has a complete record naming the directory. */
  lemma DrainAllowedIff(source: Option<Record>, dest: Option<Record>, destExists: bool, dir: Dir)
    ensures Prepared(source, dest, destExists, dir).Ok? <==>
              && Readable(source) && Readable(dest)
              && source.Some? && source.value.complete && source.value.owners == [dir]
              && (dest.Some? ==> dest.value.complete && dir in dest.value.owners)
              && (dest.None? ==> !destExists)
    ensures Prepared(source, dest, destExists, dir).Ok? ==>
              Prepared(source, dest, destExists, dir).value == if dest.Some? then None else source
  {
  }

  predicate Sorted(owners: seq<Dir>) {
    forall i, j | 0 <= i < j < |owners| :: owners[i] <= owners[j]
  }

  lemma {:induction false} InsertSorts(d: Dir, owners: seq<Dir>)
    requires Sorted(owners)
    ensures Sorted(Insert(d, owners))
    decreases |owners|
  {
    if owners != [] && d > owners[0] {
      InsertSorts(d, owners[1..]);
      var rest := Insert(d, owners[1..]);
      forall i | 0 <= i < |rest|
        ensures owners[0] <= rest[i]
      {
        assert rest[i] in multiset(rest);
        assert rest[i] in owners[1..] + [d];
      }
    }
  }

  lemma {:induction false} SortSorts(owners: seq<Dir>)
    ensures Sorted(Sort(owners))
    decreases |owners|
  {
    if owners != [] {
      SortSorts(owners[1..]);
      InsertSorts(owners[0], Sort(owners[1..]));
    }
  }

  lemma DistinctOneMore(front: seq<Dir>, last: Dir)
    ensures Distinct(front + [last]) <==> Distinct(front) && last !in front
  {
    var owners := front + [last];
    assert owners[|front|] == last && forall i | 0 <= i < |front| :: owners[i] == front[i];
  }

  ghost predicate CountsOnce(owners: seq<Dir>) {
    forall d: Dir :: multiset(owners)[d] <= 1
  }

  lemma CountsOneMore(front: seq<Dir>, last: Dir)
    ensures CountsOnce(front + [last]) <==> CountsOnce(front) && last !in front
  {
    var counts, after: multiset<Dir> := multiset(front), multiset(front + [last]);
    assert after == counts + multiset([last]);
    assert forall d: Dir :: after[d] == counts[d] + (if d == last then 1 else 0);
    assert last in front <==> counts[last] > 0;
  }

  /** A list repeats nothing exactly when no element counts twice. */
  lemma {:induction false} DistinctByCount(owners: seq<Dir>)
    ensures Distinct(owners) <==> CountsOnce(owners)
    decreases |owners|
  {
    if owners != [] {
      var front, last := owners[..|owners| - 1], owners[|owners| - 1];
      assert owners == front + [last];
      DistinctByCount(front);
      DistinctOneMore(front, last);
      CountsOneMore(front, last);
    }
  }

  lemma SortKeepsDistinct(owners: seq<Dir>)
    ensures Distinct(Sort(owners)) <==> Distinct(owners)
    ensures |Sort(owners)| == |owners|
  {
    DistinctByCount(owners);
    DistinctByCount(Sort(owners));
    assert |Sort(owners)| == |multiset(Sort(owners))| && |owners| == |multiset(owners)|;
  }

  /** What registration writes can be read again, in sorted order. */
  lemma RegistrationIsReadable(seen: Option<Record>, dir: Dir, created: bool)
    requires Registered(seen, dir, created).Ok? && Registered(seen, dir, created).value.Some?
    ensures var r := Registered(seen, dir, created).value;
            Readable(r) && Sorted(r.value.owners)
  {
    var before := if seen.Some? then seen.value.owners else [];
    SortSorts(before + [dir]);
    SortKeepsDistinct(before + [dir]);
    DistinctOneMore(before, dir);
  }

  // ---------------------------------------------------------------- the records on disk

  function Lookup(records: map<Path, Record>, path: Path): Option<Record> {
    if path in records then Some(records[path]) else None
  }

  class CustodyStore {
    var records: map<Path, Record>
    var segments: set<Path>

    constructor ()
      ensures records == map[] && segments == {}
    {
      records, segments := map[], {};
    }

    method RegisterOwner(segment: Path, dir: Dir, created: bool) returns (r: Result<()>)
      modifies this`records
      ensures match Registered(Lookup(old(records), segment), dir, created)
              case Err(e) => r == Err(e) && records == old(records)
              case Ok(None) => r == Ok(()) && records == old(records)
              case Ok(Some(record)) => r == Ok(()) && records == old(records)[segment := record]
    {
      var existing := Lookup(records, segment);
      if !Readable(existing) {
        return Err("invalid segment custody record");
      }
      if created && existing.Some? {
        return Err("new segment already has a custody record");
      }
      var custody := if existing.Some? then existing.value else Record(created, [], true);
      if dir in custody.owners {
        return Ok(());
      }
      if |custody.owners| >= MAX_OWNERS {
        return Err("segment custody owner limit reached");
      }
      records := records[segment := custody.(owners := Sort(custody.owners + [dir]))];
      return Ok(());
    }

    method PrepareDrain(source: Path, destination: Path, dir: Dir) returns (r: Result<()>)
      modifies this`records
      ensures match Prepared(Lookup(old(records), source), Lookup(old(records), destination),
                             destination in segments, dir)
              case Err(e) => r == Err(e) && records == old(records)
              case Ok(None) => r == Ok(()) && records == old(records)
              case Ok(Some(record)) => r == Ok(()) && records == old(records)[destination := record]
    {
      var custody := Lookup(records, source);
      if !Readable(custody) {
        return Err("invalid segment custody record");
      }
      if custody.None? {
        return Err("spool drain lacks complete segment custody");
      }
      if !custody.value.complete || custody.value.owners != [dir] {
        return Err("spool drain requires complete exclusive custody");
      }
      var existing := Lookup(records, destination);
      if !Readable(existing) {
        return Err("invalid segment custody record");
      }
      if existing.Some? {
        return if existing.value.complete && dir in existing.value.owners then Ok(())
               else Err("drain destination has ambiguous custody");
      }
      if destination in segments {
        return Err("existing drain destination lacks custody");
      }
      records := records[destination := custody.value];
      return Ok(());
    }
  }
}

/** Every interleaving of processes that create, recover and drain segments, one write at a time. */
module CustodyRuns {
  import opened Common
  import opened Custody

  datatype Process = Process(dir: Dir, pid: nat)

  /** Where a process is. Reading a custody record and writing it back are separate steps; the segment
      lock, held from the first stage to the last, is what keeps `seen` current. */
  datatype Stage =
    | Idle
    | Creating(path: Path)
    | FileMade(path: Path)
    | NewSeen(path: Path, seen: Option<Record>)
    | Writing(path: Path)
    | Recovering(path: Path)
    | FoundSeen(path: Path, seen: Option<Record>)
    | Owned(path: Path)
    | Draining(path: Path, dest: Path)
    | DrainSeen(path: Path, dest: Path, seen: Option<Record>, destSeen: Option<Record>)
    | Copying(path: Path, dest: Path)
    | Copied(path: Path, dest: Path)
    | Moved(path: Path, dest: Path)

  function LocksOf(st: Stage): set<Path> {
    if st.Idle? then {} else if st.Draining? || st.DrainSeen? || st.Copying? || st.Copied? || st.Moved?
    then {st.path, st.dest} else {st.path}
  }

  /** `projected` remembers every directory that ever put a segment into its index. */
  datatype System = System(
    files: set<Path>, records: map<Path, Record>, stages: map<Process, Stage>, projected: set<(Path, Dir)>)
  {
    function At(p: Process): Stage { if p in stages then stages[p] else Idle }

    predicate Free(path: Path) { forall p | p in stages :: path !in LocksOf(stages[p]) }

    function Go(p: Process, st: Stage): System { this.(stages := stages[p := st]) }

    function Put(path: Path, r: Option<Record>): System {
      if r.Some? then this.(records := records[path := r.value]) else this
    }
  }

  datatype Step =
    | LockNew(p: Process, path: Path)
    | LockFound(p: Process, path: Path)
    | LockDrain(p: Process, path: Path, dest: Path)
    | Advance(p: Process)
    | Fail(p: Process)
    | Crash(p: Process)

  /** The next write or read of a process that holds its locks. */
  function Advanced(s: System, p: Process): System {
    match s.At(p)
    case Idle => s
    case Creating(path) =>
      if path in s.files then s.Go(p, Idle) else s.(files := s.files + {path}).Go(p, FileMade(path))
    case FileMade(path) => s.Go(p, NewSeen(path, Lookup(s.records, path)))
    case NewSeen(path, seen) =>
      (match Registered(seen, p.dir, true)
       case Err(_) => s.Go(p, Idle)
       case Ok(r) => s.Put(path, r).Go(p, Writing(path)))
    case Writing(path) => s.(projected := s.projected + {(path, p.dir)})
    case Recovering(path) => s.Go(p, FoundSeen(path, Lookup(s.records, path)))
    case FoundSeen(path, seen) =>
      (match Registered(seen, p.dir, false)
       case Err(_) => s.Go(p, Idle)
       case Ok(r) => s.Put(path, r).Go(p, Owned(path)))
    case Owned(path) => s.(projected := s.projected + {(path, p.dir)}).Go(p, Idle)
    case Draining(path, dest) => s.Go(p, DrainSeen(path, dest, Lookup(s.records, path), Lookup(s.records, dest)))
    case DrainSeen(path, dest, seen, destSeen) =>
      (match Prepared(seen, destSeen, dest in s.files, p.dir)
       case Err(_) => s.Go(p, Idle)
       case Ok(r) => s.Put(dest, r).Go(p, Copying(path, dest)))
    case Copying(path, dest) => s.(files := s.files + {dest}).Go(p, Copied(path, dest))
    case Copied(path, dest) => s.(projected := s.projected + {(dest, p.dir)}).Go(p, Moved(path, dest))
    case Moved(path, dest) => s.(files := s.files - {path}).Go(p, Idle)
  }

  function Next(s: System, step: Step): System {
    match step
    case LockNew(p, path) => if s.At(p).Idle? && s.Free(path) then s.Go(p, Creating(path)) else s
    case LockFound(p, path) => if s.At(p).Idle? && s.Free(path) then s.Go(p, Recovering(path)) else s
    case LockDrain(p, path, dest) =>
      if s.At(p).Idle? && path != dest && s.Free(path) && s.Free(dest) then s.Go(p, Draining(path, dest)) else s
    case Advance(p) => Advanced(s, p)
    // An I/O error, or the writer sealing and letting go, or the process dying: its locks are released
    // and everything already written stays.
    case Fail(p) => s.Go(p, Idle)
    case Crash(p) => s.Go(p, Idle)
  }

  // ---------------------------------------------------------------- the invariant

  ghost predicate Exclusive(s: System) {
    forall p, q | p in s.stages && q in s.stages && p != q :: LocksOf(s.stages[p]) !! LocksOf(s.stages[q])
  }

  /** Soundness proper: a complete record names everyone who ever projected the segment. */
  ghost predicate Sound(s: System) {
    forall path, dir {:trigger (path, dir) in s.projected} | (path, dir) in s.projected && path in s.records ::
      s.records[path].complete ==> dir in s.records[path].owners
  }

  /** Segments from before custody existed have no record, but their file is there. */
  ghost predicate LegacyHasFile(s: System) {
    forall path, dir {:trigger (path, dir) in s.projected} | (path, dir) in s.projected && path !in s.records ::
      path in s.files
  }

  ghost predicate Names(s: System, path: Path, dir: Dir) {
    path in s.records && dir in s.records[path].owners
  }

  ghost predicate Unprojected(s: System, path: Path) {
    path !in s.records ==> forall dir: Dir :: (path, dir) !in s.projected
  }

  /** No other directory ever put the segment into its index. */
  ghost predicate Mine(s: System, path: Path, dir: Dir) {
    forall d: Dir :: (path, d) in s.projected ==> d == dir
  }

  /** The segment's record is complete and names the directory. */
  ghost predicate Entrusted(s: System, path: Path, dir: Dir) {
    Names(s, path, dir) && s.records[path].complete
  }

  /** What a process at a given stage may rely on. */
  ghost predicate StageFacts(s: System, p: Process, st: Stage) {
    match st
    case FileMade(path) => Unprojected(s, path)
    case NewSeen(path, seen) => Unprojected(s, path) && seen == Lookup(s.records, path)
    case FoundSeen(path, seen) => seen == Lookup(s.records, path)
    case Writing(path) => Names(s, path, p.dir)
    case Owned(path) => Names(s, path, p.dir)
    case DrainSeen(path, dest, seen, destSeen) => seen == Lookup(s.records, path) && destSeen == Lookup(s.records, dest)
    case Copying(path, dest) => path in s.records && Mine(s, path, p.dir) && Entrusted(s, dest, p.dir)
    case Copied(path, dest) => path in s.records && Mine(s, path, p.dir) && Entrusted(s, dest, p.dir) && dest in s.files
    case Moved(path, dest) =>
      && path in s.records && Mine(s, path, p.dir) && Entrusted(s, dest, p.dir) && dest in s.files
      && (dest, p.dir) in s.projected
    case _ => true
  }

  ghost predicate Inv(s: System) {
    && Exclusive(s)
    && Sound(s)
    && LegacyHasFile(s)
    && forall p | p in s.stages :: StageFacts(s, p, s.stages[p])
  }

  /** Owner sets only grow and `complete` is never regained, path by path. */
  ghost predicate Grows(s: System, t: System) {
    forall path | path in s.records ::
      && path in t.records
      && (t.records[path].complete ==> s.records[path].complete)
      && forall dir | dir in s.records[path].owners :: dir in t.records[path].owners
  }

  // ---------------------------------------------------------------- every step keeps it

  /** Two systems that look alike to whoever holds the lock on `path`. */
  ghost predicate AgreesOn(s: System, t: System, path: Path) {
    && Lookup(s.records, path) == Lookup(t.records, path)
    && (path in s.files <==> path in t.files)
    && forall dir: Dir :: (path, dir) in s.projected <==> (path, dir) in t.projected
  }

  lemma FactsFrame(s: System, t: System, q: Process, st: Stage)
    requires StageFacts(s, q, st)
    requires forall path | path in LocksOf(st) :: AgreesOn(s, t, path)
    ensures StageFacts(t, q, st)
  {
    if !st.Idle? {
      assert AgreesOn(s, t, st.path);
      if st.Draining? || st.DrainSeen? || st.Copying? || st.Copied? || st.Moved? {
        assert AgreesOn(s, t, st.dest);
      }
    }
  }

  /** A process that touches only what it has locked, and keeps or drops its locks, leaves everyone
      else's facts standing. */
  lemma Reassemble(s: System, t: System, p: Process, st: Stage)
    requires Inv(s)
    requires t.stages == s.stages[p := st] && LocksOf(st) <= LocksOf(s.At(p))
    requires forall path | path !in LocksOf(s.At(p)) :: AgreesOn(s, t, path)
    requires Sound(t) && LegacyHasFile(t) && StageFacts(t, p, st)
    ensures Inv(t)
  {
    forall q | q in t.stages
      ensures StageFacts(t, q, t.stages[q])
    {
      if q != p {
        FactsFrame(s, t, q, s.stages[q]);
      }
    }
  }

  lemma PutOwners(s: System, path: Path, dir: Dir, created: bool, r: Option<Record>)
    requires Registered(Lookup(s.records, path), dir, created) == Ok(r)
    ensures var t := s.Put(path, r);
            && Names(t, path, dir) && Grows(s, t)
            && (path in t.records ==>
                  t.records[path].complete == if path in s.records then s.records[path].complete else created)
            && forall other | other != path :: Lookup(t.records, other) == Lookup(s.records, other)
  {
    RegisteredOwners(Lookup(s.records, path), dir, created);
  }

  lemma NewKeepsInv(s: System, p: Process)
    requires Inv(s) && p in s.stages && s.stages[p].NewSeen?
    ensures Inv(Advanced(s, p)) && Grows(s, Advanced(s, p))
  {
    var NewSeen(path, seen) := s.stages[p];
    var t := Advanced(s, p);
    match Registered(seen, p.dir, true)
    case Err(_) =>
      Reassemble(s, t, p, Idle);
    case Ok(r) =>
      PutOwners(s, path, p.dir, true, r);
      Reassemble(s, t, p, Writing(path));
  }

  /** Registering as a recovering owner, before anything is projected. */
  lemma FoundPutKeeps(s: System, path: Path, dir: Dir, r: Option<Record>)
    requires Sound(s) && LegacyHasFile(s) && Registered(Lookup(s.records, path), dir, false) == Ok(r)
    ensures var t := s.Put(path, r);
            && Sound(t) && LegacyHasFile(t) && Names(t, path, dir) && Grows(s, t)
            && forall other | other != path :: AgreesOn(s, t, other)
  {
    PutOwners(s, path, dir, false, r);
    PutKeepsSound(s, s.Put(path, r), path);
  }

  lemma FoundKeepsInv(s: System, p: Process)
    requires Inv(s) && p in s.stages && s.stages[p].FoundSeen?
    ensures Inv(Advanced(s, p)) && Grows(s, Advanced(s, p))
  {
    var FoundSeen(path, seen) := s.stages[p];
    assert StageFacts(s, p, s.stages[p]);
    match Registered(seen, p.dir, false)
    case Err(_) =>
      Reassemble(s, s.Go(p, Idle), p, Idle);
    case Ok(r) =>
      OwnedKeepsInv(s, p, path, r);
  }

  lemma OwnedKeepsInv(s: System, p: Process, path: Path, r: Option<Record>)
    requires Inv(s) && p in s.stages && s.stages[p] == FoundSeen(path, Lookup(s.records, path))
    requires Registered(Lookup(s.records, path), p.dir, false) == Ok(r)
    ensures var t := s.Put(path, r).Go(p, Owned(path));
            Inv(t) && Grows(s, t)
  {
    FoundPutKeeps(s, path, p.dir, r);
    Reassemble(s, s.Put(path, r).Go(p, Owned(path)), p, Owned(path));
  }

  /** Adding owners to one record, or a record that does not claim completeness, keeps soundness. */
  lemma PutKeepsSound(s: System, t: System, path: Path)
    requires Sound(s) && LegacyHasFile(s) && Grows(s, t)
    requires t.projected == s.projected && t.files == s.files
    requires path in t.records && (path !in s.records ==> !t.records[path].complete)
    requires forall other | other != path :: Lookup(t.records, other) == Lookup(s.records, other)
    ensures Sound(t) && LegacyHasFile(t)
  {
    forall q, dir | (q, dir) in t.projected && q in t.records && t.records[q].complete
      ensures dir in t.records[q].owners
    {
      assert q != path ==> Lookup(t.records, q) == Lookup(s.records, q);
    }
    forall q, dir | (q, dir) in t.projected && q !in t.records
      ensures q in t.files
    {
      assert Lookup(t.records, q) == Lookup(s.records, q);
    }
  }

  lemma DrainKeepsInv(s: System, p: Process)
    requires Inv(s) && p in s.stages && s.stages[p].DrainSeen?
    ensures Inv(Advanced(s, p)) && Grows(s, Advanced(s, p))
  {
    var DrainSeen(path, dest, seen, destSeen) := s.stages[p];
    var t := Advanced(s, p);
    match Prepared(seen, destSeen, dest in s.files, p.dir)
    case Err(_) =>
      Reassemble(s, t, p, Idle);
    case Ok(r) =>
      assert path in s.records && s.records[path].complete && s.records[path].owners == [p.dir];
      assert Mine(s, path, p.dir);
      Reassemble(s, t, p, Copying(path, dest));
  }

  lemma ProjectKeepsInv(s: System, p: Process)
    requires Inv(s) && p in s.stages && (s.stages[p].Writing? || s.stages[p].Owned? || s.stages[p].Copied?)
    ensures Inv(Advanced(s, p)) && Grows(s, Advanced(s, p))
  {
    var t := Advanced(s, p);
    assert StageFacts(s, p, s.stages[p]);
    Reassemble(s, t, p, t.stages[p]);
  }

  lemma OtherAdvancesKeepInv(s: System, p: Process)
    requires Inv(s) && p in s.stages
    requires var st := s.stages[p];
             st.Idle? || st.Creating? || st.FileMade? || st.Recovering? || st.Draining? || st.Copying? || st.Moved?
    ensures Inv(Advanced(s, p)) && Grows(s, Advanced(s, p))
  {
    var t := Advanced(s, p);
    assert StageFacts(s, p, s.stages[p]);
    Reassemble(s, t, p, t.stages[p]);
  }

  lemma AdvanceKeepsInv(s: System, p: Process)
    requires Inv(s)
    ensures Inv(Advanced(s, p)) && Grows(s, Advanced(s, p))
  {
    if p in s.stages {
      var st := s.stages[p];
      if st.NewSeen? {
        NewKeepsInv(s, p);
      } else if st.FoundSeen? {
        FoundKeepsInv(s, p);
      } else if st.DrainSeen? {
        DrainKeepsInv(s, p);
      } else if st.Writing? || st.Owned? || st.Copied? {
        ProjectKeepsInv(s, p);
      } else {
        OtherAdvancesKeepInv(s, p);
      }
    }
  }

  lemma StepKeepsInv(s: System, step: Step)
    requires Inv(s)
    ensures Inv(Next(s, step)) && Grows(s, Next(s, step))
  {
    match step
    case Advance(p) => AdvanceKeepsInv(s, p);
    case Fail(p) => Reassemble(s, s.Go(p, Idle), p, Idle);
    case Crash(p) => Reassemble(s, s.Go(p, Idle), p, Idle);
    case LockNew(p, path) => LockKeepsInv(s, p, Creating(path));
    case LockFound(p, path) => LockKeepsInv(s, p, Recovering(path));
    case LockDrain(p, path, dest) => LockKeepsInv(s, p, Draining(path, dest));
  }

  lemma LockKeepsInv(s: System, p: Process, st: Stage)
    requires Inv(s) && (st.Creating? || st.Recovering? || st.Draining?)
    ensures s.At(p).Idle? && (forall path | path in LocksOf(st) :: s.Free(path)) ==> Inv(s.Go(p, st))
  {
    if s.At(p).Idle? && forall path | path in LocksOf(st) :: s.Free(path) {
      var t := s.Go(p, st);
      forall q | q in t.stages
        ensures StageFacts(t, q, t.stages[q])
      {
        if q != p {
          FactsFrame(s, t, q, s.stages[q]);
        }
      }
      forall q | q in s.stages && q != p
        ensures LocksOf(s.stages[q]) !! LocksOf(st)
      {
        assert forall path | path in LocksOf(st) :: s.Free(path);
      }
    }
  }

  // ---------------------------------------------------------------- runs

  function Run(s: System, steps: seq<Step>): System {
    if steps == [] then s else Next(Run(s, steps[..|steps| - 1]), steps[|steps| - 1])
  }

  /** A store nobody is working on: fresh, or with legacy segments whose files exist. */
  ghost predicate Start(s: System) {
    s.stages == map[] && Sound(s) && LegacyHasFile(s)
  }

  /** Custody soundness: over every interleaving, with failures and crashes anywhere, a complete record
      names every directory that ever projected the segment. */
  lemma {:induction false} CompleteNamesEveryProjector(s: System, steps: seq<Step>)
    requires Start(s)
    ensures Inv(Run(s, steps))
    ensures forall path, dir | (path, dir) in Run(s, steps).projected && path in Run(s, steps).records ::
              Run(s, steps).records[path].complete ==> dir in Run(s, steps).records[path].owners
  {
    if steps != [] {
      CompleteNamesEveryProjector(s, steps[..|steps| - 1]);
      StepKeepsInv(Run(s, steps[..|steps| - 1]), steps[|steps| - 1]);
    }
  }

  /** A drain takes nothing from anyone else: over every interleaving, when a process is about to remove a
      drained segment, no other directory ever projected it, and the copy is there, projected by the
      process's own directory, under a complete record that names it. */
  lemma RemovalIsExclusive(s: System, steps: seq<Step>, p: Process, path: Path, dest: Path)
    requires Start(s) && Run(s, steps).At(p) == Moved(path, dest)
    ensures var t := Run(s, steps);
            && (forall d: Dir | (path, d) in t.projected :: d == p.dir)
            && dest in t.files && (dest, p.dir) in t.projected
            && dest in t.records && t.records[dest].complete && p.dir in t.records[dest].owners
  {
    CompleteNamesEveryProjector(s, steps);
    var t := Run(s, steps);
    assert StageFacts(t, p, t.stages[p]);
  }

  /** And a segment file goes in no other way: one step removes a file only from such a process. */
  lemma OnlyDrainsRemove(s: System, step: Step, path: Path)
    requires path in s.files && path !in Next(s, step).files
    ensures step.Advance? && s.At(step.p).Moved? && s.At(step.p).path == path
  {
  }

  /** Between any two moments of a run, owner sets only grow and `complete` is never regained. */
  lemma {:induction false} CustodyOnlyGrows(s: System, steps: seq<Step>, m: nat)
    requires Start(s) && m <= |steps|
    ensures Grows(Run(s, steps[..m]), Run(s, steps))
    decreases |steps|
  {
    if m == |steps| {
      assert steps[..m] == steps;
    } else {
      var before := steps[..|steps| - 1];
      CustodyOnlyGrows(s, before, m);
      assert before[..m] == steps[..m];
      CompleteNamesEveryProjector(s, before);
      StepKeepsInv(Run(s, before), steps[|steps| - 1]);
      GrowsTransitive(Run(s, steps[..m]), Run(s, before), Run(s, steps));
    }
  }

  lemma GrowsTransitive(s: System, t: System, u: System)
    requires Grows(s, t) && Grows(t, u)
    ensures Grows(s, u)
  {
  }

  // ---------------------------------------------------------------- undisturbed, every operation gets through

  function Turns(s: System, p: Process, n: nat): System
    decreases n
  {
    if n == 0 then s else Turns(Advanced(s, p), p, n - 1)
  }

  lemma TurnsUnroll(s: System, p: Process, n: nat)
    ensures Turns(s, p, n + 1) == Turns(Advanced(s, p), p, n) && Turns(s, p, 0) == s
  {
  }

  /** A new segment ends up with its file, a complete record that names its creator alone, and its row. */
  lemma CreationGetsThrough(s: System, p: Process, path: Path)
    requires s.At(p).Idle? && s.Free(path) && path !in s.files && path !in s.records
    ensures var t := Turns(Next(s, LockNew(p, path)), p, 4);
            && t.files == s.files + {path} && t.records == s.records[path := Record(true, [p.dir], true)]
            && t.projected == s.projected + {(path, p.dir)}
  {
    var s0 := Next(s, LockNew(p, path));
    var s1 := Advanced(s0, p);
    assert s1.At(p) == FileMade(path);
    var s2 := Advanced(s1, p);
    assert s2.At(p) == NewSeen(path, None);
    CreatorIsNamed(s2, p, path);
    TurnsUnroll(s0, p, 3);
    TurnsUnroll(s1, p, 2);
  }

  lemma CreatorIsNamed(s: System, p: Process, path: Path)
    requires s.At(p) == NewSeen(path, None)
    ensures var t := Turns(s, p, 2);
            && t.files == s.files && t.records == s.records[path := Record(true, [p.dir], true)]
            && t.projected == s.projected + {(path, p.dir)}
  {
    assert [] + [p.dir] == [p.dir] && [p.dir][1..] == [] && Sort([p.dir]) == [p.dir];
    var s1 := Advanced(s, p);
    assert s1.At(p) == Writing(path);
    TurnsUnroll(s, p, 1);
    TurnsUnroll(s1, p, 0);
    TurnsUnroll(Advanced(s1, p), p, 0);
  }

  /** A segment found on disk is projected by its finder, which its record then names, unless the record is
      unreadable or full; a segment without one gets an incomplete record. */
  lemma RecoveryGetsThrough(s: System, p: Process, path: Path)
    requires s.At(p).Idle? && s.Free(path) && Readable(Lookup(s.records, path))
    requires path in s.records ==> p.dir in s.records[path].owners || |s.records[path].owners| < 64
    ensures var t := Turns(Next(s, LockFound(p, path)), p, 3);
            && t.At(p).Idle? && t.files == s.files && t.projected == s.projected + {(path, p.dir)}
            && path in t.records && p.dir in t.records[path].owners
            && t.records[path].complete == (path in s.records && s.records[path].complete)
  {
    var s0 := Next(s, LockFound(p, path));
    var s1 := Advanced(s0, p);
    assert s1.At(p) == FoundSeen(path, Lookup(s.records, path));
    FinderIsNamed(s1, p, path);
    TurnsUnroll(s0, p, 2);
  }

  lemma FinderIsNamed(s: System, p: Process, path: Path)
    requires s.At(p) == FoundSeen(path, Lookup(s.records, path)) && Readable(Lookup(s.records, path))
    requires path in s.records ==> p.dir in s.records[path].owners || |s.records[path].owners| < 64
    ensures var t := Turns(s, p, 2);
            && t.At(p).Idle? && t.files == s.files && t.projected == s.projected + {(path, p.dir)}
            && path in t.records && p.dir in t.records[path].owners
            && t.records[path].complete == (path in s.records && s.records[path].complete)
  {
    RegisteredOwners(Lookup(s.records, path), p.dir, false);
    var s1 := Advanced(s, p);
    assert s1.At(p) == Owned(path);
    TurnsUnroll(s, p, 1);
    TurnsUnroll(s1, p, 0);
    TurnsUnroll(Advanced(s1, p), p, 0);
  }

  /** A drain under complete exclusive custody to a free destination ends with the copy in the source's place,
      under the source's record, projected by the drainer. */
  lemma DrainGetsThrough(s: System, p: Process, path: Path, dest: Path)
    requires s.At(p).Idle? && path != dest && s.Free(path) && s.Free(dest)
    requires path in s.records && s.records[path] == Record(true, [p.dir], true)
    requires dest !in s.records && dest !in s.files
    ensures var t := Turns(Next(s, LockDrain(p, path, dest)), p, 5);
            && t.At(p).Idle? && t.files == s.files - {path} + {dest}
            && t.records == s.records[dest := Record(true, [p.dir], true)]
            && t.projected == s.projected + {(dest, p.dir)}
  {
    var s0 := Next(s, LockDrain(p, path, dest));
    DrainPrepares(s, p, path, dest);
    CopyGetsThrough(Advanced(Advanced(s0, p), p), p, path, dest);
    TurnsUnroll(s0, p, 4);
    TurnsUnroll(Advanced(s0, p), p, 3);
  }

  lemma DrainPrepares(s: System, p: Process, path: Path, dest: Path)
    requires s.At(p).Idle? && path != dest && s.Free(path) && s.Free(dest)
    requires path in s.records && s.records[path] == Record(true, [p.dir], true)
    requires dest !in s.records && dest !in s.files
    ensures var t := Advanced(Advanced(Next(s, LockDrain(p, path, dest)), p), p);
            && t.At(p) == Copying(path, dest) && t.files == s.files && t.projected == s.projected
            && t.records == s.records[dest := Record(true, [p.dir], true)]
  {
    var s0, seen := Next(s, LockDrain(p, path, dest)), Lookup(s.records, path);
    assert s0.At(p) == Draining(path, dest);
    assert Advanced(s0, p).At(p) == DrainSeen(path, dest, seen, None);
    assert Prepared(seen, None, false, p.dir) == Ok(seen);
  }

  lemma CopyGetsThrough(s: System, p: Process, path: Path, dest: Path)
    requires s.At(p) == Copying(path, dest) && path != dest
    ensures var t := Turns(s, p, 3);
            && t.At(p).Idle? && t.files == s.files - {path} + {dest} && t.records == s.records
            && t.projected == s.projected + {(dest, p.dir)}
  {
    var s1 := Advanced(s, p);
    assert s1.At(p) == Copied(path, dest);
    var s2 := Advanced(s1, p);
    assert s2.At(p) == Moved(path, dest);
    TurnsUnroll(s, p, 2);
    TurnsUnroll(s1, p, 1);
    TurnsUnroll(s2, p, 0);
    TurnsUnroll(Advanced(s2, p), p, 0);
  }

  /** A failure or a crash changes nothing on disk, leaves the process idle, and frees every lock it held. */
  lemma FailureReleases(s: System, p: Process, step: Step, path: Path)
    requires Exclusive(s) && p in s.stages && path in LocksOf(s.stages[p]) && (step == Fail(p) || step == Crash(p))
    ensures var t := Next(s, step);
            && t.At(p).Idle? && t.Free(path)
            && t.files == s.files && t.records == s.records && t.projected == s.projected
  {
  }
}
