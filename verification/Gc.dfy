/**
 Retention: which days may be forgotten, and the batched deletions that forget their index rows.
 Tables are maps from rowid to row; a query without an order may return its rows in any order.
 */
module Gc {
  import opened Common
  import opened Days

  const I64_MAX := 0x7FFF_FFFF_FFFF_FFFF
  const I64_MIN := -0x8000_0000_0000_0000

  type i64 = x: int | -0x8000_0000_0000_0000 <= x <= 0x7FFF_FFFF_FFFF_FFFF

  datatype EventRow = EventRow(observedAt: int, storage: string, sha: string)

  datatype BlobRow = BlobRow(sha: string, storage: string, createdAt: int)

  /** The checksum is missing until the segment is sealed. */
  datatype SegmentRow = SegmentRow(path: string, first: int, last: int, sha: Option<string>)

  type Events = map<i64, EventRow>
  type Blobs = map<i64, BlobRow>

  // ---------------------------------------------------------------- what should be deleted

  predicate InSpool(storage: string) { storage == "spool" || storage == "spool_segment" }

  predicate InArchive(storage: string) { storage == "archive" || storage == "archive_segment" }

  predicate EventDoomed(e: EventRow, days: set<int>) {
    !InSpool(e.storage) && DayFloor(e.observedAt) in days
  }

  function EventsAfter(events: Events, days: set<int>): Events {
    map id | id in events && !EventDoomed(events[id], days) :: events[id]
  }

  ghost predicate Referenced(events: Events, sha: string) {
    exists id :: id in events && events[id].sha == sha
  }

  /** Rowids are positive when SQLite assigns them; the scan starts at zero. */
  ghost predicate BlobDoomed(id: int, b: BlobRow, events: Events, days: set<int>) {
    id >= 0 && InArchive(b.storage) && DayFloor(b.createdAt) in days && !Referenced(events, b.sha)
  }

  ghost function BlobsAfter(blobs: Blobs, events: Events, days: set<int>): Blobs {
    map id | id in blobs && !BlobDoomed(id, blobs[id], events, days) :: blobs[id]
  }

  predicate Covers(s: SegmentRow, day: int) { s.first < day + DAY_MS && s.last >= day }

  predicate Checksummed(s: SegmentRow) { s.sha.Some? && s.sha.value != "" }

  ghost predicate Candidate(events: Events, dirExists: Date -> bool, calendar: int -> Date, cutoff: int, day: int) {
    && day % DAY_MS == 0 && day < cutoff
    && !dirExists(DateParts(calendar, day))
    && Reached(events, day)
  }

  /** The oldest event is of this day or an earlier one. */
  ghost predicate Reached(events: Events, day: int) {
    exists id :: id in events && DayFloor(events[id].observedAt) <= day
  }

  /** The receipts account for the day: some checksummed segment covers it and all such are in them. */
  ghost predicate Gated(segments: set<SegmentRow>, verified: set<string>, day: int) {
    && (exists s :: s in segments && Covers(s, day) && Checksummed(s))
    && (forall s | s in segments && Covers(s, day) && Checksummed(s) :: s.sha.value in verified)
  }

  // ---------------------------------------------------------------- the loops

  /** `batch as i64`. */
  function AsI64(n: u64): i64 { if n <= I64_MAX then n else n - 0x1_0000_0000_0000_0000 }

  function SatAdd64(a: i64, b: i64): i64 {
    if a + b > I64_MAX then I64_MAX else if a + b < I64_MIN then I64_MIN else a + b
  }

  class Tables {
    var events: Events
    var blobs: Blobs
    const segments: set<SegmentRow>

    constructor (events: Events, blobs: Blobs, segments: set<SegmentRow>)
      ensures this.events == events && this.blobs == blobs && this.segments == segments
    {
      this.events, this.blobs, this.segments := events, blobs, segments;
    }

    /** `SELECT MIN(observed_at_unix_ms)`. */
    method MinObserved() returns (min: Option<int>)
      ensures min.None? <==> events == map[]
      ensures min.Some? ==> exists id :: id in events && events[id].observedAt == min.value
      ensures min.Some? ==> forall id | id in events :: min.value <= events[id].observedAt
    {
      min := None;
      var todo := events.Keys;
      while todo != {}
        invariant todo <= events.Keys
        invariant min.None? ==> todo == events.Keys
        invariant min.Some? ==> exists id :: id in events && events[id].observedAt == min.value
        invariant min.Some? ==> forall id | id in events && id !in todo :: min.value <= events[id].observedAt
        decreases |todo|
      {
        var id :| id in todo;
        if min.None? || events[id].observedAt < min.value {
          min := Some(events[id].observedAt);
        }
        todo := todo - {id};
      }
    }

    /** Days before the cutoff, from the oldest event on, that have no archive directory. */
    method CollectCandidateDays(dirExists: Date -> bool, calendar: int -> Date, cutoff: int) returns (days: set<int>)
      ensures forall day :: day in days <==> Candidate(events, dirExists, calendar, cutoff, day)
    {
      days := {};
      var min := MinObserved();
      if min.None? {
        return;
      }
      var start := DayFloor(min.value);
      OldestDay(events, min.value);
      var day := start;
      while day < cutoff
        invariant start <= day && day % DAY_MS == 0
        invariant forall d :: d in days <==>
                    d % DAY_MS == 0 && start <= d < Min(day, cutoff) && !dirExists(DateParts(calendar, d))
      {
        NextMultiple(day);
        if !dirExists(DateParts(calendar, day)) {
          days := days + {day};
        }
        day := day + DAY_MS;
      }
    }

    /** Reads the checksums covering one day until one is not in the receipts. */
    method DayIsGated(day: int, verified: set<string>) returns (gated: bool)
      ensures gated <==> Gated(segments, verified, day)
    {
      var allCovered, hasAny := true, false;
      var rows := set s | s in segments && Covers(s, day) && Checksummed(s);
      var unread := rows;
      while unread != {} && allCovered
        invariant unread <= rows
        invariant allCovered ==> forall s | s in rows && s !in unread :: s.sha.value in verified
        invariant allCovered ==> (hasAny <==> rows != unread)
        invariant !allCovered ==> exists s :: s in rows && s.sha.value !in verified
        decreases |unread|, allCovered
      {
        var s :| s in unread;
        if s.sha.value !in verified {
          allCovered := false;
        } else {
          hasAny := true;
          unread := unread - {s};
        }
      }
      GatedRows(segments, verified, day, rows);
      gated := allCovered && hasAny;
    }

    /** `filter_receipt_gated_candidate_days`. */
    method FilterReceiptGated(candidates: set<int>, verified: set<string>) returns (kept: set<int>)
      ensures forall day :: day in kept <==> day in candidates && Gated(segments, verified, day)
    {
      kept := {};
      var todo := candidates;
      while todo != {}
        invariant todo <= candidates
        invariant forall day :: day in kept <==> day in candidates && day !in todo && Gated(segments, verified, day)
        decreases |todo|
      {
        ghost var some := Element(todo);
        var day :| day in todo;
        var gated := DayIsGated(day, verified);
        if gated {
          kept := kept + {day};
        }
        todo := todo - {day};
      }
    }

    /** One bounded delete of a day's events; the rows a `LIMIT` selects are any of those that match,
        and a negative limit is none. */
    method DeleteBatch(day: int, limit: i64) returns (deleted: nat, ghost gone: set<i64>)
      requires day % DAY_MS == 0
      modifies this`events
      ensures gone <= old(events).Keys && |gone| == deleted && events == old(events) - gone
      ensures forall id | id in gone :: EventDoomed(old(events)[id], {day})
      ensures 0 <= limit ==> deleted <= limit
      ensures limit < 0 || deleted < limit ==>
                forall id | id in old(events) && EventDoomed(old(events)[id], {day}) :: id in gone
    {
      var matching := set id | id in events && day <= events[id].observedAt < day + DAY_MS
          && !InSpool(events[id].storage);
      forall id | id in events
        ensures id in matching <==> EventDoomed(events[id], {day})
      {
        DayIntervalIsDay(day, events[id].observedAt);
      }
      var chosen: set<i64> := {};
      while chosen < matching && (limit < 0 || |chosen| < limit)
        invariant chosen <= matching && (limit >= 0 ==> |chosen| <= limit)
        decreases |matching - chosen|
      {
        var id :| id in matching - chosen;
        chosen := chosen + {id};
      }
      events := events - chosen;
      deleted, gone := |chosen|, chosen;
    }

    /** All the events of one day, a batch at a time, until a batch comes back short. */
    method DeleteDay(day: int, batch: u64) returns (total: nat)
      requires day % DAY_MS == 0 && batch >= 1
      modifies this`events
      ensures events == EventsAfter(old(events), {day})
      ensures total == |old(events)| - |events|
    {
      total := 0;
      var more := true;
      while more
        invariant EventsAfter(old(events), {day}).Keys <= events.Keys <= old(events).Keys
        invariant forall id | id in events :: events[id] == old(events)[id]
        invariant total == |old(events)| - |events|
        invariant !more ==> forall id | id in events :: !EventDoomed(events[id], {day})
        decreases |events|, more
      {
        ghost var before := events;
        var deleted, gone := DeleteBatch(day, AsI64(batch));
        assert events.Keys == before.Keys - gone;
        total := total + deleted;
        more := deleted >= batch;
      }
    }

    /** The batched deletes over any order of the days amount to one filter. */
    method DeleteCandidateEvents(days: set<int>, batch: u64) returns (total: nat)
      requires batch >= 1 && forall day | day in days :: day % DAY_MS == 0
      modifies this`events
      ensures events == EventsAfter(old(events), days)
      ensures total == |old(events)| - |events|
    {
      total := 0;
      var todo := days;
      assert events == EventsAfter(events, {});
      while todo != {}
        invariant todo <= days
        invariant events == EventsAfter(old(events), days - todo)
        invariant total == |old(events)| - |events|
        decreases |todo|
      {
        ghost var some := Element(todo);
        var day :| day in todo;
        var deleted := DeleteDay(day, batch);
        FiltersCompose(old(events), days - todo, day);
        assert days - todo + {day} == days - (todo - {day});
        total := total + deleted;
        todo := todo - {day};
      }
      assert days - todo == days;
    }

    /** One blob row, as it was read: deleted when it is an archive row of a chosen day that no
        surviving event refers to. */
    method DeleteIfOrphan(days: set<int>, id: i64, row: BlobRow) returns (deleted: bool)
      requires id >= 0 && id in blobs
      modifies this`blobs
      ensures deleted == BlobDoomed(id, row, events, days)
      ensures blobs == if deleted then old(blobs) - {id} else old(blobs)
      ensures |old(blobs)| == |blobs| + if deleted then 1 else 0
    {
      deleted := false;
      if InArchive(row.storage) && DayFloor(row.createdAt) in days {
        var referencing := set e | e in events && events[e].sha == row.sha;
        ReferencedRows(events, row.sha, referencing);
        if referencing == {} {
          assert (blobs - {id}).Keys == blobs.Keys - {id};
          blobs := blobs - {id};
          deleted := true;
        }
      }
    }

    /** The blob rows of one rowid window, read first and then deleted one by one. */
    method DeleteWindow(days: set<int>, lo: i64, hi: i64) returns (total: nat)
      requires 0 <= lo
      modifies this`blobs
      ensures blobs == KeptBlobs(old(blobs), events, days, lo, hi)
      ensures total == |old(blobs)| - |blobs|
    {
      total := 0;
      ghost var start := blobs;
      var batchRows := map id | id in blobs && lo <= id < hi :: blobs[id];
      var todo := batchRows.Keys;
      ghost var seen: set<i64> := {};
      assert blobs == KeptAmong(start, events, days, seen);
      while todo != {}
        invariant todo == batchRows.Keys - seen && seen <= batchRows.Keys
        invariant blobs == KeptAmong(start, events, days, seen)
        invariant total == |start| - |blobs|
        decreases |todo|
      {
        var id :| id in todo;
        assert id in start && id !in seen && batchRows[id] == start[id];
        KeptOneMore(start, events, days, seen, id);
        var deleted := DeleteIfOrphan(days, id, batchRows[id]);
        total := total + if deleted then 1 else 0;
        todo, seen := todo - {id}, seen + {id};
      }
      KeptWindow(start, events, days, seen, lo, hi);
    }

    /** `delete_candidate_blobs`: windows of `batch` rowids from zero to the largest. It ends only for
        batches and rowids short of the 64-bit limit; see `WindowsEndIff`. */
    method DeleteCandidateBlobs(days: set<int>, batch: u64) returns (total: nat)
      requires 1 <= batch <= I64_MAX && forall id | id in blobs :: id < I64_MAX
      modifies this`blobs
      ensures blobs == BlobsAfter(old(blobs), events, days)
      ensures total == |old(blobs)| - |blobs|
    {
      var maxRowid := MaxRowid();
      total := 0;
      var lo: i64 := 0;
      assert blobs == KeptBlobs(blobs, events, days, 0, 0);
      while lo <= maxRowid
        invariant 0 <= lo
        invariant blobs == KeptBlobs(old(blobs), events, days, 0, lo)
        invariant total == |old(blobs)| - |blobs|
        decreases maxRowid - lo
      {
        var hi := SatAdd64(lo, AsI64(batch));
        var deleted := DeleteWindow(days, lo, hi);
        WindowsCompose(old(blobs), events, days, lo, hi);
        total := total + deleted;
        lo := hi;
      }
    }

    /** `COALESCE(MAX(rowid), 0)`. */
    method MaxRowid() returns (max: i64)
      ensures forall id | id in blobs :: id <= max
      ensures max == 0 || max in blobs
    {
      max := 0;
      var todo := blobs.Keys;
      var empty := true;
      while todo != {}
        invariant todo <= blobs.Keys
        invariant empty ==> todo == blobs.Keys && max == 0
        invariant !empty ==> max in blobs
        invariant forall id | id in blobs && id !in todo :: id <= max
        decreases |todo|
      {
        var id :| id in todo;
        if empty || id > max {
          max, empty := id, false;
        }
        todo := todo - {id};
      }
    }
  }

  /** The rows left when the windows from `lo` to `hi` have been scanned. */
  ghost function KeptBlobs(blobs: Blobs, events: Events, days: set<int>, lo: int, hi: int): Blobs {
    map id | id in blobs && !(lo <= id < hi && BlobDoomed(id, blobs[id], events, days)) :: blobs[id]
  }

  /** The rows left when those in `seen` have been looked at. */
  ghost function KeptAmong(blobs: Blobs, events: Events, days: set<int>, seen: set<i64>): Blobs {
    map id | id in blobs && !(id in seen && BlobDoomed(id, blobs[id], events, days)) :: blobs[id]
  }

  lemma KeptOneMore(blobs: Blobs, events: Events, days: set<int>, seen: set<i64>, id: i64)
    requires id in blobs && id !in seen
    ensures id in KeptAmong(blobs, events, days, seen)
    ensures KeptAmong(blobs, events, days, seen + {id}) ==
            if BlobDoomed(id, blobs[id], events, days)
            then KeptAmong(blobs, events, days, seen) - {id} else KeptAmong(blobs, events, days, seen)
  {
  }

  lemma KeptWindow(blobs: Blobs, events: Events, days: set<int>, seen: set<i64>, lo: int, hi: int)
    requires forall id :: id in seen <==> id in blobs && lo <= id < hi
    ensures KeptAmong(blobs, events, days, seen) == KeptBlobs(blobs, events, days, lo, hi)
  {
  }

  lemma WindowsCompose(blobs: Blobs, events: Events, days: set<int>, mid: int, hi: int)
    requires 0 <= mid <= hi
    ensures KeptBlobs(KeptBlobs(blobs, events, days, 0, mid), events, days, mid, hi)
              == KeptBlobs(blobs, events, days, 0, hi)
  {
  }

  lemma FiltersCompose(events: Events, days: set<int>, day: int)
    ensures EventsAfter(EventsAfter(events, days), {day}) == EventsAfter(events, days + {day})
  {
  }

  lemma ReferencedRows(events: Events, sha: string, rows: set<i64>)
    requires rows == set e | e in events && events[e].sha == sha
    ensures rows == {} <==> !Referenced(events, sha)
  {
    if Referenced(events, sha) {
      var id :| id in events && events[id].sha == sha;
      assert id in rows;
    }
  }

  lemma NextMultiple(day: int)
    requires day % DAY_MS == 0
    ensures (day + DAY_MS) % DAY_MS == 0
    ensures forall d | d % DAY_MS == 0 && day <= d < day + DAY_MS :: d == day
  {
  }

  lemma OldestDay(events: Events, min: int)
    requires exists id :: id in events && events[id].observedAt == min
    requires forall id | id in events :: min <= events[id].observedAt
    ensures DayFloor(min) % DAY_MS == 0
    ensures forall day :: DayFloor(min) <= day <==> Reached(events, day)
  {
  }

  lemma Element<T>(s: set<T>) returns (x: T)
    requires s != {}
    ensures x in s
  {
    x :| x in s;
  }

  lemma GatedRows(segments: set<SegmentRow>, verified: set<string>, day: int, rows: set<SegmentRow>)
    requires rows == set s | s in segments && Covers(s, day) && Checksummed(s)
    ensures Gated(segments, verified, day) <==> rows != {} && forall s | s in rows :: s.sha.value in verified
  {
    forall s
      ensures s in rows <==> s in segments && Covers(s, day) && Checksummed(s)
    {
    }
    if rows != {} {
      var some := Element(rows);
    }
  }

  // ---------------------------------------------------------------- termination of the window loop

  /** Where the window loop stands after `n` turns. */
  function WindowAt(batch: u64, n: nat): i64 {
    if n == 0 then 0 else SatAdd64(WindowAt(batch, n - 1), AsI64(batch))
  }

  lemma {:induction false} WindowAdvances(batch: u64, n: nat)
    requires 1 <= batch <= I64_MAX
    ensures WindowAt(batch, n) >= Min(n, I64_MAX)
  {
    if n > 0 {
      WindowAdvances(batch, n - 1);
    }
  }

  lemma {:induction false} WindowRetreats(batch: u64, n: nat)
    requires batch > I64_MAX
    ensures WindowAt(batch, n) <= 0
  {
    if n > 0 {
      WindowRetreats(batch, n - 1);
    }
  }

  /** The window loop leaves the table behind exactly when the batch size is a positive 64-bit signed
      number and the largest rowid is not the largest there is. */
  lemma WindowsEndIff(batch: u64, maxRowid: i64)
    requires batch >= 1 && maxRowid >= 0
    ensures (exists n: nat :: WindowAt(batch, n) > maxRowid) <==> batch <= I64_MAX && maxRowid < I64_MAX
  {
    if batch <= I64_MAX {
      WindowAdvances(batch, maxRowid + 1);
    } else {
      forall n: nat
        ensures WindowAt(batch, n) <= maxRowid
      {
        WindowRetreats(batch, n);
      }
    }
  }

  // ---------------------------------------------------------------- the whole collection

  function RetentionCutoff(now: int, keepDays: nat): int { DayFloor(now) - keepDays * DAY_MS }

  datatype Options = Options(keepDays: nat, batchSize: u64, confirm: bool, drainOnly: bool)

  datatype Surroundings = Surroundings(
    now: int, archiveMounted: bool, dirExists: Date -> bool, calendar: int -> Date, verified: set<string>)

  /** The days a confirmed collection forgets. */
  ghost predicate Forgotten(w: Surroundings, keepDays: nat, events: Events, segments: set<SegmentRow>, day: int) {
    && Candidate(events, w.dirExists, w.calendar, RetentionCutoff(w.now, keepDays), day)
    && Gated(segments, w.verified, day)
  }

  datatype Report = Report(refused: bool, eventsDeleted: nat, blobsDeleted: nat)

  method Collect(index: Tables, options: Options, w: Surroundings) returns (report: Report, ghost days: set<int>)
    requires w.archiveMounted && options.confirm && !options.drainOnly ==>
               options.batchSize <= I64_MAX && forall id | id in index.blobs :: id < I64_MAX
    modifies index
    ensures report.refused == !w.archiveMounted
    ensures w.archiveMounted && options.confirm && !options.drainOnly ==>
              forall day :: day in days <==> Forgotten(w, options.keepDays, old(index.events), index.segments, day)
    ensures !(w.archiveMounted && options.confirm && !options.drainOnly) ==> days == {}
    ensures index.events == EventsAfter(old(index.events), days)
    ensures index.blobs == BlobsAfter(old(index.blobs), index.events, days)
    ensures report.eventsDeleted == |old(index.events)| - |index.events|
    ensures report.blobsDeleted == |old(index.blobs)| - |index.blobs|
  {
    days := {};
    report := Report(!w.archiveMounted, 0, 0);
    assert index.events == EventsAfter(index.events, days);
    assert index.blobs == BlobsAfter(index.blobs, index.events, days);
    if !w.archiveMounted || options.drainOnly {
      return;
    }
    var candidates := index.CollectCandidateDays(w.dirExists, w.calendar, RetentionCutoff(w.now, options.keepDays));
    if options.confirm {
      var batch: u64 := if options.batchSize == 0 then 1 else options.batchSize;
      var gated := index.FilterReceiptGated(candidates, w.verified);
      days := gated;
      var eventsDeleted := index.DeleteCandidateEvents(gated, batch);
      var blobsDeleted := index.DeleteCandidateBlobs(gated, batch);
      report := Report(false, eventsDeleted, blobsDeleted);
    }
  }

  /** No surviving event loses its blob row. */
  lemma SurvivorsKeepBlobs(events: Events, blobs: Blobs, days: set<int>, e: i64, b: i64)
    requires e in EventsAfter(events, days) && b in blobs && blobs[b].sha == events[e].sha
    ensures b in BlobsAfter(blobs, EventsAfter(events, days), days)
  {
  }

  /** A second confirmed collection of the same days finds nothing left to delete. */
  lemma CollectionIdempotent(events: Events, blobs: Blobs, days: set<int>)
    ensures var events' := EventsAfter(events, days);
            && EventsAfter(events', days) == events'
            && BlobsAfter(BlobsAfter(blobs, events', days), events', days) == BlobsAfter(blobs, events', days)
  {
  }

  /** Because a segment's records share a day, its first and last times decide its coverage: it covers
      that day and no other. */
  lemma SegmentCoversItsDayOnly(s: SegmentRow, day: int)
    requires DayFloor(s.first) == DayFloor(s.last) && day % DAY_MS == 0
    ensures Covers(s, day) <==> DayFloor(s.first) == day
  {
  }

  /** Segments without a checksum are passed over: every segment covering a forgotten day is in the
      receipts exactly when none of them is still unsealed. */
  lemma ForgottenDayBackedIff(segments: set<SegmentRow>, verified: set<string>, day: int)
    requires Gated(segments, verified, day)
    ensures (forall s | s in segments && Covers(s, day) ::
              s.sha.Some? && s.sha.value in verified && s.sha.value != "") <==>
            forall s | s in segments && Covers(s, day) :: Checksummed(s)
  {
  }

  /** An unsealed segment beside a receipted one does not stop its day from being forgotten. */
  lemma UnsealedSegmentIsPassedOver()
    ensures exists segments: set<SegmentRow>, verified: set<string>, s: SegmentRow ::
              s in segments && Covers(s, 0) && s.sha.None? && Gated(segments, verified, 0)
  {
    var sealed := SegmentRow("a", 0, 1, Some("x"));
    var open := SegmentRow("b", 0, 1, None);
    var segments := {sealed, open};
    assert sealed in segments && Covers(sealed, 0) && Checksummed(sealed);
    assert Gated(segments, {"x"}, 0);
    assert open in segments && Covers(open, 0);
  }

  /** No event of the last `keepDays` days is ever forgotten: all of a forgotten day is further back. */
  lemma RecentDaysAreKept(w: Surroundings, keepDays: nat, events: Events, segments: set<SegmentRow>, day: int, ms: int)
    requires Forgotten(w, keepDays, events, segments, day) && DayFloor(ms) == day
    ensures w.now - ms > keepDays * 86_400_000
  {
    var cutoff := RetentionCutoff(w.now, keepDays);
    FloorBounds(ms, DAY_MS);
    FloorBounds(w.now, DAY_MS);
    var a, b := day / DAY_MS, w.now / DAY_MS - keepDays;
    assert day == a * DAY_MS && cutoff == b * DAY_MS;
    assert a < b;
  }

  /** And every whole day before those is a candidate, unless its directory is there or no event is as old. */
  lemma OlderDaysAreCandidates(w: Surroundings, keepDays: nat, events: Events, day: int)
    requires day % DAY_MS == 0 && day + 86_400_000 <= DayFloor(w.now) - keepDays * 86_400_000
    ensures Candidate(events, w.dirExists, w.calendar, RetentionCutoff(w.now, keepDays), day) <==>
              !w.dirExists(DateParts(w.calendar, day)) && Reached(events, day)
  {
  }

  /** Which rows survive, in the storage names the tables use. */
  lemma SurvivorsAre(events: Events, blobs: Blobs, days: set<int>, id: i64)
    ensures id in events ==>
              (id !in EventsAfter(events, days) <==>
                 events[id].storage !in {"spool", "spool_segment"} && DayFloor(events[id].observedAt) in days)
    ensures id in blobs && id >= 0 ==>
              (id !in BlobsAfter(blobs, events, days) <==>
                 && blobs[id].storage in {"archive", "archive_segment"} && DayFloor(blobs[id].createdAt) in days
                 && forall e | e in events :: events[e].sha != blobs[id].sha)
  {
  }
}
