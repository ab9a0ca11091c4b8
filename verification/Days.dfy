/** UTC day and rotation-bucket arithmetic, and the calendar date that names a day directory. */
module Days {
  const DAY_MS: int := 86_400_000
  const ROTATE_MS: int := 900_000

  /** The days the calendar library can name: 1 January -9999 to 31 December 9999. */
  const FIRST_DAY: int := -4_371_587
  const LAST_DAY: int := 2_932_896

  /** Euclidean, so that times before 1970 round down too. */
  function DayFloor(ms: int): int { ms / DAY_MS * DAY_MS }

  function BucketFloor(ms: int): int { ms / ROTATE_MS * ROTATE_MS }

  datatype Date = Date(year: int, month: nat, day: nat)

  /** `date_parts`: via whole seconds, and the epoch for what the library cannot represent. */
  function DateParts(calendar: int -> Date, ms: int): Date {
    var day := ms / 1000 / 86_400;
    calendar(if FIRST_DAY <= day <= LAST_DAY then day else 0)
  }

  lemma FloorBounds(ms: int, unit: int)
    requires unit > 0
    ensures ms / unit * unit <= ms < ms / unit * unit + unit
  {
  }

  lemma OrderedProduct(a: int, b: int, unit: nat)
    ensures a >= b ==> a * unit >= b * unit
  {
  }

  lemma SmallerProduct(a: int, b: int, unit: int)
    requires unit > 0 && a * unit < b * unit + unit
    ensures a <= b
  {
    OrderedProduct(a, b + 1, unit);
    assert (b + 1) * unit == b * unit + unit;
  }

  lemma MultipleFloors(k: int, unit: int, ms: int)
    requires unit > 0 && k * unit <= ms < k * unit + unit
    ensures ms / unit == k
  {
    FloorBounds(ms, unit);
    SmallerProduct(k, ms / unit, unit);
    SmallerProduct(ms / unit, k, unit);
  }

  /** A half-open day interval holds exactly the times that round down to its start. */
  lemma DayIntervalIsDay(start: int, ms: int)
    requires start % DAY_MS == 0
    ensures start <= ms < start + DAY_MS <==> DayFloor(ms) == start
  {
  }

  /** A bucket never straddles midnight: it starts on the day of each time in it. */
  lemma BucketWithinDay(ms: int)
    ensures DayFloor(BucketFloor(ms)) == DayFloor(ms)
  {
    FloorBounds(ms, DAY_MS);
    FloorBounds(ms, ROTATE_MS);
    var d, b := ms / DAY_MS, ms / ROTATE_MS;
    assert DAY_MS == 96 * ROTATE_MS;
    MultipleFloors(d, DAY_MS, b * ROTATE_MS);
  }

  /** All times of a day share one calendar date, representable or not. */
  lemma DateOfDay(calendar: int -> Date, ms: int)
    ensures DateParts(calendar, ms) == DateParts(calendar, DayFloor(ms))
  {
  }

  ghost predicate Representable(ms: int) { FIRST_DAY <= ms / DAY_MS <= LAST_DAY }

  /** With a calendar that names each day once, two times are filed under the same date exactly when
      they fall on the same day, or when each is either unrepresentable or on 1 January 1970. */
  lemma SameDateIff(calendar: int -> Date, a: int, b: int)
    requires forall d, d' | FIRST_DAY <= d <= LAST_DAY && FIRST_DAY <= d' <= LAST_DAY ::
               calendar(d) == calendar(d') ==> d == d'
    ensures DateParts(calendar, a) == DateParts(calendar, b) <==>
              || DayFloor(a) == DayFloor(b)
              || ((!Representable(a) || DayFloor(a) == 0) && (!Representable(b) || DayFloor(b) == 0))
  {
  }

  /** A day is 24 hours and a bucket a quarter of an hour, counted from the epoch in both directions. */
  lemma FloorsAre(ms: int)
    ensures DayFloor(ms) <= ms < DayFloor(ms) + 24 * 60 * 60 * 1_000
    ensures BucketFloor(ms) <= ms < BucketFloor(ms) + 15 * 60 * 1_000
    ensures DayFloor(0) == BucketFloor(0) == 0
    ensures DayFloor(ms + 86_400_000) == DayFloor(ms) + 86_400_000
    ensures BucketFloor(ms + 900_000) == BucketFloor(ms) + 900_000
  {
    FloorBounds(ms, DAY_MS);
    FloorBounds(ms, ROTATE_MS);
    MultipleFloors(ms / DAY_MS + 1, DAY_MS, ms + DAY_MS);
    MultipleFloors(ms / ROTATE_MS + 1, ROTATE_MS, ms + ROTATE_MS);
  }
}
