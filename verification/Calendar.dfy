/**
 The calendar behind localtime_r() and mktime(): the proleptic Gregorian calendar with a
 constant offset from UTC. Months are counted in one line of integers, twelve to a year, so that
 the civil date of a day is the pair (month index, day of month).
 */
module Calendar {
  import opened Arithmetic

  const DAY_SECONDS := 86400

  /** The month index of January 1970. */
  const EPOCH_MONTH := 23640

  /** Broken-down time. `year` counts from year 0, `mon` from 0 (January); the others as in C. */
  datatype Tm = Tm(year: int, mon: int, mday: int, hour: int, min: int, sec: int)

  predicate Leap(y: int) {
    y % 4 == 0 && (y % 100 != 0 || y % 400 == 0)
  }

  function MonthLength(i: int): (n: int)
    ensures 28 <= n <= 31
  {
    var m := i % 12;
    if m == 1 then (if Leap(i / 12) then 29 else 28)
    else if m == 3 || m == 5 || m == 8 || m == 10 then 30
    else 31
  }

  /** Day number of the first day of month `i`; day 0 is 1 January 1970. */
  function MonthFirst(i: int): int
    decreases if i < EPOCH_MONTH then EPOCH_MONTH - i else i - EPOCH_MONTH
  {
    if i == EPOCH_MONTH then 0
    else if EPOCH_MONTH < i then MonthFirst(i - 1) + MonthLength(i - 1)
    else MonthFirst(i + 1) - MonthLength(i)
  }

  /** Consecutive months tile the line of days. */
  lemma MonthTile(i: int)
    ensures MonthFirst(i + 1) == MonthFirst(i) + MonthLength(i)
  {
  }

  lemma {:induction false} MonthFirstIncreases(i: int, j: int)
    requires i < j
    ensures MonthFirst(i) + 28 * (j - i) <= MonthFirst(j)
    decreases j - i
  {
    hide *;
    MonthTile(j - 1);
    if i < j - 1 {
      MonthFirstIncreases(i, j - 1);
    }
  }

  /** The month that holds day `d`, searched outwards from month `i`. */
  function MonthFrom(d: int, i: int): (r: int)
    ensures MonthFirst(r) <= d < MonthFirst(r + 1)
    decreases
      if d < MonthFirst(i) then MonthFirst(i) - d
      else if MonthFirst(i + 1) <= d then d - MonthFirst(i + 1) + 1
      else 0
  {
    hide *;
    MonthTile(i);
    MonthTile(i - 1);
    MonthTile(i + 1);
    if d < MonthFirst(i) then MonthFrom(d, i - 1)
    else if MonthFirst(i + 1) <= d then MonthFrom(d, i + 1)
    else i
  }

  function MonthOfDay(d: int): (r: int)
    ensures MonthFirst(r) <= d < MonthFirst(r + 1)
  {
    MonthFrom(d, EPOCH_MONTH)
  }

  /** A day lies in exactly one month. */
  lemma MonthUnique(d: int, i: int)
    requires MonthFirst(i) <= d < MonthFirst(i + 1)
    ensures MonthOfDay(d) == i
  {
    hide *;
    var r := MonthOfDay(d);
    if r < i {
      if r + 1 < i { MonthFirstIncreases(r + 1, i); }
    } else if i < r {
      if i + 1 < r { MonthFirstIncreases(i + 1, r); }
    }
  }

  /** mktime(): fields may lie outside their ranges; months carry into years, the rest adds up. */
  function MkTime(tm: Tm, off: int): int {
    (MonthFirst(12 * tm.year + tm.mon) + tm.mday - 1) * DAY_SECONDS + tm.hour * 3600 + tm.min * 60 + tm.sec - off
  }

  function DayOf(t: int, off: int): int {
    (t + off) / DAY_SECONDS
  }

  function SecondOfDay(t: int, off: int): int {
    (t + off) % DAY_SECONDS
  }

  function MonthIndex(t: int, off: int): int {
    MonthOfDay(DayOf(t, off))
  }

  /** localtime_r(). */
  function LocalTime(t: int, off: int): Tm {
    var d, s := DayOf(t, off), SecondOfDay(t, off);
    var i := MonthOfDay(d);
    Tm(i / 12, i % 12, d - MonthFirst(i) + 1, s / 3600, s % 3600 / 60, s % 60)
  }

  /** Day of the week, 0 is Sunday; 1 January 1970 was a Thursday. */
  function WeekDay(t: int, off: int): int {
    (DayOf(t, off) + 4) % 7
  }

  predicate InRange(tm: Tm) {
    && 0 <= tm.mon < 12
    && 1 <= tm.mday <= MonthLength(12 * tm.year + tm.mon)
    && 0 <= tm.hour < 24 && 0 <= tm.min < 60 && 0 <= tm.sec < 60
  }

  /** mktime() undoes localtime_r(), whose fields are always in range. */
  lemma LocalTimeThenMkTime(t: int, off: int)
    ensures InRange(LocalTime(t, off))
    ensures MkTime(LocalTime(t, off), off) == t
    ensures 12 * LocalTime(t, off).year + LocalTime(t, off).mon == MonthIndex(t, off)
  {
  }

  /** localtime_r() undoes mktime() on fields in range: instants and civil times are in bijection. */
  lemma MkTimeThenLocalTime(tm: Tm, off: int)
    requires InRange(tm)
    ensures LocalTime(MkTime(tm, off), off) == tm
  {
    hide MonthFirst, MonthOfDay, MonthLength;
    var i := 12 * tm.year + tm.mon;
    var d := MonthFirst(i) + tm.mday - 1;
    MonthTile(i);
    MonthUnique(d, i);
    var s := tm.hour * 3600 + tm.min * 60 + tm.sec;
    assert MkTime(tm, off) + off == d * DAY_SECONDS + s;
    assert DayOf(MkTime(tm, off), off) == d && SecondOfDay(MkTime(tm, off), off) == s;
  }

  /** Later instants never lie in earlier months. */
  lemma MonthIndexMonotone(t: int, u: int, off: int)
    requires t <= u
    ensures MonthIndex(t, off) <= MonthIndex(u, off)
  {
    hide MonthFirst, MonthOfDay, MonthLength;
    var i, j := MonthIndex(t, off), MonthIndex(u, off);
    assert DayOf(t, off) <= DayOf(u, off);
    if j < i {
      if j + 1 < i { MonthFirstIncreases(j + 1, i); }
    }
  }

  /** Days of year `y` before its month `m`. */
  function MonthOffset(y: int, m: int): int
    requires 0 <= m < 12
  {
    [0, 31, 59, 90, 120, 151, 181, 212, 243, 273, 304, 334][m] + (if m >= 2 && Leap(y) then 1 else 0)
  }

  /** The formula for seconds since the Epoch in section 4.16 of the POSIX.1-2017 Base Definitions. */
  function PosixSeconds(tm: Tm, yday: int): int {
    var y := tm.year - 1900;
    tm.sec + tm.min * 60 + tm.hour * 3600 + yday * 86400 + (y - 70) * 31536000
    + (y - 69) / 4 * 86400 - (y - 1) / 100 * 86400 + (y + 299) / 400 * 86400
  }

  function PosixDays(y: int): int {
    365 * (y - 1970) + (y - 1969) / 4 - (y - 1901) / 100 + (y - 1601) / 400
  }

  /** The quotient grows by one at the multiples of k, and these are the same when counted from a multiple. */
  lemma QuotientStep(y: int, c: int, m: int, k: int)
    requires 1 < k && c == m * k
    ensures (y - c) / k - (y - c - 1) / k == if y % k == 0 then 1 else 0
  {
    var q, r := y / k, y % k;
    assert (q - m) * k == q * k - m * k && (q - m - 1) * k == q * k - m * k - k;
    Divide(y - c, q - m, k, r);
    if r == 0 { Divide(y - c - 1, q - m - 1, k, k - 1); } else { Divide(y - c - 1, q - m, k, r - 1); }
  }

  lemma PosixDaysStep(y: int)
    ensures PosixDays(y + 1) - PosixDays(y) == if Leap(y) then 366 else 365
  {
    QuotientStep(y, 1968, 492, 4);
    QuotientStep(y, 1900, 19, 100);
    QuotientStep(y, 1600, 4, 400);
    Divide(y, 4 * (y / 400) + y % 400 / 100, 100, y % 400 % 100);
    Divide(y, 25 * (y / 100) + y % 100 / 4, 4, y % 100 % 4);
  }

  lemma MonthWithinYear(y: int, m: nat)
    requires m < 12
    ensures MonthFirst(12 * y + m) == MonthFirst(12 * y) + MonthOffset(y, m)
  {
    hide MonthFirst;
    if m > 0 {
      MonthWithinYear(y, m - 1);
      MonthTile(12 * y + m - 1);
      assert (12 * y + m - 1) / 12 == y && (12 * y + m - 1) % 12 == m - 1;
    }
  }

  lemma {:induction false} YearFirst(y: int)
    requires 1970 <= y
    ensures MonthFirst(12 * y) == PosixDays(y)
  {
    hide MonthFirst;
    if y == 1970 {
      assert MonthFirst(12 * y) == 0 by { EpochIsZero(); }
    } else {
      YearFirst(y - 1);
      PosixDaysStep(y - 1);
      MonthWithinYear(y - 1, 11);
      MonthTile(12 * y - 1);
      assert (12 * y - 1) / 12 == y - 1 && (12 * y - 1) % 12 == 11;
    }
  }

  lemma EpochIsZero()
    ensures MonthFirst(12 * 1970) == 0
  {
  }

  /** On UTC fields from 1970 on, with the month in range, mktime() is the POSIX formula. */
  lemma MkTimeIsPosix(tm: Tm)
    requires 0 <= tm.mon < 12 && 1970 <= tm.year
    ensures MkTime(tm, 0) == PosixSeconds(tm, MonthOffset(tm.year, tm.mon) + tm.mday - 1)
  {
    hide MonthFirst, MonthOffset;
    YearFirst(tm.year);
    MonthWithinYear(tm.year, tm.mon);
  }
}
