/**
 Turning "on hour 5" or "to day 12" into the number of seconds from now: the field-bumping code of
 _parse_req_arg() against a search for the least instant whose fields match.
 */
module NextOccurrence {
  import opened Arithmetic
  import opened Calendar
  import opened Language

  /** Instant `t` is one that "on <adverb> <val>" names: its field is `val` and all smaller fields are zero
      (the first of the month for months). Weekdays count from 1 (Sunday). */
  predicate Matches(a: Adverb, val: int, t: int, off: int) {
    var tm := LocalTime(t, off);
    match a
    case Seconds => tm.sec == val
    case Minutes => tm.min == val && tm.sec == 0
    case Hours => tm.hour == val && tm.min == 0 && tm.sec == 0
    case Days => tm.mday == val && SecondOfDay(t, off) == 0
    case Months => tm.mon == val && tm.mday == 1 && SecondOfDay(t, off) == 0
    case Weekdays => WeekDay(t, off) == val - 1 && SecondOfDay(t, off) == 0
    case _ => false
  }

  ghost predicate LeastAfter(a: Adverb, val: int, now: int, t: int, off: int) {
    && now < t
    && Matches(a, val, t, off)
    && forall u :: now < u < t ==> !Matches(a, val, u, off)
  }

  predicate Periodic(a: Adverb) {
    a == Seconds || a == Minutes || a == Hours || a == Days || a == Months || a == Weekdays
  }

  /** The month whose day `val` the code picks: this one while its day is still to come, else the next. */
  function PickedMonth(val: int, now: int, off: int): int {
    var i := MonthIndex(now, off);
    if LocalTime(now, off).mday >= val then i + 1 else i
  }

  /** The values for which "on <adverb> <val>" names an instant the code can reach, given the current time. */
  predicate Nameable(a: Adverb, val: int, now: int, off: int) {
    match a
    case Seconds => 0 <= val < 60
    case Minutes => 0 <= val < 60
    case Hours => 0 <= val < 24
    case Days => 1 <= val <= MonthLength(PickedMonth(val, now, off))
    case Months => 0 <= val < 12
    case Weekdays => 1 <= val <= 7
    case _ => false
  }

  /** The instant that the code reaches, in closed form. */
  function Target(a: Adverb, val: int, now: int, off: int): int {
    var l := now + off;
    var tm := LocalTime(now, off);
    match a
    case Seconds => (l / 60 + (if l % 60 >= val then 1 else 0)) * 60 + val - off
    case Minutes => (l / 3600 + (if l % 3600 / 60 >= val then 1 else 0)) * 3600 + val * 60 - off
    case Hours => (l / 86400 + (if l % 86400 / 3600 >= val then 1 else 0)) * 86400 + val * 3600 - off
    case Days => (MonthFirst(PickedMonth(val, now, off)) + val - 1) * DAY_SECONDS - off
    case Weeks =>
      var yday := DayOf(now, off) - MonthFirst(12 * tm.year);
      (MonthFirst(12 * (if yday / 7 >= val then tm.year + 1 else tm.year)) + val * 7 - 1) * DAY_SECONDS - off
    case Months => MonthFirst(12 * (if tm.mon >= val then tm.year + 1 else tm.year) + val) * DAY_SECONDS - off
    case Years => MonthFirst(12 * (1900 + val)) * DAY_SECONDS - off
    case Weekdays =>
      var w := WeekDay(now, off);
      (DayOf(now, off) + (if w < val - 1 then val - 1 - w else 7 - w + (val - 1))) * DAY_SECONDS - off
    case _ => now - 1
  }

  // ---- The least multiple-plus-remainder after a number ----

  /** Of the numbers k * p + r, the first one after q * p + s has quotient q or q + 1. */
  lemma FirstAfter(q: int, s: int, p: int, r: int, v: int)
    requires 0 <= r < p && 0 <= s < p
    ensures var k := q + (if s >= r then 1 else 0);
            q * p + s < k * p + r && (q * p + s < v * p + r ==> k * p + r <= v * p + r)
  {
    var k := q + (if s >= r then 1 else 0);
    assert (q + 1) * p == q * p + p;
    MulMono(v, k, p);
    MulMono(v, q, p);
    assert v < q ==> v * p + p <= q * p by {
      assert (v + 1) * p == v * p + p;
      MulMono(q, v + 1, p);
    }
  }

  lemma NestedRemainder(l: int)
    ensures l % 86400 % 60 == l % 60
    ensures l % 86400 % 3600 == l % 3600
  {
    var d, s := l / 86400, l % 86400;
    Divide(l, 1440 * d + s / 60, 60, s % 60);
    Divide(l, 24 * d + s / 3600, 3600, s % 3600);
  }

  lemma ClockMatch(val: int, t: int, off: int)
    ensures 0 <= val < 60 ==> (Matches(Seconds, val, t, off) <==> (t + off) % 60 == val)
    ensures 0 <= val < 60 ==> (Matches(Minutes, val, t, off) <==> (t + off) % 3600 == val * 60)
    ensures 0 <= val < 24 ==> (Matches(Hours, val, t, off) <==> (t + off) % 86400 == val * 3600)
  {
    hide MonthOfDay, MonthFirst;
    NestedRemainder(t + off);
    var s := SecondOfDay(t, off);
    assert s == s / 3600 * 3600 + s % 3600;
    assert s % 3600 == s % 3600 / 60 * 60 + s % 3600 % 60;
    assert s % 3600 % 60 == s % 60;
  }

  lemma SecondsLeast(val: int, now: int, off: int, u: int)
    requires 0 <= val < 60
    ensures var t := Target(Seconds, val, now, off);
            now < t && Matches(Seconds, val, t, off) && (now < u < t ==> !Matches(Seconds, val, u, off))
  {
    hide Matches, LocalTime, MonthFirst, PickedMonth;
    var l := now + off;
    var t := Target(Seconds, val, now, off);
    Divide(t + off, l / 60 + (if l % 60 >= val then 1 else 0), 60, val);
    FirstAfter(l / 60, l % 60, 60, val, (u + off) / 60);
    ClockMatch(val, t, off);
    ClockMatch(val, u, off);
  }

  lemma MinutesLeast(val: int, now: int, off: int, u: int)
    requires 0 <= val < 60
    ensures var t := Target(Minutes, val, now, off);
            now < t && Matches(Minutes, val, t, off) && (now < u < t ==> !Matches(Minutes, val, u, off))
  {
    hide Matches, LocalTime, MonthFirst, PickedMonth;
    var l := now + off;
    var t := Target(Minutes, val, now, off);
    assert l % 3600 / 60 >= val <==> l % 3600 >= val * 60;
    Divide(t + off, l / 3600 + (if l % 3600 >= val * 60 then 1 else 0), 3600, val * 60);
    FirstAfter(l / 3600, l % 3600, 3600, val * 60, (u + off) / 3600);
    ClockMatch(val, t, off);
    ClockMatch(val, u, off);
  }

  lemma HoursLeast(val: int, now: int, off: int, u: int)
    requires 0 <= val < 24
    ensures var t := Target(Hours, val, now, off);
            now < t && Matches(Hours, val, t, off) && (now < u < t ==> !Matches(Hours, val, u, off))
  {
    hide Matches, LocalTime, MonthFirst, PickedMonth;
    var l := now + off;
    var t := Target(Hours, val, now, off);
    assert l % 86400 / 3600 >= val <==> l % 86400 >= val * 3600;
    Divide(t + off, l / 86400 + (if l % 86400 >= val * 3600 then 1 else 0), 86400, val * 3600);
    FirstAfter(l / 86400, l % 86400, 86400, val * 3600, (u + off) / 86400);
    ClockMatch(val, t, off);
    ClockMatch(val, u, off);
  }

  // ---- Midnights ----

  /** A midnight is the start of its day; it comes after an instant iff its day does. */
  lemma Midnight(t: int, off: int, now: int)
    requires SecondOfDay(t, off) == 0
    ensures t == DayOf(t, off) * DAY_SECONDS - off
    ensures now < t <==> DayOf(now, off) < DayOf(t, off)
  {
  }

  lemma StartOfDay(d: int, off: int)
    ensures DayOf(d * DAY_SECONDS - off, off) == d && SecondOfDay(d * DAY_SECONDS - off, off) == 0
  {
  }

  lemma WeekdaysLeast(val: int, now: int, off: int, u: int)
    requires 1 <= val <= 7
    ensures var t := Target(Weekdays, val, now, off);
            now < t && Matches(Weekdays, val, t, off) && (now < u < t ==> !Matches(Weekdays, val, u, off))
  {
    hide LocalTime, MonthFirst, PickedMonth, SecondOfDay, DayOf;
    var d := DayOf(now, off);
    var t := Target(Weekdays, val, now, off);
    var q := (d + 4) / 7 + (if (d + 4) % 7 >= val - 1 then 1 else 0);
    StartOfDay(q * 7 + (val - 1) - 4, off);
    Divide(DayOf(t, off) + 4, q, 7, val - 1);
    Midnight(t, off, now);
    FirstAfter((d + 4) / 7, (d + 4) % 7, 7, val - 1, (DayOf(u, off) + 4) / 7);
    if Matches(Weekdays, val, u, off) {
      Midnight(u, off, now);
    }
  }

  /** A matching midnight is fixed by its month. */
  lemma DayOfMonth(val: int, u: int, off: int)
    requires Matches(Days, val, u, off)
    ensures DayOf(u, off) == MonthFirst(MonthIndex(u, off)) + val - 1
    ensures 1 <= val <= MonthLength(MonthIndex(u, off))
  {
  }

  lemma DaysLeast(val: int, now: int, off: int, u: int)
    requires Nameable(Days, val, now, off)
    ensures var t := Target(Days, val, now, off);
            now < t && Matches(Days, val, t, off) && (now < u < t ==> !Matches(Days, val, u, off))
  {
    hide MonthOfDay, MonthFirst, MonthLength, SecondOfDay, DayOf;
    var i := MonthIndex(now, off);
    var j := PickedMonth(val, now, off);
    var d := MonthFirst(j) + val - 1;
    var t := Target(Days, val, now, off);
    StartOfDay(d, off);
    MonthTile(i);
    MonthTile(j);
    MonthUnique(d, j);
    Midnight(t, off, now);
    if now < u < t && Matches(Days, val, u, off) {
      DayOfMonth(val, u, off);
      Midnight(u, off, now);
      MonthIndexMonotone(now, u, off);
      MonthIndexMonotone(u, t, off);
    }
  }

  /** Outside the days of the picked month the code lands on another day of the month. */
  lemma DaysMiss(val: int, now: int, off: int)
    requires !Nameable(Days, val, now, off)
    ensures !Matches(Days, val, Target(Days, val, now, off), off)
  {
    hide MonthOfDay, MonthFirst, MonthLength, SecondOfDay, DayOf;
    var j := PickedMonth(val, now, off);
    var d := MonthFirst(j) + val - 1;
    var t := Target(Days, val, now, off);
    if Matches(Days, val, t, off) {
      StartOfDay(d, off);
      DayOfMonth(val, t, off);
      var i := MonthIndex(t, off);
      assert MonthFirst(i) == MonthFirst(j);
      if i < j { MonthFirstIncreases(i, j); } else if j < i { MonthFirstIncreases(j, i); }
    }
  }

  lemma MonthsLeast(val: int, now: int, off: int, u: int)
    requires 0 <= val < 12
    ensures var t := Target(Months, val, now, off);
            now < t && Matches(Months, val, t, off) && (now < u < t ==> !Matches(Months, val, u, off))
  {
    hide MonthOfDay, MonthFirst, MonthLength, SecondOfDay, DayOf, PickedMonth;
    var i := MonthIndex(now, off);
    var j := 12 * (if i % 12 >= val then i / 12 + 1 else i / 12) + val;
    var t := Target(Months, val, now, off);
    StartOfDay(MonthFirst(j), off);
    MonthTile(j);
    MonthUnique(MonthFirst(j), j);
    Divide(j, j / 12, 12, val);
    if i + 1 < j { MonthFirstIncreases(i + 1, j); }
    Midnight(t, off, now);
    if now < u < t && Matches(Months, val, u, off) {
      var k := MonthIndex(u, off);
      assert DayOf(u, off) == MonthFirst(k);
      Midnight(u, off, now);
      MonthIndexMonotone(now, u, off);
      MonthIndexMonotone(u, t, off);
      FirstAfter(i / 12, i % 12, 12, val, k / 12);
    }
  }

  lemma LeastAt(a: Adverb, val: int, now: int, off: int, u: int)
    requires Periodic(a) && Nameable(a, val, now, off)
    ensures var t := Target(a, val, now, off);
            now < t && Matches(a, val, t, off) && (now < u < t ==> !Matches(a, val, u, off))
  {
    hide LocalTime, Target, Matches, PickedMonth, MonthLength, MonthFirst;
    match a
    case Seconds => SecondsLeast(val, now, off, u);
    case Minutes => MinutesLeast(val, now, off, u);
    case Hours => HoursLeast(val, now, off, u);
    case Days => DaysLeast(val, now, off, u);
    case Months => MonthsLeast(val, now, off, u);
    case Weekdays => WeekdaysLeast(val, now, off, u);
  }

  /** The code lands on the least matching instant after now exactly when the value is nameable. */
  lemma LeastIffNameable(a: Adverb, val: int, now: int, off: int)
    requires Periodic(a)
    ensures LeastAfter(a, val, now, Target(a, val, now, off), off) <==> Nameable(a, val, now, off)
  {
    hide LocalTime, Target, Matches, PickedMonth, MonthLength, MonthFirst;
    var t := Target(a, val, now, off);
    if Nameable(a, val, now, off) {
      LeastAt(a, val, now, off, t);
      forall u | now < u < t ensures !Matches(a, val, u, off) { LeastAt(a, val, now, off, u); }
    } else if a == Days {
      DaysMiss(val, now, off);
    } else if Matches(a, val, t, off) {
      FieldRanges(a, val, t, off);
    }
  }

  lemma FieldRanges(a: Adverb, val: int, t: int, off: int)
    requires Matches(a, val, t, off)
    ensures a == Seconds || a == Minutes ==> 0 <= val < 60
    ensures a == Hours ==> 0 <= val < 24
    ensures a == Months ==> 0 <= val < 12
    ensures a == Weekdays ==> 1 <= val <= 7
  {
  }

  /** "on day 31" said on 31 January lands on 3 March 2015: February has no such day. */
  lemma DayThirtyOneOverflows()
    ensures var now := MkTime(Tm(2015, 0, 31, 12, 0, 0), 0);
            LocalTime(Target(Days, 31, now, 0), 0) == Tm(2015, 2, 3, 0, 0, 0)
  {
    hide MonthOfDay, MonthFirst;
    var from := Tm(2015, 0, 31, 12, 0, 0);
    MkTimeThenLocalTime(from, 0);
    var now := MkTime(from, 0);
    LocalTimeThenMkTime(now, 0);
    MonthTile(12 * 2015 + 1);
    MkTimeThenLocalTime(Tm(2015, 2, 3, 0, 0, 0), 0);
  }

  // ---- Years and weeks ----

  lemma YearBounds(t: int, off: int)
    ensures var y := LocalTime(t, off).year;
            MonthFirst(12 * y) <= DayOf(t, off) < MonthFirst(12 * (y + 1))
  {
    hide MonthFirst, MonthOfDay;
    var i, y := MonthIndex(t, off), LocalTime(t, off).year;
    MonthFirstMono(12 * y, i);
    MonthFirstMono(i + 1, 12 * (y + 1));
  }

  lemma MonthFirstMono(i: int, j: int)
    requires i <= j
    ensures MonthFirst(i) <= MonthFirst(j)
  {
    if i < j { MonthFirstIncreases(i, j); }
  }

  /** "on year" names the first second of that year, which lies ahead exactly if the year does. */
  lemma YearTarget(val: int, now: int, off: int)
    ensures var t := Target(Years, val, now, off);
            && LocalTime(t, off) == Tm(1900 + val, 0, 1, 0, 0, 0)
            && (now < t <==> LocalTime(now, off).year < 1900 + val)
  {
    hide MonthFirst, MonthOfDay, LocalTime;
    var y := LocalTime(now, off).year;
    MkTimeThenLocalTime(Tm(1900 + val, 0, 1, 0, 0, 0), off);
    YearBounds(now, off);
    if y < 1900 + val {
      MonthFirstMono(12 * (y + 1), 12 * (1900 + val));
    } else {
      MonthFirstMono(12 * (1900 + val), 12 * y);
    }
  }

  /** "on week" names midnight of the last day of that week of this year, or of the next if the week has passed. */
  lemma WeekTarget(val: int, now: int, off: int)
    requires 1 <= val <= 52
    ensures var t, y := Target(Weeks, val, now, off), LocalTime(now, off).year;
            var first := MonthFirst(12 * LocalTime(t, off).year);
            && SecondOfDay(t, off) == 0 && DayOf(t, off) - first == 7 * val - 1
            && LocalTime(t, off).year == (if DayOf(now, off) - MonthFirst(12 * y) < 7 * val then y else y + 1)
            && DayOf(now, off) <= DayOf(t, off)
  {
    hide MonthFirst, MonthOfDay, LocalTime;
    var t, y := Target(Weeks, val, now, off), LocalTime(now, off).year;
    YearBounds(now, off);
    YearBounds(t, off);
    var z := if (DayOf(now, off) - MonthFirst(12 * y)) / 7 >= val then y + 1 else y;
    assert DayOf(t, off) == MonthFirst(12 * z) + val * 7 - 1;
    YearLong(z);
    var x := LocalTime(t, off).year;
    if x < z { MonthFirstMono(12 * (x + 1), 12 * z); }
    if z < x { MonthFirstMono(12 * (z + 1), 12 * x); }
  }

  lemma YearLong(y: int)
    ensures MonthFirst(12 * (y + 1)) - MonthFirst(12 * y) >= 365
  {
    hide MonthFirst;
    MonthWithinYear(y, 11);
    MonthTile(12 * y + 11);
    assert (12 * y + 11) % 12 == 11 && (12 * y + 11) / 12 == y;
  }
}
