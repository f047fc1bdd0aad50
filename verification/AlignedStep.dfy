/**
 Stepping a trigger by whole months or years: schedule_step_ts_add_month() and
 schedule_step_ts_add_year(), with the 32-bit trigger and step fields of an entry.
 */
module AlignedStep {
  import opened Arithmetic
  import opened Calendar
  import opened Limits

  const MONTH_SECONDS := 2592000
  const YEAR_SECONDS := 31536000

  /** mktime() on the local time of `t` with its month moved by `n`; `n` months are added to the month field. */
  function MonthsLater(t: int, n: int, off: int): int {
    var tm := LocalTime(t, off);
    MkTime(tm.(mon := tm.mon + n), off)
  }

  function YearsLater(t: int, n: int, off: int): int {
    var tm := LocalTime(t, off);
    MkTime(tm.(year := tm.year + n), off)
  }

  /** The 32-bit difference that the two functions return. */
  function AddMonth(t: int, n: int, off: int): int {
    (MonthsLater(t, n, off) - t) % U32
  }

  function AddYear(t: int, n: int, off: int): int {
    (YearsLater(t, n, off) - t) % U32
  }

  /** The assignment that an update makes: the difference added to the 32-bit trigger. */
  function StepMonths(trigger: int, step: int, off: int): int {
    (trigger + AddMonth(trigger, step / MONTH_SECONDS, off)) % U32
  }

  function StepYears(trigger: int, step: int, off: int): int {
    (trigger + AddYear(trigger, step / YEAR_SECONDS, off)) % U32
  }

  function DayOfMonth(t: int, off: int): int {
    LocalTime(t, off).mday
  }

  /** A year step is a step of twelve months. */
  lemma YearsAreMonths(t: int, n: int, off: int)
    ensures YearsLater(t, n, off) == MonthsLater(t, 12 * n, off)
  {
  }

  /**
   Where n months later is, for every day of the month: on the same day and time n months on when that
   month has the day, and otherwise the missing days into the month after it.
   */
  lemma MonthsLaterFields(t: int, n: int, off: int)
    ensures var i, d, u := MonthIndex(t, off) + n, DayOfMonth(t, off), MonthsLater(t, n, off);
            && SecondOfDay(u, off) == SecondOfDay(t, off)
            && MonthIndex(u, off) == (if d <= MonthLength(i) then i else i + 1)
            && DayOfMonth(u, off) == (if d <= MonthLength(i) then d else d - MonthLength(i))
            && DayOf(u, off) == MonthFirst(i) + d - 1
  {
    hide MonthFirst, MonthLength, MonthOfDay;
    var tm := LocalTime(t, off);
    var i := MonthIndex(t, off) + n;
    var d := MonthFirst(i) + tm.mday - 1;
    LocalTimeThenMkTime(t, off);
    var s := SecondOfDay(t, off);
    assert tm.hour * 3600 + tm.min * 60 + tm.sec == s;
    Divide(d * DAY_SECONDS + s, d, DAY_SECONDS, s);
    MonthTile(i);
    MonthTile(i + 1);
    MonthUnique(d, if tm.mday <= MonthLength(i) then i else i + 1);
  }

  /** Same day, same time of day, exactly `n` months on: what a step of "every n months" is for. */
  predicate Aligned(t: int, u: int, n: int, off: int) {
    && MonthIndex(u, off) == MonthIndex(t, off) + n
    && DayOfMonth(u, off) == DayOfMonth(t, off)
    && SecondOfDay(u, off) == SecondOfDay(t, off)
  }

  /** A month step is aligned exactly when the month it goes to has the day. */
  lemma AlignedIffMonthHasDay(t: int, n: int, off: int)
    ensures Aligned(t, MonthsLater(t, n, off), n, off) <==> DayOfMonth(t, off) <= MonthLength(MonthIndex(t, off) + n)
  {
    hide MonthsLater, MonthIndex, DayOfMonth, SecondOfDay;
    MonthsLaterFields(t, n, off);
  }

  /** A year step is aligned exactly when it does not carry 29 February into a common year. */
  lemma YearAlignedIff(t: int, n: int, off: int)
    ensures var tm := LocalTime(t, off);
            Aligned(t, YearsLater(t, n, off), 12 * n, off) <==> !(tm.mon == 1 && tm.mday == 29 && !Leap(tm.year + n))
  {
    hide MonthsLater, YearsLater, SecondOfDay, MonthOfDay, MonthFirst, Leap;
    YearsAreMonths(t, n, off);
    AlignedIffMonthHasDay(t, 12 * n, off);
    LocalTimeThenMkTime(t, off);
    var tm := LocalTime(t, off);
    var i := 12 * tm.year + tm.mon;
    Divide(i, tm.year, 12, tm.mon);
    Divide(i + 12 * n, tm.year + n, 12, tm.mon);
    assert MonthIndex(t, off) == i;
  }

  /** Any step of at least one month moves strictly forward; a step of none stays. */
  lemma ForwardIffSomeMonths(t: int, n: nat, off: int)
    ensures t < MonthsLater(t, n, off) <==> 1 <= n
    ensures n == 0 ==> MonthsLater(t, n, off) == t
  {
    hide MonthFirst, MonthOfDay, MonthLength;
    LocalTimeThenMkTime(t, off);
    var i := MonthIndex(t, off);
    if n >= 1 {
      MonthFirstIncreases(i, i + n);
    }
  }

  // ---- Repeated updates ----

  /** The trigger after `k` updates by `n` months each. */
  function Repeated(t: int, n: int, k: nat, off: int): int {
    if k == 0 then t else MonthsLater(Repeated(t, n, k - 1, off), n, off)
  }

  /** From a day that every month has, k updates move by exactly k * n months and keep day and time of day. */
  lemma {:induction false} RepeatedStaysAligned(t: int, n: int, k: nat, off: int)
    requires DayOfMonth(t, off) <= 28
    ensures Aligned(t, Repeated(t, n, k, off), k * n, off)
  {
    hide MonthsLater, MonthIndex, DayOfMonth, SecondOfDay, MonthLength;
    if k > 0 {
      RepeatedStaysAligned(t, n, k - 1, off);
      MonthsLaterFields(Repeated(t, n, k - 1, off), n, off);
      assert k * n == (k - 1) * n + n;
    }
  }

  lemma {:induction false} DayAfterChange(t: int, n: int, k: nat, off: int)
    ensures var d := DayOfMonth(Repeated(t, n, k, off), off);
            d == DayOfMonth(t, off) || 1 <= d <= 3
  {
    hide MonthsLater, MonthIndex, DayOfMonth, SecondOfDay, MonthLength;
    if k > 0 {
      DayAfterChange(t, n, k - 1, off);
      var u := Repeated(t, n, k - 1, off);
      MonthsLaterFields(u, n, off);
      DayOfMonthRange(u, off);
    }
  }

  lemma {:induction false} RepeatedCompose(t: int, n: int, j: nat, k: nat, off: int)
    ensures Repeated(t, n, j + k, off) == Repeated(Repeated(t, n, j, off), n, k, off)
  {
    hide MonthsLater;
    if k > 0 {
      RepeatedCompose(t, n, j, k - 1, off);
    }
  }

  /** Over any number of updates the day of the month changes at most once. */
  lemma DayChangesAtMostOnce(t: int, n: int, j: nat, k: nat, off: int)
    requires j <= k
    requires DayOfMonth(Repeated(t, n, j, off), off) != DayOfMonth(t, off)
    ensures DayOfMonth(Repeated(t, n, k, off), off) == DayOfMonth(Repeated(t, n, j, off), off)
  {
    hide MonthsLater, MonthIndex, DayOfMonth, SecondOfDay, MonthLength;
    DayAfterChange(t, n, j, off);
    RepeatedCompose(t, n, j, k - j, off);
    RepeatedStaysAligned(Repeated(t, n, j, off), n, k - j, off);
  }

  /** The day of the month that k steps of n months lead to: the first month that lacks the day decides for good. */
  function DayAfter(d: int, month: int, n: int, k: nat): int
    decreases k
  {
    if k == 0 then d
    else if d <= MonthLength(month + n) then DayAfter(d, month + n, n, k - 1)
    else d - MonthLength(month + n)
  }

  lemma {:induction false} DayAfterIs(t: int, n: int, k: nat, off: int)
    ensures DayOfMonth(Repeated(t, n, k, off), off) == DayAfter(DayOfMonth(t, off), MonthIndex(t, off), n, k)
    decreases k
  {
    hide MonthsLater, MonthIndex, DayOfMonth, SecondOfDay, MonthLength;
    if k > 0 {
      var u := MonthsLater(t, n, off);
      RepeatedCompose(t, n, 1, k - 1, off);
      assert Repeated(t, n, 1, off) == u by { RepeatedOnce(t, n, off); }
      MonthsLaterFields(t, n, off);
      DayOfMonthRange(t, off);
      if DayOfMonth(t, off) <= MonthLength(MonthIndex(t, off) + n) {
        DayAfterIs(u, n, k - 1, off);
      } else {
        RepeatedStaysAligned(u, n, k - 1, off);
      }
    }
  }

  lemma RepeatedOnce(t: int, n: int, off: int)
    ensures Repeated(t, n, 1, off) == MonthsLater(t, n, off)
  {
    hide MonthsLater;
    assert Repeated(t, n, 0, off) == t;
  }

  /** Past the first days of a month, keeping the day is keeping month count and time too. */
  lemma {:induction false} SameDayStaysAligned(t: int, n: int, k: nat, off: int)
    requires 4 <= DayOfMonth(t, off) && DayOfMonth(Repeated(t, n, k, off), off) == DayOfMonth(t, off)
    ensures Aligned(t, Repeated(t, n, k, off), k * n, off)
    decreases k
  {
    hide MonthsLater, MonthIndex, DayOfMonth, SecondOfDay, MonthLength;
    if k > 0 {
      var u := Repeated(t, n, k - 1, off);
      if DayOfMonth(u, off) != DayOfMonth(t, off) { DayChangesAtMostOnce(t, n, k - 1, k, off); }
      SameDayStaysAligned(t, n, k - 1, off);
      MonthsLaterFields(u, n, off);
      DayOfMonthRange(u, off);
      assert k * n == (k - 1) * n + n;
    }
  }

  /** The date that not every year has. */
  predicate LeapDay(t: int, off: int) {
    LocalTime(t, off).mon == 1 && LocalTime(t, off).mday == 29
  }

  lemma SameMonth(t: int, u: int, n: int, off: int)
    requires Aligned(t, u, 12 * n, off)
    ensures LocalTime(u, off).year == LocalTime(t, off).year + n && (LeapDay(u, off) <==> LeapDay(t, off))
  {
    hide MonthOfDay, MonthFirst, SecondOfDay, DayOf;
  }

  /** k steps of n years keep month, day and time exactly off 29 February or when every year met is a leap year. */
  lemma {:induction false} RepeatedYearsIff(t: int, n: int, k: nat, off: int)
    ensures Aligned(t, Repeated(t, 12 * n, k, off), 12 * (k * n), off) <==>
            !LeapDay(t, off) || forall m :: 1 <= m <= k ==> Leap(LocalTime(t, off).year + m * n)
    decreases k
  {
    hide MonthsLater, YearsLater, Aligned, LocalTime, LeapDay, Leap, DayOfMonth, Repeated;
    if k == 0 {
      RepeatedNone(t, 12 * n, off);
    } else {
      var u := Repeated(t, 12 * n, k - 1, off);
      RepeatedYearsIff(t, n, k - 1, off);
      YearAlignedIff(u, n, off);
      YearsAreMonths(u, n, off);
      RepeatedLast(t, 12 * n, k, off);
      assert k * n == (k - 1) * n + n;
      if Aligned(t, u, 12 * ((k - 1) * n), off) {
        SameMonth(t, u, (k - 1) * n, off);
        AlignedChain(t, u, YearsLater(u, n, off), 12 * ((k - 1) * n), 12 * n, off);
        LeapDayIs(u, off);
      } else {
        LostStaysLost(t, n, k, off);
      }
    }
  }

  lemma RepeatedNone(t: int, n: int, off: int)
    ensures Repeated(t, n, 0, off) == t && Aligned(t, t, 0, off)
  {
  }

  lemma RepeatedLast(t: int, n: int, k: nat, off: int)
    requires 0 < k
    ensures Repeated(t, n, k, off) == MonthsLater(Repeated(t, n, k - 1, off), n, off)
  {
    hide MonthsLater;
  }

  lemma LeapDayIs(t: int, off: int)
    ensures LeapDay(t, off) <==> LocalTime(t, off).mon == 1 && LocalTime(t, off).mday == 29
  {
    hide LocalTime;
  }

  lemma AlignedChain(t: int, u: int, v: int, m: int, n: int, off: int)
    requires Aligned(t, u, m, off)
    ensures Aligned(t, v, m + n, off) <==> Aligned(u, v, n, off)
  {
    hide MonthIndex, DayOfMonth, SecondOfDay;
  }

  lemma LostStaysLost(t: int, n: int, k: nat, off: int)
    requires 0 < k && LeapDay(t, off) && !Aligned(t, Repeated(t, 12 * n, k - 1, off), 12 * ((k - 1) * n), off)
    ensures !Aligned(t, Repeated(t, 12 * n, k, off), 12 * (k * n), off)
  {
    hide MonthsLater, MonthIndex, SecondOfDay, Repeated, LocalTime;
    var u := Repeated(t, 12 * n, k - 1, off);
    assert (k - 1) * (12 * n) == 12 * ((k - 1) * n);
    if DayOfMonth(u, off) == DayOfMonth(t, off) {
      SameDayStaysAligned(t, 12 * n, k - 1, off);
    } else {
      DayChangesAtMostOnce(t, 12 * n, k - 1, k, off);
    }
  }

  lemma DayOfMonthRange(t: int, off: int)
    ensures 1 <= DayOfMonth(t, off) <= 31
  {
  }

  // ---- The 32-bit fields ----

  lemma WrapSum(t: int, u: int)
    requires 0 <= t < U32 && 0 <= u < U32
    ensures (t + (u - t) % U32) % U32 == u
  {
  }

  /** A 32-bit update reaches the aligned instant whenever that instant fits 32 bits. */
  lemma StepMonthsExact(trigger: int, step: int, off: int)
    requires 0 <= trigger < U32 && 0 <= step < U32
    requires MonthsLater(trigger, step / MONTH_SECONDS, off) < U32
    ensures StepMonths(trigger, step, off) == MonthsLater(trigger, step / MONTH_SECONDS, off)
    ensures trigger < StepMonths(trigger, step, off) <==> MONTH_SECONDS <= step
  {
    hide MonthsLater;
    ForwardIffSomeMonths(trigger, step / MONTH_SECONDS, off);
    WrapSum(trigger, MonthsLater(trigger, step / MONTH_SECONDS, off));
  }

  lemma StepYearsExact(trigger: int, step: int, off: int)
    requires 0 <= trigger < U32 && 0 <= step < U32
    requires YearsLater(trigger, step / YEAR_SECONDS, off) < U32
    ensures StepYears(trigger, step, off) == YearsLater(trigger, step / YEAR_SECONDS, off)
    ensures trigger < StepYears(trigger, step, off) <==> YEAR_SECONDS <= step
  {
    hide MonthsLater, YearsLater;
    var n := step / YEAR_SECONDS;
    YearsAreMonths(trigger, n, off);
    ForwardIffSomeMonths(trigger, 12 * n, off);
    WrapSum(trigger, YearsLater(trigger, n, off));
  }

  /** The 32-bit trigger after `k` month-aligned updates of an entry. */
  function Updates(trigger: int, step: int, k: nat, off: int): int {
    if k == 0 then trigger else StepMonths(Updates(trigger, step, k - 1, off), step, off)
  }

  /** The k-th trigger is the k-fold month step, for as long as it fits 32 bits. */
  lemma {:induction false} UpdatesExact(trigger: int, step: int, k: nat, off: int)
    requires 0 <= trigger < U32 && 0 <= step < U32
    requires Repeated(trigger, step / MONTH_SECONDS, k, off) < U32
    ensures Updates(trigger, step, k, off) == Repeated(trigger, step / MONTH_SECONDS, k, off)
    ensures trigger <= Updates(trigger, step, k, off)
  {
    hide MonthsLater, StepMonths;
    if k > 0 {
      var n := step / MONTH_SECONDS;
      ForwardIffSomeMonths(Repeated(trigger, n, k - 1, off), n, off);
      UpdatesExact(trigger, step, k - 1, off);
      StepMonthsExact(Updates(trigger, step, k - 1, off), step, off);
    }
  }

  /**
   "every n months" from the client's word to the daemon's k-th update: with a count that fits and a day
   that every month has, the trigger moves by exactly k * n months and keeps its day and time of day.
   */
  lemma EveryMonths(trigger: int, n: nat, k: nat, off: int)
    requires 0 <= trigger < U32 && DayOfMonth(trigger, off) <= 28
    requires n * MONTH_SECONDS < U32 && Repeated(trigger, n, k, off) < U32
    ensures Aligned(trigger, Updates(trigger, n * MONTH_SECONDS % U32, k, off), k * n, off)
  {
    hide MonthsLater, StepMonths, Aligned, DayOfMonth, Updates, Repeated;
    MonthsRecovered(n);
    UpdatesExact(trigger, n * MONTH_SECONDS, k, off);
    RepeatedStaysAligned(trigger, n, k, off);
  }

  /** The 32-bit trigger after k year-aligned updates of an entry. */
  function YearUpdates(trigger: int, step: int, k: nat, off: int): int {
    if k == 0 then trigger else StepYears(YearUpdates(trigger, step, k - 1, off), step, off)
  }

  lemma {:induction false} YearUpdatesExact(trigger: int, step: int, k: nat, off: int)
    requires 0 <= trigger < U32 && 0 <= step < U32
    requires Repeated(trigger, 12 * (step / YEAR_SECONDS), k, off) < U32
    ensures YearUpdates(trigger, step, k, off) == Repeated(trigger, 12 * (step / YEAR_SECONDS), k, off)
    ensures trigger <= YearUpdates(trigger, step, k, off)
    decreases k
  {
    hide MonthsLater, YearsLater, StepYears;
    if k > 0 {
      var n := step / YEAR_SECONDS;
      ForwardIffSomeMonths(Repeated(trigger, 12 * n, k - 1, off), 12 * n, off);
      YearUpdatesExact(trigger, step, k - 1, off);
      YearsAreMonths(Repeated(trigger, 12 * n, k - 1, off), n, off);
      StepYearsExact(YearUpdates(trigger, step, k - 1, off), step, off);
    }
  }

  /**
   "every n years" from the client's word to the daemon's k-th update: month, day and time stay, but for 29 February.
   */
  lemma EveryYears(trigger: int, n: nat, k: nat, off: int)
    requires 0 <= trigger < U32 && n * YEAR_SECONDS < U32 && Repeated(trigger, 12 * n, k, off) < U32
    ensures Aligned(trigger, YearUpdates(trigger, n * YEAR_SECONDS % U32, k, off), 12 * (k * n), off) <==>
            !LeapDay(trigger, off) || forall m :: 1 <= m <= k ==> Leap(LocalTime(trigger, off).year + m * n)
  {
    hide MonthsLater, StepYears, Aligned, LocalTime, YearUpdates, Repeated, Leap, LeapDay;
    YearsRecovered(n);
    YearUpdatesExact(trigger, n * YEAR_SECONDS, k, off);
    RepeatedYearsIff(trigger, n, k, off);
  }

  /** The daemon's division recovers the client's count of months iff the client's step fits 32 bits. */
  lemma MonthsRecovered(n: nat)
    ensures n * MONTH_SECONDS % U32 / MONTH_SECONDS == n <==> n * MONTH_SECONDS < U32
  {
  }

  lemma YearsRecovered(n: nat)
    ensures n * YEAR_SECONDS % U32 / YEAR_SECONDS == n <==> n * YEAR_SECONDS < U32
  {
  }

  /** "every 1658 months" arrives as a step of no month at all: the trigger does not move. */
  lemma MonthsLost()
    ensures 1658 * MONTH_SECONDS % U32 / MONTH_SECONDS == 0
  {
  }
}
