/** "every": from the text of a command to the triggers that the daemon computes, one update after the other. */
module Recurrence {
  import opened AlignedStep
  import opened Calendar
  import opened Compile
  import opened Language
  import opened Limits
  import opened Logic
  import opened RequestArg
  import opened Wrappers
  import T = Tokenizer

  lemma StrideIs(u: Adverb, n: nat, d: int)
    requires Counted(u) && Strides(u, n, d)
    ensures d == n * UnitSeconds(u)
    ensures u == Months ==> d == n * MONTH_SECONDS
    ensures u == Years ==> d == n * YEAR_SECONDS
  {
    assert Reaches(u, n, d, 0, 0);
    ElapsedIs(u, n, 0, d, 0);
  }

  /** The i-th schedule of a printed command. */
  function ScheduleOf(env: Env, subject: seq<string>, js: seq<Job>, i: nat): Option<Scheduled> {
    match Compiled(env, T.Printed(CommandTokens(subject, js)))
    case None => None
    case Some(r) => if i < |r.1| then Some(r.1[i]) else None
  }

  /** A command whose i-th job is repeated. */
  predicate Repeats(env: Env, subject: seq<string>, js: seq<Job>, i: nat, unit: Adverb) {
    && GoodJobs(env, js) && T.SolidWords('\'', subject) && T.Closable(T.Phrase('\'', subject))
    && i < |js| && js[i].every.Some? && js[i].every.value.unit == unit
  }

  lemma RepeatsStep(env: Env, subject: seq<string>, js: seq<Job>, i: nat, unit: Adverb)
    requires Repeats(env, subject, js, i, unit)
    ensures var e := ScheduleOf(env, subject, js, i);
            && e.Some? && 0 <= e.value.trigger < U32 && Counted(unit)
            && e.value.step == js[i].every.value.n * UnitSeconds(unit) % U32
            && e.value.monthAlign == (unit == Months) && e.value.yearAlign == (unit == Years)
            && (unit == Months ==> UnitSeconds(unit) == MONTH_SECONDS)
            && (unit == Years ==> UnitSeconds(unit) == YEAR_SECONDS)
  {
    hide Compiled, T.Printed, CommandTokens, Strides, IsAt, Elapsed, GoodNext, T.SolidWords, T.Closable;
    CompileCorrect(env, subject, js);
    var e := ScheduleOf(env, subject, js, i).value;
    assert Fulfils(env, js[i], e) && GoodJob(env, js[i]);
    var p := js[i].every.value;
    var d :| Strides(p.unit, p.n, d) && e.step == d % U32;
    StrideIs(p.unit, p.n, d);
  }

  /**
   "every n months", from the command to the k-th update in the daemon: the daemon counts n months exactly if they
   fit its word, and then the trigger moves by k * n months and keeps its day, if every month has it, and time.
   */
  lemma MonthlyRuns(env: Env, subject: seq<string>, js: seq<Job>, i: nat, k: nat, off: int)
    requires Repeats(env, subject, js, i, Months)
    ensures var e := ScheduleOf(env, subject, js, i);
            var n := js[i].every.value.n;
            && e.Some? && e.value.monthAlign && !e.value.yearAlign
            && (e.value.step / MONTH_SECONDS == n <==> n * MONTH_SECONDS < U32)
            && (n * MONTH_SECONDS < U32 && DayOfMonth(e.value.trigger, off) <= 28
                && Repeated(e.value.trigger, n, k, off) < U32 ==>
                  Aligned(e.value.trigger, Updates(e.value.trigger, e.value.step, k, off), k * n, off))
  {
    hide GoodJobs, ScheduleOf, Aligned, DayOfMonth, Repeated, Updates;
    RepeatsStep(env, subject, js, i, Months);
    var e, n := ScheduleOf(env, subject, js, i).value, js[i].every.value.n;
    MonthsRecovered(n);
    if n * MONTH_SECONDS < U32 && DayOfMonth(e.trigger, off) <= 28 && Repeated(e.trigger, n, k, off) < U32 {
      EveryMonths(e.trigger, n, k, off);
    }
  }

  /** "every n years", from the command to the k-th update: month, day and time stay, but for 29 February. */
  lemma YearlyRuns(env: Env, subject: seq<string>, js: seq<Job>, i: nat, k: nat, off: int)
    requires Repeats(env, subject, js, i, Years)
    ensures var e := ScheduleOf(env, subject, js, i);
            var n := js[i].every.value.n;
            && e.Some? && e.value.yearAlign && !e.value.monthAlign
            && (e.value.step / YEAR_SECONDS == n <==> n * YEAR_SECONDS < U32)
            && (n * YEAR_SECONDS < U32 && Repeated(e.value.trigger, 12 * n, k, off) < U32 ==>
                  var t := e.value.trigger;
                  Aligned(t, YearUpdates(t, e.value.step, k, off), 12 * (k * n), off) <==>
                  !LeapDay(t, off) || forall m :: 1 <= m <= k ==> Leap(LocalTime(t, off).year + m * n))
  {
    hide GoodJobs, ScheduleOf, Aligned, Repeated, YearUpdates, LeapDay, Leap, LocalTime;
    RepeatsStep(env, subject, js, i, Years);
    var e, n := ScheduleOf(env, subject, js, i).value, js[i].every.value.n;
    YearsRecovered(n);
    if n * YEAR_SECONDS < U32 && Repeated(e.trigger, 12 * n, k, off) < U32 { EveryYears(e.trigger, n, k, off); }
  }

  /** Any other period: k steps of the daemon are k * n units, exactly if a step fits its word. */
  lemma PlainRuns(env: Env, subject: seq<string>, js: seq<Job>, i: nat, unit: Adverb, k: nat, off: int)
    requires Repeats(env, subject, js, i, unit) && unit != Months && unit != Years && 0 < k
    ensures var e := ScheduleOf(env, subject, js, i);
            var n := js[i].every.value.n;
            && e.Some? && !e.value.monthAlign && !e.value.yearAlign
            && (Elapsed(unit, k * n, e.value.trigger, e.value.trigger + k * e.value.step, off) <==>
                n * UnitSeconds(unit) < U32)
  {
    hide GoodJobs, ScheduleOf, Elapsed;
    RepeatsStep(env, subject, js, i, unit);
    var e, n := ScheduleOf(env, subject, js, i).value, js[i].every.value.n;
    ElapsedIs(unit, k * n, e.trigger, e.trigger + k * e.step, off);
    SameProduct(k, e.step, n * UnitSeconds(unit));
    assert k * n * UnitSeconds(unit) == k * (n * UnitSeconds(unit));
  }

  lemma SameProduct(k: nat, a: int, b: int)
    requires 0 < k
    ensures k * a == k * b <==> a == b
  {
    if k * a == k * b { assert k * (a - b) == 0; }
  }
}
