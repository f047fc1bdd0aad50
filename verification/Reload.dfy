/**
 Reloading the active pool: marshal_daemon_unserialize_pools() moves each trigger backwards, then
 forwards past the current time, drops the entries that are over, and re-arms the rest.
 */
module Reload {
  import opened AlignedStep
  import opened Arithmetic
  import opened Calendar
  import opened Limits

  datatype Alignment = Plain | MonthDay | YearDay

  /** The part of an entry that the pass reads and writes; the three times are 32-bit words. */
  datatype Timing = Timing(trigger: int, step: int, expire: int, triggered: bool, align: Alignment)

  /** The test that starts the backward loop; the subtraction is on 32-bit words. */
  predicate TooFarAhead(e: Timing, now: int) {
    e.triggered && (e.trigger - e.step) % U32 >= now
  }

  /** The number of months in one step of an aligned entry. */
  function StepInMonths(e: Timing): int {
    match e.align
    case Plain => 0
    case MonthDay => e.step / MONTH_SECONDS
    case YearDay => 12 * (e.step / YEAR_SECONDS)
  }

  /** One turn of the forward loop, on 32-bit words. */
  function Forward(e: Timing, off: int): int {
    match e.align
    case Plain => (e.trigger + e.step) % U32
    case MonthDay => StepMonths(e.trigger, e.step, off)
    case YearDay => StepYears(e.trigger, e.step, off)
  }

  /** The forward loop stops without wrapping a word: room for one more step, no step that stands still. */
  predicate CanStepForward(e: Timing, now: int) {
    && 0 <= now < U32 && 0 <= e.trigger < U32 && 0 <= e.step < U32
    && (e.step != 0 && e.trigger <= now ==> RoomForStep(e, now))
  }

  predicate RoomForStep(e: Timing, now: int) {
    && now + e.step < U32 && now + 31 * DAY_SECONDS * StepInMonths(e) < U32
    && (e.align != Plain ==> 1 <= StepInMonths(e))
  }

  /** Whenever the backward loop runs, it has a step, does not wrap, and leaves the forward loop its room. */
  predicate Manageable(e: Timing, now: int) {
    && CanStepForward(e, now)
    && (TooFarAhead(e, now) ==> 0 < e.step <= e.trigger && e.trigger % e.step < now && RoomForStep(e, now))
  }

  /** Where the backward loop ends: less than now by at most a step, whole steps before the trigger. */
  function Landing(e: Timing, now: int): int
    requires e.step != 0
  {
    now - e.step + (e.trigger - now) % e.step
  }

  ghost predicate Congruent(t: int, u: int, step: int) {
    exists k: int :: t == u + k * step
  }

  /** The value that the pass leaves in a recurring entry without alignment. */
  ghost predicate SettledPlain(e: Timing, now: int, t: int) {
    if e.triggered || e.trigger <= now then now < t <= now + e.step && Congruent(t, e.trigger, e.step)
    else t == e.trigger
  }

  /** The value for an aligned entry: the first aligned step past now. */
  ghost predicate SettledAligned(e: Timing, now: int, off: int, t: int) {
    exists k: nat ::
      && t == Repeated(e.trigger, StepInMonths(e), k, off)
      && (0 < k ==> Repeated(e.trigger, StepInMonths(e), k - 1, off) <= now)
  }

  ghost predicate Settled(e: Timing, now: int, off: int, t: int) {
    && 0 <= t < U32
    && (e.step == 0 ==> t == e.trigger)
    && (e.step != 0 ==> now < t)
    && (e.step != 0 && e.align == Plain ==> SettledPlain(e, now, t))
    && (e.step != 0 && e.align != Plain ==>
          SettledAligned(if TooFarAhead(e, now) then e.(trigger := Landing(e, now)) else e, now, off, t))
  }

  // ---- Arithmetic of the loops ----

  lemma {:induction false} MonthFirstGrowth(i: int, n: nat)
    ensures MonthFirst(i + n) <= MonthFirst(i) + 31 * n
  {
    hide MonthFirst, MonthLength;
    if n > 0 {
      MonthFirstGrowth(i, n - 1);
      MonthTile(i + n - 1);
    }
  }

  lemma MonthsLaterBound(t: int, n: nat, off: int)
    ensures MonthsLater(t, n, off) <= t + 31 * DAY_SECONDS * n
  {
    hide MonthFirst, MonthLength, MonthOfDay;
    LocalTimeThenMkTime(t, off);
    MonthFirstGrowth(MonthIndex(t, off), n);
  }

  /** In the forward loop every turn moves strictly forward and stays in a word. */
  lemma ForwardAdvances(e: Timing, now: int, off: int)
    requires CanStepForward(e, now) && e.step != 0 && e.trigger <= now
    ensures e.trigger < Forward(e, off) < U32
    ensures e.align == Plain ==> Forward(e, off) == e.trigger + e.step
    ensures e.align != Plain ==> Forward(e, off) == MonthsLater(e.trigger, StepInMonths(e), off)
  {
    hide MonthsLater, YearsLater, StepMonths, StepYears;
    var n := StepInMonths(e);
    MonthsLaterBound(e.trigger, n, off);
    match e.align
    case Plain =>
    case MonthDay => StepMonthsExact(e.trigger, e.step, off);
    case YearDay =>
      YearsAreMonths(e.trigger, e.step / YEAR_SECONDS, off);
      StepYearsExact(e.trigger, e.step, off);
  }

  // ---- The code ----

  /** The backward loop meets a value below now before it wraps exactly when the remainder of the trigger is one. */
  lemma BackwardFitsIff(e: Timing, now: int)
    requires 0 < e.step <= e.trigger
    ensures (exists k: nat :: 1 <= k && 0 <= e.trigger - k * e.step < now) <==> e.trigger % e.step < now
  {
    var q := e.trigger / e.step;
    assert 1 <= q && e.trigger - q * e.step == e.trigger % e.step;
    forall k: nat | 1 <= k && 0 <= e.trigger - k * e.step < now ensures e.trigger % e.step < now {
      RemainderLeast(e.trigger, e.step, k);
    }
  }

  /** Of the values whole steps below t, none that is not negative lies below its remainder. */
  lemma RemainderLeast(t: int, step: int, k: int)
    requires 0 < step && 0 <= t - k * step
    ensures t % step <= t - k * step
  {
    var q := t / step;
    MulMono(q, k, step);
    MulMono(q + 1, k, step);
    assert (q + 1) * step == q * step + step;
  }

  lemma LandsThere(e: Timing, now: int, k: int, t: int)
    requires 0 < e.step && t == e.trigger - k * e.step && t < now <= t + e.step
    ensures t == Landing(e, now)
  {
    var r := t + e.step - now;
    assert (k - 1) * e.step == k * e.step - e.step;
    Divide(e.trigger - now, k - 1, e.step, r);
  }

  /** The backward loop: a do-while, which runs at least once. */
  method StepBack(e: Timing, now: int) returns (t: int, ghost k: nat)
    requires Manageable(e, now) && TooFarAhead(e, now)
    ensures 0 <= t < now <= t + e.step && t == e.trigger - k * e.step && t == Landing(e, now)
  {
    hide Landing;
    ghost var m: int, r := e.trigger / e.step, e.trigger % e.step;
    t, k := e.trigger, 0;
    while true
      invariant now <= t <= e.trigger && t == e.trigger - k * e.step && t == r + m * e.step
      decreases t
    {
      assert (k + 1) * e.step == k * e.step + e.step && (m - 1) * e.step == m * e.step - e.step;
      MulMono(0, m, e.step);
      MulMono(0, m - 1, e.step);
      t, k, m := t - e.step, k + 1, m - 1;
      if t < now { break; }
    }
    LandsThere(e, now, k, t);
  }

  method StepForward(e: Timing, now: int, off: int) returns (t: int, ghost k: nat)
    requires CanStepForward(e, now)
    ensures 0 <= t < U32
    ensures e.step == 0 || now < e.trigger ==> t == e.trigger && k == 0
    ensures e.step != 0 && e.trigger <= now ==> now < t && 0 < k
    ensures e.align == Plain ==> t == e.trigger + k * e.step && (0 < k ==> t <= now + e.step)
    ensures e.align != Plain ==> t == Repeated(e.trigger, StepInMonths(e), k, off)
    ensures e.align != Plain && 0 < k ==> Repeated(e.trigger, StepInMonths(e), k - 1, off) <= now
  {
    hide MonthsLater, Forward;
    t, k := e.trigger, 0;
    while e.step != 0 && t <= now
      invariant 0 <= t < U32
      invariant e.step == 0 || now < e.trigger ==> k == 0
      invariant k == 0 ==> t == e.trigger
      invariant e.align == Plain ==> t == e.trigger + k * e.step && (0 < k ==> t <= now + e.step)
      invariant e.align != Plain ==> t == Repeated(e.trigger, StepInMonths(e), k, off)
      invariant e.align != Plain && 0 < k ==> Repeated(e.trigger, StepInMonths(e), k - 1, off) <= now
      decreases now - t
    {
      ForwardAdvances(e.(trigger := t), now, off);
      t, k := Forward(e.(trigger := t), off), k + 1;
      assert k * e.step == (k - 1) * e.step + e.step;
    }
  }

  lemma SameStep(e: Timing, t: int)
    ensures StepInMonths(e.(trigger := t)) == StepInMonths(e)
  {
  }

  /** Both loops of the pass, for one entry. */
  method CatchUp(e: Timing, now: int, off: int) returns (t: int)
    requires Manageable(e, now)
    ensures Settled(e, now, off, t)
  {
    hide Repeated, StepInMonths, SettledPlain, SettledAligned, Landing;
    t := e.trigger;
    ghost var k: nat := 0;
    if TooFarAhead(e, now) {
      t, k := StepBack(e, now);
    }
    SameStep(e, t);
    var start := e.(trigger := t);
    ghost var j: nat;
    t, j := StepForward(start, now, off);
    assert e.step != 0 && e.align == Plain ==> SettledPlain(e, now, t) by {
      PlainSettles(e, now, start.trigger, k, t, j);
    }
    AlignedSettles(start, now, off, t, j);
    assert start == if TooFarAhead(e, now) then e.(trigger := Landing(e, now)) else e;
  }

  lemma PlainSettles(e: Timing, now: int, start: int, k: int, t: int, j: nat)
    requires Manageable(e, now)
    requires start == e.trigger - k * e.step && (if TooFarAhead(e, now) then start < now else start == e.trigger)
    ensures (e.step != 0 && t == start + j * e.step && (j == 0 ==> now < start)
             && (0 < j ==> start <= now < t <= now + e.step)) ==> SettledPlain(e, now, t)
  {
    assert (j - k) * e.step == j * e.step - k * e.step;
    if t == start + j * e.step {
      assert t == e.trigger + (j - k) * e.step;
      assert Congruent(t, e.trigger, e.step);
    }
  }

  lemma AlignedSettles(e: Timing, now: int, off: int, t: int, j: nat)
    ensures (t == Repeated(e.trigger, StepInMonths(e), j, off)
             && (0 < j ==> Repeated(e.trigger, StepInMonths(e), j - 1, off) <= now)) ==> SettledAligned(e, now, off, t)
  {
  }

  // ---- Uniqueness ----

  /** At most one value in a half-open interval of one step is congruent to a given one. */
  lemma CongruentUnique(now: int, step: int, t: int, u: int, v: int)
    requires 0 < step && now < t <= now + step && now < u <= now + step
    requires Congruent(t, v, step) && Congruent(u, v, step)
    ensures t == u
  {
    var j: int :| t == v + j * step;
    var k: int :| u == v + k * step;
    MulMono(j, k + 1, step);
    MulMono(k, j + 1, step);
    assert (k + 1) * step == k * step + step && (j + 1) * step == j * step + step;
  }

  lemma {:induction false} RepeatedGrows(t: int, n: nat, j: nat, k: nat, off: int)
    requires 1 <= n && j <= k
    ensures Repeated(t, n, j, off) <= Repeated(t, n, k, off)
    decreases k
  {
    hide MonthsLater;
    if j < k {
      RepeatedGrows(t, n, j, k - 1, off);
      ForwardIffSomeMonths(Repeated(t, n, k - 1, off), n, off);
    }
  }

  lemma AlignedUnique(e: Timing, now: int, off: int, t: int, u: int)
    requires 1 <= StepInMonths(e) && now < t && now < u
    requires SettledAligned(e, now, off, t) && SettledAligned(e, now, off, u)
    ensures t == u
  {
    hide Repeated, StepInMonths;
    var n := StepInMonths(e);
    var j: nat :| t == Repeated(e.trigger, n, j, off) && (0 < j ==> Repeated(e.trigger, n, j - 1, off) <= now);
    var k: nat :| u == Repeated(e.trigger, n, k, off) && (0 < k ==> Repeated(e.trigger, n, k - 1, off) <= now);
    if j < k { RepeatedGrows(e.trigger, n, j, k - 1, off); }
    if k < j { RepeatedGrows(e.trigger, n, k, j - 1, off); }
  }

  /** The pass has one possible outcome for every entry. */
  lemma SettledUnique(e: Timing, now: int, off: int, t: int, u: int)
    requires 0 <= e.step && (e.step != 0 && e.align != Plain ==> 1 <= StepInMonths(e))
    requires Settled(e, now, off, t) && Settled(e, now, off, u)
    ensures t == u
  {
    hide Congruent, SettledAligned, Landing, StepInMonths;
    if e.step != 0 && e.align == Plain && (e.triggered || e.trigger <= now) {
      CongruentUnique(now, e.step, t, u, e.trigger);
    } else if e.step != 0 && e.align != Plain {
      var b := if TooFarAhead(e, now) then e.(trigger := Landing(e, now)) else e;
      SameStep(e, b.trigger);
      AlignedUnique(b, now, off, t, u);
    }
  }

  /** A second pass at the same time changes nothing, unless an aligned entry is again too far ahead. */
  lemma SettledIdempotent(e: Timing, now: int, off: int, t: int, u: int)
    requires 0 <= e.step && (e.step != 0 && e.align != Plain ==> 1 <= StepInMonths(e))
    requires e.align == Plain || e.step == 0 || !TooFarAhead(e.(trigger := t), now)
    requires Settled(e, now, off, t) && Settled(e.(trigger := t), now, off, u)
    ensures u == t
  {
    hide Congruent, SettledAligned, Landing, StepInMonths;
    var f := e.(trigger := t);
    SameStep(e, t);
    if e.step != 0 && e.align == Plain && e.triggered {
      CongruentSelf(t, e.step);
      CongruentUnique(now, e.step, t, u, t);
    } else if e.step != 0 && e.align != Plain {
      SettledItself(f, now, off);
      AlignedUnique(f, now, off, t, u);
    }
  }

  lemma CongruentSelf(t: int, step: int)
    ensures Congruent(t, t, step)
  {
    assert t == t + 0 * step;
  }

  lemma SettledItself(e: Timing, now: int, off: int)
    ensures SettledAligned(e, now, off, e.trigger)
  {
    assert Repeated(e.trigger, StepInMonths(e), 0, off) == e.trigger;
  }

  // ---- The whole pool ----

  /** The entry is expired, or its only trigger has gone by. */
  predicate Over(e: Timing, now: int) {
    (e.expire != 0 && e.trigger >= e.expire) || (e.trigger <= now && e.step == 0)
  }

  /** `after` is `before` with each trigger settled and the entries that are over left out, in order. */
  ghost predicate Reloaded(before: seq<Timing>, after: seq<Timing>, now: int, off: int) {
    if before == [] then after == []
    else
      exists t :: Settled(Last(before), now, off, t) &&
        var e := Last(before).(trigger := t);
        if Over(e, now) then Reloaded(Front(before), after, now, off)
        else after != [] && Last(after) == e && Reloaded(Front(before), Front(after), now, off)
  }

  function Last(s: seq<Timing>): Timing
    requires s != []
  {
    s[|s| - 1]
  }

  function Front(s: seq<Timing>): seq<Timing>
    requires s != []
  {
    s[..|s| - 1]
  }

  class ActivePool {
    var entries: seq<Timing>

    /** The activation loop of marshal_daemon_unserialize_pools(). */
    method Rearm(now: int, off: int)
      requires forall i :: 0 <= i < |entries| ==> Manageable(entries[i], now)
      modifies this
      ensures Reloaded(old(entries), entries, now, off)
      ensures forall i :: 0 <= i < |old(entries)| ==> ResumesIn(old(entries)[i], now, off, entries)
      ensures forall i :: 0 <= i < |entries| ==>
                now < entries[i].trigger && (entries[i].expire != 0 ==> entries[i].trigger < entries[i].expire)
    {
      hide Settled, Manageable;
      var kept: seq<Timing> := [];
      for n := 0 to |entries|
        invariant entries == old(entries)
        invariant Reloaded(entries[..n], kept, now, off)
        invariant forall i :: 0 <= i < |kept| ==>
                    now < kept[i].trigger && (kept[i].expire != 0 ==> kept[i].trigger < kept[i].expire)
      {
        var t := CatchUp(entries[n], now, off);
        SettledPastNow(entries[n], now, off, t);
        var e := entries[n].(trigger := t);
        assert Last(entries[..n + 1]) == entries[n] && Front(entries[..n + 1]) == entries[..n];
        if !Over(e, now) {
          assert Last(kept + [e]) == e && Front(kept + [e]) == kept;
          kept := kept + [e];
        }
      }
      assert entries[..|entries|] == entries;
      forall i | 0 <= i < |entries| ensures ResumesIn(entries[i], now, off, kept) {
        ReloadedResumes(entries, kept, now, off, i);
      }
      entries := kept;
    }
  }

  /**
   At t again or not: an entry without a step keeps its trigger and goes on if that lies ahead and before the
   expiry, a recurring one if its settled trigger lies before the expiry.
   */
  ghost predicate Resumes(e: Timing, now: int, off: int, t: int, again: bool) {
    && Settled(e, now, off, t)
    && (e.step == 0 ==> t == e.trigger && (again <==> now < e.trigger && (e.expire == 0 || e.trigger < e.expire)))
    && (e.step != 0 ==> (again <==> e.expire == 0 || t < e.expire))
  }

  ghost predicate ResumesIn(e: Timing, now: int, off: int, after: seq<Timing>) {
    exists t :: Resumes(e, now, off, t, e.(trigger := t) in after)
  }

  lemma ResumesIff(e: Timing, now: int, off: int, t: int)
    requires Settled(e, now, off, t)
    ensures Resumes(e, now, off, t, !Over(e.(trigger := t), now))
  {
    hide SettledPlain, SettledAligned, Landing;
  }

  lemma {:induction false} ReloadedNotOver(before: seq<Timing>, after: seq<Timing>, now: int, off: int, x: Timing)
    requires Reloaded(before, after, now, off) && x in after
    ensures !Over(x, now)
    decreases |before|
  {
    hide Settled, Over;
    if before != [] {
      var t :| Settled(Last(before), now, off, t) &&
        var e := Last(before).(trigger := t);
        if Over(e, now) then Reloaded(Front(before), after, now, off)
        else after != [] && Last(after) == e && Reloaded(Front(before), Front(after), now, off);
      if Over(Last(before).(trigger := t), now) {
        ReloadedNotOver(Front(before), after, now, off, x);
      } else if x != Last(after) {
        ReloadedNotOver(Front(before), Front(after), now, off, x);
      }
    }
  }

  lemma {:induction false} ReloadedResumes(before: seq<Timing>, after: seq<Timing>, now: int, off: int, i: nat)
    requires Reloaded(before, after, now, off) && i < |before|
    ensures ResumesIn(before[i], now, off, after)
  {
    hide Settled, Over, Resumes, Reloaded;
    var t := ReloadedAt(before, after, now, off, i);
    ResumesIff(before[i], now, off, t);
    if before[i].(trigger := t) in after { ReloadedNotOver(before, after, now, off, before[i].(trigger := t)); }
  }

  lemma {:induction false} ReloadedAt(before: seq<Timing>, after: seq<Timing>, now: int, off: int, i: nat)
    returns (t: int)
    requires Reloaded(before, after, now, off) && i < |before|
    ensures Settled(before[i], now, off, t)
    ensures !Over(before[i].(trigger := t), now) ==> before[i].(trigger := t) in after
    decreases |before|
  {
    hide Settled, Over;
    t :| Settled(Last(before), now, off, t) &&
      var e := Last(before).(trigger := t);
      if Over(e, now) then Reloaded(Front(before), after, now, off)
      else after != [] && Last(after) == e && Reloaded(Front(before), Front(after), now, off);
    if i < |before| - 1 {
      if Over(Last(before).(trigger := t), now) {
        t := ReloadedAt(Front(before), after, now, off, i);
      } else {
        t := ReloadedAt(Front(before), Front(after), now, off, i);
      }
    }
  }

  lemma SettledPastNow(e: Timing, now: int, off: int, t: int)
    requires Settled(e, now, off, t)
    ensures e.step != 0 ==> now < t
  {
  }

  /** Two passes over a pool without aligned entries end where one does. */
  lemma {:induction false} ReloadedIdempotent(before: seq<Timing>, once: seq<Timing>, twice: seq<Timing>,
                                              now: int, off: int)
    requires forall i :: 0 <= i < |before| ==> before[i].align == Plain && 0 <= before[i].step
    requires Reloaded(before, once, now, off) && Reloaded(once, twice, now, off)
    ensures twice == once
    decreases |before|
  {
    hide Settled;
    if before != [] {
      var t :| Settled(Last(before), now, off, t) &&
        var e := Last(before).(trigger := t);
        if Over(e, now) then Reloaded(Front(before), once, now, off)
        else once != [] && Last(once) == e && Reloaded(Front(before), Front(once), now, off);
      var e := Last(before).(trigger := t);
      if Over(e, now) {
        ReloadedIdempotent(Front(before), once, twice, now, off);
      } else {
        var u :| Settled(e, now, off, u) &&
          var f := e.(trigger := u);
          if Over(f, now) then Reloaded(Front(once), twice, now, off)
          else twice != [] && Last(twice) == f && Reloaded(Front(once), Front(twice), now, off);
        SettledIdempotent(Last(before), now, off, t, u);
        assert e.(trigger := u) == e;
        ReloadedIdempotent(Front(before), Front(once), Front(twice), now, off);
        assert once == Front(once) + [e] && twice == Front(twice) + [e];
      }
    }
  }

  // ---- Aligned entries that are moved back ----

  /**
   An aligned entry that is moved back ends on the day of the month that its landing leads to: with a landing on
   day 28 or before, the reload keeps the day if and only if the landing has it; with a later one, if and only if
   the months stepped over carry the landing's day to it.
   */
  lemma ReloadKeepsDayIff(e: Timing, now: int, off: int, t: int)
    requires e.align != Plain && 0 < e.step && 1 <= StepInMonths(e) && TooFarAhead(e, now) && Settled(e, now, off, t)
    ensures var l, n, d := Landing(e, now), StepInMonths(e), DayOfMonth(e.trigger, off);
            && (DayOfMonth(l, off) <= 28 ==> (DayOfMonth(t, off) == d <==> DayOfMonth(l, off) == d))
            && exists j: nat :: 0 < j && Repeated(l, n, j - 1, off) <= now < t == Repeated(l, n, j, off)
                 && (DayOfMonth(t, off) == d <==> DayAfter(DayOfMonth(l, off), MonthIndex(l, off), n, j) == d)
  {
    hide DayOfMonth, MonthIndex, MonthsLater, DayAfter, Landing, StepInMonths, SecondOfDay;
    LandingBelow(e, now);
    var l := Landing(e, now);
    var b := e.(trigger := l);
    SameStep(e, l);
    var n := StepInMonths(b);
    var j: nat :| t == Repeated(l, n, j, off) && (0 < j ==> Repeated(l, n, j - 1, off) <= now);
    DayAfterIs(l, StepInMonths(e), j, off);
    if DayOfMonth(l, off) <= 28 { RepeatedStaysAligned(l, StepInMonths(e), j, off); }
  }

  lemma LandingBelow(e: Timing, now: int)
    requires 0 < e.step
    ensures Landing(e, now) < now <= Landing(e, now) + e.step
  {
  }

  /**
   The backward loop steps an aligned entry by 30 days, not by a month. An entry due on 1 April 2015, reloaded on
   1 March at noon, goes back twice, to 31 January, and forward once, to 3 March.
   */
  lemma AlignedReloadDrifts()
    ensures var now := MkTime(Tm(2015, 2, 1, 12, 0, 0), 0);
            var e := Timing(MkTime(Tm(2015, 3, 1, 0, 0, 0), 0), MONTH_SECONDS, 0, true, MonthDay);
            var back := e.(trigger := e.trigger - 2 * MONTH_SECONDS);
            && TooFarAhead(e, now) && back.trigger < now <= back.trigger + MONTH_SECONDS
            && now < Forward(back, 0) && Forward(back, 0) == MkTime(Tm(2015, 2, 3, 0, 0, 0), 0)
  {
    hide MkTime, StepMonths, MonthsLater, MonthOffset;
    Early2015();
    LateJanuary();
    StepMonthsExact(1422662400, MONTH_SECONDS, 0);
  }

  /** Days of 2015 count from its first second. */
  lemma In2015(mon: int, mday: int, hour: int)
    requires 0 <= mon < 12
    ensures MkTime(Tm(2015, mon, mday, hour, 0, 0), 0) ==
            1420070400 + (MonthOffset(2015, mon) + mday - 1) * DAY_SECONDS + hour * 3600
  {
    hide MkTime, MonthOffset;
    MkTimeIsPosix(Tm(2015, mon, mday, hour, 0, 0));
  }

  lemma Offsets2015()
    ensures MonthOffset(2015, 0) == 0 && MonthOffset(2015, 1) == 31
    ensures MonthOffset(2015, 2) == 59 && MonthOffset(2015, 3) == 90
  {
  }

  lemma Early2015()
    ensures MkTime(Tm(2015, 2, 1, 12, 0, 0), 0) == 1425211200
    ensures MkTime(Tm(2015, 2, 3, 0, 0, 0), 0) == 1425340800
    ensures MkTime(Tm(2015, 3, 1, 0, 0, 0), 0) == 1427846400
  {
    hide MkTime, MonthOffset;
    Offsets2015();
    In2015(2, 1, 12);
    In2015(2, 3, 0);
    In2015(3, 1, 0);
  }

  /** A month after 31 January comes 31 February, that is 3 March. */
  lemma LateJanuary()
    ensures MonthsLater(1422662400, 1, 0) == 1425340800
  {
    hide MkTime, MonthOffset, LocalTime;
    Offsets2015();
    In2015(0, 31, 0);
    In2015(1, 31, 0);
    MkTimeThenLocalTime(Tm(2015, 0, 31, 0, 0, 0), 0);
  }
}
