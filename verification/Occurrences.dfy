/** An entry through all its fires: the daemon runs a job when the sentence that made it says. */
module Occurrences {
  import opened AlignedStep
  import opened Calendar
  import opened Client
  import opened Compile
  import opened Entries
  import opened Language
  import opened Limits
  import opened Messages
  import opened Pool
  import opened PoolRuns
  import opened Recurrence
  import A = RequestArg

  /** One fire of the timer of an entry, if it is there. */
  ghost function FiredOnce(cfg: Config, s: State, id: nat, now: nat, delivered: bool): State {
    if id in s.apool && s.apool[id].timer in s.timers && s.timers[s.apool[id].timer].id == id then
      Fired(cfg, s, s.apool[id].timer, now, delivered)
    else s
  }

  /** A fire at each of these times, delivered or not. */
  ghost function FiredAll(cfg: Config, s: State, id: nat, at: seq<(nat, bool)>): State {
    if at == [] then s
    else FiredOnce(cfg, FiredAll(cfg, s, id, at[..|at| - 1]), id, at[|at| - 1].0, at[|at| - 1].1)
  }

  /** The trigger after one more step, as the alignment of the entry has it. */
  function NextTrigger(e: Entry, off: int): int {
    if IsAligned(e) then NextAligned(e, off) else (e.trigger + e.step) % U32
  }

  /** Active and valid. */
  predicate Alive(s: State, id: nat) {
    id in s.apool && INVALID !in s.apool[id].flags
  }

  /** An entry that is still alive after its fire was alive before, and has moved by one step. */
  lemma FireMoves(cfg: Config, s: State, id: nat, now: nat, delivered: bool)
    requires Inv(cfg, s) && now < U32 && Alive(FiredOnce(cfg, s, id, now, delivered), id)
    ensures Alive(s, id) && Inv(cfg, FiredOnce(cfg, s, id, now, delivered))
    ensures var a, b := s.apool[id], FiredOnce(cfg, s, id, now, delivered).apool[id];
            && b.trigger == NextTrigger(a, cfg.off) && b.step == a.step && b.expire == a.expire
            && (IsAligned(b) <==> IsAligned(a)) && (MONTHDAY_ALIGN in b.flags <==> MONTHDAY_ALIGN in a.flags)
  {
    hide Inv, Judge, Command, Proper, Sized, NextAligned, OnTime, Due, Fired, Advance;
    assert id in s.apool by { AliveBefore(cfg, s, id, now, delivered); }
    var e := s.apool[id];
    ProperParts(cfg, s, id);
    FireKeepsJob(cfg, s, e.timer, now, delivered);
    FiredKeeps(cfg, s, e.timer, now, delivered);
    VerdictOnAlive(cfg, s, id, now, delivered);
    FireAdvances(cfg, s, e.timer, now, delivered);
    SameAlignment(e, FiredOnce(cfg, s, id, now, delivered).apool[id]);
  }

  lemma SameAlignment(a: Entry, b: Entry)
    requires b.flags - {INVALID, SERIALIZED} == a.flags - {RELATIVE_TRIGGER, INVALID, SERIALIZED} + {TRIGGERED}
    ensures MONTHDAY_ALIGN in b.flags <==> MONTHDAY_ALIGN in a.flags
    ensures YEARDAY_ALIGN in b.flags <==> YEARDAY_ALIGN in a.flags
  {
    assert MONTHDAY_ALIGN in b.flags <==> MONTHDAY_ALIGN in b.flags - {INVALID, SERIALIZED};
    assert YEARDAY_ALIGN in b.flags <==> YEARDAY_ALIGN in b.flags - {INVALID, SERIALIZED};
  }

  /** A fire that an entry survives skipped or sent it, and left its timer. */
  lemma VerdictOnAlive(cfg: Config, s: State, id: nat, now: nat, delivered: bool)
    requires Inv(cfg, s) && now < U32 && Alive(s, id) && Timed(s, id) && Alive(FiredOnce(cfg, s, id, now, delivered), id)
    ensures Advance(s.timers[s.apool[id].timer]).Some?
    ensures Judge(cfg, Rung(s.apool[id]), now) in {Skip, Send}
  {
    hide Inv, Judge, Command, Proper, Sized, OnTime, Due, Fired, Advance;
    var e := s.apool[id];
    ProperParts(cfg, s, id);
    SizedTiming(e);
    JudgeSends(cfg, e, now);
    FireInvalidatesIff(cfg, s, e.timer, now, delivered);
    StaysIff(cfg, s, e.timer, now, delivered);
  }

  lemma AliveBefore(cfg: Config, s: State, id: nat, now: nat, delivered: bool)
    requires Inv(cfg, s) && id in FiredOnce(cfg, s, id, now, delivered).apool
    ensures id in s.apool
  {
    hide Inv, Judge, Command, NextAligned;
  }

  function TriggerAfter(e: Entry, off: int, k: nat): (t: nat)
    ensures 0 < k ==> t < U32
  {
    if k == 0 then e.trigger else NextTrigger(e.(trigger := TriggerAfter(e, off, k - 1)), off)
  }

  lemma NextSame(a: Entry, b: Entry, off: int)
    requires a.trigger == b.trigger && a.step == b.step && (IsAligned(a) <==> IsAligned(b))
    requires MONTHDAY_ALIGN in a.flags <==> MONTHDAY_ALIGN in b.flags
    ensures NextTrigger(a, off) == NextTrigger(b, off)
  {
    hide StepMonths, StepYears;
  }

  /** Through any fires that an entry survives, its trigger moves one step at a time. */
  lemma {:induction false} FiresMove(cfg: Config, s: State, id: nat, at: seq<(nat, bool)>)
    requires Inv(cfg, s) && (forall a :: a in at ==> a.0 < U32) && Alive(FiredAll(cfg, s, id, at), id)
    ensures Alive(s, id) && Inv(cfg, FiredAll(cfg, s, id, at))
    ensures var a, b := s.apool[id], FiredAll(cfg, s, id, at).apool[id];
            && b.trigger == TriggerAfter(a, cfg.off, |at|) && b.step == a.step && b.expire == a.expire
            && (IsAligned(b) <==> IsAligned(a)) && (MONTHDAY_ALIGN in b.flags <==> MONTHDAY_ALIGN in a.flags)
    decreases |at|
  {
    hide Inv, FiredOnce, NextTrigger, IsAligned;
    if at != [] {
      var n := |at| - 1;
      assert at[n] in at;
      EarlierInv(cfg, s, id, at[..n]);
      var t := FiredAll(cfg, s, id, at[..n]);
      FireMoves(cfg, t, id, at[n].0, at[n].1);
      FiresMove(cfg, s, id, at[..n]);
      var e := s.apool[id];
      AlignedTrigger(e, TriggerAfter(e, cfg.off, n));
      NextSame(t.apool[id], e.(trigger := TriggerAfter(e, cfg.off, n)), cfg.off);
    }
  }

  lemma AlignedTrigger(e: Entry, t: nat)
    ensures IsAligned(e.(trigger := t)) <==> IsAligned(e)
  {
  }

  lemma {:induction false} EarlierInv(cfg: Config, s: State, id: nat, at: seq<(nat, bool)>)
    requires Inv(cfg, s)
    ensures Inv(cfg, FiredAll(cfg, s, id, at))
    decreases |at|
  {
    hide Inv, Fired;
    if at != [] {
      var n := |at| - 1;
      EarlierInv(cfg, s, id, at[..n]);
      var t := FiredAll(cfg, s, id, at[..n]);
      if id in t.apool && t.apool[id].timer in t.timers && t.timers[t.apool[id].timer].id == id {
        FiredKeeps(cfg, t, t.apool[id].timer, at[n].0, at[n].1);
      }
    }
  }

  lemma {:induction false} MonthlyTriggers(e: Entry, off: int, k: nat)
    requires MONTHDAY_ALIGN in e.flags
    ensures TriggerAfter(e, off, k) == Updates(e.trigger, e.step, k, off)
    decreases k
  {
    hide StepMonths, StepYears;
    if k > 0 { MonthlyTriggers(e, off, k - 1); }
  }

  lemma {:induction false} YearlyTriggers(e: Entry, off: int, k: nat)
    requires MONTHDAY_ALIGN !in e.flags && YEARDAY_ALIGN in e.flags
    ensures TriggerAfter(e, off, k) == YearUpdates(e.trigger, e.step, k, off)
    decreases k
  {
    hide StepMonths, StepYears;
    if k > 0 { YearlyTriggers(e, off, k - 1); }
  }

  lemma {:induction false} PlainTriggers(e: Entry, off: int, k: nat)
    requires !IsAligned(e) && e.trigger + k * e.step < U32
    ensures TriggerAfter(e, off, k) == e.trigger + k * e.step
    decreases k
  {
    hide NextTrigger, IsAligned;
    if k > 0 {
      OneLess(k, e.step);
      PlainTriggers(e, off, k - 1);
      PlainNext(e, off, e.trigger + (k - 1) * e.step);
    }
  }

  lemma PlainNext(e: Entry, off: int, t: nat)
    requires !IsAligned(e) && t + e.step < U32
    ensures NextTrigger(e.(trigger := t), off) == t + e.step
  {
    hide NextAligned;
  }

  lemma OneLess(k: nat, n: nat)
    requires 0 < k
    ensures k * n == (k - 1) * n + n && 0 <= (k - 1) * n
  {
  }

  lemma Grouped(k: nat, n: nat, u: int)
    ensures k * n * u == k * (n * u)
  {
  }

  // ---- What the sentence says ----

  /** The step of an entry that fulfils a repeated job. */
  lemma StepOf(env: A.Env, j: Job, e: Entry)
    requires Fulfils(env, j, ScheduleIn(e)) && j.every.Some? && Counted(j.every.value.unit)
    ensures var p := j.every.value;
            && e.step == p.n * A.UnitSeconds(p.unit) % U32
            && (p.unit == Months ==> A.UnitSeconds(p.unit) == MONTH_SECONDS)
            && (p.unit == Years ==> A.UnitSeconds(p.unit) == YEAR_SECONDS)
            && (MONTHDAY_ALIGN in e.flags <==> p.unit == Months) && (YEARDAY_ALIGN in e.flags <==> p.unit == Years)
  {
    hide Strides, IsAt, Elapsed;
    var p := j.every.value;
    var d :| Strides(p.unit, p.n, d) && e.step == d % U32;
    StrideIs(p.unit, p.n, d);
  }

  /** The entry of a repeated job, alive after these fires. */
  ghost predicate RunsOn(cfg: Config, env: A.Env, j: Job, s: State, id: nat, at: seq<(nat, bool)>) {
    && Inv(cfg, s) && id in s.apool && Fulfils(env, j, ScheduleIn(s.apool[id]))
    && j.every.Some? && Counted(j.every.value.unit)
    && (forall a :: a in at ==> a.0 < U32) && Alive(FiredAll(cfg, s, id, at), id)
  }

  /** An entry made by "every n months" has moved by n months per fire, with its day and time of day. */
  lemma MonthlyOccurs(cfg: Config, env: A.Env, j: Job, s: State, id: nat, at: seq<(nat, bool)>)
    requires RunsOn(cfg, env, j, s, id, at) && j.every.value.unit == Months
    requires var e, n := s.apool[id], j.every.value.n;
             && n * MONTH_SECONDS < U32 && DayOfMonth(e.trigger, cfg.off) <= 28
             && Repeated(e.trigger, n, |at|, cfg.off) < U32
    ensures var t := FiredAll(cfg, s, id, at).apool[id].trigger;
            Aligned(s.apool[id].trigger, t, |at| * j.every.value.n, cfg.off)
  {
    hide Inv, Fulfils, Alive, FiredAll, Aligned, DayOfMonth, Repeated, Updates, TriggerAfter, IsAligned, Proper;
    var e := s.apool[id];
    FiresMove(cfg, s, id, at);
    StepOf(env, j, e);
    ProperParts(cfg, s, id);
    SizedTiming(e);
    MonthlyTriggers(e, cfg.off, |at|);
    EveryMonths(e.trigger, j.every.value.n, |at|, cfg.off);
  }

  /** An entry made by "every n years": the same month, day and time, but for 29 February. */
  lemma YearlyOccurs(cfg: Config, env: A.Env, j: Job, s: State, id: nat, at: seq<(nat, bool)>)
    requires RunsOn(cfg, env, j, s, id, at) && j.every.value.unit == Years
    requires var e, n := s.apool[id], j.every.value.n;
             n * YEAR_SECONDS < U32 && Repeated(e.trigger, 12 * n, |at|, cfg.off) < U32
    ensures var u, t, n := s.apool[id].trigger, FiredAll(cfg, s, id, at).apool[id].trigger, j.every.value.n;
            Aligned(u, t, 12 * (|at| * n), cfg.off) <==>
            !LeapDay(u, cfg.off) || forall m :: 1 <= m <= |at| ==> Leap(LocalTime(u, cfg.off).year + m * n)
  {
    hide Inv, Fulfils, Alive, FiredAll, Aligned, LeapDay, Leap, LocalTime, Repeated, YearUpdates, TriggerAfter, IsAligned, Proper;
    var e := s.apool[id];
    FiresMove(cfg, s, id, at);
    StepOf(env, j, e);
    ProperParts(cfg, s, id);
    SizedTiming(e);
    YearlyTriggers(e, cfg.off, |at|);
    EveryYears(e.trigger, j.every.value.n, |at|, cfg.off);
  }

  /** An entry made by "every n" seconds to weeks has moved by n units per fire, by the calendar. */
  lemma PlainOccurs(cfg: Config, env: A.Env, j: Job, s: State, id: nat, at: seq<(nat, bool)>, off: int)
    requires RunsOn(cfg, env, j, s, id, at) && j.every.value.unit != Months && j.every.value.unit != Years
    requires var p := j.every.value;
             p.n * A.UnitSeconds(p.unit) < U32 && s.apool[id].trigger + |at| * s.apool[id].step < U32
    ensures var t := FiredAll(cfg, s, id, at).apool[id].trigger;
            Elapsed(j.every.value.unit, |at| * j.every.value.n, s.apool[id].trigger, t, off)
  {
    hide Inv, Fulfils, Alive, FiredAll, TriggerAfter, Proper, Elapsed;
    var e, p := s.apool[id], j.every.value;
    FiresMove(cfg, s, id, at);
    StepOf(env, j, e);
    ProperParts(cfg, s, id);
    SizedTiming(e);
    PlainTriggers(e, cfg.off, |at|);
    PlainElapsed(p, e.step, |at|, e.trigger, off);
  }

  lemma PlainElapsed(p: Period, step: nat, k: nat, t: int, off: int)
    requires Counted(p.unit) && step == p.n * A.UnitSeconds(p.unit) % U32 && p.n * A.UnitSeconds(p.unit) < U32
    ensures Elapsed(p.unit, k * p.n, t, t + k * step, off)
  {
    hide Elapsed;
    Grouped(k, p.n, A.UnitSeconds(p.unit));
    ElapsedIs(p.unit, k * p.n, t, t + k * step, off);
  }
}
