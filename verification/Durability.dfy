/**
 * The handshake between request handlers and the serializer: mutate, mark, test, signal against
 * test, clear, wait, write. Every interleaving of any number of handlers with the monitor thread.
 */
module Durability {
  import opened Wrappers

  /** A handler: its last unmarked change, and whether it marked any. */
  datatype Handler =
    | Working(marked: bool)
    | Mutated(change: nat, marked: bool)
    | Testing(marked: bool)
    | Locking
    | Holding
    | Releasing
    | Over

  datatype Monitor = Outside | Checking | Seen | Cleared | Drowsy | Asleep | Woken | Writing | Failed

  datatype Owner = ByMonitor | ByHandler(h: nat)

  /**
   * Changes made to the active pool by NEW and DEL, those in the last snapshot written, and whether a handler gave
   * up on a mark that is still standing.
   */
  datatype Sys = Sys(handlers: map<nat, Handler>, monitor: Monitor, flag: bool, mutex: Option<Owner>,
                     made: set<nat>, saved: set<nat>, abandoned: bool)

  datatype Event =
    | Arrive(h: nat) | Mutate(h: nat, change: nat) | Mark(h: nat) | Finish(h: nat) | Abort(h: nat)
    | Test(h: nat) | Lock(h: nat) | Signal(h: nat) | Unlock(h: nat)
    | MonitorLocks | MonitorTests | MonitorClears | MonitorSleeps | SpuriousWake | MonitorUnlocks
    | Written | WriteFails | MonitorMarks

  predicate At(s: Sys, h: nat, p: Handler) {
    h in s.handlers && s.handlers[h] == p
  }

  function Goes(s: Sys, h: nat, p: Handler): Sys {
    s.(handlers := s.handlers[h := p])
  }

  /** One atomic action of a handler; nothing happens if it is not at that point. */
  function HandlerStep(s: Sys, ev: Event): Sys {
    match ev
    case Arrive(h) => if h in s.handlers then s else Goes(s, h, Working(false))
    case Mutate(h, c) =>
      if h in s.handlers && s.handlers[h].Working? && c !in s.made
      then Goes(s, h, Mutated(c, s.handlers[h].marked)).(made := s.made + {c}) else s
    case Mark(h) =>
      if h in s.handlers && s.handlers[h].Mutated? then Goes(s, h, Working(true)).(flag := true) else s
    case Finish(h) =>
      if h in s.handlers && s.handlers[h].Working? then Goes(s, h, Testing(s.handlers[h].marked)) else s
    case Abort(h) =>
      if h in s.handlers && s.handlers[h].Working?
      then Goes(s, h, Over).(abandoned := s.abandoned || (s.handlers[h].marked && s.flag)) else s
    case Test(h) =>
      if h in s.handlers && s.handlers[h].Testing? then Goes(s, h, if s.flag then Locking else Over) else s
    case Lock(h) =>
      if At(s, h, Locking) && s.mutex.None? then Goes(s, h, Holding).(mutex := Some(ByHandler(h))) else s
    case Signal(h) =>
      if At(s, h, Holding)
      then Goes(s, h, Releasing).(monitor := if s.monitor.Asleep? then Woken else s.monitor) else s
    case Unlock(h) => if At(s, h, Releasing) then Goes(s, h, Over).(mutex := None) else s
    case _ => s
  }

  /** One atomic action of the monitor. */
  function MonitorStep(s: Sys, ev: Event): Sys {
    match ev
    case MonitorLocks =>
      if (s.monitor.Outside? || s.monitor.Woken?) && s.mutex.None?
      then s.(monitor := Checking, mutex := Some(ByMonitor)) else s
    case MonitorTests => if s.monitor.Checking? then s.(monitor := if s.flag then Seen else Drowsy) else s
    case MonitorClears => if s.monitor.Seen? then s.(monitor := Cleared, flag := false, abandoned := false) else s
    case MonitorSleeps => if s.monitor.Drowsy? then s.(monitor := Asleep, mutex := None) else s
    case SpuriousWake => if s.monitor.Asleep? then s.(monitor := Woken) else s
    case MonitorUnlocks => if s.monitor.Cleared? then s.(monitor := Writing, mutex := None) else s
    case Written => if s.monitor.Writing? then s.(monitor := Outside, saved := s.made) else s
    case WriteFails => if s.monitor.Writing? then s.(monitor := Failed) else s
    case MonitorMarks => if s.monitor.Failed? then s.(monitor := Outside, flag := true) else s
    case _ => s
  }

  function Step(s: Sys, ev: Event): Sys {
    if HandlerStep(s, ev) != s then HandlerStep(s, ev) else MonitorStep(s, ev)
  }

  // ---- What every interleaving keeps ----

  predicate Inside(m: Monitor) {
    m in {Checking, Seen, Cleared, Drowsy}
  }

  /** The mutex excludes: it is held by whoever is past its lock and before its unlock. */
  ghost predicate Exclusive(s: Sys) {
    && (s.mutex == Some(ByMonitor) <==> Inside(s.monitor))
    && (s.mutex.Some? && s.mutex.value.ByHandler? ==> s.mutex.value.h in s.handlers)
    && forall h :: h in s.handlers ==>
         (s.mutex == Some(ByHandler(h)) <==> s.handlers[h] == Holding || s.handlers[h] == Releasing)
  }

  /** The monitor took the mark down and has not finished the snapshot for it. */
  predicate Owing(m: Monitor) {
    m in {Cleared, Writing, Failed}
  }

  /** A change made but not in the snapshot is on its way there. */
  ghost predicate Tracked(s: Sys, c: nat) {
    s.flag || Owing(s.monitor) || exists h :: h in s.handlers && s.handlers[h].Mutated? && s.handlers[h].change == c
  }

  ghost predicate Durable(s: Sys) {
    && s.saved <= s.made && (s.monitor.Seen? ==> s.flag)
    && forall c :: c in s.made && c !in s.saved ==> Tracked(s, c)
  }

  /** A handler that marked a change and has its test or signal still to run. */
  predicate Owes(p: Handler) {
    match p
    case Working(marked) => marked
    case Mutated(_, marked) => marked
    case Testing(marked) => marked
    case Locking => true
    case Holding => true
    case _ => false
  }

  ghost predicate SomeoneOwes(s: Sys) {
    exists h :: h in s.handlers && Owes(s.handlers[h])
  }

  /** The monitor does not sleep on a mark that nobody will signal, unless a handler gave up on that very mark. */
  ghost predicate Awake(s: Sys) {
    && (s.abandoned ==> s.flag)
    && ((s.monitor.Drowsy? || s.monitor.Asleep?) && s.flag ==> SomeoneOwes(s) || s.abandoned)
  }

  ghost predicate Good(s: Sys) {
    Exclusive(s) && Durable(s) && Awake(s)
  }

  lemma OwesStays(s: Sys, h: nat, p: Handler)
    requires SomeoneOwes(s) && (h in s.handlers && Owes(s.handlers[h]) ==> Owes(p))
    ensures SomeoneOwes(Goes(s, h, p))
  {
    var k :| k in s.handlers && Owes(s.handlers[k]);
    assert k in Goes(s, h, p).handlers && Owes(Goes(s, h, p).handlers[k]);
  }

  lemma TrackedStays(s: Sys, h: nat, p: Handler, c: nat)
    requires Tracked(s, c) && (h in s.handlers && s.handlers[h].Mutated? ==> p == s.handlers[h])
    ensures Tracked(Goes(s, h, p), c)
  {
    var r := Goes(s, h, p);
    if !s.flag && !Owing(s.monitor) {
      var k :| k in s.handlers && s.handlers[k].Mutated? && s.handlers[k].change == c;
      assert k in r.handlers && r.handlers[k].Mutated? && r.handlers[k].change == c;
    }
  }

  lemma HandlerKeepsExclusive(s: Sys, ev: Event)
    requires Exclusive(s)
    ensures Exclusive(HandlerStep(s, ev))
  {
  }

  lemma HandlerKeepsDurable(s: Sys, ev: Event)
    requires Durable(s)
    ensures Durable(HandlerStep(s, ev))
  {
    hide Tracked, Owes;
    var r := HandlerStep(s, ev);
    forall c | c in r.made && c !in r.saved ensures Tracked(r, c) {
      if r.flag {
        FlagTracks(r, c);
      } else if ev.Mutate? && ev.change == c && c !in s.made {
        MutatedTracks(r, ev.h, c);
      } else if r != s {
        TrackedStays(s, ev.h, r.handlers[ev.h], c);
        TrackedSame(Goes(s, ev.h, r.handlers[ev.h]), r, c);
      }
    }
  }

  lemma FlagTracks(s: Sys, c: nat)
    requires s.flag
    ensures Tracked(s, c)
  {
  }

  lemma MutatedTracks(s: Sys, h: nat, c: nat)
    requires h in s.handlers && s.handlers[h].Mutated? && s.handlers[h].change == c
    ensures Tracked(s, c)
  {
  }

  lemma TrackedSame(s: Sys, r: Sys, c: nat)
    requires Tracked(s, c) && r.handlers == s.handlers && r.flag == s.flag && (Owing(s.monitor) ==> Owing(r.monitor))
    ensures Tracked(r, c)
  {
  }

  lemma HandlerKeepsAwake(s: Sys, ev: Event)
    requires Exclusive(s) && Awake(s)
    ensures Awake(HandlerStep(s, ev))
  {
    hide SomeoneOwes;
    var r := HandlerStep(s, ev);
    if r != s && (r.monitor.Drowsy? || r.monitor.Asleep?) && r.flag && !r.abandoned {
      var h := ev.h;
      if ev.Mark? {
        OwesAt(r, h);
      } else {
        OwesStays(s, h, r.handlers[h]);
        OwesSame(Goes(s, h, r.handlers[h]), r);
      }
    }
  }

  lemma OwesAt(s: Sys, h: nat)
    requires h in s.handlers && Owes(s.handlers[h])
    ensures SomeoneOwes(s)
  {
  }

  lemma OwesSame(s: Sys, r: Sys)
    requires SomeoneOwes(s) && r.handlers == s.handlers
    ensures SomeoneOwes(r)
  {
  }

  lemma MonitorKeeps(s: Sys, ev: Event)
    requires Good(s)
    ensures Good(MonitorStep(s, ev))
  {
    hide SomeoneOwes, Tracked;
    var r := MonitorStep(s, ev);
    forall c | c in r.made && c !in r.saved ensures Tracked(r, c) {
      if r.flag { FlagTracks(r, c); }
      else if Owing(r.monitor) { OwingTracks(r, c); }
      else { TrackedSame(s, r, c); }
    }
    if SomeoneOwes(s) { OwesSame(s, r); }
  }

  lemma OwingTracks(s: Sys, c: nat)
    requires Owing(s.monitor)
    ensures Tracked(s, c)
  {
  }

  lemma StepKeeps(s: Sys, ev: Event)
    requires Good(s)
    ensures Good(Step(s, ev))
  {
    hide Exclusive, Durable, Awake, HandlerStep, MonitorStep;
    HandlerKeepsExclusive(s, ev);
    HandlerKeepsDurable(s, ev);
    HandlerKeepsAwake(s, ev);
    MonitorKeeps(s, ev);
  }

  function Run(s: Sys, evs: seq<Event>): Sys {
    if evs == [] then s else Step(Run(s, evs[..|evs| - 1]), evs[|evs| - 1])
  }

  const START := Sys(map[], Outside, false, None, {}, {}, false)

  /**
   * At every point of every interleaving: a NEW or DEL change missing from the last snapshot is marked, or the
   * monitor has cleared the mark and not finished writing, or its handler has yet to mark it; and the monitor
   * never sleeps on a mark unless a handler has its test or signal to run, or gave up on that mark.
   */
  lemma {:induction false} EveryRunIsGood(evs: seq<Event>)
    ensures Good(Run(START, evs))
    decreases |evs|
  {
    hide Good, Step;
    if evs == [] {
      StartGood();
    } else {
      EveryRunIsGood(evs[..|evs| - 1]);
      StepKeeps(Run(START, evs[..|evs| - 1]), evs[|evs| - 1]);
    }
  }

  lemma StartGood()
    ensures Good(START)
  {
  }

  // ---- Nothing is forgotten ----

  /** All handlers came to their end, and the monitor does not sleep on a mark that one of them gave up on. */
  ghost predicate Quiet(s: Sys) {
    && (forall h :: h in s.handlers ==> s.handlers[h].Over?)
    && (s.monitor.Drowsy? || s.monitor.Asleep? ==> !s.abandoned)
  }

  /**
   * Asleep with no handler left to signal, the monitor has a mark before it if and only if a handler gave up on it.
   */
  lemma AsleepOnMarkIff(s: Sys)
    requires Good(s) && s.monitor.Asleep? && !SomeoneOwes(s)
    ensures s.flag <==> s.abandoned
  {
  }

  /** The monitor's next action when left alone, its writes succeeding. */
  function Left(s: Sys): Sys {
    match s.monitor
    case Outside => MonitorStep(s, MonitorLocks)
    case Woken => MonitorStep(s, MonitorLocks)
    case Checking => MonitorStep(s, MonitorTests)
    case Seen => MonitorStep(s, MonitorClears)
    case Cleared => MonitorStep(s, MonitorUnlocks)
    case Writing => MonitorStep(s, Written)
    case Failed => MonitorStep(s, MonitorMarks)
    case Drowsy => MonitorStep(s, MonitorSleeps)
    case Asleep => s
  }

  function LeftFor(s: Sys, n: nat): Sys
    decreases n
  {
    if n == 0 then s else LeftFor(Left(s), n - 1)
  }

  /** How many actions the monitor is from having written everything. */
  function Distance(s: Sys): nat {
    if s.saved == s.made then 0 else
    match s.monitor
    case Failed => 6
    case Outside => 5
    case Woken => 5
    case Checking => 4
    case Seen => 3
    case Cleared => 2
    case Writing => 1
    case Drowsy => 0
    case Asleep => 0
  }

  lemma Owners(m: Option<Owner>)
    ensures m.None? || m == Some(ByMonitor) || exists h :: m == Some(ByHandler(h))
  {
    if m.Some? && m.value.ByHandler? { assert m == Some(ByHandler(m.value.h)); }
  }

  lemma QuietMeans(s: Sys)
    requires Good(s) && Quiet(s)
    ensures s.monitor.Outside? || s.monitor.Woken? ==> s.mutex.None?
    ensures s.monitor.Drowsy? || s.monitor.Asleep? ==> !s.flag
    ensures s.saved != s.made ==> s.flag || Owing(s.monitor)
  {
    Owners(s.mutex);
    if s.saved != s.made {
      var c :| c in s.made && c !in s.saved;
      assert Tracked(s, c);
    }
  }

  lemma LeftKeeps(s: Sys)
    requires Good(s)
    ensures Good(Left(s))
  {
    hide Good, MonitorStep;
    MonitorKeeps(s, MonitorLocks);
    MonitorKeeps(s, MonitorTests);
    MonitorKeeps(s, MonitorClears);
    MonitorKeeps(s, MonitorUnlocks);
    MonitorKeeps(s, Written);
    MonitorKeeps(s, MonitorMarks);
    MonitorKeeps(s, MonitorSleeps);
  }

  lemma LeftQuiet(s: Sys)
    requires Good(s) && Quiet(s)
    ensures Quiet(Left(s))
  {
    hide Durable, Exclusive, SomeoneOwes;
  }

  /** Once the handlers are through, the monitor left alone has every change written within six actions, for good. */
  lemma {:induction false} EverythingIsWritten(s: Sys, n: nat)
    requires Good(s) && Quiet(s) && Distance(s) <= n
    ensures LeftFor(s, n).saved == LeftFor(s, n).made == s.made
    ensures Distance(s) <= 6
    decreases n
  {
    hide Good, Quiet;
    QuietMeans(s);
    if n > 0 {
      LeftKeeps(s);
      LeftQuiet(s);
      EverythingIsWritten(Left(s), n - 1);
    }
  }

  lemma {:induction false} SleepWritesNothing(s: Sys, n: nat)
    requires s.monitor.Drowsy? || s.monitor.Asleep?
    ensures LeftFor(s, n).saved == s.saved
    decreases n
  {
    if n > 0 { SleepWritesNothing(Left(s), n - 1); }
  }

  /** With all handlers over and something unwritten, the monitor writes it unless it sleeps on a mark given up on. */
  lemma WrittenIff(s: Sys)
    requires Good(s) && s.saved != s.made && forall h :: h in s.handlers ==> s.handlers[h].Over?
    ensures (exists n :: LeftFor(s, n).saved == s.made) <==> !((s.monitor.Drowsy? || s.monitor.Asleep?) && s.abandoned)
  {
    hide Good, Left;
    if (s.monitor.Drowsy? || s.monitor.Asleep?) && s.abandoned {
      forall n ensures LeftFor(s, n).saved != s.made { SleepWritesNothing(s, n); }
    } else {
      EverythingIsWritten(s, 6);
    }
  }

  /** Such a run: a handler gives up between its mark and its signal while the monitor sleeps. */
  lemma AbandonedSleeps()
    ensures
      var s := Run(START, [MonitorLocks, MonitorTests, MonitorSleeps, Arrive(0), Mutate(0, 7), Mark(0), Abort(0)]);
      && s.monitor.Asleep? && s.flag && 7 !in s.saved && 7 in s.made
      && forall h :: h in s.handlers ==> s.handlers[h].Over?
  {
    hide Run, Step;
    var e := [MonitorLocks, MonitorTests, MonitorSleeps, Arrive(0), Mutate(0, 7), Mark(0), Abort(0)];
    RunStep(e, 7);
    RunStep(e, 6);
    RunStep(e, 5);
    RunStep(e, 4);
    RunStep(e, 3);
    RunStep(e, 2);
    RunStep(e, 1);
    RunNone();
    assert e[..7] == e && e[..0] == [];
    FallsAsleep();
    GivesUp();
  }

  lemma RunNone()
    ensures Run(START, []) == START
  {
  }

  lemma FallsAsleep()
    ensures Step(Step(Step(START, MonitorLocks), MonitorTests), MonitorSleeps) == START.(monitor := Asleep)
  {
  }

  lemma GivesUp()
    ensures var s := START.(monitor := Asleep);
            Step(Step(Step(Step(s, Arrive(0)), Mutate(0, 7)), Mark(0)), Abort(0)) ==
            Sys(map[0 := Over], Asleep, true, None, {7}, {}, true)
  {
    var s := START.(monitor := Asleep);
    var a := Step(s, Arrive(0));
    assert a.handlers == map[0 := Working(false)];
    var b := Step(a, Mutate(0, 7));
    assert b.handlers == map[0 := Mutated(7, false)] && b.made == {7};
    var c := Step(b, Mark(0));
    assert c.handlers == map[0 := Working(true)] && c.flag;
    var d := Step(c, Abort(0));
    assert d.handlers == map[0 := Over];
  }

  lemma RunStep(e: seq<Event>, n: nat)
    requires 0 < n <= |e|
    ensures Run(START, e[..n]) == Step(Run(START, e[..n - 1]), e[n - 1])
  {
    hide Step;
    assert e[..n][..n - 1] == e[..n - 1];
  }
}
