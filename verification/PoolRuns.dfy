/** What holds across whole runs of the active pool: isolation between users, and dispatching once. */
module PoolRuns {
  import opened AlignedStep
  import opened DiskCodec
  import opened Entries
  import opened Limits
  import opened Pool
  import opened Wrappers
  import G = GetReply

  // ---- Steps are local to one entry ----

  predicate SameEntry(s: State, r: State, id: nat) {
    (id in s.apool <==> id in r.apool) && (id in s.apool ==> s.apool[id] == r.apool[id])
  }

  predicate HasTimer(s: State, tid: nat, id: nat) {
    tid in s.timers && s.timers[tid].id == id
  }

  /** Nothing about an entry changes: neither it nor its timers. */
  ghost predicate Untouched(s: State, r: State, id: nat) {
    && SameEntry(s, r, id)
    && (forall t :: HasTimer(s, t, id) <==> HasTimer(r, t, id))
    && (forall t :: HasTimer(s, t, id) && HasTimer(r, t, id) ==> s.timers[t] == r.timers[t])
  }

  lemma CreatedLocal(cfg: Config, s: State, e: Entry, id: nat, now: nat, j: nat)
    requires Inv(cfg, s) && id !in s.apool && j != id
    ensures Untouched(s, Created(cfg, s, e, id, now), j)
  {
    hide Proper, Timed;
  }

  lemma DeletedLocal(cfg: Config, s: State, id: nat, j: nat)
    requires Inv(cfg, s) && id in s.apool && j != id
    ensures Untouched(s, Deleted(s, id), j)
  {
    hide Inv, Timed, Sized, Signed;
    ProperParts(cfg, s, id);
  }

  lemma TickedLocal(s: State, tid: nat, j: nat)
    requires tid in s.timers && s.timers[tid].id in s.apool && j != s.timers[tid].id
    ensures Untouched(s, Ticked(s, tid), j)
  {
  }

  lemma UpdatedLocal(cfg: Config, s: State, id: nat, j: nat)
    requires InvBut(cfg, s, id) && id in s.apool && j != id
    ensures Untouched(s, Updated(cfg, s, id), j)
  {
    hide Timed, Sized, Signed, NextAligned;
    assert Proper(cfg, s, id);
  }

  lemma UntouchedTrans(s: State, t: State, r: State, id: nat)
    requires Untouched(s, t, id) && Untouched(t, r, id)
    ensures Untouched(s, r, id)
  {
  }

  lemma FiredLocal(cfg: Config, s: State, tid: nat, now: nat, delivered: bool, j: nat)
    requires Inv(cfg, s) && tid in s.timers && s.timers[tid].id in s.apool && j != s.timers[tid].id
    ensures Untouched(s, Fired(cfg, s, tid, now, delivered), j)
  {
    hide Inv, InvBut, Ticked, Updated, Untouched, Judge;
    TickedKeeps(cfg, s, tid);
    TickedLocal(s, tid, j);
    var id, u := s.timers[tid].id, Ticked(s, tid);
    UpdatedLocal(cfg, u, id, j);
    var v := Updated(cfg, u, id);
    var r := Fired(cfg, s, tid, now, delivered);
    match Judge(cfg, u.apool[id], now) {
      case Skip => UntouchedTrans(s, u, r, j);
      case Send => UntouchedSent(v, r, j); UntouchedTrans(s, u, v, j); UntouchedTrans(s, v, r, j);
      case _ => UntouchedPool(u, r, id, j); UntouchedTrans(s, u, r, j);
    }
  }

  lemma UntouchedSent(s: State, r: State, j: nat)
    requires r.apool == s.apool && r.timers == s.timers
    ensures Untouched(s, r, j)
  {
  }

  lemma UntouchedPool(s: State, r: State, id: nat, j: nat)
    requires j != id && r.timers == s.timers && SameEntry(s, r, j)
    ensures Untouched(s, r, j)
  {
  }

  lemma {:induction false} DeletedAllLocal(cfg: Config, s: State, ids: seq<nat>, uid: nat, j: nat)
    requires Inv(cfg, s) && !Owns(s, uid, j)
    ensures Untouched(s, DeletedAll(s, ids, uid).0, j)
    decreases |ids|
  {
    hide Inv, Untouched, Deleted;
    if ids == [] {
      UntouchedSent(s, s, j);
    } else {
      var n := |ids| - 1;
      DeletedAllLocal(cfg, s, ids[..n], uid, j);
      DeletedAllKeeps(cfg, s, ids[..n], uid);
      var t := DeletedAll(s, ids[..n], uid).0;
      if Deletable(t, ids[n], uid) {
        UntouchedIs(s, t, j);
        DeletedLocal(cfg, t, ids[n], j);
        UntouchedTrans(s, t, Deleted(t, ids[n]), j);
      }
    }
  }

  lemma UntouchedIs(s: State, r: State, id: nat)
    requires Untouched(s, r, id)
    ensures SameEntry(s, r, id)
  {
  }

  // ---- Isolation ----

  /** The user on whose behalf a step happens. */
  function Actor(s: State, op: Op): Option<nat> {
    match op
    case New(e, _, _) => Some(e.uid)
    case Del(_, uid) => Some(uid)
    case Fire(tid, _, _) =>
      if tid in s.timers && s.timers[tid].id in s.apool then Some(s.apool[s.timers[tid].id].uid) else None
    case Report(id, _) => if id in s.apool then Some(s.apool[id].uid) else None
  }

  /** The id of the one entry that a step other than a deletion works on. */
  function Subject(s: State, op: Op): Option<nat> {
    match op
    case New(_, id, _) => Some(id)
    case Del(_, _) => None
    case Fire(tid, _, _) => if tid in s.timers then Some(s.timers[tid].id) else None
    case Report(id, _) => Some(id)
  }

  lemma StepLocal(cfg: Config, s: State, op: Op, j: nat)
    requires Inv(cfg, s) && !op.Del? && Subject(s, op) != Some(j)
    ensures Untouched(s, Step(cfg, s, op), j)
  {
    hide Inv, Untouched, Created, Fired, Noted, Ready;
    if !Enabled(cfg, s, op) {
      UntouchedSent(s, s, j);
    } else {
      match op {
        case New(e, id, now) => CreatedLocal(cfg, s, e, id, now, j);
        case Fire(tid, now, delivered) => FiredLocal(cfg, s, tid, now, delivered, j);
        case Report(id, r) =>
          if id in s.apool { UntouchedPool(s, Step(cfg, s, op), id, j); } else { UntouchedSent(s, s, j); }
      }
    }
  }

  /** A step on behalf of one user neither adds, alters nor removes an entry of another, nor its timer. */
  lemma StepIsolates(cfg: Config, s: State, op: Op, uid: nat, j: nat)
    requires Inv(cfg, s) && Actor(s, op) != Some(uid)
    requires Owns(s, uid, j) || Owns(Step(cfg, s, op), uid, j)
    ensures Owns(s, uid, j) && Untouched(s, Step(cfg, s, op), j)
  {
    hide Inv, Untouched, Created, Fired, Noted, DeletedAll, Ready;
    if op.Del? {
      if !Owns(s, op.uid, j) {
        DeletedAllLocal(cfg, s, op.ids, op.uid, j);
        UntouchedIs(s, Step(cfg, s, op), j);
      } else {
        DeletedAllExact(cfg, s, op.ids, op.uid);
      }
    } else if Subject(s, op) != Some(j) {
      StepLocal(cfg, s, op, j);
      UntouchedIs(s, Step(cfg, s, op), j);
    } else if Enabled(cfg, s, op) {
      SubjectKeepsOwner(cfg, s, op, j);
    } else {
      UntouchedSent(s, s, j);
    }
  }

  lemma SubjectKeepsOwner(cfg: Config, s: State, op: Op, j: nat)
    requires Inv(cfg, s) && Enabled(cfg, s, op) && Subject(s, op) == Some(j)
    ensures var r := Step(cfg, s, op);
            j in r.apool ==> Actor(s, op) == Some(r.apool[j].uid)
    ensures j in s.apool && op.Fire? ==> Actor(s, op) == Some(s.apool[j].uid)
    ensures j in s.apool && op.Report? ==> Actor(s, op) == Some(s.apool[j].uid)
    ensures op.New? ==> j !in s.apool
    ensures op.Report? && j !in s.apool ==> j !in Step(cfg, s, op).apool
    ensures op.Fire? ==> j in s.apool
  {
    hide Inv, Command, Ready, NextAligned, Judge;
  }

  ghost predicate Foreign(cfg: Config, s: State, ops: seq<Op>, uid: nat)
    decreases |ops|
  {
    ops == [] ||
    (Foreign(cfg, s, ops[..|ops| - 1], uid) && Actor(Run(cfg, s, ops[..|ops| - 1]), ops[|ops| - 1]) != Some(uid))
  }

  /** Over any run without a step of its own, a user's entries and timers stay as they are, and none appear. */
  lemma {:induction false} RunIsolates(cfg: Config, s: State, ops: seq<Op>, uid: nat, j: nat)
    requires Lawful(cfg) && Inv(cfg, s) && Foreign(cfg, s, ops, uid)
    requires Owns(s, uid, j) || Owns(Run(cfg, s, ops), uid, j)
    ensures Owns(s, uid, j) && Untouched(s, Run(cfg, s, ops), j)
    decreases |ops|
  {
    hide Inv, Untouched, Step, Lawful, Actor;
    if ops == [] {
      UntouchedSent(s, s, j);
    } else {
      var t, op := Run(cfg, s, ops[..|ops| - 1]), ops[|ops| - 1];
      RunKeeps(cfg, s, ops[..|ops| - 1]);
      if Owns(s, uid, j) {
        RunIsolates(cfg, s, ops[..|ops| - 1], uid, j);
        UntouchedIs(s, t, j);
      }
      StepIsolates(cfg, t, op, uid, j);
      RunIsolates(cfg, s, ops[..|ops| - 1], uid, j);
      UntouchedTrans(s, t, Step(cfg, t, op), j);
    }
  }

  /** A listing holds exactly the requested entries that are visible to the user, and only that user's. */
  lemma {:induction false} SelectedOwned(ids: seq<nat>, s: State, uid: nat, e: Entry)
    ensures e in G.Selected(ids, s.apool, uid) <==>
            exists id :: id in ids && G.Visible(s.apool, id, uid) && s.apool[id] == e
    ensures e in G.Selected(ids, s.apool, uid) ==> e.uid == uid
    decreases |ids|
  {
    hide G.Ascii, G.StrLen;
    if ids != [] {
      var n := |ids| - 1;
      SelectedOwned(ids[..n], s, uid, e);
      assert ids == ids[..n] + [ids[n]];
    }
  }

  // ---- A non-recurrent entry is dispatched once ----

  function SentFor(ms: seq<Message>, id: nat): nat {
    if ms == [] then 0 else SentFor(ms[..|ms| - 1], id) + if ms[|ms| - 1].id == id then 1 else 0
  }

  lemma SentForPush(ms: seq<Message>, m: Message, id: nat)
    ensures SentFor(ms + [m], id) == SentFor(ms, id) + if m.id == id then 1 else 0
  {
  }

  /** Its timers have no step, and nothing was sent for it since. */
  ghost predicate Waiting(from: nat, r: State, id: nat) {
    id in r.apool && SentFor(r.sent, id) == from && forall t :: HasTimer(r, t, id) ==> r.timers[t].step == 0
  }

  /** No timer is left for it; it is gone if it was sent. */
  ghost predicate Spent(from: nat, r: State, id: nat) {
    && (forall t :: !HasTimer(r, t, id))
    && from <= SentFor(r.sent, id) <= from + 1
    && (SentFor(r.sent, id) > from ==> id !in r.apool)
  }

  /** What is sent, and for whom. */
  lemma FiredSends(cfg: Config, s: State, tid: nat, now: nat, delivered: bool)
    requires Inv(cfg, s) && tid in s.timers && s.timers[tid].id in s.apool
    ensures var e := Rung(s.apool[s.timers[tid].id]);
            && e.id == s.timers[tid].id
            && Fired(cfg, s, tid, now, delivered).sent ==
               s.sent + if delivered && Judge(cfg, e, now).Send? then [MessageFor(e)] else []
  {
    hide Inv, Judge, Command, NextAligned, Proper;
    ProperParts(cfg, s, s.timers[tid].id);
    assert s.sent + [] == s.sent;
  }

  /** Its fire takes the timer away, and the entry with it unless the entry is or becomes invalid. */
  lemma LastFire(cfg: Config, s: State, tid: nat, now: nat, delivered: bool)
    requires Inv(cfg, s) && tid in s.timers && s.timers[tid].id in s.apool && Advance(s.timers[tid]).None?
    ensures var id, r := s.timers[tid].id, Fired(cfg, s, tid, now, delivered);
            && (forall t :: !HasTimer(r, t, id))
            && (id in r.apool <==> Judge(cfg, Rung(s.apool[id]), now) in {Ignore, Reject})
  {
    hide Inv, Judge, Command, NextAligned, Proper, Sized;
    var id, r := s.timers[tid].id, Fired(cfg, s, tid, now, delivered);
    TickedKeeps(cfg, s, tid);
    forall t ensures !HasTimer(r, t, id) {
      if t in s.timers { PlacedIn(cfg, s, t); }
    }
  }

  /** An entry stays in the pool after a fire exactly when its timer does or it is left alone as invalid. */
  lemma StaysIff(cfg: Config, s: State, tid: nat, now: nat, delivered: bool)
    requires Inv(cfg, s) && tid in s.timers && s.timers[tid].id in s.apool
    ensures var id, r := s.timers[tid].id, Fired(cfg, s, tid, now, delivered);
            id in r.apool <==> Advance(s.timers[tid]).Some? || Judge(cfg, Rung(s.apool[id]), now) in {Ignore, Reject}
  {
    hide Inv, Judge, Command, NextAligned, Proper, Sized, InvBut;
    TickedKeeps(cfg, s, tid);
    FiredKeeps(cfg, s, tid, now, delivered);
  }

  /**
   * A fire that leaves a valid entry in the pool moves its trigger by one step: by the seconds of the step, or
   * for an aligned entry by its months or years in the calendar. Step and expiry stay.
   */
  lemma FireAdvances(cfg: Config, s: State, tid: nat, now: nat, delivered: bool)
    requires Inv(cfg, s) && tid in s.timers && s.timers[tid].id in s.apool && Advance(s.timers[tid]).Some?
    requires INVALID !in s.apool[s.timers[tid].id].flags
    requires Judge(cfg, Rung(s.apool[s.timers[tid].id]), now) in {Skip, Send}
    ensures var id, r := s.timers[tid].id, Fired(cfg, s, tid, now, delivered);
            var e := s.apool[id];
            && id in r.apool && r.apool[id].step == e.step && r.apool[id].expire == e.expire
            && (!IsAligned(e) ==> r.apool[id].trigger == (e.trigger + e.step) % U32)
            && (IsAligned(e) ==> r.apool[id].trigger == NextAligned(e, cfg.off))
            && (MONTHDAY_ALIGN in e.flags && MonthsLater(e.trigger, e.step / MONTH_SECONDS, cfg.off) < U32 ==>
                  r.apool[id].trigger == MonthsLater(e.trigger, e.step / MONTH_SECONDS, cfg.off))
            && (MONTHDAY_ALIGN !in e.flags && YEARDAY_ALIGN in e.flags
                && YearsLater(e.trigger, e.step / YEAR_SECONDS, cfg.off) < U32 ==>
                  r.apool[id].trigger == YearsLater(e.trigger, e.step / YEAR_SECONDS, cfg.off))
  {
    hide Inv, Judge, Command, Proper, Sized, InvBut, StepMonths, StepYears, MonthsLater, YearsLater;
    var t := s.timers[tid];
    var e := s.apool[t.id];
    TickedKeeps(cfg, s, tid);
    ProperParts(cfg, s, t.id);
    SizedTiming(e);
    TriggerWraps(t.trigger, t.step);
    if MonthsLater(e.trigger, e.step / MONTH_SECONDS, cfg.off) < U32 { StepMonthsExact(e.trigger, e.step, cfg.off); }
    if YearsLater(e.trigger, e.step / YEAR_SECONDS, cfg.off) < U32 { StepYearsExact(e.trigger, e.step, cfg.off); }
    assert e.timer == tid;
  }

  lemma TriggerWraps(a: nat, b: nat)
    ensures (a + b) % U32 == (a % U32 + b) % U32
  {
  }

  lemma WaitingStays(from: nat, s: State, r: State, id: nat)
    requires Waiting(from, s, id) && Untouched(s, r, id) && SentFor(r.sent, id) == from
    ensures Waiting(from, r, id)
  {
  }

  lemma WaitingDel(cfg: Config, from: nat, s: State, ids: seq<nat>, uid: nat, id: nat)
    requires Inv(cfg, s) && Waiting(from, s, id)
    ensures var r := DeletedAll(s, ids, uid).0; Waiting(from, r, id) || Spent(from, r, id)
  {
    hide Inv, DeletedAll, SentFor, Owns;
    var r := DeletedAll(s, ids, uid).0;
    DeletedAllExact(cfg, s, ids, uid);
    DeletedAllKeeps(cfg, s, ids, uid);
    forall t | HasTimer(r, t, id) ensures id in r.apool && HasTimer(s, t, id) { PlacedIn(cfg, r, t); }
  }

  lemma WaitingFire(cfg: Config, from: nat, s: State, tid: nat, now: nat, delivered: bool, id: nat)
    requires Inv(cfg, s) && Waiting(from, s, id) && tid in s.timers && s.timers[tid].id in s.apool
    ensures var r := Fired(cfg, s, tid, now, delivered); Waiting(from, r, id) || Spent(from, r, id)
  {
    hide Inv, Fired, Judge, MessageFor, SentFor, Rung;
    FiredSendsCount(cfg, s, tid, now, delivered, id);
    if s.timers[tid].id == id {
      assert HasTimer(s, tid, id);
      LastFire(cfg, s, tid, now, delivered);
    } else {
      FiredLocal(cfg, s, tid, now, delivered, id);
      WaitingStays(from, s, Fired(cfg, s, tid, now, delivered), id);
    }
  }

  lemma FiredSendsCount(cfg: Config, s: State, tid: nat, now: nat, delivered: bool, id: nat)
    requires Inv(cfg, s) && tid in s.timers && s.timers[tid].id in s.apool
    ensures SentFor(Fired(cfg, s, tid, now, delivered).sent, id) == SentFor(s.sent, id) +
            if s.timers[tid].id == id && delivered && Judge(cfg, Rung(s.apool[id]), now).Send? then 1 else 0
  {
    hide Inv, Fired, Judge, MessageFor, Rung;
    var e := Rung(s.apool[s.timers[tid].id]);
    FiredSends(cfg, s, tid, now, delivered);
    SentForPush(s.sent, MessageFor(e), id);
    MessageId(e);
    assert s.sent + [] == s.sent;
  }

  lemma WaitingStep(cfg: Config, from: nat, s: State, op: Op, id: nat)
    requires Lawful(cfg) && Inv(cfg, s) && Waiting(from, s, id) && (op.New? ==> op.id != id)
    ensures Waiting(from, Step(cfg, s, op), id) || Spent(from, Step(cfg, s, op), id)
  {
    hide Inv, Created, Fired, Noted, DeletedAll, Ready, Lawful, Waiting, Spent, Untouched;
    var r := Step(cfg, s, op);
    WaitingCount(from, s, id);
    if Enabled(cfg, s, op) {
      match op {
        case New(e, newId, now) =>
          CreatedSent(cfg, s, e, newId, now);
          StepLocal(cfg, s, op, id);
          WaitingStays(from, s, r, id);
        case Del(ids, uid) => WaitingDel(cfg, from, s, ids, uid, id);
        case Report(_, _) => WaitingReport(from, s, r, id);
        case Fire(tid, now, delivered) => WaitingFire(cfg, from, s, tid, now, delivered, id);
      }
    }
  }

  lemma WaitingCount(from: nat, s: State, id: nat)
    requires Waiting(from, s, id)
    ensures SentFor(s.sent, id) == from && id in s.apool
  {
  }

  lemma WaitingReport(from: nat, s: State, r: State, id: nat)
    requires Waiting(from, s, id) && r.timers == s.timers && r.sent == s.sent && id in r.apool
    ensures Waiting(from, r, id)
  {
  }

  lemma CreatedSent(cfg: Config, s: State, e: Entry, id: nat, now: nat)
    ensures Created(cfg, s, e, id, now).sent == s.sent
  {
  }

  lemma MessageId(e: Entry)
    ensures MessageFor(e).id == e.id
  {
  }

  lemma SpentStays(from: nat, s: State, r: State, id: nat)
    requires Spent(from, s, id) && SentFor(r.sent, id) == SentFor(s.sent, id) && (id in r.apool ==> id in s.apool)
    requires forall t :: HasTimer(r, t, id) ==> HasTimer(s, t, id)
    ensures Spent(from, r, id)
  {
  }

  lemma SpentStep(cfg: Config, from: nat, s: State, op: Op, id: nat)
    requires Lawful(cfg) && Inv(cfg, s) && Spent(from, s, id) && (op.New? ==> op.id != id)
    ensures Spent(from, Step(cfg, s, op), id)
  {
    hide Inv, Created, Fired, Noted, DeletedAll, Ready, Lawful, Judge, Rung, SentFor;
    var r := Step(cfg, s, op);
    if Enabled(cfg, s, op) {
      match op {
        case New(e, newId, now) =>
          CreatedSent(cfg, s, e, newId, now);
          StepLocal(cfg, s, op, id);
        case Del(ids, uid) =>
          DeletedAllExact(cfg, s, ids, uid);
        case Report(_, _) =>
        case Fire(tid, now, delivered) =>
          assert !HasTimer(s, tid, id);
          FiredSendsCount(cfg, s, tid, now, delivered, id);
          StepLocal(cfg, s, op, id);
      }
      SpentStays(from, s, r, id);
    }
  }

  lemma {:induction false} OneShotPhases(cfg: Config, s: State, ops: seq<Op>, id: nat)
    requires Lawful(cfg) && Inv(cfg, s) && Waiting(SentFor(s.sent, id), s, id)
    requires forall op :: op in ops && op.New? ==> op.id != id
    ensures var r := Run(cfg, s, ops);
            Waiting(SentFor(s.sent, id), r, id) || Spent(SentFor(s.sent, id), r, id)
    decreases |ops|
  {
    hide Inv, Waiting, Spent, Step, Lawful;
    if ops != [] {
      var n := |ops| - 1;
      var from := SentFor(s.sent, id);
      OneShotPhases(cfg, s, ops[..n], id);
      RunKeeps(cfg, s, ops[..n]);
      var t := Run(cfg, s, ops[..n]);
      assert ops[n] in ops;
      if Waiting(from, t, id) { WaitingStep(cfg, from, t, ops[n], id); } else { SpentStep(cfg, from, t, ops[n], id); }
    }
  }

  /**
   * However a run goes, a valid entry without a step is sent to the executer at most once until its id is
   * given out again, and once it was sent it has left the pool.
   */
  lemma SentAtMostOnce(cfg: Config, s: State, ops: seq<Op>, id: nat)
    requires Lawful(cfg) && Inv(cfg, s) && id in s.apool && s.apool[id].step == 0 && INVALID !in s.apool[id].flags
    requires forall op :: op in ops && op.New? ==> op.id != id
    ensures var n, m := SentFor(s.sent, id), SentFor(Run(cfg, s, ops).sent, id);
            n <= m <= n + 1 && (m > n ==> id !in Run(cfg, s, ops).apool)
  {
    hide Inv, Lawful, Run, SentFor;
    forall t | HasTimer(s, t, id) ensures s.timers[t].step == 0 { ExactlyOneTimer(cfg, s, id, t); }
    OneShotPhases(cfg, s, ops, id);
  }
}
