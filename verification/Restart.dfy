/** A daemon restart: the pool is written, read back, caught up with the clock and armed again. */
module Restart {
  import opened AlignedStep
  import opened Auth
  import opened DiskCodec
  import opened Entries
  import opened Limits
  import opened Pool
  import opened Reload
  import opened Scheduler

  function AlignmentOf(e: Entry): Alignment {
    if MONTHDAY_ALIGN in e.flags then MonthDay else if YEARDAY_ALIGN in e.flags then YearDay else Plain
  }

  /** What the catch-up loops see of an entry. */
  function TimingOf(e: Entry): Timing {
    Timing(e.trigger, e.step, e.expire, TRIGGERED in e.flags, AlignmentOf(e))
  }

  /** An entry that may be armed. */
  predicate Loadable(cfg: Config, e: Entry) {
    && e.id != 0 && Sized(e) && e.subj != [] && e.outLen < OUTPUT_MAX && AUTHORIZED in e.flags && FINISH in e.flags
    && Permitted(cfg.lists, Account(e.uid, e.gid)) && Signed(cfg.sign, e)
  }

  predicate DistinctIds(es: seq<Entry>) {
    forall i, j :: 0 <= i < j < |es| ==> es[i].id != es[j].id
  }

  /** A loaded entry is active again at its settled trigger, if it has a run left. */
  ghost predicate Activated(e: Entry, now: int, off: int, pool: map<nat, Entry>) {
    exists t: nat ::
      && Resumes(TimingOf(e), now, off, t, e.id in pool)
      && (e.id in pool ==> pool[e.id] == e.(trigger := t, timer := pool[e.id].timer))
  }

  /** Everything the user asked for, and who asked. */
  predicate SameJob(a: Entry, b: Entry) {
    && a.id == b.id && a.uid == b.uid && a.gid == b.gid && a.username == b.username && a.subj == b.subj
    && a.step == b.step && a.expire == b.expire && a.createTime == b.createTime
    && (MONTHDAY_ALIGN in a.flags <==> MONTHDAY_ALIGN in b.flags)
    && (YEARDAY_ALIGN in a.flags <==> YEARDAY_ALIGN in b.flags)
  }

  /** Where the steps are counted from: the trigger, or below now if a run lies more than a step ahead. */
  ghost predicate CountsFrom(e: Entry, now: int, s: int) {
    if TRIGGERED in e.flags && now <= (e.trigger - e.step) % U32 then
      s < now <= s + e.step && Congruent(s, e.trigger, e.step)
    else s == e.trigger
  }

  ghost predicate FirstMonths(e: Entry, n: int, now: int, off: int, t: int, s: int, k: nat) {
    && CountsFrom(e, now, s) && t == Repeated(s, n, k, off) && (0 < k ==> Repeated(s, n, k - 1, off) <= now)
  }

  /** The first run of a recurring entry after now: in whole steps, by seconds or by the calendar. */
  ghost predicate FirstRun(e: Entry, now: int, off: int, t: int) {
    && now < t < U32
    && if MONTHDAY_ALIGN in e.flags then exists s, k: nat :: FirstMonths(e, e.step / MONTH_SECONDS, now, off, t, s, k)
       else if YEARDAY_ALIGN in e.flags then
         exists s, k: nat :: FirstMonths(e, 12 * (e.step / YEAR_SECONDS), now, off, t, s, k)
       else if TRIGGERED in e.flags || e.trigger <= now then t <= now + e.step && Congruent(t, e.trigger, e.step)
       else t == e.trigger
  }

  /** Whether an entry is active after a restart, with which job, and when it runs first. */
  ghost predicate Back(e: Entry, now: int, off: int, pool: map<nat, Entry>) {
    && (e.id in pool ==> SameJob(pool[e.id], e))
    && (e.step == 0 ==> (e.id in pool <==> now < e.trigger && (e.expire == 0 || e.trigger < e.expire)))
    && (e.step == 0 && e.id in pool ==> pool[e.id].trigger == e.trigger)
    && (e.step != 0 ==> exists t :: RunsAt(e, now, off, pool, t))
  }

  ghost predicate RunsAt(e: Entry, now: int, off: int, pool: map<nat, Entry>, t: int) {
    && FirstRun(e, now, off, t)
    && (e.id in pool <==> e.expire == 0 || t < e.expire) && (e.id in pool ==> pool[e.id].trigger == t)
  }

  lemma SettledFirst(e: Entry, now: int, off: int, t: int)
    requires Settled(TimingOf(e), now, off, t) && e.step != 0
    ensures FirstRun(e, now, off, t)
  {
    hide Repeated, Congruent;
    var m := TimingOf(e);
    if m.align != Plain {
      var s := if TooFarAhead(m, now) then Landing(m, now) else e.trigger;
      SameStep(m, s);
      LandsWhole(m, now);
      var k: nat :| t == Repeated(s, StepInMonths(m.(trigger := s)), k, off)
        && (0 < k ==> Repeated(s, StepInMonths(m.(trigger := s)), k - 1, off) <= now);
      assert FirstMonths(e, StepInMonths(m), now, off, t, s, k);
    }
  }

  lemma LandsWhole(m: Timing, now: int)
    requires 0 < m.step
    ensures Landing(m, now) < now <= Landing(m, now) + m.step && Congruent(Landing(m, now), m.trigger, m.step)
  {
    LandingBelow(m, now);
    var q := (m.trigger - now) / m.step;
    assert Landing(m, now) == m.trigger + (-1 - q) * m.step;
  }

  lemma ActivatedBack(e: Entry, now: int, off: int, pool: map<nat, Entry>)
    requires Activated(e, now, off, pool)
    ensures Back(e, now, off, pool)
  {
    hide Settled, FirstRun;
    var t: nat :| Resumes(TimingOf(e), now, off, t, e.id in pool)
      && (e.id in pool ==> pool[e.id] == e.(trigger := t, timer := pool[e.id].timer));
    if e.step != 0 {
      SettledFirst(e, now, off, t);
      assert RunsAt(e, now, off, pool, t);
    }
  }

  lemma PersistentBack(e: Entry, now: int, off: int, pool: map<nat, Entry>)
    requires Storable(e) && Back(Persistent(e), now, off, pool)
    ensures Back(e, now, off, pool)
  {
    hide Repeated, Congruent;
    var p := Persistent(e);
    if e.step != 0 {
      var t :| RunsAt(p, now, off, pool, t);
      forall n: int, s: int, k: nat | FirstMonths(p, n, now, off, t, s, k)
        ensures FirstMonths(e, n, now, off, t, s, k)
      {
      }
      assert RunsAt(e, now, off, pool, t);
    }
  }

  /** The activation loop of marshal_daemon_unserialize_pools() on the entries themselves. */
  method Activate(d: Scheduler, cfg: Config, es: seq<Entry>, now: nat)
    requires d.Value() == State(map[], map[], 1, []) && DistinctIds(es)
    requires forall i :: 0 <= i < |es| ==> Loadable(cfg, es[i]) && Manageable(TimingOf(es[i]), now)
    modifies d
    ensures Inv(cfg, d.Value())
    ensures forall i :: 0 <= i < |es| ==> Activated(es[i], now, cfg.off, d.apool) && Back(es[i], now, cfg.off, d.apool)
    ensures forall id :: id in d.apool ==> exists i :: 0 <= i < |es| && es[i].id == id
    ensures forall id :: id in d.apool ==>
              now < d.apool[id].trigger && (d.apool[id].expire != 0 ==> d.apool[id].trigger < d.apool[id].expire)
  {
    hide Inv, Settled, Manageable, Loadable, Sized, Activated, AlignmentOf, Back;
    EmptyInv(cfg);
    for n := 0 to |es|
      invariant Inv(cfg, d.Value())
      invariant forall i :: 0 <= i < n ==> Activated(es[i], now, cfg.off, d.apool)
      invariant forall id :: id in d.apool ==> exists i :: 0 <= i < n && es[i].id == id
      invariant forall id :: id in d.apool ==>
                  now < d.apool[id].trigger && (d.apool[id].expire != 0 ==> d.apool[id].trigger < d.apool[id].expire)
    {
      var e := es[n];
      var t := CatchUp(TimingOf(e), now, cfg.off);
      SettledRange(TimingOf(e), now, cfg.off, t);
      SettledPastNow(TimingOf(e), now, cfg.off, t);
      ghost var before := d.apool;
      var f := e.(trigger := t);
      if Over(TimingOf(f), now) {
        Dropped(e, now, cfg.off, t, d.apool);
      } else {
        ActivateKeeps(cfg, d.Value(), e, t);
        var tid := d.Arm(Timer(f.trigger, f.step, f.expire, f.id));
        f := f.(timer := tid);
        d.apool := d.apool[f.id := f];
        Kept(e, now, cfg.off, t, d.apool);
        forall i | 0 <= i < n ensures Activated(es[i], now, cfg.off, d.apool) {
          OthersActivated(es[i], now, cfg.off, before, d.apool);
        }
      }
    }
    forall i | 0 <= i < |es| ensures Back(es[i], now, cfg.off, d.apool) { ActivatedBack(es[i], now, cfg.off, d.apool); }
  }

  lemma SettledRange(e: Timing, now: int, off: int, t: int)
    requires Settled(e, now, off, t)
    ensures 0 <= t < U32
  {
  }

  lemma Dropped(e: Entry, now: int, off: int, t: nat, pool: map<nat, Entry>)
    requires Settled(TimingOf(e), now, off, t) && Over(TimingOf(e.(trigger := t)), now) && e.id !in pool
    ensures Activated(e, now, off, pool)
  {
    hide Settled, Over, Resumes;
    ResumesIff(TimingOf(e), now, off, t);
  }

  lemma Kept(e: Entry, now: int, off: int, t: nat, pool: map<nat, Entry>)
    requires Settled(TimingOf(e), now, off, t) && !Over(TimingOf(e.(trigger := t)), now)
    requires e.id in pool && pool[e.id] == e.(trigger := t, timer := pool[e.id].timer)
    ensures Activated(e, now, off, pool)
  {
    hide Settled, Over, Resumes;
    ResumesIff(TimingOf(e), now, off, t);
  }

  lemma OthersActivated(e: Entry, now: int, off: int, a: map<nat, Entry>, b: map<nat, Entry>)
    requires Activated(e, now, off, a) && (e.id in a <==> e.id in b) && (e.id in a ==> a[e.id] == b[e.id])
    ensures Activated(e, now, off, b)
  {
    hide Resumes;
  }

  lemma ActivateKeeps(cfg: Config, s: State, e: Entry, t: nat)
    requires Inv(cfg, s) && Loadable(cfg, e) && t < U32 && e.id !in s.apool
    ensures Inv(cfg, Armed(s, e.(trigger := t)))
  {
    hide Sized, Signed, Permitted, Proper, Timed;
    SizedTiming(e);
    SizedTrigger(e, t, e.step, e.expire);
    SignedFields(cfg.sign, e, e.(trigger := t));
    ArmedKeeps(cfg, s, e.(trigger := t));
  }

  // ---- Before and after ----

  /** The pool as the list that is written: every entry once. */
  ghost predicate Lists(es: seq<Entry>, pool: map<nat, Entry>) {
    && DistinctIds(es)
    && (forall i :: 0 <= i < |es| ==> es[i].id in pool && pool[es[i].id] == es[i])
    && (forall id :: id in pool ==> exists i :: 0 <= i < |es| && es[i].id == id)
  }

  lemma PersistentLoadable(cfg: Config, e: Entry)
    requires Loadable(cfg, e)
    ensures Storable(e) && Loadable(cfg, Persistent(e)) && Persistent(e).id == e.id
  {
    hide Permitted;
    SignedFields(cfg.sign, e, Persistent(e));
  }

  /** Some listed entry is read back as this one. */
  ghost predicate ReadFrom(es: seq<Entry>, k: Entry)
    requires forall e :: e in es ==> Storable(e)
  {
    exists e :: e in es && REMOVED !in e.flags && Persistent(e) == k
  }

  lemma {:induction false} KeptMembers(es: seq<Entry>, k: Entry)
    requires forall e :: e in es ==> Storable(e)
    ensures k in DiskCodec.Kept(es) <==> ReadFrom(es, k)
    decreases |es|
  {
    hide Persistent, Storable;
    if es != [] {
      KeptMembers(es[1..], k);
      assert es == [es[0]] + es[1..];
    }
  }

  lemma KeptLoadable(cfg: Config, es: seq<Entry>)
    requires DistinctIds(es) && forall e :: e in es ==> Loadable(cfg, e) && Storable(e)
    ensures var ks := DiskCodec.Kept(es);
            DistinctIds(ks) && forall i :: 0 <= i < |ks| ==> Loadable(cfg, ks[i])
  {
    hide Loadable, Persistent, Storable, DistinctIds;
    KeptDistinct(cfg, es);
    forall i | 0 <= i < |DiskCodec.Kept(es)| ensures Loadable(cfg, DiskCodec.Kept(es)[i]) {
      KeptMembers(es, DiskCodec.Kept(es)[i]);
      var e :| e in es && REMOVED !in e.flags && Persistent(e) == DiskCodec.Kept(es)[i];
      PersistentLoadable(cfg, e);
    }
  }

  lemma {:induction false} KeptDistinct(cfg: Config, es: seq<Entry>)
    requires DistinctIds(es) && forall e :: e in es ==> Loadable(cfg, e) && Storable(e)
    ensures DistinctIds(DiskCodec.Kept(es))
    decreases |es|
  {
    hide Loadable, Persistent, Storable, ReadFrom;
    if es != [] {
      var e, rest := es[0], es[1..];
      assert e in es && forall x :: x in rest ==> x in es;
      assert forall i :: 0 <= i < |rest| ==> rest[i] == es[i + 1];
      KeptDistinct(cfg, rest);
      PersistentLoadable(cfg, e);
      var ls := DiskCodec.Kept(rest);
      forall j | 0 <= j < |ls| ensures ls[j].id != e.id { IdFromRest(cfg, rest, ls[j], e.id); }
      if REMOVED !in e.flags { DistinctCons(Persistent(e), ls); }
    }
  }

  lemma DistinctCons(e: Entry, es: seq<Entry>)
    requires DistinctIds(es) && forall j :: 0 <= j < |es| ==> es[j].id != e.id
    ensures DistinctIds([e] + es)
  {
  }

  lemma IdFromRest(cfg: Config, es: seq<Entry>, k: Entry, id: nat)
    requires forall e :: e in es ==> Loadable(cfg, e) && Storable(e)
    requires k in DiskCodec.Kept(es) && forall i :: 0 <= i < |es| ==> es[i].id != id
    ensures k.id != id
  {
    hide Loadable, Persistent, Storable;
    KeptMembers(es, k);
    var e :| e in es && REMOVED !in e.flags && Persistent(e) == k;
    PersistentLoadable(cfg, e);
  }

  lemma InvLoadable(cfg: Config, s: State, es: seq<Entry>)
    requires Inv(cfg, s) && Lists(es, s.apool)
    ensures AllSigned(cfg.sign, es) && forall e :: e in es ==> Loadable(cfg, e) && Storable(e)
  {
    hide Sized, Signed, Permitted, Placed, Timed;
    forall e | e in es ensures Loadable(cfg, e) && Storable(e) {
      assert e.id in s.apool && s.apool[e.id] == e;
      assert Proper(cfg, s, e.id);
    }
  }

  /**
   * From a pool that holds the invariant, through a file that was not longer before, back to a pool that holds it:
   * every entry not marked removed is read back, and is active again if it has a run left.
   */
  method RestartDaemon(cfg: Config, ghost s: State, es: seq<Entry>, file: File, d: Scheduler, now: nat)
    requires Inv(cfg, s) && Lists(es, s.apool) && forall e :: e in es ==> Sized(e) && Storable(e)
    requires |file.data| <= |Records(es)|
    requires d.Value() == State(map[], map[], 1, [])
    requires forall e :: e in es ==> Manageable(TimingOf(Persistent(e)), now)
    modifies file, d
    ensures Inv(cfg, d.Value())
    ensures forall i :: 0 <= i < |es| && REMOVED !in es[i].flags ==>
              Activated(Persistent(es[i]), now, cfg.off, d.apool) && Back(es[i], now, cfg.off, d.apool)
    ensures forall id :: id in d.apool ==> id in s.apool
  {
    hide Inv, Records, LoadedAll, Loadable, Persistent, Storable, Manageable, Activated, Sized, Signed, AllSigned, Back;
    InvLoadable(cfg, s, es);
    SavedOverIff(cfg.sign, file.data, es);
    KeptLoadable(cfg, es);
    var marked := file.StoreAll(es);
    var loaded, failed := file.LoadAll(cfg.sign);
    var ks := loaded;
    assert ks == DiskCodec.Kept(es);
    forall i | 0 <= i < |ks| ensures Manageable(TimingOf(ks[i]), now) && ks[i].id in s.apool {
      KeptMembers(es, ks[i]);
      var e :| e in es && REMOVED !in e.flags && Persistent(e) == ks[i];
      PersistentLoadable(cfg, e);
    }
    Activate(d, cfg, ks, now);
    forall i | 0 <= i < |es| && REMOVED !in es[i].flags
      ensures Activated(Persistent(es[i]), now, cfg.off, d.apool) && Back(es[i], now, cfg.off, d.apool)
    {
      KeptMembers(es, Persistent(es[i]));
      assert Persistent(es[i]) in ks;
      PersistentBack(es[i], now, cfg.off, d.apool);
    }
  }
}
