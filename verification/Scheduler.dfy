/** The daemon's scheduling interface as it updates its pools in place. */
module Scheduler {
  import opened DiskCodec
  import opened Entries
  import opened Limits
  import opened Pool
  import opened Vars
  import opened Wrappers

  class Scheduler {
    var apool: map<nat, Entry>
    var timers: map<nat, Timer>
    var next: nat
    var sent: seq<Message>

    ghost function Value(): State
      reads this
    {
      State(apool, timers, next, sent)
    }

    constructor (ghost cfg: Config)
      ensures Value() == State(map[], map[], 1, []) && Inv(cfg, Value())
    {
      apool, timers, next, sent := map[], map[], 1, [];
      new;
      EmptyInv(cfg);
    }

    /** The timer library: a new record under an identifier not used before. */
    method Arm(t: Timer) returns (tid: nat)
      modifies `timers, `next
      ensures tid == old(next) && timers == old(timers)[tid := t] && next == old(next) + 1
    {
      tid := next;
      timers, next := timers[tid := t], next + 1;
    }

    /** schedule_entry_create(): hash until an id is free and non-zero, then sign, arm and insert. */
    method Create(cfg: Config, e: Entry, hash: nat -> nat, now: nat, ghost bound: nat)
      returns (id: nat, ghost tries: nat)
      requires Lawful(cfg) && Inv(cfg, Value()) && Ready(cfg, e) && now < U32
      requires hash(bound) != 0 && hash(bound) !in apool
      requires forall k: nat :: hash(k) < U64
      modifies this
      ensures id == hash(tries) && id != 0 && id !in old(apool)
      ensures forall k: nat :: k < tries ==> hash(k) == 0 || hash(k) in old(apool)
      ensures Value() == Created(cfg, old(Value()), e, id, now) && Inv(cfg, Value())
    {
      hide Inv, Lawful, Ready, Identified;
      var k: nat := 0;
      id := hash(0);
      while id in apool || id == 0
        invariant k <= bound && id == hash(k) && Value() == old(Value())
        invariant forall j: nat :: j < k ==> hash(j) == 0 || hash(j) in old(apool)
        decreases bound - k
      {
        k := k + 1;
        id := hash(k);
      }
      tries := k;
      CreatedKeeps(cfg, Value(), e, id, now);
      var n := Identified(cfg, e, id, now);
      IdentifiedTiming(cfg, e, id, now);
      var tid := Arm(Timer(n.trigger, n.step, n.expire, n.id));
      apool := apool[n.id := n.(timer := tid)];
    }

    /** The end of a request: its entry, already in the pool, is complete. */
    method Complete(ghost cfg: Config, id: nat)
      requires Inv(cfg, Value()) && id in apool
      modifies `apool
      ensures apool == old(apool)[id := Set(Unset(old(apool[id]), PROGRESS), COMPLETE)] && Inv(cfg, Value())
    {
      hide Inv, InvBut, Proper, Sized;
      var e := Set(Unset(apool[id], PROGRESS), COMPLETE);
      ProperParts(cfg, Value(), id);
      FlagsKeep(cfg, Value(), id, e.flags);
      apool := apool[id := e];
    }

    /** schedule_entry_ownership_delete_by_id(). */
    method OwnershipDelete(id: nat, uid: nat) returns (ok: bool)
      modifies `apool, `timers
      ensures ok == Deletable(old(Value()), id, uid)
      ensures Value() == if ok then Deleted(old(Value()), id) else old(Value())
    {
      if id !in apool { return false; }
      if FINISH !in apool[id].flags { return false; }
      if apool[id].uid != uid { return false; }
      if apool[id].timer == 0 { return false; }
      timers := timers - {apool[id].timer};
      apool := apool - {id};
      ok := true;
    }

    /** The loop of a DEL request over its id list; the answer lists what was deleted. */
    method DeleteList(ids: seq<nat>, uid: nat) returns (done: seq<nat>)
      modifies `apool, `timers
      ensures (Value(), done) == DeletedAll(old(Value()), ids, uid)
    {
      hide Deleted, Deletable;
      done := [];
      for i := 0 to |ids|
        invariant (Value(), done) == DeletedAll(old(Value()), ids[..i], uid)
      {
        assert ids[..i + 1][..i] == ids[..i];
        var ok := OwnershipDelete(ids[i], uid);
        if ok { done := done + [ids[i]]; }
      }
      assert ids[..|ids|] == ids;
    }

    /** schedule_entry_update(): whether the timer is still there, and the entry brought in line with it. */
    method Update(cfg: Config, id: nat) returns (found: bool)
      requires id in apool && apool[id].id == id
      modifies `apool, `timers, `next
      ensures found == (old(apool[id].timer) in old(timers))
      ensures Value() == if found then Updated(cfg, old(Value()), id) else old(Value())
    {
      hide NextAligned;
      var e := apool[id];
      if e.timer !in timers { return false; }
      var t := timers[e.timer];
      if IsAligned(e) {
        timers := timers - {e.timer};
        e := e.(trigger := NextAligned(e, cfg.off));
        var tid := Arm(Timer(e.trigger, e.step, e.expire, id));
        e := e.(timer := tid);
      } else {
        e := e.(trigger := t.trigger % U32, step := t.step, expire := t.expire);
      }
      apool := apool[id := e];
      found := true;
    }

    /** The library's part of a fire, before the callback runs. */
    method Tick(tid: nat)
      requires tid in timers
      modifies `timers
      ensures var next := Advance(old(timers[tid]));
              timers == if next.None? then old(timers) - {tid} else old(timers)[tid := next.value]
    {
      var next := Advance(timers[tid]);
      timers := if next.None? then timers - {tid} else timers[tid := next.value];
    }

    /** Up to the delivery of the command: whether the entry's timing is to be updated. */
    method Deliver(cfg: Config, id: nat, now: nat, delivered: bool) returns (proceed: bool)
      requires id in apool && AUTHORIZED in apool[id].flags && Signed(cfg.sign, apool[id])
      modifies `apool, `sent
      ensures var e, v := old(apool[id]), Judge(cfg, old(apool[id]), now);
              && proceed == (v == Skip || v == Send)
              && apool == (if v == Reject then old(apool)[id := Rejected(e)] else old(apool))
              && sent == (if v == Send && delivered then old(sent) + [MessageFor(e)] else old(sent))
    {
      hide Late, Signed, TooLong, Command;
      var e := apool[id];
      if Late(cfg, e, now) { return true; }
      if AUTHORIZED !in e.flags { assert false; }
      if INVALID in e.flags { return false; }
      if !Signed(cfg.sign, e) { assert false; }
      var expanded := ReplaceAllVars(Text(e.subj), ValuesOf(e));
      var command := if expanded.Some? then expanded.value else Text(e.subj);
      CommandIs(e);
      TooLongIs(cfg, e);
      if |command| + USE_HEADER + 1 > cfg.msgSize {
        e := Set(e, INVALID);
        e := Unset(e, SERIALIZED);
        apool := apool[id := e];
        return false;
      }
      if delivered { sent := sent + [Message(e.id, e.uid, e.gid, e.trigger, command)]; }
      proceed := true;
    }

    /** entry_daemon_exec_dispatch(), called by the library for one of its timers. */
    method Dispatch(cfg: Config, tid: nat, now: nat, delivered: bool)
      requires Inv(cfg, Value()) && tid in timers
      modifies this
      ensures Placed(old(Value()), tid)
      ensures Value() == Fired(cfg, old(Value()), tid, now, delivered) && Inv(cfg, Value())
    {
      hide Inv, InvBut, Updated, Judge, Sized, Signed, Advance, Proper, MessageFor, Rejected;
      FiredKeeps(cfg, Value(), tid, now, delivered);
      TickedKeeps(cfg, Value(), tid);
      ghost var u := Ticked(Value(), tid);
      var id := timers[tid].id;
      Tick(tid);
      var e := Set(Unset(apool[id], RELATIVE_TRIGGER), TRIGGERED);
      apool := apool[id := e];
      assert Value() == u;
      ProperButParts(cfg, u, id);
      var proceed := Deliver(cfg, id, now, delivered);
      if proceed {
        UpdatedIgnoresSent(cfg, u, id, sent);
        var found := Update(cfg, id);
        if !found { apool := apool - {id}; }
      }
    }

    /** _stat_daemon_process() on a message that passed its length check. */
    method Report(cfg: Config, id: nat, r: Result) returns (ok: bool)
      requires Inv(cfg, Value()) && Sane(r)
      modifies `apool
      ensures ok == (id in old(apool)) && Inv(cfg, Value())
      ensures ok ==> |old(apool[id].outdata)| == OUTPUT_MAX && apool == old(apool)[id := Noted(old(apool[id]), r)]
      ensures !ok ==> apool == old(apool)
    {
      hide Inv, Signed, Proper;
      if id !in apool { return false; }
      NotedKeeps(cfg, Value(), id, r);
      var e := apool[id];
      var len := |r.output|;
      if len >= OUTPUT_MAX { len := OUTPUT_MAX - 1; }
      e := e.(pid := r.pid, status := r.status, execTime := r.execTime, latency := r.latency, outLen := len);
      e := e.(outdata := r.output[..len] + e.outdata[len..]);
      e := e.(outdata := e.outdata[len := 0]);
      assert e.outdata == r.output[..len] + [0] + apool[id].outdata[len + 1..];
      assert r.output[..len] == Clipped(r.output);
      apool := apool[id := e];
      ok := true;
    }
  }

  lemma IdentifiedTiming(cfg: Config, e: Entry, id: nat, now: nat)
    ensures Identified(cfg, e, id, now).id == id
  {
  }

  lemma CommandIs(e: Entry)
    ensures Command(e) == Expanded(Text(e.subj), Bindings(ValuesOf(e)))
  {
  }

  lemma TooLongIs(cfg: Config, e: Entry)
    ensures TooLong(cfg, e) <==> |Command(e)| + USE_HEADER + 1 > cfg.msgSize
  {
  }

  lemma UpdatedIgnoresSent(cfg: Config, s: State, id: nat, sent: seq<Message>)
    requires id in s.apool
    ensures Updated(cfg, s.(sent := sent), id) == Updated(cfg, s, id).(sent := sent)
    ensures s.apool[id].timer !in s.timers ==> Updated(cfg, s, id) == s.(apool := s.apool - {id})
    ensures Updated(cfg, s, id).sent == s.sent
  {
  }
}
