/** What the executer is asked to run: every message, over every run of the pool. */
module Messages {
  import opened Auth
  import opened DiskCodec
  import opened Entries
  import opened Limits
  import opened Pool
  import opened PoolRuns
  import opened Templates
  import opened Vars
  import Bytes
  import G = GetReply
  import S = Stats

  /** A C string as text: its bytes up to the NUL. */
  lemma TextIs(s: seq<Bytes.byte>, rest: seq<Bytes.byte>, i: nat)
    requires 0 !in s
    ensures |Text(s + [0] + rest)| == |s| && (i < |s| ==> Text(s + [0] + rest)[i] == s[i] as char)
  {
    hide G.StrLen;
    S.StrLenEnds(s, rest);
  }

  /** The entry's command is this text with variables. */
  predicate Says(e: Entry, t: Template) {
    Separated(t) && Text(e.subj) == Print(t) && '@' !in Text(e.username)
  }

  /** The message is about this entry: its id, account and trigger, and its command with its own values filled in. */
  ghost predicate Carries(cfg: Config, m: Message, e: Entry) {
    && m.id == e.id && m.uid == e.uid && m.gid == e.gid && m.trigger == e.trigger
    && Permitted(cfg.lists, Account(m.uid, m.gid))
    && |m.command| + USE_HEADER + 1 <= cfg.msgSize
    && (forall t :: Says(e, t) ==>
          m.command == Fill(t, Values(e.id, Text(e.username), e.uid, e.gid, e.trigger, e.step, e.expire)))
  }

  /** The entry's time has come, within the tolerance, and it is valid. */
  predicate OnTime(cfg: Config, e: Entry, now: nat) {
    now < e.trigger + cfg.delta && e.trigger < now + cfg.delta && INVALID !in e.flags
  }

  predicate Due(cfg: Config, e: Entry, now: nat) {
    OnTime(cfg, e, now) && |Command(e)| + USE_HEADER + 1 <= cfg.msgSize
  }

  lemma CommandFills(e: Entry, t: Template)
    requires Says(e, t) && e.id < U64
    ensures Command(e) == Fill(t, Values(e.id, Text(e.username), e.uid, e.gid, e.trigger, e.step, e.expire))
  {
    hide Separated, Print, Fill, Expanded, Bindings, Text;
    ExpansionMeans(t, Values(e.id, Text(e.username), e.uid, e.gid, e.trigger, e.step, e.expire));
  }

  /** A fire sends one message exactly when the entry is due and the delivery succeeds, and it is about that entry. */
  lemma FireSendsIff(cfg: Config, s: State, tid: nat, now: nat, delivered: bool)
    requires Inv(cfg, s) && tid in s.timers && s.timers[tid].id in s.apool && now < U32
    ensures var e, r := s.apool[s.timers[tid].id], Fired(cfg, s, tid, now, delivered);
            if delivered && Due(cfg, e, now) then
              |r.sent| == |s.sent| + 1 && r.sent[..|s.sent|] == s.sent && Carries(cfg, r.sent[|s.sent|], e)
            else r.sent == s.sent
  {
    hide Inv, Fired, Text, Says, Expanded, Fill;
    var id := s.timers[tid].id;
    var e := s.apool[id];
    FiredSends(cfg, s, tid, now, delivered);
    ProperParts(cfg, s, id);
    assert Proper(cfg, s, id);
    RungSame(e);
    JudgeSends(cfg, e, now);
    forall t | Says(e, t)
      ensures Command(e) == Fill(t, Values(e.id, Text(e.username), e.uid, e.gid, e.trigger, e.step, e.expire))
    {
      CommandFills(e, t);
    }
  }

  lemma RungSame(e: Entry)
    ensures Command(Rung(e)) == Command(e) && MessageFor(Rung(e)) == MessageFor(e)
  {
  }

  lemma JudgeSends(cfg: Config, e: Entry, now: nat)
    requires now < U32 && e.trigger < U32 && AUTHORIZED in e.flags && Signed(cfg.sign, e)
    ensures Judge(cfg, Rung(e), now).Send? <==> Due(cfg, e, now)
    ensures Judge(cfg, Rung(e), now).Reject? <==> OnTime(cfg, e, now) && !Due(cfg, e, now)
    ensures !Judge(cfg, Rung(e), now).Discard? && (Judge(cfg, Rung(e), now).Ignore? ==> INVALID in e.flags)
  {
    hide Expanded, Text, Command;
    RungSame(e);
  }

  /** A fire makes a valid entry invalid exactly when it is on time and its expanded command is too long. */
  lemma FireInvalidatesIff(cfg: Config, s: State, tid: nat, now: nat, delivered: bool)
    requires Inv(cfg, s) && tid in s.timers && s.timers[tid].id in s.apool && now < U32
    requires INVALID !in s.apool[s.timers[tid].id].flags
    ensures var id, r := s.timers[tid].id, Fired(cfg, s, tid, now, delivered);
            id in r.apool && INVALID in r.apool[id].flags <==>
            OnTime(cfg, s.apool[id], now) && !Due(cfg, s.apool[id], now)
  {
    hide Inv, Command, NextAligned, Proper, Judge, Sized, Signed, Due, OnTime;
    var id := s.timers[tid].id;
    ProperParts(cfg, s, id);
    SizedTiming(s.apool[id]);
    JudgeSends(cfg, s.apool[id], now);
  }

  /** After a fire, an entry that stays is the same job: only its timing changes, and it is marked as triggered. */
  lemma FireKeepsJob(cfg: Config, s: State, tid: nat, now: nat, delivered: bool)
    requires Inv(cfg, s) && tid in s.timers && s.timers[tid].id in s.apool
    ensures var id, r := s.timers[tid].id, Fired(cfg, s, tid, now, delivered);
            id in r.apool ==>
              var a, b := s.apool[id], r.apool[id];
              && b.(trigger := a.trigger, step := a.step, expire := a.expire, timer := a.timer, flags := a.flags) == a
              && b.flags - {INVALID, SERIALIZED} == a.flags - {RELATIVE_TRIGGER, INVALID, SERIALIZED} + {TRIGGERED}
              && (INVALID in a.flags ==> INVALID in b.flags)
              && (SERIALIZED in b.flags <==> SERIALIZED in a.flags && (INVALID in b.flags ==> INVALID in a.flags))
  {
    hide Inv, Command, NextAligned, Late, TooLong, Signed, Proper;
    ProperParts(cfg, s, s.timers[tid].id);
  }

  /**
   * When the timer of a valid entry fires and its command is not too long, the entry stays exactly if it has a step
   * and the step ends before the expiry, if there is one.
   */
  lemma RunsAgainIff(cfg: Config, s: State, tid: nat, now: nat, delivered: bool)
    requires Inv(cfg, s) && tid in s.timers && s.timers[tid].id in s.apool && now < U32
    requires var e := s.apool[s.timers[tid].id]; INVALID !in e.flags && (OnTime(cfg, e, now) ==> Due(cfg, e, now))
    ensures var t := s.timers[tid];
            t.id in Fired(cfg, s, tid, now, delivered).apool <==>
            t.step != 0 && (t.expire == 0 || t.trigger + t.step < t.expire)
  {
    hide Inv, Fired, Judge, Due, OnTime, Sized;
    var id := s.timers[tid].id;
    ProperParts(cfg, s, id);
    SizedTiming(s.apool[id]);
    JudgeSends(cfg, s.apool[id], now);
    StaysIff(cfg, s, tid, now, delivered);
  }

  // ---- Over runs ----

  /** The i-th step of a run is the delivered fire of an entry that is due, and the message is about it. */
  ghost predicate SentAt(cfg: Config, s: State, ops: seq<Op>, i: nat, m: Message)
    requires i < |ops|
  {
    && ops[i].Fire? && ops[i].delivered
    && var t := Run(cfg, s, ops[..i]);
       && ops[i].timer in t.timers && t.timers[ops[i].timer].id in t.apool
       && var e := t.apool[t.timers[ops[i].timer].id];
          Carries(cfg, m, e) && Due(cfg, e, ops[i].at)
  }

  lemma StepSends(cfg: Config, s: State, op: Op)
    requires Inv(cfg, s) && (op.Fire? ==> op.at < U32)
    ensures var r := Step(cfg, s, op);
            || r.sent == s.sent
            || (|r.sent| == |s.sent| + 1 && r.sent[..|s.sent|] == s.sent && SentAt(cfg, s, [op], 0, r.sent[|s.sent|]))
  {
    hide Inv, Created, Fired, Noted, DeletedAll, Ready, Carries, Due;
    var r := Step(cfg, s, op);
    if Enabled(cfg, s, op) {
      match op {
        case New(e, id, now) => CreatedSent(cfg, s, e, id, now);
        case Del(ids, uid) => DeletedAllExact(cfg, s, ids, uid);
        case Report(_, _) =>
        case Fire(tid, now, delivered) =>
          FireSendsIff(cfg, s, tid, now, delivered);
          assert [op][..0] == [] && Run(cfg, s, []) == s;
      }
    }
  }

  /** Every message of a run was sent by a fire of its own entry, as the entry was then, when it was due. */
  lemma {:induction false} MessagesOfRun(cfg: Config, s: State, ops: seq<Op>, j: nat)
    requires Lawful(cfg) && Inv(cfg, s) && forall op :: op in ops && op.Fire? ==> op.at < U32
    requires |s.sent| <= j < |Run(cfg, s, ops).sent|
    ensures exists i :: 0 <= i < |ops| && SentAt(cfg, s, ops, i, Run(cfg, s, ops).sent[j])
    decreases |ops|
  {
    hide Inv, Lawful, Step, Carries, Due;
    var n := |ops| - 1;
    var t := Run(cfg, s, ops[..n]);
    var m := Run(cfg, s, ops).sent[j];
    RunKeeps(cfg, s, ops[..n]);
    assert ops[n] in ops;
    StepSends(cfg, t, ops[n]);
    if j < |t.sent| {
      MessagesOfRun(cfg, s, ops[..n], j);
      var i :| 0 <= i < n && SentAt(cfg, s, ops[..n], i, m);
      assert ops[..n][..i] == ops[..i];
      assert SentAt(cfg, s, ops, i, m);
    } else {
      assert [ops[n]][..0] == [] && Run(cfg, t, []) == t;
      assert SentAt(cfg, s, ops, n, m);
    }
  }
}
