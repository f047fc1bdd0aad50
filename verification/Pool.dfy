/**
 * The active pool and the timer library: creating, deleting and dispatching entries.
 * The daemon is a class whose methods refine functions on the values of its pools; what every run keeps is
 * proved about those functions.
 */
module Pool {
  import opened Auth
  import opened AlignedStep
  import opened DiskCodec
  import opened Entries
  import opened Limits
  import opened Vars
  import opened Wrappers
  import G = GetReply
  import Bytes

  /** A record of the timer library. Identifiers are positive and never used twice. */
  datatype Timer = Timer(trigger: nat, step: nat, expire: nat, id: nat)

  /** What the executer is asked to run. */
  datatype Message = Message(id: nat, uid: nat, gid: nat, trigger: nat, command: string)

  /** The daemon's configuration, its digest, and the number of bytes its cipher adds. */
  datatype Config = Config(off: int, msgSize: nat, delta: nat, lists: Lists, sign: Signer, extra: nat)

  datatype State = State(apool: map<nat, Entry>, timers: map<nat, Timer>, next: nat, sent: seq<Message>)

  const USE_HEADER := 24

  /** Digests have a fixed size. */
  ghost predicate Lawful(cfg: Config) {
    forall i: nat, u: nat, g: nat, s: seq<Bytes.byte>, c: nat :: |cfg.sign(i, u, g, s, c)| == SIGNATURE_SIZE
  }

  /** The library's contract for a fire: advance by the step, or drop a record without one or past its expiry. */
  function Advance(t: Timer): Option<Timer> {
    if t.step == 0 || (t.expire != 0 && t.trigger + t.step >= t.expire) then None
    else Some(t.(trigger := t.trigger + t.step))
  }

  /** A C string as text. */
  function Text(s: seq<Bytes.byte>): string {
    seq(G.StrLen(s), i requires 0 <= i < G.StrLen(s) => s[i] as char)
  }

  function ValuesOf(e: Entry): Values {
    Values(e.id, Text(e.username), e.uid, e.gid, e.trigger, e.step, e.expire)
  }

  function Command(e: Entry): string {
    Expanded(Text(e.subj), Bindings(ValuesOf(e)))
  }

  predicate TooLong(cfg: Config, e: Entry) {
    |Command(e)| + USE_HEADER + 1 > cfg.msgSize
  }

  predicate Late(cfg: Config, e: Entry, now: nat) {
    (if now < e.trigger then e.trigger - now else now - e.trigger) % U32 >= cfg.delta
  }

  // ---- Operations on values ----

  /** Arm a timer for an entry and keep the entry under its id. */
  function Armed(s: State, e: Entry): State {
    State(s.apool[e.id := e.(timer := s.next)],
          s.timers[s.next := Timer(e.trigger, e.step, e.expire, e.id)], s.next + 1, s.sent)
  }

  function Identified(cfg: Config, e: Entry, id: nat, now: nat): Entry {
    e.(id := id, createTime := now, signature := cfg.sign(id, e.uid, e.gid, e.subj, now))
  }

  function Created(cfg: Config, s: State, e: Entry, id: nat, now: nat): State {
    Armed(s, Identified(cfg, e, id, now))
  }

  predicate Deletable(s: State, id: nat, uid: nat) {
    id in s.apool && FINISH in s.apool[id].flags && s.apool[id].uid == uid && s.apool[id].timer != 0
  }

  function Deleted(s: State, id: nat): State
    requires id in s.apool
  {
    s.(apool := s.apool - {id}, timers := s.timers - {s.apool[id].timer})
  }

  function DeletedAll(s: State, ids: seq<nat>, uid: nat): (r: (State, seq<nat>)) {
    if ids == [] then (s, [])
    else
      var n := |ids| - 1;
      var (t, done) := DeletedAll(s, ids[..n], uid);
      if Deletable(t, ids[n], uid) then (Deleted(t, ids[n]), done + [ids[n]]) else (t, done)
  }

  function Rung(e: Entry): Entry {
    Set(Unset(e, RELATIVE_TRIGGER), TRIGGERED)
  }

  function Rejected(e: Entry): Entry {
    Unset(Set(e, INVALID), SERIALIZED)
  }

  datatype Verdict = Skip | Discard | Ignore | Reject | Send

  function Judge(cfg: Config, e: Entry, now: nat): Verdict {
    if Late(cfg, e, now) then Skip
    else if AUTHORIZED !in e.flags then Discard
    else if INVALID in e.flags then Ignore
    else if !Signed(cfg.sign, e) || TooLong(cfg, e) then Reject
    else Send
  }

  /** The library's side of a fire, and the flags the callback sets first. */
  function Ticked(s: State, tid: nat): State
    requires tid in s.timers && s.timers[tid].id in s.apool
  {
    var t := s.timers[tid];
    s.(apool := s.apool[t.id := Rung(s.apool[t.id])],
       timers := match Advance(t) case None => s.timers - {tid} case Some(u) => s.timers[tid := u])
  }

  predicate IsAligned(e: Entry) {
    MONTHDAY_ALIGN in e.flags || YEARDAY_ALIGN in e.flags
  }

  function NextAligned(e: Entry, off: int): (t: int)
    ensures 0 <= t < U32
  {
    if MONTHDAY_ALIGN in e.flags then StepMonths(e.trigger, e.step, off) else StepYears(e.trigger, e.step, off)
  }

  /** schedule_entry_update(), and the removal of an entry whose timer is gone. */
  function Updated(cfg: Config, s: State, id: nat): State
    requires id in s.apool
  {
    var e := s.apool[id];
    if e.timer !in s.timers then s.(apool := s.apool - {id})
    else if IsAligned(e) then
      Armed(s.(timers := s.timers - {e.timer}), e.(id := id, trigger := NextAligned(e, cfg.off)))
    else
      var t := s.timers[e.timer];
      s.(apool := s.apool[id := e.(trigger := t.trigger % U32, step := t.step, expire := t.expire)])
  }

  function MessageFor(e: Entry): Message {
    Message(e.id, e.uid, e.gid, e.trigger, Command(e))
  }

  /** A fire of the library and the whole callback. */
  function Fired(cfg: Config, s: State, tid: nat, now: nat, delivered: bool): State
    requires tid in s.timers && s.timers[tid].id in s.apool
  {
    var id := s.timers[tid].id;
    var u := Ticked(s, tid);
    var e := u.apool[id];
    match Judge(cfg, e, now)
    case Skip => Updated(cfg, u, id)
    case Discard => u.(apool := u.apool - {id})
    case Ignore => u
    case Reject => u.(apool := u.apool[id := Rejected(e)])
    case Send => var v := Updated(cfg, u, id); if delivered then v.(sent := v.sent + [MessageFor(e)]) else v
  }

  /** The result of an execution, as the statistics service reports it. */
  datatype Result = Result(pid: nat, status: nat, execTime: nat, latency: nat, output: seq<Bytes.byte>)

  /** Only what fits is kept, and it ends in a NUL. */
  function Clipped(out: seq<Bytes.byte>): seq<Bytes.byte> {
    if |out| < OUTPUT_MAX then out else out[..OUTPUT_MAX - 1]
  }

  function Noted(e: Entry, r: Result): Entry
    requires |e.outdata| == OUTPUT_MAX
  {
    var k := Clipped(r.output);
    e.(pid := r.pid, status := r.status, execTime := r.execTime, latency := r.latency,
       outLen := |k|, outdata := k + [0] + e.outdata[|k| + 1..])
  }

  // ---- What every run keeps ----

  predicate Agree(e: Entry, t: Timer) {
    t.id == e.id && t.trigger % U32 == e.trigger && t.step == e.step && t.expire == e.expire
  }

  /** An entry of the active pool. */
  predicate Proper(cfg: Config, s: State, id: nat)
    requires id in s.apool
  {
    var e := s.apool[id];
    && e.id == id && id != 0 && Sized(e) && e.subj != []
    && AUTHORIZED in e.flags && FINISH in e.flags
    && Permitted(cfg.lists, Account(e.uid, e.gid)) && Signed(cfg.sign, e)
    && e.outLen < OUTPUT_MAX
    && 0 < e.timer < s.next && (e.timer in s.timers ==> s.timers[e.timer].id == id)
  }

  /** A valid entry has its timer, and the timer agrees with it. */
  predicate Timed(s: State, id: nat)
    requires id in s.apool
  {
    var e := s.apool[id];
    INVALID !in e.flags ==> e.timer in s.timers && Agree(e, s.timers[e.timer])
  }

  /** A timer belongs to an entry that knows it. */
  predicate Placed(s: State, tid: nat)
    requires tid in s.timers
  {
    var t := s.timers[tid];
    && 0 < tid < s.next && t.step < U32 && t.expire < U32
    && t.id in s.apool && s.apool[t.id].timer == tid
  }

  ghost predicate Inv(cfg: Config, s: State) {
    && s.next > 0
    && (forall id :: id in s.apool ==> Proper(cfg, s, id))
    && (forall id :: id in s.apool ==> Timed(s, id))
    && (forall tid :: tid in s.timers ==> Placed(s, tid))
  }

  /** A valid active entry has exactly one armed timer, with its trigger, step and expiry. */
  lemma ExactlyOneTimer(cfg: Config, s: State, id: nat, tid: nat)
    requires Inv(cfg, s) && id in s.apool && INVALID !in s.apool[id].flags && tid in s.timers
    ensures s.timers[tid].id == id <==> tid == s.apool[id].timer
    ensures tid == s.apool[id].timer ==> Agree(s.apool[id], s.timers[tid])
  {
  }

  /** A request that may enter the active pool. */
  predicate Ready(cfg: Config, e: Entry) {
    && Sized(e) && e.subj != [] && AUTHORIZED in e.flags && FINISH in e.flags && INVALID !in e.flags
    && Permitted(cfg.lists, Account(e.uid, e.gid)) && e.outLen < OUTPUT_MAX
  }

  lemma IdentifiedProper(cfg: Config, e: Entry, id: nat, now: nat)
    requires Lawful(cfg) && Ready(cfg, e) && 0 < id < U64 && now < U32
    ensures var r := Identified(cfg, e, id, now);
            r.id == id && Sized(r) && Ready(cfg, r) && Signed(cfg.sign, r)
  {
  }

  /** Arming a timer for an entry that has none left keeps the invariant. */
  lemma ArmedKeeps(cfg: Config, s: State, e: Entry)
    requires s.next > 0
    requires forall id :: id in s.apool && id != e.id ==> Proper(cfg, s, id) && Timed(s, id)
    requires forall tid :: tid in s.timers ==> Placed(s, tid) && s.timers[tid].id != e.id
    requires e.id != 0 && Sized(e) && e.subj != [] && AUTHORIZED in e.flags && FINISH in e.flags
    requires Permitted(cfg.lists, Account(e.uid, e.gid)) && Signed(cfg.sign, e) && e.outLen < OUTPUT_MAX
    ensures Inv(cfg, Armed(s, e))
  {
    hide Permitted, Sized, Signed;
    var r := Armed(s, e);
    var n := e.(timer := s.next);
    assert Sized(n) by { SizedTimer(e, s.next); }
    assert Signed(cfg.sign, n) by { SignedFields(cfg.sign, e, n); }
    SizedTiming(e);
    forall id | id in r.apool ensures Proper(cfg, r, id) && Timed(r, id) {
      if id != e.id { assert Proper(cfg, s, id) && Timed(s, id); }
    }
    forall tid | tid in r.timers ensures Placed(r, tid) {
      if tid != s.next { assert Placed(s, tid); }
    }
  }

  lemma SizedTimer(e: Entry, t: nat)
    requires Sized(e)
    ensures Sized(e.(timer := t))
  {
  }

  lemma SizedTiming(e: Entry)
    requires Sized(e)
    ensures e.trigger < U32 && e.step < U32 && e.expire < U32 && e.trigger % U32 == e.trigger
  {
  }

  lemma SignedFields(sign: Signer, e: Entry, n: Entry)
    requires Signed(sign, e)
    requires n.id == e.id && n.uid == e.uid && n.gid == e.gid && n.subj == e.subj
    requires n.createTime == e.createTime && n.signature == e.signature
    ensures Signed(sign, n)
  {
  }

  lemma CreatedKeeps(cfg: Config, s: State, e: Entry, id: nat, now: nat)
    requires Lawful(cfg) && Inv(cfg, s) && Ready(cfg, e) && 0 < id < U64 && now < U32 && id !in s.apool
    ensures Inv(cfg, Created(cfg, s, e, id, now))
  {
    hide Permitted, Sized, Signed, Proper, Timed, Identified;
    IdentifiedProper(cfg, e, id, now);
    forall tid | tid in s.timers ensures Placed(s, tid) && s.timers[tid].id != id {}
    ArmedKeeps(cfg, s, Identified(cfg, e, id, now));
  }

  lemma DeletedKeeps(cfg: Config, s: State, id: nat)
    requires Inv(cfg, s) && id in s.apool
    ensures Inv(cfg, Deleted(s, id))
  {
    hide Permitted, Sized, Signed, Agree;
    var r := Deleted(s, id);
    forall j | j in r.apool ensures Proper(cfg, r, j) && Timed(r, j) {
      assert Proper(cfg, s, j) && Timed(s, j);
      assert Proper(cfg, s, id);
    }
    forall tid | tid in r.timers ensures Placed(r, tid) { assert Placed(s, tid); }
  }

  /** The invariant, but for the timing of one entry. */
  ghost predicate InvBut(cfg: Config, s: State, id: nat) {
    && s.next > 0
    && (forall j :: j in s.apool ==> Proper(cfg, s, j))
    && (forall j :: j in s.apool && j != id ==> Timed(s, j))
    && (forall tid :: tid in s.timers ==> Placed(s, tid))
  }

  lemma InvButTimed(cfg: Config, s: State, id: nat)
    requires InvBut(cfg, s, id) && (id in s.apool ==> Timed(s, id))
    ensures Inv(cfg, s)
  {
  }

  /** Fields that the invariant does not look at, and flags above the ones it needs. */
  predicate Akin(a: Entry, b: Entry) {
    && a.id == b.id && a.uid == b.uid && a.gid == b.gid && a.subj == b.subj && a.createTime == b.createTime
    && a.signature == b.signature && a.timer == b.timer
    && (AUTHORIZED in b.flags ==> AUTHORIZED in a.flags) && (FINISH in b.flags ==> FINISH in a.flags)
  }

  /** Replacing an entry by one akin to it. */
  lemma ReplacedKeeps(cfg: Config, s: State, id: nat, e: Entry)
    requires InvBut(cfg, s, id) && id in s.apool && Akin(e, s.apool[id]) && Sized(e) && e.outLen < OUTPUT_MAX
    ensures InvBut(cfg, s.(apool := s.apool[id := e]), id)
  {
    hide Permitted, Sized, Signed, Agree;
    var r := s.(apool := s.apool[id := e]);
    assert Proper(cfg, s, id);
    SignedFields(cfg.sign, s.apool[id], e);
    forall j | j in r.apool ensures Proper(cfg, r, j) { assert Proper(cfg, s, j); }
    forall j | j in r.apool && j != id ensures Timed(r, j) { assert Timed(s, j); }
    forall tid | tid in r.timers ensures Placed(r, tid) { assert Placed(s, tid); }
  }

  lemma SizedFlags(e: Entry, flags: Flags)
    requires Sized(e)
    ensures Sized(e.(flags := flags))
  {
  }

  lemma InvIsInvBut(cfg: Config, s: State, id: nat)
    requires Inv(cfg, s)
    ensures InvBut(cfg, s, id)
  {
  }

  /** The library moves or drops one timer. */
  lemma TimerMoves(cfg: Config, s: State, tid: nat, next: Option<Timer>)
    requires tid in s.timers && InvBut(cfg, s, s.timers[tid].id)
    requires next.Some? ==> next.value.id == s.timers[tid].id && next.value.step < U32 && next.value.expire < U32
    ensures var timers := if next.None? then s.timers - {tid} else s.timers[tid := next.value];
            InvBut(cfg, s.(timers := timers), s.timers[tid].id)
  {
    hide Permitted, Sized, Signed, Agree;
    var id := s.timers[tid].id;
    var r := s.(timers := if next.None? then s.timers - {tid} else s.timers[tid := next.value]);
    assert Placed(s, tid);
    forall j | j in r.apool ensures Proper(cfg, r, j) { assert Proper(cfg, s, j); }
    forall j | j in r.apool && j != id ensures Timed(r, j) { assert Timed(s, j) && Proper(cfg, s, j); }
    forall k | k in r.timers ensures Placed(r, k) { assert Placed(s, k); }
  }

  lemma TickedKeeps(cfg: Config, s: State, tid: nat)
    requires Inv(cfg, s) && tid in s.timers
    ensures Placed(s, tid)
    ensures var id, u := s.timers[tid].id, Ticked(s, tid);
            && id in u.apool && InvBut(cfg, u, id) && u.next == s.next
            && u.apool[id] == Rung(s.apool[id]) && u.apool[id].timer == tid
  {
    hide Proper, Timed, Agree, Sized, Inv, InvBut;
    PlacedIn(cfg, s, tid);
    var t := s.timers[tid];
    var e := Rung(s.apool[t.id]);
    ProperParts(cfg, s, t.id);
    SizedFlags(s.apool[t.id], e.flags);
    InvIsInvBut(cfg, s, t.id);
    ReplacedKeeps(cfg, s, t.id, e);
    TimerMoves(cfg, s.(apool := s.apool[t.id := e]), tid, Advance(t));
  }

  lemma PlacedIn(cfg: Config, s: State, tid: nat)
    requires Inv(cfg, s) && tid in s.timers
    ensures Placed(s, tid)
  {
  }

  lemma ProperParts(cfg: Config, s: State, id: nat)
    requires Inv(cfg, s) && id in s.apool
    ensures Proper(cfg, s, id) && Timed(s, id) && s.apool[id].id == id
    ensures Sized(s.apool[id]) && s.apool[id].outLen < OUTPUT_MAX
    ensures Signed(cfg.sign, s.apool[id]) && AUTHORIZED in s.apool[id].flags && s.apool[id].timer > 0
    ensures s.apool[id].subj != []
    ensures FINISH in s.apool[id].flags
  {
  }

  lemma ProperButParts(cfg: Config, s: State, id: nat)
    requires InvBut(cfg, s, id) && id in s.apool
    ensures Proper(cfg, s, id) && s.apool[id].id == id && id != 0
    ensures Sized(s.apool[id]) && s.apool[id].outLen < OUTPUT_MAX
    ensures Signed(cfg.sign, s.apool[id]) && AUTHORIZED in s.apool[id].flags && FINISH in s.apool[id].flags
    ensures s.apool[id].subj != []
    ensures Permitted(cfg.lists, Account(s.apool[id].uid, s.apool[id].gid))
  {
  }

  lemma DropKeeps(cfg: Config, s: State, id: nat)
    requires InvBut(cfg, s, id) && id in s.apool && s.apool[id].timer !in s.timers
    ensures Inv(cfg, s.(apool := s.apool - {id}))
  {
    hide Permitted, Sized, Signed, Agree;
    var r := s.(apool := s.apool - {id});
    forall j | j in r.apool ensures Proper(cfg, r, j) && Timed(r, j) { assert Proper(cfg, s, j) && Timed(s, j); }
    forall tid | tid in r.timers ensures Placed(r, tid) { assert Placed(s, tid); }
  }

  lemma RearmKeeps(cfg: Config, s: State, id: nat, e: Entry)
    requires InvBut(cfg, s, id) && id in s.apool && Akin(e, s.apool[id]) && Sized(e) && e.outLen < OUTPUT_MAX
    ensures Inv(cfg, Armed(s.(timers := s.timers - {s.apool[id].timer}), e))
  {
    hide Permitted, Sized, Signed, Agree;
    ProperButParts(cfg, s, id);
    SignedFields(cfg.sign, s.apool[id], e);
    var r := s.(timers := s.timers - {s.apool[id].timer});
    forall j | j in r.apool && j != e.id ensures Proper(cfg, r, j) && Timed(r, j) {
      assert Proper(cfg, s, j) && Timed(s, j);
    }
    forall tid | tid in r.timers ensures Placed(r, tid) && r.timers[tid].id != e.id { assert Placed(s, tid); }
    ArmedKeeps(cfg, r, e);
  }

  lemma UpdatedKeeps(cfg: Config, s: State, id: nat)
    requires InvBut(cfg, s, id) && id in s.apool
    ensures Inv(cfg, Updated(cfg, s, id))
  {
    hide Sized, Signed, Inv, InvBut, Proper, Timed, NextAligned, Placed;
    ProperButParts(cfg, s, id);
    var e := s.apool[id];
    if e.timer !in s.timers {
      DropKeeps(cfg, s, id);
    } else if IsAligned(e) {
      var n := e.(trigger := NextAligned(e, cfg.off));
      SizedTiming(e);
      SizedTrigger(e, n.trigger, e.step, e.expire);
      RearmKeeps(cfg, s, id, n);
    } else {
      var t := s.timers[e.timer];
      PlacedBut(cfg, s, id, e.timer);
      var n := e.(trigger := t.trigger % U32, step := t.step, expire := t.expire);
      SizedTrigger(e, n.trigger, n.step, n.expire);
      ReplacedKeeps(cfg, s, id, n);
      var r := s.(apool := s.apool[id := n]);
      TimedNow(r, id);
      InvButTimed(cfg, r, id);
    }
  }

  lemma TimedNow(s: State, id: nat)
    requires id in s.apool && s.apool[id].timer in s.timers && Agree(s.apool[id], s.timers[s.apool[id].timer])
    ensures Timed(s, id)
  {
  }

  lemma TimedInvalid(s: State, id: nat)
    requires id in s.apool && INVALID in s.apool[id].flags
    ensures Timed(s, id)
  {
  }

  lemma PlacedBut(cfg: Config, s: State, id: nat, tid: nat)
    requires InvBut(cfg, s, id) && tid in s.timers && id in s.apool && tid == s.apool[id].timer
    ensures s.timers[tid].step < U32 && s.timers[tid].expire < U32 && s.timers[tid].id == id
  {
  }

  lemma SizedTrigger(e: Entry, trigger: nat, step: nat, expire: nat)
    requires Sized(e) && trigger < U32 && step < U32 && expire < U32
    ensures Sized(e.(trigger := trigger, step := step, expire := expire))
  {
  }

  lemma SentKeeps(cfg: Config, s: State, sent: seq<Message>)
    requires Inv(cfg, s)
    ensures Inv(cfg, s.(sent := sent))
  {
    hide Permitted, Sized, Signed, Agree;
    var r := s.(sent := sent);
    forall j | j in r.apool ensures Proper(cfg, r, j) && Timed(r, j) { assert Proper(cfg, s, j) && Timed(s, j); }
    forall tid | tid in r.timers ensures Placed(r, tid) { assert Placed(s, tid); }
  }

  /** In a dispatch the entry is authorized and its signature holds: those two guards never fire. */
  lemma FiredKeeps(cfg: Config, s: State, tid: nat, now: nat, delivered: bool)
    requires Inv(cfg, s) && tid in s.timers
    ensures Placed(s, tid)
    ensures Inv(cfg, Fired(cfg, s, tid, now, delivered))
    ensures !Judge(cfg, Rung(s.apool[s.timers[tid].id]), now).Discard?
  {
    hide Sized, Signed, Inv, InvBut, Proper, Timed, Updated, TooLong, Late, Ticked;
    TickedKeeps(cfg, s, tid);
    var id, u := s.timers[tid].id, Ticked(s, tid);
    ProperButParts(cfg, u, id);
    var e := u.apool[id];
    match Judge(cfg, e, now) {
      case Skip => UpdatedKeeps(cfg, u, id);
      case Discard => assert false;
      case Ignore =>
        TimedInvalid(u, id);
        InvButTimed(cfg, u, id);
      case Reject =>
        SizedFlags(e, Rejected(e).flags);
        ReplacedKeeps(cfg, u, id, Rejected(e));
        var r := u.(apool := u.apool[id := Rejected(e)]);
        TimedInvalid(r, id);
        InvButTimed(cfg, r, id);
      case Send =>
        UpdatedKeeps(cfg, u, id);
        var v := Updated(cfg, u, id);
        SentKeeps(cfg, v, v.sent + [MessageFor(e)]);
    }
  }

  // ---- Deleting a list of ids ----

  predicate Owns(s: State, uid: nat, id: nat) {
    id in s.apool && s.apool[id].uid == uid
  }

  /** The listed ids that the user owns, each where it is first listed. */
  function FirstOwned(s: State, ids: seq<nat>, uid: nat): (r: seq<nat>)
    ensures forall x :: x in r <==> x in ids && Owns(s, uid, x)
  {
    if ids == [] then []
    else
      var n := |ids| - 1;
      assert ids == ids[..n] + [ids[n]];
      FirstOwned(s, ids[..n], uid) + if Owns(s, uid, ids[n]) && ids[n] !in ids[..n] then [ids[n]] else []
  }

  /** The timers of a set of entries. */
  ghost function TimersOf(s: State, gone: set<nat>): set<nat>
    requires gone <= s.apool.Keys
  {
    set id | id in gone :: s.apool[id].timer
  }

  ghost function ToSet(ids: seq<nat>): set<nat> {
    set x | x in ids
  }

  /** What is left when a set of entries goes. */
  ghost function Without(s: State, gone: set<nat>): State
    requires gone <= s.apool.Keys
  {
    s.(apool := s.apool - gone, timers := s.timers - TimersOf(s, gone))
  }

  /**
   * A deletion removes exactly the listed entries that the user owns, with their timers, and reports each of
   * them once, in the order of the request. Repeated, unknown and foreign ids change nothing.
   */
  lemma {:induction false} DeletedAllExact(cfg: Config, s: State, ids: seq<nat>, uid: nat)
    requires Inv(cfg, s)
    ensures var gone := FirstOwned(s, ids, uid);
            ToSet(gone) <= s.apool.Keys && DeletedAll(s, ids, uid) == (Without(s, ToSet(gone)), gone)
    decreases |ids|
  {
    hide Inv, Without, Deleted, Deletable, Owns;
    if ids == [] {
      WithoutNone(s);
    } else {
      var n := |ids| - 1;
      DeletedAllExact(cfg, s, ids[..n], uid);
      var done := FirstOwned(s, ids[..n], uid);
      var t, id := Without(s, ToSet(done)), ids[n];
      DeletableIff(cfg, s, done, uid, id);
      assert id in done <==> id in ids[..n] && Owns(s, uid, id);
      if Deletable(t, id, uid) {
        WithoutOneMore(s, done, id);
      } else {
        assert done + [] == done;
      }
    }
  }

  lemma WithoutNone(s: State)
    ensures ToSet([]) == {} && Without(s, {}) == s
  {
  }

  lemma DeletableIff(cfg: Config, s: State, done: seq<nat>, uid: nat, id: nat)
    requires Inv(cfg, s) && ToSet(done) <= s.apool.Keys
    ensures var t := Without(s, ToSet(done));
            Deletable(t, id, uid) <==> Owns(s, uid, id) && id !in done
    ensures Owns(s, uid, id) ==> id in s.apool
  {
  }

  lemma WithoutOneMore(s: State, done: seq<nat>, id: nat)
    requires ToSet(done) <= s.apool.Keys && id in s.apool && id !in done
    ensures var t, gone := Without(s, ToSet(done)), done + [id];
            id in t.apool && ToSet(gone) <= s.apool.Keys && Deleted(t, id) == Without(s, ToSet(gone))
  {
  }

  lemma {:induction false} FirstOwnedDistinct(s: State, ids: seq<nat>, uid: nat, i: nat, j: nat)
    requires i < j < |FirstOwned(s, ids, uid)|
    ensures FirstOwned(s, ids, uid)[i] != FirstOwned(s, ids, uid)[j]
    decreases |ids|
  {
    hide Owns;
    var n := |ids| - 1;
    var done := FirstOwned(s, ids[..n], uid);
    if j < |done| {
      FirstOwnedDistinct(s, ids[..n], uid, i, j);
    } else {
      assert done[i] in done;
    }
  }

  lemma {:induction false} DeletedAllKeeps(cfg: Config, s: State, ids: seq<nat>, uid: nat)
    requires Inv(cfg, s)
    ensures Inv(cfg, DeletedAll(s, ids, uid).0)
    decreases |ids|
  {
    hide Inv, Deleted;
    if ids != [] {
      var n := |ids| - 1;
      DeletedAllKeeps(cfg, s, ids[..n], uid);
      var t := DeletedAll(s, ids[..n], uid).0;
      if Deletable(t, ids[n], uid) { DeletedKeeps(cfg, t, ids[n]); }
    }
  }

  // ---- Runs ----

  /** One atomic step of the daemon on its pools. */
  datatype Op =
    | New(entry: Entry, id: nat, now: nat)
    | Del(ids: seq<nat>, uid: nat)
    | Fire(timer: nat, at: nat, delivered: bool)
    | Report(id: nat, result: Result)

  predicate Sane(r: Result) {
    r.pid < U32 && r.status < U32 && r.execTime < U64 && r.latency < U64
  }

  ghost predicate Enabled(cfg: Config, s: State, op: Op) {
    match op
    case New(e, id, now) => Ready(cfg, e) && 0 < id < U64 && now < U32 && id !in s.apool
    case Del(_, _) => true
    case Fire(tid, _, _) => tid in s.timers && s.timers[tid].id in s.apool
    case Report(id, r) => Sane(r) && (id in s.apool ==> |s.apool[id].outdata| == OUTPUT_MAX)
  }

  /** A step that is not enabled does not happen. */
  ghost function Step(cfg: Config, s: State, op: Op): State {
    if !Enabled(cfg, s, op) then s else
    match op
    case New(e, id, now) => Created(cfg, s, e, id, now)
    case Del(ids, uid) => DeletedAll(s, ids, uid).0
    case Fire(tid, now, delivered) => Fired(cfg, s, tid, now, delivered)
    case Report(id, r) => if id in s.apool then s.(apool := s.apool[id := Noted(s.apool[id], r)]) else s
  }

  ghost function Run(cfg: Config, s: State, ops: seq<Op>): State
    decreases |ops|
  {
    if ops == [] then s else Step(cfg, Run(cfg, s, ops[..|ops| - 1]), ops[|ops| - 1])
  }

  lemma NotedKeeps(cfg: Config, s: State, id: nat, r: Result)
    requires Inv(cfg, s) && id in s.apool && Sane(r)
    ensures Sized(s.apool[id]) && Inv(cfg, s.(apool := s.apool[id := Noted(s.apool[id], r)]))
  {
    hide Signed, Inv, InvBut, Proper, Placed;
    ProperParts(cfg, s, id);
    InvIsInvBut(cfg, s, id);
    var n := Noted(s.apool[id], r);
    ReplacedKeeps(cfg, s, id, n);
    var v := s.(apool := s.apool[id := n]);
    assert Timed(v, id);
    InvButTimed(cfg, v, id);
  }

  /** Flags that the invariant does not look at may change. */
  lemma FlagsKeep(cfg: Config, s: State, id: nat, flags: Flags)
    requires Inv(cfg, s) && id in s.apool
    requires AUTHORIZED in flags && FINISH in flags && (INVALID in flags <==> INVALID in s.apool[id].flags)
    ensures Inv(cfg, s.(apool := s.apool[id := s.apool[id].(flags := flags)]))
  {
    hide Signed, Inv, InvBut, Proper, Placed;
    ProperParts(cfg, s, id);
    InvIsInvBut(cfg, s, id);
    var n := s.apool[id].(flags := flags);
    SizedFlags(s.apool[id], flags);
    ReplacedKeeps(cfg, s, id, n);
    var v := s.(apool := s.apool[id := n]);
    assert Timed(v, id);
    InvButTimed(cfg, v, id);
  }

  lemma StepKeeps(cfg: Config, s: State, op: Op)
    requires Lawful(cfg) && Inv(cfg, s)
    ensures Inv(cfg, Step(cfg, s, op))
  {
    hide Inv, Lawful, Created, Fired, DeletedAll, Noted, Ready;
    if Enabled(cfg, s, op) {
      StepEnabledKeeps(cfg, s, op);
    }
  }

  lemma StepEnabledKeeps(cfg: Config, s: State, op: Op)
    requires Lawful(cfg) && Inv(cfg, s) && Enabled(cfg, s, op)
    ensures Inv(cfg, Step(cfg, s, op))
  {
    hide Inv, Lawful, Created, Fired, DeletedAll, Noted, Ready;
    match op {
      case New(e, id, now) => CreatedKeeps(cfg, s, e, id, now);
      case Del(ids, uid) => DeletedAllKeeps(cfg, s, ids, uid);
      case Fire(tid, now, delivered) => FiredKeeps(cfg, s, tid, now, delivered);
      case Report(id, r) => if id in s.apool { NotedKeeps(cfg, s, id, r); }
    }
  }

  /**
   * Over every run of creations, deletions, dispatches and reports: ids are non-zero and distinct, every valid
   * entry has its one agreeing timer, every timer its entry, and every entry is signed, authorized and
   * permitted by the lists.
   */
  lemma {:induction false} RunKeeps(cfg: Config, s: State, ops: seq<Op>)
    requires Lawful(cfg) && Inv(cfg, s)
    ensures Inv(cfg, Run(cfg, s, ops))
    decreases |ops|
  {
    hide Inv, Lawful, Step;
    if ops != [] {
      RunKeeps(cfg, s, ops[..|ops| - 1]);
      StepKeeps(cfg, Run(cfg, s, ops[..|ops| - 1]), ops[|ops| - 1]);
    }
  }

  lemma EmptyInv(cfg: Config)
    ensures Inv(cfg, State(map[], map[], 1, []))
  {
  }
}
