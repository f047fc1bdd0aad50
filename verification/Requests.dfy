/**
 * What a request comes to, from the client's entry and payload to the daemon's pools and back to what the client
 * reads: a run is stored as it was sent, a stop removes exactly what was listed and owned, a show lists it.
 */
module Requests {
  import opened Auth
  import opened Bytes
  import opened DiskCodec
  import opened Entries
  import opened Limits
  import opened Pool
  import opened Protocol
  import opened Wire
  import opened Wrappers
  import G = GetReply
  import S = Session
  import T = Stats

  // ---- The three outcomes ----

  predicate SameFlag(a: Entry, b: Entry, f: nat) {
    f in a.flags <==> f in b.flags
  }

  /** The request is stored under the new id, for its account, with one timer, and nothing else changes. */
  ghost predicate Stores(cfg: Config, s: State, r: State, sent: Entry, subject: seq<byte>, a: Account, env: Env) {
    && env.id in r.apool && var e := r.apool[env.id];
    && e.id == env.id && Account(e.uid, e.gid) == a && e.username == sent.username && e.subj == subject
    && e.trigger == sent.trigger && e.step == sent.step && e.expire == sent.expire && e.createTime == env.now
    && SameFlag(e, sent, MONTHDAY_ALIGN) && SameFlag(e, sent, YEARDAY_ALIGN)
    && SameFlag(e, sent, RELATIVE_TRIGGER) && SameFlag(e, sent, RELATIVE_EXPIRE) && SameFlag(e, sent, INVALID)
    && AUTHORIZED in e.flags && FINISH in e.flags && COMPLETE in e.flags && PROGRESS !in e.flags
    && Signed(cfg.sign, e)
    && e.timer == s.next && r.apool == s.apool[env.id := e]
    && r.timers == s.timers[s.next := Timer(sent.trigger, sent.step, sent.expire, env.id)]
    && r.next == s.next + 1 && r.sent == s.sent
  }

  /** The listed entries of the user and their timers are gone, and everything else is as it was. */
  ghost predicate Removes(s: State, r: State, ids: seq<nat>, uid: nat) {
    && (forall id :: id in r.apool <==> id in s.apool && !(id in ids && s.apool[id].uid == uid))
    && (forall id :: id in r.apool && id in s.apool ==> r.apool[id] == s.apool[id])
    && (forall t :: t in r.timers <==> t in s.timers && s.timers[t].id in r.apool)
    && (forall t :: t in r.timers && t in s.timers ==> r.timers[t] == s.timers[t])
    && r.next == s.next && r.sent == s.sent
  }

  /** Each listed id of the user's own, once, where it is first listed. */
  ghost predicate Reports(s: State, done: seq<nat>, ids: seq<nat>, uid: nat) {
    && (forall id :: id in done <==> id in ids && id in s.apool && s.apool[id].uid == uid)
    && (forall i, j :: 0 <= i < j < |done| ==> ListedBefore(ids, done[i], done[j]))
  }

  /** One id is first listed before the other. */
  ghost predicate ListedBefore(ids: seq<nat>, x: nat, y: nat) {
    exists p, q :: 0 <= p < q && FirstAt(ids, p, x) && FirstAt(ids, q, y)
  }

  predicate FirstAt(ids: seq<nat>, p: int, x: nat) {
    0 <= p < |ids| && ids[p] == x && x !in ids[..p]
  }

  /** The list that a payload of ids stands for: a single 0 asks for all. */
  function Wanted(ids: seq<nat>, all: seq<nat>): seq<nat> {
    if |ids| == 1 && ids[0] == 0 then all else ids
  }

  // ---- NEW ----

  lemma NewStores(cfg: Config, s: State, e: Entry, plain: seq<byte>, env: Env)
    requires NEW in e.flags && AUTHORIZED in e.flags && FINISH in e.flags
    requires Operate(cfg, s, Done(e), plain, env).answer.Some?
    ensures var r := Operate(cfg, s, Done(e), plain, env);
            && Stores(cfg, s, r.state, e, plain, Account(e.uid, e.gid), env) && r.dirty
            && r.answer == Some(RunReply(env.id)) && G.Ascii(plain)
  {
    hide G.Ascii, RunReply;
  }

  // ---- DEL ----

  lemma {:induction false} FirstOwnedOrder(s: State, ids: seq<nat>, uid: nat, i: nat) returns (p: nat)
    requires i < |FirstOwned(s, ids, uid)|
    ensures p < |ids| && ids[p] == FirstOwned(s, ids, uid)[i] && ids[p] !in ids[..p]
    ensures FirstOwned(s, ids[..p], uid) == FirstOwned(s, ids, uid)[..i]
    decreases |ids|
  {
    hide Owns;
    var n := |ids| - 1;
    var done := FirstOwned(s, ids[..n], uid);
    if i < |done| {
      p := FirstOwnedOrder(s, ids[..n], uid, i);
      assert ids[..n][..p] == ids[..p];
    } else {
      p := n;
    }
  }

  lemma FirstOwnedReports(s: State, ids: seq<nat>, uid: nat)
    ensures Reports(s, FirstOwned(s, ids, uid), ids, uid)
  {
    hide FirstOwned;
    var done := FirstOwned(s, ids, uid);
    assert forall id :: id in done <==> id in ids && Owns(s, uid, id);
    forall i, j | 0 <= i < j < |done| ensures ListedBefore(ids, done[i], done[j]) {
      var p := FirstOwnedOrder(s, ids, uid, i);
      var q := FirstOwnedOrder(s, ids, uid, j);
      assert done[..j][i] == done[i] && done[i] in ids[..q];
      assert FirstAt(ids, p, done[i]) && FirstAt(ids, q, done[j]);
    }
  }

  lemma WithoutRemoves(cfg: Config, s: State, ids: seq<nat>, uid: nat)
    requires Inv(cfg, s) && ToSet(FirstOwned(s, ids, uid)) <= s.apool.Keys
    ensures Removes(s, Without(s, ToSet(FirstOwned(s, ids, uid))), ids, uid)
  {
    hide Inv, Proper, FirstOwned;
    var gone := ToSet(FirstOwned(s, ids, uid));
    var r := Without(s, gone);
    forall t | t in s.timers ensures t in r.timers <==> s.timers[t].id in r.apool {
      PlacedIn(cfg, s, t);
      if t in TimersOf(s, gone) {
        var id :| id in gone && s.apool[id].timer == t;
        ProperParts(cfg, s, id);
        assert Proper(cfg, s, id);
        TimerOwner(cfg, s, id);
      }
    }
  }

  lemma TimerOwner(cfg: Config, s: State, id: nat)
    requires id in s.apool && Proper(cfg, s, id)
    ensures s.apool[id].timer in s.timers ==> s.timers[s.apool[id].timer].id == id
  {
  }

  /** A stop on the client's own id list removes and reports exactly the listed entries of the user. */
  lemma DelRemoves(cfg: Config, s: State, e: Entry, ids: seq<nat>, env: Env)
    requires Inv(cfg, s) && NEW !in e.flags && DEL in e.flags
    requires ids != [] && (forall id :: id in ids ==> id < U64) && |Wanted(ids, env.all)| < U32
    ensures var r := Operate(cfg, s, Done(e), Ids(ids), env);
            var list := Wanted(ids, env.all);
            && Removes(s, r.state, list, e.uid) && r.answer.Some?
            && var done := ReadStop(r.answer.value);
               && done == Some(FirstOwned(s, list, e.uid)) && Reports(s, done.value, list, e.uid)
               && (r.dirty <==> r.state != s)
  {
    hide Inv, DeletedAll, FirstOwned, ReadStop, StopReply, Ids, ReadIds, Without, Removes, Reports, Owns, Created,
      G.Ascii, G.Reply, G.Selected, RunReply;
    var list, done := Wanted(ids, env.all), FirstOwned(s, Wanted(ids, env.all), e.uid);
    IdsBack(ids);
    assert Requested(Ids(ids), env.all) == list;
    DeletedAllExact(cfg, s, list, e.uid);
    WithoutRemoves(cfg, s, list, e.uid);
    FirstOwnedReports(s, list, e.uid);
    S.FirstOwnedShort(s, list, e.uid);
    forall x | x in done ensures x < U64 { ProperParts(cfg, s, x); }
    RepliesBack(0, done);
    WithoutChanges(s, done);
  }

  lemma WithoutChanges(s: State, done: seq<nat>)
    requires ToSet(done) <= s.apool.Keys
    ensures Without(s, ToSet(done)) != s <==> done != []
  {
    if done == [] {
      WithoutNone(s);
    } else {
      assert done[0] in s.apool && done[0] !in Without(s, ToSet(done)).apool;
    }
  }

  // ---- GET ----

  /** The entry can be listed: its subject is ASCII text and its output as long as it says. */
  predicate Tidy(e: Entry) {
    G.Ascii(e.subj) && e.outLen == G.StrLen(e.outdata)
  }

  /** An active entry is visible exactly to its owner, if it is tidy. */
  lemma VisibleIff(cfg: Config, s: State, id: nat, uid: nat)
    requires Inv(cfg, s) && id in s.apool
    ensures G.Visible(s.apool, id, uid) <==> s.apool[id].uid == uid && Tidy(s.apool[id])
  {
    hide Inv, G.Ascii, G.StrLen;
    ProperParts(cfg, s, id);
  }

  /** The list shows the user's own tidy entries that were asked for, in the order of the request. */
  ghost predicate Shows(s: State, es: seq<Entry>, ids: seq<nat>, uid: nat) {
    if ids == [] then es == []
    else
      var id := ids[|ids| - 1];
      if id in s.apool && s.apool[id].uid == uid && Tidy(s.apool[id]) then
        es != [] && es[|es| - 1] == s.apool[id] && Shows(s, es[..|es| - 1], ids[..|ids| - 1], uid)
      else Shows(s, es, ids[..|ids| - 1], uid)
  }

  lemma {:induction false} SelectedShows(cfg: Config, s: State, ids: seq<nat>, uid: nat)
    requires Inv(cfg, s)
    ensures Shows(s, G.Selected(ids, s.apool, uid), ids, uid)
    decreases |ids|
  {
    hide Inv, G.Visible, Tidy;
    if ids != [] {
      var n := |ids| - 1;
      var id := ids[n];
      SelectedShows(cfg, s, ids[..n], uid);
      if id in s.apool { VisibleIff(cfg, s, id, uid); } else { VisibleActive(s, id, uid); }
      var es := G.Selected(ids[..n], s.apool, uid);
      assert es + [] == es;
      if G.Visible(s.apool, id, uid) { assert (es + [s.apool[id]])[..|es|] == es; }
    }
  }

  lemma VisibleActive(s: State, id: nat, uid: nat)
    ensures G.Visible(s.apool, id, uid) ==> id in s.apool
  {
  }

  /** A show on the client's own id list is read back as exactly the listed entries of the user, and changes nothing. */
  lemma GetShows(cfg: Config, s: State, e: Entry, ids: seq<nat>, env: Env)
    requires Inv(cfg, s) && NEW !in e.flags && DEL !in e.flags
    requires ids != [] && (forall id :: id in ids ==> id < U64) && |Ids(ids)| < U32 && |env.all| < U32
    ensures var r := Operate(cfg, s, Done(e), Ids(ids), env);
            && r.state == s && !r.dirty && r.answer.Some?
            && exists es :: Shows(s, es, Wanted(ids, env.all), e.uid)
                 && G.DecodeReply(r.answer.value) == G.Listing(G.ShownAll(es), |r.answer.value|)
  {
    hide Inv, G.Reply, G.Selected, G.DecodeReply, G.ShownAll, Ids, ReadIds, Shows;
    IdsBack(ids);
    assert Requested(Ids(ids), env.all) == Wanted(ids, env.all);
    SelectedShows(cfg, s, Wanted(ids, env.all), e.uid);
    S.ListingMeans(cfg, s, Done(e), Ids(ids), env);
  }

  /** Every entry of the pool can be listed by its owner. */
  ghost predicate AllTidy(s: State) {
    forall id :: id in s.apool ==> Tidy(s.apool[id])
  }

  /** What the client and the statistics service send: ASCII subjects, and outputs without a NUL. */
  predicate TidyOp(op: Op) {
    (op.New? ==> Tidy(op.entry)) && (op.Report? ==> 0 !in op.result.output)
  }

  lemma FireTidy(cfg: Config, s: State, tid: nat, now: nat, delivered: bool)
    requires Inv(cfg, s) && AllTidy(s) && tid in s.timers && s.timers[tid].id in s.apool
    ensures AllTidy(Fired(cfg, s, tid, now, delivered))
  {
    hide Inv, Judge, Command, NextAligned, Tidy;
    var r := Fired(cfg, s, tid, now, delivered);
    forall id | id in r.apool ensures Tidy(r.apool[id]) {
      assert id in s.apool;
      SameListing(s.apool[id], r.apool[id]);
    }
  }

  lemma SameListing(a: Entry, b: Entry)
    ensures b.subj == a.subj && b.outLen == a.outLen && b.outdata == a.outdata ==> (Tidy(a) <==> Tidy(b))
  {
  }

  lemma NotedTidy(e: Entry, r: Result)
    requires |e.outdata| == OUTPUT_MAX && G.Ascii(e.subj) && 0 !in r.output
    ensures Tidy(Noted(e, r))
  {
    hide G.Ascii, G.StrLen;
    var k := Clipped(r.output);
    T.StrLenEnds(k, e.outdata[|k| + 1..]);
  }

  lemma StepTidy(cfg: Config, s: State, op: Op)
    requires Inv(cfg, s) && AllTidy(s) && TidyOp(op)
    ensures AllTidy(Step(cfg, s, op))
  {
    hide Inv, Fired, DeletedAll, Noted, Ready, FirstOwned;
    if Enabled(cfg, s, op) {
      match op {
        case New(e, id, now) => SameListing(e, Created(cfg, s, e, id, now).apool[id]);
        case Del(ids, uid) => DeletedAllExact(cfg, s, ids, uid);
        case Fire(tid, now, delivered) => FireTidy(cfg, s, tid, now, delivered);
        case Report(id, r) => if id in s.apool { NotedTidy(s.apool[id], r); }
      }
    }
  }

  /** Over every run, every user can list every one of the entries they own. */
  lemma {:induction false} OwnAlwaysListed(cfg: Config, s: State, ops: seq<Op>, id: nat, uid: nat)
    requires Lawful(cfg) && Inv(cfg, s) && AllTidy(s) && forall op :: op in ops ==> TidyOp(op)
    ensures var r := Run(cfg, s, ops);
            AllTidy(r) && (id in r.apool ==> (G.Visible(r.apool, id, uid) <==> r.apool[id].uid == uid))
    decreases |ops|
  {
    hide Inv, Lawful, Step, Tidy, TidyOp, G.Visible;
    if ops != [] {
      var n := |ops| - 1;
      assert ops[n] in ops;
      OwnAlwaysListed(cfg, s, ops[..n], id, uid);
      RunKeeps(cfg, s, ops[..n]);
      StepTidy(cfg, Run(cfg, s, ops[..n]), ops[n]);
    }
    RunKeeps(cfg, s, ops);
    if id in Run(cfg, s, ops).apool { VisibleIff(cfg, Run(cfg, s, ops), id, uid); }
  }

  // ---- On the connection ----

  /** The account that the k-th request of the client acts for. */
  function Actor(l: S.Link, k: nat, env: Env): Option<Account>
    requires k < |l.outs|
  {
    Identity(Account(l.outs[k].entry.uid, l.outs[k].entry.gid), env.peer)
  }

  /** A list of ids as the client sends it. */
  predicate Asks(l: S.Link, k: nat, ids: seq<nat>, env: Env)
    requires k < |l.outs|
  {
    && l.outs[k].payload == Ids(ids) && ids != [] && (forall id :: id in ids ==> id < U64)
    && |Ids(ids)| < U32 && |Wanted(ids, env.all)| < U32 && |env.all| < U32
  }

  /** What the k-th request of the client does to the pools, and what the client reads in its answer. */
  ghost predicate Meets(l: S.Link, k: nat, s: State, r: State, answer: seq<byte>, env: Env)
    requires k < |l.outs| && Actor(l, k, env).Some?
  {
    var o, a := l.outs[k], Actor(l, k, env).value;
    if NEW in o.entry.flags then
      Stores(l.cfg, s, r, o.entry, o.payload, a, env) && |answer| == 8 && (env.id < U64 ==> ReadRun(answer) == env.id)
    else if DEL in o.entry.flags then
      forall ids :: Asks(l, k, ids, env) ==>
        var list := Wanted(ids, env.all);
        && Removes(s, r, list, a.uid) && ReadStop(answer).Some?
        && Reports(s, ReadStop(answer).value, list, a.uid)
    else
      r == s && forall ids :: Asks(l, k, ids, env) ==>
        exists es :: Shows(s, es, Wanted(ids, env.all), a.uid)
          && G.DecodeReply(answer) == G.Listing(G.ShownAll(es), |answer|)
  }

  /** The daemon is about to serve the k-th request: it holds the client's header and payload. */
  ghost predicate AboutTo(l: S.Link, s: S.Sys, k: nat, req: Request) {
    && S.Lockstep(l, s) && k == |s.served| && k < |l.outs|
    && s.phase == Some(AwaitPayload(req)) && |s.up| == SESSION + req.psize && S.Matches(l, k, req)
    && s.up[SESSION..] == S.Sealed(l, k).1
  }

  lemma AboutToServe(l: S.Link, s: S.Sys, req: Request)
    requires S.Lockstep(l, s) && s.phase == Some(AwaitPayload(req)) && |s.up| >= SESSION + req.psize
    ensures AboutTo(l, s, |s.served|, req)
  {
    hide S.HeaderOf, S.Sealed, S.Opens, S.Matches;
    assert s.client.WaitSize?;
  }

  /** The request as the daemon holds it has the client's flags and account. */
  lemma MatchesEntry(l: S.Link, k: nat, req: Request)
    requires S.Matches(l, k, req)
    ensures var o := l.outs[k].entry;
            && req.entry.uid == o.uid && req.entry.gid == o.gid && req.entry.username == o.username
            && req.entry.trigger == o.trigger && req.entry.step == o.step && req.entry.expire == o.expire
            && forall f :: f != PROGRESS && f != INIT ==> SameFlag(req.entry, o, f)
  {
  }

  /**
   * In every exchange, when the daemon has the client's next header: it goes on exactly if a session can be made, an
   * operation is named, the payload is not empty, and a subject fits a message as far as 32 bits tell.
   */
  lemma EveryHeader(l: S.Link, state: State, evs: seq<S.Event>, session: Option<seq<byte>>, env: Env)
    requires S.Proper(l) && S.AllAdmissible(l, S.Start(state), evs)
    requires session.Some? ==> |session.value| == SESSION
    requires var s := S.Run(l, S.Start(state), evs); s.phase == Some(AwaitHeader) && |s.up| >= HEADER
    ensures var s := S.Run(l, S.Start(state), evs);
            var r, k := S.DaemonMove(l, s, session, env), |s.served|;
            && k < |l.outs| && r.state == s.state && r.served == s.served
            && var o, n := l.outs[k].entry, |l.outs[k].payload| + S.Hidden(l);
               && (r.phase.Some? <==>
                     && session.Some? && (NEW in o.flags || DEL in o.flags || GET in o.flags) && n != 0
                     && (NEW in o.flags ==> n + 21 <= l.cfg.msgSize || U32 <= n + 21 <= U32 + l.cfg.msgSize))
               && (r.phase.Some? ==>
                     && r.phase.value.SendSession? && r.phase.value.req.session == session.value
                     && S.Matches(l, k, r.phase.value.req))
  {
    hide S.Proper, S.AllAdmissible, S.Run, HeaderEntry, HeaderSize, S.HeaderOf;
    StartInStep(l, state);
    S.RunKeepsStep(l, S.Start(state), evs);
    var s := S.Run(l, S.Start(state), evs);
    var k := |s.served|;
    S.HeaderOfIs(l, k);
    OutFits(l, k);
    assert s.up[..HEADER] == s.up;
    NoOperation(l.outs[k].entry.flags);
  }

  lemma OutFits(l: S.Link, k: nat)
    requires S.Proper(l) && k < |l.outs|
    ensures |l.outs[k].payload| + S.Hidden(l) < U32
  {
    assert S.GoodOut(l, l.outs[k]);
  }

  /** The request is understood exactly when its peer proves an account that the lists permit. */
  lemma UnderstoodIff(l: S.Link, k: nat, req: Request, data: seq<byte>, env: Env)
    requires S.Proper(l) && S.Matches(l, k, req) && |data| == SESSION + req.psize && data[SESSION..] == S.Sealed(l, k).1
    requires env.peer.Remote? == l.remote && (l.remote ==> env.key == l.keyOf(k))
    ensures var u, a := Understood(l.cfg, l.crypto, req, data, env), Actor(l, k, env);
            && (u.Some? <==> a.Some? && Permitted(l.cfg.lists, a.value))
            && (u.Some? ==>
                  && u.value.2 == l.outs[k].payload
                  && u.value.0 == Set(Set(req.entry, AUTHORIZED), FINISH).(uid := a.value.uid, gid := a.value.gid))
  {
    hide Permitted, Identity;
    MatchesEntry(l, k, req);
    if l.remote { SealedOpens(l, k); }
  }

  lemma SealedOpens(l: S.Link, k: nat)
    requires S.Proper(l) && k < |l.outs| && l.remote
    ensures Decrypt(l.crypto, Cipher(l.keyOf(k), 0), S.Sealed(l, k).1).1 == Some(l.outs[k].payload)
  {
  }

  /** A payload that its operation can work on. */
  predicate Workable(l: S.Link, k: nat)
    requires k < |l.outs|
  {
    var o := l.outs[k];
    if NEW in o.entry.flags then G.Ascii(o.payload) else |o.payload| % 8 == 0 && o.payload != []
  }

  lemma ServedMeets(l: S.Link, s: S.Sys, k: nat, req: Request, session: Option<seq<byte>>, env: Env)
    requires S.Proper(l) && AboutTo(l, s, k, req) && Inv(l.cfg, s.state)
    requires env.peer.Remote? == l.remote && (l.remote ==> env.key == l.keyOf(k))
    ensures var r, a := S.DaemonMove(l, s, session, env), Actor(l, k, env);
            if a.Some? && Permitted(l.cfg.lists, a.value) && Workable(l, k) then
              |r.served| == k + 1 && r.phase.Some? && Meets(l, k, s.state, r.state, r.served[k], env)
            else r.served == s.served && r.phase.None? && r.state == s.state
  {
    hide Inv, S.Lockstep, S.Proper, S.Matches, S.Sealed, Understood, Permitted, Identity, Operate, Meets, G.Ascii,
      Frame;
    assert s.up[..SESSION + req.psize] == s.up;
    UnderstoodIff(l, k, req, s.up, env);
    var u := Understood(l.cfg, l.crypto, req, s.up, env);
    if u.Some? {
      MatchesEntry(l, k, req);
      OperateMeets(l, k, s.state, u.value.0, req.entry, env);
    } else {
      assert s.served + [] == s.served;
    }
  }

  lemma OperateMeets(l: S.Link, k: nat, s: State, e: Entry, held: Entry, env: Env)
    requires k < |l.outs| && Actor(l, k, env).Some? && Inv(l.cfg, s)
    requires var o := l.outs[k].entry;
             && held.username == o.username
             && held.trigger == o.trigger && held.step == o.step && held.expire == o.expire
             && forall f :: f != PROGRESS && f != INIT ==> SameFlag(held, o, f)
    requires var a := Actor(l, k, env).value;
             e == Set(Set(held, AUTHORIZED), FINISH).(uid := a.uid, gid := a.gid)
    ensures var r := Operate(l.cfg, s, Done(e), l.outs[k].payload, env);
            && (r.answer.Some? <==> Workable(l, k)) && (r.answer.None? ==> r.state == s)
            && (r.answer.Some? ==> Meets(l, k, s, r.state, r.answer.value, env))
  {
    hide Inv, G.Ascii, G.Reply, G.Selected, G.DecodeReply, G.ShownAll, Ids, DeletedAll, Requested, Identity, Created,
      Removes, Reports, Shows, ReadStop, StopReply, ReadRun, RunReply, Stores;
    var o := l.outs[k];
    assert SameFlag(held, o.entry, NEW) && SameFlag(held, o.entry, DEL);
    var r := Operate(l.cfg, s, Done(e), o.payload, env);
    if r.answer.Some? {
      if NEW in e.flags {
        NewStores(l.cfg, s, e, o.payload, env);
        assert SameFlag(held, o.entry, MONTHDAY_ALIGN) && SameFlag(held, o.entry, YEARDAY_ALIGN);
        assert SameFlag(held, o.entry, RELATIVE_TRIGGER) && SameFlag(held, o.entry, RELATIVE_EXPIRE);
        assert SameFlag(held, o.entry, INVALID);
        StoresSent(l.cfg, s, r.state, e, o.entry, o.payload, env);
        S.RunReplySize(env.id);
        if env.id < U64 { RepliesBack(env.id, []); }
      } else if DEL in e.flags {
        forall ids | Asks(l, k, ids, env)
          ensures Removes(s, r.state, Wanted(ids, env.all), e.uid) && ReadStop(r.answer.value).Some?
          ensures Reports(s, ReadStop(r.answer.value).value, Wanted(ids, env.all), e.uid)
        {
          DelRemoves(l.cfg, s, e, ids, env);
        }
      } else {
        forall ids | Asks(l, k, ids, env)
          ensures exists es :: Shows(s, es, Wanted(ids, env.all), e.uid)
                    && G.DecodeReply(r.answer.value) == G.Listing(G.ShownAll(es), |r.answer.value|)
        {
          GetShows(l.cfg, s, e, ids, env);
        }
      }
    }
  }

  lemma StoresSent(cfg: Config, s: State, r: State, e: Entry, sent: Entry, subject: seq<byte>, env: Env)
    requires Stores(cfg, s, r, e, subject, Account(e.uid, e.gid), env)
    requires e.username == sent.username && e.trigger == sent.trigger && e.step == sent.step && e.expire == sent.expire
    requires SameFlag(e, sent, MONTHDAY_ALIGN) && SameFlag(e, sent, YEARDAY_ALIGN)
    requires SameFlag(e, sent, RELATIVE_TRIGGER) && SameFlag(e, sent, RELATIVE_EXPIRE) && SameFlag(e, sent, INVALID)
    ensures Stores(cfg, s, r, sent, subject, Account(e.uid, e.gid), env)
  {
    hide Signed;
  }

  lemma StartInStep(l: S.Link, state: State)
    ensures S.Lockstep(l, S.Start(state))
  {
  }

  /**
   * In every exchange, whatever else happens to the pools in between: when the daemon has the client's next payload,
   * it serves the request exactly if the peer proves an account that the lists permit and the payload can be worked
   * on. It then does what that request asks for, and the answer says so. Otherwise it closes and changes nothing.
   */
  lemma EveryRequest(l: S.Link, state: State, evs: seq<S.Event>, req: Request, session: Option<seq<byte>>, env: Env)
    requires S.Proper(l) && S.AllAdmissible(l, S.Start(state), evs)
    requires var s := S.Run(l, S.Start(state), evs);
             && s.phase == Some(AwaitPayload(req)) && |s.up| >= SESSION + req.psize && Inv(l.cfg, s.state)
             && env.peer.Remote? == l.remote && (l.remote ==> env.key == l.keyOf(|s.served|))
    ensures var s := S.Run(l, S.Start(state), evs);
            var k := |s.served|;
            && k < |l.outs|
            && var r, a := S.DaemonMove(l, s, session, env), Actor(l, k, env);
               if a.Some? && Permitted(l.cfg.lists, a.value) && Workable(l, k) then
                 |r.served| == k + 1 && r.phase.Some? && Meets(l, k, s.state, r.state, r.served[k], env)
               else r.served == s.served && r.phase.None? && r.state == s.state
  {
    hide Inv, S.Proper, S.Lockstep, S.AllAdmissible, S.Run, S.DaemonMove, Meets, Permitted, Workable, Identity;
    StartInStep(l, state);
    S.RunKeepsStep(l, S.Start(state), evs);
    var s := S.Run(l, S.Start(state), evs);
    AboutToServe(l, s, req);
    ServedMeets(l, s, |s.served|, req, session, env);
  }
}
