/**
 * The request protocol of one connection: header, session, payload, reply.
 * Each completion callback is a function from a phase and the received bytes to the next phase.
 */
module Protocol {
  import opened Auth
  import opened Bytes
  import opened Entries
  import opened Limits
  import opened Pool
  import opened Wire
  import opened Wrappers
  import G = GetReply
  import R = PoolRuns

  const SESSION := 272
  const HEADER := 4464
  const KEY_SIZE := 32

  /** A request between its header and its payload. */
  datatype Request = Request(entry: Entry, psize: nat, session: seq<byte>, cipher: Cipher, remote: bool)

  datatype Phase =
    | AwaitHeader
    | SendSession(req: Request)
    | AwaitPayload(req: Request)
    | SendReply(reply: seq<byte>)

  /** How many bytes the pending read asks for. */
  function Wanted(p: Phase): nat
    requires p.AwaitHeader? || p.AwaitPayload?
  {
    if p.AwaitHeader? then HEADER else SESSION + p.req.psize
  }

  // ---- The header ----

  /** Words the daemon converts; the result fields behind them stay as sent. */
  function Converted(vs: seq<nat>): (r: seq<nat>)
    requires |vs| == 12
    ensures |r| == 12
  {
    [ Hton(vs[0], 8), Hton(vs[1], 4), Hton(vs[2], 4), Hton(vs[3], 4),
      Hton(vs[4], 4), Hton(vs[5], 4), Hton(vs[6], 4) ] + vs[7..]
  }

  /** The entry in a header, under the id of its file descriptor, its user name cut to end in a NUL. */
  function HeaderEntry(fd: nat, data: seq<byte>): Entry
    requires |data| == HEADER
  {
    WidthsSum();
    var words := Converted(Load(Widths(), data[..60]));
    var name := data[4160..4160 + USERNAME_MAX - 1] + [0];
    FromWords(words, data[60..4156], name, []).(id := fd)
  }

  function HeaderSize(data: seq<byte>): nat
    requires |data| == HEADER
  {
    Hton(FromLe(data[4156..4160]), 4)
  }

  /** entry_unset_flags_local() with its bound: the flags from INIT up to it are cleared. */
  method UnsetFlagsBelow(e: Entry, bound: nat) returns (r: Entry)
    requires bound <= 32
    ensures r == e.(flags := set b | b in e.flags && !(INIT <= b < bound))
  {
    r := e;
    var n: nat := INIT;
    while n < bound
      invariant INIT <= n && (n <= bound || n == INIT)
      invariant r == e.(flags := set b | b in e.flags && !(INIT <= b < n))
    {
      r := Unset(r, n);
      n := n + 1;
    }
  }

  /** The bound is the size of the word in bytes less one, so no flag is cleared. */
  const LOCAL_BOUND := 4 - 1

  /** What the official client sends: one operation, no daemon flags, results zeroed, more than a cipher adds. */
  predicate WellFormed(e: Entry, psize: nat, hidden: nat) {
    && |e.flags * {NEW, DEL, GET}| == 1
    && (forall b :: b in e.flags ==> b <= RELATIVE_EXPIRE)
    && e.pid == 0 && e.status == 0 && e.execTime == 0 && e.latency == 0 && e.outLen == 0
    && hidden < psize && psize + 1 < U32
  }

  /** The next phase after a header, or none if the connection is closed. */
  function OnHeader(fd: nat, data: seq<byte>, msgSize: nat, remote: bool, session: Option<seq<byte>>): Option<Phase>
    requires |data| == HEADER
  {
    var e, psize := HeaderEntry(fd, data), HeaderSize(data);
    if e.flags * {NEW, DEL, GET} == {} || psize == 0 then None
    else if NEW in e.flags && (psize + 21) % U32 > msgSize then None
    else if session.None? then None
    else
      var cipher := Cipher(Zeros(KEY_SIZE), 0);
      Some(SendSession(Request(Set(Set(e, PROGRESS), INIT), psize, session.value, cipher, remote)))
  }

  lemma NoOperation(f: Flags)
    ensures f * {NEW, DEL, GET} == {} <==> NEW !in f && DEL !in f && GET !in f
  {
    if f * {NEW, DEL, GET} == {} {
      assert NEW !in f * {NEW, DEL, GET} && DEL !in f * {NEW, DEL, GET} && GET !in f * {NEW, DEL, GET};
    }
  }

  /** The size check on a NEW header lets through a subject that fits the message, and one whose size wraps the sum. */
  lemma HeaderFitsIff(fd: nat, data: seq<byte>, msgSize: nat, remote: bool, session: Option<seq<byte>>)
    requires |data| == HEADER && msgSize < U32 && NEW in HeaderEntry(fd, data).flags
    requires OnHeader(fd, data, msgSize, remote, session).Some?
    ensures HeaderSize(data) + 21 <= msgSize <==> HeaderSize(data) + 21 < U32
  {
    hide HeaderEntry, HeaderSize;
  }

  function OnWritten(p: Phase): Phase
    requires p.SendSession? || p.SendReply?
  {
    if p.SendSession? then AwaitPayload(p.req) else AwaitHeader
  }

  // ---- The payload ----

  /** The world outside the daemon when a payload arrives. */
  datatype Env = Env(peer: Peer, key: seq<byte>, id: nat, now: nat, all: seq<nat>)

  /** The request authorized for its peer and on its way to completion, if it may be. */
  function Admitted(l: Lists, e: Entry, peer: Peer): Option<Entry> {
    match Identity(Account(e.uid, e.gid), peer)
    case None => None
    case Some(a) =>
      if Permitted(l, a) then Some(Set(Set(e, AUTHORIZED).(uid := a.uid, gid := a.gid), FINISH)) else None
  }

  /** The cipher after authorization: a remote peer has an agreed key, and counting starts anew. */
  function Keyed(c: Cipher, env: Env): Cipher {
    if env.peer.Remote? then Cipher(env.key, 0) else c
  }

  function Opened(c: Crypto, s: Cipher, remote: bool, payload: seq<byte>): (Cipher, Option<seq<byte>>) {
    if remote then Decrypt(c, s, payload) else (s, Some(payload))
  }

  /** An entry whose request is complete. */
  function Done(e: Entry): Entry {
    Set(Unset(e, PROGRESS), COMPLETE)
  }

  /** The listed ids, or what stands for all of the user's entries. */
  function Requested(plain: seq<byte>, all: seq<nat>): seq<nat> {
    var ids := ReadIds(plain);
    if ids == [0] then all else ids
  }

  datatype Served = Served(state: State, answer: Option<seq<byte>>, dirty: bool)

  /** The operation itself: the new pools, the plain answer, and whether the pools need to be written out. */
  function Operate(cfg: Config, s: State, e: Entry, plain: seq<byte>, env: Env): Served {
    if NEW in e.flags then
      if G.Ascii(plain) then
        Served(Created(cfg, s, e.(subj := plain), env.id, env.now), Some(RunReply(env.id)), true)
      else Served(s, None, false)
    else if |plain| % 8 != 0 || plain == [] then Served(s, None, false)
    else if DEL in e.flags then
      var (t, done) := DeletedAll(s, Requested(plain, env.all), e.uid);
      Served(t, Some(StopReply(done)), done != [])
    else Served(s, Some(G.Reply(G.Selected(Requested(plain, env.all), s.apool, e.uid))), false)
  }

  /** Completing a request when it is answered is completing it before. */
  lemma OperateDone(cfg: Config, s: State, e: Entry, plain: seq<byte>, env: Env)
    ensures var r, d := Operate(cfg, s, e, plain, env), Operate(cfg, s, Done(e), plain, env);
            && d.answer == r.answer && d.dirty == r.dirty
            && (!(NEW in e.flags && r.answer.Some?) ==> d.state == r.state)
            && (NEW in e.flags && r.answer.Some? ==>
                  && env.id in r.state.apool
                  && d.state == r.state.(apool := r.state.apool[env.id := Done(r.state.apool[env.id])]))
  {
    hide DeletedAll, G.Reply, G.Selected, G.Ascii, Requested, StopReply, RunReply;
    if NEW in e.flags && G.Ascii(plain) {
      var a := Identified(cfg, e.(subj := plain), env.id, env.now);
      assert Identified(cfg, Done(e).(subj := plain), env.id, env.now) == Done(a);
      var r := Operate(cfg, s, e, plain, env).state;
      assert s.apool[env.id := Done(a).(timer := s.next)] == r.apool[env.id := Done(r.apool[env.id])];
    }
  }

  /** What the update stage makes of a payload: the decrypted request or nothing. */
  function Understood(cfg: Config, c: Crypto, req: Request, data: seq<byte>, env: Env)
    : Option<(Entry, Cipher, seq<byte>)>
    requires |data| == SESSION + req.psize
  {
    var admitted := Admitted(cfg.lists, req.entry, env.peer);
    if admitted.None? then None
    else
      var (cipher, plain) := Opened(c, Keyed(req.cipher, env), env.peer.Remote?, data[SESSION..]);
      if plain.None? then None else Some((admitted.value, cipher, plain.value))
  }

  datatype Turn = Turn(state: State, phase: Option<Phase>, dirty: bool)

  /** The whole callback on a payload. */
  function OnPayload(cfg: Config, c: Crypto, s: State, req: Request, data: seq<byte>, env: Env): Turn
    requires |data| == SESSION + req.psize
  {
    var u := Understood(cfg, c, req, data, env);
    if u.None? then Turn(s, None, false)
    else
      var (e, cipher, plain) := u.value;
      var r := Operate(cfg, s, Done(e), plain, env);
      if r.answer.None? then Turn(r.state, None, r.dirty)
      else Turn(r.state, Some(SendReply(Frame(Encrypt(c, cipher, r.answer.value).1))), r.dirty)
  }

  // ---- What holds between header and payload ----

  predicate InFlight(cfg: Config, req: Request, fd: nat) {
    && 0 < req.psize && req.psize + 1 < U32 && (req.remote ==> cfg.extra < req.psize)
    && |req.session| == SESSION && req.cipher == Cipher(Zeros(KEY_SIZE), 0)
    && PROGRESS in req.entry.flags && INIT in req.entry.flags
    && AUTHORIZED !in req.entry.flags && FINISH !in req.entry.flags && COMPLETE !in req.entry.flags
    && INVALID !in req.entry.flags
    && |req.entry.flags * {NEW, DEL, GET}| == 1
    && Sized(req.entry) && req.entry.outLen == 0 && req.entry.id == fd && req.entry.subj == []
  }

  lemma OnHeaderInFlight(cfg: Config, fd: nat, data: seq<byte>, msgSize: nat, remote: bool, session: Option<seq<byte>>)
    requires |data| == HEADER && fd < U32
    requires WellFormed(HeaderEntry(fd, data), HeaderSize(data), if remote then cfg.extra else 0)
    requires session.Some? ==> |session.value| == SESSION
    ensures var p := OnHeader(fd, data, msgSize, remote, session);
            p.Some? ==> p.value.SendSession? && InFlight(cfg, p.value.req, fd)
  {
    hide HeaderEntry, HeaderSize;
    HeaderSized(fd, data);
    var e := HeaderEntry(fd, data);
    var f := Set(Set(e, PROGRESS), INIT);
    assert f.flags * {NEW, DEL, GET} == e.flags * {NEW, DEL, GET};
  }

  lemma HeaderSized(fd: nat, data: seq<byte>)
    requires |data| == HEADER && fd < U32
    ensures Sized(HeaderEntry(fd, data)) && HeaderEntry(fd, data).id == fd && HeaderEntry(fd, data).subj == []
  {
    hide Load, Range, Hton, Widths, BitsFrom;
    WidthsSum();
    var vs := Load(Widths(), data[..60]);
    LoadFits(Widths(), data[..60]);
    WordsBelow(vs);
    HtonBelow(vs[2]);
    HtonBelow(vs[3]);
    HtonBelow(vs[4]);
    HtonBelow(vs[5]);
    HtonBelow(vs[6]);
  }

  lemma WordsBelow(vs: seq<nat>)
    requires Fits(Widths(), vs)
    ensures vs[2] < U32 && vs[3] < U32 && vs[4] < U32 && vs[5] < U32 && vs[6] < U32 && vs[7] < U32 && vs[8] < U32
    ensures vs[9] < U64 && vs[10] < U64 && vs[11] < U32
  {
  }

  lemma HtonBelow(v: nat)
    requires v < U32
    ensures Hton(v, 4) < U32
  {
    hide Hton, Range;
    Range4();
    HtonLayout(v, 4);
  }

  /** An admitted request acts for the peer's own account, and the lists permit it. */
  lemma AdmittedIs(l: Lists, e: Entry, peer: Peer)
    requires Admitted(l, e, peer).Some?
    ensures var a := Admitted(l, e, peer).value;
            && AUTHORIZED in a.flags && FINISH in a.flags && Permitted(l, Account(a.uid, a.gid))
            && (peer.Local? ==> Account(a.uid, a.gid) == peer.credentials == Account(e.uid, e.gid))
            && (peer.Remote? ==> Some(Account(a.uid, a.gid)) == peer.record && peer.verified)
            && (peer.Remote? ==> e.uid == 0xff && e.gid == 0xff) && !peer.Unknown?
  {
  }

  /** A peer's numbers are those of its type. */
  predicate SmallPeer(p: Peer) {
    match p
    case Local(c) => c.uid < U32 && c.gid < U32
    case Remote(r, _) => r.Some? ==> r.value.uid < U32 && r.value.gid < U32
    case Unknown => true
  }

  lemma AdmittedReady(cfg: Config, req: Request, fd: nat, peer: Peer, plain: seq<byte>)
    requires InFlight(cfg, req, fd) && SmallPeer(peer) && Admitted(cfg.lists, req.entry, peer).Some?
    requires plain != [] && |plain| + 1 < U32
    ensures Ready(cfg, Done(Admitted(cfg.lists, req.entry, peer).value).(subj := plain))
    ensures Ready(cfg, Admitted(cfg.lists, req.entry, peer).value.(subj := plain))
  {
    hide Permitted;
    AdmittedIs(cfg.lists, req.entry, peer);
  }

  /** Serving a payload keeps the invariant of the pools. */
  lemma OnPayloadKeeps(cfg: Config, c: Crypto, s: State, req: Request, fd: nat, data: seq<byte>, env: Env)
    requires Lawful(cfg) && Sound(c) && Inv(cfg, s) && InFlight(cfg, req, fd) && SmallPeer(env.peer)
    requires |data| == SESSION + req.psize && env.now < U32 && c.extra == cfg.extra && env.peer.Remote? == req.remote
    requires 0 < env.id < U64 && env.id !in s.apool
    ensures Inv(cfg, OnPayload(cfg, c, s, req, data, env).state)
  {
    hide Inv, Lawful, Created, DeletedAll, Sound, Ready, InFlight, Admitted, G.Selected, G.Reply, Frame;
    var admitted := Admitted(cfg.lists, req.entry, env.peer);
    if admitted.Some? {
      var plain := Opened(c, Keyed(req.cipher, env), env.peer.Remote?, data[SESSION..]).1;
      if plain.Some? {
        InFlightSize(cfg, req, fd);
        PlainFits(c, Keyed(req.cipher, env), env.peer.Remote?, data[SESSION..]);
        AdmittedReady(cfg, req, fd, env.peer, plain.value);
        CreatedKeeps(cfg, s, Done(admitted.value).(subj := plain.value), env.id, env.now);
        DeletedAllKeeps(cfg, s, Requested(plain.value, env.all), admitted.value.uid);
      }
    }
  }

  /**
   * Whatever a payload does, an entry found in the pool afterwards was there before, or belongs to the account
   * that the peer proved and the lists permit.
   */
  lemma EntriesTraceable(cfg: Config, c: Crypto, s: State, req: Request, data: seq<byte>, env: Env, id: nat)
    requires Inv(cfg, s) && |data| == SESSION + req.psize && id in OnPayload(cfg, c, s, req, data, env).state.apool
    ensures var e := OnPayload(cfg, c, s, req, data, env).state.apool[id];
            || (id in s.apool && s.apool[id] == e)
            || (&& NEW in req.entry.flags && id == env.id
                && Identity(Account(req.entry.uid, req.entry.gid), env.peer) == Some(Account(e.uid, e.gid))
                && Permitted(cfg.lists, Account(e.uid, e.gid)))
  {
    hide Inv, DeletedAll, Permitted, G.Reply, G.Selected, G.Ascii, Frame, StopReply, Requested, Identity, Opened;
    var u := Understood(cfg, c, req, data, env);
    if u.Some? && NEW !in u.value.0.flags && DEL in u.value.0.flags {
      DeletedAllExact(cfg, s, Requested(u.value.2, env.all), u.value.0.uid);
    }
  }

  /** A request leaves every entry and timer of every other user as it is, and adds none. */
  lemma RequestIsolates(cfg: Config, c: Crypto, s: State, req: Request, fd: nat, data: seq<byte>, env: Env,
                        uid: nat, j: nat)
    requires Lawful(cfg) && Sound(c) && Inv(cfg, s) && InFlight(cfg, req, fd) && SmallPeer(env.peer)
    requires |data| == SESSION + req.psize && env.now < U32 && c.extra == cfg.extra && env.peer.Remote? == req.remote
    requires 0 < env.id < U64 && env.id !in s.apool
    requires Identity(Account(req.entry.uid, req.entry.gid), env.peer).Some? ==>
               Identity(Account(req.entry.uid, req.entry.gid), env.peer).value.uid != uid
    requires Owns(s, uid, j) || Owns(OnPayload(cfg, c, s, req, data, env).state, uid, j)
    ensures Owns(s, uid, j) && R.Untouched(s, OnPayload(cfg, c, s, req, data, env).state, j)
  {
    hide Inv, Lawful, Sound, Ready, InFlight, Frame, R.Untouched, Permitted, Owns, Operate, Identity;
    var u := Understood(cfg, c, req, data, env);
    R.UntouchedSent(s, s, j);
    if u.Some? {
      InFlightSize(cfg, req, fd);
      PlainFits(c, Keyed(req.cipher, env), env.peer.Remote?, data[SESSION..]);
      AdmittedReady(cfg, req, fd, env.peer, u.value.2);
      OperateIsolates(cfg, s, Done(u.value.0), u.value.2, env, uid, j);
    }
  }

  lemma OperateIsolates(cfg: Config, s: State, e: Entry, plain: seq<byte>, env: Env, uid: nat, j: nat)
    requires Lawful(cfg) && Inv(cfg, s) && Ready(cfg, e.(subj := plain)) && e.uid != uid
    requires env.now < U32 && 0 < env.id < U64 && env.id !in s.apool
    requires Owns(s, uid, j) || Owns(Operate(cfg, s, e, plain, env).state, uid, j)
    ensures Owns(s, uid, j) && R.Untouched(s, Operate(cfg, s, e, plain, env).state, j)
  {
    hide Inv, Lawful, Created, DeletedAll, Ready, G.Selected, G.Reply, G.Ascii, R.Untouched, Owns, Requested, StopReply;
    R.UntouchedSent(s, s, j);
    var op := if NEW in e.flags then New(e.(subj := plain), env.id, env.now) else Del(Requested(plain, env.all), e.uid);
    if Operate(cfg, s, e, plain, env).state == Step(cfg, s, op) { R.StepIsolates(cfg, s, op, uid, j); }
  }

  /** What a listing shows belongs to the account the request acts for. */
  lemma RequestShowsOwn(cfg: Config, c: Crypto, s: State, req: Request, data: seq<byte>, env: Env, x: Entry)
    requires |data| == SESSION + req.psize && Understood(cfg, c, req, data, env).Some?
    requires var (e, _, plain) := Understood(cfg, c, req, data, env).value;
             x in G.Selected(Requested(plain, env.all), s.apool, e.uid)
    ensures Identity(Account(req.entry.uid, req.entry.gid), env.peer).Some?
    ensures x.uid == Identity(Account(req.entry.uid, req.entry.gid), env.peer).value.uid
  {
    hide G.Selected, Identity, Permitted, Opened, Requested;
    var (e, _, plain) := Understood(cfg, c, req, data, env).value;
    R.SelectedOwned(Requested(plain, env.all), s, e.uid, x);
  }

  lemma InFlightSize(cfg: Config, req: Request, fd: nat)
    requires InFlight(cfg, req, fd)
    ensures 0 < req.psize && req.psize + 1 < U32 && (req.remote ==> cfg.extra < req.psize)
  {
  }

  lemma PlainFits(c: Crypto, s: Cipher, remote: bool, payload: seq<byte>)
    requires Sound(c) && Opened(c, s, remote, payload).1.Some?
    ensures var plain := Opened(c, s, remote, payload).1.value;
            |plain| <= |payload| && (|payload| > (if remote then c.extra else 0) ==> plain != [])
  {
  }
}
