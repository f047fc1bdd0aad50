/** The daemon's connections: notify_read() and notify_write() over the request pool and the active pool. */
module Daemon {
  import opened Auth
  import opened Bytes
  import opened Entries
  import opened Limits
  import opened Pool
  import opened Protocol
  import opened Scheduler
  import opened Wire
  import opened Wrappers
  import G = GetReply

  /** The one asynchronous operation of an open connection. */
  datatype Aop = Read(count: nat) | Write(data: seq<byte>)

  /** What the daemon learns from outside during a callback: sockets, key exchange, clock, hash and list memory. */
  datatype World = World(
    session: Option<seq<byte>>, peer: Peer, key: seq<byte>,
    hash: nat -> nat, now: nat, all: seq<nat>)
  {
    predicate Fits() {
      (session.Some? ==> |session.value| == SESSION) && SmallPeer(peer) && now < U32 && |all| < U32
    }
  }

  /** What a phase looks like in the daemon's tables. */
  predicate Shows(p: Phase, aop: Aop, pending: Option<Request>) {
    match p
    case AwaitHeader => aop == Read(HEADER) && pending == None
    case SendSession(req) => aop == Write(req.session) && pending == Some(req)
    case AwaitPayload(req) => aop == Read(SESSION + req.psize) && pending == Some(req)
    case SendReply(reply) => aop == Write(reply) && pending == None
  }

  function Find(rpool: map<nat, Request>, fd: nat): Option<Request> {
    if fd in rpool then Some(rpool[fd]) else None
  }

  /** One connection: its phase, tables and request belong together. */
  predicate Linked(cfg: Config, fd: nat, p: Phase, aop: Aop, pending: Option<Request>) {
    && fd < U32 && Shows(p, aop, pending)
    && (pending.Some? ==> InFlight(cfg, pending.value, fd))
  }

  /** The tables hold exactly the open connections, each in its phase. */
  ghost predicate Tables(cfg: Config, conns: map<nat, Aop>, rpool: map<nat, Request>, phases: map<nat, Phase>) {
    && conns.Keys == phases.Keys && rpool.Keys <= conns.Keys
    && forall fd :: fd in conns ==> Linked(cfg, fd, phases[fd], conns[fd], Find(rpool, fd))
  }

  function Put(rpool: map<nat, Request>, fd: nat, pending: Option<Request>): map<nat, Request> {
    if pending.Some? then rpool[fd := pending.value] else rpool - {fd}
  }

  lemma TablesSet(cfg: Config, conns: map<nat, Aop>, rpool: map<nat, Request>, phases: map<nat, Phase>,
                  fd: nat, aop: Aop, pending: Option<Request>, p: Phase)
    requires Tables(cfg, conns, rpool, phases) && Linked(cfg, fd, p, aop, pending)
    ensures Tables(cfg, conns[fd := aop], Put(rpool, fd, pending), phases[fd := p])
  {
  }

  lemma TablesDrop(cfg: Config, conns: map<nat, Aop>, rpool: map<nat, Request>, phases: map<nat, Phase>, fd: nat)
    requires Tables(cfg, conns, rpool, phases)
    ensures Tables(cfg, conns - {fd}, rpool - {fd}, phases - {fd})
  {
  }

  lemma TablesAt(cfg: Config, conns: map<nat, Aop>, rpool: map<nat, Request>, phases: map<nat, Phase>, fd: nat)
    requires Tables(cfg, conns, rpool, phases) && fd in conns
    ensures fd in phases && Linked(cfg, fd, phases[fd], conns[fd], Find(rpool, fd))
  {
  }

  class Daemon {
    const pool: Scheduler
    var conns: map<nat, Aop>
    var rpool: map<nat, Request>
    var serialize: bool
    ghost var phases: map<nat, Phase>

    /**
     * A request is pending for exactly the connections between header and payload; it is PROGRESS and INIT, and
     * neither AUTHORIZED nor FINISH; the pending read asks for the session and the payload.
     */
    ghost predicate Valid(cfg: Config)
      reads this, pool
    {
      Inv(cfg, pool.Value()) && Tables(cfg, conns, rpool, phases)
    }

    constructor (ghost cfg: Config, p: Scheduler)
      requires Inv(cfg, p.Value())
      ensures Valid(cfg) && pool == p && phases == map[] && !serialize
    {
      pool, conns, rpool, serialize, phases := p, map[], map[], false, map[];
    }

    /** A new connection waits for its first header. */
    method Accept(ghost cfg: Config, fd: nat)
      requires Valid(cfg) && fd !in conns && fd < U32
      modifies `conns, `phases
      ensures Valid(cfg) && phases == old(phases)[fd := AwaitHeader]
    {
      hide Inv, Tables;
      TablesSet(cfg, conns, rpool, phases, fd, Read(HEADER), None, AwaitHeader);
      TablesKeys(cfg, conns, rpool, phases);
      assert rpool - {fd} == rpool;
      conns, phases := conns[fd := Read(HEADER)], phases[fd := AwaitHeader];
    }

    /** The failure exit of both callbacks: no residual request, no connection. */
    method Close(fd: nat)
      modifies `conns, `rpool, `phases
      ensures conns == old(conns) - {fd} && rpool == old(rpool) - {fd} && phases == old(phases) - {fd}
    {
      if fd in rpool { rpool := rpool - {fd}; }
      conns, phases := conns - {fd}, phases - {fd};
      assert rpool == old(rpool) - {fd};
    }

    /** notify_write(): after the session token read the payload, after a reply the next header. */
    method NotifyWrite(ghost cfg: Config, fd: nat, complete: bool)
      requires Valid(cfg) && fd in conns && conns[fd].Write?
      modifies `conns, `rpool, `phases
      ensures Valid(cfg) && fd in old(phases) && (old(phases[fd]).SendSession? || old(phases[fd]).SendReply?)
      ensures phases == if complete then old(phases)[fd := OnWritten(old(phases[fd]))] else old(phases) - {fd}
    {
      hide Inv, InFlight, Tables;
      TablesAt(cfg, conns, rpool, phases, fd);
      TablesDrop(cfg, conns, rpool, phases, fd);
      ghost var next := OnWritten(phases[fd]);
      if complete {
        var found := Find(rpool, fd);
        rpool := rpool - {fd};
        if found.None? {
          TablesSet(cfg, conns, old(rpool), phases, fd, Read(HEADER), found, next);
          conns := conns[fd := Read(HEADER)];
        } else {
          var req := found.value;
          InFlightFlags(cfg, req, fd);
          if PROGRESS !in req.entry.flags { assert false; }
          TablesSet(cfg, conns, old(rpool), phases, fd, Read(SESSION + req.psize), found, next);
          rpool := rpool[fd := req];
          assert rpool == Put(old(rpool), fd, found);
          conns := conns[fd := Read(SESSION + req.psize)];
        }
        phases := phases[fd := next];
      } else {
        Close(fd);
      }
    }

    /** process_daemon_recv_create(). */
    method RecvCreate(fd: nat, data: seq<byte>, msgSize: nat, remote: bool, session: Option<seq<byte>>)
      returns (r: Option<Request>)
      requires |data| == HEADER
      ensures var p := OnHeader(fd, data, msgSize, remote, session);
              && (r.Some? <==> p.Some?)
              && (r.Some? ==> p.value == SendSession(r.value.(entry := Set(r.value.entry, INIT))))
      ensures r.Some? ==> r.value.entry == Set(HeaderEntry(fd, data), PROGRESS)
    {
      hide HeaderEntry, HeaderSize;
      var e := HeaderEntry(fd, data);
      var psize := HeaderSize(data);
      NoOperation(e.flags);
      e := UnsetFlagsBelow(e, LOCAL_BOUND);
      assert e.flags == HeaderEntry(fd, data).flags;
      if NEW !in e.flags && DEL !in e.flags && GET !in e.flags { return None; }
      if psize == 0 { return None; }
      if NEW in e.flags && (psize + 21) % U32 > msgSize { return None; }
      e := Set(e, PROGRESS);
      if session.None? { return None; }
      r := Some(Request(e, psize, session.value, Cipher(Zeros(KEY_SIZE), 0), remote));
    }

    /** notify_read() on a header: the request is kept and its session token goes out. */
    method ReadHeader(ghost cfg: Config, fd: nat, data: seq<byte>, msgSize: nat,
                      remote: bool, session: Option<seq<byte>>)
      requires Valid(cfg) && fd in conns && conns[fd] == Read(HEADER) && fd !in rpool && |data| == HEADER
      requires WellFormed(HeaderEntry(fd, data), HeaderSize(data), if remote then cfg.extra else 0)
      requires session.Some? ==> |session.value| == SESSION
      modifies `conns, `rpool, `phases
      ensures Valid(cfg)
      ensures var p := OnHeader(fd, data, msgSize, remote, session);
              phases == if p.Some? then old(phases)[fd := p.value] else old(phases) - {fd}
    {
      hide Inv, InFlight, Tables, HeaderEntry, HeaderSize, WellFormed;
      TablesAt(cfg, conns, rpool, phases, fd);
      TablesDrop(cfg, conns, rpool, phases, fd);
      OnHeaderInFlight(cfg, fd, data, msgSize, remote, session);
      var created := RecvCreate(fd, data, msgSize, remote, session);
      if created.None? {
        Close(fd);
        return;
      }
      var req := created.value;
      rpool := rpool[fd := req];
      WellFormedFlags(HeaderEntry(fd, data), HeaderSize(data), if remote then cfg.extra else 0);
      if FINISH in req.entry.flags { assert false; }
      if PROGRESS !in req.entry.flags || AUTHORIZED in req.entry.flags { assert false; }
      req := req.(entry := Set(req.entry, INIT));
      TablesSet(cfg, conns, old(rpool), phases, fd, Write(req.session), Some(req), SendSession(req));
      rpool := rpool[fd := req];
      assert rpool == Put(old(rpool), fd, Some(req));
      conns, phases := conns[fd := Write(req.session)], phases[fd := SendSession(req)];
    }
  
    /** _process_recv_update_op_new(). */
    method OpNew(cfg: Config, e: Entry, plain: seq<byte>, hash: nat -> nat, now: nat, ghost bound: nat)
      returns (answer: Option<seq<byte>>, id: nat)
      requires Lawful(cfg) && Inv(cfg, pool.Value()) && Ready(cfg, e.(subj := plain)) && now < U32
      requires hash(bound) != 0 && hash(bound) !in pool.apool && forall k: nat :: hash(k) < U64
      modifies pool, `serialize
      ensures Inv(cfg, pool.Value())
      ensures answer.Some? <==> G.Ascii(plain)
      ensures answer.None? ==> pool.Value() == old(pool.Value()) && serialize == old(serialize)
      ensures answer.Some? ==> answer.value == RunReply(id) && serialize
      ensures answer.Some? ==> 0 < id < U64 && id !in old(pool.apool) && id in pool.apool
      ensures answer.Some? ==> pool.Value() == Created(cfg, old(pool.Value()), e.(subj := plain), id, now)
    {
      hide Inv, Lawful, Ready, G.Ascii, Identified;
      id := 0;
      if !G.Ascii(plain) { return None, id; }
      ghost var tries;
      id, tries := pool.Create(cfg, e.(subj := plain), hash, now, bound);
      serialize := true;
      IdentifiedTiming(cfg, e.(subj := plain), id, now);
      answer := Some(RunReply(id));
    }
  
    /** The id list of a DEL or GET payload, if it is one. */
    method IdList(plain: seq<byte>, all: seq<nat>) returns (ids: Option<seq<nat>>)
      ensures ids.Some? <==> |plain| % 8 == 0 && plain != []
      ensures ids.Some? ==> ids.value == Requested(plain, all)
    {
      hide ReadIds;
      if |plain| % 8 != 0 { return None; }
      var list := ConvertIds(plain);
      if |list| == 0 { return None; }
      if |list| == 1 && list[0] == 0 { list := all; }
      ids := Some(list);
    }

    /** _process_recv_update_op_del(). */
    method OpDel(cfg: Config, uid: nat, plain: seq<byte>, all: seq<nat>) returns (answer: Option<seq<byte>>)
      requires Inv(cfg, pool.Value())
      modifies pool, `serialize
      ensures Inv(cfg, pool.Value())
      ensures answer.Some? <==> |plain| % 8 == 0 && plain != []
      ensures answer.None? ==> pool.Value() == old(pool.Value()) && serialize == old(serialize)
      ensures answer.Some? ==> var (t, done) := DeletedAll(old(pool.Value()), Requested(plain, all), uid);
                pool.Value() == t && answer.value == StopReply(done) && serialize == (old(serialize) || done != [])
    {
      hide Inv, DeletedAll, Requested, StopReply;
      var ids := IdList(plain, all);
      if ids.None? { return None; }
      DeletedAllKeeps(cfg, pool.Value(), ids.value, uid);
      var done := pool.DeleteList(ids.value, uid);
      if done != [] { serialize := true; }
      answer := Some(StopReply(done));
    }

    /** _process_recv_update_op_get(). */
    method OpGet(cfg: Config, uid: nat, plain: seq<byte>, all: seq<nat>) returns (answer: Option<seq<byte>>)
      requires Inv(cfg, pool.Value()) && |plain| < U32 && |all| < U32
      ensures answer.Some? <==> |plain| % 8 == 0 && plain != []
      ensures answer.Some? ==> answer.value == G.Reply(G.Selected(Requested(plain, all), pool.apool, uid))
    {
      hide Inv, G.Reply, G.Selected;
      var ids := IdList(plain, all);
      if ids.None? { return None; }
      forall id | id in pool.apool ensures Sized(pool.apool[id]) { ProperParts(cfg, pool.Value(), id); }
      var buf := G.EncodeReply(ids.value, pool.apool, uid);
      answer := Some(buf);
    }

    /** The operation that the flags name. */
    method Perform(cfg: Config, e: Entry, plain: seq<byte>, hash: nat -> nat, now: nat, all: seq<nat>, ghost bound: nat)
      returns (answer: Option<seq<byte>>, id: nat)
      requires Lawful(cfg) && Inv(cfg, pool.Value()) && Ready(cfg, e.(subj := plain)) && now < U32
      requires |plain| < U32 && |all| < U32 && (NEW in e.flags || DEL in e.flags || GET in e.flags)
      requires hash(bound) != 0 && hash(bound) !in pool.apool && forall k: nat :: hash(k) < U64
      modifies pool, `serialize
      ensures Inv(cfg, pool.Value())
      ensures NEW in e.flags && answer.Some? ==> 0 < id < U64 && id !in old(pool.apool) && id in pool.apool
      ensures forall peer, key :: var r := Operate(cfg, old(pool.Value()), e, plain, Env(peer, key, id, now, all));
                pool.Value() == r.state && answer == r.answer && serialize == (old(serialize) || r.dirty)
    {
      hide Inv, Lawful, Ready, Created, DeletedAll, G.Reply, G.Selected, G.Ascii, Requested, StopReply, RunReply;
      id := 0;
      if NEW in e.flags {
        answer, id := OpNew(cfg, e, plain, hash, now, bound);
      } else if DEL in e.flags {
        answer := OpDel(cfg, e.uid, plain, all);
      } else if GET in e.flags {
        answer := OpGet(cfg, e.uid, plain, all);
      } else {
        assert false;
      }
    }
  
    /** process_daemon_recv_update() up to the operation: authorize, then decrypt. */
    method RecvAuthorize(cfg: Config, c: Crypto, fd: nat, req: Request, data: seq<byte>, peer: Peer, key: seq<byte>)
      returns (e: Entry, cipher: Cipher, plain: Option<seq<byte>>)
      requires InFlight(cfg, req, fd) && |data| == SESSION + req.psize
      ensures forall id, now, all :: var u := Understood(cfg, c, req, data, Env(peer, key, id, now, all));
                (plain.Some? <==> u.Some?) && (u.Some? ==> u.value == (e, cipher, plain.value))
    {
      hide InFlight, Permitted, Identity;
      InFlightFlags(cfg, req, fd);
      e, cipher, plain := req.entry, req.cipher, None;
      if INIT !in e.flags { assert false; }
      if COMPLETE in e.flags || FINISH in e.flags { assert false; }
      if |data| != SESSION + req.psize { assert false; }
      var ret;
      e, ret := Authorize(e, peer, cfg.lists);
      if ret < 0 { return; }
      if FINISH in e.flags { assert false; }
      e := Set(e, FINISH);
      if AUTHORIZED !in e.flags { return; }
      var payload := data[SESSION..];
      if peer.Remote? {
        cipher := Cipher(key, 0);
        cipher := cipher.(nonce := cipher.nonce + 1);
        plain := c.dec(cipher.key, cipher.nonce, payload);
      } else {
        plain := Some(payload);
      }
    }

    /** notify_read() on a payload: the request leaves the request pool and its answer goes out. */
    method ReadPayload(cfg: Config, c: Crypto, fd: nat, data: seq<byte>, peer: Peer, key: seq<byte>,
                       hash: nat -> nat, now: nat, all: seq<nat>, ghost bound: nat)
      returns (ghost env: Env, signalled: bool)
      requires Lawful(cfg) && Sound(c) && Valid(cfg) && fd in rpool && fd in phases && phases[fd].AwaitPayload?
      requires |data| == SESSION + rpool[fd].psize && now < U32 && SmallPeer(peer) && |all| < U32
      requires c.extra == cfg.extra && rpool[fd].remote == peer.Remote?
      requires hash(bound) != 0 && hash(bound) !in pool.apool && forall k: nat :: hash(k) < U64
      modifies this, pool
      ensures Valid(cfg) && env.peer == peer && env.key == key && env.now == now && env.all == all
      ensures var t := OnPayload(cfg, c, old(pool.Value()), old(rpool[fd]), data, env);
              && pool.Value() == t.state
              && phases == (if t.phase.Some? then old(phases)[fd := t.phase.value] else old(phases) - {fd})
              && serialize == (old(serialize) || t.dirty)
              && signalled == (t.phase.Some? && serialize)
    {
      hide Inv, Lawful, Sound, InFlight, Tables, Understood, Operate, Frame, Ready, Done;
      signalled := false;
      TablesKeys(cfg, conns, rpool, phases);
      TablesAt(cfg, conns, rpool, phases, fd);
      TablesDrop(cfg, conns, rpool, phases, fd);
      var req := rpool[fd];
      rpool := rpool - {fd};
      var e, cipher, plain := RecvAuthorize(cfg, c, fd, req, data, peer, key);
      env := Env(peer, key, 0, now, all);
      if plain.None? {
        Close(fd);
        assert rpool == old(rpool) - {fd};
        return;
      }
      UnderstoodReady(cfg, c, req, fd, data, env);
      ghost var before := pool.Value();
      var answer, id := Perform(cfg, e, plain.value, hash, now, all, bound);
      env := Env(peer, key, id, now, all);
      assert Understood(cfg, c, req, data, env) == Some((e, cipher, plain.value));
      OperateDone(cfg, before, e, plain.value, env);
      assert pool.Value() == Operate(cfg, before, e, plain.value, env).state;
      if answer.None? {
        Close(fd);
        assert rpool == old(rpool) - {fd};
        return;
      }
      var reply := Frame(Encrypt(c, cipher, answer.value).1);
      if FINISH !in e.flags { assert false; }
      if NEW in e.flags {
        DoneIs(pool.apool[id]);
        pool.Complete(cfg, id);
      }
      signalled := serialize;
      TablesSet(cfg, conns, old(rpool), phases, fd, Write(reply), None, SendReply(reply));
      conns, phases := conns[fd := Write(reply)], phases[fd := SendReply(reply)];
    }
  
    /**
     * notify_read(): a complete read is a payload if a request is pending and a header if not; anything else
     * ends the connection. The two kinds of read never meet the wrong phase.
     */
    method NotifyRead(cfg: Config, c: Crypto, fd: nat, data: seq<byte>, complete: bool, world: World, ghost bound: nat)
      returns (ghost env: Env)
      requires Lawful(cfg) && Sound(c) && Valid(cfg) && fd in conns && conns[fd].Read?
      requires world.Fits() && world.hash(bound) != 0 && world.hash(bound) !in pool.apool
      requires forall k: nat :: world.hash(k) < U64
      requires c.extra == cfg.extra && (fd in rpool ==> rpool[fd].remote == world.peer.Remote?)
      requires complete && |data| == HEADER && fd !in rpool ==>
                 WellFormed(HeaderEntry(fd, data), HeaderSize(data), if world.peer.Remote? then cfg.extra else 0)
      modifies this, pool
      ensures Valid(cfg) && fd in old(phases) && (old(phases[fd]).AwaitHeader? || old(phases[fd]).AwaitPayload?)
      ensures old(conns[fd].count) == Wanted(old(phases[fd]))
      ensures !complete || |data| != Wanted(old(phases[fd])) ==>
                phases == old(phases) - {fd} && pool.Value() == old(pool.Value())
      ensures complete && |data| == Wanted(old(phases[fd])) && old(phases[fd]).AwaitHeader? ==>
                var p := OnHeader(fd, data, cfg.msgSize, world.peer.Remote?, world.session);
                && phases == (if p.Some? then old(phases)[fd := p.value] else old(phases) - {fd})
                && pool.Value() == old(pool.Value())
      ensures complete && |data| == Wanted(old(phases[fd])) && old(phases[fd]).AwaitPayload? ==>
                var t := OnPayload(cfg, c, old(pool.Value()), old(phases[fd]).req, data, env);
                && phases == (if t.phase.Some? then old(phases)[fd := t.phase.value] else old(phases) - {fd})
                && pool.Value() == t.state
    {
      hide Inv, Lawful, Sound, InFlight, Tables, WellFormed, HeaderEntry, HeaderSize, OnHeader, OnPayload;
      env := Env(world.peer, world.key, 0, world.now, world.all);
      TablesAt(cfg, conns, rpool, phases, fd);
      TablesDrop(cfg, conns, rpool, phases, fd);
      if complete && |data| == conns[fd].count {
        if fd in rpool {
          var signalled;
          env, signalled :=
            ReadPayload(cfg, c, fd, data, world.peer, world.key, world.hash, world.now, world.all, bound);
        } else {
          ReadHeader(cfg, fd, data, cfg.msgSize, world.peer.Remote?, world.session);
        }
      } else {
        Close(fd);
      }
    }
  }

  lemma TablesKeys(cfg: Config, conns: map<nat, Aop>, rpool: map<nat, Request>, phases: map<nat, Phase>)
    requires Tables(cfg, conns, rpool, phases)
    ensures conns.Keys == phases.Keys && rpool.Keys <= conns.Keys
  {
  }

  lemma WellFormedFlags(e: Entry, psize: nat, hidden: nat)
    requires WellFormed(e, psize, hidden)
    ensures FINISH !in e.flags && AUTHORIZED !in e.flags && INIT !in e.flags
  {
  }

  lemma InFlightFlags(cfg: Config, req: Request, fd: nat)
    requires InFlight(cfg, req, fd)
    ensures PROGRESS in req.entry.flags && INIT in req.entry.flags && AUTHORIZED !in req.entry.flags
    ensures FINISH !in req.entry.flags && COMPLETE !in req.entry.flags
  {
  }

  lemma DoneIs(e: Entry)
    ensures Done(e) == Set(Unset(e, PROGRESS), COMPLETE)
  {
  }

  lemma UnderstoodReady(cfg: Config, c: Crypto, req: Request, fd: nat, data: seq<byte>, env: Env)
    requires Sound(c) && InFlight(cfg, req, fd) && SmallPeer(env.peer) && |data| == SESSION + req.psize
    requires c.extra == cfg.extra && env.peer.Remote? == req.remote
    requires Understood(cfg, c, req, data, env).Some?
    ensures var (e, cipher, plain) := Understood(cfg, c, req, data, env).value;
            && Ready(cfg, e.(subj := plain)) && |plain| < U32 && FINISH in e.flags
            && (NEW in e.flags || DEL in e.flags || GET in e.flags)
  {
    hide Sound, InFlight, Ready, Permitted;
    var (e, cipher, plain) := Understood(cfg, c, req, data, env).value;
    InFlightSize(cfg, req, fd);
    PlainFits(c, Keyed(req.cipher, env), env.peer.Remote?, data[SESSION..]);
    AdmittedReady(cfg, req, fd, env.peer, plain);
    InFlightOperation(cfg, req, fd);
  }

  lemma InFlightOperation(cfg: Config, req: Request, fd: nat)
    requires InFlight(cfg, req, fd)
    ensures NEW in req.entry.flags || DEL in req.entry.flags || GET in req.entry.flags
  {
  }
}
