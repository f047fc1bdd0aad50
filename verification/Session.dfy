/**
 * Client and daemon on one connection, with the bytes in flight between them.
 * conn_client_process() against the daemon's callbacks: each side only moves when it can, in any order.
 */
module Session {
  import opened Bytes
  import opened Entries
  import opened Limits
  import opened Pool
  import opened Protocol
  import opened Wire
  import opened Wrappers
  import G = GetReply
  import R = PoolRuns

  // ---- The client's header ----

  /** A request the client has queued: the entry's header fields and the plain payload. */
  datatype Outgoing = Outgoing(entry: Entry, payload: seq<byte>)

  /** The first block of the struct, fields in network order, as the client writes it. */
  function ClientHeader(e: Entry, psize: nat, session: seq<byte>): (s: seq<byte>) {
    Image(Widths(), Converted(Words(e))) + e.outdata + (Le(Hton(psize, 4), 4) + (e.username + session))
  }

  lemma HtonTwice(v: nat, w: nat)
    requires (w == 4 && v < U32) || (w == 8 && v < U64)
    ensures Hton(v, w) < Range(w) && Hton(Hton(v, w), w) == v
  {
    hide Hton, Range;
    Range4();
    HtonLayout(v, w);
  }

  lemma ConvertedTwice(vs: seq<nat>)
    requires Fits(Widths(), vs)
    ensures Fits(Widths(), Converted(vs)) && Converted(Converted(vs)) == vs
  {
    hide Hton, Range;
    Range4();
    HtonTwice(vs[0], 8);
    HtonTwice(vs[1], 4);
    HtonTwice(vs[2], 4);
    HtonTwice(vs[3], 4);
    HtonTwice(vs[4], 4);
    HtonTwice(vs[5], 4);
    HtonTwice(vs[6], 4);
    var c := Converted(vs);
    assert forall i :: 7 <= i < 12 ==> c[i] == vs[i];
    var d := Converted(c);
    assert forall i :: 7 <= i < 12 ==> d[i] == c[i];
  }

  /** The daemon reads out of a header exactly what the client put in. */
  lemma HeaderBack(fd: nat, e: Entry, psize: nat, session: seq<byte>)
    requires Sized(e) && psize < U32 && |session| == SESSION && e.username[USERNAME_MAX - 1] == 0
    requires e.subj == [] && e.timer == 0 && e.createTime == 0 && e.signature == Zeros(SIGNATURE_SIZE)
    ensures var h := ClientHeader(e, psize, session);
            |h| == HEADER && HeaderSize(h) == psize && HeaderEntry(fd, h) == e.(id := fd)
  {
    hide Image, Load, Hton, Le, FromLe, Words, Widths, Converted, Zeros, FromWords, Width;
    HeaderParts(e, psize, session);
    WordsFit(e);
    ConvertedTwice(Words(e));
    LoadOfImage(Widths(), Converted(Words(e)));
    SizeTwice(psize);
    FromWordsOfWords(e);
    assert e.username == e.username[..USERNAME_MAX - 1] + [0];
  }

  lemma SizeTwice(psize: nat)
    requires psize < U32
    ensures Hton(FromLe(Le(Hton(psize, 4), 4)), 4) == psize
  {
    hide Hton, Le, FromLe, Range;
    HtonTwice(psize, 4);
    FromLeOfLe(Hton(psize, 4), 4);
  }

  lemma HeaderParts(e: Entry, psize: nat, session: seq<byte>)
    requires Sized(e) && |session| == SESSION
    ensures Width(Widths()) == 60
    ensures var h := ClientHeader(e, psize, session);
            && |h| == HEADER && h[..60] == Image(Widths(), Converted(Words(e))) && h[60..4156] == e.outdata
            && h[4156..4160] == Le(Hton(psize, 4), 4)
            && h[4160..4160 + USERNAME_MAX - 1] == e.username[..USERNAME_MAX - 1]
  {
    hide Image, Hton, Le, Words, Widths, Converted, Width;
    WidthsSum();
  }

  // ---- The two programs ----

  datatype Client =
    | Ready(k: nat)
    | WaitSession(k: nat)
    | WaitSize(k: nat, cipher: Cipher)
    | WaitBody(k: nat, cipher: Cipher, n: nat)
    | Broken

  /** What does not change during a connection. */
  datatype Link = Link(
    outs: seq<Outgoing>, remote: bool, fd: nat,
    keyOf: nat -> seq<byte>, proof: nat -> seq<byte>, cfg: Config, crypto: Crypto)

  /** Both programs, the unread bytes in each direction, what the daemon answered and what the client got. */
  datatype Sys = Sys(client: Client, phase: Option<Phase>, up: seq<byte>, down: seq<byte>,
                     state: State, served: seq<seq<byte>>, got: seq<seq<byte>>)

  function Hidden(l: Link): nat {
    if l.remote then l.crypto.extra else 0
  }

  function HeaderOf(l: Link, k: nat): seq<byte>
    requires k < |l.outs|
  {
    var o := l.outs[k];
    ClientHeader(o.entry, |o.payload| + Hidden(l), l.proof(k))
  }

  /** The client's cipher and the payload as sent, once the session token was processed. */
  function Sealed(l: Link, k: nat): (Cipher, seq<byte>)
    requires k < |l.outs|
  {
    if l.remote then Encrypt(l.crypto, Cipher(l.keyOf(k), 0), l.outs[k].payload)
    else (Cipher(Zeros(KEY_SIZE), 0), l.outs[k].payload)
  }

  function ClientMove(l: Link, s: Sys): Sys {
    match s.client
    case Ready(k) =>
      if k >= |l.outs| then s else s.(client := WaitSession(k), up := s.up + HeaderOf(l, k))
    case WaitSession(k) =>
      if |s.down| < SESSION || k >= |l.outs| then s
      else
        var (cipher, payload) := Sealed(l, k);
        var token := if l.remote then l.proof(k) else s.down[..SESSION];
        s.(client := WaitSize(k, cipher), down := s.down[SESSION..], up := s.up + (token + payload))
    case WaitSize(k, cipher) =>
      if |s.down| < 4 then s
      else s.(client := WaitBody(k, cipher, (Hton(FromLe(s.down[..4]), 4) + U32 - 4) % U32), down := s.down[4..])
    case WaitBody(k, cipher, n) =>
      if |s.down| < n then s
      else
        var plain := Decrypt(l.crypto, cipher, s.down[..n]).1;
        if plain.None? then s.(client := Broken, down := s.down[n..])
        else s.(client := Ready(k + 1), down := s.down[n..], got := s.got + [plain.value])
    case Broken => s
  }

  /** The plain answer to a payload. */
  function Answer(l: Link, s: State, req: Request, data: seq<byte>, env: Env): Option<seq<byte>>
    requires |data| == SESSION + req.psize
  {
    var u := Understood(l.cfg, l.crypto, req, data, env);
    if u.None? then None else Operate(l.cfg, s, Done(u.value.0), u.value.2, env).answer
  }

  function DaemonMove(l: Link, s: Sys, session: Option<seq<byte>>, env: Env): Sys {
    if s.phase.None? then s
    else
      match s.phase.value
      case AwaitHeader =>
        if |s.up| < HEADER then s
        else s.(up := s.up[HEADER..], phase := OnHeader(l.fd, s.up[..HEADER], l.cfg.msgSize, l.remote, session))
      case SendSession(req) => s.(down := s.down + req.session, phase := Some(AwaitPayload(req)))
      case AwaitPayload(req) =>
        var n := SESSION + req.psize;
        if |s.up| < n then s
        else
          var t := OnPayload(l.cfg, l.crypto, s.state, req, s.up[..n], env);
          var answer := Answer(l, s.state, req, s.up[..n], env);
          s.(up := s.up[n..], phase := t.phase, state := t.state,
             served := s.served + if answer.Some? then [answer.value] else [])
      case SendReply(reply) => s.(down := s.down + reply, phase := Some(AwaitHeader))
  }

  /** A move of either end, or of another connection or a timer on the pools that all share. */
  datatype Event = ClientMoves | DaemonMoves(session: Option<seq<byte>>, env: Env) | OthersMove(state: State)

  function Move(l: Link, s: Sys, ev: Event): Sys {
    match ev
    case ClientMoves => ClientMove(l, s)
    case DaemonMoves(session, env) => DaemonMove(l, s, session, env)
    case OthersMove(state) => s.(state := state)
  }

  // ---- Assumptions on the world ----

  ghost predicate Proper(l: Link) {
    && Sound(l.crypto)
    && (forall k: nat :: |l.proof(k)| == SESSION)
    && forall k :: 0 <= k < |l.outs| ==> GoodOut(l, l.outs[k])
  }

  predicate GoodOut(l: Link, o: Outgoing) {
    && Sized(o.entry) && |o.payload| + Hidden(l) < U32 && o.entry.username[USERNAME_MAX - 1] == 0
    && o.entry.subj == [] && o.entry.timer == 0 && o.entry.createTime == 0 && o.entry.signature == Zeros(SIGNATURE_SIZE)
  }

  /** The key exchange agrees, the peer is of the connection's kind, and an answer fits its size word. */
  predicate Admissible(l: Link, s: Sys, ev: Event) {
    ev.DaemonMoves? ==>
      && (ev.session.Some? ==> |ev.session.value| == SESSION)
      && ev.env.peer.Remote? == l.remote
      && (l.remote ==> ev.env.key == l.keyOf(|s.served|))
      && (s.phase.Some? && s.phase.value.AwaitPayload? && |s.up| >= SESSION + s.phase.value.req.psize ==>
            var answer := Answer(l, s.state, s.phase.value.req, s.up[..SESSION + s.phase.value.req.psize], ev.env);
            answer.Some? ==> |answer.value| + l.crypto.extra + 4 < U32)
  }

  // ---- Lock step ----

  /** The request the daemon keeps for the k-th header. */
  predicate Matches(l: Link, k: nat, req: Request) {
    k < |l.outs| && req.psize == |l.outs[k].payload| + Hidden(l) && |req.session| == SESSION
    && req.cipher == Cipher(Zeros(KEY_SIZE), 0)
    && req.entry == Set(Set(l.outs[k].entry.(id := l.fd), PROGRESS), INIT)
  }

  /** A reply the client can open with its cipher as it stands. */
  predicate Opens(l: Link, cipher: Cipher, frame: seq<byte>, answer: seq<byte>) {
    var q := l.crypto.enc(cipher.key, cipher.nonce + 1, answer);
    4 + |q| < U32 && frame == Frame(q)
  }

  predicate Lockstep(l: Link, s: Sys) {
    && s.got <= s.served
    && match s.client
       case Ready(k) =>
         |s.served| == |s.got| == k && s.up == [] && s.down == [] && s.phase == Some(AwaitHeader)
       case WaitSession(k) =>
         && |s.served| == |s.got| == k && k < |l.outs|
         && (s.phase.None? || match s.phase.value
             case AwaitHeader => s.up == HeaderOf(l, k) && s.down == []
             case SendSession(req) => Matches(l, k, req) && s.up == [] && s.down == []
             case AwaitPayload(req) => Matches(l, k, req) && s.up == [] && |s.down| == SESSION
             case SendReply(_) => false)
         && (s.phase.None? ==> s.down == [])
       case WaitSize(k, cipher) =>
         && |s.got| == k && k < |l.outs| && cipher == Sealed(l, k).0
         && (s.phase.None? || match s.phase.value
             case AwaitHeader =>
               |s.served| == k + 1 && s.up == [] && Opens(l, cipher, s.down, s.served[k])
             case SendSession(req) => false
             case AwaitPayload(req) =>
               && |s.served| == k && Matches(l, k, req) && s.down == []
               && |s.up| == SESSION + req.psize && s.up[SESSION..] == Sealed(l, k).1
             case SendReply(reply) =>
               |s.served| == k + 1 && s.up == [] && s.down == [] && Opens(l, cipher, reply, s.served[k]))
         && (s.phase.None? ==> s.down == [])
       case WaitBody(k, cipher, n) =>
         && |s.got| == k && |s.served| == k + 1 && k < |l.outs| && s.up == [] && s.phase == Some(AwaitHeader)
         && s.down == l.crypto.enc(cipher.key, cipher.nonce + 1, s.served[k]) && n == |s.down|
       case Broken => false
  }

  lemma ClientKeepsStep(l: Link, s: Sys)
    requires Proper(l) && Lockstep(l, s)
    ensures Lockstep(l, ClientMove(l, s))
  {
    hide Hton, FromLe, Frame, Proper, ClientHeader, Sound, Zeros;
    match s.client {
      case Ready(k) => if k < |l.outs| { assert [] + HeaderOf(l, k) == HeaderOf(l, k); }
      case WaitSession(k) => ProofSize(l, k); if |s.down| >= SESSION { SealedSize(l, k); }
      case WaitSize(k, cipher) =>
        if |s.down| >= 4 {
          FrameIs(l.crypto.enc(cipher.key, cipher.nonce + 1, s.served[k]));
        }
      case WaitBody(k, cipher, n) =>
        assert s.down[..n] == s.down && s.down[n..] == [];
        OpensAt(l, cipher, s.served[k]);
        assert s.served == s.got + [s.served[k]];
      case Broken =>
    }
  }

  lemma ProofSize(l: Link, k: nat)
    requires Proper(l)
    ensures |l.proof(k)| == SESSION
  {
  }

  lemma OpensAt(l: Link, cipher: Cipher, answer: seq<byte>)
    requires Proper(l)
    ensures Decrypt(l.crypto, cipher, l.crypto.enc(cipher.key, cipher.nonce + 1, answer)).1 == Some(answer)
  {
  }

  lemma SealedSize(l: Link, k: nat)
    requires Proper(l) && k < |l.outs|
    ensures |Sealed(l, k).1| == |l.outs[k].payload| + Hidden(l)
  {
  }

  lemma HeaderOfIs(l: Link, k: nat)
    requires Proper(l) && k < |l.outs|
    ensures |HeaderOf(l, k)| == HEADER && HeaderSize(HeaderOf(l, k)) == |l.outs[k].payload| + Hidden(l)
    ensures HeaderEntry(l.fd, HeaderOf(l, k)) == l.outs[k].entry.(id := l.fd)
  {
    hide ClientHeader, HeaderSize, HeaderEntry, Sound;
    var o := l.outs[k];
    assert GoodOut(l, o);
    HeaderBack(l.fd, o.entry, |o.payload| + Hidden(l), l.proof(k));
  }

  /** The daemon decrypts with the key and counter the client encrypted with, and sees the client's payload. */
  lemma PayloadUnderstood(l: Link, k: nat, req: Request, data: seq<byte>, env: Env)
    requires Proper(l) && Matches(l, k, req) && |data| == SESSION + req.psize && data[SESSION..] == Sealed(l, k).1
    requires env.peer.Remote? == l.remote && (l.remote ==> env.key == l.keyOf(k))
    requires Understood(l.cfg, l.crypto, req, data, env).Some?
    ensures var u := Understood(l.cfg, l.crypto, req, data, env).value;
            u.1 == Sealed(l, k).0 && u.2 == l.outs[k].payload
  {
  }

  lemma DaemonKeepsStep(l: Link, s: Sys, session: Option<seq<byte>>, env: Env)
    requires Proper(l) && Lockstep(l, s) && Admissible(l, s, DaemonMoves(session, env))
    ensures Lockstep(l, DaemonMove(l, s, session, env))
  {
    hide Proper, HeaderOf, HeaderEntry, HeaderSize, Understood, Operate, Frame, Sealed, Sound, Zeros, Done;
    if s.phase.Some? {
      match s.phase.value {
        case AwaitHeader =>
          if |s.up| >= HEADER {
            var k := s.client.k;
            HeaderOfIs(l, k);
            assert s.up[..HEADER] == s.up && s.up[HEADER..] == [];
          }
        case SendSession(req) => assert [] + req.session == req.session;
        case AwaitPayload(req) => if |s.up| >= SESSION + req.psize { PayloadStep(l, s, req, session, env); }
        case SendReply(reply) => assert [] + reply == reply;
      }
    }
  }

  lemma PayloadStep(l: Link, s: Sys, req: Request, session: Option<seq<byte>>, env: Env)
    requires Proper(l) && Lockstep(l, s) && Admissible(l, s, DaemonMoves(session, env))
    requires s.phase == Some(AwaitPayload(req)) && |s.up| >= SESSION + req.psize
    ensures Lockstep(l, DaemonMove(l, s, session, env))
  {
    hide Proper, HeaderOf, Understood, Operate, Frame, Sealed, Sound, Zeros, Done;
    var n := SESSION + req.psize;
    assert s.client.WaitSize?;
    var k := s.client.k;
    assert s.up[..n] == s.up && s.up[n..] == [];
    if Understood(l.cfg, l.crypto, req, s.up, env).Some? {
      PayloadUnderstood(l, k, req, s.up, env);
      var answer := Answer(l, s.state, req, s.up, env);
      if answer.Some? {
        var cipher := Sealed(l, k).0;
        EncSize(l, cipher, answer.value);
        assert (s.served + [answer.value])[k] == answer.value;
      } else {
        assert s.served + [] == s.served;
      }
    } else {
      assert s.served + [] == s.served;
    }
  }

  lemma EncSize(l: Link, cipher: Cipher, answer: seq<byte>)
    requires Proper(l)
    ensures |l.crypto.enc(cipher.key, cipher.nonce + 1, answer)| == |answer| + l.crypto.extra
  {
  }

  /** The two ends do not depend on what others do to the pools. */
  lemma OthersKeepStep(l: Link, s: Sys, state: State)
    requires Lockstep(l, s)
    ensures Lockstep(l, s.(state := state))
  {
  }

  // ---- Runs ----

  function Run(l: Link, s: Sys, evs: seq<Event>): Sys {
    if evs == [] then s else Move(l, Run(l, s, evs[..|evs| - 1]), evs[|evs| - 1])
  }

  ghost predicate AllAdmissible(l: Link, s: Sys, evs: seq<Event>) {
    evs == [] ||
    (AllAdmissible(l, s, evs[..|evs| - 1]) && Admissible(l, Run(l, s, evs[..|evs| - 1]), evs[|evs| - 1]))
  }

  /** In every run, in whatever order the two ends move, they stay in lock step. */
  lemma {:induction false} RunKeepsStep(l: Link, s: Sys, evs: seq<Event>)
    requires Proper(l) && Lockstep(l, s) && AllAdmissible(l, s, evs)
    ensures Lockstep(l, Run(l, s, evs))
    decreases |evs|
  {
    hide Proper, Lockstep, Admissible, ClientMove, DaemonMove;
    if evs != [] {
      RunKeepsStep(l, s, evs[..|evs| - 1]);
      var t := Run(l, s, evs[..|evs| - 1]);
      match evs[|evs| - 1] {
        case ClientMoves => ClientKeepsStep(l, t);
        case DaemonMoves(session, env) => DaemonKeepsStep(l, t, session, env);
        case OthersMove(state) => OthersKeepStep(l, t, state);
      }
    }
  }

  function Start(state: State): Sys {
    Sys(Ready(0), Some(AwaitHeader), [], [], state, [], [])
  }

  /** How many bytes an end that is about to read asks for; the size word announces the rest of a reply. */
  function Asked(s: Sys): (int, int) {
    (match s.client
     case WaitSession(_) => SESSION
     case WaitSize(_, _) => if |s.down| < 4 then 4 else Hton(FromLe(s.down[..4]), 4)
     case WaitBody(_, _, n) => n
     case _ => 0,
     if s.phase.Some? && s.phase.value.AwaitHeader? then HEADER
     else if s.phase.Some? && s.phase.value.AwaitPayload? then SESSION + s.phase.value.req.psize
     else 0)
  }

  /**
   * Reads and writes pair up: whenever bytes are there for an end that is reading, they are exactly as many as
   * it asks for. The client never meets a reply it cannot decrypt, and gets the answers in order.
   */
  lemma ReadsMatchWrites(l: Link, s: Sys)
    requires Proper(l) && Lockstep(l, s)
    ensures s.down != [] ==> |s.down| == Asked(s).0
    ensures s.phase.Some? && s.up != [] ==> |s.up| == Asked(s).1
    ensures !s.client.Broken? && s.got <= s.served
  {
    hide Proper, Frame, Sound, Sealed, HeaderOf, Zeros, Hton, FromLe;
    match s.client {
      case WaitSession(k) => HeaderOfIs(l, k);
      case WaitSize(k, cipher) =>
        if s.phase.Some? && s.phase.value.AwaitHeader? {
          FrameIs(l.crypto.enc(cipher.key, cipher.nonce + 1, s.served[k]));
        }
      case _ =>
    }
  }

  /**
   * A whole exchange, from an idle connection through any interleaving: the ends are in step, every pending read
   * finds exactly the bytes it asks for, no reply fails to decrypt, and the client has the daemon's answers in order.
   */
  lemma EveryExchange(l: Link, state: State, evs: seq<Event>)
    requires Proper(l) && AllAdmissible(l, Start(state), evs)
    ensures var s := Run(l, Start(state), evs);
            && Lockstep(l, s) && !s.client.Broken? && s.got <= s.served
            && (s.down != [] ==> |s.down| == Asked(s).0)
            && (s.phase.Some? && s.up != [] ==> |s.up| == Asked(s).1)
  {
    hide Proper, Run, AllAdmissible, Asked;
    RunKeepsStep(l, Start(state), evs);
    ReadsMatchWrites(l, Run(l, Start(state), evs));
  }

  /** Unless the daemon closed the connection or every request was answered, one of the two can move. */
  lemma NeverStuck(l: Link, s: Sys, session: Option<seq<byte>>, env: Env)
    requires Proper(l) && Lockstep(l, s) && s.phase.Some? && s.client != Ready(|l.outs|) && |s.got| <= |l.outs|
    ensures ClientMove(l, s) != s || DaemonMove(l, s, session, env) != s
  {
    hide Proper, Frame, Sound, HeaderOf, Zeros, Hton, FromLe, OnHeader, OnPayload, Answer, Sealed, Decrypt;
    match s.client {
      case Ready(k) =>
      case WaitSession(k) => HeaderOfIs(l, k);
      case WaitSize(k, cipher) =>
        if s.phase.value.AwaitHeader? { FrameIs(l.crypto.enc(cipher.key, cipher.nonce + 1, s.served[k])); }
        if s.phase.value.AwaitPayload? { assert s.up[SESSION + s.phase.value.req.psize..] == []; }
      case WaitBody(_, _, _) =>
    }
  }

  // ---- What the client makes of an answer ----

  lemma {:induction false} FirstOwnedShort(s: State, ids: seq<nat>, uid: nat)
    ensures |FirstOwned(s, ids, uid)| <= |ids|
    decreases |ids|
  {
    hide Owns;
    if ids != [] { FirstOwnedShort(s, ids[..|ids| - 1], uid); }
  }

  /** A run request is answered with the new id, a stop request with the deleted ids in order. */
  lemma AnswersMean(cfg: Config, s: State, e: Entry, plain: seq<byte>, env: Env)
    requires Inv(cfg, s) && env.id < U64 && |plain| < U32 && |env.all| < U32
    requires Operate(cfg, s, e, plain, env).answer.Some?
    ensures var a := Operate(cfg, s, e, plain, env).answer.value;
            && (NEW in e.flags ==> |a| == 8 && ReadRun(a) == env.id)
            && (NEW !in e.flags && DEL in e.flags ==>
                  ReadStop(a) == Some(FirstOwned(s, Requested(plain, env.all), e.uid)))
  {
    hide Inv, DeletedAll, G.Reply, G.Selected, G.Ascii, FirstOwned, ReadStop, StopReply, ReadRun, RunReply, Created;
    if NEW in e.flags {
      RepliesBack(env.id, []);
      RunReplySize(env.id);
    } else if DEL in e.flags {
      var ids := Requested(plain, env.all);
      DeletedAllExact(cfg, s, ids, e.uid);
      FirstOwnedShort(s, ids, e.uid);
      forall x | x in FirstOwned(s, ids, e.uid) ensures x < U64 { ProperParts(cfg, s, x); }
      RepliesBack(env.id, FirstOwned(s, ids, e.uid));
    }
  }

  lemma RunReplySize(id: nat)
    ensures |RunReply(id)| == 8
  {
  }

  /** A show request is answered with every visible entry requested, whole and in order. */
  lemma ListingMeans(cfg: Config, s: State, e: Entry, plain: seq<byte>, env: Env)
    requires Inv(cfg, s) && |plain| < U32 && |env.all| < U32 && NEW !in e.flags && DEL !in e.flags
    requires Operate(cfg, s, e, plain, env).answer.Some?
    ensures var a := Operate(cfg, s, e, plain, env).answer.value;
            var es := G.Selected(Requested(plain, env.all), s.apool, e.uid);
            G.DecodeReply(a) == G.Listing(G.ShownAll(es), |a|)
  {
    hide Inv, G.Reply, G.Selected, G.DecodeReply, G.ShownAll, G.Ascii;
    var ids := Requested(plain, env.all);
    var es := G.Selected(ids, s.apool, e.uid);
    forall x | x in es ensures Sized(x) && G.GoodSubject(x) {
      R.SelectedOwned(ids, s, e.uid, x);
      var id :| id in ids && G.Visible(s.apool, id, e.uid) && s.apool[id] == x;
      ProperParts(cfg, s, id);
    }
    G.ReplyRoundTrip(es);
  }
}
