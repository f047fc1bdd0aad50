/**
 * The client from the command line to the daemon's pools: what was typed is what is sent, stored, stopped and shown.
 */
module Client {
  import opened Auth
  import opened Bytes
  import opened Compile
  import opened Entries
  import opened IdLists
  import opened Language
  import opened Limits
  import opened Logic
  import opened Parser
  import RequestArg
  import opened Wire
  import opened Wrappers
  import G = GetReply
  import P = Pool
  import Protocol
  import Q = Requests
  import S = Session
  import T = Tokenizer

  /** Whom the client claims to be: the account it sends and the user name, which is empty on a local connection. */
  datatype Claim = Claim(account: Account, username: seq<byte>)

  predicate Sendable(who: Claim) {
    && who.account.uid < U32 && who.account.gid < U32
    && |who.username| == USERNAME_MAX && who.username[USERNAME_MAX - 1] == 0
  }

  /** Characters as the bytes they are in memory. */
  function BytesOf(s: string): (b: seq<byte>)
    ensures |b| == |s|
  {
    seq(|s|, i requires 0 <= i < |s| => s[i] as int % 256)
  }

  /** entry_client_init(): zeroed memory, the claim and a trigger. */
  function Blank(who: Claim, trigger: nat): Entry {
    Entry(0, {}, who.account.uid, who.account.gid, trigger, 0, 0, 0, 0, 0, 0, 0,
          Zeros(OUTPUT_MAX), who.username, [], 0, 0, Zeros(SIGNATURE_SIZE))
  }

  function If(b: bool, f: nat): (s: Flags)
    requires f < 32
  {
    if b then {f} else {}
  }

  predicate Word32(s: Scheduled) {
    0 <= s.trigger < U32 && 0 <= s.step < U32 && 0 <= s.expire < U32
  }

  /** A new entry as the logic pass sets it. */
  function EntryFor(s: Scheduled, who: Claim): Entry
    requires Word32(s)
  {
    Blank(who, s.trigger).(
      step := s.step, expire := s.expire,
      flags := {NEW} + If(s.relativeTrigger, RELATIVE_TRIGGER) + If(s.relativeExpire, RELATIVE_EXPIRE)
               + If(s.monthAlign, MONTHDAY_ALIGN) + If(s.yearAlign, YEARDAY_ALIGN))
  }

  /** The subject goes out with its NUL, once per schedule. */
  function Outs(es: seq<Scheduled>, subject: string, who: Claim): (os: seq<S.Outgoing>)
    requires forall i :: 0 <= i < |es| ==> Word32(es[i])
    ensures |os| == |es|
    ensures forall i :: 0 <= i < |es| ==> os[i] == S.Outgoing(EntryFor(es[i], who), BytesOf(subject) + [0])
  {
    seq(|es|, i requires 0 <= i < |es| => S.Outgoing(EntryFor(es[i], who), BytesOf(subject) + [0]))
  }

  function IdsOut(text: string, op: nat, who: Claim): Option<seq<S.Outgoing>>
    requires op < 32
  {
    match IdsOf(text)
    case None => None
    case Some(ids) => Some([S.Outgoing(Blank(who, 0).(flags := {op}), Ids(ids))])
  }

  /** What the client queues for a command, or None when it is refused. */
  function Typed(env: RequestArg.Env, cmd: string, who: Claim): Option<seq<S.Outgoing>> {
    match T.Arguments(T.Words(cmd))
    case None => None
    case Some(argv) =>
      match ParseInstruction(env, argv)
      case None => None
      case Some(Run(_, _)) =>
        (match Compiled(env, cmd)
         case None => None
         case Some(r) => CompiledWords(env, cmd); Some(Outs(r.1, r.0, who)))
      case Some(Stop(ids)) => IdsOut(ids, DEL, who)
      case Some(Show(ids)) => IdsOut(ids, GET, who)
  }

  lemma CompiledWords(env: RequestArg.Env, cmd: string)
    requires Compiled(env, cmd).Some?
    ensures forall i :: 0 <= i < |Compiled(env, cmd).value.1| ==> Word32(Compiled(env, cmd).value.1[i])
    ensures var argv := T.Arguments(T.Words(cmd));
            argv.Some? && ParseInstruction(env, argv.value).Some? && ParseInstruction(env, argv.value).value.Run?
  {
    hide T.Arguments, T.Words, ParseInstruction;
  }

  // ---- What was typed is what is sent ----

  /** The schedule that an entry carries. */
  function ScheduleIn(e: Entry): Scheduled {
    Scheduled(e.trigger, e.step, e.expire, RELATIVE_TRIGGER in e.flags, RELATIVE_EXPIRE in e.flags,
              MONTHDAY_ALIGN in e.flags, YEARDAY_ALIGN in e.flags)
  }

  lemma EntryForIs(s: Scheduled, who: Claim)
    requires Word32(s) && Sendable(who)
    ensures var e := EntryFor(s, who);
            && ScheduleIn(e) == s && NEW in e.flags && DEL !in e.flags && GET !in e.flags && INVALID !in e.flags
            && Sized(e) && (e.uid, e.gid, e.username) == (who.account.uid, who.account.gid, who.username)
            && e.subj == [] && e.timer == 0 && e.createTime == 0 && e.signature == Zeros(SIGNATURE_SIZE)
  {
  }

  /** A run command is sent as one new entry per job, each with the job's schedule, the claim and the subject. */
  lemma RunTyped(env: RequestArg.Env, subject: seq<string>, js: seq<Job>, who: Claim)
    requires GoodJobs(env, js) && Sendable(who)
    requires T.SolidWords('\'', subject) && T.Closable(T.Phrase('\'', subject))
    ensures var r := Typed(env, T.Printed(CommandTokens(subject, js)), who);
            && r.Some? && |r.value| == |js|
            && forall i :: 0 <= i < |js| ==>
                 var o := r.value[i];
                 && Fulfils(env, js[i], ScheduleIn(o.entry)) && NEW in o.entry.flags
                 && (o.entry.uid, o.entry.gid, o.entry.username) ==
                    (who.account.uid, who.account.gid, who.username)
                 && o.payload == BytesOf(T.Join(subject)) + [0]
  {
    hide T.Arguments, T.Words, T.Printed, T.Join, T.SolidWords, T.Closable, CommandTokens, GoodJobs, Fulfils, Compiled,
      ParseInstruction, EntryFor, ScheduleIn, BytesOf, Sendable;
    CompileCorrect(env, subject, js);
    CompiledWords(env, T.Printed(CommandTokens(subject, js)));
    var es := Compiled(env, T.Printed(CommandTokens(subject, js))).value.1;
    forall i | 0 <= i < |js| ensures ScheduleIn(EntryFor(es[i], who)) == es[i] && NEW in EntryFor(es[i], who).flags
      ensures var e := EntryFor(es[i], who);
              (e.uid, e.gid, e.username) == (who.account.uid, who.account.gid, who.username)
    {
      EntryForIs(es[i], who);
    }
  }

  /** stop ids and show ids, in any case. */
  function IdsTokens(word: string, ids: seq<nat>): seq<T.Token> {
    [T.Word(word), T.Word(PrintedIds(ids))]
  }

  lemma {:induction false} PrintedSolid(ids: seq<nat>)
    requires ids != []
    ensures T.Solid(PrintedIds(ids)) && PrintedIds(ids)[0] == '0'
  {
    var s := IdLists.Printed(ids[0]);
    PrintedPlain(ids[0]);
    assert forall i :: 2 <= i < 18 ==> s[i] == s[2..][i - 2];
    if |ids| > 1 { PrintedSolid(ids[1..]); }
  }

  lemma IdsArguments(word: string, ids: seq<nat>)
    requires ids != [] && (word == "stop" || word == "show")
    ensures T.Arguments(T.Words(T.Printed(IdsTokens(word, ids)))) == Some([word, PrintedIds(ids)])
  {
    hide T.Arguments, T.Words, T.Printed, PrintedIds;
    PrintedSolid(ids);
    var ts := IdsTokens(word, ids);
    T.TokenizePrinted(ts);
    assert T.Texts(ts) == [word, PrintedIds(ids)] by { TextsOfTwo(ts[0], ts[1]); }
  }

  lemma TextsOfTwo(a: T.Token, b: T.Token)
    ensures T.Texts([a, b]) == [T.Text(a), T.Text(b)]
  {
    assert [a, b][1..] == [b] && [b][1..] == [];
    assert T.Texts([b]) == [T.Text(b)] + T.Texts([]);
  }

  /** A stop or show command is sent as one request for exactly the ids that were typed, unless one of them is 0. */
  lemma IdsTyped(env: RequestArg.Env, ids: seq<nat>, who: Claim)
    requires ids != [] && forall id :: id in ids ==> id < U64
    ensures var stop, show := Typed(env, T.Printed(IdsTokens("stop", ids)), who),
                              Typed(env, T.Printed(IdsTokens("show", ids)), who);
            && (stop.Some? <==> 0 !in ids) && (show.Some? <==> 0 !in ids)
            && (0 !in ids ==>
                  && |stop.value| == |show.value| == 1
                  && stop.value[0].payload == show.value[0].payload == Ids(ids)
                  && stop.value[0].entry.flags == {DEL} && show.value[0].entry.flags == {GET}
                  && stop.value[0].entry.uid == show.value[0].entry.uid == who.account.uid
                  && stop.value[0].entry.gid == show.value[0].entry.gid == who.account.gid)
  {
    hide T.Arguments, T.Words, T.Printed, IdsOf, PrintedIds, Ids, IdsTokens;
    IdsArguments("stop", ids);
    IdsArguments("show", ids);
    IdsOfPrinted(ids);
    WordsFixed();
  }

  lemma WordsFixed()
    ensures Lower("stop") == "stop" && Lower("show") == "show"
  {
    LowerFixed("stop");
    LowerFixed("show");
  }

  /** "all" asks for everything the user has. */
  lemma AllTyped(env: RequestArg.Env, who: Claim)
    ensures T.Arguments(T.Words(T.Printed([T.Word("stop"), T.Word("all")]))) == Some(["stop", "all"])
    ensures var r := Typed(env, T.Printed([T.Word("stop"), T.Word("all")]), who);
            r.Some? && |r.value| == 1 && r.value[0].payload == Ids([0]) && r.value[0].entry.flags == {DEL}
  {
    hide T.Arguments, T.Words, T.Printed, Ids;
    var ts := [T.Word("stop"), T.Word("all")];
    T.TokenizePrinted(ts);
    TextsOfTwo(ts[0], ts[1]);
    WordsFixed();
    LowerFixed("all");
  }

  lemma TypedEntry(env: RequestArg.Env, cmd: string, who: Claim, k: nat) returns (s: Scheduled, run: bool)
    requires Typed(env, cmd, who).Some? && k < |Typed(env, cmd, who).value|
    ensures var e := Typed(env, cmd, who).value[k].entry;
            && Word32(s)
            && if run then e == EntryFor(s, who)
               else e == Blank(who, 0).(flags := {DEL}) || e == Blank(who, 0).(flags := {GET})
  {
    hide T.Arguments, T.Words, ParseInstruction, Compiled, IdsOf, BytesOf, Ids, EntryFor, Blank;
    s, run := Scheduled(0, 0, 0, false, false, false, false), false;
    if ParseInstruction(env, T.Arguments(T.Words(cmd)).value).value.Run? {
      CompiledWords(env, cmd);
      s, run := Compiled(env, cmd).value.1[k], true;
    }
  }

  lemma EntryForFlags(s: Scheduled, who: Claim)
    requires Word32(s)
    ensures var e := EntryFor(s, who);
            && (forall b :: b in e.flags ==> b <= RELATIVE_EXPIRE)
            && e.pid == 0 && e.status == 0 && e.execTime == 0 && e.latency == 0 && e.outLen == 0
  {
  }

  /** Whatever is typed, the client sends headers that the daemon takes for well formed, if the sizes fit. */
  lemma TypedWellFormed(env: RequestArg.Env, cmd: string, who: Claim, l: S.Link, k: nat)
    requires Sendable(who) && Typed(env, cmd, who) == Some(l.outs) && k < |l.outs|
    requires 0 < |l.outs[k].payload| && |l.outs[k].payload| + S.Hidden(l) + 1 < U32
    ensures S.GoodOut(l, l.outs[k])
    ensures Protocol.WellFormed(l.outs[k].entry, |l.outs[k].payload| + S.Hidden(l), S.Hidden(l))
  {
    hide Typed, EntryFor;
    var e := l.outs[k].entry;
    var s, run := TypedEntry(env, cmd, who, k);
    EntryForIs(s, who);
    EntryForFlags(s, who);
    assert exists op :: (op == NEW || op == DEL || op == GET) && e.flags * {NEW, DEL, GET} == {op} by {
      if NEW in e.flags {
        assert e.flags * {NEW, DEL, GET} == {NEW};
      } else if DEL in e.flags {
        assert e.flags * {NEW, DEL, GET} == {DEL};
      } else {
        assert e.flags * {NEW, DEL, GET} == {GET};
      }
    }
  }

  // ---- What was typed is what the daemon does ----

  /** The daemon has the payload of the client's next request and will serve it. */
  ghost predicate Serves(l: S.Link, s: S.Sys, k: nat, req: Protocol.Request, env: Protocol.Env) {
    && S.Proper(l) && Q.AboutTo(l, s, k, req) && P.Inv(l.cfg, s.state)
    && env.peer.Remote? == l.remote && (l.remote ==> env.key == l.keyOf(k))
    && Q.Actor(l, k, env).Some? && Permitted(l.cfg.lists, Q.Actor(l, k, env).value) && Q.Workable(l, k)
  }

  /** The k-th job of a run command is in the pool with its schedule and text, under the id that the client reads. */
  lemma RunIsStored(env: RequestArg.Env, subject: seq<string>, js: seq<Job>, who: Claim,
                    l: S.Link, s: S.Sys, k: nat, req: Protocol.Request, session: Option<seq<byte>>, w: Protocol.Env)
    requires GoodJobs(env, js) && Sendable(who)
    requires T.SolidWords('\'', subject) && T.Closable(T.Phrase('\'', subject))
    requires Typed(env, T.Printed(CommandTokens(subject, js)), who) == Some(l.outs)
    requires Serves(l, s, k, req, w) && w.id < U64
    ensures var r := S.DaemonMove(l, s, session, w);
            && k < |js| && |r.served| == k + 1 && |r.served[k]| == 8 && ReadRun(r.served[k]) == w.id
            && w.id in r.state.apool
            && var e := r.state.apool[w.id];
               && Fulfils(env, js[k], ScheduleIn(e)) && e.subj == BytesOf(T.Join(subject)) + [0]
               && Some(Account(e.uid, e.gid)) == Q.Actor(l, k, w)
               && e.timer in r.state.timers
               && r.state.timers[e.timer] == P.Timer(e.trigger, e.step, e.expire, e.id)
  {
    hide T.Printed, T.Join, T.SolidWords, T.Closable, CommandTokens, GoodJobs, Fulfils, BytesOf, Sendable, Typed,
      S.Proper, P.Inv, Q.Workable, Q.Actor, S.DaemonMove, S.Lockstep, Permitted;
    RunTyped(env, subject, js, who);
    Q.ServedMeets(l, s, k, req, session, w);
    var r := S.DaemonMove(l, s, session, w).state;
    assert ScheduleIn(r.apool[w.id]) == ScheduleIn(l.outs[k].entry);
  }

  /** A stop command removes exactly those of the typed ids that the user owns, and the client reads which. */
  lemma StopIsDone(env: RequestArg.Env, ids: seq<nat>, who: Claim,
                   l: S.Link, s: S.Sys, req: Protocol.Request, session: Option<seq<byte>>, w: Protocol.Env)
    requires ids != [] && 0 !in ids && (forall id :: id in ids ==> id < U64) && |Ids(ids)| < U32 && |w.all| < U32
    requires Typed(env, T.Printed(IdsTokens("stop", ids)), who) == Some(l.outs)
    requires Serves(l, s, 0, req, w)
    ensures var r := S.DaemonMove(l, s, session, w);
            var uid := Q.Actor(l, 0, w).value.uid;
            && |r.served| == 1 && Q.Removes(s.state, r.state, ids, uid)
            && ReadStop(r.served[0]).Some? && Q.Reports(s.state, ReadStop(r.served[0]).value, ids, uid)
  {
    hide T.Printed, IdsTokens, Typed, S.Proper, P.Inv, Q.Workable, Q.Actor, S.DaemonMove, S.Lockstep, Permitted, Ids,
      Q.Removes, Q.Reports, ReadStop;
    IdsTyped(env, ids, who);
    Q.ServedMeets(l, s, 0, req, session, w);
    assert ids[0] in ids;
    assert Q.Asks(l, 0, ids, w) && Q.Wanted(ids, w.all) == ids;
  }

  /** A show command is answered with exactly those of the typed ids that the user owns, whole, and changes nothing. */
  lemma ShowIsDone(env: RequestArg.Env, ids: seq<nat>, who: Claim,
                   l: S.Link, s: S.Sys, req: Protocol.Request, session: Option<seq<byte>>, w: Protocol.Env)
    requires ids != [] && 0 !in ids && (forall id :: id in ids ==> id < U64) && |Ids(ids)| < U32 && |w.all| < U32
    requires Typed(env, T.Printed(IdsTokens("show", ids)), who) == Some(l.outs)
    requires Serves(l, s, 0, req, w)
    ensures var r := S.DaemonMove(l, s, session, w);
            && |r.served| == 1 && r.state == s.state
            && exists es :: Q.Shows(s.state, es, ids, Q.Actor(l, 0, w).value.uid)
                 && G.DecodeReply(r.served[0]) == G.Listing(G.ShownAll(es), |r.served[0]|)
  {
    hide T.Printed, IdsTokens, Typed, S.Proper, P.Inv, Q.Workable, Q.Actor, S.DaemonMove, S.Lockstep, Permitted, Ids,
      Q.Shows, G.DecodeReply, G.ShownAll;
    IdsTyped(env, ids, who);
    Q.ServedMeets(l, s, 0, req, session, w);
    assert ids[0] in ids;
    assert Q.Asks(l, 0, ids, w) && Q.Wanted(ids, w.all) == ids;
  }
}
