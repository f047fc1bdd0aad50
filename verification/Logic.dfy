/** The logic pass over a request list: logic_client_process_run(). */
module Logic {
  import opened AlignedStep
  import opened Language
  import opened Limits
  import opened Parser
  import opened RequestArg
  import opened Wrappers

  /** What the pass sets in a new entry; the times are 32-bit words. */
  datatype Scheduled = Scheduled(
    trigger: int, step: int, expire: int,
    relativeTrigger: bool, relativeExpire: bool, monthAlign: bool, yearAlign: bool)

  // ---- What a list of requests means ----

  datatype Limit = Forever | UntilTo(to: Request) | WhileIn(within: Request)

  /** P [then every S] [until to E | while in W] */
  datatype Sentence = Sentence(first: Request, every: Option<Request>, limit: Limit)

  function LimitList(l: Limit): seq<Request> {
    match l
    case Forever => []
    case UntilTo(r) => [r]
    case WhileIn(r) => [r]
  }

  function Flatten(s: Sentence): (rs: seq<Request>)
    ensures rs != [] && rs[0] == s.first
  {
    [s.first] + (if s.every.Some? then [s.every.value] else []) + LimitList(s.limit)
  }

  function FlattenAll(ss: seq<Sentence>): seq<Request> {
    if ss == [] then [] else Flatten(ss[0]) + FlattenAll(ss[1..])
  }

  /** The element that the limit, if any, is attached to. */
  function Stem(s: Sentence): Request {
    if s.every.Some? then s.every.value else s.first
  }

  predicate EndsSentence(r: Request) {
    r.conj == None || r.conj == Some(And)
  }

  predicate Proper(s: Sentence) {
    && (s.every.Some? <==> s.first.conj == Some(Then))
    && (s.every.Some? ==> s.every.value.prep == Every)
    && match s.limit
       case Forever => EndsSentence(Stem(s))
       case UntilTo(r) => Stem(s).conj == Some(Until) && r.prep == To && EndsSentence(r)
       case WhileIn(r) => Stem(s).conj == Some(While) && r.prep == In && EndsSentence(r)
  }

  predicate AllProper(ss: seq<Sentence>) {
    forall i :: 0 <= i < |ss| ==> Proper(ss[i])
  }

  /** The schedule that a sentence stands for, at time `now`. */
  function Denote(s: Sentence, now: int): Scheduled {
    Scheduled(
      (now + s.first.arg.val) % U32,
      if s.every.Some? then s.every.value.arg.val % U32 else 0,
      if s.limit.Forever? then 0 else (now + LimitList(s.limit)[0].arg.val) % U32,
      s.first.prep == In,
      s.limit.WhileIn?,
      s.every.Some? && s.every.value.arg.monthAlign,
      s.every.Some? && !s.every.value.arg.monthAlign && s.every.value.arg.yearAlign)
  }

  function DenoteAll(ss: seq<Sentence>, now: int): (es: seq<Scheduled>)
    ensures |es| == |ss| && forall i :: 0 <= i < |ss| ==> es[i] == Denote(ss[i], now)
  {
    if ss == [] then [] else [Denote(ss[0], now)] + DenoteAll(ss[1..], now)
  }

  // ---- Reading sentences off the list ----

  /** The sentence at the head of the list, if there is one. */
  function Head(rs: seq<Request>): (r: Option<Sentence>)
    requires rs != []
    ensures r.Some? ==> Proper(r.value) && Flatten(r.value) <= rs
  {
    var first := rs[0];
    if first.conj == Some(Then) then
      if |rs| < 2 || rs[1].prep != Every then None
      else HeadLimit(first, Some(rs[1]), rs, 2)
    else HeadLimit(first, None, rs, 1)
  }

  function HeadLimit(first: Request, every: Option<Request>, rs: seq<Request>, k: nat): (r: Option<Sentence>)
    requires k <= |rs| && rs[..k] == [first] + (if every.Some? then [every.value] else [])
    requires (every.Some? <==> first.conj == Some(Then)) && (every.Some? ==> every.value.prep == Every)
    ensures r.Some? ==> Proper(r.value) && Flatten(r.value) <= rs
  {
    var stem := if every.Some? then every.value else first;
    if stem.conj == Some(Until) then
      if k < |rs| && rs[k].prep == To && EndsSentence(rs[k]) then
        assert rs[..k] + [rs[k]] <= rs;
        Some(Sentence(first, every, UntilTo(rs[k])))
      else None
    else if stem.conj == Some(While) then
      if k < |rs| && rs[k].prep == In && EndsSentence(rs[k]) then
        assert rs[..k] + [rs[k]] <= rs;
        Some(Sentence(first, every, WhileIn(rs[k])))
      else None
    else if EndsSentence(stem) then Some(Sentence(first, every, Forever))
    else None
  }

  function Sentences(rs: seq<Request>): Option<seq<Sentence>>
    decreases |rs|
  {
    if rs == [] then Some([])
    else
      match Head(rs)
      case None => None
      case Some(s) =>
        match Sentences(rs[|Flatten(s)|..])
        case None => None
        case Some(ss) => Some([s] + ss)
  }

  /** A proper sentence at the head of a list is the one that is read. */
  lemma HeadOfFlatten(s: Sentence, rest: seq<Request>)
    requires Proper(s)
    ensures Head(Flatten(s) + rest) == Some(s)
  {
  }

  /** Reading undoes flattening, and only lists of proper sentences are read. */
  lemma {:induction false} SentencesIff(rs: seq<Request>, ss: seq<Sentence>)
    ensures Sentences(rs) == Some(ss) <==> AllProper(ss) && FlattenAll(ss) == rs
    decreases |ss|
  {
    hide Head, Flatten, Proper;
    if ss == [] {
      SentencesEmpty(rs);
    } else {
      var s, n := ss[0], |Flatten(ss[0])|;
      SentencesIff(rs[if n <= |rs| then n else |rs|..], ss[1..]);
      assert ss == [s] + ss[1..];
      if AllProper(ss) && FlattenAll(ss) == rs {
        HeadOfFlatten(s, FlattenAll(ss[1..]));
        assert rs[n..] == FlattenAll(ss[1..]);
      }
      if Sentences(rs) == Some(ss) {
        assert rs == rs[..n] + rs[n..];
      }
    }
  }

  lemma SentencesEmpty(rs: seq<Request>)
    ensures Sentences(rs) == Some([]) <==> rs == []
  {
  }

  /** The schedules of a request list: those of its sentences, unless the first clause is "every". */
  function Meaning(rs: seq<Request>, now: int): Option<seq<Scheduled>>
    requires rs != []
  {
    if rs[0].prep == Every then None
    else
      match Sentences(rs)
      case None => None
      case Some(ss) => Some(DenoteAll(ss, now))
  }

  /** A list is accepted with schedules `es` iff it is a list of sentences that denote them, the first not "every". */
  lemma MeaningIff(rs: seq<Request>, now: int, es: seq<Scheduled>)
    requires rs != []
    ensures Meaning(rs, now) == Some(es) <==>
            rs[0].prep != Every && exists ss :: AllProper(ss) && FlattenAll(ss) == rs && es == DenoteAll(ss, now)
  {
    hide Sentences, DenoteAll, AllProper, FlattenAll;
    forall ss ensures Sentences(rs) == Some(ss) <==> AllProper(ss) && FlattenAll(ss) == rs {
      SentencesIff(rs, ss);
    }
  }

  function CountAnd(rs: seq<Request>): nat {
    if rs == [] then 0 else (if rs[0].conj == Some(And) then 1 else 0) + CountAnd(rs[1..])
  }

  lemma {:induction false} CountAndAppend(a: seq<Request>, b: seq<Request>)
    ensures CountAnd(a + b) == CountAnd(a) + CountAnd(b)
  {
    if a == [] {
      assert a + b == b;
    } else {
      assert (a + b)[1..] == a[1..] + b;
      CountAndAppend(a[1..], b);
    }
  }

  /** As the parser builds it: every element but the last has a conjunction. */
  predicate Linked(rs: seq<Request>) {
    forall i :: 0 <= i < |rs| ==> (rs[i].conj.Some? <==> i < |rs| - 1)
  }

  lemma CountAndSentence(s: Sentence)
    requires Proper(s)
    ensures var rs := Flatten(s); CountAnd(rs) == if rs[|rs| - 1].conj == Some(And) then 1 else 0
  {
    var every, limit := if s.every.Some? then [s.every.value] else [], LimitList(s.limit);
    CountAndAppend([s.first] + every, limit);
    CountAndAppend([s.first], every);
  }

  /** One entry per sentence: one more than there are "and"s. */
  lemma {:induction false} OneEntryPerAnd(ss: seq<Sentence>, rs: seq<Request>)
    requires ss != [] && AllProper(ss) && rs == FlattenAll(ss) && Linked(rs)
    ensures |ss| == 1 + CountAnd(rs)
    decreases |ss|
  {
    hide Proper, Flatten;
    var s := ss[0];
    var f, rest := Flatten(s), FlattenAll(ss[1..]);
    CountAndAppend(f, rest);
    CountAndSentence(s);
    assert rs[|f| - 1] == f[|f| - 1];
    LastEnds(s);
    if |ss| == 1 {
      assert ss[1..] == [] && |rs| == |f|;
    } else {
      assert rest != [] by { assert rest == Flatten(ss[1..][0]) + FlattenAll(ss[1..][1..]); }
      assert Linked(rest) by { assert forall i :: 0 <= i < |rest| ==> rest[i] == rs[|f| + i]; }
      OneEntryPerAnd(ss[1..], rest);
    }
  }

  lemma LastEnds(s: Sentence)
    requires Proper(s)
    ensures EndsSentence(Flatten(s)[|Flatten(s)| - 1])
  {
  }

  // ---- The code ----

  /** One turn of the loop: the entry that starts at rs[start]. */
  method CompileOne(rs: seq<Request>, start: nat, now: int) returns (ok: bool, e: Scheduled, next: nat)
    requires start < |rs|
    ensures ok <==> Head(rs[start..]).Some?
    ensures ok ==> e == Denote(Head(rs[start..]).value, now) && next == start + |Flatten(Head(rs[start..]).value)|
    ensures ok ==> next <= |rs|
  {
    ghost var tail := rs[start..];
    assert forall j :: 0 <= j < |tail| ==> tail[j] == rs[start + j];
    var cur := rs[start];
    e := Scheduled((now + cur.arg.val) % U32, 0, 0, false, false, false, false);
    ok, next := false, start;
    if cur.prep == In { e := e.(relativeTrigger := true); }
    if cur.conj == Some(Then) {
      if next + 1 == |rs| { return; }
      next := next + 1;
      cur := rs[next];
      if cur.prep != Every { return; }
      if cur.arg.monthAlign {
        e := e.(monthAlign := true);
      } else if cur.arg.yearAlign {
        e := e.(yearAlign := true);
      }
      e := e.(step := cur.arg.val % U32);
    }
    if cur.conj == Some(Until) {
      if next + 1 == |rs| { return; }
      next := next + 1;
      cur := rs[next];
      if cur.prep != To { return; }
      e := e.(expire := (now + cur.arg.val) % U32);
    } else if cur.conj == Some(While) {
      if next + 1 == |rs| { return; }
      next := next + 1;
      cur := rs[next];
      if cur.prep != In { return; }
      e := e.(relativeExpire := true);
      e := e.(expire := (now + cur.arg.val) % U32);
    }
    if cur.conj.Some? && cur.conj != Some(And) { return; }
    ok, next := true, next + 1;
  }

  /** logic_client_process_run(): the entries pushed to the client's pool, or None when the logic is refused. */
  method ProcessRun(rs: seq<Request>, now: int) returns (r: Option<seq<Scheduled>>)
    requires rs != []
    ensures r == Meaning(rs, now)
  {
    hide Head, Flatten, Denote;
    if rs[0].prep == Every { return None; }
    var pool: seq<Scheduled> := [];
    var i := 0;
    ghost var done: seq<Sentence> := [];
    assert rs[0..] == rs && (Sentences(rs).Some? ==> [] + Sentences(rs).value == Sentences(rs).value);
    while i < |rs|
      invariant 0 <= i <= |rs|
      invariant pool == DenoteAll(done, now)
      invariant Sentences(rs) == Continue(done, Sentences(rs[i..]))
    {
      var ok, e, next := CompileOne(rs, i, now);
      if !ok { return None; }
      ghost var s := Head(rs[i..]).value;
      assert rs[i..][|Flatten(s)|..] == rs[next..];
      ContinueStep(done, s, Sentences(rs[next..]));
      DenoteLast(done, s, now);
      pool, i := pool + [e], next;
      done := done + [s];
    }
    assert rs[i..] == [] && done + [] == done;
    r := Some(pool);
  }

  ghost function Continue(done: seq<Sentence>, r: Option<seq<Sentence>>): Option<seq<Sentence>> {
    match r
    case None => None
    case Some(ss) => Some(done + ss)
  }

  lemma ContinueStep(done: seq<Sentence>, s: Sentence, r: Option<seq<Sentence>>)
    ensures Continue(done, Continue([s], r)) == Continue(done + [s], r)
  {
    if r.Some? { assert done + ([s] + r.value) == done + [s] + r.value; }
  }

  lemma {:induction false} DenoteLast(ss: seq<Sentence>, s: Sentence, now: int)
    ensures DenoteAll(ss + [s], now) == DenoteAll(ss, now) + [Denote(s, now)]
  {
  }
}
