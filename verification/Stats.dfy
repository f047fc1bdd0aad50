/** Execution statistics: from the executer to the statistics service and on to the daemon. */
module Stats {
  import opened Bytes
  import opened Entries
  import opened Limits
  import opened Wrappers
  import P = Pool
  import G = GetReply

  const USS_HEADER := 80
  const USD_HEADER := 40
  const TIMESPEC := 16

  /** size_t subtraction. */
  function Sub64(a: nat, b: nat): nat {
    (a - b) % U64
  }

  /** The bytes of a C string. */
  function CString(s: seq<byte>): (r: seq<byte>)
    ensures r <= s
  {
    s[..G.StrLen(s)]
  }

  // ---- Lengths on the way ----

  /** The executer's length for an output of n bytes, in a message of m bytes; none if it gives up. */
  function ExecLength(n: nat, m: nat): Option<nat> {
    var len := if n >= Sub64(m, USS_HEADER) then Sub64(m, USS_HEADER + 1) % U32 else n;
    if len + TIMESPEC + 1 > m then None else Some(len)
  }

  /** The statistics service's check on what it receives. */
  predicate StatAccepts(len: nat, m: nat) {
    len + USS_HEADER + 1 <= m && len <= OUTPUT_MAX
  }

  function StatLength(n: nat, m: nat): nat {
    if n + USD_HEADER + 1 > m then Sub64(m, USD_HEADER + 1) % U32 else n
  }

  predicate DaemonAccepts(len: nat, m: nat) {
    len + USD_HEADER < m
  }

  /** Whether an output of n bytes, without a NUL in it, gets through all three length checks. */
  predicate GetsThrough(n: nat, m: nat) {
    var e := ExecLength(n, m);
    e.Some? && StatAccepts(e.value, m) && DaemonAccepts(StatLength(e.value, m), m)
  }

  /** A report gets through, whatever its output, exactly when a message holds more than the header. */
  lemma GetsThroughIff(n: nat, m: nat)
    requires 0 < m < U64 && n < OUTPUT_MAX
    ensures GetsThrough(n, m) <==> m > USS_HEADER
  {
    if m > USS_HEADER { ThroughAt(n, m); }
  }

  lemma ThroughAt(n: nat, m: nat)
    requires USS_HEADER < m < U64 && n < OUTPUT_MAX
    ensures GetsThrough(n, m)
    ensures ExecLength(n, m).value == (if n < m - USS_HEADER then n else m - USS_HEADER - 1)
    ensures StatLength(ExecLength(n, m).value, m) == ExecLength(n, m).value
  {
    assert Sub64(m, USS_HEADER) == m - USS_HEADER && Sub64(m, USS_HEADER + 1) == m - USS_HEADER - 1;
    var len := if n < m - USS_HEADER then n else m - USS_HEADER - 1;
    assert len <= n < U32;
  }

  // ---- The output on the way ----

  lemma {:induction false} StrLenPrefix(s: seq<byte>, n: nat)
    requires n <= G.StrLen(s)
    ensures n <= |s| && G.StrLen(s[..n]) == n && 0 !in s[..n]
    decreases n
  {
    if n > 0 {
      StrLenPrefix(s[1..], n - 1);
      assert s[..n] == [s[0]] + s[1..][..n - 1];
    }
  }

  lemma {:induction false} StrLenEnds(s: seq<byte>, t: seq<byte>)
    requires 0 !in s
    ensures G.StrLen(s + [0] + t) == |s|
    decreases |s|
  {
    if s == [] {
      assert s + [0] + t == [0] + t;
    } else {
      StrLenEnds(s[1..], t);
      assert (s + [0] + t)[1..] == s[1..] + [0] + t;
    }
  }

  /** What arrives at the daemon of a child's output. */
  function Delivered(child: seq<byte>, m: nat): seq<byte>
    requires |child| < OUTPUT_MAX && USS_HEADER < m < U64
  {
    ThroughAt(G.StrLen(child), m);
    child[..ExecLength(G.StrLen(child), m).value]
  }

  /**
   * The output kept with an active entry is a prefix of the child's output, with its length below the limit,
   * ends in a NUL right there, and so passes the check of a later GET.
   */
  lemma OutputEndToEnd(e: Entry, child: seq<byte>, m: nat, r: P.Result)
    requires |e.outdata| == OUTPUT_MAX && |child| < OUTPUT_MAX && USS_HEADER < m < U64
    requires r.output == Delivered(child, m)
    ensures var n := P.Noted(e, r);
            && n.outLen < OUTPUT_MAX == |n.outdata| && n.outdata[..n.outLen] <= child
            && n.outLen == G.StrLen(n.outdata)
            && (n.pid, n.status, n.execTime, n.latency) == (r.pid, r.status, r.execTime, r.latency)
            && n.(pid := e.pid, status := e.status, execTime := e.execTime, latency := e.latency,
                  outLen := e.outLen, outdata := e.outdata) == e
            && (G.StrLen(child) < m - USS_HEADER ==> n.outdata[..n.outLen] == CString(child))
  {
    var k := G.StrLen(child);
    ThroughAt(k, m);
    var len := ExecLength(k, m).value;
    StrLenPrefix(child, len);
    var n := P.Noted(e, r);
    assert P.Clipped(r.output) == r.output;
    StrLenEnds(r.output, e.outdata[len + 1..]);
    assert n.outdata[..len] == child[..len];
  }

  // ---- The statistics pool ----

  datatype Exec = Exec(uid: nat, gid: nat, pid: nat, status: nat, trigger: nat, start: nat, end: nat, output: seq<byte>)

  const NO_EXEC := Exec(0, 0, 0, 0, 0, 0, 0, [])

  /** An accepted message: the entry and its execution, with the raw wait status. */
  datatype Report = Report(id: nat, exec: Exec)

  datatype Stat = Stat(id: nat, current: Exec, error: Exec, nrExec: nat, nrOk: nat, nrFail: nat)

  /** WEXITSTATUS(). */
  function ExitStatus(status: nat): nat {
    status / 256 % 256
  }

  /** How a child ends, and the status that waitpid() reports: the exit code in the second byte, or the signal. */
  datatype Ending = Exited(code: nat) | Killed(signal: nat)

  predicate Possible(e: Ending) {
    if e.Exited? then e.code < 256 else 0 < e.signal < 127
  }

  function WaitStatus(e: Ending): nat {
    if e.Exited? then 256 * e.code else e.signal
  }

  /** An execution counts as failed exactly if the child exited by itself with a code other than 0. */
  lemma FailsIff(e: Ending)
    requires Possible(e)
    ensures ExitStatus(WaitStatus(e)) != 0 <==> e.Exited? && e.code != 0
    ensures e.Exited? ==> ExitStatus(WaitStatus(e)) == e.code
  {
  }

  function Increment(n: nat): nat {
    (n + 1) % U32
  }

  function Zero(id: nat): Stat {
    Stat(id, NO_EXEC, NO_EXEC, 0, 0, 0)
  }

  /** A record after one more execution. */
  function After(s: Stat, r: Report): Stat {
    var now := r.exec.(status := ExitStatus(r.exec.status));
    if now.status != 0 then Stat(s.id, now, now, Increment(s.nrExec), s.nrOk, Increment(s.nrFail))
    else Stat(s.id, now, s.error, Increment(s.nrExec), Increment(s.nrOk), s.nrFail)
  }

  /** The record of an id after a history of messages. */
  function StatOf(h: seq<Report>, id: nat): Stat {
    if h == [] then Zero(id)
    else
      var s, r := StatOf(h[..|h| - 1], id), h[|h| - 1];
      if r.id == id then After(s, r) else s
  }

  /** What is queued for the daemon, message by message. */
  function Queued(h: seq<Report>): (q: seq<Stat>)
    ensures |q| == |h|
  {
    if h == [] then [] else Queued(h[..|h| - 1]) + [StatOf(h, h[|h| - 1].id)]
  }

  function CountFor(h: seq<Report>, id: nat): nat {
    if h == [] then 0 else CountFor(h[..|h| - 1], id) + if h[|h| - 1].id == id then 1 else 0
  }

  function FailsFor(h: seq<Report>, id: nat): nat {
    if h == [] then 0
    else FailsFor(h[..|h| - 1], id) + if h[|h| - 1].id == id && ExitStatus(h[|h| - 1].exec.status) != 0 then 1 else 0
  }

  lemma IncrementCounts(a: nat)
    ensures Increment(a % U32) == (a + 1) % U32
  {
  }

  lemma SumsCount(a: nat, b: nat)
    ensures (a % U32 + b % U32) % U32 == (a + b) % U32
  {
  }

  lemma {:induction false} CountersStep(h: seq<Report>, id: nat)
    ensures var s := StatOf(h, id);
            && s.id == id && FailsFor(h, id) <= CountFor(h, id)
            && s.nrExec == CountFor(h, id) % U32
            && s.nrFail == FailsFor(h, id) % U32
            && s.nrOk == (CountFor(h, id) - FailsFor(h, id)) % U32
    decreases |h|
  {
    hide Increment, ExitStatus;
    if h != [] {
      var g := h[..|h| - 1];
      CountersStep(g, id);
      IncrementCounts(CountFor(g, id));
      IncrementCounts(FailsFor(g, id));
      IncrementCounts(CountFor(g, id) - FailsFor(g, id));
    }
  }

  /** The counters count: executions, failures and successes of the id, each modulo the word. */
  lemma CountersCount(h: seq<Report>, id: nat)
    ensures var s := StatOf(h, id);
            && s.id == id && FailsFor(h, id) <= CountFor(h, id)
            && s.nrExec == CountFor(h, id) % U32
            && s.nrFail == FailsFor(h, id) % U32
            && s.nrOk == (CountFor(h, id) - FailsFor(h, id)) % U32
            && s.nrExec == (s.nrOk + s.nrFail) % U32
  {
    hide StatOf, CountFor, FailsFor;
    CountersStep(h, id);
    SumsCount(CountFor(h, id) - FailsFor(h, id), FailsFor(h, id));
  }

  predicate Distinct(spool: seq<Stat>) {
    forall i, j :: 0 <= i < j < |spool| ==> spool[i].id != spool[j].id
  }

  predicate HasId(spool: seq<Stat>, id: nat) {
    exists i :: 0 <= i < |spool| && spool[i].id == id
  }

  function SumCounts(spool: seq<Stat>, h: seq<Report>): nat {
    if spool == [] then 0 else SumCounts(spool[..|spool| - 1], h) + CountFor(h, spool[|spool| - 1].id)
  }

  lemma {:induction false} SumCountsPush(spool: seq<Stat>, h: seq<Report>)
    requires h != [] && Distinct(spool)
    ensures SumCounts(spool, h) == SumCounts(spool, h[..|h| - 1]) + if HasId(spool, h[|h| - 1].id) then 1 else 0
    decreases |spool|
  {
    if spool != [] {
      var n := |spool| - 1;
      var id := h[|h| - 1].id;
      SumCountsPush(spool[..n], h);
      if HasId(spool, id) && spool[n].id != id {
        var i :| 0 <= i < |spool| && spool[i].id == id;
        assert spool[..n][i].id == id;
      }
      if HasId(spool[..n], id) {
        var i :| 0 <= i < n && spool[..n][i].id == id;
        assert spool[i].id == id;
      }
    }
  }

  /** Every accepted message is counted under exactly one id of the pool. */
  lemma {:induction false} MessagesConserved(spool: seq<Stat>, h: seq<Report>)
    requires Distinct(spool) && forall i :: 0 <= i < |h| ==> HasId(spool, h[i].id)
    ensures SumCounts(spool, h) == |h|
    decreases |h|
  {
    if h == [] {
      SumCountsNone(spool);
    } else {
      SumCountsPush(spool, h);
      assert forall i :: 0 <= i < |h| - 1 ==> h[..|h| - 1][i] == h[i];
      MessagesConserved(spool, h[..|h| - 1]);
    }
  }

  lemma {:induction false} SumCountsNone(spool: seq<Stat>)
    ensures SumCounts(spool, []) == 0
    decreases |spool|
  {
    if spool != [] { SumCountsNone(spool[..|spool| - 1]); }
  }

  lemma {:induction false} CountBelow(h: seq<Report>, id: nat)
    ensures CountFor(h, id) <= |h|
    decreases |h|
  {
    if h != [] { CountBelow(h[..|h| - 1], id); }
  }

  /** The report totals: loops over the pool. */
  function TotalExec(spool: seq<Stat>): nat {
    if spool == [] then 0 else TotalExec(spool[..|spool| - 1]) + spool[|spool| - 1].nrExec
  }

  function TotalOk(spool: seq<Stat>): nat {
    if spool == [] then 0 else TotalOk(spool[..|spool| - 1]) + spool[|spool| - 1].nrOk
  }

  function TotalFail(spool: seq<Stat>): nat {
    if spool == [] then 0 else TotalFail(spool[..|spool| - 1]) + spool[|spool| - 1].nrFail
  }

  /** Every record is what the history makes of its id. */
  predicate Faithful(spool: seq<Stat>, h: seq<Report>) {
    forall i :: 0 <= i < |spool| ==> spool[i] == StatOf(h, spool[i].id)
  }

  lemma {:induction false} TotalsAgree(spool: seq<Stat>, h: seq<Report>)
    requires Faithful(spool, h) && |h| < U32
    ensures TotalExec(spool) == SumCounts(spool, h) && TotalOk(spool) + TotalFail(spool) == TotalExec(spool)
    decreases |spool|
  {
    hide StatOf, CountFor, FailsFor;
    if spool != [] {
      var n := |spool| - 1;
      TotalsAgree(spool[..n], h);
      CountersStep(h, spool[n].id);
      CountBelow(h, spool[n].id);
    }
  }

  /** The statistics service. */
  class StatService {
    var spool: seq<Stat>
    var dpool: seq<Stat>
    ghost var history: seq<Report>
    ghost var dispatched: seq<Stat>

    /** Ids are unique, records follow from the messages, and the queue goes out in the order it came in. */
    ghost predicate Valid()
      reads this
    {
      && Distinct(spool) && Faithful(spool, history)
      && (forall id :: HasId(spool, id) <==> CountFor(history, id) > 0)
      && dispatched + dpool == Queued(history)
    }

    constructor ()
      ensures Valid() && history == [] && dispatched == []
    {
      spool, dpool, history, dispatched := [], [], [], [];
    }

    /** The list search by id. */
    method Search(id: nat) returns (i: nat)
      ensures i <= |spool| && (i < |spool| <==> HasId(spool, id)) && (i < |spool| ==> spool[i].id == id)
    {
      i := 0;
      while i < |spool| && spool[i].id != id
        invariant i <= |spool| && forall j :: 0 <= j < i ==> spool[j].id != id
      {
        i := i + 1;
      }
    }

    /** _stat_entry_update(). */
    method Update(r: Report) returns (ok: bool)
      requires Valid()
      modifies this
      ensures Valid() && dispatched == old(dispatched)
      ensures ok == (|r.exec.output| <= OUTPUT_MAX)
      ensures history == if ok then old(history) + [r] else old(history)
      ensures !ok ==> spool == old(spool) && dpool == old(dpool)
    {
      hide Faithful, Distinct, Queued, After, StatOf, CountFor;
      if |r.exec.output| > OUTPUT_MAX { return false; }
      var i := Search(r.id);
      var before := spool;
      if i == |spool| {
        MissingIsZero(history, r.id);
        spool := spool + [Zero(r.id)];
      }
      AddedKeeps(before, history, r.id);
      assert spool[i] == StatOf(history, r.id) by { FaithfulAt(spool, history, i); }
      var s := spool[i];
      UpdatedKeeps(spool, history, i, r);
      QueuedPush(history, r);
      s := Recorded(s, r);
      spool := spool[i := s];
      assert dispatched + (dpool + [s]) == dispatched + dpool + [s];
      dpool := dpool + [s];
      history := history + [r];
      ok := true;
    }

    /** The fields of a record, one after the other. */
    method Recorded(s: Stat, r: Report) returns (n: Stat)
      ensures n == After(s, r)
    {
      n := s.(current := r.exec.(status := ExitStatus(r.exec.status)));
      if ExitStatus(r.exec.status) != 0 {
        n := n.(error := n.current);
        n := n.(nrFail := Increment(n.nrFail));
      } else {
        n := n.(nrOk := Increment(n.nrOk));
      }
      n := n.(nrExec := Increment(n.nrExec));
    }

    /** _usd_dispatch(): the oldest record in the queue goes to the daemon. */
    method Dispatch(m: nat) returns (msg: Option<DaemonMessage>)
      requires Valid()
      modifies `dpool, `dispatched
      ensures Valid() && (msg.None? <==> old(dpool) == [])
      ensures msg.Some? ==> dispatched == old(dispatched) + [Queued(history)[|old(dispatched)|]]
      ensures msg.Some? ==> msg.value == MessageOf(Queued(history)[|old(dispatched)|], m)
      ensures msg.None? ==> dispatched == old(dispatched)
    {
      hide Faithful, Distinct, Queued;
      if dpool == [] { return None; }
      var s := dpool[0];
      assert s == (dispatched + dpool)[|dispatched|];
      assert dispatched + [s] + dpool[1..] == dispatched + dpool;
      dpool, dispatched := dpool[1..], dispatched + [s];
      msg := Some(MessageOf(s, m));
    }

    /** _report_stat_entry_total_exec(), _total_ok() and _total_fail(). */
    method Totals() returns (all: nat, good: nat, bad: nat)
      requires Valid()
      ensures all == TotalExec(spool) && good == TotalOk(spool) && bad == TotalFail(spool)
      ensures |history| < U32 ==> all == |history| == good + bad
    {
      hide Faithful, Distinct, StatOf, CountFor;
      all, good, bad := 0, 0, 0;
      for i := 0 to |spool|
        invariant all == TotalExec(spool[..i]) && good == TotalOk(spool[..i]) && bad == TotalFail(spool[..i])
      {
        assert spool[..i + 1][..i] == spool[..i];
        all, good, bad := all + spool[i].nrExec, good + spool[i].nrOk, bad + spool[i].nrFail;
      }
      assert spool[..|spool|] == spool;
      if |history| < U32 {
        forall i | 0 <= i < |history| ensures HasId(spool, history[i].id) { CountsItself(history, i); }
        TotalsAgree(spool, history);
        MessagesConserved(spool, history);
      }
    }
  }

  datatype DaemonMessage = DaemonMessage(id: nat, execTime: nat, latency: nat, pid: nat, status: nat, output: seq<byte>)

  function MessageOf(s: Stat, m: nat): DaemonMessage {
    var text := CString(s.current.output);
    var n := StatLength(|text|, m);
    DaemonMessage(s.id, (s.current.end - s.current.start) % U64, (s.current.start - s.current.trigger) % U64,
                  s.current.pid, s.current.status, if n <= |text| then text[..n] else text)
  }

  /** The service passes on unchanged what it got of a child's output. */
  lemma MessageCarries(s: Stat, child: seq<byte>, m: nat)
    requires |child| < OUTPUT_MAX && USS_HEADER < m < U64 && s.current.output == Delivered(child, m)
    ensures MessageOf(s, m).output == Delivered(child, m)
  {
    var k := G.StrLen(child);
    ThroughAt(k, m);
    StrLenPrefix(child, ExecLength(k, m).value);
  }

  /** Latency runs from the trigger to the start, execution time from there to the end. */
  lemma TimesAdd(s: Stat, m: nat)
    requires s.current.trigger <= s.current.start <= s.current.end < U64
    ensures var d := MessageOf(s, m);
            && s.current.trigger + d.latency == s.current.start && s.current.start + d.execTime == s.current.end
            && d.id == s.id && d.pid == s.current.pid && d.status == s.current.status
  {
  }

  // ---- What is passed on ----

  /** The last message for an id before the i-th, if there is one. */
  predicate LastFor(h: seq<Report>, id: nat, j: int) {
    0 <= j < |h| && h[j].id == id && forall k :: j < k < |h| ==> h[k].id != id
  }

  /** The record of an id holds its last execution, with the exit status, and its last failed one. */
  lemma {:induction false} RecordHolds(h: seq<Report>, id: nat, j: nat)
    requires LastFor(h, id, j)
    ensures var s, x := StatOf(h, id), h[j].exec;
            && s.id == id && s.current == x.(status := ExitStatus(x.status))
            && (ExitStatus(x.status) != 0 ==> s.error == s.current)
            && (ExitStatus(x.status) == 0 ==> s.error == StatOf(h[..j], id).error)
    decreases |h|
  {
    hide ExitStatus, Increment;
    var n := |h| - 1;
    CountersStep(h[..j], id);
    if j < n {
      RecordHolds(h[..n], id, j);
      assert h[..n][..j] == h[..j];
    }
  }

  lemma {:induction false} QueuedAt(h: seq<Report>, i: nat)
    requires i < |h|
    ensures Queued(h)[i] == StatOf(h[..i + 1], h[i].id)
    decreases |h|
  {
    hide StatOf;
    var n := |h| - 1;
    if i < n {
      QueuedAt(h[..n], i);
      assert h[..n][..i + 1] == h[..i + 1];
    } else {
      assert h[..i + 1] == h;
    }
  }

  /** The i-th message to the daemon reports the i-th accepted execution: entry, process, exit status, times, output. */
  lemma PassedOn(h: seq<Report>, i: nat, m: nat)
    requires i < |h|
    ensures var d, x := MessageOf(Queued(h)[i], m), h[i].exec;
            && d.id == h[i].id && d.pid == x.pid && d.status == ExitStatus(x.status)
            && (x.trigger <= x.start <= x.end < U64 ==>
                  x.trigger + d.latency == x.start && x.start + d.execTime == x.end)
            && d.output <= x.output && (|CString(x.output)| + USD_HEADER < m ==> d.output == CString(x.output))
  {
    hide StatOf, ExitStatus, Queued, CString;
    QueuedAt(h, i);
    RecordHolds(h[..i + 1], h[i].id, i);
  }

  /** The daemon's side of a message. */
  function ResultOf(d: DaemonMessage): P.Result {
    P.Result(d.pid, d.status, d.execTime, d.latency, d.output)
  }

  /** The messages of a history as steps of the daemon. */
  function Steps(h: seq<Report>, m: nat): (ops: seq<P.Op>)
    ensures |ops| == |h|
  {
    if h == [] then [] else Steps(h[..|h| - 1], m) + [StepFor(h, m)]
  }

  function StepFor(h: seq<Report>, m: nat): P.Op
    requires h != []
  {
    var d := MessageOf(Queued(h)[|h| - 1], m);
    P.Report(d.id, ResultOf(d))
  }

  /** The numbers of an execution fit their types and follow one another. */
  predicate Measured(x: Exec) {
    x.pid < U32 && x.trigger <= x.start <= x.end < U64
  }

  /** The result fields report an execution: process, exit status, latency, execution time and output. */
  predicate Tells(r: P.Result, x: Exec) {
    && r.pid == x.pid && r.status == ExitStatus(x.status)
    && x.trigger + r.latency == x.start && x.start + r.execTime == x.end && r.output <= x.output
  }

  predicate ShowsExec(e: Entry, x: Exec) {
    && e.pid == x.pid && e.status == ExitStatus(x.status)
    && x.trigger + e.latency == x.start && x.start + e.execTime == x.end
    && e.outLen < |e.outdata| && e.outdata[..e.outLen] <= x.output
  }

  lemma StepForIs(h: seq<Report>, m: nat)
    requires h != [] && Measured(h[|h| - 1].exec)
    ensures var op, x := StepFor(h, m), h[|h| - 1].exec;
            op.Report? && op.id == h[|h| - 1].id && P.Sane(op.result) && Tells(op.result, x)
  {
    hide Queued, CString, StatLength;
    PassedOn(h, |h| - 1, m);
  }

  /** Once all messages are delivered, every active entry shows its last execution. */
  lemma {:induction false} EntryShowsLast(cfg: P.Config, s: P.State, h: seq<Report>, m: nat, id: nat)
    requires P.Lawful(cfg) && P.Inv(cfg, s) && id in s.apool && forall i :: 0 <= i < |h| ==> Measured(h[i].exec)
    ensures var r := P.Run(cfg, s, Steps(h, m));
            && id in r.apool
            && (CountFor(h, id) == 0 ==> r.apool[id] == s.apool[id])
            && forall j :: LastFor(h, id, j) ==> ShowsExec(r.apool[id], h[j].exec)
    decreases |h|
  {
    hide P.Inv, P.Lawful, StepFor, P.Sane, P.Noted, Tells, ShowsExec, Measured;
    if h != [] {
      var n := |h| - 1;
      EntryShowsLast(cfg, s, h[..n], m, id);
      var ops := Steps(h, m);
      assert ops[..n] == Steps(h[..n], m) && ops[n] == StepFor(h, m);
      var t := P.Run(cfg, s, ops[..n]);
      P.RunKeeps(cfg, s, ops[..n]);
      StepForIs(h, m);
      NotedShows(cfg, t, h[n].id, ops[n].result, h[n].exec);
      forall j | LastFor(h, id, j) && j < n ensures LastFor(h[..n], id, j) {}
    }
  }

  lemma NotedShows(cfg: P.Config, s: P.State, id: nat, r: P.Result, x: Exec)
    requires P.Inv(cfg, s) && Tells(r, x)
    ensures id in s.apool ==> |s.apool[id].outdata| == OUTPUT_MAX && ShowsExec(P.Noted(s.apool[id], r), x)
  {
    hide P.Inv, ExitStatus;
    if id in s.apool {
      P.ProperParts(cfg, s, id);
      var n := P.Noted(s.apool[id], r);
      assert n.outdata[..n.outLen] == P.Clipped(r.output);
    }
  }

  lemma {:induction false} MissingIsZero(h: seq<Report>, id: nat)
    ensures CountFor(h, id) == 0 ==> StatOf(h, id) == Zero(id)
    decreases |h|
  {
    if h != [] { MissingIsZero(h[..|h| - 1], id); }
  }

  lemma {:induction false} CountsItself(h: seq<Report>, i: nat)
    requires i < |h|
    ensures CountFor(h, h[i].id) > 0
    decreases |h|
  {
    if i < |h| - 1 { CountsItself(h[..|h| - 1], i); }
  }

  lemma FaithfulAt(spool: seq<Stat>, h: seq<Report>, i: nat)
    requires Faithful(spool, h) && i < |spool|
    ensures spool[i] == StatOf(h, spool[i].id)
  {
  }

  /** The pool with a record for the id, whether it was there or not. */
  lemma AddedKeeps(spool: seq<Stat>, h: seq<Report>, id: nat)
    requires Distinct(spool) && Faithful(spool, h) && (!HasId(spool, id) ==> CountFor(h, id) == 0)
    ensures var r := if HasId(spool, id) then spool else spool + [Zero(id)];
            && Distinct(r) && Faithful(r, h) && HasId(r, id)
            && forall j :: j != id ==> (HasId(r, j) <==> HasId(spool, j))
  {
    hide StatOf, CountFor;
    MissingIsZero(h, id);
    if !HasId(spool, id) {
      var r := spool + [Zero(id)];
      assert r[|spool|].id == id;
      forall j | j != id && HasId(spool, j) ensures HasId(r, j) {
        var i :| 0 <= i < |spool| && spool[i].id == j;
        assert r[i].id == j;
      }
    }
  }

  lemma UpdatedKeeps(spool: seq<Stat>, h: seq<Report>, i: nat, r: Report)
    requires Distinct(spool) && Faithful(spool, h) && i < |spool| && spool[i].id == r.id
    ensures var n := spool[i := After(spool[i], r)];
            && Distinct(n) && Faithful(n, h + [r]) && StatOf(h + [r], r.id) == After(spool[i], r)
            && (forall j :: HasId(n, j) <==> HasId(spool, j))
            && forall j :: CountFor(h + [r], j) == CountFor(h, j) + if j == r.id then 1 else 0
  {
    hide ExitStatus, Increment;
    var n := spool[i := After(spool[i], r)];
    assert (h + [r])[..|h|] == h;
    assert forall k :: 0 <= k < |n| ==> n[k].id == spool[k].id;
    forall j ensures HasId(n, j) <==> HasId(spool, j) {
      if HasId(spool, j) {
        var k :| 0 <= k < |spool| && spool[k].id == j;
        assert n[k].id == j;
      }
    }
  }

  lemma QueuedPush(h: seq<Report>, r: Report)
    ensures Queued(h + [r]) == Queued(h) + [StatOf(h + [r], r.id)]
  {
  }
}
