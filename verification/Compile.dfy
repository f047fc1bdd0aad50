/**
 From the text of a "run" command to the schedules it asks for: tokenizer, parser and logic pass together.
 */
module Compile {
  import opened Calendar
  import opened Language
  import opened Limits
  import opened Logic
  import opened NextOccurrence
  import opened Numbers
  import opened Parser
  import opened RequestArg
  import opened Wrappers
  import T = Tokenizer

  /** What the client sends for a command: the subject and the schedules, or None when it is refused. */
  function Compiled(env: Env, cmd: string): Option<(string, seq<Scheduled>)> {
    match T.Arguments(T.Words(cmd))
    case None => None
    case Some(argv) =>
      match ParseInstruction(env, argv)
      case Some(Run(subject, rs)) =>
        if rs == [] then None
        else (match Meaning(rs, env.now)
              case None => None
              case Some(es) => Some((subject, es)))
      case _ => None
  }

  // ---- Jobs ----

  /** adverb val | weekday name | time h:m:s | date y-m-d | datetime 'y-m-d h:m:s' | timestamp n */
  datatype Point =
    | Field(adverb: Adverb, val: nat)
    | Named(name: string)
    | AtTime(text: string)
    | AtDate(text: string)
    | AtDatetime(text: string)
    | AtStamp(at: nat)

  /** now | in n units | on point */
  datatype Moment = RightAway | After(n: nat, unit: Adverb) | OnNext(point: Point)

  datatype Period = Period(n: nat, unit: Adverb)

  /** Nothing, "until to point" or "while in n units". */
  datatype Bound = Unbounded | UntilNext(point: Point) | For(n: nat, unit: Adverb)

  /** start [then every n units] [bound] */
  datatype Job = Job(start: Moment, every: Option<Period>, bound: Bound)

  /** The units that are counted. */
  predicate Counted(u: Adverb) {
    u == Seconds || u == Minutes || u == Hours || u == Days || u == Weeks || u == Months || u == Years
  }

  predicate GoodCount(n: nat, unit: Adverb) {
    n <= LONG_MAX && Counted(unit)
  }

  /**
   n units go by from s to t: the clock reads the same, that many minutes, hours or days later. A week ends on the
   same weekday; a month is 30 days and a year 365.
   */
  predicate Elapsed(u: Adverb, n: int, s: int, t: int, off: int) {
    match u
    case Seconds => t - s == n
    case Minutes => Apart(60, n, s + off, t + off)
    case Hours => Apart(3600, n, s + off, t + off)
    case Days => SameClock(s, t, off) && DayOf(t, off) - DayOf(s, off) == n
    case Weeks => SameClock(s, t, off) && WeekDay(t, off) == WeekDay(s, off) && DayOf(t, off) - DayOf(s, off) == 7 * n
    case Months => SameClock(s, t, off) && DayOf(t, off) - DayOf(s, off) == 30 * n
    case Years => SameClock(s, t, off) && DayOf(t, off) - DayOf(s, off) == 365 * n
    case _ => false
  }

  /** The same place in its block of p seconds, n blocks on. */
  predicate Apart(p: int, n: int, a: int, b: int)
    requires p != 0
  {
    b % p == a % p && b / p - a / p == n
  }

  predicate SameClock(s: int, t: int, off: int) {
    SecondOfDay(t, off) == SecondOfDay(s, off)
  }

  /** Units differ in nothing but their length in seconds. */
  lemma ElapsedIs(u: Adverb, n: int, s: int, t: int, off: int)
    requires Counted(u)
    ensures Elapsed(u, n, s, t, off) <==> t == s + n * UnitSeconds(u)
  {
    hide SameClock, DayOf, WeekDay, Apart;
    match u {
      case Seconds =>
      case Minutes => MinutesApart(n, s + off, t + off);
      case Hours => HoursApart(n, s + off, t + off);
      case Days => DaysApart(n, s, t, off);
      case Weeks =>
        DaysApart(7 * n, s, t, off);
        if DayOf(t, off) - DayOf(s, off) == 7 * n { SameWeekday(n, s, t, off); }
      case Months => DaysApart(30 * n, s, t, off);
      case Years => DaysApart(365 * n, s, t, off);
      case _ =>
    }
  }

  lemma MinutesApart(n: int, a: int, b: int)
    ensures Apart(60, n, a, b) <==> b == a + n * 60
  {
    if b == a + n * 60 { assert b / 60 == a / 60 + n; }
  }

  lemma HoursApart(n: int, a: int, b: int)
    ensures Apart(3600, n, a, b) <==> b == a + n * 3600
  {
    if b == a + n * 3600 { assert b / 3600 == a / 3600 + n; }
  }

  lemma DaysApart(n: int, s: int, t: int, off: int)
    ensures SameClock(s, t, off) && DayOf(t, off) - DayOf(s, off) == n <==> t == s + n * DAY_SECONDS
  {
    var a, b := s + off, t + off;
    if b == a + n * DAY_SECONDS { assert b / DAY_SECONDS == a / DAY_SECONDS + n; }
  }

  lemma SameWeekday(n: int, s: int, t: int, off: int)
    requires DayOf(t, off) - DayOf(s, off) == 7 * n
    ensures WeekDay(t, off) == WeekDay(s, off)
  {
    hide DayOf;
    var d := DayOf(s, off) + 4;
    assert (d + 7 * n) % 7 == d % 7;
  }

  /** Word `w` is the instant n units after now, modulo 2^32. */
  ghost predicate IsAfter(env: Env, n: nat, u: Adverb, w: int) {
    exists t :: Elapsed(u, n, env.now, t, env.off) && w == t % U32
  }

  /** Going on by d seconds is going on by n units, from wherever one starts. */
  ghost predicate Strides(u: Adverb, n: nat, d: int) {
    forall s, off :: Reaches(u, n, d, s, off)
  }

  predicate Reaches(u: Adverb, n: nat, d: int, s: int, off: int) {
    Elapsed(u, n, s, s + d, off)
  }

  ghost predicate IsStep(p: Period, w: int) {
    exists d :: Strides(p.unit, p.n, d) && w == d % U32
  }

  function PointAdverb(p: Point): Adverb {
    match p
    case Field(a, _) => a
    case Named(_) => Weekdays
    case AtTime(_) => Time
    case AtDate(_) => Date
    case AtDatetime(_) => Datetime
    case AtStamp(_) => Timestamp
  }

  function PointText(p: Point): string {
    match p
    case Field(_, v) => Decimal(v)
    case Named(name) => name
    case AtTime(text) => text
    case AtDate(text) => text
    case AtDatetime(text) => text
    case AtStamp(at) => Decimal(at)
  }

  /** Midnight of a date. */
  function DateStart(env: Env, text: string): int
    requires env.date(text).Some?
  {
    var d := env.date(text).value;
    MkTime(Tm(d.year, d.mon, d.mday, 0, 0, 0), env.off)
  }

  /** The instant that a date and time of day name. */
  function DatetimeAt(env: Env, text: string): int
    requires env.datetime(text).Some?
  {
    MkTime(env.datetime(text).value, env.off)
  }

  predicate ClockInRange(c: Clock) {
    0 <= c.hour < 24 && 0 <= c.min < 60 && 0 <= c.sec < 60
  }

  /** A point that lies ahead: a nameable field, a weekday, a time of day, or a date, datetime or timestamp not past. */
  predicate GoodNext(env: Env, p: Point) {
    match p
    case Field(a, v) => v <= LONG_MAX && Periodic(a) && Nameable(a, v, env.now, env.off)
    case Named(name) => PlainWord(name) && NamedWeekday(name) != 0
    case AtTime(text) => PlainWord(text) && env.clock(text).Some? && ClockInRange(env.clock(text).value)
    case AtDate(text) => PlainWord(text) && env.date(text).Some? && env.now <= DateStart(env, text)
    case AtDatetime(text) => Printable(text) && env.datetime(text).Some? && env.now <= DatetimeAt(env, text)
    case AtStamp(at) => env.now <= at <= LONG_MAX
  }

  predicate GoodJob(env: Env, j: Job) {
    && !env.stale
    && (match j.start
        case RightAway => true
        case After(n, u) => GoodCount(n, u)
        case OnNext(p) => GoodNext(env, p))
    && (j.every.Some? ==> GoodCount(j.every.value.n, j.every.value.unit))
    && (match j.bound
        case Unbounded => true
        case UntilNext(p) => GoodNext(env, p)
        case For(n, u) => GoodCount(n, u))
  }

  /** Every job is good, and only the first may start at once. */
  predicate GoodJobs(env: Env, js: seq<Job>) {
    js != [] && forall i :: 0 <= i < |js| ==> GoodJob(env, js[i]) && (0 < i ==> js[i].start != RightAway)
  }

  /** The instant of a point: the next match of a field, weekday or time of day, or the instant it names. */
  ghost predicate IsAt(env: Env, p: Point, t: int) {
    match p
    case Field(a, v) => LeastAfter(a, v, env.now, t, env.off)
    case Named(name) => LeastAfter(Weekdays, NamedWeekday(name), env.now, t, env.off)
    case AtTime(text) =>
      && env.clock(text).Some? && env.now <= t && ClockMatches(env.clock(text).value, t, env.off)
      && forall u :: env.now <= u < t ==> !ClockMatches(env.clock(text).value, u, env.off)
    case AtDate(text) => env.date(text).Some? && t == DateStart(env, text)
    case AtDatetime(text) => env.datetime(text).Some? && t == DatetimeAt(env, text)
    case AtStamp(at) => t == at
  }

  /** Word `w` is that instant modulo 2^32. */
  ghost predicate IsNext(env: Env, p: Point, w: int) {
    exists t :: IsAt(env, p, t) && w == t % U32
  }

  /** The schedule is the one the job asks for. */
  ghost predicate Fulfils(env: Env, j: Job, e: Scheduled) {
    && (match j.start
        case RightAway => e.trigger == env.now % U32
        case After(n, u) => IsAfter(env, n, u, e.trigger)
        case OnNext(p) => IsNext(env, p, e.trigger))
    && e.relativeTrigger == j.start.After?
    && (if j.every.Some? then IsStep(j.every.value, e.step) else e.step == 0)
    && e.monthAlign == (j.every.Some? && j.every.value.unit == Months)
    && e.yearAlign == (j.every.Some? && j.every.value.unit == Years)
    && (match j.bound
        case Unbounded => e.expire == 0
        case UntilNext(p) => IsNext(env, p, e.expire)
        case For(n, u) => IsAfter(env, n, u, e.expire))
    && e.relativeExpire == j.bound.For?
  }

  // ---- Clauses of a job ----

  function StartWhen(m: Moment): When {
    match m
    case RightAway => AtOnce
    case After(n, u) => Timed(In, u, Decimal(n))
    case OnNext(p) => Timed(On, PointAdverb(p), PointText(p))
  }

  function BoundConj(b: Bound, end: Option<Conj>): Option<Conj> {
    match b
    case Unbounded => end
    case UntilNext(_) => Some(Until)
    case For(_, _) => Some(While)
  }

  function BoundClauses(b: Bound, end: Option<Conj>): seq<Clause> {
    match b
    case Unbounded => []
    case UntilNext(p) => [Clause(Timed(To, PointAdverb(p), PointText(p)), end)]
    case For(n, u) => [Clause(Timed(In, u, Decimal(n)), end)]
  }

  /** The clauses of a job; the last one carries conjunction `end`. */
  function JobClauses(j: Job, end: Option<Conj>): (cs: seq<Clause>)
    ensures cs != []
  {
    var b := BoundConj(j.bound, end);
    (match j.every
     case None => [Clause(StartWhen(j.start), b)]
     case Some(p) => [Clause(StartWhen(j.start), Some(Then)), Clause(Timed(Every, p.unit, Decimal(p.n)), b)])
    + BoundClauses(j.bound, end)
  }

  function JobsClauses(js: seq<Job>): seq<Clause> {
    if js == [] then []
    else if |js| == 1 then JobClauses(js[0], None)
    else JobClauses(js[0], Some(And)) + JobsClauses(js[1..])
  }

  function JobSentence(env: Env, j: Job, end: Option<Conj>): Sentence {
    var b := BoundConj(j.bound, end);
    var limit := match j.bound
                 case Unbounded => Forever
                 case UntilNext(_) => UntilTo(Elaborate(env, BoundClauses(j.bound, end)[0]))
                 case For(_, _) => WhileIn(Elaborate(env, BoundClauses(j.bound, end)[0]));
    match j.every
    case None => Sentence(Elaborate(env, Clause(StartWhen(j.start), b)), None, limit)
    case Some(p) =>
      Sentence(Elaborate(env, Clause(StartWhen(j.start), Some(Then))),
               Some(Elaborate(env, Clause(Timed(Every, p.unit, Decimal(p.n)), b))), limit)
  }

  function JobsSentences(env: Env, js: seq<Job>): seq<Sentence> {
    if js == [] then []
    else if |js| == 1 then [JobSentence(env, js[0], None)]
    else [JobSentence(env, js[0], Some(And))] + JobsSentences(env, js[1..])
  }

  // ---- Words of a job ----

  function StartWords(m: Moment): seq<string> {
    match m
    case RightAway => ["now"]
    case After(n, u) => ["in", Decimal(n), AdverbWord(u)]
    case OnNext(p) => ["on", AdverbWord(PointAdverb(p)), PointText(p)]
  }

  function BoundWords(b: Bound): seq<string> {
    match b
    case Unbounded => []
    case UntilNext(p) => ["until", "to", AdverbWord(PointAdverb(p)), PointText(p)]
    case For(n, u) => ["while", "in", Decimal(n), AdverbWord(u)]
  }

  /** A job as a user writes it. */
  function JobWords(j: Job): seq<string> {
    StartWords(j.start)
    + (match j.every case None => [] case Some(p) => ["then", "every", Decimal(p.n), AdverbWord(p.unit)])
    + BoundWords(j.bound)
  }

  function JobsWords(js: seq<Job>): seq<string> {
    if js == [] then []
    else if |js| == 1 then JobWords(js[0])
    else JobWords(js[0]) + ["and"] + JobsWords(js[1..])
  }

  function ConjWords(c: Option<Conj>): seq<string> {
    if c.Some? then [ConjWord(c.value)] else []
  }

  lemma PrintedCons(c: Clause, cs: seq<Clause>)
    ensures PrintedClauses([c] + cs) == PrintedWhen(c.when) + ConjWords(c.conj) + PrintedClauses(cs)
  {
    assert ([c] + cs)[1..] == cs;
  }

  lemma PrintedNone()
    ensures PrintedClauses([]) == []
  {
  }

  lemma {:induction false} PrintedAppend(a: seq<Clause>, b: seq<Clause>)
    ensures PrintedClauses(a + b) == PrintedClauses(a) + PrintedClauses(b)
  {
    hide PrintedWhen, ConjWords, PrintedClauses;
    if a == [] {
      PrintedNone();
      assert a + b == b;
    } else {
      PrintedAppend(a[1..], b);
      PrintedCons(a[0], a[1..]);
      PrintedCons(a[0], a[1..] + b);
      assert a == [a[0]] + a[1..] && a + b == [a[0]] + (a[1..] + b);
      var w, x, y := PrintedWhen(a[0].when) + ConjWords(a[0].conj), PrintedClauses(a[1..]), PrintedClauses(b);
      assert w + x + y == w + (x + y);
    }
  }

  lemma BoundPrinted(b: Bound, end: Option<Conj>)
    ensures ConjWords(BoundConj(b, end)) + PrintedClauses(BoundClauses(b, end)) == BoundWords(b) + ConjWords(end)
  {
    hide Decimal;
    if b.Unbounded? {
      PrintedNone();
    } else {
      var c := BoundClauses(b, end)[0];
      assert BoundClauses(b, end) == [c] + [];
      PrintedCons(c, []);
    }
  }

  lemma StartPrinted(m: Moment)
    ensures PrintedWhen(StartWhen(m)) == StartWords(m)
  {
    hide Decimal;
  }

  /** The clauses of a job print as the words that a user writes. */
  lemma JobPrinted(j: Job, end: Option<Conj>)
    ensures PrintedClauses(JobClauses(j, end)) == JobWords(j) + ConjWords(end)
  {
    hide Decimal, PrintedClauses, BoundWords, BoundClauses, BoundConj, StartWords, StartWhen, ConjWords;
    var b, rest := BoundConj(j.bound, end), BoundClauses(j.bound, end);
    StartPrinted(j.start);
    BoundPrinted(j.bound, end);
    match j.every {
      case None =>
        PrintedCons(Clause(StartWhen(j.start), b), rest);
        Regroup(StartWords(j.start), [], [], ConjWords(b), PrintedClauses(rest));
        Regroup(StartWords(j.start), [], [], BoundWords(j.bound), ConjWords(end));
      case Some(p) =>
        var e := Clause(Timed(Every, p.unit, Decimal(p.n)), b);
        PrintedCons(e, rest);
        PrintedCons(Clause(StartWhen(j.start), Some(Then)), [e] + rest);
        assert JobClauses(j, end) == [Clause(StartWhen(j.start), Some(Then))] + ([e] + rest);
        EveryPrinted(p);
        Regroup(StartWords(j.start), ConjWords(Some(Then)), PrintedWhen(e.when), ConjWords(b), PrintedClauses(rest));
        var every := ConjWords(Some(Then)) + PrintedWhen(e.when);
        Regroup(StartWords(j.start), [], every, BoundWords(j.bound), ConjWords(end));
    }
  }

  lemma Regroup(a: seq<string>, b: seq<string>, c: seq<string>, d: seq<string>, e: seq<string>)
    ensures a + b + (c + d + e) == a + (b + c) + (d + e) == a + (b + c) + d + e
    ensures a + [] == a && [] + c == c
  {
  }

  lemma EveryPrinted(p: Period)
    ensures ConjWords(Some(Then)) + PrintedWhen(Timed(Every, p.unit, Decimal(p.n))) ==
            ["then", "every", Decimal(p.n), AdverbWord(p.unit)]
  {
    hide Decimal;
  }

  lemma {:induction false} JobsPrinted(js: seq<Job>)
    ensures PrintedClauses(JobsClauses(js)) == JobsWords(js)
  {
    hide JobClauses, JobWords;
    if |js| == 1 {
      JobPrinted(js[0], None);
      assert JobWords(js[0]) + [] == JobWords(js[0]);
    } else if js != [] {
      JobPrinted(js[0], Some(And));
      JobsPrinted(js[1..]);
      PrintedAppend(JobClauses(js[0], Some(And)), JobsClauses(js[1..]));
    }
  }

  // ---- Arguments ----

  lemma CountArg(env: Env, p: Prep, n: nat, unit: Adverb)
    requires !env.stale && GoodCount(n, unit) && (p == In || p == Every)
    ensures var r := ArgValue(env, p, unit, Decimal(n));
            && 0 <= r.val && Elapsed(unit, n, env.now, env.now + r.val, env.off) && Strides(unit, n, r.val)
            && r.monthAlign == (unit == Months) && r.yearAlign == (unit == Years)
  {
    hide Strtol, OnToValue, Elapsed;
    StrtolOfDecimal(n);
    var d := n * UnitSeconds(unit);
    assert ArgValue(env, p, unit, Decimal(n)) == Arg(d, unit == Months, unit == Years);
    ElapsedIs(unit, n, env.now, env.now + d, env.off);
    forall s, off ensures Reaches(unit, n, d, s, off) { ElapsedIs(unit, n, s, s + d, off); }
  }

  lemma DecimalIsNoWeekday(v: nat)
    ensures NamedWeekday(Decimal(v)) == 0
  {
    var s := Decimal(v);
    assert IsDigit(s[0]);
    assert |Lower(s)| == |s| && Lower(s)[0] == s[0];
  }

  /** The value of "on" and "to" is the distance to the point. */
  lemma NextArg(env: Env, p: Prep, at: Point)
    requires !env.stale && GoodNext(env, at) && (p == On || p == To)
    ensures var r := ArgValue(env, p, PointAdverb(at), PointText(at));
            0 <= r.val && IsAt(env, at, env.now + r.val)
  {
    hide Strtol, Target, NamedWeekday, Nameable, LeastAfter, MkTime, ClockMatches, TodayOrTomorrow, PlainWord,
      Printable;
    match at {
      case Field(a, v) => FieldArg(env, p, a, v);
      case Named(name) => WeekdayArg(env, p, name);
      case AtTime(text) => TimeIsLeast(env.clock(text).value, env.now, env.off);
      case AtDate(text) =>
      case AtDatetime(text) =>
      case AtStamp(n) => StrtolOfDecimal(n);
    }
  }

  /** "on" and "to" with a date, a datetime or a timestamp are refused exactly if it has gone by or cannot be read. */
  lemma AbsoluteIff(env: Env, p: Prep, at: Point)
    requires !env.stale && 0 <= env.now && (p == On || p == To)
    requires at.AtDate? || at.AtDatetime? || (at.AtStamp? && at.at <= LONG_MAX)
    ensures 0 <= ArgValue(env, p, PointAdverb(at), PointText(at)).val <==>
            match at
            case AtDate(text) => env.date(text).Some? && env.now <= DateStart(env, text)
            case AtDatetime(text) => env.datetime(text).Some? && env.now <= DatetimeAt(env, text)
            case AtStamp(n) => env.now <= n
            case _ => false
  {
    hide Strtol, MkTime;
    if at.AtStamp? { StrtolOfDecimal(at.at); }
  }

  lemma WeekdayArg(env: Env, p: Prep, name: string)
    requires NamedWeekday(name) != 0 && (p == On || p == To)
    ensures var r := ArgValue(env, p, Weekdays, name);
            0 < r.val && LeastAfter(Weekdays, NamedWeekday(name), env.now, env.now + r.val, env.off)
  {
    hide Strtol, Target, LeastAfter;
    var d := NamedWeekday(name);
    assert Nameable(Weekdays, d, env.now, env.off);
    LeastIffNameable(Weekdays, d, env.now, env.off);
    LeastIsAfter(env, Weekdays, d, Target(Weekdays, d, env.now, env.off));
  }

  lemma FieldArg(env: Env, p: Prep, a: Adverb, v: nat)
    requires !env.stale && GoodNext(env, Field(a, v)) && (p == On || p == To)
    ensures var r := ArgValue(env, p, a, Decimal(v));
            0 < r.val && LeastAfter(a, v, env.now, env.now + r.val, env.off)
  {
    hide Strtol, Target, NamedWeekday, Nameable, LeastAfter;
    StrtolOfDecimal(v);
    DecimalIsNoWeekday(v);
    LeastIffNameable(a, v, env.now, env.off);
    assert ArgValue(env, p, a, Decimal(v)).val == Target(a, v, env.now, env.off) - env.now by {
      NameableWeekday(env, a, v);
    }
    LeastIsAfter(env, a, v, Target(a, v, env.now, env.off));
  }

  lemma NameableWeekday(env: Env, a: Adverb, v: nat)
    requires Nameable(a, v, env.now, env.off)
    ensures a == Weekdays ==> 1 <= v <= 7
  {
  }

  lemma LeastIsAfter(env: Env, a: Adverb, v: nat, t: int)
    requires LeastAfter(a, v, env.now, t, env.off)
    ensures env.now < t
  {
  }

  // ---- One job ----

  lemma JobFlattens(env: Env, j: Job, end: Option<Conj>)
    ensures ElaborateAll(env, JobClauses(j, end)) == Flatten(JobSentence(env, j, end))
  {
    hide ArgValue, Decimal;
    var cs := JobClauses(j, end);
    var rs := Flatten(JobSentence(env, j, end));
    assert |cs| == |rs|;
    assert forall i :: 0 <= i < |cs| ==> Elaborate(env, cs[i]) == rs[i];
  }

  lemma JobProper(env: Env, j: Job, end: Option<Conj>)
    requires end == None || end == Some(And)
    ensures Proper(JobSentence(env, j, end))
  {
    hide ArgValue, Decimal;
  }

  lemma JobArgs(env: Env, j: Job, end: Option<Conj>)
    requires GoodJob(env, j)
    ensures ArgsAccepted(env, JobClauses(j, end))
  {
    hide ArgValue, Decimal, LeastAfter, GoodCount, GoodNext;
    match j.start {
      case RightAway =>
      case After(n, u) => CountArg(env, In, n, u);
      case OnNext(p) => NextArg(env, On, p);
    }
    if j.every.Some? { CountArg(env, Every, j.every.value.n, j.every.value.unit); }
    match j.bound {
      case Unbounded =>
      case UntilNext(p) => NextArg(env, To, p);
      case For(n, u) => CountArg(env, In, n, u);
    }
  }

  /** The denotation of a job's sentence is what the job asks for. */
  lemma JobFulfilled(env: Env, j: Job, end: Option<Conj>)
    requires GoodJob(env, j)
    ensures Fulfils(env, j, Denote(JobSentence(env, j, end), env.now))
  {
    hide ArgValue, Decimal, LeastAfter, GoodCount, GoodNext, Elapsed, Strides;
    match j.start {
      case RightAway =>
      case After(n, u) => CountArg(env, In, n, u);
      case OnNext(p) => NextArg(env, On, p);
    }
    if j.every.Some? { CountArg(env, Every, j.every.value.n, j.every.value.unit); }
    match j.bound {
      case Unbounded =>
      case UntilNext(p) => NextArg(env, To, p);
      case For(n, u) => CountArg(env, In, n, u);
    }
  }

  /** A job's clauses keep the rules after nothing or "and", as long as only the very first clause is "now". */
  lemma JobRules(j: Job, prev: Option<Conj>, end: Option<Conj>)
    requires prev == None || (prev == Some(And) && j.start != RightAway)
    requires end == None || end == Some(And)
    ensures Ruled(prev, JobClauses(j, end))
  {
    hide Decimal;
  }

  // ---- All jobs ----

  lemma {:induction false} ElaborateAppend(env: Env, a: seq<Clause>, b: seq<Clause>)
    ensures ElaborateAll(env, a + b) == ElaborateAll(env, a) + ElaborateAll(env, b)
  {
    hide Elaborate;
  }

  lemma RuledAppend(prev: Option<Conj>, a: seq<Clause>, b: seq<Clause>)
    requires a != [] && Ruled(prev, a) && Ruled(a[|a| - 1].conj, b)
    ensures Ruled(prev, a + b)
  {
    hide Rules;
    forall i | 0 <= i < |a + b| ensures Rules(Before(prev, a + b, i), (a + b)[i]) {
      if i < |a| {
        assert Rules(Before(prev, a, i), a[i]);
      } else {
        assert Rules(Before(a[|a| - 1].conj, b, i - |a|), b[i - |a|]);
      }
    }
  }

  /** All conjunctions inside a job's clauses are there, and the last one is `end`. */
  lemma JobChained(j: Job, end: Option<Conj>)
    ensures var cs := JobClauses(j, end);
            && cs[|cs| - 1].conj == end
            && (forall i :: 0 <= i < |cs| - 1 ==> cs[i].conj.Some?)
            && (forall i :: 0 <= i < |cs| ==> cs[i].when.Timed? ==> cs[i].when.prep != Now)
            && PrepOf(cs[0]) != Every
  {
  }

  lemma {:induction false} JobsFlatten(env: Env, js: seq<Job>)
    ensures ElaborateAll(env, JobsClauses(js)) == FlattenAll(JobsSentences(env, js))
    ensures |JobsSentences(env, js)| == |js| && AllProper(JobsSentences(env, js))
  {
    hide JobClauses, JobSentence, Flatten, ElaborateAll, Proper;
    if js == [] {
      assert ElaborateAll(env, []) == [];
    } else {
      var end := if |js| == 1 then None else Some(And);
      JobFlattens(env, js[0], end);
      JobProper(env, js[0], end);
      if |js| == 1 {
        var ss := JobsSentences(env, js);
        assert ss[1..] == [] && Flatten(ss[0]) + [] == Flatten(ss[0]);
      } else {
        JobsFlatten(env, js[1..]);
        ElaborateAppend(env, JobClauses(js[0], end), JobsClauses(js[1..]));
        assert JobsSentences(env, js)[1..] == JobsSentences(env, js[1..]);
      }
    }
  }

  lemma {:induction false} JobsGrammar(env: Env, js: seq<Job>, prev: Option<Conj>)
    requires js != [] && forall i :: 0 <= i < |js| ==> GoodJob(env, js[i]) && (0 < i ==> js[i].start != RightAway)
    requires prev == None || (prev == Some(And) && js[0].start != RightAway)
    ensures var cs := JobsClauses(js);
            Chained(cs) && Ruled(prev, cs) && ArgsAccepted(env, cs) && PrepOf(cs[0]) != Every
  {
    hide JobClauses, GoodJob, Ruled;
    var end := if |js| == 1 then None else Some(And);
    var a := JobClauses(js[0], end);
    JobChained(js[0], end);
    JobRules(js[0], prev, end);
    JobArgs(env, js[0], end);
    if |js| > 1 {
      JobsGrammar(env, js[1..], end);
      var b := JobsClauses(js[1..]);
      RuledAppend(prev, a, b);
      assert JobsClauses(js) == a + b;
    }
  }

  lemma {:induction false} JobsFulfilled(env: Env, js: seq<Job>, i: nat)
    requires i < |js| && forall i :: 0 <= i < |js| ==> GoodJob(env, js[i])
    ensures |JobsSentences(env, js)| == |js| && Fulfils(env, js[i], Denote(JobsSentences(env, js)[i], env.now))
  {
    hide GoodJob, Fulfils, Denote, JobSentence;
    JobsFlatten(env, js);
    if i == 0 {
      JobFulfilled(env, js[0], if |js| == 1 then None else Some(And));
    } else {
      JobsFulfilled(env, js[1..], i - 1);
    }
  }

  // ---- The text ----

  predicate PlainWord(w: string) {
    T.Solid(w) && !T.IsQuote(w[0])
  }

  /** A plain word, or words with single blanks between them that can be quoted. */
  predicate Printable(w: string) {
    PlainWord(w) ||
    var ws := T.Words(w);
    T.Join(ws) == w && T.SolidWords('\'', ws) && T.Closable(T.Phrase('\'', ws))
  }

  predicate AllPrintable(ws: seq<string>) {
    forall i :: 0 <= i < |ws| ==> Printable(ws[i])
  }

  /** How a user writes an argument. */
  function AsToken(w: string): T.Token {
    if PlainWord(w) then T.Word(w) else T.Phrase('\'', T.Words(w))
  }

  lemma AsTokenIs(w: string)
    requires Printable(w)
    ensures T.WellFormed(AsToken(w)) && T.Closable(AsToken(w)) && T.Text(AsToken(w)) == w
  {
    hide T.Words, T.Join, T.Solid;
  }

  function AsTokens(ws: seq<string>): (ts: seq<T.Token>)
    ensures |ts| == |ws| && forall i :: 0 <= i < |ws| ==> ts[i] == AsToken(ws[i])
  {
    seq(|ws|, i requires 0 <= i < |ws| => AsToken(ws[i]))
  }

  /** run '<subject>' <clauses> */
  function CommandTokens(subject: seq<string>, js: seq<Job>): seq<T.Token> {
    [T.Word("run"), T.Phrase('\'', subject)] + AsTokens(JobsWords(js))
  }

  lemma DecimalPlain(n: nat)
    ensures PlainWord(Decimal(n))
  {
  }

  lemma KeywordsPlain(p: Prep, a: Adverb, c: Conj)
    ensures PlainWord(PrepWord(p)) && PlainWord(AdverbWord(a)) && PlainWord(ConjWord(c))
  {
  }

  lemma KeywordsPrintable(p: Prep, a: Adverb, c: Conj)
    ensures Printable(PrepWord(p)) && Printable(AdverbWord(a)) && Printable(ConjWord(c))
  {
    hide PlainWord, Printable;
    KeywordsPlain(p, a, c);
    PlainPrintable(PrepWord(p));
    PlainPrintable(AdverbWord(a));
    PlainPrintable(ConjWord(c));
  }

  lemma PlainPrintable(w: string)
    requires PlainWord(w)
    ensures Printable(w)
  {
  }

  predicate GoodTexts(cs: seq<Clause>) {
    forall i :: 0 <= i < |cs| ==> cs[i].when.Timed? ==> Printable(cs[i].when.text)
  }

  lemma {:induction false} PrintedPrintable(cs: seq<Clause>)
    requires GoodTexts(cs)
    ensures AllPrintable(PrintedClauses(cs))
  {
    hide PlainWord, Printable;
    if cs != [] {
      var c := cs[0];
      var a := if c.when.Timed? then c.when.adverb else Seconds;
      KeywordsPrintable(PrepOf(c), a, if c.conj.Some? then c.conj.value else And);
      PrintedPrintable(cs[1..]);
    }
  }

  lemma JobTexts(env: Env, j: Job, end: Option<Conj>)
    requires GoodJob(env, j)
    ensures GoodTexts(JobClauses(j, end))
  {
    hide Decimal, PlainWord, Printable;
    forall n: nat ensures Printable(Decimal(n)) {
      DecimalPlain(n);
      PlainPrintable(Decimal(n));
    }
    if j.start.OnNext? { PointPrintable(env, j.start.point); }
    if j.bound.UntilNext? { PointPrintable(env, j.bound.point); }
  }

  lemma PointPrintable(env: Env, p: Point)
    requires GoodNext(env, p)
    ensures Printable(PointText(p))
  {
    hide Decimal, T.Words, T.Join, T.SolidWords;
    match p {
      case Field(_, v) => DecimalPlain(v);
      case AtStamp(at) => DecimalPlain(at);
      case _ =>
    }
  }

  lemma {:induction false} JobsTexts(env: Env, js: seq<Job>)
    requires forall i :: 0 <= i < |js| ==> GoodJob(env, js[i])
    ensures GoodTexts(JobsClauses(js))
  {
    hide JobClauses, Printable, GoodJob;
    if js != [] {
      JobTexts(env, js[0], if |js| == 1 then None else Some(And));
      JobsTexts(env, js[1..]);
    }
  }

  lemma {:induction false} TextsOfWords(ws: seq<string>)
    requires AllPrintable(ws)
    ensures T.Texts(AsTokens(ws)) == ws
  {
    hide Printable, AsToken, T.Text;
    if ws != [] {
      AsTokenIs(ws[0]);
      assert AsTokens(ws)[1..] == AsTokens(ws[1..]);
      TextsOfWords(ws[1..]);
      assert ws == [ws[0]] + ws[1..];
    }
  }

  lemma CommandWellFormed(env: Env, subject: seq<string>, js: seq<Job>)
    requires GoodJobs(env, js) && T.SolidWords('\'', subject)
    ensures AllPrintable(PrintedClauses(JobsClauses(js)))
    ensures var ts := CommandTokens(subject, js);
            T.AllWellFormed(ts) && (T.Closable(ts[1]) ==> forall i :: 0 <= i < |ts| ==> T.Closable(ts[i]))
  {
    hide T.Solid, JobsClauses, PrintedClauses, JobsWords, GoodJob, Printable, AsToken;
    var ws := PrintedClauses(JobsClauses(js));
    JobsTexts(env, js);
    PrintedPrintable(JobsClauses(js));
    KeywordRun();
    JobsPrinted(js);
    var ts := CommandTokens(subject, js);
    forall i | 0 <= i < |ts| ensures T.WellFormed(ts[i]) && (T.Closable(ts[1]) ==> T.Closable(ts[i])) {
      if i >= 2 {
        assert ts[i] == AsToken(ws[i - 2]);
        AsTokenIs(ws[i - 2]);
      }
    }
  }

  lemma CommandTexts(subject: seq<string>, js: seq<Job>)
    requires AllPrintable(PrintedClauses(JobsClauses(js)))
    ensures T.Texts(CommandTokens(subject, js)) == ["run", T.Join(subject)] + PrintedClauses(JobsClauses(js))
  {
    hide T.Join, T.Texts, JobsClauses, PrintedClauses, JobsWords, Printable, AsToken;
    var ws := PrintedClauses(JobsClauses(js));
    JobsPrinted(js);
    var run, subj, rest := T.Word("run"), T.Phrase('\'', subject), AsTokens(ws);
    TextsOfWords(ws);
    TextsCons(subj, rest);
    TextsCons(run, [subj] + rest);
    assert CommandTokens(subject, js) == [run] + ([subj] + rest);
    assert ["run"] + ([T.Join(subject)] + ws) == ["run", T.Join(subject)] + ws;
  }

  lemma TextsCons(t: T.Token, ts: seq<T.Token>)
    ensures T.Texts([t] + ts) == [T.Text(t)] + T.Texts(ts)
  {
  }

  /** The arguments of the printed command. */
  lemma CommandArguments(env: Env, subject: seq<string>, js: seq<Job>)
    requires GoodJobs(env, js) && T.SolidWords('\'', subject) && T.Closable(T.Phrase('\'', subject))
    ensures T.Arguments(T.Words(T.Printed(CommandTokens(subject, js))))
            == Some(["run", T.Join(subject)] + PrintedClauses(JobsClauses(js)))
  {
    hide T.Arguments, T.Words, T.Printed, T.Join, T.SolidWords, T.Texts, JobsClauses, PrintedClauses, GoodJobs,
      Printable, T.Closable;
    var ts := CommandTokens(subject, js);
    CommandWellFormed(env, subject, js);
    assert ts[1] == T.Phrase('\'', subject);
    T.TokenizePrinted(ts);
    CommandTexts(subject, js);
  }

  lemma KeywordRun()
    ensures T.Solid("run") && !T.IsQuote("run"[0]) && Lower("run") == "run"
  {
  }

  /**
   The printed command of any list of jobs compiles to its subject and one schedule per job, each the one
   the job asks for: in particular "on" and "until to" with a field, a weekday or a time of day give the least
   matching instant, and with a date or timestamp that instant.
   */
  lemma CompileCorrect(env: Env, subject: seq<string>, js: seq<Job>)
    requires GoodJobs(env, js)
    requires T.SolidWords('\'', subject) && T.Closable(T.Phrase('\'', subject))
    ensures var r := Compiled(env, T.Printed(CommandTokens(subject, js)));
            && r.Some? && r.value.0 == T.Join(subject) && |r.value.1| == |js|
            && forall i :: 0 <= i < |js| ==> Fulfils(env, js[i], r.value.1[i])
  {
    hide T.Arguments, T.Words, T.Printed, T.Join, JobsClauses, PrintedClauses, ParsePrep, Fulfils, GoodJob,
      JobsSentences;
    var cs, ss := JobsClauses(js), JobsSentences(env, js);
    var ws, rs := PrintedClauses(cs), ElaborateAll(env, cs);
    var argv := ["run", T.Join(subject)] + ws;
    CommandArguments(env, subject, js);
    JobsGrammar(env, js, None);
    ParsePrinted(env, None, cs);
    KeywordRun();
    assert argv[2..] == ws && argv[0] == "run" && argv[1] == T.Join(subject);
    assert ParseInstruction(env, argv) == Some(Run(T.Join(subject), rs));
    JobsFlatten(env, js);
    assert rs[0] == Elaborate(env, cs[0]);
    SentencesIff(rs, ss);
    assert Meaning(rs, env.now) == Some(DenoteAll(ss, env.now));
    forall i | 0 <= i < |js| ensures Fulfils(env, js[i], DenoteAll(ss, env.now)[i]) {
      JobsFulfilled(env, js, i);
    }
  }
}
