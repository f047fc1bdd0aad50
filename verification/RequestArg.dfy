/** The argument of a clause: _parse_req_arg() as a whole. */
module RequestArg {
  import opened Calendar
  import opened Language
  import opened NextOccurrence
  import opened Numbers
  import opened Wrappers

  datatype Clock = Clock(hour: int, min: int, sec: int)

  /**
   What the code reads from outside: the current time, the zone, and the strptime() formats
   "%H:%M:%S", "%Y-%m-%d" and "%Y-%m-%d %H:%M:%S" (None when the text does not match). `stale` tells that errno was
   left at EINVAL or ERANGE before: it is not reset, and refuses numbers.
   */
  datatype Env = Env(
    now: int, off: int, stale: bool,
    clock: string -> Option<Clock>, date: string -> Option<Tm>, datetime: string -> Option<Tm>)

  /** The value and alignment flags that a clause's argument yields; a negative value rejects the clause. */
  datatype Arg = Arg(val: int, monthAlign: bool, yearAlign: bool)

  predicate Textual(a: Adverb) {
    a == Weekdays || a == Datetime || a == Date || a == Time
  }

  /** The text is a whole, non-negative decimal number that fits a long. */
  predicate IsNumber(text: string) {
    var n := Strtol(text);
    n.end == |text| && n.end != 0 && n.val >= 0 && !n.range
  }

  function UnitSeconds(a: Adverb): int {
    match a
    case Seconds => 1
    case Minutes => 60
    case Hours => 3600
    case Days => 86400
    case Weeks => 604800
    case Months => 2592000
    case Years => 31536000
    case _ => 0
  }

  /** The weekday a text names: 1 (Sunday) to 7, or 0. */
  function NamedWeekday(text: string): (d: int)
    ensures 0 <= d <= 7
  {
    var w := Lower(text);
    if w == "sunday" then 1
    else if w == "monday" then 2
    else if w == "tuesday" then 3
    else if w == "wednesday" then 4
    else if w == "thursday" then 5
    else if w == "friday" then 6
    else if w == "saturday" then 7
    else 0
  }

  function ArgValue(env: Env, prep: Prep, a: Adverb, text: string): Arg {
    var n := Strtol(text).val;
    if !Textual(a) && (!IsNumber(text) || env.stale) then Arg(-1, false, false)
    else if prep != On && prep != To then
      if UnitSeconds(a) == 0 then Arg(-1, false, false)
      else Arg(n * UnitSeconds(a), a == Months, a == Years)
    else Arg(OnToValue(env, a, text, n), false, false)
  }

  /** Seconds from now to the instant that "on" or "to" names. */
  function OnToValue(env: Env, a: Adverb, text: string, n: int): int {
    match a
    case Timestamp => n - env.now
    case Years => if LocalTime(env.now, env.off).year - 1900 >= n then -1 else Target(a, n, env.now, env.off) - env.now
    case Weekdays =>
      var d := if NamedWeekday(text) != 0 then NamedWeekday(text) else n;
      if 1 <= d <= 7 then Target(a, d, env.now, env.off) - env.now else -1
    case Time =>
      (match env.clock(text)
       case None => -1
       case Some(c) => TodayOrTomorrow(c, env.now, env.off) - env.now)
    case Date =>
      (match env.date(text)
       case None => -1
       case Some(d) => MkTime(Tm(d.year, d.mon, d.mday, 0, 0, 0), env.off) - env.now)
    case Datetime =>
      (match env.datetime(text)
       case None => -1 - env.now
       case Some(d) => MkTime(d, env.off) - env.now)
    case _ => Target(a, n, env.now, env.off) - env.now
  }

  /** The clock time on the current day if it is still to come, else a day later. */
  function TodayOrTomorrow(c: Clock, now: int, off: int): int {
    var t := DayOf(now, off) * DAY_SECONDS + c.hour * 3600 + c.min * 60 + c.sec - off;
    if t < now then t + DAY_SECONDS else t
  }

  predicate ClockMatches(c: Clock, t: int, off: int) {
    var tm := LocalTime(t, off);
    tm.hour == c.hour && tm.min == c.min && tm.sec == c.sec
  }

  // ---- The code ----

  /** The fields of now, each with the part of the count that lies before it. */
  lemma NowFields(now: int, off: int)
    ensures var tm := LocalTime(now, off);
            var l := now + off;
            var day := (MonthFirst(12 * tm.year + tm.mon) + tm.mday - 1) * DAY_SECONDS;
            && tm.sec == l % 60 && tm.min == l % 3600 / 60 && tm.hour == l % 86400 / 3600
            && MonthIndex(now, off) == 12 * tm.year + tm.mon
            && DayOf(now, off) == MonthFirst(12 * tm.year + tm.mon) + tm.mday - 1
            && day == l / 86400 * 86400
            && day + tm.hour * 3600 == l / 3600 * 3600
            && day + tm.hour * 3600 + tm.min * 60 == l / 60 * 60
  {
    hide MonthOfDay, MonthFirst;
    NestedRemainder(now + off);
    LocalTimeThenMkTime(now, off);
  }

  /** The switch over the numeric adverbials of "on" and "to": bump one field, overwrite the smaller ones. */
  method BumpFields(a: Adverb, val: int, now: int, off: int) returns (r: int)
    requires a == Seconds || a == Minutes || a == Hours || a == Days || a == Weeks || a == Months || a == Years
    ensures r == if a == Years && LocalTime(now, off).year - 1900 >= val then -1 else Target(a, val, now, off) - now
    ensures Periodic(a) ==> (LeastAfter(a, val, now, now + r, off) <==> Nameable(a, val, now, off))
  {
    hide MonthOfDay, MonthFirst, LocalTime, LeastAfter, Nameable, DayOf, MonthIndex;
    var tm := LocalTime(now, off);
    NowFields(now, off);
    if Periodic(a) { LeastIffNameable(a, val, now, off); }
    match a {
      case Seconds =>
        if tm.sec >= val { tm := tm.(min := tm.min + 1); }
        tm := tm.(sec := val);
      case Minutes =>
        if tm.min >= val { tm := tm.(hour := tm.hour + 1); }
        tm := tm.(sec := 0, min := val);
      case Hours =>
        if tm.hour >= val { tm := tm.(mday := tm.mday + 1); }
        tm := tm.(sec := 0, min := 0, hour := val);
      case Days =>
        if tm.mday >= val { tm := tm.(mon := tm.mon + 1); }
        tm := tm.(sec := 0, min := 0, hour := 0, mday := val);
      case Weeks =>
        var yday := DayOf(now, off) - MonthFirst(12 * tm.year);
        if yday / 7 >= val { tm := tm.(year := tm.year + 1); }
        tm := tm.(sec := 0, min := 0, hour := 0, mon := 0, mday := val * 7);
      case Months =>
        if tm.mon >= val { tm := tm.(year := tm.year + 1); }
        tm := tm.(sec := 0, min := 0, hour := 0, mday := 1, mon := val);
      case Years =>
        if tm.year - 1900 >= val { return -1; }
        tm := tm.(sec := 0, min := 0, hour := 0, mon := 0, mday := 1, year := 1900 + val);
    }
    r := MkTime(tm, off) - now;
  }

  /** The chain of weekday tests takes a name before a number only when both agree: names read as number 0. */
  method ResolveWeekday(text: string, n: int) returns (d: int)
    requires n == Strtol(text).val
    ensures d == (if NamedWeekday(text) != 0 then NamedWeekday(text) else if 1 <= n <= 7 then n else 0)
  {
    var w := Lower(text);
    if NamedWeekday(text) != 0 { NamesAreNotNumbers(text); }
    if w == "sunday" || n == 1 {
      d := 1;
    } else if w == "monday" || n == 2 {
      d := 2;
    } else if w == "tuesday" || n == 3 {
      d := 3;
    } else if w == "wednesday" || n == 4 {
      d := 4;
    } else if w == "thursday" || n == 5 {
      d := 5;
    } else if w == "friday" || n == 6 {
      d := 6;
    } else if w == "saturday" || n == 7 {
      d := 7;
    } else {
      d := 0;
    }
  }

  lemma NamesAreNotNumbers(text: string)
    requires NamedWeekday(text) != 0
    ensures Strtol(text).val == 0
  {
    var w := Lower(text);
    assert |w| == |text| && w != [] && w[0] == LowerChar(text[0]);
    assert 'a' <= w[0];
    StrtolOfWord(text);
  }

  /** "every month" and "in 3 hours" scale; "on" and "to" look for the next occurrence. */
  method ParseRequestArg(env: Env, prep: Prep, a: Adverb, text: string) returns (arg: Arg)
    ensures arg == ArgValue(env, prep, a, text)
  {
    hide Strtol, IsNumber, NamedWeekday, Target, LocalTime, MonthFirst, DayOf, MonthIndex, MonthOfDay, LeastAfter,
      Nameable, MkTime, WeekDay, TodayOrTomorrow;
    arg := Arg(-1, false, false);
    var n := Strtol(text).val;
    if (!IsNumber(text) || env.stale) && a != Weekdays && a != Datetime && a != Date && a != Time {
      return;
    }
    if prep != On && prep != To {
      match a {
        case Seconds => arg := Arg(n, false, false);
        case Minutes => arg := Arg(n * 60, false, false);
        case Hours => arg := Arg(n * 3600, false, false);
        case Days => arg := Arg(n * 86400, false, false);
        case Weeks => arg := Arg(n * 86400 * 7, false, false);
        case Months => arg := Arg(n * 86400 * 30, true, false);
        case Years => arg := Arg(n * 86400 * 365, false, true);
        case _ =>
      }
      return;
    }
    var tm := LocalTime(env.now, env.off);
    var r := -1;
    match a {
      case Date =>
        var d := env.date(text);
        if d.Some? {
          tm := tm.(year := d.value.year, mon := d.value.mon, mday := d.value.mday);
          tm := tm.(sec := 0, min := 0, hour := 0);
          r := MkTime(tm, env.off) - env.now;
        }
      case Datetime =>
        var d := env.datetime(text);
        r := (if d.Some? then MkTime(d.value, env.off) else -1) - env.now;
      case Timestamp =>
        r := n - env.now;
      case Time =>
        var c := env.clock(text);
        if c.Some? {
          tm := tm.(hour := c.value.hour, min := c.value.min, sec := c.value.sec);
          var t := MkTime(tm, env.off);
          ClockToday(env, c.value);
          if t < env.now { t := t + 86400; }
          r := t - env.now;
        }
      case Weekdays =>
        var d := ResolveWeekday(text, n);
        if d != 0 {
          var w := WeekDay(env.now, env.off);
          tm := tm.(mday := tm.mday + (if w < d - 1 then (d - 1) - w else (7 - w) + (d - 1)));
          tm := tm.(sec := 0, min := 0, hour := 0);
          r := MkTime(tm, env.off) - env.now;
          WeekdayTarget(env, d);
        }
      case _ =>
        r := BumpFields(a, n, env.now, env.off);
    }
    arg := Arg(r, false, false);
  }

  lemma ClockToday(env: Env, c: Clock)
    ensures var tm := LocalTime(env.now, env.off);
            var t := MkTime(tm.(hour := c.hour, min := c.min, sec := c.sec), env.off);
            TodayOrTomorrow(c, env.now, env.off) == if t < env.now then t + 86400 else t
  {
  }

  lemma WeekdayTarget(env: Env, d: int)
    ensures var tm := LocalTime(env.now, env.off);
            var w := WeekDay(env.now, env.off);
            var delta := if w < d - 1 then (d - 1) - w else (7 - w) + (d - 1);
            MkTime(Tm(tm.year, tm.mon, tm.mday + delta, 0, 0, 0), env.off) == Target(Weekdays, d, env.now, env.off)
  {
  }

  // ---- What "time" means ----

  /** "on time h:m:s" is the least instant at or after now that shows this clock time, unless it names a leap second. */
  lemma TimeIsLeast(c: Clock, now: int, off: int)
    requires 0 <= c.hour < 24 && 0 <= c.min < 60 && 0 <= c.sec <= 60
    ensures var t := TodayOrTomorrow(c, now, off);
            (now <= t && ClockMatches(c, t, off) && forall u :: now <= u < t ==> !ClockMatches(c, u, off))
            <==> c.sec < 60
  {
    hide ClockMatches, TodayOrTomorrow;
    var t := TodayOrTomorrow(c, now, off);
    ClockMatchesSecond(c, t, off);
    if c.sec < 60 {
      ClockOnce(c, now, off, t);
      forall u | now <= u < t ensures !ClockMatches(c, u, off) {
        ClockMatchesSecond(c, u, off);
        ClockOnce(c, now, off, u);
      }
    }
  }

  lemma ClockMatchesSecond(c: Clock, t: int, off: int)
    requires 0 <= c.hour < 24 && 0 <= c.min < 60 && 0 <= c.sec
    ensures ClockMatches(c, t, off) <==> c.sec < 60 && SecondOfDay(t, off) == c.hour * 3600 + c.min * 60 + c.sec
  {
  }

  lemma ClockOnce(c: Clock, now: int, off: int, u: int)
    requires 0 <= c.hour < 24 && 0 <= c.min < 60 && 0 <= c.sec < 60
    ensures var t := TodayOrTomorrow(c, now, off);
            var s := c.hour * 3600 + c.min * 60 + c.sec;
            now <= t && SecondOfDay(t, off) == s && (now <= u < t ==> SecondOfDay(u, off) != s)
  {
  }
}
