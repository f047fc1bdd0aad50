/** The vocabulary of the request language and its spelling. */
module Language {
  import opened Wrappers

  datatype Prep = In | On | Every | Now | To

  datatype Adverb =
    | Seconds | Minutes | Hours | Days | Weeks | Months | Years
    | Weekdays | Time | Date | Datetime | Timestamp

  datatype Conj = And | Then | Until | While

  function LowerChar(c: char): char {
    if 'A' <= c <= 'Z' then (c as int + 32) as char else c
  }

  function Lower(s: string): string {
    seq(|s|, i requires 0 <= i < |s| => LowerChar(s[i]))
  }

  function PrepWord(p: Prep): string {
    match p
    case In => "in"
    case On => "on"
    case Every => "every"
    case Now => "now"
    case To => "to"
  }

  function ConjWord(c: Conj): string {
    match c
    case And => "and"
    case Then => "then"
    case Until => "until"
    case While => "while"
  }

  /** The plural spelling; the singular is the alternative of the first eight. */
  function AdverbWord(a: Adverb): string {
    match a
    case Seconds => "seconds"
    case Minutes => "minutes"
    case Hours => "hours"
    case Days => "days"
    case Weeks => "weeks"
    case Months => "months"
    case Years => "years"
    case Weekdays => "weekdays"
    case Time => "time"
    case Date => "date"
    case Datetime => "datetime"
    case Timestamp => "timestamp"
  }

  function AdverbSingular(a: Adverb): string {
    match a
    case Seconds => "second"
    case Minutes => "minute"
    case Hours => "hour"
    case Days => "day"
    case Weeks => "week"
    case Months => "month"
    case Years => "year"
    case Weekdays => "weekday"
    case _ => AdverbWord(a)
  }

  // The lookups compare with strcasecmp(), that is, up to the case of ASCII letters.

  function GetPrep(s: string): Option<Prep> {
    var w := Lower(s);
    if w == "in" then Some(In)
    else if w == "on" then Some(On)
    else if w == "every" then Some(Every)
    else if w == "now" then Some(Now)
    else if w == "to" then Some(To)
    else None
  }

  function GetConj(s: string): Option<Conj> {
    var w := Lower(s);
    if w == "and" then Some(And)
    else if w == "then" then Some(Then)
    else if w == "until" then Some(Until)
    else if w == "while" then Some(While)
    else None
  }

  function GetAdverb(s: string): Option<Adverb> {
    AdverbOf(Lower(s))
  }

  function AdverbOf(w: string): Option<Adverb> {
    if w == "second" || w == "seconds" then Some(Seconds)
    else if w == "minute" || w == "minutes" then Some(Minutes)
    else if w == "hour" || w == "hours" then Some(Hours)
    else if w == "day" || w == "days" then Some(Days)
    else if w == "week" || w == "weeks" then Some(Weeks)
    else if w == "month" || w == "months" then Some(Months)
    else if w == "year" || w == "years" then Some(Years)
    else if w == "weekday" || w == "weekdays" then Some(Weekdays)
    else if w == "time" then Some(Time)
    else if w == "date" then Some(Date)
    else if w == "datetime" then Some(Datetime)
    else if w == "timestamp" then Some(Timestamp)
    else None
  }

  lemma LowerFixed(w: string)
    requires forall i :: 0 <= i < |w| ==> !('A' <= w[i] <= 'Z')
    ensures Lower(w) == w
  {
  }

  /** A word is read as a preposition iff it spells it, in any case. */
  lemma PrepSpelling(s: string, p: Prep)
    ensures GetPrep(s) == Some(p) <==> Lower(s) == PrepWord(p)
    ensures GetPrep(PrepWord(p)) == Some(p)
  {
    LowerFixed(PrepWord(p));
    assert "in"[0] == 'i' && "on"[0] == 'o' && "to"[0] == 't';
  }

  lemma ConjSpelling(s: string, c: Conj)
    ensures GetConj(s) == Some(c) <==> Lower(s) == ConjWord(c)
    ensures GetConj(ConjWord(c)) == Some(c)
  {
    LowerFixed(ConjWord(c));
    assert "until"[0] == 'u' && "while"[0] == 'w';
  }

  lemma AdverbOfWord(a: Adverb)
    ensures AdverbOf(AdverbWord(a)) == Some(a) && AdverbOf(AdverbSingular(a)) == Some(a)
  {
    // words of equal length differ in their first, second or third letter
    assert "second"[0] == 's' && "minute"[0] == 'm' && "months"[0] == 'm' && "months"[1] == 'o' && "minute"[1] == 'i';
    assert "seconds"[0] == 's' && "minutes"[0] == 'm' && "weekday"[0] == 'w';
    assert "hour"[0] == 'h' && "week"[0] == 'w' && "year"[0] == 'y' && "time"[0] == 't';
    assert "days"[0] == 'd' && "date"[0] == 'd' && "days"[2] == 'y' && "date"[2] == 't';
    assert "hours"[0] == 'h' && "weeks"[0] == 'w' && "month"[0] == 'm' && "years"[0] == 'y';
    assert "weekdays"[0] == 'w' && "datetime"[0] == 'd';
  }

  lemma AdverbOfOnly(w: string, a: Adverb)
    requires AdverbOf(w) == Some(a)
    ensures w == AdverbWord(a) || w == AdverbSingular(a)
  {
  }

  /** A word is read as an adverbial of time iff it spells its plural or its singular, in any case. */
  lemma AdverbSpelling(s: string, a: Adverb)
    ensures GetAdverb(s) == Some(a) <==> Lower(s) == AdverbWord(a) || Lower(s) == AdverbSingular(a)
  {
    hide AdverbOf, AdverbWord, AdverbSingular, Lower;
    AdverbOfWord(a);
    if GetAdverb(s) == Some(a) { AdverbOfOnly(Lower(s), a); }
  }
}
