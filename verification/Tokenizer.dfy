/** Splitting a command into arguments: parse_client_instruction(). */
module Tokenizer {
  import opened Wrappers

  // ---- Words between blanks, as strtok_r() yields them ----

  predicate IsBlank(c: char) {
    c == ' ' || c == '\t' || c == '\n'
  }

  predicate Solid(w: string) {
    w != [] && forall i :: 0 <= i < |w| ==> !IsBlank(w[i])
  }

  predicate AllSolid(ws: seq<string>) {
    forall i :: 0 <= i < |ws| ==> Solid(ws[i])
  }

  function SkipBlanks(s: string): (r: string)
    ensures |r| <= |s| && (r != [] ==> !IsBlank(r[0]))
  {
    if s != [] && IsBlank(s[0]) then SkipBlanks(s[1..]) else s
  }

  function WordLength(s: string): (n: nat)
    ensures n <= |s| && (forall i :: 0 <= i < n ==> !IsBlank(s[i])) && (n < |s| ==> IsBlank(s[n]))
  {
    if s == [] || IsBlank(s[0]) then 0 else 1 + WordLength(s[1..])
  }

  function Words(s: string): (ws: seq<string>)
    ensures AllSolid(ws)
    decreases |s|
  {
    var t := SkipBlanks(s);
    if t == [] then [] else
      var n := WordLength(t);
      [t[..n]] + Words(t[n..])
  }

  function Join(ws: seq<string>): string {
    if ws == [] then "" else if |ws| == 1 then ws[0] else ws[0] + " " + Join(ws[1..])
  }

  lemma WordLengthAt(w: string, rest: string)
    requires Solid(w) && (rest == [] || IsBlank(rest[0]))
    ensures SkipBlanks(w + rest) == w + rest && WordLength(w + rest) == |w|
  {
    var s := w + rest;
    assert s[0] == w[0];
    assert forall i :: 0 <= i < |w| ==> s[i] == w[i];
    assert rest != [] ==> s[|w|] == rest[0];
  }

  /** Words joined by single blanks come back. */
  lemma {:induction false} WordsOfJoin(ws: seq<string>)
    requires AllSolid(ws)
    ensures Words(Join(ws)) == ws
  {
    if |ws| == 1 {
      WordLengthAt(ws[0], "");
      assert ws[0] + "" == ws[0] && ws[0][..|ws[0]|] == ws[0] && ws[0][|ws[0]|..] == "";
    } else if |ws| > 1 {
      var rest := " " + Join(ws[1..]);
      var s := ws[0] + rest;
      assert Join(ws) == s;
      WordLengthAt(ws[0], rest);
      assert s[..|ws[0]|] == ws[0] && s[|ws[0]|..] == rest;
      WordsAfterBlank(Join(ws[1..]));
      WordsOfJoin(ws[1..]);
      assert [ws[0]] + ws[1..] == ws;
    }
  }

  lemma WordsAfterBlank(s: string)
    ensures Words(" " + s) == Words(s)
  {
  }

  // ---- Quoted arguments ----

  predicate IsQuote(c: char) {
    c == '\'' || c == '\"'
  }

  /** A later word of a quoted argument closes it. */
  predicate Closes(w: string, q: char)
    requires w != []
  {
    w[|w| - 1] == q && (|w| > 1 ==> w[|w| - 2] != '\\')
  }

  /** The first word without its quotes; with its NUL it fills the allocation exactly. */
  function Begin(w: string, done: bool): (r: string)
    requires w != [] && (done ==> |w| > 1)
    ensures |r| + 1 == |w| - (if done then 1 else 0)
  {
    if done then w[1..|w| - 1] else w[1..]
  }

  /** The argument with one more word, without the closing quote; it fits the size the code asks for. */
  function Extend(acc: string, w: string, done: bool): (r: string)
    requires w != []
    ensures |r| + 1 <= |acc| + 1 + |w| + (if done then 0 else 1)
    ensures acc != "" ==> |r| + 1 == |acc| + 1 + |w| + (if done then 0 else 1)
  {
    acc + (if acc == "" then "" else " ") + (if done then w[..|w| - 1] else w)
  }

  datatype Quoted = Open | Closed(text: string, rest: seq<string>)

  /** Extend an argument word by word until one closes it. */
  function Close(q: char, acc: string, ws: seq<string>): (r: Quoted)
    requires AllSolid(ws)
    ensures r.Closed? ==> |r.rest| < |ws| && r.rest == ws[|ws| - |r.rest|..]
    decreases |ws|
  {
    if ws == [] then Open
    else
      var done := Closes(ws[0], q);
      var acc' := Extend(acc, ws[0], done);
      if done then Closed(acc', ws[1..]) else Close(q, acc', ws[1..])
  }

  /** The quoted argument that starts with word ws[0]. */
  function Quote(ws: seq<string>): (r: Quoted)
    requires ws != [] && AllSolid(ws)
    ensures r.Closed? ==> |r.rest| < |ws| && r.rest == ws[|ws| - |r.rest|..]
  {
    var w := ws[0];
    if |w| > 1 && Closes(w, w[0]) then Closed(Begin(w, true), ws[1..]) else Close(w[0], Begin(w, false), ws[1..])
  }

  /** All arguments, or None when a quote stays open. */
  function Arguments(ws: seq<string>): Option<seq<string>>
    requires AllSolid(ws)
    decreases |ws|
  {
    if ws == [] then Some([])
    else if IsQuote(ws[0][0]) then
      match Quote(ws)
      case Open => None
      case Closed(text, rest) => Prepend(text, Arguments(rest))
    else Prepend(ws[0], Arguments(ws[1..]))
  }

  function Prepend(a: string, r: Option<seq<string>>): Option<seq<string>> {
    match r
    case None => None
    case Some(args) => Some([a] + args)
  }

  lemma CloseStep(q: char, acc: string, ws: seq<string>, i: nat)
    requires i < |ws| && AllSolid(ws)
    ensures Close(q, acc, ws[i..]) ==
            var acc' := Extend(acc, ws[i], Closes(ws[i], q));
            if Closes(ws[i], q) then Closed(acc', ws[i + 1..]) else Close(q, acc', ws[i + 1..])
  {
  }

  lemma QuoteStep(ws: seq<string>, i: nat)
    requires i < |ws| && AllSolid(ws)
    ensures var w := ws[i];
            var done := |w| > 1 && Closes(w, w[0]);
            Quote(ws[i..]) ==
            if done then Closed(Begin(w, true), ws[i + 1..]) else Close(w[0], Begin(w, false), ws[i + 1..])
  {
    hide Begin, Close;
    assert ws[i..][1..] == ws[i + 1..];
  }

  /** The branch of the loop that collects a quoted argument from ws[start] on. */
  method ReadQuoted(ws: seq<string>, start: nat) returns (done: bool, arg: string, next: nat)
    requires start < |ws| && AllSolid(ws)
    ensures start < next <= |ws|
    ensures Quote(ws[start..]) == if done then Closed(arg, ws[next..]) else Open
  {
    hide Extend, Close, Quote, Begin, Solid;
    SolidNonEmpty(ws[start]);
    var w := ws[start];
    var q, len := w[0], |w|;
    next := start + 1;
    done := len > 1 && w[len - 1] == q && w[len - 2] != '\\';
    arg := Begin(w, done);
    QuoteStep(ws, start);
    while !done && next < |ws|
      invariant start < next <= |ws|
      invariant Quote(ws[start..]) == if done then Closed(arg, ws[next..]) else Close(q, arg, ws[next..])
    {
      CloseStep(q, arg, ws, next);
      SolidNonEmpty(ws[next]);
      w := ws[next];
      next, len := next + 1, |w|;
      done := w[len - 1] == q && (len > 1 ==> w[len - 2] != '\\');
      arg := Extend(arg, w, done);
    }
    if !done {
      assert ws[next..] == [];
      NeverCloses(q, arg);
    }
  }

  lemma NeverCloses(q: char, acc: string)
    ensures Close(q, acc, []) == Open
  {
  }

  /** The loop of parse_client_instruction(), over the words that strtok_r() yields. */
  method Tokenize(cmd: string) returns (r: Option<seq<string>>)
    ensures r == Arguments(Words(cmd))
  {
    hide Words, Quote, Close;
    var ws := Words(cmd);
    var args: seq<string> := [];
    var i := 0;
    PrependNothing(Arguments(ws));
    assert ws[0..] == ws;
    while i < |ws|
      invariant 0 <= i <= |ws|
      invariant Arguments(ws) == PrependAll(args, Arguments(ws[i..]))
    {
      var arg, next := ws[i], i + 1;
      assert ws[i..][1..] == ws[i + 1..];
      if arg[0] == '\'' || arg[0] == '\"' {
        var done;
        done, arg, next := ReadQuoted(ws, i);
        if !done { return None; }
      }
      PrependLast(args, arg, Arguments(ws[next..]));
      args, i := args + [arg], next;
    }
    assert ws[i..] == [] && args + [] == args;
    r := Some(args);
  }

  ghost function PrependAll(xs: seq<string>, r: Option<seq<string>>): Option<seq<string>> {
    match r
    case None => None
    case Some(args) => Some(xs + args)
  }

  lemma PrependNothing(r: Option<seq<string>>)
    ensures PrependAll([], r) == r
  {
    if r.Some? { assert [] + r.value == r.value; }
  }

  lemma PrependLast(xs: seq<string>, a: string, r: Option<seq<string>>)
    ensures PrependAll(xs, Prepend(a, r)) == PrependAll(xs + [a], r)
  {
    if r.Some? { assert xs + ([a] + r.value) == xs + [a] + r.value; }
  }

  // ---- Printing ----

  /** An argument as a user writes it: a plain word, or words between quotes. */
  datatype Token = Word(text: string) | Phrase(quote: char, words: seq<string>)

  predicate WellFormed(t: Token) {
    match t
    case Word(text) => Solid(text) && !IsQuote(text[0])
    case Phrase(q, ws) => IsQuote(q) && forall i :: 0 <= i < |ws| ==> Solid(ws[i]) && q !in ws[i]
  }

  /** The argument that the token stands for. */
  function Text(t: Token): string {
    match t
    case Word(text) => text
    case Phrase(_, ws) => Join(ws)
  }

  /** The words after the first of a quoted phrase, the last one with the closing quote. */
  function Tail(q: char, ws: seq<string>): seq<string>
    requires ws != []
  {
    if |ws| == 1 then [ws[0] + [q]] else [ws[0]] + Tail(q, ws[1..])
  }

  function Spelled(t: Token): seq<string> {
    match t
    case Word(text) => [text]
    case Phrase(q, ws) =>
      if ws == [] then [[q, q]]
      else if |ws| == 1 then [[q] + ws[0] + [q]]
      else [[q] + ws[0]] + Tail(q, ws[1..])
  }

  function SpelledAll(ts: seq<Token>): seq<string> {
    if ts == [] then [] else Spelled(ts[0]) + SpelledAll(ts[1..])
  }

  function Texts(ts: seq<Token>): seq<string> {
    if ts == [] then [] else [Text(ts[0])] + Texts(ts[1..])
  }

  /** The closing quote is not escaped by a backslash before it. */
  predicate Closable(t: Token) {
    t.Phrase? && t.words != [] ==>
      var w := t.words[|t.words| - 1];
      w == [] || w[|w| - 1] != '\\'
  }

  predicate AllWellFormed(ts: seq<Token>) {
    forall i :: 0 <= i < |ts| ==> WellFormed(ts[i])
  }

  predicate SolidWords(q: char, ws: seq<string>) {
    forall i :: 0 <= i < |ws| ==> Solid(ws[i]) && q !in ws[i]
  }

  lemma QuotedSolid(w: string, q: char, pre: bool)
    requires Solid(w) && IsQuote(q)
    ensures Solid(if pre then [q] + w else w + [q])
  {
  }

  lemma {:induction false} TailSolid(q: char, ws: seq<string>)
    requires ws != [] && IsQuote(q) && SolidWords(q, ws)
    ensures AllSolid(Tail(q, ws))
  {
    if |ws| == 1 {
      QuotedSolid(ws[0], q, false);
    } else {
      TailSolid(q, ws[1..]);
    }
  }

  lemma SpelledSolid(t: Token)
    requires WellFormed(t)
    ensures Spelled(t) != [] && AllSolid(Spelled(t))
  {
    if t.Phrase? && t.words != [] {
      QuotedSolid(t.words[0], t.quote, true);
      if |t.words| == 1 {
        QuotedSolid([t.quote] + t.words[0], t.quote, false);
      } else {
        TailSolid(t.quote, t.words[1..]);
      }
    }
  }

  lemma {:induction false} SpelledAllSolid(ts: seq<Token>)
    requires AllWellFormed(ts)
    ensures AllSolid(SpelledAll(ts))
  {
    if ts != [] {
      SpelledSolid(ts[0]);
      SpelledAllSolid(ts[1..]);
    }
  }

  /** A phrase's last word closes it, unless its quote is escaped; then the quote stays in the text. */
  lemma CloseLast(q: char, acc: string, w: string, rest: seq<string>)
    requires acc != "" && IsQuote(q) && Solid(w) && q !in w && AllSolid([w + [q]] + rest)
    ensures var r := Close(q, acc, [w + [q]] + rest);
            if w[|w| - 1] != '\\' then r == Closed(acc + " " + w, rest) else r.Open? || q in r.text
  {
    hide Close;
    var all := [w + [q]] + rest;
    assert all[0..] == all && all[1..] == rest && (w + [q])[..|w|] == w;
    assert AllSolid(rest) by { assert forall i :: 0 <= i < |rest| ==> rest[i] == all[i + 1]; }
    CloseStep(q, acc, all, 0);
    if w[|w| - 1] == '\\' {
      QuoteStays(q, Extend(acc, w + [q], false), rest);
    }
  }

  /** Words that close give the words joined by blanks; words that do not leave their quote in the text. */
  lemma {:induction false} CloseTail(q: char, acc: string, ws: seq<string>, rest: seq<string>)
    requires acc != "" && ws != [] && IsQuote(q) && SolidWords(q, ws) && AllSolid(Tail(q, ws) + rest)
    ensures var r := Close(q, acc, Tail(q, ws) + rest);
            if Closable(Phrase(q, ws)) then r == Closed(acc + " " + Join(ws), rest)
            else r.Open? || q in r.text
    decreases |ws|
  {
    hide Close, Solid, IsQuote, Join, Tail, Extend;
    var w := ws[0];
    SolidNonEmpty(w);
    if |ws| == 1 {
      assert Tail(q, ws) == [w + [q]] && Join(ws) == w by { TailOne(q, ws); }
      CloseLast(q, acc, w, rest);
    } else {
      var acc', more := acc + " " + w, Tail(q, ws[1..]) + rest;
      assert Tail(q, ws) + rest == [w] + more by { TailStep(q, ws); }
      assert ([w] + more)[0..] == [w] + more && ([w] + more)[1..] == more;
      CloseStep(q, acc, [w] + more, 0);
      assert !Closes(w, q) by { assert w[|w| - 1] in w; }
      assert Extend(acc, w, false) == acc' by { ExtendOpen(acc, w); }
      CloseTail(q, acc', ws[1..], rest);
      assert acc' + " " + Join(ws[1..]) == acc + " " + Join(ws) by { JoinStep(ws); }
      assert ws[1..][|ws| - 2] == ws[|ws| - 1];
    }
  }

  lemma TailOne(q: char, ws: seq<string>)
    requires |ws| == 1
    ensures Tail(q, ws) == [ws[0] + [q]] && Join(ws) == ws[0]
  {
  }

  lemma TailStep(q: char, ws: seq<string>)
    requires |ws| > 1
    ensures Tail(q, ws) == [ws[0]] + Tail(q, ws[1..])
  {
  }

  lemma ExtendOpen(acc: string, w: string)
    requires acc != "" && w != []
    ensures Extend(acc, w, false) == acc + " " + w
  {
  }

  lemma SolidNonEmpty(w: string)
    requires Solid(w)
    ensures w != []
  {
  }

  lemma {:induction false} QuoteStays(q: char, acc: string, ws: seq<string>)
    requires q in acc && AllSolid(ws)
    ensures var r := Close(q, acc, ws); r.Open? || q in r.text
    decreases |ws|
  {
    if ws != [] {
      var acc' := Extend(acc, ws[0], Closes(ws[0], q));
      assert q in acc';
      if !Closes(ws[0], q) {
        QuoteStays(q, acc', ws[1..]);
      }
    }
  }

  lemma QuoteOfWord(q: char, w: string, rest: seq<string>)
    requires IsQuote(q) && Solid(w) && q !in w && AllSolid([[q] + w + [q]] + rest) && AllSolid(rest)
    ensures var r := Quote([[q] + w + [q]] + rest);
            if w[|w| - 1] != '\\' then r == Closed(w, rest) else r.Open? || q in r.text
  {
    hide Close, Quote;
    var first := [q] + w + [q];
    var all := [first] + rest;
    assert all[0..] == all && all[1..] == rest;
    assert first[1..|first| - 1] == w && first[1..] == w + [q] && first[|first| - 2] == w[|w| - 1];
    QuoteStep(all, 0);
    if w[|w| - 1] == '\\' {
      QuoteStays(q, w + [q], rest);
    }
  }

  lemma QuoteOfWords(q: char, ws: seq<string>, rest: seq<string>)
    requires |ws| > 1 && IsQuote(q) && SolidWords(q, ws)
    requires AllSolid([[q] + ws[0]] + (Tail(q, ws[1..]) + rest)) && AllSolid(Tail(q, ws[1..]) + rest)
    ensures var r := Quote([[q] + ws[0]] + (Tail(q, ws[1..]) + rest));
            if Closable(Phrase(q, ws)) then r == Closed(Join(ws), rest) else r.Open? || q in r.text
  {
    hide Close, Quote, Tail, Join, Solid;
    var w, more := ws[0], Tail(q, ws[1..]) + rest;
    var first := [q] + w;
    SolidNonEmpty(w);
    assert ([first] + more)[0..] == [first] + more && ([first] + more)[1..] == more && first[1..] == w;
    assert !Closes(first, q) by { assert first[|first| - 1] == w[|w| - 1] && w[|w| - 1] in w; }
    assert ws[1..][|ws| - 2] == ws[|ws| - 1];
    QuoteStep([first] + more, 0);
    CloseTail(q, w, ws[1..], rest);
    assert w + " " + Join(ws[1..]) == Join(ws) by { JoinStep(ws); }
  }

  lemma JoinStep(ws: seq<string>)
    requires |ws| > 1
    ensures Join(ws) == ws[0] + " " + Join(ws[1..])
  {
  }

  lemma QuoteIsNoBackslash(q: char)
    requires IsQuote(q)
    ensures q != '\\'
  {
  }

  /** A printed phrase in front of more words is collected as its words joined by blanks. */
  lemma QuoteOfPhrase(q: char, ws: seq<string>, rest: seq<string>)
    requires IsQuote(q) && SolidWords(q, ws) && AllSolid(Spelled(Phrase(q, ws)) + rest) && AllSolid(rest)
    ensures var r := Quote(Spelled(Phrase(q, ws)) + rest);
            if Closable(Phrase(q, ws)) then r == Closed(Join(ws), rest) else r.Open? || q in r.text
  {
    hide Quote, Solid, IsQuote;
    if ws == [] {
      var all := [[q, q]] + rest;
      assert all[0..] == all && all[0] == [q, q] && all[1..] == rest && all[0][1..1] == Join(ws);
      QuoteStep(all, 0);
      assert Closes([q, q], q) by { assert IsQuote(q); QuoteIsNoBackslash(q); }
    } else if |ws| == 1 {
      QuoteOfWord(q, ws[0], rest);
      SolidNonEmpty(ws[0]);
    } else {
      var all := Spelled(Phrase(q, ws)) + rest;
      assert all == [[q] + ws[0]] + (Tail(q, ws[1..]) + rest);
      assert AllSolid(Tail(q, ws[1..]) + rest) by { assert all[1..] == Tail(q, ws[1..]) + rest; }
      QuoteOfWords(q, ws, rest);
    }
  }

  /** One printed token in front of more words: its text comes first, or its quote shows up in the first argument. */
  lemma ArgumentsOfToken(t: Token, rest: seq<string>)
    requires WellFormed(t) && AllSolid(rest) && AllSolid(Spelled(t) + rest)
    ensures Closable(t) ==> Arguments(Spelled(t) + rest) == Prepend(Text(t), Arguments(rest))
    ensures !Closable(t) ==>
              var r := Arguments(Spelled(t) + rest);
              r.None? || (r.value != [] && t.quote in r.value[0])
  {
    hide Arguments, Quote, Solid, Tail, Join;
    var all := Spelled(t) + rest;
    assert Spelled(t) != [] && all[0] == Spelled(t)[0];
    if t.Word? {
      assert all[1..] == rest;
      ArgumentsPlain(all);
    } else {
      ArgumentsQuoted(all);
      QuoteOfPhrase(t.quote, t.words, rest);
    }
  }

  lemma ArgumentsPlain(ws: seq<string>)
    requires AllSolid(ws) && ws != [] && !IsQuote(ws[0][0])
    ensures Arguments(ws) == Prepend(ws[0], Arguments(ws[1..]))
  {
  }

  lemma ArgumentsQuoted(ws: seq<string>)
    requires AllSolid(ws) && ws != [] && IsQuote(ws[0][0])
    ensures var r := Quote(ws);
            Arguments(ws) == if r.Open? then None else Prepend(r.text, Arguments(r.rest))
  {
  }

  /** No argument of a well-formed phrase holds its quote. */
  lemma {:induction false} JoinWithoutQuote(q: char, ws: seq<string>)
    requires IsQuote(q) && SolidWords(q, ws)
    ensures q !in Join(ws)
  {
    if |ws| > 1 {
      JoinWithoutQuote(q, ws[1..]);
    }
  }

  /** The words of a printed command give its arguments back, exactly when no closing quote is escaped. */
  lemma {:induction false} ArgumentsOfSpelled(ts: seq<Token>)
    requires AllWellFormed(ts) && AllSolid(SpelledAll(ts))
    ensures Arguments(SpelledAll(ts)) == Some(Texts(ts)) <==> forall i :: 0 <= i < |ts| ==> Closable(ts[i])
  {
    hide Arguments, Spelled, Solid, Closable, Text, WellFormed, Join;
    if ts == [] {
      ArgumentsEmpty();
    } else {
      var t, rest := ts[0], SpelledAll(ts[1..]);
      SpelledAllSolid(ts[1..]);
      ArgumentsOfToken(t, rest);
      ArgumentsOfSpelled(ts[1..]);
      if Closable(t) {
        PrependInjective(Text(t), Arguments(rest), Texts(ts[1..]));
      } else {
        TextWithoutQuote(t);
      }
    }
  }

  lemma ArgumentsEmpty()
    ensures Arguments([]) == Some([])
  {
  }

  lemma PrependInjective(a: string, r: Option<seq<string>>, xs: seq<string>)
    ensures Prepend(a, r) == Some([a] + xs) <==> r == Some(xs)
  {
    if r.Some? && Prepend(a, r) == Some([a] + xs) {
      assert ([a] + r.value)[1..] == r.value && ([a] + xs)[1..] == xs;
    }
  }

  lemma TextWithoutQuote(t: Token)
    requires WellFormed(t) && !Closable(t)
    ensures t.quote !in Text(t)
  {
    JoinWithoutQuote(t.quote, t.words);
  }

  /** The command as typed: all words with single blanks between them. */
  function Printed(ts: seq<Token>): string {
    Join(SpelledAll(ts))
  }

  /** Tokenizing a printed command returns its arguments, exactly when no closing quote is escaped. */
  lemma TokenizePrinted(ts: seq<Token>)
    requires AllWellFormed(ts)
    ensures Arguments(Words(Printed(ts))) == Some(Texts(ts)) <==> forall i :: 0 <= i < |ts| ==> Closable(ts[i])
  {
    hide *;
    SpelledAllSolid(ts);
    assert Words(Printed(ts)) == SpelledAll(ts) by { WordsOfPrinted(ts); }
    ArgumentsOfSpelled(ts);
  }

  lemma WordsOfPrinted(ts: seq<Token>)
    requires AllSolid(SpelledAll(ts))
    ensures Words(Printed(ts)) == SpelledAll(ts)
  {
    WordsOfJoin(SpelledAll(ts));
  }
}
