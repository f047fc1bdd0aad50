/** The parser of client requests: _parse_op_compound() and the compounds it calls. */
module Parser {
  import opened Language
  import opened RequestArg
  import opened Wrappers

  /** One element of the request list. An element without adverbial is "now". */
  datatype Request = Request(prep: Prep, adverb: Option<Adverb>, arg: Arg, conj: Option<Conj>)

  predicate AdverbFirst(p: Prep) {
    p == On || p == To
  }

  /** The elements from a preposition on; `prev` is the conjunction before it, if any. */
  function ParsePrep(env: Env, prev: Option<Conj>, argv: seq<string>): Option<seq<Request>>
    requires argv != []
    decreases |argv|, 1
  {
    match GetPrep(argv[0])
    case None => None
    case Some(p) =>
      if p == To && prev != Some(Until) then None
      else if p != To && prev == Some(Until) then None
      else if p != In && prev == Some(While) then None
      else if p != Now then
        if |argv| < 3 then None
        else
          match GetAdverb(if AdverbFirst(p) then argv[1] else argv[2])
          case None => None
          case Some(a) =>
            var arg := ArgValue(env, p, a, if AdverbFirst(p) then argv[2] else argv[1]);
            if arg.val < 0 then None
            else ParseRest(env, prev, Request(p, Some(a), arg, None), argv[3..])
      else if prev.Some? then None
      else ParseRest(env, prev, Request(Now, None, Arg(0, false, false), None), argv[1..])
  }

  function ParseRest(env: Env, prev: Option<Conj>, req: Request, argv: seq<string>): Option<seq<Request>>
    decreases |argv|, 3
  {
    if argv == [] then Some([req]) else ParseConj(env, prev, req, argv)
  }

  /** The conjunction after element `req` and the elements that follow. */
  function ParseConj(env: Env, prev: Option<Conj>, req: Request, argv: seq<string>): Option<seq<Request>>
    requires argv != []
    decreases |argv|, 2
  {
    match GetConj(argv[0])
    case None => None
    case Some(c) =>
      if prev.Some? && c != And && (prev.value == Until || prev.value == While) then None
      else if |argv| < 4 then None
      else
        match ParsePrep(env, Some(c), argv[1..])
        case None => None
        case Some(rest) => Some([req.(conj := Some(c))] + rest)
  }

  datatype Instruction = Run(subject: string, requests: seq<Request>) | Stop(ids: string) | Show(ids: string)

  /** parse_client_instruction_array(): the operation, its subject and, for "run", its clauses. */
  function ParseInstruction(env: Env, argv: seq<string>): Option<Instruction> {
    if argv == [] then None
    else
      var op := Lower(argv[0]);
      if op == "run" then
        if |argv| < 3 then None
        else
          match ParsePrep(env, None, argv[2..])
          case None => None
          case Some(rs) => Some(Run(argv[1], rs))
      else if |argv| != 2 then None
      else if op == "stop" then Some(Stop(argv[1]))
      else if op == "show" then Some(Show(argv[1]))
      else None
  }

  // ---- The grammar ----

  datatype When = AtOnce | Timed(prep: Prep, adverb: Adverb, text: string)

  /** A clause and the conjunction that joins it to the next one. */
  datatype Clause = Clause(when: When, conj: Option<Conj>)

  function PrepOf(c: Clause): Prep {
    if c.when.AtOnce? then Now else c.when.prep
  }

  predicate SpellsAdverb(word: string, a: Adverb) {
    Lower(word) == AdverbWord(a) || Lower(word) == AdverbSingular(a)
  }

  /** The words of `argv` from its start spell the moment `w`. */
  predicate SpellsWhen(argv: seq<string>, w: When) {
    match w
    case AtOnce => |argv| >= 1 && Lower(argv[0]) == PrepWord(Now)
    case Timed(p, a, text) =>
      && |argv| >= 3 && p != Now && Lower(argv[0]) == PrepWord(p)
      && SpellsAdverb(if AdverbFirst(p) then argv[1] else argv[2], a)
      && text == if AdverbFirst(p) then argv[2] else argv[1]
  }

  function WordCount(w: When): nat {
    if w.AtOnce? then 1 else 3
  }

  /** `argv` spells the clauses, from first word to last. */
  predicate Spells(argv: seq<string>, cs: seq<Clause>) {
    && cs != []
    && SpellsWhen(argv, cs[0].when)
    && var k := WordCount(cs[0].when);
       if |cs| == 1 then cs[0].conj == None && |argv| == k
       else
         && cs[0].conj.Some? && |argv| > k
         && Lower(argv[k]) == ConjWord(cs[0].conj.value)
         && Spells(argv[k + 1..], cs[1..])
  }

  /** The conjunction before clause `i`. */
  function Before(prev: Option<Conj>, cs: seq<Clause>, i: nat): Option<Conj>
    requires i < |cs|
  {
    if i == 0 then prev else cs[i - 1].conj
  }

  /** "to" exactly after "until", only "in" after "while", "now" only first, only "and" after a limit. */
  predicate Rules(before: Option<Conj>, c: Clause) {
    && (PrepOf(c) == To <==> before == Some(Until))
    && (before == Some(While) ==> PrepOf(c) == In)
    && (PrepOf(c) == Now ==> before == None)
    && (c.conj.Some? && c.conj != Some(And) ==> before != Some(Until) && before != Some(While))
  }

  predicate Ruled(prev: Option<Conj>, cs: seq<Clause>) {
    forall i :: 0 <= i < |cs| ==> Rules(Before(prev, cs, i), cs[i])
  }

  function Elaborate(env: Env, c: Clause): Request {
    match c.when
    case AtOnce => Request(Now, None, Arg(0, false, false), c.conj)
    case Timed(p, a, text) => Request(p, Some(a), ArgValue(env, p, a, text), c.conj)
  }

  function ElaborateAll(env: Env, cs: seq<Clause>): (rs: seq<Request>)
    ensures |rs| == |cs| && forall i :: 0 <= i < |cs| ==> rs[i] == Elaborate(env, cs[i])
  {
    if cs == [] then [] else [Elaborate(env, cs[0])] + ElaborateAll(env, cs[1..])
  }

  predicate ArgsAccepted(env: Env, cs: seq<Clause>) {
    forall i :: 0 <= i < |cs| ==> Elaborate(env, cs[i]).arg.val >= 0
  }

  predicate Accepts(env: Env, prev: Option<Conj>, argv: seq<string>, cs: seq<Clause>) {
    Spells(argv, cs) && Ruled(prev, cs) && ArgsAccepted(env, cs)
  }

  lemma RuledTail(prev: Option<Conj>, cs: seq<Clause>)
    requires cs != []
    ensures Ruled(prev, cs) <==> Rules(prev, cs[0]) && Ruled(cs[0].conj, cs[1..])
  {
  }

  /** The element that a spelled clause becomes, and the words after it. */
  lemma ParseFirst(env: Env, prev: Option<Conj>, argv: seq<string>, c: Clause)
    requires argv != [] && SpellsWhen(argv, c.when)
    ensures ParsePrep(env, prev, argv) ==
            if Rules(prev, c.(conj := None)) && Elaborate(env, c).arg.val >= 0
            then ParseRest(env, prev, Elaborate(env, c).(conj := None), argv[WordCount(c.when)..]) else None
  {
    hide ArgValue, GetPrep, GetAdverb, ParseRest, Lower, AdverbWord, AdverbSingular, PrepWord;
    PrepSpelling(argv[0], PrepOf(c));
    if c.when.Timed? {
      AdverbSpelling(if AdverbFirst(c.when.prep) then argv[1] else argv[2], c.when.adverb);
    }
  }

  /** Every sentence of the grammar is accepted and elaborated clause by clause. */
  lemma {:induction false} ParseComplete(env: Env, prev: Option<Conj>, argv: seq<string>, cs: seq<Clause>)
    requires argv != [] && Accepts(env, prev, argv, cs)
    ensures ParsePrep(env, prev, argv) == Some(ElaborateAll(env, cs))
    decreases |argv|
  {
    hide ArgValue, ParsePrep, GetConj, Lower, ConjWord, SpellsWhen;
    var c, k := cs[0], WordCount(cs[0].when);
    RuledTail(prev, cs);
    ParseFirst(env, prev, argv, c);
    assert Elaborate(env, c).arg.val >= 0;
    if |cs| == 1 {
      assert argv[k..] == [] && c.(conj := None) == c;
      assert ElaborateAll(env, cs) == [Elaborate(env, c)];
    } else {
      assert argv[k..][0] == argv[k] && argv[k..][1..] == argv[k + 1..];
      ConjSpelling(argv[k], c.conj.value);
      SpellsLong(argv[k + 1..], cs[1..]);
      assert Rules(c.conj, cs[1]) by {
        assert cs[1..][0] == cs[1];
        assert Rules(Before(c.conj, cs[1..], 0), cs[1..][0]);
      }
      assert ArgsAccepted(env, cs[1..]);
      ParseComplete(env, c.conj, argv[k + 1..], cs[1..]);
    }
  }

  /** A clause that may follow a conjunction takes three words. */
  lemma SpellsLong(argv: seq<string>, cs: seq<Clause>)
    requires Spells(argv, cs)
    ensures |argv| >= WordCount(cs[0].when)
  {
  }

  /** Everything accepted is a sentence of the grammar. */
  lemma {:induction false} ParseSound(env: Env, prev: Option<Conj>, argv: seq<string>) returns (cs: seq<Clause>)
    requires argv != [] && ParsePrep(env, prev, argv).Some?
    ensures Accepts(env, prev, argv, cs)
    decreases |argv|
  {
    hide ArgValue, ParsePrep, GetConj, Lower, ConjWord, PrepWord, SpellsWhen;
    var c := ReadClause(env, prev, argv);
    var k := WordCount(c.when);
    ParseFirst(env, prev, argv, c);
    if argv[k..] == [] {
      cs := [c];
    } else {
      assert argv[k..][0] == argv[k] && argv[k..][1..] == argv[k + 1..];
      var conj := GetConj(argv[k]).value;
      ConjSpelling(argv[k], conj);
      var rest := ParseSound(env, Some(conj), argv[k + 1..]);
      cs := [c.(conj := Some(conj))] + rest;
      assert cs[1..] == rest;
      assert Elaborate(env, cs[0]).arg == Elaborate(env, c).arg;
    }
    RuledTail(prev, cs);
  }

  lemma ReadClause(env: Env, prev: Option<Conj>, argv: seq<string>) returns (c: Clause)
    requires argv != [] && ParsePrep(env, prev, argv).Some?
    ensures SpellsWhen(argv, c.when) && c.conj == None && |argv| >= WordCount(c.when)
  {
    hide ArgValue, GetPrep, GetAdverb, ParseRest, Lower, AdverbWord, AdverbSingular, PrepWord;
    var p := GetPrep(argv[0]).value;
    PrepSpelling(argv[0], p);
    if p == Now {
      c := Clause(AtOnce, None);
    } else {
      var word, text := if AdverbFirst(p) then argv[1] else argv[2], if AdverbFirst(p) then argv[2] else argv[1];
      var a := GetAdverb(word).value;
      AdverbSpelling(word, a);
      c := Clause(Timed(p, a, text), None);
    }
  }

  /** The parser accepts exactly the sentences of the grammar whose arguments evaluate, and elaborates them. */
  lemma ParseIff(env: Env, prev: Option<Conj>, argv: seq<string>, rs: seq<Request>)
    requires argv != []
    ensures ParsePrep(env, prev, argv) == Some(rs) <==>
            exists cs :: Accepts(env, prev, argv, cs) && rs == ElaborateAll(env, cs)
  {
    hide Accepts, ParsePrep, ElaborateAll;
    if ParsePrep(env, prev, argv) == Some(rs) {
      var cs := ParseSound(env, prev, argv);
      ParseComplete(env, prev, argv, cs);
    }
    forall cs | Accepts(env, prev, argv, cs) && rs == ElaborateAll(env, cs)
      ensures ParsePrep(env, prev, argv) == Some(rs)
    {
      ParseComplete(env, prev, argv, cs);
    }
  }

  // ---- Printing ----

  function PrintedWhen(w: When): seq<string> {
    match w
    case AtOnce => [PrepWord(Now)]
    case Timed(p, a, text) =>
      if AdverbFirst(p) then [PrepWord(p), AdverbWord(a), text] else [PrepWord(p), text, AdverbWord(a)]
  }

  function PrintedClauses(cs: seq<Clause>): seq<string> {
    if cs == [] then []
    else
      PrintedWhen(cs[0].when)
      + (if cs[0].conj.Some? then [ConjWord(cs[0].conj.value)] else [])
      + PrintedClauses(cs[1..])
  }

  /** Clauses that can be printed: joined by conjunctions to the last one, which has none. */
  predicate Chained(cs: seq<Clause>) {
    && cs != []
    && (forall i :: 0 <= i < |cs| ==> (cs[i].conj.Some? <==> i < |cs| - 1))
    && (forall i :: 0 <= i < |cs| ==> cs[i].when.Timed? ==> cs[i].when.prep != Now)
  }

  lemma {:induction false} PrintedSpells(cs: seq<Clause>)
    requires Chained(cs)
    ensures Spells(PrintedClauses(cs), cs)
  {
    hide Lower;
    var c, k := cs[0], WordCount(cs[0].when);
    var argv := PrintedClauses(cs);
    PrintedWords(c);
    assert argv[..k] == PrintedWhen(c.when);
    if |cs| > 1 {
      PrintedSpells(cs[1..]);
      assert argv[k] == ConjWord(c.conj.value) && argv[k + 1..] == PrintedClauses(cs[1..]);
    }
  }

  lemma PrintedWords(c: Clause)
    ensures Lower(PrepWord(PrepOf(c))) == PrepWord(PrepOf(c))
    ensures c.conj.Some? ==> Lower(ConjWord(c.conj.value)) == ConjWord(c.conj.value)
    ensures c.when.Timed? ==> Lower(AdverbWord(c.when.adverb)) == AdverbWord(c.when.adverb)
  {
    LowerFixed(PrepWord(PrepOf(c)));
    if c.conj.Some? { LowerFixed(ConjWord(c.conj.value)); }
    if c.when.Timed? { LowerFixed(AdverbWord(c.when.adverb)); }
  }

  /** Parsing a printed sentence gives it back, exactly when it keeps the rules and its arguments evaluate. */
  lemma ParsePrinted(env: Env, prev: Option<Conj>, cs: seq<Clause>)
    requires Chained(cs)
    ensures PrintedClauses(cs) != []
    ensures ParsePrep(env, prev, PrintedClauses(cs)) == Some(ElaborateAll(env, cs))
            <==> Ruled(prev, cs) && ArgsAccepted(env, cs)
  {
    hide ParsePrep, ElaborateAll, Ruled, ArgsAccepted;
    PrintedSpells(cs);
    var argv := PrintedClauses(cs);
    SpellsNonEmpty(argv, cs);
    if Ruled(prev, cs) && ArgsAccepted(env, cs) {
      ParseComplete(env, prev, argv, cs);
    } else if ParsePrep(env, prev, argv).Some? {
      var ds := ParseSound(env, prev, argv);
      SpellsUnique(argv, cs, ds);
    }
  }

  lemma SpellsNonEmpty(argv: seq<string>, cs: seq<Clause>)
    requires Spells(argv, cs)
    ensures argv != []
  {
  }

  /** No words spell two different sentences. */
  lemma {:induction false} SpellsUnique(argv: seq<string>, cs: seq<Clause>, ds: seq<Clause>)
    requires Spells(argv, cs) && Spells(argv, ds)
    ensures cs == ds
    decreases |argv|
  {
    hide Lower, AdverbWord, AdverbSingular, PrepWord, ConjWord, GetPrep, GetAdverb, GetConj;
    PrepSpelling(argv[0], PrepOf(cs[0]));
    PrepSpelling(argv[0], PrepOf(ds[0]));
    var k := WordCount(cs[0].when);
    if cs[0].when.Timed? {
      var word := if AdverbFirst(cs[0].when.prep) then argv[1] else argv[2];
      AdverbSpelling(word, cs[0].when.adverb);
      AdverbSpelling(word, ds[0].when.adverb);
    }
    if |argv| > k {
      ConjSpelling(argv[k], cs[0].conj.value);
      ConjSpelling(argv[k], ds[0].conj.value);
      SpellsUnique(argv[k + 1..], cs[1..], ds[1..]);
      assert cs == [cs[0]] + cs[1..] && ds == [ds[0]] + ds[1..];
    } else {
      assert cs == [cs[0]] && ds == [ds[0]];
    }
  }
}
