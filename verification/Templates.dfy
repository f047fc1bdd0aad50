/**
 * What the expansion of a command means: in a text with variables between pieces of plain text, every variable
 * gives way to the value it names. The code gets there by seven replacements, one after the other.
 */
module Templates {
  import opened Limits
  import opened Numbers
  import opened Replace
  import opened Vars
  import opened Wrappers

  /** Plain text and variables in turn. */
  datatype Template = End(text: string) | Slot(text: string, name: string, rest: Template)

  function Print(t: Template): string {
    match t
    case End(s) => s
    case Slot(s, n, r) => s + Variable(n) + Print(r)
  }

  /** Where a name stands among the bindings. */
  function Place(n: string): (i: nat)
    ensures i < 7
  {
    if n == "id" then 0 else if n == "username" then 1 else if n == "uid" then 2 else if n == "gid" then 3
    else if n == "trigger" then 4 else if n == "step" then 5 else 6
  }

  /** The text that stands for a name. */
  function Meant(v: Values, n: string): string {
    Bindings(v)[Place(n)].text
  }

  function Fill(t: Template, v: Values): string {
    match t
    case End(s) => s
    case Slot(s, n, r) => s + Meant(v, n) + Fill(r, v)
  }

  predicate IsName(n: string) {
    n == "id" || n == "username" || n == "uid" || n == "gid" || n == "trigger" || n == "step" || n == "expire"
  }

  /** Plain text has no at-sign, and a blank where it separates two variables. */
  predicate Separated(t: Template) {
    && '@' !in t.text
    && (t.Slot? ==> IsName(t.name) && Separated(t.rest) && (t.rest.Slot? ==> ' ' in t.rest.text))
  }

  // ---- One pass ----

  function Glue(s: string, t: Template): Template {
    if t.End? then End(s + t.text) else Slot(s + t.text, t.name, t.rest)
  }

  /** The template with one variable replaced. */
  function Pass(t: Template, k: string, v: string): Template {
    match t
    case End(_) => t
    case Slot(s, n, r) => if n == k then Glue(s + v, Pass(r, k, v)) else Slot(s, n, Pass(r, k, v))
  }

  lemma NamePlain(n: string)
    requires IsName(n)
    ensures n != [] && '@' !in n && ' ' !in n
  {
  }

  lemma VariableChar(k: string, i: nat)
    ensures Variable(k)[0] == Variable(k)[1] == '@' && |Variable(k)| == |k| + 4
    ensures i < |k| ==> Variable(k)[2 + i] == k[i]
    ensures Variable(k)[2 + |k|] == Variable(k)[3 + |k|] == '@'
  {
  }

  /** One name followed by an at-sign is not another. */
  lemma NamesDiffer(h: string, at: nat, n: string, k: string)
    requires '@' !in n && '@' !in k && n != k && at + |n| + 4 <= |h| && h[at..at + |n| + 4] == Variable(n)
    ensures !OccursAt(h, Variable(k), at)
  {
    if OccursAt(h, Variable(k), at) {
      var i: nat := if |n| < |k| then |n| else |k|;
      if |n| == |k| { i :| i < |n| && n[i] != k[i]; }
      VariableChar(n, i);
      VariableChar(k, i);
      OccursChar(h, Variable(n), at, 2 + i);
      OccursChar(h, Variable(k), at, 2 + i);
    }
  }

  /** No variable starts with the closing at-signs of another. */
  lemma ClosingIsNoOpening(pre: string, r: Template, k: string)
    requires IsName(k) && Separated(r) && (r.Slot? ==> ' ' in r.text)
    ensures !OccursAt(pre + "@@" + Print(r), Variable(k), |pre|)
    ensures !OccursAt(pre + "@@" + Print(r), Variable(k), |pre| + 1)
  {
    hide OccursAt, Variable, IsName;
    NamePlain(k);
    var h, m := pre + "@@" + Print(r), Variable(k);
    var s := r.text;
    assert s <= Print(r);
    assert forall i :: 0 <= i < |s| ==> h[|pre| + 2 + i] == s[i];
    VariableChar(k, 0);
    if OccursAt(h, m, |pre|) {
      OccursFits(h, m, |pre|);
      if r.End? {
        OccursChar(h, m, |pre|, |k| + 3);
      } else {
        var p :| 0 <= p < |s| && s[p] == ' ';
        VariableChar(k, p);
        if p < |k| {
          OccursChar(h, m, |pre|, 2 + p);
        } else {
          OccursChar(h, m, |pre|, 2 + |k|);
        }
      }
    }
    if OccursAt(h, m, |pre| + 1) {
      OccursFits(h, m, |pre| + 1);
      OccursChar(h, m, |pre| + 1, 1);
    }
  }

  lemma OccursFits(h: string, n: string, i: nat)
    requires OccursAt(h, n, i)
    ensures i + |n| <= |h|
  {
  }

  lemma NoneBefore(s: string, n: string, r: Template, k: string, j: nat)
    requires '@' !in s && IsName(n) && IsName(k) && Separated(r) && (r.Slot? ==> ' ' in r.text)
    requires j < |s| + (if n == k then 0 else |n| + 4)
    ensures !OccursAt(s + Variable(n) + Print(r), Variable(k), j)
  {
    hide OccursAt, Variable, IsName, Separated, Print;
    NamePlain(n);
    NamePlain(k);
    VariableChar(k, 0);
    VariableIs(n);
    var h, m, at := s + Variable(n) + Print(r), Variable(k), |s|;
    assert forall i :: 0 <= i < |n| ==> h[at + 2 + i] == n[i];
    if j < at || at + 2 <= j < at + 2 + |n| {
      if OccursAt(h, m, j) { OccursChar(h, m, j, 0); }
    } else if j == at {
      assert h[at..at + |n| + 4] == Variable(n);
      NamesDiffer(h, at, n, k);
    } else if j == at + 1 {
      if OccursAt(h, m, j) { OccursChar(h, m, j, 1); }
    } else {
      var pre := s + "@@" + n;
      assert h == pre + "@@" + Print(r);
      ClosingIsNoOpening(pre, r, k);
    }
  }

  lemma {:induction false} FindSkips(h: string, n: string, from: nat, to: nat)
    requires from <= to <= |h| && forall j :: from <= j < to ==> !OccursAt(h, n, j)
    ensures Find(h, n, from) == Find(h, n, to)
    decreases |h| - from
  {
    hide OccursAt;
    if from < to { FindSkips(h, n, from + 1, to); }
  }

  /** Text in which no occurrence starts stays in front. */
  lemma SkipPrefix(a: string, b: string, m: string, v: string)
    requires m != [] && forall j :: 0 <= j < |a| ==> !OccursAt(a + b, m, j)
    ensures ReplaceAll(a + b, m, v) == a + ReplaceAll(b, m, v)
  {
    hide OccursAt, Find, ReplaceAll;
    FindSkips(a + b, m, 0, |a|);
    FindSuffix(a, b, m, 0);
    ReplaceAllStep(a + b, m, v);
    ReplaceAllStep(b, m, v);
    var f := Find(b, m, 0);
    if f.Some? {
      FindInside(b, m, 0);
      Spliced(a, b, f.value, |m|, v, ReplaceAll(b[f.value + |m|..], m, v));
    }
  }

  lemma Spliced(a: string, b: string, i: nat, n: nat, v: string, x: string)
    requires i + n <= |b|
    ensures (a + b)[|a| + i + n..] == b[i + n..]
    ensures (a + b)[..|a| + i] + v + x == a + (b[..i] + v + x)
  {
  }

  lemma ReplaceFirst(a: string, m: string, b: string, v: string)
    requires m != [] && forall j :: 0 <= j < |a| ==> !OccursAt(a + m + b, m, j)
    ensures ReplaceAll(a + m + b, m, v) == a + v + ReplaceAll(b, m, v)
  {
    hide OccursAt, Find, ReplaceAll;
    var h := a + m + b;
    FindSkips(h, m, 0, |a|);
    assert OccursAt(h, m, |a|) by { OccursThere(a, m, b); }
    assert Find(h, m, |a|) == Some(|a|) by { FindHere(h, m, |a|); }
    ReplaceAllStep(h, m, v);
    assert h[|a| + |m|..] == b && h[..|a|] == a;
  }

  lemma OccursThere(a: string, m: string, b: string)
    ensures OccursAt(a + m + b, m, |a|)
  {
  }

  lemma FindHere(h: string, m: string, i: nat)
    requires i <= |h| && OccursAt(h, m, i)
    ensures Find(h, m, i) == Some(i)
  {
  }

  lemma GluePrints(s: string, t: Template)
    ensures Print(Glue(s, t)) == s + Print(t)
  {
    if t.Slot? {
      var a, b := Variable(t.name), Print(t.rest);
      assert s + t.text + a + b == s + (t.text + a + b);
    }
  }

  /** Replacing a variable in the text is replacing it in the template. */
  lemma {:induction false} PassPrints(t: Template, k: string, v: string)
    requires Separated(t) && IsName(k)
    ensures Print(Pass(t, k, v)) == ReplaceAll(Print(t), Variable(k), v)
  {
    hide OccursAt, ReplaceAll, Variable, IsName, Find;
    var m := Variable(k);
    VariableChar(k, 0);
    match t {
      case End(s) =>
        forall j | 0 <= j <= |s| ensures !OccursAt(s, m, j) {
          if OccursAt(s, m, j) {
            OccursFits(s, m, j);
            OccursChar(s, m, j, 0);
          }
        }
        NothingReplaced(s, m, v);
      case Slot(s, n, r) =>
        PassPrints(r, k, v);
        VariableChar(n, 0);
        assert Print(t) == s + Variable(n) + Print(r);
        forall j | 0 <= j < |s| + (if n == k then 0 else |n| + 4) ensures !OccursAt(Print(t), m, j) {
          NoneBefore(s, n, r, k, j);
        }
        if n == k {
          ReplaceFirst(s, m, Print(r), v);
          GluePrints(s + v, Pass(r, k, v));
        } else {
          SkipPrefix(s + Variable(n), Print(r), m, v);
        }
    }
  }

  lemma NothingReplaced(h: string, m: string, v: string)
    requires m != [] && forall j :: 0 <= j <= |h| ==> !OccursAt(h, m, j)
    ensures ReplaceAll(h, m, v) == h
  {
    hide OccursAt, ReplaceAll, Find;
    ReplaceAllStep(h, m, v);
    if Find(h, m, 0).Some? { FindInside(h, m, 0); }
  }

  lemma {:induction false} PassSeparated(t: Template, k: string, v: string)
    requires Separated(t) && '@' !in v
    ensures Separated(Pass(t, k, v)) && t.text <= Pass(t, k, v).text && (t.End? ==> Pass(t, k, v).End?)
  {
    hide IsName;
    if t.Slot? { PassSeparated(t.rest, k, v); }
  }

  // ---- All passes ----

  function PassAll(t: Template, bs: seq<Binding>): Template {
    if bs == [] then t else Pass(PassAll(t, bs[..|bs| - 1]), bs[|bs| - 1].name, bs[|bs| - 1].text)
  }

  lemma {:induction false} PassAllPrints(t: Template, bs: seq<Binding>)
    requires Separated(t) && forall b :: b in bs ==> IsName(b.name) && '@' !in b.text
    ensures Separated(PassAll(t, bs)) && Print(PassAll(t, bs)) == Expanded(Print(t), bs)
    decreases |bs|
  {
    hide Separated, IsName, Pass, ReplaceAll, Print, Variable;
    if bs != [] {
      var n := |bs| - 1;
      assert bs[n] in bs;
      PassAllPrints(t, bs[..n]);
      PassPrints(PassAll(t, bs[..n]), bs[n].name, bs[n].text);
      PassSeparated(PassAll(t, bs[..n]), bs[n].name, bs[n].text);
    }
  }

  lemma GlueFills(s: string, t: Template, v: Values)
    ensures Fill(Glue(s, t), v) == s + Fill(t, v)
  {
    hide Meant;
    if t.Slot? {
      var a, b := Meant(v, t.name), Fill(t.rest, v);
      assert s + t.text + a + b == s + (t.text + a + b);
    }
  }

  lemma {:induction false} PassFills(t: Template, k: string, v: Values)
    ensures Fill(Pass(t, k, Meant(v, k)), v) == Fill(t, v)
  {
    hide Meant;
    if t.Slot? {
      PassFills(t.rest, k, v);
      if t.name == k { GlueFills(t.text + Meant(v, k), Pass(t.rest, k, Meant(v, k)), v); }
    }
  }

  /** Whether a variable is still there. */
  predicate Has(t: Template, k: string) {
    t.Slot? && (t.name == k || Has(t.rest, k))
  }

  lemma {:induction false} PassRemoves(t: Template, k: string, v: string, n: string)
    ensures Has(Pass(t, k, v), n) <==> Has(t, n) && n != k
  {
    if t.Slot? { PassRemoves(t.rest, k, v, n); }
  }

  lemma {:induction false} PassAllFills(t: Template, bs: seq<Binding>, v: Values, n: string)
    requires forall b :: b in bs ==> b.text == Meant(v, b.name)
    ensures Fill(PassAll(t, bs), v) == Fill(t, v)
    ensures Has(PassAll(t, bs), n) <==> Has(t, n) && forall b :: b in bs ==> b.name != n
    decreases |bs|
  {
    hide Pass, Fill, Has, Meant;
    if bs != [] {
      var i := |bs| - 1;
      assert bs[i] in bs;
      PassAllFills(t, bs[..i], v, n);
      PassFills(PassAll(t, bs[..i]), bs[i].name, v);
      PassRemoves(PassAll(t, bs[..i]), bs[i].name, bs[i].text, n);
      assert bs == bs[..i] + [bs[i]];
    }
  }

  // ---- What a variable stands for ----

  /** The text names the field: in sixteen hexadecimal digits, in decimal digits, or as it is. */
  predicate Denotes(text: string, name: string, v: Values) {
    && (name == "id" ==> |text| == 18 && text[..2] == "0x" && AllHex(text[2..]) && HexNumber(text[2..]) == v.id)
    && (name == "username" ==> text == if |v.username| < USERNAME_MAX then v.username else v.username[..31])
    && (name == "uid" ==> Reads(text, v.uid))
    && (name == "gid" ==> Reads(text, v.gid))
    && (name == "trigger" ==> Reads(text, v.trigger))
    && (name == "step" ==> Reads(text, v.step))
    && (name == "expire" ==> Reads(text, v.expire))
  }

  /** Decimal digits and nothing else, with this value. */
  predicate Reads(text: string, n: nat) {
    text != [] && AllDigits(text) && DigitsValue(text) == n
  }

  lemma PlaceIs(v: Values, i: nat, n: string)
    requires i < 7
    ensures Place(Bindings(v)[i].name) == i && (IsName(n) ==> Bindings(v)[Place(n)].name == n)
  {
    hide Hex, Decimal, Fitted;
  }

  lemma BindingsDenote(v: Values, i: nat)
    requires i < 7 && v.id < U64
    ensures var b := Bindings(v)[i]; IsName(b.name) && Denotes(b.text, b.name, v)
  {
    hide Hex, Decimal, HexNumber, DigitsValue;
    Power16Is();
    HexDigits(v.id, 16);
    HexReads(v.id, 16);
    DecimalValue(v.uid);
    DecimalValue(v.gid);
    DecimalValue(v.trigger);
    DecimalValue(v.step);
    DecimalValue(v.expire);
    assert ("0x" + Hex(v.id, 16))[2..] == Hex(v.id, 16) && ("0x" + Hex(v.id, 16))[..2] == "0x";
  }

  lemma BindingPlain(v: Values, i: nat)
    requires i < 7 && '@' !in Fitted(v.username)
    ensures '@' !in Bindings(v)[i].text
  {
    hide Decimal, Hex, Fitted;
    HexHasNoAt(v.id, 16);
    DecimalPlain(v.uid);
    DecimalPlain(v.gid);
    DecimalPlain(v.trigger);
    DecimalPlain(v.step);
    DecimalPlain(v.expire);
  }

  lemma DecimalPlain(n: nat)
    ensures '@' !in Decimal(n)
  {
  }

  lemma {:induction false} NoSlotsLeft(t: Template, v: Values)
    requires Separated(t) && forall n :: IsName(n) ==> !Has(t, n)
    ensures Print(t) == Fill(t, v)
  {
    if t.Slot? { assert Has(t, t.name); }
  }

  lemma BindingsMean(v: Values, b: Binding)
    requires b in Bindings(v) && v.id < U64 && '@' !in Fitted(v.username)
    ensures IsName(b.name) && '@' !in b.text && b.text == Meant(v, b.name)
  {
    hide IsName, Bindings, Fitted, Denotes, Place;
    var i :| 0 <= i < 7 && Bindings(v)[i] == b;
    BindingsDenote(v, i);
    BindingPlain(v, i);
    PlaceIs(v, i, b.name);
  }

  /** What stands for a name denotes the field of that name. */
  lemma MeantDenotes(v: Values, n: string)
    requires IsName(n) && v.id < U64
    ensures Denotes(Meant(v, n), n, v) && exists b :: b in Bindings(v) && b.name == n
  {
    hide IsName, Bindings, Denotes, Place;
    PlaceIs(v, 0, n);
    BindingsDenote(v, Place(n));
    assert Bindings(v)[Place(n)] in Bindings(v);
  }

  /**
   * For every command whose variables are set apart by blanks, and every user name without an at-sign: the expanded
   * command is the text with each variable replaced by what denotes the field of its name.
   */
  lemma ExpansionMeans(t: Template, v: Values)
    requires Separated(t) && v.id < U64 && '@' !in Fitted(v.username)
    ensures Expanded(Print(t), Bindings(v)) == Fill(t, v)
    ensures forall n :: IsName(n) ==> Denotes(Meant(v, n), n, v)
  {
    hide Separated, IsName, Print, Fill, Expanded, Bindings, PassAll, Fitted, Denotes, Has, Meant;
    var bs := Bindings(v);
    forall b | b in bs ensures IsName(b.name) && '@' !in b.text && b.text == Meant(v, b.name) { BindingsMean(v, b); }
    PassAllPrints(t, bs);
    forall n | IsName(n) ensures !Has(PassAll(t, bs), n) && Denotes(Meant(v, n), n, v) {
      PassAllFills(t, bs, v, n);
      MeantDenotes(v, n);
    }
    PassAllFills(t, bs, v, "");
    NoSlotsLeft(PassAll(t, bs), v);
  }
}
