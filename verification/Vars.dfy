/** Expansion of the @@name@@ variables of a scheduled command: vars_replace_all() and its seven replacers. */
module Vars {
  import opened Limits
  import opened Numbers
  import opened Replace
  import opened Wrappers

  /** The values of an entry that its command may mention. */
  datatype Values = Values(id: nat, username: string, uid: nat, gid: nat, trigger: nat, step: nat, expire: nat)

  datatype Binding = Binding(name: string, text: string)

  /** The user name as it fits the replacer's buffer. */
  function Fitted(username: string): string {
    if |username| < USERNAME_MAX then username else username[..USERNAME_MAX - 1]
  }

  /** Names in the order of replacement, with the text printed for each. */
  function Bindings(v: Values): (bs: seq<Binding>)
    ensures |bs| == 7
  {
    [ Binding("id", "0x" + Hex(v.id, 16)),
      Binding("username", Fitted(v.username)),
      Binding("uid", Decimal(v.uid)),
      Binding("gid", Decimal(v.gid)),
      Binding("trigger", Decimal(v.trigger)),
      Binding("step", Decimal(v.step)),
      Binding("expire", Decimal(v.expire)) ]
  }

  /** One pass of simultaneous substitution after the other. */
  function Expanded(text: string, bs: seq<Binding>): string
    decreases |bs|
  {
    if bs == [] then text
    else ReplaceAll(Expanded(text, bs[..|bs| - 1]), Variable(bs[|bs| - 1].name), bs[|bs| - 1].text)
  }

  predicate Mentions(text: string, bs: seq<Binding>) {
    exists b :: b in bs && Contains(text, Variable(b.name))
  }

  /** One link of the chain: the previous text is dropped only if something was replaced in it. */
  method Link(text: string, tmp: string, changed: bool, ghost done: seq<Binding>, b: Binding)
    returns (next: string, now: bool)
    requires tmp == Expanded(text, done) && changed == Mentions(text, done) && (!changed ==> tmp == text)
    ensures next == Expanded(text, done + [b]) && now == Mentions(text, done + [b]) && (!now ==> next == text)
  {
    hide Contains, ReplaceAll, Expanded, Variable;
    var ret := StrReplAll(tmp, Variable(b.name), b.text);
    next := if ret.Some? then ret.value else tmp;
    now := changed || ret.Some?;
    ExpandedStep(text, done, b);
    MentionsStep(text, done, b);
  }

  lemma ExpandedStep(text: string, done: seq<Binding>, b: Binding)
    ensures var prev := Expanded(text, done);
            Expanded(text, done + [b]) ==
            if Contains(prev, Variable(b.name)) then ReplaceAll(prev, Variable(b.name), b.text) else prev
  {
  }

  lemma MentionsStep(text: string, done: seq<Binding>, b: Binding)
    ensures Mentions(text, done + [b]) == (Mentions(text, done) || Contains(text, Variable(b.name)))
  {
  }

  /** vars_replace_all(): nothing iff the command mentions none of the seven variables. */
  method ReplaceAllVars(text: string, v: Values) returns (res: Option<string>)
    ensures res.Some? <==> Mentions(text, Bindings(v))
    ensures res.Some? ==> res.value == Expanded(text, Bindings(v))
    ensures res.None? ==> text == Expanded(text, Bindings(v))
  {
    hide Contains, ReplaceAll, Mentions, Expanded;
    ghost var bs := Bindings(v);
    MentionsNone(text);
    var tmp, changed := text, false;
    tmp, changed := Link(text, tmp, changed, [], Binding("id", "0x" + Hex(v.id, 16)));
    assert [] + [bs[0]] == bs[..1];
    tmp, changed := Link(text, tmp, changed, bs[..1], Binding("username", Fitted(v.username)));
    assert bs[..1] + [bs[1]] == bs[..2];
    tmp, changed := Link(text, tmp, changed, bs[..2], Binding("uid", Decimal(v.uid)));
    assert bs[..2] + [bs[2]] == bs[..3];
    tmp, changed := Link(text, tmp, changed, bs[..3], Binding("gid", Decimal(v.gid)));
    assert bs[..3] + [bs[3]] == bs[..4];
    tmp, changed := Link(text, tmp, changed, bs[..4], Binding("trigger", Decimal(v.trigger)));
    assert bs[..4] + [bs[4]] == bs[..5];
    tmp, changed := Link(text, tmp, changed, bs[..5], Binding("step", Decimal(v.step)));
    assert bs[..5] + [bs[5]] == bs[..6];
    tmp, changed := Link(text, tmp, changed, bs[..6], Binding("expire", Decimal(v.expire)));
    assert bs[..6] + [bs[6]] == bs;
    res := if changed then Some(tmp) else None;
  }

  lemma MentionsNone(text: string)
    ensures !Mentions(text, []) && Expanded(text, []) == text
  {
  }

  // ---- What no expanded command contains ----

  lemma {:induction false} ExpandedLeavesNone(text: string, bs: seq<Binding>, i: nat, k: string)
    requires i < |bs| && bs[i].name == k
    requires forall j :: i <= j < |bs| ==> Mild(bs[j].text, k)
    ensures !Contains(Expanded(text, bs), Variable(k))
    decreases |bs|
  {
    hide Contains, ReplaceAll, Mild;
    var n := |bs| - 1;
    var prev := Expanded(text, bs[..n]);
    assert Mild(bs[n].text, k);
    if i == n {
      ReplaceRemovesAll(prev, bs[n].text, k);
    } else {
      assert forall j :: i <= j < n ==> bs[..n][j] == bs[j];
      ExpandedLeavesNone(text, bs[..n], i, k);
      ReplaceMakesNone(prev, Variable(bs[n].name), bs[n].text, k);
    }
  }

  lemma HeadNotIn(r: string, k: string)
    requires r != [] && r[0] !in k
    ensures !Contains(k, r)
  {
  }

  lemma PlainIsMild(r: string, k: string)
    requires r != [] && '@' !in r && r[0] !in k
    ensures Mild(r, k)
  {
    hide Contains;
    HeadNotIn(r, "@" + k);
    AbsentByChar(r, "@@", '@');
  }

  lemma DecimalMild(n: nat, k: string)
    requires forall c :: c in k ==> 'a' <= c <= 'z'
    ensures Mild(Decimal(n), k)
  {
    hide Mild;
    var s := Decimal(n);
    forall c | c in s ensures '0' <= c <= '9' {}
    assert s[0] in s;
    PlainIsMild(s, k);
  }

  lemma {:induction false} HexHasNoAt(n: nat, width: nat)
    ensures '@' !in Hex(n, width)
    decreases width
  {
    if width > 0 { HexHasNoAt(n / 16, width - 1); }
  }

  /** Whatever the user name, no @@uid@@, @@gid@@, @@trigger@@, @@step@@ or @@expire@@ is left. */
  lemma NumbersAllExpanded(text: string, v: Values, i: nat)
    requires 2 <= i < 7
    ensures !Contains(Expanded(text, Bindings(v)), Variable(Bindings(v)[i].name))
  {
    hide Contains, ReplaceAll, Expanded, Decimal, Hex, Mild;
    var bs := Bindings(v);
    var k := bs[i].name;
    DecimalMild(v.uid, k);
    DecimalMild(v.gid, k);
    DecimalMild(v.trigger, k);
    DecimalMild(v.step, k);
    DecimalMild(v.expire, k);
    ExpandedLeavesNone(text, bs, i, k);
  }

  /** A name that does not end in an at-sign and is part of neither "@id" nor "@username". */
  predicate CleanName(u: string) {
    u != [] && u[|u| - 1] != '@' && !Contains("@id", u) && !Contains("@username", u)
  }

  lemma CleanNameExpandsAll(text: string, v: Values, i: nat)
    requires i < 7 && !Contains(Fitted(v.username), "@@") && CleanName(Fitted(v.username))
    ensures !Contains(Expanded(text, Bindings(v)), Variable(Bindings(v)[i].name))
  {
    hide Contains, ReplaceAll, Expanded, Decimal, Fitted;
    if i >= 2 {
      NumbersAllExpanded(text, v, i);
    } else {
      var bs := Bindings(v);
      var k := bs[i].name;
      assert k == "id" || k == "username";
      assert "@" + "id" == "@id" && "@" + "username" == "@username";
      DecimalMild(v.uid, k);
      DecimalMild(v.gid, k);
      DecimalMild(v.trigger, k);
      DecimalMild(v.step, k);
      DecimalMild(v.expire, k);
      if i == 0 {
        HexHasNoAt(v.id, 16);
        PlainIsMild(bs[0].text, k);
      }
      ExpandedLeavesNone(text, bs, i, k);
    }
  }

  // ---- Commands that keep a variable, for every other name without a pair of at-signs ----

  /** The name k split around the place where u goes: expanding @@username@@ there spells @@k@@. */
  function Straddle(k: string, u: string, i: nat): string
    requires i + |u| <= |k|
  {
    "@@" + k[..i] + Variable("username") + (k[i + |u|..] + "@@")
  }

  lemma AbsentByChar(h: string, n: string, c: char)
    requires c in n && c !in h
    ensures !Contains(h, n)
  {
  }

  lemma AbsentByLength(h: string, n: string)
    requires |h| < |n|
    ensures !Contains(h, n)
  {
  }

  /** Before the split no at-sign follows the opening pair, so the inserted variable is the first one. */
  lemma StraddleFind(a: string, m: string, rest: string)
    requires '@' !in a && |m| > |a| + 2 && m[0] == m[1] == '@' && '@' !in m[2..|a| + 3]
    ensures Find("@@" + a + m + rest, m, 0) == Some(2 + |a|)
  {
    var t := "@@" + a + m + rest;
    assert t[2 + |a|..2 + |a| + |m|] == m;
    assert OccursAt(t, m, 2 + |a|);
    forall j | 0 <= j < 2 + |a| ensures !OccursAt(t, m, j) {
      if OccursAt(t, m, j) {
        OccursChar(t, m, j, 0);
        OccursChar(t, m, j, 1);
        OccursChar(t, m, j, 2 + |a| - j);
      }
    }
  }

  lemma SpellStep(a: string, u: string, b: string, m: string)
    requires Find("@@" + a + m + (b + "@@"), m, 0) == Some(2 + |a|) && |b| + 2 < |m|
    ensures ReplaceAll("@@" + a + m + (b + "@@"), m, u) == Variable(a + u + b)
  {
  }

  lemma VariableShape(w: string, n: nat)
    requires n < |w| && '@' !in w
    ensures var m := Variable(w); m[0] == m[1] == '@' && '@' !in m[2..n + 3]
  {
    assert Variable(w)[2..n + 3] == w[..n + 1];
  }

  /** After the user name is put in, the text reads @@k@@. */
  lemma StraddleSpells(k: string, w: string, u: string, i: nat)
    requires i < |k| <= |w| && i + |u| <= |k| && k[i..i + |u|] == u && '@' !in k && '@' !in w
    ensures var t := "@@" + k[..i] + Variable(w) + (k[i + |u|..] + "@@");
            Find(t, Variable(w), 0).Some? && ReplaceAll(t, Variable(w), u) == Variable(k)
  {
    hide ReplaceAll, Find, OccursAt, Contains, Variable;
    var m, a, b := Variable(w), k[..i], k[i + |u|..];
    VariableShape(w, i);
    StraddleFind(a, m, b + "@@");
    SpellStep(a, u, b, m);
    assert a + u + b == k;
  }

  lemma StraddleHidesId(k: string, u: string, i: nat)
    requires (k == "id" || k == "username") && i < |k| && i + |u| <= |k| && (u == [] ==> i == 1)
    ensures !Contains(Straddle(k, u, i), Variable("id"))
  {
    hide Contains;
    var m := Variable("id");
    assert m[2] == 'i' && m[3] == 'd';
    if k == "username" {
      assert 'i' !in k;
      AbsentByChar(Straddle(k, u, i), m, 'i');
    } else {
      StraddleHidesIdInId(u, i);
    }
  }

  lemma StraddleHidesIdInId(u: string, i: nat)
    requires i < 2 && i + |u| <= 2 && (u == [] ==> i == 1)
    ensures !Contains(Straddle("id", u, i), Variable("id"))
  {
    var t, m := Straddle("id", u, i), Variable("id");
    assert m[2] == 'i' && m[3] == 'd';
    forall j | 0 <= j <= |t| ensures !OccursAt(t, m, j) {
      if OccursAt(t, m, j) {
        OccursChar(t, m, j, 2);
        OccursChar(t, m, j, 3);
      }
    }
  }

  /** The numeric variables have nothing to do with this text. */
  ghost predicate Numberless(f: string, v: Values) {
    forall j :: 2 <= j < 7 ==> !Contains(f, Variable(Bindings(v)[j].name))
  }

  lemma {:induction false} NumbersStay(f: string, v: Values, n: nat)
    requires Numberless(f, v) && 2 <= n <= 7
    ensures Expanded(f, Bindings(v)[2..n]) == f
    decreases n
  {
    hide ReplaceAll, Contains, Decimal, Hex, Fitted, Expanded, Variable;
    if n == 2 {
      MentionsNone(f);
      assert Bindings(v)[2..2] == [];
    } else {
      NumbersStay(f, v, n - 1);
      var all := Bindings(v);
      var b := all[n - 1];
      assert all[2..n] == all[2..n - 1] + [b];
      ExpandedStep(f, all[2..n - 1], b);
    }
  }

  lemma AbsentByLetter(k: string, name: string, at: nat)
    requires at < |name| && name[at] !in k && name[at] != '@'
    ensures !Contains(Variable(k), Variable(name))
  {
    hide Contains;
    assert Variable(name)[2 + at] == name[at];
    AbsentByChar(Variable(k), Variable(name), name[at]);
  }

  lemma OthersAbsent(k: string, v: Values, j: nat)
    requires (k == "id" || k == "username") && 2 <= j < 7
    ensures !Contains(Variable(k), Variable(Bindings(v)[j].name))
  {
    hide Contains, Decimal, Hex, Fitted, Variable;
    var name := Bindings(v)[j].name;
    if k == "id" {
      AbsentByLength(Variable(k), Variable(name));
    } else {
      AbsentByLetter(k, name, if j == 4 then 3 else 1);
    }
  }

  lemma {:induction false} ExpandedAppend(text: string, a: seq<Binding>, b: seq<Binding>)
    ensures Expanded(text, a + b) == Expanded(Expanded(text, a), b)
    decreases |b|
  {
    hide ReplaceAll;
    if b == [] {
      assert a + b == a;
    } else {
      var n := |b| - 1;
      ExpandedAppend(text, a, b[..n]);
      assert (a + b)[..|a + b| - 1] == a + b[..n];
    }
  }

  /** A command without @@id@@ that reads f once the user name is put in, and f has no numeric variable: it stays f. */
  lemma ChainYields(t: string, v: Values, f: string)
    requires !Contains(t, Variable("id")) && Find(t, Variable("username"), 0).Some? && Numberless(f, v)
    requires ReplaceAll(t, Variable("username"), Fitted(v.username)) == f
    ensures Expanded(t, Bindings(v)) == f
  {
    hide ReplaceAll, Contains, Expanded, Decimal, Hex, Fitted, Find, OccursAt, Variable, Numberless;
    var bs := Bindings(v);
    MentionsNone(t);
    ExpandedStep(t, [], bs[0]);
    assert [] + [bs[0]] == [bs[0]] && bs[0].name == "id" && bs[1] == Binding("username", Fitted(v.username));
    ExpandedStep(t, [bs[0]], bs[1]);
    FindNone(t, Variable("username"));
    assert [bs[0]] + [bs[1]] == bs[..2];
    assert bs[..2] + bs[2..7] == bs;
    ExpandedAppend(t, bs[..2], bs[2..7]);
    NumbersStay(f, v, 7);
  }

  lemma VariableNumberless(k: string, v: Values)
    requires k == "id" || k == "username"
    ensures Numberless(Variable(k), v)
  {
    hide Contains, Bindings, Variable;
    forall j | 2 <= j < 7 ensures !Contains(Variable(k), Variable(Bindings(v)[j].name)) { OthersAbsent(k, v, j); }
  }

  /** The name is a part of k, or empty: it goes into the middle of @@k@@. */
  lemma StraddleKeepsVariable(k: string, v: Values, i: nat)
    requires (k == "id" || k == "username") && i < |k|
    requires var u := Fitted(v.username); i + |u| <= |k| && k[i..i + |u|] == u && (u == [] ==> i == 1)
    ensures Expanded(Straddle(k, Fitted(v.username), i), Bindings(v)) == Variable(k)
  {
    hide ReplaceAll, Contains, Expanded, Bindings, Fitted, Find, OccursAt, Variable, Numberless;
    var u := Fitted(v.username);
    StraddleHidesId(k, u, i);
    StraddleSpells(k, "username", u, i);
    VariableNumberless(k, v);
    ChainYields(Straddle(k, u, i), v, Variable(k));
  }

  /** The name is an at-sign and the beginning of k: it goes after the first at-sign of @@k@@. */
  lemma OpeningKeepsVariable(k: string, v: Values, q: nat)
    requires (k == "id" || k == "username") && 1 <= q <= |k| && Fitted(v.username) == "@" + k[..q]
    ensures Expanded("@" + Variable("username") + (k[q..] + "@@"), Bindings(v)) == Variable(k)
  {
    hide ReplaceAll, Contains, Expanded, Bindings, Fitted, Find, OccursAt, Variable, Numberless;
    var m, rest := Variable("username"), k[q..] + "@@";
    var t := "@" + m + rest;
    OpeningText(k, q);
    AbsentByChar(t, Variable("id"), 'i');
    OneReplaced("@", m, rest, Fitted(v.username));
    assert "@" + ("@" + k[..q]) + (k[q..] + "@@") == "@@" + (k[..q] + k[q..]) + "@@" && k[..q] + k[q..] == k;
    VariableIs(k);
    VariableNumberless(k, v);
    ChainYields(t, v, Variable(k));
  }

  lemma VariableIs(k: string)
    ensures Variable(k) == "@@" + k + "@@"
  {
  }

  lemma OpeningText(k: string, q: nat)
    requires (k == "id" || k == "username") && 1 <= q <= |k|
    ensures var m, rest := Variable("username"), k[q..] + "@@";
            && 'i' in Variable("id") && 'i' !in "@" + m + rest && |rest| < |m|
            && Find("@" + m + rest, m, 0) == Some(1)
  {
    var m, rest := Variable("username"), k[q..] + "@@";
    var t := "@" + m + rest;
    assert Variable("id")[2] == 'i';
    assert 'i' !in k[q..];
    assert m[2] == 'u' && t[2] == '@';
    assert !OccursAt(t, m, 0) by { if OccursAt(t, m, 0) { OccursChar(t, m, 0, 2); } }
    assert t[1..1 + |m|] == m;
    assert OccursAt(t, m, 1);
  }

  /** One replacement, when the needle is found after `pre` and the rest is too short for another. */
  lemma OneReplaced(pre: string, m: string, rest: string, u: string)
    requires m != [] && Find(pre + m + rest, m, 0) == Some(|pre|) && |rest| < |m|
    ensures ReplaceAll(pre + m + rest, m, u) == pre + u + rest
  {
    hide ReplaceAll, Find, OccursAt, Contains;
    var t := pre + m + rest;
    ReplaceAllStep(t, m, u);
    assert t[|pre| + |m|..] == rest && t[..|pre|] == pre;
    AbsentByLength(rest, m);
    FindNone(rest, m);
    ReplaceAllStep(rest, m, u);
  }

  /** The name ends in an at-sign: it completes the opening pair of @@username@@. */
  lemma EndingKeepsVariable(v: Values)
    requires var u := Fitted(v.username); u != [] && u[|u| - 1] == '@' && !Contains(u, "@@")
    ensures Contains(Expanded(Variable("username") + "@username@@", Bindings(v)), Variable("username"))
  {
    hide ReplaceAll, Contains, Expanded, Bindings, Fitted, Find, OccursAt, Variable, Numberless;
    var u, m := Fitted(v.username), Variable("username");
    var t, f := m + "@username@@", u + "@username@@";
    EndingText();
    AbsentByChar(t, Variable("id"), 'i');
    assert [] + m + "@username@@" == t && [] + u + "@username@@" == f;
    OneReplaced([], m, "@username@@", u);
    EndingNumberless(u, v);
    ChainYields(t, v, f);
    EndingContains(u);
  }

  lemma EndingText()
    ensures var m := Variable("username");
            'i' in Variable("id") && 'i' !in m + "@username@@" && |"@username@@"| < |m|
            && Find(m + "@username@@", m, 0) == Some(0)
  {
    var m := Variable("username");
    assert Variable("id")[2] == 'i';
    assert (m + "@username@@")[..|m|] == m;
    assert OccursAt(m + "@username@@", m, 0);
  }

  lemma EndingContains(u: string)
    requires u != [] && u[|u| - 1] == '@'
    ensures Contains(u + "@username@@", Variable("username"))
  {
    var f, m := u + "@username@@", Variable("username");
    assert f[|u| - 1..|u| - 1 + |m|] == m;
    assert OccursAt(f, m, |u| - 1);
  }

  lemma EndingNumberless(u: string, v: Values)
    requires u != [] && u[|u| - 1] == '@' && !Contains(u, "@@")
    ensures Numberless(u + "@username@@", v)
  {
    hide Contains, Bindings, Variable;
    forall j | 2 <= j < 7 ensures !Contains(u + "@username@@", Variable(Bindings(v)[j].name)) {
      NumberNames(v, j);
      NotAfterEnding(u, Bindings(v)[j].name);
    }
  }

  lemma NumberNames(v: Values, j: nat)
    requires 2 <= j < 7
    ensures var name := Bindings(v)[j].name; |name| >= 3 && (name[0] != 'u' || name[1] != 's')
  {
    hide Decimal, Hex, Fitted;
  }

  lemma NotAfterEnding(u: string, name: string)
    requires u != [] && !Contains(u, "@@") && |name| >= 3 && (name[0] != 'u' || name[1] != 's')
    ensures !Contains(u + "@username@@", Variable(name))
  {
    var f, m := u + "@username@@", Variable(name);
    assert m[0] == m[1] == '@' && m[2] == name[0] && m[3] == name[1];
    forall j | 0 <= j <= |f| ensures !OccursAt(f, m, j) {
      if OccursAt(f, m, j) {
        OccursChar(f, m, j, 0);
        OccursChar(f, m, j, 1);
        OccursChar(f, m, j, 2);
        OccursChar(f, m, j, 3);
        if j + 1 < |u| { PairOccurs(u, j); }
      }
    }
  }

  /**
   * For user names without a pair of at-signs, every command is expanded in full exactly when the name is not
   * empty, does not end in an at-sign, and is part of neither "@id" nor "@username". Local users carry the empty name.
   */
  lemma AllExpandedIffCleanName(v: Values)
    requires !Contains(Fitted(v.username), "@@")
    ensures CleanName(Fitted(v.username)) <==>
            forall text, i :: 0 <= i < 7 ==> !Contains(Expanded(text, Bindings(v)), Variable(Bindings(v)[i].name))
  {
    hide ReplaceAll, Contains, Expanded, Decimal, Hex, Fitted, CleanName, Find, OccursAt, Straddle;
    var u, bs := Fitted(v.username), Bindings(v);
    if CleanName(u) {
      forall text, i | 0 <= i < 7 ensures !Contains(Expanded(text, bs), Variable(bs[i].name)) {
        CleanNameExpandsAll(text, v, i);
      }
    } else {
      var which, text := UncleanCommand(v);
      assert Contains(Expanded(text, bs), Variable(bs[which].name));
    }
  }

  lemma ContainsItself(m: string)
    ensures Contains(m, m)
  {
    assert OccursAt(m, m, 0);
  }

  /** Where a part of "@k" lies. */
  lemma PartOf(k: string, u: string) returns (i: nat)
    requires Contains("@" + k, u) && u != [] && u[|u| - 1] != '@'
    ensures if i == 0 then 2 <= |u| <= |k| + 1 && u == "@" + k[..|u| - 1]
            else i - 1 < |k| && i - 1 + |u| <= |k| && k[i - 1..i - 1 + |u|] == u
  {
    i :| 0 <= i <= |"@" + k| && OccursAt("@" + k, u, i);
    var w := "@" + k;
    assert |w| == |k| + 1 && w[0] == '@' && w[1..] == k;
    if i == 0 {
      assert u == w[..|u|] && w[..|u|] == "@" + k[..|u| - 1];
    } else {
      assert w[i..i + |u|] == w[1..][i - 1..i - 1 + |u|];
    }
  }

  lemma UncleanPart(k: string, v: Values) returns (text: string)
    requires k == "id" || k == "username"
    requires var u := Fitted(v.username); u != [] && u[|u| - 1] != '@' && Contains("@" + k, u)
    ensures Expanded(text, Bindings(v)) == Variable(k)
  {
    hide Contains, Expanded, Bindings, Fitted, Variable, Straddle;
    var u := Fitted(v.username);
    var i := PartOf(k, u);
    if i == 0 {
      OpeningKeepsVariable(k, v, |u| - 1);
      text := "@" + Variable("username") + (k[|u| - 1..] + "@@");
    } else {
      StraddleKeepsVariable(k, v, i - 1);
      text := Straddle(k, u, i - 1);
    }
  }

  lemma UncleanCommand(v: Values) returns (which: nat, text: string)
    requires !CleanName(Fitted(v.username)) && !Contains(Fitted(v.username), "@@")
    ensures which < 2 && Contains(Expanded(text, Bindings(v)), Variable(Bindings(v)[which].name))
  {
    hide Contains, Expanded, Fitted, Variable, Straddle, Decimal, Hex;
    var u := Fitted(v.username);
    assert "@" + "id" == "@id" && "@" + "username" == "@username";
    ContainsItself(Variable("id"));
    ContainsItself(Variable("username"));
    if u == [] {
      StraddleKeepsVariable("id", v, 1);
      which, text := 0, Straddle("id", u, 1);
    } else if u[|u| - 1] == '@' {
      EndingKeepsVariable(v);
      which, text := 1, Variable("username") + "@username@@";
    } else if Contains("@id", u) {
      which := 0;
      text := UncleanPart("id", v);
    } else {
      which := 1;
      text := UncleanPart("username", v);
    }
  }
}
