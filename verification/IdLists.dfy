/** The ids of a stop or show request: the loops of logic_client_process_stop() and logic_client_process_show(). */
module IdLists {
  import opened Language
  import opened Limits
  import opened Numbers
  import opened Wrappers

  // ---- Fields between commas, as strtok_r() yields them ----

  function SkipCommas(s: string): (r: string)
    ensures |r| <= |s| && (r != [] ==> r[0] != ',')
  {
    if s != [] && s[0] == ',' then SkipCommas(s[1..]) else s
  }

  function FieldLength(s: string): (n: nat)
    ensures n <= |s|
  {
    if s == [] || s[0] == ',' then 0 else 1 + FieldLength(s[1..])
  }

  function Fields(s: string): seq<string>
    decreases |s|
  {
    var t := SkipCommas(s);
    if t == [] then [] else
      var n := FieldLength(t);
      [t[..n]] + Fields(t[n..])
  }

  // ---- strtoull() in base 16 ----

  function HexEnd(s: string, i: nat): (j: nat)
    requires i <= |s|
    ensures i <= j <= |s| && AllHex(s[i..j])
    decreases |s| - i
  {
    if i < |s| && IsHex(s[i]) then
      var j := HexEnd(s, i + 1);
      assert s[i..j] == [s[i]] + s[i + 1..j];
      j
    else i
  }

  /** The value and the index where it stopped: blanks, a sign, "0x" before a digit, digits; clamped to 64 bits. */
  function Strtoull(s: string): (nat, nat) {
    var i := SkipSpaces(s, 0);
    var j := if i < |s| && (s[i] == '-' || s[i] == '+') then i + 1 else i;
    var k := if j + 2 < |s| && s[j] == '0' && (s[j + 1] == 'x' || s[j + 1] == 'X') && IsHex(s[j + 2]) then j + 2 else j;
    var end := HexEnd(s, k);
    if end == k then (0, 0)
    else
      var v := HexNumber(s[k..end]);
      if v >= U64 then (U64 - 1, end)
      else if s[i] == '-' then ((-v) % U64, end)
      else (v, end)
  }

  /** One field of the list: an id other than 0, from the first to the last character. */
  predicate IsId(field: string) {
    Strtoull(field).0 != 0 && Strtoull(field).1 == |field|
  }

  function ReadFields(fs: seq<string>): Option<seq<nat>> {
    if fs == [] then Some([])
    else
      var rest := ReadFields(fs[..|fs| - 1]);
      if rest.None? || !IsId(fs[|fs| - 1]) then None else Some(rest.value + [Strtoull(fs[|fs| - 1]).0])
  }

  /** The list of ids; 0 alone stands for all. */
  function IdsOf(text: string): Option<seq<nat>> {
    if Lower(text) == "all" then Some([0]) else ReadFields(Fields(text))
  }

  lemma FieldsStep(done: seq<string>, ptr: string)
    ensures SkipCommas(ptr) == [] ==> Fields(ptr) == []
    ensures var t := SkipCommas(ptr);
            var n := FieldLength(t);
            t != [] ==> n > 0 && done + Fields(ptr) == done + [t[..n]] + Fields(t[n..])
  {
  }

  /** The loop over the fields, which gives up at the first that is no id. */
  method ProcessIds(subj: string) returns (list: Option<seq<nat>>)
    ensures list == IdsOf(subj)
  {
    hide Strtoull, IsId, Fields;
    if Lower(subj) == "all" { return Some([0]); }
    ghost var done: seq<string> := [];
    var ptr, ids := subj, [];
    while true
      invariant Fields(subj) == done + Fields(ptr) && ReadFields(done) == Some(ids)
      decreases |ptr|
    {
      FieldsStep(done, ptr);
      var t := SkipCommas(ptr);
      if t == [] { break; }
      var n := FieldLength(t);
      var field := t[..n];
      assert (done + [field])[..|done|] == done;
      if !IsId(field) {
        ReadStops(done + [field], Fields(t[n..]));
        return None;
      }
      ids, done, ptr := ids + [Strtoull(field).0], done + [field], t[n..];
    }
    assert done + [] == done;
    list := Some(ids);
  }

  lemma {:induction false} ReadStops(a: seq<string>, b: seq<string>)
    requires ReadFields(a).None?
    ensures ReadFields(a + b).None?
    decreases |b|
  {
    hide IsId, Strtoull;
    if b == [] {
      assert a + b == a;
    } else {
      ReadStops(a, b[..|b| - 1]);
      assert (a + b)[..|a + b| - 1] == a + b[..|b| - 1];
    }
  }

  // ---- Printed lists ----

  /** An id as the client prints it. */
  function Printed(id: nat): (s: string)
    ensures |s| == 18
  {
    "0x" + Hex(id, 16)
  }

  function PrintedIds(ids: seq<nat>): string {
    if ids == [] then "" else if |ids| == 1 then Printed(ids[0]) else Printed(ids[0]) + "," + PrintedIds(ids[1..])
  }

  function Each(ids: seq<nat>): (fs: seq<string>)
    ensures |fs| == |ids| && forall i :: 0 <= i < |ids| ==> fs[i] == Printed(ids[i])
  {
    seq(|ids|, i requires 0 <= i < |ids| => Printed(ids[i]))
  }

  lemma {:induction false} FieldAt(f: string, rest: string)
    requires ',' !in f && (rest == [] || rest[0] == ',')
    ensures FieldLength(f + rest) == |f|
  {
    if f != [] {
      FieldAt(f[1..], rest);
      assert (f + rest)[1..] == f[1..] + rest;
    } else {
      assert f + rest == rest;
    }
  }

  lemma PrintedPlain(id: nat)
    ensures ',' !in Printed(id) && Printed(id)[0] == '0' && Printed(id)[1] == 'x' && Printed(id)[2..] == Hex(id, 16)
    ensures AllHex(Printed(id)[2..])
  {
    HexDigits(id, 16);
  }

  lemma {:induction false} FieldsOfPrinted(ids: seq<nat>)
    ensures Fields(PrintedIds(ids)) == Each(ids)
  {
    hide Hex, Printed;
    if ids == [] {
      assert Each(ids) == [];
    } else {
      var f := Printed(ids[0]);
      PrintedPlain(ids[0]);
      var rest := if |ids| == 1 then "" else "," + PrintedIds(ids[1..]);
      assert PrintedIds(ids) == f + rest;
      FieldAt(f, rest);
      FieldsHead(f, rest);
      if |ids| > 1 {
        FieldsOfPrinted(ids[1..]);
        FieldsAfterComma(PrintedIds(ids[1..]));
      }
      assert Each(ids) == [f] + Each(ids[1..]);
      if |ids| == 1 { assert Each(ids[1..]) == [] && Fields("") == []; }
    }
  }

  lemma FieldsHead(f: string, rest: string)
    requires f != [] && f[0] != ',' && FieldLength(f + rest) == |f|
    ensures Fields(f + rest) == [f] + Fields(rest)
  {
    assert (f + rest)[..|f|] == f && (f + rest)[|f|..] == rest && (f + rest)[0] == f[0];
  }

  lemma FieldsAfterComma(s: string)
    ensures Fields("," + s) == Fields(s)
  {
    assert ("," + s)[1..] == s;
  }

  lemma {:induction false} HexEndAll(s: string, i: nat)
    requires i <= |s| && AllHex(s[i..])
    ensures HexEnd(s, i) == |s|
    decreases |s| - i
  {
    if i < |s| {
      assert IsHex(s[i..][0]) && s[i + 1..] == s[i..][1..];
      HexEndAll(s, i + 1);
    }
  }

  /** A printed id is read back. */
  lemma StrtoullOfPrinted(id: nat)
    requires id < U64
    ensures Strtoull(Printed(id)) == (id, 18)
  {
    hide Hex, HexNumber, HexEnd, Power16, Printed;
    var s := Printed(id);
    PrintedPlain(id);
    Power16Is();
    HexReads(id, 16);
    HexEndAll(s, 2);
    assert IsHex(s[2..][0]);
    assert s[2..18] == Hex(id, 16);
  }

  lemma {:induction false} ReadEach(ids: seq<nat>)
    requires forall id :: id in ids ==> id < U64
    ensures ReadFields(Each(ids)) == if 0 in ids then None else Some(ids)
    decreases |ids|
  {
    hide Printed, Strtoull;
    if ids != [] {
      var n := |ids| - 1;
      assert ids[n] in ids && (forall id :: id in ids[..n] ==> id in ids) && ids == ids[..n] + [ids[n]];
      assert Each(ids)[..n] == Each(ids[..n]);
      ReadEach(ids[..n]);
      StrtoullOfPrinted(ids[n]);
    }
  }

  /** A printed list of ids is read back, exactly when none of them is 0. */
  lemma IdsOfPrinted(ids: seq<nat>)
    requires forall id :: id in ids ==> id < U64
    ensures IdsOf(PrintedIds(ids)) == Some(ids) <==> 0 !in ids
    ensures 0 in ids ==> IdsOf(PrintedIds(ids)) == None
  {
    hide Fields, ReadFields, Printed;
    FieldsOfPrinted(ids);
    ReadEach(ids);
    PrintedNotAll(ids);
  }

  lemma PrintedNotAll(ids: seq<nat>)
    ensures Lower(PrintedIds(ids)) != "all"
  {
    hide Hex;
    if ids != [] {
      assert PrintedIds(ids)[0] == '0';
      assert Lower(PrintedIds(ids))[0] == '0';
    }
  }
}
