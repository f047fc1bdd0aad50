/** The serialization file: entry_daemon_serialize(), entry_daemon_unserialize() and the entry signature. */
module DiskCodec {
  import opened Bytes
  import opened Entries
  import opened Limits
  import opened Wrappers

  /** The keyed part of the hash is foreign code: any function of the signed fields. */
  type Signer = (nat, nat, nat, seq<byte>, nat) -> seq<byte>

  predicate Signed(sign: Signer, e: Entry) {
    e.signature == sign(e.id, e.uid, e.gid, e.subj, e.createTime)
  }

  const RECORD := 4228

  /** The fixed part in host order, then the subject. */
  function Record(e: Entry): seq<byte> {
    Image(Widths(), Words(e))
    + (e.outdata + (e.username + (Le(|e.subj|, 4) + (Le(e.createTime, 4) + (e.signature + e.subj)))))
  }

  /** Overflow stands for a stored output length past the buffer: the check for it runs before the field is read. */
  datatype Loaded = Loaded(entry: Entry, next: nat) | Truncated | Overflow | BadSignature

  /** The entry in a record that lies within the file. */
  function RawAt(data: seq<byte>, at: nat, words: seq<nat>, size: nat): Entry
    requires |words| == 12 && words[11] < OUTPUT_MAX && at + RECORD + size <= |data|
  {
    var tail, end := at + 60 + OUTPUT_MAX + USERNAME_MAX, at + RECORD;
    var outdata := data[at + 60..at + 60 + words[11]] + Zeros(OUTPUT_MAX - words[11]);
    FromWords(words, outdata, data[at + 60 + OUTPUT_MAX..tail], data[end..end + size])
      .(createTime := FromLe(data[tail + 4..tail + 8]), signature := data[tail + 8..end])
  }

  function WordsAt(data: seq<byte>, at: nat): (vs: seq<nat>)
    requires at + 60 <= |data|
    ensures |vs| == 12
  {
    WidthsSum();
    Load(Widths(), data[at..at + 60])
  }

  function LoadAt(sign: Signer, data: seq<byte>, at: nat): (r: Loaded)
    ensures r.Loaded? ==> Signed(sign, r.entry) && SERIALIZED in r.entry.flags && at < r.next <= |data|
  {
    hide RawAt, WordsAt, FromLe;
    if at + RECORD > |data| then Truncated
    else
      var words := WordsAt(data, at);
      var tail := at + 60 + OUTPUT_MAX + USERNAME_MAX;
      var size := FromLe(data[tail..tail + 4]);
      if words[11] >= OUTPUT_MAX then Overflow
      else if at + RECORD + size > |data| then Truncated
      else
        var e := RawAt(data, at, words, size);
        if !Signed(sign, e) then BadSignature else Loaded(Set(e, SERIALIZED), at + RECORD + size)
  }

  /** What a reload keeps of an entry: everything but the timer and stale output bytes, marked SERIALIZED. */
  function Persistent(e: Entry): Entry
    requires Storable(e)
  {
    Set(e, SERIALIZED).(timer := 0, outdata := e.outdata[..e.outLen] + Zeros(OUTPUT_MAX - e.outLen))
  }

  predicate Storable(e: Entry) {
    Sized(e) && e.outLen < OUTPUT_MAX
  }

  lemma RecordParts(pre: seq<byte>, e: Entry, post: seq<byte>)
    requires Sized(e)
    ensures var d, at := pre + Record(e) + post, |pre|;
            var tail, end := at + 60 + OUTPUT_MAX + USERNAME_MAX, at + RECORD;
            && Width(Widths()) == 60 && |Record(e)| == RECORD + |e.subj|
            && d[at..at + 60] == Image(Widths(), Words(e))
            && d[at + 60..at + 60 + OUTPUT_MAX] == e.outdata
            && d[at + 60 + OUTPUT_MAX..tail] == e.username
            && d[tail..tail + 4] == Le(|e.subj|, 4)
            && d[tail + 4..tail + 8] == Le(e.createTime, 4)
            && d[tail + 8..end] == e.signature
            && d[end..end + |e.subj|] == e.subj
  {
    hide Image, Le, Widths, Words, Width;
    WidthsSum();
    var n, c := Le(|e.subj|, 4), Le(e.createTime, 4);
    var x5 := e.signature + e.subj;
    var x4 := c + x5;
    var x3 := n + x4;
    var x2 := e.username + x3;
    var x1 := e.outdata + x2;
    var d, at := pre + Record(e) + post, |pre|;
    assert d[at..] == Record(e) + post;
    Peel(d, at, Image(Widths(), Words(e)), x1, post);
    Peel(d, at + 60, e.outdata, x2, post);
    Peel(d, at + 60 + OUTPUT_MAX, e.username, x3, post);
    var tail := at + 60 + OUTPUT_MAX + USERNAME_MAX;
    Peel(d, tail, n, x4, post);
    Peel(d, tail + 4, c, x5, post);
    Peel(d, tail + 8, e.signature, e.subj, post);
    assert e.subj == e.subj + [];
    Peel(d, tail + 8 + SIGNATURE_SIZE, e.subj, [], post);
  }

  /** The first part of what lies at an offset, and what lies after it. */
  lemma Peel(d: seq<byte>, at: nat, a: seq<byte>, x: seq<byte>, post: seq<byte>)
    requires at <= |d| && d[at..] == (a + x) + post
    ensures at + |a| <= |d| && d[at..at + |a|] == a && d[at + |a|..] == x + post
  {
  }

  lemma LoadedFields(e: Entry, out: seq<byte>)
    requires Sized(e)
    ensures Load(Widths(), Image(Widths(), Words(e))) == Words(e) && Words(e)[11] == e.outLen
    ensures FromLe(Le(|e.subj|, 4)) == |e.subj| && FromLe(Le(e.createTime, 4)) == e.createTime
    ensures FromWords(Words(e), out, e.username, e.subj).(createTime := e.createTime, signature := e.signature) ==
            e.(timer := 0, outdata := out)
  {
    hide Load, Image, Le, FromLe, Range, Fits, WordFrom, BitsFrom, Zeros;
    WordsFit(e);
    LoadOfImage(Widths(), Words(e));
    Range4();
    FromLeOfLe(|e.subj|, 4);
    FromLeOfLe(e.createTime, 4);
    FromWordsOfWords(e.(outdata := out));
  }

  /** A stored entry is restored if and only if its signature is the one recomputed from it; nothing else is lost. */
  lemma LoadRecordIff(sign: Signer, pre: seq<byte>, e: Entry, post: seq<byte>)
    requires Storable(e)
    ensures var r := LoadAt(sign, pre + Record(e) + post, |pre|);
            if Signed(sign, e) then r == Loaded(Persistent(e), |pre + Record(e)|) else r == BadSignature
  {
    hide Record, Image, Load, Le, FromLe, Words, Widths, Width, FromWords, Zeros;
    RecordParts(pre, e, post);
    var d, at := pre + Record(e) + post, |pre|;
    var out := e.outdata[..e.outLen] + Zeros(OUTPUT_MAX - e.outLen);
    LoadedFields(e, out);
    assert d[at + 60..at + 60 + e.outLen] == d[at + 60..at + 60 + OUTPUT_MAX][..e.outLen];
  }

  /** What lies behind a position. */
  function Behind(d: seq<byte>, p: nat): seq<byte> {
    if p < |d| then d[p..] else []
  }

  /** A file after new bytes were written from its start: nothing truncates it. */
  function Overwritten(d: seq<byte>, image: seq<byte>): seq<byte> {
    image + Behind(d, |image|)
  }

  /** An open serialization file with its position. */
  class File {
    var data: seq<byte>
    var pos: nat

    /** write() at the position, over what is there. */
    method Write(buf: seq<byte>)
      requires pos <= |data|
      modifies this
      ensures pos == old(pos) + |buf| <= |data|
      ensures data == old(data[..pos]) + buf + Behind(old(data), pos)
    {
      data := data[..pos] + buf + Behind(data, pos + |buf|);
      pos := pos + |buf|;
    }

    /** entry_daemon_serialize(): removed entries are skipped, others written in two calls and marked. */
    method Store(e: Entry) returns (marked: Entry)
      requires Sized(e) && pos <= |data|
      modifies this
      ensures pos == old(pos) + |Written(e)| <= |data| && marked == Marked(e)
      ensures data == old(data[..pos]) + Written(e) + Behind(old(data), pos)
    {
      hide Record, Behind, Sized;
      TwoWrites(data, pos, [], []);
      if REMOVED in e.flags { return e; }
      var buf := FixedPart(e);
      TwoWrites(data, pos, buf, e.subj);
      Write(buf);
      Write(e.subj);
      marked := Set(e, SERIALIZED);
    }

    /** The buffer that is filled field by field before the first write. */
    method FixedPart(e: Entry) returns (buf: seq<byte>)
      requires Sized(e)
      ensures buf + e.subj == Record(e)
    {
      hide Image, Le, Widths, Words;
      buf := Image(Widths(), Words(e));
      buf := buf + e.outdata;
      buf := buf + e.username;
      buf := buf + Le(|e.subj|, 4);
      buf := buf + Le(e.createTime, 4);
      buf := buf + e.signature;
      assert buf + e.subj == Record(e);
    }

    /** The whole pool in order, from the start of the file; what was longer before stays behind it. */
    method StoreAll(es: seq<Entry>) returns (marked: seq<Entry>)
      requires forall e :: e in es ==> Sized(e)
      modifies this
      ensures data == Overwritten(old(data), Records(es)) && pos == |Records(es)|
      ensures |marked| == |es| && forall i :: 0 <= i < |es| ==> marked[i] == Marked(es[i])
    {
      hide Written, Marked, Records, Sized, Overwritten, Behind;
      RecordsNone();
      OverwriteMore(data, [], []);
      pos, marked := 0, [];
      for i := 0 to |es|
        invariant pos == |Records(es[..i])| <= |data| && data == Overwritten(old(data), Records(es[..i]))
        invariant |marked| == i && forall j :: 0 <= j < i ==> marked[j] == Marked(es[j])
      {
        OverwriteMore(old(data), Records(es[..i]), Written(es[i]));
        var m := Store(es[i]);
        RecordsPush(es, i);
        marked := marked + [m];
      }
      assert es[..|es|] == es;
    }

    /** The pool from the file, or nothing once a record is refused. */
    method LoadAll(sign: Signer) returns (es: seq<Entry>, failed: bool)
      modifies `pos
      ensures failed == LoadedAll(sign, data, 0).None?
      ensures !failed ==> es == LoadedAll(sign, data, 0).value
    {
      hide LoadAt;
      es, pos, failed := [], 0, false;
      PrependNothing(LoadedAll(sign, data, 0));
      while pos < |data|
        invariant pos <= |data|
        invariant LoadedAll(sign, data, 0) == Prepend(es, LoadedAll(sign, data, pos))
        decreases |data| - pos
      {
        var r := LoadAt(sign, data, pos);
        if !r.Loaded? { failed := true; return; }
        PrependStep(es, r.entry, LoadedAll(sign, data, r.next));
        LoadAtAdvances(sign, data, pos);
        es, pos := es + [r.entry], r.next;
      }
      assert es + [] == es;
    }
  }

  lemma TwoWrites(d: seq<byte>, p: nat, a: seq<byte>, b: seq<byte>)
    requires p <= |d|
    ensures var m := d[..p] + a + Behind(d, p + |a|);
            && p + |a| <= |m|
            && m[..p + |a|] + b + Behind(m, p + |a| + |b|) == d[..p] + (a + b) + Behind(d, p + |a| + |b|)
            && d == d[..p] + [] + Behind(d, p)
  {
    var m := d[..p] + a + Behind(d, p + |a|);
    assert m[..p + |a|] == d[..p] + a;
    assert Behind(m, p + |a| + |b|) == Behind(d, p + |a| + |b|);
  }

  lemma OverwriteMore(d: seq<byte>, a: seq<byte>, b: seq<byte>)
    ensures var m := Overwritten(d, a);
            && |a| <= |m| && m[..|a|] + b + Behind(m, |a| + |b|) == Overwritten(d, a + b)
            && |a + b| <= |Overwritten(d, a + b)| && Overwritten(d, []) == d
  {
    var m := Overwritten(d, a);
    assert m[..|a|] == a && Behind(m, |a| + |b|) == Behind(d, |a| + |b|);
  }

  function Prepend(es: seq<Entry>, m: Option<seq<Entry>>): Option<seq<Entry>> {
    if m.None? then None else Some(es + m.value)
  }

  function LoadedAll(sign: Signer, data: seq<byte>, at: nat): Option<seq<Entry>>
    decreases if at < |data| then |data| - at else 0
  {
    if at >= |data| then Some([])
    else
      var r := LoadAt(sign, data, at);
      if r.Loaded? then Prepend([r.entry], LoadedAll(sign, data, r.next)) else None
  }

  lemma LoadAtAdvances(sign: Signer, data: seq<byte>, at: nat)
    ensures LoadAt(sign, data, at).Loaded? ==> at < LoadAt(sign, data, at).next <= |data|
  {
  }

  lemma PrependNothing(m: Option<seq<Entry>>)
    ensures Prepend([], m) == m
  {
    if m.Some? { assert [] + m.value == m.value; }
  }

  lemma PrependStep(es: seq<Entry>, e: Entry, m: Option<seq<Entry>>)
    ensures Prepend(es, Prepend([e], m)) == Prepend(es + [e], m)
  {
    if m.Some? { assert es + ([e] + m.value) == es + [e] + m.value; }
  }

  function Marked(e: Entry): Entry {
    if REMOVED in e.flags then e else Set(e, SERIALIZED)
  }

  function Written(e: Entry): seq<byte> {
    if REMOVED in e.flags then [] else Record(e)
  }

  function Records(es: seq<Entry>): seq<byte> {
    if es == [] then [] else Records(es[..|es| - 1]) + Written(es[|es| - 1])
  }

  lemma RecordsPush(es: seq<Entry>, i: nat)
    requires i < |es|
    ensures Records(es[..i + 1]) == Records(es[..i]) + Written(es[i])
  {
    hide Written;
    assert es[..i + 1][..i] == es[..i];
  }

  lemma RecordsNone()
    ensures Records([]) == []
  {
  }

  lemma {:induction false} RecordsCons(es: seq<Entry>, n: nat)
    requires 0 < n <= |es|
    ensures Records(es[..n]) == Written(es[0]) + Records(es[1..n])
    decreases n
  {
    hide Written, Records;
    RecordsPush(es, n - 1);
    RecordsNone();
    if n == 1 {
      assert es[..0] == [] && es[1..1] == [];
    } else {
      RecordsCons(es, n - 1);
      RecordsPush(es[1..], n - 2);
      assert es[1..][..n - 1] == es[1..n] && es[1..][..n - 2] == es[1..n - 1];
      var w, r, l := Written(es[0]), Records(es[1..n - 1]), Written(es[n - 1]);
      assert w + (r + l) == w + r + l;
    }
  }

  /** The entries that are written at all, as a reload gives them back. */
  function Kept(es: seq<Entry>): seq<Entry>
    requires forall e :: e in es ==> Storable(e)
  {
    if es == [] then []
    else
      assert es[0] in es;
      (if REMOVED in es[0].flags then [] else [Persistent(es[0])]) + Kept(es[1..])
  }

  /** Every entry that is written carries the signature recomputed from it. */
  predicate AllSigned(sign: Signer, es: seq<Entry>) {
    forall e :: e in es && REMOVED !in e.flags ==> Signed(sign, e)
  }

  /** Reading through the records of a pool gives its entries and goes on with what lies behind them. */
  lemma {:induction false} ReadThrough(sign: Signer, pre: seq<byte>, es: seq<Entry>, post: seq<byte>)
    requires forall e :: e in es ==> Storable(e)
    ensures var d := pre + Records(es) + post;
            LoadedAll(sign, d, |pre|) ==
            if AllSigned(sign, es) then Prepend(Kept(es), LoadedAll(sign, d, |pre| + |Records(es)|)) else None
    decreases |es|
  {
    hide LoadAt, Record, Storable, Persistent, Signed, Records;
    if es == [] {
      RecordsNone();
      PrependNothing(LoadedAll(sign, pre + [] + post, |pre|));
    } else {
      var e, rest := es[0], es[1..];
      RecordsCons(es, |es|);
      assert es == [e] + rest && es[..|es|] == es && es[1..|es|] == rest;
      if REMOVED in e.flags {
        ReadThrough(sign, pre, rest, post);
        assert [] + Records(rest) == Records(rest) && [] + Kept(rest) == Kept(rest);
      } else {
        var mid := pre + Record(e);
        assert pre + Records(es) + post == mid + Records(rest) + post;
        assert pre + Records(es) + post == mid + (Records(rest) + post);
        LoadRecordIff(sign, pre, e, Records(rest) + post);
        RecordNotEmpty(e);
        ReadThrough(sign, mid, rest, post);
        PrependPersistent(e, rest, LoadedAll(sign, mid + Records(rest) + post, |mid| + |Records(rest)|));
      }
    }
  }

  lemma PrependPersistent(e: Entry, rest: seq<Entry>, m: Option<seq<Entry>>)
    requires Storable(e) && REMOVED !in e.flags && forall x :: x in rest ==> Storable(x)
    ensures Prepend([Persistent(e)], Prepend(Kept(rest), m)) == Prepend(Kept([e] + rest), m)
  {
    hide Storable, Persistent;
    assert ([e] + rest)[1..] == rest && forall x :: x in [e] + rest ==> Storable(x);
    if m.Some? { assert [Persistent(e)] + (Kept(rest) + m.value) == [Persistent(e)] + Kept(rest) + m.value; }
  }

  /**
   * Reading back the records of any pool gives its non-removed entries in order, each with its persistent
   * fields, subject and output prefix, if and only if every one of them is correctly signed.
   */
  lemma FileRoundTripIff(sign: Signer, es: seq<Entry>)
    requires forall e :: e in es ==> Storable(e)
    ensures LoadedAll(sign, Records(es), 0) == if AllSigned(sign, es) then Some(Kept(es)) else None
  {
    hide LoadAt, Record, Storable, Persistent, Signed, Records;
    ReadThrough(sign, [], es, []);
    assert [] + Records(es) + [] == Records(es) && Kept(es) + [] == Kept(es);
  }

  /** A pool saved over an older file comes back exactly when the older file was not longer. */
  lemma SavedOverIff(sign: Signer, before: seq<byte>, es: seq<Entry>)
    requires AllSigned(sign, es) && forall e :: e in es ==> Storable(e)
    ensures LoadedAll(sign, Overwritten(before, Records(es)), 0) == Some(Kept(es)) <==> |before| <= |Records(es)|
  {
    hide LoadAt, Record, Storable, Persistent, Signed, Records, AllSigned;
    var rest := Behind(before, |Records(es)|);
    ReadThrough(sign, [], es, rest);
    var d := Overwritten(before, Records(es));
    assert [] + Records(es) + rest == d;
    var more := LoadedAll(sign, d, |Records(es)|);
    assert more == Some([]) <==> rest == [] by { MoreIff(sign, d, |Records(es)|); }
    if more.Some? { assert Kept(es) + more.value == Kept(es) <==> more.value == []; }
  }

  lemma MoreIff(sign: Signer, d: seq<byte>, at: nat)
    ensures LoadedAll(sign, d, at) == Some([]) <==> at >= |d|
  {
    hide LoadAt;
  }

  lemma {:induction false} RecordsAppend(a: seq<Entry>, b: seq<Entry>)
    ensures Records(a + b) == Records(a) + Records(b)
    decreases |b|
  {
    hide Written;
    if b == [] {
      assert a + b == a;
    } else {
      var n := |b| - 1;
      RecordsAppend(a, b[..n]);
      assert (a + b)[..|a + b| - 1] == a + b[..n];
    }
  }

  /** Saving a pool without its last entries leaves the file as it was: a reload brings the deleted entries back. */
  lemma DeletedComeBack(sign: Signer, es: seq<Entry>, gone: seq<Entry>)
    requires AllSigned(sign, es + gone) && forall e :: e in es + gone ==> Storable(e)
    ensures var file := Overwritten(Records(es + gone), Records(es));
            file == Records(es + gone) && LoadedAll(sign, file, 0) == Some(Kept(es + gone))
  {
    hide LoadAt, Written, Storable, Persistent, Signed, Records, AllSigned;
    RecordsAppend(es, gone);
    assert Behind(Records(es) + Records(gone), |Records(es)|) == Records(gone);
    FileRoundTripIff(sign, es + gone);
  }

  lemma RecordNotEmpty(e: Entry)
    requires Storable(e)
    ensures |Record(e)| > 0
  {
  }

  /** Saving what was loaded and loading it again changes nothing more. */
  lemma PersistentTwice(e: Entry)
    requires Storable(e)
    ensures Storable(Persistent(e)) && Persistent(Persistent(e)) == Persistent(e)
  {
  }
}
