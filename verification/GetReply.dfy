/** The GET reply: the daemon's encoder and the client's decoder. */
module GetReply {
  import opened Bytes
  import opened Entries
  import opened Limits

  const HEAD := 4156

  /** strlen(): bytes before the first NUL, or all of them. */
  function StrLen(s: seq<byte>): (n: nat)
    ensures n <= |s|
  {
    if s == [] || s[0] == 0 then 0 else 1 + StrLen(s[1..])
  }

  /** strisascii(): no byte above 127 before a NUL or the end. */
  predicate Ascii(s: seq<byte>) {
    s == [] || s[0] == 0 || (s[0] < 128 && Ascii(s[1..]))
  }

  /** Every byte of the string is an ASCII character. */
  lemma {:induction false} AsciiIff(s: seq<byte>)
    ensures Ascii(s) <==> forall i :: 0 <= i < StrLen(s) ==> s[i] < 128
  {
    if s != [] && s[0] != 0 {
      AsciiIff(s[1..]);
      assert forall i :: 1 <= i < |s| ==> s[i] == s[1..][i - 1];
      if Ascii(s[1..]) && s[0] < 128 {
        forall i | 0 <= i < StrLen(s) ensures s[i] < 128 { if i > 0 { assert s[1..][i - 1] < 128; } }
      } else if forall i :: 0 <= i < StrLen(s) ==> s[i] < 128 {
        forall i | 0 <= i < StrLen(s[1..]) ensures s[1..][i] < 128 { assert s[i + 1] < 128; }
      }
    }
  }

  /** A copy that goes to a client: the transmitted fields, everything else zeroed. */
  function Shown(e: Entry): Entry {
    e.(timer := 0, createTime := 0, signature := Zeros(SIGNATURE_SIZE))
  }

  /** Why a requested id is answered: it is active, owned, printable and its output length is consistent. */
  predicate Visible(pool: map<nat, Entry>, id: nat, uid: nat) {
    && id in pool && pool[id].timer != 0 && Ascii(pool[id].subj)
    && pool[id].uid == uid
    && pool[id].outLen < OUTPUT_MAX && pool[id].outLen == StrLen(pool[id].outdata)
  }

  function Selected(ids: seq<nat>, pool: map<nat, Entry>, uid: nat): (es: seq<Entry>)
    ensures |es| <= |ids|
  {
    if ids == [] then []
    else
      var n := |ids| - 1;
      Selected(ids[..n], pool, uid) + if Visible(pool, ids[n], uid) then [pool[ids[n]]] else []
  }

  /** The layout on the wire. */
  function EncodeOne(e: Entry): seq<byte> {
    NetworkImage(Widths(), Words(e)) + e.outdata + e.username + Be(|e.subj|, 4) + (e.subj + [0])
  }

  function EncodeAll(es: seq<Entry>): seq<byte> {
    if es == [] then [] else EncodeAll(es[..|es| - 1]) + EncodeOne(es[|es| - 1])
  }

  function Reply(es: seq<Entry>): seq<byte> {
    Be(|es|, 4) + EncodeAll(es)
  }

  lemma EncodeAllPush(es: seq<Entry>, e: Entry)
    ensures EncodeAll(es + [e]) == EncodeAll(es) + EncodeOne(e)
  {
    hide EncodeOne;
    assert (es + [e])[..|es|] == es;
  }

  /** _process_recv_update_op_get(): each selected copy is converted, then copied to the end of the buffer. */
  method EncodeReply(ids: seq<nat>, pool: map<nat, Entry>, uid: nat) returns (buf: seq<byte>)
    requires |ids| < U32 && forall id :: id in pool ==> Sized(pool[id])
    ensures buf == Reply(Selected(ids, pool, uid))
  {
    hide Range, NetworkImage, Image, HtonAll, Hton, Be, Le, EncodeOne, Sized, Widths, Words, Visible;
    buf := Zeros(4);
    var nmemb: nat := 0;
    for i := 0 to |ids|
      invariant nmemb == |Selected(ids[..i], pool, uid)|
      invariant |buf| >= 4 && buf[4..] == EncodeAll(Selected(ids[..i], pool, uid))
    {
      SelectedStep(ids, i, pool, uid);
      if Visible(pool, ids[i], uid) {
        var e := pool[ids[i]];
        var offset := |buf|;
        var image := CopyOut(e);
        buf := buf + image;
        assert buf[4..] == buf[..offset][4..] + image;
        EncodeAllPush(Selected(ids[..i], pool, uid), e);
        nmemb := nmemb + 1;
      }
    }
    assert ids[..|ids|] == ids;
    Range4();
    HtonLayout(nmemb, 4);
    buf := Le(Hton(nmemb, 4), 4) + buf[4..];
  }

  lemma SelectedStep(ids: seq<nat>, i: nat, pool: map<nat, Entry>, uid: nat)
    requires i < |ids|
    ensures Visible(pool, ids[i], uid) ==>
              ids[i] in pool && Selected(ids[..i + 1], pool, uid) == Selected(ids[..i], pool, uid) + [pool[ids[i]]]
    ensures !Visible(pool, ids[i], uid) ==> Selected(ids[..i + 1], pool, uid) == Selected(ids[..i], pool, uid)
  {
    assert ids[..i + 1][..i] == ids[..i];
  }

  /** One entry: words converted in place, the struct prefix copied, then the user name, subject size and subject. */
  method CopyOut(e: Entry) returns (s: seq<byte>)
    requires Sized(e)
    ensures s == EncodeOne(e)
  {
    hide Range, NetworkImage, Image, HtonAll, Hton, Be, Le, Widths, Words;
    WordsFit(e);
    HtonAllLayout(Widths(), Words(e));
    s := Image(Widths(), HtonAll(Widths(), Words(e))) + e.outdata;
    s := s + e.username;
    Range4();
    HtonLayout(|e.subj|, 4);
    s := s + Le(Hton(|e.subj|, 4), 4);
    s := s + (e.subj + [0]);
  }

  // ---- The client ----

  /** Overrun stands for a read past the received payload, which the decoder does not look for. */
  datatype Decoded = Listing(list: seq<Entry>, offset: nat) | BadSubject | Overrun

  /** entry_set_subj() on the bytes that follow: a zero length means up to and including the NUL. */
  function SubjectLength(avail: seq<byte>, len: nat): nat {
    if len == 0 then StrLen(avail) + 1 else len
  }

  function DecodeOne(p: seq<byte>, offset: nat): (r: Decoded)
    ensures r.Listing? ==> |r.list| == 1
  {
    if offset + HEAD + USERNAME_MAX + 4 > |p| then Overrun
    else
      WidthsSum();
      var words := HtonAll(Widths(), Load(Widths(), p[offset..offset + 60]));
      var outdata, rest := p[offset + 60..offset + HEAD], offset + HEAD + USERNAME_MAX;
      var username, size := p[offset + HEAD..rest], Hton(FromLe(p[rest..rest + 4]), 4);
      var avail := p[rest + 4..];
      var len := SubjectLength(avail, size);
      if !Ascii(if len <= |avail| then avail[..len] else avail) then BadSubject
      else if len > |avail| then Overrun
      else Listing([FromWords(words, outdata, username, avail[..len])], rest + 4 + len + 1)
  }

  function DecodeFrom(p: seq<byte>, offset: nat, n: nat): Decoded
    decreases n
  {
    if n == 0 then Listing([], offset)
    else
      var one := DecodeOne(p, offset);
      if !one.Listing? then one
      else
        var more := DecodeFrom(p, one.offset, n - 1);
        if more.Listing? then Listing(one.list + more.list, more.offset) else more
  }

  function DecodeReply(p: seq<byte>): Decoded {
    if |p| < 4 then Overrun else DecodeFrom(p, 4, Hton(FromLe(p[..4]), 4))
  }

  /** What the rest of the loop makes of a prefix already read. */
  function After(list: seq<Entry>, d: Decoded): Decoded {
    if d.Listing? then Listing(list + d.list, d.offset) else d
  }

  /** process_client_recv_show(): the loop with its running offset. */
  method DecodePayload(p: seq<byte>) returns (r: Decoded)
    ensures r == DecodeReply(p)
  {
    hide DecodeOne, Hton, FromLe;
    if |p| < 4 { return Overrun; }
    var nmemb := Hton(FromLe(p[..4]), 4);
    var offset, i, list := 4, 0, [];
    assert DecodeReply(p) == After(list, DecodeFrom(p, offset, nmemb));
    while i < nmemb
      invariant 0 <= i <= nmemb
      invariant DecodeReply(p) == After(list, DecodeFrom(p, offset, nmemb - i))
    {
      var one := DecodeOne(p, offset);
      if !one.Listing? { return one; }
      AfterStep(list, one, DecodeFrom(p, one.offset, nmemb - i - 1));
      list, offset, i := list + one.list, one.offset, i + 1;
    }
    assert list + [] == list;
    r := Listing(list, offset);
  }

  lemma AfterStep(list: seq<Entry>, one: Decoded, more: Decoded)
    requires one.Listing?
    ensures After(list, if more.Listing? then Listing(one.list + more.list, more.offset) else more) ==
            After(list + one.list, more)
  {
  }

  // ---- Round trip ----

  predicate GoodSubject(e: Entry) {
    e.subj != [] && Ascii(e.subj)
  }

  lemma SliceAt(pre: seq<byte>, a: seq<byte>, post: seq<byte>)
    ensures (pre + a + post)[|pre|..|pre| + |a|] == a
    ensures (pre + a + post)[|pre| + |a|..] == post
  {
  }

  lemma SizeBack(v: nat)
    requires v < U32
    ensures Hton(FromLe(Be(v, 4)), 4) == v
  {
    assert v < 0x1_0000_0000;
    hide *;
    Range4();
    HtonLayout(v, 4);
    FromLeOfLe(Hton(v, 4), 4);
  }

  lemma WordsBack(e: Entry)
    requires Sized(e)
    ensures Width(Widths()) == 60
    ensures HtonAll(Widths(), Load(Widths(), NetworkImage(Widths(), Words(e)))) == Words(e)
  {
    hide *;
    WordsFit(e);
    HtonAllLayout(Widths(), Words(e));
    LoadOfImage(Widths(), HtonAll(Widths(), Words(e)));
  }

  /** Where the parts of one encoded entry lie. */
  lemma EncodedParts(pre: seq<byte>, e: Entry, post: seq<byte>)
    requires Sized(e)
    ensures var p, o := pre + EncodeOne(e) + post, |pre|;
            var rest := o + HEAD + USERNAME_MAX;
            && Width(Widths()) == 60
            && |EncodeOne(e)| == HEAD + USERNAME_MAX + 4 + |e.subj| + 1
            && p[o..o + 60] == NetworkImage(Widths(), Words(e))
            && p[o + 60..o + HEAD] == e.outdata
            && p[o + HEAD..rest] == e.username
            && p[rest..rest + 4] == Be(|e.subj|, 4)
            && p[rest + 4..] == e.subj + [0] + post
  {
    hide NetworkImage, Be, Widths, Words, Width;
    WidthsSum();
    var h, s := NetworkImage(Widths(), Words(e)), Be(|e.subj|, 4);
    var p := pre + EncodeOne(e) + post;
    var tail := e.subj + [0] + post;
    assert p == pre + h + (e.outdata + e.username + s + tail);
    SliceAt(pre, h, e.outdata + e.username + s + tail);
    assert p == (pre + h) + e.outdata + (e.username + s + tail);
    SliceAt(pre + h, e.outdata, e.username + s + tail);
    assert p == (pre + h + e.outdata) + e.username + (s + tail);
    SliceAt(pre + h + e.outdata, e.username, s + tail);
    assert p == (pre + h + e.outdata + e.username) + s + tail;
    SliceAt(pre + h + e.outdata + e.username, s, tail);
  }

  /** Decoding one entry where the encoder put it. */
  lemma DecodeOneBack(pre: seq<byte>, e: Entry, post: seq<byte>)
    requires Sized(e)
    ensures var r := DecodeOne(pre + EncodeOne(e) + post, |pre|);
            var end := |pre| + |EncodeOne(e)|;
            && (GoodSubject(e) ==> r == Listing([Shown(e)], end))
            && (!Ascii(e.subj) ==> r.BadSubject?)
            && (e.subj == [] ==> r == Listing([Shown(e).(subj := [0])], end + 1))
  {
    hide EncodeOne, NetworkImage, Be, Hton, FromLe, HtonAll, Load, Words, Widths, FromWords, Width, Zeros;
    EncodedParts(pre, e, post);
    WordsBack(e);
    SizeBack(|e.subj|);
    FromWordsOfWords(e);
    var avail := e.subj + [0] + post;
    if e.subj == [] {
      assert avail == [0] + post;
      assert avail[..1] == [0];
      FromWordsSubject(e, [0]);
    } else {
      assert avail[..|e.subj|] == e.subj;
    }
  }

  lemma FromWordsSubject(e: Entry, s: seq<byte>)
    ensures FromWords(Words(e), e.outdata, e.username, s) ==
            FromWords(Words(e), e.outdata, e.username, e.subj).(subj := s)
  {
  }

  function ShownAll(es: seq<Entry>): (r: seq<Entry>)
    ensures |r| == |es|
  {
    if es == [] then [] else [Shown(es[0])] + ShownAll(es[1..])
  }

  lemma {:induction false} EncodeAllCons(e: Entry, es: seq<Entry>)
    ensures EncodeAll([e] + es) == EncodeOne(e) + EncodeAll(es)
    decreases |es|
  {
    hide EncodeOne;
    if es == [] {
      assert [e] + es == [e] && [e][..0] == [];
      assert EncodeAll([e]) == EncodeAll([e][..0]) + EncodeOne(e);
    } else {
      var n := |es| - 1;
      EncodeAllCons(e, es[..n]);
      assert ([e] + es)[..n + 1] == [e] + es[..n] && ([e] + es)[n + 1] == es[n];
      var a, b, c := EncodeOne(e), EncodeAll(es[..n]), EncodeOne(es[n]);
      assert a + b + c == a + (b + c);
    }
  }

  /** A list comes back, in order and with all of its bytes consumed, exactly when every subject is good. */
  lemma {:induction false} DecodeAllIff(pre: seq<byte>, es: seq<Entry>)
    requires forall e :: e in es ==> Sized(e)
    ensures DecodeFrom(pre + EncodeAll(es), |pre|, |es|) == Listing(ShownAll(es), |pre| + |EncodeAll(es)|) <==>
            forall e :: e in es ==> GoodSubject(e)
    decreases |es|
  {
    hide Sized, EncodeOne, DecodeOne, Shown, Ascii, EncodeAll;
    if es == [] {
      EmptyEncoding();
      assert pre + [] == pre;
    } else {
      var e, rest := es[0], es[1..];
      assert es == [e] + rest;
      EncodeAllCons(e, rest);
      var mid, tail := pre + EncodeOne(e), EncodeAll(rest);
      assert pre + EncodeAll(es) == mid + tail;
      DecodeOneBack(pre, e, tail);
      DecodeAllIff(mid, rest);
      assert (forall x :: x in es ==> GoodSubject(x)) <==> GoodSubject(e) && forall x :: x in rest ==> GoodSubject(x);
      if GoodSubject(e) {
        GoodStep(pre, es);
      } else if e.subj == [] {
        ShownSubject(e);
        WrongStep(pre + EncodeAll(es), |pre|, es);
      }
    }
  }

  lemma EmptyEncoding()
    ensures EncodeAll([]) == []
  {
  }

  lemma WrongStep(p: seq<byte>, offset: nat, es: seq<Entry>)
    requires es != [] && DecodeOne(p, offset).Listing? && DecodeOne(p, offset).list[0] != Shown(es[0])
    ensures forall end :: DecodeFrom(p, offset, |es|) != Listing(ShownAll(es), end)
  {
    hide DecodeOne, Shown;
    var all := DecodeFrom(p, offset, |es|);
    if all.Listing? {
      assert all.list[0] == DecodeOne(p, offset).list[0];
      assert ShownAll(es)[0] == Shown(es[0]);
    }
  }

  lemma ShownSubject(e: Entry)
    ensures Shown(e).subj == e.subj
  {
  }

  lemma GoodStep(pre: seq<byte>, es: seq<Entry>)
    requires es != []
    requires var p := pre + EncodeAll(es);
             DecodeOne(p, |pre|) == Listing([Shown(es[0])], |pre| + |EncodeOne(es[0])|)
    ensures var p := pre + EncodeAll(es);
            var mid := |pre| + |EncodeOne(es[0])|;
            forall end :: DecodeFrom(p, |pre|, |es|) == Listing(ShownAll(es), end) <==>
            DecodeFrom(p, mid, |es| - 1) == Listing(ShownAll(es[1..]), end)
  {
    hide EncodeOne, DecodeOne, Shown, EncodeAll;
    var p := pre + EncodeAll(es);
    var mid := |pre| + |EncodeOne(es[0])|;
    var more := DecodeFrom(p, mid, |es| - 1);
    var all := DecodeFrom(p, |pre|, |es|);
    if more.Listing? {
      assert all.list == [Shown(es[0])] + more.list;
      assert all.list[1..] == more.list && ShownAll(es)[1..] == ShownAll(es[1..]);
    }
  }

  /**
   * The client recovers every transmitted field of every entry in order, and consumes exactly the encoded
   * bytes, if and only if every subject is a non-empty ASCII text.
   */
  lemma ReplyRoundTrip(es: seq<Entry>)
    requires |es| < U32 && forall e :: e in es ==> Sized(e)
    ensures DecodeReply(Reply(es)) == Listing(ShownAll(es), |Reply(es)|) <==> forall e :: e in es ==> GoodSubject(e)
  {
    hide Sized, EncodeAll, DecodeFrom, ShownAll, GoodSubject, Be, Hton, FromLe;
    var p := Reply(es);
    assert p[..4] == Be(|es|, 4);
    SizeBack(|es|);
    DecodeAllIff(Be(|es|, 4), es);
  }
}
