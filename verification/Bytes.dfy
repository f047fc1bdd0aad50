/** Memory images of unsigned words on a little-endian host, and network byte order. */
module Bytes {
  import opened Arithmetic

  type byte = x: int | 0 <= x < 256

  /** The number of values of a word of w bytes. */
  function Range(w: nat): (n: nat)
    ensures n > 0
  {
    if w == 0 then 1 else 256 * Range(w - 1)
  }

  /** The memory image of a word of w bytes, lowest byte first. */
  function Le(v: nat, w: nat): (s: seq<byte>)
    ensures |s| == w
  {
    if w == 0 then [] else [v % 256] + Le(v / 256, w - 1)
  }

  function FromLe(s: seq<byte>): (v: nat) {
    if s == [] then 0 else s[0] + 256 * FromLe(s[1..])
  }

  /** Network order: highest byte first. */
  function Be(v: nat, w: nat): (s: seq<byte>)
    ensures |s| == w
  {
    if w == 0 then [] else Be(v / 256, w - 1) + [v % 256]
  }

  function Reversed(s: seq<byte>): (r: seq<byte>)
    ensures |r| == |s|
  {
    if s == [] then [] else Reversed(s[1..]) + [s[0]]
  }

  /** htonl(), and htonll() as a whole: the word whose memory image is the reverse. */
  function Hton(v: nat, w: nat): nat {
    FromLe(Reversed(Le(v, w)))
  }

  lemma {:induction false} FromLeRange(s: seq<byte>)
    ensures FromLe(s) < Range(|s|)
    decreases |s|
  {
    if s != [] { FromLeRange(s[1..]); }
  }

  lemma {:induction false} FromLeOfLe(v: nat, w: nat)
    requires v < Range(w)
    ensures FromLe(Le(v, w)) == v
    decreases w
  {
    if w > 0 {
      assert v / 256 < Range(w - 1);
      FromLeOfLe(v / 256, w - 1);
      assert Le(v, w)[1..] == Le(v / 256, w - 1);
    }
  }

  lemma {:induction false} LeOfFromLe(s: seq<byte>)
    ensures Le(FromLe(s), |s|) == s
    decreases |s|
  {
    if s != [] {
      LeOfFromLe(s[1..]);
      Divide(FromLe(s), FromLe(s[1..]), 256, s[0]);
      assert s == [s[0]] + s[1..];
    }
  }

  lemma {:induction false} ReversedAppend(a: seq<byte>, b: seq<byte>)
    ensures Reversed(a + b) == Reversed(b) + Reversed(a)
    decreases |a|
  {
    if a == [] {
      assert a + b == b;
    } else {
      ReversedAppend(a[1..], b);
      assert (a + b)[1..] == a[1..] + b;
    }
  }

  lemma {:induction false} ReversedTwice(s: seq<byte>)
    ensures Reversed(Reversed(s)) == s
    decreases |s|
  {
    if s != [] {
      ReversedTwice(s[1..]);
      ReversedAppend(Reversed(s[1..]), [s[0]]);
      assert Reversed([s[0]]) == [s[0]];
      assert s == [s[0]] + s[1..];
    }
  }

  lemma {:induction false} ReversedLe(v: nat, w: nat)
    ensures Reversed(Le(v, w)) == Be(v, w)
    decreases w
  {
    if w > 0 {
      ReversedLe(v / 256, w - 1);
      assert Le(v, w)[1..] == Le(v / 256, w - 1);
    }
  }

  /** Converting to network order lays the word out highest byte first, and converting twice gives it back. */
  lemma HtonLayout(v: nat, w: nat)
    requires v < Range(w)
    ensures Hton(v, w) < Range(w)
    ensures Le(Hton(v, w), w) == Be(v, w)
    ensures Hton(Hton(v, w), w) == v
  {
    hide *;
    var r := Reversed(Le(v, w));
    HtonIs(v, w);
    HtonIs(Hton(v, w), w);
    FromLeRange(r);
    LeOfFromLe(r);
    ReversedLe(v, w);
    ReversedTwice(Le(v, w));
    FromLeOfLe(v, w);
  }

  lemma HtonIs(v: nat, w: nat)
    ensures Hton(v, w) == FromLe(Reversed(Le(v, w)))
  {
  }

  lemma {:induction false} LeSplit(lo: nat, hi: nat, a: nat, b: nat)
    requires lo < Range(a)
    ensures Le(lo + Range(a) * hi, a + b) == Le(lo, a) + Le(hi, b)
    decreases a
  {
    if a > 0 {
      var v := lo + Range(a) * hi;
      var q := lo / 256 + Range(a - 1) * hi;
      MulAssoc(256, Range(a - 1), hi);
      Divide(v, q, 256, lo % 256);
      LeSplit(lo / 256, hi, a - 1, b);
      assert a + b - 1 == a - 1 + b;
    }
  }

  lemma MulAssoc(x: int, y: int, z: int)
    ensures (x * y) * z == x * (y * z)
  {
  }

  lemma {:induction false} FromLeAppend(a: seq<byte>, b: seq<byte>)
    ensures FromLe(a + b) == FromLe(a) + Range(|a|) * FromLe(b)
    decreases |a|
  {
    if a == [] {
      assert a + b == b;
    } else {
      FromLeAppend(a[1..], b);
      assert (a + b)[1..] == a[1..] + b;
      MulAssoc(256, Range(|a| - 1), FromLe(b));
    }
  }

  lemma Range4()
    ensures Range(4) == 0x1_0000_0000 && Range(8) == 0x1_0000_0000_0000_0000
  {
  }

  /** htonll(): the two halves of the word, each converted, change places. */
  method Htonll(v: nat) returns (r: nat)
    requires v < Range(8)
    ensures r == Hton(v, 8) && r < Range(8)
  {
    hide *;
    Range4();
    var ptr := new nat[2];
    ptr[0], ptr[1] := v % 0x1_0000_0000, v / 0x1_0000_0000;
    var lo := Hton(ptr[1], 4);
    var hi := Hton(ptr[0], 4);
    HtonHalves(ptr[0], ptr[1]);
    ptr[0] := lo;
    ptr[1] := hi;
    r := ptr[0] + 0x1_0000_0000 * ptr[1];
    HtonLayout(v, 8);
  }

  lemma HtonHalves(low: nat, high: nat)
    requires low < 0x1_0000_0000 && high < 0x1_0000_0000
    ensures Hton(low + 0x1_0000_0000 * high, 8) == Hton(high, 4) + 0x1_0000_0000 * Hton(low, 4)
  {
    hide *;
    Range4();
    LeSplit(low, high, 4, 4);
    ReversedAppend(Le(low, 4), Le(high, 4));
    FromLeAppend(Reversed(Le(high, 4)), Reversed(Le(low, 4)));
    HtonIs(low + 0x1_0000_0000 * high, 8);
    HtonIs(low, 4);
    HtonIs(high, 4);
  }

  // ---- Records of words ----

  predicate Fits(ws: seq<nat>, vs: seq<nat>) {
    |ws| == |vs| && forall i :: 0 <= i < |ws| ==> vs[i] < Range(ws[i])
  }

  function Width(ws: seq<nat>): nat {
    if ws == [] then 0 else ws[0] + Width(ws[1..])
  }

  /** The memory image of a packed record of words. */
  function Image(ws: seq<nat>, vs: seq<nat>): (s: seq<byte>)
    requires |ws| == |vs|
    ensures |s| == Width(ws)
  {
    if ws == [] then [] else Le(vs[0], ws[0]) + Image(ws[1..], vs[1..])
  }

  function Load(ws: seq<nat>, s: seq<byte>): (vs: seq<nat>)
    requires |s| == Width(ws)
    ensures |vs| == |ws|
  {
    if ws == [] then [] else [FromLe(s[..ws[0]])] + Load(ws[1..], s[ws[0]..])
  }

  /** The record converted field by field. */
  function HtonAll(ws: seq<nat>, vs: seq<nat>): (r: seq<nat>)
    requires |ws| == |vs|
    ensures |r| == |vs|
  {
    if ws == [] then [] else [Hton(vs[0], ws[0])] + HtonAll(ws[1..], vs[1..])
  }

  function NetworkImage(ws: seq<nat>, vs: seq<nat>): (s: seq<byte>)
    requires |ws| == |vs|
    ensures |s| == Width(ws)
  {
    if ws == [] then [] else Be(vs[0], ws[0]) + NetworkImage(ws[1..], vs[1..])
  }

  lemma {:induction false} LoadOfImage(ws: seq<nat>, vs: seq<nat>)
    requires Fits(ws, vs)
    ensures Load(ws, Image(ws, vs)) == vs
    decreases |ws|
  {
    hide Range, Le, FromLe;
    if ws != [] {
      FromLeOfLe(vs[0], ws[0]);
      FitsTail(ws, vs);
      LoadOfImage(ws[1..], vs[1..]);
      var s := Image(ws, vs);
      assert s[..ws[0]] == Le(vs[0], ws[0]) && s[ws[0]..] == Image(ws[1..], vs[1..]);
      assert vs == [vs[0]] + vs[1..];
    }
  }

  lemma {:induction false} LoadFits(ws: seq<nat>, s: seq<byte>)
    requires |s| == Width(ws)
    ensures Fits(ws, Load(ws, s)) && Image(ws, Load(ws, s)) == s
    decreases |ws|
  {
    hide Range, Le, FromLe;
    if ws != [] {
      FromLeRange(s[..ws[0]]);
      LeOfFromLe(s[..ws[0]]);
      LoadFits(ws[1..], s[ws[0]..]);
      var vs := Load(ws, s);
      assert vs[1..] == Load(ws[1..], s[ws[0]..]);
      assert s == s[..ws[0]] + s[ws[0]..];
    }
  }

  lemma FitsTail(ws: seq<nat>, vs: seq<nat>)
    requires Fits(ws, vs) && ws != []
    ensures vs[0] < Range(ws[0]) && Fits(ws[1..], vs[1..])
  {
  }

  /** Converting every field and copying the record out gives its network image; converting back gives the record. */
  lemma {:induction false} HtonAllLayout(ws: seq<nat>, vs: seq<nat>)
    requires Fits(ws, vs)
    ensures Fits(ws, HtonAll(ws, vs))
    ensures Image(ws, HtonAll(ws, vs)) == NetworkImage(ws, vs)
    ensures HtonAll(ws, HtonAll(ws, vs)) == vs
    decreases |ws|
  {
    hide Range, Le, FromLe, Be, Hton;
    if ws != [] {
      FitsTail(ws, vs);
      HtonLayout(vs[0], ws[0]);
      HtonAllLayout(ws[1..], vs[1..]);
      var r := HtonAll(ws, vs);
      assert r[1..] == HtonAll(ws[1..], vs[1..]);
      assert vs == [vs[0]] + vs[1..];
    }
  }

  // ---- Flag words ----

  /** A 32-bit flag word from its set of bit numbers, from bit i up. */
  function WordFrom(bits: set<nat>, i: nat): nat
    requires i <= 32
    decreases 32 - i
  {
    if i == 32 then 0 else (if i in bits then 1 else 0) + 2 * WordFrom(bits, i + 1)
  }

  function BitsFrom(w: nat, i: nat): (bits: set<nat>)
    requires i <= 32
    ensures forall b :: b in bits ==> i <= b < 32
    decreases 32 - i
  {
    if i == 32 then {} else (if w % 2 == 1 then {i} else {}) + BitsFrom(w / 2, i + 1)
  }

  lemma {:induction false} BitsOfWord(bits: set<nat>, i: nat, b: nat)
    requires i <= 32
    ensures b in BitsFrom(WordFrom(bits, i), i) <==> i <= b < 32 && b in bits
    decreases 32 - i
  {
    if i < 32 {
      var rest := WordFrom(bits, i + 1);
      assert (2 * rest) / 2 == rest && (1 + 2 * rest) / 2 == rest;
      BitsOfWord(bits, i + 1, b);
    }
  }

  /** A set of bit numbers survives the trip through its word. */
  lemma FlagsRoundTrip(bits: set<nat>)
    requires forall b :: b in bits ==> b < 32
    ensures BitsFrom(WordFrom(bits, 0), 0) == bits
  {
    hide BitsFrom, WordFrom;
    forall b: nat ensures b in BitsFrom(WordFrom(bits, 0), 0) <==> b in bits {
      BitsOfWord(bits, 0, b);
    }
  }

  function Power2(n: nat): nat {
    if n == 0 then 1 else 2 * Power2(n - 1)
  }

  lemma {:induction false} WordRange(bits: set<nat>, i: nat)
    requires i <= 32
    ensures WordFrom(bits, i) < Power2(32 - i)
    decreases 32 - i
  {
    if i < 32 { WordRange(bits, i + 1); }
  }

  lemma WordFits(bits: set<nat>)
    ensures WordFrom(bits, 0) < Range(4)
  {
    hide WordFrom, Range;
    WordRange(bits, 0);
    Power2Of32();
    Range4();
  }

  lemma Power2Of32()
    ensures Power2(32) == 0x1_0000_0000
  {
    assert Power2(4) == 16;
    hide Power2;
    Power2Double(4);
    Power2Double(8);
    Power2Double(16);
  }

  lemma {:induction false} Power2Add(m: nat, n: nat)
    ensures Power2(m + n) == Power2(m) * Power2(n)
    decreases m
  {
    if m > 0 {
      Power2Add(m - 1, n);
      MulAssoc(2, Power2(m - 1), Power2(n));
    }
  }

  lemma Power2Double(n: nat)
    ensures Power2(2 * n) == Power2(n) * Power2(n)
  {
    Power2Add(n, n);
  }
}
