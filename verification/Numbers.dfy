/** Numbers as text: strtol() in base 10, and the "%u", "%llu" and "%016llX" conversions. */
module Numbers {
  import opened Limits

  const LONG_MAX := 0x7fff_ffff_ffff_ffff

  predicate IsSpace(c: char) {
    c == ' ' || '\t' <= c <= '\r'
  }

  predicate IsDigit(c: char) {
    '0' <= c <= '9'
  }

  function DigitChar(d: nat): (c: char)
    requires d < 10
    ensures IsDigit(c) && c as int - '0' as int == d
  {
    ('0' as int + d) as char
  }

  function SkipSpaces(s: string, i: nat): (j: nat)
    requires i <= |s|
    ensures i <= j <= |s|
    decreases |s| - i
  {
    if i < |s| && IsSpace(s[i]) then SkipSpaces(s, i + 1) else i
  }

  function DigitsEnd(s: string, i: nat): (j: nat)
    requires i <= |s|
    ensures i <= j <= |s|
    ensures AllDigits(s[i..j])
    decreases |s| - i
  {
    if i < |s| && IsDigit(s[i]) then
      var j := DigitsEnd(s, i + 1);
      assert s[i..j] == [s[i]] + s[i + 1..j];
      j
    else i
  }

  predicate AllDigits(s: string) {
    forall k :: 0 <= k < |s| ==> IsDigit(s[k])
  }

  function DigitsValue(s: string): (v: int)
    requires AllDigits(s)
    ensures v >= 0
  {
    if s == [] then 0 else 10 * DigitsValue(s[..|s| - 1]) + (s[|s| - 1] as int - '0' as int)
  }

  /** What strtol() reports: the value, clamped to a long; the index where it stopped; whether it clamped. */
  datatype Number = Number(val: int, end: nat, range: bool)

  function Strtol(s: string): Number {
    var i := SkipSpaces(s, 0);
    var j := if i < |s| && (s[i] == '-' || s[i] == '+') then i + 1 else i;
    var k := DigitsEnd(s, j);
    if k == j then Number(0, 0, false)
    else
      var v: int := if s[i] == '-' then -DigitsValue(s[j..k]) else DigitsValue(s[j..k]);
      if v > LONG_MAX then Number(LONG_MAX, k, true)
      else if v < -LONG_MAX - 1 then Number(-LONG_MAX - 1, k, true)
      else Number(v, k, false)
  }

  function Decimal(n: nat): (s: string)
    ensures s != [] && AllDigits(s)
  {
    if n < 10 then [DigitChar(n)] else Decimal(n / 10) + [DigitChar(n % 10)]
  }

  lemma DecimalValue(n: nat)
    ensures DigitsValue(Decimal(n)) == n
  {
  }

  lemma {:induction false} DigitsEndAll(s: string, i: nat)
    requires i <= |s| && AllDigits(s[i..])
    ensures DigitsEnd(s, i) == |s|
    decreases |s| - i
  {
    if i < |s| {
      assert IsDigit(s[i..][0]) && s[i + 1..] == s[i..][1..];
      DigitsEndAll(s, i + 1);
    }
  }

  /** strtol() reads back a printed number that fits a long, to its last character. */
  lemma StrtolOfDecimal(n: nat)
    requires n <= LONG_MAX
    ensures Strtol(Decimal(n)) == Number(n, |Decimal(n)|, false)
  {
    var s := Decimal(n);
    assert IsDigit(s[0]);
    assert s[0..] == s;
    DigitsEndAll(s, 0);
    DecimalValue(n);
    assert s[0..|s|] == s;
  }

  /** A text that starts with a letter is no number. */
  lemma StrtolOfWord(s: string)
    requires s != [] && 'A' <= s[0]
    ensures Strtol(s) == Number(0, 0, false)
  {
  }

  // ---- Hexadecimal ----

  function HexDigit(d: nat): (c: char)
    requires d < 16
    ensures '0' <= c <= '9' || 'A' <= c <= 'F'
  {
    if d < 10 then '0' + d as char else 'A' + (d - 10) as char
  }

  function Hex(n: nat, width: nat): (s: string)
    ensures |s| == width
  {
    if width == 0 then [] else Hex(n / 16, width - 1) + [HexDigit(n % 16)]
  }

  predicate IsHex(c: char) {
    '0' <= c <= '9' || 'a' <= c <= 'f' || 'A' <= c <= 'F'
  }

  function HexOf(c: char): (d: int)
    requires IsHex(c)
    ensures 0 <= d < 16
  {
    if c <= '9' then c as int - '0' as int
    else if 'a' <= c then c as int - 'a' as int + 10
    else c as int - 'A' as int + 10
  }

  predicate AllHex(s: string) {
    forall k :: 0 <= k < |s| ==> IsHex(s[k])
  }

  function HexNumber(s: string): (v: int)
    requires AllHex(s)
    ensures v >= 0
  {
    if s == [] then 0 else 16 * HexNumber(s[..|s| - 1]) + HexOf(s[|s| - 1])
  }

  function Power16(n: nat): nat {
    if n == 0 then 1 else 16 * Power16(n - 1)
  }

  lemma Power16Is()
    ensures Power16(16) == U64
  {
    assert Power16(4) == 0x1_0000;
    assert Power16(8) == 0x1_0000_0000;
    assert Power16(12) == 0x1_0000_0000_0000;
  }

  lemma {:induction false} HexDigits(n: nat, width: nat)
    ensures AllHex(Hex(n, width))
    decreases width
  {
    if width > 0 { HexDigits(n / 16, width - 1); }
  }

  /** The digits are those of the number. */
  lemma {:induction false} HexReads(n: nat, width: nat)
    requires n < Power16(width)
    ensures AllHex(Hex(n, width)) && HexNumber(Hex(n, width)) == n
    decreases width
  {
    HexDigits(n, width);
    if width > 0 {
      var s := Hex(n, width);
      assert s[..width - 1] == Hex(n / 16, width - 1);
      HexReads(n / 16, width - 1);
    }
  }
}
