/** IPv4 addresses as text: dotted quads and their parser. */
module Inet {
  import opened Text
  import opened Words32
  import opened Mask4

  // ---- dotted quads ----

  /** The octet of an address in host order, the first one for i = 0. */
  function Octet(x: bv32, i: nat): bv32
    requires i < 4
  {
    if i == 0 then (x >> 24) & 0xff
    else if i == 1 then (x >> 16) & 0xff
    else if i == 2 then (x >> 8) & 0xff
    else x & 0xff
  }

  function Joined(a: bv32, b: bv32, c: bv32, d: bv32): bv32 {
    (a << 24) | (b << 16) | (c << 8) | d
  }

  lemma JoinedOctets(x: bv32)
    ensures Joined(Octet(x, 0), Octet(x, 1), Octet(x, 2), Octet(x, 3)) == x
  {
  }

  function Eight(b: bv32): bv32 {
    b << 8
  }

  lemma DoubleIsShift(x: bv32, y: bv32)
    requires y == x + x
    ensures y == x << 1
  {
  }

  lemma EightShift(h: bv32)
    ensures Eight(h << 1) == Eight(h) << 1
  {
  }

  lemma EightStep(h: bv32, h2: bv32, m: bv32, m2: bv32)
    requires h2 == Eight(h) && m == h + h && m2 == h2 + h2
    ensures m2 == Eight(m)
  {
    DoubleIsShift(h, m);
    DoubleIsShift(h2, m2);
    EightShift(h);
  }

  lemma EightOfOne(k: nat, n: nat, m: bv32, m2: bv32)
    requires k == 0 && n == 8 && m == Mask(k) && m2 == Mask(n)
    ensures m2 == Eight(m)
  {
    assert Mask(2) == 4;
    assert Mask(4) == 16;
    assert Mask(6) == 64;
    assert Mask(8) == 256;
  }

  lemma DoubleMask(k: nat, m: bv32, h: bv32)
    requires k > 0 && m == Mask(k) && h == Mask(k - 1)
    ensures m == h + h
  {
  }

  lemma {:induction false} MaskUp(k: nat, n: nat, m: bv32, m2: bv32)
    requires n == k + 8 && m == Mask(k) && m2 == Mask(n)
    ensures m2 == Eight(m)
  {
    if k == 0 {
      EightOfOne(k, n, m, m2);
    } else {
      var h, h2 := Mask(k - 1), Mask(n - 1);
      MaskUp(k - 1, n - 1, h, h2);
      DoubleMask(k, m, h);
      DoubleMask(n, m2, h2);
      EightStep(h, h2, m, m2);
    }
  }

  function Down(x: bv32): bv32 {
    x >> 8
  }

  lemma OctetsDown(x: bv32)
    ensures Octet(x, 3) == And(x, 0xff) && Octet(x, 2) == And(Down(x), 0xff)
    ensures Octet(x, 1) == And(Down(Down(x)), 0xff) && Octet(x, 0) == And(Down(Down(Down(x))), 0xff)
  {
  }

  lemma LowOctet(x: bv32, b: bv32)
    requires And(b, 0xff) == b
    ensures And(And(x, 0xff), b) == And(x, b)
  {
  }

  lemma DownHas(x: bv32, b: bv32)
    requires And(b, 0xff00_0000) == 0
    ensures And(x, Eight(b)) == Eight(And(Down(x), b))
  {
  }

  lemma EightNonzero(b: bv32)
    requires And(b, 0xff00_0000) == 0
    ensures Eight(b) == 0 <==> b == 0
  {
  }

  lemma DownBit(x: bv32, b: bv32)
    requires And(b, 0xff00_0000) == 0
    ensures Has(Down(x), b) <==> Has(x, Eight(b))
  {
    DownHas(x, b);
    AndBelow(Down(x), b);
    EightNonzero(And(Down(x), b));
  }

  lemma AndBelow(x: bv32, b: bv32)
    requires And(b, 0xff00_0000) == 0
    ensures And(And(x, b), 0xff00_0000) == 0
  {
  }

  lemma LowMask(k: nat, b: bv32)
    requires k < 24 && b == Mask(k)
    ensures And(b, 0xff00_0000) == 0 && (k < 8 ==> And(b, 0xff) == b)
  {
    ShiftIsMask(k);
  }

  /** Bit k of x shifted down is bit k + 8 of x. */
  lemma DownIsBit(x: bv32, k: nat)
    requires k < 24
    ensures Bit(Down(x), k) <==> Bit(x, k + 8)
  {
    LowMask(k, Mask(k));
    MaskUp(k, k + 8, Mask(k), Mask(k + 8));
    DownBit(x, Mask(k));
  }

  lemma LowBit(x: bv32, j: nat)
    requires j < 8
    ensures Bit(And(x, 0xff), j) <==> Bit(x, j)
  {
    LowMask(j, Mask(j));
    LowOctet(x, Mask(j));
  }

  lemma DownTwice(x: bv32, k: nat)
    requires k < 16
    ensures Bit(Down(Down(x)), k) <==> Bit(x, k + 16)
  {
    DownIsBit(Down(x), k);
    DownIsBit(x, k + 8);
  }

  /** The octets of an address, the highest first: bit j of octet i is bit 8 * (3 - i) + j. */
  lemma OctetBits(x: bv32, i: nat, j: nat)
    requires i < 4 && j < 8
    ensures Bit(Octet(x, i), j) <==> Bit(x, 8 * (3 - i) + j)
  {
    OctetsDown(x);
    if i == 3 {
      LowBit(x, j);
    } else if i == 2 {
      LowBit(Down(x), j);
      DownIsBit(x, j);
    } else if i == 1 {
      LowBit(Down(Down(x)), j);
      DownTwice(x, j);
    } else {
      LowBit(Down(Down(Down(x))), j);
      DownTwice(Down(x), j);
      DownIsBit(x, j + 16);
    }
  }

  /** Network order is the octets the other way round. */
  lemma SwappedOctets(x: bv32, i: nat)
    requires i < 4
    ensures Octet(Swap(x), i) == Octet(x, 3 - i)
  {
  }

  /** A number below 256 as a word, from its binary digits. */
  function ToWord(v: nat): bv32 {
    if v == 0 then 0 else if v % 2 == 1 then Odd(ToWord(v / 2)) else Double(ToWord(v / 2))
  }

  lemma {:induction false} WordOfValue(x: bv32, n: nat)
    requires Gone(x, n)
    ensures ToWord(Value(x, n)) == x
  {
    if n > 0 {
      WordOfValue(Half(x), n - 1);
      Rejoined(x);
    }
  }

  lemma {:induction false} ZeroValue(n: nat)
    ensures Value(0, n) == 0
  {
    if n > 0 {
      ZeroValue(n - 1);
    }
  }

  lemma {:induction false} ValueBelow(x: bv32, n: nat, s: nat, h: bv32)
    requires h == HighOnes(s) && And(x, h) == 0
    ensures Value(x, n) < Pow2(s)
  {
    if n > 0 {
      if s == 0 {
        AndAll(x, h);
        ZeroValue(n);
      } else {
        HalfNothing(x, h, HighOnes(s - 1));
        ValueBelow(Half(x), n - 1, s - 1, HighOnes(s - 1));
      }
    }
  }

  lemma EightBits()
    ensures HighOnes(8) == 0xFFFF_FF00 && Pow2(8) == 256
  {
    assert HighOnes(2) == 0xFFFF_FFFC && HighOnes(4) == 0xFFFF_FFF0 && HighOnes(6) == 0xFFFF_FFC0;
    assert Pow2(2) == 4 && Pow2(4) == 16 && Pow2(6) == 64;
  }

  lemma OctetIsByte(x: bv32, i: nat)
    requires i < 4
    ensures And(Octet(x, i), 0xFFFF_FF00) == 0
  {
  }

  /** The octets of an address as numbers. */
  function OctetValue(x: bv32, i: nat): (v: nat)
    requires i < 4
  {
    Number(Octet(x, i))
  }

  lemma OctetBelow(x: bv32, i: nat)
    requires i < 4
    ensures OctetValue(x, i) < 256 && ToWord(OctetValue(x, i)) == Octet(x, i)
  {
    EightBits();
    OctetIsByte(x, i);
    ValueBelow(Octet(x, i), WIDTH, 8, 0xFFFF_FF00);
    AllGoneIn(Octet(x, i));
    WordOfValue(Octet(x, i), WIDTH);
  }

  // ---- inet_ntoa and inet_aton ----

  function OctetTexts(x: bv32): (ws: seq<string>)
    ensures |ws| == 4 && forall i :: 0 <= i < 4 ==> ws[i] == DecimalNat(OctetValue(x, i))
  {
    [DecimalNat(OctetValue(x, 0)), DecimalNat(OctetValue(x, 1)),
     DecimalNat(OctetValue(x, 2)), DecimalNat(OctetValue(x, 3))]
  }

  /** inet_ntoa, for an address in host order. */
  function QuadText(x: bv32): string {
    Join(OctetTexts(x), '.')
  }

  /** A decimal octet as it is written: no leading zero, which would make it octal. */
  predicate IsOctet(t: string) {
    t != "" && AllDigits(t) && (t[0] == '0' ==> |t| == 1) && DigitsValue(t) < 256
  }

  /** What inet_aton makes of a text: an address in network order, or nothing. */
  type Aton = string -> Option<bv32>

  /** All that is asked of it: that it reads a printed address. */
  ghost predicate ReadsQuads(aton: Aton) {
    forall x: bv32 :: aton(QuadText(x)) == Some(Swap(x))
  }

  /** An inet_aton for dotted quads alone. */
  function InetAton(s: string): Option<bv32> {
    var p := Parts(s, '.');
    if |p| == 4 && IsOctet(p[0]) && IsOctet(p[1]) && IsOctet(p[2]) && IsOctet(p[3]) then
      Some(Swap(Joined(ToWord(DigitsValue(p[0])), ToWord(DigitsValue(p[1])),
                       ToWord(DigitsValue(p[2])), ToWord(DigitsValue(p[3])))))
    else None
  }

  lemma {:induction false} NoLeadingZero(n: nat)
    ensures DecimalNat(n)[0] == '0' ==> n == 0
  {
    if n >= 10 {
      NoLeadingZero(n / 10);
    }
  }

  lemma OctetWritten(v: nat)
    requires v < 256
    ensures IsOctet(DecimalNat(v)) && DigitsValue(DecimalNat(v)) == v && '.' !in DecimalNat(v)
  {
    DigitsOfDecimal(v);
    NoLeadingZero(v);
    assert forall i :: 0 <= i < |DecimalNat(v)| ==> IsDigit(DecimalNat(v)[i]);
  }

  lemma OctetTextIs(x: bv32, i: nat)
    requires i < 4
    ensures var t := OctetTexts(x)[i]; IsOctet(t) && '.' !in t && ToWord(DigitsValue(t)) == Octet(x, i)
  {
    OctetBelow(x, i);
    OctetWritten(OctetValue(x, i));
  }

  /** A printed address is read back, and never taken for a bit count. */
  lemma QuadRestored(x: bv32)
    ensures InetAton(QuadText(x)) == Some(Swap(x)) && '.' in QuadText(x)
  {
    var ws := OctetTexts(x);
    OctetTextIs(x, 0);
    OctetTextIs(x, 1);
    OctetTextIs(x, 2);
    OctetTextIs(x, 3);
    PartsOfJoin(ws, '.');
    JoinedOctets(x);
    assert QuadText(x) == ws[0] + (['.'] + Join(ws[1..], '.'));
    assert QuadText(x)[|ws[0]|] == '.';
  }

  /** Reading dotted quads is enough. */
  lemma QuadsRead()
    ensures ReadsQuads(InetAton)
  {
    forall x: bv32 ensures InetAton(QuadText(x)) == Some(Swap(x)) {
      QuadRestored(x);
    }
  }

  predicate DigitsAndDots(s: string) {
    forall i :: 0 <= i < |s| ==> IsDigit(s[i]) || s[i] == '.'
  }

  lemma {:induction false} DottedDigits(ws: seq<string>)
    requires forall i :: 0 <= i < |ws| ==> AllDigits(ws[i])
    ensures DigitsAndDots(Join(ws, '.'))
  {
    if |ws| > 1 {
      DottedDigits(ws[1..]);
    }
  }

  /** The text of an address in network order. */
  function AddrText(addr: bv32): string {
    QuadText(Swap(addr))
  }

  lemma AddrRestored(addr: bv32, aton: Aton)
    requires ReadsQuads(aton)
    ensures aton(AddrText(addr)) == Some(addr)
  {
    SwapBack(addr);
  }

  lemma AddrDigits(addr: bv32)
    ensures '.' in AddrText(addr)
    ensures DigitsAndDots(AddrText(addr)) && AddrText(addr) != ""
  {
    QuadRestored(Swap(addr));
    DottedDigits(OctetTexts(Swap(addr)));
  }
}
