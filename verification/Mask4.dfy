/** IPv4 masks: lengths, coverage, network and broadcast addresses. */
module Mask4 {
  import opened Words32

  // ---- byte order ----

  /** htonl and ntohl on a little-endian machine. */
  function Swap(x: bv32): bv32 {
    ((x & 0xff) << 24) | ((x & 0xff00) << 8) | ((x & 0xff_0000) >> 8) | ((x & 0xff00_0000) >> 24)
  }

  lemma SwapBack(x: bv32)
    ensures Swap(Swap(x)) == x
  {
  }

  // ---- masks and lengths ----

  function Not(a: bv32): bv32 {
    !a
  }

  function Negated(m: bv32): bv32 {
    0 - m
  }

  function Double(x: bv32): bv32 {
    x + x
  }

  /** All bits from bit s up. */
  function HighOnes(s: nat): bv32 {
    if s == 0 then 0xFFFF_FFFF else Double(HighOnes(s - 1))
  }

  lemma NegatedHalf(m: bv32, m2: bv32)
    requires m2 == m + m
    ensures Negated(m2) == Double(Negated(m))
  {
  }

  lemma AllOnesIs(m: bv32)
    requires m == 1
    ensures Negated(m) == 0xFFFF_FFFF
  {
  }

  lemma {:induction false} HighOnesIs(s: nat, h: bv32, m: bv32)
    requires h == HighOnes(s) && m == Mask(s)
    ensures h == Negated(m)
  {
    if s > 0 {
      var half := Mask(s - 1);
      HighOnesIs(s - 1, HighOnes(s - 1), half);
      NegatedHalf(half, m);
    } else {
      AllOnesIs(m);
    }
  }

  /** The mask of a prefix length. */
  function MaskOfLength(len: nat): bv32
    requires len <= WIDTH
  {
    HighOnes(WIDTH - len)
  }

  lemma ShiftedOnes(s: nat)
    requires s < WIDTH
    ensures (0xFFFF_FFFF as bv32) << s == HighOnes(s)
  {
    ShiftIsMask(s);
    HighOnesIs(s, HighOnes(s), Mask(s));
  }

  /** The expression 0xffffffff << (32 - len), for the lengths it is defined at. */
  method ShiftMask(len: nat) returns (m: bv32)
    requires 1 <= len <= WIDTH
    ensures m == MaskOfLength(len)
  {
    ShiftedOnes(WIDTH - len);
    m := (0xFFFF_FFFF as bv32) << (WIDTH - len);
  }

  lemma WithoutBit(m: bv32, h: bv32, k: nat, s: nat)
    requires s < WIDTH && k < WIDTH && PowerOfTwo(m) && m == Mask(s)
    requires h == And(Negated(m), Not(m))
    ensures Bit(h, k) <==> Bit(Negated(m), k) && k != s
  {
    MaskIsPower(k);
    BitsOfRest(Negated(m), m, Mask(k));
    BitOfMask(s, k);
  }

  lemma OneBit(m: bv32, b: bv32)
    requires PowerOfTwo(b)
    ensures And(m, b) == 0 || And(m, b) == b
  {
  }

  lemma RestMasked(w: bv32, m: bv32, b: bv32)
    ensures And(And(w, Not(m)), b) == And(And(w, b), Not(And(m, b)))
  {
  }

  lemma RestOfBit(p: bv32, q: bv32, b: bv32)
    requires (p == 0 || p == b) && (q == 0 || q == b)
    ensures And(p, Not(q)) == if q == 0 then p else 0
  {
  }

  lemma BitsOfRest(w: bv32, m: bv32, b: bv32)
    requires PowerOfTwo(b)
    ensures Has(And(w, Not(m)), b) <==> Has(w, b) && !Has(m, b)
  {
    OneBit(w, b);
    OneBit(m, b);
    RestMasked(w, m, b);
    RestOfBit(And(w, b), And(m, b), b);
  }

  lemma NegatedDouble(m: bv32, m2: bv32)
    requires PowerOfTwo(m) && m2 == m + m
    ensures Negated(m2) == And(Negated(m), Not(m))
  {
  }

  lemma AllOnes(b: bv32)
    requires PowerOfTwo(b)
    ensures Has(0xFFFF_FFFF, b)
  {
  }

  /** Bit k of the mask is set exactly from bit s up. */
  lemma {:induction false} BitOfHighOnes(s: nat, k: nat)
    requires s <= WIDTH && k < WIDTH
    ensures Bit(HighOnes(s), k) <==> k >= s
  {
    MaskIsPower(k);
    if s == 0 {
      AllOnes(Mask(k));
    } else {
      var m := Mask(s - 1);
      BitOfHighOnes(s - 1, k);
      MaskIsPower(s - 1);
      HighOnesIs(s - 1, HighOnes(s - 1), m);
      HighOnesIs(s, HighOnes(s), Mask(s));
      NegatedDouble(m, Mask(s));
      WithoutBit(m, HighOnes(s), k, s - 1);
    }
  }

  /** The first set bit from k up, counted from one; zero when there is none. */
  function FirstSet(m: bv32, k: nat): (n: nat)
    requires k <= WIDTH
    ensures n == 0 || k < n <= WIDTH
    decreases WIDTH - k
  {
    if k == WIDTH then 0 else if Bit(m, k) then k + 1 else FirstSet(m, k + 1)
  }

  function Ffs(m: bv32): (n: nat)
    ensures n <= WIDTH
  {
    FirstSet(m, 0)
  }

  lemma {:induction false} FirstSetIs(m: bv32, k: nat)
    requires k <= WIDTH
    ensures var n := FirstSet(m, k);
      if n == 0 then forall j :: k <= j < WIDTH ==> !Bit(m, j)
      else Bit(m, n - 1) && forall j :: k <= j < n - 1 ==> !Bit(m, j)
    decreases WIDTH - k
  {
    if k < WIDTH && !Bit(m, k) {
      FirstSetIs(m, k + 1);
    }
  }

  lemma NoBits(m: bv32)
    requires forall j :: 0 <= j < WIDTH ==> !Bit(m, j)
    ensures m == 0
  {
    forall j | 0 <= j < WIDTH
      ensures !Bit(0, j)
    {
      BitOfZero(j);
    }
    SameBits(m, 0);
  }

  /** ffs is zero for the zero word only; otherwise it names the lowest bit. */
  lemma FfsIs(m: bv32)
    ensures Ffs(m) == 0 <==> m == 0
    ensures m != 0 ==> Bit(m, Ffs(m) - 1) && forall j :: 0 <= j < Ffs(m) - 1 ==> !Bit(m, j)
  {
    FirstSetIs(m, 0);
    if Ffs(m) == 0 {
      NoBits(m);
    } else {
      BitOfZero(Ffs(m) - 1);
    }
  }

  /** The length printed for a mask and read from one. */
  function LengthOf(m: bv32): (len: nat)
    ensures len <= WIDTH
  {
    FfsIs(m);
    if m == 0 then 0 else 33 - Ffs(m)
  }

  lemma LowestBit(m: bv32, k: nat)
    requires k < WIDTH && Bit(m, k) && forall j :: 0 <= j < k ==> !Bit(m, j)
    ensures LengthOf(m) == WIDTH - k
  {
    BitOfZero(k);
    FfsIs(m);
  }

  /** 33 - ffs inverts the mask of every length, the zero mask of length 0 included. */
  lemma LengthRestored(len: nat)
    requires len <= WIDTH
    ensures LengthOf(MaskOfLength(len)) == len
  {
    var s := WIDTH - len;
    if len == 0 {
      NoMask();
    } else {
      BitOfHighOnes(s, s);
      forall j | 0 <= j < s
        ensures !Bit(HighOnes(s), j)
      {
        BitOfHighOnes(s, j);
      }
      LowestBit(HighOnes(s), s);
    }
  }

  lemma NoMask()
    ensures MaskOfLength(0) == 0
  {
    MaskRunsOut();
    HighOnesIs(WIDTH, HighOnes(WIDTH), 0);
  }

  /** Every bit of m is in h. */
  ghost predicate Within(m: bv32, h: bv32) {
    forall k :: 0 <= k < WIDTH && Bit(m, k) ==> Bit(h, k)
  }

  lemma WithinLength(m: bv32, len: nat)
    requires len <= WIDTH && (m == 0 || LengthOf(m) <= len)
    ensures Within(m, MaskOfLength(len))
  {
    forall k | 0 <= k < WIDTH && Bit(m, k)
      ensures Bit(MaskOfLength(len), k)
    {
      BitOfZero(k);
      FfsIs(m);
      BitOfHighOnes(WIDTH - len, k);
    }
  }

  /** The mask rebuilt from the length of any mask is the smallest contiguous one that holds it. */
  lemma SmallestCover(m: bv32, len: nat)
    requires len <= WIDTH
    ensures Within(m, MaskOfLength(len)) <==> LengthOf(m) <= len
  {
    FfsIs(m);
    if LengthOf(m) <= len {
      WithinLength(m, len);
    } else {
      BitOfHighOnes(WIDTH - len, Ffs(m) - 1);
    }
  }

  /** A mask is restored by its length exactly when it is contiguous. */
  lemma ContiguousRestored(m: bv32)
    ensures MaskOfLength(LengthOf(m)) == m <==> exists len :: 0 <= len <= WIDTH && m == MaskOfLength(len)
  {
    if len :| 0 <= len <= WIDTH && m == MaskOfLength(len) {
      LengthRestored(len);
    }
  }

  // ---- network and broadcast address ----

  /** in4_netaddr: both arguments in network order, the result in host order. */
  function In4Netaddr(addr: bv32, mask: bv32): bv32 {
    And(Swap(addr), Swap(mask))
  }

  /** in4_brdaddr */
  function In4Brdaddr(addr: bv32, mask: bv32): bv32 {
    Or(In4Netaddr(addr, mask), Not(Swap(mask)))
  }

  function Half(x: bv32): bv32 {
    x / 2
  }

  /** The value of the low n bits of x. */
  function Value(x: bv32, n: nat): nat {
    if n == 0 then 0 else 2 * Value(Half(x), n - 1) + if Has(x, 1) then 1 else 0
  }

  /** A word as an unsigned number. */
  function Number(x: bv32): nat {
    Value(x, WIDTH)
  }

  lemma HalfMasked(x: bv32, h: bv32, g: bv32)
    requires h == Double(g)
    ensures And(x, h) == Double(And(Half(x), g))
  {
  }

  predicate TopClear(x: bv32) {
    x & 0x8000_0000 == 0
  }

  lemma HalfTopClear(x: bv32, g: bv32)
    ensures TopClear(Half(x)) && TopClear(And(Half(x), g))
  {
  }

  lemma DoubleInjective(x: bv32, y: bv32)
    requires TopClear(x) && TopClear(y)
    ensures Double(x) == Double(y) <==> x == y
  {
  }

  lemma HalfMask(x: bv32, y: bv32, h: bv32, g: bv32)
    requires h == Double(g)
    ensures And(x, h) == And(y, h) <==> And(Half(x), g) == And(Half(y), g)
  {
    HalfMasked(x, h, g);
    HalfMasked(y, h, g);
    HalfTopClear(x, g);
    HalfTopClear(y, g);
    DoubleInjective(And(Half(x), g), And(Half(y), g));
  }

  function Odd(x: bv32): bv32 {
    x + x + 1
  }

  lemma Rejoined(x: bv32)
    ensures x == if Has(x, 1) then Odd(Half(x)) else Double(Half(x))
  {
  }

  lemma OddIsNotDouble(x: bv32, y: bv32)
    ensures Odd(x) != Double(y)
  {
  }

  /** x is zero once its low n bits are gone. */
  predicate Gone(x: bv32, n: nat) {
    if n == 0 then x == 0 else Gone(Half(x), n - 1)
  }

  lemma HalfNothing(x: bv32, h: bv32, g: bv32)
    requires h == Double(g) && And(x, h) == 0
    ensures And(Half(x), g) == 0
  {
  }

  lemma {:induction false} AllGone(x: bv32, n: nat, h: bv32)
    requires h == HighOnes(n) && And(x, h) == 0
    ensures Gone(x, n)
  {
    if n == 0 {
      AndAll(x, h);
    } else {
      HalfNothing(x, h, HighOnes(n - 1));
      AllGone(Half(x), n - 1, HighOnes(n - 1));
    }
  }

  lemma SameHalf(x: bv32, y: bv32)
    requires Half(x) == Half(y) && (Has(x, 1) <==> Has(y, 1))
    ensures x == y
  {
  }

  lemma {:induction false} SameValue(x: bv32, y: bv32, n: nat)
    requires Value(x, n) == Value(y, n) && Gone(x, n) && Gone(y, n)
    ensures x == y
  {
    if n > 0 {
      SameValue(Half(x), Half(y), n - 1);
      SameHalf(x, y);
    }
  }

  lemma HalfOf(x: bv32, t: bv32)
    requires And(x, t) == x
    ensures And(Half(x), Half(t)) == Half(x) && (Has(x, 1) ==> Has(t, 1))
  {
  }

  /** A word whose bits are all in another is no greater. */
  lemma {:induction false} SubsetValue(x: bv32, t: bv32, n: nat)
    requires And(x, t) == x
    ensures Value(x, n) <= Value(t, n)
  {
    if n > 0 {
      HalfOf(x, t);
      SubsetValue(Half(x), Half(t), n - 1);
    }
  }

  lemma AndNothing(x: bv32)
    ensures And(x, 0) == 0
  {
  }

  lemma AllGoneIn(x: bv32)
    ensures Gone(x, WIDTH)
  {
    NoMask();
    AndNothing(x);
    AllGone(x, WIDTH, 0);
  }

  lemma AndAll(x: bv32, h: bv32)
    requires h == HighOnes(0)
    ensures And(x, h) == x
  {
  }

  /** Between two addresses of one network all addresses are of that network. */
  lemma {:induction false} NetworkIsInterval(lo: bv32, a: bv32, hi: bv32, n: nat, s: nat, h: bv32)
    requires Value(lo, n) <= Value(a, n) <= Value(hi, n) && s <= n && h == HighOnes(s) && And(lo, h) == And(hi, h)
    requires Gone(lo, n) && Gone(a, n) && Gone(hi, n)
    ensures And(a, h) == And(lo, h)
  {
    if s == 0 {
      AndAll(lo, h);
      AndAll(hi, h);
      SameValue(lo, a, n);
    } else {
      var g := HighOnes(s - 1);
      HalfMask(lo, hi, h, g);
      HalfMask(a, lo, h, g);
      NetworkIsInterval(Half(lo), Half(a), Half(hi), n - 1, s - 1, g);
    }
  }

  lemma BetweenBits(a: bv32, h: bv32)
    ensures And(And(a, h), a) == And(a, h)
    ensures And(a, Or(And(a, h), Not(h))) == a
  {
  }

  lemma TopOfNetwork(net: bv32, h: bv32)
    requires And(net, h) == net
    ensures And(Or(net, Not(h)), h) == net
  {
  }

  lemma AndTwice(a: bv32, h: bv32)
    ensures And(And(a, h), h) == And(a, h)
  {
  }

  lemma InNetwork(a: bv32, addr: bv32, net: bv32, s: nat, h: bv32)
    requires s <= WIDTH && h == HighOnes(s) && net == And(addr, h)
    ensures And(a, h) == net <==> Number(net) <= Number(a) <= Number(Or(net, Not(h)))
  {
    var top := Or(net, Not(h));
    BetweenBits(a, h);
    SubsetValue(And(a, h), a, WIDTH);
    SubsetValue(a, Or(And(a, h), Not(h)), WIDTH);
    AndTwice(addr, h);
    TopOfNetwork(net, h);
    AllGoneIn(net);
    AllGoneIn(a);
    AllGoneIn(top);
    if Number(net) <= Number(a) <= Number(top) {
      NetworkIsInterval(net, a, top, WIDTH, s, h);
    }
  }

  /** Under a contiguous mask an address is in the subnet exactly when, as a number, it lies between the
      network address and the broadcast address. */
  lemma InSubnet(a: bv32, addr: bv32, mask: bv32, len: nat)
    requires len <= WIDTH && Swap(mask) == MaskOfLength(len)
    ensures In4Netaddr(a, mask) == In4Netaddr(addr, mask)
       <==> Number(In4Netaddr(addr, mask)) <= Number(Swap(a)) <= Number(In4Brdaddr(addr, mask))
  {
    InNetwork(Swap(a), Swap(addr), In4Netaddr(addr, mask), WIDTH - len, Swap(mask));
  }

  // ---- multiples of a power of two ----

  function Pow2(s: nat): (p: nat)
    ensures p > 0
  {
    if s == 0 then 1 else 2 * Pow2(s - 1)
  }

  lemma HalfNetwork(x: bv32, h: bv32, g: bv32)
    requires h == Double(g)
    ensures And(x, h) == x <==> !Has(x, 1) && And(Half(x), g) == Half(x)
  {
    HalfMasked(x, h, g);
    HalfTopClear(x, g);
    Rejoined(x);
    OddIsNotDouble(Half(x), And(Half(x), g));
    DoubleInjective(And(Half(x), g), Half(x));
  }

  lemma MultipleMod(p: nat, q: nat)
    requires p > 0
    ensures (p * q) % p == 0
  {
    var x := p * q;
    var d := q - x / p;
    assert p * d == x % p;
    assert d >= 1 ==> p * d >= p;
    assert d <= -1 ==> p * d + p <= 0;
  }

  lemma EvenMultiple(v: nat, bit: nat, p: nat)
    requires bit <= 1 && p > 0
    ensures (2 * v + bit) % (2 * p) == 0 <==> bit == 0 && v % p == 0
  {
    if bit == 0 && v % p == 0 {
      var q := v / p;
      assert v == p * q;
      assert 2 * v == (2 * p) * q;
      MultipleMod(2 * p, q);
    }
    if (2 * v + bit) % (2 * p) == 0 {
      var r := (2 * v + bit) / (2 * p);
      assert 2 * v + bit == (2 * p) * r;
      assert (2 * p) * r == 2 * (p * r);
      assert v == p * r;
      MultipleMod(p, r);
    }
  }

  /** An address with no bits below s is a multiple of 2 to the s, as a number. */
  lemma {:induction false} NetworkIsMultiple(x: bv32, n: nat, s: nat, h: bv32)
    requires s <= n && h == HighOnes(s)
    ensures And(x, h) == x <==> Value(x, n) % Pow2(s) == 0
  {
    if s == 0 {
      AndAll(x, h);
    } else {
      var g := HighOnes(s - 1);
      HalfNetwork(x, h, g);
      NetworkIsMultiple(Half(x), n - 1, s - 1, g);
      EvenMultiple(Value(Half(x), n - 1), if Has(x, 1) then 1 else 0, Pow2(s - 1));
    }
  }
}
