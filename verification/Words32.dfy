/** 32-bit words and their bits. */
module Words32 {
  /** The width of int, and of unsigned long on a 32-bit machine. */
  const WIDTH := 32

  /** The k-th power of two. */
  function Mask(k: nat): bv32 {
    if k == 0 then 1 else Mask(k - 1) + Mask(k - 1)
  }

  function And(a: bv32, b: bv32): bv32 {
    a & b
  }

  predicate Has(w: bv32, m: bv32) {
    And(w, m) != 0
  }

  predicate Bit(w: bv32, k: nat) {
    Has(w, Mask(k))
  }

  lemma {:induction false} ShiftIsMask(k: nat)
    requires k < WIDTH
    ensures 1 << k == Mask(k)
  {
    if k > 0 {
      ShiftIsMask(k - 1);
    }
  }

  lemma TopOfMask(k: nat)
    requires k < WIDTH - 1
    ensures And(Mask(k), 0x8000_0000) == 0
  {
    ShiftIsMask(k);
  }

  lemma DoubledBits(a: bv32, b: bv32, a2: bv32, b2: bv32)
    requires And(a, 0x8000_0000) == 0 && a2 == a + a && b2 == b + b
    ensures Has(a2, b2) <==> Has(a, b)
  {
    assert And(a2, b2) == And(a, b) + And(a, b);
  }

  lemma OneAndDouble(a: bv32, a2: bv32)
    requires a2 == a + a
    ensures !Has(a2, 1) && !Has(1, a2)
  {
  }

  lemma {:induction false} MasksMeet(i: nat, k: nat, a: bv32, b: bv32)
    requires i < WIDTH && k < WIDTH && a == Mask(i) && b == Mask(k)
    ensures Has(a, b) <==> i == k
  {
    if i > 0 && k > 0 {
      MasksMeet(i - 1, k - 1, Mask(i - 1), Mask(k - 1));
      TopOfMask(i - 1);
      DoubledBits(Mask(i - 1), Mask(k - 1), a, b);
    } else if i > 0 {
      OneAndDouble(Mask(i - 1), a);
    } else if k > 0 {
      OneAndDouble(Mask(k - 1), b);
    } else {
      assert a == 1;
    }
  }

  lemma BitOfMask(i: nat, k: nat)
    requires i < WIDTH && k < WIDTH
    ensures Bit(Mask(i), k) <==> i == k
  {
    MasksMeet(i, k, Mask(i), Mask(k));
  }

  method Shift(k: nat) returns (m: bv32)
    requires k < WIDTH
    ensures m == Mask(k)
  {
    ShiftIsMask(k);
    m := 1 << k;
  }

  function Or(a: bv32, b: bv32): bv32 {
    a | b
  }

  lemma HasOr(a: bv32, b: bv32, m: bv32)
    ensures Has(Or(a, b), m) <==> Has(a, m) || Has(b, m)
  {
    assert (a | b) & m == (a & m) | (b & m);
  }

  lemma BitOfOr(a: bv32, b: bv32, k: nat)
    ensures Bit(Or(a, b), k) <==> Bit(a, k) || Bit(b, k)
  {
    HasOr(a, b, Mask(k));
  }

  lemma BitOfZero(k: nat)
    ensures !Bit(0, k)
  {
  }

  predicate PowerOfTwo(m: bv32) {
    m != 0 && m & (m - 1) == 0
  }

  /** a and b are the same below the bit m. */
  predicate SameBelow(a: bv32, b: bv32, m: bv32) {
    a & (m - 1) == b & (m - 1)
  }

  lemma OneBitMore(a: bv32, b: bv32, m: bv32, m2: bv32)
    requires PowerOfTwo(m) && SameBelow(a, b, m) && (Has(a, m) <==> Has(b, m)) && m2 == m + m
    ensures SameBelow(a, b, m2)
  {
  }

  lemma MaskIsPower(k: nat)
    requires k < WIDTH
    ensures PowerOfTwo(Mask(k))
  {
    ShiftIsMask(k);
  }

  lemma {:induction false} SameUpTo(a: bv32, b: bv32, k: nat, m: bv32)
    requires k <= WIDTH && m == Mask(k) && forall j :: 0 <= j < k ==> (Bit(a, j) <==> Bit(b, j))
    ensures SameBelow(a, b, m)
  {
    if k > 0 {
      var half := Mask(k - 1);
      SameUpTo(a, b, k - 1, half);
      MaskIsPower(k - 1);
      assert Bit(a, k - 1) <==> Bit(b, k - 1);
      OneBitMore(a, b, half, m);
    } else {
      assert m == 1;
    }
  }

  lemma MaskRunsOut()
    ensures Mask(WIDTH) == 0
  {
    ShiftIsMask(WIDTH - 1);
  }

  /** A word is its bits. */
  lemma SameBits(a: bv32, b: bv32)
    requires forall j :: 0 <= j < WIDTH ==> (Bit(a, j) <==> Bit(b, j))
    ensures a == b
  {
    MaskRunsOut();
    SameUpTo(a, b, WIDTH, 0);
  }
}
