/** IPv6 masks: netname6 takes one apart, prefixlen builds one. */
module Mask6 {
  import opened Text

  /** The bytes of an IPv6 address, and where they begin in a sockaddr_in6. */
  const BYTES := 16
  const ADDR_OFFSET := 8

  type Address = a: seq<bv8> | |a| == BYTES witness seq(BYTES, i => 0)

  // ---- the bits of a byte ----

  /** The j-th bit of a byte, the highest one first. */
  function BitMask(j: nat): bv8 {
    if j == 0 then 0x80 else BitMask(j - 1) / 2
  }

  predicate ByteBit(b: bv8, j: nat) {
    b & BitMask(j) != 0
  }

  /** Bits 0 to n - 1 are ones and the rest are zeros. */
  predicate Leading(b: bv8, n: nat) {
    forall j :: 0 <= j < 8 ==> (ByteBit(b, j) <==> j < n)
  }

  /** The cases of the switch: the bytes that are ones and then zeros. */
  function PrefixOf(b: bv8): (r: Option<nat>)
    ensures r.Some? ==> r.value <= 8
  {
    if b == 0xff then Some(8)
    else if b == 0xfe then Some(7)
    else if b == 0xfc then Some(6)
    else if b == 0xf8 then Some(5)
    else if b == 0xf0 then Some(4)
    else if b == 0xe0 then Some(3)
    else if b == 0xc0 then Some(2)
    else if b == 0x80 then Some(1)
    else if b == 0x00 then Some(0)
    else None
  }

  lemma BitMasks()
    ensures BitMask(0) == 0x80 && BitMask(1) == 0x40 && BitMask(2) == 0x20 && BitMask(3) == 0x10
    ensures BitMask(4) == 0x08 && BitMask(5) == 0x04 && BitMask(6) == 0x02 && BitMask(7) == 0x01
  {
    assert BitMask(1) == 0x40;
    assert BitMask(2) == 0x20;
    assert BitMask(3) == 0x10;
    assert BitMask(4) == 0x08;
    assert BitMask(5) == 0x04;
    assert BitMask(6) == 0x02;
  }

  lemma PrefixIsLeading(b: bv8, n: nat)
    requires n <= 8
    ensures PrefixOf(b) == Some(n) <==> Leading(b, n)
  {
    BitMasks();
    assert Leading(b, n) <==>
      && (ByteBit(b, 0) <==> 0 < n) && (ByteBit(b, 1) <==> 1 < n)
      && (ByteBit(b, 2) <==> 2 < n) && (ByteBit(b, 3) <==> 3 < n)
      && (ByteBit(b, 4) <==> 4 < n) && (ByteBit(b, 5) <==> 5 < n)
      && (ByteBit(b, 6) <==> 6 < n) && (ByteBit(b, 7) <==> 7 < n);
  }

  // ---- netname6 ----

  /** masklen, and whether final and illegal were raised. */
  datatype Progress = Progress(masklen: nat, ended: bool, illegal: bool)

  const START := Progress(0, false, false)

  /** One byte of the mask. */
  function Next(st: Progress, b: bv8): Progress {
    if st.ended && b != 0 then st.(illegal := true)
    else match PrefixOf(b)
      case Some(n) => st.(masklen := st.masklen + n, ended := st.ended || n < 8)
      case None => st.(ended := true, illegal := true)
  }

  function Scan(m: seq<bv8>, i: nat): Progress
    requires i <= |m|
  {
    if i == 0 then START else Next(Scan(m, i - 1), m[i - 1])
  }

  function And(a: bv8, b: bv8): bv8 {
    a & b
  }

  /** A byte of the address under the mask: kept as long as the mask is legal, cleared from then on and
      beyond the mask. */
  function MaskedByte(a: Address, m: seq<bv8>, i: nat): bv8
    requires i < BYTES && |m| <= BYTES
  {
    if i < |m| && !Scan(m, i + 1).illegal then And(a[i], m[i]) else 0
  }

  function Masked(a: Address, m: seq<bv8>): (r: Address)
    requires |m| <= BYTES
    ensures forall i :: 0 <= i < BYTES ==> r[i] == MaskedByte(a, m, i)
  {
    seq(BYTES, i requires 0 <= i < BYTES => MaskedByte(a, m, i))
  }

  /** The bytes of the mask that sin6_len says are there. */
  function Present(memory: Address, sin6Len: nat): (m: seq<bv8>)
    ensures |m| <= BYTES && m <= memory
    ensures |m| == if sin6Len <= 8 then 0 else if sin6Len <= 24 then sin6Len - 8 else 16
  {
    var lim := sin6Len - ADDR_OFFSET;
    memory[..if lim < 0 then 0 else if lim < BYTES then lim else BYTES]
  }

  /** The loop of netname6 over the bytes of the mask, on a copy of the address. */
  method MaskLoop(sa6: Address, m: seq<bv8>, addr: array<bv8>) returns (masklen: nat, illegal: nat)
    requires |m| <= BYTES && addr[..] == sa6
    modifies addr
    ensures masklen == Scan(m, |m|).masklen && (illegal > 0 <==> Scan(m, |m|).illegal)
    ensures forall k :: 0 <= k < |m| ==> addr[k] == MaskedByte(sa6, m, k)
  {
    masklen, illegal := 0, 0;
    var final: nat, i := 0, 0;
    while i < |m|
      invariant i <= |m| && Scan(m, i) == Progress(masklen, final > 0, illegal > 0)
      invariant forall k :: 0 <= k < i ==> addr[k] == MaskedByte(sa6, m, k)
      invariant forall k :: i <= k < BYTES ==> addr[k] == sa6[k]
    {
      var p := m[i];
      assert Scan(m, i + 1) == Next(Scan(m, i), p);
      if final > 0 && p != 0 {
        illegal := illegal + 1;
        addr[i] := 0;
      } else {
        masklen, final, illegal := Switch(p, masklen, final, illegal);
        addr[i] := if illegal == 0 then And(addr[i], p) else 0;
      }
      i := i + 1;
    }
  }

  /** netname6 on the mask in a sockaddr_in6, up to the printing. */
  method Netname6(sa6: Address, memory: Address, sin6Len: nat) returns (addr: array<bv8>, masklen: nat, illegal: nat)
    ensures fresh(addr) && addr.Length == BYTES
    ensures var m := Present(memory, sin6Len);
      addr[..] == Masked(sa6, m) && masklen == Scan(m, |m|).masklen && (illegal > 0 <==> Scan(m, |m|).illegal)
  {
    addr := new bv8[BYTES](i requires 0 <= i < BYTES => sa6[i]);
    var m := Present(memory, sin6Len);
    assert addr[..] == sa6;
    masklen, illegal := MaskLoop(sa6, m, addr);
    var i := |m|;
    while i < BYTES
      invariant |m| <= i <= BYTES
      invariant forall k :: 0 <= k < i ==> addr[k] == MaskedByte(sa6, m, k)
    {
      addr[i] := 0;
      i := i + 1;
    }
  }

  /** The switch. */
  method Switch(p: bv8, masklen: nat, final: nat, illegal: nat) returns (len: nat, ended: nat, wrong: nat)
    requires final == 0 || p == 0
    ensures Progress(len, ended > 0, wrong > 0) == Next(Progress(masklen, final > 0, illegal > 0), p)
  {
    len, ended, wrong := masklen, final, illegal;
    match PrefixOf(p)
    case Some(n) =>
      len := len + n;
      if n < 8 {
        ended := ended + 1;
      }
    case None =>
      ended, wrong := ended + 1, wrong + 1;
  }

  // ---- which masks are legal ----

  /** The first i bytes of m are n ones and then zeros. */
  predicate OnesUpTo(m: seq<bv8>, i: nat, n: nat)
    requires i <= |m|
  {
    n <= 8 * i && forall p, j :: 0 <= p < i && 0 <= j < 8 ==> (ByteBit(m[p], j) <==> 8 * p + j < n)
  }

  /** How many of the ones of a whole mask are in its first 8 * i bits. */
  function Within(n: nat, i: nat): nat {
    if n < 8 * i then n else 8 * i
  }

  lemma OnesStep(m: seq<bv8>, i: nat, n: nat)
    requires i < |m| && n <= 8 * (i + 1)
    ensures OnesUpTo(m, i + 1, n) <==> OnesUpTo(m, i, Within(n, i)) && Leading(m[i], n - Within(n, i))
  {
    if OnesUpTo(m, i + 1, n) {
      assert forall j :: 0 <= j < 8 ==> (ByteBit(m[i], j) <==> 8 * i + j < n);
    }
    if OnesUpTo(m, i, Within(n, i)) && Leading(m[i], n - Within(n, i)) {
      assert forall j :: 0 <= j < 8 ==> (ByteBit(m[i], j) <==> 8 * i + j < n);
    }
  }

  /** As long as the scan is legal it has read masklen ones and then zeros. */
  lemma {:induction false} ScanLegal(m: seq<bv8>, i: nat)
    requires i <= |m| && !Scan(m, i).illegal
    ensures var st := Scan(m, i); OnesUpTo(m, i, st.masklen) && (st.ended <==> st.masklen < 8 * i)
  {
    if i > 0 {
      var before, st := Scan(m, i - 1), Scan(m, i);
      assert st == Next(before, m[i - 1]);
      ScanLegal(m, i - 1);
      var n := PrefixOf(m[i - 1]).value;
      PrefixIsLeading(m[i - 1], n);
      assert before.ended ==> n == 0;
      OnesStep(m, i - 1, st.masklen);
    }
  }

  lemma {:induction false} OnesUnique(m: seq<bv8>, i: nat, n: nat, k: nat)
    requires i <= |m| && OnesUpTo(m, i, n) && OnesUpTo(m, i, k)
    ensures n == k
  {
    if n < 8 * i {
      var b := ByteBit(m[n / 8], n % 8);
    }
    if k < 8 * i {
      var b := ByteBit(m[k / 8], k % 8);
    }
  }

  /** A mask of ones and then zeros is scanned without fault. */
  lemma {:induction false} OnesScanned(m: seq<bv8>, i: nat, n: nat)
    requires i <= |m| && OnesUpTo(m, i, n)
    ensures !Scan(m, i).illegal
  {
    if i > 0 {
      var before, b := Scan(m, i - 1), m[i - 1];
      OnesStep(m, i - 1, n);
      OnesScanned(m, i - 1, Within(n, i - 1));
      ScanLegal(m, i - 1);
      OnesUnique(m, i - 1, Within(n, i - 1), before.masklen);
      PrefixIsLeading(b, n - Within(n, i - 1));
      PrefixIsLeading(0, 0);
      if before.ended {
        assert PrefixOf(b) == Some(0);
      }
    }
  }

  /** Zero-extended to the length of an address, the mask is ones and then zeros. */
  ghost predicate Contiguous(m: seq<bv8>)
    requires |m| <= BYTES
  {
    exists n: nat :: OnesUpTo(Extended(m), BYTES, n)
  }

  function Extended(m: seq<bv8>): (r: Address)
    requires |m| <= BYTES
  {
    m + seq(BYTES - |m|, i => 0)
  }

  lemma ZeroBits(j: nat)
    ensures !ByteBit(0, j)
  {
  }

  lemma ExtendedOnes(m: seq<bv8>, n: nat)
    requires |m| <= BYTES
    ensures OnesUpTo(Extended(m), BYTES, n) <==> OnesUpTo(m, |m|, n)
  {
    var r := Extended(m);
    forall j | 0 <= j < 8
      ensures !ByteBit(0, j)
    {
      ZeroBits(j);
    }
    assert forall p :: 0 <= p < |m| ==> r[p] == m[p];
    assert forall p :: |m| <= p < BYTES ==> r[p] == 0;
    if OnesUpTo(r, BYTES, n) && n > 8 * |m| {
      var k := n - 1;
      assert ByteBit(r[k / 8], k % 8) <==> 8 * (k / 8) + k % 8 < n;
      ZeroBits(k % 8);
    }
  }

  /** The number of one bits. */
  function BitsOf(b: bv8, j: nat): nat {
    if j == 0 then 0 else BitsOf(b, j - 1) + if ByteBit(b, j - 1) then 1 else 0
  }

  function OneBits(m: seq<bv8>, i: nat): nat
    requires i <= |m|
  {
    if i == 0 then 0 else OneBits(m, i - 1) + BitsOf(m[i - 1], 8)
  }

  lemma {:induction false} BitsOfLeading(b: bv8, n: nat, j: nat)
    requires n <= 8 && j <= 8 && Leading(b, n)
    ensures BitsOf(b, j) == if j < n then j else n
  {
    if j > 0 {
      BitsOfLeading(b, n, j - 1);
    }
  }

  lemma {:induction false} OneBitsOfOnes(m: seq<bv8>, i: nat, n: nat)
    requires i <= |m| && OnesUpTo(m, i, n)
    ensures OneBits(m, i) == n
  {
    if i > 0 {
      OnesStep(m, i - 1, n);
      OneBitsOfOnes(m, i - 1, Within(n, i - 1));
      BitsOfLeading(m[i - 1], n - Within(n, i - 1), 8);
    }
  }

  lemma {:induction false} LegalBefore(m: seq<bv8>, i: nat, k: nat)
    requires i <= k <= |m| && !Scan(m, k).illegal
    ensures !Scan(m, i).illegal
  {
    if i < k {
      LegalBefore(m, i, k - 1);
    }
  }

  /** netname6 reports no illegal mask exactly when the mask, zero-extended, is ones and then zeros; then
      masklen is the number of its one bits and the address is the bytewise conjunction with it. */
  lemma MaskTaken(a: Address, m: seq<bv8>)
    requires |m| <= BYTES
    ensures !Scan(m, |m|).illegal <==> Contiguous(m)
    ensures Contiguous(m) ==>
      Scan(m, |m|).masklen == OneBits(m, |m|) && OnesUpTo(Extended(m), BYTES, Scan(m, |m|).masklen)
    ensures Contiguous(m) ==> forall i :: 0 <= i < BYTES ==> Masked(a, m)[i] == And(a[i], Extended(m)[i])
  {
    if !Scan(m, |m|).illegal {
      ScanLegal(m, |m|);
      ExtendedOnes(m, Scan(m, |m|).masklen);
    }
    if n: nat :| OnesUpTo(Extended(m), BYTES, n) {
      ExtendedOnes(m, n);
      OnesScanned(m, |m|, n);
      ScanLegal(m, |m|);
      OneBitsOfOnes(m, |m|, Scan(m, |m|).masklen);
      forall i | 0 <= i < BYTES
        ensures Masked(a, m)[i] == And(a[i], Extended(m)[i])
      {
        if i < |m| {
          LegalBefore(m, i + 1, |m|);
        } else {
          assert Extended(m)[i] == 0;
          NothingKept(a[i]);
        }
      }
    }
  }

  lemma NothingKept(b: bv8)
    ensures And(b, 0) == 0
  {
  }

  lemma {:induction false} ScanPrefix(m: seq<bv8>, z: seq<bv8>, i: nat)
    requires i <= |m|
    ensures Scan(m + z, i) == Scan(m, i)
  {
    if i > 0 {
      ScanPrefix(m, z, i - 1);
    }
  }

  lemma ExtendedPrefix(m: seq<bv8>, n: nat)
    requires n <= |m| <= BYTES
    ensures Contiguous(m[..n]) <==> !Scan(m, n).illegal
  {
    assert m[..n] + m[n..] == m;
    ScanPrefix(m[..n], m[n..], n);
    MaskTaken(seq(BYTES, i => 0), m[..n]);
  }

  lemma {:induction false} FullBytes(m: seq<bv8>, k: nat)
    requires k <= |m| && forall j :: 0 <= j < k ==> m[j] == 0xff
    ensures Scan(m, k) == Progress(8 * k, false, false)
  {
    if k > 0 {
      FullBytes(m, k - 1);
    }
  }

  lemma {:induction false} AfterEnd(m: seq<bv8>, i: nat, k: nat)
    requires i <= k <= |m| && Scan(m, i).ended
    ensures Scan(m, k).ended && Scan(m, k).masklen == Scan(m, i).masklen
  {
    if i < k {
      AfterEnd(m, i, k - 1);
      PrefixIsLeading(0, 0);
    }
  }

  /** The length printed for any mask, legal or not: eight for every byte of ones in front, and the leading ones of the
      next byte when it is ones and then zeros. */
  lemma MasklenIs(m: seq<bv8>, k: nat)
    requires k <= |m| && forall j :: 0 <= j < k ==> m[j] == 0xff
    requires k < |m| ==> m[k] != 0xff
    ensures k == |m| ==> Scan(m, |m|).masklen == 8 * k
    ensures forall n: nat :: n <= 8 && k < |m| && Leading(m[k], n) ==> Scan(m, |m|).masklen == 8 * k + n
    ensures k < |m| && (forall n: nat :: n <= 8 ==> !Leading(m[k], n)) ==> Scan(m, |m|).masklen == 8 * k
  {
    FullBytes(m, k);
    if k < |m| {
      forall n: nat | n <= 8 ensures PrefixOf(m[k]) == Some(n) <==> Leading(m[k], n) {
        PrefixIsLeading(m[k], n);
      }
      AfterEnd(m, k + 1, |m|);
    }
  }

  /** Under any mask, a byte of the address is kept under its byte of the mask as long as the mask up to there is ones
      and then zeros, and cleared from the first fault on and beyond the mask. */
  lemma MaskedIs(a: Address, m: seq<bv8>, i: nat)
    requires |m| <= BYTES && i < BYTES
    ensures Masked(a, m)[i] == if i < |m| && Contiguous(m[..i + 1]) then And(a[i], m[i]) else 0
  {
    if i < |m| {
      ExtendedPrefix(m, i + 1);
    }
  }

  // ---- trailing zero bytes ----

  lemma ZeroByte(st: Progress)
    ensures Next(st, 0).masklen == st.masklen && Next(st, 0).illegal == st.illegal
  {
  }

  lemma {:induction false} ScanZeros(m: seq<bv8>, z: seq<bv8>, i: nat)
    requires i <= |z| && forall k :: 0 <= k < |z| ==> z[k] == 0
    ensures Scan(m + z, |m| + i).masklen == Scan(m, |m|).masklen && Scan(m + z, |m| + i).illegal == Scan(m, |m|).illegal
  {
    if i == 0 {
      ScanPrefix(m, z, |m|);
    } else {
      ScanZeros(m, z, i - 1);
      assert (m + z)[|m| + i - 1] == 0;
      ZeroByte(Scan(m + z, |m| + i - 1));
    }
  }

  /** Trailing zero bytes of a mask make no difference: neither to the length, nor to its being legal,
      nor to the masked address. */
  lemma TrailingZerosDropped(a: Address, m: seq<bv8>, z: seq<bv8>)
    requires |m| + |z| <= BYTES && forall k :: 0 <= k < |z| ==> z[k] == 0
    ensures Scan(m + z, |m + z|).masklen == Scan(m, |m|).masklen
    ensures Scan(m + z, |m + z|).illegal == Scan(m, |m|).illegal
    ensures Masked(a, m + z) == Masked(a, m)
  {
    ScanZeros(m, z, |z|);
    forall i | 0 <= i < BYTES
      ensures MaskedByte(a, m + z, i) == MaskedByte(a, m, i)
    {
      if i < |m| {
        ScanPrefix(m, z, i + 1);
      } else if i < |m + z| {
        NothingKept(a[i]);
      }
    }
  }

  // ---- prefixlen ----

  /** (0xff00 >> r) & 0xff */
  function Partial(r: nat): bv8
    requires r < 8
  {
    if r == 0 then 0
    else if r == 1 then Shifted(1) else if r == 2 then Shifted(2) else if r == 3 then Shifted(3)
    else if r == 4 then Shifted(4) else if r == 5 then Shifted(5) else if r == 6 then Shifted(6) else Shifted(7)
  }

  function Shifted(r: bv4): bv8
    requires r < 8
  {
    (((0xff00 as bv16) >> r) & 0xff) as bv8
  }

  lemma PartialIsLeading(r: nat)
    requires r < 8
    ensures Leading(Partial(r), r)
  {
    PrefixIsLeading(Partial(r), r);
  }

  /** The mask of a prefix length. */
  function PrefixMask(len: nat): (m: Address)
    requires len <= 128
    ensures forall i :: 0 <= i < BYTES ==>
      m[i] == if i < len / 8 then 0xff else if i == len / 8 && len % 8 > 0 then Partial(len % 8) else 0
  {
    seq(BYTES, i requires 0 <= i < BYTES =>
      if i < len / 8 then 0xff else if i == len / 8 && len % 8 > 0 then Partial(len % 8) else 0)
  }

  /** prefixlen: the bytes of the mask it leaves in so_mask; nothing is done for a bad length. */
  method Prefixlen(s: string, mask: array<bv8>) returns (len: nat)
    requires mask.Length == BYTES
    modifies mask
    ensures var n := Strtonum(s, 0, 128);
      if n.Some? then len == n.value && mask[..] == PrefixMask(len) else len == 0 && mask[..] == old(mask[..])
  {
    var n := Strtonum(s, 0, 128);
    if n.None? {
      return 0;
    }
    len := n.value;
    var q, r := len / 8, len % 8;
    forall i | 0 <= i < BYTES {
      mask[i] := 0;
    }
    forall i | 0 <= i < q {
      mask[i] := 0xff;
    }
    if r > 0 {
      mask[q] := Partial(r);
    }
  }

  lemma {:induction false} PrefixOnes(len: nat, i: nat)
    requires len <= 128 && i <= BYTES
    ensures OnesUpTo(PrefixMask(len), i, Within(len, i))
  {
    if i > 0 {
      var m, n := PrefixMask(len), Within(len, i);
      PrefixOnes(len, i - 1);
      assert Within(n, i - 1) == Within(len, i - 1);
      PrefixIsLeading(0xff, 8);
      PrefixIsLeading(0, 0);
      PartialIsLeading(len % 8);
      OnesStep(m, i - 1, n);
    }
  }

  /** netname6 reads the length back from the mask prefixlen builds for it, and finds no fault. */
  lemma PrefixRestored(len: nat)
    requires len <= 128
    ensures var st := Scan(PrefixMask(len), BYTES); st.masklen == len && !st.illegal
  {
    var m := PrefixMask(len);
    PrefixOnes(len, BYTES);
    OnesScanned(m, BYTES, len);
    ScanLegal(m, BYTES);
    OnesUnique(m, BYTES, Scan(m, BYTES).masklen, len);
  }
}
