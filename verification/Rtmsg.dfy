/** Routing messages: rtmsg packs sockaddrs, three kinds of loop unpack them. */
module Rtmsg {
  import opened Words32
  import opened Text

  newtype byte = x: int | 0 <= x < 256

  // ---- ROUNDUP ----

  /** sizeof(long) */
  type LongSize = w: nat | w == 4 || w == 8 witness 4

  /** The bitwise or of two non-negative numbers. */
  function BitOr(a: nat, b: nat): nat
    decreases a + b
  {
    if a == 0 && b == 0 then 0
    else 2 * BitOr(a / 2, b / 2) + if a % 2 == 1 || b % 2 == 1 then 1 else 0
  }

  function Roundup(w: LongSize, a: int): nat {
    if a > 0 then 1 + BitOr(a - 1, w - 1) else w
  }

  lemma {:induction false} OrZero(a: nat)
    ensures BitOr(a, 0) == a
  {
    if a > 0 {
      OrZero(a / 2);
    }
  }

  lemma OrThree(a: nat)
    ensures BitOr(a, 3) == 4 * (a / 2 / 2) + 3
  {
    OrZero(a / 2 / 2);
    assert BitOr(a, 3) == 2 * BitOr(a / 2, 1) + 1;
    assert BitOr(a / 2, 1) == 2 * BitOr(a / 2 / 2, 0) + 1;
  }

  lemma OrSeven(a: nat)
    ensures BitOr(a, 7) == 8 * (a / 2 / 2 / 2) + 7
  {
    OrThree(a / 2);
    assert BitOr(a, 7) == 2 * BitOr(a / 2, 3) + 1;
  }

  lemma RoundupForm(w: LongSize, a: int)
    ensures Roundup(w, a) == if a <= 0 then w
                             else if w == 4 then 4 * ((a - 1) / 2 / 2) + 4
                             else 8 * ((a - 1) / 2 / 2 / 2) + 8
  {
    if a > 0 && w == 4 {
      OrThree(a - 1);
    } else if a > 0 {
      OrSeven(a - 1);
    }
  }

  /** r is the least positive multiple of w that is not below a. */
  ghost predicate LeastMultiple(w: int, r: int, a: int)
    requires w > 0
  {
    r % w == 0 && r > 0 && r >= a && forall m: int :: m % w == 0 && m > 0 && m >= a ==> r <= m
  }

  lemma Halves(x: nat)
    ensures 4 * (x / 2 / 2) <= x < 4 * (x / 2 / 2) + 4
    ensures 8 * (x / 2 / 2 / 2) <= x < 8 * (x / 2 / 2 / 2) + 8
  {
    var h := x / 2;
    var q := h / 2;
    var e := q / 2;
    assert 2 * h <= x < 2 * h + 2 && 2 * q <= h < 2 * q + 2 && 2 * e <= q < 2 * e + 2;
  }

  lemma NextByFour(q: nat, a: int)
    requires 4 * q < a <= 4 * q + 4
    ensures LeastMultiple(4, 4 * q + 4, a)
  {
    forall m: int | m % 4 == 0 && m > 0 && m >= a
      ensures 4 * q + 4 <= m
    {
      var d := m / 4;
      assert m == 4 * d;
    }
  }

  lemma NextByEight(q: nat, a: int)
    requires 8 * q < a <= 8 * q + 8
    ensures LeastMultiple(8, 8 * q + 8, a)
  {
    forall m: int | m % 8 == 0 && m > 0 && m >= a
      ensures 8 * q + 8 <= m
    {
      var d := m / 8;
      assert m == 8 * d;
    }
  }

  /** ROUNDUP is the least positive multiple of the word size that is not below its argument. */
  lemma RoundupIsLeast(w: LongSize, a: int)
    ensures LeastMultiple(w, Roundup(w, a), a)
  {
    RoundupForm(w, a);
    var b := if a > 0 then a else 1;
    Halves(b - 1);
    if w == 4 {
      NextByFour((b - 1) / 2 / 2, b);
    } else {
      NextByEight((b - 1) / 2 / 2 / 2, b);
    }
  }

  // ---- the layout of a message ----

  /** A sockaddr and the memory behind it; its first byte is sa_len. */
  predicate Valid(w: LongSize, sa: seq<byte>) {
    |sa| > 0 && Roundup(w, sa[0] as int) <= |sa|
  }

  function Size(w: LongSize, sa: seq<byte>): nat
    requires |sa| > 0
  {
    Roundup(w, sa[0] as int)
  }

  /** What is laid down for a sockaddr. */
  function Padded(w: LongSize, sa: seq<byte>): seq<byte>
    requires Valid(w, sa)
  {
    sa[..Size(w, sa)]
  }

  /** The sockaddrs of a message, one place for each bit of rtm_addrs. */
  type Addrs = seq<Option<seq<byte>>>

  predicate AllValid(w: LongSize, us: Addrs) {
    forall k :: 0 <= k < |us| && us[k].Some? ==> Valid(w, us[k].value)
  }

  /** Where place k begins. */
  function Offset(w: LongSize, us: Addrs, k: nat): nat
    requires k <= |us| && AllValid(w, us)
  {
    if k == 0 then 0
    else Offset(w, us, k - 1) + if us[k - 1].Some? then Size(w, us[k - 1].value) else 0
  }

  function Packed(w: LongSize, us: Addrs, k: nat): (s: seq<byte>)
    requires k <= |us| && AllValid(w, us)
    ensures |s| == Offset(w, us, k)
  {
    if k == 0 then []
    else Packed(w, us, k - 1) + if us[k - 1].Some? then Padded(w, us[k - 1].value) else []
  }

  /** What a message says of its sockaddrs: each lies at the offset of its place, and the bit of every
      other place is clear. */
  predicate Holds(w: LongSize, space: seq<byte>, addrs: bv32, us: Addrs)
  {
    && AllValid(w, us) && |us| <= WIDTH
    && (forall k :: 0 <= k < |us| ==> (Bit(addrs, k) <==> us[k].Some?))
    && (forall k :: |us| <= k < WIDTH ==> !Bit(addrs, k))
    && (forall k :: 0 <= k < |us| && us[k].Some? ==> LiesAt(w, space, Offset(w, us, k), us[k].value))
  }

  predicate LiesAt(w: LongSize, space: seq<byte>, p: nat, sa: seq<byte>)
    requires Valid(w, sa)
  {
    p + Size(w, sa) <= |space| && space[p..p + Size(w, sa)] == Padded(w, sa)
  }

  lemma {:induction false} OffsetGrows(w: LongSize, us: Addrs, k: nat, n: nat)
    requires k <= n <= |us| && AllValid(w, us)
    ensures Offset(w, us, k) <= Offset(w, us, n)
  {
    if k < n {
      OffsetGrows(w, us, k, n - 1);
    }
  }

  lemma SizePositive(w: LongSize, sa: seq<byte>)
    requires |sa| > 0
    ensures Size(w, sa) > 0
  {
    RoundupForm(w, sa[0] as int);
  }

  lemma {:induction false} PackedPrefix(w: LongSize, us: Addrs, k: nat, n: nat)
    requires k <= n <= |us| && AllValid(w, us)
    ensures Packed(w, us, k) <= Packed(w, us, n)
  {
    if k < n {
      PackedPrefix(w, us, k, n - 1);
    }
  }

  /** What was packed lies at its offset, whatever comes after. */
  lemma PackedLies(w: LongSize, us: Addrs, k: nat, after: seq<byte>)
    requires k < |us| && AllValid(w, us) && us[k].Some?
    ensures LiesAt(w, Packed(w, us, |us|) + after, Offset(w, us, k), us[k].value)
  {
    PackedPrefix(w, us, k + 1, |us|);
    var p, sa, s := Offset(w, us, k), us[k].value, Packed(w, us, |us|) + after;
    assert Packed(w, us, k + 1)[p..] == Padded(w, sa);
    assert s[..p + Size(w, sa)] == Packed(w, us, k + 1);
    assert s[p..p + Size(w, sa)] == s[..p + Size(w, sa)][p..];
  }

  // ---- packing ----

  /** One NEXTADDR: the sockaddr is copied to cp, rounded up. */
  method NextAddr(w: LongSize, space: array<byte>, cp: nat, sa: seq<byte>) returns (next: nat)
    requires Valid(w, sa) && cp + Size(w, sa) <= space.Length
    modifies space
    ensures next == cp + Size(w, sa)
    ensures space[..] == old(space[..cp]) + Padded(w, sa) + old(space[next..])
  {
    var l, i := Size(w, sa), 0;
    while i < l
      invariant i <= l
      invariant forall j :: 0 <= j < i ==> space[cp + j] == sa[j]
      invariant forall k :: 0 <= k < cp || cp + i <= k < space.Length ==> space[k] == old(space[k])
    {
      space[cp + i] := sa[i];
      i := i + 1;
    }
    next := cp + l;
    Copied(old(space[..]), space[..], cp, Padded(w, sa));
  }

  lemma Copied(before: seq<byte>, after: seq<byte>, cp: nat, sa: seq<byte>)
    requires |after| == |before| && cp + |sa| <= |before|
    requires forall j :: 0 <= j < |sa| ==> after[cp + j] == sa[j]
    requires forall k :: 0 <= k < cp || cp + |sa| <= k < |before| ==> after[k] == before[k]
    ensures after == before[..cp] + sa + before[cp + |sa|..]
  {
    assert forall k :: cp <= k < cp + |sa| ==> after[k] == sa[k - cp];
  }

  const RTA_DST: bv32 := 0x1
  const RTA_GATEWAY: bv32 := 0x2
  const RTA_NETMASK: bv32 := 0x4
  const RTA_IFP: bv32 := 0x10

  /** The places of the four sockaddrs; place 3, the generic mask, is never used. */
  const PLACES := 5

  lemma PlacesOfBits()
    ensures Mask(0) == RTA_DST && Mask(1) == RTA_GATEWAY && Mask(2) == RTA_NETMASK && Mask(4) == RTA_IFP
  {
    assert Mask(3) == 8;
  }

  function Chosen(on: bool, sa: seq<byte>): Option<seq<byte>> {
    if on then Some(sa) else None
  }

  /** The sockaddrs rtm_addrs asks for. */
  function Asked(addrs: bv32, dst: seq<byte>, gate: seq<byte>, mask: seq<byte>, ifp: seq<byte>): (us: Addrs)
    ensures |us| == PLACES
  {
    [Chosen(Bit(addrs, 0), dst), Chosen(Bit(addrs, 1), gate), Chosen(Bit(addrs, 2), mask), None,
     Chosen(Bit(addrs, 4), ifp)]
  }

  /** rtm_addrs of the header: a proxy entry that is not exported claims a netmask. */
  function HeaderAddrs(addrs: bv32, proxy: bool, exported: bool): bv32 {
    if proxy && !exported then Or(addrs, RTA_NETMASK) else addrs
  }

  /** How much of the message a sockaddr takes. */
  function Part(w: LongSize, on: bool, sa: seq<byte>): nat
    requires |sa| > 0
  {
    if on then Size(w, sa) else 0
  }

  /** Where the places of the four begin. */
  lemma Offsets(w: LongSize, addrs: bv32, dst: seq<byte>, gate: seq<byte>, mask: seq<byte>, ifp: seq<byte>, us: Addrs)
    requires Valid(w, dst) && Valid(w, gate) && Valid(w, mask) && Valid(w, ifp)
    requires us == Asked(addrs, dst, gate, mask, ifp)
    ensures var d, g, m := Part(w, Bit(addrs, 0), dst), Part(w, Bit(addrs, 1), gate), Part(w, Bit(addrs, 2), mask);
      && Offset(w, us, 0) == 0 && Offset(w, us, 1) == d && Offset(w, us, 2) == d + g
      && Offset(w, us, 3) == Offset(w, us, 4) == d + g + m
      && Offset(w, us, 5) == d + g + m + Part(w, Bit(addrs, 4), ifp)
  {
    assert Offset(w, us, 1) == Part(w, Bit(addrs, 0), dst);
    assert Offset(w, us, 2) == Offset(w, us, 1) + Part(w, Bit(addrs, 1), gate);
    assert Offset(w, us, 3) == Offset(w, us, 2) + Part(w, Bit(addrs, 2), mask);
  }

  /** The sockaddr of a place lies in the message from its offset on. */
  lemma PlaceLies(w: LongSize, us: Addrs, k: nat, space: seq<byte>, sa: seq<byte>, p: nat)
    requires AllValid(w, us) && k < |us| && us[k] == Some(sa) && p == Offset(w, us, k)
    requires Packed(w, us, |us|) <= space
    ensures p + Size(w, sa) <= |space| && space[p..p + Size(w, sa)] == sa[..Size(w, sa)]
  {
    var n := |Packed(w, us, |us|)|;
    PackedLies(w, us, k, space[n..]);
    assert space == Packed(w, us, |us|) + space[n..];
  }

  lemma ChosenLies(w: LongSize, us: Addrs, k: nat, space: seq<byte>, on: bool, sa: seq<byte>, p: nat)
    requires AllValid(w, us) && k < |us| && us[k] == Chosen(on, sa) && p == Offset(w, us, k)
    requires Packed(w, us, |us|) <= space
    ensures on ==> p + Size(w, sa) <= |space| && space[p..p + Size(w, sa)] == sa[..Size(w, sa)]
  {
    if on {
      PlaceLies(w, us, k, space, sa, p);
    }
  }

  /** rtmsg up to the write: the space of the message, zero at first, its header's rtm_addrs and its length. The
      chosen sockaddrs lie one behind the other, destination, gateway, netmask and interface, each rounded up,
      and zeros behind them. */
  method Rtmsg(w: LongSize, space: array<byte>, hdrlen: nat, addrs: bv32, proxy: bool, exported: bool,
               dst: seq<byte>, gate: seq<byte>, mask: seq<byte>, ifp: seq<byte>)
    returns (headerAddrs: bv32, msglen: nat)
    requires Valid(w, dst) && Valid(w, gate) && Valid(w, mask) && Valid(w, ifp)
    requires Offset(w, Asked(addrs, dst, gate, mask, ifp), PLACES) <= space.Length
    modifies space
    ensures headerAddrs == HeaderAddrs(addrs, proxy, exported)
    ensures msglen == hdrlen + Offset(w, Asked(addrs, dst, gate, mask, ifp), PLACES)
    ensures space[..] == Packed(w, Asked(addrs, dst, gate, mask, ifp), PLACES) + Zeros(space.Length - (msglen - hdrlen))
    ensures var d := if Bit(addrs, 0) then Size(w, dst) else 0;
      var g := d + if Bit(addrs, 1) then Size(w, gate) else 0;
      var m := g + if Bit(addrs, 2) then Size(w, mask) else 0;
      var i := m + if Bit(addrs, 4) then Size(w, ifp) else 0;
      && msglen == hdrlen + i && i <= space.Length
      && (Bit(addrs, 0) ==> space[..d] == dst[..Size(w, dst)])
      && (Bit(addrs, 1) ==> space[d..g] == gate[..Size(w, gate)])
      && (Bit(addrs, 2) ==> space[g..m] == mask[..Size(w, mask)])
      && (Bit(addrs, 4) ==> space[m..i] == ifp[..Size(w, ifp)])
      && (forall k :: i <= k < space.Length ==> space[k] == 0)
  {
    headerAddrs := HeaderAddrs(addrs, proxy, exported);
    Clear(space);
    var cp := PackFour(w, space, addrs, dst, gate, mask, ifp, Asked(addrs, dst, gate, mask, ifp));
    msglen := hdrlen + cp;
    ghost var d := Part(w, Bit(addrs, 0), dst);
    ghost var g := d + Part(w, Bit(addrs, 1), gate);
    ghost var m := g + Part(w, Bit(addrs, 2), mask);
    ghost var i := m + Part(w, Bit(addrs, 4), ifp);
    Laid(w, addrs, dst, gate, mask, ifp, Asked(addrs, dst, gate, mask, ifp), space[..], d, g, m, i);
  }

  lemma FirstTwoLie(w: LongSize, us: Addrs, space: seq<byte>, b0: bool, dst: seq<byte>, b1: bool, gate: seq<byte>,
                    d: nat)
    requires AllValid(w, us) && |us| > 1 && us[0] == Chosen(b0, dst) && us[1] == Chosen(b1, gate)
    requires d == Offset(w, us, 1) && Packed(w, us, |us|) <= space
    ensures b0 ==> Size(w, dst) <= |space| && space[0..Size(w, dst)] == dst[..Size(w, dst)]
    ensures b1 ==> d + Size(w, gate) <= |space| && space[d..d + Size(w, gate)] == gate[..Size(w, gate)]
  {
    ChosenLies(w, us, 0, space, b0, dst, 0);
    ChosenLies(w, us, 1, space, b1, gate, d);
  }

  /** A space that begins with the packed sockaddrs, in terms of the sockaddrs themselves: the ends of the four
      are d, g, m and i. */
  lemma Laid(w: LongSize, addrs: bv32, dst: seq<byte>, gate: seq<byte>, mask: seq<byte>, ifp: seq<byte>, us: Addrs,
             space: seq<byte>, d: nat, g: nat, m: nat, i: nat)
    requires Valid(w, dst) && Valid(w, gate) && Valid(w, mask) && Valid(w, ifp)
    requires us == Asked(addrs, dst, gate, mask, ifp) && Packed(w, us, PLACES) <= space
    requires d == Part(w, Bit(addrs, 0), dst) && g == d + Part(w, Bit(addrs, 1), gate)
    requires m == g + Part(w, Bit(addrs, 2), mask) && i == m + Part(w, Bit(addrs, 4), ifp)
    ensures Offset(w, us, PLACES) == i <= |space|
    ensures Bit(addrs, 0) ==> space[0..d] == dst[..Size(w, dst)]
    ensures Bit(addrs, 1) ==> space[d..g] == gate[..Size(w, gate)]
    ensures Bit(addrs, 2) ==> space[g..m] == mask[..Size(w, mask)]
    ensures Bit(addrs, 4) ==> space[m..i] == ifp[..Size(w, ifp)]
  {
    Offsets(w, addrs, dst, gate, mask, ifp, us);
    FirstTwoLie(w, us, space, Bit(addrs, 0), dst, Bit(addrs, 1), gate, d);
    ChosenLies(w, us, 2, space, Bit(addrs, 2), mask, g);
    ChosenLies(w, us, 4, space, Bit(addrs, 4), ifp, m);
  }

  /** The four NEXTADDR steps. */
  method PackFour(w: LongSize, space: array<byte>, addrs: bv32, dst: seq<byte>, gate: seq<byte>, mask: seq<byte>,
                  ifp: seq<byte>, ghost us: Addrs)
    returns (cp: nat)
    requires Valid(w, dst) && Valid(w, gate) && Valid(w, mask) && Valid(w, ifp)
    requires us == Asked(addrs, dst, gate, mask, ifp) && Offset(w, us, PLACES) <= space.Length
    requires space[..] == Zeros(space.Length)
    modifies space
    ensures cp == Offset(w, us, PLACES) && space[..] == Packed(w, us, PLACES) + Zeros(space.Length - cp)
  {
    PlacesOfBits();
    cp := Next(w, space, 0, addrs, RTA_DST, dst, us, 0);
    cp := Next(w, space, cp, addrs, RTA_GATEWAY, gate, us, 1);
    cp := Next(w, space, cp, addrs, RTA_NETMASK, mask, us, 2);
    NothingPacked(w, us, 3);
    cp := Next(w, space, cp, addrs, RTA_IFP, ifp, us, 4);
  }

  lemma NothingPacked(w: LongSize, us: Addrs, k: nat)
    requires k < |us| && AllValid(w, us) && us[k].None?
    ensures Packed(w, us, k + 1) == Packed(w, us, k) && Offset(w, us, k + 1) == Offset(w, us, k)
  {
    assert Packed(w, us, k) + [] == Packed(w, us, k);
  }

  method Clear(space: array<byte>)
    modifies space
    ensures space[..] == Zeros(space.Length)
  {
    forall i | 0 <= i < space.Length {
      space[i] := 0;
    }
  }

  function Zeros(n: nat): (s: seq<byte>)
    ensures |s| == n
  {
    seq(n, i => 0)
  }

  /** The condition and the copy of NEXTADDR. */
  method Next(w: LongSize, space: array<byte>, cp: nat, addrs: bv32, bit: bv32, sa: seq<byte>,
              ghost us: Addrs, ghost k: nat)
    returns (next: nat)
    requires k < |us| && AllValid(w, us) && Valid(w, sa) && us[k] == Chosen(Has(addrs, bit), sa)
    requires cp == Offset(w, us, k) && cp <= space.Length && Offset(w, us, |us|) <= space.Length
    requires space[..] == Packed(w, us, k) + Zeros(space.Length - cp)
    modifies space
    ensures next == Offset(w, us, k + 1) && next <= space.Length
    ensures space[..] == Packed(w, us, k + 1) + Zeros(space.Length - next)
  {
    next := cp;
    OffsetGrows(w, us, k + 1, |us|);
    if Has(addrs, bit) {
      assert space[..cp] == Packed(w, us, k);
      next := NextAddr(w, space, cp, sa);
      assert old(space[next..]) == Zeros(space.Length - next);
    } else {
      assert Packed(w, us, k + 1) == Packed(w, us, k) + [];
    }
  }
}
