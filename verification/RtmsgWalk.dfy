/** The loops that take a routing message apart. */
module RtmsgWalk {
  import opened Words32
  import opened Text
  import opened Rtmsg

  /** The number of places a message can have, from the system headers. */
  const RTAX_MAX := 11
  const AF_INET: byte := 2
  const AF_LINK: byte := 18

  /** The byte at p of a message; nothing is known of the memory behind it, taken as zero. */
  function At(space: seq<byte>, p: nat): byte {
    if p < |space| then space[p] else 0
  }

  /** ADVANCE */
  function Advance(w: LongSize, space: seq<byte>, p: nat): nat {
    p + Roundup(w, At(space, p) as int)
  }

  /** cp after a place with or without a sockaddr. */
  function After(w: LongSize, space: seq<byte>, on: bool, p: nat): nat {
    if on then Advance(w, space, p) else p
  }

  /** Where the sockaddrs of places k to n - 1 are found when place k begins at p. */
  function Walk(w: LongSize, space: seq<byte>, addrs: bv32, k: nat, n: nat, p: nat): (r: seq<Option<nat>>)
    requires k <= n
    ensures |r| == n - k
    decreases n - k
  {
    if k == n then []
    else [if Bit(addrs, k) then Some(p) else None] + Walk(w, space, addrs, k + 1, n, After(w, space, Bit(addrs, k), p))
  }

  /** Where the sockaddrs of us lie. */
  function Places(w: LongSize, us: Addrs, k: nat, n: nat): (r: seq<Option<nat>>)
    requires AllValid(w, us) && k <= n
    ensures |r| == n - k
    ensures forall j :: k <= j < n ==> r[j - k] == if j < |us| && us[j].Some? then Some(Offset(w, us, j)) else None
  {
    seq(n - k, j requires 0 <= j < n - k =>
      if k + j < |us| && us[k + j].Some? then Some(Offset(w, us, k + j)) else None)
  }

  lemma AfterPlace(w: LongSize, space: seq<byte>, addrs: bv32, us: Addrs, k: nat)
    requires Holds(w, space, addrs, us) && k < |us|
    ensures After(w, space, Bit(addrs, k), Offset(w, us, k)) == Offset(w, us, k + 1)
  {
    if us[k].Some? {
      var p, sa := Offset(w, us, k), us[k].value;
      SizePositive(w, sa);
      assert space[p] == space[p..p + Size(w, sa)][0] == Padded(w, sa)[0];
    }
  }

  lemma PlacesFirst(w: LongSize, us: Addrs, k: nat, n: nat)
    requires AllValid(w, us) && k < n
    ensures Places(w, us, k, n)
         == [if k < |us| && us[k].Some? then Some(Offset(w, us, k)) else None] + Places(w, us, k + 1, n)
  {
  }

  /** Where place k begins when the sockaddrs of us lie there. */
  function Begins(w: LongSize, us: Addrs, k: nat): nat
    requires AllValid(w, us)
  {
    Offset(w, us, if k < |us| then k else |us|)
  }

  lemma WalkStep(w: LongSize, space: seq<byte>, addrs: bv32, us: Addrs, k: nat, n: nat, rest: seq<Option<nat>>)
    requires Holds(w, space, addrs, us) && k < n <= WIDTH
    requires rest == Walk(w, space, addrs, k + 1, n, Begins(w, us, k + 1))
    ensures Walk(w, space, addrs, k, n, Begins(w, us, k))
         == [if k < |us| && us[k].Some? then Some(Offset(w, us, k)) else None] + rest
  {
    if k < |us| {
      AfterPlace(w, space, addrs, us, k);
    }
  }

  /** A message that holds the sockaddrs of us is taken apart into exactly those. */
  lemma {:induction false} WalkFinds(w: LongSize, space: seq<byte>, addrs: bv32, us: Addrs, k: nat, n: nat)
    requires Holds(w, space, addrs, us) && k <= n <= WIDTH
    ensures Walk(w, space, addrs, k, n, Begins(w, us, k)) == Places(w, us, k, n)
    decreases n - k
  {
    if k < n {
      WalkFinds(w, space, addrs, us, k + 1, n);
      WalkStep(w, space, addrs, us, k, n, Places(w, us, k + 1, n));
      PlacesFirst(w, us, k, n);
    }
  }

  lemma WalkLater(w: LongSize, space: seq<byte>, addrs: bv32, k: nat, n: nat, p: nat, i: nat)
    requires k < n && 0 < i < n - k
    ensures Walk(w, space, addrs, k, n, p)[i]
         == Walk(w, space, addrs, k + 1, n, After(w, space, Bit(addrs, k), p))[i - 1]
  {
  }

  lemma {:induction false} WalkAt(w: LongSize, space: seq<byte>, addrs: bv32, k: nat, n: nat, p: nat, j: nat)
    requires k <= j < n
    ensures Walk(w, space, addrs, k, n, p)[j - k].Some? <==> Bit(addrs, j)
    decreases n - k
  {
    if k < j {
      WalkLater(w, space, addrs, k, n, p, j - k);
      WalkAt(w, space, addrs, k + 1, n, After(w, space, Bit(addrs, k), p), j);
    }
  }

  // ---- the loops ----

  lemma WalkTail(w: LongSize, space: seq<byte>, addrs: bv32, k: nat, p: nat, r: seq<Option<nat>>)
    requires k < |r| && Walk(w, space, addrs, k, |r|, p) == r[k..]
    ensures r[k] == if Bit(addrs, k) then Some(p) else None
    ensures Walk(w, space, addrs, k + 1, |r|, After(w, space, Bit(addrs, k), p)) == r[k + 1..]
  {
    var t := Walk(w, space, addrs, k, |r|, p);
    assert r[k] == t[0] && r[k + 1..] == t[1..];
  }

  method TestBit(addrs: bv32, i: nat) returns (on: bool)
    requires i < WIDTH
    ensures on == Bit(addrs, i)
  {
    var mask := Shift(i);
    on := Has(addrs, mask);
  }

  /** One turn of get_rtaddrs: the entry for place i, and where the next place begins. */
  method Place(w: LongSize, addrs: bv32, space: seq<byte>, i: nat, sa: nat, ghost r: seq<Option<nat>>)
    returns (found: Option<nat>, next: nat)
    requires i < |r| <= WIDTH && Walk(w, space, addrs, i, |r|, sa) == r[i..]
    ensures found == r[i] && Walk(w, space, addrs, i + 1, |r|, next) == r[i + 1..]
  {
    WalkTail(w, space, addrs, i, sa, r);
    var on := TestBit(addrs, i);
    if on {
      found, next := Some(sa), Advance(w, space, sa);
    } else {
      found, next := None, sa;
    }
  }

  /** get_rtaddrs, into an array of RTAX_MAX entries. */
  method GetRtaddrs(w: LongSize, addrs: bv32, space: seq<byte>, info: array<Option<nat>>)
    requires info.Length == RTAX_MAX
    modifies info
    ensures info[..] == Walk(w, space, addrs, 0, info.Length, 0)
  {
    ghost var r := Walk(w, space, addrs, 0, info.Length, 0);
    var sa: nat, i := 0, 0;
    while i < info.Length
      invariant i <= info.Length && Walk(w, space, addrs, i, info.Length, sa) == r[i..]
      invariant forall j :: 0 <= j < i ==> info[j] == r[j]
    {
      info[i], sa := Place(w, addrs, space, i, sa, r);
      i := i + 1;
    }
  }

  /** The offsets of the places that are there, in order. */
  function Present(r: seq<Option<nat>>): seq<nat> {
    if r == [] then [] else (if r[0].Some? then [r[0].value] else []) + Present(r[1..])
  }

  lemma Doubled(m: bv32)
    ensures m << 1 == m + m
  {
  }

  /** The bit after bit k, and whether the shift loop goes on. */
  lemma NextBit(i: bv32, k: nat)
    requires k < WIDTH && i == Mask(k)
    ensures i << 1 == Mask(k + 1) && (i << 1 != 0 <==> k + 1 < WIDTH)
  {
    Doubled(i);
    if k + 1 < WIDTH {
      MaskIsPower(k + 1);
    } else {
      MaskRunsOut();
    }
  }

  method NextShift(i: bv32, ghost k: nat) returns (j: bv32)
    requires k < WIDTH && i == Mask(k)
    ensures j == Mask(k + 1) && (j != 0 <==> k + 1 < WIDTH)
  {
    NextBit(i, k);
    j := i << 1;
  }

  lemma PresentStep(r: seq<Option<nat>>, k: nat, done: seq<nat>)
    requires k < |r|
    ensures done + Present(r[k..]) == (if r[k].Some? then done + [r[k].value] else done) + Present(r[k + 1..])
  {
    assert r[k..][1..] == r[k + 1..];
  }

  /** pmsg_addrs: what it prints, in order. */
  method PmsgAddrs(w: LongSize, space: seq<byte>, addrs: bv32) returns (printed: seq<nat>)
    ensures printed == Present(Walk(w, space, addrs, 0, WIDTH, 0))
  {
    if addrs == 0 {
      NothingThere(w, space, 0, 0);
      return [];
    }
    printed := PmsgLoop(w, space, addrs);
  }

  method PmsgLoop(w: LongSize, space: seq<byte>, addrs: bv32) returns (printed: seq<nat>)
    ensures printed == Present(Walk(w, space, addrs, 0, WIDTH, 0))
  {
    ghost var r := Walk(w, space, addrs, 0, WIDTH, 0);
    var i: bv32, cp: nat := 1, 0;
    printed := [];
    ghost var k := 0;
    while i != 0
      invariant k <= WIDTH && i == Mask(k) && (i != 0 <==> k < WIDTH)
      invariant Walk(w, space, addrs, k, WIDTH, cp) == r[k..] && printed + Present(r[k..]) == Present(r)
      decreases WIDTH - k
    {
      WalkTail(w, space, addrs, k, cp, r);
      PresentStep(r, k, printed);
      if Has(addrs, i) {
        printed := printed + [cp];
        cp := Advance(w, space, cp);
      }
      i := NextShift(i, k);
      k := k + 1;
    }
  }

  lemma {:induction false} NothingThere(w: LongSize, space: seq<byte>, k: nat, p: nat)
    requires k <= WIDTH
    ensures Present(Walk(w, space, 0, k, WIDTH, p)) == []
    decreases WIDTH - k
  {
    if k < WIDTH {
      BitOfZero(k);
      NothingThere(w, space, k + 1, p);
      assert Walk(w, space, 0, k, WIDTH, p)[1..] == Walk(w, space, 0, k + 1, WIDTH, p);
    }
  }

  /** Which of the sockaddrs a loop keeps. */
  datatype Kept = Kept(dst: Option<nat>, gate: Option<nat>, mask: Option<nat>, ifp: Option<nat>)

  const NOTHING := Kept(None, None, None, None)

  function Family(space: seq<byte>, p: nat): byte {
    At(space, p + 1)
  }

  /** sdl_nlen of a link-level sockaddr. */
  function NameLength(space: seq<byte>, p: nat): byte {
    At(space, p + 5)
  }

  /** The switch of print_getmsg at bit i. */
  function KeepGet(space: seq<byte>, kept: Kept, i: bv32, p: nat): Kept {
    if i == RTA_DST then kept.(dst := Some(p))
    else if i == RTA_GATEWAY then kept.(gate := Some(p))
    else if i == RTA_NETMASK then kept.(mask := Some(p))
    else if i == RTA_IFP && Family(space, p) == AF_LINK && NameLength(space, p) != 0 then kept.(ifp := Some(p))
    else kept
  }

  /** The switch of conf_print_rtm at bit i. */
  function KeepConf(space: seq<byte>, kept: Kept, i: bv32, p: nat, af: byte): Kept {
    if i == RTA_DST then
      if Family(space, p) == af || (af == AF_LINK && Family(space, p) == AF_INET) then kept.(dst := Some(p)) else kept
    else if i == RTA_GATEWAY then
      if Family(space, p) == af then kept.(gate := Some(p)) else kept
    else if i == RTA_NETMASK then kept.(mask := Some(p))
    else kept
  }

  function When(o: Option<nat>, b: bool): Option<nat> {
    if b then o else None
  }

  /** What print_getmsg keeps of the places found. */
  function Got(space: seq<byte>, r: seq<Option<nat>>): Kept
    requires |r| >= PLACES
  {
    Kept(r[0], r[1], r[2],
         When(r[4], r[4].Some? && Family(space, r[4].value) == AF_LINK && NameLength(space, r[4].value) != 0))
  }

  /** What conf_print_rtm keeps of the places found. */
  function GotConf(space: seq<byte>, r: seq<Option<nat>>, af: byte): Kept
    requires |r| >= PLACES
  {
    Kept(When(r[0], r[0].Some? && (Family(space, r[0].value) == af
                                   || (af == AF_LINK && Family(space, r[0].value) == AF_INET))),
         When(r[1], r[1].Some? && Family(space, r[1].value) == af), r[2], None)
  }

  /** The places found before place k; nothing from place k on. */
  function Before(r: seq<Option<nat>>, k: nat): (s: seq<Option<nat>>)
    requires |r| == WIDTH
    ensures |s| == WIDTH && forall j :: 0 <= j < WIDTH ==> s[j] == if j < k then r[j] else None
  {
    seq(WIDTH, j requires 0 <= j < WIDTH => if j < k then r[j] else None)
  }

  lemma PlaceOfBit(i: bv32, k: nat)
    requires k < WIDTH && i == Mask(k)
    ensures (i == RTA_DST <==> k == 0) && (i == RTA_GATEWAY <==> k == 1)
    ensures (i == RTA_NETMASK <==> k == 2) && (i == RTA_IFP <==> k == 4)
  {
    PlacesOfBits();
    MasksDiffer(k, 0);
    MasksDiffer(k, 1);
    MasksDiffer(k, 2);
    MasksDiffer(k, 4);
  }

  lemma MasksDiffer(i: nat, k: nat)
    requires i < WIDTH && k < WIDTH
    ensures Mask(i) == Mask(k) <==> i == k
  {
    BitOfMask(i, k);
    BitOfMask(k, k);
  }

  lemma KeepStep(space: seq<byte>, r: seq<Option<nat>>, i: bv32, k: nat, af: byte)
    requires |r| == WIDTH && k < WIDTH && i == Mask(k)
    ensures Got(space, Before(r, k + 1))
         == if r[k].Some? then KeepGet(space, Got(space, Before(r, k)), i, r[k].value) else Got(space, Before(r, k))
    ensures GotConf(space, Before(r, k + 1), af)
         == if r[k].Some? then KeepConf(space, GotConf(space, Before(r, k), af), i, r[k].value, af)
            else GotConf(space, Before(r, k), af)
  {
    PlaceOfBit(i, k);
  }

  /** The loop of print_getmsg. */
  method PrintGetmsg(w: LongSize, space: seq<byte>, addrs: bv32) returns (kept: Kept)
    ensures kept == Got(space, Walk(w, space, addrs, 0, WIDTH, 0))
  {
    ghost var r := Walk(w, space, addrs, 0, WIDTH, 0);
    var i: bv32, cp: nat := 1, 0;
    kept := NOTHING;
    ghost var k := 0;
    while i != 0
      invariant k <= WIDTH && i == Mask(k) && (i != 0 <==> k < WIDTH)
      invariant Walk(w, space, addrs, k, WIDTH, cp) == r[k..] && kept == Got(space, Before(r, k))
      decreases WIDTH - k
    {
      WalkTail(w, space, addrs, k, cp, r);
      KeepStep(space, r, i, k, AF_INET);
      if Has(addrs, i) {
        kept := KeepGet(space, kept, i, cp);
        cp := Advance(w, space, cp);
      }
      i := NextShift(i, k);
      k := k + 1;
    }
    assert Before(r, WIDTH) == r;
  }

  /** The loop of conf_print_rtm for an address family. */
  method ConfPrintRtm(w: LongSize, space: seq<byte>, addrs: bv32, af: byte) returns (kept: Kept)
    ensures kept == GotConf(space, Walk(w, space, addrs, 0, WIDTH, 0), af)
  {
    ghost var r := Walk(w, space, addrs, 0, WIDTH, 0);
    var i: bv32, cp: nat := 1, 0;
    kept := NOTHING;
    ghost var k := 0;
    while i != 0
      invariant k <= WIDTH && i == Mask(k) && (i != 0 <==> k < WIDTH)
      invariant Walk(w, space, addrs, k, WIDTH, cp) == r[k..] && kept == GotConf(space, Before(r, k), af)
      decreases WIDTH - k
    {
      WalkTail(w, space, addrs, k, cp, r);
      KeepStep(space, r, i, k, af);
      if Has(addrs, i) {
        kept := KeepConf(space, kept, i, cp, af);
        cp := Advance(w, space, cp);
      }
      i := NextShift(i, k);
      k := k + 1;
    }
    assert Before(r, WIDTH) == r;
  }

  // ---- unpacking undoes packing ----

  /** rtm_addrs asks for none but the four sockaddrs rtmsg can lay down. */
  predicate OnlyFour(addrs: bv32) {
    forall k :: 0 <= k < WIDTH && Bit(addrs, k) ==> k < PLACES && k != 3
  }

  /** What rtmsg writes behind the header, in a space of the given size. */
  function Message(w: LongSize, us: Addrs, size: nat): seq<byte>
    requires AllValid(w, us) && Offset(w, us, |us|) <= size
  {
    Packed(w, us, |us|) + Zeros(size - Offset(w, us, |us|))
  }

  lemma HeaderBits(addrs: bv32, proxy: bool, exported: bool, k: nat)
    requires k < WIDTH
    ensures Bit(HeaderAddrs(addrs, proxy, exported), k) <==> Bit(addrs, k) || (proxy && !exported && k == 2)
  {
    PlacesOfBits();
    BitOfOr(addrs, RTA_NETMASK, k);
    BitOfMask(2, k);
  }

  lemma HeaderIs(addrs: bv32, proxy: bool, exported: bool)
    ensures forall k :: 0 <= k < WIDTH ==>
      (Bit(HeaderAddrs(addrs, proxy, exported), k) <==> Bit(addrs, k) || (proxy && !exported && k == 2))
  {
    forall k | 0 <= k < WIDTH
      ensures Bit(HeaderAddrs(addrs, proxy, exported), k) <==> Bit(addrs, k) || (proxy && !exported && k == 2)
    {
      HeaderBits(addrs, proxy, exported, k);
    }
  }

  /** No bit of the header lacks its sockaddr. */
  predicate Honest(addrs: bv32, proxy: bool, exported: bool) {
    proxy && !exported ==> Bit(addrs, 2)
  }

  lemma MessageHolds(w: LongSize, addrs: bv32, header: bv32, us: Addrs, size: nat)
    requires AllValid(w, us) && |us| == PLACES && Offset(w, us, PLACES) <= size && OnlyFour(addrs)
    requires forall k :: 0 <= k < PLACES && k != 3 ==> (us[k].Some? <==> Bit(addrs, k))
    requires us[3].None? && forall k :: 0 <= k < WIDTH ==> (Bit(header, k) <==> Bit(addrs, k))
    ensures Holds(w, Message(w, us, size), header, us)
  {
    MessageContents(w, us, size);
  }

  lemma MessageContents(w: LongSize, us: Addrs, size: nat)
    requires AllValid(w, us) && Offset(w, us, |us|) <= size
    ensures forall k :: 0 <= k < |us| && us[k].Some? ==> LiesAt(w, Message(w, us, size), Offset(w, us, k), us[k].value)
  {
    forall k | 0 <= k < |us| && us[k].Some?
      ensures LiesAt(w, Message(w, us, size), Offset(w, us, k), us[k].value)
    {
      PackedLies(w, us, k, Zeros(size - Offset(w, us, |us|)));
    }
  }

  lemma HonestUnpacked(w: LongSize, addrs: bv32, header: bv32, us: Addrs, size: nat, n: nat)
    requires AllValid(w, us) && |us| == PLACES && Offset(w, us, PLACES) <= size && OnlyFour(addrs)
    requires forall k :: 0 <= k < PLACES && k != 3 ==> (us[k].Some? <==> Bit(addrs, k))
    requires us[3].None? && forall k :: 0 <= k < WIDTH ==> (Bit(header, k) <==> Bit(addrs, k))
    requires n <= WIDTH
    ensures Walk(w, Message(w, us, size), header, 0, n, 0) == Places(w, us, 0, n)
  {
    MessageHolds(w, addrs, header, us, size);
    WalkFinds(w, Message(w, us, size), header, us, 0, n);
  }

  /** A bit without its sockaddr is found, wrongly. */
  lemma Misled(w: LongSize, space: seq<byte>, header: bv32, us: Addrs, n: nat, j: nat)
    requires AllValid(w, us) && j < |us| && j < n && us[j].None? && Bit(header, j)
    ensures Walk(w, space, header, 0, n, 0) != Places(w, us, 0, n)
  {
    WalkAt(w, space, header, 0, n, 0, j);
  }

  /** Every walker, over any number of places that includes the four, finds exactly the sockaddrs that
      rtmsg laid down, each at its place, if and only if the header claims no netmask that is not there. */
  lemma MessageUnpacked(w: LongSize, size: nat, n: nat, addrs: bv32, proxy: bool, exported: bool,
                        dst: seq<byte>, gate: seq<byte>, mask: seq<byte>, ifp: seq<byte>)
    requires Valid(w, dst) && Valid(w, gate) && Valid(w, mask) && Valid(w, ifp) && PLACES <= n <= WIDTH
    requires OnlyFour(addrs) && Offset(w, Asked(addrs, dst, gate, mask, ifp), PLACES) <= size
    ensures var us := Asked(addrs, dst, gate, mask, ifp);
      Walk(w, Message(w, us, size), HeaderAddrs(addrs, proxy, exported), 0, n, 0) == Places(w, us, 0, n)
      <==> Honest(addrs, proxy, exported)
    ensures var us := Asked(addrs, dst, gate, mask, ifp);
      forall k :: 0 <= k < PLACES && us[k].Some? ==> LiesAt(w, Message(w, us, size), Offset(w, us, k), us[k].value)
  {
    var us, header := Asked(addrs, dst, gate, mask, ifp), HeaderAddrs(addrs, proxy, exported);
    MessageContents(w, us, size);
    HeaderIs(addrs, proxy, exported);
    if Honest(addrs, proxy, exported) {
      HonestUnpacked(w, addrs, header, us, size, n);
    } else {
      Misled(w, Message(w, us, size), header, us, n, 2);
    }
  }

  lemma ByteLies(w: LongSize, space: seq<byte>, p: nat, sa: seq<byte>, j: nat)
    requires Valid(w, sa) && LiesAt(w, space, p, sa) && j < Size(w, sa)
    ensures At(space, p + j) == sa[j]
  {
    assert space[p + j] == space[p..p + Size(w, sa)][j] == Padded(w, sa)[j];
  }

  lemma SizeAboveOne(w: LongSize, sa: seq<byte>)
    requires |sa| > 0
    ensures Size(w, sa) > 1
  {
    RoundupForm(w, sa[0] as int);
  }

  lemma PlacesAre(w: LongSize, addrs: bv32, dst: seq<byte>, gate: seq<byte>, mask: seq<byte>, ifp: seq<byte>,
                  us: Addrs, r: seq<Option<nat>>, g: nat, m: nat, i: nat)
    requires Valid(w, dst) && Valid(w, gate) && Valid(w, mask) && Valid(w, ifp)
    requires us == Asked(addrs, dst, gate, mask, ifp) && r == Places(w, us, 0, WIDTH)
    requires g == Part(w, Bit(addrs, 0), dst) && m == g + Part(w, Bit(addrs, 1), gate)
    requires i == m + Part(w, Bit(addrs, 2), mask)
    ensures |r| == WIDTH
    ensures r[0] == if Bit(addrs, 0) then Some(0) else None
    ensures r[1] == if Bit(addrs, 1) then Some(g) else None
    ensures r[2] == if Bit(addrs, 2) then Some(m) else None
    ensures r[4] == if Bit(addrs, 4) then Some(i) else None
  {
    Offsets(w, addrs, dst, gate, mask, ifp, us);
  }

  /** What the walk over an honest message finds at the places of the four. */
  lemma FoundPlaces(w: LongSize, size: nat, addrs: bv32, proxy: bool, exported: bool,
                    dst: seq<byte>, gate: seq<byte>, mask: seq<byte>, ifp: seq<byte>, us: Addrs,
                    space: seq<byte>, r: seq<Option<nat>>, g: nat, m: nat, i: nat)
    requires Valid(w, dst) && Valid(w, gate) && Valid(w, mask) && Valid(w, ifp) && OnlyFour(addrs)
    requires us == Asked(addrs, dst, gate, mask, ifp) && Offset(w, us, PLACES) <= size
    requires Honest(addrs, proxy, exported) && space == Message(w, us, size)
    requires r == Walk(w, space, HeaderAddrs(addrs, proxy, exported), 0, WIDTH, 0)
    requires g == Part(w, Bit(addrs, 0), dst) && m == g + Part(w, Bit(addrs, 1), gate)
    requires i == m + Part(w, Bit(addrs, 2), mask)
    ensures |r| == WIDTH
    ensures r[0] == if Bit(addrs, 0) then Some(0) else None
    ensures r[1] == if Bit(addrs, 1) then Some(g) else None
    ensures r[2] == if Bit(addrs, 2) then Some(m) else None
    ensures r[4] == if Bit(addrs, 4) then Some(i) else None
  {
    MessageUnpacked(w, size, WIDTH, addrs, proxy, exported, dst, gate, mask, ifp);
    PlacesAre(w, addrs, dst, gate, mask, ifp, us, r, g, m, i);
  }

  /** The family and the name length of a sockaddr that was laid down are its own bytes. */
  lemma BytesLaid(w: LongSize, size: nat, us: Addrs, k: nat, sa: seq<byte>, p: nat)
    requires AllValid(w, us) && Offset(w, us, |us|) <= size && k < |us|
    requires us[k] == Some(sa) && p == Offset(w, us, k)
    ensures Size(w, sa) > 1 && Family(Message(w, us, size), p) == sa[1]
    ensures Size(w, sa) > 5 ==> NameLength(Message(w, us, size), p) == sa[5]
  {
    MessageContents(w, us, size);
    SizeAboveOne(w, sa);
    ByteLies(w, Message(w, us, size), p, sa, 1);
    if Size(w, sa) > 5 {
      ByteLies(w, Message(w, us, size), p, sa, 5);
    }
  }

  /** The sockaddr of a chosen place, by its own family and name length. */
  lemma ChosenBytes(w: LongSize, size: nat, us: Addrs, k: nat, on: bool, sa: seq<byte>, p: nat)
    requires AllValid(w, us) && Offset(w, us, |us|) <= size && k < |us| && Valid(w, sa)
    requires us[k] == Chosen(on, sa) && p == Offset(w, us, k)
    ensures |sa| > 1 && (on ==> Family(Message(w, us, size), p) == sa[1])
    ensures on && Size(w, sa) > 5 ==> NameLength(Message(w, us, size), p) == sa[5]
  {
    SizeAboveOne(w, sa);
    if on {
      BytesLaid(w, size, us, k, sa, p);
    }
  }

  lemma InterfaceLies(w: LongSize, size: nat, addrs: bv32, dst: seq<byte>, gate: seq<byte>, mask: seq<byte>,
                      ifp: seq<byte>, us: Addrs, i: nat)
    requires Valid(w, dst) && Valid(w, gate) && Valid(w, mask) && Valid(w, ifp)
    requires |ifp| > 5 && Size(w, ifp) > 5
    requires us == Asked(addrs, dst, gate, mask, ifp) && Offset(w, us, PLACES) <= size
    requires i == Offset(w, us, 4)
    ensures var space := Message(w, us, size);
      Bit(addrs, 4) ==> Family(space, i) == ifp[1] && NameLength(space, i) == ifp[5]
  {
    ChosenBytes(w, size, us, 4, Bit(addrs, 4), ifp, i);
  }

  lemma GotIs(space: seq<byte>, r: seq<Option<nat>>, b0: bool, b1: bool, b2: bool, b4: bool, g: nat, m: nat, i: nat,
              family: byte, nlen: byte)
    requires |r| >= PLACES && r[0] == (if b0 then Some(0) else None) && r[1] == (if b1 then Some(g) else None)
    requires r[2] == (if b2 then Some(m) else None) && r[4] == (if b4 then Some(i) else None)
    requires b4 ==> Family(space, i) == family && NameLength(space, i) == nlen
    ensures Got(space, r) == Kept(if b0 then Some(0) else None, if b1 then Some(g) else None,
      if b2 then Some(m) else None, if b4 && family == AF_LINK && nlen != 0 then Some(i) else None)
  {
  }

  lemma GotConfIs(space: seq<byte>, r: seq<Option<nat>>, af: byte, b0: bool, b1: bool, b2: bool, g: nat, m: nat,
                  dstFamily: byte, gateFamily: byte)
    requires |r| >= PLACES && r[0] == (if b0 then Some(0) else None) && r[1] == (if b1 then Some(g) else None)
    requires r[2] == (if b2 then Some(m) else None)
    requires (b0 ==> Family(space, 0) == dstFamily) && (b1 ==> Family(space, g) == gateFamily)
    ensures GotConf(space, r, af) == Kept(
      if b0 && (dstFamily == af || (af == AF_LINK && dstFamily == AF_INET)) then Some(0) else None,
      if b1 && gateFamily == af then Some(g) else None, if b2 then Some(m) else None, None)
  {
  }

  lemma EndsLie(w: LongSize, size: nat, addrs: bv32, dst: seq<byte>, gate: seq<byte>, mask: seq<byte>,
                ifp: seq<byte>, us: Addrs, g: nat)
    requires Valid(w, dst) && Valid(w, gate) && Valid(w, mask) && Valid(w, ifp)
    requires us == Asked(addrs, dst, gate, mask, ifp) && Offset(w, us, PLACES) <= size
    requires g == Part(w, Bit(addrs, 0), dst)
    ensures |dst| > 1 && |gate| > 1
    ensures var space := Message(w, us, size);
      (Bit(addrs, 0) ==> Family(space, 0) == dst[1]) && (Bit(addrs, 1) ==> Family(space, g) == gate[1])
  {
    Offsets(w, addrs, dst, gate, mask, ifp, us);
    ChosenBytes(w, size, us, 0, Bit(addrs, 0), dst, 0);
    ChosenBytes(w, size, us, 1, Bit(addrs, 1), gate, g);
  }

  /** print_getmsg keeps of an honest message exactly the sockaddrs that were put in, at their offsets, and the
      interface only when it is a link-level one with a name. */
  lemma KeptByGetmsg(w: LongSize, size: nat, addrs: bv32, proxy: bool, exported: bool,
                     dst: seq<byte>, gate: seq<byte>, mask: seq<byte>, ifp: seq<byte>, us: Addrs, space: seq<byte>,
                     g: nat, m: nat, i: nat)
    requires Valid(w, dst) && Valid(w, gate) && Valid(w, mask) && Valid(w, ifp) && OnlyFour(addrs)
    requires us == Asked(addrs, dst, gate, mask, ifp) && Offset(w, us, PLACES) <= size
    requires space == Message(w, us, size) && Honest(addrs, proxy, exported)
    requires |ifp| > 5 && Size(w, ifp) > 5
    requires g == Part(w, Bit(addrs, 0), dst) && m == g + Part(w, Bit(addrs, 1), gate)
    requires i == m + Part(w, Bit(addrs, 2), mask)
    ensures Got(space, Walk(w, space, HeaderAddrs(addrs, proxy, exported), 0, WIDTH, 0)) == Kept(
      if Bit(addrs, 0) then Some(0) else None,
      if Bit(addrs, 1) then Some(g) else None,
      if Bit(addrs, 2) then Some(m) else None,
      if Bit(addrs, 4) && ifp[1] == AF_LINK && ifp[5] != 0 then Some(i) else None)
  {
    var r := Walk(w, space, HeaderAddrs(addrs, proxy, exported), 0, WIDTH, 0);
    FoundPlaces(w, size, addrs, proxy, exported, dst, gate, mask, ifp, us, space, r, g, m, i);
    Offsets(w, addrs, dst, gate, mask, ifp, us);
    InterfaceLies(w, size, addrs, dst, gate, mask, ifp, us, i);
    GotIs(space, r, Bit(addrs, 0), Bit(addrs, 1), Bit(addrs, 2), Bit(addrs, 4), g, m, i, ifp[1], ifp[5]);
  }

  /** conf_print_rtm keeps the destination and the gateway of an honest message when their family is the one it is
      asked for, which for link-level entries may be an IPv4 destination, and the netmask in any case. */
  lemma KeptByConf(w: LongSize, size: nat, addrs: bv32, proxy: bool, exported: bool, af: byte,
                   dst: seq<byte>, gate: seq<byte>, mask: seq<byte>, ifp: seq<byte>, us: Addrs, space: seq<byte>,
                   g: nat, m: nat)
    requires Valid(w, dst) && Valid(w, gate) && Valid(w, mask) && Valid(w, ifp) && OnlyFour(addrs)
    requires us == Asked(addrs, dst, gate, mask, ifp) && Offset(w, us, PLACES) <= size
    requires space == Message(w, us, size) && Honest(addrs, proxy, exported)
    requires g == Part(w, Bit(addrs, 0), dst) && m == g + Part(w, Bit(addrs, 1), gate)
    ensures |dst| > 1 && |gate| > 1
    ensures GotConf(space, Walk(w, space, HeaderAddrs(addrs, proxy, exported), 0, WIDTH, 0), af) == Kept(
      if Bit(addrs, 0) && (dst[1] == af || (af == AF_LINK && dst[1] == AF_INET)) then Some(0) else None,
      if Bit(addrs, 1) && gate[1] == af then Some(g) else None,
      if Bit(addrs, 2) then Some(m) else None,
      None)
  {
    var r := Walk(w, space, HeaderAddrs(addrs, proxy, exported), 0, WIDTH, 0);
    var i := m + Part(w, Bit(addrs, 2), mask);
    FoundPlaces(w, size, addrs, proxy, exported, dst, gate, mask, ifp, us, space, r, g, m, i);
    EndsLie(w, size, addrs, dst, gate, mask, ifp, us, g);
    GotConfIs(space, r, af, Bit(addrs, 0), Bit(addrs, 1), Bit(addrs, 2), g, m, dst[1], gate[1]);
  }
}
