/** The route command: parse_ip, the network check, and the route lines of a saved configuration. */
module Route {
  import opened Text
  import opened Tokens
  import opened Words32
  import opened Mask4
  import opened Inet

  /** An ip_t: addr is in network order; family is zero when the text was refused. */
  datatype Ip = Ip(family: nat, addr: bv32, bitlen: int)

  const AF_INET := 2

  /** What stands for the mask when the text has none. */
  datatype MaskType = AssumeNetmask | NoNetmask

  predicate IsOctal(c: char) {
    '0' <= c <= '7'
  }

  /** The value of the octal digits s starts with. */
  function OctalValue(s: string, sofar: nat): nat {
    if s == "" || !IsOctal(s[0]) then sofar else OctalValue(s[1..], 8 * sofar + DigitValue(s[0]))
  }

  /** strtoul in base 0 on a string of decimal digits, stored in an int. */
  function BitCount(s: string): int
    requires AllDigits(s)
  {
    ToInt(if s != "" && s[0] == '0' then OctalValue(s, 0) else DigitsValue(s))
  }

  /** The bit length after the slash: from a dotted mask or a count; None when it is neither. */
  function SlashLength(s: string, aton: Aton): Option<int> {
    if aton(s).Some? && '.' in s then Some(LengthOf(Swap(aton(s).value)))
    else if AllDigits(s) then Some(BitCount(s))
    else None
  }

  /** The address before the slash, and what is after it if there is one. */
  function IpOf(host: string, slash: Option<string>, kind: MaskType, aton: Aton): Ip {
    if aton(host).None? || '.' !in host then Ip(0, 0, 0)
    else
      var addr := aton(host).value;
      if slash.None? then Ip(AF_INET, addr, if kind == NoNetmask then -1 else 32)
      else match SlashLength(slash.value, aton)
        case None => Ip(0, addr, 0)
        case Some(n) => Ip(if n > 32 then 0 else AF_INET, addr, n)
  }

  function ReadIp(arg: string, kind: MaskType, aton: Aton): Ip {
    var q := Find(arg, '/');
    IpOf(arg[..q], if q == |arg| then None else Some(arg[q + 1..]), kind, aton)
  }

  /** The C string in an array. */
  function CString(s: seq<char>): string {
    s[..Find(s, NUL)]
  }

  /** strchr */
  method Strchr(arg: array<char>, n: nat, c: char) returns (k: nat)
    requires n <= arg.Length
    ensures k == Find(arg[..n], c)
  {
    k := 0;
    assert arg[0..n] == arg[..n];
    while k < n && arg[k] != c
      invariant k <= n && Find(arg[..n], c) == k + Find(arg[k..n], c)
    {
      assert arg[k..n][1..] == arg[k + 1..n];
      k := k + 1;
    }
  }

  /** parse_ip: the slash in the argument is overwritten by the terminator of the address. */
  method ParseIp(arg: array<char>, n: nat, kind: MaskType, aton: Aton) returns (argip: Ip)
    requires n < arg.Length && arg[n] == NUL && NulFree(arg[..n])
    modifies arg
    ensures argip == ReadIp(old(arg[..n]), kind, aton)
    ensures CString(arg[..]) == old(arg[..n])[..Find(old(arg[..n]), '/')]
  {
    ghost var text := arg[..n];
    var q := Strchr(arg, n, '/');
    var s := if q < n then Some(arg[..n][q + 1..]) else None;
    if q < n {
      arg[q] := NUL;
    }
    var host := arg[..q];
    assert host == text[..q];
    Terminated(arg[..], q);
    argip := ParseParts(host, s, kind, aton);
  }

  /** The body of parse_ip, once the argument is cut in two. */
  method ParseParts(host: string, slash: Option<string>, kind: MaskType, aton: Aton) returns (argip: Ip)
    ensures argip == IpOf(host, slash, kind, aton)
  {
    argip := Ip(0, 0, 0);
    var a := aton(host);
    if a.None? || '.' !in host {
      return;
    }
    argip := argip.(addr := a.value);
    if slash.Some? {
      var bits := ReadLength(slash.value, aton);
      if bits.None? {
        return;
      }
      argip := argip.(bitlen := bits.value);
      if argip.bitlen > 32 {
        return;
      }
    } else {
      argip := argip.(bitlen := match kind case NoNetmask => -1 case AssumeNetmask => 32);
    }
    argip := argip.(family := AF_INET);
  }

  method ReadLength(s: string, aton: Aton) returns (bits: Option<int>)
    ensures bits == SlashLength(s, aton)
  {
    var m := aton(s);
    if m.Some? && '.' in s {
      return Some(LengthOf(Swap(m.value)));
    } else if AllDigits(s) {
      return Some(BitCount(s));
    }
    return None;
  }

  lemma Terminated(s: seq<char>, q: nat)
    requires q < |s| && s[q] == NUL && NulFree(s[..q])
    ensures CString(s) == s[..q]
  {
    FindAt(s[..q], NUL, s[q + 1..]);
    assert s == s[..q] + [NUL] + s[q + 1..];
  }

  // ---- route ----

  datatype Outcome =
    | Usage | BadDestination | BadGateway | NoGateway
    | Undefined                              // a shift by 32 or more, or by a negative count
    | Inconsistent(net: bv32, bitlen: int)
    | Routed(add: bool, dst: bv32, bitlen: int, gate: bv32)

  /** The network check: dst is in network order. */
  function Checked(add: bool, dst: bv32, bitlen: int, gate: bv32): Outcome {
    if bitlen < 1 || bitlen > WIDTH then Undefined
    else
      var net := In4Netaddr(dst, Swap(MaskOfLength(bitlen)));
      if Swap(dst) != net then Inconsistent(net, bitlen) else Routed(add, dst, bitlen, gate)
  }

  function RunRoute(argv: seq<string>, aton: Aton): Outcome
    requires argv != []
  {
    var add := !NoArg(argv[0]);
    var skip := if add then 1 else 2;
    if |argv| < skip + 1 || |argv| > skip + 2 then Usage
    else
      var dest := ReadIp(argv[skip], AssumeNetmask, aton);
      if dest.family == 0 then BadDestination
      else if |argv| == skip + 2 then
        var g := argv[skip + 1];
        if aton(g).Some? && '.' in g then Checked(add, dest.addr, dest.bitlen, aton(g).value) else BadGateway
      else if add then NoGateway
      else Checked(add, dest.addr, dest.bitlen, 0)
  }

  /** A fresh C string. */
  method NewString(s: string) returns (a: array<char>)
    ensures fresh(a) && a.Length == |s| + 1 && a[..|s|] == s && a[|s|] == NUL
  {
    a := new char[|s| + 1](i => if 0 <= i < |s| then s[i] else NUL);
  }

  method Route(argv: seq<string>, aton: Aton) returns (o: Outcome)
    requires argv != [] && forall i :: 0 <= i < |argv| ==> NulFree(argv[i])
    ensures o == RunRoute(argv, aton)
  {
    var add, k := true, 0;
    if NoArg(argv[0]) {
      add, k := false, 1;
    }
    k := k + 1;
    var argc := |argv| - k;
    if argc < 1 || argc > 2 {
      return Usage;
    }
    var arg := NewString(argv[k]);
    var dest := ParseIp(arg, |argv[k]|, AssumeNetmask, aton);
    if dest.family == 0 {
      return BadDestination;
    }
    var gate: bv32 := 0;
    if argc > 1 {
      var g := aton(argv[k + 1]);
      if g.None? || '.' !in argv[k + 1] {
        return BadGateway;
      }
      gate := g.value;
    } else if add {
      return NoGateway;
    }
    if dest.bitlen < 1 || dest.bitlen > WIDTH {
      return Undefined;
    }
    var mask := ShiftMask(dest.bitlen);
    var net := In4Netaddr(dest.addr, Swap(mask));
    if Swap(dest.addr) != net {
      return Inconsistent(net, dest.bitlen);
    }
    return Routed(add, dest.addr, dest.bitlen, gate);
  }

  /** The mask of the routing message: ip_route leaves length 0 out of the shift. */
  method RouteMask(len: nat) returns (mask: bv32)
    requires len <= WIDTH
    ensures mask == Swap(MaskOfLength(len))
  {
    if len == 0 {
      NoMask();
      ZeroSwapped();
      return 0;
    }
    mask := ShiftMask(len);
    mask := Swap(mask);
  }

  lemma ZeroSwapped()
    ensures Swap(0) == 0
  {
  }

  /** For the lengths the shift is defined at, a destination is accepted exactly when it is a multiple of
      2 to the 32 - length, as a number. */
  lemma AcceptedDestinations(add: bool, dst: bv32, len: nat, gate: bv32)
    requires 1 <= len <= WIDTH
    ensures Checked(add, dst, len, gate) == Routed(add, dst, len, gate)
       <==> Number(Swap(dst)) % Pow2(WIDTH - len) == 0
  {
    SwapBack(MaskOfLength(len));
    NetworkIsMultiple(Swap(dst), WIDTH, WIDTH - len, MaskOfLength(len));
  }

  // ---- the saved route lines ----

  /** The length netname4 prints for a mask in network order. */
  function MaskLength(mask: bv32): (len: nat)
    ensures len <= WIDTH
  {
    LengthOf(Swap(mask))
  }

  /** netname4: both in network order. */
  function NetName4(addr: bv32, mask: bv32): string {
    AddrText(addr) + ("/" + DecimalNat(MaskLength(mask)))
  }

  function Line(net: string, gateway: string): string {
    "route " + net + " " + gateway + "\n"
  }

  /** What conf_print_rtm writes for a route. */
  function RouteLine(dst: bv32, mask: bv32, gate: bv32): string {
    Line(NetName4(dst, mask), AddrText(gate))
  }

  lemma BitCountOfDecimal(n: nat, aton: Aton)
    requires n <= WIDTH
    ensures SlashLength(DecimalNat(n), aton) == Some(n)
  {
    var s := DecimalNat(n);
    DigitsOfDecimal(n);
    NoLeadingZero(n);
    assert forall i :: 0 <= i < |s| ==> IsDigit(s[i]);
    if s[0] == '0' {
      assert s == "0";
      assert OctalValue("0", 0) == OctalValue("", 0);
    }
  }

  lemma SlashRead(host: string, after: string, addr: bv32, n: int, kind: MaskType, aton: Aton)
    requires aton(host) == Some(addr) && '.' in host && '/' !in host && SlashLength(after, aton) == Some(n) && n <= 32
    ensures ReadIp(host + ("/" + after), kind, aton) == Ip(AF_INET, addr, n)
  {
    SlashParts(host, after);
  }

  lemma SlashParts(host: string, after: string)
    requires '/' !in host
    ensures var text := host + ("/" + after);
      Find(text, '/') == |host| && text[..|host|] == host && text[|host| + 1..] == after && |host| < |text|
  {
    var text := host + ("/" + after);
    FindAt(host, '/', after);
    assert text == host + ['/'] + after;
  }

  lemma NoSlash(host: string)
    requires DigitsAndDots(host)
    ensures '/' !in host
  {
  }

  /** A printed network is read back with its address and the length of its mask. */
  lemma NetNameRead(addr: bv32, mask: bv32, aton: Aton)
    requires ReadsQuads(aton)
    ensures ReadIp(NetName4(addr, mask), AssumeNetmask, aton) == Ip(AF_INET, addr, MaskLength(mask))
  {
    var host, len := AddrText(addr), MaskLength(mask);
    AddrRestored(addr, aton);
    AddrDigits(addr);
    NoSlash(host);
    BitCountOfDecimal(len, aton);
    SlashRead(host, DecimalNat(len), addr, len, AssumeNetmask, aton);
  }

  /** Without a slash an address is a host: all 32 bits, or none said when the caller does not assume them. */
  lemma HostRead(addr: bv32, kind: MaskType, aton: Aton)
    requires ReadsQuads(aton)
    ensures ReadIp(AddrText(addr), kind, aton) == Ip(AF_INET, addr, if kind == NoNetmask then -1 else 32)
  {
    var host := AddrText(addr);
    AddrRestored(addr, aton);
    AddrDigits(addr);
    NoSlash(host);
    FindAt(host, '/', "");
    assert host[..|host|] == host;
  }

  lemma MaskWritten(mask: bv32, aton: Aton)
    requires ReadsQuads(aton)
    ensures SlashLength(AddrText(mask), aton) == Some(LengthOf(Swap(mask)))
  {
    AddrRestored(mask, aton);
    AddrDigits(mask);
  }

  /** A mask written as an address gives the length of the mask. */
  lemma DottedMaskRead(addr: bv32, mask: bv32, kind: MaskType, aton: Aton)
    requires ReadsQuads(aton)
    ensures ReadIp(AddrText(addr) + ("/" + AddrText(mask)), kind, aton) == Ip(AF_INET, addr, LengthOf(Swap(mask)))
  {
    AddrRestored(addr, aton);
    AddrDigits(addr);
    NoSlash(AddrText(addr));
    MaskWritten(mask, aton);
    SlashRead(AddrText(addr), AddrText(mask), addr, LengthOf(Swap(mask)), kind, aton);
  }

  /** Which texts are taken for an address: one with a dot that inet_aton reads, alone or before a slash and either a
      mask written like an address or a count of at most 32. */
  lemma AddressTaken(host: string, after: Option<string>, kind: MaskType, aton: Aton)
    requires '/' !in host
    ensures var ip := ReadIp(if after.Some? then host + ("/" + after.value) else host, kind, aton);
      && (ip.family == 0 || ip.family == AF_INET)
      && (ip.family != 0 <==>
            && aton(host).Some? && '.' in host
            && (after.Some? ==>
                  || (aton(after.value).Some? && '.' in after.value)
                  || (AllDigits(after.value) && BitCount(after.value) <= 32)))
      && (ip.family != 0 ==> aton(host) == Some(ip.addr))
  {
    match after
    case None =>
      FindAt(host, '/', "");
      assert host[..|host|] == host;
    case Some(text) =>
      SlashParts(host, text);
  }

  // ---- a count with a zero in front ----

  /** %o */
  function OctalText(n: nat): (s: string)
    ensures |s| > 0 && AllDigits(s)
  {
    if n < 8 then [DigitChar(n)] else OctalText(n / 8) + [DigitChar(n % 8)]
  }

  lemma OctalDigitIs(d: nat)
    requires d < 10
    ensures IsOctal("0123456789"[d]) <==> d < 8
    ensures DigitChar(d) == "0123456789"[d]
  {
    DigitsAre(d);
  }

  lemma OctalStep(c: char, rest: string, sofar: nat)
    ensures OctalValue([c] + rest, sofar) == if IsOctal(c) then OctalValue(rest, 8 * sofar + DigitValue(c)) else sofar
  {
    assert ([c] + rest)[1..] == rest;
  }

  /** The octal digits of n, and what is behind them. */
  lemma {:induction false} OctalAhead(n: nat, rest: string)
    ensures OctalValue(OctalText(n) + rest, 0) == OctalValue(rest, n)
  {
    var d := n % 8;
    OctalDigitIs(d);
    DigitsAre(d);
    if n < 8 {
      OctalStep(DigitChar(d), rest, 0);
    } else {
      assert OctalText(n) + rest == OctalText(n / 8) + ([DigitChar(d)] + rest);
      OctalAhead(n / 8, [DigitChar(d)] + rest);
      OctalStep(DigitChar(d), rest, n / 8);
    }
  }

  lemma {:induction false} ZerosSkipped(zeros: string, rest: string)
    requires forall i :: 0 <= i < |zeros| ==> zeros[i] == '0'
    ensures OctalValue(zeros + rest, 0) == OctalValue(rest, 0)
    decreases |zeros|
  {
    if zeros == "" {
      assert zeros + rest == rest;
    } else {
      DigitsAre(0);
      OctalDigitIs(0);
      OctalStep('0', zeros[1..] + rest, 0);
      assert zeros + rest == ['0'] + (zeros[1..] + rest);
      ZerosSkipped(zeros[1..], rest);
    }
  }

  /** A count with zeros in front is read in base 8, up to a digit that is none there. */
  lemma OctalCount(zeros: string, n: nat, rest: string)
    requires zeros != "" && forall i :: 0 <= i < |zeros| ==> zeros[i] == '0'
    requires rest == "" || rest[0] == '8' || rest[0] == '9'
    requires AllDigits(rest)
    ensures var s := zeros + (OctalText(n) + rest); AllDigits(s) && BitCount(s) == ToInt(n)
  {
    ZerosSkipped(zeros, OctalText(n) + rest);
    OctalAhead(n, rest);
    OctalDigitIs(8);
    OctalDigitIs(9);
    var s := zeros + (OctalText(n) + rest);
    assert s[0] == zeros[0];
  }

  lemma NetNamePlain(host: string, digits: string)
    requires DigitsAndDots(host) && AllDigits(digits)
    ensures Plain(host + ("/" + digits))
  {
    var text := host + ("/" + digits);
    assert forall i :: 0 <= i < |text| ==> IsDigit(text[i]) || text[i] == '.' || text[i] == '/';
  }

  lemma LineWords(net: string, gateway: string)
    requires Plain(net) && Plain(gateway)
    ensures Words(Line(net, gateway)) == ["route", net, gateway]
  {
    var ws := ["route", net, gateway];
    PlainLine(ws);
    assert ws[1..] == [net, gateway] && [net, gateway][1..] == [gateway];
    assert Unwords([net, gateway]) == net + " " + gateway;
    assert Unwords(ws) == "route" + " " + (net + " " + gateway);
    assert Unwords(ws) + "\n" == Line(net, gateway);
  }

  lemma AddrPlain(addr: bv32)
    ensures Plain(AddrText(addr))
  {
    AddrDigits(addr);
  }

  lemma RouteLineWords(dst: bv32, mask: bv32, gate: bv32)
    ensures Words(RouteLine(dst, mask, gate)) == ["route", NetName4(dst, mask), AddrText(gate)]
  {
    AddrDigits(dst);
    NetNamePlain(AddrText(dst), DecimalNat(MaskLength(mask)));
    AddrPlain(gate);
    LineWords(NetName4(dst, mask), AddrText(gate));
  }

  lemma ThreeRun(word: string, net: string, gw: string, dest: Ip, gate: bv32, aton: Aton)
    requires !NoArg(word) && ReadIp(net, AssumeNetmask, aton) == dest && dest.family != 0
    requires aton(gw) == Some(gate) && '.' in gw
    ensures RunRoute([word, net, gw], aton) == Checked(true, dest.addr, dest.bitlen, gate)
  {
  }

  /** Reading a saved route line: the network check on the destination and the length of the mask. */
  lemma RouteLineRead(dst: bv32, mask: bv32, gate: bv32, aton: Aton)
    requires ReadsQuads(aton)
    ensures Words(RouteLine(dst, mask, gate)) != []
    ensures RunRoute(Words(RouteLine(dst, mask, gate)), aton) == Checked(true, dst, MaskLength(mask), gate)
  {
    RouteLineWords(dst, mask, gate);
    NetNameRead(dst, mask, aton);
    AddrRestored(gate, aton);
    AddrDigits(gate);
    ThreeRun("route", NetName4(dst, mask), AddrText(gate), Ip(AF_INET, dst, MaskLength(mask)), gate, aton);
  }

  /** The mask a length stands for, in network order. */
  function NetMask(len: nat): bv32
    requires len <= WIDTH
  {
    Swap(MaskOfLength(len))
  }

  lemma NetMaskRestored(mask: bv32, len: nat)
    requires len <= WIDTH
    ensures mask == NetMask(len) ==> MaskLength(mask) == len
  {
    SwapBack(MaskOfLength(len));
    LengthRestored(len);
  }

  lemma CheckedIs(dst: bv32, len: nat, gate: bv32)
    requires len <= WIDTH
    ensures Checked(true, dst, len, gate) == Routed(true, dst, len, gate)
       <==> len >= 1 && In4Netaddr(dst, NetMask(len)) == Swap(dst)
  {
  }

  /** The route a line asks for, and the mask ip_route gives it, are those that were saved. */
  predicate Same(o: Outcome, dst: bv32, mask: bv32, gate: bv32) {
    o.Routed? && 0 <= o.bitlen <= WIDTH && o.add && o.dst == dst && o.gate == gate && NetMask(o.bitlen) == mask
  }

  /** The network check on the length of the saved mask. */
  lemma CheckedSame(dst: bv32, mask: bv32, gate: bv32, n: nat)
    requires n <= WIDTH && n == MaskLength(mask)
    ensures Same(Checked(true, dst, n, gate), dst, mask, gate)
       <==> (exists len :: 1 <= len <= WIDTH && mask == NetMask(len)) && In4Netaddr(dst, mask) == Swap(dst)
  {
    CheckedIs(dst, n, gate);
    if len :| 1 <= len <= WIDTH && mask == NetMask(len) {
      NetMaskRestored(mask, len);
    }
  }

  /** A saved route comes back with its own destination, mask and gateway exactly when the mask is
      contiguous and not zero and the destination is the address of the network. */
  lemma RouteRestored(dst: bv32, mask: bv32, gate: bv32, aton: Aton)
    requires ReadsQuads(aton)
    ensures Words(RouteLine(dst, mask, gate)) != []
    ensures Same(RunRoute(Words(RouteLine(dst, mask, gate)), aton), dst, mask, gate)
       <==> (exists len :: 1 <= len <= WIDTH && mask == NetMask(len)) && In4Netaddr(dst, mask) == Swap(dst)
  {
    RouteLineRead(dst, mask, gate, aton);
    CheckedSame(dst, mask, gate, MaskLength(mask));
  }

  /** The command without a gateway, and negated: an address that is read and passes the network check is deleted,
      with the gateway if one is given, and never added. */
  lemma RouteDeleted(no: string, word: string, dst: string, gw: string, aton: Aton)
    requires NoArg(no)
    ensures var dest := ReadIp(dst, AssumeNetmask, aton);
      && RunRoute([no, word, dst], aton)
           == (if dest.family == 0 then BadDestination else Checked(false, dest.addr, dest.bitlen, 0))
      && RunRoute([no, word, dst, gw], aton)
           == (if dest.family == 0 then BadDestination
               else if aton(gw).None? || '.' !in gw then BadGateway
               else Checked(false, dest.addr, dest.bitlen, aton(gw).value))
  {
  }

  /** Adding a route takes a gateway; any other number of words is refused. */
  lemma RouteShapes(argv: seq<string>, aton: Aton)
    requires argv != []
    ensures var n := |argv| - if NoArg(argv[0]) then 2 else 1;
      RunRoute(argv, aton) == Usage <==> n != 1 && n != 2
    ensures |argv| == 2 && !NoArg(argv[0]) && ReadIp(argv[1], AssumeNetmask, aton).family != 0 ==>
      RunRoute(argv, aton) == NoGateway
  {
  }

  /** What passes the check is what was asked for, deleted when it was negated. */
  lemma CheckedRoutes(add: bool, dst: bv32, bitlen: int, gate: bv32)
    ensures Checked(add, dst, bitlen, gate).Routed? ==>
      Checked(add, dst, bitlen, gate) == Routed(add, dst, bitlen, gate)
    ensures Checked(add, dst, bitlen, gate) == Undefined <==> bitlen < 1 || bitlen > 32
    ensures Checked(add, dst, bitlen, gate).Routed? <==>
      1 <= bitlen <= 32 && Number(Swap(dst)) % Pow2(32 - bitlen) == 0
  {
    if 1 <= bitlen <= 32 {
      AcceptedDestinations(add, dst, bitlen, gate);
    }
  }
}
