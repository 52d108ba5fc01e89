/** Network names: make_string prints a byte string as a word of the configuration language, and
    get_string reads a word back. */
module Nwid {
  import opened Text
  import opened Tokens
  import opened Interface

  /** IEEE80211_NWID_LEN, a constant of the kernel headers. */
  const NWID_LEN := 32

  type Bytes = string

  predicate AllBytes(buf: Bytes) {
    forall i :: 0 <= i < |buf| ==> Byte(buf[i])
  }

  /** The text starts like a hexadecimal string. */
  predicate HexPrefix(s: string) {
    |s| >= 2 && s[0] == '0' && (s[1] == 'x' || s[1] == 'X')
  }

  // ---- printing ----

  /** The first byte from i on that is not printable, or |buf|. */
  function Unprintable(buf: Bytes, i: nat): (p: nat)
    requires i <= |buf|
    ensures i <= p <= |buf|
    ensures p < |buf| ==> !IsPrint(buf[p])
    ensures forall k :: i <= k < p ==> IsPrint(buf[k])
    decreases |buf| - i
  {
    if i == |buf| || !IsPrint(buf[i]) then i else Unprintable(buf, i + 1)
  }

  predicate HasBlank(buf: Bytes) {
    exists i :: 0 <= i < |buf| && IsSpace(buf[i])
  }

  datatype Form = Bare | Quoted | Hex

  function FormOf(buf: Bytes): Form {
    if HexPrefix(buf) || Unprintable(buf, 0) < |buf| then Hex
    else if HasBlank(buf) || buf == "" then Quoted
    else Bare
  }

  function HexDigits(buf: Bytes, n: nat): (s: string)
    requires n <= |buf| && AllBytes(buf)
    ensures |s| == 2 * n
  {
    if n == 0 then "" else HexDigits(buf, n - 1) + Hex2(buf[n - 1])
  }

  function Printed(buf: Bytes): string
    requires AllBytes(buf)
  {
    match FormOf(buf)
    case Bare => buf
    case Quoted => "\"" + buf + "\""
    case Hex => "0x" + HexDigits(buf, |buf|)
  }

  /** make_string, into a buffer of size strLen that it uses short of its last byte. */
  method MakeString(buf: Bytes, strLen: nat) returns (str: string)
    requires AllBytes(buf) && strLen > 4
    ensures str == Strlcpy(Printed(buf), strLen - 1)
  {
    var i, hasspc := 0, false;
    if !HexPrefix(buf) {
      while i < |buf|
        invariant i <= |buf| && Unprintable(buf, 0) == Unprintable(buf, i)
        invariant hasspc == exists k :: 0 <= k < i && IsSpace(buf[k])
      {
        if !IsPrint(buf[i]) {
          break;
        }
        if IsSpace(buf[i]) {
          hasspc := true;
        }
        i := i + 1;
      }
    }
    if i == |buf| {
      assert FormOf(buf) == if hasspc || |buf| == 0 then Quoted else Bare;
      str := Strlcpy(if hasspc || |buf| == 0 then "\"" + buf + "\"" else buf, strLen - 1);
    } else {
      assert FormOf(buf) == Hex;
      str := AppendHex(buf, strLen - 1);
    }
  }

  /** A network name never outgrows the temporary string it is printed into. */
  lemma PrintedFits(buf: Bytes)
    requires AllBytes(buf) && |buf| <= NWID_LEN
    ensures |Printed(buf)| <= 2 * NWID_LEN + 2
    ensures Strlcpy(Printed(buf), TMPSIZ - 1) == Printed(buf)
  {
    assert FormOf(buf) == Hex ==> |Printed(buf)| == 2 + 2 * |buf|;
  }

  /** A printable text without blanks is printed as it is, unless it begins like a hexadecimal string; one
      with blanks, and the empty one, in double quotes; any other bytes in hexadecimal. */
  lemma PrintedIs(buf: Bytes)
    requires AllBytes(buf)
    ensures var printable := forall i :: 0 <= i < |buf| ==> ' ' <= buf[i] <= '~';
      var hexlike := |buf| >= 2 && buf[0] == '0' && (buf[1] == 'x' || buf[1] == 'X');
      if printable && !hexlike && buf != "" && ' ' !in buf then Printed(buf) == buf
      else if printable && !hexlike then Printed(buf) == "\"" + buf + "\""
      else Printed(buf) == "0x" + HexDigits(buf, |buf|)
  {
    AllPrintable(buf);
  }

  lemma AllPrintable(buf: Bytes)
    ensures Unprintable(buf, 0) == |buf| <==> forall i :: 0 <= i < |buf| ==> ' ' <= buf[i] <= '~'
    ensures Unprintable(buf, 0) == |buf| ==> (HasBlank(buf) <==> ' ' in buf)
  {
  }

  lemma StrlcpyTwice(a: string, b: string, size: nat)
    requires size > 0
    ensures Strlcpy(Strlcpy(a, size) + b, size) == Strlcpy(a + b, size)
  {
  }

  method AppendHex(buf: Bytes, size: nat) returns (str: string)
    requires AllBytes(buf) && size > 3
    ensures str == Strlcpy("0x" + HexDigits(buf, |buf|), size)
  {
    str := "0x";
    for i := 0 to |buf|
      invariant str == Strlcpy("0x" + HexDigits(buf, i), size)
    {
      StrlcpyTwice("0x" + HexDigits(buf, i), Hex2(buf[i]), size);
      assert "0x" + HexDigits(buf, i) + Hex2(buf[i]) == "0x" + HexDigits(buf, i + 1);
      str := Strlcpy(str + Hex2(buf[i]), size);
    }
  }

  // ---- reading ----

  /** One turn of get_string: the text ends, is refused, or gives a byte for k characters. */
  datatype Turn = End | Refused | Store(c: char, k: nat)

  function NextByte(val: string, i: nat, hexstr: bool, n: nat, len: nat): (t: Turn)
    requires i <= |val|
    ensures t.Store? ==> 0 < t.k && i + t.k <= |val|
    ensures t == End <==> i == |val|
  {
    if i == |val| then End
    else if hexstr && (!IsXDigit(val[i]) || !IsXDigit(At(val, i + 1))) then Refused
    else if n > len then Refused
    else if hexstr then Store((16 * XValue(val[i]) + XValue(val[i + 1])) as char, 2)
    else Store(val[i], 1)
  }

  /** The bytes read from i on, when n have been stored and len are expected. */
  function ReadFrom(val: string, i: nat, hexstr: bool, n: nat, len: nat): Option<Bytes>
    requires i <= |val|
    decreases |val| - i
  {
    match NextByte(val, i, hexstr, n, len)
    case End => Some("")
    case Refused => None
    case Store(c, k) => After([c], ReadFrom(val, i + k, hexstr, n + 1, len))
  }

  function After(head: Bytes, tail: Option<Bytes>): Option<Bytes> {
    if tail.None? then None else Some(head + tail.value)
  }

  /** get_string without a separator: the bytes of a word, or a refusal. */
  function Parsed(val: string, len: nat): Option<Bytes> {
    ReadFrom(val, if HexPrefix(val) then 2 else 0, HexPrefix(val), 0, len)
  }

  lemma AfterBoth(buf: Bytes, c: char, tail: Option<Bytes>)
    ensures After(buf, After([c], tail)) == After(buf + [c], tail)
    ensures After("", tail) == tail
  {
    if tail.Some? {
      assert buf + ([c] + tail.value) == buf + [c] + tail.value;
      assert "" + tail.value == tail.value;
    }
  }

  /** How many bytes have been stored once the reading ends, in a refusal or not. */
  function StoredFrom(val: string, i: nat, hexstr: bool, n: nat, len: nat): nat
    requires i <= |val|
    decreases |val| - i
  {
    match NextByte(val, i, hexstr, n, len)
    case Store(_, k) => StoredFrom(val, i + k, hexstr, n + 1, len)
    case _ => n
  }

  function StoredBytes(val: string, len: nat): nat {
    StoredFrom(val, if HexPrefix(val) then 2 else 0, HexPrefix(val), 0, len)
  }

  /** get_string, into a buffer of len bytes; stored is how far it has been written. */
  method GetString(val: string, len: nat) returns (r: Option<Bytes>, stored: nat)
    requires NulFree(val)
    ensures r == Parsed(val, len) && stored == StoredBytes(val, len)
  {
    var hexstr := At(val, 0) == '0' && (At(val, 1) == 'x' || At(val, 1) == 'X');
    var i, buf := if hexstr then 2 else 0, "";
    AfterBoth("", 'x', Parsed(val, len));
    while i < |val|
      invariant i <= |val| && Parsed(val, len) == After(buf, ReadFrom(val, i, hexstr, |buf|, len))
      invariant StoredBytes(val, len) == StoredFrom(val, i, hexstr, |buf|, len)
      decreases |val| - i
    {
      if hexstr && (!IsXDigit(val[i]) || !IsXDigit(At(val, i + 1))) {
        return None, |buf|;
      }
      if |buf| > len {
        return None, |buf|;
      }
      var c, k := val[i], 1;
      if hexstr {
        c, k := (16 * XValue(val[i]) + XValue(val[i + 1])) as char, 2;
      }
      AfterBoth(buf, c, ReadFrom(val, i + k, hexstr, |buf| + 1, len));
      buf, i := buf + [c], i + k;
    }
    assert buf + "" == buf;
    r, stored := Some(buf), |buf|;
  }

  // ---- how far the buffer is written ----

  /** The number of bytes the text asks for, up to its end or to a bad hexadecimal digit. */
  function Asked(val: string, i: nat, hexstr: bool): nat
    requires i <= |val|
    decreases |val| - i
  {
    if i == |val| then 0
    else if !hexstr then 1 + Asked(val, i + 1, hexstr)
    else if !IsXDigit(val[i]) || !IsXDigit(At(val, i + 1)) then 0
    else 1 + Asked(val, i + 2, hexstr)
  }

  lemma {:induction false} StoredIsAsked(val: string, i: nat, hexstr: bool, n: nat, len: nat)
    requires i <= |val| && n <= len + 1
    ensures StoredFrom(val, i, hexstr, n, len)
         == if n + Asked(val, i, hexstr) <= len then n + Asked(val, i, hexstr) else len + 1
    decreases |val| - i
  {
    match NextByte(val, i, hexstr, n, len)
    case Store(_, k) => StoredIsAsked(val, i + k, hexstr, n + 1, len);
    case _ =>
  }

  lemma {:induction false} AskedLength(val: string, i: nat, hexstr: bool)
    requires i <= |val|
    ensures if hexstr then 2 * Asked(val, i, hexstr) <= |val| - i else Asked(val, i, hexstr) == |val| - i
    decreases |val| - i
  {
    if i < |val| {
      if !hexstr {
        AskedLength(val, i + 1, hexstr);
      } else if IsXDigit(val[i]) && IsXDigit(At(val, i + 1)) {
        AskedLength(val, i + 2, hexstr);
      }
    }
  }

  /** The check for the end of the buffer lets one byte too many through: the buffer holds what is stored
      exactly when the text asks for no more bytes than it has, and one byte beyond it is the most. A text
      without 0x asks for its own length, one with it for at most half the rest of its length. */
  lemma BufferHolds(val: string, len: nat)
    ensures var asked := Asked(val, if HexPrefix(val) then 2 else 0, HexPrefix(val));
      && (StoredBytes(val, len) <= len <==> asked <= len)
      && StoredBytes(val, len) <= len + 1
      && (if HexPrefix(val) then 2 * asked <= |val| - 2 else asked == |val|)
  {
    StoredIsAsked(val, if HexPrefix(val) then 2 else 0, HexPrefix(val), 0, len);
    AskedLength(val, if HexPrefix(val) then 2 else 0, HexPrefix(val));
  }

  /** One byte too many is not even refused. */
  lemma OneTooMany(val: string, len: nat)
    requires !HexPrefix(val) && |val| == len + 1
    ensures StoredBytes(val, len) == len + 1 && Parsed(val, len) == Some(val)
  {
    BufferHolds(val, len);
    PlainRead(val, 0, len);
    assert val[0..] == val;
  }

  /** A text that is no hexadecimal string is taken as it is, up to one byte more than len. */
  lemma {:induction false} PlainRead(val: string, i: nat, len: nat)
    requires i <= |val| && i <= len + 1
    ensures ReadFrom(val, i, false, i, len) == if |val| <= len + 1 then Some(val[i..]) else None
    decreases |val| - i
  {
    if i < |val| && i <= len {
      PlainRead(val, i + 1, len);
      assert val[i..] == [val[i]] + val[i + 1..];
    }
    assert i == |val| ==> val[i..] == "";
  }

  /** A hexadecimal string gives one byte for two digits. */
  lemma {:induction false} HexLength(val: string, i: nat, n: nat, len: nat)
    requires i <= |val|
    ensures var r := ReadFrom(val, i, true, n, len); r.Some? ==> 2 * |r.value| == |val| - i
    decreases |val| - i
  {
    match NextByte(val, i, true, n, len)
    case End =>
    case Refused =>
    case Store(_, k) => HexLength(val, i + k, n + 1, len);
  }

  /** intnwid: the network name after a line's words. */
  function SetNwid(argv: seq<string>, before: Bytes): Bytes {
    var adding := argv != [] && !NoArg(argv[0]);
    var skip := if adding then 1 else 2;
    var args := if skip <= |argv| then argv[skip..] else [];
    if (adding && |args| != 1) || (!adding && |args| > 1) then before
    else if !adding then ""
    else match Parsed(args[0], NWID_LEN)
      case None => before
      case Some(buf) => buf
  }

  /** The shapes of the command: a name is set to what the word stands for, "no" clears it, and nothing else
      changes it. */
  lemma NwidSet(argv: seq<string>, before: Bytes)
    ensures |argv| == 2 && !NoArg(argv[0]) ==>
      SetNwid(argv, before) == (var r := Parsed(argv[1], NWID_LEN); if r.Some? then r.value else before)
    ensures 1 <= |argv| <= 3 && NoArg(argv[0]) ==> SetNwid(argv, before) == ""
    ensures |argv| > 3 || (|argv| == 3 && !NoArg(argv[0])) || (|argv| == 1 && !NoArg(argv[0])) ==>
      SetNwid(argv, before) == before
  {
  }

  /** A configuration line read in interface mode. */
  function Read(rows: seq<Row>, ifname: string, before: Bytes, line: string): Bytes {
    var argv := Words(line);
    if argv == [] then before
    else match Dispatch(rows, false, ifname, argv)
      case Run(Intnwid, a) => SetNwid(a, before)
      case _ => before
  }

  // ---- the round trip ----

  /** val is 0x or 0X and, for every byte of buf, its two hexadecimal digits in any case. */
  predicate SpellsHex(val: string, buf: Bytes) {
    HexPrefix(val) && |val| == 2 + 2 * |buf| && forall k :: 0 <= k < |buf| ==> PairOf(val, 2 + 2 * k, buf[k])
  }

  predicate Pairs(val: string, i: nat, buf: Bytes) {
    forall k :: 0 <= k < |buf| ==> PairValue(val, i + 2 * k, buf[k])
  }

  lemma SpellsPairs(val: string, buf: Bytes)
    ensures SpellsHex(val, buf) <==> HexPrefix(val) && |val| == 2 + 2 * |buf| && Pairs(val, 2, buf)
  {
    forall k | 0 <= k < |buf|
      ensures PairOf(val, 2 + 2 * k, buf[k]) <==> PairValue(val, 2 + 2 * k, buf[k])
    {
      PairIsValue(val, 2 + 2 * k, buf[k]);
    }
  }

  lemma {:induction false} HexRead(buf: Bytes, n: nat, len: nat, val: string)
    requires |val| == 2 + 2 * |buf| && Pairs(val, 2, buf) && |buf| <= len + 1 && n <= |buf|
    ensures ReadFrom(val, 2 + 2 * n, true, n, len) == Some(buf[n..])
    decreases |buf| - n
  {
    if n < |buf| {
      assert PairValue(val, 2 + 2 * n, buf[n]);
      assert NextByte(val, 2 + 2 * n, true, n, len) == Store(buf[n], 2);
      HexRead(buf, n + 1, len, val);
      assert buf[n..] == [buf[n]] + buf[n + 1..];
    } else {
      assert buf[n..] == [];
    }
  }

  lemma PairThenRest(val: string, i: nat, c: char, rest: Bytes)
    requires PairValue(val, i, c) && Pairs(val, i + 2, rest)
    ensures Pairs(val, i, [c] + rest)
  {
    var buf := [c] + rest;
    forall k | 0 <= k < |buf|
      ensures PairValue(val, i + 2 * k, buf[k])
    {
      if k > 0 {
        assert buf[k] == rest[k - 1] && i + 2 + 2 * (k - 1) == i + 2 * k;
      }
    }
  }

  /** The bytes that were stored were spelled. */
  lemma {:induction false} HexStored(val: string, i: nat, n: nat, len: nat, buf: Bytes)
    requires i <= |val| && n <= len + 1 && ReadFrom(val, i, true, n, len) == Some(buf)
    ensures |val| == i + 2 * |buf| && n + |buf| <= len + 1 && Pairs(val, i, buf)
    decreases |val| - i
  {
    if i < |val| {
      var c, rest := NextByte(val, i, true, n, len).c, ReadFrom(val, i + 2, true, n + 1, len).value;
      HexStored(val, i + 2, n + 1, len, rest);
      PairThenRest(val, i, c, rest);
    }
  }

  /** A text that begins like a hexadecimal string is read as bytes exactly when it is the bytes in
      hexadecimal digits of either case, and they fit. */
  lemma HexParsed(val: string, len: nat, buf: Bytes)
    requires HexPrefix(val)
    ensures Parsed(val, len) == Some(buf) <==> SpellsHex(val, buf) && |buf| <= len + 1
  {
    SpellsPairs(val, buf);
    if SpellsHex(val, buf) && |buf| <= len + 1 {
      HexRead(buf, 0, len, val);
      assert buf[0..] == buf;
    }
    if Parsed(val, len) == Some(buf) {
      HexStored(val, 2, 0, len, buf);
    }
  }

  lemma {:induction false} HexDigitAt(buf: Bytes, i: nat, n: nat)
    requires AllBytes(buf) && i < n <= |buf|
    ensures HexDigits(buf, n)[2 * i] == Hex2(buf[i])[0] && HexDigits(buf, n)[2 * i + 1] == Hex2(buf[i])[1]
  {
    if i < n - 1 {
      HexDigitAt(buf, i, n - 1);
    }
  }

  lemma PairBehind(head: string, digits: string, k: nat)
    requires k + 1 < |digits|
    ensures (head + digits)[|head| + k] == digits[k] && (head + digits)[|head| + k + 1] == digits[k + 1]
  {
  }

  lemma PairAt(buf: Bytes, n: nat, head: string, digits: string)
    requires AllBytes(buf) && n < |buf| && digits == HexDigits(buf, |buf|)
    ensures PairValue(head + digits, |head| + 2 * n, buf[n])
  {
    HexDigitAt(buf, n, |buf|);
    PairBehind(head, digits, 2 * n);
  }

  lemma HexSpelled(buf: Bytes, head: string, digits: string)
    requires AllBytes(buf) && |head| == 2 && digits == HexDigits(buf, |buf|)
    ensures Pairs(head + digits, 2, buf)
  {
    forall n | 0 <= n < |buf|
      ensures PairValue(head + digits, 2 + 2 * n, buf[n])
    {
      PairAt(buf, n, head, digits);
    }
  }

  lemma {:induction false} HexPlain(buf: Bytes, n: nat)
    requires AllBytes(buf) && n <= |buf|
    ensures forall i :: 0 <= i < 2 * n ==> IsXDigit(HexDigits(buf, n)[i])
  {
    if n > 0 {
      HexPlain(buf, n - 1);
    }
  }

  /** Printing and parsing undo each other: the test for a leading 0x in the printer keeps a bare or
      quoted text from being read as hexadecimal. */
  lemma ParsedPrinted(buf: Bytes)
    requires AllBytes(buf) && |buf| <= NWID_LEN
    ensures FormOf(buf) == Hex ==> Parsed(Printed(buf), NWID_LEN) == Some(buf)
    ensures FormOf(buf) != Hex ==> Parsed(buf, NWID_LEN) == Some(buf)
  {
    HexSpelled(buf, "0x", HexDigits(buf, |buf|));
    HexRead(buf, 0, NWID_LEN, "0x" + HexDigits(buf, |buf|));
    PlainRead(buf, 0, NWID_LEN);
    assert buf[0..] == buf;
  }

  predicate NoQuote(buf: Bytes) {
    forall i :: 0 <= i < |buf| ==> buf[i] != '"'
  }

  /** The first double quote from i on. */
  function FirstQuote(s: string, i: nat): (p: nat)
    requires i <= |s|
    ensures i <= p <= |s|
    ensures p < |s| ==> s[p] == '"'
    ensures forall k :: i <= k < p ==> s[k] != '"'
    decreases |s| - i
  {
    if i == |s| || s[i] == '"' then i else FirstQuote(s, i + 1)
  }

  lemma QuotedWord(buf: Bytes)
    requires NoQuote(buf)
    ensures IsWord("\"" + buf + "\"", buf)
  {
    var n, s := |buf|, "\"" + buf + "\"" + " ";
    assert forall i :: 1 <= i <= n ==> s[i] == buf[i - 1];
    ScanQuoted(s, 1, n + 1, '"');
    assert s[1..n + 1] == buf;
    assert ScanWord(s, n + 2, NUL) == Scan("", n + 2, AtBlank);
    assert NextStep(s, 0, NUL) == Take(1, "", '"');
    assert buf + "" == buf;
  }

  /** A word without newlines stops before the newline that ends the line. */
  lemma StopsBeforeNewline(t: string, s: string, w: Scan)
    requires s == t + "\n" && w == ScanWord(s, 0, NUL) && Newlines(w.text, 0) == 0
    ensures w.pos <= |t|
  {
    NewlinesKept(s, 0, NUL);
    NewlineEnds(t, 0);
    assert Newlines(s, |s|) == 0;
  }

  /** Past an inner quote the rest of a quoted text cannot make up for the dropped quote. */
  lemma RestTooShort(s: string, p: nat, r: Scan)
    requires NulFree(s) && p + 3 <= |s| && s[|s| - 2] == '"' && r == ScanWord(s, p + 1, NUL) && r.pos <= |s| - 1
    ensures |r.text| < |s| - 2 - p
  {
    if |r.text| == r.pos - (p + 1) {
      NothingDropped(s, p + 1);
    }
  }

  lemma QuotedScan(buf: Bytes, s: string, p: nat)
    requires s == "\"" + buf + "\"" + "\n" && p == FirstQuote(s, 1)
    ensures p <= |buf| + 1 && s[|buf| + 1] == '"'
    ensures var r, w := ScanWord(s, p + 1, NUL), ScanWord(s, 0, NUL);
      w.pos == r.pos && |w.text| == p - 1 + |r.text|
    ensures p == |buf| + 1 ==> NoQuote(buf)
  {
    assert s[|buf| + 1] == '"';
    ScanQuoted(s, 1, p, '"');
    assert NextStep(s, 0, NUL) == Take(1, "", '"');
    assert forall i :: 0 <= i < |buf| ==> s[i + 1] == buf[i];
  }

  /** If a quoted text is one word equal to it, its first inner quote is the closing one. */
  lemma QuotedOnce(buf: Bytes, s: string)
    requires NulFree(buf) && (forall i :: 0 <= i < |buf| ==> buf[i] != '\n')
    requires s == "\"" + buf + "\"" + "\n" && ScanWord(s, 0, NUL).text == buf
    ensures NoQuote(buf)
  {
    NoNewlines(buf, 0);
    StopsBeforeNewline("\"" + buf + "\"", s, ScanWord(s, 0, NUL));
    var p := FirstQuote(s, 1);
    QuotedScan(buf, s, p);
    if p <= |buf| {
      RestTooShort(s, p, ScanWord(s, p + 1, NUL));
    }
  }

  /** A quoted text comes back as one word equal to it exactly when it contains no double quote. */
  lemma QuotedRestored(buf: Bytes)
    requires NulFree(buf) && (forall i :: 0 <= i < |buf| ==> buf[i] != '\n')
    ensures Words("\"" + buf + "\"" + "\n") == [buf] <==> NoQuote(buf)
  {
    var s := "\"" + buf + "\"" + "\n";
    if NoQuote(buf) {
      QuotedWord(buf);
      WordThenRest("\"" + buf + "\"", buf, '\n', "");
      assert s == "\"" + buf + "\"" + ['\n'] + "";
      assert Words("") == [];
    }
    if Words(s) == [buf] {
      assert NextPart(s, 0).text == Words(s)[0];
      QuotedOnce(buf, s);
    }
  }

  lemma {:induction false} NoNewlines(s: string, i: nat)
    requires i <= |s| && forall k :: i <= k < |s| ==> s[k] != '\n'
    ensures Newlines(s, i) == 0
    decreases |s| - i
  {
    if i < |s| {
      NoNewlines(s, i + 1);
    }
  }

  /** Which names survive: hexadecimal ones always, quoted ones without a double quote, bare ones that
      are plain words and not the name of the interface itself. */
  predicate Restorable(buf: Bytes, ifname: string) {
    match FormOf(buf)
    case Hex => true
    case Quoted => NoQuote(buf)
    case Bare => Plain(buf) && buf != ifname
  }

  /** A different word is never read as the same bytes. */
  lemma OtherWord(buf: Bytes, raw: string, t: string)
    requires FormOf(buf) != Hex && Words(raw + "\n") == [t] && t != buf
    requires |raw| == |buf| || (|raw| == |buf| + 2 && |buf| > 1)
    ensures Parsed(t, NWID_LEN) != Some(buf)
  {
    var s := raw + "\n";
    var j := FirstStart(s, 0);
    assert t == WordsFrom(s, j)[0];
    assert |t| <= |s|;
    if HexPrefix(t) {
      HexLength(t, 2, 0, NWID_LEN);
    } else {
      PlainRead(t, 0, NWID_LEN);
      assert t[0..] == t;
    }
  }

  /** The words of the printed name, read back. */
  lemma PrintedWords(buf: Bytes)
    requires AllBytes(buf)
    ensures FormOf(buf) == Hex ==> Words(Printed(buf) + "\n") == [Printed(buf)] && IsDigit(Printed(buf)[0])
    ensures FormOf(buf) == Quoted ==> (Words(Printed(buf) + "\n") == [buf] <==> NoQuote(buf)) && !Plain(buf)
    ensures FormOf(buf) == Bare ==> (Words(Printed(buf) + "\n") == [buf] <==> Plain(buf))
  {
    var p := Printed(buf);
    match FormOf(buf)
    case Hex =>
      HexPlain(buf, |buf|);
      assert forall i :: 2 <= i < |p| ==> p[i] == HexDigits(buf, |buf|)[i - 2];
      BareWordRestored(p);
    case Quoted =>
      QuotedRestored(buf);
    case Bare =>
      BareWordRestored(buf);
  }

  /** A network name, written by make_string into the configuration and read back in interface mode
      through makeargv and get_string, is set to the same bytes exactly when it is restorable. */
  lemma NwidRestored(rows: seq<Row>, ifname: string, before: Bytes, buf: Bytes)
    requires Known(rows, false, "nwid", Intnwid) && ProperName(ifname)
    requires AllBytes(buf) && |buf| <= NWID_LEN && before != buf
    ensures Read(rows, ifname, before, Line("nwid", Printed(buf))) == buf <==> Restorable(buf, ifname)
  {
    var p := Printed(buf);
    var rest := Words(p + "\n");
    RawWords("nwid", p);
    PrintedWords(buf);
    DispatchNamed(rows, false, ifname, "nwid", Intnwid, rest);
    assert (["nwid"] + rest)[1..] == rest;
    ParsedPrinted(buf);
    if |rest| == 1 {
      assert rest == [rest[0]];
      if FormOf(buf) != Hex && rest[0] != buf {
        if FormOf(buf) == Quoted {
          TwoBytes(buf);
        }
        OtherWord(buf, p, rest[0]);
      }
    }
  }

  /** A quoted name with a double quote in it has a blank as well. */
  lemma TwoBytes(buf: Bytes)
    requires FormOf(buf) == Quoted && !NoQuote(buf)
    ensures |buf| > 1
  {
    var i :| 0 <= i < |buf| && IsSpace(buf[i]);
    assert buf[i] != '"';
  }
}
