/** C characters and strings, and the number formats the shell reads and prints.
    A C string is modelled as the characters before its NUL. */
module Text {
  datatype Option<+T> = None | Some(value: T)

  const NUL: char := '\0'

  /** A C string holds no NUL of its own. */
  predicate NulFree(s: string) {
    forall i :: 0 <= i < |s| ==> s[i] != NUL
  }

  /** The character a C pointer at offset i sees: the terminator is one past the text. */
  function At(s: string, i: nat): char
    requires i <= |s|
  {
    if i < |s| then s[i] else NUL
  }

  /** isspace in the C locale. */
  predicate IsSpace(c: char) {
    c == ' ' || 9 <= c as int <= 13
  }

  predicate IsDigit(c: char) {
    '0' <= c <= '9'
  }

  /** isprint in the C locale: 7-bit, not a control character. */
  predicate IsPrint(c: char) {
    ' ' <= c <= '~'
  }

  function LowerChar(c: char): char {
    if 'A' <= c <= 'Z' then (c as int + 32) as char else c
  }

  /** strcasecmp(a, b) == 0 */
  predicate SameWord(a: string, b: string) {
    |a| == |b| && forall i :: 0 <= i < |a| ==> LowerChar(a[i]) == LowerChar(b[i])
  }

  /** NO_ARG */
  predicate NoArg(s: string) {
    SameWord(s, "no")
  }

  lemma CapitalAt(k: nat)
    requires k < 26
    ensures "ABCDEFGHIJKLMNOPQRSTUVWXYZ"[k] as int == 65 + k
  {
  }

  lemma SmallAt(k: nat)
    requires k < 26
    ensures "abcdefghijklmnopqrstuvwxyz"[k] as int == 97 + k
  {
  }

  /** The capital letters and their small ones; any other character is its own. */
  lemma LettersAre(c: char, k: nat)
    requires k < 26
    ensures LowerChar("ABCDEFGHIJKLMNOPQRSTUVWXYZ"[k]) == "abcdefghijklmnopqrstuvwxyz"[k]
    ensures c !in "ABCDEFGHIJKLMNOPQRSTUVWXYZ" ==> LowerChar(c) == c
  {
    CapitalAt(k);
    SmallAt(k);
    NoCapital(c);
  }

  lemma NoCapital(c: char)
    ensures c !in "ABCDEFGHIJKLMNOPQRSTUVWXYZ" ==> LowerChar(c) == c
  {
    if 'A' <= c <= 'Z' {
      CapitalAt(c as int - 65);
    }
  }

  /** The blanks: space, and the characters from tab to carriage return. */
  lemma BlanksAre(c: char)
    ensures IsSpace(c) <==> c == ' ' || c == 9 as char || c == '\n' || c == 11 as char || c == 12 as char || c == '\r'
  {
    assert c as int == 9 ==> c == 9 as char;
    assert c as int == 11 ==> c == 11 as char;
    assert c as int == 12 ==> c == 12 as char;
  }

  /** The word no, in any case. */
  lemma NoArgIs(s: string)
    ensures NoArg(s) <==> s == "no" || s == "No" || s == "nO" || s == "NO"
  {
    assert "no"[0] == 'n' && "no"[1] == 'o';
    if NoArg(s) {
      assert LowerChar(s[0]) == 'n' && LowerChar(s[1]) == 'o';
      assert s == [s[0], s[1]];
    }
  }

  /** strlcpy into a buffer of the given size keeps what fits before the terminator. */
  function Strlcpy(s: string, size: nat): (r: string)
    requires size > 0
    ensures r <= s && |r| < size && (|s| < size ==> r == s) && (|s| >= size ==> |r| == size - 1)
  {
    if |s| < size then s else s[..size - 1]
  }

  /** The size of the temporary strings a configuration is written through. */
  const TMPSIZ := 1024

  /** A word makeargv takes as it is written: no blank, quote or backslash in it. */
  predicate PlainChar(c: char) {
    c != NUL && !IsSpace(c) && c != '\\' && c != '"' && c != '\''
  }

  predicate Plain(s: string) {
    |s| > 0 && forall i :: 0 <= i < |s| ==> PlainChar(s[i])
  }

  function Flatten(parts: seq<string>): string {
    if parts == [] then "" else parts[0] + Flatten(parts[1..])
  }

  lemma {:induction false} FlattenAppend(a: seq<string>, b: seq<string>)
    ensures Flatten(a + b) == Flatten(a) + Flatten(b)
  {
    if a == [] {
      assert a + b == b;
    } else {
      assert (a + b)[1..] == a[1..] + b;
      FlattenAppend(a[1..], b);
    }
  }

  // ---- cutting at a character ----

  /** Where the first c in s is, or the length of s. */
  function Find(s: string, c: char): (k: nat)
    ensures k <= |s| && c !in s[..k] && (k < |s| ==> s[k] == c)
  {
    if s == "" || s[0] == c then 0
    else
      var k := 1 + Find(s[1..], c);
      assert s[..k] == [s[0]] + s[1..][..k - 1];
      k
  }

  function Parts(s: string, c: char): (ps: seq<string>)
    ensures ps != []
    decreases |s|
  {
    var k := Find(s, c);
    if k == |s| then [s] else [s[..k]] + Parts(s[k + 1..], c)
  }

  lemma {:induction false} FindAt(a: string, c: char, rest: string)
    requires c !in a
    ensures Find(a + [c] + rest, c) == |a| && Find(a, c) == |a|
  {
    var s := a + [c] + rest;
    if a != "" {
      assert s[0] == a[0] && s[1..] == a[1..] + [c] + rest;
      FindAt(a[1..], c, rest);
    }
  }

  lemma NextPiece(a: string, c: char, rest: string)
    requires c !in a
    ensures Parts(a + ([c] + rest), c) == [a] + Parts(rest, c)
    ensures Parts(a, c) == [a]
  {
    FindAt(a, c, rest);
    var s := a + ([c] + rest);
    assert s == a + [c] + rest;
    assert s[..|a|] == a && s[|a| + 1..] == rest;
  }

  /** Words with c between them. */
  function Join(ws: seq<string>, c: char): string {
    if ws == [] then "" else if |ws| == 1 then ws[0] else ws[0] + ([c] + Join(ws[1..], c))
  }

  lemma {:induction false} PartsOfJoin(ws: seq<string>, c: char)
    requires ws != [] && forall i :: 0 <= i < |ws| ==> c !in ws[i]
    ensures Parts(Join(ws, c), c) == ws
  {
    NextPiece(ws[0], c, Join(ws[1..], c));
    if |ws| > 1 {
      PartsOfJoin(ws[1..], c);
    }
  }

  lemma JoinFirst(w: string, ws: seq<string>, c: char)
    requires ws != []
    ensures Join([w] + ws, c) == w + ([c] + Join(ws, c))
  {
    assert ([w] + ws)[1..] == ws;
  }

  lemma CutAt(s: string, k: nat)
    requires k < |s|
    ensures s == s[..k] + ([s[k]] + s[k + 1..])
  {
  }

  lemma {:induction false} JoinOfParts(s: string, c: char)
    ensures Join(Parts(s, c), c) == s
    decreases |s|
  {
    var k := Find(s, c);
    if k < |s| {
      JoinOfParts(s[k + 1..], c);
      JoinFirst(s[..k], Parts(s[k + 1..], c), c);
      CutAt(s, k);
    }
  }

  // ---- decimal numbers ----

  function DigitChar(d: nat): char
    requires d < 10
  {
    ('0' as int + d) as char
  }

  function DigitValue(c: char): nat
    requires IsDigit(c)
  {
    c as int - '0' as int
  }

  /** Which character is which digit. */
  lemma DigitsAre(d: nat)
    requires d < 10
    ensures DigitChar(d) == "0123456789"[d] && IsDigit("0123456789"[d]) && DigitValue("0123456789"[d]) == d
  {
    assert DigitChar(d) == "0123456789"[d];
  }

  predicate AllDigits(s: string) {
    forall i :: 0 <= i < |s| ==> IsDigit(s[i])
  }

  /** %d of a non-negative number. */
  function DecimalNat(n: nat): (s: string)
    ensures |s| > 0 && AllDigits(s)
  {
    if n < 10 then [DigitChar(n)] else DecimalNat(n / 10) + [DigitChar(n % 10)]
  }

  /** %d */
  function Decimal(n: int): string {
    if n < 0 then "-" + DecimalNat(-n) else DecimalNat(n)
  }

  function DigitsValue(s: string): nat
    requires AllDigits(s)
  {
    if s == "" then 0 else 10 * DigitsValue(s[..|s| - 1]) + DigitValue(s[|s| - 1])
  }

  lemma {:induction false} DigitsOfDecimal(n: nat)
    ensures DigitsValue(DecimalNat(n)) == n
  {
    if n >= 10 {
      DigitsOfDecimal(n / 10);
      assert DecimalNat(n)[..|DecimalNat(n)| - 1] == DecimalNat(n / 10);
    } else {
      assert DecimalNat(n)[..0] == "";
    }
  }

  const ULONG_MAX := 0xFFFF_FFFF

  /** strtoul stops at the greatest unsigned long; storing it in an int wraps. */
  function ToInt(v: nat): (r: int)
    ensures -0x8000_0000 <= r < 0x8000_0000 && (v < 0x8000_0000 ==> r == v)
    ensures 0x8000_0000 <= v ==> r - (if v > ULONG_MAX then ULONG_MAX else v) == -0x1_0000_0000
  {
    var u := if v > ULONG_MAX then ULONG_MAX else v;
    if u < 0x8000_0000 then u else u - 0x1_0000_0000
  }

  function SkipSpaces(s: string): (r: string)
    ensures r == "" || !IsSpace(r[0])
    ensures |r| <= |s|
  {
    if s != "" && IsSpace(s[0]) then SkipSpaces(s[1..]) else s
  }

  /** strtonum: blanks, one optional sign, decimal digits to the end, and the range test. */
  function Strtonum(s: string, lo: int, hi: int): (r: Option<int>)
    ensures r.Some? ==> lo <= r.value <= hi
  {
    var t := SkipSpaces(s);
    var signed := t != "" && (t[0] == '-' || t[0] == '+');
    var digits := if signed then t[1..] else t;
    if digits == "" || !AllDigits(digits) then None
    else
      var v := (if signed && t[0] == '-' then -1 else 1) * DigitsValue(digits);
      if lo <= v <= hi then Some(v) else None
  }

  lemma StrtonumOfDigits(digits: string, minus: bool, lo: int, hi: int)
    requires digits != "" && AllDigits(digits)
    ensures var v := (if minus then -1 else 1) * DigitsValue(digits);
      Strtonum(if minus then "-" + digits else digits, lo, hi) == if lo <= v <= hi then Some(v) else None
  {
    var t := if minus then "-" + digits else digits;
    assert minus ==> t[1..] == digits;
    assert !minus ==> IsDigit(t[0]);
  }

  /** A printed number is read back exactly when it is in range. */
  lemma StrtonumOfDecimal(n: int, lo: int, hi: int)
    ensures Strtonum(Decimal(n), lo, hi) == if lo <= n <= hi then Some(n) else None
  {
    var v := if n < 0 then -n else n;
    DigitsOfDecimal(v);
    StrtonumOfDigits(DecimalNat(v), n < 0, lo, hi);
  }

  lemma DecimalPlain(n: int)
    ensures Plain(Decimal(n)) && NulFree(Decimal(n))
  {
    var digits := DecimalNat(if n < 0 then -n else n);
    assert forall i :: 0 <= i < |digits| ==> IsDigit(digits[i]);
  }

  // ---- two-digit hexadecimal bytes ----

  predicate IsXDigit(c: char) {
    '0' <= c <= '9' || 'a' <= c <= 'f' || 'A' <= c <= 'F'
  }

  function XValue(c: char): (v: nat)
    requires IsXDigit(c)
    ensures v < 16
  {
    if c <= '9' then c as int - '0' as int
    else if c <= 'F' then c as int - 'A' as int + 10
    else c as int - 'a' as int + 10
  }

  /** c is the hexadecimal digit v, in either case. */
  predicate HexDigitOf(c: char, v: nat) {
    v < 16 && (c == "0123456789ABCDEF"[v] || c == "0123456789abcdef"[v])
  }

  /** The hexadecimal digits, and what each of them stands for. */
  lemma HexDigitsAre(c: char, v: nat)
    requires v < 16
    ensures HexDigitOf(c, v) <==> IsXDigit(c) && XValue(c) == v
    ensures XDigit(v) == "0123456789abcdef"[v]
  {
    var upper, lower := "0123456789ABCDEF"[v], "0123456789abcdef"[v];
    assert upper as int == if v < 10 then '0' as int + v else 'A' as int + v - 10;
    assert lower as int == if v < 10 then '0' as int + v else 'a' as int + v - 10;
  }

  function XDigit(v: nat): (c: char)
    requires v < 16
    ensures IsXDigit(c) && XValue(c) == v
  {
    if v < 10 then ('0' as int + v) as char else ('a' as int + v - 10) as char
  }

  predicate Byte(c: char) {
    c as int < 256
  }

  /** The byte of two hexadecimal digits. */
  function FromDigits(v: nat, w: nat): (c: char)
    requires v < 16 && w < 16
    ensures Byte(c) && c as int / 16 == v && c as int % 16 == w
  {
    (16 * v + w) as char
  }

  /** %02x */
  function Hex2(c: char): (s: string)
    requires Byte(c)
    ensures |s| == 2 && IsXDigit(s[0]) && IsXDigit(s[1])
    ensures 16 * XValue(s[0]) + XValue(s[1]) == c as int
  {
    [XDigit(c as int / 16), XDigit(c as int % 16)]
  }

  /** The two hexadecimal digits of c, in any case, at position i. */
  predicate PairOf(s: string, i: nat, c: char) {
    Byte(c) && i + 1 < |s| && HexDigitOf(s[i], c as int / 16) && HexDigitOf(s[i + 1], c as int % 16)
  }

  /** The same by the values of the digits. */
  predicate PairValue(s: string, i: nat, c: char) {
    i + 1 < |s| && IsXDigit(s[i]) && IsXDigit(s[i + 1]) && 16 * XValue(s[i]) + XValue(s[i + 1]) == c as int
  }

  lemma PairIsValue(s: string, i: nat, c: char)
    ensures PairOf(s, i, c) <==> PairValue(s, i, c)
  {
    if PairOf(s, i, c) {
      HexDigitsAre(s[i], c as int / 16);
      HexDigitsAre(s[i + 1], c as int % 16);
    }
    if PairValue(s, i, c) {
      var v, w := XValue(s[i]), XValue(s[i + 1]);
      assert c == FromDigits(v, w);
      HexDigitsAre(s[i], v);
      HexDigitsAre(s[i + 1], w);
    }
  }
}
