/** lg_urldecode: percent decoding in place. */
module Urldecode {
  import opened Text

  /** A percent sign at i with two hexadecimal digits behind it. */
  predicate Escape(s: string, i: nat) {
    i + 2 < |s| && s[i] == '%' && IsXDigit(s[i + 1]) && IsXDigit(s[i + 2])
  }

  function CodeAt(s: string, i: nat): (c: char)
    requires Escape(s, i)
    ensures c != NUL
  {
    var code := 16 * XValue(s[i + 1]) + XValue(s[i + 2]);
    if code == 0 then ' ' else code as char
  }

  /** What stands at position i, and how many characters it takes. */
  function Piece(s: string, i: nat): (char, nat)
    requires i < |s|
  {
    if Escape(s, i) then (CodeAt(s, i), 3)
    else if s[i] == '+' then (' ', 1)
    else (s[i], 1)
  }

  /** The text s stands for from position i on. */
  function Decode(s: string, i: nat): (r: string)
    requires i <= |s|
    ensures |r| <= |s| - i
    decreases |s| - i
  {
    if i == |s| then "" else [Piece(s, i).0] + Decode(s, i + Piece(s, i).1)
  }

  lemma DecodeStep(done: string, s: string, i: nat)
    requires i < |s|
    ensures done + Decode(s, i) == done + [Piece(s, i).0] + Decode(s, i + Piece(s, i).1)
  {
  }

  lemma {:induction false} DecodeNulFree(s: string, i: nat)
    requires i <= |s| && NulFree(s)
    ensures NulFree(Decode(s, i))
    decreases |s| - i
  {
    if i < |s| {
      DecodeNulFree(s, i + Piece(s, i).1);
    }
  }

  /** The decoder over the buffer of a C string of length n. A plus sign is first turned into a blank,
      which the next turn copies, so that a turn either advances or takes a plus sign away. */
  method LgUrldecode(str: array<char>, n: nat) returns (c: nat)
    requires n < str.Length && str[n] == NUL && NulFree(str[..n])
    modifies str
    ensures c <= n && str[c] == NUL && str[..c] == Decode(old(str[..n]), 0)
    ensures NulFree(str[..c])
    ensures forall k :: n < k < str.Length ==> str[k] == old(str[k])
  {
    ghost var s := str[..n];
    DecodeNulFree(s, 0);
    var i := 0;
    c := 0;
    assert [] + Decode(s, 0) == Decode(s, 0);
    while i < n
      invariant c <= i <= n && Unread(str, n, s, i)
      invariant forall k :: n <= k < str.Length ==> str[k] == old(str[k])
      invariant str[..c] + Decode(s, i) == Decode(s, 0)
      decreases n - i, if i < n && str[i] == '+' then 1 else 0
    {
      DecodeStep(str[..c], s, i);
      if str[i] == '%' && (n == 1 || i <= n - 2) {
        c, i := Percent(str, n, i, c, s);
      } else if str[i] == '+' {
        ghost var done := str[..c];
        str[i] := ' ';
        assert str[..c] == done;
      } else {
        c, i := Copy(str, n, i, c, s);
      }
    }
    str[c] := NUL;
  }

  /** From i on the buffer is the text, but that a plus sign at i may have become a blank. */
  ghost predicate Unread(str: array<char>, n: nat, s: string, i: nat)
    reads str
  {
    && |s| == n < str.Length && str[n] == NUL
    && (forall k :: i < k < n ==> str[k] == s[k])
    && (i < n ==> str[i] == s[i] || (s[i] == '+' && str[i] == ' '))
  }

  method Put(str: array<char>, c: nat, ch: char)
    requires c < str.Length
    modifies str
    ensures str[..c + 1] == old(str[..c]) + [ch]
    ensures forall k :: c < k < str.Length ==> str[k] == old(str[k])
  {
    str[c] := ch;
  }

  /** The turn at any other character: it is copied. */
  method Copy(str: array<char>, n: nat, i: nat, c: nat, ghost s: string) returns (c': nat, i': nat)
    requires c <= i < n && Unread(str, n, s, i) && str[i] != '+' && !Escape(s, i)
    modifies str
    ensures c' == c + 1 && i' == i + Piece(s, i).1 && c' <= i' <= n && Unread(str, n, s, i')
    ensures str[..c'] == old(str[..c]) + [Piece(s, i).0]
    ensures forall k :: n <= k < str.Length ==> str[k] == old(str[k])
  {
    if c != i {
      Put(str, c, str[i]);
    } else {
      assert str[..c + 1] == str[..c] + [str[c]];
    }
    c', i' := c + 1, i + 1;
  }

  /** The turn at a percent sign: a code, or the sign itself. */
  method Percent(str: array<char>, n: nat, i: nat, c: nat, ghost s: string) returns (c': nat, i': nat)
    requires c <= i < n && Unread(str, n, s, i) && str[i] == '%' && (n == 1 || i <= n - 2)
    modifies str
    ensures c' == c + 1 && i' == i + Piece(s, i).1 && c' <= i' <= n && Unread(str, n, s, i')
    ensures str[..c'] == old(str[..c]) + [Piece(s, i).0]
    ensures forall k :: n <= k < str.Length ==> str[k] == old(str[k])
  {
    if IsXDigit(str[i + 1]) && IsXDigit(str[i + 2]) {
      assert Escape(s, i);
      var result := 16 * XValue(str[i + 1]) + XValue(str[i + 2]);
      if result == 0 {
        result := ' ' as int;
      }
      Put(str, c, result as char);
      c', i' := c + 1, i + 3;
    } else {
      assert !Escape(s, i);
      Put(str, c, '%');
      c', i' := c + 1, i + 1;
    }
  }

  // ---- percent encoding ----

  /** How a piece of a text is written: a character as it is, a byte in two hexadecimal digits of either
      case, a blank as a plus sign, or a percent sign with no two such digits behind it. */
  datatype Unit = Literal(c: char) | Hex(b: char, hi: char, lo: char) | Plus | Stray

  predicate Proper(u: Unit) {
    match u
    case Literal(c) => c != '%' && c != '+' && c != NUL
    case Hex(b, hi, lo) => Byte(b) && HexDigitOf(hi, b as int / 16) && HexDigitOf(lo, b as int % 16)
    case _ => true
  }

  function UnitText(u: Unit): (s: string)
    ensures s != ""
  {
    match u
    case Literal(c) => [c]
    case Hex(_, hi, lo) => ['%', hi, lo]
    case Plus => "+"
    case Stray => "%"
  }

  /** What a unit stands for; a written NUL is read as a blank. */
  function Meaning(u: Unit): char {
    match u
    case Literal(c) => c
    case Hex(b, _, _) => if b == NUL then ' ' else b
    case Plus => ' '
    case Stray => '%'
  }

  function Encoded(us: seq<Unit>): string {
    if us == [] then "" else UnitText(us[0]) + Encoded(us[1..])
  }

  function Meanings(us: seq<Unit>): string {
    if us == [] then "" else [Meaning(us[0])] + Meanings(us[1..])
  }

  predicate StartsHex(s: string) {
    |s| >= 2 && IsXDigit(s[0]) && IsXDigit(s[1])
  }

  /** Proper units, and no percent sign that what follows it makes an escape. */
  predicate Spelled(us: seq<Unit>) {
    us != [] ==>
      && Proper(us[0]) && Spelled(us[1..])
      && (us[0] == Stray ==> !StartsHex(Encoded(us[1..])))
  }

  lemma HexRead(u: Unit, s: string, i: nat)
    requires u.Hex? && Proper(u) && i + 2 < |s| && s[i] == '%' && s[i + 1] == u.hi && s[i + 2] == u.lo
    ensures Piece(s, i) == (Meaning(u), 3)
  {
    HexDigitsAre(u.hi, u.b as int / 16);
    HexDigitsAre(u.lo, u.b as int % 16);
  }

  lemma UnitRead(u: Unit, before: string, after: string)
    requires Proper(u) && (u == Stray ==> !StartsHex(after))
    ensures Piece(before + UnitText(u) + after, |before|) == (Meaning(u), |UnitText(u)|)
  {
    var s, i := before + UnitText(u) + after, |before|;
    assert s[i] == UnitText(u)[0];
    if u.Hex? {
      assert s[i + 1] == u.hi && s[i + 2] == u.lo;
      HexRead(u, s, i);
    } else if u == Stray {
      assert |after| >= 2 ==> s[i + 1] == after[0] && s[i + 2] == after[1];
    }
  }

  lemma {:induction false} EncodedFrom(us: seq<Unit>, before: string, s: string)
    requires Spelled(us) && s == before + Encoded(us)
    ensures Decode(s, |before|) == Meanings(us)
    decreases |us|
  {
    if us == [] {
      assert s == before;
    } else {
      var u, rest := us[0], us[1..];
      assert s == before + UnitText(u) + Encoded(rest);
      UnitRead(u, before, Encoded(rest));
      EncodedFrom(rest, before + UnitText(u), s);
    }
  }

  /** Decoding undoes percent encoding, whichever way each character is written. */
  lemma EncodingRestored(us: seq<Unit>)
    requires Spelled(us)
    ensures Decode(Encoded(us), 0) == Meanings(us)
  {
    EncodedFrom(us, "", Encoded(us));
  }

  function HexUnit(hi: char, lo: char): (u: Unit)
    requires IsXDigit(hi) && IsXDigit(lo)
    ensures Proper(u) && UnitText(u) == ['%', hi, lo]
  {
    HexDigitsAre(hi, XValue(hi));
    HexDigitsAre(lo, XValue(lo));
    Hex(FromDigits(XValue(hi), XValue(lo)), hi, lo)
  }

  /** The unit a text starts with. */
  function FirstUnit(s: string): (u: Unit)
    requires s != "" && NulFree(s)
    ensures Proper(u) && UnitText(u) <= s && (u == Stray ==> !StartsHex(s[1..]))
  {
    if s[0] == '%' then
      if StartsHex(s[1..]) then
        assert s[1] == s[1..][0] && s[2] == s[1..][1];
        HexUnit(s[1], s[2])
      else Stray
    else if s[0] == '+' then Plus
    else Literal(s[0])
  }

  /** The units of a text. */
  function Spelling(s: string): seq<Unit>
    requires NulFree(s)
    decreases |s|
  {
    if s == "" then []
    else
      var u := FirstUnit(s);
      [u] + Spelling(s[|UnitText(u)|..])
  }

  /** Every C string is such an encoding, so that the decoding of every query is known. */
  lemma {:induction false} EveryTextSpelled(s: string)
    requires NulFree(s)
    ensures Spelled(Spelling(s)) && Encoded(Spelling(s)) == s
    decreases |s|
  {
    if s != "" {
      var u := FirstUnit(s);
      var rest := s[|UnitText(u)|..];
      EveryTextSpelled(rest);
      assert Spelling(s)[1..] == Spelling(rest);
      assert s == UnitText(u) + rest;
    }
  }

  /** A way to write every text of bytes other than NUL. */
  function EncodeAll(s: string): (us: seq<Unit>)
    requires forall i :: 0 <= i < |s| ==> Byte(s[i])
  {
    if s == "" then []
    else
      assert Byte(s[0]);
      [Hex(s[0], XDigit(s[0] as int / 16), XDigit(s[0] as int % 16))] + EncodeAll(s[1..])
  }

  lemma {:induction false} EncodeAllMeans(s: string)
    requires NulFree(s) && forall i :: 0 <= i < |s| ==> Byte(s[i])
    ensures Spelled(EncodeAll(s)) && Meanings(EncodeAll(s)) == s
  {
    if s != "" {
      HexDigitsAre(XDigit(s[0] as int / 16), s[0] as int / 16);
      HexDigitsAre(XDigit(s[0] as int % 16), s[0] as int % 16);
      EncodeAllMeans(s[1..]);
      assert EncodeAll(s)[1..] == EncodeAll(s[1..]);
    }
  }

  /** Every NUL-free text comes back from its percent encoding. */
  lemma TextRestored(s: string)
    requires NulFree(s) && forall i :: 0 <= i < |s| ==> Byte(s[i])
    ensures Decode(Encoded(EncodeAll(s)), 0) == s
  {
    EncodeAllMeans(s);
    EncodingRestored(EncodeAll(s));
  }
}
