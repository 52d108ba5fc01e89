/** Bridge filter rules: bridge_showrule prints a rule, bridge_rule parses one. */
module Bridge {
  import opened Text

  /** PF_TAG_NAME_SIZE and IFNAMSIZ, constants of the system headers. */
  const TAG_SIZE := 64
  const IFNAMSIZ := 16

  datatype Direction = In | Out | InOut

  /** An ifbrlreq with both of its mandatory parts; absent addresses are None, an absent tag is "". */
  datatype Rule = Rule(pass: bool, dir: Direction, ifs: string, src: Option<Mac>, dst: Option<Mac>, tag: string)

  /** Six bytes. */
  type Mac = m: string | |m| == 6 && forall i :: 0 <= i < 6 ==> Byte(m[i])
    witness "abcdef"

  // ---- addresses ----

  /** The first k bytes in hexadecimal, with colons between them. */
  function Ntoa(m: Mac, k: nat): (s: string)
    requires 0 < k <= 6
    ensures |s| == 3 * k - 1
  {
    if k == 1 then Hex2(m[0]) else Ntoa(m, k - 1) + ":" + Hex2(m[k - 1])
  }

  function EtherNtoa(m: Mac): (s: string) {
    Ntoa(m, 6)
  }

  /** Two hexadecimal digits at position i. */
  predicate HexAt(s: string, i: nat) {
    i + 1 < |s| && IsXDigit(s[i]) && IsXDigit(s[i + 1])
  }

  function ByteAt(s: string, i: nat): (c: char)
    requires HexAt(s, i)
    ensures Byte(c)
  {
    (16 * XValue(s[i]) + XValue(s[i + 1])) as char
  }

  /** The form of ether_aton's input that ether_ntoa writes. */
  predicate IsEther(s: string) {
    && |s| == 17
    && HexAt(s, 0) && HexAt(s, 3) && HexAt(s, 6) && HexAt(s, 9) && HexAt(s, 12) && HexAt(s, 15)
    && s[2] == ':' && s[5] == ':' && s[8] == ':' && s[11] == ':' && s[14] == ':'
  }

  function EtherAton(s: string): Option<Mac> {
    if IsEther(s) then
      var m := [ByteAt(s, 0), ByteAt(s, 3), ByteAt(s, 6), ByteAt(s, 9), ByteAt(s, 12), ByteAt(s, 15)];
      Some(m)
    else None
  }

  /** One byte among the others. */
  lemma ByteRestored(s: string, i: nat, c: char)
    requires Byte(c) && i + 2 <= |s| && s[i..i + 2] == Hex2(c)
    ensures HexAt(s, i) && ByteAt(s, i) == c && PlainChar(s[i]) && PlainChar(s[i + 1])
  {
    assert s[i] == s[i..i + 2][0] && s[i + 1] == s[i..i + 2][1];
  }

  lemma {:induction false} NtoaBytes(m: Mac, k: nat, i: nat)
    requires i < k <= 6
    ensures Ntoa(m, k)[3 * i..3 * i + 2] == Hex2(m[i])
    ensures i + 1 < k ==> Ntoa(m, k)[3 * i + 2] == ':'
  {
    if i + 1 < k {
      NtoaBytes(m, k - 1, i);
      assert Ntoa(m, k)[..3 * k - 4] == Ntoa(m, k - 1);
      assert Ntoa(m, k)[3 * i..3 * i + 2] == Ntoa(m, k - 1)[3 * i..3 * i + 2];
    }
  }

  lemma EtherByte(m: Mac, i: nat)
    requires i < 6
    ensures var s := EtherNtoa(m); HexAt(s, 3 * i) && ByteAt(s, 3 * i) == m[i]
    ensures var s := EtherNtoa(m); PlainChar(s[3 * i]) && PlainChar(s[3 * i + 1]) && (i < 5 ==> s[3 * i + 2] == ':')
  {
    NtoaBytes(m, 6, i);
    ByteRestored(EtherNtoa(m), 3 * i, m[i]);
  }

  lemma EtherRestored(m: Mac)
    ensures EtherAton(EtherNtoa(m)) == Some(m) && Plain(EtherNtoa(m))
  {
    EtherByte(m, 0);
    EtherByte(m, 1);
    EtherByte(m, 2);
    EtherByte(m, 3);
    EtherByte(m, 4);
    EtherByte(m, 5);
    assert m == [m[0], m[1], m[2], m[3], m[4], m[5]];
  }

  /** A link address as its six bytes in two hexadecimal digits each, of either case, with colons between them. */
  predicate SpellsEther(s: string, m: Mac) {
    && |s| == 17
    && PairOf(s, 0, m[0]) && PairOf(s, 3, m[1]) && PairOf(s, 6, m[2])
    && PairOf(s, 9, m[3]) && PairOf(s, 12, m[4]) && PairOf(s, 15, m[5])
    && s[2] == ':' && s[5] == ':' && s[8] == ':' && s[11] == ':' && s[14] == ':'
  }

  lemma ByteOf(s: string, i: nat, c: char)
    ensures PairOf(s, i, c) <==> HexAt(s, i) && ByteAt(s, i) == c
  {
    PairIsValue(s, i, c);
    if PairValue(s, i, c) {
      assert ByteAt(s, i) as int == c as int;
    }
  }

  lemma EtherBytes(s: string, m: Mac)
    requires IsEther(s)
    ensures EtherAton(s) == Some(m) <==>
      && ByteAt(s, 0) == m[0] && ByteAt(s, 3) == m[1] && ByteAt(s, 6) == m[2]
      && ByteAt(s, 9) == m[3] && ByteAt(s, 12) == m[4] && ByteAt(s, 15) == m[5]
  {
    assert m == [m[0], m[1], m[2], m[3], m[4], m[5]];
  }

  /** A text is read as a link address exactly when it spells it. */
  lemma EtherParsed(s: string, m: Mac)
    ensures EtherAton(s) == Some(m) <==> SpellsEther(s, m)
  {
    ByteOf(s, 0, m[0]);
    ByteOf(s, 3, m[1]);
    ByteOf(s, 6, m[2]);
    ByteOf(s, 9, m[3]);
    ByteOf(s, 12, m[4]);
    ByteOf(s, 15, m[5]);
    if IsEther(s) {
      EtherBytes(s, m);
    }
  }

  // ---- printing ----

  datatype Clause = Src(mac: Mac) | Dst(mac: Mac) | Tag(tag: string)

  function ClauseWords(c: Clause): (ws: seq<string>)
    ensures |ws| == 2
  {
    match c
    case Src(m) => ["src", EtherNtoa(m)]
    case Dst(m) => ["dst", EtherNtoa(m)]
    case Tag(t) => ["tag", t]
  }

  function DirWord(d: Direction): string {
    match d
    case In => "in"
    case Out => "out"
    case InOut => "in/out"
  }

  function Head(r: Rule): (ws: seq<string>)
    ensures |ws| == 4
  {
    [if r.pass then "pass" else "block", DirWord(r.dir), "on", r.ifs]
  }

  function ClausesOf(r: Rule): seq<Clause> {
    (if r.src.Some? then [Src(r.src.value)] else []) + (if r.dst.Some? then [Dst(r.dst.value)] else [])
    + if r.tag != "" then [Tag(r.tag)] else []
  }

  function AllWords(cs: seq<Clause>): seq<string> {
    if cs == [] then [] else ClauseWords(cs[0]) + AllWords(cs[1..])
  }

  /** bridge_showrule, as the words it prints after the delimiter. */
  function RuleWords(r: Rule): seq<string> {
    Head(r) + AllWords(ClausesOf(r))
  }

  method ShowRule(r: Rule) returns (ws: seq<string>)
    ensures ws == RuleWords(r)
  {
    ws := [if r.pass then "pass" else "block"];
    if r.dir == InOut {
      ws := ws + ["in/out"];
    } else if r.dir == In {
      ws := ws + ["in"];
    } else {
      ws := ws + ["out"];
    }
    ws := ws + ["on", r.ifs];
    var clauses := ShowClauses(r);
    ws := ws + clauses;
  }

  method ShowClauses(r: Rule) returns (ws: seq<string>)
    ensures ws == AllWords(ClausesOf(r))
  {
    ws := [];
    ghost var cs: seq<Clause> := [];
    if r.src.Some? {
      AllWordsMore(cs, Src(r.src.value));
      cs := cs + [Src(r.src.value)];
      ws := ws + ["src", EtherNtoa(r.src.value)];
    }
    if r.dst.Some? {
      AllWordsMore(cs, Dst(r.dst.value));
      cs := cs + [Dst(r.dst.value)];
      ws := ws + ["dst", EtherNtoa(r.dst.value)];
    }
    if r.tag != "" {
      AllWordsMore(cs, Tag(r.tag));
      cs := cs + [Tag(r.tag)];
      ws := ws + ["tag", r.tag];
    }
    assert cs == ClausesOf(r);
  }

  lemma {:induction false} AllWordsMore(cs: seq<Clause>, c: Clause)
    ensures AllWords(cs + [c]) == AllWords(cs) + ClauseWords(c)
  {
    if cs == [] {
      assert [c][1..] == [];
      assert AllWords([c]) == ClauseWords(c) + AllWords([]);
    } else {
      AllWordsMore(cs[1..], c);
      assert (cs + [c])[1..] == cs[1..] + [c];
      assert ClauseWords(cs[0]) + (AllWords(cs[1..]) + ClauseWords(c)) == AllWords(cs) + ClauseWords(c);
    }
  }

  // ---- parsing ----

  datatype Outcome = BadRule | BadAddress | Added(rule: Rule)

  /** One turn of the clause loop at position i: it takes exactly two words. */
  function NextClause(r: Rule, argv: seq<string>, i: nat): (o: Outcome)
    requires i < |argv|
    ensures o.Added? ==> i + 2 <= |argv|
  {
    if argv[i] == "dst" then
      if r.dst.Some? || i + 1 == |argv| then BadRule
      else if EtherAton(argv[i + 1]).None? then BadAddress
      else Added(r.(dst := EtherAton(argv[i + 1])))
    else if argv[i] == "src" then
      if r.src.Some? || i + 1 == |argv| then BadRule
      else if EtherAton(argv[i + 1]).None? then BadAddress
      else Added(r.(src := EtherAton(argv[i + 1])))
    else if argv[i] == "tag" then
      if i + 1 == |argv| || r.tag != "" || |argv[i + 1]| > TAG_SIZE then BadRule
      else Added(r.(tag := Strlcpy(argv[i + 1], TAG_SIZE)))
    else BadRule
  }

  function Clauses(r: Rule, argv: seq<string>, i: nat): Outcome
    requires i <= |argv|
    decreases |argv| - i
  {
    if i == |argv| then Added(r)
    else match NextClause(r, argv, i)
      case Added(next) => Clauses(next, argv, i + 2)
      case bad => bad
  }

  /** bridge_rule up to its first clause. */
  function ParseHead(argv: seq<string>, ifnames: set<string>): Outcome {
    if |argv| < 4 then BadRule
    else if argv[0] != "block" && argv[0] != "pass" then BadRule
    else if argv[1] != "in" && argv[1] != "out" && argv[1] != "in/out" then BadRule
    else if argv[2] != "on" || argv[3] !in ifnames then BadRule
    else Added(Rule(argv[0] == "pass", if argv[1] == "in" then In else if argv[1] == "out" then Out else InOut,
                    Strlcpy(argv[3], IFNAMSIZ), None, None, ""))
  }

  function Parse(argv: seq<string>, ifnames: set<string>): Outcome {
    match ParseHead(argv, ifnames)
    case Added(r) => Clauses(r, argv, 4)
    case bad => bad
  }

  method BridgeRule(targv: seq<string>, ifnames: set<string>) returns (o: Outcome)
    ensures o == Parse(targv, ifnames)
  {
    var pass, dir := false, In;
    if |targv| == 0 {
      return BadRule;
    }
    if targv[0] == "pass" {
      pass := true;
    } else if targv[0] != "block" {
      return BadRule;
    }
    if |targv| == 1 {
      return BadRule;
    }
    if targv[1] == "in" {
      dir := In;
    } else if targv[1] == "out" {
      dir := Out;
    } else if targv[1] == "in/out" {
      dir := InOut;
    } else {
      return BadRule;
    }
    if |targv| == 2 || targv[2] != "on" {
      return BadRule;
    }
    if |targv| == 3 || targv[3] !in ifnames {
      return BadRule;
    }
    o := ParseClauses(Rule(pass, dir, Strlcpy(targv[3], IFNAMSIZ), None, None, ""), targv);
  }

  method ParseClauses(rule0: Rule, argv: seq<string>) returns (o: Outcome)
    requires |argv| >= 4
    ensures o == Clauses(rule0, argv, 4)
  {
    var rule, i := rule0, 4;
    while i < |argv|
      invariant i <= |argv| && Clauses(rule0, argv, 4) == Clauses(rule, argv, i)
      decreases |argv| - i
    {
      var word, ea := argv[i], None;
      if word == "dst" {
        if rule.dst.Some? {
          return BadRule;
        }
      } else if word == "src" {
        if rule.src.Some? {
          return BadRule;
        }
      } else if word == "tag" {
        if i + 1 == |argv| || rule.tag != "" || |argv[i + 1]| > TAG_SIZE {
          return BadRule;
        }
      } else {
        return BadRule;
      }
      i := i + 1;
      if i == |argv| {
        return BadRule;
      }
      if word != "tag" {
        ea := EtherAton(argv[i]);
        if ea == None {
          return BadAddress;
        }
      }
      rule := if word == "dst" then rule.(dst := ea)
              else if word == "src" then rule.(src := ea)
              else rule.(tag := Strlcpy(argv[i], TAG_SIZE));
      i := i + 1;
    }
    return Added(rule);
  }

  // ---- what parsing means ----

  /** A clause the parser takes in: a tag that is there and fits. */
  predicate Proper(c: Clause) {
    c.Tag? ==> 0 < |c.tag| < TAG_SIZE
  }

  predicate SameKind(a: Clause, b: Clause) {
    (a.Src? && b.Src?) || (a.Dst? && b.Dst?) || (a.Tag? && b.Tag?)
  }

  predicate Distinct(cs: seq<Clause>) {
    forall i, j :: 0 <= i < j < |cs| ==> !SameKind(cs[i], cs[j])
  }

  /** The rule has no part of this kind yet. */
  predicate Free(r: Rule, c: Clause) {
    match c
    case Src(_) => r.src == None
    case Dst(_) => r.dst == None
    case Tag(_) => r.tag == ""
  }

  function With(r: Rule, c: Clause): Rule {
    match c
    case Src(m) => r.(src := Some(m))
    case Dst(m) => r.(dst := Some(m))
    case Tag(t) => r.(tag := t)
  }

  function WithAll(r: Rule, cs: seq<Clause>): Rule
    decreases |cs|
  {
    if cs == [] then r else WithAll(With(r, cs[0]), cs[1..])
  }

  lemma ClauseTaken(r: Rule, c: Clause, before: seq<string>, after: seq<string>)
    requires Proper(c)
    ensures NextClause(r, before + ClauseWords(c) + after, |before|)
         == if Free(r, c) then Added(With(r, c)) else BadRule
  {
    var argv := before + ClauseWords(c) + after;
    assert argv[|before|] == ClauseWords(c)[0] && argv[|before| + 1] == ClauseWords(c)[1];
    match c
    case Src(m) => EtherRestored(m);
    case Dst(m) => EtherRestored(m);
    case Tag(_) =>
  }

  lemma ClauseStep(r: Rule, c: Clause, before: seq<string>, after: seq<string>)
    requires Proper(c)
    ensures Clauses(r, before + ClauseWords(c) + after, |before|)
         == if Free(r, c) then Clauses(With(r, c), before + ClauseWords(c) + after, |before + ClauseWords(c)|)
            else BadRule
  {
    ClauseTaken(r, c, before, after);
  }

  predicate AllProper(cs: seq<Clause>) {
    forall i :: 0 <= i < |cs| ==> Proper(cs[i])
  }

  /** Every kind occurs at most once, and none is in the rule yet. */
  predicate Fits(r: Rule, cs: seq<Clause>) {
    Distinct(cs) && forall i :: 0 <= i < |cs| ==> Free(r, cs[i])
  }

  lemma FitsAfter(r: Rule, cs: seq<Clause>)
    requires cs != [] && AllProper(cs)
    ensures AllProper(cs[1..])
    ensures Fits(r, cs) <==> Free(r, cs[0]) && Fits(With(r, cs[0]), cs[1..])
  {
    assert forall i :: 0 <= i < |cs[1..]| ==> cs[1..][i] == cs[i + 1];
    assert forall i :: 1 <= i < |cs| ==> cs[i] == cs[1..][i - 1];
    if Free(r, cs[0]) {
      assert forall i :: 1 <= i < |cs| ==>
        (Free(With(r, cs[0]), cs[i]) <==> Free(r, cs[i]) && !SameKind(cs[0], cs[i]));
    }
  }

  lemma FirstWords(cs: seq<Clause>, before: seq<string>)
    requires cs != []
    ensures before + AllWords(cs) == before + ClauseWords(cs[0]) + AllWords(cs[1..])
  {
    assert AllWords(cs) == ClauseWords(cs[0]) + AllWords(cs[1..]);
  }

  /** The clause loop: a list of clauses is taken in exactly when every kind occurs at most once and
      is still free. */
  lemma {:induction false} ClausesTaken(r: Rule, cs: seq<Clause>, before: seq<string>)
    requires AllProper(cs)
    ensures Clauses(r, before + AllWords(cs), |before|) == if Fits(r, cs) then Added(WithAll(r, cs)) else BadRule
    decreases |cs|
  {
    if cs == [] {
      assert before + AllWords(cs) == before;
    } else {
      var c, rest := cs[0], cs[1..];
      ClauseStep(r, c, before, AllWords(rest));
      FitsAfter(r, cs);
      FirstWords(cs, before);
      ClausesTaken(With(r, c), rest, before + ClauseWords(c));
    }
  }

  /** x is r with the parts of the given clauses, wherever they stand. */
  predicate HasParts(x: Rule, r: Rule, cs: seq<Clause>) {
    && x.pass == r.pass && x.dir == r.dir && x.ifs == r.ifs
    && (if exists i :: 0 <= i < |cs| && cs[i].Src? then x.src.Some? && Src(x.src.value) in cs else x.src == r.src)
    && (if exists i :: 0 <= i < |cs| && cs[i].Dst? then x.dst.Some? && Dst(x.dst.value) in cs else x.dst == r.dst)
    && (if exists i :: 0 <= i < |cs| && cs[i].Tag? then Tag(x.tag) in cs else x.tag == r.tag)
  }

  lemma {:induction false} PartsOf(r: Rule, cs: seq<Clause>)
    requires Distinct(cs)
    ensures HasParts(WithAll(r, cs), r, cs)
    decreases |cs|
  {
    if cs != [] {
      PartsOf(With(r, cs[0]), cs[1..]);
      PartsMore(WithAll(r, cs), r, cs);
    }
  }

  lemma PartsMore(x: Rule, r: Rule, cs: seq<Clause>)
    requires cs != [] && Distinct(cs) && HasParts(x, With(r, cs[0]), cs[1..])
    ensures HasParts(x, r, cs)
  {
    var c, rest := cs[0], cs[1..];
    assert forall i :: 0 <= i < |rest| ==> rest[i] == cs[i + 1] && !SameKind(c, rest[i]);
    assert forall i :: 1 <= i < |cs| ==> cs[i] == rest[i - 1];
    assert forall d :: d in rest ==> d in cs;
    assert c in cs;
  }

  lemma SameParts(x: Rule, y: Rule, r: Rule, cs: seq<Clause>, ds: seq<Clause>)
    requires Distinct(cs) && HasParts(x, r, cs) && HasParts(y, r, ds) && forall c :: c in cs <==> c in ds
    ensures x == y
  {
    assert forall i :: 0 <= i < |cs| ==> cs[i] in ds;
    assert forall i :: 0 <= i < |ds| ==> ds[i] in cs;
    assert forall a, b :: a in cs && b in cs && SameKind(a, b) ==> a == b;
  }

  /** The order of the clauses does not matter, and a repeated kind is rejected in every order. */
  lemma AnyOrder(r: Rule, cs: seq<Clause>, ds: seq<Clause>, before: seq<string>)
    requires AllProper(cs) && AllProper(ds)
    requires Free(r, Src("abcdef")) && Free(r, Dst("abcdef")) && Free(r, Tag("x"))
    ensures !Distinct(cs) ==> Clauses(r, before + AllWords(cs), |before|) == BadRule
    ensures Distinct(cs) && Distinct(ds) && (forall c :: c in cs <==> c in ds) ==>
      Clauses(r, before + AllWords(cs), |before|) == Clauses(r, before + AllWords(ds), |before|)
        == Added(WithAll(r, cs))
  {
    ClausesTaken(r, cs, before);
    ClausesTaken(r, ds, before);
    if Distinct(cs) && Distinct(ds) && (forall c :: c in cs <==> c in ds) {
      PartsOf(r, cs);
      PartsOf(r, ds);
      SameParts(WithAll(r, cs), WithAll(r, ds), r, cs, ds);
    }
  }

  lemma RuleOfClauses(r: Rule)
    ensures WithAll(Rule(r.pass, r.dir, r.ifs, None, None, ""), ClausesOf(r)) == r && Distinct(ClausesOf(r))
  {
    var r0 := Rule(r.pass, r.dir, r.ifs, None, None, "");
    var r1 := r0.(src := r.src);
    var r2 := r1.(dst := r.dst);
    var a := if r.src.Some? then [Src(r.src.value)] else [];
    var b := if r.dst.Some? then [Dst(r.dst.value)] else [];
    var c := if r.tag != "" then [Tag(r.tag)] else [];
    WithBoth(r0, a, b + c);
    WithBoth(r1, b, c);
    assert ClausesOf(r) == a + (b + c);
    assert WithAll(r0, a) == r1 && WithAll(r1, b) == r2 && WithAll(r2, c) == r;
  }

  lemma {:induction false} WithBoth(r: Rule, a: seq<Clause>, b: seq<Clause>)
    ensures WithAll(r, a + b) == WithAll(WithAll(r, a), b)
    decreases |a|
  {
    if a == [] {
      assert a + b == b;
    } else {
      assert (a + b)[1..] == a[1..] + b;
      WithBoth(With(r, a[0]), a[1..], b);
    }
  }

  // ---- any words ----

  function Key(argv: seq<string>, k: nat): string
    requires 4 + 2 * k < |argv|
  {
    argv[4 + 2 * k]
  }

  function Val(argv: seq<string>, k: nat): string
    requires 5 + 2 * k < |argv|
  {
    argv[5 + 2 * k]
  }

  /** No clause before clause k has its key. */
  predicate First(argv: seq<string>, k: nat)
    requires 4 + 2 * k < |argv|
  {
    forall j :: 0 <= j < k ==> Key(argv, j) != Key(argv, k)
  }

  /** Clause k is taken behind the clauses before it: an address that is one and the first of its kind, or a tag that
      is not too long, when the tags before it were empty. */
  predicate Taken(argv: seq<string>, k: nat)
    requires 5 + 2 * k < |argv|
  {
    || ((Key(argv, k) == "src" || Key(argv, k) == "dst") && First(argv, k) && EtherAton(Val(argv, k)).Some?)
    || (Key(argv, k) == "tag" && |Val(argv, k)| <= TAG_SIZE
        && forall j :: 0 <= j < k && Key(argv, j) == "tag" ==> Val(argv, j) == "")
  }

  predicate AllTaken(argv: seq<string>, n: nat)
    requires 4 + 2 * n <= |argv|
  {
    forall k :: 0 <= k < n ==> Taken(argv, k)
  }

  /** The address of the clause with this key, none when there is no such clause. */
  predicate AddressIs(a: Option<Mac>, key: string, argv: seq<string>, n: nat)
    requires 4 + 2 * n <= |argv|
  {
    && (forall k :: 0 <= k < n && Key(argv, k) == key ==> a == EtherAton(Val(argv, k)))
    && ((forall k :: 0 <= k < n ==> Key(argv, k) != key) ==> a == None)
  }

  /** The first characters of the one tag that is not empty. */
  predicate TagIs(t: string, argv: seq<string>, n: nat)
    requires 4 + 2 * n <= |argv|
  {
    && (forall k :: 0 <= k < n && Key(argv, k) == "tag" && Val(argv, k) != "" ==> t == Strlcpy(Val(argv, k), TAG_SIZE))
    && ((forall k :: 0 <= k < n && Key(argv, k) == "tag" ==> Val(argv, k) == "") ==> t == "")
  }

  /** What the first n clauses make of a rule that had no parts. */
  predicate ReadSoFar(r: Rule, argv: seq<string>, n: nat)
    requires 4 + 2 * n <= |argv|
  {
    AddressIs(r.src, "src", argv, n) && AddressIs(r.dst, "dst", argv, n) && TagIs(r.tag, argv, n)
  }

  /** The four words every rule begins with. */
  predicate HeadIs(r: Rule, argv: seq<string>, ifnames: set<string>) {
    && |argv| >= 4
    && argv[0] == (if r.pass then "pass" else "block")
    && argv[1] == (match r.dir case In => "in" case Out => "out" case InOut => "in/out")
    && argv[2] == "on"
    && argv[3] in ifnames && r.ifs == Strlcpy(argv[3], IFNAMSIZ)
  }

  predicate HasHead(argv: seq<string>, ifnames: set<string>) {
    && |argv| >= 4
    && (argv[0] == "pass" || argv[0] == "block")
    && (argv[1] == "in" || argv[1] == "out" || argv[1] == "in/out")
    && argv[2] == "on" && argv[3] in ifnames
  }

  lemma HeadParsed(argv: seq<string>, ifnames: set<string>, r: Rule)
    ensures ParseHead(argv, ifnames) == Added(r) <==>
      HeadIs(r, argv, ifnames) && r.src == None && r.dst == None && r.tag == ""
    ensures !ParseHead(argv, ifnames).Added? ==> ParseHead(argv, ifnames) == BadRule
    ensures ParseHead(argv, ifnames).Added? <==> HasHead(argv, ifnames)
  {
  }

  lemma AddressKept(a: Option<Mac>, key: string, argv: seq<string>, n: nat, after: Option<Mac>)
    requires 6 + 2 * n <= |argv| && AddressIs(a, key, argv, n)
    requires if Key(argv, n) == key then First(argv, n) && after == EtherAton(Val(argv, n)) else after == a
    ensures AddressIs(after, key, argv, n + 1)
  {
  }

  lemma TagThere(t: string, argv: seq<string>, n: nat)
    requires 4 + 2 * n <= |argv| && TagIs(t, argv, n)
    ensures t == "" <==> forall j :: 0 <= j < n && Key(argv, j) == "tag" ==> Val(argv, j) == ""
  {
    if j :| 0 <= j < n && Key(argv, j) == "tag" && Val(argv, j) != "" {
      assert Strlcpy(Val(argv, j), TAG_SIZE) != "";
    }
  }

  lemma TagKept(t: string, argv: seq<string>, n: nat, after: string)
    requires 6 + 2 * n <= |argv| && TagIs(t, argv, n)
    requires if Key(argv, n) == "tag" then t == "" && after == Strlcpy(Val(argv, n), TAG_SIZE) else after == t
    ensures TagIs(after, argv, n + 1)
  {
    TagThere(t, argv, n);
  }

  /** A part is there exactly when a clause before has given it. */
  lemma PartThere(a: Option<Mac>, argv: seq<string>, n: nat)
    requires 5 + 2 * n < |argv| && AllTaken(argv, n)
    requires (Key(argv, n) == "src" || Key(argv, n) == "dst") && AddressIs(a, Key(argv, n), argv, n)
    ensures a == None <==> First(argv, n)
  {
    if !First(argv, n) {
      var j :| 0 <= j < n && Key(argv, j) == Key(argv, n);
      assert Taken(argv, j);
    }
  }

  /** Clause k has an address that is none, and the loop comes to it. */
  predicate Unreadable(argv: seq<string>, k: nat) {
    && 5 + 2 * k < |argv| && AllTaken(argv, k)
    && (Key(argv, k) == "src" || Key(argv, k) == "dst") && First(argv, k) && EtherAton(Val(argv, k)) == None
  }

  ghost predicate HasUnreadable(argv: seq<string>) {
    exists k: nat :: Unreadable(argv, k)
  }

  predicate SameHead(a: Rule, b: Rule) {
    a.pass == b.pass && a.dir == b.dir && a.ifs == b.ifs
  }

  /** One turn of the loop, by the clauses before it. */
  lemma ClauseRead(r: Rule, argv: seq<string>, n: nat, o: Outcome)
    requires 4 + 2 * n < |argv| && ReadSoFar(r, argv, n) && AllTaken(argv, n)
    requires o == NextClause(r, argv, 4 + 2 * n)
    ensures o.Added? <==> 5 + 2 * n < |argv| && Taken(argv, n)
    ensures o.Added? ==> ReadSoFar(o.rule, argv, n + 1) && SameHead(o.rule, r)
    ensures o == BadAddress <==> Unreadable(argv, n)
  {
    if 5 + 2 * n < |argv| {
      if Key(argv, n) == "src" {
        PartThere(r.src, argv, n);
      } else if Key(argv, n) == "dst" {
        PartThere(r.dst, argv, n);
      } else {
        TagThere(r.tag, argv, n);
      }
      if o.Added? {
        AddressKept(r.src, "src", argv, n, o.rule.src);
        AddressKept(r.dst, "dst", argv, n, o.rule.dst);
        TagKept(r.tag, argv, n, o.rule.tag);
      }
    }
  }

  function ClauseCount(argv: seq<string>): nat {
    if |argv| < 4 then 0 else (|argv| - 4) / 2
  }

  /** The words behind the head are whole clauses, and each is taken. */
  predicate WellFormed(argv: seq<string>) {
    |argv| >= 4 && |argv| % 2 == 0 && AllTaken(argv, ClauseCount(argv))
  }

  lemma ClausesNext(r: Rule, argv: seq<string>, i: nat, next: Outcome)
    requires i < |argv| && next == NextClause(r, argv, i)
    ensures Clauses(r, argv, i) == if next.Added? then Clauses(next.rule, argv, i + 2) else next
  {
  }

  lemma {:induction false} ClausesRead(r: Rule, argv: seq<string>, n: nat, o: Outcome)
    requires 4 + 2 * n <= |argv| && ReadSoFar(r, argv, n) && AllTaken(argv, n)
    requires o == Clauses(r, argv, 4 + 2 * n)
    ensures o.Added? <==> WellFormed(argv)
    ensures o.Added? ==> ReadSoFar(o.rule, argv, ClauseCount(argv)) && SameHead(o.rule, r)
    ensures o == BadAddress <==> HasUnreadable(argv)
    decreases |argv| - n
  {
    if 4 + 2 * n == |argv| {
      AllRead(argv, n);
    } else {
      var next := NextClause(r, argv, 4 + 2 * n);
      ClauseRead(r, argv, n, next);
      ClausesNext(r, argv, 4 + 2 * n, next);
      if next.Added? {
        assert 4 + 2 * n + 2 == 4 + 2 * (n + 1);
        ClausesRead(next.rule, argv, n + 1, o);
      } else {
        StoppedAt(argv, n);
      }
    }
  }

  lemma AllRead(argv: seq<string>, n: nat)
    requires 4 + 2 * n == |argv| && AllTaken(argv, n)
    ensures n == ClauseCount(argv) && WellFormed(argv) && !HasUnreadable(argv)
  {
    forall k: nat | 5 + 2 * k < |argv| ensures !Unreadable(argv, k) {
      TakenBefore(argv, n, k);
    }
  }

  lemma TakenBefore(argv: seq<string>, n: nat, k: nat)
    requires 4 + 2 * n <= |argv|
    ensures AllTaken(argv, n) && k < n ==> Taken(argv, k)
  {
  }

  /** The first clause that is not taken decides. */
  lemma StoppedAt(argv: seq<string>, n: nat)
    requires 4 + 2 * n < |argv| && AllTaken(argv, n)
    requires 5 + 2 * n < |argv| ==> !Taken(argv, n)
    ensures !WellFormed(argv)
    ensures HasUnreadable(argv) <==> Unreadable(argv, n)
  {
    if |argv| % 2 == 0 {
      TakenBefore(argv, ClauseCount(argv), n);
    }
    forall k: nat ensures Unreadable(argv, k) ==> k == n {
      if 5 + 2 * k < |argv| {
        TakenBefore(argv, n, k);
        TakenBefore(argv, k, n);
      }
    }
  }

  lemma SameRead(a: Rule, b: Rule, argv: seq<string>, n: nat)
    requires 4 + 2 * n <= |argv| && ReadSoFar(a, argv, n) && ReadSoFar(b, argv, n) && SameHead(a, b)
    ensures a == b
  {
  }

  /** Which rule any words ask for: the first four give its head, every clause behind them must be taken, and each part
      is that of its own clause, absent when there is none. An address that is none stops the command by itself. */
  lemma RuleMeaning(argv: seq<string>, ifnames: set<string>, r: Rule)
    ensures Parse(argv, ifnames) == Added(r) <==>
      WellFormed(argv) && HeadIs(r, argv, ifnames) && ReadSoFar(r, argv, ClauseCount(argv))
    ensures Parse(argv, ifnames) == BadAddress <==> HasHead(argv, ifnames) && HasUnreadable(argv)
  {
    var bare := Rule(r.pass, r.dir, r.ifs, None, None, "");
    HeadParsed(argv, ifnames, bare);
    match ParseHead(argv, ifnames)
    case Added(x) =>
      HeadParsed(argv, ifnames, x);
      var o := Clauses(x, argv, 4);
      ClausesRead(x, argv, 0, o);
      if o.Added? && HeadIs(r, argv, ifnames) && ReadSoFar(r, argv, ClauseCount(argv)) {
        SameRead(o.rule, r, argv, ClauseCount(argv));
      }
    case _ =>
      HeadParsed(argv, ifnames, r);
  }
}
