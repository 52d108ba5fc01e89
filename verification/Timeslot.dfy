/** Timeslot maps: inttimeslot reads a list of channels, timeslot_status prints a map. */
module Timeslot {
  import opened Text
  import opened Words32

  const ALL_CHANNELS: bv32 := 0xFFFF_FFFF

  // ---- get_ts_map: the channels of one span ----

  /** The channels from lo to hi; none when lo is above hi. */
  datatype Span = Span(lo: int, hi: int)

  predicate Covers(x: Span, k: nat) {
    x.lo <= k <= x.hi
  }

  /** Every channel of the span has a bit in the map, so that no shift is undefined. */
  predicate InWidth(x: Span) {
    x.lo > x.hi || (0 <= x.lo && x.hi < WIDTH)
  }

  function RangeWord(lo: int, hi: int): bv32
    requires InWidth(Span(lo, hi))
    decreases hi - lo
  {
    if lo > hi then 0 else Or(RangeWord(lo, hi - 1), Mask(hi))
  }

  function SpanMap(x: Span): bv32
    requires InWidth(x)
  {
    RangeWord(x.lo, x.hi)
  }

  lemma {:induction false} BitOfRange(lo: int, hi: int, k: nat)
    requires InWidth(Span(lo, hi)) && k < WIDTH
    ensures Bit(RangeWord(lo, hi), k) <==> lo <= k <= hi
    decreases hi - lo
  {
    if lo <= hi {
      BitOfRange(lo, hi - 1, k);
      BitOfOr(RangeWord(lo, hi - 1), Mask(hi), k);
      BitOfMask(hi, k);
    } else {
      BitOfZero(k);
    }
  }

  /** The map so far; Undefined once a shift was out of range. 1 << 31 is defined here: it is the sign bit of
      a two's complement int, as the machines have it, although section 6.5.7 of C99 leaves it open; a
      negative shift or one by the width or more is not. */
  datatype Map = Undefined | Map(word: bv32)

  method RangeLoop(start: int, stop: int) returns (r: Map)
    ensures r == if InWidth(Span(start, stop)) then Map(RangeWord(start, stop)) else Undefined
  {
    var word: bv32, i := 0, start;
    while i <= stop
      invariant if start <= stop then start <= i <= stop + 1 else i == start
      invariant InWidth(Span(start, i - 1)) && word == RangeWord(start, i - 1)
      decreases stop - i
    {
      if i < 0 || i >= WIDTH {
        return Undefined;
      }
      var bit := Shift(i);
      word := Or(word, bit);
      i := i + 1;
    }
    assert start > stop ==> RangeWord(start, stop) == 0;
    return Map(word);
  }

  method GetTsMap(single: bool, range: bool, start: int, stop: int) returns (r: Map)
    ensures !single && !range ==> r == Map(0)
    ensures single || range ==>
      var x := Span(if range then start else stop, stop); r == if InWidth(x) then Map(SpanMap(x)) else Undefined
  {
    if !single && !range {
      return Map(0);
    }
    if range {
      r := RangeLoop(start, stop);
    } else {
      if stop < 0 || stop >= WIDTH {
        return Undefined;
      }
      var bit := Shift(stop);
      OneChannel(stop);
      return Map(Or(0, bit));
    }
  }

  lemma OneChannel(k: nat)
    requires k < WIDTH
    ensures RangeWord(k, k) == Or(0, Mask(k))
  {
    assert RangeWord(k, k - 1) == 0;
  }

  /** The union of the maps of the spans. */
  function MapOf(xs: seq<Span>): Map {
    if xs == [] then Map(0)
    else
      var x, before := xs[|xs| - 1], MapOf(xs[..|xs| - 1]);
      if before.Undefined? || !InWidth(x) then Undefined else Map(Or(before.word, SpanMap(x)))
  }

  predicate Covered(xs: seq<Span>, k: nat) {
    exists i :: 0 <= i < |xs| && Covers(xs[i], k)
  }

  predicate AllInWidth(xs: seq<Span>) {
    forall i :: 0 <= i < |xs| ==> InWidth(xs[i])
  }

  lemma {:induction false} MapDefined(xs: seq<Span>)
    ensures MapOf(xs).Map? <==> AllInWidth(xs)
  {
    if xs != [] {
      var n := |xs| - 1;
      MapDefined(xs[..n]);
      assert forall i :: 0 <= i < n ==> xs[i] == xs[..n][i];
    }
  }

  lemma CoveredSnoc(xs: seq<Span>, k: nat)
    requires xs != []
    ensures Covered(xs, k) <==> Covered(xs[..|xs| - 1], k) || Covers(xs[|xs| - 1], k)
  {
    assert forall i :: 0 <= i < |xs| - 1 ==> xs[i] == xs[..|xs| - 1][i];
  }

  /** Bit k of a union is set exactly when some span covers k. */
  lemma {:induction false} MapBits(xs: seq<Span>, k: nat)
    requires MapOf(xs).Map? && k < WIDTH
    ensures Bit(MapOf(xs).word, k) <==> Covered(xs, k)
  {
    if xs == [] {
      BitOfZero(k);
    } else {
      var n := |xs| - 1;
      MapBits(xs[..n], k);
      CoveredSnoc(xs, k);
      BitOfRange(xs[n].lo, xs[n].hi, k);
      BitOfOr(MapOf(xs[..n]).word, SpanMap(xs[n]), k);
    }
  }

  // ---- numbers ----

  /** Where the digits from position i on end. */
  function DigitsEnd(s: string, i: nat): (j: nat)
    requires i <= |s|
    ensures i <= j <= |s| && AllDigits(s[i..j])
    ensures j < |s| ==> !IsDigit(s[j])
    ensures i < |s| && IsDigit(s[i]) ==> i < j
    decreases |s| - i
  {
    if i < |s| && IsDigit(s[i]) then
      var j := DigitsEnd(s, i + 1);
      assert s[i..j] == [s[i]] + s[i + 1..j];
      j
    else i
  }

  function NumberAt(s: string, i: nat): int
    requires i <= |s|
  {
    ToInt(DigitsValue(s[i..DigitsEnd(s, i)]))
  }

  // ---- the parse loop ----

  /** ts_flag, ts_start and ts. */
  datatype State = State(single: bool, range: bool, start: int, ts: int)

  const INITIAL := State(false, false, 0, 0)

  predicate Idle(st: State) {
    !st.single && !st.range
  }

  /** What get_ts_map is to add, if anything. */
  function Pending(st: State): seq<Span> {
    if Idle(st) then [] else [Span(if st.range then st.start else st.ts, st.ts)]
  }

  function Cleared(st: State): State {
    st.(single := false, range := false)
  }

  /** The turns of the loop at a digit, a dash and anything else. */
  function Turn(s: string, i: nat, st: State): State
    requires i < |s|
  {
    if IsDigit(s[i]) then st.(ts := NumberAt(s, i), single := true)
    else if s[i] == '-' then st.(range := true, start := st.ts)
    else Cleared(st)
  }

  predicate Separator(c: char) {
    !IsDigit(c) && c != '-'
  }

  function NextPos(s: string, i: nat): (j: nat)
    requires i < |s|
    ensures i < j <= |s|
  {
    if IsDigit(s[i]) then DigitsEnd(s, i) else i + 1
  }

  /** What is added to the map, in order, from position i on. */
  function Spans(s: string, i: nat, st: State): seq<Span>
    requires i <= |s|
    decreases |s| - i
  {
    if i == |s| then Pending(st)
    else (if Separator(s[i]) then Pending(st) else []) + Spans(s, NextPos(s, i), Turn(s, i, st))
  }

  function ParseList(s: string): Map {
    MapOf(Spans(s, 0, INITIAL))
  }

  lemma MapOfMore(xs: seq<Span>, st: State)
    requires MapOf(xs).Map?
    ensures MapOf(xs + Pending(st))
         == if Idle(st) then MapOf(xs)
            else
              var x := Pending(st)[0]; if InWidth(x) then Map(Or(MapOf(xs).word, SpanMap(x))) else Undefined
  {
    if Idle(st) {
      assert xs + Pending(st) == xs;
    } else {
      var all := xs + Pending(st);
      assert all[..|all| - 1] == xs && all[|all| - 1] == Pending(st)[0];
    }
  }

  /** get_ts_map on the pending span, added to the map so far. */
  method AddPending(word: bv32, st: State, ghost xs: seq<Span>) returns (r: Map)
    requires MapOf(xs) == Map(word)
    ensures r == MapOf(xs + Pending(st))
  {
    var more := GetTsMap(st.single, st.range, st.start, st.ts);
    if more.Undefined? {
      r := Undefined;
    } else {
      r := Map(Or(word, more.word));
    }
    MapOfMore(xs, st);
    if Idle(st) {
      OrZero(word);
    }
  }

  lemma OrZero(w: bv32)
    ensures Or(w, 0) == w
  {
  }

  lemma UndefinedStays(xs: seq<Span>, ys: seq<Span>)
    requires MapOf(xs).Undefined?
    ensures MapOf(xs + ys).Undefined?
  {
    MapDefined(xs);
    MapDefined(xs + ys);
    var i :| 0 <= i < |xs| && !InWidth(xs[i]);
    assert (xs + ys)[i] == xs[i];
  }

  lemma Regrouped(xs: seq<Span>, head: seq<Span>, rest: seq<Span>, all: seq<Span>)
    requires xs + (head + rest) == all
    ensures xs + head + rest == all && (head == [] ==> xs + rest == all)
  {
    assert head == [] ==> head + rest == rest;
  }

  lemma SpansStep(xs: seq<Span>, s: string, i: nat, st: State, all: seq<Span>)
    requires i < |s| && xs + Spans(s, i, st) == all
    ensures (if Separator(s[i]) then xs + Pending(st) else xs) + Spans(s, NextPos(s, i), Turn(s, i, st)) == all
  {
    Regrouped(xs, if Separator(s[i]) then Pending(st) else [], Spans(s, NextPos(s, i), Turn(s, i, st)), all);
  }

  /** get_ts_map at a separator; a map that is lost is lost for the rest of the list as well. */
  method AddHere(word: bv32, st: State, ghost xs: seq<Span>, ghost rest: seq<Span>) returns (r: Map)
    requires MapOf(xs) == Map(word)
    ensures r == MapOf(xs + Pending(st))
    ensures r.Undefined? ==> MapOf(xs + Pending(st) + rest).Undefined?
  {
    r := AddPending(word, st, xs);
    if r.Undefined? {
      UndefinedStays(xs + Pending(st), rest);
    }
  }

  /** The loop of inttimeslot over the text of a list. */
  method ParseLoop(s: string) returns (r: Map)
    ensures r == ParseList(s)
  {
    var word: bv32, st, i := 0, INITIAL, 0;
    ghost var xs: seq<Span>, all := [], Spans(s, 0, INITIAL);
    assert xs + all == all;
    while i < |s|
      invariant i <= |s| && xs + Spans(s, i, st) == all && MapOf(xs) == Map(word)
    {
      SpansStep(xs, s, i, st, all);
      if IsDigit(s[i]) {
        st := st.(ts := NumberAt(s, i), single := true);
        i := DigitsEnd(s, i);
      } else {
        if s[i] == '-' {
          st := st.(range := true, start := st.ts);
        } else {
          var more := AddHere(word, st, xs, Spans(s, i + 1, Cleared(st)));
          if more.Undefined? {
            return Undefined;
          }
          xs := xs + Pending(st);
          word, st := more.word, Cleared(st);
        }
        i := i + 1;
      }
    }
    r := AddPending(word, st, xs);
  }

  // ---- what a list means ----

  /** A number as it is written, leading zeros and all. */
  type Digits = d: string | d != "" && AllDigits(d)
    witness "0"

  function Number(d: Digits): int {
    ToInt(DigitsValue(d))
  }

  datatype Item = Slot(n: Digits) | Range(a: Digits, b: Digits)

  function SpanOf(item: Item): Span {
    match item
    case Slot(n) => Span(Number(n), Number(n))
    case Range(a, b) => Span(Number(a), Number(b))
  }

  function ItemText(item: Item): (s: string)
    ensures s != "" && IsDigit(s[0])
  {
    match item
    case Slot(n) => n
    case Range(a, b) => a + "-" + b
  }

  predicate Separators(s: string) {
    forall i :: 0 <= i < |s| ==> Separator(s[i])
  }

  /** One item of a list and the separators in front of it. */
  datatype Entry = Entry(before: string, item: Item)

  /** Items of a list are kept apart by separators. */
  predicate Apart(es: seq<Entry>) {
    forall i :: 0 <= i < |es| ==> Separators(es[i].before) && (i > 0 ==> es[i].before != "")
  }

  function ListText(es: seq<Entry>): string {
    if es == [] then "" else es[0].before + (ItemText(es[0].item) + ListText(es[1..]))
  }

  function SpansOf(es: seq<Entry>): (xs: seq<Span>)
    ensures |xs| == |es| && forall i :: 0 <= i < |es| ==> xs[i] == SpanOf(es[i].item)
  {
    if es == [] then [] else [SpanOf(es[0].item)] + SpansOf(es[1..])
  }

  // ---- reading from the front of a text ----

  lemma {:induction false} DigitsSame(s: string, i: nat, t: string, j: nat)
    requires i <= |s| && j <= |t| && s[i..] == t[j..]
    ensures DigitsEnd(s, i) - i == DigitsEnd(t, j) - j
    decreases |s| - i
  {
    if i < |s| && IsDigit(s[i]) {
      assert s[i] == s[i..][0] && t[j] == t[j..][0];
      assert s[i + 1..] == s[i..][1..] && t[j + 1..] == t[j..][1..];
      DigitsSame(s, i + 1, t, j + 1);
    } else if i < |s| {
      assert s[i] == s[i..][0] && t[j] == t[j..][0];
    }
  }

  lemma TurnSame(s: string, i: nat, t: string, j: nat, st: State)
    requires i < |s| && j < |t| && s[i..] == t[j..]
    ensures s[i] == t[j] && NextPos(s, i) - i == NextPos(t, j) - j && Turn(s, i, st) == Turn(t, j, st)
    ensures s[NextPos(s, i)..] == t[NextPos(t, j)..]
  {
    assert s[i] == s[i..][0] && t[j] == t[j..][0];
    DigitsSame(s, i, t, j);
    var n, k := DigitsEnd(s, i) - i, NextPos(s, i) - i;
    assert s[i..i + n] == s[i..][..n] && t[j..j + n] == t[j..][..n];
    assert s[i + k..] == s[i..][k..] && t[j + k..] == t[j..][k..];
  }

  lemma {:induction false} SpansSame(s: string, i: nat, t: string, j: nat, st: State)
    requires i <= |s| && j <= |t| && s[i..] == t[j..]
    ensures Spans(s, i, st) == Spans(t, j, st)
    decreases |s| - i
  {
    if i < |s| {
      TurnSame(s, i, t, j, st);
      SpansSame(s, NextPos(s, i), t, NextPos(t, j), Turn(s, i, st));
    }
  }

  /** What a text adds to the map. */
  function Added(s: string, st: State): seq<Span> {
    Spans(s, 0, st)
  }

  lemma FrontRead(a: string, rest: string, st: State)
    requires a != "" && NextPos(a + rest, 0) == |a|
    ensures Added(a + rest, st) == (if Separator(a[0]) then Pending(st) else []) + Added(rest, Turn(a + rest, 0, st))
  {
    assert (a + rest)[|a|..] == rest[0..];
    SpansSame(a + rest, |a|, rest, 0, Turn(a + rest, 0, st));
  }

  /** A number in the list. */
  lemma NumberRead(d: Digits, rest: string, st: State)
    requires rest == "" || !IsDigit(rest[0])
    ensures Added(d + rest, st) == Added(rest, st.(ts := Number(d), single := true))
  {
    assert (d + rest)[0..|d|] == d;
    DigitsEndAt(d + rest, 0, |d|);
    assert (d + rest)[0] == d[0];
    FrontRead(d, rest, st);
    assert [] + Added(rest, st.(ts := Number(d), single := true)) == Added(rest, st.(ts := Number(d), single := true));
  }

  lemma {:induction false} DigitsEndAt(s: string, i: nat, j: nat)
    requires i <= j <= |s| && AllDigits(s[i..j]) && (j < |s| ==> !IsDigit(s[j]))
    ensures DigitsEnd(s, i) == j
    decreases j - i
  {
    if i < j {
      assert IsDigit(s[i..j][0]);
      assert s[i + 1..j] == s[i..j][1..];
      DigitsEndAt(s, i + 1, j);
    }
  }

  lemma DashRead(rest: string, st: State)
    ensures Added("-" + rest, st) == Added(rest, st.(range := true, start := st.ts))
  {
    FrontRead("-", rest, st);
    assert [] + Added(rest, st.(range := true, start := st.ts)) == Added(rest, st.(range := true, start := st.ts));
  }

  lemma SeparatorRead(c: char, rest: string, st: State)
    requires Separator(c)
    ensures Added([c] + rest, st) == Pending(st) + Added(rest, Cleared(st))
  {
    FrontRead([c], rest, st);
  }

  /** Separators add what is pending, once. */
  lemma {:induction false} SeparatorsRead(b: string, rest: string, st: State)
    requires Separators(b) && (b == "" ==> Idle(st))
    ensures Added(b + rest, st) == Pending(st) + Added(rest, Cleared(st))
  {
    if b == "" {
      assert b + rest == rest && Cleared(st) == st;
      assert [] + Added(rest, st) == Added(rest, st);
    } else {
      assert b + rest == [b[0]] + (b[1..] + rest);
      SeparatorRead(b[0], b[1..] + rest, st);
      SeparatorsRead(b[1..], rest, Cleared(st));
      assert [] + Added(rest, Cleared(st)) == Added(rest, Cleared(st));
    }
  }

  function AfterItem(st: State, item: Item): State {
    match item
    case Slot(n) => st.(ts := Number(n), single := true)
    case Range(a, b) => st.(ts := Number(b), single := true, range := true, start := Number(a))
  }

  lemma ItemPending(st: State, item: Item)
    requires Idle(st)
    ensures Pending(AfterItem(st, item)) == [SpanOf(item)]
  {
  }

  /** An item is read as a whole. */
  lemma ItemRead(item: Item, rest: string, st: State)
    requires rest == "" || !IsDigit(rest[0])
    ensures Added(ItemText(item) + rest, st) == Added(rest, AfterItem(st, item))
  {
    match item
    case Slot(n) =>
      NumberRead(n, rest, st);
    case Range(a, b) =>
      var tail := b + rest;
      var st1 := st.(ts := Number(a), single := true);
      assert ItemText(item) + rest == a + ("-" + tail);
      NumberRead(a, "-" + tail, st);
      DashRead(tail, st1);
      NumberRead(b, rest, st1.(range := true, start := Number(a)));
  }

  /** No digit follows an item: a separator does, or the end. */
  lemma NoDigitAfter(es: seq<Entry>)
    requires es != [] ==> es[0].before != "" && Separators(es[0].before)
    ensures ListText(es) == "" || !IsDigit(ListText(es)[0])
  {
    if es != [] {
      assert Separator(es[0].before[0]);
    }
  }

  /** From a pending span on: it is added, and then the spans of the list are. */
  lemma {:induction false} ListRead(es: seq<Entry>, st: State)
    requires Apart(es) && (es != [] && es[0].before == "" ==> Idle(st))
    ensures Added(ListText(es), st) == Pending(st) + SpansOf(es)
    decreases |es|
  {
    if es != [] {
      var e, rest := es[0], es[1..];
      assert rest != [] ==> rest[0] == es[1];
      SeparatorsRead(e.before, ItemText(e.item) + ListText(rest), st);
      NoDigitAfter(rest);
      ItemRead(e.item, ListText(rest), Cleared(st));
      ItemPending(Cleared(st), e.item);
      ListRead(rest, AfterItem(Cleared(st), e.item));
    }
  }

  /** The list in any spelling adds the spans of its items, in order. */
  lemma ListParsed(es: seq<Entry>)
    requires Apart(es)
    ensures ParseList(ListText(es)) == MapOf(SpansOf(es))
  {
    ListRead(es, INITIAL);
    assert [] + SpansOf(es) == SpansOf(es);
  }

  /** The loop on any list: a map results exactly when every item is in the width of the map, and then
      bit k is set exactly when some item covers channel k. */
  lemma ListMeaning(es: seq<Entry>)
    requires Apart(es)
    ensures ParseList(ListText(es)).Map? <==> forall i :: 0 <= i < |es| ==> InWidth(SpanOf(es[i].item))
    ensures ParseList(ListText(es)).Map? ==>
      forall k :: 0 <= k < WIDTH ==>
        (Bit(ParseList(ListText(es)).word, k) <==> exists i :: 0 <= i < |es| && Covers(SpanOf(es[i].item), k))
  {
    ListParsed(es);
    var xs := SpansOf(es);
    MapDefined(xs);
    if MapOf(xs).Map? {
      forall k | 0 <= k < WIDTH
        ensures Bit(MapOf(xs).word, k) <==> exists i :: 0 <= i < |es| && Covers(SpanOf(es[i].item), k)
      {
        MapBits(xs, k);
        assert forall i :: 0 <= i < |es| ==> xs[i] == SpanOf(es[i].item);
      }
    }
  }
}
