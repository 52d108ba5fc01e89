/** Printing a timeslot map as runs of channels, and reading the printed text back. */
module ChannelRuns {
  import opened Text
  import opened Words32
  import opened Timeslot

  /** Channels a to b, a run of set bits. */
  datatype Run = Run(a: nat, b: nat)

  /** The runs the loop prints from bit i on; start is the bit the current run began at, or -1. */
  function Runs(bits: seq<bool>, i: nat, start: int): (rs: seq<Run>)
    requires i <= |bits| && -1 <= start < i
    ensures forall j :: 0 <= j < |rs| ==> rs[j].a <= rs[j].b < |bits|
    decreases |bits| - i
  {
    if i == |bits| then (if start == -1 then [] else [Run(start, i - 1)])
    else if start == -1 && bits[i] then Runs(bits, i + 1, i)
    else if start != -1 && !bits[i] then [Run(start, i - 1)] + Runs(bits, i + 1, -1)
    else Runs(bits, i + 1, start)
  }

  function AllRuns(bits: seq<bool>): (rs: seq<Run>)
    ensures forall j :: 0 <= j < |rs| ==> rs[j].a <= rs[j].b < |bits|
  {
    Runs(bits, 0, -1)
  }

  /** The bits of a map, bit 0 first. */
  function LowBits(w: bv32, n: nat): (bits: seq<bool>)
    ensures |bits| == n
  {
    if n == 0 then [] else LowBits(w, n - 1) + [Bit(w, n - 1)]
  }

  function Bits(w: bv32): (bits: seq<bool>)
    ensures |bits| == WIDTH
  {
    LowBits(w, WIDTH)
  }

  lemma {:induction false} LowBitsAt(w: bv32, n: nat, k: nat)
    requires k < n
    ensures LowBits(w, n)[k] <==> Bit(w, k)
  {
    if k < n - 1 {
      LowBitsAt(w, n - 1, k);
    }
  }

  // ---- the runs are the maximal runs ----

  predicate Maximal(bits: seq<bool>, r: Run) {
    && r.a <= r.b < |bits|
    && (forall k :: r.a <= k <= r.b ==> bits[k])
    && (r.a > 0 ==> !bits[r.a - 1])
    && (r.b + 1 < |bits| ==> !bits[r.b + 1])
  }

  predicate Within(r: Run, k: int) {
    r.a <= k <= r.b
  }

  predicate InSome(rs: seq<Run>, k: int) {
    exists j :: 0 <= j < |rs| && Within(rs[j], k)
  }

  /** A run is open from start, or the bit before i is clear. */
  predicate Open(bits: seq<bool>, i: nat, start: int)
    requires i <= |bits|
  {
    -1 <= start < i
    && if start == -1 then i == 0 || !bits[i - 1]
       else (start > 0 ==> !bits[start - 1]) && forall k :: start <= k < i ==> bits[k]
  }

  lemma {:induction false} RunsMaximal(bits: seq<bool>, i: nat, start: int)
    requires i <= |bits| && Open(bits, i, start)
    ensures forall j :: 0 <= j < |Runs(bits, i, start)| ==> Maximal(bits, Runs(bits, i, start)[j])
    decreases |bits| - i
  {
    if i < |bits| {
      if start == -1 && bits[i] {
        RunsMaximal(bits, i + 1, i);
      } else if start != -1 && !bits[i] {
        RunsMaximal(bits, i + 1, -1);
      } else {
        RunsMaximal(bits, i + 1, start);
      }
    }
  }

  /** Runs from bit low on, each more than one past the one before. */
  predicate Ascending(rs: seq<Run>, low: int) {
    (forall j :: 0 <= j < |rs| ==> low <= rs[j].a)
    && (forall i, j :: 0 <= i < j < |rs| ==> rs[i].b + 1 < rs[j].a)
  }

  lemma AscendingCons(r: Run, rs: seq<Run>)
    requires r.a <= r.b && Ascending(rs, r.b + 2)
    ensures Ascending([r] + rs, r.a)
  {
    var all := [r] + rs;
    assert all[0] == r && forall j :: 1 <= j < |all| ==> all[j] == rs[j - 1];
  }

  lemma {:induction false} RunsAscend(bits: seq<bool>, i: nat, start: int)
    requires i <= |bits| && -1 <= start < i
    ensures Ascending(Runs(bits, i, start), if start == -1 then i else start)
    decreases |bits| - i
  {
    if i < |bits| {
      if start == -1 && bits[i] {
        RunsAscend(bits, i + 1, i);
      } else if start != -1 && !bits[i] {
        RunsAscend(bits, i + 1, -1);
        AscendingCons(Run(start, i - 1), Runs(bits, i + 1, -1));
      } else {
        RunsAscend(bits, i + 1, start);
      }
    }
  }

  lemma InSomeCons(r: Run, rs: seq<Run>, k: int)
    ensures InSome([r] + rs, k) <==> Within(r, k) || InSome(rs, k)
  {
    assert forall j :: 0 <= j < |rs| ==> ([r] + rs)[j + 1] == rs[j];
    assert forall j :: 1 <= j <= |rs| ==> ([r] + rs)[j] == rs[j - 1];
    assert ([r] + rs)[0] == r;
  }

  lemma {:induction false} RunsCover(bits: seq<bool>, i: nat, start: int, k: nat)
    requires i <= |bits| && Open(bits, i, start)
    ensures InSome(Runs(bits, i, start), k) <==>
      k < |bits| && bits[k] && (if start == -1 then i else start) <= k
    decreases |bits| - i
  {
    if i == |bits| {
      if start != -1 {
        assert Runs(bits, i, start) == [Run(start, i - 1)] + [];
        InSomeCons(Run(start, i - 1), [], k);
      }
    } else if start == -1 && bits[i] {
      RunsCover(bits, i + 1, i, k);
    } else if start != -1 && !bits[i] {
      RunsCover(bits, i + 1, -1, k);
      InSomeCons(Run(start, i - 1), Runs(bits, i + 1, -1), k);
    } else {
      RunsCover(bits, i + 1, start, k);
    }
  }

  /** The printed runs are maximal runs of set bits, ascending, and together hold every set bit. */
  lemma RunsCharacterised(bits: seq<bool>)
    ensures var rs := AllRuns(bits);
      && (forall j :: 0 <= j < |rs| ==> Maximal(bits, rs[j]))
      && (forall i, j :: 0 <= i < j < |rs| ==> rs[i].b + 1 < rs[j].a)
      && (forall k :: 0 <= k < |bits| ==> (InSome(rs, k) <==> bits[k]))
  {
    RunsMaximal(bits, 0, -1);
    RunsAscend(bits, 0, -1);
    forall k | 0 <= k < |bits|
      ensures InSome(AllRuns(bits), k) <==> bits[k]
    {
      RunsCover(bits, 0, -1, k);
    }
  }

  /** The runs of a map: in some run exactly the channels whose bit is set. */
  lemma RunsOfMap(w: bv32)
    ensures Fit(AllRuns(Bits(w)))
    ensures forall k :: 0 <= k < WIDTH ==> (InSome(AllRuns(Bits(w)), k) <==> Bit(w, k))
  {
    RunsCharacterised(Bits(w));
    forall k | 0 <= k < WIDTH
      ensures InSome(AllRuns(Bits(w)), k) <==> Bit(w, k)
    {
      LowBitsAt(w, WIDTH, k);
    }
  }

  predicate Fit(rs: seq<Run>) {
    forall i :: 0 <= i < |rs| ==> rs[i].a <= rs[i].b < WIDTH
  }

  // ---- printing ----

  function ItemOf(r: Run): Item {
    if r.a == r.b then Slot(DecimalNat(r.a)) else Range(DecimalNat(r.a), DecimalNat(r.b))
  }

  /** The text left in the buffer when every run overwrites what was there. */
  function Overwritten(rs: seq<Run>, before: string): string {
    if rs == [] then before
    else (if |rs| == 1 then " " else ",") + ItemText(ItemOf(rs[|rs| - 1]))
  }

  method TestBit(w: bv32, i: nat) returns (on: bool)
    requires i < WIDTH
    ensures on == Bits(w)[i]
  {
    LowBitsAt(w, WIDTH, i);
    var mask := Shift(i);
    on := Has(w, mask);
  }

  lemma RunPrinted(done: seq<Run>, r: Run, before: string)
    ensures Overwritten(done + [r], before) == (if done == [] then " " else ",") + ItemText(ItemOf(r))
  {
    assert (done + [r])[|done + [r]| - 1] == r;
  }

  /** The text of one run behind its separator, in place of what was there. */
  method PrintRun(sep: string, start: nat, last: nat, ghost done: seq<Run>, ghost before: string) returns (str: string)
    requires sep == if done == [] then " " else ","
    ensures str == Overwritten(done + [Run(start, last)], before)
  {
    if start == last {
      str := sep + DecimalNat(start);
    } else {
      str := sep + (DecimalNat(start) + "-" + DecimalNat(last));
    }
    RunPrinted(done, Run(start, last), before);
  }

  /** timeslot_status: its buffer and its result. */
  method TimeslotStatus(w: bv32, before: string) returns (str: string, rc: int)
    ensures str == Overwritten(AllRuns(Bits(w)), before)
    ensures rc == if w == ALL_CHANNELS then 2 else 1
  {
    str := PrintRuns(w, before);
    rc := if w == ALL_CHANNELS then 2 else 1;
  }

  method PrintRuns(w: bv32, before: string) returns (str: string)
    ensures str == Overwritten(AllRuns(Bits(w)), before)
  {
    str := before;
    var sep, start, i := " ", -1, 0;
    ghost var done: seq<Run>, bits := [], Bits(w);
    while i < WIDTH
      invariant i <= WIDTH && -1 <= start < i
      invariant sep == if done == [] then " " else ","
      invariant str == Overwritten(done, before) && done + Runs(bits, i, start) == AllRuns(bits)
    {
      var bit := TestBit(w, i);
      RunsStep(bits, i, start, done);
      if start == -1 && bit {
        start := i;
      } else if start != -1 && !bit {
        str := PrintRun(sep, start, i - 1, done, before);
        done := done + [Run(start, i - 1)];
        sep, start := ",", -1;
      }
      i := i + 1;
    }
    if start != -1 {
      str := PrintRun(sep, start, i - 1, done, before);
    }
  }

  lemma RunsStep(bits: seq<bool>, i: nat, start: int, done: seq<Run>)
    requires i < |bits| && -1 <= start < i
    ensures done + Runs(bits, i, start)
         == if start != -1 && !bits[i] then done + [Run(start, i - 1)] + Runs(bits, i + 1, -1)
            else done + Runs(bits, i + 1, if start == -1 && bits[i] then i else start)
  {
    if start != -1 && !bits[i] {
      assert done + ([Run(start, i - 1)] + Runs(bits, i + 1, -1)) == done + [Run(start, i - 1)] + Runs(bits, i + 1, -1);
    }
  }

  /** The text left is that of the last run: its first and last channel, or the channel if it has one, behind a blank
      for the only run and a comma otherwise. */
  lemma TextLeft(w: bv32, before: string)
    requires AllRuns(Bits(w)) != []
    ensures var rs := AllRuns(Bits(w));
      var r := rs[|rs| - 1];
      Overwritten(rs, before) == (if |rs| == 1 then " " else ",")
        + if r.a == r.b then DecimalNat(r.a) else DecimalNat(r.a) + "-" + DecimalNat(r.b)
  {
  }

  // ---- reading the printed text back ----

  /** The list timeslot_status's separator is meant for: every run, appended. */
  function Entries(rs: seq<Run>): (es: seq<Entry>)
    ensures |es| == |rs|
    ensures forall i :: 0 <= i < |rs| ==> es[i] == Entry(if i == 0 then " " else ",", ItemOf(rs[i]))
  {
    seq(|rs|, i requires 0 <= i < |rs| => Entry(if i == 0 then " " else ",", ItemOf(rs[i])))
  }

  function Appended(rs: seq<Run>): string {
    ListText(Entries(rs))
  }

  lemma RunSpan(r: Run)
    requires r.a <= r.b < WIDTH
    ensures SpanOf(ItemOf(r)) == Span(r.a, r.b)
  {
    DigitsOfDecimal(r.a);
    DigitsOfDecimal(r.b);
  }

  lemma EntriesListed(rs: seq<Run>, es: seq<Entry>, k: nat)
    requires Fit(rs) && |es| == |rs| && k < WIDTH
    requires forall i :: 0 <= i < |rs| ==> es[i].item == ItemOf(rs[i])
    ensures forall i :: 0 <= i < |es| ==> InWidth(SpanOf(es[i].item))
    ensures (exists i :: 0 <= i < |es| && Covers(SpanOf(es[i].item), k)) <==> InSome(rs, k)
  {
    forall i | 0 <= i < |es|
      ensures SpanOf(es[i].item) == Span(rs[i].a, rs[i].b)
    {
      RunSpan(rs[i]);
    }
    assert forall i :: 0 <= i < |es| ==> (Covers(SpanOf(es[i].item), k) <==> Within(rs[i], k));
  }

  /** Reading any list of the runs: a map, with exactly the bits of the runs. */
  lemma ListOfRuns(rs: seq<Run>, es: seq<Entry>)
    requires Fit(rs) && Apart(es) && |es| == |rs|
    requires forall i :: 0 <= i < |rs| ==> es[i].item == ItemOf(rs[i])
    ensures ParseList(ListText(es)).Map?
    ensures forall k :: 0 <= k < WIDTH ==> (Bit(ParseList(ListText(es)).word, k) <==> InSome(rs, k))
  {
    ListMeaning(es);
    EntriesListed(rs, es, 0);
    forall k | 0 <= k < WIDTH
      ensures Bit(ParseList(ListText(es)).word, k) <==> InSome(rs, k)
    {
      EntriesListed(rs, es, k);
    }
  }

  /** With the runs appended, the parse loop gives the map back, whatever the map. */
  lemma AppendedRestored(w: bv32)
    ensures ParseList(Appended(AllRuns(Bits(w)))) == Map(w)
  {
    var rs := AllRuns(Bits(w));
    ListOfRuns(rs, Entries(rs));
    RunsOfMap(w);
    SameBits(ParseList(Appended(rs)).word, w);
  }

  lemma OneRunText(r: Run, sep: string)
    ensures sep + ItemText(ItemOf(r)) == ListText([Entry(sep, ItemOf(r))])
  {
    var es := [Entry(sep, ItemOf(r))];
    assert es[1..] == [] && ItemText(ItemOf(r)) + "" == ItemText(ItemOf(r));
  }

  /** Reading the text as it is: the last run only. */
  lemma LastRunRead(rs: seq<Run>, before: string)
    requires Fit(rs) && rs != []
    ensures ParseList(Overwritten(rs, before)).Map?
    ensures forall k :: 0 <= k < WIDTH ==>
      (Bit(ParseList(Overwritten(rs, before)).word, k) <==> Within(rs[|rs| - 1], k))
  {
    var r, sep := rs[|rs| - 1], if |rs| == 1 then " " else ",";
    OneRunText(r, sep);
    ListOfRuns([r], [Entry(sep, ItemOf(r))]);
    forall k | 0 <= k < WIDTH
      ensures InSome([r], k) <==> Within(r, k)
    {
      InSomeCons(r, [], k);
    }
  }

  /** Another run than the last one has a channel the last one has not. */
  lemma FirstIsElsewhere(bits: seq<bool>)
    requires |AllRuns(bits)| > 1
    ensures var rs := AllRuns(bits); InSome(rs, rs[0].a) && !Within(rs[|rs| - 1], rs[0].a)
  {
    RunsCharacterised(bits);
    assert Within(AllRuns(bits)[0], AllRuns(bits)[0].a);
  }

  lemma OnlyRun(rs: seq<Run>, k: nat)
    requires |rs| == 1
    ensures InSome(rs, k) <==> Within(rs[0], k)
  {
  }

  /** The bits of the last run are the map exactly when there is no other run. */
  lemma LastIsAll(w: bv32, rs: seq<Run>, read: Map)
    requires rs == AllRuns(Bits(w)) && rs != [] && read.Map?
    requires forall k :: 0 <= k < WIDTH ==> (Bit(read.word, k) <==> Within(rs[|rs| - 1], k))
    ensures read == Map(w) <==> |rs| == 1
  {
    RunsOfMap(w);
    if |rs| == 1 {
      forall k | 0 <= k < WIDTH
        ensures Bit(read.word, k) <==> Bit(w, k)
      {
        OnlyRun(rs, k);
      }
      SameBits(read.word, w);
    } else {
      FirstIsElsewhere(Bits(w));
      assert Bit(w, rs[0].a);
    }
  }

  /** As it is, the text holds the last run only, so that the parse loop gives the map back exactly
      when the map has one maximal run. */
  lemma OverwrittenRestored(w: bv32, before: string)
    requires w != 0
    ensures ParseList(Overwritten(AllRuns(Bits(w)), before)) == Map(w) <==> |AllRuns(Bits(w))| == 1
  {
    RunsOfMap(w);
    SomeRun(w);
    LastRunRead(AllRuns(Bits(w)), before);
    LastIsAll(w, AllRuns(Bits(w)), ParseList(Overwritten(AllRuns(Bits(w)), before)));
  }

  lemma SomeRun(w: bv32)
    requires w != 0
    ensures AllRuns(Bits(w)) != []
  {
    RunsOfMap(w);
    if AllRuns(Bits(w)) == [] {
      forall k | 0 <= k < WIDTH
        ensures Bit(w, k) <==> Bit(0, k)
      {
        assert !InSome([], k);
        BitOfZero(k);
      }
      SameBits(w, 0);
    }
  }
}
