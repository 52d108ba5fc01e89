/** step_optreq: a command template with required and optional places is filled with the user's words. */
module Optreq {
  import opened Text

  const NOPTFILL := 7
  /** The counting pass looks at six entries, the copying pass at five. */
  const COUNTED := NOPTFILL - 1
  const COPIED := NOPTFILL - 2

  /** An entry of a template: a constant word, a place for a word, or NULL. */
  datatype Slot = Fixed(text: string) | Opt | Req | Null {
    predicate Open() {
      Opt? || Req?
    }
  }

  type Template = seq<Slot>

  /** Templates are padded with NULL. */
  function Entry(t: Template, i: nat): Slot {
    if i < |t| then t[i] else Null
  }

  /** The number of places among the first i entries: the number of the word that goes into entry i. */
  function Places(t: Template, i: nat): nat {
    if i == 0 then 0 else Places(t, i - 1) + if Entry(t, i - 1).Open() then 1 else 0
  }

  /** The first NULL from i on, or COUNTED. */
  function FirstNull(t: Template, i: nat): (n: nat)
    requires i <= COUNTED
    ensures i <= n <= COUNTED
    ensures n < COUNTED ==> Entry(t, n) == Null
    ensures forall k :: i <= k < n ==> Entry(t, k) != Null
    decreases COUNTED - i
  {
    if i == COUNTED || Entry(t, i) == Null then i else FirstNull(t, i + 1)
  }

  /** How many words the counting pass allows. */
  function Allowed(t: Template): nat {
    Places(t, FirstNull(t, 0))
  }

  /** The copy ends at a NULL (but not in the first two entries) or at a place no word is left for. */
  predicate Ends(t: Template, words: seq<string>, i: nat) {
    (Entry(t, i) == Null && i > 1) || (Entry(t, i).Open() && Places(t, i) >= |words|)
  }

  function Cut(t: Template, words: seq<string>, i: nat): (c: nat)
    requires i <= COPIED
    ensures i <= c <= COPIED
    ensures c < COPIED ==> Ends(t, words, c)
    ensures forall k :: i <= k < c ==> !Ends(t, words, k)
    decreases COPIED - i
  {
    if i == COPIED || Ends(t, words, i) then i else Cut(t, words, i + 1)
  }

  predicate Accepted(t: Template, words: seq<string>) {
    |words| <= Allowed(t) && (Cut(t, words, 0) < COPIED ==> Entry(t, Cut(t, words, 0)) != Req)
  }

  /** What entry i of the template becomes, before the cut. */
  function Value(t: Template, words: seq<string>, i: nat): Option<string>
    requires Entry(t, i).Open() ==> Places(t, i) < |words|
  {
    match Entry(t, i)
    case Null => None
    case Fixed(text) => Some(text)
    case _ => Some(words[Places(t, i)])
  }

  function WordsAfter(argv: seq<string>, skip: nat): seq<string> {
    if skip <= |argv| then argv[skip..] else []
  }

  /** What the argument vector looks like after an accepted fill. */
  twostate predicate FilledIn(t: Template, words: seq<string>, args: array<Option<string>>)
    requires args.Length == NOPTFILL
    reads args
  {
    var c := Cut(t, words, 0);
    && (forall i :: 0 <= i < c ==> args[i] == Value(t, words, i))
    && (c < COPIED ==> args[c] == None)
    && (forall i :: c < i < NOPTFILL ==> args[i] == old(args[i]))
  }

  method CountPlaces(xargs: Template) returns (fill: nat)
    ensures fill == Allowed(xargs)
  {
    fill := 0;
    var i := 0;
    while i < COUNTED && Entry(xargs, i) != Null
      invariant i <= FirstNull(xargs, 0) && fill == Places(xargs, i)
    {
      if xargs[i].Open() {
        fill := fill + 1;
      }
      i := i + 1;
    }
  }

  /** The two passes. */
  method Fill(xargs: Template, args: array<Option<string>>, argv: seq<string>, skip: nat) returns (ok: bool)
    requires args.Length == NOPTFILL
    modifies args
    ensures ok == Accepted(xargs, WordsAfter(argv, skip))
    ensures ok ==> FilledIn(xargs, WordsAfter(argv, skip), args)
  {
    ghost var words := WordsAfter(argv, skip);
    var fill := CountPlaces(xargs);
    if |argv| - skip > fill {
      return false;
    }
    var i, flc := 0, 0;
    while i < COPIED
      invariant i <= Cut(xargs, words, 0) && flc == Places(xargs, i) && flc <= |words|
      invariant forall k :: 0 <= k < i ==> args[k] == Value(xargs, words, k)
      invariant forall k :: i <= k < NOPTFILL ==> args[k] == old(args[k])
    {
      var x := Entry(xargs, i);
      if x.Open() {
        if |argv| - skip - flc > 0 {
          args[i] := Some(argv[skip + flc]);
          flc := flc + 1;
        } else if x == Req {
          return false;
        } else {
          args[i] := None;
          return true;
        }
      } else {
        args[i] := if x.Fixed? then Some(x.text) else None;
        if x == Null && i > 1 {
          return true;
        }
      }
      i := i + 1;
    }
    return true;
  }

  lemma ValueIs(t: Template, argv: seq<string>, skip: nat, i: nat)
    requires i < Cut(t, WordsAfter(argv, skip), 0)
    ensures Entry(t, i).Open() ==> skip + Places(t, i) < |argv|
    ensures Value(t, WordsAfter(argv, skip), i) == match Entry(t, i)
      case Null => None
      case Fixed(text) => Some(text)
      case _ => Some(argv[skip + Places(t, i)])
  {
    assert !Ends(t, WordsAfter(argv, skip), i);
  }

  method StepOptreq(xargs: Template, args: array<Option<string>>, argv: seq<string>, skip: nat) returns (ok: bool)
    requires args.Length == NOPTFILL
    modifies args
    ensures ok == Accepted(xargs, WordsAfter(argv, skip))
    ensures ok ==> FilledIn(xargs, WordsAfter(argv, skip), args)
    ensures ok ==> forall i :: 0 <= i < Cut(xargs, WordsAfter(argv, skip), 0) ==>
      && (Entry(xargs, i) == Null ==> args[i] == None)
      && (Entry(xargs, i).Fixed? ==> args[i] == Some(Entry(xargs, i).text))
      && (Entry(xargs, i).Opt? || Entry(xargs, i).Req? ==>
            skip + Places(xargs, i) < |argv| && args[i] == Some(argv[skip + Places(xargs, i)]))
  {
    ok := Fill(xargs, args, argv, skip);
    if ok {
      forall i | 0 <= i < Cut(xargs, WordsAfter(argv, skip), 0)
        ensures Entry(xargs, i).Opt? || Entry(xargs, i).Req? ==> skip + Places(xargs, i) < |argv|
        ensures args[i] == match Entry(xargs, i)
          case Null => None
          case Fixed(text) => Some(text)
          case _ => Some(argv[skip + Places(xargs, i)])
      {
        ValueIs(xargs, argv, skip, i);
      }
    }
  }

  // ---- what filling means ----

  /** Places counts the places, required or optional. */
  lemma {:induction false} PlacesCount(t: Template, i: nat)
    ensures Places(t, i) == |set j: nat | j < i && (Entry(t, j).Opt? || Entry(t, j).Req?)|
  {
    var all := set j: nat | j < i && (Entry(t, j).Opt? || Entry(t, j).Req?);
    if i == 0 {
      assert all == {};
    } else {
      PlacesCount(t, i - 1);
      var before := set j: nat | j < i - 1 && (Entry(t, j).Opt? || Entry(t, j).Req?);
      assert all == before + if Entry(t, i - 1).Opt? || Entry(t, i - 1).Req? then {i - 1} else {};
    }
  }

  /** Where the copy ends: behind the first two entries at the first NULL, anywhere at the first place that
      as many places as there are words precede, and after five entries in any case. */
  lemma CutIs(t: Template, words: seq<string>, i: nat)
    requires i <= COPIED
    ensures Cut(t, words, 0) == i <==>
      && (i < 5 ==>
            (i >= 2 && Entry(t, i).Null?) || ((Entry(t, i).Opt? || Entry(t, i).Req?) && Places(t, i) >= |words|))
      && (forall k :: 0 <= k < i ==> !(k >= 2 && Entry(t, k).Null?))
      && (forall k :: 0 <= k < i && (Entry(t, k).Opt? || Entry(t, k).Req?) ==> Places(t, k) < |words|)
  {
    assert forall k :: 0 <= k < COPIED ==> (Ends(t, words, k) <==>
      (k >= 2 && Entry(t, k).Null?) || ((Entry(t, k).Opt? || Entry(t, k).Req?) && Places(t, k) >= |words|));
  }

  lemma {:induction false} PlacesGrow(t: Template, i: nat, j: nat)
    requires i <= j
    ensures Places(t, i) <= Places(t, j) <= Places(t, i) + (j - i)
    decreases j - i
  {
    if i < j {
      PlacesGrow(t, i, j - 1);
    }
  }

  lemma {:induction false} PlacesEnd(t: Template, i: nat)
    requires i >= |t|
    ensures Places(t, i) == Places(t, |t|)
  {
    if i > |t| {
      PlacesEnd(t, i - 1);
    }
  }

  /** The m-th place. */
  function Place(t: Template, m: nat, i: nat): (p: nat)
    requires m < Places(t, i)
    ensures p < i && Entry(t, p).Open() && Places(t, p) == m
  {
    if Places(t, i - 1) > m then Place(t, m, i - 1) else i - 1
  }

  /** A template proper: constant words and places only. */
  predicate Proper(t: Template) {
    |t| > 1 && forall i :: 0 <= i < |t| ==> t[i] != Null
  }

  lemma AllowedOfProper(t: Template)
    requires Proper(t)
    ensures Allowed(t) == Places(t, COUNTED)
  {
    var n := FirstNull(t, 0);
    if n < COUNTED {
      assert Entry(t, |t|) == Null;
      PlacesEnd(t, COUNTED);
    }
  }

  /** In a template of constant words and places, the words taken are exactly the first ones: each of
      them stands, in order, in a place before the cut, as long as the first five entries have one. */
  lemma WordsTaken(t: Template, words: seq<string>)
    requires Proper(t)
    ensures var c := Cut(t, words, 0);
      && Places(t, c) == (if |words| <= Places(t, COPIED) then |words| else Places(t, COPIED))
      && (forall m :: 0 <= m < Places(t, c) ==> var p := Place(t, m, c); p < c && Value(t, words, p) == Some(words[m]))
      && (forall i :: 0 <= i < c && Entry(t, i).Open() ==> Places(t, i) < Places(t, c))
      && (forall i :: 0 <= i < c && Entry(t, i).Fixed? ==> Value(t, words, i) == Some(Entry(t, i).text))
  {
    var c := Cut(t, words, 0);
    TakenUpTo(t, words, c);
    PlacesGrow(t, c, COPIED);
    if c < COPIED && Entry(t, c) == Null {
      PlacesEnd(t, COPIED);
      PlacesEnd(t, c);
    }
    forall i | 0 <= i < c && Entry(t, i).Open()
      ensures Places(t, i) < Places(t, c)
    {
      PlacesGrow(t, i + 1, c);
    }
  }

  lemma {:induction false} TakenUpTo(t: Template, words: seq<string>, i: nat)
    requires i <= Cut(t, words, 0)
    ensures Places(t, i) <= |words|
  {
    if i > 0 {
      TakenUpTo(t, words, i - 1);
      assert !Ends(t, words, i - 1);
    }
  }

  /** Hence the outcome: accepted exactly when no more words than places are given and the first place
      left over, if any, is optional; every word is then used, unless the template has a place in its
      sixth entry, which is counted but never copied, and a word for it is given. */
  lemma FillMeaning(t: Template, words: seq<string>)
    requires Proper(t)
    ensures var c := Cut(t, words, 0);
      && (Accepted(t, words) <==> (
            && |words| <= Places(t, COUNTED)
            && (|words| < Places(t, COPIED) ==> Entry(t, Place(t, |words|, COPIED)) == Opt)))
      && (|words| <= Allowed(t) ==>
            (Places(t, c) == |words| <==> |words| <= Places(t, COPIED))
            && (|words| > Places(t, COPIED) <==> Entry(t, COPIED).Open() && |words| == Places(t, COPIED) + 1))
  {
    var c := Cut(t, words, 0);
    WordsTaken(t, words);
    AllowedOfProper(t);
    if |words| < Places(t, COPIED) {
      var p := Place(t, |words|, COPIED);
      if c < p {
        PlacesGrow(t, c + 1, p);
      }
    } else if c < COPIED && Entry(t, c).Open() {
      PlacesGrow(t, c + 1, COPIED);
    }
  }

  /** With the required places first, filling fails exactly when there are too many words or too few
      for the required places. */
  lemma RequiredFirst(t: Template, words: seq<string>, required: nat)
    requires Proper(t) && |t| <= COPIED && required <= Places(t, COPIED)
    requires forall i :: 0 <= i < |t| && t[i].Open() ==> (t[i] == Req <==> Places(t, i) < required)
    ensures Accepted(t, words) <==> required <= |words| <= Places(t, COPIED)
  {
    FillMeaning(t, words);
    AllowedOfProper(t);
    PlacesEnd(t, COPIED);
    PlacesEnd(t, COUNTED);
  }

  /** The template of "show bgp ip" has such a sixth entry: of two words it takes one. */
  lemma LastWordLost(bgpctl: string, a: string, b: string)
    ensures var t := [Fixed(bgpctl), Fixed("show"), Fixed("ip"), Fixed("bgp"), Opt, Opt, Opt];
      Allowed(t) == 2 && Accepted(t, [a, b]) && Cut(t, [a, b], 0) == COPIED && Places(t, COPIED) == 1
  {
    var t := [Fixed(bgpctl), Fixed("show"), Fixed("ip"), Fixed("bgp"), Opt, Opt, Opt];
    assert Places(t, 1) == 0 && Places(t, 2) == 0 && Places(t, 3) == 0 && Places(t, 4) == 0;
    assert Places(t, 5) == 1 && Places(t, 6) == 2;
    var w := [a, b];
    assert !Ends(t, w, 0) && !Ends(t, w, 1) && !Ends(t, w, 2) && !Ends(t, w, 3) && !Ends(t, w, 4);
    AllowedOfProper(t);
  }

  /** NULLs in the first two entries are copied and do not end the copy: behind them it goes on, unless the
      entry beside them is a place no word is left for. A NULL in front lets no word be given at all. */
  lemma LeadingNullKept(t: Template, words: seq<string>)
    requires Entry(t, 0) == Null || Entry(t, 1) == Null
    requires |words| <= Allowed(t)
    ensures Entry(t, 0) == Null ==> words == [] && Cut(t, words, 0) >= 1 && Value(t, words, 0) == None
    ensures Entry(t, 0) == Null ==> (Cut(t, words, 0) >= 2 <==> !Entry(t, 1).Open())
    ensures Entry(t, 1) == Null ==> Value(t, words, 1) == None
    ensures Entry(t, 1) == Null ==> (Cut(t, words, 0) >= 2 <==> !(Entry(t, 0).Open() && words == []))
  {
    assert Places(t, 1) == if Entry(t, 0).Open() then 1 else 0;
    assert FirstNull(t, 0) <= 1;
    PlacesGrow(t, 0, FirstNull(t, 0));
    assert Ends(t, words, 0) <==> Entry(t, 0).Open() && words == [];
    assert Ends(t, words, 1) <==> Entry(t, 1).Open() && Places(t, 1) >= |words|;
  }
}
