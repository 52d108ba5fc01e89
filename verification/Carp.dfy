/** CARP nodes: intcnode keeps a dense table of (vhid, advskew) pairs in two parallel arrays. */
module Carp {
  import opened Text
  import opened Folding

  /** CARP_MAXNODES, a constant of the kernel header. */
  const MAXNODES: nat := 32

  datatype Node = Node(vhid: int, advskew: int)

  type Nodes = seq<Node>

  predicate IsVhid(v: int) {
    1 <= v <= 255
  }

  /** The table of a kernel interface: legal, distinct vhids. */
  predicate Valid(nodes: Nodes) {
    && |nodes| <= MAXNODES
    && (forall i :: 0 <= i < |nodes| ==> IsVhid(nodes[i].vhid) && 0 <= nodes[i].advskew <= 255)
    && (forall i, j :: 0 <= i < j < |nodes| ==> nodes[i].vhid != nodes[j].vhid)
  }

  /** The arrays of a carpreq. */
  datatype Arrays = Arrays(vhids: seq<int>, advskews: seq<int>)

  type Table = t: Arrays | |t.vhids| == |t.advskews| == MAXNODES
    witness Arrays(seq(MAXNODES, _ => 0), seq(MAXNODES, _ => 0))

  /** The arrays hold the nodes, then zeros. */
  predicate Holds(t: Table, nodes: Nodes) {
    && |nodes| <= MAXNODES
    && (forall i :: 0 <= i < |nodes| ==> t.vhids[i] == nodes[i].vhid && t.advskews[i] == nodes[i].advskew)
    && (forall i :: |nodes| <= i < MAXNODES ==> t.vhids[i] == 0 && t.advskews[i] == 0)
  }

  /** The end of the used part: the first zero vhid, or the end of the array. */
  function Used(vhids: seq<int>, i: nat): (n: nat)
    requires i <= |vhids|
    ensures i <= n <= |vhids|
    ensures n < |vhids| ==> vhids[n] == 0
    ensures forall k :: i <= k < n ==> vhids[k] != 0
    decreases |vhids| - i
  {
    if i == |vhids| || vhids[i] == 0 then i else Used(vhids, i + 1)
  }

  function NodesOf(t: Table): (nodes: Nodes)
    ensures |nodes| == Used(t.vhids, 0)
    ensures forall i :: 0 <= i < |nodes| ==> nodes[i] == Node(t.vhids[i], t.advskews[i])
  {
    seq(Used(t.vhids, 0), i requires 0 <= i < Used(t.vhids, 0) => Node(t.vhids[i], t.advskews[i]))
  }

  /** The first node from i on with the given vhid, or |nodes|. */
  function FindFrom(nodes: Nodes, vhid: int, i: nat): (p: nat)
    requires i <= |nodes|
    ensures i <= p <= |nodes|
    ensures p < |nodes| ==> nodes[p].vhid == vhid
    ensures forall k :: i <= k < p ==> nodes[k].vhid != vhid
    decreases |nodes| - i
  {
    if i == |nodes| || nodes[i].vhid == vhid then i else FindFrom(nodes, vhid, i + 1)
  }

  datatype Command = Set(vhid: int, advskew: int) | Delete(vhid: int)

  /** What the words of a carpnode line ask for: [no] carpnode vhid [advskew] [state]. */
  function Parse(argv: seq<string>): Option<Command> {
    var adding := argv != [] && !NoArg(argv[0]);
    var skip := if adding then 1 else 2;
    var args := if skip <= |argv| then argv[skip..] else [];
    if (!adding && |args| != 1) || (adding && (|args| > 3 || |args| < 1)) then None
    else match Strtonum(args[0], 1, 255)
      case None => None
      case Some(vhid) =>
        if |args| > 1 then
          match Strtonum(args[1], 0, 255)
          case None => None
          case Some(skew) => if adding then Some(Set(vhid, skew)) else Some(Delete(vhid))
        else if adding then Some(Set(vhid, 0)) else Some(Delete(vhid))
  }

  /** The arrays after a command: set at the vhid's place or at the end, swap the last node into the
      place of a deleted one; nothing changes when the table is full or the vhid is absent. */
  function Update(t: Table, c: Command): Table
  {
    var nodes := NodesOf(t);
    var i := FindFrom(nodes, c.vhid, 0);
    match c
    case Set(v, s) =>
      if i == MAXNODES then t else Arrays(t.vhids[i := v], t.advskews[i := s])
    case Delete(_) =>
      if i == |nodes| then t
      else
        var last := |nodes| - 1;
        Arrays(t.vhids[i := t.vhids[last]][last := 0], t.advskews[i := t.advskews[last]][last := 0])
  }

  /** The arrays after the words of a carpnode line. */
  function AfterLine(t: Table, argv: seq<string>): Table {
    match Parse(argv)
    case None => t
    case Some(c) => Update(t, c)
  }

  /** The table after a command; a set on a full table and a delete of an absent vhid change nothing. */
  function Step(nodes: Nodes, c: Command): Nodes {
    var i := FindFrom(nodes, c.vhid, 0);
    match c
    case Set(v, s) =>
      if i < |nodes| then nodes[i := Node(v, s)]
      else if |nodes| == MAXNODES then nodes
      else nodes + [Node(v, s)]
    case Delete(v) =>
      if i == |nodes| then nodes
      else nodes[i := nodes[|nodes| - 1]][..|nodes| - 1]
  }

  class CarpReq {
    const vhids: array<int>
    const advskews: array<int>

    constructor ()
      ensures fresh(vhids) && fresh(advskews) && vhids != advskews
      ensures vhids.Length == advskews.Length == MAXNODES && Holds(Contents(), [])
    {
      vhids := new int[MAXNODES](_ => 0);
      advskews := new int[MAXNODES](_ => 0);
    }

    ghost function Contents(): Table
      requires vhids.Length == advskews.Length == MAXNODES
      reads this, vhids, advskews
    {
      Arrays(vhids[..], advskews[..])
    }

    /** The scan for the end of the table, bounded by the array. */
    method LastUsed() returns (last: int)
      ensures last == Used(vhids[..], 0) - 1
    {
      last := 0;
      while last < vhids.Length && vhids[last] != 0
        invariant 0 <= last <= vhids.Length && Used(vhids[..], 0) == Used(vhids[..], last)
      {
        last := last + 1;
      }
      last := last - 1;
    }

    /** The scan for the vhid; full says that a new vhid has no room. */
    method FindVhid(vhid: int, adding: bool) returns (i: nat, full: bool)
      requires vhid != 0 && vhids.Length == advskews.Length == MAXNODES
      ensures var p := FindFrom(NodesOf(Contents()), vhid, 0);
        full == (adding && p == MAXNODES) && (!full ==> i == p)
    {
      ghost var nodes := NodesOf(Contents());
      i := 0;
      full := false;
      while i < MAXNODES && vhids[i] != 0
        invariant i <= |nodes| && FindFrom(nodes, vhid, 0) == FindFrom(nodes, vhid, i)
        invariant adding ==> i < MAXNODES
      {
        assert nodes[i].vhid == vhids[i];
        if vhid == vhids[i] {
          return;
        }
        assert FindFrom(nodes, vhid, i) == FindFrom(nodes, vhid, i + 1);
        if adding && i + 1 == MAXNODES {
          assert i + 1 == |nodes|;
          return i, true;
        }
        i := i + 1;
      }
      assert i == |nodes|;
    }

    /** intcnode on the arrays the kernel returned. */
    method Intcnode(argv: seq<string>)
      requires vhids != advskews && vhids.Length == advskews.Length == MAXNODES
      modifies vhids, advskews
      ensures var after := AfterLine(Arrays(old(vhids[..]), old(advskews[..])), argv);
        vhids[..] == after.vhids && advskews[..] == after.advskews
    {
      var c := Parse(argv);
      if c.None? {
        return;
      }
      ParsedIsLegal(argv);
      var adding, vhid := c.value.Set?, c.value.vhid;
      var last := LastUsed();
      var i, full := FindVhid(vhid, adding);
      if full || (!adding && (i == MAXNODES || vhids[i] == 0)) {
        assert !full ==> i == last + 1;
        return;
      }
      if adding {
        vhids[i], advskews[i] := vhid, c.value.advskew;
      } else {
        SwapLast(i, last);
      }
    }

    /** Deleting place i: the last node takes it. */
    method SwapLast(i: nat, last: nat)
      requires vhids != advskews && vhids.Length == advskews.Length == MAXNODES && i <= last < MAXNODES
      modifies vhids, advskews
      ensures vhids[..] == old(vhids[..][i := vhids[last]][last := 0])
      ensures advskews[..] == old(advskews[..][i := advskews[last]][last := 0])
    {
      if last == i {
        vhids[i], advskews[i] := 0, 0;
      } else {
        vhids[i], advskews[i] := vhids[last], advskews[last];
        vhids[last], advskews[last] := 0, 0;
      }
    }
  }

  lemma HeldNodes(t: Table, nodes: Nodes)
    requires Valid(nodes) && Holds(t, nodes)
    ensures NodesOf(t) == nodes
  {
    var n := Used(t.vhids, 0);
    assert n < |nodes| ==> IsVhid(nodes[n].vhid);
    assert |nodes| < MAXNODES ==> t.vhids[|nodes|] == 0;
  }

  /** On a well-formed table the arrays follow the list of nodes. */
  lemma UpdateIsStep(t: Table, nodes: Nodes, c: Command)
    requires Valid(nodes) && Holds(t, nodes) && Legal(c)
    ensures Valid(Step(nodes, c)) && Holds(Update(t, c), Step(nodes, c))
  {
    HeldNodes(t, nodes);
    StepValid(nodes, c);
  }

  // ---- the table as a map ----

  /** The finite map from vhid to advskew that a table stands for. */
  function AsMap(nodes: Nodes): map<int, int>
    requires Valid(nodes)
  {
    map n | n in nodes :: n.vhid := n.advskew
  }

  lemma StepValid(nodes: Nodes, c: Command)
    requires Valid(nodes) && Legal(c)
    ensures Valid(Step(nodes, c))
  {
  }

  lemma SetMembers(nodes: Nodes, v: int, s: int, x: Node)
    requires Valid(nodes) && (|nodes| < MAXNODES || FindFrom(nodes, v, 0) < |nodes|)
    ensures x in Step(nodes, Set(v, s)) <==> x == Node(v, s) || (x in nodes && x.vhid != v)
  {
    var after, i := Step(nodes, Set(v, s)), FindFrom(nodes, v, 0);
    assert after[i] == Node(v, s);
    if x in nodes && x.vhid != v {
      var k :| 0 <= k < |nodes| && nodes[k] == x;
      assert after[k] == x;
    }
    if x in after {
      var k :| 0 <= k < |after| && after[k] == x;
      assert k != i ==> nodes[k] == x;
    }
  }

  lemma DeleteMembers(nodes: Nodes, v: int, x: Node)
    requires Valid(nodes)
    ensures x in Step(nodes, Delete(v)) <==> x in nodes && x.vhid != v
  {
    var after, i, last := Step(nodes, Delete(v)), FindFrom(nodes, v, 0), |nodes| - 1;
    if i < |nodes| {
      if x in nodes && x.vhid != v {
        var k :| 0 <= k < |nodes| && nodes[k] == x;
        assert after[if k == last then i else k] == x;
      }
      if x in after {
        var k :| 0 <= k < |after| && after[k] == x;
        assert nodes[if k == i then last else k] == x;
        assert nodes[i].vhid == v;
      }
    }
  }

  lemma SetIsUpdate(nodes: Nodes, v: int, s: int)
    requires Valid(nodes) && Legal(Set(v, s)) && (|nodes| < MAXNODES || FindFrom(nodes, v, 0) < |nodes|)
    ensures Valid(Step(nodes, Set(v, s))) && AsMap(Step(nodes, Set(v, s))) == AsMap(nodes)[v := s]
  {
    StepValid(nodes, Set(v, s));
    forall x: Node
      ensures x in Step(nodes, Set(v, s)) <==> x == Node(v, s) || (x in nodes && x.vhid != v)
    {
      SetMembers(nodes, v, s, x);
    }
    assert Node(v, s) in Step(nodes, Set(v, s));
  }

  lemma DeleteIsRemoval(nodes: Nodes, v: int)
    requires Valid(nodes)
    ensures Valid(Step(nodes, Delete(v))) && AsMap(Step(nodes, Delete(v))) == AsMap(nodes) - {v}
  {
    StepValid(nodes, Delete(v));
    forall x: Node
      ensures x in Step(nodes, Delete(v)) <==> x in nodes && x.vhid != v
    {
      DeleteMembers(nodes, v, x);
    }
  }

  lemma VhidInMap(nodes: Nodes, v: int)
    requires Valid(nodes)
    ensures v in AsMap(nodes) <==> FindFrom(nodes, v, 0) < |nodes|
  {
    if FindFrom(nodes, v, 0) < |nodes| {
      assert nodes[FindFrom(nodes, v, 0)] in nodes;
    }
  }

  /** What a command does to the map. */
  function OnMap(m: map<int, int>, c: Command): map<int, int> {
    match c
    case Set(v, s) => if |m| == MAXNODES && v !in m then m else m[v := s]
    case Delete(v) => m - {v}
  }

  lemma {:induction false} MapSize(nodes: Nodes)
    requires Valid(nodes)
    ensures |AsMap(nodes)| == |nodes|
  {
    if nodes == [] {
      assert AsMap(nodes) == map[];
    } else {
      var front, x := nodes[..|nodes| - 1], nodes[|nodes| - 1];
      assert nodes == front + [x];
      ValidFront(front, x);
      MapSize(front);
      NewNode(front, x);
    }
  }

  lemma ValidFront(front: Nodes, x: Node)
    requires Valid(front + [x])
    ensures Valid(front)
  {
    var nodes := front + [x];
    assert forall i :: 0 <= i < |front| ==> front[i] == nodes[i];
  }

  lemma NewNode(front: Nodes, x: Node)
    requires Valid(front) && Valid(front + [x])
    ensures Step(front, Set(x.vhid, x.advskew)) == front + [x]
    ensures |AsMap(front + [x])| == |AsMap(front)| + 1
  {
    var nodes := front + [x];
    assert nodes[|front|] == x;
    assert forall i :: 0 <= i < |front| ==> nodes[i] == front[i];
    assert FindFrom(front, x.vhid, 0) == |front|;
    SetIsUpdate(front, x.vhid, x.advskew);
    VhidInMap(front, x.vhid);
  }

  predicate Legal(c: Command) {
    c.Set? ==> IsVhid(c.vhid) && 0 <= c.advskew <= 255
  }

  lemma StepRefinesMap(nodes: Nodes, c: Command)
    requires Valid(nodes) && Legal(c)
    ensures Valid(Step(nodes, c)) && AsMap(Step(nodes, c)) == OnMap(AsMap(nodes), c)
  {
    MapSize(nodes);
    VhidInMap(nodes, c.vhid);
    match c
    case Set(v, s) =>
      if |nodes| < MAXNODES || FindFrom(nodes, v, 0) < |nodes| {
        SetIsUpdate(nodes, v, s);
      }
    case Delete(v) => DeleteIsRemoval(nodes, v);
  }

  /** The two arrays are a dense table: legal and distinct vhids, then zeros. */
  predicate WellFormed(t: Table) {
    Valid(NodesOf(t)) && Holds(t, NodesOf(t))
  }

  function MapOf(t: Table): map<int, int>
    requires WellFormed(t)
  {
    AsMap(NodesOf(t))
  }

  /** The arrays after the first k commands. */
  function Updating(): (Table, Command) -> Table {
    (t: Table, c: Command) => Update(t, c)
  }

  function Mapping(): (map<int, int>, Command) -> map<int, int> {
    (m: map<int, int>, c: Command) => OnMap(m, c)
  }

  function Run(t: Table, cs: seq<Command>, k: nat): Table
    requires k <= |cs|
  {
    Fold(Updating(), t, cs, k)
  }

  function RunMap(m: map<int, int>, cs: seq<Command>, k: nat): map<int, int>
    requires k <= |cs|
  {
    Fold(Mapping(), m, cs, k)
  }

  lemma UpdateRefinesMap(t: Table, c: Command)
    requires WellFormed(t) && Legal(c)
    ensures WellFormed(Update(t, c)) && MapOf(Update(t, c)) == OnMap(MapOf(t), c)
  {
    UpdateIsStep(t, NodesOf(t), c);
    HeldNodes(Update(t, c), Step(NodesOf(t), c));
    StepRefinesMap(NodesOf(t), c);
  }

  /** The map a well-formed table stands for. */
  function Meaning(t: Table): Option<map<int, int>> {
    if WellFormed(t) then Some(MapOf(t)) else None
  }

  lemma StepMeaning(t: Table, c: Command)
    requires Legal(c) && Meaning(t).Some?
    ensures Meaning(Update(t, c)) == Some(OnMap(Meaning(t).value, c))
  {
    UpdateRefinesMap(t, c);
  }

  lemma RunMeaning(t: Table, cs: seq<Command>, k: nat, m: map<int, int>)
    requires k <= |cs| && Meaning(t) == Some(m) && forall i :: 0 <= i < |cs| ==> Legal(cs[i])
    ensures Meaning(Run(t, cs, k)) == Some(RunMap(m, cs, k))
  {
    forall a: Table, c: Command | Legal(c) && Meaning(a).Some?
      ensures Meaning(Updating()(a, c)) == Some(Mapping()(Meaning(a).value, c))
    {
      StepMeaning(a, c);
    }
    FoldRelated(Updating(), Mapping(), Meaning, Legal, t, m, cs, k);
  }

  /** Every run of sets and deletes on the two arrays keeps them legal, dense and without duplicates after
      every step, and does to the map what the commands say. */
  lemma RunRefinesMap(t: Table, cs: seq<Command>, k: nat)
    requires WellFormed(t) && k <= |cs| && forall i :: 0 <= i < |cs| ==> Legal(cs[i])
    ensures WellFormed(Run(t, cs, k)) && MapOf(Run(t, cs, k)) == RunMap(MapOf(t), cs, k)
  {
    RunMeaning(t, cs, k, MapOf(t));
  }

  /** Only legal commands come out of the parser. */
  lemma ParsedIsLegal(argv: seq<string>)
    ensures Parse(argv).Some? ==> Legal(Parse(argv).value) && IsVhid(Parse(argv).value.vhid)
  {
  }

  // ---- what a line does ----

  /** no carpnode v */
  predicate AsksDelete(argv: seq<string>, v: int) {
    |argv| == 3 && NoArg(argv[0]) && Strtonum(argv[2], 1, 255) == Some(v)
  }

  /** carpnode v [s [state]]; without s it is 0. */
  predicate AsksSet(argv: seq<string>, v: int, s: int) {
    && 2 <= |argv| <= 4 && !NoArg(argv[0]) && Strtonum(argv[1], 1, 255) == Some(v)
    && (if |argv| == 2 then s == 0 else Strtonum(argv[2], 0, 255) == Some(s))
  }

  /** A line of the first shape removes exactly its vhid, one of the second sets it to its advskew, unless it is
      new and the table full, and any other line changes nothing. */
  lemma LineMeaning(t: Table, argv: seq<string>)
    requires WellFormed(t)
    ensures WellFormed(AfterLine(t, argv))
    ensures forall v :: AsksDelete(argv, v) ==> MapOf(AfterLine(t, argv)) == MapOf(t) - {v}
    ensures forall v, s :: AsksSet(argv, v, s) ==>
      MapOf(AfterLine(t, argv)) == if v in MapOf(t) || |MapOf(t)| < MAXNODES then MapOf(t)[v := s] else MapOf(t)
    ensures (forall v :: !AsksDelete(argv, v)) && (forall v, s :: !AsksSet(argv, v, s)) ==> AfterLine(t, argv) == t
  {
    ParsedIsLegal(argv);
    if Parse(argv).Some? {
      UpdateRefinesMap(t, Parse(argv).value);
      MapSize(NodesOf(t));
    }
    ParseIs(argv);
  }

  lemma ParseIs(argv: seq<string>)
    ensures forall v :: Parse(argv) == Some(Delete(v)) <==> AsksDelete(argv, v)
    ensures forall v, s :: Parse(argv) == Some(Set(v, s)) <==> AsksSet(argv, v, s)
  {
  }

  /** The same for numbers as they are printed. */
  lemma DecimalLineMeaning(t: Table, word: string, name: string, v: int, s: int)
    requires WellFormed(t) && NoArg(word) && !NoArg(name) && IsVhid(v) && 0 <= s <= 255
    requires v in MapOf(t) || |MapOf(t)| < MAXNODES
    ensures var after := AfterLine(t, [word, name, Decimal(v)]); WellFormed(after) && MapOf(after) == MapOf(t) - {v}
    ensures var after := AfterLine(t, [name, Decimal(v)]); WellFormed(after) && MapOf(after) == MapOf(t)[v := 0]
    ensures var after := AfterLine(t, [name, Decimal(v), Decimal(s)]);
      WellFormed(after) && MapOf(after) == MapOf(t)[v := s]
  {
    StrtonumOfDecimal(v, 1, 255);
    StrtonumOfDecimal(s, 0, 255);
    LineMeaning(t, [word, name, Decimal(v)]);
    LineMeaning(t, [name, Decimal(v)]);
    LineMeaning(t, [name, Decimal(v), Decimal(s)]);
    assert AsksDelete([word, name, Decimal(v)], v);
    assert AsksSet([name, Decimal(v)], v, 0);
    assert AsksSet([name, Decimal(v), Decimal(s)], v, s);
  }

  /** The words conf_carp writes for a node ask for that node. */
  lemma ParseNode(name: string, n: Node)
    requires !NoArg(name) && IsVhid(n.vhid) && 0 <= n.advskew <= 255
    ensures Parse([name, Decimal(n.vhid), Decimal(n.advskew)]) == Some(Set(n.vhid, n.advskew))
  {
    StrtonumOfDecimal(n.vhid, 1, 255);
    StrtonumOfDecimal(n.advskew, 0, 255);
    var v, k := Decimal(n.vhid), Decimal(n.advskew);
    assert [name, v, k][1..] == [v, k];
  }

  lemma NextIsNew(nodes: Nodes, k: nat)
    requires Valid(nodes) && k < |nodes|
    ensures Valid(nodes[..k]) && Step(nodes[..k], Set(nodes[k].vhid, nodes[k].advskew)) == nodes[..k + 1]
    ensures Legal(Set(nodes[k].vhid, nodes[k].advskew))
  {
    assert nodes[..k + 1] == nodes[..k] + [nodes[k]];
    NewNode(nodes[..k], nodes[k]);
  }

  /** Storing the next node of a table. */
  lemma NextNodeStored(t: Table, nodes: Nodes, k: nat)
    requires Valid(nodes) && k < |nodes| && Holds(t, nodes[..k])
    ensures Holds(Update(t, Set(nodes[k].vhid, nodes[k].advskew)), nodes[..k + 1])
  {
    NextIsNew(nodes, k);
    UpdateIsStep(t, nodes[..k], Set(nodes[k].vhid, nodes[k].advskew));
  }
}
