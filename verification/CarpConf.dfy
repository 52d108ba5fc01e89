/** The CARP part of an interface configuration: conf_carp writes it, interface mode reads it back. */
module CarpConf {
  import opened Text
  import opened Tokens
  import opened Abbreviations
  import opened Interface
  import opened Folding
  import C = Carp

  /** CARP_DFLTINTV and the buffer sizes of struct carpreq, constants of the kernel headers. */
  const DFLTINTV := 1
  const IFNAMSIZ := 16
  const KEY_LEN := 20
  const INT_MAX := 0x7fff_ffff

  datatype Carp = Carp(dev: string, key: string, advbase: int, table: C.Table)

  function NodeLine(n: C.Node): string {
    ConfLine("carpnode", [Decimal(n.vhid), Decimal(n.advskew)])
  }

  function NodeLines(nodes: C.Nodes): (lines: seq<string>)
    ensures |lines| == |nodes|
    ensures forall i :: 0 <= i < |nodes| ==> lines[i] == NodeLine(nodes[i])
  {
    seq(|nodes|, i requires 0 <= i < |nodes| => NodeLine(nodes[i]))
  }

  /** The lines about the nodes: the one-node form, or one carpnode line each. */
  function TableLines(nodes: C.Nodes): seq<string> {
    if |nodes| == 0 then []
    else if |nodes| == 1 then
      [Line("vhid", Decimal(nodes[0].vhid))]
      + if nodes[0].advskew != 0 then [Line("advskew", Decimal(nodes[0].advskew))] else []
    else NodeLines(nodes)
  }

  function DevLines(s: Carp): seq<string> { if s.dev != "" then [Line("carpdev", s.dev)] else [] }
  function KeyLines(s: Carp): seq<string> { if s.key != "" then [Line("cpass", s.key)] else [] }
  function BaseLines(s: Carp): seq<string> {
    if s.advbase != DFLTINTV then [Line("advbase", Decimal(s.advbase))] else []
  }

  function ConfLines(s: Carp): seq<string>
  {
    var nodes := C.NodesOf(s.table);
    if nodes == [] then [] else DevLines(s) + KeyLines(s) + BaseLines(s) + TableLines(nodes)
  }

  method ConfCarp(s: Carp) returns (output: seq<string>)
    ensures output == ConfLines(s)
  {
    output := [];
    if s.table.vhids[0] == 0 {
      return;
    }
    if s.dev != "" {
      output := output + [Line("carpdev", s.dev)];
    }
    if s.key != "" {
      output := output + [Line("cpass", s.key)];
    }
    if s.advbase != DFLTINTV {
      output := output + [Line("advbase", Decimal(s.advbase))];
    }
    assert output == DevLines(s) + KeyLines(s) + BaseLines(s);
    var lines := WriteTable(s.table);
    output := output + lines;
  }

  method WriteTable(t: C.Table) returns (lines: seq<string>)
    requires t.vhids[0] != 0
    ensures lines == TableLines(C.NodesOf(t))
  {
    ghost var nodes := C.NodesOf(t);
    if t.vhids[1] == 0 {
      assert C.Used(t.vhids, 0) == C.Used(t.vhids, 1) == 1;
      lines := [Line("vhid", Decimal(t.vhids[0]))];
      if t.advskews[0] != 0 {
        lines := lines + [Line("advskew", Decimal(t.advskews[0]))];
      }
    } else {
      lines := [];
      var i := 0;
      while i < C.MAXNODES && t.vhids[i] != 0
        invariant i <= |nodes| && |lines| == i && forall k :: 0 <= k < i ==> lines[k] == NodeLine(nodes[k])
      {
        assert nodes[i] == C.Node(t.vhids[i], t.advskews[i]);
        lines := lines + [ConfLine("carpnode", [Decimal(t.vhids[i]), Decimal(t.advskews[i])])];
        i := i + 1;
      }
      assert i == |nodes|;
      assert lines == NodeLines(nodes);
    }
  }

  // ---- reading back ----

  /** The words after the command, whether negated or not. */
  function Args(argv: seq<string>): seq<string> {
    var skip := if argv != [] && NoArg(argv[0]) then 2 else 1;
    if skip <= |argv| then argv[skip..] else []
  }

  predicate Setting(argv: seq<string>) {
    argv != [] && !NoArg(argv[0])
  }

  /** The wrong number of words for intcarp, intcpass and intcdev. */
  predicate Misused(argv: seq<string>) {
    if Setting(argv) then |Args(argv)| != 1 else |Args(argv)| > 1
  }

  function SetText(argv: seq<string>, before: string, size: nat): string
    requires size > 0
  {
    if Misused(argv) then before else if Setting(argv) then Strlcpy(Args(argv)[0], size) else ""
  }

  /** The row names of intcarp's own table. */
  const INTCS := ["advskew", "advbase", "vhid"]

  /** intcarp: the command word is looked up again, in its own table; a NULL is not found. */
  function IntcarpStep(s: Carp, argv: seq<string>): (after: Carp)
  {
    var word := if Setting(argv) then Some(argv[0]) else if |argv| > 1 then Some(argv[1]) else None;
    var x := if word.Some? then Resolve(word.value, INTCS) else NotFound;
    if !x.Found? || Misused(argv) then s
    else
      var val := if Setting(argv) then Strtonum(Args(argv)[0], 0, INT_MAX) else None;
      if Setting(argv) && val.None? then s
      else if x.row == 0 then
        s.(table := s.table.(advskews := s.table.advskews[0 := if val.Some? then val.value else 0]))
      else if x.row == 1 then s.(advbase := if val.Some? then val.value else DFLTINTV)
      else s.(table := s.table.(vhids := s.table.vhids[0 := if val.Some? then val.value else -1]))
  }

  /** The lines about one number each: with a value they set it, negated they restore the default, and with the
      wrong number of words or a bad value nothing changes. */
  lemma NumberLines(s: Carp, argv: seq<string>, name: string, row: nat)
    requires row < 3 && name == INTCS[row] && |argv| >= 1 && Resolve(name, INTCS) == Found(row)
    requires if NoArg(argv[0]) then |argv| >= 2 && argv[1] == name else argv[0] == name
    ensures var val := if NoArg(argv[0]) then (if |argv| <= 3 then Some(-1) else None)
                       else if |argv| == 2 then Strtonum(argv[1], 0, INT_MAX) else None;
      var no := NoArg(argv[0]);
      IntcarpStep(s, argv) ==
        if val.None? then s
        else if name == "advskew" then
          s.(table := s.table.(advskews := s.table.advskews[0 := if no then 0 else val.value]))
        else if name == "advbase" then s.(advbase := if no then 1 else val.value)
        else s.(table := s.table.(vhids := s.table.vhids[0 := if no then -1 else val.value]))
  {
    assert INTCS[0] == "advskew" && INTCS[1] == "advbase" && INTCS[2] == "vhid";
    assert "advskew"[3] == 's' && "advbase"[3] == 'b';
  }

  /** The lines about the device and the passphrase: cut to their buffers, and emptied when negated. */
  lemma TextLines(argv: seq<string>, before: string, size: nat)
    requires size > 0 && argv != []
    ensures SetText(argv, before, size) ==
      if NoArg(argv[0]) then (if |argv| <= 3 then "" else before)
      else if |argv| == 2 then Strlcpy(argv[1], size) else before
  {
  }

  function Handle(s: Carp, handler: Routine, argv: seq<string>): (after: Carp)
  {
    match handler
    case Intcdev => s.(dev := SetText(argv, s.dev, IFNAMSIZ))
    case Intcpass => s.(key := SetText(argv, s.key, KEY_LEN))
    case Intcarp => IntcarpStep(s, argv)
    case Intcnode => s.(table := C.AfterLine(s.table, argv))
    case _ => s
  }

  function Read(rows: seq<Row>, ifname: string, s: Carp, line: string): (after: Carp)
  {
    var argv := Words(line);
    if argv == [] then s
    else match Dispatch(rows, false, ifname, argv)
      case Run(handler, a) => Handle(s, handler, a)
      case _ => s
  }

  function Reader(rows: seq<Row>, ifname: string): (Carp, string) -> Carp {
    (s: Carp, line: string) => Read(rows, ifname, s, line)
  }

  function ReadAll(rows: seq<Row>, ifname: string, s: Carp, lines: seq<string>): Carp {
    All(Reader(rows, ifname), s, lines)
  }

  predicate CarpRows(rows: seq<Row>) {
    && Known(rows, false, "carpdev", Intcdev) && Known(rows, false, "cpass", Intcpass)
    && Known(rows, false, "advbase", Intcarp) && Known(rows, false, "vhid", Intcarp)
    && Known(rows, false, "advskew", Intcarp) && Known(rows, false, "carpnode", Intcnode)
  }

  // ---- the round trip ----

  /** A one-word command line, read: swallowed when the word is the interface name. */
  lemma ReadLine(rows: seq<Row>, ifname: string, s: Carp, name: string, handler: Routine, arg: string)
    requires Known(rows, false, name, handler) && Plain(arg)
    ensures Read(rows, ifname, s, Line(name, arg)) == if arg == ifname then s else Handle(s, handler, [name, arg])
    ensures Args([name, arg]) == [arg] && Setting([name, arg])
  {
    LineReachesCommand(rows, false, ifname, name, handler, [arg]);
    assert [name] + [arg] == [name, arg];
  }

  lemma NodeWords(rows: seq<Row>, ifname: string, n: C.Node)
    requires Known(rows, false, "carpnode", Intcnode)
    ensures var argv := ["carpnode", Decimal(n.vhid), Decimal(n.advskew)];
      Words(NodeLine(n)) == argv && Dispatch(rows, false, ifname, argv) == Run(Intcnode, argv)
  {
    var v, k := Decimal(n.vhid), Decimal(n.advskew);
    DecimalPlain(n.vhid);
    DecimalPlain(n.advskew);
    LineReachesCommand(rows, false, ifname, "carpnode", Intcnode, [v, k]);
    assert ["carpnode"] + [v, k] == ["carpnode", v, k];
  }

  lemma ReadNode(rows: seq<Row>, ifname: string, s: Carp, n: C.Node)
    requires Known(rows, false, "carpnode", Intcnode) && C.IsVhid(n.vhid) && 0 <= n.advskew <= 255
    ensures Read(rows, ifname, s, NodeLine(n)) == s.(table := C.Update(s.table, C.Set(n.vhid, n.advskew)))
  {
    NodeWords(rows, ifname, n);
    C.ParseNode("carpnode", n);
  }

  /** Reading the carpnode lines of a table into an empty one rebuilds it node by node. */
  lemma {:induction false} NodesRead(rows: seq<Row>, ifname: string, s: Carp, nodes: C.Nodes, k: nat)
    requires Known(rows, false, "carpnode", Intcnode) && C.Valid(nodes) && k <= |nodes| && C.Holds(s.table, [])
    ensures Fold(Reader(rows, ifname), s, NodeLines(nodes), k) == s.(table := Stored(s.table, nodes, k))
    ensures C.Holds(Stored(s.table, nodes, k), nodes[..k])
  {
    if k > 0 {
      NodesRead(rows, ifname, s, nodes, k - 1);
      C.NextNodeStored(Stored(s.table, nodes, k - 1), nodes, k - 1);
      assert C.IsVhid(nodes[k - 1].vhid);
      ReadNode(rows, ifname, s.(table := Stored(s.table, nodes, k - 1)), nodes[k - 1]);
    }
  }

  /** The arrays after the first k nodes have been set one by one. */
  function Stored(t: C.Table, nodes: C.Nodes, k: nat): C.Table
    requires k <= |nodes|
  {
    if k == 0 then t else C.Update(Stored(t, nodes, k - 1), C.Set(nodes[k - 1].vhid, nodes[k - 1].advskew))
  }

  /** Two tables that hold the same nodes are the same arrays. */
  lemma SameArrays(a: C.Table, b: C.Table, nodes: C.Nodes)
    requires C.Holds(a, nodes) && C.Holds(b, nodes)
    ensures a == b
  {
  }

  lemma ReadNumber(rows: seq<Row>, ifname: string, s: Carp, name: string, n: int, row: nat)
    requires Known(rows, false, name, Intcarp) && ProperName(ifname) && 0 <= n <= INT_MAX
    requires Resolve(name, INTCS) == Found(row)
    ensures Read(rows, ifname, s, Line(name, Decimal(n))) == (
      if row == 0 then s.(table := s.table.(advskews := s.table.advskews[0 := n]))
      else if row == 1 then s.(advbase := n)
      else s.(table := s.table.(vhids := s.table.vhids[0 := n])))
  {
    DecimalPlain(n);
    StrtonumOfDecimal(n, 0, INT_MAX);
    ReadLine(rows, ifname, s, name, Intcarp, Decimal(n));
    assert IsDigit(Decimal(n)[0]);
  }

  lemma IntcsRows()
    ensures Resolve("advskew", INTCS) == Found(0) && Resolve("advbase", INTCS) == Found(1)
    ensures Resolve("vhid", INTCS) == Found(2)
  {
    assert INTCS[0] == "advskew" && INTCS[1] == "advbase" && INTCS[2] == "vhid";
    assert "advskew"[3] == 's' && "advbase"[3] == 'b';
    FullNameResolves(INTCS, 0);
    FullNameResolves(INTCS, 1);
    FullNameResolves(INTCS, 2);
  }

  /** The lines of a table of one node. */
  lemma OneNodeLines(n: C.Node)
    ensures var x, y := Line("vhid", Decimal(n.vhid)), Line("advskew", Decimal(n.advskew));
      TableLines([n]) == if n.advskew != 0 then [x] + [y] else [x]
  {
  }

  /** The request after the vhid line of the only node. */
  lemma VhidRead(rows: seq<Row>, ifname: string, s: Carp, n: C.Node)
    requires Known(rows, false, "vhid", Intcarp) && ProperName(ifname)
    requires C.Valid([n]) && C.Holds(s.table, [])
    ensures var after := Read(rows, ifname, s, Line("vhid", Decimal(n.vhid)));
      after == s.(table := after.table) && C.Holds(after.table, [C.Node(n.vhid, 0)])
  {
    IntcsRows();
    assert C.IsVhid([n][0].vhid);
    ReadNumber(rows, ifname, s, "vhid", n.vhid, 2);
  }

  lemma SkewRead(rows: seq<Row>, ifname: string, s: Carp, n: C.Node)
    requires Known(rows, false, "advskew", Intcarp) && ProperName(ifname)
    requires C.Valid([n]) && C.Holds(s.table, [C.Node(n.vhid, 0)])
    ensures var after := Read(rows, ifname, s, Line("advskew", Decimal(n.advskew)));
      after == s.(table := after.table) && C.Holds(after.table, [n])
  {
    IntcsRows();
    assert 0 <= [n][0].advskew <= 255;
    ReadNumber(rows, ifname, s, "advskew", n.advskew, 0);
  }

  lemma OneNodeRead(rows: seq<Row>, ifname: string, s: Carp, n: C.Node)
    requires Known(rows, false, "vhid", Intcarp) && Known(rows, false, "advskew", Intcarp)
    requires ProperName(ifname) && C.Valid([n]) && C.Holds(s.table, [])
    ensures var after := ReadAll(rows, ifname, s, TableLines([n]));
      after == s.(table := after.table) && C.Holds(after.table, [n])
  {
    var f := Reader(rows, ifname);
    var x, y := Line("vhid", Decimal(n.vhid)), Line("advskew", Decimal(n.advskew));
    OneNodeLines(n);
    VhidRead(rows, ifname, s, n);
    AllOne(f, s, x);
    var mid := All(f, s, [x]);
    if n.advskew != 0 {
      AllAppend(f, s, [x], [y]);
      AllOne(f, mid, y);
      SkewRead(rows, ifname, mid, n);
    }
  }

  lemma ManyNodesRead(rows: seq<Row>, ifname: string, s: Carp, nodes: C.Nodes)
    requires Known(rows, false, "carpnode", Intcnode) && C.Valid(nodes) && C.Holds(s.table, []) && |nodes| > 1
    ensures var after := ReadAll(rows, ifname, s, TableLines(nodes));
      after == s.(table := after.table) && C.Holds(after.table, nodes)
  {
    NodesRead(rows, ifname, s, nodes, |nodes|);
    assert nodes[..|nodes|] == nodes;
  }

  lemma TableRead(rows: seq<Row>, ifname: string, s: Carp, t: C.Table, nodes: C.Nodes)
    requires CarpRows(rows) && ProperName(ifname)
    requires C.Valid(nodes) && C.Holds(t, nodes) && nodes != [] && C.Holds(s.table, [])
    ensures ReadAll(rows, ifname, s, TableLines(nodes)) == s.(table := t)
  {
    if |nodes| > 1 {
      ManyNodesRead(rows, ifname, s, nodes);
    } else {
      assert nodes == [nodes[0]];
      OneNodeRead(rows, ifname, s, nodes[0]);
    }
    SameArrays(ReadAll(rows, ifname, s, TableLines(nodes)).table, t, nodes);
  }

  /** A text that comes back as it was: unset, or one plain word that is not the interface name. */
  predicate Restorable(text: string, ifname: string) {
    text == "" || (Plain(text) && text != ifname)
  }

  /** A single word is never longer than the text it was written as. */
  lemma WordNotLonger(arg: string, w: string)
    requires NulFree(arg) && Words(arg + "\n") == [w]
    ensures |w| <= |arg|
  {
    var s := arg + "\n";
    var j := FirstStart(s, 0);
    assert WordsFrom(s, j)[0] == w && !PlainChar(s[|s| - 1]);
    if |w| == |s| {
      NothingDropped(s, j);
    }
  }

  /** What a raw text line leaves in a text field of the given size. */
  lemma TextSet(name: string, text: string, size: nat, ifname: string)
    requires Plain(name) && !NoArg(name) && NulFree(text) && 0 < |text| < size
    ensures var rest := Words(text + "\n");
      && Words(Line(name, text)) == [name] + rest
      && ((rest != [ifname] && SetText([name] + rest, "", size) == text) <==> Restorable(text, ifname))
  {
    RawWords(name, text);
    BareWordRestored(text);
    var rest := Words(text + "\n");
    assert Args([name] + rest) == rest;
    if |rest| == 1 {
      WordNotLonger(text, rest[0]);
      assert rest == [rest[0]];
    }
  }

  lemma TextRead(rows: seq<Row>, ifname: string, s: Carp, name: string, handler: Routine, text: string)
    requires Known(rows, false, name, handler) && NulFree(text) && text != ""
    requires (handler == Intcdev && |text| < IFNAMSIZ && s.dev == "")
      || (handler == Intcpass && |text| < KEY_LEN && s.key == "")
    ensures var after := Read(rows, ifname, s, Line(name, text));
      && after == (if handler == Intcpass then s.(key := after.key) else s.(dev := after.dev))
      && ((if handler == Intcpass then after.key else after.dev) == text <==> Restorable(text, ifname))
  {
    TextSet(name, text, if handler == Intcpass then KEY_LEN else IFNAMSIZ, ifname);
    DispatchNamed(rows, false, ifname, name, handler, Words(text + "\n"));
  }

  /** At most one line, read. */
  lemma ReadOptional(rows: seq<Row>, ifname: string, s: Carp, lines: seq<string>)
    requires |lines| <= 1
    ensures ReadAll(rows, ifname, s, lines) == if lines == [] then s else Read(rows, ifname, s, lines[0])
  {
    AllOne(Reader(rows, ifname), s, if lines == [] then "" else lines[0]);
    assert lines != [] ==> lines == [lines[0]];
  }

  lemma TextsRead(rows: seq<Row>, ifname: string, s: Carp, blank: Carp)
    requires CarpRows(rows)
    requires NulFree(s.dev) && |s.dev| < IFNAMSIZ && NulFree(s.key) && |s.key| < KEY_LEN
    requires blank.dev == "" && blank.key == ""
    ensures var after := ReadAll(rows, ifname, blank, DevLines(s) + KeyLines(s));
      && after == blank.(dev := after.dev, key := after.key)
      && (after.dev == s.dev <==> Restorable(s.dev, ifname))
      && (after.key == s.key <==> Restorable(s.key, ifname))
  {
    ReadOptional(rows, ifname, blank, DevLines(s));
    var s1 := ReadAll(rows, ifname, blank, DevLines(s));
    AllAppend(Reader(rows, ifname), blank, DevLines(s), KeyLines(s));
    ReadOptional(rows, ifname, s1, KeyLines(s));
    if s.dev != "" {
      TextRead(rows, ifname, blank, "carpdev", Intcdev, s.dev);
    }
    if s.key != "" {
      TextRead(rows, ifname, s1, "cpass", Intcpass, s.key);
    }
  }

  lemma BaseRead(rows: seq<Row>, ifname: string, s: Carp, before: Carp)
    requires CarpRows(rows) && ProperName(ifname)
    requires before.advbase == DFLTINTV && 0 <= s.advbase <= INT_MAX
    ensures ReadAll(rows, ifname, before, BaseLines(s)) == before.(advbase := s.advbase)
  {
    ReadOptional(rows, ifname, before, BaseLines(s));
    if s.advbase != DFLTINTV {
      IntcsRows();
      ReadNumber(rows, ifname, before, "advbase", s.advbase, 1);
    }
  }

  /** A CARP interface with nodes, written and read back on a fresh one: base interval and both node
      arrays are identical, and device and passphrase come back exactly when they are unset, or plain
      words other than the name of the interface itself. */
  lemma CarpRestored(rows: seq<Row>, ifname: string, s: Carp, blank: Carp, nodes: C.Nodes)
    requires CarpRows(rows) && ProperName(ifname)
    requires C.Valid(nodes) && nodes != [] && C.Holds(s.table, nodes) && 0 <= s.advbase <= INT_MAX
    requires NulFree(s.dev) && |s.dev| < IFNAMSIZ && NulFree(s.key) && |s.key| < KEY_LEN
    requires blank.dev == "" && blank.key == "" && blank.advbase == DFLTINTV && C.Holds(blank.table, [])
    ensures var after := ReadAll(rows, ifname, blank, ConfLines(s));
      && after.table == s.table && after.advbase == s.advbase
      && (after.dev == s.dev <==> Restorable(s.dev, ifname))
      && (after.key == s.key <==> Restorable(s.key, ifname))
  {
    var ab, c, d, f := DevLines(s) + KeyLines(s), BaseLines(s), TableLines(nodes), Reader(rows, ifname);
    C.HeldNodes(s.table, nodes);
    assert ConfLines(s) == ab + c + d;
    TextsRead(rows, ifname, s, blank);
    BaseRead(rows, ifname, s, All(f, blank, ab));
    AllAppend(f, blank, ab, c);
    TableRead(rows, ifname, All(f, blank, ab + c), s.table, nodes);
    AllAppend(f, blank, ab + c, d);
  }
}
