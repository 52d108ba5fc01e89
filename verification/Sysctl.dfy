/** The sysctl part of the configuration: conf_ipsysctl writes the values that differ from their
    defaults as "ip" commands, and cmdrc, ipcmd and ipsysctl set them again. */
module Sysctl {
  import opened Text
  import opened Tokens
  import opened Makeargv
  import opened Abbreviations
  import opened Cmdrc
  import opened Folding

  const INT_MAX := 0x7fff_ffff

  /** A row of ipsysctls; enable says how an on/off row is shown. */
  datatype Setting = Setting(name: string, defLarg: int, enable: nat)

  /** A row of iptab or iptab2, with whether ipsysctl handles it. */
  datatype Menu = Menu(name: string, minarg: nat, maxarg: nat, sysctl: bool)

  /** The kernel's values, one for each row of ipsysctls. */
  type Values = seq<int>

  datatype IpTables = IpTables(rows: seq<Setting>, main: seq<Menu>, hidden: seq<Menu>)

  function RowNames(rows: seq<Setting>): (names: seq<string>)
    ensures |names| == |rows|
    ensures forall i :: 0 <= i < |rows| ==> names[i] == rows[i].name
  {
    seq(|rows|, i requires 0 <= i < |rows| => rows[i].name)
  }

  function MenuNames(rows: seq<Menu>): (names: seq<string>)
    ensures |names| == |rows|
    ensures forall i :: 0 <= i < |rows| ==> names[i] == rows[i].name
  {
    seq(|rows|, i requires 0 <= i < |rows| => rows[i].name)
  }

  // ---- writing ----

  /** The line written for a row whose value is v, if any. */
  function RowLine(row: Setting, v: int): seq<string> {
    if row.defLarg != 0 then
      if v == row.defLarg || v == -1 then [] else [Unwords(["ip", row.name, Decimal(v)]) + "\n"]
    else if row.enable == 0 then
      if v == 0 then [Unwords(["no", "ip", row.name]) + "\n"] else []
    else if row.enable == 1 then
      if v == 1 then [Unwords(["ip", row.name]) + "\n"] else []
    else if row.enable == 2 then
      if v == 1 then [Unwords(["ip", row.name]) + "\n"]
      else if v == 0 then [Unwords(["no", "ip", row.name]) + "\n"] else []
    else []
  }

  /** Which line is written for which value: a valued row at any value but its default and the -1 of a failed sysctl,
      a switch that is on by default when it is off, one off by default when it is on, and one shown either way. */
  lemma RowWritten(row: Setting, v: int)
    ensures var line := RowLine(row, v);
      if row.defLarg != 0 then
        line == if v != row.defLarg && v != -1 then ["ip" + " " + row.name + " " + Decimal(v) + "\n"] else []
      else if v == 1 && (row.enable == 1 || row.enable == 2) then line == ["ip" + " " + row.name + "\n"]
      else if v == 0 && (row.enable == 0 || row.enable == 2) then line == ["no" + " " + "ip" + " " + row.name + "\n"]
      else line == []
  {
    if row.defLarg != 0 {
      ThreeWords("ip", row.name, Decimal(v));
    } else {
      TwoWords("ip", row.name);
      ThreeWords("no", "ip", row.name);
    }
  }

  lemma TwoWords(a: string, b: string)
    ensures Unwords([a, b]) == a + " " + b
  {
  }

  lemma ThreeWords(a: string, b: string, c: string)
    ensures Unwords([a, b, c]) == a + " " + b + " " + c
  {
    assert [a, b, c][1..] == [b, c];
    TwoWords(b, c);
    assert a + " " + (b + " " + c) == a + " " + b + " " + c;
  }

  function ConfLines(rows: seq<Setting>, vals: Values, n: nat): seq<string>
    requires n <= |rows| == |vals|
  {
    if n == 0 then [] else ConfLines(rows, vals, n - 1) + RowLine(rows[n - 1], vals[n - 1])
  }

  /** conf_ipsysctl */
  method ConfIpsysctl(rows: seq<Setting>, vals: Values) returns (output: seq<string>)
    requires |rows| == |vals|
    ensures output == ConfLines(rows, vals, |rows|)
  {
    output := [];
    for x := 0 to |rows|
      invariant output == ConfLines(rows, vals, x)
    {
      var row, tmp := rows[x], vals[x];
      ghost var before := output;
      if row.defLarg != 0 {
        if tmp != row.defLarg && tmp != -1 {
          output := output + [Unwords(["ip", row.name, Decimal(tmp)]) + "\n"];
        }
      } else if row.enable == 0 {
        if tmp == 0 {
          output := output + [Unwords(["no", "ip", row.name]) + "\n"];
        }
      } else if row.enable == 1 {
        if tmp == 1 {
          output := output + [Unwords(["ip", row.name]) + "\n"];
        }
      } else if row.enable == 2 {
        if tmp == 1 {
          output := output + [Unwords(["ip", row.name]) + "\n"];
        } else if tmp == 0 {
          output := output + [Unwords(["no", "ip", row.name]) + "\n"];
        }
      }
      assert output == before + RowLine(row, tmp);
    }
  }

  // ---- reading ----

  /** ipsysctl: the value a row is set to, if the arguments are good. */
  function Set(rows: seq<Setting>, vals: Values, on: bool, cmd: string, arg: Option<string>): (after: Values)
    requires |rows| == |vals|
    ensures |after| == |vals|
  {
    match Resolve(cmd, RowNames(rows))
    case Found(i) =>
      if !on then vals[i := rows[i].defLarg]
      else if arg.None? then vals[i := 1]
      else (match Strtonum(arg.value, 0, INT_MAX)
            case None => vals
            case Some(larg) => vals[i := larg])
    case _ => vals
  }

  /** getip */
  function Getip(t: IpTables, name: string): Option<Menu> {
    match Resolve(name, MenuNames(t.main))
    case Found(i) => Some(t.main[i])
    case Ambiguous => None
    case NotFound =>
      match Resolve(name, MenuNames(t.hidden))
      case Found(i) => Some(t.hidden[i])
      case _ => None
  }

  /** ipcmd behind its "no": on words of which the first is the command itself. */
  function IpWords(t: IpTables, vals: Values, on: bool, args: seq<string>): (after: Values)
    requires |t.rows| == |vals|
    ensures |after| == |vals|
  {
    if |args| < 2 then vals
    else match Getip(t, args[1])
      case None => vals
      case Some(i) =>
        if i.minarg + 2 > |args| || i.maxarg + 2 < |args| || !i.sysctl then vals
        else Set(t.rows, vals, on, args[1], if i.maxarg > 0 && |args| > 2 then Some(args[2]) else None)
  }

  /** ipcmd */
  function Ipcmd(t: IpTables, vals: Values, argv: seq<string>): (after: Values)
    requires |t.rows| == |vals|
    ensures |after| == |vals|
  {
    if argv == [] || !NoArg(argv[0]) then IpWords(t, vals, true, argv) else IpWords(t, vals, false, argv[1..])
  }

  /** What ipsysctl sets: the value of the row the word stands for, to its default when negated, to 1 without an
      argument, to a number that fits an int, and to nothing else; no other value changes. */
  lemma SetIs(rows: seq<Setting>, vals: Values, on: bool, cmd: string, arg: Option<string>)
    requires |rows| == |vals|
    ensures forall i: nat :: StandsFor(cmd, RowNames(rows), i) ==>
      Set(rows, vals, on, cmd, arg) ==
        if !on then vals[i := rows[i].defLarg]
        else if arg.None? then vals[i := 1]
        else if Strtonum(arg.value, 0, INT_MAX).Some? then vals[i := Strtonum(arg.value, 0, INT_MAX).value]
        else vals
    ensures (forall i: nat :: i < |rows| ==> !StandsFor(cmd, RowNames(rows), i)) ==>
      Set(rows, vals, on, cmd, arg) == vals
  {
    LookupIs(cmd, RowNames(rows));
  }

  /** w stands for the row m of the menu: in the main table, or in the hidden one when no row of the main one
      matches. */
  ghost predicate MenuReaches(t: IpTables, w: string, m: Menu) {
    || (exists i: nat :: StandsFor(w, MenuNames(t.main), i) && t.main[i] == m)
    || (Unmatched(w, MenuNames(t.main)) && exists i: nat :: StandsFor(w, MenuNames(t.hidden), i) && t.hidden[i] == m)
  }

  lemma MenuRow(rows: seq<Menu>, w: string, m: Menu)
    ensures (exists i: nat :: StandsFor(w, MenuNames(rows), i) && rows[i] == m) <==>
      (Resolve(w, MenuNames(rows)).Found? && rows[Resolve(w, MenuNames(rows)).row] == m)
  {
    LookupIs(w, MenuNames(rows));
    if Resolve(w, MenuNames(rows)).Found? {
      assert StandsFor(w, MenuNames(rows), Resolve(w, MenuNames(rows)).row);
    }
    if i: nat :| StandsFor(w, MenuNames(rows), i) && rows[i] == m {
      assert Resolve(w, MenuNames(rows)) == Found(i);
    }
  }

  lemma MenuIs(t: IpTables, w: string, m: Menu)
    ensures Getip(t, w) == Some(m) <==> MenuReaches(t, w, m)
  {
    MenuRow(t.main, w, m);
    MenuRow(t.hidden, w, m);
    LookupIs(w, MenuNames(t.main));
  }

  /** What an ip line sets: behind "ip", with or without a "no" before it, a word that stands for a row of the menu, and
      as many more as that row takes; then ipsysctl is called with the word and the first of them. Anything else
      changes nothing. */
  lemma IpcmdIs(t: IpTables, vals: Values, no: string, args: seq<string>)
    requires |t.rows| == |vals| && NoArg(no)
    ensures args == [] || !NoArg(args[0]) ==> IpMeaning(t, vals, true, args, Ipcmd(t, vals, args))
    ensures IpMeaning(t, vals, false, args, Ipcmd(t, vals, [no] + args))
  {
    IpWordsAre(t, vals, true, args);
    IpWordsAre(t, vals, false, args);
    assert ([no] + args)[1..] == args;
  }

  ghost predicate IpMeaning(t: IpTables, vals: Values, on: bool, args: seq<string>, after: Values)
    requires |t.rows| == |vals|
  {
    if |args| < 2 then after == vals
    else
      && (forall m :: MenuReaches(t, args[1], m) ==>
            after == if m.sysctl && m.minarg <= |args| - 2 <= m.maxarg
                     then Set(t.rows, vals, on, args[1], if |args| > 2 then Some(args[2]) else None)
                     else vals)
      && ((forall m :: !MenuReaches(t, args[1], m)) ==> after == vals)
  }

  lemma IpWordsAre(t: IpTables, vals: Values, on: bool, args: seq<string>)
    requires |t.rows| == |vals|
    ensures IpMeaning(t, vals, on, args, IpWords(t, vals, on, args))
  {
    if |args| >= 2 {
      forall m ensures Getip(t, args[1]) == Some(m) <==> MenuReaches(t, args[1], m) {
        MenuIs(t, args[1], m);
      }
    }
  }

  /** "no ip" before the name of a row, valued or not, sets it to its default, provided the menu lets the row be
      written without an argument; otherwise nothing changes. */
  lemma NegatedRow(t: IpTables, vals: Values, i: nat, no: string, ip: string)
    requires i < |t.rows| == |vals| && FitsRow(t, i) && NoArg(no)
    ensures Ipcmd(t, vals, [no, ip, t.rows[i].name])
         == if Getip(t, t.rows[i].name).value.minarg == 0 then vals[i := t.rows[i].defLarg] else vals
  {
    assert [no, ip, t.rows[i].name][1..] == [ip, t.rows[i].name];
  }

  class Kernel {
    var vals: Values

    /** ipsysctl */
    method Ipsysctl(rows: seq<Setting>, on: bool, cmd: string, arg: Option<string>)
      requires |rows| == |vals| && NulFree(cmd) && forall i :: 0 <= i < |rows| ==> NulFree(rows[i].name)
      modifies this
      ensures |vals| == |rows| && vals == Set(rows, old(vals), on, cmd, arg)
    {
      var x := Genget(Some(cmd), RowNames(rows));
      if !x.Found? {
        return;
      }
      var larg := rows[x.row].defLarg;
      if on {
        if arg.Some? {
          var n := Strtonum(arg.value, 0, INT_MAX);
          if n.None? {
            return;
          }
          larg := n.value;
        } else {
          larg := 1;
        }
      }
      vals := vals[x.row := larg];
    }
  }

  // ---- the round trip ----

  /** The value a fresh kernel has: other gives those of the always-shown switches. */
  function Default(row: Setting, other: int): int {
    if row.defLarg != 0 then row.defLarg
    else if row.enable == 0 then 1
    else if row.enable == 1 then 0
    else other
  }

  /** cmdtab calls ipcmd for "ip", and lets it be negated. */
  predicate IpCommand(tables: Tables) {
    var c := Getcmd(tables, Some("ip"));
    c.Row? && c.cmd.nocmd && !c.cmd.modh && c.cmd.handler == IpHandler
  }

  /** The tables fit together from row i on: every row is found by its full name, in both tables, and
      takes an argument exactly when it has a value. */
  predicate FitsFrom(t: IpTables, i: nat)
    requires i <= |t.rows|
    decreases |t.rows| - i
  {
    i == |t.rows| || (FitsRow(t, i) && FitsFrom(t, i + 1))
  }

  predicate Fits(t: IpTables, tables: Tables) {
    FitsFrom(t, 0) && IpCommand(tables)
  }

  lemma {:induction false} FitsAt(t: IpTables, i: nat, k: nat)
    requires i <= k < |t.rows| && FitsFrom(t, i)
    ensures FitsRow(t, k)
    decreases k - i
  {
    if i < k {
      FitsAt(t, i + 1, k);
    }
  }

  predicate FitsRow(t: IpTables, i: nat)
    requires i < |t.rows|
  {
    var row := t.rows[i];
    && Plain(row.name)
    && Resolve(row.name, RowNames(t.rows)) == Found(i)
    && row.defLarg >= 0 && row.enable <= 2
    && (var m := Getip(t, row.name);
        && m.Some? && m.value.sysctl
        && (if row.defLarg != 0 then m.value.minarg <= 1 <= m.value.maxarg else m.value.minarg == 0))
  }

  /** Values the language can express: any non-negative int for valued rows, 0 and 1 for switches. */
  predicate Expressible(row: Setting, v: int) {
    if row.defLarg != 0 then 0 <= v <= INT_MAX else v == 0 || v == 1
  }

  datatype Machine = Machine(st: State, vals: Values)

  /** One configuration line: cmdrc dispatches it, ipcmd sets the value. */
  function Turn(t: IpTables, tables: Tables): (Machine, string) -> Machine {
    (m: Machine, line: string) => Machine(NextState(tables, m.st, line), Apply(t, m.vals, EventOf(tables, m.st, line)))
  }

  function Apply(t: IpTables, vals: Values, e: Event): Values {
    if e.Call? && e.cmd.handler == IpHandler && |vals| == |t.rows| then Ipcmd(t, vals, e.argv) else vals
  }

  /** A line of plain words that starts with "ip" or "no ip" reaches ipcmd. */
  lemma IpEvent(tables: Tables, st: State, ws: seq<string>)
    requires IpCommand(tables)
    requires forall i :: 0 <= i < |ws| ==> Plain(ws[i])
    requires |ws| > 1 && (ws[0] == "ip" || (ws[0] == "no" && ws[1] == "ip"))
    ensures var e := EventOf(tables, st, Unwords(ws) + "\n"); e.Call? && e.cmd.handler == IpHandler && e.argv == ws
  {
    PlainLine(ws);
    IpCommandLine(Unwords(ws) + "\n", ws);
    assert LookupWord(ws) == Some("ip");
  }

  lemma IpCommandLine(line: string, ws: seq<string>)
    requires ws != [] && (ws[0] == "ip" || ws[0] == "no") && Words(line) == ws && line != "" && line[0] == ws[0][0]
    ensures IsCommandLine(line)
  {
    assert NextPart(line, 0).text == Words(line)[0];
  }

  /** The words of a row's line. */
  function RowWords(row: Setting, v: int): seq<string> {
    if row.defLarg != 0 then ["ip", row.name, Decimal(v)]
    else if v == 1 then ["ip", row.name]
    else ["no", "ip", row.name]
  }

  lemma RowIpcmd(t: IpTables, vals: Values, i: nat, v: int)
    requires i < |t.rows| == |vals| && FitsRow(t, i) && RowLine(t.rows[i], v) != []
    ensures Ipcmd(t, vals, RowWords(t.rows[i], v)) == if Expressible(t.rows[i], v) then vals[i := v] else vals
  {
    var row, ws := t.rows[i], RowWords(t.rows[i], v);
    assert LowerChar("ip"[0]) != LowerChar("no"[0]) && NoArg("no");
    if row.defLarg != 0 {
      StrtonumOfDecimal(v, 0, INT_MAX);
      assert ws[1] == row.name && ws[2] == Decimal(v);
    } else if v == 1 {
      assert ws[1] == row.name;
    } else {
      assert ws[1..] == ["ip", row.name];
    }
  }

  lemma RowLineText(t: IpTables, i: nat, v: int)
    requires i < |t.rows| && FitsRow(t, i) && RowLine(t.rows[i], v) != []
    ensures RowLine(t.rows[i], v) == [Unwords(RowWords(t.rows[i], v)) + "\n"]
    ensures forall k :: 0 <= k < |RowWords(t.rows[i], v)| ==> Plain(RowWords(t.rows[i], v)[k])
  {
    DecimalPlain(v);
  }

  /** What the line of one row sets: its own value and no other. */
  lemma RowSet(t: IpTables, tables: Tables, m: Machine, i: nat, v: int)
    requires Fits(t, tables) && i < |t.rows| == |m.vals| && RowLine(t.rows[i], v) != []
    ensures |RowLine(t.rows[i], v)| == 1
    ensures Turn(t, tables)(m, RowLine(t.rows[i], v)[0]).vals
         == if Expressible(t.rows[i], v) then m.vals[i := v] else m.vals
  {
    FitsAt(t, 0, i);
    RowLineText(t, i, v);
    IpEvent(tables, m.st, RowWords(t.rows[i], v));
    RowIpcmd(t, m.vals, i, v);
  }

  /** A switch or value at its default is not written, unless it is always shown. */
  lemma LinesWritten(row: Setting, v: int, other: int)
    requires Expressible(row, v) && row.enable <= 2
    ensures RowLine(row, v) == [] <==> v == Default(row, other) && (row.defLarg != 0 || row.enable != 2)
  {
  }

  /** The values after the lines of the first n rows have been read. */
  predicate SetUpTo(t: IpTables, vals: Values, other: int, n: nat, after: Values) {
    && |after| == |t.rows| == |vals|
    && (forall i :: 0 <= i < |after| ==>
          after[i] == if i < n && Expressible(t.rows[i], vals[i]) then vals[i] else Default(t.rows[i], other))
  }

  lemma RowPlayed(t: IpTables, tables: Tables, m: Machine, vals: Values, other: int, i: nat)
    requires Fits(t, tables) && i < |t.rows| && SetUpTo(t, vals, other, i, m.vals)
    ensures SetUpTo(t, vals, other, i + 1, All(Turn(t, tables), m, RowLine(t.rows[i], vals[i])).vals)
  {
    var row, line := t.rows[i], RowLine(t.rows[i], vals[i]);
    FitsAt(t, 0, i);
    AllOne(Turn(t, tables), m, if line == [] then "" else line[0]);
    if line != [] {
      RowSet(t, tables, m, i, vals[i]);
      assert line == [line[0]];
    } else if Expressible(row, vals[i]) {
      LinesWritten(row, vals[i], other);
    }
  }

  /** A step function that sets one row at a time. */
  ghost predicate SetsRows(f: (Machine, string) -> Machine, t: IpTables, vals: Values, other: int)
    requires |t.rows| == |vals|
  {
    forall i: nat, m: Machine :: i < |vals| && SetUpTo(t, vals, other, i, m.vals) ==>
      SetUpTo(t, vals, other, i + 1, All(f, m, RowLine(t.rows[i], vals[i])).vals)
  }

  lemma {:induction false} LinesPlayed(f: (Machine, string) -> Machine, t: IpTables, m: Machine, vals: Values,
                                       other: int, n: nat)
    requires n <= |t.rows| == |vals| && SetsRows(f, t, vals, other) && SetUpTo(t, vals, other, 0, m.vals)
    ensures SetUpTo(t, vals, other, n, All(f, m, ConfLines(t.rows, vals, n)).vals)
  {
    if n == 0 {
      AllOne(f, m, "");
    } else {
      LinesPlayed(f, t, m, vals, other, n - 1);
      AllAppend(f, m, ConfLines(t.rows, vals, n - 1), RowLine(t.rows[n - 1], vals[n - 1]));
    }
  }

  /** From default kernel values, reading the written lines restores a row's value exactly when it is
      expressible or the default; every other row keeps its default. */
  lemma SysctlsRestored(t: IpTables, tables: Tables, m: Machine, vals: Values, other: int)
    requires Fits(t, tables) && |t.rows| == |vals| == |m.vals|
    requires forall i :: 0 <= i < |t.rows| ==> m.vals[i] == Default(t.rows[i], other)
    ensures var after := All(Turn(t, tables), m, ConfLines(t.rows, vals, |t.rows|)).vals;
      && |after| == |vals|
      && (forall i :: 0 <= i < |vals| ==>
            (after[i] == vals[i] <==> Expressible(t.rows[i], vals[i]) || vals[i] == Default(t.rows[i], other)))
  {
    forall i: nat, m: Machine | i < |vals| && SetUpTo(t, vals, other, i, m.vals)
      ensures SetUpTo(t, vals, other, i + 1, All(Turn(t, tables), m, RowLine(t.rows[i], vals[i])).vals)
    {
      RowPlayed(t, tables, m, vals, other, i);
    }
    LinesPlayed(Turn(t, tables), t, m, vals, other, |t.rows|);
  }
}
