/** cmdrc: a configuration file is a sequence of commands, some of which open a mode for the
    indented lines below them. */
module Cmdrc {
  import opened Text
  import opened Tokens
  import opened Makeargv
  import opened Folding
  import opened Abbreviations

  const HSIZE := 64
  const MODHVAR_SIZE := 128

  /** Which routine a row calls. */
  datatype Handler = CtlHandler | InterfaceHandler | IpHandler | OtherHandler

  /** A row of the command table, as far as cmdrc looks at it. */
  datatype Command = Command(name: string, nocmd: bool, modh: bool, handler: Handler)

  /** cmdtab and cmdtab2. */
  datatype Tables = Tables(main: seq<Command>, hidden: seq<Command>)

  /** The pointer c: NULL, the ambiguity marker, or a row. */
  datatype Ref = NoCommand | Unclear | Row(cmd: Command) {
    predicate Mode() {
      Row? && cmd.modh
    }
  }

  function Names(rows: seq<Command>): (names: seq<string>)
    ensures |names| == |rows|
    ensures forall i :: 0 <= i < |rows| ==> names[i] == rows[i].name
  {
    seq(|rows|, i requires 0 <= i < |rows| => rows[i].name)
  }

  /** getcmd */
  function Getcmd(tables: Tables, name: Option<string>): Ref {
    if name.None? then NoCommand
    else match Resolve(name.value, Names(tables.main))
      case Found(i) => Row(tables.main[i])
      case Ambiguous => Unclear
      case NotFound =>
        match Resolve(name.value, Names(tables.hidden))
        case Found(i) => Row(tables.hidden[i])
        case Ambiguous => Unclear
        case NotFound => NoCommand
  }

  /** What cmdrc carries from line to line. */
  datatype State = State(c: Ref, modhvar: string, hname: string, saveline: string)

  datatype Event =
    | Comment
    | BlankLine
    | Orphan            // indented, but no mode handler above
    | NegatedHeader     // "no" before a mode handler
    | BareHeader        // mode handler without its argument
    | AmbiguousLine
    | InvalidLine
    | Call(cmd: Command, argv: seq<string>, arg: Option<string>, hname: string, saveline: string)

  /** Whether line[0] is a blank when cmdrc looks at it the second time, after makeargv. */
  predicate Indented(line: string) {
    FirstChar(line) == ' '
  }

  predicate IsComment(line: string) {
    line != "" && (line[0] == '#' || line[0] == '!')
  }

  /** A line that sets the mode: not a comment, not blank, not indented. */
  predicate IsCommandLine(line: string) {
    line != "" && !IsComment(line) && Words(line) != [] && !Indented(line)
  }

  /** The word a command line is looked up by. */
  function LookupWord(argv: seq<string>): Option<string>
    requires argv != []
  {
    if !NoArg(argv[0]) then Some(argv[0]) else if |argv| > 1 then Some(argv[1]) else None
  }

  function CommandOf(tables: Tables, line: string): Ref
    requires IsCommandLine(line)
  {
    Getcmd(tables, LookupWord(Words(line)))
  }

  /** A mode header that is taken up: not negated, and with an argument. */
  predicate IsHeader(tables: Tables, line: string) {
    IsCommandLine(line) && CommandOf(tables, line).Mode() && !NoArg(Words(line)[0]) && |Words(line)| > 1
  }

  /** The tail of the loop body: the command is checked and called. */
  function Dispatch(st: State, argv: seq<string>, indented: bool): Event
    requires argv != []
  {
    match st.c
    case Unclear => AmbiguousLine
    case NoCommand => InvalidLine
    case Row(cmd) =>
      if !indented && !cmd.nocmd && NoArg(argv[0]) then InvalidLine
      else Call(cmd, argv, if cmd.modh then Some(st.modhvar) else None, st.hname, st.saveline)
  }

  /** What a command line makes of the state. */
  function Enter(tables: Tables, st: State, line: string): State
    requires IsCommandLine(line)
  {
    var c := CommandOf(tables, line);
    if IsHeader(tables, line) then
      st.(c := c, hname := Strlcpy(c.cmd.name, HSIZE), modhvar := Strlcpy(Words(line)[1], MODHVAR_SIZE))
    else st.(c := c)
  }

  function NextState(tables: Tables, st: State, line: string): State {
    if IsCommandLine(line) then Enter(tables, st, line)
    else if line != "" && line[0] == ' ' then st.(saveline := line)
    else st
  }

  function EventOf(tables: Tables, st: State, line: string): Event {
    var argv := Words(line);
    if IsComment(line) then Comment
    else if argv == [] then BlankLine
    else if Indented(line) then
      if st.c.Mode() then Dispatch(NextState(tables, st, line), argv, true) else Orphan
    else if line != "" && CommandOf(tables, line).Mode() && !IsHeader(tables, line) then
      if NoArg(argv[0]) then NegatedHeader else BareHeader
    else Dispatch(NextState(tables, st, line), argv, false)
  }

  /** The state before line k. */
  function StateAt(tables: Tables, st: State, lines: seq<string>, k: nat): State
    requires k <= |lines|
  {
    if k == 0 then st else NextState(tables, StateAt(tables, st, lines, k - 1), lines[k - 1])
  }

  function EventAt(tables: Tables, st: State, lines: seq<string>, k: nat): Event
    requires k < |lines|
  {
    EventOf(tables, StateAt(tables, st, lines, k), lines[k])
  }

  /** The words of the line fill margv, and makeargv stores its null pointer past the end. */
  predicate Overruns(line: string) {
    !IsComment(line) && |Words(line)| >= SLOTS
  }

  /** The first line that is an empty string (a NUL at its start) ends the run; what the code does from
      a line on that overruns margv is not defined. */
  function Processed(lines: seq<string>, k: nat): (n: nat)
    requires k <= |lines|
    ensures k <= n <= |lines|
    ensures n < |lines| ==> lines[n] == "" || Overruns(lines[n])
    ensures forall i :: k <= i < n ==> lines[i] != "" && !Overruns(lines[i])
    decreases |lines| - k
  {
    if k == |lines| || lines[k] == "" || Overruns(lines[k]) then k else Processed(lines, k + 1)
  }

  /** No complete line of the buffer overruns margv; only pieces of longer lines can, and a last line
      without a newline. */
  lemma CompleteLinesProcessed(lines: seq<string>, k: nat)
    requires k < |lines| && 0 < |lines[k]| < LINE_SIZE && lines[k][|lines[k]| - 1] == '\n'
    ensures !Overruns(lines[k])
  {
    if !IsComment(lines[k]) {
      CompleteLinesFit(lines[k]);
    }
  }

  function EventsOf(tables: Tables, st: State, lines: seq<string>): int -> Event {
    k => if 0 <= k < |lines| then EventAt(tables, st, lines, k) else BlankLine
  }

  /** What a run over the lines does, line by line. */
  function Events(tables: Tables, st: State, lines: seq<string>): (e: seq<Event>)
    ensures |e| == Processed(lines, 0)
  {
    Listed(EventsOf(tables, st, lines), Processed(lines, 0))
  }

  /** The k-th event of a run is that of line k in the state before it. */
  lemma EventsAre(tables: Tables, st: State, lines: seq<string>, k: nat)
    requires k < Processed(lines, 0)
    ensures Events(tables, st, lines)[k] == EventAt(tables, st, lines, k)
  {
    ListedAt(EventsOf(tables, st, lines), Processed(lines, 0), k);
  }

  // ---- what a whole run does ----

  /** The nearest command line above line k, or -1. */
  function Above(lines: seq<string>, k: nat): (h: int)
    requires k <= |lines|
    ensures -1 <= h < k
    ensures h >= 0 ==> IsCommandLine(lines[h])
    ensures forall i :: h < i < k && i >= 0 ==> !IsCommandLine(lines[i])
  {
    if k == 0 then -1 else if IsCommandLine(lines[k - 1]) then k - 1 else Above(lines, k - 1)
  }

  /** The nearest accepted mode header above line k, or -1. */
  function HeaderAbove(tables: Tables, lines: seq<string>, k: nat): (h: int)
    requires k <= |lines|
    ensures -1 <= h < k
    ensures h >= 0 ==> IsHeader(tables, lines[h])
    ensures forall i :: h < i < k && i >= 0 ==> !IsHeader(tables, lines[i])
  {
    if k == 0 then -1 else if IsHeader(tables, lines[k - 1]) then k - 1 else HeaderAbove(tables, lines, k - 1)
  }

  /** The command a run is under before line k. */
  function CommandAbove(tables: Tables, st: State, lines: seq<string>, k: nat): Ref
    requires k <= |lines|
  {
    var h := Above(lines, k); if h < 0 then st.c else CommandOf(tables, lines[h])
  }

  lemma {:induction false} CommandIsAbove(tables: Tables, st: State, lines: seq<string>, k: nat)
    requires k <= |lines|
    ensures StateAt(tables, st, lines, k).c == CommandAbove(tables, st, lines, k)
  {
    if k > 0 {
      CommandIsAbove(tables, st, lines, k - 1);
    }
  }

  /** The state has the argument and the name of this header. */
  predicate HasHeader(tables: Tables, s: State, line: string)
    requires IsHeader(tables, line)
  {
    && s.modhvar == Strlcpy(Words(line)[1], MODHVAR_SIZE)
    && s.hname == Strlcpy(CommandOf(tables, line).cmd.name, HSIZE)
  }

  lemma HeaderStep(tables: Tables, s: State, line: string)
    ensures var t := NextState(tables, s, line);
      if IsHeader(tables, line) then HasHeader(tables, t, line) else t.modhvar == s.modhvar && t.hname == s.hname
  {
  }

  lemma {:induction false} HeaderIsAbove(tables: Tables, st: State, lines: seq<string>, k: nat)
    requires k <= |lines|
    ensures var s, h := StateAt(tables, st, lines, k), HeaderAbove(tables, lines, k);
      if h < 0 then s.modhvar == st.modhvar && s.hname == st.hname else HasHeader(tables, s, lines[h])
  {
    if k > 0 {
      HeaderIsAbove(tables, st, lines, k - 1);
      HeaderStep(tables, StateAt(tables, st, lines, k - 1), lines[k - 1]);
    }
  }

  /** The mode before any line is set by the nearest command line above it alone; comments, blank
      lines and indented lines never change it. Its argument is that of the nearest accepted header. */
  lemma ModeIsSetAbove(tables: Tables, st: State, lines: seq<string>, k: nat)
    requires k <= |lines|
    ensures var s := StateAt(tables, st, lines, k);
      && (var h := Above(lines, k); s.c == if h < 0 then st.c else CommandOf(tables, lines[h]))
      && (var h := HeaderAbove(tables, lines, k);
          if h < 0 then s.modhvar == st.modhvar && s.hname == st.hname
          else && s.modhvar == Strlcpy(Words(lines[h])[1], MODHVAR_SIZE)
               && s.hname == Strlcpy(CommandOf(tables, lines[h]).cmd.name, HSIZE))
  {
    CommandIsAbove(tables, st, lines, k);
    HeaderIsAbove(tables, st, lines, k);
  }

  /** An indented line reaches the handler of the nearest command line above it, with that line's
      argument and itself as the saved line, and is rejected when there is none or it opens no mode;
      provided that nearest line, when it names a mode, is an accepted header. */
  lemma IndentedLineReachesItsHeader(tables: Tables, st: State, lines: seq<string>, k: nat)
    requires k < |lines| && lines[k] != "" && lines[k][0] == ' ' && Words(lines[k]) != []
    requires var h := Above(lines, k); h < 0 ==> !st.c.Mode()
    requires var h := Above(lines, k); h >= 0 && CommandOf(tables, lines[h]).Mode() ==> IsHeader(tables, lines[h])
    ensures var h := Above(lines, k);
      EventAt(tables, st, lines, k) ==
        if h >= 0 && CommandOf(tables, lines[h]).Mode() then
          Call(CommandOf(tables, lines[h]).cmd, Words(lines[k]), Some(Strlcpy(Words(lines[h])[1], MODHVAR_SIZE)),
               Strlcpy(CommandOf(tables, lines[h]).cmd.name, HSIZE), lines[k])
        else Orphan
  {
    ModeIsSetAbove(tables, st, lines, k);
    var h := Above(lines, k);
    if h >= 0 && CommandOf(tables, lines[h]).Mode() {
      assert HeaderAbove(tables, lines, k) == h by {
        assert forall i :: h < i < k && i >= 0 ==> !IsCommandLine(lines[i]);
      }
    }
  }

  /** Without that proviso the mode stays open after a rejected header, and the indented lines below
      it are handed to the rejected command with the argument of the last accepted one. */
  lemma RejectedHeaderKeepsOldArgument(tables: Tables, st: State, lines: seq<string>, k: nat)
    requires k < |lines| && lines[k] != "" && lines[k][0] == ' ' && Words(lines[k]) != []
    requires var h := Above(lines, k); h >= 0 && CommandOf(tables, lines[h]).Mode() && !IsHeader(tables, lines[h])
    ensures var e := EventAt(tables, st, lines, k);
      var h, a := Above(lines, k), HeaderAbove(tables, lines, k);
      && a < h
      && e.Call? && e.cmd == CommandOf(tables, lines[h]).cmd && e.argv == Words(lines[k]) && e.saveline == lines[k]
      && e.arg == Some(if a < 0 then st.modhvar else Strlcpy(Words(lines[a])[1], MODHVAR_SIZE))
  {
    ModeIsSetAbove(tables, st, lines, k);
    var h, a := Above(lines, k), HeaderAbove(tables, lines, k);
    assert a >= 0 ==> IsCommandLine(lines[a]);
    assert a != h;
    assert Indented(lines[k]) && !IsCommandLine(lines[k]);
  }

  /** A command line is handled by itself: nothing above it matters but the saved line, and, for a
      line that is no accepted header, the names an earlier header left behind. */
  lemma CommandLineStandsAlone(tables: Tables, st: State, lines: seq<string>, k: nat)
    requires k < |lines| && IsCommandLine(lines[k])
    ensures var e := EventAt(tables, st, lines, k);
      var c, argv := CommandOf(tables, lines[k]), Words(lines[k]);
      && (e.Call? <==> c.Row? && (if c.Mode() then IsHeader(tables, lines[k]) else c.cmd.nocmd || !NoArg(argv[0])))
      && (e.Call? ==> e.cmd == c.cmd && e.argv == argv)
      && (e.Call? && c.Mode() ==>
            e.arg == Some(Strlcpy(argv[1], MODHVAR_SIZE)) && e.hname == Strlcpy(c.cmd.name, HSIZE))
      && (e.Call? && !c.Mode() ==> e.arg == None)
  {
  }

  // ---- which row a command line runs ----

  /** w stands for the row cmd: in the main table, or in the hidden one when no row of the main one matches. */
  ghost predicate Reaches(tables: Tables, w: string, cmd: Command) {
    || (exists i: nat :: StandsFor(w, Names(tables.main), i) && tables.main[i] == cmd)
    || (Unmatched(w, Names(tables.main))
        && exists i: nat :: StandsFor(w, Names(tables.hidden), i) && tables.hidden[i] == cmd)
  }

  predicate Nowhere(tables: Tables, w: string) {
    Unmatched(w, Names(tables.main)) && Unmatched(w, Names(tables.hidden))
  }

  lemma RowOfTable(rows: seq<Command>, w: string, cmd: Command)
    ensures (exists i: nat :: StandsFor(w, Names(rows), i) && rows[i] == cmd) <==>
      (Resolve(w, Names(rows)).Found? && rows[Resolve(w, Names(rows)).row] == cmd)
  {
    LookupIs(w, Names(rows));
    if Resolve(w, Names(rows)).Found? {
      assert StandsFor(w, Names(rows), Resolve(w, Names(rows)).row);
    }
    if i: nat :| StandsFor(w, Names(rows), i) && rows[i] == cmd {
      assert Resolve(w, Names(rows)) == Found(i);
    }
  }

  lemma GetcmdIs(tables: Tables, w: string, cmd: Command)
    ensures Getcmd(tables, Some(w)) == Row(cmd) <==> Reaches(tables, w, cmd)
    ensures Getcmd(tables, Some(w)) == NoCommand <==> Nowhere(tables, w)
  {
    RowOfTable(tables.main, w, cmd);
    RowOfTable(tables.hidden, w, cmd);
    LookupIs(w, Names(tables.main));
    LookupIs(w, Names(tables.hidden));
  }

  /** What a command line does, by the row its first word stands for, the second after a "no": the row is called
      with all the words; a mode needs an argument, which is kept for the lines below, and cannot be negated;
      any other row can when it allows it. Without a row the line is invalid, and ambiguous when its word
      matches several. */
  lemma CommandLineCalls(tables: Tables, st: State, lines: seq<string>, k: nat)
    requires k < |lines| && IsCommandLine(lines[k])
    ensures var argv := Words(lines[k]);
      var e, s, t := EventAt(tables, st, lines, k), StateAt(tables, st, lines, k), StateAt(tables, st, lines, k + 1);
      if NoArg(argv[0]) && |argv| == 1 then e == InvalidLine && t.c == NoCommand
      else
        var no := NoArg(argv[0]);
        var w := if no then argv[1] else argv[0];
        && (forall cmd :: Reaches(tables, w, cmd) ==>
              && t.c == Row(cmd)
              && e == if no then
                        if cmd.modh then NegatedHeader
                        else if cmd.nocmd then Call(cmd, argv, None, s.hname, s.saveline)
                        else InvalidLine
                      else if !cmd.modh then Call(cmd, argv, None, s.hname, s.saveline)
                      else if |argv| == 1 then BareHeader
                      else Call(cmd, argv, Some(Strlcpy(argv[1], MODHVAR_SIZE)), Strlcpy(cmd.name, HSIZE), s.saveline))
        && (Nowhere(tables, w) ==> t.c == NoCommand && e == InvalidLine)
        && (e == AmbiguousLine <==> t.c == Unclear)
        && (t.c == Unclear <==> !Nowhere(tables, w) && forall cmd :: !Reaches(tables, w, cmd))
  {
    var argv := Words(lines[k]);
    var c := CommandOf(tables, lines[k]);
    if !(NoArg(argv[0]) && |argv| == 1) {
      var w := if NoArg(argv[0]) then argv[1] else argv[0];
      assert c == Getcmd(tables, Some(w));
      forall cmd
        ensures Reaches(tables, w, cmd) <==> c == Row(cmd)
        ensures Nowhere(tables, w) <==> c == NoCommand
      {
        GetcmdIs(tables, w, cmd);
      }
      GetcmdIs(tables, w, if c.Row? then c.cmd else Command("", false, false, OtherHandler));
    }
  }

  /** A row's full name, in any case, stands for that row of the main table, unless a row before it has the same
      name or two rows before it begin with it. */
  lemma FullNameReaches(tables: Tables, w: string, i: nat)
    requires i < |tables.main| && w != "" && SameWord(w, tables.main[i].name)
    requires forall k :: 0 <= k < i ==> !SameWord(w, tables.main[k].name)
    requires forall k, l :: 0 <= k < l < i ==> !(Extends(w, tables.main[k].name) && Extends(w, tables.main[l].name))
    ensures Reaches(tables, w, tables.main[i])
  {
    assert StandsFor(w, Names(tables.main), i);
  }

  /** Comments do nothing, and lines without a word do nothing but save themselves when they start with a blank. */
  lemma IgnoredLines(tables: Tables, st: State, line: string)
    requires line != ""
    ensures line[0] == '#' || line[0] == '!' ==>
      EventOf(tables, st, line) == Comment && NextState(tables, st, line) == st
    ensures Words(line) == [] && line[0] != '#' && line[0] != '!' ==>
      EventOf(tables, st, line) == BlankLine
      && NextState(tables, st, line) == if line[0] == ' ' then st.(saveline := line) else st
  {
  }

  // ---- lines that only look indented ----

  /** The nearest line above line k that starts with a blank, or -1. */
  function SavedAbove(lines: seq<string>, k: nat): (h: int)
    requires k <= |lines|
    ensures -1 <= h < k
    ensures h >= 0 ==> lines[h] != "" && lines[h][0] == ' '
    ensures forall i :: h < i < k && i >= 0 ==> lines[i] == "" || lines[i][0] != ' '
  {
    if k == 0 then -1 else if lines[k - 1] != "" && lines[k - 1][0] == ' ' then k - 1 else SavedAbove(lines, k - 1)
  }

  lemma {:induction false} SavedIsAbove(tables: Tables, st: State, lines: seq<string>, k: nat)
    requires k <= |lines|
    ensures var h := SavedAbove(lines, k);
      StateAt(tables, st, lines, k).saveline == if h < 0 then st.saveline else lines[h]
  {
    if k > 0 {
      SavedIsAbove(tables, st, lines, k - 1);
    }
  }

  /** Which lines are taken for indented, in terms of their text. */
  lemma IndentedIffMasked(line: string)
    ensures Indented(line) <==> line != "" && (line[0] == ' ' || MaskedBlank(line, SkipPairs(line, 0)))
  {
    StartsWithBlank(line);
  }

  lemma MaskedHasWords(line: string)
    requires Indented(line) && line[0] != ' '
    ensures !IsComment(line) && Words(line) != []
  {
    IndentedIffMasked(line);
    assert NextPart(line, 0).Word?;
  }

  /** A line that starts with a quoted or escaped blank is no command: it leaves the mode and its argument as
      they were and goes to the handler of that mode, with the saved line of the nearest line above that
      does start with a blank. */
  lemma MaskedBlankKeepsMode(tables: Tables, st: State, lines: seq<string>, k: nat)
    requires k < |lines| && lines[k] != "" && lines[k][0] != ' ' && MaskedBlank(lines[k], SkipPairs(lines[k], 0))
    ensures StateAt(tables, st, lines, k + 1) == StateAt(tables, st, lines, k)
    ensures var s, h := StateAt(tables, st, lines, k), SavedAbove(lines, k);
      EventAt(tables, st, lines, k) ==
        if s.c.Mode() then
          Call(s.c.cmd, Words(lines[k]), Some(s.modhvar), s.hname, if h < 0 then st.saveline else lines[h])
        else Orphan
  {
    IndentedIffMasked(lines[k]);
    MaskedHasWords(lines[k]);
    SavedIsAbove(tables, st, lines, k);
  }

  /** One such line: its only word is looked up nowhere. */
  lemma QuotedBlankIsNoCommand(line: string)
    requires line == "\" a\"\n"
    ensures line[0] != ' ' && Words(line) == [" a"] && Indented(line) && !IsCommandLine(line)
  {
    IndentedIffMasked(line);
    assert ScanWord(line, 4, NUL) == Scan("", 4, AtBlank);
    assert ScanWord(line, 3, '"') == Scan("", 4, AtBlank);
    assert ScanWord(line, 2, '"') == Scan("a", 4, AtBlank);
    assert ScanWord(line, 1, '"') == Scan(" a", 4, AtBlank);
    assert ScanWord(line, 0, NUL) == Scan(" a", 4, AtBlank);
    assert WordsFrom(line, 5) == [];
  }

  // ---- the program ----

  class Shell {
    const cl: CommandLine
    var hname: string

    constructor ()
      ensures fresh(cl) && fresh(cl.line) && fresh(cl.margv) && Ready()
    {
      cl := new CommandLine();
      hname := "";
    }

    predicate Ready()
      reads this, cl
    {
      cl.line.Length == LINE_SIZE && cl.margv.Length == SLOTS
    }

    /** The string an entry of margv points at. */
    method Argument(arg: Arg, ghost t: string) returns (r: string)
      requires Denotes(cl.line[..], arg, t) && NulFree(t)
      ensures r == t
    {
      match arg
      case Bang => r := "!";
      case Ptr(p) =>
        r := "";
        while cl.line[p + |r|] != NUL
          invariant |r| <= |t| && r == t[..|r|]
          invariant cl.line[p + |r|] == At(t, |r|)
          decreases |t| - |r|
        {
          r := r + [cl.line[p + |r|]];
        }
        assert At(t, |r|) == NUL;
    }

    method Arguments(ghost words: seq<string>) returns (argv: seq<string>)
      requires cl.Sized() && cl.margc == |words|
      requires forall k :: 0 <= k < |words| ==> Denotes(cl.line[..], cl.margv[k], words[k]) && NulFree(words[k])
      ensures argv == words
    {
      argv := [];
      for k := 0 to cl.margc
        invariant |argv| == k && forall i :: 0 <= i < k ==> argv[i] == words[i]
      {
        var t := Argument(cl.margv[k], words[k]);
        argv := argv + [t];
      }
    }

    method Lookup(tables: Tables, name: Option<string>) returns (c: Ref)
      requires name.Some? ==> NulFree(name.value)
      requires ProperTables(tables)
      ensures c == Getcmd(tables, name)
    {
      var r := Genget(name, Names(tables.main));
      if r.NotFound? {
        r := Genget(name, Names(tables.hidden));
        return if r.Found? then Row(tables.hidden[r.row]) else if r.Ambiguous? then Unclear else NoCommand;
      }
      return if r.Found? then Row(tables.main[r.row]) else Unclear;
    }

    /** One turn of the cmdrc loop on a line that is no comment; ok says that it did not overrun margv. */
    method ReadLine(tables: Tables, line: string, c0: Ref, modhvar0: string)
      returns (c: Ref, modhvar: string, event: Event, ok: bool)
      requires ProperTables(tables) && Ready()
      requires line != "" && NulFree(line) && |line| < LINE_SIZE && !IsComment(line)
      modifies this`hname, cl, cl.line, cl.margv
      ensures cl.line == old(cl.line) && ok == !Overruns(line)
      ensures var st := State(c0, modhvar0, old(hname), old(cl.saveline));
        ok ==> State(c, modhvar, hname, cl.saveline) == NextState(tables, st, line)
               && event == EventOf(tables, st, line)
    {
      c, modhvar, event := c0, modhvar0, BlankLine;
      cl.Load(line);
      if line[0] == ' ' {
        cl.saveline := Strlcpy(line, LINE_SIZE);
      }
      ok := cl.Makeargv(false, line);
      if !ok {
        return;
      }
      WordsNulFree(line, 0);
      var argv := Arguments(Words(line));
      if argv == [] {
        return c, modhvar, BlankLine, true;
      }
      var indented := cl.line[0] == ' ';
      if indented {
        if !c.Mode() {
          return c, modhvar, Orphan, true;
        }
      } else if NoArg(argv[0]) {
        c := Lookup(tables, if |argv| > 1 then Some(argv[1]) else None);
        if c.Mode() {
          return c, modhvar, NegatedHeader, true;
        }
      } else {
        c := Lookup(tables, Some(argv[0]));
        if c.Mode() {
          if |argv| == 1 {
            return c, modhvar, BareHeader, true;
          }
          hname := Strlcpy(c.cmd.name, HSIZE);
          modhvar := Strlcpy(argv[1], MODHVAR_SIZE);
        }
      }
      event := Dispatch(State(c, modhvar, hname, cl.saveline), argv, indented);
    }

    /** One turn of the loop on any line; comments are dropped before anything else. */
    method Turn(tables: Tables, line: string, c0: Ref, modhvar0: string)
      returns (c: Ref, modhvar: string, event: Event, ok: bool)
      requires ProperTables(tables) && Ready()
      requires line != "" && NulFree(line) && |line| < LINE_SIZE
      modifies this`hname, cl, cl.line, cl.margv
      ensures cl.line == old(cl.line) && ok == !Overruns(line)
      ensures var st := State(c0, modhvar0, old(hname), old(cl.saveline));
        ok ==> State(c, modhvar, hname, cl.saveline) == NextState(tables, st, line)
               && event == EventOf(tables, st, line)
    {
      c, modhvar, event, ok := c0, modhvar0, Comment, true;
      if line[0] != '#' && line[0] != '!' {
        c, modhvar, event, ok := ReadLine(tables, line, c, modhvar);
      }
    }

    /** cmdrc over the lines fgets returns; modhvar0 is what the local buffer happens to hold. The run ends
        before a line that overruns margv, and then ok is false. */
    method Cmdrc(tables: Tables, lines: seq<string>, modhvar0: string) returns (events: seq<Event>, ok: bool)
      requires ProperTables(tables) && Ready()
      requires forall k :: 0 <= k < |lines| ==> NulFree(lines[k]) && |lines[k]| < LINE_SIZE
      modifies this`hname, cl, cl.line, cl.margv
      ensures events == Events(tables, State(NoCommand, modhvar0, old(hname), old(cl.saveline)), lines)
      ensures var n := Processed(lines, 0); ok <==> n == |lines| || lines[n] == ""
    {
      ghost var st := State(NoCommand, modhvar0, hname, cl.saveline);
      var c, modhvar, lnum := NoCommand, modhvar0, 0;
      events, ok := [], true;
      while lnum < |lines|
        invariant lnum <= |lines| && cl.line == old(cl.line) && events == Listed(EventsOf(tables, st, lines), lnum)
        invariant State(c, modhvar, hname, cl.saveline) == StateAt(tables, st, lines, lnum)
        invariant Processed(lines, 0) == Processed(lines, lnum)
      {
        if lines[lnum] == "" {
          break;
        }
        var event;
        c, modhvar, event, ok := Turn(tables, lines[lnum], c, modhvar);
        if !ok {
          break;
        }
        events := events + [event];
        lnum := lnum + 1;
      }
    }
  }

  /** The tables hold C strings. */
  predicate ProperTables(tables: Tables) {
    && (forall i :: 0 <= i < |tables.main| ==> NulFree(tables.main[i].name))
    && (forall i :: 0 <= i < |tables.hidden| ==> NulFree(tables.hidden[i].name))
  }
}
