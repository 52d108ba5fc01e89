/** The interface mode handler as cmdrc calls it: one line, one sub-command. */
module Interface {
  import opened Text
  import opened Tokens
  import opened Abbreviations

  /** The routines of interface mode this model follows. */
  datatype Routine = Intcdev | Intcpass | Intcarp | Intcnode | Intnwid | Brrule | OtherRoutine

  /** A row of Intlist; mode is 0 for interfaces, 1 for bridges, 2 for both. */
  datatype Row = Row(name: string, handler: Routine, mode: int)

  datatype Outcome =
    | Swallowed                            // two words, the second is the interface name
    | Unclear
    | Unknown
    | Run(handler: Routine, argv: seq<string>)

  function RowNames(rows: seq<Row>): (names: seq<string>)
    ensures |names| == |rows|
    ensures forall i :: 0 <= i < |rows| ==> names[i] == rows[i].name
  {
    seq(|rows|, i requires 0 <= i < |rows| => rows[i].name)
  }

  /** interface() with modhvar set, for a non-empty argument vector. */
  function Dispatch(rows: seq<Row>, bridge: bool, ifname: string, argv: seq<string>): Outcome
    requires argv != []
  {
    if |argv| == 2 && argv[1] == ifname then Swallowed
    else
      var word := if NoArg(argv[0]) then (if |argv| > 1 then Some(argv[1]) else None) else Some(argv[0]);
      if word.None? then Unknown
      else match Resolve(word.value, RowNames(rows))
        case Ambiguous => Unclear
        case NotFound => Unknown
        case Found(i) =>
          if (bridge && rows[i].mode == 0) || (!bridge && rows[i].mode == 1) then Unknown
          else Run(rows[i].handler, argv)
  }

  method Interface(rows: seq<Row>, bridge: bool, ifname: string, argv: seq<string>) returns (r: Outcome)
    requires argv != [] && forall i :: 0 <= i < |argv| ==> NulFree(argv[i])
    requires forall i :: 0 <= i < |rows| ==> NulFree(rows[i].name)
    ensures r == Dispatch(rows, bridge, ifname, argv)
  {
    if |argv| == 2 && argv[1] == ifname {
      return Swallowed;
    }
    var word := Some(argv[0]);
    if NoArg(argv[0]) {
      word := if |argv| > 1 then Some(argv[1]) else None;
    }
    var i := Genget(word, RowNames(rows));
    if i.Ambiguous? {
      return Unclear;
    } else if i.NotFound? {
      return Unknown;
    }
    var row := rows[i.row];
    if (bridge && row.mode == 0) || (!bridge && row.mode == 1) {
      return Unknown;
    }
    return Run(row.handler, argv);
  }

  /** A full sub-command name, offered in this mode. */
  predicate Known(rows: seq<Row>, bridge: bool, name: string, handler: Routine) {
    && Plain(name) && !NoArg(name)
    && (exists i :: 0 <= i < |rows| && Resolve(name, RowNames(rows)) == Found(i) && rows[i].handler == handler
         && rows[i].mode != (if bridge then 0 else 1))
  }

  /** The text of a configuration line of interface mode. */
  function ConfLine(name: string, args: seq<string>): string {
    " " + (Unwords([name] + args) + "\n")
  }

  /** A configuration line of plain words reaches its sub-command with these words, unless there is
      one word and it is the name of the interface. */
  lemma LineReachesCommand(rows: seq<Row>, bridge: bool, ifname: string, name: string, handler: Routine,
                           args: seq<string>)
    requires Known(rows, bridge, name, handler)
    requires forall i :: 0 <= i < |args| ==> Plain(args[i])
    ensures Words(ConfLine(name, args)) == [name] + args
    ensures Dispatch(rows, bridge, ifname, [name] + args)
         == if args == [ifname] then Swallowed else Run(handler, [name] + args)
  {
    PlainLine([name] + args);
    assert ([name] + args)[1..] == args;
    assert |args| == 1 ==> args == [args[0]];
  }

  /** Interface names are plain words and do not start with a digit, so no number is taken for one. */
  predicate ProperName(ifname: string) {
    Plain(ifname) && !IsDigit(ifname[0])
  }

  function Line(name: string, arg: string): string {
    ConfLine(name, [arg])
  }

  /** The number of words and the text of a line with one unquoted word of any kind. */
  lemma RawWords(name: string, arg: string)
    requires Plain(name)
    ensures Words(Line(name, arg)) == [name] + Words(arg + "\n")
  {
    var rest := arg + "\n";
    assert Unwords([name] + [arg]) == name + " " + arg;
    assert Line(name, arg) == [' '] + (name + [' '] + rest);
    LeadingBlank(' ', name + [' '] + rest);
    PlainIsWord(name);
    WordThenRest(name, name, ' ', rest);
  }

  lemma DispatchNamed(rows: seq<Row>, bridge: bool, ifname: string, name: string, handler: Routine, args: seq<string>)
    requires Known(rows, bridge, name, handler)
    ensures Dispatch(rows, bridge, ifname, [name] + args)
         == if args == [ifname] then Swallowed else Run(handler, [name] + args)
  {
    assert |args| == 1 ==> args == [args[0]];
  }

  /** A line runs the row its first word stands for, the second after a "no", with all its words, when that row is
      offered in this mode; a row of the other mode is unknown, and so is a word that no row matches. */
  lemma DispatchIs(rows: seq<Row>, bridge: bool, ifname: string, argv: seq<string>)
    requires argv != [] && (NoArg(argv[0]) ==> |argv| > 1)
    requires !(|argv| == 2 && argv[1] == ifname)
    ensures var w := if NoArg(argv[0]) then argv[1] else argv[0];
      && (forall i: nat :: StandsFor(w, RowNames(rows), i) ==>
            Dispatch(rows, bridge, ifname, argv) ==
              if rows[i].mode == (if bridge then 0 else 1) then Unknown else Run(rows[i].handler, argv))
      && (Unmatched(w, RowNames(rows)) ==> Dispatch(rows, bridge, ifname, argv) == Unknown)
      && (Dispatch(rows, bridge, ifname, argv) == Unclear <==>
            !Unmatched(w, RowNames(rows)) && forall i: nat :: i < |rows| ==> !StandsFor(w, RowNames(rows), i))
  {
    LookupIs(if NoArg(argv[0]) then argv[1] else argv[0], RowNames(rows));
  }

  /** Two words of which the second is the interface name are swallowed, and a lone "no" is unknown. */
  lemma SwallowedIs(rows: seq<Row>, bridge: bool, ifname: string, argv: seq<string>)
    requires argv != []
    ensures Dispatch(rows, bridge, ifname, argv) == Swallowed <==> |argv| == 2 && argv[1] == ifname
    ensures |argv| == 1 && NoArg(argv[0]) ==> Dispatch(rows, bridge, ifname, argv) == Unknown
  {
  }
}
