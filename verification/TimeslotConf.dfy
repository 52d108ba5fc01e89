/** inttimeslot, and the timeslot line of a saved configuration. */
module TimeslotConf {
  import opened Text
  import opened Tokens
  import opened Abbreviations
  import opened Interface
  import opened Words32
  import opened Timeslot
  import opened ChannelRuns

  datatype Setting = Usage | SetMap(map_: Map)

  function ReadTimeslots(argv: seq<string>): Setting
    requires argv != []
  {
    var args := if NoArg(argv[0]) then argv[1..] else argv;
    if NoArg(argv[0]) then
      if |args| == 1 then SetMap(Map(ALL_CHANNELS)) else Usage
    else if |args| != 2 then Usage
    else if args[0] == "all" then SetMap(Map(ALL_CHANNELS))
    else SetMap(ParseList(args[0]))
  }

  method Inttimeslot(argv: seq<string>) returns (o: Setting)
    requires argv != []
    ensures o == ReadTimeslots(argv)
  {
    var args, on := argv, true;
    if NoArg(argv[0]) {
      on, args := false, argv[1..];
    }
    if (!on && |args| != 1) || (on && |args| != 2) {
      return Usage;
    }
    if !on {
      return SetMap(Map(ALL_CHANNELS));
    } else if args[0] == "all" {
      return SetMap(Map(ALL_CHANNELS));
    }
    var r := ParseLoop(args[0]);
    return SetMap(r);
  }

  /** Two words or nothing: "no" before the command gives every channel, and so does the command all; any other
      command word is itself parsed as the list. */
  lemma SettingIs(argv: seq<string>)
    requires argv != []
    ensures ReadTimeslots(argv) == Usage <==> |argv| != 2
    ensures |argv| == 2 && (NoArg(argv[0]) || argv[0] == "all") ==> ReadTimeslots(argv) == SetMap(Map(0xFFFF_FFFF))
    ensures |argv| == 2 && !NoArg(argv[0]) && argv[0] != "all" ==> ReadTimeslots(argv) == SetMap(ParseList(argv[0]))
  {
  }

  /** The loop reads the command word, not the list: whatever the list, the word timeslots or any
      abbreviation of it gives the empty map. */
  lemma ListIgnored(word: string, list: string)
    requires word != "" && (SameWord(word, "timeslots") || Extends(word, "timeslots"))
    ensures ReadTimeslots([word, list]) == SetMap(Map(0))
  {
    assert LowerChar(word[0]) == 't';
    forall i | 0 <= i < |word|
      ensures Separator(word[i])
    {
      assert LowerChar(word[i]) == "timeslots"[i];
    }
    SeparatorsRead(word, "", INITIAL);
    assert word + "" == word;
    assert Added(word, INITIAL) == [];
  }

  lemma ItemPlain(item: Item)
    ensures Plain(ItemText(item)) && Plain("," + ItemText(item))
  {
    match item
    case Slot(n) =>
    case Range(a, b) =>
      assert forall i :: 0 <= i < |ItemText(item)| ==> IsDigit(ItemText(item)[i]) || ItemText(item)[i] == '-';
  }

  /** A plain text behind the blank or the comma of timeslot_status. */
  lemma OneWord(sep: string, text: string) returns (arg: string)
    requires Plain(text) && Plain("," + text) && (sep == " " || sep == ",")
    ensures Words(sep + text + "\n") == [arg]
  {
    arg := if sep == " " then text else "," + text;
    BareWordRestored(arg);
    LeadingBlank(' ', text + "\n");
    assert " " + text + "\n" == [' '] + (text + "\n");
  }

  lemma RunsAreWord(rs: seq<Run>, before: string) returns (arg: string)
    requires rs != []
    ensures Words(Overwritten(rs, before) + "\n") == [arg]
  {
    var item := ItemOf(rs[|rs| - 1]);
    ItemPlain(item);
    arg := OneWord(if |rs| == 1 then " " else ",", ItemText(item));
  }

  /** The printed text is one word. */
  lemma TextIsWord(w: bv32, before: string) returns (arg: string)
    requires w != 0
    ensures Words(Overwritten(AllRuns(Bits(w)), before) + "\n") == [arg]
  {
    SomeRun(w);
    arg := RunsAreWord(AllRuns(Bits(w)), before);
  }

  /** A saved timeslot line has the run as its one argument; when it reaches inttimeslot it leaves the
      interface with no channel at all. */
  lemma LineClearsMap(rows: seq<Row>, ifname: string, w: bv32, before: string)
    requires Known(rows, false, "timeslots", OtherRoutine) && w != 0
    ensures var argv := Words(Line("timeslots", Overwritten(AllRuns(Bits(w)), before)));
      && |argv| == 2 && ReadTimeslots(argv) == SetMap(Map(0))
      && Dispatch(rows, false, ifname, argv)
           == if argv[1] == ifname then Swallowed else Interface.Run(OtherRoutine, argv)
  {
    var arg := TextIsWord(w, before);
    RawWords("timeslots", Overwritten(AllRuns(Bits(w)), before));
    DispatchNamed(rows, false, ifname, "timeslots", OtherRoutine, [arg]);
    ListIgnored("timeslots", arg);
    assert ["timeslots"] + [arg] == ["timeslots", arg];
  }
}
