/** Daemon rule files and flags: conf_ctl writes them into the configuration, and cmdrc with
    ctlhandler puts them back. Files are a map from path to content. */
module Ctl {
  import opened Text
  import opened Tokens
  import opened Abbreviations
  import opened Cmdrc
  import opened Optreq
  import opened Stream

  type Files = map<string, string>

  /** The flag_x column of an action. */
  datatype Flag = NoFlag | Enable | Disable | Local | Other

  datatype Action = Action(name: string, args: Template, flag: Flag)

  datatype Daemon = Daemon(name: string, table: seq<Action>, tmpfile: string, doreload: bool) {
    function Enabled(): string { tmpfile + ".enabled" }
    function Locally(): string { tmpfile + ".local" }
    function Elsewhere(): string { tmpfile + ".other" }
  }

  function ActionNames(table: seq<Action>): (names: seq<string>)
    ensures |names| == |table|
    ensures forall i :: 0 <= i < |table| ==> names[i] == table[i].name
  {
    seq(|table|, i requires 0 <= i < |table| => table[i].name)
  }

  function DaemonNames(daemons: seq<Daemon>): (names: seq<string>)
    ensures |names| == |daemons|
    ensures forall i :: 0 <= i < |daemons| ==> names[i] == daemons[i].name
  {
    seq(|daemons|, i requires 0 <= i < |daemons| => daemons[i].name)
  }

  /** The last action of the table that carries a flag, or none. */
  function FlagName(table: seq<Action>, flag: Flag, n: nat): Option<string>
    requires n <= |table|
  {
    if n == 0 then None
    else if table[n - 1].flag == flag then Some(table[n - 1].name)
    else FlagName(table, flag, n - 1)
  }

  predicate IsLast(table: seq<Action>, flag: Flag, n: nat, i: nat)
    requires i < n <= |table|
  {
    table[i].flag == flag && forall j :: i < j < n ==> table[j].flag != flag
  }

  /** name is that of the last row with the flag, or there is no such row. */
  predicate LastWith(table: seq<Action>, flag: Flag, n: nat, name: Option<string>)
    requires n <= |table|
  {
    match name
    case None => forall i :: 0 <= i < n ==> table[i].flag != flag
    case Some(text) =>
      exists i :: 0 <= i < n && IsLast(table, flag, n, i) && table[i].name == text
  }

  lemma {:induction false} FlagNameIs(table: seq<Action>, flag: Flag, n: nat, name: Option<string>)
    requires n <= |table|
    ensures FlagName(table, flag, n) == name <==> LastWith(table, flag, n, name)
  {
    if n > 0 {
      FlagNameIs(table, flag, n - 1, name);
    }
  }

  /** The names of the actions for the three flags, later rows over earlier ones. */
  method GrabNames(table: seq<Action>) returns (enable: Option<string>, local: Option<string>, other: Option<string>)
    ensures enable == FlagName(table, Enable, |table|)
    ensures local == FlagName(table, Local, |table|)
    ensures other == FlagName(table, Other, |table|)
  {
    enable, local, other := None, None, None;
    var i := 0;
    while i < |table|
      invariant i <= |table|
      invariant enable == FlagName(table, Enable, i)
      invariant local == FlagName(table, Local, i)
      invariant other == FlagName(table, Other, i)
    {
      if table[i].flag == Local {
        local := Some(table[i].name);
      }
      if table[i].flag == Other {
        other := Some(table[i].name);
      }
      if table[i].flag == Enable {
        enable := Some(table[i].name);
      }
      i := i + 1;
    }
  }

  // ---- writing ----

  function Indent(lines: seq<string>): (r: seq<string>)
    ensures |r| == |lines|
    ensures forall i :: 0 <= i < |lines| ==> r[i] == " " + lines[i]
  {
    seq(|lines|, i requires 0 <= i < |lines| => " " + lines[i])
  }

  function CommandLineOf(name: string, word: string): string {
    name + " " + word + "\n"
  }

  /** The rules block conf_ctl writes for a rule file with the given lines. */
  function RuleBlock(name: string, lines: seq<string>): seq<string> {
    [CommandLineOf(name, "rules")] + Indent(lines) + ["!\n"]
  }

  function FlagLine(fs: Files, d: Daemon, flag: Flag, path: string): seq<string> {
    var name := FlagName(d.table, flag, |d.table|);
    if name.Some? && path in fs then [CommandLineOf(d.name, name.value)] else []
  }

  function ReloadLine(fs: Files, d: Daemon): seq<string> {
    if d.tmpfile in fs && d.doreload then [CommandLineOf(d.name, "reload")] else []
  }

  function FlagLines(fs: Files, d: Daemon): seq<string> {
    FlagLine(fs, d, Enable, d.Enabled()) + FlagLine(fs, d, Local, d.Locally())
    + FlagLine(fs, d, Other, d.Elsewhere()) + ReloadLine(fs, d)
  }

  function FlagBlock(fs: Files, d: Daemon): seq<string> {
    if FlagLines(fs, d) == [] then [] else FlagLines(fs, d) + ["!\n"]
  }

  /** Everything conf_ctl writes for one daemon. */
  function ConfLines(fs: Files, d: Daemon): seq<string> {
    (if d.tmpfile in fs then RuleBlock(d.name, Lines(fs[d.tmpfile], TMPSIZ, 0)) else []) + FlagBlock(fs, d)
  }

  lemma IndentMore(lines: seq<string>, line: string)
    ensures Indent(lines + [line]) == Indent(lines) + [" " + line]
  {
  }

  method AddFlag(flags: seq<string>, fs: Files, d: Daemon, name: Option<string>, path: string) returns (r: seq<string>)
    ensures r == flags + if name.Some? && path in fs then [CommandLineOf(d.name, name.value)] else []
  {
    r := flags;
    if name.Some? && path in fs {
      r := r + [CommandLineOf(d.name, name.value)];
    }
  }

  /** conf_ctl, as the sequence of strings it writes to the stream. */
  method ConfCtl(fs: Files, d: Daemon) returns (out: seq<string>)
    ensures out == ConfLines(fs, d)
  {
    out := [];
    if d.tmpfile in fs {
      out := WriteRules(fs[d.tmpfile], d.name);
    }
    var enable, local, other := GrabNames(d.table);
    var flags := AddFlag([], fs, d, enable, d.Enabled());
    flags := AddFlag(flags, fs, d, local, d.Locally());
    flags := AddFlag(flags, fs, d, other, d.Elsewhere());
    if d.tmpfile in fs && d.doreload {
      flags := flags + [CommandLineOf(d.name, "reload")];
    }
    assert flags == FlagLines(fs, d);
    if flags != [] {
      flags := flags + ["!\n"];
    }
    out := out + flags;
  }

  lemma ReadMore(read: seq<string>, conf: string, pos: nat, all: seq<string>)
    requires pos < |conf| && read + Lines(conf, TMPSIZ, pos) == all
    ensures var end := LineEnd(conf, pos, TMPSIZ - 1);
      pos < end && read + [conf[pos..end]] + Lines(conf, TMPSIZ, end) == all
  {
    var end := LineEnd(conf, pos, TMPSIZ - 1);
    assert read + [conf[pos..end]] + Lines(conf, TMPSIZ, end) == read + ([conf[pos..end]] + Lines(conf, TMPSIZ, end));
  }

  method WriteRules(conf: string, name: string) returns (out: seq<string>)
    ensures out == RuleBlock(name, Lines(conf, TMPSIZ, 0))
  {
    ghost var all := Lines(conf, TMPSIZ, 0);
    out := [];
    var pos := 0;
    ghost var read: seq<string> := [];
    while pos < |conf|
      invariant pos <= |conf| && read + Lines(conf, TMPSIZ, pos) == all
      invariant out == Indent(read)
      decreases |conf| - pos
    {
      var end := LineEnd(conf, pos, TMPSIZ - 1);
      var line := conf[pos..end];
      ReadMore(read, conf, pos, all);
      IndentMore(read, line);
      out := out + [" " + line];
      read, pos := read + [line], end;
    }
    assert read == all;
    out := [CommandLineOf(name, "rules")] + out + ["!\n"];
  }

  // ---- reading back ----

  function WithoutBlank(line: string): string {
    if line != "" && line[0] == ' ' then line[1..] else line
  }

  /** Append to a file, creating it. */
  function Append(fs: Files, path: string, text: string): Files {
    fs[path := (if path in fs then fs[path] else "") + text]
  }

  function SetFlag(fs: Files, d: Daemon, flag: Flag): Files {
    match flag
    case NoFlag => fs
    case Enable => fs[d.Enabled() := ""]
    case Disable => fs - {d.Enabled()}
    case Local => (fs - {d.Elsewhere()})[d.Locally() := ""]
    case Other => (fs - {d.Locally()})[d.Elsewhere() := ""]
  }

  /** A two-word line ctlhandler takes for the header of a rules or action block. */
  predicate LooksLikeHeader(argv: seq<string>) {
    |argv| == 2 && (PrefixCode(argv[1], "rules") != 0 || PrefixCode(argv[1], "action") != 0)
  }

  /** The action a command line runs: it must resolve, and its template must accept the words. */
  function ActionOf(d: Daemon, argv: seq<string>): Option<Action> {
    if |argv| < 2 || (argv[1] != "" && argv[1][0] == '?') then None
    else match Resolve(argv[1], ActionNames(d.table))
      case Found(i) => if Accepted(d.table[i].args, argv[2..]) then Some(d.table[i]) else None
      case _ => None
  }

  /** What one call of ctlhandler does: a line for the rule file, or an action that is run. */
  datatype Deed = Nothing | Wrote(path: string, text: string) | Ran(d: Daemon, x: Action)

  function DeedOf(d: Daemon, argv: seq<string>, modhvar: string, saveline: string): Deed {
    if LooksLikeHeader(argv) then Nothing
    else if PrefixCode(modhvar, "rules") != 0 then Wrote(d.tmpfile, WithoutBlank(saveline))
    else match ActionOf(d, argv)
      case None => Nothing
      case Some(x) => Ran(d, x)
  }

  /** The files after a deed. */
  function Do(fs: Files, deed: Deed): Files {
    match deed
    case Nothing => fs
    case Wrote(path, text) => Append(fs, path, text)
    case Ran(d, x) => SetFlag(fs, d, x.flag)
  }

  /** What one event of a cmdrc run does. */
  function EventDeed(daemons: seq<Daemon>, e: Event): Deed {
    if e.Call? && e.cmd.handler == CtlHandler && e.arg.Some? then
      match Resolve(e.hname, DaemonNames(daemons))
      case Found(i) => DeedOf(daemons[i], e.argv, e.arg.value, e.saveline)
      case _ => Nothing
    else Nothing
  }

  // ---- what a line does ----

  /** Which flag files an action leaves: enabling and disabling make and remove one file, and of the other two each
      replaces the other; no other file changes. */
  lemma FlagIs(fs: Files, d: Daemon, flag: Flag, p: string)
    ensures var after := SetFlag(fs, d, flag);
      var enabled, local, other := d.tmpfile + ".enabled", d.tmpfile + ".local", d.tmpfile + ".other";
      match flag
      case NoFlag => after == fs
      case Enable => enabled in after && after[enabled] == "" && (p != enabled ==> SameFile(after, fs, p))
      case Disable => enabled !in after && (p != enabled ==> SameFile(after, fs, p))
      case Local =>
        local in after && after[local] == "" && other !in after && (p != local && p != other ==> SameFile(after, fs, p))
      case Other =>
        other in after && after[other] == "" && local !in after && (p != local && p != other ==> SameFile(after, fs, p))
  {
    assert d.Locally()[|d.tmpfile| + 1] == 'l' && d.Elsewhere()[|d.tmpfile| + 1] == 'o';
  }

  predicate SameFile(a: Files, b: Files, p: string) {
    (p in a <==> p in b) && (p in a ==> a[p] == b[p])
  }

  /** The action a line runs is the row its second word stands for, when its template takes the words behind it. */
  lemma ActionIs(d: Daemon, argv: seq<string>)
    ensures |argv| < 2 || (argv[1] != "" && argv[1][0] == '?') ==> ActionOf(d, argv) == None
    ensures |argv| >= 2 && (argv[1] == "" || argv[1][0] != '?') ==>
      && (forall i: nat :: StandsFor(argv[1], ActionNames(d.table), i) ==>
            ActionOf(d, argv) == if Accepted(d.table[i].args, argv[2..]) then Some(d.table[i]) else None)
      && ((forall i: nat :: i < |d.table| ==> !StandsFor(argv[1], ActionNames(d.table), i)) ==>
            ActionOf(d, argv) == None)
  {
    if |argv| >= 2 {
      LookupIs(argv[1], ActionNames(d.table));
    }
  }

  /** w is what a name in lower case begins with, in any case. */
  predicate Begins(w: string, name: string) {
    |w| <= |name| && forall i :: 0 <= i < |w| ==> LowerChar(w[i]) == name[i]
  }

  lemma PrefixBegins(w: string, name: string)
    requires forall i :: 0 <= i < |name| ==> LowerChar(name[i]) == name[i]
    ensures PrefixCode(w, name) != 0 <==> Begins(w, name)
  {
  }

  lemma HeaderIs(argv: seq<string>)
    ensures LooksLikeHeader(argv) <==> |argv| == 2 && (Begins(argv[1], "rules") || Begins(argv[1], "action"))
  {
    if |argv| == 2 {
      PrefixBegins(argv[1], "rules");
      PrefixBegins(argv[1], "action");
    }
  }

  /** What a line does, in this order: nothing if it has two words of which the second begins rules or action; in a
      rules block the saved line is written to the rule file without its first blank; and otherwise the action is
      run that the line stands for. */
  lemma DeedIs(d: Daemon, argv: seq<string>, modhvar: string, saveline: string)
    ensures var header := |argv| == 2 && (Begins(argv[1], "rules") || Begins(argv[1], "action"));
      DeedOf(d, argv, modhvar, saveline) ==
        if header then Nothing
        else if Begins(modhvar, "rules") then
          Wrote(d.tmpfile, if saveline != "" && saveline[0] == ' ' then saveline[1..] else saveline)
        else if ActionOf(d, argv).Some? then Ran(d, ActionOf(d, argv).value)
        else Nothing
  {
    HeaderIs(argv);
    PrefixBegins(modhvar, "rules");
  }

  /** Which files a deed changes: a text is put behind what the file holds, and an action changes what its flag says. */
  lemma DoIs(fs: Files, deed: Deed, p: string)
    ensures match deed
      case Nothing => Do(fs, deed) == fs
      case Wrote(path, text) =>
        && path in Do(fs, deed) && Do(fs, deed)[path] == (if path in fs then fs[path] + text else text)
        && (p != path ==> SameFile(Do(fs, deed), fs, p))
      case Ran(d, x) => Do(fs, deed) == SetFlag(fs, d, x.flag)
  {
    if deed.Wrote? {
      assert "" + deed.text == deed.text;
    }
  }

  /** Only a line below an accepted header of a daemon, or that header, does anything, and to the daemon its name
      stands for. */
  lemma EventDeedIs(daemons: seq<Daemon>, e: Event)
    ensures e.Call? && e.cmd.handler == CtlHandler && e.arg.Some? ==>
      && (forall i: nat :: StandsFor(e.hname, DaemonNames(daemons), i) ==>
            EventDeed(daemons, e) == DeedOf(daemons[i], e.argv, e.arg.value, e.saveline))
      && ((forall i: nat :: i < |daemons| ==> !StandsFor(e.hname, DaemonNames(daemons), i)) ==>
            EventDeed(daemons, e) == Nothing)
    ensures !e.Call? || e.cmd.handler != CtlHandler || e.arg == None ==> EventDeed(daemons, e) == Nothing
  {
    if e.Call? {
      LookupIs(e.hname, DaemonNames(daemons));
    }
  }

  class FileSystem {
    var fs: Files

    method FlagX(d: Daemon, flag: Flag)
      modifies this
      ensures fs == SetFlag(old(fs), d, flag)
    {
      match flag
      case NoFlag =>
      case Enable => fs := fs[d.Enabled() := ""];
      case Disable => fs := fs - {d.Enabled()};
      case Other =>
        fs := fs - {d.Locally()};
        fs := fs[d.Elsewhere() := ""];
      case Local =>
        fs := fs - {d.Elsewhere()};
        fs := fs[d.Locally() := ""];
    }

    method RuleWriteline(path: string, writeline: string)
      modifies this
      ensures fs == Append(old(fs), path, WithoutBlank(writeline))
    {
      var rule := writeline;
      if rule != "" && rule[0] == ' ' {
        rule := rule[1..];
      }
      fs := fs[path := (if path in fs then fs[path] else "") + rule];
    }

    method Ctlhandler(daemons: seq<Daemon>, hname: string, argv: seq<string>, modhvar: string, saveline: string)
      returns (deed: Deed)
      requires NulFree(hname) && NulFree(modhvar) && forall k :: 0 <= k < |argv| ==> NulFree(argv[k])
      requires forall k :: 0 <= k < |daemons| ==> ProperDaemon(daemons[k])
      modifies this
      ensures deed == match Resolve(hname, DaemonNames(daemons))
        case Found(i) => DeedOf(daemons[i], argv, modhvar, saveline)
        case _ => Nothing
      ensures fs == Do(old(fs), deed)
    {
      var found := Genget(Some(hname), DaemonNames(daemons));
      if !found.Found? {
        return Nothing;
      }
      var d := daemons[found.row];
      if |argv| == 2 {
        var n := Isprefix(argv[1], "rules");
        if n != 0 {
          return Nothing;
        }
        n := Isprefix(argv[1], "action");
        if n != 0 {
          return Nothing;
        }
      }
      var n := Isprefix(modhvar, "rules");
      if n != 0 {
        RuleWriteline(d.tmpfile, saveline);
        return Wrote(d.tmpfile, WithoutBlank(saveline));
      }
      deed := RunAction(d, argv);
    }

    method RunAction(d: Daemon, argv: seq<string>) returns (deed: Deed)
      requires ProperDaemon(d) && forall k :: 0 <= k < |argv| ==> NulFree(argv[k])
      modifies this
      ensures deed == match ActionOf(d, argv)
        case None => Nothing
        case Some(x) => Ran(d, x)
      ensures fs == Do(old(fs), deed)
    {
      if |argv| < 2 || (argv[1] != "" && argv[1][0] == '?') {
        return Nothing;
      }
      var found := Genget(Some(argv[1]), ActionNames(d.table));
      if !found.Found? {
        return Nothing;
      }
      var x := d.table[found.row];
      var args := new Option<string>[NOPTFILL](_ => None);
      var ok := StepOptreq(x.args, args, argv, 2);
      if !ok {
        return Nothing;
      }
      FlagX(d, x.flag);
      return Ran(d, x);
    }
  }

  predicate ProperDaemon(d: Daemon) {
    NulFree(d.name) && forall i :: 0 <= i < |d.table| ==> NulFree(d.table[i].name)
  }
}
