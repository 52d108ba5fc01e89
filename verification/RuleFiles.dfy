/** The round trip of the daemon configuration: what conf_ctl writes, cmdrc and ctlhandler restore. */
module RuleFiles {
  import opened Text
  import opened Tokens
  import opened Makeargv
  import opened Abbreviations
  import opened Cmdrc
  import opened Optreq
  import opened Stream
  import opened Ctl
  import opened Folding

  /** A router reading its configuration: where cmdrc is, the files so far, and what has been done to them. */
  datatype Machine = Machine(st: State, fs: Files, deeds: seq<Deed>)

  function Noted(deed: Deed): seq<Deed> {
    if deed == Nothing then [] else [deed]
  }

  function Turn(daemons: seq<Daemon>, tables: Tables): (Machine, string) -> Machine {
    (m: Machine, line: string) =>
      var deed := EventDeed(daemons, EventOf(tables, m.st, line));
      Machine(NextState(tables, m.st, line), Do(m.fs, deed), m.deeds + Noted(deed))
  }

  function Play(m: Machine, daemons: seq<Daemon>, tables: Tables, lines: seq<string>): Machine {
    All(Turn(daemons, tables), m, lines)
  }

  function Step(tables: Tables): (State, string) -> State {
    (st: State, line: string) => NextState(tables, st, line)
  }

  lemma {:induction false} StatesFolded(tables: Tables, st: State, lines: seq<string>, k: nat)
    requires k <= |lines|
    ensures Fold(Step(tables), st, lines, k) == StateAt(tables, st, lines, k)
  {
    if k > 0 {
      StatesFolded(tables, st, lines, k - 1);
    }
  }

  /** The machine follows the run of cmdrc. */
  lemma MachineState(m: Machine, daemons: seq<Daemon>, tables: Tables, lines: seq<string>, k: nat)
    requires k <= |lines|
    ensures Fold(Turn(daemons, tables), m, lines, k).st == StateAt(tables, m.st, lines, k)
  {
    StatesFolded(tables, m.st, lines, k);
    FoldMapped(Turn(daemons, tables), Step(tables), (a: Machine) => a.st, m, lines, k);
  }

  /** A rule line that fits one fgets of cmdrc once it is indented. */
  predicate RuleLine(line: string) {
    NulFree(line) && ProperLine(line, LINE_SIZE - 1)
  }

  /** A rule line that comes back: not blank, and not taken for a block header. */
  predicate Survives(line: string) {
    Words(line) != [] && !LooksLikeHeader(Words(line))
  }

  /** The lines that do not come back are those without a word and those of two words whose second begins rules or
      action. */
  lemma SurvivesIs(line: string)
    ensures var argv := Words(line);
      Survives(line) <==> argv != [] && !(|argv| == 2 && (Begins(argv[1], "rules") || Begins(argv[1], "action")))
  {
    HeaderIs(Words(line));
  }

  function Kept(lines: seq<string>, n: nat): string
    requires n <= |lines|
  {
    if n == 0 then "" else Kept(lines, n - 1) + if Survives(lines[n - 1]) then lines[n - 1] else ""
  }

  /** The surviving lines of the first n, each written to the daemon's rule file. */
  function RuleDeeds(d: Daemon, lines: seq<string>, n: nat): seq<Deed>
    requires n <= |lines|
  {
    if n == 0 then []
    else RuleDeeds(d, lines, n - 1) + if Survives(lines[n - 1]) then [Wrote(d.tmpfile, lines[n - 1])] else []
  }

  /** The action a word runs, if any. */
  function RunDeed(d: Daemon, word: string): seq<Deed> {
    match ActionOf(d, [d.name, word])
    case None => []
    case Some(x) => [Ran(d, x)]
  }

  /** The daemon and its command are in the tables under the same full name. */
  predicate Registered(d: Daemon, daemons: seq<Daemon>, tables: Tables) {
    && Plain(d.name) && |d.name| < HSIZE && !NoArg(d.name) && d.name[0] != '#' && d.name[0] != '!'
    && (var r := Resolve(d.name, DaemonNames(daemons)); r.Found? && daemons[r.row] == d)
    && (var c := Getcmd(tables, Some(d.name)); c.Mode() && c.cmd.handler == CtlHandler && c.cmd.name == d.name)
  }

  lemma PlainPair(name: string, word: string)
    requires Plain(name) && Plain(word) && !NoArg(name) && name[0] != '#' && name[0] != '!'
    ensures var line := CommandLineOf(name, word);
      Words(line) == [name, word] && IsCommandLine(line) && NulFree(line)
  {
    var line := CommandLineOf(name, word);
    PlainLine([name, word]);
    assert Unwords([name, word]) == name + " " + word;
    assert line[0] == name[0];
    assert NextPart(line, 0).text == Words(line)[0];
  }

  lemma CommandEvent(tables: Tables, st: State, line: string, d: Daemon, daemons: seq<Daemon>, word: string)
    requires Registered(d, daemons, tables) && Plain(word) && |word| < MODHVAR_SIZE
    requires line == CommandLineOf(d.name, word)
    ensures var e := EventOf(tables, st, line);
      e.Call? && e.cmd.handler == CtlHandler && e.argv == [d.name, word] && e.arg == Some(word) && e.hname == d.name
    ensures IsHeader(tables, line) && CommandOf(tables, line) == Getcmd(tables, Some(d.name))
  {
    PlainPair(d.name, word);
    assert LookupWord([d.name, word]) == Some(d.name);
  }

  lemma IndentedWords(line: string)
    ensures Words(" " + line) == Words(line)
    ensures Indented(" " + line) && !IsCommandLine(" " + line) && !IsComment(" " + line)
  {
    LeadingBlank(' ', line);
  }

  lemma AppendTwice(fs: Files, path: string, a: string, b: string)
    ensures Append(Append(fs, path, a), path, b) == Append(fs, path, a + b)
  {
    var c := if path in fs then fs[path] else "";
    assert c + a + b == c + (a + b);
  }

  /** The files after the kept rules have been appended. */
  function WithRules(fs: Files, path: string, kept: string): Files {
    if kept == "" then fs else Append(fs, path, kept)
  }

  lemma WithRulesMore(fs: Files, path: string, kept: string, line: string)
    requires line != ""
    ensures Append(WithRules(fs, path, kept), path, line) == WithRules(fs, path, kept + line)
  {
    AppendTwice(fs, path, kept, line);
    assert kept == "" ==> kept + line == line;
  }

  /** Inside the block every line is handed to the daemon of its header. */
  lemma RuleEvent(tables: Tables, st: State, d: Daemon, daemons: seq<Daemon>, rules: seq<string>, k: nat)
    requires Registered(d, daemons, tables) && 0 < k <= |rules|
    ensures var e := EventAt(tables, st, RuleBlock(d.name, rules), k);
      && (Words(rules[k - 1]) == [] ==> e == BlankLine)
      && (Words(rules[k - 1]) != [] ==>
            && e.Call? && e.cmd.handler == CtlHandler && e.argv == Words(rules[k - 1])
            && e.arg == Some("rules") && e.hname == d.name && e.saveline == " " + rules[k - 1])
  {
    var block := RuleBlock(d.name, rules);
    forall i | 1 <= i <= |rules|
      ensures block[i] == " " + rules[i - 1] && !IsCommandLine(block[i])
    {
      IndentedWords(rules[i - 1]);
    }
    CommandEvent(tables, st, block[0], d, daemons, "rules");
    IndentedWords(rules[k - 1]);
    assert Above(block, k) == 0;
    if Words(rules[k - 1]) != [] {
      PlainPair(d.name, "rules");
      IndentedLineReachesItsHeader(tables, st, block, k);
    }
  }

  /** What one rule line does. */
  lemma RuleApplied(d: Daemon, daemons: seq<Daemon>, tables: Tables, e: Event, line: string)
    requires Registered(d, daemons, tables) && line != ""
    requires if Words(line) == [] then e == BlankLine
      else e.Call? && e.cmd.handler == CtlHandler && e.argv == Words(line)
           && e.arg == Some("rules") && e.hname == d.name && e.saveline == " " + line
    ensures EventDeed(daemons, e) == if Survives(line) then Wrote(d.tmpfile, line) else Nothing
  {
    assert WithoutBlank(" " + line) == line;
    assert PrefixCode("rules", "rules") != 0;
  }

  lemma HeaderPlayed(m: Machine, tables: Tables, d: Daemon, daemons: seq<Daemon>)
    requires Registered(d, daemons, tables)
    ensures var after := Turn(daemons, tables)(m, CommandLineOf(d.name, "rules"));
      after.fs == m.fs && after.deeds == m.deeds
  {
    CommandEvent(tables, m.st, CommandLineOf(d.name, "rules"), d, daemons, "rules");
    assert LooksLikeHeader([d.name, "rules"]);
  }

  lemma {:induction false} RulesPlayed(m: Machine, tables: Tables, d: Daemon, daemons: seq<Daemon>,
                                       rules: seq<string>, k: nat)
    requires Registered(d, daemons, tables) && k <= |rules|
    requires forall i :: 0 <= i < |rules| ==> rules[i] != ""
    ensures Fold(Turn(daemons, tables), m, RuleBlock(d.name, rules), k + 1).fs
         == WithRules(m.fs, d.tmpfile, Kept(rules, k))
  {
    var block := RuleBlock(d.name, rules);
    if k == 0 {
      HeaderPlayed(m, tables, d, daemons);
      assert Fold(Turn(daemons, tables), m, block, 0) == m;
    } else {
      RulesPlayed(m, tables, d, daemons, rules, k - 1);
      RulePlayed(m, tables, d, daemons, rules, k, Fold(Turn(daemons, tables), m, block, k));
    }
  }

  lemma RulePlayed(m: Machine, tables: Tables, d: Daemon, daemons: seq<Daemon>, rules: seq<string>, k: nat, at: Machine)
    requires Registered(d, daemons, tables) && 0 < k <= |rules| && rules[k - 1] != ""
    requires at == Fold(Turn(daemons, tables), m, RuleBlock(d.name, rules), k)
    requires at.fs == WithRules(m.fs, d.tmpfile, Kept(rules, k - 1))
    ensures Turn(daemons, tables)(at, RuleBlock(d.name, rules)[k]).fs == WithRules(m.fs, d.tmpfile, Kept(rules, k))
  {
    var line, before := rules[k - 1], Kept(rules, k - 1);
    RuleTurn(m, tables, d, daemons, rules, k, at);
    WithRulesMore(m.fs, d.tmpfile, before, line);
    assert before + "" == before;
  }

  /** What line k of the block does. */
  lemma RuleTurn(m: Machine, tables: Tables, d: Daemon, daemons: seq<Daemon>, rules: seq<string>, k: nat, at: Machine)
    requires Registered(d, daemons, tables) && 0 < k <= |rules| && rules[k - 1] != ""
    requires at == Fold(Turn(daemons, tables), m, RuleBlock(d.name, rules), k)
    ensures var deed := if Survives(rules[k - 1]) then Wrote(d.tmpfile, rules[k - 1]) else Nothing;
      var after := Turn(daemons, tables)(at, RuleBlock(d.name, rules)[k]);
      after.fs == Do(at.fs, deed) && after.deeds == at.deeds + Noted(deed)
  {
    var block := RuleBlock(d.name, rules);
    MachineState(m, daemons, tables, block, k);
    RuleEvent(tables, m.st, d, daemons, rules, k);
    RuleApplied(d, daemons, tables, EventAt(tables, m.st, block, k), rules[k - 1]);
  }

  lemma {:induction false} RulesNoted(m: Machine, tables: Tables, d: Daemon, daemons: seq<Daemon>,
                                      rules: seq<string>, k: nat)
    requires Registered(d, daemons, tables) && k <= |rules|
    requires forall i :: 0 <= i < |rules| ==> rules[i] != ""
    ensures Fold(Turn(daemons, tables), m, RuleBlock(d.name, rules), k + 1).deeds == m.deeds + RuleDeeds(d, rules, k)
  {
    var block := RuleBlock(d.name, rules);
    if k == 0 {
      HeaderPlayed(m, tables, d, daemons);
      assert Fold(Turn(daemons, tables), m, block, 0) == m;
    } else {
      RulesNoted(m, tables, d, daemons, rules, k - 1);
      assert Registered(d, daemons, tables);
      RuleTurn(m, tables, d, daemons, rules, k, Fold(Turn(daemons, tables), m, block, k));
    }
  }

  /** A whole rules block, whatever mode it is read in: it leaves behind exactly its surviving lines, written one
      after the other. */
  lemma RuleBlockPlayed(m: Machine, tables: Tables, d: Daemon, daemons: seq<Daemon>, rules: seq<string>)
    requires Registered(d, daemons, tables)
    requires forall i :: 0 <= i < |rules| ==> rules[i] != ""
    ensures var after := Play(m, daemons, tables, RuleBlock(d.name, rules));
      && after.fs == WithRules(m.fs, d.tmpfile, Kept(rules, |rules|))
      && after.deeds == m.deeds + RuleDeeds(d, rules, |rules|)
  {
    var block, n := RuleBlock(d.name, rules), |rules| + 1;
    RulesPlayed(m, tables, d, daemons, rules, |rules|);
    RulesNoted(m, tables, d, daemons, rules, |rules|);
    AllLast(Turn(daemons, tables), m, block, n);
    BangIgnored(tables, Fold(Turn(daemons, tables), m, block, n), daemons);
  }

  lemma BangIgnored(tables: Tables, m: Machine, daemons: seq<Daemon>)
    ensures Turn(daemons, tables)(m, "!\n").fs == m.fs && Turn(daemons, tables)(m, "!\n").deeds == m.deeds
  {
    assert EventOf(tables, m.st, "!\n") == Comment;
  }

  // ---- through the text ----

  predicate AllProper(lines: seq<string>) {
    forall i :: 0 <= i < |lines| ==> ProperLine(lines[i], LINE_SIZE)
  }

  lemma {:induction false} NoneOverruns(lines: seq<string>, k: nat)
    requires k <= |lines| && AllProper(lines)
    ensures Processed(lines, k) == |lines|
    decreases |lines| - k
  {
    if k < |lines| {
      CompleteLinesProcessed(lines, k);
      NoneOverruns(lines, k + 1);
    }
  }

  lemma PlainLineProper(name: string, word: string)
    requires Plain(name) && Plain(word) && |name| + |word| + 2 < LINE_SIZE
    ensures ProperLine(CommandLineOf(name, word), LINE_SIZE)
  {
    var line := CommandLineOf(name, word);
    assert forall i :: 0 <= i < |name| ==> line[i] == name[i] && PlainChar(name[i]);
    assert forall i :: 0 <= i < |word| ==> line[|name| + 1 + i] == word[i] && PlainChar(word[i]);
    forall i | 0 <= i < |line| - 1
      ensures line[i] != '\n'
    {
      assert i > |name| ==> line[i] == word[i - |name| - 1];
    }
  }

  lemma IndentedProper(line: string, size: nat)
    requires ProperLine(line, size)
    ensures ProperLine(" " + line, size + 1)
  {
    assert forall i :: 1 <= i <= |line| ==> (" " + line)[i] == line[i - 1];
  }

  lemma BlockProper(name: string, rules: seq<string>)
    requires Plain(name) && |name| < HSIZE && forall i :: 0 <= i < |rules| ==> RuleLine(rules[i])
    ensures forall i :: 0 <= i < |RuleBlock(name, rules)| ==> ProperLine(RuleBlock(name, rules)[i], LINE_SIZE)
  {
    var block := RuleBlock(name, rules);
    PlainLineProper(name, "rules");
    forall i | 0 <= i < |block|
      ensures ProperLine(block[i], LINE_SIZE)
    {
      if 0 < i <= |rules| {
        IndentedProper(rules[i - 1], LINE_SIZE - 1);
        assert block[i] == " " + rules[i - 1];
      }
    }
  }

  lemma {:induction false} KeptBounds(rules: seq<string>, n: nat)
    requires n <= |rules|
    requires forall i :: 0 <= i < |rules| ==> rules[i] != ""
    ensures |Kept(rules, n)| <= |Flatten(rules[..n])|
    ensures (forall i :: 0 <= i < n ==> Survives(rules[i])) ==> Kept(rules, n) == Flatten(rules[..n])
    ensures (exists i :: 0 <= i < n && !Survives(rules[i])) ==> |Kept(rules, n)| < |Flatten(rules[..n])|
  {
    if n > 0 {
      KeptBounds(rules, n - 1);
      FlattenAppend(rules[..n - 1], [rules[n - 1]]);
      assert rules[..n] == rules[..n - 1] + [rules[n - 1]];
      assert Flatten([rules[n - 1]]) == rules[n - 1] + "" == rules[n - 1];
    }
  }

  lemma LinesOfFile(lines: seq<string>, size: nat)
    requires size > 1 && forall k :: 0 <= k < |lines| ==> ProperLine(lines[k], size)
    ensures Lines(Flatten(lines), size, 0) == lines
  {
    assert "" + Flatten(lines) == Flatten(lines);
    LinesRestored(Flatten(lines), "", lines, size);
  }

  lemma RulesProper(rules: seq<string>, k: nat)
    requires k < |rules| && RuleLine(rules[k])
    ensures ProperLine(rules[k], TMPSIZ) && rules[k] != ""
  {
  }

  lemma BlockRead(name: string, rules: seq<string>)
    requires Plain(name) && |name| < HSIZE && forall i :: 0 <= i < |rules| ==> RuleLine(rules[i])
    ensures Lines(Flatten(rules), TMPSIZ, 0) == rules
    ensures Lines(Flatten(RuleBlock(name, rules)), LINE_SIZE, 0) == RuleBlock(name, rules)
  {
    forall k | 0 <= k < |rules| ensures ProperLine(rules[k], TMPSIZ) {
      RulesProper(rules, k);
    }
    LinesOfFile(rules, TMPSIZ);
    BlockProper(name, rules);
    LinesOfFile(RuleBlock(name, rules), LINE_SIZE);
  }

  lemma KeptWhole(fs: Files, path: string, rules: seq<string>)
    requires path !in fs && rules != [] && forall i :: 0 <= i < |rules| ==> rules[i] != ""
    ensures WithRules(fs, path, Kept(rules, |rules|)) == fs[path := Flatten(rules)]
       <==> forall i :: 0 <= i < |rules| ==> Survives(rules[i])
  {
    var kept, all := Kept(rules, |rules|), Flatten(rules);
    KeptBounds(rules, |rules|);
    assert rules[..|rules|] == rules;
    assert |all| >= |rules[0]| > 0;
    assert "" + kept == kept;
    assert fs[path := all][path] == all;
    assert kept != "" ==> WithRules(fs, path, kept)[path] == kept;
  }

  /** The rule file of a daemon, written by conf_ctl, read back by cmdrc through fgets, makeargv,
      ctlhandler and rule_writeline into a removed file: exactly the surviving lines come back, and
      the file is restored exactly when every line survives. */
  lemma RuleFileRestored(tables: Tables, m: Machine, d: Daemon, daemons: seq<Daemon>, rules: seq<string>)
    requires Registered(d, daemons, tables) && d.tmpfile !in m.fs
    requires rules != [] && forall i :: 0 <= i < |rules| ==> RuleLine(rules[i])
    ensures var text := Flatten(RuleBlock(d.name, Lines(Flatten(rules), TMPSIZ, 0)));
      var lines := Lines(text, LINE_SIZE, 0);
      var after := Play(m, daemons, tables, lines).fs;
      && after == WithRules(m.fs, d.tmpfile, Kept(rules, |rules|))
      && (after == m.fs[d.tmpfile := Flatten(rules)] <==> forall i :: 0 <= i < |rules| ==> Survives(rules[i]))
      && Processed(lines, 0) == |lines|
  {
    BlockRead(d.name, rules);
    RuleBlockPlayed(m, tables, d, daemons, rules);
    KeptWhole(m.fs, d.tmpfile, rules);
    BlockProper(d.name, rules);
    NoneOverruns(RuleBlock(d.name, rules), 0);
  }

  // ---- flags, and the configuration as a whole ----

  /** An action name conf_ctl may write after the daemon's name. */
  predicate Runs(d: Daemon, word: string, flag: Flag) {
    && Plain(word) && |word| < 64
    && PrefixCode(word, "rules") == 0 && PrefixCode(word, "action") == 0
    && (var x := ActionOf(d, [d.name, word]); (if x.Some? then x.value.flag else NoFlag) == flag)
  }

  predicate FlagRuns(d: Daemon, flag: Flag) {
    var name := FlagName(d.table, flag, |d.table|);
    name.Some? ==> Runs(d, name.value, flag)
  }

  /** Every action conf_ctl may write does what it stands for. */
  predicate Usable(d: Daemon) {
    FlagRuns(d, Enable) && FlagRuns(d, Local) && FlagRuns(d, Other) && (d.doreload ==> Runs(d, "reload", NoFlag))
  }

  lemma ActionPlayed(m: Machine, tables: Tables, d: Daemon, daemons: seq<Daemon>, word: string, flag: Flag)
    requires Registered(d, daemons, tables) && Runs(d, word, flag)
    ensures var after := Turn(daemons, tables)(m, CommandLineOf(d.name, word));
      after.fs == SetFlag(m.fs, d, flag) && after.deeds == m.deeds + RunDeed(d, word)
    ensures ProperLine(CommandLineOf(d.name, word), LINE_SIZE)
  {
    CommandEvent(tables, m.st, CommandLineOf(d.name, word), d, daemons, word);
    PlainLineProper(d.name, word);
  }

  /** The files after the rules block of a daemon. */
  function RulesRead(fs: Files, src: Files, d: Daemon, rules: seq<string>): Files {
    if d.tmpfile in src then WithRules(fs, d.tmpfile, Kept(rules, |rules|)) else fs
  }

  /** The files after the flags block, in the order the flags are written. */
  function FlagsRead(a: Files, src: Files, d: Daemon): Files {
    var b := if FlagLine(src, d, Enable, d.Enabled()) != [] then SetFlag(a, d, Enable) else a;
    var c := if FlagLine(src, d, Local, d.Locally()) != [] then SetFlag(b, d, Local) else b;
    if FlagLine(src, d, Other, d.Elsewhere()) != [] then SetFlag(c, d, Other) else c
  }

  /** The action of a flag that is set. */
  function FlagDeeds(src: Files, d: Daemon, flag: Flag, path: string): seq<Deed> {
    var name := FlagName(d.table, flag, |d.table|);
    if name.Some? && path in src then RunDeed(d, name.value) else []
  }

  /** The flags that are set, in the order of writing, and a reload at the end when the daemon wants one and has a rule
      file. */
  function ActionDeeds(src: Files, d: Daemon): seq<Deed> {
    FlagDeeds(src, d, Enable, d.Enabled()) + FlagDeeds(src, d, Local, d.Locally())
    + FlagDeeds(src, d, Other, d.Elsewhere())
    + if d.tmpfile in src && d.doreload then RunDeed(d, "reload") else []
  }

  /** The files after everything written for one daemon. */
  function Restore(fs: Files, src: Files, d: Daemon, rules: seq<string>): Files {
    FlagsRead(RulesRead(fs, src, d, rules), src, d)
  }

  /** A line or nothing, played. */
  lemma OptionalLine(m: Machine, tables: Tables, d: Daemon, daemons: seq<Daemon>, lines: seq<string>,
                     word: string, flag: Flag)
    requires Registered(d, daemons, tables)
    requires lines == [] || (lines == [CommandLineOf(d.name, word)] && Runs(d, word, flag))
    ensures var after := Play(m, daemons, tables, lines);
      && after.fs == (if lines == [] then m.fs else SetFlag(m.fs, d, flag))
      && after.deeds == m.deeds + if lines == [] then [] else RunDeed(d, word)
    ensures AllProper(lines)
  {
    AllOne(Turn(daemons, tables), m, CommandLineOf(d.name, word));
    if lines != [] {
      ActionPlayed(m, tables, d, daemons, word, flag);
    }
  }

  lemma FlagPlayed(m: Machine, tables: Tables, d: Daemon, daemons: seq<Daemon>, src: Files, flag: Flag, path: string)
    requires Registered(d, daemons, tables) && FlagRuns(d, flag)
    ensures var lines := FlagLine(src, d, flag, path);
      && Play(m, daemons, tables, lines).fs == (if lines == [] then m.fs else SetFlag(m.fs, d, flag))
      && Play(m, daemons, tables, lines).deeds == m.deeds + FlagDeeds(src, d, flag, path)
      && AllProper(lines)
  {
    var name := FlagName(d.table, flag, |d.table|);
    OptionalLine(m, tables, d, daemons, FlagLine(src, d, flag, path), if name.Some? then name.value else "", flag);
  }

  function RulePart(src: Files, d: Daemon, rules: seq<string>): seq<string> {
    if d.tmpfile in src then RuleBlock(d.name, rules) else []
  }

  /** The source machine's rule file, if any, consists of the given lines. */
  predicate HasRules(src: Files, d: Daemon, rules: seq<string>) {
    && (d.tmpfile in src ==> src[d.tmpfile] == Flatten(rules))
    && (forall i :: 0 <= i < |rules| ==> RuleLine(rules[i]))
  }

  lemma FlagsPlayed(m: Machine, tables: Tables, d: Daemon, daemons: seq<Daemon>, src: Files)
    requires Registered(d, daemons, tables) && Usable(d)
    ensures var lines := FlagLines(src, d);
      && AllProper(lines) && Play(m, daemons, tables, lines).fs == FlagsRead(m.fs, src, d)
      && Play(m, daemons, tables, lines).deeds == m.deeds + ActionDeeds(src, d)
  {
    var e, l, o, r := FlagLine(src, d, Enable, d.Enabled()), FlagLine(src, d, Local, d.Locally()),
      FlagLine(src, d, Other, d.Elsewhere()), ReloadLine(src, d);
    FlagPlayed(m, tables, d, daemons, src, Enable, d.Enabled());
    var m1 := Play(m, daemons, tables, e);
    FlagPlayed(m1, tables, d, daemons, src, Local, d.Locally());
    var m2 := Play(m1, daemons, tables, l);
    FlagPlayed(m2, tables, d, daemons, src, Other, d.Elsewhere());
    var m3 := Play(m2, daemons, tables, o);
    OptionalLine(m3, tables, d, daemons, r, "reload", NoFlag);
    FourPlayed(m, daemons, tables, e, l, o, r);
    FourBehind(m.deeds, FlagDeeds(src, d, Enable, d.Enabled()), FlagDeeds(src, d, Local, d.Locally()),
               FlagDeeds(src, d, Other, d.Elsewhere()),
               if d.tmpfile in src && d.doreload then RunDeed(d, "reload") else []);
    ProperBoth(e, l);
    ProperBoth(e + l, o);
    ProperBoth(e + l + o, r);
  }

  lemma FourPlayed(m: Machine, daemons: seq<Daemon>, tables: Tables, e: seq<string>, l: seq<string>, o: seq<string>,
                   r: seq<string>)
    ensures var f := Turn(daemons, tables);
      Play(m, daemons, tables, e + l + o + r) == All(f, All(f, All(f, All(f, m, e), l), o), r)
  {
    var f := Turn(daemons, tables);
    AllAppend(f, m, e, l);
    AllAppend(f, m, e + l, o);
    AllAppend(f, m, e + l + o, r);
  }

  lemma FourBehind<X>(m: seq<X>, e: seq<X>, l: seq<X>, o: seq<X>, r: seq<X>)
    ensures m + e + l + o + r == m + (e + l + o + r)
  {
  }

  lemma ProperBoth(a: seq<string>, b: seq<string>)
    requires AllProper(a) && AllProper(b)
    ensures AllProper(a + b)
  {
  }

  /** A closing "!" changes no file. */
  lemma ClosedPlayed(m: Machine, tables: Tables, daemons: seq<Daemon>, lines: seq<string>)
    ensures var after, before := Play(m, daemons, tables, lines + ["!\n"]), Play(m, daemons, tables, lines);
      after.fs == before.fs && after.deeds == before.deeds
  {
    var f := Turn(daemons, tables);
    AllAppend(f, m, lines, ["!\n"]);
    AllOne(f, All(f, m, lines), "!\n");
    BangIgnored(tables, All(f, m, lines), daemons);
  }

  lemma BlockPlayed(m: Machine, tables: Tables, daemons: seq<Daemon>, lines: seq<string>, block: seq<string>)
    requires block == if lines == [] then [] else lines + ["!\n"]
    requires AllProper(lines)
    ensures AllProper(block)
    ensures var after, before := Play(m, daemons, tables, block), Play(m, daemons, tables, lines);
      after.fs == before.fs && after.deeds == before.deeds
  {
    if lines != [] {
      ClosedPlayed(m, tables, daemons, lines);
      ProperBoth(lines, ["!\n"]);
    }
  }

  lemma FlagBlockPlayed(m: Machine, tables: Tables, d: Daemon, daemons: seq<Daemon>, src: Files)
    requires Registered(d, daemons, tables) && Usable(d)
    ensures AllProper(FlagBlock(src, d))
    ensures var after := Play(m, daemons, tables, FlagBlock(src, d));
      after.fs == FlagsRead(m.fs, src, d) && after.deeds == m.deeds + ActionDeeds(src, d)
  {
    FlagsPlayed(m, tables, d, daemons, src);
    BlockPlayed(m, tables, daemons, FlagLines(src, d), FlagBlock(src, d));
  }

  lemma RulePartPlayed(m: Machine, tables: Tables, d: Daemon, daemons: seq<Daemon>, src: Files, rules: seq<string>)
    requires Registered(d, daemons, tables) && HasRules(src, d, rules)
    ensures AllProper(RulePart(src, d, rules))
    ensures var after := Play(m, daemons, tables, RulePart(src, d, rules));
      && after.fs == RulesRead(m.fs, src, d, rules)
      && after.deeds == m.deeds + if d.tmpfile in src then RuleDeeds(d, rules, |rules|) else []
  {
    forall i | 0 <= i < |rules| ensures rules[i] != "" {
      RulesProper(rules, i);
    }
    RuleBlockPlayed(m, tables, d, daemons, rules);
    BlockProper(d.name, rules);
    AllOne(Turn(daemons, tables), m, "");
  }

  lemma ConfLinesParts(src: Files, d: Daemon, rules: seq<string>)
    requires Plain(d.name) && |d.name| < HSIZE && HasRules(src, d, rules)
    ensures ConfLines(src, d) == RulePart(src, d, rules) + FlagBlock(src, d)
  {
    BlockRead(d.name, rules);
  }

  /** Everything conf_ctl writes for one daemon, played from any state onto any files: the rules are written, then the
      action of every flag that is set is run, and last the reload. */
  lemma DaemonPlayed(m: Machine, tables: Tables, d: Daemon, daemons: seq<Daemon>, src: Files, rules: seq<string>)
    requires Registered(d, daemons, tables) && Usable(d) && HasRules(src, d, rules)
    ensures AllProper(ConfLines(src, d))
    ensures var after := Play(m, daemons, tables, ConfLines(src, d));
      && after.fs == Restore(m.fs, src, d, rules)
      && after.deeds == m.deeds + (if d.tmpfile in src then RuleDeeds(d, rules, |rules|) else []) + ActionDeeds(src, d)
  {
    var a, b, f := RulePart(src, d, rules), FlagBlock(src, d), Turn(daemons, tables);
    ConfLinesParts(src, d, rules);
    RulePartPlayed(m, tables, d, daemons, src, rules);
    AllAppend(f, m, a, b);
    FlagBlockPlayed(All(f, m, a), tables, d, daemons, src);
    ProperBoth(a, b);
  }

  /** The files that belong to a daemon. */
  function Owned(d: Daemon): set<string> {
    {d.tmpfile, d.Enabled(), d.Locally(), d.Elsewhere()}
  }

  /** What the daemon's files say is expressible in the configuration language: every rule line comes
      back, flags are mere markers of actions the daemon has, and it is not both local and elsewhere. */
  predicate Expressible(src: Files, d: Daemon, rules: seq<string>) {
    && HasRules(src, d, rules)
    && (d.tmpfile in src ==> rules != [])
    && (forall i :: 0 <= i < |rules| ==> Survives(rules[i]))
    && (d.Enabled() in src ==> src[d.Enabled()] == "" && FlagName(d.table, Enable, |d.table|).Some?)
    && (d.Locally() in src ==> src[d.Locally()] == "" && FlagName(d.table, Local, |d.table|).Some?)
    && (d.Elsewhere() in src ==> src[d.Elsewhere()] == "" && FlagName(d.table, Other, |d.table|).Some?)
    && !(d.Locally() in src && d.Elsewhere() in src)
  }

  lemma OwnedDistinct(d: Daemon)
    ensures d.tmpfile != d.Enabled() && d.tmpfile != d.Locally() && d.tmpfile != d.Elsewhere()
    ensures d.Enabled() != d.Locally() && d.Enabled() != d.Elsewhere() && d.Locally() != d.Elsewhere()
  {
    assert |d.Enabled()| == |d.tmpfile| + 8 && |d.Locally()| == |d.tmpfile| + 6 && |d.Elsewhere()| == |d.tmpfile| + 6;
    assert d.Locally()[|d.tmpfile| + 1] == 'l' && d.Elsewhere()[|d.tmpfile| + 1] == 'o';
  }

  /** The two file systems agree on a set of paths. */
  predicate Agree(a: Files, b: Files, paths: set<string>) {
    forall p :: p in paths ==> (p in a <==> p in b) && (p in a ==> a[p] == b[p])
  }

  /** The content of a file, nothing when there is none. */
  function Content(fs: Files, path: string): string {
    if path in fs then fs[path] else ""
  }

  predicate SameAt(a: Files, b: Files, p: string) {
    (p in a <==> p in b) && Content(a, p) == Content(b, p)
  }

  predicate SameOn(a: Files, b: Files, paths: set<string>) {
    forall p :: p in paths ==> SameAt(a, b, p)
  }

  function FlagPaths(d: Daemon): set<string> {
    {d.Enabled(), d.Locally(), d.Elsewhere()}
  }

  /** No flag is left that the configuration does not set or clear. */
  predicate FlagsReceptive(fs: Files, src: Files, d: Daemon) {
    && (d.Enabled() in fs ==> d.Enabled() in src)
    && (d.Locally() in fs || d.Elsewhere() in fs ==> d.Locally() in src || d.Elsewhere() in src)
  }

  /** Nothing in the daemon's files outlives the reading of its configuration: rules are appended, so there
      must be none, and a flag is only ever cleared by its opposite. */
  predicate Receptive(fs: Files, src: Files, d: Daemon) {
    (d.tmpfile in fs ==> d.tmpfile in src && fs[d.tmpfile] == "") && FlagsReceptive(fs, src, d)
  }

  /** What reading has left of a daemon's files: right exactly when they were receptive, and the rules of
      the configuration behind the rules that were there. */
  predicate ReadBack(after: Files, fs: Files, src: Files, d: Daemon) {
    && (Agree(after, src, Owned(d)) <==> Receptive(fs, src, d))
    && Content(after, d.tmpfile) == Content(fs, d.tmpfile) + Content(src, d.tmpfile)
  }

  lemma FlagsRestored(a: Files, src: Files, d: Daemon, rules: seq<string>)
    requires Expressible(src, d, rules)
    ensures Agree(FlagsRead(a, src, d), src, FlagPaths(d)) <==> FlagsReceptive(a, src, d)
    ensures forall p :: p !in FlagPaths(d) ==> SameAt(FlagsRead(a, src, d), a, p)
  {
    OwnedDistinct(d);
    assert d.Enabled() in FlagPaths(d) && d.Locally() in FlagPaths(d) && d.Elsewhere() in FlagPaths(d);
  }

  lemma RulesRestored(fs: Files, src: Files, d: Daemon, rules: seq<string>)
    requires Expressible(src, d, rules)
    ensures var after := RulesRead(fs, src, d, rules);
      && Content(after, d.tmpfile) == Content(fs, d.tmpfile) + Content(src, d.tmpfile)
      && (d.tmpfile in after <==> d.tmpfile in fs || d.tmpfile in src)
      && (forall p :: p != d.tmpfile ==> SameAt(after, fs, p))
  {
    if d.tmpfile in src {
      forall i | 0 <= i < |rules| ensures rules[i] != "" {
        RulesProper(rules, i);
      }
      KeptBounds(rules, |rules|);
      assert rules[..|rules|] == rules;
      assert |Flatten(rules)| >= |rules[0]| > 0;
    }
  }

  lemma AgreeSplit(a: Files, src: Files, d: Daemon)
    ensures Agree(a, src, Owned(d)) <==> Agree(a, src, {d.tmpfile}) && Agree(a, src, FlagPaths(d))
  {
    assert Owned(d) == {d.tmpfile} + FlagPaths(d);
  }

  lemma RuleFileAgrees(fs: Files, src: Files, d: Daemon, after: Files)
    requires Content(after, d.tmpfile) == Content(fs, d.tmpfile) + Content(src, d.tmpfile)
    requires d.tmpfile in after <==> d.tmpfile in fs || d.tmpfile in src
    ensures Agree(after, src, {d.tmpfile}) <==> (d.tmpfile in fs ==> d.tmpfile in src && fs[d.tmpfile] == "")
  {
    assert |Content(after, d.tmpfile)| == |Content(fs, d.tmpfile)| + |Content(src, d.tmpfile)|;
    assert d.tmpfile in {d.tmpfile};
    assert "" + Content(src, d.tmpfile) == Content(src, d.tmpfile);
  }

  lemma FlagsUntouched(fs: Files, src: Files, d: Daemon, mid: Files)
    requires forall p :: p != d.tmpfile ==> SameAt(mid, fs, p)
    ensures FlagsReceptive(mid, src, d) <==> FlagsReceptive(fs, src, d)
  {
    OwnedDistinct(d);
    assert SameAt(mid, fs, d.Enabled()) && SameAt(mid, fs, d.Locally()) && SameAt(mid, fs, d.Elsewhere());
  }

  /** Exactly which files the reading of one daemon's configuration is right on. */
  lemma RestoreAgrees(fs: Files, src: Files, d: Daemon, rules: seq<string>)
    requires Expressible(src, d, rules)
    ensures ReadBack(Restore(fs, src, d, rules), fs, src, d)
    ensures forall p :: p !in Owned(d) ==> SameAt(Restore(fs, src, d, rules), fs, p)
  {
    var mid, after := RulesRead(fs, src, d, rules), Restore(fs, src, d, rules);
    RulesRestored(fs, src, d, rules);
    FlagsRestored(mid, src, d, rules);
    FlagsUntouched(fs, src, d, mid);
    OwnedDistinct(d);
    assert SameAt(after, mid, d.tmpfile);
    AgreeSplit(after, src, d);
    RuleFileAgrees(fs, src, d, after);
    forall p | p !in Owned(d) ensures SameAt(after, fs, p) {
      assert p != d.tmpfile && p !in FlagPaths(d);
      assert SameAt(after, mid, p) && SameAt(mid, fs, p);
    }
  }

  // ---- all daemons ----

  function ConfAll(src: Files, ds: seq<Daemon>): seq<string> {
    if ds == [] then [] else ConfLines(src, ds[0]) + ConfAll(src, ds[1..])
  }

  /** No two daemons of the list have a file in common. */
  predicate Apart(ds: seq<Daemon>) {
    forall i, j :: 0 <= i < j < |ds| ==> Owned(ds[i]) !! Owned(ds[j])
  }

  /** Every daemon of the list can be written and read back. */
  predicate Ready(ds: seq<Daemon>, rules: seq<seq<string>>, src: Files, daemons: seq<Daemon>, tables: Tables) {
    && |rules| == |ds|
    && (forall i :: 0 <= i < |ds| ==>
          Registered(ds[i], daemons, tables) && Usable(ds[i]) && Expressible(src, ds[i], rules[i]))
    && Apart(ds)
  }

  /** Path p is owned by no daemon of the list. */
  predicate Foreign(ds: seq<Daemon>, p: string) {
    forall i :: 0 <= i < |ds| ==> p !in Owned(ds[i])
  }

  /** All daemons of the list, and no file changes but theirs. */
  ghost predicate AllReadBack(after: Files, fs: Files, src: Files, ds: seq<Daemon>) {
    && (forall i :: 0 <= i < |ds| ==> ReadBack(after, fs, src, ds[i]))
    && (forall p :: Foreign(ds, p) ==> SameAt(after, fs, p))
  }

  /** ReadBack looks at the daemon's own files only. */
  lemma ReadBackSame(after: Files, fs: Files, after': Files, fs': Files, src: Files, d: Daemon)
    requires ReadBack(after, fs, src, d)
    requires SameOn(after', after, Owned(d)) && SameOn(fs', fs, Owned(d))
    ensures ReadBack(after', fs', src, d)
  {
    assert d.tmpfile in Owned(d) && d.Enabled() in Owned(d) && d.Locally() in Owned(d) && d.Elsewhere() in Owned(d);
    AgreeSame(after, after', src, Owned(d));
    assert SameAt(fs', fs, d.tmpfile) && SameAt(fs', fs, d.Enabled());
    assert SameAt(fs', fs, d.Locally()) && SameAt(fs', fs, d.Elsewhere());
  }

  lemma AgreeSame(a: Files, b: Files, src: Files, paths: set<string>)
    requires SameOn(b, a, paths)
    ensures Agree(a, src, paths) <==> Agree(b, src, paths)
  {
    assert forall p :: p in paths ==> SameAt(b, a, p);
  }

  lemma RestRestored(fs: Files, mid: Files, after: Files, src: Files, ds: seq<Daemon>)
    requires ds != [] && Apart(ds)
    requires ReadBack(mid, fs, src, ds[0]) && forall p :: p !in Owned(ds[0]) ==> SameAt(mid, fs, p)
    requires AllReadBack(after, mid, src, ds[1..])
    ensures AllReadBack(after, fs, src, ds)
  {
    forall i | 0 <= i < |ds|
      ensures ReadBack(after, fs, src, ds[i])
    {
      if i == 0 {
        FirstKept(fs, mid, after, src, ds);
      } else {
        LaterKept(fs, mid, after, src, ds, i);
      }
    }
    forall p | Foreign(ds, p) ensures SameAt(after, fs, p) {
      assert Foreign(ds[1..], p) && p !in Owned(ds[0]);
      assert SameAt(after, mid, p) && SameAt(mid, fs, p);
    }
  }

  lemma FirstKept(fs: Files, mid: Files, after: Files, src: Files, ds: seq<Daemon>)
    requires ds != [] && Apart(ds) && ReadBack(mid, fs, src, ds[0])
    requires forall p :: Foreign(ds[1..], p) ==> SameAt(after, mid, p)
    ensures ReadBack(after, fs, src, ds[0])
  {
    forall p | p in Owned(ds[0]) ensures SameAt(after, mid, p) {
      OwnedByFirst(ds, p);
    }
    ReadBackSame(mid, fs, after, fs, src, ds[0]);
  }

  lemma LaterKept(fs: Files, mid: Files, after: Files, src: Files, ds: seq<Daemon>, i: nat)
    requires 0 < i < |ds| && Apart(ds) && ReadBack(after, mid, src, ds[1..][i - 1])
    requires forall p :: p !in Owned(ds[0]) ==> SameAt(mid, fs, p)
    ensures ReadBack(after, fs, src, ds[i])
  {
    assert ds[i] == ds[1..][i - 1] && Owned(ds[0]) !! Owned(ds[i]);
    ReadBackSame(after, mid, after, fs, src, ds[i]);
  }

  lemma OwnedByFirst(ds: seq<Daemon>, p: string)
    requires ds != [] && Apart(ds) && p in Owned(ds[0])
    ensures Foreign(ds[1..], p)
  {
    forall i | 0 <= i < |ds[1..]| ensures p !in Owned(ds[1..][i]) {
      assert Owned(ds[0]) !! Owned(ds[i + 1]);
    }
  }

  lemma ReadyRest(ds: seq<Daemon>, rules: seq<seq<string>>, src: Files, daemons: seq<Daemon>, tables: Tables)
    requires Ready(ds, rules, src, daemons, tables) && ds != []
    ensures Ready(ds[1..], rules[1..], src, daemons, tables)
    ensures Registered(ds[0], daemons, tables) && Usable(ds[0]) && Expressible(src, ds[0], rules[0]) && Apart(ds)
  {
  }

  /** The first daemon's lines. */
  lemma FirstRestored(m: Machine, src: Files, d: Daemon, rules: seq<string>, daemons: seq<Daemon>, tables: Tables)
    requires Registered(d, daemons, tables) && Usable(d) && Expressible(src, d, rules)
    ensures AllProper(ConfLines(src, d))
    ensures var after := Play(m, daemons, tables, ConfLines(src, d)).fs;
      ReadBack(after, m.fs, src, d) && forall p :: p !in Owned(d) ==> SameAt(after, m.fs, p)
  {
    DaemonPlayed(m, tables, d, daemons, src, rules);
    RestoreAgrees(m.fs, src, d, rules);
  }

  /** Written for any list of daemons that own disjoint files, the configuration, read on any machine,
      leaves each daemon's rule file and flags as they were at the source exactly when they were receptive;
      its rules stand behind the rules that were there; and no file changes but these. */
  lemma {:induction false} ConfigurationRestored(m: Machine, src: Files, ds: seq<Daemon>, rules: seq<seq<string>>,
                                                 daemons: seq<Daemon>, tables: Tables)
    requires Ready(ds, rules, src, daemons, tables)
    ensures AllProper(ConfAll(src, ds))
    ensures AllReadBack(Play(m, daemons, tables, ConfAll(src, ds)).fs, m.fs, src, ds)
    decreases |ds|
  {
    if ds == [] {
      AllOne(Turn(daemons, tables), m, "");
    } else {
      var a, b := ConfLines(src, ds[0]), ConfAll(src, ds[1..]);
      ReadyRest(ds, rules, src, daemons, tables);
      FirstRestored(m, src, ds[0], rules[0], daemons, tables);
      var mid := Play(m, daemons, tables, a);
      AllAppend(Turn(daemons, tables), m, a, b);
      ConfigurationRestored(mid, src, ds[1..], rules[1..], daemons, tables);
      ProperBoth(a, b);
      RestRestored(m.fs, mid.fs, Play(mid, daemons, tables, b).fs, src, ds);
    }
  }

  /** The same through the text of the configuration file, all of which is read. */
  lemma ConfigurationFileRestored(m: Machine, src: Files, ds: seq<Daemon>, rules: seq<seq<string>>,
                                  daemons: seq<Daemon>, tables: Tables)
    requires Ready(ds, rules, src, daemons, tables)
    ensures var lines := Lines(Flatten(ConfAll(src, ds)), LINE_SIZE, 0);
      Processed(lines, 0) == |lines| && AllReadBack(Play(m, daemons, tables, lines).fs, m.fs, src, ds)
  {
    ConfigurationRestored(m, src, ds, rules, daemons, tables);
    LinesOfFile(ConfAll(src, ds), LINE_SIZE);
    NoneOverruns(ConfAll(src, ds), 0);
  }

  /** A start with -i: the rule files it knows of are removed, then the configuration is read. */
  function Start(m: Machine, fs: Files, names: set<string>, src: Files, ds: seq<Daemon>,
                 daemons: seq<Daemon>, tables: Tables): Files {
    Play(Machine(m.st, fs - names, []), daemons, tables, ConfAll(src, ds)).fs
  }

  /** A daemon whose rule file is removed at the start has its files as they were at the source exactly when
      no flag was left that it does not have: flags are not removed. */
  lemma FlagsOutlive(m: Machine, src: Files, ds: seq<Daemon>, rules: seq<seq<string>>,
                     daemons: seq<Daemon>, tables: Tables, names: set<string>, i: nat)
    requires Ready(ds, rules, src, daemons, tables) && i < |ds|
    requires ds[i].tmpfile in names && FlagPaths(ds[i]) !! names
    ensures Agree(Start(m, m.fs, names, src, ds, daemons, tables), src, Owned(ds[i]))
       <==> FlagsReceptive(m.fs, src, ds[i])
  {
    ConfigurationRestored(Machine(m.st, m.fs - names, []), src, ds, rules, daemons, tables);
    var d, fs := ds[i], m.fs - names;
    assert d.Enabled() in FlagPaths(d) && d.Locally() in FlagPaths(d) && d.Elsewhere() in FlagPaths(d);
    assert Receptive(fs, src, d) <==> FlagsReceptive(m.fs, src, d);
  }

  /** A daemon whose rule file is not removed has its rules once more after every start; one whose file is
      removed has them once. */
  lemma SecondStart(m: Machine, src: Files, ds: seq<Daemon>, rules: seq<seq<string>>,
                    daemons: seq<Daemon>, tables: Tables, names: set<string>, i: nat)
    requires Ready(ds, rules, src, daemons, tables) && i < |ds| && ds[i].tmpfile in src
    ensures var one := Start(m, m.fs, names, src, ds, daemons, tables);
      var two := Start(m, one, names, src, ds, daemons, tables);
      var d := ds[i];
      if d.tmpfile in names then Content(two, d.tmpfile) == src[d.tmpfile]
      else Content(two, d.tmpfile) == Content(m.fs, d.tmpfile) + src[d.tmpfile] + src[d.tmpfile]
  {
    var one := Start(m, m.fs, names, src, ds, daemons, tables);
    ConfigurationRestored(Machine(m.st, m.fs - names, []), src, ds, rules, daemons, tables);
    ConfigurationRestored(Machine(m.st, one - names, []), src, ds, rules, daemons, tables);
  }
}
