/** The bgplg shell: cutting a line into words, choosing a command, building its arguments. */
module Bgplgsh {
  import opened Text

  // ---- lg_checkarg and lg_arg2argv ----

  predicate Allowed(c: char) {
    IsPrint(c) && c != '%' && c != '\\' && c != ';' && c != '&' && c != '|'
  }

  predicate AllAllowed(s: string) {
    forall i :: 0 <= i < |s| ==> Allowed(s[i])
  }

  /** A blank with a dash behind it. */
  predicate OptionAt(s: string, i: nat)
    requires i < |s|
  {
    s[i] == ' ' && i + 1 < |s| && s[i + 1] == '-'
  }

  predicate HasOption(s: string) {
    exists i :: 0 <= i < |s| && OptionAt(s, i)
  }

  /** The words of a line: cut at every single blank. None when the line is refused. */
  function Cut(s: string): Option<seq<string>> {
    if s == "" || !AllAllowed(s) || HasOption(s) || s[0] == ' ' then None else Some(Parts(s, ' '))
  }

  /** Which lines are refused, character by character. */
  lemma RefusedLines(s: string)
    ensures Cut(s).None? <==>
      || s == "" || s[0] == ' '
      || (exists i :: 0 <= i < |s| && (s[i] < ' ' || s[i] > '~' || s[i] in "%\\;&|"))
      || (exists i :: 0 <= i < |s| - 1 && s[i] == ' ' && s[i + 1] == '-')
  {
    assert HasOption(s) <==> exists i :: 0 <= i < |s| - 1 && s[i] == ' ' && s[i + 1] == '-' by {
      if i :| 0 <= i < |s| && OptionAt(s, i) {
        assert s[i] == ' ' && s[i + 1] == '-';
      }
      if i :| 0 <= i < |s| - 1 && s[i] == ' ' && s[i + 1] == '-' {
        assert OptionAt(s, i);
      }
    }
    assert forall i :: 0 <= i < |s| ==> (Allowed(s[i]) <==> !(s[i] < ' ' || s[i] > '~' || s[i] in "%\\;&|"));
  }

  /** s with every blank made the terminator of the word before it. */
  function Terminated(s: string): (t: string)
    ensures |t| == |s| && forall i :: 0 <= i < |s| ==> t[i] == if s[i] == ' ' then NUL else s[i]
  {
    seq(|s|, i requires 0 <= i < |s| => if s[i] == ' ' then NUL else s[i])
  }

  /** The positions behind the blanks of s, from position i on. */
  function Behind(s: string, i: nat): seq<nat>
    requires i <= |s|
    decreases |s| - i
  {
    if i == |s| then [] else if s[i] == ' ' then [i + 1] + Behind(s, i + 1) else Behind(s, i + 1)
  }

  /** Where the words of s start from position i on, given that a word starts at i. */
  function Starts(s: string, i: nat): seq<nat>
    requires i <= |s|
  {
    [i] + Behind(s, i)
  }

  function NextBlank(s: string, i: nat): (k: nat)
    requires i <= |s|
    ensures i <= k <= |s| && (k < |s| ==> s[k] == ' ') && forall j :: i <= j < k ==> s[j] != ' '
    decreases |s| - i
  {
    if i == |s| || s[i] == ' ' then i else NextBlank(s, i + 1)
  }

  lemma {:induction false} FindIsNext(s: string, i: nat)
    requires i <= |s|
    ensures Find(s[i..], ' ') == NextBlank(s, i) - i
    decreases |s| - i
  {
    if i < |s| && s[i] != ' ' {
      assert s[i..][1..] == s[i + 1..];
      FindIsNext(s, i + 1);
    }
  }

  lemma {:induction false} BehindNext(s: string, i: nat)
    requires i <= |s|
    ensures var k := NextBlank(s, i); Behind(s, i) == if k == |s| then [] else Starts(s, k + 1)
    decreases |s| - i
  {
    if i < |s| && s[i] != ' ' {
      BehindNext(s, i + 1);
    }
  }

  lemma FirstPart(s: string, i: nat, behind: seq<string>)
    requires i <= |s|
    requires behind == if NextBlank(s, i) == |s| then [] else Parts(s[NextBlank(s, i) + 1..], ' ')
    ensures Parts(s[i..], ' ') == [s[i..NextBlank(s, i)]] + behind
  {
    var k := NextBlank(s, i);
    FindIsNext(s, i);
    assert s[i..][..k - i] == s[i..k];
    if k < |s| {
      assert s[i..][k - i + 1..] == s[k + 1..];
    } else {
      assert s[i..] == s[i..k] && [s[i..k]] + behind == [s[i..k]];
    }
  }

  /** The word that starts at p goes up to the next blank. */
  function WordFrom(s: string, p: nat): string
    requires p <= |s|
  {
    s[p..NextBlank(s, p)]
  }

  /** The words at the given positions. */
  function WordsAt(s: string, ps: seq<nat>): (ws: seq<string>)
    ensures |ws| == |ps|
  {
    if ps == [] then [] else [if ps[0] <= |s| then WordFrom(s, ps[0]) else ""] + WordsAt(s, ps[1..])
  }

  lemma FirstWord(s: string, p: nat, ps: seq<nat>)
    requires p <= |s|
    ensures WordsAt(s, [p] + ps) == [WordFrom(s, p)] + WordsAt(s, ps)
  {
    assert ([p] + ps)[1..] == ps;
  }

  /** The first word and the words behind it. */
  lemma FirstOfStarts(s: string, i: nat, behind: seq<string>)
    requires i <= |s|
    requires behind == if NextBlank(s, i) == |s| then [] else WordsAt(s, Starts(s, NextBlank(s, i) + 1))
    ensures WordsAt(s, Starts(s, i)) == [s[i..NextBlank(s, i)]] + behind
  {
    BehindNext(s, i);
    FirstWord(s, i, Behind(s, i));
  }

  /** The words at the starts from i on. */
  function WordsFrom(s: string, i: nat): seq<string>
    requires i <= |s|
  {
    WordsAt(s, Starts(s, i))
  }

  lemma FirstIsWord(s: string, i: nat)
    requires i <= |s|
    requires NextBlank(s, i) < |s| ==> WordsFrom(s, NextBlank(s, i) + 1) == Parts(s[NextBlank(s, i) + 1..], ' ')
    ensures WordsFrom(s, i) == Parts(s[i..], ' ')
  {
    var behind := if NextBlank(s, i) == |s| then [] else Parts(s[NextBlank(s, i) + 1..], ' ');
    FirstOfStarts(s, i, behind);
    FirstPart(s, i, behind);
  }

  /** The starts are the starts of the words. */
  lemma {:induction false} StartsAreWords(s: string, i: nat)
    requires i <= |s|
    ensures WordsFrom(s, i) == Parts(s[i..], ' ')
    decreases |s| - i
  {
    if NextBlank(s, i) < |s| {
      StartsAreWords(s, NextBlank(s, i) + 1);
    }
    FirstIsWord(s, i);
  }

  /** The first pass: blanks become terminators and are counted; a dash behind one refuses the line. */
  method CountElements(arg: array<char>, n: nat) returns (c: nat, ok: bool)
    requires n < arg.Length && arg[n] == NUL && NulFree(arg[..n])
    modifies arg
    ensures ok == !HasOption(old(arg[..n]))
    ensures ok ==> arg[..n] == Terminated(old(arg[..n])) && c == |Starts(old(arg[..n]), 0)|
    ensures arg[n] == NUL
  {
    ghost var s := arg[..n];
    c, ok := 1, true;
    var i := 0;
    while i < n
      invariant i <= n && arg[n] == NUL
      invariant forall k :: 0 <= k < i ==> arg[k] == Terminated(s)[k]
      invariant forall k :: i <= k < n ==> arg[k] == s[k]
      invariant forall k :: 0 <= k < i ==> !OptionAt(s, k)
      invariant c + |Behind(s, i)| == |Starts(s, 0)|
    {
      if arg[i] == ' ' {
        if arg[i + 1] == '-' {
          assert OptionAt(s, i);
          return c, false;
        }
        arg[i] := NUL;
        c := c + 1;
      }
      i := i + 1;
    }
    assert arg[..n] == Terminated(s);
  }

  /** The second pass: a word starts at the beginning and behind every terminator. */
  method FillElements(arg: array<char>, n: nat, ghost s: string, c0: nat) returns (argv: array<nat>)
    requires 0 < n < arg.Length && |s| == n && s[0] != ' ' && NulFree(s) && arg[..n] == Terminated(s)
    requires c0 == |Starts(s, 0)|
    ensures fresh(argv) && argv[..] == Starts(s, 0)
  {
    argv := new nat[c0];
    var i, c, ptr := 0, 0, 0;
    while i < n
      invariant i <= n && c <= c0 && (i == 0 ==> c == 0 && ptr == 0)
      invariant i > 0 ==> argv[..c] + Behind(s, i) == Starts(s, 0)
    {
      assert arg[i] == arg[..n][i] == Terminated(s)[i] && s[i] != NUL;
      ghost var done := argv[..c];
      FillStep(s, i, done);
      if arg[i] == NUL || i == 0 {
        if i != 0 {
          ptr := i + 1;
        }
        argv[c] := ptr;
        c := c + 1;
        assert argv[..c] == done + [ptr];
      }
      i := i + 1;
    }
    assert argv[..c] + [] == argv[..c];
  }

  lemma FillStep(s: string, i: nat, done: seq<nat>)
    requires i < |s| && s[0] != ' ' && (if i == 0 then done == [] else done + Behind(s, i) == Starts(s, 0))
    ensures i == 0 ==> done + [0] + Behind(s, 1) == Starts(s, 0) && |done| < |Starts(s, 0)|
    ensures i > 0 && s[i] == ' ' ==> done + [i + 1] + Behind(s, i + 1) == Starts(s, 0) && |done| < |Starts(s, 0)|
    ensures i > 0 && s[i] != ' ' ==> done + Behind(s, i + 1) == Starts(s, 0)
  {
    assert done + ([i + 1] + Behind(s, i + 1)) == done + [i + 1] + Behind(s, i + 1);
    assert i == 0 ==> done + [0] + Behind(s, 1) == [0] + Behind(s, 0);
  }

  /** lg_arg2argv: null when the line is refused, else the offsets of the words in the cut line. */
  method LgArg2argv(arg: array<char>, n: nat) returns (argv: array?<nat>)
    requires n < arg.Length && arg[n] == NUL && NulFree(arg[..n])
    modifies arg
    ensures argv != null <==> Cut(old(arg[..n])).Some?
    ensures argv != null ==>
      && fresh(argv) && arg[..n] == Terminated(old(arg[..n])) && arg[n] == NUL
      && WordsAt(old(arg[..n]), argv[..]) == Cut(old(arg[..n])).value
  {
    ghost var s := arg[..n];
    var i := 0;
    while i < n
      invariant i <= n && forall k :: 0 <= k < i ==> Allowed(s[k])
      invariant arg[..n] == s
    {
      if !Allowed(arg[i]) {
        return null;
      }
      i := i + 1;
    }
    if n == 0 {
      return null;
    }
    var c, ok := CountElements(arg, n);
    if !ok || arg[0] == NUL {
      return null;
    }
    argv := FillElements(arg, n, s, c);
    StartsAreWords(s, 0);
    assert s[0..] == s;
  }

  // ---- lg_checkcmd ----

  /** A row of the command table; builtin rows run a function of their own. */
  datatype Cmd = Cmd(name: string, minargs: nat, maxargs: nat, earg: seq<string>, builtin: bool)

  /** The words of the row's name are the first words of the line, and no more follow than it takes. */
  predicate Matches(argv: seq<string>, cmd: Cmd) {
    && Cut(cmd.name).Some? && |Cut(cmd.name).value| <= |argv| <= |Cut(cmd.name).value| + cmd.maxargs
    && argv[..|Cut(cmd.name).value|] == Cut(cmd.name).value
  }

  /** How many words of the line the name leaves over. */
  function Left(argv: seq<string>, cmd: Cmd): (v: nat)
    requires Matches(argv, cmd)
  {
    |argv| - |Cut(cmd.name).value|
  }

  /** A line matches a row when it is the words of the row's name and then no more words than the row takes. */
  lemma MatchesIs(argv: seq<string>, cmd: Cmd)
    ensures Matches(argv, cmd) <==> exists more: seq<string> ::
      Cut(cmd.name).Some? && argv == Cut(cmd.name).value + more && |more| <= cmd.maxargs
    ensures Matches(argv, cmd) ==>
      argv == Cut(cmd.name).value + argv[|Cut(cmd.name).value|..] && Left(argv, cmd) == |argv| - |Cut(cmd.name).value|
  {
    if Matches(argv, cmd) {
      var more := argv[|Cut(cmd.name).value|..];
      assert argv == Cut(cmd.name).value + more;
    }
  }

  datatype Answer = No | Yes(off: nat) | Einval

  /** lg_checkcmd with the fewest words left over so far in off, or -1. */
  function Check(argv: seq<string>, off: int, cmd: Cmd): Answer {
    if !Matches(argv, cmd) || (off != -1 && off < Left(argv, cmd)) then No
    else if Left(argv, cmd) < cmd.minargs then Einval
    else Yes(Left(argv, cmd))
  }

  method LgCheckcmd(argv: seq<string>, off: int, cmd: Cmd) returns (r: Answer)
    ensures r == Check(argv, off, cmd)
  {
    var cmdp := Cut(cmd.name);
    if cmdp.None? {
      return No;
    }
    var words := cmdp.value;
    if |words| > |argv| || |argv| > |words| + cmd.maxargs {
      return No;
    }
    var i := 0;
    while i < |words|
      invariant i <= |words| && argv[..i] == words[..i]
    {
      if argv[i] != words[i] {
        assert argv[..|words|][i] != words[i];
        return No;
      }
      i := i + 1;
    }
    var v := |argv| - |words|;
    if off != -1 && off < v {
      return No;
    }
    if cmd.minargs != 0 && v < cmd.minargs {
      return Einval;
    }
    return Yes(v);
  }

  // ---- the selection loop ----

  /** The row chosen so far and the words it leaves over; v is -1 while there is none. */
  datatype Choice = Choice(row: Option<nat>, v: int) | Refused

  function Turn(argv: seq<string>, cmds: seq<Cmd>, i: nat, c: Choice): Choice
    requires i < |cmds|
  {
    if c.Refused? then c
    else match Check(argv, c.v, cmds[i])
      case No => c
      case Yes(off) => Choice(Some(i), off)
      case Einval => Refused
  }

  function Select(argv: seq<string>, cmds: seq<Cmd>, n: nat): Choice
    requires n <= |cmds|
  {
    if n == 0 then Choice(None, -1) else Turn(argv, cmds, n - 1, Select(argv, cmds, n - 1))
  }

  method SelectLoop(argv: seq<string>, cmds: seq<Cmd>) returns (c: Choice)
    ensures c == Select(argv, cmds, |cmds|)
  {
    var v: int, cmd: Option<nat>, i := -1, None, 0;
    while i < |cmds|
      invariant i <= |cmds| && Select(argv, cmds, i) == Choice(cmd, v)
    {
      var ret := LgCheckcmd(argv, v, cmds[i]);
      if ret.Yes? {
        v, cmd := ret.off, Some(i);
      } else if ret.Einval? {
        Stays(argv, cmds, i + 1, |cmds|);
        return Refused;
      }
      i := i + 1;
    }
    return Choice(cmd, v);
  }

  lemma {:induction false} Stays(argv: seq<string>, cmds: seq<Cmd>, n: nat, k: nat)
    requires n <= k <= |cmds| && Select(argv, cmds, n).Refused?
    ensures Select(argv, cmds, k).Refused?
  {
    if n < k {
      Stays(argv, cmds, n, k - 1);
    }
  }

  // ---- what the loop selects ----

  /** Row i is the most specific match among the first n rows, and the last of its kind. */
  predicate MostSpecific(argv: seq<string>, cmds: seq<Cmd>, n: nat, i: nat)
    requires n <= |cmds|
  {
    && i < n && Matches(argv, cmds[i]) && cmds[i].minargs <= Left(argv, cmds[i])
    && (forall j :: 0 <= j < n && Matches(argv, cmds[j]) ==> Left(argv, cmds[i]) <= Left(argv, cmds[j]))
    && (forall j :: i < j < n && Matches(argv, cmds[j]) ==> Left(argv, cmds[i]) < Left(argv, cmds[j]))
  }

  /** Row i is at least as specific as every match before it and wants more words than are left. */
  predicate Refuses(argv: seq<string>, cmds: seq<Cmd>, i: nat)
    requires i < |cmds|
  {
    && Matches(argv, cmds[i]) && Left(argv, cmds[i]) < cmds[i].minargs
    && forall j :: 0 <= j < i && Matches(argv, cmds[j]) ==> Left(argv, cmds[i]) <= Left(argv, cmds[j])
  }

  /** What holds of the choice after the first n rows. */
  ghost predicate Chosen(argv: seq<string>, cmds: seq<Cmd>, n: nat, c: Choice)
    requires n <= |cmds|
  {
    match c
    case Refused => exists i :: 0 <= i < n && Refuses(argv, cmds, i)
    case Choice(None, v) => v == -1 && forall j :: 0 <= j < n ==> !Matches(argv, cmds[j])
    case Choice(Some(i), v) =>
      MostSpecific(argv, cmds, n, i) && v == Left(argv, cmds[i]) && forall j :: 0 <= j < n ==> !Refuses(argv, cmds, j)
  }

  lemma TurnChosen(argv: seq<string>, cmds: seq<Cmd>, n: nat, c: Choice)
    requires n < |cmds| && Chosen(argv, cmds, n, c)
    ensures Chosen(argv, cmds, n + 1, Turn(argv, cmds, n, c))
  {
    if c.Choice? && Check(argv, c.v, cmds[n]) == Einval {
      assert Refuses(argv, cmds, n);
    }
  }

  /** The loop ends with the most specific matching row, the last one among equals, and with the number
      of words it leaves over; with no row exactly when none matches; and it is refused exactly when some
      row, at least as specific as every match before it, wants more words. */
  lemma {:induction false} Selected(argv: seq<string>, cmds: seq<Cmd>, n: nat)
    requires n <= |cmds|
    ensures Chosen(argv, cmds, n, Select(argv, cmds, n))
  {
    if n > 0 {
      Selected(argv, cmds, n - 1);
      TurnChosen(argv, cmds, n - 1, Select(argv, cmds, n - 1));
    }
  }

  // ---- the choice does not depend on the order of the table ----

  /** Two matching rows that leave the same number of words have the same name. */
  lemma SameLeftSameName(argv: seq<string>, a: Cmd, b: Cmd)
    requires Matches(argv, a) && Matches(argv, b) && Left(argv, a) == Left(argv, b)
    ensures a.name == b.name
  {
    JoinOfParts(a.name, ' ');
    JoinOfParts(b.name, ' ');
  }

  predicate DistinctNames(cmds: seq<Cmd>) {
    forall i, j :: 0 <= i < j < |cmds| ==> cmds[i].name != cmds[j].name
  }

  /** In a table of distinct names, the chosen row leaves strictly fewer words than every other match. */
  lemma ChoiceIsUnique(argv: seq<string>, cmds: seq<Cmd>, j: nat)
    requires DistinctNames(cmds) && j < |cmds| && Matches(argv, cmds[j])
    requires var c := Select(argv, cmds, |cmds|); c.Choice? && c.row.Some? && c.row.value != j
    ensures var i := Select(argv, cmds, |cmds|).row.value;
      i < |cmds| && Matches(argv, cmds[i]) && Left(argv, cmds[i]) < Left(argv, cmds[j])
  {
    Selected(argv, cmds, |cmds|);
    var i := Select(argv, cmds, |cmds|).row.value;
    if Left(argv, cmds[i]) == Left(argv, cmds[j]) {
      SameLeftSameName(argv, cmds[i], cmds[j]);
    }
  }

  /** Two tables with the same rows, in any order and of distinct names, choose the same command, unless
      one of them refuses the line. */
  lemma OrderDoesNotMatter(argv: seq<string>, a: seq<Cmd>, b: seq<Cmd>)
    requires DistinctNames(a) && DistinctNames(b) && forall c :: c in a <==> c in b
    requires Select(argv, a, |a|).Choice? && Select(argv, b, |b|).Choice?
    ensures var x, y := Select(argv, a, |a|), Select(argv, b, |b|);
      (x.row.Some? <==> y.row.Some?) && x.v == y.v
      && (x.row.Some? ==> x.row.value < |a| && y.row.value < |b| && a[x.row.value] == b[y.row.value])
  {
    Selected(argv, a, |a|);
    Selected(argv, b, |b|);
    var x, y := Select(argv, a, |a|), Select(argv, b, |b|);
    if x.row.Some? {
      NoBetter(argv, a, b, x.row.value);
    }
    if y.row.Some? {
      NoBetter(argv, b, a, y.row.value);
    }
    if x.row.Some? {
      SameRow(argv, a, b, x.row.value, y.row.value);
    }
  }

  /** What a chosen row of one table leaves bounds what the other table's choice leaves. */
  lemma NoBetter(argv: seq<string>, a: seq<Cmd>, b: seq<Cmd>, i: nat)
    requires (forall c :: c in a ==> c in b) && i < |a| && Matches(argv, a[i]) && Select(argv, b, |b|).Choice?
    ensures var y := Select(argv, b, |b|); y.row.Some? && y.v <= Left(argv, a[i])
  {
    Selected(argv, b, |b|);
    assert a[i] in b;
    var j :| 0 <= j < |b| && b[j] == a[i];
  }

  lemma SameRow(argv: seq<string>, a: seq<Cmd>, b: seq<Cmd>, i: nat, j: nat)
    requires DistinctNames(a) && i < |a| && j < |b| && b[j] in a
    requires Matches(argv, a[i]) && Matches(argv, b[j]) && Left(argv, a[i]) == Left(argv, b[j])
    ensures a[i] == b[j]
  {
    SameLeftSameName(argv, a[i], b[j]);
    var k :| 0 <= k < |a| && a[k] == b[j];
  }

  // ---- lg_argextra ----

  /** The executed vector: the row's own words and the last off words of the line. */
  method LgArgextra(argv: seq<string>, off: nat, cmd: Cmd) returns (r: Option<seq<string>>)
    ensures off > |argv| ==> r == None
    ensures off <= |argv| ==> r == Some(cmd.earg + argv[|argv| - off..])
  {
    if off > |argv| {
      return None;
    }
    var out, i := [], 0;
    while i < |cmd.earg|
      invariant i <= |cmd.earg| && out == cmd.earg[..i]
    {
      out := out + [cmd.earg[i]];
      i := i + 1;
    }
    i := |argv| - off;
    while i < |argv|
      invariant |argv| - off <= i <= |argv| && out == cmd.earg + argv[|argv| - off..i]
    {
      out := out + [argv[i]];
      i := i + 1;
    }
    assert argv[|argv| - off..|argv|] == argv[|argv| - off..];
    return Some(out);
  }

  datatype Outcome =
    | Unreadable | InvalidNumber | InvalidCommand
    | Builtin(row: nat)
    | Exec(row: nat, vector: seq<string>)

  /** One line of the shell. */
  method Line(line: string, cmds: seq<Cmd>) returns (o: Outcome)
    ensures o == Unreadable <==> Cut(line).None?
    ensures o.Exec? ==>
      && o.row < |cmds| && !cmds[o.row].builtin && MostSpecific(Cut(line).value, cmds, |cmds|, o.row)
      && Cut(line).value == Cut(cmds[o.row].name).value + Extra(Cut(line).value, cmds[o.row])
      && o.vector == cmds[o.row].earg + Extra(Cut(line).value, cmds[o.row])
      && cmds[o.row].minargs <= |o.vector| - |cmds[o.row].earg| <= cmds[o.row].maxargs
    ensures o.Builtin? ==> o.row < |cmds| && cmds[o.row].builtin && MostSpecific(Cut(line).value, cmds, |cmds|, o.row)
    ensures o == InvalidCommand ==> forall j :: 0 <= j < |cmds| ==> !Matches(Cut(line).value, cmds[j])
    ensures o == InvalidNumber ==> exists i :: 0 <= i < |cmds| && Refuses(Cut(line).value, cmds, i)
    ensures o.Exec? || o.Builtin? ==> forall i :: 0 <= i < |cmds| ==> !Refuses(Cut(line).value, cmds, i)
  {
    var words := Cut(line);
    if words.None? {
      return Unreadable;
    }
    var argp := words.value;
    var c := SelectLoop(argp, cmds);
    Selected(argp, cmds, |cmds|);
    if c.Refused? {
      return InvalidNumber;
    }
    if c.row.None? {
      return InvalidCommand;
    }
    var cmd := cmds[c.row.value];
    if cmd.builtin {
      return Builtin(c.row.value);
    }
    assert argp == Cut(cmd.name).value + Extra(argp, cmd);
    var vector := LgArgextra(argp, c.v, cmd);
    return Exec(c.row.value, vector.value);
  }

  /** The words of the line behind the name of the row. */
  function Extra(argv: seq<string>, cmd: Cmd): seq<string>
    requires Matches(argv, cmd)
  {
    argv[|Cut(cmd.name).value|..]
  }
}
