/** A bridge rule line of the saved configuration, read back in bridge mode. */
module BridgeConf {
  import opened Text
  import opened Tokens
  import opened Interface
  import opened Bridge

  /** A rule of an interface the machine has, with a tag that fits its buffer. */
  predicate WellFormed(r: Rule, ifnames: set<string>) {
    r.ifs in ifnames && Plain(r.ifs) && |r.ifs| < IFNAMSIZ && NulFree(r.tag) && |r.tag| < TAG_SIZE
  }

  /** brrule on an argument vector: it drops the command word. */
  function Brrule(argv: seq<string>, ifnames: set<string>): Bridge.Outcome
    requires argv != []
  {
    if NoArg(argv[0]) then BadRule else Parse(argv[1..], ifnames)
  }

  /** What a rule line does in bridge mode. */
  function Read(rows: seq<Row>, bridge: string, ifnames: set<string>, line: string): Bridge.Outcome {
    var argv := Words(line);
    if argv == [] then BadRule
    else match Dispatch(rows, true, bridge, argv)
      case Run(Brrule, _) => Brrule(argv, ifnames)
      case _ => BadRule
  }

  lemma HeadParsed(r: Rule, ifnames: set<string>, rest: seq<string>)
    requires WellFormed(r, ifnames)
    ensures Parse(Head(r) + rest, ifnames) == Clauses(Rule(r.pass, r.dir, r.ifs, None, None, ""), Head(r) + rest, 4)
  {
  }

  /** The words of a rule parse back to the rule. */
  lemma WordsParsed(r: Rule, ifnames: set<string>)
    requires WellFormed(r, ifnames)
    ensures Parse(RuleWords(r), ifnames) == Added(r)
  {
    var cs, r0 := ClausesOf(r), Rule(r.pass, r.dir, r.ifs, None, None, "");
    HeadParsed(r, ifnames, AllWords(cs));
    ClausesTaken(r0, cs, Head(r));
    RuleOfClauses(r);
  }

  // ---- which words are plain ----

  predicate AllPlain(ws: seq<string>) {
    forall i :: 0 <= i < |ws| ==> Plain(ws[i])
  }

  lemma HeadPlain(r: Rule)
    requires Plain(r.ifs)
    ensures AllPlain(Head(r))
  {
  }

  lemma ClausePlain(c: Clause)
    requires c.Tag? ==> Plain(c.tag)
    ensures AllPlain(ClauseWords(c))
  {
    match c
    case Src(m) => EtherRestored(m);
    case Dst(m) => EtherRestored(m);
    case Tag(_) =>
  }

  lemma {:induction false} ClausesPlain(cs: seq<Clause>)
    requires forall i :: 0 <= i < |cs| && cs[i].Tag? ==> Plain(cs[i].tag)
    ensures AllPlain(AllWords(cs))
  {
    if cs != [] {
      ClausePlain(cs[0]);
      ClausesPlain(cs[1..]);
    }
  }

  /** The words before the tag. */
  function Untagged(r: Rule): (ws: seq<string>)
    ensures |ws| >= 4
  {
    RuleWords(r.(tag := ""))
  }

  lemma UntaggedPlain(r: Rule)
    requires Plain(r.ifs)
    ensures AllPlain(Untagged(r))
    ensures RuleWords(r) == if r.tag == "" then Untagged(r) else Untagged(r) + ["tag", r.tag]
  {
    var r0 := r.(tag := "");
    HeadPlain(r);
    ClausesPlain(ClausesOf(r0));
    if r.tag != "" {
      AllWordsMore(ClausesOf(r0), Tag(r.tag));
      assert ClausesOf(r) == ClausesOf(r0) + [Tag(r.tag)];
    }
  }

  /** A line whose tag is written as it is: the words before it, then whatever words the tag makes. */
  lemma TaggedWords(ws: seq<string>, tag: string)
    requires ws != [] && AllPlain(ws)
    ensures Words(" " + (Unwords(ws + [tag]) + "\n")) == ws + Words(tag + "\n")
  {
    UnwordsSnoc(ws, tag);
    UnwordsRestored(ws, ' ', tag + "\n");
    assert Unwords(ws + [tag]) + "\n" == Unwords(ws) + [' '] + (tag + "\n");
    LeadingBlank(' ', Unwords(ws + [tag]) + "\n");
  }

  /** A tag that was read is one of the words. */
  lemma {:induction false} TagFrom(r: Rule, argv: seq<string>, i: nat, x: Rule)
    requires i <= |argv| && Clauses(r, argv, i) == Added(x)
    ensures x.tag == r.tag || exists k :: i <= k < |argv| && Strlcpy(argv[k], TAG_SIZE) == x.tag
    decreases |argv| - i
  {
    if i < |argv| {
      var next := NextClause(r, argv, i).rule;
      assert next.tag == r.tag || next.tag == Strlcpy(argv[i + 1], TAG_SIZE);
      TagFrom(next, argv, i + 2, x);
    }
  }

  /** No other spelling of a tag that is not plain leads to it. */
  lemma TagIsPlain(ws: seq<string>, tag: string, k: nat)
    requires AllPlain(ws) && NulFree(tag) && |tag| < TAG_SIZE && k < |ws + Words(tag + "\n")|
    requires Strlcpy((ws + Words(tag + "\n"))[k], TAG_SIZE) == tag
    ensures Plain(tag)
  {
    if k >= |ws| {
      WordsWithin(tag, tag + "\n", 0, k - |ws|);
    }
  }

  lemma TagRead(ws: seq<string>, r: Rule, ifnames: set<string>)
    requires WellFormed(r, ifnames) && AllPlain(ws) && |ws| >= 4 && r.tag != ""
    requires Parse(ws + Words(r.tag + "\n"), ifnames) == Added(r)
    ensures Plain(r.tag)
  {
    var argv := ws + Words(r.tag + "\n");
    TagFrom(ParseHead(argv, ifnames).rule, argv, 4, r);
    var k :| 4 <= k < |argv| && Strlcpy(argv[k], TAG_SIZE) == r.tag;
    TagIsPlain(ws, r.tag, k);
  }

  /** The line bridge_rules writes for a rule: its words, all plain but perhaps the tag. */
  lemma LineWords(r: Rule)
    requires Plain(r.ifs)
    ensures Words(ConfLine("rule", RuleWords(r)))
         == ["rule"] + (if r.tag == "" then Untagged(r) else Untagged(r) + ["tag"] + Words(r.tag + "\n"))
  {
    UntaggedPlain(r);
    var before := Untagged(r);
    if r.tag == "" {
      PlainLine(["rule"] + before);
    } else {
      assert RuleWords(r) == before + ["tag", r.tag];
      RuleThenTag(before, r.tag);
    }
  }

  lemma RuleThenTag(before: seq<string>, tag: string)
    requires AllPlain(before)
    ensures Words(ConfLine("rule", before + ["tag", tag])) == ["rule"] + (before + ["tag"] + Words(tag + "\n"))
  {
    var ws := ["rule"] + (before + ["tag"]);
    TaggedWords(ws, tag);
    assert ["rule"] + (before + ["tag", tag]) == ws + [tag];
    assert ws + Words(tag + "\n") == ["rule"] + (before + ["tag"] + Words(tag + "\n"));
  }

  lemma RuleDispatched(rows: seq<Row>, bridge: string, ifnames: set<string>, args: seq<string>)
    requires Known(rows, true, "rule", Routine.Brrule) && |args| >= 4
    ensures Dispatch(rows, true, bridge, ["rule"] + args) == Run(Routine.Brrule, ["rule"] + args)
    ensures Brrule(["rule"] + args, ifnames) == Parse(args, ifnames)
  {
    DispatchNamed(rows, true, bridge, "rule", Routine.Brrule, args);
    assert (["rule"] + args)[1..] == args;
  }

  lemma UntaggedRestored(rows: seq<Row>, bridge: string, ifnames: set<string>, r: Rule)
    requires Known(rows, true, "rule", Routine.Brrule) && WellFormed(r, ifnames) && r.tag == ""
    ensures Read(rows, bridge, ifnames, ConfLine("rule", RuleWords(r))) == Added(r)
  {
    UntaggedPlain(r);
    LineWords(r);
    WordsParsed(r, ifnames);
    RuleDispatched(rows, bridge, ifnames, RuleWords(r));
  }

  lemma PlainTagWords(r: Rule)
    requires Plain(r.ifs) && NulFree(r.tag) && Plain(r.tag)
    ensures Untagged(r) + ["tag"] + Words(r.tag + "\n") == RuleWords(r)
  {
    UntaggedPlain(r);
    BareWordRestored(r.tag);
    assert Untagged(r) + ["tag"] + [r.tag] == Untagged(r) + ["tag", r.tag];
  }

  lemma ParsedIfPlain(r: Rule, ifnames: set<string>)
    requires WellFormed(r, ifnames) && r.tag != ""
    ensures Parse(Untagged(r) + ["tag"] + Words(r.tag + "\n"), ifnames) == Added(r) <==> Plain(r.tag)
  {
    UntaggedPlain(r);
    var ws := Untagged(r) + ["tag"];
    if Plain(r.tag) {
      PlainTagWords(r);
      WordsParsed(r, ifnames);
    } else if Parse(ws + Words(r.tag + "\n"), ifnames) == Added(r) {
      TagRead(ws, r, ifnames);
    }
  }

  /** A saved rule is read back as itself exactly when its tag is a plain word or absent. */
  lemma RuleRestored(rows: seq<Row>, bridge: string, ifnames: set<string>, r: Rule)
    requires Known(rows, true, "rule", Routine.Brrule) && WellFormed(r, ifnames)
    ensures Read(rows, bridge, ifnames, ConfLine("rule", RuleWords(r))) == Added(r) <==> r.tag == "" || Plain(r.tag)
  {
    if r.tag == "" {
      UntaggedRestored(rows, bridge, ifnames, r);
    } else {
      LineWords(r);
      ParsedIfPlain(r, ifnames);
      RuleDispatched(rows, bridge, ifnames, Untagged(r) + ["tag"] + Words(r.tag + "\n"));
    }
  }
}
