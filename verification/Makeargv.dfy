/** makeargv: the command line is cut into words in place, quotes and escapes squeezed out. */
module Makeargv {
  import opened Text
  import opened Tokens

  const LINE_SIZE := 256

  /** The number of entries of margv. */
  const SLOTS := LINE_SIZE / 2

  /** An entry of margv: a null pointer, the constant "!" or a pointer into the line buffer. */
  datatype Arg = Null | Bang | Ptr(pos: nat)

  /** The buffer holds the C string t at position p. */
  predicate HoldsAt(buf: seq<char>, p: nat, t: string) {
    && p + |t| < |buf|
    && buf[p + |t|] == NUL
    && (forall k :: 0 <= k < |t| ==> buf[p + k] == t[k])
  }

  predicate Denotes(buf: seq<char>, arg: Arg, t: string) {
    match arg
    case Null => false
    case Bang => t == "!"
    case Ptr(p) => HoldsAt(buf, p, t)
  }

  /** The words lie wholly before position `end`. */
  predicate StoredBefore(buf: seq<char>, args: seq<Arg>, words: seq<string>, end: nat) {
    && |args| == |words|
    && (forall k :: 0 <= k < |args| ==> Denotes(buf, args[k], words[k]))
    && (forall k :: 0 <= k < |args| && args[k].Ptr? ==> args[k].pos + |words[k]| < end)
  }

  /** Of the word w, text has been written and the rest is still to be scanned from cp. */
  predicate Pending(w: Scan, s: string, cp: nat, quote: char, text: string)
    requires cp <= |s|
  {
    var r := ScanWord(s, cp, quote);
    w.pos == r.pos && w.end == r.end && w.text == text + r.text
  }

  lemma PendingStep(w: Scan, s: string, cp: nat, quote: char, text: string)
    requires cp <= |s| && Pending(w, s, cp, quote, text) && NextStep(s, cp, quote).Take?
    ensures var t := NextStep(s, cp, quote); Pending(w, s, cp + t.k, t.quote, text + t.emit)
  {
    var t := NextStep(s, cp, quote);
    assert text + t.emit + ScanWord(s, cp + t.k, t.quote).text == text + (t.emit + ScanWord(s, cp + t.k, t.quote).text);
  }

  lemma PendingEnd(w: Scan, s: string, quote: char, text: string)
    requires Pending(w, s, |s|, quote, text)
    ensures w == Scan(text, |s|, AtNul)
  {
  }

  lemma StoredKept(buf: seq<char>, now: seq<char>, args: seq<Arg>, words: seq<string>, end: nat)
    requires StoredBefore(buf, args, words, end) && |now| == |buf| && end <= |buf|
    requires forall k :: 0 <= k < end ==> now[k] == buf[k]
    ensures StoredBefore(now, args, words, end)
  {
  }

  lemma StoredMore(buf: seq<char>, args: seq<Arg>, words: seq<string>, start: nat, word: string, end: nat)
    requires StoredBefore(buf, args, words, start) && HoldsAt(buf, start, word) && start + |word| < end
    ensures StoredBefore(buf, args + [Ptr(start)], words + [word], end)
  {
  }

  /** Cutting one word off the rest of the line. */
  lemma CutStep(s: string, cp: nat, words: seq<string>, all: seq<string>)
    requires cp < |s| && NextPart(s, cp).Word? && words + WordsFrom(s, cp) == all
    ensures words + [NextPart(s, cp).text] + WordsFrom(s, NextPart(s, cp).next) == all
  {
    var p := NextPart(s, cp);
    assert words + [p.text] + WordsFrom(s, p.next) == words + ([p.text] + WordsFrom(s, p.next));
  }

  lemma CutStepCursor(s: string, cp: nat, n: nat, before: Cursor)
    requires cp < |s| && NextPart(s, cp).Word?
    ensures var p := NextPart(s, cp);
      CursorAfter(s, cp, n, before) == CursorAfter(s, p.next, n + 1, CursorAtWord(s, cp, n, p.end))
  {
  }

  lemma CutDone(s: string, words: seq<string>, all: seq<string>, n: nat, cursor: Cursor, target: Cursor)
    requires words + WordsFrom(s, |s|) == all && CursorAfter(s, |s|, n, cursor) == target
    ensures words == all && cursor == target
  {
  }

  lemma {:induction false} BlanksKeepCursor(s: string, i: nat, n: nat, before: Cursor)
    requires i <= |s|
    ensures CursorAfter(s, i, n, before) == CursorAfter(s, FirstStart(s, i), n, before)
    decreases |s| - i
  {
    if NextPart(s, i) == Gap {
      BlanksKeepCursor(s, i + 1, n, before);
    }
  }

  /** line[0] once the words are cut: unchanged unless the first word starts there. */
  function FirstChar(s: string): char {
    if s == "" then NUL
    else if IsSpace(s[0]) || s[0] == '!' then s[0]
    else At(ScanWord(s, 0, NUL).text, 0)
  }

  /** Only a first word that starts the line changes line[0]. */
  lemma FirstCharCut(s: string, first: nat)
    requires s != "" && first <= |s| && forall k :: 0 <= k < first ==> IsSpace(s[k])
    requires first == 0 ==> NextPart(s, 0).Word?
    ensures FirstChar(s) == if first == 0 then At(NextPart(s, 0).text, 0) else At(s, 0)
  {
    assert first == 0 ==> NextPart(s, 0).text == ScanWord(s, 0, NUL).text;
    if first == 0 && s[0] == '!' {
      assert NextStep(s, 0, NUL) == Take(1, "!", NUL);
    }
  }

  /** Past the empty quotations at i. */
  function SkipPairs(s: string, i: nat): (p: nat)
    requires i <= |s|
    ensures i <= p <= |s|
    ensures p + 1 < |s| && IsQuote(s[p]) ==> s[p + 1] != s[p]
    decreases |s| - i
  {
    if i + 1 < |s| && IsQuote(s[i]) && s[i + 1] == s[i] then SkipPairs(s, i + 2) else i
  }

  lemma PairDropped(s: string, i: nat)
    requires i + 1 < |s| && IsQuote(s[i]) && s[i + 1] == s[i]
    ensures ScanWord(s, i, NUL).text == ScanWord(s, i + 2, NUL).text
  {
    assert NextStep(s, i, NUL) == Take(1, "", s[i]);
    assert NextStep(s, i + 1, s[i]) == Take(1, "", NUL);
  }

  lemma {:induction false} PairsDropped(s: string, i: nat)
    requires i <= |s|
    ensures ScanWord(s, i, NUL).text == ScanWord(s, SkipPairs(s, i), NUL).text
    decreases |s| - i
  {
    if i + 1 < |s| && IsQuote(s[i]) && s[i + 1] == s[i] {
      PairDropped(s, i);
      PairsDropped(s, i + 2);
    }
  }

  /** A quote or an escape at i, with a blank behind it. */
  predicate MaskedBlank(s: string, i: nat) {
    i + 1 < |s| && (s[i] == '\\' || IsQuote(s[i])) && s[i + 1] == ' '
  }

  lemma FirstKept(s: string, i: nat)
    requires i <= |s| && SkipPairs(s, i) == i
    ensures At(ScanWord(s, i, NUL).text, 0) == ' ' <==> MaskedBlank(s, i)
  {
    var step := NextStep(s, i, NUL);
    if step.Take? {
      if i + 1 < |s| && IsQuote(s[i]) {
        assert NextStep(s, i + 1, s[i]) == Take(1, [s[i + 1]], s[i]);
      }
    }
  }

  /** After makeargv a line starts with a blank exactly when it did before, or when the first character that
      is no empty quotation opens a quotation or an escape and a blank follows. */
  lemma StartsWithBlank(s: string)
    ensures FirstChar(s) == ' ' <==> s != "" && (s[0] == ' ' || MaskedBlank(s, SkipPairs(s, 0)))
  {
    PairsDropped(s, 0);
    var i := SkipPairs(s, 0);
    assert SkipPairs(s, i) == i;
    FirstKept(s, i);
  }

  /** There is room for the words of any line of the buffer. */
  lemma WordsFit(s: string)
    requires |s| < LINE_SIZE
    ensures |Argv(s)| <= SLOTS
  {
    WordCount(s);
  }

  lemma NothingFound(words: seq<string>)
    ensures [] + words == words
  {
  }

  class CommandLine {
    var line: array<char>
    var saveline: string
    const margv: array<Arg>
    var margc: nat
    var cursor: Cursor

    constructor ()
      ensures fresh(line) && line.Length == LINE_SIZE && saveline == ""
      ensures fresh(margv) && margv.Length == SLOTS && margc == 0
    {
      line := new char[LINE_SIZE](_ => NUL);
      margv := new Arg[SLOTS](_ => Null);
      saveline, margc, cursor := "", 0, Cursor(0, 0);
    }

    /** margv is as large as it is declared, and margc entries of it are in use. */
    ghost predicate Sized()
      reads this
    {
      margv.Length == SLOTS && margc <= SLOTS
    }

    /** The entries in use. */
    ghost function Args(): (args: seq<Arg>)
      requires Sized()
      reads this, margv
      ensures |args| == margc
    {
      margv[..margc]
    }

    /** The line buffer holds s. */
    ghost predicate Loaded(s: string)
      reads this, line
    {
      NulFree(s) && HoldsAt(line[..], 0, s)
    }

    /** What fgets leaves in the buffer. */
    method Load(s: string)
      requires NulFree(s) && |s| < line.Length
      modifies line
      ensures Loaded(s)
    {
      for i := 0 to |s|
        invariant forall k :: 0 <= k < i ==> line[k] == s[k]
      {
        line[i] := s[i];
      }
      line[|s|] := NUL;
    }

    /** strlcpy out of the line buffer. */
    method Copy(ghost s: string) returns (t: string)
      requires Loaded(s)
      ensures t == s
    {
      t := "";
      assert forall k :: 0 <= k < |s| ==> line[k] == s[k] && s[k] != NUL;
      while line[|t|] != NUL
        invariant |t| <= |s| && t == s[..|t|]
        decreases |s| - |t|
      {
        t := t + [line[|t|]];
      }
      assert t == s[..|s|];
    }

    /** One character of a word: the quote and escape cases of the inner loop. */
    method ReadChar(start: nat, cp: nat, c: char, quote: char, ghost s: string)
      returns (cp': nat, c': char, quote': char, keep: bool, done: bool)
      requires NulFree(s) && start <= cp < |s| < line.Length
      requires c == s[cp] && line[|s|] == NUL && forall k :: cp <= k < |s| ==> line[k] == s[k]
      ensures match NextStep(s, cp, quote)
        case Take(k, emit, q) => !done && cp' == cp + k - 1 && quote' == q && emit == if keep then [c'] else ""
        case Stop(end) =>
          done && cp' == (if end == AtBlank then cp else |s|) && c' == (if end == AtBlank then c else NUL)
      ensures !done && keep ==> c' == line[cp']
    {
      cp', c', quote', keep, done := cp, c, quote, true, false;
      if quote != NUL {
        if c == quote {
          quote', keep := NUL, false;
        }
      } else if c == '\\' {
        cp' := cp + 1;
        c' := line[cp'];
        done := c' == NUL;
      } else if c == '"' || c == '\'' {
        quote', keep := c, false;
      } else if IsSpace(c) {
        done := true;
      }
    }

    /** *cp2++ = c for a character that is kept: the text written from start on grows by it. */
    method Put(start: nat, cp2: nat, c: char, keep: bool, ghost text: string) returns (cp2': nat)
      requires start <= cp2 < line.Length && line[start..cp2] == text
      modifies line
      ensures cp2' == if keep then cp2 + 1 else cp2
      ensures line[start..cp2'] == text + if keep then [c] else ""
      ensures forall k :: 0 <= k < line.Length && k != cp2 ==> line[k] == old(line[k])
    {
      cp2' := cp2;
      if keep {
        line[cp2] := c;
        cp2' := cp2 + 1;
        assert line[start..cp2'] == line[start..cp2] + [c];
      }
    }

    /** *cp2 = 0: what has been written becomes a C string. */
    method End(start: nat, cp2: nat, ghost text: string)
      requires start <= cp2 < line.Length && line[start..cp2] == text
      modifies line
      ensures HoldsAt(line[..], start, text)
      ensures forall k :: 0 <= k < line.Length && k != cp2 ==> line[k] == old(line[k])
    {
      assert forall k :: 0 <= k < |text| ==> line[start + k] == text[k];
      line[cp2] := NUL;
    }

    /** The state of the inner loop: the word at start is written up to cp2 and read up to cp. */
    ghost predicate Squeezing(s: string, start: nat, cp: nat, cp2: nat, quote: char, text: string)
      reads this, line
    {
      && start <= cp2 <= cp <= |s| < line.Length && line[|s|] == NUL
      && (forall k :: cp <= k < |s| ==> line[k] == s[k])
      && line[start..cp2] == text
      && Pending(ScanWord(s, start, NUL), s, cp, quote, text)
    }

    /** One turn of the inner loop; done says that the word has ended. */
    method CutChar(start: nat, cp: nat, cp2: nat, c: char, quote: char, ghost s: string, ghost text: string)
      returns (cp': nat, cp2': nat, c': char, quote': char, done: bool, ghost text': string)
      requires NulFree(s) && Squeezing(s, start, cp, cp2, quote, text) && cp < |s| && c == line[cp]
      modifies line
      ensures forall k :: 0 <= k < line.Length && (k < start || k > cp) ==> line[k] == old(line[k])
      ensures !done ==> cp < cp' && Squeezing(s, start, cp', cp2', quote', text') && c' == line[cp']
      ensures var w := ScanWord(s, start, NUL);
        done ==> && cp' == w.pos && cp2' == cp2 && line[start..cp2] == text' == w.text && w.end != AtNul
                 && (w.end == AtBlank ==> IsSpace(c')) && (w.end == AtBackslash ==> c' == NUL && cp + 1 == |s|)
    {
      ghost var step := NextStep(s, cp, quote);
      var keep;
      cp', c', quote', keep, done := ReadChar(start, cp, c, quote, s);
      cp2', text' := cp2, text;
      if !done {
        PendingStep(ScanWord(s, start, NUL), s, cp, quote, text);
        cp2' := Put(start, cp2, c', keep, text);
        text', cp' := text + step.emit, cp' + 1;
        c' := line[cp'];
      }
    }

    /** The inner loop: one word, squeezed towards its start and terminated. */
    method CutWord(start: nat, ghost s: string) returns (cp: nat, c: char, offset: int)
      requires NulFree(s) && start < |s| < line.Length && !IsSpace(s[start])
      requires line[|s|] == NUL && forall k :: start <= k < |s| ==> line[k] == s[k]
      modifies line
      ensures var w := ScanWord(s, start, NUL);
        && cp == w.pos
        && (c == NUL <==> w.end != AtBlank)
        && HoldsAt(line[..], start, w.text)
        && offset == (match w.end case AtBlank => 0 case AtNul => cp - start case AtBackslash => cp - start - 1)
      ensures forall k :: 0 <= k < line.Length && (k < start || k > cp) ==> line[k] == old(line[k])
    {
      var quote, cp2, done := NUL, start, false;
      cp, c, offset := start, line[start], 0;
      ghost var text := "";
      while c != NUL
        invariant Squeezing(s, start, cp, cp2, quote, text) && c == line[cp]
        invariant forall k :: 0 <= k < line.Length && (k < start || k > cp) ==> line[k] == old(line[k])
        invariant offset == cp - start
        decreases |s| - cp
      {
        cp, cp2, c, quote, done, text := CutChar(start, cp, cp2, c, quote, s, text);
        if done {
          if IsSpace(c) {
            offset := 0;
          }
          break;
        }
        offset := cp - start;
      }
      if !done {
        PendingEnd(ScanWord(s, start, NUL), s, quote, text);
      }
      End(start, cp2, text);
    }

    method SkipBlanks(start: nat, ghost s: string) returns (cp: nat)
      requires start <= |s| < line.Length
      requires line[|s|] == NUL && forall k :: start <= k < |s| ==> line[k] == s[k]
      ensures cp == FirstStart(s, start)
    {
      cp := start;
      while IsSpace(line[cp])
        invariant start <= cp <= |s| && FirstStart(s, cp) == FirstStart(s, start)
        decreases |s| - cp
      {
        cp := cp + 1;
      }
    }

    /** *argp++ */
    method Push(arg: Arg)
      requires Sized() && margc < SLOTS
      modifies margv, `margc
      ensures Sized() && Args() == old(Args()) + [arg]
    {
      margv[margc] := arg;
      margc := margc + 1;
    }

    /** Cut the word at cp and enter it in margv. */
    method AddWord(cp: nat, ghost s: string, ghost words: seq<string>) returns (next: nat, done: bool)
      requires NulFree(s) && cp < |s| < line.Length && NextPart(s, cp).Word?
      requires line[|s|] == NUL && forall k :: cp <= k < |s| ==> line[k] == s[k]
      requires Sized() && margc < SLOTS && StoredBefore(line[..], Args(), words, cp)
      modifies line, margv, `margc, `cursor
      ensures var p := NextPart(s, cp);
        && done == (p.end != AtBlank)
        && (!done ==> next == p.next)
        && Sized() && StoredBefore(line[..], Args(), words + [p.text], if done then |s| + 1 else next)
        && line[cp] == At(p.text, 0)
        && cursor == CursorAtWord(s, cp, |words|, p.end)
      ensures forall k :: 0 <= k < line.Length && (k < cp || (!done && k >= next)) ==> line[k] == old(line[k])
    {
      ghost var buf, text, args := line[..], NextPart(s, cp).text, Args();
      var end, c, offset := CutWord(cp, s);
      StoredKept(buf, line[..], args, words, cp);
      StoredMore(line[..], args, words, cp, text, end + 1);
      assert line[..][cp] == At(text, 0);
      Push(Ptr(cp));
      cursor := Cursor(margc, offset);
      next, done := end + 1, c == NUL;
      if done {
        cursor := Cursor(cursor.word - 1, offset);
      }
    }

    /** The state of the outer loop at cp: words found so far, and what is still to come. */
    ghost predicate Cutting(s: string, cp: nat, words: seq<string>, all: seq<string>, target: Cursor)
      reads this, line, margv
    {
      && NulFree(s) && cp <= |s| < line.Length
      && line[|s|] == NUL && (forall k :: cp <= k < |s| ==> line[k] == s[k])
      && Sized() && StoredBefore(line[..], Args(), words, cp)
      && words + WordsFrom(s, cp) == all && |all| <= SLOTS
      && CursorAfter(s, cp, |words|, cursor) == target
      && line[0] == if cp == 0 then At(s, 0) else FirstChar(s)
    }

    /** One turn of the outer loop; done says that the line has ended. */
    method CutNext(cp: nat, ghost s: string, ghost words: seq<string>, ghost all: seq<string>, ghost target: Cursor)
      returns (next: nat, done: bool, ghost words': seq<string>)
      requires Cutting(s, cp, words, all, target) && cp < |s|
      modifies line, margv, `margc, `cursor
      ensures if done
        then Sized() && StoredBefore(line[..], Args(), all, line.Length) && cursor == target && line[0] == FirstChar(s)
        else cp < next && Cutting(s, next, words', all, target)
    {
      BlanksKeepCursor(s, cp, |words|, cursor);
      var first := SkipBlanks(cp, s);
      if cp == 0 {
        FirstCharCut(s, first);
      }
      if line[first] == NUL {
        CutDone(s, words, all, |words|, cursor, target);
        return first, true, words;
      }
      CutStep(s, first, words, all);
      CutStepCursor(s, first, |words|, cursor);
      words' := words + [NextPart(s, first).text];
      next, done := AddWord(first, s, words);
      if done {
        CutDone(s, words', all, |words'|, cursor, target);
      }
    }

    /** The outer loop, from position start with the words found so far. */
    method CutWords(start: nat, ghost s: string, ghost found: seq<string>, ghost all: seq<string>)
      requires start <= |s| && Cutting(s, start, found, all, CursorAfter(s, start, |found|, cursor))
      modifies line, margv, `margc, `cursor
      ensures Sized() && StoredBefore(line[..], Args(), all, line.Length)
      ensures line[0] == FirstChar(s)
      ensures cursor == CursorAfter(s, start, |found|, old(cursor))
    {
      var cp, done := start, false;
      ghost var words, target := found, CursorAfter(s, start, |found|, cursor);
      while line[cp] != NUL
        invariant Cutting(s, cp, words, all, target)
        decreases |s| - cp
      {
        cp, done, words := CutNext(cp, s, words, all, target);
        if done {
          return;
        }
      }
      CutDone(s, words, all, |words|, cursor, target);
    }

    /** makeargv. cursorAtStart says whether cursor_pos == line. The words always fit into margv; the null
        pointer behind them is stored past its end exactly when they fill it, and then ok is false. */
    method Makeargv(cursorAtStart: bool, ghost s: string) returns (ok: bool)
      requires Loaded(s) && |s| < LINE_SIZE && margv.Length == SLOTS
      modifies this, line, margv
      ensures line == old(line) && Sized() && margc == |Argv(s)|
      ensures forall k :: 0 <= k < margc ==> Denotes(line[..], Args()[k], Argv(s)[k])
      ensures ok <==> |Argv(s)| < SLOTS
      ensures ok ==> margv[margc] == Null
      ensures line[0] == FirstChar(s)
      ensures saveline == if s != "" && s[0] == '!' then s else old(saveline)
      ensures cursor == if cursorAtStart then Cursor(0, 0)
                        else if s != "" && s[0] == '!' then CursorAfter(s, 1, 1, old(cursor))
                        else CursorAfter(s, 0, 0, old(cursor))
    {
      CutLine(s);
      ok := Terminate();
      if cursorAtStart {
        cursor := Cursor(0, 0);
      }
    }

    /** The words of the whole line. */
    method CutLine(ghost s: string)
      requires Loaded(s) && |s| < LINE_SIZE && margv.Length == SLOTS
      modifies this, line, margv
      ensures line == old(line) && Sized() && StoredBefore(line[..], Args(), Argv(s), line.Length)
      ensures line[0] == FirstChar(s)
      ensures saveline == if s != "" && s[0] == '!' then s else old(saveline)
      ensures cursor == if s != "" && s[0] == '!' then CursorAfter(s, 1, 1, old(cursor))
                        else CursorAfter(s, 0, 0, old(cursor))
    {
      WordsFit(s);
      NothingFound(WordsFrom(s, 0));
      margc := 0;
      assert line[0] == At(s, 0) && Args() == [];
      if line[0] == '!' {
        saveline := Copy(s);
        Push(Bang);
        assert Args() == [Bang];
        CutWords(1, s, ["!"], Argv(s));
      } else {
        CutWords(0, s, [], Argv(s));
      }
    }

    /** *argp++ = 0 */
    method Terminate() returns (ok: bool)
      requires Sized()
      modifies margv
      ensures ok == (margc < SLOTS) && Args() == old(Args())
      ensures ok ==> margv[margc] == Null
    {
      ok := margc < SLOTS;
      if ok {
        margv[margc] := Null;
      }
    }
  }

  // ---- which lines fit ----

  /** Lines short enough: up to 254 characters, or 253 for a shell escape. */
  lemma ShortLinesFit(s: string)
    requires |s| < LINE_SIZE - 1 && (s != "" && s[0] == '!' ==> |s| < LINE_SIZE - 2)
    ensures |Argv(s)| < SLOTS
  {
    WordCount(s);
  }

  /** A complete line of the buffer, ended by its newline, fits as well unless it is a shell escape. */
  lemma CompleteLinesFit(s: string)
    requires 0 < |s| < LINE_SIZE && s[|s| - 1] == '\n' && s[0] != '!'
    ensures |Argv(s)| < SLOTS
  {
    EndedWordCount(s, 0);
  }

  /** n one-letter words. */
  function Letters(n: nat): string {
    if n == 0 then "" else if n == 1 then "a" else "a" + [' '] + Letters(n - 1)
  }

  lemma {:induction false} LettersCut(n: nat)
    ensures |Words(Letters(n))| == n && |Letters(n)| == if n == 0 then 0 else 2 * n - 1
    ensures n > 0 ==> Letters(n)[0] == 'a'
  {
    if n == 1 {
      assert ScanWord("a", 1, NUL) == Scan("", 1, AtNul);
      assert NextPart("a", 0) == Word("a", 1, AtNul);
    } else if n > 1 {
      PlainIsWord("a");
      LettersCut(n - 1);
      WordThenRest("a", "a", ' ', Letters(n - 1));
    }
  }

  /** The bounds are sharp: 128 one-letter words make a line of 255 characters that fills margv. */
  lemma LettersFill(n: nat)
    requires n > 0
    ensures |Letters(n)| == 2 * n - 1 && |Argv(Letters(n))| == n
    ensures n == SLOTS ==> |Letters(n)| == LINE_SIZE - 1 && |Argv(Letters(n))| >= SLOTS
  {
    LettersCut(n);
  }

  /** A shell escape is the word "!" and the words behind it. */
  lemma EscapeCut(t: string)
    ensures Argv("!" + t) == ["!"] + Words(t)
  {
    WordsSame(t, 0, "!" + t, 1);
  }

  lemma EscapeCount(t: string)
    ensures |Argv("!" + t)| == |Words(t)| + 1
  {
    EscapeCut(t);
  }

  /** For a shell escape 254 characters do. */
  lemma EscapeFills(n: nat)
    requires n > 0
    ensures |"!" + Letters(n)| == 2 * n && |Argv("!" + Letters(n))| == n + 1
    ensures n == SLOTS - 1 ==> |"!" + Letters(n)| == LINE_SIZE - 2 && |Argv("!" + Letters(n))| >= SLOTS
  {
    LettersCut(n);
    EscapeCount(Letters(n));
  }
}
