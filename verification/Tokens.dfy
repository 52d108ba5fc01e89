/** The command-line language: what makeargv means by a word, a quote and an escape. */
module Tokens {
  import opened Text

  /** How a word ended: at a blank, at the end of the line, or at a backslash with nothing after it. */
  datatype End = AtBlank | AtNul | AtBackslash

  /** One scanned word: its text, the position it ended at, and how it ended. */
  datatype Scan = Scan(text: string, pos: nat, end: End)

  /** One turn of the word loop: stop, or take k raw characters that add emit to the word. */
  datatype Step = Stop(end: End) | Take(k: nat, emit: string, quote: char)

  function NextStep(s: string, i: nat, quote: char): (t: Step)
    requires i <= |s|
    ensures t.Take? ==> 0 < t.k && i + t.k <= |s| && |t.emit| <= t.k
    ensures t == Stop(AtBlank) ==> i < |s| && IsSpace(s[i])
  {
    if i == |s| then Stop(AtNul)
    else if quote != NUL then
      if s[i] == quote then Take(1, "", NUL) else Take(1, [s[i]], quote)
    else if s[i] == '\\' then
      if i + 1 == |s| then Stop(AtBackslash) else Take(2, [s[i + 1]], NUL)
    else if s[i] == '"' || s[i] == '\'' then Take(1, "", s[i])
    else if IsSpace(s[i]) then Stop(AtBlank)
    else Take(1, [s[i]], NUL)
  }

  /** Scan a word of s from position i, inside the given quote (NUL when outside). */
  function ScanWord(s: string, i: nat, quote: char): (w: Scan)
    requires i <= |s|
    ensures i <= w.pos <= |s| && |w.text| <= w.pos - i
    ensures if w.end == AtBlank then w.pos < |s| && IsSpace(s[w.pos]) else w.pos == |s|
    decreases |s| - i
  {
    match NextStep(s, i, quote)
    case Stop(end) => Scan("", if end == AtBlank then i else |s|, end)
    case Take(k, emit, q) => var w := ScanWord(s, i + k, q); w.(text := emit + w.text)
  }

  /** What comes next on the line: its end, a blank, or a word and where the line goes on after it. */
  datatype Part = Done | Gap | Word(text: string, next: nat, end: End)

  function NextPart(s: string, i: nat): (p: Part)
    requires i <= |s|
    ensures p == Done <==> i == |s|
    ensures p == Gap <==> i < |s| && IsSpace(s[i])
    ensures p.Word? ==> i < p.next <= |s| && (p.end != AtBlank ==> p.next == |s|)
  {
    if i == |s| then Done
    else if IsSpace(s[i]) then Gap
    else
      var w := ScanWord(s, i, NUL);
      Word(w.text, if w.end == AtBlank then w.pos + 1 else |s|, w.end)
  }

  /** The words of s from position i on. */
  function WordsFrom(s: string, i: nat): seq<string>
    requires i <= |s|
    decreases |s| - i
  {
    match NextPart(s, i)
    case Done => []
    case Gap => WordsFrom(s, i + 1)
    case Word(text, next, _) => [text] + WordsFrom(s, next)
  }

  /** The words of a line, not counting the shell escape. */
  function Words(s: string): seq<string> {
    WordsFrom(s, 0)
  }

  /** margv after makeargv: a line starting with '!' has that character as its first word. */
  function Argv(s: string): seq<string> {
    if s != "" && s[0] == '!' then ["!"] + WordsFrom(s, 1) else Words(s)
  }

  /** Where the cursor is: which word, and how far into its raw text. */
  datatype Cursor = Cursor(word: int, offset: int)

  /** The cursor once the word at i, the n-th, has been cut. */
  function CursorAtWord(s: string, i: nat, n: nat, end: End): Cursor
    requires i <= |s|
  {
    match end
    case AtBlank => Cursor(n + 1, 0)
    case AtNul => Cursor(n, |s| - i)
    case AtBackslash => Cursor(n, |s| - i - 1)
  }

  /** cursor_argc and cursor_argo after the words of s from i on, when n words came before. */
  function CursorAfter(s: string, i: nat, n: nat, before: Cursor): Cursor
    requires i <= |s|
    decreases |s| - i
  {
    match NextPart(s, i)
    case Done => before
    case Gap => CursorAfter(s, i + 1, n, before)
    case Word(_, next, end) => CursorAfter(s, next, n + 1, CursorAtWord(s, i, n, end))
  }

  predicate Blank(s: string) {
    forall i :: 0 <= i < |s| ==> IsSpace(s[i])
  }

  // ---- properties of the language ----

  lemma {:induction false} BlankHasNoWordsFrom(s: string, i: nat)
    requires i <= |s|
    ensures WordsFrom(s, i) == [] <==> forall k :: i <= k < |s| ==> IsSpace(s[k])
    decreases |s| - i
  {
    if NextPart(s, i) == Gap {
      BlankHasNoWordsFrom(s, i + 1);
    }
  }

  /** A line has no words exactly when it is blank. */
  lemma BlankHasNoWords(s: string)
    ensures Words(s) == [] <==> Blank(s)
  {
    BlankHasNoWordsFrom(s, 0);
  }

  lemma {:induction false} WordCountFrom(s: string, i: nat)
    requires i <= |s|
    ensures 2 * |WordsFrom(s, i)| <= |s| - i + 1
    decreases |s| - i
  {
    match NextPart(s, i)
    case Done =>
    case Gap => WordCountFrom(s, i + 1);
    case Word(_, next, _) =>
      WordCountFrom(s, next);
      assert next == |s| ==> WordsFrom(s, next) == [];
      assert NextStep(s, i, NUL) != Stop(AtBlank);
  }

  /** There are at most (length + 1) / 2 words; the shell escape adds at most one. */
  lemma WordCount(s: string)
    ensures 2 * |Words(s)| <= |s| + 1
    ensures 2 * |Argv(s)| <= |s| + 2
  {
    WordCountFrom(s, 0);
    if s != "" {
      WordCountFrom(s, 1);
    }
  }

  /** In a text that ends in a blank there are at most length / 2 words. */
  lemma {:induction false} EndedWordCount(s: string, i: nat)
    requires i <= |s| && s != "" && IsSpace(s[|s| - 1])
    ensures 2 * |WordsFrom(s, i)| <= |s| - i
    decreases |s| - i
  {
    match NextPart(s, i)
    case Done =>
    case Gap => EndedWordCount(s, i + 1);
    case Word(_, next, _) =>
      EndedWordCount(s, next);
      assert NextStep(s, i, NUL) != Stop(AtBlank);
  }

  lemma StepSame(s: string, i: nat, t: string, j: nat, quote: char)
    requires i <= |s| && j <= |t| && NextStep(s, i, quote).Take?
    requires j + NextStep(s, i, quote).k <= |t|
    requires forall k :: i <= k < i + NextStep(s, i, quote).k ==> s[k] == t[k + (j - i)]
    ensures NextStep(t, j, quote) == NextStep(s, i, quote)
  {
    assert s[i] == t[i + (j - i)];
    if NextStep(s, i, quote).k == 2 {
      assert s[i + 1] == t[i + 1 + (j - i)];
    }
  }

  lemma {:induction false} ScanNulFree(s: string, i: nat, quote: char)
    requires i <= |s| && NulFree(s)
    ensures NulFree(ScanWord(s, i, quote).text)
    decreases |s| - i
  {
    match NextStep(s, i, quote)
    case Stop(_) =>
    case Take(k, emit, q) => ScanNulFree(s, i + k, q);
  }

  /** The words of a C string are C strings. */
  lemma {:induction false} WordsNulFree(s: string, i: nat)
    requires i <= |s| && NulFree(s)
    ensures forall k :: 0 <= k < |WordsFrom(s, i)| ==> NulFree(WordsFrom(s, i)[k])
    decreases |s| - i
  {
    match NextPart(s, i)
    case Done =>
    case Gap => WordsNulFree(s, i + 1);
    case Word(_, next, _) =>
      ScanNulFree(s, i, NUL);
      WordsNulFree(s, next);
  }

  /** From j on, t is what the scan w of s from i on has taken, and is stopped in the same way. */
  predicate Stands(w: Scan, s: string, i: nat, t: string, j: nat) {
    && i <= w.pos <= |s| && j + (w.pos - i) <= |t|
    && (forall k :: i <= k < w.pos ==> s[k] == t[k + (j - i)])
    && (if w.end == AtBlank then j + (w.pos - i) < |t| && IsSpace(t[j + (w.pos - i)]) else j + (w.pos - i) == |t|)
  }

  lemma StopSame(s: string, i: nat, t: string, j: nat, quote: char)
    requires i <= |s| && j <= |t| && NextStep(s, i, quote).Stop? && Stands(ScanWord(s, i, quote), s, i, t, j)
    ensures NextStep(t, j, quote) == NextStep(s, i, quote)
    ensures var w := ScanWord(s, i, quote); ScanWord(t, j, quote) == Scan(w.text, j + (w.pos - i), w.end)
  {
    var w := ScanWord(s, i, quote);
    assert i < w.pos ==> s[i] == t[i + (j - i)];
  }

  lemma TakeStands(s: string, i: nat, t: string, j: nat, quote: char, rest: Scan)
    requires i <= |s| && NextStep(s, i, quote).Take? && Stands(ScanWord(s, i, quote), s, i, t, j)
    requires rest == ScanWord(s, i + NextStep(s, i, quote).k, NextStep(s, i, quote).quote)
    ensures var k := NextStep(s, i, quote).k; j + k <= |t| && Stands(rest, s, i + k, t, j + k)
    ensures NextStep(t, j, quote) == NextStep(s, i, quote)
  {
    StepSame(s, i, t, j, quote);
  }

  /** A scan depends only on the characters it takes and on the blank or end that stops it. */
  lemma {:induction false} ScanSame(s: string, i: nat, t: string, j: nat, quote: char)
    requires i <= |s| && j <= |t| && Stands(ScanWord(s, i, quote), s, i, t, j)
    ensures var w := ScanWord(s, i, quote); ScanWord(t, j, quote) == Scan(w.text, j + (w.pos - i), w.end)
    decreases |s| - i
  {
    var step := NextStep(s, i, quote);
    if step.Stop? {
      StopSame(s, i, t, j, quote);
    } else {
      TakeStands(s, i, t, j, quote, ScanWord(s, i + step.k, step.quote));
      ScanSame(s, i + step.k, t, j + step.k, step.quote);
    }
  }

  lemma PartSame(s: string, i: nat, t: string, j: nat)
    requires i <= |s| && j <= |t| && |s| - i == |t| - j
    requires forall k :: i <= k < |s| ==> s[k] == t[k + (j - i)]
    ensures var p := NextPart(s, i); NextPart(t, j) == if p.Word? then p.(next := p.next + (j - i)) else p
  {
    if i < |s| {
      ScanSame(s, i, t, j, NUL);
      assert s[i] == t[i + (j - i)];
    }
  }

  lemma {:induction false} WordsSame(s: string, i: nat, t: string, j: nat)
    requires i <= |s| && j <= |t| && |s| - i == |t| - j
    requires forall k :: i <= k < |s| ==> s[k] == t[k + (j - i)]
    ensures WordsFrom(s, i) == WordsFrom(t, j)
    decreases |s| - i
  {
    PartSame(s, i, t, j);
    match NextPart(s, i)
    case Done =>
    case Gap => WordsSame(s, i + 1, t, j + 1);
    case Word(_, next, _) => WordsSame(s, next, t, next + (j - i));
  }

  /** All words of s from i on are ended by blanks. */
  predicate ClosedFrom(s: string, i: nat)
    requires i <= |s|
    decreases |s| - i
  {
    match NextPart(s, i)
    case Done => true
    case Gap => ClosedFrom(s, i + 1)
    case Word(_, next, end) => end == AtBlank && ClosedFrom(s, next)
  }

  predicate Closed(s: string) {
    ClosedFrom(s, 0)
  }

  lemma PartAppend(a: string, b: string, i: nat)
    requires i < |a| && (NextPart(a, i).Word? ==> NextPart(a, i).end == AtBlank)
    ensures NextPart(a + b, i) == NextPart(a, i)
  {
    assert (a + b)[i] == a[i];
    if !IsSpace(a[i]) {
      ScanSame(a, i, a + b, i, NUL);
    }
  }

  lemma OneMore(w: string, ws: seq<string>, more: seq<string>)
    ensures [w] + (ws + more) == [w] + ws + more
  {
  }

  lemma {:induction false} WordsAppendFrom(a: string, b: string, i: nat)
    requires i <= |a| && ClosedFrom(a, i)
    ensures WordsFrom(a + b, i) == WordsFrom(a, i) + WordsFrom(b, 0)
    decreases |a| - i
  {
    match NextPart(a, i)
    case Done =>
      WordsSame(b, 0, a + b, |a|);
    case Gap =>
      PartAppend(a, b, i);
      WordsAppendFrom(a, b, i + 1);
    case Word(text, next, _) =>
      PartAppend(a, b, i);
      WordsAppendFrom(a, b, next);
      OneMore(text, WordsFrom(a, next), WordsFrom(b, 0));
  }

  /** Lines concatenate: the words of a closed line do not depend on what follows. */
  lemma WordsAppend(a: string, b: string)
    requires Closed(a)
    ensures Words(a + b) == Words(a) + Words(b)
  {
    WordsAppendFrom(a, b, 0);
  }

  /** Where the last word starts, if the line does not end in a blank after it. */
  function LastStart(s: string, i: nat): (p: nat)
    requires i <= |s|
    ensures i <= p <= |s|
    ensures p < |s| ==> NextPart(s, p).Word? && NextPart(s, p).end != AtBlank
    decreases |s| - i
  {
    match NextPart(s, i)
    case Done => i
    case Gap => LastStart(s, i + 1)
    case Word(_, next, end) => if end == AtBlank then LastStart(s, next) else i
  }

  /** Completion's view of a line with a word: the cursor is on the last word with its raw length
      (less one when a lone backslash ends the line), or past the last word after a blank. */
  lemma {:induction false} CursorOnLastWord(s: string, i: nat, n: nat, before: Cursor)
    requires i <= |s|
    ensures var p := LastStart(s, i);
      CursorAfter(s, i, n, before) == (
        if WordsFrom(s, i) == [] then before
        else if p == |s| then Cursor(n + |WordsFrom(s, i)|, 0)
        else Cursor(n + |WordsFrom(s, i)| - 1, if NextPart(s, p).end == AtBackslash then |s| - p - 1 else |s| - p))
    ensures var p := LastStart(s, i);
      p < |s| ==> |WordsFrom(s, i)| > 0 && WordsFrom(s, i)[|WordsFrom(s, i)| - 1] == NextPart(s, p).text
    decreases |s| - i
  {
    match NextPart(s, i)
    case Done =>
    case Gap => CursorOnLastWord(s, i + 1, n, before);
    case Word(text, next, end) =>
      CursorOnLastWord(s, next, n + 1, CursorAtWord(s, i, n, end));
      assert |WordsFrom(s, i)| == 1 + |WordsFrom(s, next)|;
      if end != AtBlank {
        assert WordsFrom(s, next) == [];
      }
  }

  lemma LeadingBlank(c: char, line: string)
    requires IsSpace(c)
    ensures Words([c] + line) == Words(line)
  {
    WordsSame(line, 0, [c] + line, 1);
    assert NextPart([c] + line, 0) == Gap;
  }

  // ---- which raw words stand for themselves ----

  /** raw is one whole word of the language, with the given text. */
  predicate IsWord(raw: string, text: string) {
    raw != "" && !IsSpace(raw[0]) && ScanWord(raw + " ", 0, NUL) == Scan(text, |raw|, AtBlank)
  }

  lemma WordComesFirst(raw: string, text: string, c: char, rest: string)
    requires IsWord(raw, text) && IsSpace(c)
    ensures NextPart(raw + [c] + rest, 0) == Word(text, |raw| + 1, AtBlank)
  {
    var s := raw + [c] + rest;
    assert s[0] == raw[0];
    ScanSame(raw + " ", 0, s, 0, NUL);
  }

  /** A word, any blank and any rest of the line. */
  lemma WordThenRest(raw: string, text: string, c: char, rest: string)
    requires IsWord(raw, text) && IsSpace(c)
    ensures Words(raw + [c] + rest) == [text] + Words(rest)
  {
    var s := raw + [c] + rest;
    WordComesFirst(raw, text, c, rest);
    WordsSame(rest, 0, s, |raw| + 1);
  }

  lemma {:induction false} PlainScan(s: string, i: nat, p: nat)
    requires i <= p < |s| && IsSpace(s[p])
    requires forall k :: i <= k < p ==> PlainChar(s[k])
    ensures ScanWord(s, i, NUL) == Scan(s[i..p], p, AtBlank)
    decreases p - i
  {
    if i < p {
      PlainScan(s, i + 1, p);
      assert s[i..p] == [s[i]] + s[i + 1..p];
    }
  }

  lemma PlainIsWord(s: string)
    requires Plain(s)
    ensures IsWord(s, s)
  {
    PlainScan(s + " ", 0, |s|);
    assert (s + " ")[0..|s|] == s;
  }

  /** A scan that drops nothing met no quote and no escape. */
  lemma {:induction false} NothingDropped(s: string, i: nat)
    requires i <= |s| && NulFree(s)
    requires |ScanWord(s, i, NUL).text| == ScanWord(s, i, NUL).pos - i
    ensures forall k :: i <= k < ScanWord(s, i, NUL).pos ==> PlainChar(s[k])
    decreases |s| - i
  {
    match NextStep(s, i, NUL)
    case Stop(_) =>
    case Take(k, emit, q) => NothingDropped(s, i + k);
  }

  /** How often a newline occurs in s from i on. */
  function Newlines(s: string, i: nat): nat
    requires i <= |s|
    decreases |s| - i
  {
    if i == |s| then 0 else (if s[i] == '\n' then 1 else 0) + Newlines(s, i + 1)
  }

  lemma {:induction false} NewlinesSame(s: string, i: nat, t: string, j: nat)
    requires i <= |s| && j <= |t| && |s| - i == |t| - j
    requires forall k :: i <= k < |s| ==> s[k] == t[k + (j - i)]
    ensures Newlines(s, i) == Newlines(t, j)
    decreases |s| - i
  {
    if i < |s| {
      NewlinesSame(s, i + 1, t, j + 1);
    }
  }

  lemma NewlinesStep(s: string, i: nat, quote: char, text: string)
    requires i <= |s| && quote != '\n' && NextStep(s, i, quote).Take?
    ensures var t := NextStep(s, i, quote);
      Newlines(t.emit + text, 0) + Newlines(s, i + t.k) == Newlines(s, i) + Newlines(text, 0) && t.quote != '\n'
  {
    var t := NextStep(s, i, quote);
    NewlinesSame(text, 0, t.emit + text, |t.emit|);
    assert t.k == 2 ==> Newlines(s, i) == Newlines(s, i + 1);
    assert t.emit == "" || t.emit == [s[i + t.k - 1]];
    assert t.emit == "" ==> t.emit + text == text;
  }

  lemma NewlinesStop(s: string, i: nat, quote: char)
    requires i <= |s| && NextStep(s, i, quote).Stop?
    ensures Newlines(s, ScanWord(s, i, quote).pos) == Newlines(s, i)
  {
    assert NextStep(s, i, quote) == Stop(AtBackslash) ==> Newlines(s, i) == Newlines(s, i + 1) == 0;
  }

  /** A newline that the scan takes is never dropped. */
  lemma {:induction false} NewlinesKept(s: string, i: nat, quote: char)
    requires i <= |s| && quote != '\n'
    ensures var w := ScanWord(s, i, quote); Newlines(w.text, 0) + Newlines(s, w.pos) == Newlines(s, i)
    decreases |s| - i
  {
    match NextStep(s, i, quote)
    case Stop(_) =>
      NewlinesStop(s, i, quote);
    case Take(k, emit, q) =>
      NewlinesStep(s, i, quote, ScanWord(s, i + k, q).text);
      NewlinesKept(s, i + k, q);
  }

  lemma {:induction false} NewlineEnds(word: string, i: nat)
    requires i <= |word|
    ensures Newlines(word + "\n", i) == Newlines(word, i) + 1
    decreases |word| - i
  {
    if i < |word| {
      NewlineEnds(word, i + 1);
    }
  }

  /** Where the first word starts. */
  function FirstStart(s: string, i: nat): (p: nat)
    requires i <= |s|
    ensures i <= p <= |s|
    ensures forall k :: i <= k < p ==> IsSpace(s[k])
    ensures p < |s| ==> !IsSpace(s[p])
    ensures WordsFrom(s, i) == WordsFrom(s, p)
    decreases |s| - i
  {
    if NextPart(s, i) == Gap then FirstStart(s, i + 1) else i
  }

  /** A word written bare at the end of a line is read back as itself exactly when it is plain. */
  lemma BareWordRestored(word: string)
    requires NulFree(word)
    ensures Words(word + "\n") == [word] <==> Plain(word)
  {
    var s := word + "\n";
    if Plain(word) {
      PlainIsWord(word);
      WordThenRest(word, word, '\n', "");
      assert s == word + ['\n'] + "";
    }
    if Words(s) == [word] {
      var j := FirstStart(s, 0);
      var w := ScanWord(s, j, NUL);
      assert w.text == WordsFrom(s, j)[0] == word;
      assert forall i :: 0 <= i < |word| ==> s[i] == word[i];
      NewlinesKept(s, j, NUL);
      NewlineEnds(word, 0);
      if w.pos - j == |word| {
        NothingDropped(s, j);
      }
    }
  }

  // ---- quotes and escapes ----

  predicate IsQuote(c: char) {
    c == '"' || c == '\''
  }

  lemma {:induction false} ScanQuoted(s: string, i: nat, p: nat, q: char)
    requires i <= p < |s| && IsQuote(q) && s[p] == q && forall k :: i <= k < p ==> s[k] != q
    ensures var r := ScanWord(s, p + 1, NUL); ScanWord(s, i, q) == r.(text := s[i..p] + r.text)
    decreases p - i
  {
    if i < p {
      ScanQuoted(s, i + 1, p, q);
      var r := ScanWord(s, p + 1, NUL);
      assert s[i..p] + r.text == [s[i]] + (s[i + 1..p] + r.text);
    } else {
      assert s[i..p] == "";
    }
  }

  /** A part of a word: a character that stands for itself, one behind a backslash, or any text in either kind
      of quotes. */
  datatype Piece = Itself(c: char) | Backslashed(c: char) | InQuotes(q: char, body: string)

  predicate ProperPiece(p: Piece) {
    match p
    case Itself(c) => PlainChar(c)
    case Backslashed(_) => true
    case InQuotes(q, body) => IsQuote(q) && q !in body
  }

  function PieceText(p: Piece): (s: string)
    ensures s != ""
  {
    match p
    case Itself(c) => [c]
    case Backslashed(c) => ['\\', c]
    case InQuotes(q, body) => [q] + body + [q]
  }

  function PieceMeaning(p: Piece): string {
    match p
    case Itself(c) => [c]
    case Backslashed(c) => [c]
    case InQuotes(_, body) => body
  }

  function PiecesText(ps: seq<Piece>): string {
    if ps == [] then "" else PieceText(ps[0]) + PiecesText(ps[1..])
  }

  function PiecesMeaning(ps: seq<Piece>): string {
    if ps == [] then "" else PieceMeaning(ps[0]) + PiecesMeaning(ps[1..])
  }

  lemma ScanBehind(head: string, rest: string)
    requires ScanWord(rest, 0, NUL).end == AtBlank
    ensures var w := ScanWord(rest, 0, NUL);
      ScanWord(head + rest, |head|, NUL) == Scan(w.text, |head| + w.pos, AtBlank)
  {
    ScanSame(rest, 0, head + rest, |head|, NUL);
  }

  lemma QuotedHere(q: char, body: string, s: string)
    requires IsQuote(q) && q !in body && |body| + 2 <= |s|
    requires s[0] == q && s[1..|body| + 1] == body && s[|body| + 1] == q
    ensures var r := ScanWord(s, |body| + 2, NUL); ScanWord(s, 0, NUL) == r.(text := body + r.text)
  {
    assert forall k :: 1 <= k < |body| + 1 ==> s[k] == body[k - 1];
    ScanQuoted(s, 1, |body| + 1, q);
    assert NextStep(s, 0, NUL) == Take(1, "", q);
  }

  lemma QuotedParts(q: char, body: string, rest: string)
    ensures var s := [q] + body + [q] + rest;
      s[0] == q && s[1..|body| + 1] == body && s[|body| + 1] == q && |s| == |body| + 2 + |rest|
  {
  }

  lemma QuotedThenRest(q: char, body: string, rest: string, s: string)
    requires IsQuote(q) && q !in body && ScanWord(rest, 0, NUL).end == AtBlank && s == [q] + body + [q] + rest
    ensures var w := ScanWord(rest, 0, NUL); ScanWord(s, 0, NUL) == Scan(body + w.text, |body| + 2 + w.pos, AtBlank)
  {
    ScanBehind([q] + body + [q], rest);
    QuotedParts(q, body, rest);
    QuotedHere(q, body, s);
  }

  lemma ItselfThenRest(c: char, rest: string)
    requires PlainChar(c) && ScanWord(rest, 0, NUL).end == AtBlank
    ensures var w := ScanWord(rest, 0, NUL); ScanWord([c] + rest, 0, NUL) == Scan([c] + w.text, 1 + w.pos, AtBlank)
  {
    ScanBehind([c], rest);
    assert NextStep([c] + rest, 0, NUL) == Take(1, [c], NUL);
  }

  lemma BackslashThenRest(c: char, rest: string)
    requires ScanWord(rest, 0, NUL).end == AtBlank
    ensures var w := ScanWord(rest, 0, NUL);
      ScanWord(['\\', c] + rest, 0, NUL) == Scan([c] + w.text, 2 + w.pos, AtBlank)
  {
    ScanBehind(['\\', c], rest);
    assert NextStep(['\\', c] + rest, 0, NUL) == Take(2, [c], NUL);
  }

  lemma PieceThenRest(p: Piece, rest: string)
    requires ProperPiece(p) && ScanWord(rest, 0, NUL).end == AtBlank
    ensures var w := ScanWord(rest, 0, NUL);
      ScanWord(PieceText(p) + rest, 0, NUL) == Scan(PieceMeaning(p) + w.text, |PieceText(p)| + w.pos, AtBlank)
  {
    match p
    case Itself(c) => ItselfThenRest(c, rest);
    case Backslashed(c) => BackslashThenRest(c, rest);
    case InQuotes(q, body) => QuotedThenRest(q, body, rest, PieceText(p) + rest);
  }

  lemma {:induction false} PiecesScan(ps: seq<Piece>)
    requires forall i :: 0 <= i < |ps| ==> ProperPiece(ps[i])
    ensures ScanWord(PiecesText(ps) + " ", 0, NUL) == Scan(PiecesMeaning(ps), |PiecesText(ps)|, AtBlank)
  {
    if ps != [] {
      PiecesScan(ps[1..]);
      assert PiecesText(ps) + " " == PieceText(ps[0]) + (PiecesText(ps[1..]) + " ");
      PieceThenRest(ps[0], PiecesText(ps[1..]) + " ");
    }
  }

  lemma PieceStarts(p: Piece, rest: string)
    requires ProperPiece(p)
    ensures PieceText(p) + rest != "" && !IsSpace((PieceText(p) + rest)[0])
  {
    assert (PieceText(p) + rest)[0] == PieceText(p)[0];
  }

  lemma WordAlone(raw: string, text: string)
    requires IsWord(raw, text)
    ensures Words(raw + "\n") == [text]
  {
    WordThenRest(raw, text, '\n', "");
    assert raw + ['\n'] + "" == raw + "\n";
    assert [text] + Words("") == [text];
  }

  /** Any such pieces, one behind the other, are one word: its quotes and backslashes are dropped and everything
      else is kept in order. */
  lemma PiecesAreWord(ps: seq<Piece>)
    requires ps != [] && forall i :: 0 <= i < |ps| ==> ProperPiece(ps[i])
    ensures IsWord(PiecesText(ps), PiecesMeaning(ps))
    ensures Words(PiecesText(ps) + "\n") == [PiecesMeaning(ps)]
  {
    PiecesScan(ps);
    PieceStarts(ps[0], PiecesText(ps[1..]));
    WordAlone(PiecesText(ps), PiecesMeaning(ps));
  }

  // ---- every argument vector can be written ----

  function EscapedChar(c: char): string {
    if PlainChar(c) && c != '!' then [c] else ['\\', c]
  }

  function Escaped(w: string): string {
    if w == "" then "" else EscapedChar(w[0]) + Escaped(w[1..])
  }

  /** A spelling of any text as one word. */
  function Spell(w: string): string {
    if w == "" then "\"\"" else Escaped(w)
  }

  lemma {:induction false} ScanEscaped(w: string)
    ensures ScanWord(Escaped(w) + " ", 0, NUL) == Scan(w, |Escaped(w)|, AtBlank)
  {
    if w != "" {
      var rest := Escaped(w[1..]) + " ";
      ScanEscaped(w[1..]);
      assert Escaped(w) + " " == EscapedChar(w[0]) + rest;
      ScanAfterChar(w[0], rest);
    }
  }

  lemma EscapedStep(c: char, rest: string)
    ensures NextStep(EscapedChar(c) + rest, 0, NUL) == Take(|EscapedChar(c)|, [c], NUL)
  {
    var s := EscapedChar(c) + rest;
    assert s[0] == EscapedChar(c)[0];
    assert |EscapedChar(c)| == 2 ==> s[1] == c;
  }

  lemma ScanAfterChar(c: char, rest: string)
    requires ScanWord(rest, 0, NUL).end == AtBlank
    ensures var w := ScanWord(rest, 0, NUL);
      ScanWord(EscapedChar(c) + rest, 0, NUL) == Scan([c] + w.text, |EscapedChar(c)| + w.pos, AtBlank)
  {
    ScanBehind(EscapedChar(c), rest);
    EscapedStep(c, rest);
  }

  lemma SpellIsWord(w: string)
    ensures IsWord(Spell(w), w) && Spell(w)[0] != '!'
  {
    var s := Spell(w) + " ";
    if w == "" {
      assert ScanWord(s, 2, NUL) == Scan("", 2, AtBlank);
      assert ScanWord(s, 1, '"') == Scan("", 2, AtBlank);
    } else {
      ScanEscaped(w);
      assert !IsSpace(EscapedChar(w[0])[0]) && s[0] == EscapedChar(w[0])[0];
    }
  }

  function SpellLine(ws: seq<string>): string {
    if ws == [] then "" else Spell(ws[0]) + [' '] + SpellLine(ws[1..])
  }

  /** makeargv inverts SpellLine: every argument vector is the reading of some line. */
  lemma {:induction false} SpelledLineRestored(ws: seq<string>)
    ensures Words(SpellLine(ws)) == ws && Argv(SpellLine(ws)) == ws
  {
    if ws != [] {
      SpellIsWord(ws[0]);
      SpelledLineRestored(ws[1..]);
      WordThenRest(Spell(ws[0]), ws[0], ' ', SpellLine(ws[1..]));
      assert SpellLine(ws)[0] == Spell(ws[0])[0];
    }
  }

  /** Plain words separated by single blanks. */
  function Unwords(ws: seq<string>): string {
    if ws == [] then "" else if |ws| == 1 then ws[0] else ws[0] + " " + Unwords(ws[1..])
  }

  lemma {:induction false} UnwordsRestored(ws: seq<string>, c: char, rest: string)
    requires ws != [] && IsSpace(c)
    requires forall i :: 0 <= i < |ws| ==> Plain(ws[i])
    ensures Words(Unwords(ws) + [c] + rest) == ws + Words(rest)
  {
    PlainIsWord(ws[0]);
    if |ws| == 1 {
      WordThenRest(ws[0], ws[0], c, rest);
    } else {
      var tail := Unwords(ws[1..]) + [c] + rest;
      UnwordsRestored(ws[1..], c, rest);
      WordThenRest(ws[0], ws[0], ' ', tail);
      FirstOfUnwords(ws, c, rest);
      FirstAndRest(ws, Words(rest));
    }
  }

  lemma FirstAndRest(ws: seq<string>, more: seq<string>)
    requires ws != []
    ensures [ws[0]] + (ws[1..] + more) == ws + more
  {
  }

  lemma FirstOfUnwords(ws: seq<string>, c: char, rest: string)
    requires |ws| > 1
    ensures Unwords(ws) + [c] + rest == ws[0] + [' '] + (Unwords(ws[1..]) + [c] + rest)
  {
    FiveParts(ws[0], Unwords(ws[1..]), c, rest);
  }

  lemma FiveParts(a: string, b: string, c: char, rest: string)
    ensures (a + " " + b) + [c] + rest == a + [' '] + (b + [c] + rest)
  {
  }

  /** A configuration line: one leading blank, plain words separated by blanks, a newline. */
  lemma PlainLine(ws: seq<string>)
    requires ws != [] && forall i :: 0 <= i < |ws| ==> Plain(ws[i])
    ensures Words(Unwords(ws) + "\n") == ws
    ensures Words(" " + (Unwords(ws) + "\n")) == ws
  {
    UnwordsRestored(ws, '\n', "");
    assert Unwords(ws) + ['\n'] + "" == Unwords(ws) + "\n";
    LeadingBlank(' ', Unwords(ws) + "\n");
  }

  lemma {:induction false} UnwordsSnoc(ws: seq<string>, w: string)
    requires ws != []
    ensures Unwords(ws + [w]) == Unwords(ws) + " " + w
  {
    if |ws| == 1 {
      assert (ws + [w])[1..] == [w];
    } else {
      assert (ws + [w])[1..] == ws[1..] + [w];
      UnwordsSnoc(ws[1..], w);
    }
  }

  /** Every word of a text followed by a newline is shorter than the text or is the text itself, and
      then it is the only word and plain. */
  lemma {:induction false} WordsWithin(t: string, s: string, i: nat, k: nat)
    requires s == t + "\n" && NulFree(t) && i <= |s| && k < |WordsFrom(s, i)|
    ensures |WordsFrom(s, i)[k]| <= |t|
    ensures WordsFrom(s, i)[k] == t && i == 0 ==> Plain(t)
    ensures WordsFrom(s, i)[k] == t ==> i == 0
    decreases |s| - i
  {
    match NextPart(s, i)
    case Done =>
    case Gap =>
      WordsWithin(t, s, i + 1, k);
    case Word(text, next, _) =>
      var w := ScanWord(s, i, NUL);
      if k > 0 {
        WordsWithin(t, s, next, k - 1);
      } else if |w.text| == w.pos - i {
        NothingDropped(s, i);
        assert w.pos == |s| ==> !PlainChar(s[|s| - 1]);
        assert forall j :: 0 <= j < |t| ==> s[j] == t[j];
      } else if i == 0 && w.text == t {
        assert Newlines(s, |s|) == 0;
        NewlinesKept(s, 0, NUL);
        NewlineEnds(t, 0);
      }
  }
}
