/** list_vertical: the candidates of a completion, in columns. */
module Listing {
  import opened Text

  /** (w + 8) & ~7: the next tab stop. */
  function TabStop(w: nat): (t: nat)
    ensures w < t <= w + 8 && t % 8 == 0
  {
    (w + 8) / 8 * 8
  }

  function Longest(words: seq<string>): (w: nat)
    ensures forall i :: 0 <= i < |words| ==> |words[i]| <= w
  {
    if words == [] then 0
    else
      var n, rest := |words[|words| - 1]|, Longest(words[..|words| - 1]);
      assert forall i :: 0 <= i < |words| - 1 ==> words[i] == words[..|words| - 1][i];
      if n > rest then n else rest
  }

  /** The width of a column of the listing. */
  function Width(words: seq<string>): (w: nat)
    ensures w >= 8 && w % 8 == 0 && forall i :: 0 <= i < |words| ==> |words[i]| < w
  {
    TabStop(Longest(words))
  }

  function Columns(wsCol: nat, width: nat): (c: nat)
    requires width > 0
    ensures c > 0
  {
    if wsCol / width == 0 then 1 else wsCol / width
  }

  function Lines(n: nat, columns: nat): nat
    requires columns > 0
  {
    (n + columns - 1) / columns
  }

  // ---- which candidate goes where ----

  /** The candidate in column j of line i. */
  function Place(j: nat, lines: nat, i: nat): nat {
    if j == 0 then i else Place(j - 1, lines, i) + lines
  }

  lemma {:induction false} PlaceIs(j: nat, lines: nat, i: nat)
    ensures Place(j, lines, i) == j * lines + i
  {
    if j > 0 {
      PlaceIs(j - 1, lines, i);
      assert j * lines == (j - 1) * lines + lines;
    }
  }

  lemma {:induction false} PlaceNext(j: nat, lines: nat, i: nat)
    ensures Place(j + 1, lines, i) == Place(j, lines, i + lines)
  {
    if j > 0 {
      PlaceNext(j - 1, lines, i);
    }
  }

  lemma {:induction false} PlacesGrow(j: nat, k: nat, lines: nat, i: nat)
    requires j <= k
    ensures Place(j, lines, i) <= Place(k, lines, i)
  {
    if j < k {
      PlacesGrow(j, k - 1, lines, i);
    }
  }

  /** The place of candidate k, and its only one: down the columns. */
  lemma {:induction false} ColumnMajor(j: nat, lines: nat, i: nat, k: nat)
    requires i < lines
    ensures Place(j, lines, i) == k <==> i == k % lines && j == k / lines
    decreases j
  {
    if k < lines {
      DivisionIs(k, lines, 0, k);
      PlacesGrow(1, if j > 0 then j else 1, lines, i);
    } else {
      Wrapped(k, lines);
      if j > 0 {
        ColumnMajor(j - 1, lines, i, k - lines);
      }
    }
  }

  lemma Wrapped(k: nat, lines: nat)
    requires 0 < lines <= k
    ensures k % lines == (k - lines) % lines && k / lines == (k - lines) / lines + 1
  {
    var q, r := (k - lines) / lines, (k - lines) % lines;
    assert k - lines == lines * q + r;
    assert lines * (q + 1) == lines * q + lines;
    DivisionIs(k, lines, q + 1, r);
  }

  lemma DivisionIs(k: nat, lines: nat, q: nat, r: nat)
    requires r < lines && k == lines * q + r
    ensures k / lines == q && k % lines == r
  {
    var d := q - k / lines;
    assert lines * d == k % lines - r;
    assert d >= 1 ==> lines * d >= lines;
    assert d <= -1 ==> lines * d + lines <= 0;
  }

  /** The candidates of a line, from the one at k on. */
  function Cells(words: seq<string>, lines: nat, k: nat): seq<string>
    requires lines > 0
    decreases |words| - k
  {
    if k >= |words| then [] else [words[k]] + Cells(words, lines, k + lines)
  }

  /** Column j of a line holds the candidate of its place, as long as there is one. */
  lemma {:induction false} CellsAt(words: seq<string>, lines: nat, k: nat, j: nat)
    requires lines > 0
    ensures j < |Cells(words, lines, k)| <==> Place(j, lines, k) < |words|
    ensures j < |Cells(words, lines, k)| ==> Cells(words, lines, k)[j] == words[Place(j, lines, k)]
    decreases j
  {
    PlacesGrow(0, j, lines, k);
    if j > 0 && k < |words| {
      PlaceNext(j - 1, lines, k);
      CellsAt(words, lines, k + lines, j - 1);
    }
  }

  lemma LinesFit(n: nat, columns: nat)
    requires columns > 0
    ensures n <= columns * Lines(n, columns)
    ensures Lines(n, columns) <= n
    ensures n > 0 ==> Lines(n, columns) > 0
  {
    var q, x := Lines(n, columns), n + columns - 1;
    assert x == columns * q + x % columns;
    if q > n {
      MoreTimes(columns, q, n);
    }
    if q == 0 {
      assert columns * q == 0;
    }
  }

  lemma MoreTimes(c: nat, q: nat, n: nat)
    requires c > 0 && q > n
    ensures c * q >= c * n + c && c * n >= n
  {
    var d := q - n;
    assert c * q == c * n + c * d;
    assert c * d == c + c * (d - 1);
    assert c * n == n + (c - 1) * n;
  }

  /** Past the last column there is no candidate. */
  lemma NoMoreColumns(n: nat, columns: nat, i: nat)
    requires columns > 0
    ensures Place(columns, Lines(n, columns), i) >= n
  {
    PlaceIs(columns, Lines(n, columns), i);
    LinesFit(n, columns);
  }

  lemma Divided(a: nat, b: nat)
    requires b > 0
    ensures a / b * b <= a < (a / b + 1) * b
  {
    var q, r := a / b, a % b;
    assert a == b * q + r;
    assert (q + 1) * b == q * b + b;
  }

  lemma {:induction false} LongestIsOne(words: seq<string>)
    ensures words == [] ==> Longest(words) == 0
    ensures words != [] ==> exists i :: 0 <= i < |words| && |words[i]| == Longest(words)
  {
    if |words| == 1 {
      assert |words[0]| == Longest(words);
    } else if words != [] {
      var n := |words| - 1;
      LongestIsOne(words[..n]);
      if Longest(words) == |words[n]| {
      } else {
        var i :| 0 <= i < |words[..n]| && |words[..n][i]| == Longest(words[..n]);
        assert |words[i]| == Longest(words);
      }
    }
  }

  /** The cells are as narrow as tab stops allow, there are as many columns as fit, at least one, and no more lines
      than that many columns need. */
  lemma LayoutIs(words: seq<string>, wsCol: nat, x: nat)
    requires words != []
    ensures var w := Width(words);
      w % 8 == 0 && (forall i :: 0 <= i < |words| ==> |words[i]| < w)
      && (x % 8 == 0 && (forall i :: 0 <= i < |words| ==> |words[i]| < x) ==> w <= x)
    ensures var w, c := Width(words), Columns(wsCol, Width(words)); (c * w <= wsCol || c == 1) && wsCol < (c + 1) * w
    ensures var c, n := Columns(wsCol, Width(words)), Lines(|words|, Columns(wsCol, Width(words)));
      (n - 1) * c < |words| <= n * c
  {
    LongestIsOne(words);
    var w, c := Width(words), Columns(wsCol, Width(words));
    Divided(wsCol, w);
    LinesLeast(|words|, c);
  }

  lemma LinesLeast(n: nat, columns: nat)
    requires columns > 0 && n > 0
    ensures (Lines(n, columns) - 1) * columns < n <= Lines(n, columns) * columns
  {
    var x, q := n + columns - 1, Lines(n, columns);
    Divided(x, columns);
    assert (q + 1) * columns == q * columns + columns && (q - 1) * columns == q * columns - columns;
  }

  /** No line has more candidates than the terminal has columns for. */
  lemma RowFits(words: seq<string>, columns: nat, i: nat)
    requires columns > 0 && words != [] && Lines(|words|, columns) > 0
    ensures |Cells(words, Lines(|words|, columns), i)| <= columns
  {
    NoMoreColumns(|words|, columns, i);
    CellsAt(words, Lines(|words|, columns), i, columns);
  }

  // ---- the printed text ----

  /** The tabs from column w up to the width of a cell. */
  function Tabs(w: nat, width: nat): (s: string)
    decreases width - w
  {
    if w < width then "\t" + Tabs(TabStop(w), width) else ""
  }

  /** A line from the candidate at k on: all but the last one are padded with tabs. */
  function LineText(words: seq<string>, lines: nat, k: nat, width: nat): string
    requires lines > 0 && k < |words|
    decreases |words| - k
  {
    if k + lines >= |words| then words[k]
    else words[k] + (Tabs(|words[k]|, width) + LineText(words, lines, k + lines, width))
  }

  /** The lines from line i on. */
  function ListingText(words: seq<string>, lines: nat, i: nat, width: nat): string
    requires i <= lines <= |words|
    decreases lines - i
  {
    if i == lines then "" else LineText(words, lines, i, width) + ("\n" + ListingText(words, lines, i + 1, width))
  }

  /** Names without tabs and newlines, none of them empty. */
  predicate Clean(words: seq<string>) {
    forall i :: 0 <= i < |words| ==> words[i] != "" && '\t' !in words[i] && '\n' !in words[i]
  }

  /** The pieces of a text that are not empty. */
  function NonEmpty(ps: seq<string>): seq<string> {
    if ps == [] then [] else (if ps[0] == "" then [] else [ps[0]]) + NonEmpty(ps[1..])
  }

  /** What a reader sees on a line: the texts between its tabs. */
  function Shown(line: string): seq<string> {
    NonEmpty(Parts(line, '\t'))
  }

  lemma NonEmptyFirst(p: string, ps: seq<string>)
    ensures NonEmpty([p] + ps) == (if p == "" then [] else [p]) + NonEmpty(ps)
  {
    assert ([p] + ps)[1..] == ps;
  }

  lemma TabHidden(more: string)
    ensures Shown("\t" + more) == Shown(more)
  {
    NextPiece("", '\t', more);
    assert "" + (['\t'] + more) == "\t" + more;
    NonEmptyFirst("", Parts(more, '\t'));
    assert [] + Shown(more) == Shown(more);
  }

  lemma TabsFirst(w: nat, width: nat, rest: string)
    ensures Tabs(w, width) + rest == if w < width then "\t" + (Tabs(TabStop(w), width) + rest) else rest
  {
  }

  lemma {:induction false} TabsHidden(w: nat, width: nat, rest: string)
    ensures Shown(Tabs(w, width) + rest) == Shown(rest)
    decreases width - w
  {
    TabsFirst(w, width, rest);
    if w < width {
      TabHidden(Tabs(TabStop(w), width) + rest);
      TabsHidden(TabStop(w), width, rest);
    }
  }

  lemma CellShown(p: string, width: nat, rest: string)
    requires p != "" && '\t' !in p && |p| < width
    ensures Shown(p + (Tabs(|p|, width) + rest)) == [p] + Shown(rest)
  {
    var more := Tabs(TabStop(|p|), width) + rest;
    TabsFirst(|p|, width, rest);
    assert "\t" + more == ['\t'] + more;
    NextPiece(p, '\t', more);
    NonEmptyFirst(p, Parts(more, '\t'));
    TabsHidden(TabStop(|p|), width, rest);
  }

  lemma LastShown(p: string)
    requires p != "" && '\t' !in p
    ensures Shown(p) == [p]
  {
    NextPiece(p, '\t', "");
    NonEmptyFirst(p, []);
    assert [p] + [] == [p];
  }

  lemma NextShown(words: seq<string>, lines: nat, k: nat, width: nat)
    requires lines > 0 && k + lines < |words| && words[k] != "" && '\t' !in words[k] && |words[k]| < width
    ensures Shown(LineText(words, lines, k, width)) == [words[k]] + Shown(LineText(words, lines, k + lines, width))
  {
    CellShown(words[k], width, LineText(words, lines, k + lines, width));
  }

  lemma MoreShown(words: seq<string>, lines: nat, k: nat, width: nat)
    requires lines > 0 && k + lines < |words| && words[k] != "" && '\t' !in words[k] && |words[k]| < width
    requires Shown(LineText(words, lines, k + lines, width)) == Cells(words, lines, k + lines)
    ensures Shown(LineText(words, lines, k, width)) == Cells(words, lines, k)
  {
    NextShown(words, lines, k, width);
  }

  lemma EndShown(words: seq<string>, lines: nat, k: nat, width: nat)
    requires lines > 0 && k < |words| <= k + lines && words[k] != "" && '\t' !in words[k]
    ensures Shown(LineText(words, lines, k, width)) == Cells(words, lines, k)
  {
    LastShown(words[k]);
    assert Cells(words, lines, k + lines) == [];
  }

  /** A line shows its candidates in order. */
  lemma {:induction false} LineShown(words: seq<string>, lines: nat, k: nat, width: nat)
    requires lines > 0 && k < |words| && Clean(words) && forall i :: 0 <= i < |words| ==> |words[i]| < width
    ensures Shown(LineText(words, lines, k, width)) == Cells(words, lines, k)
    decreases |words| - k
  {
    if k + lines < |words| {
      LineShown(words, lines, k + lines, width);
      MoreShown(words, lines, k, width);
    } else {
      EndShown(words, lines, k, width);
    }
  }

  lemma {:induction false} TabsOneLine(w: nat, width: nat)
    ensures '\n' !in Tabs(w, width)
    decreases width - w
  {
    if w < width {
      TabsOneLine(TabStop(w), width);
    }
  }

  lemma {:induction false} LineOneLine(words: seq<string>, lines: nat, k: nat, width: nat)
    requires lines > 0 && k < |words| && Clean(words)
    ensures '\n' !in LineText(words, lines, k, width)
    decreases |words| - k
  {
    if k + lines < |words| {
      TabsOneLine(|words[k]|, width);
      LineOneLine(words, lines, k + lines, width);
    }
  }

  /** The lines from line i on, and nothing behind the last one. */
  function LineTexts(words: seq<string>, lines: nat, i: nat, width: nat): (p: seq<string>)
    requires i <= lines <= |words|
    ensures |p| == lines - i + 1
    decreases lines - i
  {
    if i == lines then [""] else [LineText(words, lines, i, width)] + LineTexts(words, lines, i + 1, width)
  }

  lemma FirstLineCut(line: string, rest: string)
    requires '\n' !in line
    ensures Parts(line + ("\n" + rest), '\n') == [line] + Parts(rest, '\n')
  {
    NextPiece(line, '\n', rest);
    assert "\n" + rest == ['\n'] + rest;
  }

  /** The text is cut at its newlines into the lines. */
  lemma {:induction false} LinesCut(words: seq<string>, lines: nat, i: nat, width: nat)
    requires i <= lines <= |words| && Clean(words)
    ensures Parts(ListingText(words, lines, i, width), '\n') == LineTexts(words, lines, i, width)
    decreases lines - i
  {
    if i < lines {
      LineOneLine(words, lines, i, width);
      FirstLineCut(LineText(words, lines, i, width), ListingText(words, lines, i + 1, width));
      LinesCut(words, lines, i + 1, width);
    } else {
      NextPiece("", '\n', "");
    }
  }

  lemma {:induction false} LineTextAt(words: seq<string>, lines: nat, i: nat, width: nat, m: nat)
    requires i + m <= lines <= |words|
    ensures LineTexts(words, lines, i, width)[m] == if i + m < lines then LineText(words, lines, i + m, width) else ""
    decreases m
  {
    if m > 0 {
      LineTextAt(words, lines, i + 1, width, m - 1);
    }
  }

  // ---- the terminal column ----

  /** The column after printing s from column c: tabs go to the next multiple of 8. */
  function ColumnAfter(s: string, c: nat): nat {
    if s == "" then c else ColumnAfter(s[1..], if s[0] == '\t' then TabStop(c) else c + 1)
  }

  lemma TabStopShift(w: nat, base: nat)
    requires base % 8 == 0
    ensures TabStop(base + w) == base + TabStop(w)
  {
  }

  lemma {:induction false} ColumnShift(s: string, c: nat, base: nat)
    requires base % 8 == 0
    ensures ColumnAfter(s, base + c) == base + ColumnAfter(s, c)
  {
    if s != "" {
      TabStopShift(c, base);
      ColumnShift(s[1..], if s[0] == '\t' then TabStop(c) else c + 1, base);
    }
  }

  /** Padding ends at the width of the cell. */
  lemma {:induction false} TabsReach(w: nat, width: nat)
    requires w <= width && width % 8 == 0
    ensures ColumnAfter(Tabs(w, width), w) == width
    decreases width - w
  {
    if w < width {
      assert TabStop(w) <= width;
      TabsReach(TabStop(w), width);
      assert Tabs(w, width)[1..] == Tabs(TabStop(w), width);
    }
  }

  lemma {:induction false} ColumnAppend(a: string, b: string, c: nat)
    ensures ColumnAfter(a + b, c) == ColumnAfter(b, ColumnAfter(a, c))
  {
    if a == "" {
      assert a + b == b;
    } else {
      assert (a + b)[1..] == a[1..] + b;
      ColumnAppend(a[1..], b, if a[0] == '\t' then TabStop(c) else c + 1);
    }
  }

  lemma {:induction false} WordColumn(p: string, c: nat)
    requires '\t' !in p
    ensures ColumnAfter(p, c) == c + |p|
  {
    if p != "" {
      WordColumn(p[1..], c + 1);
    }
  }

  /** A padded candidate takes exactly the width of a cell. */
  lemma CellWidth(p: string, width: nat)
    requires '\t' !in p && |p| <= width && width % 8 == 0
    ensures ColumnAfter(p + Tabs(|p|, width), 0) == width
  {
    ColumnAppend(p, Tabs(|p|, width), 0);
    WordColumn(p, 0);
    TabsReach(|p|, width);
  }

  /** The text p stands in the line at position m, in this column of the terminal. */
  predicate Stands(line: string, p: string, m: nat, column: nat) {
    m + |p| <= |line| && line[m..m + |p|] == p && ColumnAfter(line[..m], 0) == column
  }

  lemma StandsBehind(a: string, rest: string, p: string, m: nat, column: nat, width: nat)
    requires Stands(rest, p, m, column) && ColumnAfter(a, 0) == width && width % 8 == 0
    ensures Stands(a + rest, p, |a| + m, width + column)
  {
    var line := a + rest;
    assert line[..|a| + m] == a + rest[..m];
    assert line[|a| + m..|a| + m + |p|] == rest[m..m + |p|];
    ColumnAppend(a, rest[..m], 0);
    ColumnShift(rest[..m], 0, width);
  }

  /** Where the j-th candidate of a line stands. */
  function Position(words: seq<string>, lines: nat, k: nat, width: nat, j: nat): nat
    requires lines > 0
    decreases j
  {
    if j == 0 || k >= |words| then 0
    else |words[k]| + |Tabs(|words[k]|, width)| + Position(words, lines, k + lines, width, j - 1)
  }

  lemma FirstStands(line: string, p: string)
    requires p <= line
    ensures Stands(line, p, 0, 0)
  {
    assert line[..0] == "" && line[0..|p|] == p;
  }

  /** j times the width. */
  function Multiple(j: nat, width: nat): nat {
    if j == 0 then 0 else width + Multiple(j - 1, width)
  }

  lemma {:induction false} MultipleIs(j: nat, width: nat)
    ensures Multiple(j, width) == j * width
  {
    if j > 0 {
      MultipleIs(j - 1, width);
    }
  }

  lemma CellBehind(words: seq<string>, lines: nat, k: nat, width: nat, p: string, m: nat, column: nat)
    requires lines > 0 && k + lines < |words| && '\t' !in words[k] && |words[k]| < width && width % 8 == 0
    requires Stands(LineText(words, lines, k + lines, width), p, m, column)
    ensures Stands(LineText(words, lines, k, width), p, |words[k]| + |Tabs(|words[k]|, width)| + m, width + column)
  {
    var a, rest := words[k] + Tabs(|words[k]|, width), LineText(words, lines, k + lines, width);
    CellWidth(words[k], width);
    ThreeParts(words[k], Tabs(|words[k]|, width), rest);
    StandsBehind(a, rest, p, m, column, width);
  }

  /** One cell further on. */
  lemma NextStands(words: seq<string>, lines: nat, k: nat, width: nat, p: string, j: nat)
    requires lines > 0 && k + lines < |words| && '\t' !in words[k] && |words[k]| < width && width % 8 == 0 && j > 0
    requires Stands(LineText(words, lines, k + lines, width), p,
                    Position(words, lines, k + lines, width, j - 1), Multiple(j - 1, width))
    ensures Stands(LineText(words, lines, k, width), p, Position(words, lines, k, width, j), Multiple(j, width))
  {
    CellBehind(words, lines, k, width, p, Position(words, lines, k + lines, width, j - 1), Multiple(j - 1, width));
  }

  /** The j-th candidate of a line stands in terminal column j times the width. */
  lemma {:induction false} CellStands(words: seq<string>, lines: nat, k: nat, width: nat, j: nat)
    requires lines > 0 && k < |words| && Clean(words) && width % 8 == 0
    requires forall i :: 0 <= i < |words| ==> |words[i]| < width
    requires Place(j, lines, k) < |words|
    ensures Stands(LineText(words, lines, k, width), words[Place(j, lines, k)],
                   Position(words, lines, k, width, j), Multiple(j, width))
    decreases j
  {
    var p := words[Place(j, lines, k)];
    if j == 0 {
      FirstStands(LineText(words, lines, k, width), p);
    } else {
      PlaceNext(j - 1, lines, k);
      PlacesGrow(0, j - 1, lines, k + lines);
      CellStands(words, lines, k + lines, width, j - 1);
      NextStands(words, lines, k, width, p, j);
    }
  }

  lemma ThreeParts(a: string, b: string, c: string)
    ensures a + (b + c) == (a + b) + c
  {
  }

  // ---- what the listing shows ----

  /** Line i shows the candidates at places i, i + lines and so on. */
  ghost predicate RowsShow(p: seq<string>, words: seq<string>, lines: nat) {
    lines > 0 && |p| == lines + 1 && forall i :: 0 <= i < lines ==> Shown(p[i]) == Cells(words, lines, i)
  }

  /** The j-th of them begins in terminal column j times the width. */
  ghost predicate CellsStand(p: seq<string>, words: seq<string>, lines: nat, width: nat) {
    && lines > 0 && |p| == lines + 1
    && forall i, j :: 0 <= i < lines && 0 <= j && Place(j, lines, i) < |words| ==>
         Stands(p[i], words[Place(j, lines, i)], Position(words, lines, i, width, j), j * width)
  }

  /** The text is this many lines of candidates in columns. */
  ghost predicate Shows(out: string, words: seq<string>, lines: nat, width: nat) {
    var p := Parts(out, '\n');
    RowsShow(p, words, lines) && CellsStand(p, words, lines, width) && p[lines] == ""
  }

  predicate Fits(words: seq<string>, lines: nat, width: nat) {
    && 0 < lines <= |words| && Clean(words) && width % 8 == 0
    && forall i :: 0 <= i < |words| ==> |words[i]| < width
  }

  lemma LineShows(words: seq<string>, lines: nat, width: nat, i: nat, p: seq<string>)
    requires Fits(words, lines, width) && i < lines && p == LineTexts(words, lines, 0, width)
    ensures Shown(p[i]) == Cells(words, lines, i)
  {
    LineTextAt(words, lines, 0, width, i);
    LineShown(words, lines, i, width);
  }

  lemma CellShows(words: seq<string>, lines: nat, width: nat, i: nat, j: nat, p: seq<string>)
    requires Fits(words, lines, width) && i < lines && Place(j, lines, i) < |words|
    requires p == LineTexts(words, lines, 0, width)
    ensures Stands(p[i], words[Place(j, lines, i)], Position(words, lines, i, width, j), j * width)
  {
    LineTextAt(words, lines, 0, width, i);
    PlacesGrow(0, j, lines, i);
    CellStands(words, lines, i, width, j);
    MultipleIs(j, width);
  }

  lemma RowsAreShown(words: seq<string>, lines: nat, width: nat, p: seq<string>)
    requires Fits(words, lines, width) && p == LineTexts(words, lines, 0, width) && |p| == lines + 1
    ensures RowsShow(p, words, lines)
  {
    forall i | 0 <= i < lines
      ensures Shown(p[i]) == Cells(words, lines, i)
    {
      LineShows(words, lines, width, i, p);
    }
  }

  lemma CellsAreShown(words: seq<string>, lines: nat, width: nat, p: seq<string>)
    requires Fits(words, lines, width) && p == LineTexts(words, lines, 0, width) && |p| == lines + 1
    ensures CellsStand(p, words, lines, width)
  {
    forall i, j: nat | 0 <= i < lines && Place(j, lines, i) < |words|
      ensures Stands(p[i], words[Place(j, lines, i)], Position(words, lines, i, width, j), j * width)
    {
      CellShows(words, lines, width, i, j, p);
    }
  }

  lemma ListingShows(words: seq<string>, lines: nat, width: nat)
    requires Fits(words, lines, width)
    ensures Shows(ListingText(words, lines, 0, width), words, lines, width)
  {
    var p := LineTexts(words, lines, 0, width);
    LinesCut(words, lines, 0, width);
    LineTextAt(words, lines, 0, width, lines);
    RowsAreShown(words, lines, width, p);
    CellsAreShown(words, lines, width, p);
  }

  /** Every candidate is shown exactly once: candidate k is the k / lines-th text of line k % lines, and
      no other place is its place. */
  lemma ShownOnce(out: string, words: seq<string>, lines: nat, width: nat, k: nat)
    requires Shows(out, words, lines, width) && k < |words|
    ensures var line := Parts(out, '\n')[k % lines]; k / lines < |Shown(line)| && Shown(line)[k / lines] == words[k]
    ensures forall i, j :: 0 <= i < lines && 0 <= j && Place(j, lines, i) == k ==> i == k % lines && j == k / lines
    ensures forall i, j :: 0 <= i < lines && 0 <= j < |Shown(Parts(out, '\n')[i])| ==>
      Place(j, lines, i) < |words| && Shown(Parts(out, '\n')[i])[j] == words[Place(j, lines, i)]
  {
    ColumnMajor(k / lines, lines, k % lines, k);
    CellsAt(words, lines, k % lines, k / lines);
    forall i, j: nat | 0 <= i < lines && Place(j, lines, i) == k
      ensures i == k % lines && j == k / lines
    {
      ColumnMajor(j, lines, i, k);
    }
    forall i, j: nat | 0 <= i < lines && j < |Shown(Parts(out, '\n')[i])|
      ensures Place(j, lines, i) < |words| && Shown(Parts(out, '\n')[i])[j] == words[Place(j, lines, i)]
    {
      CellsAt(words, lines, i, j);
    }
  }

  // ---- the program ----

  method Pad(w0: nat, width: nat) returns (out: string)
    ensures out == Tabs(w0, width)
  {
    out := "";
    var w := w0;
    assert "" + Tabs(w, width) == Tabs(w0, width);
    while w < width
      invariant out + Tabs(w, width) == Tabs(w0, width)
      decreases width - w
    {
      assert out + ("\t" + Tabs(TabStop(w), width)) == out + "\t" + Tabs(TabStop(w), width);
      w := TabStop(w);
      out := out + "\t";
    }
    assert out + "" == out;
  }

  /** The index j * lines + i. */
  method Index(j: nat, lines: nat, i: nat) returns (k: nat)
    ensures k == Place(j, lines, i)
  {
    PlaceIs(j, lines, i);
    k := j * lines + i;
  }

  lemma LineStep(words: seq<string>, lines: nat, k: nat, width: nat, done: string, all: string)
    requires lines > 0 && k < |words| && done + LineText(words, lines, k, width) == all
    ensures if k + lines >= |words| then done + words[k] == all
            else done + words[k] + Tabs(|words[k]|, width) + LineText(words, lines, k + lines, width) == all
  {
    if k + lines < |words| {
      FourParts(done, words[k], Tabs(|words[k]|, width), LineText(words, lines, k + lines, width));
    }
  }

  lemma FourParts(a: string, b: string, c: string, d: string)
    ensures a + (b + (c + d)) == a + b + c + d
  {
  }

  /** Candidate k, and unless it is the last of its line the tabs up to the next cell. */
  method PrintCell(words: seq<string>, lines: nat, k: nat, width: nat, before: string, ghost all: string)
    returns (out: string, last: bool)
    requires lines > 0 && k < |words| && before + LineText(words, lines, k, width) == all
    ensures last == (k + lines >= |words|)
    ensures if last then out == all else out + LineText(words, lines, k + lines, width) == all
  {
    LineStep(words, lines, k, width, before, all);
    out, last := before + words[k], k + lines >= |words|;
    if !last {
      var tabs := Pad(|words[k]|, width);
      out := out + tabs;
    }
  }

  /** The column loop of line i, up to its newline: it ends at the last candidate of the line, never at
      the number of columns. */
  method PrintRow(words: seq<string>, columns: nat, i: nat, width: nat) returns (out: string)
    requires columns > 0 && i < Lines(|words|, columns) <= |words|
    ensures out == LineText(words, Lines(|words|, columns), i, width)
  {
    var lines, j, last := Lines(|words|, columns), 0, false;
    ghost var all := LineText(words, lines, i, width);
    out := "";
    assert out + all == all;
    while j < columns
      invariant Place(j, lines, i) < |words|
      invariant out + LineText(words, lines, Place(j, lines, i), width) == all
      decreases columns - j
    {
      var k := Index(j, lines, i);
      out, last := PrintCell(words, lines, k, width, out, all);
      if last {
        return;
      }
      j := j + 1;
    }
    NoMoreColumns(|words|, columns, i);
    PlacesGrow(columns, j, lines, i);
  }

  method LongestLoop(words: seq<string>) returns (longest: nat)
    ensures longest == Longest(words)
  {
    longest := 0;
    var i := 0;
    while i < |words|
      invariant i <= |words| && longest == Longest(words[..i])
    {
      assert words[..i + 1][..i] == words[..i];
      if |words[i]| > longest {
        longest := |words[i]|;
      }
      i := i + 1;
    }
    assert words[..i] == words;
  }

  /** list_vertical, for any width of the terminal: no index is out of bounds, and the text shows every
      candidate once, in columns. */
  method ListVertical(words: seq<string>, wsCol: nat) returns (out: string)
    ensures var lines := Lines(|words|, Columns(wsCol, Width(words)));
      lines <= |words| && out == ListingText(words, lines, 0, Width(words))
    ensures words != [] && Clean(words) ==>
      Shows(out, words, Lines(|words|, Columns(wsCol, Width(words))), Width(words))
  {
    var longest := LongestLoop(words);
    var width := TabStop(longest);
    var columns := Columns(wsCol, width);
    var lines := Lines(|words|, columns);
    LinesFit(|words|, columns);
    out := PrintLines(words, columns, width);
    if words != [] && Clean(words) {
      ListingShows(words, lines, width);
    }
  }

  /** The line loop. */
  method PrintLines(words: seq<string>, columns: nat, width: nat) returns (out: string)
    requires columns > 0 && Lines(|words|, columns) <= |words|
    ensures out == ListingText(words, Lines(|words|, columns), 0, width)
  {
    var lines, i := Lines(|words|, columns), 0;
    out := "";
    assert "" + ListingText(words, lines, 0, width) == ListingText(words, lines, 0, width);
    while i < lines
      invariant i <= lines && out + ListingText(words, lines, i, width) == ListingText(words, lines, 0, width)
    {
      var row := PrintRow(words, columns, i, width);
      FourParts(out, row, "\n", ListingText(words, lines, i + 1, width));
      out := out + row + "\n";
      i := i + 1;
    }
    assert out + "" == out;
  }
}
