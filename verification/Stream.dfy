/** Text files read line by line with fgets. */
module Stream {
  import opened Text

  /** Where the line that starts at i ends when fgets has room for `room` more characters. */
  function LineEnd(content: string, i: nat, room: nat): (e: nat)
    requires i <= |content|
    ensures i <= e <= |content| && e - i <= room
    decreases |content| - i
  {
    if i == |content| || room == 0 then i
    else if content[i] == '\n' then i + 1
    else LineEnd(content, i + 1, room - 1)
  }

  /** The strings successive fgets calls return, from position i on. */
  function Lines(content: string, size: nat, i: nat): seq<string>
    requires size > 1 && i <= |content|
    decreases |content| - i
  {
    if i == |content| then []
    else
      var e := LineEnd(content, i, size - 1);
      [content[i..e]] + Lines(content, size, e)
  }

  /** A line that fits one fgets: ended by its only newline. */
  predicate ProperLine(line: string, size: nat) {
    && 0 < |line| < size
    && line[|line| - 1] == '\n'
    && (forall i :: 0 <= i < |line| - 1 ==> line[i] != '\n')
  }

  lemma {:induction false} LineEndOf(content: string, i: nat, e: nat, room: nat)
    requires i < e <= |content| && e - i <= room && content[e - 1] == '\n'
    requires forall k :: i <= k < e - 1 ==> content[k] != '\n'
    ensures LineEnd(content, i, room) == e
    decreases e - i
  {
    if i + 1 < e {
      LineEndOf(content, i + 1, e, room - 1);
    }
  }

  lemma LinesFrom(content: string, i: nat, e: nat, size: nat)
    requires size > 1 && i < e <= |content| && LineEnd(content, i, size - 1) == e
    ensures Lines(content, size, i) == [content[i..e]] + Lines(content, size, e)
  {
  }

  lemma LineBetween(content: string, before: string, line: string, rest: string)
    requires content == before + (line + rest)
    ensures content == before + line + rest && content[|before|..|before + line|] == line
  {
  }

  /** Reading back lines that were written one after the other. */
  lemma {:induction false} LinesRestored(content: string, before: string, lines: seq<string>, size: nat)
    requires size > 1 && forall k :: 0 <= k < |lines| ==> ProperLine(lines[k], size)
    requires content == before + Flatten(lines)
    ensures Lines(content, size, |before|) == lines
    decreases |lines|
  {
    if lines != [] {
      var line, i, e := lines[0], |before|, |before + lines[0]|;
      LineBetween(content, before, line, Flatten(lines[1..]));
      LineEndOf(content, i, e, size - 1);
      LinesFrom(content, i, e, size);
      LinesRestored(content, before + line, lines[1..], size);
    }
  }

  /** One string of fgets: not empty, short enough, a newline at its end only. */
  predicate ShortLine(line: string, size: nat) {
    0 < |line| < size && forall i :: 0 <= i < |line| - 1 ==> line[i] != '\n'
  }

  /** It ended because its line did or the buffer was full. */
  predicate Complete(line: string, size: nat) {
    line != "" && (line[|line| - 1] == '\n' || |line| + 1 == size)
  }

  lemma {:induction false} LineEndIs(content: string, i: nat, room: nat)
    requires i < |content| && room > 0
    ensures var e := LineEnd(content, i, room);
      && i < e && (forall k :: i <= k < e - 1 ==> content[k] != '\n')
      && (e < |content| ==> content[e - 1] == '\n' || e - i == room)
    decreases |content| - i
  {
    if content[i] != '\n' && i + 1 < |content| && room > 1 {
      LineEndIs(content, i + 1, room - 1);
    }
  }

  /** The strings of successive fgets calls are the text, cut behind every newline and wherever the buffer is
      full: no character is lost, and only the last string may end otherwise. */
  lemma {:induction false} LinesAreText(content: string, size: nat, i: nat)
    requires size > 1 && i <= |content|
    ensures var lines := Lines(content, size, i);
      && Flatten(lines) == content[i..]
      && (forall k :: 0 <= k < |lines| ==> ShortLine(lines[k], size))
      && (forall k :: 0 <= k < |lines| - 1 ==> Complete(lines[k], size))
    decreases |content| - i
  {
    if i < |content| {
      var e := LineEnd(content, i, size - 1);
      LineEndIs(content, i, size - 1);
      LinesAreText(content, size, e);
      FirstLine(content[i..e], Lines(content, size, e), size);
      assert content[i..e] + content[e..] == content[i..];
    }
  }

  lemma FirstLine(line: string, rest: seq<string>, size: nat)
    requires ShortLine(line, size) && (rest != [] ==> Complete(line, size))
    requires forall k :: 0 <= k < |rest| ==> ShortLine(rest[k], size)
    requires forall k :: 0 <= k < |rest| - 1 ==> Complete(rest[k], size)
    ensures var lines := [line] + rest;
      && Flatten(lines) == line + Flatten(rest)
      && (forall k :: 0 <= k < |lines| ==> ShortLine(lines[k], size))
      && (forall k :: 0 <= k < |lines| - 1 ==> Complete(lines[k], size))
  {
    assert ([line] + rest)[1..] == rest;
  }
}
