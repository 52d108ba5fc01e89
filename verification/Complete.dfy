/** Command completion: the candidates of a word and what is inserted. */
module Complete {
  import opened Text

  /** MAXPATHLEN, the size of the insert buffer. */
  const MAXPATHLEN := 1024

  // ---- complete_command ----

  /** The names of the table that start with the word, in table order. */
  function Candidates(word: string, table: seq<string>): (ws: seq<string>)
    ensures forall i :: 0 <= i < |ws| ==> word <= ws[i]
  {
    if table == [] then []
    else (if word <= table[0] then [table[0]] else []) + Candidates(word, table[1..])
  }

  lemma CandidatesStep(word: string, table: seq<string>, c: nat, done: seq<string>)
    requires c < |table|
    ensures done + Candidates(word, table[c..])
         == (if word <= table[c] then done + [table[c]] else done) + Candidates(word, table[c + 1..])
  {
    assert table[c..][0] == table[c] && table[c..][1..] == table[c + 1..];
  }

  method Collect(word: string, table: seq<string>) returns (words: seq<string>)
    ensures words == Candidates(word, table)
  {
    words := [];
    var c := 0;
    while c < |table|
      invariant c <= |table| && words + Candidates(word, table[c..]) == Candidates(word, table)
    {
      var name := table[c];
      CandidatesStep(word, table, c, words);
      if |word| <= |name| && name[..|word|] == word {
        words := words + [name];
      }
      c := c + 1;
    }
  }

  // ---- complete_ambiguous ----

  datatype Outcome = Error | Insert(text: string) | List(words: seq<string>)

  /** The first position from j on where a and b differ, or the end of b. */
  function Agree(a: string, b: string, j: nat): (k: nat)
    requires j <= |a| && j <= |b|
    ensures j <= k <= |b| && k <= |a|
    ensures forall i :: j <= i < k ==> a[i] == b[i]
    ensures k < |b| && k < |a| ==> a[k] != b[k]
    decreases |b| - j
  {
    if j < |b| && j < |a| && a[j] == b[j] then Agree(a, b, j + 1) else j
  }

  method Compare(a: string, b: string, wordlen: nat) returns (j: nat)
    requires wordlen <= |a| && wordlen <= |b| && NulFree(b)
    ensures j == Agree(a, b, wordlen)
  {
    j := wordlen;
    while j < |b|
      invariant wordlen <= j <= |b| && j <= |a| && Agree(a, b, j) == Agree(a, b, wordlen)
    {
      if At(a, j) != b[j] {
        break;
      }
      j := j + 1;
    }
  }

  predicate StartsAll(p: string, ws: seq<string>) {
    forall i :: 0 <= i < |ws| ==> p <= ws[i]
  }

  /** p is the longest text all of ws start with. */
  ghost predicate LongestCommon(p: string, ws: seq<string>) {
    StartsAll(p, ws) && forall q: string :: StartsAll(q, ws) ==> |q| <= |p|
  }

  /** Two texts that agree up to k and differ there share no longer prefix. */
  lemma SharedPrefix(a: string, b: string, word: string, q: string)
    requires word <= a && word <= b && q <= a && q <= b
    ensures |q| <= Agree(a, b, |word|)
  {
    assert forall j :: 0 <= j < |q| ==> a[j] == q[j] == b[j];
  }

  lemma PrefixTo(a: string, b: string, word: string, m: nat)
    requires word <= a && word <= b && |word| <= m <= Agree(a, b, |word|)
    ensures a[..m] <= b
  {
    forall i | 0 <= i < m
      ensures a[i] == b[i]
    {
      if i < |word| {
        assert a[i] == word[i] == b[i];
      }
    }
  }

  /** The length the loop arrives at. */
  method MatchLength(word: string, words: seq<string>) returns (matchlen: nat)
    requires words != [] && forall i :: 0 <= i < |words| ==> NulFree(words[i]) && word <= words[i]
    ensures |word| <= matchlen <= |words[0]| && LongestCommon(words[0][..matchlen], words)
  {
    var lastmatch, i := words[0], 1;
    matchlen := |lastmatch|;
    ghost var which := 0;
    while i < |words|
      invariant 1 <= i <= |words| && |word| <= matchlen <= |lastmatch|
      invariant forall k :: 1 <= k < i ==> matchlen <= Agree(lastmatch, words[k], |word|)
      invariant which < |words|
      invariant matchlen == if which == 0 then |lastmatch| else Agree(lastmatch, words[which], |word|)
    {
      var j := Compare(lastmatch, words[i], |word|);
      if j < matchlen {
        matchlen, which := j, i;
      }
      i := i + 1;
    }
    var p := lastmatch[..matchlen];
    forall k | 0 <= k < |words|
      ensures p <= words[k]
    {
      if k > 0 {
        PrefixTo(lastmatch, words[k], word, matchlen);
      }
    }
    forall q: string | StartsAll(q, words)
      ensures |q| <= |p|
    {
      assert q <= words[0] && q <= words[which];
      if which > 0 {
        SharedPrefix(lastmatch, words[which], word, q);
      }
    }
  }

  /** What completion does with the candidates of a word. */
  method CompleteAmbiguous(word: string, list: bool, words: seq<string>) returns (r: Outcome)
    requires forall i :: 0 <= i < |words| ==> NulFree(words[i]) && word <= words[i] && |words[i]| < MAXPATHLEN
    ensures r == Error <==> words == []
    ensures |words| == 1 ==> r == Insert(words[0][|word|..])
    ensures |words| > 1 && r.Insert? ==> !list && r.text != "" && LongestCommon(word + r.text, words)
    ensures |words| > 1 && r.List? ==> r.words == words && (list || LongestCommon(word, words))
  {
    if |words| == 0 {
      return Error;
    }
    if |words| == 1 {
      var insertstr := Strlcpy(words[0], MAXPATHLEN);
      return Insert(insertstr[|word|..]);
    }
    if !list {
      var matchlen := MatchLength(word, words);
      if matchlen > |word| {
        var insertstr := words[0][..matchlen];
        assert insertstr == word + insertstr[|word|..];
        return Insert(insertstr[|word|..]);
      }
      assert words[0][..matchlen] == word;
    }
    return List(words);
  }

  // ---- completion keeps the candidates ----

  lemma {:induction false} SameCandidates(word: string, longer: string, table: seq<string>)
    requires word <= longer && StartsAll(longer, Candidates(word, table))
    ensures Candidates(longer, table) == Candidates(word, table)
  {
    if table != [] {
      var all, rest := Candidates(word, table), Candidates(word, table[1..]);
      if word <= table[0] {
        assert all[0] == table[0];
      } else {
        assert !(longer <= table[0]);
      }
      assert forall i :: 0 <= i < |rest| ==> rest[i] == all[|all| - |rest| + i];
      SameCandidates(word, longer, table[1..]);
    }
  }

  /** Completing a command: what is inserted makes the word the longest common prefix of its candidates,
      and the longer word has the very same candidates. */
  method CompleteCommand(word: string, list: bool, table: seq<string>) returns (r: Outcome)
    requires forall i :: 0 <= i < |table| ==> NulFree(table[i]) && |table[i]| < MAXPATHLEN
    ensures r == Error <==> Candidates(word, table) == []
    ensures r.Insert? ==>
      && Candidates(word + r.text, table) == Candidates(word, table)
      && LongestCommon(word + r.text, Candidates(word, table))
    ensures r.List? ==> r.words == Candidates(word, table) && (list || LongestCommon(word, Candidates(word, table)))
  {
    var words := Collect(word, table);
    CandidatesInTable(word, table);
    r := CompleteAmbiguous(word, list, words);
    if r.Insert? {
      if |words| == 1 {
        assert word + r.text == words[0];
        assert StartsAll(words[0], words);
      }
      SameCandidates(word, word + r.text, table);
    }
  }

  lemma {:induction false} CandidatesInTable(word: string, table: seq<string>)
    ensures forall i :: 0 <= i < |Candidates(word, table)| ==> Candidates(word, table)[i] in table
  {
    if table != [] {
      CandidatesInTable(word, table[1..]);
    }
  }
}
