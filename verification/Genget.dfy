/** Abbreviation lookup: isprefix, genget and Ambiguous. */
module Abbreviations {
  import opened Text

  datatype Lookup = NotFound | Ambiguous | Found(row: nat)

  /** name written in full, in any case; the empty name counts as an exact match of every row. */
  predicate Exact(name: string, entry: string) {
    name == "" || SameWord(name, entry)
  }

  /** name is a proper abbreviation of entry, in any case. */
  predicate Extends(name: string, entry: string) {
    0 < |name| < |entry| && forall i :: 0 <= i < |name| ==> LowerChar(name[i]) == LowerChar(entry[i])
  }

  /** What isprefix returns: -length for an exact match, length for an abbreviation, else 0. */
  function PrefixCode(name: string, entry: string): int {
    if name == "" then -1
    else if Exact(name, entry) then -|name|
    else if Extends(name, entry) then |name|
    else 0
  }

  method Isprefix(s1: string, s2: string) returns (n: int)
    requires NulFree(s1) && NulFree(s2)
    ensures n == PrefixCode(s1, s2)
    ensures s1 == "" ==> n == -1
    ensures s1 != "" ==> n == -|s1| || n == 0 || n == |s1|
  {
    if At(s1, 0) == NUL {
      return -1;
    }
    var i := 0;
    var c1, c2 := At(s1, 0), At(s2, 0);
    while LowerChar(c1) == LowerChar(c2)
      invariant i <= |s1| && i <= |s2|
      invariant c1 == At(s1, i) && c2 == At(s2, i)
      invariant forall k :: 0 <= k < i ==> LowerChar(s1[k]) == LowerChar(s2[k])
      decreases |s1| - i
    {
      if c1 == NUL {
        break;
      }
      i := i + 1;
      c1, c2 := At(s1, i), At(s2, i);
    }
    n := if At(s1, i) != NUL then 0 else if At(s2, i) != NUL then i else -i;
  }

  /** The first row the name matches exactly, or the number of rows. */
  function FirstExact(name: string, table: seq<string>): (e: nat)
    ensures e <= |table|
    ensures e < |table| ==> Exact(name, table[e])
    ensures forall i :: 0 <= i < e ==> !Exact(name, table[i])
  {
    if table == [] || Exact(name, table[0]) then 0 else 1 + FirstExact(name, table[1..])
  }

  /** The first row in [from, end) the name properly abbreviates, or end. */
  function NextExtension(name: string, table: seq<string>, from: nat, end: nat): (i: nat)
    requires from <= end <= |table|
    ensures from <= i <= end
    ensures i < end ==> Extends(name, table[i])
    ensures forall j :: from <= j < i ==> !Extends(name, table[j])
    decreases end - from
  {
    if from == end || Extends(name, table[from]) then from
    else NextExtension(name, table, from + 1, end)
  }

  /** What a name means in a table: two abbreviated rows before any exact match make it
      ambiguous, otherwise an exact match wins, otherwise the only abbreviated row. */
  function Resolve(name: string, table: seq<string>): (r: Lookup)
    ensures r.Found? ==> r.row < |table|
  {
    var e := FirstExact(name, table);
    var a := NextExtension(name, table, 0, e);
    if a < e && NextExtension(name, table, a + 1, e) < e then Ambiguous
    else if e < |table| then Found(e)
    else if a < e then Found(a)
    else NotFound
  }

  /** The table scan; a NULL name finds nothing. */
  method Genget(name: Option<string>, table: seq<string>) returns (r: Lookup)
    requires name.Some? ==> NulFree(name.value)
    requires forall i :: 0 <= i < |table| ==> NulFree(table[i])
    ensures r == if name.None? then NotFound else Resolve(name.value, table)
  {
    if name.None? {
      return NotFound;
    }
    var found := NotFound;
    var c := 0;
    ghost var e := FirstExact(name.value, table);
    ghost var a := NextExtension(name.value, table, 0, e);
    while c < |table|
      invariant 0 <= c <= e
      invariant found == if a < c then Found(a) else NotFound
      invariant forall j :: a < j < c ==> !Extends(name.value, table[j])
    {
      var n := Isprefix(name.value, table[c]);
      if n != 0 {
        if n < 0 {
          return Found(c);
        }
        if found.Found? {
          assert NextExtension(name.value, table, a + 1, e) <= c;
          return Ambiguous;
        }
        found := Found(c);
      }
      c := c + 1;
    }
    return found;
  }

  /** The whole meaning of a lookup, row by row. */
  lemma ResolveCharacterised(name: string, table: seq<string>)
    ensures var r := Resolve(name, table);
      && (r == Ambiguous <==> (exists i, j ::
            && 0 <= i < j < |table| && Extends(name, table[i]) && Extends(name, table[j])
            && (forall k :: 0 <= k < j ==> !Exact(name, table[k]))))
      && (forall e :: 0 <= e < |table| ==> (r == Found(e) && Exact(name, table[e]) <==>
            && Exact(name, table[e])
            && (forall k :: 0 <= k < e ==> !Exact(name, table[k]))
            && (forall i, j :: 0 <= i < j < e ==> !(Extends(name, table[i]) && Extends(name, table[j])))))
      && (forall e :: 0 <= e < |table| ==> (r == Found(e) && !Exact(name, table[e]) <==>
            && Extends(name, table[e])
            && (forall k :: 0 <= k < |table| ==> !Exact(name, table[k]))
            && (forall k :: 0 <= k < |table| && k != e ==> !Extends(name, table[k]))))
      && (r == NotFound <==> (forall k :: 0 <= k < |table| ==> !Exact(name, table[k]) && !Extends(name, table[k])))
  {
    var e := FirstExact(name, table);
    var a := NextExtension(name, table, 0, e);
    if a < e {
      var b := NextExtension(name, table, a + 1, e);
      if b < e {
        assert Extends(name, table[a]) && Extends(name, table[b]);
      }
    }
  }

  /** name stands for row i: it is the first row written in full and at most one row before it is properly
      abbreviated, or no row is written in full and it is the only one properly abbreviated. */
  predicate StandsFor(name: string, table: seq<string>, i: nat) {
    && i < |table|
    && (if Exact(name, table[i]) then
          && (forall k :: 0 <= k < i ==> !Exact(name, table[k]))
          && (forall k, l :: 0 <= k < l < i ==> !(Extends(name, table[k]) && Extends(name, table[l])))
        else
          && Extends(name, table[i])
          && (forall k :: 0 <= k < |table| ==> !Exact(name, table[k]) && (k != i ==> !Extends(name, table[k]))))
  }

  /** No row begins with name. */
  predicate Unmatched(name: string, table: seq<string>) {
    forall k :: 0 <= k < |table| ==> !Exact(name, table[k]) && !Extends(name, table[k])
  }

  lemma LookupIs(name: string, table: seq<string>)
    ensures Resolve(name, table) == NotFound <==> Unmatched(name, table)
    ensures forall i: nat :: Resolve(name, table) == Found(i) <==> StandsFor(name, table, i)
    ensures Resolve(name, table) == Ambiguous <==>
      !Unmatched(name, table) && forall i: nat :: i < |table| ==> !StandsFor(name, table, i)
  {
    ResolveCharacterised(name, table);
    forall i: nat
      ensures Resolve(name, table) == Found(i) <==> StandsFor(name, table, i)
    {
    }
  }

  /** Hence a full name finds its own row in every table where no row comes after two of its
      proper extensions and none repeats a name. */
  lemma FullNameResolves(table: seq<string>, e: nat)
    requires e < |table| && table[e] != ""
    requires forall k :: 0 <= k < e ==> !SameWord(table[k], table[e])
    requires forall i, j :: 0 <= i < j < e ==> !(Extends(table[e], table[i]) && Extends(table[e], table[j]))
    ensures Resolve(table[e], table) == Found(e)
  {
    ResolveCharacterised(table[e], table);
  }

  /** The empty name is row 0 of any table that has one. */
  lemma EmptyNameResolves(table: seq<string>)
    ensures Resolve("", table) == if table == [] then NotFound else Found(0)
  {
    ResolveCharacterised("", table);
  }

  /** A longer abbreviation of the same row never loses it: if a name is the only way to reach a
      row by abbreviation, so is every longer abbreviation of that row. */
  lemma LongerAbbreviationKeepsRow(name: string, longer: string, table: seq<string>, e: nat)
    requires Resolve(name, table) == Found(e) && !Exact(name, table[e])
    requires Extends(longer, table[e]) && |name| <= |longer|
    requires forall k :: 0 <= k < |table| ==> !Exact(longer, table[k])
    ensures Resolve(longer, table) == Found(e)
  {
    ResolveCharacterised(name, table);
    ResolveCharacterised(longer, table);
  }
}
