/** The case-insensitive search with which a bit file's part is compared to the board's. */
module PartName {
  import opened Wrappers

  /** tolower in the C locale. */
  function Lower(c: char): char {
    if 'A' <= c <= 'Z' then (c as int + 32) as char else c
  }

  /** The same character, or the small and the capital form of one letter. */
  predicate SameLetter(x: char, y: char) {
    || x == y
    || ('A' <= x <= 'Z' && y as int - 'a' as int == x as int - 'A' as int)
    || ('A' <= y <= 'Z' && x as int - 'a' as int == y as int - 'A' as int)
  }

  lemma LowerFolds(x: char, y: char)
    ensures Lower(x) == Lower(y) <==> SameLetter(x, y)
  {
    assert Lower(x) as int == Lower(y) as int <==> Lower(x) == Lower(y);
  }

  /** str2 occurs at i, upper and lower case being the same. */
  predicate OccursAt(str1: string, str2: string, i: nat) {
    i + |str2| <= |str1| && forall j | 0 <= j < |str2| :: SameLetter(str1[i + j], str2[j])
  }

  /** Where a candidate started at r, or will start, for a search that has come to p1. */
  function Candidate(r: Option<nat>, p1: nat): nat {
    if r.Some? then r.value else p1
  }

  /** stristr: the position of the first occurrence, if there is one. */
  method Stristr(str1: string, str2: string) returns (found: Option<nat>)
    requires '\0' !in str1 && '\0' !in str2
    ensures found.Some? ==> OccursAt(str1, str2, found.value)
    ensures found.Some? ==> forall i | 0 <= i < found.value :: !OccursAt(str1, str2, i)
    ensures found.None? ==> forall i: nat :: !OccursAt(str1, str2, i)
  {
    var p1, p2 := 0, 0;
    var r: Option<nat> := if str2 == "" then Some(0) else None;
    while p1 < |str1| && p2 < |str2|
      invariant 0 <= p1 <= |str1| && 0 <= p2 <= |str2|
      invariant r.None? <==> p2 == 0 && str2 != ""
      invariant r.Some? ==> p1 == r.value + p2
      invariant r.Some? ==> forall j | 0 <= j < p2 :: SameLetter(str1[r.value + j], str2[j])
      invariant forall i | 0 <= i < Candidate(r, p1) :: !OccursAt(str1, str2, i)
      decreases |str1| - Candidate(r, p1), |str1| - p1
    {
      LowerFolds(str1[p1], str2[p2]);
      if Lower(str1[p1]) == Lower(str2[p2]) {
        if r.None? {
          r := Some(p1);
        }
        p2 := p2 + 1;
      } else {
        Mismatch(str1, str2, Candidate(r, p1), p2);
        p2 := 0;
        if r.Some? {
          p1 := r.value + 1;
        }
        LowerFolds(str1[p1], str2[p2]);
        if Lower(str1[p1]) == Lower(str2[p2]) {
          r := Some(p1);
          p2 := p2 + 1;
        } else {
          Mismatch(str1, str2, p1, 0);
          r := None;
        }
      }
      p1 := p1 + 1;
    }
    found := if p2 == |str2| then r else None;
  }

  /** A candidate that fails at one character is no occurrence. */
  lemma Mismatch(str1: string, str2: string, i: nat, j: nat)
    requires j < |str2| && i + j < |str1| && !SameLetter(str1[i + j], str2[j])
    ensures !OccursAt(str1, str2, i)
  {
  }

  /** The check of the updater: the search ends at the start exactly when one name begins with the other. */
  method MatchesPart(part: string, board: string) returns (same: bool)
    requires '\0' !in part && '\0' !in board
    ensures same <==> |board| <= |part| && forall j | 0 <= j < |board| :: SameLetter(part[j], board[j])
  {
    hide SameLetter;
    var found := Stristr(part, board);
    same := found == Some(0);
    assert OccursAt(part, board, 0)
      <==> |board| <= |part| && forall j | 0 <= j < |board| :: SameLetter(part[0 + j], board[j]);
  }
}
