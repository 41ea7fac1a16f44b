/** The smaller and the larger of two numbers, and sums. */
module Numbers {

  function Min(a: int, b: int): int {
    if a <= b then a else b
  }

  function Max(a: int, b: int): int {
    if a >= b then a else b
  }

  function Sum(counts: seq<nat>): nat {
    if counts == [] then 0 else Sum(counts[..|counts| - 1]) + counts[|counts| - 1]
  }

  lemma SumNext(counts: seq<nat>, x: nat)
    ensures Sum(counts + [x]) == Sum(counts) + x
  {
    assert (counts + [x])[..|counts|] == counts;
  }
}
