/**
 A natural-number measure for the depth-first search. Each frame contributes
 (candidates left + 1) in a base larger than any frame's candidate count,
 with the bottom frame most significant, so the number read off a stack
 orders stacks lexicographically: trying a candidate (one fewer left, one
 deeper frame pushed) and popping a frame both make it smaller.
 */
module Termination {

  function Pow(base: nat, e: nat): (r: nat)
    ensures base > 0 ==> r > 0
  {
    if e == 0 then 1 else base * Pow(base, e - 1)
  }

  /** The weight of a stack of remaining-candidate counts of at most `depth` frames. */
  function Weight(rs: seq<nat>, base: nat, depth: nat): nat
    requires |rs| <= depth
  {
    if rs == [] then 0
    else Weight(rs[..|rs| - 1], base, depth) + (rs[|rs| - 1] + 1) * Pow(base, depth - |rs|)
  }

  /** Popping a frame lowers the weight. */
  lemma WeightPop(rs: seq<nat>, r: nat, base: nat, depth: nat)
    requires |rs| + 1 <= depth
    requires base > 0
    ensures Weight(rs, base, depth) < Weight(rs + [r], base, depth)
  {
    assert (rs + [r])[..|rs|] == rs;
  }

  lemma MulLess(a: nat, b: nat, c: nat)
    requires a < b && c > 0
    ensures a * c < b * c
  {
  }

  /**
   Taking one candidate from the top frame and pushing a frame with q
   candidates lowers the weight, provided q + 1 is below the base and the
   deeper stack still fits the depth bound.
   */
  lemma WeightDescend(rs: seq<nat>, r: nat, q: nat, base: nat, depth: nat)
    requires r > 0
    requires q + 1 < base
    requires |rs| + 2 <= depth
    ensures Weight(rs + [r - 1] + [q], base, depth) < Weight(rs + [r], base, depth)
  {
    var p := Pow(base, depth - |rs| - 2);
    assert Pow(base, depth - |rs| - 1) == base * p;
    assert (rs + [r - 1] + [q])[..|rs| + 1] == rs + [r - 1];
    assert (rs + [r - 1])[..|rs|] == rs;
    assert (rs + [r])[..|rs|] == rs;
    MulLess(q + 1, base, p);
    calc {
      Weight(rs + [r - 1] + [q], base, depth);
    ==
      Weight(rs, base, depth) + r * (base * p) + (q + 1) * p;
    <
      Weight(rs, base, depth) + r * (base * p) + base * p;
    ==
      Weight(rs, base, depth) + (r + 1) * (base * p);
    ==
      Weight(rs + [r], base, depth);
    }
  }
}
