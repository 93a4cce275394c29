/** Sequences of values over time. */
module Histories {

  /** `xs` with adjacent repeats removed. */
  function Compact<T(==)>(xs: seq<T>): seq<T> {
    if |xs| <= 1 then xs
    else if xs[|xs| - 1] == xs[|xs| - 2] then Compact(xs[..|xs| - 1])
    else Compact(xs[..|xs| - 1]) + [xs[|xs| - 1]]
  }

  lemma CompactExtends<T>(xs: seq<T>, x: T)
    requires xs != []
    ensures Compact(xs + [x]) == if x == xs[|xs| - 1] then Compact(xs) else Compact(xs) + [x]
  {
    assert (xs + [x])[..|xs|] == xs;
  }

  /** Compacting keeps both ends and leaves no two neighbours equal. */
  lemma {:induction false} CompactFacts<T>(xs: seq<T>)
    requires xs != []
    ensures var ys := Compact(xs);
            && ys != [] && ys[0] == xs[0] && ys[|ys| - 1] == xs[|xs| - 1]
            && (forall i :: 0 <= i < |ys| - 1 ==> ys[i] != ys[i + 1])
  {
    if |xs| > 1 { CompactFacts(xs[..|xs| - 1]); }
  }
}
