/** The interpolated percentile of the detection report. */
module Percentiles {
  import opened Options

  function Insert(s: seq<real>, x: real): seq<real> {
    if s == [] || s[|s| - 1] <= x then s + [x] else Insert(s[..|s| - 1], x) + [s[|s| - 1]]
  }

  function Sorted(vs: seq<real>): seq<real> {
    if vs == [] then [] else Insert(Sorted(vs[..|vs| - 1]), vs[|vs| - 1])
  }

  predicate Ascending(s: seq<real>) {
    forall i, j :: 0 <= i <= j < |s| ==> s[i] <= s[j]
  }

  lemma {:induction false} InsertPermutes(s: seq<real>, x: real)
    ensures multiset(Insert(s, x)) == multiset(s) + multiset{x} && |Insert(s, x)| == |s| + 1
  {
    if s != [] && s[|s| - 1] > x {
      InsertPermutes(s[..|s| - 1], x);
      assert s == s[..|s| - 1] + [s[|s| - 1]];
    }
  }

  lemma {:induction false} InsertAscends(s: seq<real>, x: real)
    requires Ascending(s)
    ensures Ascending(Insert(s, x))
    ensures forall i :: 0 <= i < |Insert(s, x)| ==> Insert(s, x)[i] == x || Insert(s, x)[i] in s
  {
    if s != [] && s[|s| - 1] > x { InsertAscends(s[..|s| - 1], x); }
  }

  lemma {:induction false} SortedSorts(vs: seq<real>)
    ensures Ascending(Sorted(vs)) && multiset(Sorted(vs)) == multiset(vs) && |Sorted(vs)| == |vs|
  {
    if vs != [] {
      SortedSorts(vs[..|vs| - 1]);
      InsertPermutes(Sorted(vs[..|vs| - 1]), vs[|vs| - 1]);
      InsertAscends(Sorted(vs[..|vs| - 1]), vs[|vs| - 1]);
      assert vs == vs[..|vs| - 1] + [vs[|vs| - 1]];
    }
  }

  /** The value at position `x` of a list, between its neighbours in proportion. */
  function Interpolate(s: seq<real>, x: real): real
    requires s != [] && 0.0 <= x <= (|s| - 1) as real
  {
    var lo := x.Floor;
    var hi := if lo + 1 < |s| - 1 then lo + 1 else |s| - 1;
    var frac := x - lo as real;
    s[lo] * (1.0 - frac) + s[hi] * frac
  }

  function Position(n: nat, p: real): (x: real)
    requires n > 0 && 0.0 <= p <= 100.0
    ensures 0.0 <= x <= (n - 1) as real
  {
    PositionInRange(n, p);
    p / 100.0 * (n - 1) as real
  }

  lemma PositionInRange(n: nat, p: real)
    requires n > 0 && 0.0 <= p <= 100.0
    ensures 0.0 <= p / 100.0 * (n - 1) as real <= (n - 1) as real
  {
    Scale(p / 100.0, 1.0, (n - 1) as real);
    Scale(0.0, p / 100.0, (n - 1) as real);
  }

  lemma Scale(a: real, b: real, m: real)
    requires a <= b && m >= 0.0
    ensures a * m <= b * m
  {
    assert (b - a) * m >= 0.0;
  }

  /** The percentile of a list, or nothing for the empty one. */
  function Percentile(vs: seq<real>, p: real): Option<real>
    requires 0.0 <= p <= 100.0
  {
    if vs == [] then None
    else
      SortedSorts(vs);
      Some(Interpolate(Sorted(vs), Position(|vs|, p)))
  }

  // ------------------------------------------------------------------- bounds

  /** A mixture is the lower value plus a share of the gap. */
  lemma MixIsShare(a: real, b: real, f: real)
    ensures a * (1.0 - f) + b * f == a + f * (b - a)
  {
  }

  lemma MixBetween(a: real, b: real, f: real)
    requires a <= b && 0.0 <= f <= 1.0
    ensures a <= a * (1.0 - f) + b * f <= b
  {
    MixIsShare(a, b, f);
    Scale(0.0, f, b - a);
    Scale(f, 1.0, b - a);
  }

  lemma InterpolateBetween(s: seq<real>, x: real)
    requires Ascending(s) && s != [] && 0.0 <= x <= (|s| - 1) as real
    ensures s[x.Floor] <= Interpolate(s, x)
    ensures Interpolate(s, x) <= s[if x.Floor + 1 < |s| - 1 then x.Floor + 1 else |s| - 1]
  {
    var lo := x.Floor;
    var hi := if lo + 1 < |s| - 1 then lo + 1 else |s| - 1;
    MixBetween(s[lo], s[hi], x - lo as real);
  }

  /** The percentile lies between the least and the greatest value. */
  lemma PercentileBetween(vs: seq<real>, p: real)
    requires vs != [] && 0.0 <= p <= 100.0
    ensures var s := Sorted(vs);
            && |s| == |vs| && multiset(s) == multiset(vs)
            && s[0] <= Percentile(vs, p).value <= s[|s| - 1]
            && (forall i :: 0 <= i < |vs| ==> s[0] <= vs[i] <= s[|s| - 1])
  {
    SortedSorts(vs);
    var s := Sorted(vs);
    InterpolateBetween(s, Position(|vs|, p));
    forall i | 0 <= i < |vs| ensures s[0] <= vs[i] <= s[|s| - 1] {
      assert vs[i] in multiset(vs);
      assert vs[i] in multiset(s);
    }
  }

  // ------------------------------------------------------------------- exact values

  lemma PositionOfRank(n: nat, p: real, x: real)
    requires n > 0 && 0.0 <= p <= 100.0 && p * (n - 1) as real == 100.0 * x
    ensures Position(n, p) == x
  {
    var m := (n - 1) as real;
    assert p / 100.0 * m == p * m / 100.0;
  }

  lemma InterpolateAtRank(s: seq<real>, k: nat, f: real)
    requires k + 1 < |s| && 0.0 <= f <= 1.0
    ensures Interpolate(s, k as real + f) == s[k] + f * (s[k + 1] - s[k])
  {
    if f == 1.0 {
      assert (k as real + f).Floor == k + 1;
      MixIsShare(s[k + 1], s[if k + 2 < |s| - 1 then k + 2 else |s| - 1], 0.0);
    } else {
      assert (k as real + f).Floor == k;
      MixIsShare(s[k], s[k + 1], f);
    }
  }

  lemma InterpolateAtEnds(s: seq<real>)
    requires s != []
    ensures Interpolate(s, 0.0) == s[0] && Interpolate(s, (|s| - 1) as real) == s[|s| - 1]
  {
    var hi := if 1 < |s| - 1 then 1 else |s| - 1;
    MixIsShare(s[0], s[hi], 0.0);
    assert ((|s| - 1) as real).Floor == |s| - 1;
    MixIsShare(s[|s| - 1], s[|s| - 1], 0.0);
  }

  /**
    With `n` values, the percentile `p` with `p * (n - 1) == 100 * (k + f)` lies the share `f` of the
    way from the `k`-th to the next value in ascending order.
   */
  lemma PercentileAtRank(vs: seq<real>, p: real, k: nat, f: real)
    requires k + 1 < |vs| && 0.0 <= p <= 100.0 && 0.0 <= f <= 1.0
    requires p * (|vs| - 1) as real == 100.0 * (k as real + f)
    ensures var s := Sorted(vs);
            |s| == |vs| && Percentile(vs, p).value == s[k] + f * (s[k + 1] - s[k])
  {
    hide Sorted, Position, Interpolate;
    SortedSorts(vs);
    PositionOfRank(|vs|, p, k as real + f);
    InterpolateAtRank(Sorted(vs), k, f);
  }

  /** The percentile at 0 is the least value, the one at 100 the greatest; no values have none. */
  lemma PercentileAtEnds(vs: seq<real>)
    requires vs != []
    ensures forall p :: 0.0 <= p <= 100.0 ==> Percentile([], p).None? && Percentile(vs, p).Some?
    ensures Percentile(vs, 0.0).value in vs && forall i :: 0 <= i < |vs| ==> Percentile(vs, 0.0).value <= vs[i]
    ensures Percentile(vs, 100.0).value in vs && forall i :: 0 <= i < |vs| ==> vs[i] <= Percentile(vs, 100.0).value
  {
    SortedSorts(vs);
    var s := Sorted(vs);
    assert Position(|vs|, 0.0) == 0.0 && Position(|vs|, 100.0) == (|vs| - 1) as real;
    hide Sorted, Position, Interpolate;
    InterpolateAtEnds(s);
    assert s[0] in multiset(s) && s[|s| - 1] in multiset(s);
    assert s[0] in multiset(vs) && s[|s| - 1] in multiset(vs);
    PercentileBetween(vs, 0.0);
    PercentileBetween(vs, 100.0);
  }

  // ------------------------------------------------------------------- monotony

  lemma MixMonotone(a: real, b: real, f: real, g: real)
    requires a <= b && f <= g
    ensures a * (1.0 - f) + b * f <= a * (1.0 - g) + b * g
  {
    Scale(f, g, b - a);
    MixIsShare(a, b, f);
    MixIsShare(a, b, g);
  }

  lemma InterpolateMonotone(s: seq<real>, x: real, y: real)
    requires Ascending(s) && s != [] && 0.0 <= x <= y <= (|s| - 1) as real
    ensures Interpolate(s, x) <= Interpolate(s, y)
  {
    if x.Floor == y.Floor {
      var lo := x.Floor;
      var hi := if lo + 1 < |s| - 1 then lo + 1 else |s| - 1;
      MixMonotone(s[lo], s[hi], x - lo as real, y - lo as real);
    } else {
      InterpolateBetween(s, x);
      InterpolateBetween(s, y);
    }
  }

  lemma PositionMonotone(n: nat, p: real, q: real)
    requires n > 0 && 0.0 <= p <= q <= 100.0
    ensures Position(n, p) <= Position(n, q)
  {
    var m := (n - 1) as real;
    var a, b := p / 100.0, q / 100.0;
    calc {
      Position(n, p);
      a * m;
    <= { Scale(a, b, m); }
      b * m;
      Position(n, q);
    }
  }

  /** A higher percentile is never a smaller value. */
  lemma PercentileMonotone(vs: seq<real>, p: real, q: real)
    requires vs != [] && 0.0 <= p <= q <= 100.0
    ensures Percentile(vs, p).value <= Percentile(vs, q).value
  {
    SortedSorts(vs);
    PositionMonotone(|vs|, p, q);
    InterpolateMonotone(Sorted(vs), Position(|vs|, p), Position(|vs|, q));
  }
}
