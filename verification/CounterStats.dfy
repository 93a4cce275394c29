/** Counter statistics: the incremental form and the fold over raw values that it must agree with. */
module CounterStats {
  import opened Texts

  /** One interface-counter update: its numeric fields by name. */
  datatype Sample = Sample(target: string, ifName: string, fields: map<string, int>)

  datatype Stats = Stats(min: int, max: int, sum: real, count: nat, first: int, last: int)

  // ------------------------------------------------------ the simple folds

  function MinOf(vs: seq<int>): int
    requires vs != []
  {
    var v := vs[|vs| - 1];
    if |vs| == 1 then v else var m := MinOf(vs[..|vs| - 1]); if v < m then v else m
  }

  function MaxOf(vs: seq<int>): int
    requires vs != []
  {
    var v := vs[|vs| - 1];
    if |vs| == 1 then v else var m := MaxOf(vs[..|vs| - 1]); if v > m then v else m
  }

  function SumOf(vs: seq<int>): real {
    if vs == [] then 0.0 else SumOf(vs[..|vs| - 1]) + vs[|vs| - 1] as real
  }

  function StatsOf(vs: seq<int>): Stats
    requires vs != []
  {
    Stats(MinOf(vs), MaxOf(vs), SumOf(vs), |vs|, vs[0], vs[|vs| - 1])
  }

  // ------------------------------------------------------ the incremental form

  function Seed(v: int): Stats {
    Stats(v, v, 0.0, 0, v, v)
  }

  function Record(s: Stats, v: int): Stats {
    Stats(if v < s.min then v else s.min, if v > s.max then v else s.max, s.sum + v as real, s.count + 1, s.first, v)
  }

  lemma RecordFirst(v: int)
    ensures Record(Seed(v), v) == StatsOf([v])
  {
    assert [v][..0] == [];
    assert SumOf([v]) == SumOf([]) + v as real;
  }

  /** One incremental update is one more value in the fold. */
  lemma RecordNext(vs: seq<int>, v: int)
    requires vs != []
    ensures Record(StatsOf(vs), v) == StatsOf(vs + [v])
  {
    assert (vs + [v])[..|vs|] == vs;
  }

  lemma {:induction false} MinIsLeast(vs: seq<int>)
    requires vs != []
    ensures MinOf(vs) in vs && forall i :: 0 <= i < |vs| ==> MinOf(vs) <= vs[i]
  {
    if |vs| > 1 { MinIsLeast(vs[..|vs| - 1]); }
  }

  lemma {:induction false} MaxIsGreatest(vs: seq<int>)
    requires vs != []
    ensures MaxOf(vs) in vs && forall i :: 0 <= i < |vs| ==> vs[i] <= MaxOf(vs)
  {
    if |vs| > 1 { MaxIsGreatest(vs[..|vs| - 1]); }
  }

  lemma {:induction false} SumBetween(vs: seq<int>, lo: int, hi: int)
    requires forall i :: 0 <= i < |vs| ==> lo <= vs[i] <= hi
    ensures |vs| as real * lo as real <= SumOf(vs) <= |vs| as real * hi as real
  {
    if vs != [] {
      SumBetween(vs[..|vs| - 1], lo, hi);
      OneMore((|vs| - 1) as real, lo as real);
      OneMore((|vs| - 1) as real, hi as real);
      assert |vs| as real == (|vs| - 1) as real + 1.0;
    }
  }

  /** The sum of one value is the value; the sum of two runs is the sum of their sums. */
  lemma {:induction false} SumIsAdditive(a: seq<int>, b: seq<int>, v: int)
    ensures SumOf([]) == 0.0 && SumOf([v]) == v as real
    ensures SumOf(a + b) == SumOf(a) + SumOf(b)
  {
    assert [v][..0] == [];
    if b == [] {
      assert a + b == a;
    } else {
      SumIsAdditive(a, b[..|b| - 1], v);
      assert (a + b)[..|a + b| - 1] == a + b[..|b| - 1];
    }
  }

  lemma TakeOut(b: seq<int>, i: nat)
    requires i < |b|
    ensures multiset(b) == multiset(b[..i] + b[i + 1..]) + multiset{b[i]}
    ensures SumOf(b) == SumOf(b[..i] + b[i + 1..]) + b[i] as real
  {
    hide SumOf;
    var (p, v, q) := (b[..i], b[i], b[i + 1..]);
    assert b == p + ([v] + q);
    SumIsAdditive(p, [v] + q, v);
    SumIsAdditive([v], q, v);
    SumIsAdditive(p, q, v);
  }

  /** The sum is of the values as a collection: neither the order nor the grouping of updates changes it. */
  lemma {:induction false} SumOfMultiset(a: seq<int>, b: seq<int>)
    requires multiset(a) == multiset(b)
    ensures |a| == |b| && SumOf(a) == SumOf(b)
  {
    hide SumOf;
    assert |a| == |multiset(a)| == |multiset(b)| == |b|;
    if a != [] {
      var v := a[|a| - 1];
      TakeOut(a, |a| - 1);
      assert a[..|a| - 1] + a[|a|..] == a[..|a| - 1];
      assert v in multiset(b);
      var i :| 0 <= i < |b| && b[i] == v;
      TakeOut(b, i);
      assert multiset(a[..|a| - 1]) == multiset(a) - multiset{v};
      assert multiset(b[..i] + b[i + 1..]) == multiset(b) - multiset{v};
      SumOfMultiset(a[..|a| - 1], b[..i] + b[i + 1..]);
    }
  }

  lemma OneMore(n: real, x: real)
    ensures (n + 1.0) * x == n * x + x
  {
  }

  function Mean(vs: seq<int>): real
    requires vs != []
  {
    SumOf(vs) / |vs| as real
  }

  /** The mean times the number of values is their sum, and it is the same for every order of the values. */
  lemma MeanOfMultiset(a: seq<int>, b: seq<int>)
    requires a != [] && multiset(a) == multiset(b)
    ensures b != [] && Mean(a) == Mean(b) && Mean(a) * |a| as real == SumOf(b)
  {
    SumOfMultiset(a, b);
  }

  /** The mean lies between the minimum and the maximum. */
  lemma MeanBetween(vs: seq<int>)
    requires vs != []
    ensures MinOf(vs) as real <= Mean(vs) <= MaxOf(vs) as real
  {
    hide MinOf, MaxOf, SumOf;
    MinIsLeast(vs);
    MaxIsGreatest(vs);
    SumBetween(vs, MinOf(vs), MaxOf(vs));
    QuotientBetween(MinOf(vs) as real, MaxOf(vs) as real, |vs| as real, SumOf(vs));
  }

  lemma QuotientBetween(lo: real, hi: real, n: real, sum: real)
    requires n > 0.0 && n * lo <= sum <= n * hi
    ensures lo <= sum / n <= hi
  {
    assert (sum / n) * n == sum;
  }

  // ------------------------------------------------------ values of one counter

  /** The values of counter `name` in a run of samples, in order. */
  function Values(samples: seq<Sample>, name: string): seq<int> {
    if samples == [] then []
    else
      var rest := Values(samples[..|samples| - 1], name);
      var fields := samples[|samples| - 1].fields;
      if name in fields then rest + [fields[name]] else rest
  }

  lemma ValuesExtend(samples: seq<Sample>, s: Sample, name: string)
    ensures Values(samples + [s], name) ==
            if name in s.fields then Values(samples, name) + [s.fields[name]] else Values(samples, name)
  {
    assert (samples + [s])[..|samples|] == samples;
  }

  /** A sample contributes its value of the counter, or nothing; runs of samples contribute in order. */
  lemma {:induction false} ValuesConcatenate(a: seq<Sample>, b: seq<Sample>, s: Sample, name: string)
    ensures Values([], name) == []
    ensures Values([s], name) == if name in s.fields then [s.fields[name]] else []
    ensures Values(a + b, name) == Values(a, name) + Values(b, name)
  {
    assert [s][..0] == [];
    if b == [] {
      assert a + b == a;
    } else {
      ValuesConcatenate(a, b[..|b| - 1], s, name);
      assert (a + b)[..|a + b| - 1] == a + b[..|b| - 1];
    }
  }

  // ------------------------------------------------------ the map key

  function KeyOf(target: string, ifName: string): string {
    target + [0 as char] + ifName
  }

  /** The key identifies the interface whenever targets hold no NUL character. */
  lemma KeyInjective(t1: string, i1: string, t2: string, i2: string)
    requires (0 as char) !in t1 && (0 as char) !in t2 && KeyOf(t1, i1) == KeyOf(t2, i2)
    ensures t1 == t2 && i1 == i2
  {
    CutUnique(t1, t2, 0 as char, i1, i2);
  }

  // ------------------------------------------------------ the 64-bit difference

  const TWO_63: int := 0x8000_0000_0000_0000

  /** Subtraction of two 64-bit counters, wrapping around. */
  function Delta(first: int, last: int): int {
    (last - first + TWO_63) % (2 * TWO_63) - TWO_63
  }

  predicate IsI64(v: int) {
    -TWO_63 <= v < TWO_63
  }

  /** The difference is exact precisely when it fits, and so for all counters that are not negative. */
  lemma DeltaExact(first: int, last: int)
    requires IsI64(first) && IsI64(last)
    ensures Delta(first, last) == last - first <==> IsI64(last - first)
    ensures first >= 0 && last >= 0 ==> Delta(first, last) == last - first
    ensures -0x8000_0000_0000_0000 <= Delta(first, last) < 0x8000_0000_0000_0000
    ensures (Delta(first, last) - (last - first)) % 0x1_0000_0000_0000_0000 == 0
  {
  }
}
