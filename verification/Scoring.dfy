/** Matching injected faults with detections, and the accounts that the report is built on. */
module Scoring {
  import opened Options

  const GRACE_NS: int := 30_000_000_000
  const OPEN_WINDOW_NS: int := 300_000_000_000

  /** A detection; a target or hostname that it does not have is empty. */
  datatype Detection = Detection(target: string, hostname: string, rule: string, at: Option<int>, cleared: Option<int>)

  /** The hostname of a fault: absent from the record, present without a value, or a name. */
  datatype Host = Absent | Null | Named(name: string)

  datatype Fault = Fault(host: Host, kind: string, injected: Option<int>, healed: Option<int>)

  /** Where a detection is indexed: under its target, else its hostname, else the empty name. */
  function Key(d: Detection): string {
    if d.target != "" then d.target else d.hostname
  }

  /** Where a fault looks for detections: an absent hostname counts as the empty name. */
  function LookupKey(f: Fault): Option<string> {
    match f.host
    case Absent => Some("")
    case Null => None
    case Named(name) => Some(name)
  }

  datatype Row = Row(tp: nat, fp: nat, fn: nat, latencies: seq<int>, clears: seq<int>)

  const Zero := Row(0, 0, 0, [], [])

  type Stats = map<string, Row>

  function RowOf(stats: Stats, kind: string): Row {
    if kind in stats then stats[kind] else Zero
  }

  /** A heal time of zero counts as none. */
  predicate IsHealed(f: Fault) {
    f.healed.Some? && f.healed.value != 0
  }

  function WindowEnd(f: Fault): int
    requires f.injected.Some?
  {
    if IsHealed(f) then f.healed.value + GRACE_NS else f.injected.value + OPEN_WINDOW_NS
  }

  predicate InWindow(f: Fault, d: Detection) {
    f.injected.Some? && d.at.Some? && f.injected.value <= d.at.value <= WindowEnd(f)
  }

  /** The detection is one that the fault may be matched with. */
  predicate Hits(f: Fault, d: Detection) {
    LookupKey(f) == Some(Key(d)) && InWindow(f, d)
  }

  /** The fault was active on the detection's target, its hostname notwithstanding, at its time. */
  predicate Covers(f: Fault, d: Detection) {
    f.host == Named(d.target) && InWindow(f, d)
  }

  ghost predicate Covered(fs: seq<Fault>, d: Detection) {
    exists i :: 0 <= i < |fs| && Covers(fs[i], d)
  }

  // ------------------------------------------------------------------- the meaning

  /** The first detection on the fault's host inside its window, or the number of detections. */
  function FirstHit(f: Fault, ds: seq<Detection>): (n: nat)
    ensures n <= |ds|
    ensures n < |ds| ==> Hits(f, ds[n])
    ensures forall i :: 0 <= i < n ==> !Hits(f, ds[i])
  {
    if ds == [] then 0
    else
      var n := FirstHit(f, ds[..|ds| - 1]);
      if n < |ds| - 1 then n
      else if Hits(f, ds[n]) then n else |ds|
  }

  function ClearTime(f: Fault, d: Detection): seq<int> {
    if IsHealed(f) && d.cleared.Some? && d.cleared.value != 0 && d.cleared.value > f.healed.value
    then [d.cleared.value - f.healed.value] else []
  }

  /** One more fault in the row of its kind. */
  function Score(row: Row, f: Fault, ds: seq<Detection>): Row {
    if f.injected.None? then row
    else
      var n := FirstHit(f, ds);
      if n == |ds| then row.(fn := row.fn + 1)
      else
        row.(tp := row.tp + 1, latencies := row.latencies + [ds[n].at.value - f.injected.value],
        clears := row.clears + ClearTime(f, ds[n]))
  }

  /** The row of a kind after all its faults. */
  function Scored(fs: seq<Fault>, ds: seq<Detection>, kind: string): Row {
    if fs == [] then Zero
    else
      var rest := Scored(fs[..|fs| - 1], ds, kind);
      if fs[|fs| - 1].kind == kind then Score(rest, fs[|fs| - 1], ds) else rest
  }

  /** How many faults of a kind were injected. */
  function Injected(fs: seq<Fault>, kind: string): nat {
    if fs == [] then 0
    else
      Injected(fs[..|fs| - 1], kind) +
      if fs[|fs| - 1].kind == kind && fs[|fs| - 1].injected.Some? then 1 else 0
  }

  /** The detections that some fault was matched with. */
  function Matched(fs: seq<Fault>, ds: seq<Detection>): set<nat> {
    set i | 0 <= i < |fs| && fs[i].injected.Some? && FirstHit(fs[i], ds) < |ds| :: FirstHit(fs[i], ds)
  }

  ghost predicate IsFalsePositive(fs: seq<Fault>, ds: seq<Detection>, n: nat) {
    n < |ds| && ds[n].at.Some? && n !in Matched(fs, ds) && !Covered(fs, ds[n])
  }

  /** How many of the first `n` detections are false positives of rule `kind`. */
  ghost function FalsePositives(fs: seq<Fault>, ds: seq<Detection>, n: nat, kind: string): nat
    requires n <= |ds|
  {
    if n == 0 then 0
    else
      FalsePositives(fs, ds, n - 1, kind) +
      if ds[n - 1].rule == kind && IsFalsePositive(fs, ds, n - 1) then 1 else 0
  }

  /**
    Coverage looks at the target alone. So an unmatched detection that a named fault could
    have been matched with counts as a false positive, inside that fault's window, if and
    only if it has no target.
   */
  lemma HostnameAloneIsFalsePositive(fs: seq<Fault>, ds: seq<Detection>, n: nat, i: nat)
    requires n < |ds| && n !in Matched(fs, ds) && i < |fs| && fs[i].host.Named? && Hits(fs[i], ds[n])
    requires forall j :: 0 <= j < |fs| ==> fs[j].host != Named("")
    ensures IsFalsePositive(fs, ds, n) <==> ds[n].target == ""
  {
    if ds[n].target != "" { assert Covers(fs[i], ds[n]); }
  }

  /** The second of two detections of one fault is such a false positive when they name only the host. */
  lemma SecondDetectionByHostname(f: Fault, d: Detection, e: Detection)
    requires f.host.Named? && f.host.name != "" && Hits(f, d) && Hits(f, e) && d.target == "" && e.target == ""
    ensures IsFalsePositive([f], [d, e], 1)
  {
    assert FirstHit(f, [d, e]) == 0 by { assert Hits(f, [d, e][0]); }
    assert [f][0] == f && [d, e][1] == e;
    HostnameAloneIsFalsePositive([f], [d, e], 1, 0);
  }

  // ------------------------------------------------------------------- the accounts

  /**
    Per fault type: true positives plus false negatives are the injected faults, there is
    exactly one latency per true positive and none is negative, and a clear time, always
    positive, is taken at most once per true positive.
   */
  lemma {:induction false} AccountsAddUp(fs: seq<Fault>, ds: seq<Detection>, kind: string)
    ensures var row := Scored(fs, ds, kind);
            && row.tp + row.fn == Injected(fs, kind)
            && |row.latencies| == row.tp && (forall i :: 0 <= i < |row.latencies| ==> row.latencies[i] >= 0)
            && |row.clears| <= row.tp && (forall i :: 0 <= i < |row.clears| ==> row.clears[i] > 0)
            && row.fp == 0
  {
    if fs != [] { AccountsAddUp(fs[..|fs| - 1], ds, kind); }
  }

  /** A fault may be matched from its injection to 30 s after its healing, or for 300 s when it is not healed. */
  lemma HitsIff(f: Fault, d: Detection)
    ensures Hits(f, d) <==>
            && f.injected.Some? && d.at.Some? && !f.host.Null?
            && (if f.host.Absent? then "" else f.host.name) == (if d.target == "" then d.hostname else d.target)
            && f.injected.value <= d.at.value
            && d.at.value <= if f.healed.None? || f.healed.value == 0 then f.injected.value + 300_000_000_000
                             else f.healed.value + 30_000_000_000
    ensures Covers(f, d) <==> f.host == Named(d.target) && InWindow(f, d)
  {
  }

  /** A single fault is missed, or found by its first hit: timed from its injection, and cleared after its healing. */
  lemma OneFault(f: Fault, ds: seq<Detection>, n: nat)
    requires f.injected.Some? && n <= |ds| && forall i :: 0 <= i < n ==> !Hits(f, ds[i])
    requires n < |ds| ==> Hits(f, ds[n])
    ensures var row := Scored([f], ds, f.kind);
            if n == |ds| then row == Row(0, 0, 1, [], [])
            else
              && row.tp == 1 && row.fn == 0 && row.fp == 0
              && row.latencies == [ds[n].at.value - f.injected.value]
              && (row.clears != [] <==> exists h, c :: f.healed == Some(h) && h != 0 &&
                                                       ds[n].cleared == Some(c) && c != 0 && h < c)
              && (row.clears != [] ==> row.clears == [ds[n].cleared.value - f.healed.value])
  {
    assert FirstHit(f, ds) == n;
    assert [f][..0] == [];
  }

  /** Scoring more faults only adds to each row, in the order of the faults. */
  lemma {:induction false} ScoredConcatenates(fs: seq<Fault>, gs: seq<Fault>, ds: seq<Detection>, kind: string)
    ensures var a, b := Scored(fs, ds, kind), Scored(gs, ds, kind);
            Scored(fs + gs, ds, kind) ==
            Row(a.tp + b.tp, 0, a.fn + b.fn, a.latencies + b.latencies, a.clears + b.clears)
  {
    AccountsAddUp(fs, ds, kind);
    if gs == [] {
      assert fs + gs == fs;
    } else {
      ScoredConcatenates(fs, gs[..|gs| - 1], ds, kind);
      assert (fs + gs)[..|fs + gs| - 1] == fs + gs[..|gs| - 1];
    }
  }

  /** A detection is a false positive when it is timed, no fault covers it, and it is the first hit of none. */
  lemma IsFalsePositiveIff(fs: seq<Fault>, ds: seq<Detection>, n: nat)
    requires n < |ds|
    ensures IsFalsePositive(fs, ds, n) <==>
            && ds[n].at.Some?
            && (forall i :: 0 <= i < |fs| ==> !(fs[i].host == Named(ds[n].target) && InWindow(fs[i], ds[n])))
            && (forall i :: 0 <= i < |fs| && Hits(fs[i], ds[n]) ==> exists j :: 0 <= j < n && Hits(fs[i], ds[j]))
  {
    if n in Matched(fs, ds) {
      var i :| 0 <= i < |fs| && fs[i].injected.Some? && FirstHit(fs[i], ds) == n;
      assert Hits(fs[i], ds[n]);
    } else {
      forall i | 0 <= i < |fs| && Hits(fs[i], ds[n]) ensures exists j :: 0 <= j < n && Hits(fs[i], ds[j]) {
        assert FirstHit(fs[i], ds) < n;
      }
    }
    forall i | 0 <= i < |fs|
      ensures Covers(fs[i], ds[n]) <==> fs[i].host == Named(ds[n].target) && InWindow(fs[i], ds[n])
    {
    }
  }

  /** The first `n` detections that are false positives of rule `kind`. */
  ghost function FalsePositiveSet(fs: seq<Fault>, ds: seq<Detection>, n: nat, kind: string): set<nat>
    requires n <= |ds|
  {
    set i: nat | i < n && ds[i].rule == kind && IsFalsePositive(fs, ds, i)
  }

  lemma FalsePositiveSetExtends(fs: seq<Fault>, ds: seq<Detection>, n: nat, kind: string)
    requires n < |ds|
    ensures n !in FalsePositiveSet(fs, ds, n, kind)
    ensures FalsePositiveSet(fs, ds, n + 1, kind) ==
            FalsePositiveSet(fs, ds, n, kind) + if ds[n].rule == kind && IsFalsePositive(fs, ds, n) then {n} else {}
  {
    hide IsFalsePositive;
  }

  /** The false positives of a kind are counted one by one. */
  lemma {:induction false} FalsePositivesAreCounted(fs: seq<Fault>, ds: seq<Detection>, n: nat, kind: string)
    requires n <= |ds|
    ensures FalsePositives(fs, ds, n, kind) == |FalsePositiveSet(fs, ds, n, kind)|
  {
    if n == 0 {
      assert FalsePositiveSet(fs, ds, n, kind) == {};
    } else {
      hide IsFalsePositive, FalsePositiveSet;
      FalsePositivesAreCounted(fs, ds, n - 1, kind);
      FalsePositiveSetExtends(fs, ds, n - 1, kind);
    }
  }

  // ------------------------------------------------------------------- the computation

  /** The positions of the detections with key `k`, in order. */
  function Positions(ds: seq<Detection>, k: string): (ps: seq<nat>)
    ensures forall i :: 0 <= i < |ps| ==> ps[i] < |ds| && Key(ds[ps[i]]) == k
  {
    if ds == [] then []
    else
      var rest := Positions(ds[..|ds| - 1], k);
      if Key(ds[|ds| - 1]) == k then rest + [|ds| - 1] else rest
  }

  lemma {:induction false} PositionsAscend(ds: seq<Detection>, k: string)
    ensures forall i, j :: 0 <= i < j < |Positions(ds, k)| ==> Positions(ds, k)[i] < Positions(ds, k)[j]
    ensures forall n :: 0 <= n < |ds| && Key(ds[n]) == k ==> n in Positions(ds, k)
  {
    if ds != [] { PositionsAscend(ds[..|ds| - 1], k); }
  }

  lemma NoPositions(k: string)
    ensures Positions([], k) == []
  {
  }

  lemma PositionsExtend(ds: seq<Detection>, n: nat, k: string)
    requires n < |ds|
    ensures Positions(ds[..n + 1], k) == Positions(ds[..n], k) + if k == Key(ds[n]) then [n] else []
  {
    assert ds[..n + 1][..n] == ds[..n];
  }

  /** Detections by key. */
  method IndexByKey(ds: seq<Detection>) returns (index: map<string, seq<nat>>)
    ensures forall k :: (if k in index then index[k] else []) == Positions(ds, k)
  {
    hide Positions, Key;
    index := map[];
    forall k ensures Positions(ds[..0], k) == [] { NoPositions(k); }
    for n := 0 to |ds|
      invariant forall k :: (if k in index then index[k] else []) == Positions(ds[..n], k)
    {
      var k := Key(ds[n]);
      forall j ensures Positions(ds[..n + 1], j) == Positions(ds[..n], j) + if j == k then [n] else [] {
        PositionsExtend(ds, n, j);
      }
      var before := if k in index then index[k] else [];
      index := index[k := before + [n]];
    }
    assert ds[..|ds|] == ds;
  }

  /** Looks through the indexed detections for the first one in the window. */
  method FindHit(f: Fault, ds: seq<Detection>, key: string, positions: seq<nat>) returns (n: nat)
    requires LookupKey(f) == Some(key) && positions == Positions(ds, key)
    ensures n == FirstHit(f, ds)
  {
    hide InWindow, Positions, Key, LookupKey;
    PositionsAscend(ds, key);
    for i := 0 to |positions|
      invariant forall j :: 0 <= j < i ==> !InWindow(f, ds[positions[j]])
    {
      if InWindow(f, ds[positions[i]]) {
        n := positions[i];
        forall m | 0 <= m < n && Key(ds[m]) == key ensures !InWindow(f, ds[m]) {
          var j :| 0 <= j < |positions| && positions[j] == m;
        }
        return;
      }
    }
    n := |ds|;
    forall m | 0 <= m < n && Key(ds[m]) == key ensures !InWindow(f, ds[m]) {
      var j :| 0 <= j < |positions| && positions[j] == m;
    }
  }

  lemma NothingYet(fs: seq<Fault>, ds: seq<Detection>)
    requires fs == []
    ensures Matched(fs, ds) == {} && forall kind :: Scored(fs, ds, kind) == RowOf(map[], kind)
  {
  }

  lemma ScoredExtends(fs: seq<Fault>, m: nat, ds: seq<Detection>, kind: string)
    requires m < |fs|
    ensures Scored(fs[..m + 1], ds, kind) ==
            if fs[m].kind == kind then Score(Scored(fs[..m], ds, kind), fs[m], ds) else Scored(fs[..m], ds, kind)
  {
    assert fs[..m + 1][..m] == fs[..m];
  }

  /** The detection that a fault is matched with, if any. */
  function MatchedBy(f: Fault, ds: seq<Detection>): set<nat> {
    if f.injected.Some? && FirstHit(f, ds) < |ds| then {FirstHit(f, ds)} else {}
  }

  lemma MatchedExtends(fs: seq<Fault>, m: nat, ds: seq<Detection>)
    requires m < |fs|
    ensures Matched(fs[..m + 1], ds) == Matched(fs[..m], ds) + MatchedBy(fs[m], ds)
  {
    var a, b := fs[..m], fs[..m + 1];
    assert forall i :: 0 <= i < m ==> a[i] == b[i];
    assert b[m] == fs[m];
  }

  lemma NoKeyNoHit(f: Fault, ds: seq<Detection>)
    requires LookupKey(f).None?
    ensures FirstHit(f, ds) == |ds|
  {
  }

  /** Scores one fault in the row of its kind. */
  method ScoreFault(f: Fault, ds: seq<Detection>, index: map<string, seq<nat>>, stats: Stats)
    returns (stats': Stats, matched: set<nat>)
    requires forall k :: (if k in index then index[k] else []) == Positions(ds, k)
    ensures forall kind :: RowOf(stats', kind) ==
              if kind == f.kind then Score(RowOf(stats, kind), f, ds) else RowOf(stats, kind)
    ensures matched == MatchedBy(f, ds)
  {
    hide FirstHit, Positions, ClearTime, LookupKey, WindowEnd, Key;
    stats', matched := stats, {};
    if f.injected.Some? {
      var n := |ds|;
      var key := LookupKey(f);
      if key.Some? {
        n := FindHit(f, ds, key.value, if key.value in index then index[key.value] else []);
      } else {
        NoKeyNoHit(f, ds);
      }
      var row := RowOf(stats, f.kind);
      if n < |ds| {
        row := row.(tp := row.tp + 1, latencies := row.latencies + [ds[n].at.value - f.injected.value],
        clears := row.clears + ClearTime(f, ds[n]));
        matched := {n};
      } else {
        row := row.(fn := row.fn + 1);
      }
      stats' := stats[f.kind := row];
    }
  }

  /** Scores every fault against the detections on its host. */
  method ScoreFaults(fs: seq<Fault>, ds: seq<Detection>) returns (stats: Stats, matched: set<nat>)
    ensures forall kind :: RowOf(stats, kind) == Scored(fs, ds, kind)
    ensures matched == Matched(fs, ds)
  {
    hide Scored, Positions, Score, RowOf, Matched, MatchedBy;
    var index := IndexByKey(ds);
    stats, matched := map[], {};
    NothingYet(fs[..0], ds);
    for m := 0 to |fs|
      invariant forall kind :: RowOf(stats, kind) == Scored(fs[..m], ds, kind)
      invariant matched == Matched(fs[..m], ds)
    {
      var hit;
      stats, hit := ScoreFault(fs[m], ds, index, stats);
      matched := matched + hit;
      MatchedExtends(fs, m, ds);
      forall kind ensures RowOf(stats, kind) == Scored(fs[..m + 1], ds, kind) {
        ScoredExtends(fs, m, ds, kind);
      }
    }
    assert fs[..|fs|] == fs;
  }

  method IsCovered(fs: seq<Fault>, d: Detection) returns (covered: bool)
    ensures covered <==> Covered(fs, d)
  {
    for i := 0 to |fs|
      invariant forall j :: 0 <= j < i ==> !Covers(fs[j], d)
    {
      if Covers(fs[i], d) {
        return true;
      }
    }
    covered := false;
  }

  /** The statistics of every kind: its faults scored, and its false positives counted. */
  method MatchDetections(fs: seq<Fault>, ds: seq<Detection>) returns (stats: Stats)
    ensures forall kind :: RowOf(stats, kind) == Scored(fs, ds, kind).(fp := FalsePositives(fs, ds, |ds|, kind))
  {
    var matched;
    stats, matched := ScoreFaults(fs, ds);
    forall kind ensures Scored(fs, ds, kind).fp == 0 { AccountsAddUp(fs, ds, kind); }
    for n := 0 to |ds|
      invariant forall kind :: RowOf(stats, kind) == Scored(fs, ds, kind).(fp := FalsePositives(fs, ds, n, kind))
    {
      var d := ds[n];
      if n !in matched && d.at.Some? {
        var covered := IsCovered(fs, d);
        if !covered {
          var row := RowOf(stats, d.rule);
          stats := stats[d.rule := row.(fp := row.fp + 1)];
        }
      }
    }
  }
}
