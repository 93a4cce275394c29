/** The walk up the site hierarchy, whose parent links may form cycles. */
module Sites {
  import opened Sets

  datatype Site = Site(id: string, name: string, parentId: string)

  const DEPTH: nat := 10

  predicate Labels(s: Site, key: string) {
    s.name == key || s.id == key
  }

  /** The index of the first record called `key`, or the number of records. */
  function FindSite(sites: seq<Site>, key: string): (n: nat)
    ensures n <= |sites|
    ensures n < |sites| ==> Labels(sites[n], key)
    ensures forall i :: 0 <= i < n ==> !Labels(sites[i], key)
  {
    if sites == [] then 0
    else if Labels(sites[0], key) then 0
    else 1 + FindSite(sites[1..], key)
  }

  function AddLabel(result: seq<string>, x: string): seq<string> {
    if x == "" || x in result then result else result + [x]
  }

  function AddLabels(result: seq<string>, s: Site): seq<string> {
    AddLabel(AddLabel(result, s.name), s.id)
  }

  /** The walk from `key` with `result` collected so far and at most `fuel` records to visit. */
  function Walk(sites: seq<Site>, key: string, result: seq<string>, fuel: nat): seq<string>
    decreases fuel
  {
    var n := FindSite(sites, key);
    if fuel == 0 || n == |sites| then result
    else
      var next := AddLabels(result, sites[n]);
      var parent := sites[n].parentId;
      if parent == "" || parent in next then next else Walk(sites, parent, next, fuel - 1)
  }

  /** The records that the walk visits, in order. */
  function Visited(sites: seq<Site>, key: string, result: seq<string>, fuel: nat): seq<nat>
    decreases fuel
  {
    var n := FindSite(sites, key);
    if fuel == 0 || n == |sites| then []
    else
      var next := AddLabels(result, sites[n]);
      var parent := sites[n].parentId;
      [n] + if parent == "" || parent in next then [] else Visited(sites, parent, next, fuel - 1)
  }

  function AncestorsOf(site: string, sites: seq<Site>): seq<string> {
    if site == "" || sites == [] then [site] else Walk(sites, site, [site], DEPTH)
  }

  method SiteAncestorSet(site: string, sites: seq<Site>) returns (result: seq<string>)
    ensures result == AncestorsOf(site, sites)
  {
    result := [site];
    if site == "" || sites == [] {
      return;
    }
    var key := site;
    for i := 0 to DEPTH
      invariant Walk(sites, key, result, DEPTH - i) == AncestorsOf(site, sites)
    {
      var n := FindSite(sites, key);
      if n == |sites| {
        break;
      }
      result := AddLabels(result, sites[n]);
      var parent := sites[n].parentId;
      if parent == "" || parent in result {
        return;
      }
      key := parent;
    }
  }

  // ------------------------------------------------------------------- bounds

  lemma {:induction false} WalkSize(sites: seq<Site>, key: string, result: seq<string>, fuel: nat)
    ensures |result| <= |Walk(sites, key, result, fuel)| <= |result| + 2 * fuel
    decreases fuel
  {
    var n := FindSite(sites, key);
    if fuel > 0 && n < |sites| {
      WalkSize(sites, sites[n].parentId, AddLabels(result, sites[n]), fuel - 1);
    }
  }

  /** The first record carries the seed as one of its labels, so it adds at most one; the others add at most two. */
  lemma AtMost20Names(site: string, sites: seq<Site>)
    ensures 1 <= |AncestorsOf(site, sites)| <= 20
  {
    var n := FindSite(sites, site);
    if site != "" && n < |sites| {
      WalkSize(sites, sites[n].parentId, AddLabels([site], sites[n]), DEPTH - 1);
    }
  }

  /** Every record in `seen` has its labels in `result`. */
  ghost predicate Recorded(sites: seq<Site>, result: seq<string>, seen: set<nat>) {
    forall i :: i in seen ==>
      i < |sites| && (sites[i].name == "" || sites[i].name in result) && (sites[i].id == "" || sites[i].id in result)
  }

  ghost function Indices(n: nat): (s: set<nat>)
    ensures |s| == n && forall i: nat :: i in s <==> i < n
  {
    if n == 0 then {} else Indices(n - 1) + {n - 1}
  }

  lemma RecordedSize(sites: seq<Site>, result: seq<string>, seen: set<nat>)
    requires Recorded(sites, result, seen)
    ensures |seen| <= |sites|
  {
    SubsetSize(seen, Indices(|sites|));
  }

  /** One step of the walk finds a record it has not seen, even on a cycle. */
  lemma StepIsFresh(sites: seq<Site>, key: string, result: seq<string>, seen: set<nat>)
    requires Recorded(sites, result, seen) && key != "" && (key !in result || seen == {})
    requires FindSite(sites, key) < |sites|
    ensures var n := FindSite(sites, key);
            && n !in seen && Recorded(sites, AddLabels(result, sites[n]), seen + {n})
  {
  }

  /** `v` lists records outside `seen`, none of them twice. */
  ghost predicate Unseen(sites: seq<Site>, v: seq<nat>, seen: set<nat>) {
    && (forall i :: 0 <= i < |v| ==> v[i] !in seen && v[i] < |sites|)
    && (forall i, j :: 0 <= i < j < |v| ==> v[i] != v[j])
  }

  lemma UnseenHead(sites: seq<Site>, n: nat, v: seq<nat>, seen: set<nat>)
    requires n !in seen && n < |sites| && Unseen(sites, v, seen + {n})
    ensures Unseen(sites, [n] + v, seen)
  {
    var w := [n] + v;
    forall i | 0 < i < |w| ensures w[i] == v[i - 1] && w[i] !in seen + {n} {}
  }

  /**
    The walk visits a fresh record at every step even when parents form a cycle, so it
    stops after at most one visit per record, whatever the depth cap.
   */
  lemma {:induction false} WalkIsFresh(sites: seq<Site>, key: string, result: seq<string>, fuel: nat, seen: set<nat>)
    requires Recorded(sites, result, seen) && key != "" && (key !in result || seen == {})
    ensures var v := Visited(sites, key, result, fuel); Unseen(sites, v, seen) && |v| + |seen| <= |sites|
    decreases fuel
  {
    hide AddLabels, Recorded;
    var n := FindSite(sites, key);
    RecordedSize(sites, result, seen);
    if fuel > 0 && n < |sites| {
      StepIsFresh(sites, key, result, seen);
      var next := AddLabels(result, sites[n]);
      var parent := sites[n].parentId;
      RecordedSize(sites, next, seen + {n});
      if parent == "" || parent in next {
        UnseenHead(sites, n, [], seen);
        assert [n] + [] == Visited(sites, key, result, fuel);
      } else {
        WalkIsFresh(sites, parent, next, fuel - 1, seen + {n});
        UnseenHead(sites, n, Visited(sites, parent, next, fuel - 1), seen);
      }
    }
  }

  /** Once the cap reaches the number of unseen records it no longer matters. */
  lemma {:induction false} CapDoesNotMatter(
    sites: seq<Site>, key: string, result: seq<string>, f: nat, g: nat, seen: set<nat>)
    requires Recorded(sites, result, seen) && key != "" && (key !in result || seen == {})
    requires f + |seen| >= |sites| && g + |seen| >= |sites|
    ensures Walk(sites, key, result, f) == Walk(sites, key, result, g)
    decreases f
  {
    hide AddLabels, Recorded;
    var n := FindSite(sites, key);
    RecordedSize(sites, result, seen);
    if n < |sites| {
      StepIsFresh(sites, key, result, seen);
      var next := AddLabels(result, sites[n]);
      RecordedSize(sites, next, seen + {n});
      var parent := sites[n].parentId;
      if parent != "" && parent !in next {
        CapDoesNotMatter(sites, parent, next, f - 1, g - 1, seen + {n});
      }
    }
  }

  // ----------------------------------------------------- what the result holds

  /** `c` follows the parent links from `key`, record by record. */
  ghost predicate IsChain(sites: seq<Site>, key: string, c: seq<nat>)
    decreases |c|
  {
    c == [] ||
    (key != "" && c[0] == FindSite(sites, key) < |sites| && IsChain(sites, sites[c[0]].parentId, c[1..]))
  }

  ghost predicate LabelsOneOf(sites: seq<Site>, c: seq<nat>, x: string) {
    exists i :: 0 <= i < |c| && c[i] < |sites| && (sites[c[i]].name == x || sites[c[i]].id == x)
  }

  /** The visited records are a chain of parents, and the result is what it was plus their labels. */
  lemma {:induction false} WalkHoldsLabels(sites: seq<Site>, key: string, result: seq<string>, fuel: nat)
    requires key != ""
    ensures var v, r := Visited(sites, key, result, fuel), Walk(sites, key, result, fuel);
            && IsChain(sites, key, v) && |v| <= fuel
            && (forall x :: x in r <==> x in result || (x != "" && LabelsOneOf(sites, v, x)))
    decreases fuel
  {
    hide AddLabels, LabelsOneOf;
    var n := FindSite(sites, key);
    var v, r := Visited(sites, key, result, fuel), Walk(sites, key, result, fuel);
    if fuel > 0 && n < |sites| {
      var next := AddLabels(result, sites[n]);
      var parent := sites[n].parentId;
      var stop := parent == "" || parent in next;
      var rest := if stop then [] else Visited(sites, parent, next, fuel - 1);
      assert v == [n] + rest && v[1..] == rest;
      if !stop {
        WalkHoldsLabels(sites, parent, next, fuel - 1);
      }
      forall x ensures x in r <==> x in result || (x != "" && LabelsOneOf(sites, v, x)) {
        LabelsSplit(sites, v, x);
        AddLabelsMembers(result, sites[n], x);
        NoLabels(sites, x);
      }
    } else {
      forall x ensures !LabelsOneOf(sites, v, x) { NoLabels(sites, x); }
    }
  }

  lemma NoLabels(sites: seq<Site>, x: string)
    ensures !LabelsOneOf(sites, [], x)
  {
  }

  lemma AddLabelsMembers(result: seq<string>, s: Site, x: string)
    ensures x in AddLabels(result, s) <==> x in result || (x != "" && Labels(s, x))
  {
  }

  lemma LabelsSplit(sites: seq<Site>, c: seq<nat>, x: string)
    requires c != [] && c[0] < |sites|
    ensures LabelsOneOf(sites, c, x) <==> Labels(sites[c[0]], x) || LabelsOneOf(sites, c[1..], x)
  {
    if i :| 0 <= i < |c| && c[i] < |sites| && Labels(sites[c[i]], x) {
      if i > 0 { assert c[1..][i - 1] == c[i]; }
    }
    if i :| 0 <= i < |c[1..]| && c[1..][i] < |sites| && Labels(sites[c[1..][i]], x) {
      assert c[i + 1] == c[1..][i];
    }
  }

  /** The set holds nothing but the seed and the labels of records on its parent chain. */
  lemma OnlyTheParentChain(site: string, sites: seq<Site>, x: string)
    requires x in AncestorsOf(site, sites)
    ensures x == site || exists c :: IsChain(sites, site, c) && |c| <= 10 && LabelsOneOf(sites, c, x)
  {
    if site != "" && sites != [] {
      WalkHoldsLabels(sites, site, [site], DEPTH);
      var v := Visited(sites, site, [site], DEPTH);
      assert x == site || LabelsOneOf(sites, v, x);
    }
  }

  // ------------------------------------------------------------- completeness

  /** No label belongs to two records. */
  ghost predicate DistinctLabels(sites: seq<Site>) {
    forall i, j, x :: 0 <= i < j < |sites| && Labels(sites[i], x) && Labels(sites[j], x) ==> x == ""
  }

  /** Record `b` is the parent of record `a`. */
  predicate Links(sites: seq<Site>, a: nat, b: nat) {
    a < |sites| && sites[a].parentId != "" && b == FindSite(sites, sites[a].parentId) < |sites|
  }

  lemma {:induction false} ChainLinks(sites: seq<Site>, key: string, c: seq<nat>, k: nat)
    requires IsChain(sites, key, c) && k < |c|
    ensures c[k] < |sites| && (k + 1 < |c| ==> Links(sites, c[k], c[k + 1]))
    decreases |c|
  {
    if k > 0 {
      ChainLinks(sites, sites[c[0]].parentId, c[1..], k - 1);
    } else if |c| > 1 {
      assert c[1..][0] == c[1];
    }
  }

  lemma {:induction false} ChainsAgree(sites: seq<Site>, key: string, c: seq<nat>, e: seq<nat>, k: nat)
    requires IsChain(sites, key, c) && IsChain(sites, key, e) && k < |c| && k < |e|
    ensures c[k] == e[k]
    decreases |c|
  {
    if k > 0 {
      ChainsAgree(sites, sites[c[0]].parentId, c[1..], e[1..], k - 1);
    }
  }

  /** The first step of a walk that visits anything. */
  lemma VisitStep(sites: seq<Site>, key: string, result: seq<string>, fuel: nat)
    requires Visited(sites, key, result, fuel) != []
    ensures var n := FindSite(sites, key);
            && n < |sites| && fuel > 0
            && var next, parent := AddLabels(result, sites[n]), sites[n].parentId;
            if parent == "" || parent in next
            then Visited(sites, key, result, fuel) == [n] && Walk(sites, key, result, fuel) == next
            else
              && Visited(sites, key, result, fuel) == [n] + Visited(sites, parent, next, fuel - 1)
              && Walk(sites, key, result, fuel) == Walk(sites, parent, next, fuel - 1)
              && (Visited(sites, parent, next, fuel - 1) == [] ==> fuel == 1 || FindSite(sites, parent) == |sites|)
  {
  }

  /** A walk that stops before the cap has met the parent before, or there is none. */
  lemma {:induction false} StopReason(sites: seq<Site>, key: string, result: seq<string>, fuel: nat)
    requires key != "" && 0 < |Visited(sites, key, result, fuel)| < fuel
    ensures var v := Visited(sites, key, result, fuel);
            var last := v[|v| - 1];
            && last < |sites|
            && var parent := sites[last].parentId;
            parent == "" || parent in Walk(sites, key, result, fuel) || FindSite(sites, parent) == |sites|
    decreases fuel
  {
    hide AddLabels, FindSite, Visited, Walk;
    VisitStep(sites, key, result, fuel);
    var n := FindSite(sites, key);
    var next := AddLabels(result, sites[n]);
    var parent := sites[n].parentId;
    var v := Visited(sites, key, result, fuel);
    if parent != "" && parent !in next {
      var rest := Visited(sites, parent, next, fuel - 1);
      if rest != [] {
        StopReason(sites, parent, next, fuel - 1);
        assert v[|v| - 1] == rest[|rest| - 1];
      }
    }
  }

  /** Every link from a record of `v` leads to a record of `v`. */
  ghost predicate ClosedUnderLinks(sites: seq<Site>, v: seq<nat>) {
    forall i, b :: 0 <= i < |v| && Links(sites, v[i], b) ==> b in v
  }

  lemma StoppedWalkIsClosed(site: string, sites: seq<Site>)
    requires DistinctLabels(sites) && site != "" && 0 < |Visited(sites, site, [site], DEPTH)| < DEPTH
    ensures ClosedUnderLinks(sites, Visited(sites, site, [site], DEPTH))
  {
    hide Visited, Walk, IsChain, DistinctLabels, LabelsOneOf, Labels;
    var v, r := Visited(sites, site, [site], DEPTH), Walk(sites, site, [site], DEPTH);
    WalkHoldsLabels(sites, site, [site], DEPTH);
    StopReason(sites, site, [site], DEPTH);
    forall i, b | 0 <= i < |v| && Links(sites, v[i], b) ensures b in v {
      ChainLinks(sites, site, v, i);
      if i == |v| - 1 { LastLinkStays(site, sites, v, r, b); }
    }
  }

  /** A last record whose parent was met before links back into the chain. */
  lemma LastLinkStays(site: string, sites: seq<Site>, v: seq<nat>, r: seq<string>, b: nat)
    requires DistinctLabels(sites) && v != [] && IsChain(sites, site, v) && Links(sites, v[|v| - 1], b)
    requires sites[v[|v| - 1]].parentId in r
    requires forall x :: x in r ==> x == site || LabelsOneOf(sites, v, x)
    ensures b in v
  {
    hide DistinctLabels, LabelsOneOf;
    var parent := sites[v[|v| - 1]].parentId;
    if parent == site {
      assert b == v[0];
    } else {
      LabelledIsIn(sites, v, parent, b);
    }
  }

  lemma LabelledIsIn(sites: seq<Site>, v: seq<nat>, x: string, b: nat)
    requires DistinctLabels(sites) && LabelsOneOf(sites, v, x) && b < |sites| && Labels(sites[b], x) && x != ""
    ensures b in v
  {
    hide DistinctLabels;
    var j :| 0 <= j < |v| && v[j] < |sites| && Labels(sites[v[j]], x);
    SameRecord(sites, v[j], b, x);
  }

  lemma SameRecord(sites: seq<Site>, i: nat, j: nat, x: string)
    requires DistinctLabels(sites) && i < |sites| && j < |sites|
    requires Labels(sites[i], x) && Labels(sites[j], x) && x != ""
    ensures i == j
  {
  }

  lemma {:induction false} ClosedHoldsChain(sites: seq<Site>, key: string, c: seq<nat>, v: seq<nat>, k: nat)
    requires IsChain(sites, key, c) && k < |c| && c[0] in v && ClosedUnderLinks(sites, v)
    ensures c[k] in v
  {
    if k > 0 {
      ClosedHoldsChain(sites, key, c, v, k - 1);
      ChainLinks(sites, key, c, k - 1);
    }
  }

  /** The names and ids of every record within ten links of the seed are in the set, cycles or not. */
  lemma AncestorsAreComplete(site: string, sites: seq<Site>, c: seq<nat>, k: nat, x: string)
    requires DistinctLabels(sites) && IsChain(sites, site, c) && k < |c| <= 10
    requires c[k] < |sites| && (sites[c[k]].name == x || sites[c[k]].id == x) && x != ""
    ensures x in AncestorsOf(site, sites)
  {
    hide Visited, Walk, IsChain, DistinctLabels, ClosedUnderLinks;
    var v := Visited(sites, site, [site], DEPTH);
    SeedOfChain(sites, site, c);
    WalkHoldsLabels(sites, site, [site], DEPTH);
    if k < |v| {
      ChainsAgree(sites, site, c, v, k);
    } else {
      ChainsAgree(sites, site, c, v, 0);
      StoppedWalkIsClosed(site, sites);
      ClosedHoldsChain(sites, site, c, v, k);
      var i :| 0 <= i < |v| && v[i] == c[k];
    }
    assert LabelsOneOf(sites, v, x);
  }

  lemma SeedOfChain(sites: seq<Site>, site: string, c: seq<nat>)
    requires IsChain(sites, site, c) && c != []
    ensures site != "" && sites != [] && Visited(sites, site, [site], DEPTH) != []
    ensures AncestorsOf(site, sites) == Walk(sites, site, [site], DEPTH)
  {
  }

  // ------------------------------------------------------------- the bound is reached

  /** Records with two labels each, every one the parent of its predecessor. */
  ghost predicate Ladder(sites: seq<Site>) {
    && DistinctLabels(sites)
    && (forall i :: 0 <= i < |sites| ==> sites[i].id != "" && sites[i].name != "" && sites[i].name != sites[i].id)
    && (forall i :: 0 <= i < |sites| - 1 ==> sites[i].parentId == sites[i + 1].id)
    && (sites != [] ==> sites[|sites| - 1].parentId == "")
  }

  /** Nothing from record `k` on has been collected yet. */
  ghost predicate Uncollected(sites: seq<Site>, k: nat, result: seq<string>) {
    forall i :: k <= i < |sites| ==> sites[i].id !in result && sites[i].name !in result
  }

  lemma {:induction false} LadderWalk(sites: seq<Site>, k: nat, result: seq<string>, fuel: nat)
    requires Ladder(sites) && k < |sites| <= k + fuel && Uncollected(sites, k, result)
    ensures |Walk(sites, sites[k].id, result, fuel)| == |result| + 2 * (|sites| - k)
    decreases fuel
  {
    hide DistinctLabels, FindSite;
    SameRecord(sites, FindSite(sites, sites[k].id), k, sites[k].id);
    RungAddsTwo(sites, k, result);
    if k + 1 < |sites| {
      hide AddLabels;
      RungLeavesRest(sites, k, result);
      LadderWalk(sites, k + 1, AddLabels(result, sites[k]), fuel - 1);
    }
  }

  lemma RungAddsTwo(sites: seq<Site>, k: nat, result: seq<string>)
    requires Ladder(sites) && k < |sites| && Uncollected(sites, k, result)
    ensures |AddLabels(result, sites[k])| == |result| + 2
  {
  }

  /** Collecting the labels of one rung collects none of the rungs above it. */
  lemma RungLeavesRest(sites: seq<Site>, k: nat, result: seq<string>)
    requires Ladder(sites) && k < |sites| && Uncollected(sites, k + 1, result)
    ensures Uncollected(sites, k + 1, AddLabels(result, sites[k]))
  {
    forall i | k < i < |sites| ensures !Labels(sites[k], sites[i].id) && !Labels(sites[k], sites[i].name) {
      assert Labels(sites[i], sites[i].id) && Labels(sites[i], sites[i].name);
    }
  }

  /** From the foot of a ladder of at most ten records all of its labels are collected. */
  lemma LadderIsCollected(sites: seq<Site>)
    requires Ladder(sites) && 0 < |sites| <= DEPTH
    ensures |AncestorsOf(sites[0].id, sites)| == 2 * |sites|
  {
    var site := sites[0].id;
    SameRecord(sites, FindSite(sites, site), 0, site);
    if |sites| > 1 {
      RungLeavesRest(sites, 0, [site]);
      LadderWalk(sites, 1, AddLabels([site], sites[0]), DEPTH - 1);
    }
  }

  /** Record `i` of a ladder of ten, called by a small and by a capital letter. */
  function Rung(i: nat): Site
    requires i < DEPTH
  {
    Site([Letter('a', i)], [Letter('A', i)], if i + 1 < DEPTH then [Letter('a', i + 1)] else "")
  }

  function Letter(from: char, i: nat): char
    requires from <= 'a' && i <= DEPTH
  {
    (from as int + i) as char
  }

  lemma RungsDiffer(i: nat, j: nat, x: string)
    requires i < j < DEPTH && Labels(Rung(i), x)
    ensures !Labels(Rung(j), x)
  {
    assert x[0] == Letter('a', i) || x[0] == Letter('A', i);
    assert Rung(j).id[0] == Letter('a', j) && Rung(j).name[0] == Letter('A', j);
  }

  /** Twenty names are reached, so the bound is the best one. */
  lemma TwentyNamesReached()
    ensures exists site, sites :: |AncestorsOf(site, sites)| == 20
  {
    var sites := seq(DEPTH, i requires 0 <= i < DEPTH => Rung(i));
    assert Ladder(sites) by {
      hide Letter;
      forall i, j, x | 0 <= i < j < |sites| && Labels(sites[i], x) ensures !Labels(sites[j], x) {
        RungsDiffer(i, j, x);
      }
      forall i | 0 <= i < |sites| ensures sites[i].name != sites[i].id { NamesDiffer(i); }
    }
    LadderIsCollected(sites);
  }

  lemma NamesDiffer(i: nat)
    requires i < DEPTH
    ensures Rung(i).name != Rung(i).id
  {
    assert Rung(i).name[0] != Rung(i).id[0];
  }
}
