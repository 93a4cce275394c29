/** Fallback selection is sound, complete and, exactly when fallbacks are acyclic, covering. */
module FallbackLaws {
  import opened Options
  import opened Fallbacks

  function Result(d: Device, ps: seq<PathTemplate>): seq<SubscriptionPath> {
    CandidateFacts(d, ps);
    Immediate(d, ps) + Chosen(EligibleNames(d, ps), Candidates(d, ps))
  }

  lemma {:induction false} ImmediateExact(d: Device, ps: seq<PathTemplate>, s: SubscriptionPath)
    ensures s in Immediate(d, ps) <==>
            exists i :: 0 <= i < |ps| && Meets(d, ps[i]) && ps[i].fallbackFor.None? && Subscription(ps[i]) == s
  {
    hide MissingRequirements, Meets, Subscription;
    if ps != [] {
      ImmediateExact(d, ps[..|ps| - 1], s);
      NoneMissingMeansMet(d, ps[|ps| - 1]);
    }
  }

  lemma {:induction false} CandidatesExact(d: Device, ps: seq<PathTemplate>, p: PathTemplate)
    ensures p in Candidates(d, ps) <==> p in ps && Meets(d, p) && p.fallbackFor.Some?
  {
    hide MissingRequirements, Meets;
    if ps != [] {
      CandidatesExact(d, ps[..|ps| - 1], p);
      NoneMissingMeansMet(d, ps[|ps| - 1]);
      assert ps == ps[..|ps| - 1] + [ps[|ps| - 1]];
    }
  }

  lemma {:induction false} ChosenExact(eligible: set<string>, cs: seq<PathTemplate>, s: SubscriptionPath)
    requires forall i :: 0 <= i < |cs| ==> cs[i].fallbackFor.Some?
    ensures s in Chosen(eligible, cs) <==>
            exists i :: 0 <= i < |cs| && cs[i].fallbackFor.value !in eligible && Subscription(cs[i]) == s
  {
    if cs != [] { ChosenExact(eligible, cs[..|cs| - 1], s); }
  }

  /** The subscription copies the six fields of the path. */
  ghost predicate Subscribes(p: PathTemplate, s: SubscriptionPath) {
    && s.path == p.path && s.origin == p.origin && s.mode == p.mode && s.sampleIntervalNs == p.sampleIntervalNs
    && s.rationale == p.rationale && s.optional == p.optional
  }

  /** The subscriptions are exactly those of the selected paths, whatever the order of the template. */
  lemma SelectionIsExact(d: Device, ps: seq<PathTemplate>, s: SubscriptionPath)
    ensures s in Result(d, ps) <==>
            exists i :: 0 <= i < |ps| && IsSelected(d, ps, ps[i]) && Subscribes(ps[i], s)
  {
    assert forall p :: Subscribes(p, s) <==> Subscription(p) == s;
    hide Meets, Subscription, Immediate, Candidates, Chosen;
    CandidateFacts(d, ps);
    var cs := Candidates(d, ps);
    ImmediateExact(d, ps, s);
    ChosenExact(EligibleNames(d, ps), cs, s);
    if i :| 0 <= i < |ps| && IsSelected(d, ps, ps[i]) && Subscription(ps[i]) == s {
      if ps[i].fallbackFor.Some? {
        CandidatesExact(d, ps, ps[i]);
        var j :| 0 <= j < |cs| && cs[j] == ps[i];
      }
    }
    if j :| 0 <= j < |cs| && cs[j].fallbackFor.value !in EligibleNames(d, ps) && Subscription(cs[j]) == s {
      assert cs[j] in cs;
      CandidatesExact(d, ps, cs[j]);
      var i :| 0 <= i < |ps| && ps[i] == cs[j];
      assert IsSelected(d, ps, ps[i]);
    }
  }

  function Dropped(d: Device, ps: seq<PathTemplate>): seq<DroppedPath> {
    CandidateFacts(d, ps);
    Unmet(d, ps) + Shadowed(EligibleNames(d, ps), Candidates(d, ps))
  }

  lemma {:induction false} UnmetExact(d: Device, ps: seq<PathTemplate>, x: DroppedPath)
    ensures x in Unmet(d, ps) <==>
            exists i :: 0 <= i < |ps| && !Meets(d, ps[i]) && Unsupported(d, ps[i], x)
  {
    hide MissingRequirements, Meets;
    if ps != [] {
      UnmetExact(d, ps[..|ps| - 1], x);
      NoneMissingMeansMet(d, ps[|ps| - 1]);
    }
  }

  lemma {:induction false} ShadowedExact(eligible: set<string>, cs: seq<PathTemplate>, x: DroppedPath)
    requires forall i :: 0 <= i < |cs| ==> cs[i].fallbackFor.Some?
    ensures x in Shadowed(eligible, cs) <==>
            exists i :: 0 <= i < |cs| && cs[i].fallbackFor.value in eligible && StoodIn(cs[i], x)
  {
    if cs != [] { ShadowedExact(eligible, cs[..|cs| - 1], x); }
  }

  /** `x` reports that path `p` lacks a requirement. */
  ghost predicate Unsupported(d: Device, p: PathTemplate, x: DroppedPath) {
    x.path == p.path && x.optional == p.optional && Some(x.reason) == MissingRequirements(d, p)
  }

  /** `x` reports that the primary of path `p` is available. */
  ghost predicate StoodIn(p: PathTemplate, x: DroppedPath) {
    && x.path == p.path && x.optional == p.optional
    && x.reason.PrimaryAvailable? && p.fallbackFor == Some(x.reason.primary)
  }

  /** What is dropped is exactly the unsupported paths and the supported fallbacks whose primary is eligible. */
  lemma DroppedIsExact(d: Device, ps: seq<PathTemplate>, x: DroppedPath)
    ensures x in Dropped(d, ps) <==>
            exists i :: 0 <= i < |ps| && if Meets(d, ps[i])
                        then StoodIn(ps[i], x) && IsEligible(d, ps, x.reason.primary)
                        else Unsupported(d, ps[i], x)
  {
    hide MissingRequirements, Meets, Candidates, Unmet, Shadowed;
    CandidateFacts(d, ps);
    var cs := Candidates(d, ps);
    UnmetExact(d, ps, x);
    ShadowedExact(EligibleNames(d, ps), cs, x);
    if i :| 0 <= i < |ps| && Meets(d, ps[i]) && StoodIn(ps[i], x) && IsEligible(d, ps, x.reason.primary) {
      CandidatesExact(d, ps, ps[i]);
      var j :| 0 <= j < |cs| && cs[j] == ps[i];
    }
    if j :| 0 <= j < |cs| && cs[j].fallbackFor.value in EligibleNames(d, ps) && StoodIn(cs[j], x) {
      assert cs[j] in cs;
      CandidatesExact(d, ps, cs[j]);
      var i :| 0 <= i < |ps| && ps[i] == cs[j];
    }
  }

  // ----------------------------------------------------------------- covering

  ghost predicate SelectedName(d: Device, ps: seq<PathTemplate>, name: string) {
    exists i :: 0 <= i < |ps| && ps[i].path == name && IsSelected(d, ps, ps[i])
  }

  /** Some eligible path named `a` is a fallback for the eligible path `b`. */
  ghost predicate StandsIn(d: Device, ps: seq<PathTemplate>, a: string, b: string) {
    && IsEligible(d, ps, b)
    && exists i :: 0 <= i < |ps| && ps[i].path == a && Meets(d, ps[i]) && ps[i].fallbackFor == Some(b)
  }

  /** Following fallbacks along `c` leads to a selected path. */
  ghost predicate Leads(d: Device, ps: seq<PathTemplate>, c: seq<string>)
    decreases |c|
  {
    c != [] &&
    if |c| == 1 then SelectedName(d, ps, c[0])
    else StandsIn(d, ps, c[0], c[1]) && Leads(d, ps, c[1..])
  }

  ghost predicate Covered(d: Device, ps: seq<PathTemplate>, name: string) {
    exists c :: Leads(d, ps, c) && c[0] == name
  }

  /** A rank that falls along every fallback: there is one exactly when fallbacks are acyclic. */
  ghost predicate Ranked(d: Device, ps: seq<PathTemplate>, rank: map<string, nat>) {
    forall a, b :: StandsIn(d, ps, a, b) ==> a in rank && b in rank && rank[b] < rank[a]
  }

  /** With acyclic fallbacks, following them from any eligible path reaches a selected one. */
  lemma {:induction false} AcyclicCovers(d: Device, ps: seq<PathTemplate>, rank: map<string, nat>, name: string)
    requires Ranked(d, ps, rank) && IsEligible(d, ps, name)
    ensures Covered(d, ps, name)
    decreases if name in rank then rank[name] else 0
  {
    var i :| 0 <= i < |ps| && ps[i].path == name && Meets(d, ps[i]);
    if IsSelected(d, ps, ps[i]) {
      assert Leads(d, ps, [name]);
      assert [name][0] == name;
    } else {
      var b := ps[i].fallbackFor.value;
      assert StandsIn(d, ps, name, b);
      AcyclicCovers(d, ps, rank, b);
      var c :| Leads(d, ps, c) && c[0] == b;
      var c' := [name] + c;
      assert c'[1..] == c;
      assert Leads(d, ps, c') && c'[0] == name;
    }
  }

  ghost predicate UniqueNames(ps: seq<PathTemplate>) {
    forall i, j :: 0 <= i < j < |ps| ==> ps[i].path != ps[j].path
  }

  /** With unique names the chain from a path is unique. */
  lemma {:induction false} ChainUnique(d: Device, ps: seq<PathTemplate>, c: seq<string>, e: seq<string>)
    requires UniqueNames(ps) && Leads(d, ps, c) && Leads(d, ps, e) && c[0] == e[0]
    ensures c == e
    decreases |c|
  {
    if |c| == 1 {
      if |e| > 1 { SelectedDoesNotStandIn(d, ps, c[0], e[1]); }
      assert c == [c[0]] && e == [e[0]];
    } else {
      if |e| == 1 { SelectedDoesNotStandIn(d, ps, e[0], c[1]); }
      assert c[1] == e[1];
      ChainUnique(d, ps, c[1..], e[1..]);
      assert c == [c[0]] + c[1..] && e == [e[0]] + e[1..];
    }
  }

  lemma SelectedDoesNotStandIn(d: Device, ps: seq<PathTemplate>, a: string, b: string)
    requires UniqueNames(ps) && SelectedName(d, ps, a)
    ensures !StandsIn(d, ps, a, b)
  {
    var i :| 0 <= i < |ps| && ps[i].path == a && IsSelected(d, ps, ps[i]);
    forall j | 0 <= j < |ps| && ps[j].path == a ensures ps[j] == ps[i] {
      assert i == j;
    }
  }

  ghost function ChainLength(d: Device, ps: seq<PathTemplate>, name: string): nat
    requires Covered(d, ps, name)
  {
    var c :| Leads(d, ps, c) && c[0] == name; |c|
  }

  ghost function Lengths(d: Device, ps: seq<PathTemplate>): map<string, nat>
    requires forall name :: IsEligible(d, ps, name) ==> Covered(d, ps, name)
  {
    map name | name in EligibleNames(d, ps) :: ChainLength(d, ps, name)
  }

  /** Conversely, with unique names, when every eligible path is covered its fallbacks are acyclic. */
  lemma CoveringIsAcyclic(d: Device, ps: seq<PathTemplate>)
    requires UniqueNames(ps) && forall name :: IsEligible(d, ps, name) ==> Covered(d, ps, name)
    ensures Ranked(d, ps, Lengths(d, ps))
  {
    var rank := Lengths(d, ps);
    forall a, b | StandsIn(d, ps, a, b) ensures a in rank && b in rank && rank[b] < rank[a] {
      assert IsEligible(d, ps, a);
      var ca :| Leads(d, ps, ca) && ca[0] == a && |ca| == rank[a];
      var cb :| Leads(d, ps, cb) && cb[0] == b && |cb| == rank[b];
      var c := [a] + cb;
      assert c[1..] == cb;
      assert Leads(d, ps, c);
      ChainUnique(d, ps, ca, c);
    }
  }

  /** Covering holds for all eligible paths if and only if their fallbacks are acyclic. */
  lemma CoveringIffAcyclic(d: Device, ps: seq<PathTemplate>)
    requires UniqueNames(ps)
    ensures (forall name :: IsEligible(d, ps, name) ==> Covered(d, ps, name)) <==>
            (exists rank :: Ranked(d, ps, rank))
  {
    if rank :| Ranked(d, ps, rank) {
      forall name | IsEligible(d, ps, name) ensures Covered(d, ps, name) { AcyclicCovers(d, ps, rank, name); }
    }
    if forall name :: IsEligible(d, ps, name) ==> Covered(d, ps, name) {
      CoveringIsAcyclic(d, ps);
    }
  }

  // ----------------------------------------------------------------- what a cycle does

  /** Nothing is selected if and only if every supported path is a fallback for an eligible one. */
  lemma NothingSelectedIffAllStandIn(d: Device, ps: seq<PathTemplate>)
    ensures Result(d, ps) == [] <==>
            forall i :: 0 <= i < |ps| && Meets(d, ps[i]) ==>
              ps[i].fallbackFor.Some? && IsEligible(d, ps, ps[i].fallbackFor.value)
  {
    hide Meets, Immediate, Candidates, Chosen, EligibleNames;
    if i :| 0 <= i < |ps| && IsSelected(d, ps, ps[i]) {
      assert Subscribes(ps[i], Subscription(ps[i]));
      SelectionIsExact(d, ps, Subscription(ps[i]));
    }
    if Result(d, ps) != [] {
      SelectionIsExact(d, ps, Result(d, ps)[0]);
    }
  }

  /** A path without requirements that is a fallback for `primary`. */
  function Alternative(name: string, primary: string): PathTemplate {
    PathTemplate(name, "", "", 0, "", false, Some(primary), [], [], [])
  }

  /** Two paths that are fallbacks for each other are both supported, and neither is subscribed to. */
  lemma MutualFallbacksSelectNothing(d: Device, a: string, b: string)
    ensures var ps := [Alternative(a, b), Alternative(b, a)];
            IsEligible(d, ps, a) && IsEligible(d, ps, b) && Result(d, ps) == []
  {
    var ps := [Alternative(a, b), Alternative(b, a)];
    assert ps[0].path == a && Meets(d, ps[0]) && ps[1].path == b && Meets(d, ps[1]);
    NothingSelectedIffAllStandIn(d, ps);
  }
}
