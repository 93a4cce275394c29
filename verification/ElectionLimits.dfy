/**
  Why each hypothesis of the safety theorem is there: runs of the same protocol with
  two leaders, one for each hypothesis that is dropped.
 */
module ElectionLimits {
  import opened Election

  lemma {:induction false} Extend(names: Names, c: Cluster, sts: seq<Step>, st: Step)
    requires ValidRun(names, c, sts) && Enabled(names, Run(names, c, sts), st)
    ensures ValidRun(names, c, sts + [st])
    ensures Run(names, c, sts + [st]) == Apply(names, Run(names, c, sts), st)
    ensures SustainedRun(names, c, sts) && Sustained(names, Run(names, c, sts), st) ==>
              SustainedRun(names, c, sts + [st])
    decreases |sts|
  {
    if sts == [] {
      assert [st][1..] == [];
      assert Run(names, c, [st]) == Run(names, Apply(names, c, st), []);
    } else {
      assert (sts + [st])[1..] == sts[1..] + [st];
      Extend(names, Apply(names, c, sts[0]), sts[1..], st);
    }
  }

  function ElectionOf(q: Proc, lease: Lease): seq<Step> {
    [Restart(q), Connect(q), Grant(q, lease), Elect(q), Adopt(q)]
  }

  /** The cluster once `q` has come up anew, been granted `lease` and read the key. */
  function Elected(names: Names, c: Cluster, q: Proc, lease: Lease): Cluster
    requires q in names
  {
    var key := Compete(c.key, names[q], lease);
    var state := if key.owner == names[q] then Leader else Follower(key.owner);
    Cluster(c.nodes[q := Node(Serving(lease), state, true, false)], key, c.alive + {lease}, c.granted[lease := q])
  }

  /** From any state, `q` can run one whole election. */
  lemma ElectionRuns(names: Names, c0: Cluster, sts: seq<Step>, q: Proc, lease: Lease)
    requires ValidRun(names, c0, sts) && q in names
    requires var c := Run(names, c0, sts); q in c.nodes && lease !in c.granted
    ensures ValidRun(names, c0, sts + ElectionOf(q, lease))
    ensures Run(names, c0, sts + ElectionOf(q, lease)) == Elected(names, Run(names, c0, sts), q, lease)
    ensures SustainedRun(names, c0, sts) ==> SustainedRun(names, c0, sts + ElectionOf(q, lease))
  {
    hide Run, ValidRun, SustainedRun;
    var c := Run(names, c0, sts);
    var s1, s2, s3, s4, s5 := Restart(q), Connect(q), Grant(q, lease), Elect(q), Adopt(q);
    Extend(names, c0, sts, s1);
    Extend(names, c0, sts + [s1], s2);
    Extend(names, c0, sts + [s1] + [s2], s3);
    Extend(names, c0, sts + [s1] + [s2] + [s3], s4);
    Extend(names, c0, sts + [s1] + [s2] + [s3] + [s4], s5);
    assert sts + [s1] + [s2] + [s3] + [s4] + [s5] == sts + ElectionOf(q, lease);
    var c5 := Run(names, c0, sts + ElectionOf(q, lease));
    assert c5.nodes == Elected(names, c, q, lease).nodes;
  }

  predicate TwoLeaders(c: Cluster, p: Proc, q: Proc) {
    p != q && Leads(c, p) && Leads(c, q) && !HasRevoked(c.nodes[p]) && !HasRevoked(c.nodes[q])
  }

  /** Some continuation of `c` has two leaders. */
  ghost predicate MaySplit(names: Names, c: Cluster, p: Proc, q: Proc) {
    exists sts :: ValidRun(names, c, sts) && TwoLeaders(Run(names, c, sts), p, q)
  }

  /**
    The hypothesis on leases is needed at every moment of every run: as soon as the
    attached lease lapses under an active claimant `p`, the run can be continued, with
    no further lapse, to one with two leaders.
   */
  lemma UnsustainedLapseAllowsTwoLeaders(names: Names, c: Cluster, st: Step, p: Proc, q: Proc, lease: Lease)
    requires Inv(names, c) && DistinctNames(names) && Enabled(names, c, st) && st.Lapse?
    requires p in c.nodes && c.key == Held(names[p], st.lease) && Claims(names[p], c.nodes[p])
    requires !HasRevoked(c.nodes[p]) && q in c.nodes && q != p && lease !in c.granted
    ensures !Sustained(names, c, st)
    ensures MaySplit(names, Apply(names, c, st), p, q)
  {
    var c1 := Apply(names, c, st);
    assert WellPhased(c.nodes[p]);
    var sts: seq<Step> := [];
    if c.nodes[p].phase.Answered? {
      Extend(names, c1, [], Adopt(p));
      sts := [Adopt(p)];
      assert [] + [Adopt(p)] == sts;
    }
    var c2 := Run(names, c1, sts);
    assert Leads(c2, p) && c2.key == Absent;
    ElectionRuns(names, c1, sts, q, lease);
    assert TwoLeaders(Run(names, c1, sts + ElectionOf(q, lease)), p, q);
  }

  // ------------------------------------------------------------------ shutdown

  function ShutdownOf(p: Proc): seq<Step> {
    [RequestShutdown(p), SeeShutdown(p), Revoke(p)]
  }

  /** The cluster once `p`, serving under `lease`, has been told to stop and given the lease back. */
  function Withdrawn(c: Cluster, p: Proc, lease: Lease): Cluster
    requires p in c.nodes
  {
    var n := c.nodes[p].(phase := Resigning(true), shutdown := true);
    c.(nodes := c.nodes[p := n], key := Detach(c.key, lease), alive := c.alive - {lease})
  }

  lemma ShutdownRuns(names: Names, c: Cluster, p: Proc, lease: Lease)
    requires p in names && p in c.nodes && c.nodes[p].phase == Serving(lease)
    ensures ValidRun(names, c, ShutdownOf(p)) && SustainedRun(names, c, ShutdownOf(p))
    ensures Run(names, c, ShutdownOf(p)) == Withdrawn(c, p, lease)
  {
    hide Run, ValidRun, SustainedRun;
    var s1, s2, s3 := RequestShutdown(p), SeeShutdown(p), Revoke(p);
    NoSteps(names, c);
    Extend(names, c, [], s1);
    Extend(names, c, [] + [s1], s2);
    Extend(names, c, [] + [s1] + [s2], s3);
    assert [] + [s1] + [s2] + [s3] == ShutdownOf(p);
    assert Run(names, c, ShutdownOf(p)).nodes == Withdrawn(c, p, lease).nodes;
  }

  lemma NoSteps(names: Names, c: Cluster)
    ensures ValidRun(names, c, []) && SustainedRun(names, c, []) && Run(names, c, []) == c
  {
  }

  /**
    Shutdown revokes before it steps down, so the exception for nodes that have given
    their lease back is needed in every run: whenever a leader serves under the attached
    lease and there is another node, shutting the leader down can be continued, with the
    hypothesis on leases kept, to a state in which both are Leader.
   */
  lemma RevokeBeforeStepDown(names: Names, c: Cluster, p: Proc, q: Proc, lease: Lease, other: Lease)
    requires Inv(names, c) && Leads(c, p) && c.nodes[p].phase == Serving(lease) && c.key == Held(names[p], lease)
    requires q in c.nodes && q != p && other !in c.granted
    ensures exists sts ::
              && ValidRun(names, c, sts) && SustainedRun(names, c, sts)
              && var c' := Run(names, c, sts); Leads(c', p) && HasRevoked(c'.nodes[p]) && Leads(c', q)
  {
    hide Run, ValidRun, SustainedRun;
    ShutdownRuns(names, c, p, lease);
    ElectionRuns(names, c, ShutdownOf(p), q, other);
    var sts := ShutdownOf(p) + ElectionOf(q, other);
    assert Leads(Run(names, c, sts), p) && Leads(Run(names, c, sts), q);
  }

  // ------------------------------------------------------------------ names and leases

  /** The first election of any cluster makes its node the leader. */
  lemma FirstElection(names: Names, p: Proc, lease: Lease)
    requires p in names
    ensures ValidRun(names, Init(names), ElectionOf(p, lease)) && SustainedRun(names, Init(names), ElectionOf(p, lease))
    ensures Run(names, Init(names), ElectionOf(p, lease)) == Elected(names, Init(names), p, lease)
  {
    ElectionRuns(names, Init(names), [], p, lease);
    assert [] + ElectionOf(p, lease) == ElectionOf(p, lease);
  }

  /** Two nodes lead, each serving under a lease of its own that is alive. */
  predicate TwoSustainedLeaders(c: Cluster, p: Proc, q: Proc) {
    && TwoLeaders(c, p, q)
    && c.nodes[p].phase.Serving? && c.nodes[p].phase.lease in c.alive
    && c.nodes[q].phase.Serving? && c.nodes[q].phase.lease in c.alive
  }

  /**
    A leader whose own lease is alive but not the attached one is not protected: once the
    attached lease lapses, another node can become Leader beside it.
   */
  lemma OwnLeaseDoesNotProtect(
    names: Names, c0: Cluster, sts: seq<Step>, p: Proc, q: Proc, attached: Lease, other: Lease)
    requires ValidRun(names, c0, sts) && q in names && q != p
    requires var c := Run(names, c0, sts);
             && Leads(c, p) && c.nodes[p].phase.Serving? && c.nodes[p].phase.lease in c.alive - {attached}
             && c.key.Held? && c.key.lease == attached && attached in c.alive
             && q in c.nodes && other !in c.granted && other !in c.alive
    ensures var sts' := sts + [Lapse(attached)] + ElectionOf(q, other);
            ValidRun(names, c0, sts') && TwoSustainedLeaders(Run(names, c0, sts'), p, q)
  {
    hide Run, ValidRun, SustainedRun, Sustained;
    Extend(names, c0, sts, Lapse(attached));
    ElectionRuns(names, c0, sts + [Lapse(attached)], q, other);
  }

  /** Throughout the run `p` keeps serving under its own lease, and that lease does not lapse. */
  ghost predicate KeepsServing(names: Names, c: Cluster, sts: seq<Step>, p: Proc, own: Lease)
    requires ValidRun(names, c, sts)
    decreases |sts|
  {
    && p in c.nodes && c.nodes[p].phase == Serving(own)
    && (sts != [] ==> sts[0] != Lapse(own) && KeepsServing(names, Apply(names, c, sts[0]), sts[1..], p, own))
  }

  /** Another node can lead beside `p` although `p` keeps serving under its own, living lease. */
  ghost predicate MaySplitBeside(names: Names, c: Cluster, p: Proc, q: Proc, own: Lease) {
    exists sts ::
      ValidRun(names, c, sts) && KeepsServing(names, c, sts, p, own) && TwoLeaders(Run(names, c, sts), p, q)
  }

  /** Steps of others, and lapses of other leases, do not disturb a serving node. */
  lemma {:induction false} OthersDoNotDisturb(names: Names, c: Cluster, sts: seq<Step>, p: Proc, own: Lease)
    requires ValidRun(names, c, sts) && p in c.nodes && c.nodes[p].phase == Serving(own)
    requires forall st :: st in sts ==> if st.Lapse? then st.lease != own else st.p != p
    ensures KeepsServing(names, c, sts, p, own)
    decreases |sts|
  {
    if sts != [] {
      assert sts[0] in sts;
      OthersDoNotDisturb(names, Apply(names, c, sts[0]), sts[1..], p, own);
    }
  }

  /** While a leader serves under the attached lease, which does not lapse, that lease stays attached. */
  lemma AttachedStays(names: Names, c: Cluster, st: Step, p: Proc, own: Lease)
    requires Inv(names, c) && DistinctNames(names) && Enabled(names, c, st) && st != Lapse(own)
    requires p in c.nodes && c.nodes[p].phase == Serving(own) && c.key == Held(names[p], own)
    requires Apply(names, c, st).nodes[p].phase == Serving(own)
    ensures Sustained(names, c, st) && Apply(names, c, st).key == Held(names[p], own)
  {
    assert LeaseIsOwn(c, p);
    if st.Revoke? { assert LeaseIsOwn(c, st.p); }
  }

  lemma {:induction false} AttachedLeaseProtects(names: Names, c: Cluster, sts: seq<Step>, p: Proc, own: Lease)
    requires Inv(names, c) && DistinctNames(names) && ValidRun(names, c, sts) && KeepsServing(names, c, sts, p, own)
    requires p in c.nodes && c.key == Held(names[p], own)
    ensures Inv(names, Run(names, c, sts)) && Run(names, c, sts).key == Held(names[p], own)
    decreases |sts|
  {
    if sts != [] {
      hide Inv;
      AttachedStays(names, c, sts[0], p, own);
      StepKeepsInv(names, c, sts[0]);
      AttachedLeaseProtects(names, Apply(names, c, sts[0]), sts[1..], p, own);
    }
  }

  /** Some lease number has not been used. */
  lemma FreshLeaseExists(used: set<Lease>) returns (lease: Lease)
    ensures lease !in used && forall l :: l in used ==> l < lease
    decreases |used|
  {
    lease := 0;
    if l :| l in used {
      var above := FreshLeaseExists(used - {l});
      lease := if above <= l then l + 1 else above;
      assert forall k :: k in used ==> k == l || k in used - {l};
    }
  }

  /**
    While a leader keeps serving under a lease of its own that lives, another node can
    lead beside it if and only if that lease is not the one attached to the election key.
   */
  lemma OwnLeaseProtectsIffAttached(names: Names, c: Cluster, p: Proc, q: Proc, own: Lease)
    requires Inv(names, c) && DistinctNames(names) && Leads(c, p) && c.nodes[p].phase == Serving(own)
    requires c.key.Held? && own in c.alive && c.key.lease in c.alive && q in c.nodes && q != p
    ensures MaySplitBeside(names, c, p, q, own) <==> c.key.lease != own
  {
    assert !HasRevoked(c.nodes[p]) && Claims(names[p], c.nodes[p]) && c.key.owner == names[p];
    if c.key.lease == own {
      forall sts | ValidRun(names, c, sts) && KeepsServing(names, c, sts, p, own)
        ensures !TwoLeaders(Run(names, c, sts), p, q)
      {
        AttachedLeaseProtects(names, c, sts, p, own);
      }
    } else {
      var other := FreshLeaseExists(c.granted.Keys + c.alive);
      BesideUnattached(names, c, p, q, own, other);
    }
  }

  lemma BesideUnattached(names: Names, c: Cluster, p: Proc, q: Proc, own: Lease, other: Lease)
    requires Inv(names, c) && Leads(c, p) && c.nodes[p].phase == Serving(own) && q in c.nodes && q != p
    requires c.key.Held? && own in c.alive && c.key.lease in c.alive && c.key.lease != own
    requires other !in c.granted && other !in c.alive
    ensures MaySplitBeside(names, c, p, q, own)
  {
    hide Run, ValidRun, KeepsServing;
    var attached := c.key.lease;
    NoSteps(names, c);
    OwnLeaseDoesNotProtect(names, c, [], p, q, attached, other);
    var sts := [] + [Lapse(attached)] + ElectionOf(q, other);
    OthersDoNotDisturb(names, c, sts, p, own);
    assert TwoLeaders(Run(names, c, sts), p, q);
  }

  /**
    A node that comes back and finds its own id leads without attaching its new lease:
    keeping that new lease alive does not help once the old, still attached one lapses.
    So it is in every cluster with two nodes.
   */
  lemma KeepingOwnLeaseAliveIsNotEnough(names: Names, p: Proc, q: Proc)
    requires p in names && q in names && p != q
    ensures exists sts ::
              ValidRun(names, Init(names), sts) && TwoSustainedLeaders(Run(names, Init(names), sts), p, q)
  {
    hide Run, ValidRun, SustainedRun, TwoSustainedLeaders;
    FirstElection(names, p, 0);
    ElectionRuns(names, Init(names), ElectionOf(p, 0), p, 1);
    OwnLeaseDoesNotProtect(names, Init(names), ElectionOf(p, 0) + ElectionOf(p, 1), p, q, 0, 2);
  }

  /** Two coordinators with one name both lead, though no lease ever lapses. */
  lemma SharedNameGivesTwoLeaders(names: Names, p: Proc, q: Proc)
    requires p in names && q in names && p != q && names[p] == names[q]
    ensures exists sts ::
              && ValidRun(names, Init(names), sts) && SustainedRun(names, Init(names), sts)
              && TwoLeaders(Run(names, Init(names), sts), p, q)
  {
    hide Run, ValidRun, SustainedRun, Sustained, Local, ElectionOf;
    FirstElection(names, p, 0);
    ElectionRuns(names, Init(names), ElectionOf(p, 0), q, 1);
    assert TwoLeaders(Run(names, Init(names), ElectionOf(p, 0) + ElectionOf(q, 1)), p, q);
  }

  /** No run in which the attached lease is sustained has two leaders. */
  ghost predicate IsSafe(names: Names) {
    forall sts, p, q :: ValidRun(names, Init(names), sts) && SustainedRun(names, Init(names), sts) ==>
      !TwoLeaders(Run(names, Init(names), sts), p, q)
  }

  /** Distinct names are exactly what safety takes. */
  lemma SafeIffDistinctNames(names: Names)
    ensures IsSafe(names) <==> DistinctNames(names)
  {
    hide Run, ValidRun, SustainedRun, Sustained, Local, ElectionOf;
    if DistinctNames(names) {
      forall sts, p, q | ValidRun(names, Init(names), sts) && SustainedRun(names, Init(names), sts)
        ensures !TwoLeaders(Run(names, Init(names), sts), p, q)
      {
        if TwoLeaders(Run(names, Init(names), sts), p, q) { AtMostOneLeader(names, sts, p, q); }
      }
    } else {
      var p, q :| p in names && q in names && names[p] == names[q] && p != q;
      SharedNameGivesTwoLeaders(names, p, q);
    }
  }
}
