/**
  Leader election over etcd as a transition system: any number of coordinators, one
  election key with the lease attached to it, and every interleaving of their steps
  with lease expiry, lost answers, crashes and restarts.
 */
module Election {

  type Proc = nat
  type Lease = nat

  datatype LeaderState = Leader | Follower(leaderId: string) | Electing

  /** Where a coordinator is inside `start_election`. */
  datatype Phase =
    | Idle                                      // not started
    | Connected                                 // session open, no lease yet
    | Granted(lease: Lease)                     // lease granted, transaction not executed
    | Answered(lease: Lease, leaderId: string)  // transaction executed; the answer names a leader
    | Serving(lease: Lease)                     // in the keep-alive loop
    | Revoking(lease: Lease)                    // saw the shutdown signal
    | Resigning(revoked: bool)                  // about to report the session closed
    | Leaving(revoked: bool)                    // about to step down
    | Exited                                    // `start_election` returned

  datatype Node = Node(phase: Phase, state: LeaderState, connected: bool, shutdown: bool)

  /** The election key: absent, or holding a node id with a lease attached. */
  datatype Entry = Absent | Held(owner: string, lease: Lease)

  /** `granted` remembers which coordinator each lease was granted to. */
  datatype Cluster = Cluster(nodes: map<Proc, Node>, key: Entry, alive: set<Lease>, granted: map<Lease, Proc>)

  type Names = map<Proc, string>

  const Fresh := Node(Idle, Electing, false, false)

  datatype Step =
    | Connect(p: Proc)
    | Grant(p: Proc, lease: Lease)
    | GrantLost(p: Proc, lease: Lease)   // granted, but the answer never arrives
    | Elect(p: Proc)                     // the create-revision-is-zero transaction
    | ElectLost(p: Proc)                 // executed, but the answer never arrives
    | Adopt(p: Proc)                     // acts on the transaction's answer
    | KeepAlive(p: Proc)
    | Fail(p: Proc)                      // any request fails without effect
    | RequestShutdown(p: Proc)
    | SeeShutdown(p: Proc)
    | Revoke(p: Proc)
    | Disconnect(p: Proc)
    | StepDown(p: Proc)
    | StartAgain(p: Proc)                // `start_election` is called again
    | Restart(p: Proc)                   // the process crashes or exits and comes back
    | Lapse(lease: Lease)                // etcd expires a lease

  /** The key once `lease` is gone. */
  function Detach(key: Entry, lease: Lease): Entry {
    if key.Held? && key.lease == lease then Absent else key
  }

  /** The key after the transaction of a node called `name` holding `lease`. */
  function Compete(key: Entry, name: string, lease: Lease): Entry {
    if key.Absent? then Held(name, lease) else key
  }

  /** The steps a coordinator may take, by where it is. */
  predicate MayTake(n: Node, st: Step) {
    match st
    case Connect(_) => n.phase.Idle?
    case Grant(_, _) => n.phase.Connected?
    case GrantLost(_, _) => n.phase.Connected?
    case Elect(_) => n.phase.Granted?
    case ElectLost(_) => n.phase.Granted?
    case Adopt(_) => n.phase.Answered?
    case KeepAlive(_) => n.phase.Serving?
    case Fail(_) =>
      n.phase.Idle? || n.phase.Connected? || n.phase.Granted? || n.phase.Serving? || n.phase.Revoking?
    case RequestShutdown(_) => true
    case SeeShutdown(_) => n.phase.Serving? && n.shutdown
    case Revoke(_) => n.phase.Revoking?
    case Disconnect(_) => n.phase.Resigning?
    case StepDown(_) => n.phase.Leaving?
    case StartAgain(_) => n.phase.Exited?
    case Restart(_) => true
    case Lapse(_) => false
  }

  /** A step is enabled when its coordinator may take it and etcd can play its part:
      leases are fresh, and the transaction does not attach a lease that is gone. */
  predicate Enabled(names: Names, c: Cluster, st: Step) {
    if st.Lapse? then st.lease in c.alive
    else
      && st.p in c.nodes && st.p in names
      && MayTake(c.nodes[st.p], st)
      && (st.Grant? || st.GrantLost? ==> st.lease !in c.granted)
      && (st.Elect? || st.ElectLost? ==> c.key.Held? || c.nodes[st.p].phase.lease in c.alive)
  }

  /** What a step does to the coordinator that takes it. */
  function Local(name: string, key: Entry, n: Node, st: Step): Node {
    match st
    case Connect(_) => n.(phase := Connected, connected := true)
    case Grant(_, l) => n.(phase := Granted(l))
    case GrantLost(_, _) => n.(phase := Resigning(false))
    case Elect(_) =>
      if n.phase.Granted? then n.(phase := Answered(n.phase.lease, Compete(key, name, n.phase.lease).owner)) else n
    case ElectLost(_) => n.(phase := Resigning(false))
    case Adopt(_) =>
      if n.phase.Answered? then
        n.(phase := Serving(n.phase.lease),
        state := if n.phase.leaderId == name then Leader else Follower(n.phase.leaderId))
      else n
    case KeepAlive(_) => n
    case Fail(_) => n.(phase := Resigning(false))
    case RequestShutdown(_) => n.(shutdown := true)
    case SeeShutdown(_) => if n.phase.Serving? then n.(phase := Revoking(n.phase.lease)) else n
    case Revoke(_) => n.(phase := Resigning(true))
    case Disconnect(_) => if n.phase.Resigning? then n.(phase := Leaving(n.phase.revoked), connected := false) else n
    case StepDown(_) => n.(phase := Exited, state := Electing)
    case StartAgain(_) => n.(phase := Idle)
    case Restart(_) => Fresh
    case Lapse(_) => n
  }

  function Apply(names: Names, c: Cluster, st: Step): Cluster
    requires Enabled(names, c, st)
  {
    if st.Lapse? then
      c.(key := Detach(c.key, st.lease), alive := c.alive - {st.lease})
    else
      var n := c.nodes[st.p];
      var c1 := c.(nodes := c.nodes[st.p := Local(names[st.p], c.key, n, st)]);
      match st
      case Grant(p, l) => c1.(alive := c.alive + {l}, granted := c.granted[l := p])
      case GrantLost(p, l) => c1.(alive := c.alive + {l}, granted := c.granted[l := p])
      case Elect(p) => c1.(key := Compete(c.key, names[p], n.phase.lease))
      case ElectLost(p) => c1.(key := Compete(c.key, names[p], n.phase.lease))
      case Revoke(p) => c1.(key := Detach(c.key, n.phase.lease), alive := c.alive - {n.phase.lease})
      case _ => c1
  }

  function Init(names: Names): Cluster {
    Cluster(map p | p in names :: Fresh, Absent, {}, map[])
  }

  // ------------------------------------------------------------------ invariants

  /** The node leads, or has been told that it does. */
  predicate Claims(name: string, n: Node) {
    n.state.Leader? || (n.phase.Answered? && n.phase.leaderId == name)
  }

  /** The node has given its lease back on shutdown, and has not stepped down yet. */
  predicate HasRevoked(n: Node) {
    (n.phase.Resigning? || n.phase.Leaving?) && n.phase.revoked
  }

  predicate WellPhased(n: Node) {
    && (n.phase.Idle? || n.phase.Exited? ==> n.state.Electing? && !n.connected)
    && (n.phase.Connected? || n.phase.Granted? || n.phase.Answered? ==> n.state.Electing?)
    && (n.phase.Revoking? ==> n.shutdown)
    && (n.phase.Leaving? ==> !n.connected)
  }

  ghost predicate LeasesOwned(names: Names, c: Cluster) {
    && c.nodes.Keys == names.Keys
    && (forall p :: p in c.nodes ==> WellPhased(c.nodes[p]) && LeaseIsOwn(c, p))
    && (c.key.Held? ==>
         && c.key.lease in c.granted && c.granted[c.key.lease] in names
         && names[c.granted[c.key.lease]] == c.key.owner)
  }

  ghost predicate LeaseIsOwn(c: Cluster, p: Proc)
    requires p in c.nodes
  {
    var ph := c.nodes[p].phase;
    ph.Granted? || ph.Answered? || ph.Serving? || ph.Revoking? ==>
      ph.lease in c.granted && c.granted[ph.lease] == p
  }

  /** Every claimant that has not given its lease back is the one the key names. */
  ghost predicate ClaimsAreKeyed(names: Names, c: Cluster)
    requires c.nodes.Keys == names.Keys
  {
    forall p :: p in c.nodes && Claims(names[p], c.nodes[p]) && !HasRevoked(c.nodes[p]) ==>
      c.key.Held? && c.key.owner == names[p]
  }

  ghost predicate Inv(names: Names, c: Cluster) {
    LeasesOwned(names, c) && ClaimsAreKeyed(names, c)
  }

  ghost predicate DistinctNames(names: Names) {
    forall p, q :: p in names && q in names && names[p] == names[q] ==> p == q
  }

  /**
    The hypothesis on time: the lease attached to the key does not lapse while the
    node it names claims leadership and has not given its lease back.
   */
  ghost predicate Sustained(names: Names, c: Cluster, st: Step) {
    st.Lapse? && c.key.Held? && c.key.lease == st.lease ==>
      forall p :: p in c.nodes && p in names && names[p] == c.key.owner && Claims(names[p], c.nodes[p]) ==>
        HasRevoked(c.nodes[p])
  }

  lemma LeasesStayOwned(names: Names, c: Cluster, st: Step)
    requires LeasesOwned(names, c) && Enabled(names, c, st)
    ensures LeasesOwned(names, Apply(names, c, st))
  {
    var c' := Apply(names, c, st);
    forall p | p in c'.nodes ensures WellPhased(c'.nodes[p]) && LeaseIsOwn(c', p) {
      LeaseStaysOwn(names, c, st, p);
    }
    if !st.Lapse? {
      assert WellPhased(c.nodes[st.p]) && LeaseIsOwn(c, st.p);
    }
    hide WellPhased, LeaseIsOwn, Local;
  }

  lemma LeaseStaysOwn(names: Names, c: Cluster, st: Step, p: Proc)
    requires LeasesOwned(names, c) && Enabled(names, c, st) && p in c.nodes
    ensures var c' := Apply(names, c, st); WellPhased(c'.nodes[p]) && LeaseIsOwn(c', p)
  {
    assert WellPhased(c.nodes[p]) && LeaseIsOwn(c, p);
    if !st.Lapse? && st.p == p {
      LocalWellPhased(names[p], c.key, c.nodes[p], st);
    }
    hide WellPhased;
  }

  lemma LocalWellPhased(name: string, key: Entry, n: Node, st: Step)
    requires WellPhased(n) && MayTake(n, st)
    ensures WellPhased(Local(name, key, n, st))
  {
  }

  lemma ClaimStaysKeyed(names: Names, c: Cluster, st: Step, p: Proc)
    requires Inv(names, c) && DistinctNames(names) && Enabled(names, c, st) && Sustained(names, c, st) && p in c.nodes
    requires var n := Apply(names, c, st).nodes[p]; Claims(names[p], n) && !HasRevoked(n)
    ensures var key := Apply(names, c, st).key; key.Held? && key.owner == names[p]
  {
    assert WellPhased(c.nodes[p]) && LeaseIsOwn(c, p);
    if st.Revoke? {
      assert WellPhased(c.nodes[st.p]) && LeaseIsOwn(c, st.p);
    }
  }

  lemma StepKeepsInv(names: Names, c: Cluster, st: Step)
    requires Inv(names, c) && DistinctNames(names) && Enabled(names, c, st) && Sustained(names, c, st)
    ensures Inv(names, Apply(names, c, st))
  {
    LeasesStayOwned(names, c, st);
    var c' := Apply(names, c, st);
    forall p | p in c'.nodes && Claims(names[p], c'.nodes[p]) && !HasRevoked(c'.nodes[p])
      ensures c'.key.Held? && c'.key.owner == names[p]
    {
      ClaimStaysKeyed(names, c, st, p);
    }
  }

  // ------------------------------------------------------------------ whole runs

  ghost predicate ValidRun(names: Names, c: Cluster, sts: seq<Step>)
    decreases |sts|
  {
    sts == [] || (Enabled(names, c, sts[0]) && ValidRun(names, Apply(names, c, sts[0]), sts[1..]))
  }

  ghost function Run(names: Names, c: Cluster, sts: seq<Step>): Cluster
    requires ValidRun(names, c, sts)
    decreases |sts|
  {
    if sts == [] then c else Run(names, Apply(names, c, sts[0]), sts[1..])
  }

  ghost predicate SustainedRun(names: Names, c: Cluster, sts: seq<Step>)
    requires ValidRun(names, c, sts)
    decreases |sts|
  {
    sts == [] || (Sustained(names, c, sts[0]) && SustainedRun(names, Apply(names, c, sts[0]), sts[1..]))
  }

  lemma {:induction false} RunKeepsInv(names: Names, c: Cluster, sts: seq<Step>)
    requires Inv(names, c) && DistinctNames(names) && ValidRun(names, c, sts) && SustainedRun(names, c, sts)
    ensures Inv(names, Run(names, c, sts))
    decreases |sts|
  {
    if sts != [] {
      StepKeepsInv(names, c, sts[0]);
      RunKeepsInv(names, Apply(names, c, sts[0]), sts[1..]);
    }
  }

  predicate Leads(c: Cluster, p: Proc) {
    p in c.nodes && c.nodes[p].state.Leader?
  }

  /**
    Safety: for any number of distinctly named coordinators and any interleaving in
    which the attached lease is sustained, at most one coordinator that has not given
    its lease back is Leader, and the election key names it. A coordinator that was asked
    to shut down, or has seen the request, counts until its lease is revoked.
   */
  lemma AtMostOneLeader(names: Names, sts: seq<Step>, p: Proc, q: Proc)
    requires DistinctNames(names) && ValidRun(names, Init(names), sts) && SustainedRun(names, Init(names), sts)
    requires var c := Run(names, Init(names), sts);
             Leads(c, p) && Leads(c, q) && !HasRevoked(c.nodes[p]) && !HasRevoked(c.nodes[q])
    ensures p == q
    ensures var c := Run(names, Init(names), sts); p in names && c.key.Held? && c.key.owner == names[p]
  {
    RunKeepsInv(names, Init(names), sts);
  }

  /**
    An undisturbed coordinator gets through the election: it becomes Leader when the key
    is free, and follows the node that the key names when it is not.
   */
  lemma ElectionElects(names: Names, c: Cluster, p: Proc, lease: Lease)
    requires p in c.nodes && p in names && c.nodes[p].phase == Idle && lease !in c.granted
    ensures var sts := [Connect(p), Grant(p, lease), Elect(p), Adopt(p)];
            && ValidRun(names, c, sts)
            && var c' := Run(names, c, sts);
            && p in c'.nodes && c'.nodes[p].phase == Serving(lease) && c'.nodes[p].connected
            && c'.key == (if c.key == Absent then Held(names[p], lease) else c.key)
            && c'.nodes[p].state == if c'.key.owner == names[p] then Leader else Follower(c'.key.owner)
  {
    var c1 := Apply(names, c, Connect(p));
    var c2 := Apply(names, c1, Grant(p, lease));
    var c3 := Apply(names, c2, Elect(p));
    var c4 := Apply(names, c3, Adopt(p));
    var none: seq<Step> := [];
    var s4, s3, s2 := [Adopt(p)], [Elect(p), Adopt(p)], [Grant(p, lease), Elect(p), Adopt(p)];
    assert s4[1..] == none && s3[1..] == s4 && s2[1..] == s3;
    assert ValidRun(names, c4, none) && Run(names, c4, none) == c4;
    assert ValidRun(names, c3, s4) && Run(names, c3, s4) == c4;
    assert ValidRun(names, c2, s3) && Run(names, c2, s3) == c4;
    assert ValidRun(names, c1, s2) && Run(names, c1, s2) == c4;
    assert [Connect(p), Grant(p, lease), Elect(p), Adopt(p)][1..] == s2;
  }

  /** The way out: a node that serves and was asked to shut down gives its lease back and steps down. */
  lemma ShutdownFreesTheKey(names: Names, c: Cluster, p: Proc)
    requires p in c.nodes && p in names && c.nodes[p].phase.Serving? && c.nodes[p].shutdown
    ensures var sts := [SeeShutdown(p), Revoke(p), Disconnect(p), StepDown(p)];
            && ValidRun(names, c, sts)
            && var c' := Run(names, c, sts);
            && p in c'.nodes && c'.nodes[p] == Node(Exited, Electing, false, true)
            && c.nodes[p].phase.lease !in c'.alive
            && c'.key == if c.key.Held? && c.key.lease == c.nodes[p].phase.lease then Absent else c.key
  {
    var c1 := Apply(names, c, SeeShutdown(p));
    var c2 := Apply(names, c1, Revoke(p));
    var c3 := Apply(names, c2, Disconnect(p));
    var c4 := Apply(names, c3, StepDown(p));
    var none: seq<Step> := [];
    var s4, s3, s2 := [StepDown(p)], [Disconnect(p), StepDown(p)], [Revoke(p), Disconnect(p), StepDown(p)];
    assert s4[1..] == none && s3[1..] == s4 && s2[1..] == s3;
    assert ValidRun(names, c4, none) && Run(names, c4, none) == c4;
    assert ValidRun(names, c3, s4) && Run(names, c3, s4) == c4;
    assert ValidRun(names, c2, s3) && Run(names, c2, s3) == c4;
    assert ValidRun(names, c1, s2) && Run(names, c1, s2) == c4;
    assert [SeeShutdown(p), Revoke(p), Disconnect(p), StepDown(p)][1..] == s2;
  }

  lemma {:induction false} RunKeepsLeases(names: Names, c: Cluster, sts: seq<Step>)
    requires LeasesOwned(names, c) && ValidRun(names, c, sts)
    ensures LeasesOwned(names, Run(names, c, sts))
    decreases |sts|
  {
    if sts != [] {
      LeasesStayOwned(names, c, sts[0]);
      RunKeepsLeases(names, Apply(names, c, sts[0]), sts[1..]);
    }
  }

  /** With no hypothesis at all: every exit of `start_election` leaves the node Electing and disconnected. */
  lemma ExitIsElectingAndDisconnected(names: Names, sts: seq<Step>, p: Proc)
    requires ValidRun(names, Init(names), sts)
    requires var c := Run(names, Init(names), sts); p in c.nodes && c.nodes[p].phase.Exited?
    ensures var c := Run(names, Init(names), sts); c.nodes[p].state == Electing && !c.nodes[p].connected
  {
    RunKeepsLeases(names, Init(names), sts);
    assert WellPhased(Run(names, Init(names), sts).nodes[p]);
  }

  predicate Settled(n: Node) {
    && !n.state.Leader?
    && (n.phase.Serving? || n.phase.Revoking? || n.phase.Resigning? || n.phase.Leaving? || n.phase.Exited?)
  }

  /** A follower never retries: it leads again only after `start_election` is called anew. */
  lemma {:induction false} FollowerNeverRetries(names: Names, c: Cluster, sts: seq<Step>, p: Proc)
    requires ValidRun(names, c, sts) && p in c.nodes && Settled(c.nodes[p])
    requires StartAgain(p) !in sts && Restart(p) !in sts
    ensures var c' := Run(names, c, sts); p in c'.nodes && Settled(c'.nodes[p])
    decreases |sts|
  {
    if sts != [] {
      assert sts[0] in sts;
      var c1 := Apply(names, c, sts[0]);
      assert Settled(c1.nodes[p]);
      FollowerNeverRetries(names, c1, sts[1..], p);
    }
  }
}
