/**
  The in-process event bus as concurrent steps: publishers, one router, subscribers that
  register at any time, and consumers that read at their own pace.
 */
module EventBus {
  import opened Channels

  /** `start` is the number of updates the router had distributed when the subscriber registered. */
  datatype Subscriber = Subscriber(channel: Channel, start: nat)

  datatype Phase =
    | Waiting                                        // for the next update
    | Received(u: string)                            // before the subscriber list is read
    | Delivering(u: string, pending: set<nat>)       // to these subscribers of the list that was read

  /** `loaded` counts the updates for which the subscriber list has been read. */
  datatype Bus = Bus(router: Channel, phase: Phase, subs: seq<Subscriber>, loaded: nat)

  datatype Step =
    | Publish(u: string)
    | Receive
    | LoadSubscribers
    | Deliver(i: nat)
    | FinishRound
    | Read(i: nat)
    | Drop(i: nat)                          // the consumer goes away
    | Register(policy: Policy, capacity: nat)

  function Init(capacity: nat): Bus {
    Bus(NewChannel(DropNewest, capacity), Waiting, [], 0)
  }

  predicate Enabled(b: Bus, st: Step) {
    match st
    case Publish(_) => true
    case Receive => b.phase.Waiting? && b.router.queue != []
    case LoadSubscribers => b.phase.Received?
    case Deliver(i) => b.phase.Delivering? && i in b.phase.pending && i < |b.subs| && CanOffer(b.subs[i].channel)
    case FinishRound => b.phase.Delivering? && b.phase.pending == {}
    case Read(i) => i < |b.subs| && !b.subs[i].channel.closed && b.subs[i].channel.queue != []
    case Drop(i) => i < |b.subs|
    case Register(_, capacity) => capacity > 0
  }

  function Update(b: Bus, i: nat, c: Channel): Bus
    requires i < |b.subs|
  {
    b.(subs := b.subs[i := b.subs[i].(channel := c)])
  }

  ghost function Everyone(n: nat): (s: set<nat>)
    ensures forall i: nat :: i in s <==> i < n
  {
    if n == 0 then {} else Everyone(n - 1) + {n - 1}
  }

  ghost function Apply(b: Bus, st: Step): Bus
    requires Inv(b) && Enabled(b, st)
  {
    match st
    case Publish(u) => b.(router := Offer(b.router, u))
    case Receive => b.(router := Consume(b.router), phase := Received(b.router.queue[0]))
    case LoadSubscribers =>
      b.(phase := if b.subs == [] then Waiting else Delivering(b.phase.u, Everyone(|b.subs|)), loaded := b.loaded + 1)
    case Deliver(i) =>
      assert SubscriberInv(b, i);
      Update(b, i, Offer(b.subs[i].channel, b.phase.u)).(phase := Delivering(b.phase.u, b.phase.pending - {i}))
    case FinishRound => b.(phase := Waiting)
    case Read(i) => Update(b, i, Consume(b.subs[i].channel))
    case Drop(i) => Update(b, i, CloseChannel(b.subs[i].channel))
    case Register(policy, capacity) => b.(subs := b.subs + [Subscriber(NewChannel(policy, capacity), b.loaded)])
  }

  // ------------------------------------------------------------------- invariant

  /** The updates that the router has taken from its queue. */
  function Routed(b: Bus): seq<string> {
    Consumed(b.router.departed)
  }

  /** How many routed updates subscriber `i` has been offered or missed. */
  function Reach(b: Bus, i: nat): int {
    if b.phase.Delivering? && i in b.phase.pending then b.loaded - 1 else b.loaded
  }

  ghost predicate RouterInv(b: Bus) {
    && ChannelInv(b.router) && b.router.policy.DropNewest? && !b.router.closed
    && |Routed(b)| == b.loaded + (if b.phase.Received? then 1 else 0)
    && (b.phase.Received? ==> Routed(b)[b.loaded] == b.phase.u)
    && (b.phase.Delivering? ==>
         && b.loaded > 0 && Routed(b)[b.loaded - 1] == b.phase.u
         && forall i :: i in b.phase.pending ==> i < |b.subs|)
  }

  /** What subscriber `i` was offered is a contiguous run of the routed updates, from its registration on. */
  ghost predicate SubscriberInv(b: Bus, i: nat)
    requires i < |b.subs| && RouterInv(b)
  {
    && ChannelInv(b.subs[i].channel)
    && b.subs[i].start <= Reach(b, i)
    && b.subs[i].channel.offered == Routed(b)[b.subs[i].start..Reach(b, i)]
  }

  ghost predicate Inv(b: Bus) {
    RouterInv(b) && forall i :: 0 <= i < |b.subs| ==> SubscriberInv(b, i)
  }

  lemma RouterStep(b: Bus, st: Step)
    requires Inv(b) && Enabled(b, st)
    ensures RouterInv(Apply(b, st)) && Routed(b) <= Routed(Apply(b, st))
  {
    match st
    case Publish(u) => OfferKeepsInv(b.router, u);
    case Receive =>
      ConsumeKeepsInv(b.router);
      ItemsExtend(b.router.departed, Left(b.router.queue[0], true, |b.router.queue|));
    case _ =>
  }

  /** The channel of subscriber `i` after a step. */
  lemma ChannelStep(b: Bus, st: Step, i: nat)
    requires Inv(b) && Enabled(b, st) && i < |b.subs|
    ensures var s, s' := b.subs[i], Apply(b, st).subs[i];
            && s'.start == s.start && ChannelInv(s'.channel)
            && s'.channel.offered == s.channel.offered + if st == Deliver(i) then [b.phase.u] else []
  {
    hide ChannelInv, Offer, Everyone;
    assert SubscriberInv(b, i);
    if st == Deliver(i) {
      OfferKeepsInv(b.subs[i].channel, b.phase.u);
    } else if st == Read(i) {
      ConsumeKeepsInv(b.subs[i].channel);
    } else if st == Drop(i) {
      CloseKeepsInv(b.subs[i].channel);
    }
  }

  lemma ReachStep(b: Bus, st: Step, i: nat)
    requires Inv(b) && Enabled(b, st) && i < |b.subs|
    ensures Reach(Apply(b, st), i) == Reach(b, i) + if st == Deliver(i) then 1 else 0
  {
    hide ChannelInv, Offer, Consume;
  }

  lemma SubscriberStep(b: Bus, st: Step, i: nat)
    requires Inv(b) && Enabled(b, st) && RouterInv(Apply(b, st)) && Routed(b) <= Routed(Apply(b, st))
    requires i < |Apply(b, st).subs|
    ensures SubscriberInv(Apply(b, st), i)
  {
    hide ChannelInv, Offer, Consume, Everyone, Consumed;
    var b' := Apply(b, st);
    if i < |b.subs| {
      assert SubscriberInv(b, i);
      ChannelStep(b, st, i);
      ReachStep(b, st, i);
      var k := b.subs[i].start;
      assert Routed(b')[k..Reach(b, i)] == Routed(b)[k..Reach(b, i)];
      if st == Deliver(i) {
        assert Routed(b')[k..b.loaded] == Routed(b')[k..b.loaded - 1] + [Routed(b')[b.loaded - 1]];
      }
    } else {
      NewKeepsInv(st.policy, st.capacity);
    }
  }

  lemma StepKeepsInv(b: Bus, st: Step)
    requires Inv(b) && Enabled(b, st)
    ensures Inv(Apply(b, st))
  {
    RouterStep(b, st);
    forall i | 0 <= i < |Apply(b, st).subs| ensures SubscriberInv(Apply(b, st), i) {
      SubscriberStep(b, st, i);
    }
  }

  // ------------------------------------------------------------------- whole runs

  ghost predicate ValidRun(b: Bus, sts: seq<Step>)
    requires Inv(b)
    decreases |sts|
  {
    sts == [] || (Enabled(b, sts[0]) && (StepKeepsInv(b, sts[0]); ValidRun(Apply(b, sts[0]), sts[1..])))
  }

  ghost function Run(b: Bus, sts: seq<Step>): (b': Bus)
    requires Inv(b) && ValidRun(b, sts)
    ensures Inv(b')
    decreases |sts|
  {
    if sts == [] then b else StepKeepsInv(b, sts[0]); Run(Apply(b, sts[0]), sts[1..])
  }

  lemma InitInv(capacity: nat)
    requires capacity > 0
    ensures Inv(Init(capacity))
  {
  }

  // ------------------------------------------------------------------- progress

  predicate IsRouterStep(st: Step) {
    st.Receive? || st.LoadSubscribers? || st.Deliver? || st.FinishRound?
  }

  /**
    The router stands still if and only if it has nothing to route, or every subscriber
    still to be served keeps it waiting with a full queue.
   */
  lemma RouterStallsIff(b: Bus)
    requires Inv(b)
    ensures (forall st :: IsRouterStep(st) ==> !Enabled(b, st)) <==>
            || (b.phase.Waiting? && b.router.queue == [])
            || (b.phase.Delivering? && b.phase.pending != {} &&
                forall i :: i in b.phase.pending ==> i < |b.subs| && Blocks(b.subs[i].channel))
  {
    match b.phase
    case Waiting => assert Enabled(b, Receive) <==> b.router.queue != [];
    case Received(_) => assert Enabled(b, LoadSubscribers);
    case Delivering(_, pending) =>
      assert Enabled(b, FinishRound) <==> pending == {};
      forall i | i in pending ensures i < |b.subs| && (Enabled(b, Deliver(i)) <==> !Blocks(b.subs[i].channel)) {
      }
  }

  /** A publisher never waits; and once the consumer of a full queue reads, its delivery can go on. */
  lemma ReadingUnblocks(b: Bus, u: string, i: nat)
    requires Inv(b)
    ensures Enabled(b, Publish(u))
    ensures b.phase.Delivering? && i in b.phase.pending && i < |b.subs| && Blocks(b.subs[i].channel) ==>
              Enabled(b, Read(i)) && Enabled(Apply(b, Read(i)), Deliver(i))
  {
    if i < |b.subs| { assert SubscriberInv(b, i); }
  }

  /**
    Over every run: what a subscriber was offered is a contiguous, in-order run of the
    updates that the router accepted, starting at its registration; between rounds it
    reaches to the last update routed, and the router turned updates away only when its
    own queue was full.
   */
  lemma OfferedIsContiguous(capacity: nat, sts: seq<Step>, i: nat)
    requires capacity > 0 && Inv(Init(capacity)) && ValidRun(Init(capacity), sts)
    requires i < |Run(Init(capacity), sts).subs|
    ensures var b := Run(Init(capacity), sts);
            var c := b.subs[i].channel;
            var accepted := Kept(b.router.offered, b.router.admissions);
            && |b.router.admissions| == |b.router.offered|
            && b.subs[i].start + |c.offered| <= |accepted|
            && c.offered == accepted[b.subs[i].start..b.subs[i].start + |c.offered|]
            && (b.phase.Waiting? ==> b.subs[i].start + |c.offered| == |Routed(b)|)
            && (forall k :: 0 <= k < |b.router.admissions| && !b.router.admissions[k].Admitted? ==>
                 b.router.admissions[k] == Refused(b.router.capacity))
  {
    var b := Run(Init(capacity), sts);
    assert SubscriberInv(b, i);
    DropNewestLosesOnlyWhenFull(b.router);
    var accepted := Kept(b.router.offered, b.router.admissions);
    assert accepted == Routed(b) + b.router.queue;
  }

  /** Over every run, each policy keeps its promise to a subscriber whose consumer is still there. */
  lemma PoliciesKeepTheirPromises(capacity: nat, sts: seq<Step>, i: nat)
    requires capacity > 0 && Inv(Init(capacity)) && ValidRun(Init(capacity), sts)
    requires i < |Run(Init(capacity), sts).subs|
    ensures var c := Run(Init(capacity), sts).subs[i].channel;
            !c.closed ==>
              match c.policy
              case BlockProducer => Consumed(c.departed) + c.queue == c.offered
              case DropNewest =>
                && |c.admissions| == |c.offered|
                && Consumed(c.departed) + c.queue == Kept(c.offered, c.admissions)
                && (forall k :: 0 <= k < |c.admissions| && !c.admissions[k].Admitted? ==>
                     c.admissions[k] == Refused(c.capacity))
              case DropOldest =>
                && Items(c.departed) + c.queue == c.offered
                && |Consumed(c.departed)| + |Overwritten(c.departed)| + |c.queue| == |c.offered|
                && (forall k :: 0 <= k < |c.departed| && !c.departed[k].consumed ==>
                     c.departed[k].length == c.capacity)
  {
    var b := Run(Init(capacity), sts);
    assert SubscriberInv(b, i);
    var c := b.subs[i].channel;
    if !c.closed {
      match c.policy
      case BlockProducer => BlockProducerLosesNothing(c);
      case DropNewest => DropNewestLosesOnlyWhenFull(c);
      case DropOldest => DropOldestAddsUp(c);
    }
  }
}
