/** Bounded queues under the three overflow policies, with the history of what passed through them. */
module Channels {

  datatype Policy = BlockProducer | DropNewest | DropOldest

  /** What became of an update: taken in, turned away at a queue of the given length, or sent to nobody. */
  datatype Admission = Admitted | Refused(length: nat) | Gone

  /** An update that left the front of a queue of the given length: read, or overwritten by a newer one. */
  datatype Left = Left(item: string, consumed: bool, length: nat)

  datatype Channel = Channel(
    policy: Policy, capacity: nat, closed: bool, queue: seq<string>,
    offered: seq<string>, admissions: seq<Admission>, departed: seq<Left>)

  function NewChannel(policy: Policy, capacity: nat): Channel {
    Channel(policy, capacity, false, [], [], [], [])
  }

  /** The updates that were taken in. */
  function Kept(items: seq<string>, admissions: seq<Admission>): seq<string>
    requires |items| == |admissions|
  {
    if items == [] then []
    else
      var rest := Kept(items[..|items| - 1], admissions[..|items| - 1]);
      if admissions[|items| - 1].Admitted? then rest + [items[|items| - 1]] else rest
  }

  function Items(ls: seq<Left>): seq<string> {
    if ls == [] then [] else Items(ls[..|ls| - 1]) + [ls[|ls| - 1].item]
  }

  /** The updates that the consumer read. */
  function Consumed(ls: seq<Left>): seq<string> {
    if ls == [] then []
    else
      var rest := Consumed(ls[..|ls| - 1]);
      if ls[|ls| - 1].consumed then rest + [ls[|ls| - 1].item] else rest
  }

  function Overwritten(ls: seq<Left>): seq<string> {
    if ls == [] then []
    else
      var rest := Overwritten(ls[..|ls| - 1]);
      if ls[|ls| - 1].consumed then rest else rest + [ls[|ls| - 1].item]
  }

  // ------------------------------------------------------------------- operations

  /** A producer can hand over an update; a blocking one waits for room. */
  predicate CanOffer(c: Channel) {
    c.policy.BlockProducer? ==> c.closed || |c.queue| < c.capacity
  }

  function Offer(c: Channel, u: string): Channel
    requires CanOffer(c) && c.capacity > 0
  {
    var full := |c.queue| >= c.capacity;
    if c.closed then
      c.(offered := c.offered + [u], admissions := c.admissions + [Gone])
    else if full && c.policy.DropNewest? then
      c.(offered := c.offered + [u], admissions := c.admissions + [Refused(|c.queue|)])
    else if full && c.policy.DropOldest? then
      c.(offered := c.offered + [u], admissions := c.admissions + [Admitted],
      departed := c.departed + [Left(c.queue[0], false, |c.queue|)], queue := c.queue[1..] + [u])
    else
      c.(offered := c.offered + [u], admissions := c.admissions + [Admitted], queue := c.queue + [u])
  }

  function Consume(c: Channel): Channel
    requires c.queue != []
  {
    c.(departed := c.departed + [Left(c.queue[0], true, |c.queue|)], queue := c.queue[1..])
  }

  function CloseChannel(c: Channel): Channel {
    c.(closed := true)
  }

  /** The queue keeps its producer waiting: a blocking one that is open and full. */
  predicate Blocks(c: Channel) {
    c.policy == BlockProducer && !c.closed && c.capacity <= |c.queue|
  }

  // ------------------------------------------------------------------- invariant

  ghost predicate ChannelInv(c: Channel) {
    && c.capacity > 0 && |c.queue| <= c.capacity
    && |c.admissions| == |c.offered|
    && Kept(c.offered, c.admissions) == Items(c.departed) + c.queue
    && (forall i :: 0 <= i < |c.admissions| && c.admissions[i].Refused? ==>
         c.policy.DropNewest? && c.admissions[i].length == c.capacity)
    && (forall i :: 0 <= i < |c.admissions| && c.admissions[i].Gone? ==> c.closed)
    && (forall i :: 0 <= i < |c.departed| && !c.departed[i].consumed ==>
         c.policy.DropOldest? && c.departed[i].length == c.capacity)
  }

  lemma KeptExtend(items: seq<string>, admissions: seq<Admission>, u: string, a: Admission)
    requires |items| == |admissions|
    ensures Kept(items + [u], admissions + [a]) == Kept(items, admissions) + if a.Admitted? then [u] else []
  {
    assert (items + [u])[..|items|] == items;
    assert (admissions + [a])[..|items|] == admissions;
  }

  lemma ItemsExtend(ls: seq<Left>, l: Left)
    ensures Items(ls + [l]) == Items(ls) + [l.item]
    ensures Consumed(ls + [l]) == Consumed(ls) + if l.consumed then [l.item] else []
    ensures Overwritten(ls + [l]) == Overwritten(ls) + if l.consumed then [] else [l.item]
  {
    assert (ls + [l])[..|ls|] == ls;
  }

  /** What an offer does to the books, whatever the policy. */
  lemma OfferFlow(c: Channel, u: string)
    requires |c.admissions| == |c.offered| && CanOffer(c) && c.capacity > 0
    requires Kept(c.offered, c.admissions) == Items(c.departed) + c.queue
    ensures var c' := Offer(c, u);
            && c'.offered == c.offered + [u] && |c'.admissions| == |c'.offered|
            && Kept(c'.offered, c'.admissions) == Items(c'.departed) + c'.queue
  {
    hide Kept, Items;
    var c' := Offer(c, u);
    KeptExtend(c.offered, c.admissions, u, c'.admissions[|c.admissions|]);
    if |c'.departed| > |c.departed| {
      ItemsExtend(c.departed, c'.departed[|c.departed|]);
      assert c.queue == [c.queue[0]] + c.queue[1..];
    }
  }

  lemma OfferKeepsInv(c: Channel, u: string)
    requires ChannelInv(c) && CanOffer(c)
    ensures ChannelInv(Offer(c, u)) && Offer(c, u).offered == c.offered + [u]
  {
    hide Kept, Items;
    OfferFlow(c, u);
  }

  /** A queue with room takes the update in and overwrites nothing, whatever its policy. */
  lemma RoomIsUsed(c: Channel, u: string)
    requires ChannelInv(c) && CanOffer(c) && !c.closed && |c.queue| < c.capacity
    ensures Offer(c, u).queue == c.queue + [u] && Offer(c, u).departed == c.departed
    ensures Offer(c, u).admissions == c.admissions + [Admitted]
  {
  }

  /** A full queue: drop-newest keeps what it has, drop-oldest gives up its front for the update. */
  lemma FullQueueLosesOne(c: Channel, u: string)
    requires ChannelInv(c) && CanOffer(c) && !c.closed && |c.queue| == c.capacity
    ensures c.policy.DropNewest? ==>
              Offer(c, u).queue == c.queue && Offer(c, u).admissions == c.admissions + [Refused(c.capacity)]
    ensures c.policy.DropOldest? ==>
              [c.queue[0]] + Offer(c, u).queue == c.queue + [u] && Overwritten(Offer(c, u).departed) ==
              Overwritten(c.departed) + [c.queue[0]]
  {
    ItemsExtend(c.departed, Left(c.queue[0], false, c.capacity));
  }

  lemma ConsumeKeepsInv(c: Channel)
    requires ChannelInv(c) && c.queue != []
    ensures ChannelInv(Consume(c))
  {
    ItemsExtend(c.departed, Left(c.queue[0], true, |c.queue|));
    assert c.queue == [c.queue[0]] + c.queue[1..];
  }

  lemma CloseKeepsInv(c: Channel)
    requires ChannelInv(c)
    ensures ChannelInv(CloseChannel(c))
  {
  }

  lemma NewKeepsInv(policy: Policy, capacity: nat)
    requires capacity > 0
    ensures ChannelInv(NewChannel(policy, capacity))
  {
  }

  // ------------------------------------------------------------------- laws

  lemma {:induction false} AllKept(items: seq<string>, admissions: seq<Admission>)
    requires |items| == |admissions| && forall i :: 0 <= i < |admissions| ==> admissions[i].Admitted?
    ensures Kept(items, admissions) == items
  {
    if items != [] { AllKept(items[..|items| - 1], admissions[..|items| - 1]); }
  }

  lemma {:induction false} AllConsumed(ls: seq<Left>)
    requires forall i :: 0 <= i < |ls| ==> ls[i].consumed
    ensures Consumed(ls) == Items(ls)
  {
    if ls != [] { AllConsumed(ls[..|ls| - 1]); }
  }

  lemma {:induction false} ConsumedOrOverwritten(ls: seq<Left>)
    ensures |Consumed(ls)| + |Overwritten(ls)| == |Items(ls)| == |ls|
  {
    if ls != [] { ConsumedOrOverwritten(ls[..|ls| - 1]); }
  }

  /** A live blocking queue loses nothing: consumed plus queued is all that was offered, in order. */
  lemma BlockProducerLosesNothing(c: Channel)
    requires ChannelInv(c) && c.policy.BlockProducer? && !c.closed
    ensures Consumed(c.departed) + c.queue == c.offered
  {
    AllKept(c.offered, c.admissions);
    AllConsumed(c.departed);
  }

  /** A live drop-newest queue loses exactly the updates that met a full queue; the rest arrive in order. */
  lemma DropNewestLosesOnlyWhenFull(c: Channel)
    requires ChannelInv(c) && c.policy.DropNewest? && !c.closed
    ensures Consumed(c.departed) + c.queue == Kept(c.offered, c.admissions)
    ensures forall i :: 0 <= i < |c.admissions| && !c.admissions[i].Admitted? ==> c.admissions[i] == Refused(c.capacity)
  {
    AllConsumed(c.departed);
  }

  /** A live drop-oldest queue: everything offered was consumed, overwritten or is queued, in order. */
  lemma DropOldestAddsUp(c: Channel)
    requires ChannelInv(c) && c.policy.DropOldest? && !c.closed
    ensures Items(c.departed) + c.queue == c.offered
    ensures |Consumed(c.departed)| + |Overwritten(c.departed)| + |c.queue| == |c.offered|
    ensures forall i :: 0 <= i < |c.departed| && !c.departed[i].consumed ==> c.departed[i].length == c.capacity
  {
    AllKept(c.offered, c.admissions);
    ConsumedOrOverwritten(c.departed);
  }
}
