/**
  What every run of `record`, `drain_expired` and `drain_all` guarantees, for any
  interleaving of calls and any monotone clock.
 */
module CorrelationRuns {
  import opened Ownership
  import opened CorrelationLedger

  // ------------------------------------------------------------------- one call

  /** What the wildcard match does when it finds the unambiguous slot `j`. */
  lemma SettlePicks(window: int, s: Ledger, sig: Signal, pick: map<Key, int>, end: int, j: Key)
    requires Shape(s) && pick.Keys == Examined(s, sig.key) && Picks(window, s, sig.key, pick, j)
    ensures j in pick && j in s.slots && IsOpen(s.store[s.slots[j]], window, pick[j])
    ensures SameGroup(j, sig.key) && (sig.key.sub == "" || j.sub == "")
    ensures Settle(window, s, sig, pick, end) ==
            (Advance(Take(s, j, Upgraded(j, sig.key), sig, pick[j]), end), Absorbed)
  {
    PicksExamined(window, s, sig.key, pick, j);
    forall j' | Picks(window, s, sig.key, pick, j') ensures j' == j {
      assert j' in {j};
    }
  }

  lemma SettleOpensSlot(window: int, s: Ledger, sig: Signal, pick: map<Key, int>, end: int)
    requires Shape(s) && pick.Keys == Examined(s, sig.key) && forall j :: !Picks(window, s, sig.key, pick, j)
    ensures Settle(window, s, sig, pick, end) == (Advance(OpenSlot(s, sig, end), end), NewSlot)
  {
  }

  lemma PickMayTake(window: int, s: Ledger, sig: Signal, pick: map<Key, int>, mid: int, end: int, j: Key)
    requires Shape(s) && pick.Keys == Examined(s, sig.key) && sig.key !in s.slots
    requires s.now <= mid && Between(mid, pick, end) && Picks(window, s, sig.key, pick, j)
    ensures j in pick && MayTake(window, s, j, Upgraded(j, sig.key), sig.key, pick[j]) && pick[j] <= end
  {
    SettlePicks(window, s, sig, pick, end, j);
  }

  lemma SettleInv(window: int, s: Ledger, sig: Signal, pick: map<Key, int>, mid: int, end: int)
    requires Inv(window, s) && pick.Keys == Examined(s, sig.key) && sig.key !in s.slots
    requires s.now <= mid && Between(mid, pick, end)
    ensures Inv(window, Settle(window, s, sig, pick, end).0)
  {
    hide Contents, Unmixed, Timely, Partitioned, Settle;
    if j :| Picks(window, s, sig.key, pick, j) {
      SettlePicks(window, s, sig, pick, end, j);
      PickMayTake(window, s, sig, pick, mid, end, j);
      TakeInv(window, s, j, Upgraded(j, sig.key), sig, pick[j], end);
    } else {
      OpenInv(window, s, sig, end);
      SettleOpensSlot(window, s, sig, pick, end);
    }
  }

  /** `record` keeps the invariant: whatever it inserts, no live slot is overwritten, lost or mixed. */
  lemma RecordInv(window: int, s: Ledger, sig: Signal, r: Readings)
    requires Inv(window, s) && RecordReady(window, s, sig.key, r)
    ensures Inv(window, Record(window, s, sig, r).0)
  {
    if ExactHit(window, s, sig.key, r) {
      TakeInv(window, s, sig.key, sig.key, sig, r.exact, r.end);
    } else {
      SweptInv(window, s, sig.key, r);
      SettleInv(window, Swept(window, s, sig.key, r), sig, r.pick, r.mid, r.end);
    }
  }

  /** `drain_expired` reads each slot once and hands over the closed ones after those set aside earlier. */
  ghost predicate DrainReady(window: int, s: Ledger, sweep: map<Key, int>, order: seq<Key>, end: int)
    requires Shape(s)
  {
    SweepOk(window, s, s.slots.Keys, sweep, order) && Between(s.now, sweep, end)
  }

  ghost function DrainExpired(window: int, s: Ledger, sweep: map<Key, int>, order: seq<Key>, end: int): Ledger
    requires Shape(s) && DrainReady(window, s, sweep, order, end)
  {
    SweepMoves(window, s, s.slots.Keys, sweep, order);
    Advance(Flush(ExpireAll(s, order)), end)
  }

  ghost predicate DrainAllReady(s: Ledger, order: seq<Key>) {
    Distinct(order) && forall k :: k in order <==> k in s.slots
  }

  ghost function DrainAll(s: Ledger, order: seq<Key>): Ledger
    requires DrainAllReady(s, order)
  {
    AllMovable(s, order);
    Flush(ExpireAll(s, order))
  }

  lemma AllMovable(s: Ledger, order: seq<Key>)
    requires DrainAllReady(s, order)
    ensures Movable(s, order)
  {
    forall i | 0 <= i < |order| ensures order[i] in s.slots { assert order[i] in order; }
  }

  // ----------------------------------------------------------------- whole runs

  datatype Event =
    | Recorded(sig: Signal, r: Readings)
    | DrainedExpired(sweep: map<Key, int>, order: seq<Key>, end: int)
    | DrainedAll(order: seq<Key>)

  ghost predicate Enabled(window: int, s: Ledger, e: Event)
    requires Shape(s)
  {
    match e
    case Recorded(sig, r) => RecordReady(window, s, sig.key, r)
    case DrainedExpired(sweep, order, end) => DrainReady(window, s, sweep, order, end)
    case DrainedAll(order) => DrainAllReady(s, order)
  }

  ghost function Step(window: int, s: Ledger, e: Event): Ledger
    requires Shape(s) && Enabled(window, s, e)
  {
    match e
    case Recorded(sig, r) => Record(window, s, sig, r).0
    case DrainedExpired(sweep, order, end) => DrainExpired(window, s, sweep, order, end)
    case DrainedAll(order) => DrainAll(s, order)
  }

  ghost function Opened(window: int, s: Ledger, e: Event): nat
    requires Shape(s) && Enabled(window, s, e)
  {
    if e.Recorded? && Record(window, s, e.sig, e.r).1 == NewSlot then 1 else 0
  }

  lemma DrainInv(window: int, s: Ledger, order: seq<Key>, end: int)
    requires Inv(window, s) && Movable(s, order) && s.now <= end
    ensures Inv(window, Flush(ExpireAll(s, order))) && Inv(window, Advance(Flush(ExpireAll(s, order)), end))
  {
    ExpireAllInv(window, s, order);
    ExpireAllFacts(s, order);
    FlushInv(window, ExpireAll(s, order));
    AdvanceInv(window, Flush(ExpireAll(s, order)), end);
  }

  /** No call breaks the invariant. */
  lemma StepInv(window: int, s: Ledger, e: Event)
    requires Inv(window, s) && Enabled(window, s, e)
    ensures Inv(window, Step(window, s, e))
  {
    match e
    case Recorded(sig, r) => RecordInv(window, s, sig, r);
    case DrainedExpired(sweep, order, end) =>
      SweepMoves(window, s, s.slots.Keys, sweep, order);
      DrainInv(window, s, order, end);
    case DrainedAll(order) =>
      AllMovable(s, order);
      DrainInv(window, s, order, s.now);
  }

  ghost predicate ValidRun(window: int, s: Ledger, es: seq<Event>)
    requires Inv(window, s)
    decreases |es|
  {
    es == [] ||
    (Enabled(window, s, es[0]) &&
     (StepInv(window, s, es[0]); ValidRun(window, Step(window, s, es[0]), es[1..])))
  }

  ghost function Run(window: int, s: Ledger, es: seq<Event>): Ledger
    requires Inv(window, s) && ValidRun(window, s, es)
    decreases |es|
  {
    if es == [] then s
    else StepInv(window, s, es[0]); Run(window, Step(window, s, es[0]), es[1..])
  }

  /** How many calls of the run answered `NewSlot`. */
  ghost function NewSlots(window: int, s: Ledger, es: seq<Event>): nat
    requires Inv(window, s) && ValidRun(window, s, es)
    decreases |es|
  {
    if es == [] then 0
    else
      StepInv(window, s, es[0]);
      Opened(window, s, es[0]) + NewSlots(window, Step(window, s, es[0]), es[1..])
  }

  lemma InitInv(window: int, t: int)
    ensures Inv(window, Init(t))
  {
  }

  lemma {:induction false} RunInv(window: int, s: Ledger, es: seq<Event>)
    requires Inv(window, s) && ValidRun(window, s, es)
    ensures Inv(window, Run(window, s, es))
    decreases |es|
  {
    if es != [] {
      StepInv(window, s, es[0]);
      RunInv(window, Step(window, s, es[0]), es[1..]);
    }
  }

  lemma SettleOpens(window: int, s: Ledger, sig: Signal, pick: map<Key, int>, end: int)
    requires Shape(s) && pick.Keys == Examined(s, sig.key)
    ensures var (s', out) := Settle(window, s, sig, pick, end);
            |s'.store| == |s.store| + (if out == NewSlot then 1 else 0)
  {
  }

  lemma StepOpens(window: int, s: Ledger, e: Event)
    requires Shape(s) && Enabled(window, s, e)
    ensures |Step(window, s, e).store| == |s.store| + Opened(window, s, e)
  {
    match e
    case Recorded(sig, r) =>
      if !ExactHit(window, s, sig.key, r) {
        var s1 := AfterExact(s, sig.key);
        SweepMoves(window, s1, Group(s1, sig.key), r.sweep, r.order);
        ExpireAllFacts(s1, r.order);
        SettleOpens(window, Swept(window, s, sig.key, r), sig, r.pick, r.end);
      }
    case DrainedExpired(sweep, order, end) =>
      SweepMoves(window, s, s.slots.Keys, sweep, order);
      ExpireAllFacts(s, order);
    case DrainedAll(order) =>
      AllMovable(s, order);
      ExpireAllFacts(s, order);
  }

  lemma {:induction false} RunOpens(window: int, s: Ledger, es: seq<Event>)
    requires Inv(window, s) && ValidRun(window, s, es)
    ensures |Run(window, s, es).store| == |s.store| + NewSlots(window, s, es)
    decreases |es|
  {
    if es != [] {
      StepInv(window, s, es[0]);
      StepOpens(window, s, es[0]);
      RunOpens(window, Step(window, s, es[0]), es[1..]);
    }
  }

  // -------------------------------------------------------------- conservation

  lemma DistinctSuffix(a: seq<nat>, b: seq<nat>)
    requires Distinct(a + b)
    ensures Distinct(b)
  {
    forall i, j | 0 <= i < j < |b| ensures b[i] != b[j] {
      assert b[i] == (a + b)[|a| + i];
      assert b[j] == (a + b)[|a| + j];
    }
  }

  /**
    Over every run from an empty buffer: the calls that answered `NewSlot` are
    exactly the slots still held plus the slots handed over, no slot is handed
    over twice, and every signal is in exactly one slot, which is what its
    signals make it.
   */
  lemma Conservation(window: int, t: int, es: seq<Event>)
    requires Inv(window, Init(t)) && ValidRun(window, Init(t), es)
    ensures var s := Run(window, Init(t), es);
            && Shape(s)
            && NewSlots(window, Init(t), es) == |s.slots| + |s.expired| + |s.emitted|
            && Distinct(s.emitted)
            && (forall i :: 0 <= i < |s.log| ==> s.owner[i] < |s.store|)
            && (forall n :: 0 <= n < |s.store| ==> Summarizes(s.store[n], Members(s.log, s.owner, n)))
  {
    RunInv(window, Init(t), es);
    RunOpens(window, Init(t), es);
    var s := Run(window, Init(t), es);
    DistinctSuffix(s.expired, s.emitted);
  }

  /** After `drain_all` nothing is held and every slot ever opened has been handed over exactly once. */
  lemma DrainAllEmitsEverySlotOnce(window: int, s: Ledger, order: seq<Key>)
    requires Inv(window, s) && DrainAllReady(s, order)
    ensures var s' := DrainAll(s, order);
            && s'.slots == map[] && s'.expired == [] && Distinct(s'.emitted)
            && (forall n: nat :: n in s'.emitted <==> n < |s.store|)
  {
    AllMovable(s, order);
    ExpireAllFacts(s, order);
    DrainInv(window, s, order, s.now);
    var s' := DrainAll(s, order);
    assert s'.slots.Keys == {};
    assert Gone(s') == s'.emitted;
    forall n | 0 <= n < |s.store| ensures n in s'.emitted { assert !Live(s', n); }
  }

  /** A `drain_expired` whose readings are all at or after `t` leaves no slot whose window had closed by `t`. */
  lemma DrainExpiredLeavesNoneClosed(window: int, s: Ledger, sweep: map<Key, int>, order: seq<Key>, end: int, t: int)
    requires Inv(window, s) && DrainReady(window, s, sweep, order, end)
    requires forall k :: k in sweep ==> t <= sweep[k]
    ensures var s' := DrainExpired(window, s, sweep, order, end);
            && Shape(s') && s'.expired == []
            && (forall k :: k in s'.slots ==> t < s'.store[s'.slots[k]].openedAt + window)
            && (forall n: nat :: n < |s.store| && s.store[n].openedAt + window <= t ==> n in s'.emitted)
            && (forall k :: k in s.slots && end < s.store[s.slots[k]].openedAt + window ==>
                 k in s'.slots && s'.slots[k] == s.slots[k])
  {
    SweepMoves(window, s, s.slots.Keys, sweep, order);
    ExpireAllFacts(s, order);
    DrainInv(window, s, order, end);
    var s' := DrainExpired(window, s, sweep, order, end);
    assert Gone(s') == s'.emitted;
    forall k | k in s'.slots ensures IsOpen(s'.store[s'.slots[k]], window, t) {
      assert k in s.slots.Keys && k !in order;
    }
    forall n: nat | n < |s.store| && !IsOpen(s.store[n], window, t) ensures n in s'.emitted {
      assert !Live(s', n);
    }
  }
}
