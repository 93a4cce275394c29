/**
  The correlation buffer as a mutable object, proved against the ledger: each method
  performs exactly one ledger event, for the readings that the clock gave it.
 */
module CorrelationBuffers {
  import opened Ownership
  import opened CorrelationLedger
  import opened CorrelationRuns

  /** The slots that a ledger says are live, as the buffer stores them. */
  ghost function Held(s: Ledger): map<Key, Slot>
    requires Shape(s)
  {
    map k | k in s.slots :: s.store[s.slots[k]]
  }

  /** The slots with the given numbers, in order. */
  ghost function Named(store: seq<Slot>, ns: seq<nat>): seq<Slot>
    requires Within(ns, |store|)
  {
    if ns == [] then [] else Named(store, ns[..|ns| - 1]) + [store[ns[|ns| - 1]]]
  }

  lemma {:induction false} NamedSize(store: seq<Slot>, ns: seq<nat>)
    requires Within(ns, |store|)
    ensures |Named(store, ns)| == |ns|
  {
    if ns != [] { NamedSize(store, ns[..|ns| - 1]); }
  }

  /** Only the slots named matter. */
  lemma {:induction false} NamedFrame(store: seq<Slot>, store': seq<Slot>, ns: seq<nat>)
    requires forall i :: 0 <= i < |ns| ==> ns[i] < |store| && ns[i] < |store'| && store'[ns[i]] == store[ns[i]]
    ensures Named(store', ns) == Named(store, ns)
  {
    if ns != [] { NamedFrame(store, store', ns[..|ns| - 1]); }
  }

  lemma LiveNotExpired(s: Ledger, k: Key)
    requires Shape(s) && Partitioned(s) && k in s.slots
    ensures s.slots[k] !in s.expired
  {
    assert Live(s, s.slots[k]);
    assert s.slots[k] !in Gone(s);
  }

  lemma TakeHeld(s: Ledger, k0: Key, k: Key, sig: Signal, t: int, end: int)
    requires Shape(s) && k0 in s.slots && s.slots[k0] !in s.expired
    requires Shape(Advance(Take(s, k0, k, sig, t), end)) && (k == k0 || k !in s.slots)
    ensures var s' := Advance(Take(s, k0, k, sig, t), end);
            && Held(s') == (Held(s) - {k0})[k := Absorb(Held(s)[k0], sig).(key := k)]
            && Named(s'.store, s'.expired) == Named(s.store, s.expired)
  {
    var s' := Advance(Take(s, k0, k, sig, t), end);
    NamedFrame(s.store, s'.store, s.expired);
  }

  lemma OpenHeld(s: Ledger, sig: Signal, t: int)
    requires Shape(s) && sig.key !in s.slots && Shape(Advance(OpenSlot(s, sig, t), t))
    ensures var s' := Advance(OpenSlot(s, sig, t), t);
            && Held(s') == Held(s)[sig.key := NewPending(sig, t)]
            && Named(s'.store, s'.expired) == Named(s.store, s.expired)
  {
    var s' := Advance(OpenSlot(s, sig, t), t);
    NamedFrame(s.store, s'.store, s.expired);
  }

  lemma ExpireHeld(s: Ledger, k: Key)
    requires Shape(s) && k in s.slots
    ensures Shape(Expire(s, k)) && Held(Expire(s, k)) == Held(s) - {k}
    ensures Named(s.store, Expire(s, k).expired) == Named(s.store, s.expired) + [Held(s)[k]]
  {
    assert Expire(s, k).expired[..|s.expired|] == s.expired;
  }

  ghost function Values(m: map<Key, Slot>, ks: seq<Key>): seq<Slot>
    requires forall i :: 0 <= i < |ks| ==> ks[i] in m
  {
    if ks == [] then [] else [m[ks[0]]] + Values(m, ks[1..])
  }

  lemma {:induction false} ValuesFrame(m: map<Key, Slot>, m': map<Key, Slot>, ks: seq<Key>)
    requires forall i :: 0 <= i < |ks| ==> ks[i] in m && ks[i] in m' && m[ks[i]] == m'[ks[i]]
    ensures Values(m, ks) == Values(m', ks)
  {
    if ks != [] { ValuesFrame(m, m', ks[1..]); }
  }

  lemma {:induction false} ValuesExtend(m: map<Key, Slot>, ks: seq<Key>, k: Key)
    requires k in m && forall i :: 0 <= i < |ks| ==> ks[i] in m
    ensures Values(m, ks + [k]) == Values(m, ks) + [m[k]]
  {
    if ks == [] {
      assert [k][1..] == [];
    } else {
      ValuesExtend(m, ks[1..], k);
      assert (ks + [k])[1..] == ks[1..] + [k];
    }
  }

  lemma ValuesTail(s: Ledger, ks: seq<Key>)
    requires Shape(s) && Movable(s, ks) && ks != [] && Shape(Expire(s, ks[0]))
    ensures Values(Held(s), ks) == [Held(s)[ks[0]]] + Values(Held(Expire(s, ks[0])), ks[1..])
  {
    var s1 := Expire(s, ks[0]);
    forall i | 0 <= i < |ks[1..]| ensures ks[1..][i] in Held(s1) && Held(s)[ks[1..][i]] == Held(s1)[ks[1..][i]] {
      assert ks[1..][i] == ks[i + 1];
    }
    ValuesFrame(Held(s), Held(s1), ks[1..]);
  }

  /** Moving several slots aside is moving the first one and then the rest. */
  lemma ExpireFirst(s: Ledger, ks: seq<Key>)
    requires Shape(s) && Movable(s, ks) && Shape(ExpireAll(s, ks)) && ks != []
    ensures var s1 := Expire(s, ks[0]);
            && Shape(s1) && Movable(s1, ks[1..]) && ExpireAll(s, ks) == ExpireAll(s1, ks[1..])
            && s1.store == s.store && Named(s.store, s1.expired) == Named(s.store, s.expired) + [Held(s)[ks[0]]]
  {
    ExpireHeld(s, ks[0]);
  }

  /** The slots at `ks` are kept, in order, behind those moved aside earlier. */
  ghost predicate MovedAside(s: Ledger, ks: seq<Key>)
    requires Shape(s) && Movable(s, ks) && Shape(ExpireAll(s, ks))
  {
    var s' := ExpireAll(s, ks);
    s'.store == s.store && Named(s.store, s'.expired) == Named(s.store, s.expired) + Values(Held(s), ks)
  }

  lemma MovedAsideFirst(s: Ledger, ks: seq<Key>)
    requires Shape(s) && Movable(s, ks) && Shape(ExpireAll(s, ks)) && ks != []
    requires var s1 := Expire(s, ks[0]);
             && Shape(s1) && Movable(s1, ks[1..]) && ExpireAll(s, ks) == ExpireAll(s1, ks[1..])
             && MovedAside(s1, ks[1..])
    ensures MovedAside(s, ks)
  {
    hide Values, Held, Shape, ExpireAll, Distinct, Named, Expire;
    ExpireFirst(s, ks);
    ValuesTail(s, ks);
  }

  lemma {:induction false} ExpireAllNamed(s: Ledger, ks: seq<Key>)
    requires Shape(s) && Movable(s, ks) && Shape(ExpireAll(s, ks))
    ensures MovedAside(s, ks)
    decreases |ks|
  {
    if ks != [] {
      ExpireFirst(s, ks);
      hide MovedAside, Shape, ExpireAll, Distinct;
      ExpireAllNamed(Expire(s, ks[0]), ks[1..]);
      MovedAsideFirst(s, ks);
    }
  }

  lemma ExpireAllHeld(s: Ledger, ks: seq<Key>)
    requires Shape(s) && Movable(s, ks)
    ensures Shape(ExpireAll(s, ks)) && ExpireAll(s, ks).store == s.store
    ensures Held(ExpireAll(s, ks)) == Held(s) - (set k | k in ks)
    ensures Named(s.store, ExpireAll(s, ks).expired) == Named(s.store, s.expired) + Values(Held(s), ks)
  {
    ExpireAllShape(s, ks);
    ExpireAllFacts(s, ks);
    ExpireAllNamed(s, ks);
  }

  /** The slots that a drain hands over: those moved aside earlier, then those at `order`. */
  ghost function Drained(s: Ledger, order: seq<Key>): seq<Slot>
    requires Shape(s) && Movable(s, order)
  {
    ExpireAllHeld(s, order);
    Named(s.store, ExpireAll(s, order).expired)
  }

  /** What a drain leaves: every slot but those at `order`, and nothing set aside. */
  lemma DrainHeld(window: int, s: Ledger, order: seq<Key>, end: int)
    requires Inv(window, s) && Movable(s, order) && s.now <= end
    ensures var s' := Flush(ExpireAll(s, order));
            && Inv(window, s') && Held(s') == Held(s) - (set k | k in order)
            && Inv(window, Advance(s', end)) && Held(Advance(s', end)) == Held(s')
            && Named(s'.store, s'.expired) == []
    ensures s.now == ExpireAll(s, order).now
    ensures Drained(s, order) == Named(s.store, s.expired) + Values(Held(s), order)
  {
    hide Contents, Unmixed, Timely, Partitioned;
    DrainInv(window, s, order, end);
    ExpireAllFacts(s, order);
    ExpireAllHeld(s, order);
  }

  /** What draining the closed slots leaves and hands over. */
  lemma DrainExpiredFacts(window: int, s: Ledger, sweep: map<Key, int>, order: seq<Key>, end: int)
    requires Inv(window, s) && DrainReady(window, s, sweep, order, end)
    ensures Movable(s, order) && Drained(s, order) == Named(s.store, s.expired) + Values(Held(s), order)
    ensures var s' := CorrelationRuns.DrainExpired(window, s, sweep, order, end);
            Inv(window, s') && s'.now == end && Held(s') == Held(s) - SetOf(order) && Named(s'.store, s'.expired) == []
  {
    SweepMoves(window, s, s.slots.Keys, sweep, order);
    DrainHeld(window, s, order, end);
    hide Contents, Unmixed, Timely, Partitioned, Shape, Held, ExpireAll, SweepOk, Named, Values, Drained;
    var s' := Flush(ExpireAll(s, order));
    assert Named(Advance(s', end).store, Advance(s', end).expired) == Named(s'.store, s'.expired);
  }

  lemma ReadyToDrain(s: Ledger, order: seq<Key>)
    requires Shape(s) && Distinct(order) && forall k :: k in order <==> k in Held(s)
    ensures DrainAllReady(s, order) && Distinct(order) && forall i :: 0 <= i < |order| ==> order[i] in Held(s)
  {
  }

  /** What draining everything leaves and hands over. */
  lemma DrainAllFacts(window: int, s: Ledger, order: seq<Key>)
    requires Inv(window, s) && DrainAllReady(s, order)
    ensures Movable(s, order) && Drained(s, order) == Named(s.store, s.expired) + Values(Held(s), order)
    ensures var s' := CorrelationRuns.DrainAll(s, order);
            Inv(window, s') && s'.now == s.now && Held(s') == map[] && Named(s'.store, s'.expired) == []
    ensures Held(s) - SetOf(order) == map[]
  {
    AllMovable(s, order);
    DrainHeld(window, s, order, s.now);
    assert Held(s) - (set k | k in order) == map[] by { assert forall k :: k in Held(s) ==> k in order; }
  }

  lemma NotSingleton(xs: seq<Key>, s: set<Key>, j: Key)
    requires Distinct(xs) && |xs| != 1 && forall k :: k in s <==> k in xs
    ensures s != {j}
  {
    if |xs| > 1 {
      assert xs[0] in xs && xs[1] in xs;
      assert xs[0] in s && xs[1] in s;
    } else {
      assert j !in xs;
    }
  }

  // ------------------------------------------------- the three ways a record can end

  /** The record that ends in the exact match. */
  lemma ExactRecord(window: int, s: Ledger, sig: Signal, t: int)
    requires Inv(window, s) && s.now <= t && sig.key in s.slots && IsOpen(s.store[s.slots[sig.key]], window, t)
    ensures var r := Readings(t, map[], [], t, map[], t);
            && RecordReady(window, s, sig.key, r)
            && var (s', out) := CorrelationLedger.Record(window, s, sig, r);
            && out == Absorbed && Inv(window, s') && s'.now == t
            && Held(s') == Held(s)[sig.key := Absorb(Held(s)[sig.key], sig)]
            && Named(s'.store, s'.expired) == Named(s.store, s.expired)
  {
    hide Contents, Unmixed, Timely, Partitioned;
    var r := Readings(t, map[], [], t, map[], t);
    RecordInv(window, s, sig, r);
    LiveNotExpired(s, sig.key);
    TakeHeld(s, sig.key, sig.key, sig, t, t);
  }

  lemma Widen(lo: int, lo': int, readings: map<Key, int>, hi: int, hi': int)
    requires Between(lo, readings, hi) && lo' <= lo && hi <= hi'
    ensures Between(lo', readings, hi') && lo <= hi
  {
  }

  lemma InvShape(window: int, s: Ledger)
    requires Inv(window, s)
    ensures Shape(s) && Held(s).Keys == s.slots.Keys
  {
  }

  lemma Exactly(window: int, s: Ledger, key: Key)
    requires Inv(window, s)
    ensures Shape(s) && (key in Held(s) <==> key in s.slots) && (key !in s.slots ==> AfterExact(s, key) == s)
  {
  }

  /** The readings of a record that misses the exact match. */
  lemma MissedRecord(window: int, s: Ledger, key: Key, r: Readings)
    requires Shape(s) && s.now <= r.exact && !ExactHit(window, s, key, r)
    requires SweepOk(window, AfterExact(s, key), Group(AfterExact(s, key), key), r.sweep, r.order)
    requires Movable(AfterExact(s, key), r.order)
    requires r.pick.Keys == Examined(ExpireAll(AfterExact(s, key), r.order), key)
    requires Between(r.exact, r.sweep, r.mid) && Between(r.mid, r.pick, r.end)
    ensures RecordReady(window, s, key, r) && Swept(window, s, key, r) == ExpireAll(AfterExact(s, key), r.order)
  {
  }

  lemma EndsLater(window: int, s: Ledger, key: Key, r: Readings, t: int)
    requires Shape(s) && !ExactHit(window, s, key, r) && RecordReady(window, s, key, r) && r.end <= t
    ensures var r' := r.(end := t);
            && !ExactHit(window, s, key, r') && RecordReady(window, s, key, r')
            && Swept(window, s, key, r') == Swept(window, s, key, r)
  {
  }

  /** The record that ends in the wildcard slot `j`. */
  lemma PickedRecord(window: int, s: Ledger, sig: Signal, r: Readings, j: Key)
    requires Inv(window, s) && !ExactHit(window, s, sig.key, r) && RecordReady(window, s, sig.key, r)
    requires Picks(window, Swept(window, s, sig.key, r), sig.key, r.pick, j)
    ensures var s2 := Swept(window, s, sig.key, r);
            var (s', out) := CorrelationLedger.Record(window, s, sig, r);
            && out == Absorbed && Inv(window, s') && s'.now == r.end
            && j in Held(s2) && Held(s2)[j].key == j && (sig.key.sub != "" <==> j.sub == "")
            && Held(s') ==
               (Held(s2) - {j})[Upgraded(j, sig.key) := Absorb(Held(s2)[j], sig).(key := Upgraded(j, sig.key))]
            && Named(s'.store, s'.expired) == Named(s2.store, s2.expired)
  {
    hide Contents, Unmixed, Timely, Partitioned;
    var s2 := Swept(window, s, sig.key, r);
    SweptInv(window, s, sig.key, r);
    SettlePicks(window, s2, sig, r.pick, r.end, j);
    LiveNotExpired(s2, j);
    RecordInv(window, s, sig, r);
    TakeHeld(s2, j, Upgraded(j, sig.key), sig, r.pick[j], r.end);
  }

  /** The record that opens a new slot. */
  lemma OpenedRecord(window: int, s: Ledger, sig: Signal, r: Readings)
    requires Inv(window, s) && !ExactHit(window, s, sig.key, r) && RecordReady(window, s, sig.key, r)
    requires forall j :: !Picks(window, Swept(window, s, sig.key, r), sig.key, r.pick, j)
    ensures var s2 := Swept(window, s, sig.key, r);
            var (s', out) := CorrelationLedger.Record(window, s, sig, r);
            && out == NewSlot && Inv(window, s') && s'.now == r.end
            && Held(s') == Held(s2)[sig.key := NewPending(sig, r.end)]
            && Named(s'.store, s'.expired) == Named(s2.store, s2.expired)
  {
    hide Contents, Unmixed, Timely, Partitioned;
    RecordInv(window, s, sig, r);
    OpenHeld(Swept(window, s, sig.key, r), sig, r.end);
  }

  // ------------------------------------------------------------------- the clock

  /** What the clock shows at each reading; it never goes back. */
  type Clock = nat -> int

  ghost predicate Monotone(time: Clock) {
    forall i: nat, j: nat :: i <= j ==> time(i) <= time(j)
  }

  /** Every reading was made from reading number `lo` on and before number `hi`. */
  ghost predicate ReadAt(time: Clock, lo: nat, hi: nat, readings: map<Key, int>) {
    forall k :: k in readings ==> IsReading(time, lo, hi, readings[k])
  }

  ghost predicate IsReading(time: Clock, lo: nat, hi: nat, t: int) {
    exists i: nat :: lo <= i < hi && t == time(i)
  }

  lemma ReadMore(time: Clock, lo: nat, i: nat, readings: map<Key, int>, k: Key)
    requires ReadAt(time, lo, i, readings) && lo <= i
    ensures ReadAt(time, lo, i + 1, readings[k := time(i)])
  {
    ReadLater(time, lo, i, lo, i + 1, readings);
    assert IsReading(time, lo, i + 1, time(i));
  }

  lemma Lists(keys: seq<Key>, dom: set<Key>)
    requires forall k :: k in keys <==> k in dom
    ensures SetOf(keys) == dom
  {
  }

  /** The readings tell the slots with a closed window from those with an open one. */
  ghost predicate Sorts(
    slots: map<Key, Slot>, window: int, readings: map<Key, int>, closed: seq<Key>, open: seq<Key>)
  {
    && readings.Keys <= slots.Keys && Distinct(closed) && Distinct(open)
    && (forall k :: k in closed <==> k in readings && !IsOpen(slots[k], window, readings[k]))
    && (forall k :: k in open <==> k in readings && IsOpen(slots[k], window, readings[k]))
  }

  lemma NothingRead(time: Clock, i: nat, slots: map<Key, Slot>, window: int)
    ensures ReadAt(time, i, i, map[]) && Sorts(slots, window, map[], [], [])
  {
  }

  lemma SortsMore(
    slots: map<Key, Slot>, window: int, readings: map<Key, int>, closed: seq<Key>, open: seq<Key>, k: Key, t: int)
    requires Sorts(slots, window, readings, closed, open) && k in slots && k !in readings
    ensures if IsOpen(slots[k], window, t) then Sorts(slots, window, readings[k := t], closed, open + [k])
            else Sorts(slots, window, readings[k := t], closed + [k], open)
  {
    assert k !in closed && k !in open;
    assert forall x :: x in open + [k] <==> x in open || x == k;
    assert forall x :: x in closed + [k] <==> x in closed || x == k;
  }

  lemma SortsSweep(
    window: int, s: Ledger, dom: set<Key>, sweep: map<Key, int>, closed: seq<Key>, open: seq<Key>)
    requires Shape(s) && Sorts(Held(s), window, sweep, closed, open) && sweep.Keys == dom
    ensures SweepOk(window, s, dom, sweep, closed) && Movable(s, closed)
  {
    SweepMoves(window, s, dom, sweep, closed);
  }

  /** The wildcard match takes the only open slot among those examined. */
  lemma SortsPick(window: int, s: Ledger, key: Key, pick: map<Key, int>, closed: seq<Key>, open: seq<Key>)
    requires Shape(s) && Sorts(Held(s), window, pick, closed, open) && pick.Keys == Examined(s, key)
    ensures |open| == 1 ==> Picks(window, s, key, pick, open[0])
    ensures |open| != 1 ==> forall j :: !Picks(window, s, key, pick, j)
  {
    var candidates := Candidates(window, s, key, pick);
    assert forall k :: k in candidates <==> k in open;
    if |open| == 1 {
      assert open[0] in open && forall k :: k in open ==> k == open[0];
      assert candidates == {open[0]};
    } else {
      forall j ensures !Picks(window, s, key, pick, j) { NotSingleton(open, candidates, j); }
    }
  }

  lemma ReadLater(time: Clock, lo: nat, hi: nat, lo': nat, hi': nat, readings: map<Key, int>)
    requires ReadAt(time, lo, hi, readings) && lo' <= lo && hi <= hi'
    ensures ReadAt(time, lo', hi', readings)
  {
    forall k | k in readings ensures IsReading(time, lo', hi', readings[k]) {
      var i: nat :| lo <= i < hi && readings[k] == time(i);
    }
  }

  /**
    The readings of a record are those made from number `lo` on and before number `hi`: one
    for a slot at the signal's key, one for each slot swept or examined, and one when a
    slot is opened.
   */
  ghost predicate Genuine(time: Clock, lo: nat, hi: nat, held: bool, r: Readings, out: Outcome) {
    && hi == lo + (if held then 1 else 0) + |r.sweep| + |r.pick| + (if out == NewSlot then 1 else 0)
    && (held ==> r.exact == time(lo)) && (out == NewSlot ==> r.end == time(hi - 1))
    && ReadAt(time, lo, hi, r.sweep) && ReadAt(time, lo, hi, r.pick)
  }

  /** Sweeping and examining, and the reading when a slot is opened. */
  lemma GenuineParts(time: Clock, lo: nat, mid: nat, hi: nat, r: Readings)
    requires ReadAt(time, lo, mid, r.sweep) && ReadAt(time, mid, hi, r.pick)
    requires mid == lo + |r.sweep| && hi == mid + |r.pick|
    ensures Genuine(time, lo, hi, false, r, Absorbed)
    ensures Genuine(time, lo, hi + 1, false, r.(end := time(hi)), NewSlot)
  {
    hide ReadAt;
    ReadLater(time, lo, mid, lo, hi, r.sweep);
    ReadLater(time, lo, mid, lo, hi + 1, r.sweep);
    ReadLater(time, mid, hi, lo, hi, r.pick);
    ReadLater(time, mid, hi, lo, hi + 1, r.pick);
  }

  lemma GenuineHeld(time: Clock, lo: nat, hi: nat, r: Readings, out: Outcome)
    requires Genuine(time, lo + 1, hi, false, r, out) && r.exact == time(lo)
    ensures Genuine(time, lo, hi, true, r, out)
  {
    hide ReadAt;
    ReadLater(time, lo + 1, hi, lo, hi, r.sweep);
    ReadLater(time, lo + 1, hi, lo, hi, r.pick);
  }

  lemma GenuineExact(time: Clock, lo: nat, r: Readings)
    requires r.exact == time(lo) && r.sweep == map[] && r.pick == map[]
    ensures Genuine(time, lo, lo + 1, true, r, Absorbed)
  {
  }

  class CorrelationBuffer {
    const window: int
    const time: Clock
    /** How many readings have been made. */
    var ticks: nat
    var slots: map<Key, Slot>
    var expired: seq<Slot>
    /** The last reading of the monotone clock. */
    var clock: int
    ghost var ledger: Ledger

    ghost predicate Valid()
      reads this
    {
      Inv(window, ledger) && ledger.now <= clock && Matches(ledger) && OnTime()
    }

    ghost predicate OnTime()
      reads this`clock, this`ticks
    {
      Monotone(time) && clock <= time(ticks)
    }

    /** The stored state is what `s` says. */
    ghost predicate Matches(s: Ledger)
      reads this
      requires Shape(s)
    {
      slots == Held(s) && expired == Named(s.store, s.expired)
    }

    constructor (window: int, time: Clock)
      requires Monotone(time)
      ensures Valid() && this.window == window && this.time == time && ticks == 0 && ledger == Init(time(0))
    {
      this.window, this.time, ticks := window, time, 0;
      slots, expired, clock := map[], [], time(0);
      ledger := Init(time(0));
    }

    /** Reads the clock. */
    method Now() returns (t: int)
      requires OnTime()
      modifies this`clock, this`ticks
      ensures OnTime() && clock == t == time(old(ticks)) >= old(clock) && ticks == old(ticks) + 1
    {
      t := time(ticks);
      clock, ticks := t, ticks + 1;
    }

    /** Reads the windows of the slots in `dom`, one clock reading each, in any order. */
    method ReadWindows(dom: set<Key>) returns (closed: seq<Key>, open: seq<Key>, ghost readings: map<Key, int>)
      requires dom <= slots.Keys && OnTime()
      modifies this`clock, this`ticks
      ensures OnTime() && ticks == old(ticks) + |dom| && ReadAt(time, old(ticks), ticks, readings)
      ensures old(clock) <= clock && Between(old(clock), readings, clock)
      ensures readings.Keys == dom && Sorts(slots, window, readings, closed, open)
    {
      hide OnTime, ReadAt, Sorts, Distinct, SetOf;
      closed, open, readings := [], [], map[];
      var keys := Listing(dom);
      NothingRead(time, ticks, slots, window);
      WholePrefix(keys);
      for i := 0 to |keys|
        invariant OnTime() && ticks == old(ticks) + i && ReadAt(time, old(ticks), ticks, readings)
        invariant old(clock) <= clock && Between(old(clock), readings, clock)
        invariant readings.Keys == SetOf(keys[..i]) && Sorts(slots, window, readings, closed, open)
      {
        var k := keys[i];
        PrefixStep(keys, i);
        var t := Now();
        ReadMore(time, old(ticks), ticks - 1, readings, k);
        SortsMore(slots, window, readings, closed, open, k, t);
        readings := readings[k := t];
        if t - slots[k].openedAt < window {
          open := open + [k];
        } else {
          closed := closed + [k];
        }
      }
      assert SetOf(keys) == dom by { Lists(keys, dom); }
    }

    /** Removes the slots at `keys`, in order, and returns them. */
    method Remove(keys: seq<Key>) returns (removed: seq<Slot>)
      requires Distinct(keys) && forall i :: 0 <= i < |keys| ==> keys[i] in slots
      modifies this`slots
      ensures slots == old(slots) - SetOf(keys)
      ensures removed == Values(old(slots), keys)
    {
      removed := [];
      for i := 0 to |keys|
        invariant slots == old(slots) - SetOf(keys[..i])
        invariant removed == Values(old(slots), keys[..i])
      {
        var k := keys[i];
        assert keys[..i + 1] == keys[..i] + [k];
        ValuesExtend(old(slots), keys[..i], k);
        removed := removed + [slots[k]];
        slots := slots - {k};
      }
      assert keys[..|keys|] == keys;
    }

    /** Records a signal: exactly the ledger's `Record` for the readings made. */
    method Record(sig: Signal) returns (out: Outcome, ghost r: Readings)
      requires Valid()
      modifies this
      ensures Valid() && RecordReady(window, old(ledger), sig.key, r)
      ensures (ledger, out) == CorrelationLedger.Record(window, old(ledger), sig, r)
      ensures Genuine(time, old(ticks), ticks, sig.key in old(slots), r, out)
    {
      hide OnTime, Genuine;
      hide Contents, Unmixed, Timely, Partitioned, CorrelationLedger.Record, RecordReady, Named, Inv, AfterExact;
      hide Held, Shape, IsOpen;
      ghost var s := ledger;
      ghost var exact := clock;
      Exactly(window, s, sig.key);
      if sig.key in slots {
        var hit := MatchExact(sig);
        exact := clock;
        if hit {
          out, r := Absorbed, Readings(clock, map[], [], clock, map[], clock);
          GenuineExact(time, old(ticks), r);
          ExactRecord(window, s, sig, clock);
          ledger := CorrelationLedger.Record(window, s, sig, r).0;
          return;
        }
      }
      out, r := Settle(sig, s, exact);
      if sig.key in old(slots) { GenuineHeld(time, old(ticks), ticks, r, out); }
      ledger := CorrelationLedger.Record(window, s, sig, r).0;
    }

    /** The exact match: the slot at the signal's key takes the signal, or is moved aside when its window has closed. */
    method MatchExact(sig: Signal) returns (hit: bool)
      requires Valid() && sig.key in slots
      modifies this`slots, this`expired, this`clock, this`ticks
      ensures OnTime() && ticks == old(ticks) + 1 && clock == time(old(ticks)) >= old(clock)
      ensures hit == IsOpen(ledger.store[ledger.slots[sig.key]], window, clock)
      ensures hit ==> slots == old(slots)[sig.key := Absorb(old(slots)[sig.key], sig)] && expired == old(expired)
      ensures !hit ==> Matches(AfterExact(ledger, sig.key))
    {
      hide OnTime, Contents, Unmixed, Timely, Partitioned, Named;
      var t := Now();
      hit := t - slots[sig.key].openedAt < window;
      if hit {
        slots := slots[sig.key := Absorb(slots[sig.key], sig)];
      } else {
        ExpireHeld(ledger, sig.key);
        expired := expired + [slots[sig.key]];
        slots := slots - {sig.key};
      }
    }

    /** Moves the closed slots of the group of `key` aside. */
    method Sweep(key: Key, ghost s: Ledger) returns (closed: seq<Key>, ghost sweep: map<Key, int>)
      requires Shape(s) && Matches(s) && OnTime()
      modifies this`slots, this`expired, this`clock, this`ticks
      ensures OnTime() && ticks == old(ticks) + |sweep| && ReadAt(time, old(ticks), ticks, sweep)
      ensures Between(old(clock), sweep, clock) && SweepOk(window, s, Group(s, key), sweep, closed)
      ensures Movable(s, closed) && Shape(ExpireAll(s, closed)) && Matches(ExpireAll(s, closed))
    {
      hide OnTime, ReadAt, Sorts, Between, SweepOk, Named, ExpireAll;
      var open;
      closed, open, sweep := ReadWindows(set k | k in slots && SameGroup(k, key));
      assert Group(s, key) == set k | k in slots && SameGroup(k, key);
      SortsSweep(window, s, Group(s, key), sweep, closed, open);
      ExpireAllHeld(s, closed);
      var removed := Remove(closed);
      expired := expired + removed;
    }

    /** The wildcard match: the only open slot among those examined, if there is exactly one. */
    method FindWildcard(key: Key, ghost s: Ledger) returns (found: seq<Key>, ghost pick: map<Key, int>)
      requires Shape(s) && slots == Held(s) && OnTime()
      modifies this`clock, this`ticks
      ensures OnTime() && ticks == old(ticks) + |pick| && ReadAt(time, old(ticks), ticks, pick)
      ensures pick.Keys == Examined(s, key) && Between(old(clock), pick, clock)
      ensures |found| <= 1
      ensures |found| == 1 ==> Picks(window, s, key, pick, found[0])
      ensures found == [] ==> forall j :: !Picks(window, s, key, pick, j)
    {
      hide OnTime, ReadAt, Sorts, Between, Picks;
      var examined;
      if key.sub == "" {
        examined := set k | k in slots && SameGroup(k, key);
      } else {
        var emptyKey := EmptyKey(key);
        examined := if emptyKey in slots then {emptyKey} else {};
      }
      assert examined == Examined(s, key);
      var closed, candidates;
      closed, candidates, pick := ReadWindows(examined);
      SortsPick(window, s, key, pick, closed, candidates);
      found := if |candidates| == 1 then candidates else [];
    }

    /** Moves the closed slots of the group aside and looks for the wildcard match, once the exact match has failed. */
    method Examine(key: Key, ghost s: Ledger, ghost exact: int) returns (found: seq<Key>, ghost r: Readings)
      requires OnTime() && Inv(window, s) && s.now <= exact <= clock && Matches(AfterExact(s, key))
      requires key in s.slots ==> !IsOpen(s.store[s.slots[key]], window, exact)
      modifies this`slots, this`expired, this`clock, this`ticks
      ensures OnTime() && r.exact == exact && r.end == clock
      ensures Genuine(time, old(ticks), ticks, false, r, Absorbed)
      ensures Genuine(time, old(ticks), ticks + 1, false, r.(end := time(ticks)), NewSlot)
      ensures !ExactHit(window, s, key, r) && RecordReady(window, s, key, r) && Matches(Swept(window, s, key, r))
      ensures |found| <= 1
      ensures |found| == 1 ==> Picks(window, Swept(window, s, key, r), key, r.pick, found[0])
      ensures found == [] ==> forall j :: !Picks(window, Swept(window, s, key, r), key, r.pick, j)
    {
      hide Inv, Shape, Held, AfterExact, RecordReady, Between, Movable, Group;
      hide Swept, SweepOk, Picks, Examined, Named, ExpireAll, OnTime, ReadAt, Genuine;
      InvShape(window, s);
      ghost var s1 := AfterExact(s, key);
      ghost var sweep, pick;
      var closed;
      closed, sweep := Sweep(key, s1);
      ghost var mid, first := clock, ticks;
      found, pick := FindWildcard(key, ExpireAll(s1, closed));
      r := Readings(exact, sweep, closed, mid, pick, clock);
      GenuineParts(time, old(ticks), first, ticks, r);
      Widen(old(clock), exact, sweep, mid, mid);
      MissedRecord(window, s, key, r);
    }

    /** The rest of `Record` once the exact match has failed. */
    method Settle(sig: Signal, ghost s: Ledger, ghost exact: int) returns (out: Outcome, ghost r: Readings)
      requires OnTime() && Inv(window, s) && s.now <= exact <= clock && Matches(AfterExact(s, sig.key))
      requires sig.key in s.slots ==> !IsOpen(s.store[s.slots[sig.key]], window, exact)
      modifies this`slots, this`expired, this`clock, this`ticks
      ensures OnTime() && r.exact == exact && Genuine(time, old(ticks), ticks, false, r, out)
      ensures RecordReady(window, s, sig.key, r) && r.end <= clock
      ensures out == CorrelationLedger.Record(window, s, sig, r).1
      ensures Inv(window, CorrelationLedger.Record(window, s, sig, r).0)
      ensures Matches(CorrelationLedger.Record(window, s, sig, r).0)
      ensures CorrelationLedger.Record(window, s, sig, r).0.now == r.end
    {
      hide Inv, Shape, Held, AfterExact, CorrelationLedger.Record, RecordReady, ExactHit;
      hide Swept, Picks, Named, OnTime, Genuine;
      InvShape(window, s);
      var found;
      found, r := Examine(sig.key, s, exact);
      if |found| == 1 {
        PickedRecord(window, s, sig, r, found[0]);
        InvShape(window, CorrelationLedger.Record(window, s, sig, r).0);
        AbsorbAt(sig, found[0]);
        out := Absorbed;
      } else {
        var t := Now();
        EndsLater(window, s, sig.key, r, t);
        r := r.(end := t);
        OpenedRecord(window, s, sig, r);
        InvShape(window, CorrelationLedger.Record(window, s, sig, r).0);
        slots := slots[sig.key := NewPending(sig, t)];
        out := NewSlot;
      }
    }

    /** The slot at `j` takes the signal and, if only the signal has a sub-key, continues under the signal's key. */
    method AbsorbAt(sig: Signal, j: Key)
      requires j in slots && slots[j].key == j && (sig.key.sub != "" <==> j.sub == "")
      modifies this`slots
      ensures slots ==
              (old(slots) - {j})[Upgraded(j, sig.key) := Absorb(old(slots)[j], sig).(key := Upgraded(j, sig.key))]
    {
      var slot := Absorb(slots[j], sig);
      if sig.key.sub != "" && j.sub == "" {
        slots := (slots - {j})[sig.key := slot.(key := sig.key)];
      } else {
        assert slot.(key := j) == slot;
        assert (slots - {j})[j := slot] == slots[j := slot];
        slots := slots[j := slot];
      }
    }

    /** Drains every slot whose window has closed, after those moved aside earlier. */
    method DrainExpired() returns (flushed: seq<Slot>, ghost sweep: map<Key, int>, ghost order: seq<Key>)
      requires Valid()
      modifies this
      ensures Valid() && DrainReady(window, old(ledger), sweep, order, clock)
      ensures ledger == CorrelationRuns.DrainExpired(window, old(ledger), sweep, order, clock)
      ensures Movable(old(ledger), order) && flushed == Drained(old(ledger), order)
      ensures ticks == old(ticks) + |sweep| && ReadAt(time, old(ticks), ticks, sweep)
    {
      hide Monotone, ReadAt, Inv, Shape, Held, Drained, Named, Values, Sorts, SweepOk, SetOf, Distinct;
      hide CorrelationRuns.DrainExpired;
      ghost var s := ledger;
      InvShape(window, s);
      flushed := expired;
      expired := [];
      var closed, open;
      closed, open, sweep := ReadWindows(slots.Keys);
      order := closed;
      SortsSweep(window, s, s.slots.Keys, sweep, order, open);
      DrainExpiredFacts(window, s, sweep, order, clock);
      var removed := Remove(closed);
      flushed := flushed + removed;
      ledger := CorrelationRuns.DrainExpired(window, s, sweep, order, clock);
      InvShape(window, ledger);
    }

    /** Drains every slot, whether or not its window has closed. */
    method DrainAll() returns (all: seq<Slot>, ghost order: seq<Key>)
      requires Valid()
      modifies this
      ensures Valid() && slots == map[] && DrainAllReady(old(ledger), order)
      ensures ledger == CorrelationRuns.DrainAll(old(ledger), order)
      ensures Movable(old(ledger), order) && all == Drained(old(ledger), order)
    {
      hide Monotone, Inv, Shape, Held, Drained, Named, Values, Distinct, SetOf, CorrelationRuns.DrainAll;
      hide DrainAllReady, Movable;
      ghost var s := ledger;
      InvShape(window, s);
      all := expired;
      expired := [];
      var keys := Listing(slots.Keys);
      order := keys;
      ReadyToDrain(s, order);
      DrainAllFacts(window, s, order);
      ghost var s' := CorrelationRuns.DrainAll(s, order);
      InvShape(window, s');
      var removed := Remove(keys);
      assert slots == Held(s') && expired == Named(s'.store, s'.expired);
      all := all + removed;
      ledger := s';
    }

    /** How many slots the buffer holds: exactly those opened and not yet handed over. */
    method Len() returns (n: nat)
      requires Valid()
      ensures n == |ledger.store| - |ledger.emitted|
    {
      assert slots.Keys == ledger.slots.Keys;
      NamedSize(ledger.store, ledger.expired);
      n := |slots| + |expired|;
    }
  }
}
