/**
  The late-arrival correlation buffer as a ledger: every slot ever opened has a
  number, every recorded signal has the number of the slot that took it, and
  every `elapsed()` reading of the clock is explicit, so that time may advance
  between any two readings of one call.
 */
module CorrelationLedger {
  import opened Ownership

  datatype Key = Key(device: string, semantic: string, sub: string)

  datatype Signal = Signal(key: Key, id: string, source: string, ns: int, detail: string)

  /** A pending correlation. */
  datatype Slot = Slot(key: Key, openedAt: int, ids: seq<string>, sources: seq<string>, firstNs: int, detail: string)

  datatype Outcome = Absorbed | NewSlot

  predicate SameGroup(a: Key, b: Key) {
    a.device == b.device && a.semantic == b.semantic
  }

  function EmptyKey(k: Key): Key {
    k.(sub := "")
  }

  function Push(xs: seq<string>, x: string): seq<string> {
    if x in xs then xs else xs + [x]
  }

  function NewPending(sig: Signal, t: int): Slot {
    Slot(sig.key, t, [sig.id], [sig.source], sig.ns, sig.detail)
  }

  function Absorb(slot: Slot, sig: Signal): Slot {
    slot.(ids := Push(slot.ids, sig.id), sources := Push(slot.sources, sig.source))
  }

  /** The window of `slot` is still open at clock reading `t`. */
  predicate IsOpen(slot: Slot, window: int, t: int) {
    t - slot.openedAt < window
  }

  // ---------------------------------------------------------------- the ledger

  /**
    `store` holds every slot ever opened; `slots`, `expired` and `emitted` refer
    to it by number. `log` holds every recorded signal, `owner[i]` the slot that
    took signal `i` and `at[i]` the clock reading at which it was taken.
   */
  datatype Ledger = Ledger(
    now: int,
    store: seq<Slot>,
    slots: map<Key, nat>,
    expired: seq<nat>,
    emitted: seq<nat>,
    log: seq<Signal>,
    owner: seq<nat>,
    at: seq<int>)

  function Init(t: int): Ledger {
    Ledger(t, [], map[], [], [], [], [], [])
  }

  ghost function Gone(s: Ledger): seq<nat> {
    s.expired + s.emitted
  }

  ghost predicate Live(s: Ledger, n: nat)
    requires n < |s.store|
  {
    s.store[n].key in s.slots && s.slots[s.store[n].key] == n
  }

  ghost function FoldIds(m: seq<Signal>): seq<string> {
    if m == [] then [] else Push(FoldIds(m[..|m| - 1]), m[|m| - 1].id)
  }

  ghost function FoldSources(m: seq<Signal>): seq<string> {
    if m == [] then [] else Push(FoldSources(m[..|m| - 1]), m[|m| - 1].source)
  }

  /** `slot` is exactly what its members make it. */
  ghost predicate Summarizes(slot: Slot, m: seq<Signal>) {
    && m != []
    && slot.ids == FoldIds(m)
    && slot.sources == FoldSources(m)
    && slot.firstNs == m[0].ns
    && slot.detail == m[0].detail
  }

  /** A signal keyed `a` may live in a slot keyed `b`. */
  predicate Fits(a: Key, b: Key) {
    SameGroup(a, b) && (a.sub == "" || a.sub == b.sub)
  }

  ghost predicate Within(ns: seq<nat>, bound: nat) {
    forall i :: 0 <= i < |ns| ==> ns[i] < bound
  }

  ghost predicate Shape(s: Ledger) {
    && |s.owner| == |s.log| == |s.at|
    && (forall i :: 0 <= i < |s.log| ==> s.owner[i] < |s.store|)
    && (forall k :: k in s.slots ==> s.slots[k] < |s.store| && s.store[s.slots[k]].key == k)
    && Within(s.expired, |s.store|) && Within(s.emitted, |s.store|)
  }

  /** Every slot is in exactly one place: live, or once among the expired and emitted. */
  ghost predicate Partitioned(s: Ledger)
    requires Shape(s)
  {
    && Distinct(Gone(s))
    && |s.slots| + |s.expired| + |s.emitted| == |s.store|
    && (forall n :: 0 <= n < |s.store| ==> (Live(s, n) <==> n !in Gone(s)))
  }

  ghost predicate Contents(s: Ledger)
    requires Shape(s)
  {
    forall n :: 0 <= n < |s.store| ==> Summarizes(s.store[n], Members(s.log, s.owner, n))
  }

  ghost predicate Unmixed(s: Ledger)
    requires Shape(s)
  {
    forall i :: 0 <= i < |s.log| ==> Fits(s.log[i].key, s.store[s.owner[i]].key)
  }

  /** Signal `i` is the first one of its slot. */
  ghost predicate First(owner: seq<nat>, i: nat)
    requires i < |owner|
  {
    owner[i] !in owner[..i]
  }

  ghost predicate TimelyAt(window: int, s: Ledger, i: nat)
    requires Shape(s) && i < |s.log|
  {
    && s.store[s.owner[i]].openedAt <= s.at[i] <= s.now
    && (First(s.owner, i) ==> s.at[i] == s.store[s.owner[i]].openedAt)
    && (!First(s.owner, i) ==> IsOpen(s.store[s.owner[i]], window, s.at[i]))
  }

  /** The opener of a slot is taken at its opening, every other signal strictly inside the window. */
  ghost predicate Timely(window: int, s: Ledger)
    requires Shape(s)
  {
    && (forall n :: 0 <= n < |s.store| ==> s.store[n].openedAt <= s.now)
    && (forall i :: 0 <= i < |s.log| ==> TimelyAt(window, s, i))
  }

  ghost predicate Inv(window: int, s: Ledger) {
    && Shape(s)
    && Partitioned(s)
    && Contents(s)
    && Unmixed(s)
    && Timely(window, s)
  }

  // ------------------------------------------------------------ ledger updates

  /** Moves the slot at key `k` aside. */
  ghost function Expire(s: Ledger, k: Key): Ledger
    requires k in s.slots
  {
    s.(slots := s.slots - {k}, expired := s.expired + [s.slots[k]])
  }

  ghost predicate Movable(s: Ledger, ks: seq<Key>) {
    Distinct(ks) && forall i :: 0 <= i < |ks| ==> ks[i] in s.slots
  }

  ghost function ExpireAll(s: Ledger, ks: seq<Key>): Ledger
    requires Movable(s, ks)
    decreases |ks|
  {
    if ks == [] then s
    else ExpireAll(Expire(s, ks[0]), ks[1..])
  }

  /** Hands every slot that was moved aside to the caller. */
  ghost function Flush(s: Ledger): Ledger {
    s.(emitted := s.emitted + s.expired, expired := [])
  }

  ghost function Advance(s: Ledger, t: int): Ledger {
    s.(now := t)
  }

  /** Slot `s.slots[k0]` takes `sig` and continues under key `k`. */
  ghost function Take(s: Ledger, k0: Key, k: Key, sig: Signal, t: int): Ledger
    requires k0 in s.slots && s.slots[k0] < |s.store|
  {
    var n := s.slots[k0];
    s.(store := s.store[n := Absorb(s.store[n], sig).(key := k)],
    slots := (s.slots - {k0})[k := n],
    log := s.log + [sig], owner := s.owner + [n], at := s.at + [t])
  }

  ghost function OpenSlot(s: Ledger, sig: Signal, t: int): Ledger {
    s.(store := s.store + [NewPending(sig, t)],
    slots := s.slots[sig.key := |s.store|],
    log := s.log + [sig], owner := s.owner + [|s.store|], at := s.at + [t])
  }

  // -------------------------------------------------------------------- record

  /**
    The clock readings of one `record`: `exact` for the exact match, `sweep[k]` for
    each slot of the group while sweeping (the swept keys leave in `order`), `pick[k]`
    for each slot examined by the wildcard match, and `end` when the call finishes.
   */
  datatype Readings = Readings(
    exact: int, sweep: map<Key, int>, order: seq<Key>, mid: int, pick: map<Key, int>, end: int)

  ghost predicate Between(lo: int, readings: map<Key, int>, hi: int) {
    lo <= hi && forall k :: k in readings ==> lo <= readings[k] <= hi
  }

  ghost function Group(s: Ledger, key: Key): set<Key> {
    set k | k in s.slots && SameGroup(k, key)
  }

  /** `order` lists, once each, exactly the keys of `dom` whose reading finds the window closed. */
  ghost predicate SweepOk(window: int, s: Ledger, dom: set<Key>, sweep: map<Key, int>, order: seq<Key>)
    requires Shape(s)
  {
    && dom <= s.slots.Keys
    && sweep.Keys == dom
    && Distinct(order)
    && (forall k :: k in order ==> k in dom)
    && (forall k :: k in dom ==> (k in order <==> !IsOpen(s.store[s.slots[k]], window, sweep[k])))
  }

  /** The keys whose windows the wildcard match reads. */
  ghost function Examined(s: Ledger, key: Key): set<Key> {
    if key.sub == "" then Group(s, key)
    else if EmptyKey(key) in s.slots then {EmptyKey(key)} else {}
  }

  ghost function Candidates(window: int, s: Ledger, key: Key, pick: map<Key, int>): set<Key>
    requires Shape(s) && pick.Keys == Examined(s, key)
  {
    set k | k in pick && IsOpen(s.store[s.slots[k]], window, pick[k])
  }

  /** The slot chosen by the wildcard match, if it is unambiguous. */
  ghost predicate Picks(window: int, s: Ledger, key: Key, pick: map<Key, int>, j: Key)
    requires Shape(s) && pick.Keys == Examined(s, key)
  {
    Candidates(window, s, key, pick) == {j}
  }

  /** The exact match fails and whatever it found is moved aside. */
  ghost function AfterExact(s: Ledger, key: Key): (s1: Ledger)
    requires Shape(s)
    ensures Shape(s1)
  {
    if key in s.slots then Expire(s, key) else s
  }

  ghost predicate ExactHit(window: int, s: Ledger, key: Key, r: Readings)
    requires Shape(s)
  {
    key in s.slots && IsOpen(s.store[s.slots[key]], window, r.exact)
  }

  ghost predicate SweepReady(window: int, s: Ledger, key: Key, r: Readings)
    requires Shape(s)
  {
    var s1 := AfterExact(s, key);
    && s.now <= r.exact
    && SweepOk(window, s1, Group(s1, key), r.sweep, r.order)
    && Between(r.exact, r.sweep, r.mid)
  }

  /** The ledger once the exact match failed and the expired slots of the group are moved aside. */
  ghost function Swept(window: int, s: Ledger, key: Key, r: Readings): (s2: Ledger)
    requires Shape(s) && SweepReady(window, s, key, r)
    ensures Shape(s2) && key !in s2.slots && s2.now <= r.mid
  {
    var s1 := AfterExact(s, key);
    SweepMoves(window, s1, Group(s1, key), r.sweep, r.order);
    ExpireAllFacts(s1, r.order);
    ExpireAllShape(s1, r.order);
    ExpireAll(s1, r.order)
  }

  /** The wildcard match, and a new slot when it finds none. */
  ghost function Settle(window: int, s: Ledger, sig: Signal, pick: map<Key, int>, end: int): (Ledger, Outcome)
    requires Shape(s) && pick.Keys == Examined(s, sig.key)
  {
    if exists j :: Picks(window, s, sig.key, pick, j) then
      var j :| Picks(window, s, sig.key, pick, j);
      PicksExamined(window, s, sig.key, pick, j);
      (Advance(Take(s, j, Upgraded(j, sig.key), sig, pick[j]), end), Absorbed)
    else
      (Advance(OpenSlot(s, sig, end), end), NewSlot)
  }

  /** The key under which a slot keyed `j` continues once it has taken a signal keyed `key`. */
  function Upgraded(j: Key, key: Key): Key {
    if j.sub == "" then key else j
  }

  ghost predicate RecordReady(window: int, s: Ledger, key: Key, r: Readings)
    requires Shape(s)
  {
    if ExactHit(window, s, key, r) then s.now <= r.exact == r.end
    else
      && SweepReady(window, s, key, r)
      && r.pick.Keys == Examined(Swept(window, s, key, r), key)
      && Between(r.mid, r.pick, r.end)
  }

  ghost function Record(window: int, s: Ledger, sig: Signal, r: Readings): (Ledger, Outcome)
    requires Shape(s) && RecordReady(window, s, sig.key, r)
  {
    if ExactHit(window, s, sig.key, r) then
      (Advance(Take(s, sig.key, sig.key, sig, r.exact), r.end), Absorbed)
    else
      Settle(window, Swept(window, s, sig.key, r), sig, r.pick, r.end)
  }

  lemma PicksExamined(window: int, s: Ledger, key: Key, pick: map<Key, int>, j: Key)
    requires Shape(s) && pick.Keys == Examined(s, key) && Picks(window, s, key, pick, j)
    ensures j in pick && j in s.slots && IsOpen(s.store[s.slots[j]], window, pick[j])
  {
    assert j in Candidates(window, s, key, pick);
  }

  lemma SweepMoves(window: int, s: Ledger, dom: set<Key>, sweep: map<Key, int>, order: seq<Key>)
    requires Shape(s) && SweepOk(window, s, dom, sweep, order)
    ensures Movable(s, order)
  {
    forall i | 0 <= i < |order| ensures order[i] in s.slots { assert order[i] in dom; }
  }

  // ------------------------------------------------------- updates keep the invariant

  /** Moving slots around changes neither what they hold nor when they took it. */
  lemma BooksKept(window: int, s: Ledger, s': Ledger)
    requires Shape(s) && Contents(s) && Unmixed(s) && Timely(window, s) && Shape(s')
    requires s'.store == s.store && s'.log == s.log && s'.owner == s.owner && s'.at == s.at && s.now <= s'.now
    ensures Contents(s') && Unmixed(s') && Timely(window, s')
  {
    forall i | 0 <= i < |s.log| ensures TimelyAt(window, s', i) { assert TimelyAt(window, s, i); }
  }

  lemma ExpirePartitioned(s: Ledger, k: Key)
    requires Shape(s) && Partitioned(s) && k in s.slots
    ensures Shape(Expire(s, k)) && Partitioned(Expire(s, k))
  {
    var s' := Expire(s, k);
    var n := s.slots[k];
    assert Live(s, n);
    assert Gone(s') == s.expired + [n] + s.emitted;
    GoneStaysDistinct(s.expired, n, s.emitted);
    assert forall m :: m in Gone(s') <==> m in Gone(s) || m == n;
    assert s'.slots.Keys == s.slots.Keys - {k};
  }

  lemma ExpireInv(window: int, s: Ledger, k: Key)
    requires Inv(window, s) && k in s.slots
    ensures Inv(window, Expire(s, k))
  {
    ExpirePartitioned(s, k);
    BooksKept(window, s, Expire(s, k));
  }

  lemma GoneStaysDistinct(a: seq<nat>, n: nat, b: seq<nat>)
    requires Distinct(a + b) && n !in a + b
    ensures Distinct(a + [n] + b)
  {
    var c := a + [n] + b;
    forall i, j | 0 <= i < j < |c| ensures c[i] != c[j] {
      var i' := if i < |a| then i else i - 1;
      var j' := if j < |a| then j else j - 1;
      assert i != |a| ==> c[i] == (a + b)[i'] && c[i] in a + b;
      assert j != |a| ==> c[j] == (a + b)[j'] && c[j] in a + b;
    }
  }

  lemma {:induction false} ExpireAllInv(window: int, s: Ledger, ks: seq<Key>)
    requires Inv(window, s) && Movable(s, ks)
    ensures Inv(window, ExpireAll(s, ks))
    decreases |ks|
  {
    hide Contents, Unmixed, Timely, Partitioned;
    if ks != [] {
      ExpireInv(window, s, ks[0]);
      ExpireAllInv(window, Expire(s, ks[0]), ks[1..]);
    }
  }

  lemma SweptInv(window: int, s: Ledger, key: Key, r: Readings)
    requires Inv(window, s) && SweepReady(window, s, key, r)
    ensures Inv(window, Swept(window, s, key, r))
  {
    var s1 := AfterExact(s, key);
    if key in s.slots { ExpireInv(window, s, key); }
    SweepMoves(window, s1, Group(s1, key), r.sweep, r.order);
    ExpireAllInv(window, s1, r.order);
  }

  lemma GoneSwaps(a: seq<nat>, b: seq<nat>)
    requires Distinct(a + b)
    ensures Distinct(b + a)
  {
    forall i, j | 0 <= i < j < |b + a| ensures (b + a)[i] != (b + a)[j] {
      assert (b + a)[i] == (a + b)[if i < |b| then |a| + i else i - |b|];
      assert (b + a)[j] == (a + b)[if j < |b| then |a| + j else j - |b|];
    }
  }

  lemma {:induction false} ExpireAllFacts(s: Ledger, ks: seq<Key>)
    requires Movable(s, ks)
    ensures var s' := ExpireAll(s, ks);
            && s'.slots.Keys == s.slots.Keys - (set k | k in ks)
            && (forall k :: k in s'.slots ==> s'.slots[k] == s.slots[k])
            && s' == s.(slots := s'.slots, expired := s'.expired)
            && s.expired <= s'.expired
            && (forall k :: k in ks ==> s.slots[k] in s'.expired)
    decreases |ks|
  {
    if ks != [] {
      var s1 := Expire(s, ks[0]);
      ExpireAllFacts(s1, ks[1..]);
      var s' := ExpireAll(s1, ks[1..]);
      assert ks == [ks[0]] + ks[1..];
      assert forall k :: k in ks <==> k == ks[0] || k in ks[1..];
      assert s1.expired[|s.expired|] == s.slots[ks[0]];
      assert s'.expired[|s.expired|] == s.slots[ks[0]];
    }
  }

  lemma {:induction false} ExpireAllShape(s: Ledger, ks: seq<Key>)
    requires Shape(s) && Movable(s, ks)
    ensures Shape(ExpireAll(s, ks))
    decreases |ks|
  {
    if ks != [] { ExpireAllShape(Expire(s, ks[0]), ks[1..]); }
  }

  lemma FlushInv(window: int, s: Ledger)
    requires Inv(window, s)
    ensures Inv(window, Flush(s))
  {
    var s' := Flush(s);
    assert Gone(s') == s.emitted + s.expired;
    assert forall n :: n in Gone(s') <==> n in Gone(s);
    GoneSwaps(s.expired, s.emitted);
    assert Shape(s');
    forall n | 0 <= n < |s.store| ensures Live(s', n) == Live(s, n) {}
    BooksKept(window, s, s');
  }

  lemma NowIrrelevant(s: Ledger, t: int)
    requires Shape(s) && Partitioned(s) && Contents(s) && Unmixed(s)
    ensures var s' := Advance(s, t);
            Shape(s') && Partitioned(s') && Contents(s') && Unmixed(s')
  {
    assert Gone(Advance(s, t)) == Gone(s);
    forall n | 0 <= n < |s.store| ensures Live(Advance(s, t), n) == Live(s, n) {}
  }

  lemma AdvanceInv(window: int, s: Ledger, t: int)
    requires Inv(window, s) && s.now <= t
    ensures Inv(window, Advance(s, t))
  {
    NowIrrelevant(s, t);
    BooksKept(window, s, Advance(s, t));
  }

  lemma SummarizesAbsorb(slot: Slot, m: seq<Signal>, sig: Signal)
    requires Summarizes(slot, m)
    ensures Summarizes(Absorb(slot, sig), m + [sig])
  {
    assert (m + [sig])[..|m|] == m;
  }

  /** Slot `s.slots[k0]` may take a signal keyed `a` at time `t` and continue under `k`. */
  ghost predicate MayTake(window: int, s: Ledger, k0: Key, k: Key, a: Key, t: int)
    requires Shape(s)
  {
    && k0 in s.slots
    && (k == k0 || (k0.sub == "" && k !in s.slots))
    && SameGroup(k, k0) && Fits(a, k)
    && s.now <= t && IsOpen(s.store[s.slots[k0]], window, t)
  }

  lemma RekeySize(m: map<Key, nat>, k0: Key, k: Key, n: nat)
    requires k0 in m && (k == k0 || k !in m)
    ensures |(m - {k0})[k := n]| == |m|
  {
    assert ((m - {k0})[k := n]).Keys == m.Keys - {k0} + {k};
  }

  lemma TakePartitioned(window: int, s: Ledger, k0: Key, k: Key, sig: Signal, t: int)
    requires Shape(s) && Partitioned(s) && MayTake(window, s, k0, k, sig.key, t)
    ensures Shape(Take(s, k0, k, sig, t)) && Partitioned(Take(s, k0, k, sig, t))
  {
    var s' := Take(s, k0, k, sig, t);
    var n := s.slots[k0];
    assert Gone(s') == Gone(s);
    assert Live(s, n);
    assert s'.store[n].key == k && s'.slots[k] == n;
    RekeySize(s.slots, k0, k, s.slots[k0]);
    forall m | 0 <= m < |s.store| ensures Live(s', m) == Live(s, m) {}
  }

  lemma TakeContents(window: int, s: Ledger, k0: Key, k: Key, sig: Signal, t: int)
    requires Shape(s) && Contents(s) && MayTake(window, s, k0, k, sig.key, t)
    requires Shape(Take(s, k0, k, sig, t))
    ensures Contents(Take(s, k0, k, sig, t))
  {
    var s' := Take(s, k0, k, sig, t);
    var n := s.slots[k0];
    forall m | 0 <= m < |s'.store| ensures Summarizes(s'.store[m], Members(s'.log, s'.owner, m)) {
      MembersExtend(s.log, s.owner, m, sig, n);
      SummarizesAbsorb(s.store[m], Members(s.log, s.owner, m), sig);
    }
  }

  lemma TakeUnmixed(window: int, s: Ledger, k0: Key, k: Key, sig: Signal, t: int)
    requires Shape(s) && Unmixed(s) && MayTake(window, s, k0, k, sig.key, t)
    requires Shape(Take(s, k0, k, sig, t))
    ensures Unmixed(Take(s, k0, k, sig, t))
  {
    var s' := Take(s, k0, k, sig, t);
    forall i | 0 <= i < |s'.log| ensures Fits(s'.log[i].key, s'.store[s'.owner[i]].key) {
      if i < |s.log| { assert Fits(s.log[i].key, s.store[s.owner[i]].key); }
    }
  }

  lemma FirstExtends(owner: seq<nat>, n: nat)
    ensures First(owner + [n], |owner|) <==> n !in owner
    ensures forall i :: 0 <= i < |owner| ==> (First(owner + [n], i) <==> First(owner, i))
  {
    assert (owner + [n])[..|owner|] == owner;
    forall i | 0 <= i < |owner| ensures First(owner + [n], i) <==> First(owner, i) {
      assert (owner + [n])[..i] == owner[..i];
    }
  }

  lemma TakeTimely(window: int, s: Ledger, k0: Key, k: Key, sig: Signal, t: int)
    requires Shape(s) && Contents(s) && Timely(window, s) && MayTake(window, s, k0, k, sig.key, t)
    requires Shape(Take(s, k0, k, sig, t))
    ensures Timely(window, Advance(Take(s, k0, k, sig, t), t))
  {
    var s' := Advance(Take(s, k0, k, sig, t), t);
    var n := s.slots[k0];
    NoMembers(s.log, s.owner, n);
    assert Summarizes(s.store[n], Members(s.log, s.owner, n));
    FirstExtends(s.owner, n);
    forall i | 0 <= i < |s'.log| ensures TimelyAt(window, s', i) {
      if i < |s.log| { assert TimelyAt(window, s, i); }
    }
  }

  lemma TakeInv(window: int, s: Ledger, k0: Key, k: Key, sig: Signal, t: int, end: int)
    requires Inv(window, s) && MayTake(window, s, k0, k, sig.key, t) && t <= end
    ensures Inv(window, Advance(Take(s, k0, k, sig, t), end))
  {
    TakePartitioned(window, s, k0, k, sig, t);
    TakeContents(window, s, k0, k, sig, t);
    TakeUnmixed(window, s, k0, k, sig, t);
    TakeTimely(window, s, k0, k, sig, t);
    NowIrrelevant(Take(s, k0, k, sig, t), t);
    AdvanceInv(window, Advance(Take(s, k0, k, sig, t), t), end);
  }

  lemma OpenPartitioned(window: int, s: Ledger, sig: Signal, t: int)
    requires Shape(s) && Partitioned(s) && sig.key !in s.slots
    ensures Shape(OpenSlot(s, sig, t)) && Partitioned(OpenSlot(s, sig, t))
  {
    var s' := OpenSlot(s, sig, t);
    assert Gone(s') == Gone(s);
    assert s'.slots.Keys == s.slots.Keys + {sig.key};
    assert |s'.slots| == |s.slots| + 1;
    forall m | 0 <= m < |s'.store| ensures Live(s', m) <==> m !in Gone(s') {
      if m < |s.store| { assert Live(s', m) == Live(s, m); }
    }
  }

  lemma OpenContents(window: int, s: Ledger, sig: Signal, t: int)
    requires Shape(s) && Contents(s) && Shape(OpenSlot(s, sig, t))
    ensures Contents(OpenSlot(s, sig, t))
  {
    var s' := OpenSlot(s, sig, t);
    var n := |s.store|;
    NoMembers(s.log, s.owner, n);
    forall m | 0 <= m < |s'.store| ensures Summarizes(s'.store[m], Members(s'.log, s'.owner, m)) {
      MembersExtend(s.log, s.owner, m, sig, n);
      assert [sig][..0] == [];
    }
  }

  lemma OpenTimely(window: int, s: Ledger, sig: Signal, t: int)
    requires Shape(s) && Timely(window, s) && s.now <= t && Shape(OpenSlot(s, sig, t))
    ensures Timely(window, Advance(OpenSlot(s, sig, t), t))
  {
    var s' := Advance(OpenSlot(s, sig, t), t);
    FirstExtends(s.owner, |s.store|);
    forall i | 0 <= i < |s'.log| ensures TimelyAt(window, s', i) {
      if i < |s.log| { assert TimelyAt(window, s, i); }
    }
  }

  lemma OpenUnmixed(window: int, s: Ledger, sig: Signal, t: int)
    requires Shape(s) && Unmixed(s) && Shape(OpenSlot(s, sig, t))
    ensures Unmixed(OpenSlot(s, sig, t))
  {
    var s' := OpenSlot(s, sig, t);
    forall i | 0 <= i < |s'.log| ensures Fits(s'.log[i].key, s'.store[s'.owner[i]].key) {
      if i < |s.log| { assert Fits(s.log[i].key, s.store[s.owner[i]].key); }
    }
  }

  lemma OpenInv(window: int, s: Ledger, sig: Signal, t: int)
    requires Inv(window, s) && sig.key !in s.slots && s.now <= t
    ensures Inv(window, Advance(OpenSlot(s, sig, t), t))
  {
    OpenPartitioned(window, s, sig, t);
    OpenContents(window, s, sig, t);
    OpenTimely(window, s, sig, t);
    OpenUnmixed(window, s, sig, t);
    NowIrrelevant(OpenSlot(s, sig, t), t);
  }
}
