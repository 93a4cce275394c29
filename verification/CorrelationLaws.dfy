/**
  Laws of the correlation buffer that relate several calls: slots never mix peers,
  an ambiguous wildcard never joins, signals of one key stick to one slot while its
  window is open, and a slot handed over never changes again.
 */
module CorrelationLaws {
  import opened Ownership
  import opened CorrelationLedger
  import opened CorrelationRuns

  // --------------------------------------------------------------- slot contents

  /** The ids of a slot are the duplicate-free set of the ids it absorbed. */
  lemma {:induction false} FoldIdsIsSet(m: seq<Signal>)
    ensures Distinct(FoldIds(m))
    ensures forall x :: x in FoldIds(m) <==> exists i :: 0 <= i < |m| && m[i].id == x
  {
    if m != [] {
      var p := m[..|m| - 1];
      FoldIdsIsSet(p);
      forall x ensures x in FoldIds(m) <==> exists i :: 0 <= i < |m| && m[i].id == x {
        if i :| 0 <= i < |m| && m[i].id == x {
          if i < |p| { assert p[i].id == x; }
        }
        if x in FoldIds(p) {
          var i :| 0 <= i < |p| && p[i].id == x;
          assert m[i].id == x;
        }
      }
    }
  }

  /** The sources of a slot are the duplicate-free set of the sources it absorbed. */
  lemma {:induction false} FoldSourcesIsSet(m: seq<Signal>)
    ensures Distinct(FoldSources(m))
    ensures forall x :: x in FoldSources(m) <==> exists i :: 0 <= i < |m| && m[i].source == x
  {
    if m != [] {
      var p := m[..|m| - 1];
      FoldSourcesIsSet(p);
      forall x ensures x in FoldSources(m) <==> exists i :: 0 <= i < |m| && m[i].source == x {
        if i :| 0 <= i < |m| && m[i].source == x {
          if i < |p| { assert p[i].source == x; }
        }
        if x in FoldSources(p) {
          var i :| 0 <= i < |p| && p[i].source == x;
          assert m[i].source == x;
        }
      }
    }
  }

  /**
    In every run, whatever was absorbed on the way: the ids and sources of a slot are
    those of the signals it took, each once, and its time and detail those of the first.
   */
  lemma SlotsHoldTheirSignals(window: int, t: int, es: seq<Event>, n: nat, i: nat)
    requires Inv(window, Init(t)) && ValidRun(window, Init(t), es)
    requires var s := Run(window, Init(t), es);
             |s.owner| == |s.log| && n < |s.store| && i < |s.log| && s.owner[i] == n && n !in s.owner[..i]
    ensures var s := Run(window, Init(t), es);
            && Distinct(s.store[n].ids) && Distinct(s.store[n].sources)
            && (forall x :: x in s.store[n].ids <==>
                 exists j :: 0 <= j < |s.log| && s.owner[j] == n && s.log[j].id == x)
            && (forall x :: x in s.store[n].sources <==>
                 exists j :: 0 <= j < |s.log| && s.owner[j] == n && s.log[j].source == x)
            && s.store[n].firstNs == s.log[i].ns && s.store[n].detail == s.log[i].detail
            && i < |s.at| && s.at[i] == s.store[n].openedAt
  {
    hide Run, ValidRun;
    RunInv(window, Init(t), es);
    var s := Run(window, Init(t), es);
    var m := Members(s.log, s.owner, n);
    assert Summarizes(s.store[n], m) && TimelyAt(window, s, i);
    hide Inv, Members, Summarizes;
    FoldIdsIsSet(m);
    FoldSourcesIsSet(m);
    FirstMember(s.log, s.owner, n, i);
    forall x ensures x in s.store[n].ids <==> exists j :: 0 <= j < |s.log| && s.owner[j] == n && s.log[j].id == x {
      TakenIds(s.log, s.owner, n, x);
    }
    forall x ensures x in s.store[n].sources <==>
                     exists j :: 0 <= j < |s.log| && s.owner[j] == n && s.log[j].source == x
    {
      TakenSources(s.log, s.owner, n, x);
    }
  }

  lemma TakenIds(log: seq<Signal>, owner: seq<nat>, n: nat, x: string)
    requires |log| == |owner|
    ensures var m := Members(log, owner, n);
            (exists i :: 0 <= i < |m| && m[i].id == x) <==>
            exists j :: 0 <= j < |log| && owner[j] == n && log[j].id == x
  {
    hide Members;
    var m := Members(log, owner, n);
    if i :| 0 <= i < |m| && m[i].id == x { MembersIff(log, owner, n, m[i]); }
    if j :| 0 <= j < |log| && owner[j] == n && log[j].id == x { MembersIff(log, owner, n, log[j]); }
  }

  lemma TakenSources(log: seq<Signal>, owner: seq<nat>, n: nat, x: string)
    requires |log| == |owner|
    ensures var m := Members(log, owner, n);
            (exists i :: 0 <= i < |m| && m[i].source == x) <==>
            exists j :: 0 <= j < |log| && owner[j] == n && log[j].source == x
  {
    hide Members;
    var m := Members(log, owner, n);
    if i :| 0 <= i < |m| && m[i].source == x { MembersIff(log, owner, n, m[i]); }
    if j :| 0 <= j < |log| && owner[j] == n && log[j].source == x { MembersIff(log, owner, n, log[j]); }
  }

  // ------------------------------------------------------------------- no mixing

  /** In every run, two signals of one slot agree on device and type, and on the sub-key when both have one. */
  lemma NoMixing(window: int, t: int, es: seq<Event>, i: nat, j: nat)
    requires Inv(window, Init(t)) && ValidRun(window, Init(t), es)
    requires var s := Run(window, Init(t), es);
             |s.owner| == |s.log| && i < |s.log| && j < |s.log| && s.owner[i] == s.owner[j]
    ensures var s := Run(window, Init(t), es);
            && s.owner[i] < |s.store|
            && var a, b, slot := s.log[i].key, s.log[j].key, s.store[s.owner[i]].key;
            && a.device == b.device == slot.device && a.semantic == b.semantic == slot.semantic
            && (a.sub == "" || a.sub == slot.sub) && (a.sub == "" || b.sub == "" || a.sub == b.sub)
  {
    RunInv(window, Init(t), es);
    var s := Run(window, Init(t), es);
    assert Fits(s.log[i].key, s.store[s.owner[i]].key);
    assert Fits(s.log[j].key, s.store[s.owner[j]].key);
  }

  ghost predicate FoundClosed(window: int, s: Ledger, k: Key, key: Key, r: Readings)
    requires k in s.slots && s.slots[k] < |s.store|
  {
    var slot := s.store[s.slots[k]];
    || (k == key && !IsOpen(slot, window, r.exact))
    || (k in r.sweep && !IsOpen(slot, window, r.sweep[k]))
    || (k in r.pick && !IsOpen(slot, window, r.pick[k]))
  }

  lemma SweepFacts(window: int, s: Ledger, dom: set<Key>, sweep: map<Key, int>, order: seq<Key>)
    requires Shape(s) && SweepOk(window, s, dom, sweep, order) && Movable(s, order)
    ensures var s2 := ExpireAll(s, order);
            && s2 == s.(slots := s2.slots, expired := s2.expired)
            && s2.slots.Keys <= s.slots.Keys
            && (forall k :: k in s2.slots ==> s2.slots[k] == s.slots[k])
            && (forall k :: k in s.slots && k !in s2.slots ==>
                 k in sweep && !IsOpen(s.store[s.slots[k]], window, sweep[k]))
  {
    ExpireAllFacts(s, order);
  }

  /** The sweep moves aside only slots of the group that a reading found closed. */
  lemma SweptFacts(window: int, s: Ledger, key: Key, r: Readings)
    requires Shape(s) && !ExactHit(window, s, key, r) && SweepReady(window, s, key, r)
    ensures var s2 := Swept(window, s, key, r);
            && s2 == s.(slots := s2.slots, expired := s2.expired)
            && s2.slots.Keys <= s.slots.Keys
            && (forall k :: k in s2.slots ==> s2.slots[k] == s.slots[k])
            && (forall k :: k in s.slots && k !in s2.slots ==>
                 FoundClosed(window, s, k, key, r) && !IsOpen(s.store[s.slots[k]], window, r.mid))
  {
    var s1 := AfterExact(s, key);
    SweepMoves(window, s1, Group(s1, key), r.sweep, r.order);
    SweepFacts(window, s1, Group(s1, key), r.sweep, r.order);
  }

  lemma SettleUnambiguous(window: int, s: Ledger, sig: Signal, pick: map<Key, int>, end: int, k: Key)
    requires Shape(s) && pick.Keys == Examined(s, sig.key) && sig.key.sub == ""
    requires k in s.slots && SameGroup(k, sig.key) && Settle(window, s, sig, pick, end).1 == Absorbed
    requires var s' := Settle(window, s, sig, pick, end).0; s'.owner != [] && s'.owner[|s'.owner| - 1] != s.slots[k]
    ensures k in pick && !IsOpen(s.store[s.slots[k]], window, pick[k])
  {
    assert k in Examined(s, sig.key);
    var j :| Picks(window, s, sig.key, pick, j);
    SettlePicks(window, s, sig, pick, end, j);
    assert k !in Candidates(window, s, sig.key, pick);
  }

  /**
    A signal without a sub-key joins a slot that has one only when every other slot
    of its device and type was found closed by a reading of that same call.
   */
  lemma WildcardIsUnambiguous(window: int, s: Ledger, sig: Signal, r: Readings, k0: Key, k: Key)
    requires Shape(s) && RecordReady(window, s, sig.key, r) && sig.key.sub == ""
    requires k0 in s.slots && k0.sub != "" && k in s.slots && SameGroup(k, sig.key) && k != k0
    requires var (s', out) := Record(window, s, sig, r);
             out == Absorbed && s'.owner != [] && s'.owner[|s'.owner| - 1] == s.slots[k0]
    ensures FoundClosed(window, s, k, sig.key, r)
  {
    assert s.store[s.slots[k0]].key == k0 && s.store[s.slots[k]].key == k;
    if !ExactHit(window, s, sig.key, r) {
      SweptFacts(window, s, sig.key, r);
      var s2 := Swept(window, s, sig.key, r);
      if k in s2.slots {
        SettleUnambiguous(window, s2, sig, r.pick, r.end, k);
      }
    }
  }

  // ------------------------------------------------------------- when a signal joins

  /** Reading `t` falls inside the window of the slot at `k`. */
  ghost predicate OpenAt(window: int, s: Ledger, k: Key, t: int)
    requires Shape(s) && k in s.slots
  {
    t < s.store[s.slots[k]].openedAt + window
  }

  /** The slot at `k` was found open both when sweeping and when looking for a wildcard match. */
  ghost predicate FoundOpen(window: int, s: Ledger, k: Key, r: Readings)
    requires Shape(s)
  {
    && k in s.slots && k in r.sweep && OpenAt(window, s, k, r.sweep[k])
    && k in r.pick && OpenAt(window, s, k, r.pick[k])
  }

  /** What the wildcard match examines: the slots of the group that the sweep found open. */
  lemma ExaminedIff(window: int, s: Ledger, key: Key, r: Readings, k: Key)
    requires Shape(s) && RecordReady(window, s, key, r) && !ExactHit(window, s, key, r)
    ensures var s2 := Swept(window, s, key, r);
            && (k in s2.slots <==>
                 (k in s.slots && k != key && (k in r.sweep ==> OpenAt(window, s, k, r.sweep[k]))))
            && (k in r.sweep <==> k in s.slots && k != key && k.device == key.device && k.semantic == key.semantic)
            && (k in r.pick <==> k in s2.slots && k in r.sweep && (key.sub == "" || k.sub == ""))
            && (k in s2.slots ==> s2.slots[k] == s.slots[k] && s2.store == s.store)
  {
    SweptFacts(window, s, key, r);
    var s1 := AfterExact(s, key);
    SweepMoves(window, s1, Group(s1, key), r.sweep, r.order);
    ExpireAllFacts(s1, r.order);
  }

  /** The candidates of the wildcard match are the slots found open. */
  lemma CandidatesIff(window: int, s: Ledger, key: Key, r: Readings, k: Key)
    requires Shape(s) && RecordReady(window, s, key, r) && !ExactHit(window, s, key, r)
    ensures k in Candidates(window, Swept(window, s, key, r), key, r.pick) <==> FoundOpen(window, s, k, r)
  {
    ExaminedIff(window, s, key, r, k);
  }

  /** The slot at `k0`, and no other, was found open. */
  ghost predicate OnlyOpen(window: int, s: Ledger, k0: Key, r: Readings)
    requires Shape(s)
  {
    FoundOpen(window, s, k0, r) && forall k :: FoundOpen(window, s, k, r) ==> k == k0
  }

  lemma PicksIff(window: int, s: Ledger, key: Key, r: Readings, k0: Key)
    requires Shape(s) && RecordReady(window, s, key, r) && !ExactHit(window, s, key, r)
    ensures Picks(window, Swept(window, s, key, r), key, r.pick, k0) <==> OnlyOpen(window, s, k0, r)
  {
    hide Swept, Candidates, FoundOpen, Examined, SweepReady;
    var found := Candidates(window, Swept(window, s, key, r), key, r.pick);
    forall k ensures k in found <==> FoundOpen(window, s, k, r) { CandidatesIff(window, s, key, r, k); }
    if OnlyOpen(window, s, k0, r) {
      assert found == {k0};
    }
    if found == {k0} {
      assert k0 in found && forall k :: k in found ==> k in {k0};
    }
  }

  /** The slot that takes the signal, and the answer, when exactly one slot was found open. */
  lemma JoinsTheOnlyOne(window: int, s: Ledger, sig: Signal, r: Readings, k0: Key)
    requires Shape(s) && RecordReady(window, s, sig.key, r) && !ExactHit(window, s, sig.key, r)
    requires OnlyOpen(window, s, k0, r)
    ensures var (s', out) := Record(window, s, sig, r);
            k0 in s.slots && out == Absorbed && s'.owner == s.owner + [s.slots[k0]]
  {
    hide Settle, Swept, Candidates, Examined, FoundClosed, SweepReady;
    var s2 := Swept(window, s, sig.key, r);
    SweptFacts(window, s, sig.key, r);
    PicksIff(window, s, sig.key, r, k0);
    SettlePicks(window, s2, sig, r.pick, r.end, k0);
  }

  /**
    A record absorbs its signal if and only if the slot at its key is open, or exactly one
    slot is found open among those it may join: the whole group for a signal without a
    sub-key, the slot without a sub-key for any other.
   */
  lemma AbsorbedIff(window: int, s: Ledger, sig: Signal, r: Readings)
    requires Shape(s) && RecordReady(window, s, sig.key, r)
    ensures Record(window, s, sig, r).1 == Absorbed <==>
            || (sig.key in s.slots && OpenAt(window, s, sig.key, r.exact))
            || (exists k0 :: OnlyOpen(window, s, k0, r))
  {
    hide Settle, Swept, Candidates, FoundOpen, Examined, SweepReady, OnlyOpen, Picks;
    if !ExactHit(window, s, sig.key, r) {
      var s2 := Swept(window, s, sig.key, r);
      if k0 :| OnlyOpen(window, s, k0, r) {
        JoinsTheOnlyOne(window, s, sig, r, k0);
      } else {
        forall j ensures !Picks(window, s2, sig.key, r.pick, j) { PicksIff(window, s, sig.key, r, j); }
        SettleOpensSlot(window, s2, sig, r.pick, r.end);
      }
    }
  }

  /** A signal with a sub-key and no slot of its own joins the open slot without a sub-key. */
  lemma JoinsTheEmptySlot(window: int, s: Ledger, sig: Signal, r: Readings)
    requires Shape(s) && RecordReady(window, s, sig.key, r) && sig.key.sub != "" && sig.key !in s.slots
    requires var k0 := sig.key.(sub := ""); k0 in s.slots && r.end < s.store[s.slots[k0]].openedAt + window
    ensures var (s', out) := Record(window, s, sig, r);
            && out == Absorbed && s'.owner == s.owner + [s.slots[sig.key.(sub := "")]]
            && sig.key in s'.slots && s'.slots[sig.key] == s.slots[sig.key.(sub := "")]
  {
    var k0 := sig.key.(sub := "");
    forall k ensures FoundOpen(window, s, k, r) <==> k == k0 { ExaminedIff(window, s, sig.key, r, k); }
    JoinsTheOnlyOne(window, s, sig, r, k0);
    LandsUnderItsKey(window, s, sig, r);
  }

  /** A signal without a sub-key joins the only slot of its group that is open. */
  lemma JoinsTheOpenSlot(window: int, s: Ledger, sig: Signal, r: Readings, k0: Key)
    requires Shape(s) && RecordReady(window, s, sig.key, r) && sig.key.sub == "" && sig.key !in s.slots
    requires k0 in s.slots && k0.device == sig.key.device && k0.semantic == sig.key.semantic
    requires r.end < s.store[s.slots[k0]].openedAt + window
    requires forall k :: k in s.slots && k != k0 && k.device == sig.key.device && k.semantic == sig.key.semantic ==>
               s.store[s.slots[k]].openedAt + window <= s.now
    ensures var (s', out) := Record(window, s, sig, r); out == Absorbed && s'.owner == s.owner + [s.slots[k0]]
  {
    forall k ensures FoundOpen(window, s, k, r) <==> k == k0 { ExaminedIff(window, s, sig.key, r, k); }
    JoinsTheOnlyOne(window, s, sig, r, k0);
  }

  /** A slot that takes a signal gains its id and source where they are new, and keeps its opening and first report. */
  ghost predicate Grows(a: Slot, b: Slot, sig: Signal) {
    && b.openedAt == a.openedAt && b.firstNs == a.firstNs && b.detail == a.detail
    && b.ids == a.ids + (if sig.id in a.ids then [] else [sig.id])
    && b.sources == a.sources + (if sig.source in a.sources then [] else [sig.source])
  }

  /**
    The signal has a new slot, opened at `end`, or one slot has taken it; every other
    slot is as it was.
   */
  ghost predicate Stores(s: Ledger, s': Ledger, out: Outcome, sig: Signal, end: int) {
    && s'.now == end && s'.emitted == s.emitted && s'.log == s.log + [sig]
    && if out == NewSlot then
         && s'.store == s.store + [Slot(sig.key, end, [sig.id], [sig.source], sig.ns, sig.detail)]
         && s'.owner == s.owner + [|s.store|] && sig.key in s'.slots && s'.slots[sig.key] == |s.store|
       else
         exists n :: 0 <= n < |s.store| == |s'.store| && s'.owner == s.owner + [n]
                     && Grows(s.store[n], s'.store[n], sig)
                     && forall m :: 0 <= m < |s.store| && m != n ==> s'.store[m] == s.store[m]
  }

  lemma TakeStores(s: Ledger, k0: Key, k: Key, sig: Signal, t: int, end: int)
    requires k0 in s.slots && s.slots[k0] < |s.store|
    ensures Stores(s, Advance(Take(s, k0, k, sig, t), end), Absorbed, sig, end)
  {
    var n := s.slots[k0];
    var s' := Take(s, k0, k, sig, t);
    assert s'.owner == s.owner + [n];
    assert Grows(s.store[n], s'.store[n], sig);
  }

  /** What every record does to the books, whichever way its signal went. */
  lemma RecordEffect(window: int, s: Ledger, sig: Signal, r: Readings)
    requires Shape(s) && RecordReady(window, s, sig.key, r)
    ensures var (s', out) := Record(window, s, sig, r); Stores(s, s', out, sig, r.end)
  {
    hide Settle, Swept, Candidates, Examined, SweepReady, FoundClosed, Take, Grows;
    if ExactHit(window, s, sig.key, r) {
      TakeStores(s, sig.key, sig.key, sig, r.exact, r.end);
    } else {
      SweptFacts(window, s, sig.key, r);
      var s2 := Swept(window, s, sig.key, r);
      if j :| Picks(window, s2, sig.key, r.pick, j) {
        SettlePicks(window, s2, sig, r.pick, r.end, j);
        TakeStores(s2, j, Upgraded(j, sig.key), sig, r.pick[j], r.end);
      } else {
        SettleOpensSlot(window, s2, sig, r.pick, r.end);
      }
    }
  }

  // -------------------------------------------------------------------- lifetime

  /** In every run, no slot absorbs anything at or after its opening time plus the window. */
  lemma NothingAbsorbedAfterWindow(window: int, t: int, es: seq<Event>, i: nat, j: nat)
    requires Inv(window, Init(t)) && ValidRun(window, Init(t), es)
    requires var s := Run(window, Init(t), es); |s.owner| == |s.log| && i < j < |s.log| && s.owner[i] == s.owner[j]
    ensures var s := Run(window, Init(t), es);
            && s.owner[j] < |s.store| && j < |s.at|
            && s.store[s.owner[j]].openedAt <= s.at[j] < s.store[s.owner[j]].openedAt + window
  {
    RunInv(window, Init(t), es);
    var s := Run(window, Init(t), es);
    assert TimelyAt(window, s, j);
    assert s.owner[..j][i] == s.owner[j];
  }

  /** Slot `n` is still the one at key `k`, or its window has closed. */
  ghost predicate Holds(window: int, s: Ledger, k: Key, n: nat, openedAt: int) {
    || (k in s.slots && s.slots[k] == n && n < |s.store| && s.store[n].openedAt == openedAt)
    || openedAt + window <= s.now
  }

  lemma SettleHolds(
    window: int, s: Ledger, sig: Signal, pick: map<Key, int>, mid: int, end: int, k: Key, n: nat, openedAt: int)
    requires Shape(s) && pick.Keys == Examined(s, sig.key) && sig.key !in s.slots && mid <= end
    requires k.sub != "" && Holds(window, Advance(s, mid), k, n, openedAt)
    ensures Holds(window, Settle(window, s, sig, pick, end).0, k, n, openedAt)
  {
    if j :| Picks(window, s, sig.key, pick, j) {
      SettlePicks(window, s, sig, pick, end, j);
    }
  }

  lemma SweptHolds(window: int, s: Ledger, key: Key, r: Readings, k: Key, n: nat, openedAt: int)
    requires Shape(s) && RecordReady(window, s, key, r) && !ExactHit(window, s, key, r)
    requires Holds(window, s, k, n, openedAt)
    ensures Holds(window, Advance(Swept(window, s, key, r), r.mid), k, n, openedAt)
  {
    SweptFacts(window, s, key, r);
  }

  lemma RecordHolds(window: int, s: Ledger, sig: Signal, r: Readings, k: Key, n: nat, openedAt: int)
    requires Shape(s) && RecordReady(window, s, sig.key, r)
    requires k.sub != "" && Holds(window, s, k, n, openedAt)
    ensures Holds(window, Record(window, s, sig, r).0, k, n, openedAt)
  {
    if !ExactHit(window, s, sig.key, r) {
      SweptHolds(window, s, sig.key, r, k, n, openedAt);
      SettleHolds(window, Swept(window, s, sig.key, r), sig, r.pick, r.mid, r.end, k, n, openedAt);
    }
  }

  lemma StepHolds(window: int, s: Ledger, e: Event, k: Key, n: nat, openedAt: int)
    requires Shape(s) && Enabled(window, s, e) && !e.DrainedAll?
    requires k.sub != "" && Holds(window, s, k, n, openedAt)
    ensures Holds(window, Step(window, s, e), k, n, openedAt)
  {
    match e
    case Recorded(sig, r) => RecordHolds(window, s, sig, r, k, n, openedAt);
    case DrainedExpired(sweep, order, end) =>
      SweepMoves(window, s, s.slots.Keys, sweep, order);
      ExpireAllFacts(s, order);
  }

  lemma {:induction false} RunHolds(window: int, s: Ledger, es: seq<Event>, k: Key, n: nat, openedAt: int)
    requires Inv(window, s) && ValidRun(window, s, es)
    requires forall e :: e in es ==> !e.DrainedAll?
    requires k.sub != "" && Holds(window, s, k, n, openedAt)
    ensures Holds(window, Run(window, s, es), k, n, openedAt)
    decreases |es|
  {
    if es != [] {
      assert es[0] in es;
      StepInv(window, s, es[0]);
      StepHolds(window, s, es[0], k, n, openedAt);
      RunHolds(window, Step(window, s, es[0]), es[1..], k, n, openedAt);
    }
  }

  /** A signal with a sub-key leaves its slot under exactly its own key. */
  lemma LandsUnderItsKey(window: int, s: Ledger, sig: Signal, r: Readings)
    requires Shape(s) && RecordReady(window, s, sig.key, r) && sig.key.sub != ""
    ensures var s' := Record(window, s, sig, r).0;
            sig.key in s'.slots && s'.owner != [] && s'.slots[sig.key] == s'.owner[|s'.owner| - 1]
  {
    if !ExactHit(window, s, sig.key, r) {
      var s2 := Swept(window, s, sig.key, r);
      if j :| Picks(window, s2, sig.key, r.pick, j) {
        SettlePicks(window, s2, sig, r.pick, r.end, j);
      }
    }
  }

  /**
    Stickiness: with no `drain_all` in between, a second signal of the same non-empty
    key joins the slot of the first whenever it arrives inside that slot's window.
   */
  lemma Sticky(window: int, s: Ledger, sig1: Signal, r1: Readings, es: seq<Event>, sig2: Signal, r2: Readings)
    requires Inv(window, s) && RecordReady(window, s, sig1.key, r1) && sig1.key.sub != "" && sig2.key == sig1.key
    requires var s1 := Record(window, s, sig1, r1).0; Inv(window, s1) && ValidRun(window, s1, es)
    requires forall e :: e in es ==> !e.DrainedAll?
    requires var s2 := Run(window, Record(window, s, sig1, r1).0, es);
             Inv(window, s2) && RecordReady(window, s2, sig2.key, r2)
    requires var s1 := Record(window, s, sig1, r1).0;
             && s1.owner != [] && s1.owner[|s1.owner| - 1] < |s1.store|
             && r2.exact < s1.store[s1.owner[|s1.owner| - 1]].openedAt + window
    ensures var s1 := Record(window, s, sig1, r1).0;
            var (s3, out) := Record(window, Run(window, s1, es), sig2, r2);
            out == Absorbed && s3.owner != [] && s3.owner[|s3.owner| - 1] == s1.owner[|s1.owner| - 1]
  {
    var s1 := Record(window, s, sig1, r1).0;
    var n := s1.owner[|s1.owner| - 1];
    LandsUnderItsKey(window, s, sig1, r1);
    RunHolds(window, s1, es, sig1.key, n, s1.store[n].openedAt);
  }

  // -------------------------------------------------------------- handed over

  /** What was handed over stays handed over, and is never touched again. */
  ghost predicate Frozen(s: Ledger, s': Ledger) {
    && s.emitted <= s'.emitted
    && |s.store| <= |s'.store|
    && (forall n :: n in s.emitted && n < |s.store| ==> s'.store[n] == s.store[n])
  }

  lemma TakeFreezes(s: Ledger, k0: Key, k: Key, sig: Signal, t: int, end: int)
    requires Shape(s) && k0 in s.slots && s.slots[k0] !in s.emitted
    ensures Frozen(s, Advance(Take(s, k0, k, sig, t), end))
  {
  }

  lemma LiveNotEmitted(s: Ledger, k: Key)
    requires Shape(s) && Partitioned(s) && k in s.slots
    ensures s.slots[k] !in s.emitted
  {
    assert Live(s, s.slots[k]);
    assert s.slots[k] !in Gone(s);
  }

  lemma RecordFreezes(window: int, s: Ledger, sig: Signal, r: Readings)
    requires Shape(s) && Partitioned(s) && RecordReady(window, s, sig.key, r)
    ensures Frozen(s, Record(window, s, sig, r).0)
  {
    if ExactHit(window, s, sig.key, r) {
      LiveNotEmitted(s, sig.key);
      TakeFreezes(s, sig.key, sig.key, sig, r.exact, r.end);
    } else {
      SweptFacts(window, s, sig.key, r);
      var s2 := Swept(window, s, sig.key, r);
      if j :| Picks(window, s2, sig.key, r.pick, j) {
        SettlePicks(window, s2, sig, r.pick, r.end, j);
        LiveNotEmitted(s, j);
        TakeFreezes(s2, j, Upgraded(j, sig.key), sig, r.pick[j], r.end);
      }
    }
  }

  lemma StepFreezes(window: int, s: Ledger, e: Event)
    requires Shape(s) && Partitioned(s) && Enabled(window, s, e)
    ensures Frozen(s, Step(window, s, e))
  {
    match e
    case Recorded(sig, r) => RecordFreezes(window, s, sig, r);
    case DrainedExpired(sweep, order, end) =>
      SweepMoves(window, s, s.slots.Keys, sweep, order);
      ExpireAllFacts(s, order);
    case DrainedAll(order) =>
      AllMovable(s, order);
      ExpireAllFacts(s, order);
  }

  /** Over every run, a slot that was handed over is never handed over again nor changed. */
  lemma {:induction false} RunFreezes(window: int, s: Ledger, es: seq<Event>)
    requires Inv(window, s) && ValidRun(window, s, es)
    ensures Frozen(s, Run(window, s, es))
    decreases |es|
  {
    if es != [] {
      var s1 := Step(window, s, es[0]);
      StepInv(window, s, es[0]);
      StepFreezes(window, s, es[0]);
      RunFreezes(window, s1, es[1..]);
      assert forall n :: n in s.emitted ==> n in s1.emitted;
    }
  }
}
