/**
  What the answers of the file system make of a call of the archive writer. `io` gives
  the answer to every I/O call, numbered in the order in which they are made; each
  function takes the number of the next call and says which calls are made and how the
  work ends.
 */
module ArchiveRuns {
  import opened Options
  import opened Ownership
  import opened ArchiveNames

  type Answers = nat -> bool

  /** No call from `c` on and before `d` failed. */
  ghost predicate AllWell(io: Answers, c: nat, d: nat) {
    forall i :: c <= i < d ==> io(i)
  }

  /** Work that made the calls from `c` on and before `d` went well, or stopped with the first one that failed. */
  ghost predicate Ends(io: Answers, c: nat, d: nat, ok: bool) {
    && c <= d && (ok <==> AllWell(io, c, d))
    && (!ok ==> c < d && AllWell(io, c, d - 1) && !io(d - 1))
  }

  lemma EndsLater(io: Answers, c: nat, m: nat, d: nat, ok: bool)
    requires c <= m && AllWell(io, c, m) && Ends(io, m, d, ok)
    ensures Ends(io, c, d, ok)
  {
  }

  /** Work that goes well and is followed by more work ends as the latter does. */
  lemma EndsWithBoth(io: Answers, c: nat, m: nat, d: nat, ok: bool)
    requires Ends(io, c, m, true) && Ends(io, m, d, ok)
    ensures Ends(io, c, d, ok)
  {
    EndsLater(io, c, m, d, ok);
  }

  // ------------------------------------------------------------------- appending groups

  /** How the opening of a writer ends: nothing to do, or creating the file and setting up a writer on it. */
  datatype Opening = Opening(ok: bool, calls: nat)

  function OpeningOf(io: Answers, c: nat, isOpen: bool): Opening {
    if isOpen then Opening(true, c)
    else if !io(c) then Opening(false, c + 1)
    else Opening(io(c + 1), c + 2)
  }

  /** The write at call `call` to partition `part` failed. */
  datatype Torn = Torn(part: Partition, call: nat)

  /** How far appending the groups of `order` gets: the partitions in `done` were written in full. */
  datatype Appending = Appending(ok: bool, done: set<Partition>, torn: Option<Torn>, calls: nat)

  function AppendingOf(io: Answers, c: nat, order: seq<Partition>, open: set<Partition>): Appending
    decreases |order|
  {
    if order == [] then Appending(true, {}, None, c)
    else
      var p, o := order[0], OpeningOf(io, c, order[0] in open);
      if !o.ok then Appending(false, {}, None, o.calls)
      else if !io(o.calls) then Appending(false, {}, Some(Torn(p, o.calls)), o.calls + 1)
      else if !io(o.calls + 1) then Appending(false, {p}, None, o.calls + 2)
      else
        var rest := AppendingOf(io, o.calls + 2, order[1..], open);
        rest.(done := rest.done + {p})
  }

  lemma AppendingNothing(io: Answers, open: set<Partition>)
    ensures forall c :: AppendingOf(io, c, [], open) == Appending(true, {}, None, c)
  {
  }

  /** Appending the groups of a non-empty order, group by group. */
  lemma AppendingStep(io: Answers, c: nat, order: seq<Partition>, open: set<Partition>)
    requires order != []
    ensures var a, o := AppendingOf(io, c, order, open), OpeningOf(io, c, order[0] in open);
            if !o.ok then a == Appending(false, {}, None, o.calls)
            else if !io(o.calls) then a == Appending(false, {}, Some(Torn(order[0], o.calls)), o.calls + 1)
            else if !io(o.calls + 1) then a == Appending(false, {order[0]}, None, o.calls + 2)
            else
              var rest := AppendingOf(io, o.calls + 2, order[1..], open);
              a == rest.(done := rest.done + {order[0]})
  {
  }

  /** The same, with the partitions in `done` written before. */
  function Resumed(a: Appending, done: set<Partition>): Appending {
    a.(done := a.done + done)
  }

  /** Appending several groups is appending the first one and, if that goes well, the rest. */
  lemma AppendingCons(io: Answers, c: nat, order: seq<Partition>, open: set<Partition>)
    requires order != []
    ensures var first := AppendingOf(io, c, [order[0]], open);
            && first.done <= {order[0]} && (first.torn.Some? ==> first.torn.value.part == order[0])
            && (first.ok ==> first.done == {order[0]} && first.torn.None?)
            && AppendingOf(io, c, order, open) ==
               if first.ok then Resumed(AppendingOf(io, first.calls, order[1..], open), {order[0]}) else first
  {
    hide AppendingOf;
    AppendingStep(io, c, [order[0]], open);
    AppendingNothing(io, open);
    AppendingStep(io, c, order, open);
    assert [order[0]][0] == order[0] && [order[0]][1..] == [];
  }

  /** Appending fails if and only if one of its calls failed, and it stops with that call. */
  lemma {:induction false} AppendingEndsWell(io: Answers, c: nat, order: seq<Partition>, open: set<Partition>)
    ensures var a := AppendingOf(io, c, order, open); Ends(io, c, a.calls, a.ok)
    decreases |order|
  {
    hide AppendingOf, Ends, AllWell, OpeningOf;
    if order == [] {
      AppendingNothing(io, open);
      NoCalls(io, c);
    } else {
      AppendingStep(io, c, order, open);
      OpeningEndsWell(io, c, order[0] in open);
      var a, o := AppendingOf(io, c, order, open), OpeningOf(io, c, order[0] in open);
      if o.ok {
        TwoCalls(io, o.calls);
        if io(o.calls) && io(o.calls + 1) {
          AppendingEndsWell(io, o.calls + 2, order[1..], open);
          EndsWithBoth(io, o.calls, o.calls + 2, a.calls, a.ok);
        }
        EndsWithBoth(io, c, o.calls, a.calls, a.ok);
      }
    }
  }

  lemma NoCalls(io: Answers, c: nat)
    ensures Ends(io, c, c, true)
  {
  }

  /** Work of two calls, the second of which is made only when the first goes well. */
  lemma TwoCalls(io: Answers, c: nat)
    ensures if io(c) then Ends(io, c, c + 2, io(c + 1)) else Ends(io, c, c + 1, false)
  {
  }

  lemma OpeningEndsWell(io: Answers, c: nat, isOpen: bool)
    ensures var o := OpeningOf(io, c, isOpen); Ends(io, c, o.calls, o.ok)
  {
  }

  /** When appending does not fail, every group is written. */
  lemma {:induction false} AppendingWrites(io: Answers, c: nat, order: seq<Partition>, open: set<Partition>)
    ensures var a := AppendingOf(io, c, order, open);
            && (forall p :: p in a.done ==> p in order)
            && (a.ok ==> a.torn.None? && forall p :: p in order ==> p in a.done)
            && (a.torn.Some? ==>
                 && a.torn.value.part in order && !a.ok
                 && a.torn.value.call + 1 == a.calls && !io(a.torn.value.call))
    decreases |order|
  {
    if order != [] {
      AppendingWrites(io, OpeningOf(io, c, order[0] in open).calls + 2, order[1..], open);
    }
  }

  lemma ToBeOpened(order: seq<Partition>, open: set<Partition>)
    requires Distinct(order) && order != []
    ensures |SetOf(order) - open| == |SetOf(order[1..]) - open| + if order[0] in open then 0 else 1
  {
    var p, rest := order[0], SetOf(order[1..]) - open;
    assert order == [p] + order[1..] && p !in rest;
    assert SetOf(order) - open == if p in open then rest else rest + {p};
  }

  /** Appending that goes well takes two calls for each group, and two more for each writer it has to open. */
  lemma {:induction false} AppendingCalls(io: Answers, c: nat, order: seq<Partition>, open: set<Partition>)
    requires Distinct(order)
    ensures var a := AppendingOf(io, c, order, open);
            a.ok ==> a.calls == c + 2 * |order| + 2 * |SetOf(order) - open|
    decreases |order|
  {
    hide AppendingOf, SetOf;
    if order == [] {
      AppendingNothing(io, open);
      assert SetOf(order) == {} by { WholePrefix(order); assert order[..0] == order; }
    } else {
      AppendingStep(io, c, order, open);
      ToBeOpened(order, open);
      AppendingCalls(io, OpeningOf(io, c, order[0] in open).calls + 2, order[1..], open);
    }
  }

  /** Something is written in full if and only if the first writer opens and takes its group, whatever fails later. */
  lemma WrittenIffFirstWriteSucceeds(io: Answers, c: nat, order: seq<Partition>, open: set<Partition>)
    requires order != []
    ensures var o := OpeningOf(io, c, order[0] in open);
            AppendingOf(io, c, order, open).done != {} <==> o.ok && io(o.calls)
  {
    var o := OpeningOf(io, c, order[0] in open);
    if o.ok && io(o.calls) { assert order[0] in AppendingOf(io, c, order, open).done; }
  }

  /** An append fails although all of it was written: the size of the file cannot be read. */
  lemma FailedAppendHasWritten(io: Answers, c: nat, p: Partition, open: set<Partition>)
    requires p in open && io(c) && !io(c + 1)
    ensures AppendingOf(io, c, [p], open) == Appending(false, {p}, None, c + 2)
  {
  }

  /** Only the writers of the order matter. */
  lemma {:induction false} AppendingFrame(
    io: Answers, c: nat, order: seq<Partition>, open: set<Partition>, open': set<Partition>)
    requires forall p :: p in order ==> (p in open <==> p in open')
    ensures AppendingOf(io, c, order, open) == AppendingOf(io, c, order, open')
    decreases |order|
  {
    if order != [] {
      AppendingFrame(io, OpeningOf(io, c, order[0] in open).calls + 2, order[1..], open, open');
    }
  }

  // ------------------------------------------------------------------- closing writers

  // Closing a writer takes two calls: one completes the file, one reads its size.

  predicate Clean(io: Answers, c: nat, i: nat) {
    io(c + 2 * i) && io(c + 2 * i + 1)
  }

  /** The first of `n` closes that is not clean, or `n`. */
  function Stop(io: Answers, c: nat, n: nat): (k: nat)
    ensures k <= n && (k < n ==> !Clean(io, c, k)) && forall i :: 0 <= i < k ==> Clean(io, c, i)
  {
    if n == 0 then 0
    else
      var k := Stop(io, c, n - 1);
      if k < n - 1 || !Clean(io, c, n - 1) then k else n
  }

  /**
    How far closing the writers of `order` gets: the files of those in `finished` were
    completed, that of the one in `broken` was not, those in `rest` were not reached.
   */
  datatype Closing = Closing(
    ok: bool, finished: set<Partition>, broken: set<Partition>, rest: set<Partition>, calls: nat)

  ghost function ClosingOf(io: Answers, c: nat, order: seq<Partition>): Closing {
    var k := Stop(io, c, |order|);
    if k == |order| then Closing(true, SetOf(order), {}, {}, c + 2 * k)
    else if io(c + 2 * k) then Closing(false, SetOf(order[..k + 1]), {}, SetOf(order[k + 1..]), c + 2 * k + 2)
    else Closing(false, SetOf(order[..k]), {order[k]}, SetOf(order[k + 1..]), c + 2 * k + 1)
  }

  /** Closing fails if and only if one of its calls failed, and it stops with that call. */
  lemma ClosingEndsWell(io: Answers, c: nat, order: seq<Partition>)
    ensures var k := ClosingOf(io, c, order); Ends(io, c, k.calls, k.ok)
  {
    var n := Stop(io, c, |order|);
    forall j | c <= j < c + 2 * n ensures io(j) {
      var i := (j - c) / 2;
      assert Clean(io, c, i) && (j == c + 2 * i || j == c + 2 * i + 1);
    }
  }

  /** Every writer is finished, broken or not reached, and at most one is broken. */
  lemma ClosingSplits(io: Answers, c: nat, order: seq<Partition>)
    requires Distinct(order)
    ensures var k := ClosingOf(io, c, order);
            && k.finished + k.broken + k.rest == SetOf(order)
            && k.finished !! k.broken && k.finished + k.broken !! k.rest && |k.broken| <= 1
  {
    var n := Stop(io, c, |order|);
    if n < |order| {
      assert order == order[..n] + [order[n]] + order[n + 1..];
      assert order[..n + 1] == order[..n] + [order[n]];
    }
  }

  lemma ClosingWell(io: Answers, c: nat, order: seq<Partition>)
    ensures var k := ClosingOf(io, c, order); k.ok ==> k.finished == SetOf(order) && k.broken == {} && k.rest == {}
  {
  }

  /** The close of writer `i` completes its file and, unless it is the last one, its size can be read. */
  predicate Completes(io: Answers, c: nat, i: nat, n: nat) {
    io(c + 2 * i) && (i + 1 < n ==> io(c + 2 * i + 1))
  }

  /**
    Every file is finished if and only if no close breaks and the size of every file but
    the last can be read.
   */
  lemma AllFinishedIff(io: Answers, c: nat, order: seq<Partition>)
    requires Distinct(order)
    ensures ClosingOf(io, c, order).finished == SetOf(order) <==>
            forall i :: 0 <= i < |order| ==> Completes(io, c, i, |order|)
  {
    var n, k := |order|, Stop(io, c, |order|);
    if k < n {
      if io(c + 2 * k) && k + 1 == n {
        assert order[..k + 1] == order;
        forall i | 0 <= i < n ensures Completes(io, c, i, n) { assert i < k ==> Clean(io, c, i); }
      } else {
        assert !Completes(io, c, k, n);
        var x := if io(c + 2 * k) then order[k + 1] else order[k];
        assert x in SetOf(order) && x !in ClosingOf(io, c, order).finished;
      }
    } else {
      forall i | 0 <= i < n ensures Completes(io, c, i, n) { assert Clean(io, c, i); }
    }
  }

  /** When the first of two closes breaks, the second writer is not reached, however healthy its file. */
  lemma BrokenCloseLeavesTheOther(io: Answers, c: nat, p: Partition, q: Partition)
    requires p != q && !io(c)
    ensures ClosingOf(io, c, [p, q]) == Closing(false, {}, {p}, {q}, c + 1)
  {
    assert !Clean(io, c, 0);
    assert [p, q][..0] == [] && [p, q][1..] == [q];
  }
}
