/**
  The hourly archive writer. However often files are closed by hour, idleness, age or
  at the end, and whichever I/O call fails, the files of a partition, in creation order,
  were given exactly the accepted updates of that partition in arrival order. Every file
  is open, finished or lost. What a call accepts, finishes and loses is determined by the
  answers of the file system, and it fails exactly when one of them is a failure.
 */
module ArchiveWriters {
  import opened Options
  import opened Sets
  import opened Ownership
  import opened ArchiveNames
  import opened ArchiveRows
  import opened ArchiveRuns

  datatype CloseStats = CloseStats(path: Path, totalRows: nat)

  datatype Result<T> = Ok(value: T) | Err

  function SaturatingSub(a: nat, b: nat): nat {
    if a < b then 0 else a - b
  }

  /** Looks for the first part number whose path does not exist yet; it always finds one. */
  method FindFreePart(existing: set<Path>, p: Partition) returns (part: nat)
    ensures FilePath(p, part) !in existing
    ensures forall i :: 0 <= i < part ==> FilePath(p, i) in existing
  {
    hide FilePath;
    part := 0;
    while FilePath(p, part) in existing
      invariant forall i :: 0 <= i < part ==> FilePath(p, i) in existing
      invariant part <= |existing|
      decreases |existing| - part
    {
      part := part + 1;
      PartsFit(existing, p, part);
    }
  }

  /** The path is that of the first part of the partition that does not exist yet. */
  ghost predicate FirstFree(existing: set<Path>, p: Partition, path: Path) {
    path !in existing &&
    exists part: nat :: path == FilePath(p, part) && forall i :: 0 <= i < part ==> FilePath(p, i) in existing
  }

  ghost function Parts(p: Partition, n: nat): set<Path> {
    set i | 0 <= i < n :: FilePath(p, i)
  }

  lemma {:induction false} PartsSize(p: Partition, n: nat)
    ensures |Parts(p, n)| == n
  {
    hide FilePath;
    if n > 0 {
      PartsSize(p, n - 1);
      assert Parts(p, n) == Parts(p, n - 1) + {FilePath(p, n - 1)};
      if FilePath(p, n - 1) in Parts(p, n - 1) {
        var i :| 0 <= i < n - 1 && FilePath(p, i) == FilePath(p, n - 1);
        FilePathInjective(p, i, n - 1);
      }
    }
  }

  /** The existing paths bound how many parts can already be taken. */
  lemma PartsFit(existing: set<Path>, p: Partition, n: nat)
    requires forall i :: 0 <= i < n ==> FilePath(p, i) in existing
    ensures n <= |existing|
  {
    hide FilePath;
    PartsSize(p, n);
    SubsetSize(Parts(p, n), existing);
  }

  lemma SelectExtends(us: seq<Update>, n: nat, p: Partition)
    requires n < |us|
    ensures Select(us[..n + 1], p) == Select(us[..n], p) + if PartitionOf(us[n]) == p then [us[n]] else []
  {
    assert us[..n + 1][..n] == us[..n];
  }

  /** Some update of the buffer belongs to partition `p`. */
  ghost predicate Occurs(buffer: seq<Update>, p: Partition) {
    exists i :: 0 <= i < |buffer| && PartitionOf(buffer[i]) == p
  }

  /** Some update of the buffer belongs to a later hour than `p`. */
  ghost predicate OlderThanSome(buffer: seq<Update>, p: Partition) {
    exists i :: 0 <= i < |buffer| && p.hourStartNs < PartitionOf(buffer[i]).hourStartNs
  }

  lemma InI64(u: Update)
    ensures MIN_I64 <= PartitionOf(u).hourStartNs
  {
  }

  /** The rows that a failed write has taken in: the first ones of its group, as many as `taken` says for that call. */
  ghost function TornRows(buffer: seq<Update>, torn: Torn, taken: nat -> nat): seq<Update> {
    Front(Select(buffer, torn.part), taken(torn.call))
  }

  function Front(us: seq<Update>, n: nat): seq<Update> {
    if n < |us| then us[..n] else us
  }

  /** The part of partition `q` in a buffer that is accepted. */
  ghost function Accepted(buffer: seq<Update>, a: Appending, taken: nat -> nat, q: Partition): seq<Update> {
    if q in a.done then Select(buffer, q)
    else if a.torn.Some? && a.torn.value.part == q then TornRows(buffer, a.torn.value, taken)
    else []
  }

  /** What is accepted of a buffer: the groups written in full, and what a failed write has taken in. */
  ghost function AcceptedAll(buffer: seq<Update>, a: Appending, taken: nat -> nat): seq<Update> {
    SelectIn(buffer, a.done) +
    if a.torn.Some? && a.torn.value.part !in a.done then TornRows(buffer, a.torn.value, taken) else []
  }

  lemma AcceptsNothing(buffer: seq<Update>, taken: nat -> nat, q: Partition)
    ensures Accepted(buffer, Appending(true, {}, None, 0), taken, q) == []
  {
  }

  lemma AcceptsAll(buffer: seq<Update>, a: Appending, taken: nat -> nat)
    requires a.torn.None? && forall i :: 0 <= i < |buffer| ==> PartitionOf(buffer[i]) in a.done
    ensures AcceptedAll(buffer, a, taken) == buffer
  {
    SelectInAll(buffer, a.done);
  }

  /** Only what was written matters. */
  lemma AcceptsSame(buffer: seq<Update>, a: Appending, b: Appending, taken: nat -> nat, q: Partition)
    requires a.done == b.done && a.torn == b.torn
    ensures Accepted(buffer, a, taken, q) == Accepted(buffer, b, taken, q)
  {
  }

  /** What is accepted of one more group comes on top of what was accepted before. */
  lemma AcceptsMore(
    buffer: seq<Update>, first: Appending, done: set<Partition>, p: Partition, taken: nat -> nat, q: Partition)
    requires p !in done && first.done <= {p} && (first.torn.Some? ==> first.torn.value.part == p)
    ensures Accepted(buffer, Resumed(first, done), taken, q) ==
            Accepted(buffer, Appending(true, done, None, 0), taken, q) + Accepted(buffer, first, taken, q)
  {
  }

  /** Of each group a prefix is accepted: all of it when it was written, what the failed write took, or nothing. */
  lemma AcceptedIsPrefix(buffer: seq<Update>, a: Appending, taken: nat -> nat, q: Partition)
    ensures var all := Select(buffer, q);
            var some := Accepted(buffer, a, taken, q);
            && some <= all
            && (q in a.done ==> |some| == |all|)
            && (q !in a.done && a.torn.Some? && a.torn.value.part == q ==>
                 |some| == |all| || |some| == taken(a.torn.value.call) < |all|)
            && (q !in a.done && (a.torn.None? || a.torn.value.part != q) ==> some == [])
            && (q !in a.done && a.torn.Some? && a.torn.value.part == q && |some| == |all| ==>
                 taken(a.torn.value.call) >= |all|)
  {
  }

  lemma AcceptedBelong(buffer: seq<Update>, a: Appending, taken: nat -> nat, q: Partition)
    ensures Select(AcceptedAll(buffer, a, taken), q) == Accepted(buffer, a, taken, q)
  {
    var rest := if a.torn.Some? && a.torn.value.part !in a.done then TornRows(buffer, a.torn.value, taken) else [];
    SelectJoins(SelectIn(buffer, a.done), rest, q);
    SelectOfSelectIn(buffer, a.done, q);
    if rest != [] {
      SelectBelongs(buffer, a.torn.value.part);
      if q == a.torn.value.part { SelectAll(rest, q); } else { SelectNone(rest, q); }
    }
  }

  class HourlyArchiveWriter {
    const maxIdleSecs: nat
    /** The answers of the file system to the calls made, by number, and how many rows a write that fails takes in. */
    const io: Answers
    const taken: nat -> nat
    var calls: nat
    var open: Writers
    /** The file system: every path that exists, and the files this writer created, in order. */
    var existing: set<Path>
    var files: seq<ArchiveFile>
    /** Every accepted update, in arrival order. */
    ghost var log: seq<Update>
    /** The files that were completed, those given up unfinished, and those on which a write has failed. */
    ghost var finished: set<nat>
    ghost var lost: set<nat>
    ghost var damaged: set<nat>

    ghost predicate Sound()
      reads this
    {
      StateSound(files, existing, damaged, open, finished, lost)
    }

    ghost function Here(): Books
      reads this
    {
      Books(open, finished, lost)
    }

    ghost predicate Valid()
      reads this
    {
      Sound() && forall p :: RowsOf(files, p) == Select(log, p)
    }

    constructor (maxIdleSecs: nat, existing: set<Path>, io: Answers, taken: nat -> nat)
      ensures Valid() && log == [] && files == [] && open == map[] && this.existing == existing
      ensures this.maxIdleSecs == maxIdleSecs && finished == lost == damaged == {}
      ensures this.io == io && this.taken == taken && calls == 0
    {
      this.maxIdleSecs, this.io, this.taken, calls := maxIdleSecs, io, taken, 0;
      this.existing := existing;
      open, files, log := map[], [], [];
      finished, lost, damaged := {}, {}, {};
    }

    /** An I/O call. */
    method Attempt() returns (ok: bool)
      modifies this`calls
      ensures ok == io(old(calls)) && calls == old(calls) + 1
    {
      ok := io(calls);
      calls := calls + 1;
    }

    /** Makes sure partition `p` has a writer, creating a new file if needed. */
    method OpenPartitionWriter(p: Partition, now: nat) returns (ok: bool)
      requires Sound()
      modifies this`open, this`existing, this`files, this`calls
      ensures Opening(ok, calls) == OpeningOf(io, old(calls), p in old(open))
      ensures Sound() && forall q :: RowsOf(files, q) == old(RowsOf(files, q))
      ensures open - {p} == old(open) - {p} && open.Keys == old(open).Keys + if ok then {p} else {}
      ensures p in old(open) || !ok ==> open == old(open) && files == old(files)
      ensures p !in old(open) && ok ==>
                && |files| == |old(files)| + 1 && files[|old(files)|] == ArchiveFile(open[p].path, p, [])
                && open[p] == OpenWriter(open[p].path, |old(files)|, 0, now, now)
                && FirstFree(old(existing), p, open[p].path)
      ensures old(existing) <= existing && old(files) <= files
    {
      hide RowsOf, StateSound, FilePath;
      if p in open {
        assert open.Keys == open.Keys + {p};
        return true;
      }
      var part := FindFreePart(existing, p);
      var path := FilePath(p, part);
      assert FirstFree(existing, p, path) && Placed(path, p);
      ok := Attempt();
      if !ok {
        return;
      }
      ok := Attempt();
      if !ok {
        // the file was created, but no writer could be set up on it
        MorePathsSound(files, existing, damaged, open, finished, lost, path);
        existing := existing + {path};
      } else {
        var file := ArchiveFile(path, p, []);
        OpenKeepsStateSound(files, existing, damaged, open, finished, lost, p, path, now);
        forall q ensures RowsOf(files + [file], q) == RowsOf(files, q) { OpenAddsNothing(files, file, q); }
        open := open[p := OpenWriter(path, |files|, 0, now, now)];
        existing := existing + {path};
        files := files + [file];
      }
    }

    /**
      Appends one batch to the writer of `p`. A write that fails may have taken in part of
      the batch, and leaves the total as it was. The call also fails when the rows are
      written but the size of the file cannot be read afterwards.
     */
    method AppendRows(p: Partition, updates: seq<Update>, now: nat) returns (ok: bool)
      requires Sound() && p in open && forall i :: 0 <= i < |updates| ==> PartitionOf(updates[i]) == p
      modifies this`open, this`files, this`damaged, this`calls
      ensures Sound() && |files| == |old(files)| && open.Keys == old(open).Keys && open - {p} == old(open) - {p}
      ensures var c, w := old(calls), old(open)[p];
              if io(c) then
                && ok == io(c + 1) && calls == c + 2 && damaged == old(damaged)
                && open[p] == w.(totalRows := w.totalRows + |updates|, lastAppendSecs := now)
              else
                !ok && calls == c + 1 && damaged == old(damaged) + {w.file} && open == old(open)
      ensures var c := old(calls);
              var more := if io(c) then updates else Front(updates, taken(c));
              forall q :: RowsOf(files, q) == old(RowsOf(files, q)) + if q == p then more else []
    {
      hide StateSound, RowsOf, PartitionOf, IsNewest, Write;
      var w := open[p];
      var c := calls;
      ok := Attempt();
      var more := if ok then updates else Front(updates, taken(c));
      var w' := if ok then w.(totalRows := w.totalRows + |updates|, lastAppendSecs := now) else w;
      ghost var damaged' := if ok then damaged else damaged + {w.file};
      WriteKeepsStateSound(files, existing, damaged, damaged', open, finished, lost, p, more, w');
      files := Write(files, w.file, more);
      damaged := damaged';
      if ok {
        open := open[p := w'];
        ok := Attempt();
      } else {
        assert open[p := w'] == open;
      }
    }

    /** Groups a buffer by partition. */
    static method GroupByPartition(buffer: seq<Update>)
      returns (grouped: map<Partition, seq<Update>>, maxHourStart: int)
      requires forall i :: 0 <= i < |buffer| ==> IsTimestamp(buffer[i].timestampNs)
      ensures forall p :: p in grouped ==> grouped[p] == Select(buffer, p) && Occurs(buffer, p)
      ensures forall i :: 0 <= i < |buffer| ==>
                PartitionOf(buffer[i]) in grouped && PartitionOf(buffer[i]).hourStartNs <= maxHourStart
      ensures buffer == [] ==> maxHourStart == MIN_I64
      ensures buffer != [] ==> exists i :: 0 <= i < |buffer| && PartitionOf(buffer[i]).hourStartNs == maxHourStart
    {
      hide Select, PartitionOf;
      grouped, maxHourStart := map[], MIN_I64;
      for n := 0 to |buffer|
        invariant forall p :: p in grouped ==> grouped[p] == Select(buffer[..n], p) && Occurs(buffer, p)
        invariant forall i :: 0 <= i < n ==>
                    PartitionOf(buffer[i]) in grouped && PartitionOf(buffer[i]).hourStartNs <= maxHourStart
        invariant n == 0 ==> maxHourStart == MIN_I64
        invariant n > 0 ==> exists i :: 0 <= i < n && PartitionOf(buffer[i]).hourStartNs == maxHourStart
      {
        var u := buffer[n];
        var p := PartitionOf(u);
        forall q ensures Select(buffer[..n + 1], q) == Select(buffer[..n], q) + if p == q then [u] else [] {
          SelectExtends(buffer, n, q);
        }
        InI64(u);
        if p !in grouped { SelectNone(buffer[..n], p); }
        var group := if p in grouped then grouped[p] else [];
        grouped := grouped[p := group + [u]];
        maxHourStart := if maxHourStart < p.hourStartNs then p.hourStartNs else maxHourStart;
      }
      assert buffer[..|buffer|] == buffer;
    }

    /**
      Appends a buffer: every update goes to the newest file of its target and hour, group
      by group in `order`; then the writers of earlier hours are closed in `closing` order.
     */
    method Append(buffer: seq<Update>, now: nat)
      returns (r: Result<seq<CloseStats>>, ghost order: seq<Partition>, ghost closing: seq<Partition>)
      requires Valid() && forall i :: 0 <= i < |buffer| ==> IsTimestamp(buffer[i].timestampNs)
      modifies this
      ensures Valid() && Distinct(order) && (forall p :: p in order <==> Occurs(buffer, p))
      ensures Ends(io, old(calls), calls, r.Ok?)
      ensures var a := AppendingOf(io, old(calls), order, old(open).Keys);
              && log == old(log) + AcceptedAll(buffer, a, taken)
              && (a.ok ==> log == old(log) + buffer && damaged == old(damaged))
              && (a.ok ==>
                   var k := ClosingOf(io, a.calls, closing);
                   && r.Ok? == k.ok && calls == k.calls && |k.broken| <= 1
                   && Belong(files, finished - old(finished), k.finished) && Belong(files, lost - old(lost), k.broken))
              && (!a.ok ==> r.Err? && calls == a.calls && finished == old(finished) && lost == old(lost))
      ensures r.Ok? ==> lost == old(lost) && open.Keys == old(open).Keys + SetOf(order) - SetOf(closing)
      ensures buffer != [] ==> forall p :: p in closing ==> OlderThanSome(buffer, p)
      ensures buffer == [] ==> forall p :: p in closing ==> p.hourStartNs < MIN_I64
      ensures r.Ok? ==>
                forall p, i :: p in open && 0 <= i < |buffer| ==> PartitionOf(buffer[i]).hourStartNs <= p.hourStartNs
    {
      hide RowsOf, Select, StateSound, AppendingOf, ClosingOf, Ends;
      hide PartitionOf, Belong, AcceptedAll, Accepted, ClosedFrom;
      var grouped, maxHourStart := GroupByPartition(buffer);
      var keys := Listing(grouped.Keys);
      order, closing := keys, [];
      ghost var a := AppendingOf(io, calls, order, open.Keys);
      AppendingEndsWell(io, calls, order, open.Keys);
      AppendingWrites(io, calls, order, open.Keys);
      var ok := AppendGroups(grouped, keys, buffer, now);
      Accept(buffer, a, old(files), old(log));
      log := log + AcceptedAll(buffer, a, taken);
      if !ok {
        r := Err;
        return;
      }
      AcceptsAll(buffer, a, taken);
      ghost var here := Here();
      r, closing := CloseHoursBefore(maxHourStart);
      EndedBelong(files, existing, damaged, here, Here(), closing, io, a.calls, calls, r.Ok?);
      EndsWithBoth(io, old(calls), a.calls, calls, r.Ok?);
    }

    /** Appends one group to the writer of its partition, which is opened if needed. */
    method AppendGroup(p: Partition, group: seq<Update>, ghost buffer: seq<Update>, now: nat) returns (ok: bool)
      requires Sound() && group == Select(buffer, p)
      modifies this`open, this`existing, this`files, this`damaged, this`calls
      ensures var a := AppendingOf(io, old(calls), [p], old(open).Keys);
              && Sound() && ok == a.ok && calls == a.calls && (a.torn.None? ==> damaged == old(damaged))
              && (ok ==> open.Keys == old(open).Keys + {p})
              && (forall q :: RowsOf(files, q) == old(RowsOf(files, q)) + Accepted(buffer, a, taken, q))
    {
      hide RowsOf, Select, StateSound, AppendingOf;
      AppendingStep(io, calls, [p], open.Keys);
      AppendingNothing(io, open.Keys);
      assert [p][0] == p && [p][1..] == [];
      ok := OpenPartitionWriter(p, now);
      if ok {
        SelectBelongs(buffer, p);
        ok := AppendRows(p, group, now);
      }
    }

    /** Appends each group to the writer of its partition, until an I/O call fails. */
    method AppendGroups(
      grouped: map<Partition, seq<Update>>, order: seq<Partition>, buffer: seq<Update>, now: nat) returns (ok: bool)
      requires Sound() && forall p :: p in grouped ==> grouped[p] == Select(buffer, p)
      requires Distinct(order) && forall p :: p in order ==> p in grouped
      modifies this`open, this`existing, this`files, this`damaged, this`calls
      ensures var a := AppendingOf(io, old(calls), order, old(open).Keys);
              && Sound() && ok == a.ok && calls == a.calls && (a.torn.None? ==> damaged == old(damaged))
              && (ok ==> open.Keys == old(open).Keys + SetOf(order))
              && (forall q :: RowsOf(files, q) == old(RowsOf(files, q)) + Accepted(buffer, a, taken, q))
    {
      hide RowsOf, Select, StateSound, AppendingOf, Accepted, SetOf, Distinct, OpeningOf;
      ghost var a, open0 := AppendingOf(io, calls, order, open.Keys), open.Keys;
      ghost var done: set<Partition> := {};
      ok := true;
      WholePrefix(order);
      AppendingNothing(io, open0);
      forall q ensures Accepted(buffer, Appending(true, {}, None, 0), taken, q) == [] {
        AcceptsNothing(buffer, taken, q);
      }
      for i := 0 to |order|
        invariant Sound() && ok && damaged == old(damaged) && done == SetOf(order[..i]) && open.Keys == open0 + done
        invariant a == Resumed(AppendingOf(io, calls, order[i..], open0), done)
        invariant forall q :: RowsOf(files, q) ==
                    old(RowsOf(files, q)) + Accepted(buffer, Appending(true, done, None, 0), taken, q)
      {
        var p := order[i];
        PrefixStep(order, i);
        AppendingCons(io, calls, order[i..], open0);
        AppendingFrame(io, calls, [p], open0, open.Keys);
        ghost var first := AppendingOf(io, calls, [p], open0);
        forall q ensures Accepted(buffer, Resumed(first, done), taken, q) ==
                         Accepted(buffer, Appending(true, done, None, 0), taken, q) + Accepted(buffer, first, taken, q)
        {
          AcceptsMore(buffer, first, done, p, taken, q);
        }
        ok := AppendGroup(p, grouped[p], buffer, now);
        if !ok {
          return;
        }
        done := done + {p};
        forall q ensures Accepted(buffer, Appending(true, done, None, 0), taken, q) ==
                         Accepted(buffer, Resumed(first, done - {p}), taken, q)
        {
          AcceptsSame(buffer, Appending(true, done, None, 0), Resumed(first, done - {p}), taken, q);
        }
      }
      forall q ensures Accepted(buffer, Appending(true, done, None, 0), taken, q) == Accepted(buffer, a, taken, q) {
        AcceptsSame(buffer, Appending(true, done, None, 0), a, taken, q);
      }
    }

    /** The rows added are the accepted updates. */
    lemma Accept(buffer: seq<Update>, a: Appending, files0: seq<ArchiveFile>, log0: seq<Update>)
      requires forall q :: RowsOf(files0, q) == Select(log0, q)
      requires forall q :: RowsOf(files, q) == RowsOf(files0, q) + Accepted(buffer, a, taken, q)
      ensures forall q :: RowsOf(files, q) == Select(log0 + AcceptedAll(buffer, a, taken), q)
    {
      forall q ensures RowsOf(files, q) == Select(log0 + AcceptedAll(buffer, a, taken), q) {
        SelectJoins(log0, AcceptedAll(buffer, a, taken), q);
        AcceptedBelong(buffer, a, taken, q);
      }
    }

    /**
      Takes the writer of `p` out of use and finishes its file. The call also fails when
      the file is finished but its size cannot be read afterwards.
     */
    method CloseOne(p: Partition) returns (ok: bool, stats: CloseStats)
      requires Sound() && p in open
      modifies this`open, this`finished, this`lost, this`calls
      ensures Sound() && open == old(open) - {p}
      ensures old(open)[p].file !in damaged ==> Reports([stats], files, old(open)[p])
      ensures var c, file := old(calls), {old(open)[p].file};
              && ok == (io(c) && io(c + 1)) && calls == (if io(c) then c + 2 else c + 1)
              && finished == old(finished) + (if io(c) then file else {})
              && lost == old(lost) + (if io(c) then {} else file)
    {
      hide StateSound;
      var w := open[p];
      stats := CloseStats(w.path, w.totalRows);
      ReportsTotal(files, existing, damaged, open, finished, lost, p);
      CloseKeepsSound(files, existing, damaged, open, finished, lost, p, io(calls));
      open := open - {p};
      ok := Attempt();
      if ok {
        finished := finished + {w.file};
        ok := Attempt();
      } else {
        lost := lost + {w.file};
      }
    }

    /**
      Closes the writers of `order` one by one, until a close fails. The file of that one
      may be lost; the writers after it stay open. No row is touched.
     */
    method CloseWriters(order: seq<Partition>) returns (r: Result<seq<CloseStats>>)
      requires Sound() && Distinct(order) && forall p :: p in order ==> p in open
      modifies this`open, this`finished, this`lost, this`calls
      ensures var k := ClosingOf(io, old(calls), order);
              && Sound() && r.Ok? == k.ok && calls == k.calls && EndedFrom(old(Here()), Here(), k.finished, k.broken)
              && (r.Ok? ==> |r.value| == |order| && ReportsAll(r.value, files, damaged, old(open), k.finished))
    {
      hide StateSound, EndedFrom, Reports, ReportsAll, Underway, SetOf, Distinct;
      var stats: seq<CloseStats> := [];
      ghost var c, before := calls, Here();
      ghost var closed: set<Partition> := {};
      Starts(before, files, damaged);
      WholePrefix(order);
      for i := 0 to |order|
        invariant Sound() && closed == SetOf(order[..i]) && calls == c + 2 * i && |stats| == i
        invariant forall j :: 0 <= j < i ==> Clean(io, c, j)
        invariant Underway(before, Here(), closed, stats, files, damaged)
      {
        var p := order[i];
        PrefixStep(order, i);
        ghost var now := Here();
        StillOpen(before, now, closed, stats, files, damaged, p);
        var ok, one := CloseOne(p);
        Proceeds(before, now, closed, stats, files, damaged, p, one, io(c + 2 * i));
        if !ok {
          assert !Clean(io, c, i);
          r := Err;
          return;
        }
        assert Clean(io, c, i);
        closed := closed + {p};
        stats := stats + [one];
      }
      UnderwayFacts(before, Here(), closed, stats, files, damaged);
      r := Ok(stats);
    }

    /** Closes exactly the writers of earlier hours. */
    method CloseHoursBefore(hourStartNs: int) returns (r: Result<seq<CloseStats>>, ghost order: seq<Partition>)
      requires Valid()
      modifies this`open, this`finished, this`lost, this`calls
      ensures Distinct(order) && forall p :: p in order <==> p in old(open) && p.hourStartNs < hourStartNs
      ensures Valid() && ClosedFrom(io, old(calls), order, old(Here()), Here(), calls, r.Ok?)
      ensures r.Ok? ==> open == old(open) - SetOf(order) && forall p :: p in open ==> p.hourStartNs >= hourStartNs
    {
      hide RowsOf, Select, StateSound, ClosingOf;
      var stale := Listing(set p | p in open && p.hourStartNs < hourStartNs);
      order := stale;
      r := CloseWriters(stale);
      ClosedFacts(io, old(calls), order, old(Here()), Here());
    }

    /** Closes exactly the writers that have been idle for `maxIdleSecs`. */
    method CloseIdle(now: nat) returns (r: Result<seq<CloseStats>>, ghost order: seq<Partition>)
      requires Valid()
      modifies this`open, this`finished, this`lost, this`calls
      ensures Distinct(order)
      ensures forall p :: p in order <==>
                p in old(open) && (maxIdleSecs == 0 || old(open)[p].lastAppendSecs + maxIdleSecs <= now)
      ensures Valid() && ClosedFrom(io, old(calls), order, old(Here()), Here(), calls, r.Ok?)
      ensures r.Ok? ==> forall p :: p in open ==> maxIdleSecs > 0 && now < open[p].lastAppendSecs + maxIdleSecs
    {
      hide RowsOf, Select, StateSound, ClosingOf;
      var stale := Listing(set p | p in open && SaturatingSub(now, open[p].lastAppendSecs) >= maxIdleSecs);
      order := stale;
      r := CloseWriters(stale);
      ClosedFacts(io, old(calls), order, old(Here()), Here());
    }

    /** Closes exactly the writers that have been open for `maxAgeSecs`. */
    method CloseAged(maxAgeSecs: nat, now: nat) returns (r: Result<seq<CloseStats>>, ghost order: seq<Partition>)
      requires Valid()
      modifies this`open, this`finished, this`lost, this`calls
      ensures Distinct(order)
      ensures forall p :: p in order <==>
                p in old(open) && (maxAgeSecs == 0 || old(open)[p].openTimeSecs + maxAgeSecs <= now)
      ensures Valid() && ClosedFrom(io, old(calls), order, old(Here()), Here(), calls, r.Ok?)
      ensures r.Ok? ==> forall p :: p in open ==> maxAgeSecs > 0 && now < open[p].openTimeSecs + maxAgeSecs
    {
      hide RowsOf, Select, StateSound, ClosingOf;
      var stale := Listing(set p | p in open && SaturatingSub(now, open[p].openTimeSecs) >= maxAgeSecs);
      order := stale;
      r := CloseWriters(stale);
      ClosedFacts(io, old(calls), order, old(Here()), Here());
    }

    /**
      Takes every writer out of use and closes them in `order`. After a close that fails
      the remaining writers are dropped without being closed: their files are lost, with
      that of the failed one if it broke, however healthy they are.
     */
    method CloseAll() returns (r: Result<seq<CloseStats>>, ghost order: seq<Partition>)
      requires Valid()
      modifies this`open, this`finished, this`lost, this`calls
      ensures Distinct(order) && forall p :: p in order <==> p in old(open)
      ensures var k := ClosingOf(io, old(calls), order);
              && Valid() && r.Ok? == k.ok && calls == k.calls && Ends(io, old(calls), calls, r.Ok?)
              && open == map[] && EndedFrom(old(Here()), Here(), k.finished, k.broken + k.rest)
              && (r.Ok? ==> |r.value| == |old(open)|)
    {
      hide StateSound, RowsOf, Select, EndedFrom, ClosingOf, SetOf, Distinct, Ends, FilesAt, ReportsAll;
      var all := Listing(open.Keys);
      order := all;
      r := CloseWriters(all);
      DropKeepsSound(files, existing, damaged, open, finished, lost);
      DroppedFacts(io, old(calls), order, old(Here()), Here());
      lost := lost + FilesAt(open, open.Keys);
      open := map[];
    }

    /**
      Rows never mix: two rows of one file have one target and fall in one hour since the
      epoch, and the file lies in the directory of their day.
     */
    lemma FilesNeverMix(i: nat, j: nat, r: nat, q: nat)
      requires Valid() && i < |files| && j < |files| && r < |files[i].rows| && q < |files[i].rows|
      ensures files[i].rows[r].target == files[i].rows[q].target == files[i].partition.target
      ensures files[i].rows[r].timestampNs / 3_600_000_000_000 == files[i].rows[q].timestampNs / 3_600_000_000_000
      ensures files[i].path.day == files[i].rows[r].timestampNs / 86_400_000_000_000
      ensures i != j ==> files[i].path != files[j].path
    {
      assert Unmixed(files[i]) && Placed(files[i].path, files[i].partition);
      PartitionIdentifies(files[i].rows[r], files[i].rows[q]);
      var part: nat :| files[i].path == FilePath(files[i].partition, part);
      FilePathOfUpdate(files[i].rows[r], part);
    }

    /**
      What the finished files of a partition hold, in creation order, is exactly its
      accepted updates in arrival order, if and only if every file of it that is still
      open or lost is empty.
     */
    lemma FinishedFilesHoldAll(p: Partition)
      requires Valid()
      ensures Readable(files, finished, p) == Select(log, p) <==>
              forall i :: 0 <= i < |files| && files[i].partition == p && (i in lost || IsOpenFile(files, open, i)) ==>
                files[i].rows == []
    {
      ReadableIffFinished(files, finished, p);
    }
  }

  ghost predicate StateSound(
    files: seq<ArchiveFile>, existing: set<Path>, damaged: set<nat>, open: Writers, finished: set<nat>, lost: set<nat>)
  {
    && FilesSound(files, existing) && WritersSound(files, damaged, open)
    && Settled(files, open, finished, lost) && (forall i :: i in damaged ==> i < |files|)
  }

  /** The statistics hold the writer's path with the true number of rows of its file. */
  ghost predicate Reports(stats: seq<CloseStats>, files: seq<ArchiveFile>, w: OpenWriter) {
    w.file < |files| && CloseStats(w.path, |files[w.file].rows|) in stats
  }

  lemma ReportsTotal(
    files: seq<ArchiveFile>, existing: set<Path>, damaged: set<nat>, open: Writers, finished: set<nat>, lost: set<nat>,
    p: Partition)
    requires StateSound(files, existing, damaged, open, finished, lost) && p in open
    ensures open[p].file !in damaged ==> Reports([CloseStats(open[p].path, open[p].totalRows)], files, open[p])
  {
    assert WriterSound(files, damaged, p, open[p]);
  }

  /** The statistics report the writers of `ps`, but for those of damaged files. */
  ghost predicate ReportsAll(
    stats: seq<CloseStats>, files: seq<ArchiveFile>, damaged: set<nat>, open: Writers, ps: set<Partition>)
  {
    forall p :: p in ps && p in open && open[p].file !in damaged ==> Reports(stats, files, open[p])
  }

  lemma ReportsMore(
    stats: seq<CloseStats>, one: CloseStats, files: seq<ArchiveFile>, damaged: set<nat>, open: Writers,
    ps: set<Partition>, p: Partition)
    requires ReportsAll(stats, files, damaged, open, ps) && p in open
    requires open[p].file !in damaged ==> Reports([one], files, open[p])
    ensures ReportsAll(stats + [one], files, damaged, open, ps + {p})
  {
    assert forall x :: x in stats || x in [one] ==> x in stats + [one];
  }

  /** The writers in use, and the files that were finished and lost. */
  datatype Books = Books(open: Writers, finished: set<nat>, lost: set<nat>)

  /** From `a` to `b` the writers in `closed` were finished and those in `failed` lost, and nothing else happened. */
  ghost predicate EndedFrom(a: Books, b: Books, closed: set<Partition>, failed: set<Partition>) {
    && closed !! failed && closed + failed <= a.open.Keys && b.open == a.open - (closed + failed)
    && b.finished == a.finished + FilesAt(a.open, closed) && b.lost == a.lost + FilesAt(a.open, failed)
  }

  /**
    The writers of `order` were closed as the answers of the file system have it: those
    finished and at most one broken are gone, those not reached stay open.
   */
  ghost predicate ClosedFrom(io: Answers, c: nat, order: seq<Partition>, a: Books, b: Books, calls: nat, ok: bool) {
    var k := ClosingOf(io, c, order);
    && ok == k.ok && calls == k.calls && EndedFrom(a, b, k.finished, k.broken)
    && Ends(io, c, calls, ok) && |k.broken| <= 1 && (ok ==> b.lost == a.lost)
  }

  /** The files with numbers in `ns` are of partitions in `ps`. */
  ghost predicate Belong(files: seq<ArchiveFile>, ns: set<nat>, ps: set<Partition>) {
    forall i :: i in ns ==> i < |files| && files[i].partition in ps
  }

  /** What closing finishes and loses are files of the writers it finished and broke. */
  lemma EndedBelong(
    files: seq<ArchiveFile>, existing: set<Path>, damaged: set<nat>, a: Books, b: Books,
    order: seq<Partition>, io: Answers, c: nat, calls: nat, ok: bool)
    requires StateSound(files, existing, damaged, a.open, a.finished, a.lost)
    requires ClosedFrom(io, c, order, a, b, calls, ok)
    ensures var k := ClosingOf(io, c, order);
            && Belong(files, b.finished - a.finished, k.finished) && Belong(files, b.lost - a.lost, k.broken)
            && ok == k.ok && calls == k.calls && |k.broken| <= 1 && Ends(io, c, calls, ok) && (ok ==> b.lost == a.lost)
  {
    hide ClosingOf, FilesSound, Settled;
    forall p | p in a.open ensures a.open[p].file < |files| && files[a.open[p].file].partition == p {
      assert WriterSound(files, damaged, p, a.open[p]);
    }
  }

  lemma ClosedFacts(io: Answers, c: nat, order: seq<Partition>, a: Books, b: Books)
    requires var k := ClosingOf(io, c, order); EndedFrom(a, b, k.finished, k.broken)
    requires Distinct(order)
    ensures var k := ClosingOf(io, c, order);
            && ClosedFrom(io, c, order, a, b, k.calls, k.ok)
            && (k.ok ==> b.open == a.open - SetOf(order))
  {
    hide Ends, SetOf, Distinct, ClosingOf;
    assert FilesAt(a.open, {}) == {};
    ClosingEndsWell(io, c, order);
    ClosingSplits(io, c, order);
    ClosingWell(io, c, order);
  }

  /** The writers in `closed` have been finished and reported, and nothing else has happened. */
  ghost predicate Underway(
    a: Books, b: Books, closed: set<Partition>, stats: seq<CloseStats>, files: seq<ArchiveFile>, damaged: set<nat>)
  {
    EndedFrom(a, b, closed, {}) && ReportsAll(stats, files, damaged, a.open, closed)
  }

  lemma Starts(a: Books, files: seq<ArchiveFile>, damaged: set<nat>)
    ensures Underway(a, a, {}, [], files, damaged)
  {
  }

  lemma StillOpen(
    a: Books, b: Books, closed: set<Partition>, stats: seq<CloseStats>, files: seq<ArchiveFile>, damaged: set<nat>,
    p: Partition)
    requires Underway(a, b, closed, stats, files, damaged) && p in a.open && p !in closed
    ensures p in b.open && b.open[p] == a.open[p]
  {
  }

  /** Closing one more writer either proceeds or ends with that one. */
  lemma Proceeds(
    a: Books, b: Books, closed: set<Partition>, stats: seq<CloseStats>, files: seq<ArchiveFile>, damaged: set<nat>,
    p: Partition, one: CloseStats, complete: bool)
    requires Underway(a, b, closed, stats, files, damaged) && p in a.open && p !in closed && p in b.open
    requires b.open[p].file !in damaged ==> Reports([one], files, b.open[p])
    ensures var file := {b.open[p].file};
            var done, gone := if complete then file else {}, if complete then {} else file;
            var b' := Books(b.open - {p}, b.finished + done, b.lost + gone);
            && (complete ==> Underway(a, b', closed + {p}, stats + [one], files, damaged))
            && EndedFrom(a, b', if complete then closed + {p} else closed, if complete then {} else {p})
  {
    StillOpen(a, b, closed, stats, files, damaged, p);
    hide Reports, EndedFrom, ReportsAll, FilesAt;
    EndedExtends(a, b, closed, p, complete);
    ReportsMore(stats, one, files, damaged, a.open, closed, p);
  }

  lemma UnderwayFacts(
    a: Books, b: Books, closed: set<Partition>, stats: seq<CloseStats>, files: seq<ArchiveFile>, damaged: set<nat>)
    requires Underway(a, b, closed, stats, files, damaged)
    ensures EndedFrom(a, b, closed, {}) && ReportsAll(stats, files, damaged, a.open, closed)
  {
  }

  lemma EndedExtends(a: Books, b: Books, closed: set<Partition>, p: Partition, complete: bool)
    requires EndedFrom(a, b, closed, {}) && p in b.open
    ensures var file := {b.open[p].file};
            var done, gone := if complete then file else {}, if complete then {} else file;
            var b' := Books(b.open - {p}, b.finished + done, b.lost + gone);
            EndedFrom(a, b', if complete then closed + {p} else closed, if complete then {} else {p})
  {
    assert FilesAt(a.open, closed + {p}) == FilesAt(a.open, closed) + {a.open[p].file};
    assert FilesAt(a.open, {p}) == {a.open[p].file} && FilesAt(a.open, {}) == {};
    assert b.open - {p} == a.open - (closed + {p});
  }

  /** Dropping the writers that were not reached. */
  lemma DroppedFacts(io: Answers, c: nat, order: seq<Partition>, a: Books, b: Books)
    requires var k := ClosingOf(io, c, order); EndedFrom(a, b, k.finished, k.broken)
    requires Distinct(order) && forall p :: p in order <==> p in a.open
    ensures var k := ClosingOf(io, c, order);
            && EndedFrom(
                 a, Books(map[], b.finished, b.lost + FilesAt(b.open, b.open.Keys)), k.finished, k.broken + k.rest)
            && Ends(io, c, k.calls, k.ok)
  {
    assert SetOf(order) == a.open.Keys;
    hide EndedFrom, ClosingOf, SetOf, Distinct, Ends, FilesAt;
    var k := ClosingOf(io, c, order);
    ClosingEndsWell(io, c, order);
    ClosingSplits(io, c, order);
    EndedByDropping(a, b, k.finished, k.broken, k.rest);
  }

  lemma EndedByDropping(a: Books, b: Books, closed: set<Partition>, failed: set<Partition>, rest: set<Partition>)
    requires EndedFrom(a, b, closed, failed) && closed + failed + rest == a.open.Keys && closed + failed !! rest
    ensures EndedFrom(a, Books(map[], b.finished, b.lost + FilesAt(b.open, b.open.Keys)), closed, failed + rest)
  {
    assert b.open.Keys == rest;
    assert FilesAt(a.open, failed + rest) == FilesAt(a.open, failed) + FilesAt(b.open, rest);
    assert a.open - (closed + (failed + rest)) == map[];
  }

  lemma MorePathsSound(
    files: seq<ArchiveFile>, existing: set<Path>, damaged: set<nat>, open: Writers, finished: set<nat>, lost: set<nat>,
    path: Path)
    requires StateSound(files, existing, damaged, open, finished, lost)
    ensures StateSound(files, existing + {path}, damaged, open, finished, lost)
  {
    hide WritersSound, Settled, Unmixed;
  }

  lemma OpenKeepsStateSound(
    files: seq<ArchiveFile>, existing: set<Path>, damaged: set<nat>, open: Writers, finished: set<nat>, lost: set<nat>,
    p: Partition, path: Path, now: nat)
    requires StateSound(files, existing, damaged, open, finished, lost) && p !in open && path !in existing
    requires Placed(path, p)
    ensures var files' := files + [ArchiveFile(path, p, [])];
            var open' := open[p := OpenWriter(path, |files|, 0, now, now)];
            StateSound(files', existing + {path}, damaged, open', finished, lost)
  {
    hide FilesSound, WritersSound;
    var files' := files + [ArchiveFile(path, p, [])];
    var open' := open[p := OpenWriter(path, |files|, 0, now, now)];
    OpenKeepsSound(files, damaged, existing, open, p, path, now);
    forall i | 0 <= i < |files'| && i !in finished && i !in lost ensures IsOpenFile(files', open', i) {
      if i < |files| { assert IsOpenFile(files, open, i); }
    }
  }

  lemma WriteKeepsStateSound(
    files: seq<ArchiveFile>, existing: set<Path>, damaged: set<nat>, damaged': set<nat>, open: Writers,
    finished: set<nat>, lost: set<nat>, p: Partition, more: seq<Update>, w: OpenWriter)
    requires StateSound(files, existing, damaged, open, finished, lost) && p in open
    requires damaged <= damaged' <= damaged + {w.file}
    requires forall i :: 0 <= i < |more| ==> PartitionOf(more[i]) == p
    requires w.file == open[p].file && w.path == open[p].path
    requires w.file in damaged' || w.totalRows == open[p].totalRows + |more|
    ensures w.file < |files|
    ensures var files' := Write(files, w.file, more);
            && |files'| == |files|
            && StateSound(files', existing, damaged', open[p := w], finished, lost)
            && forall q :: RowsOf(files', q) == RowsOf(files, q) + if q == p then more else []
  {
    hide FilesSound, RowsOf;
    assert WriterSound(files, damaged, p, open[p]);
    WriteKeepsSound(files, damaged, damaged', existing, open, p, more, w);
    var files', open' := Write(files, w.file, more), open[p := w];
    forall i | 0 <= i < |files'| && i !in finished && i !in lost ensures IsOpenFile(files', open', i) {
      assert IsOpenFile(files, open, i);
    }
    forall q ensures RowsOf(files', q) == RowsOf(files, q) + if q == p then more else [] {
      WriteAppends(files, w.file, more, q);
    }
  }

  lemma CloseKeepsSound(
    files: seq<ArchiveFile>, existing: set<Path>, damaged: set<nat>, open: Writers, finished: set<nat>, lost: set<nat>,
    p: Partition, complete: bool)
    requires StateSound(files, existing, damaged, open, finished, lost) && p in open
    ensures var f := {open[p].file};
            if complete then StateSound(files, existing, damaged, open - {p}, finished + f, lost)
            else StateSound(files, existing, damaged, open - {p}, finished, lost + f)
  {
    hide FilesSound;
    forall q | q in open ensures open[q].file < |files| && files[open[q].file].partition == q {
      assert WriterSound(files, damaged, q, open[q]);
    }
    forall i | 0 <= i < |files| && i !in finished && i !in lost && i != open[p].file
      ensures IsOpenFile(files, open - {p}, i)
    {
      assert IsOpenFile(files, open, i);
    }
  }

  lemma DropKeepsSound(
    files: seq<ArchiveFile>, existing: set<Path>, damaged: set<nat>, open: Writers, finished: set<nat>, lost: set<nat>)
    requires StateSound(files, existing, damaged, open, finished, lost)
    ensures StateSound(files, existing, damaged, map[], finished, lost + FilesAt(open, open.Keys))
  {
    hide FilesSound;
    var dropped := FilesAt(open, open.Keys);
    forall i | i in dropped ensures i < |files| && i !in finished {
      var q :| q in open && open[q].file == i;
      assert WriterSound(files, damaged, q, open[q]);
    }
    forall i | 0 <= i < |files| && i !in finished && i !in lost ensures i in dropped {
      assert IsOpenFile(files, open, i);
      assert open[files[i].partition].file in dropped;
    }
    assert Settled(files, map[], finished, lost + dropped);
  }
}
