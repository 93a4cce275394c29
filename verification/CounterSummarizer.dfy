/** The bounded-memory counter summarizer, proved against the book of its windows. */
module CounterSummarizers {
  import opened Options
  import opened Sets
  import opened CounterStats
  import opened CounterBook

  /** A telemetry update, as its classification sees it. */
  datatype Update = InterfaceStats(sample: Sample) | Other

  const TWO_32: nat := 0x1_0000_0000

  lemma ListsMore(counters: seq<CounterSummary>, e: CounterSummary)
    ensures Lists(counters + [e], e.name)
    ensures forall name :: Lists(counters, name) ==> Lists(counters + [e], name)
  {
    assert (counters + [e])[|counters|].name == e.name;
    forall name | Lists(counters, name) ensures Lists(counters + [e], name) {
      var i :| 0 <= i < |counters| && counters[i].name == name;
      assert (counters + [e])[i].name == name;
    }
  }

  class CounterSummarizer {
    const windowSecs: nat
    const maxEntries: nat
    var windows: map<string, Window>
    ghost var book: Book
    ghost var at: map<string, nat>
    /** The keys of all interfaces ever observed. */
    ghost var seen: set<string>

    ghost predicate Valid()
      reads this
    {
      Steady() && seen == KeysOf(book.log)
    }

    ghost predicate Steady()
      reads this
    {
      && maxEntries >= 1
      && Consistent(book, at, windows)
      && |windows| <= maxEntries && windows.Keys <= seen
      && (HasEvicted(book) ==> |seen| > maxEntries)
    }

    constructor (windowSecs: nat, maxEntries: nat)
      ensures Valid() && windows == map[] && book == Book([], [], [])
      ensures this.windowSecs == windowSecs && this.maxEntries == (if maxEntries == 0 then 1 else maxEntries)
    {
      this.windowSecs := windowSecs;
      this.maxEntries := if maxEntries == 0 then 1 else maxEntries;
      windows, book, at, seen := map[], Book([], [], []), map[], {};
    }

    /** While at most `maxEntries` interfaces have ever been seen, no sample is ever evicted. */
    lemma FewInterfacesAreNeverEvicted(i: nat)
      requires Valid() && |KeysOf(book.log)| <= maxEntries && i < |book.log|
      ensures book.owner[i] < |book.episodes| && !book.episodes[book.owner[i]].fate.Evicted?
    {
      if book.episodes[book.owner[i]].fate.Evicted? { assert HasEvicted(book); }
    }

    /** Summarises a window: exactly the folds of its samples. */
    method EmitSummary(w: Window, ghost samples: seq<Sample>) returns (s: Summary)
      requires Represents(w, samples)
      ensures Summarizes(s, samples) && s.windowSecs == windowSecs % 0x1_0000_0000
    {
      hide MinOf, MaxOf, SumOf, Values, Delta, Lists;
      var counters: seq<CounterSummary> := [];
      var todo := w.counters.Keys;
      while todo != {}
        invariant todo <= w.counters.Keys
        invariant forall i :: 0 <= i < |counters| ==>
                    counters[i].name in w.counters.Keys - todo && IsFold(counters[i], samples)
        invariant forall i, j :: 0 <= i < j < |counters| ==> counters[i].name != counters[j].name
        invariant forall name :: name in w.counters.Keys - todo ==> Lists(counters, name)
        decreases todo
      {
        var name :| name in todo;
        todo := todo - {name};
        var st := w.counters[name];
        assert st == StatsOf(Values(samples, name));
        if st.count > 0 {
          var e := CounterSummary(name, st.min, st.max, st.sum / st.count as real, Delta(st.first, st.last));
          assert IsFold(e, samples);
          ListsMore(counters, e);
          counters := counters + [e];
        }
      }
      s := Summary(w.target, w.ifName, windowSecs % TWO_32, counters);
      forall name | Values(samples, name) != [] ensures Lists(s.counters, name) { assert name in w.counters; }
    }

    /** The key of a window that was updated least recently. */
    method FindOldest() returns (oldest: string)
      requires windows != map[]
      ensures oldest in windows && forall k :: k in windows ==> windows[oldest].lastUpdate <= windows[k].lastUpdate
    {
      var todo := windows.Keys;
      oldest :| oldest in todo;
      todo := todo - {oldest};
      while todo != {}
        invariant todo <= windows.Keys && oldest in windows
        invariant forall k :: k in windows.Keys - todo ==> windows[oldest].lastUpdate <= windows[k].lastUpdate
        decreases todo
      {
        var k :| k in todo;
        todo := todo - {k};
        if windows[k].lastUpdate < windows[oldest].lastUpdate {
          oldest := k;
        }
      }
    }

    /** Folds the fields of one more sample into the statistics. */
    static method RecordFields(counters: map<string, Stats>, s: Sample, ghost samples: seq<Sample>)
      returns (updated: map<string, Stats>)
      requires HoldsFolds(counters, samples)
      ensures HoldsFolds(updated, samples + [s])
    {
      hide StatsOf, Values, Record;
      updated := counters;
      var todo := s.fields.Keys;
      while todo != {}
        invariant todo <= s.fields.Keys
        invariant forall name :: name in todo || name !in s.fields ==>
                    (name in updated <==> name in counters) && (name in counters ==> updated[name] == counters[name])
        invariant forall name :: name in s.fields.Keys - todo ==>
                    name in updated && updated[name] == StatsOf(Values(samples, name) + [s.fields[name]])
        decreases todo
      {
        var name :| name in todo;
        var v := s.fields[name];
        if name in counters {
          RecordNext(Values(samples, name), v);
        } else {
          RecordFirst(v);
          assert Values(samples, name) + [v] == [v];
        }
        var st := if name in updated then updated[name] else Seed(v);
        updated := updated[name := Record(st, v)];
        todo := todo - {name};
      }
      forall name
        ensures Values(samples + [s], name) ==
                if name in s.fields then Values(samples, name) + [s.fields[name]] else Values(samples, name)
      {
        ValuesExtend(samples, s, name);
      }
    }

    /** Removes the window at `key`, whose episode ends in `fate`. */
    method Retire(key: string, ghost fate: Fate)
      requires Consistent(book, at, windows) && key in windows && !fate.Open?
      requires fate.Emitted? ==> Summarizes(fate.summary, book.episodes[at[key]].samples)
      modifies this`windows, this`book, this`at
      ensures Consistent(book, at, windows) && Extends(old(book), book) && book.log == old(book.log)
      ensures windows == old(windows) - {key} && at == old(at) - {key} && |windows| == |old(windows)| - 1
      ensures old(at)[key] < |book.episodes| && book.episodes[old(at)[key]].fate == fate
      ensures book == Close(old(book), old(at)[key], fate)
      ensures HasEvicted(book) ==> HasEvicted(old(book)) || fate.Evicted?
    {
      hide Sound, Represents, Extends, HasEvicted;
      CloseConsistent(book, at, windows, key, fate);
      assert (windows - {key}).Keys == windows.Keys - {key};
      book, at, windows := Close(book, at[key], fate), at - {key}, windows - {key};
    }

    /** Summarises and removes the window at `key`. */
    method EmitWindow(key: string) returns (s: Summary)
      requires Steady() && key in windows
      modifies this`windows, this`book, this`at
      ensures Steady() && Extends(old(book), book) && book.log == old(book.log)
      ensures windows == old(windows) - {key} && at == old(at) - {key} && key in old(at)
      ensures old(at)[key] < |book.episodes| && book.episodes[old(at)[key]].fate == Emitted(s)
      ensures book == Close(old(book), old(at)[key], Emitted(s)) && s.windowSecs == windowSecs % TWO_32
    {
      hide Consistent, Represents, Summarizes, HasEvicted, Extends, Close;
      WindowFacts(book, at, windows, key);
      s := EmitSummary(windows[key], book.episodes[at[key]].samples);
      Retire(key, Emitted(s));
    }

    /** Closes the window at `key` when the clock has left it. */
    method RollOver(key: string, start: nat) returns (expired: Option<Summary>)
      requires Steady()
      modifies this`windows, this`book, this`at
      ensures Steady() && Extends(old(book), book) && book.log == old(book.log)
      ensures expired.Some? <==> key in old(windows) && old(windows)[key].start != start
      ensures expired.None? ==> windows == old(windows) && book == old(book) && at == old(at)
      ensures forall k :: k in at ==> k in old(at) && at[k] == old(at)[k]
      ensures expired.Some? ==>
                && windows == old(windows) - {key}
                && book == Close(old(book), old(at)[key], Emitted(expired.value))
                && old(at)[key] < |book.episodes| && book.episodes[old(at)[key]].fate == Emitted(expired.value)
      ensures expired.Some? ==> expired.value.windowSecs == windowSecs % TWO_32
    {
      hide Sound, Represents, HoldsFolds, Summarizes, HasEvicted, Extends, Close;
      ExtendsReflexive(book);
      if key in windows && windows[key].start != start {
        var s := EmitWindow(key);
        expired := Some(s);
      } else {
        expired := None;
      }
    }

    /** Evicts a least recently updated window when a new one would not fit. */
    method MakeRoom(key: string) returns (ghost victim: Option<string>)
      requires Steady() && key in seen
      modifies this`windows, this`book, this`at
      ensures Steady() && Extends(old(book), book) && book.log == old(book.log)
      ensures key !in windows ==> |windows| < maxEntries
      ensures victim.Some? <==> key !in old(windows) && |old(windows)| == maxEntries
      ensures victim.None? ==> windows == old(windows) && book == old(book) && at == old(at)
      ensures victim.Some? ==>
                && victim.value in old(windows)
                && (forall k :: k in old(windows) ==>
                     old(windows)[victim.value].lastUpdate <= old(windows)[k].lastUpdate)
                && windows == old(windows) - {victim.value}
                && book == Close(old(book), old(at)[victim.value], Evicted)
                && old(at)[victim.value] < |book.episodes| && book.episodes[old(at)[victim.value]].fate == Evicted
      ensures forall k :: k in at ==> k in old(at) && at[k] == old(at)[k]
    {
      hide Sound, Represents, HoldsFolds, Summarizes, HasEvicted, Extends, Close, Indexes;
      ExtendsReflexive(book);
      victim := None;
      if key !in windows && |windows| >= maxEntries {
        var oldest := FindOldest();
        MoreThan(windows.Keys, key, seen);
        Retire(oldest, Evicted);
        victim := Some(oldest);
      }
    }

    /** Puts a sample into the window at its key, opening it if needed. */
    method Put(s: Sample, start: nat, now: nat)
      requires Steady()
      requires var key := KeyOf(s.target, s.ifName);
               && key in seen
               && (key in windows ==> windows[key].start == start) && (key !in windows ==> |windows| < maxEntries)
      modifies this`windows, this`book, this`at
      ensures Steady() && Extends(old(book), book)
      ensures var key := KeyOf(s.target, s.ifName);
              && key in windows && windows == old(windows)[key := windows[key]]
              && windows[key].start == start && windows[key].lastUpdate == now
              && book.log == old(book.log) + [s]
              && book == if key in old(windows) then Join(old(book), old(at)[key], s) else Begin(old(book), s)
    {
      hide Sound, HasEvicted, KeyOf, Represents, Extends;
      var key := KeyOf(s.target, s.ifName);
      ghost var samples := if key in windows then book.episodes[at[key]].samples else [];
      var w := UpdatedWindow(if key in windows then Some(windows[key]) else None, s, start, now, samples);
      assert (windows[key := w]).Keys == windows.Keys + {key};
      if key in windows {
        JoinConsistent(book, at, windows, s, w);
        book := Join(book, at[key], s);
      } else {
        assert [] + [s] == [s];
        BeginConsistent(book, at, windows, s, w);
        book, at := Begin(book, s), at[key := |book.episodes|];
      }
      windows := windows[key := w];
    }

    /** The window after one more sample; `samples` are those it already holds. */
    static method UpdatedWindow(existing: Option<Window>, s: Sample, start: nat, now: nat, ghost samples: seq<Sample>)
      returns (w: Window)
      requires existing.Some? ==> Represents(existing.value, samples) && existing.value.start == start
      requires existing.None? ==> samples == []
      ensures Represents(w, samples + [s]) && w.start == start && w.lastUpdate == now
    {
      w := if existing.Some? then existing.value else Window(s.target, s.ifName, start, now, map[]);
      var counters := RecordFields(w.counters, s, samples);
      w := w.(lastUpdate := now, counters := counters);
    }

    /**
      Observes an update. A window that the clock has left is summarised and replaced;
      a new interface at capacity evicts a least recently updated window, an interface
      that already has one never does. With a window length of zero the call stops at a
      division by zero, before anything has changed.
     */
    method Observe(u: Update, now: nat) returns (ok: bool, expired: Option<Summary>, ghost victim: Option<string>)
      requires Valid()
      modifies this
      ensures Valid() && Extends(old(book), book)
      ensures ok <==> u.Other? || windowSecs > 0
      ensures !ok || u.Other? ==> expired.None? && victim.None? && windows == old(windows) && book == old(book)
      ensures ok && u.InterfaceStats? ==>
                var key := KeyOf(u.sample.target, u.sample.ifName);
                && book.log == old(book.log) + [u.sample] && key in windows
                && windows[key].start == now / windowSecs * windowSecs && windows[key].lastUpdate == now
                && (expired.Some? <==> key in old(windows) && old(windows)[key].start != windows[key].start)
                && (victim.Some? <==> key !in old(windows) && |old(windows)| == maxEntries)
                && (expired.Some? ==> book.episodes[old(at)[key]].fate == Emitted(expired.value))
                && (victim.Some? ==>
                     && victim.value in old(windows) && book.episodes[old(at)[victim.value]].fate == Evicted
                     && (forall k :: k in old(windows) ==>
                          old(windows)[victim.value].lastUpdate <= old(windows)[k].lastUpdate))
                && (forall k :: k in old(windows) && k != key && victim != Some(k) ==>
                     k in windows && windows[k] == old(windows)[k])
    {
      hide Sound, Represents, HoldsFolds, Summarizes, HasEvicted, Extends, Close, Join, Begin, KeysOf, KeyOf, Indexes;
      ExtendsReflexive(book);
      ok, expired, victim := true, None, None;
      if u.InterfaceStats? {
        if windowSecs == 0 {
          return false, None, None;
        }
        var s := u.sample;
        var key := KeyOf(s.target, s.ifName);
        var start := now / windowSecs * windowSecs;
        SubsetSize(seen, seen + {key});
        seen := seen + {key};
        expired := RollOver(key, start);
        ghost var b1, w1 := book, windows;
        victim := MakeRoom(key);
        ghost var b2, w2 := book, windows;
        Put(s, start, now);
        ExtendsTransitive(b1, b2, book);
        ExtendsTransitive(old(book), b1, book);
        if expired.Some? { ClosedStays(b1, book, old(at)[key]); }
        if victim.Some? { ClosedStays(b2, book, old(at)[victim.value]); }
        KeysOfExtend(old(book).log, s);
        OthersStay(old(windows), w1, w2, key, victim, windows[key]);
      }
    }

    /** Summarises and removes exactly the windows that have been silent for `idleSecs`. */
    method FlushStale(idleSecs: nat, now: nat) returns (summaries: seq<Summary>)
      requires Valid()
      modifies this`windows, this`book, this`at
      ensures Valid() && Extends(old(book), book) && book.log == old(book.log)
      ensures windows == old(windows) - Stale(old(windows), idleSecs, now)
      ensures |summaries| == |Stale(old(windows), idleSecs, now)|
      ensures forall k :: k in Stale(old(windows), idleSecs, now) ==> Reported(book, old(at), k, summaries)
    {
      hide HasEvicted, Extends, Close, Stale, Consistent, Reported, KeysOf, Flushing;
      summaries := [];
      var todo := Stale(windows, idleSecs, now);
      ghost var stale, done: set<string> := todo, {};
      ghost var before := State(windows, at, book);
      FlushStarts(before, idleSecs, now);
      while todo != {}
        invariant Valid() && Flushing(before, State(windows, at, book), stale, todo, done, summaries)
        decreases todo
      {
        var k :| k in todo;
        ghost var here := State(windows, at, book);
        StillHeld(before, here, stale, todo, done, summaries, k);
        var s := EmitWindow(k);
        FlushProceeds(before, here, State(windows, at, book), stale, todo, done, summaries, k, s);
        todo, done := todo - {k}, done + {k};
        summaries := summaries + [s];
      }
      FlushCompletes(before, State(windows, at, book), stale, done, summaries);
    }
  }

  /** The keys of all interfaces in a run of samples. */
  ghost function KeysOf(log: seq<Sample>): set<string> {
    set s | s in log :: KeyOf(s.target, s.ifName)
  }

  lemma KeysOfExtend(log: seq<Sample>, s: Sample)
    ensures KeysOf(log + [s]) == KeysOf(log) + {KeyOf(s.target, s.ifName)}
  {
    assert forall x :: x in log + [s] <==> x in log || x == s;
  }

  function Stale(windows: map<string, Window>, idleSecs: nat, now: nat): set<string> {
    set k | k in windows && (if now < windows[k].lastUpdate then 0 else now - windows[k].lastUpdate) >= idleSecs
  }

  /** A window is stale once it has been silent for `idleSecs`; with no idle time every one is, whatever the clock. */
  lemma StaleIff(windows: map<string, Window>, idleSecs: nat, now: nat, k: string)
    ensures k in Stale(windows, idleSecs, now) <==>
            k in windows && (idleSecs == 0 || windows[k].lastUpdate + idleSecs <= now)
  {
  }

  /** The episode that `at` has for `k` was summarised, and its summary is among `summaries`. */
  ghost predicate Reported(b: Book, at: map<string, nat>, k: string, summaries: seq<Summary>) {
    && k in at && at[k] < |b.episodes| && b.episodes[at[k]].fate.Emitted?
    && b.episodes[at[k]].fate.summary in summaries
  }

  lemma StillReported(
    b: Book, b': Book, at: map<string, nat>, ks: set<string>, summaries: seq<Summary>, s: Summary, k: string)
    requires Extends(b, b') && forall j :: j in ks ==> Reported(b, at, j, summaries)
    requires k in at && at[k] < |b'.episodes| && b'.episodes[at[k]].fate == Emitted(s)
    ensures forall j :: j in ks + {k} ==> Reported(b', at, j, summaries + [s])
  {
    forall j | j in ks ensures Reported(b', at, j, summaries + [s]) {
      ClosedStays(b, b', at[j]);
    }
    assert (summaries + [s])[|summaries|] == s;
  }

  datatype State = State(windows: map<string, Window>, at: map<string, nat>, book: Book)

  /** From `a` to `b` the windows in `done` were summarised and removed; those in `todo` are left. */
  ghost predicate Flushing(
    a: State, b: State, stale: set<string>, todo: set<string>, done: set<string>, summaries: seq<Summary>)
  {
    && Extends(a.book, b.book) && b.book.log == a.book.log
    && Splits(stale, todo, done) && stale <= a.windows.Keys && b.windows == a.windows - done
    && (forall k :: k in b.at ==> k in a.at && b.at[k] == a.at[k])
    && |summaries| == |done| && (forall k :: k in done ==> Reported(b.book, a.at, k, summaries))
  }

  lemma FlushStarts(a: State, idleSecs: nat, now: nat)
    ensures Flushing(a, a, Stale(a.windows, idleSecs, now), Stale(a.windows, idleSecs, now), {}, [])
  {
    ExtendsReflexive(a.book);
  }

  lemma StillHeld(
    a: State, b: State, stale: set<string>, todo: set<string>, done: set<string>, summaries: seq<Summary>, k: string)
    requires Flushing(a, b, stale, todo, done, summaries) && k in todo
    ensures k in b.windows
  {
  }

  lemma FlushProceeds(
    a: State, b: State, c: State, stale: set<string>, todo: set<string>, done: set<string>,
    summaries: seq<Summary>, k: string, s: Summary)
    requires Flushing(a, b, stale, todo, done, summaries) && k in todo
    requires Extends(b.book, c.book) && c.book.log == b.book.log
    requires c.windows == b.windows - {k} && c.at == b.at - {k} && k in b.at
    requires b.at[k] < |c.book.episodes| && c.book.episodes[b.at[k]].fate == Emitted(s)
    ensures Flushing(a, c, stale, todo - {k}, done + {k}, summaries + [s])
  {
    hide Extends, Splits, Reported;
    SplitsMove(stale, todo, done, k);
    ExtendsTransitive(a.book, b.book, c.book);
    StillReported(b.book, c.book, a.at, done, summaries, s, k);
  }

  lemma FlushCompletes(a: State, b: State, stale: set<string>, done: set<string>, summaries: seq<Summary>)
    requires Flushing(a, b, stale, {}, done, summaries)
    ensures Extends(a.book, b.book) && b.book.log == a.book.log && b.windows == a.windows - stale
    ensures |summaries| == |stale| && forall k :: k in stale ==> Reported(b.book, a.at, k, summaries)
  {
    assert done == stale;
  }

  lemma WindowFacts(b: Book, at: map<string, nat>, windows: map<string, Window>, k: string)
    requires Consistent(b, at, windows) && k in windows
    ensures k in at && at[k] < |b.episodes| && Represents(windows[k], b.episodes[at[k]].samples)
  {
  }

  /** Rolling over, evicting and inserting leaves every other window alone. */
  lemma OthersStay(
    w0: map<string, Window>, w1: map<string, Window>, w2: map<string, Window>,
    key: string, victim: Option<string>, w: Window)
    requires w1 == w0 || w1 == w0 - {key}
    requires if victim.Some? then w2 == w1 - {victim.value} else w2 == w1
    ensures forall k :: k in w0 && k != key && victim != Some(k) ==> k in w2[key := w] && w2[key := w][k] == w0[k]
  {
  }

  lemma MoreThan(a: set<string>, k: string, b: set<string>)
    requires a <= b && k in b && k !in a
    ensures |b| > |a|
  {
    SubsetSize(a + {k}, b);
  }
}
