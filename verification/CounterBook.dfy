/**
  The life of every counter window: which samples it took, and whether it is still
  open, was summarised, or was evicted.
 */
module CounterBook {
  import opened Ownership
  import opened CounterStats

  datatype CounterSummary = CounterSummary(name: string, min: int, max: int, mean: real, delta: int)

  datatype Summary = Summary(target: string, ifName: string, windowSecs: nat, counters: seq<CounterSummary>)

  datatype Window = Window(target: string, ifName: string, start: nat, lastUpdate: nat, counters: map<string, Stats>)

  datatype Fate = Open | Emitted(summary: Summary) | Evicted

  /** One window from its opening on. */
  datatype Episode = Episode(key: string, samples: seq<Sample>, fate: Fate)

  /** `owner[i]` is the number of the episode that took sample `log[i]`. */
  datatype Book = Book(episodes: seq<Episode>, log: seq<Sample>, owner: seq<nat>)

  /** The entry of one counter is the fold of its raw values. */
  ghost predicate IsFold(e: CounterSummary, samples: seq<Sample>) {
    var vs := Values(samples, e.name);
    && vs != []
    && e.min == MinOf(vs) && e.max == MaxOf(vs) && e.mean == Mean(vs)
    && e.delta == Delta(vs[0], vs[|vs| - 1])
  }

  predicate Lists(counters: seq<CounterSummary>, name: string) {
    exists i :: 0 <= i < |counters| && counters[i].name == name
  }

  /** `s` summarises exactly `samples`: one entry for each counter seen, each the fold of its values. */
  ghost predicate Summarizes(s: Summary, samples: seq<Sample>) {
    && samples != []
    && s.target == samples[0].target && s.ifName == samples[0].ifName
    && (forall i :: 0 <= i < |s.counters| ==> IsFold(s.counters[i], samples))
    && (forall i, j :: 0 <= i < j < |s.counters| ==> s.counters[i].name != s.counters[j].name)
    && (forall name :: Values(samples, name) != [] ==> Lists(s.counters, name))
  }

  /** The window holds the incremental form of the folds of `samples`. */
  ghost predicate Represents(w: Window, samples: seq<Sample>) {
    && samples != []
    && w.target == samples[0].target && w.ifName == samples[0].ifName
    && HoldsFolds(w.counters, samples)
  }

  ghost predicate HoldsFolds(counters: map<string, Stats>, samples: seq<Sample>) {
    forall name :: (name in counters <==> Values(samples, name) != []) &&
                   (name in counters ==> counters[name] == StatsOf(Values(samples, name)))
  }

  ghost predicate EpisodeSound(b: Book, n: nat)
    requires n < |b.episodes| && |b.owner| == |b.log|
  {
    var e := b.episodes[n];
    && e.samples == Members(b.log, b.owner, n) != []
    && (forall i :: 0 <= i < |e.samples| ==> KeyOf(e.samples[i].target, e.samples[i].ifName) == e.key)
    && (e.fate.Emitted? ==> Summarizes(e.fate.summary, e.samples))
  }

  /** Every sample is in exactly one episode, which holds just its samples; what was emitted is their summary. */
  ghost predicate Sound(b: Book) {
    && |b.owner| == |b.log|
    && (forall i :: 0 <= i < |b.owner| ==> b.owner[i] < |b.episodes|)
    && (forall n :: 0 <= n < |b.episodes| ==> EpisodeSound(b, n))
  }

  /** The open episodes are exactly those that `at` finds by key. */
  ghost predicate Indexes(b: Book, at: map<string, nat>) {
    && (forall k :: k in at ==> at[k] < |b.episodes| && b.episodes[at[k]].key == k && b.episodes[at[k]].fate.Open?)
    && (forall n :: 0 <= n < |b.episodes| && b.episodes[n].fate.Open? ==>
         b.episodes[n].key in at && at[b.episodes[n].key] == n)
  }

  ghost function Close(b: Book, n: nat, fate: Fate): Book
    requires n < |b.episodes|
  {
    b.(episodes := b.episodes[n := b.episodes[n].(fate := fate)])
  }

  /** Sample `s` joins the open episode `n`. */
  ghost function Join(b: Book, n: nat, s: Sample): Book
    requires n < |b.episodes|
  {
    Book(b.episodes[n := b.episodes[n].(samples := b.episodes[n].samples + [s])], b.log + [s], b.owner + [n])
  }

  /** Sample `s` opens a new episode. */
  ghost function Begin(b: Book, s: Sample): Book {
    Book(b.episodes + [Episode(KeyOf(s.target, s.ifName), [s], Open)], b.log + [s], b.owner + [|b.episodes|])
  }

  lemma CloseSound(b: Book, at: map<string, nat>, k: string, fate: Fate)
    requires Sound(b) && Indexes(b, at) && k in at && !fate.Open?
    requires fate.Emitted? ==> Summarizes(fate.summary, b.episodes[at[k]].samples)
    ensures Sound(Close(b, at[k], fate)) && Indexes(Close(b, at[k], fate), at - {k})
  {
    var b' := Close(b, at[k], fate);
    forall n | 0 <= n < |b'.episodes| ensures EpisodeSound(b', n) { assert EpisodeSound(b, n); }
  }

  lemma JoinSound(b: Book, at: map<string, nat>, s: Sample)
    requires Sound(b) && Indexes(b, at) && KeyOf(s.target, s.ifName) in at
    ensures var b' := Join(b, at[KeyOf(s.target, s.ifName)], s); Sound(b') && Indexes(b', at)
  {
    var m := at[KeyOf(s.target, s.ifName)];
    var b' := Join(b, m, s);
    forall n | 0 <= n < |b'.episodes| ensures EpisodeSound(b', n) {
      assert EpisodeSound(b, n);
      MembersExtend(b.log, b.owner, n, s, m);
    }
  }

  lemma BeginSound(b: Book, at: map<string, nat>, s: Sample)
    requires Sound(b) && Indexes(b, at) && KeyOf(s.target, s.ifName) !in at
    ensures var b' := Begin(b, s);
            Sound(b') && Indexes(b', at[KeyOf(s.target, s.ifName) := |b.episodes|])
  {
    var m := |b.episodes|;
    var b' := Begin(b, s);
    NoMembers(b.log, b.owner, m);
    forall n | 0 <= n < |b'.episodes| ensures EpisodeSound(b', n) {
      if n < m { assert EpisodeSound(b, n); }
      MembersExtend(b.log, b.owner, n, s, m);
    }
  }

  /** Every emitted entry satisfies min <= mean <= max. */
  lemma EmittedMeanBetween(b: Book, n: nat, i: nat)
    requires Sound(b) && n < |b.episodes| && b.episodes[n].fate.Emitted? && i < |b.episodes[n].fate.summary.counters|
    ensures var e := b.episodes[n].fate.summary.counters[i]; e.min as real <= e.mean <= e.max as real
  {
    assert EpisodeSound(b, n);
    var e := b.episodes[n].fate.summary.counters[i];
    assert IsFold(e, b.episodes[n].samples);
    MeanBetween(Values(b.episodes[n].samples, e.name));
  }

  /**
    What an emitted entry says about the raw values of its counter in its window: bounds
    that are reached, the mean, and last minus first for counters that are not negative.
   */
  lemma EmittedEntry(b: Book, n: nat, i: nat)
    requires Sound(b) && n < |b.episodes| && b.episodes[n].fate.Emitted? && i < |b.episodes[n].fate.summary.counters|
    requires forall v :: v in Values(b.episodes[n].samples, b.episodes[n].fate.summary.counters[i].name) ==> IsI64(v)
    ensures var e := b.episodes[n].fate.summary.counters[i];
            var vs := Values(b.episodes[n].samples, e.name);
            && vs != [] && e.min in vs && e.max in vs && (forall k :: 0 <= k < |vs| ==> e.min <= vs[k] <= e.max)
            && e.mean * |vs| as real == SumOf(vs)
            && (e.min >= 0 ==> e.delta == vs[|vs| - 1] - vs[0])
  {
    hide MinOf, MaxOf, Delta, SumOf, Values, Mean, Members, KeyOf, IsFold;
    assert EpisodeSound(b, n);
    var e, samples := b.episodes[n].fate.summary.counters[i], b.episodes[n].samples;
    assert IsFold(e, samples);
    hide Sound, EpisodeSound, Summarizes;
    FoldFacts(e, samples);
  }

  lemma FoldFacts(e: CounterSummary, samples: seq<Sample>)
    requires IsFold(e, samples) && forall v :: v in Values(samples, e.name) ==> IsI64(v)
    ensures var vs := Values(samples, e.name);
            && vs != [] && e.min in vs && e.max in vs && (forall k :: 0 <= k < |vs| ==> e.min <= vs[k] <= e.max)
            && e.mean * |vs| as real == SumOf(vs)
            && (e.min >= 0 ==> e.delta == vs[|vs| - 1] - vs[0])
  {
    hide MinOf, MaxOf, Delta, SumOf, Values, Mean;
    var vs := Values(samples, e.name);
    MinIsLeast(vs);
    MaxIsGreatest(vs);
    MeanOfMultiset(vs, vs);
    DeltaExact(vs[0], vs[|vs| - 1]);
  }

  lemma {:induction false} SomeValueIff(samples: seq<Sample>, name: string)
    ensures Values(samples, name) != [] <==> exists k :: 0 <= k < |samples| && name in samples[k].fields
  {
    if samples != [] { SomeValueIff(samples[..|samples| - 1], name); }
  }

  /** An emitted summary has exactly one entry for each counter that some sample of its window reported. */
  lemma EmittedCounters(b: Book, n: nat, name: string, i: nat, j: nat)
    requires Sound(b) && n < |b.episodes| && b.episodes[n].fate.Emitted?
    ensures var s := b.episodes[n].fate.summary;
            && ((exists c :: c in s.counters && c.name == name) <==>
                (exists k :: 0 <= k < |b.log| && b.owner[k] == n && name in b.log[k].fields))
            && (i < j < |s.counters| ==> s.counters[i].name != s.counters[j].name)
  {
    assert EpisodeSound(b, n);
    var e := b.episodes[n];
    var s := e.fate.summary;
    SomeValueIff(e.samples, name);
    assert forall c :: c in s.counters ==> IsFold(c, e.samples);
    hide Values, IsFold, Members;
    if k :| 0 <= k < |b.log| && b.owner[k] == n && name in b.log[k].fields {
      MemberOf(b.log, b.owner, n, k);
      var m :| 0 <= m < |e.samples| && e.samples[m] == b.log[k];
      assert Lists(s.counters, name);
      var c :| 0 <= c < |s.counters| && s.counters[c].name == name;
      assert s.counters[c] in s.counters;
    }
    if k :| 0 <= k < |e.samples| && name in e.samples[k].fields {
      MembersIff(b.log, b.owner, n, e.samples[k]);
    }
  }

  /** With targets free of NUL characters, no window ever mixes two interfaces. */
  lemma WindowsNeverMixInterfaces(b: Book, i: nat, j: nat)
    requires Sound(b) && i < |b.log| && j < |b.log| && b.owner[i] == b.owner[j]
    requires (0 as char) !in b.log[i].target && (0 as char) !in b.log[j].target
    ensures b.log[i].target == b.log[j].target && b.log[i].ifName == b.log[j].ifName
  {
    var n := b.owner[i];
    assert EpisodeSound(b, n);
    MemberOf(b.log, b.owner, n, i);
    MemberOf(b.log, b.owner, n, j);
    KeyInjective(b.log[i].target, b.log[i].ifName, b.log[j].target, b.log[j].ifName);
  }

  lemma {:induction false} MemberOf(log: seq<Sample>, owner: seq<nat>, n: nat, i: nat)
    requires |log| == |owner| && i < |log| && owner[i] == n
    ensures log[i] in Members(log, owner, n)
  {
    if i < |log| - 1 { MemberOf(log[..|log| - 1], owner[..|log| - 1], n, i); }
  }

  /** What is closed stays as it is, samples only accumulate, and nothing recorded is lost. */
  ghost predicate Extends(b: Book, b': Book) {
    && |b.episodes| <= |b'.episodes|
    && b.log <= b'.log && b.owner <= b'.owner
    && (forall n :: 0 <= n < |b.episodes| ==>
         && b'.episodes[n].key == b.episodes[n].key && b.episodes[n].samples <= b'.episodes[n].samples
         && (!b.episodes[n].fate.Open? ==> b'.episodes[n] == b.episodes[n]))
  }

  lemma ExtendsReflexive(b: Book)
    ensures Extends(b, b)
  {
  }

  lemma ClosedStays(b: Book, b': Book, n: nat)
    requires Extends(b, b') && n < |b.episodes| && !b.episodes[n].fate.Open?
    ensures n < |b'.episodes| && b'.episodes[n] == b.episodes[n]
  {
  }

  lemma ExtendsTransitive(a: Book, b: Book, c: Book)
    requires Extends(a, b) && Extends(b, c)
    ensures Extends(a, c)
  {
  }

  /** The windows are the incremental forms of the open episodes. */
  ghost predicate Consistent(b: Book, at: map<string, nat>, windows: map<string, Window>) {
    && Sound(b) && Indexes(b, at)
    && windows.Keys == at.Keys
    && (forall k :: k in windows ==> Represents(windows[k], b.episodes[at[k]].samples))
  }

  ghost predicate HasEvicted(b: Book) {
    exists n :: 0 <= n < |b.episodes| && b.episodes[n].fate.Evicted?
  }

  lemma CloseConsistent(b: Book, at: map<string, nat>, windows: map<string, Window>, k: string, fate: Fate)
    requires Consistent(b, at, windows) && k in windows && !fate.Open?
    requires fate.Emitted? ==> Summarizes(fate.summary, b.episodes[at[k]].samples)
    ensures var b' := Close(b, at[k], fate);
            && Consistent(b', at - {k}, windows - {k}) && Extends(b, b') && b'.log == b.log
            && (HasEvicted(b') ==> HasEvicted(b) || fate.Evicted?)
  {
    hide Sound, Represents, Summarizes, Extends, HasEvicted;
    var b' := Close(b, at[k], fate);
    CloseSound(b, at, k, fate);
    CloseExtends(b, at[k], fate);
    forall j | j in windows - {k} ensures b'.episodes[at[j]] == b.episodes[at[j]] {
      assert b.episodes[at[j]].key == j && b.episodes[at[k]].key == k;
    }
  }

  lemma CloseExtends(b: Book, n: nat, fate: Fate)
    requires n < |b.episodes| && b.episodes[n].fate.Open?
    ensures Extends(b, Close(b, n, fate)) && (HasEvicted(Close(b, n, fate)) ==> HasEvicted(b) || fate.Evicted?)
  {
    var b' := Close(b, n, fate);
    if m :| 0 <= m < |b'.episodes| && b'.episodes[m].fate.Evicted? {
      if m != n { assert b.episodes[m].fate.Evicted?; }
    }
  }

  lemma JoinConsistent(b: Book, at: map<string, nat>, windows: map<string, Window>, s: Sample, w: Window)
    requires Consistent(b, at, windows) && KeyOf(s.target, s.ifName) in windows
    requires Represents(w, b.episodes[at[KeyOf(s.target, s.ifName)]].samples + [s])
    ensures var k := KeyOf(s.target, s.ifName);
            var b' := Join(b, at[k], s);
            Consistent(b', at, windows[k := w]) && Extends(b, b') && (HasEvicted(b') ==> HasEvicted(b))
  {
    var k := KeyOf(s.target, s.ifName);
    var b' := Join(b, at[k], s);
    JoinSound(b, at, s);
    forall j | j in windows && j != k ensures b'.episodes[at[j]] == b.episodes[at[j]] {
      assert b.episodes[at[j]].key == j && b.episodes[at[k]].key == k;
    }
    if n :| 0 <= n < |b'.episodes| && b'.episodes[n].fate.Evicted? {
      assert b.episodes[n].fate.Evicted?;
    }
  }

  lemma BeginConsistent(b: Book, at: map<string, nat>, windows: map<string, Window>, s: Sample, w: Window)
    requires Consistent(b, at, windows) && KeyOf(s.target, s.ifName) !in windows && Represents(w, [s])
    ensures var k := KeyOf(s.target, s.ifName);
            var b' := Begin(b, s);
            && Consistent(b', at[k := |b.episodes|], windows[k := w]) && Extends(b, b')
            && (HasEvicted(b') ==> HasEvicted(b))
  {
    var b' := Begin(b, s);
    BeginSound(b, at, s);
    if n :| 0 <= n < |b'.episodes| && b'.episodes[n].fate.Evicted? {
      assert b.episodes[n].fate.Evicted?;
    }
  }
}
