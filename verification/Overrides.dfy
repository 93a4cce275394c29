/**
  Override resolution. The source edits one map for all paths; the meaning is given path
  by path: fold the matching overrides on that path over its base entry.
 */
module Overrides {
  import opened Options
  import opened TextOrder

  datatype Entry = Entry(
    path: string, origin: string, mode: string, sampleIntervalNs: nat, rationale: string, optional: bool)

  datatype Scope = Site(site: string) | RoleEnv(role: string, environment: string) | Device(address: string)

  datatype Action = Add | Drop | Modify

  datatype Override = Override(
    scope: Scope, path: string, action: Action, sampleIntervalS: Option<nat>, optional: Option<bool>)

  datatype Target = Target(address: string, site: Option<string>, role: Option<string>, selectedPaths: seq<Entry>)

  const NS_PER_S: nat := 1_000_000_000

  predicate Matches(t: Target, o: Override) {
    match o.scope
    case Site(s) => t.site == Some(s)
    case RoleEnv(r, _) => (if t.role.Some? then t.role.value else "") == r
    case Device(a) => t.address == a
  }

  function ScopeText(s: Scope): string {
    match s
    case Site(n) => "site-override(" + n + ")"
    case RoleEnv(r, e) => "role-override(" + r + "/" + e + ")"
    case Device(a) => "device-override(" + a + ")"
  }

  lemma CutFront(a: string, b: string, c: string)
    ensures |a| <= |a + b + c| && (a + b + c)[..|a|] == a && (a + b + c)[|a|..] == b + c
  {
    assert a + b + c == a + (b + c);
  }

  /** The text of a scope tells its kind and names what it is about. */
  lemma ScopeTextTellsKind(scope: Scope)
    ensures var text, at := ScopeText(scope), if scope.Device? then 16 else 14;
            && at <= |text|
            && match scope
               case Site(n) => text[..at] == "site-override(" && text[at..] == n + ")"
               case Device(a) => text[..at] == "device-override(" && text[at..] == a + ")"
               case RoleEnv(r, e) => text[..at] == "role-override(" && text[at..] == r + ("/" + e + ")")
  {
    match scope
    case Site(n) => CutFront("site-override(", n, ")");
    case Device(a) => CutFront("device-override(", a, ")");
    case RoleEnv(r, e) =>
      CutFront("role-override(", r, "/" + e + ")");
      assert "role-override(" + r + "/" + e + ")" == "role-override(" + r + ("/" + e + ")");
  }

  function Added(o: Override): Entry {
    var seconds := if o.sampleIntervalS.Some? then o.sampleIntervalS.value else 10;
    Entry(o.path, "override: " + ScopeText(o.scope), "SAMPLE", seconds * NS_PER_S, "Added by override",
          o.optional.Some? && o.optional.value)
  }

  function Modified(e: Entry, o: Override): Entry {
    var e1 := e.(origin := "override(mod): " + ScopeText(o.scope));
    var e2 := if o.sampleIntervalS.Some? then e1.(sampleIntervalNs := o.sampleIntervalS.value * NS_PER_S) else e1;
    if o.optional.Some? then e2.(optional := o.optional.value) else e2
  }

  // -------------------------------------------------------- the meaning, path by path

  /** What one override does to the entry of its own path. */
  function Act(entry: Option<Entry>, o: Override): Option<Entry> {
    match o.action
    case Add => Some(Added(o))
    case Drop => None
    case Modify => if entry.Some? then Some(Modified(entry.value, o)) else None
  }

  /** The last base entry for `path`. */
  function Base(es: seq<Entry>, path: string): Option<Entry> {
    if es == [] then None
    else if es[|es| - 1].path == path then Some(es[|es| - 1])
    else Base(es[..|es| - 1], path)
  }

  /** The overrides that apply to `path`, in order. */
  function Relevant(t: Target, os: seq<Override>, path: string): seq<Override> {
    if os == [] then []
    else
      var rest := Relevant(t, os[..|os| - 1], path);
      var o := os[|os| - 1];
      if Matches(t, o) && o.path == path then rest + [o] else rest
  }

  function Fold(entry: Option<Entry>, os: seq<Override>): Option<Entry> {
    if os == [] then entry else Act(Fold(entry, os[..|os| - 1]), os[|os| - 1])
  }

  function Meaning(t: Target, os: seq<Override>, path: string): Option<Entry> {
    Fold(Base(t.selectedPaths, path), Relevant(t, os, path))
  }

  lemma MeaningStep(t: Target, os: seq<Override>, o: Override, path: string)
    ensures Meaning(t, os + [o], path) ==
            if Matches(t, o) && o.path == path then Act(Meaning(t, os, path), o) else Meaning(t, os, path)
  {
    assert (os + [o])[..|os|] == os;
    var r := Relevant(t, os, path);
    assert (r + [o])[..|r|] == r;
  }

  // -------------------------------------------------------- the last word on a path

  /** A device is addressed by its site, its role or its address; no role counts as the empty one. */
  lemma MatchesIff(t: Target, o: Override)
    ensures Matches(t, o) <==>
            || (o.scope.Site? && t.site == Some(o.scope.site))
            || (o.scope.RoleEnv? && (t.role == Some(o.scope.role) || (t.role.None? && o.scope.role == "")))
            || o.scope == Device(t.address)
  {
  }

  /** Override `i` applies to the path it names, and no later one does. */
  ghost predicate IsLast(t: Target, os: seq<Override>, i: nat) {
    && i < |os| && Matches(t, os[i])
    && forall j :: i < j < |os| ==> !(Matches(t, os[j]) && os[j].path == os[i].path)
  }

  lemma {:induction false} LastActs(t: Target, os: seq<Override>, i: nat)
    requires IsLast(t, os, i)
    ensures Meaning(t, os, os[i].path) == Act(Meaning(t, os[..i], os[i].path), os[i])
  {
    hide Meaning, Act, Matches;
    var os' := os[..|os| - 1];
    assert os == os' + [os[|os| - 1]];
    MeaningStep(t, os', os[|os| - 1], os[i].path);
    if i < |os| - 1 {
      LastActs(t, os', i);
      assert os'[..i] == os[..i];
    }
  }

  /** A path that no override applies to keeps its last base entry. */
  lemma {:induction false} UntouchedKeeps(t: Target, os: seq<Override>, path: string)
    requires forall j :: 0 <= j < |os| && Matches(t, os[j]) ==> os[j].path != path
    ensures Meaning(t, os, path) == Base(t.selectedPaths, path)
  {
    hide Matches, Base;
    if os != [] {
      UntouchedKeeps(t, os[..|os| - 1], path);
    }
  }

  lemma {:induction false} BaseIsLast(es: seq<Entry>, path: string)
    ensures Base(es, path).None? <==> forall i :: 0 <= i < |es| ==> es[i].path != path
    ensures Base(es, path).Some? ==>
              exists i :: 0 <= i < |es| && Base(es, path) == Some(es[i]) && es[i].path == path
                          && forall j :: i < j < |es| ==> es[j].path != path
  {
    if es != [] && es[|es| - 1].path != path {
      BaseIsLast(es[..|es| - 1], path);
    }
  }

  /** The entry that an added path gets: every ten seconds unless the override says otherwise. */
  ghost predicate IsAdded(e: Entry, o: Override) {
    && e.path == o.path && e.mode == "SAMPLE" && e.origin == "override: " + ScopeText(o.scope)
    && e.sampleIntervalNs == 1_000_000_000 * (if o.sampleIntervalS.None? then 10 else o.sampleIntervalS.value)
    && (e.optional <==> o.optional == Some(true)) && e.rationale == "Added by override"
  }

  /** The entry that `e` becomes: only what the override gives changes, and its origin. */
  ghost predicate IsModified(e: Entry, e': Entry, o: Override) {
    && e'.path == e.path && e'.mode == e.mode && e'.rationale == e.rationale
    && e'.origin == "override(mod): " + ScopeText(o.scope)
    && (o.sampleIntervalS.None? ==> e'.sampleIntervalNs == e.sampleIntervalNs)
    && (o.sampleIntervalS.Some? ==> e'.sampleIntervalNs == o.sampleIntervalS.value * 1_000_000_000)
    && (o.optional.None? ==> e'.optional == e.optional)
    && (o.optional.Some? ==> e'.optional == o.optional.value)
  }

  /**
    The last override that applies to a path decides what the resolved list holds for it:
    nothing after a drop, the added entry after an add, and after a modify the entry
    that the earlier overrides left, modified, or nothing when they left none.
   */
  lemma LastOverrideDecides(t: Target, os: seq<Override>, es: seq<Entry>, i: nat)
    requires IsLast(t, os, i) && forall path :: Holds(es, path, Meaning(t, os, path))
    ensures var o, before := os[i], Meaning(t, os[..i], os[i].path);
            match o.action
            case Drop => forall k :: 0 <= k < |es| ==> es[k].path != o.path
            case Add => exists e :: e in es && IsAdded(e, o)
            case Modify =>
              if before.None? then forall k :: 0 <= k < |es| ==> es[k].path != o.path
              else exists e :: e in es && IsModified(before.value, e, o)
  {
    hide Matches, Meaning, ScopeText;
    LastActs(t, os, i);
    var o := os[i];
    assert Holds(es, o.path, Meaning(t, os, o.path));
    var after := Meaning(t, os, o.path);
    if after.Some? {
      assert after.value in es;
    }
  }

  // -------------------------------------------------------- the result list

  /** The entry of `path` in a list. */
  ghost predicate Holds(es: seq<Entry>, path: string, entry: Option<Entry>) {
    match entry
    case Some(e) => e in es && e.path == path
    case None => forall i :: 0 <= i < |es| ==> es[i].path != path
  }

  /** Strictly ascending by path: sorted, and no path twice. */
  ghost predicate Ascending(es: seq<Entry>) {
    forall i, j :: 0 <= i < j < |es| ==> Less(es[i].path, es[j].path)
  }

  function Lookup(m: map<string, Entry>, path: string): Option<Entry> {
    if path in m then Some(m[path]) else None
  }

  ghost predicate Keyed(m: map<string, Entry>) {
    forall path :: path in m ==> m[path].path == path
  }

  method ResolveSubscriptionPaths(t: Target, os: seq<Override>) returns (result: seq<Entry>)
    ensures Ascending(result)
    ensures forall path :: Holds(result, path, Meaning(t, os, path))
  {
    hide Meaning, Base, Added, Modified;
    var paths := BasePaths(t);
    for n := 0 to |os|
      invariant Keyed(paths) && forall path :: Lookup(paths, path) == Meaning(t, os[..n], path)
    {
      var o := os[n];
      assert os[..n + 1] == os[..n] + [o];
      ghost var before := paths;
      KeepsPath(o);
      if Matches(t, o) {
        match o.action
        case Add => paths := paths[o.path := Added(o)];
        case Drop => paths := paths - {o.path};
        case Modify =>
          if o.path in paths {
            paths := paths[o.path := Modified(paths[o.path], o)];
          }
      }
      forall path ensures Lookup(paths, path) == Meaning(t, os[..n + 1], path) {
        MeaningStep(t, os[..n], o, path);
        assert Lookup(before, path) == Meaning(t, os[..n], path);
      }
    }
    assert os[..|os|] == os;
    result := IntoValues(paths);
    forall path ensures Holds(result, path, Meaning(t, os, path)) {
      assert Holds(result, path, Lookup(paths, path));
    }
  }

  lemma KeepsPath(o: Override)
    ensures Added(o).path == o.path
    ensures forall e :: Modified(e, o).path == e.path
  {
  }

  method BasePaths(t: Target) returns (paths: map<string, Entry>)
    ensures Keyed(paths) && forall path :: Lookup(paths, path) == Meaning(t, [], path)
  {
    paths := map[];
    for n := 0 to |t.selectedPaths|
      invariant Keyed(paths) && forall path :: Lookup(paths, path) == Base(t.selectedPaths[..n], path)
    {
      var e := t.selectedPaths[n];
      assert t.selectedPaths[..n + 1][..n] == t.selectedPaths[..n];
      paths := paths[e.path := e];
    }
    assert t.selectedPaths[..|t.selectedPaths|] == t.selectedPaths;
  }

  /** The values of the map in ascending order of their keys. */
  method IntoValues(m: map<string, Entry>) returns (es: seq<Entry>)
    requires Keyed(m)
    ensures Ascending(es) && forall path :: Holds(es, path, Lookup(m, path))
  {
    es := [];
    var todo := m.Keys;
    while todo != {}
      invariant todo <= m.Keys && Ascending(es)
      invariant forall i :: 0 <= i < |es| ==> es[i].path in m.Keys - todo && m[es[i].path] == es[i]
      invariant forall path :: path in m.Keys - todo ==> m[path] in es
      invariant forall i, path :: 0 <= i < |es| && path in todo ==> Less(es[i].path, path)
      decreases todo
    {
      var path := Least(todo);
      todo := todo - {path};
      es := es + [m[path]];
    }
  }

  /** A list ascending by path is determined by the entry of each path. */
  lemma {:induction false} AscendingUnique(a: seq<Entry>, b: seq<Entry>)
    requires Ascending(a) && Ascending(b) && forall e :: e in a <==> e in b
    ensures a == b
  {
    assert |a| > 0 ==> a[0] in b;
    assert |b| > 0 ==> b[0] in a;
    if a != [] {
      SameHead(a, b);
      forall e ensures e in a[1..] <==> e in b[1..] {
        TailMembers(a, e);
        TailMembers(b, e);
      }
      AscendingUnique(a[1..], b[1..]);
      assert a == [a[0]] + a[1..] && b == [b[0]] + b[1..];
    }
  }

  lemma SameHead(a: seq<Entry>, b: seq<Entry>)
    requires Ascending(a) && Ascending(b) && a != [] && b != [] && a[0] in b && b[0] in a
    ensures a[0] == b[0]
  {
    var i :| 0 <= i < |b| && b[i] == a[0];
    var j :| 0 <= j < |a| && a[j] == b[0];
    if i > 0 && j > 0 {
      LessTransitive(a[0].path, a[j].path, b[i].path);
      LessIrreflexive(a[0].path);
    }
  }

  lemma TailMembers(a: seq<Entry>, e: Entry)
    requires Ascending(a) && a != []
    ensures e in a[1..] <==> e in a && e != a[0]
  {
    LessIrreflexive(a[0].path);
    if e in a && e != a[0] {
      var i :| 0 <= i < |a| && a[i] == e;
      assert a[1..][i - 1] == e;
    }
  }

  /** The result is the only ascending list with the meaning of every path. */
  lemma ResultUnique(t: Target, os: seq<Override>, a: seq<Entry>, b: seq<Entry>)
    requires Ascending(a) && Ascending(b)
    requires forall path :: Holds(a, path, Meaning(t, os, path)) && Holds(b, path, Meaning(t, os, path))
    ensures a == b
  {
    forall e ensures e in a <==> e in b {
      assert Holds(a, e.path, Meaning(t, os, e.path)) && Holds(b, e.path, Meaning(t, os, e.path));
      EntryUnique(a, e, Meaning(t, os, e.path));
      EntryUnique(b, e, Meaning(t, os, e.path));
    }
    AscendingUnique(a, b);
  }

  lemma EntryUnique(a: seq<Entry>, e: Entry, entry: Option<Entry>)
    requires Ascending(a) && Holds(a, e.path, entry)
    ensures e in a <==> entry == Some(e)
  {
    if e in a {
      var i :| 0 <= i < |a| && a[i] == e;
      if entry.Some? {
        var j :| 0 <= j < |a| && a[j] == entry.value;
        LessIrreflexive(e.path);
      }
    }
  }

  /** Any reordering of the overrides that keeps the order on each path gives the same list. */
  lemma OrderMattersOnlyPerPath(t: Target, os: seq<Override>, os': seq<Override>, a: seq<Entry>, b: seq<Entry>)
    requires forall path :: Relevant(t, os, path) == Relevant(t, os', path)
    requires Ascending(a) && forall path :: Holds(a, path, Meaning(t, os, path))
    requires Ascending(b) && forall path :: Holds(b, path, Meaning(t, os', path))
    ensures a == b
  {
    forall path ensures Holds(b, path, Meaning(t, os, path)) {
      assert Relevant(t, os, path) == Relevant(t, os', path);
      assert Holds(b, path, Meaning(t, os', path));
    }
    ResultUnique(t, os, a, b);
  }
}
