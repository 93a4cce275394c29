/** Routing rules: the stable sort by priority and the rule it makes win. */
module Rules {
  import opened Options
  import opened Sites

  datatype Rule = Rule(matchSite: string, matchRole: Option<string>, collector: string, priority: int)

  /** A managed device. */
  datatype Target = Target(site: Option<string>, role: Option<string>, collector: Option<string>)

  function OrEmpty(s: Option<string>): string {
    if s.Some? then s.value else ""
  }

  predicate Matches(r: Rule, ancestors: seq<string>, role: string) {
    r.matchSite in ancestors && (r.matchRole.None? || r.matchRole.value == role)
  }

  // ------------------------------------------------------------ the stable sort

  /** Puts `x` behind every rule of at least its priority. */
  function Insert(rs: seq<Rule>, x: Rule): seq<Rule> {
    if rs == [] || rs[|rs| - 1].priority >= x.priority then rs + [x]
    else Insert(rs[..|rs| - 1], x) + [rs[|rs| - 1]]
  }

  /** Highest priority first; rules of equal priority keep their order. */
  function SortByPriority(rs: seq<Rule>): seq<Rule> {
    if rs == [] then [] else Insert(SortByPriority(rs[..|rs| - 1]), rs[|rs| - 1])
  }

  predicate Descending(rs: seq<Rule>) {
    forall i, j :: 0 <= i < j < |rs| ==> rs[i].priority >= rs[j].priority
  }

  /** The rules of priority `p`, in order. */
  function Level(rs: seq<Rule>, p: int): seq<Rule> {
    if rs == [] then []
    else
      var rest := Level(rs[..|rs| - 1], p);
      if rs[|rs| - 1].priority == p then rest + [rs[|rs| - 1]] else rest
  }

  lemma {:induction false} InsertPermutes(rs: seq<Rule>, x: Rule)
    ensures multiset(Insert(rs, x)) == multiset(rs) + multiset{x}
  {
    if rs != [] && rs[|rs| - 1].priority < x.priority {
      InsertPermutes(rs[..|rs| - 1], x);
      assert rs == rs[..|rs| - 1] + [rs[|rs| - 1]];
    }
  }

  lemma {:induction false} InsertDescends(rs: seq<Rule>, x: Rule)
    requires Descending(rs)
    ensures Descending(Insert(rs, x))
    ensures forall i :: 0 <= i < |Insert(rs, x)| ==> Insert(rs, x)[i] == x || Insert(rs, x)[i] in rs
  {
    if rs != [] && rs[|rs| - 1].priority < x.priority {
      InsertDescends(rs[..|rs| - 1], x);
    }
  }

  lemma {:induction false} InsertLevel(rs: seq<Rule>, x: Rule, p: int)
    requires Descending(rs)
    ensures Level(Insert(rs, x), p) == Level(rs, p) + if x.priority == p then [x] else []
  {
    if rs == [] || rs[|rs| - 1].priority >= x.priority {
      assert (rs + [x])[..|rs|] == rs;
    } else {
      InsertLevel(rs[..|rs| - 1], x, p);
      var ins := Insert(rs[..|rs| - 1], x);
      assert (ins + [rs[|rs| - 1]])[..|ins|] == ins;
    }
  }

  lemma {:induction false} SortDescends(rs: seq<Rule>)
    ensures Descending(SortByPriority(rs))
  {
    if rs != [] {
      SortDescends(rs[..|rs| - 1]);
      InsertDescends(SortByPriority(rs[..|rs| - 1]), rs[|rs| - 1]);
    }
  }

  lemma {:induction false} SortPermutes(rs: seq<Rule>)
    ensures multiset(SortByPriority(rs)) == multiset(rs)
  {
    hide Insert;
    if rs != [] {
      var rs', x := rs[..|rs| - 1], rs[|rs| - 1];
      SortPermutes(rs');
      InsertPermutes(SortByPriority(rs'), x);
      assert rs == rs' + [x];
    }
  }

  /** Rules of one priority keep the order they were given in. */
  lemma {:induction false} SortIsStable(rs: seq<Rule>, p: int)
    ensures Level(SortByPriority(rs), p) == Level(rs, p)
  {
    if rs != [] {
      SortIsStable(rs[..|rs| - 1], p);
      SortDescends(rs[..|rs| - 1]);
      InsertLevel(SortByPriority(rs[..|rs| - 1]), rs[|rs| - 1], p);
    }
  }

  // ------------------------------------------------------------ the winning rule

  /** The first rule of the list that matches. */
  function FirstMatch(rs: seq<Rule>, ancestors: seq<string>, role: string): Option<Rule> {
    if rs == [] then None
    else if Matches(rs[0], ancestors, role) then Some(rs[0])
    else FirstMatch(rs[1..], ancestors, role)
  }

  /** Rule `i` matches, no matching rule has a higher priority, and none of its priority comes earlier. */
  ghost predicate Wins(rs: seq<Rule>, ancestors: seq<string>, role: string, i: nat) {
    && i < |rs| && Matches(rs[i], ancestors, role)
    && (forall j :: 0 <= j < |rs| && Matches(rs[j], ancestors, role) ==>
         rs[j].priority < rs[i].priority || (rs[j].priority == rs[i].priority && i <= j))
  }

  lemma {:induction false} FirstMatchAppend(rs: seq<Rule>, x: Rule, ancestors: seq<string>, role: string)
    ensures FirstMatch(rs + [x], ancestors, role) ==
            if FirstMatch(rs, ancestors, role).Some? then FirstMatch(rs, ancestors, role)
            else if Matches(x, ancestors, role) then Some(x) else None
  {
    if rs == [] {
      assert [] + [x] == [x] && [x][1..] == [];
    } else {
      assert (rs + [x])[1..] == rs[1..] + [x];
      FirstMatchAppend(rs[1..], x, ancestors, role);
    }
  }

  lemma {:induction false} FirstMatchIn(rs: seq<Rule>, ancestors: seq<string>, role: string)
    ensures FirstMatch(rs, ancestors, role).Some? ==> FirstMatch(rs, ancestors, role).value in rs
    ensures FirstMatch(rs, ancestors, role).None? <==> forall i :: 0 <= i < |rs| ==> !Matches(rs[i], ancestors, role)
  {
    if rs != [] {
      FirstMatchIn(rs[1..], ancestors, role);
      assert forall i :: 0 < i < |rs| ==> rs[i] == rs[1..][i - 1];
    }
  }

  /** Inserting a rule changes the first match only if it matches and outranks it. */
  lemma {:induction false} FirstMatchInsert(rs: seq<Rule>, x: Rule, ancestors: seq<string>, role: string)
    requires Descending(rs)
    ensures FirstMatch(Insert(rs, x), ancestors, role) ==
            var m := FirstMatch(rs, ancestors, role);
            if !Matches(x, ancestors, role) then m
            else if m.Some? && m.value.priority >= x.priority then m else Some(x)
  {
    if rs == [] || rs[|rs| - 1].priority >= x.priority {
      FirstMatchAppend(rs, x, ancestors, role);
      FirstMatchIn(rs, ancestors, role);
    } else {
      var rs', y := rs[..|rs| - 1], rs[|rs| - 1];
      assert rs == rs' + [y];
      FirstMatchInsert(rs', x, ancestors, role);
      FirstMatchAppend(rs', y, ancestors, role);
      FirstMatchAppend(Insert(rs', x), y, ancestors, role);
    }
  }

  /**
    The chosen rule is the matching one of greatest priority, the earliest in the given
    list on ties; nothing is chosen exactly when nothing matches.
   */
  lemma {:induction false} SortedChoiceWins(rs: seq<Rule>, ancestors: seq<string>, role: string)
    ensures var m := FirstMatch(SortByPriority(rs), ancestors, role);
            && (m.Some? ==> exists i: nat :: Wins(rs, ancestors, role, i) && m.value == rs[i])
            && (m.None? ==> forall i :: 0 <= i < |rs| ==> !Matches(rs[i], ancestors, role))
  {
    if rs != [] {
      var rs', x := rs[..|rs| - 1], rs[|rs| - 1];
      SortedChoiceWins(rs', ancestors, role);
      SortDescends(rs');
      FirstMatchInsert(SortByPriority(rs'), x, ancestors, role);
      WinsExtend(rs', x, ancestors, role, FirstMatch(SortByPriority(rs'), ancestors, role));
      assert rs == rs' + [x];
    }
  }

  /** How the winner changes when one more rule is given. */
  lemma WinsExtend(rs: seq<Rule>, x: Rule, ancestors: seq<string>, role: string, m: Option<Rule>)
    requires m.Some? ==> exists i: nat :: Wins(rs, ancestors, role, i) && m.value == rs[i]
    requires m.None? ==> forall i :: 0 <= i < |rs| ==> !Matches(rs[i], ancestors, role)
    ensures var m' := if !Matches(x, ancestors, role) then m
                      else if m.Some? && m.value.priority >= x.priority then m else Some(x);
            && (m'.Some? ==> exists i: nat :: Wins(rs + [x], ancestors, role, i) && m'.value == (rs + [x])[i])
            && (m'.None? ==> forall i :: 0 <= i < |rs + [x]| ==> !Matches((rs + [x])[i], ancestors, role))
  {
    hide Matches;
    var all := rs + [x];
    if m.Some? {
      var i: nat :| Wins(rs, ancestors, role, i) && m.value == rs[i];
      if Matches(x, ancestors, role) && m.value.priority < x.priority {
        assert Wins(all, ancestors, role, |rs|);
      } else {
        assert Wins(all, ancestors, role, i) && all[i] == rs[i];
      }
    } else if Matches(x, ancestors, role) {
      assert Wins(all, ancestors, role, |rs|);
    }
  }

  lemma WinsUnique(rs: seq<Rule>, ancestors: seq<string>, role: string, i: nat, j: nat)
    requires Wins(rs, ancestors, role, i) && Wins(rs, ancestors, role, j)
    ensures i == j
  {
    assert Matches(rs[i], ancestors, role) && Matches(rs[j], ancestors, role);
  }

  /** The collector that the rules give a device. */
  function Choice(sorted: seq<Rule>, sites: seq<Site>, t: Target): Option<string> {
    var m := FirstMatch(sorted, AncestorsOf(OrEmpty(t.site), sites), OrEmpty(t.role));
    if m.Some? then Some(m.value.collector) else None
  }

  /** Some given rule wins for the device and names collector `c`. */
  ghost predicate WinsFor(given: seq<Rule>, sites: seq<Site>, t: Target, c: string) {
    exists i: nat ::
      Wins(given, AncestorsOf(OrEmpty(t.site), sites), OrEmpty(t.role), i) && given[i].collector == c
  }

  /** Some given rule matches the device. */
  ghost predicate SomeMatches(given: seq<Rule>, sites: seq<Site>, t: Target) {
    exists i :: 0 <= i < |given| && Matches(given[i], AncestorsOf(OrEmpty(t.site), sites), OrEmpty(t.role))
  }

  /** What the given rules, in whatever order, award a device. */
  ghost predicate Awards(given: seq<Rule>, sites: seq<Site>, t: Target, c: Option<string>) {
    match c
    case Some(x) => WinsFor(given, sites, t, x)
    case None => !SomeMatches(given, sites, t)
  }

  /**
    An award comes from a rule for one of the device's ancestor sites and for its role or
    any; and where there is such a rule, something is awarded.
   */
  lemma AwardsFit(given: seq<Rule>, sites: seq<Site>, t: Target, c: Option<string>)
    requires Awards(given, sites, t, c)
    ensures c.Some? <==> exists i :: 0 <= i < |given| && Serves(given[i], sites, t)
    ensures c.Some? ==> exists i :: 0 <= i < |given| && Serves(given[i], sites, t) && given[i].collector == c.value
  {
    var ancestors, role := AncestorsOf(OrEmpty(t.site), sites), OrEmpty(t.role);
    hide AncestorsOf;
    forall i | 0 <= i < |given| ensures Serves(given[i], sites, t) <==> Matches(given[i], ancestors, role) {
    }
    if c.Some? {
      var i: nat :| Wins(given, ancestors, role, i) && given[i].collector == c.value;
      assert Serves(given[i], sites, t);
    }
  }

  /** The rule is for an ancestor of the device's site, and for no role in particular or the device's. */
  ghost predicate Serves(r: Rule, sites: seq<Site>, t: Target) {
    && r.matchSite in AncestorsOf(if t.site.Some? then t.site.value else "", sites)
    && (r.matchRole.None? || r.matchRole == t.role || (t.role.None? && r.matchRole == Some("")))
  }

  /** Going through the sorted rules awards what the given rules award, and nothing else does. */
  lemma ChoiceIsAward(given: seq<Rule>, sites: seq<Site>, t: Target, c: Option<string>)
    ensures Awards(given, sites, t, c) <==> c == Choice(SortByPriority(given), sites, t)
  {
    var ancestors, role := AncestorsOf(OrEmpty(t.site), sites), OrEmpty(t.role);
    hide AncestorsOf, Matches, FirstMatch, SortByPriority;
    SortedChoiceWins(given, ancestors, role);
    var m := FirstMatch(SortByPriority(given), ancestors, role);
    if m.Some? {
      var i: nat :| Wins(given, ancestors, role, i) && m.value == given[i];
      forall j: nat | Wins(given, ancestors, role, j) ensures j == i { WinsUnique(given, ancestors, role, i, j); }
      assert WinsFor(given, sites, t, given[i].collector);
      assert SomeMatches(given, sites, t);
    }
  }
}
