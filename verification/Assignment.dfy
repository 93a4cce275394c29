/** The collector manager: assignment by rules, and reassignment after a collector leaves. */
module Assignment {
  import opened Options
  import opened Ownership
  import opened Sites
  import opened Rules

  type Registry = map<string, Target>

  /** Every unassigned device given what the rules choose for it. */
  function Assigned(reg: Registry, rules: seq<Rule>, sites: seq<Site>): Registry {
    map a | a in reg :: AssignOne(reg[a], rules, sites)
  }

  function AssignOne(t: Target, rules: seq<Rule>, sites: seq<Site>): Target {
    if t.collector.Some? then t else t.(collector := Choice(rules, sites, t))
  }

  /** Every device of collector `id` given what the rules choose for it. */
  function Released(reg: Registry, rules: seq<Rule>, sites: seq<Site>, id: string): Registry {
    map a | a in reg :: ReleaseOne(reg[a], rules, sites, id)
  }

  function ReleaseOne(t: Target, rules: seq<Rule>, sites: seq<Site>, id: string): Target {
    if t.collector == Some(id) then t.(collector := Choice(rules, sites, t)) else t
  }

  /** Assigning twice is assigning once. */
  lemma AssignIsIdempotent(reg: Registry, rules: seq<Rule>, sites: seq<Site>)
    ensures Assigned(Assigned(reg, rules, sites), rules, sites) == Assigned(reg, rules, sites)
  {
    forall a | a in reg
      ensures AssignOne(AssignOne(reg[a], rules, sites), rules, sites) == AssignOne(reg[a], rules, sites)
    {
      ChoiceIgnoresCollector(reg[a], rules, sites, AssignOne(reg[a], rules, sites).collector);
    }
  }

  lemma ChoiceIgnoresCollector(t: Target, rules: seq<Rule>, sites: seq<Site>, c: Option<string>)
    ensures Choice(rules, sites, t.(collector := c)) == Choice(rules, sites, t)
  {
  }

  /** No device with a matching rule stays unassigned. */
  lemma NoMatchStaysUnassigned(reg: Registry, given: seq<Rule>, sites: seq<Site>, a: string, i: nat)
    requires a in reg && i < |given|
    requires Matches(given[i], AncestorsOf(OrEmpty(reg[a].site), sites), OrEmpty(reg[a].role))
    ensures Assigned(reg, SortByPriority(given), sites)[a].collector.Some?
  {
    SortedChoiceWins(given, AncestorsOf(OrEmpty(reg[a].site), sites), OrEmpty(reg[a].role));
  }

  /**
    After a collector leaves, its devices have exactly what the given rules award them,
    and no other device changes. The departing collector is not excluded: a device stays
    with it if and only if the rule that wins for the device names it.
   */
  lemma ReleasedDeviceMayReturn(reg: Registry, given: seq<Rule>, sites: seq<Site>, id: string, a: string)
    requires a in reg
    ensures var after := Released(reg, SortByPriority(given), sites, id);
            && after.Keys == reg.Keys
            && (reg[a].collector != Some(id) ==> after[a] == reg[a])
            && (reg[a].collector == Some(id) ==>
                 && Awards(given, sites, reg[a], after[a].collector)
                 && (after[a].collector == Some(id) <==> WinsFor(given, sites, reg[a], id)))
  {
    ChoiceIsAward(given, sites, reg[a], Choice(SortByPriority(given), sites, reg[a]));
    ChoiceIsAward(given, sites, reg[a], Some(id));
  }

  /** A device with its only rule naming the departing collector goes back to it. */
  lemma DeviceReturnsToDepartingCollector()
    ensures var t := Target(Some("lab"), None, Some("c1"));
            var after := Released(map["r1" := t], SortByPriority([Rule("lab", None, "c1", 5)]), [], "c1");
            after["r1"].collector == Some("c1")
  {
    var rule, t := Rule("lab", None, "c1", 5), Target(Some("lab"), None, Some("c1"));
    assert Wins([rule], AncestorsOf("lab", []), "", 0);
    assert WinsFor([rule], [], t, "c1");
    ReleasedDeviceMayReturn(map["r1" := t], [rule], [], "c1", "r1");
  }

  // ------------------------------------------------------------------- the registry's answers

  /** How the registry answers a call. A write that fails may have changed the device in memory before. */
  datatype Answer = Done | FailedAfterChange | Failed

  type Answers = nat -> Answer

  ghost predicate AllDone(answers: Answers, c: nat, d: nat) {
    forall i :: c <= i < d ==> answers(i).Done?
  }

  /** A device after a write of `c` that was answered with `a`. */
  function Written(t: Target, c: Option<string>, a: Answer): Target {
    if a.Failed? then t else t.(collector := c)
  }

  predicate NeedsWrite(t: Target, rules: seq<Rule>, sites: seq<Site>) {
    t.collector.None? && Choice(rules, sites, t).Some?
  }

  /** The registry, and the number of the next call, after a piece of work. */
  datatype Outcome = Outcome(registry: Registry, calls: nat)

  /** A device that is unassigned and that some rule matches is written. */
  function AssignStep(answers: Answers, c: nat, t: Target, rules: seq<Rule>, sites: seq<Site>): (Target, nat) {
    if NeedsWrite(t, rules, sites) then (Written(t, Choice(rules, sites, t), answers(c)), c + 1) else (t, c)
  }

  /** Going through the devices of `order`. */
  function AssignRun(
    answers: Answers, c: nat, order: seq<string>, reg: Registry, rules: seq<Rule>, sites: seq<Site>): Outcome
    requires forall a :: a in order ==> a in reg
    decreases |order|
  {
    if order == [] then Outcome(reg, c)
    else
      var (t, d) := AssignStep(answers, c, reg[order[0]], rules, sites);
      AssignRun(answers, d, order[1..], reg[order[0] := t], rules, sites)
  }

  /** A device of a departing collector: cleared and, if that went well and a rule matches, written again. */
  function ReleaseStep(answers: Answers, c: nat, t: Target, rules: seq<Rule>, sites: seq<Site>): (Target, nat) {
    var cleared := Written(t, None, answers(c));
    if answers(c).Done? && Choice(rules, sites, t).Some?
    then (Written(cleared, Choice(rules, sites, t), answers(c + 1)), c + 2)
    else (cleared, c + 1)
  }

  /**
    What the answers make of one device: a clearing that is refused leaves it as it was,
    one that fails after the change leaves it without a collector and is not followed up,
    and one that goes well is followed by a write of the rules' choice, if there is one.
   */
  lemma ReleaseFollowsAnswers(answers: Answers, c: nat, t: Target, rules: seq<Rule>, sites: seq<Site>)
    ensures var (t', calls) := ReleaseStep(answers, c, t, rules, sites);
            var choice := Choice(rules, sites, t);
            && t'.site == t.site && t'.role == t.role
            && (calls == c + 2 <==> answers(c) == Done && choice != None) && (calls == c + 1 || calls == c + 2)
            && (answers(c) == Failed ==> t'.collector == t.collector)
            && (answers(c) == FailedAfterChange ==> t'.collector == None)
            && (answers(c) == Done ==> t'.collector == if answers(c + 1) == Failed then None else choice)
  {
    hide Choice;
  }

  /** Going through the devices of `order` after their collector has left. */
  function ReleaseRun(
    answers: Answers, c: nat, order: seq<string>, reg: Registry, rules: seq<Rule>, sites: seq<Site>): Outcome
    requires forall a :: a in order ==> a in reg
    decreases |order|
  {
    if order == [] then Outcome(reg, c)
    else
      var (t, d) := ReleaseStep(answers, c, reg[order[0]], rules, sites);
      ReleaseRun(answers, d, order[1..], reg[order[0] := t], rules, sites)
  }

  /** No call from `c` on and before `d` was refused without effect. */
  ghost predicate NoneRefused(answers: Answers, c: nat, d: nat) {
    forall i :: c <= i < d ==> !answers(i).Failed?
  }

  /**
    Going through the devices leaves each of them as it was or as the rules have it, and
    gives every one of them what the rules choose if and only if no write was refused.
   */
  lemma {:induction false} AssignRunFacts(
    answers: Answers, c: nat, order: seq<string>, reg: Registry, rules: seq<Rule>, sites: seq<Site>)
    requires Distinct(order) && forall a :: a in order ==> a in reg
    ensures var o := AssignRun(answers, c, order, reg, rules, sites);
            && o.registry.Keys == reg.Keys && c <= o.calls
            && (forall a :: a in reg && a !in order ==> o.registry[a] == reg[a])
            && (forall a :: a in order ==> o.registry[a] == reg[a] || o.registry[a] == AssignOne(reg[a], rules, sites))
            && (NoneRefused(answers, c, o.calls) <==>
                forall a :: a in order ==> o.registry[a] == AssignOne(reg[a], rules, sites))
    decreases |order|
  {
    hide Choice;
    if order != [] {
      var a, tail := order[0], order[1..];
      assert a !in tail && forall b :: b in order <==> b == a || b in tail;
      var (t, d) := AssignStep(answers, c, reg[a], rules, sites);
      AssignRunFacts(answers, d, tail, reg[a := t], rules, sites);
      if c < d { NoneRefusedFirst(answers, c, AssignRun(answers, c, order, reg, rules, sites).calls); }
    }
  }

  lemma NoneRefusedFirst(answers: Answers, c: nat, d: nat)
    requires c < d
    ensures NoneRefused(answers, c, d) <==> !answers(c).Failed? && NoneRefused(answers, c + 1, d)
  {
  }

  /**
    Each device of a departing collector ends as what the rules choose, or without a
    collector, or as it was; when every call is answered well it is what they choose.
   */
  lemma {:induction false} ReleaseRunFacts(
    answers: Answers, c: nat, order: seq<string>, reg: Registry, rules: seq<Rule>, sites: seq<Site>)
    requires Distinct(order) && forall a :: a in order ==> a in reg
    ensures var o := ReleaseRun(answers, c, order, reg, rules, sites);
            && o.registry.Keys == reg.Keys && c <= o.calls
            && (forall a :: a in reg && a !in order ==> o.registry[a] == reg[a])
            && (forall a :: a in order ==> MayRelease(reg[a], o.registry[a], rules, sites))
            && (AllDone(answers, c, o.calls) ==>
                forall a :: a in order ==> o.registry[a] == reg[a].(collector := Choice(rules, sites, reg[a])))
    decreases |order|
  {
    hide Choice;
    if order != [] {
      var a, tail := order[0], order[1..];
      assert a !in tail && forall b :: b in order <==> b == a || b in tail;
      var (t, d) := ReleaseStep(answers, c, reg[a], rules, sites);
      ReleaseRunFacts(answers, d, tail, reg[a := t], rules, sites);
    }
  }

  predicate MayRelease(before: Target, after: Target, rules: seq<Rule>, sites: seq<Site>) {
    || after == before || after == before.(collector := None)
    || after == before.(collector := Choice(rules, sites, before))
  }

  class CollectorManager {
    /** The answers of the registry to the calls made, by number. */
    const answers: Answers
    var calls: nat
    var rules: seq<Rule>
    var sites: seq<Site>
    var registry: Registry
    /** The rules as they were given. */
    ghost var given: seq<Rule>

    ghost predicate Valid()
      reads this
    {
      rules == SortByPriority(given)
    }

    constructor (registry: Registry, initialRules: seq<Rule>, answers: Answers)
      ensures Valid() && given == initialRules && sites == [] && this.registry == registry
      ensures this.answers == answers && calls == 0
    {
      rules, given := SortByPriority(initialRules), initialRules;
      sites, calls := [], 0;
      this.registry, this.answers := registry, answers;
    }

    /** Replaces the cached sites; devices are not assigned anew. */
    method SetSites(newSites: seq<Site>)
      requires Valid()
      modifies this`sites
      ensures Valid() && sites == newSites
    {
      sites := newSites;
    }

    /** Replaces the rules and assigns what is unassigned. */
    method SetRules(newRules: seq<Rule>) returns (ghost order: seq<string>)
      modifies this`rules, this`given, this`registry, this`calls
      ensures Valid() && given == newRules
      ensures Reassigned(answers, old(calls), old(registry), Outcome(registry, calls), rules, sites, order)
    {
      rules, given := SortByPriority(newRules), newRules;
      order := ReassignUnassigned();
    }

    /** The collector of the given rule of highest priority that matches, the earliest on ties. */
    method AssignByRules(t: Target) returns (c: Option<string>)
      requires Valid()
      ensures Awards(given, sites, t, c) && c == Choice(rules, sites, t)
    {
      var ancestors := SiteAncestorSet(OrEmpty(t.site), sites);
      var role := OrEmpty(t.role);
      var n := 0;
      ChoiceIsAward(given, sites, t, Choice(rules, sites, t));
      while n < |rules|
        invariant n <= |rules| && FirstMatch(rules, ancestors, role) == FirstMatch(rules[n..], ancestors, role)
      {
        if Matches(rules[n], ancestors, role) {
          return Some(rules[n].collector);
        }
        assert rules[n..][1..] == rules[n + 1..];
        n := n + 1;
      }
      c := None;
    }

    /**
      Writes an assignment. A failed write may have changed the registry: the source
      changes it in memory before it persists.
     */
    method Write(address: string, c: Option<string>) returns (ok: bool)
      requires address in registry
      modifies this`registry, this`calls
      ensures calls == old(calls) + 1 && ok == answers(old(calls)).Done?
      ensures registry == old(registry)[address := Written(old(registry)[address], c, answers(old(calls)))]
    {
      var answer := answers(calls);
      calls := calls + 1;
      if answer.Failed? {
        assert registry == registry[address := registry[address]];
      } else {
        registry := registry[address := registry[address].(collector := c)];
      }
      ok := answer.Done?;
    }

    /** Assigns one device if it is unassigned and some rule matches it. */
    method AssignDevice(a: string, t: Target)
      requires Valid() && a in registry && registry[a] == t
      modifies this`registry, this`calls
      ensures var (t', d) := AssignStep(answers, old(calls), t, rules, sites);
              calls == d && registry == old(registry)[a := t']
    {
      hide SortByPriority, Choice, Awards;
      assert registry == registry[a := t];
      if t.collector.None? {
        var choice := AssignByRules(t);
        if choice.Some? {
          var ok := Write(a, choice);
        }
      }
    }

    /** Clears one device and, if that goes well, assigns it by the rules. */
    method ReleaseDevice(a: string, t: Target)
      requires Valid() && a in registry && registry[a] == t
      modifies this`registry, this`calls
      ensures var (t', d) := ReleaseStep(answers, old(calls), t, rules, sites);
              calls == d && registry == old(registry)[a := t']
    {
      hide SortByPriority, Choice, Awards;
      var ok := Write(a, None);
      if ok {
        var choice := AssignByRules(t);
        if choice.Some? {
          ok := Write(a, choice);
        }
      }
    }

    /** Goes through the listed devices, each as it was when they were listed. */
    method AssignEach(addresses: seq<string>)
      requires Valid() && Distinct(addresses) && forall a :: a in addresses ==> a in registry
      modifies this`registry, this`calls
      ensures Outcome(registry, calls) == AssignRun(answers, old(calls), addresses, old(registry), rules, sites)
    {
      hide SortByPriority, Choice, Awards, Distinct, AssignRun, AssignStep, Written;
      var snapshot := registry;
      assert addresses[0..] == addresses;
      for i := 0 to |addresses|
        invariant registry.Keys == snapshot.Keys
        invariant forall j :: i <= j < |addresses| ==> registry[addresses[j]] == snapshot[addresses[j]]
        invariant AssignRun(answers, old(calls), addresses, snapshot, rules, sites) ==
                  AssignRun(answers, calls, addresses[i..], registry, rules, sites)
      {
        var a := addresses[i];
        Head(addresses, i);
        AssignRunStep(answers, calls, addresses[i..], registry, rules, sites);
        AssignDevice(a, snapshot[a]);
      }
      AssignRunNothing(answers, calls, addresses[|addresses|..], registry, rules, sites);
    }

    /** Assigns every unassigned device that some rule matches, unless the devices cannot be listed. */
    method ReassignUnassigned() returns (ghost order: seq<string>)
      requires Valid()
      modifies this`registry, this`calls
      ensures Reassigned(answers, old(calls), old(registry), Outcome(registry, calls), rules, sites, order)
      ensures answers(old(calls)) != Done ==> registry == old(registry) && calls == old(calls) + 1
    {
      hide SortByPriority, Distinct, AssignRun, Reassigned;
      var answer := answers(calls);
      calls := calls + 1;
      order := [];
      if answer.Done? {
        var addresses := Listing(registry.Keys);
        order := addresses;
        ReassignedFacts(answers, old(calls), order, registry, rules, sites);
        AssignEach(addresses);
      } else {
        NotListed(answers, old(calls), registry, rules, sites, order);
      }
    }

    /** A collector leaves: its devices are cleared and then assigned by the rules, if they can be listed. */
    method UnregisterCollector(id: string) returns (ghost order: seq<string>)
      requires Valid()
      modifies this`registry, this`calls
      ensures ReleasedAll(answers, old(calls), old(registry), Outcome(registry, calls), rules, sites, id, order)
      ensures answers(old(calls)) != Done ==> registry == old(registry) && calls == old(calls) + 1
    {
      hide SortByPriority, Choice, Awards, Distinct, ReleaseRun, ReleaseStep, Written, Released;
      var snapshot, answer := registry, answers(calls);
      calls := calls + 1;
      order := [];
      if answer.Done? {
        var addresses := Listing(set a | a in snapshot && snapshot[a].collector == Some(id));
        order := addresses;
        ghost var c := calls;
        assert addresses[0..] == addresses && forall a :: a in addresses ==> a in snapshot;
        for i := 0 to |addresses|
          invariant registry.Keys == snapshot.Keys
          invariant forall j :: i <= j < |addresses| ==> registry[addresses[j]] == snapshot[addresses[j]]
          invariant ReleaseRun(answers, c, order, snapshot, rules, sites) ==
                    ReleaseRun(answers, calls, addresses[i..], registry, rules, sites)
        {
          var a := addresses[i];
          Head(addresses, i);
          ReleaseRunStep(answers, calls, addresses[i..], registry, rules, sites);
          ReleaseDevice(a, snapshot[a]);
        }
        ReleaseRunNothing(answers, calls, addresses[|addresses|..], registry, rules, sites);
        ReleasedFacts(answers, c, order, snapshot, rules, sites, id);
      }
    }
  }

  lemma Head(order: seq<string>, i: nat)
    requires i < |order| && Distinct(order)
    ensures order[i..][0] == order[i] && order[i..][1..] == order[i + 1..]
    ensures forall j :: i < j < |order| ==> order[j] != order[i]
  {
  }

  lemma AssignRunNothing(
    answers: Answers, c: nat, order: seq<string>, reg: Registry, rules: seq<Rule>, sites: seq<Site>)
    requires order == []
    ensures AssignRun(answers, c, order, reg, rules, sites) == Outcome(reg, c)
  {
  }

  lemma AssignRunStep(answers: Answers, c: nat, order: seq<string>, reg: Registry, rules: seq<Rule>, sites: seq<Site>)
    requires order != [] && forall a :: a in order ==> a in reg
    ensures var (t, d) := AssignStep(answers, c, reg[order[0]], rules, sites);
            AssignRun(answers, c, order, reg, rules, sites) ==
            AssignRun(answers, d, order[1..], reg[order[0] := t], rules, sites)
  {
  }

  lemma ReleaseRunNothing(
    answers: Answers, c: nat, order: seq<string>, reg: Registry, rules: seq<Rule>, sites: seq<Site>)
    requires order == []
    ensures ReleaseRun(answers, c, order, reg, rules, sites) == Outcome(reg, c)
  {
  }

  lemma ReleaseRunStep(answers: Answers, c: nat, order: seq<string>, reg: Registry, rules: seq<Rule>, sites: seq<Site>)
    requires order != [] && forall a :: a in order ==> a in reg
    ensures var (t, d) := ReleaseStep(answers, c, reg[order[0]], rules, sites);
            ReleaseRun(answers, c, order, reg, rules, sites) ==
            ReleaseRun(answers, d, order[1..], reg[order[0] := t], rules, sites)
  {
  }

  /**
    Reassignment, whose first call lists the devices: nothing happens when that fails;
    else the devices are gone through in `order`, and the result is the assignment that
    the rules determine if and only if no write was refused.
   */
  ghost predicate Reassigned(
    answers: Answers, c: nat, before: Registry, after: Outcome, rules: seq<Rule>, sites: seq<Site>, order: seq<string>)
  {
    if !answers(c).Done? then after == Outcome(before, c + 1)
    else
      && Distinct(order) && (forall a :: a in order <==> a in before)
      && after == AssignRun(answers, c + 1, order, before, rules, sites)
      && (after.registry == Assigned(before, rules, sites) <==> NoneRefused(answers, c + 1, after.calls))
  }

  lemma NotListed(
    answers: Answers, c: nat, before: Registry, rules: seq<Rule>, sites: seq<Site>, order: seq<string>)
    requires !answers(c).Done?
    ensures Reassigned(answers, c, before, Outcome(before, c + 1), rules, sites, order)
  {
  }

  lemma ReassignedFacts(
    answers: Answers, c: nat, order: seq<string>, reg: Registry, rules: seq<Rule>, sites: seq<Site>)
    requires answers(c).Done? && Distinct(order) && forall a :: a in order <==> a in reg
    ensures var o := AssignRun(answers, c + 1, order, reg, rules, sites);
            Reassigned(answers, c, reg, o, rules, sites, order)
  {
    hide AssignRun, AssignOne;
    AssignRunFacts(answers, c + 1, order, reg, rules, sites);
    var o := AssignRun(answers, c + 1, order, reg, rules, sites);
    assert Assigned(reg, rules, sites).Keys == reg.Keys;
    assert forall a :: a in reg ==> Assigned(reg, rules, sites)[a] == AssignOne(reg[a], rules, sites);
  }

  /**
    The same when collector `id` leaves: its devices are gone through in `order`, and when
    every call is answered well each has what the rules choose. No other device changes.
   */
  ghost predicate ReleasedAll(
    answers: Answers, c: nat, before: Registry, after: Outcome, rules: seq<Rule>, sites: seq<Site>, id: string,
    order: seq<string>)
  {
    if !answers(c).Done? then after == Outcome(before, c + 1)
    else
      && Distinct(order) && (forall a :: a in order <==> a in before && before[a].collector == Some(id))
      && after == ReleaseRun(answers, c + 1, order, before, rules, sites)
      && after.registry.Keys == before.Keys
      && (forall a :: a in before && a !in order ==> after.registry[a] == before[a])
      && (AllDone(answers, c + 1, after.calls) ==> after.registry == Released(before, rules, sites, id))
  }

  lemma ReleasedFacts(
    answers: Answers, c: nat, order: seq<string>, reg: Registry, rules: seq<Rule>, sites: seq<Site>, id: string)
    requires Distinct(order) && forall a :: a in order <==> a in reg && reg[a].collector == Some(id)
    ensures var o := ReleaseRun(answers, c, order, reg, rules, sites);
            && o.registry.Keys == reg.Keys && (forall a :: a in reg && a !in order ==> o.registry[a] == reg[a])
            && (AllDone(answers, c, o.calls) ==> o.registry == Released(reg, rules, sites, id))
  {
    hide ReleaseRun, Choice;
    ReleaseRunFacts(answers, c, order, reg, rules, sites);
    var o := ReleaseRun(answers, c, order, reg, rules, sites);
    if AllDone(answers, c, o.calls) {
      forall a | a in reg ensures o.registry[a] == ReleaseOne(reg[a], rules, sites, id) {}
    }
  }

  /** A registry that answers every call well leaves no device unassigned that a given rule matches. */
  lemma NothingMatchedStaysUnassigned(
    answers: Answers, c: nat, before: Registry, after: Outcome, given: seq<Rule>, sites: seq<Site>, order: seq<string>,
    a: string)
    requires Reassigned(answers, c, before, after, SortByPriority(given), sites, order)
    requires AllDone(answers, c, after.calls) && c < after.calls && a in before && SomeMatches(given, sites, before[a])
    ensures a in after.registry && after.registry[a].collector.Some?
  {
    var i :| 0 <= i < |given| &&
             Matches(given[i], AncestorsOf(OrEmpty(before[a].site), sites), OrEmpty(before[a].role));
    NoMatchStaysUnassigned(before, given, sites, a, i);
  }
}
