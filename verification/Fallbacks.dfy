/** Which paths of a profile template a device supports, and which fallbacks stand in for missing primaries. */
module Fallbacks {
  import opened Options

  datatype PathTemplate = PathTemplate(
    path: string, origin: string, mode: string, sampleIntervalNs: nat, rationale: string, optional: bool,
    fallbackFor: Option<string>, vendorOnly: seq<string>, requiredModels: seq<string>, requiredAnyModels: seq<string>)

  datatype SubscriptionPath = SubscriptionPath(
    path: string, origin: string, mode: string, sampleIntervalNs: nat, rationale: string, optional: bool)

  datatype Reason =
    | WrongVendor
    | MissingAll(models: seq<string>)
    | MissingAny
    | PrimaryAvailable(primary: string)

  datatype DroppedPath = DroppedPath(path: string, optional: bool, reason: Reason)

  /** What a device advertises. */
  datatype Device = Device(vendor: string, models: seq<string>)

  function Lower(c: char): char {
    if 'A' <= c <= 'Z' then (c as int + 32) as char else c
  }

  predicate EqIgnoreCase(a: string, b: string) {
    |a| == |b| && forall i :: 0 <= i < |a| ==> Lower(a[i]) == Lower(b[i])
  }

  predicate OccursAt(s: string, t: string, i: nat) {
    i + |t| <= |s| && s[i..i + |t|] == t
  }

  predicate Contains(s: string, t: string) {
    exists i :: 0 <= i <= |s| && OccursAt(s, t, i)
  }

  predicate HasModel(d: Device, required: string) {
    exists i :: 0 <= i < |d.models| && (d.models[i] == required || Contains(d.models[i], required))
  }

  /** Text `t` occurs in `s` exactly when `s` is `t` with something before and something after. */
  lemma ContainsIff(s: string, t: string)
    ensures Contains(s, t) <==> exists pre, post :: s == pre + t + post
  {
    if i :| 0 <= i <= |s| && OccursAt(s, t, i) {
      assert s == s[..i] + t + s[i + |t|..];
    }
    if pre, post :| s == pre + t + post {
      assert OccursAt(s, t, |pre|);
    }
  }

  /** A device has a model exactly when one that it advertises is it, with anything before and after. */
  lemma HasModelIff(d: Device, required: string)
    ensures HasModel(d, required) <==>
            exists i, pre, post :: 0 <= i < |d.models| && d.models[i] == pre + required + post
    ensures required in d.models ==> HasModel(d, required)
    ensures d.models == [] ==> !HasModel(d, required)
  {
    if i :| 0 <= i < |d.models| && (d.models[i] == required || Contains(d.models[i], required)) {
      assert required == "" + required + "";
      ContainsIff(d.models[i], required);
      var pre, post :| d.models[i] == pre + required + post;
    }
    if i, pre, post :| 0 <= i < |d.models| && d.models[i] == pre + required + post {
      ContainsIff(d.models[i], required);
    }
  }

  /** Character codes that differ only in case: an upper-case letter is 32 before its lower-case one. */
  predicate SameLetter(a: int, b: int) {
    a == b || (65 <= a <= 90 && b == a + 32) || (65 <= b <= 90 && a == b + 32)
  }

  /** Vendors are compared letter by letter, ignoring the case of ASCII letters only. */
  lemma EqIgnoreCaseIff(a: string, b: string)
    ensures EqIgnoreCase(a, b) <==>
            |a| == |b| && forall i :: 0 <= i < |a| ==> SameLetter(a[i] as int, b[i] as int)
  {
    forall i | 0 <= i < |a| && i < |b|
      ensures Lower(a[i]) == Lower(b[i]) <==> SameLetter(a[i] as int, b[i] as int)
    {
      LowerIff(a[i], b[i]);
    }
  }

  lemma LowerIff(a: char, b: char)
    ensures Lower(a) == Lower(b) <==> SameLetter(a as int, b as int)
  {
    assert Lower(a) as int == if 65 <= a as int <= 90 then a as int + 32 else a as int;
    assert Lower(b) as int == if 65 <= b as int <= 90 then b as int + 32 else b as int;
  }

  function Missing(d: Device, required: seq<string>): seq<string> {
    if required == [] then []
    else (if HasModel(d, required[0]) then [] else [required[0]]) + Missing(d, required[1..])
  }

  function MissingRequirements(d: Device, p: PathTemplate): Option<Reason> {
    if p.vendorOnly != [] && !exists i :: 0 <= i < |p.vendorOnly| && EqIgnoreCase(p.vendorOnly[i], d.vendor)
    then Some(WrongVendor)
    else
      var missing := Missing(d, p.requiredModels);
      if missing != [] then Some(MissingAll(missing))
      else if p.requiredAnyModels != [] &&
              !exists i :: 0 <= i < |p.requiredAnyModels| && HasModel(d, p.requiredAnyModels[i])
      then Some(MissingAny)
      else None
  }

  /** The device meets every requirement of the path. */
  predicate Meets(d: Device, p: PathTemplate) {
    && (p.vendorOnly == [] || exists i :: 0 <= i < |p.vendorOnly| && EqIgnoreCase(p.vendorOnly[i], d.vendor))
    && (forall i :: 0 <= i < |p.requiredModels| ==> HasModel(d, p.requiredModels[i]))
    && (p.requiredAnyModels == [] || exists i :: 0 <= i < |p.requiredAnyModels| && HasModel(d, p.requiredAnyModels[i]))
  }

  lemma {:induction false} NothingMissing(d: Device, required: seq<string>)
    ensures Missing(d, required) == [] <==> forall i :: 0 <= i < |required| ==> HasModel(d, required[i])
  {
    if required != [] {
      NothingMissing(d, required[1..]);
      assert forall i :: 0 < i < |required| ==> required[i] == required[1..][i - 1];
    }
  }

  lemma NoneMissingMeansMet(d: Device, p: PathTemplate)
    ensures MissingRequirements(d, p).None? <==> Meets(d, p)
  {
    NothingMissing(d, p.requiredModels);
  }

  /** The missing models are the required ones that the device lacks, in the order they are required. */
  lemma {:induction false} MissingConcatenates(d: Device, a: seq<string>, b: seq<string>, m: string)
    ensures Missing(d, []) == [] && Missing(d, [m]) == if HasModel(d, m) then [] else [m]
    ensures Missing(d, a + b) == Missing(d, a) + Missing(d, b)
  {
    hide HasModel;
    assert [m][1..] == [];
    if a == [] {
      assert a + b == b;
    } else {
      MissingConcatenates(d, a[1..], b, m);
      assert (a + b)[1..] == a[1..] + b;
    }
  }

  /** Why a path is not supported: the first requirement that fails, of vendor, all models and any model. */
  lemma ReasonIff(d: Device, p: PathTemplate)
    ensures MissingRequirements(d, p) == Some(WrongVendor) <==>
            p.vendorOnly != [] && forall i :: 0 <= i < |p.vendorOnly| ==> !EqIgnoreCase(p.vendorOnly[i], d.vendor)
    ensures forall ms :: MissingRequirements(d, p) == Some(MissingAll(ms)) ==> ms == Missing(d, p.requiredModels) != []
    ensures MissingRequirements(d, p) == Some(MissingAny) ==>
              && p.requiredAnyModels != []
              && (forall i :: 0 <= i < |p.requiredModels| ==> HasModel(d, p.requiredModels[i]))
              && (forall i :: 0 <= i < |p.requiredAnyModels| ==> !HasModel(d, p.requiredAnyModels[i]))
    ensures MissingRequirements(d, p).Some? ==> !MissingRequirements(d, p).value.PrimaryAvailable?
  {
    NothingMissing(d, p.requiredModels);
  }

  function Subscription(p: PathTemplate): SubscriptionPath {
    SubscriptionPath(p.path, p.origin, p.mode, p.sampleIntervalNs, p.rationale, p.optional)
  }

  // ------------------------------------------------------------------ the selection

  ghost predicate IsEligible(d: Device, ps: seq<PathTemplate>, name: string) {
    exists i :: 0 <= i < |ps| && ps[i].path == name && Meets(d, ps[i])
  }

  /** A path is selected when it is supported and is no fallback for an eligible primary. */
  ghost predicate IsSelected(d: Device, ps: seq<PathTemplate>, p: PathTemplate) {
    Meets(d, p) && (p.fallbackFor.None? || !IsEligible(d, ps, p.fallbackFor.value))
  }

  function Immediate(d: Device, ps: seq<PathTemplate>): seq<SubscriptionPath> {
    if ps == [] then []
    else
      var rest := Immediate(d, ps[..|ps| - 1]);
      var p := ps[|ps| - 1];
      if MissingRequirements(d, p).None? && p.fallbackFor.None? then rest + [Subscription(p)] else rest
  }

  function Candidates(d: Device, ps: seq<PathTemplate>): seq<PathTemplate> {
    if ps == [] then []
    else
      var rest := Candidates(d, ps[..|ps| - 1]);
      var p := ps[|ps| - 1];
      if MissingRequirements(d, p).None? && p.fallbackFor.Some? then rest + [p] else rest
  }

  function Unmet(d: Device, ps: seq<PathTemplate>): seq<DroppedPath> {
    if ps == [] then []
    else
      var rest := Unmet(d, ps[..|ps| - 1]);
      var p := ps[|ps| - 1];
      match MissingRequirements(d, p)
      case None => rest
      case Some(reason) => rest + [DroppedPath(p.path, p.optional, reason)]
  }

  function Chosen(eligible: set<string>, cs: seq<PathTemplate>): seq<SubscriptionPath>
    requires forall i :: 0 <= i < |cs| ==> cs[i].fallbackFor.Some?
  {
    if cs == [] then []
    else
      var rest := Chosen(eligible, cs[..|cs| - 1]);
      var p := cs[|cs| - 1];
      if p.fallbackFor.value in eligible then rest else rest + [Subscription(p)]
  }

  function Shadowed(eligible: set<string>, cs: seq<PathTemplate>): seq<DroppedPath>
    requires forall i :: 0 <= i < |cs| ==> cs[i].fallbackFor.Some?
  {
    if cs == [] then []
    else
      var rest := Shadowed(eligible, cs[..|cs| - 1]);
      var p := cs[|cs| - 1];
      var primary := p.fallbackFor.value;
      if primary in eligible then rest + [DroppedPath(p.path, p.optional, PrimaryAvailable(primary))] else rest
  }

  lemma {:induction false} CandidateFacts(d: Device, ps: seq<PathTemplate>)
    ensures forall i :: 0 <= i < |Candidates(d, ps)| ==> Candidates(d, ps)[i].fallbackFor.Some?
    ensures |Immediate(d, ps)| + |Candidates(d, ps)| + |Unmet(d, ps)| == |ps|
  {
    if ps != [] { CandidateFacts(d, ps[..|ps| - 1]); }
  }

  /** The three parts of the template keep its order. */
  lemma {:induction false} ClassesConcatenate(d: Device, a: seq<PathTemplate>, b: seq<PathTemplate>)
    ensures Immediate(d, a + b) == Immediate(d, a) + Immediate(d, b)
    ensures Candidates(d, a + b) == Candidates(d, a) + Candidates(d, b)
    ensures Unmet(d, a + b) == Unmet(d, a) + Unmet(d, b)
  {
    hide MissingRequirements;
    if b == [] {
      assert a + b == a;
    } else {
      ClassesConcatenate(d, a, b[..|b| - 1]);
      assert (a + b)[..|a + b| - 1] == a + b[..|b| - 1];
    }
  }

  lemma NothingChosen(eligible: set<string>)
    ensures Chosen(eligible, []) == [] && Shadowed(eligible, []) == []
  {
  }

  lemma ChosenExtends(eligible: set<string>, cs: seq<PathTemplate>, n: nat)
    requires n < |cs| && forall i :: 0 <= i < |cs| ==> cs[i].fallbackFor.Some?
    ensures var p, primary := cs[n], cs[n].fallbackFor.value;
            var drop := DroppedPath(p.path, p.optional, PrimaryAvailable(primary));
            && Chosen(eligible, cs[..n + 1]) ==
               Chosen(eligible, cs[..n]) + (if primary in eligible then [] else [Subscription(p)])
            && Shadowed(eligible, cs[..n + 1]) ==
               Shadowed(eligible, cs[..n]) + (if primary in eligible then [drop] else [])
  {
    assert cs[..n + 1][..n] == cs[..n];
  }

  function PathsOf(ss: seq<SubscriptionPath>): set<string> {
    set i | 0 <= i < |ss| :: ss[i].path
  }

  lemma {:induction false} ChosenOrShadowed(eligible: set<string>, cs: seq<PathTemplate>)
    requires forall i :: 0 <= i < |cs| ==> cs[i].fallbackFor.Some?
    ensures |Chosen(eligible, cs)| + |Shadowed(eligible, cs)| == |cs|
  {
    if cs != [] { ChosenOrShadowed(eligible, cs[..|cs| - 1]); }
  }

  function EligibleNames(d: Device, ps: seq<PathTemplate>): (names: set<string>)
    ensures forall name :: name in names <==> IsEligible(d, ps, name)
  {
    EligibleNamesFacts(d, ps);
    set i | 0 <= i < |ps| && MissingRequirements(d, ps[i]).None? :: ps[i].path
  }

  lemma EligibleNamesFacts(d: Device, ps: seq<PathTemplate>)
    ensures forall name ::
              (exists i :: 0 <= i < |ps| && MissingRequirements(d, ps[i]).None? && name == ps[i].path) <==>
              IsEligible(d, ps, name)
  {
    forall i | 0 <= i < |ps| ensures MissingRequirements(d, ps[i]).None? <==> Meets(d, ps[i]) {
      NoneMissingMeansMet(d, ps[i]);
    }
  }

  /** Sorts the template paths into subscriptions, fallback candidates and unmet ones. */
  method Classify(d: Device, ps: seq<PathTemplate>)
    returns (
      immediate: seq<SubscriptionPath>, candidates: seq<PathTemplate>, dropped: seq<DroppedPath>, eligible: set<string>)
    ensures immediate == Immediate(d, ps) && candidates == Candidates(d, ps) && dropped == Unmet(d, ps)
    ensures eligible == EligibleNames(d, ps)
  {
    hide MissingRequirements, Subscription, Meets;
    dropped, immediate, candidates, eligible := [], [], [], {};
    for n := 0 to |ps|
      invariant immediate == Immediate(d, ps[..n]) && candidates == Candidates(d, ps[..n])
      invariant dropped == Unmet(d, ps[..n])
      invariant eligible == set i | 0 <= i < n && MissingRequirements(d, ps[i]).None? :: ps[i].path
    {
      var p := ps[n];
      assert ps[..n + 1][..n] == ps[..n];
      match MissingRequirements(d, p)
      case None =>
        eligible := eligible + {p.path};
        if p.fallbackFor.Some? {
          candidates := candidates + [p];
        } else {
          immediate := immediate + [Subscription(p)];
        }
      case Some(reason) =>
        dropped := dropped + [DroppedPath(p.path, p.optional, reason)];
    }
    assert ps[..|ps|] == ps;
  }

  /**
    Selects the supported paths of a template. The three parts of the source's result:
    the subscriptions, what was dropped and why, and the number of template paths.
   */
  method SupportedTemplatePaths(d: Device, ps: seq<PathTemplate>)
    returns (selected: seq<SubscriptionPath>, dropped: seq<DroppedPath>, total: nat)
    ensures forall i :: 0 <= i < |Candidates(d, ps)| ==> Candidates(d, ps)[i].fallbackFor.Some?
    ensures selected == Immediate(d, ps) + Chosen(EligibleNames(d, ps), Candidates(d, ps))
    ensures dropped == Unmet(d, ps) + Shadowed(EligibleNames(d, ps), Candidates(d, ps))
    ensures total == |ps| == |selected| + |dropped|
  {
    hide MissingRequirements, Subscription, Meets, Immediate, Candidates, Unmet, Chosen, Shadowed, IsEligible;
    CandidateFacts(d, ps);
    SelectedAreEligible(d, ps);
    ChosenOrShadowed(EligibleNames(d, ps), Candidates(d, ps));
    var candidates, eligible;
    selected, candidates, dropped, eligible := Classify(d, ps);
    hide EligibleNames;
    var chosen := PathsOf(selected);
    NothingChosen(eligible);
    for n := 0 to |candidates|
      invariant chosen <= eligible
      invariant selected == Immediate(d, ps) + Chosen(eligible, candidates[..n])
      invariant dropped == Unmet(d, ps) + Shadowed(eligible, candidates[..n])
    {
      var p := candidates[n];
      ChosenExtends(eligible, candidates, n);
      var primary := p.fallbackFor.value;
      if primary in eligible || primary in chosen {
        dropped := dropped + [DroppedPath(p.path, p.optional, PrimaryAvailable(primary))];
      } else {
        chosen := chosen + {p.path};
        selected := selected + [Subscription(p)];
      }
    }
    assert candidates[..|candidates|] == candidates;
    total := |ps|;
  }

  /** Only eligible paths are ever selected. */
  lemma {:induction false} SelectedAreEligible(d: Device, ps: seq<PathTemplate>)
    ensures forall i :: 0 <= i < |Immediate(d, ps)| ==> IsEligible(d, ps, Immediate(d, ps)[i].path)
    ensures forall i :: 0 <= i < |Candidates(d, ps)| ==> IsEligible(d, ps, Candidates(d, ps)[i].path)
  {
    if ps != [] {
      var ps' := ps[..|ps| - 1];
      var p := ps[|ps| - 1];
      SelectedAreEligible(d, ps');
      NoneMissingMeansMet(d, p);
      forall name | IsEligible(d, ps', name) ensures IsEligible(d, ps, name) {
        var i :| 0 <= i < |ps'| && ps'[i].path == name && Meets(d, ps'[i]);
        assert ps[i] == ps'[i];
      }
    }
  }
}
