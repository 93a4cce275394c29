/** Items recorded one after another, each taken by one numbered owner. */
module Ownership {

  ghost predicate Distinct<T(!new)>(xs: seq<T>) {
    forall i, j :: 0 <= i < j < |xs| ==> xs[i] != xs[j]
  }

  ghost function SetOf<T>(xs: seq<T>): set<T> {
    set x | x in xs
  }

  lemma PrefixStep<T(!new)>(xs: seq<T>, i: nat)
    requires Distinct(xs) && i < |xs|
    ensures xs[i] !in SetOf(xs[..i]) && SetOf(xs[..i + 1]) == SetOf(xs[..i]) + {xs[i]}
    ensures xs[i..][0] == xs[i] && xs[i..][1..] == xs[i + 1..]
  {
  }

  lemma WholePrefix<T>(xs: seq<T>)
    ensures xs[0..] == xs && xs[..|xs|] == xs && xs[|xs|..] == [] && SetOf(xs[..0]) == {}
  {
  }

  /** The items taken by owner `n`, in order. */
  ghost function Members<T>(log: seq<T>, owner: seq<nat>, n: nat): seq<T>
    requires |log| == |owner|
  {
    if log == [] then []
    else
      var rest := Members(log[..|log| - 1], owner[..|log| - 1], n);
      if owner[|log| - 1] == n then rest + [log[|log| - 1]] else rest
  }

  lemma MembersExtend<T>(log: seq<T>, owner: seq<nat>, n: nat, x: T, m: nat)
    requires |log| == |owner|
    ensures Members(log + [x], owner + [m], n) ==
            if n == m then Members(log, owner, n) + [x] else Members(log, owner, n)
  {
    assert (log + [x])[..|log|] == log;
    assert (owner + [m])[..|log|] == owner;
  }

  lemma {:induction false} NoMembers<T>(log: seq<T>, owner: seq<nat>, n: nat)
    requires |log| == |owner|
    ensures Members(log, owner, n) == [] <==> n !in owner
  {
    if log != [] {
      NoMembers(log[..|log| - 1], owner[..|log| - 1], n);
      assert owner == owner[..|log| - 1] + [owner[|log| - 1]];
    }
  }

  /** The items of owner `n` are exactly those that it took. */
  lemma {:induction false} MembersIff<T(!new)>(log: seq<T>, owner: seq<nat>, n: nat, x: T)
    requires |log| == |owner|
    ensures x in Members(log, owner, n) <==> exists i :: 0 <= i < |log| && owner[i] == n && log[i] == x
  {
    if log != [] { MembersIff(log[..|log| - 1], owner[..|log| - 1], n, x); }
  }

  lemma {:induction false} FirstMember<T>(log: seq<T>, owner: seq<nat>, n: nat, i: nat)
    requires |log| == |owner| && i < |log| && owner[i] == n && n !in owner[..i]
    ensures Members(log, owner, n) != [] && Members(log, owner, n)[0] == log[i]
  {
    var owner' := owner[..|log| - 1];
    if i < |log| - 1 {
      assert owner'[..i] == owner[..i];
      FirstMember(log[..|log| - 1], owner', n, i);
    } else {
      NoMembers(log[..i], owner', n);
    }
  }

  /** The elements of a set, each once, in some order. */
  method Listing<T(==,!new)>(xs: set<T>) returns (order: seq<T>)
    ensures Distinct(order) && |order| == |xs| && forall x :: x in order <==> x in xs
  {
    order := [];
    var todo := xs;
    while todo != {}
      invariant todo <= xs && Distinct(order) && |order| + |todo| == |xs|
      invariant forall x :: x in order <==> x in xs - todo
      decreases todo
    {
      var x :| x in todo;
      assert x !in order;
      order, todo := order + [x], todo - {x};
    }
  }
}
