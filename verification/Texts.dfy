/** Searching and cutting texts. */
module Texts {

  /** The position of the first `c` in `s`, or the length of `s` when there is none. */
  function Find(s: string, c: char): (n: nat)
    ensures n <= |s|
    ensures c !in s[..n]
    ensures n < |s| ==> s[n] == c
  {
    if s == "" || s[0] == c then 0
    else
      var n := 1 + Find(s[1..], c);
      assert s[..n] == [s[0]] + s[1..][..n - 1];
      n
  }

  lemma {:induction false} FindFirst(a: string, c: char, x: string)
    requires c !in a
    ensures Find(a + [c] + x, c) == |a|
  {
    if a == "" {
      assert (a + [c] + x)[0] == c;
    } else {
      FindFirst(a[1..], c, x);
      assert (a + [c] + x)[1..] == a[1..] + [c] + x;
    }
  }

  lemma FindNone(s: string, c: char)
    ensures Find(s, c) == |s| <==> c !in s
  {
    if Find(s, c) == |s| { assert s[..|s|] == s; }
  }

  /** Two texts cut at the first `c` agree piece by piece. */
  lemma CutUnique(a: string, b: string, c: char, x: string, y: string)
    requires c !in a && c !in b && a + [c] + x == b + [c] + y
    ensures a == b && x == y
  {
    FindFirst(a, c, x);
    FindFirst(b, c, y);
    assert a == (a + [c] + x)[..|a|] && b == (b + [c] + y)[..|b|];
    assert x == (a + [c] + x)[|a| + 1..] && y == (b + [c] + y)[|b| + 1..];
  }

  // ------------------------------------------------------------------- splitting

  /** The pieces of `s` between occurrences of `c`. */
  function Split(s: string, c: char): (parts: seq<string>)
    ensures parts != []
    decreases |s|
  {
    var n := Find(s, c);
    if n == |s| then [s] else [s[..n]] + Split(s[n + 1..], c)
  }

  function Join(parts: seq<string>, c: char): string {
    if parts == [] then "" else if |parts| == 1 then parts[0] else parts[0] + [c] + Join(parts[1..], c)
  }

  ghost predicate AllFree(parts: seq<string>, c: char) {
    forall i :: 0 <= i < |parts| ==> c !in parts[i]
  }

  lemma {:induction false} SplitJoin(parts: seq<string>, c: char)
    requires parts != [] && AllFree(parts, c)
    ensures Split(Join(parts, c), c) == parts
  {
    if |parts| == 1 {
      FindNone(parts[0], c);
    } else {
      var rest := Join(parts[1..], c);
      SplitJoin(parts[1..], c);
      FindFirst(parts[0], c, rest);
      var s := parts[0] + [c] + rest;
      assert s[..|parts[0]|] == parts[0] && s[|parts[0]| + 1..] == rest;
    }
  }

  lemma {:induction false} SplitFree(s: string, c: char)
    ensures AllFree(Split(s, c), c)
    decreases |s|
  {
    var n := Find(s, c);
    if n == |s| {
      FindNone(s, c);
    } else {
      SplitFree(s[n + 1..], c);
    }
  }

  lemma {:induction false} SplitMembers(s: string, c: char, i: nat, x: char)
    requires i < |Split(s, c)| && x in Split(s, c)[i]
    ensures x in s
    decreases |s|
  {
    var n := Find(s, c);
    if n < |s| && i > 0 {
      SplitMembers(s[n + 1..], c, i - 1, x);
    }
  }
}
