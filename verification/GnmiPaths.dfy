/**
  The gNMI path parser (paths as in section 2.2.2 of the gNMI specification), a printer
  for it, and exactly which paths survive the round trip.
 */
module GnmiPaths {
  import opened Options
  import opened Texts

  datatype Elem = Elem(name: string, keys: map<string, string>)

  // ------------------------------------------------------------------- parsing

  /** The key map of a bracket's content: pieces without `=` are skipped, later pairs win. */
  function PairsOf(kvs: seq<string>): map<string, string> {
    if kvs == [] then map[]
    else
      var rest := PairsOf(kvs[..|kvs| - 1]);
      var kv := kvs[|kvs| - 1];
      var eq := Find(kv, '=');
      if eq == |kv| then rest else rest[kv[..eq] := kv[eq + 1..]]
  }

  /** The loop of the parser over the pieces of a bracket. */
  method ParsePairs(kvs: seq<string>) returns (keys: map<string, string>)
    ensures keys == PairsOf(kvs)
  {
    keys := map[];
    for n := 0 to |kvs|
      invariant keys == PairsOf(kvs[..n])
    {
      assert kvs[..n + 1][..n] == kvs[..n];
      var eq := Find(kvs[n], '=');
      if eq < |kvs[n]| {
        keys := keys[kvs[n][..eq] := kvs[n][eq + 1..]];
      }
    }
    assert kvs[..|kvs|] == kvs;
  }

  /**
    One segment. The source slices off the last byte of a segment with a bracket: that
    panics when the bracket is itself last, or when the last character takes several bytes.
   */
  function ParseSegment(seg: string): Option<Elem> {
    var b := Find(seg, '[');
    if b == |seg| then Some(Elem(seg, map[]))
    else if b == |seg| - 1 || seg[|seg| - 1] >= 128 as char then None
    else Some(Elem(seg[..b], PairsOf(Split(seg[b + 1..|seg| - 1], ','))))
  }

  function ParseSegments(segs: seq<string>): Option<seq<Elem>> {
    if segs == [] then Some([])
    else if segs[0] == "" then ParseSegments(segs[1..])
    else
      match (ParseSegment(segs[0]), ParseSegments(segs[1..]))
      case (Some(e), Some(es)) => Some([e] + es)
      case _ => None
  }

  /** Parses a path; `None` stands for the source's panic. */
  function ParsePath(s: string): Option<seq<Elem>> {
    ParseSegments(Split(s, '/'))
  }

  /** The piece gives key `k` a value: the key stands before the first `=`. */
  predicate Assigns(kv: string, k: string) {
    '=' !in k && |k| < |kv| && kv[..|k|] == k && kv[|k|] == '='
  }

  lemma AssignsIff(kv: string, k: string)
    ensures Assigns(kv, k) <==> Find(kv, '=') < |kv| && kv[..Find(kv, '=')] == k
  {
    hide Find;
    var n := Find(kv, '=');
    if Assigns(kv, k) {
      assert kv == k + ['='] + kv[|k| + 1..];
      FindFirst(k, '=', kv[|k| + 1..]);
    }
  }

  /** The keys are those that some piece gives a value. */
  lemma {:induction false} PairsIff(kvs: seq<string>, k: string)
    ensures k in PairsOf(kvs) <==> exists i :: 0 <= i < |kvs| && Assigns(kvs[i], k)
  {
    hide Assigns;
    if kvs != [] {
      var kvs' := kvs[..|kvs| - 1];
      PairsIff(kvs', k);
      AssignsIff(kvs[|kvs| - 1], k);
      if i :| 0 <= i < |kvs| && Assigns(kvs[i], k) && i < |kvs'| { assert Assigns(kvs'[i], k); }
      if i :| 0 <= i < |kvs'| && Assigns(kvs'[i], k) { assert Assigns(kvs[i], k); }
    }
  }

  /** The last piece that gives a key a value decides it. */
  lemma {:induction false} LastPairWins(kvs: seq<string>, k: string, i: nat)
    requires i < |kvs| && Assigns(kvs[i], k) && forall j :: i < j < |kvs| ==> !Assigns(kvs[j], k)
    ensures k in PairsOf(kvs) && PairsOf(kvs)[k] == kvs[i][|k| + 1..]
  {
    AssignsIff(kvs[|kvs| - 1], k);
    if i < |kvs| - 1 { LastPairWins(kvs[..|kvs| - 1], k, i); }
  }

  /** The parser panics on this segment: its only bracket is last, or a wide character is sliced after a bracket. */
  ghost predicate IsFatal(seg: string) {
    '[' in seg && (seg[|seg| - 1] >= 128 as char || (seg[|seg| - 1] == '[' && '[' !in seg[..|seg| - 1]))
  }

  lemma FatalSegment(seg: string)
    ensures ParseSegment(seg).None? <==> IsFatal(seg)
  {
    FindNone(seg, '[');
    var b := Find(seg, '[');
    if b < |seg| - 1 { assert seg[..|seg| - 1][b] == '['; }
  }

  /** Parsing panics if and only if one of the segments between slashes is fatal. */
  lemma {:induction false} PanicsIff(segs: seq<string>)
    ensures ParseSegments(segs).None? <==> exists i :: 0 <= i < |segs| && IsFatal(segs[i])
  {
    hide ParseSegment;
    if segs != [] {
      PanicsIff(segs[1..]);
      FatalSegment(segs[0]);
      assert segs[0] == "" ==> !IsFatal(segs[0]);
      if i :| 0 <= i < |segs| && IsFatal(segs[i]) {
        if i > 0 { assert segs[1..][i - 1] == segs[i]; }
      }
    }
  }

  // ------------------------------------------------------------------- printing

  /** An element with its keys listed in some order. */
  datatype Listed = Listed(name: string, pairs: seq<(string, string)>)

  function PairTexts(ps: seq<(string, string)>): (ts: seq<string>)
    ensures |ts| == |ps| && forall i :: 0 <= i < |ps| ==> ts[i] == ps[i].0 + "=" + ps[i].1
  {
    if ps == [] then [] else PairTexts(ps[..|ps| - 1]) + [ps[|ps| - 1].0 + "=" + ps[|ps| - 1].1]
  }

  function Render(e: Listed): string {
    if e.pairs == [] then e.name else e.name + ['['] + (Join(PairTexts(e.pairs), ',') + [']'])
  }

  function Renders(es: seq<Listed>): (ts: seq<string>)
    ensures |ts| == |es| && forall i :: 0 <= i < |es| ==> ts[i] == Render(es[i])
  {
    if es == [] then [] else [Render(es[0])] + Renders(es[1..])
  }

  function RenderPath(es: seq<Listed>): string {
    Join(Renders(es), '/')
  }

  function MapOf(ps: seq<(string, string)>): map<string, string> {
    if ps == [] then map[] else MapOf(ps[..|ps| - 1])[ps[|ps| - 1].0 := ps[|ps| - 1].1]
  }

  function Meaning(e: Listed): Elem {
    Elem(e.name, MapOf(e.pairs))
  }

  function Meanings(es: seq<Listed>): (ms: seq<Elem>)
    ensures |ms| == |es| && forall i :: 0 <= i < |es| ==> ms[i] == Meaning(es[i])
  {
    if es == [] then [] else [Meaning(es[0])] + Meanings(es[1..])
  }

  /** Each key is listed once. */
  ghost predicate IsListing(es: seq<Listed>) {
    forall n, i, j :: 0 <= n < |es| && 0 <= i < j < |es[n].pairs| ==> es[n].pairs[i].0 != es[n].pairs[j].0
  }

  predicate PairPrintable(p: (string, string)) {
    '/' !in p.0 && ',' !in p.0 && '=' !in p.0 && '/' !in p.1 && ',' !in p.1
  }

  /** The element can be written down without being misread. */
  predicate Printable(e: Listed) {
    && '/' !in e.name && '[' !in e.name
    && (forall i :: 0 <= i < |e.pairs| ==> PairPrintable(e.pairs[i]))
    && (e.name != "" || e.pairs != [])
  }

  // ------------------------------------------------------------------- printing, then parsing

  lemma {:induction false} PairsRoundTrip(ps: seq<(string, string)>)
    requires forall i :: 0 <= i < |ps| ==> PairPrintable(ps[i])
    ensures PairsOf(PairTexts(ps)) == MapOf(ps)
  {
    if ps != [] {
      var p := ps[|ps| - 1];
      PairsRoundTrip(ps[..|ps| - 1]);
      assert PairPrintable(p);
      var ts := PairTexts(ps);
      assert ts[..|ts| - 1] == PairTexts(ps[..|ps| - 1]);
      var kv := p.0 + ['='] + p.1;
      assert ts[|ts| - 1] == kv;
      FindFirst(p.0, '=', p.1);
      assert kv[..|p.0|] == p.0 && kv[|p.0| + 1..] == p.1;
    }
  }

  lemma {:induction false} JoinMembers(parts: seq<string>, c: char, x: char)
    requires x in Join(parts, c)
    ensures x == c || exists i :: 0 <= i < |parts| && x in parts[i]
  {
    if |parts| > 1 && x !in parts[0] && x != c {
      JoinMembers(parts[1..], c, x);
      var i :| 0 <= i < |parts[1..]| && x in parts[1..][i];
      assert x in parts[i + 1];
    }
  }

  /** A segment with a bracket: whatever its last character is, it is sliced off. */
  lemma BracketSegment(name: string, inner: string, last: char)
    requires '[' !in name && last < 128 as char
    ensures ParseSegment(name + ['['] + (inner + [last])) == Some(Elem(name, PairsOf(Split(inner, ','))))
  {
    hide PairsOf, Split;
    FindFirst(name, '[', inner + [last]);
    var seg := name + ['['] + (inner + [last]);
    assert seg[|seg| - 1] == last;
    assert seg[..|name|] == name && seg[|name| + 1..|seg| - 1] == inner;
  }

  lemma SegmentRoundTrip(e: Listed)
    requires Printable(e)
    ensures ParseSegment(Render(e)) == Some(Meaning(e)) && Render(e) != ""
  {
    if e.pairs == [] {
      FindNone(e.name, '[');
    } else {
      hide ParseSegment;
      var ts := PairTexts(e.pairs);
      forall i | 0 <= i < |ts| ensures ',' !in ts[i] { assert PairPrintable(e.pairs[i]); }
      SplitJoin(ts, ',');
      PairsRoundTrip(e.pairs);
      BracketSegment(e.name, Join(ts, ','), ']');
    }
  }

  /** A text holds a `/` only if one of its pieces does. */
  lemma RenderSlashFree(e: Listed)
    requires '/' !in e.name && forall i :: 0 <= i < |e.pairs| ==> '/' !in e.pairs[i].0 && '/' !in e.pairs[i].1
    ensures '/' !in Render(e)
  {
    if e.pairs != [] && '/' in Join(PairTexts(e.pairs), ',') {
      JoinMembers(PairTexts(e.pairs), ',', '/');
    }
  }

  lemma {:induction false} SegmentsRoundTrip(es: seq<Listed>)
    requires forall i :: 0 <= i < |es| ==> Printable(es[i])
    ensures ParseSegments(Renders(es)) == Some(Meanings(es))
  {
    if es != [] {
      SegmentRoundTrip(es[0]);
      SegmentsRoundTrip(es[1..]);
      assert Renders(es)[1..] == Renders(es[1..]);
    }
  }

  lemma SplitRendered(es: seq<Listed>)
    requires es != [] && forall i :: 0 <= i < |es| ==> '/' !in Render(es[i])
    ensures Split(RenderPath(es), '/') == Renders(es)
  {
    SplitJoin(Renders(es), '/');
  }

  /** Parsing undoes printing for every printable path, in whatever order its keys are listed. */
  lemma RoundTrip(es: seq<Listed>)
    requires forall i :: 0 <= i < |es| ==> Printable(es[i])
    ensures ParsePath(RenderPath(es)) == Some(Meanings(es))
  {
    if es == [] {
      assert Find("", '/') == 0;
      assert [""][1..] == [];
    } else {
      forall i | 0 <= i < |es| ensures '/' !in Render(es[i]) {
        assert forall k :: 0 <= k < |es[i].pairs| ==> PairPrintable(es[i].pairs[k]);
        RenderSlashFree(es[i]);
      }
      SplitRendered(es);
      SegmentsRoundTrip(es);
    }
  }

  // ------------------------------------------------------------------- what parsing can yield

  /** Every element that parsing yields is free of the separators it was cut at. */
  ghost predicate Clean(e: Elem) {
    && '/' !in e.name && '[' !in e.name
    && (forall k :: k in e.keys ==> PairPrintable((k, e.keys[k])))
  }

  lemma {:induction false} PairsClean(kvs: seq<string>)
    requires AllFree(kvs, ',') && AllFree(kvs, '/')
    ensures forall k :: k in PairsOf(kvs) ==> PairPrintable((k, PairsOf(kvs)[k]))
  {
    if kvs != [] {
      PairsClean(kvs[..|kvs| - 1]);
      var kv := kvs[|kvs| - 1];
      assert ',' !in kv && '/' !in kv;
    }
  }

  lemma SegmentClean(seg: string)
    requires '/' !in seg && ParseSegment(seg).Some?
    ensures Clean(ParseSegment(seg).value)
  {
    var b := Find(seg, '[');
    if b == |seg| {
      FindNone(seg, '[');
    } else {
      var inner := seg[b + 1..|seg| - 1];
      var kvs := Split(inner, ',');
      SplitFree(inner, ',');
      forall i | 0 <= i < |kvs| ensures '/' !in kvs[i] {
        if '/' in kvs[i] { SplitMembers(inner, ',', i, '/'); }
      }
      PairsClean(kvs);
    }
  }

  lemma {:induction false} SegmentsClean(segs: seq<string>)
    requires AllFree(segs, '/') && ParseSegments(segs).Some?
    ensures forall i :: 0 <= i < |ParseSegments(segs).value| ==> Clean(ParseSegments(segs).value[i])
  {
    if segs != [] {
      SegmentsClean(segs[1..]);
      if segs[0] != "" { SegmentClean(segs[0]); }
    }
  }

  lemma {:induction false} MapOfHolds(ps: seq<(string, string)>, i: nat)
    requires i < |ps| && forall j, k :: 0 <= j < k < |ps| ==> ps[j].0 != ps[k].0
    ensures ps[i].0 in MapOf(ps) && MapOf(ps)[ps[i].0] == ps[i].1
  {
    if i < |ps| - 1 { MapOfHolds(ps[..|ps| - 1], i); }
  }

  lemma {:induction false} CountSegments(segs: seq<string>)
    requires ParseSegments(segs).Some?
    ensures |ParseSegments(segs).value| <= |segs|
    ensures |ParseSegments(segs).value| == |segs| ==> forall i :: 0 <= i < |segs| ==> segs[i] != ""
  {
    if segs != [] {
      CountSegments(segs[1..]);
      assert forall i :: 0 < i < |segs| ==> segs[i] == segs[1..][i - 1];
    }
  }

  lemma CleanMeaning(e: Listed)
    requires Clean(Meaning(e)) && forall j, k :: 0 <= j < k < |e.pairs| ==> e.pairs[j].0 != e.pairs[k].0
    ensures '/' !in e.name && '[' !in e.name && '/' !in Render(e)
    ensures forall i :: 0 <= i < |e.pairs| ==> PairPrintable(e.pairs[i])
  {
    hide Render;
    forall i | 0 <= i < |e.pairs| ensures PairPrintable(e.pairs[i]) {
      MapOfHolds(e.pairs, i);
      assert PairPrintable((e.pairs[i].0, MapOf(e.pairs)[e.pairs[i].0]));
    }
    RenderSlashFree(e);
  }

  /** A path that survives the round trip is printable. */
  lemma SurvivorsArePrintable(es: seq<Listed>)
    requires IsListing(es) && ParsePath(RenderPath(es)) == Some(Meanings(es))
    ensures forall i :: 0 <= i < |es| ==> Printable(es[i])
  {
    hide Clean, Split, ParseSegments, RenderPath, PairPrintable, Meaning;
    var segs := Split(RenderPath(es), '/');
    SplitFree(RenderPath(es), '/');
    SegmentsClean(segs);
    forall i | 0 <= i < |es|
      ensures '/' !in es[i].name && '[' !in es[i].name && '/' !in Render(es[i])
      ensures forall k :: 0 <= k < |es[i].pairs| ==> PairPrintable(es[i].pairs[k])
    {
      assert Clean(Meanings(es)[i]);
      CleanMeaning(es[i]);
    }
    if es != [] {
      SplitRendered(es);
      CountSegments(segs);
      forall i | 0 <= i < |es| ensures es[i].name != "" || es[i].pairs != [] {
        assert segs[i] == Render(es[i]);
      }
    }
  }

  /** The round trip succeeds if and only if every element is printable. */
  lemma RoundTripIffPrintable(es: seq<Listed>)
    requires IsListing(es)
    ensures ParsePath(RenderPath(es)) == Some(Meanings(es)) <==> forall i :: 0 <= i < |es| ==> Printable(es[i])
  {
    if forall i :: 0 <= i < |es| ==> Printable(es[i]) { RoundTrip(es); }
    if ParsePath(RenderPath(es)) == Some(Meanings(es)) { SurvivorsArePrintable(es); }
  }

  /**
    A slash in a value splits the path before its bracket is read: the value is cut, with
    its last character sliced off as if it were the bracket, and the rest becomes an
    element of its own. The source's comment shows such a path.
   */
  lemma SlashInValueIsMisread(name: string, key: string, v: string, last: char, tail: string)
    requires name != "" && '/' !in name && '[' !in name && PairPrintable((key, v))
    requires last < 128 as char && last != '/' && '/' !in tail && '[' !in tail
    ensures ParsePath(name + ['['] + (key + ['='] + v + [last]) + ['/'] + (tail + [']'])) ==
            Some([Elem(name, map[key := v]), Elem(tail + [']'], map[])])
  {
    var a, b := name + ['['] + (key + ['='] + v + [last]), tail + [']'];
    OnePair(name, key, v, last);
    FindNone(b, '[');
    TwoSegments(a, b, Elem(name, map[key := v]), Elem(b, map[]));
  }

  lemma TwoSegments(a: string, b: string, ea: Elem, eb: Elem)
    requires a != "" && b != "" && '/' !in a && '/' !in b
    requires ParseSegment(a) == Some(ea) && ParseSegment(b) == Some(eb)
    ensures ParsePath(a + ['/'] + b) == Some([ea, eb])
  {
    hide ParseSegment, Split;
    var segs: seq<string>, end: seq<string>, none: seq<string> := [a, b], [b], [];
    SplitJoin(segs, '/');
    assert segs[1..] == end && end[1..] == none;
    assert Join(segs, '/') == a + ['/'] + b;
    var tail: seq<Elem> := [];
    assert ParseSegments(none) == Some(tail);
    assert ParseSegments(end) == Some([eb] + tail);
    assert [ea] + ([eb] + tail) == [ea, eb];
  }

  lemma OnePair(name: string, key: string, v: string, last: char)
    requires '[' !in name && PairPrintable((key, v)) && last < 128 as char
    ensures ParseSegment(name + ['['] + (key + ['='] + v + [last])) == Some(Elem(name, map[key := v]))
  {
    var kv := key + ['='] + v;
    BracketSegment(name, kv, last);
    FindNone(kv, ',');
    FindFirst(key, '=', v);
    assert kv[..|key|] == key && kv[|key| + 1..] == v;
    var one: seq<string>, none: seq<string> := [kv], [];
    assert one[..0] == none;
    assert PairsOf(one) == map[key := v];
  }
}
