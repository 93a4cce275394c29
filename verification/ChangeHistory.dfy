/**
  Configuration change history: the chain of change records must agree with the history
  of snapshots it was derived from.
 */
module ChangeHistory {
  import opened Options
  import opened Texts
  import opened Histories

  // ------------------------------------------------------------------- line differences

  function StripCr(line: string): string {
    if line != "" && line[|line| - 1] == '\r' then line[..|line| - 1] else line
  }

  /** The distinct lines of the pieces between line feeds; a last empty piece is no line. */
  function LinesOf(pieces: seq<string>): set<string>
    requires pieces != []
  {
    if |pieces| == 1 then (if pieces[0] == "" then {} else {pieces[0]})
    else {StripCr(pieces[0])} + LinesOf(pieces[1..])
  }

  function Lines(text: string): set<string> {
    LinesOf(Split(text, '\n'))
  }

  /** Piece `i` of the text is the line `x`: a carriage return before a line feed is no part of it. */
  ghost predicate IsLine(pieces: seq<string>, i: int, x: string)
    requires 0 <= i < |pieces|
  {
    if i == |pieces| - 1 then pieces[i] == x != ""
    else pieces[i] == x + "\r" || (pieces[i] == x && (x == "" || x[|x| - 1] != '\r'))
  }

  lemma {:induction false} LinesIff(pieces: seq<string>, x: string)
    requires pieces != []
    ensures x in LinesOf(pieces) <==> exists i :: 0 <= i < |pieces| && IsLine(pieces, i, x)
  {
    if |pieces| == 1 {
      assert x in LinesOf(pieces) <==> IsLine(pieces, 0, x);
    } else {
      var p, tail := pieces[0], pieces[1..];
      LinesIff(tail, x);
      assert IsLine(pieces, 0, x) <==> x == StripCr(p) by {
        if p != "" && p[|p| - 1] == '\r' { assert p == p[..|p| - 1] + "\r"; }
        assert (x + "\r")[..|x|] == x;
      }
      forall i | 0 < i < |pieces| ensures IsLine(pieces, i, x) <==> IsLine(tail, i - 1, x) {
        assert tail[i - 1] == pieces[i];
      }
      if i :| 0 <= i < |tail| && IsLine(tail, i, x) { assert IsLine(pieces, i + 1, x); }
    }
  }

  /** The lines of a text that was put together from pieces without line feeds. */
  lemma LinesOfJoined(pieces: seq<string>, x: string)
    requires pieces != [] && AllFree(pieces, '\n')
    ensures x in Lines(Join(pieces, '\n')) <==> exists i :: 0 <= i < |pieces| && IsLine(pieces, i, x)
  {
    SplitJoin(pieces, '\n');
    LinesIff(pieces, x);
  }

  datatype Diff = Diff(added: int, removed: int)

  function SummarizeDiff(previous: string, current: string): Diff {
    Diff(|Lines(current) - Lines(previous)|, |Lines(previous) - Lines(current)|)
  }

  /** Added minus removed is the growth in distinct lines; both are zero exactly when the line sets agree. */
  lemma DiffBalances(previous: string, current: string)
    ensures var d := SummarizeDiff(previous, current);
            && d.added - d.removed == |Lines(current)| - |Lines(previous)|
            && d.added + |Lines(current) * Lines(previous)| == |Lines(current)|
            && d.removed + |Lines(current) * Lines(previous)| == |Lines(previous)|
            && (d.added == 0 && d.removed == 0 <==> Lines(previous) == Lines(current))
            && SummarizeDiff(current, previous) == Diff(d.removed, d.added)
  {
    var p, c := Lines(previous), Lines(current);
    assert c == (c - p) + (c * p) && p == (p - c) + (c * p);
    if |c - p| == 0 && |p - c| == 0 {
      assert c - p == {} && p - c == {};
    }
  }

  // ------------------------------------------------------------------- records

  datatype Snapshot = Snapshot(device: string, payload: string, hash: string, capturedAt: int)

  /** A change between two snapshots, named by their numbers. */
  datatype Change = Change(
    device: string, previous: nat, current: nat, previousHash: string, currentHash: string, diff: Diff)

  /** What a request meets: a failure before anything is stored, or a capture that may fail to be compared. */
  datatype Request =
    | Failing(device: string)
    | Capturing(device: string, payload: string, at: int, readable: bool)

  // ------------------------------------------------------------------- histories of one device

  function HashesOf(ss: seq<Snapshot>, d: string): seq<string> {
    if ss == [] then []
    else
      var rest := HashesOf(ss[..|ss| - 1], d);
      if ss[|ss| - 1].device == d then rest + [ss[|ss| - 1].hash] else rest
  }

  function ChangesOf(cs: seq<Change>, d: string): seq<Change> {
    if cs == [] then []
    else
      var rest := ChangesOf(cs[..|cs| - 1], d);
      if cs[|cs| - 1].device == d then rest + [cs[|cs| - 1]] else rest
  }

  function CurrentHashes(cs: seq<Change>): seq<string> {
    if cs == [] then [] else CurrentHashes(cs[..|cs| - 1]) + [cs[|cs| - 1].currentHash]
  }

  /** Each change starts where its predecessor ended, the first one at the baseline. */
  ghost predicate Linked(baseline: string, cs: seq<Change>) {
    forall i :: 0 <= i < |cs| ==> cs[i].previousHash == Before(baseline, cs, i)
  }

  /** The hash in force before change `i`. */
  function Before(baseline: string, cs: seq<Change>, i: nat): string
    requires i <= |cs|
  {
    if i == 0 then baseline else cs[i - 1].currentHash
  }

  /** The baseline followed by the changes is the snapshot history with adjacent repeats removed. */
  ghost predicate Agrees(hashes: seq<string>, cs: seq<Change>) {
    if hashes == [] then cs == []
    else [hashes[0]] + CurrentHashes(cs) == Compact(hashes) && Linked(hashes[0], cs)
  }

  /** The change reports what lies between its two snapshots. */
  ghost predicate Faithful(ss: seq<Snapshot>, c: Change) {
    && c.previous < c.current < |ss|
    && ss[c.previous].device == c.device == ss[c.current].device
    && ss[c.previous].hash == c.previousHash && ss[c.current].hash == c.currentHash
    && c.diff == SummarizeDiff(ss[c.previous].payload, ss[c.current].payload)
  }

  lemma HashesExtend(ss: seq<Snapshot>, s: Snapshot, d: string)
    ensures HashesOf(ss + [s], d) == HashesOf(ss, d) + if s.device == d then [s.hash] else []
  {
    assert (ss + [s])[..|ss|] == ss;
  }

  lemma ChangesExtend(cs: seq<Change>, c: Change, d: string)
    ensures ChangesOf(cs + [c], d) == ChangesOf(cs, d) + if c.device == d then [c] else []
  {
    assert (cs + [c])[..|cs|] == cs;
  }

  lemma {:induction false} HashesLast(ss: seq<Snapshot>, n: nat)
    requires n < |ss| && forall j :: n < j < |ss| ==> ss[j].device != ss[n].device
    ensures var hs := HashesOf(ss, ss[n].device); hs != [] && hs[|hs| - 1] == ss[n].hash
  {
    if n < |ss| - 1 { HashesLast(ss[..|ss| - 1], n); }
  }

  lemma {:induction false} NoHashes(ss: seq<Snapshot>, d: string)
    requires forall j :: 0 <= j < |ss| ==> ss[j].device != d
    ensures HashesOf(ss, d) == []
  {
    if ss != [] { NoHashes(ss[..|ss| - 1], d); }
  }

  lemma {:induction false} CurrentLast(cs: seq<Change>)
    requires cs != []
    ensures CurrentHashes(cs) != [] && CurrentHashes(cs)[|CurrentHashes(cs)| - 1] == cs[|cs| - 1].currentHash
  {
  }

  /** An unchanged capture leaves the agreement as it is. */
  lemma AgreesUnchanged(hashes: seq<string>, cs: seq<Change>)
    requires Agrees(hashes, cs) && hashes != []
    ensures Agrees(hashes + [hashes[|hashes| - 1]], cs)
  {
    CompactExtends(hashes, hashes[|hashes| - 1]);
  }

  /** A changed capture with its change record keeps the agreement. */
  lemma AgreesChanged(hashes: seq<string>, cs: seq<Change>, c: Change)
    requires Agrees(hashes, cs) && hashes != []
    requires c.previousHash == hashes[|hashes| - 1] && c.currentHash != c.previousHash
    ensures Agrees(hashes + [c.currentHash], cs + [c])
  {
    CompactExtends(hashes, c.currentHash);
    CompactFacts(hashes);
    assert (cs + [c])[..|cs|] == cs;
    var chain := [hashes[0]] + CurrentHashes(cs);
    LastHash(hashes, cs);
    assert [hashes[0]] + (CurrentHashes(cs) + [c.currentHash]) == chain + [c.currentHash];
    var all := cs + [c];
    forall i | 0 <= i < |all| ensures all[i].previousHash == Before(hashes[0], all, i) {
      assert Before(hashes[0], all, i) == Before(hashes[0], cs, i);
    }
  }

  /** The agreement survives a further hash if and only if it is compared with the one recorded last. */
  lemma PickedHashDecides(hashes: seq<string>, cs: seq<Change>, c: Change)
    requires Agrees(hashes, cs) && hashes != []
    ensures var cs' := if c.previousHash == c.currentHash then cs else cs + [c];
            Agrees(hashes + [c.currentHash], cs') <==> c.previousHash == hashes[|hashes| - 1]
  {
    var last := hashes[|hashes| - 1];
    var hashes' := hashes + [c.currentHash];
    CompactExtends(hashes, c.currentHash);
    CompactFacts(hashes);
    if c.previousHash == last {
      if c.previousHash == c.currentHash { AgreesUnchanged(hashes, cs); } else { AgreesChanged(hashes, cs, c); }
    } else if c.previousHash != c.currentHash {
      var all := cs + [c];
      LastHash(hashes, cs);
      assert all[|cs|].previousHash != Before(hashes[0], all, |cs|);
    }
  }

  /** The last change leads to the last recorded hash. */
  lemma LastHash(hashes: seq<string>, cs: seq<Change>)
    requires Agrees(hashes, cs) && hashes != []
    ensures Before(hashes[0], cs, |cs|) == hashes[|hashes| - 1]
    ensures forall c :: Before(hashes[0], cs + [c], |cs|) == hashes[|hashes| - 1]
  {
    CompactFacts(hashes);
    var chain := [hashes[0]] + CurrentHashes(cs);
    assert chain[|chain| - 1] == hashes[|hashes| - 1];
    if cs == [] {
      assert chain == [hashes[0]];
    } else {
      CurrentLast(cs);
      assert chain[|chain| - 1] == CurrentHashes(cs)[|CurrentHashes(cs)| - 1];
    }
  }

  // ------------------------------------------------------------------- the whole history

  /** Capture times grow device by device. */
  ghost predicate Ordered(ss: seq<Snapshot>) {
    forall i, j :: 0 <= i < j < |ss| && ss[i].device == ss[j].device ==> ss[i].capturedAt < ss[j].capturedAt
  }

  ghost predicate Sound(ss: seq<Snapshot>, cs: seq<Change>) {
    && (forall i :: 0 <= i < |cs| ==> Faithful(ss, cs[i]))
    && (forall d :: Agrees(HashesOf(ss, d), ChangesOf(cs, d)))
  }

  lemma FirstAgrees(hash: string, cs: seq<Change>)
    requires Agrees([], cs)
    ensures Agrees([] + [hash], cs)
  {
  }

  /** A device's first snapshot, or one that repeats its last hash, needs no change record. */
  lemma SnapshotAlone(ss: seq<Snapshot>, cs: seq<Change>, s: Snapshot)
    requires Sound(ss, cs)
    requires var hs := HashesOf(ss, s.device); hs == [] || hs[|hs| - 1] == s.hash
    ensures Sound(ss + [s], cs)
  {
    hide HashesOf, ChangesOf, Agrees, SummarizeDiff;
    forall i | 0 <= i < |cs| ensures Faithful(ss + [s], cs[i]) { assert Faithful(ss, cs[i]); }
    forall d ensures Agrees(HashesOf(ss + [s], d), ChangesOf(cs, d)) {
      HashesExtend(ss, s, d);
      var hs := HashesOf(ss, d);
      assert Agrees(hs, ChangesOf(cs, d));
      if d == s.device {
        if hs != [] { AgreesUnchanged(hs, ChangesOf(cs, d)); } else { FirstAgrees(s.hash, ChangesOf(cs, d)); }
      } else {
        assert hs + [] == hs;
      }
    }
  }

  /** A snapshot with a new hash goes with a change record from the device's last snapshot. */
  lemma SnapshotWithChange(ss: seq<Snapshot>, cs: seq<Change>, s: Snapshot, c: Change)
    requires Sound(ss, cs) && c.device == s.device && Faithful(ss + [s], c) && c.currentHash == s.hash != c.previousHash
    requires var hs := HashesOf(ss, s.device); hs != [] && hs[|hs| - 1] == c.previousHash
    ensures Sound(ss + [s], cs + [c])
  {
    hide HashesOf, ChangesOf, Agrees, SummarizeDiff;
    forall i | 0 <= i < |cs + [c]| ensures Faithful(ss + [s], (cs + [c])[i]) {
      if i < |cs| { assert Faithful(ss, cs[i]); }
    }
    forall d ensures Agrees(HashesOf(ss + [s], d), ChangesOf(cs + [c], d)) {
      HashesExtend(ss, s, d);
      ChangesExtend(cs, c, d);
      var hs, ds := HashesOf(ss, d), ChangesOf(cs, d);
      assert Agrees(hs, ds);
      if d == s.device { AgreesChanged(hs, ds, c); } else { assert hs + [] == hs && ds + [] == ds; }
    }
  }

  /** `n` is the device's snapshot of latest capture time, if it has any. */
  ghost predicate IsLatest(ss: seq<Snapshot>, d: string, n: Option<nat>) {
    match n
    case Some(k) =>
      && k < |ss| && ss[k].device == d
      && forall j :: 0 <= j < |ss| && ss[j].device == d ==> ss[j].capturedAt <= ss[k].capturedAt
    case None => forall j :: 0 <= j < |ss| ==> ss[j].device != d
  }

  /** The picked snapshot, if there is one, has another hash. */
  predicate Differs(ss: seq<Snapshot>, hash: string, previous: Option<nat>) {
    previous.Some? && previous.value < |ss| && ss[previous.value].hash != hash
  }

  /** The change record, if any, that goes with a new snapshot. */
  function Recorded(ss: seq<Snapshot>, s: Snapshot, previous: Option<nat>): seq<Change>
    requires previous.Some? ==> previous.value < |ss|
  {
    if previous.None? || ss[previous.value].hash == s.hash then []
    else
      var p := ss[previous.value];
      [Change(s.device, previous.value, |ss|, p.hash, s.hash, SummarizeDiff(p.payload, s.payload))]
  }

  /** The snapshot that was picked carries the hash that was recorded last for its device. */
  ghost predicate PicksLastHash(ss: seq<Snapshot>, d: string, previous: Option<nat>)
    requires previous.Some? ==> previous.value < |ss|
  {
    previous.Some? ==> var hs := HashesOf(ss, d); hs != [] && ss[previous.value].hash == hs[|hs| - 1]
  }

  /**
    The worker compares a capture with the snapshot of latest capture time, in whatever
    order captures come. The history stays sound if and only if that snapshot carries the
    hash that was recorded last.
   */
  lemma LatestSnapshotDecides(ss: seq<Snapshot>, cs: seq<Change>, s: Snapshot, previous: Option<nat>)
    requires Sound(ss, cs) && IsLatest(ss, s.device, previous)
    ensures Sound(ss + [s], cs + Recorded(ss, s, previous)) <==> PicksLastHash(ss, s.device, previous)
  {
    hide Sound, SummarizeDiff, HashesOf;
    if previous.None? {
      NoHashes(ss, s.device);
      SnapshotAlone(ss, cs, s);
      assert cs + [] == cs;
    } else if PicksLastHash(ss, s.device, previous) {
      if ss[previous.value].hash == s.hash {
        SnapshotAlone(ss, cs, s);
        assert cs + [] == cs;
      } else {
        SnapshotWithChange(ss, cs, s, Recorded(ss, s, previous)[0]);
      }
    } else {
      WrongPickBreaks(ss, cs, s, previous.value);
    }
  }

  lemma WrongPickBreaks(ss: seq<Snapshot>, cs: seq<Change>, s: Snapshot, k: nat)
    requires Sound(ss, cs) && k < |ss| && ss[k].device == s.device && !PicksLastHash(ss, s.device, Some(k))
    ensures !Sound(ss + [s], cs + Recorded(ss, s, Some(k)))
  {
    hide HashesOf, ChangesOf, Agrees, SummarizeDiff, Faithful;
    var d := s.device;
    var hs, ds, p := HashesOf(ss, d), ChangesOf(cs, d), ss[k];
    SomeHashes(ss, k);
    HashesExtend(ss, s, d);
    var c := Change(d, k, |ss|, p.hash, s.hash, SummarizeDiff(p.payload, s.payload));
    assert Agrees(hs, ds);
    PickedHashDecides(hs, ds, c);
    if p.hash == s.hash {
      assert cs + [] == cs;
    } else {
      ChangesExtend(cs, c, d);
    }
    assert !Agrees(HashesOf(ss + [s], d), ChangesOf(cs + Recorded(ss, s, Some(k)), d));
  }

  lemma {:induction false} SomeHashes(ss: seq<Snapshot>, k: nat)
    requires k < |ss|
    ensures HashesOf(ss, ss[k].device) != []
  {
    if k < |ss| - 1 { SomeHashes(ss[..|ss| - 1], k); }
  }

  /** When capture times grow, the latest snapshot is the last one, and the history stays sound. */
  lemma RecordedKeepsSound(ss: seq<Snapshot>, cs: seq<Change>, s: Snapshot, previous: Option<nat>)
    requires Sound(ss, cs) && Ordered(ss) && IsLatest(ss, s.device, previous)
    requires forall j :: 0 <= j < |ss| && ss[j].device == s.device ==> ss[j].capturedAt < s.capturedAt
    ensures Sound(ss + [s], cs + Recorded(ss, s, previous)) && Ordered(ss + [s])
  {
    hide Sound, SummarizeDiff, HashesOf;
    if previous.Some? { HashesLast(ss, previous.value); }
    LatestSnapshotDecides(ss, cs, s, previous);
  }

  /** Each snapshot was compared with one of latest capture time among those before it. */
  ghost predicate PicksLatest(ss: seq<Snapshot>, picks: seq<Option<nat>>) {
    |picks| == |ss| && forall i :: 0 <= i < |ss| ==> IsLatest(ss[..i], ss[i].device, picks[i])
  }

  /** The changes recorded along a run of captures. */
  ghost function History(ss: seq<Snapshot>, picks: seq<Option<nat>>): seq<Change>
    requires PicksLatest(ss, picks)
    decreases |ss|
  {
    if ss == [] then []
    else
      var n := |ss| - 1;
      assert forall i :: 0 <= i < n ==> ss[..n][..i] == ss[..i];
      assert IsLatest(ss[..n], ss[n].device, picks[n]);
      History(ss[..n], picks[..n]) + Recorded(ss[..n], ss[n], picks[n])
  }

  /**
    When the clock goes back between two captures of a device that differ, the third
    capture is compared with the wrong snapshot, whatever it is and whenever it is taken:
    the changes no longer agree with the snapshots.
   */
  lemma ClockGoingBackBreaksHistory(a: Snapshot, b: Snapshot, c: Snapshot, picks: seq<Option<nat>>)
    requires a.device == b.device == c.device && b.capturedAt < a.capturedAt && a.hash != b.hash
    requires PicksLatest([a, b, c], picks)
    ensures PicksLatest([a, b], picks[..2]) && Sound([a, b], History([a, b], picks[..2]))
    ensures !Sound([a, b, c], History([a, b, c], picks))
  {
    hide SummarizeDiff, Sound;
    var all := [a, b, c];
    assert all[..0] == [] && all[..1] == [a] && all[..2] == [a, b] && [a, b][..1] == [a] && [a][..0] == [];
    assert IsLatest(all[..0], a.device, picks[0]) && IsLatest(all[..1], a.device, picks[1]);
    assert IsLatest(all[..2], a.device, picks[2]);
    assert picks[..2][..1] == picks[..1] && picks[..1][..0] == [];
    assert picks[0] == None && picks[1] == Some(0) && picks[2] == Some(0) by { FirstIsLatest(a, b, picks); }
    TwoSound(a, b);
    assert History([], []) == [] && History([a], picks[..1]) == [];
    assert History([a, b], picks[..2]) == Recorded([a], b, Some(0));
    HashesLast([a, b], 1);
    LatestSnapshotDecides([a, b], Recorded([a], b, Some(0)), c, Some(0));
    assert [a, b] + [c] == all;
  }

  lemma FirstIsLatest(a: Snapshot, b: Snapshot, picks: seq<Option<nat>>)
    requires a.device == b.device && b.capturedAt < a.capturedAt && |picks| == 3
    requires IsLatest([], a.device, picks[0]) && IsLatest([a], a.device, picks[1])
    requires IsLatest([a, b], a.device, picks[2])
    ensures picks[0] == None && picks[1] == Some(0) && picks[2] == Some(0)
  {
    assert [a][0] == a && [a, b][0] == a && [a, b][1] == b;
  }

  lemma TwoSound(a: Snapshot, b: Snapshot)
    requires a.device == b.device
    ensures Sound([a, b], Recorded([a], b, Some(0)))
  {
    hide SummarizeDiff, Sound;
    NothingIsSound();
    LatestSnapshotDecides([], [], a, None);
    assert [] + [a] == [a] && [] + Recorded([], a, None) == [];
    HashesLast([a], 0);
    LatestSnapshotDecides([a], [], b, Some(0));
    assert [a] + [b] == [a, b] && [] + Recorded([a], b, Some(0)) == Recorded([a], b, Some(0));
  }

  lemma NothingIsSound()
    ensures Sound([], [])
  {
  }

  lemma HistoryExtends(ss: seq<Snapshot>, picks: seq<Option<nat>>, s: Snapshot, previous: Option<nat>)
    requires PicksLatest(ss, picks) && IsLatest(ss, s.device, previous)
    ensures PicksLatest(ss + [s], picks + [previous])
    ensures History(ss + [s], picks + [previous]) == History(ss, picks) + Recorded(ss, s, previous)
  {
    hide Recorded;
    var ss', picks', n := ss + [s], picks + [previous], |ss|;
    assert ss'[..n] == ss && picks'[..n] == picks;
    forall i | 0 <= i < |ss'| ensures IsLatest(ss'[..i], ss'[i].device, picks'[i]) {
      assert i < n ==> ss'[..i] == ss[..i] && IsLatest(ss[..i], ss[i].device, picks[i]);
    }
  }

  // ------------------------------------------------------------------- the worker

  /** A readable capture is kept; a request that fails before anything is stored is not. */
  predicate MayKeep(req: Request, kept: bool) {
    if req.Failing? then !kept else req.readable ==> kept
  }

  /** The snapshots of the captures that were kept, in order. */
  ghost function Shots(digest: string -> string, queue: seq<Request>, kept: seq<bool>): seq<Snapshot>
    requires |queue| == |kept|
  {
    if queue == [] then []
    else
      var n := |queue| - 1;
      var rest, req := Shots(digest, queue[..n], kept[..n]), queue[n];
      if kept[n] && req.Capturing?
      then rest + [Snapshot(req.device, req.payload, digest(req.payload), req.at)] else rest
  }

  lemma NoShots(digest: string -> string)
    ensures Shots(digest, [], []) == []
  {
  }

  lemma ShotsExtend(digest: string -> string, queue: seq<Request>, n: nat, kept: seq<bool>, ok: bool)
    requires n < |queue| && |kept| == n
    ensures var req := queue[n];
            Shots(digest, queue[..n + 1], kept + [ok]) == Shots(digest, queue[..n], kept) +
            if ok && req.Capturing? then [Snapshot(req.device, req.payload, digest(req.payload), req.at)] else []
  {
    assert queue[..n + 1][..n] == queue[..n] && (kept + [ok])[..n] == kept;
  }

  /** Two captures of one device have growing times. */
  predicate Precedes(a: Request, b: Request) {
    a.Capturing? && b.Capturing? && a.device == b.device ==> a.at < b.at
  }

  class ChangeDetector {
    const digest: string -> string
    var snapshots: seq<Snapshot>
    var changes: seq<Change>
    /** The snapshot that each snapshot was compared with. */
    ghost var picks: seq<Option<nat>>

    /**
      Hashes are those of the payloads, the changes are those of a run of captures each
      compared with a latest snapshot, and every change reports what lies between its two.
     */
    ghost predicate Valid()
      reads this
    {
      && (forall i :: 0 <= i < |snapshots| ==> snapshots[i].hash == digest(snapshots[i].payload))
      && PicksLatest(snapshots, picks) && changes == History(snapshots, picks)
      && (forall i :: 0 <= i < |changes| ==> Faithful(snapshots, changes[i]))
    }

    /** Capture times grow device by device, and the changes agree with the snapshots. */
    ghost predicate Chained()
      reads this
    {
      Ordered(snapshots) && Sound(snapshots, changes)
    }

    constructor (digest: string -> string)
      ensures Valid() && Chained() && this.digest == digest && snapshots == [] && changes == []
    {
      this.digest := digest;
      snapshots, changes, picks := [], [], [];
    }

    /** The number of the device's snapshot with the latest capture time. */
    method LatestSnapshot(d: string) returns (n: Option<nat>)
      ensures IsLatest(snapshots, d, n)
    {
      n := None;
      for i := 0 to |snapshots|
        invariant n.Some? ==>
                    && n.value < i && snapshots[n.value].device == d
                    && forall j :: 0 <= j < i && snapshots[j].device == d ==>
                         snapshots[j].capturedAt <= snapshots[n.value].capturedAt
        invariant n.None? ==> forall j :: 0 <= j < i ==> snapshots[j].device != d
      {
        if snapshots[i].device == d && (n.None? || snapshots[n.value].capturedAt <= snapshots[i].capturedAt) {
          n := Some(i);
        }
      }
    }

    /** Every earlier snapshot of the request's device is older. */
    ghost predicate Newer(req: Request)
      reads this
    {
      req.Capturing? ==>
        forall j :: 0 <= j < |snapshots| && snapshots[j].device == req.device ==> snapshots[j].capturedAt < req.at
    }

    /**
      Processes one request. A failed one leaves no record; a successful one adds a
      snapshot, and a change record exactly when the device had a snapshot before and the
      hash of the latest one differs. Whatever the capture times, changes and snapshots
      stay in agreement if and only if that snapshot carries the hash recorded last.
     */
    method ProcessRequest(req: Request) returns (ok: bool, previous: Option<nat>)
      requires Valid()
      modifies this
      ensures Valid()
      ensures !ok ==> snapshots == old(snapshots) && changes == old(changes) && picks == old(picks)
      ensures req.Capturing? ==> IsLatest(old(snapshots), req.device, previous)
      ensures ok ==>
                && req.Capturing?
                && snapshots == old(snapshots) + [Snapshot(req.device, req.payload, digest(req.payload), req.at)]
                && changes == old(changes) + Recorded(old(snapshots), snapshots[|old(snapshots)|], previous)
      ensures ok && old(Sound(snapshots, changes)) ==>
                (Sound(snapshots, changes) <==> PicksLastHash(old(snapshots), req.device, previous))
      ensures ok ==> picks == old(picks) + [previous]
      ensures ok <==> req.Capturing? && (req.readable || !Differs(old(snapshots), digest(req.payload), previous))
      ensures old(Chained() && Newer(req)) ==> Chained()
    {
      hide Sound, SummarizeDiff, HashesOf, History, PicksLatest;
      previous := None;
      if req.Failing? {
        return false, None;
      }
      var d := req.device;
      var s := Snapshot(d, req.payload, digest(req.payload), req.at);
      previous := LatestSnapshot(d);
      if Sound(snapshots, changes) { LatestSnapshotDecides(snapshots, changes, s, previous); }
      if Chained() && Newer(req) { RecordedKeepsSound(snapshots, changes, s, previous); }
      if previous.Some? && snapshots[previous.value].hash != s.hash {
        if !req.readable {
          return false, previous;
        }
        var n := previous.value;
        var diff := SummarizeDiff(snapshots[n].payload, s.payload);
        changes := changes + [Change(d, n, |snapshots|, snapshots[n].hash, s.hash, diff)];
      }
      assert changes == old(changes) + Recorded(snapshots, s, previous);
      forall i | 0 <= i < |old(changes)| ensures Faithful(snapshots + [s], old(changes)[i]) {
        assert Faithful(snapshots, old(changes)[i]);
      }
      HistoryExtends(snapshots, picks, s, previous);
      snapshots, picks := snapshots + [s], picks + [previous];
      ok := true;
    }

    /** The captures of the queue come after all snapshots, and in growing order device by device. */
    ghost predicate Growing(queue: seq<Request>)
      reads this
    {
      && (forall i :: 0 <= i < |queue| ==> Newer(queue[i]))
      && (forall i, j :: 0 <= i < j < |queue| ==> Precedes(queue[i], queue[j]))
    }

    /**
      Works off any queue of requests, ignoring those that fail. The captures `kept`, every
      readable one among them, are added to the history in order. Every change keeps
      reporting what lies between its two snapshots; changes and snapshots stay in
      agreement when capture times grow.
     */
    method RunWorker(queue: seq<Request>) returns (ghost kept: seq<bool>)
      requires Valid()
      modifies this
      ensures Valid() && old(changes) <= changes && old(picks) <= picks
      ensures |kept| == |queue| && forall i :: 0 <= i < |queue| ==> MayKeep(queue[i], kept[i])
      ensures snapshots == old(snapshots) + Shots(digest, queue, kept)
      ensures old(Chained() && Growing(queue)) ==> Chained()
    {
      hide Sound, Ordered, Faithful, History, PicksLatest, Shots;
      kept := [];
      NoShots(digest);
      assert queue[..0] == [];
      for n := 0 to |queue|
        invariant Valid() && old(changes) <= changes && old(picks) <= picks
        invariant |kept| == n && forall i :: 0 <= i < n ==> MayKeep(queue[i], kept[i])
        invariant snapshots == old(snapshots) + Shots(digest, queue[..n], kept)
        invariant old(Chained() && Growing(queue)) ==>
                    Chained() && forall i :: n <= i < |queue| ==> Newer(queue[i])
      {
        var ok, previous := ProcessRequest(queue[n]);
        ShotsExtend(digest, queue, n, kept, ok);
        kept := kept + [ok];
      }
      assert queue[..|queue|] == queue;
    }

    /** The numbers of a change record account for the growth in distinct lines between its two snapshots. */
    lemma ChangeCountsBalance(i: nat)
      requires Valid() && i < |changes|
      ensures var c := changes[i];
              && c.previous < |snapshots| && c.current < |snapshots|
              && c.diff.added - c.diff.removed ==
                 |Lines(snapshots[c.current].payload)| - |Lines(snapshots[c.previous].payload)|
    {
      assert Faithful(snapshots, changes[i]);
      DiffBalances(snapshots[changes[i].previous].payload, snapshots[changes[i].current].payload);
    }
  }
}
