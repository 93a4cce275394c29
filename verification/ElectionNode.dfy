/**
  One coordinator as a mutable object. Whatever etcd answers, its run is a sequence of
  steps of the election protocol, and it ends Electing and disconnected.
 */
module ElectionNodes {
  import opened Election
  import opened Histories

  datatype Mode = Standalone | Clustered(nodeId: string)

  datatype TxnAnswer = TxnFailed | TxnSucceeded | TxnFound(leaderId: string)

  /** What happens to the keep-alive loop, one event at a time. */
  datatype LoopEvent =
    | Tick(ok: bool)          // a heartbeat, answered or failed
    | ShutdownCalled          // `shutdown` is called
    | ShutdownNoticed         // the loop looks at the shutdown signal

  /** The answers a run receives: connection, lease, transaction, then the loop. */
  datatype Script = Script(connects: bool, granted: bool, lease: Lease, txn: TxnAnswer, loop: seq<LoopEvent>)

  /** `n` moves to `n'` by a protocol step of a coordinator called `name`, for some content of the key. */
  ghost predicate Moves(name: string, n: Node, n': Node) {
    exists st, key :: MayTake(n, st) && n' == Local(name, key, n, st)
  }

  ghost predicate Follows(name: string, trace: seq<Node>) {
    forall i :: 0 <= i < |trace| - 1 ==> Moves(name, trace[i], trace[i + 1])
  }

  /**
    Along every trace of a coordinator, it leads only after the transaction has named it,
    and it follows another only after the transaction has named that one.
   */
  lemma {:induction false} StateComesFromAnswer(name: string, trace: seq<Node>, i: nat)
    requires Follows(name, trace) && i < |trace| && trace[0] == Fresh
    ensures match trace[i].state
            case Electing => true
            case Leader => exists j :: 0 <= j < i && trace[j].phase.Answered? && trace[j].phase.leaderId == name
            case Follower(x) =>
              x != name && exists j :: 0 <= j < i && trace[j].phase.Answered? && trace[j].phase.leaderId == x
  {
    if i > 0 {
      StateComesFromAnswer(name, trace, i - 1);
      assert Moves(name, trace[i - 1], trace[i]);
    }
  }

  /** What the answer to the transaction makes of a node called `name`. */
  function Verdict(name: string, txn: TxnAnswer): LeaderState
    requires !txn.TxnFailed?
  {
    if txn.TxnSucceeded? || txn.leaderId == name then Leader else Follower(txn.leaderId)
  }

  /** The run connects, is granted a lease and gets an answer to its transaction. */
  predicate GetsAnswer(script: Script) {
    script.connects && script.granted && !script.txn.TxnFailed?
  }

  /** Event `i` ends the loop: a failed heartbeat, or a look at the signal once shutdown was called. */
  ghost predicate EndsLoop(loop: seq<LoopEvent>, shutdown: bool, i: int)
    requires 0 <= i < |loop|
  {
    loop[i] == Tick(false) || (loop[i] == ShutdownNoticed && (shutdown || ShutdownCalled in loop[..i]))
  }

  /** The keep-alive loop ends with these events: a heartbeat fails, or the loop notices that shutdown was called. */
  predicate LoopEnds(loop: seq<LoopEvent>, shutdown: bool) {
    loop != [] &&
    match loop[0]
    case Tick(ok) => !ok || LoopEnds(loop[1..], shutdown)
    case ShutdownCalled => LoopEnds(loop[1..], true)
    case ShutdownNoticed => shutdown || LoopEnds(loop[1..], shutdown)
  }

  /** The loop ends exactly when some heartbeat fails, or it looks at the signal after shutdown was called. */
  lemma {:induction false} LoopEndsIff(loop: seq<LoopEvent>, shutdown: bool)
    ensures LoopEnds(loop, shutdown) <==>
            exists i :: 0 <= i < |loop| && EndsLoop(loop, shutdown, i)
  {
    if loop != [] {
      var sd := shutdown || loop[0].ShutdownCalled?;
      LoopEndsIff(loop[1..], sd);
      forall i | 0 < i < |loop| ensures EndsLoop(loop, shutdown, i) <==> EndsLoop(loop[1..], sd, i - 1) {
        assert loop[..i] == [loop[0]] + loop[1..][..i - 1];
      }
      if i :| 0 <= i < |loop[1..]| && EndsLoop(loop[1..], sd, i) {
        assert EndsLoop(loop, shutdown, i + 1);
      }
      assert EndsLoop(loop, shutdown, 0) <==> loop[0] == Tick(false) || (loop[0] == ShutdownNoticed && shutdown);
    }
  }

  /** Since `before` the coordinator has been in state `state`, serving. */
  ghost predicate Became(before: seq<Node>, trace: seq<Node>, state: LeaderState) {
    exists i :: |before| <= i < |trace| && trace[i].state == state && trace[i].phase.Serving?
  }

  class Coordinator {
    const mode: Mode
    const hasEtcdConfig: bool
    var state: LeaderState
    var etcdConnected: bool
    var shutdownSignal: bool
    /** The states passed to the registered callback, in order. */
    var notified: seq<LeaderState>
    ghost var phase: Phase
    /** Every state the coordinator has been set to. */
    ghost var states: seq<LeaderState>
    ghost var trace: seq<Node>

    ghost function Here(): Node
      reads this
    {
      Node(phase, state, etcdConnected, shutdownSignal)
    }

    ghost predicate Valid()
      reads this
    {
      && states != [] && states[|states| - 1] == state
      && [Electing] + notified == Compact(states)
      && (mode.Clustered? ==>
           && trace != [] && trace[0] == Fresh && trace[|trace| - 1] == Here()
           && Follows(mode.nodeId, trace) && WellPhased(Here()))
    }

    constructor (mode: Mode, hasEtcdConfig: bool)
      ensures Valid() && this.mode == mode && this.hasEtcdConfig == hasEtcdConfig
      ensures Here() == Fresh && trace == [Fresh] && notified == []
    {
      this.mode, this.hasEtcdConfig := mode, hasEtcdConfig;
      state, etcdConnected, shutdownSignal, notified := Electing, false, false, [];
      phase, states, trace := Idle, [Electing], [Fresh];
    }

    /** Sets the state; the callback hears of it exactly when the state changes. */
    method SetState(newState: LeaderState)
      requires states != [] && states[|states| - 1] == state && [Electing] + notified == Compact(states)
      modifies this`state, this`notified, this`states
      ensures state == newState && states == old(states) + [newState]
      ensures [Electing] + notified == Compact(states)
      ensures notified == old(notified) + (if newState == old(state) then [] else [newState])
    {
      CompactExtends(states, newState);
      var oldState := state;
      state := newState;
      states := states + [newState];
      if oldState != newState {
        notified := notified + [newState];
      }
    }

    /** Records that the coordinator has just taken protocol step `st`. */
    ghost method Took(st: Step, key: Entry, before: Node)
      requires mode.Clustered? && trace != [] && trace[|trace| - 1] == before && Follows(mode.nodeId, trace)
      requires MayTake(before, st) && Here() == Local(mode.nodeId, key, before, st)
      modifies this`trace
      ensures trace == old(trace) + [Here()] && Follows(mode.nodeId, trace)
    {
      trace := trace + [Here()];
      assert Moves(mode.nodeId, before, Here());
    }

    method Shutdown()
      requires Valid()
      modifies this`shutdownSignal, this`trace
      ensures Valid() && shutdownSignal
      ensures mode.Clustered? ==> trace == old(trace) + [Here()]
    {
      ghost var before := Here();
      shutdownSignal := true;
      if mode.Clustered? {
        Took(RequestShutdown(0), Absent, before);
      }
    }

    /** Leaves the election: reports the session closed, then steps down. */
    method Resign()
      requires Valid() && mode.Clustered? && phase.Resigning?
      modifies this
      ensures Valid() && phase.Exited? && state == Electing && !etcdConnected
      ensures old(trace) <= trace
    {
      ghost var n0 := Here();
      etcdConnected := false;
      phase := Leaving(phase.revoked);
      Took(Disconnect(0), Absent, n0);
      ghost var n1 := Here();
      SetState(Electing);
      phase := Exited;
      Took(StepDown(0), Absent, n1);
    }

    /** A request failed: the run is over. */
    method GiveUp()
      requires Valid() && mode.Clustered? && MayTake(Here(), Fail(0))
      modifies this
      ensures Valid() && phase.Exited? && state == Electing && !etcdConnected
      ensures old(trace) <= trace
    {
      ghost var n0 := Here();
      phase := Resigning(false);
      Took(Fail(0), Absent, n0);
      Resign();
    }

    /**
      Runs an election. In standalone mode the coordinator leads at once; in cluster mode
      every finished run, whatever the answers, leaves it Electing and disconnected, and
      every move it makes is a step of the protocol. It may be called again after a
      finished run.
     */
    method StartElection(script: Script) returns (finished: bool)
      requires Valid() && (mode.Clustered? ==> phase.Idle? || phase.Exited?)
      modifies this
      ensures Valid()
      ensures mode.Standalone? ==> finished && state == Leader && !etcdConnected
      ensures mode.Clustered? && finished ==> phase.Exited? && state == Electing && !etcdConnected
      ensures mode.Clustered? && !finished ==> phase.Serving?
      ensures mode.Clustered? ==> old(trace) <= trace
      ensures mode.Clustered? && hasEtcdConfig && GetsAnswer(script) ==>
                && Became(old(trace), trace, Verdict(mode.nodeId, script.txn))
                && finished == LoopEnds(script.loop, old(shutdownSignal))
      ensures mode.Clustered? && !(hasEtcdConfig && GetsAnswer(script)) ==> finished
    {
      match mode
      case Standalone =>
        etcdConnected := false;
        SetState(Leader);
        finished := true;
      case Clustered(_) =>
        ghost var n0 := Here();
        if phase.Exited? {
          phase := Idle;
          Took(StartAgain(0), Absent, n0);
        }
        if hasEtcdConfig && script.connects {
          finished := RunElection(script);
        } else {
          GiveUp();
          finished := true;
        }
    }

    method RunElection(script: Script) returns (finished: bool)
      requires Valid() && mode.Clustered? && phase.Idle?
      modifies this
      ensures Valid() && old(trace) <= trace
      ensures if finished then phase.Exited? && state == Electing && !etcdConnected else phase.Serving?
      ensures if script.granted && !script.txn.TxnFailed? then
                && Became(old(trace), trace, Verdict(mode.nodeId, script.txn))
                && finished == LoopEnds(script.loop, old(shutdownSignal))
              else finished
    {
      hide Follows, Compact;
      ghost var n0 := Here();
      etcdConnected := true;
      phase := Connected;
      Took(Connect(0), Absent, n0);
      if !script.granted {
        GiveUp();
        return true;
      }
      ghost var n1 := Here();
      phase := Granted(script.lease);
      Took(Grant(0, script.lease), Absent, n1);
      finished := CompeteForKey(script);
    }

    /** The transaction on the election key, and what its answer makes of the node. */
    method CompeteForKey(script: Script) returns (finished: bool)
      requires Valid() && mode.Clustered? && phase == Granted(script.lease)
      modifies this
      ensures Valid() && old(trace) <= trace
      ensures !script.txn.TxnFailed? ==>
                && |trace| >= |old(trace)| + 2 && trace[|old(trace)| + 1].phase.Serving?
                && trace[|old(trace)| + 1].state == Verdict(mode.nodeId, script.txn)
                && finished == LoopEnds(script.loop, old(shutdownSignal))
      ensures script.txn.TxnFailed? ==> finished
      ensures if finished then phase.Exited? && state == Electing && !etcdConnected else phase.Serving?
    {
      hide Follows, Compact;
      if script.txn.TxnFailed? {
        GiveUp();
        return true;
      }
      var leader := if script.txn.TxnSucceeded? then mode.nodeId else script.txn.leaderId;
      ghost var n2 := Here();
      phase := Answered(script.lease, leader);
      Took(Elect(0), if script.txn.TxnSucceeded? then Absent else Held(leader, 0), n2);
      ghost var n3 := Here();
      if script.txn.TxnSucceeded? || leader == mode.nodeId {
        SetState(Leader);
      } else {
        SetState(Follower(leader));
      }
      phase := Serving(script.lease);
      Took(Adopt(0), Absent, n3);
      finished := Serve(script);
    }

    /** The keep-alive loop. */
    method Serve(script: Script) returns (finished: bool)
      requires Valid() && mode.Clustered? && phase == Serving(script.lease)
      modifies this
      ensures Valid() && old(trace) <= trace
      ensures if finished then phase.Exited? && state == Electing && !etcdConnected else phase.Serving?
      ensures finished == LoopEnds(script.loop, old(shutdownSignal))
    {
      hide Follows, Compact;
      assert script.loop[0..] == script.loop;
      for i := 0 to |script.loop|
        invariant Valid() && phase == Serving(script.lease) && old(trace) <= trace
        invariant LoopEnds(script.loop, old(shutdownSignal)) == LoopEnds(script.loop[i..], shutdownSignal)
      {
        assert script.loop[i..][0] == script.loop[i] && script.loop[i..][1..] == script.loop[i + 1..];
        match script.loop[i]
        case Tick(ok) =>
          if !ok {
            GiveUp();
            return true;
          }
        case ShutdownCalled =>
          Shutdown();
        case ShutdownNoticed =>
          if shutdownSignal {
            ghost var n0 := Here();
            phase := Revoking(script.lease);
            Took(SeeShutdown(0), Absent, n0);
            ghost var n1 := Here();
            phase := Resigning(true);
            Took(Revoke(0), Absent, n1);
            Resign();
            return true;
          }
      }
      finished := false;
    }
  }
}
