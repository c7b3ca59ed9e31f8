/** What stopping a pipeline guarantees, and when `stop` can return at all (fake.rs, frame.rs). */
module StopProtocol {
  import opened FakeFrames
  import opened Streaming

  // ---------------------------------------------------------------- at most one more frame

  /** A worker past its last look at the flag can still deliver one frame. */
  function Budget(w: Worker): nat {
    if w.phase.Limiting? || w.phase.Generating? || w.phase.Sending? then 1 else 0
  }

  lemma BudgetStep(s: System, a: Action, w: nat)
    requires Inv(s) && Enabled(s, a) && w < |s.workers| && s.workers[w].stopFlag
    ensures Next(s, a).workers[w].stopFlag
    ensures |FramesOf(Next(s, a).History(), w)| + Budget(Next(s, a).workers[w]) <=
            |FramesOf(s.History(), w)| + Budget(s.workers[w])
  {
    FramesStep(s, a, w);
    WorkersEvolve(s, a, w);
    if ActsAs(a, w) || a == Handoff(w) {
      OwnActionEffect(s, a, w);
      OwnBudgetStep(s.workers[w], a);
    } else {
      OtherActionKeepsWorker(s, a, w);
    }
  }

  lemma OwnBudgetStep(w: Worker, a: Action)
    requires w.stopFlag && Ready(w, a)
    ensures Budget(WorkerAfter(w, a)) + (if a.Send? || a.Handoff? then 1 else 0) <= Budget(w)
  {
  }

  /** Once a worker's stop flag is set, at most one more of its frames ever enters the channel, and none if it
      was not past its last look at the flag, whatever everyone else does. */
  lemma {:induction false} AtMostOneMoreFrame(s: System, trace: seq<Action>, w: nat)
    requires Inv(s) && Feasible(s, trace) && w < |s.workers| && s.workers[w].stopFlag
    ensures w < |Exec(s, trace).workers|
    ensures |FramesOf(Exec(s, trace).History(), w)| + Budget(Exec(s, trace).workers[w]) <=
            |FramesOf(s.History(), w)| + Budget(s.workers[w])
    decreases |trace|
  {
    if trace != [] {
      BudgetStep(s, trace[0], w);
      StepKeepsInv(s, trace[0]);
      WorkersEvolve(s, trace[0], w);
      AtMostOneMoreFrame(Next(s, trace[0]), trace[1..], w);
    }
  }

  // ---------------------------------------------------------------- none after stop has returned

  lemma DoneStays(s: System, a: Action, w: nat)
    requires Inv(s) && Enabled(s, a) && w < |s.workers| && s.workers[w].Done()
    ensures w < |Next(s, a).workers| && Next(s, a).workers[w].Done()
    ensures FramesOf(Next(s, a).History(), w) == FramesOf(s.History(), w)
  {
    FramesStep(s, a, w);
    WorkersEvolve(s, a, w);
  }

  /** A pipeline that is not running (never started, or stopped successfully) has no live worker, and none of its
      past workers delivers another frame in any continuation, restarts of the pipeline included. */
  lemma {:induction false} NoFrameAfterStop(s: System, trace: seq<Action>, w: nat)
    requires Inv(s) && Feasible(s, trace) && w < |s.workers|
    requires s.workers[w].pipeline < |s.pipelines|
    requires !s.pipelines[s.workers[w].pipeline].running || s.workers[w].Done()
    ensures w < |Exec(s, trace).workers| && Exec(s, trace).workers[w].Done()
    ensures FramesOf(Exec(s, trace).History(), w) == FramesOf(s.History(), w)
    decreases |trace|
  {
    assert LiveOwned(s, w) && PipelineInv(s, s.workers[w].pipeline);
    if trace != [] {
      DoneStays(s, trace[0], w);
      StepKeepsInv(s, trace[0]);
      WorkersEvolve(s, trace[0], w);
      OthersLeavePipeline(s, trace[0], s.workers[w].pipeline);
      NoFrameAfterStop(Next(s, trace[0]), trace[1..], w);
    }
  }

  // ---------------------------------------------------------------- bounded number of own steps

  /** Own steps a flagged worker has left before its thread ends. */
  function Rank(w: Worker): nat {
    match w.phase
    case Limiting => 5
    case Generating => 4
    case Sending(_) => 3
    case Sleeping => 2
    case Loading => 1
    case Exited(_) => 0
    case Crashed => 0
  }

  function OwnSteps(trace: seq<Action>, w: nat): nat {
    if trace == [] then 0
    else (if ActsAs(trace[0], w) || trace[0] == Handoff(w) then 1 else 0) + OwnSteps(trace[1..], w)
  }

  lemma RankStep(s: System, a: Action, w: nat)
    requires Enabled(s, a) && w < |s.workers| && s.workers[w].stopFlag
    ensures w < |Next(s, a).workers| && Next(s, a).workers[w].stopFlag
    ensures Rank(Next(s, a).workers[w]) + OwnSteps([a], w) <= Rank(s.workers[w])
  {
    assert [a][1..] == [];
    WorkersEvolve(s, a, w);
    if !(ActsAs(a, w) || a == Handoff(w)) {
      OtherActionKeepsWorker(s, a, w);
    }
  }

  /** A flagged worker takes at most five more steps of its own, in every interleaving. */
  lemma {:induction false} FewOwnSteps(s: System, trace: seq<Action>, w: nat)
    requires Feasible(s, trace) && w < |s.workers| && s.workers[w].stopFlag
    ensures w < |Exec(s, trace).workers|
    ensures Rank(Exec(s, trace).workers[w]) + OwnSteps(trace, w) <= Rank(s.workers[w]) <= 5
    decreases |trace|
  {
    if trace != [] {
      RankStep(s, trace[0], w);
      assert [trace[0]][1..] == [];
      FewOwnSteps(Next(s, trace[0]), trace[1..], w);
    }
  }

  // ---------------------------------------------------------------- when stop can return

  /** The worker will reach a send before it looks at its flag again. */
  predicate WillSend(w: Worker) {
    match w.phase
    case Sending(_) => true
    case Generating => FrameNumber(w.config, w.sequence).Returned?
    case Limiting => !LimitHit(w) && FrameNumber(w.config, w.sequence).Returned?
    case _ => false
  }

  /** A send returns without help: there is room, or no receiver to wait for. */
  predicate SendReturns(s: System) { s.receiverAlive ==> |s.queue| < s.capacity }

  /** The next own action of a live worker. */
  function OwnAction(s: System, w: nat): Action
    requires w < |s.workers| && !s.workers[w].Done()
  {
    match s.workers[w].phase
    case Loading => LoadFlag(w)
    case Limiting => CheckLimit(w)
    case Generating => Generate(w)
    case Sending(_) => if s.receiverAlive then Send(w) else FailSend(w)
    case Sleeping => Wake(w)
    case _ => Wake(w)
  }

  predicate OnlyOwn(trace: seq<Action>, w: nat) {
    forall i :: 0 <= i < |trace| ==> ActsAs(trace[i], w)
  }

  predicate NoReceiver(trace: seq<Action>) {
    forall i :: 0 <= i < |trace| ==> !ByReceiver(trace[i])
  }

  /** Left alone, a flagged worker that needs no send, or whose send returns, ends within five own steps. */
  lemma {:induction false} FinishesAlone(s: System, w: nat) returns (trace: seq<Action>)
    requires w < |s.workers| && s.workers[w].stopFlag
    requires WillSend(s.workers[w]) ==> SendReturns(s)
    ensures |trace| <= Rank(s.workers[w]) && OnlyOwn(trace, w) && Feasible(s, trace)
    ensures w < |Exec(s, trace).workers| && Exec(s, trace).workers[w].Done()
    decreases Rank(s.workers[w])
  {
    if s.workers[w].Done() {
      trace := [];
    } else {
      var a := OwnAction(s, w);
      RankStep(s, a, w);
      assert OwnSteps([a], w) == 1 by {
        assert [a][1..] == [];
      }
      var rest := FinishesAlone(Next(s, a), w);
      trace := [a] + rest;
      assert trace[1..] == rest;
    }
  }

  lemma BlockedStep(s: System, a: Action, w: nat)
    requires Enabled(s, a) && w < |s.workers| && !ByReceiver(a)
    requires WillSend(s.workers[w]) && !SendReturns(s)
    ensures w < |Next(s, a).workers| && WillSend(Next(s, a).workers[w]) && !SendReturns(Next(s, a))
  {
    WorkersEvolve(s, a, w);
    if !(ActsAs(a, w) || a == Handoff(w)) {
      OtherActionKeepsWorker(s, a, w);
    }
  }

  /** With the queue full and the receiver alive but idle, a worker bound for a send never ends: every `join` on it
      waits for the receiver, whatever the other threads do. */
  lemma {:induction false} BlockedForever(s: System, trace: seq<Action>, w: nat)
    requires Feasible(s, trace) && w < |s.workers| && NoReceiver(trace)
    requires WillSend(s.workers[w]) && !SendReturns(s)
    ensures w < |Exec(s, trace).workers| && !Exec(s, trace).workers[w].Done()
    decreases |trace|
  {
    if trace != [] {
      BlockedStep(s, trace[0], w);
      assert forall i :: 0 <= i < |trace[1..]| ==> trace[1..][i] == trace[i + 1];
      BlockedForever(Next(s, trace[0]), trace[1..], w);
    }
  }

  /** A way to end the worker without any action of the receiver. */
  ghost predicate CanEndWithoutReceiver(s: System, w: nat) {
    exists trace :: Feasible(s, trace) && NoReceiver(trace)
                    && w < |Exec(s, trace).workers| && Exec(s, trace).workers[w].Done()
  }

  /** Exact condition for being able to stop without the consumer's help: some schedule ends a flagged worker exactly
      when it is not bound for a send, or there is room in the channel, or the receiver has been dropped. */
  lemma CanEndExactly(s: System, w: nat)
    requires w < |s.workers| && s.workers[w].stopFlag
    ensures CanEndWithoutReceiver(s, w) <==> (WillSend(s.workers[w]) ==> SendReturns(s))
  {
    if WillSend(s.workers[w]) ==> SendReturns(s) {
      var trace := FinishesAlone(s, w);
      assert NoReceiver(trace);
    } else if CanEndWithoutReceiver(s, w) {
      var trace :| Feasible(s, trace) && NoReceiver(trace)
                   && w < |Exec(s, trace).workers| && Exec(s, trace).workers[w].Done();
      BlockedForever(s, trace, w);
    }
  }

  /** A draining receiver always unblocks: whatever the state, receiving (or a rendezvous) and the worker's own steps
      end a flagged worker. */
  lemma {:induction false} DrainingReceiverUnblocks(s: System, w: nat) returns (trace: seq<Action>)
    requires Inv(s) && w < |s.workers| && s.workers[w].stopFlag
    ensures Feasible(s, trace) && w < |Exec(s, trace).workers| && Exec(s, trace).workers[w].Done()
    ensures forall i :: 0 <= i < |trace| ==> trace[i] == Receive || trace[i] == Handoff(w) || ActsAs(trace[i], w)
    decreases Rank(s.workers[w]), |s.queue|
  {
    if s.workers[w].Done() {
      trace := [];
    } else {
      var a := if s.workers[w].phase.Sending? && !SendReturns(s)
               then if s.queue != [] then Receive else Handoff(w)
               else OwnAction(s, w);
      RankStep(s, a, w);
      assert OwnSteps([a], w) == if a.Receive? then 0 else 1 by {
        assert [a][1..] == [];
      }
      StepKeepsInv(s, a);
      var rest := DrainingReceiverUnblocks(Next(s, a), w);
      trace := [a] + rest;
      assert trace[1..] == rest;
    }
  }
}
