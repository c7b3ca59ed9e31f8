/** When `stop` is bound to return: whatever the other threads do, or with a fair scheduler and a draining receiver
    (fake.rs, frame.rs). */
module StopReturns {
  import opened Basics
  import opened FakeFrames
  import opened Streaming
  import opened StopProtocol

  // ---------------------------------------------------------------- who can take the room away

  /** A pipeline that can always deliver another frame, if need be by being restarted. */
  predicate Productive(config: CameraConfig) {
    FrameNumber(config, 0).Returned? && config.frameCount != Some(0)
  }

  /** Another pipeline that competes for the channel. */
  predicate Rival(s: System, w: nat, q: nat)
    requires w < |s.workers|
  {
    q < |s.pipelines| && q != s.workers[w].pipeline && Productive(s.pipelines[q].config)
  }

  ghost predicate HasRival(s: System, w: nat)
    requires w < |s.workers|
  {
    exists q :: Rival(s, w, q)
  }

  /** A worker bound for a send that will not return without the receiver. */
  predicate Blocked(s: System, w: nat) {
    w < |s.workers| && WillSend(s.workers[w]) && !SendReturns(s)
  }

  /** Some schedule without the receiver blocks the worker. */
  ghost predicate CanBlock(s: System, w: nat) {
    exists trace :: Feasible(s, trace) && NoReceiver(trace) && Blocked(Exec(s, trace), w)
  }

  // ---------------------------------------------------------------- without a rival the room stays

  ghost predicate Unblockable(s: System, w: nat)
    requires w < |s.workers|
  {
    !WillSend(s.workers[w]) || !s.receiverAlive || (|s.queue| < s.capacity && !HasRival(s, w))
  }

  /** A pipeline has at most one live worker. */
  lemma OneLiveWorker(s: System, w: nat, v: nat)
    requires Inv(s) && w < |s.workers| && v < |s.workers| && s.workers[v].pipeline == s.workers[w].pipeline
    requires !s.workers[w].Done() && !s.workers[v].Done()
    ensures v == w
  {
    assert LiveOwned(s, w) && LiveOwned(s, v) && PipelineInv(s, s.workers[w].pipeline);
  }

  /** Whoever is sending belongs to a productive pipeline. */
  lemma SenderIsProductive(s: System, v: nat)
    requires Inv(s) && v < |s.workers| && s.workers[v].phase.Sending?
    ensures s.workers[v].pipeline < |s.pipelines| && Productive(s.pipelines[s.workers[v].pipeline].config)
  {
    assert LiveOwned(s, v) && WorkerInv(FramesOf(s.History(), v), s.workers[v]);
    FrameNumberPanicsExactly(s.workers[v].config, |FramesOf(s.History(), v)|);
  }

  lemma ConfigsFixed(s: System, a: Action)
    requires Enabled(s, a)
    ensures |Next(s, a).pipelines| == |s.pipelines|
    ensures forall q :: 0 <= q < |s.pipelines| ==> Next(s, a).pipelines[q].config == s.pipelines[q].config
  {
  }

  lemma RivalsFixed(s: System, a: Action, w: nat)
    requires Enabled(s, a) && w < |s.workers|
    ensures w < |Next(s, a).workers| && (forall q :: Rival(Next(s, a), w, q) <==> Rival(s, w, q))
  {
    ConfigsFixed(s, a);
    WorkersEvolve(s, a, w);
  }

  /** A flagged worker that will not send before its next look at the flag never will. */
  lemma NoSendStays(s: System, a: Action, w: nat)
    requires Enabled(s, a) && w < |s.workers| && s.workers[w].stopFlag && !WillSend(s.workers[w])
    ensures w < |Next(s, a).workers| && !WillSend(Next(s, a).workers[w])
  {
    WorkersEvolve(s, a, w);
    if !(ActsAs(a, w) || a == Handoff(w)) {
      OtherActionKeepsWorker(s, a, w);
    }
  }

  lemma SendTakesRoom(s: System, v: nat, w: nat)
    requires Inv(s) && Enabled(s, Send(v)) && w < |s.workers| && WillSend(s.workers[w]) && !HasRival(s, w)
    ensures v == w
  {
    SenderIsProductive(s, v);
    assert !Rival(s, w, s.workers[v].pipeline);
    OneLiveWorker(s, w, v);
  }

  lemma UnblockableStep(s: System, a: Action, w: nat)
    requires Inv(s) && Enabled(s, a) && !ByReceiver(a) && w < |s.workers| && s.workers[w].stopFlag && Unblockable(s, w)
    ensures w < |Next(s, a).workers| && Unblockable(Next(s, a), w)
  {
    RivalsFixed(s, a, w);
    if !WillSend(s.workers[w]) {
      NoSendStays(s, a, w);
    } else if s.receiverAlive && a.Send? {
      SendTakesRoom(s, a.worker, w);
    }
  }

  lemma {:induction false} UnblockableRun(s: System, trace: seq<Action>, w: nat)
    requires Inv(s) && Feasible(s, trace) && NoReceiver(trace)
    requires w < |s.workers| && s.workers[w].stopFlag && Unblockable(s, w)
    ensures w < |Exec(s, trace).workers| && Unblockable(Exec(s, trace), w)
    decreases |trace|
  {
    if trace != [] {
      UnblockableStep(s, trace[0], w);
      StepKeepsInv(s, trace[0]);
      WorkersEvolve(s, trace[0], w);
      assert forall i :: 0 <= i < |trace[1..]| ==> trace[1..][i] == trace[i + 1];
      UnblockableRun(Next(s, trace[0]), trace[1..], w);
    }
  }

  // ---------------------------------------------------------------- a rival can fill the channel

  /** The worker reaches a send before its next chance to end. */
  predicate WillProduce(w: Worker) {
    match w.phase
    case Sending(_) => true
    case Generating => true
    case Limiting => !LimitHit(w)
    case Loading => !w.stopFlag && !LimitHit(w)
    case Sleeping => !w.stopFlag && !LimitHit(w)
    case _ => false
  }

  /** Own steps to the next send, or to the end of the worker. */
  function Distance(w: Worker): nat {
    match w.phase
    case Sending(_) => 1
    case Generating => 2
    case Limiting => 3
    case Loading => 4
    case Sleeping => 5
    case _ => 0
  }

  /** Steps to the pipeline's next frame in the channel: its worker's, or those of ending, joining and restarting it. */
  function Effort(s: System, q: nat): nat
    requires Inv(s) && q < |s.pipelines|
  {
    assert PipelineInv(s, q);
    match (s.pipelines[q].thread, s.pipelines[q].joining)
    case (Some(v), _) => WorkerEffort(s.workers[v], 14)
    case (None, Some(v)) => WorkerEffort(s.workers[v], 8)
    case (None, None) => if s.pipelines[q].running then 7 else 6
  }

  /** A worker that will end first costs the steps to the pipeline's next life on top. */
  function WorkerEffort(w: Worker, nextLife: nat): nat {
    Distance(w) + if WillProduce(w) then 0 else nextLife
  }

  /** The next action of a pipeline, its worker or whoever starts and stops it. */
  function Drive(s: System, q: nat): Action
    requires Inv(s) && q < |s.pipelines|
  {
    assert PipelineInv(s, q);
    match (s.pipelines[q].thread, s.pipelines[q].joining)
    case (Some(v), _) => if s.workers[v].Done() then SetFlag(q) else OwnAction(s, v)
    case (None, Some(v)) => if s.workers[v].Done() then Join(q) else OwnAction(s, v)
    case (None, None) => if s.pipelines[q].running then SetFlag(q) else Start(q)
  }

  /** One own action of a worker of a productive pipeline. */
  lemma WorkerDrives(w: Worker, a: Action)
    requires w.config.format.Valid() && FrameNumber(w.config, 0).Returned? && Ready(w, a) && !w.phase.Sending?
    ensures var n := WorkerAfter(w, a);
      forall nextLife :: WorkerEffort(n, nextLife) < WorkerEffort(w, nextLife)
  {
    FrameNumberPanicsExactly(w.config, w.sequence);
  }

  /** The pipeline's next action puts a frame into the channel, or brings the next one closer. */
  ghost predicate Progresses(s: System, q: nat)
    requires Inv(s) && q < |s.pipelines|
  {
    var a := Drive(s, q);
    && Enabled(s, a) && !ByReceiver(a)
    && var n := Next(s, a);
       && Inv(n) && |n.pipelines| == |s.pipelines|
       && n.receiverAlive == s.receiverAlive && n.capacity == s.capacity
       && if a.Send? then |n.queue| == |s.queue| + 1
          else |n.queue| == |s.queue| && Effort(n, q) < Effort(s, q)
  }

  lemma SenderProgresses(s: System, q: nat, v: nat)
    requires Inv(s) && q < |s.pipelines| && s.receiverAlive && |s.queue| < s.capacity
    requires v < |s.workers| && s.workers[v].phase.Sending? && Drive(s, q) == Send(v)
    ensures Progresses(s, q)
  {
    StepKeepsInv(s, Send(v));
    ConfigsFixed(s, Send(v));
  }

  /** An own action other than a send leaves the channel and all pipelines as they are. */
  lemma QuietOwnAction(s: System, v: nat)
    requires v < |s.workers| && !s.workers[v].Done() && !s.workers[v].phase.Sending?
    ensures var a := OwnAction(s, v);
      && Enabled(s, a) && !ByReceiver(a) && !a.Send?
      && Next(s, a) == s.(workers := s.workers[v := WorkerAfter(s.workers[v], a)])
  {
  }

  lemma WorkerProgresses(s: System, q: nat, v: nat)
    requires Inv(s) && q < |s.pipelines| && Productive(s.pipelines[q].config)
    requires s.receiverAlive && (Drive(s, q).Send? ==> |s.queue| < s.capacity)
    requires s.pipelines[q].thread == Some(v) || (s.pipelines[q].thread == None && s.pipelines[q].joining == Some(v))
    requires v < |s.workers| && !s.workers[v].Done()
    ensures Progresses(s, q)
  {
    var a := OwnAction(s, v);
    assert Drive(s, q) == a;
    if s.workers[v].phase.Sending? {
      SenderProgresses(s, q, v);
    } else {
      assert LiveOwned(s, v) && PipelineInv(s, q);
      assert WorkerInv(FramesOf(s.History(), v), s.workers[v]);
      QuietOwnAction(s, v);
      StepKeepsInv(s, a);
      WorkerDrives(s.workers[v], a);
    }
  }

  lemma EndedProgresses(s: System, q: nat, v: nat)
    requires Inv(s) && q < |s.pipelines|
    requires s.pipelines[q].thread == Some(v) || (s.pipelines[q].thread == None && s.pipelines[q].joining == Some(v))
    requires v < |s.workers| && s.workers[v].Done()
    ensures Progresses(s, q)
  {
    assert PipelineInv(s, q);
    StepKeepsInv(s, Drive(s, q));
    assert PipelineInv(Next(s, Drive(s, q)), q);
  }

  lemma IdleProgresses(s: System, q: nat)
    requires Inv(s) && q < |s.pipelines| && Productive(s.pipelines[q].config)
    requires s.pipelines[q].thread == None && s.pipelines[q].joining == None
    ensures Progresses(s, q)
  {
    StepKeepsInv(s, Drive(s, q));
    assert PipelineInv(Next(s, Drive(s, q)), q);
  }

  lemma DriveProgresses(s: System, q: nat)
    requires Inv(s) && q < |s.pipelines| && Productive(s.pipelines[q].config)
    requires s.receiverAlive && (Drive(s, q).Send? ==> |s.queue| < s.capacity)
    ensures Progresses(s, q)
  {
    assert PipelineInv(s, q);
    var v := if s.pipelines[q].thread.Some? then s.pipelines[q].thread else s.pipelines[q].joining;
    if v == None {
      IdleProgresses(s, q);
    } else if s.workers[v.value].Done() {
      EndedProgresses(s, q, v.value);
    } else {
      WorkerProgresses(s, q, v.value);
    }
  }

  /** Driving another pipeline does not touch a flagged worker. */
  lemma DriveLeavesWorker(s: System, q: nat, w: nat)
    requires Inv(s) && w < |s.workers| && s.workers[w].stopFlag && q < |s.pipelines| && q != s.workers[w].pipeline
    requires Enabled(s, Drive(s, q)) && !ByReceiver(Drive(s, q))
    ensures w < |Next(s, Drive(s, q)).workers| && Next(s, Drive(s, q)).workers[w] == s.workers[w]
  {
    assert PipelineInv(s, q);
    OtherActionKeepsWorker(s, Drive(s, q), w);
  }

  /** A rival fills the channel, however its pipeline stands, while the worker waits. */
  lemma {:induction false} RivalFills(s: System, w: nat, q: nat) returns (trace: seq<Action>)
    requires Inv(s) && w < |s.workers| && s.workers[w].stopFlag && Rival(s, w, q) && s.receiverAlive
    ensures Feasible(s, trace) && NoReceiver(trace)
    ensures var t := Exec(s, trace);
      w < |t.workers| && t.workers[w] == s.workers[w] && t.receiverAlive && |t.queue| >= t.capacity
    decreases s.capacity - |s.queue|, Effort(s, q)
  {
    if |s.queue| >= s.capacity {
      trace := [];
    } else {
      var a := Drive(s, q);
      DriveProgresses(s, q);
      DriveLeavesWorker(s, q, w);
      RivalsFixed(s, a, w);
      assert Rival(Next(s, a), w, q);
      var rest := RivalFills(Next(s, a), w, q);
      trace := [a] + rest;
      assert trace[1..] == rest;
    }
  }

  /** Exact condition for a flagged worker to be blocked by what the other threads do: it is bound for a send, the
      receiver lives, and the channel is full or another productive pipeline can fill it. */
  lemma CanBlockExactly(s: System, w: nat)
    requires Inv(s) && w < |s.workers| && s.workers[w].stopFlag
    ensures CanBlock(s, w) <==>
      WillSend(s.workers[w]) && s.receiverAlive && (|s.queue| >= s.capacity || HasRival(s, w))
  {
    if Unblockable(s, w) {
      forall trace | Feasible(s, trace) && NoReceiver(trace)
        ensures !Blocked(Exec(s, trace), w)
      {
        UnblockableRun(s, trace, w);
      }
    } else if |s.queue| >= s.capacity {
      var trace: seq<Action> := [];
      assert Feasible(s, trace) && NoReceiver(trace) && Blocked(Exec(s, trace), w);
    } else {
      var q :| Rival(s, w, q);
      var trace := RivalFills(s, w, q);
      assert Blocked(Exec(s, trace), w);
    }
  }

  /** At most five own steps, none of which waits for anyone, end the worker. */
  ghost predicate EndsAlone(s: System, w: nat) {
    exists trace :: OnlyOwn(trace, w) && |trace| <= 5 && Feasible(s, trace)
                    && w < |Exec(s, trace).workers| && Exec(s, trace).workers[w].Done()
  }

  /** However the other threads have been scheduled, the worker ends by itself, and `stop` returns, without the
      receiver. */
  ghost predicate BoundToEnd(s: System, w: nat) {
    forall trace :: Feasible(s, trace) && NoReceiver(trace) ==> EndsAlone(Exec(s, trace), w)
  }

  lemma EndsAloneExactly(s: System, w: nat)
    requires w < |s.workers| && s.workers[w].stopFlag
    ensures EndsAlone(s, w) <==> !Blocked(s, w)
  {
    if EndsAlone(s, w) {
      var trace :| OnlyOwn(trace, w) && |trace| <= 5 && Feasible(s, trace)
                   && w < |Exec(s, trace).workers| && Exec(s, trace).workers[w].Done();
      assert NoReceiver(trace);
      CanEndExactly(s, w);
    } else if !Blocked(s, w) {
      var trace := FinishesAlone(s, w);
    }
  }

  lemma {:induction false} FlagStays(s: System, trace: seq<Action>, w: nat)
    requires Feasible(s, trace) && w < |s.workers| && s.workers[w].stopFlag
    ensures w < |Exec(s, trace).workers| && Exec(s, trace).workers[w].stopFlag
    decreases |trace|
  {
    if trace != [] {
      WorkersEvolve(s, trace[0], w);
      FlagStays(Next(s, trace[0]), trace[1..], w);
    }
  }

  /** Exact condition for `stop` to be bound to return whatever the other threads do and without the receiver: the
      worker is not bound for a send, or the receiver is gone, or there is room and no rival to take it. Then at every
      later moment at most five of its own steps end it. Pipelines count as independently owned: another one may be
      started, stopped and started again while this `stop` waits. */
  lemma StopReturnsExactly(s: System, w: nat)
    requires Inv(s) && w < |s.workers| && s.workers[w].stopFlag
    ensures BoundToEnd(s, w) <==>
      (WillSend(s.workers[w]) && s.receiverAlive ==> |s.queue| < s.capacity && !HasRival(s, w))
  {
    CanBlockExactly(s, w);
    if CanBlock(s, w) {
      var trace :| Feasible(s, trace) && NoReceiver(trace) && Blocked(Exec(s, trace), w);
      FlagStays(s, trace, w);
      EndsAloneExactly(Exec(s, trace), w);
    } else {
      forall trace | Feasible(s, trace) && NoReceiver(trace)
        ensures EndsAlone(Exec(s, trace), w)
      {
        FlagStays(s, trace, w);
        EndsAloneExactly(Exec(s, trace), w);
      }
    }
  }

  // ---------------------------------------------------------------- fair runs with a draining receiver

  /** One turn of a run; at a `None` nothing happens. */
  predicate Turns(s: System, action: Option<Action>, next: System) {
    match action
    case None => next == s
    case Some(a) => Enabled(s, a) && next == Next(s, a)
  }

  /** An infinite run. */
  ghost predicate IsRun(states: nat -> System, actions: nat -> Option<Action>) {
    forall n: nat :: Turns(states(n), actions(n), states(n + 1))
  }

  predicate Moves(action: Option<Action>, w: nat) {
    action.Some? && (ActsAs(action.value, w) || action.value == Handoff(w))
  }

  /** An own action or a rendezvous of the worker is enabled. */
  predicate CanMove(s: System, w: nat) {
    && w < |s.workers| && !s.workers[w].Done()
    && (s.workers[w].phase.Sending? ==> SendReturns(s) || s.capacity == 0)
  }

  ghost predicate MovesAfter(actions: nat -> Option<Action>, w: nat, n: nat) {
    exists m :: m >= n && Moves(actions(m), w)
  }

  ghost predicate StuckFrom(states: nat -> System, w: nat, m: nat) {
    forall k :: k >= m ==> !CanMove(states(k), w)
  }

  ghost predicate StuckAfter(states: nat -> System, w: nat, n: nat) {
    exists m :: m >= n && StuckFrom(states, w, m)
  }

  /** Strong fairness for one worker: if it can move again and again, it moves again and again. */
  ghost predicate Fair(states: nat -> System, actions: nat -> Option<Action>, w: nat) {
    forall n :: MovesAfter(actions, w, n) || StuckAfter(states, w, n)
  }

  predicate Drained(s: System, action: Option<Action>) {
    action == Some(Receive) || s.queue == [] || !s.receiverAlive
  }

  ghost predicate DrainedAfter(states: nat -> System, actions: nat -> Option<Action>, n: nat) {
    exists m :: m >= n && Drained(states(m), actions(m))
  }

  /** The receiver takes a frame, or finds none, again and again, unless it is gone. */
  ghost predicate Drains(states: nat -> System, actions: nat -> Option<Action>) {
    forall n :: DrainedAfter(states, actions, n)
  }

  lemma {:induction false} RunInv(states: nat -> System, actions: nat -> Option<Action>, w: nat, n: nat)
    requires IsRun(states, actions) && Inv(states(0)) && w < |states(0).workers| && states(0).workers[w].stopFlag
    ensures Inv(states(n)) && w < |states(n).workers| && states(n).workers[w].stopFlag
  {
    if n > 0 {
      RunInv(states, actions, w, n - 1);
      assert Turns(states(n - 1), actions(n - 1), states(n));
      if actions(n - 1).Some? {
        StepKeepsInv(states(n - 1), actions(n - 1).value);
        WorkersEvolve(states(n - 1), actions(n - 1).value, w);
      }
    }
  }

  lemma RankTurn(states: nat -> System, actions: nat -> Option<Action>, w: nat, n: nat)
    requires IsRun(states, actions) && Inv(states(0)) && w < |states(0).workers| && states(0).workers[w].stopFlag
    ensures w < |states(n).workers| && w < |states(n + 1).workers|
    ensures Rank(states(n + 1).workers[w]) + (if Moves(actions(n), w) then 1 else 0) <= Rank(states(n).workers[w])
  {
    RunInv(states, actions, w, n);
    assert Turns(states(n), actions(n), states(n + 1));
    if actions(n).Some? {
      RankStep(states(n), actions(n).value, w);
      assert [actions(n).value][1..] == [];
    }
  }

  lemma {:induction false} RankFalls(states: nat -> System, actions: nat -> Option<Action>, w: nat, n: nat, m: nat)
    requires IsRun(states, actions) && Inv(states(0)) && w < |states(0).workers| && states(0).workers[w].stopFlag
    requires n <= m
    ensures w < |states(n).workers| && w < |states(m).workers|
    ensures Rank(states(m).workers[w]) <= Rank(states(n).workers[w])
    decreases m - n
  {
    RunInv(states, actions, w, n);
    if n < m {
      RankTurn(states, actions, w, n);
      RankFalls(states, actions, w, n + 1, m);
    }
  }

  /** Around a turn that drains, an unfinished worker can move. */
  lemma DrainedMoves(s: System, action: Option<Action>, next: System, w: nat)
    requires Inv(s) && Turns(s, action, next) && Drained(s, action)
    requires w < |s.workers| && s.workers[w].stopFlag
    ensures w < |next.workers|
    ensures next.workers[w].Done() || CanMove(s, w) || CanMove(next, w)
  {
    if action.Some? {
      WorkersEvolve(s, action.value, w);
    }
    if !s.workers[w].Done() && action == Some(Receive) {
      ReceiveMakesRoom(s);
    }
  }

  lemma ReceiveMakesRoom(s: System)
    requires Inv(s) && Enabled(s, Receive)
    ensures Next(s, Receive).workers == s.workers
    ensures |Next(s, Receive).queue| < Next(s, Receive).capacity
  {
  }

  /** Under a fair scheduler and a receiver that keeps draining, or is dropped, a flagged worker ends, from every
      reachable state and against every competitor: `stop` returns. */
  lemma {:induction false} FairStopReturns(states: nat -> System, actions: nat -> Option<Action>, w: nat, n: nat)
    returns (end: nat)
    requires IsRun(states, actions) && Inv(states(0)) && w < |states(0).workers| && states(0).workers[w].stopFlag
    requires Fair(states, actions, w) && Drains(states, actions)
    requires w < |states(n).workers|
    ensures end >= n && w < |states(end).workers| && states(end).workers[w].Done()
    decreases Rank(states(n).workers[w])
  {
    RunInv(states, actions, w, n);
    if states(n).workers[w].Done() {
      end := n;
    } else if MovesAfter(actions, w, n) {
      var m :| m >= n && Moves(actions(m), w);
      RankFalls(states, actions, w, n, m);
      RankTurn(states, actions, w, m);
      end := FairStopReturns(states, actions, w, m + 1);
    } else {
      assert StuckAfter(states, w, n);
      var m :| m >= n && StuckFrom(states, w, m);
      assert DrainedAfter(states, actions, m);
      var d :| d >= m && Drained(states(d), actions(d));
      RunInv(states, actions, w, d);
      assert Turns(states(d), actions(d), states(d + 1));
      DrainedMoves(states(d), actions(d), states(d + 1), w);
      end := d + 1;
    }
  }

  // ---------------------------------------------------------------- fair runs without the receiver

  ghost predicate HeldAfter(states: nat -> System, w: nat, n: nat) {
    exists m :: m >= n && !CanMoveAlone(states(m), w)
  }

  /** An own action of the worker is enabled. */
  predicate CanMoveAlone(s: System, w: nat) {
    w < |s.workers| && !s.workers[w].Done() && (s.workers[w].phase.Sending? ==> SendReturns(s))
  }

  /** Weak fairness for one worker: if it can always move from some turn on, it moves again. */
  ghost predicate WeaklyFair(states: nat -> System, actions: nat -> Option<Action>, w: nat) {
    forall n :: MovesAfter(actions, w, n) || HeldAfter(states, w, n)
  }

  ghost predicate WithoutReceiver(actions: nat -> Option<Action>) {
    forall n :: actions(n).Some? ==> !ByReceiver(actions(n).value)
  }

  /** A flagged worker that no schedule without the receiver can block. */
  ghost predicate Calm(s: System, w: nat) {
    Inv(s) && w < |s.workers| && s.workers[w].stopFlag && Unblockable(s, w)
  }

  lemma CalmTurn(s: System, action: Option<Action>, next: System, w: nat)
    requires Calm(s, w) && Turns(s, action, next) && (action.Some? ==> !ByReceiver(action.value))
    ensures Calm(next, w)
  {
    if action.Some? {
      UnblockableStep(s, action.value, w);
      StepKeepsInv(s, action.value);
      WorkersEvolve(s, action.value, w);
    }
  }

  lemma {:induction false} CalmTurns(states: nat -> System, actions: nat -> Option<Action>, w: nat, n: nat)
    requires IsRun(states, actions) && WithoutReceiver(actions) && Calm(states(0), w)
    ensures Calm(states(n), w)
  {
    if n > 0 {
      CalmTurns(states, actions, w, n - 1);
      assert Turns(states(n - 1), actions(n - 1), states(n));
      CalmTurn(states(n - 1), actions(n - 1), states(n), w);
    }
  }

  /** Where `StopReturnsExactly` says that `stop` is bound to return, it does, in every run without the receiver that is
      no more than weakly fair to the worker. */
  lemma {:induction false} FairStopReturnsAlone(states: nat -> System, actions: nat -> Option<Action>, w: nat, n: nat)
    returns (end: nat)
    requires IsRun(states, actions) && WithoutReceiver(actions) && WeaklyFair(states, actions, w)
    requires Inv(states(0)) && w < |states(0).workers| && states(0).workers[w].stopFlag
    requires BoundToEnd(states(0), w)
    requires w < |states(n).workers|
    ensures end >= n && w < |states(end).workers| && states(end).workers[w].Done()
    decreases Rank(states(n).workers[w])
  {
    StopReturnsExactly(states(0), w);
    if states(n).workers[w].Done() {
      end := n;
    } else if MovesAfter(actions, w, n) {
      var m :| m >= n && Moves(actions(m), w);
      RankFalls(states, actions, w, n, m);
      RankTurn(states, actions, w, m);
      end := FairStopReturnsAlone(states, actions, w, m + 1);
    } else {
      assert HeldAfter(states, w, n);
      end :| end >= n && !CanMoveAlone(states(end), w);
      CalmTurns(states, actions, w, end);
    }
  }
}
