/** When a `stop` can wait for ever, told from the configurations and the channel alone: for pipelines that anyone may
    restart at any time, and for one owner that does one thing at a time (fake.rs, frame.rs). */
module StopHangs {
  import opened Basics
  import opened Frames
  import opened FakeFrames
  import opened Streaming
  import opened StopProtocol
  import opened StopReturns

  // ---------------------------------------------------------------- a stop that hangs

  /** The `stop` of this pipeline waits for a worker that will not end without the receiver. */
  predicate Hung(s: System, p: nat) {
    p < |s.pipelines| && s.pipelines[p].joining.Some? && Blocked(s, s.pipelines[p].joining.value)
  }

  ghost predicate SomeHung(s: System) {
    exists p: nat :: Hung(s, p)
  }

  /** It hangs for good: whatever the other threads do, only the receiver can release it. */
  lemma {:induction false} HungForGood(s: System, p: nat, trace: seq<Action>)
    requires Inv(s) && Hung(s, p) && Feasible(s, trace) && NoReceiver(trace)
    ensures Hung(Exec(s, trace), p)
    decreases |trace|
  {
    if trace != [] {
      var a, w := trace[0], s.pipelines[p].joining.value;
      assert PipelineInv(s, p);
      OthersLeavePipeline(s, a, p);
      BlockedStep(s, a, w);
      StepKeepsInv(s, a);
      assert forall i :: 0 <= i < |trace[1..]| ==> trace[1..][i] == trace[i + 1];
      HungForGood(Next(s, a), p, trace[1..]);
    }
  }

  // ---------------------------------------------------------------- independently owned pipelines

  lemma BlockedIsProductive(s: System, w: nat)
    requires Inv(s) && Blocked(s, w)
    ensures s.workers[w].pipeline < |s.pipelines| && Productive(s.pipelines[s.workers[w].pipeline].config)
  {
    assert LiveOwned(s, w) && WorkerInv(FramesOf(s.History(), w), s.workers[w]);
    if s.workers[w].phase.Sending? {
      SenderIsProductive(s, w);
    } else {
      FrameNumberPanicsExactly(s.workers[w].config, s.workers[w].sequence);
    }
  }

  predicate HasConfigs(s: System, configs: seq<CameraConfig>) {
    |s.pipelines| == |configs| && forall p :: 0 <= p < |configs| ==> s.pipelines[p].config == configs[p]
  }

  lemma {:induction false} RunKeepsConfigs(s: System, trace: seq<Action>, configs: seq<CameraConfig>)
    requires Feasible(s, trace) && HasConfigs(s, configs)
    ensures HasConfigs(Exec(s, trace), configs)
    decreases |trace|
  {
    if trace != [] {
      ConfigsFixed(s, trace[0]);
      RunKeepsConfigs(Next(s, trace[0]), trace[1..], configs);
    }
  }

  /** The pipeline's worker stands in a send that nothing but the receiver can end. */
  predicate StandsAtSend(s: System, q: nat)
    requires Inv(s) && q < |s.pipelines|
  {
    Drive(s, q).Send? && |s.queue| >= s.capacity
  }

  /** Flagging such a worker, if it is not flagged yet, hangs the `stop`. */
  lemma FlagHangs(s: System, q: nat) returns (trace: seq<Action>)
    requires Inv(s) && q < |s.pipelines| && s.receiverAlive && StandsAtSend(s, q)
    ensures Feasible(s, trace) && NoReceiver(trace) && Hung(Exec(s, trace), q)
  {
    assert PipelineInv(s, q);
    if s.pipelines[q].thread.Some? {
      trace := [SetFlag(q)];
      assert trace[1..] == [];
      assert Exec(s, trace) == Next(s, SetFlag(q));
    } else {
      trace := [];
    }
  }

  /** One productive pipeline is enough: run, and restarted as often as it takes, it fills the channel and then stands
      at a send; stopped there it hangs. */
  lemma {:induction false} ProductiveHangs(s: System, q: nat) returns (trace: seq<Action>)
    requires Inv(s) && q < |s.pipelines| && Productive(s.pipelines[q].config) && s.receiverAlive
    ensures Feasible(s, trace) && NoReceiver(trace) && Hung(Exec(s, trace), q)
    decreases s.capacity - |s.queue|, Effort(s, q)
  {
    if StandsAtSend(s, q) {
      trace := FlagHangs(s, q);
    } else {
      var a := Drive(s, q);
      DriveProgresses(s, q);
      ConfigsFixed(s, a);
      var rest := ProductiveHangs(Next(s, a), q);
      trace := [a] + rest;
      assert trace[1..] == rest;
    }
  }

  /** From the start, some run without the receiver hangs a `stop`. */
  ghost predicate CanHang(capacity: nat, configs: seq<CameraConfig>) {
    var s := Init(capacity, configs);
    exists trace :: Feasible(s, trace) && NoReceiver(trace) && SomeHung(Exec(s, trace))
  }

  /** If pipelines may be restarted at any time, a `stop` can hang exactly when some camera ever makes a frame,
      however large the channel is. */
  lemma CanHangExactly(capacity: nat, configs: seq<CameraConfig>)
    requires ValidConfigs(configs)
    ensures CanHang(capacity, configs) <==> exists i :: 0 <= i < |configs| && Productive(configs[i])
  {
    var s := Init(capacity, configs);
    InitInv(capacity, configs);
    if CanHang(capacity, configs) {
      var trace :| Feasible(s, trace) && NoReceiver(trace) && SomeHung(Exec(s, trace));
      var p: nat :| Hung(Exec(s, trace), p);
      RunKeepsInv(s, trace);
      RunKeepsConfigs(s, trace, configs);
      BlockedIsProductive(Exec(s, trace), Exec(s, trace).pipelines[p].joining.value);
    }
    if i :| 0 <= i < |configs| && Productive(configs[i]) {
      var trace := ProductiveHangs(s, i);
      assert SomeHung(Exec(s, trace));
    }
  }

  // ---------------------------------------------------------------- one owner

  predicate NeverStarted(s: System, p: nat) {
    forall w :: 0 <= w < |s.workers| ==> s.workers[w].pipeline != p
  }

  /** No `stop` is waiting. */
  predicate OwnerIdle(s: System) {
    forall p :: 0 <= p < |s.pipelines| ==> s.pipelines[p].joining == None
  }

  /** One owner of all pipelines does nothing else while a `stop` waits, and starts no pipeline twice. */
  predicate ByOneOwner(s: System, a: Action) {
    match a
    case Start(p) => OwnerIdle(s) && NeverStarted(s, p)
    case SetFlag(_) => OwnerIdle(s)
    case _ => true
  }

  /** A run under one owner in which the receiver takes nothing. */
  predicate Orderly(s: System, trace: seq<Action>)
    decreases |trace|
  {
    trace != [] ==>
      && Enabled(s, trace[0]) && !ByReceiver(trace[0]) && ByOneOwner(s, trace[0])
      && Orderly(Next(s, trace[0]), trace[1..])
  }

  /** A run under one owner, whatever the receiver does. */
  predicate OwnedRun(s: System, trace: seq<Action>)
    decreases |trace|
  {
    trace != [] ==>
      && Enabled(s, trace[0]) && ByOneOwner(s, trace[0])
      && OwnedRun(Next(s, trace[0]), trace[1..])
  }

  lemma {:induction false} OrderlyIsOwned(s: System, trace: seq<Action>)
    requires Orderly(s, trace)
    ensures OwnedRun(s, trace) && Feasible(s, trace) && NoReceiver(trace)
    decreases |trace|
  {
    if trace != [] {
      OrderlyIsOwned(Next(s, trace[0]), trace[1..]);
      assert forall i :: 1 <= i < |trace| ==> trace[i] == trace[1..][i - 1];
    }
  }

  // ---------------------------------------------------------------- frames still to come

  /** Frames a worker would still make if never stopped; without a limit they count as more than the channel holds. */
  function StillToMake(w: Worker, capacity: nat): nat {
    if !FrameNumber(w.config, 0).Returned? then 0
    else match w.config.frameCount
      case None => capacity + 1
      case Some(limit) => if w.sequence < limit then limit - w.sequence else 0
  }

  /** Frames a worker can still send: a flagged one at most the frame it is at. */
  function FramesLeft(w: Worker, capacity: nat): nat {
    var more := StillToMake(w, capacity);
    match w.phase
    case Sending(_) => 1 + if w.stopFlag then 0 else more
    case Generating => if w.stopFlag && more > 0 then 1 else more
    case Limiting => if w.stopFlag && more > 0 then 1 else more
    case Loading => if w.stopFlag then 0 else more
    case Sleeping => if w.stopFlag then 0 else more
    case Exited(_) => 0
    case Crashed => 0
  }

  /** What a camera will send in one life. */
  function Quota(config: CameraConfig, capacity: nat): nat {
    if !Productive(config) then 0
    else match config.frameCount
      case None => capacity + 1
      case Some(limit) => limit
  }

  /** The worker of a pipeline that has not been joined. */
  function Current(pipeline: Pipeline): Option<nat> {
    if pipeline.thread.Some? then pipeline.thread else pipeline.joining
  }

  /** Frames a pipeline can still send if it is not started twice. */
  function PipelineLeft(s: System, p: nat): nat
    requires p < |s.pipelines|
  {
    match Current(s.pipelines[p])
    case Some(w) => if w < |s.workers| then FramesLeft(s.workers[w], s.capacity) else 0
    case None => if NeverStarted(s, p) then Quota(s.pipelines[p].config, s.capacity) else 0
  }

  function Lefts(s: System): (r: seq<nat>)
    ensures |r| == |s.pipelines| && forall p :: 0 <= p < |r| ==> r[p] == PipelineLeft(s, p)
  {
    seq(|s.pipelines|, p requires 0 <= p < |s.pipelines| => PipelineLeft(s, p))
  }

  /** Steps of a pipeline and its owner to the next frame or to the end. */
  function PipelineSteps(s: System, p: nat): nat
    requires p < |s.pipelines|
  {
    match Current(s.pipelines[p])
    case Some(w) => if w < |s.workers| then 1 + Distance(s.workers[w]) else 0
    case None => if NeverStarted(s, p) then 7 else 0
  }

  function Steps(s: System): (r: seq<nat>)
    ensures |r| == |s.pipelines| && forall p :: 0 <= p < |r| ==> r[p] == PipelineSteps(s, p)
  {
    seq(|s.pipelines|, p requires 0 <= p < |s.pipelines| => PipelineSteps(s, p))
  }

  function Sum(xs: seq<nat>): nat {
    if xs == [] then 0 else xs[0] + Sum(xs[1..])
  }

  lemma {:induction false} SumUpdate(xs: seq<nat>, ys: seq<nat>, p: nat)
    requires |xs| == |ys| && p < |xs|
    requires forall i :: 0 <= i < |xs| && i != p ==> xs[i] == ys[i]
    ensures Sum(ys) + xs[p] == Sum(xs) + ys[p]
  {
    if p == 0 {
      assert xs[1..] == ys[1..];
    } else {
      SumUpdate(xs[1..], ys[1..], p - 1);
    }
  }

  lemma {:induction false} SumAtLeast(xs: seq<nat>, p: nat)
    requires p < |xs|
    ensures Sum(xs) >= xs[p]
  {
    if p > 0 {
      SumAtLeast(xs[1..], p - 1);
    }
  }

  lemma {:induction false} SumPositive(xs: seq<nat>) returns (p: nat)
    requires Sum(xs) > 0
    ensures p < |xs| && xs[p] > 0
  {
    if xs[0] > 0 {
      p := 0;
    } else {
      p := SumPositive(xs[1..]);
      p := p + 1;
    }
  }

  /** Frames still to come, with those already in the channel. */
  function Load(s: System): nat { Sum(Lefts(s)) + |s.queue| }

  // ---------------------------------------------------------------- each action touches one pipeline

  /** The pipeline an action belongs to. */
  function Touched(s: System, a: Action): nat
    requires Enabled(s, a) && !ByReceiver(a)
  {
    if a.Start? || a.SetFlag? || a.Join? then a.pipeline else s.workers[a.worker].pipeline
  }

  lemma OthersWorkerSame(s: System, a: Action, w: nat)
    requires Inv(s) && Enabled(s, a) && !ByReceiver(a) && w < |s.workers| && s.workers[w].pipeline != Touched(s, a)
    ensures w < |Next(s, a).workers| && Next(s, a).workers[w] == s.workers[w]
  {
    if a.SetFlag? {
      assert PipelineInv(s, a.pipeline);
    }
  }

  lemma NeverStartedSame(s: System, a: Action, q: nat)
    requires Enabled(s, a) && a != Start(q)
    ensures NeverStarted(Next(s, a), q) <==> NeverStarted(s, q)
  {
    var n := Next(s, a);
    forall w | 0 <= w < |s.workers|
      ensures w < |n.workers| && n.workers[w].pipeline == s.workers[w].pipeline
    {
      WorkersEvolve(s, a, w);
    }
    assert |n.workers| > |s.workers| ==> a.Start? && n.workers[|s.workers|].pipeline == a.pipeline;
  }

  lemma OtherPipelineSame(s: System, a: Action, q: nat)
    requires Inv(s) && Enabled(s, a) && !ByReceiver(a) && q < |s.pipelines| && q != Touched(s, a)
    ensures q < |Next(s, a).pipelines|
    ensures PipelineLeft(Next(s, a), q) == PipelineLeft(s, q) && PipelineSteps(Next(s, a), q) == PipelineSteps(s, q)
  {
    assert PipelineInv(s, q);
    OthersLeavePipeline(s, a, q);
    NeverStartedSame(s, a, q);
    if Current(s.pipelines[q]).Some? {
      OthersWorkerSame(s, a, Current(s.pipelines[q]).value);
    }
  }

  lemma TouchedInRange(s: System, a: Action)
    requires Inv(s) && Enabled(s, a) && !ByReceiver(a)
    ensures Touched(s, a) < |s.pipelines| == |Next(s, a).pipelines|
  {
    ConfigsFixed(s, a);
    if !(a.Start? || a.SetFlag? || a.Join?) {
      assert LiveOwned(s, a.worker);
    }
  }

  /** Only the touched pipeline's share of the sums changes. */
  lemma SumsStep(s: System, a: Action)
    requires Inv(s) && Enabled(s, a) && !ByReceiver(a)
    ensures var p, n := Touched(s, a), Next(s, a);
      && p < |s.pipelines| == |n.pipelines|
      && Sum(Lefts(n)) + PipelineLeft(s, p) == Sum(Lefts(s)) + PipelineLeft(n, p)
      && Sum(Steps(n)) + PipelineSteps(s, p) == Sum(Steps(s)) + PipelineSteps(n, p)
  {
    var p, n := Touched(s, a), Next(s, a);
    TouchedInRange(s, a);
    forall q | 0 <= q < |s.pipelines| && q != p
      ensures Lefts(s)[q] == Lefts(n)[q] && Steps(s)[q] == Steps(n)[q]
    {
      OtherPipelineSame(s, a, q);
    }
    SumUpdate(Lefts(s), Lefts(n), p);
    SumUpdate(Steps(s), Steps(n), p);
  }

  // ---------------------------------------------------------------- what an action does to its own pipeline

  lemma OwnLeft(w: Worker, a: Action, capacity: nat)
    requires w.config.format.Valid() && Ready(w, a) && !a.FailSend?
    requires w.phase.Generating? ==> StillToMake(w, capacity) > 0 || !FrameNumber(w.config, 0).Returned?
    ensures var sent := if a.Send? || a.Handoff? then 1 else 0;
      var n := WorkerAfter(w, a);
      && FramesLeft(n, capacity) + sent >= FramesLeft(w, capacity)
      && (FramesLeft(w, capacity) <= capacity ==> FramesLeft(n, capacity) + sent == FramesLeft(w, capacity))
      && Distance(n) < Distance(w) + if a.Send? || a.Handoff? then 6 else 0
  {
    FrameNumberPanicsExactly(w.config, w.sequence);
  }

  /** A worker about to make a frame has one to make. */
  lemma GeneratingHasLeft(s: System, w: nat)
    requires Inv(s) && w < |s.workers| && s.workers[w].phase.Generating?
    ensures StillToMake(s.workers[w], s.capacity) > 0 || !FrameNumber(s.workers[w].config, 0).Returned?
  {
    assert WorkerInv(FramesOf(s.History(), w), s.workers[w]);
  }

  /** A worker's own action: with a channel that holds all there is to come, what it leaves and sends is what it had. */
  lemma WorkerTouches(s: System, a: Action, w: nat)
    requires Inv(s) && Enabled(s, a) && ActsAs(a, w) && !a.FailSend?
    ensures w < |s.workers| && s.workers[w].pipeline < |s.pipelines| == |Next(s, a).pipelines|
    ensures var p, n := s.workers[w].pipeline, Next(s, a);
      var sent := if a.Send? then 1 else 0;
      && |n.queue| == |s.queue| + sent
      && PipelineLeft(n, p) + sent >= PipelineLeft(s, p)
      && (PipelineLeft(s, p) <= s.capacity ==> PipelineLeft(n, p) + sent == PipelineLeft(s, p))
      && (!a.Send? ==> PipelineSteps(n, p) < PipelineSteps(s, p))
  {
    var p := s.workers[w].pipeline;
    LiveIsCurrent(s, w);
    assert WorkerInv(FramesOf(s.History(), w), s.workers[w]);
    OthersLeavePipeline(s, a, p);
    OwnActionEffect(s, a, w);
    if s.workers[w].phase.Generating? {
      GeneratingHasLeft(s, w);
    }
    OwnLeft(s.workers[w], a, s.capacity);
  }

  lemma StartTouches(s: System, p: nat)
    requires Inv(s) && Enabled(s, Start(p)) && NeverStarted(s, p)
    ensures var n := Next(s, Start(p));
      && |n.queue| == |s.queue| && p < |n.pipelines|
      && PipelineLeft(n, p) == PipelineLeft(s, p) && PipelineSteps(n, p) < PipelineSteps(s, p)
  {
    assert PipelineInv(s, p);
  }

  lemma FlagTouches(s: System, p: nat)
    requires Inv(s) && Enabled(s, SetFlag(p))
    ensures var n := Next(s, SetFlag(p));
      |n.queue| == |s.queue| && p < |n.pipelines| && PipelineLeft(n, p) <= PipelineLeft(s, p)
  {
    assert PipelineInv(s, p);
    NeverStartedSame(s, SetFlag(p), p);
  }

  lemma JoinTouches(s: System, p: nat)
    requires Inv(s) && Enabled(s, Join(p))
    ensures var n := Next(s, Join(p));
      && |n.queue| == |s.queue| && p < |n.pipelines|
      && PipelineLeft(n, p) == PipelineLeft(s, p) && PipelineSteps(n, p) < PipelineSteps(s, p)
  {
    assert PipelineInv(s, p);
    var w := s.pipelines[p].joining.value;
    NeverStartedSame(s, Join(p), p);
    assert s.workers[w].pipeline == p;
  }

  // ---------------------------------------------------------------- what fits never blocks

  /** While all that is still to come fits the channel, an action of one owner or of a worker keeps it so. */
  lemma FitStep(s: System, a: Action)
    requires Inv(s) && Enabled(s, a) && !ByReceiver(a) && ByOneOwner(s, a) && s.receiverAlive && Load(s) <= s.capacity
    ensures var n := Next(s, a); n.receiverAlive && n.capacity == s.capacity && Load(n) <= n.capacity
  {
    SumsStep(s, a);
    var p := Touched(s, a);
    SumAtLeast(Lefts(s), p);
    if a.Start? {
      StartTouches(s, p);
    } else if a.SetFlag? {
      FlagTouches(s, p);
    } else if a.Join? {
      JoinTouches(s, p);
    } else {
      WorkerTouches(s, a, a.worker);
    }
  }

  lemma SenderHasLeft(delivered: seq<Frame>, w: Worker, capacity: nat)
    requires WorkerInv(delivered, w) && WillSend(w)
    ensures FramesLeft(w, capacity) > 0
  {
    FrameNumberPanicsExactly(w.config, w.sequence);
  }

  /** A worker bound for a send has a frame left. */
  lemma WillSendHasLeft(s: System, w: nat)
    requires Inv(s) && w < |s.workers| && WillSend(s.workers[w])
    ensures s.workers[w].pipeline < |s.pipelines| && PipelineLeft(s, s.workers[w].pipeline) > 0
  {
    SenderHasLeft(FramesOf(s.History(), w), s.workers[w], s.capacity);
    LiveIsCurrent(s, w);
  }

  lemma LiveIsCurrent(s: System, w: nat)
    requires Inv(s) && w < |s.workers| && !s.workers[w].Done()
    ensures s.workers[w].pipeline < |s.pipelines| && Current(s.pipelines[s.workers[w].pipeline]) == Some(w)
  {
    assert LiveOwned(s, w) && PipelineInv(s, s.workers[w].pipeline);
  }

  lemma FitNeverBlocks(s: System, w: nat)
    requires Inv(s) && Load(s) <= s.capacity
    ensures !Blocked(s, w)
  {
    if Blocked(s, w) {
      WillSendHasLeft(s, w);
      SumAtLeast(Lefts(s), s.workers[w].pipeline);
    }
  }

  ghost predicate Harmless(s: System) { !s.receiverAlive || Load(s) <= s.capacity }

  /** Nor does the receiver change that: taking frames only makes room, and a rendezvous needs a frame left. */
  lemma HarmlessStep(s: System, a: Action)
    requires Inv(s) && Enabled(s, a) && ByOneOwner(s, a) && Harmless(s)
    ensures Harmless(Next(s, a))
  {
    if s.receiverAlive {
      if a.Handoff? {
        WillSendHasLeft(s, a.worker);
        SumAtLeast(Lefts(s), s.workers[a.worker].pipeline);
      } else if a.Receive? {
        assert Lefts(Next(s, a)) == Lefts(s);
      } else if !ByReceiver(a) {
        FitStep(s, a);
      }
    }
  }

  lemma {:induction false} HarmlessRun(s: System, trace: seq<Action>)
    requires Inv(s) && OwnedRun(s, trace) && Harmless(s)
    ensures Feasible(s, trace) && Inv(Exec(s, trace)) && Harmless(Exec(s, trace))
    decreases |trace|
  {
    if trace != [] {
      StepKeepsInv(s, trace[0]);
      HarmlessStep(s, trace[0]);
      HarmlessRun(Next(s, trace[0]), trace[1..]);
    }
  }

  // ---------------------------------------------------------------- what does not fit can hang

  /** An action that loses no frame and either fills the channel further or brings the next frame closer. */
  ghost predicate Advances(s: System, a: Action) {
    && Enabled(s, a) && !ByReceiver(a) && ByOneOwner(s, a)
    && var n := Next(s, a);
       && Inv(n) && n.receiverAlive == s.receiverAlive && n.capacity == s.capacity && Load(n) >= Load(s)
       && if a.Send? then |n.queue| == |s.queue| + 1 else |n.queue| == |s.queue| && Sum(Steps(n)) < Sum(Steps(s))
  }

  lemma WorkerAdvances(s: System, w: nat)
    requires Inv(s) && s.receiverAlive && w < |s.workers| && !s.workers[w].Done()
    requires s.workers[w].phase.Sending? ==> |s.queue| < s.capacity
    ensures Advances(s, OwnAction(s, w))
  {
    var a := OwnAction(s, w);
    StepKeepsInv(s, a);
    SumsStep(s, a);
    WorkerTouches(s, a, w);
  }

  lemma StartAdvances(s: System, p: nat)
    requires Inv(s) && OwnerIdle(s) && p < |s.pipelines| && Current(s.pipelines[p]) == None && PipelineLeft(s, p) > 0
    ensures Advances(s, Start(p))
  {
    assert PipelineInv(s, p);
    assert !s.pipelines[p].running;
    StepKeepsInv(s, Start(p));
    SumsStep(s, Start(p));
    StartTouches(s, p);
  }

  lemma JoinAdvances(s: System, p: nat)
    requires Inv(s) && Enabled(s, Join(p))
    ensures Advances(s, Join(p))
  {
    StepKeepsInv(s, Join(p));
    SumsStep(s, Join(p));
    JoinTouches(s, p);
  }

  /** While a `stop` waits for a worker that is not blocked, that worker, or the join, goes on. */
  lemma WaitingAdvances(s: System, p: nat) returns (a: Action)
    requires Inv(s) && s.receiverAlive && p < |s.pipelines| && s.pipelines[p].joining.Some? && !Hung(s, p)
    ensures Advances(s, a)
  {
    assert PipelineInv(s, p);
    var w := s.pipelines[p].joining.value;
    if s.workers[w].Done() {
      a := Join(p);
      JoinAdvances(s, p);
    } else {
      a := OwnAction(s, w);
      WorkerAdvances(s, w);
    }
  }

  /** With an idle owner and frames left, some pipeline goes on, unless its worker stands at a send into a full channel:
      stopping that one hangs. */
  lemma IdleAdvances(s: System) returns (a: Action)
    requires Inv(s) && s.receiverAlive && OwnerIdle(s) && Sum(Lefts(s)) > 0
    ensures Advances(s, a) || (Enabled(s, a) && !ByReceiver(a) && ByOneOwner(s, a) && SomeHung(Next(s, a)))
  {
    var p := SumPositive(Lefts(s));
    assert PipelineInv(s, p);
    if s.pipelines[p].thread == None {
      a := Start(p);
      StartAdvances(s, p);
    } else {
      var w := s.pipelines[p].thread.value;
      if s.workers[w].phase.Sending? && |s.queue| >= s.capacity {
        a := SetFlag(p);
        assert Hung(Next(s, a), p);
      } else {
        a := OwnAction(s, w);
        WorkerAdvances(s, w);
      }
    }
  }

  ghost predicate GoesOn(s: System, a: Action) {
    && Enabled(s, a) && !ByReceiver(a) && ByOneOwner(s, a)
    && (Advances(s, a) || SomeHung(Next(s, a)))
  }

  lemma OverloadGoesOn(s: System) returns (a: Action)
    requires Inv(s) && s.receiverAlive && Load(s) > s.capacity && !SomeHung(s)
    ensures GoesOn(s, a)
  {
    if OwnerIdle(s) {
      a := IdleAdvances(s);
    } else {
      var p :| 0 <= p < |s.pipelines| && s.pipelines[p].joining != None;
      assert !Hung(s, p);
      a := WaitingAdvances(s, p);
    }
  }

  /** An orderly run to a hung `stop`. */
  ghost predicate LeadsToHang(s: System, trace: seq<Action>) {
    Orderly(s, trace) && Feasible(s, trace) && SomeHung(Exec(s, trace))
  }

  lemma LeadsFromNext(s: System, a: Action, rest: seq<Action>)
    requires Enabled(s, a) && !ByReceiver(a) && ByOneOwner(s, a) && LeadsToHang(Next(s, a), rest)
    ensures LeadsToHang(s, [a] + rest)
  {
    assert ([a] + rest)[1..] == rest;
  }

  /** If more is to come than the channel holds, some run of one owner hangs. */
  lemma {:induction false} OverloadHangs(s: System) returns (trace: seq<Action>)
    requires Inv(s) && s.receiverAlive && Load(s) > s.capacity
    ensures LeadsToHang(s, trace)
    decreases s.capacity - |s.queue|, Sum(Steps(s))
  {
    trace := [];
    if !SomeHung(s) {
      var a := OverloadGoesOn(s);
      if !SomeHung(Next(s, a)) {
        trace := OverloadHangs(Next(s, a));
      }
      LeadsFromNext(s, a, trace);
      trace := [a] + trace;
    }
  }

  /** Some run of one owner, without the receiver, hangs a `stop`. */
  ghost predicate CanHangOwned(s: System) {
    exists trace :: LeadsToHang(s, trace)
  }

  /** Exact condition under one owner that restarts nothing: a `stop` can hang exactly when the receiver lives and the
      frames still to come exceed the room in the channel. */
  lemma OwnedStopHangsExactly(s: System)
    requires Inv(s)
    ensures CanHangOwned(s) <==> s.receiverAlive && Load(s) > s.capacity
  {
    if Harmless(s) {
      forall trace | Orderly(s, trace)
        ensures !LeadsToHang(s, trace)
      {
        OrderlyIsOwned(s, trace);
        HarmlessRun(s, trace);
        HarmlessHangsNothing(Exec(s, trace));
      }
    } else {
      var trace := OverloadHangs(s);
    }
  }

  lemma HarmlessHangsNothing(s: System)
    requires Inv(s) && Harmless(s)
    ensures !SomeHung(s)
  {
    forall p: nat
      ensures !Hung(s, p)
    {
      if Hung(s, p) {
        FitNeverBlocks(s, s.pipelines[p].joining.value);
      }
    }
  }

  // ---------------------------------------------------------------- told before anything is started

  /** The frame limits of the cameras that make frames at all. */
  function Limits(configs: seq<CameraConfig>): (r: seq<nat>)
    ensures |r| == |configs|
    ensures forall i :: 0 <= i < |r| ==>
      r[i] == if Productive(configs[i]) && configs[i].frameCount.Some? then configs[i].frameCount.value else 0
  {
    seq(|configs|, i requires 0 <= i < |configs| =>
      if Productive(configs[i]) && configs[i].frameCount.Some? then configs[i].frameCount.value else 0)
  }

  /** Every camera that makes frames has a limit, and the channel holds them all. */
  predicate FitsChannel(capacity: nat, configs: seq<CameraConfig>) {
    && (forall i :: 0 <= i < |configs| && Productive(configs[i]) ==> configs[i].frameCount.Some?)
    && Sum(Limits(configs)) <= capacity
  }

  lemma InitLoad(capacity: nat, configs: seq<CameraConfig>)
    ensures Load(Init(capacity, configs)) <= capacity <==> FitsChannel(capacity, configs)
  {
    var s := Init(capacity, configs);
    if i :| 0 <= i < |configs| && Productive(configs[i]) && configs[i].frameCount == None {
      assert Lefts(s)[i] == capacity + 1;
      SumAtLeast(Lefts(s), i);
    } else {
      assert Lefts(s) == Limits(configs);
    }
  }

  /** Exact condition the owner can check before it starts anything: with one owner and no restarts no `stop` can hang,
      whenever it is called, exactly when every camera that makes frames has a limit and the limits sum to at most the
      channel's capacity. */
  lemma SpawnedStopHangsExactly(capacity: nat, configs: seq<CameraConfig>)
    requires ValidConfigs(configs)
    ensures CanHangOwned(Init(capacity, configs)) <==> !FitsChannel(capacity, configs)
  {
    InitInv(capacity, configs);
    InitLoad(capacity, configs);
    OwnedStopHangsExactly(Init(capacity, configs));
  }

  /** Under that condition no `stop` hangs in any run of the owner, whatever the receiver takes or leaves. */
  lemma FittingStopNeverHangs(capacity: nat, configs: seq<CameraConfig>, trace: seq<Action>)
    requires ValidConfigs(configs) && FitsChannel(capacity, configs) && OwnedRun(Init(capacity, configs), trace)
    ensures Feasible(Init(capacity, configs), trace) && !SomeHung(Exec(Init(capacity, configs), trace))
  {
    InitInv(capacity, configs);
    InitLoad(capacity, configs);
    HarmlessRun(Init(capacity, configs), trace);
    HarmlessHangsNothing(Exec(Init(capacity, configs), trace));
  }
}
