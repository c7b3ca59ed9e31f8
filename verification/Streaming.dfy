/** Worker threads, stop flags and the shared bounded channel as a step system (fake.rs, frame.rs): every action
    is one atomic step, and a run of the system is any interleaving of enabled actions. */
module Streaming {
  import opened Basics
  import opened Frames
  import opened FakeFrames

  // ---------------------------------------------------------------- states

  /** Where a worker is in `run_loop`. `Exited` remembers whether its last frame was lost in a failed send. */
  datatype Phase =
    | Loading
    | Limiting
    | Generating
    | Sending(frame: Frame)
    | Sleeping
    | Exited(lost: bool)
    | Crashed

  /** One execution of `run_loop`, from `start` to the end of its thread. */
  datatype Worker = Worker(pipeline: nat, config: CameraConfig, stopFlag: bool, sequence: nat, phase: Phase) {
    predicate Done() { phase.Exited? || phase.Crashed? }
  }

  /** `FakeCameraPipeline`: `flag` and `thread` name the worker they belong to, `joining` the one `stop` waits for. */
  datatype Pipeline = Pipeline(config: CameraConfig, running: bool, flag: Option<nat>, thread: Option<nat>,
                               joining: Option<nat>) {
    /** `start` on a stopped pipeline, spawning worker w. */
    function Started(w: nat): Pipeline { this.(running := true, flag := Some(w), thread := Some(w)) }

    /** `stop` up to the join: the thread handle is taken; without one there is nothing to wait for. */
    function Stopping(): Pipeline {
      match thread
      case Some(w) => this.(thread := None, joining := Some(w))
      case None => this.(running := false, flag := None)
    }

    /** `stop` after the join; when the worker panicked the error returns early and the pipeline stays running. */
    function Joined(crashed: bool): Pipeline {
      if crashed then this.(joining := None) else this.(running := false, flag := None, joining := None)
    }
  }

  /** A frame in the channel, tagged with the worker that sent it. */
  datatype Tagged = Tagged(worker: nat, frame: Frame)

  datatype System = System(capacity: nat, receiverAlive: bool, queue: seq<Tagged>, received: seq<Tagged>,
                           discarded: seq<Tagged>, workers: seq<Worker>, pipelines: seq<Pipeline>) {
    /** Every frame that ever entered the channel, in order. */
    function History(): seq<Tagged> { received + discarded + queue }
  }

  function Init(capacity: nat, configs: seq<CameraConfig>): System {
    System(capacity, true, [], [], [], [],
           seq(|configs|, i requires 0 <= i < |configs| => Pipeline(configs[i], false, None, None, None)))
  }

  // ---------------------------------------------------------------- actions

  datatype Action =
    | LoadFlag(worker: nat)
    | CheckLimit(worker: nat)
    | Generate(worker: nat)
    | Send(worker: nat)          // into a queue with room
    | FailSend(worker: nat)      // the receiver is gone
    | Wake(worker: nat)
    | Handoff(worker: nat)       // rendezvous with a waiting receiver, capacity 0
    | Receive
    | DropReceiver
    | Start(pipeline: nat)
    | SetFlag(pipeline: nat)     // first half of `stop`
    | Join(pipeline: nat)        // second half of `stop`

  /** The actions a worker's own thread takes. */
  predicate ActsAs(a: Action, w: nat) {
    match a
    case LoadFlag(v) => v == w
    case CheckLimit(v) => v == w
    case Generate(v) => v == w
    case Send(v) => v == w
    case FailSend(v) => v == w
    case Wake(v) => v == w
    case _ => false
  }

  /** The actions of the receiving side. */
  predicate ByReceiver(a: Action) { a.Receive? || a.DropReceiver? || a.Handoff? }

  predicate At(s: System, w: nat, phase: Phase) { w < |s.workers| && s.workers[w].phase == phase }

  predicate Enabled(s: System, a: Action) {
    match a
    case LoadFlag(w) => At(s, w, Loading)
    case CheckLimit(w) => At(s, w, Limiting)
    case Generate(w) => At(s, w, Generating)
    case Send(w) => w < |s.workers| && s.workers[w].phase.Sending? && s.receiverAlive && |s.queue| < s.capacity
    case FailSend(w) => w < |s.workers| && s.workers[w].phase.Sending? && !s.receiverAlive
    case Wake(w) => At(s, w, Sleeping)
    case Handoff(w) => w < |s.workers| && s.workers[w].phase.Sending? && s.receiverAlive && s.capacity == 0
    case Receive => s.receiverAlive && s.queue != []
    case DropReceiver => s.receiverAlive
    case Start(p) => p < |s.pipelines| && !s.pipelines[p].running
    case SetFlag(p) => p < |s.pipelines| && s.pipelines[p].running && s.pipelines[p].joining == None
    case Join(p) =>
      && p < |s.pipelines| && s.pipelines[p].joining.Some?
      && s.pipelines[p].joining.value < |s.workers| && s.workers[s.pipelines[p].joining.value].Done()
  }

  function LimitHit(w: Worker): bool {
    w.config.frameCount.Some? && w.sequence >= w.config.frameCount.value
  }

  /** The worker after its own action. */
  function WorkerAfter(w: Worker, a: Action): Worker {
    match a
    case LoadFlag(_) => w.(phase := if w.stopFlag then Exited(false) else Limiting)
    case CheckLimit(_) => w.(phase := if LimitHit(w) then Exited(false) else Generating)
    case Generate(_) =>
      w.(sequence := w.sequence + 1,
         phase := match FrameNumber(w.config, w.sequence)
                  case Returned(frame) => Sending(frame)
                  case _ => Crashed)
    case Send(_) => w.(phase := Sleeping)
    case Handoff(_) => w.(phase := Sleeping)
    case FailSend(_) => w.(phase := Exited(true))
    case Wake(_) => w.(phase := Loading)
    case _ => w
  }

  function WithWorker(s: System, w: nat, a: Action): System
    requires w < |s.workers|
  {
    s.(workers := s.workers[w := WorkerAfter(s.workers[w], a)])
  }

  function Next(s: System, a: Action): System
    requires Enabled(s, a)
  {
    match a
    case LoadFlag(w) => WithWorker(s, w, a)
    case CheckLimit(w) => WithWorker(s, w, a)
    case Generate(w) => WithWorker(s, w, a)
    case FailSend(w) => WithWorker(s, w, a)
    case Wake(w) => WithWorker(s, w, a)
    case Send(w) => WithWorker(s, w, a).(queue := s.queue + [Tagged(w, s.workers[w].phase.frame)])
    case Handoff(w) => WithWorker(s, w, a).(received := s.received + [Tagged(w, s.workers[w].phase.frame)])
    case Receive => s.(received := s.received + [s.queue[0]], queue := s.queue[1..])
    case DropReceiver => s.(receiverAlive := false, discarded := s.discarded + s.queue, queue := [])
    case Start(p) =>
      var w := |s.workers|;
      s.(workers := s.workers + [Worker(p, s.pipelines[p].config, false, 0, Loading)],
         pipelines := s.pipelines[p := s.pipelines[p].Started(w)])
    case SetFlag(p) =>
      var pipeline := s.pipelines[p];
      var flagged :=
        if pipeline.flag.Some? && pipeline.flag.value < |s.workers|
        then s.workers[pipeline.flag.value := s.workers[pipeline.flag.value].(stopFlag := true)]
        else s.workers;
      s.(workers := flagged, pipelines := s.pipelines[p := pipeline.Stopping()])
    case Join(p) =>
      var pipeline := s.pipelines[p];
      var crashed := s.workers[pipeline.joining.value].phase.Crashed?;
      s.(pipelines := s.pipelines[p := pipeline.Joined(crashed)])
  }

  /** Every action of the list is enabled when its turn comes. */
  predicate Feasible(s: System, trace: seq<Action>)
    decreases |trace|
  {
    trace == [] || (Enabled(s, trace[0]) && Feasible(Next(s, trace[0]), trace[1..]))
  }

  function Exec(s: System, trace: seq<Action>): System
    requires Feasible(s, trace)
    decreases |trace|
  {
    if trace == [] then s else Exec(Next(s, trace[0]), trace[1..])
  }

  // ---------------------------------------------------------------- what a worker has delivered

  /** The frames of one worker in a list of tagged frames. */
  function FramesOf(history: seq<Tagged>, w: nat): seq<Frame> {
    if history == [] then []
    else (if history[0].worker == w then [history[0].frame] else []) + FramesOf(history[1..], w)
  }

  lemma {:induction false} FramesOfAppend(a: seq<Tagged>, b: seq<Tagged>, w: nat)
    ensures FramesOf(a + b, w) == FramesOf(a, w) + FramesOf(b, w)
  {
    if a == [] {
      assert a + b == b;
    } else {
      assert (a + b)[0] == a[0] && (a + b)[1..] == a[1..] + b;
      FramesOfAppend(a[1..], b, w);
      ConcatAssociative(if a[0].worker == w then [a[0].frame] else [], FramesOf(a[1..], w), FramesOf(b, w));
    }
  }

  /** Frames generated but not delivered: one in a blocked send, lost to a closed channel, or never made. */
  function Undelivered(w: Worker): nat {
    if w.phase.Sending? || w.phase == Exited(true) || w.phase.Crashed? then 1 else 0
  }

  /** A worker's frames so far are exactly numbers 0, 1, 2, ... of its camera, in order, none beyond the limit; one
      that ended with nothing lost was told to, or had reached its limit. */
  predicate WorkerInv(delivered: seq<Frame>, w: Worker) {
    && w.config.format.Valid()
    && |delivered| == w.sequence - Undelivered(w)
    && (forall i :: 0 <= i < |delivered| ==> FrameNumber(w.config, i) == Returned(delivered[i]))
    && (w.phase.Sending? ==> FrameNumber(w.config, |delivered|) == Returned(w.phase.frame))
    && (w.phase.Crashed? ==> FrameNumber(w.config, |delivered|).Panicked?)
    && (w.config.frameCount.Some? ==>
         w.sequence <= w.config.frameCount.value
         && (w.phase.Generating? ==> w.sequence < w.config.frameCount.value))
    && (w.phase == Exited(false) ==> w.stopFlag || LimitHit(w))
  }

  predicate ChannelInv(s: System) {
    && |s.queue| <= s.capacity
    && (s.receiverAlive ==> s.discarded == [])
    && (!s.receiverAlive ==> s.queue == [])
    && (s.receiverAlive ==> forall w :: 0 <= w < |s.workers| ==> s.workers[w].phase != Exited(true))
    && forall k :: 0 <= k < |s.History()| ==> s.History()[k].worker < |s.workers|
  }

  /** Only a running pipeline has a live worker, and it is the one its thread handle or its join refers to. */
  predicate PipelineInv(s: System, p: nat)
    requires p < |s.pipelines|
  {
    var pipeline := s.pipelines[p];
    && pipeline.config.format.Valid()
    && (!pipeline.running ==> pipeline.flag == None && pipeline.thread == None && pipeline.joining == None)
    && (pipeline.thread.Some? ==>
         && pipeline.joining == None && pipeline.flag == pipeline.thread
         && pipeline.thread.value < |s.workers| && s.workers[pipeline.thread.value].pipeline == p)
    && (pipeline.running ==> pipeline.flag.Some?)
    && (pipeline.flag.Some? ==>
         pipeline.flag.value < |s.workers| && s.workers[pipeline.flag.value].pipeline == p)
    && (pipeline.joining.Some? ==>
         && pipeline.joining.value < |s.workers|
         && s.workers[pipeline.joining.value].pipeline == p && s.workers[pipeline.joining.value].stopFlag)
  }

  predicate LiveOwned(s: System, w: nat)
    requires w < |s.workers|
  {
    var p := s.workers[w].pipeline;
    && p < |s.pipelines|
    && s.workers[w].config == s.pipelines[p].config
    && (!s.workers[w].Done() ==> s.pipelines[p].thread == Some(w) || s.pipelines[p].joining == Some(w))
  }

  ghost predicate Inv(s: System) {
    && ChannelInv(s)
    && (forall w :: 0 <= w < |s.workers| ==> WorkerInv(FramesOf(s.History(), w), s.workers[w]))
    && (forall p :: 0 <= p < |s.pipelines| ==> PipelineInv(s, p))
    && (forall w :: 0 <= w < |s.workers| ==> LiveOwned(s, w))
  }

  predicate ValidConfigs(configs: seq<CameraConfig>) {
    forall i :: 0 <= i < |configs| ==> configs[i].format.Valid()
  }

  lemma InitInv(capacity: nat, configs: seq<CameraConfig>)
    requires ValidConfigs(configs)
    ensures Inv(Init(capacity, configs))
  {
  }

  // ---------------------------------------------------------------- each action keeps the invariant

  function Sent(s: System, w: nat): seq<Tagged> {
    if w < |s.workers| && s.workers[w].phase.Sending? then [Tagged(w, s.workers[w].phase.frame)] else []
  }

  /** What an action adds to the channel's history. */
  function Entered(s: System, a: Action): seq<Tagged> {
    match a
    case Send(w) => Sent(s, w)
    case Handoff(w) => Sent(s, w)
    case _ => []
  }

  lemma HistoryStep(s: System, a: Action)
    requires ChannelInv(s) && Enabled(s, a)
    ensures Next(s, a).History() == s.History() + Entered(s, a)
  {
    if a.Receive? {
      assert s.queue == [s.queue[0]] + s.queue[1..];
    }
    assert Next(s, a).History() == s.History() + Entered(s, a);
  }

  lemma ChannelStep(s: System, a: Action)
    requires ChannelInv(s) && Enabled(s, a)
    ensures ChannelInv(Next(s, a))
  {
    HistoryStep(s, a);
    assert |Next(s, a).workers| >= |s.workers|;
  }

  lemma FramesStep(s: System, a: Action, w: nat)
    requires ChannelInv(s) && Enabled(s, a)
    ensures FramesOf(Next(s, a).History(), w) == FramesOf(s.History(), w) + FramesOf(Entered(s, a), w)
    ensures FramesOf(Entered(s, a), w) ==
      if (a.Send? || a.Handoff?) && a.worker == w then [s.workers[w].phase.frame] else []
  {
    HistoryStep(s, a);
    FramesOfAppend(s.History(), Entered(s, a), w);
    if a.Send? || a.Handoff? {
      assert Entered(s, a)[1..] == [];
    }
  }

  lemma {:induction false} StrangerHasNoFrames(history: seq<Tagged>, w: nat)
    requires forall k :: 0 <= k < |history| ==> history[k].worker != w
    ensures FramesOf(history, w) == []
  {
    if history != [] {
      StrangerHasNoFrames(history[1..], w);
    }
  }

  /** The phase an own action starts from. */
  predicate Ready(w: Worker, a: Action) {
    match a
    case LoadFlag(_) => w.phase.Loading?
    case CheckLimit(_) => w.phase.Limiting?
    case Generate(_) => w.phase.Generating?
    case Send(_) => w.phase.Sending?
    case FailSend(_) => w.phase.Sending?
    case Handoff(_) => w.phase.Sending?
    case Wake(_) => w.phase.Sleeping?
    case _ => false
  }

  /** One turn of the worker's own code, seen from the worker alone. */
  lemma WorkerStep(delivered: seq<Frame>, w: Worker, a: Action)
    requires WorkerInv(delivered, w) && Ready(w, a)
    ensures WorkerInv(if a.Send? || a.Handoff? then delivered + [w.phase.frame] else delivered, WorkerAfter(w, a))
  {
    FrameNumberPanicsExactly(w.config, w.sequence);
  }

  /** Own actions keep a worker's invariant. */
  lemma OwnActionKeepsWorker(s: System, a: Action, w: nat)
    requires Inv(s) && Enabled(s, a) && w < |s.workers|
    requires ActsAs(a, w) || a == Handoff(w)
    ensures WorkerInv(FramesOf(Next(s, a).History(), w), Next(s, a).workers[w])
  {
    OwnActionEffect(s, a, w);
    var delivered := FramesOf(s.History(), w);
    assert WorkerInv(delivered, s.workers[w]);
    WorkerStep(delivered, s.workers[w], a);
    FramesStep(s, a, w);
    assert delivered + [] == delivered;
  }

  lemma OwnActionEffect(s: System, a: Action, w: nat)
    requires Enabled(s, a) && w < |s.workers|
    requires ActsAs(a, w) || a == Handoff(w)
    ensures w < |Next(s, a).workers| && Next(s, a).workers[w] == WorkerAfter(s.workers[w], a) && Ready(s.workers[w], a)
  {
  }

  /** Actions of others leave a worker alone, but for its stop flag. */
  lemma OtherActionKeepsWorker(s: System, a: Action, w: nat)
    requires Enabled(s, a) && w < |s.workers|
    requires !ActsAs(a, w) && a != Handoff(w)
    ensures w < |Next(s, a).workers|
    ensures Next(s, a).workers[w] == s.workers[w].(stopFlag := Next(s, a).workers[w].stopFlag)
    ensures s.workers[w].stopFlag ==> Next(s, a).workers[w].stopFlag
  {
  }

  /** No action moves a worker to another pipeline, reconfigures it or resets its stop flag. */
  lemma WorkersEvolve(s: System, a: Action, w: nat)
    requires Enabled(s, a) && w < |s.workers|
    ensures w < |Next(s, a).workers|
    ensures Next(s, a).workers[w].pipeline == s.workers[w].pipeline
    ensures Next(s, a).workers[w].config == s.workers[w].config
    ensures s.workers[w].stopFlag ==> Next(s, a).workers[w].stopFlag
    ensures s.workers[w].Done() ==> Next(s, a).workers[w].Done()
  {
    if !(ActsAs(a, w) || a == Handoff(w)) {
      OtherActionKeepsWorker(s, a, w);
    }
  }

  lemma NewWorkerInv(s: System, p: nat)
    requires Inv(s) && Enabled(s, Start(p))
    ensures WorkerInv(FramesOf(Next(s, Start(p)).History(), |s.workers|), Next(s, Start(p)).workers[|s.workers|])
  {
    HistoryStep(s, Start(p));
    StrangerHasNoFrames(s.History(), |s.workers|);
    assert PipelineInv(s, p);
  }

  lemma WorkersKept(s: System, a: Action, w: nat)
    requires Inv(s) && Enabled(s, a) && w < |Next(s, a).workers|
    ensures WorkerInv(FramesOf(Next(s, a).History(), w), Next(s, a).workers[w])
  {
    if w == |s.workers| {
      NewWorkerInv(s, a.pipeline);
    } else if ActsAs(a, w) || a == Handoff(w) {
      OwnActionKeepsWorker(s, a, w);
    } else {
      OtherActionKeepsWorker(s, a, w);
      FramesStep(s, a, w);
      assert WorkerInv(FramesOf(s.History(), w), s.workers[w]);
    }
  }

  predicate Controls(a: Action, p: nat) { a == Start(p) || a == SetFlag(p) || a == Join(p) }

  /** Only the three control actions of a pipeline touch its fields. */
  lemma OthersLeavePipeline(s: System, a: Action, p: nat)
    requires Enabled(s, a) && p < |s.pipelines|
    ensures |Next(s, a).pipelines| == |s.pipelines|
    ensures !Controls(a, p) ==> Next(s, a).pipelines[p] == s.pipelines[p]
  {
  }

  lemma PipelinesKept(s: System, a: Action, p: nat)
    requires Inv(s) && Enabled(s, a) && p < |s.pipelines|
    ensures p < |Next(s, a).pipelines| && PipelineInv(Next(s, a), p)
  {
    var pipeline := s.pipelines[p];
    assert PipelineInv(s, p);
    OthersLeavePipeline(s, a, p);
    if pipeline.thread.Some? {
      WorkersEvolve(s, a, pipeline.thread.value);
    }
    if pipeline.flag.Some? {
      WorkersEvolve(s, a, pipeline.flag.value);
    }
    if pipeline.joining.Some? {
      WorkersEvolve(s, a, pipeline.joining.value);
    }
    if Controls(a, p) {
      ControlKeepsPipeline(s, a, p);
    }
  }

  lemma ControlKeepsPipeline(s: System, a: Action, p: nat)
    requires Inv(s) && Enabled(s, a) && Controls(a, p)
    ensures PipelineInv(Next(s, a), p)
  {
    assert PipelineInv(s, p);
  }

  lemma OwnersKept(s: System, a: Action, w: nat)
    requires Inv(s) && Enabled(s, a) && w < |Next(s, a).workers|
    ensures LiveOwned(Next(s, a), w)
  {
    if w < |s.workers| {
      var p := s.workers[w].pipeline;
      assert LiveOwned(s, w) && PipelineInv(s, p);
      WorkersEvolve(s, a, w);
      OthersLeavePipeline(s, a, p);
    }
  }

  /** One step of any kind keeps the invariant. */
  lemma StepKeepsInv(s: System, a: Action)
    requires Inv(s) && Enabled(s, a)
    ensures Inv(Next(s, a))
  {
    ChannelStep(s, a);
    forall w | 0 <= w < |Next(s, a).workers|
      ensures WorkerInv(FramesOf(Next(s, a).History(), w), Next(s, a).workers[w]) && LiveOwned(Next(s, a), w)
    {
      WorkersKept(s, a, w);
      OwnersKept(s, a, w);
    }
    forall p | 0 <= p < |Next(s, a).pipelines|
      ensures PipelineInv(Next(s, a), p)
    {
      assert p < |s.pipelines|;
      PipelinesKept(s, a, p);
    }
  }

  lemma {:induction false} RunKeepsInv(s: System, trace: seq<Action>)
    requires Inv(s) && Feasible(s, trace)
    ensures Inv(Exec(s, trace))
    decreases |trace|
  {
    if trace != [] {
      StepKeepsInv(s, trace[0]);
      RunKeepsInv(Next(s, trace[0]), trace[1..]);
    }
  }

  /** Safety over every interleaving: the queue never exceeds its capacity, and for each worker the frames
      received, followed by those discarded with the receiver and those queued, are exactly frames
      0, 1, ..., k-1 of its camera in order; k is the generator's counter less a frame that is pending in, or was
      lost to, a failed send, and never exceeds the frame limit. */
  lemma DeliveryOverEveryInterleaving(capacity: nat, configs: seq<CameraConfig>, trace: seq<Action>, w: nat)
    requires ValidConfigs(configs) && Feasible(Init(capacity, configs), trace)
    requires w < |Exec(Init(capacity, configs), trace).workers|
    ensures var s := Exec(Init(capacity, configs), trace);
      var worker, delivered := s.workers[w], FramesOf(s.received + s.discarded + s.queue, w);
      && |s.queue| <= capacity
      && (s.receiverAlive ==> s.discarded == [])
      && |delivered| == worker.sequence - Undelivered(worker)
      && AreFrames(worker.config, delivered)
      && (worker.config.frameCount.Some? ==> |delivered| <= worker.config.frameCount.value)
  {
    var start := Init(capacity, configs);
    InitInv(capacity, configs);
    RunKeepsInv(start, trace);
    CapacityFixed(start, trace);
    var s := Exec(start, trace);
    WorkerDeliversFrames(FramesOf(s.History(), w), s.workers[w]);
  }

  /** The i-th frame carries number i, the camera's id and format, and the payload they call for. */
  predicate AreFrames(config: CameraConfig, frames: seq<Frame>) {
    forall i :: 0 <= i < |frames| ==> IsFrame(config, i, frames[i])
  }

  lemma WorkerDeliversFrames(delivered: seq<Frame>, w: Worker)
    requires WorkerInv(delivered, w)
    ensures AreFrames(w.config, delivered)
  {
    forall i | 0 <= i < |delivered|
      ensures IsFrame(w.config, i, delivered[i])
    {
      FrameCarriesNumber(w.config, i);
    }
  }

  lemma {:induction false} CapacityFixed(s: System, trace: seq<Action>)
    requires Feasible(s, trace)
    ensures Exec(s, trace).capacity == s.capacity
    decreases |trace|
  {
    if trace != [] {
      CapacityFixed(Next(s, trace[0]), trace[1..]);
    }
  }

  /** Nothing is lost but by stopping, dropping the receiver or a panic: a worker that ended by itself while its
      receiver lived has delivered its whole quota, frames 0 to `frame_count` - 1. */
  lemma UndisturbedWorkerDeliversAll(capacity: nat, configs: seq<CameraConfig>, trace: seq<Action>, w: nat)
    requires ValidConfigs(configs) && Feasible(Init(capacity, configs), trace)
    requires var s := Exec(Init(capacity, configs), trace);
      && w < |s.workers| && s.receiverAlive && s.workers[w].phase.Exited? && !s.workers[w].stopFlag
    ensures var s := Exec(Init(capacity, configs), trace);
      var worker, delivered := s.workers[w], FramesOf(s.received + s.queue, w);
      && worker.config.frameCount == Some(|delivered|)
      && AreFrames(worker.config, delivered)
  {
    InitInv(capacity, configs);
    RunKeepsInv(Init(capacity, configs), trace);
    var s := Exec(Init(capacity, configs), trace);
    assert s.History() == s.received + s.queue;
    assert s.workers[w].phase != Exited(true);
    WorkerDeliversFrames(FramesOf(s.History(), w), s.workers[w]);
  }

  // ---------------------------------------------------------------- the worker loop, alone

  /** What the environment does in one turn of the loop: the value loaded from the stop flag, the sink's answer. */
  datatype Turn = Turn(stopFlag: bool, reply: SinkReply)

  datatype LoopEnd = Stopped | LimitReached | SinkGone | GeneratorPanicked | StillRunning

  /** One turn of the loop, made of the worker's actions in the step system. */
  function TakeTurn(w: Worker, turn: Turn): Worker {
    var loaded := WorkerAfter(w.(stopFlag := turn.stopFlag), LoadFlag(0));
    if loaded.Done() then loaded
    else
      var limited := WorkerAfter(loaded, CheckLimit(0));
      if limited.Done() then limited
      else
        var generated := WorkerAfter(limited, Generate(0));
        if generated.Done() then generated
        else if turn.reply.Refuses? then WorkerAfter(generated, FailSend(0))
        else WorkerAfter(WorkerAfter(generated, Send(0)), Wake(0))
  }

  function TakeTurns(w: Worker, turns: seq<Turn>): Worker
    decreases |turns|
  {
    if turns == [] || w.Done() then w else TakeTurns(TakeTurn(w, turns[0]), turns[1..])
  }

  /** A worker about to load its flag, having made so many frames. */
  function AtTop(config: CameraConfig, sequence: nat): Worker { Worker(0, config, false, sequence, Loading) }

  lemma TurnFromTop(config: CameraConfig, n: nat, turns: seq<Turn>, at: nat)
    requires config.format.Valid() && at < |turns|
    ensures var turn, w := turns[at], AtTop(config, n);
      TakeTurns(w, turns[at..]) ==
      if turn.stopFlag then w.(stopFlag := true, phase := Exited(false))
      else if LimitHit(w) then w.(phase := Exited(false))
      else if FrameNumber(config, n).Panicked? then w.(sequence := n + 1, phase := Crashed)
      else if turn.reply.Refuses? then w.(sequence := n + 1, phase := Exited(true))
      else TakeTurns(AtTop(config, n + 1), turns[at + 1..])
  {
    FrameNumberPanicsExactly(config, n);
    assert turns[at..][0] == turns[at] && turns[at..][1..] == turns[at + 1..];
    var next := TakeTurn(AtTop(config, n), turns[at]);
    assert next.Done() ==> TakeTurns(next, turns[at + 1..]) == next;
  }

  /** The frames delivered: one a turn, each the next number of the camera. */
  predicate SentOneATurn(config: CameraConfig, turns: seq<Turn>, sent: seq<Frame>) {
    && |sent| <= |turns|
    && (config.frameCount.Some? ==> |sent| <= config.frameCount.value)
    && forall i :: 0 <= i < |sent| ==>
         FrameNumber(config, i) == Returned(sent[i]) && !turns[i].stopFlag && turns[i].reply.Accepts?
  }

  /** Why the loop ended where it did. */
  predicate EndsAs(config: CameraConfig, turns: seq<Turn>, sent: nat, end: LoopEnd) {
    match end
    case StillRunning => sent == |turns|
    case Stopped => sent < |turns| && turns[sent].stopFlag
    case LimitReached => config.frameCount == Some(sent) && sent < |turns| && !turns[sent].stopFlag
    case SinkGone => sent < |turns| && !turns[sent].stopFlag && config.frameCount != Some(sent)
                     && FrameNumber(config, sent).Returned? && turns[sent].reply.Refuses?
    case GeneratorPanicked => sent < |turns| && !turns[sent].stopFlag && config.frameCount != Some(sent)
                              && FrameNumber(config, sent).Panicked?
  }

  predicate WorkerEndsAs(w: Worker, sent: nat, end: LoopEnd) {
    && w.sequence == sent + Undelivered(w)
    && match end
       case StillRunning => w.phase.Loading?
       case Stopped => w.phase == Exited(false) && w.stopFlag
       case LimitReached => w.phase == Exited(false) && !w.stopFlag && LimitHit(w)
       case SinkGone => w.phase == Exited(true)
       case GeneratorPanicked => w.phase.Crashed?
  }

  /** `run_loop` against any environment: the frames it delivers are numbers 0, 1, 2, ... of its camera without
      a gap, and it ends at the first turn whose flag is set, at the frame limit, at the first refused send, or
      where the generator panics. */
  method RunLoop(config: CameraConfig, turns: seq<Turn>) returns (sent: seq<Frame>, end: LoopEnd)
    requires config.format.Valid()
    ensures SentOneATurn(config, turns, sent) && AreFrames(config, sent)
    ensures EndsAs(config, turns, |sent|, end)
  {
    var generator := new FakeFrameGenerator(config.format);
    sent := [];
    var turn := 0;
    while turn < |turns| && !turns[turn].stopFlag
      invariant turn <= |turns| && |sent| == turn == generator.sequence && generator.format == config.format
      invariant SentOneATurn(config, turns, sent) && AreFrames(config, sent)
    {
      if config.frameCount.Some? && generator.sequence >= config.frameCount.value {
        return sent, LimitReached;
      }
      var frame := generator.NextFrame(config.cameraId);
      if !frame.Returned? {
        FrameNumberPanicsExactly(config, turn);
        return sent, GeneratorPanicked;
      }
      if turns[turn].reply.Refuses? {
        return sent, SinkGone;
      }
      FrameCarriesNumber(config, turn);
      sent := sent + [frame.value];
      turn := turn + 1;
    }
    end := if turn < |turns| then Stopped else StillRunning;
  }

  lemma {:induction false} TurnsDelivered(config: CameraConfig, turns: seq<Turn>, sent: seq<Frame>, n: nat)
    requires config.format.Valid() && SentOneATurn(config, turns, sent) && n <= |sent|
    ensures TakeTurns(AtTop(config, 0), turns) == TakeTurns(AtTop(config, n), turns[n..])
  {
    if n == 0 {
      assert turns[0..] == turns;
    } else {
      TurnsDelivered(config, turns, sent, n - 1);
      TurnFromTop(config, n - 1, turns, n - 1);
    }
  }

  /** The loop and the step system's worker agree: whatever `RunLoop` reports, the worker taking the same turns has
      made the same number of frames and ended for the same reason. */
  lemma LoopIsWorker(config: CameraConfig, turns: seq<Turn>, sent: seq<Frame>, end: LoopEnd)
    requires config.format.Valid() && SentOneATurn(config, turns, sent) && EndsAs(config, turns, |sent|, end)
    ensures WorkerEndsAs(TakeTurns(AtTop(config, 0), turns), |sent|, end)
  {
    TurnsDelivered(config, turns, sent, |sent|);
    if |sent| < |turns| {
      TurnFromTop(config, |sent|, turns, |sent|);
    }
  }
}
