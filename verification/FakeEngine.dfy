/** Camera pipelines and the multi-camera engine as objects (fake.rs). Threads are named by numbers; what a join brings
    is the environment's. */
module FakeEngine {
  import opened Basics
  import opened FakeFrames
  import opened Streaming

  /** What a join of the worker's thread brings: its end, its panic, or no answer at all. */
  datatype JoinReply = Ended | Crashed | NoAnswer

  function Answer(crashed: bool): JoinReply { if crashed then JoinReply.Crashed else Ended }

  /** The pipeline and the result of a call; a call that never returns has none. */
  datatype StopResult = StopResult(pipeline: Pipeline, result: Option<Result<()>>)

  /** `stop` as one call: both halves of the step system's stop, without interleaving. */
  function StopOutcome(p: Pipeline, join: JoinReply): (r: StopResult)
    ensures r.result == None <==> p.running && p.thread.Some? && join == NoAnswer
  {
    if !p.running then StopResult(p, Some(Err(NotRunning)))
    else if p.thread == None then StopResult(p.Stopping(), Some(Ok(())))
    else match join
      case NoAnswer => StopResult(p.Stopping(), None)
      case Ended => StopResult(p.Stopping().Joined(false), Some(Ok(())))
      case Crashed => StopResult(p.Stopping().Joined(true), Some(Err(Backend)))
  }

  class FakeCameraPipeline {
    const config: CameraConfig
    var running: bool
    var stopFlag: Option<nat>
    var thread: Option<nat>
    var joining: Option<nat>      // the handle a `stop` that has not returned waits for; a local of that call

    function View(): Pipeline
      reads this
    {
      Pipeline(config, running, stopFlag, thread, joining)
    }

    constructor (config: CameraConfig)
      ensures View() == Pipeline(config, false, None, None, None)
      ensures this.config == config
    {
      this.config := config;
      running, stopFlag, thread, joining := false, None, None, None;
    }

    method Start(worker: nat) returns (r: Result<()>)
      requires joining == None
      modifies this
      ensures r == if old(running) then Err(AlreadyRunning) else Ok(())
      ensures View() == if old(running) then old(View()) else old(View()).Started(worker)
    {
      if running {
        return Err(AlreadyRunning);
      }
      stopFlag := Some(worker);
      thread := Some(worker);
      running := true;
      r := Ok(());
    }

    method Stop(join: JoinReply) returns (r: Option<Result<()>>)
      requires joining == None
      modifies this
      ensures StopResult(View(), r) == StopOutcome(old(View()), join)
    {
      if !running {
        return Some(Err(NotRunning));
      }
      if thread.Some? {
        joining := thread;
        thread := None;
        if join == NoAnswer {
          return None;
        }
        joining := None;
        if join == JoinReply.Crashed {
          return Some(Err(Backend));
        }
      }
      running := false;
      stopFlag := None;
      r := Some(Ok(()));
    }
  }

  // ---------------------------------------------------------------- the life of one pipeline

  /** What a pipeline can be to its owner; a crashed one still counts as running. */
  datatype Life = AtRest | Alive | Dead

  datatype PipelineCall = DoStart(worker: nat) | DoStop(crashed: bool)

  /** The life and the answer after one call. */
  function Lives(life: Life, call: PipelineCall): (Life, Result<()>) {
    match call
    case DoStart(_) => if life.AtRest? then (Alive, Ok(())) else (life, Err(AlreadyRunning))
    case DoStop(crashed) =>
      match life
      case AtRest => (AtRest, Err(NotRunning))
      case Alive => if crashed then (Dead, Err(Backend)) else (AtRest, Ok(()))
      case Dead => (AtRest, Ok(()))
  }

  /** The pipeline's fields in each life. */
  predicate LivesAs(life: Life, config: CameraConfig, p: Pipeline) {
    && p.config == config && p.joining == None
    && match life
       case AtRest => !p.running && p.flag == None && p.thread == None
       case Alive => p.running && p.flag.Some? && p.thread == p.flag
       case Dead => p.running && p.flag.Some? && p.thread == None
  }

  /** One call of `start` or of a `stop` whose join answers. */
  function CallPipeline(p: Pipeline, call: PipelineCall): (r: (Pipeline, Result<()>))
    requires p.joining == None
    ensures r.0.joining == None
  {
    match call
    case DoStart(w) => if p.running then (p, Err(AlreadyRunning)) else (p.Started(w), Ok(()))
    case DoStop(crashed) =>
      var r := StopOutcome(p, Answer(crashed));
      (r.pipeline, r.result.value)
  }

  lemma CallLives(life: Life, config: CameraConfig, p: Pipeline, call: PipelineCall)
    requires LivesAs(life, config, p)
    ensures CallPipeline(p, call).1 == Lives(life, call).1
    ensures LivesAs(Lives(life, call).0, config, CallPipeline(p, call).0)
  {
  }

  function LifeAfter(calls: seq<PipelineCall>): Life {
    if calls == [] then AtRest else Lives(LifeAfter(calls[..|calls| - 1]), calls[|calls| - 1]).0
  }

  function PipelineAfter(config: CameraConfig, calls: seq<PipelineCall>): (p: Pipeline)
    ensures p.joining == None
  {
    if calls == [] then Pipeline(config, false, None, None, None)
    else CallPipeline(PipelineAfter(config, calls[..|calls| - 1]), calls[|calls| - 1]).0
  }

  /** Every list of starts and answered stops of a new pipeline goes through these three lives, answers included. */
  lemma {:induction false} PipelineLives(config: CameraConfig, calls: seq<PipelineCall>)
    ensures LivesAs(LifeAfter(calls), config, PipelineAfter(config, calls))
    ensures forall call :: CallPipeline(PipelineAfter(config, calls), call).1 == Lives(LifeAfter(calls), call).1
  {
    if calls != [] {
      var before, last := calls[..|calls| - 1], calls[|calls| - 1];
      PipelineLives(config, before);
      CallLives(LifeAfter(before), config, PipelineAfter(config, before), last);
    }
    forall call
      ensures CallPipeline(PipelineAfter(config, calls), call).1 == Lives(LifeAfter(calls), call).1
    {
      CallLives(LifeAfter(calls), config, PipelineAfter(config, calls), call);
    }
  }

  /** A stop that has no answer has set the flag, taken the thread and left the pipeline running. */
  lemma UnansweredStop(config: CameraConfig, p: Pipeline)
    requires LivesAs(Alive, config, p)
    ensures StopOutcome(p, NoAnswer) == StopResult(Pipeline(config, true, p.flag, None, p.thread), None)
  {
  }

  /** A call of `stop` is a run of the step system: set the flag, wait, and join once the worker has ended. Until then
      the call has not returned. */
  lemma StopIsSetFlagThenJoin(s: System, p: nat, w: nat, trace: seq<Action>)
    requires Inv(s) && p < |s.pipelines| && s.pipelines[p].running && s.pipelines[p].thread == Some(w)
    requires s.pipelines[p].joining == None && w < |s.workers|
    requires Feasible(Next(s, SetFlag(p)), trace)
    requires forall i :: 0 <= i < |trace| ==> !Controls(trace[i], p)
    ensures var t := Exec(Next(s, SetFlag(p)), trace);
      && w < |t.workers| && p < |t.pipelines|
      && (!t.workers[w].Done() ==>
           !Enabled(t, Join(p)) && t.pipelines[p] == StopOutcome(s.pipelines[p], NoAnswer).pipeline)
      && (t.workers[w].Done() ==>
           && Enabled(t, Join(p))
           && Next(t, Join(p)).pipelines[p] ==
              StopOutcome(s.pipelines[p], Answer(t.workers[w].phase.Crashed?)).pipeline)
  {
    PipelineUntouched(Next(s, SetFlag(p)), trace, p);
    WorkerRemains(Next(s, SetFlag(p)), trace, w);
  }

  lemma {:induction false} WorkerRemains(s: System, trace: seq<Action>, w: nat)
    requires Feasible(s, trace) && w < |s.workers|
    ensures w < |Exec(s, trace).workers|
    decreases |trace|
  {
    if trace != [] {
      WorkersEvolve(s, trace[0], w);
      WorkerRemains(Next(s, trace[0]), trace[1..], w);
    }
  }

  lemma {:induction false} PipelineUntouched(s: System, trace: seq<Action>, p: nat)
    requires Feasible(s, trace) && p < |s.pipelines|
    requires forall i :: 0 <= i < |trace| ==> !Controls(trace[i], p)
    ensures |Exec(s, trace).pipelines| == |s.pipelines| && Exec(s, trace).pipelines[p] == s.pipelines[p]
    decreases |trace|
  {
    if trace != [] {
      OthersLeavePipeline(s, trace[0], p);
      assert forall i :: 0 <= i < |trace[1..]| ==> trace[1..][i] == trace[i + 1];
      PipelineUntouched(Next(s, trace[0]), trace[1..], p);
    }
  }

  /** A pipeline whose worker crashed stays running after the failed `stop`, through every interleaving, so that it
      cannot be restarted, until `stop` is called again; that second call returns at once, with no thread to join. */
  lemma CrashedPipelineNeedsSecondStop(s: System, p: nat, trace: seq<Action>)
    requires Inv(s) && Enabled(s, Join(p)) && s.workers[s.pipelines[p].joining.value].phase.Crashed?
    requires Feasible(Next(s, Join(p)), trace)
    requires forall i :: 0 <= i < |trace| ==> trace[i] != SetFlag(p)
    ensures var t := Exec(Next(s, Join(p)), trace);
      && p < |t.pipelines| && t.pipelines[p].running && !Enabled(t, Start(p)) && Enabled(t, SetFlag(p))
      && !Next(t, SetFlag(p)).pipelines[p].running && Enabled(Next(t, SetFlag(p)), Start(p))
  {
    assert PipelineInv(s, p);
    CrashedPipelineWaits(Next(s, Join(p)), p, trace);
  }

  lemma {:induction false} CrashedPipelineWaits(s: System, p: nat, trace: seq<Action>)
    requires Feasible(s, trace) && p < |s.pipelines|
    requires s.pipelines[p].running && s.pipelines[p].thread == None && s.pipelines[p].joining == None
    requires forall i :: 0 <= i < |trace| ==> trace[i] != SetFlag(p)
    ensures var t := Exec(s, trace);
      p < |t.pipelines| && t.pipelines[p].running && t.pipelines[p].thread == None && t.pipelines[p].joining == None
    decreases |trace|
  {
    if trace != [] {
      OthersLeavePipeline(s, trace[0], p);
      assert forall i :: 0 <= i < |trace[1..]| ==> trace[1..][i] == trace[i + 1];
      CrashedPipelineWaits(Next(s, trace[0]), p, trace[1..]);
    }
  }

  // ---------------------------------------------------------------- many pipelines

  /** The error reported for a list of results: the first one. */
  function FirstError(results: seq<Result<()>>): Result<()> {
    if results == [] then Ok(())
    else if results[0].Err? then results[0]
    else FirstError(results[1..])
  }

  lemma FirstErrorSnoc(results: seq<Result<()>>, r: Result<()>)
    ensures FirstError(results + [r]) ==
            if FirstError(results).Err? then FirstError(results) else if r.Err? then r else Ok(())
  {
    if results == [] {
      assert results + [r] == [r] && [r][1..] == [];
    } else {
      assert (results + [r])[1..] == results[1..] + [r];
      FirstErrorSnoc(results[1..], r);
    }
  }

  /** The reported result is Ok exactly when all are; otherwise it is that of the first failing one. */
  lemma {:induction false} FirstErrorIsFirst(results: seq<Result<()>>)
    ensures FirstError(results).Ok? <==> forall i :: 0 <= i < |results| ==> results[i].Ok?
    ensures FirstError(results).Err? ==>
      exists i :: 0 <= i < |results| && results[i] == FirstError(results) && forall j :: 0 <= j < i ==> results[j].Ok?
  {
    if results != [] && results[0].Ok? {
      var rest := results[1..];
      FirstErrorIsFirst(rest);
      assert forall i :: 1 <= i < |results| ==> results[i] == rest[i - 1];
      assert forall i :: 0 <= i < |rest| ==> rest[i] == results[i + 1];
      if FirstError(rest).Err? {
        var i :| 0 <= i < |rest| && rest[i] == FirstError(rest) && forall j :: 0 <= j < i ==> rest[j].Ok?;
        assert results[i + 1] == FirstError(results);
        assert forall j :: 0 <= j < i + 1 ==> results[j].Ok?;
      }
    }
  }

  predicate Distinct(pipelines: seq<FakeCameraPipeline>) {
    forall i, j :: 0 <= i < j < |pipelines| ==> pipelines[i] != pipelines[j]
  }

  predicate Idle(pipelines: seq<FakeCameraPipeline>)
    reads pipelines
  {
    forall i :: 0 <= i < |pipelines| ==> pipelines[i].joining == None
  }

  /** `stop_pipelines`: pipelines are stopped in order, whatever errors the earlier ones gave, and the first error is
      returned; but a join that never answers holds the whole call, and the pipelines behind it are not even flagged. */
  method StopPipelines(pipelines: seq<FakeCameraPipeline>, joins: seq<JoinReply>)
    returns (r: Option<Result<()>>, ghost results: seq<Result<()>>)
    requires Distinct(pipelines) && Idle(pipelines) && |joins| == |pipelines|
    modifies pipelines
    ensures |results| <= |pipelines|
    ensures r == if |results| == |pipelines| then Some(FirstError(results)) else None
    ensures forall i :: 0 <= i < |results| ==>
      StopResult(pipelines[i].View(), Some(results[i])) == StopOutcome(old(pipelines[i].View()), joins[i])
    ensures |results| < |pipelines| ==>
      var n := |results|;
      StopResult(pipelines[n].View(), None) == StopOutcome(old(pipelines[n].View()), joins[n])
    ensures forall i :: |results| < i < |pipelines| ==> pipelines[i].View() == old(pipelines[i].View())
  {
    var first: Result<()> := Ok(());
    results := [];
    for n := 0 to |pipelines|
      invariant |results| == n && first == FirstError(results) && (first.Ok? ==> first == Ok(()))
      invariant forall i :: 0 <= i < n ==>
        StopResult(pipelines[i].View(), Some(results[i])) == StopOutcome(old(pipelines[i].View()), joins[i])
      invariant forall i :: n <= i < |pipelines| ==> pipelines[i].View() == old(pipelines[i].View())
    {
      assert old(pipelines[n].View()).joining == None;
      var stopped := pipelines[n].Stop(joins[n]);
      if stopped == None {
        return None, results;
      }
      FirstErrorSnoc(results, stopped.value);
      results := results + [stopped.value];
      if stopped.value.Err? && first.Ok? {
        first := stopped.value;
      }
    }
    r := Some(first);
  }

  /** `start_all`: starts pipelines in order up to the first one already running, and touches none after it. */
  method StartAll(pipelines: seq<FakeCameraPipeline>, workers: seq<nat>) returns (r: Result<()>, ghost started: nat)
    requires Distinct(pipelines) && Idle(pipelines) && |workers| == |pipelines|
    modifies pipelines
    ensures started <= |pipelines|
    ensures r == if started == |pipelines| then Ok(()) else Err(AlreadyRunning)
    ensures started < |pipelines| ==> old(pipelines[started].running)
    ensures forall i :: 0 <= i < started ==>
      !old(pipelines[i].running) && pipelines[i].View() == old(pipelines[i].View()).Started(workers[i])
    ensures forall i :: started <= i < |pipelines| ==> pipelines[i].View() == old(pipelines[i].View())
  {
    started := 0;
    for n := 0 to |pipelines|
      invariant started == n
      invariant forall i :: 0 <= i < n ==>
        !old(pipelines[i].running) && pipelines[i].View() == old(pipelines[i].View()).Started(workers[i])
      invariant forall i :: n <= i < |pipelines| ==> pipelines[i].View() == old(pipelines[i].View())
    {
      assert pipelines[n].View() == old(pipelines[n].View()) && old(pipelines[n].View()).joining == None;
      var result := pipelines[n].Start(workers[n]);
      if result.Err? {
        return result, started;
      }
      started := started + 1;
    }
    r := Ok(());
  }

  /** `spawn`: one started pipeline per configuration, in order; starting a new pipeline cannot fail, so neither can
      spawning, and its clean-up branch never stops anything. */
  method Spawn(configs: seq<CameraConfig>, workers: seq<nat>) returns (r: Result<seq<FakeCameraPipeline>>)
    requires |workers| == |configs|
    ensures r.Ok? && |r.value| == |configs| && Distinct(r.value)
    ensures forall i :: 0 <= i < |configs| ==>
      fresh(r.value[i]) && r.value[i].View() == Pipeline(configs[i], true, Some(workers[i]), Some(workers[i]), None)
  {
    var pipelines: seq<FakeCameraPipeline> := [];
    for n := 0 to |configs|
      invariant |pipelines| == n && Distinct(pipelines)
      invariant forall i :: 0 <= i < n ==>
        && fresh(pipelines[i])
        && pipelines[i].View() == Pipeline(configs[i], true, Some(workers[i]), Some(workers[i]), None)
    {
      var pipeline := new FakeCameraPipeline(configs[n]);
      var started := pipeline.Start(workers[n]);
      pipelines := pipelines + [pipeline];
    }
    r := Ok(pipelines);
  }
}
