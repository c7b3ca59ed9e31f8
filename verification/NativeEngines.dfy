/** The native engine's handle table, control maps and error record (bindings.rs). */
module NativeEngines {
  import opened Basics
  import opened Formats
  import opened Frames
  import opened FakeFrames
  import opened Streaming
  import opened FakeEngine
  import StopHangs
  import StopReturns

  const ERROR_OK := 0
  const ERROR_INVALID_ARGUMENT := -2
  const ERROR_ALREADY_RUNNING := -3
  const ERROR_NOT_RUNNING := -4
  const ERROR_SINK_CLOSED := -5
  const ERROR_BACKEND := -6
  const ERROR_TIMEOUT := -7

  function ErrorCode(e: EngineError): (code: int)
    ensures code != ERROR_OK
  {
    match e
    case InvalidCameraId | InvalidFrameFormat | InvalidFrameSize(_, _) | InvalidArgument => ERROR_INVALID_ARGUMENT
    case SinkClosed => ERROR_SINK_CLOSED
    case AlreadyRunning => ERROR_ALREADY_RUNNING
    case NotRunning => ERROR_NOT_RUNNING
    case Timeout => ERROR_TIMEOUT
    case Backend => ERROR_BACKEND
  }

  /** Exactly the errors about arguments share a code; every other error has its own. */
  lemma ErrorCodesExactly(e: EngineError)
    ensures ErrorCode(e) == -2 <==>
      e.InvalidCameraId? || e.InvalidFrameFormat? || e.InvalidFrameSize? || e.InvalidArgument?
    ensures ErrorCode(e) == -3 <==> e.AlreadyRunning?
    ensures ErrorCode(e) == -4 <==> e.NotRunning?
    ensures ErrorCode(e) == -5 <==> e.SinkClosed?
    ensures ErrorCode(e) == -6 <==> e.Backend?
    ensures ErrorCode(e) == -7 <==> e.Timeout?
  {
  }

  // ---------------------------------------------------------------- names

  /** Unicode White_Space, as `str::trim` uses it. */
  predicate IsWhitespace(c: char) {
    || '\t' <= c <= '\r' || c == ' '
    || c == '\U{85}' || c == '\U{A0}' || c == '\U{1680}'
    || '\U{2000}' <= c <= '\U{200A}'
    || c == '\U{2028}' || c == '\U{2029}' || c == '\U{202F}' || c == '\U{205F}' || c == '\U{3000}'
  }

  function TrimStart(s: string): string {
    if s != [] && IsWhitespace(s[0]) then TrimStart(s[1..]) else s
  }

  function TrimEnd(s: string): string {
    if s != [] && IsWhitespace(s[|s| - 1]) then TrimEnd(s[..|s| - 1]) else s
  }

  function Trim(s: string): string { TrimEnd(TrimStart(s)) }

  predicate Blank(s: string) { forall i :: 0 <= i < |s| ==> IsWhitespace(s[i]) }

  lemma {:induction false} TrimStartBlank(s: string)
    ensures TrimStart(s) == [] <==> Blank(s)
    ensures TrimStart(s) != [] ==> !IsWhitespace(TrimStart(s)[0])
  {
    if s != [] && IsWhitespace(s[0]) {
      TrimStartBlank(s[1..]);
      assert Blank(s[1..]) ==> forall i :: 1 <= i < |s| ==> s[i] == s[1..][i - 1];
      assert forall i :: 0 <= i < |s[1..]| ==> s[1..][i] == s[i + 1];
    }
  }

  lemma {:induction false} TrimEndKeepsHead(s: string)
    requires s != [] && !IsWhitespace(s[0])
    ensures TrimEnd(s) != []
  {
    if IsWhitespace(s[|s| - 1]) {
      TrimEndKeepsHead(s[..|s| - 1]);
    }
  }

  /** A name trims to nothing exactly when it holds nothing but whitespace. */
  lemma TrimEmptyExactly(s: string)
    ensures Trim(s) == [] <==> Blank(s)
  {
    TrimStartBlank(s);
    if TrimStart(s) != [] {
      TrimEndKeepsHead(TrimStart(s));
    }
  }

  lemma {:induction false} TrimStartSplits(s: string) returns (before: string)
    ensures s == before + TrimStart(s) && Blank(before)
  {
    before := "";
    if s != [] && IsWhitespace(s[0]) {
      before := TrimStartSplits(s[1..]);
      before := [s[0]] + before;
    }
  }

  lemma {:induction false} TrimEndSplits(s: string) returns (after: string)
    ensures s == TrimEnd(s) + after && Blank(after)
    ensures TrimEnd(s) != [] ==> TrimEnd(s)[0] == s[0] && !IsWhitespace(TrimEnd(s)[|TrimEnd(s)| - 1])
  {
    after := "";
    if s != [] && IsWhitespace(s[|s| - 1]) {
      after := TrimEndSplits(s[..|s| - 1]);
      after := after + [s[|s| - 1]];
    }
  }

  /** Trimming takes white space off both ends and nothing else, and leaves none there. */
  lemma TrimExactly(s: string) returns (before: string, after: string)
    ensures s == before + Trim(s) + after && Blank(before) && Blank(after)
    ensures Trim(s) != [] ==> !IsWhitespace(Trim(s)[0]) && !IsWhitespace(Trim(s)[|Trim(s)| - 1])
  {
    before := TrimStartSplits(s);
    after := TrimEndSplits(TrimStart(s));
    TrimStartBlank(s);
    assert before + (Trim(s) + after) == before + Trim(s) + after;
  }

  /** `CameraId::new`. */
  function NewCameraId(id: string): Result<CameraId> {
    if Trim(id) == [] then Err(InvalidCameraId) else Ok(Trim(id))
  }

  // ---------------------------------------------------------------- state and calls

  /** The engine's fields; the error text is represented by the error it was made from. `senders` is the channel's own
      count of its senders: the engine's, and the clone each pipeline is given and drops with itself. */
  datatype Engine = Engine(pipelines: map<int, Pipeline>, controls: map<int, map<string, int>>, nextHandle: int,
                           errorCode: int, lastError: Option<EngineError>, senders: int) {
    function Recorded(e: EngineError): Engine { this.(errorCode := ErrorCode(e), lastError := Some(e)) }
    function Cleared(): Engine { this.(errorCode := ERROR_OK, lastError := None) }
  }

  const NEW_ENGINE := Engine(map[], map[], 1, ERROR_OK, None, 1)

  datatype Replied<T> = Replied(engine: Engine, result: Result<T>)

  datatype StartRequest =
    StartRequest(id: string, width: U32, height: U32, fps: U32, frameCount: Option<nat>, worker: nat)

  /** The pipeline a valid request starts. */
  function RequestedPipeline(q: StartRequest): Result<Pipeline> {
    match NewCameraId(q.id)
    case Err(e) => Err(e)
    case Ok(id) =>
      match NewFormat(Mjpeg, q.width, q.height, q.fps)
      case Err(e) => Err(e)
      case Ok(format) =>
        Ok(Pipeline(CameraConfig(id, format, q.frameCount), false, None, None, None).Started(q.worker))
  }

  /** `start_camera`; its early error returns leave the error record alone. */
  function StartCameraReply(e: Engine, q: StartRequest): Replied<int> {
    match RequestedPipeline(q)
    case Err(error) => Replied(e, Err(error))
    case Ok(pipeline) =>
      var h := e.nextHandle;
      Replied(Engine(e.pipelines[h := pipeline], e.controls[h := map[]], h + 1, ERROR_OK, None, e.senders + 1), Ok(h))
  }

  /** `stop_camera`; success leaves the error record alone. */
  function StopCameraReply(e: Engine, h: int, crashed: bool): Replied<()> {
    if h !in e.pipelines then Replied(e.Recorded(InvalidArgument), Err(InvalidArgument))
    else Replied(e.(pipelines := e.pipelines - {h}, controls := e.controls - {h}, senders := e.senders - 1),
                 StopOutcome(e.pipelines[h], Answer(crashed)).result.value)
  }

  /** `set_control`. */
  function SetControlReply(e: Engine, h: int, name: string, value: int): Replied<()> {
    if Trim(name) == [] then Replied(e.Recorded(InvalidArgument), Err(InvalidArgument))
    else if h !in e.controls then Replied(e.Recorded(InvalidArgument), Err(InvalidArgument))
    else Replied(e.(controls := e.controls[h := e.controls[h][name := value]]).Cleared(), Ok(()))
  }

  predicate IsCameraRunning(e: Engine, h: int) { h in e.pipelines && e.pipelines[h].running }

  /** `recv_timeout`: a frame if one is there in time; otherwise the channel is closed exactly without senders. */
  function ReceiveWithin(arrival: Option<Frame>, senders: int): Result<Frame> {
    match arrival
    case Some(frame) => Ok(frame)
    case None => if senders <= 0 then Err(SinkClosed) else Err(Timeout)
  }

  /** `poll_frame`. */
  function PollFrame(e: Engine, arrival: Option<Frame>): Result<Option<Bytes>> {
    match ReceiveWithin(arrival, e.senders)
    case Ok(frame) => Ok(Some(frame.buffer.data))
    case Err(error) => if error == EngineError.Timeout then Ok(None) else Err(error)
  }

  class NativeEngine {
    var pipelines: map<int, Pipeline>
    var controls: map<int, map<string, int>>
    var nextCameraHandle: int
    var lastErrorCode: int
    var lastError: Option<EngineError>
    var senders: int

    function View(): Engine
      reads this
    {
      Engine(pipelines, controls, nextCameraHandle, lastErrorCode, lastError, senders)
    }

    constructor ()
      ensures View() == NEW_ENGINE
    {
      pipelines, controls, nextCameraHandle, lastErrorCode, lastError := map[], map[], 1, ERROR_OK, None;
      senders := 1;
    }

    method RecordError(e: EngineError)
      modifies this`lastErrorCode, this`lastError
      ensures View() == old(View()).Recorded(e)
    {
      lastErrorCode := ErrorCode(e);
      lastError := Some(e);
    }

    method StartCamera(q: StartRequest) returns (r: Result<int>)
      modifies this
      ensures Replied(View(), r) == StartCameraReply(old(View()), q)
    {
      var requested := RequestedPipeline(q);
      if requested.Err? {
        return Err(requested.error);
      }
      var handle := nextCameraHandle;
      nextCameraHandle := nextCameraHandle + 1;
      senders := senders + 1;
      pipelines := pipelines[handle := requested.value];
      controls := controls[handle := map[]];
      lastErrorCode := ERROR_OK;
      lastError := None;
      r := Ok(handle);
    }

    method StopCamera(handle: int, crashed: bool) returns (r: Result<()>)
      modifies this
      ensures Replied(View(), r) == StopCameraReply(old(View()), handle, crashed)
    {
      if handle !in pipelines {
        RecordError(InvalidArgument);
        return Err(InvalidArgument);
      }
      var pipeline := pipelines[handle];
      pipelines := pipelines - {handle};
      controls := controls - {handle};
      senders := senders - 1;
      r := StopOutcome(pipeline, Answer(crashed)).result.value;
    }

    method SetControl(handle: int, name: string, value: int) returns (r: Result<()>)
      modifies this
      ensures Replied(View(), r) == SetControlReply(old(View()), handle, name, value)
    {
      if |Trim(name)| == 0 {
        RecordError(InvalidArgument);
        return Err(InvalidArgument);
      }
      if handle !in controls {
        RecordError(InvalidArgument);
        return Err(InvalidArgument);
      }
      controls := controls[handle := controls[handle][name := value]];
      lastErrorCode := ERROR_OK;
      lastError := None;
      r := Ok(());
    }
  }

  // ---------------------------------------------------------------- call sequences

  datatype Call =
    | StartCall(request: StartRequest)
    | StopCall(handle: int, crashed: bool)
    | SetCall(handle: int, name: string, value: int)
    | PollCall(arrival: Option<Frame>)

  function Step(e: Engine, c: Call): Engine {
    match c
    case StartCall(q) => StartCameraReply(e, q).engine
    case StopCall(h, crashed) => StopCameraReply(e, h, crashed).engine
    case SetCall(h, name, value) => SetControlReply(e, h, name, value).engine
    case PollCall(_) => e
  }

  /** The engine after a list of calls, the last one applied last. */
  function After(calls: seq<Call>): Engine {
    if calls == [] then NEW_ENGINE else Step(After(calls[..|calls| - 1]), calls[|calls| - 1])
  }

  // ---------------------------------------------------------------- the history the state must agree with

  /** Whether a call starts a camera; this does not depend on the engine. */
  predicate Starts(c: Call) {
    && c.StartCall?
    && !Blank(c.request.id)
    && c.request.width > 0 && c.request.height > 0 && c.request.fps > 0
  }

  /** How many cameras were ever started; the n-th gets handle n. */
  function Started(calls: seq<Call>): nat {
    if calls == [] then 0
    else Started(calls[..|calls| - 1]) + if Starts(calls[|calls| - 1]) then 1 else 0
  }

  /** The camera with this handle has been started and not stopped since. */
  predicate Live(calls: seq<Call>, h: int) {
    if calls == [] then false
    else
      var before, last := calls[..|calls| - 1], calls[|calls| - 1];
      if Starts(last) && h == Started(before) + 1 then true
      else if last.StopCall? && last.handle == h then false
      else Live(before, h)
  }

  /** The value last given to a control of a live camera since it was started. */
  function LastSet(calls: seq<Call>, h: int, name: string): Option<int> {
    if calls == [] then None
    else
      var before, last := calls[..|calls| - 1], calls[|calls| - 1];
      if !Live(calls, h) then None
      else if Starts(last) && h == Started(before) + 1 then None
      else if last.SetCall? && last.handle == h && last.name == name && !Blank(name) then Some(last.value)
      else LastSet(before, h, name)
  }

  /** The error the record must hold: failed stops and settings write it, successful starts and settings clear it,
      failed starts, successful stops and polls leave it as it was. */
  function RecordedError(calls: seq<Call>): Option<EngineError> {
    if calls == [] then None
    else
      var before, last := calls[..|calls| - 1], calls[|calls| - 1];
      match last
      case StartCall(_) => if Starts(last) then None else RecordedError(before)
      case StopCall(h, _) => if Live(before, h) then RecordedError(before) else Some(InvalidArgument)
      case SetCall(h, name, _) => if Live(before, h) && !Blank(name) then None else Some(InvalidArgument)
      case PollCall(_) => RecordedError(before)
  }

  /** Both tables hold exactly the live handles, all below the next one and running, and the channel has one sender more
      than there are pipelines. */
  ghost predicate TablesAgree(calls: seq<Call>, e: Engine) {
    && e.nextHandle == Started(calls) + 1
    && (forall h :: h in e.pipelines <==> Live(calls, h))
    && (forall h :: h in e.controls <==> Live(calls, h))
    && (forall h :: h in e.pipelines ==> 1 <= h < e.nextHandle && e.pipelines[h].running)
    && e.senders == 1 + |e.pipelines|
  }

  function ControlValue(e: Engine, h: int, name: string): Option<int> {
    if h in e.controls && name in e.controls[h] then Some(e.controls[h][name]) else None
  }

  /** Each control map holds exactly the last value set per name since the camera's start. */
  ghost predicate ControlsAgree(calls: seq<Call>, e: Engine) {
    forall h, name :: ControlValue(e, h, name) == LastSet(calls, h, name)
  }

  predicate RecordAgrees(calls: seq<Call>, e: Engine) {
    && e.lastError == RecordedError(calls)
    && e.errorCode == match e.lastError case None => ERROR_OK case Some(error) => ErrorCode(error)
  }

  /** The engine's state says what the history says. */
  ghost predicate Agrees(calls: seq<Call>, e: Engine) {
    TablesAgree(calls, e) && ControlsAgree(calls, e) && RecordAgrees(calls, e)
  }

  lemma RemovedCount(pipelines: map<int, Pipeline>, h: int)
    requires h in pipelines
    ensures |pipelines - {h}| == |pipelines| - 1
  {
    assert (pipelines - {h}).Keys == pipelines.Keys - {h};
    assert |pipelines| == |pipelines.Keys| && |pipelines - {h}| == |(pipelines - {h}).Keys|;
  }

  lemma AddedCount(pipelines: map<int, Pipeline>, h: int, pipeline: Pipeline)
    requires h !in pipelines
    ensures |pipelines[h := pipeline]| == |pipelines| + 1
  {
    assert pipelines[h := pipeline].Keys == pipelines.Keys + {h};
    assert |pipelines| == |pipelines.Keys| && |pipelines[h := pipeline]| == |pipelines[h := pipeline].Keys|;
  }

  lemma StartSucceedsExactly(e: Engine, q: StartRequest)
    ensures StartCameraReply(e, q).result.Ok? <==> Starts(StartCall(q))
    ensures RequestedPipeline(q).Ok? ==> RequestedPipeline(q).value.running
  {
    TrimEmptyExactly(q.id);
  }

  lemma LiveSnoc(calls: seq<Call>, c: Call, h: int)
    ensures Live(calls + [c], h) <==>
      (Starts(c) && h == Started(calls) + 1) || (Live(calls, h) && !(c.StopCall? && c.handle == h))
    ensures Started(calls + [c]) == Started(calls) + if Starts(c) then 1 else 0
  {
    var now := calls + [c];
    assert now[..|now| - 1] == calls && now[|now| - 1] == c;
  }

  lemma LastSetSnoc(calls: seq<Call>, c: Call, h: int, name: string)
    ensures LastSet(calls + [c], h, name) ==
            if !Live(calls + [c], h) || (Starts(c) && h == Started(calls) + 1) then None
            else if c.SetCall? && c.handle == h && c.name == name && !Blank(name) then Some(c.value)
            else LastSet(calls, h, name)
  {
    var now := calls + [c];
    assert now[..|now| - 1] == calls && now[|now| - 1] == c;
  }

  lemma RecordSnoc(calls: seq<Call>, c: Call)
    ensures RecordedError(calls + [c]) ==
            if c.StartCall? && Starts(c) then None
            else if c.StopCall? && !Live(calls, c.handle) then Some(InvalidArgument)
            else if c.SetCall? then if Live(calls, c.handle) && !Blank(c.name) then None else Some(InvalidArgument)
            else RecordedError(calls)
  {
    var now := calls + [c];
    assert now[..|now| - 1] == calls && now[|now| - 1] == c;
  }

  /** A call that adds or removes a pipeline adds or removes a sender, and only a start issues a handle. */
  lemma StepCounts(e: Engine, c: Call)
    requires e.nextHandle !in e.pipelines
    ensures Step(e, c).senders - |Step(e, c).pipelines| == e.senders - |e.pipelines|
    ensures Step(e, c).nextHandle == e.nextHandle + if Starts(c) then 1 else 0
  {
    match c
    case StartCall(q) =>
      StartSucceedsExactly(e, q);
      if Starts(c) {
        AddedCount(e.pipelines, e.nextHandle, RequestedPipeline(q).value);
      }
    case StopCall(h, _) =>
      if h in e.pipelines {
        RemovedCount(e.pipelines, h);
      }
    case _ =>
  }

  /** What one call does to one entry of the tables. */
  lemma StepEntry(e: Engine, c: Call, h: int)
    requires h in e.pipelines <==> h in e.controls
    requires h in e.pipelines ==> e.pipelines[h].running
    ensures h in Step(e, c).pipelines <==>
      (Starts(c) && h == e.nextHandle) || (h in e.pipelines && !(c.StopCall? && c.handle == h))
    ensures h in Step(e, c).pipelines <==> h in Step(e, c).controls
    ensures h in Step(e, c).pipelines ==> Step(e, c).pipelines[h].running
  {
    if c.StartCall? {
      StartSucceedsExactly(e, c.request);
    }
  }

  lemma TablesStep(calls: seq<Call>, e: Engine, c: Call)
    requires TablesAgree(calls, e)
    ensures TablesAgree(calls + [c], Step(e, c))
  {
    var n, now := Step(e, c), calls + [c];
    StepCounts(e, c);
    LiveSnoc(calls, c, 0);
    forall h
      ensures (h in n.pipelines <==> Live(now, h)) && (h in n.controls <==> Live(now, h))
      ensures h in n.pipelines ==> 1 <= h < n.nextHandle && n.pipelines[h].running
    {
      LiveSnoc(calls, c, h);
      StepEntry(e, c, h);
    }
  }

  /** What one call does to one control. */
  lemma StepControl(e: Engine, c: Call, h: int, name: string)
    ensures ControlValue(Step(e, c), h, name) ==
            if Starts(c) && h == e.nextHandle then None
            else if c.StopCall? && c.handle == h && h in e.pipelines then None
            else if c.SetCall? && c.handle == h && c.name == name && !Blank(name) && h in e.controls then Some(c.value)
            else ControlValue(e, h, name)
  {
    match c
    case StartCall(q) => StartSucceedsExactly(e, q);
    case SetCall(_, other, _) => TrimEmptyExactly(other);
    case _ =>
  }

  lemma ControlsStep(calls: seq<Call>, e: Engine, c: Call)
    requires TablesAgree(calls, e) && ControlsAgree(calls, e)
    ensures ControlsAgree(calls + [c], Step(e, c))
  {
    forall h, name
      ensures ControlValue(Step(e, c), h, name) == LastSet(calls + [c], h, name)
    {
      StepControl(e, c, h, name);
      LastSetSnoc(calls, c, h, name);
      LiveSnoc(calls, c, h);
      assert ControlValue(e, h, name) == LastSet(calls, h, name);
      assert h !in e.controls ==> ControlValue(e, h, name) == None;
    }
  }

  lemma RecordStep(calls: seq<Call>, e: Engine, c: Call)
    requires TablesAgree(calls, e) && RecordAgrees(calls, e)
    ensures RecordAgrees(calls + [c], Step(e, c))
  {
    RecordSnoc(calls, c);
    match c
    case StartCall(q) => StartSucceedsExactly(e, q);
    case SetCall(_, name, _) => TrimEmptyExactly(name);
    case _ =>
  }

  lemma StepAgrees(calls: seq<Call>, e: Engine, c: Call)
    requires Agrees(calls, e)
    ensures Agrees(calls + [c], Step(e, c))
  {
    TablesStep(calls, e, c);
    ControlsStep(calls, e, c);
    RecordStep(calls, e, c);
  }

  lemma {:induction false} HistoryAgrees(calls: seq<Call>)
    ensures Agrees(calls, After(calls))
  {
    if calls != [] {
      var before, last := calls[..|calls| - 1], calls[|calls| - 1];
      HistoryAgrees(before);
      StepAgrees(before, After(before), last);
      assert before + [last] == calls;
    }
  }

  /** Every call sequence: the two tables have the same keys, exactly the live handles, all below the next one; a
      camera is running exactly when its handle is live; each control map holds exactly the last value set per name
      since that start; the error code is OK exactly when nothing is recorded, and the record is the history's. */
  lemma EngineAgreesWithHistory(calls: seq<Call>)
    ensures Agrees(calls, After(calls))
    ensures After(calls).pipelines.Keys == After(calls).controls.Keys
    ensures forall h :: IsCameraRunning(After(calls), h) <==> Live(calls, h)
    ensures After(calls).errorCode == ERROR_OK <==> After(calls).lastError == None
  {
    HistoryAgrees(calls);
  }

  /** After every call sequence a poll yields a frame or nothing, never a closed sink: whatever is started and stopped,
      the channel keeps a sender. */
  lemma PollNeverFails(calls: seq<Call>, arrival: Option<Frame>)
    ensures After(calls).senders >= 1
    ensures PollFrame(After(calls), arrival) ==
            Ok(match arrival case Some(frame) => Some(frame.buffer.data) case None => None)
  {
    HistoryAgrees(calls);
  }

  lemma {:induction false} DeadStaysDead(calls: seq<Call>, more: seq<Call>, h: int)
    requires !Live(calls, h) && h <= Started(calls)
    ensures !Live(calls + more, h) && h <= Started(calls + more)
  {
    if more == [] {
      assert calls + more == calls;
    } else {
      var all, earlier := calls + more, more[..|more| - 1];
      DeadStaysDead(calls, earlier, h);
      assert all[..|all| - 1] == calls + earlier;
    }
  }

  /** A handle that was issued and stopped never refers to a camera again, in any continuation. */
  lemma HandlesAreNotReused(calls: seq<Call>, h: int, crashed: bool, more: seq<Call>)
    requires Live(calls, h)
    ensures !IsCameraRunning(After(calls + [StopCall(h, crashed)] + more), h)
    ensures h !in After(calls + [StopCall(h, crashed)] + more).controls
  {
    var stopped := calls + [StopCall(h, crashed)];
    assert stopped[..|stopped| - 1] == calls;
    EngineAgreesWithHistory(calls);
    DeadStaysDead(stopped, more, h);
    EngineAgreesWithHistory(stopped + more);
  }

  // ---------------------------------------------------------------- what the callers are told

  /** The request whose start was given this handle. */
  function RequestOf(calls: seq<Call>, h: int): Option<StartRequest> {
    if calls == [] then None
    else
      var before, last := calls[..|calls| - 1], calls[|calls| - 1];
      if Starts(last) && h == Started(before) + 1 then Some(last.request) else RequestOf(before, h)
  }

  /** The pipeline a request asks for: its trimmed id, width, height, rate and frame limit, as MJPEG, running. */
  predicate Carries(pipeline: Pipeline, q: StartRequest) {
    && pipeline.config.cameraId == Trim(q.id)
    && pipeline.config.format.pixelFormat == Mjpeg
    && pipeline.config.format.width == q.width && pipeline.config.format.height == q.height
    && pipeline.config.format.fps == q.fps
    && pipeline.config.frameCount == q.frameCount
    && pipeline.running && pipeline.thread == Some(q.worker)
  }

  /** Whether a start succeeds and why not, told from the request; a failed one changes nothing. */
  lemma StartRepliesExactly(e: Engine, q: StartRequest)
    ensures var r := StartCameraReply(e, q);
      && (Blank(q.id) ==> r == Replied(e, Err(InvalidCameraId)))
      && (!Blank(q.id) && (q.width == 0 || q.height == 0 || q.fps == 0) ==> r == Replied(e, Err(InvalidFrameFormat)))
      && (!Blank(q.id) && q.width > 0 && q.height > 0 && q.fps > 0 ==>
           && r.result == Ok(e.nextHandle)
           && e.nextHandle in r.engine.pipelines && Carries(r.engine.pipelines[e.nextHandle], q)
           && e.nextHandle in r.engine.controls && r.engine.controls[e.nextHandle] == map[])
  {
    TrimEmptyExactly(q.id);
  }

  /** A call leaves every camera alone that it neither starts nor stops. */
  lemma OtherCamerasKept(e: Engine, c: Call, h: int)
    requires h in e.pipelines && h != e.nextHandle && !(c.StopCall? && c.handle == h)
    ensures h in Step(e, c).pipelines && Step(e, c).pipelines[h] == e.pipelines[h]
  {
  }

  /** As long as a handle is live its camera is the one requested when the handle was given out. */
  lemma {:induction false} LiveCameraCarriesRequest(calls: seq<Call>, h: int)
    requires Live(calls, h)
    ensures h in After(calls).pipelines && RequestOf(calls, h).Some?
    ensures Carries(After(calls).pipelines[h], RequestOf(calls, h).value)
  {
    var before, last := calls[..|calls| - 1], calls[|calls| - 1];
    HistoryAgrees(before);
    if Starts(last) && h == Started(before) + 1 {
      StartRepliesExactly(After(before), last.request);
    } else {
      LiveCameraCarriesRequest(before, h);
      OtherCamerasKept(After(before), last, h);
    }
  }

  lemma {:induction false} StartedGrows(calls: seq<Call>, n: nat)
    requires n <= |calls|
    ensures Started(calls[..n]) <= Started(calls)
  {
    if n < |calls| {
      StartedGrows(calls[..|calls| - 1], n);
      assert calls[..|calls| - 1][..n] == calls[..n];
    } else {
      assert calls[..n] == calls;
    }
  }

  /** The handle a start returns: the number of starts so far, never live before, live and running from then on, with no
      control set, for the camera requested. */
  lemma StartReturnsHandle(calls: seq<Call>, q: StartRequest)
    requires Starts(StartCall(q))
    ensures var h, now := Started(calls) + 1, After(calls + [StartCall(q)]);
      && StartCameraReply(After(calls), q) == Replied(now, Ok(h))
      && (forall n :: 0 <= n <= |calls| ==> !Live(calls[..n], h))
      && Live(calls + [StartCall(q)], h) && IsCameraRunning(now, h)
      && Carries(now.pipelines[h], q) && h in now.controls && now.controls[h] == map[]
  {
    var h := Started(calls) + 1;
    AfterSnoc(calls, StartCall(q));
    HistoryAgrees(calls);
    StartRepliesExactly(After(calls), q);
    LiveSnoc(calls, StartCall(q), h);
    NeverLiveBefore(calls, h);
  }

  lemma AfterSnoc(calls: seq<Call>, c: Call)
    ensures After(calls + [c]) == Step(After(calls), c)
  {
    var all := calls + [c];
    assert all[..|all| - 1] == calls && all[|all| - 1] == c;
  }

  lemma NeverLiveBefore(calls: seq<Call>, h: int)
    requires h > Started(calls)
    ensures forall n :: 0 <= n <= |calls| ==> !Live(calls[..n], h)
  {
    forall n | 0 <= n <= |calls|
      ensures !Live(calls[..n], h)
    {
      StartedGrows(calls, n);
      HistoryAgrees(calls[..n]);
    }
  }

  /** What a stop and a setting return, told from the history. */
  lemma RepliesExactly(calls: seq<Call>, h: int, crashed: bool, name: string, value: int)
    ensures StopCameraReply(After(calls), h, crashed).result ==
            if !Live(calls, h) then Err(InvalidArgument) else if crashed then Err(Backend) else Ok(())
    ensures SetControlReply(After(calls), h, name, value).result ==
            if Live(calls, h) && !Blank(name) then Ok(()) else Err(InvalidArgument)
  {
    HistoryAgrees(calls);
    TrimEmptyExactly(name);
    if Live(calls, h) {
      LiveCameraCarriesRequest(calls, h);
    }
  }

  // ---------------------------------------------------------------- when `stop_camera` hangs

  /** The engine's own channel. */
  const CHANNEL_CAPACITY := 32

  /** The cameras that a list of requests gets started, each a pipeline of its own that is never restarted. */
  function StartedConfigs(requests: seq<StartRequest>): (r: seq<CameraConfig>)
    ensures forall i :: 0 <= i < |r| ==> r[i].format.Valid() && r[i].format.pixelFormat.Mjpeg?
  {
    if requests == [] then []
    else
      (match RequestedPipeline(requests[0])
       case Ok(pipeline) => [pipeline.config]
       case Err(_) => [])
      + StartedConfigs(requests[1..])
  }

  /** The frames these cameras will make, where all have a limit. */
  function FrameCounts(configs: seq<CameraConfig>): (r: seq<nat>)
    requires forall i :: 0 <= i < |configs| ==> configs[i].frameCount.Some?
    ensures |r| == |configs| && forall i :: 0 <= i < |r| ==> r[i] == configs[i].frameCount.value
  {
    seq(|configs|, i requires 0 <= i < |configs| => configs[i].frameCount.value)
  }

  lemma MjpegFits(configs: seq<CameraConfig>)
    requires forall i :: 0 <= i < |configs| ==> configs[i].format.Valid() && configs[i].format.pixelFormat.Mjpeg?
    ensures StopHangs.FitsChannel(CHANNEL_CAPACITY, configs) <==>
      && (forall i :: 0 <= i < |configs| ==> configs[i].frameCount.Some?)
      && StopHangs.Sum(FrameCounts(configs)) <= CHANNEL_CAPACITY
  {
    forall i | 0 <= i < |configs|
      ensures StopReturns.Productive(configs[i]) <==> configs[i].frameCount != Some(0)
    {
      FrameNumberPanicsExactly(configs[i], 0);
    }
    if forall i :: 0 <= i < |configs| ==> configs[i].frameCount.Some? {
      assert StopHangs.Limits(configs) == FrameCounts(configs);
    }
  }

  /** The engine receives from its channel and stops cameras under one lock, so a frame is never taken while a
      `stop_camera` waits: unless frames are polled in between, a stop can hang exactly when some started camera has no
      frame limit or the limits sum to more than 32. */
  lemma StopCameraHangsExactly(requests: seq<StartRequest>)
    ensures var configs := StartedConfigs(requests);
      StopHangs.CanHangOwned(Init(CHANNEL_CAPACITY, configs)) <==>
      !(&& (forall i :: 0 <= i < |configs| ==> configs[i].frameCount.Some?)
        && StopHangs.Sum(FrameCounts(configs)) <= CHANNEL_CAPACITY)
  {
    var configs := StartedConfigs(requests);
    MjpegFits(configs);
    StopHangs.SpawnedStopHangsExactly(CHANNEL_CAPACITY, configs);
  }
}
