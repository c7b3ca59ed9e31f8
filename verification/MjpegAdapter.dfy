/** MJPEG boundary check and the adapter that numbers frames and pushes them into a sink (packet.rs). */
module MjpegAdapter {
  import opened Basics
  import opened Formats
  import opened Frames
  import opened Packets

  /** Starts with the SOI marker and ends with the EOI marker. */
  predicate IsMjpegFrame(frame: Bytes) {
    |frame| >= 2 && frame[..2] == [0xff, 0xd8] && frame[|frame| - 2..] == [0xff, 0xd9]
  }

  /** The two markers never overlap: an MJPEG frame is exactly SOI, anything, EOI. */
  lemma MjpegFrameExactly(frame: Bytes)
    ensures IsMjpegFrame(frame) <==>
      |frame| >= 4 && frame == [0xff, 0xd8] + frame[2..|frame| - 2] + [0xff, 0xd9]
  {
    if IsMjpegFrame(frame) {
      assert frame[0] == frame[..2][0] && frame[1] == frame[..2][1];
      assert frame[|frame| - 2] == frame[|frame| - 2..][0] && frame[|frame| - 1] == frame[|frame| - 2..][1];
    }
  }

  /** One `MjpegFrameAssembler::push_packet`. */
  function AssembleMjpeg(a: Assembler, packet: Bytes): Pushed {
    var p := Assemble(a, packet);
    if FrameOf(p) != [] && !IsMjpegFrame(FrameOf(p)[0]) then Pushed(p.next, Err(Backend)) else p
  }

  /** A rejected frame is gone: nothing of it stays behind. */
  lemma InvalidFrameLeavesNothing(a: Assembler, packet: Bytes)
    requires AssembleMjpeg(a, packet).result.Err? && Assemble(a, packet).result.Ok?
    ensures AssembleMjpeg(a, packet).next == FRESH
    ensures !IsMjpegFrame(a.buffer + Payload(packet)) && EndsFrame(packet)
  {
  }

  class MjpegFrameAssembler {
    const inner: UvcPacketAssembler

    function State(): Assembler
      reads inner
    {
      inner.State()
    }

    constructor ()
      ensures State() == FRESH && fresh(inner)
    {
      inner := new UvcPacketAssembler();
    }

    method PushPacket(packet: Bytes) returns (r: Result<Option<Bytes>>)
      modifies inner
      ensures Pushed(State(), r) == AssembleMjpeg(old(State()), packet)
    {
      r := inner.PushPacket(packet);
      if r.Ok? && r.value.Some? {
        if !IsMjpegFrame(r.value.value) {
          r := Err(Backend);
        }
      }
    }

    method Clear()
      modifies inner
      ensures State() == FRESH
    {
      inner.Clear();
    }
  }

  // ---------------------------------------------------------------- sink adapter

  /** The adapter's fields and everything its sink has been offered. */
  datatype Adapter = Adapter(assembler: Assembler, cameraId: CameraId, format: FrameFormat, sequence: nat,
                             offers: seq<Offer>)

  datatype Adapted = Adapted(next: Adapter, outcome: Outcome<bool>)

  /** A valid frame is numbered, wrapped and offered; the number is spent before the frame buffer is built. */
  function OfferFrame(a: Adapter, data: Bytes, reply: SinkReply): Adapted {
    var numbered := a.(sequence := a.sequence + 1);
    match NewFrameBuffer(a.format, data)
    case Err(_) => Adapted(numbered, Panicked)
    case Ok(buffer) =>
      Adapted(numbered.(offers := a.offers + [Offer(Frame(a.cameraId, a.sequence, buffer), reply)]),
              if reply.Accepts? then Returned(true) else Failed(reply.error))
  }

  /** One `MjpegFrameSinkAdapter::push_packet`. */
  function AdaptPacket(a: Adapter, packet: Bytes, reply: SinkReply): Adapted {
    var p := AssembleMjpeg(a.assembler, packet);
    var assembled := a.(assembler := p.next);
    match p.result
    case Err(e) => Adapted(assembled, Failed(e))
    case Ok(None) => Adapted(assembled, Returned(false))
    case Ok(Some(data)) => OfferFrame(assembled, data, reply)
  }

  /** How offering a completed frame ends: an error for a frame that is no JPEG, a panic for one that misses a known raw
      length, otherwise the sink's own answer. */
  function Offered(a: Adapter, data: Bytes, reply: SinkReply): Outcome<bool> {
    if !IsMjpegFrame(data) then Failed(Backend)
    else if a.format.ExpectedLen() != None && a.format.ExpectedLen() != Some(|data|) then Panicked
    else match reply case Accepts => Returned(true) case Refuses(e) => Failed(e)
  }

  /** What a push returns, told from the bare packet assembler: its refusal; false while no frame is complete; otherwise
      how offering the frame ends. */
  lemma PushOutcomeExactly(a: Adapter, packet: Bytes, reply: SinkReply)
    ensures var bare, outcome := Assemble(a.assembler, packet).result, AdaptPacket(a, packet, reply).outcome;
      && (bare.Err? ==> outcome == Failed(bare.error))
      && (bare == Ok(None) ==> outcome == Returned(false))
      && (bare.Ok? && bare.value.Some? ==> outcome == Offered(a, bare.value.value, reply))
  {
    var p := Assemble(a.assembler, packet);
    if p.result.Ok? && p.result.value.Some? {
      FrameBufferExactly(a.format, p.result.value.value);
    }
  }

  class MjpegFrameSinkAdapter {
    const sink: FrameSink
    const assembler: MjpegFrameAssembler
    const cameraId: CameraId
    const format: FrameFormat
    var sequence: nat

    function State(): Adapter
      reads this, assembler.inner, sink
    {
      Adapter(assembler.State(), cameraId, format, sequence, sink.offers)
    }

    constructor (sink: FrameSink, cameraId: CameraId, format: FrameFormat)
      ensures State() == Adapter(FRESH, cameraId, format, 0, sink.offers)
      ensures this.sink == sink && fresh(assembler) && fresh(assembler.inner)
    {
      this.sink := sink;
      this.cameraId := cameraId;
      this.format := format;
      assembler := new MjpegFrameAssembler();
      sequence := 0;
    }

    method PushPacket(packet: Bytes, reply: SinkReply) returns (r: Outcome<bool>)
      modifies this, assembler.inner, sink
      ensures Adapted(State(), r) == AdaptPacket(old(State()), packet, reply)
    {
      var assembled := assembler.PushPacket(packet);
      match assembled
      case Err(e) => r := Failed(e);
      case Ok(None) => r := Returned(false);
      case Ok(Some(data)) => r := PushFrame(data, reply);
    }

    method PushFrame(data: Bytes, reply: SinkReply) returns (r: Outcome<bool>)
      modifies this, sink
      ensures Adapted(State(), r) == OfferFrame(old(State()), data, reply)
    {
      var made := MakeFrame(data);
      if !made.Returned? {
        return Panicked;
      }
      var pushed := sink.Push(made.value, reply);
      r := if pushed.Ok? then Returned(true) else Failed(pushed.error);
    }

    method MakeFrame(data: Bytes) returns (r: Outcome<Frame>)
      modifies this
      ensures sequence == old(sequence) + 1
      ensures r == match NewFrameBuffer(format, data)
                   case Ok(buffer) => Returned(Frame(cameraId, old(sequence), buffer))
                   case Err(_) => Panicked
    {
      var number := sequence;
      sequence := sequence + 1;
      var buffer := NewFrameBuffer(format, data);
      r := if buffer.Ok? then Returned(Frame(cameraId, number, buffer.value)) else Panicked;
    }

    method Clear()
      modifies assembler.inner
      ensures State() == old(State()).(assembler := FRESH)
    {
      assembler.Clear();
    }
  }

  // ---------------------------------------------------------------- runs of the adapter

  /** One call on the adapter, with the sink's answer should a frame be offered during it. */
  datatype Call = PushCall(packet: Bytes, reply: SinkReply) | ClearCall

  function Step(a: Adapter, call: Call): Adapted {
    match call
    case PushCall(packet, reply) => AdaptPacket(a, packet, reply)
    case ClearCall => Adapted(a.(assembler := FRESH), Returned(false))
  }

  function After(a: Adapter, calls: seq<Call>): Adapter
    decreases |calls|
  {
    if calls == [] then a else After(Step(a, calls[0]).next, calls[1..])
  }

  function Outcomes(a: Adapter, calls: seq<Call>): (r: seq<Outcome<bool>>)
    ensures |r| == |calls|
    decreases |calls|
  {
    if calls == [] then []
    else [Step(a, calls[0]).outcome] + Outcomes(Step(a, calls[0]).next, calls[1..])
  }

  /** A frame the bare packet assembler completed, and the answer waiting for it. */
  datatype Completed = Completed(data: Bytes, reply: SinkReply)

  /** The bare packet assembler driven by the same calls: the frames it completes that are MJPEG frames. */
  function ValidCompletions(a: Assembler, calls: seq<Call>): seq<Completed>
    decreases |calls|
  {
    if calls == [] then []
    else match calls[0]
      case ClearCall => ValidCompletions(FRESH, calls[1..])
      case PushCall(packet, reply) =>
        var p := Assemble(a, packet);
        (if FrameOf(p) != [] && IsMjpegFrame(FrameOf(p)[0]) then [Completed(FrameOf(p)[0], reply)] else [])
        + ValidCompletions(p.next, calls[1..])
  }

  function AssemblerAfter(a: Assembler, calls: seq<Call>): Assembler
    decreases |calls|
  {
    if calls == [] then a
    else match calls[0]
      case ClearCall => AssemblerAfter(FRESH, calls[1..])
      case PushCall(packet, _) => AssemblerAfter(Assemble(a, packet).next, calls[1..])
  }

  /** Those frames as the sink must see them: consecutive numbers from `first`, no gaps. */
  function Numbered(cameraId: CameraId, format: FrameFormat, first: nat, completed: seq<Completed>): (r: seq<Offer>)
    ensures |r| == |completed|
    ensures forall i :: 0 <= i < |r| ==>
      r[i] == Offer(Frame(cameraId, first + i, FrameBuffer(format, completed[i].data)), completed[i].reply)
  {
    seq(|completed|, i requires 0 <= i < |completed| =>
      Offer(Frame(cameraId, first + i, FrameBuffer(format, completed[i].data)), completed[i].reply))
  }

  predicate Fits(format: FrameFormat, data: Bytes) {
    format.ExpectedLen() == None || format.ExpectedLen() == Some(|data|)
  }

  function Successes(outcomes: seq<Outcome<bool>>): nat {
    if outcomes == [] then 0
    else (if outcomes[0] == Returned(true) then 1 else 0) + Successes(outcomes[1..])
  }

  lemma StepFacts(a: Adapter, call: Call)
    ensures var s := Step(a, call); var now := ValidCompletions(a.assembler, [call]);
      && s.next.assembler == AssemblerAfter(a.assembler, [call])
      && s.next.cameraId == a.cameraId && s.next.format == a.format
      && s.next.sequence == a.sequence + |now| && |now| <= 1
      && (s.outcome.Panicked? <==> now != [] && !Fits(a.format, now[0].data))
      && (!s.outcome.Panicked? ==> s.next.offers == a.offers + Numbered(a.cameraId, a.format, a.sequence, now))
      && (s.outcome == Returned(true) <==> now != [] && Fits(a.format, now[0].data) && now[0].reply.Accepts?)
  {
    if call.PushCall? {
      var p := Assemble(a.assembler, call.packet);
      assert [call][1..] == [];
    }
  }

  lemma CompletionsCons(a: Assembler, calls: seq<Call>)
    requires calls != []
    ensures ValidCompletions(a, calls) ==
            ValidCompletions(a, calls[..1]) + ValidCompletions(AssemblerAfter(a, calls[..1]), calls[1..])
    ensures AssemblerAfter(a, calls) == AssemblerAfter(AssemblerAfter(a, calls[..1]), calls[1..])
  {
    assert calls[..1] == [calls[0]] && calls[..1][1..] == [];
  }

  lemma NumberedAppend(cameraId: CameraId, format: FrameFormat, first: nat, a: seq<Completed>, b: seq<Completed>)
    ensures Numbered(cameraId, format, first, a + b) ==
            Numbered(cameraId, format, first, a) + Numbered(cameraId, format, first + |a|, b)
  {
  }

  /** What the sink must end up with, given what it had. */
  ghost predicate Sequenced(a: Adapter, completed: seq<Completed>, end: Adapter) {
    && end.offers == a.offers + Numbered(a.cameraId, a.format, a.sequence, completed)
    && end.sequence == a.sequence + |completed|
    && end.cameraId == a.cameraId && end.format == a.format
  }

  lemma SequencedTransitive(a: Adapter, now: seq<Completed>, b: Adapter, later: seq<Completed>, c: Adapter)
    requires Sequenced(a, now, b) && Sequenced(b, later, c)
    ensures Sequenced(a, now + later, c)
  {
    NumberedAppend(a.cameraId, a.format, a.sequence, now, later);
    ConcatAssociative(a.offers, Numbered(a.cameraId, a.format, a.sequence, now),
                      Numbered(a.cameraId, a.format, b.sequence, later));
  }

  /** Sequencing over every run of pushes and clears: whatever the calls, the sink is offered exactly the valid
      frames the bare packet assembler completes, in order, numbered from the adapter's counter without gaps;
      the assembler ends as the bare one does, and `clear` never resets the counter. */
  lemma {:induction false} AdapterSequencing(a: Adapter, calls: seq<Call>)
    requires forall c <- ValidCompletions(a.assembler, calls) :: Fits(a.format, c.data)
    ensures Sequenced(a, ValidCompletions(a.assembler, calls), After(a, calls))
    ensures After(a, calls).assembler == AssemblerAfter(a.assembler, calls)
    decreases |calls|
  {
    if calls != [] {
      assert calls[..1] == [calls[0]];
      var s := Step(a, calls[0]).next;
      var now, later := ValidCompletions(a.assembler, calls[..1]), ValidCompletions(s.assembler, calls[1..]);
      StepFacts(a, calls[0]);
      CompletionsCons(a.assembler, calls);
      FitsSplit(a.format, now, later);
      AdapterSequencing(s, calls[1..]);
      SequencedTransitive(a, now, s, later, After(a, calls));
    }
  }

  lemma FitsSplit(format: FrameFormat, now: seq<Completed>, later: seq<Completed>)
    requires forall c <- now + later :: Fits(format, c.data)
    ensures forall c <- now :: Fits(format, c.data)
    ensures forall c <- later :: Fits(format, c.data)
  {
    assert forall c :: c in now || c in later ==> c in now + later;
  }

  /** The calls that return true are exactly as many as the frames the sink comes to keep. */
  lemma {:induction false} TrueMeansKept(a: Adapter, calls: seq<Call>)
    ensures |Kept(After(a, calls).offers)| == |Kept(a.offers)| + Successes(Outcomes(a, calls))
    decreases |calls|
  {
    if calls != [] {
      var s := Step(a, calls[0]);
      StepKeeps(a, calls[0]);
      TrueMeansKept(s.next, calls[1..]);
      assert Outcomes(a, calls)[1..] == Outcomes(s.next, calls[1..]);
    }
  }

  lemma StepKeeps(a: Adapter, call: Call)
    ensures |Kept(Step(a, call).next.offers)| ==
            |Kept(a.offers)| + if Step(a, call).outcome == Returned(true) then 1 else 0
  {
    var s := Step(a, call);
    if |s.next.offers| > |a.offers| {
      var offered := s.next.offers[|a.offers|..];
      assert s.next.offers == a.offers + offered && offered == [offered[0]];
      KeptAppend(a.offers, offered);
    } else {
      assert s.next.offers == a.offers;
    }
  }

  /** The panic in `make_frame` is reachable exactly when a completed MJPEG frame misses a known raw length. */
  lemma {:induction false} AdapterPanicsExactly(a: Adapter, calls: seq<Call>)
    ensures (exists o <- Outcomes(a, calls) :: o.Panicked?) <==>
            (exists c <- ValidCompletions(a.assembler, calls) :: !Fits(a.format, c.data))
    decreases |calls|
  {
    if calls != [] {
      assert calls[..1] == [calls[0]];
      var s := Step(a, calls[0]);
      StepFacts(a, calls[0]);
      CompletionsCons(a.assembler, calls);
      AdapterPanicsExactly(s.next, calls[1..]);
      var now, later := ValidCompletions(a.assembler, calls[..1]), ValidCompletions(s.next.assembler, calls[1..]);
      assert Outcomes(a, calls) == [s.outcome] + Outcomes(s.next, calls[1..]);
      assert forall c :: c in now + later <==> c in now || c in later;
      assert now != [] ==> now == [now[0]];
      if s.outcome.Panicked? {
        assert s.outcome in Outcomes(a, calls) && now[0] in now;
      }
    }
  }

  /** With a compressed format, or one whose raw length overflows, no call sequence panics. */
  lemma CompressedFormatNeverPanics(a: Adapter, calls: seq<Call>)
    requires a.format.Valid()
    requires a.format.pixelFormat.Compressed()
          || a.format.width * a.format.height * CheckedFactor(a.format.pixelFormat) >= U32_LIMIT
    ensures forall o <- Outcomes(a, calls) :: !o.Panicked?
  {
    ExpectedLenExact(a.format);
    AdapterPanicsExactly(a, calls);
  }

  /** A JPEG-looking frame of a length other than the given one. */
  function MisfitFrame(expected: nat): Bytes {
    if expected == 4 then [0xff, 0xd8, 0, 0xff, 0xd9] else [0xff, 0xd8, 0xff, 0xd9]
  }

  /** The whole frame in one packet. */
  function MisfitPacket(expected: nat): Bytes { [2, 2] + MisfitFrame(expected) }

  lemma MisfitIsEmitted(expected: nat)
    ensures Assemble(FRESH, MisfitPacket(expected)) == Pushed(FRESH, Ok(Some(MisfitFrame(expected))))
    ensures IsMjpegFrame(MisfitFrame(expected)) && |MisfitFrame(expected)| != expected
  {
    assert MisfitPacket(expected)[2..] == MisfitFrame(expected);
    assert FRESH.buffer + MisfitFrame(expected) == MisfitFrame(expected);
  }

  /** With any known raw length, some calls panic, from every state. */
  lemma KnownLengthPanics(a: Adapter) returns (calls: seq<Call>)
    requires a.format.ExpectedLen().Some?
    ensures exists o <- Outcomes(a, calls) :: o.Panicked?
  {
    var expected := a.format.ExpectedLen().value;
    var push := PushCall(MisfitPacket(expected), Accepts);
    calls := [ClearCall, push];
    MisfitIsEmitted(expected);
    assert calls[1..] == [push] && [push][1..] == [];
    assert ValidCompletions(a.assembler, calls) == ValidCompletions(FRESH, [push]);
    assert ValidCompletions(FRESH, [push]) == [Completed(MisfitFrame(expected), Accepts)];
    assert ValidCompletions(a.assembler, calls)[0] in ValidCompletions(a.assembler, calls);
    AdapterPanicsExactly(a, calls);
  }

  ghost predicate NeverPanics(a: Adapter) {
    forall calls :: forall o <- Outcomes(a, calls) :: !o.Panicked?
  }

  /** Exact condition the caller of `new` can check: no calls ever panic exactly with a compressed format, or a raw one
      whose length overflows 32 bits. */
  lemma NeverPanicsExactly(a: Adapter)
    requires a.format.Valid()
    ensures NeverPanics(a) <==>
      || a.format.pixelFormat.Compressed()
      || a.format.width * a.format.height * CheckedFactor(a.format.pixelFormat) >= U32_LIMIT
  {
    ExpectedLenExact(a.format);
    if a.format.ExpectedLen().Some? {
      var calls := KnownLengthPanics(a);
    } else {
      forall calls
        ensures forall o <- Outcomes(a, calls) :: !o.Panicked?
      {
        CompressedFormatNeverPanics(a, calls);
      }
    }
  }

  predicate Consecutive(offers: seq<Offer>, first: nat) {
    forall i :: 0 <= i < |offers| ==> offers[i].frame.sequence == first + i
  }

  lemma {:induction false} KeptIsAccepted(offers: seq<Offer>, first: nat, k: nat)
    requires Consecutive(offers, first)
    requires k < |Kept(offers)|
    ensures var f := Kept(offers)[k];
      first <= f.sequence < first + |offers| && offers[f.sequence - first] == Offer(f, Accepts)
  {
    if !offers[0].reply.Accepts? {
      assert Kept(offers) == Kept(offers[1..]);
      KeptIsAccepted(offers[1..], first + 1, k);
    } else if k > 0 {
      KeptIsAccepted(offers[1..], first + 1, k - 1);
    }
  }

  lemma {:induction false} AcceptedAreKept(offers: seq<Offer>, i: nat)
    requires i < |offers| && offers[i].reply.Accepts?
    ensures offers[i].frame in Kept(offers)
  {
    if i > 0 {
      AcceptedAreKept(offers[1..], i - 1);
    }
  }

  /** Frames a sink kept out of consecutively numbered offers strictly increase. */
  lemma {:induction false} KeptSequencesIncrease(offers: seq<Offer>, first: nat)
    requires Consecutive(offers, first)
    ensures forall i, j :: 0 <= i < j < |Kept(offers)| ==> Kept(offers)[i].sequence < Kept(offers)[j].sequence
  {
    if offers != [] {
      var rest := offers[1..];
      KeptSequencesIncrease(rest, first + 1);
      forall k | 0 <= k < |Kept(rest)|
        ensures first < Kept(rest)[k].sequence
      {
        KeptIsAccepted(rest, first + 1, k);
      }
    }
  }

  /** Among the frames kept, one carries number n exactly when offer n was accepted. */
  ghost predicate GapsAreRefusals(offers: seq<Offer>) {
    forall n :: 0 <= n < |offers| ==>
      (offers[n].reply.Accepts? <==> exists k :: 0 <= k < |Kept(offers)| && Kept(offers)[k].sequence == n)
  }

  lemma KeptExactlyAccepted(offers: seq<Offer>)
    requires Consecutive(offers, 0)
    ensures GapsAreRefusals(offers)
  {
    forall n | 0 <= n < |offers|
      ensures offers[n].reply.Accepts? <==> exists k :: 0 <= k < |Kept(offers)| && Kept(offers)[k].sequence == n
    {
      if k :| 0 <= k < |Kept(offers)| && Kept(offers)[k].sequence == n {
        KeptIsAccepted(offers, 0, k);
      }
      if offers[n].reply.Accepts? {
        AcceptedAreKept(offers, n);
        var k :| 0 <= k < |Kept(offers)| && Kept(offers)[k] == offers[n].frame;
      }
    }
  }

  /** The whole life of an adapter made by `new` with a fresh sink: the i-th frame offered carries number i,
      the numbers kept strictly increase, and the gaps among them are exactly the refused pushes. */
  lemma AdapterFromNew(cameraId: CameraId, format: FrameFormat, calls: seq<Call>)
    requires forall c <- ValidCompletions(FRESH, calls) :: Fits(format, c.data)
    ensures var offers := After(Adapter(FRESH, cameraId, format, 0, []), calls).offers;
      && offers == Numbered(cameraId, format, 0, ValidCompletions(FRESH, calls))
      && (forall i, j :: 0 <= i < j < |Kept(offers)| ==> Kept(offers)[i].sequence < Kept(offers)[j].sequence)
      && GapsAreRefusals(offers)
  {
    var start := Adapter(FRESH, cameraId, format, 0, []);
    var offers, expected := After(start, calls).offers, Numbered(cameraId, format, 0, ValidCompletions(FRESH, calls));
    AdapterSequencing(start, calls);
    assert [] + expected == expected;
    KeptSequencesIncrease(offers, 0);
    KeptExactlyAccepted(offers);
  }
}
