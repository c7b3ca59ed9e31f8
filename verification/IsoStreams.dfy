/** Runs of the frame loop: what any list of polls feeds the adapter, and printed frames from the device to the sink
    (iso.rs, packet.rs). */
module IsoStreams {
  import opened Basics
  import opened Formats
  import opened Frames
  import opened Packets
  import opened MjpegAdapter
  import opened IsoRing
  import opened IsoFrames

  // ---------------------------------------------------------------- runs of the loop

  /** What happens to a frame loop: polls, and completions brought in by others between them. */
  datatype LoopOp = CompletesBetween(done: SlotDone) | FramePoll(env: PollEnv, reply: SinkReply)

  function RingOpOf(op: LoopOp): RingOp {
    match op
    case CompletesBetween(done) => Completes(done)
    case FramePoll(env, _) => Polls(env)
  }

  function LoopStep(l: FrameLoop, op: LoopOp): (r: FrameLoop)
    requires RingInv(l.ring)
    ensures r.ring == RingStep(l.ring, RingOpOf(op))
  {
    match op
    case CompletesBetween(done) => l.(ring := RingStep(l.ring, Completes(done)))
    case FramePoll(env, reply) => PollFrameOutcome(l, env, reply).next
  }

  function AfterOps(l: FrameLoop, ops: seq<LoopOp>): (r: FrameLoop)
    requires RingInv(l.ring)
    ensures RingInv(r.ring) && r.ring.ringSize == l.ring.ringSize
    decreases |ops|
  {
    if ops == [] then l
    else
      RingStepKeepsInv(l.ring, RingOpOf(ops[0]));
      AfterOps(LoopStep(l, ops[0]), ops[1..])
  }

  /** The packets of the transfer an operation delivers, if it delivers one. */
  function Delivery(l: FrameLoop, op: LoopOp): seq<seq<Bytes>>
    requires RingInv(l.ring)
  {
    if op.FramePoll? && Poll(l.ring, op.env).outcome.Returned? then [Poll(l.ring, op.env).outcome.value.packets] else []
  }

  function Deliveries(l: FrameLoop, ops: seq<LoopOp>): seq<seq<Bytes>>
    requires RingInv(l.ring)
    decreases |ops|
  {
    if ops == [] then []
    else
      RingStepKeepsInv(l.ring, RingOpOf(ops[0]));
      Delivery(l, ops[0]) + Deliveries(LoopStep(l, ops[0]), ops[1..])
  }

  /** The pushes an operation makes: the fed prefix of what it delivers. */
  function FedByOp(l: FrameLoop, op: LoopOp): seq<Call>
    requires RingInv(l.ring)
  {
    if Delivery(l, op) == [] then []
    else
      var packets := Delivery(l, op)[0];
      Pushes(packets[..Fed(l.adapter, packets, op.reply)], op.reply)
  }

  function FedByOps(l: FrameLoop, ops: seq<LoopOp>): seq<Call>
    requires RingInv(l.ring)
    decreases |ops|
  {
    if ops == [] then []
    else
      RingStepKeepsInv(l.ring, RingOpOf(ops[0]));
      FedByOp(l, ops[0]) + FedByOps(LoopStep(l, ops[0]), ops[1..])
  }

  lemma {:induction false} AfterAppend(a: Adapter, x: seq<Call>, y: seq<Call>)
    ensures After(a, x + y) == After(After(a, x), y)
    decreases |x|
  {
    if x == [] {
      assert x + y == y;
    } else {
      assert (x + y)[0] == x[0] && (x + y)[1..] == x[1..] + y;
      AfterAppend(Step(a, x[0]).next, x[1..], y);
    }
  }

  lemma FedByOpIsStep(l: FrameLoop, op: LoopOp)
    requires RingInv(l.ring)
    ensures LoopStep(l, op).adapter == After(l.adapter, FedByOp(l, op))
  {
    if Delivery(l, op) != [] {
      FeedIsPrefix(l.adapter, Delivery(l, op)[0], op.reply);
    }
  }

  /** Over any run of polls and completions the adapter is pushed exactly the fed prefixes of the transfers delivered,
      one after another, and nothing else. */
  lemma {:induction false} OpsFeedPrefixes(l: FrameLoop, ops: seq<LoopOp>)
    requires RingInv(l.ring)
    ensures AfterOps(l, ops).adapter == After(l.adapter, FedByOps(l, ops))
    decreases |ops|
  {
    if ops != [] {
      RingStepKeepsInv(l.ring, RingOpOf(ops[0]));
      FedByOpIsStep(l, ops[0]);
      OpsFeedPrefixes(LoopStep(l, ops[0]), ops[1..]);
      AfterAppend(l.adapter, FedByOp(l, ops[0]), FedByOps(LoopStep(l, ops[0]), ops[1..]));
    }
  }

  // ---------------------------------------------------------------- transfers that lose nothing

  /** Isochronous packets may be empty; these are the others. */
  function NonEmpty(packets: seq<Bytes>): seq<Bytes> {
    if packets == [] then []
    else (if packets[0] == [] then [] else [packets[0]]) + NonEmpty(packets[1..])
  }

  lemma {:induction false} NonEmptyAppend(a: seq<Bytes>, b: seq<Bytes>)
    ensures NonEmpty(a + b) == NonEmpty(a) + NonEmpty(b)
  {
    if a == [] {
      assert a + b == b;
    } else {
      assert (a + b)[0] == a[0] && (a + b)[1..] == a[1..] + b;
      NonEmptyAppend(a[1..], b);
      ConcatAssociative(if a[0] == [] then [] else [a[0]], NonEmpty(a[1..]), NonEmpty(b));
    }
  }

  lemma {:induction false} AllEmpty(packets: seq<Bytes>)
    requires forall i :: 0 <= i < |packets| ==> packets[i] == []
    ensures NonEmpty(packets) == []
  {
    if packets != [] {
      AllEmpty(packets[1..]);
    }
  }

  /** Behind the packet that ends a frame a transfer holds only empty packets. */
  predicate Tidy(packets: seq<Bytes>) {
    forall i, j :: 0 <= i < j < |packets| && EndsFrame(packets[i]) ==> packets[j] == []
  }

  /** The assembler takes these packets whole, and completes only MJPEG frames with them. */
  predicate Clean(a: Assembler, packets: seq<Bytes>) {
    Accepted(a, packets) == packets && AllMjpeg(Emitted(a, packets))
  }

  lemma AcceptedSplit(a: Assembler, x: seq<Bytes>, y: seq<Bytes>)
    requires Accepted(a, x + y) == x + y
    ensures Accepted(a, x) == x && Accepted(Final(a, x), y) == y
  {
    RunAppend(a, x, y);
    var p, q := Accepted(a, x), Accepted(Final(a, x), y);
    assert |p| == |x| && |q| == |y|;
    assert p == (p + q)[..|x|] && x == (x + y)[..|x|];
    assert q == (p + q)[|x|..] && y == (x + y)[|x|..];
  }

  lemma CleanSplit(a: Assembler, x: seq<Bytes>, y: seq<Bytes>)
    requires Clean(a, x + y)
    ensures Clean(a, x) && Clean(Final(a, x), y)
  {
    AcceptedSplit(a, x, y);
    RunAppend(a, x, y);
    AllMjpegSplit(Emitted(a, x), Emitted(Final(a, x), y), Accepts);
  }

  lemma CleanHead(a: Assembler, head: Bytes, rest: seq<Bytes>)
    requires Clean(a, [head] + rest)
    ensures var p := Assemble(a, head);
      p.result.Ok? && AllMjpeg(FrameOf(p)) && Clean(p.next, rest)
  {
    CleanSplit(a, [head], rest);
    RunCons(a, head, []);
    var p := Assemble(a, head);
    assert [head] + [] == [head] && FrameOf(p) + [] == FrameOf(p);
    assert Emitted(a, [head]) == FrameOf(p);
  }

  lemma PushesCons(a: Adapter, head: Bytes, rest: seq<Bytes>)
    ensures After(a, Pushes([head] + rest, Accepts)) ==
            After(AdaptPacket(a, head, Accepts).next, Pushes(rest, Accepts))
  {
    assert Pushes([head] + rest, Accepts)[0] == PushCall(head, Accepts);
    assert Pushes([head] + rest, Accepts)[1..] == Pushes(rest, Accepts);
  }

  lemma FeedHead(a: Adapter, packets: seq<Bytes>)
    requires packets != [] && packets[0] != [] && a.format.ExpectedLen() == None
    requires Assemble(a.assembler, packets[0]).result.Ok? && AllMjpeg(FrameOf(Assemble(a.assembler, packets[0])))
    ensures var s := AdaptPacket(a, packets[0], Accepts);
      && s.next.format == a.format && s.next.assembler == Assemble(a.assembler, packets[0]).next
      && (EndsFrame(packets[0]) ==> Feed(a, packets, Accepts).next == s.next)
      && (!EndsFrame(packets[0]) ==> Feed(a, packets, Accepts) == Feed(s.next, packets[1..], Accepts))
  {
    var p := Assemble(a.assembler, packets[0]);
    assert EndsFrame(packets[0]) ==> FrameOf(p) == [p.result.value.value] && IsMjpegFrame(FrameOf(p)[0]);
  }

  /** Feeding a tidy transfer of clean packets pushes every one of them. */
  lemma {:induction false} TidyTransferIsFed(a: Adapter, packets: seq<Bytes>)
    requires Tidy(packets) && Clean(a.assembler, NonEmpty(packets)) && a.format.ExpectedLen() == None
    ensures Feed(a, packets, Accepts).next == After(a, Pushes(NonEmpty(packets), Accepts))
    decreases |packets|
  {
    if packets != [] {
      var head, rest := packets[0], packets[1..];
      if head == [] {
        assert NonEmpty(packets) == NonEmpty(rest);
        TidyTransferIsFed(a, rest);
      } else {
        CleanHead(a.assembler, head, NonEmpty(rest));
        FeedHead(a, packets);
        PushesCons(a, head, NonEmpty(rest));
        if EndsFrame(head) {
          AllEmpty(rest);
        } else {
          TidyTransferIsFed(AdaptPacket(a, head, Accepts).next, rest);
        }
      }
    }
  }

  lemma {:induction false} PushesAssemble(a: Adapter, packets: seq<Bytes>)
    ensures After(a, Pushes(packets, Accepts)).assembler == Final(a.assembler, packets)
    ensures After(a, Pushes(packets, Accepts)).format == a.format
    decreases |packets|
  {
    if packets != [] {
      assert packets == [packets[0]] + packets[1..];
      PushesCons(a, packets[0], packets[1..]);
      PushesAssemble(AdaptPacket(a, packets[0], Accepts).next, packets[1..]);
    }
  }

  predicate AllAccept(ops: seq<LoopOp>) {
    forall i :: 0 <= i < |ops| && ops[i].FramePoll? ==> ops[i].reply == Accepts
  }

  predicate AllTidy(transfers: seq<seq<Bytes>>) {
    forall i :: 0 <= i < |transfers| ==> Tidy(transfers[i])
  }

  /** The non-empty packets of the transfers, in order. */
  function Carried(transfers: seq<seq<Bytes>>): seq<Bytes> { NonEmpty(Flatten(transfers)) }

  lemma CarriedAppend(a: seq<seq<Bytes>>, b: seq<seq<Bytes>>)
    ensures Carried(a + b) == Carried(a) + Carried(b)
  {
    FlattenAppend(a, b);
    NonEmptyAppend(Flatten(a), Flatten(b));
  }

  lemma StepFeedsCarried(l: FrameLoop, op: LoopOp)
    requires RingInv(l.ring) && l.adapter.format.ExpectedLen() == None && (op.FramePoll? ==> op.reply == Accepts)
    requires AllTidy(Delivery(l, op)) && Clean(l.adapter.assembler, Carried(Delivery(l, op)))
    ensures LoopStep(l, op).adapter == After(l.adapter, Pushes(Carried(Delivery(l, op)), Accepts))
  {
    if Delivery(l, op) != [] {
      var packets := Delivery(l, op)[0];
      assert Delivery(l, op) == [packets] && Flatten([packets]) == packets + Flatten([]);
      assert packets + [] == packets;
      TidyTransferIsFed(l.adapter, packets);
    }
  }

  /** With tidy transfers of clean packets and a willing sink, a run feeds the adapter everything delivered. */
  lemma {:induction false} OpsFeedCarried(l: FrameLoop, ops: seq<LoopOp>)
    requires RingInv(l.ring) && l.adapter.format.ExpectedLen() == None && AllAccept(ops)
    requires AllTidy(Deliveries(l, ops)) && Clean(l.adapter.assembler, Carried(Deliveries(l, ops)))
    ensures AfterOps(l, ops).adapter == After(l.adapter, Pushes(Carried(Deliveries(l, ops)), Accepts))
    decreases |ops|
  {
    if ops != [] {
      var op, next := ops[0], LoopStep(l, ops[0]);
      RingStepKeepsInv(l.ring, RingOpOf(op));
      var now, later := Delivery(l, op), Deliveries(next, ops[1..]);
      CarriedAppend(now, later);
      CleanSplit(l.adapter.assembler, Carried(now), Carried(later));
      TidySplit(now, later);
      StepFeedsCarried(l, op);
      PushesAssemble(l.adapter, Carried(now));
      OpsFeedCarried(next, ops[1..]);
      PushesAppend(l.adapter, Carried(now), Carried(later));
    }
  }

  lemma TidySplit(a: seq<seq<Bytes>>, b: seq<seq<Bytes>>)
    requires AllTidy(a + b)
    ensures AllTidy(a) && AllTidy(b)
  {
    assert forall i :: 0 <= i < |a| ==> (a + b)[i] == a[i];
    assert forall i :: 0 <= i < |b| ==> (a + b)[|a| + i] == b[i];
  }

  lemma PushesAppend(a: Adapter, x: seq<Bytes>, y: seq<Bytes>)
    ensures After(a, Pushes(x + y, Accepts)) == After(After(a, Pushes(x, Accepts)), Pushes(y, Accepts))
  {
    assert Pushes(x + y, Accepts) == Pushes(x, Accepts) + Pushes(y, Accepts);
    AfterAppend(a, Pushes(x, Accepts), Pushes(y, Accepts));
  }

  // ---------------------------------------------------------------- frames through the loop

  /** A frame loop as made by `new`, with an empty sink. */
  function NewLoop(layout: Layout, ringSize: nat, cameraId: CameraId, format: FrameFormat): FrameLoop {
    FrameLoop(NewRing(layout, ringSize), Adapter(FRESH, cameraId, format, 0, []))
  }

  predicate PrintableMjpeg(frames: seq<CutFrame>) {
    forall f <- frames :: f.Printable() && IsMjpegFrame(f.Data())
  }

  /** The sink holds exactly these frames, whole, in order and numbered from 0. */
  predicate Received(a: Adapter, cameraId: CameraId, format: FrameFormat, frames: seq<CutFrame>) {
    && |a.offers| == |frames|
    && forall i :: 0 <= i < |frames| ==>
         a.offers[i] == Offer(Frame(cameraId, i, FrameBuffer(format, frames[i].Data())), Accepts)
  }

  lemma PrintedIsClean(frames: seq<CutFrame>)
    requires PrintableMjpeg(frames)
    ensures forall f <- frames :: f.Printable()
    ensures Clean(FRESH, PrintFrames(frames))
  {
    PacketRoundTrip(FRESH, frames);
    assert AllMjpeg(AllData(frames));
  }

  /** Through the loop: if the transfers delivered carry printed MJPEG frames, with nothing but empty packets behind a
      frame's end in its transfer, then whatever polls fail or time out between them, and however the frames are cut
      over packets and transfers, all of them reach the sink. */
  lemma DeliveredFramesReachTheSink(layout: Layout, ringSize: nat, cameraId: CameraId, format: FrameFormat,
                                    ops: seq<LoopOp>, frames: seq<CutFrame>)
    requires RingInv(NewRing(layout, ringSize)) && format.Valid() && format.pixelFormat.Compressed()
    requires PrintableMjpeg(frames) && AllAccept(ops)
    requires var l := NewLoop(layout, ringSize, cameraId, format);
      AllTidy(Deliveries(l, ops)) && Carried(Deliveries(l, ops)) == PrintFrames(frames)
    ensures Received(AfterOps(NewLoop(layout, ringSize, cameraId, format), ops).adapter, cameraId, format, frames)
  {
    ExpectedLenExact(format);
    PrintedIsClean(frames);
    OpsFeedCarried(NewLoop(layout, ringSize, cameraId, format), ops);
    PrintedFramesReachTheSink(cameraId, format, frames);
  }

  // ---------------------------------------------------------------- a ring of one

  /** Every transfer delivered holds what the device wrote into the transfer of that number. */
  ghost predicate FromDevice(l: FrameLoop, ops: seq<LoopOp>, device: nat -> seq<Bytes>)
    requires RingInv(l.ring)
    decreases |ops|
  {
    if ops == [] then true
    else
      RingStepKeepsInv(l.ring, RingOpOf(ops[0]));
      StepFromDevice(l, ops[0], device) && FromDevice(LoopStep(l, ops[0]), ops[1..], device)
  }

  predicate StepFromDevice(l: FrameLoop, op: LoopOp, device: nat -> seq<Bytes>)
    requires RingInv(l.ring)
  {
    Delivery(l, op) != [] ==>
      var delivered := LoopStep(l, op).ring.delivered;
      delivered != [] && Delivery(l, op)[0] == device(delivered[|delivered| - 1])
  }

  /** The device's transfers from one number up to another. */
  function Transfers(device: nat -> seq<Bytes>, from: nat, to: nat): (r: seq<seq<Bytes>>)
    requires from <= to
    ensures |r| == to - from && forall i :: 0 <= i < |r| ==> r[i] == device(from + i)
  {
    seq(to - from, i requires 0 <= i < to - from => device(from + i))
  }

  lemma TransfersAppend(device: nat -> seq<Bytes>, from: nat, mid: nat, to: nat)
    requires from <= mid <= to
    ensures Transfers(device, from, mid) + Transfers(device, mid, to) == Transfers(device, from, to)
  {
  }

  /** A step of a ring of one delivers nothing, or the transfer that is next in number. */
  lemma SingleSlotDelivery(l: FrameLoop, op: LoopOp)
    requires RingInv(l.ring) && l.ring.ringSize == 1 && InOrder(l.ring)
    ensures var d, n := l.ring.delivered, LoopStep(l, op).ring;
      && RingInv(n) && n.ringSize == 1 && InOrder(n)
      && if Delivery(l, op) == [] then n.delivered == d else |n.delivered| == |d| + 1 && |Delivery(l, op)| == 1
  {
    RingStepKeepsInv(l.ring, RingOpOf(op));
    SingleSlotStep(l.ring, RingOpOf(op));
    if op.FramePoll? {
      PollKeepsInv(l.ring, op.env);
    }
  }

  lemma StepTransfers(l: FrameLoop, op: LoopOp, device: nat -> seq<Bytes>)
    requires RingInv(l.ring) && l.ring.ringSize == 1 && InOrder(l.ring) && StepFromDevice(l, op, device)
    ensures |l.ring.delivered| <= |LoopStep(l, op).ring.delivered|
    ensures Delivery(l, op) == Transfers(device, |l.ring.delivered|, |LoopStep(l, op).ring.delivered|)
  {
    SingleSlotDelivery(l, op);
    OneTransfer(device, |l.ring.delivered|);
    if Delivery(l, op) != [] {
      LastDelivered(LoopStep(l, op).ring);
      assert Delivery(l, op) == [Delivery(l, op)[0]];
    }
  }

  lemma OneTransfer(device: nat -> seq<Bytes>, n: nat)
    ensures Transfers(device, n, n) == [] && Transfers(device, n, n + 1) == [device(n)]
  {
  }

  lemma LastDelivered(r: Ring)
    requires InOrder(r) && r.delivered != []
    ensures r.delivered[|r.delivered| - 1] == |r.delivered| - 1
  {
    assert r.delivered == UpTo(|r.delivered|);
  }

  /** A ring of one delivers the device's transfers 0, 1, 2, ... in the device's order, over any run. */
  lemma {:induction false} SingleSlotDelivers(l: FrameLoop, ops: seq<LoopOp>, device: nat -> seq<Bytes>)
    requires RingInv(l.ring) && l.ring.ringSize == 1 && InOrder(l.ring) && FromDevice(l, ops, device)
    ensures |l.ring.delivered| <= |AfterOps(l, ops).ring.delivered|
    ensures Deliveries(l, ops) == Transfers(device, |l.ring.delivered|, |AfterOps(l, ops).ring.delivered|)
    decreases |ops|
  {
    if ops != [] {
      var next := LoopStep(l, ops[0]);
      SingleSlotDelivery(l, ops[0]);
      StepTransfers(l, ops[0], device);
      SingleSlotDelivers(next, ops[1..], device);
      TransfersAppend(device, |l.ring.delivered|, |next.ring.delivered|, |AfterOps(l, ops).ring.delivered|);
    }
  }

  /** From the device to the sink with a ring of one: if the transfers the device has filled so far carry printed MJPEG
      frames, tidily, all of them are in the sink, whole, in order and numbered from 0. */
  lemma DeviceFramesReachTheSink(layout: Layout, cameraId: CameraId, format: FrameFormat, ops: seq<LoopOp>,
                                 device: nat -> seq<Bytes>, frames: seq<CutFrame>)
    requires RingInv(NewRing(layout, 1)) && format.Valid() && format.pixelFormat.Compressed()
    requires PrintableMjpeg(frames) && AllAccept(ops)
    requires var l := NewLoop(layout, 1, cameraId, format);
      var transfers := Transfers(device, 0, |AfterOps(l, ops).ring.delivered|);
      FromDevice(l, ops, device) && AllTidy(transfers) && Carried(transfers) == PrintFrames(frames)
    ensures Received(AfterOps(NewLoop(layout, 1, cameraId, format), ops).adapter, cameraId, format, frames)
  {
    SingleSlotDelivers(NewLoop(layout, 1, cameraId, format), ops, device);
    DeliveredFramesReachTheSink(layout, 1, cameraId, format, ops, frames);
  }
}
