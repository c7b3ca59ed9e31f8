/** The transfer ring feeding the MJPEG adapter (iso.rs), and the packet path from printed frames to the sink. */
module IsoFrames {
  import opened Basics
  import opened Formats
  import opened Frames
  import opened Packets
  import opened MjpegAdapter
  import opened IsoRing

  /** Packets pushed one after another, with the answer waiting for the frame that may be offered. */
  function Pushes(packets: seq<Bytes>, reply: SinkReply): (r: seq<Call>)
    ensures |r| == |packets| && forall i :: 0 <= i < |r| ==> r[i] == PushCall(packets[i], reply)
  {
    seq(|packets|, i requires 0 <= i < |packets| => PushCall(packets[i], reply))
  }

  // ---------------------------------------------------------------- one completed transfer

  /** The packet loop of `poll_frame`: stops at the first push that returns true or fails. */
  function Feed(a: Adapter, packets: seq<Bytes>, reply: SinkReply): Adapted
    decreases |packets|
  {
    if packets == [] then Adapted(a, Returned(false))
    else
      var s := AdaptPacket(a, packets[0], reply);
      if s.outcome == Returned(false) then Feed(s.next, packets[1..], reply) else s
  }

  /** How many packets the loop feeds. */
  function Fed(a: Adapter, packets: seq<Bytes>, reply: SinkReply): (n: nat)
    ensures n <= |packets|
    decreases |packets|
  {
    if packets == [] then 0
    else
      var s := AdaptPacket(a, packets[0], reply);
      if s.outcome == Returned(false) then 1 + Fed(s.next, packets[1..], reply) else 1
  }

  /** One poll feeds the adapter exactly a prefix of the transfer: every packet before the last fed one neither
      completes a frame nor fails, and unless that last one does, the whole transfer is fed. What follows the prefix
      never reaches the adapter. */
  lemma {:induction false} FeedIsPrefix(a: Adapter, packets: seq<Bytes>, reply: SinkReply)
    ensures var n := Fed(a, packets, reply);
      var outcomes := Outcomes(a, Pushes(packets[..n], reply));
      && Feed(a, packets, reply).next == After(a, Pushes(packets[..n], reply))
      && (forall i :: 0 <= i < n - 1 ==> outcomes[i] == Returned(false))
      && Feed(a, packets, reply).outcome == (if n == 0 then Returned(false) else outcomes[n - 1])
      && (n < |packets| ==> Feed(a, packets, reply).outcome != Returned(false))
    decreases |packets|
  {
    if packets != [] {
      var s := AdaptPacket(a, packets[0], reply);
      var n := Fed(a, packets, reply);
      var calls := Pushes(packets[..n], reply);
      assert calls[0] == PushCall(packets[0], reply);
      if s.outcome == Returned(false) {
        FeedIsPrefix(s.next, packets[1..], reply);
        assert calls[1..] == Pushes(packets[1..][..n - 1], reply);
      } else {
        assert calls[1..] == [];
      }
    }
  }

  /** The poll returns true exactly when the sink accepted a frame during it, and then exactly one. */
  lemma {:induction false} TrueMeansOneFrame(a: Adapter, packets: seq<Bytes>, reply: SinkReply)
    ensures |Kept(Feed(a, packets, reply).next.offers)| ==
            |Kept(a.offers)| + if Feed(a, packets, reply).outcome == Returned(true) then 1 else 0
    decreases |packets|
  {
    if packets != [] {
      StepKeeps(a, PushCall(packets[0], reply));
      var s := AdaptPacket(a, packets[0], reply);
      if s.outcome == Returned(false) {
        TrueMeansOneFrame(s.next, packets[1..], reply);
      }
    }
  }

  /** Packets that complete no frame are fed and forgotten; the loop goes on behind them. */
  lemma {:induction false} FeedSkips(a: Adapter, quiet: seq<Bytes>, rest: seq<Bytes>, reply: SinkReply)
    requires Quiet(a.assembler, quiet)
    ensures var b := a.(assembler := Final(a.assembler, quiet));
      && Feed(a, quiet + rest, reply) == Feed(b, rest, reply)
      && Fed(a, quiet + rest, reply) == |quiet| + Fed(b, rest, reply)
    decreases |quiet|
  {
    if quiet == [] {
      assert quiet + rest == rest;
    } else {
      var head, tail := quiet[0], quiet[1..];
      assert quiet == [head] + tail;
      QuietCons(a.assembler, head, tail);
      RunCons(a.assembler, head, tail);
      var next := a.(assembler := Assemble(a.assembler, head).next);
      FeedSkips(next, tail, rest, reply);
      FeedSkipsOne(a, head, tail + rest, reply);
      ConcatAssociative([head], tail, rest);
    }
  }

  lemma FeedSkipsOne(a: Adapter, head: Bytes, rest: seq<Bytes>, reply: SinkReply)
    requires Assemble(a.assembler, head).result.Ok? && FrameOf(Assemble(a.assembler, head)) == []
    ensures var b := a.(assembler := Assemble(a.assembler, head).next);
      && Feed(a, [head] + rest, reply) == Feed(b, rest, reply)
      && Fed(a, [head] + rest, reply) == 1 + Fed(b, rest, reply)
  {
    assert ([head] + rest)[0] == head && ([head] + rest)[1..] == rest;
  }

  lemma QuietHead(ok: bool, head: Bytes, tail: seq<Bytes>, whole: seq<Bytes>)
    requires whole == (if ok then [head] else []) + tail && |tail| < |whole|
    ensures ok && tail == whole[1..]
  {
  }

  /** Packets the assembler takes without completing a frame. */
  predicate Quiet(a: Assembler, packets: seq<Bytes>) {
    Accepted(a, packets) == packets && Emitted(a, packets) == []
  }

  lemma QuietCons(a: Assembler, packet: Bytes, rest: seq<Bytes>)
    ensures var p := Assemble(a, packet);
      Quiet(a, [packet] + rest) <==> p.result.Ok? && FrameOf(p) == [] && Quiet(p.next, rest)
  {
    var p := Assemble(a, packet);
    RunCons(a, packet, rest);
    if Accepted(a, [packet] + rest) == [packet] + rest {
      QuietHead(p.result.Ok?, packet, Accepted(p.next, rest), [packet] + rest);
      assert ([packet] + rest)[1..] == rest;
    }
  }

  lemma InitCons(packets: seq<Bytes>)
    requires |packets| > 1
    ensures packets[..|packets| - 1] == [packets[0]] + packets[1..][..|packets[1..]| - 1]
  {
  }

  /** A transfer is fed whole exactly when every packet before its last one is accepted and completes no frame. */
  lemma {:induction false} FedWholeExactly(a: Adapter, packets: seq<Bytes>, reply: SinkReply)
    requires packets != []
    ensures Fed(a, packets, reply) == |packets| <==> Quiet(a.assembler, packets[..|packets| - 1])
    decreases |packets|
  {
    if |packets| > 1 {
      var s, p := AdaptPacket(a, packets[0], reply), Assemble(a.assembler, packets[0]);
      InitCons(packets);
      QuietCons(a.assembler, packets[0], packets[1..][..|packets[1..]| - 1]);
      assert s.outcome == Returned(false) <==> p.result.Ok? && FrameOf(p) == [];
      if s.outcome == Returned(false) {
        FedWholeExactly(s.next, packets[1..], reply);
      }
    }
  }

  /** Frames that share a transfer: when the first one completes, everything behind it in the transfer is dropped,
      even a whole second frame. */
  lemma SecondFrameInTransferIsLost(a: Adapter, first: CutFrame, behind: seq<Bytes>, packets: seq<Bytes>)
    requires first.Printable() && IsMjpegFrame(a.assembler.buffer + first.Data())
    requires !Wedged(a.assembler, first.frameId) && a.format.ExpectedLen() == None
    requires packets == PrintFrame(first) + behind
    ensures Fed(a, packets, Accepts) == |PrintFrame(first)|
    ensures var fed := Feed(a, packets, Accepts);
      && fed.outcome == Returned(true) && fed.next.assembler == FRESH
      && fed.next.offers == a.offers + [Offer(Frame(a.cameraId, a.sequence,
           FrameBuffer(a.format, a.assembler.buffer + first.Data())), Accepts)]
  {
    ConcatAssociative(OpenPart(first), [LastPart(first)], behind);
    LastChunkCompletes(a.assembler, first);
    FeedEndsAt(a, OpenPart(first), LastPart(first), behind, a.assembler.buffer + first.Data());
  }

  lemma FeedEndsAt(a: Adapter, quiet: seq<Bytes>, end: Bytes, behind: seq<Bytes>, data: Bytes)
    requires Quiet(a.assembler, quiet)
    requires Assemble(Final(a.assembler, quiet), end) == Pushed(FRESH, Ok(Some(data)))
    requires IsMjpegFrame(data) && a.format.ExpectedLen() == None
    ensures Fed(a, quiet + ([end] + behind), Accepts) == |quiet| + 1
    ensures var fed := Feed(a, quiet + ([end] + behind), Accepts);
      && fed.outcome == Returned(true) && fed.next.assembler == FRESH
      && fed.next.offers == a.offers + [Offer(Frame(a.cameraId, a.sequence, FrameBuffer(a.format, data)), Accepts)]
  {
    FeedSkips(a, quiet, [end] + behind, Accepts);
    FeedStops(a.(assembler := Final(a.assembler, quiet)), end, behind, data);
  }

  lemma FeedStops(a: Adapter, end: Bytes, behind: seq<Bytes>, data: Bytes)
    requires Assemble(a.assembler, end) == Pushed(FRESH, Ok(Some(data)))
    requires IsMjpegFrame(data) && a.format.ExpectedLen() == None
    ensures Fed(a, [end] + behind, Accepts) == 1
    ensures var fed := Feed(a, [end] + behind, Accepts);
      && fed.outcome == Returned(true) && fed.next.assembler == FRESH
      && fed.next.offers == a.offers + [Offer(Frame(a.cameraId, a.sequence, FrameBuffer(a.format, data)), Accepts)]
  {
    assert ([end] + behind)[0] == end;
  }

  // ---------------------------------------------------------------- the frame loop

  datatype FrameLoop = FrameLoop(ring: Ring, adapter: Adapter)

  datatype FramePolled = FramePolled(next: FrameLoop, outcome: Outcome<bool>)

  /** `poll_frame`. */
  function PollFrameOutcome(l: FrameLoop, env: PollEnv, reply: SinkReply): FramePolled
    requires RingInv(l.ring)
  {
    var polled := Poll(l.ring, env);
    match polled.outcome
    case Failed(e) => FramePolled(FrameLoop(polled.next, l.adapter), Failed(e))
    case Panicked => FramePolled(FrameLoop(polled.next, l.adapter), Panicked)
    case Returned(completed) =>
      var fed := Feed(l.adapter, completed.packets, reply);
      FramePolled(FrameLoop(polled.next, fed.next), fed.outcome)
  }

  class MjpegIsoFrameLoop {
    const isoLoop: IsochronousLoop
    const adapter: MjpegFrameSinkAdapter

    ghost function View(): FrameLoop
      reads isoLoop, adapter, adapter.assembler.inner, adapter.sink
    {
      FrameLoop(isoLoop.View(), adapter.State())
    }

    constructor (isoLoop: IsochronousLoop, adapter: MjpegFrameSinkAdapter)
      ensures this.isoLoop == isoLoop && this.adapter == adapter
    {
      this.isoLoop := isoLoop;
      this.adapter := adapter;
    }

    method PollFrame(env: PollEnv, reply: SinkReply) returns (r: Outcome<bool>)
      requires isoLoop.Valid()
      modifies isoLoop, adapter, adapter.assembler.inner, adapter.sink
      ensures isoLoop.Valid()
      ensures FramePolled(View(), r) == PollFrameOutcome(old(View()), env, reply)
    {
      var polled := isoLoop.PollIso(env);
      match polled
      case Failed(e) => return Failed(e);
      case Panicked => return Panicked;
      case Returned(completed) =>
        var packets := completed.packets;
        for i := 0 to |packets|
          invariant isoLoop.Valid() && isoLoop.View() == Poll(old(isoLoop.View()), env).next
          invariant Feed(old(adapter.State()), packets, reply) == Feed(adapter.State(), packets[i..], reply)
        {
          assert packets[i..][0] == packets[i] && packets[i..][1..] == packets[i + 1..];
          var pushed := adapter.PushPacket(packets[i], reply);
          if pushed != Returned(false) {
            return pushed;
          }
        }
        r := Returned(false);
    }
  }

  /** Every poll: it reports a frame exactly when the sink kept one more, and if the ring delivers nothing the adapter
      and the sink are untouched. */
  lemma PollFrameCounts(l: FrameLoop, env: PollEnv, reply: SinkReply)
    requires RingInv(l.ring)
    ensures var p := PollFrameOutcome(l, env, reply);
      && RingInv(p.next.ring)
      && (!Poll(l.ring, env).outcome.Returned? ==>
           p.next.adapter == l.adapter && !p.outcome.Returned? && p.next.ring.delivered == l.ring.delivered)
      && (Poll(l.ring, env).outcome.Failed? ==> p.outcome == Failed(Poll(l.ring, env).outcome.error))
      && (Poll(l.ring, env).outcome.Panicked? ==> p.outcome == Panicked)
      && |Kept(p.next.adapter.offers)| == |Kept(l.adapter.offers)| + if p.outcome == Returned(true) then 1 else 0
  {
    PollKeepsInv(l.ring, env);
    var polled := Poll(l.ring, env);
    if polled.outcome.Returned? {
      TrueMeansOneFrame(l.adapter, polled.outcome.value.packets, reply);
    }
  }

  /** Packet k of the transfer is what the device wrote into its own window of the buffer, and no window reaches into
      the next. */
  predicate WindowsOf(layout: Layout, c: Completion, packets: seq<Bytes>)
    requires c.Fits(layout) && |packets| == layout.packetCount
  {
    forall k :: 0 <= k < |packets| ==>
      IsSlice(layout, c, k, packets[k]) && InWindow(layout, c, k)
  }

  /** Transfer to sink: when the ring delivers, the adapter is fed a prefix of the packets of the one transfer
      delivered, the lowest completed slot's; if libusb kept to the requested lengths those packets are disjoint slices
      of that transfer's buffer, whose lengths sum to the reported total, at most the layout's. */
  lemma TransferToSink(l: FrameLoop, env: PollEnv, reply: SinkReply) returns (slot: nat, delivered: Transfer)
    requires RingInv(l.ring) && l.ring.layout.Valid() && Poll(l.ring, env).outcome.Returned?
    ensures DeliveredBy(l.ring, env, slot, delivered)
    ensures delivered.completion.Some? && delivered.completion.value.Fits(l.ring.layout)
    ensures var completed := Poll(l.ring, env).outcome.value;
      var p, n := PollFrameOutcome(l, env, reply).next, Fed(l.adapter, completed.packets, reply);
      && p.ring.delivered == l.ring.delivered + [delivered.id]
      && p.adapter == After(l.adapter, Pushes(completed.packets[..n], reply))
      && PollFrameOutcome(l, env, reply).outcome ==
         (if n == 0 then Returned(false) else Outcomes(l.adapter, Pushes(completed.packets[..n], reply))[n - 1])
      && |completed.packets| == l.ring.layout.packetCount
      && completed.totalLen == TotalLen(completed.packets)
      && (WithinRequest(l.ring.layout, delivered.completion.value) ==>
           && completed.totalLen <= l.ring.layout.totalLen
           && WindowsOf(l.ring.layout, delivered.completion.value, completed.packets))
  {
    slot, delivered := PollDeliversSlot(l.ring, env);
    var packets, c := Poll(l.ring, env).outcome.value.packets, delivered.completion.value;
    FeedIsPrefix(l.adapter, packets, reply);
    CollectReturnsSlices(l.ring.layout, c, 0, []);
    if WithinRequest(l.ring.layout, c) {
      CompletionGivesDisjointSlices(l.ring.layout, c);
    }
  }

  // ---------------------------------------------------------------- printed frames to the sink

  predicate AllMjpeg(frames: seq<Bytes>) {
    forall i :: 0 <= i < |frames| ==> IsMjpegFrame(frames[i])
  }

  function Completions(frames: seq<Bytes>, reply: SinkReply): (r: seq<Completed>)
    ensures |r| == |frames| && forall i :: 0 <= i < |r| ==> r[i] == Completed(frames[i], reply)
  {
    seq(|frames|, i requires 0 <= i < |frames| => Completed(frames[i], reply))
  }

  lemma AllMjpegSplit(a: seq<Bytes>, b: seq<Bytes>, reply: SinkReply)
    requires AllMjpeg(a + b)
    ensures AllMjpeg(a) && AllMjpeg(b)
    ensures Completions(a + b, reply) == Completions(a, reply) + Completions(b, reply)
  {
    assert forall i :: 0 <= i < |a| ==> a[i] == (a + b)[i];
    assert forall i :: 0 <= i < |b| ==> b[i] == (a + b)[|a| + i];
  }

  /** If all frames a packet list emits are MJPEG frames, all of them count as completions. */
  lemma {:induction false} PushesComplete(a: Assembler, packets: seq<Bytes>, reply: SinkReply)
    requires AllMjpeg(Emitted(a, packets))
    ensures ValidCompletions(a, Pushes(packets, reply)) == Completions(Emitted(a, packets), reply)
    decreases |packets|
  {
    if packets != [] {
      var p := Assemble(a, packets[0]);
      var rest := Emitted(p.next, packets[1..]);
      assert Pushes(packets, reply)[1..] == Pushes(packets[1..], reply);
      AllMjpegSplit(FrameOf(p), rest, reply);
      PushesComplete(p.next, packets[1..], reply);
      HeadCompletion(p, reply);
    }
  }

  lemma HeadCompletion(p: Pushed, reply: SinkReply)
    requires AllMjpeg(FrameOf(p))
    ensures (if FrameOf(p) != [] && IsMjpegFrame(FrameOf(p)[0]) then [Completed(FrameOf(p)[0], reply)] else []) ==
            Completions(FrameOf(p), reply)
  {
  }

  /** End to end: any list of MJPEG frames, cut into payload packets in any way and pushed through a new adapter of
      a compressed format into a willing sink, arrives whole, in order and numbered 0, 1, 2, ... */
  lemma PrintedFramesReachTheSink(cameraId: CameraId, format: FrameFormat, frames: seq<CutFrame>)
    requires format.Valid() && format.pixelFormat.Compressed()
    requires forall f <- frames :: f.Printable() && IsMjpegFrame(f.Data())
    ensures var offers := After(Adapter(FRESH, cameraId, format, 0, []), Pushes(PrintFrames(frames), Accepts)).offers;
      && |offers| == |frames|
      && forall i :: 0 <= i < |frames| ==>
           offers[i] == Offer(Frame(cameraId, i, FrameBuffer(format, frames[i].Data())), Accepts)
  {
    var packets := PrintFrames(frames);
    PacketRoundTrip(FRESH, frames);
    assert AllMjpeg(AllData(frames));
    PushesComplete(FRESH, packets, Accepts);
    ExpectedLenExact(format);
    AdapterFromNew(cameraId, format, Pushes(packets, Accepts));
  }
}
