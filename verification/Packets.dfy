/** UVC payload packets: the payload header and frame reassembly (packet.rs). */
module Packets {
  import opened Basics

  // ---------------------------------------------------------------- payload header

  datatype PayloadHeader = PayloadHeader(headerLen: nat, frameId: bool, endOfFrame: bool, endOfHeader: nat) {
    predicate HasHeader() { endOfHeader != 3 }

    function DataStart(): nat { if HasHeader() then headerLen else 0 }
  }

  /** Bit 0 of the second byte is the frame id, bit 1 end of frame, bits 6 and 7 the end-of-header field
      (section 2.4.3.3 of the USB Device Class Definition for Video Devices 1.5). */
  function ParseHeader(packet: Bytes): (r: Result<PayloadHeader>)
    ensures r.Ok? ==> r.value.DataStart() <= |packet|
  {
    if |packet| < 2 then Err(InvalidArgument)
    else if packet[0] < 2 || packet[0] > |packet| then Err(InvalidArgument)
    else Ok(PayloadHeader(packet[0], packet[1] % 2 == 1, packet[1] / 2 % 2 == 1, packet[1] / 64))
  }

  /** The frame id a packet carries, if its header parses. */
  function PacketFrameId(packet: Bytes): Option<bool> {
    match ParseHeader(packet)
    case Ok(h) => Some(h.frameId)
    case Err(_) => None
  }

  predicate EndsFrame(packet: Bytes) {
    ParseHeader(packet).Ok? && ParseHeader(packet).value.endOfFrame
  }

  function Payload(packet: Bytes): Bytes {
    match ParseHeader(packet)
    case Ok(h) => packet[h.DataStart()..]
    case Err(_) => packet
  }

  /** What every packet is taken for: without a valid length byte it is raw payload with no frame id and no end of
      frame; with bits 6 and 7 both set its flags count but its data starts at byte 0; otherwise the data follows the
      header. */
  lemma PacketKinds(packet: Bytes)
    ensures PacketFrameId(packet) == None <==> (|packet| < 2 || packet[0] < 2 || packet[0] > |packet|)
    ensures PacketFrameId(packet) == None ==> Payload(packet) == packet && !EndsFrame(packet)
    ensures PacketFrameId(packet).Some? ==> Payload(packet) == if packet[1] >= 0xc0 then packet else packet[packet[0]..]
    ensures PacketFrameId(packet).Some? ==> PacketFrameId(packet).value == (packet[1] % 2 == 1)
    ensures PacketFrameId(packet).Some? ==> EndsFrame(packet) == (packet[1] / 2 % 2 == 1)
  {
  }

  // ---------------------------------------------------------------- packet assembler

  /** The two fields of `UvcPacketAssembler`. */
  datatype Assembler = Assembler(frameId: Option<bool>, buffer: Bytes)

  const FRESH := Assembler(None, [])

  /** The frame id changed while data was pending. */
  predicate Clashes(a: Assembler, packet: Bytes) {
    && a.frameId.Some?
    && PacketFrameId(packet).Some?
    && a.frameId != PacketFrameId(packet)
    && a.buffer != []
  }

  datatype Pushed = Pushed(next: Assembler, result: Result<Option<Bytes>>)

  /** One `push_packet`: the new state and the value returned. */
  function Assemble(a: Assembler, packet: Bytes): Pushed {
    if packet == [] then Pushed(a, Ok(None))
    else if Clashes(a, packet) then Pushed(a, Err(Backend))
    else
      var frameId := if a.buffer == [] then PacketFrameId(packet) else a.frameId;
      var buffer := a.buffer + Payload(packet);
      if EndsFrame(packet) then Pushed(FRESH, Ok(Some(buffer)))
      else Pushed(Assembler(frameId, buffer), Ok(None))
  }

  /** The length byte is valid, so the packet has a header. */
  predicate Headed(packet: Bytes) {
    |packet| >= 2 && 2 <= packet[0] <= |packet|
  }

  /** The packet has a header whose bit 0 contradicts the id stored for pending data. */
  predicate Contradicts(a: Assembler, packet: Bytes) {
    a.buffer != [] && a.frameId.Some? && Headed(packet) && (packet[1] % 2 == 1) != a.frameId.value
  }

  /** What is taken from an accepted packet. */
  function Taken(packet: Bytes): Bytes {
    if Headed(packet) && packet[1] < 0xc0 then packet[packet[0]..] else packet
  }

  /** A push, told from the bytes of the packet. It fails exactly where bit 0 of a valid header contradicts the id of
      pending data, and then changes nothing. Otherwise the packet's data is appended; bit 1 of a valid header completes
      the frame; the id stored with the first data is that of its header, if it has one. */
  lemma PushExactly(a: Assembler, packet: Bytes)
    ensures Assemble(a, packet).result.Err? <==> Contradicts(a, packet)
    ensures Contradicts(a, packet) ==> Assemble(a, packet) == Pushed(a, Err(Backend))
    ensures packet == [] ==> Assemble(a, packet) == Pushed(a, Ok(None))
    ensures packet != [] && !Contradicts(a, packet) ==>
      var next := a.buffer + Taken(packet);
      Assemble(a, packet) ==
      if Headed(packet) && packet[1] / 2 % 2 == 1 then Pushed(Assembler(None, []), Ok(Some(next)))
      else if a.buffer != [] then Pushed(Assembler(a.frameId, next), Ok(None))
      else Pushed(Assembler(if Headed(packet) then Some(packet[1] % 2 == 1) else None, next), Ok(None))
  {
    PacketKinds(packet);
  }

  /** A packet without a header is taken whole in every state, completes nothing and leaves the id of pending data. */
  lemma HeaderlessIsTaken(a: Assembler, packet: Bytes)
    requires packet != [] && (|packet| < 2 || packet[0] < 2 || packet[0] > |packet|)
    ensures var p := Assemble(a, packet);
      && p.result == Ok(None) && p.next.buffer == a.buffer + packet
      && (a.buffer != [] ==> p.next.frameId == a.frameId)
  {
    PushExactly(a, packet);
  }

  class UvcPacketAssembler {
    var frameId: Option<bool>
    var buffer: Bytes

    function State(): Assembler
      reads this
    {
      Assembler(frameId, buffer)
    }

    constructor ()
      ensures State() == FRESH
    {
      frameId := None;
      buffer := [];
    }

    method PushPacket(packet: Bytes) returns (r: Result<Option<Bytes>>)
      modifies this
      ensures Pushed(State(), r) == Assemble(old(State()), packet)
      ensures r.Err? <==> old(Contradicts(State(), packet))
    {
      PushExactly(State(), packet);
      if |packet| == 0 {
        return Ok(None);
      }

      var header := ParseHeader(packet);
      var nextId := if header.Ok? then Some(header.value.frameId) else None;
      var dataStart := if header.Ok? then header.value.DataStart() else 0;
      var endOfFrame := header.Ok? && header.value.endOfFrame;

      if frameId.Some? && nextId.Some? {
        if frameId != nextId && |buffer| > 0 {
          return Err(Backend);
        }
      }

      if |buffer| == 0 {
        frameId := nextId;
      }
      buffer := buffer + packet[dataStart..];

      if endOfFrame {
        var frame := buffer;
        buffer := [];
        frameId := None;
        r := Ok(Some(frame));
      } else {
        r := Ok(None);
      }
    }

    method Clear()
      modifies this
      ensures State() == FRESH
    {
      buffer := [];
      frameId := None;
    }
  }

  // ---------------------------------------------------------------- runs of the assembler

  /** The frame a push returned, if any. */
  function FrameOf(p: Pushed): seq<Bytes> {
    if p.result.Ok? && p.result.value.Some? then [p.result.value.value] else []
  }

  /** The state after pushing a list of packets. */
  function Final(a: Assembler, packets: seq<Bytes>): Assembler
    decreases |packets|
  {
    if packets == [] then a else Final(Assemble(a, packets[0]).next, packets[1..])
  }

  /** The frames returned along the way, in order. */
  function Emitted(a: Assembler, packets: seq<Bytes>): seq<Bytes>
    decreases |packets|
  {
    if packets == [] then []
    else
      var p := Assemble(a, packets[0]);
      FrameOf(p) + Emitted(p.next, packets[1..])
  }

  /** The packets whose push did not fail. */
  function Accepted(a: Assembler, packets: seq<Bytes>): (r: seq<Bytes>)
    ensures |r| <= |packets|
    decreases |packets|
  {
    if packets == [] then []
    else
      var p := Assemble(a, packets[0]);
      (if p.result.Ok? then [packets[0]] else []) + Accepted(p.next, packets[1..])
  }

  function Payloads(packets: seq<Bytes>): Bytes {
    if packets == [] then [] else Payload(packets[0]) + Payloads(packets[1..])
  }

  lemma PayloadsAppend(a: seq<Bytes>, b: seq<Bytes>)
    ensures Payloads(a + b) == Payloads(a) + Payloads(b)
  {
    if a == [] {
      assert a + b == b;
    } else {
      assert (a + b)[1..] == a[1..] + b;
      PayloadsAppend(a[1..], b);
    }
  }

  lemma RunCons(a: Assembler, packet: Bytes, rest: seq<Bytes>)
    ensures Final(a, [packet] + rest) == Final(Assemble(a, packet).next, rest)
    ensures Emitted(a, [packet] + rest) == FrameOf(Assemble(a, packet)) + Emitted(Assemble(a, packet).next, rest)
    ensures Accepted(a, [packet] + rest) ==
            (if Assemble(a, packet).result.Ok? then [packet] else []) + Accepted(Assemble(a, packet).next, rest)
  {
    assert ([packet] + rest)[0] == packet && ([packet] + rest)[1..] == rest;
  }

  lemma {:induction false} RunAppend(a: Assembler, ps: seq<Bytes>, qs: seq<Bytes>)
    ensures Final(a, ps + qs) == Final(Final(a, ps), qs)
    ensures Emitted(a, ps + qs) == Emitted(a, ps) + Emitted(Final(a, ps), qs)
    ensures Accepted(a, ps + qs) == Accepted(a, ps) + Accepted(Final(a, ps), qs)
    decreases |ps|
  {
    if ps == [] {
      assert ps + qs == qs;
    } else {
      assert ps == [ps[0]] + ps[1..];
      assert ps + qs == [ps[0]] + (ps[1..] + qs);
      RunCons(a, ps[0], ps[1..] + qs);
      var p := Assemble(a, ps[0]);
      RunAppend(p.next, ps[1..], qs);
      ConcatAssociative(FrameOf(p), Emitted(p.next, ps[1..]), Emitted(Final(a, ps), qs));
      ConcatAssociative(if p.result.Ok? then [ps[0]] else [], Accepted(p.next, ps[1..]), Accepted(Final(a, ps), qs));
    }
  }

  /** Conservation: no accepted payload byte is lost, duplicated or reordered. */
  lemma {:induction false} PayloadConservation(a: Assembler, packets: seq<Bytes>)
    ensures a.buffer + Payloads(Accepted(a, packets)) == Flatten(Emitted(a, packets)) + Final(a, packets).buffer
    decreases |packets|
  {
    if packets != [] {
      var p := Assemble(a, packets[0]);
      var taken := if p.result.Ok? then [packets[0]] else [];
      var rest := Accepted(p.next, packets[1..]);
      PayloadConservation(p.next, packets[1..]);
      PayloadsAppend(taken, rest);
      FlattenAppend(FrameOf(p), Emitted(p.next, packets[1..]));
      PushConserves(a, packets[0]);
      var out, later := Flatten(FrameOf(p)), Flatten(Emitted(p.next, packets[1..]));
      ConcatAssociative(a.buffer, Payloads(taken), Payloads(rest));
      ConcatAssociative(out, p.next.buffer, Payloads(rest));
      ConcatAssociative(out, later, Final(a, packets).buffer);
    }
  }

  lemma PushConserves(a: Assembler, packet: Bytes)
    ensures var p := Assemble(a, packet);
      a.buffer + Payloads(if p.result.Ok? then [packet] else []) == Flatten(FrameOf(p)) + p.next.buffer
  {
    assert Payloads([packet]) == Payload(packet);
    var p := Assemble(a, packet);
    if FrameOf(p) != [] {
      assert Flatten(FrameOf(p)) == FrameOf(p)[0];
    }
  }

  /** Rejected packets are stutters: dropping them changes neither the frames nor the final state, and
      what remains is accepted whole. */
  lemma {:induction false} RejectedPacketsStutter(a: Assembler, packets: seq<Bytes>)
    ensures Emitted(a, Accepted(a, packets)) == Emitted(a, packets)
    ensures Final(a, Accepted(a, packets)) == Final(a, packets)
    ensures Accepted(a, Accepted(a, packets)) == Accepted(a, packets)
    decreases |packets|
  {
    if packets != [] {
      var p := Assemble(a, packets[0]);
      RejectedPacketsStutter(p.next, packets[1..]);
      RunCons(a, packets[0], packets[1..]);
      assert packets == [packets[0]] + packets[1..];
      if p.result.Ok? {
        RunCons(a, packets[0], Accepted(p.next, packets[1..]));
      } else {
        assert [] + Accepted(a, packets[1..]) == Accepted(a, packets[1..]);
      }
    }
  }

  // ---------------------------------------------------------------- where a frame's bytes come from

  /** The accepted packets that hold the pending buffer, given those that held it before. */
  function Pending(a: Assembler, open: seq<Bytes>, packet: Bytes): seq<Bytes> {
    var p := Assemble(a, packet);
    if packet == [] || p.result.Err? then open
    else if p.next.buffer == [] then []
    else open + [packet]
  }

  function PendingAfter(a: Assembler, open: seq<Bytes>, packets: seq<Bytes>): seq<Bytes>
    decreases |packets|
  {
    if packets == [] then open
    else PendingAfter(Assemble(a, packets[0]).next, Pending(a, open, packets[0]), packets[1..])
  }

  /** For each emitted frame, the packets since its buffer became non-empty, the last one included. */
  function Sources(a: Assembler, open: seq<Bytes>, packets: seq<Bytes>): seq<seq<Bytes>>
    decreases |packets|
  {
    if packets == [] then []
    else
      var p := Assemble(a, packets[0]);
      (if p.result.Ok? && p.result.value.Some? then [open + [packets[0]]] else [])
      + Sources(p.next, Pending(a, open, packets[0]), packets[1..])
  }

  /** If the packet that opened the group had a header, every later header repeats its frame id. */
  predicate Uniform(group: seq<Bytes>) {
    group != [] && PacketFrameId(group[0]).Some? ==>
      forall q <- group :: PacketFrameId(q).Some? ==> PacketFrameId(q) == PacketFrameId(group[0])
  }

  predicate Coherent(a: Assembler, open: seq<Bytes>) {
    && (open == [] <==> a.buffer == [])
    && a.buffer == Payloads(open)
    && (open != [] ==> a.frameId == PacketFrameId(open[0]))
    && Uniform(open)
  }

  lemma PayloadsSnoc(open: seq<Bytes>, packet: Bytes)
    ensures Payloads(open + [packet]) == Payloads(open) + Payload(packet)
  {
    PayloadsAppend(open, [packet]);
    assert Payloads([packet]) == Payload(packet) + Payloads([]);
  }

  lemma UniformSnoc(open: seq<Bytes>, packet: Bytes)
    requires Uniform(open)
    requires open != [] && PacketFrameId(open[0]).Some? && PacketFrameId(packet).Some? ==>
      PacketFrameId(packet) == PacketFrameId(open[0])
    ensures Uniform(open + [packet])
  {
    var group := open + [packet];
    if open != [] {
      assert group[0] == open[0];
    }
    assert forall q :: q in group <==> q in open || q == packet;
  }

  /** An accepted packet joins the group it is appended to. */
  lemma PendingCoherent(a: Assembler, open: seq<Bytes>, packet: Bytes)
    requires Coherent(a, open)
    ensures Coherent(Assemble(a, packet).next, Pending(a, open, packet))
    ensures Assemble(a, packet).result.Ok? ==> Uniform(open + [packet])
    ensures Payloads(open + [packet]) == a.buffer + Payload(packet)
  {
    PayloadsSnoc(open, packet);
    if packet != [] && !Clashes(a, packet) {
      UniformSnoc(open, packet);
      JoinCoherent(a, open, packet);
    } else if packet == [] {
      UniformSnoc(open, packet);
    }
  }

  lemma JoinCoherent(a: Assembler, open: seq<Bytes>, packet: Bytes)
    requires Coherent(a, open) && packet != [] && !Clashes(a, packet) && Uniform(open + [packet])
    requires Payloads(open + [packet]) == a.buffer + Payload(packet)
    ensures Coherent(Assemble(a, packet).next, Pending(a, open, packet))
  {
    if open != [] {
      assert (open + [packet])[0] == open[0];
    }
  }

  /** Frame-id homogeneity over every run: while data is pending the stored id is the one of the packet that
      opened the buffer (absent exactly when that packet had no header), every later accepted header agrees
      with a present id, and so do the packets of each frame finally emitted. */
  lemma {:induction false} FrameIdHomogeneity(a: Assembler, open: seq<Bytes>, packets: seq<Bytes>)
    requires Coherent(a, open)
    ensures Coherent(Final(a, packets), PendingAfter(a, open, packets))
    ensures |Sources(a, open, packets)| == |Emitted(a, packets)|
    ensures forall i :: 0 <= i < |Emitted(a, packets)| ==>
      && Sources(a, open, packets)[i] != []
      && Uniform(Sources(a, open, packets)[i])
      && Emitted(a, packets)[i] == Payloads(Sources(a, open, packets)[i])
    decreases |packets|
  {
    if packets != [] {
      PendingCoherent(a, open, packets[0]);
      FrameIdHomogeneity(Assemble(a, packets[0]).next, Pending(a, open, packets[0]), packets[1..]);
    }
  }

  // ---------------------------------------------------------------- when the frame id is checked at all

  /** No packet at all can be refused. */
  ghost predicate TakesEverything(a: Assembler) {
    forall packet :: Assemble(a, packet).result.Ok?
  }

  /** A packet with a header carrying the given frame id. */
  function HeaderOnly(frameId: bool): Bytes { [2, BitOf(frameId)] }

  /** While data is pending, the frame-id check is off exactly when the packet that opened the buffer had no header
      that parses. */
  lemma CheckOffExactly(a: Assembler, open: seq<Bytes>)
    requires Coherent(a, open) && open != []
    ensures TakesEverything(a) <==> PacketFrameId(open[0]) == None
  {
    if a.frameId.Some? {
      var other := HeaderOnly(!a.frameId.value);
      assert PacketFrameId(other) == Some(!a.frameId.value);
      assert Assemble(a, other).result.Err?;
    }
  }

  lemma UncheckedPush(a: Assembler, packet: Bytes)
    requires a.buffer != [] && a.frameId == None && !EndsFrame(packet)
    ensures Assemble(a, packet) == Pushed(Assembler(None, a.buffer + Payload(packet)), Ok(None))
  {
    if packet == [] {
      assert a.buffer + Payload(packet) == a.buffer;
    }
  }

  /** With the check off, a run of packets that do not end the frame is taken whole, whatever ids they carry. */
  lemma {:induction false} UncheckedRun(a: Assembler, packets: seq<Bytes>)
    requires a.buffer != [] && a.frameId == None
    requires forall p <- packets :: !EndsFrame(p)
    ensures Accepted(a, packets) == packets
    ensures Emitted(a, packets) == []
    ensures Final(a, packets) == Assembler(None, a.buffer + Payloads(packets))
    decreases |packets|
  {
    if packets != [] {
      var packet, rest := packets[0], packets[1..];
      assert packets == [packet] + rest;
      UncheckedPush(a, packet);
      UncheckedRun(Assembler(None, a.buffer + Payload(packet)), rest);
      RunCons(a, packet, rest);
      assert Payloads(packets) == Payload(packet) + Payloads(rest);
      ConcatAssociative(a.buffer, Payload(packet), Payloads(rest));
    }
  }

  /** A buffer opened without a header turns the check off until the frame ends: every later packet up to the first that
      ends the frame is accepted, packets of both ids included, and the frame is all their payloads. */
  lemma HeaderlessOpeningMixesFrameIds(a: Assembler, open: seq<Bytes>, packets: seq<Bytes>, end: Bytes)
    requires Coherent(a, open) && open != [] && PacketFrameId(open[0]) == None
    requires (forall p <- packets :: !EndsFrame(p)) && EndsFrame(end)
    ensures Accepted(a, packets + [end]) == packets + [end]
    ensures Emitted(a, packets + [end]) == [Payloads(open + packets + [end])]
    ensures Final(a, packets + [end]) == FRESH
  {
    UncheckedRun(a, packets);
    var b := Final(a, packets);
    RunAppend(a, packets, [end]);
    RunCons(b, end, []);
    assert [end] + [] == [end];
    PayloadsAppend(open, packets);
    PayloadsSnoc(open + packets, end);
    assert Assemble(b, end) == Pushed(FRESH, Ok(Some(b.buffer + Payload(end))));
  }

  /** Such a run exists: a headerless packet, then one of each id. */
  lemma BothIdsInOneFrame() returns (opener: Bytes, first: Bytes, last: Bytes)
    ensures PacketFrameId(opener) == None
    ensures PacketFrameId(first) == Some(false) && PacketFrameId(last) == Some(true)
    ensures Emitted(FRESH, [opener] + ([first] + [last])) == [Payloads([opener] + [first] + [last])]
  {
    opener, first, last := [9], [2, 0, 10], [2, 3, 11];
    var a := Assembler(None, opener);
    assert Assemble(FRESH, opener) == Pushed(a, Ok(None));
    RunCons(FRESH, opener, [first] + [last]);
    OpenedBy(opener);
    HeaderlessOpeningMixesFrameIds(a, [opener], [first], last);
  }

  lemma OpenedBy(opener: Bytes)
    requires opener != [] && PacketFrameId(opener) == None
    ensures Coherent(Assembler(None, opener), [opener])
  {
    PayloadsSnoc([], opener);
    assert [] + [opener] == [opener];
  }

  // ---------------------------------------------------------------- round trip

  /** One packet of a frame: any filler after the two mandatory header bytes, any information bits 2 to 7
      except bits 6 and 7 both set, any data. */
  datatype Chunk = Chunk(infoRest: nat, filler: Bytes, data: Bytes) {
    predicate Printable() { infoRest < 48 && |filler| <= 253 }
  }

  function BitOf(b: bool): nat { if b then 1 else 0 }

  function PrintChunk(frameId: bool, endOfFrame: bool, c: Chunk): Bytes
    requires c.Printable()
  {
    [2 + |c.filler|, BitOf(frameId) + 2 * BitOf(endOfFrame) + 4 * c.infoRest] + c.filler + c.data
  }

  lemma PrintChunkParses(frameId: bool, endOfFrame: bool, c: Chunk)
    requires c.Printable()
    ensures PacketFrameId(PrintChunk(frameId, endOfFrame, c)) == Some(frameId)
    ensures EndsFrame(PrintChunk(frameId, endOfFrame, c)) == endOfFrame
    ensures Payload(PrintChunk(frameId, endOfFrame, c)) == c.data
  {
    var packet := PrintChunk(frameId, endOfFrame, c);
    assert packet[1] == BitOf(frameId) + 2 * BitOf(endOfFrame) + 4 * c.infoRest;
    assert packet[1] % 2 == BitOf(frameId) && packet[1] / 2 % 2 == BitOf(endOfFrame) && packet[1] / 64 < 3;
    assert packet[2 + |c.filler|..] == c.data;
  }

  /** A frame cut into one or more chunks. */
  datatype CutFrame = CutFrame(frameId: bool, chunks: seq<Chunk>) {
    predicate Printable() { chunks != [] && forall c <- chunks :: c.Printable() }

    function Data(): Bytes { ChunkData(chunks) }
  }

  function ChunkData(chunks: seq<Chunk>): Bytes {
    if chunks == [] then [] else chunks[0].data + ChunkData(chunks[1..])
  }

  /** Chunks without the end-of-frame bit. */
  function PrintOpen(frameId: bool, chunks: seq<Chunk>): seq<Bytes>
    requires forall c <- chunks :: c.Printable()
  {
    if chunks == [] then [] else [PrintChunk(frameId, false, chunks[0])] + PrintOpen(frameId, chunks[1..])
  }

  /** A whole frame: end of frame on its last chunk only. */
  function PrintFrame(f: CutFrame): seq<Bytes>
    requires f.Printable()
  {
    var last := |f.chunks| - 1;
    PrintOpen(f.frameId, f.chunks[..last]) + [PrintChunk(f.frameId, true, f.chunks[last])]
  }

  function PrintFrames(frames: seq<CutFrame>): seq<Bytes>
    requires forall f <- frames :: f.Printable()
  {
    if frames == [] then [] else PrintFrame(frames[0]) + PrintFrames(frames[1..])
  }

  lemma ChunkDataSnoc(chunks: seq<Chunk>, c: Chunk)
    ensures ChunkData(chunks + [c]) == ChunkData(chunks) + c.data
  {
    if chunks == [] {
      assert chunks + [c] == [c];
    } else {
      assert (chunks + [c])[1..] == chunks[1..] + [c];
      ChunkDataSnoc(chunks[1..], c);
    }
  }

  /** Pending data of another frame: nothing of this frame gets in. */
  predicate Wedged(a: Assembler, frameId: bool) {
    a.buffer != [] && a.frameId == Some(!frameId)
  }

  /** While data of another frame is pending, every packet of this frame id is refused, whatever it holds. */
  lemma {:induction false} WedgedRefusesAll(a: Assembler, frameId: bool, packets: seq<Bytes>)
    requires Wedged(a, frameId)
    requires forall p <- packets :: PacketFrameId(p) == Some(frameId)
    ensures Final(a, packets) == a && Emitted(a, packets) == [] && Accepted(a, packets) == []
  {
    if packets != [] {
      assert PacketFrameId(packets[0]) == Some(frameId);
      WedgedRefusesAll(a, frameId, packets[1..]);
    }
  }

  lemma AssembleChunk(a: Assembler, frameId: bool, endOfFrame: bool, c: Chunk)
    requires c.Printable()
    requires !Wedged(a, frameId)
    ensures Assemble(a, PrintChunk(frameId, endOfFrame, c)) ==
            if endOfFrame then Pushed(FRESH, Ok(Some(a.buffer + c.data)))
            else Pushed(Assembler(if a.buffer == [] then Some(frameId) else a.frameId, a.buffer + c.data), Ok(None))
  {
    PrintChunkParses(frameId, endOfFrame, c);
    assert |PrintChunk(frameId, endOfFrame, c)| >= 2;
    if a.frameId.Some? && a.frameId.value != frameId {
      assert a.frameId.value == !frameId;
    }
  }

  lemma {:induction false} OpenChunksAccumulate(a: Assembler, frameId: bool, chunks: seq<Chunk>)
    requires forall c <- chunks :: c.Printable()
    requires !Wedged(a, frameId)
    ensures var packets := PrintOpen(frameId, chunks);
      && Accepted(a, packets) == packets
      && Emitted(a, packets) == []
      && Final(a, packets).buffer == a.buffer + ChunkData(chunks)
      && !Wedged(Final(a, packets), frameId)
      && (a.buffer == [] && ChunkData(chunks) != [] ==> Final(a, packets).frameId == Some(frameId))
    decreases |chunks|
  {
    if chunks != [] {
      var packet := PrintChunk(frameId, false, chunks[0]);
      AssembleChunk(a, frameId, false, chunks[0]);
      var next := Assemble(a, packet).next;
      OpenChunksAccumulate(next, frameId, chunks[1..]);
      RunCons(a, packet, PrintOpen(frameId, chunks[1..]));
      ConcatAssociative(a.buffer, chunks[0].data, ChunkData(chunks[1..]));
      if next.buffer != [] && a.buffer == [] {
        OpenChunksKeepId(next, frameId, chunks[1..]);
      }
    }
  }

  lemma {:induction false} OpenChunksKeepId(a: Assembler, frameId: bool, chunks: seq<Chunk>)
    requires forall c <- chunks :: c.Printable()
    requires a.buffer != [] && a.frameId == Some(frameId)
    ensures Final(a, PrintOpen(frameId, chunks)).frameId == Some(frameId)
    decreases |chunks|
  {
    if chunks != [] {
      AssembleChunk(a, frameId, false, chunks[0]);
      OpenChunksKeepId(Assemble(a, PrintChunk(frameId, false, chunks[0])).next, frameId, chunks[1..]);
      assert PrintOpen(frameId, chunks)[1..] == PrintOpen(frameId, chunks[1..]);
    }
  }

  lemma {:induction false} PrintOpenIds(frameId: bool, chunks: seq<Chunk>)
    requires forall c <- chunks :: c.Printable()
    ensures forall p <- PrintOpen(frameId, chunks) :: PacketFrameId(p) == Some(frameId)
  {
    if chunks != [] {
      PrintChunkParses(frameId, false, chunks[0]);
      PrintOpenIds(frameId, chunks[1..]);
    }
  }

  // ---------------------------------------------------------------- packets without a header inside a frame

  /** A packet that can lie inside a frame of this id: it ends nothing and has that id or no header. */
  predicate Inside(frameId: bool, packet: Bytes) {
    !EndsFrame(packet) && (PacketFrameId(packet) == None || PacketFrameId(packet) == Some(frameId))
  }

  lemma InsidePush(a: Assembler, frameId: bool, packet: Bytes)
    requires !Wedged(a, frameId) && Inside(frameId, packet)
    ensures var p := Assemble(a, packet);
      p.result == Ok(None) && p.next.buffer == a.buffer + Payload(packet) && !Wedged(p.next, frameId)
  {
    NoClash(a, frameId, packet);
    if packet == [] {
      assert a.buffer + Payload(packet) == a.buffer;
    }
  }

  lemma NoClash(a: Assembler, frameId: bool, packet: Bytes)
    requires !Wedged(a, frameId) && (PacketFrameId(packet) == None || PacketFrameId(packet) == Some(frameId))
    ensures !Clashes(a, packet)
  {
    if a.frameId.Some? && a.frameId.value != frameId {
      assert a.frameId.value == !frameId;
    }
  }

  lemma {:induction false} InsideRun(a: Assembler, frameId: bool, packets: seq<Bytes>)
    requires !Wedged(a, frameId) && forall p <- packets :: Inside(frameId, p)
    ensures Accepted(a, packets) == packets && Emitted(a, packets) == []
    ensures Final(a, packets).buffer == a.buffer + Payloads(packets) && !Wedged(Final(a, packets), frameId)
    decreases |packets|
  {
    if packets != [] {
      var packet, rest := packets[0], packets[1..];
      assert packets == [packet] + rest && packet in packets;
      InsidePush(a, frameId, packet);
      InsideRun(Assemble(a, packet).next, frameId, rest);
      RunCons(a, packet, rest);
      assert Payloads(packets) == Payload(packet) + Payloads(rest);
      ConcatAssociative(a.buffer, Payload(packet), Payloads(rest));
    }
  }

  /** Packets without a header among those of a frame lose nothing: whatever packets of the frame's id or without header
      come before the one that ends it, all are accepted, and the frame holds all their data in order, a headerless
      packet's being the whole packet. */
  lemma HeaderlessInsideFrame(a: Assembler, frameId: bool, packets: seq<Bytes>, end: Bytes)
    requires !Wedged(a, frameId) && forall p <- packets :: Inside(frameId, p)
    requires EndsFrame(end) && PacketFrameId(end) == Some(frameId)
    ensures Accepted(a, packets + [end]) == packets + [end]
    ensures Emitted(a, packets + [end]) == [a.buffer + Payloads(packets) + Payload(end)]
    ensures Final(a, packets + [end]) == FRESH
    ensures forall p <- packets :: !Headed(p) ==> Payload(p) == p
  {
    InsideRun(a, frameId, packets);
    var b := Final(a, packets);
    RunAppend(a, packets, [end]);
    RunCons(b, end, []);
    assert [end] + [] == [end];
    NoClash(b, frameId, end);
    assert Assemble(b, end) == Pushed(FRESH, Ok(Some(b.buffer + Payload(end))));
  }

  /** All chunks but the last. */
  function OpenPart(f: CutFrame): seq<Bytes>
    requires f.Printable()
  {
    PrintOpen(f.frameId, f.chunks[..|f.chunks| - 1])
  }

  function LastPart(f: CutFrame): Bytes
    requires f.Printable()
  {
    PrintChunk(f.frameId, true, f.chunks[|f.chunks| - 1])
  }

  lemma DataSplit(f: CutFrame, before: Bytes)
    requires f.Printable()
    ensures var last := |f.chunks| - 1;
      before + ChunkData(f.chunks[..last]) + f.chunks[last].data == before + f.Data()
  {
    var last := |f.chunks| - 1;
    assert f.chunks == f.chunks[..last] + [f.chunks[last]];
    ChunkDataSnoc(f.chunks[..last], f.chunks[last]);
    ConcatAssociative(before, ChunkData(f.chunks[..last]), f.chunks[last].data);
  }

  /** The open part of a frame is taken in silence, and its last packet completes it. */
  lemma LastChunkCompletes(a: Assembler, f: CutFrame)
    requires f.Printable() && !Wedged(a, f.frameId)
    ensures Emitted(a, OpenPart(f)) == [] && Accepted(a, OpenPart(f)) == OpenPart(f)
    ensures Assemble(Final(a, OpenPart(f)), LastPart(f)) == Pushed(FRESH, Ok(Some(a.buffer + f.Data())))
  {
    var last := |f.chunks| - 1;
    OpenChunksAccumulate(a, f.frameId, f.chunks[..last]);
    DataSplit(f, a.buffer);
    AssembleChunk(Final(a, OpenPart(f)), f.frameId, true, f.chunks[last]);
  }

  /** What any state does with one whole frame: with nothing pending it comes out alone; pending data of the
      same or of no id is glued in front; pending data of the other id makes the whole frame disappear. */
  lemma NextFrame(a: Assembler, f: CutFrame)
    requires f.Printable()
    ensures Wedged(a, f.frameId) ==>
      Emitted(a, PrintFrame(f)) == [] && Final(a, PrintFrame(f)) == a && Accepted(a, PrintFrame(f)) == []
    ensures !Wedged(a, f.frameId) ==>
      && Emitted(a, PrintFrame(f)) == [a.buffer + f.Data()]
      && Final(a, PrintFrame(f)) == FRESH
      && Accepted(a, PrintFrame(f)) == PrintFrame(f)
  {
    if Wedged(a, f.frameId) {
      FrameIds(f);
      WedgedRefusesAll(a, f.frameId, PrintFrame(f));
    } else {
      var open, end := OpenPart(f), LastPart(f);
      LastChunkCompletes(a, f);
      RunAppend(a, open, [end]);
      RunCons(Final(a, open), end, []);
      assert [end] + [] == [end];
    }
  }

  lemma FrameIds(f: CutFrame)
    requires f.Printable()
    ensures forall p <- PrintFrame(f) :: PacketFrameId(p) == Some(f.frameId)
  {
    var last := |f.chunks| - 1;
    PrintOpenIds(f.frameId, f.chunks[..last]);
    PrintChunkParses(f.frameId, true, f.chunks[last]);
  }

  function AllData(frames: seq<CutFrame>): (r: seq<Bytes>)
    ensures |r| == |frames|
    ensures forall i :: 0 <= i < |frames| ==> r[i] == frames[i].Data()
  {
    if frames == [] then [] else [frames[0].Data()] + AllData(frames[1..])
  }

  /** Round trip: every list of frames, cut in every way, comes out unchanged and leaves nothing pending. */
  lemma {:induction false} PacketRoundTrip(a: Assembler, frames: seq<CutFrame>)
    requires a.buffer == []
    requires forall f <- frames :: f.Printable()
    ensures Emitted(a, PrintFrames(frames)) == AllData(frames)
    ensures Accepted(a, PrintFrames(frames)) == PrintFrames(frames)
    ensures Final(a, PrintFrames(frames)) == if frames == [] then a else FRESH
    decreases |frames|
  {
    if frames != [] {
      NextFrame(a, frames[0]);
      assert a.buffer + frames[0].Data() == frames[0].Data();
      PacketRoundTrip(FRESH, frames[1..]);
      RunAppend(a, PrintFrame(frames[0]), PrintFrames(frames[1..]));
    }
  }

  lemma RefusedThenGlued(a: Assembler, next: CutFrame, after: CutFrame)
    requires next.Printable() && after.Printable() && after.frameId == !next.frameId && Wedged(a, next.frameId)
    ensures Emitted(a, PrintFrame(next) + PrintFrame(after)) == [a.buffer + after.Data()]
  {
    NextFrame(a, next);
    NextFrame(a, after);
    RunAppend(a, PrintFrame(next), PrintFrame(after));
  }

  lemma BothEmitted(a: Assembler, next: CutFrame, after: CutFrame)
    requires next.Printable() && after.Printable() && !Wedged(a, next.frameId)
    ensures Emitted(a, PrintFrame(next) + PrintFrame(after)) == [a.buffer + next.Data(), after.Data()]
  {
    NextFrame(a, next);
    NextFrame(FRESH, after);
    RunAppend(a, PrintFrame(next), PrintFrame(after));
    assert FRESH.buffer + after.Data() == after.Data();
  }

  /** Two whole frames of different ids: if the first is refused, the second is glued to what is pending. */
  lemma NextTwoFrames(a: Assembler, next: CutFrame, after: CutFrame)
    requires next.Printable() && after.Printable() && after.frameId == !next.frameId
    ensures Emitted(a, PrintFrame(next) + PrintFrame(after)) ==
            if Wedged(a, next.frameId) then [a.buffer + after.Data()] else [a.buffer + next.Data(), after.Data()]
  {
    if Wedged(a, next.frameId) {
      RefusedThenGlued(a, next, after);
    } else {
      BothEmitted(a, next, after);
    }
  }

  /** Losing the end-of-frame packet of a frame: if any data of it had arrived, the next frame (other id) is
      dropped whole and the one after (same id again) is glued to the truncated one; if none had arrived, the
      stream is unharmed. */
  lemma LostEndOfFrame(a: Assembler, lostId: bool, arrived: seq<Chunk>, next: CutFrame, after: CutFrame)
    requires a.buffer == []
    requires forall c <- arrived :: c.Printable()
    requires next.Printable() && after.Printable() && next.frameId == !lostId && after.frameId == lostId
    ensures Emitted(a, PrintOpen(lostId, arrived) + (PrintFrame(next) + PrintFrame(after))) ==
            if ChunkData(arrived) == [] then [next.Data(), after.Data()] else [ChunkData(arrived) + after.Data()]
  {
    var open := PrintOpen(lostId, arrived);
    OpenChunksAccumulate(a, lostId, arrived);
    assert a.buffer + ChunkData(arrived) == ChunkData(arrived);
    var b := Final(a, open);
    RunAppend(a, open, PrintFrame(next) + PrintFrame(after));
    NextTwoFrames(b, next, after);
    assert ChunkData(arrived) == [] ==> b.buffer + next.Data() == next.Data();
    assert Wedged(b, next.frameId) <==> ChunkData(arrived) != [];
  }
}
