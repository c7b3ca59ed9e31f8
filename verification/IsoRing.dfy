/** The ring of isochronous transfers (iso.rs). libusb is the environment: it answers submissions, completes
    transfers in any order and reports errors. */
module IsoRing {
  import opened Basics

  // ---------------------------------------------------------------- packet layout

  datatype Layout = Layout(packetLen: nat, packetCount: nat, totalLen: nat) {
    predicate Valid() { packetLen > 0 && packetCount > 0 && totalLen == packetLen * packetCount }
  }

  const USIZE_LIMIT := 0x1_0000_0000_0000_0000

  /** `IsoPacketLayout::new`, on a 64-bit machine. */
  function NewLayout(packetLen: U32, packetCount: nat): (r: Result<Layout>)
    ensures r.Ok? <==> packetLen > 0 && packetCount > 0 && packetLen * packetCount < USIZE_LIMIT
    ensures r.Ok? ==> r.value.Valid() && r.value.packetLen == packetLen && r.value.packetCount == packetCount
    ensures r.Err? ==> r.error == InvalidArgument
  {
    if packetLen == 0 then Err(InvalidArgument)
    else if packetCount == 0 then Err(InvalidArgument)
    else if packetLen * packetCount >= USIZE_LIMIT then Err(InvalidArgument)
    else Ok(Layout(packetLen, packetCount, packetLen * packetCount))
  }

  // ---------------------------------------------------------------- one completed transfer

  /** What the completion callback stored: per packet an actual length and a status, and the filled buffer. */
  datatype Completion = Completion(actualLens: seq<nat>, statuses: seq<int>, buffer: Bytes) {
    predicate Fits(layout: Layout) {
      |actualLens| == |statuses| == layout.packetCount && |buffer| == layout.totalLen
    }
  }

  datatype Collected = Collected(packets: seq<Bytes>, totalLen: nat)

  function TotalLen(packets: seq<Bytes>): nat {
    if packets == [] then 0 else |packets[0]| + TotalLen(packets[1..])
  }

  lemma TotalLenSnoc(packets: seq<Bytes>, p: Bytes)
    ensures TotalLen(packets + [p]) == TotalLen(packets) + |p|
  {
    if packets == [] {
      assert packets + [p] == [p];
    } else {
      assert (packets + [p])[1..] == packets[1..] + [p];
      TotalLenSnoc(packets[1..], p);
    }
  }

  predicate StatusOk(c: Completion, i: nat)
    requires i < |c.statuses|
  {
    c.statuses[i] == 0
  }

  /** The slice of packet i ends inside the buffer. */
  predicate InBuffer(layout: Layout, c: Completion, i: nat)
    requires i < |c.actualLens|
  {
    i * layout.packetLen + c.actualLens[i] <= |c.buffer|
  }

  /** Packet i of the transfer is `packet`: the bytes the device sent for it, at its own offset. */
  predicate IsSlice(layout: Layout, c: Completion, i: nat, packet: Bytes)
    requires i < |c.actualLens|
  {
    && InBuffer(layout, c, i)
    && packet == c.buffer[i * layout.packetLen..i * layout.packetLen + c.actualLens[i]]
  }

  /** `to_completed_iso_transfer` from packet i on: a bad status fails, a slice past the buffer panics. */
  function Collect(layout: Layout, c: Completion, i: nat, packets: seq<Bytes>): Outcome<Collected>
    requires c.Fits(layout) && i <= layout.packetCount
    decreases layout.packetCount - i
  {
    if i == layout.packetCount then Returned(Collected(packets, TotalLen(packets)))
    else if !StatusOk(c, i) then Failed(Backend)
    else if !InBuffer(layout, c, i) then Panicked
    else
      var offset := i * layout.packetLen;
      Collect(layout, c, i + 1, packets + [c.buffer[offset..offset + c.actualLens[i]]])
  }

  method ToCompleted(layout: Layout, c: Completion) returns (r: Outcome<Collected>)
    requires c.Fits(layout)
    ensures r == Collect(layout, c, 0, [])
  {
    var packets: seq<Bytes> := [];
    for i := 0 to layout.packetCount
      invariant Collect(layout, c, 0, []) == Collect(layout, c, i, packets)
    {
      if c.statuses[i] != 0 {
        return Failed(Backend);
      }
      var offset := i * layout.packetLen;
      var end := offset + c.actualLens[i];
      if end > |c.buffer| {
        return Panicked;
      }
      packets := packets + [c.buffer[offset..end]];
    }
    r := Returned(Collected(packets, TotalLen(packets)));
  }

  /** The packets are slices of the buffer at multiples of the packet length, in order, and their lengths add up to
      the reported total; this is returned exactly when every status is zero and every slice is inside the buffer. */
  lemma {:induction false} CollectReturnsSlices(layout: Layout, c: Completion, i: nat, packets: seq<Bytes>)
    requires c.Fits(layout) && i <= layout.packetCount && |packets| == i
    requires forall k :: 0 <= k < i ==> IsSlice(layout, c, k, packets[k])
    ensures Collect(layout, c, i, packets).Returned? <==>
      forall k :: i <= k < layout.packetCount ==> StatusOk(c, k) && InBuffer(layout, c, k)
    ensures Collect(layout, c, i, packets).Returned? ==>
      var p := Collect(layout, c, i, packets).value;
      && |p.packets| == layout.packetCount && p.totalLen == TotalLen(p.packets)
      && forall k :: 0 <= k < layout.packetCount ==> IsSlice(layout, c, k, p.packets[k])
    ensures Collect(layout, c, i, packets).Failed? ==> Collect(layout, c, i, packets).error == Backend
    decreases layout.packetCount - i
  {
    if i < layout.packetCount && StatusOk(c, i) && InBuffer(layout, c, i) {
      var offset := i * layout.packetLen;
      CollectReturnsSlices(layout, c, i + 1, packets + [c.buffer[offset..offset + c.actualLens[i]]]);
    }
  }

  predicate PacketFine(layout: Layout, c: Completion, i: nat)
    requires i < |c.statuses| && i < |c.actualLens|
  {
    StatusOk(c, i) && InBuffer(layout, c, i)
  }

  /** The first packet in trouble decides how a collection that does not return ends: a bad status is an error, checked
      before the slice, whose end past the buffer panics. */
  lemma {:induction false} FirstTroubleDecides(layout: Layout, c: Completion, i: nat, packets: seq<Bytes>, bad: nat)
    requires c.Fits(layout) && i <= bad < layout.packetCount
    requires forall k :: i <= k < bad ==> PacketFine(layout, c, k)
    requires !PacketFine(layout, c, bad)
    ensures Collect(layout, c, i, packets) == if c.statuses[bad] != 0 then Failed(Backend) else Panicked
    decreases bad - i
  {
    if i < bad {
      assert PacketFine(layout, c, i);
      var offset := i * layout.packetLen;
      FirstTroubleDecides(layout, c, i + 1, packets + [c.buffer[offset..offset + c.actualLens[i]]], bad);
    }
  }

  /** libusb never reports more than was asked for. */
  predicate WithinRequest(layout: Layout, c: Completion) {
    forall k :: 0 <= k < |c.actualLens| ==> c.actualLens[k] <= layout.packetLen
  }

  /** The bytes of packet i end before the window of packet i + 1 begins. */
  predicate InWindow(layout: Layout, c: Completion, i: nat)
    requires i < |c.actualLens|
  {
    i * layout.packetLen + c.actualLens[i] <= (i + 1) * layout.packetLen
  }

  lemma WindowInside(i: nat, count: nat, packetLen: nat, len: nat)
    requires i < count && len <= packetLen
    ensures i * packetLen + len <= (i + 1) * packetLen <= packetLen * count
  {
    MulStep(i, count, packetLen);
    MulStep(i, i + 1, packetLen);
    assert (i + 1) * packetLen == i * packetLen + packetLen;
  }

  lemma SlotsInside(layout: Layout, c: Completion)
    requires layout.Valid() && c.Fits(layout) && WithinRequest(layout, c)
    ensures forall k :: 0 <= k < layout.packetCount ==> InBuffer(layout, c, k) && InWindow(layout, c, k)
  {
    forall k | 0 <= k < layout.packetCount
      ensures InBuffer(layout, c, k) && InWindow(layout, c, k)
    {
      WindowInside(k, layout.packetCount, layout.packetLen, c.actualLens[k]);
    }
  }

  /** No packet is longer than its window, so together they fit the layout. */
  lemma SlicesFitLayout(layout: Layout, c: Completion, packets: seq<Bytes>)
    requires layout.Valid() && c.Fits(layout) && WithinRequest(layout, c) && |packets| == layout.packetCount
    requires forall k :: 0 <= k < |packets| ==> IsSlice(layout, c, k, packets[k])
    ensures TotalLen(packets) <= layout.totalLen
  {
    SlicesShort(layout, c, packets);
    TotalLenBounded(packets, layout.packetLen);
    Commutes(|packets|, layout.packetLen);
  }

  lemma SlicesShort(layout: Layout, c: Completion, packets: seq<Bytes>)
    requires c.Fits(layout) && WithinRequest(layout, c) && |packets| == layout.packetCount
    requires forall k :: 0 <= k < |packets| ==> IsSlice(layout, c, k, packets[k])
    ensures forall k :: 0 <= k < |packets| ==> |packets[k]| <= layout.packetLen
  {
    forall k | 0 <= k < |packets|
      ensures |packets[k]| <= layout.packetLen
    {
      SliceLength(c.buffer, k * layout.packetLen, c.actualLens[k], packets[k]);
    }
  }

  lemma SliceLength(buffer: Bytes, from: nat, len: nat, slice: Bytes)
    requires from + len <= |buffer| && slice == buffer[from..from + len]
    ensures |slice| == len
  {
  }

  lemma Commutes(a: nat, b: nat)
    ensures a * b == b * a
  {
  }

  lemma {:induction false} TotalLenBounded(packets: seq<Bytes>, limit: nat)
    requires forall k :: 0 <= k < |packets| ==> |packets[k]| <= limit
    ensures TotalLen(packets) <= |packets| * limit
  {
    if packets != [] {
      TotalLenBounded(packets[1..], limit);
      assert |packets| * limit == |packets[1..]| * limit + limit;
    }
  }

  /** Within the requested lengths a completion never panics: it fails exactly when some status is bad, and otherwise
      yields one slice per packet, each inside its own part of the buffer and so disjoint from the others, whose
      lengths sum to the reported total, at most the layout's. */
  lemma CompletionGivesDisjointSlices(layout: Layout, c: Completion)
    requires layout.Valid() && c.Fits(layout) && WithinRequest(layout, c)
    ensures var r := Collect(layout, c, 0, []);
      && !r.Panicked?
      && (r.Returned? <==> forall k :: 0 <= k < layout.packetCount ==> StatusOk(c, k))
      && (r.Returned? ==>
           && |r.value.packets| == layout.packetCount
           && r.value.totalLen == TotalLen(r.value.packets) <= layout.totalLen
           && forall k :: 0 <= k < layout.packetCount ==>
                InWindow(layout, c, k) && IsSlice(layout, c, k, r.value.packets[k]))
  {
    SlotsInside(layout, c);
    CollectReturnsSlices(layout, c, 0, []);
    NeverPanics(layout, c, 0, []);
    var r := Collect(layout, c, 0, []);
    if r.Returned? {
      SlicesFitLayout(layout, c, r.value.packets);
    }
  }

  lemma {:induction false} NeverPanics(layout: Layout, c: Completion, i: nat, packets: seq<Bytes>)
    requires c.Fits(layout) && i <= layout.packetCount
    requires forall k :: i <= k < layout.packetCount ==> InBuffer(layout, c, k)
    ensures !Collect(layout, c, i, packets).Panicked?
    decreases layout.packetCount - i
  {
    if i < layout.packetCount && StatusOk(c, i) {
      assert InBuffer(layout, c, i);
      var offset := i * layout.packetLen;
      NeverPanics(layout, c, i + 1, packets + [c.buffer[offset..offset + c.actualLens[i]]]);
    }
  }

  // ---------------------------------------------------------------- the ring

  /** A submitted transfer; its number says how many were submitted before it. */
  datatype Transfer = Transfer(id: nat, completion: Option<Completion>)

  /** The loop's fields; `submitted` and `delivered` record what it has done so far. */
  datatype Ring = Ring(layout: Layout, ringSize: nat, inFlight: seq<Transfer>, submitted: nat, delivered: seq<nat>,
                       lastPackets: seq<Bytes>, lastTotalLen: nat)

  function NewRing(layout: Layout, ringSize: nat): Ring { Ring(layout, ringSize, [], 0, [], [], 0) }

  datatype SlotDone = SlotDone(slot: nat, completion: Completion)

  /** One round of libusb event handling: transfers it completes, or an error code. */
  datatype Event = Handled(done: seq<SlotDone>) | HandlingError

  /** The environment of one poll: which of its submissions fails first, if any, and the event rounds until the
      deadline. */
  datatype PollEnv = PollEnv(failAt: Option<nat>, events: seq<Event>)

  /** A transfer completes once; anything else is no completion. */
  function Complete(layout: Layout, inFlight: seq<Transfer>, done: SlotDone): (r: seq<Transfer>)
    ensures |r| == |inFlight|
    ensures forall i :: 0 <= i < |r| ==> r[i].id == inFlight[i].id
    ensures forall i :: 0 <= i < |r| && inFlight[i].completion.Some? ==> r[i] == inFlight[i]
  {
    if done.slot < |inFlight| && inFlight[done.slot].completion == None && done.completion.Fits(layout)
    then inFlight[done.slot := inFlight[done.slot].(completion := Some(done.completion))]
    else inFlight
  }

  function CompleteAll(layout: Layout, inFlight: seq<Transfer>, done: seq<SlotDone>): (r: seq<Transfer>)
    ensures |r| == |inFlight|
    ensures forall i :: 0 <= i < |r| ==> r[i].id == inFlight[i].id
    ensures forall i :: 0 <= i < |r| && inFlight[i].completion.Some? ==> r[i] == inFlight[i]
    decreases |done|
  {
    if done == [] then inFlight else CompleteAll(layout, Complete(layout, inFlight, done[0]), done[1..])
  }

  /** `completed_index`: the lowest completed slot, which need not be the oldest submission. */
  function CompletedIndex(inFlight: seq<Transfer>): (r: Option<nat>)
    ensures r.Some? ==> r.value < |inFlight| && inFlight[r.value].completion.Some?
    ensures r.Some? ==> forall i :: 0 <= i < r.value ==> inFlight[i].completion == None
    ensures r == None ==> forall i :: 0 <= i < |inFlight| ==> inFlight[i].completion == None
  {
    if inFlight == [] then None
    else if inFlight[0].completion.Some? then Some(0)
    else match CompletedIndex(inFlight[1..])
      case None => None
      case Some(i) => Some(i + 1)
  }

  datatype Waited = Waited(inFlight: seq<Transfer>, result: Result<nat>)

  /** `wait_any`. */
  function Wait(layout: Layout, inFlight: seq<Transfer>, events: seq<Event>): Waited
    decreases |events|
  {
    match CompletedIndex(inFlight)
    case Some(i) => Waited(inFlight, Ok(i))
    case None =>
      if events == [] then Waited(inFlight, Err(Timeout))
      else match events[0]
        case HandlingError => Waited(inFlight, Err(Backend))
        case Handled(done) => Wait(layout, CompleteAll(layout, inFlight, done), events[1..])
  }

  function FreshTransfers(first: nat, n: nat): (r: seq<Transfer>)
    ensures |r| == n && forall i :: 0 <= i < n ==> r[i] == Transfer(first + i, None)
  {
    seq(n, i requires 0 <= i < n => Transfer(first + i, None))
  }

  function Missing(r: Ring): nat { if |r.inFlight| < r.ringSize then r.ringSize - |r.inFlight| else 0 }

  /** Topping up the ring submits one transfer per missing slot, or up to the first failure. */
  function TopUp(r: Ring, n: nat): Ring {
    r.(inFlight := r.inFlight + FreshTransfers(r.submitted, n), submitted := r.submitted + n)
  }

  datatype Polled = Polled(next: Ring, outcome: Outcome<Collected>)

  /** `poll_iso` once the ring is full: wait, collect the lowest completed slot, submit its replacement. */
  function PollFull(full: Ring, fails: bool, events: seq<Event>): Polled
    requires CompletionsFit(full.layout, full.inFlight)
  {
    WaitFacts(full.layout, full.inFlight, events);
    var waited := Wait(full.layout, full.inFlight, events);
    var woken := full.(inFlight := waited.inFlight);
    match waited.result
    case Err(e) => Polled(woken, Failed(e))
    case Ok(slot) =>
      match Collect(full.layout, waited.inFlight[slot].completion.value, 0, [])
      case Failed(e) => Polled(woken, Failed(e))
      case Panicked => Polled(woken, Panicked)
      case Returned(packets) =>
        if fails then Polled(woken, Failed(Backend))
        else Polled(Replace(woken, slot).(lastPackets := packets.packets, lastTotalLen := packets.totalLen),
                    Returned(packets))
  }

  /** `poll_iso`. */
  function Poll(r: Ring, env: PollEnv): Polled
    requires CompletionsFit(r.layout, r.inFlight)
  {
    var missing := Missing(r);
    if env.failAt.Some? && env.failAt.value < missing then Polled(TopUp(r, env.failAt.value), Failed(Backend))
    else PollFull(TopUp(r, missing), env.failAt == Some(missing), env.events)
  }

  /** The delivered transfer's slot gets a fresh submission. */
  function Replace(r: Ring, slot: nat): Ring
    requires slot < |r.inFlight|
  {
    r.(inFlight := r.inFlight[slot := Transfer(r.submitted, None)], submitted := r.submitted + 1,
       delivered := r.delivered + [r.inFlight[slot].id])
  }

  // ---------------------------------------------------------------- invariant

  function Ids(inFlight: seq<Transfer>): (r: seq<nat>)
    ensures |r| == |inFlight| && forall i :: 0 <= i < |r| ==> r[i] == inFlight[i].id
  {
    seq(|inFlight|, i requires 0 <= i < |inFlight| => inFlight[i].id)
  }

  function UpTo(n: nat): (r: seq<nat>)
    ensures |r| == n && forall i :: 0 <= i < n ==> r[i] == i
  {
    seq(n, i => i)
  }

  predicate CompletionsFit(layout: Layout, inFlight: seq<Transfer>) {
    forall i :: 0 <= i < |inFlight| && inFlight[i].completion.Some? ==> inFlight[i].completion.value.Fits(layout)
  }

  /** The submitted transfers are the disjoint union of the delivered ones and those in flight, each once. */
  predicate Conserved(r: Ring) {
    multiset(r.delivered) + multiset(Ids(r.inFlight)) == multiset(UpTo(r.submitted))
  }

  predicate RingInv(r: Ring) {
    && r.ringSize > 0 && |r.inFlight| <= r.ringSize
    && CompletionsFit(r.layout, r.inFlight)
    && Conserved(r)
  }

  lemma {:induction false} WaitFacts(layout: Layout, inFlight: seq<Transfer>, events: seq<Event>)
    requires CompletionsFit(layout, inFlight)
    ensures var w := Wait(layout, inFlight, events);
      && |w.inFlight| == |inFlight|
      && Ids(w.inFlight) == Ids(inFlight)
      && CompletionsFit(layout, w.inFlight)
      && (forall i :: 0 <= i < |inFlight| && inFlight[i].completion.Some? ==> w.inFlight[i] == inFlight[i])
      && (w.result.Ok? ==> CompletedIndex(w.inFlight) == Some(w.result.value))
    decreases |events|
  {
    if CompletedIndex(inFlight) == None && events != [] && events[0].Handled? {
      CompleteAllFits(layout, inFlight, events[0].done);
      WaitFacts(layout, CompleteAll(layout, inFlight, events[0].done), events[1..]);
    }
  }

  lemma {:induction false} CompleteAllFits(layout: Layout, inFlight: seq<Transfer>, done: seq<SlotDone>)
    requires CompletionsFit(layout, inFlight)
    ensures CompletionsFit(layout, CompleteAll(layout, inFlight, done))
    decreases |done|
  {
    if done != [] {
      CompleteAllFits(layout, Complete(layout, inFlight, done[0]), done[1..]);
    }
  }

  lemma {:induction false} TopUpConserves(r: Ring, n: nat)
    requires Conserved(r)
    ensures Conserved(TopUp(r, n))
  {
    if n == 0 {
      assert TopUp(r, 0) == r;
    } else {
      TopUpConserves(r, n - 1);
      var before, after := TopUp(r, n - 1), TopUp(r, n);
      assert Ids(after.inFlight) == Ids(before.inFlight) + [before.submitted];
      assert UpTo(after.submitted) == UpTo(before.submitted) + [before.submitted];
    }
  }

  lemma UpdateSwapsOne(ids: seq<nat>, at: nat, n: nat)
    requires at < |ids|
    ensures multiset(ids[at := n]) + multiset{ids[at]} == multiset(ids) + multiset{n}
  {
    assert ids == ids[..at] + [ids[at]] + ids[at + 1..];
    assert ids[at := n] == ids[..at] + [n] + ids[at + 1..];
  }

  lemma SwapBalances(delivered: multiset<nat>, ids: multiset<nat>, swapped: multiset<nat>, all: multiset<nat>,
                     id: nat, n: nat)
    requires delivered + ids == all && swapped + multiset{id} == ids + multiset{n}
    ensures (delivered + multiset{id}) + swapped == all + multiset{n}
  {
    assert (delivered + multiset{id}) + swapped == delivered + (ids + multiset{n});
  }

  lemma ReplaceConserves(r: Ring, slot: nat)
    requires Conserved(r) && slot < |r.inFlight|
    ensures Conserved(Replace(r, slot))
  {
    var n, ids, id := Replace(r, slot), Ids(r.inFlight), r.inFlight[slot].id;
    assert Ids(n.inFlight) == ids[slot := r.submitted];
    assert UpTo(n.submitted) == UpTo(r.submitted) + [r.submitted];
    UpdateSwapsOne(ids, slot, r.submitted);
    SwapBalances(multiset(r.delivered), multiset(ids), multiset(Ids(n.inFlight)), multiset(UpTo(r.submitted)),
                 id, r.submitted);
  }

  /** The packets reported are those of the transfer counted as delivered, whose slot alone is resubmitted. */
  predicate DeliversSlot(full: Ring, waited: seq<Transfer>, slot: nat, p: Polled)
    requires slot < |waited| && CompletionsFit(full.layout, waited)
  {
    && p.next.delivered == full.delivered + [waited[slot].id]
    && p.next.inFlight == waited[slot := Transfer(full.submitted, None)]
    && waited[slot].completion.Some?
    && Collect(full.layout, waited[slot].completion.value, 0, []) == p.outcome
  }

  /** Delivering one slot of a woken ring. */
  lemma ReplaceKeepsInv(r: Ring, slot: nat)
    requires RingInv(r) && slot < |r.inFlight|
    ensures RingInv(Replace(r, slot)) && |Replace(r, slot).inFlight| == |r.inFlight|
    ensures |Replace(r, slot).delivered| == |r.delivered| + 1
    ensures Replace(r, slot).delivered[..|r.delivered|] == r.delivered
  {
    ReplaceConserves(r, slot);
  }

  lemma PollFullKeepsInv(full: Ring, fails: bool, events: seq<Event>)
    requires RingInv(full)
    ensures var p := PollFull(full, fails, events);
      && RingInv(p.next) && |p.next.inFlight| == |full.inFlight|
      && p.next.ringSize == full.ringSize && p.next.layout == full.layout
      && (p.outcome.Returned? ==>
           && |p.next.delivered| == |full.delivered| + 1 && p.next.delivered[..|full.delivered|] == full.delivered
           && p.next.lastPackets == p.outcome.value.packets && p.next.lastTotalLen == p.outcome.value.totalLen)
      && (!p.outcome.Returned? ==> p.next.delivered == full.delivered && p.next.lastPackets == full.lastPackets)
    ensures CompletionsFit(full.layout, Wait(full.layout, full.inFlight, events).inFlight)
  {
    WaitFacts(full.layout, full.inFlight, events);
    var waited := Wait(full.layout, full.inFlight, events);
    var woken := full.(inFlight := waited.inFlight);
    assert RingInv(woken);
    if waited.result.Ok? {
      ReplaceKeepsInv(woken, waited.result.value);
    }
  }

  /** Every poll keeps the invariant; a successful one leaves the ring full, has delivered exactly one more transfer,
      and reports that transfer's packets; a failed one delivers nothing. */
  lemma PollKeepsInv(r: Ring, env: PollEnv)
    requires RingInv(r)
    ensures var p := Poll(r, env);
      && RingInv(p.next) && p.next.ringSize == r.ringSize && p.next.layout == r.layout
      && (p.outcome.Returned? ==>
           && |p.next.inFlight| == r.ringSize
           && |p.next.delivered| == |r.delivered| + 1 && p.next.delivered[..|r.delivered|] == r.delivered
           && p.next.lastPackets == p.outcome.value.packets && p.next.lastTotalLen == p.outcome.value.totalLen)
      && (!p.outcome.Returned? ==> p.next.delivered == r.delivered && p.next.lastPackets == r.lastPackets)
  {
    var missing := Missing(r);
    if env.failAt.Some? && env.failAt.value < missing {
      TopUpConserves(r, env.failAt.value);
    } else {
      TopUpConserves(r, missing);
      PollFullKeepsInv(TopUp(r, missing), env.failAt == Some(missing), env.events);
    }
  }

  /** The transfer a successful poll delivers, among those in flight when its wait ended. */
  ghost predicate DeliveredBy(r: Ring, env: PollEnv, slot: nat, delivered: Transfer)
    requires RingInv(r)
  {
    TopUpConserves(r, Missing(r));
    var full := TopUp(r, Missing(r));
    PollFullKeepsInv(full, env.failAt == Some(Missing(r)), env.events);
    var waited := Wait(full.layout, full.inFlight, env.events).inFlight;
    && slot < |waited| && waited[slot] == delivered
    && CompletedIndex(waited) == Some(slot)
    && DeliversSlot(full, waited, slot, Poll(r, env))
  }

  /** A successful poll delivers the transfer of one slot: the lowest completed one. */
  lemma PollDeliversSlot(r: Ring, env: PollEnv) returns (slot: nat, delivered: Transfer)
    requires RingInv(r) && Poll(r, env).outcome.Returned?
    ensures DeliveredBy(r, env, slot, delivered)
    ensures delivered.completion.Some? && delivered.completion.value.Fits(r.layout)
    ensures Poll(r, env).outcome == Collect(r.layout, delivered.completion.value, 0, [])
    ensures Poll(r, env).next.delivered == r.delivered + [delivered.id]
  {
    TopUpConserves(r, Missing(r));
    var full := TopUp(r, Missing(r));
    WaitFacts(full.layout, full.inFlight, env.events);
    var waited := Wait(full.layout, full.inFlight, env.events);
    slot := waited.result.value;
    delivered := waited.inFlight[slot];
  }

  // ---------------------------------------------------------------- how a poll ends

  /** The transfers in flight after so many rounds of events. */
  function AfterRounds(layout: Layout, inFlight: seq<Transfer>, events: seq<Event>, n: nat): seq<Transfer>
    requires n <= |events| && forall i :: 0 <= i < n ==> events[i].Handled?
  {
    if n == 0 then inFlight else CompleteAll(layout, AfterRounds(layout, inFlight, events, n - 1), events[n - 1].done)
  }

  /** Nothing is completed in any of the first so many rounds, all of which are handled. */
  predicate Fruitless(layout: Layout, inFlight: seq<Transfer>, events: seq<Event>, n: nat)
    requires n <= |events|
  {
    && (forall i :: 0 <= i < n ==> events[i].Handled?)
    && forall i :: 0 <= i < n ==> NoneCompleted(AfterRounds(layout, inFlight, events, i))
  }

  predicate NoneCompleted(inFlight: seq<Transfer>) {
    forall i :: 0 <= i < |inFlight| ==> inFlight[i].completion == None
  }

  /** The lowest completed slot. */
  predicate LowestCompleted(inFlight: seq<Transfer>, slot: nat) {
    slot < |inFlight| && inFlight[slot].completion.Some? && NoneCompleted(inFlight[..slot])
  }

  /** A wait that has gone through so many fruitless rounds ends here: with the lowest completed slot, or, nothing being
      completed, in a time-out when the rounds are over and in an error when event handling fails. */
  predicate EndsAfter(layout: Layout, inFlight: seq<Transfer>, events: seq<Event>, n: nat, w: Waited)
    requires n <= |events| && Fruitless(layout, inFlight, events, n)
  {
    var now := AfterRounds(layout, inFlight, events, n);
    && w.inFlight == now
    && match w.result
       case Ok(slot) => LowestCompleted(now, slot)
       case Err(e) =>
         && NoneCompleted(now)
         && if n == |events| then e == Timeout else events[n] == HandlingError && e == Backend
  }

  lemma {:induction false} RoundsShift(layout: Layout, inFlight: seq<Transfer>, events: seq<Event>, n: nat)
    requires n < |events| && forall i :: 0 <= i <= n ==> events[i].Handled?
    ensures forall i :: 0 <= i < n ==> events[1..][i].Handled?
    ensures AfterRounds(layout, inFlight, events, n + 1) ==
            AfterRounds(layout, CompleteAll(layout, inFlight, events[0].done), events[1..], n)
  {
    assert forall i :: 0 <= i < n ==> events[1..][i] == events[i + 1];
    if n > 0 {
      RoundsShift(layout, inFlight, events, n - 1);
    } else {
      assert AfterRounds(layout, inFlight, events, 0) == inFlight;
    }
  }

  lemma FruitlessShift(layout: Layout, inFlight: seq<Transfer>, events: seq<Event>, n: nat)
    requires events != [] && events[0].Handled? && NoneCompleted(inFlight) && n <= |events[1..]|
    requires Fruitless(layout, CompleteAll(layout, inFlight, events[0].done), events[1..], n)
    ensures Fruitless(layout, inFlight, events, n + 1)
    ensures AfterRounds(layout, inFlight, events, n + 1) ==
            AfterRounds(layout, CompleteAll(layout, inFlight, events[0].done), events[1..], n)
  {
    var first := CompleteAll(layout, inFlight, events[0].done);
    forall i | 0 <= i < n + 1
      ensures events[i].Handled?
    {
      assert i > 0 ==> events[i] == events[1..][i - 1];
    }
    forall i | 0 <= i < n + 1
      ensures NoneCompleted(AfterRounds(layout, inFlight, events, i))
    {
      if i > 0 {
        RoundsShift(layout, inFlight, events, i - 1);
        assert NoneCompleted(AfterRounds(layout, first, events[1..], i - 1));
      }
    }
    RoundsShift(layout, inFlight, events, n);
  }

  /** How waiting ends: after the first round with something completed, the last round, or the first failing one. */
  lemma {:induction false} WaitExactly(layout: Layout, inFlight: seq<Transfer>, events: seq<Event>) returns (n: nat)
    ensures n <= |events| && Fruitless(layout, inFlight, events, n)
    ensures EndsAfter(layout, inFlight, events, n, Wait(layout, inFlight, events))
    decreases |events|
  {
    n := 0;
    if CompletedIndex(inFlight) == None && events != [] && events[0].Handled? {
      var first := CompleteAll(layout, inFlight, events[0].done);
      n := WaitExactly(layout, first, events[1..]);
      FruitlessShift(layout, inFlight, events, n);
      n := n + 1;
    }
  }

  /** The submissions of a poll that succeed: up to the failing one, if any, else one per missing slot and, when a
      transfer is delivered, its replacement. */
  function Successful(r: Ring, env: PollEnv, delivers: bool): nat {
    if env.failAt.Some? && env.failAt.value < Missing(r) then env.failAt.value
    else Missing(r) + if delivers then 1 else 0
  }

  lemma ReplacementSubmits(full: Ring, fails: bool, events: seq<Event>)
    requires RingInv(full)
    ensures var p := PollFull(full, fails, events);
      && p.next.submitted == full.submitted + (if p.outcome.Returned? then 1 else 0)
      && |p.next.inFlight| == |full.inFlight|
      && |p.next.delivered| == |full.delivered| + (if p.outcome.Returned? then 1 else 0)
      && (p.outcome.Returned? ==> !fails)
  {
    PollFullKeepsInv(full, fails, events);
  }

  /** No submission counts that was not made, and no transfer leaves the ring whose replacement was not submitted:
      packets are returned only if every submission of the poll succeeded. */
  lemma SubmissionsExactly(r: Ring, env: PollEnv)
    requires RingInv(r)
    ensures var p := Poll(r, env);
      && p.next.submitted == r.submitted + Successful(r, env, p.outcome.Returned?)
      && |p.next.inFlight| + |p.next.delivered| ==
         |r.inFlight| + |r.delivered| + (p.next.submitted - r.submitted)
      && (p.outcome.Returned? ==> env.failAt == None || env.failAt.value > Missing(r))
      && (env.failAt.Some? && env.failAt.value < Missing(r) ==> p.outcome == Failed(Backend))
  {
    TopUpConserves(r, Missing(r));
    if !(env.failAt.Some? && env.failAt.value < Missing(r)) {
      ReplacementSubmits(TopUp(r, Missing(r)), env.failAt == Some(Missing(r)), env.events);
    }
  }

  /** How a poll ends whose top-up succeeds: as its wait fails, as its collection fails, with the submission error if
      the replacement fails, and with the packets otherwise. A poll that does not return packets keeps every transfer
      the wait left, completed ones included, and the packets stored before. */
  lemma PollOutcomeExactly(r: Ring, env: PollEnv)
    requires RingInv(r) && !(env.failAt.Some? && env.failAt.value < Missing(r))
    ensures CompletionsFit(r.layout, TopUp(r, Missing(r)).inFlight)
    ensures var p, w := Poll(r, env), Wait(r.layout, TopUp(r, Missing(r)).inFlight, env.events);
      && (w.result.Err? ==> p.outcome == Failed(w.result.error))
      && (w.result.Ok? ==>
           && w.result.value < |w.inFlight| && w.inFlight[w.result.value].completion.Some?
           && w.inFlight[w.result.value].completion.value.Fits(r.layout)
           && var c := Collect(r.layout, w.inFlight[w.result.value].completion.value, 0, []);
              p.outcome == if c.Returned? && env.failAt == Some(Missing(r)) then Failed(Backend) else c)
      && (!p.outcome.Returned? ==>
           && p.next.inFlight == w.inFlight && p.next.delivered == r.delivered
           && p.next.lastPackets == r.lastPackets && p.next.lastTotalLen == r.lastTotalLen)
  {
    TopUpConserves(r, Missing(r));
    WaitFacts(r.layout, TopUp(r, Missing(r)).inFlight, env.events);
  }

  /** A failed replacement loses nothing: where the poll would have delivered, it returns the submission error, delivers
      and stores nothing and keeps the completed transfer in its slot, and the next poll whose submissions succeed
      delivers that very transfer with the same packets, whatever else completes meanwhile. */
  lemma FailedReplacementKeepsTransfer(r: Ring, env: PollEnv, retry: PollEnv)
    returns (slot: nat, kept: Transfer)
    requires RingInv(r) && env.failAt == Some(Missing(r)) && retry.failAt == None
    requires Poll(r, env.(failAt := None)).outcome.Returned?
    ensures DeliveredBy(r, env.(failAt := None), slot, kept)
    ensures var p := Poll(r, env);
      && p.outcome == Failed(Backend)
      && p.next.delivered == r.delivered
      && p.next.lastPackets == r.lastPackets && p.next.lastTotalLen == r.lastTotalLen
      && p.next.submitted == r.submitted + Missing(r)
      && slot < |p.next.inFlight| && p.next.inFlight[slot] == kept && kept.completion.Some?
      && RingInv(p.next)
      && var again := Poll(p.next, retry);
         && again.outcome == Poll(r, env.(failAt := None)).outcome
         && again.next.delivered == r.delivered + [kept.id]
  {
    slot, kept := PollDeliversSlot(r, env.(failAt := None));
    PollOutcomeExactly(r, env);
    SubmissionsExactly(r, env);
    PollKeepsInv(r, env);
    var next := Poll(r, env).next;
    assert Missing(next) == 0 && TopUp(next, 0).inFlight == next.inFlight;
    assert Wait(next.layout, next.inFlight, retry.events) == Waited(next.inFlight, Ok(slot));
  }

  // ---------------------------------------------------------------- runs

  /** What happens to a ring: polls, and transfers completing between polls because another user of the same libusb
      context handles its events. */
  datatype RingOp = Completes(done: SlotDone) | Polls(env: PollEnv)

  function RingStep(r: Ring, op: RingOp): Ring
    requires RingInv(r)
  {
    match op
    case Completes(done) => r.(inFlight := Complete(r.layout, r.inFlight, done))
    case Polls(env) => Poll(r, env).next
  }

  lemma RingStepKeepsInv(r: Ring, op: RingOp)
    requires RingInv(r)
    ensures RingInv(RingStep(r, op))
    ensures RingStep(r, op).ringSize == r.ringSize && RingStep(r, op).layout == r.layout
  {
    match op
    case Completes(done) => assert Ids(Complete(r.layout, r.inFlight, done)) == Ids(r.inFlight);
    case Polls(env) => PollKeepsInv(r, env);
  }

  function RingRun(r: Ring, ops: seq<RingOp>): (n: Ring)
    requires RingInv(r)
    ensures RingInv(n) && n.ringSize == r.ringSize && n.layout == r.layout
    decreases |ops|
  {
    if ops == [] then r
    else
      RingStepKeepsInv(r, ops[0]);
      RingRun(RingStep(r, ops[0]), ops[1..])
  }

  lemma UpToHasNoDuplicates(n: nat, x: nat)
    ensures multiset(UpTo(n))[x] == if x < n then 1 else 0
  {
    if n > 0 {
      UpToHasNoDuplicates(n - 1, x);
      assert UpTo(n) == UpTo(n - 1) + [n - 1];
    }
  }

  /** Conservation over every run of polls, completions and failures: never more than `ringSize` transfers in flight,
      and every submitted transfer is either in flight or delivered, never both and never twice. */
  lemma RingConserves(layout: Layout, ringSize: nat, ops: seq<RingOp>, id: nat)
    requires ringSize > 0 && RingInv(NewRing(layout, ringSize))
    ensures var r := RingRun(NewRing(layout, ringSize), ops);
      && |r.inFlight| <= ringSize
      && |r.delivered| + |r.inFlight| == r.submitted
      && multiset(r.delivered)[id] + multiset(Ids(r.inFlight))[id] == if id < r.submitted then 1 else 0
  {
    var r := RingRun(NewRing(layout, ringSize), ops);
    UpToHasNoDuplicates(r.submitted, id);
    assert |multiset(r.delivered) + multiset(Ids(r.inFlight))| == |r.delivered| + |Ids(r.inFlight)|;
    assert |multiset(UpTo(r.submitted))| == r.submitted;
  }

  lemma NewRingInv(layout: Layout, ringSize: nat)
    requires ringSize > 0
    ensures RingInv(NewRing(layout, ringSize))
  {
    assert Ids([]) == [] && UpTo(0) == [];
  }

  // ---------------------------------------------------------------- delivery order

  /** What a ring of one slot keeps: everything delivered so far is 0, 1, 2, ... and the next one is in flight. */
  predicate InOrder(r: Ring) {
    && r.delivered == UpTo(|r.delivered|)
    && r.submitted == |r.delivered| + |r.inFlight|
    && (|r.inFlight| == 1 ==> r.inFlight[0].id == |r.delivered|)
  }

  lemma SingleSlotPoll(full: Ring, fails: bool, events: seq<Event>)
    requires RingInv(full) && |full.inFlight| == 1 && InOrder(full)
    ensures InOrder(PollFull(full, fails, events).next)
  {
    WaitFacts(full.layout, full.inFlight, events);
    var waited := Wait(full.layout, full.inFlight, events);
    assert Ids(waited.inFlight)[0] == Ids(full.inFlight)[0];
    assert UpTo(|full.delivered| + 1) == UpTo(|full.delivered|) + [|full.delivered|];
  }

  lemma SingleSlotStep(r: Ring, op: RingOp)
    requires RingInv(r) && r.ringSize == 1 && InOrder(r)
    ensures InOrder(RingStep(r, op))
  {
    if op.Polls? {
      var env, missing := op.env, Missing(r);
      if !(env.failAt.Some? && env.failAt.value < missing) {
        TopUpConserves(r, missing);
        SingleSlotPoll(TopUp(r, missing), env.failAt == Some(missing), env.events);
      }
    }
  }

  lemma {:induction false} SingleSlotRun(r: Ring, ops: seq<RingOp>)
    requires RingInv(r) && r.ringSize == 1 && InOrder(r)
    ensures InOrder(RingRun(r, ops))
    decreases |ops|
  {
    if ops != [] {
      SingleSlotStep(r, ops[0]);
      RingStepKeepsInv(r, ops[0]);
      SingleSlotRun(RingStep(r, ops[0]), ops[1..]);
    }
  }

  lemma OneStepRun(r: Ring, op: RingOp)
    requires RingInv(r)
    ensures RingRun(r, [op]) == RingStep(r, op)
  {
    RingStepKeepsInv(r, op);
    assert [op][1..] == [];
  }

  /** A completion with every packet empty and good. */
  function EmptyCompletion(layout: Layout): Completion {
    Completion(seq(layout.packetCount, _ => 0), seq(layout.packetCount, _ => 0), seq<Byte>(layout.totalLen, _ => 0))
  }

  lemma EmptyCompletionCollects(layout: Layout)
    requires layout.Valid()
    ensures EmptyCompletion(layout).Fits(layout) && Collect(layout, EmptyCompletion(layout), 0, []).Returned?
  {
    CompletionGivesDisjointSlices(layout, EmptyCompletion(layout));
  }

  /** A poll in which nothing fails and slot 0, still pending, completes first. */
  function FirstSlotPoll(layout: Layout): RingOp {
    Polls(PollEnv(None, [Handled([SlotDone(0, EmptyCompletion(layout))])]))
  }

  lemma FirstSlotPollDelivers(r: Ring)
    requires RingInv(r) && r.layout.Valid()
    requires forall i :: 0 <= i < |r.inFlight| ==> r.inFlight[i].completion == None
    ensures var full := TopUp(r, Missing(r)); var n := RingStep(r, FirstSlotPoll(r.layout));
      && full.inFlight != []
      && n.delivered == r.delivered + [full.inFlight[0].id]
      && n.inFlight == full.inFlight[0 := Transfer(full.submitted, None)]
      && n.submitted == full.submitted + 1
  {
    EmptyCompletionCollects(r.layout);
    var full := TopUp(r, Missing(r));
    var done := SlotDone(0, EmptyCompletion(r.layout));
    var woken := Complete(r.layout, full.inFlight, done);
    assert CompleteAll(r.layout, full.inFlight, [done]) == woken by {
      assert [done][1..] == [];
    }
    assert CompletedIndex(full.inFlight) == None;
    assert CompletedIndex(woken) == Some(0);
    var events := [Handled([done])];
    assert Wait(r.layout, full.inFlight, events) == Wait(r.layout, woken, events[1..]);
    assert woken[0 := Transfer(full.submitted, None)] == full.inFlight[0 := Transfer(full.submitted, None)];
  }

  /** With two slots or more, slot 0 can overtake: after two polls the transfers delivered are 0 and then the
      replacement, although transfer 1 was submitted before it and is still in flight. */
  lemma LargerRingOvertakes(layout: Layout, ringSize: nat)
    requires layout.Valid() && ringSize >= 2 && RingInv(NewRing(layout, ringSize))
    ensures var poll := FirstSlotPoll(layout);
      RingRun(NewRing(layout, ringSize), [poll, poll]).delivered == [0, ringSize]
  {
    var start, poll := NewRing(layout, ringSize), FirstSlotPoll(layout);
    FirstPoll(layout, ringSize);
    RingStepKeepsInv(start, poll);
    var once := RingStep(start, poll);
    assert TopUp(once, 0).inFlight == once.inFlight;
    FirstSlotPollDelivers(once);
    OneStepRun(once, poll);
    assert [poll, poll][1..] == [poll];
  }

  /** The first poll of a new ring delivers transfer 0 and puts the next number into its slot. */
  lemma FirstPoll(layout: Layout, ringSize: nat)
    requires layout.Valid() && ringSize >= 2 && RingInv(NewRing(layout, ringSize))
    ensures var once := RingStep(NewRing(layout, ringSize), FirstSlotPoll(layout));
      && once.delivered == [0] && |once.inFlight| == ringSize == once.ringSize
      && once.inFlight[0] == Transfer(ringSize, None)
      && forall i :: 0 <= i < ringSize ==> once.inFlight[i].completion == None
  {
    var start := NewRing(layout, ringSize);
    RingStepKeepsInv(start, FirstSlotPoll(layout));
    FirstSlotPollDelivers(start);
    assert TopUp(start, ringSize).inFlight == FreshTransfers(0, ringSize);
  }

  /** Every run delivers in submission order. */
  ghost predicate AlwaysInOrder(layout: Layout, ringSize: nat)
    requires RingInv(NewRing(layout, ringSize))
  {
    forall ops :: var d := RingRun(NewRing(layout, ringSize), ops).delivered; d == UpTo(|d|)
  }

  /** Delivery is in submission order, whatever the environment does, exactly for a ring of one. */
  lemma InOrderExactlyForOneSlot(layout: Layout, ringSize: nat)
    requires layout.Valid() && ringSize > 0 && RingInv(NewRing(layout, ringSize))
    ensures AlwaysInOrder(layout, ringSize) <==> ringSize == 1
  {
    var start := NewRing(layout, ringSize);
    if ringSize == 1 {
      forall ops
        ensures var d := RingRun(start, ops).delivered; d == UpTo(|d|)
      {
        SingleSlotRun(start, ops);
      }
    } else {
      LargerRingOvertakes(layout, ringSize);
      var poll := FirstSlotPoll(layout);
      var d := RingRun(start, [poll, poll]).delivered;
      assert d[1] != UpTo(|d|)[1];
    }
  }

  // ---------------------------------------------------------------- a bad packet

  /** Slot 0 holds a completed transfer that cannot be collected. */
  predicate Stuck(r: Ring)
    requires RingInv(r)
  {
    && |r.inFlight| == r.ringSize
    && r.inFlight[0].completion.Some?
    && !Collect(r.layout, r.inFlight[0].completion.value, 0, []).Returned?
  }

  lemma StuckStep(r: Ring, op: RingOp)
    requires RingInv(r) && Stuck(r)
    ensures RingInv(RingStep(r, op)) && Stuck(RingStep(r, op))
    ensures RingStep(r, op).delivered == r.delivered && RingStep(r, op).submitted == r.submitted
    ensures op.Polls? ==> !Poll(r, op.env).outcome.Returned?
  {
    RingStepKeepsInv(r, op);
    if op.Polls? {
      assert TopUp(r, 0).inFlight == r.inFlight;
    }
  }

  /** A failed packet in slot 0 is never cleared: no later poll of any run succeeds or submits anything, whoever handles
      the events. */
  lemma {:induction false} BadPacketStopsRing(r: Ring, ops: seq<RingOp>)
    requires RingInv(r) && Stuck(r)
    ensures RingRun(r, ops).delivered == r.delivered && RingRun(r, ops).submitted == r.submitted
    ensures Stuck(RingRun(r, ops))
    decreases |ops|
  {
    if ops != [] {
      StuckStep(r, ops[0]);
      BadPacketStopsRing(RingStep(r, ops[0]), ops[1..]);
    }
  }

  /** Some future of the ring delivers another transfer. */
  ghost predicate CanDeliver(r: Ring)
    requires RingInv(r)
  {
    exists ops :: |RingRun(r, ops).delivered| > |r.delivered|
  }

  /** A poll that finds slot 0 completed and collectable delivers it. */
  lemma ReadySlotDelivers(r: Ring)
    requires RingInv(r) && |r.inFlight| == r.ringSize && !Stuck(r) && r.inFlight[0].completion.Some?
    ensures RingInv(RingStep(r, Polls(PollEnv(None, []))))
    ensures |RingStep(r, Polls(PollEnv(None, []))).delivered| == |r.delivered| + 1
  {
    assert TopUp(r, 0).inFlight == r.inFlight;
    RingStepKeepsInv(r, Polls(PollEnv(None, [])));
  }

  /** When other users of the libusb context handle its events too, transfers complete between polls, and a full ring
      can go on delivering exactly while slot 0 does not hold a failed transfer. */
  lemma ProgressExactly(r: Ring)
    requires RingInv(r) && r.layout.Valid() && |r.inFlight| == r.ringSize
    ensures CanDeliver(r) <==> !Stuck(r)
  {
    var poll := Polls(PollEnv(None, []));
    if Stuck(r) {
      forall ops
        ensures RingRun(r, ops).delivered == r.delivered
      {
        BadPacketStopsRing(r, ops);
      }
    } else if r.inFlight[0].completion.Some? {
      ReadySlotDelivers(r);
      OneStepRun(r, poll);
    } else {
      var done := Completes(SlotDone(0, EmptyCompletion(r.layout)));
      EmptyCompletionCollects(r.layout);
      RingStepKeepsInv(r, done);
      var ready := RingStep(r, done);
      assert ready.inFlight[0].completion == Some(EmptyCompletion(r.layout));
      ReadySlotDelivers(ready);
      OneStepRun(ready, poll);
      assert [done, poll][1..] == [poll];
      assert RingRun(r, [done, poll]) == RingRun(ready, [poll]);
    }
  }

  // ---------------------------------------------------------------- a loop alone on its context

  /** A run of polls, with no completion but those a poll's own event handling brings in. */
  function PollsOf(envs: seq<PollEnv>): (ops: seq<RingOp>)
    ensures |ops| == |envs| && forall i :: 0 <= i < |ops| ==> ops[i] == Polls(envs[i])
  {
    seq(|envs|, i requires 0 <= i < |envs| => Polls(envs[i]))
  }

  /** Some run of polls alone delivers another transfer. */
  ghost predicate CanDeliverAlone(r: Ring)
    requires RingInv(r)
  {
    exists envs :: |RingRun(r, PollsOf(envs)).delivered| > |r.delivered|
  }

  /** The lowest completed transfer, whatever its slot, cannot be collected. */
  predicate Jammed(r: Ring)
    requires RingInv(r)
  {
    && CompletedIndex(r.inFlight).Some?
    && !Collect(r.layout, r.inFlight[CompletedIndex(r.inFlight).value].completion.value, 0, []).Returned?
  }

  /** Fresh submissions go behind the ones in flight and do not change which is the lowest completed. */
  lemma TopUpKeepsLowest(inFlight: seq<Transfer>, first: nat, n: nat)
    ensures CompletedIndex(inFlight + FreshTransfers(first, n)) == CompletedIndex(inFlight)
  {
    var all := inFlight + FreshTransfers(first, n);
    if CompletedIndex(all).Some? {
      var i := CompletedIndex(all).value;
      assert all[i].completion.Some?;
      assert i < |inFlight| && inFlight[i] == all[i];
    }
    if CompletedIndex(inFlight).Some? {
      assert all[CompletedIndex(inFlight).value] == inFlight[CompletedIndex(inFlight).value];
    }
  }

  /** Waiting returns a completed transfer before it handles any event, so a poll of a jammed ring changes nothing but
      the submissions that fill it up. */
  lemma JammedPoll(r: Ring, env: PollEnv)
    requires RingInv(r) && Jammed(r)
    ensures RingInv(Poll(r, env).next) && Jammed(Poll(r, env).next)
    ensures Poll(r, env).next.delivered == r.delivered && !Poll(r, env).outcome.Returned?
  {
    PollKeepsInv(r, env);
    var n := if env.failAt.Some? && env.failAt.value < Missing(r) then env.failAt.value else Missing(r);
    TopUpKeepsLowest(r.inFlight, r.submitted, n);
    TopUpConserves(r, n);
  }

  lemma {:induction false} JammedRun(r: Ring, envs: seq<PollEnv>)
    requires RingInv(r) && Jammed(r)
    ensures RingRun(r, PollsOf(envs)).delivered == r.delivered
    decreases |envs|
  {
    if envs != [] {
      JammedPoll(r, envs[0]);
      assert PollsOf(envs)[1..] == PollsOf(envs[1..]);
      JammedRun(Poll(r, envs[0]).next, envs[1..]);
    }
  }

  /** A poll that finds its lowest completed transfer collectable delivers it. */
  lemma ReadyDelivers(r: Ring)
    requires RingInv(r) && CompletedIndex(r.inFlight).Some? && !Jammed(r)
    ensures CanDeliverAlone(r)
  {
    var env := PollEnv(None, []);
    TopUpKeepsLowest(r.inFlight, r.submitted, Missing(r));
    RingStepKeepsInv(r, Polls(env));
    OneStepRun(r, Polls(env));
    assert PollsOf([env]) == [Polls(env)];
  }

  lemma PendingDelivers(r: Ring)
    requires RingInv(r) && r.layout.Valid() && CompletedIndex(r.inFlight) == None
    ensures CanDeliverAlone(r)
  {
    var poll := FirstSlotPoll(r.layout);
    FirstSlotPollDelivers(r);
    OneStepRun(r, poll);
    assert PollsOf([poll.env]) == [poll];
  }

  /** A loop that is alone on its libusb context, so that transfers complete only while it waits, can go on delivering
      exactly while no transfer is completed or the lowest completed one can be collected: a failed transfer stops it
      for good as soon as it is the lowest completed one, in whatever slot. */
  lemma AloneProgressExactly(r: Ring)
    requires RingInv(r) && r.layout.Valid()
    ensures CanDeliverAlone(r) <==> !Jammed(r)
  {
    if Jammed(r) {
      forall envs
        ensures RingRun(r, PollsOf(envs)).delivered == r.delivered
      {
        JammedRun(r, envs);
      }
    } else if CompletedIndex(r.inFlight) == None {
      PendingDelivers(r);
    } else {
      ReadyDelivers(r);
    }
  }

  /** The two conditions differ: with a failed transfer in a higher slot and slot 0 pending, only someone else handling
      events of the same context lets the ring deliver again. */
  lemma JammedAboveSlotZero(r: Ring)
    requires RingInv(r) && r.layout.Valid() && |r.inFlight| == r.ringSize && Jammed(r)
    ensures CanDeliver(r) <==> r.inFlight[0].completion == None
    ensures !CanDeliverAlone(r)
  {
    ProgressExactly(r);
    AloneProgressExactly(r);
  }

  /** A completion whose every packet has a bad status. */
  function BadCompletion(layout: Layout): Completion {
    EmptyCompletion(layout).(statuses := seq(layout.packetCount, _ => 1))
  }

  /** The first poll of a new ring, in which this slot completes with a bad status. */
  function BadPoll(layout: Layout, slot: nat): PollEnv {
    PollEnv(None, [Handled([SlotDone(slot, BadCompletion(layout))])])
  }

  lemma BadCompletionFails(layout: Layout)
    requires layout.Valid()
    ensures BadCompletion(layout).Fits(layout) && Collect(layout, BadCompletion(layout), 0, []) == Failed(Backend)
  {
    assert !StatusOk(BadCompletion(layout), 0);
  }

  lemma CompletedOnly(inFlight: seq<Transfer>, slot: nat)
    requires slot < |inFlight| && inFlight[slot].completion.Some?
    requires forall i :: 0 <= i < |inFlight| && i != slot ==> inFlight[i].completion == None
    ensures CompletedIndex(inFlight) == Some(slot)
  {
    assert CompletedIndex(inFlight) != None;
  }

  /** Waiting on pending transfers returns the first one that completes. */
  lemma OneCompletes(layout: Layout, pending: seq<Transfer>, done: SlotDone)
    requires done.slot < |pending| && done.completion.Fits(layout)
    requires forall i :: 0 <= i < |pending| ==> pending[i].completion == None
    ensures Wait(layout, pending, [Handled([done])]) ==
            Waited(pending[done.slot := pending[done.slot].(completion := Some(done.completion))], Ok(done.slot))
  {
    var woken := Complete(layout, pending, done);
    CompletedOnly(woken, done.slot);
    assert CompletedIndex(pending) == None;
    assert [done][1..] == [];
    assert CompleteAll(layout, pending, [done]) == CompleteAll(layout, woken, []);
    assert Wait(layout, pending, [Handled([done])]) == Wait(layout, woken, [Handled([done])][1..]);
  }

  lemma BadPollFails(full: Ring, slot: nat)
    requires RingInv(full) && full.layout.Valid() && slot < |full.inFlight|
    requires forall i :: 0 <= i < |full.inFlight| ==> full.inFlight[i].completion == None
    ensures var bad := BadCompletion(full.layout);
      PollFull(full, false, BadPoll(full.layout, slot).events) ==
      Polled(full.(inFlight := full.inFlight[slot := full.inFlight[slot].(completion := Some(bad))]), Failed(Backend))
  {
    BadCompletionFails(full.layout);
    OneCompletes(full.layout, full.inFlight, SlotDone(slot, BadCompletion(full.layout)));
  }

  lemma OneBadJams(r: Ring, slot: nat)
    requires RingInv(r) && r.layout.Valid() && |r.inFlight| == r.ringSize && slot < r.ringSize
    requires r.inFlight[slot].completion == Some(BadCompletion(r.layout))
    requires forall i :: 0 <= i < |r.inFlight| && i != slot ==> r.inFlight[i].completion == None
    ensures Jammed(r) && (Stuck(r) <==> slot == 0)
  {
    BadCompletionFails(r.layout);
    CompletedOnly(r.inFlight, slot);
  }

  lemma FilledRing(layout: Layout, ringSize: nat)
    requires ringSize > 0 && RingInv(NewRing(layout, ringSize))
    ensures var full := TopUp(NewRing(layout, ringSize), ringSize);
      && RingInv(full) && |full.inFlight| == ringSize
      && forall i :: 0 <= i < ringSize ==> full.inFlight[i].completion == None
  {
    TopUpConserves(NewRing(layout, ringSize), ringSize);
    assert TopUp(NewRing(layout, ringSize), ringSize).inFlight == FreshTransfers(0, ringSize);
  }

  lemma BadPollLeaves(layout: Layout, ringSize: nat, slot: nat)
    requires layout.Valid() && slot < ringSize && RingInv(NewRing(layout, ringSize))
    ensures var r := Poll(NewRing(layout, ringSize), BadPoll(layout, slot)).next;
      && r.layout == layout && r.ringSize == ringSize == |r.inFlight|
      && r.inFlight[slot].completion == Some(BadCompletion(layout))
      && forall i :: 0 <= i < ringSize && i != slot ==> r.inFlight[i].completion == None
  {
    FilledRing(layout, ringSize);
    BadPollFails(TopUp(NewRing(layout, ringSize), ringSize), slot);
  }

  /** Both stops are real: for every layout, ring size and slot, one poll of a new ring can leave it jammed, and stuck
      for any handler of events exactly when the slot is 0. */
  lemma FirstPollCanJam(layout: Layout, ringSize: nat, slot: nat)
    requires layout.Valid() && slot < ringSize && RingInv(NewRing(layout, ringSize))
    ensures var r := Poll(NewRing(layout, ringSize), BadPoll(layout, slot)).next;
      RingInv(r) && |r.inFlight| == ringSize == r.ringSize && Jammed(r) && (Stuck(r) <==> slot == 0)
  {
    PollKeepsInv(NewRing(layout, ringSize), BadPoll(layout, slot));
    BadPollLeaves(layout, ringSize, slot);
    OneBadJams(Poll(NewRing(layout, ringSize), BadPoll(layout, slot)).next, slot);
  }

  // ---------------------------------------------------------------- the loop object

  class IsochronousLoop {
    const layout: Layout
    const ringSize: nat
    var inFlight: seq<Transfer>
    var lastPackets: seq<Bytes>
    var lastTotalLen: nat
    var submitted: nat            // numbers the transfers; the source tells them apart by address
    ghost var delivered: seq<nat>

    ghost function View(): Ring
      reads this
    {
      Ring(layout, ringSize, inFlight, submitted, delivered, lastPackets, lastTotalLen)
    }

    ghost predicate Valid()
      reads this
    {
      RingInv(View())
    }

    constructor (layout: Layout, ringSize: nat)
      requires ringSize > 0
      ensures Valid() && View() == NewRing(layout, ringSize)
    {
      this.layout := layout;
      this.ringSize := ringSize;
      inFlight, lastPackets, lastTotalLen := [], [], 0;
      submitted, delivered := 0, [];
      new;
      NewRingInv(layout, ringSize);
    }

    /** `submit_one`. */
    method SubmitOne(fails: bool) returns (r: Result<()>)
      modifies this
      ensures r == if fails then Err(Backend) else Ok(())
      ensures View() == if fails then old(View()) else TopUp(old(View()), 1)
    {
      if fails {
        return Err(Backend);
      }
      inFlight := inFlight + [Transfer(submitted, None)];
      submitted := submitted + 1;
      assert FreshTransfers(old(submitted), 1) == [Transfer(old(submitted), None)];
      r := Ok(());
    }

    /** `wait_any`. */
    method WaitAny(events: seq<Event>) returns (r: Result<nat>)
      modifies this`inFlight
      ensures Waited(inFlight, r) == Wait(layout, old(inFlight), events)
    {
      var round := 0;
      while true
        invariant round <= |events|
        invariant Wait(layout, old(inFlight), events) == Wait(layout, inFlight, events[round..])
        decreases |events| - round
      {
        var index := CompletedIndex(inFlight);
        if index.Some? {
          return Ok(index.value);
        }
        if round == |events| {
          return Err(Timeout);
        }
        assert events[round..][0] == events[round] && events[round..][1..] == events[round + 1..];
        match events[round]
        case HandlingError => return Err(Backend);
        case Handled(done) =>
          inFlight := CompleteAll(layout, inFlight, done);
          round := round + 1;
      }
    }

    /** The top-up loop: one submission per missing slot, up to the first that fails. */
    method FillRing(failAt: Option<nat>) returns (submits: nat, ok: bool)
      modifies this
      ensures ok <==> !(failAt.Some? && failAt.value < Missing(old(View())))
      ensures submits == if ok then Missing(old(View())) else failAt.value
      ensures View() == TopUp(old(View()), submits)
    {
      ghost var start := View();
      submits := 0;
      while |inFlight| < ringSize
        invariant submits <= Missing(start) && View() == TopUp(start, submits)
        invariant failAt.Some? ==> submits <= failAt.value
        decreases ringSize - |inFlight|
      {
        var result := SubmitOne(failAt == Some(submits));
        if result.Err? {
          return submits, false;
        }
        TopUpOnce(start, submits);
        submits := submits + 1;
      }
      ok := true;
    }

    /** The part of `poll_iso` after the top-up loop. */
    method PollFilled(fails: bool, events: seq<Event>) returns (r: Outcome<Collected>)
      requires Valid()
      modifies this
      ensures Polled(View(), r) == PollFull(old(View()), fails, events)
    {
      WaitFacts(layout, inFlight, events);
      var completedIndex := WaitAny(events);
      if completedIndex.Err? {
        return Failed(completedIndex.error);
      }
      var slot := completedIndex.value;
      var completed := ToCompleted(layout, inFlight[slot].completion.value);
      if !completed.Returned? {
        return completed;
      }
      if fails {
        return Failed(Backend);
      }
      delivered := delivered + [inFlight[slot].id];
      inFlight := inFlight[slot := Transfer(submitted, None)];
      submitted := submitted + 1;
      lastPackets := completed.value.packets;
      lastTotalLen := completed.value.totalLen;
      r := completed;
    }

    /** `poll_iso`. */
    method PollIso(env: PollEnv) returns (r: Outcome<Collected>)
      requires Valid()
      modifies this
      ensures Valid()
      ensures Polled(View(), r) == Poll(old(View()), env)
    {
      PollKeepsInv(View(), env);
      TopUpConserves(View(), Missing(View()));
      var submits, ok := FillRing(env.failAt);
      if !ok {
        return Failed(Backend);
      }
      r := PollFilled(env.failAt == Some(submits), env.events);
    }
  }

  lemma TopUpOnce(r: Ring, n: nat)
    ensures TopUp(TopUp(r, n), 1) == TopUp(r, n + 1)
  {
    assert FreshTransfers(r.submitted, n) + FreshTransfers(r.submitted + n, 1) == FreshTransfers(r.submitted, n + 1);
    ConcatAssociative(r.inFlight, FreshTransfers(r.submitted, n), FreshTransfers(r.submitted + n, 1));
  }
}
