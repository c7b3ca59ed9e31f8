/** Frame buffers, frames and the bounded frame channel (frame.rs). */
module Frames {
  import opened Basics
  import opened Formats

  type CameraId = string

  datatype FrameBuffer = FrameBuffer(format: FrameFormat, data: Bytes)

  /** `FrameBuffer::new`. */
  function NewFrameBuffer(format: FrameFormat, data: Bytes): Result<FrameBuffer> {
    match format.ValidateFrameLen(|data|)
    case Err(e) => Err(e)
    case Ok(_) => Ok(FrameBuffer(format, data))
  }

  /** A buffer is made exactly when the length is not known or is the one given, and holds what it was given. */
  lemma FrameBufferExactly(format: FrameFormat, data: Bytes)
    ensures var r := NewFrameBuffer(format, data);
      && (r.Ok? <==> format.ExpectedLen() == None || format.ExpectedLen() == Some(|data|))
      && (r.Ok? ==> r.value.format == format && r.value.data == data)
      && (r.Err? ==> r.error == InvalidFrameSize(|data|, format.ExpectedLen().value))
  {
  }

  datatype Frame = Frame(cameraId: CameraId, sequence: nat, buffer: FrameBuffer)

  /** The environment's answer to one `FrameSink::push`. */
  datatype SinkReply = Accepts | Refuses(error: EngineError)

  /** One frame offered to a sink, with the answer. */
  datatype Offer = Offer(frame: Frame, reply: SinkReply)

  /** The frames a sink kept, in order. */
  function Kept(offers: seq<Offer>): seq<Frame> {
    if offers == [] then []
    else (if offers[0].reply.Accepts? then [offers[0].frame] else []) + Kept(offers[1..])
  }

  lemma {:induction false} KeptAppend(a: seq<Offer>, b: seq<Offer>)
    ensures Kept(a + b) == Kept(a) + Kept(b)
  {
    if a == [] {
      assert a + b == b;
    } else {
      assert (a + b)[0] == a[0] && (a + b)[1..] == a[1..] + b;
      KeptAppend(a[1..], b);
      ConcatAssociative(if a[0].reply.Accepts? then [a[0].frame] else [], Kept(a[1..]), Kept(b));
    }
  }

  /** A sink that records what it was offered. */
  class FrameSink {
    var offers: seq<Offer>

    constructor ()
      ensures offers == []
    {
      offers := [];
    }

    method Push(frame: Frame, reply: SinkReply) returns (r: Result<()>)
      modifies this
      ensures offers == old(offers) + [Offer(frame, reply)]
      ensures r == if reply.Accepts? then Ok(()) else Err(reply.error)
    {
      offers := offers + [Offer(frame, reply)];
      r := if reply.Accepts? then Ok(()) else Err(reply.error);
    }
  }
}
