/** The deterministic frame generator (fake.rs). */
module FakeFrames {
  import opened Basics
  import opened Formats
  import opened Frames

  datatype CameraConfig = CameraConfig(cameraId: CameraId, format: FrameFormat, frameCount: Option<nat>)

  // ---------------------------------------------------------------- payloads

  /** Byte k of an RGBA test picture: pixel number in red and green, frame number in blue, opaque. */
  function RgbaByte(sequence: nat, k: nat): Byte {
    var pixel := k / 4;
    if k % 4 == 0 then pixel % 0x100
    else if k % 4 == 1 then pixel / 0x100 % 0x100
    else if k % 4 == 2 then sequence % 0x100
    else 255
  }

  function Constant(len: nat, sequence: nat): (r: Bytes)
    ensures |r| == len && forall k :: 0 <= k < len ==> r[k] == sequence % 0x100
  {
    seq<Byte>(len, _ => sequence % 0x100)
  }

  function Ramp(len: nat, sequence: nat): (r: Bytes)
    ensures |r| == len && forall k :: 0 <= k < len ==> r[k] == (k + sequence) % 0x100
  {
    seq<Byte>(len, k requires 0 <= k < len => (k + sequence) % 0x100)
  }

  function RgbaTest(len: nat, sequence: nat): (r: Bytes)
    ensures |r| == len && forall k :: 0 <= k < len ==> r[k] == RgbaByte(sequence, k)
  {
    seq<Byte>(len, k requires 0 <= k < len => RgbaByte(sequence, k))
  }

  /** The payload of a frame; `None` where the generator panics because the length is not known. */
  function FakePayload(format: FrameFormat, sequence: nat): Option<Bytes> {
    match format.pixelFormat
    case Mjpeg | H264 => Some(Constant(64, sequence))
    case Yuyv | Nv12 =>
      (match format.ExpectedLen()
       case None => None
       case Some(len) => Some(Ramp(len, sequence)))
    case Rgba =>
      (match format.ExpectedLen()
       case None => None
       case Some(len) => Some(RgbaTest(len, sequence)))
  }

  method RawPattern(format: FrameFormat, sequence: nat) returns (r: Option<Bytes>)
    requires format.pixelFormat.Yuyv? || format.pixelFormat.Nv12?
    ensures r == FakePayload(format, sequence)
    ensures r.Some? ==> format.ExpectedLen() == Some(|r.value|) && IsRamp(sequence, r.value)
  {
    var len := format.ExpectedLen();
    if len == None {
      return None;
    }
    var data := new Byte[len.value](_ => 0);
    for index := 0 to len.value
      invariant forall k :: 0 <= k < index ==> data[k] == (k + sequence) % 0x100
    {
      data[index] := (index + sequence) % 0x100;
    }
    assert data[..] == Ramp(len.value, sequence);
    r := Some(data[..]);
  }

  method RgbaPattern(format: FrameFormat, sequence: nat) returns (r: Option<Bytes>)
    requires format.Valid() && format.pixelFormat.Rgba?
    ensures r == FakePayload(format, sequence)
    ensures r.Some? ==> format.ExpectedLen() == Some(|r.value|) && IsPicture(sequence, r.value)
  {
    var len := format.ExpectedLen();
    if len == None {
      return None;
    }
    ExpectedLenExact(format);
    var pixels := format.width * format.height;
    assert len.value == 4 * pixels;
    var data := new Byte[len.value](_ => 0);
    FillRgba(data, pixels, sequence);
    assert data[..] == RgbaTest(len.value, sequence);
    RgbaTestIsPicture(len.value, sequence);
    r := Some(data[..]);
  }

  /** The pixel loop. */
  method FillRgba(data: array<Byte>, pixels: nat, sequence: nat)
    requires data.Length == 4 * pixels
    modifies data
    ensures forall k :: 0 <= k < 4 * pixels ==> data[k] == RgbaByte(sequence, k)
  {
    for pixel := 0 to pixels
      invariant forall k :: 0 <= k < 4 * pixel ==> data[k] == RgbaByte(sequence, k)
    {
      PixelBytes(sequence, pixel);
      var offset := pixel * 4;
      data[offset] := pixel % 0x100;
      data[offset + 1] := pixel / 0x100 % 0x100;
      data[offset + 2] := sequence % 0x100;
      data[offset + 3] := 255;
    }
  }

  lemma PixelBytes(sequence: nat, pixel: nat)
    ensures RgbaByte(sequence, 4 * pixel) == pixel % 0x100
    ensures RgbaByte(sequence, 4 * pixel + 1) == pixel / 0x100 % 0x100
    ensures RgbaByte(sequence, 4 * pixel + 2) == sequence % 0x100
    ensures RgbaByte(sequence, 4 * pixel + 3) == 255
  {
    assert 4 * pixel / 4 == pixel && (4 * pixel + 1) / 4 == pixel;
    assert (4 * pixel + 1) % 4 == 1 && (4 * pixel + 2) % 4 == 2 && (4 * pixel + 3) % 4 == 3;
  }

  /** The generator panics exactly for a raw format whose length overflows 32 bits; any payload it makes passes
      the frame buffer's length check. */
  lemma PayloadDefinedExactly(format: FrameFormat, sequence: nat)
    requires format.Valid()
    ensures FakePayload(format, sequence).Some? <==>
      (!format.pixelFormat.Compressed() ==>
        format.width * format.height * CheckedFactor(format.pixelFormat) < U32_LIMIT)
    ensures FakePayload(format, sequence).Some? ==>
      NewFrameBuffer(format, FakePayload(format, sequence).value) ==
      Ok(FrameBuffer(format, FakePayload(format, sequence).value))
  {
    ExpectedLenExact(format);
  }

  /** What the payload of frame `sequence` must be, byte by byte. */
  predicate IsPayload(format: FrameFormat, sequence: nat, data: Bytes) {
    match format.pixelFormat
    case Mjpeg | H264 => |data| == 64 && forall k :: 0 <= k < |data| ==> data[k] == sequence % 0x100
    case Yuyv => |data| == 2 * (format.width * format.height) && IsRamp(sequence, data)
    case Nv12 => |data| == 3 * (format.width * format.height) / 2 && IsRamp(sequence, data)
    case Rgba => |data| == 4 * (format.width * format.height) && IsPicture(sequence, data)
  }

  predicate IsRamp(sequence: nat, data: Bytes) {
    forall k :: 0 <= k < |data| ==> data[k] == (k + sequence) % 0x100
  }

  /** Pixel p is (p, p / 256, sequence, 255), each modulo 256. */
  predicate IsPicture(sequence: nat, data: Bytes) {
    forall p: nat :: p < |data| / 4 ==>
      data[4 * p..4 * p + 4] == [p % 0x100, p / 0x100 % 0x100, sequence % 0x100, 255]
  }

  lemma RgbaTestIsPicture(len: nat, sequence: nat)
    ensures IsPicture(sequence, RgbaTest(len, sequence))
  {
    var data := RgbaTest(len, sequence);
    forall p: nat | p < |data| / 4
      ensures data[4 * p..4 * p + 4] == [p % 0x100, p / 0x100 % 0x100, sequence % 0x100, 255]
    {
      PixelBytes(sequence, p);
    }
  }

  /** Whatever payload the generator makes, it is the one its format and number call for. */
  lemma PayloadBytes(format: FrameFormat, sequence: nat)
    requires format.Valid() && FakePayload(format, sequence).Some?
    ensures IsPayload(format, sequence, FakePayload(format, sequence).value)
  {
    ExpectedLenExact(format);
    if format.pixelFormat.Rgba? {
      RgbaTestIsPicture(|FakePayload(format, sequence).value|, sequence);
    }
  }

  lemma SameRemainder(k: nat, s: nat, t: nat)
    requires s % 0x100 == t % 0x100
    ensures (k + s) % 0x100 == (k + t) % 0x100
  {
    var q := s / 0x100 - t / 0x100;
    assert s == t + 0x100 * q;
  }

  lemma RampsEqual(len: nat, s: nat, t: nat)
    requires s % 0x100 == t % 0x100
    ensures Ramp(len, s) == Ramp(len, t)
  {
    forall k | 0 <= k < len
      ensures Ramp(len, s)[k] == Ramp(len, t)[k]
    {
      SameRemainder(k, s, t);
    }
  }

  lemma PayloadLongEnough(format: FrameFormat, sequence: nat)
    requires format.Valid() && FakePayload(format, sequence).Some?
    ensures |FakePayload(format, sequence).value| >= if format.pixelFormat.Rgba? then 4 else 1
  {
    ExpectedLenExact(format);
    assert format.width * format.height >= 1;
  }

  /** Two frames of one camera carry equal payloads exactly when their numbers agree modulo 256. */
  lemma PayloadIdentifiesSequence(format: FrameFormat, s: nat, t: nat)
    requires format.Valid() && FakePayload(format, s).Some? && FakePayload(format, t).Some?
    ensures FakePayload(format, s) == FakePayload(format, t) <==> s % 0x100 == t % 0x100
  {
    PayloadLongEnough(format, s);
    var a, b := FakePayload(format, s).value, FakePayload(format, t).value;
    var probe := if format.pixelFormat.Rgba? then 2 else 0;
    assert a[probe] == s % 0x100 && b[probe] == t % 0x100;
    if s % 0x100 == t % 0x100 {
      RampsEqual(|a|, s, t);
      assert RgbaTest(|a|, s) == RgbaTest(|a|, t);
      assert Constant(|a|, s) == Constant(|a|, t);
    }
  }

  // ---------------------------------------------------------------- generator

  /** Frame number `sequence` of a camera, where the generator does not panic. */
  function FrameNumber(config: CameraConfig, sequence: nat): Outcome<Frame> {
    match FakePayload(config.format, sequence)
    case None => Panicked
    case Some(data) =>
      match NewFrameBuffer(config.format, data)
      case Err(_) => Panicked
      case Ok(buffer) => Returned(Frame(config.cameraId, sequence, buffer))
  }

  /** A camera's frame number n: the number, the camera, the format and the payload it carries. */
  predicate IsFrame(config: CameraConfig, n: nat, frame: Frame) {
    && frame.sequence == n
    && frame.cameraId == config.cameraId
    && frame.buffer.format == config.format
    && IsPayload(config.format, n, frame.buffer.data)
  }

  lemma FrameCarriesNumber(config: CameraConfig, sequence: nat)
    requires config.format.Valid() && FrameNumber(config, sequence).Returned?
    ensures IsFrame(config, sequence, FrameNumber(config, sequence).value)
  {
    PayloadBytes(config.format, sequence);
  }

  lemma FrameNumberPanicsExactly(config: CameraConfig, sequence: nat)
    requires config.format.Valid()
    ensures FrameNumber(config, sequence).Panicked? <==> FakePayload(config.format, sequence) == None
    ensures FrameNumber(config, sequence).Panicked? <==> FrameNumber(config, 0).Panicked?
    ensures !FrameNumber(config, sequence).Failed?
  {
    PayloadDefinedExactly(config.format, sequence);
    PayloadDefinedExactly(config.format, 0);
  }

  class FakeFrameGenerator {
    const format: FrameFormat
    var sequence: nat

    constructor (format: FrameFormat)
      ensures this.format == format && sequence == 0
    {
      this.format := format;
      sequence := 0;
    }

    method NextFrame(cameraId: CameraId) returns (r: Outcome<Frame>)
      requires format.Valid()
      modifies this
      ensures sequence == old(sequence) + 1
      ensures r == FrameNumber(CameraConfig(cameraId, format, None), old(sequence))
      ensures r.Returned? ==> IsFrame(CameraConfig(cameraId, format, None), old(sequence), r.value)
      ensures r.Returned? ==> r.value.sequence == old(sequence) && r.value.cameraId == cameraId
    {
      var number := sequence;
      sequence := sequence + 1;
      var data: Option<Bytes>;
      match format.pixelFormat {
        case Mjpeg | H264 => data := Some(Constant(64, number));
        case Yuyv | Nv12 => data := RawPattern(format, number);
        case Rgba => data := RgbaPattern(format, number);
      }
      if data == None {
        return Panicked;
      }
      var buffer := NewFrameBuffer(format, data.value);
      r := if buffer.Ok? then Returned(Frame(cameraId, number, buffer.value)) else Panicked;
      if r.Returned? {
        FrameCarriesNumber(CameraConfig(cameraId, format, None), number);
      }
    }
  }
}
