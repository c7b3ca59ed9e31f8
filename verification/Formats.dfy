/** Frame formats and the byte length each one implies (format.rs). */
module Formats {
  import opened Basics

  datatype PixelFormat = Mjpeg | Yuyv | H264 | Nv12 | Rgba {
    predicate Compressed() { Mjpeg? || H264? }
  }

  datatype FrameFormat = FrameFormat(pixelFormat: PixelFormat, width: U32, height: U32, fps: U32) {

    /** What the constructor guarantees; the fields are private. */
    predicate Valid() { width > 0 && height > 0 && fps > 0 }

    function CheckedPixelLen(bytesPerPixel: U32): Option<nat> {
      match CheckedMul(width, height)
      case None => None
      case Some(pixels) =>
        match CheckedMul(pixels, bytesPerPixel)
        case None => None
        case Some(bytes) => Some(bytes)
    }

    function ExpectedLen(): Option<nat> {
      match pixelFormat
      case Mjpeg | H264 => None
      case Yuyv => CheckedPixelLen(2)
      case Nv12 =>
        (match CheckedPixelLen(3)
         case None => None
         case Some(len) => Some(len / 2))
      case Rgba => CheckedPixelLen(4)
    }

    function ValidateFrameLen(len: nat): Result<()> {
      match ExpectedLen()
      case Some(expected) => if len != expected then Err(InvalidFrameSize(len, expected)) else Ok(())
      case None => Ok(())
    }
  }

  function NewFormat(pixelFormat: PixelFormat, width: U32, height: U32, fps: U32): (r: Result<FrameFormat>)
    ensures r.Ok? <==> width > 0 && height > 0 && fps > 0
    ensures r.Ok? ==> r.value.Valid() && r.value.pixelFormat == pixelFormat && r.value.fps == fps
    ensures r.Ok? ==> r.value.width == width && r.value.height == height
    ensures r.Err? ==> r.error == InvalidFrameFormat
  {
    if width == 0 then Err(InvalidFrameFormat)
    else if height == 0 then Err(InvalidFrameFormat)
    else if fps == 0 then Err(InvalidFrameFormat)
    else Ok(FrameFormat(pixelFormat, width, height, fps))
  }

  /** Bytes per two pixels of an uncompressed format. */
  function BytesPerTwoPixels(p: PixelFormat): nat
    requires !p.Compressed()
  {
    match p
    case Yuyv => 4
    case Nv12 => 3
    case Rgba => 8
  }

  /** The multiplier whose 32-bit overflow makes the length unknown: for NV12 it is applied before halving. */
  function CheckedFactor(p: PixelFormat): nat
    requires !p.Compressed()
  {
    match p
    case Yuyv => 2
    case Nv12 => 3
    case Rgba => 4
  }

  /** The expected length is known exactly for the raw formats whose product fits in 32 bits. */
  lemma ExpectedLenExact(f: FrameFormat)
    requires f.Valid()
    ensures f.pixelFormat.Compressed() ==> f.ExpectedLen() == None
    ensures !f.pixelFormat.Compressed() ==>
      f.ExpectedLen() == if f.width * f.height * CheckedFactor(f.pixelFormat) < U32_LIMIT
                         then Some(f.width * f.height * BytesPerTwoPixels(f.pixelFormat) / 2)
                         else None
  {
    var pixels := f.width * f.height;
    if !f.pixelFormat.Compressed() && pixels >= U32_LIMIT {
      assert pixels * CheckedFactor(f.pixelFormat) >= pixels;
    }
  }
}
