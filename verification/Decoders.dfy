/** YUYV and NV12 to RGBA decoding and the adapter that pushes decoded frames into a sink (decode.rs). */
module Decoders {
  import opened Basics
  import opened Formats
  import opened Frames

  // ---------------------------------------------------------------- colour conversion

  datatype Colour = Colour(r: Byte, g: Byte, b: Byte, a: Byte)

  const BLANK := Colour(0, 0, 0, 0)

  function ClampU8(value: int): Byte {
    if value < 0 then 0 else if value > 255 then 255 else value
  }

  /** Fixed point with 8 fractional bits; `>> 8` on a signed value rounds down, as `/ 256` does here. */
  function YuvToRgb(y: Byte, u: Byte, v: Byte): Colour {
    var c, d, e := y - 16, u - 128, v - 128;
    Colour(ClampU8((298 * c + 409 * e + 128) / 256),
           ClampU8((298 * c - 100 * d - 208 * e + 128) / 256),
           ClampU8((298 * c + 516 * d + 128) / 256),
           255)
  }

  function ClampReal(value: real): real {
    if value < 0.0 then 0.0 else if value > 255.0 then 255.0 else value
  }

  predicate Near(channel: Byte, exact: real) {
    -0.79 < channel as real - ClampReal(exact) < 0.79
  }

  /** The limited-range conversion of section 2.5 of ITU-R BT.601-7, without rounding: luma spans 219 steps,
      chroma 224, and the luma weights are 0.299, 0.587 and 0.114. */
  function ExactLuma(y: Byte): real { 255.0 / 219.0 * (y - 16) as real }

  function ExactRed(y: Byte, v: Byte): real {
    ExactLuma(y) + 255.0 / 224.0 * 1.402 * (v - 128) as real
  }

  function ExactGreen(y: Byte, u: Byte, v: Byte): real {
    ExactLuma(y) - 255.0 / 224.0 * (1.772 * 0.114 / 0.587) * (u - 128) as real
                 - 255.0 / 224.0 * (1.402 * 0.299 / 0.587) * (v - 128) as real
  }

  function ExactBlue(y: Byte, u: Byte): real {
    ExactLuma(y) + 255.0 / 224.0 * 1.772 * (u - 128) as real
  }

  lemma RoundedNear(fixed: int, exact: real)
    requires -0.29 < fixed as real / 256.0 - exact < 0.29
    ensures Near(ClampU8((fixed + 128) / 256), exact)
  {
    var q := (fixed + 128) / 256;
    assert 256 * q <= fixed + 128 < 256 * q + 256;
    assert 256.0 * q as real <= fixed as real + 128.0 < 256.0 * q as real + 256.0;
    assert -0.79 < q as real - exact < 0.79;
  }

  /** An opaque colour within one level, even 0.79 of one, of the exact clamped conversion in every channel: half a
      level for rounding and what the 8 fractional bits of the coefficients lose. */
  ghost predicate TrueTo(c: Colour, y: Byte, u: Byte, v: Byte) {
    && Near(c.r, ExactRed(y, v))
    && Near(c.g, ExactGreen(y, u, v))
    && Near(c.b, ExactBlue(y, u))
    && c.a == 255
  }

  lemma RedNear(y: Byte, u: Byte, v: Byte)
    ensures Near(YuvToRgb(y, u, v).r, ExactRed(y, v))
  {
    RoundedNear(298 * (y - 16) + 409 * (v - 128), ExactRed(y, v));
  }

  lemma GreenNear(y: Byte, u: Byte, v: Byte)
    ensures Near(YuvToRgb(y, u, v).g, ExactGreen(y, u, v))
  {
    RoundedNear(298 * (y - 16) - 100 * (u - 128) - 208 * (v - 128), ExactGreen(y, u, v));
  }

  lemma BlueNear(y: Byte, u: Byte, v: Byte)
    ensures Near(YuvToRgb(y, u, v).b, ExactBlue(y, u))
  {
    RoundedNear(298 * (y - 16) + 516 * (u - 128), ExactBlue(y, u));
  }

  /** The fixed-point conversion is within one level of the exact clamped one, for every input. */
  lemma ColourWithinOne(y: Byte, u: Byte, v: Byte)
    ensures TrueTo(YuvToRgb(y, u, v), y, u, v)
  {
    RedNear(y, u, v);
    GreenNear(y, u, v);
    BlueNear(y, u, v);
  }

  // ---------------------------------------------------------------- images as pixel functions

  function Channels(c: Colour): Bytes { [c.r, c.g, c.b, c.a] }

  /** The pixel stored at position p of an image of four bytes a pixel. */
  function PixelAt(image: Bytes, p: nat): Colour
    requires 4 * p + 4 <= |image|
  {
    Colour(image[4 * p], image[4 * p + 1], image[4 * p + 2], image[4 * p + 3])
  }

  lemma PicturesEqual(a: Bytes, b: Bytes, pixels: nat)
    requires |a| == |b| == 4 * pixels
    requires forall p: nat :: p < pixels ==> PixelAt(a, p) == PixelAt(b, p)
    ensures a == b
  {
    forall k | 0 <= k < |a|
      ensures a[k] == b[k]
    {
      assert PixelAt(a, k / 4) == PixelAt(b, k / 4) && k == 4 * (k / 4) + k % 4;
    }
  }

  predicate Stored(output: array<Byte>, p: nat, c: Colour)
    requires 4 * p + 4 <= output.Length
    reads output
  {
    Colour(output[4 * p], output[4 * p + 1], output[4 * p + 2], output[4 * p + 3]) == c
  }

  method StorePixel(output: array<Byte>, ghost p: nat, offset: nat, c: Colour)
    requires offset == 4 * p && offset + 4 <= output.Length
    modifies output
    ensures Stored(output, p, c)
    ensures forall k :: 0 <= k < output.Length && !(offset <= k < offset + 4) ==> output[k] == old(output[k])
  {
    output[offset] := c.r;
    output[offset + 1] := c.g;
    output[offset + 2] := c.b;
    output[offset + 3] := c.a;
  }

  function At(input: Bytes, i: nat): Byte { if i < |input| then input[i] else 0 }

  /** Pixel p of a YUYV frame: two pixels share the four bytes y0 u y1 v, so luma sits at even offsets;
      an odd last pixel has no group. */
  function YuyvPixel(input: Bytes, p: nat): Colour {
    if p / 2 * 4 + 3 < |input|
    then YuvToRgb(input[2 * p], input[p / 2 * 4 + 1], input[p / 2 * 4 + 3])
    else BLANK
  }

  function YuyvImage(pixels: nat, input: Bytes): (r: Bytes)
    ensures |r| == 4 * pixels
  {
    if pixels == 0 then [] else YuyvImage(pixels - 1, input) + Channels(YuyvPixel(input, pixels - 1))
  }

  lemma {:induction false} YuyvImageAt(pixels: nat, input: Bytes, p: nat)
    requires p < pixels
    ensures PixelAt(YuyvImage(pixels, input), p) == YuyvPixel(input, p)
  {
    if p < pixels - 1 {
      YuyvImageAt(pixels - 1, input, p);
      AppendKeepsPixel(YuyvImage(pixels - 1, input), YuyvPixel(input, pixels - 1), p);
    }
  }

  lemma AppendKeepsPixel(image: Bytes, c: Colour, p: nat)
    requires 4 * p + 4 <= |image|
    ensures PixelAt(image + Channels(c), p) == PixelAt(image, p)
  {
  }

  /** Offset, in the chroma plane, of the pair for row y and column x. */
  function UvIndex(width: nat, y: nat, x: nat): nat { (y / 2 * (width / 2) + x / 2) * 2 }

  function Nv12Pixel(width: nat, lumaLen: nat, input: Bytes, p: nat): Colour
    requires width > 0
  {
    var uv := lumaLen + UvIndex(width, p / width, p % width);
    YuvToRgb(At(input, p), At(input, uv), At(input, uv + 1))
  }

  /** The first so many pixels of the picture. */
  function Nv12Pixels(width: nat, lumaLen: nat, input: Bytes, pixels: nat): (r: Bytes)
    requires width > 0
    ensures |r| == 4 * pixels
  {
    if pixels == 0 then []
    else Nv12Pixels(width, lumaLen, input, pixels - 1) + Channels(Nv12Pixel(width, lumaLen, input, pixels - 1))
  }

  function Nv12Image(width: nat, height: nat, input: Bytes): (r: Bytes)
    requires width > 0
    ensures |r| == 4 * (width * height)
  {
    Nv12Pixels(width, width * height, input, width * height)
  }

  lemma {:induction false} Nv12PixelsAt(width: nat, lumaLen: nat, input: Bytes, pixels: nat, p: nat)
    requires width > 0 && p < pixels
    ensures PixelAt(Nv12Pixels(width, lumaLen, input, pixels), p) == Nv12Pixel(width, lumaLen, input, p)
  {
    if p < pixels - 1 {
      Nv12PixelsAt(width, lumaLen, input, pixels - 1, p);
      AppendKeepsPixel(Nv12Pixels(width, lumaLen, input, pixels - 1), Nv12Pixel(width, lumaLen, input, pixels - 1), p);
    }
  }

  lemma Nv12ImageAt(width: nat, height: nat, input: Bytes, p: nat)
    requires width > 0 && p < width * height
    ensures PixelAt(Nv12Image(width, height, input), p) == Nv12Pixel(width, width * height, input, p)
  {
    Nv12PixelsAt(width, width * height, input, width * height, p);
  }

  // ---------------------------------------------------------------- YUYV

  /** What `YuyvToRgbaDecoder::decode` returns. */
  function YuyvOutcome(format: FrameFormat, input: Bytes): Outcome<Bytes> {
    var pixels := format.width * format.height;
    if pixels >= U32_LIMIT || pixels * 2 >= U32_LIMIT then Failed(InvalidFrameFormat)
    else if |input| != pixels * 2 then Failed(InvalidFrameSize(|input|, pixels * 2))
    else Returned(YuyvImage(pixels, input))
  }

  lemma GroupPixels(input: Bytes, index: nat)
    requires index < |input| / 4
    ensures YuyvPixel(input, 2 * index) == YuvToRgb(input[index * 4], input[index * 4 + 1], input[index * 4 + 3])
    ensures YuyvPixel(input, 2 * index + 1) ==
            YuvToRgb(input[index * 4 + 2], input[index * 4 + 1], input[index * 4 + 3])
  {
    assert 2 * index / 2 == index && (2 * index + 1) / 2 == index;
  }

  lemma UngroupedPixel(input: Bytes, p: nat)
    requires p >= 2 * (|input| / 4)
    ensures YuyvPixel(input, p) == BLANK
  {
  }

  /** The chunk loop: every complete group of four bytes becomes two pixels, the rest of the output is untouched. */
  method ConvertGroups(input: Bytes, output: array<Byte>)
    requires output.Length == 2 * |input|
    modifies output
    ensures forall p: nat :: p < 2 * (|input| / 4) ==> Stored(output, p, YuyvPixel(input, p))
    ensures forall k :: 8 * (|input| / 4) <= k < output.Length ==> output[k] == old(output[k])
  {
    for index := 0 to |input| / 4
      invariant forall p: nat :: p < 2 * index ==> Stored(output, p, YuyvPixel(input, p))
      invariant forall k :: 8 * index <= k < output.Length ==> output[k] == old(output[k])
    {
      var y0, u, y1, v := input[index * 4], input[index * 4 + 1], input[index * 4 + 2], input[index * 4 + 3];
      var offset := index * 8;
      GroupPixels(input, index);
      var first, second := YuvToRgb(y0, u, v), YuvToRgb(y1, u, v);
      StorePixel(output, 2 * index, offset, first);
      StorePixel(output, 2 * index + 1, offset + 4, second);
      forall p: nat | p < 2 * index + 2
        ensures Stored(output, p, YuyvPixel(input, p))
      {
        if p >= 2 * index {
          assert p == 2 * index || p == 2 * index + 1;
        }
      }
    }
  }

  method DecodeYuyv(format: FrameFormat, input: Bytes) returns (r: Outcome<Bytes>)
    ensures r == YuyvOutcome(format, input)
  {
    var pixels := CheckedMul(format.width, format.height);
    if pixels == None {
      return Failed(InvalidFrameFormat);
    }
    var doubled := CheckedMul(pixels.value, 2);
    if doubled == None {
      return Failed(InvalidFrameFormat);
    }
    var expected := doubled.value;
    if |input| != expected {
      return Failed(InvalidFrameSize(|input|, expected));
    }

    var output := new Byte[expected * 2](_ => 0);
    ConvertGroups(input, output);
    forall p: nat | p < pixels.value
      ensures PixelAt(output[..], p) == PixelAt(YuyvImage(pixels.value, input), p)
    {
      YuyvImageAt(pixels.value, input, p);
      if p < 2 * (|input| / 4) {
        assert Stored(output, p, YuyvPixel(input, p));
      } else {
        UngroupedPixel(input, p);
        assert Stored(output, p, BLANK);
      }
    }
    PicturesEqual(output[..], YuyvImage(pixels.value, input), pixels.value);
    r := Returned(output[..]);
  }

  // ---------------------------------------------------------------- NV12

  /** Every read of the row and column loop is inside the input. */
  ghost predicate ReadsInRange(width: nat, height: nat, len: nat) {
    forall y, x :: 0 <= y < height && 0 <= x < width ==> ReadInRange(width, height, len, y, x)
  }

  predicate ReadInRange(width: nat, height: nat, len: nat, y: nat, x: nat) {
    y * width + x < len && width * height + UvIndex(width, y, x) + 1 < len
  }

  /** What `Nv12ToRgbaDecoder::decode` returns. The sum of the plane sizes is an unchecked 32-bit addition:
      `overflowChecks` says whether the build traps on its overflow or wraps. */
  ghost function Nv12Outcome(format: FrameFormat, input: Bytes, overflowChecks: bool): Outcome<Bytes>
    requires format.Valid()
  {
    var luma := format.width * format.height;
    var sum := luma + luma / 2;
    if luma >= U32_LIMIT then Failed(InvalidFrameFormat)
    else if sum >= U32_LIMIT && overflowChecks then Panicked
    else if |input| != sum % U32_LIMIT then Failed(InvalidFrameSize(|input|, sum % U32_LIMIT))
    else if ReadsInRange(format.width, format.height, |input|)
    then Returned(Nv12Image(format.width, format.height, input))
    else Panicked
  }

  lemma DivModUnique(n: nat, d: nat, q: nat, r: nat)
    requires r < d && n == q * d + r
    ensures n / d == q && n % d == r
  {
    QuotientUnique(d, q, r, n / d, n % d);
  }

  lemma QuotientUnique(d: nat, q: nat, r: nat, q': nat, r': nat)
    requires r < d && r' < d && q * d + r == q' * d + r'
    ensures q == q' && r == r'
  {
    if q < q' {
      MulStep(q, q', d);
    } else if q' < q {
      MulStep(q', q, d);
    }
  }

  /** Row-major position of a pixel: in range, and its row and column are recovered by division. */
  lemma RowMajor(width: nat, height: nat, y: nat, x: nat)
    requires x < width && y < height
    ensures y * width + x < width * height
    ensures (y * width + x) / width == y && (y * width + x) % width == x
  {
    MulStep(y, height, width);
    DivModUnique(y * width + x, width, y, x);
  }

  /** The column loop of row y: stops at the first read outside the input. */
  method ConvertRow(width: nat, height: nat, y: nat, input: Bytes, output: array<Byte>) returns (inRange: bool)
    requires y < height && output.Length == 4 * (width * height)
    requires y * width + width <= width * height
    modifies output
    ensures inRange <==> forall x :: 0 <= x < width ==> ReadInRange(width, height, |input|, y, x)
    ensures forall k :: 0 <= k < 4 * (y * width) ==> output[k] == old(output[k])
    ensures inRange ==> forall p: nat :: y * width <= p < y * width + width ==>
      Stored(output, p, Nv12Pixel(width, width * height, input, p))
  {
    var yLen := width * height;
    for x := 0 to width
      invariant forall i :: 0 <= i < x ==> ReadInRange(width, height, |input|, y, i)
      invariant forall k :: 0 <= k < 4 * (y * width) ==> output[k] == old(output[k])
      invariant forall p: nat :: y * width <= p < y * width + x ==>
        Stored(output, p, Nv12Pixel(width, width * height, input, p))
    {
      var p := y * width + x;
      var uvIndex := UvIndex(width, y, x);
      if p >= |input| || yLen + uvIndex >= |input| || yLen + uvIndex + 1 >= |input| {
        assert !ReadInRange(width, height, |input|, y, x);
        return false;
      }
      var c := YuvToRgb(input[p], input[yLen + uvIndex], input[yLen + uvIndex + 1]);
      Nv12PixelInRange(width, height, input, y, x);
      StorePixel(output, p, p * 4, c);
    }
    inRange := true;
  }

  lemma Nv12PixelInRange(width: nat, height: nat, input: Bytes, y: nat, x: nat)
    requires y < height && x < width && ReadInRange(width, height, |input|, y, x)
    ensures var uv := width * height + UvIndex(width, y, x);
      Nv12Pixel(width, width * height, input, y * width + x) ==
      YuvToRgb(input[y * width + x], input[uv], input[uv + 1])
  {
    RowMajor(width, height, y, x);
  }

  method DecodeNv12(format: FrameFormat, input: Bytes, overflowChecks: bool) returns (r: Outcome<Bytes>)
    requires format.Valid()
    ensures r == Nv12Outcome(format, input, overflowChecks)
  {
    var width, height := format.width, format.height;
    var luma := CheckedMul(width, height);
    if luma == None {
      return Failed(InvalidFrameFormat);
    }
    var yLen := luma.value;
    var uvLen := yLen / 2;
    if yLen + uvLen >= U32_LIMIT && overflowChecks {
      return Panicked;
    }
    var expected := (yLen + uvLen) % U32_LIMIT;
    if |input| != expected {
      return Failed(InvalidFrameSize(|input|, expected));
    }

    var output := new Byte[4 * (width * height)](_ => 0);
    for y := 0 to height
      invariant y * width <= width * height
      invariant forall j, i :: 0 <= j < y && 0 <= i < width ==> ReadInRange(width, height, |input|, j, i)
      invariant forall p: nat :: p < y * width ==> Stored(output, p, Nv12Pixel(width, width * height, input, p))
    {
      MulStep(y, height, width);
      var inRange := ConvertRow(width, height, y, input, output);
      if !inRange {
        return Panicked;
      }
      assert y * width + width == (y + 1) * width;
    }
    forall p: nat | p < width * height
      ensures PixelAt(output[..], p) == PixelAt(Nv12Image(width, height, input), p)
    {
      Nv12ImageAt(width, height, input, p);
      assert Stored(output, p, Nv12Pixel(width, width * height, input, p));
    }
    PicturesEqual(output[..], Nv12Image(width, height, input), width * height);
    r := Returned(output[..]);
  }

  // ---------------------------------------------------------------- when NV12 reads stay in range

  /** The chroma offset grows with row and column, so the last pixel decides. */
  lemma UvIndexMonotone(width: nat, y: nat, x: nat, y': nat, x': nat)
    requires y <= y' && x <= x'
    ensures UvIndex(width, y, x) <= UvIndex(width, y', x')
  {
    var gap, half := y' / 2 - y / 2, width / 2;
    assert gap >= 0 && gap * half >= 0;
    assert y' / 2 * half == y / 2 * half + gap * half;
  }

  lemma LastPixelDecides(width: nat, height: nat, len: nat)
    requires width > 0 && height > 0 && len >= width * height
    ensures ReadsInRange(width, height, len) <==> ReadInRange(width, height, len, height - 1, width - 1)
  {
    RowMajor(width, height, height - 1, width - 1);
    if ReadInRange(width, height, len, height - 1, width - 1) {
      forall y, x | 0 <= y < height && 0 <= x < width
        ensures ReadInRange(width, height, len, y, x)
      {
        RowMajor(width, height, y, x);
        UvIndexMonotone(width, y, x, height - 1, width - 1);
      }
    }
  }

  /** The sizes the decoder handles: chroma is subsampled by two both ways, so odd sizes mostly read past the end. */
  predicate Nv12Decodable(width: nat, height: nat) {
    || (width % 2 == 0 && height % 2 == 0)
    || (width % 2 == 1 && height % 2 == 0 && height >= 4)
    || (width % 2 == 1 && height % 2 == 1 && height >= width + 4)
  }

  /** The last chroma pair of a `width` by `height` frame lies inside a chroma plane of half the luma size. */
  predicate LastPairFits(width: nat, height: nat)
    requires width > 0 && height > 0
  {
    UvIndex(width, height - 1, width - 1) + 1 < width * height / 2
  }

  lemma LastPairEvenEven(a: nat, b: nat)
    requires a > 0 && b > 0
    ensures LastPairFits(2 * a, 2 * b)
  {
    var ab := a * b;
    assert (2 * a) * (2 * b) == 4 * ab;
    assert (b - 1) * a + (a - 1) == ab - 1;
  }

  lemma LastPairOddEven(a: nat, b: nat)
    requires b > 0
    ensures LastPairFits(2 * a + 1, 2 * b) <==> b >= 2
  {
    var ab := a * b;
    assert (2 * a + 1) * (2 * b) == 4 * ab + 2 * b;
    assert (b - 1) * a + a == ab;
  }

  lemma LastPairEvenOdd(a: nat, b: nat)
    requires a > 0
    ensures !LastPairFits(2 * a, 2 * b + 1)
  {
    var ab := a * b;
    assert (2 * a) * (2 * b + 1) == 4 * ab + 2 * a;
    assert b * a + (a - 1) == ab + a - 1;
  }

  lemma LastPairOddOdd(a: nat, b: nat)
    ensures LastPairFits(2 * a + 1, 2 * b + 1) <==> b >= a + 2
  {
    var ab := a * b;
    assert (2 * a + 1) * (2 * b + 1) == 4 * ab + 2 * a + 2 * b + 1;
    assert b * a + a == ab + a;
  }

  lemma LastPairFitsExactly(width: nat, height: nat)
    requires width > 0 && height > 0
    ensures LastPairFits(width, height) <==> Nv12Decodable(width, height)
  {
    var a, b := width / 2, height / 2;
    if width % 2 == 0 && height % 2 == 0 {
      LastPairEvenEven(a, b);
    } else if height % 2 == 0 {
      LastPairOddEven(a, b);
    } else if width % 2 == 0 {
      LastPairEvenOdd(a, b);
    } else {
      LastPairOddOdd(a, b);
    }
  }

  /** NV12 domain of definition: with the exact input length, every read is in range exactly for these sizes. */
  lemma Nv12ReadsExactly(width: nat, height: nat)
    requires width > 0 && height > 0
    ensures ReadsInRange(width, height, width * height + width * height / 2) <==> Nv12Decodable(width, height)
  {
    LastPixelDecides(width, height, width * height + width * height / 2);
    RowMajor(width, height, height - 1, width - 1);
    LastPairFitsExactly(width, height);
  }

  /** An input shorter than the luma plane does not cover the last pixel. */
  lemma ShortInputOutOfRange(width: nat, height: nat, len: nat)
    requires width > 0 && height > 0 && len < width * height
    ensures !ReadsInRange(width, height, len)
  {
    assert !ReadInRange(width, height, len, height - 1, width - 1);
  }

  lemma WrappedSumIsShort(luma: nat)
    requires luma < U32_LIMIT <= luma + luma / 2
    ensures (luma + luma / 2) % U32_LIMIT < luma
  {
    assert (luma + luma / 2) % U32_LIMIT == luma + luma / 2 - U32_LIMIT;
  }

  /** If the plane sum overflows 32 bits nothing is ever decoded, whether the build traps or wraps. */
  lemma Nv12OverflowNeverDecodes(format: FrameFormat, input: Bytes, overflowChecks: bool)
    requires format.Valid()
    requires var luma := format.width * format.height; luma + luma / 2 >= U32_LIMIT
    ensures !Nv12Outcome(format, input, overflowChecks).Returned?
  {
    var luma := format.width * format.height;
    if luma < U32_LIMIT {
      WrappedSumIsShort(luma);
      if |input| < luma {
        ShortInputOutOfRange(format.width, format.height, |input|);
      }
    }
  }

  // ---------------------------------------------------------------- NV12 as YUYV

  /** The YUYV frame of an NV12 frame of so many pixels: each 2x2 block's chroma pair goes into both its rows. */
  function ExpandToYuyv(width: nat, pixels: nat, input: Bytes): (r: Bytes)
    requires width > 0
    ensures |r| == 2 * pixels
  {
    seq<Byte>(2 * pixels, k requires 0 <= k < 2 * pixels => ExpandedByte(width, pixels, input, k))
  }

  function ExpandedByte(width: nat, lumaLen: nat, input: Bytes, k: nat): Byte
    requires width > 0
  {
    var left := k / 4 * 2;
    var uv := lumaLen + UvIndex(width, left / width, left % width);
    if k % 2 == 0 then At(input, k / 2) else if k % 4 == 1 then At(input, uv) else At(input, uv + 1)
  }

  /** Both pixels of a horizontal pair lie in one row and share one chroma pair when the width is even. */
  lemma PairSharesChroma(width: nat, p: nat, left: nat)
    requires width > 0 && width % 2 == 0 && left == p - p % 2
    ensures left / width == p / width
    ensures left % width / 2 == p % width / 2
  {
    var y, x := DivMod(p, width);
    PairInRow(width, width / 2, y, x, p, left);
  }

  lemma DivMod(n: nat, d: nat) returns (q: nat, r: nat)
    requires d > 0
    ensures n == q * d + r && r < d && q == n / d && r == n % d
  {
    q, r := n / d, n % d;
  }

  lemma PairInRow(width: nat, half: nat, y: nat, x: nat, p: nat, left: nat)
    requires width == 2 * half && x < width && p == y * width + x && left == p - p % 2
    ensures left / width == y && left % width / 2 == x / 2
  {
    EvenRow(y, half, width);
    PairStart(y * half, x, p, left);
    DivModUnique(left, width, y, x - x % 2);
    HalfOfEven(x);
  }

  lemma EvenRow(y: nat, half: nat, width: nat)
    requires width == 2 * half
    ensures y * width == 2 * (y * half)
  {
  }

  lemma HalfOfEven(x: nat)
    ensures (x - x % 2) / 2 == x / 2
  {
  }

  lemma PairStart(before: nat, x: nat, p: nat, left: nat)
    requires p == 2 * before + x && left == p - p % 2
    ensures left == 2 * before + (x - x % 2)
  {
  }

  /** The row and column loop and the chunk loop compute the same picture: decoding an NV12 frame of even size
      is YUYV-decoding its expansion. */
  lemma Nv12IsYuyvOfExpansion(width: nat, height: nat, input: Bytes)
    requires width > 0 && width % 2 == 0 && height % 2 == 0
    requires |input| == width * height + width * height / 2
    ensures Nv12Image(width, height, input) == YuyvImage(width * height, ExpandToYuyv(width, width * height, input))
  {
    var pixels := width * height;
    var expanded := ExpandToYuyv(width, pixels, input);
    EvenProduct(width, height);
    forall p: nat | p < pixels
      ensures PixelAt(Nv12Image(width, height, input), p) == PixelAt(YuyvImage(pixels, expanded), p)
    {
      Nv12ImageAt(width, height, input, p);
      YuyvImageAt(pixels, expanded, p);
      ExpandedPixel(width, pixels, input, p);
    }
    PicturesEqual(Nv12Image(width, height, input), YuyvImage(pixels, expanded), pixels);
  }

  lemma EvenProduct(width: nat, height: nat)
    requires width % 2 == 0
    ensures width * height % 2 == 0
  {
    var half := width / 2 * height;
    assert width * height == 2 * half;
  }

  lemma ExpandedPixel(width: nat, pixels: nat, input: Bytes, p: nat)
    requires width > 0 && width % 2 == 0 && pixels % 2 == 0 && p < pixels
    ensures YuyvPixel(ExpandToYuyv(width, pixels, input), p) == Nv12Pixel(width, pixels, input, p)
  {
    PairSharesChroma(width, p, p / 2 * 2);
    ExpandedGroup(width, pixels, input, p);
    GroupInside(pixels, p);
  }

  lemma GroupInside(pixels: nat, p: nat)
    requires pixels % 2 == 0 && p < pixels
    ensures p / 2 * 4 + 3 < 2 * pixels
  {
  }

  lemma ExpandedGroup(width: nat, lumaLen: nat, input: Bytes, p: nat)
    requires width > 0
    ensures var uv := lumaLen + UvIndex(width, (p / 2 * 2) / width, (p / 2 * 2) % width);
      && ExpandedByte(width, lumaLen, input, 2 * p) == At(input, p)
      && ExpandedByte(width, lumaLen, input, p / 2 * 4 + 1) == At(input, uv)
      && ExpandedByte(width, lumaLen, input, p / 2 * 4 + 3) == At(input, uv + 1)
  {
    LumaOffset(p);
    ChromaOffset(p / 2, 1);
    ChromaOffset(p / 2, 3);
  }

  lemma LumaOffset(p: nat)
    ensures 2 * p / 2 == p && 2 * p % 2 == 0
  {
  }

  lemma ChromaOffset(q: nat, r: nat)
    requires r == 1 || r == 3
    ensures (q * 4 + r) / 4 == q && (q * 4 + r) % 4 == r && (q * 4 + r) % 2 == 1
  {
    assert q * 4 + r == 2 * (2 * q + r / 2) + 1;
  }

  // ---------------------------------------------------------------- decoded-frame adapter

  datatype Decoder = YuyvDecoder | Nv12Decoder

  ghost function Decode(decoder: Decoder, format: FrameFormat, input: Bytes, overflowChecks: bool): Outcome<Bytes>
    requires format.Valid()
  {
    match decoder
    case YuyvDecoder => YuyvOutcome(format, input)
    case Nv12Decoder => Nv12Outcome(format, input, overflowChecks)
  }

  lemma Nv12SucceedsExactly(format: FrameFormat, input: Bytes, overflowChecks: bool)
    requires format.Valid()
    ensures var pixels := format.width * format.height;
      Nv12Outcome(format, input, overflowChecks).Returned? <==>
      && pixels + pixels / 2 < U32_LIMIT && |input| == pixels + pixels / 2
      && Nv12Decodable(format.width, format.height)
  {
    var pixels := format.width * format.height;
    if pixels + pixels / 2 >= U32_LIMIT {
      Nv12OverflowNeverDecodes(format, input, overflowChecks);
    } else {
      Nv12OutcomeFits(format, input, overflowChecks);
      Nv12ReadsExactly(format.width, format.height);
    }
  }

  lemma Nv12OutcomeFits(format: FrameFormat, input: Bytes, overflowChecks: bool)
    requires format.Valid()
    requires var pixels := format.width * format.height; pixels + pixels / 2 < U32_LIMIT
    ensures var pixels := format.width * format.height;
      Nv12Outcome(format, input, overflowChecks).Returned? <==>
      |input| == pixels + pixels / 2 && ReadsInRange(format.width, format.height, pixels + pixels / 2)
  {
    var pixels := format.width * format.height;
    assert (pixels + pixels / 2) % U32_LIMIT == pixels + pixels / 2;
  }

  /** Neither decoder looks at the declared pixel format: success depends on the sizes alone. */
  lemma DecodeSucceedsExactly(decoder: Decoder, format: FrameFormat, input: Bytes, overflowChecks: bool)
    requires format.Valid()
    ensures Decode(decoder, format, input, overflowChecks).Returned? <==>
      var pixels := format.width * format.height;
      match decoder
      case YuyvDecoder => pixels * 2 < U32_LIMIT && |input| == pixels * 2
      case Nv12Decoder =>
        && pixels + pixels / 2 < U32_LIMIT && |input| == pixels + pixels / 2
        && Nv12Decodable(format.width, format.height)
  {
    Nv12SucceedsExactly(format, input, overflowChecks);
  }

  /** How each decoder fails, told from sizes: the 32-bit guards first, then the length, and for NV12 a panic where the
      length is right but the shape is not, or where the plane sum overflows: at once in a trapping build, and in a
      wrapping one even at the length the wrapped sum calls for. */
  lemma DecodeFailsExactly(decoder: Decoder, format: FrameFormat, input: Bytes, overflowChecks: bool)
    requires format.Valid()
    ensures var pixels, r := format.width * format.height, Decode(decoder, format, input, overflowChecks);
      match decoder
      case YuyvDecoder =>
        && !r.Panicked?
        && (2 * pixels >= U32_LIMIT ==> r == Failed(InvalidFrameFormat))
        && (2 * pixels < U32_LIMIT && |input| != 2 * pixels ==> r == Failed(InvalidFrameSize(|input|, 2 * pixels)))
      case Nv12Decoder =>
        var sum := pixels + pixels / 2;
        && (pixels >= U32_LIMIT ==> r == Failed(InvalidFrameFormat))
        && (pixels < U32_LIMIT <= sum ==>
             r == if overflowChecks || |input| == sum - U32_LIMIT then Panicked
                  else Failed(InvalidFrameSize(|input|, sum - U32_LIMIT)))
        && (sum < U32_LIMIT && |input| != sum ==> r == Failed(InvalidFrameSize(|input|, sum)))
        && (sum < U32_LIMIT && |input| == sum ==>
             if Nv12Decodable(format.width, format.height) then r.Returned? else r == Panicked)
  {
    if decoder.Nv12Decoder? {
      Nv12FailsExactly(format, input, overflowChecks);
    }
  }

  lemma Nv12FailsExactly(format: FrameFormat, input: Bytes, overflowChecks: bool)
    requires format.Valid()
    ensures var pixels, r := format.width * format.height, Nv12Outcome(format, input, overflowChecks);
      var sum := pixels + pixels / 2;
      && (pixels >= U32_LIMIT ==> r == Failed(InvalidFrameFormat))
      && (pixels < U32_LIMIT <= sum ==>
           r == if overflowChecks || |input| == sum - U32_LIMIT then Panicked
                else Failed(InvalidFrameSize(|input|, sum - U32_LIMIT)))
      && (sum < U32_LIMIT && |input| != sum ==> r == Failed(InvalidFrameSize(|input|, sum)))
      && (sum < U32_LIMIT && |input| == sum ==>
           if Nv12Decodable(format.width, format.height) then r.Returned? else r == Panicked)
  {
    var pixels := format.width * format.height;
    SumWraps(pixels);
    Nv12SucceedsExactly(format, input, overflowChecks);
  }

  lemma SumWraps(pixels: nat)
    requires pixels > 0
    ensures var sum := pixels + pixels / 2;
      && (sum < U32_LIMIT ==> sum % U32_LIMIT == sum)
      && (pixels < U32_LIMIT <= sum ==> sum % U32_LIMIT == sum - U32_LIMIT)
  {
  }

  lemma EvenNv12Returns(format: FrameFormat, input: Bytes, overflowChecks: bool)
    requires format.Valid() && format.width % 2 == 0 && format.height % 2 == 0
    requires |input| == format.width * format.height + format.width * format.height / 2
    requires format.width * format.height * 2 < U32_LIMIT
    ensures Decode(Nv12Decoder, format, input, overflowChecks) ==
            Returned(Nv12Image(format.width, format.height, input))
  {
    Nv12SucceedsExactly(format, input, overflowChecks);
  }

  /** The two decoders agree: for an NV12 frame of even size and exact length, both decode, the NV12 decoder the frame
      and the YUYV decoder its expansion, and return the same picture, exactly when the expansion's size fits 32
      bits. */
  lemma DecodersAgreeExactly(format: FrameFormat, input: Bytes, overflowChecks: bool)
    requires format.Valid() && format.width % 2 == 0 && format.height % 2 == 0
    requires |input| == format.width * format.height + format.width * format.height / 2
    ensures var pixels := format.width * format.height;
      var expanded := ExpandToYuyv(format.width, pixels, input);
      var nv12 := Decode(Nv12Decoder, format, input, overflowChecks);
      var yuyv := Decode(YuyvDecoder, format, expanded, overflowChecks);
      nv12.Returned? && yuyv.Returned? && nv12 == yuyv <==> pixels * 2 < U32_LIMIT
  {
    if format.width * format.height * 2 < U32_LIMIT {
      EvenNv12Returns(format, input, overflowChecks);
      Nv12IsYuyvOfExpansion(format.width, format.height, input);
    }
  }

  function OutputFormat(input: FrameFormat): Result<FrameFormat> {
    NewFormat(PixelFormat.Rgba, input.width, input.height, input.fps)
  }

  datatype Delivered = Delivered(offers: seq<Offer>, outcome: Outcome<()>)

  /** One `DecodedFrameSinkAdapter::push_frame`: what the sink is offered and how the call ends. */
  ghost function Deliver(decoder: Decoder, frame: Frame, reply: SinkReply, overflowChecks: bool): Delivered
    requires frame.buffer.format.Valid()
  {
    match OutputFormat(frame.buffer.format)
    case Err(e) => Delivered([], Failed(e))
    case Ok(format) =>
      match Decode(decoder, frame.buffer.format, frame.buffer.data, overflowChecks)
      case Failed(e) => Delivered([], Failed(e))
      case Panicked => Delivered([], Panicked)
      case Returned(data) =>
        match NewFrameBuffer(format, data)
        case Err(e) => Delivered([], Failed(e))
        case Ok(buffer) =>
          Delivered([Offer(Frame(frame.cameraId, frame.sequence, buffer), reply)],
                    if reply.Accepts? then Returned(()) else Failed(reply.error))
  }

  class DecodedFrameSinkAdapter {
    const decoder: Decoder
    const sink: FrameSink

    constructor (decoder: Decoder, sink: FrameSink)
      ensures this.decoder == decoder && this.sink == sink
    {
      this.decoder := decoder;
      this.sink := sink;
    }

    method PushFrame(frame: Frame, reply: SinkReply, overflowChecks: bool) returns (r: Outcome<()>)
      requires frame.buffer.format.Valid()
      modifies sink
      ensures var d := Deliver(decoder, frame, reply, overflowChecks);
        sink.offers == old(sink.offers) + d.offers && r == d.outcome
    {
      var format;
      match OutputFormat(frame.buffer.format) {
        case Err(e) => return Failed(e);
        case Ok(f) => format := f;
      }
      var decoded: Outcome<Bytes>;
      match decoder {
        case YuyvDecoder => decoded := DecodeYuyv(frame.buffer.format, frame.buffer.data);
        case Nv12Decoder => decoded := DecodeNv12(frame.buffer.format, frame.buffer.data, overflowChecks);
      }
      match decoded
      case Failed(e) => return Failed(e);
      case Panicked => return Panicked;
      case Returned(data) =>
        var buffer := NewFrameBuffer(format, data);
        if buffer.Err? {
          return Failed(buffer.error);
        }
        var pushed := sink.Push(Frame(frame.cameraId, frame.sequence, buffer.value), reply);
        r := if pushed.Ok? then Returned(()) else Failed(pushed.error);
    }
  }

  predicate MadeFor(decoder: Decoder, format: FrameFormat) {
    match decoder
    case YuyvDecoder => format.pixelFormat.Yuyv?
    case Nv12Decoder => format.pixelFormat.Nv12? && format.width % 2 == 0 && format.height % 2 == 0
  }

  /** Both pixels (side 0 and 1) of every four-byte group of a YUYV frame have the true colour of their own
      luma and the group's chroma. */
  lemma YuyvPixelsTrue(pixels: nat, input: Bytes, group: nat, side: nat, y: Byte, u: Byte, v: Byte)
    requires |input| == 2 * pixels && 2 * group + 1 < pixels && side < 2
    requires y == input[4 * group + 2 * side] && u == input[4 * group + 1] && v == input[4 * group + 3]
    ensures TrueTo(PixelAt(YuyvImage(pixels, input), 2 * group + side), y, u, v)
  {
    var c := PixelAt(YuyvImage(pixels, input), 2 * group + side);
    YuyvPixelConverted(pixels, input, group, side);
    assert c == YuvToRgb(y, u, v);
    ColourWithinOne(y, u, v);
  }

  lemma YuyvPixelConverted(pixels: nat, input: Bytes, group: nat, side: nat)
    requires |input| == 2 * pixels && 2 * group + 1 < pixels && side < 2
    ensures PixelAt(YuyvImage(pixels, input), 2 * group + side) ==
            YuvToRgb(input[4 * group + 2 * side], input[4 * group + 1], input[4 * group + 3])
  {
    var p := 2 * group + side;
    YuyvImageAt(pixels, input, p);
    PixelOfGroup(input, group, side, p);
  }

  lemma PixelOfGroup(input: Bytes, group: nat, side: nat, p: nat)
    requires side < 2 && p == 2 * group + side && 4 * group + 3 < |input|
    ensures YuyvPixel(input, p) == YuvToRgb(input[4 * group + 2 * side], input[4 * group + 1], input[4 * group + 3])
  {
    assert p / 2 == group;
  }

  /** With an odd number of pixels the last one is never converted: it stays transparent black. */
  lemma YuyvOddPixelBlank(pixels: nat, input: Bytes)
    requires |input| == 2 * pixels && pixels % 2 == 1
    ensures PixelAt(YuyvImage(pixels, input), pixels - 1) == BLANK
  {
    var p := pixels - 1;
    GroupCount(pixels, |input|);
    assert YuyvPixel(input, p) == BLANK by {
      UngroupedPixel(input, p);
    }
    assert PixelAt(YuyvImage(pixels, input), p) == YuyvPixel(input, p) by {
      YuyvImageAt(pixels, input, p);
    }
  }

  lemma GroupCount(pixels: nat, len: nat)
    requires len == 2 * pixels
    ensures len / 4 == pixels / 2
    ensures pixels % 2 == 1 ==> pixels - 1 == 2 * (len / 4)
  {
  }

  /** Every pixel of a decoded NV12 frame has the true colour of its luma and its block's chroma pair. */
  lemma Nv12PixelsTrue(width: nat, height: nat, input: Bytes, y: nat, x: nat)
    requires y < height && x < width
    requires ReadsInRange(width, height, |input|)
    ensures var p, uv := y * width + x, width * height + UvIndex(width, y, x);
      && p < width * height && uv + 1 < |input| && p < |input|
      && TrueTo(PixelAt(Nv12Image(width, height, input), p), input[p], input[uv], input[uv + 1])
  {
    var p, uv := y * width + x, width * height + UvIndex(width, y, x);
    RowMajor(width, height, y, x);
    assert ReadInRange(width, height, |input|, y, x);
    Nv12ImageAt(width, height, input, p);
    ColourWithinOne(input[p], input[uv], input[uv + 1]);
  }

  /** Pixel `side` of a group of a YUYV frame is true to its luma and the group's chroma. */
  ghost predicate GroupPixelTrue(input: Bytes, image: Bytes, group: nat, side: nat) {
    && 4 * group + 3 < |input| && side < 2 && 8 * group + 8 <= |image|
    && TrueTo(PixelAt(image, 2 * group + side), input[4 * group + 2 * side], input[4 * group + 1], input[4 * group + 3])
  }

  /** The pixel at row y and column x of an NV12 frame is true to its luma and its block's chroma. */
  ghost predicate BlockPixelTrue(width: nat, height: nat, input: Bytes, image: Bytes, y: nat, x: nat) {
    var p, uv := y * width + x, width * height + UvIndex(width, y, x);
    && p < |input| && uv + 1 < |input| && 4 * p + 4 <= |image|
    && TrueTo(PixelAt(image, p), input[p], input[uv], input[uv + 1])
  }

  ghost predicate TruePicture(decoder: Decoder, format: FrameFormat, input: Bytes, image: Bytes) {
    var width, height := format.width, format.height;
    && |image| == 4 * (width * height)
    && match decoder
       case YuyvDecoder =>
         && (forall group, side :: 0 <= group < width * height / 2 && 0 <= side < 2 ==>
              GroupPixelTrue(input, image, group, side))
         && (width * height % 2 == 1 ==> PixelAt(image, width * height - 1) == BLANK)
       case Nv12Decoder =>
         forall y, x :: 0 <= y < height && 0 <= x < width ==> BlockPixelTrue(width, height, input, image, y, x)
  }

  lemma YuyvPictureTrue(format: FrameFormat, input: Bytes)
    requires |input| == 2 * (format.width * format.height)
    ensures TruePicture(YuyvDecoder, format, input, YuyvImage(format.width * format.height, input))
  {
    var pixels := format.width * format.height;
    forall group, side | 0 <= group < pixels / 2 && 0 <= side < 2
      ensures GroupPixelTrue(input, YuyvImage(pixels, input), group, side)
    {
      var y, u, v := input[4 * group + 2 * side], input[4 * group + 1], input[4 * group + 3];
      YuyvPixelsTrue(pixels, input, group, side, y, u, v);
    }
    if pixels % 2 == 1 {
      YuyvOddPixelBlank(pixels, input);
    }
  }

  lemma Nv12PictureTrue(format: FrameFormat, input: Bytes)
    requires format.Valid() && ReadsInRange(format.width, format.height, |input|)
    ensures TruePicture(Nv12Decoder, format, input, Nv12Image(format.width, format.height, input))
  {
    var width, height := format.width, format.height;
    forall y, x | 0 <= y < height && 0 <= x < width
      ensures BlockPixelTrue(width, height, input, Nv12Image(width, height, input), y, x)
    {
      Nv12PixelsTrue(width, height, input, y, x);
    }
  }

  /** Whatever either decoder returns is a true picture of its input: the right size, and every pixel (but an odd last
      one of a YUYV frame, which is blank) within one level of the exact colour. */
  lemma DecodedPictureTrue(decoder: Decoder, format: FrameFormat, input: Bytes, overflowChecks: bool)
    requires format.Valid() && Decode(decoder, format, input, overflowChecks).Returned?
    ensures TruePicture(decoder, format, input, Decode(decoder, format, input, overflowChecks).value)
  {
    match decoder
    case YuyvDecoder => YuyvPictureTrue(format, input);
    case Nv12Decoder => Nv12PictureTrue(format, input);
  }

  /** What `push_frame` does for every frame: nothing is offered unless decoding succeeds, and then always exactly one
      RGBA frame, whose length check never fails; errors, panics and the sink's answer are passed on. */
  lemma DeliverExactly(decoder: Decoder, frame: Frame, reply: SinkReply, overflowChecks: bool)
    requires frame.buffer.format.Valid()
    ensures var f := frame.buffer.format;
      var d := Deliver(decoder, frame, reply, overflowChecks);
      var data := Decode(decoder, f, frame.buffer.data, overflowChecks);
      var rgba := FrameFormat(PixelFormat.Rgba, f.width, f.height, f.fps);
      && (data.Failed? ==> d == Delivered([], Failed(data.error)))
      && (data.Panicked? ==> d == Delivered([], Panicked))
      && (data.Returned? ==>
           && d.offers == [Offer(Frame(frame.cameraId, frame.sequence, FrameBuffer(rgba, data.value)), reply)]
           && d.outcome == if reply.Accepts? then Returned(()) else Failed(reply.error))
  {
    var f := frame.buffer.format;
    var data := Decode(decoder, f, frame.buffer.data, overflowChecks);
    if data.Returned? {
      DecodedPictureTrue(decoder, f, frame.buffer.data, overflowChecks);
      ExpectedLenExact(FrameFormat(PixelFormat.Rgba, f.width, f.height, f.fps));
    }
  }

  /** Decoder pipeline: a raw frame `FrameBuffer::new` accepted, of known length and in the decoder's format,
      always decodes to a true picture; the sink is offered one RGBA frame with it and the same camera, sequence
      number, width, height and rate, and the call ends as the sink answers. */
  lemma DecoderPipeline(decoder: Decoder, frame: Frame, reply: SinkReply, overflowChecks: bool)
    requires var f := frame.buffer.format;
      && f.Valid() && MadeFor(decoder, f) && f.ExpectedLen().Some?
      && NewFrameBuffer(f, frame.buffer.data).Ok?
    ensures var f := frame.buffer.format;
      var d := Deliver(decoder, frame, reply, overflowChecks);
      var data := Decode(decoder, f, frame.buffer.data, overflowChecks);
      var rgba := FrameFormat(PixelFormat.Rgba, f.width, f.height, f.fps);
      && data.Returned? && TruePicture(decoder, f, frame.buffer.data, data.value)
      && d.offers == [Offer(Frame(frame.cameraId, frame.sequence, FrameBuffer(rgba, data.value)), reply)]
      && NewFrameBuffer(rgba, data.value).Ok?
      && d.outcome == if reply.Accepts? then Returned(()) else Failed(reply.error)
  {
    var f := frame.buffer.format;
    ExpectedLenExact(f);
    DecodeSucceedsExactly(decoder, f, frame.buffer.data, overflowChecks);
    DecodedPictureTrue(decoder, f, frame.buffer.data, overflowChecks);
    var rgba := FrameFormat(PixelFormat.Rgba, f.width, f.height, f.fps);
    ExpectedLenExact(rgba);
  }
}
