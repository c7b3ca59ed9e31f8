/** Descriptor streams: the record walk, the record parsers and the grouping of frames under formats
    (descriptor.rs). */
module Descriptors {
  import opened Basics

  const CLASS_SPECIFIC_VIDEO: Byte := 0x24
  const ENDPOINT: Byte := 0x05

  const FORMAT_UNCOMPRESSED: Byte := 0x04
  const FRAME_UNCOMPRESSED: Byte := 0x05
  const FORMAT_MJPEG: Byte := 0x06
  const FRAME_MJPEG: Byte := 0x07

  datatype Kind = InputHeader | Format | Frame | StillImageFrame | ColorFormat | Unknown(subtype: Byte)

  function KindOf(subtype: Byte): Kind {
    if subtype == 0x01 then InputHeader
    else if subtype in {0x02, 0x04, 0x06} then Format
    else if subtype in {FRAME_UNCOMPRESSED, FRAME_MJPEG} then Frame
    else if subtype == 0x03 then StillImageFrame
    else if subtype == 0x0a then ColorFormat
    else Unknown(subtype)
  }

  // ---------------------------------------------------------------- one record

  datatype Header = Header(length: nat, descriptorType: Byte, descriptorSubtype: Option<Byte>)

  /** `DescriptorHeader::parse_at`. */
  function ParseHeaderAt(input: Bytes, offset: nat): (r: Result<Header>)
    ensures r.Ok? ==> 2 <= r.value.length && offset + r.value.length <= |input|
    ensures r.Ok? ==> (r.value.descriptorSubtype.Some? <==> r.value.length > 2)
  {
    if offset + 2 > |input| then Err(InvalidArgument)
    else if input[offset] < 2 then Err(InvalidArgument)
    else if offset + input[offset] > |input| then Err(InvalidArgument)
    else Ok(Header(input[offset], input[offset + 1], if input[offset] > 2 then Some(input[offset + 2]) else None))
  }

  datatype StreamingDescriptor = StreamingDescriptor(header: Header, kind: Kind, payload: Bytes) {
    function Subtype(): Byte {
      match header.descriptorSubtype
      case Some(s) => s
      case None => 0
    }
  }

  /** `StreamingDescriptor::parse`. */
  function ParseStreaming(input: Bytes, offset: nat): Result<StreamingDescriptor> {
    match ParseHeaderAt(input, offset)
    case Err(e) => Err(e)
    case Ok(header) =>
      if header.descriptorType != CLASS_SPECIFIC_VIDEO then Err(InvalidArgument)
      else match header.descriptorSubtype
        case None => Err(InvalidArgument)
        case Some(subtype) =>
          Ok(StreamingDescriptor(header, KindOf(subtype), input[offset + 3..offset + header.length]))
  }

  datatype EndpointDescriptor =
    EndpointDescriptor(address: Byte, attributes: Byte, maxPacketSize: nat, interval: Byte, extra: Bytes)

  function LeU16(b: Bytes): nat
    requires |b| == 2
  {
    b[0] as int + 0x100 * b[1] as int
  }

  function LeU32(b: Bytes): nat
    requires |b| == 4
  {
    b[0] as int + 0x100 * b[1] as int + 0x1_0000 * b[2] as int + 0x100_0000 * b[3] as int
  }

  /** `EndpointDescriptor::parse`. */
  function ParseEndpoint(input: Bytes, offset: nat): Result<EndpointDescriptor> {
    match ParseHeaderAt(input, offset)
    case Err(e) => Err(e)
    case Ok(header) =>
      if header.descriptorType != ENDPOINT then Err(InvalidArgument)
      else if header.length < 7 then Err(InvalidArgument)
      else Ok(EndpointDescriptor(input[offset + 2], input[offset + 3], LeU16(input[offset + 4..offset + 6]),
                                 input[offset + 6], input[offset + 7..offset + header.length]))
  }

  // ---------------------------------------------------------------- the format of a stream

  /** A record: its type byte and what follows; the length byte counts both header bytes. */
  datatype Record = Record(descriptorType: Byte, body: Bytes) {
    predicate WellFormed() {
      && |body| <= 253
      && (descriptorType == CLASS_SPECIFIC_VIDEO ==> |body| >= 1)
      && (descriptorType == ENDPOINT ==> |body| >= 5)
    }
  }

  predicate WellFormed(records: seq<Record>) {
    forall i :: 0 <= i < |records| ==> records[i].WellFormed()
  }

  function Print(r: Record): Bytes
    requires |r.body| <= 253
  {
    [2 + |r.body|, r.descriptorType] + r.body
  }

  function PrintAll(records: seq<Record>): Bytes
    requires WellFormed(records)
  {
    if records == [] then [] else Print(records[0]) + PrintAll(records[1..])
  }

  /** What a class-specific record stands for. */
  function AsStreaming(r: Record): StreamingDescriptor
    requires |r.body| >= 1
  {
    StreamingDescriptor(Header(2 + |r.body|, r.descriptorType, Some(r.body[0])), KindOf(r.body[0]), r.body[1..])
  }

  /** What an endpoint record stands for. */
  function AsEndpoint(r: Record): EndpointDescriptor
    requires |r.body| >= 5
  {
    EndpointDescriptor(r.body[0], r.body[1], LeU16(r.body[2..4]), r.body[4], r.body[5..])
  }

  function ClassSpecific(records: seq<Record>): seq<StreamingDescriptor>
    requires WellFormed(records)
  {
    if records == [] then []
    else (if records[0].descriptorType == CLASS_SPECIFIC_VIDEO then [AsStreaming(records[0])] else [])
         + ClassSpecific(records[1..])
  }

  function Endpoints(records: seq<Record>): seq<EndpointDescriptor>
    requires WellFormed(records)
  {
    if records == [] then []
    else (if records[0].descriptorType == ENDPOINT then [AsEndpoint(records[0])] else []) + Endpoints(records[1..])
  }

  lemma {:induction false} PrintAllAppend(a: seq<Record>, b: seq<Record>)
    requires WellFormed(a) && WellFormed(b)
    ensures WellFormed(a + b) && PrintAll(a + b) == PrintAll(a) + PrintAll(b)
  {
    if a == [] {
      assert a + b == b;
    } else {
      assert (a + b)[0] == a[0] && (a + b)[1..] == a[1..] + b;
      PrintAllAppend(a[1..], b);
      ConcatAssociative(Print(a[0]), PrintAll(a[1..]), PrintAll(b));
    }
  }

  lemma {:induction false} ClassSpecificAppend(a: seq<Record>, b: seq<Record>)
    requires WellFormed(a) && WellFormed(b) && WellFormed(a + b)
    ensures ClassSpecific(a + b) == ClassSpecific(a) + ClassSpecific(b)
  {
    if a == [] {
      assert a + b == b;
    } else {
      assert (a + b)[0] == a[0] && (a + b)[1..] == a[1..] + b;
      ClassSpecificAppend(a[1..], b);
    }
  }

  lemma {:induction false} EndpointsAppend(a: seq<Record>, b: seq<Record>)
    requires WellFormed(a) && WellFormed(b) && WellFormed(a + b)
    ensures Endpoints(a + b) == Endpoints(a) + Endpoints(b)
  {
    if a == [] {
      assert a + b == b;
    } else {
      assert (a + b)[0] == a[0] && (a + b)[1..] == a[1..] + b;
      EndpointsAppend(a[1..], b);
    }
  }

  /** Concatenating record lists concatenates their bytes and both descriptor lists. */
  lemma RecordsAppend(a: seq<Record>, b: seq<Record>)
    requires WellFormed(a) && WellFormed(b)
    ensures WellFormed(a + b)
    ensures PrintAll(a + b) == PrintAll(a) + PrintAll(b)
    ensures ClassSpecific(a + b) == ClassSpecific(a) + ClassSpecific(b)
    ensures Endpoints(a + b) == Endpoints(a) + Endpoints(b)
  {
    PrintAllAppend(a, b);
    ClassSpecificAppend(a, b);
    EndpointsAppend(a, b);
  }

  /** The input is a concatenation of well-formed records. */
  ghost predicate Accepts(input: Bytes) {
    exists records :: WellFormed(records) && PrintAll(records) == input
  }

  // ---------------------------------------------------------------- parser and printer on one record

  /** At a printed record the parsers see exactly that record. */
  lemma ParsePrinted(before: Bytes, r: Record, rest: Bytes)
    requires r.WellFormed()
    ensures var input, offset := before + Print(r) + rest, |before|;
      && ParseHeaderAt(input, offset).Ok?
      && ParseHeaderAt(input, offset).value.length == 2 + |r.body|
      && ParseHeaderAt(input, offset).value.descriptorType == r.descriptorType
      && (r.descriptorType == CLASS_SPECIFIC_VIDEO ==> ParseStreaming(input, offset) == Ok(AsStreaming(r)))
      && (r.descriptorType == ENDPOINT ==> ParseEndpoint(input, offset) == Ok(AsEndpoint(r)))
  {
    var input, offset := before + Print(r) + rest, |before|;
    assert forall k :: 0 <= k < |Print(r)| ==> input[offset + k] == Print(r)[k];
    assert input[offset] == 2 + |r.body| && input[offset + 1] == r.descriptorType;
    if r.descriptorType == CLASS_SPECIFIC_VIDEO {
      assert input[offset + 3..offset + 2 + |r.body|] == r.body[1..];
    }
    if r.descriptorType == ENDPOINT {
      assert input[offset + 4..offset + 6] == r.body[2..4];
      assert input[offset + 7..offset + 2 + |r.body|] == r.body[5..];
    }
  }

  /** The record found at an offset where a header parses. */
  function RecordAt(input: Bytes, offset: nat): (r: Record)
    requires ParseHeaderAt(input, offset).Ok?
    ensures |r.body| <= 253
    ensures offset + |Print(r)| <= |input|
    ensures Print(r) == input[offset..offset + |Print(r)|]
  {
    Record(input[offset + 1], input[offset + 2..offset + input[offset]])
  }

  /** A record of any type, well-formed or not, begins at an offset. */
  ghost predicate RecordBegins(input: Bytes, offset: nat, r: Record) {
    |r.body| <= 253 && offset <= |input| && Print(r) <= input[offset..]
  }

  lemma HeaderOfRecord(input: Bytes, offset: nat, r: Record)
    requires RecordBegins(input, offset, r)
    ensures ParseHeaderAt(input, offset) ==
            Ok(Header(2 + |r.body|, r.descriptorType, if r.body == [] then None else Some(r.body[0])))
  {
    var p := Print(r);
    assert p == input[offset..][..|p|];
    assert forall k :: 0 <= k < |p| ==> input[offset + k] == p[k];
    assert p[0] == input[offset] && p[1] == input[offset + 1];
    if r.body != [] {
      assert p[2] == input[offset + 2];
    }
  }

  /** A header parses exactly where a record begins, and then holds that record's length, type and first body byte. */
  lemma HeaderParsesExactly(input: Bytes, offset: nat)
    ensures ParseHeaderAt(input, offset).Ok? <==> exists r :: RecordBegins(input, offset, r)
    ensures forall r :: RecordBegins(input, offset, r) ==>
      ParseHeaderAt(input, offset) ==
      Ok(Header(2 + |r.body|, r.descriptorType, if r.body == [] then None else Some(r.body[0])))
  {
    forall r | RecordBegins(input, offset, r)
      ensures ParseHeaderAt(input, offset) ==
              Ok(Header(2 + |r.body|, r.descriptorType, if r.body == [] then None else Some(r.body[0])))
    {
      HeaderOfRecord(input, offset, r);
    }
    if ParseHeaderAt(input, offset).Ok? {
      var r := RecordAt(input, offset);
      assert Print(r) == input[offset..][..|Print(r)|];
      assert RecordBegins(input, offset, r);
    }
  }

  /** Whether the walk gets past the record at an offset. */
  predicate StepOk(input: Bytes, offset: nat) {
    match ParseHeaderAt(input, offset)
    case Err(_) => false
    case Ok(h) =>
      && (h.descriptorType == CLASS_SPECIFIC_VIDEO ==> ParseStreaming(input, offset).Ok?)
      && (h.descriptorType == ENDPOINT ==> ParseEndpoint(input, offset).Ok?)
  }

  lemma StepOkIsWellFormed(input: Bytes, offset: nat)
    requires ParseHeaderAt(input, offset).Ok?
    ensures StepOk(input, offset) <==> RecordAt(input, offset).WellFormed()
  {
  }

  /** What a class-specific record is taken for, told from its bytes: the subtype byte alone decides the kind, and the
      rest of the body is the payload. */
  lemma StreamingOfRecord(r: Record)
    requires |r.body| >= 1
    ensures var d, b := AsStreaming(r), r.body[0];
      && d.Subtype() == b && d.payload == r.body[1..]
      && (d.kind.Format? <==> b == 2 || b == 4 || b == 6)
      && (d.kind.Frame? <==> b == 5 || b == 7)
      && (d.kind.InputHeader? <==> b == 1)
      && (d.kind.StillImageFrame? <==> b == 3)
      && (d.kind.ColorFormat? <==> b == 10)
      && (d.kind.Unknown? ==> d.kind.subtype == b)
  {
  }

  // ---------------------------------------------------------------- uniqueness and prefixes

  lemma PrintPrefixFree(r: Record, x: Bytes, s: Record, y: Bytes)
    requires |r.body| <= 253 && |s.body| <= 253
    requires Print(r) + x == Print(s) + y
    ensures r == s && x == y
  {
    var p, q := Print(r) + x, Print(s) + y;
    assert p[0] == 2 + |r.body| && q[0] == 2 + |s.body|;
    assert p[1] == r.descriptorType && q[1] == s.descriptorType;
    assert r.body == p[2..2 + |r.body|] && s.body == q[2..2 + |s.body|];
    assert x == p[2 + |r.body|..] && y == q[2 + |s.body|..];
  }

  /** A byte string is a concatenation of records in at most one way; more, if one printed list is a prefix of
      another, the lists are related the same way. */
  lemma {:induction false} PrintAllPrefix(a: seq<Record>, rest: Bytes, b: seq<Record>)
    requires WellFormed(a) && WellFormed(b)
    requires PrintAll(a) + rest == PrintAll(b)
    ensures a <= b && PrintAll(b[|a|..]) == rest
  {
    if a == [] {
      assert [] + rest == rest;
      assert b[|a|..] == b;
    } else {
      ConcatAssociative(Print(a[0]), PrintAll(a[1..]), rest);
      assert b != [];
      PrintPrefixFree(a[0], PrintAll(a[1..]) + rest, b[0], PrintAll(b[1..]));
      PrintAllPrefix(a[1..], rest, b[1..]);
      assert a == [a[0]] + a[1..] && b == [b[0]] + b[1..];
      assert b[|a|..] == b[1..][|a[1..]|..];
    }
  }

  lemma DecompositionUnique(a: seq<Record>, b: seq<Record>)
    requires WellFormed(a) && WellFormed(b) && PrintAll(a) == PrintAll(b)
    ensures a == b
  {
    assert PrintAll(a) + [] == PrintAll(b);
    PrintAllPrefix(a, [], b);
    PrintAllPrefix(b, [], a);
  }

  /** Concatenation: after an accepted stream, the rest decides. */
  lemma AcceptsConcatenation(a: seq<Record>, rest: Bytes)
    requires WellFormed(a)
    ensures Accepts(PrintAll(a) + rest) <==> Accepts(rest)
  {
    if Accepts(rest) {
      var b :| WellFormed(b) && PrintAll(b) == rest;
      RecordsAppend(a, b);
      assert PrintAll(a + b) == PrintAll(a) + rest;
    }
    if Accepts(PrintAll(a) + rest) {
      var b :| WellFormed(b) && PrintAll(b) == PrintAll(a) + rest;
      PrintAllPrefix(a, rest, b);
      assert WellFormed(b[|a|..]);
    }
  }

  /** A cut of a stream of records falls on a record boundary. */
  ghost predicate Boundary(records: seq<Record>, n: nat)
    requires WellFormed(records)
  {
    exists k :: 0 <= k <= |records| && |PrintAll(records[..k])| == n
  }

  lemma BoundaryAccepted(records: seq<Record>, k: nat)
    requires WellFormed(records) && k <= |records|
    ensures |PrintAll(records[..k])| <= |PrintAll(records)|
    ensures PrintAll(records)[..|PrintAll(records[..k])|] == PrintAll(records[..k])
  {
    assert records == records[..k] + records[k..];
    PrintAllAppend(records[..k], records[k..]);
  }

  lemma AcceptedCutsAtBoundary(records: seq<Record>, a: seq<Record>, rest: Bytes)
    requires WellFormed(records) && WellFormed(a) && PrintAll(a) + rest == PrintAll(records)
    ensures Boundary(records, |PrintAll(a)|)
  {
    PrintAllPrefix(a, rest, records);
    assert records[..|a|] == a;
  }

  lemma AcceptedPrefixCut(records: seq<Record>, n: nat)
    requires WellFormed(records) && n <= |PrintAll(records)| && Accepts(PrintAll(records)[..n])
    ensures Boundary(records, n)
  {
    var input := PrintAll(records);
    var a :| WellFormed(a) && PrintAll(a) == input[..n];
    assert input[..n] + input[n..] == input;
    AcceptedCutsAtBoundary(records, a, input[n..]);
  }

  /** A prefix of an accepted stream is accepted exactly when it is cut at a record boundary. */
  lemma AcceptedPrefixes(records: seq<Record>, n: nat)
    requires WellFormed(records) && n <= |PrintAll(records)|
    ensures Accepts(PrintAll(records)[..n]) <==> Boundary(records, n)
  {
    if Accepts(PrintAll(records)[..n]) {
      AcceptedPrefixCut(records, n);
    }
    if Boundary(records, n) {
      var k :| 0 <= k <= |records| && |PrintAll(records[..k])| == n;
      BoundaryAccepted(records, k);
      assert WellFormed(records[..k]);
    }
  }

  // ---------------------------------------------------------------- format and frame descriptors

  datatype FormatType = MjpegType | UncompressedType | UnknownType(subtype: Byte)

  datatype UvcFrame = UvcFrame(frameIndex: Byte, capabilities: Byte, width: nat, height: nat, minBitRate: nat,
                               maxBitRate: nat, defaultFrameInterval: nat, frameIntervals: seq<nat>)

  datatype UvcFormat = UvcFormat(formatIndex: Byte, numberOfFrameDescriptors: Byte, formatType: FormatType,
                                 guid: Option<Bytes>, bitsPerPixel: Byte, defaultFrameIndex: Byte,
                                 aspectRatio: Option<(Byte, Byte)>, frames: seq<UvcFrame>)

  function Get(payload: Bytes, i: nat): Option<Byte> {
    if i < |payload| then Some(payload[i]) else None
  }

  /** `UvcFormat::parse`. */
  function ParseFormat(d: StreamingDescriptor): Result<UvcFormat> {
    var p := d.payload;
    if |p| < 2 then Err(InvalidArgument)
    else if d.Subtype() == FORMAT_UNCOMPRESSED then
      if |p| < 22 then Err(InvalidArgument)
      else FinishFormat(p, UncompressedType, Some(p[2..18]), 18, 19, Some((20, 21)))
    else if d.Subtype() == FORMAT_MJPEG then FinishFormat(p, MjpegType, None, 2, 3, Some((4, 5)))
    else FinishFormat(p, UnknownType(d.Subtype()), None, 2, 0, None)
  }

  function FinishFormat(p: Bytes, formatType: FormatType, guid: Option<Bytes>, bitsAt: nat, defaultAt: nat,
                        aspectAt: Option<(nat, nat)>): Result<UvcFormat>
    requires |p| >= 2
  {
    match Get(p, bitsAt)
    case None => Err(InvalidArgument)
    case Some(bits) =>
      var default := match Get(p, defaultAt) case Some(b) => b case None => 0;
      var aspect :=
        match aspectAt
        case None => None
        case Some((x, y)) =>
          if Get(p, x).Some? && Get(p, y).Some? then Some((Get(p, x).value, Get(p, y).value)) else None;
      Ok(UvcFormat(p[0], p[1], formatType, guid, bits, default, aspect, []))
  }

  /** Whole groups of four bytes; a shorter tail is ignored. */
  function Intervals(b: Bytes): seq<nat> {
    if |b| < 4 then [] else [LeU32(b[..4])] + Intervals(b[4..])
  }

  /** `UvcFrame::parse`. */
  function ParseFrame(d: StreamingDescriptor): Result<UvcFrame> {
    var p := d.payload;
    if |p| < 18 then Err(InvalidArgument)
    else Ok(UvcFrame(p[0], p[1], LeU16(p[2..4]), LeU16(p[4..6]), LeU32(p[6..10]), LeU32(p[10..14]), LeU32(p[14..18]),
                     Intervals(p[18..])))
  }

  // ---------------------------------------------------------------- printing a frame descriptor

  function ToLe16(n: nat): Bytes
    requires n < 0x1_0000
  {
    [n % 0x100, n / 0x100]
  }

  function ToLe32(n: nat): Bytes
    requires n < U32_LIMIT
  {
    [n % 0x100, n / 0x100 % 0x100, n / 0x1_0000 % 0x100, n / 0x100_0000]
  }

  lemma LittleEndianInverse(n: nat)
    ensures n < 0x1_0000 ==> LeU16(ToLe16(n)) == n
    ensures n < U32_LIMIT ==> LeU32(ToLe32(n)) == n
  {
    assert n == n % 0x100 + 0x100 * (n / 0x100);
    assert n / 0x100 == n / 0x100 % 0x100 + 0x100 * (n / 0x1_0000);
    assert n / 0x1_0000 == n / 0x1_0000 % 0x100 + 0x100 * (n / 0x100_0000);
  }

  function PrintIntervals(intervals: seq<nat>): Bytes
    requires forall i :: 0 <= i < |intervals| ==> intervals[i] < U32_LIMIT
  {
    if intervals == [] then [] else ToLe32(intervals[0]) + PrintIntervals(intervals[1..])
  }

  predicate FieldsFit(f: UvcFrame) {
    && f.width < 0x1_0000 && f.height < 0x1_0000
    && f.minBitRate < U32_LIMIT && f.maxBitRate < U32_LIMIT && f.defaultFrameInterval < U32_LIMIT
    && forall i :: 0 <= i < |f.frameIntervals| ==> f.frameIntervals[i] < U32_LIMIT
  }

  function PrintFrame(f: UvcFrame): Bytes
    requires FieldsFit(f)
  {
    [f.frameIndex, f.capabilities] + ToLe16(f.width) + ToLe16(f.height) + ToLe32(f.minBitRate) + ToLe32(f.maxBitRate)
    + ToLe32(f.defaultFrameInterval) + PrintIntervals(f.frameIntervals)
  }

  lemma {:induction false} IntervalsInverse(intervals: seq<nat>, tail: Bytes)
    requires forall i :: 0 <= i < |intervals| ==> intervals[i] < U32_LIMIT
    requires |tail| < 4
    ensures Intervals(PrintIntervals(intervals) + tail) == intervals
  {
    if intervals != [] {
      var b := PrintIntervals(intervals) + tail;
      IntervalsInverse(intervals[1..], tail);
      LittleEndianInverse(intervals[0]);
      assert b[..4] == ToLe32(intervals[0]);
      assert b[4..] == PrintIntervals(intervals[1..]) + tail;
    }
  }

  lemma PrintedFrameFields(f: UvcFrame, tail: Bytes)
    requires FieldsFit(f)
    ensures var p := PrintFrame(f) + tail;
      && |p| >= 18 && p[0] == f.frameIndex && p[1] == f.capabilities
      && p[2..4] == ToLe16(f.width) && p[4..6] == ToLe16(f.height)
      && p[6..10] == ToLe32(f.minBitRate) && p[10..14] == ToLe32(f.maxBitRate)
      && p[14..18] == ToLe32(f.defaultFrameInterval)
      && p[18..] == PrintIntervals(f.frameIntervals) + tail
  {
  }

  /** Parsing a printed frame descriptor gives the frame back; up to three stray bytes at the end change nothing. */
  lemma FrameRoundTrip(f: UvcFrame, header: Header, kind: Kind, tail: Bytes)
    requires FieldsFit(f) && |tail| < 4
    ensures ParseFrame(StreamingDescriptor(header, kind, PrintFrame(f) + tail)) == Ok(f)
  {
    PrintedFrameFields(f, tail);
    LittleEndianInverse(f.width);
    LittleEndianInverse(f.height);
    LittleEndianInverse(f.minBitRate);
    LittleEndianInverse(f.maxBitRate);
    LittleEndianInverse(f.defaultFrameInterval);
    IntervalsInverse(f.frameIntervals, tail);
  }

  // ---------------------------------------------------------------- printing an endpoint descriptor

  function EndpointRecord(e: EndpointDescriptor): Record
    requires e.maxPacketSize < 0x1_0000
  {
    Record(ENDPOINT, [e.address, e.attributes] + ToLe16(e.maxPacketSize) + [e.interval] + e.extra)
  }

  /** Parsing a printed endpoint descriptor gives it back, wherever it stands. */
  lemma EndpointRoundTrip(before: Bytes, e: EndpointDescriptor, rest: Bytes)
    requires e.maxPacketSize < 0x1_0000 && |e.extra| <= 248
    ensures EndpointRecord(e).WellFormed()
    ensures ParseEndpoint(before + Print(EndpointRecord(e)) + rest, |before|) == Ok(e)
  {
    var r := EndpointRecord(e);
    ParsePrinted(before, r, rest);
    LittleEndianInverse(e.maxPacketSize);
    assert r.body[2..4] == ToLe16(e.maxPacketSize) && r.body[5..] == e.extra;
  }

  // ---------------------------------------------------------------- printing a format descriptor

  /** A format descriptor parses exactly when it is long enough for its subtype. */
  lemma FormatParsesExactly(d: StreamingDescriptor)
    ensures ParseFormat(d).Ok? <==> |d.payload| >= if d.Subtype() == FORMAT_UNCOMPRESSED then 22 else 3
    ensures ParseFormat(d).Ok? ==> ParseFormat(d).value.frames == []
  {
  }

  /** Which byte each field of a parsed format is; what a short MJPEG payload lacks reads as 0 or as absent, and other
      subtypes take byte 0 for the default frame. */
  lemma FormatFieldsExactly(d: StreamingDescriptor)
    requires ParseFormat(d).Ok?
    ensures var f, p, n := ParseFormat(d).value, d.payload, |d.payload|;
      && f.formatIndex == p[0] && f.numberOfFrameDescriptors == p[1]
      && (d.Subtype() == 6 ==>
           && f.formatType == MjpegType && f.guid == None && f.bitsPerPixel == p[2]
           && f.defaultFrameIndex == (if n > 3 then p[3] else 0)
           && f.aspectRatio == (if n > 5 then Some((p[4], p[5])) else None))
      && (d.Subtype() == 4 ==>
           && f.formatType == UncompressedType && f.guid == Some(p[2..18]) && f.bitsPerPixel == p[18]
           && f.defaultFrameIndex == p[19] && f.aspectRatio == Some((p[20], p[21])))
      && (d.Subtype() != 4 && d.Subtype() != 6 ==>
           && f.formatType == UnknownType(d.Subtype()) && f.guid == None && f.bitsPerPixel == p[2]
           && f.defaultFrameIndex == p[0] && f.aspectRatio == None)
  {
  }

  /** What a parsed format, frames aside, can look like: an uncompressed one is complete; an MJPEG one may lack its
      aspect ratio; any other repeats its own index as the default frame, which is read from byte 0. */
  predicate FormatFits(f: UvcFormat) {
    match f.formatType
    case MjpegType => f.guid == None
    case UncompressedType => f.guid.Some? && |f.guid.value| == 16 && f.aspectRatio.Some?
    case UnknownType(subtype) =>
      && subtype != FORMAT_MJPEG && subtype != FORMAT_UNCOMPRESSED
      && f.guid == None && f.aspectRatio == None && f.defaultFrameIndex == f.formatIndex
  }

  function FormatSubtype(f: UvcFormat): Byte {
    match f.formatType
    case MjpegType => FORMAT_MJPEG
    case UncompressedType => FORMAT_UNCOMPRESSED
    case UnknownType(subtype) => subtype
  }

  function PrintFormat(f: UvcFormat): Bytes
    requires FormatFits(f)
  {
    [f.formatIndex, f.numberOfFrameDescriptors]
    + (if f.guid.Some? then f.guid.value else [])
    + [f.bitsPerPixel]
    + (if f.formatType.UnknownType? then [] else [f.defaultFrameIndex])
    + (if f.aspectRatio.Some? then [f.aspectRatio.value.0, f.aspectRatio.value.1] else [])
  }

  /** Parsing a printed format descriptor gives the format back, still without frames. */
  lemma FormatRoundTrip(f: UvcFormat, d: StreamingDescriptor)
    requires FormatFits(f) && d.Subtype() == FormatSubtype(f) && d.payload == PrintFormat(f)
    ensures ParseFormat(d) == Ok(f.(frames := []))
  {
    if f.guid.Some? {
      assert d.payload[2..18] == f.guid.value;
    }
  }

  ghost predicate ParsesTo(f: UvcFormat) {
    exists d :: ParseFormat(d) == Ok(f)
  }

  lemma ParsedFormatFits(d: StreamingDescriptor)
    requires ParseFormat(d).Ok?
    ensures var f := ParseFormat(d).value;
      FormatFits(f) && f.frames == [] && FormatSubtype(f) == d.Subtype()
  {
  }

  /** The parser's results are exactly the formats described, and each is recovered from its printed form. */
  lemma FormatImageExactly(f: UvcFormat)
    ensures ParsesTo(f) <==> FormatFits(f) && f.frames == []
  {
    if ParsesTo(f) {
      var d :| ParseFormat(d) == Ok(f);
      ParsedFormatFits(d);
    }
    if FormatFits(f) && f.frames == [] {
      var d := StreamingDescriptor(Header(3 + |PrintFormat(f)|, CLASS_SPECIFIC_VIDEO, Some(FormatSubtype(f))), Format,
                                   PrintFormat(f));
      FormatRoundTrip(f, d);
      assert ParseFormat(d) == Ok(f);
    }
  }

  // ---------------------------------------------------------------- grouping, declared

  predicate FormatAt(ds: seq<StreamingDescriptor>, i: nat) {
    i < |ds| && ds[i].kind.Format? && ParseFormat(ds[i]).Ok?
  }

  predicate FrameAt(ds: seq<StreamingDescriptor>, j: nat) {
    j < |ds| && ds[j].kind.Frame? && ParseFrame(ds[j]).Ok?
  }

  /** Nothing strictly between i and n is a parsed format or of a kind other than Format and Frame. */
  predicate Clear(ds: seq<StreamingDescriptor>, i: nat, n: nat)
    requires n <= |ds|
  {
    forall k :: i < k < n ==> !FormatAt(ds, k) && (ds[k].kind.Format? || ds[k].kind.Frame?)
  }

  /** The format at i is the nearest parsed one before the parsed frame at j, and nothing separates them. */
  predicate Owns(ds: seq<StreamingDescriptor>, i: nat, j: nat) {
    i < j && FormatAt(ds, i) && FrameAt(ds, j) && Clear(ds, i, j)
  }

  /** The frames before position m that belong to the format at i, in order. */
  function OwnedFrames(ds: seq<StreamingDescriptor>, i: nat, m: nat): seq<UvcFrame>
    requires m <= |ds|
  {
    if m == 0 then []
    else OwnedFrames(ds, i, m - 1) + if Owns(ds, i, m - 1) then [ParseFrame(ds[m - 1]).value] else []
  }

  /** The format at position i, if one parses there, with its frames before position m. */
  function Entry(ds: seq<StreamingDescriptor>, i: nat, m: nat): seq<UvcFormat>
    requires m <= |ds|
  {
    if FormatAt(ds, i) then [ParseFormat(ds[i]).value.(frames := OwnedFrames(ds, i, m))] else []
  }

  /** The formats before position n, in order, each with its frames before position m. */
  function Declared(ds: seq<StreamingDescriptor>, n: nat, m: nat): seq<UvcFormat>
    requires n <= |ds| && m <= |ds|
  {
    if n == 0 then []
    else Declared(ds, n - 1, m) + Entry(ds, n - 1, m)
  }

  /** Every frame descriptor has at most one owner. */
  lemma OwnerUnique(ds: seq<StreamingDescriptor>, i: nat, j: nat)
    requires Owns(ds, i, j)
    ensures forall k: nat :: k != i ==> !Owns(ds, k, j)
  {
  }

  lemma {:induction false} DeclaredLength(ds: seq<StreamingDescriptor>, n: nat, m: nat, m': nat)
    requires n <= |ds| && m <= |ds| && m' <= |ds|
    ensures |Declared(ds, n, m)| == |Declared(ds, n, m')|
  {
    if n > 0 {
      DeclaredLength(ds, n - 1, m, m');
    }
  }

  lemma {:induction false} NoFramesBeforeFormat(ds: seq<StreamingDescriptor>, i: nat, m: nat)
    requires m <= |ds| && m <= i + 1
    ensures OwnedFrames(ds, i, m) == []
  {
    if m > 0 {
      NoFramesBeforeFormat(ds, i, m - 1);
    }
  }

  function WithFrame(format: UvcFormat, frame: UvcFrame): UvcFormat {
    format.(frames := format.frames + [frame])
  }

  lemma EntryStep(ds: seq<StreamingDescriptor>, i: nat, m: nat)
    requires i < |ds| && m < |ds|
    ensures !Owns(ds, i, m) ==> Entry(ds, i, m + 1) == Entry(ds, i, m)
    ensures Owns(ds, i, m) ==>
      Entry(ds, i, m) != [] && Entry(ds, i, m + 1) == [WithFrame(Entry(ds, i, m)[0], ParseFrame(ds[m]).value)]
  {
    if !Owns(ds, i, m) {
      assert OwnedFrames(ds, i, m + 1) == OwnedFrames(ds, i, m);
    }
  }

  /** A position owned by none of the first n formats adds nothing to them. */
  lemma {:induction false} UnownedChangesNothing(ds: seq<StreamingDescriptor>, n: nat, m: nat)
    requires n <= |ds| && m < |ds|
    requires forall i :: 0 <= i < n ==> !Owns(ds, i, m)
    ensures Declared(ds, n, m + 1) == Declared(ds, n, m)
  {
    if n > 0 {
      UnownedChangesNothing(ds, n - 1, m);
      EntryStep(ds, n - 1, m);
    }
  }

  /** A position owned by the format at i appends its frame to that format alone. */
  lemma {:induction false} OwnedAppends(ds: seq<StreamingDescriptor>, i: nat, n: nat, m: nat)
    requires i < n <= |ds| && m < |ds| && Owns(ds, i, m)
    ensures var before, at := Declared(ds, n, m), |Declared(ds, i, m)|;
      && at < |before|
      && Declared(ds, n, m + 1) == before[at := WithFrame(before[at], ParseFrame(ds[m]).value)]
  {
    EntryStep(ds, n - 1, m);
    OwnerUnique(ds, i, m);
    var before, at, frame := Declared(ds, n - 1, m), |Declared(ds, i, m)|, ParseFrame(ds[m]).value;
    if i == n - 1 {
      UnownedChangesNothing(ds, i, m);
      UpdateLast(before, Entry(ds, i, m)[0], WithFrame(Entry(ds, i, m)[0], frame));
    } else {
      OwnedAppends(ds, i, n - 1, m);
      UpdateAppend(before, Entry(ds, n - 1, m), at, WithFrame(before[at], frame));
    }
  }

  lemma UpdateLast<T>(a: seq<T>, last: T, v: T)
    ensures (a + [last])[|a| := v] == a + [v]
  {
  }

  lemma UpdateAppend<T>(a: seq<T>, b: seq<T>, at: nat, v: T)
    requires at < |a|
    ensures (a + b)[at := v] == a[at := v] + b
  {
  }

  // ---------------------------------------------------------------- grouping, computed

  /** The loop's variables: the formats so far, and the one frames are added to. */
  datatype Building = Building(formats: seq<UvcFormat>, current: Option<nat>) {
    predicate InRange() { current.Some? ==> current.value < |formats| }
  }

  /** One turn of the loop of `build_formats`; the stored index stays in range. */
  function BuildStep(b: Building, d: StreamingDescriptor): (r: Building)
    requires b.InRange()
    ensures r.InRange()
  {
    match d.kind
    case Format =>
      (match ParseFormat(d)
       case Ok(format) => Building(b.formats + [format], Some(|b.formats|))
       case Err(_) => b)
    case Frame =>
      if b.current.Some? && ParseFrame(d).Ok? then
        var at := b.current.value;
        b.(formats := b.formats[at := WithFrame(b.formats[at], ParseFrame(d).value)])
      else b
    case _ => b.(current := None)
  }

  function Build(b: Building, ds: seq<StreamingDescriptor>): (r: Building)
    requires b.InRange()
    ensures r.InRange()
    decreases |ds|
  {
    if ds == [] then b else Build(BuildStep(b, ds[0]), ds[1..])
  }

  const NOTHING_BUILT := Building([], None)

  lemma {:induction false} BuildAppend(b: Building, a: seq<StreamingDescriptor>, c: seq<StreamingDescriptor>)
    requires b.InRange()
    ensures Build(b, a + c) == Build(Build(b, a), c)
    decreases |a|
  {
    if a == [] {
      assert a + c == c;
    } else {
      assert (a + c)[0] == a[0] && (a + c)[1..] == a[1..] + c;
      BuildAppend(BuildStep(b, a[0]), a[1..], c);
    }
  }

  lemma BuildCons(b: Building, d: StreamingDescriptor, rest: seq<StreamingDescriptor>)
    requires b.InRange()
    ensures Build(b, [d] + rest) == Build(BuildStep(b, d), rest)
  {
    assert ([d] + rest)[0] == d && ([d] + rest)[1..] == rest;
  }

  /** `build_formats`. */
  method BuildFormats(ds: seq<StreamingDescriptor>) returns (formats: seq<UvcFormat>)
    ensures formats == Build(NOTHING_BUILT, ds).formats
  {
    formats := [];
    var current: Option<nat> := None;
    for n := 0 to |ds|
      invariant Building(formats, current).InRange()
      invariant Build(NOTHING_BUILT, ds) == Build(Building(formats, current), ds[n..])
    {
      assert ds[n..][0] == ds[n] && ds[n..][1..] == ds[n + 1..];
      match ds[n].kind
      case Format =>
        var format := ParseFormat(ds[n]);
        if format.Ok? {
          current := Some(|formats|);
          formats := formats + [format.value];
        }
      case Frame =>
        var frame := ParseFrame(ds[n]);
        if current.Some? && frame.Ok? {
          var at := current.value;
          formats := formats[at := WithFrame(formats[at], frame.value)];
        }
      case _ => current := None;
    }
  }

  /** What the loop variable `current_format` stands for: the last format, if still open at n. */
  ghost predicate CurrentIs(ds: seq<StreamingDescriptor>, n: nat, current: Option<nat>, at: nat)
    requires n <= |ds|
  {
    match current
    case Some(index) => at < n && FormatAt(ds, at) && Clear(ds, at, n) && index == |Declared(ds, at, n)|
    case None => forall i :: 0 <= i < n && FormatAt(ds, i) ==> !Clear(ds, i, n)
  }

  lemma StaysClosed(ds: seq<StreamingDescriptor>, n: nat, at: nat)
    requires n < |ds| && CurrentIs(ds, n, None, at) && !FormatAt(ds, n)
    ensures CurrentIs(ds, n + 1, None, at)
  {
    forall i | 0 <= i < n + 1 && FormatAt(ds, i)
      ensures !Clear(ds, i, n + 1)
    {
      assert i < n && !Clear(ds, i, n);
    }
  }

  /** The loop's variables before turn n are what the declaration says. */
  ghost predicate Follows(ds: seq<StreamingDescriptor>, n: nat, b: Building, at: nat)
    requires n <= |ds|
  {
    b.InRange() && b.formats == Declared(ds, n, n) && CurrentIs(ds, n, b.current, at)
  }

  /** The position of a parsed format adds that format, still without frames. */
  lemma FormatDeclared(ds: seq<StreamingDescriptor>, n: nat)
    requires n < |ds| && FormatAt(ds, n)
    ensures Declared(ds, n + 1, n + 1) == Declared(ds, n, n) + [ParseFormat(ds[n]).value]
  {
    UnownedChangesNothing(ds, n, n);
    NoFramesBeforeFormat(ds, n, n + 1);
    FormatParsesExactly(ds[n]);
    assert Entry(ds, n, n + 1) == [ParseFormat(ds[n]).value];
  }

  lemma FormatTurn(ds: seq<StreamingDescriptor>, n: nat, b: Building, at: nat)
    requires n < |ds| && Follows(ds, n, b, at) && FormatAt(ds, n)
    ensures Follows(ds, n + 1, BuildStep(b, ds[n]), n)
  {
    FormatDeclared(ds, n);
    UnownedChangesNothing(ds, n, n);
    assert Clear(ds, n, n + 1);
  }

  lemma OwnedFrameTurn(ds: seq<StreamingDescriptor>, n: nat, b: Building, at: nat)
    requires n < |ds| && Follows(ds, n, b, at) && FrameAt(ds, n) && b.current.Some?
    ensures Follows(ds, n + 1, BuildStep(b, ds[n]), at)
  {
    OwnedAppends(ds, at, n, n);
    DeclaredLength(ds, at, n, n + 1);
  }

  /** Any other position adds nothing. */
  lemma QuietDeclared(ds: seq<StreamingDescriptor>, n: nat, b: Building, at: nat)
    requires n < |ds| && Follows(ds, n, b, at) && !FormatAt(ds, n) && !(FrameAt(ds, n) && b.current.Some?)
    ensures Declared(ds, n + 1, n + 1) == Declared(ds, n, n)
  {
    UnownedChangesNothing(ds, n, n);
    assert Entry(ds, n, n + 1) == [];
  }

  lemma QuietTurn(ds: seq<StreamingDescriptor>, n: nat, b: Building, at: nat)
    requires n < |ds| && Follows(ds, n, b, at) && !FormatAt(ds, n) && !(FrameAt(ds, n) && b.current.Some?)
    ensures Follows(ds, n + 1, BuildStep(b, ds[n]), at)
  {
    QuietDeclared(ds, n, b, at);
    if b.current.Some? {
      DeclaredLength(ds, at, n, n + 1);
    } else {
      StaysClosed(ds, n, at);
    }
  }

  lemma FollowsTurn(ds: seq<StreamingDescriptor>, n: nat, b: Building, at: nat) returns (next: nat)
    requires n < |ds| && Follows(ds, n, b, at)
    ensures Follows(ds, n + 1, BuildStep(b, ds[n]), next)
  {
    next := at;
    if FormatAt(ds, n) {
      FormatTurn(ds, n, b, at);
      next := n;
    } else if FrameAt(ds, n) && b.current.Some? {
      OwnedFrameTurn(ds, n, b, at);
    } else {
      QuietTurn(ds, n, b, at);
    }
  }

  /** Turn by turn the loop follows the declaration. */
  lemma {:induction false} BuildPrefixDeclared(ds: seq<StreamingDescriptor>, n: nat) returns (at: nat)
    requires n <= |ds|
    ensures Follows(ds, n, Build(NOTHING_BUILT, ds[..n]), at)
  {
    if n == 0 {
      at := 0;
    } else {
      at := BuildPrefixDeclared(ds, n - 1);
      at := FollowsTurn(ds, n - 1, Build(NOTHING_BUILT, ds[..n - 1]), at);
      assert ds[..n] == ds[..n - 1] + [ds[n - 1]];
      BuildSnoc(NOTHING_BUILT, ds[..n - 1], ds[n - 1]);
    }
  }

  lemma BuildSnoc(b: Building, a: seq<StreamingDescriptor>, d: StreamingDescriptor)
    requires b.InRange()
    ensures Build(b, a + [d]) == BuildStep(Build(b, a), d)
  {
    BuildAppend(b, a, [d]);
    BuildCons(Build(b, a), d, []);
    assert [d] + [] == [d];
  }

  /** The loop computes the declared grouping, for every list of descriptors. */
  lemma BuildIsDeclared(ds: seq<StreamingDescriptor>)
    ensures Build(NOTHING_BUILT, ds).formats == Declared(ds, |ds|, |ds|)
  {
    assert ds[..|ds|] == ds;
    var at := BuildPrefixDeclared(ds, |ds|);
  }

  // ---------------------------------------------------------------- the walk

  datatype StreamInterface = StreamInterface(interfaceNumber: Byte, alternateSetting: Byte,
                                             classSpecific: seq<StreamingDescriptor>,
                                             endpoints: seq<EndpointDescriptor>, formats: seq<UvcFormat>)

  /** The interface a record list stands for. */
  function Interface(interfaceNumber: Byte, alternateSetting: Byte, records: seq<Record>): StreamInterface
    requires WellFormed(records)
  {
    var ds := ClassSpecific(records);
    StreamInterface(interfaceNumber, alternateSetting, ds, Endpoints(records), Declared(ds, |ds|, |ds|))
  }

  // ---------------------------------------------------------------- grouping, told from the records

  /** A class-specific record of a format subtype, long enough to parse. */
  predicate FormatRecordAt(records: seq<Record>, i: nat)
    requires WellFormed(records)
  {
    && i < |records| && records[i].descriptorType == 0x24
    && (records[i].body[0] == 2 || records[i].body[0] == 4 || records[i].body[0] == 6)
    && |records[i].body| > if records[i].body[0] == 4 then 22 else 3
  }

  /** A class-specific record of a frame subtype, long enough to parse. */
  predicate FrameRecordAt(records: seq<Record>, j: nat)
    requires WellFormed(records)
  {
    && j < |records| && records[j].descriptorType == 0x24
    && (records[j].body[0] == 5 || records[j].body[0] == 7)
    && |records[j].body| > 18
  }

  /** No class-specific record strictly between two is a parsed format, or of a subtype other than 2, 4, 5, 6 and 7. */
  predicate NothingBetween(records: seq<Record>, i: nat, j: nat)
    requires WellFormed(records) && j <= |records|
  {
    forall k :: i < k < j && records[k].descriptorType == 0x24 ==>
      !FormatRecordAt(records, k) && (records[k].body[0] == 2 || 4 <= records[k].body[0] <= 7)
  }

  predicate RecordOwns(records: seq<Record>, i: nat, j: nat)
    requires WellFormed(records)
  {
    i < j && FormatRecordAt(records, i) && FrameRecordAt(records, j) && NothingBetween(records, i, j)
  }

  /** The frames of the records before m that belong to the format record at i, in order. */
  function RecordFrames(records: seq<Record>, i: nat, m: nat): seq<UvcFrame>
    requires WellFormed(records) && m <= |records|
  {
    if m == 0 then []
    else
      RecordFrames(records, i, m - 1)
      + if RecordOwns(records, i, m - 1) then [ParseFrame(AsStreaming(records[m - 1])).value] else []
  }

  /** The formats of the records before n, in order, each with its frames before m. */
  function RecordFormats(records: seq<Record>, n: nat, m: nat): seq<UvcFormat>
    requires WellFormed(records) && n <= |records| && m <= |records|
  {
    if n == 0 then []
    else
      RecordFormats(records, n - 1, m)
      + if FormatRecordAt(records, n - 1)
        then (FormatParsesExactly(AsStreaming(records[n - 1]));
              [ParseFormat(AsStreaming(records[n - 1])).value.(frames := RecordFrames(records, n - 1, m))])
        else []
  }

  /** How many class-specific records stand before position n. */
  function Pos(records: seq<Record>, n: nat): nat
    requires WellFormed(records) && n <= |records|
  {
    |ClassSpecific(records[..n])|
  }

  lemma PosStep(records: seq<Record>, n: nat)
    requires WellFormed(records) && n < |records|
    ensures var video := records[n].descriptorType == 0x24;
      && Pos(records, n + 1) == Pos(records, n) + (if video then 1 else 0)
      && Pos(records, n + 1) <= |ClassSpecific(records)|
      && (video ==> ClassSpecific(records)[Pos(records, n)] == AsStreaming(records[n]))
  {
    var before, r, after := records[..n], records[n], records[n + 1..];
    assert records[..n + 1] == before + [r] && records == (before + [r]) + after;
    ClassSpecificAppend(before, [r]);
    ClassSpecificAppend(before + [r], after);
    assert [r][1..] == [];
  }

  lemma {:induction false} PosMonotone(records: seq<Record>, i: nat, j: nat)
    requires WellFormed(records) && i <= j <= |records|
    ensures Pos(records, i) <= Pos(records, j)
    ensures i < j && records[i].descriptorType == 0x24 ==> Pos(records, i) < Pos(records, j)
    decreases j
  {
    if i < j {
      PosStep(records, j - 1);
      PosMonotone(records, i, j - 1);
    }
  }

  /** Every position of the class-specific list comes from a record. */
  lemma {:induction false} PosOnto(records: seq<Record>, j: nat, q: nat) returns (k: nat)
    requires WellFormed(records) && j <= |records| && q < Pos(records, j)
    ensures k < j && records[k].descriptorType == 0x24 && Pos(records, k) == q
    decreases j
  {
    PosStep(records, j - 1);
    if q < Pos(records, j - 1) {
      k := PosOnto(records, j - 1, q);
    } else {
      k := j - 1;
    }
  }

  lemma KindsAtPos(records: seq<Record>, k: nat)
    requires WellFormed(records) && k < |records| && records[k].descriptorType == 0x24
    ensures var ds, q := ClassSpecific(records), Pos(records, k);
      && q < |ds| && ds[q] == AsStreaming(records[k])
      && (FormatAt(ds, q) <==> FormatRecordAt(records, k))
      && (FrameAt(ds, q) <==> FrameRecordAt(records, k))
      && (ds[q].kind.Format? || ds[q].kind.Frame? <==> records[k].body[0] == 2 || 4 <= records[k].body[0] <= 7)
  {
    PosStep(records, k);
    StreamingOfRecord(records[k]);
    FormatParsesExactly(AsStreaming(records[k]));
  }

  lemma ClearByRecords(records: seq<Record>, i: nat, j: nat)
    requires WellFormed(records) && i < j < |records|
    requires records[i].descriptorType == 0x24 && records[j].descriptorType == 0x24
    ensures Pos(records, j) <= |ClassSpecific(records)|
    ensures NothingBetween(records, i, j) <==> Clear(ClassSpecific(records), Pos(records, i), Pos(records, j))
  {
    var ds := ClassSpecific(records);
    KindsAtPos(records, j);
    if NothingBetween(records, i, j) {
      forall q | Pos(records, i) < q < Pos(records, j)
        ensures !FormatAt(ds, q) && (ds[q].kind.Format? || ds[q].kind.Frame?)
      {
        var k := PosOnto(records, j, q);
        if k <= i {
          PosMonotone(records, k, i);
        }
        KindsAtPos(records, k);
      }
    }
    if Clear(ds, Pos(records, i), Pos(records, j)) {
      forall k | i < k < j && records[k].descriptorType == 0x24
        ensures !FormatRecordAt(records, k) && (records[k].body[0] == 2 || 4 <= records[k].body[0] <= 7)
      {
        PosMonotone(records, i, k);
        PosMonotone(records, k, j);
        KindsAtPos(records, k);
      }
    }
  }

  lemma OwnsByRecords(records: seq<Record>, i: nat, j: nat)
    requires WellFormed(records) && i < |records| && j < |records|
    requires records[i].descriptorType == 0x24 && records[j].descriptorType == 0x24
    ensures RecordOwns(records, i, j) <==> Owns(ClassSpecific(records), Pos(records, i), Pos(records, j))
  {
    KindsAtPos(records, i);
    KindsAtPos(records, j);
    if i < j {
      PosMonotone(records, i, j);
      ClearByRecords(records, i, j);
    } else {
      PosMonotone(records, j, i);
    }
  }

  lemma {:induction false} FramesByRecords(records: seq<Record>, i: nat, m: nat)
    requires WellFormed(records) && i < |records| && m <= |records| && records[i].descriptorType == 0x24
    ensures Pos(records, m) <= |ClassSpecific(records)|
    ensures RecordFrames(records, i, m) == OwnedFrames(ClassSpecific(records), Pos(records, i), Pos(records, m))
    decreases m
  {
    if m > 0 {
      PosStep(records, m - 1);
      FramesByRecords(records, i, m - 1);
      if records[m - 1].descriptorType == 0x24 {
        OwnsByRecords(records, i, m - 1);
      }
    }
  }

  lemma {:induction false} FormatsByRecords(records: seq<Record>, n: nat)
    requires WellFormed(records) && n <= |records|
    ensures Pos(records, n) <= |ClassSpecific(records)|
    ensures RecordFormats(records, n, |records|) ==
            Declared(ClassSpecific(records), Pos(records, n), |ClassSpecific(records)|)
    decreases n
  {
    if n > 0 {
      PosStep(records, n - 1);
      FormatsByRecords(records, n - 1);
      if records[n - 1].descriptorType == 0x24 {
        KindsAtPos(records, n - 1);
        FramesByRecords(records, n - 1, |records|);
        assert records[..|records|] == records;
      }
    }
  }

  /** The formats of an interface, told from its records: one for each class-specific record of subtype 2, 4 or 6 that
      parses, in order, with the frames of exactly the records of subtype 5 or 7 that parse and have it before them with
      nothing between: no other parsed format and no class-specific record of any other subtype. */
  lemma InterfaceFormatsExactly(interfaceNumber: Byte, alternateSetting: Byte, records: seq<Record>)
    requires WellFormed(records)
    ensures Interface(interfaceNumber, alternateSetting, records).formats ==
            RecordFormats(records, |records|, |records|)
  {
    FormatsByRecords(records, |records|);
    assert records[..|records|] == records;
  }

  /** Where the walk stops short, the input is no concatenation of records. */
  lemma StuckMeansRejected(records: seq<Record>, input: Bytes, offset: nat)
    requires WellFormed(records) && offset < |input| && PrintAll(records) == input[..offset]
    requires !StepOk(input, offset)
    ensures !Accepts(input)
  {
    assert input == PrintAll(records) + input[offset..];
    AcceptsConcatenation(records, input[offset..]);
    if Accepts(input[offset..]) {
      var b :| WellFormed(b) && PrintAll(b) == input[offset..];
      assert input == input[..offset] + Print(b[0]) + PrintAll(b[1..]);
      ParsePrinted(input[..offset], b[0], PrintAll(b[1..]));
    }
  }

  /** The bytes up to the next offset are one more record. */
  lemma WalkPrints(records: seq<Record>, input: Bytes, offset: nat, r: Record)
    requires WellFormed(records) && r.WellFormed() && offset + |Print(r)| <= |input|
    requires PrintAll(records) == input[..offset] && Print(r) == input[offset..offset + |Print(r)|]
    ensures WellFormed(records + [r]) && PrintAll(records + [r]) == input[..offset + |Print(r)|]
  {
    PrintAllAppend(records, [r]);
    assert PrintAll([r]) == Print(r) + PrintAll([]);
    assert input[..offset + |Print(r)|] == input[..offset] + Print(r);
  }

  /** The lists grow by what the one record stands for. */
  lemma WalkCollects(records: seq<Record>, r: Record)
    requires WellFormed(records) && r.WellFormed()
    ensures WellFormed(records + [r])
    ensures ClassSpecific(records + [r]) ==
            ClassSpecific(records) + if r.descriptorType == CLASS_SPECIFIC_VIDEO then [AsStreaming(r)] else []
    ensures Endpoints(records + [r]) ==
            Endpoints(records) + if r.descriptorType == ENDPOINT then [AsEndpoint(r)] else []
  {
    RecordsAppend(records, [r]);
    assert [r][1..] == [];
  }

  /** One step of the walk consumes one well-formed record. */
  lemma WalkStep(records: seq<Record>, input: Bytes, offset: nat)
    requires WellFormed(records) && offset < |input| && PrintAll(records) == input[..offset]
    requires StepOk(input, offset)
    ensures var r, next := RecordAt(input, offset), offset + ParseHeaderAt(input, offset).value.length;
      && WellFormed(records + [r])
      && PrintAll(records + [r]) == input[..next]
      && ClassSpecific(records + [r]) ==
         ClassSpecific(records)
         + (if r.descriptorType == CLASS_SPECIFIC_VIDEO then [ParseStreaming(input, offset).value] else [])
      && Endpoints(records + [r]) ==
         Endpoints(records)
         + (if r.descriptorType == ENDPOINT then [ParseEndpoint(input, offset).value] else [])
  {
    var r := RecordAt(input, offset);
    StepOkIsWellFormed(input, offset);
    WalkPrints(records, input, offset, r);
    WalkCollects(records, r);
    assert input == input[..offset] + Print(r) + input[offset + |Print(r)|..];
    ParsePrinted(input[..offset], r, input[offset + |Print(r)|..]);
  }

  /** `UvcStreamInterface::parse`: it succeeds exactly on concatenations of well-formed records, and what it
      returns is what those records stand for, in order. */
  method ParseInterface(interfaceNumber: Byte, alternateSetting: Byte, input: Bytes)
    returns (r: Result<StreamInterface>)
    ensures r.Ok? <==> Accepts(input)
    ensures r.Err? ==> r.error == InvalidArgument
    ensures r.Ok? ==> r.value.interfaceNumber == interfaceNumber && r.value.alternateSetting == alternateSetting
    ensures forall records :: WellFormed(records) && PrintAll(records) == input ==>
      && r == Ok(Interface(interfaceNumber, alternateSetting, records))
      && r.value.formats == RecordFormats(records, |records|, |records|)
  {
    var classSpecific, endpoints, offset := [], [], 0;
    ghost var records: seq<Record> := [];
    while offset < |input|
      invariant offset <= |input| && WellFormed(records) && PrintAll(records) == input[..offset]
      invariant classSpecific == ClassSpecific(records) && endpoints == Endpoints(records)
      decreases |input| - offset
    {
      var header := ParseHeaderAt(input, offset);
      if header.Err? {
        StuckMeansRejected(records, input, offset);
        return Err(header.error);
      }
      if header.value.descriptorType == CLASS_SPECIFIC_VIDEO {
        var d := ParseStreaming(input, offset);
        if d.Err? {
          StuckMeansRejected(records, input, offset);
          return Err(d.error);
        }
        classSpecific := classSpecific + [d.value];
      } else if header.value.descriptorType == ENDPOINT {
        var e := ParseEndpoint(input, offset);
        if e.Err? {
          StuckMeansRejected(records, input, offset);
          return Err(e.error);
        }
        endpoints := endpoints + [e.value];
      }
      WalkStep(records, input, offset);
      records := records + [RecordAt(input, offset)];
      offset := offset + header.value.length;
    }
    var formats := BuildFormats(classSpecific);
    BuildIsDeclared(classSpecific);
    assert PrintAll(records) == input;
    forall others | WellFormed(others) && PrintAll(others) == input
      ensures others == records
    {
      DecompositionUnique(others, records);
    }
    InterfaceFormatsExactly(interfaceNumber, alternateSetting, records);
    r := Ok(StreamInterface(interfaceNumber, alternateSetting, classSpecific, endpoints, formats));
  }

  // ---------------------------------------------------------------- printing a whole stream

  function FrameSubtype(f: UvcFormat): Byte {
    if f.formatType == MjpegType then FRAME_MJPEG else FRAME_UNCOMPRESSED
  }

  /** At most 58 intervals keep a frame record within its length byte. */
  predicate FrameStreamable(f: UvcFrame) { FieldsFit(f) && |f.frameIntervals| <= 58 }

  /** A format that fits a stream: beside MJPEG and uncompressed only subtype 2 is taken for a format. */
  predicate Streamable(f: UvcFormat) {
    && FormatFits(f)
    && (f.formatType.UnknownType? ==> f.formatType.subtype == 0x02)
    && forall i :: 0 <= i < |f.frames| ==> FrameStreamable(f.frames[i])
  }

  function FrameRecord(subtype: Byte, frame: UvcFrame): Record
    requires FrameStreamable(frame)
  {
    Record(CLASS_SPECIFIC_VIDEO, [subtype] + PrintFrame(frame))
  }

  function FrameRecords(subtype: Byte, frames: seq<UvcFrame>): seq<Record>
    requires forall i :: 0 <= i < |frames| ==> FrameStreamable(frames[i])
  {
    if frames == [] then []
    else
      assert FrameStreamable(frames[0]);
      [FrameRecord(subtype, frames[0])] + FrameRecords(subtype, frames[1..])
  }

  /** A format descriptor followed by its frame descriptors. */
  function FormatRecords(f: UvcFormat): seq<Record>
    requires Streamable(f)
  {
    [Record(CLASS_SPECIFIC_VIDEO, [FormatSubtype(f)] + PrintFormat(f))] + FrameRecords(FrameSubtype(f), f.frames)
  }

  function StreamRecords(formats: seq<UvcFormat>): seq<Record>
    requires forall i :: 0 <= i < |formats| ==> Streamable(formats[i])
  {
    if formats == [] then [] else FormatRecords(formats[0]) + StreamRecords(formats[1..])
  }

  lemma {:induction false} PrintIntervalsLength(intervals: seq<nat>)
    requires forall i :: 0 <= i < |intervals| ==> intervals[i] < U32_LIMIT
    ensures |PrintIntervals(intervals)| == 4 * |intervals|
  {
    if intervals != [] {
      PrintIntervalsLength(intervals[1..]);
    }
  }

  lemma ClassSpecificCons(r: Record, rest: seq<Record>)
    requires r.WellFormed() && r.descriptorType == CLASS_SPECIFIC_VIDEO && WellFormed(rest)
    ensures WellFormed([r] + rest) && ClassSpecific([r] + rest) == [AsStreaming(r)] + ClassSpecific(rest)
  {
    assert ([r] + rest)[0] == r && ([r] + rest)[1..] == rest;
  }

  /** The current format with more frames. */
  function WithFrames(b: Building, frames: seq<UvcFrame>): (r: Building)
    requires b.InRange() && b.current.Some?
    ensures r.InRange() && r.current == b.current
  {
    var at := b.current.value;
    b.(formats := b.formats[at := b.formats[at].(frames := b.formats[at].frames + frames)])
  }

  lemma WithFramesAppend(b: Building, x: seq<UvcFrame>, y: seq<UvcFrame>)
    requires b.InRange() && b.current.Some?
    ensures WithFrames(b, []) == b
    ensures WithFrames(WithFrames(b, x), y) == WithFrames(b, x + y)
  {
    var frames := b.formats[b.current.value].frames;
    assert frames + [] == frames;
    ConcatAssociative(frames, x, y);
  }

  lemma FrameRecordsBuildFirst(subtype: Byte, frame: UvcFrame, rest: seq<Record>, later: seq<UvcFrame>, b: Building)
    requires subtype == FRAME_MJPEG || subtype == FRAME_UNCOMPRESSED
    requires FrameStreamable(frame) && WellFormed(rest) && b.InRange() && b.current.Some?
    requires Build(WithFrames(b, [frame]), ClassSpecific(rest)) == WithFrames(WithFrames(b, [frame]), later)
    ensures var r := FrameRecord(subtype, frame);
      WellFormed([r] + rest) && Build(b, ClassSpecific([r] + rest)) == WithFrames(b, [frame] + later)
  {
    var r := FrameRecord(subtype, frame);
    FrameRecordStep(subtype, frame, b);
    ClassSpecificCons(r, rest);
    BuildCons(b, AsStreaming(r), ClassSpecific(rest));
    WithFramesAppend(b, [frame], later);
  }

  lemma FrameRecordsCons(subtype: Byte, frame: UvcFrame, later: seq<UvcFrame>)
    requires FrameStreamable(frame) && forall i :: 0 <= i < |later| ==> FrameStreamable(later[i])
    ensures FrameRecords(subtype, [frame] + later) == [FrameRecord(subtype, frame)] + FrameRecords(subtype, later)
  {
    assert ([frame] + later)[0] == frame && ([frame] + later)[1..] == later;
  }

  lemma {:induction false} FrameRecordsBuild(subtype: Byte, frames: seq<UvcFrame>, b: Building)
    requires subtype == FRAME_MJPEG || subtype == FRAME_UNCOMPRESSED
    requires forall i :: 0 <= i < |frames| ==> FrameStreamable(frames[i])
    requires b.InRange() && b.current.Some?
    ensures WellFormed(FrameRecords(subtype, frames))
    ensures Build(b, ClassSpecific(FrameRecords(subtype, frames))) == WithFrames(b, frames)
    decreases |frames|
  {
    if frames == [] {
      WithFramesAppend(b, [], []);
    } else {
      var frame, later := frames[0], frames[1..];
      assert FrameStreamable(frame) && frames == [frame] + later;
      FrameRecordsBuild(subtype, later, WithFrames(b, [frame]));
      FrameRecordsBuildFirst(subtype, frame, FrameRecords(subtype, later), later, b);
      FrameRecordsCons(subtype, frame, later);
    }
  }

  lemma FrameRecordStep(subtype: Byte, frame: UvcFrame, b: Building)
    requires subtype == FRAME_MJPEG || subtype == FRAME_UNCOMPRESSED
    requires FrameStreamable(frame)
    requires b.InRange() && b.current.Some?
    ensures var r := FrameRecord(subtype, frame);
      r.WellFormed() && BuildStep(b, AsStreaming(r)) == WithFrames(b, [frame])
  {
    FrameRecordParses(subtype, frame);
  }

  lemma FrameRecordParses(subtype: Byte, frame: UvcFrame)
    requires subtype == FRAME_MJPEG || subtype == FRAME_UNCOMPRESSED
    requires FrameStreamable(frame)
    ensures var r := FrameRecord(subtype, frame);
      r.WellFormed() && AsStreaming(r).kind.Frame? && ParseFrame(AsStreaming(r)) == Ok(frame)
  {
    PrintIntervalsLength(frame.frameIntervals);
    var d := AsStreaming(FrameRecord(subtype, frame));
    assert d.payload == PrintFrame(frame) + [];
    FrameRoundTrip(frame, d.header, d.kind, []);
  }

  lemma FormatRecordsBuild(f: UvcFormat, b: Building)
    requires Streamable(f) && b.InRange()
    ensures WellFormed(FormatRecords(f))
    ensures Build(b, ClassSpecific(FormatRecords(f))) == Building(b.formats + [f], Some(|b.formats|))
  {
    var r := Record(CLASS_SPECIFIC_VIDEO, [FormatSubtype(f)] + PrintFormat(f));
    var rest := FrameRecords(FrameSubtype(f), f.frames);
    var begun := Building(b.formats + [f.(frames := [])], Some(|b.formats|));
    FormatRecordStep(f, b);
    FrameRecordsBuild(FrameSubtype(f), f.frames, begun);
    ClassSpecificCons(r, rest);
    BuildCons(b, AsStreaming(r), ClassSpecific(rest));
    FramesRestored(f, b.formats);
  }

  lemma FramesRestored(f: UvcFormat, formats: seq<UvcFormat>)
    ensures WithFrames(Building(formats + [f.(frames := [])], Some(|formats|)), f.frames) ==
            Building(formats + [f], Some(|formats|))
  {
    assert [] + f.frames == f.frames;
  }

  lemma FormatRecordStep(f: UvcFormat, b: Building)
    requires Streamable(f) && b.InRange()
    ensures var r := Record(CLASS_SPECIFIC_VIDEO, [FormatSubtype(f)] + PrintFormat(f));
      && r.WellFormed()
      && BuildStep(b, AsStreaming(r)) == Building(b.formats + [f.(frames := [])], Some(|b.formats|))
  {
    var d := AsStreaming(Record(CLASS_SPECIFIC_VIDEO, [FormatSubtype(f)] + PrintFormat(f)));
    assert d.payload == PrintFormat(f);
    FormatRoundTrip(f, d);
  }

  lemma {:induction false} StreamRecordsBuild(formats: seq<UvcFormat>, b: Building)
    requires forall i :: 0 <= i < |formats| ==> Streamable(formats[i])
    requires b.InRange()
    ensures WellFormed(StreamRecords(formats))
    ensures Build(b, ClassSpecific(StreamRecords(formats))).formats == b.formats + formats
    decreases |formats|
  {
    if formats == [] {
      assert b.formats + formats == b.formats;
    } else {
      FormatRecordsBuild(formats[0], b);
      var next := Building(b.formats + [formats[0]], Some(|b.formats|));
      StreamRecordsBuild(formats[1..], next);
      RecordsAppend(FormatRecords(formats[0]), StreamRecords(formats[1..]));
      BuildAppend(b, ClassSpecific(FormatRecords(formats[0])), ClassSpecific(StreamRecords(formats[1..])));
      ConcatAssociative(b.formats, [formats[0]], formats[1..]);
      assert [formats[0]] + formats[1..] == formats;
    }
  }

  /** Formats of a stream survive printing and parsing: the bytes of any list of streamable formats, each followed by
      its frames, are accepted, and what is parsed back is that list. */
  lemma StreamRoundTrip(interfaceNumber: Byte, alternateSetting: Byte, formats: seq<UvcFormat>)
    requires forall i :: 0 <= i < |formats| ==> Streamable(formats[i])
    ensures WellFormed(StreamRecords(formats)) && Accepts(PrintAll(StreamRecords(formats)))
    ensures Interface(interfaceNumber, alternateSetting, StreamRecords(formats)).formats == formats
  {
    StreamRecordsBuild(formats, NOTHING_BUILT);
    BuildIsDeclared(ClassSpecific(StreamRecords(formats)));
  }

  // ---------------------------------------------------------------- what a stream can be parsed to

  /** What a class-specific descriptor of a stream cannot exceed. */
  predicate Streamed(d: StreamingDescriptor) {
    d.header.descriptorSubtype.Some? && d.kind == KindOf(d.Subtype()) && |d.payload| <= 252
  }

  lemma {:induction false} ClassSpecificStreamed(records: seq<Record>)
    requires WellFormed(records)
    ensures forall i :: 0 <= i < |ClassSpecific(records)| ==> Streamed(ClassSpecific(records)[i])
  {
    if records != [] {
      ClassSpecificStreamed(records[1..]);
    }
  }

  lemma LeU32Bound(b: Bytes)
    requires |b| == 4
    ensures LeU32(b) < U32_LIMIT
  {
  }

  lemma {:induction false} IntervalsFit(b: Bytes)
    ensures |Intervals(b)| == |b| / 4
    ensures forall i :: 0 <= i < |Intervals(b)| ==> Intervals(b)[i] < U32_LIMIT
  {
    if |b| >= 4 {
      LeU32Bound(b[..4]);
      IntervalsFit(b[4..]);
    }
  }

  lemma ParsedFrameFits(d: StreamingDescriptor)
    requires Streamed(d) && ParseFrame(d).Ok?
    ensures FrameStreamable(ParseFrame(d).value)
  {
    var p := d.payload;
    LeU32Bound(p[6..10]);
    LeU32Bound(p[10..14]);
    LeU32Bound(p[14..18]);
    IntervalsFit(p[18..]);
  }

  lemma {:induction false} OwnedFramesFit(ds: seq<StreamingDescriptor>, i: nat, m: nat)
    requires m <= |ds| && forall k :: 0 <= k < |ds| ==> Streamed(ds[k])
    ensures forall k :: 0 <= k < |OwnedFrames(ds, i, m)| ==> FrameStreamable(OwnedFrames(ds, i, m)[k])
  {
    if m > 0 {
      OwnedFramesFit(ds, i, m - 1);
      if Owns(ds, i, m - 1) {
        ParsedFrameFits(ds[m - 1]);
      }
    }
  }

  lemma EntryStreamable(ds: seq<StreamingDescriptor>, i: nat, m: nat)
    requires i < |ds| && m <= |ds| && forall k :: 0 <= k < |ds| ==> Streamed(ds[k])
    requires FormatAt(ds, i)
    ensures Streamable(Entry(ds, i, m)[0])
  {
    ParsedFormatFits(ds[i]);
    OwnedFramesFit(ds, i, m);
    var f := Entry(ds, i, m)[0];
    assert f.frames == OwnedFrames(ds, i, m);
  }

  lemma {:induction false} DeclaredStreamable(ds: seq<StreamingDescriptor>, n: nat)
    requires n <= |ds| && forall k :: 0 <= k < |ds| ==> Streamed(ds[k])
    ensures forall i :: 0 <= i < |Declared(ds, n, |ds|)| ==> Streamable(Declared(ds, n, |ds|)[i])
  {
    if n > 0 {
      DeclaredStreamable(ds, n - 1);
      if FormatAt(ds, n - 1) {
        EntryStreamable(ds, n - 1, |ds|);
      }
    }
  }

  /** Some accepted stream has exactly these formats. */
  ghost predicate Streams(formats: seq<UvcFormat>) {
    exists records :: WellFormed(records) && Interface(0, 0, records).formats == formats
  }

  /** The format lists a parse can return are exactly the lists of streamable formats. */
  lemma StreamableExactly(formats: seq<UvcFormat>)
    ensures Streams(formats) <==> forall i :: 0 <= i < |formats| ==> Streamable(formats[i])
  {
    if Streams(formats) {
      var records :| WellFormed(records) && Interface(0, 0, records).formats == formats;
      ClassSpecificStreamed(records);
      DeclaredStreamable(ClassSpecific(records), |ClassSpecific(records)|);
    }
    if forall i :: 0 <= i < |formats| ==> Streamable(formats[i]) {
      StreamRoundTrip(0, 0, formats);
    }
  }
}
