# Verified model of the UVC streaming path

This project models how a camera frame travels through the engine, and proves what each stage keeps. Every module
stands for one source file or one part of it:

| module | file | contents |
|---|---|---|
| `Basics`, `Formats`, `Frames` | `format.rs`, `frame.rs`, `error.rs` | bytes, results, frame formats, frame buffers, sinks |
| `FakeFrames` | `fake.rs` | the deterministic frame generator |
| `Streaming` | `fake.rs`, `frame.rs` | worker threads, stop flags and the bounded channel as a step system; the worker loop |
| `StopProtocol` | `fake.rs` | what stopping guarantees, and when `stop` can return |
| `StopReturns` | `fake.rs`, `frame.rs` | when `stop` is bound to return |
| `StopHangs` | `fake.rs`, `frame.rs` | when a `stop` can hang, told from the configurations and the channel |
| `FakeEngine` | `fake.rs` | the pipeline object and the multi-camera engine |
| `Packets` | `packet.rs` | payload headers and packet reassembly |
| `MjpegAdapter` | `packet.rs` | the SOI/EOI check and the sequencing sink adapter |
| `Decoders` | `decode.rs` | YUYV and NV12 to RGBA, the decoding sink adapter |
| `Descriptors` | `descriptor.rs` | the record walk, record parsers, grouping of frames under formats |
| `IsoRing` | `iso.rs` | the ring of isochronous transfers |
| `IsoFrames` | `iso.rs` | ring into adapter into sink, one poll |
| `IsoStreams` | `iso.rs` | runs of the frame loop, from the device's transfers to the sink |
| `NativeEngines` | `bindings.rs`, `camera.rs` | the handle table, control maps and error record |

## How it is modelled

Objects of the source that update their fields are classes; each method is proved equal to a function of the old state
(`Assemble`, `AdaptPacket`, `Poll`, `StartCameraReply` and so on), and the theorems are about runs of those functions:
all packet lists, all call lists, all interleavings. Pure code is functions, and loops are loops.

What the program does not decide is a parameter. A sink answers each push with a `SinkReply`; libusb is a `PollEnv`
(which submission fails, which transfers complete in which event round, when the deadline passes); a join answers with
the worker's end, its panic, or not at all; the stop flag is sequentially consistent. Sleeping and time-outs are steps that may come at
any moment. A Rust panic is the outcome `Panicked`. `overflowChecks` says whether the build traps on or wraps the one
unchecked 32-bit addition in the NV12 decoder.

In the step system a frame is tagged with the *worker* that sent it, one execution of `run_loop`, so repeated camera ids
and restarts (which begin again at sequence 0) cause no ambiguity. The channel has any capacity, 0 (a rendezvous)
included.

## Results a reader might not expect

Each is proved, most as an exact condition.

- **NV12 sizes.** With the exact input length the decoder reads only inside its input for even sizes, for odd width with
  even height of at least 4, and for both odd with height at least width + 4; every other size panics
  (`Decoders.Nv12ReadsExactly`).
- **Odd YUYV sizes.** With an odd number of pixels the last one is never converted and stays transparent black
  (`Decoders.YuyvOddPixelBlank`).
- **A lost end-of-frame packet.** If any data of the frame had arrived, the next frame disappears whole and the one after
  is glued to the truncated one (`Packets.LostEndOfFrame`).
- **A packet without a header opening the buffer** switches the frame-id check off until the frame ends, and nothing else
  does (`Packets.CheckOffExactly`, `Packets.HeaderlessOpeningMixesFrameIds`).
- **Frames sharing a transfer.** Everything behind the first frame completed in a transfer is dropped
  (`IsoFrames.SecondFrameInTransferIsLost`); a transfer is fed whole exactly when nothing before its last packet completes
  a frame or fails (`IsoFrames.FedWholeExactly`).
- **A failed packet stops the ring.** A loop alone on its libusb context can go on delivering exactly while no transfer is
  completed or the lowest completed one, in whatever slot, can be collected: waiting returns a completed transfer before
  it handles any event (`IsoRing.AloneProgressExactly`). If others handle events of the same context too, only a failed
  transfer in slot 0 stops a full ring for good (`IsoRing.ProgressExactly`).
- **Delivery order.** A ring of one delivers in submission order; every larger ring can overtake
  (`IsoRing.InOrderExactlyForOneSlot`).
- **`stop` can wait for ever.** It joins a worker that may stand at a send into a full channel, and only the receiver can
  release it (`StopHangs.HungForGood`). With one owner, who does nothing else while a `stop` waits and starts no pipeline
  twice, no `stop` can hang exactly when every camera that makes frames has a frame limit and the limits sum to at most the
  channel's capacity (`StopHangs.SpawnedStopHangsExactly`): so for four cameras of two frames on a channel of eight, but
  not for cameras without a limit whose receiver is idle during `stop_all`. At any later moment the condition is that the
  frames still to come fit the room (`StopHangs.OwnedStopHangsExactly`). If pipelines may be restarted while a `stop`
  waits, it can hang as soon as one camera makes frames at all (`StopHangs.CanHangExactly`,
  `StopReturns.StopReturnsExactly`). With a fair scheduler and a receiver that drains, or is dropped, it always returns
  (`StopReturns.FairStopReturns`).
- **`stop_camera` can wait for ever** by the same rule with a channel of 32, because the engine that stops is the one that
  would receive (`NativeEngines.StopCameraHangsExactly`). A hung stop also leaves the pipelines behind it in `stop_all`
  running unflagged (`FakeEngine.StopPipelines`).
- **A crashed worker** leaves its pipeline running until a second `stop` (`FakeEngine.CrashedPipelineNeedsSecondStop`).
- **The adapter's panic** in `make_frame` is reachable exactly when a completed MJPEG frame misses a known raw length
  (`MjpegAdapter.AdapterPanicsExactly`), so an adapter never panics exactly when its format is compressed or its raw length
  overflows (`MjpegAdapter.NeverPanicsExactly`).
- **The error record.** A successful stop and a start refused for its arguments leave the last error as it was
  (`NativeEngines.EngineAgreesWithHistory`, by the definition of `RecordedError`).

Where the code departs from the standard it implements, the code is followed. Both end-of-header bits set makes the whole
packet payload, header included (section 2.4.3.3 of the USB Device Class Definition for Video Devices 1.5 does not say
so). The frame descriptor parser takes the frame intervals from payload byte 18 on, without the interval-count byte of
that standard.

## Model

| member | source | states |
|---|---|---|
| Formats.NewFormat | crates/uvc-core/src/format.rs:58-83 | a format is made exactly when width, height and rate are all positive, and has the fields given |
| Formats.ExpectedLenExact | crates/uvc-core/src/format.rs:121-145 | the expected length is known exactly for raw formats whose checked 32-bit product fits, and is then 4, 3 or 8 bytes per two pixels |
| Frames.FrameBufferExactly | crates/uvc-core/src/frame.rs:18-22 | a buffer is made exactly when the length is unknown or right, holds what it was given, and otherwise reports both lengths |
| FakeFrames.RawPattern | crates/uvc-driver/src/fake.rs:230-241 | the in-place loop writes byte k as (k + sequence) modulo 256 over the expected length, and panics exactly without one |
| FakeFrames.RgbaPattern | crates/uvc-driver/src/fake.rs:243-258 | pixel p of the whole buffer is (p, p / 256, sequence, 255), each modulo 256 |
| FakeFrames.FillRgba | crates/uvc-driver/src/fake.rs:249-255 | the pixel loop writes every byte: pixel number in red and green, frame number in blue, opaque |
| FakeFrames.PayloadDefinedExactly | crates/uvc-driver/src/fake.rs:222-258 | the generator panics exactly for a raw format whose length overflows; every payload it makes passes the length check |
| FakeFrames.PayloadBytes | crates/uvc-driver/src/fake.rs:222-258 | every payload made has the length and the bytes its format and number call for |
| FakeFrames.PayloadIdentifiesSequence | crates/uvc-driver/src/fake.rs:222-258 | two payloads of one format are equal exactly when the frame numbers agree modulo 256 |
| FakeFrames.FrameNumberPanicsExactly | crates/uvc-driver/src/fake.rs:34-44 | whether a frame can be made depends on the format alone, never on its number |
| FakeFrames.FrameCarriesNumber | crates/uvc-driver/src/fake.rs:34-44 | frame n of a camera carries number n, the camera's id and format, and their payload |
| FakeFrames.FakeFrameGenerator.NextFrame | crates/uvc-driver/src/fake.rs:34-44 | the frame carries the old counter as its number, the camera's id, the format and their payload; the number is spent even on a panic |
| Streaming.RunLoop | crates/uvc-driver/src/fake.rs:71-92 | against any flag values and sink answers: frames carrying numbers 0, 1, 2, ... and the camera's id, one a turn, none past the limit, and the exact reason for ending |
| Streaming.LoopIsWorker | crates/uvc-driver/src/fake.rs:71-92 | the worker of the step system, given the same turns, makes the same number of frames and ends for the same reason |
| Streaming.StepKeepsInv | crates/uvc-driver/src/fake.rs:71-142 | every one of the twelve actions keeps the invariant of channel, workers and pipelines |
| Streaming.RunKeepsInv | crates/uvc-driver/src/fake.rs:71-142 | the invariant holds in every reachable state of every interleaving |
| Streaming.DeliveryOverEveryInterleaving | crates/uvc-driver/src/fake.rs:71-92 | queue within capacity; the received, discarded and queued frames of a worker carry exactly the numbers 0 to k-1 in order, with its camera's id, format and payloads, k being its counter less a pending or lost frame and never above the limit |
| Streaming.UndisturbedWorkerDeliversAll | crates/uvc-driver/src/fake.rs:75-91 | a worker that ended unflagged while the receiver lived has delivered its whole quota |
| Streaming.OthersLeavePipeline | crates/uvc-driver/src/fake.rs:100-142 | only the start, flag and join actions of a pipeline change its fields |
| StopProtocol.AtMostOneMoreFrame | crates/uvc-driver/src/fake.rs:75-91 | once flagged, at most one more frame of the worker enters the channel, and none if it is not past its look at the flag |
| StopProtocol.NoFrameAfterStop | crates/uvc-driver/src/fake.rs:123-142 | once the pipeline is not running, none of its past workers delivers again, restarts included |
| StopProtocol.FewOwnSteps | crates/uvc-driver/src/fake.rs:75-91 | a flagged worker takes at most five more own steps in any interleaving, by a decreasing rank |
| StopProtocol.FinishesAlone | crates/uvc-driver/src/fake.rs:75-91 | a flagged worker that needs no send, or whose send returns, ends within its rank in own steps |
| StopProtocol.BlockedForever | crates/uvc-driver/src/fake.rs:85-88 | with a full queue and an idle live receiver a worker bound for a send never ends, whatever the other threads do |
| StopProtocol.CanEndExactly | crates/uvc-driver/src/fake.rs:123-142 | some schedule without the receiver ends a flagged worker exactly when it is not bound for a send, or there is room, or the receiver is gone |
| StopReturns.RivalFills | crates/uvc-driver/src/fake.rs:71-142 | a productive pipeline, however it stands, can fill the channel without the receiver, being joined and restarted as needed |
| StopReturns.CanBlockExactly | crates/uvc-driver/src/fake.rs:85-88 | the other threads can block a flagged worker exactly when it is bound for a send, the receiver lives, and the channel is full or another pipeline is productive |
| StopReturns.StopReturnsExactly | crates/uvc-driver/src/fake.rs:123-142 | for independently owned pipelines, which may be restarted while this `stop` waits: the exact condition for at most five own steps to end the worker at every later moment, without the receiver |
| StopReturns.FairStopReturnsAlone | crates/uvc-driver/src/fake.rs:71-142 | where `stop` is bound to return, it does in every infinite run without the receiver that is weakly fair to the worker |
| StopReturns.FairStopReturns | crates/uvc-driver/src/fake.rs:71-142 | in every infinite run that is strongly fair to the worker and whose receiver keeps draining or is dropped, a flagged worker ends |
| StopHangs.HungForGood | crates/uvc-driver/src/fake.rs:132-136 | a hung `stop` stays hung in every run without the receiver |
| StopHangs.CanHangExactly | crates/uvc-driver/src/fake.rs:100-142 | from the start, with restarts allowed at any time: some run without the receiver hangs a `stop` exactly when some camera ever makes a frame, whatever the capacity |
| StopHangs.FitStep | crates/uvc-driver/src/fake.rs:71-142 | while the frames still to come fit the room, every action of the workers and of one owner that restarts nothing keeps it so |
| StopHangs.OwnedStopHangsExactly | crates/uvc-driver/src/fake.rs:163-216 | with one owner and no restarts, from every reachable state: a `stop` can hang exactly when the receiver lives and the frames still to come exceed the room |
| StopHangs.SpawnedStopHangsExactly | crates/uvc-driver/src/fake.rs:163-216 | the same told from the configurations: no `stop` can hang exactly when every camera that makes frames has a limit and the limits sum to at most the capacity |
| StopHangs.FittingStopNeverHangs | crates/uvc-driver/src/fake.rs:163-216 | under that condition no `stop` hangs in any run of the owner, whatever the receiver does |
| FakeEngine.FakeCameraPipeline.Start | crates/uvc-driver/src/fake.rs:100-121 | fails exactly when running; otherwise running with a new flag and thread |
| FakeEngine.FakeCameraPipeline.Stop | crates/uvc-driver/src/fake.rs:123-142 | every outcome of stopping: refused, ended, the early return that leaves a crashed pipeline running, and a join that never answers |
| FakeEngine.PipelineLives | crates/uvc-driver/src/fake.rs:100-142 | every list of starts and answered stops of a new pipeline goes through rest, life and death by crash, with exactly their answers |
| FakeEngine.StopIsSetFlagThenJoin | crates/uvc-driver/src/fake.rs:123-142 | one call of `stop` equals the flag action, any interleaving and, exactly once the worker has ended, the join action; until then it has not returned |
| FakeEngine.FirstErrorIsFirst | crates/uvc-driver/src/fake.rs:203-216 | the result is Ok exactly when all stops are; otherwise it is the first failing one's |
| FakeEngine.StopPipelines | crates/uvc-driver/src/fake.rs:203-216 | pipelines are stopped in order whatever errors came before and the first error is returned; a join that never answers holds the call and leaves the later pipelines unflagged |
| FakeEngine.StartAll | crates/uvc-driver/src/fake.rs:180-186 | starts in order up to the first one already running and touches none after it |
| FakeEngine.Spawn | crates/uvc-driver/src/fake.rs:163-178 | cannot fail: one new running pipeline per configuration, in order |
| FakeEngine.CrashedPipelineNeedsSecondStop | crates/uvc-driver/src/fake.rs:123-142 | after a stop that found its worker crashed the pipeline stays running and cannot be restarted, in every interleaving, until a second stop, which needs no join |
| Packets.PacketKinds | crates/uvc-driver/src/packet.rs:12-63 | which packets have no header, which are wholly payload, where data starts otherwise, and which bits are frame id and end of frame |
| Packets.UvcPacketAssembler.PushPacket | crates/uvc-driver/src/packet.rs:77-108 | new state and result of one push; it fails exactly where a valid header's bit 0 contradicts the id of pending data |
| Packets.PushExactly | crates/uvc-driver/src/packet.rs:77-108 | the whole outcome of a push told from the packet's bytes: when it is refused, what is appended, when the frame completes, which id is stored |
| Packets.HeaderlessIsTaken | crates/uvc-driver/src/packet.rs:82-99 | in every state a non-empty packet without a valid length byte is appended whole, completes nothing and keeps a pending id |
| Packets.HeaderlessInsideFrame | crates/uvc-driver/src/packet.rs:77-107 | packets without header among those of a frame are all accepted and come out in it, whole and in order |
| Packets.RunAppend | crates/uvc-driver/src/packet.rs:77-108 | a run over two lists is the run over the first followed by the run over the second |
| Packets.PayloadConservation | crates/uvc-driver/src/packet.rs:77-108 | over any run, pending bytes and accepted payloads are exactly the emitted frames followed by the final buffer |
| Packets.RejectedPacketsStutter | crates/uvc-driver/src/packet.rs:87-97 | without the rejected packets a run emits the same frames, ends in the same state and is accepted whole |
| Packets.FrameIdHomogeneity | crates/uvc-driver/src/packet.rs:87-107 | the stored id is that of the packet that opened the buffer; later headers agree with it, and so do the packets each emitted frame is made of |
| Packets.CheckOffExactly | crates/uvc-driver/src/packet.rs:77-98 | while data is pending no packet can be refused exactly when the packet that opened the buffer has no parsable header |
| Packets.UncheckedRun | crates/uvc-driver/src/packet.rs:77-107 | with the check off every run of packets that do not end the frame is accepted whole and appended |
| Packets.HeaderlessOpeningMixesFrameIds | crates/uvc-driver/src/packet.rs:77-107 | after any headerless opening everything up to the first packet that ends the frame is accepted, and the frame is all those payloads |
| Packets.BothIdsInOneFrame | crates/uvc-driver/src/packet.rs:82-97 | witness: such a frame can hold packets of both ids |
| Packets.PrintChunkParses | crates/uvc-driver/src/packet.rs:230-242 | a printed packet of any header length from 2 to 255 parses back to its id, end flag and data |
| Packets.NextFrame | crates/uvc-driver/src/packet.rs:77-108 | what any state does with a whole frame: emitted alone, glued to pending data, or dropped whole |
| Packets.PacketRoundTrip | crates/uvc-driver/src/packet.rs:77-108 | every list of frames, however cut, comes out unchanged and leaves nothing pending |
| Packets.WedgedRefusesAll | crates/uvc-driver/src/packet.rs:87-97 | while data of the other id is pending every packet of this id is refused |
| Packets.LostEndOfFrame | crates/uvc-driver/src/packet.rs:77-108 | what the next two frames become when an end-of-frame packet is lost |
| MjpegAdapter.MjpegFrameAssembler.PushPacket | crates/uvc-driver/src/packet.rs:134-146 | one push with the SOI/EOI check |
| MjpegAdapter.MjpegFrameExactly | crates/uvc-driver/src/packet.rs:157-159 | an MJPEG frame is exactly SOI, anything, EOI: the markers never overlap |
| MjpegAdapter.InvalidFrameLeavesNothing | crates/uvc-driver/src/packet.rs:134-146 | a frame rejected by the check leaves the assembler empty |
| MjpegAdapter.MjpegFrameSinkAdapter.PushPacket | crates/uvc-driver/src/packet.rs:184-192 | one push through assembler, numbering and sink |
| MjpegAdapter.PushOutcomeExactly | crates/uvc-driver/src/packet.rs:134-192 | what a push returns, told from the bare assembler and the sink: refusal, false, bad JPEG, panic, or the sink's answer |
| MjpegAdapter.MjpegFrameSinkAdapter.MakeFrame | crates/uvc-driver/src/packet.rs:202-211 | the number is spent before the buffer is built, which panics on a wrong raw length |
| MjpegAdapter.MjpegFrameSinkAdapter.Clear | crates/uvc-driver/src/packet.rs:198-200 | empties the assembler and keeps the numbering |
| MjpegAdapter.AdapterSequencing | crates/uvc-driver/src/packet.rs:184-211 | over any pushes and clears the sink is offered exactly the valid frames the bare assembler completes, numbered without gaps |
| MjpegAdapter.AdapterFromNew | crates/uvc-driver/src/packet.rs:174-211 | from `new` on, offer i carries number i, kept numbers strictly increase, gaps are exactly the refused pushes |
| MjpegAdapter.TrueMeansKept | crates/uvc-driver/src/packet.rs:184-192 | as many pushes return true as the sink keeps frames |
| MjpegAdapter.AdapterPanicsExactly | crates/uvc-driver/src/packet.rs:202-211 | some push panics exactly when a completed MJPEG frame misses a known raw length |
| MjpegAdapter.CompressedFormatNeverPanics | crates/uvc-driver/src/packet.rs:202-211 | with a compressed or overflowing format no call panics |
| MjpegAdapter.KnownLengthPanics | crates/uvc-driver/src/packet.rs:202-211 | with any known raw length, some calls panic, from every state |
| MjpegAdapter.NeverPanicsExactly | crates/uvc-driver/src/packet.rs:202-211 | no calls ever panic exactly for a compressed format or one whose raw length overflows |
| Decoders.ColourWithinOne | crates/uvc-driver/src/decode.rs:248-262 | the fixed-point colour is opaque and within one level (0.79) of the exact clamped conversion of section 2.5 of ITU-R BT.601-7 in every channel |
| Decoders.ConvertGroups | crates/uvc-driver/src/decode.rs:109-125 | the chunk loop converts every complete group and touches nothing else |
| Decoders.DecodeYuyv | crates/uvc-driver/src/decode.rs:85-128 | both error cases and the whole picture |
| Decoders.ConvertRow | crates/uvc-driver/src/decode.rs:164-178 | the column loop writes its row, keeps the rows before, and reports exactly whether its reads were in range |
| Decoders.DecodeNv12 | crates/uvc-driver/src/decode.rs:143-181 | errors, panics and the whole picture |
| Decoders.Nv12ReadsExactly | crates/uvc-driver/src/decode.rs:147-178 | with the exact length every read is in range exactly for three families of sizes |
| Decoders.Nv12OverflowNeverDecodes | crates/uvc-driver/src/decode.rs:147-162 | if the plane sum overflows 32 bits nothing is decoded, in trapping and wrapping builds alike |
| Decoders.Nv12SucceedsExactly | crates/uvc-driver/src/decode.rs:143-181 | decoding succeeds exactly for fitting sizes, the exact length and a decodable shape |
| Decoders.DecodeSucceedsExactly | crates/uvc-driver/src/decode.rs:85-181 | success of either decoder depends on sizes alone, not on the declared pixel format |
| Decoders.DecodeFailsExactly | crates/uvc-driver/src/decode.rs:85-181 | how each decoder fails, told from sizes: which error with which lengths, and exactly when it panics, in trapping and wrapping builds |
| Decoders.Nv12IsYuyvOfExpansion | crates/uvc-driver/src/decode.rs:107-178 | for even sizes the picture of an NV12 frame is the YUYV picture of the frame with each block's chroma in both rows |
| Decoders.DecodersAgreeExactly | crates/uvc-driver/src/decode.rs:85-181 | for even sizes and exact length both decoders return the same picture exactly when the expansion's size fits 32 bits |
| Decoders.YuyvPixelsTrue | crates/uvc-driver/src/decode.rs:109-125 | both pixels of each group have the true colour of their luma and the group's chroma |
| Decoders.YuyvOddPixelBlank | crates/uvc-driver/src/decode.rs:107-125 | an odd last pixel stays transparent black |
| Decoders.Nv12PixelsTrue | crates/uvc-driver/src/decode.rs:164-178 | every pixel has the true colour of its luma and its block's chroma |
| Decoders.DecodedPictureTrue | crates/uvc-driver/src/decode.rs:85-181 | whatever either decoder returns has four bytes a pixel, every pixel true to its own luma and chroma, an odd last YUYV pixel blank |
| Decoders.DecodedFrameSinkAdapter.PushFrame | crates/uvc-driver/src/decode.rs:24-33 | what the sink is offered and how the call ends, all error paths included |
| Decoders.DeliverExactly | crates/uvc-driver/src/decode.rs:24-33 | for every frame: nothing is offered unless decoding succeeds, then exactly one RGBA frame whose length check never fails; errors, panics and answers are passed on |
| Decoders.DecoderPipeline | crates/uvc-driver/src/decode.rs:24-33 | a frame the buffer check accepted in the decoder's format (even sizes for NV12) always decodes to a true picture, passes the RGBA check and keeps camera and number |
| Descriptors.HeaderParsesExactly | crates/uvc-driver/src/descriptor.rs:71-102 | a header parses exactly where a record begins, and then holds that record's length, type and first body byte |
| Descriptors.ParsePrinted | crates/uvc-driver/src/descriptor.rs:71-146 | at a printed well-formed record, wherever it stands, the parsers return exactly that record |
| Descriptors.StepOkIsWellFormed | crates/uvc-driver/src/descriptor.rs:435-449 | the walk gets past a record exactly when the record is well-formed |
| Descriptors.StreamingOfRecord | crates/uvc-driver/src/descriptor.rs:51-62 | the kind of a class-specific record told from its subtype byte, for every kind, and its payload |
| Descriptors.DecompositionUnique | crates/uvc-driver/src/descriptor.rs:430-460 | a byte string is a concatenation of records in at most one way |
| Descriptors.AcceptsConcatenation | crates/uvc-driver/src/descriptor.rs:435-449 | after an accepted stream the rest alone decides |
| Descriptors.RecordsAppend | crates/uvc-driver/src/descriptor.rs:435-449 | class-specific and endpoint lists of concatenated streams are concatenated |
| Descriptors.AcceptedPrefixes | crates/uvc-driver/src/descriptor.rs:435-449 | a prefix is accepted exactly when cut at a record boundary |
| Descriptors.ParseInterface | crates/uvc-driver/src/descriptor.rs:430-460 | succeeds exactly on concatenations of well-formed records and returns the numbers given and what the records stand for, in order, with the formats told from the records |
| Descriptors.InterfaceFormatsExactly | crates/uvc-driver/src/descriptor.rs:430-547 | from record bytes: one format per parsed record of subtype 2, 4 or 6, with the frames of exactly the parsed records of subtype 5 or 7 behind it with no other subtype and no other parsed format between |
| Descriptors.OwnsByRecords | crates/uvc-driver/src/descriptor.rs:525-547 | a frame record belongs to a format record exactly when the descriptors they stand for do |
| Descriptors.EndpointRoundTrip | crates/uvc-driver/src/descriptor.rs:364-391 | parsing a printed endpoint gives every field back, wherever it stands |
| Descriptors.FormatParsesExactly | crates/uvc-driver/src/descriptor.rs:178-241 | a format parses exactly when long enough for its subtype |
| Descriptors.FormatFieldsExactly | crates/uvc-driver/src/descriptor.rs:178-241 | which byte each field is, for every subtype and for MJPEG payloads too short to hold them all |
| Descriptors.FormatRoundTrip | crates/uvc-driver/src/descriptor.rs:178-241 | parsing a printed format of any subtype gives it back |
| Descriptors.FormatImageExactly | crates/uvc-driver/src/descriptor.rs:178-241 | the parser's results are exactly the formats described, each recovered from its printed form |
| Descriptors.FrameRoundTrip | crates/uvc-driver/src/descriptor.rs:293-319 | parsing a printed frame gives it back, up to three stray bytes ignored |
| Descriptors.OwnerUnique | crates/uvc-driver/src/descriptor.rs:525-547 | every frame descriptor belongs to at most one format |
| Descriptors.BuildFormats | crates/uvc-driver/src/descriptor.rs:525-547 | the loop computes the fold `Build`, its stored index always in range |
| Descriptors.BuildPrefixDeclared | crates/uvc-driver/src/descriptor.rs:525-547 | turn by turn the loop's variables are what the declared grouping says |
| Descriptors.BuildIsDeclared | crates/uvc-driver/src/descriptor.rs:525-547 | every frame is under the nearest earlier parsed format with nothing separating them, order preserved, unparsable ones ignored |
| Descriptors.StreamRoundTrip | crates/uvc-driver/src/descriptor.rs:430-460 | any list of streamable formats with frames, printed as a stream, is accepted and parsed back |
| Descriptors.StreamableExactly | crates/uvc-driver/src/descriptor.rs:430-547 | the format lists a parse can return are exactly the lists of streamable formats |
| IsoRing.NewLayout | crates/uvc-driver/src/iso.rs:31-56 | a layout is made exactly for positive sizes whose product does not overflow |
| IsoRing.ToCompleted | crates/uvc-driver/src/iso.rs:378-405 | the loop computes the collection of packets, stopping at a bad status or a slice past the buffer |
| IsoRing.CollectReturnsSlices | crates/uvc-driver/src/iso.rs:378-405 | it returns exactly when all is good, and then one slice per packet at its own offset |
| IsoRing.FirstTroubleDecides | crates/uvc-driver/src/iso.rs:378-405 | otherwise the first packet in trouble decides: an error for its status, checked first, or a panic for its slice |
| IsoRing.CompletionGivesDisjointSlices | crates/uvc-driver/src/iso.rs:378-405 | within requested lengths: no panic, disjoint slices, lengths summing to the total, at most the layout's |
| IsoRing.IsochronousLoop.SubmitOne | crates/uvc-driver/src/iso.rs:213-225 | one more transfer at the back, or no change |
| IsoRing.IsochronousLoop.WaitAny | crates/uvc-driver/src/iso.rs:227-254 | waits through event rounds for the lowest completed slot, a time-out or an event error |
| IsoRing.WaitExactly | crates/uvc-driver/src/iso.rs:227-254 | a wait ends after the first event round with something completed, the last one, or the first failing one, with the slot, time-out or error due |
| IsoRing.CompletedIndex | crates/uvc-driver/src/iso.rs:256-258 | the lowest completed slot, or none when nothing is completed |
| IsoRing.IsochronousLoop.FillRing | crates/uvc-driver/src/iso.rs:177-179 | tops the ring up, or stops at the first failed submission keeping those before it |
| IsoRing.IsochronousLoop.PollIso | crates/uvc-driver/src/iso.rs:176-211 | one poll as a function of ring and environment, invariant kept |
| IsoRing.PollKeepsInv | crates/uvc-driver/src/iso.rs:176-211 | a successful poll leaves the ring full, one more delivered and its packets stored; a failed one delivers and stores nothing |
| IsoRing.SubmissionsExactly | crates/uvc-driver/src/iso.rs:176-211 | submissions count exactly as they succeeded, and packets are returned only if none of the poll's submissions failed |
| IsoRing.PollOutcomeExactly | crates/uvc-driver/src/iso.rs:176-211 | a poll ends as its wait, its collection or its replacement fails, and then keeps every transfer and the packets stored before |
| IsoRing.FailedReplacementKeepsTransfer | crates/uvc-driver/src/iso.rs:193-201 | when only the replacement fails, nothing is delivered or stored, the slot keeps its completion, and the next poll whose submissions succeed delivers that very transfer |
| IsoRing.PollDeliversSlot | crates/uvc-driver/src/iso.rs:176-211 | the packets reported are those of the lowest completed slot, whose slot alone is resubmitted |
| IsoRing.RingConserves | crates/uvc-driver/src/iso.rs:176-225 | over any run: at most ring-size in flight, every submitted transfer in flight or delivered, never both, never twice |
| IsoRing.SingleSlotRun | crates/uvc-driver/src/iso.rs:176-225 | a ring of one delivers 0, 1, 2, ... over any run |
| IsoRing.LargerRingOvertakes | crates/uvc-driver/src/iso.rs:256-258 | with two or more slots the replacement of slot 0 can overtake transfer 1 |
| IsoRing.InOrderExactlyForOneSlot | crates/uvc-driver/src/iso.rs:176-258 | every run delivers in submission order exactly for ring size one |
| IsoRing.BadPacketStopsRing | crates/uvc-driver/src/iso.rs:181-189 | after a failed transfer in slot 0 no run delivers or submits anything, whoever handles the events |
| IsoRing.ProgressExactly | crates/uvc-driver/src/iso.rs:176-211 | when others handle events of the same context too, a full ring can deliver again exactly while slot 0 holds no failed transfer |
| IsoRing.AloneProgressExactly | crates/uvc-driver/src/iso.rs:176-258 | some run of polls alone delivers exactly when no transfer is completed or the lowest completed one can be collected |
| IsoRing.JammedAboveSlotZero | crates/uvc-driver/src/iso.rs:227-258 | a failed lowest completed transfer stops a lone loop for good; with slot 0 pending, others handling events can still free it |
| IsoRing.FirstPollCanJam | crates/uvc-driver/src/iso.rs:176-258 | for every layout, ring size and slot one poll of a new ring can jam it, and stick it for everyone exactly at slot 0 |
| IsoFrames.FeedIsPrefix | crates/uvc-driver/src/iso.rs:298-310 | exactly the packets up to the first that completes a frame or fails reach the adapter |
| IsoFrames.FedWholeExactly | crates/uvc-driver/src/iso.rs:298-310 | a transfer is fed whole exactly when every packet before its last is accepted and completes nothing |
| IsoFrames.TrueMeansOneFrame | crates/uvc-driver/src/iso.rs:298-310 | the packet loop returns true exactly when the sink accepted a frame, and then exactly one |
| IsoFrames.SecondFrameInTransferIsLost | crates/uvc-driver/src/iso.rs:298-310 | whatever follows the first completed frame of a transfer is dropped |
| IsoFrames.MjpegIsoFrameLoop.PollFrame | crates/uvc-driver/src/iso.rs:298-310 | one poll of ring, adapter and sink together |
| IsoFrames.PollFrameCounts | crates/uvc-driver/src/iso.rs:298-310 | true exactly when the sink kept one more frame; if the ring delivers nothing its failure is passed on and the adapter is untouched |
| IsoFrames.TransferToSink | crates/uvc-driver/src/iso.rs:176-310 | the adapter gets a prefix of disjoint slices of the one transfer delivered, whose lengths sum to the reported total |
| IsoFrames.PushesComplete | crates/uvc-driver/src/packet.rs:134-192 | frames emitted by the assembler that are MJPEG frames all count as completions of the adapter |
| IsoFrames.PrintedFramesReachTheSink | crates/uvc-driver/src/packet.rs:184-242 | any list of MJPEG frames cut into packets in any way arrives whole, in order, numbered from 0 |
| IsoStreams.OpsFeedPrefixes | crates/uvc-driver/src/iso.rs:176-310 | over any run of polls and completions the adapter is pushed exactly the fed prefixes of the transfers delivered |
| IsoStreams.OpsFeedCarried | crates/uvc-driver/src/iso.rs:176-310 | if nothing but empty packets follows a frame's end in its transfer, and the assembler takes the packets whole, every non-empty packet delivered is pushed |
| IsoStreams.DeliveredFramesReachTheSink | crates/uvc-driver/src/iso.rs:176-310 | MJPEG frames carried by the transfers delivered all reach the sink through the frame loop, however cut and whatever polls fail in between |
| IsoStreams.SingleSlotDelivers | crates/uvc-driver/src/iso.rs:176-258 | a ring of one delivers the contents of the device's transfers 0, 1, 2, ... in that order, over any run |
| IsoStreams.DeviceFramesReachTheSink | crates/uvc-driver/src/iso.rs:176-310 | with a ring of one, all frames the device has put into its transfers are in the sink, whole, in order, numbered from 0 |
| NativeEngines.ErrorCode | crates/uvc-jni/src/bindings.rs:463-475 | no error has the code that means no error |
| NativeEngines.ErrorCodesExactly | crates/uvc-jni/src/bindings.rs:463-475 | exactly the errors about arguments share a code, every other error has its own |
| NativeEngines.TrimEmptyExactly | crates/uvc-core/src/camera.rs:9-18 | a name trims to nothing exactly when it is all white space |
| NativeEngines.TrimExactly | crates/uvc-core/src/camera.rs:9-18 | trimming takes white space off both ends, nothing else, and leaves none there |
| NativeEngines.PollNeverFails | crates/uvc-jni/src/bindings.rs:37-131 | after every call sequence the channel has a sender, so a poll yields a frame or nothing, never a closed sink |
| NativeEngines.NativeEngine.StartCamera | crates/uvc-jni/src/bindings.rs:52-79 | new tables, handle and error record of a start |
| NativeEngines.StartRepliesExactly | crates/uvc-jni/src/bindings.rs:52-79 | a start fails exactly for a blank id or a zero size or rate, with that error and no change |
| NativeEngines.StartReturnsHandle | crates/uvc-jni/src/bindings.rs:66-78 | after any calls a start returns the number of starts so far, a handle never live before, which is then live and running with no control set, for the camera requested |
| NativeEngines.LiveCameraCarriesRequest | crates/uvc-jni/src/bindings.rs:52-113 | as long as a handle is live its camera has the trimmed id, size, rate and frame limit of the request it was given out for, as MJPEG |
| NativeEngines.NativeEngine.StopCamera | crates/uvc-jni/src/bindings.rs:81-92 | new tables and error record of a stop whose join answers |
| NativeEngines.NativeEngine.SetControl | crates/uvc-jni/src/bindings.rs:94-113 | new control map and error record of a setting |
| NativeEngines.RepliesExactly | crates/uvc-jni/src/bindings.rs:81-113 | what a stop and a setting return, told from the call history |
| NativeEngines.StepAgrees | crates/uvc-jni/src/bindings.rs:52-113 | one call of any kind keeps tables, sender count, controls and error record in agreement with the call history |
| NativeEngines.EngineAgreesWithHistory | crates/uvc-jni/src/bindings.rs:37-155 | over every call sequence: same keys, running exactly when live, last value set per control, code OK exactly without a record |
| NativeEngines.HandlesAreNotReused | crates/uvc-jni/src/bindings.rs:81-92 | a stopped handle never refers to a camera again, in any continuation |
| NativeEngines.StopCameraHangsExactly | crates/uvc-jni/src/bindings.rs:37-92 | without polling, a `stop_camera` can hang exactly when some started camera has no frame limit or the limits sum to more than the 32 frames of the channel |

## Left out

- Counters: sequence numbers, camera handles and `index + sequence` of the test pattern are unbounded; their 64-bit
  overflow after some 10^19 frames or starts is not modelled. The 32-bit size checks are explicit.
- `usize` is taken as 64 bits wide, so conversions from 32 bits never fail.
- MJPEG decoding (`MjpegToRgbaDecoder`, the CMYK conversion) is a foreign library and floating point.
- libusb itself: pointers, callbacks, the packet descriptors, `cancel` on drop, and the atomics' memory ordering.
- `LibusbIsochronousLoop::new_with_ring`: its endpoint checks; the ring starts with the layout and size they allow.
- Time: sleeping, deadlines and frame age are steps that may come at any moment; no theorems but
  `FairStopReturns` and `FairStopReturnsAlone` assume fairness.
- `try_send`, `recv`, `try_recv`: one-line wrappers; sending and receiving are actions of the step system.
- `Drop` implementations: they call `stop` or `stop_pipelines`, which are modelled, and ignore the result.
- `FakeMultiCameraEngine::spawn`: its clean-up branch, which cannot be reached because starting a new pipeline cannot
  fail; a failing `thread::spawn` panics in the source.
- JNI exports, Kotlin and Android code, the command line, tracing, `device.rs`, `transfer.rs`, `backend.rs` and
  `session.rs`: bindings, accessors and input/output.
- Bandwidth, alternate-setting selection and `format` lookup of `descriptor.rs`: one-line selections.
- The sender clone a worker thread holds besides its pipeline's: the native engine's sender count leaves it out; it could
  only add to the count.
- Error texts: errors are variants; an engine message is non-empty exactly when an error is recorded.
- NativeEngines.NativeEngine.StopCamera: every join is taken to answer; when one need not is `StopCameraHangsExactly`,
  after which the engine's lock is never released and no further call returns.
- The channel's own queueing order of blocked senders; `FairStopReturns` assumes strong fairness of the scheduler instead.
- Actual lengths above the requested packet length, which libusb never reports: the packet loop is modelled for them too,
  but slices are proved disjoint only without them.
