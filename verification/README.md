# okeanos: verified models

A serial bootloader and its upload tool, a PPP stack and a kernel support library, modelled in
Dafny file by file in the form the code has: objects that change in place are classes, loops are
loops proved against a specification function, and the laws that span several calls, a whole
stream or a whole run are lemmas about those functions. `dafny verify dfyconfig.toml` checks
everything.

| part | files |
|---|---|
| framed serial link | Wrappers, Bytes, Cobs, Frames, FrameLayer, FrameStream, FrameSoundness, FrameResync, TransmitBuffer, FrameWriter, LegacyWriter, HostEncode, FrameSink, Link, HostDecoder, HostSoundness |
| V2 upload protocol | V2Messages, V2Device, V2Session, V2Progress, V2Boot |
| PPP in HDLC-like framing | PppLimits, Fcs, PppFrames, PppTransmit, PppReader, PppReceive, PppLink |
| PPP option negotiation | PppOptions, ControlAutomaton, ControlAnswers, PppGate |
| kernel support and loading | TicketLock, MemoryIndex, MemoryManager, Relocation, Delay, ArgumentBlock |

**Framed link.** The COBS encoder and decoder, the layered receiver, the device's ring with
checkpoint and rollback, both frame writers, the host's batch encoder and its decoder are modelled
byte for byte. `Link.SinkReachesReceiver` closes the circle: at every moment of every interleaving of
sends, prints and drains, a frame layer fed the drained bytes has reported the beginning of the
delivery of the committed records, in order. `HostDecoder.HostHearsIff` says when the upload tool
hears all of that, however its reads cut the bytes, and `HostSoundness.ReportIsSound` that on any
bytes at all it passes on nothing but frames. CRC32 is an arbitrary fold (`Bytes.Crc`), so all of
it holds for every checksum.

**V2 session.** Device and host are two state machines over a channel whose messages may be
lost, duplicated and delayed at will (a message once sent may be taken any number of times, at
any later time). Inflate is an arbitrary incremental step. The session is proved for every way to
judge the blocks handed to the loader; `V2Boot` puts in the one that flat binaries undergo, the
checksum of the relocated image in memory, and follows the program to its entry. `V2Progress`
shows that from every state a session reaches it can be brought to its end, and which end.

**PPP.** The transmitter may be cut short between any two bytes, the receiver's drains may end
anywhere; what is proved is that the cuts do not show, and, for every cut of every stream, exactly
when one does.

Where the code departs from its evident intent, the model keeps the code, and the exact
condition under which the intent holds is proved:

- a legacy record that fills an empty ring gets a length word of -8 (`LegacyWriters.LengthWordRight`);
- a legacy record directly after a framed print runs into its text on the host, which keeps both in one buffer (`HostDecoder.HostHearsIff`, `HostDecoder.MixedRecord`);
- an empty compressed file makes the host slice out of range (`V2Session.PanicsIff`);
- a drain that ends inside an escape pair loses the escape (`PppReceive.SplitShowsIff`, `PppReader.LongMeetsIff`);
- a full-MRU packet does not fit the frame buffer, and sending or answering one ends the program (`PppFrames.BuildFrame`, `PppGate.PollStopsIff`, `ControlAutomata.AbortsIff`);
- a refused receive buffer also loses the frame just completed and hides the others (`PppReceive.RefusedIff`, `PppReceive.RingFollowsStretch`, `PppReceive.FullRing`, `PppReceive.RefusalHides`);
- the main loop drops the status of a heartbeat that cannot be sent (`V2Device.V2.Heartbeat`);
- queueing a frame never starts the transmitter (`PppTransmit.XmitChannel.Push`);
- the 65536th unlock hands a ticket to nobody, and the lock stops at it (`TicketLock.LostAfterCarry`, `TicketLock.GetsInIff`, `TicketLock.StuckForEver`, `TicketLock.AloneRuns`, `TicketLock.AloneGetsStuck`);
- a chunk that crosses the relocation boundary leaves a hole (`Relocations.ImageIsProgramIff`, `V2Boot.VerdictIsProgramsIff`);
- the copy stub ends only for a multiple of four bytes (`Relocations.FineLoopEndsIff`, `Relocations.ProgramArrivesIff`);
- an argument whose length is a multiple of four is followed by a phantom empty one (`ArgumentBlock.AllReadBackIff`);
- IPCP's option reader slices out of range on a compression protocol with less than four bytes of data, so that a peer can end the program with a request or a Nak (`PppOptions.IpcpReply`, `ControlAutomata.ShortCompressionAborts`, `ControlAutomata.IpcpAbortsIff`);
- a malformed Configure-Request, which is dropped, still takes the layer back as a bad one does, a repeated one leaves it open, and a Nak, a Reject or a Terminate-Ack that was not waited for does not make it start again; everything else follows the state table of RFC 1661 (`ControlAnswers.TableIff`);
- a Nak with an overlong option hangs the negotiation (`ControlAutomata.NakLoopsIff`), a bad character map is answered with an MRU (`PppOptions.NakNamesOptionsIff`), and incoming IP is guarded by IPCP alone (`PppGate.IpDeliveredIff`);
- a legacy command word inside a frame that was joined too late costs more than that frame (`FrameResync.ResynchronisesIff`);
- the memory index can only be built when the last used range ends at or below 0x1ffff000, and an empty range may or may not take its page (`MemoryManagers.MemoryManager.InitializeOnce`).

## Model

| member | source | states |
|---|---|---|
| `Cobs.RoundTrip` | common/okboot-common/src/frame/decode.rs:132-207 | for every byte sequence and mask, decoding the encoder's output gives the sequence back, then the end, and leaves the decoder in its start state |
| `Cobs.EncodeShape` | common/okboot-common/src/frame/encode.rs:46-121 | the delimiter occurs exactly once, last, and the output has at most n + n/254 + 2 bytes |
| `Cobs.EmittedThenRest` | common/okboot-common/src/frame/encode.rs:86-121 | blocks already handed out followed by the encoding of what is pending are the encoding of the whole, wherever the input is cut |
| `Cobs.FrameEncoder.MaskFirst` | common/okboot-common/src/frame/encode.rs:53-67 | masks exactly the first bytes of the buffer in place |
| `Cobs.FrameEncoder.WriteU8` | common/okboot-common/src/frame/encode.rs:53-113 | a returned block is the next part of the masked encoding of everything written; otherwise nothing is returned |
| `Cobs.FrameEncoder.Finish` | common/okboot-common/src/frame/encode.rs:62-121 | the last block completes the encoding of everything written |
| `Cobs.WithBuffer` | common/okboot-common/src/frame/encode.rs:47-85 | an encoder exists exactly for a 255-byte buffer |
| `Cobs.CobsDecoder.Feed` | common/okboot-common/src/frame/decode.rs:160-207 | one byte moves the decoder as the pure decoder specifies |
| `Cobs.ZeroEndsOrFails` | common/okboot-common/src/frame/decode.rs:160-207 | a zero is never taken for data: it ends the frame exactly at the end of a block and is an error anywhere else, and nothing else is either |
| `Cobs.OneZero` | common/okboot-common/src/frame/decode.rs:160-207 | bytes that deliver anything have their one zero at their end |
| `Frames.LengthRoundTrip` | common/okboot-common/src/frame/encode.rs:5-18 | for every length below 2^24, decoding its four-byte field gives it back |
| `Frames.TypeCodeRoundTrip` | common/okboot-common/src/lib.rs:33-84 | a message type's code reads back as that type |
| `FrameLayers.FrameLayer.FeedByte` | common/okboot-common/src/frame/decode.rs:300-411 | one byte takes the receiver from any valid state to the specified one, with all indices into its four-byte arrays in range |
| `FrameLayers.FrameLayer.FeedPreamble` | common/okboot-common/src/frame/decode.rs:49-93 | the preamble automaton, including the legacy words |
| `FrameLayers.FrameLayer.FeedLength` | common/okboot-common/src/frame/decode.rs:324-341 | the four length bytes, or the error the first bad one gives |
| `FrameLayers.FrameLayer.FeedHeader` | common/okboot-common/src/frame/decode.rs:342-359 | the stuffed type word, hashed as it comes |
| `FrameLayers.FrameLayer.FeedBody` | common/okboot-common/src/frame/decode.rs:360-399 | payload, checksum and end of frame, or the error |
| `FrameLayers.FrameLayer.Reset` | common/okboot-common/src/frame/decode.rs:290-299 | back to the reset state |
| `FrameStream.FrameRoundTrip` | common/okboot-common/src/frame/decode.rs:300-399 | a frame of any type and any payload below 2^24 bytes yields one header, the payload in order and Finished on its last byte |
| `FrameStream.PacketRoundTrip` | common/okboot-common/src/frame/decode.rs:300-399 | the same for any stuffed packet whose checksum is right |
| `FrameStream.StreamRoundTrip` | common/okboot-common/src/frame/decode.rs:300-399 | so does any sequence of frames through one receiver without resets |
| `FrameSoundness.FinishedIsSound` | common/okboot-common/src/frame/decode.rs:280-411 | over every byte stream, noise included: Finished means that the bytes up to here are a frame whose CRC matches, and that since the last boundary exactly its header once and its payload were reported |
| `FrameResync.JunkIsSkipped` | common/okboot-common/src/frame/decode.rs:49-93 | from reset, bytes without a preamble or legacy word are only skipped |
| `FrameResync.FramesAfterJunk` | common/okboot-common/src/frame/decode.rs:290-341 | after such bytes every following frame is delivered |
| `FrameResync.Resynchronises` | common/okboot-common/src/frame/decode.rs:290-341 | any proper suffix of a valid frame that holds no legacy word, and then any frames: all those frames are delivered |
| `FrameResync.ResynchronisesIff` | common/okboot-common/src/frame/decode.rs:49-93 | exactly: after any proper suffix of a valid frame, the frames that follow are delivered if and only if the scan of the suffix ends outside any legacy record |
| `FrameResync.DownloadSwallows` | common/okboot-common/src/frame/decode.rs:49-93 | once the hunt has come upon the legacy download word, wherever that is, nothing is ever delivered again |
| `FrameResync.RealFrameSwallows` | common/okboot-common/src/frame/decode.rs:49-93 | and real frames hold it: every message whose payload begins with the unmasked word has such a suffix |
| `TransmitBuffers.TransmitBuffer.PushByte` | device/okboot/src/buf.rs:114-127 | appends to the queue exactly when there is room, else changes nothing |
| `TransmitBuffers.TransmitBuffer.ExtendFromSlice` | device/okboot/src/buf.rs:128-141 | all or nothing, across the ring's end |
| `TransmitBuffers.TransmitBuffer.Reserve` | device/okboot/src/buf.rs:142-152 | extends the queue by bytes of unspecified value and tells where they are |
| `TransmitBuffers.TransmitBuffer.WriteBytesAt` | device/okboot/src/buf.rs:93-113 | writes storage in place from an offset, wrapping |
| `TransmitBuffers.TransmitBuffer.Patch` | device/okboot/src/buf.rs:100-113 | overwrites a stretch of the queue in place even where it wraps, and nothing else of it |
| `TransmitBuffers.TransmitBuffer.ShiftByte` | device/okboot/src/buf.rs:153-165 | takes the first queued byte |
| `TransmitBuffers.TransmitBuffer.BytesSince` | device/okboot/src/buf.rs:182-190 | what was appended since the checkpoint, except that a whole ring of it counts as none |
| `TransmitBuffers.TransmitBuffer.Restore` | device/okboot/src/buf.rs:173-206 | the queue is again what it was at the checkpoint |
| `FrameWriters.FrameWriter.AddBytesUnhashed` | device/okboot/src/buf.rs:279-296 | the queue grows by the encoder's blocks, or the writer is marked failed |
| `FrameWriters.FrameWriter.constructor` | device/okboot/src/buf.rs:253-274 | a writer over preamble and reserved length, or one marked failed, with the queue before it remembered |
| `FrameWriters.FrameWriter.AddBytes` | device/okboot/src/buf.rs:275-278 | the bytes are both hashed and written |
| `FrameWriters.FrameWriter.Close` | device/okboot/src/buf.rs:300-312 | the checksum and the encoder's last block follow what was added |
| `FrameWriters.FrameWriter.Finalize` | device/okboot/src/buf.rs:300-325 | the frame is committed exactly when it fits and its length can be written; when it does not fit the queue is as before it |
| `FrameWriters.FrameWriter.Abort` | device/okboot/src/buf.rs:326-328 | the queue is as before the frame |
| `FrameWriters.FrameWriter.WriteStr` | device/okboot/src/buf.rs:334-340 | formatted text is hashed and added as bytes |
| `LegacyWriters.LegacyWriter.Finalize` | device/okboot/src/buf.rs:428-448 | the record is committed exactly when it fits, else the queue is as before |
| `LegacyWriters.LegacyWriter.WriteStr` | device/okboot/src/buf.rs:441-448 | text is appended or the record is marked failed |
| `LegacyWriters.LegacyWriter.WritePieces` | device/okboot/src/buf.rs:441-448 | text that comes in pieces is appended as one |
| `LegacyWriters.LengthWordRight` | device/okboot/src/buf.rs:182-190 | its length word is right if and only if it does not fill the whole ring |
| `HostEncode.Encode` | host/okdude/src/upload.rs:230-266 | the host's batch encoder makes the same frame as the device's streaming writer, and fails exactly for payloads of 2^24 bytes or more |
| `HostEncode.Stuff` | host/okdude/src/upload.rs:252-264 | driving the encoder byte by byte gives the COBS encoding of the message |
| `FrameSinks.FrameSink.Send` | device/okboot/src/buf.rs:352-379 | drained bytes followed by queued bytes stay the concatenation of the committed records; a message is one frame more, or nothing when it does not fit, or, when its length has no encoding, a frame without one; which result when |
| `FrameSinks.WholeOrNothing` | device/okboot/src/buf.rs:352-379 | on a ring of up to 2^24 bytes a message is queued whole or not at all |
| `FrameSinks.FrameSink.FinishFrame` | device/okboot/src/buf.rs:300-325 | a finished writer is one record more or none, as that law says |
| `FrameSinks.FrameSink.PrintFramed` | device/okboot/src/buf.rs:467-482 | the same for a line printed piece by piece |
| `FrameSinks.FrameSink.PrintLegacy` | device/okboot/src/buf.rs:393-448 | the same for a legacy record, committed exactly when it fits |
| `FrameSinks.FrameSink.ShiftByte` | device/okboot/src/buf.rs:153-165 | draining keeps that law, and finds nothing exactly when all records are out |
| `Link.PrintedRoundTrip` | common/okboot-common/src/frame/decode.rs:300-341 | a legacy record is reported as its text, byte by byte |
| `Link.LinkDelivers` | common/okboot-common/src/frame/decode.rs:300-411 | any sequence of framed and legacy records is reported by one frame layer as exactly those, in order |
| `Link.SinkReachesReceiver` | device/okboot/src/buf.rs:208-240 | at every moment, what a frame layer made of the drained bytes is a prefix of that delivery, and all of it once the queue is empty |
| `HostDecoder.Decoder.ProcessIncomingBytes` | host/okdude/src/v2.rs:32-93 | one read takes the host's decoder and its reports where the pure one goes; it fails exactly when a byte does, and drops the rest of that read |
| `HostDecoder.Decoder.ProcessByte` | host/okdude/src/v2.rs:33-91 | the same for one byte, with every failure and both kinds of reset |
| `HostDecoder.HostHearsIff` | host/okdude/src/v2.rs:25-94 | for every sequence of framed and legacy records and every way to cut its bytes into reads: each record is heard once, as itself, on its last byte, and nothing else is, if and only if no legacy record comes directly after a framed print with text in it |
| `HostDecoder.MixedRecord` | host/okdude/src/v2.rs:74-84 | a legacy record after such a print: what is reported instead, and at which byte |
| `HostDecoder.UnmixedHeard` | host/okdude/src/v2.rs:37-84 | without such a pair: what is heard of the whole stream, and what is left in the buffer after it |
| `HostDecoder.BatchesAgree` | host/okdude/src/v2.rs:32-93 | up to the first failure it does not matter how the bytes are cut into reads |
| `HostDecoder.SinkReachesHost` | device/okboot/src/buf.rs:208-240 | the same condition from the device's prints to the host's ears, at every moment of draining and reading |
| `HostSoundness.FailsIff` | host/okdude/src/v2.rs:37-89 | the host knows a header exactly inside a frame's body, so that two of its complaints never come up: a byte fails exactly when the frame layer refuses it, and then the host starts anew, or is at the download word |
| `HostSoundness.HearsAfterRefusal` | host/okdude/src/v2.rs:86-89 | from any state, once a byte is refused, the rest of that read is dropped and the records in the reads that follow are heard once each, as themselves, if and only if no two are mixed |
| `HostSoundness.ReportIsSound` | host/okdude/src/v2.rs:32-93 | over every stream, noise included: a message passed on is the type and payload of a frame that ends there and whose CRC matches, and a logged line the text of such a frame or of a legacy record |
| `V2Messages.ChunkBounds` | device/okboot/src/protocol/v2.rs:280-313 | every chunk the device can ask for lies in the file, and the chunks cover it |
| `V2Messages.PrefixGrows` | host/okdude/src/v2.rs:394-415 | the chunks joined in order are the file |
| `V2Device.V2.RecvMetadata` | device/okboot/src/protocol/v2.rs:235-279 | the new state is the specified one, whatever the state before |
| `V2Device.V2.RecvMetadataAckAck` | device/okboot/src/protocol/v2.rs:280-313 | the same for the agreement on metadata |
| `V2Device.V2.InflateStaged` | device/okboot/src/protocol/v2.rs:346-408 | the in-place inflate loop over the staging buffer computes the incremental inflate, or fails exactly when that does |
| `V2Device.V2.RecvChunk` | device/okboot/src/protocol/v2.rs:314-448 | a chunk other than the expected one changes nothing but the resend flag; the expected one is fed, each block it inflates to is handed to the loader in one piece, and the next chunk is requested or, after the last, the image finalized: Boot when the check passes |
| `V2Device.V2.CopyDown` | device/okboot/src/protocol/v2.rs:346-408 | the unread rest is moved to the front of the staging buffer, overlapping or not |
| `V2Device.V2.RecvBootingAck` | device/okboot/src/protocol/v2.rs:449-463 | the image is entered only from Boot |
| `V2Device.V2.Heartbeat` | device/okboot/src/protocol/v2.rs:183-232 | what is repeated in which state, after how long, what a full queue changes, and when the result is Abend, which the main loop does not read |
| `V2Device.SpeaksAtOnceIff` | device/okboot/src/protocol/v2.rs:235-448 | a packet makes the device speak at its next heartbeat exactly when it takes it to a phase beyond the first, or is a chunk other than the expected one |
| `V2Device.ChunkRefusedIff` | device/okboot/src/protocol/v2.rs:338-408 | a chunk is turned down exactly when, with what is pending, it is longer than 8192 bytes or a call of the decompressor fails on the two |
| `V2Device.InputIsConserved` | device/okboot/src/protocol/v2.rs:346-408 | what inflate consumed and what is kept for later is what was pending, in order |
| `V2Device.OutputIsHandedOn` | device/okboot/src/protocol/v2.rs:346-408 | the data is rejected exactly when the last call fails; otherwise the loader is given every output, in one piece and in order; as many bytes are kept as were not consumed, after the end of the stream the first of what was shown last |
| `V2Session.HostUpload.Receive` | host/okdude/src/v2.rs:221-289 | one message moves the host as specified |
| `V2Session.AgreesIff` | host/okdude/src/v2.rs:311-392 | the host agrees to its own metadata only, and takes the chunk size only then |
| `V2Session.ChunkIsSliced` | host/okdude/src/v2.rs:394-415 | a request for a chunk that exists is answered with exactly that slice |
| `V2Session.StepKeeps` | host/okdude/src/v2.rs:221-289 | every step of host, device or channel keeps the session invariant |
| `V2Session.SessionIsSafe` | device/okboot/src/protocol/v2.rs:235-448 | in every run with loss, duplication and delay, for a non-empty file: the host never slices out of range, the device's work is that of the chunks before the requested one, each once and in order, Boot and Booting come only after the whole file and an accepted image, and the device gives up only on a file that cannot be inflated or is not accepted, for every way to decide that |
| `V2Progress.UploadCanEnd` | device/okboot/src/protocol/v2.rs:235-463 | from every state of every run, with a non-empty file that may be loaded, the session can be brought to its end: the device enters the program and the host finishes if the file can be inflated and its image is accepted, and the device gives up if not |
| `V2Progress.MetadataIsSettled` | host/okdude/src/v2.rs:311-392 | whatever metadata the device has taken, one exchange takes it on to the first chunk if it is the host's, and back to asking if not |
| `V2Progress.CanBootIff` | device/okboot/src/protocol/v2.rs:409-463 | some run enters the program if and only if the file is not empty, may be loaded, can be inflated and is accepted |
| `V2Boot.BootedImageIsChecked` | device/okboot/src/protocol/v2.rs:621-660 | with the check that flat binaries undergo: in every run, Boot, Booting and a host that has finished mean that the checksum of the image in memory, every block written in one piece, is the one in the metadata |
| `V2Boot.BootsIff` | device/okboot/src/protocol/v2.rs:409-463 | a flat binary can be booted if and only if its file is not empty, its load address is acceptable and it inflates to blocks whose image in memory has the checksum of the metadata |
| `V2Boot.CheckedImage` | device/okboot/src/stub.rs:71-132 | that image byte by byte: what was inflated, but for what a block carried across the bootloader's end |
| `V2Boot.VerdictIsProgramsIff` | device/okboot/src/stub.rs:90-132 | the check passes exactly when the inflated program's own checksum is right, for every memory and every checksum, if and only if no block crosses the bootloader's end |
| `V2Boot.BootedProgramArrives` | device/okboot/src/protocol/v2.rs:621-660 | from the first message to the jump: what is booted and respects that end arrives at its base, and is what the file inflated to, if and only if the part below the end is a multiple of four bytes |
| `V2Session.PanicsIff` | host/okdude/src/v2.rs:394-415 | some run makes the host panic if and only if the file is empty, its load address acceptable and the decompressor takes an empty input |
| `V2Session.FileIsFedInOrder` | device/okboot/src/protocol/v2.rs:314-448 | until inflate reports the end of its stream, it has consumed, with what is pending, exactly the first min(which * 0x1000, len) bytes of the file |
| `V2Session.EmptyFilePanics` | host/okdude/src/v2.rs:394-415 | a run with an empty file in which the host panics |
| `Fcs.TableIsDivision` | device/antimony/src/net/hdlc.rs:22-57 | every table entry is eight steps of division by 0x8408 |
| `Fcs.TableStepIsBitStep` | device/antimony/src/net/hdlc.rs:59-64 | a table step is a bitwise step, for every state and byte |
| `Fcs.PppFcs16` | device/antimony/src/net/hdlc.rs:59-64 | the loop computes the bit-at-a-time remainder of every message |
| `Fcs.GoodResidue` | device/antimony/src/net/hdlc.rs:65-67 | a message followed by its complemented FCS, low byte first, always leaves 0xf0b8 |
| `Fcs.BurstIsDetected` | device/antimony/src/net/hdlc.rs:59-67 | messages that differ in two adjacent bytes only never share an FCS |
| `Fcs.BitBurstIsDetected` | device/antimony/src/net/hdlc.rs:59-67 | nor do messages that differ in three adjacent bytes, if the differences lie within sixteen consecutive bits |
| `Fcs.ByteIsDetected` | device/antimony/src/net/hdlc.rs:59-67 | nor do messages that differ in exactly one |
| `PppFrames.BuildFrame` | device/antimony/src/net.rs:67-85 | building succeeds exactly for payloads below 1500 bytes, and makes the specified frame |
| `PppFrames.FrameLayout` | device/antimony/src/net.rs:67-85 | a frame byte by byte: 7e ff 03, the protocol with its high byte first, the payload, check bytes that leave the good residue, 7e |
| `PppFrames.Buffer.BeginPpp` | device/antimony/src/net.rs:68-74 | flag, address, control and protocol at the front |
| `PppFrames.Buffer.Write` | device/antimony/src/net.rs:75-78 | appends and touches nothing before |
| `PppFrames.Buffer.FinishPpp` | device/antimony/src/net.rs:79-84 | appends the FCS of everything after the flag, low byte first, and the closing flag |
| `PppFrames.AcceptedIffFramed` | device/antimony/src/net.rs:431-452 | a received frame is accepted as protocol and payload exactly when it is what framing those makes |
| `PppFrames.DamagedIsRejected` | device/antimony/src/net.rs:431-452 | two adjacent damaged bytes are always rejected |
| `PppTransmit.EscapedIsStuffed` | device/antimony/src/net/phy.rs:60-92 | between its flags a frame is sent byte by byte: those to be escaped as 7d and the byte with one bit turned, all others as themselves |
| `PppTransmit.NoFlagInside` | device/antimony/src/net.rs:455-461 | with the set of the link's start-up nothing between the flags is a flag |
| `PppTransmit.XmitChannel.Push` | device/antimony/src/net/phy.rs:94-110 | bytes on the wire followed by what is outstanding stay the escaped frames in order; whether it is writing does not change |
| `PppTransmit.XmitChannel.WriteOut` | device/antimony/src/net/phy.rs:54-93 | cut short after any number of bytes, the same law holds; exactly how many bytes one call sends |
| `PppTransmit.WriteFrame` | device/antimony/src/net/phy.rs:60-92 | resuming a frame, even between an escape and its byte, sends the next bytes of its escaped form |
| `PppReceive.SplitShowsIff` | device/antimony/src/net/phy.rs:179-264 | for every second drain: two drains end as one does if and only if a scan of the second one's bytes says so, starting from whether an escape was pending and whether its frame held more than the flag |
| `PppReader.CutShowsIff` | device/antimony/src/net/phy.rs:179-264 | the same for a reader that nothing limits, for every cut of every stream; a cut that is not inside an escape never shows |
| `PppReader.LongMeetsIff` | device/antimony/src/net/phy.rs:179-264 | inside a frame that holds more than its flag the scan comes to: nothing, or a flag, after any number of pairs of escapes |
| `PppReader.StandStep` | device/antimony/src/net/phy.rs:200-256 | one more byte keeps what the scan says of the two readings, in each of its eight states |
| `PppReceive.RefusedIff` | device/antimony/src/net/phy.rs:149-165 | a drain is refused exactly when the frames it completes and those not yet freed would fill the ring |
| `PppReceive.RingFollowsStretch` | device/antimony/src/net/phy.rs:179-264 | until a refusal the ring holds the unfreed frames, all visible; the first refusal hides them all and loses the frame just completed |
| `PppReceive.FullRing` | device/antimony/src/net/phy.rs:179-264 | from then on a full ring changes by frees alone, and a drain shows the reader at most one old frame, when it completes one |
| `PppReceive.RefusalHides` | device/antimony/src/net/phy.rs:200-237 | when there is room again after a refusal, the next flag puts an empty frame into the ring, and from then on the reader is told of one frame less than there are |
| `PppReceive.RecvChannel.ReadHeadBuf` | device/antimony/src/net/phy.rs:166-176 | the oldest frame in the ring with its contents unchanged, exactly when one is visible |
| `PppReceive.RecvChannel.FreeBuffer` | device/antimony/src/net/phy.rs:145-148 | frees that frame and no other |
| `PppReceive.RecvChannel.TryAllocBuffer` | device/antimony/src/net/phy.rs:149-165 | gives the next ring place exactly when one is free; heads and the free count agree modulo 128 |
| `PppReceive.RecvChannel.TakeFlag` | device/antimony/src/net/phy.rs:202-237 | a flag completes a frame, opens the next or is denied a buffer, as the pure ring says |
| `PppReceive.RecvChannel.TakeByte` | device/antimony/src/net/phy.rs:238-252 | any other byte in a frame is unescaped and stored, or finds no room |
| `PppReceive.RecvChannel.DrainUart` | device/antimony/src/net/phy.rs:179-264 | one interrupt's bytes, in every state of the ring, refusals and what follows them included, take it where the pure ring goes; the panic exactly when a frame outgrows its buffer |
| `PppLink.RunIsRead` | device/antimony/src/net/phy.rs:179-264 | any drains without a cut inside an escape, and any frees between them, complete the frames that one uninterrupted reader finds |
| `PppLink.ReadAllEscaped` | device/antimony/src/net/phy.rs:54-93 | reading the escaped form of any frames gives those frames |
| `PppLink.ReadEscaped` | device/antimony/src/net/phy.rs:54-93 | reading the escaped form of one frame completes exactly that frame |
| `PppLink.PacketsArrive` | device/antimony/src/net.rs:431-452 | whatever part of the escaped packets has arrived, drained with interruptions anywhere but inside an escape: the frames completed are the first packets, in order, each accepted as exactly protocol and payload; all of them when everything has arrived |
| `PppLink.SenderReachesReader` | device/antimony/src/net/phy.rs:54-93 | at every moment the frames the receiver has completed from what the transmitter has written are the first packets queued, in order, and they are what the ring holds |
| `PppLink.RingKeepsFrames` | device/antimony/src/net/phy.rs:124-178 | over every run without a refusal the ring's queue is the completed frames not yet freed, oldest first |
| `PppOptions.Options.Advance` | device/antimony/src/net/control.rs:71-96 | of the bytes from the index on: a well-formed option at their head that the protocol's reader survives is given and exactly that much passed; an option longer than they are is told and never passed; the end only when none are left; anything else panics |
| `PppOptions.Collect` | device/antimony/src/net/control.rs:311-329 | collecting by the iterator gives what the recursive parse gives |
| `PppOptions.IterationEnds` | device/antimony/src/net/control.rs:71-96 | for every reader: every option list is well-formed options that it survives and a rest that begins with none; how iteration ends depends on that rest in exactly this way |
| `PppOptions.ParsesIffTiled` | device/antimony/src/net/control.rs:71-96 | iteration ends with a list if and only if that list tiles the data and the reader survives each option |
| `PppOptions.VerdictByBytes` | device/antimony/src/net/lcp.rs:48-122 | LCP's verdict on any option, said of its bytes alone |
| `PppOptions.LcpReply` | device/antimony/src/net/control.rs:311-384 | for every tiled request: a Reject of exactly the refused options in order, else an Ack of identical data when all are acceptable, else a Nak with one proposal for each that is not; never longer than the request |
| `PppOptions.LcpSurvivesAll` | device/antimony/src/net/lcp.rs:48-122 | LCP's reader survives every well-formed option |
| `PppOptions.IpcpByBytes` | device/antimony/src/net/ipcp.rs:26-63 | IPCP's verdict on any option, and which ones its reader does not survive, said of its bytes alone: those of type 2 and length 4 or 5 |
| `PppOptions.IpcpReply` | device/antimony/src/net/control.rs:311-384 | for every request to IPCP: a crash, silence, an Ack of identical data or a Reject of exactly the options that are no addresses, and when each |
| `PppOptions.ShortCompressionCrashes` | device/antimony/src/net/ipcp.rs:37-46 | the request 02 04 00 2d crashes IPCP |
| `PppOptions.NakNamesOptionsIff` | device/antimony/src/net/control.rs:570-593 | for every request answered with a Nak: its proposals name the unacceptable options, in order, if and only if none of those is a character map |
| `PppOptions.PacketRoundTrip` | device/antimony/src/net/control.rs:406-450 | a packet sent is read back as it was; the declared length is that of its bytes |
| `PppOptions.ReadIsEncoded` | device/antimony/src/net/control.rs:417-450 | a packet that is read is the encoding of what was read |
| `ControlAutomata.ControlAutomaton.Received` | device/antimony/src/net/control.rs:196-296 | any packet takes the automaton and what it sends where the step function says, and the call returns exactly when that does: not for options that panic or loop, nor for an answer as long as the MRU; every packet sent goes to the link in the frame that is built for it |
| `ControlAutomata.ControlAutomaton.ReceivedPacket` | device/antimony/src/net/control.rs:201-295 | the same once the packet has been decoded |
| `ControlAutomata.AbortsIff` | device/antimony/src/net/control.rs:298-415 | every way a packet ends the program, for both layers: options that can be read are followed by a lone byte, a length byte below two or one the reader does not survive, or the frame to be built for an answer or for the layer's own request has a payload as long as the MRU |
| `ControlAutomata.LcpAbortsIff` | device/antimony/src/net/control.rs:531-602 | LCP with the options it asks for, and a packet that fits a frame: it ends the program exactly when it is a request or a Nak in which well-formed options are followed by a lone byte or a length byte below two |
| `ControlAutomata.IpcpAbortsIff` | device/antimony/src/net/control.rs:480-530 | IPCP with any address: the same, or followed by a compression protocol with less than four bytes of data |
| `ControlAutomata.ShortCompressionAborts` | device/antimony/src/net/control.rs:90-92 | in a request or a Nak, readable options followed by a compression protocol with less than four bytes of data end the program in IPCP, whatever follows them, while LCP reads on |
| `ControlAutomata.LeavesAndOpensIff` | device/antimony/src/net/control.rs:206-254 | an open layer is left exactly on a Terminate-Request, a Configure-Ack or a Configure-Request with a new identifier, and one not open is opened exactly by the second Ack of a handshake |
| `ControlAutomata.ControlAutomaton.ReceivedRequest` | device/antimony/src/net/control.rs:206-228 | the same for a Configure-Request in each state |
| `ControlAutomata.ControlAutomaton.OpenLayer` | device/antimony/src/net/control.rs:395-399 | from Closed into Req-Sent with a Configure-Request |
| `ControlAutomata.ControlAutomaton.CloseLayer` | device/antimony/src/net/control.rs:401-404 | into Closed, sending nothing |
| `ControlAutomata.HandshakeOpens` | device/antimony/src/net/control.rs:206-244 | an acceptable request whose Ack fits a frame, and an Ack, whatever its identifier, in either order, open the layer; one whose Ack does not fit ends the program |
| `ControlAnswers.LcpAnswers` | device/antimony/src/net/control.rs:311-384 | LCP's answer to every tiled request, by its number: 2 with identical data when all options are acceptable, else 3 when all are negotiable, else 4, each with its data and the request's identifier, and before a request of its own |
| `ControlAnswers.IpcpAnswers` | device/antimony/src/net/control.rs:311-384 | IPCP's: 2 with identical data when all are addresses, else 4 with all that are not |
| `ControlAnswers.MalformedDropped` | device/antimony/src/net/control.rs:311-329 | a request with an option longer than what is left gets no answer |
| `ControlAnswers.AckIsEcho` | device/antimony/src/net/control.rs:342-346 | on the wire an Ack is the request with another first byte |
| `ControlAnswers.LayersAreNumbered` | device/antimony/src/net/control.rs:406-415 | each layer's packets go out under its own protocol number, c021 or 8021 |
| `ControlAnswers.EchoAnswered` | device/antimony/src/net/control.rs:542-568 | in every phase LCP answers an Echo-Request that fits a frame with the same bytes but for the code 10; IPCP ignores it |
| `ControlAnswers.TerminateAnswered` | device/antimony/src/net/control.rs:201-254 | a closed layer answers every packet, and any other a Terminate-Request, with the bytes 06, the identifier, 00 04; and where that leaves it |
| `ControlAnswers.RequestSentIff` | device/antimony/src/net/control.rs:206-284 | exactly when a Configure-Request of its own goes out |
| `ControlAnswers.NakTakenByBytes` | device/antimony/src/net/control.rs:488-538 | which options of a Nak are taken, said of their bytes: LCP takes none that it can read, IPCP all but a compression protocol |
| `ControlAnswers.RequestsNumbered` | device/antimony/src/net/control.rs:298-308 | over every run the Configure-Requests carry the identifiers 0, 1, 2 and so on, modulo 256 |
| `ControlAnswers.RepetitionsAreTold` | device/antimony/src/net/control.rs:206-254 | over every run, what a repeated request is told by: the last one that came since the peer terminated the open layer |
| `ControlAnswers.TableIff` | device/antimony/src/net/control.rs:196-296 | the next phase is the one in section 4.1 of RFC 1661 if and only if it is none of the listed departures |
| `ControlAutomata.OpenedMeansBothAcked` | device/antimony/src/net/control.rs:196-296 | over every run: an open layer has sent and received a Configure-Ack since it was last closed, requesting or open before |
| `ControlAutomata.NakLoopsIff` | device/antimony/src/net/control.rs:263-284 | the loop over a Nak's options never ends if and only if options that can be read are followed by one longer than what is left |
| `PppGate.PppInner.PollOnce` | device/antimony/src/net.rs:104-123 | one poll opens and closes the layers and empties the queue as specified, never trips the assertion in `open`, and returns exactly when it should |
| `PppGate.PollStopsIff` | device/antimony/src/net.rs:104-123 | a poll ends the program exactly when, with both layers open, a packet as long as the MRU waits, or a layer to be opened asks for options as long as a frame |
| `PppGate.PollSendsAll` | device/antimony/src/net.rs:104-123 | a poll that comes to an end has sent everything that waited, in order, if both layers were open, and otherwise nothing |
| `PppGate.PollMoves` | device/antimony/src/net.rs:104-113 | what a poll makes of each layer's phase |
| `PppGate.PollDrains` | device/antimony/src/net.rs:104-137 | over every run: once a poll has ended with IPCP open, everything that the stack has given is transmitted |
| `PppGate.FrameGoesTo` | device/antimony/src/net.rs:391-425 | frames reach LCP always, IPCP while LCP is open and the IP stack while IPCP is, and change nothing else |
| `PppGate.FrameStopsIff` | device/antimony/src/net.rs:391-425 | exactly when a frame ends the program |
| `PppGate.DeliveredIsArrived` | device/antimony/src/net.rs:391-406 | over every run the stack is given exactly the IP packets that arrived while IPCP was open, in order |
| `PppGate.IpOnlyWhenOpen` | device/antimony/src/net.rs:103-123 | over every run of the loop: IP is transmitted only with LCP and IPCP both open, each with an Ack sent and received behind it |
| `PppGate.NothingLost` | device/antimony/src/net.rs:114-137 | what was transmitted followed by what waits is what the stack gave, in order |
| `PppGate.IpDeliveredIff` | device/antimony/src/net.rs:391-406 | over every run: an IP packet is delivered only with IPCP open and after a poll, and LCP is down then if and only if, since the last poll, a frame made it leave the open phase and none after that completed a new handshake |
| `PppGate.DeliversAfterTermination` | device/antimony/src/net.rs:391-406 | such a packet there is: one that arrives between the peer's Terminate-Request and the next poll |
| `TicketLock.StepKeeps` | device/quartz/src/arch/arm1176/sync/ticket.rs:24-98 | every atomic step of any thread keeps the lock's invariant |
| `TicketLock.MutualExclusionInOrder` | device/quartz/src/arch/arm1176/sync/ticket.rs:24-98 | in every run with fewer than 65535 threads, across wrap-around: at most one holder, and it took its ticket before all who wait |
| `TicketLock.TurnBelongsToSomeone` | device/quartz/src/arch/arm1176/sync/ticket.rs:24-98 | below 65536 unlocks, whenever the halves of the word differ the ticket being served is that of a thread that holds, or waits and holds when it next looks; and no other gets the lock by looking |
| `TicketLock.GetsLockIff` | device/quartz/src/arch/arm1176/sync/ticket.rs:24-88 | in every run, by unwrapped tickets: a waiting thread that looks gets the lock exactly when all tickets before its own are done; trying succeeds exactly when nobody holds or waits and none is lost; asking gets it under the same condition and else waits behind all others |
| `TicketLock.GetsInIff` | device/quartz/src/arch/arm1176/sync/ticket.rs:24-98 | from every state of every run a waiting thread can still get the lock with its ticket if and only if it took it before one was lost |
| `TicketLock.LostAfterCarry` | device/quartz/src/arch/arm1176/sync/ticket.rs:90-98 | a ticket is lost exactly from the 65536th unlock on, and the count of unlocks never passes it |
| `TicketLock.StuckForEver` | device/quartz/src/arch/arm1176/sync/ticket.rs:24-98 | when that ticket's turn has come nobody holds the lock and no step changes that |
| `TicketLock.AloneRuns` | device/quartz/src/arch/arm1176/sync/ticket.rs:24-98 | one thread taking and releasing the lock reaches each of these states |
| `TicketLock.AloneGetsStuck` | device/quartz/src/arch/arm1176/sync/ticket.rs:90-98 | after 65536 times it is stuck |
| `MemoryIndex.PageStep` | device/quartz/src/arch/arm1176/pmm.rs:122-139 | the sweep over sorted ranges marks a page exactly when a range takes it |
| `MemoryIndex.UsedIffMeets` | device/quartz/src/arch/arm1176/pmm.rs:122-139 | which, without empty ranges, is when the page meets a used range |
| `MemoryIndex.BusyIffPageUsed` | device/quartz/src/arch/arm1176/pmm.rs:140-171 | a region counts as busy exactly when some page anywhere below it meets a used range |
| `MemoryIndex.PartlyVisits` | device/quartz/src/arch/arm1176/pmm.rs:375-388 | a floating chain visits each partly used region once and nothing else |
| `MemoryIndex.LevelStep` | device/quartz/src/arch/arm1176/pmm.rs:140-161 | one region more keeps the sweep's invariant: bits raised, chain, counts and what is left alone |
| `MemoryIndex.SweepsBuild` | device/quartz/src/arch/arm1176/pmm.rs:113-172 | the four sweeps together build the whole index |
| `MemoryManagers.MemoryManager.Float` | device/quartz/src/arch/arm1176/pmm.rs:375-388 | puts a region at the head of its chain |
| `MemoryManagers.MemoryManager.MarkPages` | device/quartz/src/arch/arm1176/pmm.rs:121-139 | page bits and count for any sorted ranges, empty ones included, or a panic, and exactly when |
| `MemoryManagers.MemoryManager.IndexLevel` | device/quartz/src/arch/arm1176/pmm.rs:140-161 | the nested loops over one level |
| `MemoryManagers.MemoryManager.IndexRegion` | device/quartz/src/arch/arm1176/pmm.rs:142-149 | what is done about one region |
| `MemoryManagers.MemoryManager.IndexSupersections` | device/quartz/src/arch/arm1176/pmm.rs:162-171 | the last loop: mask, chain and count |
| `MemoryManagers.MemoryManager.InitializeOnce` | device/quartz/src/arch/arm1176/pmm.rs:113-172 | from a fresh manager and any sorted ranges: a page bit is clear exactly when a range takes the page, an upper bit exactly when a page below is used, each chain visits its partly used regions once, and all counts agree; or a panic, and exactly when |
| `Relocations.Layout` | device/okboot/src/stub.rs:40-69 | image, side buffer and stub are pairwise disjoint and aligned, and nothing written while loading lies below the bootloader's end |
| `Relocations.BootloaderUntouched` | device/okboot/src/stub.rs:71-88 | for every chunking, loading writes nothing below the bootloader's end |
| `Relocations.LoadedImage` | device/okboot/src/stub.rs:71-88 | for every chunking, each byte of the image: the program's, or what memory held before if a chunk carried it across the boundary |
| `Relocations.ImageIsProgramIff` | device/okboot/src/stub.rs:71-88 | the image is the program whatever memory held if and only if no chunk crosses the boundary |
| `Relocations.MovedIsImage` | device/okboot/src/stub.rs:140-195 | after the stub the checked image stands at its base, and the stub's own code is intact |
| `Relocations.ProgramArrivesIff` | device/okboot/src/stub.rs:39-133 | for every load address below the bootloader's end, every program and every chunking: the stub ends and the program stands at its base, whatever memory held, if and only if the part to be moved is a multiple of four bytes and no chunk crosses its end |
| `Relocations.Machine.LoadAndBoot` | device/okboot/src/stub.rs:39-195 | a whole upload: wrong checksum, a stub that copies for ever, or the program entered, and which; when entered the checked image stands at the base; nothing below the bootloader's end is written while loading |
| `Relocations.FineLoopEndsIff` | device/okboot/extern/stub.S:87-95 | the fine loop's 32-bit counter reaches zero if and only if the count is a multiple of four |
| `Relocations.Machine.WriteBytes` | device/okboot/src/stub.rs:71-88 | the bytes at their target and nowhere else |
| `Relocations.Machine.CopyCoarse` | device/okboot/extern/stub.S:76-86 | sixteen bytes at a time, all read before any is written |
| `Relocations.Machine.CopyFine` | device/okboot/extern/stub.S:87-97 | four at a time what the coarse loop left, with a 32-bit counter; it ends within the words it is watched for exactly when that counter comes to zero in them |
| `Relocations.Machine.Load` | device/okboot/src/protocol/v2.rs:621-633 | chunk after chunk at consecutive addresses |
| `Relocations.Machine.VerifyIntegrity` | device/okboot/src/stub.rs:90-132 | passes if and only if the checksum of the image, read from its two places, is the expected one |
| `Relocations.Machine.RunStub` | device/okboot/extern/stub.S:74-97 | watched for three words of the fine loop or more, the stub ends exactly for a multiple of four, with the side buffer copied to the base and nothing else changed |
| `Relocations.Machine.FinalRelocation` | device/okboot/src/stub.rs:140-195 | the stub put in place and run: ends exactly for a multiple of four, and then memory is the moved image |
| `Delay.DelayMicros` | device/quartz/src/device/bcm2835/timing.rs:56-105 | in each regime, for any non-decreasing readings: never returns before the time has elapsed, and returns at the first reading that shows it |
| `Delay.WaitLong` | device/quartz/src/device/bcm2835/timing.rs:61-85 | the same for the wait that may pass zero and the middle of the range |
| `Delay.DelayMillis` | device/quartz/src/device/bcm2835/timing.rs:41-51 | the steps fit 64 bits, together last at least as long as asked, and with readings at most a gap apart at most two gaps longer for each step, so that it returns when they go on that long; a delay of one step returns at the first reading that is due |
| `ArgumentBlock.SerializeArgs` | host/okdude/src/v2.rs:160-171 | the block, word-aligned after every argument |
| `ArgumentBlock.GetNthArg` | device/bismuth/src/lib.rs:94-108 | the reader's loop computes the recursive read, at word-aligned offsets only |
| `ArgumentBlock.ReadsExpanded` | device/bismuth/src/lib.rs:94-108 | reading any index of any block that fits never panics, and gives that entry of the list with the phantom arguments |
| `ArgumentBlock.ArgumentRoundTrip` | device/bismuth/src/lib.rs:94-108 | argument i reads back if no earlier one has a length divisible by four |
| `ArgumentBlock.AllReadBackIff` | host/okdude/src/v2.rs:160-171 | all read back if and only if nothing but empty arguments follows the first whose length is divisible by four |

## Left out

- The memory manager's allocate, commit, deallocate and unfloat: they do not keep the scheme described at the head of their file.
- The non-relocating branch of the relocation, the legacy download and the ELF loader: the layout is not the one the entry jump expects, or rests on an external crate; what decides about ELF images is an arbitrary predicate. The checksum of a program loaded at or above the bootloader's end is that of the addresses it is in fact written to, from zero.
- postcard, inflate, crc32 and smoltcp internals: an arbitrary codec result, an arbitrary incremental step that makes progress, an arbitrary fold, and packets handed in.
- UART, GPIO, timer and cache registers, traps, the MMU and alignment faults of the copy stub; a 64-bit clock reading is taken to be atomic.
- The terminal, progress bars, argument parsing and build scripts; of a line for the host's log its decoding as UTF-8 and trimming; the host's message queue, which is taken to be open.
- The contents of the protocol reject: only whether a frame can be built for it; its identifier, which a debug build lets overflow, is not kept.
- The addresses that IPCP stores and hands on: its reader, its verdicts and what it takes of a Nak are modelled, and the automaton is proved for every other protocol's too.
- The bitmap words of the memory index are sets of bit positions, and the region table is three arrays, one for each field.
- TicketLock: the spin loop's reads are single steps, and the exclusive load and store pair of each update is one atomic step.
- PppLink.PacketsArrive: asks that no allocation is refused, no frame outgrows its buffer and no drain ends inside an escape pair; the other cases are described by DrainUart, RefusedIff, FullRing and SplitShowsIff.
- PppReceive.SplitShowsIff: asks that neither way of draining is refused or outgrows a buffer; CutShowsIff has no such condition.
- Relocations.Machine.RunStub: what memory holds while a stub that does not end is copying is not described.
- ControlAutomata.ControlAutomaton.Received: a call that does not return is reported as a value; what it has changed by then is not described.
