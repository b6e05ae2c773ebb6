# Packet histories of a WebRTC interceptor library, modelled and proved in Dafny

This project models the state machines of a Go interceptor library for RTP and RTCP that keep or rebuild packet
history, and proves what they promise for every input, every run and every reachable state. `dafny verify
dfyconfig.toml` checks all of it.

There are four families.

* **Transport-wide feedback** (`pkg/twcc`, `internal/cc`), which follows section 3.1 of
  draft-holmer-rmcat-transport-wide-cc-extensions-01. A receiver keeps arrival times in a circular buffer that
  grows and shrinks (`ArrivalTimes.dfy`), records arrivals and cuts the unreported range into feedback packets
  (`TwccRecorder.dfy`), packs status symbols into chunks (`StatusChunks.dfy`) and codes arrival times as rounded
  differences (`Feedback.dfy`). The sender keeps a least-recently-used history (`SendHistory.dfy`) and decodes
  feedback against it (`FeedbackAdapter.dfy`). `TwccRoundTrip.dfy` joins both ends: from the recorded time to the
  acknowledged one the error is at most 125 microseconds, however many packets come before.
* **FlexFEC-03** (`pkg/flexfec`), which follows sections 4.2 and 6.3.2 of
  draft-ietf-payload-flexible-fec-scheme-03: coverage masks (`FlexFecCoverage.dfy`), header and repair payload
  (`FlexFecCodec.dfy`), the encoder that folds packets into a buffer (`FlexFecEncoder.dfy`), the decoder that peels
  (`FlexFecDecoder.dfy`), and the way from one to the other through packet loss (`FlexFecRoundTrip.dfy`).
* **Sequence-number windows**: unwrappers (`SequenceNumbers.dfy`), the log behind negative acknowledgments
  (`ReceiveLog.dfy`), the reference-counted retransmission ring (`RtpBuffer.dfy`), the RFC 8888 stream log
  (`StreamLog.dfy`) and the jitter buffer's linked list (`PriorityQueue.dfy`). Each is tied to a plain set or map of
  unbounded numbers.
* **Video frames** (`pkg/videoframe`): frame assembly in a ring (`FrameAssembly.dfy`, `FrameTimestamps.dfy`,
  `PacketBuffer.dfy`) and the two reference finders with stashes (`SeqNumRefFinder.dfy`, `Vp8RefFinder.dfy`, over `Stash.dfy`).

`Words.dfy`, `Bits.dfy` and `SequenceWindows.dfy` hold 16-bit arithmetic, bytes and machine words as bits, and rings
indexed by wrapped numbers.

Objects that the source updates in place are classes with the same fields, loops are loops, and ring buffers are
arrays. True sequence numbers are unbounded ghost integers; the code's own state wraps at 16 bits. Go's truncating
division and remainder, its wrapping subtraction and its bit masks are written out. Each locked method is one step.

## What the proofs found

* A received number that has left the sender's history leaves its delta to the next known number. With n received
  numbers up to some number and m of them known, that number's arrival falls short by the sum of the last n - m of the
  n deltas. `TwccRoundTrip.ArrivalRightIff` gives the exact shift and `ForgottenNumberShiftsArrival` an input.
* The adapter ignores the status count. It acknowledges one number too many for every symbol that the last chunk is
  short of a whole two-bit vector, with the arrival zero, so there is one acknowledgment per reported number if and
  only if the last chunk is not a short vector (`TwccRoundTrip.WireRoundTrip`; `SurplusAcknowledgments` is an input).
* A packet older than the range to report extends it downwards, and what follows it is reported again
  (`TwccRecorder.ReportedAgainIff` says exactly which numbers).
* The three masks of a FlexFEC-03 header have no bit for media packet 109
  (`FlexFecRoundTrip.HeaderRoundTrip` holds if and only if that packet is not protected).
* When the bytes of a rebuilt packet cannot be unmarshalled, the decoder enters an empty packet, numbered 0, and counts
  a recovery. Its loop ends if and only if it never reaches a state in which some FEC packet misses exactly one packet,
  none of these can be unmarshalled, and the slots numbered 0 hold the empty packet already
  (`FlexFecDecoder.EndsIff`, `StalledIff`). `FlexFecRoundTrip.CrammedFecStalls` is a FEC packet, as it comes off the
  wire, on which the loop never ends.
* A first batch of more than 110 packets is refused, but a later one is not: the encoder then encodes the batch
  before it under the new base (`FlexFecEncoder.FlexEncoder03.EncodeFec`).
* A late packet a ring length or more behind marks a newer number as received in the negative-acknowledgment log
  (`ReceiveLogs.LateExactIff`). With a ring of 32768 the list of missing numbers is empty when the range to scan
  spans half the number space, and a skip of more than half the number space makes the code list numbers that are not
  due, or run out of the caller's buffer (`ReceiveLogs.ReceiveLog.MissingSeqNumbers`).
* A packet given to the retransmission ring with the number of the newest one is dropped without being released
  (`RtpBuffers.RtpBuffer.Add`).
* The age of a packet is cut to 16 bits before it is limited, so a packet that arrived 65 seconds ago is reported as
  one second old (`StreamLogs.OffsetRightIff`, `OldPacketLooksRecent`).
* A frame can have packets of two timestamps: a packet keeps its continuous flag when the packet before it is replaced
  (`FrameTimestamps.TimestampsMix`). It cannot in runs that insert no packet in front of such a one, and so not in runs
  that replace no packet (`RunHasOneTimestamp`, `FramesWholeWithoutReplacing`).
* A second packet with the number of the jitter queue's head turns the list into a cycle
  (`PriorityQueues.PriorityQueue.Push`). The comment on the constructor speaks of an order that wraps at 65535; the
  code orders by the plain number, and the model follows the code.
* Clearing the jitter queue leaves every packet in it: the queue is usable afterwards if and only if it was empty before
  (`PriorityQueues.PriorityQueue.Clear`).
* The FEC decoder recovers a packet that is known in one FEC packet and missing in another a second time
  (`FlexFecDecoder.KnownIsRecoveredAgain`); with no such number at the start it recovers only what was not known.
* The comment in the VP8 finder says that a frame above the base layer looks at the previous base-layer index; the code
  looks at the frame's own index a second time, and the model follows the code. After the first keyframe such a
  frame never waits (`Vp8References.EnhancementResolvable`).

## Model

| member | source | states |
|---|---|---|
| SequenceNumbers.Unwrapper.Unwrap | internal/sequencenumber/unwrapper.go:27-48 | the first number is taken as it is; each later one is `NextUnwrapped` of the last result, about which the lemmas below are proved |
| SequenceNumbers.StepFollowed | internal/sequencenumber/unwrapper.go:18-48 | one step from a non-negative number is followed if and only if it is `Trackable`: less than half the number space, exactly half in the direction the wrapped values move, or a forward step whose backward reading would be negative |
| SequenceNumbers.UnwrapRecoversStream | internal/sequencenumber/unwrapper.go:27-48 | a new unwrapper gives back a non-negative stream from its wrapped values if and only if the stream starts below 65536 and every step is trackable |
| SequenceNumbers.ShortStepsTrackable | internal/sequencenumber/unwrapper.go:27-48 | a stream whose steps are all shorter than half the number space is trackable |
| SequenceNumbers.UnwrapCongruent | internal/sequencenumber/unwrapper.go:27-48 | whatever arrives, every output is non-negative and congruent to its input |
| VideoUnwrappers.SignedStepFollowed | pkg/videoframe/receiver_interceptor.go:83-100 | for every even modulus, a step is followed if and only if it is shorter than half the modulus, or exactly half in the direction the wrapped values move |
| VideoUnwrappers.SignedRunRecoversStream | pkg/videoframe/receiver_interceptor.go:83-100 | the unwrapping theorem for every even modulus, as an if and only if over whole streams, also below zero |
| VideoUnwrappers.MasksAreRemainders | pkg/videoframe/receiver_interceptor.go:83-100 | the masks 0xFFFF, 0x7FFF and 0xFF are remainders, also for negative numbers |
| VideoUnwrappers.SequenceUnwrapper.Unwrap | pkg/videoframe/receiver_interceptor.go:83-100 | the 16-bit instance of the theorem |
| VideoUnwrappers.CounterUnwrapper.Unwrap | pkg/videoframe/frame_id_only_ref_finder.go:38-65 | the 15-bit instance, and the 8-bit one of vp8_ref_finder.go; a negative value is answered with -1 and changes nothing |
| ArrivalTimes.PacketArrivalTimeMap.Index | pkg/twcc/arrival_time_map.go:171-175 | the masked number is the remainder by the capacity, also below zero |
| SequenceWindows.PosDistinct | pkg/twcc/arrival_time_map.go:171-175 | no two numbers of a range that fits a ring, negative ones included, share a slot |
| ArrivalTimes.PacketArrivalTimeMap.Get | pkg/twcc/arrival_time_map.go:163-169 | agrees with the windowed map, -1 outside the window |
| ArrivalTimes.PacketArrivalTimeMap.HasReceived | pkg/twcc/arrival_time_map.go:147-149 | true exactly for the numbers the map has as received |
| ArrivalTimes.PacketArrivalTimeMap.Clamp | pkg/twcc/arrival_time_map.go:152-161 | the number of the window nearest to the argument |
| ArrivalTimes.PacketArrivalTimeMap.Reallocate | pkg/twcc/arrival_time_map.go:198-204 | the map is the same in a ring of another power-of-two capacity |
| ArrivalTimes.PacketArrivalTimeMap.AdjustToSize | pkg/twcc/arrival_time_map.go:177-192 | the map is unchanged; the capacity stays a power of two from 128 to 32768, holds the new size and is at most four times that |
| ArrivalTimes.PacketArrivalTimeMap.SetNotReceived | pkg/twcc/arrival_time_map.go:90-94 | exactly the numbers of the range become missing |
| ArrivalTimes.PacketArrivalTimeMap.AddPacket | pkg/twcc/arrival_time_map.go:29-88 | the new map as a function of the old one: a packet too old is dropped, one far ahead empties the window, any other extends it and marks what lies between as missing |
| ArrivalTimes.PacketArrivalTimeMap.FindNextAtOrAfter | pkg/twcc/arrival_time_map.go:108-118 | the first received number at or after the argument with its time, or none if there is none |
| ArrivalTimes.PacketArrivalTimeMap.EraseTo | pkg/twcc/arrival_time_map.go:121-134 | the map restricted to the numbers from the argument on |
| ArrivalTimes.PacketArrivalTimeMap.RemoveOldPackets | pkg/twcc/arrival_time_map.go:138-144 | the map restricted to a later begin: everything dropped is below the number and missing or not newer than the limit, and the first kept below it is newer |
| StatusChunks.Chunk.Add | pkg/twcc/twcc.go:297-301 | the symbol is appended and the two flags stay exact |
| StatusChunks.Chunk.CanAddIff | pkg/twcc/twcc.go:283-295 | a symbol can be added exactly when the pending symbols with it still fit one chunk of some layout |
| StatusChunks.Chunk.Encode | pkg/twcc/twcc.go:303-343 | the chunk followed by what stays pending is what was pending; equal symbols become a run, fourteen others a one-bit vector, otherwise the first seven a two-bit vector; the chunk fits its layout, and fills it unless nothing stays behind |
| StatusChunks.StatusCountSuffices | pkg/twcc/twcc.go:198-222 | a reader of fixed-width chunks gets the symbols and then exactly one filler for every symbol the last chunk is short of a whole two-bit vector, so the status count is all it needs |
| StatusChunks.CloseNext | pkg/twcc/twcc.go:238-259 | closing a chunk changes no symbol and keeps every chunk but the last full |
| FeedbackPackets.RoundingError | pkg/twcc/twcc.go:224-236 | rounding to 250 microseconds is off by at most 125, and by 125 only away from zero |
| FeedbackPackets.FitsIff | pkg/twcc/twcc.go:224-236 | exactly which time differences round to 16 bits |
| FeedbackPackets.Feedback.SetBase | pkg/twcc/twcc.go:191-196 | the reference time is the 64 ms tick at or before the time |
| FeedbackPackets.Feedback.AddSymbol | pkg/twcc/twcc.go:238-259 | the pending and closed symbols together gain the symbol, nothing is lost, closed chunks are full, and a chunk is closed before it exactly when the pending symbols with it fit no one chunk |
| FeedbackPackets.Feedback.AddReceived | pkg/twcc/twcc.go:224-269 | refuses, changing nothing, exactly when the difference to the rebuilt clock, stated in microseconds, does not round to 16 bits; otherwise adds one missing entry for each number skipped, the arrival, and one delta that is small exactly when it is 0 to 255 units and takes the clock to within 125 microseconds of the arrival |
| FeedbackPackets.Feedback.GetRTCP | pkg/twcc/twcc.go:198-222 | the packet describes the recorded arrivals: base, count, reference time, chunks that expand to the symbols and deltas of the coding; there is one delta for each received symbol, of that kind and well sized; the header is marked padded exactly when 20 bytes, two for each chunk and one or two for each delta are no whole words, and its length is that of the padded packet |
| FeedbackPackets.DescribedIsWellCoded | pkg/twcc/twcc.go:247-260 | in every report that describes its arrivals the k-th received symbol is the kind of the k-th delta; a delta is small if and only if it is 0 to 255 units of 250 microseconds, and any other is large and within 16 bits of units |
| FeedbackPackets.DeltaBytesAre | pkg/twcc/twcc.go:247-254 | the deltas take one byte each and a second one for each that is not 0 to 255 units |
| FeedbackPackets.Feedback.FrameLength | pkg/twcc/twcc.go:208-219 | the padding flag and the length in words less one, for the chunks and deltas there are |
| TwccRecorder.Recorder.MaybeCullOldPackets | pkg/twcc/twcc.go:73-78 | drops from the front what is missing or older than half a second, up to the new number, and only when everything is reported |
| TwccRecorder.Recorder.Record | pkg/twcc/twcc.go:47-71 | the unwrapped number is recorded in the window as `Recorded` says and counted as held if it is new: the first arrival wins, numbers leave for the size limit or, once everything is reported, when older than half a second, and then the window begins with a newer one or not below the packet; while no time is negative the newest number is a received one |
| TwccRecorder.RecordedWindow | pkg/twcc/twcc.go:47-71 | in every case (first packet, duplicate, new, too old) the first arrival wins, nothing else changes, a number leaves only by age or size, and the range to report reaches down to the packet |
| TwccRecorder.PendingUntilReported | pkg/twcc/twcc.go:47-71 | through any run of arrivals a received and unreported number within 32768 of the newest stays in the window, keeps its time and stays in the range to report |
| TwccRecorder.ReportedAgainIff | pkg/twcc/twcc.go:47-71 | a number that stays in the window is in the range to report exactly when it was, or when a packet at or before it has arrived since |
| TwccRecorder.Open | pkg/twcc/twcc.go:130-153 | the first packet of a report always fits, so the branch for one that does not is never taken; at most one missing number is given up |
| TwccRecorder.FirstDeltaFits | pkg/twcc/twcc.go:142-153 | the first difference of a packet is between 0 and 256 units |
| TwccRecorder.Extend | pkg/twcc/twcc.go:154-160 | the next received number is added if and only if its difference fits; the packet then covers the stretch up to it |
| TwccRecorder.Recorder.MaybeBuildFeedbackPacket | pkg/twcc/twcc.go:111-166 | there is no packet exactly when nothing was received; otherwise it covers a stretch from the start of the range that ends with a received number, and ends only where nothing more was received or the next difference does not fit |
| TwccRecorder.Recorder.BuildFeedbackPacket | pkg/twcc/twcc.go:86-107 | the packets tile the unreported range in order, each describing its stretch of the window and numbered consecutively; nothing received is left over, and the build ends with start equal to end when the newest number was received |
| TwccRecorder.ReportedExactlyOnce | pkg/twcc/twcc.go:86-107 | every number of the range lies in exactly one packet |
| TwccRecorder.LaterPacketsGiveUpNothing | pkg/twcc/twcc.go:134-142 | only the first packet of a build can give up a number |
| SendHistory.HistoryIsMostRecent | internal/cc/feedback_adapter.go:247-279 | after any run of adds the history is the `size` most recent entries of the recency list |
| SendHistory.RecencyIsRecency | internal/cc/feedback_adapter.go:247-266 | the recency list has every key once, with its last acknowledgment, the most recently added first |
| SendHistory.FeedbackHistory.Get | internal/cc/feedback_adapter.go:236-245 | found if and only if the key is among the `size` most recently added ones, and then with the last acknowledgment added for it |
| SendHistory.LookupIsLastAdd | internal/cc/feedback_adapter.go:236-266 | after any run of adds a lookup finds exactly the most recent keys, each with its last add |
| SendHistory.FeedbackHistory.Add | internal/cc/feedback_adapter.go:247-266 | the key comes to the front with its new value and the least recent one is evicted when there are too many; list and index hold the same keys without duplicates |
| SendHistory.FeedbackHistory.RemoveOldest | internal/cc/feedback_adapter.go:268-279 | the last element leaves the list and the index |
| FeedbackAdapters.FeedbackAdapter.OnSentTWCC | internal/cc/feedback_adapter.go:55-75 | adds the transport-wide number with arrival zero; a packet without the extension is an error and adds nothing |
| FeedbackAdapters.FeedbackAdapter.OnSentRFC8888 | internal/cc/feedback_adapter.go:39-53 | adds the RTP number under its SSRC with arrival zero |
| FeedbackAdapters.FeedbackAdapter.OnSent | internal/cc/feedback_adapter.go:79-87 | takes the one path or the other; the history stays one of packets without an arrival |
| FeedbackAdapters.FeedbackAdapter.HistoryHasNoArrival | internal/cc/feedback_adapter.go:39-75 | in every reachable state every entry of the history has arrival zero |
| FeedbackAdapters.FeedbackAdapter.UnpackRunLengthChunk | internal/cc/feedback_adapter.go:89-117 | equals the symbol-by-symbol decoding of the run; an error exactly when the deltas run out |
| FeedbackAdapters.FeedbackAdapter.UnpackStatusVectorChunk | internal/cc/feedback_adapter.go:119-145 | equals the symbol-by-symbol decoding of the vector; an error exactly when the deltas run out |
| FeedbackAdapters.FeedbackAdapter.OnTransportCCFeedback | internal/cc/feedback_adapter.go:149-186 | equals the decoding of all expanded symbols against the history, and `Answers` it: an error exactly when a delta is missing for a known received number, else per number what `UnpackMeans` says |
| FeedbackAdapters.UnpackSplit | internal/cc/feedback_adapter.go:149-186 | decoding chunk after chunk is decoding the symbols in one go |
| FeedbackAdapters.UnpackMeans | internal/cc/feedback_adapter.go:89-186 | for any packet and history: no error if and only if the known numbers with a received symbol are at most as many as the deltas; then each number gets nothing if it is not known, its history entry if it was not received, and else the entry with the reference time plus one delta for each such number up to it |
| TwccRoundTrip.RebuiltTimeAccurate | pkg/twcc/twcc.go:224-269 | no drift: a rebuilt time is within 125 microseconds of the recorded one, whatever came before |
| TwccRoundTrip.DecoderFollows | internal/cc/feedback_adapter.go:89-186 | symbol by symbol the decoder has the coder's clock and has used as many deltas as were written |
| TwccRoundTrip.RoundTrip | internal/cc/feedback_adapter.go:149-186 | for a packet the receiver built whose received numbers the sender knows: no error, one acknowledgment per number in order, lost packets keep their history entry, whose arrival is zero, received ones get the 64 ms reference plus the deltas up to them, within 125 microseconds |
| TwccRoundTrip.WindowToSender | internal/cc/feedback_adapter.go:149-186 | the same from the recorder's window: every received number of a packet of a build is acknowledged in its place with its recorded time, give or take 125 microseconds |
| TwccRoundTrip.WireRoundTrip | internal/cc/feedback_adapter.go:119-186 | over the wire, where two-bit vectors are padded to seven, the same acknowledgments come first and then exactly one for every symbol the last chunk is short of, with arrival zero; so the count is right if and only if the last chunk is not a short two-bit vector |
| TwccRoundTrip.SurplusAcknowledgments | internal/cc/feedback_adapter.go:119-186 | an input: a packet of three numbers for which seven acknowledgments are given |
| TwccRoundTrip.ClockIsSum | internal/cc/feedback_adapter.go:97-111 | the coder's clock is the reference time plus the sum of the deltas |
| TwccRoundTrip.ArrivalRightIff | internal/cc/feedback_adapter.go:89-145 | whatever the sender knows: with n received numbers up to a known one and m of them known, its arrival falls short by the sum of the last n - m of the n deltas, and is right if and only if that sum is zero |
| TwccRoundTrip.ForgottenNumberShiftsArrival | internal/cc/feedback_adapter.go:89-117 | an input on which one forgotten number moves the next arrival |
| FlexFecCoverage.SetBit | pkg/flexfec/util/bitarray.go:14-21 | exactly the bit of the index is set |
| FlexFecCoverage.GetBit | pkg/flexfec/util/bitarray.go:30-47 | 1 if the bit is set, 0 if not |
| FlexFecCoverage.ExtractMask1 | pkg/flexfec/flexfec_coverage.go:143-148 | bits 0 to 14 after a clear k-bit |
| FlexFecCoverage.ExtractMask2 | pkg/flexfec/flexfec_coverage.go:150-157 | bits 15 to 45 after a clear k-bit |
| FlexFecCoverage.ExtractMask3 | pkg/flexfec/flexfec_coverage.go:168-177 | bits 46 to 108 after a clear k-bit |
| FlexFecCoverage.MasksCoverArray | pkg/flexfec/flexfec_coverage.go:143-177 | read one after the other the masks give the set positions up to 108, in order |
| FlexFecCoverage.ProtectionCoverage.UpdateCoverage | pkg/flexfec/flexfec_coverage.go:62-98 | after any history of calls, the reuse of masks included, the masks are those of the latest counts, however many FEC packets: packet i is protected by FEC packet i modulo their number |
| FlexFecCoverage.ProtectionCoverage.GetCoveredBy | pkg/flexfec/flexfec_coverage.go:108-117 | the protected indices in ascending order |
| FlexFecCoverage.ProtectionCoverage.ProtectedOnce | pkg/flexfec/flexfec_coverage.go:62-98 | in the masks of any coverage every media packet is set for exactly one FEC packet, which has a mask |
| FlexFecCoverage.MasksAreExact | pkg/flexfec/flexfec_coverage.go:143-177 | the header masks stand for exactly the protected indices if and only if packet 109 is not protected |
| FlexFecCoverage.DecodeMask | pkg/flexfec/flexfec_decoder_03.go:313-322 | the numbers base + i of exactly the set bits i, ascending |
| FlexFecCodec.FoldWithout | pkg/flexfec/flexfec_encoder_03.go:157-192 | the fold of all packets is the fold of all but one and that one |
| FlexFecCodec.ParseRoundTrip | pkg/flexfec/flexfec_decoder_03.go:344-410 | parsing what was written gives back the SSRC, the base, the three masks and the repair payload, for the 20-, 24- and 32-byte headers |
| FlexFecCodec.ParsesIff | pkg/flexfec/flexfec_decoder_03.go:344-410 | exactly which headers parse, with every field at its byte offset and every mask bit at its bit offset, and for every other header the first error there is |
| Bits.BytesUint16Value | pkg/flexfec/flexfec_decoder_03.go:365 | two bytes are 256 times the value of the first plus that of the second |
| Bits.Uint16BytesValue | pkg/flexfec/flexfec_encoder_03.go:206 | the two bytes of a number have its quotient and remainder by 256 as values |
| FlexFecCodec.ProtectedNumbers | pkg/flexfec/flexfec_decoder_03.go:143-149 | the numbers of the three masks, one after the other |
| FlexFecCodec.RecoversLostPacket | pkg/flexfec/flexfec_decoder_03.go:246-304 | whatever the sizes, with all but one protected packet at hand the missing one is rebuilt byte for byte |
| FlexFecEncoder.FoldIn | pkg/flexfec/flexfec_encoder_03.go:157-192 | folding one more packet into the buffer gives the fold of all packets so far |
| FlexFecEncoder.PutMasks | pkg/flexfec/flexfec_encoder_03.go:208-222 | the mask fields are written with the k-bit on the last one needed |
| FlexFecEncoder.FillFecPayload | pkg/flexfec/flexfec_encoder_03.go:97-222 | the payload is the folded header, the SSRC fields, the base, the masks and the folded payloads |
| FlexFecEncoder.FlexEncoder03.EncodeFlexFecPacket | pkg/flexfec/flexfec_encoder_03.go:97-241 | a packet exactly when the index is below both counts, with the payload type, SSRC, timestamp and next FEC number; under the base of its batch its payload parses and, whatever is lost, rebuilds byte for byte the packet that is the only loss of the residue, packet 109 not having it |
| FlexFecEncoder.FlexEncoder03.EncodeFec | pkg/flexfec/flexfec_encoder_03.go:59-94 | nothing for an empty batch, one with a gap, or a first one that is too large; else one packet per FEC index below both counts, in order and with consecutive numbers, payload type, SSRC and timestamp; each payload parses and, whatever is lost of the batch, rebuilds byte for byte the packet that is the only loss of its residue, unless packet 109 has that residue too |
| FlexFecCodec.ProtectsSomething | pkg/flexfec/flexfec_encoder_03.go:128-130 | a FEC packet protects something exactly when its own index is that of a media packet |
| FlexFecDecoder.RecoverPacket | pkg/flexfec/flexfec_decoder_03.go:246-304 | the loops over header and payload compute the exclusive-or of the FEC packet with everything at hand; bytes that cannot be unmarshalled are an error and give the empty packet |
| FlexFecDecoder.HonestRecovery | pkg/flexfec/flexfec_decoder_03.go:246-304 | from a FEC packet the encoder made, the one missing packet comes back as it was sent |
| FlexFecDecoder.FecDecoder.UpdateCoveringFecPackets | pkg/flexfec/flexfec_decoder_03.go:113-121 | the packet is entered in every slot with its number and in no other |
| FlexFecDecoder.FecDecoder.AttemptRecovery | pkg/flexfec/flexfec_decoder_03.go:203-244 | whether the loop ends is told exactly; if it ends, and what was rebuilt could be unmarshalled or no slot is numbered 0, the known slots are the least set that holds those known before and is closed under single-erasure repair; every newly known slot holds a returned packet; with the encoder's FEC packets it ends and all that is recovered is original; where everything unmarshals the recovered numbers are pairwise different, each was missing at the start and is held in all its slots at the end, and none was known at the start if no number was both known and missing then |
| FlexFecDecoder.PassOnce | pkg/flexfec/flexfec_decoder_03.go:203-244 | what a pass recovers was missing at the start, no number is recovered twice in a run, each is known in all its slots from then on, and a consistent state stays so |
| FlexFecDecoder.RecoveredNotEmpty | pkg/flexfec/flexfec_decoder_03.go:274-276 | what is rebuilt has version 2, so it differs from the empty packet |
| FlexFecDecoder.KnownIsRecoveredAgain | pkg/flexfec/flexfec_decoder_03.go:203-244 | an input: a number known in one FEC packet and missing in another is recovered although it is known |
| FlexFecDecoder.FecDecoder.RecoveryPass | pkg/flexfec/flexfec_decoder_03.go:206-236 | one pass is the pass of the specification, failures to unmarshal included |
| FlexFecDecoder.StalledIff | pkg/flexfec/flexfec_decoder_03.go:203-244 | a pass counts a recovery and changes nothing if and only if some FEC packet misses exactly one packet, none of these can be unmarshalled, and the slots numbered 0 hold the empty packet |
| FlexFecDecoder.StalledWithoutZero | pkg/flexfec/flexfec_decoder_03.go:203-244 | the same for FEC packets without a slot numbered 0, where only the first two conditions matter |
| FlexFecDecoder.PassProgress | pkg/flexfec/flexfec_decoder_03.go:203-244 | short of that every pass that counts a recovery makes progress |
| FlexFecDecoder.EndsIff | pkg/flexfec/flexfec_decoder_03.go:203-244 | the loop ends if and only if it never reaches such a state |
| FlexFecDecoder.NoStall | pkg/flexfec/flexfec_decoder_03.go:203-244 | it is never reached where everything rebuilt can be unmarshalled, and so with the encoder's FEC packets |
| FlexFecDecoder.FillProgress | pkg/flexfec/flexfec_decoder_03.go:203-244 | every recovery leaves fewer slots missing |
| FlexFecDecoder.PeelingStep | pkg/flexfec/flexfec_decoder_03.go:203-244 | entering a rebuilt packet keeps within every closed set |
| FlexFecDecoder.PeelingDone | pkg/flexfec/flexfec_decoder_03.go:203-244 | when no FEC packet misses exactly one slot the known slots are the least closed set |
| FlexFecDecoder.RepairsCarryOver | pkg/flexfec/flexfec_decoder_03.go:203-244 | what some of the FEC packets can repair all of them can |
| FlexFecDecoder.OrderIrrelevant | pkg/flexfec/flexfec_decoder_03.go:203-244 | the order of the FEC packets does not matter |
| FlexFecRoundTrip.ConsecutiveNumbers | pkg/flexfec/flexfec_encoder_03.go:65-71 | the order check makes the numbers count up from the first |
| FlexFecRoundTrip.HeaderRoundTrip | pkg/flexfec/flexfec_decoder_03.go:143-149 | the parsed header of an encoded packet gives the repair payload and, if and only if packet 109 is not protected, exactly the protected numbers in ascending order |
| FlexFecRoundTrip.EncodedIsHonest | pkg/flexfec/flexfec_encoder_03.go:97-222 | whatever is lost, a FEC packet of the encoder is honest about the batch |
| FlexFecRoundTrip.LostPacketComesBack | pkg/flexfec/flexfec_decoder_03.go:246-304 | end to end: if one packet of a residue class is lost, the decoder rebuilds its marshalled bytes from the parsed FEC packet of the class and the survivors |
| FlexFecRoundTrip.PayloadRebuilds | pkg/flexfec/flexfec_decoder_03.go:246-304 | the same on the payload as it is sent: what is parsed from it, filled with the survivors by number, rebuilds the lost packet |
| FlexFecRoundTrip.CrammedFecStalls | pkg/flexfec/flexfec_decoder_03.go:203-304 | an input: one FEC packet, as parsed, that rebuilds to 12 bytes with 15 contributing sources, on which the loop never ends |
| ReceiveLogs.NewReceiveLog | pkg/nack/receive_log.go:22-42 | a log for exactly the powers of two from 64 to 32768 |
| ReceiveLogs.ReceiveLog.SetReceived | pkg/nack/receive_log.go:121-124 | exactly the bit of the number is set |
| ReceiveLogs.ReceiveLog.DelReceived | pkg/nack/receive_log.go:126-129 | exactly the bit of the number is cleared |
| ReceiveLogs.ReceiveLog.GetReceived | pkg/nack/receive_log.go:131-135 | the bit of the number |
| ReceiveLogs.ReceiveLog.FixLastConsecutive | pkg/nack/receive_log.go:137-144 | moves up over set bits, stops at the first that is not set, and never passes the newest number |
| ReceiveLogs.ReceiveLog.Add | pkg/nack/receive_log.go:44-82 | in every run the newest number is at most a ring length past the last consecutive one; while late packets stay within the ring the bitmap over the window is exactly the set of numbers added, all up to the last consecutive one were received, and that one is followed by a gap again as soon as its successor arrives |
| ReceiveLogs.ReceiveLog.Get | pkg/nack/receive_log.go:84-98 | whether the number is in the window and was added, also before the first packet |
| ReceiveLogs.ReceiveLog.MissingSeqNumbers | pkg/nack/receive_log.go:100-119 | exactly the numbers not received, in order, from the first packet or the window start to the newest less the skip, for every skip that keeps the range within half the number space; never more than the ring length; and what the code lists for the other skips |
| ReceiveLogs.MissingComplete | pkg/nack/receive_log.go:100-119 | the list has a number if and only if it was not received |
| ReceiveLogs.LateExactIff | pkg/nack/receive_log.go:75-82 | a late packet of any age keeps the bitmap exact if and only if it is within the window or the newer number it is taken for was received too |
| RtpBuffers.RetainablePacket.Retain | internal/rtpbuffer/retainable_packet.go:37-47 | fails exactly when no reference is left |
| RtpBuffers.RetainablePacket.Release | internal/rtpbuffer/retainable_packet.go:50-62 | gives one reference back; the last one hands the packet to the pool |
| RtpBuffers.NewRtpBuffer | internal/rtpbuffer/rtpbuffer.go:28-48 | a buffer for exactly the powers of two up to 32768 |
| RtpBuffers.RtpBuffer.Add | internal/rtpbuffer/rtpbuffer.go:51-82 | the packet, new or seen before, becomes the latest for its true number and takes its slot, and what a jump passes is emptied; the buffer takes over one reference and every reference stays accounted for; a packet with the newest number is dropped with its reference |
| RtpBuffers.RtpBuffer.Get | internal/rtpbuffer/rtpbuffer.go:85-107 | never another number's packet, never a released one, and Retain never fails; in runs whose late packets stay in the window, the latest packet added for the number, or none |
| RtpBuffers.RtpBuffer.ReleaseByReader | internal/rtpbuffer/retainable_packet.go:50-62 | a reader's release keeps every reference accounted for |
| RtpBuffers.RtpBuffer.NeverReleasedWhileHeld | internal/rtpbuffer/retainable_packet.go:37-62 | a packet in the ring or with a reader was not handed back and has a reference; none is handed back twice |
| RtpBuffers.ExactAfterAdd | internal/rtpbuffer/rtpbuffer.go:61-82 | a jump ahead or a late packet keeps the ring exact over the window |
| StreamLogs.StreamLog.Add | pkg/rfc8888/stream_log.go:35-48 | the number is added with its report, the newest number is the maximum, and the window start does not move |
| StreamLogs.StreamLog.Report | pkg/rfc8888/stream_log.go:65-94 | one entry per number of the window: received if and only if the number was added, then with its ECN and arrival offset, else with zeros; the start moves to the first gap |
| StreamLogs.ArrivalTimeOffset | pkg/rfc8888/stream_log.go:103-113 | 13 bits, the largest value exactly for an arrival after the reference |
| StreamLogs.OffsetRightIff | pkg/rfc8888/stream_log.go:103-113 | the offset is the limited age if and only if the age is below 65536 units or its low 16 bits are above the limit; with low 16 bits up to the limit it is those bits |
| StreamLogs.OldPacketLooksRecent | pkg/rfc8888/stream_log.go:103-113 | an input: a packet 65 seconds old has the offset of one that is one second old |
| StreamLogs.StreamLog.MetricsAfter | pkg/rfc8888/stream_log.go:52-101 | the block covers the window, cut to the cap; an entry is marked received if and only if its number was added so far, and then has its ECN and arrival offset; the start never moves back, and in every run a number leaves the window only after it was reported received or by the cap |
| PriorityQueues.PriorityQueue.Find | pkg/jitterbuffer/priority_queue.go:53-63 | the first entry with the number; with distinct numbers the packet the map has for it, and not found exactly when it has none |
| PriorityQueues.PriorityQueue.Push | pkg/jitterbuffer/priority_queue.go:66-105 | a number other than the head's is linked in before the first number not below it and the nodes stay one acyclic sorted chain; a new number extends the map by its packet; the head's number again makes a cycle of two |
| PriorityQueues.PriorityQueue.Pop | pkg/jitterbuffer/priority_queue.go:114-124 | takes the first entry, in the map that of the least number; an error exactly on an empty queue |
| PriorityQueues.PriorityQueue.PopAt | pkg/jitterbuffer/priority_queue.go:127-158 | takes the first entry with the number and relinks its neighbours; in the map the packet of the number, if and only if it has one; the two errors as documented |
| PriorityQueues.PriorityQueue.PopAtTimestamp | pkg/jitterbuffer/priority_queue.go:162-193 | takes the first entry with the timestamp and relinks its neighbours; in the map the packet of the least number that has the timestamp; the two errors as documented |
| PriorityQueues.PriorityQueue.Clear | pkg/jitterbuffer/priority_queue.go:196-203 | only the length and the back links are forgotten: every packet stays, and the queue is valid afterwards if and only if it was empty |
| PriorityQueues.StepRefines | pkg/jitterbuffer/priority_queue.go:53-193 | on a strictly sorted list, with new numbers pushed, every operation is the operation on the map of its entries |
| PriorityQueues.RunRefines | pkg/jitterbuffer/priority_queue.go:53-193 | in every run that pushes only new numbers the list is strictly sorted and every answer and change is that of a map of packets pushed and not popped |
| PriorityQueues.SortedListUnique | pkg/jitterbuffer/priority_queue.go:53-193 | the map decides the list |
| PacketBuffers.NewVideoPacketBuffer | pkg/videoframe/packet_buffer.go:59-70 | a buffer for exactly the powers of two from 64 to 2048 |
| PacketBuffers.SeqNumToIndex | pkg/videoframe/packet_buffer.go:101-108 | the non-negative remainder, also for negative numbers |
| PacketBuffers.VideoPacketBuffer.PotentialNewFrame | pkg/videoframe/packet_buffer.go:154-190 | true exactly when the number is held and starts a frame or continues the continuous packet before it |
| PacketBuffers.VideoPacketBuffer.ExtractFrame | pkg/videoframe/packet_buffer.go:194-236 | the run that ends here, starts with its only first packet and is all continuous, or nothing when there is no such run |
| PacketBuffers.VideoPacketBuffer.FindFrames | pkg/videoframe/packet_buffer.go:113-150 | the scan of the held packets, number by number |
| PacketBuffers.VideoPacketBuffer.InsertPacket | pkg/videoframe/packet_buffer.go:74-98 | the ring step is the step on the map of held packets; a packet already held changes nothing, any other takes its slot from a packet whole rounds away, and then every packet is still held or in exactly one of the frames returned, each of which is sound |
| FrameAssembly.InsertConserves | pkg/videoframe/packet_buffer.go:74-148 | one insertion loses and invents no packet: what was held and what was inserted is held or in exactly one returned frame, but for the packet in the slot |
| FrameAssembly.RunIsSound | pkg/videoframe/packet_buffer.go:74-236 | in every run, whatever is inserted, every returned frame is a gap-free run whose only first-flag is at its start and that ends with a last-flag |
| FrameAssembly.FrameReturnedOnce | pkg/videoframe/packet_buffer.go:74-236 | a frame of a well-formed stream of at most half the buffer's size, each packet inserted once and none pushed out, is returned whole and once by the insertion that delivers its last missing packet, and no packet of it by any other insertion, in whatever order the packets come |
| FrameAssembly.CompletedByOne | pkg/videoframe/packet_buffer.go:74-98 | once all packets are in, exactly one insertion has completed the frame |
| FrameTimestamps.RunHasOneTimestamp | pkg/videoframe/packet_buffer.go:74-236 | in every run in which no packet is inserted in front of a packet left behind with another timestamp, every frame has one timestamp |
| FrameTimestamps.StoredLinkedIff | pkg/videoframe/packet_buffer.go:80-92 | storing a packet keeps the timestamps linked if and only if it does not meet such a packet |
| FrameTimestamps.FramesWholeWithoutReplacing | pkg/videoframe/packet_buffer.go:74-236 | in every run that replaces no packet every frame has one timestamp and its only last-flag at its end |
| FrameTimestamps.TimestampsMix | pkg/videoframe/packet_buffer.go:74-236 | an input: five packets after which a frame has two timestamps |
| FrameAssembly.PotentialIsUpTo | pkg/videoframe/packet_buffer.go:154-190 | the continuous flags tell exactly whether a gap separates a packet from the start of its frame |
| FrameAssembly.OtherFrameApart | pkg/videoframe/packet_buffer.go:194-236 | a frame taken out elsewhere never reaches into a frame that waits |
| Stashes.Stash | pkg/videoframe/seq_num_only_ref_finder.go:158-174 | the frame is added, a full stash of 100 gives up its front, and the result is sorted |
| Stashes.Keep | pkg/videoframe/seq_num_only_ref_finder.go:220-229 | the frames from a number on, in their order |
| Stashes.KeptCounts | pkg/videoframe/seq_num_only_ref_finder.go:220-229 | each frame from the number on is kept as often as it was there, every other one not at all |
| SeqNumReferences.SeqNumOnlyRefFinder.TryResolveStashedFrames | pkg/videoframe/seq_num_only_ref_finder.go:178-217 | it ends; the stash gives up frames that follow without a gap, each referring to its predecessor, until none is left that does |
| SeqNumReferences.SeqNumOnlyRefFinder.ManageFrame | pkg/videoframe/seq_num_only_ref_finder.go:66-78 | one `Step` of the finder, for every order the sort may give frames with the same number; the invariant `Good` is kept |
| SeqNumReferences.SeqNumOnlyRefFinder.ClearTo | pkg/videoframe/seq_num_only_ref_finder.go:233-235 | older frames leave the stash and the invariant stays |
| SeqNumReferences.StepKeepsGood | pkg/videoframe/seq_num_only_ref_finder.go:80-155 | every call keeps: each emitted delta frame refers to the frame emitted just before it, which it follows without a gap; the stash is sorted and has at most 100 frames; after the first keyframe none of them is resolvable or begins before the last keyframe emitted |
| SeqNumReferences.RunIsGood | pkg/videoframe/seq_num_only_ref_finder.go:66-229 | the same over every run |
| SeqNumReferences.NothingLost | pkg/videoframe/seq_num_only_ref_finder.go:66-229 | in every run whose stash does not overflow, each frame that arrived was emitted or waits, as often as it arrived, unless a keyframe that begins after it was emitted |
| SeqNumReferences.Confluence | pkg/videoframe/seq_num_only_ref_finder.go:66-229 | a keyframe and up to 100 contiguous delta frames come out in the same order with the same IDs and references, whatever the order of arrival, and nothing stays stashed |
| Vp8References.VP8RefFinder.GetReferences | pkg/videoframe/vp8_ref_finder.go:217-272 | a reference the table allows, whatever the order of the map, and one exactly when there is one |
| Vp8References.VP8RefFinder.ClearOldState | pkg/videoframe/vp8_ref_finder.go:291-309 | entries more than ten groups old and stashed frames at least 100 picture IDs old are removed, nothing else |
| Vp8References.VP8RefFinder.TryResolveStashedFrames | pkg/videoframe/vp8_ref_finder.go:333-361 | it ends; the frames leave the stash one by one, each being the first that can refer to an emitted frame by then, and none can afterwards |
| Vp8References.VP8RefFinder.HandleKeyframe | pkg/videoframe/vp8_ref_finder.go:147-167 | the keyframe is emitted first and without references; what was stashed and is less than 100 picture IDs older is then emitted in turn or still stashed |
| Vp8References.VP8RefFinder.HandleDeltaFrame | pkg/videoframe/vp8_ref_finder.go:171-212 | emitted at once if and only if the emitted frames have one it can refer to (`CanRefer`), else stashed; every emitted frame refers to what its past says, and no frame that waits can |
| Vp8References.VP8RefFinder.FallbackManageFrame | pkg/videoframe/vp8_ref_finder.go:411-436 | a frame without full temporal information is handed on; a delta frame refers to the ID before its own, unchecked |
| Vp8References.VP8RefFinder.ManageFrame | pkg/videoframe/vp8_ref_finder.go:109-143 | a frame without full temporal information goes to the fallback and changes nothing else; otherwise the frame of the unwrapped counters is handled, or nothing happens when one is negative; it is handed on first if it is a base-layer keyframe or the emitted frames have one it can refer to, followed by the stashed frames that can in turn, and waits otherwise; in every run each emitted frame refers to what its past says, at most 100 frames wait, in order, and none of them can refer to an emitted frame |
| Vp8References.ReferencesEarlier | pkg/videoframe/vp8_ref_finder.go:217-272 | every emitted frame but a base-layer keyframe has exactly one reference, the ID of a frame emitted earlier in the same or a lower layer; a base-layer frame refers to the base layer of the group before its own |
| Vp8References.TableIff | pkg/videoframe/vp8_ref_finder.go:274-309 | the table holds exactly the standing frames: for each group and layer the last one emitted since a keyframe started the group over or ended it |
| Vp8References.MayReferIff | pkg/videoframe/vp8_ref_finder.go:217-272 | over the emitted frames alone: a base-layer frame refers to the standing base frame of the group before; one above it to the standing frame of its group in the highest lower layer that has one, only without one to its own layer there, and only then to some standing base-layer frame |
| Vp8References.JustifiedRefersProperly | pkg/videoframe/vp8_ref_finder.go:217-272 | every emitted frame has exactly that reference, and a base-layer keyframe none |
| Vp8References.ResolvableIff | pkg/videoframe/vp8_ref_finder.go:217-272 | whether a frame waits is decided by the emitted frames |
| Vp8References.TakenConserves | pkg/videoframe/vp8_ref_finder.go:333-361 | what is taken in turn leaves the stash, nothing else does, and it stays sorted |
| Vp8References.TableHoldsEmitted | pkg/videoframe/vp8_ref_finder.go:274-309 | every entry of the table is an emitted frame of that layer and group |
| Vp8References.EnhancementResolvable | pkg/videoframe/vp8_ref_finder.go:228-271 | after the first keyframe a frame above the base layer never has to wait |
| Vp8References.VP8RefFinder.OnlyBaseLayerWaits | pkg/videoframe/vp8_ref_finder.go:171-191 | after the first keyframe only base-layer frames are stashed |

## Left out

- Interceptor plumbing (chains, registries, stream binding, options, tickers, loggers, packet dump): wiring and I/O.
- RTP and RTCP marshalling: a media packet is its marshalled bytes, a chunk or delta is a value; so the 24-bit reference time of the wire is not modelled.
- Bandwidth estimation (`pkg/gcc`), NTP time, jitter and fraction lost: floating point and wall clock, with easy claims only.
- Mutexes and goroutines: each locked method is one atomic step.
- OnRFC8888Feedback of the feedback adapter: it looks up the modelled history.
- FeedbackAdapters.FeedbackAdapter.OnTransportCCFeedback: takes run lengths below 65536, which is the width of the field.
- FlexEncoder20 and the older third mask: marked as work in progress in the source.
- insertMediaPacket, insertFECPacket and the list of recovered packets in the FEC decoder: the code keeps references into a slice that it sorts afterwards; protected packets are held by value here, so aliasing and the limits of those lists are not captured.
- FlexFecDecoder.FecDecoder.AttemptRecovery: which bytes the RTP library accepts is a parameter, and an accepted packet is its bytes; a method must end, so a loop that never ends is a result `stalled` here.
- FlexFecCoverage.ProtectionCoverage.UpdateCoverage: does not model the 32-bit wrap of the index for numbers of FEC packets within 110 of 2^32.
- FlexFecEncoder.FlexEncoder03.EncodeFec: takes at most 110 FEC packets; for more the code indexes past its masks.
- ReceiveLogs.ReceiveLog.MissingSeqNumbers: takes a buffer of at least the ring length, as its caller makes it.
- RtpBuffers.RtpBuffer.Add: takes a packet to which the caller holds a reference; the packet factories and the pool are not modelled.
- StreamLogs.StreamLog.MetricsAfter: takes a cap that is not negative.
- StreamLogs.ArrivalTimeOffset: computes the age in exact arithmetic where the code rounds to floating point, and cuts a larger age to its low 16 bits, which the language leaves to the platform.
- Frames longer than half the video buffer: whether they are found depends on the order of arrival.
- Packets in the video buffer are held by value: that the caller's packet shows the continuous flag afterwards is not captured.
- Frames in the reference finders are values: the ID and references that the code writes into the frame are a result here.
- Vp8References.VP8RefFinder.ManageFrame: takes a temporal index of at least -1; for a smaller one the code indexes before its table. Frames of the fallback are not part of the dependency order.
- FrameIdOnlyRefFinder beyond its unwrapper, depacketizers and the frame assembler's payloads: only easy claims.
