# Ridedaemon: a verified model of the streaming and control paths

Ridedaemon is the phone side of the protocol an in-dash head unit speaks to a mirroring phone: an H.264
byte pipeline, a live frame source, a control channel (PXC) with requests answered by command + 1, and a
poll-driven video socket. This project models those parts in Dafny and proves what they promise.

Check everything with `dafny verify dfyconfig.toml`.

| file | models |
|---|---|
| `Bytes.dfy` | octets, fixed-width integers, sequence vocabulary |
| `AnnexB.dfy` | the two access-unit splitters; positions, agreement, chunk invariance |
| `NalScan.dfy` | the NAL type scan behind the IDR gate |
| `Avcc.dfy`, `RoundTrip.dfy` | the AVCC to Annex B builders; what the splitters and a reader make of their output |
| `LiveSource.dfy`, `LiveRuns.dfy`, `LiveAnswers.dfy` | the live ring buffer as a class and as a queue; its promises over every run; its answers in terms of pushes and clocks alone |
| `AuStreamer.dfy` | chunked input into the live source |
| `Replay.dfy`, `Mux.dfy` | the replayed clip; live or no-signal |
| `Pkcs1.dfy` | the legacy PKCS#1 v1.5 transport |
| `VideoSocket.dfy` | framing, chunked sending and the poll loop |
| `PxcFrames.dfy`, `PxcWriters.dfy` | the PXC wire format and frame loop; many writers on one socket |
| `PxcDispatch.dfy`, `PxcClaims.dfy` | command dispatch and its termination; the session's once-only claims |
| `Verdicts.dfy` | which connection failure is fatal |
| `Lifecycle.dfy` | accept loop, connection goroutines, Stop |

How it is put together. Every object the program updates in place is a class here (`LiveStreamSource`,
`AUStreamer`, `FileFrameSource`, `MuxSource`, `ConnTracker`, `PxcControl`, `FramingMode`), every index loop a
method with a loop, and each such method is proved equal to a function on values; the theorems are about
those functions. Concurrent behaviour is a transition system whose steps are the program's lock
acquisitions, single writes and channel operations; theorems about it quantify over every finite run. Times
are nanoseconds handed in where the program reads a clock, and the zero time is `None`. Bytes and 32-bit
fields are bounded integers, with truncation written out where the program truncates.

## What turned out not to hold, and exactly when it does

- The IDR scan resumes one byte past the NAL header, so a start code that begins on another one's zero header
  byte is passed over. `NalScan.ReportsExactly` says which are reported; `NalScan.AdjacentCodesHideAnIdr` is
  an input where an IDR is missed.
- Overflow can discard the IDR that opened the gate: `LiveRuns.OverflowCanLoseTheIdr`. Which frame does come
  first is `LiveRuns.FirstFrameAfterReset`.
- `BuildAnnexBAU` takes a first NAL length of 1, or of 256 to 511, for a start code. It still agrees with the AVCC
  builder when every NAL is one byte long, and otherwise not: `Avcc.AutoDetectAgreesExactly`.
- A header that fails the magic check ends a connection without any verdict, so the last connection can die
  without a fatal one: `Verdicts.MagicMismatchLeavesNoVerdict`. Exactly when there is one:
  `Verdicts.LastRemovalDecides` - from the last removal on, a fatal verdict is reached if and only if some
  connection has at that instant been retired by `fail` and waits for its verdict, or a failed write is judged
  later. `Verdicts.LastDeathIsFatal` is the case where `fail` makes that removal.
- Write exclusion on a PXC connection ends when its map entry is deleted, not when it is closed a moment later
  (hud/net/pxc.go:924-929): in between, a clock push of the grace timer can land inside an unfinished heartbeat
  (`PxcWriters.ReleaseEndsExclusion`). Exactly when exclusion survives: `PxcWriters.ReleaseKeepsFramingExactly` - whatever happens after the release stays readable
  if and only if the release finds the socket failed or no call with anything left to write.
- `CloseAll` misses a connection that has been accepted and has not added itself to the tracker yet
  (`Lifecycle.CloseAllCanMissAConnection`), and one a failure has taken out of it. Exactly those:
  `Lifecycle.OpenAfterCloseAllExactly` - at any later time the open sockets are the ones it did not find in the
  tracker and whose goroutine has not returned; `Lifecycle.CloseAllCompleteExactly` - it closes everything for
  good if and only if every open socket is in the tracker when it runs.
- The splitter undoes the builder only if no NAL of a sample is itself a delimiter:
  `RoundTrip.SplitUndoesBuildExactly`.
- `LegacyPublicDecryptPKCS1v15` does not return an error for every malformed input: under a modulus of one byte
  or none it can index past its block. `Pkcs1.ReturnsExactly` says on which calls it returns.

Where the code and its comments differ, the model follows the code: the comment above
`LegacyPrivateEncryptPKCS1v15` (hud/net/crypto.go:46-52) says block type 2, the code writes block type 1.

## Model

| member | source | states |
|---|---|---|
| AnnexB.SplitByAudAnnexB | hud/stream/frame_sources.go:30-86 | Returns the stream cut at exactly the declared delimiter positions; the empty list stands for nil. |
| AnnexB.ScanEveryByte | hud/stream/frame_sources.go:34-63 | The skipping scan finds every declared delimiter, in increasing order, and no other. |
| AnnexB.ExtractAusFromStream | hud/stream/frame_sources.go:433-497 | All access units closed by a later delimiter, and the bytes from the last delimiter on; everything if there is none. |
| AnnexB.ScanWithRoom | hud/stream/frame_sources.go:440-470 | The second scan, with its other loop bound, finds the same positions. |
| AnnexB.CompleteAus | hud/stream/frame_sources.go:481-491 | Every delimiter but the last closes one access unit. |
| AnnexB.SplitPartitions | hud/stream/frame_sources.go:65-85 | The positions are increasing and are exactly the declared ones; the pieces concatenate back to the stream from the first delimiter on; no piece exactly when there is no delimiter. |
| AnnexB.PieceHoldsOneDelimiter | hud/stream/frame_sources.go:65-85 | Every piece begins with a delimiter and has no other one inside. |
| AnnexB.DelimitersExactly | hud/stream/frame_sources.go:34-63 | One delimiter for every 00 00 01 followed by a type 9 header, at the zero byte in front of it if there is one, and no others. |
| AnnexB.TypeOfHeader | hud/stream/frame_sources.go:56-56 | The type is the last five bits of the header, whatever the forbidden bit and the reference idc. |
| AnnexB.SkipStartCode | hud/stream/frame_sources.go:50-59 | Jumping over a start code passes no delimiter. |
| AnnexB.SplittersAgree | hud/stream/frame_sources.go:427-497 | The file splitter gives the stream splitter's units followed by its remainder whenever a delimiter exists, and nothing exactly when none does. |
| AnnexB.ExtractResumes | hud/stream/frame_sources.go:505-509 | Extracting from leftover plus new bytes continues one extraction over all bytes, wherever the cut falls. |
| AnnexB.ChunkInvariance | hud/stream/au_stream.go:12-25 | For every stream and every cutting into chunks, units and final leftover are those of one extraction over the whole stream. |
| NalScan.HasAnnexBNALType | hud/stream/frame_sources.go:361-381 | Reports a type exactly when one of the start codes the scan stops at has it. |
| NalScan.ReportsExactly | hud/stream/frame_sources.go:361-381 | Sound on every input; complete exactly for start codes with an even number of codes chained directly in front. |
| NalScan.CompleteWithoutZeroHeaders | hud/stream/frame_sources.go:361-381 | Sound and complete on every input where no start code is followed by a zero header byte. |
| NalScan.AdjacentCodesHideAnIdr | hud/stream/frame_sources.go:374-379 | A seven-byte input whose IDR is missed. |
| Avcc.BuildAnnexBAUFromAVCC | hud/api/mobile.go:28-61 | The delimiter and the sample's NALs behind four-byte start codes, or the error of the first check that fails. |
| Avcc.BuildSucceedsExactly | hud/api/mobile.go:37-60 | Succeeds exactly on concatenations of one or more non-empty length-prefixed NALs; the decomposition is unique and is what is printed. |
| Avcc.BuildAnnexBAU | hud/api/mobile.go:63-80 | Input with a start code in front is kept behind a delimiter, any other is read as AVCC. |
| Avcc.RefusedExactly | hud/api/mobile.go:28-60 | Too short below four bytes; a bad length, or one to three stray bytes, behind whole NALs give the other two errors. |
| Avcc.ByteStreamKept | hud/api/mobile.go:63-79 | A sample that begins with a start code of either length is passed on untouched behind 00 00 00 01 09 F0; any other is read as AVCC. |
| Avcc.FormatsAgree | hud/api/mobile.go:63-80 | The same NALs, printed as a byte stream or as AVCC, give the same access unit. |
| Avcc.AutoDetectAgreesExactly | hud/api/mobile.go:68-79 | On AVCC samples the two builders agree exactly when the first length is not 1 or 256 to 511, or every NAL is one byte long. |
| RoundTrip.CodeAt | hud/api/mobile.go:51-52 | The printed stream has start codes before its NALs and nowhere else, trailing zeros included. |
| RoundTrip.DelimitersPrinted | hud/api/mobile.go:35-37 | Its delimiters are exactly the start codes of its type 9 NALs. |
| RoundTrip.SplitUndoesBuild | hud/stream/frame_sources.go:30-86 | Splitting the concatenation of printed access units gives those units back. |
| RoundTrip.SplitUndoesBuildExactly | hud/stream/frame_sources.go:30-86 | For NALs without start codes, the units come back exactly when no sample holds a type 9 NAL. |
| RoundTrip.BuildThenSplit | hud/api/mobile.go:28-61 | The same from AVCC samples whose NALs hold no start code and no type 9 NAL. |
| RoundTrip.GateAgreesWithSample | hud/stream/frame_sources.go:299-304 | On printed access units the IDR gate opens exactly when some NAL of the sample has type 5. |
| RoundTrip.AccessUnitReadsBack | hud/api/mobile.go:33-53 | Under the NAL syntax of section 7.4.1 of ITU-T H.264 a reader of the byte stream gets the delimiter and the original NALs. |
| LiveSource.LiveStreamSource.constructor | hud/stream/frame_sources.go:250-271 | The defaults, an empty queue, the IDR gate armed. |
| LiveSource.LiveStreamSource.SetOpaquePayloads | hud/stream/frame_sources.go:277-284 | Pass-through mode disarms the gate. |
| LiveSource.LiveStreamSource.PushFrame | hud/stream/frame_sources.go:288-318 | The ring does what the gated drop-oldest queue does. |
| LiveSource.LiveStreamSource.Enqueue | hud/stream/frame_sources.go:306-317 | The live window loses its oldest frame if full, then gains the new one. |
| LiveSource.LiveStreamSource.RemoveHead | hud/stream/frame_sources.go:406-409 | Pops the oldest frame of the live window. |
| LiveSource.LiveStreamSource.PrepareForConsumer | hud/stream/frame_sources.go:321-334 | Empties the queue, forgets the last frame, re-arms the gate; the source stays active. |
| LiveSource.LiveStreamSource.IsActive | hud/stream/frame_sources.go:336-349 | Reports activity and resets on timeout. |
| LiveSource.LiveStreamSource.ResetLocked | hud/stream/frame_sources.go:351-359 | The timeout reset, old frames left behind in the slots. |
| LiveSource.LiveStreamSource.NextFrame | hud/stream/frame_sources.go:392-425 | Pops in order, repeats only what is safe to repeat, resets on timeout. |
| LiveRuns.RunKeepsInvariant | hud/stream/frame_sources.go:288-425 | The invariant of every run: what is queued, what was accepted since the last reset, what opened the gate. |
| LiveRuns.RingIsDropOldestQueue | hud/stream/frame_sources.go:306-317 | The window is the last frames accepted since the last reset, in push order; each accepted frame is exactly one of handed out, lost to overflow, queued. |
| LiveRuns.FirstInFirstOut | hud/stream/frame_sources.go:405-413 | New frames come out in push order over the whole run, oldest first. |
| LiveRuns.DecodeSafety | hud/stream/frame_sources.go:299-304 | In H.264 mode every frame handed out was accepted with no reset since, and an IDR was accepted at or before it since the last reset. |
| LiveRuns.NothingSurvivesReset | hud/stream/frame_sources.go:320-334 | Nothing pushed before a timeout seen or a consumer reset is handed out afterwards. |
| LiveRuns.PredictedFrameShownOnce | hud/stream/frame_sources.go:415-424 | A push handed out twice carries an IDR. |
| LiveRuns.FirstFrameAfterReset | hud/stream/frame_sources.go:306-311 | The first frame out is accepted frame number max(0, n - capacity); with no overflow that is the IDR that opened the gate. |
| LiveRuns.OverflowCanLoseTheIdr | hud/stream/frame_sources.go:306-311 | A run whose first frame out is a predicted one. |
| LiveRuns.ActiveExactly | hud/stream/frame_sources.go:336-349 | For monotone clocks, active exactly when something was pushed no longer than the timeout ago. |
| LiveAnswers.PollExactly | hud/stream/frame_sources.go:392-425 | For monotone clocks every poll answers exactly: nothing without recent input; else the oldest accepted frame not yet handed out or lost; else the last one again, if payloads are opaque or it carries an IDR; else nothing. |
| LiveAnswers.AdmittedExactly | hud/stream/frame_sources.go:299-304 | A frame is let in exactly when payloads are opaque, or it or an earlier push since everything was last forgotten carries an IDR. |
| LiveAnswers.ForgottenExactly | hud/stream/frame_sources.go:320-359 | Everything is thrown away exactly when a consumer attaches or a poll or probe finds no push within the timeout. |
| LiveAnswers.NothingForgottenComesBack | hud/stream/frame_sources.go:320-359 | What was pushed before such a moment is never handed out at it or after it. |
| AuStreamer.AUStreamer.PushChunk | hud/stream/au_stream.go:12-25 | After any chunks, the source has been pushed the units of one extraction over all bytes, and the rest is kept. |
| AuStreamer.FeedStreamToLiveSource | hud/stream/frame_sources.go:500-524 | The source is pushed the units of everything read until the first error; end of file is not one. |
| AuStreamer.TakenIs | hud/stream/frame_sources.go:506-522 | The reads taken are those up to and including the first that fails. |
| AuStreamer.EndingIs | hud/stream/frame_sources.go:516-521 | The loop ends with the error of that read. |
| Replay.FileFrameSource.NextFrame | hud/stream/frame_sources.go:156-195 | One step of the replayed clip. |
| Replay.StartsWithStreamHeader | hud/stream/frame_sources.go:88-98 | Whether the header is a prefix. |
| Replay.WithHeader | hud/stream/frame_sources.go:180-183 | The result starts with the header and ends with the frame; a frame that has the header is left alone. |
| Replay.NewRawFrameSource | hud/stream/frame_sources.go:201-223 | Refused exactly when the data holds no delimiter. |
| Replay.ReplayCadence | hud/stream/frame_sources.go:156-195 | For any poll times: cyclic order, header ensured on the first frame only, k - j intervals between frames j and k. |
| Replay.ShownWhenDue | hud/stream/frame_sources.go:167-174 | A poll shows a frame exactly when none was shown yet or the interval has passed. |
| Replay.PaceExactly | hud/stream/frame_sources.go:156-174 | For a clip of n frames a second, 15 by default, a frame is due exactly after the whole nanoseconds of one n-th of a second. |
| Replay.ReplayRateBounded | hud/stream/frame_sources.go:171-173 | A window of length w sees at most w / interval + 1 frames. |
| Mux.MuxSource.NextFrame | hud/stream/frame_sources.go:532-551 | Stopped, live, clip or nothing as the choice function says; the one chosen is polled, the other one not advanced. |
| Mux.ServedExactly | hud/stream/frame_sources.go:532-551 | Over whole runs with monotone clocks: live exactly when something was pushed within the timeout, otherwise the clip if there is one, otherwise nothing; stopped exactly after the stop. |
| Mux.ServedWithoutLive | hud/stream/frame_sources.go:536-550 | Without a live source the clip is served, or nothing. |
| Mux.MuxSource.PrepareLiveConsumer | hud/stream/frame_sources.go:557-561 | Resets the live source only. |
| Mux.ProbeThenPoll | hud/stream/frame_sources.go:538-543 | Whatever comes between the mux's probe and its poll - pushes, resets, other connections' polls and probes - the poll sees no timeout, and only a poll or probe with a later clock can have deactivated the source. |
| Pkcs1.LegacyPrivateEncryptPKCS1v15 | hud/net/crypto.go:53-92 | The block is built, exponentiated and padded as specified, or the message refused. |
| Pkcs1.LegacyPublicDecryptPKCS1v15 | hud/net/crypto.go:94-149 | The recovered block is stripped as specified, or refused with the first check that fails. |
| Pkcs1.ReturnsExactly | hud/net/crypto.go:95-125 | Decryption returns, with a message or an error, for every modulus of two bytes or more; exactly which calls under a smaller one do. |
| Pkcs1.BlockBelowModulus | hud/net/crypto.go:61-81 | The padded block is below every modulus that has room for it. |
| Pkcs1.DecryptUndoesEncrypt | hud/net/crypto.go:53-149 | If D then E is the identity below N, decrypting an encryption returns every message of up to k - 11 bytes; longer ones are refused as too long; the second length check never fires. |
| Pkcs1.EncryptedBlock | hud/net/crypto.go:61-80 | What opening an encryption recovers, byte by byte: 00 01, FF up to the separator, 00, the message. |
| Pkcs1.ModExpExactly | hud/net/crypto.go:79-79 | Exponents add up and multiply as residues; exponents 0 and 1 give 1 and the base. |
| Pkcs1.RefusedExactly | hud/net/crypto.go:96-145 | Which error refuses a ciphertext: the first check its recovered block fails. |
| Pkcs1.LeadingZerosDoNotMatter | hud/net/crypto.go:102-107 | Dropping leading zero bytes of a ciphertext changes nothing. |
| Pkcs1.DecryptExactly | hud/net/crypto.go:121-148 | Decryption succeeds exactly on 00, type 1 or 2, eight or more non-zero bytes, 00, message. |
| Pkcs1.ByteLenExact | hud/net/crypto.go:54-54 | A modulus of k bytes lies between 256^(k-1) and 256^k. |
| VideoSocket.BuildFramedPacket | hud/net/stream_dta.go:63-87 | Length, optional index, access unit; the length field truncated to 32 bits. |
| VideoSocket.LengthFieldExactly | hud/net/stream_dta.go:66-73 | The length field tells how much follows exactly when that fits in 32 bits. |
| VideoSocket.SendChunked | hud/net/stream_dta.go:89-119 | The pieces concatenate to the frame and are no longer than the chunk size; a failure leaves a proper prefix. |
| VideoSocket.HandleConn | hud/net/stream_dta.go:320-397 | Exactly one reply per complete header, in order; a failed write ends the loop inside one reply. |
| VideoSocket.ProgressIs | hud/net/stream_dta.go:320-397 | The bytes after n headers are the n replies, whole. |
| VideoSocket.AnsweredExactly | hud/net/stream_dta.go:331-388 | A header gets an access unit exactly when it is a poll and the source has one for that poll, and then that one; everything else gets idle. |
| VideoSocket.IndexCountsUnits | hud/net/stream_dta.go:388-389 | The n-th access unit of a connection carries index n mod 2^31. |
| VideoSocket.RepliesReadBack | hud/net/stream_dta.go:49-62 | Replies are self-delimiting: a reader that knows the framing mode recovers the exact sequence and stops behind it. |
| VideoSocket.WrittenReadsBack | hud/net/stream_dta.go:320-397 | What the poll loop has written, whole or cut, reads back as what the headers were answered, when every frame of the source fits the length field. |
| VideoSocket.FramingMode.NegotiatedExtendedProtocol | hud/net/stream_dta.go:170-183 | The mode moves only while the host allows it. |
| PxcFrames.ReadLoop | hud/net/pxc.go:945-987 | The frame loop over all bytes of a connection: messages, and the way it leaves. |
| PxcFrames.FrameLayout | hud/net/pxc.go:626-654 | The parts of one write add up to command, size, size xor command, zero, body. |
| PxcFrames.WrittenHeader | hud/net/pxc.go:584-595 | A written header decodes to what was written and passes the magic check. |
| PxcFrames.XorIsBitwise | hud/net/pxc.go:633-633 | The function both sides use is exclusive or, binary digit by binary digit. |
| PxcFrames.WrittenMagic | hud/net/pxc.go:626-646 | In a written frame bytes 0 to 3 spell the command and 4 to 7 the size, lowest first, and every digit of bytes 8 to 11 is the sum of theirs modulo 2. |
| PxcFrames.MagicOkExactly | hud/net/pxc.go:966-966 | A header passes exactly when its magic is that exclusive or. |
| PxcFrames.HeaderBytes | hud/net/pxc.go:584-595 | Each header field is four bytes, lowest first. |
| PxcFrames.ShortSizes | hud/net/pxc.go:972-983 | Size 0 is a frame without payload; sizes 1 to 15 wrap around and make the loop wait for almost 2^32 bytes. |
| PxcFrames.ReaderRecovers | hud/net/pxc.go:945-987 | Whole frames and any proper prefix of one more read back as exactly the messages, with no magic mismatch. |
| PxcWriters.WritersNeverMix | hud/net/pxc.go:621-662 | Until release, in every interleaving and with any write failing, the wire is whole frames and at most one proper prefix; the reader recovers the completed messages in order. |
| PxcWriters.StepKeepsWire | hud/net/pxc.go:621-662 | Every single step keeps that. |
| PxcWriters.AnyPrefixCanBeLeft | hud/net/pxc.go:621-662 | Every proper prefix of every frame is what some run leaves when a write fails. |
| PxcWriters.ReleaseKeepsFramingExactly | hud/net/pxc.go:482-489 | Every continuation after the release stays readable exactly when the release finds the socket failed or no call in flight; otherwise a late clock or app-status push of any body can be written so that the peer misreads. |
| PxcWriters.ReleaseEndsExclusion | hud/net/pxc.go:449-450 | The grace timer's clock push, of any even length, lands inside an unfinished heartbeat: no message is read and the magic check fails. |
| PxcDispatch.PxcControl.HandleEvent | hud/net/pxc.go:700-883 | The switch does what the dispatch function says, for every command and every failing write. |
| PxcDispatch.PxcControl.SendAppStatus | hud/net/appstatus.go:156-196 | Claims a mode at most once, before writing, and never a background mode in live-only mode. |
| PxcDispatch.PxcControl.MaybeScheduleProactiveQueryTime | hud/net/pxc.go:408-420 | Starts the grace timer only for an unset clock, with sync not skipped and the dash not known to ask. |
| PxcDispatch.PxcControl.ClaimUnsolicited | hud/net/pxc.go:434-442 | The timer's claim succeeds only if no question was noted, and notes one. |
| PxcDispatch.AnswersWeighLess | hud/net/pxc.go:858-881 | Odd commands are never answered; even ones are answered first by command + 1, exactly when the write goes through and, for HUD_CONFIG, it is the first usable one; all answers weigh less than the question. |
| PxcDispatch.SessionEffects | hud/net/pxc.go:720-753 | Exactly what one event changes: the first HUD_CONFIG that parses is kept; behind a phone configuration the grace timer starts if the clock is unset and pushing is not ruled out, and the background mode is claimed and written unless only the live one is spoken of. |
| PxcDispatch.SessionOfARun | hud/net/pxc.go:700-883 | Over any events: configured by the first HUD_CONFIG that parses and no other; a question noted exactly if one came; the timer started, and the background mode claimed, exactly if the configuring event and the settings ask for it. |
| PxcDispatch.WritesOfARun | hud/net/pxc.go:720-753 | Over any events the phone configuration is written exactly once if something configures the session, and the app status behind it exactly once if the mode was free and a connection open. |
| PxcDispatch.DeliveryLosesEnergy | hud/net/pxc.go:700-883 | Every delivery strictly lowers the weight in flight. |
| PxcDispatch.PeersFallSilent | hud/net/pxc.go:872-880 | Two peers answering each other: every run ends within the initial weight, and only in silence. |
| PxcClaims.ClaimsAreOnce | hud/net/pxc.go:408-459 | In every interleaving: one answer per question, at most one unsolicited copy, claimed before any question and only for an unset clock; each mode once. |
| PxcClaims.NotedMeansNoClaim | hud/net/pxc.go:835-842 | Once a question is noted, no unsolicited copy is claimed. |
| PxcClaims.TimerClaimsExactly | hud/net/pxc.go:434-442 | The unsolicited copy is claimed exactly when the timer fires before any question is noted. |
| PxcClaims.TimerStartsExactly | hud/net/pxc.go:408-420 | The timer is started exactly when a handler asks for it while the last dash clock stored is unset and pushing is not ruled out. |
| PxcClaims.ModesClaimedExactly | hud/net/appstatus.go:157-167 | A mode is claimed exactly when somebody calls for it while it may be spoken of. |
| PxcClaims.EveryClaimIsSent | hud/net/pxc.go:835-857 | With all writes going through and all calls finished, exactly one answer per question, one unsolicited copy exactly if claimed, each claimed mode sent. |
| PxcClaims.HandleIsARun | hud/net/pxc.go:700-883 | One uninterrupted handleEvent call is a run of the interleaved steps: same session, nothing left in progress, the same clock answers and statuses sent. |
| PxcClaims.StatusStep | hud/net/appstatus.go:157-167 | The test-and-set keeps each mode with one caller. |
| Verdicts.ConnTracker.Add | hud/net/tcp_tracker.go:19-23 | Adds a connection. |
| Verdicts.ConnTracker.Remove | hud/net/tcp_tracker.go:25-29 | Removes it; again is harmless. |
| Verdicts.ConnTracker.Others | hud/net/tcp_tracker.go:36-47 | Counts the tracked connections other than the one given. |
| Verdicts.ConnectionError | hud/net/pxc.go:535-554 | Fatal exactly when nobody else is tracked, otherwise a notice with the count. |
| Verdicts.Fail | hud/net/pxc.go:938-941 | Retires before judging: fatal exactly when nothing but this connection was tracked. |
| Verdicts.TrackingKept | hud/net/stream_dta.go:277-306 | Tracked are exactly the connections not removed yet. |
| Verdicts.FatalOnlyWhenAlone | hud/net/stream_dta.go:232-242 | In every interleaving a verdict is fatal exactly when every other connection ever opened has been removed by then. |
| Verdicts.RecordedExactly | hud/net/pxc.go:535-554 | Each judging step of a run records one verdict, on its own connection: fatal exactly when every other connection opened so far has been removed, otherwise with the number still served; no other step records one. |
| Verdicts.EachJudgedOnce | hud/net/pxc.go:938-941 | A connection is judged by fail at most once. |
| Verdicts.StoppingJudgesNobodyNew | hud/net/stream_dta.go:300-306 | Once the listener is stopping, a connection still being served is neither retired nor judged by fail. |
| Verdicts.LastRemovalDecides | hud/net/pxc.go:933-941 | From the last removal on a fatal verdict is reached exactly when some connection is retired and not yet judged at that instant, or a failed write is judged later; every connection waiting then gets a fatal one. |
| Verdicts.LastDeathIsFatal | hud/net/pxc.go:933-941 | In every interleaving where all connections end, the last removal is made by fail and nobody connects after it, that connection's verdict is fatal. |
| Verdicts.MagicMismatchLeavesNoVerdict | hud/net/pxc.go:966-969 | A run that ends with no connection and no verdict. |
| Lifecycle.ErrorsClosedLast | hud/net/stream_dta.go:412-448 | The WaitGroup counts the goroutines still out; Errors is closed only when none is left; nobody sends on it closed. |
| Lifecycle.StopFinishesExactly | hud/net/stream_dta.go:429-447 | The wait ends exactly when accept loop and all connection goroutines have returned. |
| Lifecycle.StopCanFinish | hud/net/stream_dta.go:424-447 | From every state in which Stop waits, the accept loop and the connections can come to their end and Errors be closed. |
| Lifecycle.NothingAfterErrorsClosed | hud/net/stream_dta.go:441-446 | Once Errors is closed no step is possible. |
| Lifecycle.GaveUpForGood | hud/net/stream_dta.go:437-440 | Once the context has run out, Errors stays open. |
| Lifecycle.CloseAllCanMissAConnection | hud/net/stream_dta.go:277-283 | A run where a connection is served on, its socket open, after CloseAll. |
| Lifecycle.OpenAfterCloseAllExactly | hud/net/stream_dta.go:424-424 | In every run, at any time after CloseAll the open sockets are exactly those it did not find tracked and whose goroutine has not returned. |
| Lifecycle.CloseAllCompleteExactly | hud/net/stream_dta.go:424-424 | CloseAll closes everything for good exactly when every open socket is tracked when it runs. |

## Left out

- Sockets, listeners, deadlines, buffered readers and writers and mDNS discovery: a connection is a byte sequence; a write goes out whole or fails after a prefix, and each Write followed by Flush is one write.
- JSON, RSA key generation, DER and base64: bodies are opaque bytes, and what parsing one gives is an input. Exponentiation is `Pow` modulo N; that a key pair inverts itself is a hypothesis.
- Delivery on the `Events` and `Errors` channels: sends are dropped when nobody listens, so verdicts and written bytes are stated, not receipt.
- Go's 64-bit int, the saturation of `time.Time.Sub` at 292 years, and clock readings equal to the zero time: integers are unbounded and the zero time is a separate value.
- `interval` and `lastAdvance` of the live source: written and never read by it.
- Copying of buffers: frames are values, so that callers may reuse their buffers is not stated.
- `SetOpaquePayloads` in the middle of a run: the mode is fixed when a run starts, as the code asks.
- AuStreamer.AUStreamer.PushChunk: the clock is a function from push number to time, in place of one reading per push.
- VideoSocket.HandleConn: what each poll gets from the frame source and which mode is in force are listed up front; pull reports, the pause between chunks, the errors a failing frame source emits and the verdict on the read or write that ends the loop are not part of its contract.
- PxcDispatch.PxcControl.HandleEvent: says which commands are written and what becomes of the session; reply bodies, emitted events and errors, channel naming and heartbeat starts are not modelled.
- Pkcs1.LegacyPublicDecryptPKCS1v15: leaves out exactly the calls on which the code indexes past its block (`Pkcs1.ReturnsExactly`); exponents are not negative.
- The page probe and heartbeat timing: to the wire they are further writers of `PxcWriters`.
- Lifecycle.ErrorsClosedLast: for one Stop, on the listener whose only goroutines are the accept loop and the connections; the heartbeat and timer goroutines of the PXC listener, and status calls made by the host, are outside it.
- Acknowledgement termination on the media control channel: its default branch answers odd commands too.
- `buildMediaCaptureAckPayload`, clock text, the EC init header, the app-status geometry and the text of the notices: one-branch or fixed-layout facts.
- `CfmotoHUD`, `MobileSession`, the ffmpeg capture, logging and the desktop command: glue and user interface.
