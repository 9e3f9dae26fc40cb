# Byte-to-action model of the printer library

The library prints over a byte stream that the printer drives: the printer asks, the host
answers. Between the two sit a length-prefixed frame codec, a print session, a job that
settles once, an ADB tunnel over USB bulk transfers, and a separate BLE framing. This project
models that path and proves what it keeps over whole runs.

How the modules follow the source:

- `Bytes` holds JavaScript's 32-bit conversions (`>>> 0`, `| 0`, `& 0xff`) as arithmetic on
  unbounded integers, and the two word layouts.
- `Incremental` is the loop both decoders share (append, decode from the front, keep the rest),
  for any one-message decoder that satisfies `Framing`. Chunking invariance is proved there once.
- `Frames` is the stream framing. `Session` (with `Status`) is the print session; `SessionRuns`
  is what it keeps over every frame sequence. `Answers` says which frames are answered, how, and
  what state they leave, by the bytes of the frame alone.
- `Transfer` steps host session, printer and the two byte streams between them in any order and
  with any chunking. `Pull` adds a printer that always asks for its next missing byte.
- `Jobs` is the job around a session as an event machine (bytes, write completed, write failed,
  timer, close); `JobWrites` is what a job writes as a function of the bytes it received, and
  `JobEndings` when and how it ends as a function of its events.
- `AdbMessages` is the ADB codec, `AdbHosts` the multiplexed host. Every wait of an asynchronous
  send is a point where anything else may happen: a header goes out at once, its payload when the
  header has landed, and what waited for the message goes on when that has landed. `AdbLinks` (the
  order of link writes and what the far end decodes), `AdbWrites` (cutting one payload under a
  moving limit), `AdbOrder` and `AdbPlaces` (several writes at once on one stream), `AdbAcks`
  (acknowledgements), `AdbStreams` (ids and events) and `AdbClosing` state what it keeps over every
  run; `AdbRecords` and `AdbControls` tell the records of the streams, the state of the connection
  and the host's own requests from the inputs of a run; `AdbDiscipline` says how a caller keeps its writes apart, `AdbDriver` is one that does.
- `UsbReader` is the bulk-IN read loop over a script of transfer outcomes; `UsbRuns` is what it
  keeps over every script, and `UsbScripts` which scripts it survives.
- `Tunnel` composes the layers: which runs carry a print stream across the link intact, and the
  way back. `Overlaps` shows runs that do not, among them those a print job makes by itself.
- `Ble` is the offset-addressed BLE framing and `Jpeg` the marker walk.

Code that changes state is a class or a method with the source's loops (`PrintSession`,
`FrameDecoder`, `PrintJob`, `AdbMessageDecoder`, `AdbHost`, `UsbLoop`, the encoders, the
splitting generator, the marker walk), and each is proved against a specification function
(`Session.Handle`, `Jobs.Step`, `AdbHosts.Step`, `UsbReader.Step`, `Ble.SplitFrom`,
`Jpeg.Walk`, `Incremental.ParseAll`). The theorems are about runs of those functions. What the
functions themselves answer is told again from the other side, by literal bytes and by the events
of a run (`Answers`, `JobEndings`, `AdbRecords`, `AdbControls`, `UsbScripts`, and the layouts).

Run `dafny verify dfyconfig.toml` to check everything.

## Results that are not plain successes

Where a property one would expect does not hold of the code, the exact condition under which it
holds is proved, or the failing family is exhibited:

- A frame length with its sign bit set is read as zero. A frame round-trips if and only if its
  payload is shorter than 2^31, and re-encoding a parsed stream gives the stream back if and only
  if no header in it was read as negative (`FrameRoundTrip`, `ReencodeIsIdentity`).
- The ADB decoder drops the checksum and the magic it reads. Re-encoding a decoded message gives
  its bytes back if and only if both were right (`ReencodesIffChecksOut`). A checksum is the
  plain byte sum for every payload of up to 16843009 bytes; for any longer one of 0xff bytes it is
  not (`ChecksumIsPlainSum`).
- Sends are not serialised. The link carries each message whole, in order, if and only if nothing
  was sent while a payload was due and none is due at the end (`WholeIffPatient`); and, provided no
  payload starts like the header of the next message, exactly then does the far end decode the
  messages sent (`LinkDecodesIffPatient`). A payload that is the next header can hide the cut
  (`CutLinkCanDecode`).
- Writes are not serialised either. After a run in which the writes to a stream are over, it has
  carried their payloads once each and in the order the writes began if and only if no slice of one
  fell between two slices of another and the payload limit held during each write
  (`InOrderIffSerial`). In terms of the calls: if and only if, whenever a write that is not empty
  began, no earlier write to the stream still needed a slice, and the limit held
  (`InOrderIffTurns`). A caller that awaits each write before the next is on the safe side
  (`AwaitingIsSerial`), and if no CNXN moves the limit during a write everything arrives in order
  (`AwaitingCarriesInOrder`).
- A print job does not wait for its writes. A data request and a heartbeat in one chunk make it call
  `write` twice at once (`OneChunkTwoWrites`). That puts a header where a payload should be, for
  good (`OverlappingWritesBreakTheLink`). If instead the second write begins between two slices of
  the first, the link stays whole but the stream does not (`SlicesInterleave`), and the printer
  reads the heartbeat as part of the image data (`HeartbeatInsideData`, for every limit of at least
  8 bytes and every data frame of two slices). Awaited, the same buffers cross intact (`JobCanCross`).
- `AdbHost.write` reads the payload limit once to slice and again to advance. With `m` slices needed
  at the limit it began with, it sends its payload exactly once if and only if the limit was the
  same when each of the first `m - 1` slices was out, and when the last was out it still reached
  the end (`TilesIffLimitHeld`). A CNXN that raises the limit while the first slice is under way
  makes it step over the bytes between the old limit and the new, whatever happens before and
  after (`CnxnSkipsBytes`), or end with only its first slice sent (`CnxnEndsAWriteEarly`). A limit
  of zero makes it send empty slices for ever (`ZeroLimitNeverEnds`).
- A device-opened stream may be announced after it was reported closed. It is, if and only if its
  accept was outstanding when it left the table and lands afterwards (`LateStreamEvent`,
  `LateStreamEventHappens`).
- `close` works on a list of streams made when it is called. When it has run to its end each of
  those has ended, once. With no stream opened since, the table is empty whatever else happened; in
  general it is empty if and only if each stream opened since has ended (`CloseLeavesOnlyNewcomers`).
  A run that leaves one is in `CloseLeavesAStream`.
- A stall in the middle of a message loses the bytes taken of it. While the read loop runs, no
  byte is lost if and only if no stall struck there (`BytesConserved`). An idle report between a
  header and its payload delivers the bare header; chunks are whole messages if and only if that
  never happened (`ChunksAreWholeMessages`), and the decoder behind it copes either way
  (`DecoderSeesTheBytes`).
- BLE payloads slightly longer than 2^24 - 1 bytes can be split into data frames although their
  length cannot be announced (`SplittableButNotAnnounceable`).
- T.81 (section B.1.1.2) lets any marker be preceded by 0xff fill bytes. `readJpegSize` does not
  know them: from one before the frame header it goes on as far behind it as the marker and the
  first length byte say (`FillByteMisleads`). With no more than 0xc000 bytes left it finds no
  geometry (`FillByteHidesFrame`); in a longer file it may read another size
  (`FillByteReadsOtherSize`). Exactly which files read as a size is `ReadsExactlyTheLayouts`.

## Model

| member | source | states |
|---|---|---|
| Frames.WriteUint32BE | src/protocol/frame.ts:168-173 | stores the four big-endian bytes of the value modulo 2^32, drops stores that fall outside the target, leaves every other byte alone |
| Frames.EncodeFrame | src/protocol/frame.ts:52-79 | header fields masked to bytes, big-endian length, payload; refuses exactly the payloads of 2^32 bytes or more |
| Frames.FrameLayout | src/protocol/frame.ts:52-79 | which byte of an encoded frame is what, the fifth counting 2^24 of the length |
| Frames.PayloadLengthRead | src/protocol/frame.ts:82-96 | the length read packs back into its four bytes unless the sign bit is set, and is zero then |
| Frames.DecodeFrameIsFraming | src/protocol/frame.ts:104-124 | a complete decode uses at least the header, never more than was given, and is unchanged by bytes appended |
| Frames.FrameRoundTrip | src/protocol/frame.ts:52-124 | encode then decode returns the frame and its size whatever follows, if and only if the payload is shorter than 2^31; a longer one decodes as an empty frame of exactly 8 bytes |
| Frames.ReencodeIsIdentity | src/protocol/frame.ts:52-124 | for every byte string, re-encoding all decoded frames and appending the pending tail reproduces it if and only if no header was read as negative |
| Frames.FrameDecoder.Push | src/protocol/frame.ts:136-154 | returns the frames of the buffer with the chunk appended, in order, and keeps the unparsed tail, which does not itself decode |
| Frames.DecoderRefinesParsing | src/protocol/frame.ts:132-154 | for every way of cutting a stream into chunks the concatenated results are the frames of the whole stream, the buffer is its unparsed tail, and each frame used at least 8 bytes |
| Incremental.ParseAppend | src/protocol/frame.ts:136-154 | parsing a stream in two instalments, the rest of the first carried into the second, is parsing it at once |
| Incremental.FeedIsParseAll | src/protocol/frame.ts:132-154 | a decoder fed any list of chunks returns the messages, and keeps the rest, of their concatenation |
| Incremental.RestIsUnparsedTail | src/protocol/frame.ts:144-153 | what is left over is a suffix of the input that does not decode, and each message took at least a header |
| Status.ParseStatus | src/protocol/status.ts:99-135 | the status kind is an error exactly on a fault or on a status code above 6 |
| Status.StatusOfEveryFrame | src/protocol/status.ts:80-135 | the pairs of first and third argument that are faults, the kind for each first argument, and which bytes the other fields are |
| Session.PrintSession.Create | src/protocol/session.ts:104-115 | refuses exactly the empty image; otherwise a fresh session that has sent nothing |
| Session.PrintSession.Start | src/protocol/session.ts:133-139 | the SESSION_START frame with revision 37 |
| Session.PrintSession.HandleFrame | src/protocol/session.ts:155-179 | the whole effect of one frame (state, action or exception, status and progress callbacks) as the specification `Handle` gives it, special opcodes before the print state machine; which frames that answers and how is Answers.ActionOfEveryFrame, StateAfterEveryFrame and CallbacksOfEveryFrame |
| Session.PrintSession.HandlePrintState | src/protocol/session.ts:181-231 | status first, then fault, then READY, REQUEST_DATA, NEEDS_ACK, FINISHED; anything else waits; what that comes to is in Answers |
| Session.PrintSession.BuildJobStart | src/protocol/session.ts:241-261 | the 8-byte modern or 12-byte legacy job start, built in a 12-byte buffer |
| Session.PrintSession.BuildDataResponse | src/protocol/session.ts:271-298 | the slice at the offset named, or at the cursor, capped; the cursor moves to its end; past the image it waits and changes nothing; what the printer reads of it is Answers.AnswersMatchQuestions |
| SessionRuns.StartAnnounces | src/protocol/session.ts:241-261 | the job start has the opcode of the pair in use and reads back as the image length, and the job id in both places or the copies, the rest zero |
| SessionRuns.SendIsOneFrame | src/protocol/session.ts:155-298 | every buffer the session sends is exactly one whole frame; it is a data frame exactly for a data request, and then the slice at the wanted offset |
| SessionRuns.ThrowsExactlyOnFault | src/protocol/session.ts:181-196 | a printer error is thrown exactly on a non-special opcode satisfying `isFault`, equivalently on an error status with a known code; the codec never throws on an image below 2^32 bytes |
| SessionRuns.PercentRange | src/protocol/session.ts:283-287 | percent lies in 0..100 and reads 100 exactly from 99.5% of the image on |
| SessionRuns.RunKeeps | src/protocol/session.ts:155-298 | over every frame sequence the cursor stays inside the image, `finished` and the failure are never withdrawn, and every progress report is in range, 100 at the end |
| SessionRuns.OffsetlessRequestsStreamTheImage | src/protocol/session.ts:271-298 | requests naming no offset, other traffic interleaved, are served consecutive slices that concatenate to the image up to `min(k * cap, n)` |
| SessionRuns.OffsetlessRequestWaitsAtTheEnd | src/protocol/session.ts:271-277 | such a request is left waiting if and only if the image is used up |
| SessionRuns.OffsetlessRequestsNeeded | src/protocol/session.ts:271-298 | from a fresh session the data sent is the whole image if and only if at least ceil(n / cap) such requests came |
| Answers.ActionOfEveryFrame | src/protocol/session.ts:155-298 | for every frame and state, by opcode and arguments alone: done exactly for JOB_COMPLETE and SESSION_END, a throw exactly for a fault or a slice no frame can hold, an answer exactly for a heartbeat, READY, NEEDS_ACK, FINISHED and a request inside the image, final for FINISHED only, and nothing for the rest |
| Answers.StateAfterEveryFrame | src/protocol/session.ts:155-298 | the cursor moves to the end of the slice for a request inside the image, offset named or not, and for nothing else; `finished` is set by an end and by FINISHED, the failure by a fault |
| Answers.CallbacksOfEveryFrame | src/protocol/session.ts:181-287 | a status for each frame that reaches the print state machine, and one progress report for each request inside the image, naming the end of its slice and the percentage rounded half up |
| Answers.AnswersMatchQuestions | src/protocol/session.ts:155-298 | what the printer decodes from each answer: the heartbeat echoed, the job start, the data frame (opcode of the pair in use, arguments of the request, the image from the offset asked for to the end of the slice), the acknowledgement with the fourth header byte, END_JOB for FINISHED |
| Answers.ControlFramesSpelt | src/protocol/session.ts:133-226 | the session start (arguments 1 and 37), the heartbeat's echo and END_JOB, byte for byte |
| Answers.StateFollowsTheFrames | src/protocol/session.ts:155-298 | over every run: the cursor is the end of the last slice asked for inside the image, the session has finished exactly when some frame ended it or said FINISHED, and the failure is the last fault |
| Answers.OnePairOfOpcodes | src/protocol/session.ts:241-298 | over every run job starts and data frames use one pair of opcodes, the modern one above protocol level 100 |
| Transfer.ReplyParses | src/protocol/session.ts:181-298 | a reply is at most one frame; it carries image data exactly for a request inside the image, and a job start in it announces the image length |
| Transfer.InvAlways | src/protocol/session.ts:155-298 | over every run the data frames the printer is still to receive answer, in order, exactly the offsets it waits for, counting bytes in both streams and both buffers |
| Transfer.TransferIsFaithful | src/protocol/session.ts:155-298 | in every run, whatever the printer asks for and however often, whatever heartbeats, acknowledgement requests and media frames it interleaves, and however both streams are chunked, what it stores at the offsets it asked for agrees with the image and the length announced is the image's |
| Pull.PullTakesExactlyCeil | src/protocol/session.ts:263-298 | a printer that asks for its next missing byte never receives more than ceil(n / cap) data frames and holds the whole image exactly when it has received that many |
| Pull.PullCanAlwaysFinish | src/protocol/session.ts:263-298 | from wherever such a run has got to it can go on to a printer that holds the image and nothing else, knows its length, and received ceil(n / cap) data frames |
| Jobs.PrintJob.constructor | src/printer.ts:138-201 | listeners and timer in place, nothing settled, the session start written |
| Jobs.PrintJob.Settle | src/printer.ts:141-154 | the first call settles and removes timer and listeners; later calls change nothing |
| Jobs.PrintJob.HandleFrame | src/printer.ts:167-193 | a throw or a done action settles the job, a send adds one write, a wait does nothing |
| Jobs.PrintJob.HandleData | src/printer.ts:90-100 | each frame of the chunk goes to the job while it still listens; the decoder keeps the rest |
| Jobs.PrintJob.WriteLanded | src/printer.ts:181-188 | a completed write settles the job if it was the final one |
| Jobs.PrintJob.WriteBroke | src/printer.ts:189-200 | a failed write rejects the job, as `Step` says; JobEndings.SettlesAsTold tells over runs that it does |
| Jobs.PrintJob.TimerFired | src/printer.ts:156-158 | the timer rejects the job, as `Step` says; JobEndings.SettlesAsTold tells over runs that it does |
| Jobs.PrintJob.TransportWentAway | src/printer.ts:163-165 | the transport closing rejects the job, as `Step` says; JobEndings.SettlesAsTold tells over runs that it does |
| Jobs.SettlesAtMostOnce | src/printer.ts:138-202 | over every interleaving of frames, write completions, write failures, timer and close: at most one settlement; listeners and timer are gone exactly when it has come; it resolves only with the session finished, by a done frame or an END_JOB write that landed |
| Jobs.OnlyEndJobLandingResolves | src/printer.ts:181-188 | while the job runs, a completed write settles it if and only if its bytes are the END_JOB frame, and then resolves it |
| Jobs.SettledStaysSettled | src/printer.ts:141-154 | after settling, no event changes the outcome, writes another buffer or reaches the session |
| JobWrites.JobFollowsTheBytes | src/printer.ts:90-193 | without timeout, close or write failure, the buffers a job writes and how it settles are determined by the concatenated inbound bytes up to the first FINISHED, done or fault frame; frames behind a done or fault frame write nothing |
| JobWrites.ChunkingDoesNotShow | src/printer.ts:90-193 | two transports that cut the same bytes differently make the job write the same buffers, all of them when no FINISHED ends the script and up to its END_JOB otherwise |
| JobWrites.JobNeverLeavesTheScript | src/printer.ts:90-193 | under every interleaving, failures included, the buffers written and the scripted ones are one a prefix of the other, and only FINISHED lets a job write past its script |
| JobWrites.FinishedScriptEndsWithEndJob | src/protocol/session.ts:217-226 | a script that FINISHED ends has END_JOB as its last buffer |
| JobWrites.PrinterGetsOneFramePerWrite | src/printer.ts:167-200 | in every run a printer parsing what the job wrote gets one frame for each write, in order, with nothing pending |
| JobEndings.ScriptEndsAtFirst | src/protocol/session.ts:155-231 | what a job is scripted to write ends at the first frame that ends the job or session, reports a fault or says FINISHED, and in that frame's way |
| JobEndings.SettlesAsTold | src/printer.ts:138-202 | in every interleaving a job has no settlement as long as none of its events ended it, and then the one of the first that did: the timer, the transport closing, the failure of a write then under way, the landing of an END_JOB then under way, or bytes completing a frame that ends the job or session or reports a fault |
| JobEndings.RunsOnIffNoneEnds | src/printer.ts:138-202 | so it is running if and only if no event so far was one of those |
| JobEndings.DisturbancesSettle | src/printer.ts:156-165 | in particular not once the timer has fired or the transport closed |
| AdbMessages.Checksum | src/transport/adb/message.ts:79-85 | the byte sum modulo 2^32 |
| AdbMessages.ChecksumIsAdditive | src/transport/adb/message.ts:79-85 | additive modulo 2^32 over any way of cutting the payload |
| AdbMessages.ChecksumOfOne | src/transport/adb/message.ts:79-85 | the checksum of one byte is the byte, and of none zero |
| AdbMessages.ChecksumIsPlainSum | src/transport/adb/message.ts:79-85 | the plain sum for payloads up to 16843009 bytes, and for no longer payload of 0xff bytes |
| AdbMessages.EncodeAdbMessage | src/transport/adb/message.ts:88-107 | six little-endian words and the payload, checksum and magic computed |
| AdbMessages.EncodeAdbHeader | src/transport/adb/message.ts:118-136 | the same header alone; followed by the payload it is the encoded message |
| AdbMessages.HeaderRoundTrip | src/transport/adb/message.ts:88-171 | every word of an encoded header reads back modulo 2^32, and its magic is the valid one, the complement of its command |
| AdbMessages.ValidIsComplement | src/transport/adb/message.ts:169-171 | a magic is valid if and only if it and the command add up to 0xffffffff |
| AdbMessages.CommandsSpellTheirNames | src/transport/adb/message.ts:27-40 | the command words on the wire are their names in ASCII |
| AdbMessages.AdbRoundTrip | src/transport/adb/message.ts:88-215 | encode then decode returns the message, its words modulo 2^32, whatever follows, if and only if its length fits 32 bits |
| AdbMessages.ReencodesIffChecksOut | src/transport/adb/message.ts:88-215 | a decoded message encodes to the bytes it came from if and only if its checksum and magic were right |
| AdbMessages.DecodeAdbIsFraming | src/transport/adb/message.ts:196-213 | a complete decode is unchanged by bytes appended and uses at least the header |
| AdbMessages.MessagesRoundTrip | src/transport/adb/message.ts:88-215 | any sequence of messages comes back whole and in order with nothing pending |
| AdbMessages.AdbMessageDecoder.Push | src/transport/adb/message.ts:188-215 | returns the messages of the buffer with the chunk appended and keeps the unparsed tail |
| AdbMessages.AdbDecoderRefinesParsing | src/transport/adb/message.ts:185-215 | however a stream is cut into chunks, the messages are those of the whole stream |
| AdbHosts.AdbHost.constructor | src/transport/adb/host.ts:84-98 | no streams, ids from 1, the limit given, zero included, or 4096 |
| AdbHosts.AdbHost.Transmit | src/transport/adb/host.ts:145-155 | the header goes to the link at once; the payload, if any, is due when that link write has landed, and then what the sender waits for |
| AdbHosts.AdbHost.OnceLanded | src/transport/adb/host.ts:145-155 | a link write completed: the payload due goes out, or with none due the sender goes on |
| AdbHosts.AdbHost.Continue | src/transport/adb/host.ts:179-207 | what a sender does next: announce an accepted stream as it was accepted, advance a write by the limit as it now stands and cut its next slice, or say the next goodbye |
| AdbHosts.AdbHost.ConnectLink | src/transport/adb/host.ts:158-164 | CNXN with version and 4096, header first and banner once it has landed |
| AdbHosts.AdbHost.OpenStream | src/transport/adb/host.ts:167-176 | a fresh id tabled as not yet open, and an OPEN naming it with the NUL-terminated destination |
| AdbHosts.AdbHost.WriteStream | src/transport/adb/host.ts:179-188 | refuses exactly streams that are not tabled and open; otherwise a write begins, up to its first wait |
| AdbHosts.AdbHost.SliceOff | src/transport/adb/host.ts:185-188 | the loop condition and body: a slice of at most the current limit, or the end |
| AdbHosts.AdbHost.CloseOne | src/transport/adb/host.ts:192-199 | removes a tabled stream and sends one CLSE for it; an unknown id changes nothing |
| AdbHosts.AdbHost.CloseLink | src/transport/adb/host.ts:202-207 | lists the table, oldest first, and begins to close what is on the list, up to its first wait |
| AdbHosts.AdbHost.CloseFrom | src/transport/adb/host.ts:203-205 | the rest of that loop: the next listed stream still in the table, or the end |
| AdbHosts.AdbHost.Dispatch | src/transport/adb/host.ts:209-283 | the effect of one inbound message on table, limit, events and link; over runs AdbRecords and AdbControls tell it from the inputs |
| AdbHosts.AdbHost.OnChunk | src/transport/adb/host.ts:89-97 | dispatches the messages of the decoder's buffer with the chunk appended, in order |
| AdbHosts.AdbHost.AcceptStream | src/transport/adb/host.ts:291-305 | a fresh id tabled as open, an OKAY sent, the `stream` event left to the send's completion |
| AdbHosts.AdbHost.ActiveStreams | src/transport/adb/host.ts:313-315 | the open entries of the table, oldest first |
| AdbLinks.StepKeepsLink | src/transport/adb/host.ts:145-155 | a step breaks an unbroken link if and only if it sends while a payload is due |
| AdbLinks.WholeIffPatient | src/transport/adb/host.ts:145-310 | over every run the link carries each message whole, in the order sent, if and only if nothing was sent while a payload was due and none is due at the end |
| AdbLinks.WholeLinkDecodes | src/transport/adb/host.ts:145-155 | a decoder fed such a link, in any chunks, yields exactly the logical messages in order with nothing pending |
| AdbLinks.LinkDecodesIffPatient | src/transport/adb/host.ts:145-310 | over every run, unless a payload starts like the next header, the far end decodes exactly the messages sent if and only if nothing was sent while a payload was due and none is due |
| AdbWrites.TilesIffLimitHeld | src/transport/adb/host.ts:185-188 | the slices of a finished write cover its payload without gap or overlap if and only if the limit was unchanged after each slice but the last needed and after that still reached the end |
| AdbWrites.HeldSlices | src/transport/adb/host.ts:185-188 | then they are ceil(n / max) in number, non-empty and at most the limit |
| AdbWrites.RaisedLimitSkipsBytes | src/transport/adb/host.ts:185-188 | if the second limit the loop reads is larger than the first, no slice has a byte between the two (Overlaps.CnxnSkipsBytes has the runs in which a CNXN does that) |
| AdbWrites.ZeroLimitNeverEnds | src/transport/adb/host.ts:185-188 | under a limit of zero a write sends empty slices and does not end |
| AdbOrder.WritesAreRecorded | src/transport/adb/host.ts:179-189 | over every run each write has sent exactly the slices its loop cut, the WRTEs of a stream carry the slices of its writes in order, and writes start in the order they were begun |
| AdbOrder.StepKeepsPositive | src/transport/adb/host.ts:221-228 | a payload limit that starts positive stays positive over every input, and every write reads only such limits |
| AdbPlaces.InOrderIffSerial | src/transport/adb/host.ts:179-189 | over every run after which the writes to a stream are over, it carries their payloads once each, in the order begun, if and only if no slice of one fell between two of another and the limit held during each |
| AdbPlaces.SerialCarriesPayloads | src/transport/adb/host.ts:179-189 | then the bodies of its WRTEs concatenate to the payloads written |
| AdbPlaces.WriteSplitsPayload | src/transport/adb/host.ts:179-189 | each write of a run sends at most one slice a byte, so it ends; ended, it has sent its payload exactly once if and only if the limit held, and then in ceil(n / max) non-empty slices of at most the limit |
| AdbDiscipline.SerialIffTurns | src/transport/adb/host.ts:179-189 | over every run after which the writes to a stream are over, their limits held, no slice of one fell between two of another if and only if no non-empty write to it began while an earlier one still needed a slice |
| AdbDiscipline.InOrderIffTurns | src/transport/adb/host.ts:179-189 | so the stream carries their payloads once each, in the order begun, if and only if each began when those before it needed no further slice, and had its limit held |
| AdbDiscipline.AwaitingIsSerial | src/transport/adb/host.ts:179-189 | over every run in which each write to a stream begins when those before it are over, whatever arrives and whatever else is written, no slice of one falls between two of another |
| AdbDiscipline.SteadyLimitsHold | src/transport/adb/host.ts:221-228 | if no CNXN moves the limit while a write to the stream is under way, the limit held during each of them, once they are over |
| AdbDiscipline.AwaitingCarriesInOrder | src/transport/adb/host.ts:179-228 | awaiting each write, under a limit that stays put meanwhile, is enough for the payloads to be carried once each and in order |
| AdbDriver.SomeRunIsCareful | src/transport/adb/host.ts:145-189 | for any payloads and any positive limit there is a run that writes them to a stream in that order, awaits each, sends nothing while a payload is due and ends with every write over and no payload due |
| Overlaps.OneChunkTwoWrites | src/printer.ts:90-193 | a data request and a heartbeat in one chunk: the job calls `write` for both before either can have completed |
| Overlaps.OverlappingWritesBreakTheLink | src/transport/adb/host.ts:145-189 | two writes with no link write completing between them put the second header where the first payload should be, and the link is never whole again |
| Overlaps.SlicesInterleave | src/transport/adb/host.ts:179-189 | a write begun between two slices of another is sent between them although each message stands whole on the link |
| Overlaps.CnxnSkipsBytes | src/transport/adb/host.ts:185-228 | whatever ran before and runs afterwards, a CNXN that raises the limit while the first slice of a write is under way leaves every byte between the two limits out of all its slices |
| Overlaps.CnxnEndsAWriteEarly | src/transport/adb/host.ts:185-228 | a run from the start in which the write is over and only its first slice was sent |
| Overlaps.CutLinkCanDecode | src/transport/adb/host.ts:145-155 | if the payload of one write is the header of a second begun at once, the two messages do not stand whole on the link and the far end decodes both all the same |
| Overlaps.GapIsReadAsPayload | src/protocol/frame.ts:104-124 | bytes put into a frame anywhere behind its header are read as part of its payload, whose own last bytes they displace |
| Overlaps.HeartbeatInsideData | src/transport/adb/host.ts:179-189 | so at any limit of at least 8 bytes a heartbeat answered between the two slices of a data frame is read, behind the frames sent before, as part of its image bytes |
| AdbAcks.OkaysAreWhatIsOwed | src/transport/adb/host.ts:238-310 | over every run the OKAYs sent are, in order and addressed to the right ends, one for each OPEN and one for each WRTE to a stream then in the table |
| AdbStreams.TableAndAcksConserved | src/transport/adb/host.ts:167-310 | over every run each key is its entry's id, all ids lie in [1, nextLocalId), and OKAYs plus OPENs sent equal payloads delivered plus ids issued |
| AdbStreams.OneEventOfEach | src/transport/adb/host.ts:192-310 | per id at most one `stream` event, none before it is issued, and exactly one end, a CLSE sent or a `streamClose` event, for each issued id no longer in the table, and none for one that is |
| AdbStreams.DepartedStreamsStaySilent | src/transport/adb/host.ts:192-310 | an id that left the table is never used again, has no further `data` or `streamClose` event, no write to it begins and nothing but slices of earlier writes is sent for it; unless its accept is outstanding it has no event at all |
| AdbStreams.OpenRecordIsFixed | src/transport/adb/host.ts:244-252 | a stream's record, remote id included, is fixed from the moment it is open |
| AdbStreams.LateStreamEvent | src/transport/adb/host.ts:269-310 | over every run a departed stream is announced late if and only if its accept was outstanding when it left and its OKAY lands afterwards |
| AdbStreams.LateStreamEventHappens | src/transport/adb/host.ts:269-310 | a run in which `stream` follows `streamClose` |
| AdbRecords.RecordsFollowTheInputs | src/transport/adb/host.ts:167-310 | over every run the record of a tabled stream is the one the inputs give it: its remote id is the sender of the OPEN that created it or of the first OKAY that named it; writes and events carry it |
| AdbRecords.SendsAreAddressed | src/transport/adb/host.ts:145-310 | over every run each WRTE, OKAY and CLSE a step sends names the stream's own id and the remote id it then has |
| AdbRecords.OpenStreamsAreAddressed | src/transport/adb/host.ts:145-310 | so from the moment a stream is open everything sent for it in the rest of the run names that one remote id |
| AdbRecords.FirstOkayAnnounces | src/transport/adb/host.ts:244-252 | the first OKAY for a tabled stream that is not open emits its `stream` event, with the sender as remote id, and it has no other in any run |
| AdbControls.ConnectionFollowsTheInputs | src/transport/adb/host.ts:158-235 | over every run: the payload limit is that of the last CNXN with a positive one, the host is connected once one came, under the last banner, `connect` and `auth` events are one for each CNXN and AUTH, and the CNXNs (version 1.0, limit 4096) and OPENs (the id, the destination ended by a NUL) sent are one for each call, in order |
| AdbControls.WhoEndsAStream | src/transport/adb/host.ts:192-267 | over every run a step ends a tabled stream by a `streamClose` event if and only if it is the device's CLSE for it, and by a CLSE sent if it leaves the table otherwise |
| AdbControls.CloseStreamSaysGoodbye | src/transport/adb/host.ts:192-200 | over every run `closeStream` takes a tabled stream out and sends one CLSE, from its id to the remote id the inputs gave it, and does nothing for any other id |
| AdbControls.ActiveAreTheOpen | src/transport/adb/host.ts:312-315 | over every run the active streams are the open records of the table, each once, in the order their ids were issued |
| AdbClosing.CloseLeavesOnlyNewcomers | src/transport/adb/host.ts:192-207 | whatever happens while it waits, after a `close` that has run to its end each stream it found in the table has ended exactly once; only streams opened since can be there, so with none opened the table is empty, and in general it is if and only if each of those has ended by one CLSE or one `streamClose` |
| AdbClosing.RunIssues | src/transport/adb/host.ts:167-305 | over every run one id is issued for each `open` call and each OPEN that arrives, and none otherwise |
| AdbClosing.CloseLeavesAStream | src/transport/adb/host.ts:202-207 | a run in which `close` has run to its end and a stream the device opened meanwhile is in the table |
| AdbClosing.CloseEmptiesTheTable | src/transport/adb/host.ts:202-207 | with nothing else happening, one CLSE for each entry, oldest first, an empty table, and no event |
| UsbReader.UsbLoop.ReadExactly | src/transport/usb.ts:486-527 | all bytes asked for, or nothing when the endpoint idles before the first byte or the transport closes, or the error raised, each as the step machine says; which transfers end it is UsbScripts.StopsAsTold |
| UsbReader.UsbLoop.Recover | src/transport/usb.ts:458-562 | closed, disconnected, stalled (counted against the budget, halt cleared) or failed; goes on only after a stall that was cleared within the budget |
| UsbReader.UsbLoop.ReadLoop | src/transport/usb.ts:413-478 | the nested loops are the run of the one-transfer step machine over the script of outcomes; which scripts that survives is UsbScripts.SurvivesIffHarmless |
| UsbRuns.BytesConserved | src/transport/usb.ts:413-527 | for every script that leaves the loop running, delivered chunks followed by what is in flight equal the bytes taken, if and only if no stall struck in the middle of a message |
| UsbRuns.DecoderSeesTheBytes | src/transport/usb.ts:413-527 | so at each loop head the decoder has returned exactly the messages in the bytes taken, however idle reports cut them |
| UsbRuns.ChunksAreWholeMessages | src/transport/usb.ts:422-457 | while the loop runs every delivered chunk is one whole message if and only if the endpoint never idled between a header and its payload |
| UsbRuns.WholeChunksLeaveNothingPending | src/transport/adb/message.ts:188-215 | such chunks give the decoder one message each and leave nothing pending |
| UsbRuns.StallBudget | src/transport/usb.ts:418-471 | between two headers read at most `limit` stalls are survived, idle reports not counting as success, the next one ends the loop, and the counter never passes the limit by more than one |
| UsbScripts.StopsAsTold | src/transport/usb.ts:413-562 | for every script the loop stops at the first transfer that ends it, for that transfer's reason (closed, disconnected, failed or too much returned, a header declaring more than 1048576 bytes, budget spent, halt not cleared); until then what it has in flight, taken and counted is told from the script |
| UsbScripts.SurvivesIffHarmless | src/transport/usb.ts:413-562 | it is running if and only if no transfer closes, disconnects, fails, returns more than was asked for or completes a header that declares more than 1048576 bytes, and every stall is cleared and within the budget since the last header |
| UsbScripts.ScriptIsConserved | src/transport/usb.ts:413-527 | of every such script: chunks delivered and the message under way are the bytes given if and only if no stall struck in the middle of a message, and chunks are whole messages if and only if the endpoint never idled between a header and its payload |
| UsbScripts.ScriptReachesTheDecoder | src/transport/usb.ts:413-527 | so with no message under way the decoder has returned the messages in the bytes the endpoint gave |
| Tunnel.StreamCrossesTheTunnel | src/transport/adb/host.ts:145-310 | over every run in which nothing is sent while a payload is due, none is due at the end, and the stream's writes are over, each begun when those before needed no further slice and under a limit that held, whatever else shares the link, the far end that decodes the link output in any chunks and feeds one stream's bodies to a frame decoder parses exactly the payloads written to that stream, in the order the writes began |
| Tunnel.CarefulIsOrderly | src/transport/adb/host.ts:145-228 | a run of a caller that awaits its writes, with no send while a payload is due and no limit moved during a write, meets those conditions once its writes are over and no payload is due |
| Tunnel.FramesCrossTheTunnel | src/transport/adb/host.ts:145-189 | in such a run frames written to the print stream come out in order with nothing pending in either decoder |
| Tunnel.JobCrossesTheTunnel | src/printer.ts:126-202 | in such a run a job's buffers written to the stream are decoded by the printer as one frame each, in order (the job by itself does not keep its writes apart: Overlaps.OneChunkTwoWrites) |
| Tunnel.JobCanCross | src/printer.ts:126-202 | for any job over any events there is such a run that writes its buffers in order, and the printer then decodes one frame for each, in any chunks |
| Tunnel.StreamCrossesBack | src/transport/usb.ts:413-527 | for every script of harmless transfers with no stall in the middle of a message, and every run of the host in which calls and landings come between the messages so read, the `data` events for a tabled stream carry the bodies sent to it in order, none beyond the printer's CLSE, and all of those if the owner does not close it; a frame decoder fed them parses their concatenation |
| Tunnel.RunToData | src/transport/adb/host.ts:209-283 | the host's part of that, over every run from any state that keeps the invariants of the table |
| Ble.EncodeBleCommand | src/protocol/ble.ts:41-74 | ten bytes, one argument byte for JOB_PARAMS and four otherwise; refuses exactly lengths outside 24 bits |
| Ble.EncodeBleData | src/protocol/ble.ts:77-96 | offset, length and payload; refuses exactly offsets outside 24 bits and payloads that are empty or outside 16 bits |
| Ble.WhatFits | src/protocol/ble.ts:50-86 | lengths and offsets below 2^24 and data sizes from 1 to 65535 have an encoding, and no others |
| Ble.CommandLayout | src/protocol/ble.ts:54-73 | which byte of a command is what |
| Ble.DataLayout | src/protocol/ble.ts:88-95 | which byte of a data frame is what |
| Ble.CommandRoundTrip | src/protocol/ble.ts:41-74 | a command decodes as itself, its argument to one byte for JOB_PARAMS and modulo 2^32 otherwise |
| Ble.DataRoundTrip | src/protocol/ble.ts:77-96 | whatever encodes as data decodes as data, to the same offset and bytes, never as a command |
| Ble.DataReencodes | src/protocol/ble.ts:210-245 | whatever decodes as data is the encoding of what it decodes to |
| Ble.CommandReencodes | src/protocol/ble.ts:210-245 | whatever decodes as a command is the encoding of what it decodes to, if and only if JOB_PARAMS has zero in the bytes no field covers |
| Ble.BleDataFrames | src/protocol/ble.ts:104-115 | the generator yields the specified split, or throws on a chunk size that is not positive or at a frame that does not fit |
| Ble.SplitCompletesIffFits | src/protocol/ble.ts:104-115 | the split completes if and only if its largest chunk fits 16 bits and its last offset 24 |
| Ble.OrdinarySplitsComplete | src/protocol/ble.ts:104-115 | it completes for every chunk size in 1..65535 and payload of at most 2^24 bytes |
| Ble.SplitPieces | src/protocol/ble.ts:104-115 | the i-th frame carries the bytes from `i * chunkSize` to the next offset or the end, so the ranges are disjoint and cover the payload |
| Ble.AnyOrderRebuilds | src/protocol/ble.ts:77-115 | frames of a completed split, in any order and with repetitions, rebuild the payload at their offsets whatever the buffer held |
| Ble.AnyPermutationRebuilds | src/protocol/ble.ts:77-115 | in particular every permutation rebuilds it |
| Ble.BleCommandSequence | src/protocol/ble.ts:143-197 | the frames each selector stands for; refuses exactly lengths outside 24 bits |
| Ble.SequenceAnnounces | src/protocol/ble.ts:143-197 | what each sequence says when decoded: opcode, length and argument of its first frame, the copies for PHOTO_START and length zero for FIRMWARE_FINALIZE among them, and the announcement of length and argument last |
| Ble.SplittableButNotAnnounceable | src/protocol/ble.ts:51-115 | exactly which payloads can be split although their length cannot be announced |
| Jpeg.ReadJpegSize | src/image/raster.ts:255-279 | the loop is the walk from offset 2, in range and terminating on every input; null without SOI |
| Jpeg.SofMarkers | src/image/raster.ts:265-266 | the thirteen markers that start a frame |
| Jpeg.ReadsEveryLayout | src/image/raster.ts:255-279 | SOI, any items (segments with arbitrary bodies, 0xff included, segments declaring length one, and stray bytes that are not 0xff) and a frame header read as the header's Y and X |
| Jpeg.ReadsExactlyTheLayouts | src/image/raster.ts:255-279 | the reader answers a size if and only if the file is laid out so with that size |
| Jpeg.FillByteMisleads | src/image/raster.ts:260-276 | from a fill byte before the frame header the walk goes on at its offset plus two plus the word made of the marker and the first length byte, whatever follows |
| Jpeg.FillByteHidesFrame | src/image/raster.ts:260-276 | with no more than 0xc000 bytes from the frame header on it then finds nothing |
| Jpeg.FillByteReadsOtherSize | src/image/raster.ts:260-276 | in a longer file it reads the size of whatever frame header stands where it lands, however the real one differs |

## Left out

- Session.PrintSession.Create: models `maxChunkSize` as infinity or a non-negative whole number; negative and fractional values are not modelled.
- SessionRuns.PercentRange: computes percent on exact rationals, because the rounding of floating-point division is not the point.
- Answers.AnswersMatchQuestions: is for images below 2^31 bytes, past which a frame that carries all of one reads as empty (Frames.FrameRoundTrip).
- Transfer.TransferIsFaithful: covers images below 2^31 bytes and a printer that reports no fault, FINISHED, done frame or offset-less request (those are in SessionRuns and JobWrites); the printer matches data frames to its questions in order, since they carry no offset; it assumes that the transport delivers writes whole and in order; for the ADB tunnel that is Tunnel.StreamCrossesTheTunnel with the conditions named there, which a job does not meet by itself (Overlaps).
- Pull.PullTakesExactlyCeil: is about a printer with one question open at a time, since a second question sent before the first answer asks for the same missing byte again.
- Jobs.SettlesAtMostOnce: is about one job on a printer whose callbacks neither throw nor re-enter; several jobs running at once are not modelled.
- AdbHosts.AdbHost.constructor: takes a whole, non-negative payload limit; negative and fractional ones are not modelled. AdbPlaces.InOrderIffSerial and what rests on it are for a positive limit.
- AdbHosts.AdbHost.Dispatch: keeps banners and destinations as raw bytes; text decoding and the stripping of trailing NULs are not modelled.
- AdbHosts.AdbHost.Transmit: its link writes succeed once they complete; failing link writes and the error events they cause are not modelled. One that never completes is a message that never lands.
- AdbHosts.AdbHost.CloseLink: closing the link itself, after the last goodbye, is not modelled.
- AdbLinks.LinkDecodesIffPatient: leaves open runs in which a payload starts like the header of the message sent after it; there a cut message can happen to decode as sent (Overlaps.CutLinkCanDecode).
- UsbReader.UsbLoop.ReadLoop: observes the transport being closed at a transfer; closing during the idle delay or while a halt is cleared shows at the transfer before it, and an endpoint with no outcome left is a transfer that never completes.
- Tunnel.StreamCrossesTheTunnel: needs fewer than 2^32 ids issued, past which ids wrap on the wire.
- `strictMagic`: the decoder drops the received magic and `dispatch` recomputes the value it then compares, so the option has no effect and is not modelled.
- ADB flow control: `write` does not wait for an OKAY between slices, so nothing is claimed about it.
- At most one job start, or silence after END_JOB: the session guards on neither, so neither is claimed.
- Message texts, the error class hierarchy, the media table, device information, the BLE and job cancel frames, and the mock transport: no property beyond their definitions.
- Device discovery, opening and claiming USB devices, the serial transport, image preparation and real timers: foreign calls, present only as events or transfer outcomes.
