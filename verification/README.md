# Switchback capture store and streaming pipeline: a verified model

Switchback is a gateway between clients and model providers. Two parts of it carry most of its
guarantees. The capture store (`crates/sb-bodylog`) keeps every request and response body as evidence:
checksummed frames in segment files, a disposable SQLite index beside them, spool segments drained to
an archive, custody records, off-host backup proved by numbered receipts, and a controller that gives
up full bodies under disk or backup pressure and earns them back. The streaming pipeline
(`crates/sb-adapters`) turns provider bytes, in whatever chunks they arrive, into canonical events. Two
command-line protocols belong to the store: the engine upgrade and the backup transfer agent.

This project models that logic in Dafny and proves what it promises, for all inputs, all runs and all
crash points. Code that updates an object or runs a loop is a class or a method proved against a
specification function; the laws are lemmas about those functions. Libraries (SHA-256, CRC-32, zstd,
JSON, UTF-8, the calendar) are function-valued parameters; where a law needs them to be inverse or
injective that is a stated hypothesis. `dafny verify dfyconfig.toml` checks everything.

| file | part of the system |
|---|---|
| `Framing.dfy`, `StreamTask.dfy` | laws of incremental parsing shared by all three formats; framers; the stream task and its channel |
| `EventStream.dfy`, `Sse.dfy` | the AWS event-stream and server-sent-event framers |
| `Responses.dfy`, `Downlevel.dfy`, `Json.dfy` | tool calls of the Responses decoder; the schema rewrite |
| `SegmentLog.dfy`, `Rotation.dfy`, `Days.dfy` | segment format and torn-tail recovery; which file a record goes to |
| `IndexRecovery.dfy`, `Startup.dfy`, `Drain.dfy`, `Gc.dfy` | the index as a projection of the log; startup over the files a writer leaves; spool drain; retention |
| `Custody.dfy`, `Backup.dfy`, `Transfer.dfy` | owners of segments; receipts; the transfer agent |
| `Pressure.dfy`, `PressureShared.dfy` | the capture decision, alone and shared between processes |
| `EngineUpgrade.dfy` | the multi-file engine upgrade |

## Where the code falls short of a plain reading of its promises

Each of these is proved: a witness, and the exact condition under which the promise holds.

- The SSE framer sees the normalised whole text if and only if no chunk boundary falls inside a `\r\n`
  pair, and a boundary there can change the output (`Sse.NormalisingChunks`,
  `Sse.SplitPairChangesOutput`).
- A new segment whose magic is cut short is a file of fewer than eight bytes that no scan, with or without
  recovery, accepts. Startup completes if and only if there is no such file, or another writer holds it
  (`Rotation.CutMagicFails`, `Rotation.CutMagicIsReached`, `Startup.CutMagicStopsStartup`).
- A tool call's arguments reach the consumer if and only if nothing was streamed or what was streamed
  adds up to them; one empty fragment loses them (`Responses.ArgumentsReachFinal`,
  `Responses.EmptyFragmentLosesArguments`).
- Schema rewriting keeps an integer node's meaning if and only if a bound is installed or the existing
  minimum suffices; a number node gains only the boundary point if and only if its bounds compare as
  floats the way they compare as numbers; an object keeps its keys if and only if none is
  `exclusiveMinimum`, be it a keyword or a property name (`Downlevel.IntegerMeaningKeptIff`,
  `Downlevel.NumberGainsBoundaryIff`, `Downlevel.KeysKeptIff`).
- A write cut short hides every body of its segment until recovery, and a retry to the same file is lost
  or takes the file with it. Nothing is lost in runs that do not record while the active file ends in a
  torn write; what completes behind one no scan returns, unless a checksum matches by coincidence
  (`Drain.TornWriteHidesBodies`, `Rotation.CarefulRunLosesNothing`, `Rotation.CarelessWriteIsLost`,
  `Rotation.CarelessRetryLosesFile`).
- A frame whose index commit was lost comes back at the next recovery unless the writer itself sealed
  the segment; recovery completes the index if and only if no sealed file has an unindexed frame and no
  file held by another writer is unprojected (`IndexRecovery.RecoveryCompletesIff`,
  `IndexRecovery.SealedLostCommitStaysLost`).
- A day is released for deletion while a segment covering it is unsealed; all its segments are in the
  receipts if and only if none is (`Gc.ForgottenDayBackedIff`, `Gc.UnsealedSegmentIsPassedOver`).
- The blob deletion loop ends if and only if the batch size fits a signed 64-bit number and the largest
  rowid is not the largest possible (`Gc.WindowsEndIff`).
- Comparing segment sets by length and one inclusion accepts only equal sets if and only if the left list
  has no duplicates (`Transfer.ComparisonSoundIff`). The agent's own duplicate check
  (cli/switchback-capture-backup.ts:520) never fires, so uniqueness is taken from the plan
  (`Backup.PlanIsFresh`).
- Times outside the calendar's range are all filed under 1 January 1970 (`Days.SameDateIff`).
- The engine upgrade is all-or-nothing under one fault. Under two it is if and only if the rollback gets as
  far as the writes did (`EngineUpgrade.LeftNothingIff`, `EngineUpgrade.TwoFaultsLeaveMix`).
- The pressure counters and the backup generation are set back by a read of the state file that fails, and
  by nothing else (`PressureShared.NoLostUpdate`, `PressureShared.FailedReadForgets`).

## Model

| member | source | states |
|---|---|---|
| `Framing.ReadFrames` | crates/sb-bodylog/src/lib.rs:2356-2418 | The scanning loop ends for every input and every parser that consumes what it reads, and computes the recursive scan |
| `Framing.ScanResumes` | crates/sb-adapters/src/event_stream.rs:43-119 | Reading may stop anywhere and resume on the unread rest: same frames, same error |
| `Framing.KeptReadsTheSame` | crates/sb-bodylog/src/lib.rs:2356-2418 | What a scan keeps of any input reads again as the same frames with nothing left over |
| `Framing.CutKeepsWholeFrames` | crates/sb-bodylog/src/lib.rs:2356-2418 | Any cut of any readable input keeps exactly the frames that ended at or before the cut |
| `Framing.ChunkingIrrelevant` | crates/sb-adapters/src/transport.rs:57-78 | For every input, well formed or not, every way of splitting it gives the same frames, error and leftover |
| `Framing.EncodedFramesRead` | crates/sb-adapters/src/event_stream.rs:166-190 | Concatenated encodings read as exactly the encoded frames |
| `Framing.AppendedFrameReads` | crates/sb-bodylog/src/lib.rs:1790-1800 | Appending one encoded frame to fully read input adds exactly that frame |
| `Framers.DeliveryIsOfWholeInput` | crates/sb-adapters/src/transport.rs:57-78 | What successive pushes deliver is decided by the whole input: all values, or its first error |
| `Framers.DeliveryBeforeError` | crates/sb-adapters/src/transport.rs:69-76 | Before an error exactly the values of the pushes before the failing one are delivered |
| `Framers.PresentAppends` | crates/sb-adapters/src/transport.rs:69-77 | The values handed on are those of the frames that carry one, each once and in order |
| `StreamTask.Run` | crates/sb-adapters/src/composed.rs:220-267 | Whatever arrives and whenever the receiver hangs up, what it got is a prefix of the specified output |
| `StreamTask.SendDecoded` | crates/sb-adapters/src/composed.rs:240-256 | The decoder is folded over the values in order and every event is sent until a send fails |
| `StreamTask.Channel.SendEvents` | crates/sb-adapters/src/composed.rs:240-256 | Events are sent in order up to the hang-up |
| `StreamTask.OutputShape` | crates/sb-adapters/src/composed.rs:111-120 | For all arrivals: the events of the delivered values, then one error or the closing events, never both |
| `StreamTask.ErrorIsSingleAndLast` | crates/sb-adapters/src/composed.rs:220-267 | An error is sent at most once, it is the last item, and there was a byte or framing error |
| `StreamTask.CleanOutput` | crates/sb-adapters/src/composed.rs:220-267 | A clean stream sends the decoder folded over the frames of the whole input, then its closing events, for every chunking |
| `EventStream.ParseHeaders` | crates/sb-adapters/src/event_stream.rs:125-159 | The header loop, for any bytes, gives the headers of the slice or its first fault; no index leaves the slice |
| `EventStream.EventStreamDecoder.NextMessage` | crates/sb-adapters/src/event_stream.rs:55-119 | The message, fault or wait, what stays in the buffer, and that every answer other than a wait shrinks it |
| `EventStream.BufferExceededUnreachable` | crates/sb-adapters/src/event_stream.rs:55-119 | Both "buffer exceeded" exits are dead; a waiting buffer is below 16 MiB |
| `EventStream.DecoderIncremental` | crates/sb-adapters/src/event_stream.rs:55-119 | The decoder never takes an answer back when more bytes arrive and needs no byte beyond a message |
| `EventStream.HeadersRoundTrip` | crates/sb-adapters/src/event_stream.rs:125-190 | Parsing inverts encoding for every list of encodable headers |
| `EventStream.MessageRoundTrip` | crates/sb-adapters/src/event_stream.rs:55-190 | Decoding inverts encoding for every message, whatever follows it |
| `EventStream.EverySplitDecodes` | crates/sb-adapters/src/event_stream.rs:43-190 | Every split of the encoding of any message list yields exactly those messages in order, without error or leftover |
| `EventStream.RefusedMessages` | crates/sb-adapters/src/event_stream.rs:55-119 | For any bytes: bad lengths, a wrong prelude or message checksum and a message over 16 MiB each end the push with that error, in this order; otherwise a short buffer waits |
| `EventStream.BadMessageIsDropped` | crates/sb-adapters/src/event_stream.rs:55-119 | A whole message with a wrong checksum or a bad header is dropped alone and what follows it stays; a fault in the first twelve bytes drops everything |
| `EventStream.CutHeaderIsNamed` | crates/sb-adapters/src/event_stream.rs:125-159 | A header list cut inside a header is refused for the field it was cut in |
| `EventStream.OnlyStringHeaders` | crates/sb-adapters/src/event_stream.rs:125-159 | A header of any type but string is refused |
| `EventStream.HeaderIsFirst` | crates/sb-adapters/src/event_stream.rs:28-35 | The first header of a name is the one that counts |
| `EventStream.EventStreamFramer.NextFrame` | crates/sb-adapters/src/transport.rs:167-187 | One loop turn: exceptions become errors, chunks are unwrapped, the buffer shrinks |
| `EventStream.EventStreamFramer.Push` | crates/sb-adapters/src/transport.rs:167-187 | The values completed by a push or the first error; fewer than 16 MiB remain after success |
| `EventStream.FramerIncremental` | crates/sb-adapters/src/transport.rs:167-204 | Upstream exceptions and unwrapping keep the framer incremental |
| `EventStream.MessageMeans` | crates/sb-adapters/src/transport.rs:167-204 | An exception message ends the push with its kind and the upstream's words; every other message is unwrapped |
| `EventStream.ExceptionInAnyCase` | crates/sb-adapters/src/transport.rs:190-195 | An event type that ends in "exception", in any case, is one |
| `EventStream.EventStreamOutputIgnoresChunking` | crates/sb-adapters/src/transport.rs:167-187 | End to end: the events of an error-free event stream do not depend on its chunks |
| `Sse.NormaliseApart` | crates/sb-adapters/src/transport.rs:58-62 | Normalising two pieces apart equals normalising them together if and only if the cut is not inside a `\r\n` pair |
| `Sse.NormalisingChunks` | crates/sb-adapters/src/transport.rs:58-62 | The framer sees the normalised whole text if and only if no boundary splits a pair; each one adds one line end |
| `Sse.SplitPairChangesOutput` | crates/sb-adapters/src/transport.rs:57-117 | Two chunkings of the same bytes: in one piece an error, cut inside a pair only events, for every decoder |
| `Sse.FindBlank` | crates/sb-adapters/src/transport.rs:69-73 | The first blank line, or none |
| `Sse.ParseSseFrame` | crates/sb-adapters/src/transport.rs:80-117 | The line loop computes the frame's fields and their meaning |
| `Sse.SseFramer.NextFrame` | crates/sb-adapters/src/transport.rs:69-77 | Drains and parses the first whole frame and shrinks the buffer |
| `Sse.SseFramer.Drain` | crates/sb-adapters/src/transport.rs:69-77 | The values of all whole frames and the unread rest, or the first error |
| `Sse.SseFramer.Push` | crates/sb-adapters/src/transport.rs:57-78 | Normalise, guard the 1 MiB limit, drain |
| `Sse.SseIncremental` | crates/sb-adapters/src/transport.rs:57-117 | The SSE framer is incremental, so the chunking laws apply |
| `Sse.SseOutputIgnoresChunking` | crates/sb-adapters/src/transport.rs:57-117 | End to end for ASCII text without split pairs, within the limit and with frames that parse: output is that of the whole text |
| `Sse.SseErrorIgnoresChunking` | crates/sb-adapters/src/transport.rs:57-117 | Under the same conditions a bad frame ends every chunking with that frame's error |
| `Sse.DataFrameReads` | crates/sb-adapters/src/transport.rs:80-137 | A multi-line event reads back as exactly its lines, whatever follows |
| `Sse.FrameReads` | crates/sb-adapters/src/transport.rs:69-117 | Any event of any lines reads as the meaning of exactly its lines, whatever follows |
| `Sse.NamedFrameReads` | crates/sb-adapters/src/transport.rs:80-117 | With an event line in front, its data lines under that name |
| `Sse.SpaceIsOptional` | crates/sb-adapters/src/transport.rs:119-123 | One space behind the colon is optional and not part of the value |
| `Sse.OtherLinesAreIgnored` | crates/sb-adapters/src/transport.rs:84-93 | Comments, blank lines and other fields are passed over wherever they stand |
| `Sse.JoinAppends` | crates/sb-adapters/src/transport.rs:99-99 | Data lines are joined by one line end each |
| `Sse.NothingCarried` | crates/sb-adapters/src/transport.rs:95-103 | No data, blank data and `[DONE]` between blanks carry nothing |
| `Sse.PayloadMeans` | crates/sb-adapters/src/transport.rs:99-137 | Any other text between blanks: malformed JSON is an error, an `error` member is an error with its message, an `error` event is an error, everything else is the value |
| `Sse.OverflowEndsPush` | crates/sb-adapters/src/transport.rs:63-68 | More than 1 MiB of text ends the push, whatever it says |
| `Sse.CarriageReturnIsStripped` | crates/sb-adapters/src/transport.rs:84-84 | A line end of two characters is one line end |
| `Responses.ResponsesDecoder.DecodeFrame` | crates/sb-adapters/src/codec.rs:258-320 | The branches for added, delta and done frames update the two index sets and emit events as specified |
| `Responses.RunBracketed` | crates/sb-adapters/src/codec.rs:258-320 | Over every frame sequence a call opens at most once and ends only when open |
| `Responses.StartsAndEnds` | crates/sb-adapters/src/codec.rs:258-320 | The same by position in the output: no earlier start, and a start before every end |
| `Responses.CompleteCallShape` | crates/sb-adapters/src/codec.rs:258-320 | In any interleaving a complete call emits one start with the frame's id and name, argument deltas of its index, and one end |
| `Responses.OpeningFrame` | crates/sb-adapters/src/codec.rs:258-290 | Which frame opens a call, and where its index, id, name and inlined arguments come from |
| `Responses.FeedingFrame` | crates/sb-adapters/src/codec.rs:290-300 | Which frame feeds a call |
| `Responses.ClosingFrame` | crates/sb-adapters/src/codec.rs:300-320 | Which frame closes a call |
| `Responses.OutputIndexIs` | crates/sb-adapters/src/codec.rs:212-222 | The index a frame carries, or 0 if it does not fit or is missing |
| `Responses.CallsAreIndependent` | crates/sb-adapters/src/codec.rs:155-165 | However frames interleave, a call's events are those of a decoder that saw only its frames |
| `Responses.WholeCall` | crates/sb-adapters/src/codec.rs:258-320 | What a complete call's argument deltas concatenate to |
| `Responses.ArgumentsReachFinal` | crates/sb-adapters/src/codec.rs:258-320 | In any interleaving the deltas concatenate to the final arguments if and only if nothing was streamed or the stream adds up to them |
| `Responses.EmptyFragmentLosesArguments` | crates/sb-adapters/src/codec.rs:290-320 | An empty fragment counts as streamed and the final arguments are dropped |
| `Downlevel.RewriteCleans` | crates/sb-adapters/src/codec.rs:167-210 | No object reachable through objects keeps the keyword |
| `Downlevel.RewriteIdempotent` | crates/sb-adapters/src/codec.rs:167-210 | Rewriting twice is rewriting once, for every schema |
| `Downlevel.RewrittenBounds` | crates/sb-adapters/src/codec.rs:167-210 | The bounds of a rewritten node in terms of the original node |
| `Downlevel.OtherKeysKept` | crates/sb-adapters/src/codec.rs:167-210 | Every key but the two bounds keeps its rewritten value |
| `Downlevel.OtherValuesKept` | crates/sb-adapters/src/codec.rs:167-175 | Values that are not objects are left alone |
| `Downlevel.IntegerBoundIs` | crates/sb-adapters/src/codec.rs:167-210 | An integer node gets the next integer unless its minimum is as high |
| `Downlevel.NumberBoundIs` | crates/sb-adapters/src/codec.rs:167-210 | Any other node gets the bound itself unless its minimum is as high |
| `Downlevel.IntegerBoundIsDropped` | crates/sb-adapters/src/codec.rs:167-210 | A fractional bound and the largest number there is are dropped from integer nodes |
| `Downlevel.IntegerMeaningKeptIff` | crates/sb-adapters/src/codec.rs:167-210 | Exactly when an integer node accepts the same integers |
| `Downlevel.OtherNodesUntouched` | crates/sb-adapters/src/codec.rs:167-210 | A node without an exclusive bound keeps its lower bounds |
| `Downlevel.NumberGainsBoundaryOnly` | crates/sb-adapters/src/codec.rs:167-210 | Exactly what a number node accepts when its bounds compare exactly: the boundary point is added when its minimum admits it |
| `Downlevel.NumberGainsBoundaryIff` | crates/sb-adapters/src/codec.rs:167-210 | A number node gains nothing but the boundary point if and only if its bounds compare exactly |
| `Downlevel.RoundingLosesBound` | crates/sb-adapters/src/codec.rs:197-207 | Bounds that round to one float: the stricter one is dropped |
| `Downlevel.PropertyOfThatNameIsDropped` | crates/sb-adapters/src/codec.rs:167-210 | A property named like the keyword is removed |
| `Downlevel.KeysKeptIff` | crates/sb-adapters/src/codec.rs:167-210 | An object keeps its keys if and only if none is the keyword |
| `SegmentLog.EncodeSegmentFrame` | crates/sb-bodylog/src/lib.rs:2295-2328 | The four-attempt loop and the limits, as a function of record and body |
| `SegmentLog.SegmentFile.ScanSegment` | crates/sb-bodylog/src/lib.rs:2335-2426 | The frames or error, and the bytes left in the file |
| `SegmentLog.ParserIncremental` | crates/sb-bodylog/src/lib.rs:2356-2418 | The scanner never takes an answer back, for any bytes |
| `SegmentLog.AcceptedFrames` | crates/sb-bodylog/src/lib.rs:2356-2418 | Exactly which bytes are taken for a frame and which wait for more: magic, limits, checksum, payload length, body length and body hash |
| `SegmentLog.TornTailIsNamed` | crates/sb-bodylog/src/lib.rs:2356-2395 | The error of a read-only scan tells a cut header from a cut body |
| `SegmentLog.EncoderWritesWellFormedFrames` | crates/sb-bodylog/src/lib.rs:2295-2328 | Every accepted frame is readable; the record returned differs from the one in the frame at most in `compressed_bytes` |
| `SegmentLog.EncodedIsFourthAttempt` | crates/sb-bodylog/src/lib.rs:2295-2328 | The frame holds the fourth attempt at a record that says its own size, and the caller gets the fifth |
| `SegmentLog.FrameSaysOwnSizeIff` | crates/sb-bodylog/src/lib.rs:2295-2328 | The frame's record says its own compressed size, and is the one returned, if and only if the fourth attempt does, which it does once any earlier one did |
| `SegmentLog.RefusedRecords` | crates/sb-bodylog/src/lib.rs:2295-2328 | Which records the encoder refuses, and with which error |
| `SegmentLog.FrameLayout` | crates/sb-bodylog/src/lib.rs:2315-2328 | Magic, lengths, checksum and payload of a frame, byte by byte |
| `SegmentLog.ScanInvertsEncodeAll` | crates/sb-bodylog/src/lib.rs:2295-2426 | On an uncut file the scan inverts the encoder |
| `SegmentLog.CutRecoversWholeFrames` | crates/sb-bodylog/src/lib.rs:2335-2426 | Every cut at or after the magic recovers exactly the frames written in full and truncates to their end |
| `SegmentLog.RecoveryIdempotent` | crates/sb-bodylog/src/lib.rs:2335-2426 | For any bytes, scanning a recovered file again returns the same frames and changes nothing |
| `SegmentLog.ReadOnlyScanIffNothingTorn` | crates/sb-bodylog/src/lib.rs:2335-2426 | A read-only scan succeeds exactly on files recovery would leave alone |
| `SegmentLog.AppendAfterRecovery` | crates/sb-bodylog/src/lib.rs:2335-2426 | Crash, recovery and further appends: all whole frames of before and after are read |
| `SegmentLog.AppendScans` | crates/sb-bodylog/src/lib.rs:1790-1800 | Appending a written frame to a file that scans adds exactly that frame |
| `SegmentLog.UnreadableTail` | crates/sb-bodylog/src/lib.rs:2356-2418 | Anything behind a readable file that is not a frame: a read-only scan fails, and recovery returns the file and its frames exactly when the parser waits for more |
| `SegmentLog.TornWriteRecovers` | crates/sb-bodylog/src/lib.rs:2335-2426 | A write cut short anywhere makes its file unreadable; recovery removes exactly the torn bytes and returns every frame before |
| `SegmentLog.FramesBehindTearAreLost` | crates/sb-bodylog/src/lib.rs:2356-2418 | A frame behind a torn magic stops every scan; a frame behind a torn body is taken for the rest of it and cut off |
| `SegmentLog.ScannedBodiesMatch` | crates/sb-bodylog/src/lib.rs:2410-2416 | Every scanned frame carries the hash of its body |
| `Days.BucketWithinDay` | crates/sb-bodylog/src/lib.rs:1742-1745 | A 15-minute bucket starts on the day of every time in it, negative times included |
| `Days.DayIntervalIsDay` | crates/sb-bodylog/src/lib.rs:3285-3287 | A half-open day interval holds exactly the times that round down to its start |
| `Days.FloorsAre` | crates/sb-bodylog/src/lib.rs:3285-3287 | Day and bucket starts: the last multiple of 86 400 000 and 900 000 ms at or before the time |
| `Days.DateOfDay` | crates/sb-bodylog/src/lib.rs:3305-3309 | All times of a day share one directory date |
| `Days.SameDateIff` | crates/sb-bodylog/src/lib.rs:3305-3309 | Two times share a directory exactly when they share a day or are both out of range or on the epoch day |
| `Rotation.SegmentWriter.CreateSegment` | crates/sb-bodylog/src/lib.rs:1805-1860 | The new file's path and magic, and what each failure leaves: no file, a magic cut short after any number of bytes, or a file that is not active |
| `Rotation.SegmentWriter.SealTaken` | crates/sb-bodylog/src/lib.rs:2557-2573 | Sealing scans with recovery, which truncates a torn tail, then writes the manifest; what each failure leaves |
| `Rotation.SegmentWriter.Rotate` | crates/sb-bodylog/src/lib.rs:1752-1760 | The active segment is given up and sealed before the next is created; a failed seal leaves none |
| `Rotation.SegmentWriter.WriteFrame` | crates/sb-bodylog/src/lib.rs:1792-1801 | The frame, or the part of it written before a failure, is added to the active file; only a whole write moves the last-write time |
| `Rotation.SegmentWriter.WriteFresh` | crates/sb-bodylog/src/lib.rs:1781-1785 | After a size rotation the record is encoded again for its new path; if that fails the new segment is not active |
| `Rotation.SegmentWriter.AppendSegmentFrame` | crates/sb-bodylog/src/lib.rs:1735-1803 | The whole append, with every failure point, as a function of the writer; the invariant is kept |
| `Rotation.AppendLands` | crates/sb-bodylog/src/lib.rs:1735-1803 | A successful append ends with this body as the last frame of the active file in the chosen storage, and returns its compressed size |
| `Rotation.AppendGoesWhere` | crates/sb-bodylog/src/lib.rs:1735-1742 | With the archive available the file is in the archive, otherwise in the spool, and the record says so |
| `Rotation.AppendSucceeds` | crates/sb-bodylog/src/lib.rs:1735-1803 | From every state of a run whose active file is not torn, a record the encoder accepts is appended unless a step fails |
| `Rotation.RotationSucceeds` | crates/sb-bodylog/src/lib.rs:1752-1829 | A rotation seals the old file with all its frames and starts an empty one of the given storage and bucket under the next number |
| `Rotation.RotatesOnlyWhenNeeded` | crates/sb-bodylog/src/lib.rs:1746-1790 | A record of the active storage and bucket whose frame fits goes to the active file |
| `Rotation.RefusedByEncoder` | crates/sb-bodylog/src/lib.rs:1761-1785 | A refused record changes nothing; refused for a file just started for it, that file is given up |
| `Rotation.GivenSizesAreIgnored` | crates/sb-bodylog/src/lib.rs:813-852 | Hash, length and compressed size are the writer's own |
| `Rotation.LettingGoMeans` | crates/sb-bodylog/src/lib.rs:2557-2573 | Sealing and recovery mark exactly what a recovering scan could read and leave its bytes; a crash changes no file |
| `Rotation.IdleIsLetGo` | crates/sb-bodylog/src/lib.rs:723-745 | The active file is sealed exactly when its last write is at least the interval ago |
| `Rotation.AppendKeeps` | crates/sb-bodylog/src/lib.rs:1735-1803 | Any append with any faults, torn writes included, keeps every file bounded, in its bucket, and scanning as its history says |
| `Rotation.RotationBounds` | crates/sb-bodylog/src/lib.rs:1735-1829 | In every run each file holds one frame or at most 64 MiB, and all its records are of its bucket, day and directory |
| `Rotation.RunScans` | crates/sb-bodylog/src/lib.rs:1735-1803 | In every run: a file without its whole magic holds no frame and fails every scan; otherwise untorn and recovered files scan, with a torn write last recovery returns all frames, and with something behind it recovery fails or returns the frames before it unless a checksum matches by coincidence |
| `Rotation.CutMagicFails` | crates/sb-bodylog/src/lib.rs:2341-2354 | A file of fewer than eight bytes fails every scan, and sealing leaves it as it is |
| `Rotation.CutMagicIsReached` | crates/sb-bodylog/src/lib.rs:1844-1852 | One capture whose magic write is cut short leaves such a file |
| `Rotation.BuriedRecovers` | crates/sb-bodylog/src/lib.rs:2356-2418 | Exactly when recovery of a torn file returns all its frames |
| `Rotation.CarefulRunLosesNothing` | crates/sb-bodylog/src/lib.rs:1792-1801 | If no capture starts while the active file ends in a torn write, recovery of a file returns exactly the frames whose writes completed if and only if the file has its whole magic |
| `Rotation.CarelessWriteIsLost` | crates/sb-bodylog/src/lib.rs:1792-1801 | A write completed behind a tear is acknowledged, and every scan fails or returns only the frames before the tear, checksum coincidence apart |
| `Rotation.CarelessRetryLosesFile` | crates/sb-server/src/tap.rs:1045-1085 | A retry after one to three torn bytes is acknowledged, and no scan of the file succeeds any more |
| `Rotation.ReleasedStaysSame` | crates/sb-bodylog/src/lib.rs:2557-2573 | A file the writer has let go of never grows, keeps its bytes once recovered and everything once sealed |
| `IndexRecovery.BodyIndex.ReplayFile` | crates/sb-bodylog/src/lib.rs:1916-1950 | The frame loop: inserts until a duplicate id when rebuilding, reconciles otherwise; an id that was not indexed gets the record of its first frame, all columns, at this path |
| `IndexRecovery.BodyIndex.RecoverSegments` | crates/sb-bodylog/src/lib.rs:1862-1978 | The recovery loop over a listing, with locked, sealed and unsealed segments and partial effects on error; what it adds is said by `IndexRecovery.RecoveryAddsFrames` |
| `IndexRecovery.ReconcileKeeps` | crates/sb-bodylog/src/lib.rs:2930-2959 | Replaying frames never drops an event, changes an identity field or erases enrichment; other events stay as they are |
| `IndexRecovery.RecoveryAddsFrames` | crates/sb-bodylog/src/lib.rs:2930-2959 | Every event recovery adds is one of the frames in every column, at its file's path |
| `IndexRecovery.RecoveredRow` | crates/sb-bodylog/src/lib.rs:1892-1908 | The segment row recovery writes from a manifest: believed, except that one without body bytes leaves the row's; a rebuild counts the bodies |
| `IndexRecovery.InterruptedReplayResumes` | crates/sb-bodylog/src/lib.rs:2930-2959 | A replay stopped after any frame and started over ends where an uninterrupted one does |
| `IndexRecovery.InsertIsReconcile` | crates/sb-bodylog/src/lib.rs:1927-1930 | Plain inserts succeed exactly on new distinct ids and then equal reconciling |
| `IndexRecovery.RecoveryKeepsEvents` | crates/sb-bodylog/src/lib.rs:1862-1978 | The same over a whole recovery |
| `IndexRecovery.RecoveryIdempotent` | crates/sb-bodylog/src/lib.rs:1862-1978 | A second recovery changes no file and no row and ends the same way, whatever the first started from and even if it failed |
| `IndexRecovery.RecoveryCompletesIff` | crates/sb-bodylog/src/lib.rs:1886-1977 | With any files locked or unusable: recovery completes iff every unlocked file is usable, and makes a lagging index faithful iff no sealed file has an unindexed frame and no locked file is unprojected |
| `Startup.StartupCompletesIff` | crates/sb-bodylog/src/lib.rs:1862-1925 | Startup over everything on disk completes if and only if a recovering scan of every file no other writer holds succeeds |
| `Startup.CutMagicStopsStartup` | crates/sb-bodylog/src/lib.rs:1910-1915 | After a careful run it completes if and only if no such file had its magic cut short |
| `Startup.StartupAddsRecords` | crates/sb-bodylog/src/lib.rs:1862-1978 | End to end: every event startup adds is a record a recovering scan finds in a segment on disk, in each column, at that segment's path |
| `Startup.SealedIsBelieved` | crates/sb-bodylog/src/lib.rs:1892-1908 | A sealed segment adds no event |
| `IndexRecovery.RebuildIsFaithful` | crates/sb-bodylog/src/lib.rs:1862-1978 | A rebuild succeeds if and only if event ids are unique in the log, and then is faithful |
| `IndexRecovery.FaithfulIsUnique` | crates/sb-bodylog/src/lib.rs:2868-2900 | Faithful indexes of the same frames agree on events, identities, places and segment counts |
| `IndexRecovery.RunKeepsFaithful` | crates/sb-bodylog/src/lib.rs:813-852 | Every run of captures, enrichments, seals and drains keeps the index faithful |
| `IndexRecovery.RebuildMatchesIncremental` | crates/sb-bodylog/src/lib.rs:2961-3031 | After every such run a rebuild agrees with the incremental index on all identity fields and segment counts |
| `IndexRecovery.RebuildMatchesEveryColumn` | crates/sb-bodylog/src/lib.rs:1927-1930 | After every run without enrichment a rebuild agrees with the incremental index on every column of every event; compressed size only where the encoder settled |
| `IndexRecovery.OneLife` | crates/sb-bodylog/src/lib.rs:813-852 | In any store: opened, captured, enriched, sealed and drained, a capture's frame is in the file at the destination and its event there with its enrichment |
| `IndexRecovery.LostCommitIsRecovered` | crates/sb-bodylog/src/lib.rs:1916-1950 | A frame without its commit is brought back by the next recovery, in every column |
| `IndexRecovery.SealedLostCommitStaysLost` | crates/sb-bodylog/src/lib.rs:1892-1908 | Not when the writer sealed the segment first |
| `Drain.CaptureStore.CopyVerified` | crates/sb-bodylog/src/lib.rs:2655-2704 | Exactly when the copy is made or an equal file is there; otherwise everything is as it was |
| `Drain.CaptureStore.CopyManifestVerified` | crates/sb-bodylog/src/lib.rs:1464-1464 | The same for the manifest |
| `Drain.CaptureStore.PublishAndRemove` | crates/sb-bodylog/src/lib.rs:1466-1499 | The index transaction comes before the source and its manifest go; every row of the source becomes an archive row of the destination and no other row changes |
| `Drain.CaptureStore.DrainSegment` | crates/sb-bodylog/src/lib.rs:1430-1501 | The five durable writes of the step model, in their order; drained exactly when the source is sealed, free and has its checksum and the destination is free or equal; then the file, its manifest and all its rows have moved and nothing else changed |
| `Drain.StepKeeps` | crates/sb-bodylog/src/lib.rs:1430-1501 | Every step, magics and frames cut short, failed commits, careless retries and crashes included, keeps all index rows placed and all bodies not behind a tear findable |
| `Drain.EveryBodyStaysReadable` | crates/sb-bodylog/src/lib.rs:854-879 | After every step of every run a recorded hash not behind a tear reads back as its first body exactly while its file scans, and always after the file is recovered |
| `Drain.EveryEventStaysPlaced` | crates/sb-bodylog/src/lib.rs:1466-1499 | Over every run the event table has exactly the committed ids, each at a file that exists and whose clean part holds the body committed under it, unless it was written behind a tear |
| `Drain.RowsStayUnlessDrained` | crates/sb-bodylog/src/lib.rs:1466-1499 | No step drops a row, and only a drain moves one, from its source to its destination |
| `Drain.CommitIndexes` | crates/sb-bodylog/src/lib.rs:813-852 | A commit indexes its event, its hash if new, and its segment |
| `Drain.SealingLeaves` | crates/sb-bodylog/src/lib.rs:2557-2573 | Sealing leaves what a recovering scan leaves, with a manifest of exactly that |
| `Drain.OpeningLeaves` | crates/sb-bodylog/src/lib.rs:1831-1860 | A new segment is empty and active; one cut short is left without a writer |
| `Drain.AbandonedStaysInFile` | crates/sb-bodylog/src/lib.rs:813-852 | A frame whose commit is given up stays in its file without a row |
| `Drain.TornWriteHidesBodies` | crates/sb-bodylog/src/lib.rs:2428-2435 | From every state: a torn write and a crash make all bodies of the segment unreadable until recovery seals it |
| `Drain.FirstCommit` | crates/sb-bodylog/src/lib.rs:813-852 | Such a state is reached by one capture |
| `Drain.CarefulRunLosesNothing` | crates/sb-bodylog/src/lib.rs:1792-1801 | If no frame is appended to a torn file, recovery succeeds on every segment with a whole magic, every event's file holds its body and every committed hash then reads back; it fails on every segment without one, and no row refers to those |
| `Drain.CarelessCommitIsLost` | crates/sb-server/src/tap.rs:1045-1085 | A body appended to a torn segment and committed is recorded and cannot be read, before or after the segment is recovered, if recovery returns no more than the clean part |
| `Drain.SegmentCarelessCommitIsLost` | crates/sb-bodylog/src/lib.rs:2356-2435 | For the real format that is so unless the bytes behind the tear carry a valid checksum |
| `Drain.StubIsMismatch` | crates/sb-bodylog/src/lib.rs:2655-2704 | A segment with a cut magic at a drain destination never has the source's checksum |
| `Drain.NoDanglingRows` | crates/sb-bodylog/src/lib.rs:1430-1501 | No row of any table names a missing segment |
| `Drain.HistoryStays` | crates/sb-bodylog/src/lib.rs:813-852 | What was committed under a hash or as an event never changes |
| `Drain.CopySegmentKeeps` | crates/sb-bodylog/src/lib.rs:2651-2704 | The verified copy, with an absent, equal or different destination, keeps the invariant |
| `Drain.SegmentFormatIsLawful` | crates/sb-bodylog/src/lib.rs:2295-2435 | The real segment format satisfies every law the drain proof assumes, of whole, torn and recovered files |
| `Drain.SegmentEnvReadsSegments` | crates/sb-bodylog/src/lib.rs:2428-2435 | The format the drain works on reads and recovers as the segment scanner does |
| `Gc.Tables.CollectCandidateDays` | crates/sb-bodylog/src/lib.rs:1224-1261 | A day is a candidate exactly if it starts below the cutoff, has no directory and is not before the oldest event |
| `Gc.Tables.DayIsGated` | crates/sb-bodylog/src/lib.rs:1275-1306 | True exactly if some checksummed segment covers the day and all such are in the receipts |
| `Gc.Tables.FilterReceiptGated` | crates/sb-bodylog/src/lib.rs:1269-1310 | Keeps exactly the gated candidates |
| `Gc.Tables.DeleteBatch` | crates/sb-bodylog/src/lib.rs:1322-1334 | One limited delete removes only matching rows, at most the limit, and all when it comes back short |
| `Gc.Tables.DeleteDay` | crates/sb-bodylog/src/lib.rs:1320-1342 | The batch loop ends and removes exactly the day's non-spool events |
| `Gc.Tables.DeleteCandidateEvents` | crates/sb-bodylog/src/lib.rs:1312-1345 | For every batch size and order of days the deletes equal one filter, and the count is right |
| `Gc.Tables.DeleteIfOrphan` | crates/sb-bodylog/src/lib.rs:1376-1396 | A row goes exactly if it is an archive row of a chosen day that no surviving event refers to |
| `Gc.Tables.DeleteWindow` | crates/sb-bodylog/src/lib.rs:1360-1396 | One rowid window deletes exactly its doomed rows |
| `Gc.Tables.DeleteCandidateBlobs` | crates/sb-bodylog/src/lib.rs:1347-1402 | All windows together equal one filter |
| `Gc.WindowsEndIff` | crates/sb-bodylog/src/lib.rs:1358-1362 | The window loop ends exactly for batch sizes and rowids below the signed limit |
| `Gc.Collect` | crates/sb-bodylog/src/lib.rs:1160-1216 | Confirmed collection applies both filters for exactly the forgotten days; refusal, dry run and drain-only change nothing |
| `Gc.RecentDaysAreKept` | crates/sb-bodylog/src/lib.rs:3290-3292 | No event of the last `keep_days` days is ever forgotten |
| `Gc.OlderDaysAreCandidates` | crates/sb-bodylog/src/lib.rs:1224-1261 | Every whole day before those is a candidate unless its directory is there or no event is as old |
| `Gc.SurvivorsAre` | crates/sb-bodylog/src/lib.rs:1312-1402 | Which event and blob rows survive, by storage name, day and reference |
| `Gc.SurvivorsKeepBlobs` | crates/sb-bodylog/src/lib.rs:1383-1392 | No surviving event loses its blob row |
| `Gc.CollectionIdempotent` | crates/sb-bodylog/src/lib.rs:1312-1402 | Collecting the same days again deletes nothing |
| `Gc.SegmentCoversItsDayOnly` | crates/sb-bodylog/src/lib.rs:1281-1288 | A segment of one day covers that day and no other |
| `Gc.ForgottenDayBackedIff` | crates/sb-bodylog/src/lib.rs:1269-1310 | All segments covering a released day are in the receipts if and only if none is unsealed |
| `Gc.UnsealedSegmentIsPassedOver` | crates/sb-bodylog/src/lib.rs:1281-1288 | An unsealed segment does not hold its day back |
| `Custody.CustodyStore.RegisterOwner` | crates/sb-bodylog/src/custody.rs:80-111 | What is written for each record found, and every refusal |
| `Custody.CustodyStore.PrepareDrain` | crates/sb-bodylog/src/custody.rs:113-133 | Drain needs complete exclusive custody; the destination inherits it or must already have it; what that protects is `CustodyRuns.RemovalIsExclusive` |
| `Custody.RegisteredOwners` | crates/sb-bodylog/src/custody.rs:80-111 | Registration adds exactly one owner and never changes completeness |
| `Custody.RegistrationRefusedIff` | crates/sb-bodylog/src/custody.rs:80-111 | Exactly when registration is refused: an invalid record, a new segment that has one, or 64 other owners |
| `Custody.RegistrationIsReadable` | crates/sb-bodylog/src/custody.rs:80-111 | A record it writes is sorted, without duplicates, and readable |
| `Custody.DrainAllowedIff` | crates/sb-bodylog/src/custody.rs:113-133 | Exactly when a drain is allowed: a complete record of this directory alone, and a destination that is absent or completely in its custody |
| `CustodyRuns.StepKeepsInv` | crates/sb-bodylog/src/lib.rs:1831-1860 | Every read, write, lock, failure and crash of any process keeps custody sound and monotone |
| `CustodyRuns.CompleteNamesEveryProjector` | crates/sb-bodylog/src/custody.rs:79-133 | Over every interleaving a complete record names every directory that ever projected the segment |
| `CustodyRuns.RemovalIsExclusive` | crates/sb-bodylog/src/custody.rs:113-133 | Over every interleaving, a process about to remove a drained segment is the only one whose directory ever projected it, and the copy is there, projected, in its complete custody |
| `CustodyRuns.OnlyDrainsRemove` | crates/sb-bodylog/src/lib.rs:1490-1499 | No other step removes a segment file |
| `CustodyRuns.CreationGetsThrough` | crates/sb-bodylog/src/lib.rs:1831-1860 | Undisturbed, a creation ends with the file, a complete record of its creator alone, and its row |
| `CustodyRuns.RecoveryGetsThrough` | crates/sb-bodylog/src/custody.rs:80-111 | Undisturbed, a recovery projects the segment and is named by its record, which is complete only if it was |
| `CustodyRuns.DrainGetsThrough` | crates/sb-bodylog/src/lib.rs:1430-1501 | Undisturbed, a drain under exclusive custody puts the copy, its record and its row in the source's place |
| `CustodyRuns.FailureReleases` | crates/sb-bodylog/src/custody.rs:80-133 | A failure or crash changes nothing on disk and frees every lock |
| `CustodyRuns.CustodyOnlyGrows` | crates/sb-bodylog/src/custody.rs:79-133 | Owner sets only grow and completeness is never regained |
| `Backup.CollectIsFresh` | crates/sb-bodylog/src/backup.rs:180-232 | No hash is planned twice or again |
| `Backup.PlanIsFresh` | crates/sb-bodylog/src/backup.rs:167-243 | A plan's hashes are distinct and disjoint from everything proved |
| `Backup.PlanIsExact` | crates/sb-bodylog/src/backup.rs:167-243 | A plan holds exactly one item for each sealed manifest beside a row no receipt proves whose hash is not proved, with that row's path and that manifest's checksum |
| `Backup.CollectOkIff` | crates/sb-bodylog/src/backup.rs:180-232 | Exactly when the pending segments can be planned: times present and no hash twice |
| `Backup.RefreshExact` | crates/sb-bodylog/src/backup.rs:805-867 | Planning fails exactly on a row with a faulty manifest; otherwise each unproved row with a sealed manifest takes its hash, seal and bytes from it, and no other row changes |
| `Backup.FaultsAreNamed` | crates/sb-bodylog/src/backup.rs:805-867 | Which fault it reports |
| `Backup.PlanIsRepeatable` | crates/sb-bodylog/src/backup.rs:167-243 | A second plan is the same plan |
| `Backup.AcceptedIff` | crates/sb-bodylog/src/backup.rs:508-605 | A receipt is accepted exactly when it is well formed, not empty, repeats no hash, proves every item, continues the generation and names exactly the plan's segments with their manifests |
| `Backup.ExactSetRefusalIff` | crates/sb-bodylog/src/backup.rs:508-605 | Exactly when the refusal is the one that makes the agent plan again |
| `Backup.CompleteAcceptanceIs` | crates/sb-bodylog/src/backup.rs:607-631 | A complete acceptance stores the receipt, makes it the latest and proves exactly the plan's hashes under its generation |
| `Backup.AcceptanceLeavesNothing` | crates/sb-bodylog/src/backup.rs:508-631 | After a complete acceptance every sealed segment is proved |
| `Backup.NextPlanIsEmpty` | crates/sb-bodylog/src/backup.rs:167-243 | The next plan is then of the next generation and empty |
| `Backup.BackupStore.LatestGeneration` | crates/sb-bodylog/src/backup.rs:869-885 | The largest generation in the projection |
| `Backup.BackupStore.BackupPlan` | crates/sb-bodylog/src/backup.rs:167-243 | The plan and the rows that catch up with manifests, as a function of the store; what is in it is `Backup.PlanIsExact` |
| `Backup.BackupStore.AcceptBackupReceipt` | crates/sb-bodylog/src/backup.rs:508-631 | All refusals, and the three durable writes stopped after any of them |
| `Backup.BackupStore.Reopen` | crates/sb-bodylog/src/backup.rs:924-967 | Startup reconciles the latest receipt, then rebuilds the projection if it is behind |
| `Backup.AcceptKeepsWeak` | crates/sb-bodylog/src/backup.rs:607-631 | Any receipt, stopped after any write, leaves a gapless partition with the projection at most one behind |
| `Backup.HighestIsLast` | crates/sb-bodylog/src/backup.rs:924-967 | The latest receipt is the highest, whatever order the directory is read in |
| `Backup.HighestOfNonEmpty` | crates/sb-bodylog/src/backup.rs:924-967 | Of any receipts, startup takes one of the highest generation among those that are not empty |
| `Backup.RebuildTakesHighest` | crates/sb-bodylog/src/backup.rs:647-696 | For any receipts in any order a rebuilt projection gives each hash the highest generation that proves it |
| `Backup.StartupRepairs` | crates/sb-bodylog/src/backup.rs:647-696 | However far the projection is behind, startup restores the latest receipt and the union of all receipts |
| `Backup.GenerationsPartition` | crates/sb-bodylog/src/backup.rs:508-605 | Over every run generations are 1, 2, 3, ..., no hash is in two receipts, and the latest receipt is one that is stored |
| `Backup.RestartAlwaysRepairs` | crates/sb-bodylog/src/lib.rs:410-450 | A restart at any point of any run, with its index or after losing it, restores consistency |
| `Backup.AcceptanceLowersUnbacked` | crates/sb-bodylog/src/backup.rs:633-645 | Acceptance lowers unbacked bytes, as corrected by the manifests read, by exactly the accepted bodies and second copies the plan discovers; rows in step with their manifests need no correction |
| `Transfer.SameSegmentSetIsSetEquality` | cli/switchback-capture-backup.ts:588-596 | Between plans without duplicates the comparison is set equality |
| `Transfer.ComparisonSoundIff` | cli/switchback-capture-backup.ts:588-596 | A plan is accepted only against equal sets if and only if it has no duplicates itself |
| `Transfer.DuplicatesFoolTheComparison` | cli/switchback-capture-backup.ts:588-596 | With duplicates it accepts different sets |
| `Transfer.TransferMissing` | cli/switchback-capture-backup.ts:657-664 | Each hash is transferred at most once per call and every planned hash gets its own proof; it fails only on a segment that cannot be reached |
| `Transfer.OfferPlan` | cli/switchback-capture-backup.ts:673-729 | An accepted offer stored exactly the plan's set; the accepting command may be stopped after any of its writes; undisturbed, an offer of the store's own plan is accepted |
| `Transfer.TakeLargerPlan` | cli/switchback-capture-backup.ts:700-729 | A refusal is retried only with a larger plan of the same generation that contains this one, and, undisturbed, always with such a plan |
| `Transfer.TransferAndAccept` | cli/switchback-capture-backup.ts:648-735 | Within eight passes, whatever others do meanwhile: a success stored exactly the planned set, every hash verified by this call; every step is one the ledger laws cover; undisturbed and with everything reachable, the first pass succeeds with the plan it was given |
| `Pressure.GatesImplyTrigger` | crates/sb-bodylog/src/pressure.rs:366-423 | Passing all resume gates always counts as a healthy cycle |
| `Pressure.EvaluationIsCoherent` | crates/sb-bodylog/src/pressure.rs:310-447 | From any persisted state: probe iff one cycle, reasons empty iff full-wire, metadata-only names a severe reason or a blocker |
| `Pressure.DegradesIff` | crates/sb-bodylog/src/pressure.rs:296-353 | From any state an evaluation degrades, with exactly these reasons, if and only if the backup is over a day old with bytes waiting or missing though seen, free space is below 50 GB or 8 %, or over 50 GB are unbacked |
| `Pressure.FullWireUnlessDegraded` | crates/sb-bodylog/src/pressure.rs:334-447 | A full-wire controller leaves full-wire only then, and a store never backed up is full-wire otherwise |
| `Pressure.SpaceIsLowBelowEightPercent` | crates/sb-bodylog/src/pressure.rs:663-668 | What the ratio test means in bytes |
| `Pressure.HealsIff` | crates/sb-bodylog/src/pressure.rs:355-440 | What healing does with and without blockers, and which blockers there are, in bytes and milliseconds |
| `Pressure.EvaluationKeepsCounters` | crates/sb-bodylog/src/pressure.rs:440-460 | An evaluation moves no counter, and the generation only up |
| `Pressure.WarningsAre` | crates/sb-bodylog/src/pressure.rs:324-332 | The warnings of an observation |
| `Pressure.NoOscillation` | crates/sb-bodylog/src/pressure.rs:296-447 | Repeating one observation, the mode is constant from the second evaluation on |
| `Pressure.CleanRunResumes` | crates/sb-bodylog/src/pressure.rs:296-447 | With nothing unbacked a run is full-wire within two evaluations, however old the backup |
| `Pressure.OverdueNeverResumes` | crates/sb-bodylog/src/pressure.rs:296-447 | A degraded run with waiting data and an old receipt never resumes |
| `Pressure.DeadBandIs` | crates/sb-bodylog/src/pressure.rs:663-684 | The free values that neither degrade nor resume, for every capacity, saturation included |
| `Pressure.DeadBandExistsIff` | crates/sb-bodylog/src/pressure.rs:663-684 | Such a value exists exactly when the degrade floor is below the resume ceiling |
| `PressureShared.PressureController.HealMode` | crates/sb-bodylog/src/pressure.rs:355-440 | The healing branch as specified |
| `PressureShared.PressureController.DecideMode` | crates/sb-bodylog/src/pressure.rs:334-447 | The choice among degrading, a fresh install, healing and staying full-wire; when it degrades is `Pressure.DegradesIff` |
| `PressureShared.PressureController.Evaluate` | crates/sb-bodylog/src/pressure.rs:288-526 | Reload, decide, and write the shared file only when something must be published; an error exactly when that write fails; the decision is the one `Pressure.DegradesIff` and `Pressure.HealsIff` describe |
| `PressureShared.PressureController.MarkWriterFailure` | crates/sb-bodylog/src/pressure.rs:528-545 | A writer failure degrades and counts, on the reloaded state |
| `PressureShared.PressureController.NoteQueueDrop` | crates/sb-bodylog/src/pressure.rs:599-607 | A drop is counted on the reloaded state and nothing else changes |
| `PressureShared.PressureController.ReconcileUnbackedBytes` | crates/sb-bodylog/src/pressure.rs:552-566 | The published unbacked bytes are replaced |
| `PressureShared.PressureController.NoteFullCapture` | crates/sb-bodylog/src/pressure.rs:547-550 | A capture moves only the process's own copy |
| `PressureShared.NoLostUpdate` | crates/sb-bodylog/src/pressure.rs:288-295 | For every interleaving the file's decision is that of one controller run in lock order over the calls whose write did not fail, which starts over exactly when a read fails |
| `PressureShared.CountersCountAllCalls` | crates/sb-bodylog/src/pressure.rs:528-545 | Failure and drop counters count every call whose write did not fail, up to saturation, since the start or the last read that failed |
| `PressureShared.GenerationOnlyRises` | crates/sb-bodylog/src/pressure.rs:516-526 | The backup generation never goes back unless a failed read is written back |
| `PressureShared.FailedReadForgets` | crates/sb-bodylog/src/pressure.rs:779-785 | Such a read sets counters and generation back |
| `PressureShared.UnreadableIsReplaced` | crates/sb-bodylog/src/pressure.rs:516-526 | Every operation that could not read the file writes it back |
| `PressureShared.SkippedWriteIsClose` | crates/sb-bodylog/src/pressure.rs:516-526 | A skipped write leaves unbacked bytes exact, or off by under 64 MiB and under a minute old |
| `PressureShared.QuietEvaluationSkipsWrite` | crates/sb-bodylog/src/pressure.rs:516-526 | An evaluation that changes nothing does not write |
| `PressureShared.WriterFailureDegrades` | crates/sb-bodylog/src/pressure.rs:528-545 | A writer failure leaves metadata-only with its reason and moves no other counter |
| `PressureShared.BookkeepingKeepsDecision` | crates/sb-bodylog/src/pressure.rs:552-607 | Drops and reconciliation leave the decision alone |
| `PressureShared.StateFileDecidesStart` | crates/sb-bodylog/src/pressure.rs:763-786 | No state file means full-wire with nothing counted; an invalid or unreadable one means metadata-only with that reason |
| `PressureShared.CaptureMovesOwnCopy` | crates/sb-bodylog/src/pressure.rs:547-550 | A capture adds its bytes to the process's own copy, up to saturation, and to nothing else |
| `EngineUpgrade.Owner.WriteTargets` | cli/capture-engine.py:34-43 | Targets are written in order until one fails |
| `EngineUpgrade.WriteAllOkIff` | cli/capture-engine.py:34-43 | The writes succeed exactly without a fault and without an unfinished write beside a target |
| `EngineUpgrade.RollbackRestores` | cli/capture-engine.py:234-242 | After any single fault and any stale temporary files, writing back in the same order restores every file, even when it stops early |
| `EngineUpgrade.WriteAllExact` | cli/capture-engine.py:34-43 | Which targets a sequence of writes replaces and which temporary file it leaves, from its inputs alone |
| `EngineUpgrade.RollbackExact` | cli/capture-engine.py:234-242 | With a fault in the writes and one in the rollback: exactly the targets the writes reached and the rollback did not stay new |
| `EngineUpgrade.LeftNothingIff` | cli/capture-engine.py:234-242 | So everything is restored if and only if the rollback gets as far as the writes did |
| `EngineUpgrade.TwoFaultsLeaveMix` | cli/capture-engine.py:234-242 | Two faults can leave old and new files side by side |
| `EngineUpgrade.ReverseRollbackLeavesNewFile` | cli/capture-engine.py:234-242 | Restoring in the opposite order does not |
| `EngineUpgrade.Owner.Upgrade` | cli/capture-engine.py:197-246 | Stop, write, start and roll back, as a function of the disk and the faults |
| `EngineUpgrade.Owner.RollBack` | cli/capture-engine.py:234-246 | The originals are written back in order, then the service is started |
| `EngineUpgrade.Owner.ApplyLocked` | cli/capture-engine.py:197-246 | Exactly when the new engine becomes live; then all targets are new. Otherwise exactly which targets are new, all are old if and only if the rollback gets as far as the writes did, and the last thing tried is a start, twice when the first after a rollback fails. No file is written while the service is up |

## Left out

- Legacy artifacts: the pre-segment backup, `record_legacy_at` and the frozen JSONL sink run parallel to the segment protocol with weaker guarantees.
- Reclaim of backed spool segments (`reclaim.rs`), compaction, audit and denial records, and the gateway's routing, adapters, signers and HTTP clients.
- Internals of SHA-256, CRC-32, zstd, JSON, SQLite and the calendar; transactions and private atomic writes are single steps, without torn temporary files in the receipts directory.
- Permissions, symlinks, `flock`, `statvfs`, `lsof`, `launchctl`, `ssh` and `rsync`: only lock ownership, observed numbers and success or failure of a step are kept.
- Error texts beyond the ones the code branches on; sums of body bytes are unbounded where the source saturates at `u64`.
- i64 overflow: times within one day or bucket of the smallest `i64`, and a `keep_days` so large that the cutoff overflows.
- Sse.SseOutputIgnoresChunking: stated for ASCII text, because a multi-byte character cut by a chunk boundary is replaced by lossy decoding, and for streams within the 1 MiB guard, which looks at each push.
- Downlevel.RewriteIdempotent: the in-place rewrite is modelled on values, so aliasing inside the schema is not captured; arrays are not entered, as in the source.
- Responses.ResponsesDecoder.DecodeFrame: text, reasoning, citations, images and server tools are opaque labels.
- Backup: `verified_through_day`, the sort order of plan items, completion times, schema and remote path checks are one `wellFormed` flag; the read-only legacy index mode is not modelled.
- Transfer.TransferAndAccept: a transfer either yields a verified item or fails; the steps of one remote copy are not modelled, nor is the confirmation message printed by the accepting command.
- Drain.EveryBodyStaysReadable: assumes no two bodies share a SHA-256; nothing is claimed of hashes whose only frame was written behind a tear; recovery appears as the sealing of one file, not as the whole startup sequence, and deletion of archive days by others is not a step.
- IndexRecovery.RebuildMatchesIncremental: covers events and segment rows; the blob table and the first and last times of a segment row are not modelled. Enrichment made after a frame was written is not in the frame, so `IndexRecovery.RebuildMatchesEveryColumn` is about runs without it.
- IndexRecovery.BodyIndex.RecoverSegments: an unusable custody record, manifest or segment is one condition, a path found that is not among the usable files; `Startup.dfy` derives it from the segment scan, the other two are not derived.
- Rotation.RunScans: the bytes at a torn write that something follows may carry a valid checksum by coincidence; what a scan then returns is not said.
- Gc.Tables.DeleteCandidateBlobs: requires the batch and rowids for which `Gc.WindowsEndIff` shows that the loop ends, since it does not end for others; rows with negative rowids, which SQLite assigns only on request, are never visited.
- Gc.Collect: the spool drain it ends with is modelled in `Drain.dfy`; the list of candidate days in its report is not modelled.
- Pressure: queue gauges, metadata-only counters and the choice among several filesystems; the resume properties are about one filesystem.
- Custody.CustodyStore.RegisterOwner: size, type, schema, segment name and owner path form of a record are one `wellFormed` flag; canonicalisation of directories is not modelled.
- EngineUpgrade.Owner.ApplyLocked: at most two faults; the work reservation and the reads between the writes are steps that may fail.
