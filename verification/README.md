# Verified model of the log, stream, text, glob, backup, index and command cores

This project models seven cores of the repository in Dafny and proves their laws for all inputs.

- **MiniDb's log codec** (`Bytes`, `Crc32`, `FrameCodec`, `Recovery`, `SyncScan`, `AsyncScan`,
  `WindowedRecovery`, `ReopenedLog`, `ResyncBudget`, `FrameStream`, `Batch`). One reference scan, a
  list of good and bad stretches of the file, is what every reader is proved against: the in-memory
  parser and the positioned scanner always report it, the sliding-window scanner does under an exact
  condition, and the chunk-fed parser yields exactly the frames written for every chunking. Whether
  a log truncated by recovery is found the same again is settled for the scanner recovery runs, and
  what its budget counts is said in terms of the magics in the file. The checksum is CRC-32 of IEEE
  802.3 and proved to catch every change confined to four consecutive bytes.
- **The language model stream assembler** (`Assembler`). Conservation and one part for each run for
  every stream, and routing of interleaved argument fragments for every well-formed one.
- **Chunked text and UTF-8** (`Lines`, `TextIO`, `Utf8`). Every chunked reader equals a whole-file
  definition; UTF-8 is the grammar of section 4 of RFC 3629.
- **Glob walks** (`Glob`, `RemoteGlob`). Termination, soundness and completeness on cyclic graphs,
  how often each path is yielded, and agreement with the walk over SFTP on trees.
- **Online backup** (`BackupGate`, `BackupProgress`, `BackupCopy`). The write fence as a state
  machine over all runs, and the copy with a failure possible at every operation.
- **The datetime index** (`SortedPairs`, `DtIndex`). Incremental maintenance against a plain table.
- **Remote commands** (`Shell`). Quoting against a tokenizer after sections 2.2 and 2.3 of the Shell
  Command Language of IEEE Std 1003.1.

Code that changes things in place is a class or a method with loops, proved against a function over
values; the laws are lemmas about those functions. The two protocols of the backup are a state
machine over its steps and a disk that records every state it was in.

Where the code and its own comments differ, the model follows the code:

- The windowed scanner's comment says that it matches the positioned scan exactly
  (`packages/minidb/src/codec.ts:622`). It does in strict mode; when resynchronising it steps over
  the last byte of a window that shows no magic (`AsyncScan.ScansAgreeIff`,
  `AsyncScan.StraddlingFrameIsMissed`).
- Recovery truncates a log at the eofOffset of the windowed scan
  (`packages/minidb/src/recovery.ts:433-447`). In resync mode the truncation itself can change where
  the windows of a later open fall: a damaged header that announced a frame up to the old end of the
  file no longer makes the scanner move its window, and a record that the first open served can be
  stepped over and truncated away by the second (`ReopenedLog.SecondOpenMissesIt`,
  `ReopenedLog.ReopenedLogs`). `WindowedRecovery.WindowedRecoveryIsStableIff` gives the exact
  condition, and `WindowedRecovery.StableUnlessAHeaderOverruns` shows that only such a header can
  bring it about.
- `backup()` assumes that no compaction can start while the gate is closed
  (`packages/minidb/src/backup.ts:81-83`). Nothing holds back the compaction that a second
  `backup()` runs before it pauses the gate (line 64), a direct call of `compact()`, or one the
  maintenance scheduler has queued (`BackupGate.BackupCanLoseAWrite`).
- `compaction.ts` takes the log's tail to repair whatever a fuzzy snapshot holds
  (`packages/minidb/src/compaction.ts:16-21`). It does not repair a write that is collected and whose
  flush then fails: recovery cuts it off the log, the snapshot keeps it, and the acknowledged write
  it overwrote is rotated away (`BackupGate.FailedWriteCanReplaceAnAcknowledgedOne`).
  `BackupGate.BackupHoldsItsFence` gives the exact condition on the two files copied, and
  `BackupGate.CarefulCompactionsAreHarmless` proves the promise for runs that avoid both.
- Frames and batch bodies re-encode byte for byte only when each expireAt is exactly a double and,
  for frames, the unvalidated flags byte is 0 (`FrameCodec.ReadThenEncode`, `Batch.DecodeThenEncode`).
- A range scan given both `gte` and `gt` (forwards), or both `lte` and `lt` (backwards), does not
  honour both (`SortedPairs.RangeIsAsked`).
- The sweep deletes an aside that a crash between the two renames left as the only copy of the
  previous backup (`BackupCopy.SweepKeepsOnlyTheDestination`), so crash safety is one run's.
- A line range with `maxLines` of 0 or less still yields a line (`TextIO.ReadUtf8Lines`).
- A command name such as `A=b`, `if` or `foo:` needs no quotes to `shellQuote`, and the shell takes it for an
  assignment or a reserved word (`Shell.RunsTheCommandIff`).
- A generation that is cleaned up while it is copied leaves a part of itself in the backup, unlisted
  (`BackupCopy.NothingElseUnlessVanished`).

## Model

| member | source | states |
|---|---|---|
| `Crc32.CrcStreams` | packages/minidb/src/crc32.ts:25-39 | continuing a checksum over a second slice gives the checksum of the two slices together, for every split |
| `Crc32.TableStepIsByteStep` | packages/minidb/src/crc32.ts:13-37 | one table lookup and shift does to any 32-bit register what eight bits of polynomial division do |
| `Crc32.TableEntry` | packages/minidb/src/crc32.ts:15-21 | one entry of the table: eight bits of division of its index |
| `Crc32.BuildTable` | packages/minidb/src/crc32.ts:13-23 | the table has 256 entries and each is the right one |
| `Crc32.Checksummer.Crc32` | packages/minidb/src/crc32.ts:32-39 | the table-driven loop, with the table built on the first call and kept, returns the bit-by-bit checksum, which `CheckValue` identifies, for every input and previous value |
| `Crc32.CheckValue` | packages/minidb/src/crc32.ts:3-10 | the checksum is CRC-32 of IEEE 802.3: of the nine bytes of "123456789" it is 0xcbf43926, the published check value |
| `Crc32.RegisterConcat` | packages/minidb/src/crc32.ts:34-37 | the register after a concatenation is the register after the second part, started from the one after the first |
| `Crc32.RegisterInjective` | packages/minidb/src/crc32.ts:34-37 | for any fixed bytes, different registers before give different registers after |
| `Crc32.RegisterWord` | packages/minidb/src/crc32.ts:34-37 | four bytes in a row act as one 32-bit word folded into the register |
| `Crc32.FourByteBurst` | packages/minidb/src/crc32.ts:34-37 | two different four-byte strings never take a register to the same register |
| `Crc32.BurstDetected` | packages/minidb/src/crc32.ts:32-39 | two inputs of one length that differ only within four consecutive bytes have different checksums |
| `Crc32.CrcBytesRoundTrip` | packages/minidb/src/codec.ts:141-142 | reading the stored checksum bytes gives back the checksum they were written from |
| `Crc32.ChecksumMatchesIff` | packages/minidb/src/codec.ts:303-305 | a stored checksum equals the computed one if and only if the register, run on over the stored bytes, ends in one fixed residue |
| `Bytes.LERoundTrip` | packages/minidb/src/codec.ts:132-134 | little-endian writing then reading gives the number back |
| `Bytes.FromLERoundTrip` | packages/minidb/src/codec.ts:296-298 | little-endian reading then writing gives the bytes back |
| `Bytes.LEDigit` | packages/minidb/src/codec.ts:132-134 | the j-th byte written is the j-th digit of the number to the base 256, from the lowest |
| `Bytes.Int64RoundTrip` | packages/minidb/src/codec.ts:135 | two's-complement writing then reading gives the integer back |
| `Bytes.FromInt64RoundTrip` | packages/minidb/src/codec.ts:307 | two's-complement reading then writing gives the eight bytes back |
| `Bytes.SmallIntegersAreExact` | packages/minidb/src/codec.ts:307 | Number() of an integer up to 2^53 in magnitude is that integer |
| `Bytes.FirstInexact` | packages/minidb/src/codec.ts:307 | Number() of 2^53 + 1 is 2^53 |
| `Bytes.NumberIsNearestDouble` | packages/minidb/src/codec.ts:307 | for every integer, no integer of at most 53 bits times a power of two is nearer than what Number() gives |
| `Bytes.NumberIsDouble` | packages/minidb/src/codec.ts:307 | and that is one itself, of two equally near the one that is even |
| `FrameCodec.EncodeFrame` | packages/minidb/src/codec.ts:110-144 | the buffer written at a moving offset is the frame layout of the record, or the error the source throws, check by check |
| `FrameCodec.HeaderBytes` | packages/minidb/src/codec.ts:5-14 | the header of every frame byte by byte: magic, type, flags, the three lengths and the expireAt bytes at their offsets |
| `FrameCodec.PayloadBytes` | packages/minidb/src/codec.ts:15-18 | then key, value and meta bytes, and the checksum of everything between the magic and itself |
| `FrameCodec.ReadsLayout` | packages/minidb/src/codec.ts:293-323 | a laid-out frame is read back as its record, whatever bytes stand before and after it |
| `FrameCodec.ReadIsLayout` | packages/minidb/src/codec.ts:293-323 | whatever the reader accepts is a laid-out frame standing there byte for byte |
| `FrameCodec.ValidEndsInResidue` | packages/minidb/src/codec.ts:293-305 | a frame is accepted exactly when its header holds up and the register over all bytes after the magic ends in the residue |
| `FrameCodec.DamageDetected` | packages/minidb/src/codec.ts:293-305 | no change confined to four consecutive bytes of a frame, its ten length bytes aside, is accepted by the reader |
| `FrameCodec.EncodeThenRead` | packages/minidb/src/codec.ts:110-144 | reading inverts encoding: absent and empty meta both come back absent, an absent value as an empty one, expireAt as the nearest double |
| `FrameCodec.ReadThenEncode` | packages/minidb/src/codec.ts:293-323 | encoding what was read gives the same bytes if and only if the flags byte is 0 and expireAt is exactly a double |
| `FrameCodec.RewritesOtherwise` | packages/minidb/src/codec.ts:129-135 | every frame with another flags byte, or an expireAt that is no double, is rewritten to other bytes |
| `FrameCodec.RewrittenFramesDiffer` | packages/minidb/src/codec.ts:129-135 | two such frames: a flags byte of 1, and an expireAt of 2^53 + 1 |
| `Recovery.ScanTiles` | packages/minidb/src/codec.ts:809-849 | frames and corrupt ranges tile the scanned bytes with no gap or overlap, and every frame reported validates where it is reported |
| `Recovery.ResyncSkipsNothing` | packages/minidb/src/codec.ts:829-843 | the search after a bad stretch passes over no valid frame unless its budget runs out |
| `Recovery.ResyncLosesNothing` | packages/minidb/src/codec.ts:809-849 | when the budget is not exhausted no valid frame starts anywhere inside a corrupt range |
| `Recovery.NotExhaustedIsUnlimited` | packages/minidb/src/codec.ts:446-461 | a budget that is not exhausted gives exactly the scan an unlimited one gives |
| `Recovery.BudgetCostsOnlyFramesLost` | packages/minidb/src/codec.ts:446-461 | exhausted or not, a budget gives the scan an unlimited one gives if and only if no valid frame starts inside what it reports as corrupt |
| `Recovery.EnoughBudget` | packages/minidb/src/codec.ts:446-461 | one search with more candidates left than bytes to scan finds what a search without a budget finds |
| `Recovery.BudgetPerByteSuffices` | packages/minidb/src/codec.ts:446-461 | one candidate per byte is a budget that is never exhausted |
| `Recovery.EofIsLastFrameEnd` | packages/minidb/src/codec.ts:464 | eofOffset is the end of the last frame reported, or the start offset when there is none |
| `Recovery.FrameIsLocal` | packages/minidb/src/codec.ts:293-305 | whether a complete frame is valid depends on its own bytes only, so growing the file changes nothing about it |
| `Recovery.RecoveryIsStable` | packages/minidb/src/codec.ts:419-465 | scanning the file cut at eofOffset finds the same stretches without the corrupt tail, and eofOffset is then the file size |
| `Recovery.RecoveryReportsAreStable` | packages/minidb/src/codec.ts:809-849 | the same in terms of the frames, corrupt ranges and eofOffset reported |
| `Recovery.StrictScansAreUndamaged` | packages/minidb/src/codec.ts:441-444 | a strict scan skips nothing but a corrupt tail |
| `Recovery.CatchUp` | packages/minidb/src/codec.ts:413-465 | scanning a grown file equals scanning the shorter one and going on from its eofOffset: always in strict mode, otherwise when nothing had been skipped |
| `Recovery.TornOuterFrame` | packages/minidb/src/codec.ts:446-461 | why the condition is needed: for every record whose value holds a whole encoded record, torn by one byte, resynchronisation reports the inner bytes and catch-up gives a different result |
| `Recovery.CatchUpIff` | packages/minidb/src/codec.ts:413-465 | in resync mode, with budgets that last, they are equal if and only if no valid frame of the grown file starts inside what the scan of the shorter one skipped before its end |
| `Recovery.ScanIsTheLosslessCut` | packages/minidb/src/codec.ts:446-461 | a scan that does not exhaust its budget is the one way of cutting the file into frames and corrupt ranges in which no corrupt range holds the start of a valid frame |
| `SyncScan.ChunkedCrc` | packages/minidb/src/codec.ts:360-370 | the checksum read in chunks of any size is the checksum of the bytes |
| `SyncScan.ReadFrameRefAt` | packages/minidb/src/codec.ts:345-396 | the positioned reader accepts exactly the frames the buffer reader accepts and reports the fields of the same frame |
| `SyncScan.FindMagicSync` | packages/minidb/src/codec.ts:398-411 | the chunked search finds the first magic in the file for every chunk size of at least two |
| `SyncScan.ParseBuffer` | packages/minidb/src/codec.ts:809-849 | the parser reports the frames, corrupt ranges and eofOffset of the reference scan |
| `SyncScan.ScanFrameRefsFd` | packages/minidb/src/codec.ts:419-465 | the positioned scanner, for every chunk size and budget, reports the references, ranges and eofOffset of the same reference scan |
| `SyncScan.RefPointsAtValue` | packages/minidb/src/codec.ts:386-395 | the slice of the file a reference names is the value the parser copies, and all other fields agree |
| `SyncScan.ParserAndScannerAgree` | packages/minidb/src/codec.ts:419-465 | parser and positioned scanner agree whenever the scanner is strict or its budget is not exhausted: as many frames, each reference naming the copied frame with its value at the named place, the same ranges and the same eofOffset |
| `AsyncScan.Scanner.FillWindow` | packages/minidb/src/codec.ts:661-677 | after any move, however short the reads, the window holds exactly the bytes of the file from the new start on |
| `AsyncScan.Scanner.ParseFrameRefInWindow` | packages/minidb/src/codec.ts:578-619 | the frame parsed from the window alone is the frame in the file, or the reader says that it does not fit the window |
| `AsyncScan.Scanner.FrameAtPosition` | packages/minidb/src/codec.ts:681-694 | the frame found by window, by moved window or by position is the frame in the file |
| `AsyncScan.Scanner.NextInWindow` | packages/minidb/src/codec.ts:726-742 | the magic the buffer shows is the one in the held part of the file; bytes left over from an earlier fill do not matter |
| `AsyncScan.Scanner.ResumeWindowed` | packages/minidb/src/codec.ts:720-757 | the search goes window by window and resumes where the windowed reference search does |
| `AsyncScan.Scanner.Scan` | packages/minidb/src/codec.ts:626-761 | the sliding-window scanner terminates and reports the frames, ranges and eofOffset of the windowed reference scan, for every file, end offset, budget and window of at least 22 bytes |
| `AsyncScan.MagicInWindow` | packages/minidb/src/codec.ts:726-728 | stale bytes behind the valid ones can only show a magic too close to the end of the file to matter |
| `AsyncScan.StrictScansAgree` | packages/minidb/src/codec.ts:706-718 | in strict mode the windowed and the positioned scan are always the same |
| `AsyncScan.ScansAgreeWithoutStraddle` | packages/minidb/src/codec.ts:720-757 | in resync mode they are the same, with any budget, when no magic starts on a window end the search steps over |
| `AsyncScan.ScansAgreeIff` | packages/minidb/src/codec.ts:720-757 | if the positioned scan does not exhaust its budget, they are the same if and only if no valid frame starts at a place the windowed search steps over |
| `AsyncScan.SmallFilesScanAlike` | packages/minidb/src/codec.ts:626-761 | a file that fits one window is scanned alike, with any budget |
| `AsyncScan.StraddlingFrameIsMissed` | packages/minidb/src/codec.ts:729-741 | for every window size and frame: a frame whose magic straddles the first window's end behind junk is reported by the positioned scan and is not in the list of the windowed one |
| `ResyncBudget.ScanIsTheAffordedCut` | packages/minidb/src/codec.ts:446-461 | the positioned scan with a budget of n candidates is the one cut of the file in which the corrupt ranges that end in a frame hold at most n magics in all, behind their first bytes, and no valid frame, and a valid frame is surrendered to the corrupt tail exactly if reaching it would take more than n |
| `ResyncBudget.WindowedScanIsTheAffordedCut` | packages/minidb/src/codec.ts:720-757 | the same of the windowed scan, counting the magics at places it does not step over |
| `ResyncBudget.SearchCosts` | packages/minidb/src/codec.ts:744-748 | what one windowed search has left is what it had less the magics it looked at |
| `ResyncBudget.StormIsSurrendered` | packages/minidb/src/codec.ts:744-747 | behind a frame and more magics than the budget allows for everything is one corrupt range, valid frames and all |
| `WindowedRecovery.WindowedTiles` | packages/minidb/src/codec.ts:626-761 | the windowed scan, in either mode and with any window and budget, tiles the scanned bytes, reports only frames that validate, and ends valid data with the last of them |
| `WindowedRecovery.LosesWhatItStepsOver` | packages/minidb/src/codec.ts:720-757 | the valid frames that start inside its corrupt ranges are exactly those that start where its search steps over, up to where it gives up for lack of budget |
| `WindowedRecovery.ScanIsTheMatchingCut` | packages/minidb/src/codec.ts:626-761 | unless it gives up, it is the one way of cutting the file that loses exactly the valid frames at the places stepped over |
| `WindowedRecovery.WindowedRecoveryIsStableIff` | packages/minidb/src/recovery.ts:433-447 | for every file, window and budget: the scan of the log truncated at eofOffset finds the same stretches without the corrupt tail if and only if it does not give up and steps over the same valid frames of the truncated log as the first scan did |
| `WindowedRecovery.StableAfterLosingNothingIff` | packages/minidb/src/recovery.ts:433-447 | where the first scan stepped over no valid frame, if and only if the second does not give up and steps over none |
| `WindowedRecovery.StrictRecoveryIsStable` | packages/minidb/src/recovery.ts:433-447 | in strict mode it always finds the same |
| `WindowedRecovery.OneWindowRecoveryIsStable` | packages/minidb/src/recovery.ts:433-447 | so it does in resync mode, with any budget, when one window holds all there is to scan |
| `WindowedRecovery.StableUnlessAHeaderOverruns` | packages/minidb/src/codec.ts:602-619 | so it does, with any window and budget, when no header inside a corrupt range announces a frame that fits the log and not the truncated one |
| `WindowedRecovery.StableReports` | packages/minidb/src/recovery.ts:433-447 | where it finds the same, the second open gets the references of the first, reports no corrupt tail and truncates nothing |
| `WindowedRecovery.LaterOpenKeepsIff` | packages/minidb/src/recovery.ts:433-447 | after any writes appended to the truncated log, a scan that does not give up begins with everything the first one kept if and only if, of the valid frames that start in what was kept, it steps over exactly those the first one lost |
| `WindowedRecovery.AmpleNeverGivesUp` | packages/minidb/src/codec.ts:744-747 | no budget, or one candidate per byte left to scan, never runs out |
| `WindowedRecovery.StrictCatchUp` | packages/minidb/src/recovery.ts:531-544 | following a growing log in strict mode, a scan with an empty window from where valid data ended completes the one before |
| `ReopenedLog.SecondOpenMissesIt` | packages/minidb/src/recovery.ts:433-447 | the failing family: where a damaged header announces a frame past the valid one that straddles the first window, the first scan loses nothing and reports that frame last, and the scan of the log truncated behind it does not report it |
| `ReopenedLog.ReopenedLogLosesItsRecord` | packages/minidb/src/recovery.ts:433-447 | for every window of 24 bytes or more whose record length holds no magic: a log, a record nested in a damaged one, of which the first scan keeps the record and the second finds nothing |
| `ReopenedLog.ReopenedLogs` | packages/minidb/src/codec.ts:490 | among them windows of 32 bytes and of the four megabytes the scanner has |
| `FrameStream.FrameParser.Feed` | packages/minidb/src/codec.ts:221-269 | one chunk leaves the parser in the state, and yields the records, of the reference drain of the buffered bytes |
| `FrameStream.FrameParser.Finish` | packages/minidb/src/codec.ts:277-285 | end of stream reports buffered bytes as a torn tail at the current offset and forgets them, or returns the offset |
| `FrameStream.DrainReads` | packages/minidb/src/codec.ts:225-268 | of a buffer damaged in any way the parser yields the frames between which only bytes stand at which no magic begins, counts their bytes and no others, and waits at a place without room for a header or for what the header announces, or fails where no magic follows or a whole frame is not valid |
| `FrameStream.EveryBufferReads` | packages/minidb/src/codec.ts:225-268 | every buffer can be read so, in one of the two ways |
| `FrameStream.DrainsWholeImages` | packages/minidb/src/codec.ts:225-266 | a buffer holding the beginning of a run of frames gives up exactly the frames that are wholly there |
| `FrameStream.ChunksYieldWholeImages` | packages/minidb/src/codec.ts:217-269 | however the beginning of a run of frames is cut into chunks, exactly the records wholly inside are yielded, in order, without an error |
| `FrameStream.StreamIsChunkIndependent` | packages/minidb/src/codec.ts:217-286 | the whole run yields every record and finish gives the total length; a part of it that ends inside a frame ends as a torn tail at the last frame boundary |
| `Batch.DecodeBatchOps` | packages/minidb/src/codec.ts:186-209 | the loop accepts exactly the bodies the reference reader accepts and returns their ops, all or nothing |
| `Batch.ScanBatchOpRefs` | packages/minidb/src/codec.ts:769-798 | the same for the reader that leaves values in place |
| `Batch.EncodeBatchOps` | packages/minidb/src/codec.ts:157-184 | the body written at a moving offset is the layout of the ops, or the error the source throws |
| `Batch.BodiesAreLayouts` | packages/minidb/src/codec.ts:186-209 | a body is accepted if and only if it is the layout of some ops, and then it is read as those ops |
| `Batch.OpBytes` | packages/minidb/src/codec.ts:157-184 | every op byte by byte: type, lengths and expireAt bytes at their offsets, then key, value and meta bytes |
| `Batch.BodyBytes` | packages/minidb/src/codec.ts:157-184 | a body is the number of its ops in two bytes, the lower first, and the ops |
| `Batch.RefsPointAtValues` | packages/minidb/src/codec.ts:769-798 | the two readers accept the same bodies, and each reference dereferences to the value the other copies |
| `Batch.EncodeThenDecode` | packages/minidb/src/codec.ts:157-209 | decoding inverts encoding on every op list the printer accepts |
| `Batch.DecodeThenEncode` | packages/minidb/src/codec.ts:157-209 | encoding inverts decoding byte for byte if and only if every expireAt of the body is exactly a double |
| `Batch.InexactBodyDiffers` | packages/minidb/src/codec.ts:157-209 | a body that is read and not written back: one op whose expireAt is 2^53 + 1 |
| `Assembler.Generator.MergeInPlace` | packages/kosong/src/message.ts:172-203 | the pending part absorbs the next one, or is left alone, by the three merge rules |
| `Assembler.Generator.FlushPart` | packages/kosong/src/generate.ts:317-342 | a pending part is stored as content, or as a call registered under its index, or dropped |
| `Assembler.Generator.Consume` | packages/kosong/src/generate.ts:153-200 | one streamed part changes the message, the map and the pending part as the reference step does |
| `Assembler.Generator.Finish` | packages/kosong/src/generate.ts:211-245 | the end of the stream flushes, then rejects an empty or think-only message |
| `Assembler.Generate` | packages/kosong/src/generate.ts:145-245 | the whole loop gives the message, or the rejection, of the reference run over the stream |
| `Assembler.ContentIsConserved` | packages/kosong/src/generate.ts:145-213 | for every stream, all text, thinking, signatures and media are in the message once, in order, and nothing else is |
| `Assembler.RoutedGoesBack` | packages/kosong/src/generate.ts:154-176 | a fragment goes straight to a stored call exactly if the stream before it holds a closed call with its index and the open call, the last part that is no fragment, does not have it |
| `Assembler.ContentIsRuns` | packages/kosong/src/message.ts:172-190 | the content is one part for each longest run, in the stream without those fragments, of text or of thinking up to and including a signature: all the text; all the thinking, hidden as at its beginning and signed as at its end; and each medium |
| `Assembler.ContentAlternates` | packages/kosong/src/message.ts:172-190 | so of a stream of content alone no text stands next to a text and no thinking follows thinking without a signature |
| `Assembler.EveryFragmentIsAddedOnce` | packages/kosong/src/generate.ts:167-213 | for every stream: one call per header in header order, with its id and name, and its arguments followed by exactly the fragments routed to it; the index map points inside the calls |
| `Assembler.AddAllGathers` | packages/kosong/src/generate.ts:175-180 | arguments with fragments added are null exactly if they and all fragments are, and otherwise their text followed by the texts of the fragments that are not null, in order |
| `Assembler.FragmentsFollowTheirIndex` | packages/kosong/src/generate.ts:162-184 | in a well-formed stream the fragments routed to a call are exactly those with its index, in arrival order |
| `Assembler.ArgumentsReachTheirCall` | packages/kosong/src/generate.ts:162-213 | in a well-formed stream each finished call has its header's arguments followed by exactly the fragments with its index: their concatenation, null exactly if all are null |
| `Assembler.InterleavingDoesNotMatter` | packages/kosong/src/generate.ts:162-213 | two well-formed streams with the same headers and the same fragments per index give the same calls, however interleaved |
| `Assembler.UnannouncedFragmentGoesToPendingCall` | packages/kosong/src/generate.ts:183-195 | why announcing comes first: a fragment with an unknown index is added to the pending call, whatever that call's index |
| `Assembler.RejectedExactlyWhen` | packages/kosong/src/generate.ts:215-245 | a stream is rejected as empty, or as thinking only, exactly under the stated conditions on its parts |
| `Utf8.Validator.Write` | packages/kaos/src/local.ts:826-862 | one chunk makes it throw exactly when no well-formed string begins with the bytes fed so far |
| `Utf8.Validator.End` | packages/kaos/src/local.ts:863-865 | the end throws exactly when the bytes fed are not well-formed UTF-8 |
| `Utf8.Validate` | packages/kaos/src/local.ts:816-867 | the chunks written one after another and ended throw exactly when they join to bytes that are not well-formed |
| `Utf8.ChunkIndependent` | packages/kaos/src/local.ts:816-867 | for every way of cutting a byte string into chunks the validator accepts it if and only if it is well-formed UTF-8 by the grammar of section 4 of RFC 3629 |
| `Utf8.BeginsExactlyGoing` | packages/kaos/src/local.ts:826-862 | a byte string can go on to a well-formed one if and only if the automaton has not rejected it |
| `Utf8.DecodeUtf8Ignore` | packages/kaos/src/internal.ts:7-82 | the loop outputs every well-formed character and drops every byte that begins none |
| `Utf8.DecodeInvertsEncode` | packages/kaos/src/internal.ts:7-82 | decoding inverts encoding on every sequence of scalar values |
| `Utf8.EncodeInvertsDecodeIff` | packages/kaos/src/internal.ts:7-82 | the output is scalar values only, and re-encoding it gives the input back if and only if the input is well-formed |
| `Utf8.DecodeSplits` | packages/kaos/src/internal.ts:7-82 | decoding goes through every cut that splits no character, whatever malformed bytes stand around it |
| `Utf8.StrayByteIsDropped` | packages/kaos/src/internal.ts:7-82 | a single byte outside ASCII decodes to nothing |
| `Utf8.DecodeUtf16LeIgnore` | packages/kaos/src/internal.ts:84-121 | the loop outputs every well-formed UTF-16LE character and drops unpaired surrogates and an odd last byte |
| `Utf8.Decode16InvertsEncode16` | packages/kaos/src/internal.ts:84-121 | decoding inverts UTF-16LE encoding on every sequence of scalar values |
| `Utf8.Encode16InvertsDecode16Iff` | packages/kaos/src/internal.ts:84-121 | re-encoding the output gives the input back if and only if the input is well-formed UTF-16LE |
| `Utf8.Decode16Splits` | packages/kaos/src/internal.ts:84-121 | decoding UTF-16LE goes through every cut between two units that splits no pair |
| `Utf8.LoneUnit` | packages/kaos/src/internal.ts:84-121 | a unit by itself decodes to its code point, a surrogate and an odd byte to nothing |
| `Lines.SplitIsCut` | packages/kaos/src/local.ts:776-788 | cutting loses nothing and cuts exactly behind each terminator |
| `Lines.CutIsUnique` | packages/kaos/src/local.ts:776-788 | there is only one such cut |
| `Lines.LineCount` | packages/kaos/src/local.ts:513-526 | there is one line per terminator and one more for what follows the last |
| `TextIO.ReadUtf8Lines` | packages/kaos/src/local.ts:593-648 | for every chunking, the lines yielded, with their offsets, are lines startLine to startLine + maxLines - 1 of the file (at least one when there is one) |
| `TextIO.SelectedAre` | packages/kaos/src/local.ts:593-648 | which lines those are, by number |
| `TextIO.LinesAreWhereTheySay` | packages/kaos/src/local.ts:593-648 | each line yielded stands in the file at the offset it is yielded with |
| `TextIO.LinesMakeTheFile` | packages/kaos/src/local.ts:593-648 | the lines put together are the file |
| `TextIO.SplitLinesKeepingTerminator` | packages/kaos/src/local.ts:776-788 | the loop gives the lines of the text, terminators kept |
| `TextIO.DecodedLinesJoinUp` | packages/kaos/src/local.ts:593-648 | in ignore mode the decoded lines, put together, are the decoding of the whole file |
| `TextIO.SplittingDecodedText` | packages/kaos/src/local.ts:585-587 | splitting decoded text gives the decoded lines, except that a last line whose bytes are all dropped gives none |
| `TextIO.ScanBlockBackwards` | packages/kaos/src/local.ts:573-581 | the loop over one block, from its end, counts line feeds and stops at the one wanted |
| `TextIO.TailStart` | packages/kaos/src/local.ts:557-584 | for every block size the backward scan's offset starts exactly the last min(tailCount, n) lines |
| `TextIO.ReadTailLines` | packages/kaos/src/local.ts:545-591 | what is yielded is the split of the decoding of those lines |
| `TextIO.LineEndingFlags.UpdateFromBytes` | packages/kaos/src/local.ts:790-814 | the three flags describe the bytes so far, a carriage return at a chunk's end carried over |
| `TextIO.ScanTextFile` | packages/kaos/src/local.ts:495-531 | for every chunking: the line count, the flags for CRLF, LF and lone CR, the NUL flag and the last-newline flag are those of the file, and it throws exactly on a file that is not UTF-8 |
| `Glob.FewerKeys` | packages/kaos/src/local.ts:395-403 | why the walk ends: entering a directory not on the way leaves fewer keys to enter |
| `Glob.WalkExactly` | packages/kaos/src/local.ts:344-450 | on every finite directory graph whose directories have keys, cycles or not, the walk yields exactly the paths that match the pattern and lead somewhere without entering a directory already on the way |
| `Glob.WalkYieldsEachWay` | packages/kaos/src/local.ts:344-450 | the walk yields each path exactly as often as its names can be shared out among the parts of the pattern |
| `Glob.WalkYieldsOnce` | packages/kaos/src/local.ts:353-369 | a pattern with at most one `**` yields no path twice |
| `Glob.StarEntriesExactly` | packages/kaos/src/local.ts:387-410 | what the loop under `**` yields, entry by entry |
| `Glob.NameEntriesExactly` | packages/kaos/src/local.ts:420-447 | what the loop under a name pattern yields, entry by entry |
| `Glob.StarEntriesInOrder` | packages/kaos/src/local.ts:387-410 | the loop under `**` yields in the order of the listing |
| `Glob.NameEntriesInOrder` | packages/kaos/src/local.ts:420-447 | so does the loop under a name pattern |
| `RemoteGlob.RemoteWalkAgrees` | packages/kaos/src/ssh.ts:634-705 | on an acyclic graph of plain listings the walk without a visited set yields what the walk with one yields, in the same order |
| `RemoteGlob.GlobsAgree` | packages/kaos/src/ssh.ts:634-705 | so do the two globs from the root |
| `RemoteGlob.RemoteSkipsDots` | packages/kaos/src/ssh.ts:673-705 | the remote walk goes through no entry `.` or `..` and yields neither: it is the walk of the graph without them, which alone has to be acyclic |
| `RemoteGlob.DottedGlobsAgree` | packages/kaos/src/ssh.ts:634-705 | so with dot entries the remote glob yields what the local one yields without them |
| `RemoteGlob.TreeGlob` | packages/kaos/src/local.ts:299-450 | on an acyclic graph the glob yields exactly the existing paths that match, each as often as there are ways to match it, so none twice with at most one `**` |
| `RemoteGlob.NothingSeenTwice` | packages/kaos/src/local.ts:395-403 | on an acyclic graph the visited set never rules anything out |
| `RemoteGlob.TwoStarsRepeat` | packages/kaos/src/local.ts:353-369 | one is the limit: a directory directly below the root makes the pattern `**/**` yield a path exactly twice |
| `BackupGate.StepKeeps` | packages/minidb/src/backup.ts:60-99 | every step of writers, log flushes and their failures, recovery, compaction and backups keeps the invariant of writes, files, gate, queue and copies |
| `BackupGate.RunsFit` | packages/minidb/src/backup.ts:60-99 | so it holds in every state of every run |
| `BackupGate.WritesAreFenced` | packages/minidb/src/backup.ts:70-93 | while a backup copies nothing is in flight, every write is refused and no byte of a failed write is in the log; snapshot and log together hold, key by key, exactly what was acknowledged at the drain, if and only if the snapshot keeps no failed write that the log does not overwrite |
| `BackupGate.CopiesNeverOverlap` | packages/minidb/src/backup.ts:74-94 | no two backups are in their serialized part at once |
| `BackupGate.GateReopensWithTheLast` | packages/minidb/src/backup.ts:95-97 | the gate is open exactly when every backup called has resumed, failed or not (that each can is `BackupProgress.FailedBackupLeaves` and `BackupProgress.GateCanReopen`) |
| `BackupGate.BackupHoldsItsFence` | packages/minidb/src/backup.ts:47-59 | a backup that succeeds fenced in every write acknowledged before it was called and none that entered later; restored, it holds exactly that fence if and only if between its two copies no log was renamed in without a last write that the copied snapshot lacks and the copied log does not replace, and the copied snapshot keeps no failed write that the log does not overwrite |
| `BackupGate.CollectedFits` | packages/minidb/src/compaction.ts:243-257 | what a compaction collects fits the history from its first flush on, except for keys whose last write it took was one that failed |
| `BackupGate.FailedWritesWereTaken` | packages/minidb/src/compaction.ts:243-257 | a failed write in the snapshot is one that was applied and in flight when a compaction collected the store |
| `BackupGate.DroppedWritesWereRotated` | packages/minidb/src/compaction.ts:345-365 | a write that a backup is missing from the log left it when a compaction renamed in the new log after that backup copied the snapshot and before it copied the log |
| `BackupGate.CarefulCompactionsAreHarmless` | packages/minidb/src/backup.ts:81-93 | if compactions start only while the gate is open and none renames in a snapshot that took a write whose flush then failed, every backup that succeeds holds exactly its fence |
| `BackupGate.LateCompactionEmptiesTheLog` | packages/minidb/src/backup.ts:63-65 | the source does not ensure the first: from every state in which a backup has copied the snapshot and not the log and no compaction is under way, one that starts then can lead to a successful backup with an empty log |
| `BackupGate.BackupCanLoseAWrite` | packages/minidb/src/backup.ts:63-93 | a concrete run in which a successful backup lacks a write acknowledged before it was called |
| `BackupGate.FailedWriteCanReplaceAnAcknowledgedOne` | packages/minidb/src/compaction.ts:243-257 | nor the second: a run in which a write is collected and its flush then fails, and a backup called long after holds it in place of the acknowledged write it overwrote |
| `BackupGate.FailedWriteRunIsOpen` | packages/minidb/src/backup.ts:81-84 | that run starts its compaction while the gate is open |
| `BackupProgress.FailedBackupLeaves` | packages/minidb/src/backup.ts:93-97 | in every run, a backup that fails at any point of its turn leaves: it is out of the queue, all others are as they were, and the gate is open if and only if every other has resumed |
| `BackupProgress.GateCanReopen` | packages/minidb/src/backup.ts:95-97 | from every reachable state steps of backups alone open the gate |
| `BackupProgress.CanSettle` | packages/minidb/src/wal-group.ts:151-167 | unless a recovery of the log has failed, from every reachable state the database can be brought to rest: gate open, nothing in flight, no recovery or compaction under way, log healthy |
| `BackupProgress.WriteSucceeds` | packages/minidb/src/op-tracker.ts:77-92 | at rest a new write is acknowledged, and stands last in the log |
| `BackupProgress.CompactionSucceeds` | packages/minidb/src/compaction.ts:240-372 | at rest a compaction moves everything acknowledged into the snapshot and empties the log |
| `BackupProgress.BackupSucceeds` | packages/minidb/src/backup.ts:60-98 | at rest a new backup succeeds, its fence everything acknowledged and its copies the two files |
| `BackupProgress.NoDeadEnds` | packages/minidb/src/backup.ts:60-98 | so after every run without a failed recovery a new write can be acknowledged and a new backup made that holds it |
| `BackupCopy.NamesApart` | packages/minidb/src/backup.ts:107-115 | the working names are swept by a later run, the destination never is |
| `BackupCopy.NothingElseUnlessVanished` | packages/minidb/src/backup.ts:119-120 | a complete backup holds nothing but what it lists, unless a tree vanished under its copy; then the torn rest is not listed |
| `BackupCopy.Disk.CopyIfExists` | packages/minidb/src/backup.ts:169-183 | a file or tree is copied whole, or is missing and leaves nothing, or vanishes under its copy and is missing with a torn tree left behind, or the copy fails |
| `BackupCopy.Disk.Fill` | packages/minidb/src/backup.ts:117-139 | copies, then syncs, then the manifest; in every state on the way any trace of a manifest means every plain file it lists is copied and synced |
| `BackupCopy.Disk.Sweep` | packages/minidb/src/backup.ts:110-115 | a sweep that succeeds leaves everything but orphans, and one that fails touches nothing else either |
| `BackupCopy.Disk.Exchange` | packages/minidb/src/backup.ts:140-153 | the two renames and the restoring one: how it ends, given which of the three operations fail, whether a previous backup is there or not; after each the previous backup is in place or aside, or the new one is in place |
| `BackupCopy.Disk.SwapIn` | packages/minidb/src/backup.ts:140-155 | the same including the removal of the aside |
| `BackupCopy.Disk.CopyBackupAtomic` | packages/minidb/src/backup.ts:104-161 | in every state of one run, whichever operations fail, the previous backup is kept or the new one complete, and the destination is never half; from mkdir up to the final removal any trace of a manifest in the temporary folder means its files are copied and synced; a failure before the swap leaves the destination as it was; success leaves exactly the new backup; a run in which no operation fails finishes and cleans up, and only such a run; one failure never strands the temporary folder nor leaves the previous backup aside |
| `BackupCopy.OrphanStateIsSafe` | packages/minidb/src/backup.ts:51-59 | a state that differs from the first one in working names only loses nothing |
| `BackupCopy.SafeSince` | packages/minidb/src/backup.ts:104-161 | what is safe from the start of the swap on is safe from the start of the run on |
| `BackupCopy.FinalState` | packages/minidb/src/backup.ts:154-161 | after a clean success nothing but the destination has changed and no orphan is left |
| `BackupCopy.SweepKeepsOnlyTheDestination` | packages/minidb/src/backup.ts:110-115 | the sweep keeps a previous backup, at the destination or aside, if and only if the destination holds it: an aside left by a crash between the renames is deleted |
| `SortedPairs.InsertLists` | packages/minidb/src/skiplist.ts:188-230 | inserting keeps the list ordered and adds one entry |
| `SortedPairs.DeleteLists` | packages/minidb/src/skiplist.ts:246-264 | deleting keeps the list ordered and removes one entry |
| `SortedPairs.OneList` | packages/minidb/src/skiplist.ts:183-186 | a set of pairs has one ordered list |
| `SortedPairs.TextLessIff` | packages/minidb/src/skiplist.ts:13 | the order of keys: where two first differ, the one that has ended or has the lower code unit comes first |
| `SortedPairs.RangeIsFilter` | packages/minidb/src/skiplist.ts:317-362 | a scan is the filter by the bounds it honours, in the order asked, windowed by offset and count |
| `SortedPairs.WindowTakes` | packages/minidb/src/skiplist.ts:317-362 | what offset and count leave: the pairs from the offset on, as many as asked for, none for a negative count |
| `SortedPairs.RangeIsAsked` | packages/minidb/src/skiplist.ts:317-362 | it is the filter by the bounds asked for if no pair is overlooked, and without offset and count only then: pairs are overlooked when both bounds of the side it starts from are given and a pair lies between them |
| `SortedPairs.BothBoundsOverlook` | packages/minidb/src/skiplist.ts:317-362 | pairs overlooked each way: one asked for and left out, and ones not asked for and yielded |
| `DtIndex.DtIndex.Set` | packages/minidb/src/dt-index.ts:37-62 | the diff-based update leaves the columns mirroring the plain table with the record replaced |
| `DtIndex.DtIndex.Del` | packages/minidb/src/dt-index.ts:64-76 | the same with the record removed |
| `DtIndex.DtIndex.Range` | packages/minidb/src/dt-index.ts:79-83 | a range is the scan of the ordered list of the column of the table |
| `DtIndex.DtIndex.Columns` | packages/minidb/src/dt-index.ts:96-98 | the columns are exactly those some record has a finite value for, each once |
| `DtIndex.DtIndex.ExportImage` | packages/minidb/src/dt-index.ts:109-114 | the image is every column with its ordered list |
| `DtIndex.DtIndex.LoadImage` | packages/minidb/src/dt-index.ts:118-138 | the loaded index mirrors the table the image shows |
| `DtIndex.DtIndex.RebuildFrom` | packages/minidb/src/dt-index.ts:101-105 | a rebuild that fails at any record leaves the index as it was; one that does not swaps the staged table in whole |
| `DtIndex.Rebuild.Add` | packages/minidb/src/dt-index.ts:147-162 | staging a record is a plain insert of its finite columns |
| `DtIndex.MirrorsColumn` | packages/minidb/src/dt-index.ts:24-35 | a mirrored column holds exactly the pairs of the table restricted to finite values, in order |
| `DtIndex.WithFits` | packages/minidb/src/dt-index.ts:51-58 | one more entry changes what the index shows for that column and key only |
| `DtIndex.WithoutFits` | packages/minidb/src/dt-index.ts:41-50 | one entry less likewise, and an emptied column goes |
| `DtIndex.SameColumns` | packages/minidb/src/dt-index.ts:79-98 | tables that agree on finite values have the same columns, so the same ranges and names |
| `DtIndex.SetsKeepSameLooks` | packages/minidb/src/dt-index.ts:37-76 | and stay so under any set or delete |
| `DtIndex.RebuildIsFold` | packages/minidb/src/dt-index.ts:140-168 | a rebuild over unique keys shows what setting the records one by one shows |
| `DtIndex.ImageRoundTrip` | packages/minidb/src/dt-index.ts:107-138 | loading an exported image preserves every column, so every range |
| `Shell.ReadsArgument` | packages/kaos/src/ssh.ts:114-120 | the tokenizer reads a quoted argument back, whatever characters it holds and whatever follows |
| `Shell.ArgumentsRoundTrip` | packages/kaos/src/ssh.ts:899 | the quoted arguments joined by spaces tokenize to exactly the argument list, for every list of strings |
| `Shell.BuildExecCommand` | packages/kaos/src/ssh.ts:894-923 | the assembled command, or an error naming the first variable the shell would not take |
| `Shell.ValidNameIff` | packages/kaos/src/ssh.ts:906-911 | a variable is accepted exactly if the shell takes the word made of it for an assignment to that name |
| `Shell.NamesAreSpelled` | packages/kaos/src/ssh.ts:906-911 | and that is when its name is made of letters, digits and underscores, the first no digit |
| `Shell.CommandRoundTrip` | packages/kaos/src/ssh.ts:880-923 | the command tokenizes to cd, the directory and `&&`, one name=value word per variable, and the arguments |
| `Shell.RunsTheCommandIff` | packages/kaos/src/ssh.ts:894-923 | read as simple commands joined by `&&`, with assignments and reserved words recognised, the line runs exactly the cd and the arguments under exactly the variables, if and only if the command name neither looks like an assignment nor, with no variable in front, is a reserved word or a name with a colon, and a directory is followed by something |
| `Shell.NotRunAsMeant` | packages/kaos/src/ssh.ts:894-923 | one command of each kind that is not: `if`, alone and behind a cd, `foo:`, `A=b`, and nothing behind a cd |

## Left out

- Files, processes, SSH and HTTP: a file is its bytes, a directory tree a graph, a disk a map from names to folders. Positioned reads return what was asked for; only the window's reads may come back short.
- Event-loop yields, progress ticks and abort signals of the scanners and of the stream loop, timing figures, callbacks and provider adapters.
- Integer widths: lengths and offsets are unbounded after they are read from fields of the right width; sizes stay below 2^53 in practice. The CRC register is a 32-bit vector.
- The default chunk sizes, window size and resync budget are parameters.
- FrameStream.FrameParser.Feed: the offset carried by a corruption error is the source's sum of `offset` and the place in the buffer, which is not absolute after the first frame of a feed; nothing is claimed about it. A generator abandoned half way is not modelled.
- AsyncScan.Scanner.FrameAtPosition: the asynchronous positioned reader is the synchronous one, as their bodies are the same.
- WindowedRecovery.WindowedRecoveryIsStableIff: the file does not change while it is scanned and truncated; recovery's second look at the file's identity, and the applying of the frames, are not modelled.
- Assembler.Generate: parts are values, so aliasing between the stream's own objects and the message is not modelled; nor are the request, usage and finish reason.
- Text decoding in strict and replace mode, byte-order marks and other encodings are library code; a text is a sequence of code points.
- Glob.WalkExactly: directories without inode numbers, for which the source keeps no keys and promises no termination, are outside it; how one segment pattern matches a name is a parameter.
- RemoteGlob.GlobsAgree: over SFTP a link shows as a file, locally it is followed, so the theorem is about trees without links; entries named `.` and `..`, which only the remote walk skips, are taken out first (`RemoteGlob.DottedGlobsAgree`).
- BackupGate.RunsFit: a deletion is a write like any other, so a key a snapshot omits counts as holding its deletion; a flush acknowledges its writes one by one and fails for all that are left; a batch, one frame for several keys, is modelled as separate writes, so that it enters and is lost as one is not captured; eviction, expiry and read-only instances, which cannot fence another process, are left out.
- BackupProgress.NoDeadEnds: once a recovery of the log has failed the source refuses every write until the database is opened again; the model lets a later failing write start another recovery, and nothing is claimed of such runs. That a step is possible does not say that it will be taken.
- BackupGate.CarefulCompactionsAreHarmless: that a compaction started while the gate is open is harmless by itself is not claimed, because it is false: a write it collects may fail afterwards.
- BackupCopy.Disk.CopyIfExists: which operations fail is given beforehand, one by one; the claims hold for every choice.
- BackupCopy.Disk.Fill: files inside the generations tree are copied, and not synced one by one, as in the source. What the copy of a tree meets is given with the source, so a tree that changes while it is copied is whatever the copy finds in it; plain files do not change behind the closed gate. A rename is durable at once, and several processes sharing a parent folder are not modelled.
- BackupCopy.Disk.CopyBackupAtomic: a removal that is cut off can leave a manifest without its files under a working name; the claim about manifests ends where the removals begin.
- DtIndex.DtIndex.Range: the skip list's towers, spans and rank queries are not modelled, only its order and its scans; bounds are finite numbers. The lazy iterate and the sliced bulk load do the same work in pieces.
- Shell.CommandRoundTrip: expansions are not modelled; a text that would use one is refused by the tokenizer, and none built here is. NUL characters are not excluded.
- Shell.RunsTheCommandIff: aliases, and what cd and the command make of their arguments, are not modelled; the words `function` and `select` and a name followed by a colon, which the standard lets a shell reserve, count as reserved.
- MiniDb itself, lock files, compaction's internals, the query engine, text indexes, clusters, the editor host and all plumbing around these cores.
