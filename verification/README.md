# Ring file and lint matchers: a verified model

This project models two parts of the repository in Dafny 4.11 and proves properties of the models.

**The ring file** (`src/ringfile.cc`, `src/varint.cc`, the two loops of `src/command.cc`). A file of
fixed size holds a log of records, each stored as a variable-length size and then its bytes, in a ring
between a start and an end offset. Writing evicts the oldest records, stores the new one behind the
live ones, around the end of the data area if need be, and publishes it by moving the end offset.

- `Bits`, `Doubles`, `Varints`: 64-bit words, the conversion to IEEE 754 binary64 (section 4.3.1 of
  IEEE 754-2008) in the size test, and the codec.
- `Rings`, `Records`, `Images`: a byte sequence as a ring, the stored form of a log, and the states that
  the file goes through during a write. `Image.Holds(rs)` is the representation invariant: the bytes
  from `start` to `end` are the frames of `rs`.
- `Ringfiles`: the file (`Storage`, shared by all who have it open) and a handle on it (`Ringfile`), as
  classes over a byte array. The ghost field `trace` records every state of the file, one for every byte
  stored and every offset changed, so that a method's contract speaks of its intermediate states too.
- `Retention`, `Readers`, `Interruptions`, `Sessions`, `Commands`: what holds over whole runs, for a
  reader behind a writer, for writes cut off anywhere, for piecewise writes and reads, and for lines
  piped in and printed out.

**The lint matchers** (`tools/cpplint.py`). `Brackets` and `Matchers` model the forward and the backward
expression matcher with their regular expressions written out, and `Angles` their agreement on `<` and
`>`; `Preprocessor` models the nesting state across `#if`, `#else`, `#elif` and `#endif`. `Characters` has the
character classes of the regular expressions.

Four things in which the code does less than one would expect. Each has a statement of when the expected
property holds.

- The refusal test keeps one byte spare (`src/ringfile.cc:267`) but the eviction loop does not (line
  272). When the kept records and the new one take the whole ring, the two offsets coincide and the file
  reads as empty, although the project's README (line 12) promises that the oldest records make way for
  new ones. `RetentionIsMaximalIff` says exactly when the log is the longest suffix that fits.
- The encoder's size test compares an integer with a double. Just below `2^56` and `2^63` the integer
  rounds up, and the encoding gets one byte longer than needed. It still decodes.
- Splitting a transfer of no bytes computes a negative part (lines 121 and 158); see `SplitIsSoundIff`.
- The two expression matchers undo each other on `()[]{}` in any text, but not on `<` and `>`, where each
  has its own rules for what is an operator (`tools/cpplint.py:1395-1441`, 1521-1543).
  `AngleMatchersUndoEachOther` says when they do: when from the one bracket to the other every `>` is an
  operator to both or to neither, no `<` follows `operator`, and no three `<` stand in a row. Each part
  of that condition has a line on which the matchers disagree without it.

The project's README (lines 121-122) puts the largest record at the remaining file size minus 1; the code
counts the length prefix too (`OneByteLessIsRefused`), and the model follows the code.

## Model

| member | source | states |
|---|---|---|
| Doubles.RoundingIsNearest | src/varint.cc:19-25 | the modelled conversion of an integer to a double returns a double, and no double is nearer |
| Doubles.TiesGoToEven | src/varint.cc:19-25 | when another double is just as near as the one returned, the one returned is even in its last place |
| Doubles.ComparisonIsExactBelowThreshold | src/varint.cc:21-22 | the comparison with `exp2(k)` holds iff the value is below `2^k`, less half a unit in the last place once `k` exceeds 53 |
| Varints.SizeTest | src/varint.cc:19-25 | the size test with its rounding passes for `n` groups iff `n` is at least the encoded size |
| Varints.EncodedSizeBound | src/varint.cc:19-25 | every 64-bit value takes between 1 and 10 bytes |
| Varints.EncodedSizeIsMonotone | src/varint.cc:19-25 | a larger value never has a shorter encoding |
| Varints.EncodedSizeIsMinimalUpToRounding | src/varint.cc:19-25 | the encoding has the least number of seven-bit groups that hold the value, and one more exactly for values in `[2^56-4, 2^56)` and `[2^63-512, 2^63)` |
| Varints.RoundTrip | src/varint.cc:8-42 | whatever bytes follow an encoding, decoding consumes exactly the encoding and returns the value |
| Varints.EncodingsArePrefixFree | src/varint.cc:8-42 | two encodings at the start of the same bytes are of the same value |
| Varints.OrGroup | src/varint.cc:10-13 | or-ing a shifted group into the 64-bit accumulator adds it to the number decoded so far, modulo `2^64` |
| Varints.Varint.Read | src/varint.cc:8-17 | the loop returns the length up to the first byte without marker and leaves the little-endian base-128 number of those bytes modulo `2^64` |
| Varints.Varint.ByteSize | src/varint.cc:19-25 | the searching loop returns the encoded size |
| Varints.Varint.Write | src/varint.cc:27-42 | the loop stores the encoding at the start of the buffer and no other byte changes |
| Rings.StoreThenLoad | src/ringfile.cc:109-182 | reading back a wrapped interval just written gives the bytes written, and every byte outside the interval is as before |
| Rings.StoreBehindWindow | src/ringfile.cc:146-182 | bytes written behind an occupied interval leave it alone and continue it, as long as both fit in the ring |
| Records.ParseFrames | src/ringfile.cc:215-257 | parsing the stored form of a log gives back the log |
| Records.FramesInjective | src/ringfile.cc:259-292 | different logs have different stored forms |
| Records.EvictIsLeast | src/ringfile.cc:271-278 | eviction makes the room asked for, and any record fewer dropped would not |
| Records.EvictKeepsWhatFits | src/ringfile.cc:271-278 | a suffix of the log that fits beside the room asked for is kept |
| Records.AcceptedIffStoredFits | src/ringfile.cc:266-269 | a record is accepted exactly when its stored form, prefix and all, leaves a byte of the ring over |
| Records.ShorterIsAccepted | src/ringfile.cc:259-269 | a record no longer than an accepted one is accepted |
| Records.OneByteLessIsRefused | src/ringfile.cc:266-269 | a record of one byte less than the ring is refused |
| Images.HeaderFetch | src/ringfile.cc:190-196 | of the ten bytes fetched at a record, decoding looks at its prefix only and returns its length, stale or foreign bytes behind notwithstanding |
| Images.HoldsDecodes | src/ringfile.cc:311-321 | a file that holds a log decodes to it, and the distance between the offsets is what the records take |
| Images.PoppedHolds | src/ringfile.cc:184-209 | dropping the first record leaves a file that holds the others |
| Images.WriteMeansAfterWrite | src/ringfile.cc:259-292 | on every log and accepted record, the state after a write holds the kept records and the new one, or nothing when they fill the ring exactly |
| Images.PartialWriteIsSafe | src/ringfile.cc:259-292 | every state of a write before the last holds and decodes to the log before the write less the records popped so far, which are no more than eviction must drop |
| Images.UnpublishedTraceIsSafe | src/ringfile.cc:323-365 | every traced state of a streaming write that is not finished holds a suffix of the log before it |
| Images.WriteTraceIsSafe | src/ringfile.cc:259-292 | every traced state of a write but the last holds a suffix of the log before it |
| Images.EndMovesLast | src/ringfile.cc:281-289 | the end offset stays where it is until the last step of a write |
| Interruptions.TrialKeeps | src/ringfile.cc:271-278 | a write, cut off or completed, keeps all completed records of any last trials that still fit in the ring together with it |
| Interruptions.AfterAttempts | src/ringfile.cc:259-292 | over any run of writes each completed or cut off at any step, the file decodes to a suffix of the records whose writes were completed, with all those still there whose trials since some point fit in the ring together, counted from the last exact fill |
| Interruptions.WriteIsAttempt | src/ringfile.cc:259-292 | the states of the attempts cut off after one step, after two and so on are those that a write by the ring file goes through, and only an attempt not cut off commits its record |
| Interruptions.RecentAreBegun | src/ringfile.cc:259-292 | the trials of a history are all writes that began since the last that filled the ring exactly, and the completed ones among them are what has been committed since |
| Interruptions.InterruptedRunsAreSafe | src/ringfile.cc:51-56 | that contract unfolded for runs that begin with a fresh file |
| Retention.RunIsSuffix | src/ringfile.cc:259-292 | after any writes the log is a suffix of what was written |
| Retention.RunIsLongestFitSinceFill | src/ringfile.cc:259-292 | after any accepted writes the log is the longest suffix that fits among the records since the last write that filled the ring exactly |
| Retention.FillsFollowFromSizes | src/ringfile.cc:271-289 | the writes that fill the ring exactly are where the sizes of the records alone put them |
| Retention.NoFillIffNoRangeFills | src/ringfile.cc:271-289 | there is no such write iff no consecutive records take exactly the ring |
| Retention.MaximalRetention | src/ringfile.cc:271-278 | if no consecutive records take exactly the ring, the log is the longest suffix of all records that fits |
| Retention.RetentionIsMaximalIff | src/ringfile.cc:267-272 | the log is the longest suffix that fits iff no write filled the ring exactly or the records from the last that did on do not fit together, where the fills follow from the sizes |
| Retention.RunIsAllIff | src/ringfile.cc:259-292 | the log is everything that was written iff all of it together stays short of the ring |
| Retention.ExactFillForgetsEverything | src/ringfile.cc:267-272 | two records that together take exactly 26 bytes, written into a ring of 26, leave it empty |
| Readers.BoundaryHolds | src/ringfile.cc:211-257 | a reader at the i-th record boundary has the records from the i-th on to read |
| Readers.ReaderUnderWriter | src/ringfile.cc:211-292 | after a write behind its back a reader has its old remainder and then the new record to read, byte for byte, iff both together stay short of the ring |
| Readers.ReaderIsQueue | src/ringfile.cc:211-292 | over any interleaving of writes and reads, what a reader has to read is at every moment a first-in first-out queue of the records, byte for byte, iff at every moment the queue stays short of the ring |
| Readers.ReaderUnderWriters | src/ringfile.cc:211-292 | after any writes behind its back a reader has its old remainder and then all new records to read iff together they stay short of the ring |
| Readers.ReaderKeepsItsPlace | src/ringfile.cc:211-292 | a reader at the i-th record keeps its place when at most i records are evicted and the ring is not filled exactly |
| Readers.ReaderDuringWrite | src/ringfile.cc:211-292 | in every state of a write before its last, a reader whose rest fits in the ring beside the new record still has exactly its rest to read |
| Readers.PayloadUnderWriter | src/ringfile.cc:259-292 | what a streaming reader will still return after a write behind its back: the same bytes, the first of them replaced by what of the new frame finds no free space |
| Ringfiles.Storage.StoreAt | src/ringfile.cc:99-107 | a plain write stores its bytes one after the other inside the data area and nothing else changes |
| Ringfiles.Ringfile.Create | src/ringfile.cc:29-57 | a fresh file of the given size holds no records |
| Ringfiles.Ringfile.Open | src/ringfile.cc:59-97 | a handle opened on a file has all its records to read |
| Ringfiles.Ringfile.BytesUsed | src/ringfile.cc:311-317 | the bytes in use are the sum of prefix and payload lengths of the live records, and less than the ring |
| Ringfiles.Ringfile.BytesAvailable | src/ringfile.cc:319-321 | the bytes available are the rest |
| Ringfiles.Ringfile.RemainingDistance | src/ringfile.cc:211-213 | the ring distance from the reading to the end offset is what remains to be read, and the end of the file is reached iff that is nothing |
| Ringfiles.SplitIsSoundIff | src/ringfile.cc:115-123 | the split of a transfer into two parts leaves no part negative, past the end or over the other iff the transfer is neither empty nor longer than the ring |
| Ringfiles.Ringfile.WrappingRead | src/ringfile.cc:109-144 | fills the buffer with the wrapped interval and leaves the rest of the buffer alone |
| Ringfiles.Ringfile.WrappingWrite | src/ringfile.cc:146-182 | stores the bytes in the wrapped interval, byte by byte in order |
| Ringfiles.Ringfile.PopRecord | src/ringfile.cc:184-209 | fails iff there is no record, and otherwise drops exactly the first |
| Ringfiles.Ringfile.MakeRoom | src/ringfile.cc:271-278 | the eviction loop ends, never pops an empty ring, gains room with every pop, and drops what `Evict` drops |
| Ringfiles.Ringfile.Write | src/ringfile.cc:259-292 | refuses exactly the records that cannot fit with a byte to spare and then changes nothing; otherwise goes through exactly the states `WriteSteps`, all but the last of which hold suffixes of the old log, to the log `AfterWrite` |
| Ringfiles.Ringfile.NextRecordSize | src/ringfile.cc:215-232 | reports the length of the first record that remains, or that none does |
| Ringfiles.Ringfile.Read | src/ringfile.cc:234-257 | returns the first record that remains and moves behind it, or refuses a buffer too small and changes nothing |
| Ringfiles.Ringfile.StreamingWriteStart | src/ringfile.cc:323-354 | evicts and stores the prefix as a write of the whole record does, or refuses under the same condition |
| Ringfiles.Ringfile.StreamingWrite | src/ringfile.cc:356-365 | stores the chunk behind what is laid down and keeps the live records |
| Ringfiles.Ringfile.StreamingWriteFinish | src/ringfile.cc:367-373 | publishes the record made of all chunks |
| Ringfiles.Ringfile.StreamingReadStart | src/ringfile.cc:375-399 | returns the length of the next record and puts the handle behind it |
| Ringfiles.Ringfile.StreamingRead | src/ringfile.cc:401-415 | returns the next bytes of the record, as many as asked for or left |
| Sessions.StreamingWriteChunks | src/ringfile.cc:323-365 | a streaming write sent any chunks and not finished has only gone through states that hold suffixes of the old log |
| Sessions.StreamingWriteAll | src/ringfile.cc:323-373 | for every cut of a record into non-empty chunks, the streaming calls take the file through the very states of a single write, to the same bytes and offsets |
| Sessions.StreamingReadAll | src/ringfile.cc:375-420 | for every sequence of requested sizes the chunks join to a prefix of the record, to all of it once a positive request yields nothing, and the handle ends at the next record |
| Sessions.WriteBehindReader | src/ringfile.cc:211-292 | the statement of `ReaderUnderWriter` for two handles on one file |
| Sessions.WriteBehindStreamingReader | src/ringfile.cc:259-420 | what a streaming reader has left survives a write through another handle iff the overhang of the new frame is the same bytes, and so whenever all fits |
| Commands.LinesOfPrinted | src/command.cc:128-128 | printed records without newlines split back into the records |
| Commands.PrintedLines | src/command.cc:154-161 | for every stream, its lines printed again are the stream, with a newline added if the last line has none: no byte is lost, repeated or invented |
| Commands.AllTakenIsInOrder | src/command.cc:134-164 | what all sessions get in is what the first gets in, then the second, and so on, each record at its place |
| Commands.Write | src/command.cc:154-163 | the append loop stores the lines of the stream up to the first refused one, on top of what earlier sessions left; what the lines of a stream are is `PrintedLines` |
| Commands.Read | src/command.cc:116-130 | the print loop ends and prints exactly the live records in order, with the ring distance to the end offset as its measure |
| Commands.PipeInPipeOut | src/command.cc:109-164 | what is printed after any number of append sessions splits back into the records retained, a suffix of the lines taken, and the longest that fits iff no exact fill stands in the way; it is every line of every session, each at its place, iff they stay short of the ring together |
| Characters.ClassesAre | tools/cpplint.py:1403-1431 | the characters of `\s` and of the words that `\b` bounds, one by one |
| Brackets.EndsWithOperatorIff | tools/cpplint.py:1403-1431 | the operator test holds for exactly the texts that are some text, the word `operator` on its own, and spaces |
| Brackets.OperatorIsAWord | tools/cpplint.py:1403-1431 | behind any text `operator` and spaces pass that test iff the text does not end in a letter, digit or underscore |
| Brackets.BackwardRetracesForward | tools/cpplint.py:1377-1611 | plain matching backward from where it ended forward passes every place it came through |
| Brackets.PlainMatchingIsSymmetric | tools/cpplint.py:1377-1611 | plain matching pairs an opener with a closer in one direction iff it does in the other |
| Matchers.FindEndOfExpressionInLine | tools/cpplint.py:1377-1452 | the character loop returns the partner, the failure or the stack that `ForwardInLine` defines |
| Matchers.CloseExpression | tools/cpplint.py:1455-1496 | the line loop returns the place that `CloseExpressionResult` defines, and on success and failure alike the line where the scan stopped |
| Matchers.LastForwardDecides | tools/cpplint.py:1482-1496 | that line is the first with which the scan is decided: the text up to any earlier line leaves it open |
| Matchers.FindStartOfExpressionInLine | tools/cpplint.py:1499-1573 | the backward character loop returns what `BackwardInLine` defines |
| Matchers.ReverseCloseExpression | tools/cpplint.py:1576-1611 | the backward line loop returns the place that `ReverseCloseExpressionResult` defines, and on success and failure alike the line where the scan stopped |
| Matchers.LastBackwardDecides | tools/cpplint.py:1597-1611 | the same backward: from any later line on the scan is left open |
| Matchers.AngleBracketsAreNoise | tools/cpplint.py:1390-1496 | from a real opener the forward matcher finds, fails or stays open as plain matching of `()[]{}` does, at the same place, over any lines |
| Matchers.AngleBracketsAreNoiseBackward | tools/cpplint.py:1515-1611 | the same for the backward matcher from a real closer |
| Matchers.MatchersUndoEachOther | tools/cpplint.py:1455-1611 | the forward matcher takes an opener to a closer iff the backward matcher takes that closer to that opener |
| Matchers.CloseThenReverse | tools/cpplint.py:1455-1611 | whenever the forward matcher succeeds on an opener, the backward matcher returns to it |
| Matchers.OnlyBracketsMatter | tools/cpplint.py:1390-1611 | on two texts that have the same `()[]{}` at the same places, both matchers give the same result from a bracket, whatever else differs |
| Matchers.BracketsThatPair | tools/cpplint.py:1377-1611 | of an opener and a closer with no bracket between them, both matchers pair `()`, `[]` and `{}`, and fail on any other two |
| Angles.NestBackwardRetraces | tools/cpplint.py:1377-1611 | the backward scan of nested angle brackets retraces the forward scan |
| Angles.ForwardTracks | tools/cpplint.py:1390-1496 | over any clear stretch of lines the forward matcher, once a `<` is pending, either ends as the matching of nests does or gets to the end of the stretch with the same nest pending |
| Angles.BackwardTracks | tools/cpplint.py:1515-1611 | the same for the backward matcher with a `>` pending |
| Angles.AngleMatchersUndoEachOther | tools/cpplint.py:1455-1611 | if the text from a `<` that is not the second of a shift to a `>` is clear, whatever stands elsewhere, the forward matcher takes the one to the other iff the backward matcher takes that back and neither turns the start down as an operator |
| Angles.CloseThenReverseAngle | tools/cpplint.py:1455-1611 | whenever the forward matcher succeeds on such a `<` through clear text, the backward matcher returns to it |
| Angles.ForwardOnPair | tools/cpplint.py:1395-1441 | whatever stands before it, a `<` with no bracket or `;` before the next `>` is closed there, unless it is `<=`, the second of a shift or behind the word `operator`, when the matcher gives up on the line whatever follows, or the `>` is `->` or one character behind `operator` |
| Angles.BackwardOnPair | tools/cpplint.py:1521-1543 | a `>` with no bracket or `;` behind the last `<`, and none before that, is closed there unless it is `->`, directly behind the word `operator`, or begins a `>=` with a space on either side, when the matcher gives up on the line |
| Angles.LessBehindOperator | tools/cpplint.py:1403-1408 | in `operator<a>` the `<` is a bracket exactly if `operator` is only the end of a longer name |
| Angles.ShiftAndAtMostAreRefused | tools/cpplint.py:1477-1480 | on any text the forward matcher turns down the `<` of `<<` and `<=` and no other |
| Angles.OthersAreRefused | tools/cpplint.py:1477-1595 | neither matcher starts at any character but its brackets |
| Angles.AnswersAre | tools/cpplint.py:1455-1611 | every answer is a place of the text on the right side of the start, or the one failure of either matcher |
| Matchers.AngleMatchingIsNotSymmetric | tools/cpplint.py:1427-1441 | why `>=` must be the same to both: a line on which the forward matcher succeeds and the backward matcher does not |
| Angles.OperatorGreaterIsNotClear | tools/cpplint.py:1431-1433 | why `operator` before `>` must be the same to both: a line on which only the backward matcher succeeds |
| Angles.OperatorLessIsNotClear | tools/cpplint.py:1403-1405 | why no `<` may follow `operator`: a line on which only the backward matcher succeeds |
| Angles.ThreeInARowAreNotClear | tools/cpplint.py:1397-1402 | why no three `<` may stand in a row: a line on which only the backward matcher succeeds |
| Angles.SecondOfShiftFindsAnother | tools/cpplint.py:1397-1402 | why the start may not be the second `<` of a shift: from there the forward matcher finds the partner of another |
| Preprocessor.DirectiveIsTheWord | tools/cpplint.py:2274-2293 | a line is a directive exactly if it is space, `#`, space, one of the six words and nothing that continues the word |
| Preprocessor.NestingState.UpdatePreprocessor | tools/cpplint.py:2253-2307 | the method changes the two stacks as `UpdatePreprocessorState` says, of which `PrefixIsFold` says what it means at every line |
| Preprocessor.NestingState.Update | tools/cpplint.py:2310-2332 | an update is the directive's effect and then the step on the stack of blocks, as `UpdateState` says; `PlainIsFold` and `PrefixIsFold` say what a run of updates comes to |
| Preprocessor.Process | tools/cpplint.py:2253-2332 | whatever the lines, the stack of blocks is in the end what the steps of the active lines make of it one after the other; for lines without directives these are all, for well-nested lines those of the first branches, and the open conditionals are as they were |
| Preprocessor.PrefixIsFold | tools/cpplint.py:2263-2332 | at every line of every text, inside a first or a further branch, behind closed conditionals or behind an `#else` or `#endif` that has no `#if`, the stack is what the steps of the active lines make of it: of an open conditional only the branch that the line is in counts, from the stack before the `#if` on |
| Preprocessor.PrefixOf | tools/cpplint.py:2263-2307 | any lines at all are such a prefix of a text |
| Preprocessor.BranchStartsAfresh | tools/cpplint.py:2278-2289 | at each `#else` and `#elif` the step starts from the stack before the `#if`, whatever the earlier branches did |
| Preprocessor.PlainIsFold | tools/cpplint.py:2310-2332 | lines without directives leave the open conditionals alone and the stack to their steps |
| Preprocessor.TextIsFold | tools/cpplint.py:2263-2332 | a well-nested text leaves the stack to the steps of its first branches, directive lines included |
| Preprocessor.PpStackIsRestored | tools/cpplint.py:2274-2307 | any well-nested text leaves the open conditionals as they were |
| Preprocessor.BranchesKeepCheckpoint | tools/cpplint.py:2278-2302 | whatever the further branches of a conditional hold, its `#endif` restores the same stack |
| Preprocessor.FirstBranchWins | tools/cpplint.py:2263-2307 | any well-nested text leaves exactly the state that it leaves with every `#else` and `#elif` branch deleted |
| Preprocessor.WellNestedIffText | tools/cpplint.py:2274-2307 | lines are well nested by counting iff they are the lines of a well-nested text |
| Preprocessor.FirstBranchWinsOnLines | tools/cpplint.py:2263-2307 | the theorem on any well-nested sequence of lines: what is kept holds no `#else` or `#elif`, and the final state is the same |

## Left out

- System calls, error codes and their failures: the file is a byte array and two header fields, and reads and writes succeed. An interruption is any number of bytes already stored.
- The header fields are updated in one step each, where the source first adds and then reduces.
- The magic number, the flags and the byte layout of the header.
- Files with fewer than 10 or more than 2^63 data bytes, and record sizes near 2^64, are preconditions.
- Ringfiles.Ringfile.WrappingRead: a transfer of no bytes is a precondition; the source splits it into a positive and a negative part (`SplitIsSoundIff`), and reads past the end of the caller's buffer, which has no meaning in the model.
- Ringfiles.Ringfile.WrappingWrite: the same, with memory behind the caller's buffer that would be stored in the file.
- Ringfiles.Ringfile.Write: an empty payload is a precondition for that reason; empty records are covered through the streaming calls.
- Ringfiles.Ringfile.Read: an empty next record is a precondition for that reason; `StreamingRead` returns it.
- Ringfiles.Ringfile.StreamingWrite: an empty chunk is a precondition for that reason.
- Commands.Write: empty lines are a precondition, because the loop passes them on to `Write`.
- Commands.Read: empty records in the file are a precondition, because the loop passes them on to `Read`.
- Commands.PipeInPipeOut: empty lines are a precondition, as for the two loops.
- A second writer, or a one-shot write while a streaming write is under way.
- Varints.Varint.Read: a buffer without a terminating byte among its first ten, for which the source returns nothing, is a precondition.
- Ringfiles.Ringfile.Create: the reading position of the creating handle is left unspecified, as the source does not set it.
- `Update` of the nesting state beyond the directives is an arbitrary function of the stack and the line, and a line carries its number; blocks are values, which the deep copies in the source make them. The remembered top of the previous stack is not modelled.
- Lines are the cleansed lines that the source passes to the matchers; cleansing is not modelled.
- Option parsing, `Stat`, the C and Python bindings and the remaining lint rules: forwarding, text output and heuristics.
