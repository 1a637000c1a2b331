# phpspy: a verified model of its core

phpspy samples the stacks of running PHP processes. This project models, in Dafny, the stateful
pieces between a sample and the output a user sees, and proves how they fit together. A `char`
stands for one byte; remote memory is frozen; C integers are unbounded except where their width is
written out (64-bit ids and hashes, 32-bit hash slots).

| files | what they model |
|---|---|
| `TraceFormat.dfy`, `Fout.dfy` | the output handler: records cleaned and collected in a growing buffer with a 4 MiB ceiling, then written whole or in numbered chunks |
| `Chunking.dfy` | the chunk writer against every other way of cutting a trace |
| `Collapse.dfy` | the decoder script, line by line |
| `Truncation.dfy` | what a truncated trace looks like in the output, against what the documentation promises |
| `Records.dfy`, `Delivery.dfy`, `Stream.dfy` | printer and parser together: any number of threads, any interleaving, any lost writes, at the level of bytes |
| `Pool.dfy` | the worker pool as a step system with a program counter per thread |
| `Callgrind.dfy` | the call-graph accumulator and its conservation law |
| `ZvalPrinter.dfy`, `ZendHash.dfy`, `StackWalk.dfy` | the readers of remote values, hash tables and stacks |
| `Top.dfy` | top mode's line reassembly and counters |
| `RunLoop.dfy` | the sampling loop and its trace limit |
| `ShellEscape.dfy` | shell quoting, against the shell's own rules |
| `Text.dfy` | byte strings and the C and Perl text primitives |

State that the program updates in place is a class or an array here, and each method is tied to a
function whose properties are proved as lemmas. Concurrency is a step system: a run is any sequence
of steps, and a step that is not enabled does not happen.

Results worth reading first: `Stream.RoundTrip` and `Stream.OnlyCompleteTracesAreReported`,
`Chunking.GreedyIsOptimal`, `TraceFormat.BuiltIsLongestFit`, `Truncation.TruncationPromise` and
`Truncation.MarkedIffRecordsDropped`, `Pool.ExclusiveAttachment`, `Pool.NoLostWakeup` with
`Pool.ShutdownIsBounded` and `Pool.ShutdownNeverStuck`, `Callgrind.FlowConservation`,
`Callgrind.CountsAgreeIffDepths`, `ZvalPrinter.PrintedIsRender`, `ZendHash.LookUp`,
`Top.LinesIndependentOfReads`.

## Where code and words differ

The model follows the code.

- In single-line mode the second delimiter pass resumes where the first stopped
  (event_fout.c:340-349), so a newline ahead of a tab survives in a record.
  `TraceFormat.StripRemovesTraceDelimiter` says exactly when,
  `TraceFormat.NewlineCanSurviveSingleLineMode` shows one.
- README.md:173-176 promises a final chunk with only the truncation marker for every truncated
  trace. `Truncation.TruncationPromise` says exactly when that is so, under any allocator: if and only
  if the first record was kept and what was kept does not fit `-b` together with the marker. The
  promise fails with `-b` near 4 MiB, where the marker goes out inside the only write
  (event_fout.c:184-196): `Truncation.LargeBufferHasNoMarkerChunk` is a family of such traces,
  `Truncation.DeepTraceBreaksPromise` one of them, 1024 frames deep. It also fails when memory for the
  first record is refused, because an empty buffer is not written at all (event_fout.c:128):
  `Truncation.RefusedMemoryWritesNothing`.
- The comment at event_callgrind.c:47-82 counts calls by distance from the root; the code compares
  by distance from the leaf (event_callgrind.c:184-185). `Callgrind.ReturnCountsAsCall` is the
  comment's second example. `Callgrind.CountsAgreeIffDepths` says from the two depths exactly when
  the two ways of counting cannot differ.
- A hash lookup stops at an integer-keyed bucket as if it had found the key
  (phpspy_trace.c:520-522). `ZendHash.LookupAgreesIffNotShadowed` says exactly when this matters,
  for every table as Zend keeps it; `ZendHash.IntegerKeyShadows` shows it.
- Lines of more than 511 bytes are lost to top mode (top.c:177-181).
  `Top.LinesIndependentOfReads` states it as an equivalence.

## Model

| member | source | states |
|---|---|---|
| `TraceFormat.StripRemovesFrameDelimiter` | event_fout.c:339-350 | no frame delimiter is left inside a record body, in either mode |
| `TraceFormat.StripRemovesTraceDelimiter` | event_fout.c:339-350 | the trace delimiter is gone if and only if it equals the frame delimiter or never stood before one |
| `TraceFormat.NewlineCanSurviveSingleLineMode` | event_fout.c:342-349 | a record text whose newline survives cleaning in single-line mode |
| `TraceFormat.StripTouchesOnlyDelimiters` | event_fout.c:339-350 | every byte is kept, or was a delimiter and became a question mark |
| `TraceFormat.TruncateKeepsWholeRecords` | event_fout.c:355-363 | truncating a buffer that ends in a half-written record leaves exactly the complete records |
| `TraceFormat.BuiltIsLongestFit` | event_fout.c:307-391 | for every sequence of records the buffer holds exactly the longest prefix of complete records whose bytes and a NUL fit 4 MiB, and is marked truncated if and only if a record was dropped |
| `TraceFormat.BuiltUnderKeepsPrefix` | event_fout.c:307-363 | under any allocator the buffer holds exactly the complete records before the first that does not fit or is refused memory, and is marked truncated if and only if there is such a record |
| `TraceFormat.NothingKeptIff` | event_fout.c:327-331 | the buffer has something in it if and only if the first record and a NUL fit 4 MiB and its memory was granted |
| `TraceFormat.TailFitsItsArray` | event_fout.c:244-283 | for all 64-bit ids and indices the tail fits its 64-byte array, and patching the byte three from its end is the same as printing with that sentinel |
| `TraceFormat.RoomShrinks` | event_fout.c:212-216 | the room for a chunk body never grows with the chunk index |
| `TraceFormat.BodiesCoverPrefix` | event_fout.c:208-231 | the chunk bodies, in order, followed by what is left out, are the buffer |
| `TraceFormat.BodiesAreGood` | event_fout.c:211-231 | every body is a non-empty run of whole records that fits `-b` together with its own tail |
| `TraceFormat.LeftOverDoesNotFit` | event_fout.c:218-233 | something is left out only if its first record is too big for the chunk it would have opened |
| `TraceFormat.WritesFitBufferSize` | event_fout.c:158-242 | every write is at most `-b` bytes, except a chunk that holds nothing but the truncation marker |
| `Chunking.GreedyIsValid` | event_fout.c:198-231 | the chunk writer's cut obeys the rules any cut must obey |
| `Chunking.ChunkEndIsFurthest` | event_fout.c:258-271 | no record end lies beyond the chosen chunk end and still within the room |
| `Chunking.GreedyStaysAhead` | event_fout.c:211-231 | after any number of chunks the chunk writer has got at least as far as any valid cut |
| `Chunking.ReachStopsWithBodies` | event_fout.c:221-222 | once a record does not fit, going on with later indices would not have got any further |
| `Chunking.GreedyIsOptimal` | event_fout.c:198-283 | no record-aligned cut that fits covers more of a trace, none covering as much has fewer chunks, and if any covers all of it the chunk writer does too |
| `Fout.Handler.Init` | event_fout.c:45-60 | a handler is created if and only if `-b` is within the ceiling and memory is granted, and starts empty |
| `Fout.Handler.Vsnprintf` | event_fout.c:316-319 | earlier contents are untouched, and a text that fits is behind them in full |
| `Fout.Handler.Realloc` | event_fout.c:365-391 | succeeds if and only if the need is within the ceiling and memory is granted; contents move along, the capacity suffices and stays within the ceiling |
| `Fout.Handler.Truncate` | event_fout.c:355-363 | the buffer falls back to its last frame delimiter and is truncated |
| `Fout.Handler.BlotFrom` | event_fout.c:343-348 | overwrites every delimiter of one kind from a position on, nothing else, and returns the position behind the last |
| `Fout.Handler.StripDelims` | event_fout.c:339-350 | the two passes in place compute `Strip` |
| `Fout.Handler.Format` | event_fout.c:316-337 | the text finds room if and only if it and a NUL fit 4 MiB and any growth was granted; what was there stays |
| `Fout.Handler.Snprintf` | event_fout.c:307-353 | the buffer gains the text, cleaned if asked, or is truncated, or was truncated and stays as it is |
| `Fout.Handler.RecordEvent` | event_fout.c:66-126 | whatever the allocator does, a record is added whole or not at all, and in the latter case the trace is truncated; it is added if and only if it fits 4 MiB and has its memory |
| `Fout.Handler.Collect` | event_fout.c:61-126 | under any allocator a stack's worth of events leaves the complete records before the first that does not fit or is refused memory |
| `Fout.Handler.WriteChunked` | event_fout.c:198-242 | indices run from 0 without gaps, the sentinel for the last chunk is on the last write and nowhere else, and the marker chunk is there if and only if the trace is truncated |
| `Fout.Handler.Write` | event_fout.c:158-196 | one write if it fits `-b`, chunks otherwise |
| `Fout.Handler.AddRecords` | event_fout.c:134-144 | the optional records are appended under the same rules |
| `Fout.RecordsStay` | event_fout.c:134-144 | appending never takes back a complete record |
| `Fout.Handler.StackEnd` | event_fout.c:127-146 | nothing is written for an empty buffer or a rejected trace; otherwise the verbose records are appended first |
| `Fout.Handler.Trace` | event_fout.c:61-146 | from first event to last write, under any allocator: nothing for a rejected trace or one whose first record was not kept, else the writes of the records and verbose records kept; with all memory granted, those of the longest prefix that fits |
| `Collapse.Collapser.GatherChunks` | stackcollapse-phpspy.pl:89-90 | the chunks' frames in index order |
| `Collapse.Collapser.Close` | stackcollapse-phpspy.pl:86-92 | a closing chunk counts its trace if the script's test passes, and leaves the counts alone if not |
| `Collapse.Collapser.ChunkLine` | stackcollapse-phpspy.pl:77-96 | the pending frames are parked under id and index, and a closing chunk removes its id from the table |
| `Collapse.Collapser.Line` | stackcollapse-phpspy.pl:64-111 | the effect of one line on stack, chunk table and counts |
| `Collapse.Collapser.Run` | stackcollapse-phpspy.pl:59-112 | the counts at end of input are those of folding over the stream's lines |
| `Collapse.AllThereIffEveryChunk` | stackcollapse-phpspy.pl:87-88 | the script's test on number and maximum of the keys holds if and only if the keys are exactly 0 to k |
| `Collapse.KeyEndsWithLeaf` | stackcollapse-phpspy.pl:69 | a key lists the frames root first and leaf last, separated by semicolons |
| `Records.LabelIsNotTraceId` | event_fout.c:81-144 | no metadata record can be mistaken for a trace id record |
| `Records.RecordDecoded` | event_fout.c:66-126 | a printed record is one line without newline, neither blank nor a trace id, and the decoder collects from it exactly its names |
| `Records.RecordsDecoded` | stackcollapse-phpspy.pl:64-111 | a buffer of records reads back as plain lines carrying exactly the records' names, in order |
| `Records.OrdinaryNameSurvives` | stackcollapse-phpspy.pl:98-110 | a class and function name without white space is collected as it is |
| `Delivery.TraceIdRoundTrip` | stackcollapse-phpspy.pl:77-81 | the id, index and mark that were printed are the ones the decoder reads |
| `Delivery.ChunkEffect` | stackcollapse-phpspy.pl:77-96 | a chunk write parks exactly the names in its body and leaves no pending frames |
| `Delivery.WholeEffect` | stackcollapse-phpspy.pl:67-72 | a trace written whole is counted once, by its names |
| `Delivery.GatherInOrder` | stackcollapse-phpspy.pl:87-91 | parked chunks gathered in order are the names of the concatenated bodies |
| `Truncation.TruncationPromise` | README.md:173-176 | under any allocator a truncated trace ends in a chunk with only the truncation marker if and only if its first record was kept and what was kept does not fit `-b` together with the marker |
| `Truncation.TruncationPromiseGranted` | README.md:173-176 | the same when no allocation fails, the condition on the first record being its length |
| `Truncation.OversizedRecordEndsInMarkerChunk` | event_fout.c:221-241 | a trace cut short by a record too large for its chunk always ends in the marker chunk |
| `Truncation.LargeBufferHasNoMarkerChunk` | event_fout.c:158-196 | with `-b` at 4 MiB every trace of 32768 or more records of 127 bytes is truncated and goes out in one write with the marker inside it |
| `Truncation.DeepTraceBreaksPromise` | event_fout.c:184-196 | one such trace: 1024 frames, 31 variables peeked at in each |
| `Truncation.RefusedMemoryWritesNothing` | event_fout.c:127-128 | a trace whose first record is refused memory is truncated, and neither record nor marker is written |
| `Truncation.RecordIsNotMark` | event_fout.c:53-58 | in newline mode no record, whatever it contains, prints as the truncation marker |
| `Truncation.MarkedIffTruncated` | event_fout.c:184-242 | in newline mode the marker is a line of the writes of a trace if and only if the builder or the chunk writer truncated it |
| `Truncation.MarkedIffRecordsDropped` | event_fout.c:158-242 | in newline mode, under any allocator, some record is not in the output if and only if the marker is a line of the writes, or there were records and nothing is written |
| `Truncation.KeptAllIffUnmarked` | event_fout.c:158-242 | the same of the records that the round trip counts as kept |
| `Stream.ClosingChunk` | stackcollapse-phpspy.pl:86-93 | the closing chunk counts its trace if and only if all its chunks have arrived, and then by all kept names |
| `Stream.WriteEffect` | stackcollapse-phpspy.pl:64-96 | what the next write of any trace, in any decoder state a run can reach, does to the decoder |
| `Stream.FreshId` | event_fout.c:206 | an id about to be drawn is not in the chunk table |
| `Stream.InvAlways` | event_fout.c:158-256 | after every run, the chunk table holds for each trace under way exactly its chunks that arrived |
| `Stream.OnlyCompleteTracesAreReported` | stackcollapse-phpspy.pl:59-112 | for all threads, traces, interleavings and lost writes the decoder counts exactly the traces that arrived in full, each by its kept frames root first |
| `Stream.TableHoldsOnlyOpenTraces` | stackcollapse-phpspy.pl:82-94 | after every run the chunk table mentions only traces under way and traces whose closing chunk was lost |
| `Stream.NothingForgotten` | event_fout.c:127-146 | every trace that was begun is under way or finished, and once |
| `Stream.RoundTrip` | README.md:161-176 | with nothing lost and nothing under way, the decoder has counted every trace begun, and its pending stack and chunk table are empty |
| `Pool.ProducerExclusive` | pgrep.c:93-104 | every step of the producer keeps queued and attached pids pairwise distinct and the queue within its array |
| `Pool.WorkerSlots` | pgrep.c:122-134 | a worker clearing its slot without the lock does not upset a scan in progress |
| `Pool.InvNext` | pgrep.c:57-146 | every step of every thread keeps all invariants |
| `Pool.ExclusiveAttachment` | pgrep.c:57-146 | in every reachable state the non-zero slots hold pairwise different pids, none of them queued; a worker from claim to clear has a non-zero slot, while tracing the pid it traces; the queue has no duplicates and at most as many entries as workers |
| `Pool.NoPidTracedTwice` | pgrep.c:57-146 | in every reachable state no two workers trace one pid |
| `Pool.NoLostWakeup` | pgrep.c:227-232 | once both broadcasts are out no thread waits on a condition variable, then or at any later time |
| `Pool.ClaimsAreCounted` | pgrep.c:125-132 | over any run after done is set, the claim counter of a worker grows by exactly the pids it takes |
| `Pool.AtMostOneMoreClaim` | pgrep.c:125-132 | in any run that goes on from a reachable state with done set, each worker takes at most one pid |
| `Pool.EveryStepNearsTheEnd` | pgrep.c:59-132 | after done is set every step of every thread lowers a measure |
| `Pool.ShutdownIsBounded` | pgrep.c:59-132 | so a run after done has at most that many steps |
| `Pool.ShutdownNeverStuck` | pgrep.c:227-232 | and until all threads are out some thread can move, even if no timed wait times out |
| `Callgrind.Accumulator.IngestFrame` | event_callgrind.c:122-130 | a frame is appended, or dropped beyond 128 |
| `Callgrind.DigestFrameAdds` | event_callgrind.c:154-192 | one turn of the digest loop adds exactly this position's call, and the leaf's sample |
| `Callgrind.Accumulator.DigestStack` | event_callgrind.c:147-193 | the tables gain exactly the plain counts over this stack |
| `Callgrind.Accumulator.StackEnd` | event_callgrind.c:106-112 | after it the tables equal the plain counts over all stacks digested so far |
| `Callgrind.Accumulator.Sample` | event_callgrind.c:100-130 | a trace counts by its 128 leaf-most frames |
| `Callgrind.StackFlow` | event_callgrind.c:154-192 | in one stack, being the root plus being called equals being the leaf plus calling, from any position on |
| `Callgrind.FlowConservation` | event_callgrind.c:147-193 | in the tables, for every location and any recursion: times root plus incoming inclusive equals exclusive plus outgoing inclusive |
| `Callgrind.Profile` | event_callgrind.c:100-112 | over any sequence of traces the tables equal the plain counts, on every edge the call count is at most the inclusive count, and flow is conserved at every location |
| `Callgrind.CountsAgreeIffDepths` | event_callgrind.c:183-188 | for every stack and every depth of the previous one: comparing from the leaf and from the root gives the same call counts for all previous stacks of that depth if and only if the depths are equal, the previous one is empty, or the stack has at most one frame |
| `Callgrind.ReturnCountsAsCall` | event_callgrind.c:55-59 | the comment's second example: the code counts a call where the comment counts none |
| `ZvalPrinter.PrintedIsRender` | phpspy_trace.c:578-733 | for every supported value whose rendering and two more bytes fit, the bounded printer prints exactly the comma-joined rendering, undefined slots left out |
| `ZvalPrinter.Put` | phpspy_trace.c:553-565 | writes only inside its window, at most its size less one, and ends with a NUL |
| `ZvalPrinter.SprintZval` | phpspy_trace.c:578-603 | for every value tree: writes only inside its window, returns a length below its size, and fails or prints as the bounded function says |
| `ZvalPrinter.SprintZarray` | phpspy_trace.c:616-651 | the same for an array, with the last comma taken back |
| `ZvalPrinter.SprintSlots` | phpspy_trace.c:634-646 | the same for the slot loop over shrinking windows |
| `ZvalPrinter.SprintPacked` | phpspy_trace.c:653-671 | the same for a packed element, left out if its index does not fit |
| `ZvalPrinter.SprintBucket` | phpspy_trace.c:706-733 | the same for a keyed element, whose key is left out if it does not fit |
| `ZvalPrinter.PeekValue` | phpspy_trace.c:349-353 | a peeked value is below 256 bytes, and is the full rendering whenever that and two more bytes fit |
| `ZendHash.UnrolledHash` | phpspy.c:902-929 | for every length the unrolled loop and its fall-through tail equal the left fold with 33 modulo 2 to the 64, top bit set |
| `ZendHash.SameSlot` | phpspy_trace.c:506-510 | for every power-of-two size up to Zend's largest (2 to the 30) phpspy's slot is the one Zend addresses with hash or mask as a signed index |
| `ZendHash.CopyBucket` | phpspy_trace.c:493-535 | on a chain that ends the walk ends, at the first bucket without string key or with the key looked for |
| `ZendHash.LookUp` | phpspy_trace.c:493-535 | on every table as Zend keeps it the lookup returns the key's bucket, or an error exactly if there is none, if and only if no integer-keyed bucket comes before it on its chain; with string keys only it always does |
| `ZendHash.ReadsZendSlot` | phpspy_trace.c:506-510 | on every table as Zend keeps it the slot read is the one Zend reads |
| `ZendHash.LookupAgreesIffNotShadowed` | phpspy_trace.c:514-532 | on every table as Zend keeps it the walk along the chain of the key's slot agrees with the map the table holds if and only if no integer-keyed bucket comes before the key's own |
| `ZendHash.StringTableLookup` | phpspy_trace.c:514-532 | on every such table with string keys only, the key's bucket is found, or nothing exactly if there is none |
| `ZendHash.IntegerKeyShadows` | phpspy_trace.c:520-522 | a table of eight slots in which an absent key is found |
| `StackWalk.StackCollect` | phpspy_trace.c:71-89 | any chain, cyclic ones included, is collected up to 1024 frames, or fails if and only if a link cannot be read |
| `StackWalk.ChainFollowsLinks` | phpspy_trace.c:75-87 | the collected frames start at the leaf, each is the caller of the one before, and the last has no caller unless the limit was reached |
| `StackWalk.EmitKept` | phpspy_trace.c:165-179 | emits every frame outside the gap at its own depth, and one marker at the gap; fails if and only if one of those frames cannot be read |
| `StackWalk.TraceCollected` | phpspy_trace.c:153-180 | the first n frames, one marker and the last N if their sum is below the total, all frames otherwise |
| `StackWalk.TraceOnePass` | phpspy_trace.c:181-190 | the frames up to the leaf limit and the walk limit; succeeds if and only if all of them can be read |
| `StackWalk.WalksAgree` | phpspy_trace.c:146-193 | without elision both modes emit the same frames; with elision they agree up to the marker |
| `StackWalk.MarkerIsExact` | phpspy_trace.c:157-180 | real frames keep the depth they have in the whole stack, there is a marker if and only if something is elided, and its depth plus its count is where the stack resumes |
| `Top.ChildOutput.Read` | top.c:172-198 | a read hands on exactly the lines it completes and keeps the unfinished rest |
| `Top.ChildOutput.Drain` | top.c:192-197 | the lines at the front are handed on in order and removed |
| `Top.SplitIsExact` | top.c:192-197 | the complete lines with their newlines and the unfinished rest are the stream again, and no line contains a newline |
| `Top.LinesIndependentOfReads` | top.c:172-198 | for every stream and every way of cutting it into reads, the lines handed on are its complete lines in order if and only if each fits 512 bytes with its newline |
| `Top.FrameLineSampled` | top.c:221-234 | a frame record as the output handler prints it is one sample, at the leaf if and only if its depth is zero |
| `Top.Counters.FindOrAdd` | top.c:236-247 | yields an entry of that name and changes no count |
| `Top.Counters.HandleLine` | top.c:221-254 | after it every counter, by name and in all, equals the count over the lines since the last display |
| `Top.Counters.Display` | top.c:291-332 | the window's counts move into the totals, which equal the counts over all earlier lines, and the window starts at zero |
| `Top.Session` | top.c:221-332 | over any sequence of lines and displays: exclusive counts sum to the samples since the last display and their totals to the samples before it, and all counters, by name, are the counts over those lines |
| `RunLoop.MainPid` | phpspy.c:470-510 | exactly the complete or truncated traces are counted, at most as many as the limit, and the loop stops on the one that reaches it |
| `RunLoop.InvNext` | phpspy.c:488-499 | every step of every concurrent call keeps the bound |
| `RunLoop.TraceLimit` | phpspy.c:488-499 | in every interleaving the count is at most the limit less one plus the calls that stopped on it |
| `ShellEscape.Escape` | addr_objdump.c:8-51 | succeeds if and only if the quoted form and a NUL fit, writes nothing beyond the given size, and leaves the quoted form |
| `ShellEscape.EscapeRoundTrip` | addr_objdump.c:14-43 | read by the quoting rules of section 2.2 of POSIX.1-2017 XCU, the quoted form of any argument is one word equal to it |

## Left out

- Partial writes: a write reaches the stream as a unit or not at all, which holds up to `PIPE_BUF` bytes on a pipe or under the mutex option.
- Wrap-around of the trace id counter: a run draws fewer than 2 to the 64 ids.
- Single-line mode in front of the decoder, and reading the marker off its output: the script reads one record per line. `TraceFormat`, `Fout`, `Chunking` and `Truncation.TruncationPromise` cover both modes.
- Decoder keys are numbers: ids or indices that differ only in leading zeros, which the printer never prints, are not told apart.
- The decoder's UTF-8 and control-character scrubbing is an arbitrary function of the name.
- The regular-expression filter is an arbitrary yes or no per trace.
- Floating-point and other number formatting: printed texts are given.
- Values in cyclic remote memory: the value printer works on finite trees.
- Remote memory changing while it is read, ptrace, address discovery and version detection.
- Pids that are zero or negative in pgrep's output.
- Signal delivery and the done pipe: the signal thread may set done at any time.
- Counter overflow in `Callgrind.dfy`, `Top.dfy` and `RunLoop.dfy`, and overflow of `-n` plus `-N`.
- Top mode: the order `func_list_compare` gives the rows, the percentages, the screen, pausing and the error count.
- Callgrind mode: the text of the dump and the order of its entries.
- How the texts of request, memory and PDO records come about: the output handler takes them as given.
- Option parsing: settings are parameters.
- The time limit's clock arithmetic: whether time is up is a given of each turn.
