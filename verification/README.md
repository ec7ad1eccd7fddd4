# Verified models of the Raspberry Pi port's tools

The repository coordinates a port of Phoenix-RTOS to the Raspberry Pi. Its tools are small programs whose answers
engineers rely on: how deep a kernel stack can get, what a rolling trace says, whether a shared object was loaded
correctly, which boot stage an LED has blinked. This project models the algorithms inside those tools in Dafny and
proves what they promise.

| file | what it models |
|---|---|
| `StackDepth.dfy` | the worst-case stack walk over a call graph: memoised depth-first search with cut cycles |
| `Recursion.dfy` | what that walk says, and does not say, about recursion |
| `LittleEndian.dfy`, `TraceDecode.dfy` | the trace decoder with its nested records, its resynchronisation and its merge of channels |
| `WaitTracker.dfy` | the state machine that turns trace events into one record per thread wait |
| `TraceEvents.dfy` | the fields of an event's payload, and the way from the bytes of a trace to its wait records |
| `Collapse.dfy` | the log flood collapser |
| `Loader.dfy`, `LoaderFormat.dfy` | the minimal dynamic loader: span, segments, dynamic section, symbols, relocations; and the bytes of its tables |
| `LedMask.dfy`, `LedCode.dfy`, `LedVideo.dfy`, `LedStages.dfy` | the LED decoder: mask, pulses, stage codes, all three together, and the search for the boot sequence |
| `BoTrace.dfy` | the detector of buffer mappings with two owners |
| `Alloc.dfy`, `Printf.dfy` | the host shim's bump allocator and its `vsnprintf` |
| `Life.dfy` | the toroidal Game of Life of the demo, and its glider |
| `Nvram.dfy` | the packer of the WiFi NVRAM blob |

How the files are laid out: a reference comes first (paths of a graph, the boundaries of a byte string, the record a
trace holds for a wait, the words relocations call for), written without reference to the algorithm. Then come the
algorithm, in the form the source has (loops, arrays, objects that change), with contracts in terms of the reference,
and lemmas that say what the reference guarantees.

Where the code does not do what its own text says, the model follows the code:

- `worst` says that recursion is reported. A cycle of calls always is (`StackDepth.CallCycleIsCut`), but a cycle closed
  by a tail call is cut without a note. So a graph of unbounded depth can get a depth and no note
  (`Recursion.SpiralGoesUnreported`), and a graph of bounded depth can get a depth that is too small and no note
  (`Recursion.TwoFirst`: 101 where the worst is 160). If no tail edge closes a cycle the report is exact, and without a
  note so is the depth (`Recursion.RecursionIsReported`). With such tail edges both can depend on the order in which a
  set is iterated: the depth (`Recursion.TwoFirst` and `Recursion.FourFirst`: 101 and 160) and the notes
  (`Recursion.NoNote` and `Recursion.OneNote`).
- `collapse` never ends for some logs if `min_run` is negative: an empty stretch then counts as a flood and the scan
  stays where it is. `Collapse.CollapseLog` and `Collapse.NeverEnds` say exactly when it ends.
- A wait recorded when complete may start before the thread's previous wait ended (`WaitTracker.OverlapHappens`).
  `WaitTracker.OverlapExactly` says for which traces no two records of a thread overlap.
- A wakeup seen before a wait that is recorded when complete belongs to that wait. If another wait of the thread is
  still open, the code drops it (`WaitTracker.WakeupIsDropped`); `WaitTracker.CompleteWaitWakes` says exactly when.
- `vsnprintf` emits the sign before padding with spaces and ignores the width of `%c`; section 7.21.6.1 of ISO C11 pads
  in front of the sign, and pads characters too. `Printf.IsoExactly` and `Printf.TextExactly` say exactly which
  directives and texts depart from it, of the conversions the formatter supports. Every other letter or flag of that
  section leaves a question mark and no argument is taken for it (`Printf.OtherLetter`).
- `malloc` hands out too small a block, or one it has handed out before, for sizes near 2^64 (`Alloc.TooSmall`,
  `Alloc.HandedOutTwice`). `Alloc.SoundExactly` and `Alloc.Heap.Malloc` say exactly for which sizes it serves a request
  right. `calloc` does so exactly if besides its product does not wrap or is refused all the same
  (`Alloc.ProductWraps`).
- In `interpret`, the third tie-break between candidate sequences can never decide (`LedStages.SameStages`).

## Model

| member | source | states |
|---|---|---|
| `StackDepth.Worst` | tools/elf-stack-depth/elf-stack-depth.py:181-221 | On every finite graph, recursive or not: the walk ends; a found path is a simple path of real edges from the root (to the goal) that avoids the cut edges and whose listed frames sum to the depth; the result is None exactly if a goal is given and unreachable; no path avoiding the cut edges is deeper; without the cut edges the reachable graph is acyclic, and nothing is cut exactly if it already was; then the depth is the maximum over all paths; each note appears exactly when the disassembly and the cut edges call for it, and one appears for every cycle of calls. Depth and listing do not depend on the goal; the rows below say what they are |
| `StackDepth.Walker.Walk` | tools/elf-stack-depth/elf-stack-depth.py:189-218 | Walking a function along the current path keeps the invariant of the whole search (memo exact for finished functions, finishing ranks fall along uncut edges) and leaves the function finished, whatever the order of its edges |
| `StackDepth.Walker.Explore` | tools/elf-stack-depth/elf-stack-depth.py:203-215 | The loop over the call or tail edges of a function ends with each of them either cut or followed to a finished function, and with a best path no worse than any of them offers |
| `StackDepth.Walker.SkipEdge` | tools/elf-stack-depth/elf-stack-depth.py:204-212 | An edge back into the current path is cut, and leaves a note exactly if it is a call |
| `StackDepth.CutsMakeAcyclic` | tools/elf-stack-depth/elf-stack-depth.py:187-188 | After the walk the reachable graph without the cut edges has no cycle; no edge was cut exactly if it had none |
| `StackDepth.CallCycleIsCut` | tools/elf-stack-depth/elf-stack-depth.py:203-206 | Every cycle of call edges that the root reaches leaves a recursion note, whatever the tail edges and the order of the sets |
| `StackDepth.MemoIsDeepest` | tools/elf-stack-depth/elf-stack-depth.py:187-188 | No path that keeps off the cut edges is deeper than the memoised result of its first function |
| `StackDepth.ListingIsFaithful` | tools/elf-stack-depth/elf-stack-depth.py:199-215 | The listed functions are linked by edges, distinct on a simple path, and their frames add up to the depth, a function left by a tail call counting nothing |
| `StackDepth.DepthIsFrames` | tools/elf-stack-depth/elf-stack-depth.py:199-215 | The depth of a path is the sum of the frames on the stack at its end: those of the functions left by a call, and of the last |
| `StackDepth.ListingExactly` | tools/elf-stack-depth/elf-stack-depth.py:199-215 | The list shows every function of the path in order, with its frame, or with 0 if it is left by a tail call |
| `StackDepth.PathExactly` | tools/elf-stack-depth/elf-stack-depth.py:198-215 | The paths considered are those of the disassembly; with a goal, exactly those that meet it at their end and nowhere else |
| `StackDepth.GoalPathIsPath` | tools/elf-stack-depth/elf-stack-depth.py:198-201 | A path to a goal is a path of the question without one |
| `StackDepth.GoalIsNoDeeper` | tools/elf-stack-depth/elf-stack-depth.py:181-221 | Where nothing is recursive, the depth to a goal is never above the depth without one |
| `StackDepth.TailGivesFrameBack` | tools/elf-stack-depth/elf-stack-depth.py:210-215 | A function of 100 bytes that tail-calls the goal of 50 gets depth 50, itself listed with 0 |
| `Recursion.SpiralIsUnbounded` | tools/elf-stack-depth/elf-stack-depth.py:210-215 | The first counterexample has paths of every depth 16(n + 1) |
| `Recursion.NoCallClosesTheSpiral` | tools/elf-stack-depth/elf-stack-depth.py:203-206 | No call edge of it leads back into a path from the root |
| `Recursion.SpiralGoesUnreported` | tools/elf-stack-depth/elf-stack-depth.py:187-212 | For that cyclic graph the tool returns a depth and no recursion note |
| `Recursion.LoopWorst` | tools/elf-stack-depth/elf-stack-depth.py:203-215 | The second counterexample has a path of depth 160 and none deeper |
| `Recursion.TakeFirst` | tools/elf-stack-depth/elf-stack-depth.py:203-209 | If the root's call of a is taken first, the cut edges out of a lead back to the root or to a |
| `Recursion.TakeThrough` | tools/elf-stack-depth/elf-stack-depth.py:203-215 | If the root's call of a is taken first and a does nothing but call c, the cut edges out of c lead back to the root, to a or to c |
| `Recursion.TwoFirst` | tools/elf-stack-depth/elf-stack-depth.py:203-218 | On that graph, taking 2 before 4, the tool returns 101 and no recursion note |
| `Recursion.FourFirst` | tools/elf-stack-depth/elf-stack-depth.py:203-218 | Taking 4 before 2 it returns 160 and no recursion note |
| `Recursion.NoNote` | tools/elf-stack-depth/elf-stack-depth.py:203-218 | The third counterexample, a call and a tail call that close a cycle together, gets no recursion note if the caller is taken first |
| `Recursion.OneNote` | tools/elf-stack-depth/elf-stack-depth.py:203-218 | It gets one if the tail-caller is taken first |
| `Recursion.RecursionIsReported` | tools/elf-stack-depth/elf-stack-depth.py:187-206 | On every graph: a cycle of calls is reported, and what is reported closes a cycle; if no tail edge closes a cycle, a note appears exactly if the reachable graph has a cycle, and without a note the depth is the maximum over all paths |
| `TraceDecode.UserIsEncoded` | scripts/prof-report.py:60-69 | A user record whose size is not 0 is the encoding of four registers, counted frames and counted stack words, up to that size |
| `TraceDecode.KnownIds` | scripts/prof-report.py:40-44 | Which event ids have a fixed size, and which of them share which size |
| `TraceDecode.EvSizeExactly` | scripts/prof-report.py:60-92 | The size is r exactly if the bytes there are the encoding of an event with a payload of r bytes, so 0 means that no event is there |
| `TraceDecode.SyncAt` | scripts/prof-report.py:98-112 | True exactly at a boundary: six events, or at least one and all up to the end, parse back to back with time not going back |
| `TraceDecode.FindSync` | scripts/prof-report.py:119-126 | The least boundary from the start on, or the place fewer than five bytes before the end if there is none |
| `TraceDecode.LoadStream` | scripts/prof-report.py:115-136 | On every byte string: the events emitted are those of its decoding; skipped bytes, event bytes and a tail of fewer than five bytes make up the length |
| `TraceDecode.DecodingIsUnique` | scripts/prof-report.py:115-134 | A byte string has at most one decoding, so the previous row fixes the output |
| `TraceDecode.EventsAreOrdered` | scripts/prof-report.py:127-134 | Emitted ranges are in order and disjoint |
| `TraceDecode.ResyncYieldsRun` | scripts/prof-report.py:98-134 | From a boundary on, six events, or all up to the end, come out back to back before the next resynchronisation |
| `TraceDecode.EncodedSize` | scripts/prof-report.py:60-92 | An encoded event, whatever surrounds it, is read with its own size |
| `TraceDecode.StartIsBoundary` | scripts/prof-report.py:98-112 | A stream of encoded events whose first six times do not go back starts at a boundary |
| `TraceDecode.RoundTrip` | scripts/prof-report.py:60-134 | Decoding encoded events behind junk without a boundary gives exactly these events and skips exactly the junk |
| `TraceDecode.LoadEncoded` | scripts/prof-report.py:115-136 | The same for the decoder itself, with or without junk; each event carries its place in the file and the CPU of the file |
| `TraceDecode.UrecordParses` | scripts/prof-report.py:72-79 | Parsing an encoded user record gives its registers, frames and stack back, and the record ends where the size says |
| `TraceDecode.PayloadParses` | scripts/prof-report.py:495-500 | Unpacking an encoded nested payload as the wait handler does gives kernel frames, registers, user frames and stack back |
| `TraceDecode.Merge` | scripts/prof-report.py:152-153 | The merged events are a permutation of the loaded ones, ordered by time and then by sequence number |
| `TraceDecode.MergeIsStable` | scripts/prof-report.py:152-153 | Two events loaded in an order their times do not contradict stay in that order |
| `TraceDecode.LoadTrace` | scripts/prof-report.py:139-153 | All channel files are decoded in turn and merged, each event once, and each carries the CPU of the file it stands in |
| `TraceDecode.MergedFromFiles` | scripts/prof-report.py:139-153 | Every event of the merged trace stands whole, with time, id and payload, in a file whose CPU it carries |
| `WaitTracker.Run` | scripts/prof-report.py:389-438 | Each wait event of every trace gets exactly one record, equal to the one the trace itself determines (start, end, open, wakeup, interrupt, syscall, message, server), and there are no others; the rows below say what that record holds |
| `WaitTracker.Analysis.OnWait` | scripts/prof-report.py:495-524 | A wait event keeps the state exact: the wait still open is ended, the new one left open, or ended at once if it is complete |
| `WaitTracker.Analysis.OnWaking` | scripts/prof-report.py:416-421 | A waking ends the thread's open wait with its record, or forgets the wakeup |
| `WaitTracker.Analysis.EndWait` | scripts/prof-report.py:526-539 | Ending a wait appends one record with the wakeup and the server known then, and clears wait and wakeup |
| `WaitTracker.Analysis.OnOther` | scripts/prof-report.py:390-435 | Every other event keeps syscalls, messages, servers, interrupt stacks and wakeups exact |
| `WaitTracker.ServerExactly` | scripts/prof-report.py:422-435 | For a wait on a message: if what the trace last says of the message before the wait ended is that a thread other than 0 received or answered it, that thread is the server; else it is the waker, if there is one |
| `WaitTracker.WakeExactly` | scripts/prof-report.py:411-415 | A recorded wakeup is that of its event: its waker, its cause if that is at most 4 and else 4, and for cause 0 alone the innermost interrupt under way on its CPU |
| `WaitTracker.ServedByFive` | scripts/prof-report.py:526-539 | A message received by thread 5 and a wakeup by thread 9: the server is 5 |
| `WaitTracker.WaitsConserved` | scripts/prof-report.py:389-438 | At every moment of every trace, finished waits and threads with an open wait add up to the wait events seen |
| `WaitTracker.RecordSpan` | scripts/prof-report.py:526-530 | In a time-sorted trace every record has non-negative length and ends at the event that ended it |
| `WaitTracker.WakeupEndsOneWait` | scripts/prof-report.py:411-421 | A wakeup is attributed to at most one wait |
| `WaitTracker.WakeupNextTouch` | scripts/prof-report.py:411-421 | The wakeup of a record belongs to its thread, and nothing touches the thread between it and the end of the wait |
| `WaitTracker.WakeupInsideWait` | scripts/prof-report.py:516-531 | For a wait recorded at its start the wakeup lies inside the wait |
| `WaitTracker.WaitsDoNotOverlap` | scripts/prof-report.py:502-516 | A wait recorded at its start begins no earlier than the thread's earlier waits ended |
| `WaitTracker.CompleteWaitOverlaps` | scripts/prof-report.py:515-522 | A wait recorded when complete begins no earlier than an earlier one of its thread ended exactly if it was blocked no longer than since the event that ended that one: its own, or the next wait or waking of the thread |
| `WaitTracker.OverlapExactly` | scripts/prof-report.py:502-522 | In a time-sorted trace no two records of one thread overlap exactly if each complete wait was blocked no longer than since the last wait before it ended |
| `WaitTracker.OverlapHappens` | scripts/prof-report.py:515-522 | A trace with a record up to 110 and the next one of the thread from 105 on |
| `WaitTracker.CompleteWaitWakes` | scripts/prof-report.py:502-522 | A complete wait with a wakeup since the thread's last wait or waking is attributed it exactly if that event left no wait open; else neither wait gets it |
| `WaitTracker.WakeupIsDropped` | scripts/prof-report.py:502-531 | A trace whose only wakeup no record gets |
| `TraceEvents.SizesAgree` | scripts/prof-report.py:40-44 | The table of payload sizes agrees with the fields the recorder writes, event by event |
| `TraceEvents.HandledAsRecorded` | scripts/prof-report.py:389-435 | Unpacking the payload of any recorded event gives the fields that were recorded |
| `TraceEvents.DecodedIsWhole` | scripts/prof-report.py:82-92 | Every event the decoder lets through is long enough for its handler, whatever the bytes |
| `TraceEvents.Analyze` | scripts/prof-report.py:139-438 | Any channel files: they are decoded, merged and unpacked without a fault, and each wait gets the one record its trace determines |
| `TraceEvents.AnalyzeRecorded` | scripts/prof-report.py:115-438 | From bytes to records: for a recorded trace behind junk without a boundary, exactly the junk is skipped and the records are those the recorded events determine, with the CPU of the file |
| `Collapse.ScanOn` | scripts/collapse-uart-log-floods.py:53-58 | The scan ends at the fifth distinct line: its distinct lines in order of first appearance, and no longer stretch of at most four starts there |
| `Collapse.TrimBack` | scripts/collapse-uart-log-floods.py:59-63 | The trim leaves the longest stretch of at most four distinct lines that ends on a line repeated inside it |
| `Collapse.CollapseLog` | scripts/collapse-uart-log-floods.py:47-75 | It ends if min_run is not negative or every stretch on the way moves on; then the log is divided without gap into kept lines and floods, a flood is a longest stretch of more than min_run lines, a line is kept only if none starts there, and output and both counts are those of the division |
| `Collapse.NeverEnds` | scripts/collapse-uart-log-floods.py:52-74 | Otherwise no round ever gets to the end: each leads to another position like that, and to the same one if the stretch is empty |
| `Collapse.StuckAtOnce` | scripts/collapse-uart-log-floods.py:59-71 | Two different lines are such a log |
| `Collapse.StretchEndsRun` | scripts/collapse-uart-log-floods.py:59-63 | A flood never ends inside a run of equal lines |
| `Collapse.FloodStartsRun` | scripts/collapse-uart-log-floods.py:64-74 | A flood never starts inside a run whose earlier lines were kept |
| `Collapse.CollapseFloods` | scripts/collapse-uart-log-floods.py:37-75 | The whole of collapse: no flood is left, nor a run of more than max(1, min_run) identical lines; without markers the output is a subsequence of the log with the same distinct lines in the same order of first appearance; lines left and dropped count add up to the log; output and both counts are those of a division of the whole log |
| `Collapse.FourCollapse` | scripts/collapse-uart-log-floods.py:34-75 | A log of more than min_run lines that repeats four different ones in turn becomes these four and a marker for the rest |
| `Collapse.FiveKept` | scripts/collapse-uart-log-floods.py:34-75 | A log in which no line comes back within five is left as it is |
| `Collapse.NoFloodLeft` | scripts/collapse-uart-log-floods.py:52-74 | No flood by the tool's own definition is left: lines that stand together in the output, are drawn from at most four and end on one that repeats number at most min_run |
| `Collapse.NoLongRun` | scripts/collapse-uart-log-floods.py:52-74 | No run of more than max(1, min_run) identical lines is left in the output |
| `Collapse.StripWritten` | scripts/collapse-uart-log-floods.py:64-68 | What is written for a flood is its distinct lines in order of first appearance, and its marker counts the rest |
| `Collapse.EvidenceKept` | scripts/collapse-uart-log-floods.py:38-46 | Without markers the output is a subsequence of the log with the same distinct lines in the same order of first appearance, and written and dropped lines add up to the log |
| `Collapse.MarkerStandsForFlood` | scripts/collapse-uart-log-floods.py:64-70 | Each marker stands for more than min_run lines of one to four distinct values, drops at least one, and the last line of its stretch occurs in it before |
| `Collapse.SingleLineFlood` | scripts/collapse-uart-log-floods.py:67 | A flood of one distinct line can be rebuilt from what is written |
| `Loader.ExtentIsTight` | tools/dlopen-poc/minidl.c:176-193 | Every loadable segment lies in the extent, and both its ends are those of segments |
| `Loader.SpanSuffices` | tools/dlopen-poc/minidl.c:202-211 | For a regular layout the reserved span covers every page of every segment |
| `Loader.PageExactly` | tools/dlopen-poc/minidl.c:92-94 | The last multiple of 4096 not above an address, and the first not below it unless it wraps |
| `Loader.BiasedIndex` | tools/dlopen-poc/minidl.c:202-211 | Adding the bias modulo 2^64 puts each object address as far into the span as it is from the object's lowest page, wherever the span lies |
| `Loader.MapSegment` | tools/dlopen-poc/minidl.c:213-248 | Mapping one segment replaces exactly its pages: file bytes and zeroes if writable, the file from its page on otherwise |
| `Loader.MapSegments` | tools/dlopen-poc/minidl.c:213-248 | Mapping all segments leaves an image that does not depend on where the span lies |
| `Loader.AllMapped` | tools/dlopen-poc/minidl.c:213-248 | In that image every segment has its file bytes and, if writable, its zeroes, and pages of no segment are untouched |
| `Loader.LastTagIsLast` | tools/dlopen-poc/minidl.c:250-263 | The entry taken for a tag is its last one before DT_NULL |
| `Loader.WalkDynamic` | tools/dlopen-poc/minidl.c:250-263 | The tables found are, tag by tag, those of the last such entries, pointers biased and sizes not |
| `Loader.Resolve` | tools/dlopen-poc/minidl.c:114-132 | A defined symbol resolves to bias plus value, an undefined one to the first host export of its name, else to nothing |
| `Loader.RelocatePass` | tools/dlopen-poc/minidl.c:277-305 | One table: it succeeds exactly if each of its relocations has a word, and then each slot holds its word and every other byte is as before; else the first without a word gives the error |
| `Loader.Relocate` | tools/dlopen-poc/minidl.c:271-306 | Both tables in turn, with the same exactness |
| `Loader.WordMoves` | tools/dlopen-poc/minidl.c:284-300 | The words of one relocation at two biases differ by the difference of the biases modulo 2^64 if it refers to the object and are equal if it refers to the host |
| `Loader.TwoBiases` | tools/dlopen-poc/minidl.c:202-306 | Two loads of one object: every relocated word is so related and every other byte is equal |
| `Loader.Open` | tools/dlopen-poc/minidl.c:176-306 | Opening an object with a regular layout: it fails for lack of segments exactly if it has none or no dynamic section, for lack of tables exactly if the pointer to the symbol or string table is NULL, and later exactly if some relocation has no word, the first of which gives the error; if it succeeds the image is the mapped file with exactly the relocated words patched |
| `Loader.OpenedAsMapped` | tools/dlopen-poc/minidl.c:213-306 | After that every byte of the file and of the bss outside the relocated words is at its place |
| `Loader.OpenTwice` | tools/dlopen-poc/minidl.c:134-306 | Opened at two bases, words that refer to the object differ by the difference of the biases modulo 2^64, and all else is equal |
| `LoaderFormat.DynIsRead` | tools/dlopen-poc/minidl.c:46-49 | An entry of the dynamic section is read as its tag and value, wherever it lies |
| `LoaderFormat.RelIsRead` | tools/dlopen-poc/minidl.c:58-60 | A relocation of 24 bytes is read as its offset, type, symbol and addend |
| `LoaderFormat.SymIsRead` | tools/dlopen-poc/minidl.c:51-56 | A symbol of 24 bytes is read as its name and value, and is local exactly if its section is not 0 |
| `LoaderFormat.NameIsRead` | tools/dlopen-poc/minidl.c:117-118 | A name in the string table is read up to its NUL |
| `LoaderFormat.BiasExactly` | tools/dlopen-poc/minidl.c:210 | The bias is the base minus the lowest page, modulo 2^64 |
| `LoaderFormat.OpenEncoded` | tools/dlopen-poc/minidl.c:176-306 | From bytes to words: an object whose mapped image holds given dynamic entries, symbols, names and relocations is opened exactly if its tables have an address and every relocation of both tables applies (type 1027 always, 257, 1025 and 1026 if the symbol has an address, no other); then every relocated word is bias plus addend, or the symbol's address plus addend; else the first that does not apply gives the error |
| `LedMask.Merge` | scripts/analyze-rpi4-actled-video.py:131-147 | A frame is lit afterwards exactly if it was, or lies in a dark run of at most max_gap frames with light on both sides |
| `LedMask.NoShortGap` | scripts/analyze-rpi4-actled-video.py:131-147 | No such gap is left |
| `LedMask.MergeIsIdempotent` | scripts/analyze-rpi4-actled-video.py:131-147 | Merging again changes nothing |
| `LedMask.Segments` | scripts/analyze-rpi4-actled-video.py:150-162 | Exactly the maximal lit runs of at least min_frames, in order |
| `LedMask.PulsesApart` | scripts/analyze-rpi4-actled-video.py:131-162 | Segments of a merged mask are more than max_gap frames apart |
| `LedMask.SegmentsRebuild` | scripts/analyze-rpi4-actled-video.py:150-162 | With min_frames at most 1 the segments cover exactly the lit frames |
| `LedCode.BitsRoundTrip` | scripts/rpi4_actled_probe_layout.py:21-24 | Reading the bit string of a code gives the code; the string has the given width exactly for codes that fit |
| `LedCode.BuildGroups` | scripts/analyze-rpi4-actled-video.py:369-439 | The scan ends with exactly the groups that the recursive reading of the pulses gives: disjoint consecutive slices, each the longest chain of up to six pulses within the gap threshold from a sync pulse, and no sync pulse left outside |
| `LedCode.GroupDescribes` | scripts/analyze-rpi4-actled-video.py:400-436 | A group is complete exactly if it has six pulses; six with a bit threshold are decoded, the k-th bit being 1 exactly if the pulse after the sync pulse lasts longer than the threshold, and the code is 16, 8, 4, 2 and 1 times these bits; two to five, or six without a threshold, are no code |
| `LedCode.LongIsOne` | scripts/analyze-rpi4-actled-video.py:401-411 | Five pulses that last longer than the threshold exactly where the code has a one are read as the bits of that code |
| `LedCode.GroupsAreSlices` | scripts/analyze-rpi4-actled-video.py:381-437 | For all pulses, the groups are disjoint consecutive slices, numbered in order; each is the longest chain of up to six pulses within the gap threshold from a sync pulse, decoded from its five bits; no sync pulse is left outside |
| `LedCode.CodesRoundTrip` | scripts/analyze-rpi4-actled-video.py:381-437 | Any list of 5-bit codes, sent as a sync pulse and five pulses that last longer than the threshold exactly for the ones, with inner gaps within the threshold and any noise outside the sync range in between, decodes to exactly that list, every group complete |
| `LedVideo.MergeIsClean` | scripts/analyze-rpi4-actled-video.py:131-147 | If the mask shows pulses that go dark for at most max_gap frames at a time, and nothing else, a merged frame is lit exactly if a pulse covers it |
| `LedVideo.SegmentsArePulses` | scripts/analyze-rpi4-actled-video.py:150-162 | The segments of such a merged mask are exactly the pulses of at least min_frames |
| `LedVideo.MaskShows` | scripts/analyze-rpi4-actled-video.py:131-162 | Every mask shows exactly one list of pulses in this sense |
| `LedVideo.Decode` | scripts/analyze-rpi4-actled-video.py:131-439 | End to end: a mask that shows bursts of codes, each a sync pulse and five pulses long for ones, with glitches of at most max_gap frames, flashes shorter than min_frames and noise that opens no group, is merged, segmented and grouped into exactly these codes; on every mask the groups are those of the pulses it shows |
| `LedStages.Follow` | scripts/interpret-rpi4-actled-analysis.py:63-77 | The greedy chain from a start is a chain of consecutive stages, takes the first group that carries each, and gets as far as any chain, by every group |
| `LedStages.SameStages` | scripts/interpret-rpi4-actled-analysis.py:91-94 | Chains of one length from one start code end on the same code, so the third tie-break never decides |
| `LedStages.GreedyIsBest` | scripts/interpret-rpi4-actled-analysis.py:67-77 | No chain from the same group beats the greedy one |
| `LedStages.Search` | scripts/interpret-rpi4-actled-analysis.py:49-94 | The result is best among all chains from all groups (longest, then least start code, then earliest) and takes the first group that carries each stage, or is empty exactly if no group carries a stage |
| `LedStages.BestIsUnique` | scripts/interpret-rpi4-actled-analysis.py:49-94 | There is only one such list, so the previous row fixes the result |
| `LedStages.Interpret` | scripts/interpret-rpi4-actled-analysis.py:96-134 | Matched and unmatched groups partition the valid groups in order, and the stage expected next is the one after the last matched |
| `BoTrace.Analyze` | scripts/analyze-bo-trace.py:44-79 | On every trace the overlap list is exact: one entry for each CREATE or MMAP at an address last opened by another handle that is open and was not closed there, with both handles and the line, in order, and nothing else; reuse lists exactly the handles opened at each address. If an open handle keeps one address and each CLOSE names an open handle with its own address, the list is empty exactly if at no moment two open handles held one address |
| `BoTrace.ClashExactly` | scripts/analyze-bo-trace.py:66-77 | On such a trace the entries are exactly the openings at an address whose last opener is another handle that still holds it |
| `BoTrace.ListsBoth` | scripts/analyze-bo-trace.py:72-77 | Three handles opened at one address give two entries |
| `BoTrace.OpenStep` | scripts/analyze-bo-trace.py:72-77 | A CREATE or MMAP keeps owners and live handles consistent with who holds what, and reports exactly a new sharing |
| `BoTrace.CloseStep` | scripts/analyze-bo-trace.py:66-70 | So does a CLOSE |
| `Alloc.RoundedExactly` | tools/dl-hosttest/shim.c:369-371 | The block is large enough exactly if the rounding does not wrap |
| `Alloc.TestExactly` | tools/dl-hosttest/shim.c:370-372 | The test for room is the intended one exactly if its sum does not wrap |
| `Alloc.SoundExactly` | tools/dl-hosttest/shim.c:365-377 | What malloc returns is room for the request, or NULL where there is none, exactly if nothing wraps, or the rounding does and the heap is full even for the rest |
| `Alloc.TooSmall` | tools/dl-hosttest/shim.c:369-376 | On a fresh heap 2^64 - 1 bytes are answered by eight |
| `Alloc.HandedOutTwice` | tools/dl-hosttest/shim.c:365-377 | After a request for 2^64 - 32 bytes a block in use is handed out again |
| `Alloc.ProductWraps` | tools/dl-hosttest/shim.c:382 | 2^63 members of two bytes are a product that wraps to nothing |
| `Alloc.Heap.Malloc` | tools/dl-hosttest/shim.c:365-377 | For every size: the request is served right exactly if it is sound, and then a new block of at least the requested capacity comes behind all others exactly if it fits, else nothing changes; only the word in front of the block is written |
| `Alloc.Heap.Calloc` | tools/dl-hosttest/shim.c:380-388 | The same for the wrapped product, with that many bytes zero and no byte outside header and request changed; the request is served right exactly if the product does not wrap or is refused all the same |
| `Alloc.Heap.Realloc` | tools/dl-hosttest/shim.c:391-401 | The new block starts with the old contents up to the smaller of old capacity and new size, and no byte of any earlier block or header changes |
| `Alloc.Heap.Store` | tools/dl-hosttest/shim.c:365-377 | A caller's write into its block keeps every header and block in place |
| `Alloc.BlocksDisjoint` | tools/dl-hosttest/shim.c:365-377 | No byte of one block belongs to another block or to another's header |
| `Alloc.BlockInside` | tools/dl-hosttest/shim.c:365-377 | Every block lies inside the used heap, behind its header |
| `Alloc.Session` | tools/dl-hosttest/shim.c:361-401 | Over any sequence of calls and writes of the caller on a fresh heap, the blocks returned lie in the heap and share no byte with each other or with a header, and in the end each holds what it would hold if it were a memory of its own: bytes written, zeroed by calloc, or carried over by realloc |
| `Printf.FmtNumber` | tools/dl-hosttest/shim.c:172-181 | The scratch buffer holds the shortest numeral, last digit first, and 24 places are always enough |
| `Printf.NumeralDenotes` | tools/dl-hosttest/shim.c:172-181 | The numeral denotes its number and has no leading zero except for zero itself |
| `Printf.ReadSpec` | tools/dl-hosttest/shim.c:206-219 | Flag, width and length modifiers are read as the grammar has them, the width modulo 2^64 |
| `Printf.SpecExactly` | tools/dl-hosttest/shim.c:206-219 | The characters up to the letter are a zero flag or none, digits, and letters l and z, each as many as there are; the width is what the digits denote modulo 2^64, and long means that there is a modifier |
| `Printf.WidthDenotes` | tools/dl-hosttest/shim.c:211-214 | The width read is the number its digits denote, modulo 2^64 |
| `Printf.EmitSigned` | tools/dl-hosttest/shim.c:246-259 | The signed conversions emit the numeral of the magnitude for every value, the least ones included |
| `Printf.EmitItem` | tools/dl-hosttest/shim.c:221-278 | Each directive emits exactly the renderer's text for it |
| `Printf.TakesExactly` | tools/dl-hosttest/shim.c:221-267 | The conversions that take an argument |
| `Printf.ArgsInOrder` | tools/dl-hosttest/shim.c:221-267 | The arguments taken are the first ones, in order |
| `Printf.NullIsShown` | tools/dl-hosttest/shim.c:222-233 | A null string is shown as (null), padded like any other |
| `Printf.Vsnprintf` | tools/dl-hosttest/shim.c:184-285 | For every size and complete format: the first size - 1 characters of the renderer's text and a NUL are stored, no other place is written, and the length as an int is returned, which is the full length below 2^31 |
| `Printf.ToIntExactly` | tools/dl-hosttest/shim.c:284 | The value returned is an int congruent to the length modulo 2^32 |
| `Printf.NumberDenotes` | tools/dl-hosttest/shim.c:269-278 | A zero-padded number of any width is its sign followed by digits that denote its magnitude |
| `Printf.IsoExactly` | tools/dl-hosttest/shim.c:170-278 | Of the directives the formatter supports and whose text section 7.21.6.1 of ISO C11 fixes, exactly those depart from it that pad a negative number with spaces or give %c a width above one; none gets longer |
| `Printf.TextExactly` | tools/dl-hosttest/shim.c:170-285 | Departures never cancel: a whole text of such directives is the one that section fixes exactly if none of them departs |
| `Printf.OtherLetter` | tools/dl-hosttest/shim.c:265-267 | In any format, every other letter gives a question mark, and rendering goes on behind it with the same argument |
| `Printf.CapitalX` | tools/dl-hosttest/shim.c:265-267 | %X is one of them |
| `Printf.MinusFlag` | tools/dl-hosttest/shim.c:206-267 | So is a minus flag: %-4d gives a question mark and the text behind the flag |
| `Printf.SignBeforeSpaces` | tools/dl-hosttest/shim.c:269-275 | Minus five with %4d is a counterexample |
| `Printf.CharIgnoresWidth` | tools/dl-hosttest/shim.c:235-237 | The letter A with %4c is the other |
| `Life.WrapIsRemainder` | tools/demo-apps/life.py:107-110 | The wrapped coordinates are remainders |
| `Life.SamePlane` | tools/demo-apps/life.py:102-116 | A torus of a given size is determined by its unrolled plane |
| `Life.Step` | tools/demo-apps/life.py:102-116 | The new grid is the next generation of the torus by B3/S23; a grid without cells stays as it is |
| `Life.SumDecides` | tools/demo-apps/life.py:110-115 | The sum of the eight neighbours decides the rule stated on the set of live neighbours |
| `Life.StepCommutes` | tools/demo-apps/life.py:102-116 | On every torus any number of steps commutes with every translation |
| `Life.ShowsNext` | tools/demo-apps/life.py:102-116 | A pattern within four by four cells evolves on a torus of at least six by six as it does in the plane |
| `Life.GliderTravels` | tools/demo-apps/life.py:68-116 | On an otherwise empty torus of at least six by six, wherever it sits, the glider is after 4n steps moved n down and n right |
| `Life.ShiftIsCellwise` | tools/demo-apps/life.py:107-110 | Moved means, cell by cell, taken from the remainders of the coordinates before |
| `Life.GliderReturns` | tools/demo-apps/life.py:68-116 | After 4n steps the grid is the old one again exactly if both sizes divide n |
| `Life.Steps` | tools/demo-apps/life.py:102-116 | n calls of step, one after the other, are n generations |
| `Life.Run` | tools/demo-apps/life.py:119-179 | Over the whole show: a glider is injected exactly at every sixtieth frame in a row whose population is that of the frame before, and each frame is the next generation of the one before, with that glider |
| `Life.PopulationCounts` | tools/demo-apps/life.py:142-148 | The population is the number of live cells |
| `Life.InjectGlider` | tools/demo-apps/life.py:80-89 | Exactly the five cells are set, without wrapping; smaller grids are left alone |
| `Life.InjectedIsOnlyGlider` | tools/demo-apps/life.py:80-89 | Injected into an empty field the glider is alone there |
| `Life.Fly` | tools/demo-apps/life.py:80-116 | Injected into an empty field and stepped 4n times, the glider has moved n down and n right cell by cell, and is back in its place exactly if both sizes divide n |
| `Nvram.WhiteExactly` | scripts/gen-wifi-nvram-py.py:31 | The characters stripped are tab to carriage return, the four separators and space |
| `Nvram.StripTrims` | scripts/gen-wifi-nvram-py.py:31 | Stripping removes exactly a white prefix and a white suffix |
| `Nvram.StripNvram` | scripts/gen-wifi-nvram-py.py:28-48 | The kept lines in order, each ended by a NUL, then zeros to the least length that leaves an extra NUL, is a multiple of four and with the trailer of sixty-four |
| `Nvram.PackedParses` | scripts/gen-wifi-nvram-py.py:5-14 | Splitting at NULs up to the first empty entry gives back NUL-free entries exactly |
| `Nvram.BuildBlob` | scripts/gen-wifi-nvram-py.py:51-55 | The trailer's halves are the word count and its complement modulo 65536 |
| `Nvram.Pack` | scripts/gen-wifi-nvram-py.py:28-55 | Reading the blob of NUL-free lines from its end gives back exactly the stripped non-comment lines, if it has fewer than 65536 words |

## Left out

- Everything around the algorithms: files, sockets, devices, argument parsing, external programs, report printing.
- Parsing of disassembly and symbol names for the stack walk; the call graph with frames and edges is the input, and notes carry addresses instead of names.
- Stack unwinding, samples, symbol resolution, process names, queues, timeouts and arguments of waits in the trace report.
- Image processing, thresholds and region detection of the LED analysis; thresholds are parameters, times are reals.
- The pulse-count mode, the special terminal stages and the explanations of the LED interpreter.
- minidl_sym, minidl_close, DT_INIT_ARRAY and page protections of the loader; the address mmap picks is a parameter.
- The output buffer of the shim (out_char, fflush) and the functions that only pass text to it.
- The random parts of the Life demo: seed, and where inject_glider puts the glider, which is a parameter; its keys and its log.
- On-target probes and kernel behaviour, which are not part of this repository.
- TraceDecode.LoadEncoded: junk with no event behind it is excluded, because the last four bytes of such input are never skipped.
- TraceEvents.AnalyzeRecorded: the file of one CPU, with times that do not go back and junk as in TraceDecode.LoadEncoded.
- LedStages.Search: stage codes are distinct, as they are in the layouts.
- LedStages.Interpret: group indices are distinct, as build_stage_groups numbers them.
- Loader.Open: starts from the program headers; reading and identifying the file, and failures of mmap and malloc, are not modelled, and the tables are taken to lie inside the span as the linker places them.
- LoaderFormat.OpenEncoded: relocated words overlap neither each other nor the entries, symbols and names read to relocate.
- Alloc.Heap.Malloc: a call that would write its header behind the heap is excluded; such a call is never sound.
- Alloc.Heap.Calloc: a product malloc does not serve right is excluded, because the code then clears other blocks or memory behind the heap.
- Alloc.Heap.Realloc: a size malloc does not serve right is excluded, because the code then copies over other blocks or behind the heap.
- Printf.IsoExactly: the width is the one read, modulo 2^64; which length modifiers were given is not distinguished.
- Printf.Vsnprintf: formats that end inside a directive are excluded, because the code then reads behind the string; arguments are taken to have the types the directives name, and the position counter is not wrapped at 2^64.
- BoTrace.Analyze: starts from the matched lines, with addresses as numbers where the code compares their text.
- Nvram.StripNvram: starts from the lines of an ASCII text; splitting it into lines, and the error for other characters, are not modelled.
- Recursion.RecursionIsReported: where a tail edge closes a cycle and no cycle is of calls alone, it says only that what is noted closes a cycle; there a note may be impossible in every order, as in the spiral, or depend on the order, as in Recursion.NoNote and Recursion.OneNote.
