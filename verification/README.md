# carbond in Dafny

A model of the storage daemon carbond and proofs about it: the whisper round-robin
file engine, the pause of worker threads around a configuration reload, the metric
cache with its largest-first writer, the monitoring counter, metric file names and
the retention parser.

## How it is laid out

- `Words`, `Image`, `Layout`: 32-bit arithmetic, big-endian structures, byte layout.
- `Ring`, `RingRuns`: one archive as a ring whose slot 0 is the moving base.
- `Window`: which slots a propagation reads, and what reaches the aggregator.
- `Engine`: one call of `whisper_write_value` on all archives of a file. The value
  type is a parameter: 64-bit patterns in files, reals in the aggregate laws.
- `Pyramid`, `PyramidRuns`, `Alignment`, `Soundness`, `Definedness`: the reference
  pyramid, built from the history of the finest archive with no rings in it, and the
  proofs that the rings follow it over whole runs.
- `Aggregates`, `RunLaws`, `LostWindow`: mean of means, sum conservation, on the
  pyramid and on what the rings answer, and a run where they do not hold.
- `ReadBuffer`, `WhisperFile`, `FileRuns`: the operations on the bytes of an open
  file, proved to do what `Engine` says.
- `Monitoring`, `PauseProtocol`, `CacheSpec`, `Cache`, `Pipeline`, `Tokens`,
  `MetricPath`, `RetentionParser`, `Schemas`: the rest of the daemon.

The ring model speaks for a file as long as every call keeps to whole slots and to its
read buffer (`Engine.Accessible`); a run all of whose calls do has a defined result
(`PyramidRuns.Defined`), and the results over runs are about those. Two conditions
that can be checked beforehand give it: `PyramidRuns.Safe` archives, for any run at all,
and `Alignment.Spacious` archives, for regular runs whose first sample opens a window.
On chains whose windows are shorter than their rings, all runs in order have a defined
result exactly on safe archives (`Definedness.AlwaysDefinedExactlyWhen`).

Automatic induction is off on every lemma it would apply to, so each inductive proof
is the one written in the lemma's body.

Main results:

1. After any regular run with a defined result, every ring of a file stands for its
   level of the pyramid if the history is aligned: the least timestamp of each level
   opens a window of the next archive (`Alignment.RunRefinesPyramid`). Slot 0 of the
   rings is aligned exactly if the history is, for any number of archives
   (`Alignment.AlignedExactlyWhen`); gap-free runs that start a coarsest window are.
2. With AVERAGE and a positive x-files factor every stored point of every archive is
   the true mean of the finest points under it, after every run in order with a defined
   result, wherever slot 0 of the rings stands (`Soundness.StoredAveragesAreTrueMeans`).
   With an aligned history, an archive has a point exactly for the full spans
   (`RunLaws.AveragesStoredExactlyWhen`).
3. With SUM, factor 0 and an aligned history totals are conserved through any number
   of archives (`RunLaws.StoredSumsAreConserved`). Without the alignment they need not
   be (`LostWindow.SumIsLost`).
4. The byte-level operations refine the ring model, and a call changes no byte outside
   one slot per archive (`WhisperFile.OpenFile.WriteValue`, `WhisperFile.CallFrame`);
   from creation on, the bytes of a file decode to the pyramid (`FileRuns.Record`).
5. For any number of workers, any interleaving and any spurious wakeups: no lost
   wakeup, no worker in its loop during a swap, one configuration per loop body, a
   pause that never comes to a halt and completes within five steps per worker and per
   spurious wakeup, and exactly which states can still reach a swap (`PauseProtocol`).
6. A file that several names lead to, told by the pieces of its path, holds true means
   if it is written in order under all of them (`Pipeline.ServedAveragesAreTrueMeans`).

## Where the code departs from what is meant

The model follows the code; each departure has its exact condition.

- The distance of a window's start from slot 0 is an unsigned subtraction
  (src/whisper.c:725-727). If slot 0 was replaced inside the window the start lies before
  it, the subtraction wraps, and the window is sought in other slots. It is found at home
  exactly under `Ring.AtHomeExactlyWhen`, from twelve seconds per point on exactly under
  `Ring.BehindBaseExactlyWhen`. On the shipped archives a run of four samples loses a
  complete window this way (`LostWindow.WindowIsLost`, `LostWindow.SumIsLost`).
- The stopping offset of a window read is reduced modulo the archive size without
  subtracting the archive's offset, and the second read's length has its operands
  reversed (src/whisper.c:736-738, 758). With the start's distance, a window is read as
  meant, inside the buffer, exactly under `Window.ReadAsMeantExactlyWhen`;
  `Window.StraddleIsMissed` is a case where points are missed.
- The same second read can be longer than what is left of the buffer
  (src/whisper.c:746-763). It stays inside exactly under `Window.FitsExactlyWhen`, and
  does so from every slot exactly for archives that are `Window.Ample`
  (`Window.AlwaysFitsExactlyWhen`). In the files of `1s:6h,60s:1d,3600s:4w` it never
  does (`Schemas.OverrunningSchema`).
- The slot distance is a 32-bit product (src/whisper.c:663). It is a slot boundary
  exactly under `Ring.OnSlotBoundaryExactlyWhen`, and for all timestamps exactly from
  twelve seconds per point on (`Ring.AlwaysOnSlotExactlyWhen`); it leads to the right
  slot exactly under `Ring.AtHomeExactlyWhen`. `Ring.OverflowLeavesSlots` and
  `Ring.OverflowMisplaces` are cases where it does not; `Image.OffSlotWriteTears` says
  what a write off the boundaries does to the two slots it touches.
- The x-files factor is compared with an integer quotient (src/whisper.c:787), while
  etc/storage-aggregation.conf:11 documents a ratio. The two agree exactly under
  `Aggregates.RatioFollowedExactlyWhen`, and however many points are known exactly under
  `Aggregates.RatioAlwaysFollowedExactlyWhen`; `Aggregates.RatioNotFollowed` is a case
  where they do not.
- Only average and sum are computed (src/whisper.c:620-632); every other method that the
  configuration accepts stores 0 in the coarser archives (`RunLaws.UnhandledStoresZeros`).
  That is what is documented exactly under `Aggregates.DocumentedExactlyWhen`;
  `Aggregates.MaximumIsNotComputed` is a case where it is not.
- The propagation loop stops at the first archive whose step does not divide the
  timestamp (src/whisper.c:874-892). For all timestamps it can be given it reaches the
  archives it should exactly when, from the third archive on, the least common multiple
  of its step and the finest is a multiple of the step before it or exceeds 32 bits
  (`Engine.EarlyExitExactlyWhen`). A divisibility chain meets this, and so do steps 4, 6
  and 9 (`Engine.OffChainCanReachAll`); steps 1, 2 and 3 do not
  (`Engine.EarlyExitCanStopShort`).
- A metric name with slashes can have a directory on the way to its file that is not
  created: none exactly when every component but the last has at most one nonempty
  piece between slashes and the last has no slash but leading ones
  (`MetricPath.AncestorsMadeExactlyWhen`).
- Different metric names can lead to one file: exactly those whose components are cut
  by slashes into the same pieces, with the suffix in the same place
  (`MetricPath.SharedFileExactlyWhen`), such as `a.b`, `a..b` and `a//b`
  (`Pipeline.NamesOfOneFile`). Then each can arrive in order while the file is not
  written in order (`Pipeline.SharedFileOutOfOrder`).
- A worker that left its loop keeps its lock. A reload can still reach its swap exactly
  if no worker has left its loop and, once the run flag is off, none is in its body or
  about to test the flag (`PauseProtocol.SwapReachableExactlyWhen`);
  `PauseProtocol.ReloadAfterExit` is a run from the start to a reload that cannot.

## Model

| member | source | states |
|---|---|---|
| Ring.OnSlotBoundaryExactlyWhen | src/whisper.c:662-663 | the computed byte distance is a slot boundary exactly when the 32-bit product overflowed a multiple of three times |
| Ring.OverflowLeavesSlots | src/whisper.c:662-663 | a concrete distance for which the write offset is eight bytes into a slot |
| Ring.AlwaysOnSlotExactlyWhen | src/whisper.c:662-663 | all distances of an archive are slot boundaries exactly from twelve seconds per point on |
| Ring.AtHomeExactlyWhen | src/whisper.c:655-667 | for any two aligned timestamps, the earlier one in slot 0 or not, the computed offset is that of the timestamp's place modulo the ring exactly when the wrap-arounds of difference and product are a whole number of laps |
| Ring.BehindBaseExactlyWhen | src/whisper.c:725-731 | from twelve seconds per point on, a timestamp before slot 0's is found exactly when the points of 2^32 seconds are a whole number of laps |
| Ring.OverflowMisplaces | src/whisper.c:662-663 | a concrete distance for which three overflows lead to the wrong slot |
| Ring.CoarseStepsNeverWrap | src/whisper.c:662-663 | from twelve seconds per point on the product never overflows, for any two timestamps |
| Ring.SlotIsHome | src/whisper.c:655-667 | in range, the slot computed from slot 0's timestamp is the timestamp's place modulo the ring |
| Ring.WriteRefines | src/whisper.c:640-688 | one admissible point write is one update of the map the ring stands for, laps included |
| RingRuns.NondecreasingIsAdmissible | src/whisper.c:640-688 | every nonzero aligned nondecreasing run is admissible at each write |
| RingRuns.CoarseNondecreasing | src/whisper.c:640-688 | from twelve seconds per point on, every run of positive 32-bit multiples of the step that never go back is such |
| RingRuns.RingRefinesMap | src/whisper.c:640-688 | after any admissible run a timestamp in reach is in exactly one slot, with the value last written, if written, and in none otherwise |
| Window.FitsExactlyWhen | src/whisper.c:729-763 | both reads stay inside the buffer exactly when the second leaves room for the first, as an inequality on offset, slot and length |
| Window.ReadAsMeantExactlyWhen | src/whisper.c:718-763 | from a ring with a given slot 0, the window that T closes is read from a slot boundary, inside the buffer and cell by cell from the right slots exactly when the start's distance wraps by whole laps and the second read from its place is neither too long nor, for a straddling window, too short |
| Window.StraddleIsMissed | src/whisper.c:736-763 | a concrete straddling window whose last points are not read |
| Window.AlwaysFitsExactlyWhen | src/whisper.c:711-763 | windows of a given length stay inside the buffer from every slot exactly when twice the points before the archive plus a window do not exceed its points |
| Window.WindowIsOneRun | src/whisper.c:718-738 | if slot 0 opens a window, every window starts no earlier than slot 0 and never straddles the ring's end |
| Window.MeantIsExact | src/whisper.c:718-776 | a window read as meant gives the aggregator exactly the values stored at T-L+H, ..., T, in order |
| Window.WindowReadExact | src/whisper.c:718-776 | if slot 0 opens a window and the reads fit, every window is read as meant and gives exactly those values |
| Engine.EarlyExitExactlyWhen | src/whisper.c:861-892 | for all aligned 32-bit timestamps the loop reaches every archive whose step divides the timestamp exactly if the least common multiples with the finest step meet the steps before |
| Engine.ChainMeetsEarlier | src/whisper.c:861-892 | a divisibility chain meets that condition |
| Engine.OffChainCanReachAll | src/whisper.c:861-892 | steps 4, 6, 9 are no divisibility chain and the loop reaches all it should |
| Engine.EarlyExitCanStopShort | src/whisper.c:874-892 | steps 1, 2, 3 and timestamp 3: the last archive is not reached |
| Engine.EarlyExitIsFullScan | src/whisper.c:874-892 | for every such timestamp the loop with early exit leaves what a full scan leaves |
| Engine.WriteAt | src/whisper.c:861-892 | what a whole call leaves in each archive of a chain |
| Engine.AlignIs | src/whisper.c:852-861 | the timestamp written is the multiple a of the finest step with a <= t < a + step |
| Engine.SlotWritesAre | src/whisper.c:681-684 | a call makes one slot write of its own and one for each archive it gets to that takes a point |
| Engine.RoomyAccess | src/whisper.c:690-763 | steps of twelve seconds and roomy archives keep every access of a call on slots and in the buffer, whatever is stored |
| Pyramid.LevelStep | src/whisper.c:874-892 | one more write changes each level of the pyramid at its own timestamp only, and only levels it is a multiple of |
| Pyramid.PropagateRefines | src/whisper.c:690-809 | with fitting reads and a write on a slot, propagation brings the coarse ring from the old lifted map to the new one |
| Pyramid.WriteRefinesLevel | src/whisper.c:811-907 | one call whose accesses are good moves every ring with its level of the pyramid, each as far as the rings before it are aligned |
| PyramidRuns.LapKeepsOpening | src/whisper.c:655-667 | a lap replaces slot 0's timestamp by one that opens a window exactly if the old one did |
| PyramidRuns.OpeningKept | src/whisper.c:640-688 | a ring with points is aligned after a call exactly if it was before it |
| PyramidRuns.OpenedBefore | src/whisper.c:640-688 | alignment of slot 0 after a call implies alignment before it |
| PyramidRuns.CoarseRunsAreShort | src/whisper.c:662-663 | from twelve seconds per point on the span of a run is no restriction |
| PyramidRuns.HistoryIs | src/whisper.c:852-868 | the history of a run has a timestamp exactly if it is a multiple of the finest step and some sample falls into its period, with the value of the last such sample |
| PyramidRuns.LatestIs | src/whisper.c:852-861 | the newest timestamp is the multiple of the finest step whose period the last sample falls into |
| PyramidRuns.SafeRunsAreDefined | src/whisper.c:640-763 | on safe archives every run, in order or not, keeps to its slots and buffers |
| Definedness.AlwaysDefinedExactlyWhen | src/whisper.c:640-763 | on chains with windows shorter than their rings, every run in order keeps to its slots and buffers, for all policies, exactly on safe archives |
| Definedness.ShippedIsSpread | etc/storage-schemas.conf:16-16 | the shipped two archives are such a chain |
| PyramidRuns.OverflowIsUndefined | src/whisper.c:662-679 | below twelve seconds per point, a run of two samples in order whose second write leaves the slot boundaries |
| PyramidRuns.OpenedRunsRefine | src/whisper.c:811-907 | after any regular run with a defined result that leaves slot 0 of the rings aligned every ring stands for its level of the pyramid |
| Alignment.AlignedExactlyWhen | src/whisper.c:640-907 | slot 0 of the rings is aligned after a run exactly if the least timestamp of each level of the history opens a window |
| Alignment.RunRefinesPyramid | src/whisper.c:811-907 | after any regular run with a defined result and an aligned history every ring stands for its level of the pyramid |
| Alignment.FirstSampleDecides | src/whisper.c:640-688 | the finest ring is aligned, through all laps, exactly if the first sample opens a window |
| Alignment.TwoArchivesAlignedExactlyWhen | src/whisper.c:811-907 | with two archives a file is aligned exactly if its first sample opens a window |
| Alignment.GapFreeIsAligned | src/whisper.c:811-907 | the history of every gap-free run that starts a coarsest window is aligned, for any policy |
| Alignment.ConsecutiveIsGapFree | src/whisper.c:811-907 | samples one step apart from the start of a coarsest window on are a gap-free run |
| Alignment.SpaciousRunsAreDefined | src/whisper.c:640-763 | on spacious archives every regular run whose first sample opens a window keeps to its slots and buffers |
| Alignment.SafeIsSpacious | src/whisper.c:640-763 | safe archives are spacious |
| Alignment.GapFreeRunsRefinePyramid | src/whisper.c:811-907 | on spacious archives such runs have a defined result and every ring stands for its level, with nothing assumed about the rings |
| Soundness.RunIsFaithful | src/whisper.c:690-907 | with a positive factor, after every run in order with a defined result, whatever the alignment, rings only hold points of the pyramid, rewritten timestamps included |
| Soundness.StoredAveragesAreTrueMeans | src/whisper.c:613-635 | after such runs every stored point of every archive is the mean of the values last written for all finest timestamps of its span |
| Aggregates.AggregateValues | src/whisper.c:613-635 | times the number of values an average is their total, a sum is their total, and the methods the source does not compute give 0 |
| Aggregates.DocumentedExactlyWhen | etc/storage-aggregation.conf:8-12 | the documented aggregate of a window is computed exactly for average and sum and where last, maximum or minimum is 0 |
| Aggregates.MaximumIsNotComputed | src/whisper.c:626-632 | the maximum of 5, 7 and 6 is stored as 0 |
| Aggregates.PassesMeans | src/whisper.c:787-787 | the integer quotient lets everything, complete windows only, or nothing pass |
| Aggregates.RatioFollowedExactlyWhen | etc/storage-aggregation.conf:11-11 | code and documented ratio agree exactly unless a partial window reaches a positive factor |
| Aggregates.RatioAlwaysFollowedExactlyWhen | etc/storage-aggregation.conf:11-11 | for windows of n points they agree however many are known exactly if the factor is 0 or n times the factor exceeds n - 1 |
| Aggregates.RatioNotFollowed | src/whisper.c:787-787 | two of three points at factor 0.5 are not propagated |
| Aggregates.MeanOfMeans | src/whisper.c:613-635 | every point of every level is the mean of the finest points in its span |
| Aggregates.FullSpansArePropagated | src/whisper.c:787-800 | every full finest span with an aligned closing timestamp has its point on the level |
| Aggregates.WindowsTile | src/whisper.c:503-510 | windows of successive coarse timestamps tile the fine grid |
| Aggregates.SumIsConserved | src/whisper.c:626-628 | over whole windows with written closing timestamps every level has the finest total |
| RunLaws.LookupIsLevel | src/whisper.c:811-907 | in reach, an archive answers exactly what its level has |
| RunLaws.AveragesStoredExactlyWhen | src/whisper.c:690-809 | with an aligned history an archive has a point exactly for full spans, and it is their mean |
| RunLaws.StoredSumsAreConserved | src/whisper.c:690-809 | with an aligned history an archive's points over whole windows add up to the finest values written |
| RunLaws.UnhandledStoresZeros | src/whisper.c:613-635 | with last, maximum, minimum or no method every point of every archive but the finest has the value 0, after any run with a defined result |
| RunLaws.LevelDocumentedExactlyWhen | etc/storage-aggregation.conf:8-12 | a point of a level is the documented aggregate of its window exactly for average and sum and where that is 0 |
| LostWindow.StartIsMissed | src/whisper.c:725-731 | on the shipped archives, slot 0 at 86520 and T = 86580: the start is sought in slot 387, its place is 1439 |
| LostWindow.WindowIsLost | src/whisper.c:690-809 | after four samples in order the finest ring holds the whole window and the coarse ring nothing, or the aggregate of no values with factor 0 |
| LostWindow.SumIsLost | src/whisper.c:626-628 | with SUM and factor 0 the coarse point of that window is 0, though its closing timestamp and its three values were written |
| LostWindow.LostRunIsDefined | src/whisper.c:640-763 | that run is regular and keeps to its slots and buffers |
| Layout.ArchiveOffset | src/whisper.c:470-488 | the two loops compute where the region of an archive starts |
| Layout.PointsAreWholePeriods | src/whisper.c:565-584 | an archive has a point for every whole period of its time to store |
| Layout.LayoutPartition | src/whisper.c:470-605 | header, records and regions are disjoint and cover exactly the bytes of the file |
| Words.Big32IsPositional | src/whisper.c:42-59 | the four bytes of a field are its value, each byte worth 256 of the next |
| Words.Big64IsPositional | src/whisper.c:106-123 | so are the eight bytes of a value |
| Image.MetadataRoundTrip | src/whisper.c:42-78 | the header reads back as written |
| Image.HeaderFields | src/whisper.h:29-34 | bytes 0-3 of a header are the aggregation type, 4-7 the longest retention, 8-11 the x-files factor, 12-15 the number of archives |
| Image.RecordFields | src/whisper.h:38-42 | bytes 0-3 of a record are the offset, 4-7 the seconds per point, 8-11 the number of points, twelve bytes per archive from byte 16 on |
| Image.PointFields | src/whisper.h:46-49 | a point is four bytes of timestamp and eight of value |
| Image.RecordRoundTrip | src/whisper.c:80-104 | an archive record reads back as written |
| Image.PointRoundTrip | src/whisper.c:106-139 | a packed point reads back, timestamp from 4 bytes and value from 8 |
| Image.PointBytesRoundTrip | src/whisper.c:106-139 | every 12 bytes are the image of the point they decode to |
| Image.PreambleRoundTrip | src/whisper.c:192-240 | header and records are read back at their computed positions |
| Image.SchemaIsLaidOut | src/whisper.c:565-605 | the archives of a schema lie end to end in a file of the computed size |
| Image.SpliceRings | src/whisper.c:669-679 | 12 bytes written over a slot change that slot and no other archive |
| Image.OffSlotWriteTears | src/whisper.c:669-679 | 12 bytes written between slot boundaries leave the head of one slot and the tail of the next, and no other slot changes |
| ReadBuffer.BufferYieldsKnown | src/whisper.c:765-776 | the bytes of the buffer yield the known values of the slot model |
| ReadBuffer.FilledHasCells | src/whisper.c:740-763 | two reads into a zeroed buffer leave the cells of the slot model |
| WhisperFile.NewFile | src/whisper.c:512-611 | a new file decodes to its metadata and archives, with every slot empty |
| WhisperFile.LongestRetention | src/whisper.c:535-538 | the longest time to store |
| WhisperFile.OpenFile.Create | src/whisper.c:512-611 | creation yields a valid file of the schema's archives, all slots empty, with every field of header and records in its bytes |
| WhisperFile.OpenFile.ReadMetadata | src/whisper.c:192-212 | the metadata the file was created with |
| WhisperFile.OpenFile.ReadArchiveInfo | src/whisper.c:219-240 | the archive record the file was created with |
| WhisperFile.OpenFile.ReadArchivePoint | src/whisper.c:246-264 | a 4-byte and an 8-byte read give the point at the position |
| WhisperFile.OpenFile.WriteOffset | src/whisper.c:647-667 | the offset computed from slot 0, on a slot or off; on a slot it is the write slot's |
| WhisperFile.OpenFile.WritePoint | src/whisper.c:640-688 | the point's bytes go to the computed offset, lengthening the file past its end, and no other byte changes; on a slot that is one ring write; one slot write counted |
| WhisperFile.OpenFile.ReadWindow | src/whisper.c:736-763 | tells exactly whether the reads fit the buffer; if so it holds the cells of the slot model |
| WhisperFile.OpenFile.GatherValues | src/whisper.c:765-776 | the values of the cells that carry the expected timestamps |
| WhisperFile.OpenFile.Propagate | src/whisper.c:690-809 | tells exactly whether its accesses are good; if so it is one propagation of the ring model with the file's own factor and aggregation, its slot writes counted |
| WhisperFile.OpenFile.PropagateAll | src/whisper.c:870-892 | tells exactly whether the loop's accesses are good; if so it is the whole propagation loop of the ring model |
| WhisperFile.OpenFile.WriteValue | src/whisper.c:811-907 | tells exactly whether the call's accesses are good; if so it is one call of the ring model on the bytes, the finest archive takes the value at the multiple of its step whose period the timestamp lies in, header and records are unchanged, every slot write is counted |
| WhisperFile.CallFrame | src/whisper.c:811-907 | a byte that a call changes lies in the slot of its timestamp in an archive whose step divides it |
| FileRuns.WriteSamples | src/writer.c:29-53 | tells exactly whether the run has a defined result; if so the file holds the run of the samples and every slot write is counted |
| FileRuns.DefinedFromSchema | src/whisper.c:640-763 | on safe archives, and on spacious ones for regular runs that start a window, the run on a new file has one |
| FileRuns.Record | src/whisper.c:512-907 | a new file that takes a run in order decodes to points of the pyramid, and to its levels if the history is aligned |
| Schemas.ShippedSchemaIsSafe | etc/storage-schemas.conf:16-16 | the shipped two-archive schema parses to a safe chain |
| Schemas.OverrunningIsUndefined | src/whisper.c:690-763 | in such a file no call at a full hour keeps to the buffer, whatever is stored |
| Schemas.OverrunningSchema | src/whisper.c:736-763 | a schema the parser accepts in whose files no window of the second archive fits the read buffer |
| Monitoring.Counter.CountWrite | src/whisper.c:681-684 | one more pending write, invariant kept |
| Monitoring.Counter.Report | src/monitoring.c:59-71 | the counter is reported and reset, and the account of writes stays balanced |
| Monitoring.CounterConserved | src/monitoring.c:59-71 | in every interleaving reports plus counter equal the slot writes, up to whole turns of 2^32, exactly if it never overflows |
| Monitoring.OneValuePerReport | src/monitoring.c:59-71 | every report reports one value |
| Monitoring.ReportIs | src/monitoring.c:59-71 | it is the number of slot writes since the report before, in 32 bits, and the counter restarts at 0 |
| PauseProtocol.StepKeepsInv | src/threads.c:71-172 | every step of every worker and of the controller keeps the invariant |
| PauseProtocol.ReachableInv | src/threads.c:71-172 | the invariant holds in every reachable state |
| PauseProtocol.StartExists | src/threads.c:42-66 | any number of workers can be started |
| PauseProtocol.NoLostWakeup | src/threads.c:71-117 | with the controller idle no worker waits for a signal or is ordered to pause |
| PauseProtocol.PauseSafety | src/threads.c:146-172 | while the controller holds a worker's lock the worker is outside its loop, at the swap all are |
| PauseProtocol.OneConfigurationPerBody | src/main.c:274-278 | a loop body runs from start to end under one configuration, the current one |
| PauseProtocol.SwapsInstall | src/main.c:274-278 | a new configuration is installed by every swap and by no other step |
| PauseProtocol.ReloadsSwapOnce | src/main.c:263-281 | every reload swaps once, unless it is still before its swap |
| PauseProtocol.ReloadsInstall | src/main.c:263-281 | from the start, with the controller idle again, there were as many new configurations as reloads |
| PauseProtocol.SameConfigurationExactlyWhen | src/main.c:274-278 | any two loop bodies run under the same configuration exactly if no swap came between them |
| PauseProtocol.WorkerRound | src/writer.c:91-109 | one round of a worker: it leaves if the flag is off, sleeps if ordered, else runs its body under the current configuration |
| PauseProtocol.SpuriousBody | src/threads.c:110-117 | from every start, a run in which an ordered worker wakes spuriously and runs its body under orders |
| PauseProtocol.IdleWorkersMove | src/writer.c:91-109 | with the controller idle every worker in its loop can move |
| PauseProtocol.NoDeadlock | src/threads.c:146-172 | the controller waits for locks only, and then for a worker that can move |
| PauseProtocol.PauseProgress | src/threads.c:146-159 | every step while locks are collected lowers the measure, except spurious wakeups |
| PauseProtocol.PauseCompletes | src/threads.c:146-159 | whatever the scheduling, the pause completes within five steps per worker and per spurious wakeup |
| PauseProtocol.PauseCanGoOn | src/threads.c:146-159 | from the start, while locks are collected and the run flag is on, the controller or the worker it waits for can move |
| PauseProtocol.SwapReachableExactlyWhen | src/writer.c:91-112 | from any state some schedule reaches a swap exactly if no worker has left its loop and, once the run flag is off, none is bound to |
| PauseProtocol.ReloadAfterExit | src/writer.c:91-112 | from every start, a run to a reload that can never reach its swap |
| CacheSpec.LargestIs | src/writer.c:59-76 | none exactly when all are empty, else the first metric with the most points |
| CacheSpec.CacheConserves | src/database.c:34-69 | for each metric what was written followed by what is cached is what arrived, and names stay unique |
| CacheSpec.MetricsStay | src/database.c:61-69 | the list has every metric where its name first arrived, written out or not |
| CacheSpec.BatchesAreMetrics | src/writer.c:93-109 | one batch per nonempty metric, each its whole content |
| CacheSpec.LargestFirst | src/writer.c:93-109 | batch sizes never increase |
| Cache.Metric.Add | src/database.c:48-59 | the point is appended; head, tail, links and count stay consistent |
| Cache.Metric.WriteOut | src/writer.c:29-53 | all points in list order, then an empty metric |
| Cache.Database.Get | src/database.c:34-46 | the place of the metric of that name, or none |
| Cache.Database.AddMetric | src/database.c:61-69 | a new empty metric at the end of the list |
| Cache.Database.Arrive | src/protocol.c:41-49 | the point is appended to its metric, created if new |
| Cache.Database.FindLargest | src/writer.c:59-76 | the first metric with the most points, none exactly when all are empty |
| Cache.Database.WriteAt | src/writer.c:29-53 | the metric's points are taken in order and it is emptied, others unchanged |
| Cache.Database.Drain | src/writer.c:93-109 | with no arrivals the writer takes exactly the batches largest first and leaves nothing |
| Pipeline.FileConserves | src/database.c:34-69 | over all names of a file, what was written to it and what is cached for it is what arrived for it |
| Pipeline.OwnFileExactlyWhen | src/whisper.c:390-431 | between slash-free names, one has a file of its own exactly if no other arriving name has its components |
| Pipeline.WrittenInArrivalOrder | src/writer.c:38-43 | a file with a single name takes that metric's points in arrival order |
| Pipeline.ServedAveragesAreTrueMeans | src/writer.c:29-109 | after any mix of arrivals and write-outs, a file written in order under all the names that lead to it holds only true means of what was written to it |
| Pipeline.FileAnswersLevels | src/writer.c:29-109 | a file whose run under all its names is regular, defined and aligned answers in every archive exactly what its level has |
| Pipeline.OwnFileHoldsTrueMeans | src/writer.c:29-109 | on safe archives it is enough that the points of its single name arrive in order |
| Pipeline.NamesOfOneFile | src/whisper.c:390-431 | for any two pieces, the names that join them by a dot, two dots, a slash or two slashes lead to one file |
| Pipeline.SharedFileOutOfOrder | src/whisper.c:390-431 | for any two names of one file, each can be in order and the file not |
| Tokens.NextIsHead | src/whisper.c:409-417 | successive `strtok_r` calls yield the nonempty pieces in order |
| Tokens.SplitJoin | src/conf.c:137-155 | splitting undoes joining |
| MetricPath.MetricFilename | src/whisper.c:390-431 | the path of the components with the suffix, empty exactly for names of dots only |
| MetricPath.FilenameIs | src/whisper.c:390-431 | the file of components joined by dots is the directory, a slash, the components joined by slashes, and `.wsp` |
| MetricPath.CreateDirs | src/whisper.c:433-469 | the paths of the proper prefixes of the components, shortest first |
| MetricPath.DirectoryFirst | src/whisper.c:433-447 | the storage directory itself is made first, for every name |
| MetricPath.MadeAreAncestors | src/whisper.c:433-469 | each directory made is an ancestor of the file and contains the next |
| MetricPath.AncestorsMadeExactlyWhen | src/whisper.c:390-469 | every directory on the way to the file, by its pieces, is made exactly when each component adds one piece at most and the last is the file alone |
| MetricPath.SharedFileExactlyWhen | src/whisper.c:390-431 | any two names lead to one file exactly when slashes cut their components into the same pieces and the suffix stands in the same place |
| MetricPath.SlashFreeShareExactlyWhen | src/whisper.c:390-431 | slash-free names share a file exactly when their nonempty components agree |
| RetentionParser.Trim | src/conf.c:33-47 | in-place compaction leaves a text without spaces, tabs and ends of line that the old one is got from by putting such in |
| RetentionParser.TrimmedExactlyWhen | src/conf.c:33-47 | a text without blanks is what trimming leaves of a line exactly if the line is the text with blanks put in anywhere |
| RetentionParser.BlankAnywhere | src/conf.c:33-47 | a blank put anywhere does not change what trimming leaves |
| RetentionParser.DurationRead | src/conf.c:64-100 | what any count with a unit is read as, past 32 and 64 bits included |
| RetentionParser.DurationRoundTrip | src/conf.c:64-100 | a count with a unit is read back in seconds exactly if they are 32-bit |
| RetentionParser.OtherLettersMeanSeconds | src/conf.c:71-90 | any other letter after a count leaves it in seconds |
| RetentionParser.PairRoundTrip | src/conf.c:102-122 | an item is read back as its two durations |
| RetentionParser.MoreIsIgnored | src/conf.c:102-122 | what follows the two durations of an item is not looked at |
| RetentionParser.ParseList | src/conf.c:124-161 | the items of the list, parsed in order; none if an item has no two durations |
| RetentionParser.RetentionParse | src/conf.c:33-161 | wherever spaces, tabs and ends of line were put into the text of a list of pairs, the same pairs in the same order, in seconds |
| RetentionParser.FindEntry | src/whisper.c:311-361 | the walk returns the first hit unless a broken pattern comes first |
| RetentionParser.FirstMatchExactlyWhen | src/whisper.c:311-329 | entry k is found exactly if it is the first that is not a miss and it is a hit |
| RetentionParser.FirstMatchIsFirst | src/whisper.c:311-329 | if every pattern compiles, the first matching entry in file order |

## Left out

- WhisperFile.OpenFile.WriteValue: where an access is not good the source goes on with torn points or past its heap buffer; the contract says that this happens and follows it no further. It requires a timestamp that does not align to 0, which marks an empty slot.
- WhisperFile.OpenFile.PropagateAll: the same.
- WhisperFile.OpenFile.Propagate: the same; a window that starts off the slots is not decoded.
- WhisperFile.OpenFile.ReadWindow: past the buffer the result of the source is undefined, and nothing is promised of it. A read of negative length is taken to fail and deliver nothing.
- Definedness.AlwaysDefinedExactlyWhen: requires windows shorter than their ring; when a window is the whole ring its closing write replaces slot 0 before the read, and some archives that are not safe never fail.
- Engine.Levels: leaves out schemas whose next archive has fewer seconds per point, for which the source divides by zero (src/whisper.c:733-734, 787), and those whose window is longer than the finer archive, for which its loop leaves the buffer (src/whisper.c:768-776), and archives that end past 2^32 bytes, whose size wraps (src/whisper.c:155-159).
- MetricPath.MetricFilename: requires a name of less than 100 characters, which is what the source's copy of it holds; paths are taken to fit `PATH_MAX`.
- MetricPath.CreateDirs: requires the same.
- Thread stacks: `whisper_write_propagate` keeps a value per point of the finer archive on the stack (src/whisper.c:712); archives too large for it are not told apart.
- Pipeline.ServedAveragesAreTrueMeans: symbolic links are not modelled, and a file whose directories are missing is taken to be created all the same. The archives of a file are a parameter; that they come from the schema of the name first written to it is not modelled.
- WhisperFile.OpenFile.Create: requires a nonempty schema with at least one point per archive and a file below 2^31 bytes; a metric with no aggregation rule, for which the source creates nothing, is not modelled.
- Aggregates.AggregateValues: for AVERAGE it requires at least one known value; the source divides by zero there, which a positive x-files factor rules out.
- Cache.Database.Arrive: requires fewer than 2^32 cached points per metric, so that the 32-bit count is exact.
- Cache.Database.AddMetric: the list of metrics is a sequence; its own head, tail and next pointers are not modelled (those of the points are).
- RetentionParser.DurationRoundTrip: signs before a number are not modelled.
- Runs are in time order: a timestamp older than slot 0 makes the 32-bit distance wrap, and a finer point rewritten after its window closed is not propagated again.
- Floating-point rounding and NaN: the aggregate laws are over reals, files hold bit patterns and the machine's arithmetic is a parameter.
- Threads are a transition system with sequentially consistent steps; unsynchronised accesses to the metric lists and nested signal handlers are not modelled, nor is a reload whose parse fails, which changes nothing.
- File-system errors, sockets, logging, argument parsing, sleeping, PCRE matching and `sscanf` of metric lines: matching is a parameter, lines are taken as parsed.
- Pairing of pattern and retentions lines, the aggregation file and the main configuration file (src/conf.c:167-513) would only add easy members.
