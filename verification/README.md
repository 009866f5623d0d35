# LTBox: what its core is proved to do

LTBox flashes Android devices. These Dafny modules model the parts of it that decide what may be written
to a device, and the parts that keep its state honest while slow workers run. Each module follows one
source component, in its own form: objects that update fields are classes whose invariant ties the fields
to a history or to exact counts, loops are loops proved against a function or a predicate, and pure code is
functions with lemmas. A failing transport, file call or signing step is a nondeterministic choice, so every
theorem holds for every pattern of failures.

| module | component | main results |
|---|---|---|
| `PartitionStorage`, `EdlSession`, `PartitionTransfer` | GPT partitions on a LUN, and the wizards over them | over any run of flashes and erases of an accepted selection only the selected ranges change; flash, then dump gives image, zero padding, old tail; a batch is all-checked before its first write |
| `FlashProgress` | byte progress | throttled publication conserves bytes; never one percent or more behind |
| `StablePort` | waiting for a port | which ports can be returned, and that the wait ends |
| `ArbOverlay`, `OverlayFlash` | anti-rollback overlays, and writing them | whatever set reaches the device, its verified-boot chain verifies and boot and vbmeta_system are at their floors |
| `LegacyMigration` | moving old data | nothing is lost under any failures, and exactly when nothing is altered |
| `OperationExecution`, `DeviceQueries`, `DeviceSnapshot` | ownership of runs, requests and device values | whole-run safety against late replies, old reporters and device swaps |
| `LiveSink`, `LogHistory` | log pipeline | what the bounded queue keeps; each diagnostic exactly once and in order in the text |
| `Calendar`, `RollbackValue` | rollback values | round trips, with the calendar proved by counting days |
| `PhaseProgress` | progress fractions | weights, monotonicity, boundaries, exact shares |
| `DesktopExec`, `Reveal`, `FirmwareContainer`, `FormatTemplate` | codecs | each loop refines, or is inverted by, an independent definition |

## Where the code falls short, exactly

Three properties one might expect do not hold of the code in general. Each is proved with its exact condition.

- **Migration alters nothing under the data root.** The existence check does not report a link that leads nowhere, so
  such a link in an entry's place is replaced by a renamed file, written through by a copied one, or removed with a
  failed copy; and an entry that itself lies in the data root moves. `LegacyMigration.Disk.Migrate` proves that a layout
  with neither (`Untroubled`) is unaltered under every failure pattern, and that a complete pass without failures leaves
  the data root unaltered only then. `MoveAltersNothingExactly` is the same for one move, including the cleanup of a
  failed copy; `DanglingLinkTroubles` is a concrete troubled layout.
- **Each line of an entry once in the transcript.** A storage write that fails part-way leaves a prefix of the entry,
  run into the notice of the failure. No line is repeated when the entry is one line (`LogHistory.TranscriptHasEachOnce`).
  An entry with a line break of its own can have its first lines twice (`TornLineRepeats`);
  `NothingRepeatsExactly` is the exact condition, on the entry alone.
- **The mirror repeats the transcript.** Starting a mirror trims the line breaks at the end of the transcript, so blank
  last lines are lost (`LogHistory.BlankLastLineLost`). `SeedKeepsExactly` and `MirrorIsWholeExactly` are the exact
  condition, also for a transcript that carries a storage notice. What the mirror holds is proved in every case: its
  file's old content, the seed, and all archived since.

Two chain descriptors can resolve to one partition label (`vbmeta_system` and a non-A/B `vbmeta_system_a`). Such a
package builds, and is then refused as a whole before the first write: `ArbOverlay.WritableExactly` says which packages
name a partition twice, `SharedLabelRefused` is a concrete one.

## Model

| member | source | states |
|---|---|---|
| PartitionStorage.FirstNamed | crates/ltbox-device/src/edl.rs:1012-1018 | a lookup finds the first entry of that name, and fails only if there is none |
| PartitionStorage.SpanSectors | crates/ltbox-device/src/edl.rs:1426-1436 | inclusive bounds; an accepted span fits 64 bits and is never inverted |
| PartitionStorage.SectorsFlatten | crates/ltbox-device/src/edl.rs:1169-1205 | the sectors sent for an image are the image and zero padding to the boundary |
| PartitionStorage.GptKept | crates/ltbox-device/src/edl.rs:995-1019 | a change above the metadata leaves the GPT readable and identical |
| PartitionStorage.LookupKept | crates/ltbox-device/src/edl.rs:995-1019 | a write inside one entry changes no partition lookup on any LUN |
| PartitionStorage.RunConfinedToSelection | crates/ltbox-device/src/edl.rs:1023-1047 | after an accepted snapshot, any run of flashes and erases, failing ones included, changes only selected sectors; GPTs and the snapshot stay valid |
| PartitionStorage.DistinctRowsDisjoint | crates/ltbox-device/src/edl.rs:1023-1047 | two accepted rows of one LUN share no sector |
| PartitionStorage.OtherRowsKept | crates/ltbox-device/src/edl.rs:1151-1217 | a call on one accepted row leaves every other row's content alone |
| PartitionStorage.RowKeptUntilNextCall | crates/ltbox-device/src/edl.rs:1151-1217 | a row's content survives any run of calls on other rows |
| PartitionStorage.FlashReadsBack | crates/ltbox-device/src/edl.rs:1151-1217 | a flashed partition dumps as image, zero padding, old tail |
| PartitionStorage.FlashSurvivesRun | crates/ltbox-device/src/edl.rs:1050-1217 | at the end of any run, a row whose last call was a flash that passed dumps as image, zero padding, and the tail it held before that call |
| PartitionStorage.LastCallStays | crates/ltbox-device/src/edl.rs:1151-1421 | what the last call on a row left is there at the end |
| PartitionStorage.FirstCallFinds | crates/ltbox-device/src/edl.rs:1151-1421 | the first call on a row finds what it held before the run |
| PartitionStorage.TargetsDisjoint | crates/ltbox-device/src/edl/partition_flash.rs:140-180 | two operations of one batch own disjoint sectors |
| PartitionStorage.StepStopsThere | crates/ltbox-device/src/edl/partition_flash.rs:202-270 | a batch step keeps earlier operations done and later ones untouched |
| PartitionStorage.BatchKeepsGpts | crates/ltbox-device/src/edl/partition_flash.rs:137-270 | a batch leaves every GPT lookup as it was |
| EdlSession.Session.ValidatePartitionSnapshot | crates/ltbox-device/src/edl.rs:1023-1047 | accepts exactly the selections with no duplicate whose rows are the GPT's own geometry; never writes |
| EdlSession.Session.FlashPartitionAt | crates/ltbox-device/src/edl.rs:1151-1217 | refuses without writing any source that does not fit; otherwise fails only in the transport; touches only its range; success leaves image and old tail |
| EdlSession.Session.FlashPhysicalStorage | crates/ltbox-device/src/edl.rs:1224-1341 | the same for a whole LUN, bounded by the capacity its header reports |
| EdlSession.Session.ErasePartitionAt | crates/ltbox-device/src/edl.rs:1350-1421 | touches only its range; the EFI partition ends up all zeros, with bad geometry refused before writing |
| EdlSession.Session.FlashPartition | crates/ltbox-device/src/edl.rs:1459-1528 | by name, on any GPT: only the entry's own sectors change; on a sound GPT success leaves image and old tail |
| EdlSession.Session.ErasePartitionByName | crates/ltbox-device/src/edl.rs:1438-1456 | by name, on any GPT: only the entry's own sectors change; an unknown name writes nothing |
| EdlSession.Session.DumpPartition | crates/ltbox-device/src/edl.rs:1050-1110 | a published dump is exactly the partition's bytes, after any writes and erases; every refusal has one of three causes |
| EdlSession.Session.DumpPartitionAt | crates/ltbox-device/src/edl.rs:1116-1147 | the same with a scan's geometry |
| EdlSession.Session.Preflight | crates/ltbox-device/src/edl/partition_flash.rs:147-200 | passes exactly when every operation resolves and fits and none is repeated |
| EdlSession.Session.ApplyPartitionBatch | crates/ltbox-device/src/edl/partition_flash.rs:137-270 | a preflight failure writes nothing, and only the targets change; on a sound GPT success does every operation and a failure stops at one, with those before done and those after untouched |
| PartitionTransfer.FlashRows | crates/ltbox-gui/src/workers/transfer.rs:242-300 | a scan that no longer fits writes nothing; success does what each row asks and keeps the skipped rows; the scan still fits afterwards |
| PartitionTransfer.DumpRows | crates/ltbox-gui/src/workers/transfer.rs:539-608 | each dump is its row's content, and a failed row stops no other |
| PartitionTransfer.FlashThenDump | crates/ltbox-gui/src/workers/transfer.rs:242-608 | a written row dumps back as image, zero padding, old tail, a wiped EFI partition as zeros, and a skipped row as it was |
| PartitionTransfer.RunCalls | crates/ltbox-device/src/edl.rs:1151-1421 | any sequence of flashes and erases of accepted rows, failures included, is a run of such calls |
| PartitionTransfer.RunThenDump | crates/ltbox-device/src/edl.rs:1050-1421 | after any sequence, with failed, repeated and mixed calls, a row dumps back as its last call left it if that passed: image, zero padding and the tail before that call; and as it was without calls |
| PartitionTransfer.LastCallDumps | crates/ltbox-device/src/edl.rs:1050-1421 | the same for any run, and from the content before the run when the call is the row's first |
| PartitionTransfer.UnlistedRowKept | crates/ltbox-device/src/edl/partition_flash.rs:137-270 | a row no operation names keeps its content |
| FlashProgress.Percent | crates/ltbox-device/src/edl.rs:216-225 | between 0 and 100, and 100 exactly when complete |
| FlashProgress.SamePercentIsClose | crates/ltbox-device/src/edl.rs:227-238 | an unpublished report is less than one percent ahead of the published one |
| FlashProgress.PercentMonotone | crates/ltbox-device/src/edl.rs:216-225 | published percentages never go back |
| FlashProgress.Slot.Publish | crates/ltbox-device/src/edl.rs:112-120 | adds exactly the bytes moved since the last publication, and completed never exceeds registered |
| FlashProgress.Slot.Transfer | crates/ltbox-device/src/edl.rs:196-238 | for any monotone reports ending at the total, exactly the total is added; at every report less than one percent is unpublished |
| StablePort.WaitForStablePort | crates/ltbox-device/src/edl.rs:481-541 | ends within one poll of the deadline; returns only a port held from the start or seen in two successive polls; any error but not-found ends it at once |
| StablePort.HeldHasNoSecondPhase | crates/ltbox-device/src/edl.rs:493-520 | a port held from the start leaves no second phase |
| StablePort.PairIsFirst | crates/ltbox-device/src/edl.rs:522-541 | the pair returned is determined by the answers: the first one |
| ArbOverlay.SelectTargets | crates/ltbox-gui/src/arb_overlay.rs:337-362 | targets are never below the floors; manual ones are exact or refused; without need they are the firmware's |
| ArbOverlay.CountDecides | crates/ltbox-patch/src/avb.rs:571-618 | if the count check passes, a descriptor is re-keyed exactly when its image is re-signed |
| ArbOverlay.RekeyedExactlyWhenResigned | crates/ltbox-gui/src/arb_overlay.rs:367-478 | re-keyed and re-signed together, or neither |
| ArbOverlay.BuiltChainVerifies | crates/ltbox-gui/src/arb_overlay.rs:367-478 | overlays over stock: each chained image is signed by the key its descriptor names |
| ArbOverlay.BuiltOrder | crates/ltbox-gui/src/arb_overlay.rs:431-464 | the root is written last, boot just before it |
| ArbOverlay.WritableExactly | crates/ltbox-device/src/edl/partition_flash.rs:147-156 | the writer finds no partition named twice in a built list exactly when no two re-signed descriptors share a label |
| ArbOverlay.ProtectedAtTarget | crates/ltbox-gui/src/arb_overlay.rs:431-452 | in an accepted list each protected image ends at exactly its target |
| ArbOverlay.FloorsMet | crates/ltbox-gui/src/arb_overlay.rs:431-452 | in an accepted list the effective boot and vbmeta_system indices reach their floors |
| ArbOverlay.SharedLabelRefused | crates/ltbox-device/src/edl/partition_flash.rs:147-156 | a concrete package whose two descriptors share a label builds and is refused |
| ArbOverlay.BuiltIsSafe | crates/ltbox-gui/src/arb_overlay.rs:367-478 | a built set the writer accepts verifies, is at both floors, and ends with boot and then the root |
| ArbOverlay.SkippedIsSafe | crates/ltbox-gui/src/arb_overlay.rs:643-650 | a skipped build leaves a package that verifies at its floors |
| ArbOverlay.Builder.SelectChains | crates/ltbox-gui/src/arb_overlay.rs:396-425 | accepts exactly when every chain is acceptable; each error names a defect that is there; touches no file |
| ArbOverlay.Builder.BuildFromImages | crates/ltbox-gui/src/arb_overlay.rs:367-478 | a result is the built set; a policy refusal stages nothing |
| ArbOverlay.Builder.BuildForFloors | crates/ltbox-gui/src/arb_overlay.rs:560-661 | every result the writer accepts is safe in automatic, manual, forced and skipped cases; which results it accepts; every refusal has its cause; policy refusals stage nothing |
| OverlayFlash.FlashOverlays | crates/ltbox-gui/src/workers/flash/full.rs:1573-1600 | a list that names a partition twice is refused with nothing written; success writes every overlay |
| OverlayFlash.FlashedHolds | crates/ltbox-gui/src/workers/flash/full.rs:1573-1600 | every partition then holds the overlay that names it, or what it held |
| OverlayFlash.Provision | crates/ltbox-gui/src/workers/flash/full.rs:1112-1600 | build and write: whatever the package, a finished run leaves both protected partitions at their floors; a package that verified still verifies; and the partitions hold exactly that set |
| LegacyMigration.NamesFor | crates/ltbox-core/src/app_paths.rs:216-231 | which category and name each legacy name maps to |
| LegacyMigration.DestinationReached | crates/ltbox-core/src/app_paths.rs:216-231 | every path of the new layout is the destination of a legacy entry |
| LegacyMigration.LegacyApart | crates/ltbox-core/src/app_paths.rs:216-231 | no legacy entry holds another |
| LegacyMigration.Disk.CopyEntry | crates/ltbox-core/src/app_paths.rs:234-254 | only the destination tree changes; success is an equal tree, or a file written through a dangling link |
| LegacyMigration.Disk.RemoveEntryIfExists | crates/ltbox-core/src/app_paths.rs:256-264 | only removes, and only at its path; success leaves nothing there |
| LegacyMigration.Disk.CopyFallback | crates/ltbox-core/src/app_paths.rs:266-287 | the tree is complete at one of the two places whatever fails |
| LegacyMigration.Disk.MoveOne | crates/ltbox-core/src/app_paths.rs:294-340 | an occupied destination is left alone; otherwise complete at one place, with no other change than missing parents; and exactly when nothing under the data root is altered |
| LegacyMigration.Disk.Migrate | crates/ltbox-core/src/app_paths.rs:294-340 | no entry is lost, nothing but entries to be moved and links in their place is altered, nothing else appears; an untroubled layout has nothing under its data root altered, and after a pass without failures only such a one; such a pass settles the layout and a settled layout is left alone |
| LegacyMigration.StepKeepsLoss | crates/ltbox-core/src/app_paths.rs:294-340 | one move, however it fails, keeps every entry complete somewhere |
| LegacyMigration.StepKeepsRoot | crates/ltbox-core/src/app_paths.rs:294-340 | one move, however it fails, alters nothing that concerns no entry tried, links included |
| LegacyMigration.PassDone | crates/ltbox-core/src/app_paths.rs:294-340 | a complete pass without failures leaves nothing to move |
| LegacyMigration.NothingUnderRootAltered | crates/ltbox-core/src/app_paths.rs:294-340 | an untroubled layout has no node under its data root altered, links included |
| LegacyMigration.CleanPassAlters | crates/ltbox-core/src/app_paths.rs:294-340 | a pass without failures over a troubled layout does alter one |
| LegacyMigration.UntroubledApart | crates/ltbox-core/src/app_paths.rs:203-231 | roots that do not overlap and destinations without dangling links are untroubled |
| LegacyMigration.EntriesApartExactly | crates/ltbox-core/src/app_paths.rs:216-231 | when no legacy entry meets a destination, in terms of the two paths |
| LegacyMigration.RootsApartExactly | crates/ltbox-core/src/app_paths.rs:216-231 | when no legacy entry overlaps the data root, in terms of the two paths |
| LegacyMigration.MoveAltersNothingExactly | crates/ltbox-core/src/app_paths.rs:203-340 | exactly when a move, by rename, by copy or failed and cleaned up, alters nothing under the data root |
| LegacyMigration.DanglingLinkTroubles | crates/ltbox-core/src/app_paths.rs:203-231 | a concrete troubled layout: a key file and a dangling link in its place |
| DeviceSnapshot.WindowUnique | crates/ltbox-gui/src/device_snapshot.rs:53-72 | a history has one point where its current identity began |
| DeviceSnapshot.WindowHasOneSerial | crates/ltbox-gui/src/device_snapshot.rs:53-72 | since that point no other nonempty serial was reported |
| DeviceSnapshot.HistoryDeterminesValues | crates/ltbox-gui/src/device_snapshot.rs:53-126 | the specification allows one set of values for each history |
| DeviceSnapshot.ObservationStep | crates/ltbox-gui/src/device_snapshot.rs:79-108 | a retained field is its last nonempty observation since the identity reset |
| DeviceSnapshot.FloorsStep | crates/ltbox-gui/src/device_snapshot.rs:113-125 | floors are the last reported ones followed only by Fastboot polls |
| DeviceSnapshot.Merge | crates/ltbox-gui/src/device_snapshot.rs:53-126 | the merged values are what the longer history determines |
| DeviceSnapshot.Snapshot.Apply | crates/ltbox-gui/src/device_snapshot.rs:53-126 | after every poll the object agrees with the history; a field is fresh exactly when that poll supplied it |
| LiveSink.ReplaceKeeps | crates/ltbox-core/src/live_sink.rs:76-82 | replacing the newest entry is replacing it in the coalesced history |
| LiveSink.EvictKeeps | crates/ltbox-core/src/live_sink.rs:83-92 | an eviction keeps the bound, the order, the newest entry and the newest diagnostics |
| LiveSink.EvictedNeighbours | crates/ltbox-core/src/live_sink.rs:83-92 | an eviction from the middle never brings two updates of one transfer together |
| LiveSink.CoalescedDiagnostics | crates/ltbox-core/src/live_sink.rs:75-93 | coalescing loses no diagnostic |
| LiveSink.Sink.Push | crates/ltbox-core/src/live_sink.rs:75-93 | for every sequence of pushes: at most the capacity, no adjacent updates of one transfer, newest last, diagnostics a suffix of those pushed |
| LiveSink.Sink.Drain | crates/ltbox-core/src/live_sink.rs:95-97 | hands over exactly what the pushes since the last drain determine |
| LogHistory.Archive.Append | crates/ltbox-gui/src/log_history.rs:51-71 | whatever write fails the whole entry is kept, at most a prefix of it is torn, and a mirror that fails is dropped |
| LogHistory.Archive.Text | crates/ltbox-gui/src/log_history.rs:73-84 | a complete read is the transcript; a failing read is reported and loses nothing recorded |
| LogHistory.TranscriptLines | crates/ltbox-gui/src/log_history.rs:51-84 | the transcript line by line: the lines of every entry in order and once, and the torn prefix run into the notice |
| LogHistory.TranscriptHasEachOnce | crates/ltbox-gui/src/log_history.rs:51-142 | each single-line Info and Debug entry is a line of the transcript exactly once and in order, wherever and for whatever reason storage failed; beyond the entries it holds only the notice |
| LogHistory.NothingRepeatsExactly | crates/ltbox-gui/src/log_history.rs:51-84 | exactly when no failing write can repeat a line of an entry, whatever the reason of the failure |
| LogHistory.TornLineRepeats | crates/ltbox-gui/src/log_history.rs:51-84 | how a multi-line entry torn after a break has its first line twice |
| LogHistory.DiagnosticsExactlyOnce | crates/ltbox-gui/src/log_history.rs:109-142 | each Info and Debug entry is archived exactly once and in order |
| LogHistory.FlushTracks | crates/ltbox-gui/src/log_history.rs:144-150 | after finishing, the newest update of every transfer is archived |
| LogHistory.ContinueStep | crates/ltbox-gui/src/log_history.rs:111-127 | replacing a progress row keeps that invariant whether or not a sample is due |
| LogHistory.SeedKeepsExactly | crates/ltbox-gui/src/log_history.rs:158-174 | exactly when starting a mirror loses nothing of the transcript, with storage sound and after a failure |
| LogHistory.BlankLastLineLost | crates/ltbox-gui/src/log_history.rs:158-174 | a concrete archive whose blank last line is lost |
| LogHistory.MirrorIsWholeExactly | crates/ltbox-gui/src/log_history.rs:158-182 | a mirror repeats the whole transcript, storage notice included, exactly when its seed lost nothing |
| LogHistory.TrimmedLines | crates/ltbox-gui/src/log_history.rs:184-194 | trimming drops the blank last lines and no other |
| LogHistory.History.Record | crates/ltbox-gui/src/log_history.rs:109-142 | every event keeps the invariant; only ordinary lines become visible; a row is sampled exactly at the interval |
| LogHistory.History.FinishProgress | crates/ltbox-gui/src/log_history.rs:144-150 | archives the pending row unless its text already is |
| LogHistory.History.Text | crates/ltbox-gui/src/log_history.rs:184-194 | the shown text is a function of what is recorded, so it is repeatable; its lines are the transcript's and an unsaved row, without blank ones at the end |
| LogHistory.History.PersistTo | crates/ltbox-gui/src/log_history.rs:158-174 | a failed start keeps the old mirror; a new one holds its file's old content and the seed, which is the transcript as it reads, storage notice included |
| LogHistory.History.Cleared | crates/ltbox-gui/src/log_history.rs:176-182 | a healthy mirror goes on, in every case, from its old content, its seed and all archived since |
| OperationExecution.OperationExecution.Start | crates/ltbox-gui/src/operation_execution.rs:37-63 | a fresh, strictly larger id; the step and write flag shown are the new run's own |
| OperationExecution.OperationExecution.BeginPhased | crates/ltbox-gui/src/operation_execution.rs:37-63 | a phased run begins at its first step with no write started |
| OperationExecution.OperationExecution.SetCompletedStep | crates/ltbox-gui/src/operation_execution.rs:124-128 | the step shown is the one set, or the plan's last |
| OperationExecution.OperationExecution.BindCompletion | crates/ltbox-gui/src/operation_execution.rs:70-76 | binds at most once for each id over all runs |
| OperationExecution.OperationExecution.Finish | crates/ltbox-gui/src/operation_execution.rs:113-122 | keeps the step and the write flag last shown; success shows the last step |
| OperationExecution.OperationExecution.DeliverCompletion | crates/ltbox-gui/src/update/mod.rs:110-135 | a completion with an old id never releases a newer run |
| OperationExecution.LateMarks | crates/ltbox-gui/src/operation_phase.rs:352-409 | marks on an older run's reporter change nothing shown |
| OperationExecution.CurrentMarks | crates/ltbox-gui/src/operation_phase.rs:352-409 | marks of the current run are shown at once, and the write flag never falls |
| DeviceQueries.IdsIncrease | crates/ltbox-gui/src/device_queries.rs:126-132 | numbers strictly increase over any history |
| DeviceQueries.AcceptedAtMostOnce | crates/ltbox-gui/src/device_queries.rs:164-170 | a lookup token is accepted at most once |
| DeviceQueries.StaleAfterInvalidation | crates/ltbox-gui/src/device_queries.rs:172-183 | after a cancel, a context change or a newer lookup a token is never accepted, even if the same device returns |
| DeviceQueries.OneLease | crates/ltbox-gui/src/device_queries.rs:134-147 | two polls never hold the lease together |
| DeviceQueries.Next | crates/ltbox-gui/src/device_queries.rs:117-183 | what each event does to every token, lease and probe: no cancel or context change releases a lease |
| DeviceQueries.DeviceQueries.StartPoll | crates/ltbox-gui/src/device_queries.rs:134-139 | a new poll takes the lease under a new number |
| DeviceQueries.DeviceQueries.FinishPoll | crates/ltbox-gui/src/device_queries.rs:141-147 | releases the lease exactly for its holder |
| DeviceQueries.DeviceQueries.StartLookup | crates/ltbox-gui/src/device_queries.rs:155-162 | a new lookup takes its kind's place under a new number |
| DeviceQueries.DeviceQueries.CancelLookup | crates/ltbox-gui/src/device_queries.rs:172-177 | drops lookups of its kind only |
| DeviceQueries.DeviceQueries.FinishLookup | crates/ltbox-gui/src/device_queries.rs:164-170 | accepts exactly the live token of its kind |
| DeviceQueries.DeviceQueries.InvalidateContext | crates/ltbox-gui/src/device_queries.rs:179-183 | drops every lookup and the region probe, keeps the poll lease |
| DeviceQueries.DeviceQueries.DropRegion | crates/ltbox-gui/src/update/flash.rs:10-30 | dropping the region probe touches no lookup and no lease |
| Calendar.DayNumberCounts | crates/ltbox-gui/src/poll_state.rs:206-212 | the day number counts one for each step of the proleptic Gregorian calendar |
| Calendar.DayNumberOfDateOf | crates/ltbox-gui/src/poll_state.rs:206-212 | the day number of the n-th day is n |
| Calendar.DateOfDayNumber | crates/ltbox-gui/src/poll_state.rs:206-212 | and the other way round, for every date since 1970 |
| RollbackValue.RawRoundTrip | crates/ltbox-gui/src/poll_state.rs:136-173 | hexadecimal: parse after render is the identity on 64-bit values |
| RollbackValue.UnixRoundTrip | crates/ltbox-gui/src/poll_state.rs:136-180 | decimal: the same |
| RollbackValue.DateRoundTrip | crates/ltbox-gui/src/arb.rs:18-27 | a four-digit year gives the start of that day, any later one an error |
| RollbackValue.AcceptedDateIsThatDay | crates/ltbox-gui/src/poll_state.rs:157-212 | any text accepted as a date names a real day, and the value is the start of that day |
| RollbackValue.YearBound | crates/ltbox-gui/src/arb.rs:18-27 | which days have a four-digit year |
| PhaseProgress.PoliciesArePlanned | crates/ltbox-gui/src/operation_phase.rs:77-98 | every policy names distinct phases of its own plan, not all of them, and a share in the unit interval |
| PhaseProgress.WeightsSumToOne | crates/ltbox-gui/src/operation_phase.rs:100-126 | the weights add up to one |
| PhaseProgress.FractionInRange | crates/ltbox-gui/src/operation_phase.rs:100-124 | the fraction stays in the unit interval and reaches exactly one |
| PhaseProgress.BoundariesMeet | crates/ltbox-gui/src/operation_phase.rs:100-126 | the end of a phase is the start of the next |
| PhaseProgress.FractionMonotone | crates/ltbox-gui/src/operation_phase.rs:100-126 | monotone in step and percentage |
| PhaseProgress.WorkAdvancesShare | crates/ltbox-gui/src/operation_phase.rs:100-126 | the work phases together advance exactly the share |
| PhaseProgress.EvenFractionLaws | crates/ltbox-gui/src/operation_phase.rs:21-32 | the same laws for plans without a policy |
| DesktopExec.Write | crates/ltbox-gui/src/platform_installers.rs:85-106 | the loop writes what the readers read back as the path, or refuses a path it cannot write |
| DesktopExec.ExecReadsBack | crates/ltbox-gui/src/platform_installers.rs:85-106 | string escapes, then quoting, then field codes give back exactly the path |
| DesktopExec.NoLineBreak | crates/ltbox-gui/src/platform_installers.rs:85-106 | no line break in the output |
| DesktopExec.ExecInjective | crates/ltbox-gui/src/platform_installers.rs:85-106 | different paths have different lines |
| Reveal.Reveal | crates/ltbox-core/src/obf.rs:19-38 | the chunk loop computes the recursive decoding |
| Reveal.RevealInvertsEncode | crates/ltbox-core/src/obf.rs:19-38 | inverts standard base64, padded or not |
| Reveal.InsertionIgnored | crates/ltbox-core/src/obf.rs:20-23 | padding and whitespace may be inserted anywhere |
| Reveal.DecodesExactly | crates/ltbox-core/src/obf.rs:9-38 | exactly which texts decode, and how long the result is |
| FirmwareContainer.Pbkdf1 | crates/ltbox-core/src/crypto.rs:20-34 | the loop computes the iterated hash cut to length |
| FirmwareContainer.CbcRoundTrip | crates/ltbox-core/src/crypto.rs:52-66 | chaining decryption inverts chaining encryption for any block cipher |
| FirmwareContainer.OpenPlain | crates/ltbox-core/src/crypto.rs:66-108 | accepts exactly the genuine plaintexts, for every signed size; no slice out of range |
| FirmwareContainer.DecryptFile | crates/ltbox-core/src/crypto.rs:37-114 | an accepted file's output is the body whose hash follows it; a refused one has no genuine body |
| FirmwareContainer.PackRoundTrip | crates/ltbox-core/src/crypto.rs:37-114 | a packed file is genuine for its own body and no other |
| FirmwareContainer.OpenPacked | crates/ltbox-core/src/crypto.rs:37-114 | opening a packed file gives its body |
| FormatTemplate.TokeniseReads | crates/ltbox-core/src/i18n.rs:46-63 | every template has a reading whose pieces flatten back to it |
| FormatTemplate.ReadingUnique | crates/ltbox-core/src/i18n.rs:46-63 | and only one |
| FormatTemplate.Format | crates/ltbox-core/src/i18n.rs:46-63 | the loop's output is that reading with each token replaced and all else verbatim |
| FormatTemplate.UnchangedWithoutValues | crates/ltbox-core/src/i18n.rs:54-58 | unknown names are kept verbatim, and a value that spells a token is not looked at again |
| FormatTemplate.OwnNamesOnly | crates/ltbox-core/src/i18n.rs:54-58 | only values of the template's own names matter |
| FormatTemplate.FilledAppend | crates/ltbox-core/src/i18n.rs:46-63 | filling a closed template followed by another is filling each |

## Left out

- PartitionStorage.ReadGpt: the GPT codec is an arbitrary function of the metadata sectors; checksums and the
  backup copy are not modelled, and neither is the slot argument of a read.
- EdlSession.Session.Program: the programmer's write is a contract (stores the given sectors or fails, never
  outside its range); USB, serial, Sahara and Firehose transport are not modelled. Sizes fit a 64-bit host.
- EdlSession.Session.FlashPartition: what a success leaves is stated for a GPT whose entries lie in the usable area and
  do not overlap, as the UEFI Specification requires; the code does not check this. The frame holds on any GPT.
- PartitionTransfer.FlashRows: resets, phases and output paths of the wizards are not modelled, nor is moving the
  device between the two wizards.
- OverlayFlash.Provision: the firmware flash between building and writing the overlays is not modelled; the storage is
  what it left. A converted `vendor_boot` that the region wizard inserts before the root is not modelled.
- EdlSession.Session.DumpPartition: publication through a temporary file is one step; the output path is not modelled.
- FlashProgress.Slot.BeginPartition: a write whose bytes were registered in advance needs them still unspent,
  which the batch and rawprogram callers provide; a poisoned lock is not modelled.
- ArbOverlay.Builder.StageImages: signing and footer parsing are contracts; a missing LUN for the root and a
  count mismatch are found after images were staged, and are not policy refusals.
- ArbOverlay.Builder.BuildForFloors: reading the floors from the device and choosing the base vbmeta are the caller's.
- LegacyMigration.Disk.Migrate: the two roots are equal or no legacy entry meets a destination, a condition on the two
  paths (`EntriesApartExactly`) that a legacy root inside the data root can also meet. Otherwise, as when the data root lies inside an
  entry to be moved, a copy would descend into its own output, which is not modelled.
- LegacyMigration.Destination: names are ordinary path components, so slugs `.` and `..` are not modelled, nor are
  links to directories, links into the two trees, case-insensitive file systems, or an existence check that itself fails.
- DeviceSnapshot.Snapshot.Apply: the nine retained text fields are one map; how a poll is obtained is not modelled.
- LogHistory.History.PersistTo: file names and the pruning of old session files are not modelled, nor is
  the constructor that starts with a first line.
- LogHistory.Archive.Text: characters stand for bytes. In the program a write torn inside a multi-byte character makes
  every later read of the stored part fail, so those lines then stay in the file but leave the text.
- LogHistory.Archive.Append: each file is its content; a seek or flush that fails is a failing write.
- OperationExecution.OperationExecution.Start: elapsed time and the view shown are not modelled; a start while
  a run is active, or after the last 64-bit id, is a panic there and a precondition here. A reporter belongs to one run.
- RollbackValue.ParseDate: text is ASCII characters; the calendar library's own year range is not a limit here.
- PhaseProgress.WeightedFraction: fractions are reals; rounding of 32-bit floats is not modelled.
- DesktopExec.Write: text is a sequence of characters; the file it is written to is not modelled.
- Reveal.Reveal: the result is bytes; the final check that they are UTF-8 is not modelled, and its two panics are errors.
- FirmwareContainer.DecryptFile: hash and block cipher are arbitrary functions with their size and inverse laws;
  reading and writing the files is not modelled.
- Device name, region and loader tables, HTTP clients, downloads, drivers and all views: lookup tables and plumbing.
- Rawprogram XML and partition scans: the geometry they yield is what the snapshot check validates.
