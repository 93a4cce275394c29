# Bonsai: verified models of its stateful cores

Bonsai is a network telemetry system. This project models, in Dafny, the parts of it
that must neither lose nor mix data, and proves what they promise for every input,
every run and every interleaving of steps:

- **Correlation buffer** (`CorrelationLedger`, `CorrelationRuns`, `CorrelationLaws`,
  `CorrelationBuffer`, `BmpKeys`). Slots keyed by device, semantic type and sub-key
  absorb late signals, by exact match or by the one-sided empty-sub-key wildcard. The
  ledger numbers every slot ever opened and names the slot that took each signal. Every
  `elapsed()` is a reading of its own, so time may pass between any two of them inside
  one call. The class performs exactly one ledger event per call.
- **Leader election** (`Election`, `ElectionLimits`, `ElectionNode`). Any number of
  coordinators, one election key with an attached lease, lost answers, lease expiry,
  crashes, restarts and shutdown, as interleaved steps. `ElectionLimits` shows that each
  hypothesis of the safety theorem is needed. `ElectionNode` is one
  coordinator as a class whose every move is a step of the protocol.
- **Hourly archive** (`ArchiveNames`, `ArchiveRows`, `ArchiveRuns`, `ArchiveWriter`). Rows are routed to
  the newest file of their target and hour. Files and the file system are part of the
  state, every I/O call may fail, and every file is open, finished or lost. What a call
  accepts, finishes and loses is a function of the answers of the file system.
- **Counter summarizer** (`CounterStats`, `CounterBook`, `CounterSummarizer`). The
  incremental statistics against folds over raw samples. The book records the fate of
  every window: open, summarised or evicted.
- **Path discovery** (`Fallbacks`, `FallbackLaws`, `Overrides`). Fallback selection and
  override resolution against a meaning given path by path.
- **Collector assignment** (`Sites`, `Rules`, `Assignment`). The ancestor walk over a
  possibly cyclic site graph, the stable priority sort, and reassignment.
- **Event bus** (`Channels`, `EventBus`). A bounded router and three overflow policies as
  concurrent steps.
- **Config change history** (`ChangeHistory`), **gNMI paths** (`GnmiPaths`), **detection
  scoring** (`Scoring`, `Percentiles`).

`Texts`, `TextOrder`, `Decimals`, `Histories`, `Ownership`, `Sets` and `Options` hold what
several of these share.

Inputs from outside are parameters. The correlation buffer is given a clock that shows any
times that never go back; the clock readings of the summarizer and the archive are parameters
of each call. The archive and the collector manager are given the answers of the file system
and of the registry to all their calls, whatever they are; a coordinator is given the answers
of etcd. Hash functions and parsed JSON values are inputs. Sums, means and percentiles are
real numbers. `HashMap` iteration is a free choice of the order, which the contracts name.

## Findings

Where the code and its documentation disagree, the model follows the code.

- The comment above `parse_path` shows `interface[name=ethernet-1/1]`. That path is
  misread, because the text is split at slashes before brackets are looked at
  (`GnmiPaths.SlashInValueIsMisread`). `GnmiPaths.RoundTripIffPrintable` gives the exact
  set of paths that survive.
- `parse_path` panics on some inputs, because it slices off the last byte of a segment with
  a bracket. `GnmiPaths.PanicsIff` gives them exactly.
- A node that comes back and finds its own id in the election key leads without attaching
  its new lease to it. Keeping that lease alive then protects nothing
  (`ElectionLimits.KeepingOwnLeaseAliveIsNotEnough`). While a leader keeps serving under a
  living lease of its own, another node can lead beside it if and only if that lease is not
  the attached one (`ElectionLimits.OwnLeaseProtectsIffAttached`).
- Shutdown revokes the lease before the node steps down, so two nodes can be Leader for a
  moment. That is so whenever a leader serves under the attached lease and there is another
  node (`ElectionLimits.RevokeBeforeStepDown`).
- A device whose collector leaves can be given to that same collector again
  (`Assignment.DeviceReturnsToDepartingCollector`). It is if and only if the rule that wins
  for the device names that collector (`Assignment.ReleasedDeviceMayReturn`).
- Two paths that are fallbacks for each other are both supported and neither is subscribed
  to (`FallbackLaws.MutualFallbacksSelectNothing`). With unique names every eligible path
  leads to a selected one if and only if there is no cycle
  (`FallbackLaws.CoveringIffAcyclic`).
- Config changes are compared with the snapshot of latest capture time. The changes agree
  with the snapshots if and only if that snapshot carries the hash recorded last
  (`ChangeHistory.LatestSnapshotDecides`). When the clock goes back between two captures
  that differ, any third capture breaks the agreement
  (`ChangeHistory.ClockGoingBackBreaksHistory`). Growing capture times guarantee it.
- A plain BMP peer address that spells out a qualified one shares its sub-key
  (`BmpKeys.PrefixedAddressCollides`). `BmpKeys.SubKeyCollides` says exactly when.
- The ancestor set holds at most 20 names (`Sites.AtMost20Names`), and a chain of ten
  records reaches 20 (`Sites.TwentyNamesReached`). The bound of 12 in the source's own
  cycle test counts one name per record.
- When one close fails, closing all writers drops the remaining ones without finishing
  their files, however healthy (`ArchiveRuns.BrokenCloseLeavesTheOther`). Every file is
  finished if and only if no close breaks and the size of every file but the last can be
  read (`ArchiveRuns.AllFinishedIff`).
- A detection that names only its host counts as a false positive inside the window of a
  fault on that host, because coverage looks at the target alone
  (`Scoring.HostnameAloneIsFalsePositive`, `Scoring.SecondDetectionByHostname`).
- An archive append can fail with all of it written, because reading the file size comes
  after the write (`ArchiveRuns.FailedAppendHasWritten`). Something is written in full if
  and only if the first writer opens and takes its group
  (`ArchiveRuns.WrittenIffFirstWriteSucceeds`).
- A registry write that fails to persist has changed the device in memory. So reassignment
  gives every device what the rules choose if and only if no write was refused before that
  change (`Assignment.AssignRunFacts`).

## Model

| member | source | states |
|---|---|---|
| CorrelationRuns.RecordInv | src/correlation_buffer.rs:142-248 | Recording a signal, with any clock readings, keeps every slot in exactly one place, filled with exactly its own signals, unmixed and inside its window. No insert overwrites a live slot. |
| CorrelationRuns.StepInv | src/correlation_buffer.rs:142-284 | The same for each of record, drain_expired and drain_all. |
| CorrelationRuns.RunInv | src/correlation_buffer.rs:142-284 | The same over every run. |
| CorrelationRuns.Conservation | src/correlation_buffer.rs:142-289 | Over every run from an empty buffer, the NewSlot outcomes equal the slots held plus the slots handed over, no slot is handed over twice, and every slot is what its signals make it. |
| CorrelationRuns.DrainAllEmitsEverySlotOnce | src/correlation_buffer.rs:279-284 | After drain_all nothing is held and every slot ever opened has been handed over exactly once. |
| CorrelationRuns.DrainExpiredLeavesNoneClosed | src/correlation_buffer.rs:252-276 | A drain_expired whose readings are at or after t leaves no slot whose window had closed by t, and has handed all of those over; every slot still open when the call ends stays. |
| CorrelationLaws.FoldIdsIsSet | src/correlation_buffer.rs:84-91 | The event ids of a slot are the duplicate-free set of the ids it absorbed. |
| CorrelationLaws.FoldSourcesIsSet | src/correlation_buffer.rs:84-91 | The source types of a slot are the duplicate-free set of the sources it absorbed. |
| CorrelationLaws.SlotsHoldTheirSignals | src/correlation_buffer.rs:66-91 | Over every run, the ids and sources of a slot are exactly those of the signals it took, each once, and its time and detail are those of its first signal, which was taken when the slot opened. |
| CorrelationLaws.NoMixing | src/correlation_buffer.rs:152-247 | Over every run, two signals of one slot agree on device and type, and on the sub-key when both have one; a slot holds only signals with its own sub-key or none. |
| CorrelationLaws.WildcardIsUnambiguous | src/correlation_buffer.rs:188-205 | A signal without sub-key joins a slot that has one only if every other slot of the group was found closed by a reading of that call. |
| CorrelationLaws.ExaminedIff | src/correlation_buffer.rs:169-215 | After an exact match has failed, the sweep reads exactly the other slots of the device and type, keeps those it finds open, and the wildcard match examines all of these for a signal without a sub-key and only the one without a sub-key for any other. |
| CorrelationLaws.AbsorbedIff | src/correlation_buffer.rs:152-248 | A signal is absorbed if and only if the slot at its key is open, or exactly one of the slots it may join is found open, first by the sweep and then by the wildcard match. |
| CorrelationLaws.JoinsTheEmptySlot | src/correlation_buffer.rs:206-235 | A signal with a sub-key and no slot of its own must join the slot without a sub-key whenever that one stays open to the end of the call; the slot is then found under the sub-key. |
| CorrelationLaws.JoinsTheOpenSlot | src/correlation_buffer.rs:188-205 | A signal without a sub-key must join the one slot of its device and type that stays open to the end of the call, when all others have closed before. |
| CorrelationLaws.RecordEffect | src/correlation_buffer.rs:64-91 | A new slot is opened when the call ends with just the signal in it; a slot that takes a signal gains its id and source only where they are new and keeps its opening time, first time and detail; no other slot changes and nothing is handed over. |
| CorrelationLaws.NothingAbsorbedAfterWindow | src/correlation_buffer.rs:152-215 | Over every run, nothing is absorbed at or after a slot's opening time plus the window. |
| CorrelationLaws.LandsUnderItsKey | src/correlation_buffer.rs:206-247 | A signal with a sub-key leaves its slot under exactly its own key, through absorption, upgrade or opening. |
| CorrelationLaws.Sticky | src/correlation_buffer.rs:152-186 | Without drain_all in between, a second signal of the same non-empty key joins the slot of the first while that slot's window is open. |
| CorrelationLaws.RunFreezes | src/correlation_buffer.rs:252-284 | Over every run, a slot that was handed over is never changed and never handed over again. |
| CorrelationBuffers.CorrelationBuffer.constructor | src/correlation_buffer.rs:122-130 | A new buffer is the empty ledger, at the first time of its clock. |
| CorrelationBuffers.CorrelationBuffer.ReadWindows | src/correlation_buffer.rs:172-181 | The next readings of the clock, one per slot in any order, sort the slots into closed and open ones. |
| CorrelationBuffers.CorrelationBuffer.Remove | src/correlation_buffer.rs:182-186 | Exactly the named slots leave the map, and are returned in order. |
| CorrelationBuffers.CorrelationBuffer.MatchExact | src/correlation_buffer.rs:152-167 | A slot at the signal's key takes the signal if the next reading finds it open, and is moved aside otherwise. |
| CorrelationBuffers.CorrelationBuffer.Sweep | src/correlation_buffer.rs:169-186 | Exactly the slots of the group that the readings find closed move aside, in order. |
| CorrelationBuffers.CorrelationBuffer.FindWildcard | src/correlation_buffer.rs:188-215 | The wildcard slot is found exactly when it is the only open one among those examined; `AbsorbedIff`, `JoinsTheEmptySlot` and `JoinsTheOpenSlot` say when a signal must join it. |
| CorrelationBuffers.CorrelationBuffer.Examine | src/correlation_buffer.rs:169-215 | The group is swept and the wildcard match found, with one reading per slot swept and examined. |
| CorrelationBuffers.CorrelationBuffer.AbsorbAt | src/correlation_buffer.rs:217-235 | The slot takes the signal and continues under the richer of the two keys. |
| CorrelationBuffers.CorrelationBuffer.Settle | src/correlation_buffer.rs:169-248 | After a miss or a closed exact match, sweep, wildcard and opening together give the ledger record. |
| CorrelationBuffers.CorrelationBuffer.Record | src/correlation_buffer.rs:142-248 | One call is one ledger record for exactly the readings that the clock gave it: one for a slot at the key, one per slot swept or examined, one when a slot is opened. |
| CorrelationBuffers.CorrelationBuffer.DrainExpired | src/correlation_buffer.rs:252-276 | One call is one ledger drain for the next readings of the clock, one per slot, and returns the slots moved aside earlier followed by the closed ones. |
| CorrelationBuffers.CorrelationBuffer.DrainAll | src/correlation_buffer.rs:279-284 | One call is one full ledger drain, and returns every slot held. |
| CorrelationBuffers.CorrelationBuffer.Len | src/correlation_buffer.rs:286-289 | The length is the number of slots opened and not yet handed over. |
| BmpKeys.SubKeyCollides | src/correlation_buffer.rs:394-406 | Two peers share a sub-key if and only if they are equal or one is plain and spells the other out. |
| BmpKeys.SubKeyInjective | src/correlation_buffer.rs:394-406 | The sub-key determines type, distinguisher and address when plain addresses do not begin with "pt". |
| BmpKeys.ReportsIff | src/correlation_buffer.rs:383-414 | Only the states established and down are reported, as neighbour up and neighbour down, both under the sub-key of the peer. |
| BmpKeys.PrefixedAddressCollides | src/correlation_buffer.rs:402-406 | Without that condition two different peers can share a sub-key. |
| BmpKeys.DifferentPeersNeverShareASlot | src/correlation_buffer.rs:383-414 | Over every run, BMP reports of different peers with non-empty sub-keys, or of a session going up and one going down, never share a slot. |
| Election.StepKeepsInv | src/ha_coordinator.rs:175-269 | Every protocol step, while the attached lease is sustained, keeps each claimant that has not revoked its lease named by the election key. |
| Election.RunKeepsInv | src/ha_coordinator.rs:175-269 | The same over every run. |
| Election.RunKeepsLeases | src/ha_coordinator.rs:187-214 | In every run, sustained or not, a lease a node works under was granted to that node, and the key names the node its attached lease was granted to. |
| Election.AtMostOneLeader | src/ha_coordinator.rs:136-269 | For any number of distinctly named nodes and any interleaving with a sustained lease, at most one node is Leader among those that have not executed their revoke on shutdown, and the key names it. A node that was asked to stop, or has noticed it, still counts. |
| Election.ElectionElects | src/ha_coordinator.rs:175-238 | An undisturbed coordinator with a new lease gets through connect, grant and transaction: it becomes Leader and its name and lease are in the key when that was free; else the key is untouched and it leads or follows by the name in the key. |
| Election.ShutdownFreesTheKey | src/ha_coordinator.rs:259-266 | A serving coordinator that was asked to shut down can revoke its lease and step down; the key becomes free if and only if that lease was attached to it. |
| Election.ExitIsElectingAndDisconnected | src/ha_coordinator.rs:144-172 | In every run, every exit of start_election in cluster mode leaves the node Electing and disconnected. |
| Election.FollowerNeverRetries | src/ha_coordinator.rs:246-268 | A node past its election and not Leader stays so in every run that does not restart it or call start_election anew. |
| ElectionLimits.UnsustainedLapseAllowsTwoLeaders | src/ha_coordinator.rs:195-238 | From any state that satisfies the invariant, a lapse of the attached lease under a claimant that has not revoked it is unsustained, and with another node present it can be continued to two leaders. |
| ElectionLimits.RevokeBeforeStepDown | src/ha_coordinator.rs:259-266 | From any state that satisfies the invariant, with a leader serving under the attached lease and another node present, a continuation without any unsustained lapse makes both Leader, the first after its revoke. |
| ElectionLimits.OwnLeaseDoesNotProtect | src/ha_coordinator.rs:230-231 | From any state in which a leader serves under a live lease that is not the attached one, a lapse of the attached one can be continued to two leaders with live leases. |
| ElectionLimits.AttachedLeaseProtects | src/ha_coordinator.rs:244-257 | While a node keeps serving under the attached lease and that lease does not lapse, it stays attached and the invariant holds. |
| ElectionLimits.OwnLeaseProtectsIffAttached | src/ha_coordinator.rs:230-257 | From any state that satisfies the invariant, while a leader keeps serving and its own lease does not lapse, another node can lead beside it if and only if the attached lease is not its own. |
| ElectionLimits.KeepingOwnLeaseAliveIsNotEnough | src/ha_coordinator.rs:230-231 | In every cluster of two or more nodes, a run leads to two leaders, each serving under a lease of its own that is alive. |
| ElectionLimits.SharedNameGivesTwoLeaders | src/ha_coordinator.rs:230-231 | In every cluster in which two nodes share a name, a run without any lapse makes both lead. |
| ElectionLimits.SafeIffDistinctNames | src/ha_coordinator.rs:195-238 | No run with a sustained lease has two leaders if and only if names are distinct. |
| ElectionNodes.Coordinator.constructor | src/ha_coordinator.rs:69-78 | A new coordinator is Electing, disconnected and not started. |
| ElectionNodes.Coordinator.SetState | src/ha_coordinator.rs:102-112 | The callback hears the state history with adjacent repeats removed. |
| ElectionNodes.Coordinator.Shutdown | src/ha_coordinator.rs:123-125 | Requesting shutdown sets the signal and is a protocol step. |
| ElectionNodes.Coordinator.StartElection | src/ha_coordinator.rs:136-172 | Standalone leads at once. In cluster mode a run that gets an answer takes the state that the answer gives and ends exactly when a heartbeat fails or shutdown is noticed; any other run ends. Every finished run leaves the node Electing and disconnected, and every move is a protocol step. |
| ElectionNodes.Coordinator.RunElection | src/ha_coordinator.rs:175-193 | Without a lease or an answer the run ends; otherwise the node takes the state that the answer gives, and the run ends exactly when its loop does. |
| ElectionNodes.Coordinator.CompeteForKey | src/ha_coordinator.rs:195-238 | The node leads if the transaction succeeded or named it, and follows the named leader otherwise; then it serves. |
| ElectionNodes.Coordinator.Serve | src/ha_coordinator.rs:240-269 | The keep-alive loop ends exactly when a heartbeat fails or it notices that shutdown was called, and then Electing and disconnected. |
| ElectionNodes.LoopEndsIff | src/ha_coordinator.rs:246-268 | The keep-alive loop ends if and only if some heartbeat fails, or it looks at the shutdown signal once shutdown was called. |
| ElectionNodes.StateComesFromAnswer | src/ha_coordinator.rs:195-238 | Whatever etcd answers, a coordinator is Leader only after a transaction named it, and Follower of another only after a transaction named that one. |
| ElectionNodes.Coordinator.Resign | src/ha_coordinator.rs:262-265 | Resigning ends Electing and disconnected, through protocol steps. |
| ElectionNodes.Coordinator.GiveUp | src/ha_coordinator.rs:150-159 | Every error exit ends Electing and disconnected, through protocol steps. |
| ArchiveNames.HourStartIdentifiesHour | src/archive.rs:752-767 | Saturating arithmetic neither merges nor reorders hours: hour starts are equal, and smaller, exactly as the hours since the epoch are, for all 64-bit timestamps. |
| ArchiveNames.PartitionIdentifies | src/archive.rs:750-767 | Two updates share a partition if and only if they have the same target and fall in the same hour since the epoch. |
| ArchiveNames.SanitizedIsFlat | src/archive.rs:740-748 | Sanitizing keeps ASCII letters, digits, dash, underscore and dot, turns every other character into an underscore, leaves no path separator, and changes nothing when repeated. |
| ArchiveNames.FilePathOfUpdate | src/archive.rs:728-739 | An update is filed under the day of its timestamp and a name made of its sanitized target, the hour of that day in two digits and, from the second file on, the part number. |
| ArchiveNames.FilePathInjective | src/archive.rs:728-739 | Different part numbers of a partition have different paths. |
| ArchiveRows.WriteAppends | src/archive.rs:554-560 | Writing to the newest file of a partition appends to that partition and touches no other. |
| ArchiveRows.ReadableIffFinished | src/archive.rs:581-594 | The finished files of a partition hold all its rows if and only if its unfinished files are empty. |
| ArchiveRuns.AppendingEndsWell | src/archive.rs:404-407 | Appending groups fails if and only if one of its I/O calls fails, and it stops with that call. |
| ArchiveRuns.AppendingWrites | src/archive.rs:404-407 | When appending does not fail every group is written, and nothing else ever is; a write that is torn is the last call, and that call failed. |
| ArchiveRuns.AppendingCalls | src/archive.rs:404-407 | Appending that goes well makes two I/O calls for each group and two more for each writer that has to be opened. |
| ArchiveRuns.WrittenIffFirstWriteSucceeds | src/archive.rs:404-407 | Some group is written in full if and only if the first writer opens and takes its group. |
| ArchiveRuns.FailedAppendHasWritten | src/archive.rs:554-569 | With the size unreadable after the write, the append fails and all of it is written. |
| ArchiveRuns.ClosingEndsWell | src/archive.rs:413-435 | Closing writers fails if and only if one of its I/O calls fails, and it stops with that call. |
| ArchiveRuns.ClosingSplits | src/archive.rs:413-435 | Every writer is finished, broken or not reached, and at most one is broken. |
| ArchiveRuns.AllFinishedIff | src/archive.rs:413-419 | Every file is finished if and only if no close breaks and the size of every file but the last can be read. |
| ArchiveRuns.BrokenCloseLeavesTheOther | src/archive.rs:413-419 | When the first of two closes breaks, the second writer is not reached, whatever its own close would have answered. |
| ArchiveWriters.FindFreePart | src/archive.rs:598-613 | The unbounded part search ends, at the first part whose path does not exist. |
| ArchiveWriters.HourlyArchiveWriter.constructor | src/archive.rs:382-389 | A new writer has no open file, has accepted nothing and lost nothing. |
| ArchiveWriters.HourlyArchiveWriter.OpenPartitionWriter | src/archive.rs:491-552 | Opening reuses the open writer or creates a file at the first part of the partition that does not exist yet, and changes no rows; it fails exactly when creating the file or setting up its writer does. |
| ArchiveWriters.HourlyArchiveWriter.GroupByPartition | src/archive.rs:392-398 | There is a group for exactly the partitions in the buffer, holding the updates of that partition in arrival order; the maximum hour is attained. |
| ArchiveWriters.HourlyArchiveWriter.AppendRows | src/archive.rs:554-579 | If the write goes well the batch is appended with total and time updated, and the call fails only when the size cannot be read; else a prefix of the batch is taken in, the total stays, and the file is damaged. |
| ArchiveWriters.HourlyArchiveWriter.AppendGroup | src/archive.rs:405-406 | The same for one group, with its writer opened if needed. |
| ArchiveWriters.HourlyArchiveWriter.AppendGroups | src/archive.rs:404-407 | The rows added are exactly those of the groups that the answers of the file system let through, in order. |
| ArchiveWriters.HourlyArchiveWriter.CloseOne | src/archive.rs:581-594 | The writer is gone; its file is finished if completing it goes well and lost otherwise; the call succeeds exactly when the size can be read as well. |
| ArchiveWriters.HourlyArchiveWriter.Append | src/archive.rs:391-411 | The files of every partition, in creation order, were given exactly the accepted updates in arrival order. What is accepted, finished and lost is what the answers of the file system make of the groups and the closes. The call succeeds exactly when none of its I/O calls fails; then the whole buffer is accepted, nothing is lost, and just the writers of earlier hours are closed. |
| ArchiveWriters.AcceptedIsPrefix | src/archive.rs:554-560 | Of every group a prefix is accepted: all of it when it was written, as many rows as a failed write took in, or nothing. |
| ArchiveWriters.HourlyArchiveWriter.CloseWriters | src/archive.rs:428-434 | Writers are closed in order as far as the answers of the file system let it: those finished and at most one broken are gone, the rest stays open, and the totals reported are true but for damaged files. |
| ArchiveWriters.HourlyArchiveWriter.CloseHoursBefore | src/archive.rs:421-435 | Exactly the writers of earlier hours are closed in some order, as far as the answers of the file system let it. The call succeeds exactly when none of its I/O calls fails; then nothing is lost and none of them stays open. |
| ArchiveWriters.HourlyArchiveWriter.CloseIdle | src/archive.rs:438-462 | Exactly the writers that are idle are closed in some order, as far as the answers of the file system let it. The call succeeds exactly when none of its I/O calls fails; then nothing is lost and none of them stays open. |
| ArchiveWriters.HourlyArchiveWriter.CloseAged | src/archive.rs:466-489 | Exactly the writers that are aged are closed in some order, as far as the answers of the file system let it. The call succeeds exactly when none of its I/O calls fails; then nothing is lost and none of them stays open. |
| ArchiveWriters.HourlyArchiveWriter.CloseAll | src/archive.rs:413-419 | No writer stays in use. In the closing order, the files finished are those the answers of the file system let through; the broken one and all those not reached are lost. The call succeeds exactly when none of its I/O calls fails. |
| ArchiveWriters.HourlyArchiveWriter.FilesNeverMix | src/archive.rs:491-507 | Any two rows of a file have the same target and fall in the same hour since the epoch, the file lies in the directory of their day, and no path is used twice. |
| ArchiveWriters.HourlyArchiveWriter.FinishedFilesHoldAll | src/archive.rs:413-435 | What the finished files of a partition hold is exactly its accepted updates in arrival order if and only if its open and lost files are empty. |
| CounterStats.RecordFirst | src/counter_summarizer.rs:104-116 | The first value of a counter gives the fold of one value. |
| CounterStats.RecordNext | src/counter_summarizer.rs:112-116 | One incremental update is one more value in the fold. |
| CounterStats.SumIsAdditive | src/counter_summarizer.rs:114 | The sum of one value is that value, and the sum of two runs of values is the sum of their sums. |
| CounterStats.SumOfMultiset | src/counter_summarizer.rs:114 | The sum depends on the values as a collection only, not on their order. |
| CounterStats.MeanOfMultiset | src/counter_summarizer.rs:152 | The mean times the number of values is their sum, and lists of the same values have the same mean. |
| CounterStats.ValuesConcatenate | src/counter_summarizer.rs:100-119 | A sample contributes its value of a counter, or nothing when it lacks it, in the order of the samples. |
| CounterStats.MeanBetween | src/counter_summarizer.rs:150-152 | The mean lies between the minimum and the maximum. |
| CounterStats.KeyInjective | src/counter_summarizer.rs:63 | The window key identifies the interface when targets hold no NUL. |
| CounterStats.DeltaExact | src/counter_summarizer.rs:153 | The 64-bit difference is exact if and only if it fits; otherwise it is off by a multiple of two to the 64. |
| CounterBook.EmittedMeanBetween | src/counter_summarizer.rs:144-163 | Every summary ever emitted satisfies min <= mean <= max. |
| CounterBook.EmittedEntry | src/counter_summarizer.rs:144-163 | In every summary ever emitted, the minimum and maximum of a counter are reached and bound its raw values in the window, the mean times their number is their sum, and the difference is last minus first when no value is negative. |
| CounterBook.EmittedCounters | src/counter_summarizer.rs:144-163 | A summary has exactly one entry for each counter that some sample of its window reported, and no other. |
| CounterBook.WindowsNeverMixInterfaces | src/counter_summarizer.rs:63-98 | With NUL-free targets no window mixes two interfaces. |
| CounterSummarizers.CounterSummarizer.constructor | src/counter_summarizer.rs:39-45 | The capacity is at least one and nothing is open, for every window length. |
| CounterSummarizers.CounterSummarizer.EmitSummary | src/counter_summarizer.rs:144-163 | A summary has one entry per counter seen, each the minimum, maximum, mean and last-minus-first of exactly its raw values; the window length is cut to 32 bits. |
| CounterSummarizers.CounterSummarizer.EmitWindow | src/counter_summarizer.rs:70-73 | Emitting removes the window and records its summary as its fate. |
| CounterSummarizers.CounterSummarizer.RecordFields | src/counter_summarizer.rs:100-119 | One more sample turns the incremental folds into those of one more sample. |
| CounterSummarizers.CounterSummarizer.FindOldest | src/counter_summarizer.rs:78-82 | The victim has the least last-update time. |
| CounterSummarizers.CounterSummarizer.RollOver | src/counter_summarizer.rs:67-74 | A window is summarised and closed exactly when the clock has left it. |
| CounterSummarizers.CounterSummarizer.MakeRoom | src/counter_summarizer.rs:76-87 | A window is evicted exactly when a new interface meets a full map. |
| CounterSummarizers.CounterSummarizer.Put | src/counter_summarizer.rs:90-119 | The sample joins the open window of its key or begins a new one, and no other window changes. |
| CounterSummarizers.CounterSummarizer.Observe | src/counter_summarizer.rs:57-122 | Every sample is in exactly one window, open, summarised or evicted; open windows never exceed the capacity; a rollover never evicts; other windows stay as they are. The call stops, with nothing changed, exactly for a counter update at window length zero. |
| CounterSummarizers.CounterSummarizer.FlushStale | src/counter_summarizer.rs:126-141 | Exactly the silent windows are summarised and removed, one summary each. |
| CounterSummarizers.StaleIff | src/counter_summarizer.rs:126-132 | A window is stale exactly when its last update lies at least the idle time back, and always when the idle time is zero, even if the clock has gone back. |
| CounterSummarizers.CounterSummarizer.FewInterfacesAreNeverEvicted | src/counter_summarizer.rs:76-87 | While at most the capacity of interfaces has ever been seen, no sample is evicted. |
| Fallbacks.NoneMissingMeansMet | src/discovery.rs:596-636 | No reason is given if and only if vendor, required and any-of models are all satisfied. |
| Fallbacks.HasModelIff | src/discovery.rs:366-370 | A device has a required model if and only if the name occurs in one of its models, with anything before and after; so it has every model it lists, and none when it lists none. |
| Fallbacks.EqIgnoreCaseIff | src/discovery.rs:601-605 | Vendors are the same if and only if they have the same length and differ only in the case of ASCII letters. |
| Fallbacks.MissingConcatenates | src/discovery.rs:613-621 | The missing models are the required ones that the device lacks, in order. |
| Fallbacks.ReasonIff | src/discovery.rs:596-636 | The reason given is the first requirement that fails: the vendor, then the models that are all required, then the alternatives. |
| Fallbacks.Classify | src/discovery.rs:535-569 | Each template path is sorted into subscriptions, fallback candidates or unmet ones, in order. |
| Fallbacks.ClassesConcatenate | src/discovery.rs:535-569 | The immediate subscriptions, the fallback candidates and the unmet paths each keep the order of the template. |
| Fallbacks.SupportedTemplatePaths | src/discovery.rs:525-594 | The result is the immediate paths followed by the chosen fallbacks; selected plus dropped is the template's path count. |
| FallbackLaws.SelectionIsExact | src/discovery.rs:571-593 | A subscription is in the result if and only if it copies the fields of a template path that meets its requirements and is no fallback for an eligible primary. |
| FallbackLaws.DroppedIsExact | src/discovery.rs:535-593 | What is dropped is exactly the unsupported paths, each with its reason, and the supported fallbacks whose primary is eligible, each with that primary. |
| FallbackLaws.AcyclicCovers | src/discovery.rs:571-593 | With acyclic fallbacks, following them from any eligible path reaches a selected one. |
| FallbackLaws.CoveringIffAcyclic | src/discovery.rs:571-593 | With unique names, every eligible path reaches a selected one if and only if fallbacks are acyclic. |
| FallbackLaws.NothingSelectedIffAllStandIn | src/discovery.rs:571-593 | Nothing is selected if and only if every supported path is a fallback for an eligible one. |
| FallbackLaws.MutualFallbacksSelectNothing | src/discovery.rs:575-588 | Two paths that are fallbacks for each other are both eligible and nothing is selected. |
| Overrides.MeaningStep | src/discovery.rs:813-860 | One override changes the meaning of its own path only, and only when its scope matches. |
| Overrides.MatchesIff | src/discovery.rs:800-811 | An override applies by the site, the role or the address of the device; its environment plays no part and a missing role counts as the empty one. |
| Overrides.ScopeTextTellsKind | src/discovery.rs:814-821 | The recorded origin tells whether a site, role or device override was applied, and which one. |
| Overrides.UntouchedKeeps | src/discovery.rs:799-861 | A path that no override applies to keeps its base entry. |
| Overrides.BaseIsLast | src/discovery.rs:780-791 | Of several base entries for one path the last one counts. |
| Overrides.LastOverrideDecides | src/discovery.rs:823-858 | The last override that applies to a path decides: after a drop the resolved list lacks the path; after an add it has the added entry, sampled at the given seconds or ten; after a modify it has what was left before with only the given fields and the origin changed, or nothing. |
| Overrides.ResolveSubscriptionPaths | src/discovery.rs:772-864 | The list is strictly ascending by path, and holds for each path the fold of its matching overrides over its base entry. |
| Overrides.BasePaths | src/discovery.rs:780-791 | The last base entry of each path counts. |
| Overrides.IntoValues | src/discovery.rs:864 | The values of an ordered map, ascending by path and none missing. |
| TextOrder.LessIff | src/discovery.rs:863-864 | Paths are ordered as texts: a proper prefix first, else by the first character that differs. |
| Overrides.ResultUnique | src/discovery.rs:863-864 | The list is the only ascending one with that meaning. |
| Overrides.OrderMattersOnlyPerPath | src/discovery.rs:799-861 | Any reordering that keeps the order on each path gives the same list. |
| Sites.FindSite | src/assignment.rs:434-439 | The first record with the given name or id. |
| Sites.SiteAncestorSet | src/assignment.rs:427-451 | The loop computes the walk. |
| Sites.AtMost20Names | src/assignment.rs:427-451 | The set holds between 1 and 20 names. |
| Sites.LadderIsCollected | src/assignment.rs:427-451 | From the foot of a chain of at most ten records with distinct labels, all labels are collected. |
| Sites.TwentyNamesReached | src/assignment.rs:427-451 | Some sites give 20 names. |
| Sites.WalkIsFresh | src/assignment.rs:433-449 | Every iteration visits a record not visited before, even on a cycle. |
| Sites.CapDoesNotMatter | src/assignment.rs:433-449 | Any cap of at least the number of unseen records gives the same set. |
| Sites.OnlyTheParentChain | src/assignment.rs:440-448 | The set holds only the seed and labels of records on its parent chain. |
| Sites.AncestorsAreComplete | src/assignment.rs:433-449 | With distinct labels, every non-empty name and id of the first ten records of the chain is in the set, cyclic or not. |
| Rules.SortDescends | src/assignment.rs:114-117 | Sorted rules descend by priority. |
| Rules.SortPermutes | src/assignment.rs:114-117 | Sorting is a permutation. |
| Rules.SortIsStable | src/assignment.rs:114-117 | Rules of one priority keep their given order. |
| Rules.SortedChoiceWins | src/assignment.rs:125-143 | The chosen rule is the matching one of greatest priority, earliest in the given list on ties; none is chosen exactly when none matches. |
| Rules.ChoiceIsAward | src/assignment.rs:125-143 | Going through the sorted rules chooses a collector if and only if the one given rule that wins names it, and nothing if and only if no given rule matches. |
| Rules.AwardsFit | src/assignment.rs:125-143 | A collector is awarded only by a rule for an ancestor of the site of the device that asks for no role or for the role of the device; and whenever there is such a rule something is awarded. |
| Assignment.AssignIsIdempotent | src/assignment.rs:146-174 | Reassigning twice is reassigning once. |
| Assignment.NoMatchStaysUnassigned | src/assignment.rs:146-174 | No device with a matching rule stays unassigned. |
| Assignment.NothingMatchedStaysUnassigned | src/assignment.rs:146-174 | After a reassignment whose calls were all answered well, no device that a given rule matches is unassigned. |
| Assignment.AssignRunFacts | src/assignment.rs:154-173 | Each device ends as it was or as the rules choose, and all as the rules choose if and only if no write was refused without effect. |
| Assignment.ReleaseRunFacts | src/assignment.rs:265-297 | Each device of the collector ends as the rules choose, without a collector, or as it was; all as the rules choose when every call is answered well; no other device changes. |
| Assignment.ReleaseFollowsAnswers | src/assignment.rs:266-296 | A device of a departing collector is written again exactly when clearing it went well and a rule chooses for it; a clearing that fails leaves it as it was or without a collector. |
| Assignment.ReleasedDeviceMayReturn | src/assignment.rs:258-298 | After a collector leaves, other devices are unchanged and its own have what the given rules award; a device stays with it if and only if the given rule that wins for the device names it. |
| Assignment.DeviceReturnsToDepartingCollector | src/assignment.rs:265-285 | A registry and a rule list for which the device goes back to the departing collector. |
| Assignment.CollectorManager.constructor | src/assignment.rs:57-75 | The rules held are the given ones, sorted by priority. |
| Assignment.CollectorManager.SetRules | src/assignment.rs:114-120 | The new rules are held sorted, and unassigned devices are reassigned by them. |
| Assignment.CollectorManager.AssignByRules | src/assignment.rs:125-143 | The result is what the given rules award: the collector of the matching rule of greatest priority, the earliest given on ties, or nothing when none matches. |
| Assignment.CollectorManager.Write | src/registry.rs:331-359 | A write changes just the one device, unless it is refused; it succeeds exactly when the registry answers well. |
| Assignment.CollectorManager.AssignDevice | src/assignment.rs:155-172 | A device is written exactly when it is unassigned and some rule matches it. |
| Assignment.CollectorManager.AssignEach | src/assignment.rs:154-173 | Going through the listed devices writes exactly those that are unassigned and that a rule matches, whatever the registry answers. |
| Assignment.CollectorManager.ReleaseDevice | src/assignment.rs:266-296 | A device is cleared and, if that goes well and some rule matches, written again. |
| Assignment.CollectorManager.ReassignUnassigned | src/assignment.rs:146-174 | Nothing changes when the devices cannot be listed; else the registry is exactly what the answers of the registry make of writing each unassigned device that some rule matches, and it is the assignment of the rules if and only if no write was refused. |
| Assignment.CollectorManager.UnregisterCollector | src/assignment.rs:258-298 | Nothing changes when the devices cannot be listed; else the registry is exactly what the answers make of clearing and reassigning each device of the collector, and what the rules choose when all are good. No other device changes. |
| Channels.OfferKeepsInv | src/event_bus.rs:82-104 | Handing over an update under any policy keeps the books: what was taken in is what left plus what is queued, within capacity. |
| Channels.RoomIsUsed | src/event_bus.rs:82-171 | A queue with room takes the update in and drops nothing, whatever the policy. |
| Channels.FullQueueLosesOne | src/event_bus.rs:94-171 | At a full queue drop-newest keeps the queue and refuses the update, and drop-oldest gives up exactly its front for it. |
| Channels.CloseKeepsInv | src/event_bus.rs:86-92 | A consumer that goes away keeps the books. |
| Channels.BlockProducerLosesNothing | src/event_bus.rs:85-93 | Consumed plus queued is all that was offered, in order. |
| Channels.DropNewestLosesOnlyWhenFull | src/event_bus.rs:94-103 | Only updates that met a full queue are lost; the rest arrive in order. |
| Channels.DropOldestAddsUp | src/event_bus.rs:167-171 | Consumed plus overwritten plus queued equals offered, in order, and only a full queue is overwritten. |
| EventBus.StepKeepsInv | src/event_bus.rs:224-280 | Every step of publishers, router, subscribers and consumers keeps the delivery invariant. |
| EventBus.OfferedIsContiguous | src/event_bus.rs:224-280 | In every run, a subscriber is offered a contiguous, in-order run of the router-accepted updates from its registration on, without a gap; the router refuses only when full. |
| EventBus.PoliciesKeepTheirPromises | src/event_bus.rs:82-171 | In every run, for every subscriber whose consumer is there: a blocking queue loses nothing, drop-newest loses only what met a full queue, and drop-oldest overwrites only in a full queue, all in order. |
| EventBus.RouterStallsIff | src/event_bus.rs:262-280 | The router stands still if and only if its queue is empty, or every subscriber still to be served is a blocking one with a full queue whose consumer is there. |
| EventBus.ReadingUnblocks | src/event_bus.rs:85-93 | Publishing is always possible, and one read of a full blocking queue lets its delivery go on. |
| ChangeHistory.DiffBalances | src/config_store.rs:116-128 | Added and removed are the distinct lines of each text less those they share; both are zero exactly when the line sets agree; swapping the texts swaps the counts. |
| ChangeHistory.LinesOfJoined | src/config_store.rs:117-118 | The lines of a text are its pieces between line feeds, without a carriage return before the line feed and without an empty last piece. |
| ChangeHistory.LatestSnapshotDecides | src/change_detection.rs:293-331 | In whatever order captures come, comparing with a snapshot of latest capture time keeps changes and snapshots in agreement if and only if that snapshot carries the hash recorded last. |
| ChangeHistory.ClockGoingBackBreaksHistory | src/change_detection.rs:293-331 | When the second of two differing captures has the earlier time, any third capture of the device breaks the agreement. |
| ChangeHistory.RecordedKeepsSound | src/change_detection.rs:293-368 | With growing capture times, the baseline hash followed by the changes' current hashes is the snapshot-hash history without adjacent repeats, and each change starts where its predecessor ended. |
| ChangeHistory.ChangeDetector.LatestSnapshot | src/change_detection.rs:448-479 | The snapshot of latest capture time. |
| ChangeHistory.ChangeDetector.ProcessRequest | src/change_detection.rs:274-368 | A request succeeds exactly when it captures and needs no unreadable snapshot. A failed one leaves no record; a successful one adds its snapshot and the change record from the latest snapshot, if the hash differs. Agreement is kept if and only if that snapshot carries the hash recorded last. |
| ChangeHistory.ChangeDetector.RunWorker | src/change_detection.rs:250-272 | Working off any queue, with failures and any capture times, adds the snapshots of the captures kept, every readable one among them, in order, with exactly the changes of such a run of captures; with growing capture times changes and snapshots stay in agreement. |
| ChangeHistory.ChangeDetector.ChangeCountsBalance | src/change_detection.rs:627-668 | Every change record's counts account for the growth in distinct lines between its two snapshots. |
| GnmiPaths.ParsePairs | src/gnmi_set.rs:81-86 | The loop builds the key map; later pairs win. |
| GnmiPaths.PairsIff | src/gnmi_set.rs:82-86 | The keys are exactly the texts before the first equals sign of some piece. |
| GnmiPaths.LastPairWins | src/gnmi_set.rs:82-86 | The last piece that names a key gives its value. |
| GnmiPaths.PanicsIff | src/gnmi_set.rs:74-80 | Parsing panics if and only if a segment has its only bracket as its last character, or has a bracket and ends in a character of several bytes. |
| GnmiPaths.RoundTrip | src/gnmi_set.rs:73-100 | Parsing undoes printing for every printable path and every listing of its keys. |
| GnmiPaths.SurvivorsArePrintable | src/gnmi_set.rs:73-100 | A path that survives the round trip is printable. |
| GnmiPaths.RoundTripIffPrintable | src/gnmi_set.rs:73-100 | The round trip succeeds if and only if every element is printable. |
| GnmiPaths.SlashInValueIsMisread | src/gnmi_set.rs:71-80 | A slash in a value cuts the path in two, and the first part loses a character. |
| Percentiles.SortedSorts | scripts/compute_detection_baselines.py:235 | The sorted copy is an ascending permutation. |
| Percentiles.PercentileBetween | scripts/compute_detection_baselines.py:232-240 | The percentile lies between the least and the greatest value. |
| Percentiles.PercentileAtRank | scripts/compute_detection_baselines.py:235-240 | With n values, the percentile p with p (n - 1) = 100 (k + f) lies the share f of the way from the k-th to the next value in ascending order. |
| Percentiles.PercentileAtEnds | scripts/compute_detection_baselines.py:235-240 | The percentile at 0 is the least value and the one at 100 the greatest. |
| Percentiles.PercentileMonotone | scripts/compute_detection_baselines.py:232-240 | The percentile is monotone in p on 0..100. |
| Scoring.FirstHit | scripts/compute_detection_baselines.py:157-177 | The matched detection is the first one indexed under the fault's hostname inside its window. |
| Scoring.HitsIff | scripts/compute_detection_baselines.py:139-166 | A fault may be matched with a detection on its host from its injection to 30 s after its healing, or to 300 s after its injection when it has not healed. |
| Scoring.OneFault | scripts/compute_detection_baselines.py:148-179 | A fault is a false negative, or a true positive with the time from injection to its first hit, and from healing to clearing when that comes later. |
| Scoring.ScoredConcatenates | scripts/compute_detection_baselines.py:145-179 | Scoring a longer list of faults adds up the accounts of its parts, in order. |
| Scoring.FalsePositivesAreCounted | scripts/compute_detection_baselines.py:181-198 | The count of a kind is the number of its detections that are timed, unmatched and not covered by any fault. |
| Scoring.AccountsAddUp | scripts/compute_detection_baselines.py:148-179 | Per fault type, true positives plus false negatives are the injected faults, with exactly one non-negative latency per true positive. |
| Scoring.HostnameAloneIsFalsePositive | scripts/compute_detection_baselines.py:181-198 | An unmatched detection that a named fault could have been matched with is a false positive if and only if it has no target. |
| Scoring.SecondDetectionByHostname | scripts/compute_detection_baselines.py:181-198 | The second of two detections of one fault that name only the host is a false positive. |
| Scoring.IsFalsePositiveIff | scripts/compute_detection_baselines.py:181-198 | A detection is a false positive exactly when it is timed, no fault on its target covers it, and every fault it would be a hit of has an earlier one. |
| Scoring.IndexByKey | scripts/compute_detection_baselines.py:139-143 | The index lists, for each key, its detections in order. |
| Scoring.FindHit | scripts/compute_detection_baselines.py:161-177 | The search through the index finds the first hit overall. |
| Scoring.ScoreFault | scripts/compute_detection_baselines.py:148-179 | One fault changes the row of its kind alone, by one true positive or one false negative. |
| Scoring.ScoreFaults | scripts/compute_detection_baselines.py:145-179 | The loop scores every fault and collects the matched detections. |
| Scoring.IsCovered | scripts/compute_detection_baselines.py:187-194 | The search says whether some fault with that very hostname was active on the detection's target at its time; a fault without a hostname covers nothing. |
| Scoring.MatchDetections | scripts/compute_detection_baselines.py:120-200 | Each row holds its kind's scored faults, and as false positives the timed, unmatched detections of its rule on a target with no active fault. |

## Left out

- Config replication, credentials, audit log, HTTP and gRPC interfaces, configuration and command line: I/O and plumbing.
- The cases of `semantic_key_for_event` other than BMP: each is one branch of a match.
- Logging, metrics, health events and audit texts.
- Ranking of profile matches (`recommend_profiles_from_templates`).
- Locks: each locked call of the correlation buffer is one atomic call.
- The event bus is modelled as atomic steps on values, not as a class, because its operations run concurrently; its direct broadcast channel for adapters is not modelled, a subscriber object is registered once, and a broadcast channel holds exactly its capacity although tokio rounds that up to a power of two.
- Pruning of zero-byte archive files, encoding of rows as Parquet, and the rendering of a day as a directory path: a file is its rows, a directory is a day number, and creating the directory and the file is one I/O call.
- ArchiveWriters.HourlyArchiveWriter.AppendRows: a batch write that fails has taken in a prefix of the batch; what else a Parquet writer may be left with is not modelled, and the clock is read once per call.
- ArchiveWriters.HourlyArchiveWriter.CloseOne: a file whose close failed counts as lost, although some of it may be readable.
- CounterStats.MeanBetween: over the reals; the source accumulates in floating point.
- CounterStats.DeltaExact: the difference wraps around at 64 bits, as in a release build; a debug build stops instead.
- ElectionNodes.Coordinator.StartElection: consumes a finite script of loop events, and a script that ends while the node is serving returns unfinished; calls that overlap are not modelled.
- Assignment.CollectorManager.UnregisterCollector: the collector's runtime record, its log events and address normalisation are left out.
- Overrides.ResolveSubscriptionPaths: the product of seconds and nanoseconds per second is not bounded to 64 bits.
- ChangeHistory.RecordedKeepsSound: assumes that graph writes succeed as a whole, and that a stored snapshot reads back as it was written.
- Percentiles.PercentileBetween: for p between 0 and 100; the source is called with 50, 95 and 99 only.
- Scoring.MatchDetections: the detections in the list are distinct objects, and their timestamps are already in nanoseconds.
- Election.AtMostOneLeader: real time is not modelled; a lease may lapse at any moment, and the hypothesis says when it must not.
