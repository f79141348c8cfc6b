# docker stats: CPU percentage, tracker state machine, settle check and pruning

This project models the sequential core of `docker stats` (the client command
that shows a live table of resource usage for one or more containers) and
proves properties of it in Dafny.

- `UInt64` (`uint64.dfy`): Go's `uint64` and its wrap-around subtraction.
- `CpuPercent` (`cpu_percent.dfy`): the decoded statistics record (`Sample`)
  and `calculateCPUPercent`, over `int` counters with explicit mod-2^64 deltas
  and `real` ratios.
- `Tracker` (`container_stats.dfy`): one container's tracker
  (`containerStats`). The value-level specification is `TrackerState` with the
  three updates `AfterSample`, `AfterWatchdog` and `AfterFailure`, plus
  `Replay` of a stream of events. The class `ContainerStats` holds the same
  fields and is updated in place by `ApplySample`, `Watchdog`, `Fail` and
  `Collect`. `Display` reads it. Collect's loop variables `previousCPU`,
  `previousSystem` and `start` are fields of the class.
- `CmdStats` (`cmd_stats.dfy`): the sequential parts of `CmdStats`. These are
  sorting the names, creating one tracker per name, the initial settle check
  and one pass of the render loop with its prune (splice) loop.

The race between a decoded record and the 2-second timer is nondeterministic.
Here it is an input: `Collect` takes the sequence of events (`Decoded`,
`DecodeFailed`, `Timeout`) in the order they won the race. `ApplySample`,
`Watchdog` and `Fail` are also exposed as separate operations that the
environment may call in any order. Each method call is one atomic group
update, which is what the read/write lock provides in the source.

Two behaviours of the code are worth stating up front:

- The `> 0` guard at api/client/stats.go:177 does not catch a counter that
  went backwards. Both deltas are uint64 subtractions (lines 172 and 174), so
  the guard fires only when a counter is unchanged. A counter that goes
  backwards wraps to a huge delta, which can give a reading above 100% per
  CPU (`BackwardsCounterSpikes`).
- An empty name list is rejected by `cmd.Require(flag.Min, 1)` (line 115),
  which is not modelled. With no names, the model's settle check passes and
  the first render pass finishes.

## Model

| member | source | states |
|---|---|---|
| `UInt64.Sub` | api/client/stats.go:172-174 | the uint64 difference equals the plain difference when the counter did not go back, equals it plus 2^64 when it did, and is zero exactly when the two counters are equal |
| `CpuPercent.CalculateCPUPercent` | api/client/stats.go:168-181 | the result is never negative, and it is 0 exactly when the container counter is unchanged, the system counter is unchanged, or the sample lists no per-CPU entries |
| `CpuPercent.CpuPercentOfAdvancingCounters` | api/client/stats.go:172-178 | when both counters advanced, the result is (cpu delta / system delta) × number of per-CPU entries × 100 |
| `CpuPercent.CpuPercentBounded` | api/client/stats.go:177-178 | with non-decreasing counters and a container delta no larger than the system delta, the result lies between 0 and 100 per CPU |
| `CpuPercent.BackwardsCounterSpikes` | api/client/stats.go:172-178 | a container counter that goes backwards is not caught by the guard: its delta wraps to the drop plus 2^64, and then the reading exceeds 100 per CPU |
| `Tracker.SampleIsConsistent` | api/client/stats.go:51-66 | a snapshot built from one sample has no negative field, has memory % × limit = usage × 100, and leaves the error as it was |
| `Tracker.WatchdogOnlyZeroesVolatileFields` | api/client/stats.go:74-81 | the timeout zeroes CPU %, memory and memory %, and leaves the limit, rx, tx and the error unchanged; it keeps snapshots consistent, and the next sample gives the same state as if the timeout had not happened |
| `Tracker.RenderReportsErrorOrOneRow` | api/client/stats.go:93-106 | Display returns the tracker's error and writes nothing when there is one; otherwise it writes exactly one row, for this container, whose memory % agrees with its usage and limit |
| `Tracker.ReplayKeepsConsistent` | api/client/stats.go:44-90 | every snapshot the collection loop publishes has no negative field, and its memory % × limit equals usage × 100 |
| `Tracker.SnapshotFromLastSample` | api/client/stats.go:51-81 | no tearing: after a stream without failures, the published limit, rx and tx are those of the last decoded sample; memory and memory % are either that sample's or zeroed by a later timeout, which then has also zeroed CPU % |
| `Tracker.ReplayError` | api/client/stats.go:44-90 | the collection loop ends with an error exactly when the stream held a decode failure, and that error is the first one |
| `Tracker.NothingAfterFailure` | api/client/stats.go:82-88 | once a decode failure is recorded, nothing later in the stream changes the tracker: no retry, and the error is never cleared or replaced |
| `Tracker.ReplayRemembersLastSample` | api/client/stats.go:55-68 | after a stream without failures, the remembered counters are those of the last decoded sample and the first-sample flag is off; with no sample, both keep their starting values |
| `Tracker.CpuFollowsPreviousSample` | api/client/stats.go:53-68 | the CPU % of a sample is computed against the previous decoded sample's counters, whatever timeouts came in between, and is 0 if the tracker has seen no sample before |
| `Tracker.FirstSampleCpuZero` | api/client/stats.go:37-58 | the first sample a new tracker decodes publishes CPU % = 0, whatever its counters |
| `Tracker.SampleSetsAllFields` | api/client/stats.go:51-66 | each sample sets memory, limit, rx and tx to that sample's values and memory % to usage / limit × 100 |
| `Tracker.ContainerStats.constructor` | api/client/stats.go:130 | a new tracker has its name, all values 0, no error, and the first-sample flag set |
| `Tracker.ContainerStats.ApplySample` | api/client/stats.go:51-68 | the object's new state is `AfterSample` of its old state: all six published fields from the sample, CPU % 0 on the first sample, counters remembered, error unchanged; consistency is kept |
| `Tracker.ContainerStats.Watchdog` | api/client/stats.go:74-81 | the object's new state is `AfterWatchdog` of its old state, and consistency is kept |
| `Tracker.ContainerStats.Fail` | api/client/stats.go:82-87 | a tracker without an error gets the given error as its terminal error; nothing else changes |
| `Tracker.ContainerStats.Collect` | api/client/stats.go:30-91 | a setup error fails the tracker at once; otherwise the loop starts with zero previous counters and the first-sample flag set, and ends in `Replay` of the events: samples and timeouts in order, stopping at the first decode failure |
| `Tracker.ContainerStats.Display` | api/client/stats.go:93-106 | returns the error exactly when one is set and then writes nothing; otherwise appends exactly one row of the current name and values |
| `CmdStats.SortStrings` | api/client/stats.go:118-119 | the names come back in ascending order, as a permutation of the input |
| `CmdStats.SortedNamesPairwise` | api/client/stats.go:119 | in the sorted names every earlier name is less than or equal to every later one |
| `CmdStats.Launch` | api/client/stats.go:118-133 | one fresh, distinct tracker per name, in sorted-name order, each in the initial state |
| `CmdStats.SettleCheck` | api/client/stats.go:137-147 | the settle check returns the outcome of `SettleOutcome` for the trackers' names and errors, in the trackers' order |
| `CmdStats.SettleFailsIff` | api/client/stats.go:145-147 | the settle check fails if and only if at least one tracker has an error |
| `CmdStats.FailuresListExactly` | api/client/stats.go:138-144 | every failed tracker appears as "name: err" in the list, and every entry belongs to a failed tracker |
| `CmdStats.FailuresAppend` | api/client/stats.go:138-144 | the list keeps the trackers' order: the entries of two consecutive groups of trackers are the first group's entries followed by the second's |
| `CmdStats.SingleFailureMessage` | api/client/stats.go:137-147 | with exactly one failed tracker, the combined error is exactly "name: err" for that tracker |
| `CmdStats.RemoveIndices` | api/client/stats.go:156-159 | splicing out the listed positions, largest first, removes exactly those positions and keeps the rest in order |
| `CmdStats.RenderPass` | api/client/stats.go:148-162 | one tick writes the header and then one row for each live tracker in order; the remaining list is exactly the trackers whose Display succeeded, in their original order; the command finishes exactly when that list is empty |
| `CmdStats.AliveExactly` | api/client/stats.go:150-159 | a tracker survives pruning if and only if it was in the list and has no error |
| `CmdStats.AliveAppend` | api/client/stats.go:156-159 | pruning keeps the survivors' relative order: the survivors of two consecutive groups are the first group's followed by the second's |
| `CmdStats.OneRowPerSurvivor` | api/client/stats.go:151-155 | a pass writes as many rows as there are survivors, the k-th row being the k-th survivor's |

## Left out

- The HTTP stream (`cli.call`, `stream.Close`) and JSON decoding: a decoded record is an input `Sample`, and a setup or decode failure is an input `Error`.
- Goroutines, the `u` channel, `select` with `time.After`, `time.Sleep` and `time.Tick`. The data/timeout race is an input event order. The infinite render loop is modelled as one pass (`RenderPass`), which the environment repeats. `Launch` does not start `Collect`; the environment runs each tracker's `Collect` or its single steps.
- Concurrency between a tracker's updates and the scans over the trackers. Within the settle scan (`SettleCheck`) and within a render pass (`RenderPass`), trackers do not change. In the source the `Collect` goroutines keep running during both scans, so a tracker can fail right after it was scanned. The `sync.RWMutex` only makes each group update atomic, and a method call already is.
- The tabwriter, `units.HumanSize`, `%.2f` formatting and the screen-clearing escape codes. A row is a tuple of values, the header a constant line, and the writer a sequence of lines. Flushing is not modelled. (In the source the final pass, after which no tracker remains, is never flushed.)
- float64 semantics: percentages are exact `real`s, and `float64(uint64)` conversions are exact.
- `cli.Subcmd`, flag parsing and the minimum-one-argument check.
- `sort.Strings` is library code. `SortStrings` is an insertion sort that specifies only its result: ascending under Go's byte-wise string order (the same as code-point order for UTF-8), and a permutation of the input.
- Tracker.ContainerStats.ApplySample: requires a non-zero memory limit. With a zero limit the source divides by zero in float64 (Inf or NaN), which is not modelled. `Collect`, `Replay` and `AfterSample` carry the same requirement.
- Tracker.ContainerStats.Fail: requires that no error is set yet. In the source each `Collect` sets the error at most once and then returns.
