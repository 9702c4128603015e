# A verified model of the container daemon's stateful cores

This project models the parts of the daemon that carry real state or arithmetic, and proves what they promise on all
inputs, for all orders in which maps and query results are gone through, and over all runs. Where a natural promise
turned out not to hold, the code is kept as it is, a lemma names the input or the run, and another lemma states exactly
when the promise does hold.

| files | what they model |
|---|---|
| `Idmap`, `IdmapRuns` | the allocator of isolated uid/gid ranges, and runs of create, reconfigure and delete |
| `CpuLoad`, `CpuBalance`, `Cpuset`, `CpuLimits` | the CPU balancer with its shared counters, the CPU list parser, and how the limits are read |
| `Migration`, `MigrationEnds` | both ends of the migration protocol, goroutine by goroutine, over FIFO control channels, and what each end returns |
| `ContainerOperations`, `ApiOperations`, `ApiHistory` | the per-container operation lock and the API operation object, as interleaved steps, and what they say of their past |
| `Tables`, `ContainerStore`, `ContainerFrames`, `ContainerDatabase` | the container tables and what is read back from them |
| `ContainerRename`, `SnapshotNames` | renaming a container with its snapshots, and naming a new snapshot |
| `ServerConfig`, `ConfigDaemon` | PUT and PATCH of the server configuration over a cache and a table |
| `InitTransaction`, `InitCommand`, `InitOutcome` | applying and reverting a configuration in `apollo init` |
| `ForkExec`, `DirListing`, `FanAddress` | the forkexec argument vector, the directory listing, fan and DHCP addresses |
| `SchemaUpdates` | database updates over any sequence of start-ups |
| `Wrappers`, `Text`, `Decimal` | results, arbitrary orders, splitting and joining, decimal numbers |

Objects that the source updates in place are classes whose methods change the same fields; loops are loops. A `for` over
a Go map, whose order is random, takes its elements in any order. Where several goroutines act on one object, the object
has a step relation, results are stated over all interleavings, and the methods of the class are tied to those steps.
What the outside world answers (storage, CRIU, the network, validators, the database) is a parameter that may say
anything.

## Findings

Each of these is a lemma below; they are places where the code does less than it sets out to do.

- A user may set `security.idmap.size` to 0, and then two containers can be given overlapping ranges
  (`OverlapNeedsZeroSize`). With positive sizes this never happens (`RunsKeepRangesApart`).
- `migrationSink.Do` shares its `err` with the filesystem goroutine. If that goroutine assigns to it between the delivery
  of a failure and its report, a failed live migration is reported as a success (`FalseSuccess`,
  `SourceSuccessExactly`, `RaceFreeSuccessIsTrue`); if it does so after the report, a sink that reported the failure
  returns nil itself (`FalseReturn`, `SinkSuccessExactly`).
- A live migration on a liblxc older than 2.0.4 waits for ever on `dumpSuccess`, even after everything went well
  (`LiveWithoutScriptNeverSucceeds`, `HangsExactly`); `CanSucceedExactly` says which migrations can succeed.
- `createOperation` interleaved with itself loses an operation (`InterleavedCreatesLoseOne`), and its reset of an
  operation whose timer fires first blocks for ever (`TimeoutBlocksReset`, `ResetBlockedExactly`).
- A check and a set of the API operation that drift apart close its channel twice, set it back to running or change its
  frozen metadata (`ClosesTwice`, `LateRunUnfinishes`, `LateUpdateThaws`). This concerns every operation that can finish
  at all: two interleaved calls of `Run` are enough (`ClosedOnceExactly`, `FinalExactly`, `FrozenExactly`). An operation
  with both a run hook and a canceler can, even without such drifting, replace one final status by another
  (`CancelReplacesFinal`, `FinalStatusIsUnique`).
- A negative `limits.cpu` pins a container to all CPUs, since it is never counted down to zero (`AllCpusExactly`).
- A CPU list with a range up to 2^63-1, as any user may set it, is never read to its end, since the counter wraps around;
  the balancing of all containers hangs with it (`EndlessList`, `EndlessExactly`, `CpusetRoundTrip`, `ReadLimits`). A list
  that is an error ends the balancing of all containers (`ReadLimits`).
- On a host with a single CPU the host's CPU list is read as a number, so that a container without `limits.cpu` is balanced
  over no CPU at all where that CPU is 0 (`OneCpuIsACount`).
- Renaming a container is not one transaction, and can stop half way: when two snapshots end in the same element, as
  `x/b` and `b` do (`SomeSlashedNamesClash`; nobody checks the names of snapshots), or when a row is already under the new
  name (`SomeOrphanClashes`). There is no other cause (`ClashesExactly`).
- `dbContainerCreate` does not store the description (`ContainerCreate`).
- With a snapshot numbered 2^63-1 the count for new snapshot names wraps around, and can come back to a name in use
  (`CollidesExactly`).
- After a failed write of a configuration value the cache is ahead of the table, and sending the same request again
  reports success without writing anything (`LostWriteIsStale`, `PutExactly`).
- `daemonConfigInit` logs a key of the table it does not know, and then dereferences a nil pointer for it (`Init`).
- `apollo init` records no reverter for a configuration change that failed half way, or whose answer was lost, so that
  what it changed stays (`FailsHalfwayExactly`); and a trust password that the new configuration left out does not come
  back with the revert, since it was rendered as `true` (`SecretLostExactly`). `LeavesNothingExactly` says, before the
  command, when a failing one leaves nothing behind.
- `FilePull` uses one `err` for the helper command and for the numbers it reads, so a helper that dies after its header is
  taken for one that listed everything (`PartialListingPasses`, `FailurePassesExactly`).
- An environment variable whose name starts with `HOME=` passes for `HOME` and sets the working directory (`CwdExactly`).
- A legacy patch that fails after its version was recorded is never tried again, and later start-ups succeed without it
  (`PatchLeftBehind`, `AllPatchedExactly`).

## Model

| member | source | states |
|---|---|---|
| Idmap.SortByHostid | apollo/container_mercury.go:650-650 | the sorted entries are the collected ones, each as often as before |
| Idmap.FindOffset | apollo/container_mercury.go:665-691 | the loop with its running offset finds what a plain scan of the gaps finds, and its second test never succeeds |
| Idmap.FirstFitIsSafe | apollo/container_mercury.go:665-691 | a base that is found lies between the start and the limit with its whole range, and meets no taken range |
| Idmap.FirstFitIsFirst | apollo/container_mercury.go:665-691 | whenever any window of size+1 ids is free, the search succeeds there or earlier; so "Not enough uid/gid" means there is none |
| Idmap.FitsExactly | apollo/container_mercury.go:665-691 | over sorted, disjoint ranges the search succeeds exactly when a window with one id to spare is free, or the ids before the first range are exactly enough |
| IdmapRuns.Daemon.CollectEntries | apollo/container_mercury.go:601-648 | the ranges of all other isolated unprivileged containers are collected, each once, in any order |
| IdmapRuns.Daemon.FindIdmap | apollo/container_mercury.go:578-691 | collecting, sorting and scanning together give the first fit among the other containers' ranges |
| IdmapRuns.Daemon.Assign | apollo/container_mercury.go:282-323 | a container gets the base found for it, or the search fails and no container is changed |
| IdmapRuns.Daemon.Create | apollo/container_mercury.go:282-323 | creation is one step of the run relation; an existing name changes nothing |
| IdmapRuns.Daemon.Update | apollo/container_mercury.go:3269-3300 | changing the size, the isolation or the privilege searches again; no such change keeps the base |
| IdmapRuns.DeletedRangeIsFound | apollo/container_mercury.go:601-691 | deleting a container gives its ids back: the next search for a smaller size finds room at its base or before, and all ranges stay disjoint |
| IdmapRuns.AssignedKeepsRangesApart | apollo/container_mercury.go:665-691 | one assignment of a positive size keeps all ranges disjoint and inside the map, in any order of the entries |
| IdmapRuns.RunsKeepRangesApart | apollo/container_mercury.go:600-691 | in every run with positive sizes, at every moment, isolated containers own disjoint ranges in [Hostid+65536, Hostid+Maprange) |
| IdmapRuns.RangesAreAsAsked | apollo/container_mercury.go:461-488 | in every run with positive sizes each isolated container has 65536 ids, or as many as it asks for, within [Hostid+65536, Hostid+Maprange), and nobody else uses any of them |
| IdmapRuns.FindsExactly | apollo/container_mercury.go:596-691 | the search succeeds exactly when that many ids and one to spare are free in a row, or the ids before the first range are exactly enough, and takes no later place |
| IdmapRuns.SucceedsExactly | apollo/container_mercury.go:282-323 | so a creation, or a change of size, isolation or privilege, is recorded with its base exactly then, and changes nothing otherwise |
| IdmapRuns.NoRangeNoSearch | apollo/container_mercury.go:282-295 | a privileged container, or one that is not isolated, is recorded with base 0 |
| IdmapRuns.StepTouchesOne | apollo/container_mercury.go:282-323 | an operation changes no other container; creating what is there, updating what is not, or asking for what is there already changes nothing |
| IdmapRuns.ZeroSizeCanOverlap | shared/container.go:173-173 | with size 0 allowed next to a fitting size, three creations end with two containers sharing ids |
| IdmapRuns.OverlapNeedsZeroSize | apollo/container_mercury.go:461-488 | some run makes two containers share an id if and only if 0 is allowed next to a positive size that fits |
| CpuLoad.GreedyKeepsSpread | apollo/devices.go:613-630 | however many containers are placed, the difference between the most and least loaded CPU stays at most max(1, the difference before) |
| CpuLoad.GreedyDominated | apollo/devices.go:613-630 | against any other assignment of the same containers the greedy one never has more load above any threshold |
| CpuLoad.GreedyIsOptimal | apollo/devices.go:613-630 | if any assignment keeps every CPU within some bounds, the greedy one does |
| CpuLoad.GreedyProfileIsUnique | apollo/devices.go:613-630 | the order of the containers and the ties of the sort do not matter: all greedy runs end with the same load profile |
| CpuBalance.SortByCount | apollo/devices.go:37-46 | the slice is ordered by the shared counters and holds the same CPUs |
| CpuBalance.PinOne | apollo/devices.go:621-628 | one pinning adds one occurrence and one to that CPU's counter, through the shared pointer |
| CpuBalance.PinPrefix | apollo/devices.go:615-629 | the first CPUs of the slice, as many as the count stands for (all of them for a negative one), are pinned and counted once each |
| CpuBalance.PinLeastLoaded | apollo/devices.go:613-630 | the container's CPUs are distinct, no more loaded than any other at that moment, and as many as its count stands for |
| CpuBalance.Classify | apollo/devices.go:534-568 | running containers are split into those to balance, by min(limit, #cpus), and pinnings to host CPUs that occur as often as listed |
| CpuBalance.PinFixed | apollo/devices.go:585-603 | every fixed pinning occurs as often as listed, and the counters count it |
| CpuBalance.BalanceAll | apollo/devices.go:613-630 | the loop in any order is a greedy run from the load of the fixed pinnings, and moves no fixed pinning |
| CpuBalance.ContainerIsPinnedOrBalanced | apollo/devices.go:544-568 | what becomes of a container depends on its own limit alone, and it is never both pinned and balanced |
| CpuBalance.DeviceTaskBalance | apollo/devices.go:493-630 | all of it: counters equal the occurrences in all pinnings, every container gets as many CPUs as it counts or its list as far as the host has it, a stopped one nothing, balanced ones their greedy choice, and the spread is at most max(1, that of the fixed pinnings) |
| CpuBalance.AllCpusExactly | apollo/devices.go:613-630 | in every greedy run a container gets all CPUs exactly when its limit is negative or not below their number |
| Decimal.ParseExactly | apollo/devices.go:468-486 | Atoi reads exactly a sign or none, then digits, zeros in front or not, that stand for an int |
| Cpuset.NeverEndsExactly | apollo/devices.go:476-478 | the wrapping counter of a range goes round for ever exactly when the range goes up to the greatest int |
| Cpuset.CountUp | apollo/devices.go:476-478 | the loop gives the CPUs of the range, or never ends, exactly as the counter says |
| Cpuset.ParseCpuset | apollo/devices.go:457-491 | a list is read exactly when all its chunks are, and gives their CPUs in order; otherwise the first chunk that is not read decides: the call never returns exactly when that is a range that never ends, and else it is an error |
| Cpuset.CpusetRoundTrip | apollo/devices.go:457-491 | a printed list is read, and as exactly the CPUs it stands for, if and only if its numbers are ints and no range goes up to the greatest |
| Cpuset.EndlessExactly | apollo/devices.go:471-478 | reading a printed list never ends exactly when the first item that is not read is a range up to the greatest int |
| Cpuset.EndlessList | apollo/devices.go:471-478 | one such list, for every start of the range |
| CpuLimits.OneCpuIsACount | apollo/devices.go:534-548 | on a host with a single CPU n, a limit that is not set is read as a count of n |
| CpuLimits.LimitIsAsAsked | apollo/devices.go:541-553 | a printed number is a count of just that number, and a printed list that is no number is its CPUs |
| CpuLimits.FineAsAsked | apollo/devices.go:541-553 | a container that is stopped, or whose own text (the host's, if it has none) is a number or a list, is no obstacle; one whose text has another character in it is |
| CpuLimits.ReadLimits | apollo/devices.go:526-568 | the containers are balanced exactly when the limit of every running one is a number or can be read, each with what its own text, or the host's if it has none, asks for; otherwise the first that cannot be read ends the balancing of all, or keeps it from ending |
| Migration.ExecKeeps | apollo/migrate.go:295-559 | the protocol invariant holds after every step of both sides, whatever fails |
| Migration.SameFormat | apollo/migrate.go:377-389 | once both sides transfer, they use the same format |
| Migration.CheckpointAfterCriuReply | apollo/migrate.go:411-416 | the source checkpoints only after a reply with the CRIU type, which only a live sink sends |
| Migration.ScriptSuccessFromSink | apollo/migrate.go:451-457 | the action script, and with it the dump, succeeds only after the sink reported success |
| Migration.SourceSuccessMeansReceived | apollo/migrate.go:539-558 | in every run a source that returns nil has a sink that received the filesystem and reported success |
| Migration.LiveWithoutScriptNeverSucceeds | apollo/migrate.go:510-552 | without an action script nobody sends on dumpSuccess, so a live source never returns nil |
| Migration.JoinWithoutScriptHangs | apollo/migrate.go:548-552 | without an action script a source that has come to wait for dumpSuccess waits there in every continuation |
| Migration.HangsExactly | apollo/migrate.go:510-552 | some run leaves the source waiting for ever, and then some run does after a complete migration, if and only if source and sink are live and there is no action script |
| Migration.CanSucceedExactly | apollo/migrate.go:295-559 | some run returns nil, and then some run does with all the work done, if and only if the source is not live, or it has an action script and a live sink |
| Migration.FalseSuccess | apollo/migrate.go:839-845 | a run in which the source returns nil although the live sink restored nothing |
| Migration.SourceSuccessExactly | apollo/migrate.go:903-907 | a source's nil means that the sink did all its work, in every run, exactly for the configurations without that race |
| Migration.RaceFreeSuccessIsTrue | apollo/migrate.go:903-907 | without an assignment to the shared err between delivery and report, nil means complete in every configuration |
| MigrationEnds.SourceReturnsItsFailures | apollo/migrate.go:295-559 | in every run, once a call or a receive of the source has failed, it ends with an error for good |
| MigrationEnds.FailureIsTold | apollo/migrate.go:342-389 | every failure of the source sends a refusal to the sink, but for those before the header and in the receive of the verdict |
| MigrationEnds.VerdictIsHeeded | apollo/migrate.go:539-558 | the source takes the sink's refusal for a failure and its success for a success |
| MigrationEnds.SinkSuccessMeansReceived | apollo/migrate.go:903-907 | in every run a sink that returns nil has received the filesystem |
| MigrationEnds.SinkReturnsItsReport | apollo/migrate.go:903-907 | without an assignment to the shared err between delivery and return, the sink returns what it reported, and nil only with everything done |
| MigrationEnds.SinkReturnsItsFailures | apollo/migrate.go:744-907 | without such an assignment, whatever fails at the sink, it does not return nil |
| MigrationEnds.FalseReturn | apollo/migrate.go:839-845 | a run in which a live sink reports the failure of its images, and then returns nil |
| MigrationEnds.SinkSuccessExactly | apollo/migrate.go:903-907 | a sink's nil means that it did all its work, in every run, exactly when it is not live |
| MigrationEnds.SinkFailureIsTold | apollo/migrate.go:744-800 | a failure that ends the sink before it serves sends a refusal to the source |
| MigrationEnds.SourceStepsExactly | apollo/migrate.go:295-559 | where each step of the source and of its dump can be made, and that every call may fail wherever it is made |
| MigrationEnds.SourceGoesOn | apollo/migrate.go:295-559 | where each call that succeeds takes the source |
| MigrationEnds.DumpGoesOn | apollo/migrate.go:440-508 | the operation ends as the restore did, and the script as that operation |
| MigrationEnds.SourceSays | apollo/migrate.go:295-559 | what each step of the source sends and receives; every failure later than the header is a refusal, and so is a dump that ends too early with an error |
| MigrationEnds.SinkStepsExactly | apollo/migrate.go:705-925 | where each step of the sink and of its goroutines can be made |
| MigrationEnds.SinkGoesOn | apollo/migrate.go:705-800 | where each call that succeeds takes the sink |
| MigrationEnds.SinkSays | apollo/migrate.go:744-925 | what each step of the sink sends and receives |
| MigrationEnds.WorkersGoOn | apollo/migrate.go:790-907 | what the sink's goroutines make of their calls, and hand on to each other and to Do |
| MigrationEnds.SinkHeedsSource | apollo/migrate.go:903-924 | a refusal of the source, or a closed channel, ends a sink that serves; other messages are passed over |
| ContainerOperations.FoundExactly | apollo/container_mercury.go:432-447 | as long as nothing was lost, the operation found for a container is exactly the one of its operations that is open, if it has the action asked for; an open one with another action is its own error, and no open one is the other |
| ContainerOperations.Operations.CreateOperation | apollo/container_mercury.go:411-430 | refused when an operation is there that may not be reused; otherwise the steps of check and reset, or of check and insert |
| ContainerOperations.Operations.DoneOperation | apollo/container_mercury.go:83-97 | records the error, closes the channel and unregisters, unless it was done before |
| ContainerOperations.ClosedAtMostOnce | apollo/container_mercury.go:83-97 | under every interleaving of create, done and timeout each channel is closed at most once, and a closed operation is not in the map |
| ContainerOperations.ErrorIsFinal | apollo/container_mercury.go:83-97 | after closing, the error never changes |
| ContainerOperations.DoneIsHeard | apollo/container_mercury.go:53-97 | the error given to Done, or the timer's own, is what every Wait returns from then on, when the operation was registered |
| ContainerOperations.ClosedExactly | apollo/container_mercury.go:53-97 | an operation is closed exactly when it was done, or its timer fired, while registered, and has no error before |
| ContainerOperations.MadeAsAsked | apollo/container_mercury.go:411-430 | the operation that is inserted is the one asked for, for the container that the same call had found free |
| ContainerOperations.MadeForGood | apollo/container_mercury.go:33-46 | operations never change their container, action and kind |
| ContainerOperations.CheckExactly | apollo/container_mercury.go:411-421 | a call on a busy container changes nothing, or waits for the reset of an operation it may reuse; on a free one it goes on |
| ContainerOperations.NobodyIsStuck | apollo/container_mercury.go:53-97 | at every moment every call, done, timeout and insert can go on, and every reset whose timer runs |
| ContainerOperations.LosesExactlyWhenStale | apollo/container_mercury.go:411-430 | a step leaves an open operation unregistered exactly when it inserts over one that appeared since its check |
| ContainerOperations.NothingLostExactly | apollo/container_mercury.go:411-430 | every operation of a run is registered or closed, at every moment, if and only if no insert is stale |
| ContainerOperations.LostStaysOpen | apollo/container_mercury.go:77-97 | an operation once lost is never closed, so its waiters are never released |
| ContainerOperations.ExclusiveCreatesLoseNothing | apollo/container_mercury.go:411-430 | when no create for a container comes between check and insert of another, nothing is lost |
| ContainerOperations.InterleavedCreatesLoseOne | apollo/container_mercury.go:412-427 | two creates that both check first lose one of the operations |
| ContainerOperations.TimerGoneExactly | apollo/container_mercury.go:53-63 | the goroutine that receives resets has ended exactly when its 30 seconds have passed |
| ContainerOperations.ResetBlockedExactly | apollo/container_mercury.go:68-75 | a call that reuses an operation cannot send its reset exactly when that operation's timer has fired |
| ContainerOperations.BlockedForGood | apollo/container_mercury.go:68-75 | a reset that cannot be sent never will be |
| ContainerOperations.TimeoutBlocksReset | apollo/container_mercury.go:411-420 | a timeout between the check and the reset blocks the call |
| ApiOperations.Operation.Run | apollo/operations.go:103-151 | only a pending operation starts, by the steps of check and set |
| ApiOperations.Operation.Finish | apollo/operations.go:65-101 | sets the final status, and closes the channel and freezes the operation unless that was done before |
| ApiOperations.Operation.RunReturned | apollo/operations.go:113-142 | when onRun returns an error the operation ends in failure with its text, otherwise in success, and is closed once |
| ApiOperations.Operation.UpdateMetadata | apollo/operations.go:348-372 | refused unless the operation is pending or running and not read-only; then only the metadata changes |
| ApiOperations.Operation.UpdateResources | apollo/operations.go:327-346 | refused unless the operation is pending or running and not read-only; then only the resources change |
| ApiOperations.Operation.Cancel | apollo/operations.go:153-220 | refused unless it is running and, as asked at that moment, may be cancelled; a canceler that refuses leaves it cancelling, otherwise it ends cancelled and closed |
| ApiOperations.CreateIsPending | apollo/operations.go:374-427 | an operation is created exactly when its hooks fit its class, with the class, hooks, metadata and resources asked for, pending, writable and registered; each misfit has its own error |
| ApiOperations.AtomicRunsAreSound | apollo/operations.go:65-220 | with each check and set as one step: closed at most once, and read-only implies final |
| ApiOperations.OnlyClosedLeaves | apollo/operations.go:65-101 | under every interleaving, read-only means closed and stays so, and only such an operation leaves the registry, for good |
| ApiOperations.ReadOnlyIsFrozen | apollo/operations.go:327-372 | once read-only, metadata and resources never change |
| ApiOperations.WaitReturnsFinal | apollo/operations.go:300-325 | WaitFinal(-1) returns only in a final status |
| ApiOperations.WaitersAreReleased | apollo/operations.go:65-151 | with each check and set as one step, in a final status the channel is closed, or a thread is there whose next one or two steps close it |
| ApiOperations.ClosedOnceExactly | apollo/operations.go:65-101 | under every interleaving the channel is closed at most once, if and only if the operation has no run hook, is no token and gets no canceler |
| ApiOperations.FinalExactly | apollo/operations.go:103-151 | under every interleaving a read-only operation has a final status, if and only if the operation has no run hook, is no token and gets no canceler |
| ApiOperations.FrozenExactly | apollo/operations.go:327-372 | under every interleaving a read-only operation keeps its metadata and resources, if and only if the operation has no run hook, is no token and gets no canceler |
| ApiOperations.FinalStatusIsUnique | apollo/operations.go:103-220 | with each check and set as one step, the first final status is the last in every run, if and only if the operation does not have both a run hook and a canceler |
| ApiOperations.LateUpdateThaws | apollo/operations.go:348-372 | whatever way there is to finish, an update whose check was earlier changes a read-only operation |
| ApiOperations.LateRunUnfinishes | apollo/operations.go:103-151 | a run whose check was earlier sets a finished operation back to running |
| ApiOperations.CancelReplacesFinal | apollo/operations.go:153-220 | with a run hook and a canceler, success can be replaced by cancelled even when checks and sets are not interleaved |
| ApiOperations.ClosesTwice | apollo/operations.go:65-101 | two done calls that both test first, of two runs or of two cancels, close the channel twice |
| ApiHistory.EverythingHasReason | apollo/operations.go:103-220 | under every interleaving: success stands for an onRun that returned nil, failure for one that returned just this error, cancelled for a Cancel that was allowed to and did, running and pending for a start or none; metadata and resources for an update that asked for them |
| ApiHistory.EndsAsAnswered | apollo/operations.go:113-142 | with each check and set as one step, an operation with a run hook and no canceler ends in the status, and with the error, of the first answer of onRun |
| ApiHistory.AnswerIsSet | apollo/operations.go:113-142 | under every interleaving, the status that the thread of Run sets is the one its onRun called for |
| ApiHistory.CancelIsSet | apollo/operations.go:199-214 | under every interleaving, a Cancel that sets Cancelled had no canceler or one that agreed |
| ApiHistory.UpdateIsWritten | apollo/operations.go:327-372 | under every interleaving, an update writes just what its call asked for |
| ApiHistory.CallsExactly | apollo/operations.go:103-372 | which calls get through: run when pending, cancel when running and allowed, updates when pending or running and not read-only; a wait is over at once exactly in a final status |
| ApiHistory.StepsExactly | apollo/operations.go:65-325 | only a waiter is held up, and only until the channel is closed |
| ApiHistory.StepLeadsTo | apollo/operations.go:65-220 | where each step leaves its goroutine: a canceler that refuses ends the call, a test that finds the operation read-only ends there, a close comes before the removal |
| Tables.ReadRows | apollo/db_containers.go:294-317 | the loop over the query result, in any order, reads exactly the rows of the parent |
| Tables.InsertKey | apollo/db.go:53-60 | an insert fails exactly on a key that is there, and changes no other parent's rows |
| Tables.InsertAll | apollo/db_containers.go:200-218 | all entries of the map are read back afterwards, next to what was there |
| ContainerStore.DeviceTypesRoundTrip | apollo/db_devices.go:14-52 | device types and their stored numbers correspond one to one, in just this way |
| ContainerStore.ProfilesOnce | apollo/db_containers.go:267-292 | the tables hold one ordered list of profiles for a container |
| ContainerStore.StoresOnce | apollo/db_containers.go:54-115 | the tables hold one configuration, profile list and device set under a name |
| ContainerFrames.OtherReadings | apollo/db_containers.go:179-292 | a change framed to one container leaves every other container's reading as it was |
| ContainerFrames.ClearedIsValid | apollo/db_containers.go:179-198 | clearing leaves no orphan row and breaks no UNIQUE rule |
| ContainerFrames.DroppedContainer | apollo/db.go:44-88 | deleting a row with its cascades leaves no orphan row, and every other reading as it was |
| ContainerDatabase.Database.ContainerProfiles | apollo/db_containers.go:267-292 | the profiles come back in the order in which they were given |
| ContainerDatabase.Database.Devices | apollo/db_devices.go:133-172 | the devices come back with their settings and their type |
| ContainerDatabase.Database.ContainerGet | apollo/db_containers.go:54-115 | gives exactly what the tables hold under the name, or says that there is no such container |
| ContainerDatabase.Database.ConfigClear | apollo/db_containers.go:179-198 | deletes the container's configuration, profile links, devices and their settings, with the sub-select taken before the devices go |
| ContainerDatabase.Database.ConfigInsert | apollo/db_containers.go:200-218 | succeeds exactly when no key is there yet, and then reads as the union |
| ContainerDatabase.Database.ProfilesInsert | apollo/db_containers.go:244-265 | succeeds exactly for distinct existing profiles, and then reads as the given list |
| ContainerDatabase.Database.DevicesAdd | apollo/db_devices.go:54-103 | succeeds exactly for known device types, and then reads as the given devices |
| ContainerDatabase.Database.ContainerCreate | apollo/db_containers.go:117-177 | succeeds exactly for an unused name, distinct existing profiles and known device types; then the container reads back as given but for the description, all others as before |
| ContainerDatabase.Database.ContainerRewrite | apollo/container_mercury.go:3911-3947 | clear and insert in one transaction: afterwards the container reads as given, or nothing has changed; all others read as before |
| ContainerDatabase.Database.ContainerRemove | apollo/db_containers.go:22-34 | the container and all its rows are gone, and every other container reads as before |
| ContainerRename.BaseIsSnapshotName | apollo/container_mercury.go:2890-2891 | filepath.Base finds a snapshot's own name exactly when that is not empty and has no slash |
| ContainerRename.BaseExactly | apollo/container_mercury.go:2890-2891 | filepath.Base drops the slashes at the end and gives what follows the last slash left; "." for nothing and "/" for slashes only |
| ContainerRename.HostNamesExactly | shared/util.go:520-547 | a host name is a letter, then letters, digits and dashes, none at the end, 63 characters at most |
| ContainerRename.RenameRow | apollo/db_containers.go:374-400 | the update fails exactly when another row has the new name |
| ContainerRename.SnapshotOfExactly | apollo/db_containers.go:428-434 | the query selects the snapshot rows whose name is the container's, a slash and anything |
| ContainerRename.GetSnapshots | apollo/db_containers.go:428-447 | the loop over the query result, in any order, gives the names of exactly the snapshots under the prefix |
| ContainerRename.Rename | apollo/container_mercury.go:2808-2901 | a snapshot's own row is renamed; a container's succeeds exactly for a host name to which no snapshot clashes, every row then having moved as specified, and otherwise some of the snapshots have moved |
| ContainerRename.ClashesExactly | apollo/container_mercury.go:2888-2897 | a rename clashes exactly when two snapshots end in the same element, or a row is already under the new name with the last element of one |
| ContainerRename.PlainClashesExactly | apollo/container_mercury.go:2888-2897 | with slash-free snapshot names, exactly when a row of the same snapshot name is already under the new name |
| ContainerRename.SomeSlashedNamesClash | apollo/container_mercury.go:2888-2897 | a database in which snapshots x/b and b keep a container from being renamed, with nothing under the new name |
| ContainerRename.SomeOrphanClashes | apollo/container_mercury.go:2888-2897 | a database in which the row of a snapshot without a container does |
| ContainerRename.RenameMovesEverything | apollo/container_mercury.go:2861-2901 | nothing is left under the old name, the old snapshots are under the new one with their own names next to those that were there, and every reading is kept |
| SnapshotNames.ScanReadsPrint | apollo/container_snapshot.go:82-86 | scanning a printed number gives that number |
| SnapshotNames.ScanExactly | apollo/container_snapshot.go:82-86 | spaces, a sign or none, digits and anything behind them give just that number, if it is an int |
| SnapshotNames.ScanNothing | apollo/container_snapshot.go:82-86 | a newline in front, or no digit, is an error |
| SnapshotNames.NextNumber | apollo/container_snapshot.go:74-92 | one more than the greatest number, whatever other names there are; after a wrap, counted from there on |
| SnapshotNames.NextNameIsNew | apollo/container_snapshot.go:63-93 | the generated name is none of the existing ones when none is numbered 2^63-1 |
| SnapshotNames.NextIsFollowing | apollo/container_snapshot.go:63-93 | below the wrap the number is one more than the greatest that any snapshot counts for, or 0 |
| SnapshotNames.CollidesExactly | apollo/container_snapshot.go:87-89 | some order of the rows makes the generated name an existing one exactly when a wrap can bring the count onto a name in use |
| SnapshotNames.GeneratedName | apollo/container_snapshot.go:122-130 | on the database: no row at all has the generated name |
| ServerConfig.SetAllStops | apollo/api_1.0.go:304-324 | the keys before the first that is not accepted are set, that one stops the loop, all others stay as they were |
| ServerConfig.AcceptedExactly | apollo/api_1.0.go:303-322 | a key is accepted exactly when it is known, left out, null or a string, and its value is the cached one or gets written |
| ServerConfig.ChangedExactly | apollo/api_1.0.go:289-301 | a key changes unless the request has the very string of the table, or neither has it |
| ServerConfig.RenderedExactly | apollo/daemon_config.go:223-239 | shown is every value that is neither empty nor the default, of a hidden key only that it is set |
| ServerConfig.SucceedsExactly | apollo/api_1.0.go:289-327 | a request succeeds exactly when every changed key has a string or null, is known, and passes or needs no setting |
| ServerConfig.PutExactly | apollo/api_1.0.go:280-327 | a successful PUT leaves the table equal to the requested map without empty values exactly when no key was stale before |
| ServerConfig.FailureLeavesOldOrNew | apollo/api_1.0.go:304-324 | after a failure every key has its old or its requested value, and the table is never ahead of the cache |
| ServerConfig.ConsistentExactly | apollo/daemon_config.go:124-133 | cache and table still agree afterwards exactly when the request did not stop at a lost write |
| ServerConfig.LostWriteIsStale | apollo/daemon_config.go:99-103 | after a lost write the same value is taken for set, and never written |
| ServerConfig.PatchOverrides | apollo/api_1.0.go:266-278 | a PATCH asks for the old map overridden by the request, and touches no other key |
| ServerConfig.ReloadReproduces | apollo/daemon_config.go:204-218 | loading the table gives back the cache exactly when the two agree |
| ServerConfig.RestartReproduces | apollo/daemon_config.go:174-221 | whatever requests are served or fail without a lost write, a restart comes back to the same configuration |
| ServerConfig.RevertShowsExactly | apollo/daemon_config.go:223-239 | a successful PUT of what was shown before shows it again exactly when no hidden key that was set has been unset, and no key's cache differs from a table that already has what was shown |
| ServerConfig.SuccessIsNotAhead | apollo/api_1.0.go:289-327 | right after a successful PUT no key is in that state, whatever writes were lost before |
| ServerConfig.SuccessShowsExactly | apollo/api_1.0.go:289-327 | a successful PUT changes what is shown exactly when one of its keys does |
| ServerConfig.FailsHalfwayExactly | apollo/api_1.0.go:304-324 | a failing request may change what is shown exactly when a changed key is not accepted and it or an accepted one shows |
| ConfigDaemon.Daemon.Init | apollo/daemon_config.go:204-218 | the cache is what the table says; a key the table has and the daemon does not know ends the start |
| ConfigDaemon.Daemon.Set | apollo/daemon_config.go:96-136 | validates, sets the cache, then replaces the row; the same value does nothing, and a failed write leaves the cache changed |
| ConfigDaemon.Daemon.Render | apollo/daemon_config.go:223-239 | shows the values that differ from their defaults, hidden ones as true |
| ConfigDaemon.Daemon.Diff | apollo/api_1.0.go:289-302 | the two loops find exactly the keys whose value differs from the table's |
| ConfigDaemon.Daemon.Update | apollo/api_1.0.go:280-327 | the changed keys are set one by one in some order, up to the first error |
| ConfigDaemon.Daemon.Put | apollo/api_1.0.go:231-248 | the update is made against the table as it is |
| ConfigDaemon.Daemon.Patch | apollo/api_1.0.go:250-278 | without a config nothing changes; otherwise the update is made with the table's other keys added |
| InitTransaction.UndoesChange | apollo/main_init.go:471-584 | a reverter puts an object back to what it was, present or absent, if nothing else touched it |
| InitTransaction.ObjectRestored | apollo/main_init.go:373-436 | after reverters in forward order each object is as before the command, but for the one the failing change touched |
| InitTransaction.RestoredExactly | apollo/main_init.go:373-436 | if a change fails and the reverters succeed, the server looks as before exactly when the failing change left nothing visible and no secret was dropped, whatever writes the server had lost before |
| InitTransaction.SecretLostExactly | apollo/main_init.go:439-468 | applying a configuration drops a secret exactly when it leaves out, or empties, a hidden key that was set and that the request changes in the table |
| InitOutcome.FirstFailure | apollo/main_init.go:413-422 | the change at which the command fails is the first that fails on the server as it was before |
| InitOutcome.LeavesNothingExactly | apollo/main_init.go:373-436 | a failing command whose reverters succeed leaves the server looking as before, in every order of keys, if and only if the change that fails cannot show and none made before it drops a secret, judged by the server, the requests and the replies before the command |
| InitOutcome.ObjectsAreAsAsked | apollo/main_init.go:471-584 | after a command that succeeds, every profile is as it was asked for, every pool and network has the config asked for, and what was not there is what the server made |
| InitOutcome.ConfigIsAsAsked | apollo/main_init.go:439-468 | and every key that is not hidden has the string asked for, or is unset |
| InitCommand.Client.InitConfig | apollo/main_init.go:439-468 | the server is read and sent one PUT; either may fail as a whole, and the answer to a PUT that was taken on may be lost; success comes with a reverter that puts back what was shown |
| InitCommand.Client.InitObject | apollo/main_init.go:471-584 | updates an object that was found and creates one that was not, as the server answers, with the matching reverter exactly on success |
| InitCommand.ObjectPutAsAsked | apollo/main_init.go:471-584 | what becomes of a pool, network or profile for every answer of the server, a wrong network type included; nothing else changes |
| InitCommand.PutsObjectExactly | apollo/main_init.go:471-584 | the relation that the undo theorems use allows exactly what some answers of the server lead to |
| InitCommand.Client.Undo | apollo/main_init.go:486-584 | deletes a created object, puts back an updated one, or the configuration, as the server answers |
| InitCommand.Revert | apollo/main_init.go:428-436 | the reverters run first to last, each from the state the one before left, up to the first that fails |
| InitCommand.Apply | apollo/main_init.go:373-425 | all changes are made in order, or the first that fails ends them and those before it are reverted; then the view is restored exactly as `RestoredExactly` says |
| ForkExec.Parse | apollo/main_forkexec.go:62-91 | the loop with its variables computes the section parser; too few arguments and unknown sections are errors |
| ForkExec.UnknownSection | apollo/main_forkexec.go:70-88 | an argument in a section that is neither env nor cmd ends the parsing with that section's name |
| ForkExec.BuildArgs | apollo/container_mercury.go:4854-4869 | the vector has the environment, in any order, and the command in their sections |
| ForkExec.RoundTripExactly | apollo/main_forkexec.go:62-91 | the parser gives back environment and command exactly when no environment entry is "--", whatever the command holds |
| ForkExec.ProcessGetsRequest | apollo/container_mercury.go:4854-4869 | every request built by Exec is parsed to exactly its environment and command |
| ForkExec.CwdExactly | apollo/main_forkexec.go:80-84 | the working directory is HOME's value in every order exactly when no other variable passes for HOME |
| DirListing.PrintDirectory | apollo/main_nsexec.go:303-334 | the output is the header and one line per name but "." and "..", with newlines swapped |
| DirListing.ListedExactly | apollo/main_nsexec.go:317-319 | just the two dots are not listed |
| DirListing.ParseListing | apollo/container_mercury.go:4628-4696 | the loop over the lines, with its early returns, and the one err that the command and the numbers share |
| DirListing.ErrorIsRead | apollo/container_mercury.go:4634-4646 | an error message and number of the helper end the reading: number 2 as a missing file, any other with that message |
| DirListing.BadNumberIsRead | apollo/container_mercury.go:4649-4676 | a number that cannot be read ends it with that error |
| DirListing.NothingIsRead | apollo/container_mercury.go:4618-4632 | without output, what the command itself said |
| DirListing.FailurePassesExactly | apollo/container_mercury.go:4648-4696 | a failed helper is taken for a success exactly when its output has a number, and no error number and no number that cannot be read |
| DirListing.PartialListingPasses | apollo/container_mercury.go:4648-4696 | a helper that dies after any number of the entries passes for one that listed only these |
| DirListing.SwapRoundTrip | apollo/main_nsexec.go:327-333 | a swapped name is one line, and swapping back gives the name exactly when it has no NUL |
| DirListing.ListingRoundTripExactly | apollo/container_mercury.go:4628-4689 | owner, mode and names are read back in order, exactly when no name has a NUL; newlines do no harm, trailing ones included |
| FanAddress.BytesRoundTrip | apollo/networks_utils.go:179-182 | the bytes of a big integer stand for it, and are as many as it needs |
| FanAddress.MappedNumber | apollo/networks_utils.go:156-158 | the IPv4-mapped form (section 2.5.5.2 of RFC 4291) is the address above 0xffff words |
| FanAddress.FormsExactly | apollo/networks_utils.go:156-158 | which byte strings are IPv4 addresses, and their sixteen-byte form |
| FanAddress.Int64Exactly | apollo/networks_utils.go:183-187 | the low 64 bits of a big integer, signed |
| FanAddress.NetworkGetIP | apollo/networks_utils.go:155-188 | for IPv4, network plus offset in 32 bits; for IPv6 the plain sum without its sign, which has 16 bytes exactly when it has no leading zero byte and no carry |
| FanAddress.StaysInsideExactly | apollo/networks_utils.go:160-187 | for IPv4, any offset counted from a subnet's start or end stays inside exactly when it reaches less far than the subnet, up to whole turns of the address space |
| FanAddress.PlainStaysInside | apollo/networks_utils.go:160-173 | for IPv6, where nothing wraps, exactly when it reaches less far |
| FanAddress.NetworkFanAddress | apollo/networks_utils.go:597-638 | the errors in their order, and the address written byte by byte through the shared slice |
| FanAddress.FanBytes | apollo/networks_utils.go:627-637 | the overlay's bytes, as many of the host's own as fit behind them, and 1 |
| FanAddress.FanSeparates | apollo/networks_utils.go:627-637 | two hosts of an accepted underlay have the same slice exactly when they are the same |
| FanAddress.AcceptedExactly | apollo/networks_utils.go:599-611 | the third size check keeps exactly the sizes for which hosts do not share a slice |
| FanAddress.SliceInOverlay | apollo/networks_utils.go:627-637 | every host's /24 lies inside the overlay |
| FanAddress.DhcpRange | apollo/networks.go:1007-1007 | the range runs from the third to the last but one address of the /24 |
| FanAddress.HostsStayApart | apollo/networks.go:990-1007 | an address handed out by one host is handed out by no other host, and is no host's bridge address |
| SchemaUpdates.AttemptsInOrder | apollo/db_update.go:101-135 | over any start-ups, when an update is attempted exactly those in front of it are recorded, and it is itself never attempted again once it is |
| SchemaUpdates.AttemptsGoOn | apollo/db_update.go:101-135 | a start-up attempts the next updates up to the first that is not good, or all, and each attempt gets as far as its update does |
| SchemaUpdates.HistoryRecordsNext | apollo/db_update.go:101-135 | over any failing and succeeding start-ups the recorded versions are the next ones of the list, without gap or repeat |
| SchemaUpdates.SuccessIsFinal | apollo/db_update.go:101-135 | a successful start-up leaves the latest version recorded, and later ones attempt nothing |
| SchemaUpdates.AllPatchedExactly | apollo/db_update.go:119-131 | once all versions are recorded, every update was made with its legacy patch if and only if no start-up failed in a patch after recording its version |
| SchemaUpdates.PatchLeftBehind | apollo/db_update.go:119-131 | a start-up fails in a patch, the next one succeeds, and the patch is never made |
| SchemaUpdates.CurrentCuts | apollo/db.go:260-269 | the greatest recorded version says which updates are done |
| SchemaUpdates.CutSplits | apollo/db.go:260-269 | the updates that are done are those that some recorded version has reached |
| SchemaUpdates.Database.Apply | apollo/db_update.go:76-91 | the version is recorded exactly when the update ran and its row could be inserted |
| SchemaUpdates.Database.ApplyAll | apollo/db_update.go:101-135 | attempts what the history says, and succeeds exactly when nothing is left to do or the backup and all remaining updates are good |

## Left out

- Raw idmap entries: `parseRawIdmap` and the merge into the found range are not modelled; neither is the base that a
  snapshot restore puts back without a search.
- The window between finding a range and recording it: the search holds a lock, the recording does not; both are one
  step here.
- The `onCancel` hook of API operations, which no caller passes.
- Reading the host's effective CPU list from its cgroup, and writing the pinnings to those of the containers.
- Names of container devices in the migration header, and the transfer formats' own protocols: a transfer succeeds or fails.
- The success of a dump is taken to need the success of its action script, which is CRIU's own rule.
- Database errors of single statements other than those of UNIQUE and FOREIGN KEY rules, except for the configuration
  table, where a write may be lost; a failed transaction changes nothing.
- The cascade from a deleted profile to the containers' links, and the dates of the containers table.
- Moving the storage and the log directory in a rename; the new name is not in use, as the API checks before.
- The validators of the server configuration: each is one branch; an answer says what validator, setter and database
  make of a value. Two requests at a time are not modelled.
- The YAML integers that `initConfig` turns into strings, and the text questions of `apollo init`.
- InitCommand.Client.InitObject: an update stores the body it was sent; values that the server fills in for "auto" are
  part of the body that a creation makes, and are not filled in again.
- The lookup of the host's address in `networkAddressForSubnet` and the text form of addresses.
- Creating the database afresh (`createDb`) and the statements of the single updates.
- The storage driver cache, the image download table, simple validators and system calls.
