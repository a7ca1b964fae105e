# Verified models of RDFM

RDFM keeps fleets of devices up to date over the air.  These Dafny modules model the parts of
it that carry state over many steps, and prove what they promise.  `dafny verify dfyconfig.toml`
checks everything.

- `Digraph`, `Resolver`, `UpdateRun`: the server's update path resolver.  Versions are nodes, packages are
  edges, the answer is the first hop of a shortest path to the version the policy asks for.
- `BlockDevice`: the writer of the Linux client that writes a device frame only if it differs.
- `QueueSpec`, `FileStore`, `CrashRecovery`, `ActionPipeline`, `ActionRunner`: the file-backed queues of the Linux client and
  the two loops that execute actions and deliver their results, across crashes.
- `GroupUpdate`, `GroupRounds`, `GroupScenarios`: the phased update of a group of microcontrollers.
- `HttpReader`, `CachedFetcher`: the resuming and caching download.
- `GroupsDb`: groups, priorities and assignments in the server's database.
- `Multipart`: part sizes, the device's upload loop and the joining of the parts.
- `PayloadText`, `SingleFile`: the single-file artifact, from the tool that writes it to rollback or commit.
- `RingBuffer`: the drop-oldest buffer of the telemetry pipeline.

Code that changes its state step by step is modelled by classes and methods, proved against
functions on their state.  Concurrent code (the action pipeline, the group update, the ring buffer) is
modelled by step systems over immutable states; theorems are about all runs.

## What the proofs assume

- Metadata of devices and packages carries a software version and a device type, as every lookup in the
  resolver requires.  After an update a device reports the version of the package and its old type.
- A device file fails only at its end.  Writing and removing a single file is atomic and succeeds, and the
  queue directories hold only files the store created.
- Serialized requests and results read back as they were.
- A device that accepted a reset has restarted by the time the next phase talks to it; it may also
  restart or confirm its image by itself at any time.  Images are told apart by their hashes, and no swap
  is pending when an update starts.
- A range request (section 14.2 of RFC 9110) is answered with exactly the bytes asked for, or with an
  error, as it is when there are none (section 15.5.17).  For the cache, the server also advertises range
  support (section 14.3) the same way in every response, and a cache file belongs to one image.
- Transactions are serial, and foreign keys are enforced.
- A payload, and a piece of a regular file, is read in full by one read.

## Where the code does something else than it says

- The comment at `server/src/update/resolver.py:142-145` says that an incompatible package is never chosen
  as the next hop.  Nodes are keyed by version only, so edges between packages also leave the device's own
  version; `AnswersInstallableIff` and `CoveredIsNeeded` say when the promise holds.  Packages for other
  device types contribute edges too, which the manual does not say.
- `Close` of the block device writer only logs a failure to write the tail: on a device that is not as long
  as the payload rounded up to a frame, the update reports success without its last bytes, unless a
  whole frame is missing (`Install`, `TailIsLost`).
- After a rollback the recorded primary image of a member that was actively rolled back is the new one,
  because it was read before the reset; and the image to roll back to is never replaced after a success.
- A member that reverts between the read and its confirmation is reported as updated while it runs its old
  image with a swap pending (`UpdatedWhileSlipped`), and the group's rollback does not cancel such a swap.
- `HttpUpdateReader.Read` returns only the last read's count if a later response stops offering ranges,
  which is too little exactly if the read was resumed after some bytes came (`CountIsRightIff`).
- A download whose cache file is already complete fails, however often it is tried.
- `modify_assignment` ignores removals of devices that are not assigned, although its documentation says
  that they abort the transaction; a priority in use rejects an addition even if the same call removes it.
- An update of a single file with surrounding white space in its name, or with a blank directory, is
  dropped without an error, and rolling it back empties the file of the trimmed name; rolling back the
  creation of a file leaves an empty file; the mode of an existing file is not changed.
- Enqueuing nil loses a slot of the store for good.
- The ring buffer can block for good if the consumer empties it at the wrong moment.

## Model

| member | source | states |
|---|---|---|
| `UpdateRun.RunConverges` | server/src/update/resolver.py:118-187 | Convergence: a run of updates from a device d hops away from the target has at most d updates, never meets a version twice, stops only at the target, and is there after d of them |
| `UpdateRun.UpdateShortens` | server/src/update/resolver.py:138-181 | installing an answer leaves a route to the target that is one hop shorter and uses only edges between packages, so it is open whatever the rest of the device metadata has become |
| `UpdateRun.NoReturn` | server/src/update/resolver.py:160-187 | no two devices of a run have the same version, even if their other metadata differ |
| `UpdateRun.RunProgresses` | server/src/update/resolver.py:160-187 | a device that is still some hops away from a known target always gets an answer |
| `Resolver.PackageResolver.Resolve` | server/src/update/resolver.py:78-187 | the answer is None exactly if the policy names no target, no package for the type of the device has the target version, the device is on it already, or no route exists; otherwise it is the first label of the first hop of a route with the fewest hops. In terms of the metadata: the package has another version; if the device can take it, the device carries every value that it requires, and its type; if not, no package of that version can be taken, and an assigned package of the version of the device takes it; and a package that leads to the target at once is found, the first of those |
| `Resolver.AnswerIsFirstHop` | server/src/update/resolver.py:160-181 | the answer is an index into the package list, its version is the second node of some shortest route, and the device can install it exactly if the device can install any package of that version |
| `Resolver.AnswerMeans` | server/src/update/resolver.py:160-181 | an answer has another version, is installable on the device or on an assigned package of its version, is the first package of its version that the device can take if there is one, and leads to the target at once if a package does |
| `Resolver.FirstLabelPrefersDevice` | server/src/update/resolver.py:125-136 | of parallel edges one that leaves the device itself is preferred to one between packages, and of several such the package listed first |
| `UpdateRun.AnswersInstallableIff` | server/src/update/resolver.py:142-181 | for every device and package list: no policy target and no choice among shortest routes yields a package the device cannot install, if and only if no hop by package edges alone starts a shortest route to a known version |
| `UpdateRun.CoveredIsEnough` | server/src/update/resolver.py:142-158 | it is enough that whatever the assigned packages with the device's own version take, the device takes some package of the same version |
| `UpdateRun.CoveredIsNeeded` | server/src/update/resolver.py:142-158 | if all assigned packages have the device's type, that check is exact |
| `UpdateRun.IncompatibleHop` | server/src/update/resolver.py:142-145 | the promise of the comment does not hold in general: two packages for which the resolver hands out one the device cannot install |
| `Resolver.RequirementsSatisfied` | server/src/update/resolver.py:12-43 | true exactly if the base carries, under the key behind `requires:`, the value of every such key of the update, the versions differ and the device types agree; stated by lookups in the two maps |
| `Resolver.InstallableMeans` | server/src/update/resolver.py:12-43 | the same lookups characterise the relation that the edges of the graph are drawn by |
| `Resolver.RequiredValueMatters` | server/src/update/resolver.py:29-34 | a package is refused by every base that lacks a required key or differs in its value |
| `Resolver.PackageResolver.AddVersions` | server/src/update/resolver.py:90-106 | the nodes are the device's version and the versions of the packages for its type |
| `Resolver.PackageResolver.BuildEdges` | server/src/update/resolver.py:118-158 | the edges are those out of the device, followed by those out of every package |
| `Resolver.GraphMeaning` | server/src/update/resolver.py:118-158 | an edge is in the graph exactly if its package can be installed on the device, or on an assigned package that has the version the edge leaves |
| `Resolver.PackageResolver.LabelPath` | server/src/update/resolver.py:166-179 | every hop is labelled with the first of its parallel edges |
| `Digraph.MultiDiGraph.ShortestPath` | server/src/update/resolver.py:160-164 | the search returns a route with the fewest hops, and None only if there is none (stands for the library call; all edges cost 1) |
| `Digraph.MultiDiGraph.NextLayer` | server/src/update/resolver.py:160-164 | one breadth-first layer finds exactly the unseen successors of the frontier |
| `Digraph.MultiDiGraph.AddEdge` | server/src/update/resolver.py:130-136 | parallel edges are kept in the order they are added, and their end points become nodes |
| `Digraph.AddLayer` | server/src/update/resolver.py:160-164 | a layer extends the set of nodes that are known with a shortest route by one hop |
| `Digraph.TailAvoids` | server/src/update/resolver.py:118-136 | a shortest route uses edges that all leave its start for its first hop only |
| `BlockDevice.Install` | devices/linux-client/delta/installer.go:66-95 | for every splitting of the stream and every device content, of the first updateSize bytes of the stream, or all of it if it is no longer: a write fails exactly if a whole frame of them ends behind the device; with room for them in whole frames they are at the start of the device and all later bytes are unchanged; without, the device is overwritten as far as its own whole frames go, and if they fit it is right exactly if the device held the tail already |
| `BlockDevice.WriteAll` | devices/linux-client/delta/installer.go:80-84 | a stream within the budget is taken in full, of a longer one exactly the first bytes up to the budget, however it is cut into pieces; or the writer stops at the first error |
| `BlockDevice.FlattenConcat` | devices/linux-client/delta/installer.go:80-84 | pieces follow each other: a piece alone is itself, and two rows of pieces are one behind the other |
| `BlockDevice.BlockDeviceWriter.Write` | devices/linux-client/delta/block_device.go:148-165 | a piece within the bytes still to be updated is taken in full, and of a longer one just these; the cursor stays at framesChecked * frameSize, at most a sector is unsynced, all writes start at a sector, the device holds the old contents overwritten by the whole frames so far, and the dirty frames are counted; an error is ENOSPC exactly if the piece was cut, and means that the next frame does not fit |
| `BlockDevice.BlockDeviceWriter.BufferedWrite` | devices/linux-client/delta/block_device.go:187-202 | buffers the piece and writes every whole frame out, or fails with zero bytes |
| `BlockDevice.BlockDeviceWriter.FlushFrame` | devices/linux-client/delta/block_device.go:195-200 | moves one frame from the buffer to the device; fails, with the device unchanged, exactly if the frame does not fit |
| `BlockDevice.BlockDeviceWriter.WriteFrameIfDiff` | devices/linux-client/delta/block_device.go:215-235 | puts the bytes at the cursor, with a write exactly if the frame under it differs; fails, with nothing changed but the cursor, exactly if no whole frame is left |
| `BlockDevice.BlockDeviceWriter.CmpFrames` | devices/linux-client/delta/block_device.go:204-213 | reads a whole frame and tells whether it differs |
| `BlockDevice.BlockDeviceWriter.WriteAndSyncIfNeeded` | devices/linux-client/delta/block_device.go:237-247 | one write, synced exactly if it exceeds what may stay unsynced; at most a sector is unsynced afterwards |
| `BlockDevice.BlockDeviceWriter.Close` | devices/linux-client/delta/block_device.go:173-185 | writes the tail exactly if a whole frame is left for it, and syncs; never reports the loss of the tail |
| `BlockDevice.BlockDeviceWriter.constructor` | devices/linux-client/delta/block_device.go:128-146 | a new writer has taken nothing and changed nothing |
| `BlockDevice.LostTail` | devices/linux-client/delta/block_device.go:173-184 | a lost tail makes no difference exactly if the device held the same bytes there already |
| `BlockDevice.TailRoom` | devices/linux-client/delta/block_device.go:173-213 | the device is as long as the payload rounded up to frames exactly if there is no tail or one more frame fits; a tail never makes a write fail |
| `BlockDevice.TailIsLost` | devices/linux-client/delta/block_device.go:173-184 | one frame and a quarter of ones, written over one frame and a half of zeros: success is reported and the last byte is missing |
| `BlockDevice.OverflowsIff` | devices/linux-client/delta/block_device.go:187-202 | a write fails exactly if the stream has more whole frames than the device |
| `BlockDevice.RoomIff` | devices/linux-client/delta/block_device.go:204-235 | there is room exactly if the stream fits and ends with a frame or in a frame that the device has in full |
| `BlockDevice.RoundedDownIff` | devices/linux-client/delta/block_device.go:204-235 | what is written of a stream without room is the length of the device less its remainder by the frame size |
| `BlockDevice.AlignedIff` | devices/linux-client/delta/block_device.go:215-246 | writes are aligned exactly if the sector size divides where they start |
| `BlockDevice.CalculateFrameSize` | devices/linux-client/delta/block_device.go:249-255 | terminates for every positive sector size with the least sector * 2^k of at least 1 MiB, a whole number of sectors |
| `BlockDevice.FrameDone` | devices/linux-client/delta/block_device.go:215-235 | overwriting one more frame is one step of the plain overwrite and of the count of dirty frames |
| `FileStore.FileStore.Reload` | devices/linux-client/actions/file_store.go:127-205 | finds exactly the queue stored in the files, in order; the capacity stays as configured unless there are more files, and is their number then; free slots = capacity - count and available items = count |
| `FileStore.FileStore.constructor` | devices/linux-client/actions/file_store.go:45-67 | a new store is a reload of its directory, with the configured capacity unless there are more files than that |
| `FileStore.FileStore.MinMax` | devices/linux-client/actions/file_store.go:156-167 | the least and the greatest index, both -1 if there is none |
| `FileStore.FileStore.GetFrontItemIndex` | devices/linux-client/actions/file_store.go:227-242 | the upward search terminates at the least index, and finds none only in an empty store |
| `FileStore.FileStore.WriteFile` | devices/linux-client/actions/file_store.go:96-104 | the file step of a push: the item is the last one on disk, and nothing else changes |
| `FileStore.FileStore.KeepItem` | devices/linux-client/actions/file_store.go:260-263 | the memory step of a push: the item is in memory too, and a reader may acquire it |
| `FileStore.FileStore.RemoveFile` | devices/linux-client/actions/file_store.go:116-125 | the file step of a pop: the oldest item is gone on disk, and nothing else changes |
| `FileStore.FileStore.DropItem` | devices/linux-client/actions/file_store.go:278-281 | the memory step of a pop: the item is gone in memory too, and a writer may acquire its slot |
| `FileStore.FileStore.PushItemToBack` | devices/linux-client/actions/file_store.go:244-266 | for a caller that holds a slot: appends the item and wakes a reader, never overruns the semaphore, never finds the store full; nil is refused and its slot is lost |
| `FileStore.FileStore.PopFrontItem` | devices/linux-client/actions/file_store.go:268-284 | for a caller that holds an item: removes and returns the oldest one and frees a slot, without overrunning the semaphore |
| `FileStore.FileStore.PeekFrontItem` | devices/linux-client/actions/file_store.go:286-298 | the oldest item, or nil if there is none |
| `FileStore.FileStore.Enqueue` | devices/linux-client/actions/file_store.go:300-308 | a granted slot is used for the item; a cancelled wait changes nothing |
| `FileStore.FileStore.TryEnqueue` | devices/linux-client/actions/file_store.go:310-318 | fails as full exactly if no slot is free, and then changes nothing |
| `FileStore.FileStore.Dequeue` | devices/linux-client/actions/file_store.go:320-328 | a granted item is the oldest one and is removed |
| `FileStore.FileStore.TryDequeue` | devices/linux-client/actions/file_store.go:330-338 | fails as empty exactly if no item is available |
| `FileStore.FileStore.WaitNonEmpty` | devices/linux-client/actions/file_store.go:355-359 | returns only with an item in the queue, which it reserves |
| `FileStore.FileStore.Pop` | devices/linux-client/actions/file_store.go:346-353 | after a wait the front item is there and is removed |
| `FileStore.FifoBounds` | devices/linux-client/actions/file_store.go:159-180 | the queue read from the indices does not depend on the read and write index, so a reload finds the same sequence |
| `FileStore.FifoPush` | devices/linux-client/actions/file_store.go:256-262 | an item stored at the write index is the last of the queue |
| `FileStore.FifoPop` | devices/linux-client/actions/file_store.go:272-281 | the item at the least index is the first of the queue |
| `FileStore.FifoLength` | devices/linux-client/actions/file_store.go:182-202 | the queue is as long as the map is large |
| `CrashRecovery.Life` | devices/linux-client/actions/file_store.go:127-284 | any sequence of pushes and pops, the last one cut off by a crash before it, behind its semaphore, behind its file step or behind its memory step, followed by a restart on the same directory: the new store holds exactly the items from before that operation or from after it, on disk and in memory, and its counters agree with them; its capacity is the configured one or the count, whichever is more |
| `CrashRecovery.RestartThenPush` | devices/linux-client/actions/file_store.go:151-184 | a store started with fewer files than the configured capacity takes another item as its last one, and with no fewer it is full |
| `CrashRecovery.CutOff` | devices/linux-client/actions/file_store.go:244-284 | what an operation that is cut off leaves on disk: its effect if the file step was made, and nothing if not |
| `CrashRecovery.Operate` | devices/linux-client/actions/file_store.go:312-340 | operations that are not cut off have the effect of those of a bounded queue, full and empty ones included |
| `QueueSpec.AfterConcat` | devices/linux-client/actions/file_store.go:312-340 | operations on a bounded queue follow each other and never exceed its capacity |
| `ActionPipeline.AtMostOnce` | devices/linux-client/actions/runner.go:38-67 | over every run with crashes, callers and both loops interleaved: what is executed are stored requests, in the order they were stored in, none twice, and those not taken are all on disk |
| `ActionPipeline.ResultsMatchRequests` | devices/linux-client/actions/runner.go:55-65 | every stored result carries the id of an executed request of its own, in the same order, and the status and output that the execution of just that request ended with; it stays on disk until it is removed |
| `ActionPipeline.DeliveredInOrder` | devices/linux-client/actions/runner.go:69-106 | a result is removed only after the callback accepted that very result, and the accepted deliveries without consecutive repeats are the first of the stored results, each as it was stored |
| `ActionPipeline.NeverStarved` | devices/linux-client/actions/runner.go:76-104 | a loop that was woken always finds its item, so only a lock can delay its next step; all counters stay within the capacity |
| `ActionPipeline.RunKeepsInv` | devices/linux-client/actions/runner.go:38-106 | every state of every run satisfies the invariant that ties disks, memory, counters and loops together |
| `ActionPipeline.RunKeepsOutcomes` | devices/linux-client/actions/runner.go:28-36 | in every state of every run the result in hand, and every stored one, has the outcome of an execution that ended before |
| `ActionPipeline.CommandKept` | devices/linux-client/actions/runner.go:38-67 | each step keeps: the command loop works on the last request taken, has not executed it before, and what it executed are stored requests |
| `ActionPipeline.DeliveryKept` | devices/linux-client/actions/runner.go:69-106 | each step keeps: what is delivered is a stored result, and deliveries run at most one ahead of removals |
| `ActionPipeline.DedupStutters` | devices/linux-client/actions/runner.go:91-100 | numbered entries that only repeat or count up by one are the first m items once repeats are dropped |
| `ActionRunner.Runner.Execute` | devices/linux-client/actions/runner.go:138-151 | returns true exactly if a slot was free, and then the request is on disk |
| `ActionRunner.Runner.CommandRound` | devices/linux-client/actions/runner.go:45-65 | one round takes the oldest request and stores the result of its execution, or drops that when cancelled |
| `ActionRunner.Runner.ResponderRound` | devices/linux-client/actions/runner.go:76-104 | one round gives the oldest result, and no other, to the callback until that accepts it; at each of these calls the result is still on disk and in memory, and behind the last one, the only one that was accepted, it is removed |
| `ActionRunner.ExecuteIsSteps` | devices/linux-client/actions/runner.go:138-151 | storing a request is three steps of the pipeline model in a row, possible exactly if a slot is free |
| `ActionRunner.DequeueIsSteps` | devices/linux-client/actions/runner.go:45-49 | a dequeue is three steps of the pipeline model in a row |
| `ActionRunner.RunCommandIsSteps` | devices/linux-client/actions/runner.go:28-55 | executing a request is two steps of the pipeline model in a row, and the result has the id of the request and the status and output of the execution |
| `ActionRunner.EnqueueIsSteps` | devices/linux-client/actions/runner.go:61-65 | an enqueue of a result is three steps of the pipeline model |
| `ActionRunner.PopIsSteps` | devices/linux-client/actions/runner.go:101-104 | the removal of a delivered result is two steps of the pipeline model |
| `ActionRunner.PeekIsSteps` | devices/linux-client/actions/runner.go:76-84 | waiting for a result and looking at it is two steps of the pipeline model |
| `ActionRunner.ResponderRoundIsSteps` | devices/linux-client/actions/runner.go:76-104 | a round of the responder loop is a row of steps of the pipeline model: the result that was oldest is what is recorded as delivered, and what is removed |
| `GroupUpdate.PhaseBarriers` | devices/mcumgr-client/agent/device/group.go:133-166 | under every interleaving: no image is marked as pending before every member's image is written and differs from its primary one, and no member is asked to reset before every image is marked |
| `GroupUpdate.UpdatedMeans` | devices/mcumgr-client/agent/device/group.go:168-190 | a nil result: every member recorded its own artifact image and runs it confirmed, unless it slipped back between the read and the confirmation, and exactly if no swap is pending; the group takes over the version; the image to go back to is still the old one, because the loop updates copies |
| `GroupUpdate.RolledBackMeans` | devices/mcumgr-client/agent/device/group.go:169-182 | a rollback without error: a member runs its old image for good exactly if rollback saw no pending swap, which a member that did not slip cannot have; the recorded image is right exactly if the member had gone back by itself; the version is unchanged |
| `GroupUpdate.OldStays` | devices/mcumgr-client/agent/device/group.go:334-355 | a confirmed old image with no swap pending survives all resets |
| `GroupUpdate.FailedMeans` | devices/mcumgr-client/agent/device/group.go:131-164 | an update that fails before the confirmation leaves version and recorded images alone, and members whose image was not marked on their old one |
| `GroupUpdate.SlippedMemberComesBack` | devices/mcumgr-client/agent/device/group.go:313-343 | every member that reverts between read and confirmation is reported as updated, then as rolled back, and comes up on the new image |
| `GroupScenarios.RollbackIsUndone` | devices/mcumgr-client/agent/device/group.go:116-182 | a complete run of two members in which the rollback reports no error, one member then runs the new image, and for the other one, which runs the old image, the new one is recorded |
| `GroupScenarios.UpdatedWhileSlipped` | devices/mcumgr-client/agent/device/group.go:168-190 | a complete run that reports success although a member runs its old image, with a swap pending |
| `GroupScenarios.FailedBootIsIgnored` | devices/mcumgr-client/agent/device/group.go:161-171 | a session error while the members restart does not fail the update: the barrier leads to the same state as a restart without errors |
| `GroupScenarios.UpdateSucceeds` | devices/mcumgr-client/agent/device/group.go:116-190 | a complete run in which nothing goes wrong ends as updated |
| `GroupScenarios.UpdateSucceedsByItself` | devices/mcumgr-client/agent/device/group.go:292-311 | a complete run in which one member confirms its image by itself, is waited for until then, and the update succeeds |
| `GroupUpdate.RunKeepsInv` | devices/mcumgr-client/agent/device/group.go:192-250 | every member satisfies the invariant of the current phase in every reachable state |
| `GroupUpdate.BarrierHandsOver` | devices/mcumgr-client/agent/device/group.go:211-217 | a barrier hands every member over in a state that suits the next phase, with and without failures |
| `GroupUpdate.WriteKeepsInv` | devices/mcumgr-client/agent/device/group.go:133-152 | writing changes neither the running image nor its confirmation, and success means that the other slot holds a different image |
| `GroupUpdate.PendingKeepsInv` | devices/mcumgr-client/agent/device/group.go:252-266 | marking keeps both images in place, and success means that the image is marked |
| `GroupUpdate.RebootKeepsInv` | devices/mcumgr-client/agent/device/group.go:268-273 | after a successful reset no swap is pending |
| `GroupUpdate.ConfirmKeepsInv` | devices/mcumgr-client/agent/device/group.go:285-332 | a confirmed member runs the new image confirmed, or slipped |
| `GroupUpdate.RollbackKeepsInv` | devices/mcumgr-client/agent/device/group.go:334-355 | a rollback that reports success went back for good, or left a pending swap alone |
| `GroupUpdate.DeviceKeepsInv` | devices/mcumgr-client/agent/device/group.go:192-250 | no reset and no confirmation by a device on its own breaks the invariant |
| `GroupRounds.WriteRound` | devices/mcumgr-client/agent/device/group.go:133-152 | on every device state: the image is in the other slot, the running one untouched, and a failure is reported exactly if the device runs that image |
| `GroupRounds.PendingRound` | devices/mcumgr-client/agent/device/group.go:252-266 | the image in the other slot is marked, and nothing else changes |
| `GroupRounds.RebootRound` | devices/mcumgr-client/agent/device/group.go:268-273 | a marked device comes up on the other image unconfirmed, and a further reset reverts it |
| `GroupRounds.BootRound` | devices/mcumgr-client/agent/device/group.go:275-283 | a device is waited for until it answers a ping |
| `GroupRounds.ConfirmRound` | devices/mcumgr-client/agent/device/group.go:285-332 | both kinds of confirmation report a failure exactly if the member runs the recorded image, and success exactly if it runs another one, confirmed and recorded then; a self-confirming member is waited for as long as its image is not confirmed |
| `GroupRounds.RollbackRound` | devices/mcumgr-client/agent/device/group.go:334-355 | a device on the image to go back to is left alone, one without it is a failure, and any other one is swapped to it, confirmed |
| `GroupRounds.NoSessionFails` | devices/mcumgr-client/agent/device/group.go:192-250 | without a session every callback reports a failure and leaves the device alone |
| `GroupRounds.ReadErrorIsReported` | devices/mcumgr-client/agent/device/group.go:252-355 | a failed read is reported and changes nothing else, or it is repeated |
| `GroupRounds.ReadErrorIsRepeatedIff` | devices/mcumgr-client/agent/device/group.go:292-332 | it is repeated only for a member that confirms by itself |
| `GroupRounds.OpErrorIsReported` | devices/mcumgr-client/agent/device/group.go:252-355 | a failed operation is reported, and the recorded image stays unless a rollback had come to its reset |
| `HttpReader.HttpUpdateReader.Read` | devices/linux-client/download/http_reader.go:23-59 | whatever the network does over time: the buffer holds the image from the old offset to the new one, and how far that is and which error ends the read follows from what each attempt brings; the count is the distance if and only if range support is not withdrawn from a read that was resumed after some bytes came, and otherwise it is that of the last attempt alone; the read goes on only after a connection that broke or a request without an answer, ends for want of ranges only on a response that offers none, and gives up only after all attempts |
| `HttpReader.HttpUpdateReader.Retry` | devices/linux-client/download/http_reader.go:36-55 | one attempt to resume: no response, a refusal of ranges, or bytes behind those that came before |
| `HttpReader.Reading.CountIsRightIff` | devices/linux-client/download/http_reader.go:43-58 | the condition under which the count that is returned is right, in terms of the attempts alone |
| `HttpReader.Reading.LastIsAllIff` | devices/linux-client/download/http_reader.go:49-50 | the last attempt brings less than all exactly if some bytes came before and the read went on from there |
| `HttpReader.Reading.WhyResumed` | devices/linux-client/download/http_reader.go:27-56 | why each attempt was followed by another one |
| `HttpReader.Reading.WhyEnded` | devices/linux-client/download/http_reader.go:27-58 | why the last attempt was the last one |
| `HttpReader.ShortCount` | devices/linux-client/download/http_reader.go:45-47 | a read of which two bytes came and one is reported |
| `HttpReader.HttpUpdateReader.ReadBody` | devices/linux-client/download/http_reader.go:25-26 | what arrives goes behind what was already filled in, and the offset follows |
| `HttpReader.Connect` | devices/linux-client/download/http_reader.go:82-108 | a body starts at the requested offset, if the request is answered and the offset is below the end |
| `HttpReader.ReadMany` | devices/linux-client/download/http_reader.go:23-59 | successive reads concatenate to the image with nothing lost or repeated; without faults, and with reads enough, they reach its end |
| `CachedFetcher.Sessions` | devices/linux-client/download/cached_fetcher.go:85-149 | over any number of sessions, each with a network of its own and interrupted anywhere: the cache file is a prefix of the image and never shrinks; each session presents the image from its first byte, and the cache keeps all of it; an undisturbed session presents the whole image if and only if the cache was not complete before, and leaves the cache complete |
| `CachedFetcher.Session` | devices/linux-client/download/cached_fetcher.go:85-149 | a session presents a prefix of the image, and a caching one keeps all of it; what the cache held is presented if the server answers and there are reads enough; an undisturbed session completes if and only if the image is not empty and no complete cache is in use |
| `CachedFetcher.Drain` | devices/linux-client/download/cached_fetcher.go:57-83 | reading a stream gives what the cache held, then the rest; without faults it ends with the whole image, and so does the cache |
| `CachedFetcher.DownloadTwice` | devices/linux-client/download/cached_fetcher.go:85-149 | two downloads over a healthy network: the first one completes and fills the cache, the second one fails because of that |
| `CachedFetcher.FetchAndCacheUpdate` | devices/linux-client/download/cached_fetcher.go:85-149 | if the server answers, fails exactly for an empty image and for a complete cache file in use; otherwise opens a stream on the cache if the file exists and a caching one if not, with the whole image size, and leaves the contents alone |
| `CachedFetcher.UpdateStream.Read` | devices/linux-client/download/cached_fetcher.go:57-77 | presents the image without a gap across the change from the first part to the network; the change takes place exactly when the first part has nothing left |
| `CachedFetcher.UpdateStream.ReadImage` | devices/linux-client/download/cached_fetcher.go:63-77 | what comes from the network goes to the consumer and to the end of the cache file |
| `CachedFetcher.ReadHeader` | devices/linux-client/download/cached_fetcher.go:99-104 | what the header reading consumed is saved in full, whatever error ended it |
| `CachedFetcher.ReadSaver.Read` | devices/linux-client/download/cached_fetcher.go:39-51 | gives the saved bytes back in order, and ends exactly when all are given |
| `CachedFetcher.ReadSaver.Write` | devices/linux-client/download/cached_fetcher.go:34-37 | appends to the saved bytes |
| `GroupsDb.AlwaysGood` | server/src/database/groups.py:100-289 | after every serial sequence of operations the groups of each device have pairwise distinct priorities and no assignment dangles |
| `GroupsDb.Database.ModifyAssignment` | server/src/database/groups.py:100-184 | rejected exactly if there are additions to a group that does not exist, or a device to be added is in a group of its priority, unknown or listed twice, and then the assignment is unchanged; otherwise a device is in the group exactly if it was or is added, and is not removed, and no other assignment changes |
| `GroupsDb.Database.InsertRows` | server/src/database/groups.py:160-163 | the transaction goes through exactly if all devices exist and none is listed twice |
| `GroupsDb.Database.UpdatePriority` | server/src/database/groups.py:248-289 | rejected exactly if a device of the group is in another group of that priority, and then nothing changes; otherwise the group has the new priority and no other one changes |
| `GroupsDb.Database.Create` | server/src/database/groups.py:31-44 | adds a group of that priority under an unused identifier, and changes no other |
| `GroupsDb.Database.Delete` | server/src/database/groups.py:71-98 | fails, with nothing changed, exactly if the group has devices or packages; otherwise just that group is gone |
| `GroupsDb.Database.DeleteDevice` | server/src/database/devices.py:114-138 | removes the device and just its assignments |
| `GroupsDb.Database.FetchGroups` | server/src/database/devices.py:53-63 | exactly the groups of the device |
| `GroupsDb.Database.FetchActiveGroup` | server/src/database/devices.py:65-78 | the one group of strictly least priority among those of the device, or None if it has none |
| `GroupsDb.ApplyKeepsGood` | server/src/database/groups.py:71-289 | each operation keeps priorities distinct and references intact |
| `GroupsDb.AssignKeepsGood` | server/src/database/groups.py:140-181 | so does a change of assignment that passes the queries |
| `GroupsDb.PriorityKeepsGood` | server/src/database/groups.py:260-289 | so does a change of priority that passes the queries |
| `Multipart.Transfer` | server/src/device_mgmt/fs.py:45-69 | for every file up to 5 TiB and every desired part size the device sends exactly as many pieces as there are parts, none empty unless the file is, and the server ends up with the file |
| `Multipart.PartsFit` | server/src/storage/common.py:1-28 | rejected exactly above 5 TiB; from 1 byte on 1..10000 parts of at most 5 GiB, at least 5 MiB if there are several, with (count-1)*size < upload <= count*size |
| `Multipart.PartSizeIsBest` | server/src/storage/common.py:10-28 | the parts have the desired size, or 5 MiB if it is less and 5 GiB if it is more, if 10000 of them suffice, and the least possible size if not; an upload no larger than that is one part |
| `Multipart.SendFile` | devices/linux-client/daemon/device.go:190-211 | succeeds exactly if the file does not end before the last piece; the stored pieces are the file, in order |
| `Multipart.MultipartUploader.GenerateUrls` | server/src/storage/local.py:109-132 | one place per part, in order |
| `Multipart.MultipartUploader.CompleteUpload` | server/src/storage/local.py:134-147 | joins all parts in order exactly if the etags are those of all parts in order, and does nothing otherwise |
| `Multipart.CeilDivBounds` | server/src/storage/common.py:15-16 | the quotient is the least number of parts that suffice |
| `SingleFile.RoundTrip` | devices/linux-client/handlers/single_file.go:77-95 | reading the payloads the tool writes, in its order, restores directory, name, mode and rollback flag up to surrounding white space; the content is installed exactly if the name has none and the directory is not blank |
| `SingleFile.WriteSingleFile` | tools/rdfm-artifact/cli/write_file.go:81-149 | refuses exactly the four reserved names; otherwise directory, name, mode and rollback flag in this order under these names, each on a line, then the file |
| `SingleFile.UpdateThenDecide` | devices/linux-client/handlers/single_file.go:109-191 | for every source: update, save, restore in a new run, then commit, or roll back if the artifact supports it: the new content or the old one, the mode of the source for a new file and the old mode for an existing one, no backup left, nothing else changed; an update that was dropped changes nothing, but to roll it back empties the file |
| `SingleFile.UpdateAndSave` | devices/linux-client/handlers/single_file.go:77-180 | an update leaves the new content and the backup it asks for, or is dropped, and its settings are in the store |
| `SingleFile.RollbackRestoresIff` | devices/linux-client/handlers/single_file.go:118-172 | a rollback restores the files as they were exactly if the file existed and none had the name of the backup |
| `SingleFile.RollbackUndoes` | devices/linux-client/handlers/single_file.go:118-172 | a rollback gives the old content back (none, if the file did not exist) and removes the backup |
| `SingleFile.SingleFileUpdater.StoreUpdate` | devices/linux-client/handlers/single_file.go:77-95 | one payload changes the setting it is named after, or the file |
| `SingleFile.SingleFileUpdater.UpdateFile` | devices/linux-client/handlers/single_file.go:137-172 | fails exactly for an empty directory; otherwise backs up if asked to and overwrites |
| `SingleFile.SingleFileUpdater.Rollback` | devices/linux-client/handlers/single_file.go:118-129 | overwrites the file with the backup and removes that; without a backup the file is emptied and an error reported |
| `SingleFile.SingleFileUpdater.CommitUpdate` | devices/linux-client/handlers/single_file.go:109-112 | removes the backup and nothing else |
| `SingleFile.SingleFileUpdater.RestoreState` | devices/linux-client/handlers/single_file.go:182-191 | gives back what was saved, once |
| `SingleFile.ModeSurvives` | tools/rdfm-artifact/cli/write_file.go:62-71 | the mode that is printed is read back, the greatest one below 2^31 for any above, and 0644 for an unknown one |
| `PayloadText.OctalRoundTrip` | devices/linux-client/handlers/single_file.go:84-85 | printing and parsing a mode gives it back exactly if it is below 2^31, and the greatest such number otherwise |
| `PayloadText.TrimFixes` | devices/linux-client/handlers/single_file.go:131-135 | trimming leaves exactly the strings without surrounding white space as they are |
| `PayloadText.TrimMeans` | devices/linux-client/handlers/single_file.go:131-135 | trimming takes white space away at both ends, and all of it |
| `PayloadText.SpacesAre` | devices/linux-client/handlers/single_file.go:131-135 | of the characters below 128 the blank and the five from tab to carriage return are white space |
| `PayloadText.TrimLine` | tools/rdfm-artifact/cli/write_file.go:139-139 | the line end that the tool adds is trimmed away again |
| `RingBuffer.Conservation` | devices/linux-client/telemetry/ring_buffer.go:18-27 | under every interleaving each item is in exactly one of consumed, discarded, buffered or in hand; items are consumed in order; everything discarded is older than everything then buffered |
| `RingBuffer.KeepsLatest` | devices/linux-client/telemetry/ring_buffer.go:18-27 | while nothing is consumed the buffer holds the latest items up to its capacity |
| `RingBuffer.StuckIff` | devices/linux-client/telemetry/ring_buffer.go:20-25 | the goroutine and the consumer block for good exactly if the buffer was emptied between the failed send and the attempt to take an item back |
| `RingBuffer.QuickConsumerBlocks` | devices/linux-client/telemetry/ring_buffer.go:20-25 | from every state in which a send has just failed, a consumer that reads the buffer empty blocks both |
| `RingBuffer.BlockingIsReachable` | devices/linux-client/telemetry/ring_buffer.go:18-27 | a complete run that ends blocked |

## Left out

- GroupUpdate: the goroutines are steps on immutable states; updates in place, sessions, channels and the sharing of transports are not modelled, and neither are the check for missing images up front, devices with more than two slots, and a second update of the same group.
- GroupUpdate.UpdatedMeans: does not claim that a member that slipped back runs its image at once, because the confirmation then asks for a swap at the next reset.
- ActionPipeline: the loops are steps on immutable states; the mutexes appear only as the span from a file step to its memory step, and values that cannot be deserialized are not modelled.
- CachedFetcher.UpdateStream: stands for the combined and the tee readers together, in the two ways they are put together; the reader interfaces as such are not modelled.
- FileStore.FileStore.Enqueue: whether a blocked call gets its slot or is cancelled is a parameter; so it is for the other blocking calls.
- FileStore.FileStore.Reload: files the store did not create, in particular negative or unparsable names, are not modelled.
- BlockDevice.BlockDeviceWriter.Close: the spurious frame that an empty tail adds to the counters is not stated.
- BlockDevice.BlockDeviceWriter.Write: is not called again after an error.
- HttpReader.Connect: does not model a server that ignores the range and sends the image from its start, nor redirects and headers.
- CachedFetcher.FetchAndCacheUpdate: the header hash that names the cache file is taken to identify the image, also when the header could not be read.
- Digraph.MultiDiGraph.ShortestPath: stands for the graph library; which of several shortest paths that one takes is left open, and no theorem depends on it.
- Multipart.SendFile: a request that fails, and the answer status of the storage, are not modelled.
- SingleFile.RoundTrip: file contents are strings, paths are pairs of directory and name that are not normalized, and the umask is ignored.
- RingBuffer: an unbuffered output channel, with which every dropped item would block, is not considered beyond the safety theorems.
- Transports, WebSocket, Kafka, Redis, S3, JWT, delta formats, shells and the user interfaces: library plumbing.
- Policies other than the two that exist, permissions, tags, logs and timestamps in the database: they would only add easy members.
- Retry delays, logging and progress reports.
