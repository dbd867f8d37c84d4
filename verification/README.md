# Verified model of the AdaptiveCpp runtime core

This Dafny project models the parts of the AdaptiveCpp runtime in which correctness depends on
shortcuts, and proves that the shortcuts are right.

- **Dependency graph** (`Geometry`, `Dag`, `DagPaths`, `Builder`, `BuilderProofs`, `PageConflicts`,
  `Schedule`, `Serial`, `DagBuilder`, `EdgeOrder`): command groups become nodes with requirement edges;
  the lists of data users are thinned out, edges that are already provided are skipped and weaker ones
  erased. On one shared memory the result of every run is the one of executing the command groups in
  submission order (SYCL 2020 specification, sections 3.8.1 and 3.7.1.2).
- **Multi-lane submission** (`Lanes`, `LanesProofs`, `LaneWaits`, `LaneExecutor`, `LaneOrder`): in-order
  queues on several backends, most waits left out. Every run refines the graph, no run deadlocks, and the
  lanes add no order of their own.
- **Transfers in the graph** (`TransferOrder`, `UnorderedReads`): in every run a transfer comes after the
  commands that wrote what it copies and before those that overwrite it; exactly which older nodes a new
  command and its transfers wait for.
- **Page coherence** (`RangeStore`, `PageElements`, `Coherence`, `CoherenceCases`, `DataRegion`): page
  tables per device, the greedy 3D rectangle decomposition, transfers and marking. With transfers and
  kernels acting in submission order, valid copies agree in every run.
- **Device copies** (`DeviceCopies`, `CopyRaces`, `StaleRead`): graph, lanes and page tables together.
  With a copy per device, and transfers acting when their nodes complete, every operation sees the
  contents of submission order exactly when every reader reaches the transfers that feed it.
- **Hash table** (`RobinHood`, `RobinTable`): robin-hood buckets over dense values with backward-shift
  deletion, refining a mathematical map.
- **Allocation map** (`AllocTree`, `AllocLookup`, `AllocMap`, `AllocThreads`, `AllocThreadsProofs`,
  `AllocLinear`, `AllocProgress`, `AllocSameAddress`, `NoAlias`): the 16-way radix tree, its predecessor
  search, its concurrent use under the counter lock, and the noalias inference that consults it.
- **HCF container** (`HcfText`, `HcfParse`, `HcfAccounts`, `HcfContainer`, `HcfBinary`) and **argument
  statistics** (`ArgStats`, `ArgHistory`, `ArgFlags`).

How the model reads the sources:

- Code that updates objects in place is a class with loops (`RequirementDag`, `Executor`, `Store`,
  `BufferRegion`, `Table`, `AllocationMap`, `KernelArg`, `Container`). Each method is proved against a
  function or relation on values, and the laws are lemmas about those.
- Whole runs are sequences of events of a step system; the choice of lane, of the thread that steps, of
  the order of completion and of search depths is arbitrary.
- A weak pointer may expire only when its node is complete. Completion, polling, waiting and expiry are
  separate events. Submissions are serialised (src/runtime/dag_manager.cpp:67).
- Nodes are numbered in the order in which they are built, fresh memory requirements of a command group
  before its operation node.
- Thresholds are real numbers and hash functions, kernels and page sizes are parameters.

Some promises hold only under conditions, which are proved to be exact and come with concrete failures:

- Every edge of the graph leads to an earlier-built node, unless the list walked at
  src/runtime/dag_builder.cpp:196 contains an older memory requirement with a conflicting user that is not
  older than itself (`EdgeOrder.EarlierOnlyIff`, `SecondHostWriteRequiresItself`). Such an edge closes a
  cycle in some cases and not in others (`UpwardEdgeWithoutCycle`).
- A data requirement keeps copies coherent exactly when every stale page it marks valid was brought by its
  one executed transfer, is covered by a discarding access, or is held by nobody
  (`Coherence.SafeIffCoherent`, `CoherenceCases`).
- Reads do not conflict, so a reading command waits for the transfer of another read exactly when some
  tracked writer, or a dependency, leads there (`UnorderedReads.FollowsIff`, `TransferFollowsIff`, and for
  lanes `LaneOrder.LanesOrderIffReached`). Otherwise it may run before the copy it reads, or copies from,
  is filled. A program keeps its sequential results on device copies exactly when this never happens
  (`CopyRaces.SequentialIffReached`, with the failing program `StaleRead.SecondReadSeesStale`).
- Concurrent operations on the allocation map linearise, and leave exact counts, exactly when no two
  threads insert at the same address (`AllocSameAddress.LinearisesIffDistinct`,
  `OverlappingInsertsDoubleCount`).
- A container survives serialisation exactly when its tree is good (`HcfContainer.RoundTripIff`), an
  attached binary is found again exactly when its node is not itself named `__binary` or describes the
  same bytes (`HcfBinary.AttachedFoundIff`), and a list of attachments survives exactly when none goes to
  a descriptor or inside one (`HcfBinary.AttachmentsSurviveIff`).

`dafny verify dfyconfig.toml` checks the whole project.

## Model

| member | source | states |
|---|---|---|
| `Dag.FindSound` | src/runtime/dag_node.cpp:150-171 | A bounded search that reports a node is right: the node is the start or reachable from it over live requirements, for every depth. |
| `Dag.FindDependencySound` | src/runtime/dag_builder.cpp:32-49 | The same for the builder's own search below a node. |
| `Dag.Prune` | src/runtime/dag_node.cpp:204-216 | Exactly the live entries that the new requirement does not reach survive, in both directions. |
| `Dag.PruneKeepsOrder` | src/runtime/dag_node.cpp:204-216 | The surviving entries keep their order in the list. |
| `Dag.AddReqEarlierOnly` | src/runtime/dag_node.cpp:177-219 | With a requirement built earlier than the node, pruned and plain insertion both keep every edge leading to an earlier-built node. |
| `Dag.NoCycle` | src/runtime/dag_builder.cpp:188-190 | When every edge leads to an earlier-built node, no node requires itself, directly or through others. |
| `Dag.AddReqRefinesPlainInsert` | src/runtime/dag_node.cpp:177-219 | Skipping a provided edge and erasing weaker ones changes nothing: for every search depth, exactly the same nodes are reachable from every node as after simply appending the edge. |
| `Dag.AddReqGains` | src/runtime/dag_node.cpp:177-219 | Afterwards the requirement is reachable from the node, and whatever was reachable from anywhere still is. |
| `Dag.DoneReaches` | src/runtime/dag_node.cpp:228-247 | When completed work is closed under requirements, everything a completed node reaches is complete. |
| `Dag.ExpiryKeepsReach` | src/runtime/dag_node.cpp:162-169 | Expiry of weak pointers to completed nodes only removes paths that lead to completed nodes. |
| `Dag.MarkCompleteSound` | src/runtime/dag_node.cpp:228-247 | The recursive marking after a wait sets the completion flag on completed nodes only. |
| `DagPaths.FindIff` | src/runtime/dag_node.cpp:150-171 | The bounded search reports a node if and only if a path of at most that many steps, over live nodes not known to be complete, leads there. |
| `DagPaths.AddReqByPaths` | src/runtime/dag_node.cpp:177-219 | Adding a requirement entry by entry: nothing changes if a live entry provides it within the search depth; otherwise exactly the expired entries and those within the search depth of the requirement go, the others stay in order, and the requirement comes last. |
| `DagPaths.MarkCompleteIff` | src/runtime/dag_node.cpp:228-247 | After a wait a node is known to be complete if and only if it was before, or a path over live nodes not known before leads to it from the node waited for. |
| `Geometry.CoverIsPageCover` | src/runtime/dag_builder.cpp:65-77 | If the element range of the new user encloses that of the old user, its pages enclose the old user's pages. |
| `Geometry.SharedPageOverlaps` | include/hipSYCL/runtime/operations.hpp:191-195 | Two accesses that touch a common page are reported as intersecting. |
| `Geometry.OverlapSharesPage` | include/hipSYCL/runtime/operations.hpp:297-313 | Two non-empty page ranges reported as intersecting really share a page. |
| `Geometry.TouchesIffElement` | include/hipSYCL/runtime/data.hpp:474-494 | The pages of a non-empty access are exactly the pages of its elements. |
| `Builder.KeptUsers` | src/runtime/dag_builder.cpp:65-102 | A tracked user is kept exactly when the new user does not replace it. |
| `Builder.KeptUsersInOrder` | include/hipSYCL/runtime/data.hpp:240-254 | The kept users keep their order. |
| `Builder.LiveUsers` | src/runtime/data.cpp:60-71 | Exactly the users whose node is neither expired nor known to be complete stay tracked. |
| `Builder.LiveUsersInOrder` | src/runtime/data.cpp:60-71 | The users that stay keep their order. |
| `PageConflicts.TrackedAfterwards` | src/runtime/dag_builder.cpp:53-118 | User by user: the new user is tracked last, and an older one is dropped if and only if the new access contains all its elements and either writes, or both read and the older user has expired or is at most two live requirement steps below the new node. |
| `PageConflicts.ConflictIffSharedPage` | src/runtime/dag_builder.cpp:263-272 | Non-empty accesses conflict if and only if they share a page and not both read. |
| `PageConflicts.NewestConflictFirst` | include/hipSYCL/runtime/data.hpp:223-234 | Two unrelated conflicting users are listed the younger before the older. |
| `BuilderProofs.AddConflictsReach` | src/runtime/dag_builder.cpp:154-181 | After the conflict loop the node reaches every conflicting, unfinished user, and no reachability between any two nodes is lost. |
| `BuilderProofs.WalkReach` | src/runtime/dag_builder.cpp:196-199 | The same for the walk over the requirement nodes of a command group. |
| `BuilderProofs.OldListsKept` | src/runtime/dag_builder.cpp:183-199 | Building a command group changes the requirement list of no older node, also when the walk visits older memory requirements whose conflicts are provided already. |
| `BuilderProofs.BuiltGraphSynced` | src/runtime/dag_builder.cpp:183-199 | The new operation node reaches every tracked user that conflicts with any of its accesses, unless that user is complete. |
| `BuilderProofs.AddUserKeepsCovered` | src/runtime/dag_builder.cpp:53-118 | Replacing users loses no tracking: every unfinished access still has a tracked user that covers its range, is at least as strong in mode, and is or reaches its node. |
| `BuilderProofs.AddUsersCovered` | src/runtime/dag_builder.cpp:120-131 | The same for all accesses of a command group, the new ones included. |
| `BuilderProofs.NewNodeReaches` | src/runtime/dag_builder.cpp:143-212 | The new node reaches every unfinished earlier command it clashes with, although most of them are no longer tracked themselves. |
| `BuilderProofs.BuildKeepsShape` | src/runtime/dag_builder.cpp:143-212 | Building keeps every edge leading to an earlier-built node and all bookkeeping consistent. |
| `BuilderProofs.BuildKeepsOrdered` | src/runtime/dag_builder.cpp:143-212 | After building, of any two clashing commands the later reaches the earlier or the earlier is complete. |
| `BuilderProofs.BuildKeepsInv` | src/runtime/dag_builder.cpp:143-212 | Building a command group keeps the whole run invariant. |
| `BuilderProofs.ExecuteKeepsInv` | src/runtime/dag_node.cpp:228-247 | Completing a node whose requirements are complete keeps clashing commands in submission order. |
| `BuilderProofs.ObserveKeepsInv` | src/runtime/dag_node.cpp:228-247 | Polling a node or waiting for it (with the recursive marking) keeps the invariant. |
| `BuilderProofs.ExpireKeepsInv` | src/runtime/dag_node.cpp:178-219 | Expiry of a completed node keeps the invariant. |
| `BuilderProofs.ReleaseKeepsInv` | src/runtime/data.cpp:60-71 | Dropping dead users keeps the invariant. |
| `BuilderProofs.RunKeepsInv` | src/runtime/dag_builder.cpp:143-212 | In every state of every run: edges lead to earlier-built nodes, every unfinished access covered by a tracked user, clashing commands ordered by the graph, and completed in submission order. |
| `PageConflicts.RequirementWaitsByPages` | src/runtime/dag_builder.cpp:154-199 | In every state of every run with non-empty accesses: the requirement node of a new access reaches an older node if and only if some live tracked user of the region, not known to be complete, shares a page with the access, not both read, and the user is or reaches that node. Commands on disjoint pages are not ordered. |
| `PageConflicts.CommandWaitsByPages` | src/runtime/dag_builder.cpp:154-199 | The same for the command and all its accesses, or a dependency that is or reaches the node. |
| `PageConflicts.SharedPagesInOrder` | src/runtime/dag_builder.cpp:143-212 | In every run commands that share a page of a region, not both reading it, complete in submission order. |
| `EdgeOrder.EarlierOnlyIff` | src/runtime/dag_builder.cpp:196-199 | Without the freshness precondition: after building, every edge leads to an earlier-built node if and only if the walked list holds no live older memory requirement that conflicts with an unfinished tracked user built no earlier than it. |
| `EdgeOrder.EarlierOnlyFromUsers` | src/runtime/dag_builder.cpp:188-199 | The condition in terms a caller can check before, the dependencies and the tracked users that conflict with the explicit access: sufficient for every group, and exact when the operation is not itself a requirement. |
| `EdgeOrder.ExplicitAfterRead` | src/runtime/dag_builder.cpp:188-199 | After an unfinished explicit read any explicit access can be built within the runs considered. |
| `EdgeOrder.SecondHostWriteRequiresItself` | src/runtime/dag_builder.cpp:186-199 | A concrete failure: two unfinished explicit write requirements on one page; after building the second, the first requires exactly itself. |
| `EdgeOrder.UpwardEdgeWithoutCycle` | src/runtime/dag_builder.cpp:196-199 | Such an edge need not close a cycle: a group depending on the first of two writes gives it an edge to the second, and nothing leads back. |
| `EdgeOrder.TwoWritesReached` | src/runtime/dag_builder.cpp:143-212 | The state of that example comes about from nothing: the first write is built, runs and is polled, then the second is built. |
| `Schedule.ValueIsLastWrite` | src/runtime/dag_builder.cpp:263-272 | The contents of a cell after any sequence of operations are those of the last operation that writes it, or the initial ones. |
| `Schedule.SameInputs` | src/runtime/dag_builder.cpp:143-212 | Every operation sees, in any order that keeps clashing operations in place, exactly the contents it sees in the given order. |
| `Schedule.SameValue` | src/runtime/dag_builder.cpp:143-212 | Cells with the same writers before two points of the two orders have the same contents there. |
| `Serial.PerformedRespects` | src/runtime/dag_builder.cpp:143-212 | The completion order of any run keeps clashing commands in submission order. |
| `Serial.RunIsSerialisable` | src/runtime/dag_builder.cpp:143-212 | On one shared memory, for every run of builder and any graph-respecting executor, each performed operation has the inputs of the sequential execution, and once all commands have run every page has its sequential contents. |
| `DagBuilder.RequirementDag.AddRequirement` | src/runtime/dag_node.cpp:177-219 | The in-place loops over the requirement list compute the specified pruned insertion. |
| `DagBuilder.RequirementDag.AddConflictsAsRequirements` | src/runtime/dag_builder.cpp:154-181 | The loop over the users, newest first, adds exactly the specified edges. |
| `DagBuilder.RequirementDag.AddToDataUsers` | include/hipSYCL/runtime/data.hpp:240-254 | The user list afterwards is the kept users followed by the new one. |
| `DagBuilder.RequirementDag.BuildNode` | src/runtime/dag_builder.cpp:143-212 | The object after build_node holds the specified graph, accesses, users and history. |
| `DagBuilder.RequirementDag.AddCommandGroup` | src/runtime/dag_builder.cpp:214-227 | Adding a command group keeps the run invariant: edges to earlier-built nodes only, every unfinished access tracked, clashing commands ordered. |
| `DagBuilder.RequirementDag.ReleaseDead` | src/runtime/data.cpp:60-71 | The clean-up loop leaves exactly the live users. |
| `Lanes.Compressed` | src/runtime/dag_direct_scheduler.cpp:200-213 | The list handed to the executor holds exactly the collected requirements that are not known to be complete, each once. |
| `Lanes.MaxIndex` | src/runtime/inorder_executor.cpp:57-70 | The result bounds the execution indices of all requirements on the lane and is attained when positive. |
| `Lanes.Waits` | src/runtime/inorder_executor.cpp:107-166 | Exactly the requirements that need one get a wait entry; LaneWaits.SubmissionWaits says which these are. |
| `LaneWaits.SubmissionWaits` | src/runtime/inorder_executor.cpp:107-166 | The queue after a submission: the old entries, one wait for each awaited node, the operation. Awaited is exactly each listed requirement on another lane that was not seen complete and is of another backend or has the last queue position of those listed on its lane. |
| `LaneWaits.OneWaitPerLane` | src/runtime/inorder_executor.cpp:137-157 | At most one wait per other lane of the same backend. |
| `LaneWaits.RequirementsIff` | src/runtime/dag_node.cpp:254-269 | The requirements considered are exactly the live non-virtual nodes at the ends of chains of live virtual ones not known to be complete, unless known to be complete themselves. |
| `LanesProofs.WaitTarget` | src/runtime/inorder_executor.cpp:137-157 | A requirement without its own wait is followed on its lane by one that has a wait. |
| `LanesProofs.WaitsGuard` | src/runtime/inorder_executor.cpp:109-166 | After the submitted waits, reaching the operation implies that every listed requirement is complete, although same-lane, non-maximal and known-complete waits were left out. |
| `LanesProofs.CollectedGuards` | src/runtime/dag_node.cpp:254-269 | The same for every direct requirement, through any depth of virtual requirements replaced by their own requirements. |
| `LanesProofs.GuardedAtHead` | src/runtime/inorder_executor.cpp:128-130 | When a lane has processed everything before a position, all nodes guarded there are complete. |
| `LanesProofs.RunIsEnabled` | src/runtime/inorder_executor.cpp:168-185 | A lane only runs an operation whose requirements are all complete. |
| `LanesProofs.SettleFacts` | src/runtime/dag_node.cpp:72-83 | Virtual nodes complete with their requirements, and nothing else does. |
| `LanesProofs.SysStepKeepsInv` | src/runtime/inorder_executor.cpp:91-186 | Submission, virtual submission, lane steps and host events all keep the system invariant. |
| `LanesProofs.SysRunRefines` | src/runtime/inorder_executor.cpp:91-186 | Every run of host, scheduler and lanes is a run of the graph-respecting executor. |
| `LanesProofs.RunAfterRequirements` | src/runtime/inorder_executor.cpp:91-186 | Multi-lane safety: in every reachable state, when a lane runs a node, all nodes it transitively requires are complete. |
| `LanesProofs.LanesAreSerialisable` | src/runtime/dag_direct_scheduler.cpp:200-221 | On one shared memory: whatever the lane choices and interleavings, operations see the inputs of sequential execution and pages end with its contents. |
| `LanesProofs.SomeLaneCanStep` | src/runtime/inorder_executor.cpp:109-166 | No deadlock: while any lane has an unprocessed entry, some lane can step. |
| `LanesProofs.StuckIsFinished` | src/runtime/inorder_executor.cpp:91-186 | When no lane can step, every submitted node is complete, virtually submitted ones included. |
| `LanesProofs.DrainFinishes` | src/runtime/inorder_executor.cpp:91-186 | Every schedule of the lanes has at most as many steps as unprocessed entries, and when it cannot go on all submitted nodes are complete, virtual ones included. |
| `LanesProofs.RunsNeverDeadlock` | src/runtime/inorder_executor.cpp:91-186 | In every reachable state of every run: while a submitted node is unfinished some lane can step, and every way of letting the lanes go on ends with all submitted nodes complete. |
| `LaneExecutor.Executor.MaximumExecutionIndexForLane` | src/runtime/inorder_executor.cpp:57-70 | The loop computes the specified maximum. |
| `LaneExecutor.Executor.Synchronize` | src/runtime/inorder_executor.cpp:114-159 | One requirement leads to exactly the specified wait entry or none. |
| `LaneExecutor.Executor.SubmitToLane` | src/runtime/inorder_executor.cpp:91-186 | The executor's fields change exactly as the specified submission. |
| `LaneExecutor.Executor.CollectNonVirtual` | src/runtime/dag_node.cpp:254-269 | The recursive traversal hands over the requirements in the specified order, those of virtual ones in their place. |
| `LaneExecutor.Executor.Submit` | src/runtime/dag_direct_scheduler.cpp:200-221 | Collecting, deduplicating and compressing the requirements in loops and submitting gives the specified state. |
| `TransferOrder.TransfersAreOrdered` | src/runtime/dag_builder.cpp:183-212 | In every run the requirement node that carries the transfers of a command completes after every earlier command that clashes with its access, and before every later clashing command and its requirement nodes. |
| `TransferOrder.LaneTransfersAreOrdered` | src/runtime/dag_direct_scheduler.cpp:200-221 | The same in every run on lanes: a transfer runs after the kernel that wrote what it copies and before the kernel that overwrites it. |
| `TransferOrder.RefillWaits` | src/runtime/dag_direct_scheduler.cpp:129-158 | A transfer runs before a later one that refills a copy, when a command between the two writes pages of both. |
| `TransferOrder.OrderedIffReached` | src/runtime/dag_builder.cpp:183-212 | In every continuation of a run a node completes after another one if and only if that one is complete already or reachable from it in the graph. |
| `UnorderedReads.CommandReachesIff` | src/runtime/dag_builder.cpp:154-199 | A new command reaches an older node if and only if one of its accesses conflicts with a live tracked user that is or reaches that node, or one of its dependencies is or reaches it. |
| `UnorderedReads.FollowsIff` | src/runtime/dag_builder.cpp:154-199 | That condition, checked before building, is exactly when the command completes after the node in every continuation. |
| `UnorderedReads.TransferFollowsIff` | src/runtime/dag_builder.cpp:154-199 | The exact condition for the transfers of a new command to run after an unfinished older node, such as an earlier transfer: a conflicting user is or reaches it. |
| `UnorderedReads.ReadersDoNotWait` | src/runtime/dag_builder.cpp:263-272 | A reading command and its transfers need not wait for any unfinished node younger than the tracked writers, so not for the transfers of other readers. |
| `UnorderedReads.SecondReadRunsEarly` | src/runtime/dag_builder.cpp:263-272 | A concrete program on lanes, whichever other nodes are virtual: after a write and a read, the transfer and the command of a second read may complete before the transfer of the first. |
| `LaneOrder.LanesOrderIffReached` | src/runtime/inorder_executor.cpp:91-186 | The lanes add no order: when built nodes are submitted in turn, some virtually and the others to any lanes, a node completes after one that is on a lane in all courses if and only if it reaches it in the graph. |
| `DeviceCopies.WriterComesLater` | src/runtime/dag_direct_scheduler.cpp:223-332 | On device copies, in every run: a copy of a page is written, by a kernel or a transfer, only after all earlier readers and writers of that copy, although reads are not ordered and invalidated copies are not tracked by the graph. |
| `DeviceCopies.ReaderFollowsKernel` | src/runtime/dag_direct_scheduler.cpp:223-332 | What a kernel wrote to a copy is read, by kernels and transfers, only after the kernel. |
| `DeviceCopies.LaneCopiesAreSerialisable` | src/runtime/dag_direct_scheduler.cpp:223-332 | With a copy per device and transfers acting when their nodes complete: in every run on lanes in which transfers precede the readers they feed, every transfer and kernel sees the contents of submission order, and all copies end with them. |
| `CopyRaces.SequentiallyCurrent` | include/hipSYCL/runtime/data.hpp:497-527 | In submission order every copy of a page that the tables call valid holds what the last kernel wrote to the page, unless the current command is about to overwrite it. |
| `CopyRaces.EarlyReaderSeesStale` | src/runtime/dag_direct_scheduler.cpp:129-158 | In every run in which a reader completes before the transfer that feeds it, there are contents for which the reader sees something else than in submission order. |
| `CopyRaces.SequentialIffReached` | src/runtime/dag_builder.cpp:143-212 | For every list of command groups, page tables and protocol decisions: all transfers and kernels see the contents of submission order, on all lanes and in all their courses, if and only if every reader reaches in the graph each transfer that feeds it. |
| `StaleRead.SecondReadSeesStale` | src/runtime/dag_direct_scheduler.cpp:316-322 | A concrete program that fails: a write on one device and two reads on another; the second read can see stale contents. |
| `RobinHood.StopMeansAbsent` | include/hipSYCL/common/unordered_dense.hpp:1118-1156 | When a probe sequence meets a smaller bucket, no bucket of the table refers to the key. |
| `RobinHood.HasEmpty` | include/hipSYCL/common/unordered_dense.hpp:957-981 | With fewer live values than buckets some bucket is empty, so every probe loop ends. |
| `RobinHood.PlacedHolds` | include/hipSYCL/common/unordered_dense.hpp:919-926 | Placing a bucket and shifting up keeps the table invariant: ordered by home and fingerprint, each live value index in exactly one bucket. |
| `RobinHood.NoFullRound` | include/hipSYCL/common/unordered_dense.hpp:919-926 | Shifting up never travels once round the table. |
| `RobinHood.RemovedHolds` | include/hipSYCL/common/unordered_dense.hpp:1014-1024 | The backward shift keeps the table invariant, with exactly the erased index gone. |
| `RobinTable.SwapRemoveMap` | include/hipSYCL/common/unordered_dense.hpp:1027-1043 | Moving the last value into the erased slot removes exactly the erased key from the map. |
| `RobinTable.RedirectHolds` | include/hipSYCL/common/unordered_dense.hpp:1033-1042 | Redirecting the bucket of the moved value restores the table invariant. |
| `RobinTable.Table.Find` | include/hipSYCL/common/unordered_dense.hpp:1118-1156 | do_find returns the position of the stored value of the key, or end exactly when the key is absent. |
| `RobinTable.Table.NextWhileLess` | include/hipSYCL/common/unordered_dense.hpp:906-917 | Stops at the first bucket not exceeding the probe; all earlier ones exceed it. |
| `RobinTable.Table.PlaceAndShiftUp` | include/hipSYCL/common/unordered_dense.hpp:919-926 | The bucket array afterwards is the specified shifted one. |
| `RobinTable.Table.FillBuckets` | include/hipSYCL/common/unordered_dense.hpp:989-999 | Refilling an empty bucket array indexes all values. |
| `RobinTable.Table.IncreaseSize` | include/hipSYCL/common/unordered_dense.hpp:1001-1011 | Twice the buckets, all values indexed again. |
| `RobinTable.Table.GrowthFits` | include/hipSYCL/common/unordered_dense.hpp:971-981 | One doubling makes enough room and stays within the supported bucket counts. |
| `RobinTable.Table.TryEmplace` | include/hipSYCL/common/unordered_dense.hpp:1094-1116 | Inserts exactly when the key was absent; the map gains that pair and nothing else changes. The buckets double exactly when the values exceed four fifths of them. |
| `RobinTable.Table.SinkBuckets` | include/hipSYCL/common/unordered_dense.hpp:1014-1024 | The in-place backward shift computes the specified array. |
| `RobinTable.Table.FindBucketOfLast` | include/hipSYCL/common/unordered_dense.hpp:1033-1040 | The search by value index ends at the bucket of the last value. |
| `RobinTable.Table.DoErase` | include/hipSYCL/common/unordered_dense.hpp:1013-1044 | Afterwards the values are the swapped list and all of them are indexed. |
| `RobinTable.Table.EraseKey` | include/hipSYCL/common/unordered_dense.hpp:1046-1065 | Returns 1 exactly for a present key, and the map loses that key and nothing else. |
| `RobinTable.Table.DistancesFit` | include/hipSYCL/common/unordered_dense.hpp:864-870 | Stored distances stay below the bucket count, so the packed 32-bit field never wraps. |
| `RobinTable.Table.BucketFields` | include/hipSYCL/common/unordered_dense.hpp:864-870 | A used bucket stores the distance from the home that the upper bits of its key's hash determine, plus one, and the low byte of the hash. |
| `RobinTable.Replay` | include/hipSYCL/common/unordered_dense.hpp:1046-1156 | After any history of insertions and erasures, however long, that never holds more values than the largest bucket array admits, the table equals the mathematical map of that history. |
| `RangeStore.IndexInjective` | include/hipSYCL/runtime/data.hpp:189-192 | Different pages have different slots. |
| `RangeStore.Store.Assign` | include/hipSYCL/runtime/data.hpp:145-161 | The triple loop sets exactly the cells of the rectangle. |
| `RangeStore.Store.Add` | src/runtime/data.cpp:77-83 | Exactly the cells of the rectangle become available, all others keep their state. |
| `RangeStore.Store.Remove` | src/runtime/data.cpp:85-91 | Exactly the cells of the rectangle become empty. |
| `RangeStore.Store.EntireRangeEquals` | src/runtime/data.cpp:142-158 | True if and only if every cell of the range has the state. |
| `RangeStore.Store.FindZSize` | include/hipSYCL/runtime/data.hpp:130-143 | The length of the longest run of selected cells. |
| `RangeStore.Store.FindYSize` | include/hipSYCL/runtime/data.hpp:113-128 | The number of consecutive rows with exactly that run. |
| `RangeStore.Store.FindXSize` | include/hipSYCL/runtime/data.hpp:95-111 | The largest number of consecutive surfaces that all have exactly that shape, at least one. |
| `RangeStore.Store.FindMaxExtent` | include/hipSYCL/runtime/data.hpp:71-93 | A non-empty rectangle of selected cells within the search range, grown in z, then y, then x direction, each as far as it goes. |
| `RangeStore.Store.IntersectionsWith` | src/runtime/data.cpp:96-140 | An exact partition into non-empty, pairwise disjoint rectangles, for any 3D size and contents. Each starts at the first cell in x, y, z order that the earlier ones leave over, and extends as far as possible over such cells in z, then y, then x direction; a query wholly in the desired state is one rectangle. |
| `PageElements.PageRoundTrip` | include/hipSYCL/runtime/data.hpp:550-567 | A rectangle of pages scaled to elements and clamped to the buffer maps back to the same pages under get_page_range. |
| `PageElements.CopyCoversPages` | include/hipSYCL/runtime/data.hpp:550-567 | The clamped element rectangle holds exactly the existing elements of its pages. |
| `PageElements.AccessPagesExist` | include/hipSYCL/runtime/data.hpp:474-494 | All pages of an access inside the buffer exist in the page table. |
| `PageElements.PageHasElement` | include/hipSYCL/runtime/data.hpp:390-399 | Every page of the table has an element, the last one included. |
| `Coherence.NoMixedPages` | src/runtime/dag_direct_scheduler.cpp:110-160 | A non-discarding requirement that finds its sources accesses no page that nobody holds next to pages that somebody holds. |
| `Coherence.CopyBringsLatest` | src/runtime/dag_direct_scheduler.cpp:129-158 | The executed transfer brings the latest contents of exactly the pages of the first outdated rectangle; nothing else in the target copy changes. |
| `Coherence.RequirementBringsLatest` | src/runtime/dag_direct_scheduler.cpp:223-332 | After a safe access that does not discard, every accessed element that somebody held has its latest contents on the target. |
| `Coherence.ModesBringLatest` | src/runtime/dag_direct_scheduler.cpp:245-257 | After a safe read, write, read-write or atomic access every accessed element that somebody held has its latest contents on the target. |
| `Coherence.DiscardsBringNothing` | src/runtime/dag_direct_scheduler.cpp:245-257 | The two discarding modes copy nothing and always succeed. |
| `Coherence.SourceIsLeast` | include/hipSYCL/runtime/data.hpp:570-594 | The source of a transfer is the first copy on another device that is valid on all its pages, and there is none exactly when no copy is. |
| `Coherence.RequirementKeepsCoherence` | src/runtime/dag_direct_scheduler.cpp:223-332 | A safe requirement keeps all valid copies current and every initialised page valid somewhere, makes the accessed pages valid and current on the target, and leaves written pages valid on the target only. |
| `Coherence.SafeIffCoherent` | src/runtime/dag_direct_scheduler.cpp:223-332 | A requirement, successful or cancelled, keeps copies coherent whatever they contain if and only if it is safe: every stale page it marks valid was brought by the executed transfer, is covered by a discarding access, or is held by nobody. |
| `Coherence.UnsafeBreaksCoherence` | src/runtime/dag_direct_scheduler.cpp:223-332 | Otherwise there are coherent contents for the same page tables that it makes incoherent. |
| `Coherence.SafeWhenDone` | src/runtime/dag_direct_scheduler.cpp:223-332 | A requirement that finds its sources is safe exactly when it needs at most one transfer or, if it discards, covers every stale page it touches. |
| `CoherenceCases.HalfPageBreaks` | src/runtime/dag_direct_scheduler.cpp:245-247 | A concrete unsafe requirement that succeeds: discarding the first element of a two-element page declares the stale second element valid. |
| `CoherenceCases.GapBreaks` | src/runtime/dag_direct_scheduler.cpp:129-158 | A concrete read that needs two transfers: only the first is executed, and the last page is stale but valid. |
| `CoherenceCases.SplitBreaks` | src/runtime/dag_direct_scheduler.cpp:135-143 | A concrete read without a single source: the node is cancelled, and the stale pages are declared valid all the same. |
| `Coherence.EnsureKeepsCoherence` | src/runtime/dag_direct_scheduler.cpp:79-108 | A new, empty allocation keeps coherence and the valid pages. |
| `Coherence.WriteKeepsCoherence` | include/hipSYCL/runtime/data.hpp:511-527 | A kernel writing the pages it owns exclusively keeps all valid copies current. |
| `Coherence.RunIsCoherent` | src/runtime/dag_direct_scheduler.cpp:223-332 | In every run all copies marked valid for a page hold the same latest contents, and a page once valid somewhere stays valid somewhere. |
| `Coherence.ReadBecomesSource` | src/runtime/dag_direct_scheduler.cpp:145-150 | After a read whose target is the first copy, that copy is the source of every later transfer of those pages to another device. |
| `Coherence.RefillNeedsWrite` | include/hipSYCL/runtime/data.hpp:511-527 | In every run a valid page of a copy becomes outdated only through a requirement on another device that claims the page for writing. |
| `Coherence.RequirementByTables` | src/runtime/dag_direct_scheduler.cpp:223-332 | What one requirement does in terms of the tables: how validity changes on every copy, that the transfer brings outdated pages from another copy where they are valid, and that a safe access gets all outdated pages that somebody holds. |
| `DataRegion.BufferRegion.EnsureAllocationExists` | src/runtime/dag_direct_scheduler.cpp:79-108 | Adds exactly one allocation with all pages outdated, or none if the device has one. |
| `DataRegion.BufferRegion.Mark` | include/hipSYCL/runtime/data.hpp:497-527 | The page tables of all copies after marking a range valid or current. |
| `DataRegion.BufferRegion.HasInitialized` | include/hipSYCL/runtime/data.hpp:661-676 | True if and only if some copy has a valid page in the range. |
| `DataRegion.BufferRegion.UpdateSources` | include/hipSYCL/runtime/data.hpp:570-594 | All other copies that are valid on the whole range, in the order of the copies. |
| `DataRegion.BufferRegion.OutdatedPages` | include/hipSYCL/runtime/data.hpp:529-548 | An exact partition of the outdated pages of the access; a single rectangle if all its pages are outdated. |
| `DataRegion.BufferRegion.TransferFor` | src/runtime/dag_direct_scheduler.cpp:130-154 | The transfer of one rectangle reads the first source, and there is none exactly when no other copy is valid on the rectangle. |
| `DataRegion.BufferRegion.PlanTransfers` | src/runtime/dag_direct_scheduler.cpp:110-160 | One transfer per outdated rectangle from the first source; failure exactly when some rectangle has no source, with the transfers of all rectangles before the first such one. |
| `DataRegion.BufferRegion.SubmitRequirement` | src/runtime/dag_direct_scheduler.cpp:223-332 | By access mode: the discarding modes plan no transfer; read, write, read-write and atomic plan one per outdated rectangle if some accessed page is valid anywhere, so a single one for a wholly outdated access, and none otherwise. The page tables and transfers that the object produces are those of the coherence protocol; the pages are marked even when a source is missing. |
| `AllocTree.IndexIsShift` | include/hipSYCL/common/allocation_map.hpp:59-62 | The index of a level is the address shifted right by the bits below, modulo the fan-out. |
| `AllocTree.AgreeIsEqual` | include/hipSYCL/common/allocation_map.hpp:51-62 | Two addresses with the same index at every level are equal. |
| `AllocTree.InsertShape` | include/hipSYCL/common/allocation_map.hpp:329-379 | Insertion keeps every num_entries exact and no node empty, and succeeds exactly on a free entry. |
| `AllocTree.InsertSlots` | include/hipSYCL/common/allocation_map.hpp:329-379 | A successful insertion changes the entry of its address and no other. |
| `AllocTree.EraseShape` | include/hipSYCL/common/allocation_map.hpp:381-424 | Erasure with pruning keeps every num_entries exact and no node empty, and succeeds exactly on a used entry. |
| `AllocTree.EraseSlots` | include/hipSYCL/common/allocation_map.hpp:381-424 | Erasure frees the entry of its address and no other. |
| `AllocTree.Canonical` | include/hipSYCL/common/allocation_map.hpp:408-422 | Pruning makes the tree canonical: two trees with the same entries are equal node for node. |
| `AllocTree.EraseUndoesInsert` | include/hipSYCL/common/allocation_map.hpp:351-424 | Erasing what was inserted gives back the identical tree. |
| `AllocLookup.SearchLeaf` | include/hipSYCL/common/allocation_map.hpp:199-236 | In a leaf the search answers the interval query on its entries. |
| `AllocLookup.Search` | include/hipSYCL/common/allocation_map.hpp:238-299 | In any node the search answers the interval query on its entries, although it gives up after two leaves: a miss has visited all linked leaves that start at or below the address, but at most two. |
| `AllocLookup.Cutoff` | include/hipSYCL/common/allocation_map.hpp:291-295 | An entry at or below the address that does not contain it rules out everything below, so stopping misses nothing. |
| `AllocLookup.LeafBelow` | include/hipSYCL/common/allocation_map.hpp:243-251 | A leaf wholly below the address holds an entry at or below it; this is where non-emptiness of nodes is needed. |
| `AllocMap.AllocationMap.GetEntry` | include/hipSYCL/common/allocation_map.hpp:107-114 | Returns the unique registered allocation containing the address with its base, or null with base 0 exactly when there is none. |
| `AllocMap.AllocationMap.GetEntryOfRootAddress` | include/hipSYCL/common/allocation_map.hpp:116-121 | Finds an allocation exactly when one starts at that address, and then it owns exactly the addresses of its range. |
| `AllocMap.AllocationMap.InsertEntry` | include/hipSYCL/common/allocation_map.hpp:123-130 | Registers the range, or returns false exactly when the address is occupied; all other entries stay. |
| `AllocMap.AllocationMap.EraseEntry` | include/hipSYCL/common/allocation_map.hpp:132-135 | Removes the entry, or returns false exactly when there is none; all other entries stay. |
| `AllocMap.HistoryMatches` | include/hipSYCL/common/allocation_map.hpp:123-135 | After any history of insertions and erasures the tree holds exactly the entries of the plain map. |
| `AllocMap.SameMapSameTree` | include/hipSYCL/common/allocation_map.hpp:329-424 | Two histories with the same outcome leave the identical tree. |
| `AllocThreadsProofs.StepKeepsLock` | include/hipSYCL/common/allocation_map.hpp:451-487 | Every step keeps the counter equal to the number of inserts and lookups inside, or -1 with exactly one erase inside. |
| `AllocThreadsProofs.EraseIsAlone` | include/hipSYCL/common/allocation_map.hpp:451-466 | While an erase is inside the lock, no other thread is. |
| `AllocThreadsProofs.StepKeepsCore` | include/hipSYCL/common/allocation_map.hpp:351-424 | Every atomic step of any thread keeps the linked nodes a tree, the nodes in use linked, the counts exact up to owed updates, and only claimed nodes empty. |
| `AllocThreadsProofs.EraseReadsExactCount` | include/hipSYCL/common/allocation_map.hpp:407-422 | The count an erase reads before unlinking is exact. |
| `AllocLinear.NothingFreedInUse` | include/hipSYCL/common/allocation_map.hpp:451-487 | In every reachable state of every interleaving an erase excludes all other threads, and every node a thread works on is linked. |
| `AllocLinear.RestIsSequential` | include/hipSYCL/common/allocation_map.hpp:351-424 | Whenever no thread is inside, the results are those of one sequential history holding each finished operation once, and the tree equals the sequential tree of that history node for node. |
| `AllocLinear.RealTimeOrder` | include/hipSYCL/common/allocation_map.hpp:351-424 | Linearisability of insert and erase: in that history an operation that had returned before another one began comes first. |
| `AllocLinear.RunGrowsLog` | include/hipSYCL/common/allocation_map.hpp:351-424 | The history of a state is a prefix of the history of every later state. |
| `AllocLinear.InsertsEndInUnion` | include/hipSYCL/common/allocation_map.hpp:329-379 | Any interleaving of inserts at different addresses ends with all of them successful and exactly their union registered. |
| `AllocProgress.StepDescends` | include/hipSYCL/common/allocation_map.hpp:329-424 | Inside the lock every step of an insert or erase, and of a lookup on its way back, comes closer to the end. |
| `AllocProgress.EveryRunCanFinish` | include/hipSYCL/common/allocation_map.hpp:451-487 | No deadlock: from every reachable state of every interleaving all threads can finish, with the results of a sequential history. |
| `AllocProgress.LookupReaches` | include/hipSYCL/common/allocation_map.hpp:238-299 | A lookup that holds the root can go to every linked node. |
| `AllocSameAddress.LinearisesIffDistinct` | include/hipSYCL/common/allocation_map.hpp:329-349 | For every list of threads, without restriction on when they begin: all interleavings give results of a sequential history if and only if no two threads insert at the same address, and exactly then all counts are right whenever the map is at rest. |
| `AllocSameAddress.OverlappingInsertsDoubleCount` | include/hipSYCL/common/allocation_map.hpp:329-349 | The failing run: whatever other threads there are, two inserts at one address can overlap so that both succeed, which no sequential history allows, and leave a leaf that holds one entry and counts two. |
| `NoAlias.CollectBases` | src/runtime/adaptivity_engine.cpp:283-306 | The slots hold the allocation bases of the pointer parameters, unless there are 32 or more. |
| `NoAlias.InferNoAlias` | src/runtime/adaptivity_engine.cpp:278-335 | A parameter is flagged if and only if there are fewer than 32 pointer parameters, it is a pointer of full size into a tracked allocation with non-zero base, and no other pointer of full size points into that allocation. |
| `NoAlias.FlaggedDoesNotAlias` | src/runtime/adaptivity_engine.cpp:278-335 | Soundness: no other pointer-sized pointer argument lies in the allocation of a flagged one. |
| `NoAlias.Lookup` | src/runtime/allocation_tracker.cpp:42-45 | The base used for a pointer argument is that of the unique tracked allocation containing it. |
| `ArgStats.KernelArg.FindSlot` | src/runtime/adaptivity_engine.cpp:64-105 | Finds a slot tracking the value; if there is none, also the last empty slot if there is one. |
| `ArgStats.KernelArg.FindVictim` | src/runtime/adaptivity_engine.cpp:127-148 | Finds an evictable slot with the smallest last use, or none exactly when no slot is evictable. |
| `ArgStats.KernelArg.IsLikelyInvariant` | src/runtime/adaptivity_engine.cpp:52-156 | One evaluation counts a tracked value and answers by flag and frequency, or gives a new value the last empty or else the least recently used evictable slot, or changes nothing. |
| `ArgHistory.HistoryInv` | src/runtime/adaptivity_engine.cpp:52-156 | After every history tracked values are distinct, each slot names the last use of its value and does not overcount it, and the counts add up to at most the number of evaluations. |
| `ArgHistory.AgesAreExact` | src/runtime/adaptivity_engine.cpp:139-140 | Ages never wrap around: they are the number of invocations since the last use. |
| `ArgHistory.LastUsesDiffer` | src/runtime/adaptivity_engine.cpp:77-78 | Different tracked values were last used at different invocations. |
| `ArgHistory.EvictedIsLeastRecent` | src/runtime/adaptivity_engine.cpp:121-153 | A value that loses its slot was strictly the least recently used of all evictable ones; a specialised one had a share below the eviction threshold. |
| `ArgHistory.SpecializedStays` | src/runtime/adaptivity_engine.cpp:80-98 | A specialised value keeps its slot and its flag unless its share is below the eviction threshold, and whenever it is seen the answer is to specialise. |
| `ArgFlags.FlaggedIff` | src/runtime/adaptivity_engine.cpp:80-117 | Over whole histories: a used slot counts exactly how often its value was shown since it took the slot, and is flagged if and only if one of the later showings came in a later run or with more than the required count, and with a share above the threshold. |
| `ArgFlags.AnswerIffFlagged` | src/runtime/adaptivity_engine.cpp:80-117 | The answer is to specialise if and only if the slot of the shown value is flagged afterwards. |
| `ArgFlags.NewValueTrackedIff` | src/runtime/adaptivity_engine.cpp:107-156 | A new value is tracked if and only if some slot is empty, or was last used long enough ago and is not flagged or below the eviction threshold. |
| `ArgFlags.NewValueSlot` | src/runtime/adaptivity_engine.cpp:107-156 | It takes the last empty slot, and otherwise the least recently used of those that may be taken. |
| `HcfText.Find` | include/hipSYCL/common/hcf_container.hpp:131-134 | The first occurrence of the pattern, or the end exactly when there is none. |
| `HcfText.SplitLines` | include/hipSYCL/common/hcf_container.hpp:335-341 | The line loop yields exactly the trimmed, non-empty lines in order. |
| `HcfText.LinesOfText` | include/hipSYCL/common/hcf_container.hpp:329-341 | Reading the lines of a printed text gives back the lines. |
| `HcfText.IsSpaceByCode` | include/hipSYCL/common/hcf_container.hpp:233-247 | White space is the characters from tab to carriage return and the blank. |
| `HcfParse.ParseInterior` | include/hipSYCL/common/hcf_container.hpp:270-327 | The index-driven loops, also on a syntax error, leave in the node exactly what the recursive definition of the grammar gives. |
| `HcfParse.ParseNode` | include/hipSYCL/common/hcf_container.hpp:270-327 | Parsing the lines of a good tree gives back the tree. |
| `HcfParse.ParsedIsGood` | include/hipSYCL/common/hcf_container.hpp:270-327 | Whatever is parsed, completely or up to an error, is a good tree whose lines all occur in the input. |
| `HcfAccounts.ParseAccounts` | include/hipSYCL/common/hcf_container.hpp:270-327 | Reading loses no line and invents none: the result, printed, has every line exactly as often as it occurs before the stopping point, which is the end on success and otherwise a line that cannot be read. |
| `HcfContainer.RoundTrip` | include/hipSYCL/common/hcf_container.hpp:213-231 | Reading the serialised form of a good tree gives back the tree and the binary data. |
| `HcfContainer.RoundTripIff` | include/hipSYCL/common/hcf_container.hpp:128-140 | A container survives serialisation and reading if and only if its tree is good: no line breaks or marker text, no equals sign in keys, no outer white space, no key starting like a node start, no line inside a node equal to its end line. |
| `HcfContainer.SmallText` | include/hipSYCL/common/hcf_container.hpp:213-231 | The text of a container with one pair and one node, letter by letter. |
| `HcfContainer.DistinctIdsSuffice` | include/hipSYCL/common/hcf_container.hpp:289-297 | No line inside a node equals its end line if no key starts like a node end and no node shares its id with one below it. |
| `HcfContainer.DecimalRoundTrip` | include/hipSYCL/common/hcf_container.hpp:183-184 | Reading a printed 64-bit number gives back the number. |
| `HcfBinary.AttachedFoundIff` | include/hipSYCL/common/hcf_container.hpp:150-211 | The content attached to a node is found there afterwards if and only if the node is not itself named like a descriptor, or its own pairs happen to describe the same bytes; without such pairs only the name counts. |
| `HcfBinary.DescriptorNameLosesContent` | include/hipSYCL/common/hcf_container.hpp:150-211 | A concrete failure: attaching to a node named like a descriptor succeeds, and nothing is found. |
| `HcfBinary.AttachKeepsOthers` | include/hipSYCL/common/hcf_container.hpp:196-211 | Attaching to one node keeps the attachments of, and the pointers to, all nodes. |
| `HcfBinary.AttachKeepsGoodIff` | include/hipSYCL/common/hcf_container.hpp:196-211 | Attaching keeps a good tree good if and only if the node does not lie inside a binary descriptor. |
| `HcfBinary.AttachmentsSurviveIff` | include/hipSYCL/common/hcf_container.hpp:196-231 | After any list of attachments the container survives serialisation and reading if and only if no performed one goes to a descriptor or inside one. |
| `HcfBinary.AttachmentsSurvive` | include/hipSYCL/common/hcf_container.hpp:150-231 | In that case the tree read is the same and every attached binary is found in it. |
| `HcfBinary.Container.Read` | include/hipSYCL/common/hcf_container.hpp:128-140 | Reads tree and binary data, or fails exactly when the marker is missing. |
| `HcfBinary.Container.AttachBinaryContent` | include/hipSYCL/common/hcf_container.hpp:196-211 | Fails without effect exactly when the node already has an attachment; otherwise the content can be found at the node under exactly the condition of AttachedFoundIff, and a good tree stays good exactly outside descriptors. |

## Left out

- Lookups against a running insert: no linearisability of lookups is claimed; a half-inserted empty leaf uses up one of the two attempts. Concurrent lookups appear as arbitrary walks over linked nodes.
- Allocation tree nodes are values in `AllocTree` and positions with counts in `AllocThreads`; heap pointers and aliasing between nodes are not modelled. Combining address bits with `|` is written as addition, the low bits of the prefix being zero.
- Weak memory ordering: every atomic access is one indivisible step.
- Concurrent inserts at the same address: the runs of `AllocThreads.IsRun` start an insert only while no other insert at that address is under way; `AllocSameAddress.LinearisesIffDistinct` is about runs without that rule.
- Allocations of size 0 and ranges that overlap or wrap around, which the source rules out for its callers and for which the lookup is not an interval query.
- Order of requirement lists: a command group lists its fresh memory requirements before its explicit dependencies; other orders of that list are not modelled. Explicit dependencies are live nodes.
- Erasing pruned requirements happens on the list as a whole; the intermediate state in which an entry is already reset is not visible.
- Command groups whose walk would give a new edge to an older memory requirement are excluded from runs (see `EdgeOrder.EarlierOnlyIff` for what they do); a walk that visits one without adding an edge is included.
- Execution of a memory requirement counts as completing its node; virtual nodes complete as soon as their requirements do.
- Requirements needing several transfers: only the first is executed, because a submitted node is not submitted again; `Coherence.SafeIffCoherent` shows the consequence. Without a source the pages are marked all the same; the cancellation of the node itself is not modelled.
- Error and cancellation paths of scheduler and executor, image requirements, and the choice of executor for host accessors.
- Device copies are modelled by whole pages in `DeviceCopies`: a kernel may rewrite every page of a writing access, and a requirement has one transfer. `CopyRaces.SequentialIffReached` is about programs whose accesses that do not discard get all their outdated pages, so not about reads of pages nobody has written; its groups are built before any node is submitted.
- Kernel contents between requirements: a kernel may write any value to the elements of an access for which it holds the only valid copy.
- RobinTable.Table: bucket counts above 2^23, where the 24-bit distance field could overflow, the overflow error of increase_size, and load factors other than 4/5; floating-point rounding of the capacity.
- Table iterators, extraction, copying and reserve of the hash table.
- Rounding of the frequency shares, and negative values of the integer setting they are compared with, in the argument statistics; a retained argument index listed twice, which would evaluate an argument twice per invocation.
- HCF values are sequences of characters; byte encodings, line counts beyond the range of `int`, and node pointers other than paths from the root are not modelled.
- Lane choice, usage statistics, device selection, hash functions: arbitrary or parameters.
- Backends, plugin loading, configuration, file system, compiler passes, SYCL interface headers, parallel algorithms.
