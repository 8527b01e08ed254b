# Verified models of five QEMU components

This project models, in Dafny, five parts of QEMU whose correctness rests on more than one function,
and proves what they promise.

- **Exclusive sections** (`cpus-common.c`): `start_exclusive` / `end_exclusive` against
  `cpu_exec_start` / `cpu_exec_end`, as a transition system with one step per access to shared memory
  and any number of CPUs. Memory is sequentially consistent, as the barriers of the program ensure.
- **Physical memory dispatch** (`exec.c`): the radix tree of sections with whole-subtree leaves and
  path compaction, subpages, the remembered section, and the chunked read and write loops on top.
  Also the RAM block list and the bounce buffer with its waiting clients.
- **Block graph permissions** (`block.c`): the two-phase permission update over a DAG, attaching,
  detaching and replacing nodes, and ordered inactivation.
- **Job transactions** (`job.c`): the status table and the grouped commit or abort.
- **GDB packets** (`gdbstub.c`): framing and the byte-driven parser, following "Overview" in
  appendix E, "GDB Remote Serial Protocol", of *Debugging with GDB*.

## How it is organised

Each component has its state and operations as values and pure functions, the theorems about them,
and -- where the program works in place -- a class whose methods have the loops of the program and
are proved equal to those functions.

| files | content |
|---|---|
| `Basics` | options, bytes, lists without duplicates |
| `ExclusiveProtocol`, `ExclusivePhases` | transition system, invariant, mutual exclusion, termination; every request is served |
| `BlockPerm`, `BlockGraph` | permissions, the graph, check / abort / set |
| `BlockUpdate`, `BlockLoosen` | what the update does on any DAG; loosening |
| `BlockOps`, `BlockRewire`, `BlockReplace`, `BlockInactivate` | operations and the invariant they keep |
| `BlockShortcuts` | exactly when inactivation is safe |
| `BlockRuns`, `BlockWriters`, `BlockLayer` | all runs; who can write; the operations in place |
| `BlockShrink`, `BlockGrants` | loosening that is always granted; exactly which requests are granted |
| `BlockDormant` | who can write to inactive nodes |
| `Arith`, `PhysTree`, `PhysSet`, `PhysCompact`, `PhysPacked` | the tree, setting pages, compaction and what it achieves |
| `PhysPage`, `PhysDispatch`, `PhysRegister`, `PhysLookup` | pages, registration, lookup against the flat list |
| `PhysMap`, `FlatViewAccess` | the dispatch in place; reading and writing RAM |
| `RamList`, `RamRoom`, `BounceBuffer` | RAM block list; when it finds a place; bounce buffer protocol |
| `JobState`, `JobTxn`, `JobRuns`, `JobResults`, `JobObjects` | one job, a transaction, all runs, results, in place |
| `JobPromises`, `JobMisuse` | what users and drivers can rely on; exactly which calls lead to a failing assertion |
| `GdbPacket`, `GdbGarble`, `GdbServer` | packets as values; a garbled byte; the stub's buffers in place |

Two fields exist for the proofs only: `Graph.rank`, a height measure of the block graph, and
`Tree.places`, which remembers the block of pages a tree node stands for.

## What turned out differently

- `bdrv_inactivate_all` does not inactivate every node safely on every DAG without parallel edges: a
  node that is a child of another and also reachable from an earlier child of it is visited once more
  after it was inactivated (`BlockInactivate.TriangleStuck`). For given lists it does when no child is
  reachable from an earlier sibling (`InactivateAllInOrder`); it does so in whatever order the lists
  come if and only if no node has a child that it also reaches through another child
  (`BlockShortcuts.SafeExactly`).
- The assertion in `bdrv_replace_child` can fail after `bdrv_replace_node` moved an edge from a node
  that forces sharing to one that does not (`BlockReplace.ForceShareLost`), and a run from the empty
  graph ends so (`BlockRuns.ForceShareReached`). `ReplaceSoundExactly` gives
  the exact condition under which `bdrv_replace_node` keeps the children of every node covered, which is
  what the assertion rests on. It is not exact for the assertion itself: an uncovered edge whose owner
  has no parents is corrected by the next attach before any detach can meet it. What does not rest on
  coverage holds after every run, whatever was moved: acyclic, compatible, nothing half done
  (`BlockRuns.RunConsistent`), and without inactivation nobody writing to a read-only node
  (`BlockWriters.NoWriterOfReadOnly`).
- A failed prepare does not always abort a whole transaction: `job_do_finalize` hands the job being
  finalized to `job_completed_txn_abort` without marking it failed, so that it commits
  (`JobResults.InitiatorCommits`); `AbortsAsWholeExactly` says exactly when.
- Some calls on jobs are unguarded, and exactly these open the way to an assertion that fails
  (`JobMisuse.BreaksExactly`): `job_start` of a job that is not CREATED, in particular of one that was
  cancelled before its start, for which its own assertion holds; `job_cancel` of such a job once more;
  `job_resume` of a job that at most the user or its creation holds paused, unless it has ended or was
  cancelled before its start and some pause is counted; `job_early_fail` of a job that is not CREATED or
  that an abort waits for; signalling READY twice; and `job_txn_add_job` once members
  are PENDING or an abort has begun. Runs get to all of them (`MisuseReached`, `ReadyTwiceReached`,
  `LateJoinReached`).
- A user whose edge has no inactivation callback, as those that `block_job_add_bdrv` makes, is not told
  when its node is inactivated, and stays a writer if it was one (`BlockDormant.JobStaysWriter`).
  `BlockDormant.InactivateProtectsExactly` and `AllInactiveExactly` say, of the state before the call,
  exactly when nobody is left who can write.
- A garbled byte of a packet is not always caught: turned into '#' or '*' it can leave a packet whose
  checksum is right (`GdbGarble.GarbledAccepted`). `GdbGarble.GarbledExactly` says for every payload,
  position and byte what is handled.
- A payload with a NUL byte arrives whole in the line buffer, but the command handler takes it for a
  C string and sees it only up to that byte (`GdbPacket.RoundTrip`).
- RAM blocks stay disjoint even when the rounding in `find_ram_offset` wraps around at 2^64. But it can give
  up although there is room: space before the first block is not looked at (`RamRoom.RoomOverlooked`).
  As long as some block starts at offset 0 it gives up exactly when there is no room (`RamRoom.FindsRoom`).
- A node of misaligned size can be left with a user that writes without RESIZE: when the user that resizes
  is detached, the re-check refuses but has nothing to take away (`BlockGrants.AlignmentLost`). Where
  permissions are granted it does not happen (`BlockGrants.AcceptedBelow`).
- The '$' of a packet that arrives while the guest runs stops the guest like any other byte and is not
  parsed (`GdbPacket.AnyByteStops`).

## Model

| member | source | states |
|---|---|---|
| `ExclusiveProtocol.NextInv` | cpus-common.c:173-301 | Every step of every thread, at the granularity of one access to shared memory, keeps the five-part invariant behind the comments on `pending_cpus`, `running` and `has_waiter`. |
| `ExclusiveProtocol.RunInv` | cpus-common.c:173-301 | The invariant holds after every run of any number of CPUs, in any interleaving. |
| `ExclusiveProtocol.MutualExclusion` | cpus-common.c:182-301 | While a thread is between the return of start_exclusive and the clearing of `pending_cpus`, no CPU is between the return of cpu_exec_start and the clearing of `running`, and no second thread is in an exclusive section. |
| `ExclusiveProtocol.PendingCount` | cpus-common.c:182-215 | Whenever the list lock is free and a request is pending, `pending_cpus` is one plus the number of CPUs with `has_waiter`. |
| `ExclusiveProtocol.CountedUntilEnd` | cpus-common.c:269-301 | Each CPU that is counted is still on its way to the decrement in cpu_exec_end. |
| `ExclusiveProtocol.SignalWakesOne` | cpus-common.c:291-300 | The signal that takes `pending_cpus` to 1 wakes the one thread that waits for it. |
| `ExclusiveProtocol.SomeoneAwake` | cpus-common.c:173-215 | In every reachable state in which a thread has work left, some such thread is awake that has the list lock or can take it. |
| `ExclusiveProtocol.SomeoneMoves` | cpus-common.c:173-301 | No reachable state is a deadlock: as long as a thread has work left, some thread can take a step. |
| `ExclusiveProtocol.TotalDecreases` | cpus-common.c:173-301 | Every step of a thread inside the protocol, spurious wake-ups apart, lowers a measure of the work left. |
| `ExclusiveProtocol.TotalWake` | cpus-common.c:173-215 | A spurious wake-up from a condition variable raises the measure by a bounded amount only. |
| `ExclusiveProtocol.EveryDrainEnds` | cpus-common.c:182-301 | From any reachable state, when nobody enters anew, every sequence of steps and spurious wake-ups is bounded by the work left and the number of such wake-ups, and when no thread can go on nobody is left waiting, the lock is free and `pending_cpus` is 0: no waiter is stranded. That each of them got what it waited for is ExclusivePhases.EveryRequestServed. |
| `ExclusivePhases.SectionGranted` | cpus-common.c:182-215 | On every run, a thread that was inside start_exclusive and is not any more has been in its exclusive section in between. |
| `ExclusivePhases.ExecutionGranted` | cpus-common.c:229-265 | On every run, a CPU that was inside cpu_exec_start and is not any more has been executing in between. |
| `ExclusivePhases.EveryRequestServed` | cpus-common.c:182-301 | From every reachable state, whatever the scheduler does: when the threads inside the protocol can go no further, each that was requesting has had its section and each that was starting has executed. |
| `ExclusivePhases.SectionReached` | cpus-common.c:182-215 | With any number of CPUs, each of them gets to an exclusive section on some run from the initial state. |
| `ExclusivePhases.FastPath` | cpus-common.c:229-301 | As long as no request is pending, cpu_exec_start and cpu_exec_end go through without the list lock, whoever has it, and together leave everything as it was. |
| `BlockPerm.ChildPerm` | block.c:1948-1962 | What a node asks of its child shares WRITE_UNCHANGED whenever the node itself is used that way, as the assertion at 2217 needs. |
| `BlockPerm.ChildPermMonotone` | block.c:2371-2516 | bdrv_default_perms, with force_share, is monotone: taking less and sharing more of a parent takes less and shares more of the child, for every role and flag. |
| `BlockPerm.InactiveLooser` | block.c:2381-2490 | Marking a node inactive never tightens what its child is asked for. |
| `BlockPerm.DefaultPermsAre` | block.c:2371-2516 | Permission by permission, for every role: what bdrv_default_perms takes of a child and lets others do to it, as a table. |
| `BlockUpdate.CheckEdgeThenAbort` | block.c:2266-2321 | bdrv_child_check_perm, failing at any depth or succeeding, followed by bdrv_child_abort_perm_update, restores every edge and clears every backup, on any DAG and however often shared nodes are visited. |
| `BlockUpdate.CheckNodeThenAbort` | block.c:1983-2106 | The same for bdrv_check_perm and bdrv_abort_perm_update. |
| `BlockUpdate.CheckUpdateThenAbort` | block.c:2203-2263 | The same for bdrv_check_update_perm, with any list of ignored edges. |
| `BlockUpdate.CheckEdgeOrigin` | block.c:2266-2296 | A check writes only the edge itself and edges below its node, and the permissions from before the check can be read off every edge at any time. |
| `BlockUpdate.CheckEdgeCompat` | block.c:2203-2296 | A granted check leaves any two parents of every node compatible, apart from the edges it was told to ignore. |
| `BlockUpdate.CheckEdgeExact` | block.c:2062-2080 | After a granted check every node below holds its children to exactly what its own cumulative use makes it want, and agrees to that use itself, although nodes with several parents were checked several times with intermediate values. |
| `BlockUpdate.CheckNodeDelivers` | block.c:2062-2080 | After a granted bdrv_check_perm the node's child edges carry exactly the permissions wanted for the checked use. |
| `BlockUpdate.SetEdgeAt` | block.c:2298-2310 | Setting after a granted check rewrites exactly the permissions that the check wrote, and clears the backups. |
| `BlockLoosen.LoosenEdge` | block.c:2266-2296 | On a graph whose nodes are covered, a request that is no stricter than the one in force meets no sharing conflict at any depth and reports no tightening. |
| `BlockLoosen.LoosenNode` | block.c:1995-2005 | The same for bdrv_check_perm: loosening never tightens, over the whole DAG below the node. |
| `BlockOps.TrySetKeepsCompat` | block.c:2323-2352 | bdrv_child_try_set_perm: either the request is in force or nothing changed (always when an error is reported), and in both cases all parents of all nodes stay pairwise compatible with no backup left. |
| `BlockOps.TrySetSound` | block.c:2323-2352 | It keeps the whole invariant of the graph when the request is the user's own or at least what the owning node wants. |
| `BlockOps.SettleSound` | block.c:2634-2650 | Re-checking a node's own cumulative use never tightens and never meets a sharing conflict; whether it is then set or aborted, the graph stays sound. |
| `BlockOps.SettleConsistent` | block.c:2634-2650 | On any consistent graph, covered or not, the re-check of a node leaves it consistent: acyclic, all parents pairwise compatible, no backup left. |
| `BlockOps.DetachKeepsCompat` | block.c:2614-2656 | Taking a parent away removes exactly that edge and leaves any consistent graph consistent. |
| `BlockOps.DetachNeverTightens` | block.c:2614-2656 | After a parent is taken away the recursive check over the whole sub-DAG leaves tighten_restrictions false, as the assertion at 2644 says, meets no sharing conflict, and the graph stays sound. |
| `BlockRewire.AttachKeepsCompat` | block.c:2668-2729 | bdrv_root_attach_child on any consistent graph, covered or not: it adds exactly the new parent with its permissions or changes nothing; the graph stays acyclic and all parents pairwise compatible. |
| `BlockRewire.AttachChildKeepsCompat` | block.c:2742-2767 | bdrv_attach_child on any consistent graph: exactly the new edge, owned by the node and with what the node wants of it, enters both lists, or nothing changes; the graph stays consistent. |
| `BlockRewire.AttachSound` | block.c:2668-2729 | bdrv_root_attach_child on a graph whose children are covered leaves them covered. |
| `BlockRewire.AttachChildSound` | block.c:2742-2767 | So does bdrv_attach_child, whose new edge is owned by a node. |
| `BlockReplace.RedirectValid` | block.c:4534-4567 | Redirecting all chosen parents at once keeps any acyclic graph acyclic and its lists consistent. |
| `BlockReplace.ReplaceKeepsCompat` | block.c:4518-4576 | bdrv_replace_node on any consistent graph redirects exactly the chosen parents and leaves every other edge as it was, or changes nothing; on success and failure the graph is acyclic, all parents pairwise compatible, no backup left. |
| `BlockReplace.ReplaceSound` | block.c:4518-4576 | It also keeps every node's children covered, provided each moved edge is at least as strict as its owner wants of the new node. |
| `BlockReplace.ReplaceSoundExactly` | block.c:4518-4576 | A successful bdrv_replace_node on a sound graph keeps every node's children covered if and only if each moved edge is at least as strict as its owner wants of the new node. |
| `BlockReplace.ForceShareCovers` | block.c:1958-1961 | The moved edges are covered in particular when the new node forces sharing wherever the old one did. |
| `BlockReplace.ForceShareLost` | block.c:2644-2644 | The condition is needed: with a force-shared node replaced by one that is not, the graph is consistent but not covered, a later detach finds tighten_restrictions true and the assertion fails. |
| `BlockInactivate.InactivateFollows` | block.c:5796-5856 | The permission updates during inactivation never tighten (the assertion in bdrv_inactivate_recurse) and never change which nodes are visited. |
| `BlockInactivate.InactivateAllInOrder` | block.c:5796-5896 | If no child of a node is reachable from an earlier child of the same node, bdrv_inactivate_all inactivates every node exactly once, after all of its parents, and no assertion fails. |
| `BlockInactivate.AllEnds` | block.c:5858-5896 | In whatever order the lists come: if no assertion fails, every node is inactive in the end, each inactivated once and after all of its parents. |
| `BlockInactivate.TriangleStuck` | block.c:5813-5813 | The absence of parallel edges is not enough: on a graph of three nodes without parallel edges the assertion fails. |
| `BlockInactivate.TriangleReady` | block.c:5858-5896 | That graph is one the operations can produce the permissions for: with no user it is sound. |
| `BlockShortcuts.ReorderedReady` | block.c:2060-2078 | Permissions do not depend on the order of child lists: a sound graph is sound in every order. |
| `BlockShortcuts.ShortcutFails` | block.c:5796-5896 | If a node has an edge to a child that it also reaches through another of its edges, there is an order of the lists in which the assertion at 5813 fails. |
| `BlockShortcuts.SafeExactly` | block.c:5796-5896 | Started with every node active, bdrv_inactivate_all inactivates every node exactly once, after all of its parents, with no assertion failing, in whatever order child lists and root nodes come -- if and only if the graph has no such shortcut edge. |
| `BlockRuns.ApplyConsistent` | block.c:2266-2779 | Every operation on the graph that does not fail an assertion keeps it consistent, bdrv_replace_node without any condition. |
| `BlockRuns.RunConsistent` | block.c:2266-2779 | After every run of operations from the empty graph, with any replacements of nodes: acyclic, parents pairwise compatible, no update half done. |
| `BlockRuns.ApplySound` | block.c:2266-2779 | On a sound graph every operation keeps it sound, bdrv_replace_node where the moved edges are covered, and no assertion fails except that of inactivation, exactly when its walk meets an inactive node again. |
| `BlockRuns.RunSound` | block.c:2266-2779 | After every run whose replacements of nodes were covered, the children of every node are covered as well. |
| `BlockRuns.DetachIsSafe` | block.c:2634-2650 | After such a run, taking a parent away never fails the assertion at 2644. |
| `BlockRuns.ForceShareReached` | block.c:2644-2644 | Without coverage it can fail: a run from the empty graph, with one replacement, ends where detaching a user fails that assertion. |
| `BlockRuns.UsesCompatible` | block.c:2219-2257 | After every run, with any replacements, what one parent of a node uses is shared by every other. |
| `BlockWriters.GrantedEverywhere` | block.c:2007-2056 | A granted request leaves every node below it agreeing to everything its parents together ask of it. |
| `BlockWriters.HiddenExactly` | block.c:2333-2346 | A failure of bdrv_child_try_set_perm is kept from the caller only if the request clashes with no other parent and takes and unshares nothing new at the node; where children are covered, always then: no node below reports a tightening. |
| `BlockWriters.TrySetProtected` | block.c:2323-2352 | bdrv_child_try_set_perm gives nobody write access to a node that is read-only or inactive. |
| `BlockWriters.DetachProtected` | block.c:2614-2656 | Nor does detaching a parent, which recomputes permissions below. |
| `BlockWriters.AttachProtected` | block.c:2668-2729 | Nor does bdrv_root_attach_child. |
| `BlockWriters.AttachChildProtected` | block.c:2742-2767 | Nor does bdrv_attach_child. |
| `BlockWriters.ReplaceProtected` | block.c:4518-4576 | Nor does bdrv_replace_node, which moves parents to another node. |
| `BlockWriters.NoWriterOfReadOnly` | block.c:2007-2025 | After every run of these operations other than inactivation, with any replacements of nodes, nobody has write access to a read-only or inactive node. |
| `BlockInactivate.TellUsersSound` | block/block-backend.c:251-269 | On a sound graph the users of a node that are told of its inactivation can always give up their permissions: the error that would end the program does not occur. |
| `BlockShrink.ShrinkEdge` | block.c:2203-2296 | Where every node agrees to its use and to any looser one, a request that loosens is granted at every depth of the DAG, whatever edges are ignored, and no edge anywhere ends up with more than it had. |
| `BlockShrink.SettleGranted` | block.c:5833-5845 | So is the permission update of an inactivated node, and its children then have exactly what it wants. |
| `BlockShrink.DetachSettles` | block.c:2614-2656 | After bdrv_detach_child on a sound graph whose nodes agree to their uses and to looser ones: the edge is gone, every node below the one that lost a parent asks of its children exactly what its remaining parents need, no edge has more than before, and users that are not nodes have what they had. |
| `BlockGrants.TrySetExactly` | block.c:2323-2352 | bdrv_child_try_set_perm is granted if and only if no other parent of the node conflicts with the request and every node below accepts what it would be asked for, with no conflict among its parents; said of the state before the call. For graphs in which no node below is reachable in two ways. |
| `BlockGrants.LeafExactly` | block.c:2007-2080 | On a node without children, spelled out: granted if and only if no other parent uses what the request does not share or shares less than it uses, the node is writable or nobody writes, aligned or nobody writes without RESIZE, and the driver accepts; then the user has what it asked for and nobody else anything different, and otherwise nothing changed. |
| `BlockGrants.AttachExactly` | block.c:2668-2729 | bdrv_root_attach_child succeeds if and only if the same conditions hold for the new parent, on such graphs. |
| `BlockGrants.ReplaceMoves` | block.c:4439-4567 | A successful bdrv_replace_node moves exactly the parents of the old node that do not stay at their node and whose owner is not reachable from the new node; a failed one moves none. An edge with stay_at_node never moves. |
| `BlockGrants.ReplaceExactly` | block.c:4518-4576 | It succeeds if and only if none of those edges is frozen, none conflicts with a parent of the new node, and every node below accepts what it would be asked for. For graphs in which no node below is reachable in two ways. |
| `BlockGrants.TrySetBound` | block.c:2266-2352 | On any DAG: if there is some assignment of permissions, everywhere at least as strict as those in force and at the edge as the request, with all parents compatible, every node agreeing to its use and to looser ones, and every node below covering what it wants of its children, then the request is granted and no edge gets more than that assignment gives it. |
| `BlockGrants.AcceptedBelow` | block.c:2007-2056 | After a granted request every node below accepts its use: in particular nobody writes without RESIZE to a node of misaligned size. |
| `BlockGrants.AlignmentLost` | block.c:2018-2056 | That does not stay so: a graph in which detaching the user that resizes leaves another one writing without RESIZE. |
| `BlockDormant.ApplyQuiet` | block.c:2266-2779 | Every operation other than inactivation keeps inactive nodes from writing to their children. |
| `BlockDormant.InactivateProtectsExactly` | block.c:5796-5896 | After bdrv_inactivate_all nobody has write access to a read-only or inactive node if and only if no user that is not told, or does not quit, was writing before the call to a node that the walk over the graph inactivates or that was inactive already; those users keep exactly what they had. |
| `BlockDormant.AllInactiveExactly` | block.c:5858-5896 | Started with every node active, when no assertion fails: every node ends inactive, and nobody has write access if and only if no user that stays was a writer anywhere. |
| `BlockDormant.JobStaysWriter` | block.c:5823-5830 | The condition is needed: a user without an inactivation callback that writes to its node still has write access after the node was inactivated. |
| `BlockDormant.NoWriterOfInactive` | block.c:2007-2025 | After every covered run of all operations, inactivations included, nobody has write access to a read-only or inactive node, provided that before each inactivation no user that stays was writing to a node about to be inactivated. |
| `BlockLayer.Layer.CumulativePerm` | block.c:2139-2156 | The loop computes the cumulative use of all parents: a permission is used exactly when some parent uses it, and shared exactly when all of them share it. |
| `BlockLayer.Layer.ChildCheckPerm` | block.c:2266-2296 | In place, with backups, it does what the recursive check is specified to do. |
| `BlockLayer.Layer.CheckUpdatePerm` | block.c:2203-2263 | The loop over the parents finds a conflict exactly when one exists and otherwise checks the joint use. |
| `BlockLayer.Layer.CheckPerm` | block.c:1983-2081 | Verdict, tightening and written permissions are those of the specification, for refusing nodes, nodes without driver, drivers with hooks and nodes with children; which requests that grants is BlockGrants.TrySetExactly, LeafExactly and TrySetBound. |
| `BlockLayer.Layer.CheckAllChildren` | block.c:2060-2078 | The loop stops at the first child that fails and accumulates tightening over those it reached. |
| `BlockLayer.Layer.ChildAbort` | block.c:2312-2321 | Restores the edge and everything below it. |
| `BlockLayer.Layer.Abort` | block.c:2090-2106 | Loop over the children of a node that has a driver. |
| `BlockLayer.Layer.ChildSet` | block.c:2298-2310 | Sets the edge and passes the new cumulative use down. |
| `BlockLayer.Layer.Set` | block.c:2108-2137 | Loop over the children of a node that has a driver. |
| `BlockLayer.Layer.ChildTrySetPerm` | block.c:2323-2352 | In place: the request in force, or the state as it was; compatible either way. |
| `BlockLayer.Layer.SettleNode` | block.c:2634-2650 | In place, on any consistent graph, with the tightening it reports; where children are covered it reports none, as the assertion says, and they stay covered. |
| `BlockLayer.Layer.DetachChild` | block.c:2769-2777 | In place, on any consistent graph; where children are covered the assertion holds and they stay covered. |
| `BlockLayer.Layer.ShouldUpdateChild` | block.c:4439-4516 | The breadth-first search terminates and answers false exactly when the edge stays at its node or its owner is reachable from `to`. |
| `BlockLayer.Layer.ParentsToMove` | block.c:4533-4548 | Collects exactly the parents that may be moved; fails exactly when one of them is frozen. |
| `BlockLayer.Layer.MoveParents` | block.c:4561-4567 | Moving the collected edges one by one gives the graph in which all are redirected at once. |
| `BlockLayer.Layer.ReplaceNode` | block.c:4518-4576 | In place: all chosen parents or nothing, permissions as specified. |
| `BlockLayer.Layer.RootAttachChild` | block.c:2668-2729 | In place, on any consistent graph: exactly the new parent or nothing; consistent either way. |
| `BlockLayer.Layer.AttachChild` | block.c:2742-2767 | In place, on any consistent graph: as specified, all or nothing, consistent either way. |
| `BlockLayer.Layer.HasBdsParent` | block.c:5780-5794 | The loop answers whether an (active) node owns an edge to the node. |
| `BlockLayer.Layer.TellParents` | block.c:5823-5830 | The loop over the parents, in place: the users that can give up their permissions do, as specified. |
| `BlockLayer.Layer.InactivateRecurse` | block.c:5796-5856 | In place, on any consistent graph: it reports a failing assertion exactly when the specified recursion meets one, and otherwise ends in the specified state. |
| `BlockLayer.Layer.InactivateNodes` | block.c:5858-5896 | The loop over all nodes, in place, likewise. |
| `BlockLayer.Layer.InactivateEverything` | block.c:5858-5896 | In place, with every node active and no child reachable from an earlier sibling: all three assertions hold, and every node ends inactive, inactivated once and after all of its parents. |
| `PhysTree.LowZeroDivides` | exec.c:233-233 | The mask test on the page index is divisibility by the number of pages below a slot. |
| `PhysTree.LevelCursor` | exec.c:220-244 | phys_page_set_level consumes the range up to its end or the end of the block of its entry, no more and no less. |
| `PhysSet.LevelLinked` | exec.c:220-244 | Entries keep pointing to nodes that belong to their block. |
| `PhysSet.LevelWalk` | exec.c:220-244 | Exactly the pages passed over walk to the new section; every other page walks as before, from every entry. |
| `PhysSet.LevelCount` | exec.c:220-244 | The nodes allocated at each level are those along the two edges of the range. |
| `PhysSet.LevelDone` | exec.c:220-244 | A range of unassigned pages never makes the recursion descend into a leaf that stands for many pages. |
| `PhysSet.PageSetDone` | exec.c:190-254 | One phys_page_set allocates at most 2*P_L2_LEVELS-1 nodes, so the reservation of 3*P_L2_LEVELS suffices, both assertions of phys_map_node_alloc hold, and the range is used up. |
| `PhysSet.PageSetSections` | exec.c:246-254 | Exactly the pages of the range get the new section. |
| `PhysCompact.CompactWalk` | exec.c:259-308 | After compaction of an entry, a page leads where some page of the entry led before, and where it led itself unless it was unassigned. |
| `PhysCompact.CompactAllWalk` | exec.c:310-315 | The same for the whole tree. |
| `PhysPacked.CompactAllPacks` | exec.c:259-315 | After compaction of the whole tree no link that a lookup can follow leads to a node with a single slot in use. |
| `PhysPage.LevelsSuffice` | exec.c:125-125 | P_L2_LEVELS levels are enough for every page of a 64-bit address space, for every page size. |
| `PhysRegister.PageNotGuest` | exec.c:1506-1506 | The assertion of register_subpage holds: the page is unassigned or a subpage. |
| `PhysRegister.SubpageHolds` | exec.c:1493-1521 | register_subpage adds the part to what the dispatch stands for; it fails the limit on sections exactly when fewer numbers are left than it uses: one on a page with parts already, two otherwise. |
| `PhysRegister.MultiHolds` | exec.c:1524-1535 | register_multipage adds the pages to what the dispatch stands for. |
| `PhysLookup.AddHolds` | exec.c:1544-1580 | flatview_add_to_dispatch of a section that overlaps no registered one adds it to the flat list, across its first part page, whole pages and last part page; it fails, at the limit on sections, if and only if fewer numbers are left than the section needs, as computed from the flat list alone. |
| `PhysLookup.AddAllHolds` | exec.c:1544-1580 | A list of disjoint sections can be registered if and only if there are numbers enough for all of it, and the dispatch then stands for the list. |
| `PhysLookup.MruIsFind` | exec.c:352-369 | Whatever section earlier lookups left in mru_section, the answer is that of phys_page_find. |
| `PhysLookup.ResolveAnswers` | exec.c:352-369 | Lookup with subpage resolution gives the piece of the registered section around the address, at the same region offset, or the unassigned section if there is none. |
| `PhysLookup.CompactFind` | exec.c:310-349 | phys_page_find gives the same section for every address before and after compaction, although compacted entries ignore index bits. |
| `PhysLookup.FlatFinds` | exec.c:1544-1580 | The flat list is searched faithfully: an address in a section of a disjoint list is found there. |
| `PhysLookup.LookupIsFlat` | exec.c:328-369 | For every list of disjoint sections that there are numbers for, every 64-bit address and every remembered section: register, compact, look up, and the answer is that of searching the flat list. |
| `PhysMap.AddressSpaceDispatch.constructor` | exec.c:2926-2937 | A new dispatch stands for the empty list. |
| `PhysMap.AddressSpaceDispatch.NodeReserve` | exec.c:190-198 | Room for the requested nodes, never less than before. |
| `PhysMap.AddressSpaceDispatch.NodeAlloc` | exec.c:200-218 | A node filled by the loop with the entry for its level. |
| `PhysMap.AddressSpaceDispatch.SetLevel` | exec.c:220-244 | The loop, with index and count passed in and out, does what is specified. |
| `PhysMap.AddressSpaceDispatch.PageSet` | exec.c:246-254 | What is reserved is enough and exactly the pages of the range change. |
| `PhysMap.AddressSpaceDispatch.Compact` | exec.c:259-308 | The loop counts the slots in use and redirects the entry to an only child. |
| `PhysMap.AddressSpaceDispatch.CompactAll` | exec.c:310-315 | Every address is found where it was before, and no lookup passes through a node with a single slot in use. |
| `PhysMap.AddressSpaceDispatch.PageFind` | exec.c:328-349 | The loop computes the specified walk on a tree that is compacted or not, never leaving the node table. |
| `PhysMap.AddressSpaceDispatch.LookupRegion` | exec.c:352-369 | The answer does not depend on mru_section and is right, and mru_section is then the section just found. |
| `PhysMap.AddressSpaceDispatch.TranslateInternal` | exec.c:373-405 | The returned stretch of RAM is a stretch of the flat list, byte by byte, and not empty; its length is the smaller of what was asked for and what is left of the section for RAM, and what was asked for otherwise. |
| `PhysMap.AddressSpaceDispatch.SectionAdd` | exec.c:1451-1468 | The section gets the next number. |
| `PhysMap.AddressSpaceDispatch.SubpageRegister` | exec.c:2856-2874 | Exactly the bytes of the range get the section; ranges outside the page are refused. |
| `PhysMap.AddressSpaceDispatch.RegisterSubpage` | exec.c:1493-1521 | In place, keeps the dispatch in agreement with the flat list, whenever there are as many numbers left as it needs. |
| `PhysMap.AddressSpaceDispatch.RegisterMultipage` | exec.c:1524-1535 | In place, keeps the dispatch in agreement with the flat list. |
| `PhysMap.AddressSpaceDispatch.AddToDispatch` | exec.c:1544-1580 | In place, adds the section to the flat list the dispatch stands for, whenever there are as many numbers left as it needs. |
| `FlatViewAccess.ReadChunk` | exec.c:3223-3266 | A chunk of a region is the bytes at its addresses, one by one. |
| `FlatViewAccess.WriteChunk` | exec.c:3157-3203 | A chunk copied into a region is its bytes written one by one in increasing order; what that leaves in memory is FlatViewAccess.WriteContents. |
| `FlatViewAccess.WriteContents` | exec.c:3157-3203 | What a write leaves in memory: each byte of RAM is the last byte of the buffer whose address leads there, and is as it was if no address does. |
| `FlatViewAccess.ReadBack` | exec.c:3157-3280 | Reading a range right after writing it gives what was written if and only if whenever two addresses of the range lead to the same byte of RAM the same value was written to both. |
| `FlatViewAccess.TouchedIs` | exec.c:3071-3091 | The bytes marked dirty are exactly those that some address of the range leads to. |
| `FlatViewAccess.FlatView.Read` | exec.c:3269-3280 | Reading a range backed by direct RAM is reading byte by byte, across any number of sections. |
| `FlatViewAccess.FlatView.ReadContinue` | exec.c:3223-3266 | The loop terminates and the chunks together are the bytes. |
| `FlatViewAccess.FlatView.Write` | exec.c:3206-3220 | Writing a range leaves in each byte of RAM the last byte of the buffer whose address leads there, also where two addresses lead to the same byte, and leaves every other byte as it was; exactly the bytes some address leads to are marked dirty. |
| `FlatViewAccess.FlatView.WriteContinue` | exec.c:3157-3203 | The loop terminates, writes the bytes of the buffer in increasing address order and marks exactly them; their contents afterwards are FlatViewAccess.WriteContents. |
| `RamList.RoundUpIs` | exec.c:1920-1920 | Rounding up in 64-bit arithmetic gives a boundary at or after the end of the block, or wraps around to zero. |
| `RamList.GapIsFree` | exec.c:1912-1939 | A block that fits into the gap after a live block overlaps no live block, also when the rounding wrapped around. |
| `RamList.FindNext` | exec.c:1925-1929 | The inner loop finds the closest following block. |
| `RamList.FindRamOffset` | exec.c:1901-1951 | The offset is the candidate after a block with the tightest gap that fits; failure only if no gap fits. |
| `RamRoom.FindsRoom` | exec.c:1901-1951 | Against every place there could be: the offset is aligned, within the space and free; find_ram_offset gives up only if there is no aligned room after any block, and with some block at offset 0, or none at all, exactly if there is no aligned room anywhere. |
| `RamRoom.RoomOverlooked` | exec.c:1912-1946 | Without a block at offset 0 it can give up although half of the space is free. |
| `RamList.AddKeeps` | exec.c:2230-2292 | Adding a best-fit block keeps the list disjoint, aligned and sorted by size, and loses no block. |
| `RamList.RemoveKeeps` | exec.c:2491-2509 | Removing a block keeps it so, and takes out exactly that block. |
| `RamList.RunValid` | exec.c:1901-2509 | After every sequence of additions and removals live blocks are disjoint, aligned and sorted -- also when addresses wrap around. |
| `RamList.ScanUnique` | exec.c:1245-1281 | Any live block that has an address is the answer of the linear scan. |
| `RamList.RamBlocks.Add` | exec.c:2230-2292 | In place: best fit, insertion before the first smaller block and a new version, or nothing. |
| `RamList.RamBlocks.Free` | exec.c:2491-2509 | In place: the block leaves the list, nothing stays remembered, and the version is new. |
| `RamList.RamBlocks.GetRamBlock` | exec.c:1245-1281 | The remembered block gives the answer of the linear scan, with the unsigned comparison of the program. |
| `BounceBuffer.NextOwnerInv` | exec.c:3578-3598 | in_use is true exactly while one thread has the buffer. |
| `BounceBuffer.NextWaitInv` | exec.c:3427-3449 | Clients wait on a free buffer only while some thread is bound to look at the list. |
| `BounceBuffer.RunInv` | exec.c:3427-3640 | The invariant holds after every run of any number of threads. |
| `BounceBuffer.OneMapping` | exec.c:3578-3598 | At most one bounce mapping is outstanding. |
| `BounceBuffer.MapExactly` | exec.c:3578-3598 | In every reachable state, whoever asks for the bounce buffer gets it if and only if nobody has it, and otherwise nothing changes. |
| `BounceBuffer.NoClientForgotten` | exec.c:3631-3639 | Whenever the list lock is free, a client that waits on a free buffer waits for a thread that released the buffer and has its notification still to run. |
| `BounceBuffer.HolderMoves` | exec.c:3438-3449 | The holder of the list lock can always go on and leaves after at most three steps. |
| `BounceBuffer.NotificationComes` | exec.c:3427-3449 | In every reachable state with the buffer free, threads already on their way can have every waiting client scheduled within five steps, without a new call. |
| `BounceBuffer.EveryScheduleNotifies` | exec.c:3427-3479 | From every reachable state, in whatever order they are scheduled, the threads on their way take a bounded number of steps without a new call, and when they are through no client is left waiting, or the buffer is in use and its owner will notify. |
| `BounceBuffer.NobodyWoken` | exec.c:3438-3449 | While the buffer stays in use and no notification is under way, no client is scheduled, however many register. |
| `BounceBuffer.ClientsConserved` | exec.c:3427-3479 | At every point of every run each registration is accounted for exactly once: the client still waits, was scheduled, or was unregistered. |
| `JobState.NoWayBack` | job.c:38-51 | The status table has no way from a completed status back to an uncompleted one. |
| `JobState.FinalizedOk` | job.c:681-711 | job_finalize_single calls exactly one of commit and abort, then clean, and commits just when the job neither failed nor was cancelled; every status change is in the table. |
| `JobState.PausePointStops` | job.c:484-515 | job_pause_point stops a job exactly if a pause is requested and it is not cancelled: it is PAUSED or, from READY, on STANDBY, and entering it again takes it back to where it was. |
| `JobState.DismissEnds` | job.c:605-629 | A job that is dismissed is NULL, and nothing else about it changes. |
| `JobRuns.AbortLoopAt` | job.c:761-770 | The loop of job_completed_txn_abort finalizes completed members, once each, and leaves the others alone. |
| `JobRuns.TxnAbortInv` | job.c:729-776 | job_completed_txn_abort keeps the invariant of the transaction. |
| `JobRuns.DoFinalizeInv` | job.c:792-804 | job_do_finalize keeps it, whatever the prepare functions return. |
| `JobRuns.JobCompletedInv` | job.c:830-867 | job_completed keeps it, for success, failure and cancellation. |
| `JobRuns.ApplyInv` | job.c:179-948 | Every action of users, drivers and the event loop keeps it, except the unguarded calls that JobMisuse.BreaksExactly names. |
| `JobRuns.CancelFailsExactly` | job.c:926-940 | In every state a run can reach, job_cancel of a job not yet dismissed fails an assertion if and only if the job was cancelled before it was started and is not finalized yet. |
| `JobResults.RunInv` | job.c:139-948 | It holds after every run. |
| `JobResults.NoAssertionFails` | job.c:179-192 | On every run without the unguarded calls (see "Left out") every status change is allowed by JobSTT and no other assertion on jobs and transactions fails. |
| `JobResults.CompletedStays` | job.c:245-265 | Whatever is done: a completed job never becomes uncompleted, a cancelled one stays cancelled, an error stays its error, the kind of job stays what it was, and its pauses are counted right; job_cancel marks the job cancelled, by force if so asked, unless it has concluded. |
| `JobResults.PausesBalance` | job.c:553-603 | On every run the pause count of a job is the number of unmatched job_pause calls so far, plus one while the user has it paused and one until it is started. |
| `JobResults.ExactlyOnce` | job.c:658-711 | On every run, each job that ends after it was started got exactly one of commit and abort, then exactly one clean; before it ends it got none. |
| `JobResults.AllCommit` | job.c:139-804 | On every run: as long as the transaction is not being aborted no job has aborted, and when it ends so every job that was started has committed, once, and been cleaned. |
| `JobResults.NoneCommits` | job.c:729-776 | When a failed or cancelled job started the abort, no member commits. |
| `JobResults.FinalizeCommits` | job.c:792-804 | When every prepare returns 0, every member commits. |
| `JobResults.FinalizeFails` | job.c:792-804 | When a prepare fails, every member ends at once; all abort except the job being finalized, which commits unless it is the one that failed first. |
| `JobResults.AbortsAsWholeExactly` | job.c:792-804 | A failed prepare aborts the transaction as a whole if and only if the job being finalized is the one whose prepare fails first. |
| `JobResults.InitiatorCommits` | job.c:792-804 | There is a run from the empty transaction in which both jobs succeed, job 0 is finalized, the prepare of job 1 fails, job 1 aborts and job 0 commits. |
| `JobResults.LastExit` | job.c:830-854 | When the last member succeeds and none needs manual finalization, completion goes on to job_do_finalize. |
| `JobPromises.ManualPending` | job.c:787-853 | When the last member succeeds and some member needs manual finalization, every member is PENDING, still on the list, and none has committed or aborted. |
| `JobPromises.ManualWaits` | job.c:787-853 | On every run, a job that needs manual finalization has not committed as long as nobody has finalized a job of the transaction. |
| `JobPromises.CreatedAs` | job.c:305-365 | On every run, whether a job finalizes and dismisses itself is what its creator said. |
| `JobPromises.ForcedExactly` | job.c:713-727 | On every run, a job is cancelled by force if and only if somebody asked for that before it concluded. |
| `JobPromises.ErrorAborts` | job.c:645-711 | On every run, a job whose driver returned an error keeps that error and never commits, and once it is completed the transaction is being aborted. |
| `JobPromises.CancelledAborts` | job.c:645-711 | On every run, a job that was cancelled before it concluded never commits, whatever its driver returns; once concluded it has aborted, with an error. |
| `JobPromises.CancelAbortsNow` | job.c:926-940 | job_cancel of a job that has not started, or whose driver has returned, aborts the transaction at once. |
| `JobPromises.ExitCompletes` | job.c:870-896 | After job_exit the job is completed: waiting, pending, aborting or at its end. |
| `JobPromises.AbortGoesOn` | job.c:761-770 | When the job that an abort waits for has completed it is finalized, and the abort is over or waits for another member that is not completed; members that are left have not been touched. |
| `JobPromises.EarlyFailLeaves` | job.c:631-635 | job_early_fail takes the job off the list and out of the program and touches no other job. |
| `JobPromises.PauseStops` | job.c:484-603 | A running job that is paused, by the user or otherwise, stops at its next pause point; resuming and entering it takes it back to where it was, and on, unless somebody else has paused it. |
| `JobMisuse.EarlyFailFailsExactly` | job.c:631-770 | In every state a run can reach: job_early_fail of a CREATED job harms nothing at once, and the end of the wait in job_completed_txn_abort, which goes on to finalize the job it waited for, fails an assertion if and only if that is the job given up. |
| `JobMisuse.BreaksExactly` | job.c:117-948 | Whatever is done in a state a run can reach, to any job that is not dismissed, it opens the way to a failing assertion, through guarded actions only, if and only if it is an unguarded call: starting a job that is not CREATED, READY signalled when not RUNNING, cancelling again a job cancelled before its start, resuming a job that at most the user or its creation holds paused (for a job that has ended or was cancelled before its start: that has no pause counted), giving up a job that is not CREATED or is waited for, joining once members are PENDING or an abort has begun. |
| `JobMisuse.MisuseReached` | job.c:761-770 | A run gets to a state in which all of these but the READY signal are possible: one job cancelled before its start, the other CREATED and waited for. |
| `JobMisuse.ReadyTwiceReached` | job.c:824-828 | A run gets to a job that is READY and whose driver signals READY once more. |
| `JobMisuse.LateJoinReached` | job.c:117-128 | A run gets to a state in which members are PENDING and adding a job leads to a failing assertion. |
| `JobObjects.Transaction.ApplyPrepare` | job.c:139-172 | The loop stops at the first failure. |
| `JobObjects.Transaction.ApplyFinalize` | job.c:139-172 | The loop finalizes every member. |
| `JobObjects.Transaction.ApplyPending` | job.c:815-822 | The loop takes every member to PENDING. |
| `JobObjects.Transaction.CompletedTxnAbort` | job.c:729-776 | Both loops, in place. |
| `JobObjects.Transaction.WaitEnds` | job.c:761-770 | In place: the job that was waited for is finalized and the loop goes on; from any state a run can reach, no assertion fails. |
| `JobObjects.Transaction.CompletedTxnSuccess` | job.c:830-854 | In place, with the scan over the members: PENDING for all when all are completed, and on to finalization exactly if no member needs it done by hand (JobResults.LastExit, JobPromises.ManualPending). |
| `JobObjects.Transaction.Finalize` | job.c:792-804 | In place. |
| `JobObjects.Transaction.Exit` | job.c:870-896 | From any state a run can reach, no assertion fails. |
| `JobObjects.Transaction.Cancel` | job.c:926-948 | From any state a run can reach, and for every job but one cancelled before it was started and not yet finalized, no assertion fails. |
| `JobObjects.Transaction.UserFinalize` | job.c:806-813 | From any state a run can reach, no assertion fails. |
| `GdbPacket.HexRoundTrip` | gdbstub.c:548-566 | fromhex undoes tohex. |
| `GdbPacket.SumsAgree` | gdbstub.c:642-645 | The sender's sum over chars, signed or not, and the receiver's sum over bytes agree in the low byte. |
| `GdbPacket.ReadByteFits` | gdbstub.c:2810-2950 | No byte takes the line index beyond MAX_PACKET_LENGTH-1. |
| `GdbPacket.StreamFits` | gdbstub.c:2810-2950 | Nor does any stream of bytes, whatever each packet and each interruption of the guest makes the stub do. |
| `GdbPacket.FeedEscaped` | gdbstub.c:2853-2894 | The parser undoes the escapes of memtox. |
| `GdbPacket.FeedRun` | gdbstub.c:2895-2917 | A run-length sequence stands for the repeated character, with the count of the protocol. |
| `GdbPacket.CStringWhole` | gdbstub.c:2384-2384 | The string gdb_handle_packet reads from the buffer is the whole line if and only if there is no NUL in the line. |
| `GdbPacket.RoundTrip` | gdbstub.c:2841-2950 | Every payload of at most MAX_PACKET_LENGTH-1 bytes, encoded and framed, arrives in the line buffer exactly as it was and is acknowledged; the handler, given a C string, sees exactly this payload if and only if no byte of it is NUL. |
| `GdbPacket.WrongChecksum` | gdbstub.c:2930-2944 | A packet whose checksum does not match is refused with a NAK and not handled. |
| `GdbPacket.BrokenDigits` | gdbstub.c:2918-2936 | A '#' that is not followed by two hex digits does not end the packet: the line goes on as if neither had been sent, and nothing is handled or answered. |
| `GdbPacket.Outstanding` | gdbstub.c:2815-2832 | While a reply is outstanding: '-' sends exactly that reply once more and changes nothing else, '+' ends the wait, '$' ends it and starts a packet, every other byte is dropped. |
| `GdbPacket.FeedNaks` | gdbstub.c:2818-2821 | Any number of NAKs sends the reply as many times. |
| `GdbPacket.PacketArrives` | gdbstub.c:2815-2950 | A packet arrives and is answered the same whether or not the last reply was acknowledged. |
| `GdbPacket.AnyByteStops` | gdbstub.c:2834-2838 | While the guest runs and no reply is outstanding, any byte stops it, and is not parsed. |
| `GdbGarble.EscapeDecodes` | gdbstub.c:2841-2894 | An encoded payload has no byte in it that would end, repeat or restart a packet, and undoing its escapes gives the payload back. |
| `GdbGarble.GarbledIsRefused` | gdbstub.c:2841-2944 | One body byte garbled to anything but '#' and '*', in any payload, escaped or not: nothing is handled, and the stub sends a NAK -- unless the payload has the greatest length and the byte was an escape, where the line overruns and is dropped silently. |
| `GdbGarble.GarbledExactly` | gdbstub.c:2841-2950 | For every payload, body position and byte: what the stub handles when that byte is garbled to this one. A '#' or '*' is accepted exactly when the sums of the bytes that it cuts off or hides happen to agree. |
| `GdbGarble.GarbledAccepted` | gdbstub.c:2895-2944 | Two packets that are accepted with a garbled byte, one with '#' and one with '*'. |
| `GdbPacket.AllHandled` | gdbstub.c:2810-2950 | Every packet of a conversation is handled, once and in order, with any reply to each, any number of NAKs before the acknowledgement, the acknowledgement left out, and whether or not a packet lets the guest run until a byte stops it; what is sent is exactly the acknowledgements and replies, each reply once more per NAK. |
| `GdbServer.MemToX` | gdbstub.c:679-695 | The loop appends the encoded bytes. |
| `GdbServer.Server.PutPacketBinary` | gdbstub.c:625-665 | The loop sums the bytes; the framed packet is sent and kept. |
| `GdbServer.Server.ReadByte` | gdbstub.c:2810-2950 | In place, never writing outside the line buffer, does what is specified: resending on a NAK (GdbPacket.Outstanding), stopping the guest, parsing. |
| `GdbServer.Server.Repeat` | gdbstub.c:2910-2912 | The repeated character fills the buffer and stays inside it. |
| `GdbServer.Server.TerminateLine` | gdbstub.c:2925-2925 | There is always room for the terminating NUL. |

## Left out

- BlockInactivate.InactivateAllInOrder: for one given order of the lists the condition is sufficient only, because a parent outside the subtree can put the visit off; the exact condition, over all orders, is BlockShortcuts.SafeExactly.
- BlockWriters.NoWriterOfReadOnly: runs without inactivation; BlockDormant.NoWriterOfInactive is about runs with it.
- BlockDormant.InactivateProtectsExactly: for nodes of aligned size whose driver's own check accepts whatever is looser than what it accepts, because a refusal of a looser use is kept from the user that gives up; a driver's and a user's inactivation hook succeeds.
- BlockGrants.TrySetExactly: exact for graphs in which no node below is reachable in two ways. A node with two parents below the request is checked once per way, with intermediate permissions, so that the verdict depends on the order of the child lists; BlockGrants.TrySetBound covers every DAG in one direction.
- BlockGrants.AttachExactly: the same.
- BlockGrants.ReplaceExactly: the same.
- BlockShrink.DetachSettles: for nodes that agree to any use looser than their own; BlockGrants.AlignmentLost shows one that does not.
- BlockReplace.ReplaceSoundExactly: exact for the coverage of children, not for the assertion of a later detach, which also depends on what is attached in between and on the order in which children are checked.
- BlockGraph: a driver's own `.bdrv_check_perm` is a fixed set of uses it accepts; all other drivers use `bdrv_default_perms`; reopening, draining, AioContexts and reference counts are not modelled.
- BlockLayer: the graph is one object with maps for nodes and edges, not one object per node and edge.
- Jobs: coroutine scheduling, timers, progress and contexts; `job_finish_sync` is the arrival of the awaited member at a completed status; driver callbacks do not re-enter the job functions and do not clear the cancelled flag; runs do without the unguarded calls of JobMisuse.BreaksExactly: jobs are started only while CREATED, pauses and resumptions are balanced, drivers signal READY only while RUNNING, nobody cancels a job again that was cancelled before it was started, gives up a job that is not CREATED or that an abort waits for, or adds a job once members are PENDING or an abort has begun.
- Jobs, reference counts: jobs and transactions are not freed. Where an awaited job was given up and the model has a failing assertion, the program may instead read the freed job; a creator that holds its own reference could add jobs to a transaction whose last job has ended, which the model leaves out.
- Exclusive sections: CPUs that join or leave the CPU list during a request; queued work items.
- Physical memory: IOMMUs, Xen, MMIO accesses in the read and write loops, RCU reclamation, flushing of translations; region offsets do not wrap around.
- RAM list: the RCU race of a reader that still sees a freed block; allocation of host memory is a yes or no.
- Bounce buffer: the contents of the buffer and the write-back on unmap.
- GDB: command handlers and transport; a guest that stops by itself; more than one garbled byte, or a garbled frame or checksum digit (digits that do not match are GdbPacket.WrongChecksum); the polling loop of user-mode emulation that waits for the acknowledgement; the running checksum is an unbounded integer.
