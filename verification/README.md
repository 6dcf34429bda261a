# Proofs about the shared-memory queue and the vector-cgroup code

The project models two parts of the repository and proves what they are for.

**The shared-memory queue** (`src/include/shm_mpsc_queue.h`) is a transition system. Every
volatile read, compare-and-swap and store is one step; any number of producers and one
consumer interleave. The invariant says what the links mean at each moment, also between
the release of `pending_tail` in `PopAll` and the termination of the popped chain.

**The control groups** (`src/cgroup`) are a tree of cgroups with counters, caches and early
exits. A cgroup is named by its css serial number, so parents have smaller numbers and
sibling lists ascend. Each component is a class with the fields of the source and methods
with its loops. `Valid()` is the invariant that every method keeps, so it holds in every
state that constructors and methods can reach; the lemmas say what it means.

| module | what it proves |
|---|---|
| `MpscQueue` | nothing is lost, duplicated or reordered; every slot is in one place; locks exclude |
| `MpscCalls` | what the calls return, and that each call completes, with the stated effect, when nothing interrupts it |
| `CgroupTree` | the pre-order and post-order walks, skipping a subtree, cursors that were released |
| `Hierarchy` | the two kinds of counters over the tree (below a node, and on a path) |
| `UpdatedTree`, `Rstat` | the per-CPU updated tree, and that a flush sums whole subtrees |
| `FreezerCounts`, `Freezer` | the version 2 freezer, its walk interleaved with tasks that stop, fork and exit |
| `LegacyFreezer` | the legacy freezer |
| `SchedDomains` | scheduler domains are the components of the overlap relation |
| `CpusetMasks` | pruned recomputation of effective masks is full recomputation |
| `Subparts` | the CPUs lent to partition roots |
| `Populated` | the populated counters |
| `TaskIter` | task iteration while tasks come and go |
| `ControlMasks` | controller masks: fixpoint, propagation, rollback |
| `Pids` | hierarchical charging with one atomic step per cgroup, and without interruption |
| `Rdma` | pools that exist only while used or limited, charging with rollback |
| `Migration` | two-phase migration, over `Populated` and `Pids` |

Code that the source runs under one lock is one atomic step. Where it drops the lock, as
in the walk of `cgroup_freeze`, between two calls of `css_task_iter_next`, and in a failing
`rdmacg_try_charge`, each locked section is a method of its own and the invariant holds
between them. Where functions that the model computes with also occur in a contract, the
meaning is stated once more over the fields alone, with a lemma that connects the two. In
`Freezer` the field `unvisited` and in `MpscQueue` the type `Meaning` say
what is true in the middle of such a walk.

Two statements that one might expect do not hold of the code. For each there is an input
that shows it and the exact condition under which it holds.

- Enabling a partition root and disabling it again gives the parent its `effective_cpus`
  back if and only if all CPUs of the child are active when it is disabled
  (`Subparts.Parent.EnableThenDisable`): lent CPUs that have gone offline do not come back
  (`Subparts.OfflineCpuIsLost`). `subparts_cpus` is restored in any case.
- Between the two sections of `cgroup_do_freeze`, FROZEN need not say whether the cgroup must
  be frozen and all of it is (`Freezer.OutOfStepReached`). When the first section has changed
  the FREEZE flag, FROZEN is right if and only if, by the counters of the cgroup, something in
  it is not frozen (`Freezer.Freezer.FirstSection`, `Freezer.Freezer.FreezeVisit`). For every
  other cgroup the exact meaning of FROZEN at any moment of a walk is
  `Freezer.Freezer.FrozenDuringWalk`, and outside walks `Freezer.Freezer.FrozenMeansAllFrozen`.

`dafny verify dfyconfig.toml` checks everything.

## Model

| member | source | states |
|---|---|---|
| `MpscQueue.FifoDelivery` | src/include/shm_mpsc_queue.h:67-88 | in every state of every run, the data in order of publication is what the consumer has read, then its unread chain, then the list threaded from slot 0; `pending_tail` is the last pending slot or the lock word |
| `MpscQueue.DrainedMeansDelivered` | src/include/shm_mpsc_queue.h:67-83 | what was read is a prefix of what was published, and all of it when nothing is pending and the consumer is back at `PopAll` |
| `MpscQueue.SlotsPartitioned` | src/include/shm_mpsc_queue.h:57-95 | in every state every slot from 1 on is exactly once on the free list, the pending list or the consumer's chain, or else in exactly one producer's hand; both lists are threaded from their heads, the free list ends in `SIZE`, and an `Alloc` that holds the lock has its first slot |
| `MpscQueue.MutualExclusion` | src/include/shm_mpsc_queue.h:99-108 | each lock word has at most one holder and shows its lock value while it is held |
| `MpscQueue.NoCallBeforeInit` | src/include/shm_mpsc_queue.h:42-55 | until the single initialiser has stored 2, every thread is inside the constructor |
| `MpscQueue.AccessesInBounds` | src/include/shm_mpsc_queue.h:57-95 | every index that `Alloc`, `Push`, `PopAll`, `NextEntry` and `Recycle` use lies in the array, and an entry is never slot 0 |
| `MpscQueue.RunKeeps` | src/include/shm_mpsc_queue.h:42-108 | the invariant (what the links mean at each moment) holds in every state of every interleaving of any number of producers and one consumer |
| `MpscQueue.NextKeeps` | src/include/shm_mpsc_queue.h:42-108 | every single step of any thread keeps the invariant |
| `MpscQueue.ConstructorFinishes` | src/include/shm_mpsc_queue.h:42-55 | the initialiser's last store publishes a queue whose free list holds all slots from 1 on, for any number of spinning threads |
| `MpscQueue.AllocStoreKeeps` | src/include/shm_mpsc_queue.h:57-65 | unlocking with the next link takes exactly the top of the free list into the caller's hand |
| `MpscQueue.PushStoreKeeps` | src/include/shm_mpsc_queue.h:67-73 | the store that unlocks `pending_tail` appends the entry to the pending list and publishes its data |
| `MpscQueue.PopUnlockKeeps` | src/include/shm_mpsc_queue.h:75-83 | releasing `pending_tail` before the chain is terminated already hands the whole pending list to the consumer |
| `MpscQueue.PopCutKeeps` | src/include/shm_mpsc_queue.h:75-83 | terminating the chain after the unlock touches no list that a producer may have started since |
| `MpscQueue.RecStoreKeeps` | src/include/shm_mpsc_queue.h:90-95 | `Recycle` gives a whole chain back, its first entry on top |
| `CgroupTree.NextChild` | src/cgroup/cgroup.c:4182-4226 | the first surviving child numbered above the cursor, whether the cursor is linked or released; the first child without a cursor |
| `CgroupTree.NextChildIsSuccessor` | src/cgroup/cgroup.c:4182-4226 | for a linked cursor that is the next entry of the sibling list |
| `CgroupTree.NextDescendantPre` | src/cgroup/cgroup.c:4250-4275 | the node that pre-order of `root` visits next, none at the end, for any cursor that is a descendant of `root`, linked or released |
| `CgroupTree.NextUpwards` | src/cgroup/cgroup.c:4262-4275 | climbing from a leaf finds the first node after its subtree, without leaving `root`, from a released cursor too |
| `CgroupTree.NextDescendantPost` | src/cgroup/cgroup.c:4345-4367 | the node that post-order of `root` visits next, for a linked or a released cursor |
| `CgroupTree.RightmostDescendant` | src/cgroup/cgroup.c:4292-4307 | the last node of the subtree in pre-order, after which comes exactly what comes after the subtree |
| `CgroupTree.LeftmostDescendant` | src/cgroup/cgroup.c:4310-4320 | the first node of the subtree in post-order |
| `CgroupTree.PreEnumerates` | src/cgroup/cgroup.c:4250-4275 | pre-order holds exactly the nodes of the subtree, each once |
| `CgroupTree.PostEnumerates` | src/cgroup/cgroup.c:4345-4367 | post-order holds exactly the nodes of the subtree |
| `CgroupTree.PostDistinct` | src/cgroup/cgroup.c:4345-4367 | post-order holds no node twice |
| `CgroupTree.PreWalkAdvances` | src/cgroup/cgroup.c:4250-4275 | from the k-th node of pre-order the walk goes to node k+1, and ends after the last |
| `CgroupTree.PostWalkAdvances` | src/cgroup/cgroup.c:4345-4367 | the same for post-order |
| `CgroupTree.ForEachDescendantPre` | src/cgroup/cgroup.c:4250-4275 | the loop from a null cursor ends and visits pre-order, hence exactly the subtree, each node once |
| `CgroupTree.ForEachDescendantPost` | src/cgroup/cgroup.c:4345-4367 | the loop from a null cursor ends and visits post-order, hence exactly the subtree |
| `CgroupTree.RightmostSkipsSubtree` | src/cgroup/cgroup.c:4292-4307 | replacing the cursor by its rightmost descendant skips exactly its subtree |
| `CgroupTree.SkipSubtree` | src/cgroup/cgroup.c:4292-4307 | continuing from the rightmost descendant gives the first node after the subtree |
| `CgroupTree.ParentBefore` | src/cgroup/cgroup.c:4250-4275 | pre-order visits a parent before its children |
| `CgroupTree.KidsBefore` | src/cgroup/cgroup.c:4345-4367 | post-order visits children before their parent |
| `UpdatedTree.UpdatedLists.constructor` | src/cgroup/rstat.c:242-262 | empty self-terminated lists are well formed |
| `UpdatedTree.UpdatedLists.Updated` | src/cgroup/rstat.c:25-66 | each cgroup up to the first member is added at the head of its list; afterwards the members are the old ones and the whole path, lists stay self-terminated, `updated_next` is non-null exactly for members, and members' non-root ancestors are members |
| `UpdatedTree.UpdatedLists.PopUpdated` | src/cgroup/rstat.c:84-139 | returns the first leaf of the rest of the traversal and takes exactly it off its list; null once `root` has been returned or has nothing left |
| `UpdatedTree.UpdatedLists.FindSlot` | src/cgroup/rstat.c:116-129 | the walk along the sibling list ends at the slot before the node and never at the parent |
| `UpdatedTree.UpdatedLists.UnlinkFromList` | src/cgroup/rstat.c:111-135 | exactly the leaf leaves its list |
| `UpdatedTree.AddPathLinks` | src/cgroup/rstat.c:48-63 | adding a path keeps every member, makes the cgroup one, and adds nothing that is not on its path |
| `UpdatedTree.PoppedIsNext` | src/cgroup/rstat.c:84-139 | one call returns the head of the traversal that is left, and none exactly when nothing is left |
| `UpdatedTree.TraversalEnumerates` | src/cgroup/rstat.c:84-139 | a traversal returns exactly the members of the subtree, each once |
| `UpdatedTree.ChildrenFirst` | src/cgroup/rstat.c:84-139 | a traversal returns children before parents |
| `Rstat.Rstat.constructor` | src/cgroup/rstat.c:242-262 | zero counters and empty updated trees satisfy the invariant |
| `Rstat.Rstat.Account` | src/cgroup/rstat.c:347-353 | a changed per-CPU amount puts the cgroup's path on that CPU's updated tree; the invariant holds |
| `Rstat.Rstat.AccountCputime` | src/cgroup/rstat.c:355-362 | adds the delta, modulo 2^64, to `sum_exec_runtime` on one CPU only |
| `Rstat.Rstat.AccountCputimeField` | src/cgroup/rstat.c:364-386 | adds the delta to `utime` or `stime` as the index says, to nothing for other indices |
| `Rstat.Rstat.BaseStatFlush` | src/cgroup/rstat.c:305-335 | moves what has changed since the last flush, and the pending amount, into the total and the parent's pending amount |
| `Rstat.FlushBalances` | src/cgroup/rstat.c:305-335 | total plus pending stays the sum of last-seen values plus the children's totals, for every cgroup |
| `Rstat.FlushKeeps` | src/cgroup/rstat.c:155-158 | unlinking a leaf and flushing it keeps the invariant: unflushed or pending amounts imply membership |
| `Rstat.AccountKeeps` | src/cgroup/rstat.c:337-386 | accounting keeps it too |
| `Rstat.Rstat.FlushNext` | src/cgroup/rstat.c:155-165 | one round of the loop takes the next member off the tree and flushes it |
| `Rstat.Rstat.FlushCpu` | src/cgroup/rstat.c:149-166 | the pass over one CPU flushes exactly the members of the subtree, children first, and leaves none of them |
| `Rstat.Rstat.Flush` | src/cgroup/rstat.c:192-199 | afterwards the total of every non-root cgroup of the subtree is the sum of the per-CPU counters over its whole subtree and all CPUs |
| `Rstat.FlushedIsSummed` | src/cgroup/rstat.c:142-199 | in any state of the invariant, a subtree with no member left has such totals |
| `Rstat.SubtreeSplits` | src/cgroup/rstat.c:305-335 | the sum over a subtree is the root's own amounts and the sums over its children's subtrees |
| `Freezer.Freezer.FrozenMeansAllFrozen` | src/cgroup/freezer.c:14-323 | in every reachable state outside a walk: FROZEN iff some self-or-ancestor has `freeze` set and every task of the subtree is frozen; `e_freeze` counts these settings; `nr_frozen_descendants` counts the live FROZEN strict descendants |
| `Freezer.Freezer.FrozenIsSafe` | src/cgroup/freezer.c:14-323 | at every moment, also during a walk, below a FROZEN cgroup every live cgroup is FROZEN and every task frozen |
| `Freezer.Freezer.constructor` | src/cgroup/freezer.c:14-323 | the root alone satisfies the invariant |
| `Freezer.Freezer.PropagateFrozen` | src/cgroup/freezer.c:14-46 | repairs the ancestors' counters and FROZEN flags after one flip, leaving everything that is not above alone |
| `Freezer.Freezer.UpdateFrozen` | src/cgroup/freezer.c:52-84 | makes the flag of the cgroup right and, when it flips, that of all ancestors |
| `Freezer.Freezer.EnterFrozen` | src/cgroup/freezer.c:107-120 | a task that stops keeps the invariant, also between two steps of a walk |
| `Freezer.Freezer.LeaveFrozen` | src/cgroup/freezer.c:131-149 | so does one that continues; it stays frozen when it must and is not told to leave in any case |
| `Freezer.Freezer.Fork` | src/cgroup/cgroup.c:6047-6078 | a forked task joins its parent's cgroup; the invariant holds without any update of the state |
| `Freezer.Freezer.Exit` | src/cgroup/cgroup.c:6109-6140 | an exiting task leaves its cgroup, which may freeze it |
| `Freezer.Freezer.FreezerMigrateTask` | src/cgroup/freezer.c:222-258 | a frozen task takes its count along and both cgroups are revisited; afterwards both are right |
| `Freezer.Freezer.Migrate` | src/cgroup/cgroup.c:2494-2510 | the commit of one task keeps the invariant |
| `Freezer.Freezer.FreezeStart` | src/cgroup/freezer.c:271-280 | nothing happens when the setting does not change; otherwise the walk is at the cgroup and has its whole subtree before it |
| `Freezer.Freezer.FreezeVisit` | src/cgroup/freezer.c:279-308 | a live cgroup counts the new setting, and exactly at the edge between none and one its FREEZE flag changes; a dying one is passed over; right after such a change FROZEN is out of step with FREEZE exactly if, by the counters, everything in the cgroup is frozen |
| `Freezer.Freezer.FirstSection` | src/cgroup/freezer.c:184-189 | changes the FREEZE flag alone; FROZEN is then out of step exactly if everything in the cgroup is frozen |
| `Freezer.Freezer.SecondSection` | src/cgroup/freezer.c:212-215 | makes the FROZEN flag right again, whatever has happened since the first section |
| `Freezer.Freezer.FreezeRevisit` | src/cgroup/freezer.c:212-216 | closes the window between the two sections and moves the cursor on; the invariant holds |
| `Freezer.Freezer.CgroupFreeze` | src/cgroup/freezer.c:260-323 | the whole walk ends with the invariant and the setting changed |
| `FreezerCounts.CgroupTold` | src/cgroup/freezer.c:285-301 | `e_freeze` of the visited cgroup is the number of settings above again, never negative, and skipping the others leaves FREEZE right |
| `FreezerCounts.LagStep` | src/cgroup/freezer.c:25-45 | one round of the upward loop hands the difference, plus or minus a flip of the parent, to the next ancestor |
| `FreezerCounts.RoundCounts` | src/cgroup/freezer.c:25-45 | in the loop no counter exceeds the number of descendants, and it stays below that while the cgroup itself is not FROZEN |
| `Freezer.Freezer.Create` | src/cgroup/cgroup.c:5277-5305 | a new cgroup starts frozen iff its parent must be frozen, and every ancestor counts it; the invariant holds |
| `Freezer.Freezer.CountAtAncestors` | src/cgroup/cgroup.c:5290-5304 | exactly the strict ancestors' counters change |
| `Freezer.Freezer.HasOnlineChildren` | src/cgroup/cgroup.c:4377-4391 | some child is live iff some strict descendant is |
| `Freezer.Freezer.Destroy` | src/cgroup/cgroup.c:5541-5601 | refused iff there is a task or a live descendant; otherwise the ancestors lose one descendant, a frozen one iff it was FROZEN, and the invariant holds |
| `SchedDomains.GenerateSchedDomains` | src/cgroup/cpuset.c:733-893 | one full domain when the top cpuset balances and has lent nothing; otherwise the overlap components of the collected cpusets: pairwise disjoint, not cut by any set that cuts no collected cpuset, each collected cpuset's effective housekeeping CPUs inside one; every CPU of a domain is a housekeeping CPU and effective in a load-balanced cpuset that is online or the top one; when masks are nested, the CPUs of every balancing cpuset are inside one domain |
| `SchedDomains.CollectCpusets` | src/cgroup/cpuset.c:775-808 | collects, each once, exactly the cpusets that are online, load-balanced, have effective CPUs and housekeeping or no configured ones, are not covered by a balancing top cpuset, and have only partition roots or passed-over cpusets above; the top one iff it balances; hence nothing below a collected cpuset that is no partition root |
| `SchedDomains.CollectStep` | src/cgroup/cpuset.c:776-807 | one round: what is collected and what is still to be collected stay the same in total |
| `SchedDomains.MergeOverlaps` | src/cgroup/cpuset.c:811-835 | the restart loop ends; the `pn` classes are exactly the connected components of overlap and `ndoms` their number |
| `SchedDomains.FindOverlap` | src/cgroup/cpuset.c:815-823 | the scan finds an overlapping pair in different classes iff there is one |
| `SchedDomains.RelabelClass` | src/cgroup/cpuset.c:824-829 | exactly the members of one class change to the other |
| `SchedDomains.MergeIsSound` | src/cgroup/cpuset.c:822-832 | a merge joins only connected cpusets |
| `SchedDomains.MergeDropsOne` | src/cgroup/cpuset.c:830-832 | a merge leaves exactly one class less |
| `SchedDomains.MergedIsComponents` | src/cgroup/cpuset.c:813-835 | when no overlap is left across classes, the classes are the components |
| `SchedDomains.FillDomains` | src/cgroup/cpuset.c:837-893 | exactly `ndoms` slots are filled, so the final check cannot fail; each is the housekeeping part of one class |
| `SchedDomains.FillDomain` | src/cgroup/cpuset.c:869-888 | one slot gets the housekeeping CPUs of the whole class although the scan starts at its first member |
| `SchedDomains.FilledIsPartition` | src/cgroup/cpuset.c:837-893 | such slots are the overlap components, and no set that cuts no cpuset cuts one of them |
| `SchedDomains.PartitionDomains` | src/cgroup/cpuset.c:809-893 | both phases together, for any list of cpusets |
| `Populated.CssSets.PopulatedMeans` | src/cgroup/cgroup.c:798-828 | in every reachable state a cgroup is populated iff some task is in its subtree; `nr_populated_csets` counts its non-empty css_sets, and the two child counters its populated children of each kind |
| `Populated.CssSets.UpdatePopulated` | src/cgroup/cgroup.c:798-828 | the upward walk with its early break makes every counter of every cgroup exact again |
| `Populated.RoundKeeps` | src/cgroup/cgroup.c:805-827 | after one round only the parent is off, by one in the counter of the child's kind, and no cgroup at all if the state did not change |
| `Populated.CssSets.UpdateCset` | src/cgroup/cgroup.c:838-846 | a css_set counts at all its cgroups or at none |
| `Populated.CssSets.MoveTask` | src/cgroup/cgroup.c:878-911 | the task leaves the list it is on and joins the tail of the requested one; all counters stay exact |
| `Populated.CssSets.Leave` | src/cgroup/cgroup.c:887-893 | the part that takes the task off its list, while the destination already counts |
| `Populated.CssSets.constructor` | src/cgroup/cgroup.c:798-911 | empty css_sets and zero counters satisfy the invariant |
| `Populated.CssSets.GatherTask` | src/cgroup/cgroup.c:2364-2392 | moving a task to `mg_tasks` leaves every counter as it is |
| `Populated.CssSets.SpliceBack` | src/cgroup/cgroup.c:2547-2550 | splicing `mg_tasks` back to `tasks` leaves every counter as it is |
| `LegacyFreezer.FreezingMeans` | src/cgroup/legacy_freezer.c:349-417 | a live freezer is FREEZING iff FREEZING_SELF is set at it or an ancestor |
| `LegacyFreezer.FrozenReachesDown` | src/cgroup/legacy_freezer.c:244-316 | FROZEN implies FREEZING and FROZEN at every online freezer below |
| `LegacyFreezer.LegacyFreezer.ApplyState` | src/cgroup/legacy_freezer.c:349-375 | sets or clears one of the two reasons; the flags stay consistent with parent and children and `system_freezing_cnt` stays the number of FREEZING freezers |
| `LegacyFreezer.LegacyFreezer.ChangeState` | src/cgroup/legacy_freezer.c:385-417 | the setting of exactly the given live freezer changes, FREEZING_PARENT agrees with the parent everywhere again, FROZEN stays exactly where the freezer is still FREEZING, and nothing outside the subtree changes |
| `LegacyFreezer.LegacyFreezer.VisitFreezer` | src/cgroup/legacy_freezer.c:397-413 | the visited freezer agrees with its parent and keeps FROZEN exactly if still FREEZING; no other freezer changes, and only its children can be put out of step |
| `LegacyFreezer.LegacyFreezer.constructor` | src/cgroup/legacy_freezer.c:105-121 | the root freezer satisfies the invariant |
| `LegacyFreezer.LegacyFreezer.Online` | src/cgroup/legacy_freezer.c:105-121 | a new freezer takes over its parent's state and is counted |
| `LegacyFreezer.LegacyFreezer.Offline` | src/cgroup/legacy_freezer.c:130-142 | loses all its flags and its count |
| `LegacyFreezer.LegacyFreezer.ClearUpwards` | src/cgroup/legacy_freezer.c:182-186 | stopping at the first freezer that is not FROZEN, the loop clears FROZEN at every self-or-ancestor |
| `LegacyFreezer.LegacyFreezer.Attach` | src/cgroup/legacy_freezer.c:158-191 | tasks in FREEZING freezers are asked to freeze and nothing above them stays FROZEN; the others are thawed and change no flag |
| `LegacyFreezer.LegacyFreezer.UpdateIfFrozen` | src/cgroup/legacy_freezer.c:244-289 | FROZEN is set iff it was, or the freezer is FREEZING, its online children are FROZEN and no task is still running |
| `LegacyFreezer.LegacyFreezer.Read` | src/cgroup/legacy_freezer.c:291-316 | every live freezer below is brought up to date once, children first, and the state of the one asked for is reported |
| `LegacyFreezer.ClearedKeeps` | src/cgroup/legacy_freezer.c:182-186 | clearing FROZEN on a whole path to the root keeps the invariant and the count |
| `CpusetMasks.Cpusets.UpdateNodemask` | src/cgroup/cpuset.c:1787-1837 | afterwards every effective node mask is what full recomputation gives: within the parent's, the configured nodes in it if there are any, and only in v2 mode otherwise all of it |
| `CpusetMasks.Cpusets.UpdateNodemasksHier` | src/cgroup/cpuset.c:1731-1772 | from one cpuset out of step the pruned walk restores agreement everywhere and changes nothing outside the subtree |
| `CpusetMasks.Cpusets.VisitMems` | src/cgroup/cpuset.c:1737-1770 | after a round only unvisited cpusets with a visited parent can be out of step, whether the subtree was skipped or not |
| `CpusetMasks.Cpusets.UpdateCpumask` | src/cgroup/cpuset.c:1499-1580 | the same for effective CPU masks, and `child_ecpus_count` counts the children that inherit |
| `CpusetMasks.Cpusets.UpdateCpumasksHier` | src/cgroup/cpuset.c:1317-1462 | the same for one cpuset out of step |
| `CpusetMasks.Cpusets.NewCpus` | src/cgroup/cpuset.c:1326-1343 | the new mask, its flag and the parent's count of such children |
| `CpusetMasks.Cpusets.VisitCpus` | src/cgroup/cpuset.c:1323-1407 | one round of the walk, skipped subtree or not |
| `CpusetMasks.ConsistentIsFull` | src/cgroup/cpuset.c:1731-1772 | agreement of every cpuset with its parent is full recomputation |
| `CpusetMasks.FlipKeepsCounted` | src/cgroup/cpuset.c:1333-1343 | changing a flag together with the parent's count keeps every count, and a count to be lowered is positive |
| `ControlMasks.CalcSubtreeSsMask` | src/cgroup/cgroup.c:1521-1551 | the loop ends with the mask that `CalcIsLeast` characterises |
| `ControlMasks.CalcIsLeast` | src/cgroup/cgroup.c:1521-1551 | it is the least mask within the available subsystems that is closed under available dependencies and holds the available part of the requested and implicit subsystems and their dependencies |
| `ControlMasks.StableNested` | src/cgroup/cgroup.c:3045-3056 | in a propagated hierarchy `subtree_control` is within `subtree_ss_mask`, which is within `cgroup_ss_mask` |
| `ControlMasks.RefreshStable` | src/cgroup/cgroup.c:3045-3056 | one round makes the cgroup stable, concerns only it and its children, and changes nothing that is stable |
| `ControlMasks.ControlHierarchy.Propagate` | src/cgroup/cgroup.c:3045-3056 | every live cgroup below gets, of its old `subtree_control`, what its parent enables and, if it is threaded, threaded controllers only; its `subtree_ss_mask` is the least mask with these, the implicit ones and all dependencies, as far as the parent's mask allows; nothing changes when everything was stable |
| `ControlMasks.ControlHierarchy.Save` | src/cgroup/cgroup.c:3025-3035 | the saved masks are the current ones in the live subtree, and unchanged elsewhere |
| `ControlMasks.ControlHierarchy.Restore` | src/cgroup/cgroup.c:3066-3076 | the current masks are the saved ones in the live subtree, and unchanged elsewhere |
| `ControlMasks.ControlHierarchy.Finalize` | src/cgroup/cgroup.c:3223-3231 | after a failure every mask is what it was when saved, provided that was stable |
| `ControlMasks.ControlHierarchy.ChangeControl` | src/cgroup/cgroup.c:3352-3361 | a failed change of `subtree_control` restores every mask; a successful one grants every live cgroup below, in that sense, its request: the changed one at the cgroup itself and the old one elsewhere |
| `ControlMasks.ControlHierarchy.EnableThreaded` | src/cgroup/cgroup.c:3411-3422 | the same for joining the parent's resource domain: the cgroup and what is threaded below keep threaded controllers only, the others what their parents still enable |
| `ControlMasks.ControlHierarchy.JoinDomain` | src/cgroup/cgroup.c:3413-3415 | exactly the cgroup and the threaded ones of its live subtree change their domain |
| `Pids.LimitHolds` | src/cgroup/pids.c:95-168 | in every interleaving of any number of charges and releases, what has passed a cgroup and was not taken back is within its limit; counters are never negative |
| `Pids.QuietIsExact` | src/cgroup/pids.c:95-168 | whenever no call is in flight every non-root counter is the sum of the charges held in its subtree |
| `Pids.RunKeeps` | src/cgroup/pids.c:95-168 | the invariant holds in every state of every run |
| `Pids.StepKeeps` | src/cgroup/pids.c:95-168 | each single atomic step keeps it |
| `Pids.StepWeight` | src/cgroup/pids.c:95-168 | the step of a charge changes each counter by exactly what it changes of the charge's part there, and a charge passes a cgroup only within the limit |
| `Pids.PidsCgroups.TryCharge` | src/cgroup/pids.c:143-168 | without interference: charged on the whole path iff every limit on it allows, otherwise every counter is as before |
| `Pids.PidsCgroups.Revert` | src/cgroup/pids.c:162-167 | the revert loop takes back exactly what was added, the cgroup over its limit included |
| `Pids.PidsCgroups.Charge` | src/cgroup/pids.c:109-132 | adds on the path below the root and nowhere else |
| `Pids.PidsCgroups.CanAttach` | src/cgroup/pids.c:170-193 | charges every destination and releases every source, task by task |
| `Pids.PidsCgroups.CancelAttach` | src/cgroup/pids.c:195-211 | takes back exactly that |
| `Rdma.RdmaCgroups.TryCharge` | src/cgroup/rdma.c:259-303 | without interference: charged at the cgroup and all its ancestors iff every limit allows and every pool can be had; otherwise all pools, and which pools there are, are as before |
| `Rdma.RdmaCgroups.TryChargeLocked` | src/cgroup/rdma.c:277-300 | up to the release of the mutex: a failed charge holds what it has charged below the place of failure, so the pools still hold exactly the charges |
| `Rdma.RdmaCgroups.ChargeUp` | src/cgroup/rdma.c:277-293 | the loop stops at the first cgroup that refuses, having charged exactly those below |
| `Rdma.RdmaCgroups.ChargeOne` | src/cgroup/rdma.c:279-292 | one round: the pool, created if need be, is charged when the limit allows; a round that is refused or gets no memory changes nothing |
| `Rdma.RdmaCgroups.UnchargeAt` | src/cgroup/rdma.c:205-235 | takes back one charge that is held, and nothing else |
| `Rdma.RdmaCgroups.UnchargeHierarchy` | src/cgroup/rdma.c:205-220 | takes one unit from every pool up to the given cgroup |
| `Rdma.RdmaCgroups.UnchargeOne` | src/cgroup/rdma.c:162-196 | a pool goes exactly when it is neither used nor limited |
| `Rdma.RdmaCgroups.SetMax` | src/cgroup/rdma.c:463-480 | writes exactly the given limits; a pool left unused and unlimited goes |
| `Rdma.RdmaCgroups.constructor` | src/cgroup/rdma.c:113-149 | no pools satisfy the invariant |
| `Rdma.SetLimitCounted` | src/cgroup/rdma.c:82-93 | `num_max_cnt` stays the number of limits at max |
| `Rdma.UnusedIsFresh` | src/cgroup/rdma.c:188-195 | the test for freeing holds only of a pool that is the same as a fresh one |
| `Rdma.UndoneIsSame` | src/cgroup/rdma.c:259-303 | charging up to a cgroup and uncharging up to it restores the map of pools |
| `Rdma.ChargeLoads` | src/cgroup/rdma.c:259-303 | after a charge the pools hold exactly the charges of their subtrees |
| `Rdma.UnchargeLoads` | src/cgroup/rdma.c:205-235 | and after taking one back |
| `TaskIter.StayingIsReturnedOnce` | src/cgroup/cgroup.c:4393-4636 | in a sequence of calls, departures and arrivals a task that stays on its only list is returned exactly once if it is wanted, never otherwise: with PROCS, group leaders, dying ones only with a live thread; else what is not dying; `Iterate` shows that runs of the iterator are such sequences |
| `TaskIter.StayingIsReturned` | src/cgroup/cgroup.c:4393-4636 | whatever else comes and goes, it is returned as often as it was ahead and is no longer |
| `TaskIter.IterationEnds` | src/cgroup/cgroup.c:4613-4636 | an iteration returns at most what was ahead at the start and what has joined since |
| `TaskIter.CssTaskIter.constructor` | src/cgroup/cgroup.c:4580-4603 | at the start all eligible tasks of the cgroup's css_sets, and of their threaded ones if asked for, are ahead, in order |
| `TaskIter.CssTaskIter.Next` | src/cgroup/cgroup.c:4613-4636 | returns the first task ahead, and none exactly when there is none; the rest stays ahead; the task is on a list of a css_set still to come: with PROCS a leader, a dying one only with a live thread, without PROCS on `tasks` or `mg_tasks` |
| `TaskIter.CssTaskIter.Advance` | src/cgroup/cgroup.c:4516-4567 | moves to the next eligible entry, by one entry or, after a skip, by none |
| `TaskIter.CssTaskIter.Round` | src/cgroup/cgroup.c:4516-4567 | one entry on, to the next list or css_set at the end of one |
| `TaskIter.CssTaskIter.AdvanceCset` | src/cgroup/cgroup.c:4451-4503 | to the first entry of the next css_set that has one |
| `TaskIter.CssTaskIter.NextCset` | src/cgroup/cgroup.c:4393-4443 | the next css_set, threaded ones between those of the cgroup |
| `TaskIter.CssTaskIter.Leave` | src/cgroup/cgroup.c:887-893 | a leaving task changes what is ahead by itself at most, and adds nothing, wherever the iterator stands |
| `TaskIter.CssTaskIter.Join` | src/cgroup/cgroup.c:898-910 | a task appended at a list tail changes what is ahead by itself at most, and adds one for each time the css_set is still to come, hence at most one when the css_sets are different |
| `Subparts.Parent.UpdateParentSubparts` | src/cgroup/cpuset.c:1142-1303 | the two masks stay disjoint and `effective_cpus` non-empty, `nr_subparts_cpus` stays the size, no active CPU leaves the union; an update is refused iff the parent is no partition root, the mask in question is empty, or the new mask holds all effective CPUs while no active CPU comes back; it answers 1 iff `subparts_cpus` changes; the child's new state and the CPUs moved are as stated for each command |
| `Subparts.Parent.UpdatePrstate` | src/cgroup/cpuset.c:1943-2006 | the answer for every state, value and outcome of setting the exclusive bit; the child's state, its exclusive bit and the CPUs moved follow, and on an error no mask changes |
| `Subparts.Parent.EnableThenDisable` | src/cgroup/cpuset.c:1943-2006 | enabling a child and disabling it, CPUs having come and gone in between, restores `subparts_cpus`, and `effective_cpus` iff all CPUs of the child are active at the end; it loses exactly those that are not |
| `Subparts.Parent.Decide` | src/cgroup/cpuset.c:1153-1274 | when a command is refused, which CPUs are to be lent and taken back otherwise, and that an update answers 1 iff there are any; all are lent only if an active one comes back |
| `Subparts.Parent.Move` | src/cgroup/cpuset.c:1276-1302 | moves them; only active CPUs come back |
| `Subparts.MoveKeeps` | src/cgroup/cpuset.c:1276-1302 | any such move keeps the masks disjoint, one non-empty, and the active CPUs in the union |
| `Subparts.RoundTrip` | src/cgroup/cpuset.c:1142-1303 | lending and taking back later restores both masks iff what was lent is active then |
| `Migration.Migration.Execute` | src/cgroup/cgroup.c:2465-2561 | all or nothing for every pattern of refusals: every gathered task is at its destination, or back on its source's `tasks`; `mg_tasks` is empty, `nr_tasks` is the list length, no task is lost, and the pids counters match the placement |
| `Migration.Migration.AskAll` | src/cgroup/cgroup.c:2473-2485 | the `can_attach` calls, undone by `cancel_attach` when one refuses: the pids counters are charged ahead, or as before |
| `Migration.Migration.Commit` | src/cgroup/cgroup.c:2492-2512 | every source's gathered tasks arrive, in order, at its destination |
| `Migration.Migration.MoveSource` | src/cgroup/cgroup.c:2494-2510 | the tasks of one source |
| `Migration.Migration.MoveOne` | src/cgroup/cgroup.c:2495-2510 | one task, with the task counts of both css_sets |
| `Migration.Migration.Release` | src/cgroup/cgroup.c:2544-2551 | what is on `mg_tasks` goes back to `tasks` |
| `Migration.Migration.TasksetMoves` | src/cgroup/cgroup.c:2473-2478 | the task set pairs every gathered task with its source and destination |
| `Migration.AfterCommit` | src/cgroup/cgroup.c:2492-2551 | after the commit only destinations hold tasks on `mg_tasks`, namely those that arrived |
| `Migration.Migration.constructor` | src/cgroup/cgroup.c:2465-2561 | lists, counts and counters that match satisfy the invariant |
| `LegacyFreezer.LegacyFreezer.Create` | src/cgroup/cgroup.c:5188-5194 | a new freezer is linked below an online one with no flag set |
| `LegacyFreezer.LegacyFreezer.Kill` | src/cgroup/cgroup.c:5483-5510 | a killed freezer keeps its flags until it goes offline; the live ones stay consistent |
| `LegacyFreezer.LegacyFreezer.UpdateNext` | src/cgroup/legacy_freezer.c:299-308 | one round of the bottom-up walk |
| `LegacyFreezer.ChangeKeepsLocal` | src/cgroup/legacy_freezer.c:244-375 | a change of one freezer that agrees with its parent, and turns FROZEN on only above FROZEN children, keeps the relation everywhere |
| `ControlMasks.ControlHierarchy.Apply` | src/cgroup/cgroup.c:3194-3198 | the propagation in applying a change grants every live cgroup its request, whatever was changed in the subtree before |
| `ControlMasks.ControlHierarchy.constructor` | src/cgroup/cgroup.c:3025-3076 | any masks of the right size |
| `Pids.PidsCgroups.constructor` | src/cgroup/pids.c:68-80 | new counters are zero |
| `Pids.CallKeeps` | src/cgroup/pids.c:143-147 | a new call keeps the invariant |
| `Subparts.Parent.constructor` | src/cgroup/cpuset.c:1142-1151 | a parent with disjoint masks, one non-empty, satisfies the invariant |
| `TaskIter.CssTaskIter.NextPlainCset` | src/cgroup/cgroup.c:4414-4440 | the next css_set of the cgroup, its threaded ones to follow |
| `TaskIter.CssTaskIter.FindCset` | src/cgroup/cgroup.c:4457-4464 | css_sets without any entry are passed over and lose no task |
| `TaskIter.CssTaskIter.Normalize` | src/cgroup/cgroup.c:4533-4542 | going from the end of a list to the next list or css_set leaves what is ahead as it is |
| `TaskIter.EditFuture` | src/cgroup/cgroup.c:854-911 | changing one list by one task, and the position on it accordingly, changes what is ahead by that task at most |
| `Freezer.Freezer.RevisitTasks` | src/cgroup/freezer.c:52-84 | revisiting a cgroup without descendants makes every flag right |
| `Freezer.Freezer.UpdateBoth` | src/cgroup/freezer.c:251-252 | revisiting destination and source makes every flag right |
| `Freezer.Freezer.InitCgroup` | src/cgroup/cgroup.c:5277-5304 | the fields of the new cgroup and of its ancestors |
| `Freezer.Freezer.Advance` | src/cgroup/freezer.c:279-283 | the cursor goes to the next cgroup, and the walk is over exactly when none is left |
| `Freezer.Freezer.LeaveWindow` | src/cgroup/freezer.c:279-308 | after a cgroup is done the walk goes on and the invariant holds |
| `FreezerCounts.TaskMoves` | src/cgroup/freezer.c:247-250 | a frozen task takes its count along and every count stays exact |
| `FreezerCounts.LeafDies` | src/cgroup/cgroup.c:5591-5600 | the counters of all ancestors are exact again without the dead leaf |
| `Rdma.UseCounted` | src/cgroup/rdma.c:289-290 | `usage_sum` stays the sum of the usages |
| `CgroupTree.ReleasedCursor` | src/cgroup/cgroup.c:4176-4226 | when only some of all nodes ever linked still are, a pre-order walk goes on from a released cursor with exactly those that are left of what came after it |
| `CgroupTree.ReleasedPostCursor` | src/cgroup/cgroup.c:4345-4367 | so does a post-order walk, as long as the parent of the cursor is linked |
| `CgroupTree.LaterIsAfter` | src/cgroup/cgroup.c:4182-4226 | for a linked cursor, what comes later by serial number is what comes after its subtree |
| `Freezer.Freezer.FrozenDuringWalk` | src/cgroup/freezer.c:14-323 | at every moment a live cgroup outside the window is FROZEN iff it and every live cgroup below has been told to freeze, the one in the window is FROZEN if below, and every task in the subtree is frozen |
| `Freezer.OutOfStepReached` | src/cgroup/freezer.c:184-189 | a reachable state: an empty cgroup between the two sections, told to freeze and not FROZEN |
| `Freezer.Freezer.CountSetting` | src/cgroup/freezer.c:285-301 | the visited live cgroup counts the new setting; what FREEZE then has to be is right for it and for all others |
| `Freezer.Freezer.FreezeStep` | src/cgroup/freezer.c:279-308 | every section of a walk keeps the invariant and leaves fewer sections to go |
| `Freezer.Freezer.PropagateRound` | src/cgroup/freezer.c:25-45 | one round of the upward loop changes the parent only, and leaves it as it should be |
| `Freezer.Freezer.Thaw` | src/cgroup/freezer.c:137-141 | a task that is frozen no longer is uncounted and its cgroup revisited |
| `Freezer.Freezer.MoveHome` | src/cgroup/cgroup.c:2499-2501 | the task counts in the destination instead of the source |
| `Freezer.Freezer.Die` | src/cgroup/cgroup.c:5572-5601 | an empty leaf goes offline: the ancestors lose a descendant, and a frozen one if it was FROZEN |
| `SchedDomains.LeftOutIsCovered` | src/cgroup/cpuset.c:776-807 | a balancing cpuset that the pruned walk leaves out has its effective CPUs within those of a collected one, when masks are nested |
| `SchedDomains.PartitionCovers` | src/cgroup/cpuset.c:776-893 | so its effective housekeeping CPUs are inside one output domain |
| `SchedDomains.FullDomainCovers` | src/cgroup/cpuset.c:751-767 | the same for the single full domain without partition roots |
| `CpusetMasks.Cpusets.constructor` | src/cgroup/cpuset.c:2749-2775 | cpusets without configured masks, as they come online, satisfy the invariant of both walks |
| `ControlMasks.AddDepends` | src/cgroup/cgroup.c:1532-1536 | the inner loop adds exactly what the enabled subsystems depend on |
| `TaskIter.Iterate` | src/cgroup/cgroup.c:4580-4636 | a whole run from `css_task_iter_start` until no task is left, departures and arrivals between the calls being given by any script: a task that the script does not move and that is on one list only is returned once if it is wanted, by the lists and `kind` alone, and never otherwise; with PROCS only leaders are returned; the run ends, and with different css_sets it returns no more tasks than were there and have joined |
| `TaskIter.CssTaskIter.Change` | src/cgroup/cgroup.c:854-911 | one departure or arrival, what it does to the lists and what it means for the iteration |
| `TaskIter.RunStep` | src/cgroup/cgroup.c:4613-4636 | one step of a run: a call returns the head of what is ahead, or the run is over and nothing is ahead; with PROCS only leaders are returned |
| `TaskIter.RunScript` | src/cgroup/cgroup.c:4613-4636 | the loop over such steps ends with nothing ahead, having followed the script |
| `Subparts.Parent.Apply` | src/cgroup/cpuset.c:1273-1302 | the masks move as decided, only if some CPU moves, and stay disjoint, one of them non-empty, with the active CPUs in the union |
| `Subparts.OfflineCpuIsLost` | src/cgroup/cpuset.c:1289-1297 | an input that shows it: a CPU that goes offline while it is lent does not come back |
| `Subparts.InactiveCpuIsLost` | src/cgroup/cpuset.c:1289-1297 | and one where the CPU was inactive all the time |
| `MpscCalls.AllocReturns` | src/include/shm_mpsc_queue.h:57-65 | `Alloc` returns null exactly when the free list is empty, leaving `empty_top` at `SIZE`, and otherwise goes on to take its first entry |
| `MpscCalls.AllocTakes` | src/include/shm_mpsc_queue.h:57-65 | the entry returned is the first of the free list, which loses it |
| `MpscCalls.PopReturns` | src/include/shm_mpsc_queue.h:75-76 | `PopAll` returns null exactly when `pending_tail` is 0 |
| `MpscCalls.AllocAlone` | src/include/shm_mpsc_queue.h:57-65 | from any state of a run with the free list unlocked, an `Alloc` that nothing interrupts returns its first entry, or null if there is none, and changes nothing else |
| `MpscCalls.PushAlone` | src/include/shm_mpsc_queue.h:67-73 | likewise `Push` appends its entry to the pending list and publishes its data |
| `MpscCalls.WriteAlone` | src/include/shm_mpsc_queue.h:34-38 | an allocated entry can be given any data |
| `MpscCalls.PopAlone` | src/include/shm_mpsc_queue.h:75-83 | likewise `PopAll` takes the whole pending list, which is empty afterwards |
| `MpscCalls.ReadAlone` | src/include/shm_mpsc_queue.h:85-88 | `NextEntry` leads from the first entry of the popped chain to its last |
| `MpscCalls.RecycleAlone` | src/include/shm_mpsc_queue.h:90-95 | likewise `Recycle` puts its chain on top of the free list |
| `MpscCalls.DrainAlone` | src/include/shm_mpsc_queue.h:75-95 | from any state of a run with both lists unlocked and the consumer at `PopAll`, the consumer alone can deliver everything published, in order, and give the entries back |
| `MpscCalls.InitAlone` | src/include/shm_mpsc_queue.h:42-55 | from zeroed memory the constructor reaches the queue with all slots from 1 on free |
| `MpscCalls.EnterAlone` | src/include/shm_mpsc_queue.h:42-48 | any later thread can pass the constructor then |
| `MpscCalls.ZeroedStarts` | src/include/shm_mpsc_queue.h:40-43 | zeroed memory of any size with any number of threads is a start |
| `UpdatedTree.AddPathIsPath` | src/cgroup/rstat.c:48-63 | when the ancestors of members are members, the members afterwards are exactly the old ones and the path |
| `UpdatedTree.AddPathLists` | src/cgroup/rstat.c:54-60 | each list gets at most one new entry, at its head, the node of the path |
| `SchedDomains.InCsaIsCollected` | src/cgroup/cpuset.c:776-807 | that condition, over the fields of the cpuset and of those above it, is what the pruned walk collects |
| `SchedDomains.ComponentIsFinest` | src/cgroup/cpuset.c:811-835 | a set of CPUs that cuts no cpuset cuts no component |
| `SchedDomains.PartitionBalanced` | src/cgroup/cpuset.c:794-893 | every CPU of a domain is effective in a collected, hence load-balanced, cpuset |
| `ControlMasks.GrantedIs` | src/cgroup/cgroup.c:418-453 | the masks that one round computes are exactly those granted, subsystem by subsystem, by the fields of the cgroup, its parent and the hierarchy |
| `CpusetMasks.NeverEmpty` | src/cgroup/cpuset.c:1731-1772 | every effective mask is within the top one, and in v2 mode none is empty unless that is |
| `CpusetMasks.AgreesMeans` | src/cgroup/cpuset.c:1323-1343 | being in agreement with the parent, in both directions, is that relation of the two masks |
| `Populated.RemoveTakesOne` | src/cgroup/cgroup.c:887-893 | exactly one entry of the task leaves the list, the others keeping their order |
| `Pids.RefusedOverLimit` | src/cgroup/pids.c:143-168 | in every interleaving a charge is taken back only after it has gone over the limit of a cgroup on its path |
| `Pids.DoneIsFinal` | src/cgroup/pids.c:95-168 | what has been taken back or released stays so, and no charge changes its cgroup or amount |
| `Pids.ChargeAlone` | src/cgroup/pids.c:143-168 | in any state of a run a charge that nothing interrupts ends up held on the whole path iff all limits allow it, and otherwise leaves every counter as it was |
| `Pids.ReleaseAlone` | src/cgroup/pids.c:95-107 | likewise the release of a held charge takes it off the whole path |

## Left out

Form of the model

- The kernel objects are not separate heap objects: a class has one sequence or map per field, indexed by cgroup or css_set number, so aliasing of list nodes is not modelled except in `UpdatedTree`, whose links are explicit.
- The queue and the interleaved part of `Pids` are transition systems on values: atomic operations of several threads have no counterpart as methods of one object. Memory is sequentially consistent.
- Masks are sets: the width of `u16` and of CPU masks plays no role in the code that is modelled. Times in `Rstat` are 64 bits wide and wrap around.
- RCU grace periods, reference counts, percpu references and asynchronous destruction are not modelled; memory allocation fails only in `Rdma`.
- Whole runs are state sequences for the queue and for `Pids`, and scripts that are run in `TaskIter`; for the other components they are sequences of method calls that keep `Valid()`.

Queue

- A crash of a participant, fairness of the spin loops, and several consumers.

Walks and statistics

- The unlocked test at the start of `cgroup_rstat_updated`, which may race, and the yielding between CPUs in `cgroup_rstat_flush_locked`; the set of cgroups is fixed in `Rstat` and `UpdatedTree`, so `cgroup_rstat_exit` is left out.
- Callbacks of other subsystems in a flush (`css_rstat_flush`).
- The totals shown for the root cgroup, which is not accounted this way.

Freezers

- Kernel threads, cgroups other than the root that hold both tasks and children (see the two members below), and user tasks moving between two cgroups during a walk of `cgroup_freeze`, which holds the same mutex.
- The job control bit that asks a task to stop, and notifications; tasks stop and continue at any moment.
- Dead cgroups stay on their parents' lists in `Freezer` and `LegacyFreezer`; `CgroupTree` covers their removal for the walks.
- In `LegacyFreezer`, which tasks are in which freezer and which of them still run are inputs; no freezer is killed in the middle of a walk.
- Freezer.Freezer.Create: covers only the freezer and descendant bookkeeping of `cgroup_create`, below a parent without tasks (or the root).
- Freezer.Freezer.Migrate: the destination has no descendants (or is the root), because `cgroup_propagate_frozen` does not look at the tasks of an ancestor: where tasks and children share a cgroup it would become FROZEN with running tasks.

Cpusets

- Partition roots inside `update_cpumasks_hier`, CPU and memory hotplug, task affinity and memory migration.
- In `CpusetMasks`, offline cpusets that are still linked; `SchedDomains.Nested` states what the nesting of masks is in legacy and in v2 mode without deriving it from the updates of the masks.
- `dattr` and `relax_domain_level` in `generate_sched_domains`, and its failing allocations.
- CgroupTree.ReleasedPostCursor: the parent of the released cursor is linked; the code returns a released parent as well, which `CgroupTree.NextDescendantPost` states.
- In `Subparts`, CPUs come and go by a change of the active mask alone, the repair that hotplug starts later being left out, as are the masks of the child itself, its siblings and its tasks, and validation of exclusive CPUs, whose outcome is an input.

Controllers, migration and iteration

- The subsystem states created and removed for a change of control masks, and permission and validity checks before it; whether applying a change succeeds is an input.
- Finding and linking css_sets in the first part of a migration; only the pids controller has an effect when it is asked, the answers of the others are inputs; freezer and `attach` callbacks after the commit.
- Limits written while pids charges are in flight, and fork and release callbacks.
- In `Rdma`, device unregistration, cgroups going offline, and parsing of limits.
- In `TaskIter`, css_sets linked or unlinked during an iteration, moves by `cgroup_migrate_add_task`, and changes of who is a group leader with live threads.
- The RDMA library, the transports, sockets, dispatch and request formats are plumbing over code that is not shown.
