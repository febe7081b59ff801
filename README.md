# Storage-repository garbage collector and coalescer: a Dafny model

`libs/sm/cleanup.py` is the garbage collector and coalescer of a storage
repository (SR). An SR holds virtual disk images (VDIs). The VHD files behind
them form trees: each VDI names its parent by `parentUuid`, and a child holds
only the blocks written since the parent was snapshotted. The collector does
four things with these trees:

- It builds them from the SR's registry (`SR._buildTree`).
- It deletes the hidden VDIs that nothing needs any more (`findGarbage`,
  `deleteVDIs`).
- It picks a hidden VDI to merge into its parent (`findCoalesceable`).
- It decides when merging a live leaf has stopped making progress
  (`CoalesceTracker`).

This project models that in-memory bookkeeping and proves what it promises.

## Modules

| file | module | what |
|---|---|---|
| `wrappers.dfy` | `Wrappers` | `Option` and `Result` |
| `bits.dfy` | `Bits` | `Util.numBits` and `Util.countBits`: the set bits of the OR of two block bitmaps |
| `vhd_tree.dfy` | `VhdTree` | the VDI record and the tree queries (`isCoalesceable`, `isLeafCoalesceable`, `getTreeRoot`, `getTreeHeight`, `getAllLeaves`, `_getAllSubtree`, `getAllPrunable`) |
| `sr_spec.dfy` | `SrSpec` | the SR's registry as a value, the functions that specify its operations, and the lemmas about them |
| `sr.dfy` | `Sr` | class `SR` with the operations that update the registry in place: `_buildTree`, `deleteVDI`, `deleteVDIs`, `findGarbage`, `VDI.rename`, `_removeStaleVDIs`, `lock`, `unlock`, `findCoalesceable`, `_calcExtraSpaceNeeded` |
| `coalesce_tracker.dfy` | `CoalesceTracking` | `SR.CoalesceTracker.abortCoalesce`, as a class and as a pure step function |
| `sr_policy.dfy` | `SrPolicy` | `normalizeType`, the SR switches, the stale-journal test of `cleanupJournals`, and `pauseVDIs` with its rollback |
| `file_names.dfy` | `FileNames` | `FileVDI.extractUuid` and `FileSR._isCacheFileName` |

### How the model represents the program

- **VDI objects.** In Python, the `vdis` dict, the `vdiTrees` list and every
  `children` list refer to the same VDI objects. The model keeps the objects
  as records in `store: map<Ref, Vdi>`, indexed by object identity. The
  registry holds `Ref`s.
- **Insertion order.** Python dict order matters to `_buildTree` and
  `findCoalesceable`, so the keys of `vdis` are also kept, in insertion
  order, as `order`.
- **Acyclicity.** The recursive queries terminate only on an acyclic tree.
  A ghost `rank` witnesses this: every child ranks below its parent. The
  source recurses forever on a cycle, so every caller there needs
  acyclicity too.
- **Linked.** `SrSpec.Linked` is what `_buildTree` establishes and the
  registry operations keep:
  - the registry agrees with the objects;
  - parent and children links agree;
  - `vdiTrees` lists each root once.
- **Errors.** Exceptions and assertion failures become error values
  (`BuildError`, `DeleteError`, `RenameError`, `LockOutcome`,
  `Result.Err`, `Cleanup.raised`). The state at the raise is kept as it is
  in the source, including the journal entries removed before a
  `cleanupJournals` raise.
- **Inputs from outside.** The following become parameters:
  - journal lookups;
  - the IPC abort flag;
  - the non-blocking acquire of the SR lock;
  - the outcome of each `pause`/`unpause`;
  - free space and the space a coalesce needs.
- **CoalesceTracker arithmetic.** The bound `curSize > 1.2 * minSize` is
  kept exactly as `5 * curSize > 6 * minSize`. The initial
  `minSize = float("inf")` is `None`.

## Model

| member | source | states |
|---|---|---|
| Bits.NumBits | libs/sm/cleanup.py:217-222 | the count is the number of one bits of `val` |
| Bits.CountBits | libs/sm/cleanup.py:225-245 | for two non-empty bitmaps, the count is the number of one bits of the bytewise OR of the two, over the longer length, the shorter bitmap zero-extended |
| Bits.PopcountOrAnd | libs/sm/cleanup.py:238-240 | inclusion-exclusion: the bits of a OR b plus those of a AND b are the bits of a plus those of b |
| Bits.PopcountOrBounds | libs/sm/cleanup.py:238-240 | OR keeps every bit of each operand and sets no more bits than the two hold together |
| Bits.OrCountSymmetric | libs/sm/cleanup.py:225-245 | the count does not depend on which bitmap is passed first |
| Bits.OrCountBounds | libs/sm/cleanup.py:225-245 | at most 8 bits per byte, and never fewer than the first bitmap alone |
| VhdTree.IsLeafCoalesceable | libs/sm/cleanup.py:636-650 | a VDI is never both coalesceable and leaf-coalesceable; either kind has no scan error and a parent with exactly one child |
| VhdTree.SoleChild | libs/sm/cleanup.py:636-650 | in a consistent tree, a candidate of either kind is its parent's only child |
| VhdTree.Height | libs/sm/cleanup.py:706-717 | the tree height is at least 1 |
| VhdTree.HeightSpec | libs/sm/cleanup.py:706-717 | height is 1 exactly for a leaf; otherwise it is one more than the tallest child, and above every child |
| VhdTree.MaxHeightIsMax | libs/sm/cleanup.py:711-715 | the loop's maximum bounds every child's height and is attained by one of them |
| VhdTree.LeavesExact | libs/sm/cleanup.py:719-727 | getAllLeaves returns exactly the childless VDIs of the subtree |
| VhdTree.Subtree | libs/sm/cleanup.py:1095-1100 | the list starts with the VDI itself |
| VhdTree.SubtreeExact | libs/sm/cleanup.py:1095-1100 | _getAllSubtree holds exactly the registered VDIs whose parent chain reaches the start |
| VhdTree.SiblingsDisjoint | libs/sm/cleanup.py:1095-1100 | two different siblings (or two roots) have disjoint subtrees |
| VhdTree.TreeRoot | libs/sm/cleanup.py:699-704 | the root is registered, has no parent, and lies on the VDI's parent chain |
| VhdTree.PrunableFacts | libs/sm/cleanup.py:669-691 | every VDI getAllPrunable returns lies in the subtree and has no scan error; a leaf is hidden and has no relink journal entry; an inner VDI has all its children returned too |
| VhdTree.PrunableClosed | libs/sm/cleanup.py:669-691 | everything below a prunable VDI is prunable |
| VhdTree.PrunableOfIsGarbage | libs/sm/cleanup.py:680-689 | the children loop collects the children's lists in order, and its flag holds exactly when every child is in its own list |
| VhdTree.PrunableOrdered | libs/sm/cleanup.py:669-691 | the list holds each VDI once, and no VDI comes after its own parent (post-order) |
| VhdTree.GarbageSnoc | libs/sm/cleanup.py:1853-1857 | each tree visited appends that tree's prunable list |
| VhdTree.FindGarbageOrdered | libs/sm/cleanup.py:1853-1857 | over distinct roots, the joined list is still duplicate-free and post-ordered |
| Sr.SR.FindGarbage | libs/sm/cleanup.py:1853-1857 | the result is the prunable lists of the vdiTrees, tree by tree |
| SrSpec.FindGarbageMembers | libs/sm/cleanup.py:1853-1857 | every VDI found is registered and scanned; a leaf is hidden with no relink entry; every child of a found VDI is found too |
| SrSpec.FindGarbageDeletable | libs/sm/cleanup.py:1853-1873 | on a linked registry, the garbage list is post-ordered, and it can be deleted in order without breaking deleteVDI's no-children assertion |
| SrSpec.DeleteVdi | libs/sm/cleanup.py:1866-1873 | deletion succeeds exactly when the VDI is childless, registered, and listed by its parent; the set of objects is unchanged |
| SrSpec.DeleteShape | libs/sm/cleanup.py:1866-1873 | a successful delete unregisters the uuid, drops the VDI from its parent's children and from vdiTrees, and changes no other object |
| SrSpec.DeleteKeepsLinked | libs/sm/cleanup.py:1866-1873 | deleting a registered childless VDI from a linked registry succeeds, keeps it linked, unregisters exactly that VDI, and changes no object except the parent |
| Sr.SR.DeleteVDI | libs/sm/cleanup.py:1866-1873 | the new registry and the error are those of DeleteVdi; the lock, the failed targets and the no-space record are untouched |
| SrSpec.PendingStep | libs/sm/cleanup.py:1859-1873 | when the rest of the list still holds every member's children before it, the next VDI is childless, its deletion succeeds, the registry stays linked, and the rest stays deletable |
| SrSpec.DeleteSeqLinked | libs/sm/cleanup.py:1859-1873 | deleting a deletable list in order never fails, keeps the registry linked, and unregisters exactly the VDIs deleted |
| Sr.SR.DeleteVDIs | libs/sm/cleanup.py:1859-1864 | the abort flag was down before each of the n deletions; the state is that of deleting the first n in order; the loop ended, was aborted at the next one, or that VDI's deletion failed |
| Sr.LinkVisits | libs/sm/cleanup.py:2383-2403 | no error exactly when every VDI has a registered parent, none, the rename prefix, or force set; then the links are those of visiting all VDIs in order; otherwise the first VDI with a missing parent is reported and the ones before it are linked |
| Sr.SR.BuildTree | libs/sm/cleanup.py:2383-2403 | the same, on the SR's fields; the registry keys and their order are unchanged |
| SrSpec.LinkAllLinked | libs/sm/cleanup.py:2383-2403 | from unlinked objects, a full run leaves the links consistent, and each VDI either a root listed once in vdiTrees or in its parent's children |
| SrSpec.BuildTreeLinks | libs/sm/cleanup.py:2383-2403 | the same, stated on the declarative description of the links |
| SrSpec.RenameKeepsRegistry | libs/sm/cleanup.py:734-743 | renaming a registered VDI to a free uuid succeeds; the VDI is found under the new uuid only, and last in order; the set of registered objects is unchanged; its children are cleared |
| Sr.SR.Rename | libs/sm/cleanup.py:734-743 | the new registry and the error (new uuid taken, old uuid not registered) are those of RenameVdi; the lock and the coalesce records are untouched |
| Sr.UnregisterStale | libs/sm/cleanup.py:2368-2373 | afterwards `vdis` holds exactly the present uuids, and the order keeps theirs |
| Sr.SR.RemoveStaleVDIs | libs/sm/cleanup.py:2368-2373 | the new registry is RemoveStale of the old: the objects and vdiTrees are unchanged |
| SrSpec.RemoveStale | libs/sm/cleanup.py:2368-2373 | removing stale VDIs changes neither the objects nor vdiTrees |
| SrSpec.RemoveStaleKeepsRegistry | libs/sm/cleanup.py:2368-2373 | the registry still agrees with the objects, its keys are the old keys that are present, and no object is newly registered |
| SrSpec.LockStep | libs/sm/cleanup.py:1919-1937 | without an SR lock nothing changes; the underlying lock changes only on the 0→1 transition; a successful lock deepens by one; a failed one changes nothing |
| SrSpec.AttemptsFirst | libs/sm/cleanup.py:1926-1934 | the retry loop ends at the first attempt that acquires or sees the abort flag, and reports which |
| SrSpec.AttemptsUnavailable | libs/sm/cleanup.py:1926-1935 | the lock is reported unavailable exactly when all 100 attempts neither acquire nor see the abort flag |
| SrSpec.UnlockStep | libs/sm/cleanup.py:1939-1945 | unlocking at depth 0 with an SR lock is the assertion failure; the underlying lock is released only on the 1→0 transition; a successful unlock decreases the depth by one |
| SrSpec.LockKeepsInv | libs/sm/cleanup.py:1919-1937 | lock keeps "the lock is held exactly while the depth is positive" |
| SrSpec.UnlockKeepsInv | libs/sm/cleanup.py:1939-1945 | unlock keeps the same invariant |
| SrSpec.LockUnlockBalanced | libs/sm/cleanup.py:1919-1945 | a successful lock followed by unlock restores the lock state exactly |
| Sr.SR.Lock | libs/sm/cleanup.py:1919-1937 | the new lock state and outcome are those of LockStep; the registry is untouched |
| Sr.SR.Unlock | libs/sm/cleanup.py:1939-1945 | the new lock state and result are those of UnlockStep; the registry is untouched |
| Sr.SR.GetTreeRoot | libs/sm/cleanup.py:699-704 | the loop returns the root of the VDI's tree |
| Sr.CalcExtraSpaceNeeded | libs/sm/cleanup.py:2343-2348 | a raw parent is the assertion failure; otherwise the extra space is not negative and makes the parent at least as large as the child, exactly so when positive |
| Sr.FirstRelink | libs/sm/cleanup.py:1684-1689 | the relink loop returns the relink target |
| SrSpec.RelinkTargetFirst | libs/sm/cleanup.py:1684-1689 | a relink target exists exactly when some journal uuid names a registered VDI that is not a failed target; it is the first such |
| Sr.SR.CoalesceCandidates | libs/sm/cleanup.py:1691-1694 | the candidates are the coalesceable, non-failed VDIs in registry order |
| SrSpec.CandidatesMember | libs/sm/cleanup.py:1691-1694 | a VDI is a candidate exactly when it is registered, coalesceable and not a failed target |
| SrSpec.CandidatesDistinct | libs/sm/cleanup.py:1691-1694 | no candidate is listed twice |
| Sr.SR.GroupByHeight | libs/sm/cleanup.py:1699-1705 | the groups are those of the candidates' tree heights; `heights` lists each key once |
| SrSpec.GroupsWhere | libs/sm/cleanup.py:1699-1705 | a group exists for exactly the heights that occur, and lists in registry order the candidates of that height |
| SrSpec.SortDesc | libs/sm/cleanup.py:1708-1709 | the sorted heights are strictly decreasing and are the same heights |
| SrSpec.VisitsTallestFirst | libs/sm/cleanup.py:1708-1711 | walking the sorted heights' groups tries every candidate once: taller trees first, and equal heights in registry order |
| Sr.ScanGroup | libs/sm/cleanup.py:1711-1720 | within one group, the first candidate that fits is returned and its no-space record dropped; those before it are recorded as lacking space |
| Sr.PickFirstFit | libs/sm/cleanup.py:1710-1721 | the walk chooses the first candidate that fits, and records the ones tried before it as lacking space; if none fits, nothing is chosen and all are recorded |
| Sr.SelectByHeight | libs/sm/cleanup.py:1707-1721 | the order tried is tallest first, and the choice is first-fit in that order |
| Sr.SR.ChooseCandidate | libs/sm/cleanup.py:1691-1721 | over this SR's candidates, the walk is tallest first and the choice first-fit; the registry is unchanged |
| Sr.SR.FindCoalesceable | libs/sm/cleanup.py:1672-1721 | coalesce switched off: nothing is chosen; else a relink-journal VDI: it is chosen; else the tallest-first, first-fit choice; the registry and lock are unchanged |
| SrSpec.FirstFitIsFirst | libs/sm/cleanup.py:1708-1721 | nothing is chosen exactly when no candidate fits; otherwise every candidate in a taller tree, or at equal height earlier in registry order, does not fit |
| CoalesceTracking.Record | libs/sm/cleanup.py:2041-2056 | the bookkeeping counts the call and appends its history entry; minSize is at most both sizes and never grows |
| CoalesceTracking.Judge | libs/sm/cleanup.py:2058-2092 | the first call and a call that made progress never abort |
| CoalesceTracking.Step | libs/sm/cleanup.py:2041-2092 | each call appends one history entry; the first call and any call with `prevSize >= curSize` never abort |
| CoalesceTracking.MinSeenIsMinimum | libs/sm/cleanup.py:2052-2056 | the minimum seen is at most every recorded size and equal to one of them |
| CoalesceTracking.InitialInv | libs/sm/cleanup.py:2030-2039 | a new tracker satisfies the invariant |
| CoalesceTracking.StepKeepsInv | libs/sm/cleanup.py:2041-2092 | each call keeps: len(history) == its, entries numbered from 1, minSize the least size seen, startSize the first and finishSize the latest size, itsNoProgress the number of growing calls after the first, and grace_remaining two less the number of size bumps judged so far |
| CoalesceTracking.RecordKeepsLogged | libs/sm/cleanup.py:2042-2056 | the bookkeeping keeps the history, sizes and minimum exact and leaves the counters alone |
| CoalesceTracking.JudgeKeepsInv | libs/sm/cleanup.py:2058-2090 | judging the latest call counts a call without progress exactly when it grew after the first call, and a grace iteration exactly when it is a size bump past both limits |
| CoalesceTracking.AbortOnGrowth | libs/sm/cleanup.py:2062-2092 | on a growing call after the first, it aborts exactly when its > 10, when it is the fourth call without progress in the history, or when curSize > 1.2 × the minimum seen and the history already holds exactly one size bump |
| CoalesceTracking.GrowingRunAborts | libs/sm/cleanup.py:2041-2092 | if the size keeps growing, a fresh tracker aborts by the fifth call |
| CoalesceTracking.CoalesceTracker.constructor | libs/sm/cleanup.py:2030-2039 | the fields start as the initial state |
| CoalesceTracking.CoalesceTracker.AbortCoalesce | libs/sm/cleanup.py:2041-2092 | the new fields and the result are those of Step |
| CoalesceTracking.CoalesceTracker.JudgeIteration | libs/sm/cleanup.py:2058-2092 | the new fields and the result are those of Judge |
| SrPolicy.NormalizeType | libs/sm/cleanup.py:2972-2982 | accepted exactly for the known types and aliases; the result is "lvhd" or "file", "lvhd" exactly for the LVM family; otherwise an error naming the type |
| SrPolicy.NormalizeTypeIdempotent | libs/sm/cleanup.py:2972-2982 | a normalised type normalises to itself |
| SrPolicy.ForbiddenBySwitch | libs/sm/cleanup.py:1723-1735 | forbidden only when the switch is set to the condition, and then exactly so for a non-empty condition |
| SrPolicy.LeafCoalesceForbidden | libs/sm/cleanup.py:1737-1743 | forbidden exactly when coalesce is "false" or leaf-coalesce is "false" |
| SrPolicy.CoalesceSwitches | libs/sm/cleanup.py:1737-1743 | coalescing switched off forbids leaf-coalescing; otherwise leaf-coalescing is forbidden only by its own switch |
| SrPolicy.SplitJoin | libs/sm/cleanup.py:1976 | splitting a journal value on "_" loses nothing: joining the parts gives it back |
| SrPolicy.IsStale | libs/sm/cleanup.py:1972-1978 | an entry is stale only if its VDI is gone, and for a clone entry only if the base is gone too; a clone entry whose VDI is gone and whose value splits in two is stale exactly when the base is gone; a clone value without exactly two parts raises |
| SrPolicy.StaleEntries | libs/sm/cleanup.py:1971-1982 | no uuid removed names a registered VDI, and only a clone journal can raise |
| SrPolicy.StaleEntriesExact | libs/sm/cleanup.py:1968-1982 | a scan that does not raise removes exactly the entries the test calls stale |
| SrPolicy.StaleEntriesRaised | libs/sm/cleanup.py:1971-1982 | a scan that raises does so at the first malformed entry, carrying its value, and keeps the removals a scan of the entries before it makes |
| SrPolicy.CleanupJournals | libs/sm/cleanup.py:1968-1982 | no entry removed names a registered VDI |
| SrPolicy.CleanupJournalsOrder | libs/sm/cleanup.py:1970-1982 | the zero and relink journals never raise and are cleaned in full before the clone journal; the raise, if any, is the clone scan's |
| SrPolicy.RemovalsBeforeRaiseKept | libs/sm/cleanup.py:1970-1982 | a stale zero entry stays removed when a later clone value raises |
| SrPolicy.Tag | libs/sm/cleanup.py:1970-1982 | each removed uuid is paired with its journal type, in order |
| SrPolicy.PauseVDIs | libs/sm/cleanup.py:1878-1892 | all paused exactly when every pause succeeds; otherwise the paused VDIs are the prefix before the first failure, and exactly those are unpaused; the unpause failure is reported |
| SrPolicy.UnpauseVDIs | libs/sm/cleanup.py:1894-1904 | succeeds exactly when the unpause of every VDI in the list succeeds |
| FileNames.ExtractUuid | libs/sm/cleanup.py:1106-1115 | a uuid is returned exactly when the stripped base name ends in ".vhd" or ".raw", and it holds no "/" |
| FileNames.LStrip | libs/sm/cleanup.py:1108 | exactly the leading whitespace (the characters Python 3 calls whitespace) is removed |
| FileNames.RStrip | libs/sm/cleanup.py:1108 | exactly the trailing whitespace is removed |
| FileNames.RemoveExtensions | libs/sm/cleanup.py:1112-1113 | removing the extensions from a uuid followed by ".vhd" or ".raw" leaves the uuid |
| FileNames.ExtractUuidOfFileName | libs/sm/cleanup.py:1116-1122 | the file name FileVDI gives a VDI, under any directory and with any trailing whitespace, gives its uuid back |
| FileNames.CacheFileNames | libs/sm/cleanup.py:2527-2529 | a stem plus ".vhdcache" is a cache file name exactly when the stem is 36 characters |
| FileNames.CacheFileNameSplits | libs/sm/cleanup.py:2527-2529 | a cache file name is a 36-character stem followed by ".vhdcache" |

## Left out

- Storage and management side effects are not modelled. These are `VDI.delete`, `_clearRef`, `setConfig`/`delConfig`, the XAPI calls, `update_task_progress`, fist points and logging. `deleteVDI` is modelled without its final `vdi.delete()`. `clear_no_space_msg` is modelled only as the removal from `no_space_candidates`.
- The cross-process parts are parameters:
  - the IPC abort flag is `abortFlag(i)`, its value at the i-th test;
  - `acquireNoblock` is `acquire(i)`;
  - `time.sleep` between attempts is dropped.
- Journal lookups are parameters:
  - the relink journal is a set of uuids in `getAllPrunable` and a sequence in `findCoalesceable`;
  - `journaler.getAll` in `cleanupJournals` is a function from journal type to entries, and the removals are returned rather than performed, together with the clone value that raised, if one did.
- `getFreeSpace` and `_calcExtraSpaceForCoalescing` are parameters, `freeSpace` and `spaceNeeded`.
- `vdi.pause()` and `vdi.unpause()` are parameters, `pauseOk(i)` and `unpauseOk(i)`.
- `vhdutil.FILE_EXTN_VHD` and `FILE_EXTN_RAW` come from vhdutil, which is not part of this model. Their values ".vhd" and ".raw" are written in.
- `Sr.SR.FindCoalesceable`: with coalescing switched off, the source returns an empty list, which callers test as false. The model returns `None`.
- `Sr.SR.GroupByHeight`: the groups hold each candidate's position in the candidate list rather than the object. The candidates are distinct (`SrSpec.CandidatesDistinct`), so this loses nothing.
- `Sr.SR.ChooseCandidate`: `no_space_candidates` is updated on a local copy, which is stored in the field when the walk ends. Nothing can raise in between, so the final state is the source's.
- `CoalesceTracking`: `reason` is an enumeration rather than the message text. A history entry is a record of the values formatted into `HISTORY_STRING`. `printSizes` is output only.
- `Sr.SR.BuildTree`: the model assumes, as `load` ensures, that it starts from cleared `children` lists. This is only needed by the lemmas that state the resulting tree is consistent.
- `SrSpec.DeleteVdi`: its own ensures gives only the error condition and that the objects are kept. What a successful delete changes, and what it leaves alone, is stated by `SrSpec.DeleteShape` and `SrSpec.DeleteKeepsLinked`.
- `Bits.CountBits`: requires both bitmaps to be non-empty. With an empty one, the second loop reads the first loop's index, which was never bound, and raises.
- Termination of the tree queries assumes an acyclic tree: the ghost `rank`. The source does not terminate on a cycle.
- The other SR flavours' overrides are not part of this model. These include the LVHD `deleteVDI` and `_calcExtraSpaceNeeded`. The base-class and FileSR behaviour is what is modelled.
