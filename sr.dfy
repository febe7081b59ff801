// The storage repository object of the collector (class SR in
// libs/sm/cleanup.py): its registry of VDIs, the VHD trees built over it,
// the bookkeeping of coalesce candidates and the nesting depth of the SR
// lock, all updated in place.

module Sr {
  import opened Wrappers
  import opened VhdTree
  import opened SrSpec

  /** The SMException _buildTree raises for a VDI whose parent is not
      registered. */
  datatype BuildError = MissingParent(parentUuid: string, uuid: string)

  /** SR._calcExtraSpaceNeeded: how much the parent must grow to take in
      the child's data. None is the assertion that the parent is not raw. */
  function CalcExtraSpaceNeeded(child: Vdi, parent: Vdi): (extra: Option<nat>)
    ensures extra.None? <==> parent.raw
    ensures extra.Some? ==> parent.sizeVHD + extra.value >= child.sizeVHD
    ensures extra.Some? && extra.value > 0 ==> parent.sizeVHD + extra.value == child.sizeVHD
  {
    if parent.raw then None
    else
      var extra := child.sizeVHD - parent.sizeVHD;
      if extra < 0 then Some(0) else Some(extra)
  }

  /** The VDI `order[k]` is the first whose parent is missing, the visits
      before it gave `st` and `trees`, and `e` reports it. */
  ghost predicate StoppedAt(vdis: map<string, Ref>, order: seq<string>, st0: Store, force: bool, k: nat,
                            st: Store, trees: seq<Ref>, e: BuildError)
    requires Registry(vdis, order, st0) && k < |order|
  {
    && (forall j | 0 <= j < k :: LinkOf(vdis, st0[vdis[order[j]]], force) != Missing)
    && LinkOf(vdis, st0[vdis[order[k]]], force) == Missing
    && e == MissingParent(st0[vdis[order[k]]].parentUuid, order[k])
    && InOrder(vdis, st0, order[..k])
    && (st, trees) == LinkAll(vdis, st0, force, order[..k])
  }

  /** What the linking loop of SR._buildTree leaves: every parent found
      and all VDIs linked, or the first VDI whose parent is missing. */
  ghost predicate Built(vdis: map<string, Ref>, order: seq<string>, st0: Store, force: bool,
                        st: Store, trees: seq<Ref>, err: Option<BuildError>)
    requires Registry(vdis, order, st0)
  {
    && (err.None? <==> forall u | u in order :: LinkOf(vdis, st0[vdis[u]], force) != Missing)
    && (err.None? ==> InOrder(vdis, st0, order) && (st, trees) == LinkAll(vdis, st0, force, order))
    && (err.Some? ==> exists k | 0 <= k < |order| :: StoppedAt(vdis, order, st0, force, k, st, trees, err.value))
  }

  /** The loop of SR._removeStaleVDIs over a copy of the keys, on the
      registry's values. */
  method UnregisterStale(vdis0: map<string, Ref>, keys: seq<string>, present: set<string>)
      returns (vdis: map<string, Ref>, order: seq<string>)
    requires Distinct(keys) && forall u :: u in keys <==> u in vdis0
    ensures vdis == map u | u in vdis0 && u in present :: vdis0[u]
    ensures order == Filter(keys, Present(present))
  {
    vdis, order := vdis0, keys;
    assert keys[..0] == [];
    FilterAll(keys, Unvisited(present, keys[..0]));
    for i := 0 to |keys|
      invariant vdis == Survivors(vdis0, present, keys[..i])
      invariant order == Filter(keys, Unvisited(present, keys[..i]))
    {
      var u := keys[i];
      SurvivorsStep(vdis0, keys, present, i);
      if u !in present {
        vdis := vdis - {u};
        FilterFilter(keys, Unvisited(present, keys[..i]), Other(u), Unvisited(present, keys[..i + 1]));
        order := Filter(order, Other(u));
      } else {
        FilterSame(keys, Unvisited(present, keys[..i]), Unvisited(present, keys[..i + 1]));
      }
    }
    SurvivorsAll(vdis0, keys, present);
  }

  /** The loop of SR._buildTree over the registered VDIs, on the objects
      `st0`: the links and roots it builds, up to the first missing parent. */
  method LinkVisits(vdis: map<string, Ref>, order: seq<string>, st0: Store, force: bool)
      returns (st: Store, trees: seq<Ref>, err: Option<BuildError>)
    requires Registry(vdis, order, st0)
    ensures Built(vdis, order, st0, force, st, trees, err)
  {
    st, trees := st0, [];
    var i := 0;
    assert order[..0] == [];
    while i < |order|
      invariant 0 <= i <= |order|
      invariant InOrder(vdis, st0, order[..i])
      invariant (st, trees) == LinkAll(vdis, st0, force, order[..i])
      invariant forall j | 0 <= j < i :: LinkOf(vdis, st0[vdis[order[j]]], force) != Missing
    {
      var u := order[i];
      var r := vdis[u];
      var v := st[r];
      assert order[..i + 1][..i] == order[..i];
      if v.parentUuid != "" && v.parentUuid !in vdis {
        if IsPrefix(TMP_RENAME_PREFIX, v.uuid) {
          trees := trees + [r];
        } else if force {
          trees := trees + [r];
        } else {
          err := Some(MissingParent(v.parentUuid, v.uuid));
          assert StoppedAt(vdis, order, st0, force, i, st, trees, err.value);
          return;
        }
      } else if v.parentUuid != "" {
        var p := vdis[v.parentUuid];
        st := st[r := v.(parent := Some(p))];
        st := st[p := st[p].(children := st[p].children + [r])];
      } else {
        trees := trees + [r];
      }
      i := i + 1;
    }
    assert order[..|order|] == order;
    err := None;
  }

  class SR {
    /** `vdis`, keyed by uuid; `order` is the order of its keys. */
    var vdis: map<string, Ref>
    var order: seq<string>
    /** The VDI objects, by identity. */
    var store: Store
    var vdiTrees: seq<Ref>
    var failedCoalesceTargets: seq<Ref>
    var noSpaceCandidates: map<string, Ref>
    /** Whether the SR has a lock object (`_srLock`), the depth `_locked`,
        and whether the underlying lock is held. */
    var hasSrLock: bool
    var locked: nat
    var held: bool

    function State(): SrState
      reads this`vdis, this`order, this`store, this`vdiTrees
    {
      SrState(vdis, order, store, vdiTrees)
    }

    function LockView(): LockState
      reads this`hasSrLock, this`locked, this`held
    {
      LockState(hasSrLock, locked, held)
    }

    /** The registered VDI objects. */
    function Live(): set<Ref>
      reads this`vdis
    {
      vdis.Values
    }

    /** The fields a registry operation leaves alone. */
    twostate predicate KeepsBookkeeping()
      reads this
    {
      && LockView() == old(LockView())
      && failedCoalesceTargets == old(failedCoalesceTargets)
      && noSpaceCandidates == old(noSpaceCandidates)
    }

    constructor(hasSrLock: bool)
      ensures State() == SrState(map[], [], map[], [])
      ensures LockView() == LockState(hasSrLock, 0, false) && LockInv(LockView())
      ensures failedCoalesceTargets == [] && noSpaceCandidates == map[]
    {
      vdis := map[];
      order := [];
      store := map[];
      vdiTrees := [];
      failedCoalesceTargets := [];
      noSpaceCandidates := map[];
      this.hasSrLock := hasSrLock;
      locked := 0;
      held := false;
    }

    // -------------------------------------------------------------- _buildTree

    /** SR._buildTree: visit the registered VDIs in order, pointing each at
        its registered parent and appending it to the parent's children, or
        making it a root. A missing parent is an error unless `force` is set
        or the VDI carries the temporary rename prefix; on error the VDIs
        before it stay linked. */
    method BuildTree(force: bool) returns (err: Option<BuildError>)
      requires Registry(vdis, order, store)
      modifies this
      ensures KeepsBookkeeping() && vdis == old(vdis) && order == old(order)
      ensures Built(vdis, order, old(store), force, store, vdiTrees, err)
    {
      var st, trees;
      st, trees, err := LinkVisits(vdis, order, store, force);
      store, vdiTrees := st, trees;
    }

    // -------------------------------------------------------------- deleteVDI

    /** SR.deleteVDI, without the storage-side VDI.delete. */
    method DeleteVDI(r: Ref) returns (err: Option<DeleteError>)
      requires r in store && Closed(store)
      modifies this
      ensures (State(), err) == DeleteVdi(old(State()), r)
      ensures KeepsBookkeeping()
    {
      var v := store[r];
      if v.children != [] {
        return Some(HasChildren);
      }
      if v.uuid !in vdis {
        return Some(NotRegistered);
      }
      vdis := vdis - {v.uuid};
      order := Filter(order, Other(v.uuid));
      if v.parent.Some? {
        var p := v.parent.value;
        if r !in store[p].children {
          return Some(NotInParent);
        }
        store := store[p := store[p].(children := RemoveFirst(store[p].children, r))];
      }
      if r in vdiTrees {
        vdiTrees := RemoveFirst(vdiTrees, r);
      }
      err := None;
    }

    /** SR.deleteVDIs: delete the VDIs of `l` in order, checking the abort
        flag before each. `n` is how many were deleted; `n < |l|` without an
        error means aborted at `l[n]`, with one the deletion of `l[n]`
        failed. */
    method DeleteVDIs(l: seq<Ref>, abortFlag: nat -> bool) returns (n: nat, err: Option<DeleteError>)
      requires Closed(store) && forall x | x in l :: x in store
      modifies this
      ensures KeepsBookkeeping()
      ensures DeletedUpTo(old(State()), l, abortFlag, n, State(), err)
    {
      ghost var s0 := State();
      assert l[..0] == [];
      n := 0;
      while n < |l|
        invariant n <= |l|
        invariant (State(), None) == DeleteSeq(s0, l[..n])
        invariant KeepsBookkeeping()
        invariant NotAborted(abortFlag, n)
      {
        if AbortRequested(abortFlag, n) {
          assert DeletedUpTo(s0, l, abortFlag, n, State(), None);
          return n, None;
        }
        NotAbortedSnoc(abortFlag, n);
        DeleteSeqSnoc(s0, l, n);
        var e := DeleteVDI(l[n]);
        if e.Some? {
          assert DeletedUpTo(s0, l, abortFlag, n, State(), e);
          return n, e;
        }
        n := n + 1;
      }
      err := None;
      assert DeletedUpTo(s0, l, abortFlag, n, State(), err);
    }

    // -------------------------------------------------------------- findGarbage

    /** SR.findGarbage: the prunable VDIs of every tree, tree by tree. */
    method FindGarbage(relinks: set<string>, ghost rank: map<Ref, nat>) returns (l: seq<Ref>)
      requires Ranked(store, rank) && forall r | r in vdiTrees :: r in store
      ensures l == Garbage(store, rank, relinks, vdiTrees)
    {
      l := [];
      for i := 0 to |vdiTrees|
        invariant l == Garbage(store, rank, relinks, vdiTrees[..i])
      {
        assert vdiTrees[..i + 1] == vdiTrees[..i] + [vdiTrees[i]];
        GarbageSnoc(store, rank, relinks, vdiTrees[..i], vdiTrees[i]);
        l := l + Prunable(store, rank, relinks, vdiTrees[i]);
      }
      assert vdiTrees[..|vdiTrees|] == vdiTrees;
    }

    // -------------------------------------------------------------- VDI.rename

    /** VDI.rename, on the SR's registry. */
    method Rename(r: Ref, newUuid: string) returns (err: Option<RenameError>)
      requires r in store
      modifies this
      ensures (State(), err) == RenameVdi(old(State()), r, newUuid)
      ensures KeepsBookkeeping()
    {
      if newUuid in vdis {
        return Some(AlreadyRegistered);
      }
      var oldUuid := store[r].uuid;
      store := store[r := store[r].(uuid := newUuid, children := [])];
      if oldUuid !in vdis {
        return Some(OldNotRegistered);
      }
      vdis := vdis - {oldUuid};
      order := Filter(order, Other(oldUuid));
      vdis := vdis[newUuid := r];
      order := order + [newUuid];
      err := None;
    }

    // -------------------------------------------------------------- _removeStaleVDIs

    /** SR._removeStaleVDIs: unregister each uuid not present on storage. */
    method RemoveStaleVDIs(uuidsPresent: set<string>)
      requires Registry(vdis, order, store)
      modifies this
      ensures State() == RemoveStale(old(State()), uuidsPresent)
      ensures KeepsBookkeeping()
    {
      vdis, order := UnregisterStale(vdis, order, uuidsPresent);
    }

    // -------------------------------------------------------------- lock / unlock

    /** SR.lock: `acquire(i)` is whether attempt `i` gets the underlying
        lock, `abortFlag(i)` whether the abort flag is up after it. */
    method Lock(acquire: nat -> bool, abortFlag: nat -> bool) returns (outcome: LockOutcome)
      modifies this
      ensures (LockView(), outcome) == LockStep(old(LockView()), acquire, abortFlag)
      ensures State() == old(State())
      ensures failedCoalesceTargets == old(failedCoalesceTargets) && noSpaceCandidates == old(noSpaceCandidates)
    {
      if !hasSrLock {
        return Locked;
      }
      if locked == 0 {
        var i := 0;
        while i < LOCK_RETRY_ATTEMPTS_LOCK
          invariant i <= LOCK_RETRY_ATTEMPTS_LOCK
          invariant Attempts(acquire, abortFlag, i) == Attempts(acquire, abortFlag, 0)
          invariant LockView() == old(LockView())
        {
          if acquire(i) {
            locked := locked + 1;
            held := true;
            return Locked;
          }
          if abortFlag(i) {
            return Aborted;
          }
          i := i + 1;
        }
        return Unavailable;
      }
      locked := locked + 1;
      outcome := Locked;
    }

    /** SR.unlock: `ok` is false for the assertion failure of unlocking at
        depth 0. */
    method Unlock() returns (ok: bool)
      modifies this
      ensures (LockView(), ok) == UnlockStep(old(LockView()))
      ensures State() == old(State())
      ensures failedCoalesceTargets == old(failedCoalesceTargets) && noSpaceCandidates == old(noSpaceCandidates)
    {
      if !hasSrLock {
        return true;
      }
      if locked == 0 {
        return false;
      }
      locked := locked - 1;
      if locked == 0 {
        held := false;
      }
      ok := true;
    }

    // -------------------------------------------------------------- getTreeRoot

    /** VDI.getTreeRoot, on a registered VDI of this SR. */
    method GetTreeRoot(r: Ref, ghost rank: map<Ref, nat>) returns (root: Ref)
      requires Ranked(store, rank) && Consistent(store, Live()) && r in Live()
      ensures root == TreeRoot(store, Live(), rank, r)
    {
      root := r;
      while store[root].parent.Some?
        invariant root in Live() && TreeRoot(store, Live(), rank, root) == TreeRoot(store, Live(), rank, r)
        decreases |Above(Live(), rank, root)|
      {
        AboveShrinks(store, rank, Live(), root);
        root := store[root].parent.value;
      }
    }

    // -------------------------------------------------------------- findCoalesceable

    /** The candidate loop of SR.findCoalesceable. */
    method CoalesceCandidates() returns (cands: seq<Ref>)
      requires Registry(vdis, order, store) && Closed(store)
      ensures cands == Candidates(State(), failedCoalesceTargets, order)
    {
      cands := [];
      for i := 0 to |order|
        invariant InOrder(vdis, store, order[..i])
        invariant cands == Candidates(State(), failedCoalesceTargets, order[..i])
      {
        assert order[..i + 1][..i] == order[..i];
        var r := vdis[order[i]];
        if IsCoalesceable(store, r) && r !in failedCoalesceTargets {
          cands := cands + [r];
        }
      }
      assert order[..|order|] == order;
    }

    /** The grouping loop of SR.findCoalesceable: `treeHeight[h]` lists the
        positions in `cands` of the candidates whose tree has height `h`,
        and `heights` its keys in insertion order. */
    method GroupByHeight(cands: seq<Ref>, ghost rank: map<Ref, nat>)
        returns (treeHeight: map<nat, seq<nat>>, heights: seq<nat>)
      requires Ranked(store, rank) && Consistent(store, vdis.Values) && forall c | c in cands :: c in vdis.Values
      ensures treeHeight == Groups(TreeKeys(State(), rank, cands))
      ensures Distinct(heights) && forall h :: h in heights <==> h in treeHeight
    {
      ghost var keys := TreeKeys(State(), rank, cands);
      treeHeight, heights := map[], [];
      assert keys[..0] == [];
      for i := 0 to |cands|
        invariant Distinct(heights) && forall h :: h in heights <==> h in treeHeight
        invariant treeHeight == Groups(keys[..i])
      {
        var root := GetTreeRoot(cands[i], rank);
        var height := Height(store, rank, root);
        TreeKeysAt(State(), rank, cands, i);
        GroupsSnoc(keys, i);
        if height in treeHeight {
          treeHeight := treeHeight[height := treeHeight[height] + [i]];
        } else {
          treeHeight := treeHeight[height := [i]];
          DistinctSnoc(heights, height);
          heights := heights + [height];
        }
      }
      assert keys[..|cands|] == keys;
    }

    /** SR.findCoalesceable. `coalesceSwitch` is the SR's coalesce switch in
        other-config, `relinkJournal` the uuids with a relink journal entry,
        `spaceNeeded` what coalescing each VDI would take and `freeSpace`
        the SR's free space. A relink-journal VDI comes first; otherwise the
        choice is ChooseCandidate's. */
    method FindCoalesceable(coalesceSwitch: Option<string>, relinkJournal: seq<string>,
                            spaceNeeded: Ref -> int, freeSpace: int, ghost rank: map<Ref, nat>)
        returns (chosen: Option<Ref>, ghost visits: seq<nat>, ghost p: nat)
      requires Linked(State(), rank)
      modifies this
      ensures State() == old(State()) && LockView() == old(LockView())
      ensures failedCoalesceTargets == old(failedCoalesceTargets)
      ensures coalesceSwitch == Some("false") ==> chosen.None? && noSpaceCandidates == old(noSpaceCandidates)
      ensures coalesceSwitch != Some("false") && RelinkTarget(vdis, failedCoalesceTargets, relinkJournal).Some? ==>
                chosen == RelinkTarget(vdis, failedCoalesceTargets, relinkJournal)
                && noSpaceCandidates == old(noSpaceCandidates)
      ensures coalesceSwitch != Some("false") && RelinkTarget(vdis, failedCoalesceTargets, relinkJournal).None? ==>
                Chosen(State(), failedCoalesceTargets, rank, spaceNeeded, freeSpace, old(noSpaceCandidates),
                       chosen, noSpaceCandidates, visits, p)
    {
      visits, p := [], 0;
      if coalesceSwitch == Some("false") {
        return None, visits, p;
      }
      var t := FirstRelink(vdis, failedCoalesceTargets, relinkJournal);
      if t.Some? {
        return t, visits, p;
      }
      chosen, visits, p := ChooseCandidate(spaceNeeded, freeSpace, rank);
    }

    /** The candidate loop, the grouping by tree height and the first-fit
        walk of SR.findCoalesceable. */
    method ChooseCandidate(spaceNeeded: Ref -> int, freeSpace: int, ghost rank: map<Ref, nat>)
        returns (chosen: Option<Ref>, ghost visits: seq<nat>, ghost p: nat)
      requires Registry(vdis, order, store) && Closed(store) && Ranked(store, rank) && Consistent(store, vdis.Values)
      modifies this
      ensures State() == old(State()) && LockView() == old(LockView())
      ensures failedCoalesceTargets == old(failedCoalesceTargets)
      ensures Chosen(State(), failedCoalesceTargets, rank, spaceNeeded, freeSpace, old(noSpaceCandidates),
                       chosen, noSpaceCandidates, visits, p)
    {
      ghost var s := State();
      var cands := CoalesceCandidates();
      var treeHeight, heights := GroupByHeight(cands, rank);
      var m;
      chosen, m, visits, p := SelectByHeight(cands, store, TreeKeys(s, rank, cands), treeHeight, heights,
                                             spaceNeeded, freeSpace, noSpaceCandidates);
      assert Chosen(s, failedCoalesceTargets, rank, spaceNeeded, freeSpace, noSpaceCandidates, chosen, m, visits, p);
      noSpaceCandidates := m;
    }
  }

  /** What the rest of SR.findCoalesceable promises: the coalesceable VDIs
      of `s` not among the `failed` targets, in registry order, are tried in
      the order `visits`, tallest tree first and then in registry order, and
      the first that fits is chosen (FirstFit); `m` is what the no-space
      record becomes from `m0`. */
  ghost predicate Chosen(s: SrState, failed: seq<Ref>, rank: map<Ref, nat>, spaceNeeded: Ref -> int, freeSpace: int,
                         m0: map<string, Ref>, chosen: Option<Ref>, m: map<string, Ref>, visits: seq<nat>, p: nat)
  {
    && Ranked(s.store, rank) && Consistent(s.store, s.vdis.Values) && Registry(s.vdis, s.order, s.store)
    && Closed(s.store)
    && var cs := Candidates(s, failed, s.order);
       && TallestFirst(TreeKeys(s, rank, cs), visits)
       && InRange(cs, s.store, visits)
       && FirstFit(cs, s.store, visits, spaceNeeded, freeSpace, m0, chosen, m, p)
  }

  /** The part of SR.findCoalesceable after the grouping: the heights are
      sorted tallest first and PickFirstFit walks their groups. `ks` gives
      the tree height of each candidate. */
  method SelectByHeight(cands: seq<Ref>, st: Store, ghost ks: seq<nat>, treeHeight: map<nat, seq<nat>>,
                        heights: seq<nat>, spaceNeeded: Ref -> int, freeSpace: int, m0: map<string, Ref>)
      returns (chosen: Option<Ref>, m: map<string, Ref>, ghost visits: seq<nat>, ghost p: nat)
    requires |ks| == |cands| && forall c | c in cands :: c in st
    requires treeHeight == Groups(ks)
    requires Distinct(heights) && forall h :: h in heights <==> h in treeHeight
    ensures chosen.Some? ==> chosen.value in cands && spaceNeeded(chosen.value) <= freeSpace
    ensures TallestFirst(ks, visits) && InRange(cands, st, visits)
    ensures FirstFit(cands, st, visits, spaceNeeded, freeSpace, m0, chosen, m, p)
  {
    GroupsWhere(ks);
    var hs := SortDesc(heights);
    VisitsTallestFirst(ks, treeHeight, hs);
    visits := Visits(treeHeight, hs);
    assert InRange(cands, st, visits) by {
      forall i | 0 <= i < |visits|
        ensures visits[i] < |cands| && cands[visits[i]] in st
      {
        assert visits[i] in visits;
      }
    }
    chosen, m, p := PickFirstFit(cands, st, treeHeight, hs, spaceNeeded, freeSpace, m0);
  }

  /** The relink-journal loop of SR.findCoalesceable. */
  method FirstRelink(vdis: map<string, Ref>, failed: seq<Ref>, journal: seq<string>) returns (t: Option<Ref>)
    ensures t == RelinkTarget(vdis, failed, journal)
  {
    var k := 0;
    while k < |journal|
      invariant k <= |journal|
      invariant RelinkTarget(vdis, failed, journal) == RelinkTarget(vdis, failed, journal[k..])
    {
      assert journal[k..][1..] == journal[k + 1..];
      var u := journal[k];
      if u in vdis && vdis[u] !in failed {
        return Some(vdis[u]);
      }
      k := k + 1;
    }
    return None;
  }

  /** The last loop of SR.findCoalesceable, on the objects `st` and the
      record `m0`: walk the heights `hs` in turn and each height's group in
      order, recording each candidate that does not fit, until one fits. */
  method PickFirstFit(cands: seq<Ref>, st: Store, treeHeight: map<nat, seq<nat>>, hs: seq<nat>,
                      spaceNeeded: Ref -> int, freeSpace: int, m0: map<string, Ref>)
      returns (chosen: Option<Ref>, m: map<string, Ref>, ghost p: nat)
    requires forall h | h in hs :: h in treeHeight
    requires InRange(cands, st, Visits(treeHeight, hs))
    ensures FirstFit(cands, st, Visits(treeHeight, hs), spaceNeeded, freeSpace, m0, chosen, m, p)
  {
    ghost var vs := Visits(treeHeight, hs);
    ghost var n := 0;
    m := m0;
    assert hs[..0] == [];
    for a := 0 to |hs|
      invariant n == |Visits(treeHeight, hs[..a])| <= |vs|
      invariant forall q | 0 <= q < n :: spaceNeeded(cands[vs[q]]) > freeSpace
      invariant m == NoSpace(m0, st, cands, vs, n)
    {
      var g := treeHeight[hs[a]];
      VisitsSnoc(treeHeight, hs, a);
      VisitsPrefix(treeHeight, hs, a + 1);
      forall b | 0 <= b < |g|
        ensures n + b < |vs| && vs[n + b] == g[b]
      {
        NextVisit(vs, Visits(treeHeight, hs[..a]), g, b);
      }
      var found;
      found, m, n := ScanGroup(cands, st, g, spaceNeeded, freeSpace, m0, vs, n, m);
      if found.Some? {
        return found, m, n;
      }
    }
    assert hs[..|hs|] == hs;
    chosen, p := None, 0;
  }

  /** The inner loop of the last loop of SR.findCoalesceable: walk the
      group `g`, which the walk `vs` holds from position `n0` on, with the
      first `n0` candidates of `vs` recorded in `m1`. */
  method ScanGroup(cands: seq<Ref>, st: Store, g: seq<nat>, spaceNeeded: Ref -> int, freeSpace: int,
                   ghost m0: map<string, Ref>, ghost vs: seq<nat>, ghost n0: nat, m1: map<string, Ref>)
      returns (found: Option<Ref>, m: map<string, Ref>, ghost n: nat)
    requires InRange(cands, st, vs) && n0 + |g| <= |vs|
    requires forall b | 0 <= b < |g| :: vs[n0 + b] == g[b]
    requires m1 == NoSpace(m0, st, cands, vs, n0)
    ensures found.Some? ==> found.value in cands && spaceNeeded(found.value) <= freeSpace
    ensures n0 <= n <= n0 + |g|
    ensures forall q | n0 <= q < n :: spaceNeeded(cands[vs[q]]) > freeSpace
    ensures found.None? ==> n == n0 + |g| && m == NoSpace(m0, st, cands, vs, n)
    ensures found.Some? ==>
              && n < n0 + |g|
              && found.value == cands[vs[n]]
              && spaceNeeded(found.value) <= freeSpace
              && m == NoSpace(m0, st, cands, vs, n) - {st[found.value].uuid}
  {
    m, n := m1, n0;
    for b := 0 to |g|
      invariant n == n0 + b
      invariant forall q | n0 <= q < n :: spaceNeeded(cands[vs[q]]) > freeSpace
      invariant m == NoSpace(m0, st, cands, vs, n)
    {
      var c := cands[g[b]];
      if spaceNeeded(c) <= freeSpace {
        return Some(c), m - {st[c].uuid}, n;
      }
      m := m[st[c].uuid := c];
      n := n + 1;
    }
    found := None;
  }
}
