/** The VHD tree of an SR: VDI objects linked by `parent` and `children`,
    and the questions the collector asks of it (VDI.isCoalesceable,
    isLeafCoalesceable, getTreeHeight, getAllLeaves, _getAllSubtree,
    getAllPrunable).

    VDI objects are records in a store indexed by object identity (`Ref`), so
    that the `vdis` map, the `vdiTrees` list and every `children` list can
    refer to the same object, as they do in the source. The recursive queries
    only terminate on an acyclic tree; `rank` is a ghost witness of that
    (every child ranks below its parent). */
module VhdTree {
  import opened Wrappers

  /** Identity of a VDI object. */
  type Ref = nat

  /** The VDI fields the collector reads: `uuid`, `parentUuid`, `hidden`,
      `scanError`, `raw`, the physical size (`_sizeVHD`), and the links
      `parent` and `children` built by SR._buildTree. */
  datatype Vdi = Vdi(
    uuid: string,
    parentUuid: string,
    hidden: bool,
    scanError: bool,
    raw: bool,
    sizeVHD: int,
    parent: Option<Ref>,
    children: seq<Ref>)

  type Store = map<Ref, Vdi>

  predicate Distinct<T(==)>(s: seq<T>)
  {
    forall i, j :: 0 <= i < j < |s| ==> s[i] != s[j]
  }

  /** Every child of a stored VDI is stored and ranks below it: the tree has
      no cycle. */
  ghost predicate Ranked(st: Store, rank: map<Ref, nat>)
  {
    forall r | r in st ::
      r in rank && forall c | c in st[r].children :: c in st && c in rank && rank[c] < rank[r]
  }

  /** The links of the VDIs in `live` (those registered in the SR) agree:
      a child names its parent, a parent lists its child, once. */
  ghost predicate Consistent(st: Store, live: set<Ref>)
  {
    && live <= st.Keys
    && (forall r | r in live ::
          Distinct(st[r].children)
          && forall c | c in st[r].children :: c in live && st[c].parent == Some(r))
    && (forall r | r in live && st[r].parent.Some? ::
          st[r].parent.value in live && r in st[st[r].parent.value].children)
  }

  // ------------------------------------------------------------ coalescing

  /** VDI.isCoalesceable: a hidden inner node with no sibling. */
  function IsCoalesceable(st: Store, r: Ref): (b: bool)
    requires r in st && (st[r].parent.Some? ==> st[r].parent.value in st)
  {
    var v := st[r];
    !v.scanError && v.parent.Some? && |st[v.parent.value].children| == 1
    && v.hidden && |v.children| > 0
  }

  /** VDI.isLeafCoalesceable: a visible leaf with no sibling. Never both. */
  function IsLeafCoalesceable(st: Store, r: Ref): (b: bool)
    requires r in st && (st[r].parent.Some? ==> st[r].parent.value in st)
    ensures b ==> !IsCoalesceable(st, r)
    ensures b || IsCoalesceable(st, r) ==>
              !st[r].scanError && st[r].parent.Some? && |st[st[r].parent.value].children| == 1
  {
    var v := st[r];
    !v.scanError && v.parent.Some? && |st[v.parent.value].children| == 1
    && !v.hidden && |v.children| == 0
  }

  /** In a consistent tree a coalescing candidate of either kind is the one
      and only child of its parent. */
  lemma SoleChild(st: Store, live: set<Ref>, r: Ref)
    requires Consistent(st, live) && r in live
    requires IsCoalesceable(st, r) || IsLeafCoalesceable(st, r)
    ensures st[st[r].parent.value].children == [r]
  {
    var p := st[r].parent.value;
    assert r in st[p].children;
  }

  // ------------------------------------------------------------ queries

  function Max(x: nat, y: nat): nat
  {
    if x < y then y else x
  }

  /** VDI.getTreeHeight */
  function Height(st: Store, ghost rank: map<Ref, nat>, r: Ref): (h: nat)
    requires Ranked(st, rank) && r in st
    ensures h >= 1
    decreases rank[r] + 1, 0
  {
    if st[r].children == [] then 1
    else 1 + MaxHeight(st, rank, st[r].children, rank[r])
  }

  /** The largest height among `cs` (0 for none): the loop of getTreeHeight. */
  function MaxHeight(st: Store, ghost rank: map<Ref, nat>, cs: seq<Ref>, ghost bound: nat): (m: nat)
    requires Ranked(st, rank) && forall c | c in cs :: c in st && rank[c] < bound
    decreases bound, |cs|
  {
    if cs == [] then 0
    else Max(Height(st, rank, cs[0]), MaxHeight(st, rank, cs[1..], bound))
  }

  /** VDI._getAllSubtree: the VDI and its subtree, parents first. */
  function Subtree(st: Store, ghost rank: map<Ref, nat>, r: Ref): (l: seq<Ref>)
    requires Ranked(st, rank) && r in st
    ensures l != [] && l[0] == r
    decreases rank[r] + 1, 0
  {
    [r] + SubtreeOf(st, rank, st[r].children, rank[r])
  }

  function SubtreeOf(st: Store, ghost rank: map<Ref, nat>, cs: seq<Ref>, ghost bound: nat): (l: seq<Ref>)
    requires Ranked(st, rank) && forall c | c in cs :: c in st && rank[c] < bound
    decreases bound, |cs|
  {
    if cs == [] then []
    else Subtree(st, rank, cs[0]) + SubtreeOf(st, rank, cs[1..], bound)
  }

  /** VDI.getAllLeaves */
  function AllLeaves(st: Store, ghost rank: map<Ref, nat>, r: Ref): (l: seq<Ref>)
    requires Ranked(st, rank) && r in st
    decreases rank[r] + 1, 0
  {
    if st[r].children == [] then [r]
    else LeavesOf(st, rank, st[r].children, rank[r])
  }

  function LeavesOf(st: Store, ghost rank: map<Ref, nat>, cs: seq<Ref>, ghost bound: nat): (l: seq<Ref>)
    requires Ranked(st, rank) && forall c | c in cs :: c in st && rank[c] < bound
    decreases bound, |cs|
  {
    if cs == [] then []
    else AllLeaves(st, rank, cs[0]) + LeavesOf(st, rank, cs[1..], bound)
  }

  /** VDI.getAllPrunable: the garbage in the subtree. A leaf is garbage when
      it is hidden, was scanned and has no relink journal entry (`relinks`
      are the uuids with one); an inner node when it was scanned and all its
      children are garbage. */
  function Prunable(st: Store, ghost rank: map<Ref, nat>, relinks: set<string>, r: Ref): (l: seq<Ref>)
    requires Ranked(st, rank) && r in st
    decreases rank[r] + 1, 0
  {
    var v := st[r];
    if v.children == [] then
      if v.uuid in relinks then []
      else if !v.scanError && v.hidden then [r]
      else []
    else
      var (vdiList, thisPrunable) := PrunableOf(st, rank, relinks, v.children, rank[r]);
      if !v.scanError && thisPrunable then vdiList + [r] else vdiList
  }

  /** The loop of getAllPrunable over `cs`: the children's lists joined, and
      whether every child is in its own list. */
  function PrunableOf(st: Store, ghost rank: map<Ref, nat>, relinks: set<string>, cs: seq<Ref>, ghost bound: nat): (seq<Ref>, bool)
    requires Ranked(st, rank) && forall c | c in cs :: c in st && rank[c] < bound
    decreases bound, |cs|
  {
    if cs == [] then ([], true)
    else
      var childList := Prunable(st, rank, relinks, cs[0]);
      var rest := PrunableOf(st, rank, relinks, cs[1..], bound);
      (childList + rest.0, cs[0] in childList && rest.1)
  }

  /** SR.findGarbage: the garbage of every tree, tree by tree. */
  function Garbage(st: Store, ghost rank: map<Ref, nat>, relinks: set<string>, roots: seq<Ref>): (l: seq<Ref>)
    requires Ranked(st, rank) && forall c | c in roots :: c in st
    decreases |roots|
  {
    if roots == [] then []
    else Prunable(st, rank, relinks, roots[0]) + Garbage(st, rank, relinks, roots[1..])
  }

  /** findGarbage's loop extends the list tree by tree. */
  lemma {:induction false} GarbageSnoc(st: Store, rank: map<Ref, nat>, relinks: set<string>, roots: seq<Ref>, r: Ref)
    requires Ranked(st, rank) && (forall c | c in roots :: c in st) && r in st
    ensures Garbage(st, rank, relinks, roots + [r]) == Garbage(st, rank, relinks, roots) + Prunable(st, rank, relinks, r)
    decreases |roots|
  {
    if roots != [] {
      assert (roots + [r])[1..] == roots[1..] + [r];
      GarbageSnoc(st, rank, relinks, roots[1..], r);
    }
  }

  // ------------------------------------------------------------ parent chains

  /** The VDI `k` parent links above `x`, if there is one. */
  function Up(st: Store, x: Ref, k: nat): Option<Ref>
    decreases k
  {
    if k == 0 then Some(x)
    else if x !in st || st[x].parent.None? then None
    else Up(st, st[x].parent.value, k - 1)
  }

  /** `a` is `x` or one of its ancestors. */
  ghost predicate Descends(st: Store, x: Ref, a: Ref)
  {
    exists k: nat :: Up(st, x, k) == Some(a)
  }

  lemma {:induction false} UpAdd(st: Store, x: Ref, i: nat, j: nat)
    ensures Up(st, x, i + j) == match Up(st, x, i) case None => None case Some(y) => Up(st, y, j)
    decreases i
  {
    if i > 0 && x in st && st[x].parent.Some? {
      UpAdd(st, st[x].parent.value, i - 1, j);
    }
  }

  /** Going up a consistent, ranked tree stays among the registered VDIs and
      strictly raises the rank. */
  lemma {:induction false} UpRank(st: Store, rank: map<Ref, nat>, live: set<Ref>, x: Ref, k: nat, y: Ref)
    requires Ranked(st, rank) && Consistent(st, live) && x in live
    requires Up(st, x, k) == Some(y)
    ensures y in live && x in rank && y in rank && rank[x] <= rank[y]
    ensures k > 0 ==> rank[x] < rank[y]
    decreases k
  {
    if k > 0 {
      var p := st[x].parent.value;
      assert x in st[p].children;
      UpRank(st, rank, live, p, k - 1, y);
    }
  }

  // ------------------------------------------------------------ membership

  lemma {:induction false} SubtreeOfMember(st: Store, rank: map<Ref, nat>, cs: seq<Ref>, bound: nat, x: Ref)
    requires Ranked(st, rank) && forall c | c in cs :: c in st && rank[c] < bound
    ensures x in SubtreeOf(st, rank, cs, bound) <==> exists i :: 0 <= i < |cs| && x in Subtree(st, rank, cs[i])
    decreases |cs|
  {
    if cs != [] {
      SubtreeOfMember(st, rank, cs[1..], bound, x);
      if x in SubtreeOf(st, rank, cs[1..], bound) {
        var i :| 0 <= i < |cs[1..]| && x in Subtree(st, rank, cs[1..][i]);
        assert cs[i + 1] == cs[1..][i];
      }
      if exists i :: 0 <= i < |cs| && x in Subtree(st, rank, cs[i]) {
        var i :| 0 <= i < |cs| && x in Subtree(st, rank, cs[i]);
        if i > 0 {
          assert cs[1..][i - 1] == cs[i];
        }
      }
    }
  }

  lemma {:induction false} GarbageMember(st: Store, rank: map<Ref, nat>, relinks: set<string>, cs: seq<Ref>, x: Ref)
    requires Ranked(st, rank) && forall c | c in cs :: c in st
    ensures x in Garbage(st, rank, relinks, cs) <==> exists i :: 0 <= i < |cs| && x in Prunable(st, rank, relinks, cs[i])
    decreases |cs|
  {
    if cs != [] {
      GarbageMember(st, rank, relinks, cs[1..], x);
      if x in Garbage(st, rank, relinks, cs[1..]) {
        var i :| 0 <= i < |cs[1..]| && x in Prunable(st, rank, relinks, cs[1..][i]);
        assert cs[i + 1] == cs[1..][i];
      }
      if exists i :: 0 <= i < |cs| && x in Prunable(st, rank, relinks, cs[i]) {
        var i :| 0 <= i < |cs| && x in Prunable(st, rank, relinks, cs[i]);
        if i > 0 {
          assert cs[1..][i - 1] == cs[i];
        }
      }
    }
  }

  /** The loop of getAllPrunable collects exactly what findGarbage would
      collect from the children, and its flag says every child is garbage. */
  lemma {:induction false} PrunableOfIsGarbage(st: Store, rank: map<Ref, nat>, relinks: set<string>, cs: seq<Ref>, bound: nat)
    requires Ranked(st, rank) && forall c | c in cs :: c in st && rank[c] < bound
    ensures PrunableOf(st, rank, relinks, cs, bound).0 == Garbage(st, rank, relinks, cs)
    ensures PrunableOf(st, rank, relinks, cs, bound).1 <==>
              forall i :: 0 <= i < |cs| ==> cs[i] in Prunable(st, rank, relinks, cs[i])
    decreases |cs|
  {
    if cs != [] {
      PrunableOfIsGarbage(st, rank, relinks, cs[1..], bound);
      assert forall i :: 0 < i < |cs| ==> cs[1..][i - 1] == cs[i];
    }
  }

  /** A subtree holds only stored VDIs, none ranked above its root. */
  lemma {:induction false} SubtreeRank(st: Store, rank: map<Ref, nat>, r: Ref, x: Ref)
    requires Ranked(st, rank) && r in st && x in Subtree(st, rank, r)
    ensures x in st && rank[x] <= rank[r]
    decreases rank[r]
  {
    if x != r {
      SubtreeOfMember(st, rank, st[r].children, rank[r], x);
      var i :| 0 <= i < |st[r].children| && x in Subtree(st, rank, st[r].children[i]);
      SubtreeRank(st, rank, st[r].children[i], x);
    }
  }

  /** Everything in the subtree of a registered VDI is registered and has
      that VDI on its parent chain. */
  lemma {:induction false} SubtreeDescends(st: Store, rank: map<Ref, nat>, live: set<Ref>, a: Ref, x: Ref)
    requires Ranked(st, rank) && Consistent(st, live) && a in live
    requires x in Subtree(st, rank, a)
    ensures x in live && Descends(st, x, a)
    decreases rank[a]
  {
    if x == a {
      assert Up(st, x, 0) == Some(a);
    } else {
      SubtreeOfMember(st, rank, st[a].children, rank[a], x);
      var i :| 0 <= i < |st[a].children| && x in Subtree(st, rank, st[a].children[i]);
      var c := st[a].children[i];
      SubtreeDescends(st, rank, live, c, x);
      var k: nat :| Up(st, x, k) == Some(c);
      UpAdd(st, x, k, 1);
      assert Up(st, c, 1) == Some(a);
      assert Up(st, x, k + 1) == Some(a);
    }
  }

  /** A subtree is closed under taking children. */
  lemma {:induction false} SubtreeChild(st: Store, rank: map<Ref, nat>, a: Ref, p: Ref, c: Ref)
    requires Ranked(st, rank) && a in st && p in Subtree(st, rank, a)
    requires p in st && c in st[p].children
    ensures c in Subtree(st, rank, a)
    decreases rank[a]
  {
    if p == a {
      var i :| 0 <= i < |st[a].children| && st[a].children[i] == c;
      SubtreeOfMember(st, rank, st[a].children, rank[a], c);
    } else {
      SubtreeOfMember(st, rank, st[a].children, rank[a], p);
      var i :| 0 <= i < |st[a].children| && p in Subtree(st, rank, st[a].children[i]);
      SubtreeChild(st, rank, st[a].children[i], p, c);
      SubtreeOfMember(st, rank, st[a].children, rank[a], c);
    }
  }

  lemma {:induction false} DescendsSubtree(st: Store, rank: map<Ref, nat>, live: set<Ref>, a: Ref, x: Ref, k: nat)
    requires Ranked(st, rank) && Consistent(st, live) && a in live && x in live
    requires Up(st, x, k) == Some(a)
    ensures x in Subtree(st, rank, a)
    decreases k
  {
    if k > 0 {
      var p := st[x].parent.value;
      DescendsSubtree(st, rank, live, a, p, k - 1);
      SubtreeChild(st, rank, a, p, x);
    }
  }

  /** _getAllSubtree returns exactly the registered VDIs whose parent chain
      leads to the starting VDI. */
  lemma SubtreeExact(st: Store, rank: map<Ref, nat>, live: set<Ref>, a: Ref, x: Ref)
    requires Ranked(st, rank) && Consistent(st, live) && a in live
    ensures x in Subtree(st, rank, a) <==> x in live && Descends(st, x, a)
  {
    if x in Subtree(st, rank, a) {
      SubtreeDescends(st, rank, live, a, x);
    }
    if x in live && Descends(st, x, a) {
      var k: nat :| Up(st, x, k) == Some(a);
      DescendsSubtree(st, rank, live, a, x, k);
    }
  }

  /** Two different VDIs with the same parent (or both roots) have disjoint
      subtrees. */
  lemma SiblingsDisjoint(st: Store, rank: map<Ref, nat>, live: set<Ref>, a: Ref, b: Ref, x: Ref)
    requires Ranked(st, rank) && Consistent(st, live) && a in live && b in live
    requires a != b && st[a].parent == st[b].parent
    ensures !(x in Subtree(st, rank, a) && x in Subtree(st, rank, b))
  {
    if x in Subtree(st, rank, a) && x in Subtree(st, rank, b) {
      SubtreeDescends(st, rank, live, a, x);
      SubtreeDescends(st, rank, live, b, x);
      var ka: nat :| Up(st, x, ka) == Some(a);
      var kb: nat :| Up(st, x, kb) == Some(b);
      if ka < kb {
        AboveSibling(st, rank, live, x, ka, kb, a, b);
      } else if kb < ka {
        AboveSibling(st, rank, live, x, kb, ka, b, a);
      }
    }
  }

  /** Climbing further from `x` than to `a` passes through `a`'s parent. */
  lemma AboveSibling(st: Store, rank: map<Ref, nat>, live: set<Ref>, x: Ref, ka: nat, kb: nat, a: Ref, b: Ref)
    requires Ranked(st, rank) && Consistent(st, live) && a in live && x in live
    requires ka < kb && Up(st, x, ka) == Some(a) && Up(st, x, kb) == Some(b)
    ensures st[a].parent.Some? && st[a].parent.value in rank && b in rank
    ensures rank[st[a].parent.value] <= rank[b]
  {
    UpAdd(st, x, ka, kb - ka);
    var p := st[a].parent.value;
    assert Up(st, p, kb - ka - 1) == Some(b);
    UpRank(st, rank, live, p, kb - ka - 1, b);
  }

  // ------------------------------------------------------------ heights

  lemma {:induction false} MaxHeightIsMax(st: Store, rank: map<Ref, nat>, cs: seq<Ref>, bound: nat)
    requires Ranked(st, rank) && forall c | c in cs :: c in st && rank[c] < bound
    ensures forall i :: 0 <= i < |cs| ==> Height(st, rank, cs[i]) <= MaxHeight(st, rank, cs, bound)
    ensures cs != [] ==> exists i :: 0 <= i < |cs| && MaxHeight(st, rank, cs, bound) == Height(st, rank, cs[i])
    decreases |cs|
  {
    if cs != [] {
      MaxHeightIsMax(st, rank, cs[1..], bound);
      assert forall i :: 0 < i < |cs| ==> cs[1..][i - 1] == cs[i];
      if cs[1..] != [] && MaxHeight(st, rank, cs[1..], bound) > Height(st, rank, cs[0]) {
        var i :| 0 <= i < |cs[1..]| && MaxHeight(st, rank, cs[1..], bound) == Height(st, rank, cs[1..][i]);
        assert MaxHeight(st, rank, cs, bound) == Height(st, rank, cs[i + 1]);
      }
    }
  }

  /** getTreeHeight is 1 exactly for a leaf, and otherwise one more than the
      tallest child. */
  lemma HeightSpec(st: Store, rank: map<Ref, nat>, r: Ref)
    requires Ranked(st, rank) && r in st
    ensures Height(st, rank, r) == 1 <==> st[r].children == []
    ensures forall c | c in st[r].children :: Height(st, rank, c) < Height(st, rank, r)
    ensures st[r].children != [] ==>
              exists c | c in st[r].children :: Height(st, rank, r) == Height(st, rank, c) + 1
  {
    var cs := st[r].children;
    if cs != [] {
      MaxHeightIsMax(st, rank, cs, rank[r]);
      var i :| 0 <= i < |cs| && MaxHeight(st, rank, cs, rank[r]) == Height(st, rank, cs[i]);
      assert cs[i] in cs;
    }
  }

  // ------------------------------------------------------------ leaves

  /** getAllLeaves returns exactly the childless VDIs of the subtree. */
  lemma {:induction false} LeavesExact(st: Store, rank: map<Ref, nat>, r: Ref, x: Ref)
    requires Ranked(st, rank) && r in st
    ensures x in AllLeaves(st, rank, r) <==> x in Subtree(st, rank, r) && x in st && st[x].children == []
    decreases rank[r] + 1, 0
  {
    if st[r].children != [] {
      LeavesOfExact(st, rank, st[r].children, rank[r], x);
    }
  }

  lemma {:induction false} LeavesOfExact(st: Store, rank: map<Ref, nat>, cs: seq<Ref>, bound: nat, x: Ref)
    requires Ranked(st, rank) && forall c | c in cs :: c in st && rank[c] < bound
    ensures x in LeavesOf(st, rank, cs, bound) <==>
              x in SubtreeOf(st, rank, cs, bound) && x in st && st[x].children == []
    decreases bound, |cs|
  {
    if cs != [] {
      LeavesExact(st, rank, cs[0], x);
      LeavesOfExact(st, rank, cs[1..], bound, x);
    }
  }

  // ------------------------------------------------------------ garbage

  /** What getAllPrunable promises about each VDI it returns: it lies in the
      subtree, has no scan error, is a hidden leaf without a relink journal
      entry or an interior VDI all of whose children are garbage too. */
  lemma {:induction false} PrunableFacts(st: Store, rank: map<Ref, nat>, relinks: set<string>, r: Ref, x: Ref)
    requires Ranked(st, rank) && r in st && x in Prunable(st, rank, relinks, r)
    ensures x in st && x in Subtree(st, rank, r) && !st[x].scanError
    ensures st[x].children == [] ==> st[x].hidden && st[x].uuid !in relinks
    ensures forall c | c in st[x].children :: c in Prunable(st, rank, relinks, r)
    decreases rank[r]
  {
    var cs := st[r].children;
    if cs != [] {
      PrunableOfIsGarbage(st, rank, relinks, cs, rank[r]);
      if x in Garbage(st, rank, relinks, cs) {
        GarbageMember(st, rank, relinks, cs, x);
        var i :| 0 <= i < |cs| && x in Prunable(st, rank, relinks, cs[i]);
        PrunableFacts(st, rank, relinks, cs[i], x);
        SubtreeOfMember(st, rank, cs, rank[r], x);
        forall c | c in st[x].children
          ensures c in Prunable(st, rank, relinks, r)
        {
          GarbageMember(st, rank, relinks, cs, c);
        }
      } else {
        assert x == r;
        forall c | c in cs
          ensures c in Prunable(st, rank, relinks, r)
        {
          var i :| 0 <= i < |cs| && cs[i] == c;
          GarbageMember(st, rank, relinks, cs, c);
        }
      }
    }
  }

  /** Garbage is closed under descendants: everything below a garbage VDI is
      garbage as well. */
  lemma {:induction false} PrunableClosed(st: Store, rank: map<Ref, nat>, relinks: set<string>, r: Ref, x: Ref, y: Ref)
    requires Ranked(st, rank) && r in st && x in Prunable(st, rank, relinks, r)
    requires x in st && y in Subtree(st, rank, x)
    ensures y in Prunable(st, rank, relinks, r)
    decreases rank[x]
  {
    if y != x {
      SubtreeOfMember(st, rank, st[x].children, rank[x], y);
      var i :| 0 <= i < |st[x].children| && y in Subtree(st, rank, st[x].children[i]);
      PrunableFacts(st, rank, relinks, r, x);
      PrunableClosed(st, rank, relinks, r, st[x].children[i], y);
    }
  }

  /** No VDI of the list comes after one of its own parents. */
  predicate PostOrder(st: Store, l: seq<Ref>)
  {
    forall i, j | 0 <= i < j < |l| && l[i] in st :: l[j] !in st[l[i]].children
  }

  /** A list in which children are deleted before their parents, each once. */
  predicate WellOrdered(st: Store, l: seq<Ref>)
  {
    Distinct(l) && PostOrder(st, l)
  }

  /** Nothing of `a` reappears in `b` or has a child in `b`. */
  predicate Separate(st: Store, a: seq<Ref>, b: seq<Ref>)
  {
    forall x, y | x in a && y in b :: x != y && (x in st ==> y !in st[x].children)
  }

  lemma ConcatOrdered(st: Store, a: seq<Ref>, b: seq<Ref>)
    requires WellOrdered(st, a) && WellOrdered(st, b) && Separate(st, a, b)
    ensures WellOrdered(st, a + b)
  {
    var l := a + b;
    forall i, j | 0 <= i < j < |l|
      ensures l[i] != l[j] && (l[i] in st ==> l[j] !in st[l[i]].children)
    {
      if j < |a| {
        assert l[i] == a[i] && l[j] == a[j];
      } else if i >= |a| {
        assert l[i] == b[i - |a|] && l[j] == b[j - |a|];
      } else {
        assert l[i] in a && l[j] in b;
      }
    }
  }

  /** findGarbage over sibling trees keeps post-order and never lists a VDI
      twice, given that each tree's own list does. */
  lemma {:induction false} GarbageOrdered(st: Store, rank: map<Ref, nat>, live: set<Ref>, relinks: set<string>, cs: seq<Ref>)
    requires Ranked(st, rank) && Consistent(st, live)
    requires forall c | c in cs :: c in live && WellOrdered(st, Prunable(st, rank, relinks, c))
    requires Distinct(cs) && forall i | 0 <= i < |cs| :: st[cs[i]].parent == st[cs[0]].parent
    ensures WellOrdered(st, Garbage(st, rank, relinks, cs))
    decreases |cs|
  {
    if cs != [] {
      var head := Prunable(st, rank, relinks, cs[0]);
      var tail := cs[1..];
      assert forall i | 0 <= i < |tail| :: tail[i] == cs[i + 1];
      GarbageOrdered(st, rank, live, relinks, tail);
      forall x, y | x in head && y in Garbage(st, rank, relinks, tail)
        ensures x != y && (x in st ==> y !in st[x].children)
      {
        PrunableFacts(st, rank, relinks, cs[0], x);
        GarbageMember(st, rank, relinks, tail, y);
        var j :| 0 <= j < |tail| && y in Prunable(st, rank, relinks, tail[j]);
        PrunableFacts(st, rank, relinks, tail[j], y);
        SiblingsDisjoint(st, rank, live, cs[0], tail[j], y);
        if y in st[x].children {
          SubtreeChild(st, rank, cs[0], x, y);
        }
      }
      ConcatOrdered(st, head, Garbage(st, rank, relinks, tail));
    }
  }

  /** getAllPrunable returns each VDI once, children before their parent, so
      that deleting in list order always deletes a childless VDI. */
  lemma {:induction false} PrunableOrdered(st: Store, rank: map<Ref, nat>, live: set<Ref>, relinks: set<string>, r: Ref)
    requires Ranked(st, rank) && Consistent(st, live) && r in live
    ensures WellOrdered(st, Prunable(st, rank, relinks, r))
    decreases rank[r]
  {
    var cs := st[r].children;
    if cs != [] {
      forall c | c in cs
        ensures WellOrdered(st, Prunable(st, rank, relinks, c))
      {
        PrunableOrdered(st, rank, live, relinks, c);
      }
      PrunableOfIsGarbage(st, rank, relinks, cs, rank[r]);
      GarbageOrdered(st, rank, live, relinks, cs);
      var g := Garbage(st, rank, relinks, cs);
      forall x, y | x in g && y in [r]
        ensures x != y && (x in st ==> y !in st[x].children)
      {
        GarbageMember(st, rank, relinks, cs, x);
        var i :| 0 <= i < |cs| && x in Prunable(st, rank, relinks, cs[i]);
        PrunableFacts(st, rank, relinks, cs[i], x);
        SubtreeRank(st, rank, cs[i], x);
      }
      ConcatOrdered(st, g, [r]);
    }
  }

  /** SR.findGarbage over the roots of the VDI forest. */
  lemma FindGarbageOrdered(st: Store, rank: map<Ref, nat>, live: set<Ref>, relinks: set<string>, roots: seq<Ref>)
    requires Ranked(st, rank) && Consistent(st, live)
    requires Distinct(roots) && forall c | c in roots :: c in live && st[c].parent.None?
    ensures WellOrdered(st, Garbage(st, rank, relinks, roots))
  {
    forall c | c in roots
      ensures WellOrdered(st, Prunable(st, rank, relinks, c))
    {
      PrunableOrdered(st, rank, live, relinks, c);
    }
    GarbageOrdered(st, rank, live, relinks, roots);
  }

  // ------------------------------------------------------------ roots

  /** The registered VDIs ranked above `r`: shrinks on every step up. */
  ghost function Above(live: set<Ref>, rank: map<Ref, nat>, r: Ref): set<Ref>
    requires r in rank
  {
    set x | x in live && x in rank && rank[x] > rank[r]
  }

  lemma AboveShrinks(st: Store, rank: map<Ref, nat>, live: set<Ref>, r: Ref)
    requires Ranked(st, rank) && Consistent(st, live) && r in live && st[r].parent.Some?
    ensures st[r].parent.value in rank && |Above(live, rank, st[r].parent.value)| < |Above(live, rank, r)|
  {
    var p := st[r].parent.value;
    assert r in st[p].children;
    var a, b := Above(live, rank, p), Above(live, rank, r);
    assert p !in a;
    assert a + {p} <= b;
    SubsetCard(a + {p}, b);
  }

  lemma {:induction false} SubsetCard<T>(a: set<T>, b: set<T>)
    requires a <= b
    ensures |a| <= |b|
    decreases |a|
  {
    if a != {} {
      var x :| x in a;
      SubsetCard(a - {x}, b - {x});
    }
  }

  /** VDI.getTreeRoot: follow `parent` up to a VDI that has none. */
  function TreeRoot(st: Store, ghost live: set<Ref>, ghost rank: map<Ref, nat>, r: Ref): (root: Ref)
    requires Ranked(st, rank) && Consistent(st, live) && r in live
    ensures root in live && st[root].parent.None? && Descends(st, r, root)
    decreases |Above(live, rank, r)|
  {
    if st[r].parent.None? then
      assert Up(st, r, 0) == Some(r);
      r
    else
      AboveShrinks(st, rank, live, r);
      var root := TreeRoot(st, live, rank, st[r].parent.value);
      ghost var k: nat :| Up(st, st[r].parent.value, k) == Some(root);
      assert Up(st, r, k + 1) == Some(root);
      root
  }
}