/** The multi-level map from guest-physical page to section number: entries and nodes as
    stored, the walk that reads them, and the invariants that tie every slot to the page
    view the tree stands for. */
module RadixTree {
  import opened Arithmetic
  import opened RadixGeometry

  /** PHYS_MAP_NODE_NIL: all 26 pointer bits set. */
  const NIL := 0x3FF_FFFF

  /** PHYS_SECTION_UNASSIGNED. */
  const UNASSIGNED := 0

  /** `skip` levels to the next node (0 for a leaf); `ptr` is a section number for a leaf
      and a node number otherwise. */
  datatype Entry = Entry(skip: nat, ptr: nat)

  type Node = seq<Entry>

  /** A page view gives every page the number of its section, 0 when unassigned. */
  type View = nat -> nat

  predicate Closed(nodes: seq<Node>, e: Entry) {
    e.skip != 0 && e.ptr != NIL ==> e.ptr < |nodes|
  }

  predicate NodeClosed(nodes: seq<Node>, n: nat)
    requires n < |nodes|
  {
    |nodes[n]| == L2_SIZE && forall k | 0 <= k < L2_SIZE :: Closed(nodes, nodes[n][k])
  }

  predicate AllClosed(nodes: seq<Node>) {
    forall n | 0 <= n < |nodes| :: NodeClosed(nodes, n)
  }

  /** The section number that a lookup of page `index` ends on, before the range check. */
  function Walk(nodes: seq<Node>, lp: Entry, i: nat, index: nat): nat
    requires AllClosed(nodes) && Closed(nodes, lp)
    decreases i
  {
    if lp.skip == 0 || lp.skip > i then lp.ptr
    else if lp.ptr == NIL then UNASSIGNED
    else
      assert NodeClosed(nodes, lp.ptr);
      Walk(nodes, nodes[lp.ptr][Index(i - lp.skip, index)], i - lp.skip, index)
  }

  /** The stored tree together with what it stands for: where each node sits, the page view
      and the section numbers used as leaves. */
  datatype Tree = Tree(root: Entry, nodes: seq<Node>, sites: seq<Site>, view: View, leaves: set<nat>)

  /** Entry `e`, standing `level` levels above the pages and responsible for [lo, hi), loses no
      assigned page of that range. Pages of the range that are unassigned may lead anywhere. */
  ghost predicate EntryOk(t: Tree, e: Entry, level: nat, lo: nat, hi: nat) {
    && e.skip <= level
    && if e.skip == 0 then
      && (e.ptr == UNASSIGNED || e.ptr in t.leaves)
      && forall p: nat | lo <= p < hi && t.view(p) != UNASSIGNED :: t.view(p) == e.ptr
    else if e.ptr == NIL then
      forall p: nat | lo <= p < hi :: t.view(p) == UNASSIGNED
    else
      && e.ptr < |t.sites|
      && t.sites[e.ptr].level == level - e.skip
      && forall p: nat | lo <= p < hi && t.view(p) != UNASSIGNED :: InSite(t.sites[e.ptr], p)
  }

  ghost predicate SlotOk(t: Tree, n: nat, k: nat)
    requires n < |t.nodes| == |t.sites| && |t.nodes[n]| == L2_SIZE && k < L2_SIZE
  {
    EntryOk(t, t.nodes[n][k], t.sites[n].level, Lo(t.sites[n], k), Lo(t.sites[n], k + 1))
  }

  ghost predicate Shape(t: Tree) {
    && |t.nodes| == |t.sites| <= NIL
    && (forall n | 0 <= n < |t.nodes| :: |t.nodes[n]| == L2_SIZE)
    && (forall n | 0 <= n < |t.sites| :: t.sites[n].level < LEVELS && Aligned(t.sites[n]))
    && (forall p :: t.view(p) == UNASSIGNED || t.view(p) in t.leaves)
    && UNASSIGNED !in t.leaves && NIL !in t.leaves
  }

  /** What a lookup needs; kept by insertion and by compaction. */
  ghost predicate Indexed(t: Tree) {
    && Shape(t)
    && EntryOk(t, t.root, LEVELS, 0, Span(LEVELS))
    && forall n, k | 0 <= n < |t.nodes| && 0 <= k < L2_SIZE :: SlotOk(t, n, k)
  }

  lemma IndexedClosed(t: Tree)
    requires Indexed(t)
    ensures AllClosed(t.nodes) && Closed(t.nodes, t.root)
  {
    forall n | 0 <= n < |t.nodes|
      ensures NodeClosed(t.nodes, n)
    {
      forall k | 0 <= k < L2_SIZE
        ensures Closed(t.nodes, t.nodes[n][k])
      {
        assert SlotOk(t, n, k);
      }
    }
  }

  /** Walking down from an entry that accounts for an assigned page ends on its section. */
  lemma {:induction false} WalkFinds(t: Tree, e: Entry, i: nat, lo: nat, hi: nat, p: nat)
    requires Indexed(t) && AllClosed(t.nodes) && Closed(t.nodes, e)
    requires EntryOk(t, e, i, lo, hi) && lo <= p < hi && t.view(p) != UNASSIGNED
    ensures Walk(t.nodes, e, i, p) == t.view(p)
    decreases i
  {
    if e.skip != 0 {
      var s := t.sites[e.ptr];
      var k := Index(s.level, p);
      IndexFindsSlot(s, p);
      assert SlotOk(t, e.ptr, k) && NodeClosed(t.nodes, e.ptr);
      WalkFinds(t, t.nodes[e.ptr][k], i - e.skip, Lo(s, k), Lo(s, k + 1), p);
    }
  }

  /** Whatever page is looked up, the walk ends on a section number some insertion used. */
  lemma {:induction false} WalkEndsOnLeaf(t: Tree, e: Entry, i: nat, lo: nat, hi: nat, p: nat)
    requires Indexed(t) && AllClosed(t.nodes) && Closed(t.nodes, e) && EntryOk(t, e, i, lo, hi)
    ensures Walk(t.nodes, e, i, p) == UNASSIGNED || Walk(t.nodes, e, i, p) in t.leaves
    decreases i
  {
    if e.skip != 0 && e.ptr != NIL {
      var s := t.sites[e.ptr];
      var k := Index(s.level, p);
      assert SlotOk(t, e.ptr, k) && NodeClosed(t.nodes, e.ptr);
      WalkEndsOnLeaf(t, t.nodes[e.ptr][k], i - e.skip, Lo(s, k), Lo(s, k + 1), p);
    }
  }

  // ---------------------------------------------------------------------------------------
  // The tree while sections are being inserted
  // ---------------------------------------------------------------------------------------

  /** Before compaction a slot is a leaf for its whole range, empty, or refers to the one node
      built for exactly that slot. */
  ghost predicate SlotGrown(t: Tree, n: nat, k: nat)
    requires n < |t.nodes| == |t.sites| && |t.nodes[n]| == L2_SIZE && k < L2_SIZE
  {
    var e := t.nodes[n][k];
    && SlotOk(t, n, k)
    && e.skip <= 1
    && (e.skip == 0 ==> forall p | InSlot(t.sites[n], k, p) :: t.view(p) == e.ptr)
    && (e.skip == 0 && t.sites[n].level > 0 ==> e.ptr != UNASSIGNED)
    && (e.skip == 1 && e.ptr != NIL ==> t.sites[e.ptr].up == n && t.sites[e.ptr].slot == k)
  }

  /** A node is referred to by its parent slot, and covers that slot's pages. */
  ghost predicate Linked(t: Tree, n: nat)
    requires n < |t.sites| == |t.nodes| && forall m | 0 <= m < |t.nodes| :: |t.nodes[m]| == L2_SIZE
  {
    var s := t.sites[n];
    if s.level + 1 == LEVELS then
      s.base == 0 && t.root == Entry(1, n)
    else
      && s.level + 1 < LEVELS
      && s.up < |t.sites| && s.slot < L2_SIZE
      && t.sites[s.up].level == s.level + 1
      && s.base == Lo(t.sites[s.up], s.slot)
      && t.nodes[s.up][s.slot] == Entry(1, n)
  }

  ghost predicate Grown(t: Tree) {
    && Indexed(t)
    && t.root.skip == 1
    && (forall n, k | 0 <= n < |t.nodes| && 0 <= k < L2_SIZE :: SlotGrown(t, n, k))
    && (forall n | 0 <= n < |t.sites| :: Linked(t, n))
  }

  lemma IndexedShape(t: Tree, n: nat)
    requires Indexed(t) && n < |t.nodes|
    ensures |t.nodes| == |t.sites| && |t.nodes[n]| == L2_SIZE
  {
  }

  lemma GrownShape(t: Tree, n: nat)
    requires Grown(t) && n < |t.sites|
    ensures |t.nodes| == |t.sites| && |t.nodes[n]| == L2_SIZE
  {
  }

  lemma GrownAligned(t: Tree, n: nat)
    requires Grown(t) && n < |t.sites|
    ensures Aligned(t.sites[n])
  {
  }

  /** A node covers at least one assigned page. */
  ghost predicate Occupied(t: Tree, n: nat)
    requires n < |t.sites|
  {
    exists p :: InSite(t.sites[n], p) && t.view(p) != UNASSIGNED
  }

  ghost predicate OccupiedUpTo(t: Tree, level: int) {
    forall n | 0 <= n < |t.sites| && t.sites[n].level <= level :: Occupied(t, n)
  }

  lemma SiteIsParentSlot(t: Tree, n: nat, p: nat)
    requires Grown(t) && n < |t.sites| && t.sites[n].level + 1 < LEVELS
    ensures Linked(t, n)
    ensures InSite(t.sites[n], p) <==> InSlot(t.sites[t.sites[n].up], t.sites[n].slot, p)
  {
    assert Linked(t, n);
  }

  /** Two nodes of one level that share a page are the same node. */
  lemma {:induction false} SameLevelSameNode(t: Tree, n: nat, m: nat, p: nat)
    requires Grown(t) && n < |t.sites| && m < |t.sites|
    requires t.sites[n].level == t.sites[m].level && InSite(t.sites[n], p) && InSite(t.sites[m], p)
    ensures n == m
    decreases LEVELS - t.sites[n].level
  {
    assert Linked(t, n) && Linked(t, m);
    if t.sites[n].level + 1 < LEVELS {
      SiteIsParentSlot(t, n, p);
      SiteIsParentSlot(t, m, p);
      var u, v := t.sites[n].up, t.sites[m].up;
      SlotInSite(t.sites[u], t.sites[n].slot, p);
      SlotInSite(t.sites[v], t.sites[m].slot, p);
      SameLevelSameNode(t, u, v, p);
      SlotUnique(t.sites[u], t.sites[n].slot, t.sites[m].slot, p);
    }
  }

  /** A slot of a higher node that contains a page of node `n` refers to a node. */
  lemma {:induction false} AncestorSlot(t: Tree, n: nat, m: nat, k: nat, p: nat)
    requires Grown(t) && n < |t.sites| && m < |t.sites| && k < L2_SIZE
    requires t.sites[n].level < t.sites[m].level && InSite(t.sites[n], p) && InSlot(t.sites[m], k, p)
    ensures t.nodes[m][k].skip == 1 && t.nodes[m][k].ptr != NIL
    decreases t.sites[m].level - t.sites[n].level
  {
    SiteIsParentSlot(t, n, p);
    var u := t.sites[n].up;
    SlotInSite(t.sites[u], t.sites[n].slot, p);
    if t.sites[u].level == t.sites[m].level {
      SlotInSite(t.sites[m], k, p);
      SameLevelSameNode(t, u, m, p);
      SlotUnique(t.sites[u], t.sites[n].slot, k, p);
    } else {
      AncestorSlot(t, u, m, k, p);
    }
  }

  /** The slot that an entry pointer addresses: the root entry, or a slot of a node. */
  datatype Place = Root | Slot(node: nat, k: nat)

  predicate PlaceIn(t: Tree, at: Place) {
    at.Slot? ==> at.node < |t.nodes| && |t.nodes[at.node]| == L2_SIZE && at.k < L2_SIZE
  }

  function Get(t: Tree, at: Place): Entry
    requires PlaceIn(t, at)
  {
    if at.Root? then t.root else t.nodes[at.node][at.k]
  }

  function PlaceLevel(t: Tree, at: Place): nat
    requires PlaceIn(t, at) && |t.sites| == |t.nodes|
  {
    if at.Root? then LEVELS else t.sites[at.node].level
  }

  function PlaceLo(t: Tree, at: Place): nat
    requires PlaceIn(t, at) && |t.sites| == |t.nodes|
  {
    if at.Root? then 0 else Lo(t.sites[at.node], at.k)
  }

  function Put(t: Tree, at: Place, e: Entry): Tree
    requires PlaceIn(t, at)
  {
    if at.Root? then t.(root := e)
    else t.(nodes := t.nodes[at.node := t.nodes[at.node][at.k := e]])
  }

  lemma PlaceSpan(t: Tree, at: Place)
    requires PlaceIn(t, at) && |t.sites| == |t.nodes|
    ensures at.Slot? ==> Lo(t.sites[at.node], at.k + 1) == PlaceLo(t, at) + Span(PlaceLevel(t, at))
  {
  }

  /** A fresh node: leaves of unassigned pages at level 0, empty slots above. */
  function FreshNode(level: nat): (node: Node)
    ensures |node| == L2_SIZE
  {
    seq(L2_SIZE, _ => if level == 0 then Entry(0, UNASSIGNED) else Entry(1, NIL))
  }

  /** The tree after a node has been allocated for the empty place `at`. */
  function WithNode(t: Tree, at: Place, level: nat): Tree
    requires PlaceIn(t, at) && |t.sites| == |t.nodes|
  {
    var site := if at.Root? then Site(level, 0, 0, 0) else Site(level, PlaceLo(t, at), at.node, at.k);
    var t' := Put(t, at, Entry(1, |t.nodes|));
    t'.(nodes := t'.nodes + [FreshNode(level)], sites := t'.sites + [site])
  }

  ghost predicate Empty(t: Tree, at: Place, level: nat) {
    && PlaceIn(t, at) && |t.sites| == |t.nodes|
    && Get(t, at) == Entry(1, NIL)
    && PlaceLevel(t, at) == level + 1
  }

  lemma FreshSlot(t: Tree, at: Place, level: nat, k: nat)
    requires Grown(t) && Empty(t, at, level) && |t.nodes| < NIL && k < L2_SIZE
    ensures SlotGrown(WithNode(t, at, level), |t.nodes|, k)
  {
    var t' := WithNode(t, at, level);
    var s := t'.sites[|t.nodes|];
    assert at.Slot? ==> SlotOk(t, at.node, at.k);
    PlaceSpan(t, at);
    forall p | InSlot(s, k, p)
      ensures t.view(p) == UNASSIGNED
    {
      SlotInSite(s, k, p);
    }
  }

  lemma WithNodeAligned(t: Tree, at: Place, level: nat)
    requires Grown(t) && Empty(t, at, level)
    ensures Aligned(WithNode(t, at, level).sites[|t.nodes|])
    ensures level < LEVELS
  {
    if at.Slot? {
      SlotAligned(t.sites[at.node], at.k);
    }
  }

  /** Allocating a node for an empty place keeps the tree and its view. */
  lemma WithNodeGrown(t: Tree, at: Place, level: nat)
    requires Grown(t) && Empty(t, at, level) && |t.nodes| < NIL
    ensures Grown(WithNode(t, at, level))
  {
    var t' := WithNode(t, at, level);
    WithNodeAligned(t, at, level);
    PlaceSpan(t, at);
    assert Shape(t');
    WithNodeSlots(t, at, level);
    WithNodeLinks(t, at, level);
    forall n, k | 0 <= n < |t'.nodes| && 0 <= k < L2_SIZE
      ensures SlotOk(t', n, k)
    {
      assert SlotGrown(t', n, k);
    }
  }

  lemma WithNodeLinks(t: Tree, at: Place, level: nat)
    requires Grown(t) && Empty(t, at, level) && |t.nodes| < NIL
    ensures var t' := WithNode(t, at, level);
      && |t'.sites| == |t'.nodes| && (forall m | 0 <= m < |t'.nodes| :: |t'.nodes[m]| == L2_SIZE)
      && forall n | 0 <= n < |t'.sites| :: Linked(t', n)
  {
    hide SlotGrown, SlotOk, Span;
    var t' := WithNode(t, at, level);
    forall n | 0 <= n < |t'.sites|
      ensures Linked(t', n)
    {
      if n < |t.nodes| {
        assert Linked(t, n);
      }
    }
  }

  lemma WithNodeSlots(t: Tree, at: Place, level: nat)
    requires Grown(t) && Empty(t, at, level) && |t.nodes| < NIL
    ensures var t' := WithNode(t, at, level);
      && |t'.sites| == |t'.nodes| && (forall m | 0 <= m < |t'.nodes| :: |t'.nodes[m]| == L2_SIZE)
      && forall n, k | 0 <= n < |t'.nodes| && 0 <= k < L2_SIZE :: SlotGrown(t', n, k)
  {
    var t' := WithNode(t, at, level);
    var added := |t.nodes|;
    WithNodeAligned(t, at, level);
    PlaceSpan(t, at);
    forall n, k | 0 <= n < |t'.nodes| && 0 <= k < L2_SIZE
      ensures SlotGrown(t', n, k)
    {
      if n == added {
        FreshSlot(t, at, level, k);
      } else {
        assert SlotGrown(t, n, k);
        if at == Slot(n, k) {
          assert t'.nodes[n][k] == Entry(1, added);
          assert t'.sites[added] == Site(level, Lo(t.sites[n], k), n, k);
          assert t'.sites[n] == t.sites[n];
        } else {
          assert t'.nodes[n][k] == t.nodes[n][k];
        }
      }
    }
  }

  /** The view with [lo, hi) assigned to `leaf`. */
  function Paint(view: View, lo: nat, hi: nat, leaf: nat): View {
    (p: nat) => if lo <= p < hi then leaf else view(p)
  }

  /** The tree after slot `k` of node `n` has become a leaf for `leaf`. */
  function WithLeaf(t: Tree, n: nat, k: nat, leaf: nat): Tree
    requires PlaceIn(t, Slot(n, k)) && |t.sites| == |t.nodes|
  {
    Put(t, Slot(n, k), Entry(0, leaf)).(
      view := Paint(t.view, Lo(t.sites[n], k), Lo(t.sites[n], k + 1), leaf),
      leaves := t.leaves + {leaf})
  }

  /** Slot `k` of node `n` holds no page yet, and every lower node holds one. */
  ghost predicate Vacant(t: Tree, n: nat, k: nat) {
    && PlaceIn(t, Slot(n, k)) && |t.sites| == |t.nodes|
    && (forall p | InSlot(t.sites[n], k, p) :: t.view(p) == UNASSIGNED)
    && OccupiedUpTo(t, t.sites[n].level - 1)
  }

  /** No node lies below a vacant slot. */
  lemma NothingBelow(t: Tree, n: nat, k: nat, m: nat, p: nat)
    requires Grown(t) && Vacant(t, n, k) && m < |t.sites| && t.sites[m].level < t.sites[n].level
    ensures !(InSite(t.sites[m], p) && InSlot(t.sites[n], k, p))
  {
    if InSite(t.sites[m], p) && InSlot(t.sites[n], k, p) {
      assert Occupied(t, m);
      var q :| InSite(t.sites[m], q) && t.view(q) != UNASSIGNED;
      NodeInsideSlot(t.sites[m], t.sites[n], k, p, q);
    }
  }

  /** A slot that shares a page with a vacant slot is that slot or refers to a node above it. */
  lemma OverlapsVacant(t: Tree, n: nat, k: nat, m: nat, j: nat, p: nat)
    requires Grown(t) && Vacant(t, n, k) && PlaceIn(t, Slot(m, j))
    requires InSlot(t.sites[n], k, p) && InSlot(t.sites[m], j, p)
    ensures (m == n && j == k) || (t.nodes[m][j].skip == 1 && t.nodes[m][j].ptr != NIL)
  {
    SlotInSite(t.sites[n], k, p);
    SlotInSite(t.sites[m], j, p);
    if t.sites[m].level < t.sites[n].level {
      NothingBelow(t, n, k, m, p);
    } else if t.sites[m].level == t.sites[n].level {
      SameLevelSameNode(t, n, m, p);
      SlotUnique(t.sites[n], k, j, p);
    } else {
      AncestorSlot(t, n, m, j, p);
    }
  }

  /** A vacant slot does not refer to a node. */
  lemma VacantIsNoPointer(t: Tree, n: nat, k: nat)
    requires Grown(t) && Vacant(t, n, k)
    ensures forall m | 0 <= m < |t.sites| && t.sites[m].level + 1 < LEVELS :: t.sites[m].up != n || t.sites[m].slot != k
    ensures t.nodes[n][k].skip == 0 || t.nodes[n][k].ptr == NIL
  {
    forall m | 0 <= m < |t.sites| && t.sites[m].level + 1 < LEVELS
      ensures t.sites[m].up != n || t.sites[m].slot != k
    {
      if t.sites[m].up == n && t.sites[m].slot == k {
        SiteIsParentSlot(t, m, t.sites[m].base);
        NothingBelow(t, n, k, m, t.sites[m].base);
      }
    }
    assert SlotGrown(t, n, k);
  }

  lemma PointerCoversSlot(t: Tree, m: nat, j: nat, p: nat)
    requires Grown(t) && PlaceIn(t, Slot(m, j)) && InSlot(t.sites[m], j, p)
    requires t.nodes[m][j].skip == 1 && t.nodes[m][j].ptr != NIL
    ensures t.nodes[m][j].ptr < |t.sites| && InSite(t.sites[t.nodes[m][j].ptr], p)
  {
    assert SlotGrown(t, m, j);
    var c := t.nodes[m][j].ptr;
    assert Linked(t, c);
    SiteIsParentSlot(t, c, p);
  }

  lemma WithLeafSlot(t: Tree, n: nat, k: nat, leaf: nat, m: nat, j: nat)
    requires Grown(t) && Vacant(t, n, k) && leaf != UNASSIGNED && PlaceIn(t, Slot(m, j))
    ensures SlotGrown(WithLeaf(t, n, k, leaf), m, j)
  {
    var t' := WithLeaf(t, n, k, leaf);
    assert SlotGrown(t, m, j);
    if m != n || j != k {
      var e := t.nodes[m][j];
      assert t'.nodes[m][j] == e;
      forall p | InSlot(t.sites[m], j, p)
        ensures t'.view(p) == t.view(p) || (e.skip == 1 && e.ptr != NIL && InSite(t.sites[e.ptr], p))
      {
        if InSlot(t.sites[n], k, p) {
          OverlapsVacant(t, n, k, m, j, p);
          PointerCoversSlot(t, m, j, p);
        }
      }
    }
  }

  lemma WithLeafLinks(t: Tree, n: nat, k: nat, leaf: nat)
    requires Grown(t) && Vacant(t, n, k) && leaf != UNASSIGNED
    ensures forall m | 0 <= m < |t.sites| :: Linked(WithLeaf(t, n, k, leaf), m)
  {
    var t' := WithLeaf(t, n, k, leaf);
    VacantIsNoPointer(t, n, k);
    forall m | 0 <= m < |t.sites|
      ensures Linked(t', m)
    {
      assert Linked(t, m);
    }
  }

  /** Turning a vacant slot into a leaf keeps the tree, with that slot's pages painted. */
  lemma WithLeafGrown(t: Tree, n: nat, k: nat, leaf: nat)
    requires Grown(t) && Vacant(t, n, k) && leaf != UNASSIGNED && leaf != NIL
    ensures Grown(WithLeaf(t, n, k, leaf))
  {
    var t' := WithLeaf(t, n, k, leaf);
    assert Shape(t');
    forall m, j | 0 <= m < |t'.nodes| && 0 <= j < L2_SIZE
      ensures SlotGrown(t', m, j) && SlotOk(t', m, j)
    {
      WithLeafSlot(t, n, k, leaf, m, j);
    }
    WithLeafLinks(t, n, k, leaf);
    assert EntryOk(t', t'.root, LEVELS, 0, Span(LEVELS)) by {
      RootAboveVacant(t, n, k);
    }
  }

  lemma {:induction false} RootIsPointer(t: Tree, n: nat)
    requires Grown(t) && n < |t.sites|
    ensures t.root.ptr != NIL && t.root.ptr < |t.sites| && t.sites[t.root.ptr].base == 0
    ensures t.sites[t.root.ptr].level == LEVELS - 1
    decreases LEVELS - t.sites[n].level
  {
    assert Linked(t, n);
    if t.sites[n].level + 1 < LEVELS {
      RootIsPointer(t, t.sites[n].up);
    }
  }

  lemma RootAboveVacant(t: Tree, n: nat, k: nat)
    requires Grown(t) && Vacant(t, n, k)
    ensures t.root.ptr != NIL
    ensures forall p: nat | p < Span(LEVELS) :: InSite(t.sites[t.root.ptr], p)
  {
    RootIsPointer(t, n);
  }

  /** A place that refers to a node hands it exactly its own pages. */
  lemma PlaceNode(t: Tree, at: Place)
    requires Grown(t) && PlaceIn(t, at) && Get(t, at).skip == 1 && Get(t, at).ptr != NIL
    ensures Get(t, at).ptr < |t.sites|
    ensures t.sites[Get(t, at).ptr].level + 1 == PlaceLevel(t, at)
    ensures t.sites[Get(t, at).ptr].base == PlaceLo(t, at)
  {
    if at.Slot? {
      assert SlotGrown(t, at.node, at.k);
    }
    assert Linked(t, Get(t, at).ptr);
  }

  /** An unassigned page above level 0 is never under a leaf. */
  lemma UnassignedIsNoLeaf(t: Tree, n: nat, k: nat, p: nat)
    requires Grown(t) && PlaceIn(t, Slot(n, k)) && t.sites[n].level > 0
    requires InSlot(t.sites[n], k, p) && t.view(p) == UNASSIGNED
    ensures t.nodes[n][k].skip == 1
  {
    assert SlotGrown(t, n, k);
  }

  /** A page aligned to a slot's span is the slot's first page. */
  lemma AlignedPageStartsSlot(s: Site, k: nat, p: nat)
    requires Aligned(s) && InSlot(s, k, p)
    ensures p % Span(s.level) == 0 <==> p == Lo(s, k)
  {
    SlotAligned(s, k);
    assert Lo(s, k + 1) == Lo(s, k) + Span(s.level);
    hide Span, Lo;
    RemainderIn(Span(s.level), Lo(s, k), p);
  }

  lemma RemainderIn(span: nat, lo: nat, p: nat)
    requires span > 0 && lo % span == 0 && lo <= p < lo + span
    ensures p % span == p - lo
  {
    QuotientUnique(p, span, lo / span, p - lo);
  }

  /** Nodes that were occupied stay occupied when pages are only added. */
  lemma OccupiedMonotone(t: Tree, t': Tree, level: int)
    requires OccupiedUpTo(t, level) && |t.sites| <= |t'.sites| && t'.sites[..|t.sites|] == t.sites
    requires forall p :: t.view(p) != UNASSIGNED ==> t'.view(p) != UNASSIGNED
    ensures forall n | 0 <= n < |t.sites| && t.sites[n].level <= level :: Occupied(t', n)
  {
    forall n | 0 <= n < |t.sites| && t.sites[n].level <= level
      ensures Occupied(t', n)
    {
      assert Occupied(t, n);
      var p :| InSite(t.sites[n], p) && t.view(p) != UNASSIGNED;
      assert t'.sites[n] == t.sites[n];
    }
  }

  // ---------------------------------------------------------------------------------------
  // Compaction
  // ---------------------------------------------------------------------------------------

  lemma IndexedPlace(t: Tree, at: Place)
    requires Indexed(t) && PlaceIn(t, at)
    ensures |t.nodes| == |t.sites|
    ensures forall n | 0 <= n < |t.nodes| :: |t.nodes[n]| == L2_SIZE
    ensures Get(t, at).skip != 0 && Get(t, at).ptr != NIL ==>
              Get(t, at).ptr < |t.nodes| && t.sites[Get(t, at).ptr].level < PlaceLevel(t, at)
  {
    if at.Slot? {
      assert SlotOk(t, at.node, at.k);
    }
  }

  /** The entry that leads straight to what the only child `c` of an entry leads to. */
  function Shortcut(e: Entry, c: Entry): Entry {
    if c.skip == 0 then Entry(0, c.ptr) else Entry(e.skip + c.skip, c.ptr)
  }

  /** Every slot of node `n` but `k` is empty. */
  predicate OnlyChild(nodes: seq<Node>, n: nat, k: nat)
    requires n < |nodes| && |nodes[n]| == L2_SIZE
  {
    forall j | 0 <= j < L2_SIZE && j != k :: nodes[n][j].ptr == NIL
  }

  /** Exactly one slot of node `n` is not empty. */
  ghost predicate SingleChild(nodes: seq<Node>, n: nat)
    requires n < |nodes| && |nodes[n]| == L2_SIZE
  {
    exists k :: 0 <= k < L2_SIZE && nodes[n][k].ptr != NIL && OnlyChild(nodes, n, k)
  }

  /** Nothing is left to compact at node `n` or below it. */
  ghost predicate TightNode(t: Tree, n: nat)
    decreases if n < |t.sites| then t.sites[n].level else 0, 1
  {
    && n < |t.nodes| == |t.sites| && |t.nodes[n]| == L2_SIZE && !SingleChild(t.nodes, n)
    && forall k | 0 <= k < L2_SIZE && t.nodes[n][k].skip != 0 && t.nodes[n][k].ptr != NIL :: TightBelow(t, n, k)
  }

  /** The node that slot `k` of node `n` leads to is lower and tight. */
  ghost predicate TightBelow(t: Tree, n: nat, k: nat)
    requires n < |t.nodes| == |t.sites| && |t.nodes[n]| == L2_SIZE && k < L2_SIZE
    decreases t.sites[n].level, 0
  {
    var m := t.nodes[n][k].ptr;
    m < |t.sites| && t.sites[m].level < t.sites[n].level && TightNode(t, m)
  }

  ghost predicate TightEntry(t: Tree, e: Entry) {
    e.skip != 0 && e.ptr != NIL ==> TightNode(t, e.ptr)
  }

  /** Rerouting an entry that led to a node with one child disturbs no part that was tight. */
  lemma {:induction false} TightKept(t: Tree, at: Place, e: Entry, n: nat, level: nat)
    requires n < |t.sites| && t.sites[n].level == level
    requires PlaceIn(t, at) && TightNode(t, n)
    requires Get(t, at).skip != 0 && Get(t, at).ptr != NIL && !TightNode(t, Get(t, at).ptr)
    ensures TightNode(Put(t, at, e), n)
    decreases level, 1
  {
    hide *;
    RowKept(t, at, e, n);
    forall k | 0 <= k < L2_SIZE && t.nodes[n][k].skip != 0 && t.nodes[n][k].ptr != NIL
      ensures TightBelow(Put(t, at, e), n, k)
    {
      TightKeptBelow(t, at, e, n, k, level);
    }
    TightFrom(Put(t, at, e), n);
  }

  lemma {:induction false} TightKeptBelow(t: Tree, at: Place, e: Entry, n: nat, k: nat, level: nat)
    requires n < |t.nodes| == |t.sites| && t.sites[n].level == level && |t.nodes[n]| == L2_SIZE && k < L2_SIZE
    requires PlaceIn(t, at) && TightNode(t, n) && t.nodes[n][k].skip != 0 && t.nodes[n][k].ptr != NIL
    requires Get(t, at).skip != 0 && Get(t, at).ptr != NIL && !TightNode(t, Get(t, at).ptr)
    requires |Put(t, at, e).nodes| == |t.nodes| && Put(t, at, e).sites == t.sites && Put(t, at, e).nodes[n] == t.nodes[n]
    ensures TightBelow(Put(t, at, e), n, k)
    decreases level, 0
  {
    hide *;
    TightChild(t, n, k);
    LowerTight(t, n, k);
    var m := t.nodes[n][k].ptr;
    TightKept(t, at, e, m, t.sites[m].level);
    LowerTightFrom(Put(t, at, e), n, k);
  }

  lemma LowerTight(t: Tree, n: nat, k: nat)
    requires n < |t.nodes| == |t.sites| && |t.nodes[n]| == L2_SIZE && k < L2_SIZE && TightBelow(t, n, k)
    ensures var m := t.nodes[n][k].ptr; m < |t.sites| && t.sites[m].level < t.sites[n].level && TightNode(t, m)
  {
  }

  lemma LowerTightFrom(t: Tree, n: nat, k: nat)
    requires n < |t.nodes| == |t.sites| && |t.nodes[n]| == L2_SIZE && k < L2_SIZE
    requires var m := t.nodes[n][k].ptr; m < |t.sites| && t.sites[m].level < t.sites[n].level && TightNode(t, m)
    ensures TightBelow(t, n, k)
  {
  }

  /** The place of an entry that leads to a loose node is not in a tight node. */
  lemma RowKept(t: Tree, at: Place, e: Entry, n: nat)
    requires PlaceIn(t, at) && TightNode(t, n)
    requires Get(t, at).skip != 0 && Get(t, at).ptr != NIL && !TightNode(t, Get(t, at).ptr)
    ensures var t' := Put(t, at, e);
      && n < |t.nodes| == |t'.nodes| == |t.sites| && t'.sites == t.sites
      && t'.nodes[n] == t.nodes[n] && |t.nodes[n]| == L2_SIZE && !SingleChild(t'.nodes, n)
  {
    TightShape(t, n);
    hide TightNode, SingleChild;
    if at.Slot? && at.node == n {
      TightChild(t, n, at.k);
    }
    SameChildren(t.nodes, Put(t, at, e).nodes, n);
  }

  lemma TightShape(t: Tree, n: nat)
    requires TightNode(t, n)
    ensures n < |t.nodes| == |t.sites| && |t.nodes[n]| == L2_SIZE && !SingleChild(t.nodes, n)
  {
  }

  lemma TightChild(t: Tree, n: nat, k: nat)
    requires TightNode(t, n) && k < L2_SIZE
    ensures n < |t.nodes| == |t.sites| && |t.nodes[n]| == L2_SIZE
    ensures t.nodes[n][k].skip != 0 && t.nodes[n][k].ptr != NIL ==> TightBelow(t, n, k)
  {
  }

  lemma TightFrom(t: Tree, n: nat)
    requires n < |t.nodes| == |t.sites| && |t.nodes[n]| == L2_SIZE && !SingleChild(t.nodes, n)
    requires forall k | 0 <= k < L2_SIZE && t.nodes[n][k].skip != 0 && t.nodes[n][k].ptr != NIL :: TightBelow(t, n, k)
    ensures TightNode(t, n)
  {
  }

  lemma AllTightKept(t: Tree, at: Place, e: Entry)
    requires PlaceIn(t, at)
    requires Get(t, at).skip != 0 && Get(t, at).ptr != NIL && !TightNode(t, Get(t, at).ptr)
    ensures forall n: nat :: TightNode(t, n) ==> TightNode(Put(t, at, e), n)
  {
    forall n: nat | TightNode(t, n)
      ensures TightNode(Put(t, at, e), n)
    {
      TightShape(t, n);
      TightKept(t, at, e, n, t.sites[n].level);
    }
  }

  lemma OneChildIsLoose(t: Tree, n: nat, k: nat)
    requires n < |t.nodes| && |t.nodes[n]| == L2_SIZE && k < L2_SIZE
    requires t.nodes[n][k].ptr != NIL && OnlyChild(t.nodes, n, k)
    ensures !TightNode(t, n)
  {
    assert SingleChild(t.nodes, n);
  }

  /** A node with no child or several, all of whose entries are tight, is tight. */
  lemma AllTight(t: Tree, n: nat)
    requires Indexed(t) && n < |t.nodes| == |t.sites| && |t.nodes[n]| == L2_SIZE
    requires forall j | 0 <= j < L2_SIZE :: TightEntry(t, t.nodes[n][j])
    requires !SingleChild(t.nodes, n)
    ensures TightNode(t, n)
  {
    forall k | 0 <= k < L2_SIZE && t.nodes[n][k].skip != 0 && t.nodes[n][k].ptr != NIL
      ensures TightBelow(t, n, k)
    {
      assert SlotOk(t, n, k) && TightEntry(t, t.nodes[n][k]);
    }
  }

  lemma SameChildren(nodes: seq<Node>, nodes': seq<Node>, n: nat)
    requires n < |nodes| == |nodes'| && nodes[n] == nodes'[n] && |nodes[n]| == L2_SIZE
    ensures SingleChild(nodes, n) == SingleChild(nodes', n)
  {
    forall k | 0 <= k < L2_SIZE
      ensures OnlyChild(nodes, n, k) == OnlyChild(nodes', n, k)
    {
    }
  }

  /** An entry and its only child together never skip more levels than the tree has. */
  lemma SkipsFit(t: Tree, at: Place, k: nat)
    requires Indexed(t) && PlaceIn(t, at) && k < L2_SIZE
    requires Get(t, at).skip != 0 && Get(t, at).ptr != NIL && Get(t, at).ptr < |t.nodes|
    ensures |t.nodes[Get(t, at).ptr]| == L2_SIZE
    ensures Get(t, at).skip + t.nodes[Get(t, at).ptr][k].skip <= LEVELS
  {
    assert SlotOk(t, Get(t, at).ptr, k);
    if at.Slot? {
      assert SlotOk(t, at.node, at.k);
    }
  }

  lemma ShortcutEntryOk(t: Tree, e: Entry, level: nat, lo: nat, hi: nat, k: nat)
    requires Indexed(t) && EntryOk(t, e, level, lo, hi) && e.skip != 0 && e.ptr != NIL && k < L2_SIZE
    requires OnlyChild(t.nodes, e.ptr, k) && t.nodes[e.ptr][k].ptr != NIL
    ensures EntryOk(t, Shortcut(e, t.nodes[e.ptr][k]), level, lo, hi)
  {
    var n := e.ptr;
    var s := t.sites[n];
    assert SlotOk(t, n, k);
    forall p: nat | lo <= p < hi && t.view(p) != UNASSIGNED
      ensures InSlot(s, k, p)
    {
      var j := Index(s.level, p);
      IndexFindsSlot(s, p);
      assert SlotOk(t, n, j);
    }
  }

  /** Bypassing a node with one child loses no assigned page, whatever the other entries hold. */
  lemma ShortcutIndexed(t: Tree, at: Place, k: nat)
    requires Indexed(t) && PlaceIn(t, at) && k < L2_SIZE
    requires Get(t, at).skip != 0 && Get(t, at).ptr != NIL && Get(t, at).ptr < |t.nodes|
    requires OnlyChild(t.nodes, Get(t, at).ptr, k) && t.nodes[Get(t, at).ptr][k].ptr != NIL
    ensures Indexed(Put(t, at, Shortcut(Get(t, at), t.nodes[Get(t, at).ptr][k])))
  {
    var e := Get(t, at);
    var e' := Shortcut(e, t.nodes[e.ptr][k]);
    var t' := Put(t, at, e');
    if at.Root? {
      ShortcutEntryOk(t, e, LEVELS, 0, Span(LEVELS), k);
    } else {
      var s := t.sites[at.node];
      assert SlotOk(t, at.node, at.k);
      ShortcutEntryOk(t, e, s.level, Lo(s, at.k), Lo(s, at.k + 1), k);
    }
    forall m, j | 0 <= m < |t'.nodes| && 0 <= j < L2_SIZE
      ensures SlotOk(t', m, j)
    {
      assert SlotOk(t, m, j);
    }
  }
}
