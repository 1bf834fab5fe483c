/** The page map of one address space: node storage that only grows, insertion of page ranges,
    compaction and lookup, as exec.c performs them in place. */
module PhysPageMap {
  import opened RadixGeometry
  import opened RadixTree

  /** Nodes that one insertion may allocate at or below `level`; `flush` when the range starts at
      the first page of that node or reaches its last one. */
  function AllocBound(level: nat, flush: bool): nat {
    1 + if flush then level else 2 * level
  }

  /** Nodes allocated while filling pages [index, index + nb) of slot `k`: none when the slot
      becomes a leaf as a whole. */
  function SlotCost(s: Site, k: nat, index: nat, nb: nat): nat {
    if index == Lo(s, k) && index + nb >= Lo(s, k + 1) then 0
    else if s.level == 0 then 0
    else AllocBound(s.level - 1, index == Lo(s, k) || index + nb >= Lo(s, k + 1))
  }

  /** Nodes allocated while filling pages [index, index + nb) below a place whose node starts at `lo`. */
  function LevelCost(lo: nat, level: nat, index: nat, nb: nat): (r: nat)
    ensures r >= 1
  {
    AllocBound(level, index == lo || index + nb >= lo + Span(level + 1))
  }

  /** Nodes allocated when the loop over the slots of a node has reached page `reached`. */
  function Spent(s: Site, index: nat, nb: nat, reached: nat): nat {
    if reached == index then 1
    else if reached >= index + nb then LevelCost(s.base, s.level, index, nb)
    else 1 + if index % Span(s.level) == 0 then 0 else s.level
  }

  /** The loop over the slots of a node is about to fill slot `k` from page `reached` on. */
  predicate Progress(s: Site, index: nat, nb: nat, k: nat, reached: nat) {
    && k <= L2_SIZE && index <= reached <= index + nb && reached <= s.base + Span(s.level + 1)
    && (reached < index + nb ==> if k == L2_SIZE then reached == s.base + Span(s.level + 1) else InSlot(s, k, reached))
    && (index < reached < index + nb ==> reached == Lo(s, k))
  }

  lemma ProgressStart(s: Site, index: nat, nb: nat)
    requires Aligned(s) && InSite(s, index)
    ensures Progress(s, index, nb, Index(s.level, index), index)
    ensures Spent(s, index, nb, index) == 1
  {
    IndexFindsSlot(s, index);
  }

  lemma ProgressStep(s: Site, index: nat, nb: nat, k: nat, reached: nat)
    requires Progress(s, index, nb, k, reached) && k < L2_SIZE && reached < index + nb
    ensures InSlot(s, k, reached)
    ensures Lo(s, k + 1) <= s.base + Span(s.level + 1)
    ensures Progress(s, index, nb, k + 1, Min(index + nb, Lo(s, k + 1)))
  {
    LoMonotone(s, k + 1, L2_SIZE);
    LoEnd(s);
  }

  lemma ProgressEnd(s: Site, index: nat, nb: nat, k: nat, reached: nat)
    requires Progress(s, index, nb, k, reached) && (reached == index + nb || k >= L2_SIZE)
    ensures reached == Min(index + nb, s.base + Span(s.level + 1))
  {
  }

  /** Filling the next slot never exceeds what the whole node may spend. */
  lemma SpentStep(s: Site, index: nat, nb: nat, k: nat, reached: nat)
    requires Aligned(s) && InSite(s, index)
    requires Progress(s, index, nb, k, reached) && k < L2_SIZE && reached < index + nb
    ensures Spent(s, index, nb, reached) + SlotCost(s, k, reached, index + nb - reached)
         <= Spent(s, index, nb, Min(index + nb, Lo(s, k + 1)))
    ensures Spent(s, index, nb, reached) + SlotCost(s, k, reached, index + nb - reached)
         <= LevelCost(s.base, s.level, index, nb)
  {
    LoMonotone(s, 0, k);
    LoMonotone(s, k + 1, L2_SIZE);
    LoEnd(s);
    SlotAligned(s, 0);
    if index == reached {
      AlignedPageStartsSlot(s, k, index);
    }
  }

  lemma SpentTotal(s: Site, index: nat, nb: nat, reached: nat)
    requires nb > 0 && reached == Min(index + nb, s.base + Span(s.level + 1)) && InSite(s, index)
    ensures Spent(s, index, nb, reached) <= LevelCost(s.base, s.level, index, nb)
  {
  }

  /** Once page `index` of node `n` is assigned, all nodes up to `level` are occupied. */
  lemma LevelOccupied(before: Tree, after: Tree, n: nat, index: nat, level: nat)
    requires OccupiedUpTo(before, level) && OccupiedUpTo(after, level - 1)
    requires |before.sites| <= |after.sites| && after.sites[..|before.sites|] == before.sites
    requires forall p :: before.view(p) != UNASSIGNED ==> after.view(p) != UNASSIGNED
    requires forall m | |before.sites| <= m < |after.sites| :: after.sites[m].level < level || m == n
    requires n < |after.sites| && InSite(after.sites[n], index) && after.view(index) != UNASSIGNED
    ensures OccupiedUpTo(after, level)
  {
    OccupiedMonotone(before, after, level);
  }

  function Min(a: int, b: int): int {
    if a < b then a else b
  }

  class PageMap {
    var root: Entry
    var nodes: seq<Node>
    /** nodes_nb_alloc: how many nodes the storage has room for. */
    var capacity: nat

    ghost var sites: seq<Site>
    ghost var view: View
    ghost var leaves: set<nat>

    ghost function Tree(): Tree
      reads this
    {
      RadixTree.Tree(root, nodes, sites, view, leaves)
    }

    /** The entry an entry pointer refers to. */
    function EntryAt(at: Place): Entry
      requires at.Slot? ==> at.node < |nodes| && at.k < |nodes[at.node]|
      reads this
    {
      if at.Root? then root else nodes[at.node][at.k]
    }

    /** Insertion may go on. */
    ghost predicate Growing()
      reads this
    {
      Grown(Tree()) && |nodes| <= capacity && OccupiedUpTo(Tree(), LEVELS)
    }

    constructor ()
      ensures Growing() && |nodes| == 0 && capacity == 0 && leaves == {}
      ensures forall p :: view(p) == UNASSIGNED
    {
      root := Entry(1, NIL);
      nodes, capacity := [], 0;
      sites, view, leaves := [], (p: nat) => UNASSIGNED, {};
    }

    method NodeReserve(want: nat)
      modifies this`capacity
      ensures |nodes| + want <= capacity && capacity >= old(capacity)
      ensures capacity == old(capacity) || (capacity >= 16 && capacity >= 2 * old(capacity) && old(capacity) < |nodes| + want)
    {
      if |nodes| + want > capacity {
        capacity := if capacity * 2 > 16 then capacity * 2 else 16;
        capacity := if capacity > |nodes| + want then capacity else |nodes| + want;
      }
    }

    /** Allocates the node of an empty place and makes the place refer to it. */
    method NodeAlloc(at: Place, level: nat)
      requires Grown(Tree()) && Empty(Tree(), at, level)
      requires |nodes| < NIL && |nodes| < capacity
      modifies this`root, this`nodes, this`sites
      ensures Grown(Tree())
      ensures Tree() == WithNode(old(Tree()), at, level)
    {
      WithNodeGrown(Tree(), at, level);
      var ret := |nodes|;
      if at.Root? {
        root := Entry(1, ret);
        sites := sites + [Site(level, 0, 0, 0)];
      } else {
        sites := sites + [Site(level, Lo(sites[at.node], at.k), at.node, at.k)];
        nodes := nodes[at.node := nodes[at.node][at.k := Entry(1, ret)]];
      }
      nodes := nodes + [FreshNode(level)];
    }

    /** The node below a place, allocated if the place is empty. */
    method Descend(at: Place, level: nat) returns (n: nat)
      requires Grown(Tree()) && PlaceIn(Tree(), at) && PlaceLevel(Tree(), at) == level + 1
      requires Get(Tree(), at).skip == 1 && |nodes| < Min(capacity, NIL)
      requires OccupiedUpTo(Tree(), level)
      modifies this`root, this`nodes, this`sites
      ensures Grown(Tree()) && n < |sites|
      ensures sites[n].level == level && sites[n].base == PlaceLo(old(Tree()), at) && Aligned(sites[n])
      ensures |nodes| <= old(|nodes|) + 1
      ensures |old(sites)| <= |sites| && sites[..|old(sites)|] == old(sites)
      ensures |sites| > |old(sites)| ==> n == |old(sites)| && |sites| == n + 1
      ensures OccupiedUpTo(Tree(), level - 1)
    {
      ghost var before := Tree();
      if EntryAt(at).ptr == NIL {
        NodeAlloc(at, level);
      }
      n := EntryAt(at).ptr;
      PlaceNode(Tree(), at);
      OccupiedMonotone(before, Tree(), level - 1);
    }

    /** What inserting a range has done to the map: pages [from, to) now belong to `leaf`, and
        all nodes added lie at or below `level`. */
    twostate predicate Inserted(from: nat, to: nat, leaf: nat, level: int)
      reads this
    {
      && Grown(Tree())
      && |old(sites)| <= |sites| && sites[..|old(sites)|] == old(sites)
      && (forall n | |old(sites)| <= n < |sites| :: sites[n].level <= level)
      && (forall p: nat :: view(p) == if from <= p < to then leaf else old(view)(p))
      && leaves == old(leaves) + {leaf}
      && OccupiedUpTo(Tree(), level)
    }

    /** A slot all of whose pages are assigned becomes a leaf. */
    method FillSlot(n: nat, k: nat, leaf: nat, level: nat)
      requires Grown(Tree()) && PlaceIn(Tree(), Slot(n, k)) && sites[n].level == level
      requires leaf != UNASSIGNED && leaf != NIL
      requires forall p | Lo(sites[n], k) <= p < Lo(sites[n], k + 1) :: view(p) == UNASSIGNED
      requires OccupiedUpTo(Tree(), level - 1)
      modifies this`nodes, this`view, this`leaves
      ensures Inserted(Lo(sites[n], k), Lo(sites[n], k + 1), leaf, level - 1) && |nodes| == old(|nodes|)
    {
      ghost var before := Tree();
      WithLeafGrown(Tree(), n, k, leaf);
      nodes := nodes[n := nodes[n][k := Entry(0, leaf)]];
      view := Paint(view, Lo(sites[n], k), Lo(sites[n], k + 1), leaf);
      leaves := leaves + {leaf};
      assert Tree() == WithLeaf(before, n, k, leaf);
      OccupiedMonotone(before, Tree(), level - 1);
    }

    /** One turn of the loop: fill one slot, directly or by descending. */
    method SetSlot(n: nat, k: nat, index: nat, nb: nat, leaf: nat, level: nat) returns (index': nat, nb': nat)
      requires Grown(Tree()) && PlaceIn(Tree(), Slot(n, k)) && sites[n].level == level
      requires nb > 0 && leaf != UNASSIGNED && leaf != NIL
      requires InSlot(sites[n], k, index)
      requires forall p | index <= p < Min(index + nb, Lo(sites[n], k + 1)) :: view(p) == UNASSIGNED
      requires OccupiedUpTo(Tree(), level - 1)
      requires |nodes| + SlotCost(sites[n], k, index, nb) <= Min(capacity, NIL)
      modifies this`root, this`nodes, this`sites, this`view, this`leaves
      ensures index' == Min(index + nb, Lo(old(sites[n]), k + 1)) && nb' == nb - (index' - index)
      ensures Inserted(index, index', leaf, level - 1)
      ensures |nodes| <= old(|nodes|) + SlotCost(old(sites[n]), k, index, nb)
      decreases level, 0
    {
      AlignedPageStartsSlot(sites[n], k, index);
      if index % Span(level) == 0 && nb >= Span(level) {
        FillSlot(n, k, leaf, level);
        index' := index + Span(level);
        nb' := nb - Span(level);
      } else {
        UnassignedIsNoLeaf(Tree(), n, k, index);
        index', nb' := SetLevel(Slot(n, k), index, nb, leaf, level - 1);
      }
    }

    /** The loop over the slots of node `n`, which is counted as allocated here. */
    method SetSlots(n: nat, index: nat, nb: nat, leaf: nat, level: nat) returns (index': nat, nb': nat)
      requires Grown(Tree()) && n < |sites| && sites[n].level == level
      requires nb > 0 && leaf != UNASSIGNED && leaf != NIL && InSite(sites[n], index)
      requires forall p | index <= p < Min(index + nb, sites[n].base + Span(level + 1)) :: view(p) == UNASSIGNED
      requires OccupiedUpTo(Tree(), level - 1)
      requires |nodes| - 1 + LevelCost(sites[n].base, level, index, nb) <= Min(capacity, NIL)
      modifies this`root, this`nodes, this`sites, this`view, this`leaves
      ensures index' == Min(index + nb, old(sites[n].base) + Span(level + 1)) && nb' == nb - (index' - index)
      ensures Inserted(index, index', leaf, level - 1)
      ensures |nodes| <= old(|nodes|) - 1 + LevelCost(old(sites[n].base), level, index, nb)
      decreases level, 1
    {
      hide Grown, OccupiedUpTo, Spent, SlotCost, Progress, Span, Lo, Index, LevelCost;
      ghost var s := sites[n];
      var k: nat := Index(level, index);
      GrownAligned(Tree(), n);
      ProgressStart(s, index, nb);
      index', nb' := index, nb;
      while nb' > 0 && k < L2_SIZE
        invariant Grown(Tree()) && n < |sites| && sites[n] == s
        invariant |old(sites)| <= |sites| && sites[..|old(sites)|] == old(sites)
        invariant forall m | |old(sites)| <= m < |sites| :: sites[m].level < level
        invariant nb' == index + nb - index' && Progress(s, index, nb, k, index')
        invariant forall p: nat :: view(p) == if index <= p < index' then leaf else old(view)(p)
        invariant leaves == old(leaves) + if index < index' then {leaf} else {}
        invariant OccupiedUpTo(Tree(), level - 1)
        invariant |nodes| <= old(|nodes|) - 1 + Spent(s, index, nb, index')
      {
        GrownShape(Tree(), n);
        ProgressStep(s, index, nb, k, index');
        SpentStep(s, index, nb, k, index');
        index', nb' := SetSlot(n, k, index', nb', leaf, level);
        k := k + 1;
      }
      ProgressEnd(s, index, nb, k, index');
      SpentTotal(s, index, nb, index');
    }

    method SetLevel(at: Place, index: nat, nb: nat, leaf: nat, level: nat) returns (index': nat, nb': nat)
      requires Grown(Tree()) && PlaceIn(Tree(), at) && PlaceLevel(Tree(), at) == level + 1
      requires Get(Tree(), at).skip == 1
      requires nb > 0 && leaf != UNASSIGNED && leaf != NIL
      requires PlaceLo(Tree(), at) <= index < PlaceLo(Tree(), at) + Span(level + 1)
      requires forall p | index <= p < Min(index + nb, PlaceLo(Tree(), at) + Span(level + 1)) :: view(p) == UNASSIGNED
      requires OccupiedUpTo(Tree(), level)
      requires |nodes| + LevelCost(PlaceLo(Tree(), at), level, index, nb) <= Min(capacity, NIL)
      modifies this`root, this`nodes, this`sites, this`view, this`leaves
      ensures index' == Min(index + nb, PlaceLo(old(Tree()), at) + Span(level + 1)) && nb' == nb - (index' - index)
      ensures Inserted(index, index', leaf, level)
      ensures |nodes| <= old(|nodes|) + LevelCost(PlaceLo(old(Tree()), at), level, index, nb)
      decreases level, 2
    {
      hide Grown, OccupiedUpTo, Span, LevelCost;
      ghost var before := Tree();
      var n := Descend(at, level);
      index', nb' := SetSlots(n, index, nb, leaf, level);
      LevelOccupied(before, Tree(), n, index, level);
    }

    /** Assigns pages [index, index + nb) to `leaf`. At most 2 * LEVELS - 1 nodes are allocated,
        so the 3 * LEVELS reserved up front always suffice. */
    method PageSet(index: nat, nb: nat, leaf: nat)
      requires Growing() && leaf != UNASSIGNED && leaf != NIL
      requires nb > 0 && index + nb <= Span(LEVELS)
      requires forall p | index <= p < index + nb :: view(p) == UNASSIGNED
      requires |nodes| + 2 * LEVELS - 1 <= NIL
      modifies this
      ensures Growing()
      ensures forall p: nat :: view(p) == if index <= p < index + nb then leaf else old(view)(p)
      ensures leaves == old(leaves) + {leaf}
      ensures |nodes| <= old(|nodes|) + 2 * LEVELS - 1
    {
      NodeReserve(3 * LEVELS);
      RootSpan();
      var index', nb' := SetLevel(Root, index, nb, leaf, LEVELS - 1);
    }

    lemma RootSpan()
      ensures Span(LEVELS - 1 + 1) == Span(LEVELS)
    {
    }

    /** The loop of phys_page_compact: compacts below every slot of node `n` and counts its children;
        `only` is the last one. */
    method CompactChildren(n: nat) returns (valid: nat, only: nat)
      requires Indexed(Tree()) && n < |nodes|
      modifies this`root, this`nodes
      ensures Indexed(Tree()) && |nodes| == old(|nodes|) && |nodes[n]| == L2_SIZE && root == old(root)
      ensures forall m | 0 <= m < |nodes| && sites[m].level > sites[n].level :: nodes[m] == old(nodes)[m]
      ensures forall m | 0 <= m < |nodes| && sites[m].level == sites[n].level && m != n :: nodes[m] == old(nodes)[m]
      ensures forall m: nat :: TightNode(old(Tree()), m) ==> TightNode(Tree(), m)
      ensures forall j | 0 <= j < L2_SIZE :: TightEntry(Tree(), nodes[n][j])
      ensures valid == 1 ==> only < L2_SIZE && nodes[n][only].ptr != NIL && OnlyChild(nodes, n, only)
      ensures valid != 1 ==> !SingleChild(nodes, n)
      decreases if n < |sites| then sites[n].level else 0, 1
    {
      hide Indexed, TightNode;
      IndexedShape(Tree(), n);
      valid, only := 0, L2_SIZE;
      ghost var other := 0;
      for i := 0 to L2_SIZE
        invariant Indexed(Tree()) && |nodes| == old(|nodes|) && |nodes[n]| == L2_SIZE && root == old(root)
        invariant forall m | 0 <= m < |nodes| && sites[m].level > sites[n].level :: nodes[m] == old(nodes)[m]
        invariant forall m | 0 <= m < |nodes| && sites[m].level == sites[n].level && m != n :: nodes[m] == old(nodes)[m]
        invariant forall m: nat :: TightNode(old(Tree()), m) ==> TightNode(Tree(), m)
        invariant forall j | 0 <= j < i :: TightEntry(Tree(), nodes[n][j])
        invariant valid == 0 ==> forall j | 0 <= j < i :: nodes[n][j].ptr == NIL
        invariant valid == 1 ==> 0 <= only < i && nodes[n][only].ptr != NIL
        invariant valid == 1 ==> forall j | 0 <= j < i && j != only :: nodes[n][j].ptr == NIL
        invariant valid >= 2 ==> 0 <= other < only < i && nodes[n][other].ptr != NIL && nodes[n][only].ptr != NIL
      {
        if nodes[n][i].ptr != NIL {
          other := only;
          only := i;
          valid := valid + 1;
          if nodes[n][i].skip != 0 {
            Compact(Slot(n, i));
          }
        }
      }
    }

    /** Makes entries skip nodes that have a single child, bottom up. The view does not change. */
    method Compact(at: Place)
      requires Indexed(Tree()) && PlaceIn(Tree(), at) && EntryAt(at).skip != 0
      modifies this`root, this`nodes
      ensures Indexed(Tree()) && PlaceIn(Tree(), at)
      ensures EntryAt(at).ptr == NIL <==> old(EntryAt(at)).ptr == NIL
      ensures TightEntry(Tree(), EntryAt(at))
      ensures forall m: nat :: TightNode(old(Tree()), m) ==> TightNode(Tree(), m)
      ensures at.Slot? ==> root == old(root)
      ensures |nodes| == old(|nodes|)
      ensures forall m | 0 <= m < |nodes| && sites[m].level >= PlaceLevel(Tree(), at) ::
                nodes[m] == if at.Slot? && m == at.node then old(nodes)[m][at.k := EntryAt(at)] else old(nodes)[m]
      decreases PlaceLevel(Tree(), at), 0
    {
      hide Indexed, TightNode, SingleChild, OnlyChild;
      IndexedPlace(Tree(), at);
      var e := EntryAt(at);
      if e.ptr == NIL {
        return;
      }
      var n := e.ptr;
      var valid, only := CompactChildren(n);
      if valid != 1 {
        AllTight(Tree(), n);
        return;
      }
      var c := nodes[n][only];
      SkipsFit(Tree(), at, only);
      if e.skip + c.skip >= 8 {
        assert false;
      }
      ShortcutIndexed(Tree(), at, only);
      var e' := if c.skip == 0 then Entry(0, c.ptr) else Entry(e.skip + c.skip, c.ptr);
      OneChildIsLoose(Tree(), n, only);
      AllTightKept(Tree(), at, e');
      if at.Root? {
        root := e';
      } else {
        nodes := nodes[at.node := nodes[at.node][at.k := e']];
      }
    }

    method CompactAll()
      requires Indexed(Tree())
      modifies this`root, this`nodes
      ensures Indexed(Tree()) && TightEntry(Tree(), root)
    {
      if root.skip != 0 {
        Compact(Root);
      }
    }

    /** The walk of phys_page_find, down to a section number. */
    method Find(index: nat) returns (section: nat)
      requires AllClosed(nodes) && Closed(nodes, root)
      ensures section == Walk(nodes, root, LEVELS, index)
    {
      var lp, i := root, LEVELS;
      while lp.skip != 0 && i - lp.skip >= 0
        invariant 0 <= i <= LEVELS && Closed(nodes, lp)
        invariant Walk(nodes, lp, i, index) == Walk(nodes, root, LEVELS, index)
        decreases i
      {
        i := i - lp.skip;
        if lp.ptr == NIL {
          return UNASSIGNED;
        }
        assert NodeClosed(nodes, lp.ptr);
        lp := nodes[lp.ptr][Index(i, index)];
      }
      section := lp.ptr;
    }
  }
}
