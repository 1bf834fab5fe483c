/** The dispatch table of one address space: numbered sections, pages split among several
    sections, and the page map that selects between them. It stands for a flat assignment of
    every guest-physical address to a memory region and an offset in it. */
module AddressDispatch {
  import opened Basics
  import opened RadixGeometry
  import opened RadixTree
  import opened PhysPageMap

  const ADDRESS_LIMIT := 0x1_0000_0000_0000_0000

  /** Section numbers of the four fixed sections created first. */
  const FIXED_SECTIONS := 4

  /** The sections that one mem_add may take: two for each partial page, which may have to be split first,
      and one for the whole pages. */
  const MOST_PIECES := 5

  /** `Subpage(j)` is the I/O region of the j-th split page; `Device` is any region a caller maps. */
  datatype Region = Unassigned | NotDirty | Rom | Watch | Device(id: nat) | Subpage(number: nat)

  datatype Section = Section(mr: Region, asOffset: nat, regionOffset: nat, size: nat)

  /** A page whose bytes belong to different sections. */
  datatype SplitPage = SplitPage(base: nat, subSection: seq<nat>)

  /** What an address means: nothing, or an offset in a region. */
  datatype Target = Unmapped | Mapped(mr: Region, offset: int)

  type Flat = nat -> Target

  predicate Holds(s: Section, addr: nat) {
    s.asOffset <= addr < s.asOffset + s.size
  }

  /** The final check of a lookup: a section of 2^64 bytes covers everything. */
  predicate Covers(s: Section, addr: nat) {
    s.size >= ADDRESS_LIMIT || Holds(s, addr)
  }

  function Meaning(s: Section, addr: nat): Target {
    if s.mr.Unassigned? then Unmapped else Mapped(s.mr, addr - s.asOffset + s.regionOffset)
  }

  /** The number of the section that byte `addr` belongs to when its page belongs to `section`. */
  function Resolve(sections: seq<Section>, pages: seq<SplitPage>, section: nat, addr: nat): nat {
    if section < |sections| && sections[section].mr.Subpage?
       && sections[section].mr.number < |pages|
       && |pages[sections[section].mr.number].subSection| == PAGE_SIZE
    then pages[sections[section].mr.number].subSection[addr % PAGE_SIZE]
    else section
  }

  /** Section `n` holds exactly the pages that the view gives to it. */
  ghost predicate LeafExact(view: View, sections: seq<Section>, n: nat) {
    && FIXED_SECTIONS <= n < |sections| && !sections[n].mr.Unassigned?
    && sections[n].asOffset % PAGE_SIZE == 0 && sections[n].size % PAGE_SIZE == 0
    && sections[n].asOffset + sections[n].size <= ADDRESS_LIMIT
    && forall p: nat :: view(p) == n <==> Holds(sections[n], p * PAGE_SIZE)
  }

  /** A split page is reached from its own page only, and names existing sections. */
  ghost predicate SplitOk(sections: seq<Section>, pages: seq<SplitPage>, n: nat)
    requires n < |sections|
  {
    sections[n].mr.Subpage? ==>
      && sections[n].mr.number < |pages|
      && sections[n].asOffset == pages[sections[n].mr.number].base
      && sections[n].size == PAGE_SIZE
      && |pages[sections[n].mr.number].subSection| == PAGE_SIZE
      && forall i | 0 <= i < PAGE_SIZE :: pages[sections[n].mr.number].subSection[i] < |sections|
  }

  /** Resolving `addr` through the tables gives its flat meaning, by a section that holds it. */
  ghost predicate AddrOk(view: View, sections: seq<Section>, pages: seq<SplitPage>, flat: Flat, addr: nat) {
    var n := Resolve(sections, pages, view(addr / PAGE_SIZE), addr);
    && n < |sections|
    && !sections[n].mr.Subpage?
    && Meaning(sections[n], addr) == flat(addr)
    && Covers(sections[n], addr)
  }

  /** A page with a section has a mapped byte. */
  ghost predicate PageUsed(view: View, flat: Flat, p: nat) {
    view(p) != UNASSIGNED ==> exists addr: nat :: addr / PAGE_SIZE == p && flat(addr) != Unmapped
  }

  predicate FixedOk(sections: seq<Section>) {
    && |sections| >= FIXED_SECTIONS
    && sections[..FIXED_SECTIONS] == [
         Section(Unassigned, 0, 0, ADDRESS_LIMIT), Section(NotDirty, 0, 0, ADDRESS_LIMIT),
         Section(Rom, 0, 0, ADDRESS_LIMIT), Section(Watch, 0, 0, ADDRESS_LIMIT)]
  }

  /** The tables stand for `flat`. */
  ghost predicate Stands(view: View, leaves: set<nat>, sections: seq<Section>, pages: seq<SplitPage>, flat: Flat) {
    && FixedOk(sections)
    && (forall p: nat :: view(p) == UNASSIGNED || view(p) in leaves)
    && (forall n :: n in leaves ==> LeafExact(view, sections, n))
    && (forall n | 0 <= n < |sections| :: SplitOk(sections, pages, n))
    && (forall addr: nat :: AddrOk(view, sections, pages, flat, addr))
  }

  /** Every section that was added is found at each address it holds. */
  ghost predicate Settled(view: View, sections: seq<Section>, pages: seq<SplitPage>) {
    forall k, b: nat | FIXED_SECTIONS <= k < |sections| && !sections[k].mr.Subpage? && Holds(sections[k], b) ::
      FoundAt(view, sections, pages, k, b)
  }

  ghost predicate FoundAt(view: View, sections: seq<Section>, pages: seq<SplitPage>, k: nat, b: nat)
    requires k < |sections|
  {
    sections[k].mr.Device? && b < ADDRESS_LIMIT && Resolve(sections, pages, view(b / PAGE_SIZE), b) == k
  }

  ghost predicate AllUsed(view: View, flat: Flat) {
    forall p: nat :: PageUsed(view, flat, p)
  }

  /** `flat'` is the flat assignment with the bytes of `s` given to it. */
  ghost predicate Assigned(flat: Flat, flat': Flat, s: Section) {
    forall addr: nat :: flat'(addr) == if Holds(s, addr) then Meaning(s, addr) else flat(addr)
  }

  /** `view'` is the page view with [first, first + count) given to section `n`. */
  ghost predicate Painted(view: View, view': View, first: nat, count: nat, n: nat) {
    forall p: nat :: view'(p) == if first <= p < first + count then n else view(p)
  }

  /** The I/O section of a split page. */
  function SplitSection(p: nat, number: nat): Section {
    Section(Subpage(number), p * PAGE_SIZE, 0, PAGE_SIZE)
  }

  function EmptySplit(p: nat): SplitPage {
    SplitPage(p * PAGE_SIZE, seq(PAGE_SIZE, _ => UNASSIGNED))
  }

  /** An unassigned page can be split without changing what any address means. */
  lemma NewSplit(view: View, view': View, leaves: set<nat>, sections: seq<Section>, pages: seq<SplitPage>, flat: Flat, p: nat)
    requires Stands(view, leaves, sections, pages, flat) && view(p) == UNASSIGNED
    requires p * PAGE_SIZE + PAGE_SIZE <= ADDRESS_LIMIT && Painted(view, view', p, 1, |sections|)
    ensures Stands(view', leaves + {|sections|}, sections + [SplitSection(p, |pages|)], pages + [EmptySplit(p)], flat)
  {
    var n := |sections|;
    var sections', pages' := sections + [SplitSection(p, |pages|)], pages + [EmptySplit(p)];
    forall m | m in leaves + {n}
      ensures LeafExact(view', sections', m)
    {
      if m in leaves {
        assert LeafExact(view, sections, m);
      }
    }
    forall m | 0 <= m < |sections'|
      ensures SplitOk(sections', pages', m)
    {
      if m < n {
        assert SplitOk(sections, pages, m);
      }
    }
    forall addr: nat
      ensures AddrOk(view', sections', pages', flat, addr)
    {
      assert AddrOk(view, sections, pages, flat, addr);
      AddrSection(view, leaves, sections, pages, flat, addr);
    }
  }

  /** The section of an address's page is a fixed or inserted one. */
  lemma AddrSection(view: View, leaves: set<nat>, sections: seq<Section>, pages: seq<SplitPage>, flat: Flat, addr: nat)
    requires Stands(view, leaves, sections, pages, flat)
    ensures view(addr / PAGE_SIZE) < |sections| && SplitOk(sections, pages, view(addr / PAGE_SIZE))
    ensures view(addr / PAGE_SIZE) != UNASSIGNED ==> LeafExact(view, sections, view(addr / PAGE_SIZE))
  {
  }

  /** The final range check of a lookup accepts exactly the addresses of the section's pages. */
  lemma RangeCheckDecides(view: View, sections: seq<Section>, n: nat, addr: nat)
    requires LeafExact(view, sections, n) && addr < ADDRESS_LIMIT
    ensures Covers(sections[n], addr) <==> view(addr / PAGE_SIZE) == n
  {
    var p := addr / PAGE_SIZE;
    assert view(p) == n <==> Holds(sections[n], p * PAGE_SIZE);
    var q, r := sections[n].asOffset / PAGE_SIZE, (sections[n].asOffset + sections[n].size) / PAGE_SIZE;
    assert sections[n].asOffset == q * PAGE_SIZE && sections[n].asOffset + sections[n].size == r * PAGE_SIZE;
  }

  /** A lookup: walk the tree, then check the range of the section the walk ends on. */
  function PageFind(nodes: seq<Node>, root: Entry, sections: seq<Section>, addr: nat): nat
    requires AllClosed(nodes) && Closed(nodes, root)
  {
    var s := Walk(nodes, root, LEVELS, addr / PAGE_SIZE);
    if s < |sections| && Covers(sections[s], addr) then s else UNASSIGNED
  }

  /** In every tree that loses no assigned page, compacted or not, a lookup gives the page view.
      Pages outside a skipped range end on a foreign section, which the range check refuses. */
  lemma PageFindIsView(t: Tree, sections: seq<Section>, addr: nat)
    requires Indexed(t) && FixedOk(sections) && AllClosed(t.nodes) && Closed(t.nodes, t.root)
    requires forall n :: n in t.leaves ==> LeafExact(t.view, sections, n)
    requires addr < ADDRESS_LIMIT
    ensures PageFind(t.nodes, t.root, sections, addr) == t.view(addr / PAGE_SIZE)
  {
    var p := addr / PAGE_SIZE;
    var s := Walk(t.nodes, t.root, LEVELS, p);
    WalkEndsOnLeaf(t, t.root, LEVELS, 0, Span(LEVELS), p);
    if t.view(p) != UNASSIGNED {
      assert LeafExact(t.view, sections, t.view(p));
      SpanOfAll();
      WalkFinds(t, t.root, LEVELS, 0, Span(LEVELS), p);
    }
    if s != UNASSIGNED {
      RangeCheckDecides(t.view, sections, s, addr);
    }
  }

  /** Two trees over one view, such as one before and after compaction, answer every lookup alike. */
  lemma SameViewSameFind(t: Tree, t': Tree, sections: seq<Section>, addr: nat)
    requires Indexed(t) && Indexed(t') && FixedOk(sections) && t.view == t'.view && t.leaves == t'.leaves
    requires AllClosed(t.nodes) && Closed(t.nodes, t.root) && AllClosed(t'.nodes) && Closed(t'.nodes, t'.root)
    requires forall n :: n in t.leaves ==> LeafExact(t.view, sections, n)
    requires addr < ADDRESS_LIMIT
    ensures PageFind(t.nodes, t.root, sections, addr) == PageFind(t'.nodes, t'.root, sections, addr)
  {
    PageFindIsView(t, sections, addr);
    PageFindIsView(t', sections, addr);
  }

  lemma SpanOfAll()
    ensures Span(LEVELS) == 0x40_0000_0000_0000
  {
    assert Span(3) == 0x800_0000;
  }

  /** Page-aligned `s` is registered for whole, unassigned pages. */
  lemma NewRange(view: View, view': View, leaves: set<nat>, sections: seq<Section>, pages: seq<SplitPage>,
                 flat: Flat, flat': Flat, s: Section)
    requires Stands(view, leaves, sections, pages, flat) && s.mr.Device?
    requires s.asOffset % PAGE_SIZE == 0 && s.size % PAGE_SIZE == 0 && s.asOffset + s.size <= ADDRESS_LIMIT
    requires forall p: nat | Holds(s, p * PAGE_SIZE) :: view(p) == UNASSIGNED
    requires Painted(view, view', s.asOffset / PAGE_SIZE, s.size / PAGE_SIZE, |sections|) && Assigned(flat, flat', s)
    ensures Stands(view', leaves + {|sections|}, sections + [s], pages, flat')
  {
    var n := |sections|;
    var sections' := sections + [s];
    forall m | m in leaves + {n}
      ensures LeafExact(view', sections', m)
    {
      if m in leaves {
        assert LeafExact(view, sections, m);
      }
    }
    forall m | 0 <= m < |sections'|
      ensures SplitOk(sections', pages, m)
    {
      if m < n {
        assert SplitOk(sections, pages, m);
      }
    }
    forall addr: nat
      ensures AddrOk(view', sections', pages, flat', addr)
    {
      assert AddrOk(view, sections, pages, flat, addr);
      AddrSection(view, leaves, sections, pages, flat, addr);
    }
  }

  /** The split page with bytes [from, to) of it given to section `n`. */
  function FillSplit(page: SplitPage, from: nat, to: nat, n: nat): SplitPage
    requires |page.subSection| == PAGE_SIZE
  {
    page.(subSection := seq(PAGE_SIZE, i requires 0 <= i < PAGE_SIZE => if from <= i < to then n else page.subSection[i]))
  }

  /** `s`, inside split page number `j`, is registered there. */
  lemma NewPiece(view: View, leaves: set<nat>, sections: seq<Section>, pages: seq<SplitPage>,
                 flat: Flat, flat': Flat, s: Section, j: nat)
    requires Stands(view, leaves, sections, pages, flat) && s.mr.Device? && s.size > 0
    requires s.asOffset % PAGE_SIZE + s.size <= PAGE_SIZE
    requires view(s.asOffset / PAGE_SIZE) < |sections| && sections[view(s.asOffset / PAGE_SIZE)].mr == Subpage(j)
    requires j < |pages| && |pages[j].subSection| == PAGE_SIZE && Assigned(flat, flat', s)
    ensures Stands(view, leaves, sections + [s],
                   pages[j := FillSplit(pages[j], s.asOffset % PAGE_SIZE, s.asOffset % PAGE_SIZE + s.size, |sections|)], flat')
  {
    var n := |sections|;
    var from := s.asOffset % PAGE_SIZE;
    var sections', pages' := sections + [s], pages[j := FillSplit(pages[j], from, from + s.size, n)];
    forall m | m in leaves
      ensures LeafExact(view, sections', m)
    {
      assert LeafExact(view, sections, m);
    }
    forall m | 0 <= m < |sections'|
      ensures SplitOk(sections', pages', m)
    {
      if m < n {
        assert SplitOk(sections, pages, m);
      }
    }
    forall addr: nat
      ensures AddrOk(view, sections', pages', flat', addr)
    {
      PieceAddr(view, leaves, sections, pages, flat, flat', s, j, addr);
    }
  }

  lemma PieceAddr(view: View, leaves: set<nat>, sections: seq<Section>, pages: seq<SplitPage>,
                  flat: Flat, flat': Flat, s: Section, j: nat, addr: nat)
    requires Stands(view, leaves, sections, pages, flat) && s.mr.Device? && s.size > 0
    requires s.asOffset % PAGE_SIZE + s.size <= PAGE_SIZE
    requires view(s.asOffset / PAGE_SIZE) < |sections| && sections[view(s.asOffset / PAGE_SIZE)].mr == Subpage(j)
    requires j < |pages| && |pages[j].subSection| == PAGE_SIZE && Assigned(flat, flat', s)
    ensures AddrOk(view, sections + [s],
                   pages[j := FillSplit(pages[j], s.asOffset % PAGE_SIZE, s.asOffset % PAGE_SIZE + s.size, |sections|)], flat', addr)
  {
    AddrSection(view, leaves, sections, pages, flat, s.asOffset);
    AddrSection(view, leaves, sections, pages, flat, addr);
    assert AddrOk(view, sections, pages, flat, addr);
    hide Stands;
  }

  lemma SettledSplit(view: View, view': View, leaves: set<nat>, sections: seq<Section>, pages: seq<SplitPage>, flat: Flat, p: nat)
    requires Stands(view, leaves, sections, pages, flat) && Settled(view, sections, pages) && view(p) == UNASSIGNED
    requires Painted(view, view', p, 1, |sections|)
    ensures Settled(view', sections + [SplitSection(p, |pages|)], pages + [EmptySplit(p)])
  {
    var sections', pages' := sections + [SplitSection(p, |pages|)], pages + [EmptySplit(p)];
    forall k, b: nat | FIXED_SECTIONS <= k < |sections'| && !sections'[k].mr.Subpage? && Holds(sections'[k], b)
      ensures FoundAt(view', sections', pages', k, b)
    {
      assert k < |sections| && Holds(sections[k], b) && FoundAt(view, sections, pages, k, b);
      AddrSection(view, leaves, sections, pages, flat, b);
    }
  }

  lemma SettledRange(view: View, view': View, leaves: set<nat>, sections: seq<Section>, pages: seq<SplitPage>, flat: Flat, s: Section)
    requires Stands(view, leaves, sections, pages, flat) && Settled(view, sections, pages) && s.mr.Device?
    requires s.asOffset % PAGE_SIZE == 0 && s.size % PAGE_SIZE == 0 && s.asOffset + s.size <= ADDRESS_LIMIT
    requires forall p: nat | Holds(s, p * PAGE_SIZE) :: view(p) == UNASSIGNED
    requires Painted(view, view', s.asOffset / PAGE_SIZE, s.size / PAGE_SIZE, |sections|)
    ensures Settled(view', sections + [s], pages)
  {
    var sections' := sections + [s];
    forall k, b: nat | FIXED_SECTIONS <= k < |sections'| && !sections'[k].mr.Subpage? && Holds(sections'[k], b)
      ensures FoundAt(view', sections', pages, k, b)
    {
      if k < |sections| {
        assert Holds(sections[k], b) && FoundAt(view, sections, pages, k, b);
        AddrSection(view, leaves, sections, pages, flat, b);
        assert view(b / PAGE_SIZE) != UNASSIGNED;
      }
    }
  }

  lemma SettledPiece(view: View, leaves: set<nat>, sections: seq<Section>, pages: seq<SplitPage>, flat: Flat, s: Section, j: nat)
    requires Stands(view, leaves, sections, pages, flat) && Settled(view, sections, pages) && s.mr.Device?
    requires s.asOffset % PAGE_SIZE + s.size <= PAGE_SIZE && s.asOffset + s.size <= ADDRESS_LIMIT
    requires view(s.asOffset / PAGE_SIZE) < |sections| && sections[view(s.asOffset / PAGE_SIZE)].mr == Subpage(j)
    requires j < |pages| && |pages[j].subSection| == PAGE_SIZE
    requires forall addr: nat | Holds(s, addr) :: flat(addr) == Unmapped
    ensures Settled(view, sections + [s],
                    pages[j := FillSplit(pages[j], s.asOffset % PAGE_SIZE, s.asOffset % PAGE_SIZE + s.size, |sections|)])
  {
    var from := s.asOffset % PAGE_SIZE;
    var sections', pages' := sections + [s], pages[j := FillSplit(pages[j], from, from + s.size, |sections|)];
    forall k, b: nat | FIXED_SECTIONS <= k < |sections'| && !sections'[k].mr.Subpage? && Holds(sections'[k], b)
      ensures FoundAt(view, sections', pages', k, b)
    {
      if k < |sections| {
        assert Holds(sections[k], b) && FoundAt(view, sections, pages, k, b);
        HeldIsMapped(view, leaves, sections, pages, flat, k, b);
        SplitPageUnique(view, leaves, sections, pages, flat, s.asOffset, b, j);
        PieceKeeps(view, sections, pages, s, j, k, b);
      } else {
        PieceFound(view, sections, pages, s, j, b);
      }
    }
    hide *;
  }

  lemma HeldIsMapped(view: View, leaves: set<nat>, sections: seq<Section>, pages: seq<SplitPage>, flat: Flat, k: nat, b: nat)
    requires Stands(view, leaves, sections, pages, flat) && k < |sections| && FoundAt(view, sections, pages, k, b)
    ensures flat(b) != Unmapped && view(b / PAGE_SIZE) < |sections|
  {
    assert AddrOk(view, sections, pages, flat, b);
    AddrSection(view, leaves, sections, pages, flat, b);
    hide Stands;
  }

  /** A split page is reached from one page of the map. */
  lemma SplitPageUnique(view: View, leaves: set<nat>, sections: seq<Section>, pages: seq<SplitPage>, flat: Flat, x: nat, y: nat, j: nat)
    requires Stands(view, leaves, sections, pages, flat)
    ensures view(x / PAGE_SIZE) < |sections| && view(y / PAGE_SIZE) < |sections|
    ensures sections[view(x / PAGE_SIZE)].mr == Subpage(j) && sections[view(y / PAGE_SIZE)].mr == Subpage(j) ==>
              x / PAGE_SIZE == y / PAGE_SIZE
  {
    SplitPageBase(view, leaves, sections, pages, flat, x, j);
    SplitPageBase(view, leaves, sections, pages, flat, y, j);
    hide Stands;
  }

  lemma SplitPageBase(view: View, leaves: set<nat>, sections: seq<Section>, pages: seq<SplitPage>, flat: Flat, x: nat, j: nat)
    requires Stands(view, leaves, sections, pages, flat)
    ensures view(x / PAGE_SIZE) < |sections|
    ensures sections[view(x / PAGE_SIZE)].mr == Subpage(j) ==> j < |pages| && pages[j].base == x / PAGE_SIZE * PAGE_SIZE
  {
    AddrSection(view, leaves, sections, pages, flat, x);
    var v := view(x / PAGE_SIZE);
    if sections[v].mr == Subpage(j) {
      assert FixedOk(sections);
      assert sections[UNASSIGNED] == sections[..FIXED_SECTIONS][UNASSIGNED];
      assert LeafExact(view, sections, v);
      assert Holds(sections[v], x / PAGE_SIZE * PAGE_SIZE);
      AlignedIn(sections[v].asOffset, x / PAGE_SIZE);
    }
    hide Stands;
  }

  lemma AlignedIn(base: nat, p: nat)
    requires base % PAGE_SIZE == 0 && base <= p * PAGE_SIZE < base + PAGE_SIZE
    ensures base == p * PAGE_SIZE
  {
    assert base == base / PAGE_SIZE * PAGE_SIZE;
  }

  lemma PieceFound(view: View, sections: seq<Section>, pages: seq<SplitPage>, s: Section, j: nat, b: nat)
    requires s.mr.Device? && s.asOffset % PAGE_SIZE + s.size <= PAGE_SIZE && s.asOffset + s.size <= ADDRESS_LIMIT
    requires view(s.asOffset / PAGE_SIZE) < |sections| && sections[view(s.asOffset / PAGE_SIZE)].mr == Subpage(j)
    requires j < |pages| && |pages[j].subSection| == PAGE_SIZE && Holds(s, b)
    ensures FoundAt(view, sections + [s],
                    pages[j := FillSplit(pages[j], s.asOffset % PAGE_SIZE, s.asOffset % PAGE_SIZE + s.size, |sections|)], |sections|, b)
  {
    SamePage(s.asOffset, s.size, b);
  }

  /** An address not far behind another is in its page, that far behind it. */
  lemma SamePage(a: nat, size: nat, b: nat)
    requires a % PAGE_SIZE + size <= PAGE_SIZE && a <= b < a + size
    ensures b / PAGE_SIZE == a / PAGE_SIZE && b % PAGE_SIZE == a % PAGE_SIZE + (b - a)
  {
  }

  lemma PieceKeeps(view: View, sections: seq<Section>, pages: seq<SplitPage>, s: Section, j: nat, k: nat, b: nat)
    requires k < |sections| && FoundAt(view, sections, pages, k, b) && s.asOffset % PAGE_SIZE + s.size <= PAGE_SIZE
    requires view(b / PAGE_SIZE) < |sections|
    requires sections[view(b / PAGE_SIZE)].mr == Subpage(j) ==> b / PAGE_SIZE == s.asOffset / PAGE_SIZE
    requires j < |pages| && |pages[j].subSection| == PAGE_SIZE && !Holds(s, b)
    ensures FoundAt(view, sections + [s],
                    pages[j := FillSplit(pages[j], s.asOffset % PAGE_SIZE, s.asOffset % PAGE_SIZE + s.size, |sections|)], k, b)
  {
  }

  function AssignTo(flat: Flat, s: Section): Flat {
    (addr: nat) => if Holds(s, addr) then Meaning(s, addr) else flat(addr)
  }

  /** Pages that gained a section hold a byte of it, and mapped bytes stay mapped. */
  lemma StillUsed(view: View, view': View, flat: Flat, flat': Flat, s: Section)
    requires AllUsed(view, flat) && Assigned(flat, flat', s) && s.mr.Device? && s.size > 0
    requires forall p: nat :: view'(p) == view(p) || exists addr: nat :: addr / PAGE_SIZE == p && Holds(s, addr)
    ensures AllUsed(view', flat')
  {
    forall p: nat
      ensures PageUsed(view', flat', p)
    {
      assert PageUsed(view, flat, p);
    }
  }

  /** Wholly unmapped pages have no section. */
  lemma UnmappedPagesFree(view: View, flat: Flat, s: Section)
    requires AllUsed(view, flat)
    requires s.asOffset % PAGE_SIZE == 0 && s.size % PAGE_SIZE == 0
    requires forall addr: nat | Holds(s, addr) :: flat(addr) == Unmapped
    ensures forall p: nat | Holds(s, p * PAGE_SIZE) :: view(p) == UNASSIGNED
  {
    forall p: nat | Holds(s, p * PAGE_SIZE)
      ensures view(p) == UNASSIGNED
    {
      assert PageUsed(view, flat, p);
    }
  }

  /** The first `size` bytes of a section. */
  function Head(s: Section, size: nat): Section {
    s.(size := size)
  }

  /** `r` is what remains of `s` from some byte on. */
  predicate Tail(s: Section, r: Section) {
    && r.mr == s.mr && s.asOffset <= r.asOffset
    && r.asOffset + r.size == s.asOffset + s.size
    && r.regionOffset - r.asOffset == s.regionOffset - s.asOffset
  }

  /** Assigning the head of a section and then the next piece assigns the longer head. */
  lemma AssignedTwice(flat: Flat, before: Flat, after: Flat, s: Section, piece: Section)
    requires s.asOffset <= piece.asOffset && piece.mr == s.mr
    requires piece.regionOffset - piece.asOffset == s.regionOffset - s.asOffset
    requires Assigned(flat, before, Head(s, piece.asOffset - s.asOffset)) && Assigned(before, after, piece)
    ensures Assigned(flat, after, Head(s, piece.asOffset + piece.size - s.asOffset))
  {
  }

  lemma NothingAssigned(flat: Flat, s: Section)
    ensures Assigned(flat, flat, Head(s, 0))
  {
  }

  /** What remains of a section is unmapped while only its head has been assigned. */
  lemma RestUnmapped(flat: Flat, before: Flat, s: Section, r: Section)
    requires Tail(s, r) && Assigned(flat, before, Head(s, r.asOffset - s.asOffset))
    requires forall addr: nat | Holds(s, addr) :: flat(addr) == Unmapped
    ensures forall addr: nat | Holds(r, addr) :: before(addr) == Unmapped
  {
  }

  class Dispatch {
    const table: PageMap
    var sections: seq<Section>
    var pages: seq<SplitPage>
    ghost var flat: Flat

    ghost predicate Represents()
      reads this, table
    {
      Stands(table.view, table.leaves, sections, pages, flat) && Settled(table.view, sections, pages)
    }

    /** Between mem_begin and mem_commit: sections may be added. */
    ghost predicate Open()
      reads this, table
    {
      && Represents() && table.Growing() && AllUsed(table.view, flat)
      && |sections| <= PAGE_SIZE
      && |table.nodes| <= (2 * LEVELS - 1) * (|sections| - FIXED_SECTIONS)
    }

    /** Lookups may run: before or after compaction. */
    ghost predicate Ready()
      reads this, table
    {
      Represents() && Indexed(table.Tree())
    }

    lemma OpenIsReady()
      requires Open()
      ensures Ready()
    {
    }

    /** mem_begin */
    constructor ()
      ensures Open() && fresh(table) && |sections| == FIXED_SECTIONS && pages == []
      ensures forall addr: nat :: flat(addr) == Unmapped
    {
      table := new PageMap();
      sections := [
        Section(Unassigned, 0, 0, ADDRESS_LIMIT), Section(NotDirty, 0, 0, ADDRESS_LIMIT),
        Section(Rom, 0, 0, ADDRESS_LIMIT), Section(Watch, 0, 0, ADDRESS_LIMIT)];
      pages := [];
      flat := (addr: nat) => Unmapped;
      new;
      assert forall addr: nat :: AddrOk(table.view, sections, pages, flat, addr);
    }

    /** phys_page_find: the section of an address's page, or the unassigned one when the section
        the walk ends on does not hold the address. */
    method FindSection(addr: nat) returns (n: nat)
      requires Ready() && addr < ADDRESS_LIMIT
      ensures n == table.view(addr / PAGE_SIZE) && n < |sections|
      ensures AllClosed(table.nodes) && Closed(table.nodes, table.root)
      ensures n == PageFind(table.nodes, table.root, sections, addr)
    {
      IndexedClosed(table.Tree());
      var s := table.Find(addr / PAGE_SIZE);
      WalkEndsOnLeaf(table.Tree(), table.root, LEVELS, 0, Span(LEVELS), addr / PAGE_SIZE);
      PageFindIsView(table.Tree(), sections, addr);
      n := if Covers(sections[s], addr) then s else UNASSIGNED;
    }

    /** address_space_lookup_region */
    method LookupRegion(addr: nat, resolveSubpage: bool) returns (n: nat)
      requires Ready() && addr < ADDRESS_LIMIT
      ensures n < |sections|
      ensures resolveSubpage ==> Meaning(sections[n], addr) == flat(addr) && Covers(sections[n], addr)
      ensures resolveSubpage ==> n == Resolve(sections, pages, table.view(addr / PAGE_SIZE), addr)
      ensures !resolveSubpage ==> n == table.view(addr / PAGE_SIZE)
    {
      n := FindSection(addr);
      assert AddrOk(table.view, sections, pages, flat, addr);
      AddrSection(table.view, table.leaves, sections, pages, flat, addr);
      if resolveSubpage && sections[n].mr.Subpage? {
        n := pages[sections[n].mr.number].subSection[addr % PAGE_SIZE];
      }
    }

    /** mem_commit: compaction leaves the meaning of every address alone. */
    method Commit()
      requires Open()
      modifies table
      ensures Ready() && flat == old(flat) && sections == old(sections) && pages == old(pages)
      ensures TightEntry(table.Tree(), table.root)
    {
      table.CompactAll();
    }

    /** subpage_register: gives bytes [from, to) of a split page to section `n`. */
    method FillPage(j: nat, from: nat, to: nat, n: nat)
      requires j < |pages| && |pages[j].subSection| == PAGE_SIZE && from <= to <= PAGE_SIZE
      modifies this`pages
      ensures pages == old(pages)[j := FillSplit(old(pages)[j], from, to, n)]
    {
      var sub := pages[j].subSection;
      for idx := from to to
        invariant |sub| == PAGE_SIZE
        invariant sub == FillSplit(old(pages)[j], from, idx, n).subSection
      {
        sub := sub[idx := n];
      }
      pages := pages[j := pages[j].(subSection := sub)];
    }

    /** The page of an unmapped byte is unassigned or split: the assertion of register_subpage. */
    lemma ExistingSplit(addr: nat)
      requires Represents() && flat(addr) == Unmapped
      ensures var n := table.view(addr / PAGE_SIZE);
        n < |sections| && (n == UNASSIGNED || sections[n].mr.Subpage?) && SplitOk(sections, pages, n)
    {
      AddrSection(table.view, table.leaves, sections, pages, flat, addr);
      assert AddrOk(table.view, sections, pages, flat, addr);
    }

    /** Splits the unassigned page `p`. */
    method SplitPageAt(p: nat)
      requires Open() && |sections| < PAGE_SIZE && table.view(p) == UNASSIGNED
      requires p * PAGE_SIZE + PAGE_SIZE <= ADDRESS_LIMIT
      modifies this`sections, this`pages, table
      ensures Represents() && table.Growing()
      ensures forall q: nat | q != p :: table.view(q) == old(table.view)(q)
      ensures table.view(p) == old(|sections|) && |sections| == old(|sections|) + 1
      ensures |pages| == old(|pages|) + 1 && |pages[old(|pages|)].subSection| == PAGE_SIZE
      ensures sections[|sections| - 1].mr == Subpage(old(|pages|))
      ensures |table.nodes| <= (2 * LEVELS - 1) * (|sections| - FIXED_SECTIONS)
    {
      hide Stands, Settled, AllUsed, Grown, Indexed, OccupiedUpTo;
      var number := |pages|;
      var n := |sections|;
      ghost var view := table.view;
      SpanOfAll();
      table.PageSet(p, 1, n);
      NewSplit(view, table.view, old(table.leaves), sections, pages, flat, p);
      SettledSplit(view, table.view, old(table.leaves), sections, pages, flat, p);
      pages := pages + [EmptySplit(p)];
      sections := sections + [SplitSection(p, number)];
    }

    method RegisterSubpage(s: Section) returns (ok: bool)
      requires Open() && s.mr.Device? && s.size > 0
      requires s.asOffset % PAGE_SIZE + s.size <= PAGE_SIZE && s.asOffset + s.size <= ADDRESS_LIMIT
      requires forall addr: nat | Holds(s, addr) :: flat(addr) == Unmapped
      modifies this`sections, this`pages, this`flat, table
      ensures ok ==> Open() && Assigned(old(flat), flat, s)
      ensures !ok ==> |sections| == PAGE_SIZE
      ensures |sections| <= old(|sections|) + 2 && (!ok ==> old(|sections|) + 2 > PAGE_SIZE)
    {
      hide Stands, Settled, AllUsed, Grown, Indexed, OccupiedUpTo;
      OpenIsReady();
      var p := s.asOffset / PAGE_SIZE;
      var existing := FindSection(p * PAGE_SIZE);
      ExistingSplit(s.asOffset);
      var number;
      if !sections[existing].mr.Subpage? {
        if |sections| >= PAGE_SIZE {
          return false;
        }
        number := |pages|;
        SplitPageAt(p);
      } else {
        number := sections[existing].mr.number;
      }
      if |sections| >= PAGE_SIZE {
        return false;
      }
      var from := s.asOffset % PAGE_SIZE;
      ghost var flat' := AssignTo(flat, s);
      NewPiece(table.view, table.leaves, sections, pages, flat, flat', s, number);
      SettledPiece(table.view, table.leaves, sections, pages, flat, s, number);
      FillPage(number, from, from + s.size, |sections|);
      sections := sections + [s];
      flat := flat';
      ok := true;
      assert AllUsed(table.view, flat) by {
        StillUsed(old(table.view), table.view, old(flat), flat, s);
      }
    }

    method RegisterMultipage(s: Section) returns (ok: bool)
      requires Open() && s.mr.Device? && s.size > 0
      requires s.asOffset % PAGE_SIZE == 0 && s.size % PAGE_SIZE == 0 && s.asOffset + s.size <= ADDRESS_LIMIT
      requires forall addr: nat | Holds(s, addr) :: flat(addr) == Unmapped
      modifies this`sections, this`flat, table
      ensures ok ==> Open() && Assigned(old(flat), flat, s)
      ensures !ok ==> |sections| == PAGE_SIZE
      ensures |sections| <= old(|sections|) + 1 && (!ok ==> old(|sections|) + 1 > PAGE_SIZE)
    {
      if |sections| >= PAGE_SIZE {
        return false;
      }
      var n := |sections|;
      ghost var flat' := AssignTo(flat, s);
      UnmappedPagesFree(table.view, flat, s);
      SpanOfAll();
      table.PageSet(s.asOffset / PAGE_SIZE, s.size / PAGE_SIZE, n);
      NewRange(old(table.view), table.view, old(table.leaves), sections, pages, flat, flat', s);
      SettledRange(old(table.view), table.view, old(table.leaves), sections, pages, flat, s);
      sections := sections + [s];
      flat := flat';
      ok := true;
      assert AllUsed(table.view, flat) by {
        StillUsed(old(table.view), table.view, old(flat), flat, s);
      }
    }

    /** One round of the loop of mem_add: whole pages, or the last bytes. */
    method AddPiece(remain: Section) returns (ok: bool, now: Section)
      requires Open() && remain.mr.Device? && remain.size > 0
      requires remain.asOffset % PAGE_SIZE == 0 && remain.asOffset + remain.size <= ADDRESS_LIMIT
      requires forall addr: nat | Holds(remain, addr) :: flat(addr) == Unmapped
      modifies this`sections, this`pages, this`flat, table
      ensures ok ==> Open() && Assigned(old(flat), flat, now)
      ensures !ok ==> |sections| == PAGE_SIZE
      ensures now == remain.(size := if remain.size < PAGE_SIZE then remain.size else remain.size - remain.size % PAGE_SIZE)
      ensures var most := if remain.size < PAGE_SIZE then 2 else 1;
        |sections| <= old(|sections|) + most && (!ok ==> old(|sections|) + most > PAGE_SIZE)
    {
      hide Stands, Settled, AllUsed, Assigned, Grown, Indexed, OccupiedUpTo;
      now := remain;
      if remain.size < PAGE_SIZE {
        ok := RegisterSubpage(now);
      } else if remain.asOffset % PAGE_SIZE != 0 {
        // Not reached: after the first piece every piece starts a page.
        assert false;
      } else {
        now := now.(size := now.size - now.size % PAGE_SIZE);
        ok := RegisterMultipage(now);
      }
    }

    /** mem_add: registers a section piece by piece; a partial first page, whole pages, a partial
        last page. */
    method MemAdd(section: Section) returns (ok: bool)
      requires Open() && section.mr.Device? && section.size > 0
      requires section.asOffset + section.size <= ADDRESS_LIMIT
      requires forall addr: nat | Holds(section, addr) :: flat(addr) == Unmapped
      modifies this`sections, this`pages, this`flat, table
      ensures ok ==> Open() && Assigned(old(flat), flat, section)
      ensures !ok ==> |sections| == PAGE_SIZE
      ensures |sections| <= old(|sections|) + MOST_PIECES && (!ok ==> old(|sections|) + MOST_PIECES > PAGE_SIZE)
    {
      hide Stands, Settled, AllUsed, Assigned, Grown, Indexed, OccupiedUpTo;
      var now, remain := section, section;
      if now.asOffset % PAGE_SIZE != 0 {
        var left := PAGE_SIZE - now.asOffset % PAGE_SIZE;
        now := now.(size := if left < now.size then left else now.size);
        ok := RegisterSubpage(now);
        if !ok {
          return;
        }
      } else {
        now := now.(size := 0);
        NothingAssigned(flat, section);
      }
      while remain.size != now.size
        invariant Open() && now.size <= remain.size
        invariant Tail(section, remain)
        invariant |sections| <= old(|sections|)
          + if remain.size == now.size then MOST_PIECES else if remain.size - now.size < PAGE_SIZE then 3 else 2
        invariant remain.size == now.size || (remain.asOffset + now.size) % PAGE_SIZE == 0
        invariant Assigned(old(flat), flat, Head(section, remain.asOffset + now.size - section.asOffset))
        decreases remain.size - now.size
      {
        remain := remain.(size := remain.size - now.size, asOffset := remain.asOffset + now.size,
                          regionOffset := remain.regionOffset + now.size);
        ghost var before := flat;
        RestUnmapped(old(flat), flat, section, remain);
        ok, now := AddPiece(remain);
        if !ok {
          return;
        }
        AssignedTwice(old(flat), before, flat, section, now);
      }
      ok := true;
    }
  }

  ghost predicate Disjoint(list: seq<Section>) {
    forall i, j, addr: nat | 0 <= i < j < |list| && Holds(list[i], addr) :: !Holds(list[j], addr)
  }

  /** What a flat list of sections says about an address. */
  function ListMeaning(list: seq<Section>, addr: nat): Target {
    if list == [] then Unmapped
    else if Holds(list[|list| - 1], addr) then Meaning(list[|list| - 1], addr)
    else ListMeaning(list[..|list| - 1], addr)
  }

  /** In a disjoint list the section that holds an address decides, wherever it stands. */
  lemma {:induction false} ListMeaningOf(list: seq<Section>, addr: nat)
    requires Disjoint(list)
    ensures forall i | 0 <= i < |list| && Holds(list[i], addr) :: ListMeaning(list, addr) == Meaning(list[i], addr)
    ensures (forall i | 0 <= i < |list| :: !Holds(list[i], addr)) ==> ListMeaning(list, addr) == Unmapped
  {
    if list != [] {
      ListMeaningOf(list[..|list| - 1], addr);
    }
  }

  predicate Mappable(s: Section) {
    s.mr.Device? && s.size > 0 && s.asOffset + s.size <= ADDRESS_LIMIT
  }

  /** A whole update of an address space: begin, add every section, commit. Lookups in the
      result give what the flat list says. */
  method Rebuild(list: seq<Section>) returns (ok: bool, d: Dispatch)
    requires Disjoint(list) && forall i | 0 <= i < |list| :: Mappable(list[i])
    ensures ok ==> d.Ready() && forall addr: nat :: d.flat(addr) == ListMeaning(list, addr)
    ensures !ok ==> |d.sections| == PAGE_SIZE
    ensures FIXED_SECTIONS + MOST_PIECES * |list| <= PAGE_SIZE ==> ok
  {
    hide Stands, Settled, AllUsed, Grown, Indexed, OccupiedUpTo, TightNode;
    d := new Dispatch();
    ok := true;
    for i := 0 to |list|
      invariant d.Open() && fresh(d) && fresh(d.table) && |d.sections| <= FIXED_SECTIONS + MOST_PIECES * i
      invariant forall addr: nat :: d.flat(addr) == ListMeaning(list[..i], addr)
    {
      forall addr: nat | Holds(list[i], addr)
        ensures d.flat(addr) == Unmapped
      {
        ListMeaningOf(list[..i], addr);
      }
      ok := d.MemAdd(list[i]);
      if !ok {
        return;
      }
      assert list[..i + 1][..i] == list[..i];
    }
    assert list[..|list|] == list;
    d.Commit();
    ok := true;
  }
}
