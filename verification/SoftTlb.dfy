/** The software TLB: a direct-mapped table and a small victim table per MMU mode, and one region
    that covers all large pages. A flush must remove every translation of the flushed page. */
module SoftTlb {

  type Addr = bv64

  const PAGE_MASK: Addr := 0xFFFF_FFFF_FFFF_F000
  const INVALID: Addr := 8
  const NONE: Addr := 0xFFFF_FFFF_FFFF_FFFF
  const TLB_SIZE := 256
  const VICTIM_SIZE := 8

  /** Tags for reading, writing and executing; NONE when the access is not allowed. */
  datatype Entry = Entry(read: Addr, write: Addr, code: Addr)

  const EMPTY := Entry(NONE, NONE, NONE)

  predicate PageAligned(a: Addr) {
    a & PAGE_MASK == a
  }

  /** The slot of the direct-mapped table that an address uses. */
  function Index(a: Addr): (i: nat)
    ensures i < TLB_SIZE
  {
    IndexBits(a) as nat
  }

  function IndexBits(a: Addr): (r: Addr)
    ensures r <= 0xFF
  {
    (a >> 12) & 0xFF
  }

  predicate TagIs(tag: Addr, page: Addr) {
    tag & (PAGE_MASK | INVALID) == page
  }

  /** Some access through the entry would hit `page`. */
  predicate HasTag(e: Entry, page: Addr) {
    TagIs(e.read, page) || TagIs(e.write, page) || TagIs(e.code, page)
  }

  /** tlb_flush_entry */
  function Flushed(e: Entry, page: Addr): (r: Entry)
    ensures PageAligned(page) ==> !HasTag(r, page)
    ensures forall p: Addr :: PageAligned(p) && HasTag(r, p) ==> HasTag(e, p)
    ensures !HasTag(e, page) ==> r == e
  {
    if HasTag(e, page) then EMPTY else e
  }

  datatype Access = Read | Write | Execute

  function TagOf(e: Entry, access: Access): Addr {
    match access
    case Read => e.read
    case Write => e.write
    case Execute => e.code
  }

  /** The test of the fast path: the page of the address is in the tag, and the tag is valid. */
  predicate Hits(e: Entry, access: Access, a: Addr) {
    TagIs(TagOf(e, access), PageOf(a))
  }

  /** Two addresses of one page of 4096 bytes. */
  predicate SamePage(a: Addr, b: Addr) {
    InLarge(LargePage(b, 0x1000), a)
  }

  /** An entry without a tag for a page is hit by no address of it. */
  lemma NoTagNoHit(e: Entry, access: Access, addr: Addr, a: Addr)
    requires !HasTag(e, PageOf(addr)) && SamePage(a, addr)
    ensures !Hits(e, access, a)
  {
    hide SamePage, TagIs, PageOf;
    SamePageMask(a, addr);
  }

  lemma SamePageMask(a: Addr, b: Addr)
    requires SamePage(a, b)
    ensures PageOf(a) == PageOf(b)
  {
    SmallPage();
    hide Cut, SizeMask, PowerOfTwo, PageOf, InLarge;
    InLargeBits(LargePage(b, 0x1000), a);
    CutIsPage(a);
    CutIsPage(b);
  }

  lemma SmallPage()
    ensures PowerOfTwo(0x1000) && SizeMask(0x1000) == PAGE_MASK
  {
  }

  /** Two addresses use one slot exactly if they agree in the eight bits above the page offset. */
  lemma SameSlot(a: Addr, b: Addr)
    ensures Index(a) == Index(b) <==> (a ^ b) & 0xF_F000 == 0
  {
    IndexInjective(a, b);
    IndexBitsSame(a, b);
    hide IndexBits, Index;
  }

  lemma IndexInjective(a: Addr, b: Addr)
    ensures Index(a) == Index(b) <==> IndexBits(a) == IndexBits(b)
  {
    hide IndexBits;
  }

  lemma IndexBitsSame(a: Addr, b: Addr)
    ensures IndexBits(a) == IndexBits(b) <==> (a ^ b) & 0xF_F000 == 0
  {
  }

  /** Every tag belongs to slot `i`, and all to one page. */
  predicate SlotOk(e: Entry, i: nat) {
    && (e.read == NONE || Index(e.read) == i)
    && (e.write == NONE || Index(e.write) == i)
    && (e.code == NONE || Index(e.code) == i)
  }

  function PageOf(tag: Addr): Addr {
    tag & PAGE_MASK
  }

  predicate OnePage(e: Entry) {
    && (e.read == NONE || e.write == NONE || PageOf(e.read) == PageOf(e.write))
    && (e.read == NONE || e.code == NONE || PageOf(e.read) == PageOf(e.code))
    && (e.write == NONE || e.code == NONE || PageOf(e.write) == PageOf(e.code))
  }

  /** An entry that can hit a page sits in that page's slot. */
  lemma TagInSlot(e: Entry, i: nat, page: Addr)
    requires SlotOk(e, i) && PageAligned(page) && HasTag(e, page)
    ensures Index(page) == i
  {
    TagIndex(e.read, page);
    TagIndex(e.write, page);
    TagIndex(e.code, page);
    hide IndexBits, TagIs;
  }

  lemma TagIndex(tag: Addr, page: Addr)
    requires PageAligned(page)
    ensures TagIs(tag, page) ==> tag != NONE && IndexBits(tag) == IndexBits(page)
  {
  }

  // ---------------------------------------------------------------------------------------
  // The region that covers all large pages

  /** The bits of `a` that `mask` selects. */
  function Cut(a: Addr, mask: Addr): Addr {
    a & mask
  }

  /** `m` selects only bits that `n` selects. */
  predicate Within(m: Addr, n: Addr) {
    m & n == m
  }

  /** The addresses differ in a bit that `mask` selects. */
  predicate Differ(a: Addr, b: Addr, mask: Addr) {
    Cut(Difference(a, b), mask) != 0
  }

  /** A page of `size` bytes that contains `vaddr`. */
  datatype LargePage = LargePage(vaddr: Addr, size: Addr)

  /** The bits in which two addresses differ. */
  function Difference(a: Addr, b: Addr): Addr {
    a ^ b
  }

  predicate Below(a: Addr, size: Addr) {
    a < size
  }

  /** The address differs from `vaddr` only below the size. */
  predicate InLarge(l: LargePage, a: Addr) {
    Below(Difference(a, l.vaddr), l.size)
  }

  predicate PowerOfTwo(size: Addr) {
    size != 0 && size & (size - 1) == 0
  }

  predicate PageSized(size: Addr) {
    PowerOfTwo(size) && size >= 0x1000
  }

  function SizeMask(size: Addr): Addr {
    !(size - 1)
  }

  function Doubled(mask: Addr): Addr {
    mask << 1
  }

  /** Ones above some bit, zeros below. */
  predicate HighMask(m: Addr) {
    Within(Doubled(m), m)
  }

  /** The region contains the whole large page. */
  ghost predicate RegionCovers(addr: Addr, mask: Addr, l: LargePage) {
    forall a: Addr :: InLarge(l, a) ==> Cut(a, mask) == addr
  }

  predicate MaskCovers(addr: Addr, mask: Addr, l: LargePage) {
    Within(mask, SizeMask(l.size)) && Cut(l.vaddr, mask) == addr
  }

  /** An address lies in a large page exactly when the bits above the size agree. */
  lemma InLargeBits(l: LargePage, a: Addr)
    requires PowerOfTwo(l.size)
    ensures InLarge(l, a) <==> Cut(a, SizeMask(l.size)) == Cut(l.vaddr, SizeMask(l.size))
  {
    hide PowerOfTwo, SizeMask, Cut, Difference, Below;
    BelowSize(Difference(a, l.vaddr), l.size);
    DifferNeedsMask(a, l.vaddr, SizeMask(l.size));
    SameCut(a, l.vaddr, SizeMask(l.size));
  }

  lemma BelowSize(d: Addr, size: Addr)
    requires PowerOfTwo(size)
    ensures Below(d, size) <==> Cut(d, SizeMask(size)) == 0
  {
    if d < size {
      HighBitsClear(d, size);
    } else {
      HighBitsSet(d, size);
    }
    hide PowerOfTwo;
  }

  lemma HighBitsClear(d: Addr, size: Addr)
    requires PowerOfTwo(size) && d < size
    ensures d & !(size - 1) == 0
  {
  }

  lemma HighBitsSet(d: Addr, size: Addr)
    requires PowerOfTwo(size) && d >= size
    ensures d & !(size - 1) != 0
  {
  }

  /** For a mask, covering a large page means to select no bit below its size. */
  lemma CoversMeans(addr: Addr, mask: Addr, l: LargePage)
    requires PowerOfTwo(l.size)
    ensures RegionCovers(addr, mask, l) <==> MaskCovers(addr, mask, l)
  {
    hide Cut, Within, InLarge, PowerOfTwo, SizeMask, Flip, Difference;
    if MaskCovers(addr, mask, l) {
      forall a: Addr | InLarge(l, a)
        ensures Cut(a, mask) == addr
      {
        InLargeBits(l, a);
        CutTwice(a, SizeMask(l.size), mask);
        CutTwice(l.vaddr, SizeMask(l.size), mask);
      }
    }
    if RegionCovers(addr, mask, l) {
      var a := Flipped(l, mask);
      assert InLarge(l, a) && Cut(a, mask) == addr;
      StartIsIn(l);
      assert InLarge(l, l.vaddr) && Cut(l.vaddr, mask) == addr;
      FlippedSame(l.vaddr, mask, l.size);
    }
  }

  /** `v` with the bits of the mask below a size turned over. */
  function Flip(v: Addr, mask: Addr, size: Addr): Addr {
    v ^ (mask & (size - 1))
  }

  /** The address of the page that differs from `vaddr` in all bits of the mask. */
  function Flipped(l: LargePage, mask: Addr): (a: Addr)
    requires PowerOfTwo(l.size)
    ensures InLarge(l, a)
  {
    FlippedIn(l.vaddr, mask, l.size);
    Flip(l.vaddr, mask, l.size)
  }

  lemma FlippedIn(v: Addr, m: Addr, size: Addr)
    requires PowerOfTwo(size)
    ensures Below(Difference(Flip(v, m, size), v), size)
  {
    var low := m & (size - 1);
    assert Difference(Flip(v, m, size), v) == low by {
      XorTwice(v, low);
    }
    LowBits(m, size);
    hide Difference, Flip, PowerOfTwo;
  }

  lemma XorTwice(v: Addr, low: Addr)
    ensures (v ^ low) ^ v == low
  {
  }

  lemma LowBits(m: Addr, size: Addr)
    requires size != 0
    ensures m & (size - 1) < size
  {
    CutBelow(m, size - 1);
    OneLess(size);
  }

  lemma CutBelow(m: Addr, low: Addr)
    ensures m & low <= low
  {
  }

  lemma OneLess(size: Addr)
    requires size != 0
    ensures size - 1 < size
  {
  }

  lemma StartIsIn(l: LargePage)
    requires PowerOfTwo(l.size)
    ensures InLarge(l, l.vaddr)
  {
  }

  lemma FlippedSame(v: Addr, mask: Addr, size: Addr)
    ensures Cut(Flip(v, mask, size), mask) == Cut(v, mask) ==> Within(mask, SizeMask(size))
  {
    NoLowBits(v, mask, size - 1);
  }

  lemma NoLowBits(v: Addr, m: Addr, low: Addr)
    ensures (v ^ (m & low)) & m == v & m ==> m & !low == m
  {
  }

  lemma CutTwice(a: Addr, m: Addr, n: Addr)
    ensures Within(n, m) ==> Cut(Cut(a, m), n) == Cut(a, n)
    ensures Cut(Cut(a, m), m) == Cut(a, m)
  {
  }

  lemma MaskOfSize(size: Addr)
    requires PageSized(size)
    ensures HighMask(SizeMask(size)) && Within(SizeMask(size), PAGE_MASK)
  {
  }

  /** Doubling a high mask drops its lowest one. */
  lemma Widen(m: Addr)
    requires HighMask(m)
    ensures HighMask(Doubled(m)) && Within(Doubled(m), m) && (m != 0 ==> Doubled(m) < m)
  {
  }

  /** Below a high mask there is no high mask between it and its double. */
  lemma NextMask(m: Addr, mask: Addr)
    requires HighMask(m) && HighMask(mask) && Within(m, mask) && m != mask
    ensures Within(m, Doubled(mask))
  {
  }

  lemma WithinBoth(m: Addr, n: Addr)
    ensures Within(Cut(m, n), n) && Within(Cut(m, n), m)
    ensures HighMask(m) && HighMask(n) ==> HighMask(Cut(m, n))
  {
  }

  lemma WithinTransitive(a: Addr, b: Addr, c: Addr)
    requires Within(a, b) && Within(b, c)
    ensures Within(a, c)
  {
  }

  lemma DifferNeedsMask(a: Addr, b: Addr, mask: Addr)
    ensures Differ(a, b, mask) ==> mask != 0
    ensures !Differ(a, b, mask) ==> Cut(a, mask) == Cut(b, mask)
  {
  }

  lemma AlignedIsNotNone(a: Addr, mask: Addr)
    requires Within(mask, PAGE_MASK)
    ensures Cut(a, mask) != NONE
  {
  }

  /** A region whose mask only loses bits keeps covering what it covered. */
  lemma RegionGrows(addr: Addr, mask: Addr, mask': Addr, l: LargePage)
    requires RegionCovers(addr, mask, l) && Within(mask', mask)
    ensures RegionCovers(Cut(addr, mask'), mask', l)
  {
    hide Cut, Within, InLarge;
    forall a: Addr | InLarge(l, a)
      ensures Cut(a, mask') == Cut(addr, mask')
    {
      CutTwice(a, mask, mask');
    }
  }

  /** The region contains all the large pages. */
  ghost predicate CoversAll(large: set<LargePage>, addr: Addr, mask: Addr) {
    forall l :: l in large ==> RegionCovers(addr, mask, l)
  }

  /** No region with a larger mask contains them all. */
  ghost predicate Tightest(large: set<LargePage>, mask: Addr) {
    forall m: Addr, addr: Addr :: HighMask(m) && CoversAll(large, addr, m) ==> Within(m, mask)
  }

  lemma TightestFirst(page: LargePage)
    requires PowerOfTwo(page.size)
    ensures Tightest({page}, SizeMask(page.size))
  {
    hide Cut, Within, HighMask, PowerOfTwo, SizeMask, RegionCovers;
    forall m: Addr, addr: Addr | HighMask(m) && CoversAll({page}, addr, m)
      ensures Within(m, SizeMask(page.size))
    {
      CoversMeans(addr, m, page);
    }
  }

  /** The largest mask under which the old region and the new page agree is the largest for all pages. */
  lemma TightestNext(large: set<LargePage>, page: LargePage, addr: Addr, mask: Addr, wide: Addr)
    requires Tightest(large, mask) && large != {} && CoversAll(large, addr, mask) && AllPageSized(large + {page})
    requires forall m: Addr :: HighMask(m) && Within(m, Cut(SizeMask(page.size), mask)) && !Differ(addr, page.vaddr, m) ==> Within(m, wide)
    ensures Tightest(large + {page}, wide)
  {
    hide Cut, Within, HighMask, Differ, PowerOfTwo, SizeMask, RegionCovers;
    forall m: Addr, a: Addr | HighMask(m) && CoversAll(large + {page}, a, m)
      ensures Within(m, wide)
    {
      assert CoversAll(large, a, m) && RegionCovers(a, m, page);
      CoversMeans(a, m, page);
      var l :| l in large;
      assert RegionCovers(a, m, l) && RegionCovers(addr, mask, l);
      CoversMeans(a, m, l);
      CoversMeans(addr, mask, l);
      WithinCut(m, SizeMask(page.size), mask);
      CutTwice(l.vaddr, mask, m);
      SameCut(addr, page.vaddr, m);
    }
  }

  predicate AllPageSized(large: set<LargePage>) {
    forall l :: l in large ==> PageSized(l.size)
  }

  lemma WithinCut(m: Addr, x: Addr, y: Addr)
    ensures Within(m, x) && Within(m, y) ==> Within(m, Cut(x, y))
  {
  }

  lemma SameCut(a: Addr, b: Addr, m: Addr)
    ensures Cut(a, m) == Cut(b, m) ==> !Differ(a, b, m)
  {
  }

  class Tlb {
    const modes: nat
    const main: array2<Entry>
    const victim: array2<Entry>
    var victimIndex: nat
    var flushAddr: Addr
    var flushMask: Addr
    /** Large pages entered since the last full flush. */
    ghost var large: set<LargePage>

    ghost predicate Tables()
      reads this
    {
      && main.Length0 == modes && main.Length1 == TLB_SIZE
      && victim.Length0 == modes && victim.Length1 == VICTIM_SIZE && main != victim
    }

    ghost predicate EntriesOk()
      requires Tables()
      reads this, main, victim
    {
      && (forall m, i | 0 <= m < modes && 0 <= i < TLB_SIZE :: SlotOk(main[m, i], i) && OnePage(main[m, i]))
      && (forall m, k | 0 <= m < modes && 0 <= k < VICTIM_SIZE :: OnePage(victim[m, k]))
    }

    /** Either no large page is known, or the region is page-aligned, covers them all, and no region with a
        larger mask does. */
    ghost predicate RegionOk()
      reads this
    {
      if flushAddr == NONE then large == {} && flushMask == 0
      else HighMask(flushMask) && Cut(flushAddr, flushMask) == flushAddr && Within(flushMask, PAGE_MASK)
           && large != {} && AllPageSized(large) && CoversAll(large, flushAddr, flushMask) && Tightest(large, flushMask)
    }

    ghost predicate Valid()
      reads this, main, victim
    {
      Tables() && EntriesOk() && RegionOk()
    }

    ghost predicate AllEmpty()
      requires Tables()
      reads this, main, victim
    {
      && (forall m, i | 0 <= m < modes && 0 <= i < TLB_SIZE :: main[m, i] == EMPTY)
      && (forall m, k | 0 <= m < modes && 0 <= k < VICTIM_SIZE :: victim[m, k] == EMPTY)
    }

    /** No entry of any mode, in either table, can hit `page`. */
    ghost predicate Absent(page: Addr)
      requires Tables()
      reads this, main, victim
    {
      && (forall m, i | 0 <= m < modes && 0 <= i < TLB_SIZE :: !HasTag(main[m, i], page))
      && (forall m, k | 0 <= m < modes && 0 <= k < VICTIM_SIZE :: !HasTag(victim[m, k], page))
    }

    /** No access of any mode to the page of `addr` is answered from either table. */
    ghost predicate NoHits(addr: Addr)
      requires Tables()
      reads this, main, victim
    {
      && (forall m, i, access, a | 0 <= m < modes && 0 <= i < TLB_SIZE && SamePage(a, addr) :: !Hits(main[m, i], access, a))
      && (forall m, k, access, a | 0 <= m < modes && 0 <= k < VICTIM_SIZE && SamePage(a, addr) :: !Hits(victim[m, k], access, a))
    }

    lemma AbsentNoHits(addr: Addr)
      requires Tables() && Absent(Cut(addr, PAGE_MASK))
      ensures NoHits(addr)
    {
      hide HasTag, Hits, SamePage, PageOf, Cut;
      CutIsPage(addr);
      forall m, i, access, a | 0 <= m < modes && 0 <= i < TLB_SIZE && SamePage(a, addr)
        ensures !Hits(main[m, i], access, a)
      {
        NoTagNoHit(main[m, i], access, addr, a);
      }
      forall m, k, access, a | 0 <= m < modes && 0 <= k < VICTIM_SIZE && SamePage(a, addr)
        ensures !Hits(victim[m, k], access, a)
      {
        NoTagNoHit(victim[m, k], access, addr, a);
      }
    }

    constructor (modes: nat)
      ensures Valid() && AllEmpty() && large == {} && this.modes == modes && fresh(main) && fresh(victim)
    {
      this.modes := modes;
      main := new Entry[modes, TLB_SIZE]((_, _) => EMPTY);
      victim := new Entry[modes, VICTIM_SIZE]((_, _) => EMPTY);
      victimIndex, flushAddr, flushMask, large := 0, NONE, 0, {};
    }

    /** tlb_flush */
    method Flush()
      requires Tables()
      modifies this, main, victim
      ensures Valid() && AllEmpty() && large == {}
    {
      forall m, i | 0 <= m < modes && 0 <= i < TLB_SIZE {
        main[m, i] := EMPTY;
      }
      forall m, k | 0 <= m < modes && 0 <= k < VICTIM_SIZE {
        victim[m, k] := EMPTY;
      }
      victimIndex, flushAddr, flushMask, large := 0, NONE, 0, {};
    }

    lemma EmptyIsAbsent(page: Addr)
      requires Tables() && AllEmpty() && PageAligned(page)
      ensures Absent(page)
    {
    }

    /** tlb_add_large_page: widens the region until it contains the new page too. */
    method AddLargePage(vaddr: Addr, size: Addr)
      requires RegionOk() && PageSized(size)
      modifies this`flushAddr, this`flushMask, this`large
      ensures RegionOk() && large == old(large) + {LargePage(vaddr, size)}
    {
      hide HighMask, PowerOfTwo, Cut, Within, Differ, SizeMask, Doubled, Tightest, RegionCovers;
      var mask := SizeMask(size);
      ghost var page := LargePage(vaddr, size);
      MaskOfSize(size);
      CutTwice(vaddr, mask, mask);
      if flushAddr == NONE {
        AlignedIsNotNone(vaddr, mask);
        WithinSelf(mask);
        CoversMeans(Cut(vaddr, mask), mask, page);
        flushAddr := Cut(vaddr, mask);
        flushMask := mask;
        large := large + {page};
        assert large == {page};
        TightestFirst(page);
        return;
      }
      WithinBoth(mask, flushMask);
      mask := Cut(mask, flushMask);
      var wide := WidenMask(flushAddr, vaddr, mask);
      WithinTransitive(wide, mask, flushMask);
      WithinTransitive(wide, mask, SizeMask(size));
      mask := wide;
      forall l | l in large
        ensures RegionCovers(Cut(flushAddr, mask), mask, l)
      {
        RegionGrows(flushAddr, flushMask, mask, l);
      }
      TightestNext(large, page, flushAddr, flushMask, mask);
      WithinTransitive(mask, flushMask, PAGE_MASK);
      AlignedIsNotNone(flushAddr, mask);
      CutTwice(flushAddr, mask, mask);
      DifferNeedsMask(flushAddr, vaddr, mask);
      CoversMeans(Cut(flushAddr, mask), mask, page);
      flushAddr := Cut(flushAddr, mask);
      flushMask := mask;
      large := large + {page};
    }

    /** tlb_flush_page: afterwards nothing hits the page of `addr`; if `addr` lies in a large page,
        nothing hits any page at all. */
    method FlushPage(addr: Addr)
      requires Valid()
      modifies this, main, victim
      ensures Valid() && Absent(Cut(addr, PAGE_MASK)) && NoHits(addr)
      ensures (exists l :: l in old(large) && InLarge(l, addr)) ==> AllEmpty()
      ensures Cut(addr, old(flushMask)) == old(flushAddr) ==> AllEmpty() && large == {}
      ensures Cut(addr, old(flushMask)) != old(flushAddr) ==> large == old(large)
      ensures Cut(addr, old(flushMask)) != old(flushAddr) ==> forall m, i | 0 <= m < modes && 0 <= i < TLB_SIZE ::
                main[m, i] == Flushed(old(main[m, i]), Cut(addr, PAGE_MASK))
      ensures Cut(addr, old(flushMask)) != old(flushAddr) ==> forall m, k | 0 <= m < modes && 0 <= k < VICTIM_SIZE ::
                victim[m, k] == Flushed(old(victim[m, k]), Cut(addr, PAGE_MASK))
    {
      hide Cut, Within, HighMask, InLarge, NoHits;
      PageCut(addr);
      if Cut(addr, flushMask) == flushAddr {
        Flush();
        EmptyIsAbsent(Cut(addr, PAGE_MASK));
        AbsentNoHits(addr);
        return;
      }
      NoneInLarge(addr);
      FlushTables(Cut(addr, PAGE_MASK));
      AbsentNoHits(addr);
    }

    /** An address outside the region lies in no large page. */
    lemma NoneInLarge(addr: Addr)
      requires RegionOk() && Cut(addr, flushMask) != flushAddr
      ensures forall l :: l in large ==> !InLarge(l, addr)
    {
      hide Cut, Within, HighMask, InLarge, Tightest;
      forall l | l in large
        ensures !InLarge(l, addr)
      {
        assert flushAddr != NONE ==> RegionCovers(flushAddr, flushMask, l);
      }
    }

    /** The loops of tlb_flush_page: one slot of the main table and the whole victim table. */
    method FlushTables(page: Addr)
      requires Tables() && EntriesOk() && PageAligned(page)
      modifies main, victim
      ensures EntriesOk() && Absent(page)
      ensures forall m, i | 0 <= m < modes && 0 <= i < TLB_SIZE :: main[m, i] == Flushed(old(main[m, i]), page)
      ensures forall m, k | 0 <= m < modes && 0 <= k < VICTIM_SIZE :: victim[m, k] == Flushed(old(victim[m, k]), page)
    {
      hide HasTag, SlotOk, OnePage, Flushed, PageAligned, Index, PageOf;
      EmptyEntry();
      var i := Index(page);
      for m := 0 to modes
        invariant forall n, j | 0 <= n < modes && 0 <= j < TLB_SIZE ::
                    main[n, j] == if n < m && j == i then Flushed(old(main[n, j]), page) else old(main[n, j])
        invariant forall n, k | 0 <= n < modes && 0 <= k < VICTIM_SIZE :: victim[n, k] == old(victim[n, k])
      {
        main[m, i] := Flushed(main[m, i], page);
      }
      for m := 0 to modes
        invariant forall n, j | 0 <= n < modes && 0 <= j < TLB_SIZE ::
                    main[n, j] == if j == i then Flushed(old(main[n, j]), page) else old(main[n, j])
        invariant forall n, k | 0 <= n < modes && 0 <= k < VICTIM_SIZE ::
                    victim[n, k] == if n < m then Flushed(old(victim[n, k]), page) else old(victim[n, k])
      {
        for k := 0 to VICTIM_SIZE
          invariant forall n, j | 0 <= n < modes && 0 <= j < TLB_SIZE ::
                      main[n, j] == if j == i then Flushed(old(main[n, j]), page) else old(main[n, j])
          invariant forall n, l | 0 <= n < modes && 0 <= l < VICTIM_SIZE ::
                      victim[n, l] == if n < m || (n == m && l < k) then Flushed(old(victim[n, l]), page) else old(victim[n, l])
        {
          victim[m, k] := Flushed(victim[m, k], page);
        }
      }
      forall n, j | 0 <= n < modes && 0 <= j < TLB_SIZE
        ensures !HasTag(main[n, j], page) && SlotOk(main[n, j], j) && OnePage(main[n, j])
        ensures main[n, j] == Flushed(old(main[n, j]), page)
      {
        FlushedSlot(old(main[n, j]), j, page);
      }
      forall n, k | 0 <= n < modes && 0 <= k < VICTIM_SIZE
        ensures !HasTag(victim[n, k], page) && OnePage(victim[n, k])
      {
        FlushedVictim(old(victim[n, k]), page);
      }
    }

    /** The table update of tlb_set_page_with_attrs: the old entry moves to the victim table. Tags are
        the page with flag bits, or NONE. */
    method SetPage(vaddr: Addr, size: Addr, mode: nat, entry: Entry)
      requires Valid() && mode < modes && PageAligned(vaddr) && PageSized(size)
      requires TagFor(entry.read, vaddr) && TagFor(entry.write, vaddr) && TagFor(entry.code, vaddr)
      modifies this, main, victim
      ensures Valid() && main[mode, Index(vaddr)] == entry && victimIndex == old(victimIndex) + 1
      ensures forall access, a | SamePage(a, vaddr) :: Hits(main[mode, Index(a)], access, a) <==> TagOf(entry, access) != NONE
      ensures large == old(large) + if size != 0x1000 then {LargePage(vaddr, size)} else {}
      ensures forall m, k | 0 <= m < modes && 0 <= k < VICTIM_SIZE :: victim[m, k] ==
                if m == mode && k == old(victimIndex) % VICTIM_SIZE then old(main[mode, Index(vaddr)]) else old(victim[m, k])
      ensures forall m, i | 0 <= m < modes && 0 <= i < TLB_SIZE && !(m == mode && i == Index(vaddr)) :: main[m, i] == old(main[m, i])
    {
      hide HighMask, PowerOfTwo, Cut, Within, Differ, SizeMask, Doubled, PageAligned, SlotOk, OnePage, TagFor, Index,
           PageOf, RegionCovers, SamePage, Hits, TagOf;
      var k := victimIndex % VICTIM_SIZE;
      victimIndex := victimIndex + 1;
      if size != 0x1000 {
        AddLargePage(vaddr, size);
      }
      var index := Index(vaddr);
      NewEntryOk(vaddr, entry);
      victim[mode, k] := main[mode, index];
      main[mode, index] := entry;
      forall access, a | SamePage(a, vaddr)
        ensures Hits(main[mode, Index(a)], access, a) <==> TagOf(entry, access) != NONE
      {
        SetHits(entry, vaddr, access, a);
      }
    }

    /** VICTIM_TLB_HIT: a victim entry whose tag for some access is exactly the page changes places with
        the main entry of the page's slot. */
    method SwapVictim(page: Addr, mode: nat, k: nat)
      requires Valid() && mode < modes && k < VICTIM_SIZE && PageAligned(page)
      requires victim[mode, k].read == page || victim[mode, k].write == page || victim[mode, k].code == page
      modifies main, victim
      ensures Valid()
      ensures main[mode, Index(page)] == old(victim[mode, k]) && victim[mode, k] == old(main[mode, Index(page)])
      ensures forall m, i | 0 <= m < modes && 0 <= i < TLB_SIZE && !(m == mode && i == Index(page)) :: main[m, i] == old(main[m, i])
      ensures forall m, j | 0 <= m < modes && 0 <= j < VICTIM_SIZE && !(m == mode && j == k) :: victim[m, j] == old(victim[m, j])
    {
      hide HighMask, Cut, Within, PageAligned, SlotOk, OnePage, Index, PageOf;
      var index := Index(page);
      HitBelongs(victim[mode, k], page);
      main[mode, index], victim[mode, k] := victim[mode, k], main[mode, index];
    }
  }

  /** The page with some flag bits other than the invalid one, or no tag. */
  predicate TagFor(tag: Addr, page: Addr) {
    tag == NONE || (tag & PAGE_MASK == page && tag & INVALID == 0)
  }

  /** A new entry is hit by exactly the allowed accesses to its page, in the slot they look at. */
  lemma SetHits(e: Entry, page: Addr, access: Access, a: Addr)
    requires PageAligned(page) && TagFor(e.read, page) && TagFor(e.write, page) && TagFor(e.code, page) && SamePage(a, page)
    ensures Index(a) == Index(page) && (Hits(e, access, a) <==> TagOf(e, access) != NONE)
  {
    hide SamePage, TagFor, Index, PageOf, TagIs, PageAligned;
    SamePageMask(a, page);
    SamePageIndex(a, page);
    PageOfPage(page);
    if TagOf(e, access) != NONE {
      TagHits(TagOf(e, access), page);
    }
    EmptyTag(page);
  }

  lemma PageOfPage(page: Addr)
    requires PageAligned(page)
    ensures PageOf(page) == page
  {
  }

  lemma TagHits(tag: Addr, page: Addr)
    requires TagFor(tag, page) && tag != NONE
    ensures TagIs(tag, page)
  {
  }

  lemma EmptyTag(page: Addr)
    requires PageAligned(page)
    ensures !TagIs(NONE, page)
  {
  }

  lemma NewEntryOk(vaddr: Addr, e: Entry)
    requires PageAligned(vaddr) && TagFor(e.read, vaddr) && TagFor(e.write, vaddr) && TagFor(e.code, vaddr)
    ensures SlotOk(e, Index(vaddr)) && OnePage(e)
  {
    hide TagFor, Index, PageOf, PageAligned;
    TagForIndex(e.read, vaddr);
    TagForIndex(e.write, vaddr);
    TagForIndex(e.code, vaddr);
  }

  lemma TagForIndex(tag: Addr, page: Addr)
    requires TagFor(tag, page)
    ensures tag == NONE || (Index(tag) == Index(page) && PageOf(tag) == page)
  {
    TagForBits(tag, page);
    hide IndexBits, Index;
    if tag != NONE {
      SameBits(tag, page);
    }
  }

  lemma SameBits(a: Addr, b: Addr)
    requires IndexBits(a) == IndexBits(b)
    ensures Index(a) == Index(b)
  {
    hide IndexBits;
  }

  lemma TagForBits(tag: Addr, page: Addr)
    requires TagFor(tag, page)
    ensures tag == NONE || IndexBits(tag) == IndexBits(page)
  {
  }

  /** All tags of an entry with a tag for `page` belong to the slot of `page`. */
  lemma HitBelongs(e: Entry, page: Addr)
    requires OnePage(e) && PageAligned(page) && (e.read == page || e.write == page || e.code == page)
    ensures SlotOk(e, Index(page))
  {
    hide Index, PageOf, PageAligned;
    SamePageIndex(e.read, page);
    SamePageIndex(e.write, page);
    SamePageIndex(e.code, page);
  }

  lemma SamePageIndex(a: Addr, b: Addr)
    ensures PageOf(a) == PageOf(b) ==> Index(a) == Index(b)
    ensures PageAligned(b) ==> b != NONE
  {
    SamePageBits(a, b);
    hide IndexBits;
  }

  lemma SamePageBits(a: Addr, b: Addr)
    ensures a & PAGE_MASK == b & PAGE_MASK ==> IndexBits(a) == IndexBits(b)
  {
  }

  lemma CutIsPage(a: Addr)
    ensures Cut(a, PAGE_MASK) == PageOf(a)
  {
  }

  lemma PageCut(a: Addr)
    ensures PageAligned(Cut(a, PAGE_MASK))
  {
  }

  lemma EmptyEntry()
    ensures forall i: nat :: SlotOk(EMPTY, i)
    ensures OnePage(EMPTY)
  {
    hide Index, PageOf;
    forall i: nat
      ensures SlotOk(EMPTY, i)
    {
      assert EMPTY.read == NONE && EMPTY.write == NONE && EMPTY.code == NONE;
    }
  }

  lemma FlushedSlot(e: Entry, j: nat, page: Addr)
    requires SlotOk(e, j) && OnePage(e) && PageAligned(page)
    ensures var r := if j == Index(page) then Flushed(e, page) else e;
      !HasTag(r, page) && SlotOk(r, j) && OnePage(r) && r == Flushed(e, page)
  {
    if HasTag(e, page) {
      TagInSlot(e, j, page);
    }
  }

  lemma FlushedVictim(e: Entry, page: Addr)
    requires OnePage(e) && PageAligned(page)
    ensures var r := Flushed(e, page); !HasTag(r, page) && OnePage(r) && (r == EMPTY || r == e)
  {
  }

  /** The loop of tlb_add_large_page: drops low bits until the two addresses agree. */
  method WidenMask(a: Addr, b: Addr, start: Addr) returns (mask: Addr)
    requires HighMask(start)
    ensures HighMask(mask) && Within(mask, start) && !Differ(a, b, mask)
    ensures forall m: Addr :: HighMask(m) && Within(m, start) && !Differ(a, b, m) ==> Within(m, mask)
  {
    hide HighMask, Within, Differ, Doubled;
    mask := start;
    WithinSelf(start);
    while Differ(a, b, mask)
      invariant HighMask(mask) && Within(mask, start)
      invariant forall m: Addr :: HighMask(m) && Within(m, start) && !Differ(a, b, m) ==> Within(m, mask)
      decreases mask
    {
      forall m: Addr | HighMask(m) && Within(m, start) && !Differ(a, b, m)
        ensures Within(m, Doubled(mask))
      {
        NextMask(m, mask);
      }
      Widen(mask);
      WithinTransitive(Doubled(mask), mask, start);
      DifferNeedsMask(a, b, mask);
      mask := Doubled(mask);
    }
  }

  lemma WithinSelf(m: Addr)
    ensures Within(m, m)
  {
  }
}
