/** The dispatch table as the memory map that the access loop works on: the two halves of an access, finding
    the section of an address and reading or writing through it, meet here. */
module DispatchSpace {
  import opened Basics
  import D = AddressDispatch
  import M = MemoryAccess

  /** Accesses to no region in particular, and to addresses that do not exist, go to a device. */
  const NOWHERE := M.Region(false, false, false, 0, 0, 0, false)

  /** The properties of the regions a caller maps, by number. */
  type Regions = nat -> M.Region

  function RegionOf(mr: D.Region, regions: Regions): M.Region {
    if mr.Device? then regions(mr.id) else NOWHERE
  }

  function SectionOf(s: D.Section, regions: Regions): M.Section {
    M.Section(s.asOffset, s.size, s.regionOffset, RegionOf(s.mr, regions))
  }

  /** The section that a lookup with subpage resolution gives each address. */
  ghost function SpaceOf(d: D.Dispatch, regions: Regions): M.Space
    reads d, d.table
  {
    var view, sections, pages := d.table.view, d.sections, d.pages;
    (a: nat) =>
      var n := D.Resolve(sections, pages, view(a / PAGE_SIZE), a);
      if a < D.ADDRESS_LIMIT && n < |sections| then SectionOf(sections[n], regions)
      else M.Section(D.ADDRESS_LIMIT, a + 1, 0, NOWHERE)
  }

  /** Regions take accesses of the usual sizes, and what is mapped of RAM and ROM devices lies in its block. */
  ghost predicate RegionsOk(regions: Regions, flat: D.Flat, ramSize: nat) {
    && (forall id: nat :: M.MaxAccessOk(regions(id)))
    && (forall a: nat | flat(a).Mapped? && flat(a).mr.Device? && HasRam(regions(flat(a).mr.id)) ::
          regions(flat(a).mr.id).ramAddr + flat(a).offset < regions(flat(a).mr.id).ramEnd <= ramSize)
  }

  predicate HasRam(r: M.Region) {
    r.isRam || r.romd
  }

  /** At a mapped address the space gives the region and the offset that the flat map gives. */
  lemma SpaceMeans(d: D.Dispatch, regions: Regions, a: nat)
    requires d.Ready() && a < D.ADDRESS_LIMIT
    ensures M.Covers(SpaceOf(d, regions)(a), a)
    ensures d.flat(a).Mapped? ==>
      SpaceOf(d, regions)(a).region == RegionOf(d.flat(a).mr, regions) && M.Xlat(SpaceOf(d, regions), a) == d.flat(a).offset
    ensures d.flat(a).Unmapped? ==> SpaceOf(d, regions)(a).region == NOWHERE
  {
    LookedUp(d, a);
  }

  lemma LookedUp(d: D.Dispatch, a: nat)
    requires d.Ready() && a < D.ADDRESS_LIMIT
    ensures var n := D.Resolve(d.sections, d.pages, d.table.view(a / PAGE_SIZE), a);
      && n < |d.sections| && !d.sections[n].mr.Subpage?
      && D.Meaning(d.sections[n], a) == d.flat(a) && D.Holds(d.sections[n], a)
      && (n < D.FIXED_SECTIONS ==> !d.sections[n].mr.Device?)
  {
    assert D.AddrOk(d.table.view, d.sections, d.pages, d.flat, a);
    var n := D.Resolve(d.sections, d.pages, d.table.view(a / PAGE_SIZE), a);
    if n < D.FIXED_SECTIONS {
      assert d.sections[n] == d.sections[..D.FIXED_SECTIONS][n];
    } else if d.sections[n].size >= D.ADDRESS_LIMIT {
      assert D.Holds(d.sections[n], d.sections[n].asOffset + d.sections[n].size - 1);
      assert D.FoundAt(d.table.view, d.sections, d.pages, n, d.sections[n].asOffset + d.sections[n].size - 1);
    }
  }

  /** A section of RAM is the section of all the addresses it holds, and lies in its block of RAM as a whole. */
  lemma RamSection(d: D.Dispatch, regions: Regions, ramSize: nat, a: nat)
    requires d.Ready() && a < D.ADDRESS_LIMIT && RegionsOk(regions, d.flat, ramSize)
    requires HasRam(SpaceOf(d, regions)(a).region)
    ensures var s := SpaceOf(d, regions)(a);
      && s.region.ramAddr + s.regionOffset + s.size <= s.region.ramEnd <= ramSize
      && forall b: nat | M.Covers(s, b) :: SpaceOf(d, regions)(b) == s
  {
    LookedUp(d, a);
    var n := D.Resolve(d.sections, d.pages, d.table.view(a / PAGE_SIZE), a);
    var sec := d.sections[n];
    var s := SpaceOf(d, regions)(a);
    forall b: nat | M.Covers(s, b)
      ensures SpaceOf(d, regions)(b) == s && b < D.ADDRESS_LIMIT && d.flat(b) == D.Meaning(sec, b)
    {
      assert D.Holds(d.sections[n], b) && D.FoundAt(d.table.view, d.sections, d.pages, n, b);
      LookedUp(d, b);
    }
    var last := sec.asOffset + sec.size - 1;
    assert M.Covers(s, last);
    assert d.flat(last) == D.Mapped(sec.mr, last - sec.asOffset + sec.regionOffset);
  }

  /** Every dispatch table that lookups may use is a memory map of the kind the access loop needs. */
  lemma DispatchGivesSpace(d: D.Dispatch, regions: Regions, ramSize: nat)
    requires d.Ready() && RegionsOk(regions, d.flat, ramSize)
    ensures M.SpaceOk(SpaceOf(d, regions), ramSize)
  {
    forall a: nat
      ensures M.SectionOk(SpaceOf(d, regions), ramSize, a)
    {
      if a < D.ADDRESS_LIMIT {
        LookedUp(d, a);
        if HasRam(SpaceOf(d, regions)(a).region) {
          RamSection(d, regions, ramSize, a);
        }
      }
    }
  }

  /** From the flat list of an address space to an access: what is written to RAM through the map that was
      built from the list is read back through it. */
  lemma WrittenThroughList(d: D.Dispatch, regions: Regions, list: seq<D.Section>, ram: seq<M.Byte>, behind: M.Behind,
                           answers: M.Answers, a: nat, buf: seq<M.Byte>)
    requires d.Ready() && (forall x: nat :: d.flat(x) == D.ListMeaning(list, x)) && RegionsOk(regions, d.flat, |ram|)
    requires a + |buf| <= D.ADDRESS_LIMIT && M.AnswersOk(answers) && M.NoAlias(SpaceOf(d, regions), a, |buf|)
    requires forall x: nat | a <= x < a + |buf| :: InList(list, regions, x)
    ensures M.SpaceOk(SpaceOf(d, regions), |ram|)
    ensures M.ChunkRead(SpaceOf(d, regions), M.ChunkWrite(SpaceOf(d, regions), ram, a, buf), behind, answers, a, |buf|) == buf
  {
    DispatchGivesSpace(d, regions, |ram|);
    forall x: nat | a <= x < a + |buf|
      ensures SpaceOf(d, regions)(x).region.isRam && !SpaceOf(d, regions)(x).region.readonly
    {
      assert InList(list, regions, x);
      SpaceMeans(d, regions, x);
    }
    M.WriteThenRead(SpaceOf(d, regions), ram, behind, answers, a, buf);
  }

  /** The list gives the address to writable RAM. */
  predicate InList(list: seq<D.Section>, regions: Regions, x: nat) {
    var t := D.ListMeaning(list, x);
    t.Mapped? && t.mr.Device? && regions(t.mr.id).isRam && !regions(t.mr.id).readonly
  }
}
