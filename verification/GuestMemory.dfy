/** The snapshot of guest RAM that dumps work from: blocks of guest-physical memory with the host
    memory behind them, and the mappings that become program headers. */
module GuestMemory {
  import opened Basics
  import SeqFacts

  type Byte = bv8

  /** [start, end) of guest-physical memory, backed by host memory from `host` on. */
  datatype Block = Block(start: nat, end: nat, host: int)

  predicate Contains(b: Block, a: nat) {
    b.start <= a < b.end
  }

  /** The host address of a guest-physical address. */
  function HostOf(blocks: seq<Block>, a: nat): Option<int> {
    if blocks == [] then None
    else if Contains(blocks[0], a) then Some(blocks[0].host + (a - blocks[0].start))
    else HostOf(blocks[1..], a)
  }

  /** Blocks are not empty, and ascend without overlap. */
  predicate Ascending(blocks: seq<Block>) {
    && (forall i | 0 <= i < |blocks| :: blocks[i].start < blocks[i].end)
    && (forall i, j | 0 <= i < j < |blocks| :: blocks[i].end <= blocks[j].start)
  }

  lemma {:induction false} HostOfBlock(blocks: seq<Block>, i: nat, a: nat)
    requires Ascending(blocks) && i < |blocks| && Contains(blocks[i], a)
    ensures HostOf(blocks, a) == Some(blocks[i].host + (a - blocks[i].start))
  {
    if i > 0 {
      assert !Contains(blocks[0], a);
      HostOfBlock(blocks[1..], i - 1, a);
    }
  }

  lemma {:induction false} HostOfNone(blocks: seq<Block>, a: nat)
    requires forall i | 0 <= i < |blocks| :: !Contains(blocks[i], a)
    ensures HostOf(blocks, a) == None
  {
    if blocks != [] {
      HostOfNone(blocks[1..], a);
    }
  }

  /** A part of an address space as the memory API reports it. */
  datatype RamSection = RamSection(isRam: bool, skipDump: bool, start: nat, size: nat, host: int)

  /** The section goes on where the last block ends, in guest and in host memory. */
  predicate Continues(blocks: seq<Block>, s: RamSection) {
    blocks != [] && var b := blocks[|blocks| - 1]; b.end == s.start && b.host + (b.end - b.start) == s.host
  }

  class GuestPhysBlocks {
    var blocks: seq<Block>

    constructor ()
      ensures blocks == []
    {
      blocks := [];
    }

    /** guest_phys_blocks_region_add: a RAM section extends the map; one that continues the last
        block in guest and host memory grows it. Sections arrive in ascending order. */
    method RegionAdd(s: RamSection)
      requires Ascending(blocks) && s.size > 0
      requires s.isRam && !s.skipDump && blocks != [] ==> blocks[|blocks| - 1].end <= s.start
      modifies this
      ensures Ascending(blocks)
      ensures !s.isRam || s.skipDump ==> blocks == old(blocks)
      ensures s.isRam && !s.skipDump ==> blocks != [] && blocks[|blocks| - 1].end == s.start + s.size
      ensures s.isRam && !s.skipDump ==> |blocks| == |old(blocks)| + if Continues(old(blocks), s) then 0 else 1
      ensures s.isRam && !s.skipDump ==> forall a: nat ::
                HostOf(blocks, a) == if s.start <= a < s.start + s.size then Some(s.host + (a - s.start)) else HostOf(old(blocks), a)
    {
      if !s.isRam || s.skipDump {
        return;
      }
      var last := |blocks| - 1;
      if last >= 0 && blocks[last].end == s.start && blocks[last].host + (blocks[last].end - blocks[last].start) == s.host {
        blocks := blocks[last := blocks[last].(end := s.start + s.size)];
      } else {
        blocks := blocks + [Block(s.start, s.start + s.size, s.host)];
      }
      forall a: nat
        ensures HostOf(blocks, a) == if s.start <= a < s.start + s.size then Some(s.host + (a - s.start)) else HostOf(old(blocks), a)
      {
        AddedHost(old(blocks), blocks, s, a);
      }
    }
  }

  lemma AddedHost(before: seq<Block>, after: seq<Block>, s: RamSection, a: nat)
    requires Ascending(before) && Ascending(after) && s.size > 0
    requires before != [] ==> before[|before| - 1].end <= s.start
    requires
      || after == before + [Block(s.start, s.start + s.size, s.host)]
      || (before != [] && var last := |before| - 1;
          && before[last].end == s.start && before[last].host + (before[last].end - before[last].start) == s.host
          && after == before[last := before[last].(end := s.start + s.size)])
    ensures HostOf(after, a) == if s.start <= a < s.start + s.size then Some(s.host + (a - s.start)) else HostOf(before, a)
  {
    hide HostOf;
    if s.start <= a < s.start + s.size {
      HostOfBlock(after, |after| - 1, a);
    } else if i :| 0 <= i < |before| && Contains(before[i], a) {
      HostOfBlock(before, i, a);
      HostOfBlock(after, i, a);
    } else {
      HostOfNone(before, a);
      HostOfNone(after, a);
    }
  }

  /** The part of guest memory to dump. */
  datatype Filter = Everything | Range(begin: nat, length: nat)

  /** The block lies outside the filter. */
  predicate OutOfRange(b: Block, f: Filter) {
    f.Range? && (b.start >= f.begin + f.length || b.end <= f.begin)
  }

  /** First and last address of the part of a block inside the filter. */
  function ClipLo(b: Block, f: Filter): nat {
    if f.Range? && f.begin > b.start then f.begin else b.start
  }

  function ClipHi(b: Block, f: Filter): nat {
    if f.Range? && f.begin + f.length < b.end then f.begin + f.length else b.end
  }

  datatype Mapping = Mapping(phys: nat, virt: nat, length: nat)

  /** One mapping per block: what is dumped when the guest's page tables are not consulted. */
  function SimpleMappings(blocks: seq<Block>): seq<Mapping> {
    if blocks == [] then []
    else [Mapping(blocks[0].start, 0, if blocks[0].end >= blocks[0].start then blocks[0].end - blocks[0].start else 0)]
         + SimpleMappings(blocks[1..])
  }

  /** The mapping cut down to [begin, begin + length); None when nothing is left of it. */
  function Cut(m: Mapping, begin: nat, length: nat): Option<Mapping> {
    if m.phys >= begin + length || m.phys + m.length <= begin then None
    else
      var lo := if m.phys < begin then begin else m.phys;
      var hi := if m.phys + m.length > begin + length then begin + length else m.phys + m.length;
      Some(Mapping(lo, if m.phys < begin && m.virt != 0 then m.virt + (begin - m.phys) else m.virt, hi - lo))
  }

  function CutAll(list: seq<Mapping>, begin: nat, length: nat): seq<Mapping> {
    if list == [] then []
    else
      var first := Cut(list[0], begin, length);
      (if first.Some? then [first.value] else []) + CutAll(list[1..], begin, length)
  }

  /** The virtual addresses that a list gives a physical address, in order; 0 stands for none. */
  function Translations(list: seq<Mapping>, a: nat): seq<nat> {
    if list == [] then [] else Translated(list[0], a) + Translations(list[1..], a)
  }

  function Translated(m: Mapping, a: nat): seq<nat> {
    if m.phys <= a < m.phys + m.length then [if m.virt == 0 then 0 else m.virt + (a - m.phys)] else []
  }

  /** Filtering a list keeps every translation of the addresses inside the filter and drops all others. */
  lemma {:induction false} CutAllMeans(list: seq<Mapping>, begin: nat, length: nat, a: nat)
    ensures Translations(CutAll(list, begin, length), a) ==
            if begin <= a < begin + length then Translations(list, a) else []
  {
    if list != [] {
      hide Translated;
      var first := Cut(list[0], begin, length);
      CutMeans(list[0], begin, length, a);
      CutAllMeans(list[1..], begin, length, a);
      if first.Some? {
        assert CutAll(list, begin, length)[1..] == CutAll(list[1..], begin, length);
      } else {
        assert CutAll(list, begin, length) == CutAll(list[1..], begin, length);
      }
    }
  }

  lemma CutMeans(m: Mapping, begin: nat, length: nat, a: nat)
    ensures var r := Cut(m, begin, length);
      (if r.Some? then Translated(r.value, a) else []) == if begin <= a < begin + length then Translated(m, a) else []
  {
  }

  lemma {:induction false} CutAllSplit(a: seq<Mapping>, m: Mapping, begin: nat, length: nat)
    ensures CutAll(a + [m], begin, length) ==
            CutAll(a, begin, length) + if Cut(m, begin, length).Some? then [Cut(m, begin, length).value] else []
  {
    if a == [] {
      assert CutAll([m][1..], begin, length) == [];
    } else {
      assert (a + [m])[1..] == a[1..] + [m];
      CutAllSplit(a[1..], m, begin, length);
    }
  }

  /** One round of the loop over a list whose part before `done` has become `kept`. */
  lemma CutStep(orig: seq<Mapping>, done: nat, kept: seq<Mapping>, begin: nat, length: nat)
    requires done < |orig| && kept == CutAll(orig[..done], begin, length)
    ensures var list, i, r := kept + orig[done..], |kept|, Cut(orig[done], begin, length);
      && list[i] == orig[done]
      && (r.None? ==> kept == CutAll(orig[..done + 1], begin, length) && list[..i] + list[i + 1..] == kept + orig[done + 1..])
      && (r.Some? ==> kept + [r.value] == CutAll(orig[..done + 1], begin, length)
                      && list[i := r.value] == (kept + [r.value]) + orig[done + 1..])
  {
    hide CutAll, Cut;
    var r := Cut(orig[done], begin, length);
    CutAllSplit(orig[..done], orig[done], begin, length);
    SeqFacts.TakeNext(orig, done);
    SeqFacts.DropFirst(kept, orig[done..]);
    if r.Some? {
      SeqFacts.ReplaceFirst(kept, orig[done..], r.value);
    }
  }

  class MappingList {
    var list: seq<Mapping>

    constructor (list: seq<Mapping>)
      ensures this.list == list
    {
      this.list := list;
    }

    /** memory_mapping_filter: what is left of the list translates the addresses inside the filter as
        before, and no others. */
    method Filter(begin: nat, length: nat)
      modifies this
      ensures list == CutAll(old(list), begin, length)
      ensures forall a: nat :: Translations(list, a) == if begin <= a < begin + length then Translations(old(list), a) else []
    {
      CutList(begin, length);
      forall a: nat
        ensures Translations(list, a) == if begin <= a < begin + length then Translations(old(list), a) else []
      {
        CutAllMeans(old(list), begin, length, a);
      }
    }

    /** Its loop: clips every mapping in place and removes those outside. */
    method CutList(begin: nat, length: nat)
      modifies this
      ensures list == CutAll(old(list), begin, length)
    {
      hide CutAll, Cut;
      var i := 0;
      ghost var orig, done, kept := list, 0, [];
      CutNothing(begin, length);
      assert orig[..0] == [] && orig[0..] == orig && [] + orig == orig;
      while i < |list|
        invariant 0 <= done <= |orig| && i == |kept|
        invariant list == kept + orig[done..]
        invariant kept == CutAll(orig[..done], begin, length)
        decreases |orig| - done
      {
        CutStep(orig, done, kept, begin, length);
        var r := CutOne(list[i], begin, length);
        if r.None? {
          list := list[..i] + list[i + 1..];
        } else {
          list := list[i := r.value];
          i := i + 1;
          kept := kept + [r.value];
        }
        done := done + 1;
      }
      assert orig[..done] == orig;
    }

    /** The clipping of one mapping, field by field. */
    method CutOne(m: Mapping, begin: nat, length: nat) returns (r: Option<Mapping>)
      ensures r == Cut(m, begin, length)
    {
      var cur := m;
      if cur.phys >= begin + length || cur.phys + cur.length <= begin {
        return None;
      }
      if cur.phys < begin {
        cur := cur.(length := cur.length - (begin - cur.phys),
                    virt := if cur.virt != 0 then cur.virt + (begin - cur.phys) else cur.virt,
                    phys := begin);
      }
      if cur.phys + cur.length > begin + length {
        cur := cur.(length := cur.length - (cur.phys + cur.length - begin - length));
      }
      r := Some(cur);
    }
  }

  lemma CutNothing(begin: nat, length: nat)
    ensures CutAll([], begin, length) == []
  {
  }
}
