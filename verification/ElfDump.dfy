/** The ELF core of a guest: headers whose file offsets are computed by one piece of code, and
    memory written by another. They agree on where every byte lands. */
module ElfDump {
  import opened Basics
  import opened GuestMemory
  import SeqFacts

  type Memory = int -> Byte

  function Bytes(mem: Memory, host: int, n: nat): (s: seq<Byte>)
    ensures |s| == n
  {
    seq(n, i => mem(host + i))
  }

  predicate WellFormed(b: Block) {
    b.start < b.end
  }

  /** How much of a block lies inside the filter. */
  function ClipSize(b: Block, f: Filter): (n: nat)
    requires WellFormed(b)
    ensures !OutOfRange(b, f) ==> n == ClipHi(b, f) - ClipLo(b, f)
  {
    if OutOfRange(b, f) then 0 else ClipHi(b, f) - ClipLo(b, f)
  }

  /** The bytes of the part of a block inside the filter. */
  function BlockBytes(b: Block, f: Filter, mem: Memory): seq<Byte>
    requires WellFormed(b)
  {
    Bytes(mem, b.host + (ClipLo(b, f) - b.start), ClipSize(b, f))
  }

  /** Everything that is dumped, in file order. */
  function DumpBytes(blocks: seq<Block>, f: Filter, mem: Memory): seq<Byte>
    requires forall i | 0 <= i < |blocks| :: WellFormed(blocks[i])
  {
    if blocks == [] then [] else BlockBytes(blocks[0], f, mem) + DumpBytes(blocks[1..], f, mem)
  }

  /** p_offset (None for -1) and p_filesz of a mapping. */
  datatype Located = Located(offset: Option<nat>, filesz: nat)

  function LocateIn(blocks: seq<Block>, f: Filter, offset: nat, phys: nat, length: nat): Located
    requires forall i | 0 <= i < |blocks| :: WellFormed(blocks[i])
  {
    if blocks == [] then Located(None, 0)
    else if OutOfRange(blocks[0], f) then LocateIn(blocks[1..], f, offset, phys, length)
    else
      var lo, hi := ClipLo(blocks[0], f), ClipHi(blocks[0], f);
      if lo <= phys < hi then Located(Some(phys - lo + offset), if phys + length <= hi then length else hi - phys)
      else LocateIn(blocks[1..], f, offset + ClipSize(blocks[0], f), phys, length)
  }

  function Locate(blocks: seq<Block>, f: Filter, offset: nat, phys: nat, length: nat): Located
    requires forall i | 0 <= i < |blocks| :: WellFormed(blocks[i])
  {
    if f.Range? && (phys < f.begin || phys >= f.begin + f.length) then Located(None, 0)
    else LocateIn(blocks, f, offset, phys, length)
  }

  /** A guest-physical address that the filter lets through. */
  predicate Wanted(f: Filter, a: nat) {
    f.Range? ==> f.begin <= a < f.begin + f.length
  }

  /** The part of the file that a program header claims for [phys, phys + filesz) holds exactly
      those guest bytes. */
  ghost predicate Holds(data: seq<Byte>, blocks: seq<Block>, mem: Memory, at: nat, phys: nat, filesz: nat) {
    && at + filesz <= |data|
    && forall j | 0 <= j < filesz :: HoldsByte(data, blocks, mem, at, phys, j)
  }

  ghost predicate HoldsByte(data: seq<Byte>, blocks: seq<Block>, mem: Memory, at: nat, phys: nat, j: nat) {
    && at + j < |data| && HostOf(blocks, phys + j).Some?
    && data[at + j] == mem(HostOf(blocks, phys + j).value)
  }

  /** Both addresses lie in one block. */
  ghost predicate SameBlock(blocks: seq<Block>, a: nat, b: nat) {
    exists i :: 0 <= i < |blocks| && Contains(blocks[i], a) && Contains(blocks[i], b)
  }

  /** `r` is right for [phys, phys + length) in a file whose memory part starts at `offset`: it is
      cut short only at the end of the filter or of the block. */
  ghost predicate Right(r: Located, blocks: seq<Block>, f: Filter, data: seq<Byte>, mem: Memory, offset: nat, phys: nat, length: nat) {
    if r.offset.None? then r.filesz == 0 && HostOf(blocks, phys) == None
    else
      && r.offset.value >= offset && r.filesz <= length
      && Holds(data, blocks, mem, r.offset.value - offset, phys, r.filesz)
      && (r.filesz < length ==> !Wanted(f, phys + r.filesz) || !SameBlock(blocks, phys, phys + r.filesz))
  }

  /** What is right for the later blocks is right for all, shifted by the first block's bytes. */
  lemma RightLater(r: Located, blocks: seq<Block>, f: Filter, head: seq<Byte>, tail: seq<Byte>, mem: Memory, offset: nat, phys: nat, length: nat)
    requires Ascending(blocks) && blocks != [] && !Contains(blocks[0], phys)
    requires Right(r, blocks[1..], f, tail, mem, offset + |head|, phys, length)
    ensures Right(r, blocks, f, head + tail, mem, offset, phys, length)
  {
    var rest := blocks[1..];
    if r.offset.Some? {
      var at := r.offset.value - offset;
      forall j | 0 <= j < r.filesz
        ensures HoldsByte(head + tail, blocks, mem, at, phys, j)
      {
        assert HoldsByte(tail, rest, mem, at - |head|, phys, j);
        assert (head + tail)[at + j] == tail[at - |head| + j];
        HostInRest(blocks, phys, phys + j);
      }
      if r.filesz < length && SameBlock(blocks, phys, phys + r.filesz) {
        var i :| 0 <= i < |blocks| && Contains(blocks[i], phys) && Contains(blocks[i], phys + r.filesz);
        assert rest[i - 1] == blocks[i];
      }
    }
  }

  /** An address at or above one that the later blocks hold is not in the first block. */
  lemma HostInRest(blocks: seq<Block>, phys: nat, a: nat)
    requires Ascending(blocks) && blocks != [] && phys <= a && !Contains(blocks[0], phys)
    requires HostOf(blocks[1..], a).Some?
    ensures HostOf(blocks, a) == HostOf(blocks[1..], a)
  {
    HostOfSome(blocks[1..], a);
  }

  lemma HostOfSome(blocks: seq<Block>, a: nat)
    requires HostOf(blocks, a).Some?
    ensures exists i :: 0 <= i < |blocks| && Contains(blocks[i], a)
  {
    if forall i | 0 <= i < |blocks| :: !Contains(blocks[i], a) {
      HostOfNone(blocks, a);
    }
  }

  lemma RightHere(blocks: seq<Block>, f: Filter, mem: Memory, offset: nat, phys: nat, length: nat)
    requires Ascending(blocks) && blocks != [] && !OutOfRange(blocks[0], f)
    requires ClipLo(blocks[0], f) <= phys < ClipHi(blocks[0], f)
    ensures Right(LocateIn(blocks, f, offset, phys, length), blocks, f, DumpBytes(blocks, f, mem), mem, offset, phys, length)
  {
    var b := blocks[0];
    var r := LocateIn(blocks, f, offset, phys, length);
    var data := DumpBytes(blocks, f, mem);
    var at := r.offset.value - offset;
    forall j | 0 <= j < r.filesz
      ensures HoldsByte(data, blocks, mem, at, phys, j)
    {
      HostOfBlock(blocks, 0, phys + j);
      assert data[at + j] == BlockBytes(b, f, mem)[at + j];
    }
  }

  lemma {:induction false} LocateInRight(blocks: seq<Block>, f: Filter, mem: Memory, offset: nat, phys: nat, length: nat)
    requires Ascending(blocks) && Wanted(f, phys)
    ensures Right(LocateIn(blocks, f, offset, phys, length), blocks, f, DumpBytes(blocks, f, mem), mem, offset, phys, length)
    decreases |blocks|
  {
    if blocks != [] {
      var b, rest := blocks[0], blocks[1..];
      var lo, hi := ClipLo(b, f), ClipHi(b, f);
      if !OutOfRange(b, f) && lo <= phys < hi {
        RightHere(blocks, f, mem, offset, phys, length);
      } else {
        var head := BlockBytes(b, f, mem);
        LocateInRight(rest, f, mem, offset + |head|, phys, length);
        RightLater(LocateIn(rest, f, offset + |head|, phys, length), blocks, f, head, DumpBytes(rest, f, mem), mem, offset, phys, length);
      }
    }
  }

  /** For every block list, filter and mapping, the file range that get_offset_range computes
      holds exactly the guest bytes written for that physical range; there is none exactly when
      the address is filtered out or not RAM. */
  lemma LocateRight(blocks: seq<Block>, f: Filter, mem: Memory, offset: nat, phys: nat, length: nat)
    requires Ascending(blocks)
    ensures var r := Locate(blocks, f, offset, phys, length);
      if Wanted(f, phys) then Right(r, blocks, f, DumpBytes(blocks, f, mem), mem, offset, phys, length)
      else r == Located(None, 0)
  {
    if Wanted(f, phys) {
      LocateInRight(blocks, f, mem, offset, phys, length);
    }
  }

  /** Every byte of the dump is that of some wanted address of RAM, and each such address has one byte:
      byte `at` belongs to the result, and is where the result is located. */
  lemma {:induction false} DumpedByte(blocks: seq<Block>, f: Filter, mem: Memory, at: nat) returns (phys: nat)
    requires Ascending(blocks) && at < |DumpBytes(blocks, f, mem)|
    ensures Wanted(f, phys) && HostOf(blocks, phys).Some?
    ensures DumpBytes(blocks, f, mem)[at] == mem(HostOf(blocks, phys).value)
    ensures LocateIn(blocks, f, 0, phys, 1) == Located(Some(at), 1)
    decreases |blocks|
  {
    var head, rest := BlockBytes(blocks[0], f, mem), blocks[1..];
    FirstBytes(blocks, f, mem);
    hide DumpBytes, BlockBytes, HostOf, LocateIn, Wanted, Ascending;
    if at < |head| {
      phys := DumpedHere(blocks, f, mem, at);
    } else {
      phys := DumpedByte(rest, f, mem, at - |head|);
      LocateShift(rest, f, 0, |head|, phys, 1);
      LocateLater(blocks, f, mem, phys);
    }
  }

  lemma FirstBytes(blocks: seq<Block>, f: Filter, mem: Memory)
    requires Ascending(blocks)
    ensures if blocks == [] then DumpBytes(blocks, f, mem) == []
            else Ascending(blocks[1..]) && DumpBytes(blocks, f, mem) == BlockBytes(blocks[0], f, mem) + DumpBytes(blocks[1..], f, mem)
  {
    hide BlockBytes;
  }

  lemma DumpedHere(blocks: seq<Block>, f: Filter, mem: Memory, at: nat) returns (phys: nat)
    requires Ascending(blocks) && blocks != [] && at < |BlockBytes(blocks[0], f, mem)|
    ensures Wanted(f, phys) && HostOf(blocks, phys).Some?
    ensures BlockBytes(blocks[0], f, mem)[at] == mem(HostOf(blocks, phys).value)
    ensures LocateIn(blocks, f, 0, phys, 1) == Located(Some(at), 1)
  {
    phys := ClipLo(blocks[0], f) + at;
    HostOfBlock(blocks, 0, phys);
    hide HostOf;
  }

  lemma LocateLater(blocks: seq<Block>, f: Filter, mem: Memory, phys: nat)
    requires Ascending(blocks) && blocks != [] && HostOf(blocks[1..], phys).Some?
    ensures HostOf(blocks, phys) == HostOf(blocks[1..], phys)
    ensures LocateIn(blocks, f, 0, phys, 1) == LocateIn(blocks[1..], f, |BlockBytes(blocks[0], f, mem)|, phys, 1)
  {
    HostOfSome(blocks[1..], phys);
    var i :| 0 <= i < |blocks[1..]| && Contains(blocks[1..][i], phys);
    assert blocks[1..][i] == blocks[i + 1];
    HostOfBlock(blocks[1..], i, phys);
    HostOfBlock(blocks, i + 1, phys);
    hide HostOf;
  }

  lemma {:induction false} LocateShift(blocks: seq<Block>, f: Filter, offset: nat, more: nat, phys: nat, length: nat)
    requires forall i | 0 <= i < |blocks| :: WellFormed(blocks[i])
    ensures var r, r' := LocateIn(blocks, f, offset, phys, length), LocateIn(blocks, f, offset + more, phys, length);
      r'.filesz == r.filesz && r'.offset == if r.offset.Some? then Some(r.offset.value + more) else None
    decreases |blocks|
  {
    if blocks != [] {
      var n := if OutOfRange(blocks[0], f) then 0 else ClipSize(blocks[0], f);
      LocateShift(blocks[1..], f, offset + n, more, phys, length);
    }
  }

  // ---------------------------------------------------------------------------------------

  datatype ElfClass = Elf32 | Elf64

  function EhdrSize(c: ElfClass): nat { if c.Elf64? then 64 else 52 }
  function PhdrSize(c: ElfClass): nat { if c.Elf64? then 56 else 32 }
  function ShdrSize(c: ElfClass): nat { if c.Elf64? then 64 else 40 }

  /** The headers are as long as their fields: with words of 4 or 8 bytes, 16 bytes of identification, two half words,
      a version, three words, flags and six half words; a type, flags and six words; four numbers and six words. */
  lemma HeaderSizes(c: ElfClass)
    ensures var word := if c.Elf64? then 8 else 4;
      && EhdrSize(c) == 16 + 2 * 2 + 4 + 3 * word + 4 + 6 * 2
      && PhdrSize(c) == 2 * 4 + 6 * word
      && ShdrSize(c) == 4 * 4 + 6 * word
  {
  }

  const PN_XNUM := 0xffff
  const UINT16_MAX := 0xffff
  const UINT32_MAX := 0xffff_ffff

  /** A PT_LOAD program header. */
  datatype Load = Load(located: Located, paddr: nat, memsz: nat, vaddr: nat)

  lemma {:induction false} BytesSplit(mem: Memory, host: int, a: nat, b: nat)
    ensures Bytes(mem, host, a) + Bytes(mem, host + a, b) == Bytes(mem, host, a + b)
  {
  }

  lemma {:induction false} DumpBytesSplit(a: seq<Block>, b: Block, f: Filter, mem: Memory)
    requires WellFormed(b) && forall i | 0 <= i < |a| :: WellFormed(a[i])
    ensures forall i | 0 <= i < |a + [b]| :: WellFormed((a + [b])[i])
    ensures DumpBytes(a + [b], f, mem) == DumpBytes(a, f, mem) + BlockBytes(b, f, mem)
  {
    hide BlockBytes;
    if a == [] {
      assert [] + [b] == [b] && [b][1..] == [];
      assert DumpBytes([b], f, mem) == BlockBytes(b, f, mem) + DumpBytes([], f, mem);
    } else {
      assert (a + [b])[1..] == a[1..] + [b];
      DumpBytesSplit(a[1..], b, f, mem);
    }
  }

  class DumpState {
    const blocks: seq<Block>
    const mappings: seq<Mapping>
    const filter: Filter
    const mem: Memory
    const elfClass: ElfClass
    const noteSize: nat
    var phdrNum: nat
    var shInfo: nat
    var haveSection: bool
    var memoryOffset: nat
    var nextBlock: nat
    var start: nat
    /** The core file, and the PT_LOAD headers among its first bytes. */
    var file: seq<Byte>
    var loads: seq<Load>

    predicate Ready()
      reads this
    {
      Ascending(blocks) && blocks != []
    }

    constructor (blocks: seq<Block>, mappings: seq<Mapping>, filter: Filter, mem: Memory, elfClass: ElfClass, noteSize: nat)
      requires Ascending(blocks) && blocks != []
      ensures Ready() && file == [] && loads == []
      ensures this.blocks == blocks && this.mappings == mappings && this.filter == filter
      ensures this.mem == mem && this.elfClass == elfClass && this.noteSize == noteSize
    {
      this.blocks, this.mappings, this.filter := blocks, mappings, filter;
      this.mem, this.elfClass, this.noteSize := mem, elfClass, noteSize;
      phdrNum, shInfo, haveSection, memoryOffset, nextBlock, start := 0, 0, false, 0, 0, 0;
      file, loads := [], [];
    }

    /** get_start_block: the first block inside the filter; fails when there is none. */
    method GetStartBlock() returns (ok: bool)
      requires Ready()
      modifies this`nextBlock, this`start
      ensures !ok ==> forall i | 0 <= i < |blocks| :: OutOfRange(blocks[i], filter)
      ensures ok ==> Positioned()
      ensures ok ==> DumpBytes(blocks[..nextBlock], filter, mem) == []
    {
      nextBlock, start := 0, 0;
      if filter.Everything? {
        return true;
      }
      for i := 0 to |blocks|
        invariant forall j | 0 <= j < i :: OutOfRange(blocks[j], filter)
        invariant DumpBytes(blocks[..i], filter, mem) == []
      {
        SeqFacts.TakeNext(blocks, i);
        DumpBytesSplit(blocks[..i], blocks[i], filter, mem);
        if blocks[i].start >= filter.begin + filter.length || blocks[i].end <= filter.begin {
          continue;
        }
        nextBlock := i;
        start := if filter.begin > blocks[i].start then filter.begin - blocks[i].start else 0;
        return true;
      }
      ok := false;
    }

    /** The next block to write is inside the filter, and `start` is where its part begins. */
    predicate Positioned()
      reads this
    {
      && nextBlock < |blocks| && !OutOfRange(blocks[nextBlock], filter)
      && start == ClipLo(blocks[nextBlock], filter) - blocks[nextBlock].start
    }

    /** get_next_block: skips blocks outside the filter. */
    method GetNextBlock() returns (done: bool)
      requires nextBlock < |blocks| && forall i | 0 <= i < |blocks| :: WellFormed(blocks[i])
      modifies this`nextBlock, this`start
      ensures old(nextBlock) <= nextBlock < |blocks|
      ensures !done ==> Positioned() && old(nextBlock) < nextBlock
      ensures !done ==> DumpBytes(blocks[..nextBlock], filter, mem) == DumpBytes(blocks[..old(nextBlock) + 1], filter, mem)
      ensures done ==> DumpBytes(blocks, filter, mem) == DumpBytes(blocks[..old(nextBlock) + 1], filter, mem)
    {
      var block := nextBlock;
      while true
        invariant old(nextBlock) <= block < |blocks| && old(nextBlock) <= nextBlock < |blocks|
        invariant DumpBytes(blocks[..block + 1], filter, mem) == DumpBytes(blocks[..old(nextBlock) + 1], filter, mem)
        decreases |blocks| - block
      {
        block := block + 1;
        if block == |blocks| {
          assert blocks[..block] == blocks;
          return true;
        }
        start, nextBlock := 0, block;
        if filter.Range? {
          if blocks[block].start >= filter.begin + filter.length || blocks[block].end <= filter.begin {
            SeqFacts.TakeNext(blocks, block);
            DumpBytesSplit(blocks[..block], blocks[block], filter, mem);
            continue;
          }
          if filter.begin > blocks[block].start {
            start := filter.begin - blocks[block].start;
          }
        }
        return false;
      }
    }

    /** write_memory: page by page, then the rest. */
    method WriteMemory(host: int, size: nat)
      modifies this`file
      ensures file == old(file) + Bytes(mem, host, size)
    {
      for i := 0 to size / PAGE_SIZE
        invariant file == old(file) + Bytes(mem, host, i * PAGE_SIZE)
      {
        BytesSplit(mem, host, i * PAGE_SIZE, PAGE_SIZE);
        file := file + Bytes(mem, host + i * PAGE_SIZE, PAGE_SIZE);
      }
      var pages := size / PAGE_SIZE;
      if size % PAGE_SIZE != 0 {
        BytesSplit(mem, host, pages * PAGE_SIZE, size % PAGE_SIZE);
        file := file + Bytes(mem, host + pages * PAGE_SIZE, size % PAGE_SIZE);
      }
    }

    /** One round of dump_iterate: the wanted part of the current block. */
    method WriteBlock()
      requires Ready() && Positioned()
      modifies this`file
      ensures file == old(file) + BlockBytes(blocks[nextBlock], filter, mem)
    {
      var b := blocks[nextBlock];
      var size := b.end - b.start;
      if filter.Range? {
        size := size - start;
        if filter.begin + filter.length < b.end {
          size := size - (b.end - (filter.begin + filter.length));
        }
      }
      WriteMemory(b.host + start, size);
    }

    /** dump_iterate: writes the wanted part of every block. */
    method DumpIterate()
      requires Ready() && Positioned() && DumpBytes(blocks[..nextBlock], filter, mem) == []
      modifies this`file, this`nextBlock, this`start
      ensures file == old(file) + DumpBytes(blocks, filter, mem)
    {
      hide DumpBytes, BlockBytes;
      var done := false;
      while !done
        invariant nextBlock < |blocks|
        invariant !done ==> Positioned() && file == old(file) + DumpBytes(blocks[..nextBlock], filter, mem)
        invariant done ==> file == old(file) + DumpBytes(blocks, filter, mem)
        decreases !done, |blocks| - nextBlock
      {
        SeqFacts.TakeNext(blocks, nextBlock);
        DumpBytesSplit(blocks[..nextBlock], blocks[nextBlock], filter, mem);
        ghost var upto := DumpBytes(blocks[..nextBlock], filter, mem);
        WriteBlock();
        assert file == old(file) + (upto + BlockBytes(blocks[nextBlock], filter, mem));
        done := GetNextBlock();
      }
    }

    /** The header arithmetic of dump_init: program header count and where memory begins. */
    method LayOut()
      modifies this`phdrNum, this`shInfo, this`haveSection, this`memoryOffset
      ensures haveSection <==> |mappings| >= UINT16_MAX - 2
      ensures phdrNum <= UINT16_MAX && (haveSection ==> shInfo <= UINT32_MAX)
      ensures if haveSection then phdrNum == PN_XNUM && (|mappings| < UINT32_MAX ==> shInfo == 1 + |mappings|)
              else phdrNum == 1 + |mappings|
      ensures memoryOffset == EhdrSize(elfClass) + PhdrSize(elfClass) * (1 + LoadCount(|mappings|))
                              + (if haveSection then ShdrSize(elfClass) else 0) + noteSize
      ensures MaxIndex() == 1 + LoadCount(|mappings|)
    {
      phdrNum := 1;
      if |mappings| < UINT16_MAX - 2 {
        phdrNum := phdrNum + |mappings|;
        haveSection := false;
      } else {
        haveSection := true;
        phdrNum := PN_XNUM;
        shInfo := 1;
        if |mappings| <= UINT32_MAX - 1 {
          shInfo := shInfo + |mappings|;
        } else {
          shInfo := UINT32_MAX;
        }
      }
      if haveSection {
        memoryOffset := EhdrSize(elfClass) + PhdrSize(elfClass) * shInfo + ShdrSize(elfClass) + noteSize;
      } else {
        memoryOffset := EhdrSize(elfClass) + PhdrSize(elfClass) * phdrNum + noteSize;
      }
    }

    function MaxIndex(): nat
      reads this
    {
      if haveSection then shInfo else phdrNum
    }

    /** get_offset_range: offset and size in the file of a mapping. */
    method GetOffsetRange(phys: nat, length: nat) returns (r: Located)
      requires Ready()
      ensures r == Locate(blocks, filter, memoryOffset, phys, length)
    {
      r := Located(None, 0);
      if filter.Range? {
        if phys < filter.begin || phys >= filter.begin + filter.length {
          return;
        }
      }
      var offset: nat := memoryOffset;
      for i := 0 to |blocks|
        invariant LocateIn(blocks[i..], filter, offset, phys, length) == LocateIn(blocks, filter, memoryOffset, phys, length)
      {
        var b := blocks[i];
        assert blocks[i..][0] == b && blocks[i..][1..] == blocks[i + 1..];
        var lo, size;
        if filter.Range? {
          if b.start >= filter.begin + filter.length || b.end <= filter.begin {
            continue;
          }
          lo := if filter.begin <= b.start then b.start else filter.begin;
          size := b.end - lo;
          if filter.begin + filter.length < b.end {
            size := size - (b.end - (filter.begin + filter.length));
          }
        } else {
          lo, size := b.start, b.end - b.start;
        }
        if lo <= phys < lo + size {
          return Located(Some(phys - lo + offset), if phys + length <= lo + size then length else size - (phys - lo));
        }
        offset := offset + size;
      }
    }

    /** The program header of mapping `m`. */
    function LoadOf(m: Mapping): Load
      requires Ready()
      reads this
    {
      Load(Locate(blocks, filter, memoryOffset, m.phys, m.length), m.phys, m.length, m.virt)
    }

    method WriteElfLoads()
      requires Ready() && loads == [] && MaxIndex() == 1 + LoadCount(|mappings|)
      modifies this`loads, this`file
      ensures |loads| == LoadCount(|mappings|)
      ensures forall k | 0 <= k < |loads| :: loads[k] == LoadOf(mappings[k]) && loads[k].memsz >= loads[k].located.filesz
      ensures |file| == |old(file)| + PhdrSize(elfClass) * LoadCount(|mappings|)
    {
      var index := 1;
      for i := 0 to |mappings|
        invariant index == 1 + i && |loads| == i <= LoadCount(|mappings|)
        invariant i < |mappings| ==> i < LoadCount(|mappings|)
        invariant forall k | 0 <= k < i :: loads[k] == LoadOf(mappings[k]) && loads[k].memsz >= loads[k].located.filesz
        invariant |file| == |old(file)| + PhdrSize(elfClass) * i
      {
        var m := mappings[i];
        var r := GetOffsetRange(m.phys, m.length);
        LocateRight(blocks, filter, mem, memoryOffset, m.phys, m.length);
        assert m.length >= r.filesz;
        loads := loads + [Load(r, m.phys, m.length, m.virt)];
        WriteRecord(PhdrSize(elfClass));
        index := index + 1;
        if index >= MaxIndex() {
          break;
        }
      }
    }

    /** A record of which only the size is modelled. */
    method WriteRecord(size: nat)
      modifies this`file
      ensures |file| == |old(file)| + size
    {
      file := file + seq(size, _ => 0);
    }

    /** dump_begin: ELF header, PT_NOTE, PT_LOADs, section header, notes. Memory starts right after. */
    method DumpBegin()
      requires Ready() && file == [] && loads == [] && MaxIndex() == 1 + LoadCount(|mappings|)
      requires memoryOffset == EhdrSize(elfClass) + PhdrSize(elfClass) * (1 + LoadCount(|mappings|))
                               + (if haveSection then ShdrSize(elfClass) else 0) + noteSize
      modifies this`loads, this`file
      ensures |file| == memoryOffset
      ensures |loads| == LoadCount(|mappings|)
      ensures forall k | 0 <= k < |loads| :: loads[k] == LoadOf(mappings[k]) && loads[k].memsz >= loads[k].located.filesz
    {
      WriteRecord(EhdrSize(elfClass));
      WriteRecord(PhdrSize(elfClass));
      WriteElfLoads();
      if haveSection {
        WriteRecord(ShdrSize(elfClass));
      }
      WriteRecord(noteSize);
    }

    /** The whole ELF dump: every program header that has an offset points at exactly the guest
        bytes of its physical range. */
    method CreateVmcore() returns (ok: bool)
      requires Ready() && file == [] && loads == []
      modifies this
      ensures ok <==> exists i :: 0 <= i < |blocks| && !OutOfRange(blocks[i], filter)
      ensures ok ==> |loads| == LoadCount(|mappings|) && (|mappings| < UINT32_MAX ==> |loads| == |mappings|)
      ensures ok ==> memoryOffset <= |file| && file[memoryOffset..] == DumpBytes(blocks, filter, mem)
      ensures ok ==> forall k | 0 <= k < |loads| ::
                && loads[k].paddr == mappings[k].phys && loads[k].memsz == mappings[k].length && loads[k].vaddr == mappings[k].virt
                && LoadHolds(file, loads[k])
    {
      ok := GetStartBlock();
      if !ok {
        return;
      }
      LayOut();
      DumpBegin();
      ghost var header := file;
      DumpIterate();
      assert file[memoryOffset..] == DumpBytes(blocks, filter, mem);
      forall k | 0 <= k < |loads|
        ensures LoadHolds(file, loads[k])
      {
        LocateRight(blocks, filter, mem, memoryOffset, mappings[k].phys, mappings[k].length);
        HoldsAfterHeader(header, DumpBytes(blocks, filter, mem), loads[k]);
      }
    }

    /** The bytes at a header's file offset are the guest bytes of its physical range, cut short only at the end
        of the filter or of the block; a header without an offset is for memory that is not dumped. */
    ghost predicate LoadHolds(data: seq<Byte>, l: Load)
      reads this
    {
      if l.located.offset.Some?
      then && Holds(data, blocks, mem, l.located.offset.value, l.paddr, l.located.filesz) && l.located.filesz <= l.memsz
           && (l.located.filesz < l.memsz ==>
                 !Wanted(filter, l.paddr + l.located.filesz) || !SameBlock(blocks, l.paddr, l.paddr + l.located.filesz))
      else !Wanted(filter, l.paddr) || HostOf(blocks, l.paddr) == None
    }

    lemma HoldsAfterHeader(header: seq<Byte>, data: seq<Byte>, l: Load)
      requires |header| == memoryOffset
      requires Wanted(filter, l.paddr) ==> Right(l.located, blocks, filter, data, mem, memoryOffset, l.paddr, l.memsz)
      requires !Wanted(filter, l.paddr) ==> l.located == Located(None, 0)
      ensures LoadHolds(header + data, l)
    {
      if l.located.offset.Some? {
        var at := l.located.offset.value;
        forall j | 0 <= j < l.located.filesz
          ensures HoldsByte(header + data, blocks, mem, at, l.paddr, j)
        {
          assert HoldsByte(data, blocks, mem, at - memoryOffset, l.paddr, j);
        }
      }
    }
  }

  /** How many PT_LOAD headers are written for `n` mappings. */
  function LoadCount(n: nat): nat {
    if n <= UINT32_MAX - 1 then n else UINT32_MAX - 1
  }

  // ---------------------------------------------------------------------------------------
  // Without page tables: one mapping per block, cut to the filter

  function SimpleCut(blocks: seq<Block>, f: Filter): seq<Mapping> {
    if f.Range? then CutAll(SimpleMappings(blocks), f.begin, f.length) else SimpleMappings(blocks)
  }

  function TotalLength(ms: seq<Mapping>): nat {
    if ms == [] then 0 else ms[0].length + TotalLength(ms[1..])
  }

  lemma SimpleCutFirst(blocks: seq<Block>, f: Filter)
    requires blocks != [] && WellFormed(blocks[0])
    ensures SimpleCut(blocks, f) ==
      (if OutOfRange(blocks[0], f) then [] else [Mapping(ClipLo(blocks[0], f), 0, ClipSize(blocks[0], f))])
      + SimpleCut(blocks[1..], f)
  {
    var b := blocks[0];
    var m := Mapping(b.start, 0, b.end - b.start);
    assert SimpleMappings(blocks)[0] == m && SimpleMappings(blocks)[1..] == SimpleMappings(blocks[1..]);
  }

  /** The segments of a dump without page tables follow one another in the file without gap or
      overlap, and none is cut short. */
  lemma {:induction false} SimpleLoadsTile(blocks: seq<Block>, f: Filter, offset: nat, k: nat)
    requires Ascending(blocks) && k < |SimpleCut(blocks, f)| && SimpleCut(blocks, f)[k].length > 0
    ensures var ms := SimpleCut(blocks, f);
      && blocks[0].start <= ms[k].phys && Wanted(f, ms[k].phys)
      && LocateIn(blocks, f, offset, ms[k].phys, ms[k].length)
         == Located(Some(offset + TotalLength(ms[..k])), ms[k].length)
    decreases |blocks|
  {
    hide SimpleCut;
    SimpleCutEmpty(f);
    var b, rest := blocks[0], blocks[1..];
    var ms, ms' := SimpleCut(blocks, f), SimpleCut(rest, f);
    SimpleCutFirst(blocks, f);
    if OutOfRange(b, f) {
      assert ms == ms';
      SimpleLoadsTile(rest, f, offset, k);
    } else if k > 0 {
      var m := Mapping(ClipLo(b, f), 0, ClipSize(b, f));
      TotalLengthFirst(m, ms', k);
      SimpleLoadsTile(rest, f, offset + ClipSize(b, f), k - 1);
    } else {
      assert ms[..0] == [];
    }
  }

  lemma TotalLengthFirst(m: Mapping, ms: seq<Mapping>, k: nat)
    requires 0 < k <= |ms|
    ensures ([m] + ms)[k] == ms[k - 1] && TotalLength(([m] + ms)[..k]) == m.length + TotalLength(ms[..k - 1])
  {
    assert ([m] + ms)[..k] == [m] + ms[..k - 1];
  }

  lemma SimpleCutEmpty(f: Filter)
    ensures SimpleCut([], f) == []
  {
  }

  /** Together the segments account for every dumped byte. */
  lemma {:induction false} SimpleLoadsComplete(blocks: seq<Block>, f: Filter, mem: Memory)
    requires forall i | 0 <= i < |blocks| :: WellFormed(blocks[i])
    ensures TotalLength(SimpleCut(blocks, f)) == |DumpBytes(blocks, f, mem)|
  {
    if blocks == [] {
      SimpleCutEmpty(f);
    } else {
      SimpleCutFirst(blocks, f);
      SimpleLoadsComplete(blocks[1..], f, mem);
      if OutOfRange(blocks[0], f) {
        assert SimpleCut(blocks, f) == SimpleCut(blocks[1..], f);
      } else {
        assert SimpleCut(blocks, f)[1..] == SimpleCut(blocks[1..], f);
      }
    }
  }
}
