/** A whole kdump file: where its parts lie, and that each part survives the writing of the next. */
module KdumpFile {
  import opened Basics
  import opened GuestMemory
  import opened FlatFile
  import opened DumpPages
  import opened DumpBitmap
  import opened KdumpPages

  /** DIV_ROUND_UP(bytes, block_size) */
  function Blocks(bytes: nat): nat {
    (bytes + PAGE_SIZE - 1) / PAGE_SIZE
  }

  /** offset_dump_bitmap: after one header block and the sub header with the notes. */
  function BitmapOffset(subHeader: nat): nat {
    (1 + Blocks(subHeader)) * PAGE_SIZE
  }

  /** offset_page: after both copies of the bitmap. */
  function PageOffset(subHeader: nat, maxMapnr: nat): nat {
    (1 + Blocks(subHeader) + Blocks(BitmapLength(maxMapnr)) * 2) * PAGE_SIZE
  }

  /** The two copies of the bitmap end exactly where the page descriptors begin. */
  lemma LayoutTight(subHeader: nat, maxMapnr: nat)
    ensures BitmapOffset(subHeader) + 2 * BitmapLength(maxMapnr) == PageOffset(subHeader, maxMapnr)
    ensures BitmapOffset(subHeader) >= PAGE_SIZE + subHeader
  {
    var n := BitmapLength(maxMapnr) / CHUNK_BYTES;
    assert BitmapLength(maxMapnr) == n * PAGE_SIZE;
    assert Blocks(BitmapLength(maxMapnr)) == n;
  }

  /** Bit p of the bitmap copy at `at` says whether page p was dumped. */
  predicate BitReads(records: seq<Record>, at: nat, p: nat, dumped: bool) {
    var b := ByteAt(records, at + p / 8);
    b.Some? && (BitSet(b.value, p % 8) <==> dumped)
  }

  /** The pages in the bitmap are exactly the pages of guest memory. */
  lemma DumpedPages(blocks: seq<Block>, p: nat)
    requires Dumpable(blocks)
    ensures p in Pfns(AllPages(blocks)) <==> HostOf(blocks, p * PAGE_SIZE).Some?
  {
    hide AllPages, HostOf;
    if p in Pfns(AllPages(blocks)) {
      var n :| 0 <= n < |AllPages(blocks)| && AllPages(blocks)[n].pfn == p;
      PageIsGuestMemory(blocks, n, 0);
    }
    if HostOf(blocks, p * PAGE_SIZE).Some? {
      var n := PageOfAddress(blocks, p * PAGE_SIZE);
      assert AllPages(blocks)[n].pfn in Pfns(AllPages(blocks));
    }
  }

  /** create_kdump_vmcore after the headers: bitmap, then pages. In the finished file both bitmaps
      read exactly the dumped pages, and the i-th descriptor locates the i-th dumped page. */
  method CreateKdump(file: DumpFile, blocks: seq<Block>, mem: Memory, subHeader: nat, compress: Compressor, flag: nat, big: bool)
    returns (numDumpable: nat)
    requires Dumpable(blocks) && blocks != []
    modifies file
    ensures numDumpable == |AllPages(blocks)|
    ensures forall p: nat | p < MaxMapnr(blocks) ::
              && BitReads(file.records, BitmapOffset(subHeader), p, HostOf(blocks, p * PAGE_SIZE).Some?)
              && BitReads(file.records, BitmapOffset(subHeader) + BitmapLength(MaxMapnr(blocks)), p, HostOf(blocks, p * PAGE_SIZE).Some?)
    ensures forall i | 0 <= i < numDumpable ::
              PageLocated(file.records, AllContents(AllPages(blocks), mem), i, PageOffset(subHeader, MaxMapnr(blocks)), compress, flag, big)
  {
    hide AllPages, AllContents, Ascending, DataOf, DescsOf, Encode, HoldsAt, Expected, Pfns, PageLocated, ByteAt;
    var maxMapnr := MaxMapnr(blocks);
    var length := BitmapLength(maxMapnr);
    var first := BitmapOffset(subHeader);
    ghost var before := file.records;
    var bitmap := new BitmapWriter(file, first, length);
    numDumpable := bitmap.WriteDumpBitmap(blocks);
    ghost var after := file.records;
    WriteDumpPages(file, blocks, mem, PageOffset(subHeader, maxMapnr), numDumpable, compress, flag, big);
    LayoutTight(subHeader, maxMapnr);
    forall p: nat | p < maxMapnr
      ensures BitReads(file.records, first, p, HostOf(blocks, p * PAGE_SIZE).Some?)
      ensures BitReads(file.records, first + length, p, HostOf(blocks, p * PAGE_SIZE).Some?)
    {
      DumpedPages(blocks, p);
      ChunksFillBitmap(maxMapnr);
      BitmapBits(before, Pfns(AllPages(blocks)), first, first + length, Chunks(maxMapnr), p);
      AppendedKeeps(after, file.records, PageOffset(subHeader, maxMapnr), first + p / 8);
      AppendedKeeps(after, file.records, PageOffset(subHeader, maxMapnr), first + length + p / 8);
    }
  }

  /** From the finished file of less than 2^64 bytes, every dumped page is read back as it was in
      guest memory at its frame number. */
  lemma KdumpReadsBack(records: seq<Record>, blocks: seq<Block>, mem: Memory, offsetPage: nat, compress: Compressor,
                       decompress: Compressor, flag: nat, big: bool, i: nat)
    requires Dumpable(blocks) && i < |AllPages(blocks)| && Undoes(decompress, compress) && 0 < flag < Pow256(4)
    requires var pages := AllContents(AllPages(blocks), mem);
      && PageLocated(records, pages, i, offsetPage, compress, flag, big)
      && offsetPage + DESC_SIZE * |pages| + |DataOf(pages, compress, flag)| < Pow256(8)
    ensures var page := ReadPage(records, i, offsetPage, decompress, big);
      page.Some? && |page.value| == PAGE_SIZE && forall o | 0 <= o < PAGE_SIZE :: IsGuestByte(blocks, mem, AllPages(blocks)[i].pfn, o, page.value[o])
  {
    hide AllPages, AllContents, PageLocated, DataOf, ReadPage, Undoes, Pow256, HostOf;
    ContentsAt(AllPages(blocks), mem, i);
    PageReadsBack(records, AllContents(AllPages(blocks), mem), i, offsetPage, compress, decompress, flag, big);
    forall o | 0 <= o < PAGE_SIZE
      ensures IsGuestByte(blocks, mem, AllPages(blocks)[i].pfn, o, PageContents(mem, AllPages(blocks)[i].host)[o])
    {
      PageIsGuestMemory(blocks, i, o);
    }
  }

  /** `b` is the byte of guest memory at offset `o` of page `p`. */
  predicate IsGuestByte(blocks: seq<Block>, mem: Memory, p: nat, o: nat, b: Byte) {
    var host := HostOf(blocks, p * PAGE_SIZE + o);
    host.Some? && b == mem(host.value)
  }
}
