/** The page part of a kdump file: fixed-size descriptors and variable-size page data, written
    through two caches into two areas of one file. */
module KdumpPages {
  import opened Arithmetic
  import opened Basics
  import opened GuestMemory
  import opened FlatFile
  import opened DumpPages
  import opened ByteValues

  // ---------------------------------------------------------------------------------------
  // Descriptors as bytes

  function Pow256(n: nat): (r: nat)
    ensures r > 0
  {
    if n == 0 then 1 else 256 * Pow256(n - 1)
  }

  function LeBytes(v: nat, n: nat): (s: seq<Byte>)
    ensures |s| == n
  {
    if n == 0 then [] else [ToByte(v % 256)] + LeBytes(v / 256, n - 1)
  }

  function LeValue(s: seq<Byte>): nat {
    if s == [] then 0 else OfByte(s[0]) + 256 * LeValue(s[1..])
  }

  lemma {:induction false} LeRoundTrip(v: nat, n: nat)
    requires v < Pow256(n)
    ensures LeValue(LeBytes(v, n)) == v
  {
    hide ToByte, OfByte;
    if n > 0 {
      ByteRoundTrip(v % 256);
      LeRoundTrip(v / 256, n - 1);
      assert LeBytes(v, n)[1..] == LeBytes(v / 256, n - 1);
    }
  }

  function Reverse(s: seq<Byte>): (r: seq<Byte>)
    ensures |r| == |s|
    ensures forall i | 0 <= i < |s| :: r[i] == s[|s| - 1 - i]
  {
    if s == [] then [] else Reverse(s[1..]) + [s[0]]
  }

  /** cpu_to_dump: in the byte order of the dumped machine. */
  function IntBytes(v: nat, n: nat, big: bool): (s: seq<Byte>)
    ensures |s| == n
  {
    if big then Reverse(LeBytes(v, n)) else LeBytes(v, n)
  }

  function IntValue(s: seq<Byte>, big: bool): nat {
    if big then LeValue(Reverse(s)) else LeValue(s)
  }

  /** Digit `i` of a number to the base 256. */
  function DigitOf(v: nat, i: nat): nat {
    v / Pow256(i) % 256
  }

  /** Byte `i` of a number in little-endian order, and from the other end in big-endian order. */
  lemma {:induction false} IntBytesAre(v: nat, n: nat, big: bool, i: nat)
    requires i < n
    ensures OfByte(IntBytes(v, n, big)[if big then n - 1 - i else i]) == DigitOf(v, i)
  {
    hide LeBytes, OfByte, DigitOf, Reverse;
    LeBytesAre(v, n, i);
    FromTheEnd(LeBytes(v, n), i);
  }

  lemma FromTheEnd(s: seq<Byte>, i: nat)
    requires i < |s|
    ensures Reverse(s)[|s| - 1 - i] == s[i]
  {
    hide Reverse;
    var k := |s| - 1 - i;
    assert Reverse(s)[k] == s[|s| - 1 - k];
  }

  lemma {:induction false} LeBytesAre(v: nat, n: nat, i: nat)
    requires i < n
    ensures OfByte(LeBytes(v, n)[i]) == DigitOf(v, i)
    decreases i
  {
    hide OfByte, ToByte, DigitOf;
    DigitStep(v, i);
    ByteRoundTrip(v % 256);
    if i > 0 {
      LeBytesAre(v / 256, n - 1, i - 1);
      assert LeBytes(v, n)[i] == LeBytes(v / 256, n - 1)[i - 1];
    }
  }

  lemma DigitStep(v: nat, i: nat)
    ensures DigitOf(v, i) == if i == 0 then v % 256 else DigitOf(v / 256, i - 1)
  {
    if i > 0 {
      QuotientBy256(v, Pow256(i - 1));
    }
  }

  lemma IntRoundTrip(v: nat, n: nat, big: bool)
    requires v < Pow256(n)
    ensures IntValue(IntBytes(v, n, big), big) == v
  {
    LeRoundTrip(v, n);
    assert Reverse(Reverse(LeBytes(v, n))) == LeBytes(v, n);
  }

  datatype PageDescriptor = PageDescriptor(offset: nat, size: nat, flags: nat)

  const DESC_SIZE := 24

  function Encode(pd: PageDescriptor, big: bool): (s: seq<Byte>)
    ensures |s| == DESC_SIZE
  {
    IntBytes(pd.offset, 8, big) + IntBytes(pd.size, 4, big) + IntBytes(pd.flags, 4, big) + IntBytes(0, 8, big)
  }

  function Decode(s: seq<Byte>, big: bool): PageDescriptor
    requires |s| == DESC_SIZE
  {
    PageDescriptor(IntValue(s[..8], big), IntValue(s[8..12], big), IntValue(s[12..16], big))
  }

  lemma DescriptorRoundTrip(pd: PageDescriptor, big: bool)
    requires pd.offset < Pow256(8) && pd.size < Pow256(4) && pd.flags < Pow256(4)
    ensures Decode(Encode(pd, big), big) == pd
  {
    var s := Encode(pd, big);
    assert s[..8] == IntBytes(pd.offset, 8, big);
    assert s[8..12] == IntBytes(pd.size, 4, big);
    assert s[12..16] == IntBytes(pd.flags, 4, big);
    IntRoundTrip(pd.offset, 8, big);
    IntRoundTrip(pd.size, 4, big);
    IntRoundTrip(pd.flags, 4, big);
  }

  // ---------------------------------------------------------------------------------------
  // What is written for a list of pages

  type Contents = seq<Byte>

  /** A compression library: None when it fails. */
  type Compressor = Contents -> Option<Contents>

  function ZeroPage(): (s: Contents)
    ensures |s| == PAGE_SIZE
  {
    seq(PAGE_SIZE, _ => 0)
  }

  datatype Stored = Stored(data: seq<Byte>, flags: nat)

  /** Compressed when that makes the page smaller, as it is otherwise. */
  function Store(page: Contents, compress: Compressor, flag: nat): Stored {
    var z := compress(page);
    if z.Some? && |z.value| < PAGE_SIZE then Stored(z.value, flag) else Stored(page, 0)
  }

  /** The bytes that stand for a page: one shared copy for all zero pages. */
  function StoredBytes(page: Contents, compress: Compressor, flag: nat): seq<Byte> {
    if page == ZeroPage() then ZeroPage() else Store(page, compress, flag).data
  }

  /** No page takes more room than itself, nor more than its compressed form. */
  lemma StoreShortest(page: Contents, compress: Compressor, flag: nat)
    requires |page| == PAGE_SIZE
    ensures |Store(page, compress, flag).data| <= PAGE_SIZE
    ensures compress(page).Some? ==> |Store(page, compress, flag).data| <= |compress(page).value|
  {
  }

  /** The data area: the zero page, then the other pages in order. */
  function DataOf(pages: seq<Contents>, compress: Compressor, flag: nat): seq<Byte> {
    if pages == [] then ZeroPage()
    else
      var last := pages[|pages| - 1];
      DataOf(pages[..|pages| - 1], compress, flag) + if last == ZeroPage() then [] else Store(last, compress, flag).data
  }

  function DescOf(pages: seq<Contents>, i: nat, base: nat, compress: Compressor, flag: nat): PageDescriptor
    requires i < |pages|
  {
    if pages[i] == ZeroPage() then PageDescriptor(base, PAGE_SIZE, 0)
    else
      var s := Store(pages[i], compress, flag);
      PageDescriptor(base + |DataOf(pages[..i], compress, flag)|, |s.data|, s.flags)
  }

  /** The descriptor area. */
  function DescsOf(pages: seq<Contents>, base: nat, compress: Compressor, flag: nat, big: bool): (s: seq<Byte>)
    ensures |s| == DESC_SIZE * |pages|
  {
    if pages == [] then []
    else DescsOf(pages[..|pages| - 1], base, compress, flag, big) + Encode(DescOf(pages, |pages| - 1, base, compress, flag), big)
  }

  /** Room for the pages that are not zero. */
  function StoredTotal(pages: seq<Contents>, compress: Compressor, flag: nat): nat {
    if pages == [] then 0
    else
      var last := pages[|pages| - 1];
      StoredTotal(pages[..|pages| - 1], compress, flag) + if last == ZeroPage() then 0 else |StoredBytes(last, compress, flag)|
  }

  /** All zero pages share one copy: they have one descriptor, and the data area has room for one of them. */
  lemma ZeroPagesShared(pages: seq<Contents>, i: nat, j: nat, base: nat, compress: Compressor, flag: nat)
    requires i < |pages| && j < |pages| && pages[i] == ZeroPage() && pages[j] == ZeroPage()
    ensures DescOf(pages, i, base, compress, flag) == DescOf(pages, j, base, compress, flag)
    ensures |DataOf(pages, compress, flag)| == PAGE_SIZE + StoredTotal(pages, compress, flag)
  {
    DataLength(pages, compress, flag);
  }

  lemma {:induction false} DataLength(pages: seq<Contents>, compress: Compressor, flag: nat)
    ensures |DataOf(pages, compress, flag)| == PAGE_SIZE + StoredTotal(pages, compress, flag)
  {
    hide Store;
    if pages != [] {
      DataLength(pages[..|pages| - 1], compress, flag);
    }
  }

  lemma {:induction false} DataPrefix(pages: seq<Contents>, i: nat, compress: Compressor, flag: nat)
    requires i <= |pages|
    ensures |DataOf(pages[..i], compress, flag)| <= |DataOf(pages, compress, flag)|
    ensures DataOf(pages[..i], compress, flag) == DataOf(pages, compress, flag)[..|DataOf(pages[..i], compress, flag)|]
  {
    var n := |pages|;
    if i < n {
      DataPrefix(pages[..n - 1], i, compress, flag);
      assert pages[..n - 1][..i] == pages[..i];
    } else {
      assert pages[..i] == pages;
    }
  }

  lemma {:induction false} DescsAt(pages: seq<Contents>, i: nat, base: nat, compress: Compressor, flag: nat, big: bool)
    requires i < |pages|
    ensures DescsOf(pages, base, compress, flag, big)[DESC_SIZE * i..DESC_SIZE * i + DESC_SIZE] == Encode(DescOf(pages, i, base, compress, flag), big)
  {
    hide Encode, DescOf;
    var n := |pages|;
    var init := pages[..n - 1];
    var a, z := DescsOf(init, base, compress, flag, big), Encode(DescOf(pages, n - 1, base, compress, flag), big);
    if i < n - 1 {
      DescsAt(init, i, base, compress, flag, big);
      DescPrefix(pages, n - 1, i, base, compress, flag);
      assert (a + z)[DESC_SIZE * i..DESC_SIZE * i + DESC_SIZE] == a[DESC_SIZE * i..DESC_SIZE * i + DESC_SIZE];
    } else {
      assert (a + z)[DESC_SIZE * i..DESC_SIZE * i + DESC_SIZE] == z;
    }
  }

  /** A descriptor depends only on the pages up to its own. */
  lemma DescPrefix(pages: seq<Contents>, n: nat, i: nat, base: nat, compress: Compressor, flag: nat)
    requires i < n <= |pages|
    ensures DescOf(pages[..n], i, base, compress, flag) == DescOf(pages, i, base, compress, flag)
  {
    assert pages[..n][..i] == pages[..i];
  }

  /** The stored bytes of page `i` are at the place its descriptor names. */
  lemma StoredInData(pages: seq<Contents>, i: nat, compress: Compressor, flag: nat)
    requires i < |pages|
    ensures var pd := DescOf(pages, i, 0, compress, flag);
      && pd.size == |StoredBytes(pages[i], compress, flag)|
      && pd.offset + pd.size <= |DataOf(pages, compress, flag)|
      && DataOf(pages, compress, flag)[pd.offset..pd.offset + pd.size] == StoredBytes(pages[i], compress, flag)
  {
    hide ZeroPage;
    DataPrefix(pages, 0, compress, flag);
    assert pages[..0] == [];
    if pages[i] != ZeroPage() {
      DataPrefix(pages, i, compress, flag);
      DataPrefix(pages, i + 1, compress, flag);
      assert pages[..i + 1][..i] == pages[..i];
      var upto := DataOf(pages[..i + 1], compress, flag);
      assert upto == DataOf(pages[..i], compress, flag) + Store(pages[i], compress, flag).data;
    }
  }

  /** In a file that holds both areas, the i-th descriptor locates exactly the stored bytes of the
      i-th page; all zero pages share one copy. */
  lemma DescriptorLocatesPage(records: seq<Record>, pages: seq<Contents>, i: nat, descs: nat, base: nat,
                              compress: Compressor, flag: nat, big: bool)
    requires i < |pages|
    requires HoldsAt(records, descs, DescsOf(pages, base, compress, flag, big))
    requires HoldsAt(records, base, DataOf(pages, compress, flag))
    ensures var pd := DescOf(pages, i, base, compress, flag);
      && HoldsAt(records, descs + DESC_SIZE * i, Encode(pd, big))
      && pd.size == |StoredBytes(pages[i], compress, flag)|
      && HoldsAt(records, pd.offset, StoredBytes(pages[i], compress, flag))
  {
    hide HoldsAt, Encode, DataOf, DescsOf, StoredBytes;
    var at := DESC_SIZE * i;
    DescsAt(pages, i, base, compress, flag, big);
    HoldsPart(records, descs, DescsOf(pages, base, compress, flag, big), at, at + DESC_SIZE);
    StoredInData(pages, i, compress, flag);
    var pd := DescOf(pages, i, 0, compress, flag);
    HoldsPart(records, base, DataOf(pages, compress, flag), pd.offset, pd.offset + pd.size);
  }

  // ---------------------------------------------------------------------------------------
  // Writing them

  type Memory = int -> Byte

  function PageContents(mem: Memory, host: int): (s: Contents)
    ensures |s| == PAGE_SIZE
  {
    seq(PAGE_SIZE, o => mem(host + o))
  }

  /** The contents of the pages, in dump order. */
  function AllContents(pages: seq<Page>, mem: Memory): (s: seq<Contents>)
    ensures |s| == |pages|
  {
    if pages == [] then []
    else AllContents(pages[..|pages| - 1], mem) + [PageContents(mem, pages[|pages| - 1].host)]
  }

  lemma AllContentsNext(pages: seq<Page>, n: nat, mem: Memory)
    requires n < |pages|
    ensures AllContents(pages[..n + 1], mem) == AllContents(pages[..n], mem) + [PageContents(mem, pages[n].host)]
  {
    assert pages[..n + 1][..n] == pages[..n];
  }

  /** What one more page adds to either area. */
  lemma AreasNext(pages: seq<Contents>, page: Contents, base: nat, compress: Compressor, flag: nat, big: bool)
    ensures DataOf(pages + [page], compress, flag) ==
            DataOf(pages, compress, flag) + if page == ZeroPage() then [] else Store(page, compress, flag).data
    ensures DescOf(pages + [page], |pages|, base, compress, flag) ==
            if page == ZeroPage() then PageDescriptor(base, PAGE_SIZE, 0)
            else PageDescriptor(base + |DataOf(pages, compress, flag)|, |Store(page, compress, flag).data|, Store(page, compress, flag).flags)
    ensures DescsOf(pages + [page], base, compress, flag, big) ==
            DescsOf(pages, base, compress, flag, big) + Encode(DescOf(pages + [page], |pages|, base, compress, flag), big)
  {
    assert (pages + [page])[..|pages|] == pages;
  }

  lemma AreasStart(base: nat, compress: Compressor, flag: nat, big: bool)
    ensures DataOf([], compress, flag) == ZeroPage() && DescsOf([], base, compress, flag, big) == []
  {
  }

  class PageWriter {
    const file: DumpFile
    const descCache: DataCache
    const dataCache: DataCache
    const descs: nat
    const base: nat
    const compress: Compressor
    const flag: nat
    const big: bool
    /** Where the next page's data goes. */
    var offsetData: nat

    /** Descriptors go to `descs` onwards, and there is room for `n` of them below the data. */
    constructor (file: DumpFile, offsetPage: nat, n: nat, compress: Compressor, flag: nat, big: bool)
      modifies file
      ensures this.file == file && descs == offsetPage && base == offsetPage + DESC_SIZE * n
      ensures this.compress == compress && this.flag == flag && this.big == big
      ensures fresh(descCache) && fresh(dataCache) && Carries([])
      ensures Appended(old(file.records), file.records, descs)
    {
      this.file, descs, base := file, offsetPage, offsetPage + DESC_SIZE * n;
      this.compress, this.flag, this.big := compress, flag, big;
      descCache := new DataCache(file, offsetPage);
      var data := new DataCache(file, offsetPage + DESC_SIZE * n);
      dataCache := data;
      offsetData := offsetPage + DESC_SIZE * n;
      new;
      AreasStart(base, compress, flag, big);
      dataCache.Write(ZeroPage(), base, []);
      offsetData := offsetData + PAGE_SIZE;
      assert [] + ZeroPage() == ZeroPage();
    }

    /** `pages` have been handed to the caches. */
    ghost predicate Carries(pages: seq<Contents>)
      reads this, file, descCache, dataCache
    {
      && descCache != dataCache && descCache.file == file && dataCache.file == file
      && descCache.Carries(descs, DescsOf(pages, base, compress, flag, big))
      && dataCache.Carries(base, DataOf(pages, compress, flag))
      && offsetData == base + |DataOf(pages, compress, flag)|
    }

    /** Hands a descriptor to its cache; the data area does not notice. */
    method WriteDesc(pd: PageDescriptor, ghost done: seq<Byte>, ghost data: seq<Byte>)
      requires descCache != dataCache && descCache.file == file && dataCache.file == file
      requires descCache.Carries(descs, done) && dataCache.Carries(base, data) && descs + |done| <= base
      modifies file, descCache
      ensures descCache.Carries(descs, done + Encode(pd, big)) && dataCache.Carries(base, data)
      ensures file.records == old(file.records) || (exists r: Record :: file.records == old(file.records) + [r] && r.offset >= descs)
    {
      hide CacheOk, Encode;
      ghost var r := Record(descCache.offset, descCache.pending);
      ghost var records := file.records;
      descCache.Write(Encode(pd, big), descs, done);
      if file.records != records {
        CacheUndisturbed(records, r, base, data, dataCache.offset, dataCache.pending);
      }
    }

    /** Hands page data to its cache; the descriptor area does not notice. */
    method WriteData(bytes: seq<Byte>, ghost done: seq<Byte>, ghost data: seq<Byte>)
      requires descCache != dataCache && descCache.file == file && dataCache.file == file
      requires descCache.Carries(descs, done) && dataCache.Carries(base, data) && descs + |done| <= base
      requires |bytes| <= PAGE_SIZE
      modifies file, dataCache
      ensures descCache.Carries(descs, done) && dataCache.Carries(base, data + bytes)
      ensures file.records == old(file.records) || (exists r: Record :: file.records == old(file.records) + [r] && r.offset >= descs)
    {
      hide CacheOk;
      ghost var r := Record(dataCache.offset, dataCache.pending);
      ghost var records := file.records;
      dataCache.Write(bytes, base, data);
      if file.records != records {
        CacheUndisturbed(records, r, descs, done, descCache.offset, descCache.pending);
      }
    }

    /** One round of the loop of write_dump_pages. */
    method WritePage(page: Contents, ghost pages: seq<Contents>)
      requires Carries(pages) && |page| == PAGE_SIZE && descs + DESC_SIZE * (|pages| + 1) <= base
      modifies this`offsetData, file, descCache, dataCache
      ensures Carries(pages + [page])
      ensures Appended(old(file.records), file.records, descs)
    {
      hide CacheOk, DataOf, DescsOf, Encode;
      ghost var done, data := DescsOf(pages, base, compress, flag, big), DataOf(pages, compress, flag);
      AreasNext(pages, page, base, compress, flag, big);
      if page == ZeroPage() {
        WriteDesc(PageDescriptor(base, PAGE_SIZE, 0), done, data);
        assert data + [] == data;
      } else {
        var z := compress(page);
        var pd;
        if z.Some? && |z.value| < PAGE_SIZE {
          WriteData(z.value, done, data);
          pd := PageDescriptor(offsetData, |z.value|, flag);
        } else {
          WriteData(page, done, data);
          pd := PageDescriptor(offsetData, PAGE_SIZE, 0);
        }
        offsetData := offsetData + pd.size;
        WriteDesc(pd, done, data + Store(page, compress, flag).data);
      }
    }

    /** The final write_cache calls with flag_sync set. */
    method Finish(ghost pages: seq<Contents>)
      requires Carries(pages) && descs + DESC_SIZE * |pages| <= base
      modifies file, descCache, dataCache
      ensures HoldsAt(file.records, descs, DescsOf(pages, base, compress, flag, big))
      ensures HoldsAt(file.records, base, DataOf(pages, compress, flag))
      ensures Appended(old(file.records), file.records, descs)
    {
      hide CacheOk, DataOf, DescsOf, HoldsAt;
      ghost var done, data := DescsOf(pages, base, compress, flag, big), DataOf(pages, compress, flag);
      ghost var r := Record(descCache.offset, descCache.pending);
      ghost var records := file.records;
      descCache.Sync(descs, done);
      if file.records != records {
        CacheUndisturbed(records, r, base, data, dataCache.offset, dataCache.pending);
      }
      r, records := Record(dataCache.offset, dataCache.pending), file.records;
      dataCache.Sync(base, data);
      if file.records != records {
        HoldsElsewhere(records, r, descs, done);
      }
    }
  }

  /** The i-th descriptor in the file locates the stored bytes of the i-th page, above all descriptors. */
  ghost predicate PageLocated(records: seq<Record>, pages: seq<Contents>, i: nat, offsetPage: nat,
                              compress: Compressor, flag: nat, big: bool)
  {
    && i < |pages|
    && var base := offsetPage + DESC_SIZE * |pages|;
    var pd := DescOf(pages, i, base, compress, flag);
    && HoldsAt(records, offsetPage + DESC_SIZE * i, Encode(pd, big))
    && pd.size == |StoredBytes(pages[i], compress, flag)|
    && HoldsAt(records, pd.offset, StoredBytes(pages[i], compress, flag))
    && pd.offset >= base
  }

  /** write_dump_pages: with room for exactly the descriptors of all pages, the i-th descriptor in the
      file locates the stored bytes of the i-th page. */
  method WriteDumpPages(file: DumpFile, blocks: seq<Block>, mem: Memory, offsetPage: nat, numDumpable: nat,
                        compress: Compressor, flag: nat, big: bool)
    requires Dumpable(blocks) && blocks != [] && numDumpable == |AllPages(blocks)|
    modifies file
    ensures forall i | 0 <= i < numDumpable ::
              PageLocated(file.records, AllContents(AllPages(blocks), mem), i, offsetPage, compress, flag, big)
    ensures Appended(old(file.records), file.records, offsetPage)
  {
    hide AllPages, AllContents, BlockPages, PageAligned, PageLocated, Ascending, DataOf, DescsOf, Encode, CacheOk, HoldsAt, Appended;
    ghost var all := AllPages(blocks);
    var writer := new PageWriter(file, offsetPage, numDumpable, compress, flag, big);
    var iter := new PageIterator(blocks);
    ghost var n := 0;
    NoContents(mem);
    var more, page := iter.Next();
    while more
      invariant iter.Valid() && fresh(iter) && iter.blocks == blocks
      invariant fresh(writer) && fresh(writer.descCache) && fresh(writer.dataCache)
      invariant n <= |all| && more == (n < |all|)
      invariant more ==> iter.given == n + 1 && page == all[n]
      invariant writer.Carries(AllContents(all[..n], mem))
      invariant Appended(old(file.records), file.records, offsetPage)
      decreases |all| - n
    {
      AllContentsNext(all, n, mem);
      ghost var records := file.records;
      writer.WritePage(PageContents(mem, page.host), AllContents(all[..n], mem));
      AppendedTwice(old(file.records), records, file.records, offsetPage);
      n := n + 1;
      more, page := iter.Next();
    }
    assert all[..n] == all;
    ghost var pages := AllContents(all, mem);
    ghost var records := file.records;
    writer.Finish(pages);
    AppendedTwice(old(file.records), records, file.records, offsetPage);
    AllLocated(file.records, pages, offsetPage, writer.base, compress, flag, big);
  }

  lemma AllLocated(records: seq<Record>, pages: seq<Contents>, descs: nat, base: nat,
                   compress: Compressor, flag: nat, big: bool)
    requires base == descs + DESC_SIZE * |pages|
    requires HoldsAt(records, descs, DescsOf(pages, base, compress, flag, big))
    requires HoldsAt(records, base, DataOf(pages, compress, flag))
    ensures forall i | 0 <= i < |pages| :: PageLocated(records, pages, i, descs, compress, flag, big)
  {
    hide HoldsAt, DescsOf, DataOf, Encode, StoredBytes;
    forall i | 0 <= i < |pages|
      ensures PageLocated(records, pages, i, descs, compress, flag, big)
    {
      DescriptorLocatesPage(records, pages, i, descs, base, compress, flag, big);
    }
  }

  // ---------------------------------------------------------------------------------------
  // Reading a page back

  /** What a reader of the file takes for the i-th page: it decodes the descriptor, and decompresses the
      bytes it locates unless its flags are clear. */
  function ReadPage(records: seq<Record>, i: nat, offsetPage: nat, decompress: Compressor, big: bool): Option<Contents> {
    var desc := BytesAt(records, offsetPage + DESC_SIZE * i, DESC_SIZE);
    if desc.None? then None
    else
      var pd := Decode(desc.value, big);
      var data := BytesAt(records, pd.offset, pd.size);
      if data.None? || pd.flags == 0 then data else decompress(data.value)
  }

  ghost predicate Undoes(decompress: Compressor, compress: Compressor) {
    forall page: Contents :: compress(page).Some? ==> decompress(compress(page).value) == Some(page)
  }

  /** The descriptors of pages in a file of less than 2^64 bytes decode to what was encoded. */
  lemma DescriptorFits(pages: seq<Contents>, i: nat, base: nat, compress: Compressor, flag: nat, big: bool)
    requires i < |pages| && |pages[i]| == PAGE_SIZE && flag < Pow256(4)
    requires base + |DataOf(pages, compress, flag)| < Pow256(8)
    ensures var pd := DescOf(pages, i, base, compress, flag); Decode(Encode(pd, big), big) == pd
  {
    hide DataOf, Encode, Decode, Pow256, ZeroPage;
    StoredInData(pages, i, compress, flag);
    WordFits();
    DescriptorRoundTrip(DescOf(pages, i, base, compress, flag), big);
  }

  lemma WordFits()
    ensures 0 < PAGE_SIZE < Pow256(4)
  {
    assert Pow256(4) == 256 * Pow256(3) && Pow256(3) == 256 * Pow256(2) && Pow256(2) == 256 * 256;
  }

  /** A page that its descriptor locates is read back as it was, while the file stays below 2^64 bytes. */
  lemma PageReadsBack(records: seq<Record>, pages: seq<Contents>, i: nat, offsetPage: nat,
                      compress: Compressor, decompress: Compressor, flag: nat, big: bool)
    requires PageLocated(records, pages, i, offsetPage, compress, flag, big) && |pages[i]| == PAGE_SIZE
    requires Undoes(decompress, compress) && 0 < flag < Pow256(4)
    requires offsetPage + DESC_SIZE * |pages| + |DataOf(pages, compress, flag)| < Pow256(8)
    ensures ReadPage(records, i, offsetPage, decompress, big) == Some(pages[i])
  {
    hide DataOf, Encode, Decode, Pow256, HoldsAt, ZeroPage, BytesAt;
    var pd := DescOf(pages, i, offsetPage + DESC_SIZE * |pages|, compress, flag);
    DescriptorFits(pages, i, offsetPage + DESC_SIZE * |pages|, compress, flag, big);
    HeldBytes(records, offsetPage + DESC_SIZE * i, Encode(pd, big));
    HeldBytes(records, pd.offset, StoredBytes(pages[i], compress, flag));
  }

  lemma {:induction false} ContentsAt(pages: seq<Page>, mem: Memory, i: nat)
    requires i < |pages|
    ensures AllContents(pages, mem)[i] == PageContents(mem, pages[i].host)
  {
    var last := |pages| - 1;
    if i < last {
      ContentsAt(pages[..last], mem, i);
    }
  }

  lemma NoContents(mem: Memory)
    ensures forall s: seq<Page> :: AllContents(s[..0], mem) == []
  {
  }
}
