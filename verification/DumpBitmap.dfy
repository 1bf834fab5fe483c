/** The page bitmap of a kdump file: written one buffer at a time while page numbers ascend, in two
    identical copies. */
module DumpBitmap {
  import opened Basics
  import opened GuestMemory
  import opened FlatFile
  import opened DumpPages

  /** BUFSIZE_BITMAP and PFN_BUFBITMAP: bytes in a buffer and bits in it. */
  const CHUNK_BYTES := 4096
  const CHUNK_BITS := 32768

  /** 1u << k */
  function Mask(k: nat): Byte
    requires k < 8
  {
    if k == 0 then 1 else if k == 1 then 2 else if k == 2 then 4 else if k == 3 then 8
    else if k == 4 then 16 else if k == 5 then 32 else if k == 6 then 64 else 128
  }

  /** Bit `k` counts from the low end of the byte. */
  lemma MaskIsShift(k: nat)
    requires k < 8
    ensures Mask(k) == (1 as Byte) << k
  {
    if k == 0 {} else if k == 1 {} else if k == 2 {} else if k == 3 {}
    else if k == 4 {} else if k == 5 {} else if k == 6 {} else {}
  }

  predicate BitSet(b: Byte, k: nat)
    requires k < 8
  {
    b & Mask(k) != 0
  }

  function BitOf(pfns: set<nat>, p: nat, k: nat): Byte
    requires k < 8
  {
    if p in pfns then Mask(k) else 0
  }

  /** The byte whose bits say which of the pages base .. base + 7 are dumped. */
  function ByteOf(pfns: set<nat>, base: nat): Byte {
    BitOf(pfns, base, 0) | BitOf(pfns, base + 1, 1) | BitOf(pfns, base + 2, 2) | BitOf(pfns, base + 3, 3) |
    BitOf(pfns, base + 4, 4) | BitOf(pfns, base + 5, 5) | BitOf(pfns, base + 6, 6) | BitOf(pfns, base + 7, 7)
  }

  lemma LowBits(pfns: set<nat>, base: nat, k: nat)
    requires k < 4
    ensures BitSet(ByteOf(pfns, base), k) <==> base + k in pfns
  {
    if k == 0 {} else if k == 1 {} else if k == 2 {} else {}
  }

  lemma HighBits(pfns: set<nat>, base: nat, k: nat)
    requires 4 <= k < 8
    ensures BitSet(ByteOf(pfns, base), k) <==> base + k in pfns
  {
    if k == 4 {} else if k == 5 {} else if k == 6 {} else {}
  }

  lemma ByteOfBits(pfns: set<nat>, base: nat, k: nat)
    requires k < 8
    ensures BitSet(ByteOf(pfns, base), k) <==> base + k in pfns
  {
    hide BitSet, ByteOf;
    if k < 4 {
      LowBits(pfns, base, k);
    } else {
      HighBits(pfns, base, k);
    }
  }

  lemma ByteOfAdd(pfns: set<nat>, base: nat, p: nat)
    ensures ByteOf(pfns + {p}, base) ==
            if base <= p < base + 8 then ByteOf(pfns, base) | Mask(p - base) else ByteOf(pfns, base)
  {
    if base <= p < base + 8 {
      ByteOfInside(pfns, base, p - base);
    } else {
      hide Mask;
      assert forall q | base <= q < base + 8 :: q in pfns + {p} <==> q in pfns;
    }
  }

  lemma ByteOfInside(pfns: set<nat>, base: nat, k: nat)
    requires k < 8
    ensures ByteOf(pfns + {base + k}, base) == ByteOf(pfns, base) | Mask(k)
  {
    if k == 0 {} else if k == 1 {} else if k == 2 {} else if k == 3 {}
    else if k == 4 {} else if k == 5 {} else if k == 6 {} else {}
  }

  lemma ByteOfEmpty(pfns: set<nat>, base: nat)
    requires forall p :: p in pfns ==> p < base || p >= base + 8
    ensures ByteOf(pfns, base) == 0
  {
  }

  /** Buffer number `c` of the bitmap. */
  function Chunk(pfns: set<nat>, c: nat): (s: seq<Byte>)
    ensures |s| == CHUNK_BYTES
  {
    seq(CHUNK_BYTES, i requires 0 <= i => ByteOf(pfns, c * CHUNK_BITS + i * 8))
  }

  lemma ChunkAdd(pfns: set<nat>, c: nat, p: nat)
    requires p / CHUNK_BITS == c
    ensures var byte := p % CHUNK_BITS / 8;
      Chunk(pfns + {p}, c) == Chunk(pfns, c)[byte := Chunk(pfns, c)[byte] | Mask(p % CHUNK_BITS % 8)]
  {
    hide ByteOf, Mask;
    var byte := p % CHUNK_BITS / 8;
    var after := Chunk(pfns + {p}, c);
    var before := Chunk(pfns, c);
    forall i | 0 <= i < CHUNK_BYTES
      ensures after[i] == if i == byte then before[i] | Mask(p % CHUNK_BITS % 8) else before[i]
    {
      ByteOfAdd(pfns, c * CHUNK_BITS + i * 8, p);
    }
  }

  /** Pages of other buffers do not change a buffer. */
  lemma ChunkOther(pfns: set<nat>, c: nat, p: nat)
    requires p / CHUNK_BITS != c
    ensures Chunk(pfns + {p}, c) == Chunk(pfns, c)
  {
    hide ByteOf;
    forall i | 0 <= i < CHUNK_BYTES
      ensures Chunk(pfns + {p}, c)[i] == Chunk(pfns, c)[i]
    {
      ByteOfAdd(pfns, c * CHUNK_BITS + i * 8, p);
    }
  }

  lemma ChunkEmpty(pfns: set<nat>, c: nat)
    requires forall p :: p in pfns ==> p < c * CHUNK_BITS
    ensures Chunk(pfns, c) == seq(CHUNK_BYTES, _ => 0)
  {
    forall i | 0 <= i < CHUNK_BYTES
      ensures Chunk(pfns, c)[i] == 0
    {
      ByteOfEmpty(pfns, c * CHUNK_BITS + i * 8);
    }
  }

  /** The records of the first `n` buffers: each once in either copy. */
  function Expected(pfns: set<nat>, first: nat, second: nat, n: nat): seq<Record> {
    if n == 0 then []
    else Expected(pfns, first, second, n - 1)
         + [Record(first + CHUNK_BYTES * (n - 1), Chunk(pfns, n - 1)), Record(second + CHUNK_BYTES * (n - 1), Chunk(pfns, n - 1))]
  }

  lemma {:induction false} ExpectedOther(pfns: set<nat>, first: nat, second: nat, n: nat, p: nat)
    requires p / CHUNK_BITS >= n
    ensures Expected(pfns + {p}, first, second, n) == Expected(pfns, first, second, n)
  {
    if n > 0 {
      ExpectedOther(pfns, first, second, n - 1, p);
      ChunkOther(pfns, n - 1, p);
    }
  }

  /** Bytes of one copy of the bitmap for `maxMapnr` pages: len_dump_bitmap of dump_init. */
  function BitmapLength(maxMapnr: nat): nat {
    ((maxMapnr + 7) / 8 + CHUNK_BYTES - 1) / CHUNK_BYTES * CHUNK_BYTES
  }

  class BitmapWriter {
    const file: DumpFile
    /** offset_dump_bitmap and len_dump_bitmap. */
    const first: nat
    const length: nat
    const buf: array<Byte>

    constructor (file: DumpFile, first: nat, length: nat)
      ensures this.file == file && this.first == first && this.length == length
      ensures fresh(buf) && Carries({}, 0, file.records)
    {
      this.file, this.first, this.length := file, first, length;
      buf := new Byte[CHUNK_BYTES](_ => 0);
      new;
      ChunkEmpty({}, 0);
      assert buf[..] == Chunk({}, 0);
    }

    /** The bits of `pfns`, none above `last`, are in the file up to the buffer of `last`, and in
        the buffer from there. */
    ghost predicate Carries(pfns: set<nat>, last: nat, before: seq<Record>)
      reads this, file, buf
    {
      && buf.Length == CHUNK_BYTES
      && (forall p :: p in pfns ==> p <= last)
      && buf[..] == Chunk(pfns, last / CHUNK_BITS)
      && file.records == before + Expected(pfns, first, first + length, last / CHUNK_BITS)
    }

    /** The loop of set_dump_bitmap: writes the buffers between those of `last` and `pfn`. */
    method Flush(last: nat, pfn: nat, ghost pfns: set<nat>, ghost before: seq<Record>)
      requires Carries(pfns, last, before) && last <= pfn
      modifies file, buf
      ensures Carries(pfns, pfn, before)
    {
      hide Chunk, Expected;
      var oldOffset, newOffset := CHUNK_BYTES * (last / CHUNK_BITS), CHUNK_BYTES * (pfn / CHUNK_BITS);
      ghost var c := last / CHUNK_BITS;
      while oldOffset < newOffset
        invariant oldOffset == CHUNK_BYTES * c && last / CHUNK_BITS <= c <= pfn / CHUNK_BITS
        invariant buf[..] == Chunk(pfns, c)
        invariant file.records == before + Expected(pfns, first, first + length, c)
      {
        var data := buf[..];
        file.WriteBuffer(first + oldOffset, data);
        file.WriteBuffer(first + length + oldOffset, data);
        ExpectedNext(pfns, first, first + length, c);
        forall i | 0 <= i < buf.Length {
          buf[i] := 0;
        }
        ChunkEmpty(pfns, c + 1);
        assert buf[..] == seq(CHUNK_BYTES, _ => 0);
        oldOffset := oldOffset + CHUNK_BYTES;
        c := c + 1;
      }
    }

    /** set_dump_bitmap(last_pfn, pfn, true): the bit of `pfn` joins the bitmap. */
    method SetBit(last: nat, pfn: nat, ghost pfns: set<nat>, ghost before: seq<Record>)
      requires Carries(pfns, last, before) && last <= pfn
      modifies file, buf
      ensures Carries(pfns + {pfn}, pfn, before)
    {
      hide Chunk, Expected;
      Flush(last, pfn, pfns, before);
      ChunkAdd(pfns, pfn / CHUNK_BITS, pfn);
      ExpectedOther(pfns, first, first + length, pfn / CHUNK_BITS, pfn);
      var byte, bit := pfn % CHUNK_BITS / 8, pfn % CHUNK_BITS % 8;
      buf[byte] := buf[byte] | Mask(bit);
    }

    /** set_dump_bitmap(last_pfn, last_pfn + PFN_BUFBITMAP, false): the pending buffer is written. */
    method Sync(last: nat, ghost pfns: set<nat>, ghost before: seq<Record>)
      requires Carries(pfns, last, before)
      modifies file, buf
      ensures file.records == before + Expected(pfns, first, first + length, last / CHUNK_BITS + 1)
    {
      var pfn := last + CHUNK_BITS;
      Flush(last, pfn, pfns, before);
      var byte, bit := pfn % CHUNK_BITS / 8, pfn % CHUNK_BITS % 8;
      buf[byte] := buf[byte] & !Mask(bit);
    }

    /** write_dump_bitmap: the bits of all dumped pages, buffer by buffer; the number of pages is
        returned for the page descriptors. */
    method WriteDumpBitmap(blocks: seq<Block>) returns (numDumpable: nat)
      requires Dumpable(blocks) && blocks != [] && Carries({}, 0, file.records)
      modifies file, buf
      ensures numDumpable == |AllPages(blocks)|
      ensures file.records == old(file.records) + Expected(Pfns(AllPages(blocks)), first, first + length, Chunks(MaxMapnr(blocks)))
    {
      hide Chunk, Expected, AllPages, Ascending, Pfns;
      ghost var all := AllPages(blocks);
      var iter := new PageIterator(blocks);
      ghost var before := file.records;
      numDumpable := 0;
      var last := 0;
      PfnsNone();
      var more, page := iter.Next();
      while more
        invariant iter.Valid() && fresh(iter) && iter.blocks == blocks
        invariant numDumpable <= |all| && more == (numDumpable < |all|)
        invariant more ==> iter.given == numDumpable + 1 && page == all[numDumpable]
        invariant last == if numDumpable == 0 then 0 else all[numDumpable - 1].pfn
        invariant Carries(Pfns(all[..numDumpable]), last, before)
        decreases |all| - numDumpable
      {
        if numDumpable > 0 {
          PagesAscend(blocks, numDumpable - 1, numDumpable);
        }
        PfnsNext(all, numDumpable);
        SetBit(last, page.pfn, Pfns(all[..numDumpable]), before);
        last := page.pfn;
        numDumpable := numDumpable + 1;
        more, page := iter.Next();
      }
      LastPage(blocks);
      assert all[..numDumpable] == all;
      if numDumpable > 0 {
        Sync(last, Pfns(all), before);
      }
    }
  }

  /** max_mapnr: the number of pages up to the end of the last block. */
  function MaxMapnr(blocks: seq<Block>): nat {
    if blocks == [] then 0 else blocks[|blocks| - 1].end / PAGE_SIZE
  }

  /** Buffers needed for the bits of `n` pages. */
  function Chunks(n: nat): nat {
    if n == 0 then 0 else (n - 1) / CHUNK_BITS + 1
  }

  /** The buffers fill one copy's place in the file exactly. */
  lemma ChunksFillBitmap(maxMapnr: nat)
    ensures Chunks(maxMapnr) * CHUNK_BYTES == BitmapLength(maxMapnr)
    ensures maxMapnr <= Chunks(maxMapnr) * CHUNK_BITS
  {
  }

  lemma PfnsNone()
    ensures forall s: seq<Page> :: Pfns(s[..0]) == {}
  {
  }

  lemma PfnsNext(pages: seq<Page>, n: nat)
    requires n < |pages|
    ensures Pfns(pages[..n + 1]) == Pfns(pages[..n]) + {pages[n].pfn}
  {
    var after, before := pages[..n + 1], pages[..n];
    assert forall i | 0 <= i < n :: after[i] == before[i];
    forall p | p in Pfns(before) + {pages[n].pfn}
      ensures p in Pfns(after)
    {
      if p == pages[n].pfn {
        assert after[n].pfn == p;
      } else {
        var i :| 0 <= i < |before| && before[i].pfn == p;
        assert after[i].pfn == p;
      }
    }
    forall p | p in Pfns(after)
      ensures p in Pfns(before) + {pages[n].pfn}
    {
      var i :| 0 <= i < |after| && after[i].pfn == p;
      if i < n {
        assert before[i].pfn == p;
      }
    }
  }

  /** Buffer `c` of either copy is where it belongs once all buffers are written. */
  lemma {:induction false} ExpectedHolds(before: seq<Record>, pfns: set<nat>, first: nat, second: nat, n: nat, c: nat)
    requires c < n && first + CHUNK_BYTES * n <= second
    ensures HoldsAt(before + Expected(pfns, first, second, n), first + CHUNK_BYTES * c, Chunk(pfns, c))
    ensures HoldsAt(before + Expected(pfns, first, second, n), second + CHUNK_BYTES * c, Chunk(pfns, c))
  {
    hide Chunk, Expected, HoldsAt;
    ExpectedNext(pfns, first, second, n - 1);
    var r1 := Record(first + CHUNK_BYTES * (n - 1), Chunk(pfns, n - 1));
    var r2 := Record(second + CHUNK_BYTES * (n - 1), Chunk(pfns, n - 1));
    var prior := before + Expected(pfns, first, second, n - 1);
    assert before + Expected(pfns, first, second, n) == prior + [r1] + [r2];
    if c < n - 1 {
      ExpectedHolds(before, pfns, first, second, n - 1, c);
      HoldsElsewhere(prior, r1, first + CHUNK_BYTES * c, Chunk(pfns, c));
      HoldsElsewhere(prior + [r1], r2, first + CHUNK_BYTES * c, Chunk(pfns, c));
      HoldsElsewhere(prior, r1, second + CHUNK_BYTES * c, Chunk(pfns, c));
      HoldsElsewhere(prior + [r1], r2, second + CHUNK_BYTES * c, Chunk(pfns, c));
    } else {
      HoldsRecord(prior, r1);
      HoldsElsewhere(prior + [r1], r2, r1.offset, r1.data);
      HoldsRecord(prior + [r1], r2);
    }
  }

  /** Reading the written bitmap: bit p of either copy is set exactly for dumped pages. */
  lemma BitmapBits(before: seq<Record>, pfns: set<nat>, first: nat, second: nat, n: nat, p: nat)
    requires p < n * CHUNK_BITS && first + CHUNK_BYTES * n <= second
    ensures var file := before + Expected(pfns, first, second, n);
      && ByteAt(file, first + p / 8).Some? && ByteAt(file, second + p / 8).Some?
      && (BitSet(ByteAt(file, first + p / 8).value, p % 8) <==> p in pfns)
      && (BitSet(ByteAt(file, second + p / 8).value, p % 8) <==> p in pfns)
  {
    hide Expected, ByteOf;
    var c, i := p / CHUNK_BITS, p % CHUNK_BITS / 8;
    ExpectedHolds(before, pfns, first, second, n, c);
    var file := before + Expected(pfns, first, second, n);
    assert ByteAt(file, first + CHUNK_BYTES * c + i) == Some(Chunk(pfns, c)[i]);
    assert ByteAt(file, second + CHUNK_BYTES * c + i) == Some(Chunk(pfns, c)[i]);
    assert Chunk(pfns, c)[i] == ByteOf(pfns, c * CHUNK_BITS + i * 8);
    ByteOfBits(pfns, c * CHUNK_BITS + i * 8, p % 8);
  }

  /** The frame numbers of a list of pages. */
  function Pfns(pages: seq<Page>): set<nat> {
    set i | 0 <= i < |pages| :: pages[i].pfn
  }

  lemma ExpectedNext(pfns: set<nat>, first: nat, second: nat, c: nat)
    ensures Expected(pfns, first, second, c + 1) == Expected(pfns, first, second, c)
         + [Record(first + CHUNK_BYTES * c, Chunk(pfns, c)), Record(second + CHUNK_BYTES * c, Chunk(pfns, c))]
  {
  }
}
