/** The pages of guest memory in dump order, and the iteration that yields them one by one. */
module DumpPages {
  import opened Basics
  import opened GuestMemory
  import SeqFacts

  /** A page frame number and the host address of the page. */
  datatype Page = Page(pfn: nat, host: int)

  predicate PageAligned(b: Block) {
    b.start % PAGE_SIZE == 0 && b.end % PAGE_SIZE == 0 && b.start < b.end
  }

  predicate Dumpable(blocks: seq<Block>) {
    Ascending(blocks) && forall i | 0 <= i < |blocks| :: PageAligned(blocks[i])
  }

  function BlockPages(b: Block): seq<Page>
    requires PageAligned(b)
  {
    seq((b.end - b.start) / PAGE_SIZE, i requires 0 <= i => Page(b.start / PAGE_SIZE + i, b.host + i * PAGE_SIZE))
  }

  function AllPages(blocks: seq<Block>): seq<Page>
    requires forall i | 0 <= i < |blocks| :: PageAligned(blocks[i])
  {
    if blocks == [] then [] else BlockPages(blocks[0]) + AllPages(blocks[1..])
  }

  lemma BlockPageCount(b: Block)
    requires PageAligned(b)
    ensures |BlockPages(b)| == b.end / PAGE_SIZE - b.start / PAGE_SIZE > 0
  {
    var p, q := b.start / PAGE_SIZE, b.end / PAGE_SIZE;
    assert b.start == p * PAGE_SIZE && b.end == q * PAGE_SIZE;
  }

  /** The test of get_next_page decides whether a frame lies in the block, which then has its page. */
  lemma BlockPageAt(b: Block, pfn: nat)
    requires PageAligned(b)
    ensures (pfn * PAGE_SIZE >= b.start && pfn * PAGE_SIZE + PAGE_SIZE <= b.end) <==>
            b.start / PAGE_SIZE <= pfn < b.end / PAGE_SIZE
    ensures b.start / PAGE_SIZE <= pfn < b.end / PAGE_SIZE ==>
            && pfn - b.start / PAGE_SIZE < |BlockPages(b)|
            && BlockPages(b)[pfn - b.start / PAGE_SIZE] == Page(pfn, b.host + (pfn * PAGE_SIZE - b.start))
  {
    var p, q := b.start / PAGE_SIZE, b.end / PAGE_SIZE;
    assert b.start == p * PAGE_SIZE && b.end == q * PAGE_SIZE;
  }

  lemma FirstOfBlock(b: Block)
    requires PageAligned(b)
    ensures b.start / PAGE_SIZE * PAGE_SIZE == b.start
  {
  }

  lemma {:induction false} AllPagesSplit(blocks: seq<Block>, k: nat)
    requires k <= |blocks| && forall i | 0 <= i < |blocks| :: PageAligned(blocks[i])
    ensures AllPages(blocks) == AllPages(blocks[..k]) + AllPages(blocks[k..])
  {
    if k == 0 {
      assert blocks[..0] == [] && blocks[0..] == blocks;
    } else {
      AllPagesSplit(blocks[1..], k - 1);
      assert blocks[1..][..k - 1] == blocks[..k][1..] && blocks[1..][k - 1..] == blocks[k..];
    }
  }

  /** Page `i` of block `k`, in the whole order. */
  lemma AllPagesAt(blocks: seq<Block>, k: nat, i: nat)
    requires k < |blocks| && (forall j | 0 <= j < |blocks| :: PageAligned(blocks[j])) && i < |BlockPages(blocks[k])|
    ensures |AllPages(blocks[..k])| + i < |AllPages(blocks)|
    ensures AllPages(blocks)[|AllPages(blocks[..k])| + i] == BlockPages(blocks[k])[i]
  {
    AllPagesSplit(blocks, k);
    assert AllPages(blocks[k..]) == BlockPages(blocks[k]) + AllPages(blocks[k..][1..]);
  }

  lemma AllPagesNext(blocks: seq<Block>, k: nat)
    requires k < |blocks| && (forall j | 0 <= j < |blocks| :: PageAligned(blocks[j]))
    ensures |AllPages(blocks[..k + 1])| == |AllPages(blocks[..k])| + |BlockPages(blocks[k])|
  {
    AllPagesSplit(blocks[..k + 1], k);
    assert blocks[..k + 1][..k] == blocks[..k] && blocks[..k + 1][k..] == [blocks[k]];
    assert [blocks[k]][1..] == [];
    assert AllPages([blocks[k]]) == BlockPages(blocks[k]) + AllPages([]);
  }

  lemma NoPages()
    ensures AllPages([]) == []
  {
  }

  /** Every page lies in guest memory at its frame number, below the end of the last block. */
  lemma {:induction false} PageIsGuestMemory(blocks: seq<Block>, n: nat, o: nat)
    requires Dumpable(blocks) && n < |AllPages(blocks)| && o < PAGE_SIZE
    ensures HostOf(blocks, AllPages(blocks)[n].pfn * PAGE_SIZE + o) == Some(AllPages(blocks)[n].host + o)
    ensures blocks[0].start <= AllPages(blocks)[n].pfn * PAGE_SIZE
    ensures AllPages(blocks)[n].pfn * PAGE_SIZE + PAGE_SIZE <= blocks[|blocks| - 1].end
    decreases |blocks|
  {
    var first := BlockPages(blocks[0]);
    if n < |first| {
      HostOfBlock(blocks, 0, first[n].pfn * PAGE_SIZE + o);
    } else {
      PageIsGuestMemory(blocks[1..], n - |first|, o);
    }
  }

  /** Every page of guest memory is among them. */
  lemma {:induction false} PageOfAddress(blocks: seq<Block>, a: nat) returns (n: nat)
    requires Dumpable(blocks) && HostOf(blocks, a).Some?
    ensures n < |AllPages(blocks)| && AllPages(blocks)[n].pfn == a / PAGE_SIZE
    decreases |blocks|
  {
    var first := BlockPages(blocks[0]);
    if Contains(blocks[0], a) {
      n := a / PAGE_SIZE - blocks[0].start / PAGE_SIZE;
      BlockPageAt(blocks[0], a / PAGE_SIZE);
    } else {
      n := PageOfAddress(blocks[1..], a);
      n := n + |first|;
    }
  }

  /** Frame numbers strictly increase. */
  lemma {:induction false} PagesAscend(blocks: seq<Block>, m: nat, n: nat)
    requires Dumpable(blocks) && m < n < |AllPages(blocks)|
    ensures AllPages(blocks)[m].pfn < AllPages(blocks)[n].pfn
    decreases |blocks|
  {
    var first := BlockPages(blocks[0]);
    if m >= |first| {
      PagesAscend(blocks[1..], m - |first|, n - |first|);
    } else if n >= |first| {
      PageIsGuestMemory(blocks[1..], n - |first|, 0);
    }
  }

  /** The last page is the one below the end of the last block. */
  lemma LastPage(blocks: seq<Block>)
    requires Dumpable(blocks) && blocks != []
    ensures |AllPages(blocks)| > 0
    ensures AllPages(blocks)[|AllPages(blocks)| - 1].pfn + 1 == blocks[|blocks| - 1].end / PAGE_SIZE
  {
    hide AllPages, BlockPages, PageAligned, Ascending;
    var k := |blocks| - 1;
    BlockPageCount(blocks[k]);
    BlockPageAt(blocks[k], blocks[k].end / PAGE_SIZE - 1);
    AllPagesNext(blocks, k);
    assert blocks[..k + 1] == blocks;
    AllPagesAt(blocks, k, |BlockPages(blocks[k])| - 1);
  }

  class PageIterator {
    const blocks: seq<Block>
    /** None before the first page and after the last. */
    var block: Option<nat>
    var pfn: nat
    /** How many pages the current round has yielded. */
    ghost var given: nat

    ghost predicate Valid()
      reads this
    {
      && Dumpable(blocks) && blocks != []
      && match block
         case None => given == 0
         case Some(k) =>
           && k < |blocks| && blocks[k].start / PAGE_SIZE <= pfn < blocks[k].end / PAGE_SIZE
           && given == |AllPages(blocks[..k])| + (pfn - blocks[k].start / PAGE_SIZE) + 1
    }

    constructor (blocks: seq<Block>)
      requires Dumpable(blocks) && blocks != []
      ensures Valid() && this.blocks == blocks && given == 0
    {
      this.blocks, block, pfn, given := blocks, None, 0, 0;
    }

    /** get_next_page: yields all pages in order, then reports the end and starts over. */
    method Next() returns (more: bool, page: Page)
      requires Valid()
      modifies this
      ensures Valid()
      ensures more <==> old(given) < |AllPages(blocks)|
      ensures more ==> page == AllPages(blocks)[old(given)] && given == old(given) + 1
      ensures !more ==> given == 0 && old(given) == |AllPages(blocks)|
    {
      hide AllPages, BlockPages, PageAligned, Ascending;
      if block.None? {
        NoPages();
        assert blocks[..0] == [];
        page := EnterBlock(0);
        return true, page;
      }
      var k := block.value;
      BlockPageCount(blocks[k]);
      BlockPageAt(blocks[k], pfn + 1);
      AllPagesNext(blocks, k);
      pfn := pfn + 1;
      var addr := pfn * PAGE_SIZE;
      if addr >= blocks[k].start && addr + PAGE_SIZE <= blocks[k].end {
        page := Page(pfn, blocks[k].host + (addr - blocks[k].start));
        AllPagesAt(blocks, k, pfn - blocks[k].start / PAGE_SIZE);
        given := given + 1;
        return true, page;
      }
      k := k + 1;
      if k == |blocks| {
        assert blocks[..k] == blocks;
        block, given := None, 0;
        return false, Page(0, 0);
      }
      page := EnterBlock(k);
      more := true;
    }

    /** The first page of block `k`. */
    method EnterBlock(k: nat) returns (page: Page)
      requires Dumpable(blocks) && k < |blocks|
      modifies this
      ensures Valid() && |AllPages(blocks[..k])| < |AllPages(blocks)|
      ensures page == AllPages(blocks)[|AllPages(blocks[..k])|] && given == |AllPages(blocks[..k])| + 1
    {
      hide AllPages, BlockPages, PageAligned, Ascending;
      BlockPageCount(blocks[k]);
      BlockPageAt(blocks[k], blocks[k].start / PAGE_SIZE);
      FirstOfBlock(blocks[k]);
      AllPagesAt(blocks, k, 0);
      block, pfn := Some(k), blocks[k].start / PAGE_SIZE;
      given := |AllPages(blocks[..k])| + 1;
      page := Page(pfn, blocks[k].host);
    }
  }
}
