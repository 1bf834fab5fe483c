/** The list of guest RAM blocks: where new blocks are placed in the RAM offset space, the order of
    the list, and the lookup with its most-recently-used shortcut. */
module RamBlocks {
  import opened Basics

  /** ram_addr_t is 64 bits wide; RAM_ADDR_MAX is its largest value. */
  const WORD := 0x1_0000_0000_0000_0000
  const RAM_ADDR_MAX := 0xFFFF_FFFF_FFFF_FFFF

  datatype Block = Block(offset: nat, length: nat)

  function End(b: Block): nat {
    b.offset + b.length
  }

  /** Unsigned 64-bit subtraction. */
  function Sub64(a: nat, b: nat): nat
    requires a < WORD && b < WORD
  {
    if a >= b then a - b else a + WORD - b
  }

  /** It is the difference modulo 2^64. */
  lemma Sub64Wraps(a: nat, b: nat)
    requires a < WORD && b < WORD
    ensures Sub64(a, b) < WORD && (Sub64(a, b) + b) % WORD == a
  {
  }

  /** `addr - block->offset < block->max_length`, in 64-bit arithmetic. */
  predicate Matches(b: Block, addr: nat)
    requires b.offset < WORD && addr < WORD
  {
    Sub64(addr, b.offset) < b.length
  }

  predicate Proper(b: Block) {
    b.length > 0 && End(b) <= RAM_ADDR_MAX
  }

  predicate Disjoint(blocks: seq<Block>) {
    forall i, j | 0 <= i < j < |blocks| :: End(blocks[i]) <= blocks[j].offset || End(blocks[j]) <= blocks[i].offset
  }

  /** From biggest to smallest. */
  predicate Sorted(blocks: seq<Block>) {
    forall i, j | 0 <= i < j < |blocks| :: blocks[i].length >= blocks[j].length
  }

  predicate ListOk(blocks: seq<Block>) {
    (forall i | 0 <= i < |blocks| :: Proper(blocks[i])) && Disjoint(blocks) && Sorted(blocks)
  }

  /** A proper block matches exactly the addresses inside it: the subtraction never wraps into it. */
  lemma MatchesIsInside(b: Block, addr: nat)
    requires Proper(b) && addr < WORD
    ensures Matches(b, addr) <==> b.offset <= addr < End(b)
  {
  }

  /** The first block of the list that holds an address. */
  function Scan(blocks: seq<Block>, addr: nat): Option<Block> {
    if blocks == [] then None
    else if blocks[0].offset <= addr < End(blocks[0]) then Some(blocks[0])
    else Scan(blocks[1..], addr)
  }

  lemma {:induction false} ScanFinds(blocks: seq<Block>, i: nat, addr: nat)
    requires Disjoint(blocks) && i < |blocks| && blocks[i].offset <= addr < End(blocks[i])
    ensures Scan(blocks, addr) == Some(blocks[i])
  {
    if i > 0 {
      assert End(blocks[0]) <= blocks[i].offset || End(blocks[i]) <= blocks[0].offset;
      ScanFinds(blocks[1..], i - 1, addr);
    }
  }

  function Min(a: nat, b: nat): nat {
    if a < b then a else b
  }

  /** Start of the next block at or after `end`, RAM_ADDR_MAX if there is none. */
  function NextStart(blocks: seq<Block>, end: nat): nat {
    if blocks == [] then RAM_ADDR_MAX
    else
      var rest := NextStart(blocks[1..], end);
      if blocks[0].offset >= end && blocks[0].offset < rest then blocks[0].offset else rest
  }

  lemma {:induction false} NextStartIs(blocks: seq<Block>, end: nat)
    ensures NextStart(blocks, end) <= RAM_ADDR_MAX
    ensures forall i | 0 <= i < |blocks| && blocks[i].offset >= end :: NextStart(blocks, end) <= blocks[i].offset
    ensures end <= RAM_ADDR_MAX ==> NextStart(blocks, end) >= end
    ensures NextStart(blocks, end) == RAM_ADDR_MAX ||
            exists i :: 0 <= i < |blocks| && blocks[i].offset == NextStart(blocks, end) && blocks[i].offset >= end
  {
    if blocks != [] {
      NextStartIs(blocks[1..], end);
      var rest := NextStart(blocks[1..], end);
      if rest != RAM_ADDR_MAX {
        var i :| 0 <= i < |blocks[1..]| && blocks[1..][i].offset == rest && rest >= end;
        assert blocks[i + 1].offset == rest;
      }
    }
  }

  /** `size` bytes at an offset lie below RAM_ADDR_MAX and meet no block. */
  predicate Vacant(blocks: seq<Block>, at: nat, size: nat) {
    at + size <= RAM_ADDR_MAX && forall j | 0 <= j < |blocks| :: End(blocks[j]) <= at || at + size <= blocks[j].offset
  }

  /** The free space behind block `b`. */
  function Gap(blocks: seq<Block>, b: Block): int {
    NextStart(blocks, End(b)) - End(b)
  }

  /** The gap behind a block is the most that is free there. */
  lemma GapIsFree(blocks: seq<Block>, i: nat, size: nat)
    requires ListOk(blocks) && i < |blocks|
    ensures Gap(blocks, blocks[i]) >= size <==> Vacant(blocks, End(blocks[i]), size)
  {
    hide NextStart;
    var end := End(blocks[i]);
    NextStartIs(blocks, end);
    if Gap(blocks, blocks[i]) >= size {
      forall j | 0 <= j < |blocks|
        ensures End(blocks[j]) <= end || end + size <= blocks[j].offset
      {
        if j != i {
          assert End(blocks[j]) <= blocks[i].offset || end <= blocks[j].offset;
        }
      }
    }
    if Vacant(blocks, end, size) && NextStart(blocks, end) != RAM_ADDR_MAX {
      var j :| 0 <= j < |blocks| && blocks[j].offset == NextStart(blocks, end) && blocks[j].offset >= end;
      assert Proper(blocks[j]);
    }
  }

  /** `offset` is the end of a block with `size` bytes free behind it, and no more is free there than
      behind any other block with so much space. */
  ghost predicate BestFit(blocks: seq<Block>, size: nat, offset: nat) {
    exists i :: 0 <= i < |blocks| && offset == End(blocks[i]) && Vacant(blocks, offset, size) && LeastFree(blocks, size, offset)
  }

  ghost predicate LeastFree(blocks: seq<Block>, size: nat, offset: nat) {
    forall j, n: nat | 0 <= j < |blocks| && Vacant(blocks, End(blocks[j]), size) && Vacant(blocks, offset, n) :: Vacant(blocks, End(blocks[j]), n)
  }

  /** No block has so much space behind it. */
  predicate NoGap(blocks: seq<Block>, size: nat) {
    forall i | 0 <= i < |blocks| :: !Vacant(blocks, End(blocks[i]), size)
  }

  lemma SmallestGap(blocks: seq<Block>, i: nat, size: nat)
    requires ListOk(blocks) && i < |blocks| && Gap(blocks, blocks[i]) >= size
    requires forall j | 0 <= j < |blocks| && Gap(blocks, blocks[j]) >= size :: Gap(blocks, blocks[i]) <= Gap(blocks, blocks[j])
    ensures BestFit(blocks, size, End(blocks[i]))
  {
    hide ListOk, Gap, Vacant;
    GapIsFree(blocks, i, size);
    forall j, n: nat | 0 <= j < |blocks| && Vacant(blocks, End(blocks[j]), size) && Vacant(blocks, End(blocks[i]), n)
      ensures Vacant(blocks, End(blocks[j]), n)
    {
      GapIsFree(blocks, j, size);
      GapIsFree(blocks, i, n);
      GapIsFree(blocks, j, n);
    }
  }

  lemma GapsTooSmall(blocks: seq<Block>, size: nat)
    requires ListOk(blocks)
    ensures NoGap(blocks, size) <==> forall i | 0 <= i < |blocks| :: Gap(blocks, blocks[i]) < size
  {
    hide ListOk, Gap, Vacant;
    forall i | 0 <= i < |blocks|
      ensures Vacant(blocks, End(blocks[i]), size) <==> Gap(blocks, blocks[i]) >= size
    {
      GapIsFree(blocks, i, size);
    }
  }

  lemma BlockProper(blocks: seq<Block>, i: nat)
    requires ListOk(blocks) && i < |blocks|
    ensures Proper(blocks[i])
  {
  }

  class RamList {
    var blocks: seq<Block>
    var mru: Option<Block>
    var version: nat

    ghost predicate Valid()
      reads this
    {
      ListOk(blocks) && (mru.Some? ==> mru.value in blocks)
    }

    constructor ()
      ensures Valid() && blocks == [] && mru == None
    {
      blocks, mru, version := [], None, 0;
    }

    /** find_ram_offset; None stands for the abort when no gap is large enough. */
    method FindRamOffset(size: nat) returns (r: Option<nat>)
      requires Valid() && size > 0
      ensures blocks == [] ==> r == Some(0)
      ensures blocks != [] && r.Some? ==> BestFit(blocks, size, r.value)
      ensures blocks != [] ==> (r.None? <==> NoGap(blocks, size))
    {
      hide NextStart, ListOk, Vacant, NoGap, BestFit;
      if blocks == [] {
        return Some(0);
      }
      GapsTooSmall(blocks, size);
      var offset, mingap := RAM_ADDR_MAX, RAM_ADDR_MAX;
      ghost var best := -1;
      for i := 0 to |blocks|
        invariant best == -1 ==> offset == RAM_ADDR_MAX && mingap == RAM_ADDR_MAX
        invariant best == -1 ==> forall j | 0 <= j < i :: Gap(blocks, blocks[j]) < size
        invariant best != -1 ==> 0 <= best < i && offset < RAM_ADDR_MAX && offset == End(blocks[best]) && mingap == Gap(blocks, blocks[best]) >= size
        invariant best != -1 ==> forall j | 0 <= j < i && Gap(blocks, blocks[j]) >= size :: mingap <= Gap(blocks, blocks[j])
      {
        BlockProper(blocks, i);
        var end := blocks[i].offset + blocks[i].length;
        var next := NextBlock(end);
        NextStartIs(blocks, end);
        if next - end >= size && next - end < mingap {
          offset, mingap := end, next - end;
          best := i;
        }
      }
      if offset == RAM_ADDR_MAX {
        return None;
      }
      SmallestGap(blocks, best, size);
      r := Some(offset);
    }

    /** The inner loop of find_ram_offset. */
    method NextBlock(end: nat) returns (next: nat)
      ensures next == NextStart(blocks, end)
    {
      next := RAM_ADDR_MAX;
      NextStartIs(blocks, end);
      for i := 0 to |blocks|
        invariant next <= RAM_ADDR_MAX && Min(next, NextStart(blocks[i..], end)) == NextStart(blocks, end)
      {
        assert blocks[i..][1..] == blocks[i + 1..];
        if blocks[i].offset >= end {
          next := Min(next, blocks[i].offset);
        }
      }
    }

    /** ram_block_add: places the block and keeps the list sorted. Fails without host memory or when
        no gap is left. */
    method Add(length: nat, haveHostMemory: bool) returns (r: Option<Block>)
      requires Valid() && 0 < length <= RAM_ADDR_MAX
      modifies this
      ensures Valid()
      ensures r.None? ==> blocks == old(blocks) && mru == old(mru) && version == old(version)
      ensures r.Some? ==> r.value.length == length && mru == None && version == old(version) + 1
      ensures r.Some? ==> multiset(blocks) == multiset(old(blocks)) + multiset{r.value}
      ensures r.Some? ==> if old(blocks) == [] then r.value.offset == 0 else BestFit(old(blocks), length, r.value.offset)
      ensures r.Some? ==> forall b :: b in old(blocks) ==> End(b) <= r.value.offset || End(r.value) <= b.offset
      ensures r.None? <==> !haveHostMemory || (old(blocks) != [] && NoGap(old(blocks), length))
    {
      hide ListOk, BestFit, NoGap, Inserted;
      var offset := FindRamOffset(length);
      if offset.None? || !haveHostMemory {
        return None;
      }
      var b := Block(offset.value, length);
      FitsApart(blocks, b);
      var i := 0;
      while i < |blocks| && blocks[i].length >= length
        invariant 0 <= i <= |blocks|
        invariant forall j | 0 <= j < i :: blocks[j].length >= length
      {
        i := i + 1;
      }
      InsertOk(blocks, i, b);
      blocks := Inserted(blocks, i, b);
      mru := None;
      version := version + 1;
      r := Some(b);
    }

    /** qemu_ram_free: removes the block at an offset, if there is one. */
    method Free(offset: nat)
      requires Valid()
      modifies this
      ensures Valid()
      ensures (forall b :: b in old(blocks) ==> b.offset != offset) ==> blocks == old(blocks)
      ensures forall b :: b in blocks <==> b in old(blocks) && b.offset != offset
      ensures forall i | 0 <= i < |old(blocks)| && old(blocks)[i].offset == offset ::
                blocks == old(blocks)[..i] + old(blocks)[i + 1..] && mru == None && version == old(version) + 1
    {
      for i := 0 to |blocks|
        invariant blocks == old(blocks) && mru == old(mru) && version == old(version)
        invariant forall j | 0 <= j < i :: blocks[j].offset != offset
      {
        if blocks[i].offset == offset {
          OneAt(blocks, i);
          RemoveOk(blocks, i);
          blocks := blocks[..i] + blocks[i + 1..];
          mru := None;
          version := version + 1;
          return;
        }
      }
    }

    /** qemu_get_ram_block: the shortcut never changes the answer of the scan. None stands for the
        abort on a bad offset. */
    method GetRamBlock(addr: nat) returns (r: Option<Block>)
      requires Valid() && addr < WORD
      modifies this`mru
      ensures Valid() && r == Scan(blocks, addr)
      ensures mru == if r.Some? then r else old(mru)
    {
      if mru.Some? {
        var k :| 0 <= k < |blocks| && blocks[k] == mru.value;
        MatchesIsInside(mru.value, addr);
        if Matches(mru.value, addr) {
          ScanFinds(blocks, k, addr);
          return mru;
        }
      }
      for i := 0 to |blocks|
        invariant Scan(blocks[i..], addr) == Scan(blocks, addr) && mru == old(mru)
      {
        assert blocks[i..][0] == blocks[i] && blocks[i..][1..] == blocks[i + 1..];
        MatchesIsInside(blocks[i], addr);
        if Matches(blocks[i], addr) {
          mru := Some(blocks[i]);
          return mru;
        }
      }
      r := None;
    }
  }

  lemma FitsApart(blocks: seq<Block>, b: Block)
    requires ListOk(blocks) && 0 < b.length <= RAM_ADDR_MAX
    requires if blocks == [] then b.offset == 0 else BestFit(blocks, b.length, b.offset)
    ensures Proper(b) && forall j | 0 <= j < |blocks| :: End(blocks[j]) <= b.offset || End(b) <= blocks[j].offset
    ensures forall x :: x in blocks ==> End(x) <= b.offset || End(b) <= x.offset
  {
    if blocks != [] {
      assert Vacant(blocks, b.offset, b.length);
    }
  }

  lemma InsertOk(blocks: seq<Block>, i: nat, b: Block)
    requires ListOk(blocks) && Proper(b) && i <= |blocks|
    requires forall j | 0 <= j < |blocks| :: End(blocks[j]) <= b.offset || End(b) <= blocks[j].offset
    requires forall j | 0 <= j < i :: blocks[j].length >= b.length
    requires i < |blocks| ==> blocks[i].length < b.length
    ensures ListOk(Inserted(blocks, i, b))
    ensures multiset(Inserted(blocks, i, b)) == multiset(blocks) + multiset{b}
  {
    hide Sorted, Disjoint;
    InsertSorted(blocks, i, b);
    InsertDisjoint(blocks, i, b);
    InsertCounts(blocks, i, b);
  }

  lemma InsertCounts(blocks: seq<Block>, i: nat, b: Block)
    requires i <= |blocks|
    ensures multiset(Inserted(blocks, i, b)) == multiset(blocks) + multiset{b}
  {
    assert blocks[..i] + blocks[i..] == blocks;
  }

  function Inserted(blocks: seq<Block>, i: nat, b: Block): (r: seq<Block>)
    requires i <= |blocks|
    ensures |r| == |blocks| + 1
    ensures forall k | 0 <= k < |r| :: r[k] == if k < i then blocks[k] else if k == i then b else blocks[k - 1]
  {
    blocks[..i] + [b] + blocks[i..]
  }

  lemma InsertSorted(blocks: seq<Block>, i: nat, b: Block)
    requires Sorted(blocks) && i <= |blocks|
    requires forall j | 0 <= j < i :: blocks[j].length >= b.length
    requires i < |blocks| ==> blocks[i].length < b.length
    ensures Sorted(Inserted(blocks, i, b))
  {
    var r := Inserted(blocks, i, b);
    forall j, k | 0 <= j < k < |r|
      ensures r[j].length >= r[k].length
    {
      if j == i && k > i + 1 {
        assert blocks[i].length >= blocks[k - 1].length;
      }
    }
  }

  lemma InsertDisjoint(blocks: seq<Block>, i: nat, b: Block)
    requires Disjoint(blocks) && i <= |blocks|
    requires forall j | 0 <= j < |blocks| :: End(blocks[j]) <= b.offset || End(b) <= blocks[j].offset
    ensures Disjoint(Inserted(blocks, i, b))
  {
    var r := Inserted(blocks, i, b);
    forall j, k | 0 <= j < k < |r|
      ensures End(r[j]) <= r[k].offset || End(r[k]) <= r[j].offset
    {
    }
  }

  lemma RemoveOk(blocks: seq<Block>, i: nat)
    requires ListOk(blocks) && i < |blocks|
    ensures ListOk(blocks[..i] + blocks[i + 1..])
  {
  }

  /** Only one block starts at an offset. */
  lemma OneAt(blocks: seq<Block>, i: nat)
    requires ListOk(blocks) && i < |blocks|
    ensures forall j | 0 <= j < |blocks| && j != i :: blocks[j].offset != blocks[i].offset
    ensures forall b :: b in blocks[..i] + blocks[i + 1..] <==> b in blocks && b.offset != blocks[i].offset
  {
    forall j | 0 <= j < |blocks| && j != i
      ensures blocks[j].offset != blocks[i].offset
    {
      assert End(blocks[j]) <= blocks[i].offset || End(blocks[i]) <= blocks[j].offset;
    }
    var rest := blocks[..i] + blocks[i + 1..];
    forall b | b in blocks && b.offset != blocks[i].offset
      ensures b in rest
    {
      var j :| 0 <= j < |blocks| && blocks[j] == b;
      assert rest[if j < i then j else j - 1] == b;
    }
  }
}
