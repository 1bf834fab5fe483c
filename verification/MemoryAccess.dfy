/** Reading and writing a range of guest-physical memory: the range is cut into chunks that go to RAM
    or to devices, one after the other. */
module MemoryAccess {
  import opened Basics

  type Byte = bv8

  /** The RAM of a region starts at `ramAddr` in a block of RAM that ends at `ramEnd`; each block has host
      memory of its own. `maxAccess` is the largest access a device declares (0 when it does not say). */
  datatype Region = Region(isRam: bool, readonly: bool, romd: bool, ramAddr: nat, ramEnd: nat, maxAccess: nat,
                           unaligned: bool)

  datatype Section = Section(start: nat, size: nat, regionOffset: nat, region: Region)

  /** The section of every address; unassigned addresses belong to a section of their own. */
  type Space = nat -> Section

  predicate Covers(s: Section, a: nat) {
    s.start <= a < s.start + s.size
  }

  /** memory_access_is_direct */
  predicate Direct(r: Region, isWrite: bool) {
    if r.isRam then !(isWrite && r.readonly) else r.romd && !isWrite
  }

  predicate MaxAccessOk(r: Region) {
    r.maxAccess == 0 || r.maxAccess == 1 || r.maxAccess == 2 || r.maxAccess == 4 || r.maxAccess == 8
  }

  /** Sections cover their addresses; RAM and ROM sections are the same from each of theirs, and lie
      inside their block of the RAM of `ramSize` bytes. */
  ghost predicate SpaceOk(sp: Space, ramSize: nat) {
    forall a: nat :: SectionOk(sp, ramSize, a)
  }

  ghost predicate SectionOk(sp: Space, ramSize: nat, a: nat) {
    var s := sp(a);
    && Covers(s, a) && MaxAccessOk(s.region)
    && (s.region.isRam || s.region.romd ==>
          && s.region.ramAddr + s.regionOffset + s.size <= s.region.ramEnd <= ramSize
          && forall b: nat | Covers(s, b) :: sp(b) == s)
  }

  /** Offset in the region. */
  function Xlat(sp: Space, a: nat): int {
    a - sp(a).start + sp(a).regionOffset
  }

  /** Where in RAM the byte at a directly accessible address lives. */
  function RamOf(sp: Space, a: nat): int {
    Xlat(sp, a) + sp(a).region.ramAddr
  }

  /** addr & -addr: the lowest one bit; 0 for 0. */
  function LowBit(x: nat): nat {
    if x == 0 then 0 else if x % 2 == 1 then 1 else 2 * LowBit(x / 2)
  }

  lemma LowBitHalf(x: nat)
    ensures LowBit(x) != 1 ==> x % 2 == 0 && LowBit(x) == 2 * LowBit(x / 2)
  {
  }

  lemma LowBitDivides4(x: nat)
    ensures LowBit(x) != 1 && LowBit(x) != 2 ==> x % 4 == 0
  {
    hide LowBit;
    LowBitHalf(x);
    LowBitHalf(x / 2);
  }

  lemma LowBitDivides(x: nat)
    ensures LowBit(x) != 1 ==> x % 2 == 0
    ensures LowBit(x) != 1 && LowBit(x) != 2 ==> x % 4 == 0
    ensures LowBit(x) != 1 && LowBit(x) != 2 && LowBit(x) != 4 ==> x % 8 == 0
  {
    hide LowBit;
    LowBitHalf(x);
    LowBitDivides4(x);
    LowBitDivides4(x / 2);
  }

  /** 1 << (fls(l) - 1): the largest power of two not above `l`. */
  function FloorPower(l: nat): (r: nat)
    requires l > 0
    ensures 1 <= r <= l < 2 * r
  {
    if l == 1 then 1 else 2 * FloorPower(l / 2)
  }

  /** memory_access_size; `unsigned` keeps 32 bits of the alignment. */
  function AccessSize(r: Region, l: nat, addr: nat): nat
    requires l > 0
  {
    var declared := if r.maxAccess == 0 then 4 else r.maxAccess;
    var align := LowBit(addr) % 0x1_0000_0000;
    var max := if !r.unaligned && align != 0 && align < declared then align else declared;
    var m := if l > max then max else l;
    if m == 0 then 0 else FloorPower(m)
  }

  /** Device accesses are 1, 2, 4 or 8 bytes, no more than asked for, and naturally aligned unless the
      region allows otherwise. */
  lemma AccessSizeOk(r: Region, l: nat, addr: nat)
    requires l > 0 && MaxAccessOk(r)
    ensures var n := AccessSize(r, l, addr);
      (n == 1 || n == 2 || n == 4 || n == 8) && n <= l && (!r.unaligned ==> addr % n == 0)
  {
    LowBitDivides(addr);
    LowBitPower(addr);
    SmallPowers();
  }

  /** ... and no larger access would do. */
  lemma AccessSizeLargest(r: Region, l: nat, addr: nat, n: nat)
    requires l > 0 && MaxAccessOk(r) && (n == 1 || n == 2 || n == 4 || n == 8)
    requires n <= l && n <= (if r.maxAccess == 0 then 4 else r.maxAccess) && (r.unaligned || addr % n == 0)
    ensures n <= AccessSize(r, l, addr)
  {
    hide LowBit, FloorPower;
    if !r.unaligned {
      AlignmentAllows(addr, n);
    }
    var declared := if r.maxAccess == 0 then 4 else r.maxAccess;
    var align := LowBit(addr) % 0x1_0000_0000;
    var max := if !r.unaligned && align != 0 && align < declared then align else declared;
    assert n <= max <= 8;
    var m := if l > max then max else l;
    SmallPowers();
    assert FloorPower(m) >= n;
  }

  lemma AlignmentAllows(addr: nat, n: nat)
    requires (n == 1 || n == 2 || n == 4 || n == 8) && addr % n == 0
    ensures var align := LowBit(addr) % 0x1_0000_0000; align != 0 ==> n <= align
  {
    if addr > 0 {
      hide LowBit;
      DividesLowBit(addr, n);
      LowBitPower(addr);
      WordPart(LowBit(addr), n);
    }
  }

  /** Keeping 32 bits of an alignment of at least `n` leaves nothing or at least `n`. */
  lemma WordPart(x: nat, n: nat)
    requires n <= 8 && n <= x && (x < 8 || x % 8 == 0)
    ensures x % 0x1_0000_0000 != 0 ==> n <= x % 0x1_0000_0000
  {
    if x >= 8 {
      ModEight(x);
      var y := x % 0x1_0000_0000;
      assert y % 8 == 0;
    }
  }

  lemma ModEight(x: nat)
    ensures x % 8 == 0 ==> x % 0x1_0000_0000 % 8 == 0
  {
    var q := x / 0x1_0000_0000;
    assert x == 8 * (q * 0x2000_0000) + x % 0x1_0000_0000;
  }

  lemma DividesLowBit(x: nat, n: nat)
    requires x > 0 && (n == 1 || n == 2 || n == 4 || n == 8) && x % n == 0
    ensures n <= LowBit(x)
  {
    hide LowBit;
    LowBitLarge(x);
  }

  lemma LowBitLarge(x: nat)
    ensures x > 0 ==> LowBit(x) >= 1
    ensures x > 0 && x % 2 == 0 ==> LowBit(x) >= 2
    ensures x > 0 && x % 4 == 0 ==> LowBit(x) >= 4
    ensures x > 0 && x % 8 == 0 ==> LowBit(x) >= 8
  {
    LowBitTwice(x);
    LowBitTwice(x / 2);
    LowBitTwice(x / 2 / 2);
    LowBitPositive(x);
    LowBitPositive(x / 2);
    LowBitPositive(x / 2 / 2);
    LowBitPositive(x / 2 / 2 / 2);
    hide LowBit;
  }

  lemma LowBitTwice(x: nat)
    ensures x > 0 && x % 2 == 0 ==> LowBit(x) == 2 * LowBit(x / 2)
  {
  }

  lemma SmallPowers()
    ensures forall m: nat | 1 <= m <= 8 :: FloorPower(m) == if m < 2 then 1 else if m < 4 then 2 else if m < 8 then 4 else 8
  {
    assert FloorPower(1) == 1;
    assert FloorPower(2) == 2 && FloorPower(3) == 2;
    assert FloorPower(4) == 4 && FloorPower(5) == 4 && FloorPower(6) == 4 && FloorPower(7) == 4;
    assert FloorPower(8) == 8;
  }

  /** Below 8 the lowest one bit is 1, 2 or 4. */
  lemma LowBitPower(x: nat)
    ensures LowBit(x) < 8 && x > 0 ==> LowBit(x) == 1 || LowBit(x) == 2 || LowBit(x) == 4
    ensures LowBit(x) >= 8 ==> LowBit(x) % 8 == 0
  {
    if x > 0 && x % 2 == 0 && (x / 2) % 2 == 0 {
      LowBitPositive(x / 2 / 2);
      assert LowBit(x) == 4 * LowBit(x / 2 / 2);
      if (x / 4) % 2 == 0 {
        assert x / 2 / 2 == x / 4;
        assert LowBit(x / 4) == 2 * LowBit(x / 4 / 2);
      }
    }
  }

  lemma {:induction false} LowBitPositive(x: nat)
    ensures x > 0 ==> LowBit(x) > 0
  {
    if x > 0 && x % 2 == 0 {
      LowBitPositive(x / 2);
    }
  }

  // ---------------------------------------------------------------------------------------
  // Chunks

  /** How much of [a, a + len) one round of the loop handles: RAM up to the end of its section, a
      device one access. */
  function ChunkLen(sp: Space, a: nat, len: nat, isWrite: bool): nat
    requires len > 0 && Covers(sp(a), a)
  {
    var s := sp(a);
    var l := if s.region.isRam && s.start + s.size - a < len then s.start + s.size - a else len;
    if Direct(s.region, isWrite) then l else AccessSize(s.region, l, Xlat(sp, a))
  }

  lemma ChunkLenOk(sp: Space, ramSize: nat, a: nat, len: nat, isWrite: bool)
    requires SpaceOk(sp, ramSize) && len > 0
    ensures Covers(sp(a), a) && 1 <= ChunkLen(sp, a, len, isWrite) <= len
  {
    assert SectionOk(sp, ramSize, a);
    var s := sp(a);
    var l := if s.region.isRam && s.start + s.size - a < len then s.start + s.size - a else len;
    AccessSizeOk(s.region, l, Xlat(sp, a));
  }

  datatype Chunk = Chunk(addr: nat, len: nat, direct: bool)

  /** The chunks of an access, in order. */
  ghost function Plan(sp: Space, ramSize: nat, a: nat, len: nat, isWrite: bool): seq<Chunk>
    requires SpaceOk(sp, ramSize)
    decreases len
  {
    if len == 0 then []
    else
      ChunkLenOk(sp, ramSize, a, len, isWrite);
      var l := ChunkLen(sp, a, len, isWrite);
      [Chunk(a, l, Direct(sp(a).region, isWrite))] + Plan(sp, ramSize, a + l, len - l, isWrite)
  }

  /** A chunk of RAM stays in its section; a device chunk is an access the switch of the loop knows. */
  ghost predicate ChunkRight(sp: Space, c: Chunk, left: nat, isWrite: bool) {
    var s := sp(c.addr);
    && (c.direct ==> c.len == left || (s.region.isRam && c.addr + c.len == s.start + s.size))
    && (!c.direct ==> forall n: nat | FitsDevice(sp, c.addr, n, left) :: n <= c.len)
    && c.direct == Direct(s.region, isWrite)
    && (s.region.isRam ==> c.addr + c.len <= s.start + s.size)
    && (!c.direct ==> c.len == 1 || c.len == 2 || c.len == 4 || c.len == 8)
    && (!c.direct && !s.region.unaligned && c.len > 0 ==> Xlat(sp, c.addr) % c.len == 0)
  }

  /** A device access of `n` bytes at the address is as wide as the device takes it, aligned as it must be, and goes
      past neither the range nor the end of RAM. */
  predicate FitsDevice(sp: Space, addr: nat, n: nat, left: nat) {
    var s := sp(addr);
    && (n == 1 || n == 2 || n == 4 || n == 8) && n <= left && (s.region.isRam ==> addr + n <= s.start + s.size)
    && n <= (if s.region.maxAccess == 0 then 4 else s.region.maxAccess) && (s.region.unaligned || Xlat(sp, addr) % n == 0)
  }

  /** The chunks are well-formed and not empty, and cover [a, a + len) without gap or overlap. */
  ghost predicate Tiles(sp: Space, plan: seq<Chunk>, a: nat, len: nat, isWrite: bool) {
    if plan == [] then len == 0
    else
      && plan[0].addr == a && 0 < plan[0].len <= len && ChunkRight(sp, plan[0], len, isWrite)
      && Tiles(sp, plan[1..], a + plan[0].len, len - plan[0].len, isWrite)
  }

  lemma TilesCons(sp: Space, c: Chunk, rest: seq<Chunk>, len: nat, isWrite: bool)
    requires 0 < c.len <= len && ChunkRight(sp, c, len, isWrite) && Tiles(sp, rest, c.addr + c.len, len - c.len, isWrite)
    ensures Tiles(sp, [c] + rest, c.addr, len, isWrite)
  {
    hide ChunkRight;
    assert ([c] + rest)[1..] == rest;
  }

  lemma FirstChunkRight(sp: Space, ramSize: nat, a: nat, len: nat, isWrite: bool)
    requires SpaceOk(sp, ramSize) && len > 0
    ensures Covers(sp(a), a)
    ensures ChunkRight(sp, Chunk(a, ChunkLen(sp, a, len, isWrite), Direct(sp(a).region, isWrite)), len, isWrite)
  {
    assert SectionOk(sp, ramSize, a);
    var s := sp(a);
    var l := if s.region.isRam && s.start + s.size - a < len then s.start + s.size - a else len;
    AccessSizeOk(s.region, l, Xlat(sp, a));
    hide AccessSize;
    forall n: nat | FitsDevice(sp, a, n, len)
      ensures n <= AccessSize(s.region, l, Xlat(sp, a))
    {
      AccessSizeLargest(s.region, l, Xlat(sp, a), n);
    }
  }

  lemma PlanStep(sp: Space, ramSize: nat, a: nat, len: nat, isWrite: bool)
    requires SpaceOk(sp, ramSize) && len > 0
    ensures Covers(sp(a), a) && 1 <= ChunkLen(sp, a, len, isWrite) <= len
    ensures var l := ChunkLen(sp, a, len, isWrite);
      && var c := Chunk(a, l, Direct(sp(a).region, isWrite));
      && ChunkRight(sp, c, len, isWrite)
      && Plan(sp, ramSize, a, len, isWrite) == [c] + Plan(sp, ramSize, a + l, len - l, isWrite)
  {
    hide SpaceOk, ChunkLen, ChunkRight;
    ChunkLenOk(sp, ramSize, a, len, isWrite);
    FirstChunkRight(sp, ramSize, a, len, isWrite);
  }

  lemma PlanEmpty(sp: Space, ramSize: nat, a: nat, isWrite: bool)
    requires SpaceOk(sp, ramSize)
    ensures Tiles(sp, Plan(sp, ramSize, a, 0, isWrite), a, 0, isWrite)
  {
    hide SpaceOk, ChunkLen, ChunkRight;
  }

  /** Every access is tiled by well-formed chunks, so the abort arms of the loop are never reached. */
  lemma {:induction false} PlanTiles(sp: Space, ramSize: nat, a: nat, len: nat, isWrite: bool)
    requires SpaceOk(sp, ramSize)
    ensures Tiles(sp, Plan(sp, ramSize, a, len, isWrite), a, len, isWrite)
    decreases len
  {
    hide *;
    if len == 0 {
      PlanEmpty(sp, ramSize, a, isWrite);
    } else {
      PlanStep(sp, ramSize, a, len, isWrite);
      var n := ChunkLen(sp, a, len, isWrite);
      var rest := Plan(sp, ramSize, a + n, len - n, isWrite);
      PlanTiles(sp, ramSize, a + n, len - n, isWrite);
      TilesCons(sp, Chunk(a, n, Direct(sp(a).region, isWrite)), rest, len, isWrite);
    }
  }

  // ---------------------------------------------------------------------------------------
  // What a write does to RAM

  function Copy(ram: seq<Byte>, off: nat, data: seq<Byte>): (r: seq<Byte>)
    requires off + |data| <= |ram|
    ensures |r| == |ram|
  {
    ram[..off] + data + ram[off + |data|..]
  }

  /** The RAM of a direct chunk is there. */
  lemma ChunkInRam(sp: Space, ramSize: nat, a: nat, len: nat)
    requires SpaceOk(sp, ramSize) && len > 0 && Direct(sp(a).region, true)
    ensures Covers(sp(a), a) && 0 <= RamOf(sp, a) && RamOf(sp, a) + ChunkLen(sp, a, len, true) <= ramSize
    ensures forall x: nat | a <= x < a + ChunkLen(sp, a, len, true) :: sp(x) == sp(a)
  {
    ChunkLenOk(sp, ramSize, a, len, true);
    assert SectionOk(sp, ramSize, a);
    forall x: nat | a <= x < a + ChunkLen(sp, a, len, true)
      ensures sp(x) == sp(a)
    {
      assert Covers(sp(a), x);
    }
  }

  /** RAM after the loop: each direct chunk is copied as a whole. */
  ghost function ChunkWrite(sp: Space, ram: seq<Byte>, a: nat, buf: seq<Byte>): (r: seq<Byte>)
    requires SpaceOk(sp, |ram|)
    ensures |r| == |ram|
    decreases |buf|
  {
    if buf == [] then ram
    else
      ChunkLenOk(sp, |ram|, a, |buf|, true);
      var l := ChunkLen(sp, a, |buf|, true);
      if Direct(sp(a).region, true) then
        ChunkInRam(sp, |ram|, a, |buf|);
        ChunkWrite(sp, Copy(ram, RamOf(sp, a), buf[..l]), a + l, buf[l..])
      else ChunkWrite(sp, ram, a + l, buf[l..])
  }

  lemma DirectInRam(sp: Space, ramSize: nat, a: nat)
    requires SpaceOk(sp, ramSize)
    ensures Direct(sp(a).region, true) ==> 0 <= RamOf(sp, a) < ramSize
  {
    assert SectionOk(sp, ramSize, a);
  }

  /** RAM after an ascending copy, byte by byte. */
  ghost function ByteWrite(sp: Space, ram: seq<Byte>, a: nat, buf: seq<Byte>): (r: seq<Byte>)
    requires SpaceOk(sp, |ram|)
    ensures |r| == |ram|
    decreases |buf|
  {
    if buf == [] then ram
    else
      DirectInRam(sp, |ram|, a);
      ByteWrite(sp, if Direct(sp(a).region, true) then ram[RamOf(sp, a) := buf[0]] else ram, a + 1, buf[1..])
  }

  // ---------------------------------------------------------------------------------------
  // Which address of a range decides a byte of RAM

  /** The directly writable address `x` lives at byte `r` of RAM. */
  predicate LivesAt(sp: Space, x: nat, r: nat) {
    Direct(sp(x).region, true) && RamOf(sp, x) == r
  }

  /** The last address of [a, a + len) that lives at `r`: an ascending copy leaves its byte there. */
  function LastDirect(sp: Space, a: nat, len: nat, r: nat): (x: Option<nat>)
    ensures x.Some? ==> a <= x.value < a + len && LivesAt(sp, x.value, r)
    decreases len
  {
    if len == 0 then None
    else
      var rest := LastDirect(sp, a + 1, len - 1, r);
      if rest.Some? then rest else if LivesAt(sp, a, r) then Some(a) else None
  }

  /** The last one that the loop copies to `r`. */
  ghost function LastWritten(sp: Space, ramSize: nat, a: nat, len: nat, r: nat): (x: Option<nat>)
    requires SpaceOk(sp, ramSize)
    ensures x.Some? ==> a <= x.value < a + len
    decreases len
  {
    if len == 0 then None
    else
      ChunkLenOk(sp, ramSize, a, len, true);
      var l := ChunkLen(sp, a, len, true);
      var rest := LastWritten(sp, ramSize, a + l, len - l, r);
      if rest.Some? then rest
      else if Direct(sp(a).region, true) && RamOf(sp, a) <= r < RamOf(sp, a) + l then Some(a + (r - RamOf(sp, a)))
      else None
  }

  function Decided(ram: seq<Byte>, a: nat, buf: seq<Byte>, x: Option<nat>, r: nat): Byte
    requires r < |ram| && (x.Some? ==> a <= x.value < a + |buf|)
  {
    if x.Some? then buf[x.value - a] else ram[r]
  }

  lemma {:induction false} ByteWriteIs(sp: Space, ram: seq<Byte>, a: nat, buf: seq<Byte>, r: nat)
    requires SpaceOk(sp, |ram|) && r < |ram|
    ensures ByteWrite(sp, ram, a, buf)[r] == Decided(ram, a, buf, LastDirect(sp, a, |buf|, r), r)
    decreases |buf|
  {
    hide SpaceOk;
    if buf != [] {
      DirectInRam(sp, |ram|, a);
      var ram' := if Direct(sp(a).region, true) then ram[RamOf(sp, a) := buf[0]] else ram;
      ByteWriteIs(sp, ram', a + 1, buf[1..], r);
    }
  }

  lemma {:induction false} ChunkWriteIs(sp: Space, ram: seq<Byte>, a: nat, buf: seq<Byte>, r: nat)
    requires SpaceOk(sp, |ram|) && r < |ram|
    ensures ChunkWrite(sp, ram, a, buf)[r] == Decided(ram, a, buf, LastWritten(sp, |ram|, a, |buf|, r), r)
    decreases |buf|
  {
    hide *;
    if buf == [] {
      NoChunks(sp, ram, a, r);
    } else {
      ChunkWriteStep(sp, ram, a, buf);
      LastWrittenStep(sp, |ram|, a, |buf|, r);
      var l := ChunkLen(sp, a, |buf|, true);
      var rest := LastWritten(sp, |ram|, a + l, |buf| - l, r);
      if Direct(sp(a).region, true) {
        DecidedCopy(ram, RamOf(sp, a), a, buf, l, rest, r);
        ChunkWriteIs(sp, Copy(ram, RamOf(sp, a), buf[..l]), a + l, buf[l..], r);
      } else {
        DecidedSkip(ram, a, buf, l, rest, r);
        ChunkWriteIs(sp, ram, a + l, buf[l..], r);
      }
    }
  }

  lemma NoChunks(sp: Space, ram: seq<Byte>, a: nat, r: nat)
    requires SpaceOk(sp, |ram|) && r < |ram|
    ensures ChunkWrite(sp, ram, a, []) == ram && LastWritten(sp, |ram|, a, 0, r) == None
    ensures Decided(ram, a, [], None, r) == ram[r]
  {
  }

  lemma ChunkWriteStep(sp: Space, ram: seq<Byte>, a: nat, buf: seq<Byte>)
    requires SpaceOk(sp, |ram|) && buf != []
    ensures Covers(sp(a), a) && 1 <= ChunkLen(sp, a, |buf|, true) <= |buf|
    ensures var l := ChunkLen(sp, a, |buf|, true);
      if Direct(sp(a).region, true) then
        && 0 <= RamOf(sp, a) && RamOf(sp, a) + l <= |ram|
        && ChunkWrite(sp, ram, a, buf) == ChunkWrite(sp, Copy(ram, RamOf(sp, a), buf[..l]), a + l, buf[l..])
      else ChunkWrite(sp, ram, a, buf) == ChunkWrite(sp, ram, a + l, buf[l..])
  {
    hide SpaceOk, ChunkLen, Copy;
    ChunkLenOk(sp, |ram|, a, |buf|, true);
    if Direct(sp(a).region, true) {
      ChunkInRam(sp, |ram|, a, |buf|);
    }
  }

  lemma LastWrittenStep(sp: Space, ramSize: nat, a: nat, len: nat, r: nat)
    requires SpaceOk(sp, ramSize) && len > 0
    ensures Covers(sp(a), a) && 1 <= ChunkLen(sp, a, len, true) <= len
    ensures var l := ChunkLen(sp, a, len, true);
      var rest := LastWritten(sp, ramSize, a + l, len - l, r);
      LastWritten(sp, ramSize, a, len, r) ==
        if rest.Some? then rest
        else if Direct(sp(a).region, true) && RamOf(sp, a) <= r < RamOf(sp, a) + l then Some(a + (r - RamOf(sp, a)))
        else None
  {
    hide SpaceOk, ChunkLen;
    ChunkLenOk(sp, ramSize, a, len, true);
  }

  lemma DecidedCopy(ram: seq<Byte>, off: nat, a: nat, buf: seq<Byte>, l: nat, rest: Option<nat>, r: nat)
    requires r < |ram| && l <= |buf| && off + l <= |ram| && (rest.Some? ==> a + l <= rest.value < a + |buf|)
    ensures Decided(Copy(ram, off, buf[..l]), a + l, buf[l..], rest, r) ==
            Decided(ram, a, buf, if rest.Some? then rest else if off <= r < off + l then Some(a + (r - off)) else None, r)
  {
  }

  lemma DecidedSkip(ram: seq<Byte>, a: nat, buf: seq<Byte>, l: nat, rest: Option<nat>, r: nat)
    requires r < |ram| && l <= |buf| && (rest.Some? ==> a + l <= rest.value < a + |buf|)
    ensures Decided(ram, a + l, buf[l..], rest, r) == Decided(ram, a, buf, rest, r)
  {
  }

  // ---------------------------------------------------------------------------------------
  // When a write is a byte-by-byte copy

  /** `x` is a directly writable byte inside a device access of the plan. The chunk length of a device is
      not cut at the end of its section, so this depends on the memory map. */
  ghost predicate Spilled(sp: Space, ramSize: nat, a: nat, len: nat, x: nat)
    requires SpaceOk(sp, ramSize)
    decreases len
  {
    && len > 0
    && (ChunkLenOk(sp, ramSize, a, len, true);
        var l := ChunkLen(sp, a, len, true);
        || (!Direct(sp(a).region, true) && a <= x < a + l && Direct(sp(x).region, true))
        || Spilled(sp, ramSize, a + l, len - l, x))
  }

  lemma {:induction false} SpilledInside(sp: Space, ramSize: nat, a: nat, len: nat, x: nat)
    requires SpaceOk(sp, ramSize) && Spilled(sp, ramSize, a, len, x)
    ensures a <= x < a + len && Direct(sp(x).region, true)
    decreases len
  {
    hide SpaceOk, ChunkLen;
    ChunkLenOk(sp, ramSize, a, len, true);
    var l := ChunkLen(sp, a, len, true);
    if Spilled(sp, ramSize, a + l, len - l, x) {
      SpilledInside(sp, ramSize, a + l, len - l, x);
    }
  }

  lemma {:induction false} LastSplit(sp: Space, a: nat, len: nat, l: nat, r: nat)
    requires l <= len
    ensures var rest := LastDirect(sp, a + l, len - l, r);
      LastDirect(sp, a, len, r) == if rest.Some? then rest else LastDirect(sp, a, l, r)
    decreases l
  {
    if l > 0 {
      LastSplit(sp, a + 1, len - 1, l - 1, r);
    }
  }

  /** In a run of one RAM section one address at most lives at `r`. */
  lemma {:induction false} LastOfRun(sp: Space, a: nat, l: nat, r: nat)
    requires Direct(sp(a).region, true) && forall x: nat | a <= x < a + l :: sp(x) == sp(a)
    ensures var off := RamOf(sp, a); LastDirect(sp, a, l, r) == if off <= r < off + l then Some(a + (r - off)) else None
    decreases l
  {
    if l > 1 {
      assert sp(a + 1) == sp(a);
      LastOfRun(sp, a + 1, l - 1, r);
    } else if l == 1 {
      assert LastDirect(sp, a + 1, 0, r) == None;
    }
  }

  /** The loop leaves at `r` what the copy leaves there unless the deciding address is spilled. */
  lemma {:induction false} LastAgree(sp: Space, ramSize: nat, a: nat, len: nat, r: nat)
    requires SpaceOk(sp, ramSize)
    ensures var x := LastDirect(sp, a, len, r);
      if x.Some? && Spilled(sp, ramSize, a, len, x.value) then LastWritten(sp, ramSize, a, len, r) != x
      else LastWritten(sp, ramSize, a, len, r) == x
    decreases len
  {
    hide *;
    if len > 0 {
      LastWrittenStep(sp, ramSize, a, len, r);
      var l := ChunkLen(sp, a, len, true);
      var rest := LastDirect(sp, a + l, len - l, r);
      LastSplit(sp, a, len, l, r);
      LastAgree(sp, ramSize, a + l, len - l, r);
      if rest.Some? {
        SpilledLater(sp, ramSize, a, len, rest.value);
      } else {
        FirstAgrees(sp, ramSize, a, len, r);
      }
    } else {
      NoneLast(sp, ramSize, a, r);
    }
  }

  lemma NoneLast(sp: Space, ramSize: nat, a: nat, r: nat)
    requires SpaceOk(sp, ramSize)
    ensures LastDirect(sp, a, 0, r) == None && LastWritten(sp, ramSize, a, 0, r) == None
  {
  }

  lemma SpilledLater(sp: Space, ramSize: nat, a: nat, len: nat, x: nat)
    requires SpaceOk(sp, ramSize) && len > 0
    ensures Covers(sp(a), a) && 1 <= ChunkLen(sp, a, len, true) <= len
    ensures var l := ChunkLen(sp, a, len, true);
      x >= a + l ==> Spilled(sp, ramSize, a, len, x) == Spilled(sp, ramSize, a + l, len - l, x)
  {
    hide SpaceOk, ChunkLen;
    ChunkLenOk(sp, ramSize, a, len, true);
  }

  lemma FirstAgrees(sp: Space, ramSize: nat, a: nat, len: nat, r: nat)
    requires SpaceOk(sp, ramSize) && len > 0
    ensures Covers(sp(a), a) && 1 <= ChunkLen(sp, a, len, true) <= len
    ensures var l := ChunkLen(sp, a, len, true);
      var x := LastDirect(sp, a, l, r);
      && (!Direct(sp(a).region, true) && x.Some? ==> Spilled(sp, ramSize, a, len, x.value))
      && (Direct(sp(a).region, true) && x.Some? ==> !Spilled(sp, ramSize, a, len, x.value))
      && (Direct(sp(a).region, true) ==>
            x == if RamOf(sp, a) <= r < RamOf(sp, a) + l then Some(a + (r - RamOf(sp, a))) else None)
  {
    ChunkLenOk(sp, ramSize, a, len, true);
    var l := ChunkLen(sp, a, len, true);
    var x := LastDirect(sp, a, l, r);
    if Direct(sp(a).region, true) {
      ChunkInRam(sp, ramSize, a, len);
      LastOfRun(sp, a, l, r);
      if x.Some? && Spilled(sp, ramSize, a + l, len - l, x.value) {
        SpilledInside(sp, ramSize, a + l, len - l, x.value);
      }
    }
  }

  /** Every spilled byte lives where a later address of the range lives too. */
  ghost predicate WriteExact(sp: Space, ramSize: nat, a: nat, len: nat)
    requires SpaceOk(sp, ramSize)
  {
    forall x: nat :: !Lost(sp, ramSize, a, len, x)
  }

  /** `x` is spilled, and no later address of the range lives where it lives. */
  ghost predicate Lost(sp: Space, ramSize: nat, a: nat, len: nat, x: nat)
    requires SpaceOk(sp, ramSize)
  {
    Spilled(sp, ramSize, a, len, x) && RamOf(sp, x) >= 0 && LastDirect(sp, a, len, RamOf(sp, x)) == Some(x)
  }

  /** Then the loop over chunks leaves RAM as an ascending copy, byte by byte, does. */
  lemma WriteIsBytewise(sp: Space, ram: seq<Byte>, a: nat, buf: seq<Byte>)
    requires SpaceOk(sp, |ram|) && WriteExact(sp, |ram|, a, |buf|)
    ensures ChunkWrite(sp, ram, a, buf) == ByteWrite(sp, ram, a, buf)
  {
    hide SpaceOk, Spilled, LastDirect, LastWritten, ChunkWrite, ByteWrite;
    forall r | 0 <= r < |ram|
      ensures ChunkWrite(sp, ram, a, buf)[r] == ByteWrite(sp, ram, a, buf)[r]
    {
      ByteWriteIs(sp, ram, a, buf, r);
      ChunkWriteIs(sp, ram, a, buf, r);
      LastAgree(sp, |ram|, a, |buf|, r);
      var x := LastDirect(sp, a, |buf|, r);
      assert x.Some? ==> !Lost(sp, |ram|, a, |buf|, x.value);
    }
  }

  /** Some address of the range is writable RAM that lives at `r`. */
  ghost predicate MayWrite(sp: Space, a: nat, len: nat, r: nat) {
    exists x: nat :: a <= x < a + len && sp(x).region.isRam && !sp(x).region.readonly && RamOf(sp, x) == r
  }

  /** A write changes no byte of RAM but those of its writable addresses: read-only RAM and ROM stay as they are. */
  lemma OnlyWritable(sp: Space, ram: seq<Byte>, a: nat, buf: seq<Byte>, r: nat)
    requires SpaceOk(sp, |ram|) && r < |ram| && !MayWrite(sp, a, |buf|, r)
    ensures ChunkWrite(sp, ram, a, buf)[r] == ram[r]
  {
    hide SpaceOk, ChunkWrite, Spilled, RamOf;
    ChunkWriteIs(sp, ram, a, buf, r);
    LastAgree(sp, |ram|, a, |buf|, r);
    assert LastDirect(sp, a, |buf|, r).None?;
  }

  lemma OthersKept(sp: Space, ram: seq<Byte>, a: nat, buf: seq<Byte>)
    requires SpaceOk(sp, |ram|)
    ensures forall r: nat | r < |ram| && !MayWrite(sp, a, |buf|, r) :: ChunkWrite(sp, ram, a, buf)[r] == ram[r]
  {
    hide SpaceOk, ChunkWrite, MayWrite;
    forall r: nat | r < |ram| && !MayWrite(sp, a, |buf|, r)
      ensures ChunkWrite(sp, ram, a, buf)[r] == ram[r]
    {
      OnlyWritable(sp, ram, a, buf, r);
    }
  }

  /** Otherwise some write leaves a byte of RAM behind. */
  lemma SpillShows(sp: Space, ramSize: nat, a: nat, len: nat) returns (ram: seq<Byte>, buf: seq<Byte>)
    requires SpaceOk(sp, ramSize) && !WriteExact(sp, ramSize, a, len)
    ensures |ram| == ramSize && |buf| == len && ChunkWrite(sp, ram, a, buf) != ByteWrite(sp, ram, a, buf)
  {
    hide SpaceOk, Spilled, LastDirect, LastWritten, ChunkWrite, ByteWrite;
    var x: nat :| Lost(sp, ramSize, a, len, x);
    SpilledInside(sp, ramSize, a, len, x);
    DirectInRam(sp, ramSize, x);
    ram, buf := seq(ramSize, _ => 0), seq(len, i => if i == x - a then 1 else 0);
    ByteWriteIs(sp, ram, a, buf, RamOf(sp, x));
    ChunkWriteIs(sp, ram, a, buf, RamOf(sp, x));
    LastAgree(sp, ramSize, a, len, RamOf(sp, x));
  }

  /** The write loop is a byte-by-byte copy for every contents of RAM and of the buffer exactly when
      every byte that a device access swallows is written again by a later address. */
  lemma WriteBytewiseIff(sp: Space, ramSize: nat, a: nat, len: nat)
    requires SpaceOk(sp, ramSize)
    ensures WriteExact(sp, ramSize, a, len) <==>
      forall ram: seq<Byte>, buf: seq<Byte> | |ram| == ramSize && |buf| == len ::
        ChunkWrite(sp, ram, a, buf) == ByteWrite(sp, ram, a, buf)
  {
    hide SpaceOk, WriteExact, ChunkWrite, ByteWrite;
    if WriteExact(sp, ramSize, a, len) {
      forall ram: seq<Byte>, buf: seq<Byte> | |ram| == ramSize && |buf| == len
        ensures ChunkWrite(sp, ram, a, buf) == ByteWrite(sp, ram, a, buf)
      {
        WriteIsBytewise(sp, ram, a, buf);
      }
    } else {
      var ram, buf := SpillShows(sp, ramSize, a, len);
    }
  }

  /** No two addresses of the range share a byte of RAM. */
  ghost predicate NoAlias(sp: Space, a: nat, len: nat) {
    forall x: nat, y: nat | a <= x < a + len && a <= y < a + len && x != y && Direct(sp(x).region, true) && Direct(sp(y).region, true)
      :: RamOf(sp, x) != RamOf(sp, y)
  }

  lemma LastUnique(sp: Space, a: nat, len: nat, x: nat, r: nat)
    requires NoAlias(sp, a, len) && a <= x < a + len && LivesAt(sp, x, r)
    ensures LastDirect(sp, a, len, r) == Some(x)
  {
    LastExists(sp, a, len, x, r);
  }

  lemma {:induction false} LastExists(sp: Space, a: nat, len: nat, x: nat, r: nat)
    requires a <= x < a + len && LivesAt(sp, x, r)
    ensures LastDirect(sp, a, len, r).Some? && LastDirect(sp, a, len, r).value >= x
    decreases len
  {
    if x > a {
      LastExists(sp, a + 1, len - 1, x, r);
    }
  }

  /** No device access of the plan reaches into memory that the loop would have written directly. */
  ghost predicate NoSpill(sp: Space, ramSize: nat, a: nat, len: nat)
    requires SpaceOk(sp, ramSize)
  {
    forall x: nat :: !Spilled(sp, ramSize, a, len, x)
  }

  /** Where no two addresses share RAM, the condition is that nothing spills. */
  lemma ExactWithoutAlias(sp: Space, ramSize: nat, a: nat, len: nat)
    requires SpaceOk(sp, ramSize)
    ensures NoSpill(sp, ramSize, a, len) ==> WriteExact(sp, ramSize, a, len)
    ensures NoAlias(sp, a, len) && WriteExact(sp, ramSize, a, len) ==> NoSpill(sp, ramSize, a, len)
  {
    hide SpaceOk, Spilled, LastDirect;
    if NoAlias(sp, a, len) {
      forall x: nat | Spilled(sp, ramSize, a, len, x)
        ensures Lost(sp, ramSize, a, len, x)
      {
        SpilledInside(sp, ramSize, a, len, x);
        DirectInRam(sp, ramSize, x);
        LastUnique(sp, a, len, x, RamOf(sp, x));
      }
    }
  }

  /** Two bytes of a device that takes 4-byte accesses, then RAM. */
  function SpillingMap(): Space {
    a => if a < 2 then Section(0, 2, 0, Region(false, false, false, 0, 0, 4, false))
         else if a < 10 then Section(2, 8, 0, Region(true, false, false, 0, 8, 0, false))
         else Section(10, a, 0, Region(false, false, false, 0, 0, 1, false))
  }

  /** A 4-byte write at the start of it goes to the device whole: its last two bytes never reach RAM. */
  lemma SpillExample() returns (ram: seq<Byte>, buf: seq<Byte>)
    ensures SpaceOk(SpillingMap(), 8) && |ram| == 8 && |buf| == 4
    ensures ChunkLen(SpillingMap(), 0, 4, true) == 4 && Direct(SpillingMap()(2).region, true)
    ensures ChunkWrite(SpillingMap(), ram, 0, buf) != ByteWrite(SpillingMap(), ram, 0, buf)
  {
    SpillingMapOk();
    hide SpaceOk, WriteExact, ChunkWrite, ByteWrite;
    ram, buf := SpillShows(SpillingMap(), 8, 0, 4);
  }

  lemma SpillingMapOk()
    ensures SpaceOk(SpillingMap(), 8) && ChunkLen(SpillingMap(), 0, 4, true) == 4
    ensures Direct(SpillingMap()(2).region, true) && !WriteExact(SpillingMap(), 8, 0, 4)
  {
    var sp := SpillingMap();
    forall a: nat
      ensures SectionOk(sp, 8, a)
    {
    }
    assert AccessSize(sp(0).region, 4, 0) == 4;
    assert Spilled(sp, 8, 0, 4, 2) && RamOf(sp, 2) == 0;
    assert LivesAt(sp, 2, 0) && !LivesAt(sp, 3, 0);
    assert LastDirect(sp, 3, 1, 0) == None && LastDirect(sp, 2, 2, 0) == Some(2);
    assert LastDirect(sp, 1, 3, 0) == Some(2);
    assert Lost(sp, 8, 0, 4, 2);
  }

  // ---------------------------------------------------------------------------------------
  // Reads

  /** The device's answer to an access of so many bytes at an address. */
  type Answers = (nat, nat) -> seq<Byte>

  ghost predicate AnswersOk(answers: Answers) {
    forall a: nat, l: nat :: |answers(a, l)| == l
  }

  /** What the host has in memory behind each block of RAM, which a chunk of a ROM device may run into: the
      byte so far past the end of the block that ends at an offset. */
  type Behind = (nat, nat) -> Byte

  /** `l` bytes from a host pointer into the block that ends at `end` (qemu_get_ram_ptr). */
  function HostBytes(ram: seq<Byte>, behind: Behind, end: nat, off: nat, l: nat): (r: seq<Byte>)
    requires end <= |ram|
    ensures |r| == l
    ensures forall i | 0 <= i < l :: r[i] == if off + i < end then ram[off + i] else behind(end, off + i - end)
  {
    seq(l, i requires 0 <= i => if off + i < end then ram[off + i] else behind(end, off + i - end))
  }

  lemma RamOfNat(sp: Space, ramSize: nat, a: nat)
    requires SpaceOk(sp, ramSize)
    ensures Covers(sp(a), a) && RamOf(sp, a) >= 0
    ensures Direct(sp(a).region, false) ==> RamOf(sp, a) < sp(a).region.ramEnd <= ramSize
  {
    assert SectionOk(sp, ramSize, a);
  }

  /** What one round of the loop reads. */
  ghost function ReadOf(sp: Space, ram: seq<Byte>, behind: Behind, answers: Answers, a: nat, l: nat): (r: seq<Byte>)
    requires SpaceOk(sp, |ram|) && AnswersOk(answers)
    ensures |r| == l
  {
    RamOfNat(sp, |ram|, a);
    if Direct(sp(a).region, false) then HostBytes(ram, behind, sp(a).region.ramEnd, RamOf(sp, a), l) else answers(a, l)
  }

  /** The buffer after the loop. */
  ghost function ChunkRead(sp: Space, ram: seq<Byte>, behind: Behind, answers: Answers, a: nat, len: nat): (r: seq<Byte>)
    requires SpaceOk(sp, |ram|) && AnswersOk(answers)
    ensures |r| == len
    decreases len
  {
    if len == 0 then []
    else
      ChunkLenOk(sp, |ram|, a, len, false);
      var l := ChunkLen(sp, a, len, false);
      ReadOf(sp, ram, behind, answers, a, l) + ChunkRead(sp, ram, behind, answers, a + l, len - l)
  }

  /** Every byte at a directly readable address is the byte of RAM where it lives. */
  ghost predicate ReadsRight(sp: Space, ram: seq<Byte>, a: nat, buf: seq<Byte>) {
    forall x: nat | a <= x < a + |buf| && Direct(sp(x).region, false) :: ReadRight(sp, ram, a, buf, x)
  }

  predicate ReadRight(sp: Space, ram: seq<Byte>, a: nat, buf: seq<Byte>, x: nat) {
    a <= x < a + |buf| && 0 <= RamOf(sp, x) < |ram| && buf[x - a] == ram[RamOf(sp, x)]
  }

  /** A chunk that starts at `c` reads the directly readable address `x` from another place: from a
      device, from RAM where `x` does not live, or from behind the block of RAM at `c`. Neither device
      accesses nor chunks of a ROM device are cut at the end of their section. */
  predicate MisreadBy(sp: Space, c: nat, x: nat) {
    && Direct(sp(x).region, false)
    && !(Direct(sp(c).region, false) && RamOf(sp, x) == RamOf(sp, c) + (x - c) < sp(c).region.ramEnd)
  }

  /** Some chunk of the plan misreads `x`. */
  ghost predicate Misread(sp: Space, ramSize: nat, a: nat, len: nat, x: nat)
    requires SpaceOk(sp, ramSize)
    decreases len
  {
    && len > 0
    && (ChunkLenOk(sp, ramSize, a, len, false);
        var l := ChunkLen(sp, a, len, false);
        if x < a + l then a <= x && MisreadBy(sp, a, x) else Misread(sp, ramSize, a + l, len - l, x))
  }

  ghost predicate ReadExact(sp: Space, ramSize: nat, a: nat, len: nat)
    requires SpaceOk(sp, ramSize)
  {
    forall x: nat :: !Misread(sp, ramSize, a, len, x)
  }

  lemma ReadStep(sp: Space, ram: seq<Byte>, behind: Behind, answers: Answers, a: nat, len: nat)
    requires SpaceOk(sp, |ram|) && AnswersOk(answers) && len > 0
    ensures Covers(sp(a), a) && 1 <= ChunkLen(sp, a, len, false) <= len
    ensures var l := ChunkLen(sp, a, len, false);
      && ChunkRead(sp, ram, behind, answers, a, len)
         == ReadOf(sp, ram, behind, answers, a, l) + ChunkRead(sp, ram, behind, answers, a + l, len - l)
      && forall x: nat ::
           Misread(sp, |ram|, a, len, x) == if x < a + l then a <= x && MisreadBy(sp, a, x) else Misread(sp, |ram|, a + l, len - l, x)
  {
    hide SpaceOk, ChunkLen, AnswersOk, ReadOf, MisreadBy;
    ChunkLenOk(sp, |ram|, a, len, false);
  }

  /** Every byte of the buffer comes from the chunk it is in: a byte of a device access from the device's answer to
      that access, and RAM answers for no address but its own. */
  lemma {:induction false} ByteSource(sp: Space, ram: seq<Byte>, behind: Behind, answers: Answers, a: nat, len: nat, x: nat)
    returns (c: nat, l: nat)
    requires SpaceOk(sp, |ram|) && AnswersOk(answers) && a <= x < a + len
    ensures a <= c <= x < c + l <= a + len
    ensures ChunkRead(sp, ram, behind, answers, a, len)[x - a] == ReadOf(sp, ram, behind, answers, c, l)[x - c]
    ensures !Direct(sp(c).region, false) ==> ChunkRead(sp, ram, behind, answers, a, len)[x - a] == answers(c, l)[x - c]
    ensures sp(c).region.isRam ==> sp(x) == sp(c)
    decreases len
  {
    hide SpaceOk, ChunkLen, AnswersOk, ChunkRead, ReadOf, Misread, MisreadBy;
    ReadStep(sp, ram, behind, answers, a, len);
    l := ChunkLen(sp, a, len, false);
    if x < a + l {
      c := a;
      RamChunkInside(sp, |ram|, a, len, x);
      DeviceAnswer(sp, ram, behind, answers, a, l);
    } else {
      c, l := ByteSource(sp, ram, behind, answers, a + l, len - l, x);
    }
  }

  lemma RamChunkInside(sp: Space, ramSize: nat, a: nat, len: nat, x: nat)
    requires SpaceOk(sp, ramSize) && len > 0 && Covers(sp(a), a) && a <= x < a + ChunkLen(sp, a, len, false)
    ensures sp(a).region.isRam ==> sp(x) == sp(a)
  {
    assert SectionOk(sp, ramSize, a);
    if sp(a).region.isRam {
      assert Covers(sp(a), x);
    }
  }

  lemma DeviceAnswer(sp: Space, ram: seq<Byte>, behind: Behind, answers: Answers, a: nat, l: nat)
    requires SpaceOk(sp, |ram|) && AnswersOk(answers)
    ensures !Direct(sp(a).region, false) ==> ReadOf(sp, ram, behind, answers, a, l) == answers(a, l)
  {
  }

  lemma ReadInChunk(sp: Space, ram: seq<Byte>, behind: Behind, answers: Answers, a: nat, l: nat, x: nat)
    requires SpaceOk(sp, |ram|) && AnswersOk(answers) && a <= x < a + l && Direct(sp(x).region, false)
    ensures RamOf(sp, x) >= 0 && RamOf(sp, x) < |ram|
    ensures !MisreadBy(sp, a, x) ==> ReadOf(sp, ram, behind, answers, a, l)[x - a] == ram[RamOf(sp, x)]
  {
    RamOfNat(sp, |ram|, x);
  }

  /** An address that is not misread is read from its own place in RAM. */
  lemma {:induction false} ReadIsBytewise(sp: Space, ram: seq<Byte>, behind: Behind, answers: Answers, a: nat, len: nat, x: nat)
    requires SpaceOk(sp, |ram|) && AnswersOk(answers) && !Misread(sp, |ram|, a, len, x)
    requires a <= x < a + len && Direct(sp(x).region, false)
    ensures ReadRight(sp, ram, a, ChunkRead(sp, ram, behind, answers, a, len), x)
    decreases len
  {
    hide SpaceOk, ChunkLen, AnswersOk, ChunkRead, ReadOf, Misread, MisreadBy;
    ReadStep(sp, ram, behind, answers, a, len);
    var l := ChunkLen(sp, a, len, false);
    if x < a + l {
      ReadInChunk(sp, ram, behind, answers, a, l, x);
    } else {
      ReadIsBytewise(sp, ram, behind, answers, a + l, len - l, x);
    }
  }

  /** RAM that is 0 where `x` lives and 1 elsewhere, 1 behind it, and devices that answer 1. */
  function Marked(ramSize: nat, r: int): (ram: seq<Byte>)
    ensures |ram| == ramSize && forall i | 0 <= i < ramSize :: ram[i] == if i == r then 0 else 1
  {
    seq(ramSize, i => if i == r then 0 else 1)
  }

  function Ones(): (behind: Behind) {
    (_, _) => 1
  }

  function AnswerOnes(): Answers {
    (_: nat, l: nat) => seq(l, _ => 1)
  }

  lemma OnesOk()
    ensures AnswersOk(AnswerOnes()) && forall a: nat, l: nat, i | 0 <= i < l :: AnswerOnes()(a, l)[i] == 1
  {
  }

  lemma MisreadInChunk(sp: Space, ramSize: nat, a: nat, l: nat, x: nat)
    requires SpaceOk(sp, ramSize) && a <= x < a + l && MisreadBy(sp, a, x) && AnswersOk(AnswerOnes())
    ensures Direct(sp(x).region, false)
    ensures ReadOf(sp, Marked(ramSize, RamOf(sp, x)), Ones(), AnswerOnes(), a, l)[x - a] == 1
  {
    OnesOk();
    RamOfNat(sp, ramSize, a);
  }

  lemma {:induction false} MisreadGivesOne(sp: Space, ramSize: nat, a: nat, len: nat, x: nat)
    requires SpaceOk(sp, ramSize) && Misread(sp, ramSize, a, len, x) && AnswersOk(AnswerOnes())
    ensures a <= x < a + len && Direct(sp(x).region, false)
    ensures ChunkRead(sp, Marked(ramSize, RamOf(sp, x)), Ones(), AnswerOnes(), a, len)[x - a] == 1
    decreases len
  {
    hide *;
    NotEmpty(sp, ramSize, a, len, x);
    ReadStep(sp, Marked(ramSize, RamOf(sp, x)), Ones(), AnswerOnes(), a, len);
    var l := ChunkLen(sp, a, len, false);
    if x < a + l {
      MisreadInChunk(sp, ramSize, a, l, x);
    } else {
      MisreadGivesOne(sp, ramSize, a + l, len - l, x);
    }
  }

  lemma NotEmpty(sp: Space, ramSize: nat, a: nat, len: nat, x: nat)
    requires SpaceOk(sp, ramSize) && Misread(sp, ramSize, a, len, x)
    ensures len > 0
  {
  }

  /** A misread address shows: for some contents the buffer does not have the byte of RAM. */
  lemma MisreadShows(sp: Space, ramSize: nat, a: nat, len: nat) returns (ram: seq<Byte>, behind: Behind, answers: Answers)
    requires SpaceOk(sp, ramSize) && !ReadExact(sp, ramSize, a, len)
    ensures |ram| == ramSize && AnswersOk(answers)
    ensures !ReadsRight(sp, ram, a, ChunkRead(sp, ram, behind, answers, a, len))
  {
    OnesOk();
    hide SpaceOk, Misread, ChunkRead, AnswersOk, Ones, AnswerOnes;
    var x: nat :| Misread(sp, ramSize, a, len, x);
    ram, behind, answers := Marked(ramSize, RamOf(sp, x)), Ones(), AnswerOnes();
    MisreadGivesOne(sp, ramSize, a, len, x);
    RamOfNat(sp, ramSize, x);
    assert !ReadRight(sp, ram, a, ChunkRead(sp, ram, behind, answers, a, len), x);
  }

  ghost predicate AlwaysRight(sp: Space, ramSize: nat, a: nat, len: nat)
    requires SpaceOk(sp, ramSize)
  {
    forall ram: seq<Byte>, behind: Behind, answers: Answers | |ram| == ramSize && AnswersOk(answers) ::
      ReadsRight(sp, ram, a, ChunkRead(sp, ram, behind, answers, a, len))
  }

  /** A read gives the byte of RAM at every directly readable address, whatever RAM, the memory behind its
      blocks and the devices hold, exactly when its plan misreads no address. */
  lemma ReadBytewiseIff(sp: Space, ramSize: nat, a: nat, len: nat)
    requires SpaceOk(sp, ramSize)
    ensures ReadExact(sp, ramSize, a, len) <==> AlwaysRight(sp, ramSize, a, len)
  {
    hide SpaceOk, ReadExact, ReadsRight, ChunkRead, AnswersOk;
    if ReadExact(sp, ramSize, a, len) {
      forall ram: seq<Byte>, behind: Behind, answers: Answers | |ram| == ramSize && AnswersOk(answers)
        ensures ReadsRight(sp, ram, a, ChunkRead(sp, ram, behind, answers, a, len))
      {
        AllReadsRight(sp, ram, behind, answers, a, len);
      }
    } else {
      var ram, behind, answers := MisreadShows(sp, ramSize, a, len);
    }
  }

  lemma AllReadsRight(sp: Space, ram: seq<Byte>, behind: Behind, answers: Answers, a: nat, len: nat)
    requires SpaceOk(sp, |ram|) && AnswersOk(answers) && ReadExact(sp, |ram|, a, len)
    ensures ReadsRight(sp, ram, a, ChunkRead(sp, ram, behind, answers, a, len))
  {
    hide SpaceOk, AnswersOk, Misread, ChunkRead, ReadRight;
    forall x: nat | a <= x < a + len && Direct(sp(x).region, false)
      ensures ReadRight(sp, ram, a, ChunkRead(sp, ram, behind, answers, a, len), x)
    {
      ReadIsBytewise(sp, ram, behind, answers, a, len, x);
    }
  }

  /** Two bytes of a ROM device, the first block of RAM; behind them eight bytes of RAM, a block that starts
      at `block`. */
  function RomMap(block: nat): Space {
    a => if a < 2 then Section(0, 2, 0, Region(false, true, true, 0, 2, 4, false))
         else if a < 10 then Section(2, 8, 0, Region(true, false, false, block, block + 8, 0, false))
         else Section(10, a, 0, Region(false, false, false, 0, 0, 1, false))
  }

  /** A 4-byte read at the start of it takes its last bytes from behind the device's block, wherever the
      next block starts: next to the first one, where the allocator puts it, or further up. */
  lemma MisreadExample(block: nat) returns (ram: seq<Byte>, behind: Behind, answers: Answers)
    requires block >= 2
    ensures SpaceOk(RomMap(block), block + 8) && |ram| == block + 8 && AnswersOk(answers)
    ensures Direct(RomMap(block)(2).region, false) && RamOf(RomMap(block), 2) == block
    ensures !ReadsRight(RomMap(block), ram, 0, ChunkRead(RomMap(block), ram, behind, answers, 0, 4))
  {
    RomMapOk(block);
    hide SpaceOk, ReadExact, ReadsRight, ChunkRead, AnswersOk;
    ram, behind, answers := MisreadShows(RomMap(block), block + 8, 0, 4);
  }

  lemma RomMapOk(block: nat)
    requires block >= 2
    ensures SpaceOk(RomMap(block), block + 8) && !ReadExact(RomMap(block), block + 8, 0, 4)
  {
    var sp, ramSize := RomMap(block), block + 8;
    forall a: nat
      ensures SectionOk(sp, ramSize, a)
    {
    }
    assert Misread(sp, ramSize, 0, 4, 2);
  }

  // ---------------------------------------------------------------------------------------
  // What is written is read back

  /** The range holds writable RAM only. */
  ghost predicate AllRam(sp: Space, a: nat, len: nat) {
    forall x: nat | a <= x < a + len :: sp(x).region.isRam && !sp(x).region.readonly
  }

  lemma {:induction false} AllRamFits(sp: Space, ramSize: nat, a: nat, len: nat, x: nat)
    requires SpaceOk(sp, ramSize) && AllRam(sp, a, len)
    ensures !Spilled(sp, ramSize, a, len, x) && !Misread(sp, ramSize, a, len, x)
    decreases len
  {
    if len > 0 {
      AllRamStep(sp, ramSize, a, len);
      var l := ChunkLen(sp, a, len, true);
      AllRamFits(sp, ramSize, a + l, len - l, x);
    }
    hide SpaceOk, ChunkLen;
  }

  lemma AllRamStep(sp: Space, ramSize: nat, a: nat, len: nat)
    requires SpaceOk(sp, ramSize) && AllRam(sp, a, len) && len > 0
    ensures Direct(sp(a).region, true) && Direct(sp(a).region, false) && Covers(sp(a), a)
    ensures ChunkLen(sp, a, len, true) == ChunkLen(sp, a, len, false) && 1 <= ChunkLen(sp, a, len, false) <= len
    ensures forall x: nat | a <= x < a + ChunkLen(sp, a, len, false) :: !MisreadBy(sp, a, x)
  {
    assert SectionOk(sp, ramSize, a);
    forall x: nat | a <= x < a + ChunkLen(sp, a, len, false)
      ensures !MisreadBy(sp, a, x)
    {
      assert Covers(sp(a), x);
    }
  }

  /** What is written to a range of RAM is read back from it, whatever its sections are. */
  lemma WriteThenRead(sp: Space, ram: seq<Byte>, behind: Behind, answers: Answers, a: nat, buf: seq<Byte>)
    requires SpaceOk(sp, |ram|) && AnswersOk(answers) && AllRam(sp, a, |buf|) && NoAlias(sp, a, |buf|)
    ensures ChunkRead(sp, ChunkWrite(sp, ram, a, buf), behind, answers, a, |buf|) == buf
  {
    hide SpaceOk, Spilled, Misread, ChunkRead, ChunkWrite, ByteWrite, AnswersOk, NoAlias, LastDirect;
    forall x: nat
      ensures !Spilled(sp, |ram|, a, |buf|, x) && !Misread(sp, |ram|, a, |buf|, x)
    {
      AllRamFits(sp, |ram|, a, |buf|, x);
    }
    ExactWithoutAlias(sp, |ram|, a, |buf|);
    WriteIsBytewise(sp, ram, a, buf);
    var ram' := ChunkWrite(sp, ram, a, buf);
    forall k | 0 <= k < |buf|
      ensures ChunkRead(sp, ram', behind, answers, a, |buf|)[k] == buf[k]
    {
      var x := a + k;
      assert sp(x).region.isRam;
      ReadIsBytewise(sp, ram', behind, answers, a, |buf|, x);
      DirectInRam(sp, |ram|, x);
      LastUnique(sp, a, |buf|, x, RamOf(sp, x));
      ByteWriteIs(sp, ram, a, buf, RamOf(sp, x));
    }
  }

  /** Where two addresses share RAM, a buffer that differs at the two is not read back. */
  lemma AliasShows(sp: Space, ram: seq<Byte>, behind: Behind, answers: Answers, a: nat, len: nat) returns (buf: seq<Byte>)
    requires SpaceOk(sp, |ram|) && AnswersOk(answers) && AllRam(sp, a, len) && !NoAlias(sp, a, len)
    ensures |buf| == len && ChunkRead(sp, ChunkWrite(sp, ram, a, buf), behind, answers, a, len) != buf
  {
    hide SpaceOk, Misread, ChunkRead, ChunkWrite, AnswersOk;
    var x: nat, y: nat :| a <= x < a + len && a <= y < a + len && x != y && RamOf(sp, x) == RamOf(sp, y);
    buf := seq(len, i => if i == x - a then 1 else 0);
    assert buf[x - a] == 1 && buf[y - a] == 0;
    var ram' := ChunkWrite(sp, ram, a, buf);
    AllRamFits(sp, |ram|, a, len, x);
    AllRamFits(sp, |ram|, a, len, y);
    ReadIsBytewise(sp, ram', behind, answers, a, len, x);
    ReadIsBytewise(sp, ram', behind, answers, a, len, y);
  }

  ghost predicate ReadBack(sp: Space, ram: seq<Byte>, behind: Behind, answers: Answers, a: nat, buf: seq<Byte>)
    requires SpaceOk(sp, |ram|) && AnswersOk(answers)
  {
    ChunkRead(sp, ChunkWrite(sp, ram, a, buf), behind, answers, a, |buf|) == buf
  }

  /** Every write to a range of RAM is read back exactly when no two addresses of the range share RAM. */
  lemma ReadBackIff(sp: Space, ram: seq<Byte>, behind: Behind, answers: Answers, a: nat, len: nat)
    requires SpaceOk(sp, |ram|) && AnswersOk(answers) && AllRam(sp, a, len)
    ensures NoAlias(sp, a, len) <==> forall buf: seq<Byte> | |buf| == len :: ReadBack(sp, ram, behind, answers, a, buf)
  {
    hide SpaceOk, ChunkRead, ChunkWrite, AnswersOk, NoAlias, AllRam;
    if NoAlias(sp, a, len) {
      forall buf: seq<Byte> | |buf| == len
        ensures ReadBack(sp, ram, behind, answers, a, buf)
      {
        WriteThenRead(sp, ram, behind, answers, a, buf);
      }
    } else {
      var buf := AliasShows(sp, ram, behind, answers, a, len);
      assert !ReadBack(sp, ram, behind, answers, a, buf);
    }
  }

  // ---------------------------------------------------------------------------------------
  // The loops

  datatype IoWrite = IoWrite(region: Region, offset: int, data: seq<Byte>)

  /** The device accesses of a write, in order. */
  ghost function DeviceWrites(sp: Space, ramSize: nat, a: nat, buf: seq<Byte>): seq<IoWrite>
    requires SpaceOk(sp, ramSize)
    decreases |buf|
  {
    if buf == [] then []
    else
      ChunkLenOk(sp, ramSize, a, |buf|, true);
      var l := ChunkLen(sp, a, |buf|, true);
      (if Direct(sp(a).region, true) then [] else [IoWrite(sp(a).region, Xlat(sp, a), buf[..l])])
      + DeviceWrites(sp, ramSize, a + l, buf[l..])
  }

  /** The access was issued for the bytes from address `c` on: to the device there, with those bytes. */
  predicate IssuedAt(sp: Space, w: IoWrite, a: nat, buf: seq<Byte>, c: nat) {
    && a <= c && c + |w.data| <= a + |buf| && !Direct(sp(c).region, true) && |w.data| > 0
    && w == IoWrite(sp(c).region, Xlat(sp, c), buf[c - a..c - a + |w.data|])
  }

  lemma DeviceStep(sp: Space, ramSize: nat, a: nat, buf: seq<Byte>)
    requires SpaceOk(sp, ramSize) && buf != []
    ensures Covers(sp(a), a)
    ensures var l := ChunkLen(sp, a, |buf|, true);
      && 1 <= l <= |buf|
      && DeviceWrites(sp, ramSize, a, buf) ==
         (if Direct(sp(a).region, true) then [] else [IoWrite(sp(a).region, Xlat(sp, a), buf[..l])])
         + DeviceWrites(sp, ramSize, a + l, buf[l..])
      && (!Direct(sp(a).region, true) ==> IssuedAt(sp, IoWrite(sp(a).region, Xlat(sp, a), buf[..l]), a, buf, a))
      && (Direct(sp(a).region, true) ==> forall x: nat | a <= x < a + l :: Direct(sp(x).region, true))
  {
    hide SpaceOk, ChunkLen;
    ChunkLenOk(sp, ramSize, a, |buf|, true);
    var l := ChunkLen(sp, a, |buf|, true);
    if Direct(sp(a).region, true) {
      ChunkInRam(sp, ramSize, a, |buf|);
    }
  }

  lemma IssuedLater(sp: Space, w: IoWrite, a: nat, buf: seq<Byte>, l: nat, c: nat)
    requires l <= |buf| && IssuedAt(sp, w, a + l, buf[l..], c)
    ensures IssuedAt(sp, w, a, buf, c) && a + l <= c
  {
    assert buf[l..][c - a - l..c - a - l + |w.data|] == buf[c - a..c - a + |w.data|];
  }

  /** Every byte written to the address of a device is in one of the accesses. */
  lemma {:induction false} DeviceGets(sp: Space, ramSize: nat, a: nat, buf: seq<Byte>, x: nat) returns (i: nat, c: nat)
    requires SpaceOk(sp, ramSize) && a <= x < a + |buf| && !Direct(sp(x).region, true)
    ensures var io := DeviceWrites(sp, ramSize, a, buf);
      i < |io| && IssuedAt(sp, io[i], a, buf, c) && c <= x < c + |io[i].data|
    decreases |buf|
  {
    hide SpaceOk, ChunkLen, DeviceWrites, IssuedAt;
    DeviceStep(sp, ramSize, a, buf);
    var l := ChunkLen(sp, a, |buf|, true);
    if x < a + l {
      i, c := 0, a;
    } else {
      i, c := DeviceGets(sp, ramSize, a + l, buf[l..], x);
      IssuedLater(sp, DeviceWrites(sp, ramSize, a + l, buf[l..])[i], a, buf, l, c);
      i := i + if Direct(sp(a).region, true) then 0 else 1;
    }
  }

  /** The accesses are for devices only, each for bytes at `from` or later, one after the other. */
  ghost predicate InOrder(sp: Space, io: seq<IoWrite>, a: nat, buf: seq<Byte>, from: nat)
    decreases |io|
  {
    io == [] || exists c: nat :: NextIssued(sp, io[0], a, buf, from, c) && InOrder(sp, io[1..], a, buf, c + |io[0].data|)
  }

  predicate NextIssued(sp: Space, w: IoWrite, a: nat, buf: seq<Byte>, from: nat, c: nat) {
    from <= c && IssuedAt(sp, w, a, buf, c)
  }

  lemma InOrderEarlier(sp: Space, io: seq<IoWrite>, a: nat, buf: seq<Byte>, from: nat, earlier: nat)
    requires InOrder(sp, io, a, buf, from) && earlier <= from
    ensures InOrder(sp, io, a, buf, earlier)
  {
    hide IssuedAt;
    if io != [] {
      var c: nat :| NextIssued(sp, io[0], a, buf, from, c) && InOrder(sp, io[1..], a, buf, c + |io[0].data|);
      assert NextIssued(sp, io[0], a, buf, earlier, c);
    }
  }

  lemma InOrderNext(sp: Space, w: IoWrite, rest: seq<IoWrite>, a: nat, buf: seq<Byte>, c: nat)
    requires IssuedAt(sp, w, a, buf, c) && InOrder(sp, rest, a, buf, c + |w.data|)
    ensures InOrder(sp, [w] + rest, a, buf, c)
  {
    hide IssuedAt;
    assert ([w] + rest)[1..] == rest;
    assert NextIssued(sp, ([w] + rest)[0], a, buf, c, c);
  }

  lemma NoneInOrder(sp: Space, ramSize: nat, a: nat, buf: seq<Byte>, from: nat)
    requires SpaceOk(sp, ramSize)
    ensures InOrder(sp, DeviceWrites(sp, ramSize, from, []), a, buf, from)
  {
  }

  /** The device accesses of a write come in the order of their addresses, without overlap. */
  lemma {:induction false} DevicesInOrder(sp: Space, ramSize: nat, a: nat, buf: seq<Byte>, k: nat)
    requires SpaceOk(sp, ramSize) && k <= |buf|
    ensures InOrder(sp, DeviceWrites(sp, ramSize, a + k, buf[k..]), a, buf, a + k)
    decreases |buf| - k
  {
    hide *;
    if k == |buf| {
      assert buf[k..] == [];
      NoneInOrder(sp, ramSize, a, buf, a + k);
    } else {
      DeviceStep(sp, ramSize, a + k, buf[k..]);
      var l := ChunkLen(sp, a + k, |buf[k..]|, true);
      assert buf[k..][l..] == buf[k + l..];
      var rest := DeviceWrites(sp, ramSize, a + (k + l), buf[k + l..]);
      DevicesInOrder(sp, ramSize, a, buf, k + l);
      if Direct(sp(a + k).region, true) {
        assert [] + rest == rest;
        InOrderEarlier(sp, rest, a, buf, a + k + l, a + k);
      } else {
        var w := IoWrite(sp(a + k).region, Xlat(sp, a + k), buf[k..][..l]);
        IssuedLater(sp, w, a, buf, k, a + k);
        InOrderNext(sp, w, rest, a, buf, a + k);
      }
    }
  }

  lemma NothingLeft(sp: Space, ram: seq<Byte>, a: nat)
    requires SpaceOk(sp, |ram|)
    ensures ChunkWrite(sp, ram, a, []) == ram && DeviceWrites(sp, |ram|, a, []) == []
  {
  }

  class AddressSpace {
    const sp: Space
    var ram: seq<Byte>
    var io: seq<IoWrite>

    /** One chunk. */
    method WriteChunk(a: nat, buf: seq<Byte>) returns (l: nat)
      requires SpaceOk(sp, |ram|) && buf != []
      modifies this
      ensures |ram| == old(|ram|) && 1 <= l <= |buf|
      ensures ChunkWrite(sp, ram, a + l, buf[l..]) == ChunkWrite(sp, old(ram), a, buf)
      ensures io + DeviceWrites(sp, |ram|, a + l, buf[l..]) == old(io) + DeviceWrites(sp, |ram|, a, buf)
    {
      hide SpaceOk, ChunkLen, Copy, DeviceWrites, IssuedAt;
      ChunkLenOk(sp, |ram|, a, |buf|, true);
      DeviceStep(sp, |ram|, a, buf);
      l := ChunkLen(sp, a, |buf|, true);
      if Direct(sp(a).region, true) {
        ChunkInRam(sp, |ram|, a, |buf|);
        ram := Copy(ram, RamOf(sp, a), buf[..l]);
      } else {
        io := io + [IoWrite(sp(a).region, Xlat(sp, a), buf[..l])];
      }
    }

    method Write(a: nat, buf: seq<Byte>)
      requires SpaceOk(sp, |ram|)
      modifies this
      ensures |ram| == old(|ram|)
      ensures ram == ChunkWrite(sp, old(ram), a, buf)
      ensures WriteExact(sp, |ram|, a, |buf|) ==> ram == ByteWrite(sp, old(ram), a, buf)
      ensures forall r: nat | r < |ram| && !MayWrite(sp, a, |buf|, r) :: ram[r] == old(ram)[r]
      ensures io == old(io) + DeviceWrites(sp, |ram|, a, buf)
    {
      hide *;
      var done: nat := 0;
      assert buf[0..] == buf;
      while done < |buf|
        invariant done <= |buf| && |ram| == old(|ram|)
        invariant ChunkWrite(sp, ram, a + done, buf[done..]) == ChunkWrite(sp, old(ram), a, buf)
        invariant io + DeviceWrites(sp, |ram|, a + done, buf[done..]) == old(io) + DeviceWrites(sp, |ram|, a, buf)
      {
        var l := WriteChunk(a + done, buf[done..]);
        assert buf[done..][l..] == buf[done + l..];
        done := done + l;
      }
      assert buf[done..] == [];
      NothingLeft(sp, ram, a + done);
      OthersKept(sp, old(ram), a, buf);
      if WriteExact(sp, |ram|, a, |buf|) {
        WriteIsBytewise(sp, old(ram), a, buf);
      }
    }

    /** One chunk. */
    method ReadChunk(behind: Behind, answers: Answers, a: nat, len: nat) returns (data: seq<Byte>)
      requires SpaceOk(sp, |ram|) && AnswersOk(answers) && len > 0
      ensures 1 <= |data| <= len
      ensures data + ChunkRead(sp, ram, behind, answers, a + |data|, len - |data|) == ChunkRead(sp, ram, behind, answers, a, len)
    {
      hide SpaceOk, ChunkLen, AnswersOk, ChunkRead;
      ReadStep(sp, ram, behind, answers, a, len);
      RamOfNat(sp, |ram|, a);
      var l := ChunkLen(sp, a, len, false);
      AnswerLen(answers, a, l);
      if Direct(sp(a).region, false) {
        data := HostBytes(ram, behind, sp(a).region.ramEnd, RamOf(sp, a), l);
      } else {
        data := answers(a, l);
      }
    }

    method Read(behind: Behind, answers: Answers, a: nat, len: nat) returns (buf: seq<Byte>)
      requires SpaceOk(sp, |ram|) && AnswersOk(answers)
      ensures buf == ChunkRead(sp, ram, behind, answers, a, len)
      ensures ReadExact(sp, |ram|, a, len) ==> ReadsRight(sp, ram, a, buf)
    {
      hide *;
      buf := [];
      ghost var all := ChunkRead(sp, ram, behind, answers, a, len);
      assert [] + all == all;
      while |buf| < len
        invariant |buf| <= len && buf + ChunkRead(sp, ram, behind, answers, a + |buf|, len - |buf|) == all
      {
        ghost var at, left := a + |buf|, len - |buf|;
        var data := ReadChunk(behind, answers, a + |buf|, len - |buf|);
        Joined(buf, data, ChunkRead(sp, ram, behind, answers, at + |data|, left - |data|), all);
        buf := buf + data;
        assert a + |buf| == at + |data| && len - |buf| == left - |data|;
      }
      assert buf == all;
      if ReadExact(sp, |ram|, a, len) {
        AllReadsRight(sp, ram, behind, answers, a, len);
      }
    }
  }

  lemma Joined(done: seq<Byte>, data: seq<Byte>, rest: seq<Byte>, all: seq<Byte>)
    requires done + (data + rest) == all
    ensures (done + data) + rest == all
  {
  }

  lemma AnswerLen(answers: Answers, a: nat, l: nat)
    requires AnswersOk(answers)
    ensures |answers(a, l)| == l
  {
  }
}
