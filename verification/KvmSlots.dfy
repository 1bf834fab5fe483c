/** The memory slots handed to the kernel: a bounded table that stands for a map from guest
    physical to host virtual addresses, and what adding or removing a section does to it. */
module KvmSlots {
  import opened Basics
  import M = MemoryAccess

  /** A slot is in use when its size is not 0. */
  datatype Slot = Slot(start: nat, size: nat, ram: int, flags: nat)

  function End(s: Slot): nat {
    s.start + s.size
  }

  predicate Covers(s: Slot, a: nat) {
    s.start <= a < End(s)
  }

  predicate IsFree(s: Slot) {
    s.size == 0
  }

  /** The overlap test of kvm_lookup_overlapping_slot. */
  predicate Overlaps(s: Slot, lo: nat, hi: nat) {
    s.size != 0 && hi > s.start && lo < End(s)
  }

  /** No address is covered by two slots. */
  ghost predicate Disjoint(slots: seq<Slot>) {
    forall i, j | 0 <= i < j < |slots| && slots[i].size != 0 && slots[j].size != 0 ::
      End(slots[i]) <= slots[j].start || End(slots[j]) <= slots[i].start
  }

  /** The host address that the table gives a guest address. */
  function Hva(slots: seq<Slot>, a: nat): Option<int> {
    if slots == [] then None
    else
      var s := slots[|slots| - 1];
      if Covers(s, a) then Some(s.ram + (a - s.start)) else Hva(slots[..|slots| - 1], a)
  }

  lemma {:induction false} HvaCovered(slots: seq<Slot>, i: nat, a: nat)
    requires Disjoint(slots) && i < |slots| && Covers(slots[i], a)
    ensures Hva(slots, a) == Some(slots[i].ram + (a - slots[i].start))
  {
    var last := |slots| - 1;
    if i < last {
      HvaCovered(slots[..last], i, a);
    }
  }

  lemma {:induction false} HvaUncovered(slots: seq<Slot>, a: nat)
    requires forall i | 0 <= i < |slots| :: !Covers(slots[i], a)
    ensures Hva(slots, a) == None
  {
    if slots != [] {
      HvaUncovered(slots[..|slots| - 1], a);
    }
  }

  /** Clearing a slot erases its addresses and no others. */
  lemma HvaCleared(slots: seq<Slot>, i: nat, a: nat)
    requires Disjoint(slots) && i < |slots|
    ensures Disjoint(slots[i := slots[i].(size := 0)])
    ensures Hva(slots[i := slots[i].(size := 0)], a) == if Covers(slots[i], a) then None else Hva(slots, a)
  {
    var slots' := slots[i := slots[i].(size := 0)];
    if j :| 0 <= j < |slots| && j != i && Covers(slots[j], a) {
      HvaCovered(slots, j, a);
      HvaCovered(slots', j, a);
    } else {
      HvaUncovered(slots', a);
      if !Covers(slots[i], a) {
        HvaUncovered(slots, a);
      }
    }
  }

  /** Filling a free slot with an interval that no slot meets adds exactly that interval. */
  lemma HvaAdded(slots: seq<Slot>, i: nat, s: Slot, a: nat)
    requires Disjoint(slots) && i < |slots| && IsFree(slots[i])
    requires forall j | 0 <= j < |slots| :: !Overlaps(slots[j], s.start, End(s))
    ensures Disjoint(slots[i := s])
    ensures Hva(slots[i := s], a) == if Covers(s, a) then Some(s.ram + (a - s.start)) else Hva(slots, a)
  {
    var slots' := slots[i := s];
    assert Disjoint(slots');
    if Covers(s, a) {
      HvaCovered(slots', i, a);
    } else if j :| 0 <= j < |slots| && Covers(slots[j], a) {
      HvaCovered(slots, j, a);
      HvaCovered(slots', j, a);
    } else {
      HvaUncovered(slots, a);
      HvaUncovered(slots', a);
    }
  }

  /** Changing only the flags of a slot changes no address. */
  lemma HvaFlags(slots: seq<Slot>, i: nat, flags: nat, a: nat)
    requires Disjoint(slots) && i < |slots|
    ensures Disjoint(slots[i := slots[i].(flags := flags)])
    ensures Hva(slots[i := slots[i].(flags := flags)], a) == Hva(slots, a)
  {
    var slots' := slots[i := slots[i].(flags := flags)];
    if j :| 0 <= j < |slots| && Covers(slots[j], a) {
      HvaCovered(slots, j, a);
      HvaCovered(slots', j, a);
    } else {
      HvaUncovered(slots, a);
      HvaUncovered(slots', a);
    }
  }

  /** How many slots satisfy `f`. */
  function Count(slots: seq<Slot>, f: Slot -> bool): nat {
    if slots == [] then 0
    else Count(slots[..|slots| - 1], f) + if f(slots[|slots| - 1]) then 1 else 0
  }

  lemma {:induction false} CountUpdate(slots: seq<Slot>, i: nat, s: Slot, f: Slot -> bool)
    requires i < |slots|
    ensures Count(slots[i := s], f) == Count(slots, f) - (if f(slots[i]) then 1 else 0) + (if f(s) then 1 else 0)
  {
    var last := |slots| - 1;
    if i < last {
      CountUpdate(slots[..last], i, s, f);
      assert slots[i := s][..last] == slots[..last][i := s];
    } else {
      assert slots[i := s][..last] == slots[..last];
    }
  }

  lemma {:induction false} CountZero(slots: seq<Slot>, f: Slot -> bool)
    ensures Count(slots, f) == 0 <==> forall i | 0 <= i < |slots| :: !f(slots[i])
  {
    if slots != [] {
      CountZero(slots[..|slots| - 1], f);
    }
  }

  lemma {:induction false} CountWeaker(slots: seq<Slot>, f: Slot -> bool, g: Slot -> bool)
    requires forall s: Slot :: g(s) ==> f(s)
    ensures Count(slots, g) <= Count(slots, f)
  {
    if slots != [] {
      CountWeaker(slots[..|slots| - 1], f, g);
    }
  }

  function Overlapping(lo: nat, hi: nat): Slot -> bool {
    s => Overlaps(s, lo, hi)
  }

  function FreeSlots(slots: seq<Slot>): nat {
    Count(slots, IsFree)
  }

  /** Size of the slot in use that starts at `c`, 0 if there is none. */
  function SizeAt(slots: seq<Slot>, c: nat): nat {
    if slots == [] then 0
    else
      var s := slots[|slots| - 1];
      if s.start == c && s.size != 0 then s.size else SizeAt(slots[..|slots| - 1], c)
  }

  lemma {:induction false} SizeAtIs(slots: seq<Slot>, i: nat)
    requires Disjoint(slots) && i < |slots| && slots[i].size != 0
    ensures SizeAt(slots, slots[i].start) == slots[i].size
  {
    var last := |slots| - 1;
    if i < last {
      SizeAtIs(slots[..last], i);
    }
  }

  lemma {:induction false} SizeAtFound(slots: seq<Slot>, c: nat)
    ensures SizeAt(slots, c) == 0 <==> forall i | 0 <= i < |slots| :: slots[i].size == 0 || slots[i].start != c
  {
    if slots != [] {
      SizeAtFound(slots[..|slots| - 1], c);
    }
  }

  /** Both tables have the same slot, or none, starting at `c`. */
  lemma SameSizeAt(slots: seq<Slot>, slots': seq<Slot>, c: nat)
    requires Disjoint(slots) && Disjoint(slots')
    requires forall i | 0 <= i < |slots| && slots[i].size != 0 && slots[i].start == c ::
               exists j :: 0 <= j < |slots'| && slots'[j].start == c && slots'[j].size == slots[i].size
    requires forall i | 0 <= i < |slots'| && slots'[i].size != 0 && slots'[i].start == c ::
               exists j :: 0 <= j < |slots| && slots[j].start == c && slots[j].size == slots'[i].size
    ensures SizeAt(slots, c) == SizeAt(slots', c)
  {
    hide Disjoint, SizeAt;
    if i :| 0 <= i < |slots| && slots[i].size != 0 && slots[i].start == c {
      var j :| 0 <= j < |slots'| && slots'[j].start == c && slots'[j].size == slots[i].size;
      SizeAtIs(slots, i);
      SizeAtIs(slots', j);
    } else {
      SizeAtFound(slots, c);
      SizeAtFound(slots', c);
    }
  }

  /** Where a run of adjacent slots beginning exactly at `c` and staying below `hi` ends. */
  function Chain(slots: seq<Slot>, c: nat, hi: nat): (cut: nat)
    ensures c <= hi ==> c <= cut <= hi
    decreases hi - c
  {
    var z := SizeAt(slots, c);
    if z != 0 && c + z < hi then Chain(slots, c + z, hi) else c
  }

  lemma {:induction false} ChainSame(slots: seq<Slot>, slots': seq<Slot>, c: nat, hi: nat)
    requires forall x: nat | c <= x < hi :: SizeAt(slots, x) == SizeAt(slots', x)
    ensures Chain(slots, c, hi) == Chain(slots', c, hi)
    decreases hi - c
  {
    var z := SizeAt(slots, c);
    if z != 0 && c + z < hi {
      ChainSame(slots, slots', c + z, hi);
    }
  }

  /** The map of `slots'` is the map of `slots` with [lo, hi) sent to `ram` onwards (when adding)
      or erased (when removing). */
  ghost predicate Overridden(slots: seq<Slot>, slots': seq<Slot>, lo: nat, hi: nat, add: bool, ram: int) {
    forall a: nat :: Hva(slots', a) == Override(slots, lo, hi, add, ram, a)
  }

  function Override(slots: seq<Slot>, lo: nat, hi: nat, add: bool, ram: int, a: nat): Option<int> {
    if lo <= a < hi then (if add then Some(ram + (a - lo)) else None) else Hva(slots, a)
  }

  /** The maps agree outside [lo, hi). */
  ghost predicate SameOutside(slots: seq<Slot>, slots': seq<Slot>, lo: nat, hi: nat) {
    forall a: nat | !(lo <= a < hi) :: Hva(slots', a) == Hva(slots, a)
  }

  /** How many parts of a slot stick out of [lo, hi). */
  function Pieces(s: Slot, lo: nat, hi: nat): nat {
    (if s.start < lo then 1 else 0) + (if End(s) > hi then 1 else 0)
  }

  lemma ClearedSteps(slots: seq<Slot>, i: nat, lo: nat, hi: nat)
    requires Disjoint(slots) && i < |slots| && Overlaps(slots[i], lo, hi)
    ensures var slots' := slots[i := slots[i].(size := 0)];
      && (forall a: nat :: Hva(slots', a) == if Covers(slots[i], a) then None else Hva(slots, a))
      && (forall a: nat | Covers(slots[i], a) :: Hva(slots, a) == Some(slots[i].ram + (a - slots[i].start)))
      && Count(slots', Overlapping(lo, hi)) == Count(slots, Overlapping(lo, hi)) - 1
      && FreeSlots(slots') == FreeSlots(slots) + 1
      && SizeAt(slots', lo) == (if slots[i].start == lo then 0 else SizeAt(slots, lo))
      && forall j | 0 <= j < |slots'| :: !Overlaps(slots'[j], slots[i].start, End(slots[i]))
  {
    var slots' := slots[i := slots[i].(size := 0)];
    forall a: nat
      ensures Hva(slots', a) == if Covers(slots[i], a) then None else Hva(slots, a)
    {
      HvaCleared(slots, i, a);
    }
    forall a: nat | Covers(slots[i], a)
      ensures Hva(slots, a) == Some(slots[i].ram + (a - slots[i].start))
    {
      HvaCovered(slots, i, a);
    }
    HvaCleared(slots, i, 0);
    assert forall k | 0 <= k < |slots| && k != i :: slots'[k] == slots[k];
    CountUpdate(slots, i, slots'[i], Overlapping(lo, hi));
    CountUpdate(slots, i, slots'[i], IsFree);
    if slots[i].start == lo {
      SizeAtFound(slots', lo);
    } else {
      SameSizeAt(slots, slots', lo);
    }
  }

  lemma AddedSteps(slots: seq<Slot>, i: nat, s: Slot, lo: nat, hi: nat)
    requires Disjoint(slots) && i < |slots| && IsFree(slots[i]) && s.size != 0
    requires forall j | 0 <= j < |slots| :: !Overlaps(slots[j], s.start, End(s))
    requires !Overlaps(s, lo, hi) && s.start != lo
    ensures var slots' := slots[i := s];
      && (forall a: nat :: Hva(slots', a) == if Covers(s, a) then Some(s.ram + (a - s.start)) else Hva(slots, a))
      && Count(slots', Overlapping(lo, hi)) == Count(slots, Overlapping(lo, hi))
      && FreeSlots(slots') == FreeSlots(slots) - 1
      && SizeAt(slots', lo) == SizeAt(slots, lo)
  {
    var slots' := slots[i := s];
    forall a: nat
      ensures Hva(slots', a) == if Covers(s, a) then Some(s.ram + (a - s.start)) else Hva(slots, a)
    {
      HvaAdded(slots, i, s, a);
    }
    HvaAdded(slots, i, s, 0);
    assert forall k | 0 <= k < |slots| && k != i :: slots'[k] == slots[k];
    CountUpdate(slots, i, s, Overlapping(lo, hi));
    CountUpdate(slots, i, s, IsFree);
    SameSizeAt(slots, slots', lo);
  }

  /** Moving a slot that starts at `lo` to a free place keeps the map and all intervals; beyond its
      end one slot fewer overlaps. */
  lemma MovedMapping(slots: seq<Slot>, i: nat, j: nat, flags: nat)
    requires Disjoint(slots) && i < |slots| && j < |slots| && slots[i].size != 0
    requires j == i || IsFree(slots[j])
    ensures var slots' := slots[i := slots[i].(size := 0)][j := slots[i].(flags := flags)];
      && Disjoint(slots')
      && (forall a: nat :: Hva(slots', a) == Hva(slots, a))
      && (forall c: nat :: SizeAt(slots', c) == SizeAt(slots, c))
  {
    var s1 := slots[i := slots[i].(size := 0)];
    var s := slots[i].(flags := flags);
    var slots' := s1[j := s];
    HvaCleared(slots, i, 0);
    HvaAdded(s1, j, s, 0);
    forall a: nat
      ensures Hva(slots', a) == Hva(slots, a)
    {
      HvaCleared(slots, i, a);
      HvaAdded(s1, j, s, a);
      if Covers(slots[i], a) {
        HvaCovered(slots, i, a);
      }
    }
    assert slots'[j] == s;
    assert forall k | 0 <= k < |slots| && k != i && k != j :: slots'[k] == slots[k];
    forall c: nat
      ensures SizeAt(slots', c) == SizeAt(slots, c)
    {
      SameSizeAt(slots, slots', c);
    }
  }

  lemma MovedSteps(slots: seq<Slot>, i: nat, j: nat, flags: nat, lo: nat, hi: nat)
    requires Disjoint(slots) && i < |slots| && j < |slots|
    requires slots[i].size != 0 && slots[i].start == lo && End(slots[i]) < hi
    requires j == i || IsFree(slots[j])
    ensures var slots' := slots[i := slots[i].(size := 0)][j := slots[i].(flags := flags)];
      && Disjoint(slots')
      && (forall a: nat :: Hva(slots', a) == Hva(slots, a))
      && (forall c: nat :: SizeAt(slots', c) == SizeAt(slots, c))
      && FreeSlots(slots') == FreeSlots(slots)
      && Count(slots', Overlapping(End(slots[i]), hi)) < Count(slots, Overlapping(lo, hi))
  {
    hide Disjoint, Hva, SizeAt;
    var s1 := slots[i := slots[i].(size := 0)];
    var s := slots[i].(flags := flags);
    MovedMapping(slots, i, j, flags);
    CountUpdate(slots, i, s1[i], IsFree);
    CountUpdate(s1, j, s, IsFree);
    var f, g := Overlapping(lo, hi), Overlapping(End(slots[i]), hi);
    CountUpdate(slots, i, s1[i], f);
    CountWeaker(s1, f, g);
    CountUpdate(s1, j, s, g);
  }

  /** A slot sticking out on both sides is the only one in the range. */
  lemma SplitIsAlone(slots: seq<Slot>, i: nat, lo: nat, hi: nat)
    requires Disjoint(slots) && i < |slots| && lo < hi && slots[i].start < lo && End(slots[i]) > hi
    ensures Count(slots, Overlapping(lo, hi)) == 1
  {
    var s1 := slots[i := slots[i].(size := 0)];
    assert forall k | 0 <= k < |s1| :: !Overlapping(lo, hi)(s1[k]);
    CountZero(s1, Overlapping(lo, hi));
    CountUpdate(slots, i, s1[i], Overlapping(lo, hi));
  }

  /** The range lies in slot `i` with the same host addresses: nothing but flags need change. */
  lemma FitsExisting(slots: seq<Slot>, i: nat, lo: nat, hi: nat, ram: int, flags: nat)
    requires Disjoint(slots) && i < |slots| && slots[i].size != 0
    requires slots[i].start <= lo < hi <= End(slots[i]) && ram - lo == slots[i].ram - slots[i].start
    ensures Disjoint(slots[i := slots[i].(flags := flags)])
    ensures Overridden(slots, slots[i := slots[i].(flags := flags)], lo, hi, true, ram)
    ensures Chain(slots, lo, hi) == lo
  {
    HvaFlags(slots, i, flags, 0);
    forall a: nat
      ensures Hva(slots[i := slots[i].(flags := flags)], a) == Override(slots, lo, hi, true, ram, a)
    {
      HvaFlags(slots, i, flags, a);
      if lo <= a < hi {
        HvaCovered(slots, i, a);
      }
    }
    SizeAtFound(slots, lo);
    if SizeAt(slots, lo) != 0 {
      SizeAtIs(slots, i);
    }
  }

  /** The range lies in the slot, with the host addresses asked for. */
  predicate Fits(s: Slot, lo: nat, hi: nat, ram: int) {
    s.size != 0 && s.start <= lo && hi <= End(s) && ram - lo == s.ram - s.start
  }

  /** A slot that contains the range is the only one that meets it. */
  lemma FitIsOnly(slots: seq<Slot>, i: nat, j: nat, lo: nat, hi: nat, ram: int)
    requires Disjoint(slots) && i < |slots| && j < |slots| && lo < hi && Fits(slots[i], lo, hi, ram) && Overlaps(slots[j], lo, hi)
    ensures i == j
  {
  }

  ghost predicate FitAmong(slots: seq<Slot>, lo: nat, hi: nat, ram: int) {
    exists i :: 0 <= i < |slots| && Fits(slots[i], lo, hi, ram)
  }

  lemma FitFound(slots: seq<Slot>, found: int, lo: nat, hi: nat, ram: int)
    requires Disjoint(slots) && lo < hi && found < |slots|
    requires if found < 0 then forall j | 0 <= j < |slots| :: !Overlaps(slots[j], lo, hi) else Overlaps(slots[found], lo, hi)
    ensures FitAmong(slots, lo, hi, ram) ==> found >= 0 && Fits(slots[found], lo, hi, ram)
  {
    hide Disjoint;
    if i: nat :| i < |slots| && Fits(slots[i], lo, hi, ram) {
      if found >= 0 {
        FitIsOnly(slots, i, found, lo, hi, ram);
      }
    }
  }

  /** Only the flags of the slot that contains the range have changed. */
  ghost predicate FlagsOnly(before: seq<Slot>, after: seq<Slot>, lo: nat, hi: nat, ram: int, flags: nat) {
    exists i :: 0 <= i < |before| && Fits(before[i], lo, hi, ram) && after == before[i := before[i].(flags := flags)]
  }

  /** The lowest overlapping slot does not start a run below `hi`: no run starts at `lo`. */
  lemma NoChain(slots: seq<Slot>, i: nat, lo: nat, hi: nat)
    requires Disjoint(slots) && i < |slots| && lo < hi && Overlaps(slots[i], lo, hi)
    requires forall j | 0 <= j < |slots| && Overlaps(slots[j], lo, hi) :: slots[i].start <= slots[j].start
    requires slots[i].start != lo || End(slots[i]) >= hi
    ensures Chain(slots, lo, hi) == lo
  {
    SizeAtFound(slots, lo);
    if SizeAt(slots, lo) != 0 {
      var j :| 0 <= j < |slots| && slots[j].size != 0 && slots[j].start == lo;
      SizeAtIs(slots, j);
    }
  }

  lemma ChainStays(slots: seq<Slot>, slots': seq<Slot>, lo: nat, hi: nat)
    requires Chain(slots, lo, hi) == lo
    requires SizeAt(slots', lo) == 0 || SizeAt(slots', lo) == SizeAt(slots, lo)
    ensures Chain(slots', lo, hi) == lo
  {
  }

  lemma ChainStep(slots: seq<Slot>, slots': seq<Slot>, i: nat, hi: nat)
    requires Disjoint(slots) && i < |slots| && slots[i].size != 0 && End(slots[i]) < hi
    requires forall c: nat :: SizeAt(slots', c) == SizeAt(slots, c)
    ensures Chain(slots', End(slots[i]), hi) == Chain(slots, slots[i].start, hi)
  {
    SizeAtIs(slots, i);
    ChainSame(slots, slots', End(slots[i]), hi);
  }

  /** With no slot left in the range, it is unmapped and starts no run. */
  lemma RangeEmpty(slots: seq<Slot>, lo: nat, hi: nat)
    requires lo < hi && forall j | 0 <= j < |slots| :: !Overlaps(slots[j], lo, hi)
    ensures forall a: nat | lo <= a < hi :: Hva(slots, a) == None
    ensures Chain(slots, lo, hi) == lo
  {
    forall a: nat | lo <= a < hi
      ensures Hva(slots, a) == None
    {
      HvaUncovered(slots, a);
    }
    SizeAtFound(slots, lo);
  }

  lemma OutsideTwice(before: seq<Slot>, now: seq<Slot>, after: seq<Slot>, lo: nat, hi: nat)
    requires SameOutside(before, now, lo, hi) && SameOutside(now, after, lo, hi)
    ensures SameOutside(before, after, lo, hi)
  {
  }

  lemma OverriddenAfter(before: seq<Slot>, now: seq<Slot>, after: seq<Slot>, lo: nat, hi: nat, add: bool, ram: int)
    requires SameOutside(before, now, lo, hi) && Overridden(now, after, lo, hi, add, ram)
    ensures Overridden(before, after, lo, hi, add, ram)
  {
    forall a: nat
      ensures Hva(after, a) == Override(before, lo, hi, add, ram, a)
    {
      assert Hva(after, a) == Override(now, lo, hi, add, ram, a);
    }
  }

  lemma Erased(before: seq<Slot>, now: seq<Slot>, lo: nat, hi: nat, ram: int)
    requires SameOutside(before, now, lo, hi) && forall a: nat | lo <= a < hi :: Hva(now, a) == None
    ensures Overridden(before, now, lo, hi, false, ram)
  {
  }

  lemma SameMap(before: seq<Slot>, now: seq<Slot>, after: seq<Slot>, cur: nat, lo: nat, hi: nat)
    requires SameOutside(before, now, cur, cur) && forall a: nat :: Hva(after, a) == Hva(now, a)
    ensures SameOutside(before, after, lo, hi) && SameOutside(before, after, lo, lo)
  {
  }

  lemma AddedMap(before: seq<Slot>, slots: seq<Slot>, i: nat, s: Slot)
    requires Disjoint(slots) && i < |slots| && IsFree(slots[i])
    requires forall j | 0 <= j < |slots| :: !Overlaps(slots[j], s.start, End(s))
    requires SameOutside(before, slots, s.start, End(s))
    ensures Overridden(before, slots[i := s], s.start, End(s), true, s.ram)
  {
    forall a: nat
      ensures Hva(slots[i := s], a) == Override(before, s.start, End(s), true, s.ram, a)
    {
      HvaAdded(slots, i, s, a);
    }
  }

  /** The slots of a range all have these flags. */
  ghost predicate FlagsIn(slots: seq<Slot>, lo: nat, hi: nat, flags: nat) {
    forall i | 0 <= i < |slots| && lo < hi && Overlaps(slots[i], lo, hi) :: slots[i].flags == flags
  }

  /** Slots in use are as before or were registered with these flags. */
  ghost predicate OthersSame(before: seq<Slot>, after: seq<Slot>, flags: nat) {
    |before| == |after| && forall i | 0 <= i < |after| && after[i].size != 0 :: after[i] == before[i] || after[i].flags == flags
  }

  lemma FlagsStay(before: seq<Slot>, after: seq<Slot>, lo: nat, hi: nat, flags: nat)
    requires OthersSame(before, after, flags) && FlagsIn(before, lo, hi, flags)
    ensures FlagsIn(after, lo, hi, flags)
  {
  }

  lemma NoFlags(slots: seq<Slot>, lo: nat, flags: nat)
    ensures FlagsIn(slots, lo, lo, flags)
  {
  }

  lemma FlagsUpdated(slots: seq<Slot>, i: nat, flags: nat)
    requires i < |slots|
    ensures OthersSame(slots, slots[i := slots[i].(flags := flags)], flags)
    ensures PartsOf(slots, slots[i := slots[i].(flags := flags)], i)
  {
  }

  lemma FlagsAdded(slots: seq<Slot>, i: nat, s: Slot)
    requires i < |slots|
    ensures OthersSame(slots, slots[i := s], s.flags)
  {
  }

  /** A slot that fills the next part of a range extends the part whose flags are known. */
  lemma FlagsReach(slots: seq<Slot>, j: nat, lo: nat, cur: nat, hi: nat, flags: nat)
    requires Disjoint(slots) && j < |slots| && slots[j].flags == flags
    requires lo <= cur < hi && slots[j].start <= cur && hi <= End(slots[j]) && FlagsIn(slots, lo, cur, flags)
    ensures FlagsIn(slots, lo, hi, flags)
  {
  }

  /** The flags that the table gives a guest address. */
  function FlagsAt(slots: seq<Slot>, a: nat): Option<nat> {
    if slots == [] then None
    else
      var s := slots[|slots| - 1];
      if Covers(s, a) then Some(s.flags) else FlagsAt(slots[..|slots| - 1], a)
  }

  lemma {:induction false} FlagsCovered(slots: seq<Slot>, i: nat, a: nat)
    requires Disjoint(slots) && i < |slots| && Covers(slots[i], a)
    ensures FlagsAt(slots, a) == Some(slots[i].flags)
  {
    var last := |slots| - 1;
    if i < last {
      FlagsCovered(slots[..last], i, a);
    }
  }

  lemma {:induction false} FlagsUncovered(slots: seq<Slot>, a: nat)
    requires forall i | 0 <= i < |slots| :: !Covers(slots[i], a)
    ensures FlagsAt(slots, a) == None
  {
    if slots != [] {
      FlagsUncovered(slots[..|slots| - 1], a);
    }
  }

  /** The address belongs to a slot that meets [lo, hi). */
  ghost predicate Touched(slots: seq<Slot>, lo: nat, hi: nat, a: nat) {
    exists i :: 0 <= i < |slots| && Covers(slots[i], a) && Overlaps(slots[i], lo, hi)
  }

  /** The flags of an address after [lo, hi) was added or removed with `flags`: what is registered again of
      the slots that met the range takes the new flags too. */
  ghost function NewFlags(slots: seq<Slot>, lo: nat, hi: nat, add: bool, flags: nat, a: nat): Option<nat> {
    if lo <= a < hi then (if add then Some(flags) else None)
    else if Touched(slots, lo, hi, a) then Some(flags)
    else FlagsAt(slots, a)
  }

  ghost predicate FlagsSet(slots: seq<Slot>, slots': seq<Slot>, lo: nat, hi: nat, add: bool, flags: nat) {
    forall a: nat :: FlagsAt(slots', a) == NewFlags(slots, lo, hi, add, flags, a)
  }

  /** Slots in use are as before, or have the new flags and cover, outside [lo, hi), only addresses of slots
      that met it. */
  ghost predicate FlagsFollow(before: seq<Slot>, now: seq<Slot>, lo: nat, hi: nat, flags: nat) {
    && OthersSame(before, now, flags)
    && forall j, a: nat | 0 <= j < |now| && now[j] != before[j] && Covers(now[j], a) && !(lo <= a < hi) :: Touched(before, lo, hi, a)
  }

  /** Slots in use are as before, or parts of slot `i`. */
  ghost predicate PartsOf(before: seq<Slot>, after: seq<Slot>, i: nat)
    requires i < |before|
  {
    && |before| == |after|
    && forall j | 0 <= j < |after| && after[j].size != 0 && after[j] != before[j] ::
         before[i].start <= after[j].start && End(after[j]) <= End(before[i])
  }

  lemma FollowParts(before: seq<Slot>, now: seq<Slot>, after: seq<Slot>, i: nat, lo: nat, cur: nat, hi: nat, flags: nat)
    requires FlagsFollow(before, now, lo, hi, flags) && OthersSame(now, after, flags)
    requires i < |now| && lo <= cur && Overlaps(now[i], cur, hi) && PartsOf(now, after, i)
    ensures FlagsFollow(before, after, lo, hi, flags)
  {
    forall j, a: nat | 0 <= j < |after| && after[j] != before[j] && Covers(after[j], a) && !(lo <= a < hi)
      ensures Touched(before, lo, hi, a)
    {
      if after[j] != now[j] {
        assert Covers(now[i], a);
      }
    }
  }

  lemma FollowAdded(before: seq<Slot>, now: seq<Slot>, i: nat, s: Slot, lo: nat, hi: nat, flags: nat)
    requires FlagsFollow(before, now, lo, hi, flags) && i < |now| && lo <= s.start && End(s) <= hi && s.flags == flags
    ensures FlagsFollow(before, now[i := s], lo, hi, flags)
  {
  }

  lemma FollowSame(slots: seq<Slot>, lo: nat, hi: nat, flags: nat)
    ensures FlagsFollow(slots, slots, lo, hi, flags)
  {
  }

  lemma {:induction false} ChainMapped(slots: seq<Slot>, c: nat, hi: nat, a: nat)
    requires Disjoint(slots) && c <= a < Chain(slots, c, hi)
    ensures Hva(slots, a).Some?
    decreases hi - c
  {
    var z := SizeAt(slots, c);
    SizeAtFound(slots, c);
    var i :| 0 <= i < |slots| && slots[i].size != 0 && slots[i].start == c;
    SizeAtIs(slots, i);
    if a < c + z {
      HvaCovered(slots, i, a);
    } else {
      ChainMapped(slots, c + z, hi, a);
    }
  }

  lemma Coverer(slots: seq<Slot>, a: nat) returns (i: nat)
    requires Hva(slots, a).Some?
    ensures i < |slots| && Covers(slots[i], a)
  {
    if forall j | 0 <= j < |slots| :: !Covers(slots[j], a) {
      HvaUncovered(slots, a);
    }
    i :| i < |slots| && Covers(slots[i], a);
  }

  lemma FlagsOutside(before: seq<Slot>, after: seq<Slot>, lo: nat, hi: nat, flags: nat, a: nat)
    requires Disjoint(before) && Disjoint(after) && FlagsFollow(before, after, lo, hi, flags)
    requires Hva(after, a) == Hva(before, a) && !(lo <= a < hi)
    requires forall j | 0 <= j < |after| && Overlaps(after[j], lo, hi) :: after[j].flags == flags
    ensures FlagsAt(after, a) == if Touched(before, lo, hi, a) then Some(flags) else FlagsAt(before, a)
  {
    hide Hva, FlagsAt;
    if Hva(before, a).Some? {
      var i := Coverer(before, a);
      var j := Coverer(after, a);
      FlagsCovered(before, i, a);
      FlagsCovered(after, j, a);
      if after[j] == before[j] {
        assert Disjoint(before) && Covers(before[j], a) && Covers(before[i], a);
        assert i == j;
      }
    } else {
      Unmapped(before, a);
      Unmapped(after, a);
      FlagsUncovered(before, a);
      FlagsUncovered(after, a);
    }
  }

  lemma Unmapped(slots: seq<Slot>, a: nat)
    requires Disjoint(slots) && Hva(slots, a).None?
    ensures forall i | 0 <= i < |slots| :: !Covers(slots[i], a)
  {
    hide Disjoint, Hva;
    if i: nat :| i < |slots| && Covers(slots[i], a) {
      HvaCovered(slots, i, a);
    }
  }

  /** Once the range is set, every address has the flags it should have. */
  lemma FlagsDone(before: seq<Slot>, after: seq<Slot>, lo: nat, hi: nat, cut: nat, add: bool, ram: int, flags: nat)
    requires Disjoint(before) && Disjoint(after) && lo <= cut < hi && FlagsFollow(before, after, lo, hi, flags)
    requires Overridden(before, after, cut, hi, add, ram)
    requires if add then cut == lo || cut == Chain(before, lo, hi) else cut == lo
    requires add ==> FlagsIn(after, lo, hi, flags)
    ensures FlagsSet(before, after, lo, hi, add, flags)
  {
    hide Hva, FlagsAt, Chain, FlagsFollow, Disjoint;
    forall j | 0 <= j < |after| && Overlaps(after[j], lo, hi)
      ensures after[j].flags == flags
    {
      if !add {
        var a := if lo < after[j].start then after[j].start else lo;
        assert Hva(after, a) == Override(before, cut, hi, add, ram, a);
        HvaCovered(after, j, a);
      }
    }
    forall a: nat
      ensures FlagsAt(after, a) == NewFlags(before, lo, hi, add, flags, a)
    {
      assert Hva(after, a) == Override(before, cut, hi, add, ram, a);
      if !(lo <= a < hi) {
        FlagsOutside(before, after, lo, hi, flags, a);
      } else if add {
        if a < cut {
          ChainMapped(before, lo, hi, a);
        }
        var j := Coverer(after, a);
        FlagsCovered(after, j, a);
      } else {
        Unmapped(after, a);
        FlagsUncovered(after, a);
      }
    }
  }

  /** Every slot that sticks out of [lo, hi) has these flags. */
  ghost predicate PiecesHave(slots: seq<Slot>, lo: nat, hi: nat, flags: nat) {
    forall i | 0 <= i < |slots| && Overlaps(slots[i], lo, hi) && Pieces(slots[i], lo, hi) > 0 :: slots[i].flags == flags
  }

  ghost predicate FlagsKeptOutside(before: seq<Slot>, after: seq<Slot>, lo: nat, hi: nat) {
    forall a: nat | !(lo <= a < hi) :: FlagsAt(after, a) == FlagsAt(before, a)
  }

  /** Addresses outside the range keep their flags exactly when every slot that sticks out of it had the
      requested ones. */
  lemma FlagsKeptIff(before: seq<Slot>, after: seq<Slot>, lo: nat, hi: nat, add: bool, flags: nat)
    requires Disjoint(before) && lo < hi && FlagsSet(before, after, lo, hi, add, flags)
    ensures FlagsKeptOutside(before, after, lo, hi) <==> PiecesHave(before, lo, hi, flags)
  {
    hide FlagsAt, Disjoint;
    if FlagsKeptOutside(before, after, lo, hi) {
      forall i | 0 <= i < |before| && Overlaps(before[i], lo, hi) && Pieces(before[i], lo, hi) > 0
        ensures before[i].flags == flags
      {
        var a := if before[i].start < lo then before[i].start else hi;
        FlagsCovered(before, i, a);
        assert FlagsAt(after, a) == NewFlags(before, lo, hi, add, flags, a);
      }
    }
    if PiecesHave(before, lo, hi, flags) {
      forall a: nat | !(lo <= a < hi)
        ensures FlagsAt(after, a) == FlagsAt(before, a)
      {
        assert FlagsAt(after, a) == NewFlags(before, lo, hi, add, flags, a);
        if Touched(before, lo, hi, a) {
          var i :| 0 <= i < |before| && Covers(before[i], a) && Overlaps(before[i], lo, hi);
          FlagsCovered(before, i, a);
        }
      }
    }
  }

  lemma OverlapIsCounted(slots: seq<Slot>, i: nat, lo: nat, hi: nat)
    requires i < |slots| && Overlaps(slots[i], lo, hi)
    ensures Count(slots, Overlapping(lo, hi)) > 0
  {
    CountZero(slots, Overlapping(lo, hi));
    assert Overlapping(lo, hi)(slots[i]);
  }

  /** Where the new mapping starts: the run of slots that the workaround keeps comes before. */
  function Cut(slots: seq<Slot>, lo: nat, hi: nat, add: bool, broken: bool): nat {
    if broken && add then Chain(slots, lo, hi) else lo
  }

  ghost predicate AlreadyMaps(slots: seq<Slot>, lo: nat, hi: nat, ram: int) {
    forall a: nat | lo <= a < hi :: Hva(slots, a) == Some(ram + (a - lo))
  }

  /** With the workaround the range is overridden exactly when the slots it keeps already map
      their part of the range as requested. */
  lemma WorkaroundExactness(slots: seq<Slot>, slots': seq<Slot>, lo: nat, hi: nat, ram: int)
    requires lo < hi
    requires var cut := Cut(slots, lo, hi, true, true); Overridden(slots, slots', cut, hi, true, ram + (cut - lo))
    ensures Overridden(slots, slots', lo, hi, true, ram) <==>
            AlreadyMaps(slots, lo, Cut(slots, lo, hi, true, true), ram)
  {
    var cut := Cut(slots, lo, hi, true, true);
    if Overridden(slots, slots', lo, hi, true, ram) {
      forall a: nat | lo <= a < cut
        ensures Hva(slots, a) == Some(ram + (a - lo))
      {
        assert Hva(slots', a) == Override(slots, lo, hi, true, ram, a);
        assert Hva(slots', a) == Override(slots, cut, hi, true, ram + (cut - lo), a);
      }
    }
    if AlreadyMaps(slots, lo, cut, ram) {
      forall a: nat
        ensures Hva(slots', a) == Override(slots, lo, hi, true, ram, a)
      {
        assert Hva(slots', a) == Override(slots, cut, hi, true, ram + (cut - lo), a);
      }
    }
  }

  datatype MemRegion = MemRegion(isRam: bool, readonly: bool, romDevice: bool, romdMode: bool, ramPtr: int, dirtyLog: bool)

  datatype Section = Section(mr: MemRegion, start: nat, size: nat, regionOffset: nat)

  /** What is left of [start, start + size) after padding its start up and its size down to pages. */
  function WholePages(start: nat, size: nat): (r: (nat, nat))
    ensures r.0 % PAGE_SIZE == 0 && r.1 % PAGE_SIZE == 0
    ensures forall p: nat {:trigger p * PAGE_SIZE} ::
              (start <= p * PAGE_SIZE && p * PAGE_SIZE + PAGE_SIZE <= start + size) <==>
              (r.0 <= p * PAGE_SIZE && p * PAGE_SIZE + PAGE_SIZE <= r.0 + r.1)
  {
    var delta := (PAGE_SIZE - start % PAGE_SIZE) % PAGE_SIZE;
    if delta > size then (start + delta, 0)
    else (start + delta, (size - delta) - (size - delta) % PAGE_SIZE)
  }

  /** kvm_mem_flags: bit 0 logs dirty pages, bit 1 makes the slot read-only. */
  function MemFlags(mr: MemRegion, readonlyAllowed: bool): nat {
    (if mr.dirtyLog then 1 else 0) +
    (if (mr.readonly || (mr.romDevice && mr.romdMode)) && readonlyAllowed then 2 else 0)
  }

  /** Neither RAM nor a ROM the kernel can serve read-only: not the kernel's business. */
  predicate Ignored(mr: MemRegion, readonlyAllowed: bool) {
    !mr.isRam && ((!mr.readonly && !mr.romDevice) || !readonlyAllowed)
  }

  /** A ROM device outside ROM mode is unmapped so that all accesses trap. */
  predicate EffectiveAdd(mr: MemRegion, add: bool) {
    add && (mr.isRam || mr.romdMode)
  }

  /** The address is in a slot that the guest may write to. */
  predicate WritableAt(slots: seq<Slot>, a: nat) {
    var f := FlagsAt(slots, a);
    f.Some? && f.value / 2 % 2 == 0
  }

  /** Writes to the address are logged. */
  predicate LoggedAt(slots: seq<Slot>, a: nat) {
    var f := FlagsAt(slots, a);
    f.Some? && f.value % 2 == 1
  }

  /** How the access loop of the device model sees the region. */
  function AsRegion(mr: MemRegion): M.Region {
    M.Region(mr.isRam, mr.readonly, mr.romDevice && mr.romdMode, 0, 0, 0, false)
  }

  /** RAM, a ROM device, or a device. RAM is no ROM device; what is neither is not read-only. */
  predicate OfAKind(mr: MemRegion) {
    if mr.isRam then !mr.romDevice else mr.readonly ==> mr.romDevice
  }

  ghost predicate NothingIn(slots: seq<Slot>, lo: nat, hi: nat) {
    forall a: nat | lo <= a < hi :: Hva(slots, a).None?
  }

  /** The guest reads and writes the range without an exit exactly where the device model goes to RAM
      directly. */
  ghost predicate AgreesWithModel(slots: seq<Slot>, lo: nat, hi: nat, mr: MemRegion) {
    forall a: nat | lo <= a < hi ::
      (Hva(slots, a).Some? <==> M.Direct(AsRegion(mr), false)) && (WritableAt(slots, a) <==> M.Direct(AsRegion(mr), true))
  }

  /** An address has flags exactly if it has a host address. */
  lemma FlagsWithHva(slots: seq<Slot>, a: nat)
    requires Disjoint(slots)
    ensures FlagsAt(slots, a).Some? <==> Hva(slots, a).Some?
  {
    hide Hva, FlagsAt, Disjoint;
    if Hva(slots, a).Some? {
      var i := Coverer(slots, a);
      FlagsCovered(slots, i, a);
    } else {
      Unmapped(slots, a);
      FlagsUncovered(slots, a);
    }
  }

  /** A range that was free has been added as asked: guest accesses go where those of the device model go. */
  lemma AddedAgrees(before: seq<Slot>, after: seq<Slot>, lo: nat, hi: nat, cut: nat, ram: int, mr: MemRegion)
    requires OfAKind(mr) && NothingIn(before, lo, hi) && Disjoint(before) && Disjoint(after) && lo <= cut
    requires if Ignored(mr, true) then after == before
             else cut == lo && Overridden(before, after, cut, hi, EffectiveAdd(mr, true), ram) &&
                  FlagsSet(before, after, lo, hi, EffectiveAdd(mr, true), MemFlags(mr, true))
    ensures AgreesWithModel(after, lo, hi, mr)
  {
    hide Hva, FlagsAt, Disjoint;
    forall a: nat | lo <= a < hi
      ensures Hva(after, a).Some? <==> M.Direct(AsRegion(mr), false)
      ensures WritableAt(after, a) <==> M.Direct(AsRegion(mr), true)
    {
      FlagsWithHva(after, a);
      if !Ignored(mr, true) {
        assert Hva(after, a) == Override(before, cut, hi, EffectiveAdd(mr, true), ram, a);
        assert FlagsAt(after, a) == NewFlags(before, lo, hi, EffectiveAdd(mr, true), MemFlags(mr, true), a);
      }
    }
  }

  /** Every address of the range is mapped, logged exactly if the region is, and writable exactly if the region
      is RAM that is not read-only, or the kernel knows no read-only memory. */
  ghost predicate SectionAdded(slots: seq<Slot>, lo: nat, hi: nat, mr: MemRegion, readonlyAllowed: bool) {
    forall a: nat | lo <= a < hi ::
      && FlagsAt(slots, a).Some? && (LoggedAt(slots, a) <==> mr.dirtyLog)
      && (WritableAt(slots, a) <==> !readonlyAllowed || (mr.isRam && !mr.readonly && !(mr.romDevice && mr.romdMode)))
  }

  lemma SectionDone(before: seq<Slot>, after: seq<Slot>, lo: nat, hi: nat, mr: MemRegion, add: bool, readonlyAllowed: bool)
    requires Disjoint(after) && !Ignored(mr, readonlyAllowed)
    requires FlagsSet(before, after, lo, hi, EffectiveAdd(mr, add), MemFlags(mr, readonlyAllowed))
    ensures mr.isRam || (readonlyAllowed && (mr.readonly || mr.romDevice))
    ensures if add && (mr.isRam || mr.romdMode) then SectionAdded(after, lo, hi, mr, readonlyAllowed) else NothingIn(after, lo, hi)
  {
    hide Hva, FlagsAt, Disjoint;
    forall a: nat | lo <= a < hi
      ensures FlagsAt(after, a) == if EffectiveAdd(mr, add) then Some(MemFlags(mr, readonlyAllowed)) else None
      ensures Hva(after, a).Some? <==> EffectiveAdd(mr, add)
    {
      FlagsWithHva(after, a);
      assert FlagsAt(after, a) == NewFlags(before, lo, hi, EffectiveAdd(mr, add), MemFlags(mr, readonlyAllowed), a);
    }
  }

  lemma CutOfNothing(slots: seq<Slot>, lo: nat, hi: nat, add: bool, broken: bool)
    requires Disjoint(slots) && NothingIn(slots, lo, hi) && lo < hi
    ensures Cut(slots, lo, hi, add, broken) == lo
  {
    hide Hva, Disjoint, Chain;
    NoRunInNothing(slots, lo, hi);
  }

  /** A table that is left as it is. */
  lemma KeptSame(slots: seq<Slot>, lo: nat, hi: nat, mr: MemRegion)
    requires OfAKind(mr) && NothingIn(slots, lo, hi) && Disjoint(slots) && lo <= hi && (lo < hi ==> Ignored(mr, true))
    ensures AgreesWithModel(slots, lo, hi, mr)
  {
    if lo < hi {
      AddedAgrees(slots, slots, lo, hi, lo, 0, mr);
    }
  }

  lemma EmptyRange(slots: seq<Slot>, lo: nat, add: bool, broken: bool, ram: int, flags: nat)
    ensures Cut(slots, lo, lo, add, broken) == lo && Overridden(slots, slots, lo, lo, add, ram) && FlagsIn(slots, lo, lo, flags)
  {
  }

  lemma NoRunInNothing(slots: seq<Slot>, lo: nat, hi: nat)
    requires Disjoint(slots) && NothingIn(slots, lo, hi) && lo < hi
    ensures Chain(slots, lo, hi) == lo
  {
    hide Hva, Disjoint;
    SizeAtFound(slots, lo);
    Unmapped(slots, lo);
  }

  /** A read-only slot in use: the kernel takes it only after the slot was empty. */
  predicate EmptiedFirst(s: Slot) {
    s.size != 0 && s.flags / 2 % 2 == 1
  }

  // ---------------------------------------------------------------------------------------
  // The loop of kvm_set_phys_mem: what holds when the range is done up to `cur`

  ghost predicate Progress(before: seq<Slot>, now: seq<Slot>, start: nat, cur: nat, hi: nat, add: bool, broken: bool, flags: nat) {
    && start <= cur < hi && SameOutside(before, now, cur, hi)
    && FlagsIn(now, start, cur, flags) && FlagsFollow(before, now, start, hi, flags)
    && (if broken && add then Chain(now, cur, hi) == Chain(before, start, hi) else cur == start)
    && (broken && add && Chain(now, cur, hi) != cur ==> SameOutside(before, now, cur, cur))
    && (FreeSlots(before) >= 2 ==> FreeSlots(now) >= if Count(now, Overlapping(cur, hi)) == 0 then 1 else 2)
  }

  lemma ProgressStart(slots: seq<Slot>, start: nat, hi: nat, add: bool, broken: bool, flags: nat)
    requires start < hi
    ensures Progress(slots, slots, start, start, hi, add, broken, flags)
  {
    hide Hva, Chain, FreeSlots, FlagsIn, FlagsFollow;
    NoFlags(slots, start, flags);
    FollowSame(slots, start, hi, flags);
  }

  lemma ProgressFits(before: seq<Slot>, now: seq<Slot>, i: nat, start: nat, cur: nat, hi: nat, host: int, broken: bool, flags: nat)
    requires Disjoint(now) && Progress(before, now, start, cur, hi, true, broken, flags)
    requires i < |now| && Overlaps(now[i], cur, hi) && now[i].start <= cur && hi <= End(now[i]) && host - cur == now[i].ram - now[i].start
    ensures var after := now[i := now[i].(flags := flags)];
      && Cut(before, start, hi, true, broken) == cur && Overridden(before, after, cur, hi, true, host)
      && FlagsIn(after, start, hi, flags) && FlagsFollow(before, after, start, hi, flags)
  {
    hide Hva, Chain, FreeSlots, FlagsIn, FlagsFollow, OthersSame, PartsOf, SameOutside, Overridden, Disjoint;
    var after := now[i := now[i].(flags := flags)];
    FitsExisting(now, i, cur, hi, host, flags);
    OverriddenAfter(before, now, after, cur, hi, true, host);
    FlagsUpdated(now, i, flags);
    FlagsStay(now, after, start, cur, flags);
    FlagsReach(after, i, start, cur, hi, flags);
    FollowParts(before, now, after, i, start, cur, hi, flags);
  }

  /** The run of kept slots grows by slot `i`, which has been registered again. */
  lemma ProgressKeep(before: seq<Slot>, now: seq<Slot>, after: seq<Slot>, i: nat, start: nat, hi: nat, flags: nat)
    requires Disjoint(now) && Disjoint(after) && i < |now| && now[i].size != 0 && End(now[i]) < hi
    requires Progress(before, now, start, now[i].start, hi, true, true, flags)
    requires FreeSlots(after) == FreeSlots(now) && (forall a: nat :: Hva(after, a) == Hva(now, a))
    requires forall c: nat :: SizeAt(after, c) == SizeAt(now, c)
    requires Count(after, Overlapping(End(now[i]), hi)) < Count(now, Overlapping(now[i].start, hi))
    requires OthersSame(now, after, flags) && PartsOf(now, after, i)
    requires exists k :: 0 <= k < |after| && after[k] == now[i].(flags := flags)
    ensures Progress(before, after, start, End(now[i]), hi, true, true, flags)
  {
    hide Hva, Chain, FreeSlots, Count, SizeAt, FlagsIn, FlagsFollow, OthersSame, PartsOf, SameOutside, Disjoint;
    var cur, next := now[i].start, End(now[i]);
    ChainStep(now, after, i, hi);
    SameMap(before, now, after, cur, next, hi);
    var k :| 0 <= k < |after| && after[k] == now[i].(flags := flags);
    FlagsStay(now, after, start, cur, flags);
    FlagsReach(after, k, start, cur, next, flags);
    FollowParts(before, now, after, i, start, cur, hi, flags);
  }

  /** With two free slots at the start there is always room for the pieces of a slot. */
  lemma ProgressRoom(before: seq<Slot>, now: seq<Slot>, i: nat, start: nat, cur: nat, hi: nat, add: bool, broken: bool, flags: nat)
    requires i < |now| && Overlaps(now[i], cur, hi) && Progress(before, now, start, cur, hi, add, broken, flags)
    ensures FreeSlots(before) >= 2 ==> FreeSlots(now) + 1 >= Pieces(now[i], cur, hi)
  {
    hide Chain, FreeSlots, Count, FlagsIn, FlagsFollow, SameOutside;
    OverlapIsCounted(now, i, cur, hi);
  }

  /** Slot `i`, the lowest of the range, has been removed from it. */
  lemma ProgressCarve(before: seq<Slot>, now: seq<Slot>, after: seq<Slot>, i: nat, start: nat, cur: nat, hi: nat,
                      add: bool, broken: bool, flags: nat)
    requires Disjoint(now) && Progress(before, now, start, cur, hi, add, broken, flags)
    requires i < |now| && Overlaps(now[i], cur, hi) && !(broken && now[i].start == cur && now[i].size < hi - cur && add)
    requires forall j | 0 <= j < |now| && Overlaps(now[j], cur, hi) :: now[i].start <= now[j].start
    requires SameOutside(now, after, cur, hi)
    requires Count(after, Overlapping(cur, hi)) == Count(now, Overlapping(cur, hi)) - 1
    requires FreeSlots(after) == FreeSlots(now) + 1 - Pieces(now[i], cur, hi)
    requires SizeAt(after, cur) == 0 || SizeAt(after, cur) == SizeAt(now, cur)
    requires OthersSame(now, after, flags) && PartsOf(now, after, i)
    ensures Progress(before, after, start, cur, hi, add, broken, flags)
  {
    hide Hva, Chain, FreeSlots, Count, SizeAt, FlagsIn, FlagsFollow, OthersSame, PartsOf, SameOutside, Disjoint;
    if broken && add {
      NoChain(now, i, cur, hi);
      ChainStays(now, after, cur, hi);
    }
    OverlapIsCounted(now, i, cur, hi);
    if now[i].start < cur && End(now[i]) > hi {
      SplitIsAlone(now, i, cur, hi);
    }
    OutsideTwice(before, now, after, cur, hi);
    FlagsStay(now, after, start, cur, flags);
    FollowParts(before, now, after, i, start, cur, hi, flags);
  }

  /** No slot is left in the rest of the range: for a removal, everything is done. */
  lemma ProgressDone(before: seq<Slot>, now: seq<Slot>, start: nat, cur: nat, hi: nat, host: int, add: bool, broken: bool, flags: nat)
    requires Progress(before, now, start, cur, hi, add, broken, flags)
    requires forall j | 0 <= j < |now| :: !Overlaps(now[j], cur, hi)
    ensures Cut(before, start, hi, add, broken) == cur && SameOutside(before, now, cur, hi)
    ensures FlagsIn(now, start, cur, flags) && FlagsFollow(before, now, start, hi, flags)
    ensures !add ==> Overridden(before, now, cur, hi, false, host)
    ensures FreeSlots(before) >= 2 ==> FreeSlots(now) > 0
  {
    hide Hva, Chain, FreeSlots, Count, FlagsIn, FlagsFollow, SameOutside, Overridden;
    RangeEmpty(now, cur, hi);
    Erased(before, now, cur, hi, host);
  }

  /** A slot in use that a request makes read-only, or changes while it is, was empty before. */
  ghost predicate EmptyBefore(before: seq<Slot>, after: seq<Slot>) {
    && |before| == |after|
    && forall j | 0 <= j < |after| && after[j] != before[j] && after[j].size != 0 && after[j].flags / 2 % 2 == 1 ::
         before[j].size == 0
  }

  class SlotTable {
    const slots: array<Slot>
    /** What the kernel has been told, slot by slot. */
    var kernel: seq<Slot>
    /** The kernel's table after each ioctl. */
    ghost var log: seq<seq<Slot>>

    /** Host and kernel agree, and no two slots ever overlapped in the kernel. */
    ghost predicate Valid()
      reads this, slots
    {
      kernel == slots[..] && Disjoint(kernel) && Logged()
    }

    /** The kernel's table after every request had disjoint slots, every slot that became read-only had been empty,
        and the last table is the present one. */
    ghost predicate Logged()
      reads this
    {
      && log != [] && log[|log| - 1] == kernel && (forall t :: t in log ==> Disjoint(t))
      && forall i | 0 < i < |log| :: EmptyBefore(log[i - 1], log[i])
    }

    constructor (n: nat)
      ensures Valid() && fresh(slots) && slots.Length == n && FreeSlots(slots[..]) == n
      ensures forall i | 0 <= i < n :: IsFree(slots[i])
    {
      slots := new Slot[n](_ => Slot(0, 0, 0, 0));
      new;
      kernel, log := slots[..], [slots[..]];
      AllFree(slots[..]);
    }

    /** kvm_set_user_memory_region: a read-only slot is first emptied in the kernel. */
    method SetUserMemoryRegion(i: nat)
      requires i < slots.Length && |kernel| == slots.Length
      requires Disjoint(kernel[i := slots[i]]) && Disjoint(kernel[i := slots[i].(size := 0)])
      requires Logged()
      modifies this
      ensures kernel == old(kernel)[i := slots[i]] && Logged()
      ensures log == old(log) + (if EmptiedFirst(slots[i]) then [old(kernel)[i := slots[i].(size := 0)]] else []) + [kernel]
      ensures slots[i].size == 0 || slots[i].flags / 2 % 2 == 0 ==> log == old(log) + [kernel]
    {
      if EmptiedFirst(slots[i]) {
        kernel := kernel[i := slots[i].(size := 0)];
        log := log + [kernel];
      }
      kernel := kernel[i := slots[i]];
      log := log + [kernel];
    }

    method GetFreeSlot() returns (i: int)
      ensures i < 0 <==> FreeSlots(slots[..]) == 0
      ensures i >= 0 ==> i < slots.Length && IsFree(slots[i]) && forall j | 0 <= j < i :: !IsFree(slots[j])
    {
      CountZero(slots[..], IsFree);
      i := 0;
      while i < slots.Length
        invariant 0 <= i <= slots.Length
        invariant forall j | 0 <= j < i :: !IsFree(slots[j])
      {
        if IsFree(slots[i]) {
          assert IsFree(slots[..][i]);
          return;
        }
        i := i + 1;
      }
      i := -1;
    }

    /** The overlapping slot with the lowest start address. */
    method LookupOverlapping(lo: nat, hi: nat) returns (found: int)
      ensures found < 0 ==> forall j | 0 <= j < slots.Length :: !Overlaps(slots[j], lo, hi)
      ensures found >= 0 ==> found < slots.Length && Overlaps(slots[found], lo, hi)
      ensures found >= 0 ==> forall j | 0 <= j < slots.Length && Overlaps(slots[j], lo, hi) :: slots[found].start <= slots[j].start
    {
      found := -1;
      for i := 0 to slots.Length
        invariant found < 0 ==> forall j | 0 <= j < i :: !Overlaps(slots[j], lo, hi)
        invariant found >= 0 ==> found < i && Overlaps(slots[found], lo, hi)
        invariant found >= 0 ==> forall j | 0 <= j < i && Overlaps(slots[j], lo, hi) :: slots[found].start <= slots[j].start
      {
        var mem := slots[i];
        if mem.size == 0 || (found >= 0 && slots[found].start < mem.start) {
          continue;
        }
        if hi > mem.start && lo < mem.start + mem.size {
          found := i;
        }
      }
    }

    /** Empties slot `i` and tells the kernel. */
    method Unregister(i: nat)
      requires Valid() && i < slots.Length
      modifies this, slots
      ensures Valid() && slots[..] == old(slots[..])[i := old(slots[i]).(size := 0)]
      ensures log == old(log) + [slots[..]]
    {
      HvaCleared(slots[..], i, 0);
      slots[i] := slots[i].(size := 0);
      SetUserMemoryRegion(i);
    }

    /** Fills a free slot and tells the kernel; fails when the table is full. */
    method Register(s: Slot) returns (ok: bool, i: int)
      requires Valid() && s.size != 0
      requires forall j | 0 <= j < slots.Length :: !Overlaps(slots[j], s.start, End(s))
      modifies this, slots
      ensures Valid()
      ensures ok <==> FreeSlots(old(slots[..])) > 0
      ensures !ok ==> slots[..] == old(slots[..])
      ensures old(log) <= log && (ok ==> old(log) != log)
      ensures ok ==> 0 <= i < slots.Length && IsFree(old(slots[i])) && slots[..] == old(slots[..])[i := s]
    {
      i := GetFreeSlot();
      ok := i >= 0;
      if ok {
        HvaAdded(slots[..], i, s, 0);
        HvaAdded(slots[..], i, s.(size := 0), 0);
        slots[i] := s;
        SetUserMemoryRegion(i);
      }
    }

    /** Removes slot `i` from [lo, hi): what sticks out on either side is registered again. */
    method Carve(i: nat, lo: nat, hi: nat, flags: nat) returns (ok: bool)
      requires Valid() && i < slots.Length && lo < hi && Overlaps(slots[i], lo, hi)
      modifies this, slots
      ensures ok <==> FreeSlots(old(slots[..])) + 1 >= Pieces(old(slots[i]), lo, hi)
      ensures ok ==> Valid() && SameOutside(old(slots[..]), slots[..], lo, hi)
      ensures ok ==> Count(slots[..], Overlapping(lo, hi)) == Count(old(slots[..]), Overlapping(lo, hi)) - 1
      ensures ok ==> FreeSlots(slots[..]) == FreeSlots(old(slots[..])) + 1 - Pieces(old(slots[i]), lo, hi)
      ensures ok ==> SizeAt(slots[..], lo) == 0 || SizeAt(slots[..], lo) == SizeAt(old(slots[..]), lo)
      ensures ok ==> OthersSame(old(slots[..]), slots[..], flags) && PartsOf(old(slots[..]), slots[..], i)
      ensures Logged()
      ensures old(log) + [old(slots[..])[i := old(slots[i]).(size := 0)]] <= log
    {
      hide Hva, Count, SizeAt, Disjoint, FreeSlots, Overlapping;
      ghost var s0 := slots[..];
      var old_ := slots[i];
      Unregister(i);
      ghost var s1 := slots[..];
      ClearedSteps(s0, i, lo, hi);
      ok := true;
      var j;
      if old_.start < lo {
        ok, j := Register(Slot(old_.start, lo - old_.start, old_.ram, flags));
        if !ok {
          return;
        }
        AddedSteps(s1, j, slots[j], lo, hi);
      }
      ghost var s2 := slots[..];
      if old_.start + old_.size > hi {
        var delta := hi - old_.start;
        ok, j := Register(Slot(hi, old_.size - delta, old_.ram + delta, flags));
        if !ok {
          return;
        }
        AddedSteps(s2, j, slots[j], lo, hi);
      }
    }

    /** The workaround for kernels that cannot join slots: slot `i`, which starts the range, is
        registered again as it is. */
    method Keep(i: nat, lo: nat, hi: nat, flags: nat)
      requires Valid() && i < slots.Length
      requires slots[i].size != 0 && slots[i].start == lo && End(slots[i]) < hi
      modifies this, slots
      ensures Valid() && FreeSlots(slots[..]) == FreeSlots(old(slots[..]))
      ensures forall a: nat :: Hva(slots[..], a) == Hva(old(slots[..]), a)
      ensures forall c: nat :: SizeAt(slots[..], c) == SizeAt(old(slots[..]), c)
      ensures Count(slots[..], Overlapping(End(old(slots[i])), hi)) < Count(old(slots[..]), Overlapping(lo, hi))
      ensures OthersSame(old(slots[..]), slots[..], flags) && PartsOf(old(slots[..]), slots[..], i)
      ensures exists j :: 0 <= j < slots.Length && slots[j] == old(slots[i]).(flags := flags)
      ensures old(log) + [old(slots[..])[i := old(slots[i]).(size := 0)]] <= log
    {
      hide Hva, Count, SizeAt, Disjoint, FreeSlots, Overlapping;
      ghost var s0 := slots[..];
      var mem := slots[i];
      Unregister(i);
      ClearedSteps(s0, i, lo, hi);
      var ok, j := Register(Slot(mem.start, mem.size, mem.ram, flags));
      MovedSteps(s0, i, j, flags, lo, hi);
    }

    method UpdateFlags(i: nat, flags: nat)
      requires Valid() && i < slots.Length
      modifies this, slots
      ensures Valid() && slots[..] == old(slots[..])[i := old(slots[i]).(flags := flags)]
      ensures old(log) <= log && (old(slots[i]).flags == flags <==> log == old(log))
      ensures old(slots[i]).flags != flags && flags / 2 % 2 == 0 ==> log == old(log) + [slots[..]]
    {
      HvaFlags(slots[..], i, flags, 0);
      HvaCleared(slots[..][i := slots[i].(flags := flags)], i, 0);
      var before := slots[i].flags;
      slots[i] := slots[i].(flags := flags);
      if slots[i].flags != before {
        assert slots[..][i := slots[i].(size := 0)] == kernel[i := slots[i].(size := 0)];
        SetUserMemoryRegion(i);
      }
    }

    /** The loop and final registration of kvm_set_phys_mem on a page-aligned range. */
    method SetRange(start: nat, size: nat, ram: int, add: bool, flags: nat, broken: bool) returns (ok: bool)
      requires Valid() && size > 0
      modifies this, slots
      ensures FreeSlots(old(slots[..])) >= 2 ==> ok
      ensures ok ==> Valid()
      ensures ok ==> var cut := Cut(old(slots[..]), start, start + size, add, broken);
                       Overridden(old(slots[..]), slots[..], cut, start + size, add, ram + (cut - start))
      ensures ok ==> FlagsSet(old(slots[..]), slots[..], start, start + size, add, flags)
      ensures ok && add ==> FlagsIn(slots[..], start, start + size, flags)
      ensures old(log) <= log && Logged()
      ensures add && FitAmong(old(slots[..]), start, start + size, ram) ==>
                ok && FlagsOnly(old(slots[..]), slots[..], start, start + size, ram, flags)
    {
      ok := ReplaceRange(start, size, ram, add, flags, broken);
      if ok {
        FlagsDone(old(slots[..]), slots[..], start, start + size, Cut(old(slots[..]), start, start + size, add, broken),
                  add, ram + (Cut(old(slots[..]), start, start + size, add, broken) - start), flags);
      }
    }

    /** What SetRange does, with the flags told slot by slot. */
    method ReplaceRange(start: nat, size: nat, ram: int, add: bool, flags: nat, broken: bool) returns (ok: bool)
      requires Valid() && size > 0
      modifies this, slots
      ensures FreeSlots(old(slots[..])) >= 2 ==> ok
      ensures ok ==> Valid()
      ensures ok ==> var cut := Cut(old(slots[..]), start, start + size, add, broken);
                       start <= cut < start + size &&
                       Overridden(old(slots[..]), slots[..], cut, start + size, add, ram + (cut - start))
      ensures ok ==> FlagsFollow(old(slots[..]), slots[..], start, start + size, flags)
      ensures ok && add ==> FlagsIn(slots[..], start, start + size, flags)
      ensures old(log) <= log && Logged()
      ensures add && FitAmong(old(slots[..]), start, start + size, ram) ==>
                ok && FlagsOnly(old(slots[..]), slots[..], start, start + size, ram, flags)
    {
      hide FitAmong, Progress, Cut, Hva, Count, SizeAt, Disjoint, FreeSlots, Overlapping, Pieces, FlagsIn, OthersSame, FlagsFollow, PartsOf,
           SameOutside, Overridden;
      ProgressStart(slots[..], start, start + size, add, broken, flags);
      var cur, hi, host := start, start + size, ram;
      while true
        invariant Valid() && start <= cur < hi && host == ram + (cur - start) && old(log) <= log
        invariant Progress(old(slots[..]), slots[..], start, cur, hi, add, broken, flags)
        invariant add && FitAmong(old(slots[..]), start, hi, ram) ==> cur == start && slots[..] == old(slots[..])
        decreases Count(slots[..], Overlapping(cur, hi))
      {
        var i := LookupOverlapping(cur, hi);
        ghost var now := slots[..];
        FitFound(now, i, cur, hi, host);
        if i < 0 {
          break;
        }
        OverlapIsCounted(now, i, cur, hi);
        var mem := slots[i];
        if add && cur >= mem.start && hi <= mem.start + mem.size && host - cur == mem.ram - mem.start {
          UpdateFlags(i, flags);
          ProgressFits(old(slots[..]), now, i, start, cur, hi, host, broken, flags);
          return true;
        }
        if broken && mem.start == cur && mem.size < hi - cur && add {
          Keep(i, cur, hi, flags);
          ProgressKeep(old(slots[..]), now, slots[..], i, start, hi, flags);
          cur, host := cur + mem.size, host + mem.size;
        } else {
          ok := Carve(i, cur, hi, flags);
          if !ok {
            ProgressRoom(old(slots[..]), now, i, start, cur, hi, add, broken, flags);
            return;
          }
          ProgressCarve(old(slots[..]), now, slots[..], i, start, cur, hi, add, broken, flags);
        }
      }
      ProgressDone(old(slots[..]), slots[..], start, cur, hi, host, add, broken, flags);
      ok := true;
      if add {
        ok := AddRest(old(slots[..]), start, cur, hi, host, flags);
      }
    }

    /** The final registration: [cur, hi) is free of slots, and what comes before it is done. */
    method AddRest(ghost before: seq<Slot>, ghost start: nat, cur: nat, hi: nat, host: int, flags: nat) returns (ok: bool)
      requires Valid() && start <= cur < hi && SameOutside(before, slots[..], cur, hi) && FlagsIn(slots[..], start, cur, flags)
      requires FlagsFollow(before, slots[..], start, hi, flags)
      requires forall j | 0 <= j < slots.Length :: !Overlaps(slots[j], cur, hi)
      modifies this, slots
      ensures Valid() && old(log) <= log && (ok <==> FreeSlots(old(slots[..])) > 0)
      ensures ok ==> Overridden(before, slots[..], cur, hi, true, host) && FlagsIn(slots[..], start, hi, flags)
      ensures ok ==> FlagsFollow(before, slots[..], start, hi, flags)
    {
      hide Hva, Disjoint, FreeSlots, FlagsIn, OthersSame, SameOutside, Overridden, FlagsFollow;
      var j;
      ghost var now := slots[..];
      ok, j := Register(Slot(cur, hi - cur, host, flags));
      if ok {
        AddedMap(before, now, j, slots[j]);
        FlagsAdded(now, j, slots[j]);
        FollowAdded(before, now, j, slots[j], start, hi, flags);
        FlagsStay(now, slots[..], start, cur, flags);
        FlagsReach(slots[..], j, start, cur, hi, flags);
      }
    }

    /** kvm_set_phys_mem: overrides or erases the map on the whole pages of a section. */
    method SetPhysMem(section: Section, add: bool, readonlyAllowed: bool, broken: bool) returns (ok: bool)
      requires Valid()
      modifies this, slots
      ensures FreeSlots(old(slots[..])) >= 2 ==> ok
      ensures ok ==> Valid()
      ensures var (lo, len) := WholePages(section.start, section.size);
              var adding := EffectiveAdd(section.mr, add);
              var cut := Cut(old(slots[..]), lo, lo + len, adding, broken);
              ok && !Ignored(section.mr, readonlyAllowed) ==>
                Overridden(old(slots[..]), slots[..], cut, lo + len, adding,
                           section.mr.ramPtr + section.regionOffset + (cut - section.start))
      ensures var (lo, len) := WholePages(section.start, section.size);
              ok && !Ignored(section.mr, readonlyAllowed) && EffectiveAdd(section.mr, add) ==>
                FlagsIn(slots[..], lo, lo + len, MemFlags(section.mr, readonlyAllowed))
      ensures var (lo, len) := WholePages(section.start, section.size);
              if Ignored(section.mr, readonlyAllowed) || len == 0 then ok && slots[..] == old(slots[..])
              else ok ==>
                FlagsSet(old(slots[..]), slots[..], lo, lo + len, EffectiveAdd(section.mr, add),
                         MemFlags(section.mr, readonlyAllowed))
      ensures old(log) <= log && Logged()
      ensures var (lo, len) := WholePages(section.start, section.size);
              ok && add && readonlyAllowed && OfAKind(section.mr) && NothingIn(old(slots[..]), lo, lo + len) ==>
                AgreesWithModel(slots[..], lo, lo + len, section.mr)
      ensures var (lo, len) := WholePages(section.start, section.size);
              var mr := section.mr;
              ok && len > 0 && (mr.isRam || (readonlyAllowed && (mr.readonly || mr.romDevice))) ==>
                if add && (mr.isRam || mr.romdMode) then SectionAdded(slots[..], lo, lo + len, mr, readonlyAllowed)
                else NothingIn(slots[..], lo, lo + len)
    {
      hide Hva, FlagsAt, Cut, Chain, FlagsSet, FlagsIn, Overridden, AgreesWithModel, NothingIn, FreeSlots, MemFlags, WholePages;
      var (lo, len) := WholePages(section.start, section.size);
      ghost var before := slots[..];
      if len == 0 || Ignored(section.mr, readonlyAllowed) {
        if readonlyAllowed && OfAKind(section.mr) && NothingIn(before, lo, lo + len) {
          KeptSame(before, lo, lo + len, section.mr);
        }
        if len == 0 {
          EmptyRange(before, lo, EffectiveAdd(section.mr, add), broken,
                     section.mr.ramPtr + section.regionOffset + (lo - section.start), MemFlags(section.mr, readonlyAllowed));
        }
        return true;
      }
      var ram := section.mr.ramPtr + section.regionOffset + (lo - section.start);
      ok := SetRange(lo, len, ram, EffectiveAdd(section.mr, add), MemFlags(section.mr, readonlyAllowed), broken);
      if ok {
        SectionDone(before, slots[..], lo, lo + len, section.mr, add, readonlyAllowed);
      }
      if ok && add && readonlyAllowed && OfAKind(section.mr) && NothingIn(before, lo, lo + len) {
        CutOfNothing(before, lo, lo + len, EffectiveAdd(section.mr, add), broken);
        AddedAgrees(before, slots[..], lo, lo + len, lo, ram, section.mr);
      }
    }
  }

  lemma {:induction false} AllFree(slots: seq<Slot>)
    requires forall i | 0 <= i < |slots| :: IsFree(slots[i])
    ensures FreeSlots(slots) == |slots|
  {
    if slots != [] {
      AllFree(slots[..|slots| - 1]);
    }
  }

  /** A table with one page at host address 0 and two free slots, and a request for two pages at host
      address 65536: with the workaround the call succeeds and the first page stays where it was. */
  method WorkaroundKeepsOldHost() returns (table: SlotTable, ghost before: seq<Slot>, ok: bool)
    ensures ok && table.Valid() && FreeSlots(before) == 2
    ensures Hva(before, 0) == Some(0) && Hva(table.slots[..], 0) == Some(0)
    ensures !Overridden(before, table.slots[..], 0, 2 * PAGE_SIZE, true, 65536)
  {
    table := new SlotTable(3);
    ghost var empty := table.slots[..];
    var s := Slot(0, PAGE_SIZE, 0, 0);
    var i;
    ok, i := table.Register(s);
    before := table.slots[..];
    CountUpdate(empty, i, s, IsFree);
    ok := table.SetRange(0, 2 * PAGE_SIZE, 65536, true, 0, true);
    FirstPageKept(before, table.slots[..], i);
  }

  lemma FirstPageKept(before: seq<Slot>, after: seq<Slot>, i: nat)
    requires Disjoint(before) && i < |before| && before[i] == Slot(0, PAGE_SIZE, 0, 0)
    requires forall j | 0 <= j < |before| && j != i :: before[j].size == 0
    requires var cut := Cut(before, 0, 2 * PAGE_SIZE, true, true); Overridden(before, after, cut, 2 * PAGE_SIZE, true, 65536 + cut)
    ensures Hva(before, 0) == Some(0) && Hva(after, 0) == Some(0)
    ensures !Overridden(before, after, 0, 2 * PAGE_SIZE, true, 65536)
  {
    HvaCovered(before, i, 0);
    SizeAtIs(before, i);
    SizeAtFound(before, PAGE_SIZE);
    assert SizeAt(before, 0) == PAGE_SIZE && SizeAt(before, PAGE_SIZE) == 0;
    assert Chain(before, PAGE_SIZE, 2 * PAGE_SIZE) == PAGE_SIZE;
    assert Hva(after, 0) == Override(before, PAGE_SIZE, 2 * PAGE_SIZE, true, 65536 + PAGE_SIZE, 0);
  }

  /** A table with two pages whose dirty pages are logged, and the removal of the second one by a region
      without logging: the first page, which the call is not about, is no longer logged. */
  method RemovalStopsLogging() returns (table: SlotTable, ghost before: seq<Slot>, ok: bool)
    ensures ok && table.Valid() && FreeSlots(before) == 2
    ensures FlagsAt(before, 0) == Some(1) && FlagsAt(table.slots[..], 0) == Some(0)
  {
    table := new SlotTable(3);
    ghost var empty := table.slots[..];
    var s := Slot(0, 2 * PAGE_SIZE, 0, 1);
    var i;
    ok, i := table.Register(s);
    before := table.slots[..];
    CountUpdate(empty, i, s, IsFree);
    FlagsCovered(before, i, 0);
    ok := table.SetRange(PAGE_SIZE, PAGE_SIZE, 0, false, 0, false);
    assert Covers(before[i], 0) && Overlaps(before[i], PAGE_SIZE, 2 * PAGE_SIZE);
    assert FlagsAt(table.slots[..], 0) == NewFlags(before, PAGE_SIZE, 2 * PAGE_SIZE, false, 0, 0);
  }
}
