/** Dirty bitmaps of a block device: which clusters were written since the last backup, while a
    backup freezes a bitmap and a successor takes over. */
module DirtyBitmap {
  import opened Arithmetic
  import opened Basics
  import opened SeqFacts

  /** `grain` sectors share one bit; `dirty` holds the numbers of the bits that are set. */
  datatype Bitmap = Bitmap(dirty: set<nat>, grain: nat, size: nat, name: Option<string>, successor: Option<nat>, disabled: bool)

  predicate Frozen(b: Bitmap) {
    b.successor.Some?
  }

  predicate Enabled(b: Bitmap) {
    !(b.disabled || b.successor.Some?)
  }

  /** Bit `c` covers a sector of the write. */
  predicate Touched(start: nat, count: nat, grain: nat, c: nat)
    requires grain > 0 && count > 0
  {
    start / grain <= c <= (start + count - 1) / grain
  }

  /** The bits that a write of `count` sectors from `start` on sets. */
  function Clusters(start: nat, count: nat, grain: nat): set<nat>
    requires grain > 0
  {
    if count == 0 then {} else set c: nat | c <= (start + count - 1) / grain && Touched(start, count, grain, c) :: c
  }

  /** Exactly the bits of the written sectors are set: sector `x` belongs to bit `x / grain`. */
  lemma ClustersOfSectors(start: nat, count: nat, grain: nat, c: nat)
    requires grain > 0
    ensures c in Clusters(start, count, grain) <==> exists x :: start <= x < start + count && SectorBit(x, grain) == c
  {
    hide SectorBit;
    if c in Clusters(start, count, grain) {
      var x := SectorOfBit(start, count, grain, c);
    }
    if x: nat :| start <= x < start + count && SectorBit(x, grain) == c {
      BitInRange(start, count, grain, x);
    }
  }

  function SectorBit(x: nat, grain: nat): nat
    requires grain > 0
  {
    x / grain
  }

  lemma SectorOfBit(start: nat, count: nat, grain: nat, c: nat) returns (x: nat)
    requires grain > 0 && c in Clusters(start, count, grain)
    ensures start <= x < start + count && SectorBit(x, grain) == c
  {
    x := start;
    if start / grain != c {
      MultipleBetween(start, start + count - 1, grain, c);
      x := c * grain;
    }
  }

  lemma BitInRange(start: nat, count: nat, grain: nat, x: nat)
    requires grain > 0 && start <= x < start + count
    ensures SectorBit(x, grain) in Clusters(start, count, grain)
  {
    QuotientOrder(start, x, grain);
    QuotientOrder(x, start + count - 1, grain);
    assert Touched(start, count, grain, SectorBit(x, grain));
  }

  /** The bitmaps of one device, newest first, with their identities. */
  datatype Device = Device(list: seq<nat>, table: map<nat, Bitmap>, sectors: nat, nextId: nat)

  /** bdrv_find_dirty_bitmap */
  function Find(d: Device, list: seq<nat>, name: string): Option<nat> {
    if list == [] then None
    else if list[0] in d.table && d.table[list[0]].name == Some(name) then Some(list[0])
    else Find(d, list[1..], name)
  }

  function Insert(d: Device, b: Bitmap): Device {
    d.(list := [d.nextId] + d.list, table := d.table[d.nextId := b], nextId := d.nextId + 1)
  }

  /** bdrv_create_dirty_bitmap; fails when the name is taken. */
  function Create(d: Device, grain: nat, name: Option<string>): Option<Device> {
    if name.Some? && Find(d, d.list, name.value).Some? then None
    else Some(Insert(d, Bitmap({}, grain, d.sectors, name, None, false)))
  }

  /** bdrv_dirty_bitmap_create_successor; fails on a frozen bitmap. */
  function CreateSuccessor(d: Device, b: nat): Option<Device>
    requires b in d.table && d.nextId !in d.table
  {
    var bm := d.table[b];
    if Frozen(bm) then None
    else
      var d1 := Insert(d, Bitmap({}, bm.grain, d.sectors, None, None, bm.disabled));
      Some(d1.(table := d1.table[b := bm.(successor := Some(d.nextId))]))
  }

  /** bdrv_release_dirty_bitmap */
  function Release(d: Device, b: nat): Device {
    if b in d.list then d.(list := Without(d.list, b), table := d.table - {b}) else d
  }

  /** bdrv_dirty_bitmap_abdicate: the successor takes the name, the bitmap goes away. */
  function Abdicate(d: Device, b: nat): Option<Device>
    requires b in d.table
  {
    var bm := d.table[b];
    if bm.successor.None? || bm.successor.value !in d.table then None
    else
      var s := bm.successor.value;
      var t1 := d.table[b := bm.(name := None, successor := None)];
      Some(Release(d.(table := t1[s := t1[s].(name := bm.name)]), b))
  }

  /** hbitmap_merge; not attempted on mismatched bitmaps. */
  function Merge(a: Bitmap, b: Bitmap): Option<Bitmap> {
    if a.size != b.size || a.grain != b.grain then None else Some(a.(dirty := a.dirty + b.dirty))
  }

  /** bdrv_reclaim_dirty_bitmap: parent and successor become one again. */
  function Reclaim(d: Device, b: nat): Option<Device>
    requires b in d.table
  {
    var bm := d.table[b];
    if bm.successor.None? || bm.successor.value !in d.table then None
    else
      var s := bm.successor.value;
      var merged := Merge(bm, d.table[s]);
      if merged.None? then None
      else
        var d1 := Release(d.(table := d.table[b := merged.value]), s);
        if b in d1.table then Some(d1.(table := d1.table[b := merged.value.(successor := None)])) else None
  }

  /** The bitmap after a write, if it is enabled. */
  function Marked(b: Bitmap, start: nat, count: nat): Bitmap {
    if Enabled(b) && b.grain > 0 then b.(dirty := b.dirty + Clusters(start, count, b.grain)) else b
  }

  /** bdrv_set_dirty */
  function SetDirty(d: Device, start: nat, count: nat): Device {
    d.(table := map b | b in d.table :: Marked(d.table[b], start, count))
  }

  /** What happened to the device. */
  datatype Event =
    | Created(name: string, grain: nat)
    | Wrote(start: nat, count: nat)
    | Began(name: string)
    | Succeeded(name: string)
    | Failed(name: string)
    | Removed(name: string)

  /** Where the writes that a bitmap must show begin, and where the running backup began. */
  datatype Marks = Marks(since: nat, began: Option<nat>)

  /** Reads the marks of `name` off the history: since the last successful backup began, or since
      creation. */
  function MarksOf(trace: seq<Event>, name: string): Marks {
    if trace == [] then Marks(0, None)
    else
      var i := |trace| - 1;
      var m := MarksOf(trace[..i], name);
      match trace[i]
      case Created(n, _) => if n == name then Marks(i, None) else m
      case Began(n) => if n == name then m.(began := Some(i)) else m
      case Succeeded(n) => if n == name && m.began.Some? then Marks(m.began.value, None) else m
      case Failed(n) => if n == name then m.(began := None) else m
      case _ => m
  }

  /** All bits of writes at or after position `from` of the history. */
  function WrittenFrom(trace: seq<Event>, from: nat, grain: nat): set<nat>
    requires grain > 0
  {
    if |trace| <= from then {}
    else
      var i := |trace| - 1;
      WrittenFrom(trace[..i], from, grain) + if trace[i].Wrote? then Clusters(trace[i].start, trace[i].count, grain) else {}
  }

  /** A bit is among them exactly if some write at or after that position set it. */
  lemma {:induction false} WrittenMeans(trace: seq<Event>, from: nat, grain: nat, c: nat)
    requires grain > 0
    ensures c in WrittenFrom(trace, from, grain) <==> exists i :: from <= i < |trace| && SetsBit(trace[i], grain, c)
  {
    hide Clusters;
    if |trace| > from {
      var last := |trace| - 1;
      WrittenMeans(trace[..last], from, grain, c);
      if i :| from <= i < last && SetsBit(trace[..last][i], grain, c) {
        assert SetsBit(trace[i], grain, c);
      }
      if i :| from <= i < |trace| && SetsBit(trace[i], grain, c) {
        if i < last {
          assert SetsBit(trace[..last][i], grain, c);
        }
      }
    }
  }

  predicate SetsBit(e: Event, grain: nat, c: nat)
    requires grain > 0
  {
    e.Wrote? && c in Clusters(e.start, e.count, grain)
  }

  /** One step of a device, when the operation succeeds. */
  predicate Step(d: Device, e: Event, d': Device) {
    match e
    case Created(name, grain) => grain > 0 && Create(d, grain, Some(name)) == Some(d')
    case Wrote(start, count) => d' == SetDirty(d, start, count)
    case Began(name) =>
      var b := Find(d, d.list, name);
      b.Some? && b.value in d.table && d.nextId !in d.table && CreateSuccessor(d, b.value) == Some(d')
    case Succeeded(name) =>
      var b := Find(d, d.list, name);
      b.Some? && b.value in d.table && Abdicate(d, b.value) == Some(d')
    case Failed(name) =>
      var b := Find(d, d.list, name);
      b.Some? && b.value in d.table && Reclaim(d, b.value) == Some(d')
    case Removed(name) =>
      var b := Find(d, d.list, name);
      b.Some? && b.value in d.table && !Frozen(d.table[b.value]) && d' == Release(d, b.value)
  }

  // ---------------------------------------------------------------------------------------

  lemma {:induction false} FindIs(d: Device, list: seq<nat>, name: string)
    ensures var r := Find(d, list, name);
      if r.Some? then r.value in list && r.value in d.table && d.table[r.value].name == Some(name)
      else forall x :: x in list && x in d.table ==> d.table[x].name != Some(name)
  {
    if list != [] {
      FindIs(d, list[1..], name);
    }
  }

  /** The list holds exactly the allocated bitmaps, all of the device's current size. */
  ghost predicate Shape(d: Device) {
    && (forall x :: x in d.list <==> x in d.table) && NoDuplicates(d.list)
    && (forall x :: x in d.table ==> x < d.nextId)
    && (forall x :: x in d.table ==> !d.table[x].disabled && d.table[x].grain > 0 && d.table[x].size == d.sectors)
  }

  ghost predicate UniqueNames(d: Device) {
    forall x, y :: x in d.table && y in d.table && x != y && d.table[x].name.Some? ==> d.table[x].name != d.table[y].name
  }

  /** A successor is anonymous, not itself frozen, of the same grain, and has one parent. */
  ghost predicate SuccessorOk(d: Device, x: nat)
    requires x in d.table
  {
    d.table[x].successor.Some? ==>
      var s := d.table[x].successor.value;
      && d.table[x].name.Some? && s in d.table && s != x
      && d.table[s].name.None? && d.table[s].successor.None? && d.table[s].grain == d.table[x].grain
      && forall y :: y in d.table && y != x ==> d.table[y].successor != Some(s)
  }

  ghost predicate SuccessorsOk(d: Device) {
    forall x :: x in d.table ==> SuccessorOk(d, x)
  }

  /** The bits of a bitmap together with its successor's. */
  function Shown(d: Device, x: nat): set<nat>
    requires x in d.table
  {
    d.table[x].dirty + if d.table[x].successor.Some? && d.table[x].successor.value in d.table
                       then d.table[d.table[x].successor.value].dirty else {}
  }

  /** A named bitmap, with its successor if frozen, shows exactly the clusters written since its
      mark; the successor alone those since the running backup began. */
  ghost predicate Tracks(d: Device, trace: seq<Event>, x: nat)
    requires x in d.table && d.table[x].name.Some? && d.table[x].grain > 0
  {
    var m := MarksOf(trace, d.table[x].name.value);
    var g := d.table[x].grain;
    && m.since <= |trace|
    && Shown(d, x) == WrittenFrom(trace, m.since, g)
    && (Frozen(d.table[x]) <==> m.began.Some?)
    && (m.began.Some? ==> m.began.value <= |trace|)
    && (m.began.Some? && d.table[x].successor.value in d.table ==>
          d.table[d.table[x].successor.value].dirty == WrittenFrom(trace, m.began.value, g))
  }

  ghost predicate AllTrack(d: Device, trace: seq<Event>)
    requires forall x :: x in d.table ==> d.table[x].grain > 0
  {
    forall x :: x in d.table && d.table[x].name.Some? ==> Tracks(d, trace, x)
  }

  /** The grain that `name` was last created with, unless it has been removed since. */
  function LiveGrain(trace: seq<Event>, name: string): Option<nat> {
    if trace == [] then None
    else
      var i := |trace| - 1;
      match trace[i]
      case Created(n, grain) => if n == name then Some(grain) else LiveGrain(trace[..i], name)
      case Removed(n) => if n == name then None else LiveGrain(trace[..i], name)
      case _ => LiveGrain(trace[..i], name)
  }

  /** The grain of the bitmap of that name. */
  ghost predicate HasName(d: Device, name: string, grain: nat) {
    exists x :: x in d.table && d.table[x].name == Some(name) && d.table[x].grain == grain
  }

  /** Exactly the names that were created and not removed belong to bitmaps, of the grain they were created
      with: backups lose none. */
  ghost predicate NameLives(d: Device, trace: seq<Event>, name: string) {
    forall grain: nat :: HasName(d, name, grain) <==> LiveGrain(trace, name) == Some(grain)
  }

  ghost predicate NamesLive(d: Device, trace: seq<Event>) {
    forall name: string :: NameLives(d, trace, name)
  }

  ghost predicate Inv(d: Device, trace: seq<Event>) {
    Shape(d) && UniqueNames(d) && SuccessorsOk(d) && AllTrack(d, trace) && NamesLive(d, trace)
  }

  lemma LiveNext(trace: seq<Event>, e: Event, name: string)
    ensures LiveGrain(trace + [e], name) ==
      match e
      case Created(n, grain) => if n == name then Some(grain) else LiveGrain(trace, name)
      case Removed(n) => if n == name then None else LiveGrain(trace, name)
      case _ => LiveGrain(trace, name)
  {
    assert (trace + [e])[..|trace|] == trace;
  }

  /** The bitmap of a name in one table, or what takes its place, is in the other. */
  ghost predicate NamesIn(d: Device, d': Device) {
    forall x :: x in d.table && d.table[x].name.Some? ==> HasName(d', d.table[x].name.value, d.table[x].grain)
  }

  lemma NamesKept(d: Device, d': Device, trace: seq<Event>, e: Event)
    requires NamesLive(d, trace) && NamesIn(d, d') && NamesIn(d', d) && !e.Created? && !e.Removed?
    ensures NamesLive(d', trace + [e])
  {
    hide LiveGrain;
    forall name: string
      ensures NameLives(d', trace + [e], name)
    {
      LiveNext(trace, e, name);
      assert NameLives(d, trace, name);
      forall grain: nat
        ensures HasName(d', name, grain) <==> HasName(d, name, grain)
      {
      }
    }
  }

  lemma CreatedNames(d: Device, trace: seq<Event>, grain: nat, name: string)
    requires Shape(d) && NamesLive(d, trace) && Create(d, grain, Some(name)).Some?
    ensures NamesLive(Create(d, grain, Some(name)).value, trace + [Created(name, grain)])
  {
    hide LiveGrain, NoDuplicates;
    FindIs(d, d.list, name);
    var d', e := Create(d, grain, Some(name)).value, Created(name, grain);
    assert d'.table[d.nextId].name == Some(name) && d'.table[d.nextId].grain == grain;
    forall other: string
      ensures NameLives(d', trace + [e], other)
    {
      LiveNext(trace, e, other);
      assert NameLives(d, trace, other);
      forall g: nat
        ensures HasName(d', other, g) <==> if other == name then g == grain else HasName(d, other, g)
      {
        if HasName(d, other, g) && other != name {
          var x :| x in d.table && d.table[x].name == Some(other) && d.table[x].grain == g;
          assert x in d'.table && d'.table[x] == d.table[x];
        }
        if HasName(d', other, g) {
          var x :| x in d'.table && d'.table[x].name == Some(other) && d'.table[x].grain == g;
          assert x != d.nextId ==> x in d.table && d'.table[x] == d.table[x] && x in d.list;
        }
      }
    }
  }

  lemma RemovedNames(d: Device, trace: seq<Event>, b: nat)
    requires Shape(d) && UniqueNames(d) && NamesLive(d, trace) && b in d.table && d.table[b].name.Some?
    ensures NamesLive(Release(d, b), trace + [Removed(d.table[b].name.value)])
  {
    hide LiveGrain, NoDuplicates, Without;
    var d', name := Release(d, b), d.table[b].name.value;
    var e := Removed(name);
    forall other: string
      ensures NameLives(d', trace + [e], other)
    {
      LiveNext(trace, e, other);
      assert NameLives(d, trace, other);
      forall g: nat
        ensures HasName(d', other, g) <==> other != name && HasName(d, other, g)
      {
        if HasName(d, other, g) && other != name {
          var x :| x in d.table && d.table[x].name == Some(other) && d.table[x].grain == g;
          assert x in d'.table && d'.table[x] == d.table[x];
        }
        if HasName(d', other, g) {
          var x :| x in d'.table && d'.table[x].name == Some(other) && d'.table[x].grain == g;
          assert x in d.table && d'.table[x] == d.table[x] && x != b;
        }
      }
    }
  }

  lemma BeganNames(d: Device, b: nat)
    requires Shape(d) && b in d.table && CreateSuccessor(d, b).Some?
    ensures var d' := CreateSuccessor(d, b).value; NamesIn(d, d') && NamesIn(d', d)
  {
    hide NoDuplicates;
    var d' := CreateSuccessor(d, b).value;
    assert forall x :: x in d.table ==> x in d'.table && d'.table[x].name == d.table[x].name && d'.table[x].grain == d.table[x].grain;
    assert forall x :: x in d'.table && x !in d.table ==> d'.table[x].name.None?;
  }

  /** The name passes to the successor, which has the same grain. */
  lemma SucceededNames(d: Device, b: nat)
    requires Shape(d) && SuccessorsOk(d) && b in d.table && Abdicate(d, b).Some?
    ensures var d' := Abdicate(d, b).value; NamesIn(d, d') && NamesIn(d', d)
  {
    hide NoDuplicates, Without;
    assert SuccessorOk(d, b);
    var d', s := Abdicate(d, b).value, d.table[b].successor.value;
    assert d'.table[s].name == d.table[b].name && d'.table[s].grain == d.table[b].grain;
    assert forall x :: x in d'.table && x != s ==> x in d.table && x != b && d'.table[x] == d.table[x];
    assert forall x :: x in d.table && x != s && x != b ==> x in d'.table && d'.table[x] == d.table[x];
  }

  lemma FailedNames(d: Device, b: nat)
    requires Shape(d) && SuccessorsOk(d) && b in d.table && Reclaim(d, b).Some?
    ensures var d' := Reclaim(d, b).value; NamesIn(d, d') && NamesIn(d', d)
  {
    hide NoDuplicates, Without;
    assert SuccessorOk(d, b);
    var d', s := Reclaim(d, b).value, d.table[b].successor.value;
    assert forall x :: x in d'.table ==> x in d.table && x != s && d'.table[x].name == d.table[x].name && d'.table[x].grain == d.table[x].grain;
    assert forall x :: x in d.table && x != s ==> x in d'.table;
  }

  lemma WroteNames(d: Device, start: nat, count: nat)
    ensures var d' := SetDirty(d, start, count); NamesIn(d, d') && NamesIn(d', d)
  {
    hide Clusters;
    var d' := SetDirty(d, start, count);
    assert forall x :: x in d'.table <==> x in d.table;
    assert forall x :: x in d.table ==> d'.table[x].name == d.table[x].name && d'.table[x].grain == d.table[x].grain;
  }

  lemma HistoryNext(trace: seq<Event>, e: Event, name: string)
    ensures MarksOf(trace + [e], name) ==
      var m := MarksOf(trace, name);
      match e
      case Created(n, _) => if n == name then Marks(|trace|, None) else m
      case Began(n) => if n == name then m.(began := Some(|trace|)) else m
      case Succeeded(n) => if n == name && m.began.Some? then Marks(m.began.value, None) else m
      case Failed(n) => if n == name then m.(began := None) else m
      case _ => m
  {
    assert (trace + [e])[..|trace|] == trace;
  }

  lemma WrittenNext(trace: seq<Event>, e: Event, from: nat, grain: nat)
    requires grain > 0 && from <= |trace|
    ensures WrittenFrom(trace + [e], from, grain) ==
            WrittenFrom(trace, from, grain) + if e.Wrote? then Clusters(e.start, e.count, grain) else {}
    ensures WrittenFrom(trace, |trace|, grain) == {}
  {
    assert (trace + [e])[..|trace|] == trace;
  }

  // ---------------------------------------------------------------------------------------

  lemma CreatedShape(d: Device, grain: nat, name: string)
    requires Shape(d) && UniqueNames(d) && SuccessorsOk(d) && grain > 0 && Create(d, grain, Some(name)).Some?
    ensures var d' := Create(d, grain, Some(name)).value; Shape(d') && UniqueNames(d') && SuccessorsOk(d')
  {
    FindIs(d, d.list, name);
    var d' := Create(d, grain, Some(name)).value;
    assert d'.list[1..] == d.list;
    forall x | x in d'.table
      ensures SuccessorOk(d', x)
    {
      if x != d.nextId {
        assert SuccessorOk(d, x);
      }
    }
  }

  /** Bitmaps that an event does not concern keep tracking. */
  lemma OtherTracks(d: Device, d': Device, trace: seq<Event>, e: Event, x: nat)
    requires Shape(d) && SuccessorsOk(d) && AllTrack(d, trace) && !e.Wrote?
    requires x in d.table && d.table[x].name.Some? && x in d'.table && d'.table[x] == d.table[x]
    requires d.table[x].successor.Some? ==>
               d.table[x].successor.value in d'.table && d'.table[d.table[x].successor.value] == d.table[d.table[x].successor.value]
    requires MarksOf(trace + [e], d.table[x].name.value) == MarksOf(trace, d.table[x].name.value)
    ensures Tracks(d', trace + [e], x)
  {
    assert Tracks(d, trace, x) && SuccessorOk(d, x);
    var m := MarksOf(trace, d.table[x].name.value);
    WrittenNext(trace, e, m.since, d.table[x].grain);
    if m.began.Some? {
      WrittenNext(trace, e, m.began.value, d.table[x].grain);
    }
  }

  lemma CreatedTracks(d: Device, trace: seq<Event>, grain: nat, name: string)
    requires Inv(d, trace) && grain > 0 && Create(d, grain, Some(name)).Some?
    ensures var d' := Create(d, grain, Some(name)).value; Inv(d', trace + [Created(name, grain)])
  {
    CreatedShape(d, grain, name);
    CreatedNames(d, trace, grain, name);
    hide NamesLive;
    FindIs(d, d.list, name);
    var d' := Create(d, grain, Some(name)).value;
    var e := Created(name, grain);
    forall x | x in d'.table && d'.table[x].name.Some?
      ensures Tracks(d', trace + [e], x)
    {
      HistoryNext(trace, e, d'.table[x].name.value);
      if x != d.nextId {
        assert SuccessorOk(d, x);
        OtherTracks(d, d', trace, e, x);
      } else {
        WrittenNext(trace, e, |trace|, grain);
      }
    }
  }

  lemma BeganShape(d: Device, b: nat)
    requires Shape(d) && UniqueNames(d) && SuccessorsOk(d)
    requires b in d.table && d.table[b].name.Some? && CreateSuccessor(d, b).Some?
    ensures var d' := CreateSuccessor(d, b).value; Shape(d') && UniqueNames(d') && SuccessorsOk(d')
  {
    BeganLists(d, b);
    BeganSuccessors(d, b);
  }

  lemma BeganLists(d: Device, b: nat)
    requires Shape(d) && UniqueNames(d) && b in d.table && CreateSuccessor(d, b).Some?
    ensures var d' := CreateSuccessor(d, b).value; Shape(d') && UniqueNames(d')
  {
    var d' := CreateSuccessor(d, b).value;
    assert d'.list[1..] == d.list;
  }

  lemma BeganSuccessors(d: Device, b: nat)
    requires Shape(d) && SuccessorsOk(d)
    requires b in d.table && d.table[b].name.Some? && CreateSuccessor(d, b).Some?
    ensures SuccessorsOk(CreateSuccessor(d, b).value)
  {
    hide NoDuplicates;
    var d' := CreateSuccessor(d, b).value;
    forall x | x in d'.table
      ensures SuccessorOk(d', x)
    {
      if x != d.nextId {
        assert SuccessorOk(d, x);
      }
      assert SuccessorOk(d, b);
    }
  }

  lemma BeganTracks(d: Device, trace: seq<Event>, b: nat)
    requires Inv(d, trace) && b in d.table && d.table[b].name.Some? && CreateSuccessor(d, b).Some?
    ensures var d' := CreateSuccessor(d, b).value; Inv(d', trace + [Began(d.table[b].name.value)])
  {
    hide MarksOf, WrittenFrom, NoDuplicates, NamesLive, NamesIn;
    BeganShape(d, b);
    var d' := CreateSuccessor(d, b).value;
    var e := Began(d.table[b].name.value);
    BeganNames(d, b);
    NamesKept(d, d', trace, e);
    forall x | x in d'.table && d'.table[x].name.Some?
      ensures Tracks(d', trace + [e], x)
    {
      HistoryNext(trace, e, d'.table[x].name.value);
      assert SuccessorOk(d, x);
      if x == b {
        assert Tracks(d, trace, b);
        WrittenNext(trace, e, MarksOf(trace, d.table[b].name.value).since, d.table[b].grain);
        WrittenNext(trace, e, |trace|, d.table[b].grain);
      } else {
        OtherTracks(d, d', trace, e, x);
      }
    }
  }

  lemma SucceededLists(d: Device, b: nat)
    requires Shape(d) && UniqueNames(d) && SuccessorsOk(d)
    requires b in d.table && Abdicate(d, b).Some?
    ensures var d' := Abdicate(d, b).value; Shape(d') && UniqueNames(d')
  {
    hide NoDuplicates, Without;
    assert SuccessorOk(d, b);
    var bm := d.table[b];
    var s := bm.successor.value;
    var t := d.table[b := bm.(name := None, successor := None)];
    TableShape(d, t[s := t[s].(name := bm.name)]);
    HandedOver(d, b, s);
    ReleaseKeeps(d.(table := t[s := t[s].(name := bm.name)]), b);
    hide Shape, UniqueNames;
  }

  lemma HandedOver(d: Device, b: nat, s: nat)
    requires UniqueNames(d) && b in d.table && s in d.table && b != s && d.table[s].name.None?
    ensures var t := d.table[b := d.table[b].(name := None, successor := None)];
      UniqueNames(d.(table := t[s := t[s].(name := d.table[b].name)]))
  {
  }

  /** Bitmaps that keep what the lists rely on may change otherwise. */
  lemma TableShape(d: Device, t: map<nat, Bitmap>)
    requires Shape(d) && t.Keys == d.table.Keys
    requires forall x :: x in t ==> !t[x].disabled && t[x].grain > 0 && t[x].size == d.sectors
    ensures Shape(d.(table := t))
  {
    hide NoDuplicates;
  }

  lemma ReleaseKeeps(d: Device, b: nat)
    requires Shape(d) && UniqueNames(d)
    ensures Shape(Release(d, b)) && UniqueNames(Release(d, b))
  {
    WithoutIs(d.list, b);
    hide NoDuplicates, Without;
  }

  lemma SucceededShape(d: Device, b: nat)
    requires Shape(d) && UniqueNames(d) && SuccessorsOk(d)
    requires b in d.table && Abdicate(d, b).Some?
    ensures var d' := Abdicate(d, b).value; Shape(d') && UniqueNames(d') && SuccessorsOk(d')
  {
    SucceededLists(d, b);
    var d' := Abdicate(d, b).value;
    var s := d.table[b].successor.value;
    assert SuccessorOk(d, b);
    assert d'.table == d.table[s := d.table[s].(name := d.table[b].name)] - {b};
    forall x | x in d'.table
      ensures SuccessorOk(d', x)
    {
      assert SuccessorOk(d, x);
    }
  }

  lemma SucceededTracks(d: Device, trace: seq<Event>, b: nat)
    requires Inv(d, trace) && b in d.table && d.table[b].name.Some? && Abdicate(d, b).Some?
    ensures var d' := Abdicate(d, b).value; Inv(d', trace + [Succeeded(d.table[b].name.value)])
  {
    hide MarksOf, WrittenFrom, NoDuplicates, Without, NamesLive, NamesIn;
    SucceededShape(d, b);
    var d' := Abdicate(d, b).value;
    var s := d.table[b].successor.value;
    var e := Succeeded(d.table[b].name.value);
    SucceededNames(d, b);
    NamesKept(d, d', trace, e);
    assert SuccessorOk(d, b);
    forall x | x in d'.table && d'.table[x].name.Some?
      ensures Tracks(d', trace + [e], x)
    {
      HistoryNext(trace, e, d'.table[x].name.value);
      assert SuccessorOk(d, x);
      if x == s {
        assert Tracks(d, trace, b);
        WrittenNext(trace, e, MarksOf(trace, d.table[b].name.value).began.value, d.table[b].grain);
      } else {
        OtherTracks(d, d', trace, e, x);
      }
    }
  }

  /** The merge of a reclaim never sees bitmaps of different size or grain. */
  lemma MergeMatches(d: Device, b: nat)
    requires Shape(d) && SuccessorsOk(d) && b in d.table && Frozen(d.table[b])
    ensures d.table[b].successor.value in d.table
    ensures Merge(d.table[b], d.table[d.table[b].successor.value]).Some? && Reclaim(d, b).Some?
  {
    assert SuccessorOk(d, b);
  }

  lemma FailedShape(d: Device, b: nat)
    requires Shape(d) && UniqueNames(d) && SuccessorsOk(d)
    requires b in d.table && Reclaim(d, b).Some?
    ensures var d' := Reclaim(d, b).value; Shape(d') && UniqueNames(d') && SuccessorsOk(d')
  {
    FailedLists(d, b);
    FailedSuccessors(d, b);
  }

  lemma FailedLists(d: Device, b: nat)
    requires Shape(d) && UniqueNames(d) && SuccessorsOk(d) && b in d.table && Reclaim(d, b).Some?
    ensures var d' := Reclaim(d, b).value; Shape(d') && UniqueNames(d')
  {
    hide NoDuplicates, Without;
    assert SuccessorOk(d, b);
    var s := d.table[b].successor.value;
    var merged := Merge(d.table[b], d.table[s]).value;
    var d1 := d.(table := d.table[b := merged]);
    TableShape(d, d1.table);
    ReleaseKeeps(d1, s);
    var d2 := Release(d1, s);
    TableShape(d2, d2.table[b := merged.(successor := None)]);
  }

  lemma FailedSuccessors(d: Device, b: nat)
    requires Shape(d) && SuccessorsOk(d) && b in d.table && Reclaim(d, b).Some?
    ensures SuccessorsOk(Reclaim(d, b).value)
  {
    hide NoDuplicates, Without;
    var d' := Reclaim(d, b).value;
    assert SuccessorOk(d, b);
    forall x | x in d'.table
      ensures SuccessorOk(d', x)
    {
      assert SuccessorOk(d, x);
    }
  }

  lemma FailedTracks(d: Device, trace: seq<Event>, b: nat)
    requires Inv(d, trace) && b in d.table && d.table[b].name.Some? && Reclaim(d, b).Some?
    ensures var d' := Reclaim(d, b).value; Inv(d', trace + [Failed(d.table[b].name.value)])
  {
    hide MarksOf, WrittenFrom, NoDuplicates, Without, NamesLive, NamesIn;
    FailedShape(d, b);
    var d' := Reclaim(d, b).value;
    var e := Failed(d.table[b].name.value);
    FailedNames(d, b);
    NamesKept(d, d', trace, e);
    assert SuccessorOk(d, b);
    forall x | x in d'.table && d'.table[x].name.Some?
      ensures Tracks(d', trace + [e], x)
    {
      HistoryNext(trace, e, d'.table[x].name.value);
      assert SuccessorOk(d, x);
      if x == b {
        assert Tracks(d, trace, b);
        WrittenNext(trace, e, MarksOf(trace, d.table[b].name.value).since, d.table[b].grain);
      } else {
        OtherTracks(d, d', trace, e, x);
      }
    }
  }

  lemma RemovedTracks(d: Device, trace: seq<Event>, b: nat)
    requires Inv(d, trace) && b in d.table && d.table[b].name.Some? && !Frozen(d.table[b])
    ensures Inv(Release(d, b), trace + [Removed(d.table[b].name.value)])
  {
    var d' := Release(d, b);
    var e := Removed(d.table[b].name.value);
    RemovedNames(d, trace, b);
    ReleaseKeeps(d, b);
    hide NamesLive, NoDuplicates, Without, MarksOf, WrittenFrom;
    forall x | x in d'.table
      ensures SuccessorOk(d', x)
    {
      assert SuccessorOk(d, x);
    }
    forall x | x in d'.table && d'.table[x].name.Some?
      ensures Tracks(d', trace + [e], x)
    {
      HistoryNext(trace, e, d'.table[x].name.value);
      assert SuccessorOk(d, x);
      OtherTracks(d, d', trace, e, x);
    }
  }

  lemma WroteShape(d: Device, start: nat, count: nat)
    requires Shape(d) && UniqueNames(d) && SuccessorsOk(d)
    ensures var d' := SetDirty(d, start, count); Shape(d') && UniqueNames(d') && SuccessorsOk(d')
  {
    WroteLists(d, start, count);
    WroteSuccessors(d, start, count);
  }

  lemma WroteLists(d: Device, start: nat, count: nat)
    requires Shape(d) && UniqueNames(d)
    ensures var d' := SetDirty(d, start, count); Shape(d') && UniqueNames(d')
  {
    hide Clusters, NoDuplicates;
    assert SetDirty(d, start, count).table.Keys == d.table.Keys;
  }

  lemma WroteSuccessors(d: Device, start: nat, count: nat)
    requires SuccessorsOk(d)
    ensures SuccessorsOk(SetDirty(d, start, count))
  {
    hide Clusters;
    var d' := SetDirty(d, start, count);
    forall x | x in d'.table
      ensures SuccessorOk(d', x)
    {
      assert SuccessorOk(d, x);
    }
  }

  lemma WroteTracks(d: Device, trace: seq<Event>, start: nat, count: nat)
    requires Inv(d, trace)
    ensures Inv(SetDirty(d, start, count), trace + [Wrote(start, count)])
  {
    hide Clusters, WrittenFrom, MarksOf, NamesLive, NamesIn;
    var d' := SetDirty(d, start, count);
    var e := Wrote(start, count);
    WroteNames(d, start, count);
    NamesKept(d, d', trace, e);
    WroteShape(d, start, count);
    forall x | x in d'.table && d'.table[x].name.Some?
      ensures Tracks(d', trace + [e], x)
    {
      HistoryNext(trace, e, d'.table[x].name.value);
      assert SuccessorOk(d, x) && Tracks(d, trace, x);
      var m := MarksOf(trace, d.table[x].name.value);
      WrittenNext(trace, e, m.since, d.table[x].grain);
      if m.began.Some? {
        WrittenNext(trace, e, m.began.value, d.table[x].grain);
      }
    }
  }

  lemma StepInv(d: Device, trace: seq<Event>, e: Event, d': Device)
    requires Inv(d, trace) && Step(d, e, d')
    ensures Inv(d', trace + [e])
  {
    match e
    case Created(name, grain) => CreatedTracks(d, trace, grain, name);
    case Wrote(start, count) => WroteTracks(d, trace, start, count);
    case Began(name) =>
      FindIs(d, d.list, name);
      BeganTracks(d, trace, Find(d, d.list, name).value);
    case Succeeded(name) =>
      FindIs(d, d.list, name);
      SucceededTracks(d, trace, Find(d, d.list, name).value);
    case Failed(name) =>
      FindIs(d, d.list, name);
      FailedTracks(d, trace, Find(d, d.list, name).value);
    case Removed(name) =>
      FindIs(d, d.list, name);
      RemovedTracks(d, trace, Find(d, d.list, name).value);
  }

  predicate Init(d: Device) {
    d.list == [] && d.table == map[]
  }

  predicate IsRun(states: seq<Device>, trace: seq<Event>) {
    && |states| == |trace| + 1 && Init(states[0])
    && forall i | 0 <= i < |trace| :: Step(states[i], trace[i], states[i + 1])
  }

  lemma {:induction false} RunInv(states: seq<Device>, trace: seq<Event>, i: nat)
    requires IsRun(states, trace) && i <= |trace|
    ensures Inv(states[i], trace[..i])
  {
    hide Step;
    if i > 0 {
      RunInv(states, trace, i - 1);
      StepInv(states[i - 1], trace[..i - 1], trace[i - 1], states[i]);
      assert trace[..i - 1] + [trace[i - 1]] == trace[..i];
    } else {
      assert trace[..0] == [];
    }
  }

  /** Over every run of writes and backups: names are unique, and each named bitmap, with its
      successor while a backup runs, shows exactly the clusters written since the last successful
      backup began, or since its creation. */
  lemma BitmapsTrackWrites(states: seq<Device>, trace: seq<Event>, i: nat, x: nat)
    requires IsRun(states, trace) && i <= |trace| && x in states[i].table && states[i].table[x].name.Some?
    ensures UniqueNames(states[i]) && states[i].table[x].grain > 0
    ensures Shown(states[i], x) ==
            WrittenFrom(trace[..i], MarksOf(trace[..i], states[i].table[x].name.value).since, states[i].table[x].grain)
    ensures Frozen(states[i].table[x]) ==> Reclaim(states[i], x).Some?
  {
    RunInv(states, trace, i);
    assert Tracks(states[i], trace[..i], x);
    if Frozen(states[i].table[x]) {
      MergeMatches(states[i], x);
    }
  }

  /** Over every run the names that belong to bitmaps are exactly those created and not removed since: no
      backup, finished or abandoned, loses the bitmap of a name. */
  lemma NamesSurvive(states: seq<Device>, trace: seq<Event>, i: nat, name: string, grain: nat)
    requires IsRun(states, trace) && i <= |trace|
    ensures HasName(states[i], name, grain) <==> LiveGrain(trace[..i], name) == Some(grain)
  {
    RunInv(states, trace, i);
    assert NameLives(states[i], trace[..i], name);
  }

  // ---------------------------------------------------------------------------------------

  /** The device as the block layer keeps it, updated in place, with the history of its operations on named
      bitmaps. */
  class BlockNode {
    var list: seq<nat>
    var table: map<nat, Bitmap>
    const sectors: nat
    var nextId: nat
    ghost var trace: seq<Event>

    /** Named bitmaps track the writes of the history. */
    ghost predicate Valid()
      reads this
    {
      Inv(Dev(), trace)
    }

    constructor (sectors: nat)
      ensures Valid() && trace == [] && Init(Dev()) && this.sectors == sectors
    {
      list, table, this.sectors, nextId, trace := [], map[], sectors, 0, [];
    }

    function Dev(): Device
      reads this
    {
      Device(list, table, sectors, nextId)
    }

    /** A named bitmap, with its successor while a backup runs, shows exactly the clusters written since its
        mark in the history. */
    lemma ShowsWrites(x: nat)
      requires Valid() && x in table && table[x].name.Some?
      ensures UniqueNames(Dev()) && table[x].grain > 0
      ensures Shown(Dev(), x) == WrittenFrom(trace, MarksOf(trace, table[x].name.value).since, table[x].grain)
    {
      assert Tracks(Dev(), trace, x);
    }

    /** A name is found exactly if it was created and not removed since, and then with the grain it was
        created with. */
    lemma KnowsName(name: string)
      requires Valid()
      ensures var b := Find(Dev(), list, name);
        if b.Some? then b.value in table && LiveGrain(trace, name) == Some(table[b.value].grain) else LiveGrain(trace, name).None?
    {
      hide LiveGrain, NoDuplicates, AllTrack;
      FindIs(Dev(), list, name);
      assert NameLives(Dev(), trace, name);
      var b := Find(Dev(), list, name);
      if b.Some? {
        assert HasName(Dev(), name, table[b.value].grain);
      }
    }

    method FindBitmap(name: string) returns (r: Option<nat>)
      ensures r == Find(Dev(), list, name)
    {
      for i := 0 to |list|
        invariant Find(Dev(), list[i..], name) == Find(Dev(), list, name)
      {
        assert list[i..][0] == list[i] && list[i..][1..] == list[i + 1..];
        if list[i] in table && table[list[i]].name == Some(name) {
          return Some(list[i]);
        }
      }
      r := None;
    }

    method AddBitmap(b: Bitmap) returns (id: nat)
      modifies this`list, this`table, this`nextId
      ensures id == old(nextId) && Dev() == Insert(old(Dev()), b)
    {
      id := nextId;
      list, table, nextId := [id] + list, table[id := b], nextId + 1;
    }

    method CreateBitmap(grain: nat, name: string) returns (ok: bool)
      requires Valid() && grain > 0
      modifies this
      ensures ok <==> LiveGrain(old(trace), name).None?
      ensures ok <==> Create(old(Dev()), grain, Some(name)).Some?
      ensures Dev() == if ok then Create(old(Dev()), grain, Some(name)).value else old(Dev())
      ensures Valid() && trace == if ok then old(trace) + [Created(name, grain)] else old(trace)
    {
      hide Inv;
      KnowsName(name);
      var taken := FindBitmap(name);
      if taken.Some? {
        return false;
      }
      CreatedTracks(Dev(), trace, grain, name);
      var id := AddBitmap(Bitmap({}, grain, sectors, Some(name), None, false));
      trace := trace + [Created(name, grain)];
      ok := true;
    }

    /** Freezes a bitmap. Backups are of named bitmaps; history and invariant are about those. */
    method BeginBackup(b: nat) returns (ok: bool)
      requires Valid() && b in table
      modifies this
      ensures ok <==> old(table)[b].successor.None?
      ensures old(nextId) !in old(table) && (ok <==> CreateSuccessor(old(Dev()), b).Some?)
      ensures Dev() == if ok then CreateSuccessor(old(Dev()), b).value else old(Dev())
      ensures old(table)[b].name.Some? ==>
        Valid() && trace == if ok then old(trace) + [Began(old(table)[b].name.value)] else old(trace)
    {
      var bm := table[b];
      if bm.successor.Some? {
        return false;
      }
      if bm.name.Some? {
        BeganTracks(Dev(), trace, b);
      }
      hide Inv;
      var child := AddBitmap(Bitmap({}, bm.grain, sectors, None, None, bm.disabled));
      table := table[b := bm.(successor := Some(child))];
      if bm.name.Some? {
        trace := trace + [Began(bm.name.value)];
      }
      ok := true;
    }

    /** Walks the list to the bitmap and takes it out. */
    method ReleaseBitmap(b: nat)
      modifies this`list, this`table
      ensures Dev() == Release(old(Dev()), b)
    {
      for i := 0 to |list|
        invariant list == old(list) && table == old(table)
        invariant b !in list[..i]
      {
        if list[i] == b {
          WithoutFirst(list, i, b);
          list := list[..i] + list[i + 1..];
          table := table - {b};
          return;
        }
      }
    }

    method FinishBackup(b: nat) returns (ok: bool)
      requires Valid() && b in table
      modifies this
      ensures ok <==> old(table)[b].successor.Some?
      ensures ok <==> Abdicate(old(Dev()), b).Some?
      ensures Dev() == if ok then Abdicate(old(Dev()), b).value else old(Dev())
      ensures ok ==> old(table)[b].name.Some?
      ensures Valid() && trace == if ok then old(trace) + [Succeeded(old(table)[b].name.value)] else old(trace)
    {
      assert SuccessorOk(Dev(), b);
      hide Inv;
      var bm := table[b];
      if bm.successor.None? {
        return false;
      }
      var s := bm.successor.value;
      SucceededTracks(Dev(), trace, b);
      table := table[b := bm.(name := None, successor := None)];
      table := table[s := table[s].(name := bm.name)];
      ReleaseBitmap(b);
      trace := trace + [Succeeded(bm.name.value)];
      ok := true;
    }

    method AbandonBackup(b: nat) returns (ok: bool)
      requires Valid() && b in table
      modifies this
      ensures ok <==> old(table)[b].successor.Some?
      ensures ok <==> Reclaim(old(Dev()), b).Some?
      ensures Dev() == if ok then Reclaim(old(Dev()), b).value else old(Dev())
      ensures ok ==> old(table)[b].name.Some?
      ensures Valid() && trace == if ok then old(trace) + [Failed(old(table)[b].name.value)] else old(trace)
    {
      assert SuccessorOk(Dev(), b);
      var bm := table[b];
      if bm.successor.None? {
        return false;
      }
      var s := bm.successor.value;
      MergeMatches(Dev(), b);
      FailedTracks(Dev(), trace, b);
      hide Inv;
      var merged := Merge(bm, table[s]).value;
      table := table[b := merged];
      ReleaseBitmap(s);
      table := table[b := merged.(successor := None)];
      trace := trace + [Failed(bm.name.value)];
      ok := true;
    }

    /** block-dirty-bitmap-remove: fails on an unknown name and on a frozen bitmap. */
    method RemoveBitmap(name: string) returns (ok: bool)
      requires Valid()
      modifies this
      ensures ok <==> exists b :: b in old(table) && old(table)[b].name == Some(name) && !Frozen(old(table)[b])
      ensures ok ==> Find(old(Dev()), old(list), name).Some?
      ensures Dev() == if ok then Release(old(Dev()), Find(old(Dev()), old(list), name).value) else old(Dev())
      ensures Valid() && trace == if ok then old(trace) + [Removed(name)] else old(trace)
    {
      var b := FindBitmap(name);
      FindIs(Dev(), list, name);
      NamedInList(Dev(), trace, name);
      if b.None? || Frozen(table[b.value]) {
        return false;
      }
      RemovedTracks(Dev(), trace, b.value);
      RenamedRelease(Dev(), b.value);
      hide Inv;
      table := table[b.value := table[b.value].(name := None)];
      ReleaseBitmap(b.value);
      trace := trace + [Removed(name)];
      ok := true;
    }

    /** bdrv_set_dirty */
    method MarkDirty(start: nat, count: nat)
      requires Valid()
      modifies this`table, this`trace
      ensures Dev() == SetDirty(old(Dev()), start, count)
      ensures Valid() && trace == old(trace) + [Wrote(start, count)]
    {
      assert Shape(Dev());
      hide Inv, Shape, SetDirty;
      WroteTracks(Dev(), trace, start, count);
      MarkEnabled(start, count);
      trace := trace + [Wrote(start, count)];
    }

    /** Marks every enabled bitmap of the list. */
    method MarkEnabled(start: nat, count: nat)
      requires Shape(Dev())
      modifies this`table
      ensures Dev() == SetDirty(old(Dev()), start, count)
    {
      for i := 0 to |list|
        invariant table.Keys == old(table).Keys
        invariant forall b :: b in table ==> table[b] == if b in list[..i] then Marked(old(table)[b], start, count) else old(table)[b]
      {
        var b := list[i];
        UniqueAt(list, i);
        if Enabled(table[b]) {
          table := table[b := table[b].(dirty := table[b].dirty + Clusters(start, count, table[b].grain))];
        }
        assert list[..i + 1] == list[..i] + [b];
      }
      assert list[..|list|] == list;
    }
  }

  /** In a list of uniquely named bitmaps the bitmap found is the one of the name. */
  lemma NamedInList(d: Device, trace: seq<Event>, name: string)
    requires Inv(d, trace)
    ensures forall b :: b in d.table && d.table[b].name == Some(name) ==> Find(d, d.list, name) == Some(b)
  {
    FindIs(d, d.list, name);
  }

  /** A bitmap may lose its name before it is released. */
  lemma RenamedRelease(d: Device, b: nat)
    requires b in d.table
    ensures Release(d.(table := d.table[b := d.table[b].(name := None)]), b) == if b in d.list then Release(d, b) else
              d.(table := d.table[b := d.table[b].(name := None)])
  {
    assert d.table[b := d.table[b].(name := None)] - {b} == d.table - {b};
  }

  lemma {:induction false} UniqueAt(list: seq<nat>, i: nat)
    requires NoDuplicates(list) && i < |list|
    ensures list[i] !in list[..i]
  {
    if i > 0 {
      UniqueAt(list[1..], i - 1);
      assert list[1..][..i - 1] == list[..i][1..];
    }
  }
}
