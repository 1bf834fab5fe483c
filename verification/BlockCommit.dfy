/** Committing a copy-on-write image into its backing image. What the guest reads through the top
    image must never change, whatever fails on the way. */
module BlockCommit {

  /** Contents of one sector; 0 stands for all zeros. */
  type Sector = int

  const ZERO: Sector := 0
  const COMMIT_BUF_SECTORS := 2048

  /** What the guest reads: allocated sectors from the top image, the rest from the backing image,
      zeros beyond its end. */
  function Visible(top: map<nat, Sector>, length: nat, backing: seq<Sector>): (v: seq<Sector>)
    ensures |v| == length
  {
    seq(length, s requires 0 <= s => if s in top then top[s] else if s < |backing| then backing[s] else ZERO)
  }

  function Zeros(n: nat): (z: seq<Sector>)
    ensures |z| == n
  {
    seq(n, _ => ZERO)
  }

  /** Growing the backing image with zeros is invisible. */
  lemma GrowInvisible(top: map<nat, Sector>, length: nat, backing: seq<Sector>, n: nat)
    ensures Visible(top, length, backing + Zeros(n)) == Visible(top, length, backing)
  {
  }

  /** Writing the backing image below allocated sectors is invisible, whatever is written. */
  lemma WriteInvisible(top: map<nat, Sector>, length: nat, backing: seq<Sector>, backing': seq<Sector>, from: nat, to: nat)
    requires |backing'| == |backing|
    requires forall s | 0 <= s < |backing| && !(from <= s < to) :: backing'[s] == backing[s]
    requires forall s | from <= s < to :: s in top
    ensures Visible(top, length, backing') == Visible(top, length, backing)
  {
  }

  /** Dropping any sectors of the top image is invisible once the backing image has them all. */
  lemma DropInvisible(top: map<nat, Sector>, top': map<nat, Sector>, length: nat, backing: seq<Sector>)
    requires |backing| >= length && backing[..length] == Visible(top, length, backing)
    requires forall s :: s in top' ==> s in top && top'[s] == top[s]
    ensures Visible(top', length, backing) == Visible(top, length, backing)
  {
    forall s | 0 <= s < length
      ensures Visible(top', length, backing)[s] == Visible(top, length, backing)[s]
    {
      assert backing[..length][s] == backing[s];
    }
  }

  datatype Outcome = Committed | NoMedium | NotSupported | Busy | AccessDenied | IoError

  class ImagePair {
    /** Allocated sectors of the top image, and its length. */
    var top: map<nat, Sector>
    const length: nat
    var backing: seq<Sector>
    var backingReadOnly: bool
    /** Whether any operation of the block layer has failed. */
    ghost var failed: bool
    /** What the guest could read after each operation on either image. */
    ghost var seen: seq<seq<Sector>>

    constructor (top: map<nat, Sector>, length: nat, backing: seq<Sector>, readOnly: bool)
      ensures this.top == top && this.length == length && this.backing == backing
      ensures backingReadOnly == readOnly && seen == [] && !failed
    {
      this.top, this.length, this.backing, backingReadOnly, seen := top, length, backing, readOnly, [];
      failed := false;
    }

    function Guest(): seq<Sector>
      reads this
    {
      Visible(top, length, backing)
    }

    /** Since observation number `from` the guest has always read `v`. */
    ghost predicate AlwaysSaw(v: seq<Sector>, from: nat)
      reads this
    {
      from <= |seen| && forall i | from <= i < |seen| :: seen[i] == v
    }

    // The operations of the block layer, with the ways in which they may fail.

    /** An operation of which only success or failure is modelled. */
    method Attempt() returns (ok: bool)
      modifies this`failed
      ensures failed == (old(failed) || !ok)
    {
      ok := *;
      failed := failed || !ok;
    }

    /** bdrv_is_allocated: the status of a run of up to `max` sectors. */
    method IsAllocated(sector: nat, max: nat) returns (ok: bool, inTop: bool, n: nat)
      requires sector < length && max > 0
      modifies this`failed
      ensures failed == (old(failed) || !ok)
      ensures ok ==> 1 <= n <= max && sector + n <= length
      ensures ok ==> forall s | sector <= s < sector + n :: s in top <==> inTop
    {
      ok := Attempt();
      inTop, n := sector in top, 1;
      var goOn: bool := *;
      while goOn && n < max && sector + n < length && ((sector + n in top) == inTop)
        invariant 1 <= n <= max && sector + n <= length
        invariant forall s | sector <= s < sector + n :: s in top <==> inTop
        decreases max - n
      {
        n := n + 1;
        goOn := *;
      }
    }

    /** bdrv_read of the top image. */
    method Read(sector: nat, n: nat) returns (ok: bool, buf: seq<Sector>)
      requires sector + n <= length
      modifies this`failed
      ensures failed == (old(failed) || !ok)
      ensures ok ==> buf == Guest()[sector..sector + n]
    {
      ok := Attempt();
      buf := if ok then Guest()[sector..sector + n] else [];
    }

    /** bdrv_write of the backing image: a failed write may leave anything in its range. */
    method WriteBacking(sector: nat, buf: seq<Sector>) returns (ok: bool)
      requires sector + |buf| <= |backing| && !backingReadOnly
      modifies this`backing, this`seen, this`failed
      ensures failed == (old(failed) || !ok)
      ensures |backing| == |old(backing)|
      ensures forall s | 0 <= s < |backing| && !(sector <= s < sector + |buf|) :: backing[s] == old(backing)[s]
      ensures ok ==> backing[sector..sector + |buf|] == buf
      ensures seen == old(seen) + [Guest()]
    {
      ok := Attempt();
      var written := buf;
      if !ok {
        var k :| 0 <= k <= |buf|;
        var junk: Sector := *;
        written := buf[..k] + seq(|buf| - k, _ => junk);
      }
      backing := backing[..sector] + written + backing[sector + |buf|..];
      seen := seen + [Guest()];
    }

    /** bdrv_truncate of the backing image to a larger size; what is added reads as zeros. */
    method GrowBacking(size: nat) returns (ok: bool)
      requires size > |backing| && !backingReadOnly
      modifies this`backing, this`seen, this`failed
      ensures failed == (old(failed) || !ok)
      ensures exists k: nat :: k <= size - |old(backing)| && backing == old(backing) + Zeros(k)
      ensures ok ==> |backing| == size
      ensures seen == old(seen) + [Guest()]
    {
      ok := Attempt();
      var k: nat := size - |backing|;
      if !ok {
        k :| 0 <= k <= size - |backing|;
      }
      backing := backing + Zeros(k);
      seen := seen + [Guest()];
    }

    /** bdrv_make_empty of the top image: a failure may leave some sectors allocated. */
    method MakeEmpty() returns (ok: bool)
      modifies this`top, this`seen, this`failed
      ensures failed == (old(failed) || !ok)
      ensures forall s :: s in top ==> s in old(top) && top[s] == old(top)[s]
      ensures ok ==> top == map[]
      ensures seen == old(seen) + [Guest()]
    {
      ok := Attempt();
      if ok {
        top := map[];
      } else {
        var limit: nat := *;
        top := map s | s in top && s < limit :: top[s];
      }
      seen := seen + [Guest()];
    }

    /** bdrv_commit: with a medium, a backing image and nobody in the way it commits unless something fails. */
    method Commit(hasMedium: bool, hasBacking: bool, blocked: bool, canMakeEmpty: bool) returns (r: Outcome)
      modifies this
      ensures Guest() == old(Guest()) && AlwaysSaw(old(Guest()), |old(seen)|)
      ensures r == Committed ==> |backing| >= length && backing[..length] == old(Guest())
      ensures r == Committed ==> top == if canMakeEmpty then map[] else old(top)
      ensures r != Committed && (!hasMedium || !hasBacking || blocked) ==> backing == old(backing) && top == old(top)
      ensures !old(backingReadOnly) ==> !backingReadOnly
      ensures r == Committed ==> hasMedium && hasBacking && !blocked
      ensures hasMedium && hasBacking && !blocked && !failed ==> r == Committed
      ensures old(failed) ==> failed
      ensures !failed ==> backingReadOnly == old(backingReadOnly)
    {
      if !hasMedium {
        return NoMedium;
      }
      if !hasBacking {
        return NotSupported;
      }
      if blocked {
        return Busy;
      }
      var ro := backingReadOnly;
      if ro {
        var reopened := Attempt();
        if !reopened {
          return AccessDenied;
        }
        backingReadOnly := false;
      }
      r := CommitSectors(canMakeEmpty);
      if ro {
        // The outcome stands even if this fails.
        backingReadOnly := Attempt();
      }
    }

    /** The part of bdrv_commit between the reopens. */
    method CommitSectors(canMakeEmpty: bool) returns (r: Outcome)
      requires !backingReadOnly
      modifies this`top, this`backing, this`seen, this`failed
      ensures Guest() == old(Guest()) && AlwaysSaw(old(Guest()), |old(seen)|)
      ensures r == Committed ==> |backing| >= length && backing[..length] == old(Guest())
      ensures r == Committed && canMakeEmpty ==> top == map[]
      ensures r == Committed && !canMakeEmpty ==> top == old(top)
      ensures r == Committed || r == IoError
      ensures (old(failed) ==> failed) && (!failed ==> r == Committed)
    {
      var lengthsKnown := Attempt();
      if !lengthsKnown {
        return IoError;
      }
      if length > |backing| {
        var ok := Lengthen();
        if !ok {
          return IoError;
        }
      }
      var haveBuffer := Attempt();
      if !haveBuffer {
        return IoError;
      }
      var sector: nat := 0;
      while sector < length
        invariant sector <= length <= |backing| && top == old(top)
        invariant Guest() == old(Guest()) && AlwaysSaw(old(Guest()), |old(seen)|)
        invariant backing[..sector] == old(Guest())[..sector]
        invariant old(failed) ==> failed
      {
        var ok, inTop, n := IsAllocated(sector, COMMIT_BUF_SECTORS);
        if !ok {
          return IoError;
        }
        if inTop {
          ok := CopyRun(sector, n);
          if !ok {
            return IoError;
          }
        }
        RunCommitted(old(Guest()), top, length, backing, sector, n, inTop);
        sector := sector + n;
      }
      if canMakeEmpty {
        assert backing[..length] == Guest();
        var ok := EmptyTop();
        if !ok {
          return IoError;
        }
      }
      r := Committed;
    }

    /** Makes the backing image as long as the top image. */
    method Lengthen() returns (ok: bool)
      requires length > |backing| && !backingReadOnly
      modifies this`backing, this`seen, this`failed
      ensures failed == (old(failed) || !ok) && (ok ==> |backing| == length)
      ensures Guest() == old(Guest()) && AlwaysSaw(old(Guest()), |old(seen)|)
    {
      var before := backing;
      ok := GrowBacking(length);
      ghost var k: nat :| backing == before + Zeros(k);
      GrowInvisible(top, length, before, k);
    }

    /** Empties the top image once the backing image has its contents. */
    method EmptyTop() returns (ok: bool)
      requires length <= |backing| && backing[..length] == Guest()
      modifies this`top, this`seen, this`failed
      ensures failed == (old(failed) || !ok) && (ok ==> top == map[])
      ensures Guest() == old(Guest()) && old(seen) <= seen && AlwaysSaw(old(Guest()), |old(seen)|)
    {
      ghost var before := top;
      ok := MakeEmpty();
      DropInvisible(before, top, length, backing);
    }

    /** Copies one allocated run into the backing image. */
    method CopyRun(sector: nat, n: nat) returns (ok: bool)
      requires !backingReadOnly && sector + n <= length <= |backing| && forall s | sector <= s < sector + n :: s in top
      modifies this`backing, this`seen, this`failed
      ensures failed == (old(failed) || !ok)
      ensures |backing| == |old(backing)| && Guest() == old(Guest())
      ensures old(seen) <= seen && AlwaysSaw(old(Guest()), |old(seen)|)
      ensures forall s | 0 <= s < |backing| && !(sector <= s < sector + n) :: backing[s] == old(backing)[s]
      ensures ok ==> backing[sector..sector + n] == old(Guest())[sector..sector + n]
    {
      var buf;
      ok, buf := Read(sector, n);
      if !ok {
        return;
      }
      ok := WriteBacking(sector, buf);
      WriteInvisible(top, length, old(backing), backing, sector, sector + n);
    }
  }

  /** After a run has been looked at, the backing image has the guest's contents one run further. */
  lemma RunCommitted(guest: seq<Sector>, top: map<nat, Sector>, length: nat, backing: seq<Sector>, sector: nat, n: nat, inTop: bool)
    requires guest == Visible(top, length, backing) && sector + n <= length <= |backing|
    requires backing[..sector] == guest[..sector]
    requires forall s | sector <= s < sector + n :: s in top <==> inTop
    requires inTop ==> backing[sector..sector + n] == guest[sector..sector + n]
    ensures backing[..sector + n] == guest[..sector + n]
  {
    forall s | 0 <= s < sector + n
      ensures backing[s] == guest[s]
    {
      if s < sector {
        assert backing[..sector][s] == guest[..sector][s];
      } else if inTop {
        assert backing[sector..sector + n][s - sector] == guest[sector..sector + n][s - sector];
      }
    }
  }
}
