/** A dump file in flattened form: records of bytes with the file offset they belong to, the later
    record winning; and the write-behind cache in front of it. */
module FlatFile {
  import opened Basics
  import opened GuestMemory

  datatype Record = Record(offset: nat, data: seq<Byte>)

  /** The byte at a file position, if any record wrote it. */
  function ByteAt(records: seq<Record>, pos: nat): Option<Byte> {
    if records == [] then None
    else
      var r := records[|records| - 1];
      if r.offset <= pos < r.offset + |r.data| then Some(r.data[pos - r.offset])
      else ByteAt(records[..|records| - 1], pos)
  }

  /** The file holds `data` at `offset`. */
  ghost predicate HoldsAt(records: seq<Record>, offset: nat, data: seq<Byte>) {
    forall j | 0 <= j < |data| :: ByteAt(records, offset + j) == Some(data[j])
  }

  /** The `n` bytes at a file position, if all of them were written. */
  function BytesAt(records: seq<Record>, pos: nat, n: nat): (data: Option<seq<Byte>>)
    ensures data.Some? ==> |data.value| == n
    decreases n
  {
    if n == 0 then Some([])
    else
      var first, rest := ByteAt(records, pos), BytesAt(records, pos + 1, n - 1);
      if first.Some? && rest.Some? then Some([first.value] + rest.value) else None
  }

  lemma {:induction false} HeldBytes(records: seq<Record>, pos: nat, data: seq<Byte>)
    requires HoldsAt(records, pos, data)
    ensures BytesAt(records, pos, |data|) == Some(data)
    decreases |data|
  {
    hide ByteAt;
    if data != [] {
      assert ByteAt(records, pos + 0) == Some(data[0]);
      forall j | 0 <= j < |data| - 1
        ensures ByteAt(records, pos + 1 + j) == Some(data[1..][j])
      {
        assert ByteAt(records, pos + (j + 1)) == Some(data[j + 1]);
      }
      HeldBytes(records, pos + 1, data[1..]);
      assert [data[0]] + data[1..] == data;
    }
  }

  /** Two ranges of file positions do not meet. */
  predicate Apart(a: nat, n: nat, b: nat, m: nat) {
    n == 0 || m == 0 || a + n <= b || b + m <= a
  }

  lemma ByteAtAppend(records: seq<Record>, r: Record, pos: nat)
    ensures ByteAt(records + [r], pos) ==
            if r.offset <= pos < r.offset + |r.data| then Some(r.data[pos - r.offset]) else ByteAt(records, pos)
  {
    assert (records + [r])[..|records|] == records;
  }

  /** A record elsewhere does not disturb what the file holds. */
  lemma HoldsElsewhere(records: seq<Record>, r: Record, offset: nat, data: seq<Byte>)
    requires HoldsAt(records, offset, data) && Apart(offset, |data|, r.offset, |r.data|)
    ensures HoldsAt(records + [r], offset, data)
  {
    forall j | 0 <= j < |data|
      ensures ByteAt(records + [r], offset + j) == Some(data[j])
    {
      ByteAtAppend(records, r, offset + j);
    }
  }

  /** A record right behind what the file holds extends it. */
  lemma HoldsExtended(records: seq<Record>, offset: nat, done: seq<Byte>, more: seq<Byte>)
    requires HoldsAt(records, offset, done)
    ensures HoldsAt(records + [Record(offset + |done|, more)], offset, done + more)
  {
    var r := Record(offset + |done|, more);
    forall j | 0 <= j < |done + more|
      ensures ByteAt(records + [r], offset + j) == Some((done + more)[j])
    {
      ByteAtAppend(records, r, offset + j);
    }
  }

  lemma HoldsRecord(records: seq<Record>, r: Record)
    ensures HoldsAt(records + [r], r.offset, r.data)
  {
    forall j | 0 <= j < |r.data|
      ensures ByteAt(records + [r], r.offset + j) == Some(r.data[j])
    {
      ByteAtAppend(records, r, r.offset + j);
    }
  }

  /** Part of what the file holds. */
  lemma HoldsPart(records: seq<Record>, offset: nat, data: seq<Byte>, from: nat, to: nat)
    requires HoldsAt(records, offset, data) && from <= to <= |data|
    ensures HoldsAt(records, offset + from, data[from..to])
  {
    forall j | 0 <= j < to - from
      ensures ByteAt(records, offset + from + j) == Some(data[from..to][j])
    {
      assert ByteAt(records, offset + (from + j)) == Some(data[from + j]);
    }
  }

  /** `after` adds to `before` only records that start at `from` or later. */
  ghost predicate Appended(before: seq<Record>, after: seq<Record>, from: nat) {
    && |before| <= |after| && after[..|before|] == before
    && forall i | |before| <= i < |after| :: after[i].offset >= from
  }

  lemma AppendedTwice(before: seq<Record>, now: seq<Record>, after: seq<Record>, from: nat)
    requires Appended(before, now, from) && Appended(now, after, from)
    ensures Appended(before, after, from)
  {
    assert after[..|before|] == after[..|now|][..|before|];
    forall i | |before| <= i < |after|
      ensures after[i].offset >= from
    {
      if i < |now| {
        assert after[i] == after[..|now|][i];
      }
    }
  }

  /** What the file held below `from` it still holds. */
  lemma {:induction false} AppendedKeeps(before: seq<Record>, after: seq<Record>, from: nat, pos: nat)
    requires Appended(before, after, from) && pos < from
    ensures ByteAt(after, pos) == ByteAt(before, pos)
    decreases |after|
  {
    if |before| < |after| {
      var n := |after| - 1;
      AppendedKeeps(before, after[..n], from, pos);
    } else {
      assert after == before;
    }
  }

  class DumpFile {
    var records: seq<Record>

    constructor ()
      ensures records == []
    {
      records := [];
    }

    /** write_buffer */
    method WriteBuffer(offset: nat, data: seq<Byte>)
      modifies this
      ensures records == old(records) + [Record(offset, data)]
    {
      records := records + [Record(offset, data)];
    }
  }

  const CACHE_SIZE := 16384

  /** Of the bytes `stream` handed to a cache whose area starts at `base`, all but `pending` have
      reached the file. */
  ghost predicate CacheOk(records: seq<Record>, base: nat, stream: seq<Byte>, offset: nat, pending: seq<Byte>) {
    && |pending| <= |stream| && offset + |pending| == base + |stream|
    && stream[|stream| - |pending|..] == pending
    && HoldsAt(records, base, stream[..|stream| - |pending|])
    && |pending| <= CACHE_SIZE
  }

  lemma CacheFlushed(records: seq<Record>, base: nat, stream: seq<Byte>, offset: nat, pending: seq<Byte>)
    requires CacheOk(records, base, stream, offset, pending)
    ensures CacheOk(records + [Record(offset, pending)], base, stream, offset + |pending|, [])
  {
    var done := stream[..|stream| - |pending|];
    HoldsExtended(records, base, done, pending);
    assert done + pending == stream == stream[..|stream|];
  }

  lemma CacheExtended(records: seq<Record>, base: nat, stream: seq<Byte>, offset: nat, pending: seq<Byte>, data: seq<Byte>)
    requires CacheOk(records, base, stream, offset, pending) && |pending| + |data| <= CACHE_SIZE
    ensures CacheOk(records, base, stream + data, offset, pending + data)
  {
    assert (stream + data)[..|stream| - |pending|] == stream[..|stream| - |pending|];
  }

  lemma CacheUndisturbed(records: seq<Record>, r: Record, base: nat, stream: seq<Byte>, offset: nat, pending: seq<Byte>)
    requires CacheOk(records, base, stream, offset, pending) && Apart(base, |stream|, r.offset, |r.data|)
    ensures CacheOk(records + [r], base, stream, offset, pending)
  {
    HoldsElsewhere(records, r, base, stream[..|stream| - |pending|]);
  }

  class DataCache {
    const file: DumpFile
    var offset: nat
    var pending: seq<Byte>

    constructor (file: DumpFile, offset: nat)
      ensures this.file == file && this.offset == offset && pending == []
    {
      this.file, this.offset, pending := file, offset, [];
    }

    /** The cache has been handed `stream`, all of it destined for `base` onwards. */
    ghost predicate Carries(base: nat, stream: seq<Byte>)
      reads this, file
    {
      CacheOk(file.records, base, stream, offset, pending)
    }

    /** write_cache with flag_sync false. */
    method Write(data: seq<Byte>, ghost base: nat, ghost stream: seq<Byte>)
      requires Carries(base, stream) && |data| <= CACHE_SIZE
      modifies this, file
      ensures Carries(base, stream + data)
      ensures file.records == old(file.records) ||
              (file.records == old(file.records) + [Record(old(offset), old(pending))]
               && base <= old(offset) && old(offset) + |old(pending)| == base + |stream|)
    {
      if |pending| + |data| > CACHE_SIZE {
        CacheFlushed(file.records, base, stream, offset, pending);
        file.WriteBuffer(offset, pending);
        offset := offset + |pending|;
        pending := [];
      }
      CacheExtended(file.records, base, stream, offset, pending, data);
      pending := pending + data;
    }

    /** write_cache with flag_sync true: afterwards the file holds everything. */
    method Sync(ghost base: nat, ghost stream: seq<Byte>)
      requires Carries(base, stream)
      modifies this, file
      ensures Carries(base, stream) && HoldsAt(file.records, base, stream)
      ensures file.records == old(file.records) ||
              (file.records == old(file.records) + [Record(old(offset), old(pending))]
               && base <= old(offset) && old(offset) + |old(pending)| == base + |stream|)
    {
      if |pending| > 0 {
        CacheFlushed(file.records, base, stream, offset, pending);
        file.WriteBuffer(offset, pending);
        offset := offset + |pending|;
        pending := [];
      }
      assert stream[..|stream| - |pending|] == stream;
    }
  }
}
