/** Reading a file of a pool (src/pool.rs): extraction record by record, positioned reads, and the small-file reader,
    against one definition of the file's contents. */
module PoolReads {
  import opened Bytes
  import opened Sparse
  import opened BlockPointers
  import opened PoolWalk

  // ---------- The contents ----------

  /** A file as its records: the record size, the last block id and each record's data, None when unreadable. */
  datatype Source = Source(blockSize: nat, maxBlockId: U64, records: nat -> Option<seq<Byte>>)

  function SourceOf(pool: Pool, d: Dnode): Source { Source(d.blockSize, d.maxBlockId, (id: nat) => ReadData(pool, d, id)) }

  /** The byte at an offset: its record's byte, or zero past a short record. */
  function ByteAt(f: Source, p: nat): Byte
    requires f.blockSize > 0
  {
    var data := f.records(RecordOf(f, p));
    if data.None? then 0 else At(data.value, p - RecordOf(f, p) * f.blockSize)
  }

  function RecordOf(f: Source, p: nat): (id: nat)
    requires f.blockSize > 0
    ensures id * f.blockSize <= p < (id + 1) * f.blockSize
  {
    BlockIndex(p, f.blockSize)
  }

  lemma SameRecord(f: Source, id: nat, p: nat)
    requires f.blockSize > 0 && id * f.blockSize <= p < (id + 1) * f.blockSize
    ensures RecordOf(f, p) == id
  {
    SameBlock(p, f.blockSize, id);
  }

  /** The contents from one offset to another. */
  function Contents(f: Source, from: nat, to: nat): (s: seq<Byte>)
    requires f.blockSize > 0 && from <= to
    ensures |s| == to - from
  {
    seq<Byte>(to - from, i requires 0 <= i => ByteAt(f, from + i))
  }

  lemma ContentsSplit(f: Source, from: nat, mid: nat, to: nat)
    requires f.blockSize > 0 && from <= mid <= to
    ensures Contents(f, from, to) == Contents(f, from, mid) + Contents(f, mid, to)
  {
    hide ByteAt;
  }

  /** The first bytes of a record, zero-extended, are the contents at its offset. */
  lemma RecordContents(f: Source, id: nat, from: nat, to: nat, data: seq<Byte>)
    requires f.blockSize > 0 && id * f.blockSize <= from <= to <= (id + 1) * f.blockSize
    requires f.records(id) == Some(data)
    ensures Contents(f, from, to) == Window(data, from - id * f.blockSize, to - from)
  {
    forall p: nat | from <= p < to
      ensures ByteAt(f, p) == At(data, p - id * f.blockSize)
    {
      SameRecord(f, id, p);
    }
  }

  /** Every record a byte of [from, to) lies in can be read. */
  predicate Readable(f: Source, from: nat, to: nat)
    requires f.blockSize > 0
  {
    forall p: nat :: from <= p < to ==> f.records(RecordOf(f, p)).Some?
  }

  /** A record at a time: the id-th record of a file of `size` bytes. */
  lemma BlockInFile(f: Source, size: nat, id: nat)
    requires f.blockSize > 0 && size > 0 && id <= RecordOf(f, size - 1)
    ensures id * f.blockSize < size && (id + 1) * f.blockSize == id * f.blockSize + f.blockSize
    ensures id == RecordOf(f, size - 1) ==> size <= (id + 1) * f.blockSize
    ensures id < RecordOf(f, size - 1) ==> (id + 1) * f.blockSize <= size
  {
    MulMonotone(id, RecordOf(f, size - 1), f.blockSize);
    if id < RecordOf(f, size - 1) {
      MulMonotone(id + 1, RecordOf(f, size - 1), f.blockSize);
    }
  }

  lemma NothingYet(f: Source)
    requires f.blockSize > 0
    ensures Readable(f, 0, 0) && Contents(f, 0, 0) == []
  {
  }

  lemma ReadableStep(f: Source, id: nat, from: nat, to: nat)
    requires f.blockSize > 0 && id * f.blockSize <= from && to <= (id + 1) * f.blockSize
    requires Readable(f, 0, from) && f.records(id).Some?
    ensures Readable(f, 0, to)
  {
    forall p: nat | from <= p < to
      ensures RecordOf(f, p) == id
    {
      SameRecord(f, id, p);
    }
  }

  lemma Unreadable(f: Source, id: nat, size: nat)
    requires f.blockSize > 0 && id * f.blockSize < size && f.records(id).None?
    ensures !Readable(f, 0, size)
  {
    SameRecord(f, id, id * f.blockSize);
  }

  /** One record on the file side: the record's bytes, zero-extended, follow the file so far. */
  lemma RecordWritten(was: seq<Byte>, offset: nat, block: seq<Byte>, count: nat)
    requires |was| <= offset && offset + count <= U64_MAX
    ensures var present := block[..Min(|block|, count)];
            var now := Extent(was, offset, present);
            now.0 && |now.1| <= offset + count
            && Resized(now.1, offset + count) == Resized(was, offset) + Window(block, 0, count)
  {
    hide Extent;
    var present := block[..Min(|block|, count)];
    ExtentSucceeds(was, offset, present);
    ExtentBytes(was, offset, present);
    var now := Extent(was, offset, present).1;
    forall i: nat | i < offset + count
      ensures At(now, i) == (Resized(was, offset) + Window(block, 0, count))[i]
    {
    }
    assert Resized(now, offset + count) == Resized(was, offset) + Window(block, 0, count);
  }

  // ---------- Extraction ----------

  /** `write_file` into a fresh file and the `set_len` that follows it: the file and the bytes hashed. It succeeds
      exactly when the object has all the blocks the size needs and each of them can be read, and then both are the
      contents. */
  method Extract(pool: Pool, d: Dnode, size: U64) returns (ok: bool, file: SparseFile, hashed: seq<Byte>)
    ensures fresh(file)
    ensures d.blockSize > 0 || size == 0
            ==> (ok <==> size == 0 || (RecordOf(SourceOf(pool, d), size - 1) <= d.maxBlockId && Readable(SourceOf(pool, d), 0, size)))
    ensures ok && size == 0 ==> file.data == [] && hashed == []
    ensures ok && size > 0 ==> d.blockSize > 0 && file.data == Contents(SourceOf(pool, d), 0, size) == hashed
  {
    hide ReadData;
    hide ByteAt;
    hide Contents;
    hide Readable;
    hide RecordOf;
    file := new SparseFile();
    hashed := [];
    if size == 0 {
      return true, file, hashed;
    }
    if d.blockSize == 0 {
      return false, file, hashed;
    }
    var blocks := RecordOf(SourceOf(pool, d), size - 1) + 1;
    if blocks - 1 > d.maxBlockId {
      return false, file, hashed;
    }
    var remaining: nat, id: nat, offset: nat := size, 0, 0;
    NothingYet(SourceOf(pool, d));
    while id < blocks
      invariant offset == Min(id * d.blockSize, size) && remaining == size - offset && id <= blocks
      invariant Readable(SourceOf(pool, d), 0, offset)
      invariant |file.data| <= offset && Resized(file.data, offset) == Contents(SourceOf(pool, d), 0, offset) == hashed
      decreases blocks - id
    {
      BlockInFile(SourceOf(pool, d), size, id);
      var block := ReadDnodeData(pool, d, id);
      if block.None? {
        Unreadable(SourceOf(pool, d), id, size);
        return false, file, hashed;
      }
      var count := Min(remaining, d.blockSize);
      ReadableStep(SourceOf(pool, d), id, offset, offset + count);
      RecordContents(SourceOf(pool, d), id, offset, offset + count, block.value);
      ContentsSplit(SourceOf(pool, d), 0, offset, offset + count);
      hashed := WriteFileRecord(file, hashed, offset, block.value, count);
      offset, remaining, id := offset + count, remaining - count, id + 1;
    }
    file.SetLen(size);
    return true, file, hashed;
  }

  /** `write_file_record`, with the bytes it adds to the hash. */
  method WriteFileRecord(file: SparseFile, hashed: seq<Byte>, offset: nat, block: seq<Byte>, count: nat) returns (after: seq<Byte>)
    requires |file.data| <= offset && offset + count <= U64_MAX
    modifies file
    ensures |file.data| <= offset + count
    ensures Resized(file.data, offset + count) == Resized(old(file.data), offset) + Window(block, 0, count)
    ensures after == hashed + Window(block, 0, count)
  {
    hide Extent;
    RecordWritten(file.data, offset, block, count);
    var present := Min(|block|, count);
    var bytes := block[..present];
    var ok := file.WriteExtent(offset, bytes);
    after := hashed + bytes;
    var zeros := count - present;
    while zeros != 0
      invariant 0 <= zeros <= count - present
      invariant after == hashed + bytes + Zeros(count - present - zeros)
    {
      var chunk := Min(zeros, ZERO_BUFFER);
      after := after + Zeros(chunk);
      zeros := zeros - chunk;
    }
    assert bytes + Zeros(count - present) == Window(block, 0, count);
  }

  // ---------- Positioned reads ----------

  /** Whether a positioned read needs no unreadable record; records past the last block read as zero. */
  predicate Served(f: Source, from: nat, to: nat)
    requires f.blockSize > 0
  {
    forall p: nat :: from <= p < to ==> RecordOf(f, p) > f.maxBlockId || f.records(RecordOf(f, p)).Some?
  }

  lemma PastTheEnd(f: Source, id: nat, from: nat, to: nat)
    requires f.blockSize > 0 && f.records(id).None? && id * f.blockSize <= from <= to <= (id + 1) * f.blockSize
    ensures Contents(f, from, to) == Window([], 0, to - from)
  {
    forall p: nat | from <= p < to
      ensures ByteAt(f, p) == 0
    {
      SameRecord(f, id, p);
    }
  }

  lemma PastLastBlock(pool: Pool, d: Dnode, id: nat)
    requires id > d.maxBlockId
    ensures ReadData(pool, d, id).None?
  {
  }

  /** `PoolImageFile::read_exact_at`: the buffer receives the slice of the contents, exactly when the read lies in the
      file and every stored record it meets can be read. */
  method ReadExactAt(pool: Pool, d: Dnode, size: U64, offset: U64, buffer: array<Byte>) returns (ok: bool)
    modifies buffer
    ensures offset + buffer.Length > size || d.blockSize == 0 ==> !ok
    ensures offset + buffer.Length <= size && d.blockSize > 0 ==> (ok <==> Served(SourceOf(pool, d), offset, offset + buffer.Length))
    ensures ok ==> buffer[..] == Contents(SourceOf(pool, d), offset, offset + buffer.Length)
  {
    hide ReadData;
    hide ByteAt;
    if offset + buffer.Length > size || d.blockSize == 0 {
      return false;
    }
    var position: nat, filled: nat := offset, 0;
    while filled < buffer.Length
      invariant position == offset + filled && filled <= buffer.Length
      invariant Served(SourceOf(pool, d), offset, position)
      invariant buffer[..filled] == Contents(SourceOf(pool, d), offset, position)
    {
      var id := RecordOf(SourceOf(pool, d), position);
      var within := position - id * d.blockSize;
      assert (id + 1) * d.blockSize == id * d.blockSize + d.blockSize;
      var wanted := Min(buffer.Length - filled, d.blockSize - within);
      var block: seq<Byte> := [];
      if id <= d.maxBlockId {
        var data := ReadDnodeData(pool, d, id);
        if data.None? {
          assert !Served(SourceOf(pool, d), offset, offset + buffer.Length);
          return false;
        }
        block := data.value;
        RecordContents(SourceOf(pool, d), id, position, position + wanted, block);
      } else {
        PastLastBlock(pool, d, id);
        PastTheEnd(SourceOf(pool, d), id, position, position + wanted);
        assert Window(block, within, wanted) == Window([], 0, wanted);
      }
      ServedStep(SourceOf(pool, d), id, offset, position, position + wanted);
      ContentsSplit(SourceOf(pool, d), offset, position, position + wanted);
      FillFrom(buffer, filled, block, within, wanted);
      position, filled := position + wanted, filled + wanted;
    }
    assert buffer[..] == buffer[..filled];
    return true;
  }

  lemma ServedStep(f: Source, id: nat, from: nat, mid: nat, to: nat)
    requires f.blockSize > 0 && Served(f, from, mid) && id * f.blockSize <= mid && to <= (id + 1) * f.blockSize
    requires id > f.maxBlockId || f.records(id).Some?
    ensures Served(f, from, to)
  {
    forall p: nat | mid <= p < to
      ensures RecordOf(f, p) == id
    {
      SameRecord(f, id, p);
    }
  }

  /** What a reader sees of a block: its own bytes, then zeros. */
  lemma WindowParts(block: seq<Byte>, within: nat, wanted: nat, present: nat)
    requires present == Min(Max(|block| - within, 0), wanted)
    ensures var text: seq<Byte> := if present == 0 then [] else block[within..within + present];
            text + Zeros(wanted - present) == Window(block, within, wanted)
  {
    var text: seq<Byte> := if present == 0 then [] else block[within..within + present];
    forall k | 0 <= k < wanted
      ensures (text + Zeros(wanted - present))[k] == Window(block, within, wanted)[k]
    {
      assert Window(block, within, wanted)[k] == At(block, within + k);
    }
  }

  /** The bytes that are present, then zeros. */
  method FillFrom(buffer: array<Byte>, at: nat, block: seq<Byte>, within: nat, wanted: nat)
    requires at + wanted <= buffer.Length
    modifies buffer
    ensures buffer[..at + wanted] == old(buffer[..at]) + Window(block, within, wanted)
    ensures buffer[at + wanted..] == old(buffer[at + wanted..])
  {
    var present := Min(Max(|block| - within, 0), wanted);
    var text: seq<Byte> := if present == 0 then [] else block[within..within + present];
    WindowParts(block, within, wanted, present);
    hide Window;
    hide Patched;
    PatchedTwice(buffer[..], at, text, Zeros(wanted - present));
    PatchedParts(buffer[..], at, Window(block, within, wanted));
    assert buffer[..at] == buffer[..][..at] && buffer[at + wanted..] == buffer[..][at + wanted..];
    CopyInto(buffer, at, text);
    CopyInto(buffer, at + present, Zeros(wanted - present));
    assert buffer[..at + wanted] == buffer[..][..at + wanted] && buffer[at + wanted..] == buffer[..][at + wanted..];
  }

  /** Every positioned read of a file that can be extracted succeeds and gives the slice of the extracted file. */
  lemma ExtractedIsServed(f: Source, size: nat, from: nat, to: nat)
    requires f.blockSize > 0 && from <= to <= size && Readable(f, 0, size)
    ensures Served(f, from, to)
    ensures Contents(f, from, to) == Contents(f, 0, size)[from..to]
  {
    hide ByteAt;
  }

  // ---------- The small-file reader ----------

  /** `read_small_file_with_key` from a number of bytes already filled. */
  function SmallFrom(f: Source, size: nat, filled: nat): Option<seq<Byte>>
    requires f.blockSize > 0
    decreases size - filled
  {
    if filled >= size then Some([])
    else
      var data := f.records(RecordOf(f, filled));
      if data.None? then None
      else
        var count := Min(Min(size - filled, f.blockSize), |data.value|);
        if count == 0 then None
        else
          var later := SmallFrom(f, size, filled + count);
          if later.None? then None else Some(data.value[..count] + later.value)
  }

  method ReadSmallFile(pool: Pool, d: Dnode, size: U64) returns (output: Option<seq<Byte>>)
    ensures size == 0 ==> output == Some([])
    ensures size > 0 && d.blockSize == 0 ==> output == None
    ensures d.blockSize > 0 ==> output == SmallFrom(SourceOf(pool, d), size, 0)
  {
    hide ReadData;
    if size == 0 {
      return Some([]);
    }
    if d.blockSize == 0 {
      return None;
    }
    var filled: nat, bytes := 0, [];
    StartsSmall(SmallFrom(SourceOf(pool, d), size, 0));
    while filled < size
      invariant filled <= size
      invariant SmallFrom(SourceOf(pool, d), size, 0) == Behind(bytes, SmallFrom(SourceOf(pool, d), size, filled))
    {
      var data := ReadDnodeData(pool, d, RecordOf(SourceOf(pool, d), filled));
      if data.None? {
        return None;
      }
      var count := Min(Min(size - filled, d.blockSize), |data.value|);
      if count == 0 {
        return None;
      }
      BehindTwice(bytes, data.value[..count], SmallFrom(SourceOf(pool, d), size, filled + count));
      bytes, filled := bytes + data.value[..count], filled + count;
    }
    assert bytes + [] == bytes;
    return Some(bytes);
  }

  function Behind(front: seq<Byte>, later: Option<seq<Byte>>): Option<seq<Byte>> {
    if later.None? then None else Some(front + later.value)
  }

  lemma StartsSmall(later: Option<seq<Byte>>)
    ensures Behind([], later) == later
  {
    if later.Some? {
      assert [] + later.value == later.value;
    }
  }

  lemma BehindTwice(a: seq<Byte>, b: seq<Byte>, later: Option<seq<Byte>>)
    ensures Behind(a, Behind(b, later)) == Behind(a + b, later)
  {
    if later.Some? {
      assert a + (b + later.value) == a + b + later.value;
    }
  }

  /** The part of a record that a file of a given size uses. */
  function Used(f: Source, size: nat, id: nat): nat { Max(0, Min(f.blockSize, size - id * f.blockSize)) }

  /** No record of the file is stored with fewer bytes than the file uses of it. */
  ghost predicate NoShortRecord(f: Source, size: nat, from: nat) {
    forall id: nat :: from <= id && id * f.blockSize < size ==>
      f.records(id).Some? && |f.records(id).value| >= Used(f, size, id)
  }

  /** Without a short record the small-file reader returns the contents. */
  lemma {:induction false} SmallIsContents(f: Source, size: nat, id: nat)
    requires f.blockSize > 0 && NoShortRecord(f, size, id) && id * f.blockSize <= size
    ensures SmallFrom(f, size, id * f.blockSize) == Some(Contents(f, id * f.blockSize, size))
    decreases size - id * f.blockSize
  {
    var filled := id * f.blockSize;
    if filled < size {
      assert (id + 1) * f.blockSize == filled + f.blockSize;
      SameRecord(f, id, filled);
      var data := f.records(id).value;
      var count := Used(f, size, id);
      RecordContents(f, id, filled, filled + count, data);
      assert Window(data, 0, count) == data[..count];
      ContentsSplit(f, filled, filled + count, size);
      if count == f.blockSize {
        SmallIsContents(f, size, id + 1);
      } else {
        assert Contents(f, size, size) == [];
      }
    }
  }

  /** The same record lengths with every byte set to one. */
  function Ones(f: Source): Source {
    f.(records := (id: nat) => if f.records(id).None? then None else Some(seq(|f.records(id).value|, _ => 1)))
  }

  /** Two files whose records are stored with the same lengths. */
  ghost predicate SameLengths(f: Source, g: Source) {
    && f.blockSize == g.blockSize
    && forall id: nat :: f.records(id).Some? == g.records(id).Some?
                         && (f.records(id).Some? ==> |f.records(id).value| == |g.records(id).value|)
  }

  /** A short record of ones is followed by ones where the contents have zeros, or it stops the reader. */
  lemma {:induction false} ShortDiffers(f: Source, size: nat, id: nat, short: nat)
    requires f.blockSize > 0 && id <= short && short * f.blockSize < size
    requires forall k: nat :: k * f.blockSize < size ==> f.records(k).Some?
    requires |f.records(short).value| < Used(f, size, short)
    ensures id * f.blockSize < size
    ensures SmallFrom(Ones(f), size, id * f.blockSize) != Some(Contents(Ones(f), id * f.blockSize, size))
    decreases short - id
  {
    var g := Ones(f);
    var filled := id * f.blockSize;
    MulMonotone(id, short, f.blockSize);
    assert (id + 1) * f.blockSize == filled + f.blockSize;
    SameRecord(g, id, filled);
    assert f.records(id).Some?;
    var data := g.records(id).value;
    var used := Used(f, size, id);
    if |data| < used {
      ShortRecordDiffers(g, size, id);
    } else {
      MulMonotone(id + 1, short, f.blockSize);
      ShortDiffers(f, size, id + 1, short);
      assert used == f.blockSize;
      RecordContents(g, id, filled, filled + used, data);
      assert Window(data, 0, used) == data[..used];
      ContentsSplit(g, filled, filled + used, size);
      SameTail(data[..used], SmallFrom(g, size, filled + used), Contents(g, filled + used, size));
    }
  }

  lemma SameTail(front: seq<Byte>, later: Option<seq<Byte>>, rest: seq<Byte>)
    requires later != Some(rest)
    ensures Behind(front, later) != Some(front + rest)
  {
    if later.Some? {
      assert (front + later.value)[|front|..] == later.value && (front + rest)[|front|..] == rest;
    }
  }

  /** What the reader appends in one round, and the record it takes it from. */
  lemma SmallStep(f: Source, size: nat, id: nat, filled: nat, data: seq<Byte>)
    requires f.blockSize > 0 && filled < size && RecordOf(f, filled) == id && f.records(id) == Some(data)
    ensures var count := Min(Min(size - filled, f.blockSize), |data|);
            SmallFrom(f, size, filled) ==
              if count == 0 then None else Behind(data[..count], SmallFrom(f, size, filled + count))
  {
    hide RecordOf;
  }

  lemma ShortRecordDiffers(g: Source, size: nat, id: nat)
    requires g.blockSize > 0 && id * g.blockSize < size && g.records(id).Some? && |g.records(id).value| < Used(g, size, id)
    requires forall i :: 0 <= i < |g.records(id).value| ==> g.records(id).value[i] == 1
    ensures SmallFrom(g, size, id * g.blockSize) != Some(Contents(g, id * g.blockSize, size))
  {
    hide SmallFrom;
    hide ByteAt;
    hide RecordOf;
    var filled, n := id * g.blockSize, |g.records(id).value|;
    assert (id + 1) * g.blockSize == filled + g.blockSize;
    SameRecord(g, id, filled);
    SameRecord(g, id, filled + n);
    ZeroBehind(g, id, filled + n);
    ShortAt(g, size, id, filled, g.records(id).value);
  }

  /** The reader takes the record's start again for the byte behind its end. */
  lemma ShortAt(g: Source, size: nat, id: nat, filled: nat, data: seq<Byte>)
    requires g.blockSize > 0 && g.records(id) == Some(data) && |data| < g.blockSize && filled + |data| < size
    requires RecordOf(g, filled) == id && RecordOf(g, filled + |data|) == id && ByteAt(g, filled + |data|) == 0
    requires forall i :: 0 <= i < |data| ==> data[i] == 1
    ensures SmallFrom(g, size, filled) != Some(Contents(g, filled, size))
  {
    hide SmallFrom;
    hide ByteAt;
    hide RecordOf;
    SmallStep(g, size, id, filled, data);
    if data != [] {
      SmallStep(g, size, id, filled + |data|, data);
      assert Contents(g, filled, size)[|data|] == 0;
    }
  }

  lemma ZeroBehind(g: Source, id: nat, p: nat)
    requires g.blockSize > 0 && RecordOf(g, p) == id && g.records(id).Some? && |g.records(id).value| <= p - id * g.blockSize
    ensures ByteAt(g, p) == 0
  {
  }

  /** The small-file reader agrees with extraction on all contents of the given record lengths exactly when no record
      is short. */
  lemma SmallAgreesIff(f: Source, size: nat)
    requires f.blockSize > 0 && forall k: nat :: k * f.blockSize < size ==> f.records(k).Some?
    ensures (forall g: Source :: SameLengths(f, g) ==> SmallFrom(g, size, 0) == Some(Contents(g, 0, size)))
       <==> NoShortRecord(f, size, 0)
  {
    assert 0 * f.blockSize == 0;
    if NoShortRecord(f, size, 0) {
      forall g: Source | SameLengths(f, g)
        ensures SmallFrom(g, size, 0) == Some(Contents(g, 0, size))
      {
        SameShort(f, g, size);
        SmallIsContents(g, size, 0);
      }
    } else {
      var short: nat :| short * f.blockSize < size && |f.records(short).value| < Used(f, size, short);
      ShortDiffers(f, size, 0, short);
      assert SameLengths(f, Ones(f));
    }
  }

  lemma SameShort(f: Source, g: Source, size: nat)
    requires f.blockSize > 0 && SameLengths(f, g) && NoShortRecord(f, size, 0)
    ensures NoShortRecord(g, size, 0)
  {
    forall id: nat | id * g.blockSize < size
      ensures g.records(id).Some? && |g.records(id).value| >= Used(g, size, id)
    {
      assert f.records(id).Some?;
    }
  }
}
