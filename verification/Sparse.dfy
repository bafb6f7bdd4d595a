/** In-place file writes that leave holes (src/sparse.rs). */
module Sparse {
  import opened Bytes

  const CHUNK_SIZE: nat := 0x10_0000

  const ZERO_BUFFER: nat := 0x1_0000

  // ---------- Specification: what each operation leaves in the file ----------

  /** Overwrite at a position; a gap past the old end fills with zeros. */
  function Written(data: seq<Byte>, position: nat, bytes: seq<Byte>): seq<Byte> {
    if bytes == [] then data
    else
      var grown := if |data| < position then Resized(data, position) else data;
      grown[..position] + bytes + grown[Min(position + |bytes|, |grown|)..]
  }

  function Zeroed(data: seq<Byte>, offset: nat, length: nat): seq<Byte> {
    if offset >= |data| || length == 0 then data
    else if length == U64_MAX then data[..offset]
    else
      var n := Min(length, |data| - offset);
      data[..offset] + Zeros(n) + data[offset + n..]
  }

  /** The file after `write_extent`, and whether it returned Ok. */
  function Extent(data: seq<Byte>, offset: nat, bytes: seq<Byte>): (bool, seq<Byte>)
    decreases |bytes|
  {
    if bytes == [] then (true, data)
    else
      var n := Min(CHUNK_SIZE, |bytes|);
      var next := ExtentChunk(data, offset, bytes[..n]);
      if offset + n > U64_MAX then (false, next) else Extent(next, offset + n, bytes[n..])
  }

  function ExtentChunk(data: seq<Byte>, offset: nat, chunk: seq<Byte>): seq<Byte> {
    if AllZero(chunk) then Zeroed(data, offset, |chunk|) else Written(data, offset, chunk)
  }

  /** Whether offset i lies in [offset, offset + length), where length u64::MAX means "to the end". */
  predicate InRange(i: nat, offset: nat, length: nat) {
    offset <= i && (length == U64_MAX || i < offset + length)
  }

  /** Bytes at offsets, without those of a range. */
  function Outside(bytes: map<nat, Byte>, offset: nat, length: nat): map<nat, Byte> {
    map i | i in bytes && !InRange(i, offset, length) :: bytes[i]
  }

  // ---------- What those operations mean byte by byte ----------

  lemma ZeroedBytes(data: seq<Byte>, offset: nat, length: nat)
    ensures forall i: nat :: At(Zeroed(data, offset, length), i) == if InRange(i, offset, length) then 0 else At(data, i)
    ensures |Zeroed(data, offset, length)| == if length == U64_MAX && offset < |data| then offset else |data|
  {
  }

  lemma WrittenBytes(data: seq<Byte>, position: nat, bytes: seq<Byte>)
    ensures forall i: nat :: At(Written(data, position, bytes), i)
                          == if position <= i < position + |bytes| then bytes[i - position] else At(data, i)
    ensures |Written(data, position, bytes)| == if bytes == [] then |data| else Max(|data|, position + |bytes|)
  {
  }

  lemma ExtentChunkByte(data: seq<Byte>, offset: nat, chunk: seq<Byte>, i: nat)
    requires |chunk| <= CHUNK_SIZE
    ensures At(ExtentChunk(data, offset, chunk), i)
         == if offset <= i < offset + |chunk| then chunk[i - offset] else At(data, i)
    ensures |data| <= |ExtentChunk(data, offset, chunk)| <= Max(|data|, offset + |chunk|)
  {
    if AllZero(chunk) {
      ZeroedBytes(data, offset, |chunk|);
    } else {
      WrittenBytes(data, offset, chunk);
    }
  }

  lemma {:induction false} ExtentByte(data: seq<Byte>, offset: nat, bytes: seq<Byte>, i: nat)
    requires Extent(data, offset, bytes).0
    ensures At(Extent(data, offset, bytes).1, i)
         == if offset <= i < offset + |bytes| then bytes[i - offset] else At(data, i)
    ensures |data| <= |Extent(data, offset, bytes).1| <= Max(|data|, offset + |bytes|)
    decreases |bytes|
  {
    hide ExtentChunk;
    hide Extent;
    if bytes == [] {
      ExtentNothing(data, offset);
    } else {
      var n := Min(CHUNK_SIZE, |bytes|);
      ExtentUnfolds(data, offset, bytes, n);
      var next := ExtentChunk(data, offset, bytes[..n]);
      ExtentChunkByte(data, offset, bytes[..n], i);
      ExtentByte(next, offset + n, bytes[n..], i);
      if offset <= i < offset + |bytes| {
        assert bytes[i - offset] == if i < offset + n then bytes[..n][i - offset] else bytes[n..][i - (offset + n)];
      }
    }
  }

  lemma ExtentNothing(data: seq<Byte>, offset: nat)
    ensures Extent(data, offset, []) == (true, data)
  {
  }

  lemma ExtentUnfolds(data: seq<Byte>, offset: nat, bytes: seq<Byte>, n: nat)
    requires bytes != [] && n == Min(CHUNK_SIZE, |bytes|) && Extent(data, offset, bytes).0
    ensures Extent(data, offset, bytes) == Extent(ExtentChunk(data, offset, bytes[..n]), offset + n, bytes[n..])
  {
    hide ExtentChunk;
  }

  /** Writing an extent replaces exactly its own bytes, whatever mixture of holes and stores its chunks took. */
  lemma ExtentBytes(data: seq<Byte>, offset: nat, bytes: seq<Byte>)
    requires Extent(data, offset, bytes).0
    ensures forall i: nat :: At(Extent(data, offset, bytes).1, i)
                          == if offset <= i < offset + |bytes| then bytes[i - offset] else At(data, i)
    ensures |data| <= |Extent(data, offset, bytes).1| <= Max(|data|, offset + |bytes|)
  {
    forall i: nat
      ensures At(Extent(data, offset, bytes).1, i)
           == if offset <= i < offset + |bytes| then bytes[i - offset] else At(data, i)
    {
      ExtentByte(data, offset, bytes, i);
    }
    ExtentByte(data, offset, bytes, 0);
  }

  lemma {:induction false} ExtentSucceeds(data: seq<Byte>, offset: nat, bytes: seq<Byte>)
    ensures Extent(data, offset, bytes).0 <==> (bytes == [] || offset + |bytes| <= U64_MAX)
    decreases |bytes|
  {
    if bytes != [] {
      var n := Min(CHUNK_SIZE, |bytes|);
      ExtentSucceeds(ExtentChunk(data, offset, bytes[..n]), offset + n, bytes[n..]);
    }
  }

  /** A short extent with data in it, written to an empty file, is the whole file. */
  lemma FirstExtent(bytes: seq<Byte>)
    requires |bytes| <= CHUNK_SIZE && !AllZero(bytes)
    ensures Extent([], 0, bytes) == (true, bytes)
  {
    assert bytes[..|bytes|] == bytes && bytes[|bytes|..] == [];
    assert Written([], 0, bytes) == bytes;
  }

  /** Two files of one length with the same bytes are the same file. */
  lemma SameFile(a: seq<Byte>, b: seq<Byte>)
    requires |a| == |b|
    requires forall i: nat :: i < |a| ==> At(a, i) == At(b, i)
    ensures a == b
  {
    assert forall i :: 0 <= i < |a| ==> a[i] == At(a, i) == At(b, i) == b[i];
  }

  /** One step of the copy loop: the copied prefix grows by exactly the bytes just read. */
  lemma CopyStep(source: seq<Byte>, offset: nat, n: nat)
    requires offset + n <= |source| <= U64_MAX
    ensures Extent(source[..offset] + Zeros(|source| - offset), offset, source[offset..offset + n])
         == (true, source[..offset + n] + Zeros(|source| - offset - n))
  {
    var before, bytes := source[..offset] + Zeros(|source| - offset), source[offset..offset + n];
    var after := source[..offset + n] + Zeros(|source| - offset - n);
    ExtentSucceeds(before, offset, bytes);
    ExtentBytes(before, offset, bytes);
    SameFile(Extent(before, offset, bytes).1, after);
  }

  // ---------- The operations ----------

  /** A file with a range zeroed in place. */
  function Blanked(data: seq<Byte>, offset: nat, length: nat): seq<Byte>
    requires offset + length <= |data|
  {
    data[..offset] + Zeros(length) + data[offset + length..]
  }

  lemma BlankedNone(data: seq<Byte>, offset: nat)
    requires offset <= |data|
    ensures Blanked(data, offset, 0) == data
  {
  }

  lemma BlankedAll(data: seq<Byte>, offset: nat, length: nat)
    requires offset + length <= |data|
    ensures Blanked(data, offset, length) == data[..offset] + Zeros(length) + data[offset + length..]
  {
  }

  lemma BlankedMore(data: seq<Byte>, offset: nat, done: nat, count: nat)
    requires offset + done + count <= |data|
    ensures Written(Blanked(data, offset, done), offset + done, Zeros(count)) == Blanked(data, offset, done + count)
  {
    var before := Blanked(data, offset, done);
    assert before[..offset + done] == data[..offset] + Zeros(done);
    assert before[offset + done + count..] == data[offset + done + count..];
    assert Zeros(done) + Zeros(count) == Zeros(done + count);
  }

  class SparseFile {
    var data: seq<Byte>
    var position: nat

    constructor ()
      ensures data == [] && position == 0
    {
      data, position := [], 0;
    }

    method SetLen(n: nat)
      modifies this`data
      ensures data == Resized(old(data), n)
    {
      data := Resized(data, n);
    }

    method Seek(to: nat)
      modifies this`position
      ensures position == to
    {
      position := to;
    }

    method WriteAll(bytes: seq<Byte>)
      modifies this
      ensures data == Written(old(data), old(position), bytes)
      ensures position == old(position) + |bytes|
    {
      data := Written(data, position, bytes);
      position := position + |bytes|;
    }

    /** The platform zeroes the range, or reports that it cannot. */
    method PunchHole(offset: nat, length: nat) returns (punched: bool)
      requires offset + length <= |data|
      modifies this`data
      ensures data == if punched then old(data)[..offset] + Zeros(length) + old(data)[offset + length..] else old(data)
    {
      punched := *;
      if punched {
        data := data[..offset] + Zeros(length) + data[offset + length..];
      }
    }

    method WriteZeros(offset: nat, length: nat)
      requires offset + length <= |data|
      modifies this
      ensures data == old(data)[..offset] + Zeros(length) + old(data)[offset + length..]
    {
      hide Written;
      hide Blanked;
      Seek(offset);
      var remaining := length;
      assert data == Blanked(old(data), offset, 0) by { BlankedNone(data, offset); }
      while remaining != 0
        invariant 0 <= remaining <= length
        invariant position == offset + (length - remaining)
        invariant data == Blanked(old(data), offset, length - remaining)
      {
        var count := Min(remaining, ZERO_BUFFER);
        BlankedMore(old(data), offset, length - remaining, count);
        WriteAll(Zeros(count));
        remaining := remaining - count;
      }
      assert data == old(data)[..offset] + Zeros(length) + old(data)[offset + length..] by { BlankedAll(old(data), offset, length); }
    }

    method ZeroRange(offset: nat, length: nat)
      modifies this
      ensures data == Zeroed(old(data), offset, length)
    {
      var currentLen := |data|;
      if offset >= currentLen || length == 0 {
        return;
      }
      if length == U64_MAX {
        SetLen(offset);
        return;
      }
      var n := Min(length, currentLen - offset);
      var punched := PunchHole(offset, n);
      if !punched {
        WriteZeros(offset, n);
      }
    }

    method WriteExtent(offset: U64, bytes: seq<Byte>) returns (ok: bool)
      modifies this
      ensures (ok, data) == Extent(old(data), offset, bytes)
    {
      var at: nat, rest := offset, bytes;
      while rest != []
        invariant Extent(data, at, rest) == Extent(old(data), offset, bytes)
        decreases |rest|
      {
        var n := Min(CHUNK_SIZE, |rest|);
        var chunk := rest[..n];
        ghost var next := ExtentChunk(data, at, chunk);
        if AllZero(chunk) {
          ZeroRange(at, n);
        } else {
          Seek(at);
          WriteAll(chunk);
        }
        assert data == next;
        if at + n > U64_MAX {
          return false;
        }
        at, rest := at + n, rest[n..];
      }
      return true;
    }

    /** The zero-detecting copy used where the platform cannot enumerate allocated ranges. */
    method CopyFrom(source: SparseFile) returns (ok: bool)
      requires source != this && data == [] && |source.data| <= U64_MAX
      modifies this
      ensures ok && data == source.data
    {
      var length := |source.data|;
      SetLen(length);
      var offset := 0;
      while offset < length
        invariant offset <= length
        invariant data == source.data[..offset] + Zeros(length - offset)
      {
        var wanted := Min(length - offset, CHUNK_SIZE);
        CopyStep(source.data, offset, wanted);
        ok := WriteExtent(offset, source.data[offset..offset + wanted]);
        offset := offset + wanted;
      }
      return true;
    }
  }
}
