/** Lazy replay: index the target object's records into a segment map, and decode blocks only when a
    positioned read needs them (src/inception.rs, `StreamImage`). */
module StreamImages {
  import opened Bytes
  import opened Records
  import opened Segments
  import opened Replay

  datatype Lazy = Lazy(
    active: bool, key: Option<nat>, seen: set<U64>, objectType: Option<nat>, live: bool,
    owners: Owners, keys: seq<Key>, nextId: nat)

  const LAZY_START: Lazy := Lazy(false, None, {}, None, false, map[], [], 1)

  // ---------- Specification of the index ----------

  function Removed(owners: Owners, offset: U64, length: U64): Option<Owners> {
    if RangeFits(offset, length) then Some(Without(owners, offset, RangeEnd(offset, length))) else None
  }

  function Inserted(owners: Owners, offset: U64, length: U64, block: BlockDescriptor): Option<Owners> {
    if length == 0 || offset + length <= U64_MAX then Some(With(owners, offset, length, block)) else None
  }

  function WithOwners(st: Lazy, owners: Option<Owners>): Option<Lazy> {
    if owners.None? then None else Some(st.(owners := owners.value, nextId := st.nextId + 1))
  }

  function WriteBlock(codec: Codec, st: Lazy, record: Record, write: WriteRecord): BlockDescriptor {
    BlockDescriptor(
      st.nextId, record.streamOffset + RECORD_SIZE, |record.payload|, codec.crc32(record.payload), write.logicalSize,
      if st.key.Some? then Raw(st.key.value, IsEncryptedObjectType(write.objectType), write.compression, write.crypt)
      else BlockEncoding.Replay(write.compression))
  }

  function EmbeddedBlock(codec: Codec, st: Lazy, record: Record, write: EmbeddedRecord): BlockDescriptor {
    BlockDescriptor(
      st.nextId, record.streamOffset + RECORD_SIZE, |record.payload|, codec.crc32(record.payload), write.logicalSize,
      Embedded(write.compression, write.embeddedType, write.physicalSize))
  }

  function LazyBegin(codec: Codec, plan: Plan, st: Lazy, begin: BeginRecord, payload: seq<Byte>): Option<Lazy> {
    if !plan.Selects(begin) then Some(st.(active := false, key := None))
    else
      var entered := st.(active := true, key := None, seen := st.seen + {begin.toGuid});
      if !begin.raw then Some(entered)
      else
        var key := codec.unlock(payload);
        if key.None? then None else Some(entered.(key := Some(|st.keys|), keys := st.keys + [key.value]))
  }

  function LazyWrite(codec: Codec, st: Lazy, record: Record, write: WriteRecord): Option<Lazy> {
    if !st.live then None
    else WithOwners(st, Inserted(st.owners, write.offset, write.logicalSize, WriteBlock(codec, st, record, write)))
  }

  function LazyEmbedded(codec: Codec, st: Lazy, record: Record, write: EmbeddedRecord): Option<Lazy> {
    if st.key.Some? then None
    else
      var removed := Removed(st.owners, write.offset, write.length);
      if removed.None? then None
      else WithOwners(st, Inserted(removed.value, write.offset, Min(write.logicalSize, write.length),
                                   EmbeddedBlock(codec, st, record, write)))
  }

  /** One record; None is an error return. */
  function LazyStep(codec: Codec, plan: Plan, id: U64, st: Lazy, record: Record): Option<Lazy> {
    match record.kind
    case Begin(begin) => LazyBegin(codec, plan, st, begin, record.payload)
    case End => Some(st.(active := false, key := None))
    case _ => if st.active then LazyBody(codec, id, st, record) else Some(st)
  }

  function LazyBody(codec: Codec, id: U64, st: Lazy, record: Record): Option<Lazy> {
    match record.kind
    case Object(dnode) =>
      if dnode.objectId != id then Some(st)
      else
        var kept := if st.objectType == Some(dnode.objectType) then st.owners else map[];
        Some(st.(owners := kept, objectType := Some(dnode.objectType), live := true))
    case Write(write) => if write.objectId != id then Some(st) else LazyWrite(codec, st, record, write)
    case WriteEmbedded(write) => if write.objectId != id then Some(st) else LazyEmbedded(codec, st, record, write)
    case Free(objectId, offset, length) =>
      if objectId != id then Some(st)
      else
        var removed := Removed(st.owners, offset, length);
        if removed.None? then None else Some(st.(owners := removed.value))
    case FreeObjects(first, count) =>
      if Covers(first, count, id) then Some(st.(owners := map[], objectType := None, live := false)) else Some(st)
    case WriteByRef => None
    case Redact => None
    case _ => Some(st)
  }

  function LazyRun(codec: Codec, plan: Plan, id: U64, records: seq<Record>): Option<Lazy>
    decreases |records|
  {
    if records == [] then Some(LAZY_START)
    else
      var before := LazyRun(codec, plan, id, records[..|records| - 1]);
      if before.None? then None else LazyStep(codec, plan, id, before.value, records[|records| - 1])
  }

  function LazyResult(codec: Codec, plan: Plan, id: U64, records: seq<Record>): Option<Lazy> {
    var run := LazyRun(codec, plan, id, records);
    if run.Some? && SawEnd(records) && |run.value.seen| == |plan.chain| && run.value.live then run else None
  }

  // ---------- Specification of reads ----------

  /** What re-reading and decoding a block's payload gives, without the cache. */
  function Decoded(codec: Codec, file: seq<Byte>, keys: seq<Key>, block: BlockDescriptor): Option<seq<Byte>> {
    var payload := Slice(file, block.payloadOffset, block.payloadLen);
    if payload.None? || codec.crc32(payload.value) != block.payloadCrc then None
    else
      var plaintext := DecodedPayload(codec, keys, block, payload.value);
      if plaintext.Some? && |plaintext.value| == block.logicalLen then plaintext else None
  }

  function DecodedPayload(codec: Codec, keys: seq<Key>, block: BlockDescriptor, payload: seq<Byte>): Option<seq<Byte>> {
    match block.encoding
    case Replay(compression) => codec.DecodeReplayWrite(compression, payload, block.logicalLen)
    case Embedded(compression, embeddedType, physicalSize) =>
      if block.logicalLen > 0xFFFF_FFFF then None
      else codec.DecodeEmbeddedWrite(compression, embeddedType, payload, physicalSize, block.logicalLen)
    case Raw(keyIndex, encrypted, compression, crypt) =>
      if keyIndex >= |keys| then None
      else codec.DecodeRawWrite(keys[keyIndex], encrypted, compression, crypt, payload, block.logicalLen)
  }

  /** The byte the image shows at an offset whose block decodes. */
  function ImageByte(codec: Codec, file: seq<Byte>, keys: seq<Key>, owners: Owners, i: nat): Byte {
    if i !in owners then 0
    else
      var decoded := Decoded(codec, file, keys, owners[i].block);
      if decoded.Some? && owners[i].position < |decoded.value| then decoded.value[owners[i].position] else 0
  }

  // ---------- Block identifiers are unique ----------

  ghost predicate UniqueIds(owners: Owners, nextId: nat) {
    && (forall i :: i in owners ==> owners[i].block.id < nextId)
    && (forall i, j :: i in owners && j in owners && owners[i].block.id == owners[j].block.id ==>
          owners[i].block == owners[j].block)
  }

  lemma RemovalKeepsIds(owners: Owners, start: nat, end: nat, nextId: nat)
    requires UniqueIds(owners, nextId)
    ensures UniqueIds(Without(owners, start, end), nextId)
  {
  }

  lemma InsertionKeepsIds(owners: Owners, start: nat, length: nat, block: BlockDescriptor)
    requires UniqueIds(owners, block.id)
    ensures UniqueIds(With(owners, start, length, block), block.id + 1)
  {
    RemovalKeepsIds(owners, start, start + length, block.id);
  }

  /** Every insertion takes a fresh identifier, so equal identifiers mean the same block. */
  lemma StepKeepsIds(codec: Codec, plan: Plan, id: U64, st: Lazy, record: Record)
    requires UniqueIds(st.owners, st.nextId)
    ensures var after := LazyStep(codec, plan, id, st, record);
            after.Some? ==> UniqueIds(after.value.owners, after.value.nextId)
  {
    hide Without;
    hide With;
    match record.kind
    case Write(write) =>
      InsertionKeepsIds(st.owners, write.offset, write.logicalSize, WriteBlock(codec, st, record, write));
    case WriteEmbedded(write) =>
      if RangeFits(write.offset, write.length) {
        var removed := Without(st.owners, write.offset, RangeEnd(write.offset, write.length));
        RemovalKeepsIds(st.owners, write.offset, RangeEnd(write.offset, write.length), st.nextId);
        InsertionKeepsIds(removed, write.offset, Min(write.logicalSize, write.length), EmbeddedBlock(codec, st, record, write));
      }
    case Free(_, offset, length) =>
      if RangeFits(offset, length) {
        RemovalKeepsIds(st.owners, offset, RangeEnd(offset, length), st.nextId);
      }
    case _ =>
  }

  lemma {:induction false} IdsAreUnique(codec: Codec, plan: Plan, id: U64, records: seq<Record>)
    ensures var run := LazyRun(codec, plan, id, records);
            run.Some? ==> UniqueIds(run.value.owners, run.value.nextId)
    decreases |records|
  {
    if records != [] {
      var before := records[..|records| - 1];
      IdsAreUnique(codec, plan, id, before);
      if LazyRun(codec, plan, id, before).Some? {
        StepKeepsIds(codec, plan, id, LazyRun(codec, plan, id, before).value, records[|records| - 1]);
      }
    }
  }

  lemma LazyRunNone(codec: Codec, plan: Plan, id: U64)
    ensures LazyRun(codec, plan, id, []) == Some(LAZY_START)
  {
  }

  lemma LazyRunStep(codec: Codec, plan: Plan, id: U64, records: seq<Record>, n: nat)
    requires n < |records|
    ensures LazyRun(codec, plan, id, records[..n + 1])
         == var before := LazyRun(codec, plan, id, records[..n]);
            if before.None? then None else LazyStep(codec, plan, id, before.value, records[n])
  {
    assert records[..n + 1][..n] == records[..n];
  }

  lemma {:induction false} LazyRunFails(codec: Codec, plan: Plan, id: U64, records: seq<Record>, n: nat)
    requires n <= |records| && LazyRun(codec, plan, id, records[..n]).None?
    ensures LazyRun(codec, plan, id, records).None?
    decreases |records| - n
  {
    if n < |records| {
      LazyRunStep(codec, plan, id, records, n);
      LazyRunFails(codec, plan, id, records, n + 1);
    } else {
      assert records[..n] == records;
    }
  }

  // ---------- The image ----------

  class StreamImage {
    const codec: Codec
    const file: seq<Byte>
    const len: U64
    const segments: Entries
    const keys: seq<Key>
    var cache: Option<(nat, seq<Byte>)>
    ghost const owners: Owners

    /** The cache, when set, holds what decoding the block of that identifier gives. */
    ghost predicate Valid()
      reads this
    {
      && WellFormed(segments) && Represents(segments, owners)
      && (exists nextId :: UniqueIds(owners, nextId))
      && (cache.Some? ==> CacheFor(cache.value.0, cache.value.1))
    }

    ghost predicate CacheFor(id: nat, bytes: seq<Byte>) {
      forall i :: i in owners && owners[i].block.id == id ==>
        Decoded(codec, file, keys, owners[i].block) == Some(bytes)
    }

    ghost function Shown(i: nat): Byte { ImageByte(codec, file, keys, owners, i) }

    constructor (codec: Codec, file: seq<Byte>, len: U64, segments: Entries, keys: seq<Key>, ghost owners: Owners, ghost nextId: nat)
      requires WellFormed(segments) && Represents(segments, owners) && UniqueIds(owners, nextId)
      ensures Valid() && cache == None
      ensures this.codec == codec && this.file == file && this.len == len && this.keys == keys && this.owners == owners
    {
      this.codec, this.file, this.len, this.segments, this.keys := codec, file, len, segments, keys;
      this.owners, this.cache := owners, None;
    }

    /** Decode through the one-block cache. */
    method Decode(block: BlockDescriptor) returns (decoded: Option<seq<Byte>>)
      requires Valid() && exists i :: i in owners && owners[i].block == block
      modifies this`cache
      ensures Valid() && decoded == Decoded(codec, file, keys, block)
    {
      if cache.Some? && cache.value.0 == block.id {
        return Some(cache.value.1);
      }
      var payload := Slice(file, block.payloadOffset, block.payloadLen);
      if payload.None? {
        return None;
      }
      if codec.crc32(payload.value) != block.payloadCrc {
        return None;
      }
      decoded := DecodedPayload(codec, keys, block, payload.value);
      if decoded.None? || |decoded.value| != block.logicalLen {
        return None;
      }
      cache := Some((block.id, decoded.value));
    }

    /** Bytes held by segments already copied are shown; the others are still zero. */
    ghost predicate Filled(bytes: seq<Byte>, offset: nat, pending: set<nat>) {
      forall j :: 0 <= j < |bytes| ==> bytes[j] == if Copied(offset + j, pending) then Shown(offset + j) else 0
    }

    ghost predicate Copied(i: nat, pending: set<nat>) { exists k :: Holds(segments, k, i) && k !in pending }

    /** Every segment already copied decoded. */
    ghost predicate Readable(offset: nat, n: nat, pending: set<nat>)
      requires Represents(segments, owners)
    {
      forall i :: i in owners && offset <= i < offset + n && Copied(i, pending) ==>
        Decoded(codec, file, keys, owners[i].block).Some?
    }

    lemma CopiedMore(pending: set<nat>, start: nat, i: nat)
      requires start in pending
      ensures Copied(i, pending - {start}) <==> Copied(i, pending) || Holds(segments, start, i)
    {
      if Copied(i, pending) {
        var k :| Holds(segments, k, i) && k !in pending;
        assert k !in pending - {start};
      }
      if Holds(segments, start, i) {
        assert start !in pending - {start};
      }
    }

    /** Copying one segment moves exactly its bytes from pending to shown. */
    lemma CopyOne(before: seq<Byte>, after: seq<Byte>, offset: nat, pending: set<nat>, start: nat, decoded: seq<Byte>)
      requires WellFormed(segments) && Represents(segments, owners)
      requires Filled(before, offset, pending) && |after| == |before| && start in pending && start in segments
      requires Decoded(codec, file, keys, segments[start].block) == Some(decoded)
      requires |decoded| == segments[start].block.logicalLen
      requires forall j :: 0 <= j < |after| ==>
                 after[j] == if Holds(segments, start, offset + j)
                             then decoded[segments[start].blockOffset + (offset + j - start)] else before[j]
      ensures Filled(after, offset, pending - {start})
    {
      hide Decoded;
      hide Shown;
      hide Copied;
      hide Represents;
      hide WellFormed;
      hide Holds;
      forall j | 0 <= j < |after|
        ensures after[j] == if Copied(offset + j, pending - {start}) then Shown(offset + j) else 0
      {
        CopiedMore(pending, start, offset + j);
        if Holds(segments, start, offset + j) {
          ShownFrom(start, offset + j, decoded);
        }
      }
    }

    /** A byte of a decoded segment is shown from its place in the block. */
    lemma ShownFrom(start: nat, i: nat, decoded: seq<Byte>)
      requires WellFormed(segments) && Represents(segments, owners) && Holds(segments, start, i)
      requires Decoded(codec, file, keys, segments[start].block) == Some(decoded)
      requires |decoded| == segments[start].block.logicalLen
      ensures segments[start].blockOffset + (i - start) < |decoded|
      ensures Shown(i) == decoded[segments[start].blockOffset + (i - start)]
    {
      hide Decoded;
      assert owners[i] == PlaceIn(segments, start, i);
    }

    lemma ReadOne(n: nat, offset: nat, pending: set<nat>, start: nat)
      requires Represents(segments, owners) && Readable(offset, n, pending) && start in pending && start in segments
      requires Decoded(codec, file, keys, segments[start].block).Some?
      ensures Readable(offset, n, pending - {start})
    {
      hide Decoded;
      forall i | i in owners && offset <= i < offset + n && Copied(i, pending - {start})
        ensures Decoded(codec, file, keys, owners[i].block).Some?
      {
        CopiedMore(pending, start, i);
        if Holds(segments, start, i) {
          assert owners[i] == PlaceIn(segments, start, i);
        }
      }
    }

    lemma SegmentFacts(start: nat, i: nat)
      requires WellFormed(segments) && Represents(segments, owners) && Holds(segments, start, i)
      ensures i in owners && owners[i].block == segments[start].block
      ensures segments[start].blockOffset + (segments[start].end - start) <= segments[start].block.logicalLen
    {
      assert owners[i] == PlaceIn(segments, start, i);
    }

    lemma SkipOne(bytes: seq<Byte>, offset: nat, pending: set<nat>, start: nat)
      requires Represents(segments, owners) && Filled(bytes, offset, pending) && Readable(offset, |bytes|, pending)
      requires start in segments && segments[start].end <= offset
      ensures Filled(bytes, offset, pending - {start}) && Readable(offset, |bytes|, pending - {start})
    {
      assert forall i: nat :: offset <= i ==> (Copied(i, pending - {start}) <==> Copied(i, pending));
    }

    lemma NothingCopied(bytes: seq<Byte>, offset: nat, pending: set<nat>)
      requires Represents(segments, owners) && AllZero(bytes)
      requires forall k :: k in segments && k < offset + |bytes| ==> k in pending
      ensures Filled(bytes, offset, pending) && Readable(offset, |bytes|, pending)
    {
      assert forall i: nat :: i < offset + |bytes| ==> !Copied(i, pending);
    }

    /** With nothing pending, every byte is shown. */
    lemma AllCopied(bytes: seq<Byte>, offset: nat)
      requires Represents(segments, owners) && Filled(bytes, offset, {}) && Readable(offset, |bytes|, {})
      ensures forall j :: 0 <= j < |bytes| ==> bytes[j] == Shown(offset + j)
      ensures forall i :: i in owners && offset <= i < offset + |bytes| ==>
                Decoded(codec, file, keys, owners[i].block).Some?
    {
      forall i: nat
        ensures i in owners <==> Copied(i, {})
      {
        if i in owners {
          var k :| Holds(segments, k, i);
          assert k !in {};
        }
      }
    }

    /** Copy the overlap of one segment with the window into the buffer. */
    method CopySegment(start: nat, offset: nat, buffer: array<Byte>, ghost pending: set<nat>) returns (ok: bool)
      requires Valid() && start in pending && start in segments && start < offset + buffer.Length
      requires buffer.Length > 0
      requires Filled(buffer[..], offset, pending) && Readable(offset, buffer.Length, pending)
      modifies this`cache, buffer
      ensures Valid()
      ensures ok ==> Filled(buffer[..], offset, pending - {start}) && Readable(offset, buffer.Length, pending - {start})
      ensures !ok ==> exists i :: i in owners && offset <= i < offset + buffer.Length
                               && Decoded(codec, file, keys, owners[i].block).None?
    {
      hide Filled;
      hide Readable;
      ghost var before := buffer[..];
      var segment := segments[start];
      if segment.end <= offset {
        SkipOne(before, offset, pending, start);
        return true;
      }
      var copyStart, copyEnd := Max(start, offset), Min(segment.end, offset + buffer.Length);
      var sourceStart := segment.blockOffset + copyStart - start;
      SegmentFacts(start, copyStart);
      var decoded := Decode(segment.block);
      if decoded.None? {
        return false;
      }
      // The slice never leaves the block: there is no "points outside its decoded block" branch to take.
      assert sourceStart + (copyEnd - copyStart) <= |decoded.value|;
      forall j | copyStart - offset <= j < copyEnd - offset {
        buffer[j] := decoded.value[sourceStart + (j - (copyStart - offset))];
      }
      CopyOne(before, buffer[..], offset, pending, start, decoded.value);
      ReadOne(buffer.Length, offset, pending, start);
      return true;
    }

    /** The loop over the segments that start before the window's end, in ascending order. */
    method CopySegments(offset: nat, buffer: array<Byte>) returns (ok: bool)
      requires Valid() && buffer.Length > 0 && AllZero(buffer[..])
      modifies this`cache, buffer
      ensures Valid()
      ensures ok ==> Filled(buffer[..], offset, {}) && Readable(offset, buffer.Length, {})
      ensures !ok ==> exists i :: i in owners && offset <= i < offset + buffer.Length
                               && Decoded(codec, file, keys, owners[i].block).None?
    {
      hide Filled;
      hide Readable;
      hide WellFormed;
      hide Represents;
      var end := offset + buffer.Length;
      var pending: set<nat> := set k | k in segments && k < end;
      NothingCopied(buffer[..], offset, pending);
      while pending != {}
        invariant Valid()
        invariant forall k :: k in pending ==> k in segments && k < end
        invariant Filled(buffer[..], offset, pending) && Readable(offset, buffer.Length, pending)
        decreases pending
      {
        var start := Least(pending);
        ok := CopySegment(start, offset, buffer, pending);
        if !ok {
          return false;
        }
        pending := pending - {start};
      }
      return true;
    }

    method ReadExactAt(offset: U64, buffer: array<Byte>) returns (ok: bool)
      requires Valid()
      modifies this`cache, buffer
      ensures Valid()
      ensures ok <==> && offset + buffer.Length <= len
                      && (forall i :: i in owners && offset <= i < offset + buffer.Length ==>
                            Decoded(codec, file, keys, owners[i].block).Some?)
      ensures ok ==> forall j :: 0 <= j < buffer.Length ==> buffer[j] == Shown(offset + j)
    {
      var end := offset + buffer.Length;
      if end > U64_MAX {
        return false;
      }
      if end > len {
        return false;
      }
      forall j | 0 <= j < buffer.Length {
        buffer[j] := 0;
      }
      if buffer.Length == 0 {
        return true;
      }
      hide Filled;
      hide Readable;
      ok := CopySegments(offset, buffer);
      if ok {
        AllCopied(buffer[..], offset);
      }
    }
  }

  // ---------- Building the index ----------

  /** The loop's scalar state beside its segment map. */
  ghost function Indexing(active: bool, key: Option<nat>, seen: set<U64>, objectType: Option<nat>, live: bool,
                          segments: SegmentMap, keys: seq<Key>, nextId: nat): Lazy
    reads segments
  {
    Lazy(active, key, seen, objectType, live, segments.owners, keys, nextId)
  }

  method IndexBody(codec: Codec, id: U64, key: Option<nat>, ghost seen: set<U64>, wasType: Option<nat>, wasLive: bool,
                   segments: SegmentMap, ghost keys: seq<Key>, id0: nat, record: Record)
    returns (ok: bool, objectType: Option<nat>, live: bool, nextId: nat)
    requires segments.Valid()
    modifies segments
    ensures segments.Valid()
    ensures var after := LazyBody(codec, id, old(Indexing(true, key, seen, wasType, wasLive, segments, keys, id0)), record);
            (ok <==> after.Some?) && (ok ==> after == Some(Indexing(true, key, seen, objectType, live, segments, keys, nextId)))
  {
    hide Without;
    hide With;
    hide WellFormed;
    hide Represents;
    ok, objectType, live, nextId := true, wasType, wasLive, id0;
    ghost var st := Indexing(true, key, seen, wasType, wasLive, segments, keys, id0);
    match record.kind
    case Object(dnode) =>
      if dnode.objectId == id {
        if objectType != Some(dnode.objectType) {
          segments.Clear();
        }
        objectType, live := Some(dnode.objectType), true;
      }
    case Write(write) =>
      if write.objectId == id {
        if !live {
          ok := false;
          return;
        }
        var encoding := if key.Some?
          then Raw(key.value, IsEncryptedObjectType(write.objectType), write.compression, write.crypt)
          else BlockEncoding.Replay(write.compression);
        var descriptor := BlockDescriptor(id0, record.streamOffset + RECORD_SIZE, |record.payload|,
                                          codec.crc32(record.payload), write.logicalSize, encoding);
        assert descriptor == WriteBlock(codec, st, record, write);
        nextId := nextId + 1;
        ok := segments.Insert(write.offset, write.logicalSize, descriptor);
      }
    case WriteEmbedded(write) =>
      if write.objectId == id {
        if key.Some? {
          ok := false;
          return;
        }
        var descriptor := BlockDescriptor(id0, record.streamOffset + RECORD_SIZE, |record.payload|,
                                          codec.crc32(record.payload), write.logicalSize,
                                          Embedded(write.compression, write.embeddedType, write.physicalSize));
        assert descriptor == EmbeddedBlock(codec, st, record, write);
        nextId := nextId + 1;
        ok := segments.Remove(write.offset, write.length);
        if ok {
          ok := segments.Insert(write.offset, Min(write.logicalSize, write.length), descriptor);
        }
      }
    case Free(objectId, offset, length) =>
      if objectId == id {
        ok := segments.Remove(offset, length);
      }
    case FreeObjects(first, count) =>
      if Covers(first, count, id) {
        segments.Clear();
        objectType, live := None, false;
      }
    case WriteByRef => ok := false;
    case Redact => ok := false;
    case _ =>
  }

  method Index(codec: Codec, plan: Plan, id: U64, records: seq<Record>)
    returns (ok: bool, segments: SegmentMap, keys: seq<Key>, ghost nextId: nat)
    ensures fresh(segments) && segments.Valid()
    ensures ok <==> LazyResult(codec, plan, id, records).Some?
    ensures ok ==> var result := LazyResult(codec, plan, id, records).value;
                   segments.owners == result.owners && keys == result.keys && nextId == result.nextId
  {
    hide LazyBody;
    hide LazyRun;
    hide WellFormed;
    hide Represents;
    LazyRunNone(codec, plan, id);
    segments := new SegmentMap();
    keys := [];
    var active, live, sawEnd := false, false, false;
    var key: Option<nat>, seen: set<U64>, objectType: Option<nat>, blockId: nat := None, {}, None, 1;
    nextId := 1;
    for n := 0 to |records|
      invariant segments.Valid() && fresh(segments) && nextId == blockId
      invariant LazyRun(codec, plan, id, records[..n])
             == Some(Indexing(active, key, seen, objectType, live, segments, keys, blockId))
      invariant sawEnd <==> SawEnd(records[..n])
    {
      var record := records[n];
      LazyRunStep(codec, plan, id, records, n);
      ok := true;
      match record.kind {
      case Begin(begin) =>
        active, key := plan.Selects(begin), None;
        if active {
          seen := seen + {begin.toGuid};
          if begin.raw {
            var unlocked := codec.unlock(record.payload);
            ok := unlocked.Some?;
            if ok {
              key, keys := Some(|keys|), keys + [unlocked.value];
            }
          }
        }
      case End =>
        active, key, sawEnd := false, None, true;
      case _ =>
        if active {
          ok, objectType, live, blockId := IndexBody(codec, id, key, seen, objectType, live, segments, keys, blockId, record);
          nextId := blockId;
        }
      }
      if !ok {
        LazyRunFails(codec, plan, id, records, n + 1);
        return;
      }
      assert records[..n + 1] == records[..n] + [record];
    }
    assert records[..|records|] == records;
    ok := sawEnd && |seen| == |plan.chain| && live;
  }

  /** Open the image over a send file whose record sequence has been read. */
  method Build(codec: Codec, file: seq<Byte>, plan: Plan, id: U64, records: seq<Record>, len: U64)
    returns (image: StreamImage?)
    ensures image != null <==> LazyResult(codec, plan, id, records).Some?
    ensures image != null ==> fresh(image)
    ensures image != null ==>
              var result := LazyResult(codec, plan, id, records).value;
              image.Valid() && image.owners == result.owners && image.keys == result.keys
              && image.codec == codec && image.file == file && image.len == len
  {
    var ok, segments, keys, nextId := Index(codec, plan, id, records);
    if !ok {
      return null;
    }
    IdsAreUnique(codec, plan, id, records);
    image := new StreamImage(codec, file, len, segments.entries, keys, segments.owners, nextId);
  }
}
