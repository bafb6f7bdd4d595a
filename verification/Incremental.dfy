/** Applying a plain incremental send to an extracted file (src/operations.rs, `apply_incremental_with_key`),
    compared with extracting the later snapshot from the whole history. */
module Incremental {
  import opened Bytes
  import opened Records
  import opened Sparse
  import opened Replay

  /** What the extraction sidecar remembers about the target. */
  datatype Sidecar = Sidecar(
    objectId: U64, bonusType: U32, logicalSize: U64, sizeBonusOffset: Option<U64>, sizeSpillOffset: Option<U64>,
    snapshotGuid: U64)

  datatype Applying = Applying(begin: Option<BeginRecord>, newSize: U64, changed: bool, deleted: bool, data: seq<Byte>)

  datatype Applied = Applied(sidecar: Sidecar, file: seq<Byte>)

  // ---------- Specification ----------

  /** The eight-byte size attribute stored at an offset, when the buffer reaches that far. */
  function StoredSize(bytes: seq<Byte>, offset: U64): Option<U64> {
    var slice := Slice(bytes, offset, 8);
    if slice.None? then None else Some(Le64(slice.value))
  }

  function ApplyObject(sidecar: Sidecar, st: Applying, dnode: ObjectRecord, payload: seq<Byte>): Option<Applying> {
    if dnode.bonusType != sidecar.bonusType then None
    else if sidecar.sizeBonusOffset.None? then Some(st.(changed := true))
    else
      var size := StoredSize(payload, sidecar.sizeBonusOffset.value);
      if size.None? then None else Some(st.(newSize := size.value, changed := true))
  }

  function ApplySpill(codec: Codec, sidecar: Sidecar, st: Applying, spill: SpillRecord, payload: seq<Byte>): Option<Applying> {
    if sidecar.sizeSpillOffset.None? then Some(st.(changed := true))
    else
      var plaintext := codec.DecodeReplayWrite(spill.compression, payload, spill.logicalSize);
      if plaintext.None? then None
      else
        var size := StoredSize(plaintext.value, sidecar.sizeSpillOffset.value);
        if size.None? then None else Some(st.(newSize := size.value, changed := true))
  }

  function ChangedData(st: Applying, data: Option<seq<Byte>>): Option<Applying> {
    if data.None? then None else Some(st.(data := data.value, changed := true))
  }

  function ApplyWrite(codec: Codec, st: Applying, write: WriteRecord, payload: seq<Byte>): Option<Applying> {
    var plaintext := codec.DecodeReplayWrite(write.compression, payload, write.logicalSize);
    if plaintext.None? then None else ChangedData(st, Checked(Extent(st.data, write.offset, plaintext.value)))
  }

  function ApplyEmbedded(codec: Codec, st: Applying, write: EmbeddedRecord, payload: seq<Byte>): Option<Applying> {
    var plaintext := codec.DecodeEmbeddedWrite(write.compression, write.embeddedType, payload, write.physicalSize,
                                               write.logicalSize);
    if plaintext.None? then None else ChangedData(st, Replaced(st.data, write.offset, write.length, plaintext.value))
  }

  /** One record of the incremental stream; None is an error return. */
  function ApplyStep(codec: Codec, sidecar: Sidecar, st: Applying, record: Record): Option<Applying> {
    match record.kind
    case Begin(begin) =>
      if begin.headerType != DMU_SUBSTREAM then Some(st)
      else if st.begin.Some? || begin.fromGuid != sidecar.snapshotGuid then None
      else Some(st.(begin := Some(begin)))
    case Object(dnode) =>
      if dnode.objectId != sidecar.objectId then Some(st) else ApplyObject(sidecar, st, dnode, record.payload)
    case Write(write) =>
      if write.objectId != sidecar.objectId then Some(st) else ApplyWrite(codec, st, write, record.payload)
    case WriteEmbedded(write) =>
      if write.objectId != sidecar.objectId then Some(st) else ApplyEmbedded(codec, st, write, record.payload)
    case Spill(spill) =>
      if spill.objectId != sidecar.objectId then Some(st) else ApplySpill(codec, sidecar, st, spill, record.payload)
    case Free(objectId, offset, length) =>
      if objectId != sidecar.objectId then Some(st)
      else Some(st.(data := Zeroed(st.data, offset, length), changed := true))
    case FreeObjects(first, count) =>
      if Covers(first, count, sidecar.objectId) then Some(st.(deleted := true)) else Some(st)
    case WriteByRef => None
    case ObjectRange(_) => None
    case Redact => None
    case End => Some(st)
  }

  function ApplyRun(codec: Codec, sidecar: Sidecar, start: Applying, records: seq<Record>): Option<Applying>
    decreases |records|
  {
    if records == [] then Some(start)
    else
      var before := ApplyRun(codec, sidecar, start, records[..|records| - 1]);
      if before.None? then None else ApplyStep(codec, sidecar, before.value, records[|records| - 1])
  }

  function ApplyStart(sidecar: Sidecar, target: seq<Byte>): Applying {
    Applying(None, sidecar.logicalSize, false, false, target)
  }

  /** The updated file and sidecar, or None when any check fails. */
  function Apply(codec: Codec, sidecar: Sidecar, target: seq<Byte>, records: seq<Record>): Option<Applied> {
    if |target| != sidecar.logicalSize then None
    else
      var run := ApplyRun(codec, sidecar, ApplyStart(sidecar, target), records);
      if run.None? || !SawEnd(records) || run.value.deleted || !run.value.changed || run.value.begin.None? then None
      else Some(Applied(sidecar.(logicalSize := run.value.newSize, snapshotGuid := run.value.begin.value.toGuid),
                        Resized(run.value.data, run.value.newSize)))
  }

  // ---------- Unfolding runs ----------

  lemma ApplyRunNone(codec: Codec, sidecar: Sidecar, start: Applying)
    ensures ApplyRun(codec, sidecar, start, []) == Some(start)
  {
  }

  lemma ApplyRunStep(codec: Codec, sidecar: Sidecar, start: Applying, records: seq<Record>, n: nat)
    requires n < |records|
    ensures ApplyRun(codec, sidecar, start, records[..n + 1])
         == var before := ApplyRun(codec, sidecar, start, records[..n]);
            if before.None? then None else ApplyStep(codec, sidecar, before.value, records[n])
  {
    assert records[..n + 1][..n] == records[..n];
  }

  lemma {:induction false} ApplyRunFails(codec: Codec, sidecar: Sidecar, start: Applying, records: seq<Record>, n: nat)
    requires n <= |records| && ApplyRun(codec, sidecar, start, records[..n]).None?
    ensures ApplyRun(codec, sidecar, start, records).None?
    decreases |records| - n
  {
    if n < |records| {
      ApplyRunStep(codec, sidecar, start, records, n);
      ApplyRunFails(codec, sidecar, start, records, n + 1);
    } else {
      assert records[..n] == records;
    }
  }

  // ---------- The loop ----------

  method ApplyIncremental(codec: Codec, sidecar: Sidecar, target: SparseFile, records: seq<Record>)
    returns (ok: bool, updated: Sidecar, file: SparseFile)
    requires |target.data| <= U64_MAX
    ensures ok <==> Apply(codec, sidecar, target.data, records).Some?
    ensures ok ==> Apply(codec, sidecar, target.data, records) == Some(Applied(updated, file.data))
  {
    hide ApplyObject;
    hide ApplyWrite;
    hide ApplyEmbedded;
    hide ApplySpill;
    hide Covers;
    hide Zeroed;
    hide ApplyRun;
    updated := sidecar;
    file := new SparseFile();
    if |target.data| != sidecar.logicalSize {
      return false, updated, file;
    }
    ok := file.CopyFrom(target);
    var begin, newSize, changed, deleted, sawEnd := None, sidecar.logicalSize, false, false, false;
    ghost var start := ApplyStart(sidecar, target.data);
    ApplyRunNone(codec, sidecar, start);
    for n := 0 to |records|
      invariant fresh(file) && file != target
      invariant ApplyRun(codec, sidecar, start, records[..n]) == Some(Applying(begin, newSize, changed, deleted, file.data))
      invariant sawEnd <==> SawEnd(records[..n])
    {
      var record := records[n];
      ApplyRunStep(codec, sidecar, start, records, n);
      ok := true;
      match record.kind {
      case Begin(header) =>
        if header.headerType == DMU_SUBSTREAM {
          ok := begin.None? && header.fromGuid == sidecar.snapshotGuid;
          begin := if ok then Some(header) else begin;
        }
      case End => sawEnd := true;
      case _ => ok, newSize, changed, deleted := ApplyBody(codec, sidecar, begin, newSize, changed, deleted, record, file);
      }
      if !ok {
        ApplyRunFails(codec, sidecar, start, records, n + 1);
        return;
      }
      assert records[..n + 1] == records[..n] + [record];
    }
    assert records[..|records|] == records;
    ok := sawEnd && !deleted && changed && begin.Some?;
    if ok {
      file.SetLen(newSize);
      updated := sidecar.(logicalSize := newSize, snapshotGuid := begin.value.toGuid);
    }
  }

  method ApplyBody(codec: Codec, sidecar: Sidecar, ghost begin: Option<BeginRecord>, size: U64, wasChanged: bool,
                   wasDeleted: bool, record: Record, file: SparseFile)
    returns (ok: bool, newSize: U64, changed: bool, deleted: bool)
    requires !record.kind.Begin? && !record.kind.End?
    modifies file
    ensures var after := ApplyStep(codec, sidecar, Applying(begin, size, wasChanged, wasDeleted, old(file.data)), record);
            (ok <==> after.Some?) && (ok ==> after == Some(Applying(begin, newSize, changed, deleted, file.data)))
  {
    hide Extent;
    hide Zeroed;
    ok, newSize, changed, deleted := true, size, wasChanged, wasDeleted;
    match record.kind
    case Object(dnode) =>
      if dnode.objectId == sidecar.objectId {
        if dnode.bonusType != sidecar.bonusType {
          ok := false;
          return;
        }
        if sidecar.sizeBonusOffset.Some? {
          var stored := StoredSize(record.payload, sidecar.sizeBonusOffset.value);
          if stored.None? {
            ok := false;
            return;
          }
          newSize := stored.value;
        }
        changed := true;
      }
    case Write(write) =>
      if write.objectId == sidecar.objectId {
        var plaintext := codec.DecodeReplayWrite(write.compression, record.payload, write.logicalSize);
        if plaintext.None? {
          ok := false;
          return;
        }
        ok := file.WriteExtent(write.offset, plaintext.value);
        changed := true;
      }
    case WriteEmbedded(write) =>
      if write.objectId == sidecar.objectId {
        var plaintext := codec.DecodeEmbeddedWrite(write.compression, write.embeddedType, record.payload,
                                                   write.physicalSize, write.logicalSize);
        if plaintext.None? {
          ok := false;
          return;
        }
        ok := ReplaceFileExtent(file, write.offset, write.length, plaintext.value);
        changed := true;
      }
    case Spill(spill) =>
      if spill.objectId == sidecar.objectId {
        if sidecar.sizeSpillOffset.Some? {
          var plaintext := codec.DecodeReplayWrite(spill.compression, record.payload, spill.logicalSize);
          if plaintext.None? {
            ok := false;
            return;
          }
          var stored := StoredSize(plaintext.value, sidecar.sizeSpillOffset.value);
          if stored.None? {
            ok := false;
            return;
          }
          newSize := stored.value;
        }
        changed := true;
      }
    case Free(objectId, offset, length) =>
      if objectId == sidecar.objectId {
        file.ZeroRange(offset, length);
        changed := true;
      }
    case FreeObjects(first, count) =>
      if Covers(first, count, sidecar.objectId) {
        deleted := true;
      }
    case WriteByRef => ok := false;
    case ObjectRange(_) => ok := false;
    case Redact => ok := false;
  }
}
