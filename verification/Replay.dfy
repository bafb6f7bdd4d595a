/** Eager replay: the target object's file is rewritten record by record (src/operations.rs,
    `replay_object`, `replay_raw_object`, `replace_file_extent`). */
module Replay {
  import opened Bytes
  import opened Records
  import opened Sparse

  const MAX_REPLAY_BLOCK_SIZE: nat := 0x100_0000

  /** The chain of snapshot GUIDs to replay, and whether its target is a raw send. */
  datatype Plan = Plan(raw: bool, chain: seq<U64>)
  {
    predicate Selects(begin: BeginRecord) { begin.headerType == DMU_SUBSTREAM && begin.toGuid in chain }
  }

  datatype Eager = Eager(active: bool, key: Option<Key>, seen: set<U64>, live: bool, data: seq<Byte>)

  const EAGER_START: Eager := Eager(false, None, {}, false, [])

  // ---------- Specification ----------

  /** An embedded write zeroes its whole block length and then stores its shorter payload. */
  function Replaced(data: seq<Byte>, offset: nat, length: nat, payload: seq<Byte>): Option<seq<Byte>> {
    if length > MAX_REPLAY_BLOCK_SIZE || |payload| > length then None
    else Checked(Extent(Zeroed(data, offset, length), offset, payload))
  }

  function Checked(result: (bool, seq<Byte>)): Option<seq<Byte>> { if result.0 then Some(result.1) else None }

  function WithData(st: Eager, data: Option<seq<Byte>>): Option<Eager> {
    if data.None? then None else Some(st.(data := data.value))
  }

  function EagerBegin(codec: Codec, plan: Plan, st: Eager, begin: BeginRecord, payload: seq<Byte>): Option<Eager> {
    if !plan.Selects(begin) then Some(st.(active := false))
    else
      var entered := st.(active := true, seen := st.seen + {begin.toGuid});
      if !plan.raw then Some(entered)
      else
        var key := codec.unlock(payload);
        if key.None? then None else Some(entered.(key := key))
  }

  /** What a WRITE decodes to; the plan says whether its payload is taken as raw. */
  function WriteText(codec: Codec, plan: Plan, st: Eager, write: WriteRecord, payload: seq<Byte>): (text: Option<seq<Byte>>)
    ensures codec.Exact() && text.Some? ==> |text.value| == write.logicalSize
  {
    if !plan.raw then codec.DecodeReplayWrite(write.compression, payload, write.logicalSize)
    else if st.key.None? then None
    else codec.DecodeRawWrite(st.key.value, IsEncryptedObjectType(write.objectType), write.compression, write.crypt,
                              payload, write.logicalSize)
  }

  function EmbeddedText(codec: Codec, write: EmbeddedRecord, payload: seq<Byte>): (text: Option<seq<Byte>>)
    ensures codec.Exact() && text.Some? ==> |text.value| == write.logicalSize
  {
    codec.DecodeEmbeddedWrite(write.compression, write.embeddedType, payload, write.physicalSize, write.logicalSize)
  }

  function EagerWrite(codec: Codec, plan: Plan, st: Eager, write: WriteRecord, payload: seq<Byte>): Option<Eager> {
    var plaintext := WriteText(codec, plan, st, write, payload);
    if plaintext.None? then None
    else WithData(st, Checked(Extent(st.data, write.offset, plaintext.value)))
  }

  function EagerEmbedded(codec: Codec, plan: Plan, st: Eager, write: EmbeddedRecord, payload: seq<Byte>): Option<Eager> {
    if plan.raw then None
    else
      var plaintext := EmbeddedText(codec, write, payload);
      if plaintext.None? then None
      else WithData(st, Replaced(st.data, write.offset, write.length, plaintext.value))
  }

  /** One record; None is an error return. */
  function EagerStep(codec: Codec, plan: Plan, id: U64, st: Eager, record: Record): Option<Eager> {
    match record.kind
    case Begin(begin) => EagerBegin(codec, plan, st, begin, record.payload)
    case End => Some(st.(active := false))
    case _ => if st.active then EagerBody(codec, plan, id, st, record) else Some(st)
  }

  function EagerBody(codec: Codec, plan: Plan, id: U64, st: Eager, record: Record): Option<Eager> {
    match record.kind
    case Object(dnode) =>
      if dnode.objectId != id then Some(st)
      else Some(st.(data := if st.live then st.data else [], live := true))
    case Write(write) =>
      if write.objectId != id then Some(st) else EagerWrite(codec, plan, st, write, record.payload)
    case WriteEmbedded(write) =>
      if write.objectId != id then Some(st) else EagerEmbedded(codec, plan, st, write, record.payload)
    case Free(objectId, offset, length) =>
      if objectId != id then Some(st) else Some(st.(data := Zeroed(st.data, offset, length)))
    case FreeObjects(first, count) =>
      if Covers(first, count, id) then Some(st.(data := [], live := false)) else Some(st)
    case ObjectRange(_) => if plan.raw then Some(st) else None
    case WriteByRef => None
    case Redact => None
    case _ => Some(st)
  }

  function EagerRun(codec: Codec, plan: Plan, id: U64, records: seq<Record>): Option<Eager>
    decreases |records|
  {
    if records == [] then Some(EAGER_START)
    else
      var before := EagerRun(codec, plan, id, records[..|records| - 1]);
      if before.None? then None else EagerStep(codec, plan, id, before.value, records[|records| - 1])
  }

  predicate SawEnd(records: seq<Record>) { exists r :: r in records && r.kind.End? }

  /** The state a whole replay ends in, when it succeeds. */
  function EagerResult(codec: Codec, plan: Plan, id: U64, records: seq<Record>): Option<Eager> {
    var run := EagerRun(codec, plan, id, records);
    if run.Some? && SawEnd(records) && |run.value.seen| == |plan.chain| && (plan.raw ==> run.value.live) then run
    else None
  }

  /** The extracted file: the replayed bytes cut or zero-extended to the logical size. */
  function Extracted(codec: Codec, plan: Plan, id: U64, records: seq<Record>, logicalSize: nat): Option<seq<Byte>> {
    var result := EagerResult(codec, plan, id, records);
    if result.None? then None else Some(Resized(result.value.data, logicalSize))
  }

  lemma EagerRunStep(codec: Codec, plan: Plan, id: U64, records: seq<Record>, n: nat)
    requires n < |records|
    ensures EagerRun(codec, plan, id, records[..n + 1])
         == var before := EagerRun(codec, plan, id, records[..n]);
            if before.None? then None else EagerStep(codec, plan, id, before.value, records[n])
  {
    assert records[..n + 1][..n] == records[..n];
  }

  /** Once a record fails the whole run has failed. */
  lemma {:induction false} EagerRunFails(codec: Codec, plan: Plan, id: U64, records: seq<Record>, n: nat)
    requires n <= |records| && EagerRun(codec, plan, id, records[..n]).None?
    ensures EagerRun(codec, plan, id, records).None?
    decreases |records| - n
  {
    if n < |records| {
      EagerRunStep(codec, plan, id, records, n);
      EagerRunFails(codec, plan, id, records, n + 1);
    } else {
      assert records[..n] == records;
    }
  }

  // ---------- The loops ----------

  method ReplaceFileExtent(file: SparseFile, offset: U64, length: U64, payload: seq<Byte>) returns (ok: bool)
    modifies file
    ensures ok <==> Replaced(old(file.data), offset, length, payload).Some?
    ensures ok ==> file.data == Replaced(old(file.data), offset, length, payload).value
  {
    if length > MAX_REPLAY_BLOCK_SIZE {
      return false;
    }
    if |payload| > length {
      return false;
    }
    file.ZeroRange(offset, length);
    ok := file.WriteExtent(offset, payload);
  }

  /** The record loop of both replay functions; they differ only where `plan.raw` is consulted. */
  method ReplayObject(codec: Codec, plan: Plan, id: U64, records: seq<Record>, output: SparseFile) returns (ok: bool)
    requires output.data == []
    modifies output
    ensures ok <==> EagerResult(codec, plan, id, records).Some?
    ensures ok ==> output.data == EagerResult(codec, plan, id, records).value.data
  {
    hide EagerBody;
    var active, live, sawEnd := false, false, false;
    var key: Option<Key>, seen: set<U64> := None, {};
    var n := 0;
    while n < |records|
      invariant 0 <= n <= |records|
      invariant EagerRun(codec, plan, id, records[..n]) == Some(Eager(active, key, seen, live, output.data))
      invariant sawEnd <==> SawEnd(records[..n])
    {
      var record := records[n];
      ghost var before := Eager(active, key, seen, live, output.data);
      EagerRunStep(codec, plan, id, records, n);
      var good := true;
      match record.kind {
      case Begin(begin) =>
        active := plan.Selects(begin);
        if active {
          seen := seen + {begin.toGuid};
          if plan.raw {
            var unlocked := codec.unlock(record.payload);
            good := unlocked.Some?;
            key := if good then unlocked else key;
          }
        }
      case End =>
        active := false;
        sawEnd := true;
      case _ =>
        if active {
          good, live := ReplayBody(codec, plan, id, key, seen, live, record, output);
        }
      }
      if !good {
        EagerRunFails(codec, plan, id, records, n + 1);
        return false;
      }
      assert records[..n + 1] == records[..n] + [record];
      n := n + 1;
    }
    assert records[..n] == records;
    return sawEnd && |seen| == |plan.chain| && (plan.raw ==> live);
  }

  /** What one record inside a selected substream does to the file. */
  method ReplayBody(codec: Codec, plan: Plan, id: U64, key: Option<Key>, ghost seen: set<U64>, wasLive: bool,
                    record: Record, output: SparseFile)
    returns (ok: bool, live: bool)
    modifies output
    ensures var after := EagerBody(codec, plan, id, Eager(true, key, seen, wasLive, old(output.data)), record);
            (ok <==> after.Some?) && (ok ==> after == Some(Eager(true, key, seen, live, output.data)))
  {
    live, ok := wasLive, true;
    match record.kind
    case Object(dnode) =>
      if dnode.objectId == id {
        if !live {
          output.SetLen(0);
        }
        live := true;
      }
    case Write(write) =>
      if write.objectId == id {
        var plaintext;
        if !plan.raw {
          plaintext := codec.DecodeReplayWrite(write.compression, record.payload, write.logicalSize);
        } else if key.None? {
          return false, live;
        } else {
          plaintext := codec.DecodeRawWrite(key.value, IsEncryptedObjectType(write.objectType), write.compression,
                                            write.crypt, record.payload, write.logicalSize);
        }
        if plaintext.None? {
          return false, live;
        }
        ok := output.WriteExtent(write.offset, plaintext.value);
      }
    case WriteEmbedded(write) =>
      if write.objectId == id {
        if plan.raw {
          return false, live;
        }
        var plaintext := codec.DecodeEmbeddedWrite(write.compression, write.embeddedType, record.payload,
                                                   write.physicalSize, write.logicalSize);
        if plaintext.None? {
          return false, live;
        }
        ok := ReplaceFileExtent(output, write.offset, write.length, plaintext.value);
      }
    case Free(objectId, offset, length) =>
      if objectId == id {
        output.ZeroRange(offset, length);
      }
    case FreeObjects(first, count) =>
      if Covers(first, count, id) {
        output.SetLen(0);
        live := false;
      }
    case ObjectRange(_) => ok := plan.raw;
    case WriteByRef => ok := false;
    case Redact => ok := false;
    case _ =>
  }

  /** Replay into a fresh file and cut it to the logical size, as extraction does. */
  method Extract(codec: Codec, plan: Plan, id: U64, records: seq<Record>, logicalSize: nat) returns (ok: bool, file: SparseFile)
    ensures fresh(file)
    ensures ok <==> Extracted(codec, plan, id, records, logicalSize).Some?
    ensures ok ==> file.data == Extracted(codec, plan, id, records, logicalSize).value
  {
    file := new SparseFile();
    ok := ReplayObject(codec, plan, id, records, file);
    if ok {
      file.SetLen(logicalSize);
    }
  }
}
