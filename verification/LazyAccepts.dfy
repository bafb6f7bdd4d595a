/** When a send file that eager replay accepts is also accepted by the lazy index. */
module LazyAccepts {
  import opened Bytes
  import opened Records
  import opened Sparse
  import opened Segments
  import opened Replay
  import opened StreamImages
  import opened LazyEager

  // ---------- Acceptance ----------

  /** What the lazy side asks of a record beyond what the eager side does: a key for each raw substream, no embedded
      block in one, a live object before each WRITE, and freed ranges that fit 64 bits. */
  predicate Asked(codec: Codec, plan: Plan, id: U64, st: Lazy, r: Record) {
    match r.kind
    case Begin(begin) => plan.Selects(begin) && begin.raw ==> codec.unlock(r.payload).Some?
    case Write(write) => st.active && write.objectId == id ==> st.live
    case WriteEmbedded(write) => st.active && write.objectId == id ==> st.key.None? && RangeFits(write.offset, write.length)
    case Free(objectId, offset, length) => st.active && objectId == id ==> RangeFits(offset, length)
    case _ => true
  }

  predicate AskedAt(codec: Codec, plan: Plan, id: U64, records: seq<Record>, n: nat)
    requires n < |records|
  {
    var st := LazyRun(codec, plan, id, records[..n]);
    st.Some? ==> Asked(codec, plan, id, st.value, records[n])
  }

  predicate AllAsked(codec: Codec, plan: Plan, id: U64, records: seq<Record>) {
    forall n :: 0 <= n < |records| ==> AskedAt(codec, plan, id, records, n)
  }

  /** The parts of the two states that decide acceptance. */
  predicate Alike(eager: Eager, lazy: Lazy) { eager.active == lazy.active && eager.seen == lazy.seen && eager.live == lazy.live }

  lemma WriteFits(data: seq<Byte>, offset: U64, text: seq<Byte>)
    requires Extent(data, offset, text).0
    ensures |text| == 0 || offset + |text| <= U64_MAX
  {
    ExtentSucceeds(data, offset, text);
  }

  lemma StepAccepts(codec: Codec, plan: Plan, id: U64, eager: Eager, lazy: Lazy, r: Record)
    requires codec.Exact() && Alike(eager, lazy)
    requires EagerStep(codec, plan, id, eager, r).Some?
    ensures LazyStep(codec, plan, id, lazy, r).Some? <==> Asked(codec, plan, id, lazy, r)
    ensures Asked(codec, plan, id, lazy, r) ==> Alike(EagerStep(codec, plan, id, eager, r).value, LazyStep(codec, plan, id, lazy, r).value)
  {
    hide Extent;
    hide Zeroed;
    match r.kind
    case Write(write) =>
      if lazy.active && write.objectId == id { WriteAccepts(codec, plan, eager, lazy, r, write); }
    case WriteEmbedded(write) =>
      if lazy.active && write.objectId == id { EmbeddedAccepts(codec, plan, eager, lazy, r, write); }
    case _ =>
  }

  lemma WriteAccepts(codec: Codec, plan: Plan, eager: Eager, lazy: Lazy, r: Record, write: WriteRecord)
    requires codec.Exact() && EagerWrite(codec, plan, eager, write, r.payload).Some?
    ensures write.logicalSize == 0 || write.offset + write.logicalSize <= U64_MAX
  {
    hide Extent;
    hide WriteText;
    WriteFits(eager.data, write.offset, WriteText(codec, plan, eager, write, r.payload).value);
  }

  lemma EmbeddedAccepts(codec: Codec, plan: Plan, eager: Eager, lazy: Lazy, r: Record, write: EmbeddedRecord)
    requires codec.Exact() && EagerEmbedded(codec, plan, eager, write, r.payload).Some?
    ensures !plan.raw && write.logicalSize <= write.length
    ensures write.logicalSize == 0 || write.offset + write.logicalSize <= U64_MAX
  {
    hide Extent;
    hide Zeroed;
    hide EmbeddedText;
    var text := EmbeddedText(codec, write, r.payload).value;
    WriteFits(Zeroed(eager.data, write.offset, write.length), write.offset, text);
  }

  lemma AskedPrefix(codec: Codec, plan: Plan, id: U64, records: seq<Record>)
    requires records != []
    ensures AllAsked(codec, plan, id, records)
       <==> AllAsked(codec, plan, id, records[..|records| - 1]) && AskedAt(codec, plan, id, records, |records| - 1)
  {
    hide LazyRun;
    hide Asked;
    var k := |records| - 1;
    var front := records[..k];
    forall n | 0 <= n < k
      ensures AskedAt(codec, plan, id, front, n) <==> AskedAt(codec, plan, id, records, n)
    {
      assert front[..n] == records[..n];
    }
  }

  lemma {:induction false} RunAccepts(codec: Codec, plan: Plan, id: U64, records: seq<Record>)
    requires codec.Exact() && EagerRun(codec, plan, id, records).Some?
    ensures LazyRun(codec, plan, id, records).Some? <==> AllAsked(codec, plan, id, records)
    ensures LazyRun(codec, plan, id, records).Some? ==>
              Alike(EagerRun(codec, plan, id, records).value, LazyRun(codec, plan, id, records).value)
    decreases |records|
  {
    hide EagerStep;
    hide LazyStep;
    hide Asked;
    hide AllAsked;
    if records == [] {
      NothingAsked(codec, plan, id);
    } else {
      var n := |records| - 1;
      RunAccepts(codec, plan, id, records[..n]);
      AskedPrefix(codec, plan, id, records);
      if LazyRun(codec, plan, id, records[..n]).Some? {
        StepAccepts(codec, plan, id, EagerRun(codec, plan, id, records[..n]).value, LazyRun(codec, plan, id, records[..n]).value, records[n]);
      }
    }
  }

  lemma NothingAsked(codec: Codec, plan: Plan, id: U64)
    ensures AllAsked(codec, plan, id, [])
  {
  }

  /** A send file that extraction accepts opens as an image exactly when every raw substream unlocks and holds no embedded
      block of the target, every WRITE follows an OBJECT, every freed range fits 64 bits, and the object is live at the
      end. */
  lemma OpensIff(codec: Codec, plan: Plan, id: U64, records: seq<Record>)
    requires codec.Exact() && EagerResult(codec, plan, id, records).Some?
    ensures LazyResult(codec, plan, id, records).Some?
       <==> AllAsked(codec, plan, id, records) && EagerResult(codec, plan, id, records).value.live
  {
    hide LazyRun;
    hide EagerRun;
    hide AllAsked;
    RunAccepts(codec, plan, id, records);
  }
}
