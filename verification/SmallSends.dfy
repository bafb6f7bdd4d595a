/** Small sends, as drafts, and how replays run over the records they are read back as. */
module SmallSends {
  import opened Bytes
  import opened Records
  import opened Replay
  import opened Sparse
  import opened StreamImages
  import opened SendWriter
  import opened SendFile
  import opened PlannedReplay
  import opened Incremental
  import Framing
  import Stream

  type Eight = s: seq<Byte> | |s| == 8 witness Zeros(8)

  function Opening(guid: U64, from: U64, raw: bool): Draft { Draft(Begin(BeginRecord(DMU_SUBSTREAM, guid, from, raw)), []) }

  /** The target's OBJECT record, whose bonus starts with a size below 256. */
  function Typed(objectType: U32, size: Byte): Draft {
    Draft(Object(ObjectRecord(1, objectType, 44, 512, 8, 0, 0, 1, 0, 0, 1, 1, 0)), [size, 0, 0, 0, 0, 0, 0, 0])
  }

  lemma TypedSize(objectType: U32, size: Byte)
    ensures StoredSize(Typed(objectType, size).payload, 0) == Some(size)
  {
    var bytes := Typed(objectType, size).payload;
    assert bytes[0..8] == bytes && bytes[..4] == [size, 0, 0, 0] && bytes[4..] == [0, 0, 0, 0];
  }

  /** Eight uncompressed bytes at the start of the target. */
  function Writing(bytes: Eight): Draft {
    Draft(Write(WriteRecord(1, 19, 0, 8, 0, 0, 0, Crypt(Zeros(8), Zeros(12), Zeros(16)))), bytes)
  }

  const CLOSING: Draft := Draft(End, [])

  /** A byte in front of zeros. */
  function First(b: Byte): Eight { [b, 0, 0, 0, 0, 0, 0, 0] }

  lemma SmallEncodes(guid: U64, from: U64, raw: bool, objectType: U32, size: Byte, bytes: Eight)
    ensures Encodable(Opening(guid, from, raw)) && Encodable(Typed(objectType, size)) && Encodable(Writing(bytes))
    ensures Encodable(CLOSING)
    ensures EventFor(Typed(objectType, size)) == Stream.Body && EventFor(Writing(bytes)) == Stream.Body
  {
  }

  /** The record a draft becomes, wherever it lies. */
  function RecordOf(d: Draft, offset: nat): Record { Record(offset, d.kind, d.payload) }

  // ---------- Runs ----------

  lemma StampedStep(drafts: seq<Draft>, n: nat)
    requires AllEncodable(drafts) && n < |drafts|
    ensures AllEncodable(drafts[..n]) && AllEncodable(drafts[..n + 1]) && Encodable(drafts[n])
    ensures Stamped(drafts[..n + 1]) == Stamped(drafts[..n]) + [RecordOf(drafts[n], |FileOf(drafts[..n])|)]
    ensures var records := Stamped(drafts[..n + 1]);
            records != [] && records[..|records| - 1] == Stamped(drafts[..n])
            && records[|records| - 1] == RecordOf(drafts[n], |FileOf(drafts[..n])|)
  {
    hide HeaderFor;
    hide Encodable;
    hide FileOf;
    hide Stamped;
    FrontEncodable(drafts, n);
    FrontEncodable(drafts, n + 1);
    assert drafts[..n] + [drafts[n]] == drafts[..n + 1];
    WrittenSnoc(drafts[..n], drafts[n]);
  }

  lemma {:induction false} StampedPrefix(drafts: seq<Draft>, n: nat)
    requires AllEncodable(drafts) && n <= |drafts|
    ensures AllEncodable(drafts[..n]) && Stamped(drafts)[..n] == Stamped(drafts[..n])
    decreases |drafts|
  {
    hide Encodable;
    hide AllEncodable;
    hide FileOf;
    hide Stamped;
    FrontEncodable(drafts, n);
    if n < |drafts| {
      var k := |drafts| - 1;
      StampedStep(drafts, k);
      StampedPrefix(drafts[..k], n);
      assert drafts[..k + 1] == drafts && drafts[..k][..n] == drafts[..n];
    } else {
      assert drafts[..n] == drafts;
    }
  }

  lemma EagerStepsTo(codec: Codec, plan: Plan, id: U64, drafts: seq<Draft>, n: nat)
    requires AllEncodable(drafts) && n < |drafts|
    ensures AllEncodable(drafts[..n]) && AllEncodable(drafts[..n + 1])
    ensures EagerRun(codec, plan, id, Stamped(drafts[..n + 1]))
         == var before := EagerRun(codec, plan, id, Stamped(drafts[..n]));
            if before.None? then None else EagerStep(codec, plan, id, before.value, RecordOf(drafts[n], 0))
  {
    hide EagerStep;
    hide Stamped;
    hide Encodable;
    StampedStep(drafts, n);
    OffsetsDoNotMatter(codec, plan, id, drafts[n], |FileOf(drafts[..n])|);
  }

  lemma OffsetsDoNotMatter(codec: Codec, plan: Plan, id: U64, d: Draft, offset: nat)
    ensures forall st :: EagerStep(codec, plan, id, st, RecordOf(d, offset)) == EagerStep(codec, plan, id, st, RecordOf(d, 0))
  {
    hide WriteText;
    hide EmbeddedText;
    hide Replaced;
  }

  lemma LazyStepsTo(codec: Codec, plan: Plan, id: U64, drafts: seq<Draft>, n: nat)
    requires AllEncodable(drafts) && n < |drafts|
    ensures AllEncodable(drafts[..n]) && AllEncodable(drafts[..n + 1])
    ensures LazyRun(codec, plan, id, Stamped(drafts[..n + 1]))
         == var before := LazyRun(codec, plan, id, Stamped(drafts[..n]));
            if before.None? then None
            else LazyStep(codec, plan, id, before.value, RecordOf(drafts[n], |FileOf(drafts[..n])|))
  {
    hide LazyStep;
    hide Stamped;
    hide Encodable;
    StampedStep(drafts, n);
  }

  lemma ApplyStepsTo(codec: Codec, sidecar: Sidecar, start: Applying, drafts: seq<Draft>, n: nat)
    requires AllEncodable(drafts) && n < |drafts|
    ensures AllEncodable(drafts[..n]) && AllEncodable(drafts[..n + 1])
    ensures ApplyRun(codec, sidecar, start, Stamped(drafts[..n + 1]))
         == var before := ApplyRun(codec, sidecar, start, Stamped(drafts[..n]));
            if before.None? then None else ApplyStep(codec, sidecar, before.value, RecordOf(drafts[n], 0))
  {
    hide ApplyStep;
    hide Stamped;
    hide Encodable;
    StampedStep(drafts, n);
    OffsetsDoNotMatterToApply(codec, sidecar, drafts[n], |FileOf(drafts[..n])|);
  }

  lemma OffsetsDoNotMatterToApply(codec: Codec, sidecar: Sidecar, d: Draft, offset: nat)
    ensures forall st :: ApplyStep(codec, sidecar, st, RecordOf(d, offset)) == ApplyStep(codec, sidecar, st, RecordOf(d, 0))
  {
    hide Replaced;
  }

  lemma HeadersStepTo(drafts: seq<Draft>, n: nat)
    requires AllEncodable(drafts) && n < |drafts|
    ensures AllEncodable(drafts[..n]) && AllEncodable(drafts[..n + 1])
    ensures Headers(Stamped(drafts[..n + 1]))
         == Headers(Stamped(drafts[..n])) + if IsHeader(RecordOf(drafts[n], 0)) then [drafts[n].kind.begin] else []
  {
    hide Stamped;
    hide Encodable;
    StampedStep(drafts, n);
  }

  lemma NothingRuns(codec: Codec, plan: Plan, id: U64)
    ensures AllEncodable([]) && EagerRun(codec, plan, id, Stamped([])) == Some(EAGER_START)
    ensures LazyRun(codec, plan, id, Stamped([])) == Some(LAZY_START) && Headers(Stamped([])) == []
  {
  }

  /** Storing eight bytes in an empty live object. */
  lemma StoresEight(codec: Codec, plan: Plan, seen: set<U64>, bytes: Eight)
    requires !plan.raw && bytes[0] != 0
    ensures EagerStep(codec, plan, 1, Eager(true, None, seen, true, []), RecordOf(Writing(bytes), 0))
         == Some(Eager(true, None, seen, true, bytes))
  {
    hide Extent;
    FirstExtent(bytes);
  }
}
