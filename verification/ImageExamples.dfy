/** Send files on which extraction and the image both succeed and differ. */
module ImageExamples {
  import opened Bytes
  import opened Records
  import opened Sparse
  import opened Segments
  import opened Replay
  import opened StreamImages
  import opened LazyEager
  import opened Planning
  import opened PlannedReplay
  import opened SendWriter
  import opened SendFile
  import opened SmallSends

  // ---------- A type change ----------

  /** Eight bytes are written, then the live object gets a new type without a FREEOBJECTS. */
  function Retyped(): seq<Draft> { [Opening(7, 0, false), Typed(19, 8), Writing(First(5)), Typed(20, 8), CLOSING] }

  lemma RetypedIsSendable()
    ensures Sendable(Retyped())
  {
    SmallEncodes(7, 0, false, 19, 8, First(5));
    SmallEncodes(7, 0, false, 20, 8, First(5));
    var body := [Typed(19, 8), Writing(First(5)), Typed(20, 8)];
    SubstreamIsSendable(Opening(7, 0, false), body);
    assert WithEnds(Opening(7, 0, false), body) == Retyped();
  }

  const RETYPED_PLAN: Plan := Plan(false, [7])

  lemma RetypedOpens(codec: Codec)
    ensures AllEncodable(Retyped())
    ensures EagerRun(codec, RETYPED_PLAN, 1, Stamped(Retyped()[..2])) == Some(Eager(true, None, {7}, true, []))
    ensures LazyRun(codec, RETYPED_PLAN, 1, Stamped(Retyped()[..2]))
         == Some(Lazy(true, None, {7}, Some(19), true, map[], [], 1))
  {
    hide EagerRun;
    hide LazyRun;
    hide Stamped;
    hide Encodable;
    RetypedEncodes();
    assert Retyped()[..0] == [];
    NothingRuns(codec, RETYPED_PLAN, 1);
    EagerStepsTo(codec, RETYPED_PLAN, 1, Retyped(), 0);
    EagerStepsTo(codec, RETYPED_PLAN, 1, Retyped(), 1);
    LazyStepsTo(codec, RETYPED_PLAN, 1, Retyped(), 0);
    LazyStepsTo(codec, RETYPED_PLAN, 1, Retyped(), 1);
    assert EAGER_START.seen + {7} == {7} && LAZY_START.seen + {7} == {7};
  }

  lemma RetypedEncodes()
    ensures AllEncodable(Retyped())
  {
    RetypedIsSendable();
    hide Retyped;
  }

  lemma RetypedEager(codec: Codec)
    ensures AllEncodable(Retyped())
    ensures EagerRun(codec, RETYPED_PLAN, 1, Stamped(Retyped())) == Some(Eager(false, None, {7}, true, First(5)))
  {
    hide EagerRun;
    hide LazyRun;
    hide Stamped;
    hide Encodable;
    hide WriteText;
    RetypedOpens(codec);
    StoresEight(codec, RETYPED_PLAN, {7}, First(5));
    EagerStepsTo(codec, RETYPED_PLAN, 1, Retyped(), 2);
    EagerStepsTo(codec, RETYPED_PLAN, 1, Retyped(), 3);
    EagerStepsTo(codec, RETYPED_PLAN, 1, Retyped(), 4);
    assert Retyped()[..5] == Retyped();
  }

  lemma RetypedLazy(codec: Codec)
    ensures AllEncodable(Retyped())
    ensures var run := LazyRun(codec, RETYPED_PLAN, 1, Stamped(Retyped()[..3]));
            run.Some? && ChangesType(1, run.value, RecordOf(Retyped()[3], 0))
    ensures var run := LazyRun(codec, RETYPED_PLAN, 1, Stamped(Retyped()));
            run.Some? && run.value.live && run.value.seen == {7} && run.value.owners == map[]
  {
    hide EagerRun;
    hide LazyRun;
    hide Stamped;
    hide Encodable;
    RetypedOpens(codec);
    LazyStepsTo(codec, RETYPED_PLAN, 1, Retyped(), 2);
    LazyStepsTo(codec, RETYPED_PLAN, 1, Retyped(), 3);
    LazyStepsTo(codec, RETYPED_PLAN, 1, Retyped(), 4);
    assert Retyped()[..5] == Retyped();
  }

  lemma RetypedPlan()
    ensures AllEncodable(Retyped()) && Headers(Stamped(Retyped())) == [BeginRecord(DMU_SUBSTREAM, 7, 0, false)]
    ensures PlanOf([BeginRecord(DMU_SUBSTREAM, 7, 0, false)], 0) == Some(RETYPED_PLAN)
  {
    hide Headers;
    hide Stamped;
    hide Encodable;
    RetypedEncodes();
    assert Retyped()[..0] == [];
    NothingRuns(Codec((c, p, n) => None, p => None, (k, c, p) => None, (k, p, m) => false, p => 0), RETYPED_PLAN, 1);
    HeadersStepTo(Retyped(), 0);
    HeadersStepTo(Retyped(), 1);
    HeadersStepTo(Retyped(), 2);
    HeadersStepTo(Retyped(), 3);
    HeadersStepTo(Retyped(), 4);
    assert Retyped()[..5] == Retyped();
    var headers := [BeginRecord(DMU_SUBSTREAM, 7, 0, false)];
    assert Links(headers, 0) == Some([] + [0]) && [] + [0] == [0];
    assert Guids(headers, [0]) == [7];
  }

  /** A send file, planned from its own header, on which extraction keeps eight bytes and the image reads zeros. */
  lemma TypeChangeDiffers(codec: Codec)
    ensures AllEncodable(Retyped())
    ensures var file, records := FileOf(Retyped()), Stamped(Retyped());
            && ReadsTo(file, records) && |Headers(records)| == 1 && PlanOf(Headers(records), 0) == Some(RETYPED_PLAN)
            && Extracted(codec, RETYPED_PLAN, 1, records, 8) == Some(First(5))
            && LazyResult(codec, RETYPED_PLAN, 1, records).Some?
            && var lazy := LazyResult(codec, RETYPED_PLAN, 1, records).value;
               ImageByte(codec, file, lazy.keys, lazy.owners, 0) == 0 && !TypeStable(codec, RETYPED_PLAN, 1, records)
  {
    hide EagerRun;
    hide LazyRun;
    hide Headers;
    hide PlanOf;
    hide FileOf;
    hide ReadsTo;
    hide Sendable;
    hide Encodable;
    RetypedIsSendable();
    WrittenIsRead(Retyped());
    RetypedEager(codec);
    RetypedLazy(codec);
    RetypedPlan();
    var records := Stamped(Retyped());
    assert records[4].kind.End?;
    assert Resized(First(5), 8) == First(5);
    StampedStep(Retyped(), 3);
    StampedPrefix(Retyped(), 3);
  }

  // ---------- A raw substream under a plain target ----------

  /** A full raw send with one block, and a plain incremental to the target snapshot. */
  function Mixing(): (drafts: seq<Draft>)
    ensures |drafts| == 6
  {
    [Opening(7, 0, true), Typed(19, 8), Writing(First(5)), CLOSING, Opening(8, 7, false), CLOSING]
  }

  const MIXING_PLAN: Plan := Plan(false, [7, 8])

  const SIXES: Eight := [6, 6, 6, 6, 6, 6, 6, 6]

  /** A codec whose cipher turns every block into sixes. */
  function SixCodec(): Codec {
    Codec((c: int, p: seq<Byte>, n: nat) => None, (p: seq<Byte>) => Some(0), (k: Key, c: Crypt, p: seq<Byte>) => Some(SIXES),
          (k: Key, p: seq<Byte>, m: seq<Byte>) => true, (p: seq<Byte>) => 0)
  }

  lemma MixingIsSendable()
    ensures Sendable(Mixing()) && AllEncodable(Mixing())
  {
    hide Sendable;
    SmallEncodes(7, 0, true, 19, 8, First(5));
    SmallEncodes(8, 7, false, 19, 8, First(5));
    var first, second := WithEnds(Opening(7, 0, true), [Typed(19, 8), Writing(First(5))]), WithEnds(Opening(8, 7, false), []);
    SubstreamIsSendable(Opening(7, 0, true), [Typed(19, 8), Writing(First(5))]);
    SubstreamIsSendable(Opening(8, 7, false), []);
    SendsJoin(first, second);
    assert first + second == Mixing();
    SendableEncodes(Mixing());
  }

  lemma MixingPlan()
    ensures AllEncodable(Mixing())
    ensures Headers(Stamped(Mixing())) == [BeginRecord(DMU_SUBSTREAM, 7, 0, true), BeginRecord(DMU_SUBSTREAM, 8, 7, false)]
    ensures PlanOf([BeginRecord(DMU_SUBSTREAM, 7, 0, true), BeginRecord(DMU_SUBSTREAM, 8, 7, false)], 1) == Some(MIXING_PLAN)
  {
    hide Headers;
    hide Stamped;
    hide Encodable;
    hide Sendable;
    MixingIsSendable();
    assert Mixing()[..0] == [];
    NothingRuns(SixCodec(), MIXING_PLAN, 1);
    HeadersStepTo(Mixing(), 0);
    HeadersStepTo(Mixing(), 1);
    HeadersStepTo(Mixing(), 2);
    HeadersStepTo(Mixing(), 3);
    HeadersStepTo(Mixing(), 4);
    HeadersStepTo(Mixing(), 5);
    assert Mixing()[..6] == Mixing();
    MixingLinks();
  }

  lemma MixingLinks()
    ensures PlanOf([BeginRecord(DMU_SUBSTREAM, 7, 0, true), BeginRecord(DMU_SUBSTREAM, 8, 7, false)], 1) == Some(MIXING_PLAN)
  {
    var headers := [BeginRecord(DMU_SUBSTREAM, 7, 0, true), BeginRecord(DMU_SUBSTREAM, 8, 7, false)];
    assert FindLast(headers, 1, 7) == Some(0);
    var none: seq<nat> := [];
    assert LinksBelow(headers, 1, 7) == Some(none + [0]) && none + [0] == [0];
    assert Links(headers, 1) == Some([0] + [1]) && [0] + [1] == [0, 1];
    assert Guids(headers, [0, 1]) == [7, 8];
  }

  lemma MixingOpens(codec: Codec)
    requires codec == SixCodec()
    ensures AllEncodable(Mixing())
    ensures EagerRun(codec, MIXING_PLAN, 1, Stamped(Mixing()[..2])) == Some(Eager(true, None, {7}, true, []))
    ensures LazyRun(codec, MIXING_PLAN, 1, Stamped(Mixing()[..2]))
         == Some(Lazy(true, Some(0), {7}, Some(19), true, map[], [0], 1))
  {
    hide EagerRun;
    hide LazyRun;
    hide Stamped;
    hide Encodable;
    hide Sendable;
    MixingIsSendable();
    assert Mixing()[..0] == [];
    NothingRuns(codec, MIXING_PLAN, 1);
    EagerStepsTo(codec, MIXING_PLAN, 1, Mixing(), 0);
    EagerStepsTo(codec, MIXING_PLAN, 1, Mixing(), 1);
    LazyStepsTo(codec, MIXING_PLAN, 1, Mixing(), 0);
    LazyStepsTo(codec, MIXING_PLAN, 1, Mixing(), 1);
    assert EAGER_START.seen + {7} == {7} && LAZY_START.seen + {7} == {7} && LAZY_START.keys + [0] == [0];
  }

  lemma MixingEager(codec: Codec)
    requires codec == SixCodec()
    ensures AllEncodable(Mixing())
    ensures EagerRun(codec, MIXING_PLAN, 1, Stamped(Mixing())) == Some(Eager(false, None, {7, 8}, true, First(5)))
  {
    hide EagerRun;
    hide LazyRun;
    hide Stamped;
    hide Encodable;
    hide WriteText;
    MixingOpens(codec);
    StoresEight(codec, MIXING_PLAN, {7}, First(5));
    EagerStepsTo(codec, MIXING_PLAN, 1, Mixing(), 2);
    EagerStepsTo(codec, MIXING_PLAN, 1, Mixing(), 3);
    EagerStepsTo(codec, MIXING_PLAN, 1, Mixing(), 4);
    EagerStepsTo(codec, MIXING_PLAN, 1, Mixing(), 5);
    assert Mixing()[..6] == Mixing() && {7 as U64} + {8} == {7, 8};
  }

  function MixedBlock(offset: nat): BlockDescriptor {
    BlockDescriptor(1, offset + RECORD_SIZE, 8, 0, 8, Raw(0, true, 0, Crypt(Zeros(8), Zeros(12), Zeros(16))))
  }

  lemma PlacesEight(codec: Codec, offset: nat)
    requires codec == SixCodec()
    ensures var st := LazyStep(codec, MIXING_PLAN, 1, Lazy(true, Some(0), {7}, Some(19), true, map[], [0], 1),
                               RecordOf(Writing(First(5)), offset));
            st.Some? && st.value.live && st.value.seen == {7} && st.value.keys == [0] && 0 in st.value.owners
            && st.value.owners[0] == Place(MixedBlock(offset), 0)
  {
    var st := Lazy(true, Some(0), {7}, Some(19), true, map[], [0], 1);
    assert InSpan(0, 0, 8) && IsEncryptedObjectType(19);
    assert WriteBlock(codec, st, RecordOf(Writing(First(5)), offset), Writing(First(5)).kind.write) == MixedBlock(offset);
  }

  lemma MixingLazy(codec: Codec)
    requires codec == SixCodec()
    ensures AllEncodable(Mixing()) && AllEncodable(Mixing()[..2])
    ensures var run := LazyRun(codec, MIXING_PLAN, 1, Stamped(Mixing()));
            run.Some? && run.value.live && run.value.seen == {7, 8} && run.value.keys == [0] && 0 in run.value.owners
            && run.value.owners[0] == Place(MixedBlock(|FileOf(Mixing()[..2])|), 0)
  {
    hide EagerRun;
    hide LazyRun;
    hide Stamped;
    hide Encodable;
    hide FileOf;
    hide Inserted;
    MixingOpens(codec);
    LazyStepsTo(codec, MIXING_PLAN, 1, Mixing(), 2);
    PlacesEight(codec, |FileOf(Mixing()[..2])|);
    LazyStepsTo(codec, MIXING_PLAN, 1, Mixing(), 3);
    LazyStepsTo(codec, MIXING_PLAN, 1, Mixing(), 4);
    LazyStepsTo(codec, MIXING_PLAN, 1, Mixing(), 5);
    assert Mixing()[..6] == Mixing() && {7 as U64} + {8} == {7, 8};
  }

  /** The block decodes to sixes. */
  lemma MixedDecodes(codec: Codec, file: seq<Byte>, offset: nat)
    requires codec == SixCodec() && InFile(file, RecordOf(Writing(First(5)), offset))
    ensures Decoded(codec, file, [0], MixedBlock(offset)) == Some(SIXES)
  {
  }

  /** The third record lies in the file that was written. */
  lemma MixingLies()
    ensures AllEncodable(Mixing()) && AllEncodable(Mixing()[..2]) && ReadsTo(FileOf(Mixing()), Stamped(Mixing()))
    ensures InFile(FileOf(Mixing()), RecordOf(Writing(First(5)), |FileOf(Mixing()[..2])|))
  {
    hide FileOf;
    hide ReadsTo;
    hide Sendable;
    hide Encodable;
    hide Stamped;
    hide InFile;
    MixingIsSendable();
    WrittenIsRead(Mixing());
    var records := Stamped(Mixing());
    ReadRecordsAreIndexed(FileOf(Mixing()), records);
    StampedStep(Mixing(), 2);
    StampedPrefix(Mixing(), 3);
    assert records[..3][2] == RecordOf(Mixing()[2], |FileOf(Mixing()[..2])|) && records[2] in records;
  }

  lemma MixingExtracts(codec: Codec)
    requires codec == SixCodec()
    ensures AllEncodable(Mixing())
    ensures Extracted(codec, MIXING_PLAN, 1, Stamped(Mixing()), 8) == Some(First(5)) && SawEnd(Stamped(Mixing()))
    ensures !UniformRaw(MIXING_PLAN, Stamped(Mixing()))
  {
    hide EagerRun;
    hide FileOf;
    hide Encodable;
    MixingEager(codec);
    var records := Stamped(Mixing());
    assert records[3].kind.End? && records[0].kind == Opening(7, 0, true).kind && records[0] in records;
    assert Resized(First(5), 8) == First(5);
  }

  /** A send file, planned from its own headers, whose target is plain and whose full send is raw: both sides accept it,
      extraction stores the payload as it is and the image decrypts it. */
  lemma MixedRawDiffers(codec: Codec)
    requires codec == SixCodec()
    ensures AllEncodable(Mixing()) && codec.Exact()
    ensures var file, records := FileOf(Mixing()), Stamped(Mixing());
            && ReadsTo(file, records) && |Headers(records)| == 2 && PlanOf(Headers(records), 1) == Some(MIXING_PLAN)
            && Extracted(codec, MIXING_PLAN, 1, records, 8) == Some(First(5))
            && LazyResult(codec, MIXING_PLAN, 1, records).Some?
            && var lazy := LazyResult(codec, MIXING_PLAN, 1, records).value;
               ImageByte(codec, file, lazy.keys, lazy.owners, 0) == 6 && !UniformRaw(MIXING_PLAN, records)
  {
    hide EagerRun;
    hide LazyRun;
    hide Headers;
    hide PlanOf;
    hide FileOf;
    hide Stamped;
    hide Mixing;
    hide ReadsTo;
    hide Encodable;
    hide AllEncodable;
    hide Decoded;
    hide InFile;
    hide Extracted;
    hide UniformRaw;
    hide SawEnd;
    MixingLies();
    MixingExtracts(codec);
    MixingLazy(codec);
    MixingPlan();
    MixedDecodes(codec, FileOf(Mixing()), |FileOf(Mixing()[..2])|);
  }
}
