/** Send files on which apply and extraction from the whole history both succeed and differ. */
module HistoryExamples {
  import opened Bytes
  import opened Records
  import opened Sparse
  import opened Replay
  import opened Incremental
  import opened History
  import opened Planning
  import opened PlannedReplay
  import opened SendWriter
  import opened SendFile
  import opened SmallSends
  import Framing
  import Stream

  const PLAN: Plan := Plan(false, [7])

  const LONGER_PLAN: Plan := Plan(false, [7, 8])

  /** The target's state after extracting one byte of it. */
  const SIDECAR: Sidecar := Sidecar(1, 44, 1, Some(0), None, 7)

  // ---------- The base ----------

  /** A full send that writes eight bytes of an object of size one. */
  function BaseOf(bytes: Eight): (drafts: seq<Draft>)
    ensures |drafts| == 4
  {
    [Opening(7, 0, false), Typed(19, 1), Writing(bytes), CLOSING]
  }

  lemma BaseIsSendable(bytes: Eight)
    ensures Sendable(BaseOf(bytes)) && AllEncodable(BaseOf(bytes))
  {
    hide Sendable;
    SmallEncodes(7, 0, false, 19, 1, bytes);
    SubstreamIsSendable(Opening(7, 0, false), [Typed(19, 1), Writing(bytes)]);
    assert WithEnds(Opening(7, 0, false), [Typed(19, 1), Writing(bytes)]) == BaseOf(bytes);
    SendableEncodes(BaseOf(bytes));
  }

  /** A list of drafts behind the base. */
  function Behind(bytes: Eight, more: seq<Draft>): (drafts: seq<Draft>)
    ensures |drafts| == 4 + |more| && drafts[..4] == BaseOf(bytes)
  {
    BaseOf(bytes) + more
  }

  lemma BaseRuns(codec: Codec, plan: Plan, bytes: Eight, more: seq<Draft>)
    requires AllEncodable(Behind(bytes, more)) && bytes[0] != 0 && !plan.raw && 7 in plan.chain
    ensures AllEncodable(Behind(bytes, more)[..4])
    ensures EagerRun(codec, plan, 1, Stamped(Behind(bytes, more)[..4])) == Some(Eager(false, None, {7}, true, bytes))
  {
    hide EagerRun;
    hide Stamped;
    hide Encodable;
    hide WriteText;
    var drafts := Behind(bytes, more);
    assert drafts[..0] == [];
    NothingRuns(codec, plan, 1);
    StoresEight(codec, plan, {7}, bytes);
    EagerStepsTo(codec, plan, 1, drafts, 0);
    EagerStepsTo(codec, plan, 1, drafts, 1);
    EagerStepsTo(codec, plan, 1, drafts, 2);
    EagerStepsTo(codec, plan, 1, drafts, 3);
    assert EAGER_START.seen + {7} == {7};
  }

  /** Extracting one byte from the base alone. */
  lemma BaseExtracts(codec: Codec, bytes: Eight)
    requires bytes[0] != 0
    ensures AllEncodable(BaseOf(bytes))
    ensures Extracted(codec, PLAN, 1, Stamped(BaseOf(bytes)), 1) == Some([bytes[0]])
  {
    hide EagerRun;
    hide Encodable;
    BaseIsSendable(bytes);
    BaseRuns(codec, PLAN, bytes, []);
    assert Behind(bytes, []) == BaseOf(bytes) == Behind(bytes, [])[..4];
    assert Stamped(BaseOf(bytes))[3].kind.End?;
    assert Resized(bytes, 1) == [bytes[0]] && |{7 as U64}| == 1;
  }

  // ---------- A byte that resurfaces ----------

  /** An increment that only grows the object to two bytes. */
  function Growing(): (drafts: seq<Draft>)
    ensures |drafts| == 3
  {
    [Opening(8, 7, false), Typed(19, 2), CLOSING]
  }

  const FIVE_SIX: Eight := [5, 6, 0, 0, 0, 0, 0, 0]

  lemma GrowingIsSendable()
    ensures Sendable(Growing()) && AllEncodable(Growing())
    ensures Sendable(Behind(FIVE_SIX, Growing())) && AllEncodable(Behind(FIVE_SIX, Growing()))
  {
    hide Sendable;
    SmallEncodes(8, 7, false, 19, 2, FIVE_SIX);
    SubstreamIsSendable(Opening(8, 7, false), [Typed(19, 2)]);
    assert WithEnds(Opening(8, 7, false), [Typed(19, 2)]) == Growing();
    BaseIsSendable(FIVE_SIX);
    SendsJoin(BaseOf(FIVE_SIX), Growing());
    SendableEncodes(Growing());
    SendableEncodes(Behind(FIVE_SIX, Growing()));
  }

  /** The apply state after a BEGIN, and after the OBJECT that sets the size. */
  lemma BeginSteps(codec: Codec, st: Applying)
    requires st.begin.None?
    ensures ApplyStep(codec, SIDECAR, st, RecordOf(Opening(8, 7, false), 0))
         == Some(st.(begin := Some(BeginRecord(DMU_SUBSTREAM, 8, 7, false))))
    ensures ApplyStep(codec, SIDECAR, st, RecordOf(CLOSING, 0)) == Some(st)
  {
  }

  lemma SizeSteps(codec: Codec, st: Applying, size: Byte)
    ensures ApplyStep(codec, SIDECAR, st, RecordOf(Typed(19, size), 0)) == Some(st.(newSize := size, changed := true))
    ensures ApplyStep(codec, SIDECAR, st, RecordOf(CLOSING, 0)) == Some(st)
  {
    TypedSize(19, size);
  }

  /** A BEGIN, an OBJECT and an END at some place of a list of drafts. */
  lemma SubstreamApplies(codec: Codec, start: Applying, drafts: seq<Draft>, n: nat, st: Applying, size: Byte)
    requires AllEncodable(drafts) && n + 3 <= |drafts| && AllEncodable(drafts[..n]) && st.begin.None?
    requires drafts[n] == Opening(8, 7, false) && drafts[n + 1] == Typed(19, size) && drafts[n + 2] == CLOSING
    requires ApplyRun(codec, SIDECAR, start, Stamped(drafts[..n])) == Some(st)
    ensures AllEncodable(drafts[..n + 3])
    ensures ApplyRun(codec, SIDECAR, start, Stamped(drafts[..n + 3]))
         == Some(st.(begin := Some(BeginRecord(DMU_SUBSTREAM, 8, 7, false)), newSize := size, changed := true))
  {
    hide ApplyRun;
    hide ApplyStep;
    hide Stamped;
    hide Encodable;
    var begun := st.(begin := Some(BeginRecord(DMU_SUBSTREAM, 8, 7, false)));
    BeginSteps(codec, st);
    SizeSteps(codec, begun, size);
    SizeSteps(codec, begun.(newSize := size, changed := true), size);
    ApplyStepsTo(codec, SIDECAR, start, drafts, n);
    ApplyStepsTo(codec, SIDECAR, start, drafts, n + 1);
    ApplyStepsTo(codec, SIDECAR, start, drafts, n + 2);
  }

  lemma GrowingApplies(codec: Codec)
    ensures AllEncodable(Growing())
    ensures Apply(codec, SIDECAR, [5], Stamped(Growing())) == Some(Applied(SIDECAR.(logicalSize := 2, snapshotGuid := 8), [5, 0]))
  {
    hide ApplyRun;
    hide Encodable;
    hide Sendable;
    GrowingIsSendable();
    var start := ApplyStart(SIDECAR, [5]);
    assert Growing()[..0] == [];
    ApplyRunNone(codec, SIDECAR, start);
    SubstreamApplies(codec, start, Growing(), 0, start, 2);
    assert Growing()[..3] == Growing() && Stamped(Growing())[2].kind.End?;
    assert Resized([5], 2) == [5, 0];
  }

  lemma GrowingReplays(codec: Codec)
    ensures AllEncodable(Behind(FIVE_SIX, Growing()))
    ensures EagerRun(codec, LONGER_PLAN, 1, Stamped(Behind(FIVE_SIX, Growing()))) == Some(Eager(false, None, {7, 8}, true, FIVE_SIX))
  {
    hide EagerRun;
    hide Stamped;
    hide Encodable;
    hide Sendable;
    GrowingIsSendable();
    var drafts := Behind(FIVE_SIX, Growing());
    BaseRuns(codec, LONGER_PLAN, FIVE_SIX, Growing());
    EagerStepsTo(codec, LONGER_PLAN, 1, drafts, 4);
    EagerStepsTo(codec, LONGER_PLAN, 1, drafts, 5);
    EagerStepsTo(codec, LONGER_PLAN, 1, drafts, 6);
    assert drafts[..7] == drafts && {7 as U64} + {8} == {7, 8};
  }

  /** The headers of a base followed by one incremental substream. */
  const HEADERS: seq<BeginRecord> := [BeginRecord(DMU_SUBSTREAM, 7, 0, false), BeginRecord(DMU_SUBSTREAM, 8, 7, false)]

  lemma HeadersPlan()
    ensures PlanOf(HEADERS, 1) == Some(LONGER_PLAN)
  {
    assert FindLast(HEADERS, 1, 7) == Some(0);
    var none: seq<nat> := [];
    assert LinksBelow(HEADERS, 1, 7) == Some(none + [0]) && none + [0] == [0];
    assert Links(HEADERS, 1) == Some([0] + [1]) && [0] + [1] == [0, 1];
    assert Guids(HEADERS, [0, 1]) == [7, 8];
  }

  lemma BaseHeaders(bytes: Eight, more: seq<Draft>)
    requires AllEncodable(Behind(bytes, more))
    ensures AllEncodable(Behind(bytes, more)[..4])
    ensures Headers(Stamped(Behind(bytes, more)[..4])) == [BeginRecord(DMU_SUBSTREAM, 7, 0, false)]
  {
    hide Headers;
    hide Stamped;
    hide Encodable;
    var drafts := Behind(bytes, more);
    assert drafts[..0] == [];
    NoHeaders();
    HeadersStepTo(drafts, 0);
    HeadersStepTo(drafts, 1);
    HeadersStepTo(drafts, 2);
    HeadersStepTo(drafts, 3);
  }

  lemma NoHeaders()
    ensures AllEncodable([]) && Headers(Stamped([])) == []
  {
  }

  lemma GrowingHeaders()
    ensures AllEncodable(Behind(FIVE_SIX, Growing())) && Headers(Stamped(Behind(FIVE_SIX, Growing()))) == HEADERS
  {
    hide Headers;
    hide Stamped;
    hide Encodable;
    hide Sendable;
    GrowingIsSendable();
    var drafts := Behind(FIVE_SIX, Growing());
    BaseHeaders(FIVE_SIX, Growing());
    HeadersStepTo(drafts, 4);
    HeadersStepTo(drafts, 5);
    HeadersStepTo(drafts, 6);
    assert drafts[..7] == drafts;
  }

  /** A base file, an incremental file, and the file of both: extraction cuts a written byte away, the increment grows the
      object over it, and apply shows a zero where extracting the history, planned from its headers, shows the byte. */
  lemma ResurfacingDiffers(codec: Codec)
    ensures var base, inc, both := BaseOf(FIVE_SIX), Growing(), Behind(FIVE_SIX, Growing());
            && AllEncodable(base) && AllEncodable(inc) && AllEncodable(both)
            && ReadsTo(FileOf(base), Stamped(base)) && ReadsTo(FileOf(inc), Stamped(inc)) && ReadsTo(FileOf(both), Stamped(both))
            && Extracted(codec, PLAN, 1, Stamped(base), 1) == Some([5])
            && Apply(codec, SIDECAR, [5], Stamped(inc)) == Some(Applied(SIDECAR.(logicalSize := 2, snapshotGuid := 8), [5, 0]))
            && Headers(Stamped(both)) == HEADERS && PlanOf(HEADERS, 1) == Some(LONGER_PLAN)
            && Extracted(codec, LONGER_PLAN, 1, Stamped(both), 2) == Some([5, 6])
  {
    hide EagerRun;
    hide FileOf;
    hide ReadsTo;
    hide Headers;
    hide PlanOf;
    hide Apply;
    hide Sendable;
    hide Encodable;
    BaseIsSendable(FIVE_SIX);
    GrowingIsSendable();
    WrittenIsRead(BaseOf(FIVE_SIX));
    WrittenIsRead(Growing());
    WrittenIsRead(Behind(FIVE_SIX, Growing()));
    BaseExtracts(codec, FIVE_SIX);
    GrowingApplies(codec);
    GrowingReplays(codec);
    GrowingHeaders();
    HeadersPlan();
    assert Stamped(Behind(FIVE_SIX, Growing()))[6].kind.End?;
    assert Resized(FIVE_SIX, 2) == [5, 6] && |{7 as U64, 8}| == 2;
  }

  // ---------- A compound package that writes ----------

  const PACKAGE: Draft := Draft(Begin(BeginRecord(DMU_COMPOUNDSTREAM, 0, 0, false)), [])

  /** A package whose own segment writes the object, followed by its one substream and its conclusion. */
  function Packaged(): (drafts: seq<Draft>)
    ensures |drafts| == 7
  {
    [PACKAGE, Writing(First(9)), CLOSING, Opening(8, 7, false), Typed(19, 1), CLOSING, CLOSING]
  }

  lemma PackagedEncodes()
    ensures AllEncodable(Packaged())
  {
    SmallEncodes(8, 7, false, 19, 1, First(9));
  }

  lemma PackagedIsSendable()
    ensures Sendable(Packaged()) && AllEncodable(Packaged())
    ensures Sendable(Behind(First(5), Packaged())) && AllEncodable(Behind(First(5), Packaged()))
  {
    PackagedEncodes();
    hide Encodable;
    var sub := Framing.Substream([Stream.Body], true);
    var item := Framing.Package(sub, [sub]);
    PackagedEvents();
    Framing.ItemAccepted(item);
    WrittenFits(Packaged());
    BaseIsSendable(First(5));
    SendsJoin(BaseOf(First(5)), Packaged());
    SendableEncodes(Behind(First(5), Packaged()));
  }

  lemma PackagedEvents()
    ensures var sub := Framing.Substream([Stream.Body], true);
            EventsFor(Packaged()) == Framing.FlatItem(Framing.Package(sub, [sub]))
  {
    var sub := Framing.Substream([Stream.Body], true);
    assert [sub][..0] == [] && Framing.FlatSubs([sub]) == [] + Framing.FlatSub(Stream.BeginSub, sub);
  }

  /** Eight bytes over one. */
  lemma OverwriteFirst(a: Byte, b: Eight)
    requires b[0] != 0
    ensures Extent([a], 0, b) == (true, b)
  {
    assert b[..8] == b && b[8..] == [];
    assert Written([a], 0, b) == b;
  }

  lemma PackageSteps(codec: Codec, st: Applying)
    requires st.data == [5]
    ensures ApplyStep(codec, SIDECAR, st, RecordOf(PACKAGE, 0)) == Some(st)
    ensures ApplyStep(codec, SIDECAR, st, RecordOf(Writing(First(9)), 0)) == Some(st.(data := First(9), changed := true))
  {
    hide Extent;
    OverwriteFirst(5, First(9));
  }

  lemma PackageOpens(codec: Codec, start: Applying)
    requires start.data == [5]
    ensures AllEncodable(Packaged()) && AllEncodable(Packaged()[..3])
    ensures ApplyRun(codec, SIDECAR, start, Stamped(Packaged()[..3])) == Some(start.(data := First(9), changed := true))
  {
    hide ApplyRun;
    hide ApplyStep;
    hide Encodable;
    hide Stamped;
    PackagedEncodes();
    assert Packaged()[..0] == [];
    NothingApplied(codec, start);
    PackageSteps(codec, start);
    SizeSteps(codec, start.(data := First(9), changed := true), 1);
    ApplyStepsTo(codec, SIDECAR, start, Packaged(), 0);
    ApplyStepsTo(codec, SIDECAR, start, Packaged(), 1);
    ApplyStepsTo(codec, SIDECAR, start, Packaged(), 2);
  }

  lemma NothingApplied(codec: Codec, start: Applying)
    ensures AllEncodable([]) && ApplyRun(codec, SIDECAR, start, Stamped([])) == Some(start)
  {
  }

  lemma PackageRuns(codec: Codec, start: Applying)
    requires start.data == [5] && start.begin.None?
    ensures AllEncodable(Packaged())
    ensures ApplyRun(codec, SIDECAR, start, Stamped(Packaged()))
         == Some(start.(data := First(9), changed := true, newSize := 1, begin := Some(BeginRecord(DMU_SUBSTREAM, 8, 7, false))))
  {
    hide ApplyRun;
    hide ApplyStep;
    hide Encodable;
    hide Stamped;
    var written := start.(data := First(9), changed := true);
    PackageOpens(codec, start);
    SubstreamApplies(codec, start, Packaged(), 3, written, 1);
    SizeSteps(codec, written.(begin := Some(BeginRecord(DMU_SUBSTREAM, 8, 7, false)), newSize := 1), 1);
    ApplyStepsTo(codec, SIDECAR, start, Packaged(), 6);
    assert Packaged()[..7] == Packaged();
  }

  lemma PackagedApplies(codec: Codec)
    ensures AllEncodable(Packaged())
    ensures Apply(codec, SIDECAR, [5], Stamped(Packaged())) == Some(Applied(SIDECAR.(logicalSize := 1, snapshotGuid := 8), [9]))
  {
    hide ApplyRun;
    hide Encodable;
    PackageRuns(codec, ApplyStart(SIDECAR, [5]));
    assert Stamped(Packaged())[2].kind.End?;
    assert Resized(First(9), 1) == [9];
  }

  lemma PackagedReplays(codec: Codec)
    ensures AllEncodable(Behind(First(5), Packaged()))
    ensures EagerRun(codec, LONGER_PLAN, 1, Stamped(Behind(First(5), Packaged()))) == Some(Eager(false, None, {7, 8}, true, First(5)))
    ensures Headers(Stamped(Behind(First(5), Packaged()))) == HEADERS
  {
    hide EagerRun;
    hide Headers;
    hide Stamped;
    hide Encodable;
    hide Sendable;
    PackagedIsSendable();
    var drafts := Behind(First(5), Packaged());
    BaseRuns(codec, LONGER_PLAN, First(5), Packaged());
    BaseHeaders(First(5), Packaged());
    SkipsPackage(codec, drafts);
    EagerStepsTo(codec, LONGER_PLAN, 1, drafts, 7);
    EagerStepsTo(codec, LONGER_PLAN, 1, drafts, 8);
    EagerStepsTo(codec, LONGER_PLAN, 1, drafts, 9);
    EagerStepsTo(codec, LONGER_PLAN, 1, drafts, 10);
    HeadersStepTo(drafts, 7);
    HeadersStepTo(drafts, 8);
    HeadersStepTo(drafts, 9);
    HeadersStepTo(drafts, 10);
    assert drafts[..11] == drafts && {7 as U64} + {8} == {7, 8};
  }

  /** Replay does nothing in a package's own segment. */
  lemma SkipsPackage(codec: Codec, drafts: seq<Draft>)
    requires drafts == Behind(First(5), Packaged()) && AllEncodable(drafts) && AllEncodable(drafts[..4])
    requires EagerRun(codec, LONGER_PLAN, 1, Stamped(drafts[..4])) == Some(Eager(false, None, {7}, true, First(5)))
    requires Headers(Stamped(drafts[..4])) == [BeginRecord(DMU_SUBSTREAM, 7, 0, false)]
    ensures AllEncodable(drafts[..7])
    ensures EagerRun(codec, LONGER_PLAN, 1, Stamped(drafts[..7])) == Some(Eager(false, None, {7}, true, First(5)))
    ensures Headers(Stamped(drafts[..7])) == [BeginRecord(DMU_SUBSTREAM, 7, 0, false)]
  {
    hide EagerRun;
    hide Headers;
    hide Stamped;
    hide Encodable;
    hide WriteText;
    EagerStepsTo(codec, LONGER_PLAN, 1, drafts, 4);
    EagerStepsTo(codec, LONGER_PLAN, 1, drafts, 5);
    EagerStepsTo(codec, LONGER_PLAN, 1, drafts, 6);
    HeadersStepTo(drafts, 4);
    HeadersStepTo(drafts, 5);
    HeadersStepTo(drafts, 6);
  }

  /** A base file, a file with a compound package, and the file of both: apply writes what the package's own segment says
      and extracting the history, planned from its headers, does not, although nothing was cut away. */
  lemma CompoundBodyDiffers(codec: Codec)
    ensures var base, inc, both := BaseOf(First(5)), Packaged(), Behind(First(5), Packaged());
            && AllEncodable(base) && AllEncodable(inc) && AllEncodable(both)
            && ReadsTo(FileOf(base), Stamped(base)) && ReadsTo(FileOf(inc), Stamped(inc)) && ReadsTo(FileOf(both), Stamped(both))
            && Extracted(codec, PLAN, 1, Stamped(base), 1) == Some([5])
            && Hidden(First(5), 1) == map[]
            && Apply(codec, SIDECAR, [5], Stamped(inc)) == Some(Applied(SIDECAR.(logicalSize := 1, snapshotGuid := 8), [9]))
            && Headers(Stamped(both)) == HEADERS && PlanOf(HEADERS, 1) == Some(LONGER_PLAN)
            && Extracted(codec, LONGER_PLAN, 1, Stamped(both), 1) == Some([5])
  {
    hide EagerRun;
    hide FileOf;
    hide ReadsTo;
    hide Headers;
    hide PlanOf;
    hide Apply;
    hide Sendable;
    hide Encodable;
    BaseIsSendable(First(5));
    PackagedIsSendable();
    WrittenIsRead(BaseOf(First(5)));
    WrittenIsRead(Packaged());
    WrittenIsRead(Behind(First(5), Packaged()));
    BaseExtracts(codec, First(5));
    PackagedApplies(codec);
    PackagedReplays(codec);
    HeadersPlan();
    assert Stamped(Behind(First(5), Packaged()))[6].kind.End?;
    assert Resized(First(5), 1) == [5] && |{7 as U64, 8}| == 2;
  }
}
