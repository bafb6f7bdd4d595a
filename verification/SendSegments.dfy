/** On a stream the reader accepts, whether an incremental is orderly is decided by which BEGIN opened each segment. */
module SendSegments {
  import opened Bytes
  import opened Records
  import opened Stream
  import opened Framing
  import opened SendFile
  import Replay
  import Resurfacing

  /** The latest BEGIN of a record sequence. */
  function LastBegin(records: seq<Record>): Option<BeginRecord>
    decreases |records|
  {
    if records == [] then None
    else
      var last := records[|records| - 1];
      if last.kind.Begin? then Some(last.kind.begin) else LastBegin(records[..|records| - 1])
  }

  /** Inside a segment the latest BEGIN or END is a BEGIN. */
  ghost predicate OpenedByLast(plan: Replay.Plan, active: bool, p: Progress) {
    p.state.flags.segmentOpen ==>
      && LastBegin(p.records).Some?
      && Resurfacing.ActiveAfter(plan, active, p.records) == plan.Selects(LastBegin(p.records).value)
  }

  lemma KindsMatch(input: seq<Byte>, st: ReaderState)
    requires st.offset <= |input| && Next(input, st).Got?
    ensures st.offset + RECORD_SIZE <= |input|
    ensures var r, h := Next(input, st).record, HeaderAt(input, st.offset);
            (r.kind.Begin? <==> U32At(h, 0) == 0) && (r.kind.End? <==> U32At(h, 0) == 5)
  {
    hide Validate;
    hide PayloadSize;
    hide ZeroFilled;
    KindMatchesType(HeaderAt(input, st.offset));
    hide DecodeKind;
  }

  lemma StepOpened(plan: Replay.Plan, active: bool, before: Progress, after: Progress, r: Record, h: Header)
    requires OpenedByLast(plan, active, before) && after.records == before.records + [r]
    requires FrameStep(before.state.flags, EventOf(h)) == Some(after.state.flags)
    requires (r.kind.Begin? <==> U32At(h, 0) == 0) && (r.kind.End? <==> U32At(h, 0) == 5)
    ensures OpenedByLast(plan, active, after)
  {
    hide U64At;
    hide ZeroFilled;
    assert after.records[..|before.records|] == before.records;
  }

  lemma {:induction false} SegmentsOpened(input: seq<Byte>, n: nat, plan: Replay.Plan, active: bool)
    requires ReadMany(input, n).Some?
    ensures OpenedByLast(plan, active, ReadMany(input, n).value)
  {
    hide ReadMany;
    hide Next;
    hide EventOf;
    hide FrameStep;
    ReadNone(input);
    if n > 0 {
      ReadStep(input, n);
      SegmentsOpened(input, n - 1, plan, active);
      var before := ReadMany(input, n - 1).value;
      KindsMatch(input, before.state);
      StepOpened(plan, active, before, ReadMany(input, n).value, Next(input, before.state).record,
                 HeaderAt(input, before.state.offset));
    }
  }

  /** What a shorter run read is a prefix of what a longer one read. */
  lemma {:induction false} RunsExtend(input: seq<Byte>, n: nat, m: nat)
    requires n <= m && ReadMany(input, m).Some?
    ensures ReadMany(input, n).Some? && |ReadMany(input, n).value.records| == n
    ensures |ReadMany(input, m).value.records| == m && ReadMany(input, m).value.records[..n] == ReadMany(input, n).value.records
    decreases m
  {
    hide Next;
    hide EventOf;
    if n < m {
      RunsExtend(input, n, m - 1);
    }
  }

  /** A record that is neither BEGIN nor END was read inside a segment. */
  lemma BodyInSegment(input: seq<Byte>, n: nat)
    requires ReadMany(input, n + 1).Some?
    ensures ReadMany(input, n).Some? && |ReadMany(input, n + 1).value.records| == n + 1
    ensures var r := ReadMany(input, n + 1).value.records[n];
            !r.kind.Begin? && !r.kind.End? ==> ReadMany(input, n).value.state.flags.segmentOpen
  {
    ReadStep(input, n + 1);
    hide ReadMany;
    hide Next;
    var before := ReadMany(input, n).value;
    KindsMatch(input, before.state);
    hide U64At;
    hide ZeroFilled;
  }

  /** An accepted stream is orderly exactly when every record that changes the object stands in a segment whose BEGIN
      the plan selects: not in a compound package's own segment, and not in another substream. */
  lemma OrderlyBySegments(input: seq<Byte>, records: seq<Record>, plan: Replay.Plan, active: bool, id: U64)
    requires ReadsTo(input, records)
    ensures Resurfacing.Orderly(plan, active, id, records)
       <==> forall n :: 0 <= n < |records| && Resurfacing.Touches(id, records[n]) ==>
              LastBegin(records[..n]).Some? && plan.Selects(LastBegin(records[..n]).value)
  {
    hide ReadMany;
    hide Next;
    hide Resurfacing.ActiveAfter;
    hide LastBegin;
    forall n | 0 <= n < |records| && Resurfacing.Touches(id, records[n])
      ensures LastBegin(records[..n]).Some?
      ensures Resurfacing.ActiveAfter(plan, active, records[..n]) == plan.Selects(LastBegin(records[..n]).value)
    {
      RunsExtend(input, n + 1, |records|);
      RunsExtend(input, n, |records|);
      BodyInSegment(input, n);
      SegmentsOpened(input, n, plan, active);
      assert records[..n + 1][n] == records[n];
    }
  }
}
