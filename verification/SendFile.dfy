/** One send file, read once for its records and again, positioned, for its payloads. */
module SendFile {
  import opened Bytes
  import opened Records
  import opened Stream
  import opened Framing
  import Replay
  import StreamImages
  import LazyEager

  /** Reading to the end of the input gave these records. */
  predicate ReadsTo(input: seq<Byte>, records: seq<Record>) {
    var p := ReadMany(input, |records|);
    p.Some? && p.value.records == records && Next(input, p.value.state).EndOfInput?
  }

  // ---------- Which inputs are read to their end ----------

  /** The framing events of an input, found by stepping from header to header over the payloads. */
  function EventsAt(input: seq<Byte>, offset: nat): seq<Event>
    decreases |input| - offset
  {
    if offset + RECORD_SIZE > |input| then []
    else
      var h := HeaderAt(input, offset);
      [EventOf(h)] + EventsAt(input, offset + RECORD_SIZE + PayloadSize(h))
  }

  lemma NextAdvances(input: seq<Byte>, st: ReaderState)
    requires st.offset <= |input| && Next(input, st).Got?
    ensures st.offset + RECORD_SIZE <= Next(input, st).next.offset <= |input|
  {
  }

  /** Every record the reader comes to is intact: nothing is wrong with it but possibly its place. */
  predicate IntactAlong(input: seq<Byte>, st: ReaderState)
    requires st.offset <= |input|
    decreases |input| - st.offset
  {
    st.offset == |input|
    || (Intact(input, st)
        && (Next(input, st).Got? ==>
              (NextAdvances(input, st);
               IntactAlong(input, Next(input, st).next))))
  }

  /** Calling the reader again and again ends with a clean end of input. */
  predicate Finishes(input: seq<Byte>, st: ReaderState)
    requires st.offset <= |input|
    decreases |input| - st.offset
  {
    match Next(input, st)
    case EndOfInput => true
    case Failed(_) => false
    case Got(_, next) =>
      NextAdvances(input, st);
      Finishes(input, next)
  }

  lemma {:induction false} FinishesFrom(input: seq<Byte>, n: nat)
    requires ReadMany(input, n).Some?
    ensures Finishes(input, READER_START) <==> Finishes(input, ReadMany(input, n).value.state)
  {
    hide Next;
    hide EventOf;
    hide FrameStep;
    if n > 0 {
      ReadStep(input, n);
      FinishesFrom(input, n - 1);
    }
  }

  lemma {:induction false} FinishedRun(input: seq<Byte>, n: nat)
    requires ReadMany(input, n).Some? && Finishes(input, ReadMany(input, n).value.state)
    ensures exists records :: ReadsTo(input, records)
    decreases |input| - ReadMany(input, n).value.state.offset
  {
    hide Next;
    hide EventOf;
    hide FrameStep;
    var p := ReadMany(input, n).value;
    if Next(input, p.state).EndOfInput? {
      assert ReadsTo(input, p.records);
    } else {
      assert ReadMany(input, n + 1).Some?;
      ReadStep(input, n + 1);
      FinishedRun(input, n + 1);
    }
  }

  lemma FinishesIff(input: seq<Byte>)
    ensures Finishes(input, READER_START) <==> exists records :: ReadsTo(input, records)
  {
    hide Next;
    hide Finishes;
    ReadNone(input);
    if Finishes(input, READER_START) {
      FinishedRun(input, 0);
    }
    if records :| ReadsTo(input, records) {
      FinishesFrom(input, |records|);
      FinishesAtEnd(input, ReadMany(input, |records|).value.state);
    }
  }

  lemma FinishesAtEnd(input: seq<Byte>, st: ReaderState)
    requires st.offset <= |input| && Next(input, st).EndOfInput?
    ensures Finishes(input, st)
  {
  }

  lemma GotIsIntact(input: seq<Byte>, st: ReaderState)
    requires st.offset <= |input| && Next(input, st).Got?
    ensures Intact(input, st)
    ensures Next(input, st).next.offset == st.offset + RECORD_SIZE + PayloadSize(HeaderAt(input, st.offset))
  {
    hide Validate;
    hide PayloadSize;
    hide ZeroFilled;
    hide DecodeKind;
  }

  lemma EventsStep(input: seq<Byte>, flags: Flags, offset: nat)
    requires offset + RECORD_SIZE <= |input|
    ensures var e := EventOf(HeaderAt(input, offset));
            FrameRun(flags, EventsAt(input, offset)) ==
              if FrameStep(flags, e).None? then None
              else FrameRun(FrameStep(flags, e).value,
                            EventsAt(input, offset + RECORD_SIZE + PayloadSize(HeaderAt(input, offset))))
  {
    hide FrameRun;
    hide FrameStep;
    hide EventOf;
    hide PayloadSize;
    var h := HeaderAt(input, offset);
    FrameOne(flags, EventOf(h));
    FrameRunAppend(flags, [EventOf(h)], EventsAt(input, offset + RECORD_SIZE + PayloadSize(h)));
  }

  lemma AtEnd(input: seq<Byte>, st: ReaderState)
    requires st.offset == |input| && Reachable(st)
    ensures EventsAt(input, st.offset) == [] && FrameRun(st.flags, []) == Some(st.flags)
    ensures Finishes(input, st) <==> st.flags == CLOSED
    ensures IntactAlong(input, st)
  {
  }

  lemma {:induction false} FinishesWhenIntact(input: seq<Byte>, st: ReaderState)
    requires st.offset <= |input| && Reachable(st)
    ensures Finishes(input, st)
       <==> IntactAlong(input, st) && FrameRun(st.flags, EventsAt(input, st.offset)) == Some(CLOSED)
    decreases |input| - st.offset
  {
    hide Intact;
    hide EventOf;
    hide FrameStep;
    hide FrameRun;
    hide EventsAt;
    hide Reachable;
    hide Next;
    if st.offset == |input| {
      AtEnd(input, st);
    } else {
      NotEnd(input, st);
      if Next(input, st).Got? {
        GotIsIntact(input, st);
        NextFollowsFraming(input, st);
        EventsStep(input, st.flags, st.offset);
        FinishesWhenIntact(input, Next(input, st).next);
      } else if Intact(input, st) {
        IntactFits(input, st);
        IntactFailsOnlyOnFraming(input, st);
        EventsStep(input, st.flags, st.offset);
      }
    }
  }

  lemma NotEnd(input: seq<Byte>, st: ReaderState)
    requires st.offset < |input|
    ensures !Next(input, st).EndOfInput?
  {
  }

  lemma IntactFits(input: seq<Byte>, st: ReaderState)
    requires Intact(input, st)
    ensures st.offset + RECORD_SIZE <= |input|
  {
  }

  /** An input is read to its end exactly when every record on the way is intact and its headers spell a concatenation
      of substreams and concluded packages. */
  lemma ReadableIff(input: seq<Byte>)
    ensures (exists records :: ReadsTo(input, records))
       <==> IntactAlong(input, READER_START) && exists items :: ItemsOk(items) && Flat(items) == EventsAt(input, 0)
  {
    hide ReadsTo;
    hide Finishes;
    hide IntactAlong;
    hide FrameRun;
    FinishesIff(input);
    FinishesWhenIntact(input, READER_START);
    FramingIsTheGrammar(EventsAt(input, 0));
  }

  lemma FailureStops(input: seq<Byte>, n: nat)
    requires ReadMany(input, n).Some? && Next(input, ReadMany(input, n).value.state).Failed?
    ensures !(IntactAlong(input, READER_START) && exists items :: ItemsOk(items) && Flat(items) == EventsAt(input, 0))
  {
    hide ReadMany;
    hide Next;
    hide IntactAlong;
    hide ReadsTo;
    FinishesFrom(input, n);
    FinishesIff(input);
    ReadableIff(input);
  }

  /** The loop every client of the reader runs. */
  method ReadAll(input: seq<Byte>) returns (ok: bool, records: seq<Record>, sawEnd: bool)
    ensures ok ==> ReadsTo(input, records) && (sawEnd <==> Replay.SawEnd(records))
    ensures !ok ==> ReadMany(input, |records|).Some? && Next(input, ReadMany(input, |records|).value.state).Failed?
    ensures ok <==> IntactAlong(input, READER_START) && exists items :: ItemsOk(items) && Flat(items) == EventsAt(input, 0)
  {
    hide Next;
    hide IntactAlong;
    hide ItemsOk;
    hide Flat;
    hide EventsAt;
    hide EventOf;
    hide Located;
    hide FrameStep;
    var reader := new StreamReader(input);
    records := [];
    ghost var p := Progress([], [], 0, READER_START);
    while true
      invariant fresh(reader) && fresh(reader.checksum) && reader.input == input
      invariant reader.offset <= |input| && ReadMany(input, |records|) == Some(p)
      invariant p.records == records && p.state == reader.State()
      decreases |input| - reader.offset
    {
      var outcome := reader.NextRecord();
      match outcome
      case Err(_) =>
        FailureStops(input, |records|);
        return false, records, false;
      case Ok(None) =>
        RunsAreLocated(input, |records|);
        ReadableIff(input);
        return true, records, reader.sawEnd;
      case Ok(Some(record)) =>
        NextFollowsFraming(input, p.state);
        records := records + [record];
        p := ReadMany(input, |records|).value;
    }
  }

  /** The payload offset an index entry remembers is where the payload still lies in the unchanged file. */
  lemma ReadRecordsAreIndexed(input: seq<Byte>, records: seq<Record>)
    requires ReadsTo(input, records)
    ensures LazyEager.Indexed(input, records)
  {
    hide ReadMany;
    hide Next;
    RunsAreLocated(input, |records|);
    forall r | r in records
      ensures LazyEager.InFile(input, r)
    {
      var k :| 0 <= k < |records| && records[k] == r;
    }
  }

  /** From the bytes of a send file to the bytes of the target: reading the image gives the extracted file exactly when
      nothing that was dropped stored a byte and mixed blocks decode to what was stored. */
  lemma LazyEqualsEagerOnFile(codec: Codec, plan: Replay.Plan, id: U64, input: seq<Byte>, records: seq<Record>, logicalSize: U64)
    requires ReadsTo(input, records) && codec.Exact()
    requires Replay.EagerResult(codec, plan, id, records).Some? && StreamImages.LazyResult(codec, plan, id, records).Some?
    ensures var lazy, texts := StreamImages.LazyResult(codec, plan, id, records).value, LazyEager.Stored(codec, plan, id, records);
            LazyEager.Shows(codec, input, lazy.keys, lazy.owners, Replay.Extracted(codec, plan, id, records, logicalSize).value)
            <==> LazyEager.NothingLost(texts, LazyEager.Stale(codec, plan, id, records), logicalSize)
                 && LazyEager.SameDecodings(codec, plan, input, lazy.keys, texts, lazy.owners, logicalSize)
  {
    hide ReadMany;
    hide Next;
    hide StreamImages.LazyRun;
    hide Replay.EagerRun;
    hide LazyEager.Shows;
    hide LazyEager.NothingLost;
    hide LazyEager.SameDecodings;
    hide LazyEager.Stored;
    hide LazyEager.Stale;
    ReadRecordsAreIndexed(input, records);
    LazyEager.LazyEqualsEagerIff(codec, plan, id, input, records, logicalSize);
  }
}
