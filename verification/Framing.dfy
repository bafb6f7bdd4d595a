/** What a whole run of the stream reader accepts: the grammar of send files, the offsets of their records,
    and the meaning of their checksums. */
module Framing {
  import opened Bytes
  import opened Records
  import opened Fletcher
  import opened Stream
  import Replay

  // ---------- The grammar ----------

  /** BEGIN, body records, END. */
  datatype Substream = Substream(body: seq<Event>, zeroFilled: bool)

  datatype Item =
    | Single(sub: Substream)
    | Package(prelude: Substream, subs: seq<Substream>)

  predicate SubstreamOk(s: Substream) { forall e :: e in s.body ==> e.Body? }

  predicate SubsOk(subs: seq<Substream>) { forall s :: s in subs ==> SubstreamOk(s) }

  predicate ItemOk(item: Item) {
    match item
    case Single(sub) => SubstreamOk(sub)
    case Package(prelude, subs) => SubstreamOk(prelude) && SubsOk(subs)
  }

  predicate ItemsOk(items: seq<Item>) { forall item :: item in items ==> ItemOk(item) }

  function FlatSub(first: Event, s: Substream): seq<Event> { [first] + s.body + [EndOf(s.zeroFilled)] }

  function FlatSubs(subs: seq<Substream>): seq<Event>
    decreases |subs|
  {
    if subs == [] then [] else FlatSubs(subs[..|subs| - 1]) + FlatSub(BeginSub, subs[|subs| - 1])
  }

  /** A compound package: its own BEGIN/END pair, complete substreams, and a zero-filled conclusion. */
  function FlatItem(item: Item): seq<Event> {
    match item
    case Single(sub) => FlatSub(BeginSub, sub)
    case Package(prelude, subs) => FlatSub(BeginCompound, prelude) + FlatSubs(subs) + [EndOf(true)]
  }

  function Flat(items: seq<Item>): seq<Event>
    decreases |items|
  {
    if items == [] then [] else Flat(items[..|items| - 1]) + FlatItem(items[|items| - 1])
  }

  // ---------- The automaton ----------

  function FrameRun(f: Flags, events: seq<Event>): Option<Flags>
    decreases |events|
  {
    if events == [] then Some(f)
    else
      var before := FrameRun(f, events[..|events| - 1]);
      if before.None? then None else FrameStep(before.value, events[|events| - 1])
  }

  lemma {:induction false} FrameRunAppend(f: Flags, xs: seq<Event>, ys: seq<Event>)
    ensures FrameRun(f, xs + ys)
         == if FrameRun(f, xs).None? then None else FrameRun(FrameRun(f, xs).value, ys)
    decreases |ys|
  {
    if ys == [] {
      assert xs + ys == xs;
    } else {
      var n := |ys| - 1;
      assert (xs + ys)[..|xs| + n] == xs + ys[..n];
      FrameRunAppend(f, xs, ys[..n]);
    }
  }

  lemma FrameOne(f: Flags, e: Event)
    ensures FrameRun(f, [e]) == FrameStep(f, e)
  {
    assert [e][..0] == [];
  }

  lemma {:induction false} BodyAccepted(compound: bool, body: seq<Event>)
    requires forall e :: e in body ==> e.Body?
    ensures FrameRun(Flags(true, compound), body) == Some(Flags(true, compound))
    decreases |body|
  {
    if body != [] {
      assert body[|body| - 1] in body;
      BodyAccepted(compound, body[..|body| - 1]);
    }
  }

  lemma SubstreamAccepted(compound: bool, first: Event, s: Substream)
    requires SubstreamOk(s) && (first.BeginSub? || (first.BeginCompound? && !compound))
    ensures FrameRun(Flags(false, compound), FlatSub(first, s)) == Some(Flags(false, compound || first.BeginCompound?))
  {
    var inside := compound || first.BeginCompound?;
    FrameOne(Flags(false, compound), first);
    BodyAccepted(inside, s.body);
    FrameOne(Flags(true, inside), EndOf(s.zeroFilled));
    FrameRunAppend(Flags(false, compound), [first], s.body);
    FrameRunAppend(Flags(false, compound), [first] + s.body, [EndOf(s.zeroFilled)]);
  }

  lemma {:induction false} SubsAccepted(subs: seq<Substream>)
    requires SubsOk(subs)
    ensures FrameRun(Flags(false, true), FlatSubs(subs)) == Some(Flags(false, true))
    decreases |subs|
  {
    if subs != [] {
      var n := |subs| - 1;
      SubsAccepted(subs[..n]);
      assert subs[n] in subs;
      SubstreamAccepted(true, BeginSub, subs[n]);
      FrameRunAppend(Flags(false, true), FlatSubs(subs[..n]), FlatSub(BeginSub, subs[n]));
    }
  }

  lemma ItemAccepted(item: Item)
    requires ItemOk(item)
    ensures FrameRun(CLOSED, FlatItem(item)) == Some(CLOSED)
  {
    match item
    case Single(sub) => SubstreamAccepted(false, BeginSub, sub);
    case Package(prelude, subs) =>
      var head := FlatSub(BeginCompound, prelude);
      SubstreamAccepted(false, BeginCompound, prelude);
      SubsAccepted(subs);
      FrameRunAppend(CLOSED, head, FlatSubs(subs));
      FrameOne(Flags(false, true), EndOf(true));
      FrameRunAppend(CLOSED, head + FlatSubs(subs), [EndOf(true)]);
  }

  lemma {:induction false} GrammarAccepted(items: seq<Item>)
    requires ItemsOk(items)
    ensures FrameRun(CLOSED, Flat(items)) == Some(CLOSED)
    decreases |items|
  {
    if items != [] {
      var n := |items| - 1;
      GrammarAccepted(items[..n]);
      assert items[n] in items;
      ItemAccepted(items[n]);
      FrameRunAppend(CLOSED, Flat(items[..n]), FlatItem(items[n]));
    }
  }

  // ---------- Parsing an accepted prefix ----------

  datatype Open =
    | Outside
    | InSub(body: seq<Event>)
    | InPrelude(body: seq<Event>)
    | Between(prelude: Substream, subs: seq<Substream>)
    | InPackageSub(prelude: Substream, subs: seq<Substream>, body: seq<Event>)

  datatype Partial = Partial(items: seq<Item>, open: Open)

  predicate PartialOk(p: Partial) {
    && ItemsOk(p.items)
    && match p.open
       case Outside => true
       case InSub(body) => SubstreamOk(Substream(body, false))
       case InPrelude(body) => SubstreamOk(Substream(body, false))
       case Between(prelude, subs) => SubstreamOk(prelude) && SubsOk(subs)
       case InPackageSub(prelude, subs, body) =>
         SubstreamOk(prelude) && SubsOk(subs) && SubstreamOk(Substream(body, false))
  }

  function FlatOpen(o: Open): seq<Event> {
    match o
    case Outside => []
    case InSub(body) => [BeginSub] + body
    case InPrelude(body) => [BeginCompound] + body
    case Between(prelude, subs) => FlatSub(BeginCompound, prelude) + FlatSubs(subs)
    case InPackageSub(prelude, subs, body) => FlatSub(BeginCompound, prelude) + FlatSubs(subs) + [BeginSub] + body
  }

  function OpenFlags(o: Open): Flags {
    Flags(o.InSub? || o.InPrelude? || o.InPackageSub?, o.InPrelude? || o.Between? || o.InPackageSub?)
  }

  /** The parse after one more event. */
  function Shift(p: Partial, e: Event): Partial {
    match p.open
    case Outside => if e.BeginSub? then p.(open := InSub([])) else p.(open := InPrelude([]))
    case InSub(body) =>
      if e.EndOf? then Partial(p.items + [Single(Substream(body, e.zeroFilled))], Outside)
      else p.(open := InSub(body + [e]))
    case InPrelude(body) =>
      if e.EndOf? then p.(open := Between(Substream(body, e.zeroFilled), []))
      else p.(open := InPrelude(body + [e]))
    case Between(prelude, subs) =>
      if e.EndOf? then Partial(p.items + [Package(prelude, subs)], Outside)
      else p.(open := InPackageSub(prelude, subs, []))
    case InPackageSub(prelude, subs, body) =>
      if e.EndOf? then p.(open := Between(prelude, subs + [Substream(body, e.zeroFilled)]))
      else p.(open := InPackageSub(prelude, subs, body + [e]))
  }

  lemma FlatSnoc(items: seq<Item>, item: Item)
    ensures Flat(items + [item]) == Flat(items) + FlatItem(item)
  {
    assert (items + [item])[..|items|] == items;
  }

  lemma FlatSubsSnoc(subs: seq<Substream>, s: Substream)
    ensures FlatSubs(subs + [s]) == FlatSubs(subs) + FlatSub(BeginSub, s)
  {
    assert (subs + [s])[..|subs|] == subs;
  }

  lemma BodySnoc(body: seq<Event>, e: Event)
    requires SubstreamOk(Substream(body, false)) && e.Body?
    ensures SubstreamOk(Substream(body + [e], false))
  {
  }

  lemma SubsSnoc(subs: seq<Substream>, s: Substream)
    requires SubsOk(subs) && SubstreamOk(s)
    ensures SubsOk(subs + [s])
  {
  }

  lemma ItemsSnoc(items: seq<Item>, item: Item)
    requires ItemsOk(items) && ItemOk(item)
    ensures ItemsOk(items + [item])
  {
  }

  lemma ShiftOk(p: Partial, e: Event)
    requires PartialOk(p) && FrameStep(OpenFlags(p.open), e).Some?
    ensures PartialOk(Shift(p, e)) && FrameStep(OpenFlags(p.open), e) == Some(OpenFlags(Shift(p, e).open))
  {
    match p.open
    case Outside =>
    case InSub(body) =>
      if e.EndOf? { ItemsSnoc(p.items, Single(Substream(body, e.zeroFilled))); } else { BodySnoc(body, e); }
    case InPrelude(body) =>
      if !e.EndOf? { BodySnoc(body, e); }
    case Between(prelude, subs) =>
      if e.EndOf? { ItemsSnoc(p.items, Package(prelude, subs)); }
    case InPackageSub(prelude, subs, body) =>
      if e.EndOf? { SubsSnoc(subs, Substream(body, e.zeroFilled)); } else { BodySnoc(body, e); }
  }

  function FlatPartial(p: Partial): seq<Event> { Flat(p.items) + FlatOpen(p.open) }

  /** Whether an event completes an item of the file. */
  predicate Completes(o: Open, e: Event) { e.EndOf? && (o.InSub? || o.Between?) }

  lemma ShiftGrows(p: Partial, e: Event)
    requires FrameStep(OpenFlags(p.open), e).Some? && !Completes(p.open, e)
    ensures Shift(p, e).items == p.items && FlatOpen(Shift(p, e).open) == FlatOpen(p.open) + [e]
  {
    hide FlatSubs;
    hide FlatSub;
    match p.open
    case Outside => assert FlatOpen(Outside) == [];
    case InSub(body) => assert [BeginSub] + (body + [e]) == [BeginSub] + body + [e];
    case InPrelude(body) => GrowsInPrelude(body, e);
    case Between(prelude, subs) =>
      var before := FlatOpen(p.open);
      assert before + [BeginSub] + [] == before + [BeginSub];
    case InPackageSub(prelude, subs, body) => GrowsInPackage(prelude, subs, body, e);
  }

  lemma GrowsInPrelude(body: seq<Event>, e: Event)
    ensures e.EndOf? ==> FlatOpen(Between(Substream(body, e.zeroFilled), [])) == FlatOpen(InPrelude(body)) + [e]
    ensures FlatOpen(InPrelude(body + [e])) == FlatOpen(InPrelude(body)) + [e]
  {
    EmptySubs();
    assert [BeginCompound] + (body + [e]) == [BeginCompound] + body + [e];
  }

  lemma GrowsInPackage(prelude: Substream, subs: seq<Substream>, body: seq<Event>, e: Event)
    ensures e.EndOf? ==>
              FlatOpen(Between(prelude, subs + [Substream(body, e.zeroFilled)])) == FlatOpen(InPackageSub(prelude, subs, body)) + [e]
    ensures FlatOpen(InPackageSub(prelude, subs, body + [e])) == FlatOpen(InPackageSub(prelude, subs, body)) + [e]
  {
    hide FlatSubs;
    var head, middle := FlatSub(BeginCompound, prelude), FlatSubs(subs);
    if e.EndOf? {
      FlatSubsSnoc(subs, Substream(body, e.zeroFilled));
      var last := FlatSub(BeginSub, Substream(body, e.zeroFilled));
      assert last == [BeginSub] + body + [e];
      hide FlatSub;
      assert head + (middle + ([BeginSub] + body + [e])) == head + middle + [BeginSub] + body + [e];
    }
    assert head + middle + [BeginSub] + (body + [e]) == head + middle + [BeginSub] + body + [e];
  }

  lemma ShiftCompletes(p: Partial, e: Event)
    requires FrameStep(OpenFlags(p.open), e).Some? && Completes(p.open, e)
    ensures Shift(p, e).open == Outside && Flat(Shift(p, e).items) == Flat(p.items) + (FlatOpen(p.open) + [e])
  {
    hide Flat;
    hide FlatSubs;
    var item := if p.open.InSub? then Single(Substream(p.open.body, e.zeroFilled)) else Package(p.open.prelude, p.open.subs);
    FlatSnoc(p.items, item);
    assert FlatItem(item) == FlatOpen(p.open) + [e];
  }

  lemma ShiftFlat(p: Partial, e: Event)
    requires FrameStep(OpenFlags(p.open), e).Some?
    ensures FlatPartial(Shift(p, e)) == FlatPartial(p) + [e]
  {
    hide Flat;
    hide FrameStep;
    if Completes(p.open, e) {
      ShiftCompletes(p, e);
    } else {
      ShiftGrows(p, e);
    }
    hide Shift;
    assert Flat(p.items) + (FlatOpen(p.open) + [e]) == Flat(p.items) + FlatOpen(p.open) + [e];
  }

  lemma EmptySubs()
    ensures FlatSubs([]) == []
  {
  }

  function Parse(events: seq<Event>): Partial
    decreases |events|
  {
    if events == [] then Partial([], Outside) else Shift(Parse(events[..|events| - 1]), events[|events| - 1])
  }

  lemma {:induction false} ParseFollowsRun(events: seq<Event>)
    requires FrameRun(CLOSED, events).Some?
    ensures PartialOk(Parse(events)) && FrameRun(CLOSED, events) == Some(OpenFlags(Parse(events).open))
    ensures FlatPartial(Parse(events)) == events
    decreases |events|
  {
    hide PartialOk;
    hide FlatPartial;
    hide Shift;
    hide FrameStep;
    if events == [] {
      EmptyParse();
    } else {
      var front, last := events[..|events| - 1], events[|events| - 1];
      ParseFollowsRun(front);
      ShiftOk(Parse(front), last);
      ShiftFlat(Parse(front), last);
    }
  }

  lemma EmptyParse()
    ensures PartialOk(Parse([])) && FlatPartial(Parse([])) == []
  {
  }

  /** The framing rules accept an event sequence to its end exactly when it is a concatenation of substreams
      and concluded compound packages. */
  lemma FramingIsTheGrammar(events: seq<Event>)
    ensures FrameRun(CLOSED, events) == Some(CLOSED) <==> exists items :: ItemsOk(items) && Flat(items) == events
  {
    if FrameRun(CLOSED, events) == Some(CLOSED) {
      ParseFollowsRun(events);
      var p := Parse(events);
      assert p.open == Outside;
      assert ItemsOk(p.items) && Flat(p.items) == events;
    }
    if items :| ItemsOk(items) && Flat(items) == events {
      GrammarAccepted(items);
    }
  }

  // ---------- One call of the reader ----------

  function EventOf(h: Header): Event {
    var t := U32At(h, 0);
    if t == 0 then if U64At(h, 16) % 4 == DMU_COMPOUNDSTREAM then BeginCompound else BeginSub
    else if t == 5 then EndOf(ZeroFilled(h))
    else Body
  }

  function HeaderAt(input: seq<Byte>, offset: nat): Header
    requires offset + RECORD_SIZE <= |input|
  {
    input[offset..offset + RECORD_SIZE]
  }

  /** Every check on a record that is not about framing passes: known type, payload present and small enough,
      decodable little-endian header, and, for a record of a segment, acceptable checksums. */
  predicate Intact(input: seq<Byte>, st: ReaderState)
  {
    && st.offset + RECORD_SIZE <= |input|
    && var h := HeaderAt(input, st.offset);
       var end := st.offset + RECORD_SIZE + PayloadSize(h);
       && U32At(h, 0) < DRR_NUMTYPES && PayloadSize(h) <= MAX_PAYLOAD_SIZE && end <= |input| && end <= U64_MAX
       && DecodeKind(h).Ok? && (U32At(h, 0) == 0 ==> U64At(h, 8) == DMU_BACKUP_MAGIC)
       && (U32At(h, 0) == 0 || st.flags.segmentOpen ==> Validate(st.sums, h, input[st.offset + RECORD_SIZE..end]).Ok?)
  }

  /** States a run can reach. */
  predicate Reachable(st: ReaderState) {
    && (st.flags != CLOSED ==> st.started)
    && (st.flags.compoundOpen && !st.flags.segmentOpen ==> st.sawEnd)
  }

  lemma BeginEvent(h: Header)
    requires U32At(h, 0) == 0 && DecodeKind(h).Ok?
    ensures DecodeKind(h).value.Begin?
    ensures EventOf(h) == if DecodeKind(h).value.begin.headerType == DMU_COMPOUNDSTREAM then BeginCompound else BeginSub
  {
  }

  /** An accepted record moves the framing automaton and the offset exactly as its event and size say. */
  lemma NextFollowsFraming(input: seq<Byte>, st: ReaderState)
    requires st.offset <= |input| && Next(input, st).Got? && Reachable(st)
    ensures var Got(r, next) := Next(input, st);
            && st.offset + RECORD_SIZE <= |input|
            && FrameStep(st.flags, EventOf(HeaderAt(input, st.offset))) == Some(next.flags)
            && r.streamOffset == st.offset && next.offset == st.offset + RECORD_SIZE + |r.payload| <= |input|
            && r.payload == input[st.offset + RECORD_SIZE..next.offset]
            && Reachable(next)
            && (next.sawEnd <==> st.sawEnd || r.kind.End?)
  {
    hide Validate;
    hide PayloadSize;
    hide ZeroFilled;
    var h := HeaderAt(input, st.offset);
    KindMatchesType(h);
    if U32At(h, 0) == 0 { BeginEvent(h); }
    hide DecodeKind;
  }

  /** On an otherwise intact record the reader fails exactly where the framing automaton does. */
  lemma IntactFailsOnlyOnFraming(input: seq<Byte>, st: ReaderState)
    requires Reachable(st) && Intact(input, st)
    ensures Next(input, st).Got? <==> FrameStep(st.flags, EventOf(HeaderAt(input, st.offset))).Some?
  {
    hide Validate;
    hide PayloadSize;
    hide ZeroFilled;
    var h := HeaderAt(input, st.offset);
    KindMatchesType(h);
    if U32At(h, 0) == 0 { BeginEvent(h); }
    hide DecodeKind;
  }

  // ---------- Whole runs ----------

  /** What n successful calls have produced; begin is the offset of the latest BEGIN record. */
  datatype Progress = Progress(records: seq<Record>, events: seq<Event>, begin: nat, state: ReaderState)

  function ReadMany(input: seq<Byte>, n: nat): (p: Option<Progress>)
    ensures p.Some? ==> p.value.state.offset <= |input| && |p.value.records| == |p.value.events| == n
    ensures p.Some? ==> Reachable(p.value.state)
  {
    if n == 0 then Some(Progress([], [], 0, READER_START))
    else
      var before := ReadMany(input, n - 1);
      if before.None? then None
      else
        var Progress(records, events, begin, st) := before.value;
        match Next(input, st)
        case EndOfInput => None
        case Failed(_) => None
        case Got(r, next) =>
          NextFollowsFraming(input, st);
          Some(Progress(records + [r], events + [EventOf(HeaderAt(input, st.offset))],
                        if r.kind.Begin? then st.offset else begin, next))
  }

  function TotalSize(records: seq<Record>): nat
    decreases |records|
  {
    if records == [] then 0
    else TotalSize(records[..|records| - 1]) + RECORD_SIZE + |records[|records| - 1].payload|
  }

  /** Each record starts where all earlier headers and payloads end, and its payload lies behind its header. */
  ghost predicate Located(input: seq<Byte>, records: seq<Record>) {
    forall k :: 0 <= k < |records| ==>
      && records[k].streamOffset == TotalSize(records[..k])
      && Slice(input, records[k].streamOffset + RECORD_SIZE, |records[k].payload|) == Some(records[k].payload)
  }

  /** The last call of a run. */
  lemma ReadStep(input: seq<Byte>, n: nat)
    requires n > 0 && ReadMany(input, n).Some?
    ensures ReadMany(input, n - 1).Some?
    ensures var before, p := ReadMany(input, n - 1).value, ReadMany(input, n).value;
            && |before.records| == |before.events| == n - 1
            && before.state.offset + RECORD_SIZE <= |input| && Next(input, before.state).Got?
            && var h, Got(r, next) := HeaderAt(input, before.state.offset), Next(input, before.state);
               && p == Progress(before.records + [r], before.events + [EventOf(h)],
                                if r.kind.Begin? then before.state.offset else before.begin, next)
               && FrameStep(before.state.flags, EventOf(h)) == Some(next.flags)
               && r.streamOffset == before.state.offset && r.payload == input[before.state.offset + RECORD_SIZE..next.offset]
               && next.offset == before.state.offset + RECORD_SIZE + |r.payload| <= |input|
               && (next.sawEnd <==> before.state.sawEnd || r.kind.End?)
               && (r.kind.Begin? <==> U32At(h, 0) == 0)
               && (U32At(h, 0) == 0 ==> next.started) && (before.state.started ==> next.started)
  {
    hide Validate;
    hide PayloadSize;
    hide FrameStep;
    hide EventOf;
    hide Reachable;
    var st := ReadMany(input, n - 1).value.state;
    NextFollowsFraming(input, st);
    KindMatchesType(HeaderAt(input, st.offset));
    hide DecodeKind;
  }

  lemma ReadNone(input: seq<Byte>)
    ensures ReadMany(input, 0) == Some(Progress([], [], 0, READER_START))
    ensures Located(input, []) && TotalSize([]) == 0 && !Replay.SawEnd([]) && FrameRun(CLOSED, []) == Some(CLOSED)
  {
  }

  lemma LocatedSnoc(input: seq<Byte>, records: seq<Record>, r: Record)
    requires Located(input, records) && r.streamOffset == TotalSize(records)
    requires Slice(input, r.streamOffset + RECORD_SIZE, |r.payload|) == Some(r.payload)
    ensures Located(input, records + [r])
    ensures TotalSize(records + [r]) == TotalSize(records) + RECORD_SIZE + |r.payload|
  {
    hide Slice;
    var all := records + [r];
    assert all[..|records|] == records;
    forall k | 0 <= k < |all|
      ensures all[k].streamOffset == TotalSize(all[..k])
      ensures Slice(input, all[k].streamOffset + RECORD_SIZE, |all[k].payload|) == Some(all[k].payload)
    {
      if k < |records| {
        assert all[k] == records[k] && all[..k] == records[..k];
      }
    }
  }

  lemma SawEndSnoc(records: seq<Record>, r: Record)
    ensures Replay.SawEnd(records + [r]) <==> Replay.SawEnd(records) || r.kind.End?
  {
    assert (records + [r])[|records|] == r;
    assert forall q :: q in records + [r] <==> q in records || q == r;
  }

  lemma {:induction false} RunsAreLocated(input: seq<Byte>, n: nat)
    requires ReadMany(input, n).Some?
    ensures var p := ReadMany(input, n).value;
            && Located(input, p.records) && p.state.offset == TotalSize(p.records)
            && (p.state.sawEnd <==> Replay.SawEnd(p.records))
  {
    hide ReadMany;
    hide Next;
    hide EventOf;
    hide FrameStep;
    hide Located;
    hide TotalSize;
    hide Replay.SawEnd;
    ReadNone(input);
    if n > 0 {
      ReadStep(input, n);
      RunsAreLocated(input, n - 1);
      var before := ReadMany(input, n - 1).value;
      LocatedSnoc(input, before.records, Next(input, before.state).record);
      SawEndSnoc(before.records, Next(input, before.state).record);
    }
  }

  lemma StartedWhenReading(input: seq<Byte>, n: nat)
    requires n > 0 && ReadMany(input, n).Some?
    ensures ReadMany(input, n).value.state.started
  {
    ReadStep(input, n);
    hide Validate;
    hide PayloadSize;
    hide DecodeKind;
    hide EventOf;
    hide FrameStep;
  }

  lemma {:induction false} RunsFollowFraming(input: seq<Byte>, n: nat)
    requires ReadMany(input, n).Some?
    ensures FrameRun(CLOSED, ReadMany(input, n).value.events) == Some(ReadMany(input, n).value.state.flags)
    ensures n > 0 ==> ReadMany(input, n).value.state.started
  {
    hide ReadMany;
    hide Next;
    hide EventOf;
    hide FrameRun;
    hide FrameStep;
    ReadNone(input);
    if n > 0 {
      ReadStep(input, n);
      RunsFollowFraming(input, n - 1);
      StartedWhenReading(input, n);
      var before := ReadMany(input, n - 1).value;
      FrameRunAppend(CLOSED, before.events, [EventOf(HeaderAt(input, before.state.offset))]);
      FrameOne(before.state.flags, EventOf(HeaderAt(input, before.state.offset)));
    }
  }

  /** A non-empty send file is read to its end without error only if its records are a concatenation of
      substreams and concluded packages; and at the end of the input the reader stops cleanly in that case only. */
  lemma AcceptedFilesAreGrammatical(input: seq<Byte>, n: nat)
    requires n > 0 && ReadMany(input, n).Some? && ReadMany(input, n).value.state.offset == |input|
    ensures Next(input, ReadMany(input, n).value.state).EndOfInput?
            <==> exists items :: ItemsOk(items) && Flat(items) == ReadMany(input, n).value.events
  {
    RunsFollowFraming(input, n);
    FramingIsTheGrammar(ReadMany(input, n).value.events);
  }

  // ---------- What the checksums mean ----------

  /** Inside a segment the running sums are the one-pass checksum of all bytes since its BEGIN. */
  predicate Covered(input: seq<Byte>, st: ReaderState, begin: nat) {
    st.flags.segmentOpen ==>
      begin <= st.offset <= |input| && (st.offset - begin) % 4 == 0 && st.sums == Checksum(input[begin..st.offset])
  }

  predicate SumsCover(input: seq<Byte>, p: Progress) { Covered(input, p.state, p.begin) }

  lemma Extend(input: seq<Byte>, begin: nat, middle: nat, end: nat)
    requires begin <= middle <= end <= |input| && (middle - begin) % 4 == 0 && (end - middle) % 4 == 0
    ensures (end - begin) % 4 == 0
    ensures Checksum(input[begin..end]) == Fold(Checksum(input[begin..middle]), Words(input[middle..end]))
  {
    assert input[begin..end] == input[begin..middle] + input[middle..end];
    assert end - begin == (middle - begin) + (end - middle);
    SplitUpdate(input[begin..middle], input[middle..end]);
  }

  /** Validating a record folds exactly its header and payload into the running sums. */
  lemma ValidateCovers(input: seq<Byte>, begin: nat, offset: nat, end: nat, sums: Sums)
    requires offset + RECORD_SIZE <= end <= |input|
    requires var h := HeaderAt(input, offset);
             && Validate(sums, h, input[offset + RECORD_SIZE..end]).Ok?
             && U32At(h, 0) != 5
             && (U32At(h, 0) != 0 ==> begin <= offset && (offset - begin) % 4 == 0 && sums == Checksum(input[begin..offset]))
    ensures var h := HeaderAt(input, offset);
            var from := if U32At(h, 0) == 0 then offset else begin;
            && (end - from) % 4 == 0
            && Validate(sums, h, input[offset + RECORD_SIZE..end]).value == Checksum(input[from..end])
  {
    hide Words;
    hide Fold;
    hide ReadChecksum;
    var h := HeaderAt(input, offset);
    var from := if U32At(h, 0) == 0 then offset else begin;
    if U32At(h, 0) != 0 {
      assert h[..CHECKSUM_OFFSET] == input[offset..offset + CHECKSUM_OFFSET];
      assert h[CHECKSUM_OFFSET..] == input[offset + CHECKSUM_OFFSET..offset + RECORD_SIZE];
      Extend(input, begin, offset, offset + CHECKSUM_OFFSET);
      Extend(input, begin, offset + CHECKSUM_OFFSET, offset + RECORD_SIZE);
    }
    Extend(input, from, offset + RECORD_SIZE, end);
  }

  /** What acceptance says about an accepted record's type and sums. */
  predicate Accepted(st: ReaderState, h: Header, r: Record, next: ReaderState) {
    && (st.flags.segmentOpen ==> U32At(h, 0) != 0)
    && (!st.flags.segmentOpen ==> U32At(h, 0) == 0 || U32At(h, 0) == 5)
    && (st.flags.segmentOpen || U32At(h, 0) != 5 ==> Validate(st.sums, h, r.payload) == Ok(next.sums))
    && (U32At(h, 0) == 5 ==> !next.flags.segmentOpen)
    && (r.kind.Begin? <==> U32At(h, 0) == 0)
  }

  lemma NextAccepts(input: seq<Byte>, st: ReaderState)
    requires st.offset <= |input| && Next(input, st).Got?
    ensures st.offset + RECORD_SIZE <= |input|
    ensures Accepted(st, HeaderAt(input, st.offset), Next(input, st).record, Next(input, st).next)
  {
    hide Validate;
    hide PayloadSize;
    hide DecodeKind;
    hide ZeroFilled;
    if st.offset + RECORD_SIZE <= |input| && U32At(HeaderAt(input, st.offset), 0) < DRR_NUMTYPES
       && DecodeKind(HeaderAt(input, st.offset)).Ok? {
      KindMatchesType(HeaderAt(input, st.offset));
    }
  }

  /** An accepted record keeps the running sums equal to the one-pass checksum of the segment so far. */
  lemma AcceptedCovers(input: seq<Byte>, st: ReaderState, r: Record, next: ReaderState, begin: nat)
    requires Covered(input, st, begin) && st.offset + RECORD_SIZE <= next.offset <= |input|
    requires r.payload == input[st.offset + RECORD_SIZE..next.offset]
    requires Accepted(st, HeaderAt(input, st.offset), r, next)
    ensures Covered(input, next, if r.kind.Begin? then st.offset else begin)
  {
    hide Validate;
    hide Checksum;
    var h := HeaderAt(input, st.offset);
    if U32At(h, 0) != 5 {
      ValidateCovers(input, begin, st.offset, next.offset, st.sums);
    }
  }

  lemma {:induction false} SumsAlwaysCover(input: seq<Byte>, n: nat)
    requires ReadMany(input, n).Some?
    ensures SumsCover(input, ReadMany(input, n).value)
  {
    hide ReadMany;
    hide Next;
    hide Checksum;
    hide EventOf;
    hide FrameStep;
    hide Accepted;
    ReadNone(input);
    if n > 0 {
      ReadStep(input, n);
      SumsAlwaysCover(input, n - 1);
      var before := ReadMany(input, n - 1).value;
      NextAccepts(input, before.state);
      AcceptedCovers(input, before.state, Next(input, before.state).record, Next(input, before.state).next, before.begin);
    }
  }

  /** The checksum fields of a record that validates against sums covering [begin, offset) are the one-pass
      Fletcher-4 of the bytes they stand for. */
  lemma FieldsAreOnePass(input: seq<Byte>, begin: nat, offset: nat, payload: seq<Byte>)
    requires begin <= offset && offset + RECORD_SIZE <= |input| && (offset - begin) % 4 == 0
    requires var h := HeaderAt(input, offset);
             U32At(h, 0) != 0 && Validate(Checksum(input[begin..offset]), h, payload).Ok?
    ensures (offset + CHECKSUM_OFFSET - begin) % 4 == 0
    ensures var h := HeaderAt(input, offset);
            && (ReadChecksum(h, CHECKSUM_OFFSET) != ZERO ==>
                  ReadChecksum(h, CHECKSUM_OFFSET) == Checksum(input[begin..offset + CHECKSUM_OFFSET]))
            && (U32At(h, 0) == 5 && ReadChecksum(h, 8) != ZERO ==> ReadChecksum(h, 8) == Checksum(input[begin..offset]))
  {
    hide Words;
    hide Fold;
    hide ReadChecksum;
    var h := HeaderAt(input, offset);
    assert h[..CHECKSUM_OFFSET] == input[offset..offset + CHECKSUM_OFFSET];
    Extend(input, begin, offset, offset + CHECKSUM_OFFSET);
  }

  /** A non-zero record trailer or END checksum the reader accepts equals one-pass Fletcher-4 over all bytes
      since that substream's BEGIN. */
  predicate ChecksumsMeanOnePass(input: seq<Byte>, p: Progress) {
    && p.begin <= p.state.offset && p.state.offset + RECORD_SIZE <= |input|
    && (p.state.offset - p.begin) % 4 == 0 && (p.state.offset + CHECKSUM_OFFSET - p.begin) % 4 == 0
    && var h := HeaderAt(input, p.state.offset);
       && (ReadChecksum(h, CHECKSUM_OFFSET) != ZERO ==>
             ReadChecksum(h, CHECKSUM_OFFSET) == Checksum(input[p.begin..p.state.offset + CHECKSUM_OFFSET]))
       && (U32At(h, 0) == 5 && ReadChecksum(h, 8) != ZERO ==>
             ReadChecksum(h, 8) == Checksum(input[p.begin..p.state.offset]))
  }

  lemma AcceptedChecksumsAreOnePass(input: seq<Byte>, n: nat)
    requires ReadMany(input, n).Some? && ReadMany(input, n).value.state.flags.segmentOpen
    requires Next(input, ReadMany(input, n).value.state).Got?
    ensures ChecksumsMeanOnePass(input, ReadMany(input, n).value)
  {
    hide ReadMany;
    hide Next;
    hide Checksum;
    hide Validate;
    hide ReadChecksum;
    SumsAlwaysCover(input, n);
    var p := ReadMany(input, n).value;
    NextAccepts(input, p.state);
    FieldsAreOnePass(input, p.begin, p.state.offset, Next(input, p.state).record.payload);
  }
}
