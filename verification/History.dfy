/** Applying incrementals one by one against extracting from the concatenated history. Apply acts on every record of
    its stream; extraction acts on the records of selected substreams, and cuts the file to its size in between. */
module History {
  import opened Bytes
  import opened Records
  import opened Sparse
  import opened Replay
  import opened Incremental
  import opened Planning

  // ---------- GUIDs ----------

  function Extended(plan: Plan, guid: U64): Plan { plan.(chain := plan.chain + [guid]) }

  predicate OpensSubstream(r: Record) { r.kind.Begin? && r.kind.begin.headerType == DMU_SUBSTREAM }

  /** No substream of a record sequence carries this GUID. */
  predicate GuidUnused(records: seq<Record>, guid: U64) {
    forall r :: r in records && OpensSubstream(r) ==> r.kind.begin.toGuid != guid
  }

  /** Every substream of a record sequence carries this GUID. */
  predicate OnlyGuid(records: seq<Record>, guid: U64) {
    forall r :: r in records && OpensSubstream(r) ==> r.kind.begin.toGuid == guid
  }

  /** The GUID of the last substream of an incremental stream. */
  function GuidOf(records: seq<Record>): Option<U64>
    decreases |records|
  {
    if records == [] then None
    else
      var last := records[|records| - 1];
      if OpensSubstream(last) then Some(last.kind.begin.toGuid) else GuidOf(records[..|records| - 1])
  }

  // ---------- Where the two files differ ----------

  /** No offset of the map lies below a size. */
  predicate NoneBelow(apart: map<nat, Byte>, size: nat) { forall i :: i in apart ==> size <= i }

  /** The offsets where a base replay holds a non-zero byte at or past the size extraction cut it to. */
  function Hidden(data: seq<Byte>, size: nat): map<nat, Byte> { map i: nat | size <= i < |data| && data[i] != 0 :: 0 }

  /** The offsets where two files differ, each zero past its end, with the bytes of the second. */
  function Differing(a: seq<Byte>, b: seq<Byte>): map<nat, Byte> {
    map i: nat | i < Max(|a|, |b|) && At(a, i) != At(b, i) :: At(b, i)
  }

  /** The byte of the applied file, from the chain's and where they differ. */
  function Shown(data: seq<Byte>, apart: map<nat, Byte>, i: nat): Byte { if i in apart then apart[i] else At(data, i) }

  /** The byte a write of `length` bytes that starts with `text` and is zero behind it stores at i. */
  function Stored(text: seq<Byte>, offset: nat, i: nat): Byte
    requires offset <= i
  {
    At(text, i - offset)
  }

  /** The offsets of a range where a file does not already hold the text, zero-extended. */
  function Clash(data: seq<Byte>, offset: nat, length: nat, text: seq<Byte>): map<nat, Byte> {
    map i: nat | i < Max(|data|, offset + |text|) && InRange(i, offset, length) && At(data, i) != Stored(text, offset, i)
      :: Stored(text, offset, i)
  }

  /** A record that overwrites a range: in a selected substream on both sides, elsewhere on the applied side alone. */
  function Touched(chain: Eager, apart: map<nat, Byte>, offset: nat, length: nat, text: seq<Byte>): map<nat, Byte> {
    Outside(apart, offset, length) + if chain.active then map[] else Clash(chain.data, offset, length, text)
  }

  /** Replay starts the file over, which apply never does: the applied file's non-zero bytes are then apart. */
  function StartedOver(data: seq<Byte>, apart: map<nat, Byte>): map<nat, Byte> {
    (Differing([], data) - apart.Keys) + map i | i in apart && apart[i] != 0 :: apart[i]
  }

  /** An OBJECT record on which replay starts the file over: the object is not live. */
  predicate Restarts(chain: Eager, id: U64, r: Record) {
    r.kind.Object? && r.kind.dnode.objectId == id && chain.active && !chain.live
  }

  function DivergedStep(codec: Codec, id: U64, chain: Eager, apart: map<nat, Byte>, r: Record): map<nat, Byte> {
    match r.kind
    case Object(_) => if Restarts(chain, id, r) then StartedOver(chain.data, apart) else apart
    case Write(write) =>
      var text := codec.DecodeReplayWrite(write.compression, r.payload, write.logicalSize);
      if write.objectId != id || text.None? then apart
      else Touched(chain, apart, write.offset, |text.value|, text.value)
    case WriteEmbedded(write) =>
      var text := codec.DecodeEmbeddedWrite(write.compression, write.embeddedType, r.payload, write.physicalSize, write.logicalSize);
      if write.objectId != id || text.None? then apart
      else Touched(chain, apart, write.offset, write.length, text.value)
    case Free(objectId, offset, length) => if objectId != id then apart else Touched(chain, apart, offset, length, [])
    case _ => apart
  }

  /** The offsets at which applying an increment and replaying it behind its history leave different bytes, with the
      applied ones, worked out from the replay alone: where the two start apart and nothing rewrites, what records
      outside every selected substream change, and what a replay that starts the file over loses. */
  function Diverged(codec: Codec, plan: Plan, id: U64, base: seq<Record>, start: map<nat, Byte>, inc: seq<Record>): map<nat, Byte>
    decreases |inc|
  {
    if inc == [] then start
    else
      var earlier := inc[..|inc| - 1];
      var chain := EagerRun(codec, plan, id, base + earlier);
      if chain.None? then map[]
      else DivergedStep(codec, id, chain.value, Diverged(codec, plan, id, base, start, earlier), inc[|inc| - 1])
  }

  // ---------- The relation both sides keep ----------

  ghost predicate Tracks(chain: seq<Byte>, applied: seq<Byte>, apart: map<nat, Byte>, i: nat) {
    && (i in apart <==> At(chain, i) != At(applied, i))
    && Shown(chain, apart, i) == At(applied, i)
  }

  ghost predicate Tracked(chain: seq<Byte>, applied: seq<Byte>, apart: map<nat, Byte>) {
    forall i: nat :: i < U64_MAX ==> Tracks(chain, applied, apart, i)
  }

  lemma DifferingTracks(a: seq<Byte>, b: seq<Byte>)
    ensures Tracked(a, b, Differing(a, b))
  {
    forall i: nat
      ensures Tracks(a, b, Differing(a, b), i)
    {
      assert i in Differing(a, b) <==> i < Max(|a|, |b|) && At(a, i) != At(b, i);
    }
  }

  /** Cutting a file to a size changes it at the bytes it hides. */
  lemma TruncationHides(base: seq<Byte>, size: nat)
    ensures Differing(base, Resized(base, size)) == Hidden(base, size)
  {
    forall i: nat
      ensures i in Differing(base, Resized(base, size)) <==> i in Hidden(base, size)
    {
      assert i < size ==> Resized(base, size)[i] == At(base, i);
    }
  }

  lemma StartedOverTracks(chain: seq<Byte>, applied: seq<Byte>, apart: map<nat, Byte>)
    requires Tracked(chain, applied, apart)
    ensures Tracked([], applied, StartedOver(chain, apart))
  {
    forall i: nat | i < U64_MAX
      ensures Tracks([], applied, StartedOver(chain, apart), i)
    {
      assert Tracks(chain, applied, apart, i);
      assert i in StartedOver(chain, apart) <==> Shown(chain, apart, i) != 0;
    }
  }

  /** A file after a range was overwritten. */
  ghost predicate Overwrites(before: seq<Byte>, after: seq<Byte>, offset: nat, length: nat, text: seq<Byte>) {
    forall i: nat :: i < U64_MAX ==> At(after, i) == if InRange(i, offset, length) then Stored(text, offset, i) else At(before, i)
  }

  lemma BothTouched(chain: Eager, next: seq<Byte>, applied: seq<Byte>, after: seq<Byte>, apart: map<nat, Byte>, offset: nat,
                    length: nat, text: seq<Byte>)
    requires Tracked(chain.data, applied, apart) && Overwrites(applied, after, offset, length, text)
    requires if chain.active then Overwrites(chain.data, next, offset, length, text) else next == chain.data
    ensures Tracked(next, after, Touched(chain, apart, offset, length, text))
  {
    forall i: nat | i < U64_MAX
      ensures Tracks(next, after, Touched(chain, apart, offset, length, text), i)
    {
      assert Tracks(chain.data, applied, apart, i);
      if InRange(i, offset, length) && !chain.active {
        ClashMember(chain.data, offset, length, text, i);
      }
    }
  }

  lemma ClashMember(data: seq<Byte>, offset: nat, length: nat, text: seq<Byte>, i: nat)
    requires InRange(i, offset, length)
    ensures var clash := Clash(data, offset, length, text);
            && (i in clash <==> At(data, i) != Stored(text, offset, i))
            && (i in clash ==> clash[i] == Stored(text, offset, i))
  {
  }

  lemma ExtentOverwrites(data: seq<Byte>, offset: U64, text: seq<Byte>)
    requires Extent(data, offset, text).0
    ensures Overwrites(data, Extent(data, offset, text).1, offset, |text|, text)
  {
    ExtentBytes(data, offset, text);
    ExtentSucceeds(data, offset, text);
  }

  lemma ZeroedOverwrites(data: seq<Byte>, offset: U64, length: U64)
    ensures Overwrites(data, Zeroed(data, offset, length), offset, length, [])
  {
    ZeroedBytes(data, offset, length);
  }

  lemma ReplacedOverwrites(data: seq<Byte>, offset: U64, length: U64, text: seq<Byte>)
    requires Replaced(data, offset, length, text).Some?
    ensures Overwrites(data, Replaced(data, offset, length, text).value, offset, length, text)
  {
    ZeroedOverwrites(data, offset, length);
    ExtentOverwrites(Zeroed(data, offset, length), offset, text);
  }

  /** Whether a write fits does not depend on the file. */
  lemma SameVerdicts(a: seq<Byte>, b: seq<Byte>, offset: U64, length: U64, text: seq<Byte>)
    ensures Extent(a, offset, text).0 == Extent(b, offset, text).0
    ensures Replaced(a, offset, length, text).Some? == Replaced(b, offset, length, text).Some?
  {
    ExtentSucceeds(a, offset, text);
    ExtentSucceeds(b, offset, text);
    ExtentSucceeds(Zeroed(a, offset, length), offset, text);
    ExtentSucceeds(Zeroed(b, offset, length), offset, text);
  }

  // ---------- One record ----------

  /** Replay accepts a record and sees the GUIDs it selects. */
  predicate Follows(plan: Plan, before: Eager, next: Option<Eager>, r: Record) {
    && next.Some?
    && next.value.seen == before.seen + if r.kind.Begin? && plan.Selects(r.kind.begin) then {r.kind.begin.toGuid} else {}
  }

  /** One record keeps the relation; whenever apply accepts it, so does the chain replay. */
  lemma StepTracked(codec: Codec, plan: Plan, sidecar: Sidecar, chain: Eager, st: Applying, apart: map<nat, Byte>, r: Record)
    requires !plan.raw && Tracked(chain.data, st.data, apart)
    requires var after := ApplyStep(codec, sidecar, st, r); after.Some? && !after.value.deleted
    ensures Follows(plan, chain, EagerStep(codec, plan, sidecar.objectId, chain, r), r)
    ensures Tracked(EagerStep(codec, plan, sidecar.objectId, chain, r).value.data, ApplyStep(codec, sidecar, st, r).value.data,
                    DivergedStep(codec, sidecar.objectId, chain, apart, r))
  {
    hide Extent;
    hide Zeroed;
    hide Replaced;
    hide Tracked;
    hide Overwrites;
    hide Touched;
    hide StartedOver;
    var next, after := EagerStep(codec, plan, sidecar.objectId, chain, r), ApplyStep(codec, sidecar, st, r).value;
    match r.kind
    case Object(_) =>
      if Restarts(chain, sidecar.objectId, r) {
        StartedOverTracks(chain.data, st.data, apart);
      }
    case Write(write) =>
      if write.objectId == sidecar.objectId {
        var text := codec.DecodeReplayWrite(write.compression, r.payload, write.logicalSize).value;
        SameVerdicts(chain.data, st.data, write.offset, 0, text);
        ExtentOverwrites(st.data, write.offset, text);
        if chain.active { ExtentOverwrites(chain.data, write.offset, text); }
        BothTouched(chain, next.value.data, st.data, after.data, apart, write.offset, |text|, text);
      }
    case WriteEmbedded(write) =>
      if write.objectId == sidecar.objectId {
        var text := codec.DecodeEmbeddedWrite(write.compression, write.embeddedType, r.payload, write.physicalSize,
                                              write.logicalSize).value;
        SameVerdicts(chain.data, st.data, write.offset, write.length, text);
        ReplacedOverwrites(st.data, write.offset, write.length, text);
        if chain.active { ReplacedOverwrites(chain.data, write.offset, write.length, text); }
        BothTouched(chain, next.value.data, st.data, after.data, apart, write.offset, write.length, text);
      }
    case Free(objectId, offset, length) =>
      if objectId == sidecar.objectId {
        ZeroedOverwrites(st.data, offset, length);
        if chain.active { ZeroedOverwrites(chain.data, offset, length); }
        BothTouched(chain, next.value.data, st.data, after.data, apart, offset, length, []);
      }
    case _ =>
  }

  // ---------- Runs over a whole increment ----------

  lemma RunSnoc(codec: Codec, plan: Plan, id: U64, front: seq<Record>, r: Record)
    ensures EagerRun(codec, plan, id, front + [r])
         == var before := EagerRun(codec, plan, id, front);
            if before.None? then None else EagerStep(codec, plan, id, before.value, r)
  {
    assert (front + [r])[..|front|] == front;
  }

  lemma DeletionSticks(codec: Codec, sidecar: Sidecar, st: Applying, r: Record)
    requires ApplyStep(codec, sidecar, st, r).Some? && st.deleted
    ensures ApplyStep(codec, sidecar, st, r).value.deleted
  {
  }

  /** Apply accepts one substream only, and remembers its BEGIN. */
  lemma BeginStep(codec: Codec, sidecar: Sidecar, st: Applying, r: Record)
    requires ApplyStep(codec, sidecar, st, r).Some?
    ensures var after := ApplyStep(codec, sidecar, st, r).value;
            if OpensSubstream(r) then st.begin.None? && after.begin == Some(r.kind.begin) else after.begin == st.begin
  {
  }

  lemma {:induction false} OneSubstream(codec: Codec, sidecar: Sidecar, start: Applying, inc: seq<Record>)
    requires start.begin.None? && ApplyRun(codec, sidecar, start, inc).Some?
    ensures var begin := ApplyRun(codec, sidecar, start, inc).value.begin;
            if begin.Some? then GuidOf(inc) == Some(begin.value.toGuid) && OnlyGuid(inc, begin.value.toGuid)
            else GuidOf(inc) == None && forall r :: r in inc ==> !OpensSubstream(r)
    decreases |inc|
  {
    hide ApplyStep;
    if inc != [] {
      var n := |inc| - 1;
      OneSubstream(codec, sidecar, start, inc[..n]);
      BeginStep(codec, sidecar, ApplyRun(codec, sidecar, start, inc[..n]).value, inc[n]);
      assert forall r :: r in inc ==> r in inc[..n] || r == inc[n];
    }
  }

  predicate Started(inc: seq<Record>) { exists r :: r in inc && OpensSubstream(r) }

  lemma StartedSnoc(front: seq<Record>, r: Record)
    ensures Started(front + [r]) <==> Started(front) || OpensSubstream(r)
  {
    assert forall q :: q in front + [r] <==> q in front || q == r;
  }

  lemma ApplyUnfolds(codec: Codec, sidecar: Sidecar, start: Applying, inc: seq<Record>, n: nat)
    requires |inc| == n + 1 && ApplyRun(codec, sidecar, start, inc).Some?
    ensures ApplyRun(codec, sidecar, start, inc[..n]).Some?
    ensures var before := ApplyRun(codec, sidecar, start, inc[..n]).value;
            && ApplyRun(codec, sidecar, start, inc) == ApplyStep(codec, sidecar, before, inc[n])
            && (before.deleted ==> ApplyRun(codec, sidecar, start, inc).value.deleted)
  {
    var before := ApplyRun(codec, sidecar, start, inc[..n]).value;
    if before.deleted {
      DeletionSticks(codec, sidecar, before, inc[n]);
    }
  }

  lemma DivergedUnfolds(codec: Codec, plan: Plan, id: U64, base: seq<Record>, start: map<nat, Byte>, inc: seq<Record>, n: nat)
    requires |inc| == n + 1 && EagerRun(codec, plan, id, base + inc[..n]).Some?
    ensures Diverged(codec, plan, id, base, start, inc)
         == DivergedStep(codec, id, EagerRun(codec, plan, id, base + inc[..n]).value,
                         Diverged(codec, plan, id, base, start, inc[..n]), inc[n])
  {
    hide DivergedStep;
    hide EagerRun;
  }

  lemma OnlyGuidSnoc(inc: seq<Record>, n: nat, guid: U64)
    requires |inc| == n + 1 && OnlyGuid(inc, guid)
    ensures OnlyGuid(inc[..n], guid) && (OpensSubstream(inc[n]) ==> inc[n].kind.begin.toGuid == guid)
    ensures Started(inc) <==> Started(inc[..n]) || OpensSubstream(inc[n])
  {
    assert inc == inc[..n] + [inc[n]] && inc[n] in inc;
    StartedSnoc(inc[..n], inc[n]);
    hide Started;
  }

  lemma FollowsGuid(plan: Plan, before: Eager, next: Option<Eager>, r: Record, guid: U64)
    requires Follows(plan, before, next, r) && !plan.raw && guid in plan.chain
    requires OpensSubstream(r) ==> r.kind.begin.toGuid == guid
    ensures next.Some? && next.value.seen == before.seen + if OpensSubstream(r) then {guid} else {}
  {
  }

  /** A chain replay that has followed an increment, and where the applied file differs from it. */
  ghost predicate Abreast(first: Eager, next: Option<Eager>, applied: seq<Byte>, apart: map<nat, Byte>, seen: set<U64>) {
    next.Some? && next.value.seen == first.seen + seen && Tracked(next.value.data, applied, apart)
  }

  /** Both sides over an increment: replay accepts what apply accepts, and they differ exactly at `Diverged`. */
  lemma {:induction false} RunTracked(codec: Codec, plan: Plan, sidecar: Sidecar, start: Applying, base: seq<Record>,
                                      apart: map<nat, Byte>, inc: seq<Record>, guid: U64)
    requires !plan.raw && guid in plan.chain && OnlyGuid(inc, guid)
    requires var chain := EagerRun(codec, plan, sidecar.objectId, base);
             chain.Some? && Tracked(chain.value.data, start.data, apart)
    requires var run := ApplyRun(codec, sidecar, start, inc); run.Some? && !run.value.deleted
    ensures Abreast(EagerRun(codec, plan, sidecar.objectId, base).value, EagerRun(codec, plan, sidecar.objectId, base + inc),
                    ApplyRun(codec, sidecar, start, inc).value.data, Diverged(codec, plan, sidecar.objectId, base, apart, inc),
                    if Started(inc) then {guid} else {})
    decreases |inc|
  {
    hide EagerRun;
    hide EagerStep;
    hide ApplyRun;
    hide ApplyStep;
    hide DivergedStep;
    hide Tracked;
    hide Started;
    hide OnlyGuid;
    hide OpensSubstream;
    hide Follows;
    if inc == [] {
      NotStarted();
      ApplyRunNone(codec, sidecar, start);
      assert base + inc == base;
    } else {
      hide Diverged;
      var n := |inc| - 1;
      var id, earlier, last := sidecar.objectId, inc[..n], inc[n];
      ApplyUnfolds(codec, sidecar, start, inc, n);
      OnlyGuidSnoc(inc, n, guid);
      RunTracked(codec, plan, sidecar, start, base, apart, earlier, guid);
      assert base + inc == (base + earlier) + [last];
      RunSnoc(codec, plan, id, base + earlier, last);
      DivergedUnfolds(codec, plan, id, base, apart, inc, n);
      var chain, before := EagerRun(codec, plan, id, base + earlier).value, ApplyRun(codec, sidecar, start, earlier).value;
      StepTracked(codec, plan, sidecar, chain, before, Diverged(codec, plan, id, base, apart, earlier), last);
      FollowsGuid(plan, chain, EagerRun(codec, plan, id, base + inc), last, guid);
    }
  }

  lemma NotStarted()
    ensures !Started([])
  {
  }

  /** Records that never carry a GUID replay alike whether or not the plan selects it. */
  lemma {:induction false} UnusedGuidIsHarmless(codec: Codec, plan: Plan, id: U64, records: seq<Record>, guid: U64)
    requires GuidUnused(records, guid)
    ensures EagerRun(codec, Extended(plan, guid), id, records) == EagerRun(codec, plan, id, records)
    decreases |records|
  {
    if records != [] {
      var n := |records| - 1;
      UnusedGuidIsHarmless(codec, plan, id, records[..n], guid);
      assert records[n] in records;
      if records[n].kind.Begin? {
        assert Extended(plan, guid).Selects(records[n].kind.begin) == plan.Selects(records[n].kind.begin);
      }
    }
  }

  lemma {:induction false} SeenFromChain(codec: Codec, plan: Plan, id: U64, records: seq<Record>)
    requires EagerRun(codec, plan, id, records).Some?
    ensures forall g :: g in EagerRun(codec, plan, id, records).value.seen ==> g in plan.chain
    decreases |records|
  {
    if records != [] {
      SeenFromChain(codec, plan, id, records[..|records| - 1]);
    }
  }

  // ---------- One increment ----------

  /** Extraction of the object succeeds. */
  predicate Extractable(codec: Codec, plan: Plan, id: U64, records: seq<Record>) {
    EagerResult(codec, plan, id, records).Some?
  }

  /** The base replayed with one more GUID selected; the same replay unless a substream of the base carries it. */
  function Rebased(codec: Codec, plan: Plan, id: U64, base: seq<Record>, guid: U64): Option<Eager> {
    EagerRun(codec, Extended(plan, guid), id, base)
  }

  lemma {:induction false} ExtendedSeen(codec: Codec, plan: Plan, id: U64, records: seq<Record>, guid: U64)
    requires EagerRun(codec, plan, id, records).Some? && Rebased(codec, plan, id, records, guid).Some? && guid !in plan.chain
    ensures EagerRun(codec, plan, id, records).value.seen + {guid} == Rebased(codec, plan, id, records, guid).value.seen + {guid}
    decreases |records|
  {
    hide EagerStep;
    if records != [] {
      var n := |records| - 1;
      ExtendedSeen(codec, plan, id, records[..n], guid);
      StepSees(codec, plan, id, EagerRun(codec, plan, id, records[..n]).value, records[n]);
      StepSees(codec, Extended(plan, guid), id, Rebased(codec, plan, id, records[..n], guid).value, records[n]);
    }
  }

  lemma StepSees(codec: Codec, plan: Plan, id: U64, st: Eager, r: Record)
    requires EagerStep(codec, plan, id, st, r).Some?
    ensures EagerStep(codec, plan, id, st, r).value.seen
         == st.seen + if r.kind.Begin? && plan.Selects(r.kind.begin) then {r.kind.begin.toGuid} else {}
  {
    hide WriteText;
    hide EmbeddedText;
    hide Replaced;
  }

  lemma {:induction false} SubsetSize(a: set<U64>, b: set<U64>)
    requires a <= b
    ensures |a| <= |b|
    decreases a
  {
    if a != {} {
      var x :| x in a;
      SubsetSize(a - {x}, b - {x});
    }
  }

  /** A plan that names a GUID twice never passes the final count check. */
  lemma RepeatedGuidFails(codec: Codec, plan: Plan, id: U64, records: seq<Record>, guid: U64)
    requires guid in plan.chain
    ensures EagerResult(codec, Extended(plan, guid), id, records) == None
  {
    hide EagerRun;
    var extended := Extended(plan, guid);
    var run := EagerRun(codec, extended, id, records);
    if run.Some? {
      SeenFromChain(codec, extended, id, records);
      CountsAgreeIff(plan.chain);
      assert run.value.seen <= Members(plan.chain);
      SubsetSize(run.value.seen, Members(plan.chain));
    }
  }

  /** Where the increment's base differs from the file it is applied to. */
  function StartsApart(codec: Codec, plan: Plan, id: U64, size: nat, base: seq<Record>, guid: U64): map<nat, Byte>
    requires EagerResult(codec, plan, id, base).Some? && Rebased(codec, plan, id, base, guid).Some?
  {
    Differing(Rebased(codec, plan, id, base, guid).value.data, Resized(EagerResult(codec, plan, id, base).value.data, size))
  }

  lemma IncrementTracked(codec: Codec, plan: Plan, sidecar: Sidecar, base: seq<Record>, inc: seq<Record>, guid: U64)
    requires !plan.raw && Extractable(codec, plan, sidecar.objectId, base) && guid !in plan.chain
    requires Rebased(codec, plan, sidecar.objectId, base, guid).Some?
    requires var chain := EagerResult(codec, plan, sidecar.objectId, base).value;
             var run := ApplyRun(codec, sidecar, ApplyStart(sidecar, Resized(chain.data, sidecar.logicalSize)), inc);
             run.Some? && !run.value.deleted && run.value.begin.Some? && run.value.begin.value.toGuid == guid
    ensures GuidOf(inc) == Some(guid)
    ensures var id, extended := sidecar.objectId, Extended(plan, guid);
            var chain := EagerResult(codec, plan, id, base).value;
            var run := ApplyRun(codec, sidecar, ApplyStart(sidecar, Resized(chain.data, sidecar.logicalSize)), inc);
            && Extractable(codec, extended, id, base + inc)
            && Tracked(EagerResult(codec, extended, id, base + inc).value.data, run.value.data,
                       Diverged(codec, extended, id, base, StartsApart(codec, plan, id, sidecar.logicalSize, base, guid), inc))
  {
    hide EagerRun;
    hide ApplyRun;
    hide Tracked;
    hide Diverged;
    hide Differing;
    var id, extended := sidecar.objectId, Extended(plan, guid);
    var chain, rebased := EagerResult(codec, plan, id, base).value, Rebased(codec, plan, id, base, guid).value;
    var start := ApplyStart(sidecar, Resized(chain.data, sidecar.logicalSize));
    OneSubstream(codec, sidecar, start, inc);
    DifferingTracks(rebased.data, start.data);
    assert extended.chain[|plan.chain|] == guid;
    RunTracked(codec, extended, sidecar, start, base, Differing(rebased.data, start.data), inc, guid);
    GuidMeansStarted(inc);
    SeenFromChain(codec, plan, id, base);
    ExtendedSeen(codec, plan, id, base, guid);
    SeenGrows(codec, plan, id, base, inc, guid);
  }

  lemma {:induction false} GuidMeansStarted(inc: seq<Record>)
    ensures GuidOf(inc).Some? ==> Started(inc)
    decreases |inc|
  {
    if inc != [] {
      var n := |inc| - 1;
      GuidMeansStarted(inc[..n]);
      assert inc == inc[..n] + [inc[n]];
      StartedSnoc(inc[..n], inc[n]);
    }
  }

  lemma SeenGrows(codec: Codec, plan: Plan, id: U64, base: seq<Record>, inc: seq<Record>, guid: U64)
    requires EagerResult(codec, plan, id, base).Some? && guid !in plan.chain
    requires forall g :: g in EagerResult(codec, plan, id, base).value.seen ==> g in plan.chain
    ensures |EagerResult(codec, plan, id, base).value.seen + {guid}| == |Extended(plan, guid).chain|
    ensures SawEnd(base + inc)
  {
    hide EagerRun;
    var r :| r in base && r.kind.End?;
    assert r in base + inc;
  }

  /** What applying an increment to the extracted file gives. */
  function AppliedTo(codec: Codec, plan: Plan, sidecar: Sidecar, base: seq<Record>, inc: seq<Record>): Option<Applied> {
    var file := Extracted(codec, plan, sidecar.objectId, base, sidecar.logicalSize);
    if file.None? then None else Apply(codec, sidecar, file.value, inc)
  }

  /** Where an increment's result differs from its history. */
  function DivergedBy(codec: Codec, plan: Plan, id: U64, size: nat, base: seq<Record>, inc: seq<Record>): map<nat, Byte>
    requires EagerResult(codec, plan, id, base).Some? && GuidOf(inc).Some?
    requires Rebased(codec, plan, id, base, GuidOf(inc).value).Some?
  {
    var guid := GuidOf(inc).value;
    Diverged(codec, Extended(plan, guid), id, base, StartsApart(codec, plan, id, size, base, guid), inc)
  }

  lemma AppliedGuid(codec: Codec, plan: Plan, sidecar: Sidecar, base: seq<Record>, inc: seq<Record>)
    requires Extractable(codec, plan, sidecar.objectId, base) && AppliedTo(codec, plan, sidecar, base, inc).Some?
    ensures GuidOf(inc) == Some(AppliedTo(codec, plan, sidecar, base, inc).value.sidecar.snapshotGuid)
  {
    hide EagerRun;
    hide ApplyRun;
    hide GuidOf;
    OneSubstream(codec, sidecar,
                 ApplyStart(sidecar, Extracted(codec, plan, sidecar.objectId, base, sidecar.logicalSize).value), inc);
  }

  /** Wherever the GUID is not yet in the chain and the base can be replayed with it, applying any incremental stream
      succeeds only where extracting from the whole history succeeds, and at the size apply ends with the two files differ
      exactly at the offsets worked out from the replay. */
  lemma ApplyDivergesExactly(codec: Codec, plan: Plan, sidecar: Sidecar, base: seq<Record>, inc: seq<Record>)
    requires !plan.raw && Extractable(codec, plan, sidecar.objectId, base)
    requires AppliedTo(codec, plan, sidecar, base, inc).Some?
    requires var guid := AppliedTo(codec, plan, sidecar, base, inc).value.sidecar.snapshotGuid;
             && guid !in plan.chain && Rebased(codec, plan, sidecar.objectId, base, guid).Some?
    ensures GuidOf(inc) == Some(AppliedTo(codec, plan, sidecar, base, inc).value.sidecar.snapshotGuid)
    ensures var id, applied := sidecar.objectId, AppliedTo(codec, plan, sidecar, base, inc).value;
            var extended := Extended(plan, applied.sidecar.snapshotGuid);
            && Extractable(codec, extended, id, base + inc)
            && var history := Extracted(codec, extended, id, base + inc, applied.sidecar.logicalSize).value;
               var apart := DivergedBy(codec, plan, id, sidecar.logicalSize, base, inc);
               && |applied.file| == |history|
               && (forall i :: 0 <= i < |history| ==> (applied.file[i] != history[i] <==> i in apart))
               && (forall i :: 0 <= i < |history| && i in apart ==> applied.file[i] == apart[i])
  {
    hide EagerRun;
    hide ApplyRun;
    hide Diverged;
    hide Rebased;
    hide StartsApart;
    var id, applied := sidecar.objectId, AppliedTo(codec, plan, sidecar, base, inc).value;
    var guid := applied.sidecar.snapshotGuid;
    AppliedGuid(codec, plan, sidecar, base, inc);
    IncrementTracked(codec, plan, sidecar, base, inc, guid);
    var chain := EagerResult(codec, plan, id, base).value;
    var run := ApplyRun(codec, sidecar, ApplyStart(sidecar, Resized(chain.data, sidecar.logicalSize)), inc).value;
    var next := EagerResult(codec, Extended(plan, guid), id, base + inc).value;
    var apart := DivergedBy(codec, plan, id, sidecar.logicalSize, base, inc);
    forall i: nat | i < run.newSize
      ensures Resized(run.data, run.newSize)[i] != Resized(next.data, run.newSize)[i] <==> i in apart
      ensures i in apart ==> Resized(run.data, run.newSize)[i] == apart[i]
    {
      assert Tracks(next.data, run.data, apart, i);
    }
  }

  /** The increment's GUID is not yet in the chain, the base replays with it, and nothing diverges below the new size. */
  predicate InStep(codec: Codec, plan: Plan, id: U64, size: nat, base: seq<Record>, inc: seq<Record>, newSize: nat)
    requires EagerResult(codec, plan, id, base).Some? && GuidOf(inc).Some?
  {
    && GuidOf(inc).value !in plan.chain && Rebased(codec, plan, id, base, GuidOf(inc).value).Some?
    && NoneBelow(DivergedBy(codec, plan, id, size, base, inc), newSize)
  }

  lemma {:induction false} PrefixReplays(codec: Codec, plan: Plan, id: U64, base: seq<Record>, more: seq<Record>)
    requires EagerRun(codec, plan, id, base + more).Some?
    ensures EagerRun(codec, plan, id, base).Some?
    decreases |more|
  {
    hide EagerStep;
    if more == [] {
      assert base + more == base;
    } else {
      var n := |more| - 1;
      assert base + more == (base + more[..n]) + [more[n]];
      RunSnoc(codec, plan, id, base + more[..n], more[n]);
      PrefixReplays(codec, plan, id, base, more[..n]);
    }
  }

  /** Behind an increment that applies, the history can be extracted exactly when the increment's GUID is not yet in the
      chain and the base replays with it. */
  lemma HistoryExtractsIff(codec: Codec, plan: Plan, sidecar: Sidecar, base: seq<Record>, inc: seq<Record>)
    requires !plan.raw && Extractable(codec, plan, sidecar.objectId, base)
    requires AppliedTo(codec, plan, sidecar, base, inc).Some?
    ensures GuidOf(inc) == Some(AppliedTo(codec, plan, sidecar, base, inc).value.sidecar.snapshotGuid)
    ensures var guid := GuidOf(inc).value;
            Extractable(codec, Extended(plan, guid), sidecar.objectId, base + inc)
            <==> guid !in plan.chain && Rebased(codec, plan, sidecar.objectId, base, guid).Some?
  {
    hide EagerRun;
    hide ApplyRun;
    hide DivergedBy;
    AppliedGuid(codec, plan, sidecar, base, inc);
    var id, guid := sidecar.objectId, GuidOf(inc).value;
    if guid in plan.chain {
      RepeatedGuidFails(codec, plan, id, base + inc, guid);
    } else if Rebased(codec, plan, id, base, guid).Some? {
      ApplyDivergesExactly(codec, plan, sidecar, base, inc);
    } else if EagerRun(codec, Extended(plan, guid), id, base + inc).Some? {
      PrefixReplays(codec, Extended(plan, guid), id, base, inc);
    }
  }

  /** Apply commutes with extraction exactly for such increments. */
  lemma ApplyCommutesIff(codec: Codec, plan: Plan, sidecar: Sidecar, base: seq<Record>, inc: seq<Record>)
    requires !plan.raw && Extractable(codec, plan, sidecar.objectId, base)
    requires AppliedTo(codec, plan, sidecar, base, inc).Some?
    ensures GuidOf(inc) == Some(AppliedTo(codec, plan, sidecar, base, inc).value.sidecar.snapshotGuid)
    ensures var id, applied := sidecar.objectId, AppliedTo(codec, plan, sidecar, base, inc).value;
            var extended := Extended(plan, applied.sidecar.snapshotGuid);
            Extracted(codec, extended, id, base + inc, applied.sidecar.logicalSize) == Some(applied.file)
            <==> InStep(codec, plan, id, sidecar.logicalSize, base, inc, applied.sidecar.logicalSize)
  {
    hide EagerRun;
    hide ApplyRun;
    hide DivergedBy;
    var id, applied := sidecar.objectId, AppliedTo(codec, plan, sidecar, base, inc).value;
    var guid := applied.sidecar.snapshotGuid;
    AppliedGuid(codec, plan, sidecar, base, inc);
    HistoryExtractsIff(codec, plan, sidecar, base, inc);
    if guid !in plan.chain && Rebased(codec, plan, id, base, guid).Some? {
      ApplyDivergesExactly(codec, plan, sidecar, base, inc);
      var history := Extracted(codec, Extended(plan, guid), id, base + inc, applied.sidecar.logicalSize).value;
      DifferNowhere(applied.file, history, DivergedBy(codec, plan, id, sidecar.logicalSize, base, inc));
      assert |history| == applied.sidecar.logicalSize;
    }
  }

  /** The increment's GUID is new: no substream so far carries it and the plan does not name it. */
  predicate FreshGuid(plan: Plan, base: seq<Record>, guid: U64) { GuidUnused(base, guid) && guid !in plan.chain }

  /** A GUID the base and the plan do not carry: the base replays as it was, and the two files start apart only where
      extraction cut bytes away. */
  lemma FreshGuidRebases(codec: Codec, plan: Plan, id: U64, size: nat, base: seq<Record>, guid: U64)
    requires Extractable(codec, plan, id, base) && FreshGuid(plan, base, guid)
    ensures guid !in plan.chain && Rebased(codec, plan, id, base, guid).Some?
    ensures StartsApart(codec, plan, id, size, base, guid) == Hidden(EagerResult(codec, plan, id, base).value.data, size)
  {
    hide EagerRun;
    hide GuidUnused;
    UnusedGuidIsHarmless(codec, plan, id, base, guid);
    TruncationHides(EagerResult(codec, plan, id, base).value.data, size);
  }

  lemma DifferNowhere(applied: seq<Byte>, history: seq<Byte>, apart: map<nat, Byte>)
    requires |applied| == |history|
    requires forall i :: 0 <= i < |history| ==> (applied[i] != history[i] <==> i in apart)
    ensures history == applied <==> NoneBelow(apart, |history|)
  {
    if i: nat :| i in apart && i < |history| {
      assert applied[i] != history[i];
    }
  }
}
