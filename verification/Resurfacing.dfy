/** Incremental streams whose records for the object all lie in selected substreams: what diverges is read off the
    record headers. */
module Resurfacing {
  import opened Bytes
  import opened Records
  import opened Sparse
  import opened Replay
  import opened Incremental
  import opened History

  // ---------- Records outside every selected substream ----------

  /** A record that changes an object's bytes. */
  predicate Touches(id: U64, r: Record) {
    match r.kind
    case Write(write) => write.objectId == id
    case WriteEmbedded(write) => write.objectId == id
    case Free(objectId, _, _) => objectId == id
    case _ => false
  }

  /** Whether the next record lies in a selected substream. */
  function ActiveAfter(plan: Plan, active: bool, records: seq<Record>): bool
    decreases |records|
  {
    if records == [] then active
    else
      var last := records[|records| - 1];
      if last.kind.Begin? then plan.Selects(last.kind.begin)
      else !last.kind.End? && ActiveAfter(plan, active, records[..|records| - 1])
  }

  /** Everything that changes the object lies in a selected substream. */
  predicate Orderly(plan: Plan, active: bool, id: U64, records: seq<Record>) {
    forall n :: 0 <= n < |records| && Touches(id, records[n]) ==> ActiveAfter(plan, active, records[..n])
  }

  lemma ActiveStep(codec: Codec, plan: Plan, id: U64, chain: Eager, r: Record)
    requires EagerStep(codec, plan, id, chain, r).Some?
    ensures EagerStep(codec, plan, id, chain, r).value.active
         == if r.kind.Begin? then plan.Selects(r.kind.begin) else !r.kind.End? && chain.active
  {
    hide Extent;
    hide Zeroed;
  }

  lemma {:induction false} ActiveByHeaders(codec: Codec, plan: Plan, id: U64, base: seq<Record>, inc: seq<Record>)
    requires EagerRun(codec, plan, id, base + inc).Some?
    ensures EagerRun(codec, plan, id, base).Some?
    ensures EagerRun(codec, plan, id, base + inc).value.active
         == ActiveAfter(plan, EagerRun(codec, plan, id, base).value.active, inc)
    decreases |inc|
  {
    hide EagerRun;
    hide EagerStep;
    if inc == [] {
      assert base + inc == base;
    } else {
      var n := |inc| - 1;
      assert base + inc == (base + inc[..n]) + [inc[n]];
      RunSnoc(codec, plan, id, base + inc[..n], inc[n]);
      ActiveByHeaders(codec, plan, id, base, inc[..n]);
      ActiveStep(codec, plan, id, EagerRun(codec, plan, id, base + inc[..n]).value, inc[n]);
    }
  }

  lemma OrderlyPrefix(plan: Plan, active: bool, id: U64, records: seq<Record>)
    requires records != [] && Orderly(plan, active, id, records)
    ensures Orderly(plan, active, id, records[..|records| - 1])
    ensures Touches(id, records[|records| - 1]) ==> ActiveAfter(plan, active, records[..|records| - 1])
  {
    hide ActiveAfter;
    hide Touches;
    var front := records[..|records| - 1];
    forall n | 0 <= n < |front| && Touches(id, front[n])
      ensures ActiveAfter(plan, active, front[..n])
    {
      assert front[..n] == records[..n];
    }
  }

  /** Replay never starts the file over: the object is live, or no OBJECT record of it lies in a selected substream. */
  predicate NeverRestarts(plan: Plan, active: bool, live: bool, id: U64, records: seq<Record>) {
    live || forall n :: 0 <= n < |records| && Retypes(id, records[n]) ==> !ActiveAfter(plan, active, records[..n])
  }

  predicate Retypes(id: U64, r: Record) { r.kind.Object? && r.kind.dnode.objectId == id }

  lemma NeverRestartsPrefix(plan: Plan, active: bool, live: bool, id: U64, records: seq<Record>)
    requires records != [] && NeverRestarts(plan, active, live, id, records)
    ensures NeverRestarts(plan, active, live, id, records[..|records| - 1])
    ensures live || (Retypes(id, records[|records| - 1]) ==> !ActiveAfter(plan, active, records[..|records| - 1]))
  {
    hide ActiveAfter;
    hide Retypes;
    var front := records[..|records| - 1];
    forall n | 0 <= n < |front| && Retypes(id, front[n]) && !live
      ensures !ActiveAfter(plan, active, front[..n])
    {
      assert front[..n] == records[..n];
    }
  }

  // ---------- Where the files start apart and no record rewrites or frees ----------

  function ResurfacedStep(id: U64, apart: map<nat, Byte>, r: Record): map<nat, Byte> {
    match r.kind
    case Write(write) => if write.objectId != id then apart else Outside(apart, write.offset, write.logicalSize)
    case WriteEmbedded(write) => if write.objectId != id then apart else Outside(apart, write.offset, write.length)
    case Free(objectId, offset, length) => if objectId != id then apart else Outside(apart, offset, length)
    case _ => apart
  }

  /** Of the offsets where the files start apart, those no record rewrites or frees. */
  function Resurfaced(id: U64, apart: map<nat, Byte>, records: seq<Record>): map<nat, Byte>
    decreases |records|
  {
    if records == [] then apart
    else ResurfacedStep(id, Resurfaced(id, apart, records[..|records| - 1]), records[|records| - 1])
  }

  /** A part of a map. */
  ghost predicate Within(part: map<nat, Byte>, whole: map<nat, Byte>) {
    forall i :: i in part ==> i in whole && part[i] == whole[i]
  }

  /** Records only take offsets away, and never change the byte the applied file holds at those that are left. */
  lemma {:induction false} ResurfacedIsPart(id: U64, apart: map<nat, Byte>, records: seq<Record>)
    ensures Within(Resurfaced(id, apart, records), apart)
    decreases |records|
  {
    if records != [] {
      ResurfacedIsPart(id, apart, records[..|records| - 1]);
    }
  }

  /** In a selected substream both sides write alike, so a record only takes offsets away. */
  lemma OrderlyStep(codec: Codec, sidecar: Sidecar, chain: Eager, st: Applying, apart: map<nat, Byte>, r: Record)
    requires codec.Exact() && ApplyStep(codec, sidecar, st, r).Some?
    requires Touches(sidecar.objectId, r) ==> chain.active
    requires chain.live || !chain.active || !Retypes(sidecar.objectId, r)
    ensures DivergedStep(codec, sidecar.objectId, chain, apart, r) == ResurfacedStep(sidecar.objectId, apart, r)
  {
    hide Extent;
    hide Replaced;
    hide Outside;
    hide StartedOver;
  }

  /** An object that apply does not see deleted stays live in the replay. */
  lemma LiveStep(codec: Codec, plan: Plan, sidecar: Sidecar, chain: Eager, st: Applying, r: Record)
    requires EagerStep(codec, plan, sidecar.objectId, chain, r).Some? && ApplyStep(codec, sidecar, st, r).Some?
    requires chain.live && !ApplyStep(codec, sidecar, st, r).value.deleted
    ensures EagerStep(codec, plan, sidecar.objectId, chain, r).value.live
  {
    hide Extent;
    hide Replaced;
    hide Zeroed;
  }

  lemma {:induction false} OrderlyRun(codec: Codec, plan: Plan, sidecar: Sidecar, start: Applying, base: seq<Record>,
                                      apart: map<nat, Byte>, inc: seq<Record>)
    requires codec.Exact()
    requires var run := ApplyRun(codec, sidecar, start, inc); run.Some? && !run.value.deleted
    requires EagerRun(codec, plan, sidecar.objectId, base + inc).Some? && EagerRun(codec, plan, sidecar.objectId, base).Some?
    requires var chain := EagerRun(codec, plan, sidecar.objectId, base).value;
             && Orderly(plan, chain.active, sidecar.objectId, inc)
             && NeverRestarts(plan, chain.active, chain.live, sidecar.objectId, inc)
    ensures Diverged(codec, plan, sidecar.objectId, base, apart, inc) == Resurfaced(sidecar.objectId, apart, inc)
    ensures EagerRun(codec, plan, sidecar.objectId, base).value.live
        ==> EagerRun(codec, plan, sidecar.objectId, base + inc).value.live
    decreases |inc|
  {
    hide EagerRun;
    hide EagerStep;
    hide ApplyRun;
    hide ApplyStep;
    hide DivergedStep;
    hide ResurfacedStep;
    hide Touches;
    hide Retypes;
    hide Orderly;
    hide NeverRestarts;
    var id := sidecar.objectId;
    var first := EagerRun(codec, plan, id, base).value;
    if inc == [] {
      assert base + inc == base;
    } else {
      var n := |inc| - 1;
      var earlier, last := inc[..n], inc[n];
      assert base + inc == (base + earlier) + [last];
      RunSnoc(codec, plan, id, base + earlier, last);
      ApplyUnfolds(codec, sidecar, start, inc, n);
      OrderlyPrefix(plan, first.active, id, inc);
      NeverRestartsPrefix(plan, first.active, first.live, id, inc);
      OrderlyRun(codec, plan, sidecar, start, base, apart, earlier);
      ActiveByHeaders(codec, plan, id, base, earlier);
      var chain, st := EagerRun(codec, plan, id, base + earlier).value, ApplyRun(codec, sidecar, start, earlier).value;
      OrderlyStep(codec, sidecar, chain, st, Resurfaced(id, apart, earlier), last);
      if chain.live {
        LiveStep(codec, plan, sidecar, chain, st, last);
      }
    }
  }

  /** For an orderly increment the two files differ exactly where they start apart and no record rewrites or frees, and
      there the applied file still holds what it held: the extracted byte, or zero where extraction had cut the file. */
  lemma ApplyMasksResurfacedBytes(codec: Codec, plan: Plan, sidecar: Sidecar, base: seq<Record>, inc: seq<Record>)
    requires codec.Exact() && !plan.raw && Extractable(codec, plan, sidecar.objectId, base)
    requires AppliedTo(codec, plan, sidecar, base, inc).Some?
    requires var guid := AppliedTo(codec, plan, sidecar, base, inc).value.sidecar.snapshotGuid;
             guid !in plan.chain && Rebased(codec, plan, sidecar.objectId, base, guid).Some?
    requires var guid := AppliedTo(codec, plan, sidecar, base, inc).value.sidecar.snapshotGuid;
             var rebased := Rebased(codec, plan, sidecar.objectId, base, guid).value;
             && Orderly(Extended(plan, guid), rebased.active, sidecar.objectId, inc)
             && NeverRestarts(Extended(plan, guid), rebased.active, rebased.live, sidecar.objectId, inc)
    ensures GuidOf(inc) == Some(AppliedTo(codec, plan, sidecar, base, inc).value.sidecar.snapshotGuid)
    ensures var id, applied := sidecar.objectId, AppliedTo(codec, plan, sidecar, base, inc).value;
            var size := sidecar.logicalSize;
            var apart := DivergedBy(codec, plan, id, size, base, inc);
            && apart == Resurfaced(id, StartsApart(codec, plan, id, size, base, applied.sidecar.snapshotGuid), inc)
            && forall i :: 0 <= i < |applied.file| && i in apart ==>
                 applied.file[i] == At(Extracted(codec, plan, id, base, size).value, i)
  {
    hide EagerRun;
    hide ApplyRun;
    hide Diverged;
    hide Resurfaced;
    hide Orderly;
    hide NeverRestarts;
    hide StartsApart;
    ApplyDivergesExactly(codec, plan, sidecar, base, inc);
    var id, applied := sidecar.objectId, AppliedTo(codec, plan, sidecar, base, inc).value;
    var guid := applied.sidecar.snapshotGuid;
    var start := ApplyStart(sidecar, Extracted(codec, plan, id, base, sidecar.logicalSize).value);
    var apart := StartsApart(codec, plan, id, sidecar.logicalSize, base, guid);
    OrderlyRun(codec, Extended(plan, guid), sidecar, start, base, apart, inc);
    ResurfacedIsPart(id, apart, inc);
    StartsWithExtracted(codec, plan, id, sidecar.logicalSize, base, guid);
  }

  lemma StartsWithExtracted(codec: Codec, plan: Plan, id: U64, size: nat, base: seq<Record>, guid: U64)
    requires Extractable(codec, plan, id, base) && Rebased(codec, plan, id, base, guid).Some?
    ensures var apart := StartsApart(codec, plan, id, size, base, guid);
            forall i :: i in apart ==> apart[i] == At(Extracted(codec, plan, id, base, size).value, i)
  {
    hide EagerRun;
  }
}
