/** Any number of incrementals: which prefixes of a chain of applies agree with extraction from the history. */
module HistoryChains {
  import opened Bytes
  import opened Records
  import opened Sparse
  import opened Replay
  import opened Incremental
  import opened History

  // ---------- Chains ----------

  function Rest(incs: seq<seq<Record>>): seq<Record>
    decreases |incs|
  {
    if incs == [] then [] else Rest(incs[..|incs| - 1]) + incs[|incs| - 1]
  }

  /** The plan that names every increment's substream in turn. */
  function PlanFor(plan: Plan, incs: seq<seq<Record>>): (extended: Plan)
    ensures extended.raw == plan.raw
    decreases |incs|
  {
    if incs == [] then plan
    else
      var guid := GuidOf(incs[|incs| - 1]);
      var before := PlanFor(plan, incs[..|incs| - 1]);
      if guid.None? then before else Extended(before, guid.value)
  }

  function ApplyAll(codec: Codec, start: Applied, incs: seq<seq<Record>>): Option<Applied>
    decreases |incs|
  {
    if incs == [] then Some(start)
    else
      var before := ApplyAll(codec, start, incs[..|incs| - 1]);
      if before.None? then None else Apply(codec, before.value.sidecar, before.value.file, incs[|incs| - 1])
  }

  /** After a run of increments, the applied file is the file extracted from the history. */
  predicate Commutes(codec: Codec, plan: Plan, base: seq<Record>, start: Applied, incs: seq<seq<Record>>) {
    var so, id := ApplyAll(codec, start, incs), start.sidecar.objectId;
    && so.Some? && so.value.sidecar.objectId == id
    && Extracted(codec, PlanFor(plan, incs), id, base + Rest(incs), so.value.sidecar.logicalSize) == Some(so.value.file)
  }

  /** An increment behind others names a GUID that is not yet in the chain, with which the history replays, and diverges
      nowhere below the size it leaves. */
  predicate Quiet(codec: Codec, plan: Plan, base: seq<Record>, start: Applied, earlier: seq<seq<Record>>, inc: seq<Record>) {
    var before, after := ApplyAll(codec, start, earlier), ApplyAll(codec, start, earlier + [inc]);
    var id, history := start.sidecar.objectId, base + Rest(earlier);
    && before.Some? && after.Some? && GuidOf(inc).Some? && EagerResult(codec, PlanFor(plan, earlier), id, history).Some?
    && InStep(codec, PlanFor(plan, earlier), id, before.value.sidecar.logicalSize, history, inc, after.value.sidecar.logicalSize)
  }

  // ---------- One more increment ----------

  lemma ApplyLast(codec: Codec, start: Applied, earlier: seq<seq<Record>>, inc: seq<Record>)
    ensures ApplyAll(codec, start, earlier + [inc])
         == var before := ApplyAll(codec, start, earlier);
            if before.None? then None else Apply(codec, before.value.sidecar, before.value.file, inc)
  {
    assert (earlier + [inc])[..|earlier|] == earlier;
  }

  lemma RestLast(plan: Plan, base: seq<Record>, earlier: seq<seq<Record>>, inc: seq<Record>)
    ensures base + Rest(earlier + [inc]) == base + Rest(earlier) + inc
    ensures GuidOf(inc).Some? ==> PlanFor(plan, earlier + [inc]) == Extended(PlanFor(plan, earlier), GuidOf(inc).value)
  {
    assert (earlier + [inc])[..|earlier|] == earlier;
  }

  lemma ApplyKeepsObject(codec: Codec, sidecar: Sidecar, target: seq<Byte>, records: seq<Record>)
    ensures var applied := Apply(codec, sidecar, target, records);
            applied.Some? ==> applied.value.sidecar.objectId == sidecar.objectId
  {
  }

  lemma GuidOfApplied(codec: Codec, sidecar: Sidecar, target: seq<Byte>, inc: seq<Record>)
    requires Apply(codec, sidecar, target, inc).Some?
    ensures GuidOf(inc) == Some(Apply(codec, sidecar, target, inc).value.sidecar.snapshotGuid)
  {
    OneSubstream(codec, sidecar, ApplyStart(sidecar, target), inc);
  }

  /** From a prefix that commutes, the next one commutes exactly when its last increment is quiet. */
  lemma StepCommutesIff(codec: Codec, plan: Plan, base: seq<Record>, start: Applied, earlier: seq<seq<Record>>, inc: seq<Record>)
    requires !plan.raw && Commutes(codec, plan, base, start, earlier)
    requires ApplyAll(codec, start, earlier + [inc]).Some?
    ensures Commutes(codec, plan, base, start, earlier + [inc]) <==> Quiet(codec, plan, base, start, earlier, inc)
  {
    hide Apply;
    hide EagerResult;
    hide InStep;
    hide GuidOf;
    hide PlanFor;
    hide Rest;
    hide ApplyAll;
    var before := ApplyAll(codec, start, earlier).value;
    ApplyLast(codec, start, earlier, inc);
    RestLast(plan, base, earlier, inc);
    ApplyKeepsObject(codec, before.sidecar, before.file, inc);
    GuidOfApplied(codec, before.sidecar, before.file, inc);
    ApplyCommutesIff(codec, PlanFor(plan, earlier), before.sidecar, base + Rest(earlier), inc);
  }

  // ---------- Main result ----------

  lemma {:induction false} PrefixApplies(codec: Codec, start: Applied, incs: seq<seq<Record>>, n: nat)
    requires n <= |incs| && ApplyAll(codec, start, incs).Some?
    ensures ApplyAll(codec, start, incs[..n]).Some?
    decreases |incs| - n
  {
    hide Apply;
    if n < |incs| {
      PrefixApplies(codec, start, incs, n + 1);
      assert incs[..n + 1] == incs[..n] + [incs[n]];
      ApplyLast(codec, start, incs[..n], incs[n]);
    } else {
      assert incs[..n] == incs;
    }
  }

  lemma {:induction false} QuietPrefixCommutes(codec: Codec, plan: Plan, base: seq<Record>, start: Applied, incs: seq<seq<Record>>, n: nat)
    requires !plan.raw && ApplyAll(codec, start, incs).Some? && n <= |incs|
    requires Commutes(codec, plan, base, start, [])
    requires forall k :: 0 <= k < |incs| ==> Quiet(codec, plan, base, start, incs[..k], incs[k])
    ensures Commutes(codec, plan, base, start, incs[..n])
    decreases n
  {
    hide Commutes;
    hide Quiet;
    hide ApplyAll;
    if n == 0 {
      assert incs[..0] == [];
    } else {
      QuietPrefixCommutes(codec, plan, base, start, incs, n - 1);
      assert incs[..n] == incs[..n - 1] + [incs[n - 1]];
      PrefixApplies(codec, start, incs, n);
      StepCommutesIff(codec, plan, base, start, incs[..n - 1], incs[n - 1]);
      assert Quiet(codec, plan, base, start, incs[..n - 1], incs[n - 1]);
    }
  }

  lemma NothingAppliedCommutes(codec: Codec, plan: Plan, base: seq<Record>, start: Applied)
    requires Extracted(codec, plan, start.sidecar.objectId, base, start.sidecar.logicalSize) == Some(start.file)
    ensures Commutes(codec, plan, base, start, [])
  {
    hide EagerResult;
    assert base + Rest([]) == base;
  }

  /** Extracting once and applying increments one by one agrees with the whole history after every increment if and
      only if no increment diverges below the size it leaves. */
  lemma AllPrefixesCommuteIff(codec: Codec, plan: Plan, base: seq<Record>, start: Applied, incs: seq<seq<Record>>)
    requires !plan.raw
    requires Extracted(codec, plan, start.sidecar.objectId, base, start.sidecar.logicalSize) == Some(start.file)
    requires ApplyAll(codec, start, incs).Some?
    ensures (forall n :: 0 <= n <= |incs| ==> Commutes(codec, plan, base, start, incs[..n]))
       <==> (forall n :: 0 <= n < |incs| ==> Quiet(codec, plan, base, start, incs[..n], incs[n]))
  {
    hide Commutes;
    hide Quiet;
    hide ApplyAll;
    hide Extracted;
    NothingAppliedCommutes(codec, plan, base, start);
    if forall n :: 0 <= n <= |incs| ==> Commutes(codec, plan, base, start, incs[..n]) {
      forall n | 0 <= n < |incs|
        ensures Quiet(codec, plan, base, start, incs[..n], incs[n])
      {
        assert incs[..n + 1] == incs[..n] + [incs[n]];
        PrefixApplies(codec, start, incs, n + 1);
        StepCommutesIff(codec, plan, base, start, incs[..n], incs[n]);
      }
    }
    if forall n :: 0 <= n < |incs| ==> Quiet(codec, plan, base, start, incs[..n], incs[n]) {
      forall n | 0 <= n <= |incs|
        ensures Commutes(codec, plan, base, start, incs[..n])
      {
        QuietPrefixCommutes(codec, plan, base, start, incs, n);
      }
    }
  }
}
