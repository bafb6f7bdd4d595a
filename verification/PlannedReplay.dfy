/** From the records of one send file to its plan and back: what a replay under the plan of its own headers activates,
    and when its final count check passes. */
module PlannedReplay {
  import opened Bytes
  import opened Records
  import opened Planning
  import opened Replay

  predicate IsHeader(r: Record) { r.kind.Begin? && r.kind.begin.headerType == DMU_SUBSTREAM }

  /** The snapshot headers of a send file, in file order. */
  function Headers(records: seq<Record>): seq<BeginRecord>
    decreases |records|
  {
    if records == [] then []
    else
      var n := |records| - 1;
      Headers(records[..n]) + if IsHeader(records[n]) then [records[n].kind.begin] else []
  }

  /** The plan for one of the headers, when its chain is found: the chain's GUIDs, raw as the target says. */
  function PlanOf(headers: seq<BeginRecord>, target: nat): Option<Plan>
    requires target < |headers|
  {
    var links := Links(headers, target);
    if links.None? then None
    else
      PlanIsSound(headers, target);
      Some(Plan(headers[target].raw, Guids(headers, links.value)))
  }

  /** The headers, by number, at which a replay turned active. */
  function Activated(codec: Codec, plan: Plan, id: U64, records: seq<Record>): seq<nat>
    decreases |records|
  {
    if records == [] then []
    else
      var n := |records| - 1;
      var run := EagerRun(codec, plan, id, records);
      Activated(codec, plan, id, records[..n])
      + if IsHeader(records[n]) && run.Some? && run.value.active then [|Headers(records[..n])|] else []
  }

  lemma ActiveOfFront(headers: seq<BeginRecord>, more: BeginRecord, chain: seq<U64>, n: nat)
    requires n <= |headers|
    ensures Active(headers + [more], chain, n) == Active(headers, chain, n)
    decreases n
  {
    if n > 0 {
      ActiveOfFront(headers, more, chain, n - 1);
    }
  }

  lemma BeginActivates(codec: Codec, plan: Plan, id: U64, st: Eager, r: Record)
    requires EagerStep(codec, plan, id, st, r).Some?
    ensures var after := EagerStep(codec, plan, id, st, r).value;
            && after.seen == st.seen + (if IsHeader(r) && r.kind.begin.toGuid in plan.chain then {r.kind.begin.toGuid} else {})
            && (IsHeader(r) ==> (after.active <==> r.kind.begin.toGuid in plan.chain))
  {
    hide WriteText;
    hide EmbeddedText;
    hide Replaced;
  }

  /** The GUIDs of a list of headers that lie in a chain. */
  function Met(headers: seq<BeginRecord>, chain: seq<U64>): set<U64>
    decreases |headers|
  {
    if headers == [] then {}
    else
      var n := |headers| - 1;
      Met(headers[..n], chain) + if headers[n].toGuid in chain then {headers[n].toGuid} else {}
  }

  /** Whatever the records, an accepted replay turns active at exactly the headers whose GUID the plan names, and has seen
      exactly their GUIDs. */
  lemma {:induction false} ReplayFollowsHeaders(codec: Codec, plan: Plan, id: U64, records: seq<Record>)
    requires EagerRun(codec, plan, id, records).Some?
    ensures Activated(codec, plan, id, records) == Active(Headers(records), plan.chain, |Headers(records)|)
    ensures EagerRun(codec, plan, id, records).value.seen == Met(Headers(records), plan.chain)
    decreases |records|
  {
    hide EagerStep;
    if records != [] {
      var n := |records| - 1;
      var front, r := records[..n], records[n];
      ReplayFollowsHeaders(codec, plan, id, front);
      BeginActivates(codec, plan, id, EagerRun(codec, plan, id, front).value, r);
      if IsHeader(r) {
        var headers := Headers(front);
        assert Headers(records) == headers + [r.kind.begin] && Headers(records)[..|headers|] == headers;
        ActiveOfFront(headers, r.kind.begin, plan.chain, |headers|);
      } else {
        assert Headers(records) == Headers(front);
      }
    }
  }

  lemma {:induction false} MetIsMembers(headers: seq<BeginRecord>, chain: seq<U64>, g: U64)
    ensures g in Met(headers, chain) <==> g in chain && exists i :: 0 <= i < |headers| && headers[i].toGuid == g
    decreases |headers|
  {
    if headers != [] {
      var n := |headers| - 1;
      MetIsMembers(headers[..n], chain, g);
      assert forall i :: 0 <= i < n ==> headers[..n][i] == headers[i];
    }
  }

  lemma PlannedGuidsAreMet(headers: seq<BeginRecord>, links: seq<nat>)
    requires Positions(headers, links)
    ensures Met(headers, Guids(headers, links)) == Members(Guids(headers, links))
  {
    var chain := Guids(headers, links);
    forall g: U64
      ensures g in Met(headers, chain) <==> g in Members(chain)
    {
      MetIsMembers(headers, chain, g);
      if g in chain {
        var j :| 0 <= j < |chain| && chain[j] == g;
        assert headers[links[j]].toGuid == g;
      }
    }
  }

  /** A replay under the plan of its own headers turns active at exactly the links of the plan, in order, if and only if no
      other substream carries one of their GUIDs; and its final count check passes if and only if no GUID occurs twice in
      the chain. */
  lemma PlannedReplayIff(codec: Codec, id: U64, records: seq<Record>, target: nat)
    requires target < |Headers(records)| && PlanOf(Headers(records), target).Some?
    requires EagerRun(codec, PlanOf(Headers(records), target).value, id, records).Some?
    ensures Links(Headers(records), target).Some? && Positions(Headers(records), Links(Headers(records), target).value)
    ensures var headers, plan := Headers(records), PlanOf(Headers(records), target).value;
            var links := Links(headers, target).value;
            && (Activated(codec, plan, id, records) == links <==> NoStranger(headers, links))
            && (|EagerRun(codec, plan, id, records).value.seen| == |plan.chain| <==> NoRepeats(plan.chain))
  {
    hide EagerRun;
    hide Headers;
    hide Activated;
    hide Links;
    hide NoStranger;
    hide Active;
    hide Met;
    var headers, plan := Headers(records), PlanOf(Headers(records), target).value;
    var links := Links(headers, target).value;
    FilterIsExactIff(headers, target);
    ReplayFollowsHeaders(codec, plan, id, records);
    PlannedGuidsAreMet(headers, links);
    CountsAgreeIff(plan.chain);
  }
}
