/** Choosing the substreams a snapshot depends on (src/filesystem.rs, `plan_snapshot`) and filtering the send
    file by their GUIDs. */
module Planning {
  import opened Bytes
  import opened Records
  import Replay

  // ---------- Specification ----------

  /** The latest header before a cursor that produces a GUID. */
  function FindLast(snapshots: seq<BeginRecord>, cursor: nat, guid: U64): Option<nat>
    requires cursor <= |snapshots|
  {
    if cursor == 0 then None
    else if snapshots[cursor - 1].toGuid == guid then Some(cursor - 1)
    else FindLast(snapshots, cursor - 1, guid)
  }

  /** The positions of a chain that leads from a full send up to, not including, a cursor. */
  function LinksBelow(snapshots: seq<BeginRecord>, cursor: nat, fromGuid: U64): Option<seq<nat>>
    requires cursor <= |snapshots|
    decreases cursor
  {
    if fromGuid == 0 then Some([])
    else
      var found := FindLast(snapshots, cursor, fromGuid);
      if found.None? then None
      else if found.value >= cursor then None
      else
        var below := LinksBelow(snapshots, found.value, snapshots[found.value].fromGuid);
        if below.None? then None else Some(below.value + [found.value])
  }

  function Links(snapshots: seq<BeginRecord>, target: nat): Option<seq<nat>>
    requires target < |snapshots|
  {
    var below := LinksBelow(snapshots, target, snapshots[target].fromGuid);
    if below.None? then None else Some(below.value + [target])
  }

  predicate Positions(snapshots: seq<BeginRecord>, links: seq<nat>) {
    forall i :: 0 <= i < |links| ==> links[i] < |snapshots|
  }

  function Guids(snapshots: seq<BeginRecord>, links: seq<nat>): seq<U64>
    requires Positions(snapshots, links)
  {
    seq<U64>(|links|, i requires 0 <= i < |links| => snapshots[links[i]].toGuid)
  }

  /** A replayable chain: increasing positions from a full send to the target, each starting where its
      predecessor ends. */
  ghost predicate Chained(snapshots: seq<BeginRecord>, links: seq<nat>, target: nat) {
    && links != [] && links[|links| - 1] == target < |snapshots|
    && Positions(snapshots, links)
    && (forall i, j :: 0 <= i < j < |links| ==> links[i] < links[j])
    && snapshots[links[0]].fromGuid == 0
    && (forall i :: 0 < i < |links| ==>
          snapshots[links[i]].fromGuid == snapshots[links[i - 1]].toGuid && snapshots[links[i]].fromGuid != 0)
  }

  // ---------- Soundness ----------

  lemma {:induction false} FindLastSound(snapshots: seq<BeginRecord>, cursor: nat, guid: U64)
    requires cursor <= |snapshots|
    ensures var found := FindLast(snapshots, cursor, guid);
            && (found.Some? ==> found.value < cursor && snapshots[found.value].toGuid == guid)
            && (found.Some? ==> forall i :: found.value < i < cursor ==> snapshots[i].toGuid != guid)
            && (found.None? ==> forall i :: 0 <= i < cursor ==> snapshots[i].toGuid != guid)
  {
    if cursor > 0 {
      FindLastSound(snapshots, cursor - 1, guid);
    }
  }

  lemma ChainedSnoc(snapshots: seq<BeginRecord>, links: seq<nat>, last: nat, target: nat)
    requires last < target < |snapshots| && Chained(snapshots, links, last)
    requires snapshots[target].fromGuid == snapshots[last].toGuid && snapshots[target].fromGuid != 0
    ensures Chained(snapshots, links + [target], target)
  {
    var longer := links + [target];
    forall i, j | 0 <= i < j < |longer|
      ensures longer[i] < longer[j]
    {
      if j == |links| && i < |links| - 1 {
        assert links[i] < links[|links| - 1];
      }
    }
  }

  /** Whatever plan is found is a replayable chain from a full send to the target. */
  lemma {:induction false} PlanIsSound(snapshots: seq<BeginRecord>, target: nat)
    requires target < |snapshots| && Links(snapshots, target).Some?
    ensures Chained(snapshots, Links(snapshots, target).value, target)
    decreases target
  {
    var fromGuid := snapshots[target].fromGuid;
    if fromGuid == 0 {
      assert [] + [target] == [target];
    } else {
      FindLastSound(snapshots, target, fromGuid);
      var last := FindLast(snapshots, target, fromGuid).value;
      assert Links(snapshots, target).value == Links(snapshots, last).value + [target];
      PlanIsSound(snapshots, last);
      ChainedSnoc(snapshots, Links(snapshots, last).value, last, target);
    }
  }

  // ---------- Completeness ----------

  /** No substream between two links produces the GUID the later one starts from. */
  ghost predicate Nearest(snapshots: seq<BeginRecord>, links: seq<nat>)
    requires Positions(snapshots, links)
  {
    forall k, i :: 0 < k < |links| && links[k - 1] < i < links[k] ==> snapshots[i].toGuid != snapshots[links[k]].fromGuid
  }

  lemma {:induction false} PlanIsNearest(snapshots: seq<BeginRecord>, target: nat)
    requires target < |snapshots| && Links(snapshots, target).Some?
    ensures Chained(snapshots, Links(snapshots, target).value, target) && Nearest(snapshots, Links(snapshots, target).value)
    decreases target
  {
    PlanIsSound(snapshots, target);
    var fromGuid := snapshots[target].fromGuid;
    if fromGuid != 0 {
      FindLastSound(snapshots, target, fromGuid);
      var last := FindLast(snapshots, target, fromGuid).value;
      PlanIsNearest(snapshots, last);
      NearestSnoc(snapshots, Links(snapshots, last).value, last, target);
    } else {
      assert Links(snapshots, target).value == [target];
    }
  }

  lemma NearestSnoc(snapshots: seq<BeginRecord>, links: seq<nat>, last: nat, target: nat)
    requires last < target < |snapshots| && Positions(snapshots, links) && links != [] && links[|links| - 1] == last
    requires Nearest(snapshots, links)
    requires forall i :: last < i < target ==> snapshots[i].toGuid != snapshots[target].fromGuid
    ensures Nearest(snapshots, links + [target])
  {
    var longer := links + [target];
    forall k, i | 0 < k < |longer| && longer[k - 1] < i < longer[k]
      ensures snapshots[i].toGuid != snapshots[longer[k]].fromGuid
    {
      if k < |links| {
        assert longer[k - 1] == links[k - 1] && longer[k] == links[k];
      }
    }
  }

  lemma FindsNearest(snapshots: seq<BeginRecord>, cursor: nat, guid: U64, last: nat)
    requires last < cursor <= |snapshots| && snapshots[last].toGuid == guid
    requires forall i :: last < i < cursor ==> snapshots[i].toGuid != guid
    ensures FindLast(snapshots, cursor, guid) == Some(last)
  {
    hide FindLast;
    FindLastSound(snapshots, cursor, guid);
  }

  lemma ChainedFront(snapshots: seq<BeginRecord>, links: seq<nat>, target: nat)
    requires Chained(snapshots, links, target) && Nearest(snapshots, links) && |links| > 1
    ensures var n := |links| - 1;
            && Chained(snapshots, links[..n], links[n - 1]) && Nearest(snapshots, links[..n]) && links[n - 1] < target
            && snapshots[target].fromGuid == snapshots[links[n - 1]].toGuid && snapshots[target].fromGuid != 0
            && forall i :: links[n - 1] < i < target ==> snapshots[i].toGuid != snapshots[target].fromGuid
  {
    var n := |links| - 1;
    assert snapshots[links[n]].fromGuid == snapshots[links[n - 1]].toGuid;
    assert Positions(snapshots, links[..n]);
  }

  lemma {:induction false} NearestIsPlanned(snapshots: seq<BeginRecord>, links: seq<nat>, target: nat)
    requires Chained(snapshots, links, target) && Nearest(snapshots, links)
    ensures Links(snapshots, target) == Some(links)
    decreases |links|
  {
    hide Nearest;
    if |links| == 1 {
      assert [] + [target] == links;
    } else {
      var n := |links| - 1;
      ChainedFront(snapshots, links, target);
      NearestIsPlanned(snapshots, links[..n], links[n - 1]);
      FindsNearest(snapshots, target, snapshots[target].fromGuid, links[n - 1]);
      assert links == links[..n] + [target];
    }
  }

  /** The plan, for any headers: the search finds a chain exactly when it is the one that always takes the nearest
      earlier substream with the wanted GUID. */
  lemma PlanIsNearestIff(snapshots: seq<BeginRecord>, target: nat, links: seq<nat>)
    requires target < |snapshots|
    ensures Links(snapshots, target) == Some(links)
       <==> Chained(snapshots, links, target) && Nearest(snapshots, links)
  {
    if Links(snapshots, target) == Some(links) {
      PlanIsNearest(snapshots, target);
    } else if Chained(snapshots, links, target) && Nearest(snapshots, links) {
      NearestIsPlanned(snapshots, links, target);
    }
  }

  const REPEATED: seq<BeginRecord> :=
    [BeginRecord(1, 1, 0, false), BeginRecord(1, 1, 99, false), BeginRecord(1, 2, 1, false)]

  /** When a GUID repeats the search can miss a chain: of two substreams that produce the wanted GUID it takes the
      nearest, which here starts from a snapshot the file does not hold. */
  lemma NearestCanMiss()
    ensures Chained(REPEATED, [0, 2], 2)
    ensures Links(REPEATED, 2) == None
  {
    assert FindLast(REPEATED, 2, 1) == Some(1);
    assert FindLast(REPEATED, 1, 99) == None by { FindLastSound(REPEATED, 1, 99); }
  }

  predicate DistinctGuids(snapshots: seq<BeginRecord>) {
    forall i, j :: 0 <= i < j < |snapshots| ==> snapshots[i].toGuid != snapshots[j].toGuid
  }

  /** With distinct GUIDs every chain is nearest: the plan is found whenever a chain exists, and it is the only one. */
  lemma PlanIsComplete(snapshots: seq<BeginRecord>, links: seq<nat>, target: nat)
    requires DistinctGuids(snapshots) && target < |snapshots|
    ensures Links(snapshots, target) == Some(links) <==> Chained(snapshots, links, target)
  {
    PlanIsNearestIff(snapshots, target, links);
    if Chained(snapshots, links, target) {
      forall k, i | 0 < k < |links| && links[k - 1] < i < links[k]
        ensures snapshots[i].toGuid != snapshots[links[k]].fromGuid
      {
        assert snapshots[links[k]].fromGuid == snapshots[links[k - 1]].toGuid;
      }
    }
  }

  /** A later incremental from a planned target extends the plan by exactly itself if and only if no substream in
      between produces the target's GUID again. */
  lemma PlanExtendsIff(snapshots: seq<BeginRecord>, target: nat, next: BeginRecord)
    requires target < |snapshots| && Links(snapshots, target).Some?
    requires next.fromGuid == snapshots[target].toGuid && next.fromGuid != 0
    ensures Links(snapshots + [next], |snapshots|) == Some(Links(snapshots, target).value + [|snapshots|])
       <==> forall i :: target < i < |snapshots| ==> snapshots[i].toGuid != snapshots[target].toGuid
  {
    hide Links;
    var all, n := snapshots + [next], |snapshots|;
    PlanIsNearest(snapshots, target);
    var links := Links(snapshots, target).value;
    ChainedKept(snapshots, next, links, target);
    ChainedSnoc(all, links, target, n);
    PlanIsNearestIff(all, n, links + [n]);
    if forall i :: target < i < n ==> snapshots[i].toGuid != snapshots[target].toGuid {
      NearestSnoc(all, links, target, n);
    } else {
      var i :| target < i < n && snapshots[i].toGuid == snapshots[target].toGuid;
      var longer, k := links + [n], |links|;
      assert longer[k - 1] < i < longer[k] && all[i].toGuid == all[longer[k]].fromGuid;
    }
  }

  lemma ChainedKept(snapshots: seq<BeginRecord>, next: BeginRecord, links: seq<nat>, target: nat)
    requires Chained(snapshots, links, target) && Nearest(snapshots, links)
    ensures Chained(snapshots + [next], links, target) && Nearest(snapshots + [next], links)
  {
    var all := snapshots + [next];
    assert forall i :: 0 <= i < |links| ==> all[links[i]] == snapshots[links[i]];
    forall k, i | 0 < k < |links| && links[k - 1] < i < links[k]
      ensures all[i].toGuid != all[links[k]].fromGuid
    {
      assert all[i] == snapshots[i] && all[links[k]] == snapshots[links[k]];
    }
  }

  // ---------- The GUID filter ----------

  /** The substreams a replay activates, in file order, below a position. */
  function Active(snapshots: seq<BeginRecord>, chain: seq<U64>, n: nat): seq<nat>
    requires n <= |snapshots|
  {
    if n == 0 then []
    else Active(snapshots, chain, n - 1) + if snapshots[n - 1].toGuid in chain then [n - 1] else []
  }

  function Below(links: seq<nat>, n: nat): seq<nat> {
    if links == [] then []
    else if links[|links| - 1] < n then links
    else Below(links[..|links| - 1], n)
  }

  predicate Increasing(links: seq<nat>) { forall i, j :: 0 <= i < j < |links| ==> links[i] < links[j] }

  lemma {:induction false} BelowStep(links: seq<nat>, n: nat)
    requires Increasing(links)
    ensures Below(links, n + 1) == Below(links, n) + if n in links then [n] else []
    decreases |links|
  {
    if links != [] {
      var k := |links| - 1;
      if links[k] > n {
        BelowStep(links[..k], n);
        assert n in links <==> n in links[..k] by { assert links == links[..k] + [links[k]]; }
      } else if links[k] == n {
        BelowAll(links[..k], n);
        assert links == links[..k] + [n];
      }
    }
  }

  lemma BelowAll(links: seq<nat>, n: nat)
    requires Increasing(links) && forall k :: k in links ==> k < n
    ensures Below(links, n) == links
  {
    if links != [] {
      assert links[|links| - 1] in links;
    }
  }

  /** No substream outside the chain shares a GUID with it. */
  predicate NoStranger(snapshots: seq<BeginRecord>, links: seq<nat>)
    requires Positions(snapshots, links)
  {
    forall i :: 0 <= i < |snapshots| && snapshots[i].toGuid in Guids(snapshots, links) ==> i in links
  }

  lemma ChainMember(snapshots: seq<BeginRecord>, links: seq<nat>, i: nat)
    requires Positions(snapshots, links) && i in links
    ensures snapshots[i].toGuid in Guids(snapshots, links)
  {
    var j :| 0 <= j < |links| && links[j] == i;
    assert Guids(snapshots, links)[j] == snapshots[i].toGuid;
  }

  lemma MemberIff(snapshots: seq<BeginRecord>, links: seq<nat>, i: nat)
    requires Positions(snapshots, links) && NoStranger(snapshots, links) && i < |snapshots|
    ensures i in links <==> snapshots[i].toGuid in Guids(snapshots, links)
  {
    if i in links {
      ChainMember(snapshots, links, i);
    }
  }

  lemma {:induction false} ActiveBelow(snapshots: seq<BeginRecord>, links: seq<nat>, n: nat)
    requires Increasing(links) && Positions(snapshots, links) && n <= |snapshots|
    requires NoStranger(snapshots, links)
    ensures Active(snapshots, Guids(snapshots, links), n) == Below(links, n)
  {
    hide Below;
    hide Guids;
    hide NoStranger;
    hide Increasing;
    if n == 0 {
      NothingBelow(links);
    } else {
      ActiveBelow(snapshots, links, n - 1);
      BelowStep(links, n - 1);
      MemberIff(snapshots, links, n - 1);
    }
  }

  lemma NothingBelow(links: seq<nat>)
    ensures Below(links, 0) == []
  {
  }

  lemma {:induction false} ActiveMember(snapshots: seq<BeginRecord>, chain: seq<U64>, n: nat, i: nat)
    requires i < n <= |snapshots| && snapshots[i].toGuid in chain
    ensures i in Active(snapshots, chain, n)
  {
    if i < n - 1 {
      ActiveMember(snapshots, chain, n - 1, i);
    }
  }

  /** Filtering by the chain's GUID set activates exactly the chain's substreams, in chain order, if and only if
      no other substream carries one of its GUIDs. */
  lemma FilterIsExactIff(snapshots: seq<BeginRecord>, target: nat)
    requires target < |snapshots| && Links(snapshots, target).Some?
    ensures Positions(snapshots, Links(snapshots, target).value)
    ensures var links := Links(snapshots, target).value;
            Active(snapshots, Guids(snapshots, links), |snapshots|) == links <==> NoStranger(snapshots, links)
  {
    PlanIsSound(snapshots, target);
    var links := Links(snapshots, target).value;
    if NoStranger(snapshots, links) {
      ActiveBelow(snapshots, links, |snapshots|);
      BelowAll(links, |snapshots|);
    }
    if Active(snapshots, Guids(snapshots, links), |snapshots|) == links {
      forall i | 0 <= i < |snapshots| && snapshots[i].toGuid in Guids(snapshots, links)
        ensures i in links
      {
        ActiveMember(snapshots, Guids(snapshots, links), |snapshots|, i);
      }
    }
  }

  lemma DistinctGuidsHaveNoStranger(snapshots: seq<BeginRecord>, links: seq<nat>)
    requires DistinctGuids(snapshots) && Positions(snapshots, links)
    ensures NoStranger(snapshots, links)
  {
    forall i | 0 <= i < |snapshots| && snapshots[i].toGuid in Guids(snapshots, links)
      ensures i in links
    {
      var j :| 0 <= j < |links| && Guids(snapshots, links)[j] == snapshots[i].toGuid;
      assert links[j] in links;
    }
  }

  // ---------- The loop ----------

  method PlanSnapshot(snapshots: seq<BeginRecord>, target: nat) returns (ok: bool, chain: seq<U64>)
    requires target < |snapshots|
    ensures ok <==> Links(snapshots, target).Some?
    ensures ok ==> Chained(snapshots, Links(snapshots, target).value, target)
                   && chain == Guids(snapshots, Links(snapshots, target).value)
  {
    chain := [snapshots[target].toGuid];
    var cursor: nat, fromGuid := target, snapshots[target].fromGuid;
    ghost var taken: seq<nat> := [target];
    while fromGuid != 0
      invariant cursor < |snapshots| && Positions(snapshots, taken)
      invariant chain == Backwards(Guids(snapshots, taken))
      invariant var below := LinksBelow(snapshots, cursor, fromGuid);
                Links(snapshots, target) == if below.None? then None else Some(below.value + taken)
      decreases cursor
    {
      var found := FindLast(snapshots, cursor, fromGuid);
      FindLastSound(snapshots, cursor, fromGuid);
      if found.None? {
        return false, [];
      }
      var header := snapshots[found.value];
      BackwardsCons(header.toGuid, Guids(snapshots, taken));
      assert Guids(snapshots, [found.value] + taken) == [header.toGuid] + Guids(snapshots, taken);
      ghost var below := LinksBelow(snapshots, found.value, header.fromGuid);
      assert below.Some? ==> below.value + [found.value] + taken == below.value + ([found.value] + taken);
      chain := chain + [header.toGuid];
      cursor, fromGuid, taken := found.value, header.fromGuid, [found.value] + taken;
    }
    PlanIsSound(snapshots, target);
    assert [] + taken == taken;
    BackwardsTwice(Guids(snapshots, taken));
    chain := Backwards(chain);
    return true, chain;
  }

  function Backwards(s: seq<U64>): (r: seq<U64>)
    ensures |r| == |s| && forall i :: 0 <= i < |s| ==> r[i] == s[|s| - 1 - i]
  {
    if s == [] then [] else Backwards(s[1..]) + [s[0]]
  }

  lemma BackwardsCons(x: U64, s: seq<U64>)
    ensures Backwards([x] + s) == Backwards(s) + [x]
  {
    assert ([x] + s)[1..] == s;
  }

  lemma BackwardsTwice(s: seq<U64>)
    ensures Backwards(Backwards(s)) == s
  {
  }

  // ---------- The sanity count ----------

  /** The replay loops compare the number of distinct GUIDs seen with the chain length; the counts agree on a
      file that holds the chain exactly when no GUID occurs twice in it. */
  lemma {:induction false} CountsAgreeIff(chain: seq<U64>)
    ensures |Members(chain)| <= |chain|
    ensures |Members(chain)| == |chain| <==> NoRepeats(chain)
    decreases |chain|
  {
    if chain != [] {
      var n := |chain| - 1;
      var front, last := chain[..n], chain[n];
      CountsAgreeIff(front);
      MembersSnoc(front, last);
      assert chain == front + [last];
      RepeatsSnoc(front, last);
    }
  }

  function Members(chain: seq<U64>): set<U64> { set g | g in chain }

  predicate NoRepeats(chain: seq<U64>) { forall i, j :: 0 <= i < j < |chain| ==> chain[i] != chain[j] }

  lemma MembersSnoc(front: seq<U64>, last: U64)
    ensures Members(front + [last]) == Members(front) + {last}
    ensures |Members(front + [last])| == |Members(front)| + if last in front then 0 else 1
  {
    assert Members(front + [last]) == Members(front) + {last};
    if last in front {
      assert Members(front) + {last} == Members(front);
    }
  }

  lemma RepeatsSnoc(front: seq<U64>, last: U64)
    ensures NoRepeats(front + [last]) <==> NoRepeats(front) && last !in front
  {
    var chain := front + [last];
    if NoRepeats(chain) {
      assert forall i :: 0 <= i < |front| ==> chain[i] == front[i] && chain[i] != chain[|front|];
    }
  }
}
