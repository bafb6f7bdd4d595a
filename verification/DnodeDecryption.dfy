/** Both decryptions of a dnode block (src/encrypted.rs): the on-disk one patches the bonus regions of the block,
    the send one returns a bonus per object. The cipher is a parameter. */
module DnodeDecryption {
  import opened Bytes
  import opened Records
  import opened RawLeaves
  import opened BlockPointers
  import opened Merkle
  import opened Transcript
  import opened TranscriptAgreement

  /** Opens a ciphertext under the block's key, salt, vector and tag; None when authentication fails. */
  datatype Aead = Aead(open: (seq<Byte>, seq<Byte>) -> Option<seq<Byte>>)
  {
    /** The cipher works in place. */
    ghost predicate KeepsLength() {
      forall aad, text :: open(aad, text).Some? ==> |open(aad, text).value| == |text|
    }
  }

  // ---------- Specification ----------

  function Total(regions: seq<Region>): nat {
    if regions == [] then 0 else regions[0].length + Total(regions[1..])
  }

  /** The block with each region overwritten by its share of the plaintext, in order. */
  function Filled(block: seq<Byte>, regions: seq<Region>, lo: nat, plaintext: seq<Byte>): (r: seq<Byte>)
    requires Ordered(regions, lo, |block|) && Total(regions) == |plaintext|
    ensures |r| == |block|
    decreases |regions|
  {
    if regions == [] then block
    else
      var head := regions[0];
      OrderedFits(regions[1..], head.start + head.length, |block|);
      Filled(Patched(block, head.start, plaintext[..head.length]), regions[1..], head.start + head.length,
             plaintext[head.length..])
  }

  lemma {:induction false} OrderedFits(regions: seq<Region>, lo: nat, hi: nat)
    requires Ordered(regions, lo, hi)
    ensures lo <= hi
    decreases |regions|
  {
    if regions != [] {
      OrderedFits(regions[1..], regions[0].start + regions[0].length, hi);
    }
  }

  function PoolDecrypted(version: Version, aead: Aead, block: seq<Byte>): Option<seq<Byte>> {
    if |block| % SLOT != 0 then None
    else
      var run := PoolScan(version, block, 0);
      if run.None? then None
      else if run.value.part.ciphertext == [] then Some(block)
      else
        var plaintext := aead.open(run.value.part.aad, run.value.part.ciphertext);
        PoolScanOrdered(version, block, 0);
        if plaintext.None? || |plaintext.value| != Total(run.value.regions) then None
        else Some(Filled(block, run.value.regions, 0, plaintext.value))
  }

  /** Every scan names regions in order, inside the block, exactly as long as its ciphertext. */
  lemma {:induction false} PoolScanOrdered(version: Version, block: seq<Byte>, offset: nat)
    requires |block| % SLOT == 0 && offset % SLOT == 0 && offset <= |block|
    ensures PoolScan(version, block, offset).Some? ==>
              && Ordered(PoolScan(version, block, offset).value.regions, offset, |block|)
              && Total(PoolScan(version, block, offset).value.regions)
                 == |PoolScan(version, block, offset).value.part.ciphertext|
    decreases |block| - offset
  {
    hide DnodeAt;
    hide PoolPart;
    hide PoolRegions;
    hide BonusStart;
    hide BonusEnd;
    if offset < |block| && PoolScan(version, block, offset).Some? {
      var raw := DnodeAt(block, offset).value;
      var next := offset + |raw|;
      PoolScanOrdered(version, block, next);
      RegionsOfDnode(version, raw, offset, PoolScan(version, block, next).value.regions, |block|);
    }
  }

  lemma RegionsOfDnode(version: Version, raw: seq<Byte>, offset: nat, rest: seq<Region>, hi: nat)
    requires |raw| >= SLOT && BonusStart(raw) <= BonusEnd(raw) && Ordered(rest, offset + |raw|, hi)
    ensures Ordered(PoolRegions(raw, offset) + rest, offset, hi)
    ensures Total(PoolRegions(raw, offset) + rest) == |PoolPart(version, raw).ciphertext| + Total(rest)
  {
    hide BonusEncrypted;
    hide PortableCore;
    hide PointerBytes;
    var front := PoolRegions(raw, offset);
    if BonusEncrypted(raw) {
      OrderedFromLower(rest, offset + BonusEnd(raw), offset + |raw|, hi);
      assert (front + rest)[1..] == rest;
    } else {
      OrderedFromLower(rest, offset, offset + |raw|, hi);
      assert front + rest == rest;
    }
  }

  /** The plaintext cut back into bonuses. */
  function Cut(bonuses: seq<Bonus>, plaintext: seq<Byte>): map<U64, seq<Byte>>
    requires BonusTotal(bonuses) <= |plaintext|
  {
    if bonuses == [] then map[]
    else map[bonuses[0].objectId := plaintext[..bonuses[0].length]] + Cut(bonuses[1..], plaintext[bonuses[0].length..])
  }

  function BonusTotal(bonuses: seq<Bonus>): nat {
    if bonuses == [] then 0 else bonuses[0].length + BonusTotal(bonuses[1..])
  }

  function SendDecrypted(version: Version, aead: Aead, digest: Digest, range: ObjectRangeRecord,
                         dnodes: seq<RawDnode>): Option<map<U64, seq<Byte>>> {
    var run := SendTranscript(version, digest, range, dnodes);
    if run.None? then None
    else
      var plaintext := aead.open(run.value.part.aad, run.value.part.ciphertext);
      if plaintext.None? || |plaintext.value| != BonusTotal(run.value.bonuses) then None
      else Some(Cut(run.value.bonuses, plaintext.value))
  }

  // ---------- Nothing outside the bonus regions changes ----------

  predicate Inside(regions: seq<Region>, i: nat) {
    exists k :: 0 <= k < |regions| && regions[k].start <= i < regions[k].start + regions[k].length
  }

  lemma InsideSplit(regions: seq<Region>, i: nat)
    requires regions != []
    ensures Inside(regions, i) <==> regions[0].start <= i < regions[0].start + regions[0].length || Inside(regions[1..], i)
  {
    var rest := regions[1..];
    if Inside(rest, i) {
      var k :| 0 <= k < |rest| && rest[k].start <= i < rest[k].start + rest[k].length;
      assert regions[k + 1] == rest[k];
    }
    if Inside(regions, i) && !(regions[0].start <= i < regions[0].start + regions[0].length) {
      var k :| 0 <= k < |regions| && regions[k].start <= i < regions[k].start + regions[k].length;
      assert rest[k - 1] == regions[k];
    }
  }

  lemma {:induction false} FilledOutside(block: seq<Byte>, regions: seq<Region>, lo: nat, plaintext: seq<Byte>, i: nat)
    requires Ordered(regions, lo, |block|) && Total(regions) == |plaintext| && i < |block| && !Inside(regions, i)
    ensures Filled(block, regions, lo, plaintext)[i] == block[i]
    decreases |regions|
  {
    if regions != [] {
      var head, rest := regions[0], regions[1..];
      var end := head.start + head.length;
      OrderedFits(rest, end, |block|);
      InsideSplit(regions, i);
      FilledOutside(Patched(block, head.start, plaintext[..head.length]), rest, end, plaintext[head.length..], i);
    }
  }

  lemma {:induction false} BelowIsOutside(regions: seq<Region>, lo: nat, hi: nat, i: nat)
    requires Ordered(regions, lo, hi) && i < lo
    ensures !Inside(regions, i)
    decreases |regions|
  {
    if regions != [] {
      BelowIsOutside(regions[1..], regions[0].start + regions[0].length, hi, i);
      InsideSplit(regions, i);
    }
  }

  /** Decrypting a block of any layout keeps its length and every byte outside the bonus regions of its dnodes. */
  lemma DecryptionKeepsPlainBytes(version: Version, aead: Aead, block: seq<Byte>)
    requires PoolDecrypted(version, aead, block).Some?
    ensures |PoolDecrypted(version, aead, block).value| == |block| && |block| % SLOT == 0
    ensures PoolScan(version, block, 0).Some?
    ensures forall i: nat :: i < |block| && !Inside(PoolScan(version, block, 0).value.regions, i) ==>
              PoolDecrypted(version, aead, block).value[i] == block[i]
  {
    hide PoolScan;
    hide Inside;
    hide Filled;
    var run := PoolScan(version, block, 0).value;
    if run.part.ciphertext != [] {
      PoolScanOrdered(version, block, 0);
      var plaintext := aead.open(run.part.aad, run.part.ciphertext).value;
      forall i: nat | i < |block| && !Inside(run.regions, i)
        ensures PoolDecrypted(version, aead, block).value[i] == block[i]
      {
        FilledOutside(block, run.regions, 0, plaintext, i);
      }
    }
  }

  // ---------- Both decryptions give the same bonuses ----------

  lemma {:induction false} TotalsMatch(table: Dnodes, first: U64, regions: seq<Region>, bonuses: seq<Bonus>)
    requires Matches(table, first, regions, bonuses)
    ensures Total(regions) == BonusTotal(bonuses)
    decreases |regions|
  {
    hide BonusOffset;
    if regions != [] {
      TotalsMatch(table, first, regions[1..], bonuses[1..]);
    }
  }

  lemma {:induction false} AscendingSkips(bonuses: seq<Bonus>, lo: nat, k: nat)
    requires Ascending(bonuses, lo) && k < |bonuses|
    ensures lo <= bonuses[k].objectId
    decreases |bonuses|
  {
    if k > 0 {
      AscendingSkips(bonuses[1..], bonuses[0].objectId + 1, k - 1);
    }
  }

  /** The k-th region of the patched block is the k-th bonus. */
  lemma {:induction false} FilledIsCut(table: Dnodes, first: U64, block: seq<Byte>, regions: seq<Region>,
                                       bonuses: seq<Bonus>,
                                       lo: nat, low: nat, plaintext: seq<Byte>, k: nat)
    requires Matches(table, first, regions, bonuses) && Ordered(regions, lo, |block|) && Ascending(bonuses, low)
    requires Total(regions) == |plaintext| == BonusTotal(bonuses) && k < |regions|
    ensures bonuses[k].objectId in Cut(bonuses, plaintext)
    ensures regions[k].start + regions[k].length <= |block|
    ensures Filled(block, regions, lo, plaintext)[regions[k].start..regions[k].start + regions[k].length]
         == Cut(bonuses, plaintext)[bonuses[k].objectId]
    decreases |regions|
  {
    hide BonusOffset;
    hide Inside;
    var head, rest := regions[0], regions[1..];
    var end := head.start + head.length;
    OrderedFits(rest, end, |block|);
    var patched := Patched(block, head.start, plaintext[..head.length]);
    var tail := plaintext[head.length..];
    if k > 0 {
      FilledIsCut(table, first, patched, rest, bonuses[1..], end, bonuses[0].objectId + 1, tail, k - 1);
    } else {
      HeadSurvives(patched, rest, end, tail, head.start);
      HeadIsNew(bonuses, low, tail);
      assert patched[head.start..end] == plaintext[..head.length];
    }
  }

  lemma HeadSurvives(patched: seq<Byte>, rest: seq<Region>, end: nat, tail: seq<Byte>, start: nat)
    requires Ordered(rest, end, |patched|) && Total(rest) == |tail| && start <= end <= |patched|
    ensures Filled(patched, rest, end, tail)[start..end] == patched[start..end]
  {
    forall i | start <= i < end
      ensures Filled(patched, rest, end, tail)[i] == patched[i]
    {
      BelowIsOutside(rest, end, |patched|, i);
      FilledOutside(patched, rest, end, tail, i);
    }
  }

  lemma HeadIsNew(bonuses: seq<Bonus>, low: nat, tail: seq<Byte>)
    requires bonuses != [] && Ascending(bonuses, low) && BonusTotal(bonuses[1..]) <= |tail|
    ensures bonuses[0].objectId !in Cut(bonuses[1..], tail)
  {
    var rest := bonuses[1..];
    if bonuses[0].objectId in Cut(rest, tail) {
      CutKeys(rest, tail, bonuses[0].objectId);
      var k :| 0 <= k < |rest| && rest[k].objectId == bonuses[0].objectId;
      AscendingSkips(rest, bonuses[0].objectId + 1, k);
    }
  }

  /** Exactly the listed objects get a bonus. */
  lemma {:induction false} CutKeys(bonuses: seq<Bonus>, plaintext: seq<Byte>, id: U64)
    requires BonusTotal(bonuses) <= |plaintext|
    ensures id in Cut(bonuses, plaintext) <==> Listed(bonuses, id)
    decreases |bonuses|
  {
    if bonuses != [] {
      var rest := bonuses[1..];
      CutKeys(rest, plaintext[bonuses[0].length..], id);
      if Listed(rest, id) {
        var k :| 0 <= k < |rest| && rest[k].objectId == id;
        assert bonuses[k + 1].objectId == id;
      }
      if Listed(bonuses, id) && bonuses[0].objectId != id {
        var k :| 0 <= k < |bonuses| && bonuses[k].objectId == id;
        assert rest[k - 1].objectId == id;
      }
    }
  }

  predicate Listed(bonuses: seq<Bonus>, id: U64) { exists k :: 0 <= k < |bonuses| && bonuses[k].objectId == id }

  lemma ListedJoin(a: seq<Bonus>, b: seq<Bonus>, id: U64)
    ensures Listed(a + b, id) <==> Listed(a, id) || Listed(b, id)
  {
    if Listed(a, id) {
      var k :| 0 <= k < |a| && a[k].objectId == id;
      assert (a + b)[k].objectId == id;
    }
    if Listed(b, id) {
      var k :| 0 <= k < |b| && b[k].objectId == id;
      assert (a + b)[|a| + k].objectId == id;
    }
  }

  /** A bonus is listed exactly for the visited dnodes whose bonus is encrypted. */
  lemma {:induction false} ScanLists(version: Version, digest: Digest, range: ObjectRangeRecord, table: Dnodes,
                                     at: nat, rangeEnd: nat, id: U64)
    requires rangeEnd <= U64_MAX && Filed(table) && SendScan(version, digest, range, table, at, rangeEnd).Some?
    ensures var run := SendScan(version, digest, range, table, at, rangeEnd).value;
            Listed(run.bonuses, id) <==> id in run.visited && SendEncrypted(table[id].record)
    decreases rangeEnd - at
  {
    hide SendPart;
    hide SendEncrypted;
    hide SendBonuses;
    hide Listed;
    if at < rangeEnd {
      if at !in table {
        ScanLists(version, digest, range, table, at + 1, rangeEnd, id);
        var rest := SendScan(version, digest, range, table, at + 1, rangeEnd).value;
        assert [] + rest.bonuses == rest.bonuses;
      } else {
        var d := table[at].record;
        ScanLists(version, digest, range, table, at + d.dnodeSlots, rangeEnd, id);
        var rest := SendScan(version, digest, range, table, at + d.dnodeSlots, rangeEnd).value;
        ListedJoin(SendBonuses(d), rest.bonuses, id);
        OneListed(d, id);
      }
    } else {
      NoneListed(id);
    }
  }

  lemma OneListed(d: ObjectRecord, id: U64)
    requires MaxBonus(d).Some?
    ensures Listed(SendBonuses(d), id) <==> SendEncrypted(d) && d.objectId == id
  {
    if SendEncrypted(d) {
      assert SendBonuses(d)[0].objectId == d.objectId;
    }
  }

  lemma NoneListed(id: U64)
    ensures !Listed([], id)
  {
  }

  // ---------- Main results ----------

  /** For any block laid out from the dnodes of an accepted send: the on-disk builder accepts it too, and it builds
      the same additional data and the same ciphertext exactly when no dnode with an encrypted bonus has object
      type zero. The k-th region is then the on-disk place of the k-th bonus of the send. */
  lemma SameTranscript(version: Version, digest: Digest, range: ObjectRangeRecord, dnodes: seq<RawDnode>, block: seq<Byte>)
    requires SendTranscript(version, digest, range, dnodes).Some?
    requires |block| == 32 * SLOT && LaidOut(version, digest, block, ByObject(dnodes), range.firstObject, 0)
    ensures var send, table := SendTranscript(version, digest, range, dnodes).value, ByObject(dnodes);
            && PoolScan(version, block, 0).Some?
            && (PoolScan(version, block, 0).value.part == send.part <==> AllTyped(table, table.Keys))
            && (AllTyped(table, table.Keys) ==> Agree(table, range.firstObject, PoolScan(version, block, 0).value, send, 0))
  {
    hide ByObject;
    hide SendScan;
    hide LaidOut;
    hide PoolScan;
    hide Typed;
    var table := ByObject(dnodes);
    AcceptedVisitsAll(version, digest, range, dnodes);
    ScansRelate(version, digest, range, block, table, 0);
  }

  /** Both sides recover the same bonuses: where the send decrypts, the on-disk block decrypts, an object has a
      bonus exactly when its dnode's bonus is encrypted, and its bytes stand at that dnode's bonus offset. */
  lemma SameBonuses(version: Version, aead: Aead, digest: Digest, range: ObjectRangeRecord, dnodes: seq<RawDnode>,
                    block: seq<Byte>)
    requires SendDecrypted(version, aead, digest, range, dnodes).Some?
    requires |block| == 32 * SLOT && LaidOut(version, digest, block, ByObject(dnodes), range.firstObject, 0)
    requires AllTyped(ByObject(dnodes), ByObject(dnodes).Keys)
    ensures PoolDecrypted(version, aead, block).Some?
    ensures var table, bonuses := ByObject(dnodes), SendDecrypted(version, aead, digest, range, dnodes).value;
            && bonuses.Keys <= table.Keys
            && (forall id :: id in table ==> (id in bonuses <==> SendEncrypted(table[id].record)))
            && forall id :: id in bonuses ==> StandsAt(PoolDecrypted(version, aead, block).value,
                                                       BonusOffset(table, range.firstObject, id), bonuses[id])
  {
    hide ByObject;
    hide SendTranscript;
    hide LaidOut;
    hide PoolScan;
    hide Typed;
    hide BonusOffset;
    hide StandsAt;
    hide Filled;
    hide SendEncrypted;
    hide Cut;
    var table, send := ByObject(dnodes), SendTranscript(version, digest, range, dnodes).value;
    SameTranscript(version, digest, range, dnodes, block);
    var run := PoolScan(version, block, 0).value;
    TotalsMatch(table, range.firstObject, run.regions, send.bonuses);
    PoolScanOrdered(version, block, 0);
    var plaintext := aead.open(send.part.aad, send.part.ciphertext).value;
    var bonuses := Cut(send.bonuses, plaintext);
    forall id: U64
      ensures id in bonuses <==> id in table && SendEncrypted(table[id].record)
    {
      CutKeys(send.bonuses, plaintext, id);
      TranscriptLists(version, digest, range, dnodes, id);
    }
    forall id | id in bonuses
      ensures StandsAt(PoolDecrypted(version, aead, block).value, BonusOffset(table, range.firstObject, id), bonuses[id])
    {
      BonusStands(version, aead, table, range.firstObject, block, send, plaintext, id);
    }
  }

  lemma TranscriptLists(version: Version, digest: Digest, range: ObjectRangeRecord, dnodes: seq<RawDnode>, id: U64)
    requires SendTranscript(version, digest, range, dnodes).Some?
    ensures Listed(SendTranscript(version, digest, range, dnodes).value.bonuses, id)
       <==> id in ByObject(dnodes) && SendEncrypted(ByObject(dnodes)[id].record)
  {
    hide ByObject;
    hide SendScan;
    AcceptedVisitsAll(version, digest, range, dnodes);
    ScanLists(version, digest, range, ByObject(dnodes), range.firstObject, range.firstObject + 32, id);
  }

  /** A byte string stands at an offset of a block. */
  predicate StandsAt(block: seq<Byte>, offset: int, text: seq<Byte>) {
    0 <= offset && offset + |text| <= |block| && block[offset..offset + |text|] == text
  }

  lemma BonusStands(version: Version, aead: Aead, table: Dnodes, first: U64, block: seq<Byte>, send: SendRun,
                    plaintext: seq<Byte>, id: U64)
    requires |block| == 32 * SLOT && PoolScan(version, block, 0).Some? && PoolDecrypted(version, aead, block).Some?
    requires Agree(table, first, PoolScan(version, block, 0).value, send, 0)
    requires aead.open(send.part.aad, send.part.ciphertext) == Some(plaintext) && |plaintext| == BonusTotal(send.bonuses)
    requires id in Cut(send.bonuses, plaintext) && id in table
    ensures StandsAt(PoolDecrypted(version, aead, block).value, BonusOffset(table, first, id),
                     Cut(send.bonuses, plaintext)[id])
  {
    hide PoolScan;
    hide BonusOffset;
    hide Filled;
    hide Cut;
    hide Ordered;
    hide Ascending;
    var run := PoolScan(version, block, 0).value;
    PoolScanOrdered(version, block, 0);
    TotalsMatch(table, first, run.regions, send.bonuses);
    CutKeys(send.bonuses, plaintext, id);
    var k :| 0 <= k < |send.bonuses| && send.bonuses[k].objectId == id;
    FilledIsCut(table, first, block, run.regions, send.bonuses, 0, first, plaintext, k);
    CutLength(send.bonuses, plaintext, first, k);
    EmptyIsFilled(block, run.regions, plaintext);
  }

  lemma {:induction false} CutLength(bonuses: seq<Bonus>, plaintext: seq<Byte>, low: nat, k: nat)
    requires k < |bonuses| && BonusTotal(bonuses) <= |plaintext| && Ascending(bonuses, low)
    ensures bonuses[k].objectId in Cut(bonuses, plaintext)
    ensures |Cut(bonuses, plaintext)[bonuses[k].objectId]| == bonuses[k].length
    decreases |bonuses|
  {
    var rest, tail := bonuses[1..], plaintext[bonuses[0].length..];
    if k > 0 {
      CutLength(rest, tail, bonuses[0].objectId + 1, k - 1);
    } else {
      HeadIsNew(bonuses, low, tail);
    }
  }

  lemma {:induction false} EmptyIsFilled(block: seq<Byte>, regions: seq<Region>, plaintext: seq<Byte>)
    requires Ordered(regions, 0, |block|) && Total(regions) == |plaintext|
    ensures plaintext == [] ==> Filled(block, regions, 0, plaintext) == block
  {
    if plaintext == [] {
      forall i: nat | i < |block|
        ensures Filled(block, regions, 0, plaintext)[i] == block[i]
      {
        EmptyRegions(regions, i);
        FilledOutside(block, regions, 0, plaintext, i);
      }
    }
  }

  lemma {:induction false} EmptyRegions(regions: seq<Region>, i: nat)
    requires Total(regions) == 0
    ensures !Inside(regions, i)
    decreases |regions|
  {
    if regions != [] {
      EmptyRegions(regions[1..], i);
      InsideSplit(regions, i);
    }
  }
}
