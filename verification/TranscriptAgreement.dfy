/** Both transcript builders of Transcript agree on any block laid out from the dnodes of a send. */
module TranscriptAgreement {
  import opened Bytes
  import opened Records
  import opened RawLeaves
  import opened BlockPointers
  import opened Merkle
  import opened MerkleTree
  import opened Transcript

  // ---------- One dnode ----------

  lemma {:induction false} LittleEndianInverse(b: seq<Byte>)
    ensures LittleEndian(FromLittleEndian(b), |b|) == b
  {
    if b != [] {
      var rest := FromLittleEndian(b[1..]);
      DivideExact(b[0], 256, rest);
      LittleEndianInverse(b[1..]);
    }
  }

  /** Masking the disk core gives the core built from the OBJECT record. */
  lemma SameCore(core: seq<Byte>, d: ObjectRecord)
    requires |core| == CORE && d.dnodeSlots > 0 && CoreOnDisk(core, d) && DnodeCore(d).Some?
    ensures PortableCore(core) == DnodeCore(d).value
  {
    hide HasSpill;
    hide LittleEndian;
    hide FromLittleEndian;
    LittleEndianInverse(core[8..10]);
    LittleEndianInverse(core[10..12]);
    LittleEndianInverse(core[16..24]);
    var sent := DnodeCore(d).value;
    assert core[8..24] == core[8..10] + core[10..12] + [core[12]] + core[13..16] + core[16..24];
    assert core[..7] == [core[0], core[1], core[2], core[3], core[4], core[5], core[6]];
    assert Zeros(8) + Zeros(32) == Zeros(40);
  }

  lemma {:induction false} SamePointers(version: Version, raw: seq<Byte>, roots: seq<Auth>, n: nat)
    requires n <= |roots| && CORE + BLKPTR_SIZE * |roots| <= |raw| && PointersOnDisk(version, raw, roots)
    ensures PointerBytes(version, raw, n) == EncodeAll(version, roots[..n])
  {
    hide Encode;
    hide Normalized;
    if n > 0 {
      SamePointers(version, raw, roots, n - 1);
      assert roots[..n][..n - 1] == roots[..n - 1];
    }
  }

  /** Top pointers whose trees pass the pool reader's checks are the pointers the send side expects on disk. */
  lemma CheckedTreesAreOnDisk(version: Version, digest: Digest, raw: seq<Byte>, dnode: ObjectRecord,
                              blocks: seq<RawBlockPointer>, tops: seq<Tree>)
    requires 9 <= dnode.indirectBlockShift <= 24 && dnode.maxBlockId < MAX_LEAVES && dnode.levels >= 1
    requires |tops| == dnode.blockPointers && CORE + BLKPTR_SIZE * |tops| <= |raw|
    requires EntriesPerBlock(dnode) > 0 && AllSound(version, digest, dnode, tops, dnode.levels - 1, EntriesPerBlock(dnode))
    requires LeafRow(version, blocks, dnode.maxBlockId + 1).Ok?
    requires HolesAfter(AllLeaves(version, tops, EntriesPerBlock(dnode), dnode.levels - 1),
                        LeafRow(version, blocks, dnode.maxBlockId + 1).value)
    requires forall i :: 0 <= i < |tops| ==> tops[i].raw == raw[CORE + BLKPTR_SIZE * i..CORE + BLKPTR_SIZE * (i + 1)]
    ensures RootPointers(version, digest, dnode, blocks) == Ok(Tops(version, tops)) && PointersOnDisk(version, raw,
        Tops(version, tops))
  {
    hide Normalized;
    hide RootPointers;
    hide LeafRow;
    hide AllSound;
    hide AllLeaves;
    BottomUpIsTopDown(version, digest, dnode, blocks, tops);
  }

  /** The single point where the two sides can part: a dnode of object type zero with an encrypted bonus. */
  predicate Typed(d: ObjectRecord) { SendEncrypted(d) ==> d.objectType != 0 }

  lemma SameLayout(version: Version, digest: Digest, raw: seq<Byte>, d: RawDnode)
    requires DnodeOnDisk(version, digest, raw, d)
    ensures |raw| >= SLOT && BonusStart(raw) == CORE + BLKPTR_SIZE * d.record.blockPointers
    ensures BonusEnd(raw) == |raw| - SpillSize(d.record.flags)
    ensures BonusEnd(raw) - BonusStart(raw) == MaxBonus(d.record).value
    ensures BonusEncrypted(raw) <==> SendEncrypted(d.record) && d.record.objectType != 0
    ensures raw[3] == d.record.blockPointers && HasSpill(raw[7]) == HasSpill(d.record.flags)
  {
    hide RootPointers;
    hide PointersOnDisk;
    hide IsEncryptedObjectType;
    hide FromLittleEndian;
    hide LeafAuth;
    hide Normalized;
    hide HasSpill;
    var core := raw[..CORE];
    assert core[8..12] == raw[8..12] && core[10..12] == raw[10..12];
    assert core[3] == raw[3] && core[7] == raw[7] && core[0] == raw[0] && core[4] == raw[4];
  }

  lemma SameHead(version: Version, digest: Digest, raw: seq<Byte>, d: RawDnode)
    requires DnodeOnDisk(version, digest, raw, d) && SendPart(version, digest, d).Some?
    ensures |raw| >= SLOT && BonusStart(raw) <= BonusEnd(raw)
    ensures SpillBytes(version, d).Some? && DnodeCore(d.record).Some?
    ensures PortableCore(raw[..CORE]) == DnodeCore(d.record).value
    ensures PointerBytes(version, raw, raw[3]) == EncodeAll(version, RootPointers(version, digest, d.record, d.blocks).value)
    ensures (if HasSpill(raw[7]) then Encode(version, Normalized(version, raw[|raw| - BLKPTR_SIZE..])) else [])
        == SpillBytes(version, d).value
  {
    hide RootPointers;
    hide IsEncryptedObjectType;
    hide Encode;
    hide LeafAuth;
    hide Normalized;
    hide PortableCore;
    hide CoreOnDisk;
    hide DnodeCore;
    hide PointersOnDisk;
    hide EncodeAll;
    SameLayout(version, digest, raw, d);
    SameCore(raw[..CORE], d.record);
    var roots := RootPointers(version, digest, d.record, d.blocks).value;
    SamePointers(version, raw, roots, |roots|);
    assert roots[..|roots|] == roots;
  }

  lemma SamePart(version: Version, digest: Digest, raw: seq<Byte>, d: RawDnode)
    requires DnodeOnDisk(version, digest, raw, d) && SendPart(version, digest, d).Some?
    ensures |raw| >= SLOT && BonusStart(raw) <= BonusEnd(raw)
    ensures Typed(d.record) ==> PoolPart(version, raw) == SendPart(version, digest, d).value
    ensures !Typed(d.record) ==>
              || |PoolPart(version, raw).ciphertext| < |SendPart(version, digest, d).value.ciphertext|
              || d.record.bonusLength > MaxBonus(d.record).value
  {
    hide RootPointers;
    hide IsEncryptedObjectType;
    hide Encode;
    hide LeafAuth;
    hide Normalized;
    hide PortableCore;
    hide CoreOnDisk;
    hide DnodeCore;
    hide PointersOnDisk;
    hide EncodeAll;
    hide HasSpill;
    SameHead(version, digest, raw, d);
    SameLayout(version, digest, raw, d);
    if SendEncrypted(d.record) {
      assert d.bonus + Zeros(0) == d.bonus;
    }
  }

  // ---------- The whole block ----------

  predicate AllTyped(table: Dnodes, ids: set<U64>) { forall id :: id in ids && id in table ==> Typed(table[id].record) }

  /** Where in the block the bonus of an object's dnode starts. */
  function BonusOffset(table: Dnodes, first: U64, id: U64): int
    requires id in table
  {
    SLOT * (id - first) + CORE + BLKPTR_SIZE * table[id].record.blockPointers
  }

  /** The same bonuses in the same order: the k-th region is where the k-th bonus of the send lives on disk. */
  predicate Matches(table: Dnodes, first: U64, regions: seq<Region>, bonuses: seq<Bonus>) {
    && |regions| == |bonuses|
    && forall k :: 0 <= k < |regions| ==>
         && bonuses[k].objectId in table && regions[k].length == bonuses[k].length
         && regions[k].start == BonusOffset(table, first, bonuses[k].objectId)
  }

  /** The regions lie one after the other in a stretch of the block. */
  predicate Ordered(regions: seq<Region>, lo: nat, hi: nat) {
    if regions == [] then lo <= hi
    else lo <= regions[0].start && Ordered(regions[1..], regions[0].start + regions[0].length, hi)
  }

  lemma {:induction false} OrderedFromLower(regions: seq<Region>, lo: nat, higher: nat, hi: nat)
    requires Ordered(regions, higher, hi) && lo <= higher
    ensures Ordered(regions, lo, hi)
  {
  }

  /** Bonuses appear in increasing object order. */
  predicate Ascending(bonuses: seq<Bonus>, lo: nat) {
    bonuses == [] || (lo <= bonuses[0].objectId && Ascending(bonuses[1..], bonuses[0].objectId + 1))
  }

  /** What the two scans have in common from a slot on. */
  predicate Agree(table: Dnodes, first: U64, pool: PoolRun, send: SendRun, slot: nat) {
    && Matches(table, first, pool.regions, send.bonuses)
    && Ordered(pool.regions, SLOT * slot, 32 * SLOT)
    && Ascending(send.bonuses, first + slot)
    && pool.part == send.part
  }

  predicate Related(table: Dnodes, first: U64, pool: PoolRun, send: SendRun, slot: nat) {
    && |pool.part.ciphertext| <= |send.part.ciphertext|
    && (AllTyped(table, send.visited) ==> Agree(table, first, pool, send, slot))
    && (!AllTyped(table, send.visited) ==> |pool.part.ciphertext| < |send.part.ciphertext|)
  }

  lemma FreeSlot(version: Version, block: seq<Byte>, slot: nat)
    requires |block| == 32 * SLOT && slot < 32 && block[SLOT * slot..SLOT * (slot + 1)] == Zeros(SLOT)
    ensures DnodeAt(block, SLOT * slot) == Some(Zeros(SLOT))
    ensures PoolPart(version, Zeros(SLOT)) == Part(Zeros(SLOT), []) && PoolRegions(Zeros(SLOT), SLOT * slot) == []
  {
    var raw := Zeros(SLOT);
    assert block[SLOT * slot..SLOT * (slot + 1)][12] == block[SLOT * slot + 12];
    assert PortableCore(raw[..CORE]) == Zeros(CORE);
    assert PointerBytes(version, raw, 0) == [];
    assert Zeros(CORE) + [] + [] + raw[CORE..SLOT] == Zeros(SLOT);
  }

  lemma DnodeIsFound(version: Version, digest: Digest, block: seq<Byte>, slot: nat, d: RawDnode)
    requires |block| == 32 * SLOT && d.record.dnodeSlots > 0 && slot + d.record.dnodeSlots <= 32
    requires DnodeOnDisk(version, digest, block[SLOT * slot..SLOT * (slot + d.record.dnodeSlots)], d)
    ensures DnodeAt(block, SLOT * slot) == Some(block[SLOT * slot..SLOT * (slot + d.record.dnodeSlots)])
  {
    hide RootPointers;
    hide PointersOnDisk;
    hide FromLittleEndian;
    hide LeafAuth;
    hide Normalized;
    hide HasSpill;
    var raw := block[SLOT * slot..SLOT * (slot + d.record.dnodeSlots)];
    SameLayout(version, digest, raw, d);
    assert raw[..CORE][12] == raw[12] == block[SLOT * slot + 12];
  }

  /** A free slot in front of related scans. */
  lemma RelatedAfterFree(table: Dnodes, first: U64, pool: PoolRun, send: SendRun, slot: nat)
    requires slot < 32 && Related(table, first, pool, send, slot + 1)
    ensures JoinSend(SendRun(Part(Zeros(SLOT), []), [], {}), Some(send)).Some?
    ensures JoinPool(PoolRun(Part(Zeros(SLOT), []), []), Some(pool)).Some?
    ensures Related(table, first, JoinPool(PoolRun(Part(Zeros(SLOT), []), []), Some(pool)).value,
                    JoinSend(SendRun(Part(Zeros(SLOT), []), [], {}), Some(send)).value, slot)
  {
    hide Matches;
    hide AllTyped;
    hide Typed;
    assert {} + send.visited == send.visited;
    assert [] + pool.regions == pool.regions && [] + send.bonuses == send.bonuses;
    if AllTyped(table, send.visited) {
      OrderedFromLower(pool.regions, SLOT * slot, SLOT * (slot + 1), 32 * SLOT);
    }
  }

  /** What one dnode adds on both sides. */
  lemma DnodeStep(version: Version, digest: Digest, range: ObjectRangeRecord, raw: seq<Byte>, d: RawDnode, offset: nat)
    requires DnodeOnDisk(version, digest, raw, d) && range.firstObject + 32 <= U64_MAX
    requires SendStep(version, digest, range, d, range.firstObject + 32).Some?
    ensures |raw| >= SLOT && BonusStart(raw) <= BonusEnd(raw) <= |raw| && MaxBonus(d.record).Some?
    ensures SendStep(version, digest, range, d, range.firstObject + 32).value.bonuses == SendBonuses(d.record)
    ensures SendStep(version, digest, range, d, range.firstObject + 32).value.visited == {d.record.objectId}
    ensures var sent := SendStep(version, digest, range, d, range.firstObject + 32).value.part;
            if Typed(d.record) then PoolPart(version, raw) == sent
            else |PoolPart(version, raw).ciphertext| < |sent.ciphertext|
    ensures Typed(d.record) ==>
      PoolRegions(raw, offset) == if SendEncrypted(d.record)
        then [Region(offset + CORE + BLKPTR_SIZE * d.record.blockPointers, MaxBonus(d.record).value)] else []
  {
    hide DnodeOnDisk;
    hide SendPart;
    hide PoolPart;
    hide BonusEncrypted;
    hide BonusStart;
    hide BonusEnd;
    hide SendEncrypted;
    SamePart(version, digest, raw, d);
    SameLayout(version, digest, raw, d);
  }

  /** A dnode in front of related scans. */
  lemma RelatedAfterDnode(version: Version, digest: Digest, range: ObjectRangeRecord, table: Dnodes, raw: seq<Byte>,
                          pool: PoolRun, send: SendRun, slot: nat)
    requires slot < 32 && range.firstObject + 32 <= U64_MAX && Filed(table) && range.firstObject + slot in table
    requires var d := table[range.firstObject + slot];
             && DnodeOnDisk(version, digest, raw, d) && SendStep(version, digest, range, d, range.firstObject + 32).Some?
             && Related(table, range.firstObject, pool, send, slot + d.record.dnodeSlots)
    ensures |raw| >= SLOT && BonusStart(raw) <= BonusEnd(raw)
    ensures var d := table[range.firstObject + slot];
            Related(table, range.firstObject, JoinPool(PoolRun(PoolPart(version, raw), PoolRegions(raw, SLOT * slot)),
                                                       Some(pool)).value,
                    JoinSend(SendStep(version, digest, range, d, range.firstObject + 32).value, Some(send)).value, slot)
  {
    hide DnodeOnDisk;
    hide SendStep;
    hide PoolPart;
    hide PoolRegions;
    hide BonusStart;
    hide BonusEnd;
    hide Typed;
    hide Agree;
    hide SendBonuses;
    hide MaxBonus;
    var first := range.firstObject;
    var d := table[first + slot];
    DnodeStep(version, digest, range, raw, d, SLOT * slot);
    var step := SendStep(version, digest, range, d, first + 32).value;
    var joined := JoinSend(step, Some(send)).value;
    assert joined.visited == {first + slot} + send.visited;
    if AllTyped(table, joined.visited) {
      assert Typed(d.record) && AllTyped(table, send.visited);
      AgreeAfterDnode(table, first, PoolRun(PoolPart(version, raw), PoolRegions(raw, SLOT * slot)), step, pool, send, slot);
    } else if AllTyped(table, send.visited) {
      assert !Typed(d.record);
    }
  }

  lemma {:induction false} AscendingFromLower(bonuses: seq<Bonus>, lo: nat, higher: nat)
    requires Ascending(bonuses, higher) && lo <= higher
    ensures Ascending(bonuses, lo)
  {
  }

  /** One region and one bonus, or none of either, in front of agreeing scans. */
  lemma AgreeAfterDnode(table: Dnodes, first: U64, front: PoolRun, step: SendRun, pool: PoolRun, send: SendRun, slot: nat)
    requires Filed(table) && first + slot <= U64_MAX && first + slot in table
    requires var d := table[first + slot].record;
             && MaxBonus(d).Some? && Agree(table, first, pool, send, slot + d.dnodeSlots)
             && front.part == step.part && step.bonuses == SendBonuses(d)
             && front.regions == if SendEncrypted(d)
                  then [Region(SLOT * slot + CORE + BLKPTR_SIZE * d.blockPointers, MaxBonus(d).value)] else []
    ensures Agree(table, first, JoinPool(front, Some(pool)).value, JoinSend(step, Some(send)).value, slot)
  {
    hide SendEncrypted;
    hide HasSpill;
    var d := table[first + slot].record;
    var next := slot + d.dnodeSlots;
    var regions, bonuses := front.regions + pool.regions, step.bonuses + send.bonuses;
    if SendEncrypted(d) {
      var end := front.regions[0].start + MaxBonus(d).value;
      OrderedFromLower(pool.regions, end, SLOT * next, 32 * SLOT);
      AscendingFromLower(send.bonuses, first + slot + 1, first + next);
      assert regions[1..] == pool.regions && bonuses[1..] == send.bonuses;
    } else {
      OrderedFromLower(pool.regions, SLOT * slot, SLOT * next, 32 * SLOT);
      AscendingFromLower(send.bonuses, first + slot, first + next);
      assert regions == pool.regions && bonuses == send.bonuses;
    }
  }

  predicate Relates(version: Version, digest: Digest, range: ObjectRangeRecord, block: seq<Byte>, table: Dnodes, slot: nat)
    requires |block| == 32 * SLOT && range.firstObject + 32 <= U64_MAX && Filed(table)
  {
    var pool := PoolScan(version, block, SLOT * slot);
    var send := SendScan(version, digest, range, table, range.firstObject + slot, range.firstObject + 32);
    send.Some? ==> pool.Some? && Related(table, range.firstObject, pool.value, send.value, slot)
  }

  lemma FreeSlotRelates(version: Version, digest: Digest, range: ObjectRangeRecord, block: seq<Byte>, table: Dnodes,
                        slot: nat)
    requires |block| == 32 * SLOT && range.firstObject + 32 <= U64_MAX && Filed(table) && slot < 32
    requires range.firstObject + slot !in table && block[SLOT * slot..SLOT * (slot + 1)] == Zeros(SLOT)
    requires Relates(version, digest, range, block, table, slot + 1)
    ensures Relates(version, digest, range, block, table, slot)
  {
    hide DnodeAt;
    hide PoolPart;
    hide PoolRegions;
    hide SendStep;
    hide Related;
    hide Filed;
    var first := range.firstObject;
    FreeSlot(version, block, slot);
    var pool, send := PoolScan(version, block, SLOT * (slot + 1)), SendScan(version, digest, range, table,
                                                                            first + slot + 1, first + 32);
    if send.Some? {
      RelatedAfterFree(table, first, pool.value, send.value, slot);
    }
  }

  lemma DnodeRelates(version: Version, digest: Digest, range: ObjectRangeRecord, block: seq<Byte>, table: Dnodes, slot: nat)
    requires |block| == 32 * SLOT && range.firstObject + 32 <= U64_MAX && Filed(table) && slot < 32
    requires range.firstObject + slot in table
    requires var d := table[range.firstObject + slot];
             && d.record.dnodeSlots > 0 && slot + d.record.dnodeSlots <= 32
             && DnodeOnDisk(version, digest, block[SLOT * slot..SLOT * (slot + d.record.dnodeSlots)], d)
             && Relates(version, digest, range, block, table, slot + d.record.dnodeSlots)
    ensures Relates(version, digest, range, block, table, slot)
  {
    hide DnodeOnDisk;
    hide DnodeAt;
    hide PoolPart;
    hide PoolRegions;
    hide SendStep;
    hide Related;
    hide BonusStart;
    hide BonusEnd;
    hide Filed;
    var first := range.firstObject;
    var d := table[first + slot];
    var next := slot + d.record.dnodeSlots;
    DnodeIsFound(version, digest, block, slot, d);
    var pool, send := PoolScan(version, block, SLOT * next), SendScan(version, digest, range, table, first + next,
                                                                      first + 32);
    if SendScan(version, digest, range, table, first + slot, first + 32).Some? {
      RelatedAfterDnode(version, digest, range, table, block[SLOT * slot..SLOT * next], pool.value, send.value, slot);
    }
  }

  lemma {:induction false} ScansRelate(version: Version, digest: Digest, range: ObjectRangeRecord, block: seq<Byte>,
                                       table: Dnodes, slot: nat)
    requires |block| == 32 * SLOT && range.firstObject + 32 <= U64_MAX && Filed(table) && slot <= 32
    requires LaidOut(version, digest, block, table, range.firstObject, slot)
    ensures Relates(version, digest, range, block, table, slot)
    decreases 32 - slot
  {
    hide DnodeOnDisk;
    hide Relates;
    hide Filed;
    if slot == 32 {
      EndRelates(version, digest, range, block, table);
    } else if range.firstObject + slot !in table {
      ScansRelate(version, digest, range, block, table, slot + 1);
      FreeSlotRelates(version, digest, range, block, table, slot);
    } else {
      ScansRelate(version, digest, range, block, table, slot + table[range.firstObject + slot].record.dnodeSlots);
      DnodeRelates(version, digest, range, block, table, slot);
    }
  }

  lemma EndRelates(version: Version, digest: Digest, range: ObjectRangeRecord, block: seq<Byte>, table: Dnodes)
    requires |block| == 32 * SLOT && range.firstObject + 32 <= U64_MAX && Filed(table)
    ensures Relates(version, digest, range, block, table, 32)
  {
    NothingIsRelated(table, range.firstObject);
  }

  lemma NothingIsRelated(table: Dnodes, first: U64)
    ensures Related(table, first, PoolRun(Part([], []), []), SendRun(Part([], []), [], {}), 32)
  {
  }
}
