/** The authenticated transcript of a 32-slot dnode block, built twice: from the on-disk block
    (src/encrypted.rs, `decrypt_pool_dnode_block`) and from send records (`decrypt_dnode_bonuses`). */
module Transcript {
  import opened Bytes
  import opened Records
  import opened RawLeaves
  import opened BlockPointers
  import opened Merkle

  const SLOT: nat := 512

  const CORE: nat := 64

  predicate HasSpill(flags: Byte) { flags / 4 % 2 == 1 }

  function SpillSize(flags: Byte): nat { if HasSpill(flags) then BLKPTR_SIZE else 0 }

  /** What one dnode or a run of dnodes adds to the additional data and to the ciphertext. */
  datatype Part = Part(aad: seq<Byte>, ciphertext: seq<Byte>)

  function JoinPart(a: Part, b: Part): Part { Part(a.aad + b.aad, a.ciphertext + b.ciphertext) }

  // ---------- The on-disk side ----------

  datatype Region = Region(start: nat, length: nat)

  datatype PoolRun = PoolRun(part: Part, regions: seq<Region>)

  function JoinPool(a: PoolRun, b: Option<PoolRun>): Option<PoolRun> {
    if b.None? then None else Some(PoolRun(JoinPart(a.part, b.value.part), a.regions + b.value.regions))
  }

  /** The core with all flags but the spill flag and the used-bytes field cleared. */
  function PortableCore(core: seq<Byte>): seq<Byte>
    requires |core| == CORE
  {
    core[..7] + [if HasSpill(core[7]) then 4 else 0] + core[8..24] + Zeros(8) + core[32..]
  }

  function BonusStart(raw: seq<Byte>): nat
    requires |raw| >= CORE
  {
    CORE + BLKPTR_SIZE * raw[3]
  }

  function BonusEnd(raw: seq<Byte>): nat
    requires |raw| >= SLOT
  {
    |raw| - SpillSize(raw[7])
  }

  function PointerBytes(version: Version, raw: seq<Byte>, n: nat): seq<Byte>
    requires CORE + BLKPTR_SIZE * n <= |raw|
  {
    if n == 0 then []
    else PointerBytes(version, raw, n - 1) + Encode(version,
                                                    Normalized(version,
                                                               raw[CORE + BLKPTR_SIZE * (n - 1)..CORE + BLKPTR_SIZE * n]))
  }

  predicate BonusEncrypted(raw: seq<Byte>)
    requires |raw| >= CORE
  {
    raw[0] != 0 && FromLittleEndian(raw[10..12]) != 0 && IsEncryptedObjectType(raw[4])
  }

  /** What a dnode's bytes, from its core to its last slot, add. */
  function PoolPart(version: Version, raw: seq<Byte>): Part
    requires |raw| >= SLOT && BonusStart(raw) <= BonusEnd(raw)
  {
    var spill := if HasSpill(raw[7]) then Encode(version, Normalized(version, raw[|raw| - BLKPTR_SIZE..])) else [];
    var bonus := raw[BonusStart(raw)..BonusEnd(raw)];
    var head := PortableCore(raw[..CORE]) + PointerBytes(version, raw, raw[3]) + spill;
    if BonusEncrypted(raw) then Part(head, bonus) else Part(head + bonus, [])
  }

  function PoolRegions(raw: seq<Byte>, offset: nat): seq<Region>
    requires |raw| >= SLOT && BonusStart(raw) <= BonusEnd(raw)
  {
    if BonusEncrypted(raw) then [Region(offset + BonusStart(raw), BonusEnd(raw) - BonusStart(raw))] else []
  }

  /** The dnode starting at an offset, or None when it runs past the block or its layout is impossible. */
  function DnodeAt(block: seq<Byte>, offset: nat): (raw: Option<seq<Byte>>)
    requires offset + SLOT <= |block|
    ensures raw.Some? ==> |raw.value| == SLOT * (1 + block[offset + 12] as int) && offset + |raw.value| <= |block|
                          && BonusStart(raw.value) <= BonusEnd(raw.value)
  {
    var end := offset + SLOT * (1 + block[offset + 12] as int);
    if end > |block| then None
    else
      var raw := block[offset..end];
      if BonusStart(raw) > BonusEnd(raw) then None else Some(raw)
  }

  function PoolScan(version: Version, block: seq<Byte>, offset: nat): Option<PoolRun>
    requires |block| % SLOT == 0 && offset % SLOT == 0
    decreases |block| - offset
  {
    if offset >= |block| then Some(PoolRun(Part([], []), []))
    else
      var raw := DnodeAt(block, offset);
      if raw.None? then None
      else JoinPool(PoolRun(PoolPart(version, raw.value), PoolRegions(raw.value, offset)),
                    PoolScan(version, block, offset + |raw.value|))
  }

  // ---------- The send side ----------

  datatype Bonus = Bonus(objectId: U64, length: nat)

  datatype SendRun = SendRun(part: Part, bonuses: seq<Bonus>, visited: set<U64>)

  function JoinSend(a: SendRun, b: Option<SendRun>): Option<SendRun> {
    if b.None? then None
    else Some(SendRun(JoinPart(a.part, b.value.part), a.bonuses + b.value.bonuses, a.visited + b.value.visited))
  }

  function DnodeCore(d: ObjectRecord): (core: Option<seq<Byte>>)
    requires d.dnodeSlots > 0
    ensures core.Some? ==> |core.value| == CORE
  {
    var sectors := d.blockSize / 512;
    if d.objectType > 255 || d.bonusType > 255 || sectors == 0 || d.blockSize % 512 != 0 || sectors > 65535
      || d.bonusLength > 65535 then None
    else
      Some([d.objectType, d.indirectBlockShift, d.levels, d.blockPointers, d.bonusType, d.checksumType, d.compression,
            if HasSpill(d.flags) then 4 else 0]
           + LittleEndian(sectors, 2) + LittleEndian(d.bonusLength, 2) + [d.dnodeSlots - 1] + Zeros(3)
           + LittleEndian(d.maxBlockId, 8) + Zeros(40))
  }

  function MaxBonus(d: ObjectRecord): Option<nat> {
    var used := CORE + BLKPTR_SIZE * d.blockPointers + SpillSize(d.flags);
    if used > SLOT * d.dnodeSlots then None else Some(SLOT * d.dnodeSlots - used)
  }

  predicate ValidDnode(range: ObjectRangeRecord, d: RawDnode, rangeEnd: nat) {
    && range.firstObject <= d.record.objectId && d.record.objectId + d.record.dnodeSlots <= rangeEnd
    && d.record.dnodeSlots != 0 && d.record.blockPointers != 0 && d.record.levels != 0
    && (d.record.flags == 0 || d.record.flags == 4)
    && (forall b :: b in d.blocks ==> b.flags / 2 % 2 == 0)
    && MaxBonus(d.record).Some? && d.record.bonusLength <= MaxBonus(d.record).value
  }

  predicate SendEncrypted(d: ObjectRecord) { IsEncryptedObjectType(d.bonusType) && d.bonusLength != 0 }

  function SpillBytes(version: Version, d: RawDnode): Option<seq<Byte>> {
    if !HasSpill(d.record.flags) then Some([])
    else if d.spill.None? then None
    else
      var leaf := LeafAuth(version, d.spill.value);
      if leaf.None? then None else Some(Encode(version, leaf.value))
  }

  function SendPart(version: Version, digest: Digest, d: RawDnode): Option<Part>
    requires d.record.dnodeSlots > 0 && MaxBonus(d.record).Some?
  {
    var core, roots, spill := DnodeCore(d.record), RootPointers(version, digest, d.record, d.blocks), SpillBytes(version, d);
    var max := MaxBonus(d.record).value;
    if core.None? || roots.Err? || spill.None? then None
    else
      var head := core.value + EncodeAll(version, roots.value) + spill.value;
      if SendEncrypted(d.record) then
        if |d.bonus| != max then None else Some(Part(head, d.bonus))
      else if |d.bonus| > max then None
      else Some(Part(head + (d.bonus + Zeros(max - |d.bonus|)), []))
  }

  function SendBonuses(d: ObjectRecord): seq<Bonus>
    requires MaxBonus(d).Some?
  {
    if SendEncrypted(d) then [Bonus(d.objectId, MaxBonus(d).value)] else []
  }

  /** Every dnode is filed under its own object. */
  predicate Filed(table: Dnodes) { forall id :: id in table ==> table[id].record.objectId == id }

  function SendStep(version: Version, digest: Digest, range: ObjectRangeRecord, d: RawDnode,
                    rangeEnd: nat): Option<SendRun> {
    if !ValidDnode(range, d, rangeEnd) then None
    else
      var part := SendPart(version, digest, d);
      if part.None? then None else Some(SendRun(part.value, SendBonuses(d.record), {d.record.objectId}))
  }

  function SendScan(version: Version, digest: Digest, range: ObjectRangeRecord, table: Dnodes, objectId: nat,
                    rangeEnd: nat): (run: Option<SendRun>)
    requires rangeEnd <= U64_MAX && Filed(table)
    ensures run.Some? ==> run.value.visited <= table.Keys
    decreases rangeEnd - objectId
  {
    if objectId >= rangeEnd then Some(SendRun(Part([], []), [], {}))
    else if objectId !in table then
      JoinSend(SendRun(Part(Zeros(SLOT), []), [], {}), SendScan(version, digest, range, table, objectId + 1, rangeEnd))
    else
      var step := SendStep(version, digest, range, table[objectId], rangeEnd);
      if step.None? then None
      else JoinSend(step.value, SendScan(version, digest, range, table, objectId + table[objectId].record.dnodeSlots,
                                         rangeEnd))
  }

  function ByObject(dnodes: seq<RawDnode>): (table: Dnodes)
    ensures Filed(table)
    decreases |dnodes|
  {
    if dnodes == [] then map[]
    else FileDnode(ByObject(dnodes[..|dnodes| - 1]), dnodes[|dnodes| - 1])
  }

  function FileDnode(table: Dnodes, d: RawDnode): (r: Dnodes)
    ensures Filed(table) ==> Filed(r)
  {
    table[d.record.objectId := d]
  }

  /** The whole transcript, after every check before decryption. */
  function SendTranscript(version: Version, digest: Digest, range: ObjectRangeRecord,
                          dnodes: seq<RawDnode>): Option<SendRun> {
    if range.flags / 2 % 2 == 1 || range.objectSlots != 32 || range.firstObject + 32 > U64_MAX then None
    else
      var table := ByObject(dnodes);
      if |table| != |dnodes| then None
      else
        var run := SendScan(version, digest, range, table, range.firstObject, range.firstObject + 32);
        if run.None? || |run.value.visited| != |dnodes| then None else run
  }

  /** Accepting means no OBJECT record was skipped. */
  lemma AcceptedVisitsAll(version: Version, digest: Digest, range: ObjectRangeRecord, dnodes: seq<RawDnode>)
    requires SendTranscript(version, digest, range, dnodes).Some?
    ensures SendTranscript(version, digest, range, dnodes).value.visited == ByObject(dnodes).Keys
  {
    hide ByObject;
    hide SendStep;
    hide SendScan;
    var table := ByObject(dnodes);
    var visited := SendTranscript(version, digest, range, dnodes).value.visited;
    SubsetOfSameSize(visited, table.Keys);
  }

  lemma SubsetOfSameSize(a: set<U64>, b: set<U64>)
    requires a <= b && |a| == |b|
    ensures a == b
  {
    assert |b - a| == 0;
  }

  // ---------- A block laid out from dnodes ----------

  predicate CoreOnDisk(core: seq<Byte>, d: ObjectRecord)
    requires |core| == CORE
  {
    && core[0] == d.objectType && core[1] == d.indirectBlockShift && core[2] == d.levels && core[3] == d.blockPointers
    && core[4] == d.bonusType && core[5] == d.checksumType && core[6] == d.compression
    // Flags other than the spill flag are not portable.
    && (HasSpill(core[7]) <==> HasSpill(d.flags))
    && 512 * FromLittleEndian(core[8..10]) == d.blockSize && FromLittleEndian(core[10..12]) == d.bonusLength
    && core[12] as int + 1 == d.dnodeSlots && core[13..16] == Zeros(3) && FromLittleEndian(core[16..24]) == d.maxBlockId
    // Bytes 24 to 32, the used space, are not portable.
    && core[32..] == Zeros(32)
  }

  predicate PointersOnDisk(version: Version, raw: seq<Byte>, roots: seq<Auth>)
    requires CORE + BLKPTR_SIZE * |roots| <= |raw|
  {
    forall i :: 0 <= i < |roots| ==>
      Normalized(version, raw[CORE + BLKPTR_SIZE * i..CORE + BLKPTR_SIZE * (i + 1)]) == roots[i]
  }

  predicate DnodeOnDisk(version: Version, digest: Digest, raw: seq<Byte>, d: RawDnode) {
    && |raw| == SLOT * d.record.dnodeSlots && d.record.dnodeSlots > 0 && MaxBonus(d.record).Some?
    && CoreOnDisk(raw[..CORE], d.record)
    && RootPointers(version, digest, d.record, d.blocks).Ok?
    && |RootPointers(version, digest, d.record, d.blocks).value| == d.record.blockPointers
    && PointersOnDisk(version, raw, RootPointers(version, digest, d.record, d.blocks).value)
    && (HasSpill(d.record.flags) ==>
          d.spill.Some? && LeafAuth(version, d.spill.value) == Some(Normalized(version, raw[|raw| - BLKPTR_SIZE..])))
    && |d.bonus| <= MaxBonus(d.record).value
    && raw[CORE + BLKPTR_SIZE * d.record.blockPointers..|raw| - SpillSize(d.record.flags)]
       == d.bonus + Zeros(MaxBonus(d.record).value - |d.bonus|)
  }

  /** From a slot on, the block holds the filed dnodes one after the other and zeros in free slots. */
  predicate LaidOut(version: Version, digest: Digest, block: seq<Byte>, table: Dnodes, first: U64, slot: nat)
    requires |block| == 32 * SLOT
    decreases 32 - slot
  {
    if slot >= 32 then slot == 32
    else if first + slot !in table then
      block[SLOT * slot..SLOT * (slot + 1)] == Zeros(SLOT) && LaidOut(version, digest, block, table, first, slot + 1)
    else
      var d := table[first + slot];
      && d.record.dnodeSlots > 0 && slot + d.record.dnodeSlots <= 32
      && DnodeOnDisk(version, digest, block[SLOT * slot..SLOT * (slot + d.record.dnodeSlots)], d)
      && LaidOut(version, digest, block, table, first, slot + d.record.dnodeSlots)
  }
}
