/** The checksum-of-MAC tree of an encrypted object: rebuilt bottom-up from the leaves of a send stream
    (src/encrypted.rs, `root_block_pointers`), verified top-down in a pool (src/pool.rs, `indirect_mac`). */
module Merkle {
  import opened Bytes
  import opened Records
  import opened RawLeaves
  import opened Replay
  import opened BlockPointers

  /** SHA-512 truncated to 16 bytes. */
  type Digest = seq<Byte> -> Mac

  const MAX_LEAVES: nat := 4 * 1024 * 1024

  datatype RootError = BadShift | TooManyLeaves | PastMaxBlock | DuplicateLeaf | BadProperty | TooManyRoots

  datatype Result<+T> = Ok(value: T) | Err(error: RootError)

  // ---------- Bottom-up ----------

  function Holes(n: nat): seq<Auth> { seq(n, _ => HOLE) }

  predicate AllHoles(row: seq<Auth>) { forall i :: 0 <= i < |row| ==> row[i] == HOLE }

  function EncodeAll(version: Version, row: seq<Auth>): seq<Byte>
    decreases |row|
  {
    if row == [] then [] else EncodeAll(version, row[..|row| - 1]) + Encode(version, row[|row| - 1])
  }

  /** The bytes hashed for one group of children, missing ones filled in as holes. */
  function Preimage(version: Version, children: seq<Auth>, epb: nat): seq<Byte>
    requires |children| <= epb
  {
    EncodeAll(version, children + Holes(epb - |children|))
  }

  /** A parent of holes is a hole; any other parent carries its children's digest. */
  function ParentOf(version: Version, digest: Digest, children: seq<Auth>, epb: nat, prop: U64): Auth
    requires |children| <= epb
  {
    if AllHoles(children) then HOLE else Auth(prop, digest(Preimage(version, children, epb)))
  }

  function Up(version: Version, digest: Digest, row: seq<Auth>, epb: nat, prop: U64): seq<Auth>
    requires epb > 0
    decreases |row|
  {
    if row == [] then []
    else
      var n := Min(epb, |row|);
      [ParentOf(version, digest, row[..n], epb, prop)] + Up(version, digest, row[n..], epb, prop)
  }

  function IndirectProp(dnode: ObjectRecord, level: nat): Option<U64> {
    if level > 255 || dnode.indirectBlockShift > 24 then None
    else
      Shl1Bounded(dnode.indirectBlockShift);
      BlockProp(Shl1(dnode.indirectBlockShift), 512, 0, dnode.objectType, level, 0)
  }

  lemma {:induction false} Shl1Bounded(n: nat)
    requires n <= 24
    ensures 0 < Shl1(n) <= 0x100_0000
  {
    Shl1Monotone(n, 24);
    assert Shl1(24) == 0x100_0000 by { Shl1At24(); }
  }

  lemma Shl1At24()
    ensures Shl1(24) == 0x100_0000
  {
    assert Shl1(8) == 256;
    assert Shl1(16) == 256 * Shl1(8);
    assert Shl1(24) == 256 * Shl1(16);
  }

  /** Under key version 0 every leaf is described with the smallest physical size. */
  function LeafAuth(version: Version, block: RawBlockPointer): Option<Auth> {
    var physicalSize := if version == 0 then 512 else block.physicalSize;
    var prop := BlockProp(block.logicalSize, physicalSize, block.compression, block.objectType, 0, 1);
    if prop.None? then None else Some(Auth(prop.value, block.mac))
  }

  function LeafRow(version: Version, blocks: seq<RawBlockPointer>, n: nat): (r: Result<seq<Auth>>)
    ensures r.Ok? ==> |r.value| == n
    decreases |blocks|
  {
    if blocks == [] then Ok(Holes(n))
    else
      var before := LeafRow(version, blocks[..|blocks| - 1], n);
      if before.Err? then before
      else PlaceLeaf(version, before.value, blocks[|blocks| - 1])
  }

  function PlaceLeaf(version: Version, row: seq<Auth>, block: RawBlockPointer): (r: Result<seq<Auth>>)
    ensures r.Ok? ==> |r.value| == |row|
  {
    if block.blockId >= |row| then Err(PastMaxBlock)
    else if row[block.blockId].prop != 0 then Err(DuplicateLeaf)
    else
      var leaf := LeafAuth(version, block);
      if leaf.None? then Err(BadProperty) else Ok(row[block.blockId := leaf.value])
  }

  /** Tree levels from `level` up to, not including, `levels`. */
  function Climb(version: Version, digest: Digest, dnode: ObjectRecord, row: seq<Auth>, epb: nat, level: nat,
                 levels: nat): Result<seq<Auth>>
    requires epb > 0
    decreases levels - level
  {
    if level >= levels then Ok(row)
    else
      var prop := IndirectProp(dnode, level);
      if prop.None? && !AllHoles(row) then Err(BadProperty)
      else Climb(version, digest, dnode, Up(version, digest, row, epb, if prop.Some? then prop.value else 0), epb,
                 level + 1, levels)
  }

  function EntriesPerBlock(dnode: ObjectRecord): nat
    requires dnode.indirectBlockShift >= 9
  {
    Shl1(dnode.indirectBlockShift - 7)
  }

  /** `root_block_pointers`. */
  function RootPointers(version: Version, digest: Digest, dnode: ObjectRecord,
                        blocks: seq<RawBlockPointer>): Result<seq<Auth>> {
    if dnode.indirectBlockShift < 9 || dnode.indirectBlockShift > 24 then Err(BadShift)
    else if dnode.maxBlockId + 1 > MAX_LEAVES then Err(TooManyLeaves)
    else
      var leaves := LeafRow(version, blocks, dnode.maxBlockId + 1);
      if leaves.Err? then leaves
      else
        Shl1Monotone(0, dnode.indirectBlockShift - 7);
        var top := Climb(version, digest, dnode, leaves.value, EntriesPerBlock(dnode), 1, dnode.levels);
        if top.Err? then top
        else if |top.value| > dnode.blockPointers then Err(TooManyRoots)
        else Ok(top.value + Holes(dnode.blockPointers - |top.value|))
  }

  // ---------- The duplicate check never fires on indexed leaves ----------

  /** The positions no block names still hold holes. */
  ghost predicate HolesElsewhere(row: seq<Auth>, blocks: seq<RawBlockPointer>) {
    forall id: nat :: id < |row| && (forall b :: b in blocks ==> b.blockId != id) ==> row[id] == HOLE
  }

  lemma {:induction false} DistinctLeavesPlace(version: Version, blocks: seq<RawBlockPointer>, n: nat)
    requires Distinct(blocks)
    ensures LeafRow(version, blocks, n) != Err(DuplicateLeaf)
    ensures LeafRow(version, blocks, n).Ok? ==> HolesElsewhere(LeafRow(version, blocks, n).value, blocks)
    decreases |blocks|
  {
    hide PlaceLeaf;
    if blocks != [] {
      var k := |blocks| - 1;
      DistinctLeavesPlace(version, blocks[..k], n);
      if LeafRow(version, blocks[..k], n).Ok? {
        LeafPlaces(version, LeafRow(version, blocks[..k], n).value, blocks, k);
      }
    }
  }

  lemma LeafPlaces(version: Version, row: seq<Auth>, blocks: seq<RawBlockPointer>, k: nat)
    requires |blocks| == k + 1 && Distinct(blocks) && HolesElsewhere(row, blocks[..k])
    ensures PlaceLeaf(version, row, blocks[k]) != Err(DuplicateLeaf)
    ensures PlaceLeaf(version, row, blocks[k]).Ok? ==> HolesElsewhere(PlaceLeaf(version, row, blocks[k]).value, blocks)
  {
    hide LeafAuth;
    assert blocks == blocks[..k] + [blocks[k]];
    assert forall b :: b in blocks[..k] ==> b.blockId != blocks[k].blockId;
  }

  /** Replaying a raw send can never make the root computation report duplicate WRITE blocks. */
  lemma ReplayHasNoDuplicates(version: Version, digest: Digest, plan: Plan, records: seq<Record>, id: U64)
    requires IndexRun(plan, records).Some? && id in IndexRun(plan, records).value.dnodes
    ensures var entry := IndexRun(plan, records).value.dnodes[id];
            RootPointers(version, digest, entry.record, entry.blocks) != Err(DuplicateLeaf)
  {
    LeavesStayDistinct(plan, records, id);
    hide IndexRun;
    var entry := IndexRun(plan, records).value.dnodes[id];
    DistinctLeavesPlace(version, entry.blocks, entry.record.maxBlockId + 1);
    if entry.record.indirectBlockShift >= 9 {
      Shl1Monotone(0, entry.record.indirectBlockShift - 7);
      var leaves := LeafRow(version, entry.blocks, entry.record.maxBlockId + 1);
      if leaves.Ok? {
        ClimbErrors(version, digest, entry.record, leaves.value, EntriesPerBlock(entry.record), 1, entry.record.levels);
      }
    }
  }

  lemma {:induction false} ClimbErrors(version: Version, digest: Digest, dnode: ObjectRecord, row: seq<Auth>, epb: nat,
                                       level: nat, levels: nat)
    requires epb > 0
    ensures Climb(version, digest, dnode, row, epb, level, levels) != Err(DuplicateLeaf)
    decreases levels - level
  {
    if level < levels {
      var prop := IndirectProp(dnode, level);
      ClimbErrors(version, digest, dnode, Up(version, digest, row, epb, if prop.Some? then prop.value else 0), epb,
                  level + 1, levels);
    }
  }

  // ---------- The loops ----------

  method PlaceLeaves(version: Version, blocks: seq<RawBlockPointer>, n: nat) returns (level: Result<seq<Auth>>)
    ensures level == LeafRow(version, blocks, n)
  {
    level := Ok(Holes(n));
    for i := 0 to |blocks|
      invariant level == LeafRow(version, blocks[..i], n) && level.Ok?
    {
      assert blocks[..i + 1][..i] == blocks[..i] && blocks[..i + 1][i] == blocks[i];
      level := PlaceLeaf(version, level.value, blocks[i]);
      if level.Err? {
        FailedLeaf(version, blocks, n, i + 1);
        return;
      }
    }
    assert blocks[..|blocks|] == blocks;
  }

  lemma {:induction false} FailedLeaf(version: Version, blocks: seq<RawBlockPointer>, n: nat, i: nat)
    requires i <= |blocks| && LeafRow(version, blocks[..i], n).Err?
    ensures LeafRow(version, blocks, n) == LeafRow(version, blocks[..i], n)
    decreases |blocks| - i
  {
    if i < |blocks| {
      assert blocks[..i + 1][..i] == blocks[..i];
      FailedLeaf(version, blocks, n, i + 1);
    } else {
      assert blocks[..i] == blocks;
    }
  }

  /** One parent: a hole, a digest, or None when the properties of this level are invalid. */
  method OneParent(version: Version, digest: Digest, children: seq<Auth>, epb: nat,
                   prop: Option<U64>) returns (parent: Option<Auth>)
    requires |children| <= epb
    ensures parent == if prop.None? && !AllHoles(children) then None
                      else Some(ParentOf(version, digest, children, epb, if prop.Some? then prop.value else 0))
  {
    if AllHoles(children) {
      return Some(HOLE);
    }
    if prop.None? {
      return None;
    }
    return Some(Auth(prop.value, digest(Preimage(version, children, epb))));
  }

  lemma AllHolesAppend(front: seq<Auth>, back: seq<Auth>)
    ensures AllHoles(front + back) <==> AllHoles(front) && AllHoles(back)
  {
    if AllHoles(front + back) {
      assert forall i :: 0 <= i < |front| ==> front[i] == (front + back)[i];
      assert forall i :: 0 <= i < |back| ==> back[i] == (front + back)[|front| + i];
    }
  }

  /** One level of parents, chunk by chunk. */
  method ParentsOf(version: Version, digest: Digest, level: seq<Auth>, epb: nat,
                   prop: Option<U64>) returns (parents: Result<seq<Auth>>)
    requires epb > 0
    ensures parents == if prop.None? && !AllHoles(level) then Err(BadProperty)
                       else Ok(Up(version, digest, level, epb, if prop.Some? then prop.value else 0))
  {
    hide Preimage;
    hide ParentOf;
    hide AllHoles;
    hide Up;
    var built, rest := [], level;
    ghost var p := if prop.Some? then prop.value else 0;
    ghost var done: seq<Auth> := [];
    assert AllHoles(done) by { NoneIsAllHoles(); }
    while rest != []
      invariant Up(version, digest, level, epb, p) == built + Up(version, digest, rest, epb, p)
      invariant level == done + rest && (prop.None? ==> AllHoles(done))
      decreases |rest|
    {
      var n := Min(epb, |rest|);
      GroupOfHoles(done, rest, n);
      UpStep(version, digest, built, rest, epb, p);
      var parent := OneParent(version, digest, rest[..n], epb, prop);
      if parent.None? {
        return Err(BadProperty);
      }
      built, done, rest := built + [parent.value], done + rest[..n], rest[n..];
    }
    UpNothing(version, digest, epb, p);
    assert level == done && built + [] == built;
    return Ok(built);
  }

  lemma GroupOfHoles(done: seq<Auth>, rest: seq<Auth>, n: nat)
    requires n <= |rest|
    ensures done + rest == done + rest[..n] + rest[n..]
    ensures AllHoles(done + rest) ==> AllHoles(rest[..n])
    ensures AllHoles(done) && AllHoles(rest[..n]) ==> AllHoles(done + rest[..n])
  {
    hide AllHoles;
    assert rest == rest[..n] + rest[n..];
    AllHolesAppend(done, rest);
    AllHolesAppend(rest[..n], rest[n..]);
    AllHolesAppend(done, rest[..n]);
  }

  lemma UpStep(version: Version, digest: Digest, built: seq<Auth>, rest: seq<Auth>, epb: nat, prop: U64)
    requires epb > 0 && rest != []
    ensures var n := Min(epb, |rest|);
            built + Up(version, digest, rest, epb, prop)
            == built + [ParentOf(version, digest, rest[..n], epb, prop)] + Up(version, digest, rest[n..], epb, prop)
  {
    hide ParentOf;
    var n := Min(epb, |rest|);
    assert Up(version, digest, rest, epb, prop) == [ParentOf(version, digest, rest[..n], epb, prop)] + Up(version,
        digest, rest[n..], epb, prop);
  }

  lemma UpNothing(version: Version, digest: Digest, epb: nat, prop: U64)
    requires epb > 0
    ensures Up(version, digest, [], epb, prop) == []
  {
  }

  lemma NoneIsAllHoles()
    ensures AllHoles([])
  {
  }

  method ComputeRootPointers(version: Version, digest: Digest, dnode: ObjectRecord,
                             blocks: seq<RawBlockPointer>) returns (roots: Result<seq<Auth>>)
    ensures roots == RootPointers(version, digest, dnode, blocks)
  {
    hide Up;
    hide IndirectProp;
    hide AllHoles;
    if dnode.indirectBlockShift < 9 || dnode.indirectBlockShift > 24 {
      return Err(BadShift);
    }
    var leafCount := dnode.maxBlockId + 1;
    if leafCount > MAX_LEAVES {
      return Err(TooManyLeaves);
    }
    Shl1Monotone(0, dnode.indirectBlockShift - 7);
    var epb := EntriesPerBlock(dnode);
    var placed := PlaceLeaves(version, blocks, leafCount);
    if placed.Err? {
      return placed;
    }
    var level := placed.value;
    var treeLevel: nat := 1;
    while treeLevel < dnode.levels
      invariant Climb(version, digest, dnode, level, epb, treeLevel, dnode.levels)
             == Climb(version, digest, dnode, placed.value, epb, 1, dnode.levels)
      decreases dnode.levels - treeLevel
    {
      var parents := ParentsOf(version, digest, level, epb, IndirectProp(dnode, treeLevel));
      if parents.Err? {
        return parents;
      }
      level, treeLevel := parents.value, treeLevel + 1;
    }
    if |level| > dnode.blockPointers {
      return Err(TooManyRoots);
    }
    return Ok(level + Holes(dnode.blockPointers - |level|));
  }
}
