/** The leaf block pointers a raw send accumulates per object (src/filesystem.rs, `build_raw_full` and
    `free_raw_blocks`; src/operations.rs, `free_raw_apply_blocks`). */
module RawLeaves {
  import opened Bytes
  import opened Records
  import opened Replay

  datatype RawBlockPointer = RawBlockPointer(
    blockId: U64, objectType: U32, logicalSize: U64, physicalSize: U64, compression: Byte, flags: Byte, mac: Mac)

  datatype RawDnode = RawDnode(record: ObjectRecord, bonus: seq<Byte>, blocks: seq<RawBlockPointer>, spill: Option<RawBlockPointer>)

  type Dnodes = map<U64, RawDnode>

  const SPILL_BLOCK: U64 := U64_MAX

  const DMU_OT_SA: U32 := 44

  // ---------- Operations on one leaf list ----------

  function Upserted(blocks: seq<RawBlockPointer>, pointer: RawBlockPointer): seq<RawBlockPointer> {
    if blocks == [] then [pointer]
    else if blocks[0].blockId == pointer.blockId then [pointer] + blocks[1..]
    else [blocks[0]] + Upserted(blocks[1..], pointer)
  }

  /** The two tests `retain` is called with. */
  datatype Test = UpTo(maxBlockId: U64) | Survives(offset: U64, end: U64)
  {
    predicate Keeps(block: RawBlockPointer) {
      match this
      case UpTo(maxBlockId) => block.blockId <= maxBlockId
      case Survives(offset, end) => SurvivesFree(block, offset, end)
    }
  }

  function Retained(blocks: seq<RawBlockPointer>, test: Test): seq<RawBlockPointer>
    decreases |blocks|
  {
    if blocks == [] then []
    else
      var n := |blocks| - 1;
      Retained(blocks[..n], test) + if test.Keeps(blocks[n]) then [blocks[n]] else []
  }

  /** The test `free_raw_blocks` keeps a block by; end is the exclusive end of the freed range. */
  predicate SurvivesFree(block: RawBlockPointer, offset: U64, end: U64) {
    var start := block.blockId * block.logicalSize;
    if start > U64_MAX then false
    else SaturatingAdd(start, block.logicalSize) <= offset || start >= end
  }

  function FreeEnd(offset: U64, length: U64): Option<U64> {
    if length == U64_MAX then Some(U64_MAX) else if offset + length > U64_MAX then None else Some(offset + length)
  }

  function Freed(blocks: seq<RawBlockPointer>, offset: U64, end: U64): seq<RawBlockPointer> {
    Retained(blocks, Survives(offset, end))
  }

  predicate LayoutCompatible(old_: ObjectRecord, object_: ObjectRecord) {
    && old_.objectType == object_.objectType && old_.blockSize == object_.blockSize
    && old_.dnodeSlots == object_.dnodeSlots && old_.indirectBlockShift == object_.indirectBlockShift
    && old_.levels == object_.levels && old_.blockPointers == object_.blockPointers
  }

  // ---------- One record ----------

  datatype Index = Index(active: bool, range: Option<ObjectRangeRecord>, dnodes: Dnodes)

  function IndexObject(st: Index, dnode: ObjectRecord, payload: seq<Byte>): Option<Index> {
    if st.range.None? then None
    else
      var first := st.range.value.firstObject;
      if !(first <= dnode.objectId < SaturatingAdd(first, st.range.value.objectSlots)) then None
      else
        var compatible := dnode.objectId in st.dnodes && LayoutCompatible(st.dnodes[dnode.objectId].record, dnode);
        var blocks := if compatible then st.dnodes[dnode.objectId].blocks else [];
        var spill := if compatible && (dnode.flags / 4) % 2 == 1 then st.dnodes[dnode.objectId].spill else None;
        var entry := RawDnode(dnode, payload, Retained(blocks, UpTo(dnode.maxBlockId)), spill);
        Some(st.(dnodes := st.dnodes[dnode.objectId := entry]))
  }

  function IndexWrite(st: Index, write: WriteRecord): Option<Index> {
    if write.objectId !in st.dnodes || write.logicalSize == 0 || write.offset % write.logicalSize != 0 then None
    else
      var pointer := PointerOf(write);
      var entry := st.dnodes[write.objectId];
      Some(st.(dnodes := st.dnodes[write.objectId := entry.(blocks := Upserted(entry.blocks, pointer))]))
  }

  function PointerOf(write: WriteRecord): RawBlockPointer
    requires write.logicalSize > 0
  {
    RawBlockPointer(write.offset / write.logicalSize, write.objectType, write.logicalSize, write.compressedSize,
                    write.compression, write.flags, write.crypt.mac)
  }

  /** One record of a selected substream. */
  function IndexBody(st: Index, r: Record): Option<Index> {
    match r.kind
    case ObjectRange(range) => Some(st.(range := Some(range)))
    case Object(dnode) => IndexObject(st, dnode, r.payload)
    case Write(write) => IndexWrite(st, write)
    case Free(objectId, offset, length) =>
      if objectId !in st.dnodes then Some(st)
      else
        var end := FreeEnd(offset, length);
        if end.None? then None
        else
          var entry := st.dnodes[objectId];
          Some(st.(dnodes := st.dnodes[objectId := entry.(blocks := Freed(entry.blocks, offset, end.value))]))
    case FreeObjects(first, count) =>
      Some(st.(dnodes := map id | id in st.dnodes && !Covers(first, count, id) :: st.dnodes[id]))
    case Spill(spill) =>
      if spill.objectId !in st.dnodes then None
      else
        var pointer := RawBlockPointer(SPILL_BLOCK, DMU_OT_SA, spill.logicalSize, spill.compressedSize, spill.compression,
                                       spill.flags, spill.crypt.mac);
        Some(st.(dnodes := st.dnodes[spill.objectId := st.dnodes[spill.objectId].(spill := Some(pointer))]))
    case WriteEmbedded(_) => None
    case WriteByRef => None
    case Redact => None
    case _ => Some(st)
  }

  /** Any record: a selected BEGIN opens the index, and the END of a selected substream takes the current range. */
  function IndexStep(plan: Plan, st: Index, r: Record): Option<Index> {
    match r.kind
    case Begin(begin) => Some(st.(active := plan.Selects(begin)))
    case End => Some(if st.active then st.(active := false, range := None) else st)
    case _ => if st.active then IndexBody(st, r) else Some(st)
  }

  function IndexRun(plan: Plan, records: seq<Record>): Option<Index>
    decreases |records|
  {
    if records == [] then Some(Index(false, None, map[]))
    else
      var before := IndexRun(plan, records[..|records| - 1]);
      if before.None? then None else IndexStep(plan, before.value, records[|records| - 1])
  }

  // ---------- The leaf list as a finite map ----------

  predicate Distinct(blocks: seq<RawBlockPointer>) {
    forall i, j :: 0 <= i < j < |blocks| ==> blocks[i].blockId != blocks[j].blockId
  }

  type LeafMap = map<U64, RawBlockPointer>

  function Filter(leaves: LeafMap, test: Test): LeafMap {
    map id | id in leaves && test.Keeps(leaves[id]) :: leaves[id]
  }

  /** A leaf list represents a map when its block ids are distinct and its entries are the map's. */
  ghost predicate Represents(blocks: seq<RawBlockPointer>, leaves: map<U64, RawBlockPointer>) {
    && Distinct(blocks)
    && (forall i :: 0 <= i < |blocks| ==> blocks[i].blockId in leaves && leaves[blocks[i].blockId] == blocks[i])
    && (forall id :: id in leaves ==> exists i :: 0 <= i < |blocks| && blocks[i].blockId == id)
  }

  /** Replacing in place, or appending, is a map update. */
  lemma {:induction false} UpsertIsUpdate(blocks: seq<RawBlockPointer>, leaves: map<U64, RawBlockPointer>, pointer: RawBlockPointer)
    requires Represents(blocks, leaves)
    ensures Represents(Upserted(blocks, pointer), leaves[pointer.blockId := pointer])
  {
    if blocks == [] {
      assert leaves == map[];
      assert Upserted(blocks, pointer)[0].blockId == pointer.blockId;
    } else if blocks[0].blockId == pointer.blockId {
      HeadReplaced(blocks, leaves, pointer);
    } else {
      var rest: map<U64, RawBlockPointer> := leaves - {blocks[0].blockId};
      TailRepresents(blocks, leaves);
      UpsertIsUpdate(blocks[1..], rest, pointer);
      ConsRepresents(blocks[0], Upserted(blocks[1..], pointer), rest[pointer.blockId := pointer]);
      assert leaves[pointer.blockId := pointer] == rest[pointer.blockId := pointer][blocks[0].blockId := blocks[0]];
    }
  }

  lemma HeadReplaced(blocks: seq<RawBlockPointer>, leaves: map<U64, RawBlockPointer>, pointer: RawBlockPointer)
    requires Represents(blocks, leaves) && blocks != [] && blocks[0].blockId == pointer.blockId
    ensures Represents([pointer] + blocks[1..], leaves[pointer.blockId := pointer])
  {
    TailRepresents(blocks, leaves);
    var rest: map<U64, RawBlockPointer> := leaves - {blocks[0].blockId};
    ConsRepresents(pointer, blocks[1..], rest);
    assert leaves[pointer.blockId := pointer] == rest[pointer.blockId := pointer];
  }

  lemma TailRepresents(blocks: seq<RawBlockPointer>, leaves: map<U64, RawBlockPointer>)
    requires Represents(blocks, leaves) && blocks != []
    ensures Represents(blocks[1..], leaves - {blocks[0].blockId})
  {
    var tail, rest: map<U64, RawBlockPointer> := blocks[1..], leaves - {blocks[0].blockId};
    forall i | 0 <= i < |tail|
      ensures tail[i].blockId in rest && rest[tail[i].blockId] == tail[i]
    {
      assert tail[i] == blocks[i + 1] && blocks[0].blockId != blocks[i + 1].blockId;
    }
    forall id | id in rest
      ensures exists i :: 0 <= i < |tail| && tail[i].blockId == id
    {
      var i :| 0 <= i < |blocks| && blocks[i].blockId == id;
      assert tail[i - 1] == blocks[i];
    }
  }

  lemma ConsRepresents(head: RawBlockPointer, tail: seq<RawBlockPointer>, rest: map<U64, RawBlockPointer>)
    requires Represents(tail, rest) && head.blockId !in rest
    ensures Represents([head] + tail, rest[head.blockId := head])
  {
    var blocks, all := [head] + tail, rest[head.blockId := head];
    forall i | 0 <= i < |blocks|
      ensures blocks[i].blockId in all && all[blocks[i].blockId] == blocks[i]
    {
      assert i > 0 ==> blocks[i] == tail[i - 1];
    }
    forall id | id in all
      ensures exists i :: 0 <= i < |blocks| && blocks[i].blockId == id
    {
      if id == head.blockId {
        assert blocks[0].blockId == id;
      } else {
        var i :| 0 <= i < |tail| && tail[i].blockId == id;
        assert blocks[i + 1] == tail[i];
      }
    }
  }

  /** Retaining by a test keeps exactly the entries that pass it. */
  lemma {:induction false} RetainIsFilter(blocks: seq<RawBlockPointer>, leaves: map<U64, RawBlockPointer>, test: Test)
    requires Represents(blocks, leaves)
    ensures Represents(Retained(blocks, test), Filter(leaves, test))
    decreases |blocks|
  {
    RetainMembers(blocks, test);
    var kept, filtered := Retained(blocks, test), Filter(leaves, test);
    forall i | 0 <= i < |kept|
      ensures kept[i].blockId in filtered && filtered[kept[i].blockId] == kept[i]
    {
      assert kept[i] in kept;
    }
    forall id | id in filtered
      ensures exists i :: 0 <= i < |kept| && kept[i].blockId == id
    {
      var j :| 0 <= j < |blocks| && blocks[j].blockId == id;
      assert blocks[j] in blocks && blocks[j] in kept;
    }
  }

  lemma {:induction false} RetainMembers(blocks: seq<RawBlockPointer>, test: Test)
    requires Distinct(blocks)
    ensures forall b :: b in Retained(blocks, test) <==> b in blocks && test.Keeps(b)
    ensures Distinct(Retained(blocks, test))
    decreases |blocks|
  {
    hide *;
    if blocks == [] {
      RetainNone(test);
    } else {
      var n := |blocks| - 1;
      FrontDistinct(blocks, n);
      RetainMembers(blocks[..n], test);
      RetainStep(blocks, n, test);
      RetainLast(Retained(blocks[..n], test), blocks, n, test);
    }
  }

  lemma RetainNone(test: Test)
    ensures Retained([], test) == [] && Distinct([])
  {
  }

  lemma RetainStep(blocks: seq<RawBlockPointer>, n: nat, test: Test)
    requires |blocks| == n + 1
    ensures Retained(blocks, test) == Retained(blocks[..n], test) + if test.Keeps(blocks[n]) then [blocks[n]] else []
  {
  }

  lemma FrontDistinct(blocks: seq<RawBlockPointer>, n: nat)
    requires |blocks| == n + 1 && Distinct(blocks)
    ensures Distinct(blocks[..n]) && (forall b :: b in blocks[..n] ==> b.blockId != blocks[n].blockId)
  {
  }

  lemma RetainLast(kept: seq<RawBlockPointer>, blocks: seq<RawBlockPointer>, n: nat, test: Test)
    requires |blocks| == n + 1 && Distinct(kept)
    requires forall b :: b in kept <==> b in blocks[..n] && test.Keeps(b)
    requires forall b :: b in blocks[..n] ==> b.blockId != blocks[n].blockId
    ensures var all := kept + if test.Keeps(blocks[n]) then [blocks[n]] else [];
            Distinct(all) && forall b :: b in all <==> b in blocks && test.Keeps(b)
  {
    assert blocks == blocks[..n] + [blocks[n]];
    assert forall i :: 0 <= i < |kept| ==> kept[i] in kept;
  }

  // ---------- Whole runs ----------

  /** The same bookkeeping on maps: per object its latest OBJECT record and its leaves by block id. */
  datatype Spec = Spec(active: bool, layouts: map<U64, ObjectRecord>, leaves: map<U64, LeafMap>)

  function Put(leaves: LeafMap, pointer: RawBlockPointer): LeafMap { leaves[pointer.blockId := pointer] }

  function SpecBody(spec: Spec, r: Record): Spec {
    match r.kind
    case Object(dnode) =>
      var id := dnode.objectId;
      var carried: LeafMap :=
        if id in spec.layouts && id in spec.leaves && LayoutCompatible(spec.layouts[id], dnode) then spec.leaves[id] else map[];
      Spec(spec.active, spec.layouts[id := dnode],
           spec.leaves[id := Filter(carried, UpTo(dnode.maxBlockId))])
    case Write(write) =>
      if write.logicalSize == 0 || write.objectId !in spec.leaves then spec
      else
        var pointer := PointerOf(write);
        var updated: LeafMap := Put(spec.leaves[write.objectId], pointer);
        spec.(leaves := spec.leaves[write.objectId := updated])
    case Free(id, offset, length) =>
      if id !in spec.leaves || FreeEnd(offset, length).None? then spec
      else
        var end, leaves := FreeEnd(offset, length).value, spec.leaves[id];
        spec.(leaves := spec.leaves[id := Filter(leaves, Survives(offset, end))])
    case FreeObjects(first, count) =>
      Spec(spec.active,
           map id | id in spec.layouts && !Covers(first, count, id) :: spec.layouts[id],
           map id | id in spec.leaves && !Covers(first, count, id) :: spec.leaves[id])
    case _ => spec
  }

  function SpecStep(plan: Plan, spec: Spec, r: Record): Spec {
    match r.kind
    case Begin(begin) => spec.(active := plan.Selects(begin))
    case End => spec.(active := false)
    case _ => if spec.active then SpecBody(spec, r) else spec
  }

  function SpecRun(plan: Plan, records: seq<Record>): Spec
    decreases |records|
  {
    if records == [] then Spec(false, map[], map[])
    else SpecStep(plan, SpecRun(plan, records[..|records| - 1]), records[|records| - 1])
  }

  ghost predicate Refines(st: Index, spec: Spec) {
    && spec.active == st.active && spec.layouts.Keys == spec.leaves.Keys == st.dnodes.Keys
    && (forall id :: id in st.dnodes ==>
          spec.layouts[id] == st.dnodes[id].record && Represents(st.dnodes[id].blocks, spec.leaves[id]))
  }

  lemma ObjectRefines(st: Index, spec: Spec, dnode: ObjectRecord, payload: seq<Byte>, offset: nat)
    requires Refines(st, spec) && IndexObject(st, dnode, payload).Some?
    ensures Refines(IndexObject(st, dnode, payload).value, SpecBody(spec, Record(offset, Object(dnode), payload)))
  {
    hide Represents;
    hide Retained;
    var compatible := dnode.objectId in st.dnodes && LayoutCompatible(st.dnodes[dnode.objectId].record, dnode);
    if compatible {
      RetainIsFilter(st.dnodes[dnode.objectId].blocks, spec.leaves[dnode.objectId], UpTo(dnode.maxBlockId));
    } else {
      NothingRepresentsNothing();
      RetainIsFilter([], map[], UpTo(dnode.maxBlockId));
    }
    ObjectEntry(st, dnode, payload);
  }

  lemma ObjectEntry(st: Index, dnode: ObjectRecord, payload: seq<Byte>)
    requires IndexObject(st, dnode, payload).Some?
    ensures var compatible := dnode.objectId in st.dnodes && LayoutCompatible(st.dnodes[dnode.objectId].record, dnode);
            var blocks := if compatible then st.dnodes[dnode.objectId].blocks else [];
            var after := IndexObject(st, dnode, payload).value.dnodes;
            && after.Keys == st.dnodes.Keys + {dnode.objectId}
            && (forall id :: id in st.dnodes && id != dnode.objectId ==> after[id] == st.dnodes[id])
            && after[dnode.objectId].record == dnode
            && after[dnode.objectId].blocks == Retained(blocks, UpTo(dnode.maxBlockId))
  {
  }

  lemma NothingRepresentsNothing()
    ensures Represents([], map[])
  {
  }

  lemma WriteRefines(st: Index, spec: Spec, r: Record)
    requires r.kind.Write? && Refines(st, spec) && IndexBody(st, r).Some?
    ensures Refines(IndexBody(st, r).value, SpecBody(spec, r))
  {
    hide Represents;
    hide Retained;
    hide Upserted;
    var write := r.kind.write;
    if write.logicalSize != 0 && write.objectId in st.dnodes {
      UpsertIsUpdate(st.dnodes[write.objectId].blocks, spec.leaves[write.objectId], PointerOf(write));
    }
  }

  lemma FreeRefines(st: Index, spec: Spec, r: Record)
    requires r.kind.Free? && Refines(st, spec) && IndexBody(st, r).Some?
    ensures Refines(IndexBody(st, r).value, SpecBody(spec, r))
  {
    hide Represents;
    hide Retained;
    hide IndexObject;
    hide IndexWrite;
    if r.kind.objectId in st.dnodes {
      var end := FreeEnd(r.kind.offset, r.kind.length).value;
      RetainIsFilter(st.dnodes[r.kind.objectId].blocks, spec.leaves[r.kind.objectId], Survives(r.kind.offset, end));
    }
  }

  /** The record kinds that touch no leaf list: they move the range, set a spill, or drop whole objects. */
  lemma OtherRefines(st: Index, spec: Spec, r: Record)
    requires !r.kind.Object? && !r.kind.Write? && !r.kind.Free? && Refines(st, spec) && IndexBody(st, r).Some?
    ensures Refines(IndexBody(st, r).value, SpecBody(spec, r))
  {
    hide Represents;
    hide Retained;
    hide IndexObject;
    hide IndexWrite;
  }

  lemma BodyRefines(st: Index, spec: Spec, r: Record)
    requires Refines(st, spec) && IndexBody(st, r).Some?
    ensures Refines(IndexBody(st, r).value, SpecBody(spec, r))
  {
    hide Refines;
    match r.kind
    case Object(dnode) => ObjectRefines(st, spec, dnode, r.payload, r.streamOffset);
    case Write(_) => WriteRefines(st, spec, r);
    case Free(_, _, _) => FreeRefines(st, spec, r);
    case _ => OtherRefines(st, spec, r);
  }

  lemma StepRefines(plan: Plan, st: Index, spec: Spec, r: Record)
    requires Refines(st, spec) && IndexStep(plan, st, r).Some?
    ensures Refines(IndexStep(plan, st, r).value, SpecStep(plan, spec, r))
  {
    hide Represents;
    hide IndexBody;
    hide SpecBody;
    if !r.kind.Begin? && !r.kind.End? && st.active {
      BodyRefines(st, spec, r);
    }
  }

  /** Over any accepted run, every object's leaf list is a finite map from block id to pointer, and that map is
      the one the records describe. */
  lemma {:induction false} RunIsFiniteMap(plan: Plan, records: seq<Record>)
    requires IndexRun(plan, records).Some?
    ensures Refines(IndexRun(plan, records).value, SpecRun(plan, records))
    decreases |records|
  {
    if records != [] {
      RunIsFiniteMap(plan, records[..|records| - 1]);
      StepRefines(plan, IndexRun(plan, records[..|records| - 1]).value, SpecRun(plan, records[..|records| - 1]), records[|records| - 1]);
    }
  }

  lemma LeavesStayDistinct(plan: Plan, records: seq<Record>, id: U64)
    requires IndexRun(plan, records).Some? && id in IndexRun(plan, records).value.dnodes
    ensures Distinct(IndexRun(plan, records).value.dnodes[id].blocks)
  {
    RunIsFiniteMap(plan, records);
  }

  // ---------- What FREE keeps ----------

  predicate Inside(i: nat, start: nat, end: nat) { start <= i < end }

  /** No byte lies in both ranges. */
  ghost predicate Disjoint(start: nat, finish: nat, offset: nat, end: nat) {
    forall i: nat :: Inside(i, start, finish) ==> !Inside(i, offset, end)
  }

  /** A leaf survives exactly when its offset fits 64 bits and its bytes, up to the last offset of 64 bits, miss the
      freed range, except that an empty FREE also drops a leaf it falls strictly inside. */
  lemma SurvivesFreeIff(block: RawBlockPointer, offset: U64, length: U64)
    requires FreeEnd(offset, length).Some?
    ensures var start, end := block.blockId * block.logicalSize, FreeEnd(offset, length).value;
            SurvivesFree(block, offset, end)
            <==> start <= U64_MAX
                 && var finish := SaturatingAdd(start, block.logicalSize);
                    Disjoint(start, finish, offset, end) && !(length == 0 && start < offset < finish)
  {
    var start, end := block.blockId * block.logicalSize, FreeEnd(offset, length).value;
    if start <= U64_MAX {
      var finish := SaturatingAdd(start, block.logicalSize);
      if offset < end && start < end && offset < finish && start < finish {
        assert Inside(Max(start, offset), start, finish) && Inside(Max(start, offset), offset, end);
      }
    }
    if block.logicalSize == 0 {
      assert start == 0;
    }
  }

  /** An empty FREE in the middle of block 0 drops it although no byte is freed. */
  lemma EmptyFreeDropsALeaf(block: RawBlockPointer)
    requires block.blockId == 0 && block.logicalSize == 1024
    ensures FreeEnd(512, 0) == Some(512) && Freed([block], 512, 512) == []
  {
    assert [block][..0] == [] && !Survives(512, 512).Keeps(block);
    assert Retained([block], Survives(512, 512)) == Retained([], Survives(512, 512)) + [];
  }

  // ---------- The loops ----------

  method Upsert(blocks: seq<RawBlockPointer>, pointer: RawBlockPointer) returns (updated: seq<RawBlockPointer>)
    ensures updated == Upserted(blocks, pointer)
  {
    hide Upserted;
    var i := 0;
    assert blocks[0..] == blocks;
    while i < |blocks| && blocks[i].blockId != pointer.blockId
      invariant i <= |blocks|
      invariant Upserted(blocks, pointer) == blocks[..i] + Upserted(blocks[i..], pointer)
    {
      UpsertedPasses(blocks, pointer, i);
      i := i + 1;
    }
    if i < |blocks| {
      UpsertedHere(blocks, pointer, i);
      updated := blocks[i := pointer];
    } else {
      UpsertedLast(pointer);
      assert blocks[i..] == [] && blocks[..i] == blocks;
      updated := blocks + [pointer];
    }
  }

  lemma UpsertedHere(blocks: seq<RawBlockPointer>, pointer: RawBlockPointer, i: nat)
    requires i < |blocks| && blocks[i].blockId == pointer.blockId
    ensures blocks[..i] + Upserted(blocks[i..], pointer) == blocks[i := pointer]
  {
    Behind(blocks, i);
    Spliced(blocks, i, pointer);
  }

  lemma Behind<T>(s: seq<T>, i: nat)
    requires i < |s|
    ensures s[i..][0] == s[i] && s[i..][1..] == s[i + 1..]
  {
  }

  lemma Spliced<T>(s: seq<T>, i: nat, x: T)
    requires i < |s|
    ensures s[..i] + ([x] + s[i + 1..]) == s[i := x]
  {
  }

  lemma UpsertedLast(pointer: RawBlockPointer)
    ensures Upserted([], pointer) == [pointer]
  {
  }

  lemma UpsertedPasses(blocks: seq<RawBlockPointer>, pointer: RawBlockPointer, i: nat)
    requires i < |blocks| && blocks[i].blockId != pointer.blockId
    ensures blocks[..i] + Upserted(blocks[i..], pointer) == blocks[..i + 1] + Upserted(blocks[i + 1..], pointer)
  {
    UpsertedHead(blocks, pointer, i);
    hide Upserted;
    assert blocks[..i + 1] == blocks[..i] + [blocks[i]];
    Regroup(blocks[..i], blocks[i], Upserted(blocks[i + 1..], pointer));
  }

  lemma UpsertedHead(blocks: seq<RawBlockPointer>, pointer: RawBlockPointer, i: nat)
    requires i < |blocks| && blocks[i].blockId != pointer.blockId
    ensures Upserted(blocks[i..], pointer) == [blocks[i]] + Upserted(blocks[i + 1..], pointer)
  {
    Behind(blocks, i);
  }

  lemma Regroup<T>(front: seq<T>, middle: T, back: seq<T>)
    ensures front + ([middle] + back) == front + [middle] + back
  {
  }

  method Retain(blocks: seq<RawBlockPointer>, test: Test) returns (kept: seq<RawBlockPointer>)
    ensures kept == Retained(blocks, test)
  {
    kept := [];
    for i := 0 to |blocks|
      invariant kept == Retained(blocks[..i], test)
    {
      assert blocks[..i + 1][..i] == blocks[..i];
      if test.Keeps(blocks[i]) {
        kept := kept + [blocks[i]];
      }
    }
    assert blocks[..|blocks|] == blocks;
  }

  class RawIndex {
    const plan: Plan
    var active: bool
    var range: Option<ObjectRangeRecord>
    var dnodes: Dnodes

    constructor (plan: Plan)
      ensures this.plan == plan && IndexRun(plan, []) == Some(Index(active, range, dnodes))
    {
      this.plan, active, range, dnodes := plan, false, None, map[];
    }

    method FreeBlocks(id: U64, offset: U64, length: U64) returns (ok: bool)
      requires id in dnodes
      modifies this`dnodes
      ensures ok <==> FreeEnd(offset, length).Some?
      ensures ok ==> dnodes == old(dnodes)[id := old(dnodes)[id].(blocks := Freed(old(dnodes)[id].blocks, offset, FreeEnd(offset, length).value))]
    {
      var end := FreeEnd(offset, length);
      if end.None? {
        return false;
      }
      var blocks := Retain(dnodes[id].blocks, Survives(offset, end.value));
      dnodes := dnodes[id := dnodes[id].(blocks := blocks)];
      return true;
    }

    method Add(record: Record) returns (ok: bool)
      modifies this
      ensures ok <==> IndexStep(plan, old(Index(active, range, dnodes)), record).Some?
      ensures ok ==> IndexStep(plan, old(Index(active, range, dnodes)), record) == Some(Index(active, range, dnodes))
    {
      hide Freed;
      hide Upserted;
      hide Retained;
      ok := true;
      match record.kind
      case Begin(begin) => active := plan.Selects(begin);
      case End =>
        if active {
          active, range := false, None;
        }
      case _ =>
        if active {
          ok := AddBody(record);
        }
    }

    method AddBody(record: Record) returns (ok: bool)
      requires !record.kind.Begin? && !record.kind.End?
      modifies this
      ensures active == old(active)
      ensures ok <==> IndexBody(old(Index(active, range, dnodes)), record).Some?
      ensures ok ==> IndexBody(old(Index(active, range, dnodes)), record) == Some(Index(active, range, dnodes))
    {
      ok := true;
      match record.kind
      case ObjectRange(r) => range := Some(r);
      case Object(dnode) =>
        if range.None? {
          return false;
        }
        var first := range.value.firstObject;
        if dnode.objectId < first || dnode.objectId >= SaturatingAdd(first, range.value.objectSlots) {
          return false;
        }
        var compatible := dnode.objectId in dnodes && LayoutCompatible(dnodes[dnode.objectId].record, dnode);
        var blocks := Retain(if compatible then dnodes[dnode.objectId].blocks else [], UpTo(dnode.maxBlockId));
        var spill := if compatible && (dnode.flags / 4) % 2 == 1 then dnodes[dnode.objectId].spill else None;
        dnodes := dnodes[dnode.objectId := RawDnode(dnode, record.payload, blocks, spill)];
      case Write(write) =>
        if write.objectId !in dnodes {
          return false;
        }
        if write.logicalSize == 0 || write.offset % write.logicalSize != 0 {
          return false;
        }
        var blocks := Upsert(dnodes[write.objectId].blocks, PointerOf(write));
        dnodes := dnodes[write.objectId := dnodes[write.objectId].(blocks := blocks)];
      case Free(id, offset, length) =>
        if id in dnodes {
          ok := FreeBlocks(id, offset, length);
        }
      case FreeObjects(first, count) =>
        dnodes := map id | id in dnodes && !Covers(first, count, id) :: dnodes[id];
      case Spill(spill) =>
        if spill.objectId !in dnodes {
          return false;
        }
        var pointer := RawBlockPointer(SPILL_BLOCK, DMU_OT_SA, spill.logicalSize, spill.compressedSize, spill.compression,
                                       spill.flags, spill.crypt.mac);
        dnodes := dnodes[spill.objectId := dnodes[spill.objectId].(spill := Some(pointer))];
      case WriteEmbedded(_) => ok := false;
      case WriteByRef => ok := false;
      case Redact => ok := false;
      case _ =>
    }
  }
}
