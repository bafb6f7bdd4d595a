/** The interval map of replay blocks behind a lazily read file (src/inception.rs, `SegmentMap`),
    specified as a map from each byte offset to the block and position that last wrote it. */
module Segments {
  import opened Bytes
  import opened Records

  datatype BlockEncoding =
    | Replay(compression: Byte)
    | Embedded(compression: Byte, embeddedType: Byte, physicalSize: nat)
    | Raw(keyIndex: nat, encrypted: bool, compression: Byte, crypt: Crypt)

  datatype BlockDescriptor = BlockDescriptor(
    id: nat, payloadOffset: nat, payloadLen: nat, payloadCrc: nat, logicalLen: nat, encoding: BlockEncoding)

  datatype Segment = Segment(end: nat, block: BlockDescriptor, blockOffset: nat)

  /** Where one byte of the file comes from. */
  datatype Place = Place(block: BlockDescriptor, position: nat)

  type Owners = map<nat, Place>

  type Entries = map<nat, Segment>

  // ---------- Specification: a last-writer map over byte offsets ----------

  function Without(owners: Owners, start: nat, end: nat): Owners {
    map i | i in owners && !(start <= i < end) :: owners[i]
  }

  function With(owners: Owners, start: nat, length: nat, block: BlockDescriptor): Owners {
    Without(owners, start, start + length) + Fresh(start, length, block)
  }

  predicate InSpan(i: nat, start: nat, length: nat) { start <= i < start + length }

  /** The bytes one block owns when it is written whole at start. */
  function Fresh(start: nat, length: nat, block: BlockDescriptor): Owners {
    map i: nat | start <= i < start + length && InSpan(i, start, length) :: Place(block, i - start)
  }

  lemma EmptyRange(owners: Owners, start: nat, block: BlockDescriptor)
    ensures Without(owners, start, start) == owners && With(owners, start, 0, block) == owners
  {
  }

  /** The exclusive end of a freed range; length u64::MAX reaches to the end of the address space. */
  function RangeEnd(start: U64, length: U64): nat { if length == U64_MAX then U64_MAX else start + length }

  predicate RangeFits(start: U64, length: U64) { length == U64_MAX || start + length <= U64_MAX }

  // ---------- Representation ----------

  predicate Holds(entries: Entries, k: nat, i: nat) { k in entries && k <= i < entries[k].end }

  function PlaceIn(entries: Entries, k: nat, i: nat): Place
    requires Holds(entries, k, i)
  {
    Place(entries[k].block, entries[k].blockOffset + (i - k))
  }

  /** Segments are non-empty, disjoint, and stay inside their block. */
  ghost predicate WellFormed(entries: Entries) {
    && (forall k :: k in entries ==>
          && k < entries[k].end <= U64_MAX
          && entries[k].blockOffset + (entries[k].end - k) <= entries[k].block.logicalLen)
    && (forall j, k :: j in entries && k in entries && j < k ==> entries[j].end <= k)
  }

  ghost predicate Represents(entries: Entries, owners: Owners) {
    && (forall k: nat, i: nat :: Holds(entries, k, i) ==>
          i in owners && owners[i] == PlaceIn(entries, k, i))
    && (forall i :: i in owners ==> exists k :: Holds(entries, k, i))
  }

  /** The entries left after cutting [start, end) out: untouched segments, left parts, one right part. */
  ghost predicate CutOf(cut: Entries, entries: Entries, start: nat, end: nat) {
    && (forall k :: k in entries && (entries[k].end <= start || end <= k) ==> k in cut && cut[k] == entries[k])
    && (forall k :: k in entries && k < start < entries[k].end ==> k in cut && cut[k] == entries[k].(end := start))
    && (forall k :: k in entries && k < end < entries[k].end ==> end in cut && cut[end] == RightPart(entries, k, end))
    && (forall k :: k in cut ==>
          || (k in entries && (entries[k].end <= start || end <= k))
          || (k in entries && k < start < entries[k].end)
          || (k == end && exists j :: j in entries && j < end < entries[j].end))
  }

  function RightPart(entries: Entries, k: nat, end: nat): Segment
    requires k in entries && k < end
  {
    Segment(entries[k].end, entries[k].block, entries[k].blockOffset + (end - k))
  }

  lemma CutBounds(cut: Entries, entries: Entries, start: nat, end: nat, k: nat)
    requires start < end && WellFormed(entries) && CutOf(cut, entries, start, end) && k in cut
    ensures k < cut[k].end <= U64_MAX
    ensures cut[k].blockOffset + (cut[k].end - k) <= cut[k].block.logicalLen
  {
  }

  lemma CutDisjoint(cut: Entries, entries: Entries, start: nat, end: nat, j: nat, k: nat)
    requires start < end && WellFormed(entries) && CutOf(cut, entries, start, end) && j in cut && k in cut && j < k
    ensures cut[j].end <= k
  {
  }

  lemma CutIsWellFormed(cut: Entries, entries: Entries, start: nat, end: nat)
    requires start < end && WellFormed(entries) && CutOf(cut, entries, start, end)
    ensures WellFormed(cut)
  {
    hide CutOf;
    forall k | k in cut
      ensures k < cut[k].end <= U64_MAX && cut[k].blockOffset + (cut[k].end - k) <= cut[k].block.logicalLen
    {
      CutBounds(cut, entries, start, end, k);
    }
    forall j, k | j in cut && k in cut && j < k
      ensures cut[j].end <= k
    {
      CutDisjoint(cut, entries, start, end, j, k);
    }
  }

  lemma CutPlace(cut: Entries, entries: Entries, start: nat, end: nat, k: nat, i: nat)
    requires start < end && CutOf(cut, entries, start, end) && Holds(cut, k, i)
    ensures !(start <= i < end)
    ensures exists j :: Holds(entries, j, i) && PlaceIn(entries, j, i) == PlaceIn(cut, k, i)
  {
    if k in entries && (entries[k].end <= start || end <= k || k < start < entries[k].end) {
      assert Holds(entries, k, i) && PlaceIn(entries, k, i) == PlaceIn(cut, k, i);
    } else {
      var j :| j in entries && j < end < entries[j].end;
      assert Holds(entries, j, i) && PlaceIn(entries, j, i) == PlaceIn(cut, k, i);
    }
  }

  lemma CutCover(cut: Entries, entries: Entries, start: nat, end: nat, k: nat, i: nat)
    requires start < end && CutOf(cut, entries, start, end) && Holds(entries, k, i) && !(start <= i < end)
    ensures exists j :: Holds(cut, j, i)
  {
    if entries[k].end <= start || end <= k || i < start {
      assert Holds(cut, k, i);
    } else {
      assert Holds(cut, end, i);
    }
  }

  lemma CutRemovesRange(cut: Entries, entries: Entries, owners: Owners, start: nat, end: nat)
    requires start < end && WellFormed(entries) && Represents(entries, owners) && CutOf(cut, entries, start, end)
    ensures Represents(cut, Without(owners, start, end))
  {
    forall k: nat, i: nat | Holds(cut, k, i)
      ensures i in Without(owners, start, end) && owners[i] == PlaceIn(cut, k, i)
    {
      CutPlace(cut, entries, start, end, k, i);
    }
    forall i | i in Without(owners, start, end)
      ensures exists k :: Holds(cut, k, i)
    {
      var k :| Holds(entries, k, i);
      CutCover(cut, entries, start, end, k, i);
    }
  }

  method Greatest(keys: set<nat>) returns (greatest: nat)
    requires keys != {}
    ensures greatest in keys && forall k :: k in keys ==> k <= greatest
  {
    greatest :| greatest in keys;
    var rest := keys - {greatest};
    while rest != {}
      invariant rest <= keys && greatest in keys
      invariant forall k :: k in keys ==> k in rest || k <= greatest
      decreases rest
    {
      var k :| k in rest;
      greatest, rest := Max(k, greatest), rest - {k};
    }
  }

  method Least(keys: set<nat>) returns (least: nat)
    requires keys != {}
    ensures least in keys && forall k :: k in keys ==> least <= k
  {
    least :| least in keys;
    var rest := keys - {least};
    while rest != {}
      invariant rest <= keys && least in keys
      invariant forall k :: k in keys ==> k in rest || least <= k
      decreases rest
    {
      var k :| k in rest;
      least, rest := Min(k, least), rest - {k};
    }
  }

  /** The segments a cut of [start, end) touches. */
  ghost predicate Hit(entries: Entries, keys: set<nat>, start: nat, end: nat) {
    forall k :: k in keys <==> k in entries && k < end && start < entries[k].end
  }

  /** The parts of the touched segments that survive. */
  ghost predicate Parts(parts: Entries, entries: Entries, keys: set<nat>, start: nat, end: nat)
    requires forall k :: k in keys ==> k in entries && k < end
  {
    && (forall k :: k in keys && k < start ==> k in parts && parts[k] == entries[k].(end := start))
    && (forall k :: k in keys && end < entries[k].end ==> end in parts && parts[end] == RightPart(entries, k, end))
    && (forall k :: k in parts ==>
          || (k in keys && k < start)
          || (k == end && exists j :: j in keys && end < entries[j].end))
  }

  lemma PartsMakeCut(entries: Entries, keys: set<nat>, parts: Entries, start: nat, end: nat)
    requires start < end && WellFormed(entries) && Hit(entries, keys, start, end)
    requires Parts(parts, entries, keys, start, end)
    ensures CutOf(entries - keys + parts, entries, start, end)
  {
  }

  /** Take the touched segments out one by one, keeping the pieces outside [start, end). */
  method CutSegments(entries: Entries, touched: set<nat>, start: nat, end: nat) returns (rest: Entries, preserved: Entries)
    requires start < end && WellFormed(entries) && Hit(entries, touched, start, end)
    ensures rest == entries - touched && Parts(preserved, entries, touched, start, end)
  {
    hide Parts;
    hide WellFormed;
    var keys := touched;
    rest, preserved := entries, map[];
    NoParts(entries, start, end);
    assert touched - keys == {};
    while keys != {}
      invariant keys <= touched && rest == entries - (touched - keys)
      invariant Parts(preserved, entries, touched - keys, start, end)
      decreases keys
    {
      var key :| key in keys;
      ghost var before, done: set<nat> := preserved, touched - keys;
      var segment := rest[key];
      rest := rest - {key};
      if key < start {
        preserved := preserved[key := Segment(start, segment.block, segment.blockOffset)];
      }
      if segment.end > end {
        preserved := preserved[end := Segment(segment.end, segment.block, segment.blockOffset + (end - key))];
      }
      keys := keys - {key};
      assert touched - keys == done + {key};
      PartsGrow(before, entries, done, key, start, end);
    }
    assert touched - keys == touched;
  }

  lemma NoParts(entries: Entries, start: nat, end: nat)
    ensures Parts(map[], entries, {}, start, end)
  {
  }

  lemma PartsGrow(parts: Entries, entries: Entries, keys: set<nat>, key: nat, start: nat, end: nat)
    requires start < end && WellFormed(entries)
    requires forall k :: k in keys + {key} ==> k in entries && k < end && start < entries[k].end
    requires key !in keys && Parts(parts, entries, keys, start, end)
    ensures var left := if key < start then parts[key := entries[key].(end := start)] else parts;
            var both := if end < entries[key].end then left[end := RightPart(entries, key, end)] else left;
            Parts(both, entries, keys + {key}, start, end)
  {
    if end < entries[key].end {
      assert forall k :: k in keys ==> entries[k].end <= end;
    }
  }

  /** The keys inside [start, end), and the one before start whose segment reaches past it. */
  method TouchedKeys(entries: Entries, start: nat, end: nat) returns (keys: set<nat>)
    requires start < end && WellFormed(entries)
    ensures Hit(entries, keys, start, end)
  {
    keys := set k | k in entries && start <= k < end;
    var upTo: set<nat> := set k | k in entries && k <= start;
    if upTo != {} {
      var key := Greatest(upTo);
      if entries[key].end > start && key !in keys {
        keys := keys + {key};
      }
    }
    forall k | k in entries
      ensures k in keys <==> k < end && start < entries[k].end
    {
      assert k <= start ==> k in upTo;
    }
  }

  lemma CutCorrect(entries: Entries, owners: Owners, keys: set<nat>, parts: Entries, start: nat, end: nat)
    requires start < end && WellFormed(entries) && Represents(entries, owners) && Hit(entries, keys, start, end)
    requires Parts(parts, entries, keys, start, end)
    ensures WellFormed(entries - keys + parts)
    ensures Represents(entries - keys + parts, Without(owners, start, end))
  {
    PartsMakeCut(entries, keys, parts, start, end);
    CutIsWellFormed(entries - keys + parts, entries, start, end);
    CutRemovesRange(entries - keys + parts, entries, owners, start, end);
  }

  class SegmentMap {
    var entries: Entries
    ghost var owners: Owners

    ghost predicate Valid()
      reads this
    {
      WellFormed(entries) && Represents(entries, owners)
    }

    constructor ()
      ensures Valid() && owners == map[]
    {
      entries, owners := map[], map[];
    }

    method Clear()
      modifies this
      ensures Valid() && owners == map[]
    {
      entries, owners := map[], map[];
    }

    method Remove(start: U64, length: U64) returns (ok: bool)
      requires Valid()
      modifies this
      ensures Valid()
      ensures ok <==> RangeFits(start, length)
      ensures owners == if ok then Without(old(owners), start, RangeEnd(start, length)) else old(owners)
    {
      if !RangeFits(start, length) {
        return false;
      }
      var end := RangeEnd(start, length);
      if start == end {
        EmptyRange(owners, start, BlockDescriptor(0, 0, 0, 0, 0, Replay(0)));
        return true;
      }
      var keys := TouchedKeys(entries, start, end);
      var rest, preserved := CutSegments(entries, keys, start, end);
      CutCorrect(entries, owners, keys, preserved, start, end);
      entries := rest + preserved;
      owners := Without(owners, start, end);
      return true;
    }

    method Insert(start: U64, length: U64, block: BlockDescriptor) returns (ok: bool)
      requires Valid() && length <= block.logicalLen
      modifies this
      ensures Valid()
      ensures ok <==> length == 0 || start + length <= U64_MAX
      ensures ok ==> owners == With(old(owners), start, length, block)
      ensures !ok ==> owners == if length == U64_MAX then Without(old(owners), start, U64_MAX) else old(owners)
    {
      hide WellFormed;
      hide Represents;
      if length == 0 {
        EmptyRange(owners, start, block);
        return true;
      }
      ok := Remove(start, length);
      if !ok || start + length > U64_MAX {
        return false;
      }
      InsertCorrect(entries, owners, start, length, block);
      entries := entries[start := Segment(start + length, block, 0)];
      owners := owners + Fresh(start, length, block);
      return true;
    }
  }

  lemma InsertWellFormed(entries: Entries, owners: Owners, start: nat, length: nat, block: BlockDescriptor)
    requires WellFormed(entries) && Represents(entries, owners)
    requires 0 < length <= block.logicalLen && start + length <= U64_MAX
    requires forall i :: i in owners ==> !(start <= i < start + length)
    ensures forall k :: k in entries ==> entries[k].end <= start || start + length <= k
    ensures WellFormed(entries[start := Segment(start + length, block, 0)])
  {
    forall k | k in entries
      ensures entries[k].end <= start || start + length <= k
    {
      assert Holds(entries, k, k);
      if k < start < entries[k].end {
        assert Holds(entries, k, start);
      }
    }
  }

  lemma InsertRepresents(entries: Entries, owners: Owners, start: nat, length: nat, block: BlockDescriptor)
    requires Represents(entries, owners)
    requires 0 < length && start !in entries
    requires forall k :: k in entries ==> entries[k].end <= start || start + length <= k
    ensures Represents(entries[start := Segment(start + length, block, 0)], owners + Fresh(start, length, block))
  {
    var added := entries[start := Segment(start + length, block, 0)];
    var fresh_ := Fresh(start, length, block);
    forall i | i in owners + fresh_
      ensures exists k :: Holds(added, k, i)
    {
      if i in fresh_ {
        assert Holds(added, start, i);
      } else {
        var k :| Holds(entries, k, i);
        assert Holds(added, k, i);
      }
    }
    forall k: nat, i: nat | Holds(added, k, i)
      ensures i in owners + fresh_ && (owners + fresh_)[i] == PlaceIn(added, k, i)
    {
      if k == start {
        assert InSpan(i, start, length) && i in fresh_;
      } else {
        assert Holds(entries, k, i);
      }
    }
  }

  lemma InsertCorrect(entries: Entries, owners: Owners, start: nat, length: nat, block: BlockDescriptor)
    requires WellFormed(entries) && Represents(entries, owners)
    requires 0 < length <= block.logicalLen && start + length <= U64_MAX
    requires forall i :: i in owners ==> !(start <= i < start + length)
    ensures WellFormed(entries[start := Segment(start + length, block, 0)])
    ensures Represents(entries[start := Segment(start + length, block, 0)], owners + Fresh(start, length, block))
  {
    InsertWellFormed(entries, owners, start, length, block);
    InsertRepresents(entries, owners, start, length, block);
  }
}
