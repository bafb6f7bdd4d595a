/** Indirect-block addressing (src/pool.rs, `read_dnode_data_with_key`): the shift-and-mask descent against the flat
    array of leaf slots it stands for. */
module PoolWalk {
  import opened Bytes
  import opened BlockPointers

  /** A pool: which pointers are holes, what a stored block reads as (None when no copy is readable), and the number
      of indirection levels supported. */
  datatype Pool = Pool(maxLevels: nat, isHole: RawPointer -> bool, read: RawPointer -> Option<seq<Byte>>)

  datatype Dnode = Dnode(levels: Byte, maxBlockId: U64, indirectBlockSize: nat, pointers: seq<RawPointer>, blockSize: nat)

  /** What a block id leads to. */
  datatype Slot = Hole | Leaf(pointer: RawPointer) | Failed

  function TrailingZeros(n: nat): nat
    requires n > 0
  {
    if n % 2 == 1 then 0 else 1 + TrailingZeros(n / 2)
  }

  function PointersPerIndirect(d: Dnode): (n: nat)
    ensures n >= 1
  {
    Max(d.indirectBlockSize / BLKPTR_SIZE, 1)
  }

  /** The number of block-id bits one level consumes. */
  function ShiftOf(d: Dnode): nat { TrailingZeros(PointersPerIndirect(d)) }

  function Shr(n: nat, bits: nat): nat {
    Shl1Monotone(0, bits);
    DivideBounds(n, Shl1(bits));
    n / Shl1(bits)
  }

  /** `(id >> bits) & (fan - 1)` for a power of two. */
  function Digit(id: nat, bits: nat, shift: nat): (digit: nat)
    ensures digit < Shl1(shift)
  {
    Shl1Monotone(0, shift);
    Shr(id, bits) % Shl1(shift)
  }

  function Child(block: seq<Byte>, index: nat): Option<RawPointer> {
    if BLKPTR_SIZE * (index + 1) <= |block| then Some(block[BLKPTR_SIZE * index..BLKPTR_SIZE * (index + 1)]) else None
  }

  /** The loop of the descent, from a pointer at a level. */
  function WalkFrom(pool: Pool, shift: nat, pointer: RawPointer, level: nat, id: nat): Slot
    decreases level
  {
    if pool.isHole(pointer) then Hole
    else if level == 0 then Leaf(pointer)
    else
      var block := pool.read(pointer);
      if block.None? then Failed
      else
        var child := Child(block.value, Digit(id, (level - 1) * shift, shift));
        if child.None? then Failed else WalkFrom(pool, shift, child.value, level - 1, id)
  }

  function Walk(pool: Pool, d: Dnode, id: nat): Slot {
    if d.levels == 0 || d.levels > pool.maxLevels || id > d.maxBlockId then Failed
    else if Shl1(ShiftOf(d)) != PointersPerIndirect(d) then Failed
    else
      MulMonotone(0, d.levels - 1, ShiftOf(d));
      var top := Shr(id, (d.levels - 1) * ShiftOf(d));
      if top >= |d.pointers| then Failed else WalkFrom(pool, ShiftOf(d), d.pointers[top], d.levels - 1, id)
  }

  /** The data of a block: zeros for a hole at any level. */
  function ReadData(pool: Pool, d: Dnode, id: nat): Option<seq<Byte>> {
    match Walk(pool, d, id)
    case Hole => Some(Zeros(d.blockSize))
    case Leaf(pointer) => pool.read(pointer)
    case Failed => None
  }

  method ReadDnodeData(pool: Pool, d: Dnode, id: nat) returns (data: Option<seq<Byte>>)
    ensures data == ReadData(pool, d, id)
  {
    hide Digit;
    hide Shr;
    if d.levels == 0 || d.levels > pool.maxLevels || id > d.maxBlockId {
      return None;
    }
    var shift := TrailingZeros(PointersPerIndirect(d));
    if Shl1(shift) != PointersPerIndirect(d) {
      return None;
    }
    var level: nat := d.levels - 1;
    var top := Shr(id, level * shift);
    if top >= |d.pointers| {
      return None;
    }
    var pointer := d.pointers[top];
    while level > 0
      invariant WalkFrom(pool, shift, pointer, level, id) == Walk(pool, d, id)
    {
      if pool.isHole(pointer) {
        return Some(Zeros(d.blockSize));
      }
      var block := pool.read(pointer);
      if block.None? {
        return None;
      }
      level := level - 1;
      var child := Child(block.value, Digit(id, level * shift, shift));
      if child.None? {
        return None;
      }
      pointer := child.value;
    }
    if pool.isHole(pointer) {
      return Some(Zeros(d.blockSize));
    }
    return pool.read(pointer);
  }

  // ---------- The flat array ----------

  function Same(slot: Slot, n: nat): seq<Slot> { seq(n, _ => slot) }

  function Span(level: nat, shift: nat): (n: nat)
    ensures n > 0
  {
    Shl1Monotone(0, level * shift);
    Shl1(level * shift)
  }

  /** The leaf slots below a pointer, left to right. */
  function Flatten(pool: Pool, shift: nat, pointer: RawPointer, level: nat): seq<Slot>
    decreases level, 0
  {
    if pool.isHole(pointer) then Same(Hole, Span(level, shift))
    else if level == 0 then [Leaf(pointer)]
    else
      var block := pool.read(pointer);
      if block.None? then Same(Failed, Span(level, shift))
      else FlattenChildren(pool, shift, block.value, Shl1(shift), level - 1)
  }

  /** The slots below the first n children of an indirect block. */
  function FlattenChildren(pool: Pool, shift: nat, block: seq<Byte>, n: nat, level: nat): seq<Slot>
    decreases level, n + 1
  {
    if n == 0 then []
    else
      var child := Child(block, n - 1);
      FlattenChildren(pool, shift, block, n - 1, level)
      + if child.None? then Same(Failed, Span(level, shift)) else Flatten(pool, shift, child.value, level)
  }

  function FlattenAll(pool: Pool, shift: nat, pointers: seq<RawPointer>, level: nat): seq<Slot>
    decreases |pointers|
  {
    if pointers == [] then []
    else FlattenAll(pool, shift, pointers[..|pointers| - 1], level) + Flatten(pool, shift, pointers[|pointers| - 1], level)
  }

  // ---------- Widths ----------

  lemma SpanStep(level: nat, shift: nat)
    ensures Span(level + 1, shift) == Shl1(shift) * Span(level, shift)
  {
    assert (level + 1) * shift == shift + level * shift;
    Shl1Adds(shift, level * shift);
  }

  lemma {:induction false} FlattenWidth(pool: Pool, shift: nat, pointer: RawPointer, level: nat)
    ensures |Flatten(pool, shift, pointer, level)| == Span(level, shift)
    decreases level, 0
  {
    hide Span;
    if level == 0 {
      assert Span(0, shift) == 1 by { SpanZero(shift); }
    } else if !pool.isHole(pointer) && pool.read(pointer).Some? {
      ChildrenWidth(pool, shift, pool.read(pointer).value, Shl1(shift), level - 1);
      SpanStep(level - 1, shift);
    }
  }

  lemma SpanZero(shift: nat)
    ensures Span(0, shift) == 1
  {
  }

  lemma {:induction false} ChildrenWidth(pool: Pool, shift: nat, block: seq<Byte>, n: nat, level: nat)
    ensures |FlattenChildren(pool, shift, block, n, level)| == n * Span(level, shift)
    decreases level, n + 1
  {
    hide Span;
    if n > 0 {
      ChildrenWidth(pool, shift, block, n - 1, level);
      if Child(block, n - 1).Some? {
        FlattenWidth(pool, shift, Child(block, n - 1).value, level);
      }
      OneMore(n - 1, Span(level, shift));
    } else {
      assert 0 * Span(level, shift) == 0;
    }
  }

  lemma {:induction false} AllWidth(pool: Pool, shift: nat, pointers: seq<RawPointer>, level: nat)
    ensures |FlattenAll(pool, shift, pointers, level)| == |pointers| * Span(level, shift)
    decreases |pointers|
  {
    hide Span;
    hide Flatten;
    if pointers != [] {
      var n := |pointers| - 1;
      AllWidth(pool, shift, pointers[..n], level);
      FlattenWidth(pool, shift, pointers[n], level);
      OneMore(n, Span(level, shift));
    }
  }

  /** The k-th child's slots start at k spans. */
  lemma {:induction false} ChildSlot(pool: Pool, shift: nat, block: seq<Byte>, n: nat, level: nat, k: nat, r: nat)
    requires k < n && r < Span(level, shift)
    ensures k * Span(level, shift) + r < |FlattenChildren(pool, shift, block, n, level)|
    ensures Child(block, k).Some? ==>
              r < |Flatten(pool, shift, Child(block, k).value, level)|
              && FlattenChildren(pool, shift, block, n, level)[k * Span(level, shift) + r]
                 == Flatten(pool, shift, Child(block, k).value, level)[r]
    ensures Child(block, k).None? ==> FlattenChildren(pool, shift, block, n, level)[k * Span(level, shift) + r] == Failed
    decreases n
  {
    hide Span;
    hide Flatten;
    ChildrenWidth(pool, shift, block, n - 1, level);
    if Child(block, n - 1).Some? {
      FlattenWidth(pool, shift, Child(block, n - 1).value, level);
    }
    if k < n - 1 {
      ChildSlot(pool, shift, block, n - 1, level, k, r);
    }
  }

  lemma {:induction false} TopSlot(pool: Pool, shift: nat, pointers: seq<RawPointer>, level: nat, k: nat, r: nat)
    requires k < |pointers| && r < Span(level, shift)
    ensures k * Span(level, shift) + r < |FlattenAll(pool, shift, pointers, level)|
    ensures r < |Flatten(pool, shift, pointers[k], level)|
    ensures FlattenAll(pool, shift, pointers, level)[k * Span(level, shift) + r] == Flatten(pool, shift, pointers[k], level)[r]
    decreases |pointers|
  {
    hide Span;
    hide Flatten;
    var n := |pointers| - 1;
    AllWidth(pool, shift, pointers[..n], level);
    FlattenWidth(pool, shift, pointers[n], level);
    if k < n {
      TopSlot(pool, shift, pointers[..n], level, k, r);
    }
  }

  // ---------- The descent ----------

  /** n % (fan * w) splits into the digit n / w % fan and the remainder n % w. */
  lemma SplitRemainder(n: nat, fan: nat, w: nat)
    requires fan > 0 && w > 0
    ensures 0 <= n % w < w && 0 <= n / w % fan < fan
    ensures fan * w > 0 && n % (fan * w) == n / w % fan * w + n % w
  {
    DivideBounds(n, w);
    var q: nat, r: nat := n / w, n % w;
    DivideBounds(q, fan);
    var a: nat, b: nat := q / fan, q % fan;
    Regroup(n, fan, w, a, b, r);
    DivideExact(b * w + r, fan * w, a);
    DivideBounds(n, fan * w);
  }

  lemma Regroup(n: nat, fan: nat, w: nat, a: nat, b: nat, r: nat)
    requires n == w * (fan * a + b) + r && b < fan && r < w
    ensures b * w + r < fan * w && n == b * w + r + (fan * w) * a
  {
    OneMore(b, w);
    MulMonotone(b + 1, fan, w);
    assert w * (fan * a + b) == w * (fan * a) + w * b;
    assert w * (fan * a) == (fan * w) * a;
  }

  lemma {:induction false} SameAt(pool: Pool, shift: nat, pointer: RawPointer, level: nat, id: nat)
    ensures id % Span(level, shift) < |Flatten(pool, shift, pointer, level)|
    ensures WalkFrom(pool, shift, pointer, level, id) == Flatten(pool, shift, pointer, level)[id % Span(level, shift)]
    decreases level
  {
    hide Span;
    hide Digit;
    FlattenWidth(pool, shift, pointer, level);
    if level > 0 && !pool.isHole(pointer) && pool.read(pointer).Some? {
      var block, w := pool.read(pointer).value, Span(level - 1, shift);
      var k := Digit(id, (level - 1) * shift, shift);
      SpanStep(level - 1, shift);
      DigitOf(id, level - 1, shift);
      Shl1Monotone(0, shift);
      SplitRemainder(id, Shl1(shift), w);
      ChildSlot(pool, shift, block, Shl1(shift), level - 1, k, id % w);
      if Child(block, k).Some? {
        SameAt(pool, shift, Child(block, k).value, level - 1, id);
      }
    }
  }

  lemma DigitOf(id: nat, level: nat, shift: nat)
    ensures Shl1(shift) > 0 && Digit(id, level * shift, shift) == id / Span(level, shift) % Shl1(shift)
  {
    Shl1Monotone(0, shift);
  }

  /** The flat array of a dnode's leaf slots. */
  function Slots(pool: Pool, d: Dnode): seq<Slot>
    requires d.levels >= 1
  {
    FlattenAll(pool, ShiftOf(d), d.pointers, d.levels - 1)
  }

  /** Every block id of the object leads to the slot of that number in the flat array of leaves, so distinct ids lead
      to distinct slots; an id is refused for want of a top pointer exactly when the array has no such slot. */
  lemma WalkIsFlat(pool: Pool, d: Dnode, id: nat)
    requires 1 <= d.levels <= pool.maxLevels && id <= d.maxBlockId && Shl1(ShiftOf(d)) == PointersPerIndirect(d)
    ensures Walk(pool, d, id) == if id < |Slots(pool, d)| then Slots(pool, d)[id] else Failed
  {
    hide Flatten;
    hide FlattenAll;
    hide WalkFrom;
    hide ShiftOf;
    hide PointersPerIndirect;
    var shift, level := ShiftOf(d), d.levels - 1;
    var w := Span(level, shift);
    var top := Shr(id, level * shift);
    DivideBounds(id, w);
    assert top * w == w * top;
    AllWidth(pool, shift, d.pointers, level);
    if top < |d.pointers| {
      TopSlot(pool, shift, d.pointers, level, top, id % w);
      SameAt(pool, shift, d.pointers[top], level, id);
    } else {
      MulMonotone(|d.pointers|, top, w);
    }
  }
}
