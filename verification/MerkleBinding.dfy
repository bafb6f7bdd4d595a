/** The root pointers bind every leaf: two leaf sets with the same roots are equal, or two different inputs that
    were really hashed have the same truncated digest. */
module MerkleBinding {
  import opened Bytes
  import opened Records
  import opened RawLeaves
  import opened BlockPointers
  import opened Merkle
  import opened MerkleTree

  /** The g-th group of a row, as `chunks(epb)` cuts it. */
  function Group(row: seq<Auth>, epb: nat, g: nat): seq<Auth>
    requires g * epb <= |row|
  {
    row[g * epb..Min(g * epb + epb, |row|)]
  }

  /** Two rows hash different bytes for their g-th groups and get the same digest. */
  predicate CollidesAt(version: Version, digest: Digest, x: seq<Auth>, y: seq<Auth>, epb: nat, g: nat) {
    && |x| == |y| && g * epb < |x|
    && !AllHoles(Group(x, epb, g)) && !AllHoles(Group(y, epb, g))
    && Preimage(version, Group(x, epb, g), epb) != Preimage(version, Group(y, epb, g), epb)
    && digest(Preimage(version, Group(x, epb, g), epb)) == digest(Preimage(version, Group(y, epb, g), epb))
  }

  /** Some group collides. */
  predicate Collides(version: Version, digest: Digest, x: seq<Auth>, y: seq<Auth>, epb: nat) {
    exists g: nat :: g <= |x| && CollidesAt(version, digest, x, y, epb, g)
  }

  lemma {:induction false} EncodeAllInjective(version: Version, x: seq<Auth>, y: seq<Auth>)
    requires |x| == |y| && EncodeAll(version, x) == EncodeAll(version, y)
    ensures x == y
    decreases |x|
  {
    hide Encode;
    hide EncodeAll;
    if x != [] {
      var n := |x| - 1;
      EncodeAllSplits(version, x, n);
      EncodeAllSplits(version, y, n);
      EncodeInjective(version, x[n], y[n]);
      EncodeAllInjective(version, x[..n], y[..n]);
      assert x == x[..n] + [x[n]] && y == y[..n] + [y[n]];
    }
  }

  /** The last pointer occupies the last bytes. */
  lemma EncodeAllSplits(version: Version, x: seq<Auth>, n: nat)
    requires |x| == n + 1
    ensures |EncodeAll(version, x)| == (n + 1) * PointerSize(version)
    ensures EncodeAll(version, x)[..n * PointerSize(version)] == EncodeAll(version, x[..n])
    ensures EncodeAll(version, x)[n * PointerSize(version)..] == Encode(version, x[n])
  {
    EncodeAllLength(version, x[..n]);
    hide Encode;
  }

  lemma {:induction false} EncodeAllLength(version: Version, x: seq<Auth>)
    ensures |EncodeAll(version, x)| == |x| * PointerSize(version)
    decreases |x|
  {
    hide Encode;
    if x != [] {
      EncodeAllLength(version, x[..|x| - 1]);
    }
  }

  lemma PreimageInjective(version: Version, x: seq<Auth>, y: seq<Auth>, epb: nat)
    requires |x| == |y| <= epb && Preimage(version, x, epb) == Preimage(version, y, epb)
    ensures x == y
  {
    var pad := Holes(epb - |x|);
    EncodeAllInjective(version, x + pad, y + pad);
    assert (x + pad)[..|x|] == x && (y + pad)[..|y|] == y;
  }

  /** Equal parents come from equal groups, or collide: a hole never equals an indirect pointer. */
  lemma ParentBinds(version: Version, digest: Digest, x: seq<Auth>, y: seq<Auth>, epb: nat, prop: U64)
    requires |x| == |y| <= epb && prop != 0
    requires ParentOf(version, digest, x, epb, prop) == ParentOf(version, digest, y, epb, prop)
    ensures x == y || (!AllHoles(x) && !AllHoles(y) && Preimage(version, x, epb) != Preimage(version, y, epb)
                       && digest(Preimage(version, x, epb)) == digest(Preimage(version, y, epb)))
  {
    if !AllHoles(x) && !AllHoles(y) && Preimage(version, x, epb) == Preimage(version, y, epb) {
      PreimageInjective(version, x, y, epb);
    }
    hide Preimage;
  }

  lemma GroupShift(row: seq<Auth>, epb: nat, g: nat)
    requires 0 < epb <= |row| && g * epb <= |row| - epb
    ensures (g + 1) * epb <= |row| && Group(row, epb, g + 1) == Group(row[epb..], epb, g)
  {
    assert (g + 1) * epb == g * epb + epb;
  }

  lemma {:induction false} UpBinds(version: Version, digest: Digest, x: seq<Auth>, y: seq<Auth>, epb: nat, prop: U64)
    requires epb > 0 && prop != 0 && |x| == |y| && Up(version, digest, x, epb, prop) == Up(version, digest, y, epb, prop)
    ensures x == y || Collides(version, digest, x, y, epb)
    decreases |x|
  {
    hide Preimage;
    hide ParentOf;
    hide Collides;
    if x != [] {
      var n := Min(epb, |x|);
      var ux, uy := Up(version, digest, x, epb, prop), Up(version, digest, y, epb, prop);
      assert ux[0] == ParentOf(version, digest, x[..n], epb, prop) && uy[0] == ParentOf(version, digest, y[..n], epb, prop);
      assert ux[1..] == Up(version, digest, x[n..], epb, prop) && uy[1..] == Up(version, digest, y[n..], epb, prop);
      ParentBinds(version, digest, x[..n], y[..n], epb, prop);
      UpBinds(version, digest, x[n..], y[n..], epb, prop);
      assert x == x[..n] + x[n..] && y == y[..n] + y[n..];
      if x[..n] != y[..n] {
        FirstGroupCollides(version, digest, x, y, epb);
      } else if x[n..] != y[n..] {
        LaterGroupCollides(version, digest, x, y, epb);
      }
    }
  }

  lemma FirstGroupCollides(version: Version, digest: Digest, x: seq<Auth>, y: seq<Auth>, epb: nat)
    requires 0 < epb && 0 < |x| == |y|
    requires var n := Min(epb, |x|);
             && !AllHoles(x[..n]) && !AllHoles(y[..n]) && Preimage(version, x[..n], epb) != Preimage(version, y[..n], epb)
             && digest(Preimage(version, x[..n], epb)) == digest(Preimage(version, y[..n], epb))
    ensures Collides(version, digest, x, y, epb)
  {
    hide Preimage;
    hide AllHoles;
    var n := Min(epb, |x|);
    assert Group(x, epb, 0) == x[..n] && Group(y, epb, 0) == y[..n];
    assert CollidesAt(version, digest, x, y, epb, 0);
  }

  lemma LaterGroupCollides(version: Version, digest: Digest, x: seq<Auth>, y: seq<Auth>, epb: nat)
    requires 0 < epb <= |x| == |y| && Collides(version, digest, x[epb..], y[epb..], epb)
    ensures Collides(version, digest, x, y, epb)
  {
    hide Preimage;
    hide AllHoles;
    hide Group;
    var g: nat :| g <= |x| - epb && CollidesAt(version, digest, x[epb..], y[epb..], epb, g);
    GroupShift(x, epb, g);
    GroupShift(y, epb, g);
    assert CollidesAt(version, digest, x, y, epb, g + 1);
  }

  /** The row that `Lift` has reached at a tree level, starting from the leaves. */
  function RowAt(version: Version, digest: Digest, dnode: ObjectRecord, leaves: seq<Auth>, epb: nat, level: nat): seq<Auth>
    requires epb > 0
  {
    Lift(version, digest, dnode, leaves, epb, 1, level)
  }

  /** Two leaf rows collide in some group of some level below the top. */
  predicate CollidesBelow(version: Version, digest: Digest, dnode: ObjectRecord, x: seq<Auth>, y: seq<Auth>, epb: nat,
                          levels: nat)
    requires epb > 0
  {
    exists level: nat :: 1 <= level < levels
      && Collides(version, digest, RowAt(version, digest, dnode, x, epb, level),
                  RowAt(version, digest, dnode, y, epb, level), epb)
  }

  /** A level whose properties are invalid is only ever reached by a row of holes. */
  predicate PropsWhereStored(version: Version, digest: Digest, dnode: ObjectRecord, leaves: seq<Auth>, epb: nat, levels: nat)
    requires epb > 0
  {
    forall level :: 1 <= level < levels ==>
      IndirectProp(dnode, level).Some? || AllHoles(RowAt(version, digest, dnode, leaves, epb, level))
  }

  lemma {:induction false} ClimbHasProps(version: Version, digest: Digest, dnode: ObjectRecord, row: seq<Auth>,
                                         epb: nat, from: nat, level: nat, levels: nat)
    requires epb > 0 && from <= level < levels && Climb(version, digest, dnode, row, epb, from, levels).Ok?
    ensures IndirectProp(dnode, level).Some? || AllHoles(Lift(version, digest, dnode, row, epb, from, level))
    decreases level - from
  {
    hide IndirectProp;
    hide AllHoles;
    if from < level {
      ClimbHasProps(version, digest, dnode, Up(version, digest, row, epb, PropAt(dnode, from)), epb, from + 1, level,
                    levels);
    }
  }

  lemma ClimbedRowsHaveProps(version: Version, digest: Digest, dnode: ObjectRecord, leaves: seq<Auth>, epb: nat, levels: nat)
    requires epb > 0 && Climb(version, digest, dnode, leaves, epb, 1, levels).Ok?
    ensures PropsWhereStored(version, digest, dnode, leaves, epb, levels)
  {
    hide IndirectProp;
    hide AllHoles;
    forall level | 1 <= level < levels
      ensures IndirectProp(dnode, level).Some? || AllHoles(RowAt(version, digest, dnode, leaves, epb, level))
    {
      ClimbHasProps(version, digest, dnode, leaves, epb, 1, level, levels);
    }
  }

  lemma {:induction false} LiftBinds(version: Version, digest: Digest, dnode: ObjectRecord, x: seq<Auth>, y: seq<Auth>,
                                     epb: nat, levels: nat)
    requires epb > 0 && levels >= 1 && |x| == |y|
    requires PropsWhereStored(version, digest, dnode, x, epb, levels)
    requires PropsWhereStored(version, digest, dnode, y, epb, levels)
    requires RowAt(version, digest, dnode, x, epb, levels) == RowAt(version, digest, dnode, y, epb, levels)
    ensures x == y || CollidesBelow(version, digest, dnode, x, y, epb, levels)
    decreases levels
  {
    hide Collides;
    hide Up;
    hide IndirectProp;
    hide AllHoles;
    if levels > 1 {
      var below := levels - 1;
      LiftSnoc(version, digest, dnode, x, epb, 1, below);
      LiftSnoc(version, digest, dnode, y, epb, 1, below);
      LiftSameLength(version, digest, dnode, x, y, epb, 1, below);
      var rx, ry := RowAt(version, digest, dnode, x, epb, below), RowAt(version, digest, dnode, y, epb, below);
      if IndirectProp(dnode, below).Some? {
        PropNotZero(dnode, below);
        UpBinds(version, digest, rx, ry, epb, PropAt(dnode, below));
      } else {
        SameHoles(rx, ry);
      }
      if rx == ry {
        LiftBinds(version, digest, dnode, x, y, epb, below);
      }
    }
  }

  lemma SameHoles(x: seq<Auth>, y: seq<Auth>)
    requires |x| == |y| && AllHoles(x) && AllHoles(y)
    ensures x == y
  {
  }

  lemma PropNotZero(dnode: ObjectRecord, level: nat)
    requires IndirectProp(dnode, level).Some?
    ensures PropAt(dnode, level) != 0
  {
  }

  lemma {:induction false} UpSameLength(version: Version, digest: Digest, x: seq<Auth>, y: seq<Auth>, epb: nat, prop: U64)
    requires epb > 0 && |x| == |y|
    ensures |Up(version, digest, x, epb, prop)| == |Up(version, digest, y, epb, prop)|
    decreases |x|
  {
    hide ParentOf;
    if x != [] {
      UpSameLength(version, digest, x[Min(epb, |x|)..], y[Min(epb, |x|)..], epb, prop);
    }
  }

  lemma {:induction false} LiftSameLength(version: Version, digest: Digest, dnode: ObjectRecord, x: seq<Auth>,
                                          y: seq<Auth>, epb: nat, level: nat, levels: nat)
    requires epb > 0 && |x| == |y|
    ensures |Lift(version, digest, dnode, x, epb, level, levels)| == |Lift(version, digest, dnode, y, epb, level, levels)|
    decreases levels - level
  {
    hide Up;
    hide PropAt;
    if level < levels {
      UpSameLength(version, digest, x, y, epb, PropAt(dnode, level));
      LiftSameLength(version, digest, dnode, Up(version, digest, x, epb, PropAt(dnode, level)),
                     Up(version, digest, y, epb, PropAt(dnode, level)),
                     epb, level + 1, levels);
    }
  }

  /** Equal root pointers of two leaf lists of one object mean equal leaf tuples at every block, or a digest
      collision at a named group of a named level. */
  lemma RootsDetermineLeaves(version: Version, digest: Digest, dnode: ObjectRecord, a: seq<RawBlockPointer>,
                             b: seq<RawBlockPointer>)
    requires dnode.levels >= 1
    requires RootPointers(version, digest, dnode, a).Ok?
    requires RootPointers(version, digest, dnode, a) == RootPointers(version, digest, dnode, b)
    ensures EntriesPerBlock(dnode) > 0
    ensures LeafRow(version, a, dnode.maxBlockId + 1).Ok? && LeafRow(version, b, dnode.maxBlockId + 1).Ok?
    ensures var x, y := LeafRow(version, a, dnode.maxBlockId + 1).value, LeafRow(version, b, dnode.maxBlockId + 1).value;
            var epb := EntriesPerBlock(dnode);
            x == y || CollidesBelow(version, digest, dnode, x, y, epb, dnode.levels)
  {
    hide Collides;
    hide Up;
    hide LeafRow;
    hide IndirectProp;
    Shl1Monotone(0, dnode.indirectBlockShift - 7);
    var x, y := LeafRow(version, a, dnode.maxBlockId + 1).value, LeafRow(version, b, dnode.maxBlockId + 1).value;
    var epb := EntriesPerBlock(dnode);
    ClimbIsLift(version, digest, dnode, x, epb, 1, dnode.levels);
    ClimbIsLift(version, digest, dnode, y, epb, 1, dnode.levels);
    ClimbedRowsHaveProps(version, digest, dnode, x, epb, dnode.levels);
    ClimbedRowsHaveProps(version, digest, dnode, y, epb, dnode.levels);
    LiftSameLength(version, digest, dnode, x, y, epb, 1, dnode.levels);
    var rx, ry := RowAt(version, digest, dnode, x, epb, dnode.levels), RowAt(version, digest, dnode, y, epb, dnode.levels);
    var pad := Holes(dnode.blockPointers - |rx|);
    assert (rx + pad)[..|rx|] == rx && (ry + pad)[..|ry|] == ry;
    LiftBinds(version, digest, dnode, x, y, epb, dnode.levels);
  }
}
