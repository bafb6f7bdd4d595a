/** The top-down view: an on-disk tree whose indirect blocks pass the pool reader's check has, as its normalized
    top pointers, exactly what the send side rebuilds from its leaves. */
module MerkleTree {
  import opened Bytes
  import opened Records
  import opened RawLeaves
  import opened BlockPointers
  import opened Merkle

  /** An on-disk pointer and, below a non-hole indirect pointer, the pointers of its decoded block. */
  datatype Tree = Tree(raw: RawPointer, kids: seq<Tree>)

  // ---------- What the pool reader checks ----------

  /** The decoded indirect block: its pointers one after the other. */
  function BlockOf(kids: seq<Tree>): (b: seq<Byte>)
    ensures |b| == 128 * |kids|
    decreases |kids|
  {
    if kids == [] then [] else BlockOf(kids[..|kids| - 1]) + kids[|kids| - 1].raw
  }

  function PortablePointer(version: Version, raw: RawPointer): seq<Byte> { PoolAuthBytes(raw, version).value }

  /** The bytes `indirect_mac` hashes for a block: the portable encoding of each 128-byte pointer. */
  function PortableBlock(version: Version, block: seq<Byte>): seq<Byte>
    requires |block| % 128 == 0
    decreases |block|
  {
    if block == [] then []
    else PortableBlock(version, block[..|block| - 128]) + PortablePointer(version, block[|block| - 128..])
  }

  function IndirectMac(version: Version, digest: Digest, block: seq<Byte>): Option<Mac> {
    if |block| % 128 != 0 then None else Some(digest(PortableBlock(version, block)))
  }

  lemma NothingPortable(version: Version)
    ensures PortableBlock(version, []) == []
  {
  }

  lemma PortableStep(version: Version, block: seq<Byte>, n: nat)
    requires n % 128 == 0 && n + 128 <= |block|
    ensures PortableBlock(version, block[..n + 128]) == PortableBlock(version, block[..n]) + PortablePointer(version, block[n..n + 128])
  {
    hide PortablePointer;
    assert block[..n + 128][..n] == block[..n] && block[..n + 128][n..] == block[n..n + 128];
  }

  /** `indirect_mac`, pointer by pointer. */
  method ComputeIndirectMac(version: Version, digest: Digest, block: seq<Byte>) returns (mac: Option<Mac>)
    ensures mac == IndirectMac(version, digest, block)
  {
    hide PortablePointer;
    hide PortableBlock;
    if |block| % 128 != 0 {
      return None;
    }
    var hashed := [];
    var n := 0;
    NothingPortable(version);
    while n < |block|
      invariant n % 128 == 0 && n <= |block|
      invariant hashed == PortableBlock(version, block[..n])
    {
      PortableStep(version, block, n);
      hashed := hashed + PortablePointer(version, block[n..n + 128]);
      n := n + 128;
    }
    assert block[..n] == block;
    return Some(digest(hashed));
  }

  /** What the theorem asks of an on-disk tree at a level, node by node. */
  predicate Sound(version: Version, digest: Digest, dnode: ObjectRecord, t: Tree, level: nat, epb: nat)
    decreases level
  {
    // A hole normalizes to the empty pointer: always under version 1, under version 0 if it keeps no field.
    if IsHole(t.raw) then t.kids == [] && Normalized(version, t.raw) == HOLE
    else if level == 0 then t.kids == [] && Normalized(version, t.raw).prop != 0
    else
      // A full block of pointers, at least one of them stored: an all-hole subtree is stored as a hole.
      && |t.kids| == epb && (exists k :: k in t.kids && !IsHole(k.raw))
      // The MAC the pool reader compares.
      && IndirectMac(version, digest, BlockOf(t.kids)) == Some(t.raw[112..128])
      // The portable properties of an indirect pointer of this object.
      && Some(PoolProp(t.raw, version)) == IndirectProp(dnode, level)
      && FieldOf(PropWord(t.raw), 0x1_0000_0000_0000, 0x100) != DMU_OT_OBJSET
      && forall k :: k in t.kids ==> Sound(version, digest, dnode, k, level - 1, epb)
  }

  predicate AllSound(version: Version, digest: Digest, dnode: ObjectRecord, ts: seq<Tree>, level: nat, epb: nat) {
    forall t :: t in ts ==> Sound(version, digest, dnode, t, level, epb)
  }

  // ---------- The leaves below a tree ----------

  function Width(epb: nat, level: nat): nat { if level == 0 then 1 else epb * Width(epb, level - 1) }

  /** The normalized leaf pointers below a tree, with every slot of a hole counted as a hole. */
  function Leaves(version: Version, t: Tree, epb: nat, level: nat): seq<Auth>
    decreases level, 0
  {
    if level == 0 then [Normalized(version, t.raw)]
    else if IsHole(t.raw) then Holes(Width(epb, level))
    else AllLeaves(version, t.kids, epb, level - 1)
  }

  function AllLeaves(version: Version, ts: seq<Tree>, epb: nat, level: nat): seq<Auth>
    decreases level, |ts| + 1
  {
    if ts == [] then [] else AllLeaves(version, ts[..|ts| - 1], epb, level) + Leaves(version, ts[|ts| - 1], epb, level)
  }

  function Tops(version: Version, ts: seq<Tree>): (r: seq<Auth>)
    ensures |r| == |ts|
  {
    seq<Auth>(|ts|, i requires 0 <= i < |ts| => Normalized(version, ts[i].raw))
  }

  // ---------- Rising one level ----------

  lemma {:induction false} UpAppend(version: Version, digest: Digest, x: seq<Auth>, y: seq<Auth>, epb: nat, prop: U64)
    requires epb > 0 && |x| % epb == 0
    ensures Up(version, digest, x + y, epb, prop) == Up(version, digest, x, epb, prop) + Up(version, digest, y, epb, prop)
    decreases |x|
  {
    if x == [] {
      assert x + y == y;
    } else {
      assert |x| >= epb;
      assert (x + y)[..epb] == x[..epb] && (x + y)[epb..] == x[epb..] + y;
      assert |x[epb..]| % epb == 0 by { RemainderDrops(|x|, epb); }
      UpAppend(version, digest, x[epb..], y, epb, prop);
    }
  }

  lemma RemainderDrops(n: nat, epb: nat)
    requires epb > 0 && n >= epb && n % epb == 0
    ensures (n - epb) % epb == 0 && (n - epb) / epb == n / epb - 1
  {
    var q := n / epb;
    assert n == q * epb;
    assert n - epb == (q - 1) * epb by { assert (q - 1) * epb == q * epb - epb; }
    MultipleDivides(q - 1, epb);
  }

  lemma MultipleDivides(q: nat, epb: nat)
    requires epb > 0
    ensures q * epb % epb == 0 && q * epb / epb == q
  {
    DivideExact(0, epb, q);
    assert q * epb == epb * q;
  }

  lemma {:induction false} UpLength(version: Version, digest: Digest, row: seq<Auth>, epb: nat, prop: U64)
    requires epb > 0 && |row| % epb == 0
    ensures |Up(version, digest, row, epb, prop)| == |row| / epb
    decreases |row|
  {
    if row != [] {
      RemainderDrops(|row|, epb);
      UpLength(version, digest, row[epb..], epb, prop);
    }
  }

  lemma {:induction false} UpHoles(version: Version, digest: Digest, m: nat, epb: nat, prop: U64)
    requires epb > 0
    ensures Up(version, digest, Holes(m * epb), epb, prop) == Holes(m)
  {
    if m > 0 {
      assert m * epb == epb + (m - 1) * epb;
      assert Holes(m * epb)[epb..] == Holes((m - 1) * epb);
      assert AllHoles(Holes(m * epb)[..epb]);
      UpHoles(version, digest, m - 1, epb, prop);
      assert [HOLE] + Holes(m - 1) == Holes(m);
    } else {
      assert Holes(0 * epb) == [];
    }
  }

  // ---------- Rising many levels ----------

  /** `Climb` where every level's properties are known. */
  function Lift(version: Version, digest: Digest, dnode: ObjectRecord, row: seq<Auth>, epb: nat, level: nat,
                levels: nat): seq<Auth>
    requires epb > 0
    decreases levels - level
  {
    if level >= levels then row
    else Lift(version, digest, dnode, Up(version, digest, row, epb, PropAt(dnode, level)), epb, level + 1, levels)
  }

  function PropAt(dnode: ObjectRecord, level: nat): U64 {
    var prop := IndirectProp(dnode, level);
    if prop.Some? then prop.value else 0
  }

  predicate PropsKnown(dnode: ObjectRecord, levels: nat) {
    forall level :: 1 <= level < levels ==> IndirectProp(dnode, level).Some?
  }

  lemma {:induction false} ClimbIsLift(version: Version, digest: Digest, dnode: ObjectRecord, row: seq<Auth>, epb: nat,
                                       level: nat, levels: nat)
    requires epb > 0 && Climb(version, digest, dnode, row, epb, level, levels).Ok?
    ensures Climb(version, digest, dnode, row, epb, level, levels)
         == Ok(Lift(version, digest, dnode, row, epb, level, levels))
    decreases levels - level
  {
    hide IndirectProp;
    if level < levels {
      ClimbIsLift(version, digest, dnode, Up(version, digest, row, epb, PropAt(dnode, level)), epb, level + 1, levels);
    }
  }

  lemma {:induction false} ClimbWithProps(version: Version, digest: Digest, dnode: ObjectRecord, row: seq<Auth>,
                                          epb: nat, level: nat, levels: nat)
    requires epb > 0 && 1 <= level && PropsKnown(dnode, levels)
    ensures Climb(version, digest, dnode, row, epb, level, levels).Ok?
    decreases levels - level
  {
    hide IndirectProp;
    if level < levels {
      ClimbWithProps(version, digest, dnode, Up(version, digest, row, epb, PropAt(dnode, level)), epb, level + 1, levels);
    }
  }

  lemma {:induction false} UpOfHoles(version: Version, digest: Digest, row: seq<Auth>, epb: nat, prop: U64)
    requires epb > 0 && AllHoles(row)
    ensures AllHoles(Up(version, digest, row, epb, prop))
    decreases |row|
  {
    if row != [] {
      UpOfHoles(version, digest, row[Min(epb, |row|)..], epb, prop);
    }
  }

  /** A row of holes rises without needing any level's properties. */
  lemma {:induction false} ClimbHoles(version: Version, digest: Digest, dnode: ObjectRecord, row: seq<Auth>, epb: nat,
                                      level: nat, levels: nat)
    requires epb > 0 && AllHoles(row)
    ensures Climb(version, digest, dnode, row, epb, level, levels).Ok?
    decreases levels - level
  {
    hide IndirectProp;
    hide AllHoles;
    if level < levels {
      UpOfHoles(version, digest, row, epb, PropAt(dnode, level));
      ClimbHoles(version, digest, dnode, Up(version, digest, row, epb, PropAt(dnode, level)), epb, level + 1, levels);
    }
  }

  lemma {:induction false} LiftSnoc(version: Version, digest: Digest, dnode: ObjectRecord, row: seq<Auth>, epb: nat,
                                    level: nat, levels: nat)
    requires epb > 0 && level <= levels
    ensures Lift(version, digest, dnode, row, epb, level, levels + 1)
         == Up(version, digest, Lift(version, digest, dnode, row, epb, level, levels), epb, PropAt(dnode, levels))
    decreases levels - level
  {
    hide PropAt;
    if level < levels {
      LiftSnoc(version, digest, dnode, Up(version, digest, row, epb, PropAt(dnode, level)), epb, level + 1, levels);
    }
  }

  /** Divisible by epb at each of k levels. */
  predicate Aligned(n: int, epb: nat, k: nat)
    requires epb > 0
    decreases k
  {
    k == 0 || (n % epb == 0 && Aligned(n / epb, epb, k - 1))
  }

  lemma {:induction false} LiftAppend(version: Version, digest: Digest, dnode: ObjectRecord, x: seq<Auth>,
                                      y: seq<Auth>, epb: nat, level: nat, levels: nat)
    requires epb > 0 && level <= levels && Aligned(|x|, epb, levels - level)
    ensures Lift(version, digest, dnode, x + y, epb, level, levels)
         == Lift(version, digest, dnode, x, epb, level, levels) + Lift(version, digest, dnode, y, epb, level, levels)
    decreases levels - level
  {
    hide PropAt;
    if level < levels {
      var prop := PropAt(dnode, level);
      UpAppend(version, digest, x, y, epb, prop);
      UpLength(version, digest, x, epb, prop);
      LiftAppend(version, digest, dnode, Up(version, digest, x, epb, prop), Up(version, digest, y, epb, prop), epb,
                 level + 1, levels);
    }
  }

  lemma {:induction false} WidthAligned(epb: nat, m: nat, k: nat)
    requires epb > 0
    ensures Aligned(m * Width(epb, k), epb, k)
  {
    if k > 0 {
      assert m * Width(epb, k) == m * Width(epb, k - 1) * epb by {
        assert m * (epb * Width(epb, k - 1)) == m * Width(epb, k - 1) * epb;
      }
      MultipleDivides(m * Width(epb, k - 1), epb);
      WidthAligned(epb, m, k - 1);
    }
  }

  lemma {:induction false} LiftHoles(version: Version, digest: Digest, dnode: ObjectRecord, epb: nat, level: nat,
                                     levels: nat)
    requires epb > 0 && level <= levels
    ensures Lift(version, digest, dnode, Holes(Width(epb, levels - level)), epb, level, levels) == [HOLE]
    decreases levels - level
  {
    hide PropAt;
    if level < levels {
      var k := levels - level;
      assert Width(epb, k) == Width(epb, k - 1) * epb;
      UpHoles(version, digest, Width(epb, k - 1), epb, PropAt(dnode, level));
      LiftHoles(version, digest, dnode, epb, level + 1, levels);
    }
  }

  // ---------- One parent ----------

  lemma TopsSnoc(version: Version, ts: seq<Tree>, t: Tree)
    ensures Tops(version, ts + [t]) == Tops(version, ts) + [Normalized(version, t.raw)]
  {
    assert forall i :: 0 <= i < |ts| ==> (ts + [t])[i] == ts[i];
  }

  /** The pool reader hashes what the send side hashes. */
  lemma {:induction false} SameHashedBytes(version: Version, kids: seq<Tree>)
    ensures PortableBlock(version, BlockOf(kids)) == EncodeAll(version, Tops(version, kids))
    decreases |kids|
  {
    if kids != [] {
      var n := |kids| - 1;
      var front, last := kids[..n], kids[n];
      assert kids == front + [last];
      SameHashedBytes(version, front);
      TopsSnoc(version, front, last);
      var block := BlockOf(kids);
      assert block[..|block| - 128] == BlockOf(front) && block[|block| - 128..] == last.raw;
      PoolAuthIsNormalized(version, last.raw);
      assert Tops(version, kids)[..n] == Tops(version, front);
    }
  }

  /** A full group is hashed without padding. */
  lemma FullPreimage(version: Version, children: seq<Auth>)
    ensures Preimage(version, children, |children|) == EncodeAll(version, children)
  {
    hide EncodeAll;
    assert children + Holes(0) == children;
  }

  lemma HashedBlock(version: Version, digest: Digest, block: seq<Byte>, mac: Mac)
    requires IndirectMac(version, digest, block) == Some(mac)
    ensures digest(PortableBlock(version, block)) == mac
  {
    hide PortableBlock;
  }

  /** The parent built from the children of a checked block carries the MAC the check compared. */
  lemma CheckedParent(version: Version, digest: Digest, kids: seq<Tree>, prop: U64, mac: Mac)
    requires IndirectMac(version, digest, BlockOf(kids)) == Some(mac)
    ensures ParentOf(version, digest, Tops(version, kids), |kids|, prop)
         == if AllHoles(Tops(version, kids)) then HOLE else Auth(prop, mac)
  {
    hide Normalized;
    hide EncodeAll;
    hide PortableBlock;
    hide BlockOf;
    hide Tops;
    hide AllHoles;
    hide Preimage;
    hide IndirectMac;
    HashedBlock(version, digest, BlockOf(kids), mac);
    SameHashedBytes(version, kids);
    FullPreimage(version, Tops(version, kids));
  }

  lemma StoredMac(version: Version, raw: RawPointer)
    requires !IsHole(raw) && FieldOf(PropWord(raw), 0x1_0000_0000_0000, 0x100) != DMU_OT_OBJSET
    ensures Normalized(version, raw) == Auth(PoolProp(raw, version), raw[112..128])
  {
    hide FieldOf;
    hide PropWord;
    hide PoolProp;
    hide IsHole;
  }

  lemma StoredKid(version: Version, digest: Digest, dnode: ObjectRecord, kids: seq<Tree>, level: nat, epb: nat)
    requires AllSound(version, digest, dnode, kids, level, epb) && exists k :: k in kids && !IsHole(k.raw)
    ensures !AllHoles(Tops(version, kids))
  {
    hide Sound;
    hide IsHole;
    hide Normalized;
    var k :| k in kids && !IsHole(k.raw);
    SoundIsNotHole(version, digest, dnode, k, level, epb);
    var i :| 0 <= i < |kids| && kids[i] == k;
    assert Tops(version, kids)[i] != HOLE;
  }

  lemma ParentIsNormalized(version: Version, digest: Digest, dnode: ObjectRecord, t: Tree, level: nat, epb: nat)
    requires level > 0 && Sound(version, digest, dnode, t, level, epb) && !IsHole(t.raw)
    ensures |Tops(version, t.kids)| == epb
    ensures ParentOf(version, digest, Tops(version, t.kids), epb, PropAt(dnode, level)) == Normalized(version, t.raw)
  {
    hide FieldOf;
    hide IsHole;
    hide PoolProp;
    hide PropWord;
    hide IndirectProp;
    hide IndirectMac;
    hide BlockOf;
    hide Tops;
    hide ParentOf;
    hide Normalized;
    StoredKid(version, digest, dnode, t.kids, level - 1, epb);
    StoredMac(version, t.raw);
    CheckedParent(version, digest, t.kids, PropAt(dnode, level), t.raw[112..128]);
  }

  lemma HolesAreEmpty(version: Version, digest: Digest, dnode: ObjectRecord, t: Tree, level: nat, epb: nat)
    requires Sound(version, digest, dnode, t, level, epb) && IsHole(t.raw)
    ensures Normalized(version, t.raw) == HOLE
  {
    hide IsHole;
    hide Normalized;
  }

  lemma SoundIsNotHole(version: Version, digest: Digest, dnode: ObjectRecord, t: Tree, level: nat, epb: nat)
    requires Sound(version, digest, dnode, t, level, epb) && !IsHole(t.raw)
    ensures Normalized(version, t.raw).prop != 0
  {
    hide FieldOf;
  }

  // ---------- A whole tree ----------

  lemma {:induction false} LeavesWidth(version: Version, digest: Digest, dnode: ObjectRecord, t: Tree, level: nat, epb: nat)
    requires Sound(version, digest, dnode, t, level, epb)
    ensures |Leaves(version, t, epb, level)| == Width(epb, level)
    decreases level, 0
  {
    hide FieldOf;
    hide PoolProp;
    hide PropWord;
    hide IndirectProp;
    hide IndirectMac;
    hide BlockOf;
    hide IsHole;
    if level > 0 && !IsHole(t.raw) {
      AllLeavesWidth(version, digest, dnode, t.kids, level - 1, epb);
    }
  }

  lemma {:induction false} AllLeavesWidth(version: Version, digest: Digest, dnode: ObjectRecord, ts: seq<Tree>,
                                          level: nat, epb: nat)
    requires AllSound(version, digest, dnode, ts, level, epb)
    ensures |AllLeaves(version, ts, epb, level)| == |ts| * Width(epb, level)
    decreases level, |ts| + 1
  {
    hide Sound;
    if ts != [] {
      var n := |ts| - 1;
      assert ts[n] in ts;
      LeavesWidth(version, digest, dnode, ts[n], level, epb);
      AllLeavesWidth(version, digest, dnode, ts[..n], level, epb);
      assert |ts| * Width(epb, level) == n * Width(epb, level) + Width(epb, level) by { OneMore(n, Width(epb, level)); }
    }
  }

  /** Lifting the leaves below a sound tree gives its normalized pointer. */
  lemma {:induction false} TreeLifts(version: Version, digest: Digest, dnode: ObjectRecord, t: Tree, level: nat, epb: nat)
    requires epb > 0 && Sound(version, digest, dnode, t, level, epb)
    ensures Lift(version, digest, dnode, Leaves(version, t, epb, level), epb, 1, level + 1) == [Normalized(version, t.raw)]
    decreases level, 0
  {
    hide Sound;
    hide AllSound;
    hide Lift;
    hide PropAt;
    hide IsHole;
    hide Normalized;
    if level == 0 {
      LiftDone(version, digest, dnode, [Normalized(version, t.raw)], epb, 1, 1);
    } else if IsHole(t.raw) {
      LiftHoles(version, digest, dnode, epb, 1, level + 1);
      HolesAreEmpty(version, digest, dnode, t, level, epb);
    } else {
      SoundKids(version, digest, dnode, t, level, epb);
      TreesLift(version, digest, dnode, t.kids, level - 1, epb);
      LiftSnoc(version, digest, dnode, AllLeaves(version, t.kids, epb, level - 1), epb, 1, level);
      ParentIsNormalized(version, digest, dnode, t, level, epb);
      OneGroup(version, digest, Tops(version, t.kids), epb, PropAt(dnode, level));
    }
  }

  lemma LiftDone(version: Version, digest: Digest, dnode: ObjectRecord, row: seq<Auth>, epb: nat, level: nat, levels: nat)
    requires epb > 0 && level >= levels
    ensures Lift(version, digest, dnode, row, epb, level, levels) == row
  {
  }

  lemma SoundKids(version: Version, digest: Digest, dnode: ObjectRecord, t: Tree, level: nat, epb: nat)
    requires level > 0 && Sound(version, digest, dnode, t, level, epb) && !IsHole(t.raw)
    ensures AllSound(version, digest, dnode, t.kids, level - 1, epb)
  {
    hide FieldOf;
    hide PoolProp;
    hide PropWord;
    hide IndirectProp;
    hide IndirectMac;
    hide BlockOf;
    hide IsHole;
  }

  lemma OneGroup(version: Version, digest: Digest, row: seq<Auth>, epb: nat, prop: U64)
    requires epb > 0 && |row| == epb
    ensures Up(version, digest, row, epb, prop) == [ParentOf(version, digest, row, epb, prop)]
  {
    assert row[..epb] == row && row[epb..] == [];
  }

  lemma {:induction false} TreesLift(version: Version, digest: Digest, dnode: ObjectRecord, ts: seq<Tree>, level: nat,
                                     epb: nat)
    requires epb > 0 && AllSound(version, digest, dnode, ts, level, epb)
    ensures Lift(version, digest, dnode, AllLeaves(version, ts, epb, level), epb, 1, level + 1) == Tops(version, ts)
    decreases level, |ts| + 1
  {
    hide Sound;
    hide PropAt;
    if ts == [] {
      LiftNothing(version, digest, dnode, epb, 1, level + 1);
    } else {
      var n := |ts| - 1;
      var front, last := ts[..n], ts[n];
      assert last in ts && ts == front + [last];
      TreesLift(version, digest, dnode, front, level, epb);
      TreeLifts(version, digest, dnode, last, level, epb);
      AllLeavesWidth(version, digest, dnode, front, level, epb);
      WidthAligned(epb, n, level);
      LiftAppend(version, digest, dnode, AllLeaves(version, front, epb, level), Leaves(version, last, epb, level), epb,
                 1, level + 1);
      TopsSnoc(version, front, last);
    }
  }

  lemma {:induction false} LiftNothing(version: Version, digest: Digest, dnode: ObjectRecord, epb: nat, level: nat,
                                       levels: nat)
    requires epb > 0
    ensures Lift(version, digest, dnode, [], epb, level, levels) == []
    decreases levels - level
  {
    if level < levels {
      LiftNothing(version, digest, dnode, epb, level + 1, levels);
    }
  }

  // ---------- A leaf row cut at the object's last block ----------

  predicate HolesAfter(full: seq<Auth>, cut: seq<Auth>) { |cut| <= |full| && full == cut + Holes(|full| - |cut|) }

  /** Cutting trailing holes off a row cuts trailing holes off the row above. */
  lemma {:induction false} UpCut(version: Version, digest: Digest, full: seq<Auth>, cut: seq<Auth>, epb: nat, prop: U64)
    requires epb > 0 && |full| % epb == 0 && HolesAfter(full, cut)
    ensures HolesAfter(Up(version, digest, full, epb, prop), Up(version, digest, cut, epb, prop))
    decreases |full|
  {
    hide ParentOf;
    if cut == [] {
      MultipleOf(|full|, epb);
      UpHoles(version, digest, |full| / epb, epb, prop);
      assert full == Holes(|full| / epb * epb);
    } else {
      CutGroup(full, cut, epb);
      var n := Min(epb, |cut|);
      RemainderDrops(|full|, epb);
      UpCut(version, digest, full[epb..], cut[n..], epb, prop);
      PaddedGroup(version, digest, cut[..n], epb, prop);
      HolesAfterCons(ParentOf(version, digest, cut[..n], epb, prop), Up(version, digest, full[epb..], epb, prop),
                     Up(version, digest, cut[n..], epb, prop));
    }
  }

  lemma MultipleOf(n: nat, epb: nat)
    requires epb > 0 && n % epb == 0
    ensures n / epb * epb == n
    ensures n > 0 ==> epb <= n
  {
  }

  lemma CutGroup(full: seq<Auth>, cut: seq<Auth>, epb: nat)
    requires epb > 0 && |full| % epb == 0 && HolesAfter(full, cut) && cut != []
    ensures var n := Min(epb, |cut|);
            && epb <= |full| && full[..epb] == cut[..n] + Holes(epb - n) && HolesAfter(full[epb..], cut[n..])
  {
    var n := Min(epb, |cut|);
    assert epb <= |full| by { MultipleOf(|full|, epb); }
    var pad := Holes(|full| - |cut|);
    if |cut| >= epb {
      assert full[..epb] == cut[..epb] + Holes(0);
      assert full[epb..] == cut[epb..] + pad;
    } else {
      assert full[..epb] == cut + Holes(epb - n);
      assert full[epb..] == [] + Holes(|full| - epb);
    }
  }

  lemma HolesAfterCons(p: Auth, full: seq<Auth>, cut: seq<Auth>)
    requires HolesAfter(full, cut)
    ensures HolesAfter([p] + full, [p] + cut)
  {
  }

  lemma PaddedGroup(version: Version, digest: Digest, group: seq<Auth>, epb: nat, prop: U64)
    requires |group| <= epb
    ensures ParentOf(version, digest, group + Holes(epb - |group|), epb, prop) == ParentOf(version, digest, group, epb, prop)
  {
    var padded := group + Holes(epb - |group|);
    assert padded + Holes(0) == padded;
    if AllHoles(padded) {
      assert forall i :: 0 <= i < |group| ==> group[i] == padded[i];
    }
  }

  lemma {:induction false} LiftCut(version: Version, digest: Digest, dnode: ObjectRecord, full: seq<Auth>,
                                   cut: seq<Auth>, epb: nat, level: nat, levels: nat)
    requires epb > 0 && level <= levels && Aligned(|full|, epb, levels - level) && HolesAfter(full, cut)
    ensures HolesAfter(Lift(version, digest, dnode, full, epb, level, levels),
                       Lift(version, digest, dnode, cut, epb, level, levels))
    decreases levels - level
  {
    hide PropAt;
    if level < levels {
      var prop := PropAt(dnode, level);
      UpCut(version, digest, full, cut, epb, prop);
      UpLength(version, digest, full, epb, prop);
      LiftCut(version, digest, dnode, Up(version, digest, full, epb, prop), Up(version, digest, cut, epb, prop), epb,
              level + 1, levels);
    }
  }

  // ---------- Levels without valid properties hold nothing ----------

  /** Above a stored leaf every level's properties are valid. */
  lemma {:induction false} StoredKnowsProps(version: Version, digest: Digest, dnode: ObjectRecord, t: Tree, level: nat,
                                            epb: nat)
    requires Sound(version, digest, dnode, t, level, epb) && !IsHole(t.raw)
    ensures PropsKnown(dnode, level + 1)
    decreases level
  {
    hide FieldOf;
    hide IsHole;
    hide PoolProp;
    hide PropWord;
    hide IndirectProp;
    hide IndirectMac;
    hide BlockOf;
    if level > 0 {
      var k :| k in t.kids && !IsHole(k.raw);
      StoredKnowsProps(version, digest, dnode, k, level - 1, epb);
    }
  }

  lemma {:induction false} HolesHaveHoles(version: Version, ts: seq<Tree>, epb: nat, level: nat)
    requires forall t :: t in ts ==> IsHole(t.raw) && Normalized(version, t.raw) == HOLE
    ensures AllHoles(AllLeaves(version, ts, epb, level))
    decreases |ts|
  {
    hide IsHole;
    if ts != [] {
      var n := |ts| - 1;
      HolesHaveHoles(version, ts[..n], epb, level);
      AllHolesAppend(AllLeaves(version, ts[..n], epb, level), Leaves(version, ts[n], epb, level));
    }
  }

  /** The send side never misses a level's properties: a level without them has no stored pointer below the top. */
  lemma ClimbSucceeds(version: Version, digest: Digest, dnode: ObjectRecord, tops: seq<Tree>, cut: seq<Auth>, epb: nat)
    requires epb > 0 && dnode.levels >= 1 && AllSound(version, digest, dnode, tops, dnode.levels - 1, epb)
    requires HolesAfter(AllLeaves(version, tops, epb, dnode.levels - 1), cut)
    ensures Climb(version, digest, dnode, cut, epb, 1, dnode.levels).Ok?
  {
    hide Sound;
    hide IsHole;
    hide AllLeaves;
    hide AllHoles;
    hide Climb;
    hide IndirectProp;
    if stored :| stored in tops && !IsHole(stored.raw) {
      StoredKnowsProps(version, digest, dnode, stored, dnode.levels - 1, epb);
      ClimbWithProps(version, digest, dnode, cut, epb, 1, dnode.levels);
    } else {
      forall t | t in tops
        ensures IsHole(t.raw) && Normalized(version, t.raw) == HOLE
      {
        HolesAreEmpty(version, digest, dnode, t, dnode.levels - 1, epb);
      }
      HolesHaveHoles(version, tops, epb, dnode.levels - 1);
      AllHolesAppend(cut, Holes(|AllLeaves(version, tops, epb, dnode.levels - 1)| - |cut|));
      ClimbHoles(version, digest, dnode, cut, epb, 1, dnode.levels);
    }
  }

  // ---------- Main result ----------

  /** For every depth, fan-out and sparse leaf set: when the pool's tree passes the reader's checks and holds the
      leaves the send records describe, the send side's root pointers are the dnode's normalized top pointers. */
  lemma BottomUpIsTopDown(version: Version, digest: Digest, dnode: ObjectRecord, blocks: seq<RawBlockPointer>,
                          tops: seq<Tree>)
    requires 9 <= dnode.indirectBlockShift <= 24 && dnode.maxBlockId < MAX_LEAVES && dnode.levels >= 1
    requires |tops| == dnode.blockPointers
    requires EntriesPerBlock(dnode) > 0 && AllSound(version, digest, dnode, tops, dnode.levels - 1, EntriesPerBlock(dnode))
    requires LeafRow(version, blocks, dnode.maxBlockId + 1).Ok?
    requires HolesAfter(AllLeaves(version, tops, EntriesPerBlock(dnode), dnode.levels - 1),
                        LeafRow(version, blocks, dnode.maxBlockId + 1).value)
    ensures RootPointers(version, digest, dnode, blocks) == Ok(Tops(version, tops))
  {
    hide Sound;
    hide AllSound;
    hide LeafRow;
    hide IndirectProp;
    hide Shl1;
    hide Holes;
    hide AllLeaves;
    hide Tops;
    hide Climb;
    hide Lift;
    hide Width;
    var epb, level := EntriesPerBlock(dnode), dnode.levels - 1;
    var full, cut := AllLeaves(version, tops, epb, level), LeafRow(version, blocks, dnode.maxBlockId + 1).value;
    ClimbSucceeds(version, digest, dnode, tops, cut, epb);
    ClimbIsLift(version, digest, dnode, cut, epb, 1, dnode.levels);
    TreesLift(version, digest, dnode, tops, level, epb);
    AllLeavesWidth(version, digest, dnode, tops, level, epb);
    WidthAligned(epb, |tops|, level);
    LiftCut(version, digest, dnode, full, cut, epb, 1, dnode.levels);
  }
}
