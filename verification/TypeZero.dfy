/** The one way the two transcripts of a dnode block part: a send the program accepts, with a dnode of object type
    zero whose bonus is encrypted. */
module TypeZero {
  import opened Bytes
  import opened Records
  import opened RawLeaves
  import opened BlockPointers
  import opened Merkle
  import opened Transcript
  import opened TranscriptAgreement
  import DnodeDecryption

  const RANGE: ObjectRangeRecord := ObjectRangeRecord(0, 32, Crypt([], [], Zeros(16)), 0)

  /** One slot, one hole pointer, a system-attribute bonus that fills the rest of the dnode, and no object type. */
  const RECORD: ObjectRecord := ObjectRecord(0, 0, 44, 512, 8, 0, 0, 1, 0, 9, 1, 1, 0)

  const DNODE: RawDnode := RawDnode(RECORD, Zeros(320), [], None)

  function CoreBytes(): seq<Byte> {
    [0, 9, 1, 1, 44, 0, 0, 0] + [1, 0] + [8, 0] + [0, 0, 0, 0] + Zeros(48)
  }

  /** The dnode on disk, and the block it opens. */
  function DnodeBytes(): (raw: seq<Byte>)
    ensures |raw| == SLOT
  {
    CoreBytes() + Zeros(128) + Zeros(320)
  }

  function BlockBytes(): (block: seq<Byte>)
    ensures |block| == 32 * SLOT
  {
    DnodeBytes() + Zeros(31 * SLOT)
  }

  lemma Table()
    ensures ByObject([DNODE]) == map[0 := DNODE]
  {
    assert [DNODE][..0] == [];
    assert ByObject([]) == map[];
  }

  // ---------- The send side accepts it ----------

  lemma Roots(digest: Digest)
    ensures RootPointers(1, digest, RECORD, []) == Ok([HOLE])
  {
    Shl1Monotone(0, 2);
    assert Shl1(1) == 2 && Shl1(2) == 4;
    assert LeafRow(1, [], 1) == Ok(Holes(1));
    assert Climb(1, digest, RECORD, Holes(1), EntriesPerBlock(RECORD), 1, 1) == Ok(Holes(1));
    assert Holes(1) + Holes(0) == [HOLE];
  }

  lemma CoreAccepted()
    ensures DnodeCore(RECORD).Some? && MaxBonus(RECORD) == Some(320) && SendEncrypted(RECORD) && SpillBytes(1, DNODE)
        == Some([])
  {
  }

  lemma StepAccepted(digest: Digest)
    ensures var step := SendStep(1, digest, RANGE, DNODE, 32);
            step.Some? && step.value.visited == {0}
  {
    hide RootPointers;
    hide DnodeCore;
    hide EncodeAll;
    Roots(digest);
    CoreAccepted();
    assert ValidDnode(RANGE, DNODE, 32);
  }

  /** Free slots behind the last dnode. */
  lemma {:induction false} FreeTail(digest: Digest, table: Dnodes, at: nat)
    requires 1 <= at <= 32 && Filed(table) && table.Keys == {0}
    ensures var run := SendScan(1, digest, RANGE, table, at, 32);
            run.Some? && run.value.visited == {}
    decreases 32 - at
  {
    if at < 32 {
      FreeTail(digest, table, at + 1);
      assert at !in table;
    }
  }

  lemma ScanAccepted(digest: Digest)
    ensures var run := SendScan(1, digest, RANGE, map[0 := DNODE], 0, 32);
            run.Some? && run.value.visited == {0}
  {
    hide SendStep;
    hide RootPointers;
    StepAccepted(digest);
    FreeTail(digest, map[0 := DNODE], 1);
    var rest := SendScan(1, digest, RANGE, map[0 := DNODE], 1, 32).value;
    assert {0 as U64} + rest.visited == {0};
  }

  lemma SendAccepts(digest: Digest)
    ensures SendTranscript(1, digest, RANGE, [DNODE]).Some?
  {
    hide SendScan;
    hide ByObject;
    Table();
    ScanAccepted(digest);
    assert |{0 as U64}| == 1;
  }

  // ---------- The block is laid out from it ----------

  lemma {:induction false} FreeSlots(digest: Digest, table: Dnodes, slot: nat)
    requires 1 <= slot <= 32 && table.Keys == {0}
    ensures LaidOut(1, digest, BlockBytes(), table, 0, slot)
    decreases 32 - slot
  {
    hide DnodeBytes;
    if slot < 32 {
      FreeSlots(digest, table, slot + 1);
      assert slot !in table;
      assert BlockBytes()[SLOT * slot..SLOT * (slot + 1)] == Zeros(SLOT);
    }
  }

  lemma CoreLaidOut()
    ensures |CoreBytes()| == CORE && CoreOnDisk(CoreBytes(), RECORD)
  {
    var core := CoreBytes();
    assert core[8..10] == [1, 0] && core[10..12] == [8, 0] && core[13..16] == Zeros(3);
    assert core[16..24] == Zeros(8) && core[32..] == Zeros(32);
    assert [1, 0][1..] == [0] && [8, 0][1..] == [0] && [0][1..] == [];
    assert FromLittleEndian([0]) == 0 && FromLittleEndian([1, 0]) == 1 && FromLittleEndian([8, 0]) == 8;
    ZeroNumber(8);
  }

  lemma {:induction false} ZeroNumber(width: nat)
    ensures FromLittleEndian(Zeros(width)) == 0
  {
    if width > 0 {
      ZeroNumber(width - 1);
      assert Zeros(width)[1..] == Zeros(width - 1);
    }
  }

  lemma ZeroPointer()
    ensures Normalized(1, Zeros(128)) == HOLE
  {
    var raw: RawPointer := Zeros(128);
    assert raw[48..56] == Zeros(8) && Zeros(8)[..4] == Zeros(4) && Zeros(8)[4..] == Zeros(4);
    assert PropWord(raw) == 0;
    assert IsHole(raw);
    HoleIsNormalized(raw);
  }

  lemma DnodeLaidOut(digest: Digest)
    ensures DnodeOnDisk(1, digest, DnodeBytes(), DNODE)
  {
    hide RootPointers;
    hide CoreOnDisk;
    hide Normalized;
    Roots(digest);
    CoreLaidOut();
    CoreAccepted();
    ZeroPointer();
    var raw := DnodeBytes();
    assert raw[..CORE] == CoreBytes();
    assert raw[64..192] == Zeros(128) && raw[192..512] == Zeros(320) && Zeros(320) + Zeros(0) == Zeros(320);
  }

  lemma BlockLaidOut(digest: Digest)
    ensures LaidOut(1, digest, BlockBytes(), ByObject([DNODE]), 0, 0)
  {
    hide DnodeOnDisk;
    hide ByObject;
    Table();
    DnodeLaidOut(digest);
    FreeSlots(digest, ByObject([DNODE]), 1);
    hide DnodeBytes;
    assert BlockBytes()[0..SLOT] == DnodeBytes();
  }

  /** An accepted send and a block laid out from it whose two transcripts differ. */
  lemma TypeZeroDiffers(digest: Digest)
    ensures SendTranscript(1, digest, RANGE, [DNODE]).Some?
    ensures LaidOut(1, digest, BlockBytes(), ByObject([DNODE]), 0, 0)
    ensures !AllTyped(ByObject([DNODE]), ByObject([DNODE]).Keys)
    ensures PoolScan(1, BlockBytes(), 0).Some?
            && PoolScan(1, BlockBytes(), 0).value.part != SendTranscript(1, digest, RANGE, [DNODE]).value.part
  {
    hide BlockBytes;
    hide LaidOut;
    hide SendTranscript;
    hide PoolScan;
    hide ByObject;
    SendAccepts(digest);
    BlockLaidOut(digest);
    Table();
    CoreAccepted();
    assert 0 in ByObject([DNODE]) && !Typed(ByObject([DNODE])[0].record);
    DnodeDecryption.SameTranscript(1, digest, RANGE, [DNODE], BlockBytes());
  }
}
