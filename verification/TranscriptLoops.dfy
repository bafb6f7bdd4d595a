/** The loops of src/encrypted.rs that build and open dnode transcripts, against the functions of Transcript and
    DnodeDecryption. */
module TranscriptLoops {
  import opened Bytes
  import opened Records
  import opened RawLeaves
  import opened BlockPointers
  import opened Merkle
  import opened Transcript
  import opened TranscriptAgreement
  import opened DnodeDecryption

  // ---------- The on-disk block ----------

  method AppendPointers(version: Version, raw: seq<Byte>, pointers: nat) returns (aad: seq<Byte>)
    requires CORE + BLKPTR_SIZE * pointers <= |raw|
    ensures aad == PointerBytes(version, raw, pointers)
  {
    hide Encode;
    hide Normalized;
    aad := [];
    for index := 0 to pointers
      invariant aad == PointerBytes(version, raw, index)
    {
      var start := CORE + BLKPTR_SIZE * index;
      aad := aad + Encode(version, Normalized(version, raw[start..start + BLKPTR_SIZE]));
    }
  }

  /** One dnode: its share of the transcript, its region if encrypted, and where the next dnode starts. */
  method ScanDnode(version: Version, block: seq<Byte>, offset: nat) returns (run: Option<PoolRun>, end: nat)
    requires offset + SLOT <= |block|
    ensures run.None? <==> DnodeAt(block, offset).None?
    ensures run.Some? ==>
              var raw := DnodeAt(block, offset).value;
              run.value == PoolRun(PoolPart(version, raw), PoolRegions(raw, offset)) && end == offset + |raw|
  {
    hide Encode;
    hide Normalized;
    hide PortableCore;
    hide PointerBytes;
    hide HasSpill;
    hide BonusEncrypted;
    var size := SLOT * (1 + block[offset + 12] as int);
    end := offset + size;
    if end > |block| {
      return None, end;
    }
    var raw := block[offset..end];
    if BonusStart(raw) > BonusEnd(raw) {
      return None, end;
    }
    var aad := AppendPointers(version, raw, raw[3]);
    aad := PortableCore(raw[..CORE]) + aad;
    if HasSpill(raw[7]) {
      aad := aad + Encode(version, Normalized(version, raw[|raw| - BLKPTR_SIZE..]));
    } else {
      aad := aad + [];
    }
    var bonus := raw[BonusStart(raw)..BonusEnd(raw)];
    if BonusEncrypted(raw) {
      run := Some(PoolRun(Part(aad, bonus), [Region(offset + BonusStart(raw), |bonus|)]));
    } else {
      run := Some(PoolRun(Part(aad + bonus, []), []));
    }
  }

  lemma PoolAccumulates(acc: PoolRun, step: PoolRun, rest: Option<PoolRun>)
    ensures JoinPool(acc, JoinPool(step, rest))
         == JoinPool(PoolRun(JoinPart(acc.part, step.part), acc.regions + step.regions), rest)
  {
    if rest.Some? {
      var r := rest.value;
      assert acc.part.aad + (step.part.aad + r.part.aad) == acc.part.aad + step.part.aad + r.part.aad;
      assert acc.part.ciphertext + (step.part.ciphertext + r.part.ciphertext)
          == acc.part.ciphertext + step.part.ciphertext + r.part.ciphertext;
      assert acc.regions + (step.regions + r.regions) == acc.regions + step.regions + r.regions;
    }
  }

  lemma PoolStarts(rest: Option<PoolRun>)
    ensures JoinPool(PoolRun(Part([], []), []), rest) == rest
  {
    if rest.Some? {
      var r := rest.value;
      assert [] + r.part.aad == r.part.aad && [] + r.part.ciphertext == r.part.ciphertext && [] + r.regions == r.regions;
    }
  }

  lemma PoolEnds(acc: PoolRun)
    ensures JoinPool(acc, Some(PoolRun(Part([], []), []))) == Some(acc)
  {
    assert acc.part.aad + [] == acc.part.aad;
    assert acc.part.ciphertext + [] == acc.part.ciphertext && acc.regions + [] == acc.regions;
  }

  method ScanBlock(version: Version, block: seq<Byte>) returns (run: Option<PoolRun>)
    requires |block| % SLOT == 0
    ensures run == PoolScan(version, block, 0)
  {
    hide DnodeAt;
    hide PoolPart;
    hide PoolRegions;
    hide JoinPart;
    hide JoinPool;
    hide BonusStart;
    hide BonusEnd;
    var acc := PoolRun(Part([], []), []);
    var offset := 0;
    PoolStarts(PoolScan(version, block, 0));
    while offset < |block|
      invariant offset % SLOT == 0 && offset <= |block|
      invariant PoolScan(version, block, 0) == JoinPool(acc, PoolScan(version, block, offset))
      decreases |block| - offset
    {
      var step, end := ScanDnode(version, block, offset);
      if step.None? {
        assert JoinPool(acc, None).None? by { NoneJoins(acc); }
        return None;
      }
      PoolAccumulates(acc, step.value, PoolScan(version, block, end));
      acc := PoolRun(JoinPart(acc.part, step.value.part), acc.regions + step.value.regions);
      offset := end;
    }
    PoolEnds(acc);
    return Some(acc);
  }

  lemma NoneJoins(acc: PoolRun)
    ensures JoinPool(acc, None) == None
  {
  }

  /** The first region's share, and what it leaves. */
  lemma FillStep(block: seq<Byte>, regions: seq<Region>, k: nat, lo: nat, text: seq<Byte>)
    requires k < |regions| && Ordered(regions[k..], lo, |block|) && Total(regions[k..]) == |text|
    ensures var Region(start, length) := regions[k];
            && start + length <= |block| && length <= |text|
            && Ordered(regions[k + 1..], start + length, |block|) && Total(regions[k + 1..]) == |text| - length
            && Filled(block, regions[k..], lo, text)
               == Filled(Patched(block, start, text[..length]), regions[k + 1..], start + length, text[length..])
  {
    hide Patched;
    var rest := regions[k..];
    assert rest[0] == regions[k] && rest[1..] == regions[k + 1..];
    OrderedFits(rest[1..], rest[0].start + rest[0].length, |block|);
  }

  lemma FillNothing(block: seq<Byte>, lo: nat, text: seq<Byte>)
    requires lo <= |block| && text == []
    ensures Ordered([], lo, |block|) && Total([]) == 0 && Filled(block, [], lo, text) == block
  {
  }

  /** Writes each region's share of the plaintext into the output, front to back. */
  method FillRegions(output: array<Byte>, regions: seq<Region>, plaintext: seq<Byte>)
    requires Ordered(regions, 0, output.Length) && Total(regions) == |plaintext|
    modifies output
    ensures output[..] == Filled(old(output[..]), regions, 0, plaintext)
  {
    hide Filled;
    hide Ordered;
    hide Total;
    hide Patched;
    var cursor, k := 0, 0;
    ghost var lo := 0;
    assert regions[0..] == regions && plaintext[0..] == plaintext;
    while k < |regions|
      invariant k <= |regions| && cursor <= |plaintext|
      invariant Ordered(regions[k..], lo, output.Length) && Total(regions[k..]) == |plaintext| - cursor
      invariant Filled(output[..], regions[k..], lo, plaintext[cursor..]) == Filled(old(output[..]), regions, 0, plaintext)
    {
      var start, length := regions[k].start, regions[k].length;
      ghost var before := output[..];
      FillStep(before, regions, k, lo, plaintext[cursor..]);
      forall j | 0 <= j < length {
        output[start + j] := plaintext[cursor + j];
      }
      assert output[..] == Patched(before, start, plaintext[cursor..][..length]) by {
        PatchedAs(before, output[..], start, plaintext[cursor..][..length]);
      }
      assert plaintext[cursor..][length..] == plaintext[cursor + length..];
      lo := start + length;
      cursor, k := cursor + length, k + 1;
    }
    assert regions[k..] == [];
    OrderedFits([], lo, output.Length);
    assert Total([]) == 0 by { NoTotal(); }
    FillNothing(output[..], lo, plaintext[cursor..]);
  }

  lemma NoTotal()
    ensures Total([]) == 0
  {
  }

  lemma PatchedAs(before: seq<Byte>, after: seq<Byte>, start: nat, text: seq<Byte>)
    requires start + |text| <= |before| == |after| && after[start..start + |text|] == text
    requires after[..start] == before[..start] && after[start + |text|..] == before[start + |text|..]
    ensures after == Patched(before, start, text)
  {
  }

  /** `decrypt_pool_dnode_block`. */
  method DecryptPoolDnodeBlock(version: Version, aead: Aead, block: seq<Byte>) returns (decrypted: Option<seq<Byte>>)
    requires aead.KeepsLength()
    ensures decrypted == PoolDecrypted(version, aead, block)
  {
    hide PoolScan;
    hide Filled;
    hide Total;
    hide Ordered;
    if |block| % SLOT != 0 {
      return None;
    }
    var run := ScanBlock(version, block);
    if run.None? {
      return None;
    }
    if run.value.part.ciphertext == [] {
      return Some(block);
    }
    var plaintext := aead.open(run.value.part.aad, run.value.part.ciphertext);
    if plaintext.None? {
      return None;
    }
    PoolScanOrdered(version, block, 0);
    var output := new Byte[|block|](i requires 0 <= i < |block| => block[i]);
    assert output[..] == block;
    FillRegions(output, run.value.regions, plaintext.value);
    return Some(output[..]);
  }

  // ---------- The send records ----------

  method IndexByObject(dnodes: seq<RawDnode>) returns (table: Dnodes)
    ensures table == ByObject(dnodes)
  {
    table := map[];
    for i := 0 to |dnodes|
      invariant table == ByObject(dnodes[..i])
    {
      assert dnodes[..i + 1][..i] == dnodes[..i];
      table := FileDnode(table, dnodes[i]);
    }
    assert dnodes[..|dnodes|] == dnodes;
  }

  lemma SendAccumulates(acc: SendRun, step: SendRun, rest: Option<SendRun>)
    ensures JoinSend(acc, JoinSend(step, rest))
         == JoinSend(SendRun(JoinPart(acc.part, step.part), acc.bonuses + step.bonuses, acc.visited + step.visited), rest)
  {
    if rest.Some? {
      var r := rest.value;
      assert acc.part.aad + (step.part.aad + r.part.aad) == acc.part.aad + step.part.aad + r.part.aad;
      assert acc.part.ciphertext + (step.part.ciphertext + r.part.ciphertext)
          == acc.part.ciphertext + step.part.ciphertext + r.part.ciphertext;
      assert acc.bonuses + (step.bonuses + r.bonuses) == acc.bonuses + step.bonuses + r.bonuses;
      assert acc.visited + (step.visited + r.visited) == acc.visited + step.visited + r.visited;
    }
  }

  lemma SendStarts(rest: Option<SendRun>)
    ensures JoinSend(SendRun(Part([], []), [], {}), rest) == rest
  {
    if rest.Some? {
      var r := rest.value;
      assert [] + r.part.aad == r.part.aad && [] + r.part.ciphertext == r.part.ciphertext && [] + r.bonuses == r.bonuses;
      assert {} + r.visited == r.visited;
    }
  }

  lemma SendEnds(acc: SendRun)
    ensures JoinSend(acc, Some(SendRun(Part([], []), [], {}))) == Some(acc)
    ensures JoinSend(acc, None) == None
  {
    assert acc.part.aad + [] == acc.part.aad;
    assert acc.part.ciphertext + [] == acc.part.ciphertext && acc.bonuses + [] == acc.bonuses;
    assert acc.visited + {} == acc.visited;
  }

  method AppendRoots(version: Version, roots: seq<Auth>) returns (aad: seq<Byte>)
    ensures aad == EncodeAll(version, roots)
  {
    hide Encode;
    aad := [];
    for i := 0 to |roots|
      invariant aad == EncodeAll(version, roots[..i])
    {
      assert roots[..i + 1][..i] == roots[..i];
      aad := aad + Encode(version, roots[i]);
    }
    assert roots[..|roots|] == roots;
  }

  method ScanSendDnode(version: Version, digest: Digest, range: ObjectRangeRecord, d: RawDnode,
                       rangeEnd: nat) returns (step: Option<SendRun>)
    ensures step == SendStep(version, digest, range, d, rangeEnd)
  {
    hide RootPointers;
    hide DnodeCore;
    hide EncodeAll;
    hide SendEncrypted;
    hide IsEncryptedObjectType;
    if !ValidDnode(range, d, rangeEnd) {
      return None;
    }
    hide ValidDnode;
    var core, spill := DnodeCore(d.record), SpillBytes(version, d);
    var roots := ComputeRootPointers(version, digest, d.record, d.blocks);
    if core.None? || roots.Err? || spill.None? {
      return None;
    }
    var aad := AppendRoots(version, roots.value);
    aad := core.value + aad + spill.value;
    var max := MaxBonus(d.record).value;
    if SendEncrypted(d.record) {
      if |d.bonus| != max {
        return None;
      }
      return Some(SendRun(Part(aad, d.bonus), [Bonus(d.record.objectId, max)], {d.record.objectId}));
    }
    if |d.bonus| > max {
      return None;
    }
    return Some(SendRun(Part(aad + (d.bonus + Zeros(max - |d.bonus|)), []), [], {d.record.objectId}));
  }

  method ScanRange(version: Version, digest: Digest, range: ObjectRangeRecord, table: Dnodes,
                   rangeEnd: nat) returns (run: Option<SendRun>)
    requires rangeEnd <= U64_MAX && Filed(table)
    ensures run == SendScan(version, digest, range, table, range.firstObject, rangeEnd)
  {
    hide SendPart;
    hide SendBonuses;
    hide MaxBonus;
    hide JoinPart;
    hide JoinSend;
    hide Filed;
    var acc := SendRun(Part([], []), [], {});
    var objectId: nat := range.firstObject;
    SendStarts(SendScan(version, digest, range, table, objectId, rangeEnd));
    while objectId < rangeEnd
      invariant SendScan(version, digest, range, table, range.firstObject, rangeEnd)
             == JoinSend(acc, SendScan(version, digest, range, table, objectId, rangeEnd))
      decreases rangeEnd - objectId
    {
      var step := Some(SendRun(Part(Zeros(SLOT), []), [], {}));
      var next := objectId + 1;
      if objectId in table {
        step := ScanSendDnode(version, digest, range, table[objectId], rangeEnd);
        if step.None? {
          SendEnds(acc);
          return None;
        }
        next := objectId + table[objectId].record.dnodeSlots;
      }
      SendAccumulates(acc, step.value, SendScan(version, digest, range, table, next, rangeEnd));
      acc := SendRun(JoinPart(acc.part, step.value.part), acc.bonuses + step.value.bonuses,
                     acc.visited + step.value.visited);
      objectId := next;
    }
    SendEnds(acc);
    return Some(acc);
  }

  method CutBonuses(bonuses: seq<Bonus>, plaintext: seq<Byte>) returns (byObject: map<U64, seq<Byte>>)
    requires BonusTotal(bonuses) == |plaintext| && Ascending(bonuses, 0)
    ensures byObject == Cut(bonuses, plaintext)
  {
    hide Ascending;
    hide Cut;
    hide BonusTotal;
    byObject := map[];
    var cursor: nat, k: nat := 0, 0;
    assert bonuses[0..] == bonuses && plaintext[0..] == plaintext;
    while k < |bonuses|
      invariant k <= |bonuses| && cursor <= |plaintext|
      invariant BonusTotal(bonuses[k..]) == |plaintext| - cursor
      invariant Cut(bonuses, plaintext) == byObject + Cut(bonuses[k..], plaintext[cursor..])
    {
      CutStep(bonuses, plaintext, k, cursor);
      var end := cursor + bonuses[k].length;
      InsertFirst(byObject, bonuses[k].objectId, plaintext[cursor..end], Cut(bonuses[k + 1..], plaintext[end..]));
      byObject := byObject[bonuses[k].objectId := plaintext[cursor..end]];
      cursor, k := end, k + 1;
    }
    CutNothing(bonuses[k..], plaintext[cursor..]);
  }

  lemma CutNothing(bonuses: seq<Bonus>, plaintext: seq<Byte>)
    requires bonuses == []
    ensures Cut(bonuses, plaintext) == map[]
  {
  }

  lemma InsertFirst(front: map<U64, seq<Byte>>, id: U64, text: seq<Byte>, later: map<U64, seq<Byte>>)
    ensures front + (map[id := text] + later) == front[id := text] + later
  {
  }

  lemma CutStep(bonuses: seq<Bonus>, plaintext: seq<Byte>, k: nat, cursor: nat)
    requires k < |bonuses| && cursor <= |plaintext| && BonusTotal(bonuses[k..]) == |plaintext| - cursor
    ensures var end := cursor + bonuses[k].length;
            && end <= |plaintext| && BonusTotal(bonuses[k + 1..]) == |plaintext| - end
            && Cut(bonuses[k..], plaintext[cursor..])
               == map[bonuses[k].objectId := plaintext[cursor..end]] + Cut(bonuses[k + 1..], plaintext[end..])
  {
    var end := cursor + bonuses[k].length;
    assert bonuses[k..][0] == bonuses[k] && bonuses[k..][1..] == bonuses[k + 1..];
    assert plaintext[cursor..][..bonuses[k].length] == plaintext[cursor..end];
    assert plaintext[cursor..][bonuses[k].length..] == plaintext[end..];
  }

  /** One dnode asks for at most one bonus, its own, and as long as the ciphertext it adds. */
  predicate OneBonus(step: SendRun, id: nat) {
    && |step.bonuses| <= 1 && BonusTotal(step.bonuses) == |step.part.ciphertext|
    && (step.bonuses != [] ==> step.bonuses[0].objectId == id)
  }

  lemma StepHasOneBonus(version: Version, digest: Digest, range: ObjectRangeRecord, d: RawDnode, rangeEnd: nat)
    requires SendStep(version, digest, range, d, rangeEnd).Some?
    ensures d.record.dnodeSlots > 0 && OneBonus(SendStep(version, digest, range, d, rangeEnd).value, d.record.objectId)
  {
    hide RootPointers;
    hide DnodeCore;
    hide SpillBytes;
    hide EncodeAll;
    var bonuses := SendBonuses(d.record);
    assert bonuses != [] ==> bonuses[1..] == [] && BonusTotal(bonuses) == bonuses[0].length;
  }

  lemma FreeSlotHasNone(at: nat)
    ensures OneBonus(SendRun(Part(Zeros(SLOT), []), [], {}), at)
  {
  }

  lemma JoinAscends(step: SendRun, rest: SendRun, at: nat, next: nat)
    requires OneBonus(step, at) && at < next && Ascending(rest.bonuses, next)
    requires BonusTotal(rest.bonuses) == |rest.part.ciphertext|
    ensures var run := JoinSend(step, Some(rest)).value;
            Ascending(run.bonuses, at) && BonusTotal(run.bonuses) == |run.part.ciphertext|
  {
    AscendingFromLower(rest.bonuses, at + 1, next);
    AscendingFromLower(rest.bonuses, at, next);
    if step.bonuses == [] {
      assert [] + rest.bonuses == rest.bonuses;
    } else {
      assert step.bonuses[1..] == [] && BonusTotal(step.bonuses) == step.bonuses[0].length;
      assert (step.bonuses + rest.bonuses)[1..] == rest.bonuses;
    }
  }

  lemma {:induction false} ScanAscends(version: Version, digest: Digest, range: ObjectRangeRecord, table: Dnodes,
                                       at: nat, rangeEnd: nat)
    requires rangeEnd <= U64_MAX && Filed(table) && SendScan(version, digest, range, table, at, rangeEnd).Some?
    ensures var run := SendScan(version, digest, range, table, at, rangeEnd).value;
            Ascending(run.bonuses, at) && BonusTotal(run.bonuses) == |run.part.ciphertext|
    decreases rangeEnd - at
  {
    hide SendStep;
    hide OneBonus;
    if at < rangeEnd {
      var size := if at in table then table[at].record.dnodeSlots else 1;
      var step := SendRun(Part(Zeros(SLOT), []), [], {});
      if at in table {
        StepHasOneBonus(version, digest, range, table[at], rangeEnd);
        step := SendStep(version, digest, range, table[at], rangeEnd).value;
      } else {
        FreeSlotHasNone(at);
      }
      ScanAscends(version, digest, range, table, at + size, rangeEnd);
      JoinAscends(step, SendScan(version, digest, range, table, at + size, rangeEnd).value, at, at + size);
    }
  }

  /** `decrypt_dnode_bonuses`. */
  method DecryptDnodeBonuses(version: Version, aead: Aead, digest: Digest, range: ObjectRangeRecord, dnodes: seq<RawDnode>)
    returns (bonuses: Option<map<U64, seq<Byte>>>)
    requires aead.KeepsLength()
    ensures bonuses == SendDecrypted(version, aead, digest, range, dnodes)
  {
    hide SendScan;
    hide ByObject;
    hide Cut;
    hide BonusTotal;
    if range.flags / 2 % 2 == 1 || range.objectSlots != 32 || range.firstObject + 32 > U64_MAX {
      return None;
    }
    var table := IndexByObject(dnodes);
    if |table| != |dnodes| {
      return None;
    }
    var run := ScanRange(version, digest, range, table, range.firstObject + 32);
    if run.None? || |run.value.visited| != |dnodes| {
      return None;
    }
    ScanAscends(version, digest, range, table, range.firstObject, range.firstObject + 32);
    AscendingFromLower(run.value.bonuses, 0, range.firstObject);
    var plaintext := aead.open(run.value.part.aad, run.value.part.ciphertext);
    if plaintext.None? {
      return None;
    }
    var cut := CutBonuses(run.value.bonuses, plaintext.value);
    return Some(cut);
  }
}
