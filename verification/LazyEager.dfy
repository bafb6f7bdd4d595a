/** Both replays describe one file: the lazily read image and the eagerly rewritten file agree byte for
    byte, except for bytes the lazy side alone discarded when a live object's type changed. */
module LazyEager {
  import opened Bytes
  import opened Records
  import opened Sparse
  import opened Segments
  import opened Replay
  import opened StreamImages

  // ---------- Hypotheses ----------

  /** Every record's payload lies in the send file behind its header, as the stream reader found it. */
  ghost predicate Indexed(file: seq<Byte>, records: seq<Record>) {
    forall r :: r in records ==> InFile(file, r)
  }

  predicate InFile(file: seq<Byte>, r: Record) {
    Slice(file, r.streamOffset + RECORD_SIZE, |r.payload|) == Some(r.payload)
  }

  // ---------- Bytes only the eager side keeps ----------

  /** The places the lazy side dropped at a type change and nothing has rewritten since. */
  function StaleStep(id: U64, st: Lazy, stale: Owners, record: Record): Owners {
    if !st.active then stale
    else
      match record.kind
      case Object(dnode) =>
        if dnode.objectId != id then stale
        else if !st.live then map[]
        else if st.objectType != Some(dnode.objectType) then stale + st.owners
        else stale
      case Write(write) => if write.objectId != id then stale else Without(stale, write.offset, write.offset + write.logicalSize)
      case WriteEmbedded(write) =>
        if write.objectId != id then stale else Without(stale, write.offset, RangeEnd(write.offset, write.length))
      case Free(objectId, offset, length) =>
        if objectId != id then stale else Without(stale, offset, RangeEnd(offset, length))
      case FreeObjects(first, count) => if Covers(first, count, id) then map[] else stale
      case _ => stale
  }

  function Stale(codec: Codec, plan: Plan, id: U64, records: seq<Record>): Owners
    decreases |records|
  {
    if records == [] then map[]
    else
      var earlier := records[..|records| - 1];
      var st := LazyRun(codec, plan, id, earlier);
      if st.None? then map[]
      else StaleStep(id, st.value, Stale(codec, plan, id, earlier), records[|records| - 1])
  }

  // ---------- What the eager side stored ----------

  type Texts = map<nat, seq<Byte>>

  /** The plaintext extraction stores for a record of the target. */
  function StoredText(codec: Codec, plan: Plan, id: U64, st: Eager, r: Record): Option<seq<Byte>> {
    match r.kind
    case Write(write) => if write.objectId != id then None else WriteText(codec, plan, st, write, r.payload)
    case WriteEmbedded(write) => if write.objectId != id || plan.raw then None else EmbeddedText(codec, write, r.payload)
    case _ => None
  }

  function StoredStep(codec: Codec, plan: Plan, id: U64, eager: Eager, lazy: Lazy, texts: Texts, r: Record): Texts {
    var text := StoredText(codec, plan, id, eager, r);
    if lazy.active && text.Some? then texts[lazy.nextId := text.value] else texts
  }

  /** By block id, what extraction stored for the record that became the block. */
  function Stored(codec: Codec, plan: Plan, id: U64, records: seq<Record>): Texts
    decreases |records|
  {
    if records == [] then map[]
    else
      var earlier := records[..|records| - 1];
      var eager, lazy := EagerRun(codec, plan, id, earlier), LazyRun(codec, plan, id, earlier);
      if eager.None? || lazy.None? then map[]
      else StoredStep(codec, plan, id, eager.value, lazy.value, Stored(codec, plan, id, earlier), records[|records| - 1])
  }

  /** The byte extraction stored at a place of a block. */
  function StoredByte(texts: Texts, place: Place): Byte {
    if place.block.id in texts && place.position < |texts[place.block.id]| then texts[place.block.id][place.position] else 0
  }

  /** A block whose substream is raw under a plan that is not, or the other way round. */
  predicate Mixed(plan: Plan, block: BlockDescriptor) {
    match block.encoding
    case Raw(_, _, _, _) => !plan.raw
    case Replay(_) => plan.raw
    case Embedded(_, _, _) => false
  }

  // ---------- The relation both runs keep ----------

  /** The file holds at i the byte stored at a place, and a block that is not mixed decodes to what was stored. */
  ghost predicate HoldsPlace(codec: Codec, plan: Plan, file: seq<Byte>, keys: seq<Key>, texts: Texts, place: Place,
                             data: seq<Byte>, i: nat) {
    && place.block.id in texts && |texts[place.block.id]| == place.block.logicalLen
    && place.position < place.block.logicalLen && At(data, i) == texts[place.block.id][place.position]
    && (!Mixed(plan, place.block) ==> Decoded(codec, file, keys, place.block) == Some(texts[place.block.id]))
  }

  /** Offset i agrees: the byte stored for the block that owns it, or for the block it was dropped from, or zero. */
  ghost predicate Agrees(codec: Codec, plan: Plan, file: seq<Byte>, keys: seq<Key>, texts: Texts, owners: Owners, stale: Owners,
                         data: seq<Byte>, i: nat) {
    if i in owners then i !in stale && HoldsPlace(codec, plan, file, keys, texts, owners[i], data, i)
    else if i in stale then HoldsPlace(codec, plan, file, keys, texts, stale[i], data, i)
    else At(data, i) == 0
  }

  ghost predicate Related(codec: Codec, plan: Plan, file: seq<Byte>, eager: Eager, lazy: Lazy, stale: Owners, texts: Texts) {
    && eager.active == lazy.active && eager.seen == lazy.seen && eager.live == lazy.live
    && (lazy.live <==> lazy.objectType.Some?)
    && (lazy.active && plan.raw && lazy.key.Some? ==>
          lazy.key.value < |lazy.keys| && eager.key == Some(lazy.keys[lazy.key.value]))
    && (forall k :: k in texts ==> k < lazy.nextId)
    && (forall i: nat :: i < U64_MAX ==> Agrees(codec, plan, file, lazy.keys, texts, lazy.owners, stale, eager.data, i))
  }

  // ---------- One kind of change at a time ----------

  lemma AgreesAfterKey(codec: Codec, plan: Plan, file: seq<Byte>, keys: seq<Key>, key: Key, texts: Texts, owners: Owners,
                       stale: Owners, data: seq<Byte>, i: nat)
    requires Agrees(codec, plan, file, keys, texts, owners, stale, data, i)
    ensures Agrees(codec, plan, file, keys + [key], texts, owners, stale, data, i)
  {
  }

  lemma AgreesAfterText(codec: Codec, plan: Plan, file: seq<Byte>, keys: seq<Key>, texts: Texts, fresh_: nat, text: seq<Byte>,
                        owners: Owners, stale: Owners, data: seq<Byte>, i: nat)
    requires Agrees(codec, plan, file, keys, texts, owners, stale, data, i) && fresh_ !in texts
    ensures Agrees(codec, plan, file, keys, texts[fresh_ := text], owners, stale, data, i)
  {
    hide Decoded;
  }

  lemma AgreesAfterFree(codec: Codec, plan: Plan, file: seq<Byte>, keys: seq<Key>, texts: Texts, owners: Owners, stale: Owners,
                        data: seq<Byte>, offset: U64, length: U64, i: nat)
    requires RangeFits(offset, length) && i < U64_MAX
    requires Agrees(codec, plan, file, keys, texts, owners, stale, data, i)
    ensures Agrees(codec, plan, file, keys, texts, Without(owners, offset, RangeEnd(offset, length)),
                   Without(stale, offset, RangeEnd(offset, length)), Zeroed(data, offset, length), i)
  {
    hide Decoded;
    ZeroedBytes(data, offset, length);
  }

  lemma AgreesAfterWrite(codec: Codec, plan: Plan, file: seq<Byte>, keys: seq<Key>, texts: Texts, owners: Owners, stale: Owners,
                         data: seq<Byte>, offset: U64, block: BlockDescriptor, plaintext: seq<Byte>, i: nat)
    requires i < U64_MAX && Agrees(codec, plan, file, keys, texts, owners, stale, data, i)
    requires block.id in texts && texts[block.id] == plaintext && |plaintext| == block.logicalLen
    requires !Mixed(plan, block) ==> Decoded(codec, file, keys, block) == Some(plaintext)
    requires Extent(data, offset, plaintext).0
    ensures Agrees(codec, plan, file, keys, texts, With(owners, offset, block.logicalLen, block),
                   Without(stale, offset, offset + block.logicalLen), Extent(data, offset, plaintext).1, i)
  {
    hide Decoded;
    hide Extent;
    hide Mixed;
    ExtentBytes(data, offset, plaintext);
    assert InSpan(i, offset, block.logicalLen) <==> i in Fresh(offset, block.logicalLen, block);
  }

  /** A block that is not mixed decodes to what extraction stored for its record. */
  lemma BlockDecodesAsStored(codec: Codec, plan: Plan, file: seq<Byte>, eager: Eager, lazy: Lazy, r: Record, write: WriteRecord)
    requires codec.Exact() && InFile(file, r) && lazy.active && WriteText(codec, plan, eager, write, r.payload).Some?
    requires plan.raw && lazy.key.Some? ==> lazy.key.value < |lazy.keys| && eager.key == Some(lazy.keys[lazy.key.value])
    ensures var block := WriteBlock(codec, lazy, r, write);
            !Mixed(plan, block) ==> Decoded(codec, file, lazy.keys, block) == WriteText(codec, plan, eager, write, r.payload)
  {
    var block := WriteBlock(codec, lazy, r, write);
    if !Mixed(plan, block) {
      assert DecodedPayload(codec, lazy.keys, block, r.payload) == WriteText(codec, plan, eager, write, r.payload);
    }
  }

  lemma WriteRelated(codec: Codec, plan: Plan, file: seq<Byte>, eager: Eager, lazy: Lazy, stale: Owners, texts: Texts, r: Record,
                     write: WriteRecord)
    requires codec.Exact() && InFile(file, r) && Related(codec, plan, file, eager, lazy, stale, texts) && lazy.active
    requires EagerWrite(codec, plan, eager, write, r.payload).Some? && LazyWrite(codec, lazy, r, write).Some?
    ensures WriteText(codec, plan, eager, write, r.payload).Some?
    ensures Related(codec, plan, file, EagerWrite(codec, plan, eager, write, r.payload).value,
                    LazyWrite(codec, lazy, r, write).value, Without(stale, write.offset, write.offset + write.logicalSize),
                    texts[lazy.nextId := WriteText(codec, plan, eager, write, r.payload).value])
  {
    hide Decoded;
    hide Extent;
    hide Mixed;
    hide WriteText;
    var block, plaintext := WriteBlock(codec, lazy, r, write), WriteText(codec, plan, eager, write, r.payload).value;
    BlockDecodesAsStored(codec, plan, file, eager, lazy, r, write);
    var more := texts[lazy.nextId := plaintext];
    var owners := With(lazy.owners, write.offset, write.logicalSize, block);
    var left := Without(stale, write.offset, write.offset + write.logicalSize);
    var data := Extent(eager.data, write.offset, plaintext).1;
    forall i: nat | i < U64_MAX
      ensures Agrees(codec, plan, file, lazy.keys, more, owners, left, data, i)
    {
      AgreesAfterText(codec, plan, file, lazy.keys, texts, lazy.nextId, plaintext, lazy.owners, stale, eager.data, i);
      AgreesAfterWrite(codec, plan, file, lazy.keys, more, lazy.owners, stale, eager.data, write.offset, block, plaintext, i);
    }
  }

  lemma EmbeddedDecodesAsStored(codec: Codec, file: seq<Byte>, lazy: Lazy, r: Record, write: EmbeddedRecord)
    requires codec.Exact() && InFile(file, r) && EmbeddedText(codec, write, r.payload).Some?
    ensures Decoded(codec, file, lazy.keys, EmbeddedBlock(codec, lazy, r, write)) == EmbeddedText(codec, write, r.payload)
  {
    var block := EmbeddedBlock(codec, lazy, r, write);
    assert DecodedPayload(codec, lazy.keys, block, r.payload) == EmbeddedText(codec, write, r.payload);
  }

  lemma EmbeddedRelated(codec: Codec, plan: Plan, file: seq<Byte>, eager: Eager, lazy: Lazy, stale: Owners, texts: Texts, r: Record,
                        write: EmbeddedRecord)
    requires codec.Exact() && InFile(file, r) && Related(codec, plan, file, eager, lazy, stale, texts) && lazy.active
    requires EagerEmbedded(codec, plan, eager, write, r.payload).Some? && LazyEmbedded(codec, lazy, r, write).Some?
    ensures EmbeddedText(codec, write, r.payload).Some?
    ensures Related(codec, plan, file, EagerEmbedded(codec, plan, eager, write, r.payload).value,
                    LazyEmbedded(codec, lazy, r, write).value, Without(stale, write.offset, RangeEnd(write.offset, write.length)),
                    texts[lazy.nextId := EmbeddedText(codec, write, r.payload).value])
  {
    hide Decoded;
    hide Extent;
    hide EmbeddedText;
    var block, plaintext := EmbeddedBlock(codec, lazy, r, write), EmbeddedText(codec, write, r.payload).value;
    EmbeddedDecodesAsStored(codec, file, lazy, r, write);
    assert |plaintext| == write.logicalSize <= write.length;
    var more := texts[lazy.nextId := plaintext];
    var owners := Without(lazy.owners, write.offset, RangeEnd(write.offset, write.length));
    var outside := Without(stale, write.offset, RangeEnd(write.offset, write.length));
    var zeroed := Zeroed(eager.data, write.offset, write.length);
    assert Without(outside, write.offset, write.offset + write.logicalSize) == outside;
    forall i: nat | i < U64_MAX
      ensures Agrees(codec, plan, file, lazy.keys, more, With(owners, write.offset, write.logicalSize, block), outside,
                     Extent(zeroed, write.offset, plaintext).1, i)
    {
      AgreesAfterText(codec, plan, file, lazy.keys, texts, lazy.nextId, plaintext, lazy.owners, stale, eager.data, i);
      AgreesAfterFree(codec, plan, file, lazy.keys, more, lazy.owners, stale, eager.data, write.offset, write.length, i);
      AgreesAfterWrite(codec, plan, file, lazy.keys, more, owners, outside, zeroed, write.offset, block, plaintext, i);
    }
  }

  lemma FreeRelated(codec: Codec, plan: Plan, file: seq<Byte>, eager: Eager, lazy: Lazy, stale: Owners, texts: Texts,
                    offset: U64, length: U64)
    requires Related(codec, plan, file, eager, lazy, stale, texts) && RangeFits(offset, length)
    ensures Related(codec, plan, file, eager.(data := Zeroed(eager.data, offset, length)),
                    lazy.(owners := Without(lazy.owners, offset, RangeEnd(offset, length))),
                    Without(stale, offset, RangeEnd(offset, length)), texts)
  {
    hide Decoded;
    hide Zeroed;
    forall i: nat | i < U64_MAX
      ensures Agrees(codec, plan, file, lazy.keys, texts, Without(lazy.owners, offset, RangeEnd(offset, length)),
                     Without(stale, offset, RangeEnd(offset, length)), Zeroed(eager.data, offset, length), i)
    {
      AgreesAfterFree(codec, plan, file, lazy.keys, texts, lazy.owners, stale, eager.data, offset, length, i);
    }
  }

  lemma BeginRelated(codec: Codec, plan: Plan, file: seq<Byte>, eager: Eager, lazy: Lazy, stale: Owners, texts: Texts, r: Record)
    requires Related(codec, plan, file, eager, lazy, stale, texts) && r.kind.Begin?
    requires EagerBegin(codec, plan, eager, r.kind.begin, r.payload).Some?
    requires LazyBegin(codec, plan, lazy, r.kind.begin, r.payload).Some?
    ensures Related(codec, plan, file, EagerBegin(codec, plan, eager, r.kind.begin, r.payload).value,
                    LazyBegin(codec, plan, lazy, r.kind.begin, r.payload).value, stale, texts)
  {
    hide Decoded;
    if plan.Selects(r.kind.begin) && r.kind.begin.raw {
      var key := codec.unlock(r.payload).value;
      forall i: nat | i < U64_MAX
        ensures Agrees(codec, plan, file, lazy.keys + [key], texts, lazy.owners, stale, eager.data, i)
      {
        AgreesAfterKey(codec, plan, file, lazy.keys, key, texts, lazy.owners, stale, eager.data, i);
      }
    }
  }

  /** A type change empties the lazy map; whatever it owned turns stale. */
  lemma DropRelated(codec: Codec, plan: Plan, file: seq<Byte>, eager: Eager, lazy: Lazy, stale: Owners, texts: Texts,
                    data: seq<Byte>, dropped: Owners)
    requires Related(codec, plan, file, eager, lazy, stale, texts)
    requires (data == eager.data && dropped == stale + lazy.owners) || (data == [] && dropped == map[])
    ensures forall i: nat :: i < U64_MAX ==> Agrees(codec, plan, file, lazy.keys, texts, map[], dropped, data, i)
  {
    hide HoldsPlace;
    forall i: nat | i < U64_MAX
      ensures Agrees(codec, plan, file, lazy.keys, texts, map[], dropped, data, i)
    {
      assert Agrees(codec, plan, file, lazy.keys, texts, lazy.owners, stale, eager.data, i);
    }
  }

  // ---------- One record, and then any number ----------

  lemma StepRelated(codec: Codec, plan: Plan, id: U64, file: seq<Byte>, eager: Eager, lazy: Lazy, stale: Owners, texts: Texts, r: Record)
    requires codec.Exact() && InFile(file, r) && Related(codec, plan, file, eager, lazy, stale, texts)
    requires EagerStep(codec, plan, id, eager, r).Some? && LazyStep(codec, plan, id, lazy, r).Some?
    ensures Related(codec, plan, file, EagerStep(codec, plan, id, eager, r).value, LazyStep(codec, plan, id, lazy, r).value,
                    StaleStep(id, lazy, stale, r), StoredStep(codec, plan, id, eager, lazy, texts, r))
  {
    hide Agrees;
    hide WriteText;
    hide EmbeddedText;
    hide Extent;
    hide Zeroed;
    match r.kind
    case Begin(_) => BeginRelated(codec, plan, file, eager, lazy, stale, texts, r);
    case Write(write) =>
      if lazy.active && write.objectId == id { WriteRelated(codec, plan, file, eager, lazy, stale, texts, r, write); }
    case WriteEmbedded(write) =>
      if lazy.active && write.objectId == id { EmbeddedRelated(codec, plan, file, eager, lazy, stale, texts, r, write); }
    case Free(objectId, offset, length) =>
      if lazy.active && objectId == id { FreeRelated(codec, plan, file, eager, lazy, stale, texts, offset, length); }
    case Object(_) =>
      DropRelated(codec, plan, file, eager, lazy, stale, texts, if eager.live then eager.data else [],
                  if eager.live then stale + lazy.owners else map[]);
    case FreeObjects(_, _) => DropRelated(codec, plan, file, eager, lazy, stale, texts, [], map[]);
    case _ =>
  }

  lemma {:induction false} RunsRelated(codec: Codec, plan: Plan, id: U64, file: seq<Byte>, records: seq<Record>)
    requires codec.Exact() && Indexed(file, records)
    requires EagerRun(codec, plan, id, records).Some? && LazyRun(codec, plan, id, records).Some?
    ensures Related(codec, plan, file, EagerRun(codec, plan, id, records).value, LazyRun(codec, plan, id, records).value,
                    Stale(codec, plan, id, records), Stored(codec, plan, id, records))
    decreases |records|
  {
    hide EagerStep;
    hide LazyStep;
    hide StaleStep;
    hide StoredStep;
    if records == [] {
    } else {
      hide Related;
      var earlier, last := records[..|records| - 1], records[|records| - 1];
      RunsRelated(codec, plan, id, file, earlier);
      assert InFile(file, last);
      StepRelated(codec, plan, id, file, EagerRun(codec, plan, id, earlier).value, LazyRun(codec, plan, id, earlier).value,
                  Stale(codec, plan, id, earlier), Stored(codec, plan, id, earlier), last);
    }
  }

  // ---------- Main results ----------

  /** What the extracted file shows at an offset, told by the image's own places. */
  function Explained(texts: Texts, owners: Owners, stale: Owners, i: nat): Byte {
    if i in owners then StoredByte(texts, owners[i]) else if i in stale then StoredByte(texts, stale[i]) else 0
  }

  /** For every send file on which both replays succeed: each extracted byte is the one stored for the block the image
      reads there, or for the block it was dropped from, or zero; and the image decodes each block to what was stored for
      it unless the block's substream and the plan disagree on being raw. */
  lemma LazyMasksStaleBytes(codec: Codec, plan: Plan, id: U64, file: seq<Byte>, records: seq<Record>, logicalSize: U64, i: nat)
    requires codec.Exact() && Indexed(file, records) && i < logicalSize
    requires EagerResult(codec, plan, id, records).Some? && LazyResult(codec, plan, id, records).Some?
    ensures var lazy := LazyResult(codec, plan, id, records).value;
            var stale, texts := Stale(codec, plan, id, records), Stored(codec, plan, id, records);
            && Extracted(codec, plan, id, records, logicalSize).value[i] == Explained(texts, lazy.owners, stale, i)
            && (i in stale ==> i !in lazy.owners && stale[i].block.id in texts)
            && (i in lazy.owners ==>
                  && lazy.owners[i].block.id in texts && lazy.owners[i].position < lazy.owners[i].block.logicalLen
                  && |texts[lazy.owners[i].block.id]| == lazy.owners[i].block.logicalLen
                  && (!Mixed(plan, lazy.owners[i].block) ==>
                        Decoded(codec, file, lazy.keys, lazy.owners[i].block) == Some(texts[lazy.owners[i].block.id])))
  {
    hide Decoded;
    RunsRelated(codec, plan, id, file, records);
    hide EagerRun;
    hide LazyRun;
    hide Stale;
    hide Stored;
    var lazy := LazyResult(codec, plan, id, records).value;
    assert Agrees(codec, plan, file, lazy.keys, Stored(codec, plan, id, records), lazy.owners, Stale(codec, plan, id, records),
                  EagerResult(codec, plan, id, records).value.data, i);
  }

  /** A positioned read of the whole image succeeds and shows these bytes. */
  ghost predicate Shows(codec: Codec, file: seq<Byte>, keys: seq<Key>, owners: Owners, bytes: seq<Byte>) {
    forall i: nat :: i < |bytes| ==> ShowsAt(codec, file, keys, owners, bytes, i)
  }

  ghost predicate ShowsAt(codec: Codec, file: seq<Byte>, keys: seq<Key>, owners: Owners, bytes: seq<Byte>, i: nat)
    requires i < |bytes|
  {
    (i in owners ==> Decoded(codec, file, keys, owners[i].block).Some?) && ImageByte(codec, file, keys, owners, i) == bytes[i]
  }

  /** No dropped place below a size lies in a block for which extraction stored a non-zero byte there. */
  ghost predicate NothingLost(texts: Texts, stale: Owners, size: nat) {
    forall i: nat :: i in stale && i < size ==> StoredByte(texts, stale[i]) == 0
  }

  /** Every place below a size in a block of a mixed substream decodes to the byte extraction stored for it. */
  ghost predicate SameDecodings(codec: Codec, plan: Plan, file: seq<Byte>, keys: seq<Key>, texts: Texts, owners: Owners, size: nat) {
    forall i: nat :: i in owners && i < size && Mixed(plan, owners[i].block) ==> SameAt(codec, file, keys, texts, owners[i])
  }

  ghost predicate SameAt(codec: Codec, file: seq<Byte>, keys: seq<Key>, texts: Texts, place: Place) {
    var decoded := Decoded(codec, file, keys, place.block);
    decoded.Some? && place.position < |decoded.value| && decoded.value[place.position] == StoredByte(texts, place)
  }

  /** What `LazyMasksStaleBytes` says of one offset. */
  ghost predicate Masks(codec: Codec, plan: Plan, file: seq<Byte>, keys: seq<Key>, texts: Texts, owners: Owners, stale: Owners,
                        bytes: seq<Byte>, i: nat)
    requires i < |bytes|
  {
    && bytes[i] == Explained(texts, owners, stale, i) && (i in stale ==> i !in owners)
    && (i in owners ==> (SameAt(codec, file, keys, texts, owners[i]) <==> ShowsAt(codec, file, keys, owners, bytes, i))
                        && (!Mixed(plan, owners[i].block) ==> SameAt(codec, file, keys, texts, owners[i])))
  }

  lemma ShowsIff(codec: Codec, plan: Plan, file: seq<Byte>, keys: seq<Key>, texts: Texts, owners: Owners, stale: Owners, bytes: seq<Byte>)
    requires forall i: nat :: i < |bytes| ==> Masks(codec, plan, file, keys, texts, owners, stale, bytes, i)
    ensures Shows(codec, file, keys, owners, bytes)
       <==> NothingLost(texts, stale, |bytes|) && SameDecodings(codec, plan, file, keys, texts, owners, |bytes|)
  {
    hide Decoded;
    hide SameAt;
    if Shows(codec, file, keys, owners, bytes) {
      forall i: nat | i in stale && i < |bytes|
        ensures StoredByte(texts, stale[i]) == 0
      {
        assert Masks(codec, plan, file, keys, texts, owners, stale, bytes, i) && ShowsAt(codec, file, keys, owners, bytes, i);
      }
      forall i: nat | i in owners && i < |bytes| && Mixed(plan, owners[i].block)
        ensures SameAt(codec, file, keys, texts, owners[i])
      {
        assert Masks(codec, plan, file, keys, texts, owners, stale, bytes, i) && ShowsAt(codec, file, keys, owners, bytes, i);
      }
    }
    if NothingLost(texts, stale, |bytes|) && SameDecodings(codec, plan, file, keys, texts, owners, |bytes|) {
      forall i: nat | i < |bytes|
        ensures ShowsAt(codec, file, keys, owners, bytes, i)
      {
        assert Masks(codec, plan, file, keys, texts, owners, stale, bytes, i);
      }
    }
  }

  lemma MasksAt(codec: Codec, plan: Plan, id: U64, file: seq<Byte>, records: seq<Record>, logicalSize: U64, i: nat)
    requires codec.Exact() && Indexed(file, records) && i < logicalSize
    requires EagerResult(codec, plan, id, records).Some? && LazyResult(codec, plan, id, records).Some?
    ensures var lazy := LazyResult(codec, plan, id, records).value;
            Masks(codec, plan, file, lazy.keys, Stored(codec, plan, id, records), lazy.owners, Stale(codec, plan, id, records),
                  Extracted(codec, plan, id, records, logicalSize).value, i)
  {
    hide Decoded;
    hide Stale;
    hide Stored;
    hide EagerRun;
    hide LazyRun;
    hide Mixed;
    LazyMasksStaleBytes(codec, plan, id, file, records, logicalSize, i);
    var lazy := LazyResult(codec, plan, id, records).value;
    if i in lazy.owners {
      DecodedLength(codec, file, lazy.keys, lazy.owners[i].block);
    }
  }

  lemma DecodedLength(codec: Codec, file: seq<Byte>, keys: seq<Key>, block: BlockDescriptor)
    ensures Decoded(codec, file, keys, block).Some? ==> |Decoded(codec, file, keys, block).value| == block.logicalLen
  {
  }

  /** For every send file on which both replays succeed, reading the whole image gives the extracted file exactly when no
      offset below the logical size was dropped from a block that stored a non-zero byte there, and every block there whose
      substream and the plan disagree on being raw decodes to the stored bytes. */
  lemma LazyEqualsEagerIff(codec: Codec, plan: Plan, id: U64, file: seq<Byte>, records: seq<Record>, logicalSize: U64)
    requires codec.Exact() && Indexed(file, records)
    requires EagerResult(codec, plan, id, records).Some? && LazyResult(codec, plan, id, records).Some?
    ensures var lazy, texts := LazyResult(codec, plan, id, records).value, Stored(codec, plan, id, records);
            Shows(codec, file, lazy.keys, lazy.owners, Extracted(codec, plan, id, records, logicalSize).value)
            <==> NothingLost(texts, Stale(codec, plan, id, records), logicalSize)
                 && SameDecodings(codec, plan, file, lazy.keys, texts, lazy.owners, logicalSize)
  {
    hide Stale;
    hide Stored;
    hide Shows;
    hide NothingLost;
    hide SameDecodings;
    hide Masks;
    hide EagerRun;
    hide LazyRun;
    var lazy := LazyResult(codec, plan, id, records).value;
    var extracted := Extracted(codec, plan, id, records, logicalSize).value;
    forall i: nat | i < logicalSize
      ensures Masks(codec, plan, file, lazy.keys, Stored(codec, plan, id, records), lazy.owners, Stale(codec, plan, id, records),
                    extracted, i)
    {
      MasksAt(codec, plan, id, file, records, logicalSize, i);
    }
    ShowsIff(codec, plan, file, lazy.keys, Stored(codec, plan, id, records), lazy.owners, Stale(codec, plan, id, records), extracted);
  }

  // ---------- When the condition holds ----------

  /** The selected substreams are all raw or all plain, as the plan's target says. */
  predicate UniformRaw(plan: Plan, records: seq<Record>) {
    forall r :: r in records ==> RawAsPlanned(plan, r)
  }

  predicate RawAsPlanned(plan: Plan, r: Record) { r.kind.Begin? && plan.Selects(r.kind.begin) ==> r.kind.begin.raw == plan.raw }

  /** When all substreams are raw or plain as planned, so is every block. */
  lemma {:induction false} UniformRawMixesNothing(codec: Codec, plan: Plan, id: U64, records: seq<Record>)
    requires UniformRaw(plan, records) && LazyRun(codec, plan, id, records).Some?
    ensures var lazy := LazyRun(codec, plan, id, records).value;
            && (lazy.active ==> (lazy.key.Some? <==> plan.raw))
            && forall i :: i in lazy.owners ==> !Mixed(plan, lazy.owners[i].block)
    decreases |records|
  {
    if records != [] {
      var n := |records| - 1;
      UniformRawMixesNothing(codec, plan, id, records[..n]);
      assert RawAsPlanned(plan, records[n]);
      StepMixesNothing(codec, plan, id, LazyRun(codec, plan, id, records[..n]).value, records[n]);
    }
  }

  lemma StepMixesNothing(codec: Codec, plan: Plan, id: U64, lazy: Lazy, r: Record)
    requires RawAsPlanned(plan, r) && LazyStep(codec, plan, id, lazy, r).Some?
    requires lazy.active ==> (lazy.key.Some? <==> plan.raw)
    requires forall i :: i in lazy.owners ==> !Mixed(plan, lazy.owners[i].block)
    ensures var after := LazyStep(codec, plan, id, lazy, r).value;
            && (after.active ==> (after.key.Some? <==> plan.raw))
            && forall i :: i in after.owners ==> !Mixed(plan, after.owners[i].block)
  {
  }

  /** No selected OBJECT record gives the live target a new type: the guard of the branch that drops bytes. */
  ghost predicate TypeStable(codec: Codec, plan: Plan, id: U64, records: seq<Record>) {
    forall n :: 0 <= n < |records| && LazyRun(codec, plan, id, records[..n]).Some? ==>
      !ChangesType(id, LazyRun(codec, plan, id, records[..n]).value, records[n])
  }

  predicate ChangesType(id: U64, st: Lazy, r: Record) {
    && st.active && r.kind.Object? && r.kind.dnode.objectId == id
    && st.live && st.objectType != Some(r.kind.dnode.objectType)
  }

  lemma {:induction false} TypeStableLeavesNothingStale(codec: Codec, plan: Plan, id: U64, records: seq<Record>)
    requires TypeStable(codec, plan, id, records)
    ensures Stale(codec, plan, id, records) == map[]
    decreases |records|
  {
    if records != [] {
      var n := |records| - 1;
      var earlier := records[..n];
      forall m | 0 <= m < n && LazyRun(codec, plan, id, earlier[..m]).Some?
        ensures !ChangesType(id, LazyRun(codec, plan, id, earlier[..m]).value, earlier[m])
      {
        assert earlier[..m] == records[..m];
      }
      TypeStableLeavesNothingStale(codec, plan, id, earlier);
      if LazyRun(codec, plan, id, earlier).Some? {
        assert !ChangesType(id, LazyRun(codec, plan, id, records[..n]).value, records[n]);
      }
    }
  }

  /** When moreover the object's type changes only across a FREEOBJECTS, reading the image gives exactly the extracted file. */
  lemma LazyEqualsEager(codec: Codec, plan: Plan, id: U64, file: seq<Byte>, records: seq<Record>, logicalSize: U64)
    requires codec.Exact() && Indexed(file, records) && UniformRaw(plan, records) && TypeStable(codec, plan, id, records)
    requires EagerResult(codec, plan, id, records).Some? && LazyResult(codec, plan, id, records).Some?
    ensures var lazy := LazyResult(codec, plan, id, records).value;
            Shows(codec, file, lazy.keys, lazy.owners, Extracted(codec, plan, id, records, logicalSize).value)
  {
    hide Shows;
    hide Decoded;
    hide UniformRaw;
    hide TypeStable;
    TypeStableLeavesNothingStale(codec, plan, id, records);
    UniformRawMixesNothing(codec, plan, id, records);
    hide LazyRun;
    hide EagerRun;
    LazyEqualsEagerIff(codec, plan, id, file, records, logicalSize);
  }

  /** Every place below a size lies in a block that decodes. */
  ghost predicate AllDecode(codec: Codec, file: seq<Byte>, keys: seq<Key>, owners: Owners, size: nat) {
    forall i :: i in owners && i < size ==> Decoded(codec, file, keys, owners[i].block).Some?
  }

  lemma ReadMatches(codec: Codec, file: seq<Byte>, keys: seq<Key>, owners: Owners, bytes: seq<Byte>, read: seq<Byte>)
    requires |read| == |bytes|
    requires AllDecode(codec, file, keys, owners, |bytes|) ==>
               forall j :: 0 <= j < |read| ==> read[j] == ImageByte(codec, file, keys, owners, j)
    ensures AllDecode(codec, file, keys, owners, |bytes|) && bytes == read <==> Shows(codec, file, keys, owners, bytes)
  {
    hide Decoded;
    hide ImageByte;
    if AllDecode(codec, file, keys, owners, |bytes|) && bytes == read {
      forall i: nat | i < |bytes|
        ensures ShowsAt(codec, file, keys, owners, bytes, i)
      {
        assert read[i] == ImageByte(codec, file, keys, owners, i);
      }
    }
    if Shows(codec, file, keys, owners, bytes) {
      forall i | i in owners && i < |bytes|
        ensures Decoded(codec, file, keys, owners[i].block).Some?
      {
        assert ShowsAt(codec, file, keys, owners, bytes, i);
      }
      forall i | 0 <= i < |bytes|
        ensures bytes[i] == read[i]
      {
        assert ShowsAt(codec, file, keys, owners, bytes, i);
      }
    }
  }

  /** Extract eagerly, open lazily, read everything: the calls themselves, on one unchanged send file. */
  method ReadWholeFile(codec: Codec, plan: Plan, id: U64, file: seq<Byte>, records: seq<Record>, logicalSize: U64)
    returns (compared: bool, shown: bool, extracted: seq<Byte>, read: seq<Byte>)
    requires codec.Exact() && Indexed(file, records)
    ensures compared <==> EagerResult(codec, plan, id, records).Some? && LazyResult(codec, plan, id, records).Some?
    ensures compared ==> |extracted| == |read| == logicalSize
    ensures compared ==>
              var lazy, texts := LazyResult(codec, plan, id, records).value, Stored(codec, plan, id, records);
              shown && extracted == read <==>
                && NothingLost(texts, Stale(codec, plan, id, records), logicalSize)
                && SameDecodings(codec, plan, file, lazy.keys, texts, lazy.owners, logicalSize)
  {
    hide Decoded;
    hide ImageByte;
    hide EagerRun;
    hide LazyRun;
    hide Stale;
    hide Stored;
    hide NothingLost;
    hide SameDecodings;
    hide Indexed;
    hide WellFormed;
    hide Represents;
    hide UniqueIds;
    extracted, read, shown := [], [], false;
    var ok, output := Extract(codec, plan, id, records, logicalSize);
    var image := Build(codec, file, plan, id, records, logicalSize);
    if !ok || image == null {
      return false, false, [], [];
    }
    var buffer := new Byte[logicalSize];
    shown := image.ReadExactAt(0, buffer);
    LazyEqualsEagerIff(codec, plan, id, file, records, logicalSize);
    ghost var lazy := LazyResult(codec, plan, id, records).value;
    forall j | 0 <= j < logicalSize && shown
      ensures buffer[j] == ImageByte(codec, file, lazy.keys, lazy.owners, j)
    {
      assert buffer[j] == image.Shown(0 + j);
    }
    assert shown <==> AllDecode(codec, file, lazy.keys, lazy.owners, logicalSize);
    ReadMatches(codec, file, lazy.keys, lazy.owners, output.data, buffer[..]);
    return true, shown, output.data, buffer[..];
  }
}
