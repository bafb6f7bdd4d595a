/** Send files written record by record: every list of records that fits the format and its framing has a file from
    which the reader gets exactly these records back. */
module SendWriter {
  import opened Bytes
  import opened Records
  import opened Fletcher
  import opened Stream
  import opened Framing
  import opened SendFile

  // ---------- What can be written ----------

  /** A record before it has a place in a file. */
  datatype Draft = Draft(kind: RecordKind, payload: seq<Byte>)

  predicate CryptFits(c: Crypt) { |c.salt| == 8 && |c.iv| == 12 }

  /** The fields fit the header and the payload has the length the header implies. */
  predicate Encodable(d: Draft) {
    && |d.payload| % 4 == 0 && |d.payload| <= MAX_PAYLOAD_SIZE
    && match d.kind
       case Begin(begin) => begin.headerType == DMU_SUBSTREAM || begin.headerType == DMU_COMPOUNDSTREAM
       case Object(dnode) => d.payload == [] ==> dnode.bonusLength == 0
       case Write(write) =>
         CryptFits(write.crypt) && |d.payload| == if write.compression == 0 then write.logicalSize else write.compressedSize
       case Spill(spill) =>
         CryptFits(spill.crypt) && |d.payload| == if spill.compressedSize == 0 then spill.logicalSize else spill.compressedSize
       case WriteEmbedded(write) => |d.payload| == RoundUp8(write.physicalSize)
       case ObjectRange(range) => CryptFits(range.crypt) && d.payload == []
       case _ => d.payload == []
  }

  function EventFor(d: Draft): Event {
    match d.kind
    case Begin(begin) => if begin.headerType == DMU_COMPOUNDSTREAM then BeginCompound else BeginSub
    case End => EndOf(true)
    case _ => Body
  }

  function EventsFor(drafts: seq<Draft>): seq<Event> {
    seq(|drafts|, i requires 0 <= i < |drafts| => EventFor(drafts[i]))
  }

  // ---------- Headers ----------

  function TypeOf(kind: RecordKind): U32 {
    match kind
    case Begin(_) => 0
    case Object(_) => 1
    case FreeObjects(_, _) => 2
    case Write(_) => 3
    case Free(_, _, _) => 4
    case End => 5
    case WriteByRef => 6
    case Spill(_) => 7
    case WriteEmbedded(_) => 8
    case ObjectRange(_) => 9
    case Redact => 10
  }

  /** A text laid over a header from a byte on; elsewhere the header stays as it is. */
  function Laid(text: seq<Byte>, at: nat, i: nat, other: Byte): Byte { if at <= i < at + |text| then text[i - at] else other }

  function Num4(n: U32, at: nat, i: nat, other: Byte): Byte { Laid(LittleEndian(n, 4), at, i, other) }

  function Num8(n: U64, at: nat, i: nat, other: Byte): Byte { Laid(LittleEndian(n, 8), at, i, other) }

  function CryptByte(c: Crypt, at: nat, i: nat, other: Byte): Byte {
    Laid(c.salt, at, i, Laid(c.iv, at + 8, i, Laid(c.mac, at + 20, i, other)))
  }

  /** The version word: the header type in its lowest bits and the raw feature. */
  function VersionInfo(begin: BeginRecord): U64
    requires begin.headerType == DMU_SUBSTREAM || begin.headerType == DMU_COMPOUNDSTREAM
  {
    begin.headerType + if begin.raw then 0x400_0000 else 0
  }

  function BeginByte(begin: BeginRecord, size: U32, i: nat): Byte
    requires begin.headerType == DMU_SUBSTREAM || begin.headerType == DMU_COMPOUNDSTREAM
  {
    Num4(size, 4, i, Num8(DMU_BACKUP_MAGIC, 8, i, Num8(VersionInfo(begin), 16, i,
      Num8(begin.toGuid, 40, i, Num8(begin.fromGuid, 48, i, 0)))))
  }

  function ObjectByte(d: ObjectRecord, size: U32, i: nat): Byte {
    Num8(d.objectId, 8, i, Num4(d.objectType, 16, i, Num4(d.bonusType, 20, i, Num4(d.blockSize, 24, i,
      Num4(d.bonusLength, 28, i, Laid([d.checksumType, d.compression, d.dnodeSlots, d.flags], 32, i,
        Num4(size, 36, i, Laid([d.indirectBlockShift, d.levels, d.blockPointers], 48, i, Num8(d.maxBlockId, 56, i, 0)))))))))
  }

  function WriteByte(w: WriteRecord, i: nat): Byte {
    Num8(w.objectId, 8, i, Num4(w.objectType, 16, i, Num8(w.offset, 24, i, Num8(w.logicalSize, 32, i,
      Laid([w.flags, w.compression], 49, i, Num8(w.compressedSize, 96, i, CryptByte(w.crypt, 104, i, 0)))))))
  }

  function SpillByte(s: SpillRecord, i: nat): Byte {
    Num8(s.objectId, 8, i, Num8(s.logicalSize, 16, i, Laid([s.flags, s.compression], 32, i,
      Num8(s.compressedSize, 40, i, CryptByte(s.crypt, 48, i, 0)))))
  }

  function EmbeddedByte(w: EmbeddedRecord, i: nat): Byte {
    Num8(w.objectId, 8, i, Num8(w.offset, 16, i, Num8(w.length, 24, i, Laid([w.compression, w.embeddedType], 40, i,
      Num4(w.logicalSize, 48, i, Num4(w.physicalSize, 52, i, 0))))))
  }

  function RangeByte(r: ObjectRangeRecord, i: nat): Byte {
    Num8(r.firstObject, 8, i, Num8(r.objectSlots, 16, i, CryptByte(r.crypt, 32, i, Laid([r.flags], 68, i, 0))))
  }

  function KindByte(d: Draft, i: nat): Byte
    requires Encodable(d)
  {
    match d.kind
    case Begin(begin) => BeginByte(begin, |d.payload|, i)
    case Object(dnode) => ObjectByte(dnode, |d.payload|, i)
    case FreeObjects(first, count) => Num8(first, 8, i, Num8(count, 16, i, 0))
    case Write(write) => WriteByte(write, i)
    case Free(id, offset, length) => Num8(id, 8, i, Num8(offset, 16, i, Num8(length, 24, i, 0)))
    case Spill(spill) => SpillByte(spill, i)
    case WriteEmbedded(write) => EmbeddedByte(write, i)
    case ObjectRange(range) => RangeByte(range, i)
    case _ => 0
  }

  /** The header of a record, its checksum fields left zero. */
  function HeaderFor(d: Draft): (h: Header)
    requires Encodable(d)
  {
    seq<Byte>(RECORD_SIZE, i requires 0 <= i => Num4(TypeOf(d.kind), 0, i, KindByte(d, i)))
  }

  // ---------- Reading a header back ----------

  lemma Le32Reads(n: U32)
    ensures Le32(LittleEndian(n, 4)) == n
  {
    var b := LittleEndian(n, 4);
    assert Power256(4) == 0x1_0000_0000;
    LittleEndianRoundTrip(n, 4);
    Le32IsFrom(b);
  }

  lemma Le32IsFrom(b: seq<Byte>)
    requires |b| == 4
    ensures FromLittleEndian(b) == Le32(b)
  {
    assert FromLittleEndian(b[3..]) == b[3] as int + 256 * FromLittleEndian(b[3..][1..]) && b[3..][1..] == [];
    assert b[2..][1..] == b[3..] && b[1..][1..] == b[2..];
    assert FromLittleEndian(b[2..]) == b[2] as int + 256 * b[3] as int;
  }

  lemma Le64Reads(n: U64)
    ensures Le64(LittleEndian(n, 8)) == n
  {
    var b := LittleEndian(n, 8);
    U64Fits();
    LittleEndianRoundTrip(n, 8);
    SplitLow(b, 4);
    Le32IsFrom(b[..4]);
    Le32IsFrom(b[4..]);
    assert Power256(4) == 0x1_0000_0000;
  }

  lemma {:induction false} SplitLow(b: seq<Byte>, n: nat)
    requires n <= |b|
    ensures FromLittleEndian(b) == FromLittleEndian(b[..n]) + Power256(n) * FromLittleEndian(b[n..])
    decreases n
  {
    if n == 0 {
      assert b[0..] == b;
    } else {
      SplitLow(b[1..], n - 1);
      assert b[1..][..n - 1] == b[..n][1..] && b[1..][n - 1..] == b[n..];
      Regrouped(b[0], FromLittleEndian(b[..n][1..]), Power256(n - 1), FromLittleEndian(b[n..]));
    }
  }

  lemma Regrouped(first: nat, low: nat, power: nat, high: nat)
    ensures first + 256 * (low + power * high) == first + 256 * low + (256 * power) * high
  {
  }

  /** What a header holds at a place. */
  ghost predicate Holds(h: Header, at: nat, text: seq<Byte>) {
    at + |text| <= RECORD_SIZE && forall k :: 0 <= k < |text| ==> h[at + k] == text[k]
  }

  lemma HoldsNum4(h: Header, at: nat, n: U32)
    requires Holds(h, at, LittleEndian(n, 4))
    ensures at + 4 <= RECORD_SIZE && U32At(h, at) == n
  {
    Le32Reads(n);
    assert h[at..at + 4] == LittleEndian(n, 4);
  }

  lemma HoldsNum8(h: Header, at: nat, n: U64)
    requires Holds(h, at, LittleEndian(n, 8))
    ensures at + 8 <= RECORD_SIZE && U64At(h, at) == n
  {
    Le64Reads(n);
    assert h[at..at + 8] == LittleEndian(n, 8);
  }

  lemma HoldsText(h: Header, at: nat, text: seq<Byte>)
    requires Holds(h, at, text)
    ensures at + |text| <= RECORD_SIZE && h[at..at + |text|] == text
  {
  }

  lemma TypeReads(d: Draft)
    requires Encodable(d)
    ensures U32At(HeaderFor(d), 0) == TypeOf(d.kind)
  {
    hide KindByte;
    hide LittleEndian;
    HoldsNum4(HeaderFor(d), 0, TypeOf(d.kind));
  }

  /** A header has the type, the fields and the payload length of its record. */
  predicate ReadsBack(d: Draft)
    requires Encodable(d)
  {
    var h := HeaderFor(d);
    && U32At(h, 0) == TypeOf(d.kind) && TypeOf(d.kind) < DRR_NUMTYPES
    && DecodeKind(h) == Ok(d.kind) && PayloadSize(h) == |d.payload|
  }

  /** Behind the type field the header is what its kind puts there. */
  lemma ByteReads(d: Draft, i: nat)
    requires Encodable(d) && 4 <= i < RECORD_SIZE
    ensures HeaderFor(d)[i] == KindByte(d, i)
  {
    hide KindByte;
    hide LittleEndian;
  }

  lemma ByteOfHeader(d: Draft)
    requires Encodable(d)
    ensures forall i :: 4 <= i < RECORD_SIZE ==> HeaderFor(d)[i] == KindByte(d, i)
  {
    hide KindByte;
    forall i | 4 <= i < RECORD_SIZE
      ensures HeaderFor(d)[i] == KindByte(d, i)
    {
      ByteReads(d, i);
    }
  }

  lemma BeginReads(d: Draft)
    requires Encodable(d) && d.kind.Begin?
    ensures var h, begin := HeaderFor(d), d.kind.begin;
            && U32At(h, 4) == |d.payload| && U64At(h, 8) == DMU_BACKUP_MAGIC && U64At(h, 16) == VersionInfo(begin)
            && U64At(h, 40) == begin.toGuid && U64At(h, 48) == begin.fromGuid
  {
    hide LittleEndian;
    hide HeaderFor;
    ByteOfHeader(d);
    var h, begin := HeaderFor(d), d.kind.begin;
    HoldsNum4(h, 4, |d.payload|);
    HoldsNum8(h, 8, DMU_BACKUP_MAGIC);
    HoldsNum8(h, 16, VersionInfo(begin));
    HoldsNum8(h, 40, begin.toGuid);
    HoldsNum8(h, 48, begin.fromGuid);
  }

  lemma BeginDecodes(d: Draft)
    requires Encodable(d) && d.kind.Begin?
    ensures ReadsBack(d) && U64At(HeaderFor(d), 8) == DMU_BACKUP_MAGIC
  {
    hide HeaderFor;
    hide VersionInfo;
    TypeReads(d);
    BeginReads(d);
    VersionReads(d.kind.begin);
  }

  lemma VersionReads(begin: BeginRecord)
    requires begin.headerType == DMU_SUBSTREAM || begin.headerType == DMU_COMPOUNDSTREAM
    ensures VersionInfo(begin) % 4 == begin.headerType && (VersionInfo(begin) / 0x400_0000 % 2 == 1 <==> begin.raw)
  {
  }

  lemma CryptReads(h: Header, c: Crypt, at: nat)
    requires CryptFits(c) && at + 36 <= RECORD_SIZE
    requires Holds(h, at, c.salt) && Holds(h, at + 8, c.iv) && Holds(h, at + 20, c.mac)
    ensures Crypt(h[at..at + 8], h[at + 8..at + 20], h[at + 20..at + 36]) == c
  {
    HoldsText(h, at, c.salt);
    HoldsText(h, at + 8, c.iv);
    HoldsText(h, at + 20, c.mac);
  }

  lemma ObjectReads(d: Draft)
    requires Encodable(d) && d.kind.Object?
    ensures var h, o := HeaderFor(d), d.kind.dnode;
            && U64At(h, 8) == o.objectId && U32At(h, 16) == o.objectType && U32At(h, 20) == o.bonusType
            && U32At(h, 24) == o.blockSize && U32At(h, 28) == o.bonusLength && U32At(h, 36) == |d.payload|
            && h[32] == o.checksumType && h[33] == o.compression && h[34] == o.dnodeSlots && h[35] == o.flags
            && h[48] == o.indirectBlockShift && h[49] == o.levels && h[50] == o.blockPointers && U64At(h, 56) == o.maxBlockId
  {
    hide LittleEndian;
    hide HeaderFor;
    ObjectBytesRead(d);
    ByteOfHeader(d);
    var h, o := HeaderFor(d), d.kind.dnode;
    HoldsNum8(h, 8, o.objectId);
    HoldsNum4(h, 16, o.objectType);
    HoldsNum4(h, 20, o.bonusType);
    HoldsNum4(h, 24, o.blockSize);
    HoldsNum4(h, 28, o.bonusLength);
    HoldsNum4(h, 36, |d.payload|);
    HoldsNum8(h, 56, o.maxBlockId);
  }

  lemma ObjectBytesRead(d: Draft)
    requires Encodable(d) && d.kind.Object?
    ensures var h, o := HeaderFor(d), d.kind.dnode;
            && h[32] == o.checksumType && h[33] == o.compression && h[34] == o.dnodeSlots && h[35] == o.flags
            && h[48] == o.indirectBlockShift && h[49] == o.levels && h[50] == o.blockPointers
  {
    hide LittleEndian;
    hide HeaderFor;
    ByteOfHeader(d);
  }

  lemma ObjectDecodes(d: Draft)
    requires Encodable(d) && d.kind.Object?
    ensures ReadsBack(d)
  {
    hide HeaderFor;
    TypeReads(d);
    ObjectReads(d);
  }

  lemma WriteReads(d: Draft)
    requires Encodable(d) && d.kind.Write?
    ensures var h, w := HeaderFor(d), d.kind.write;
            && U64At(h, 8) == w.objectId && U32At(h, 16) == w.objectType && U64At(h, 24) == w.offset
            && U64At(h, 32) == w.logicalSize && h[49] == w.flags && h[50] == w.compression
            && U64At(h, 96) == w.compressedSize && Crypt(h[104..112], h[112..124], h[124..140]) == w.crypt
  {
    hide LittleEndian;
    hide HeaderFor;
    ByteOfHeader(d);
    var h, w := HeaderFor(d), d.kind.write;
    HoldsNum8(h, 8, w.objectId);
    HoldsNum4(h, 16, w.objectType);
    HoldsNum8(h, 24, w.offset);
    HoldsNum8(h, 32, w.logicalSize);
    HoldsNum8(h, 96, w.compressedSize);
    WriteCryptReads(d);
  }

  lemma WriteCryptReads(d: Draft)
    requires Encodable(d) && d.kind.Write?
    ensures var h := HeaderFor(d); Crypt(h[104..112], h[112..124], h[124..140]) == d.kind.write.crypt
  {
    hide LittleEndian;
    hide HeaderFor;
    ByteOfHeader(d);
    CryptReads(HeaderFor(d), d.kind.write.crypt, 104);
  }

  lemma WriteDecodes(d: Draft)
    requires Encodable(d) && d.kind.Write?
    ensures ReadsBack(d)
  {
    hide HeaderFor;
    TypeReads(d);
    WriteReads(d);
  }

  lemma SpillReads(d: Draft)
    requires Encodable(d) && d.kind.Spill?
    ensures var h, s := HeaderFor(d), d.kind.spill;
            && U64At(h, 8) == s.objectId && U64At(h, 16) == s.logicalSize && h[32] == s.flags && h[33] == s.compression
            && U64At(h, 40) == s.compressedSize && Crypt(h[48..56], h[56..68], h[68..84]) == s.crypt
  {
    hide LittleEndian;
    hide HeaderFor;
    ByteOfHeader(d);
    var h, s := HeaderFor(d), d.kind.spill;
    HoldsNum8(h, 8, s.objectId);
    HoldsNum8(h, 16, s.logicalSize);
    HoldsNum8(h, 40, s.compressedSize);
    CryptReads(h, s.crypt, 48);
  }

  lemma SpillDecodes(d: Draft)
    requires Encodable(d) && d.kind.Spill?
    ensures ReadsBack(d)
  {
    hide HeaderFor;
    TypeReads(d);
    SpillReads(d);
  }

  lemma EmbeddedReads(d: Draft)
    requires Encodable(d) && d.kind.WriteEmbedded?
    ensures var h, w := HeaderFor(d), d.kind.embedded;
            && U64At(h, 8) == w.objectId && U64At(h, 16) == w.offset && U64At(h, 24) == w.length && h[40] == w.compression
            && h[41] == w.embeddedType && U32At(h, 48) == w.logicalSize && U32At(h, 52) == w.physicalSize
  {
    hide LittleEndian;
    hide HeaderFor;
    ByteOfHeader(d);
    var h, w := HeaderFor(d), d.kind.embedded;
    HoldsNum8(h, 8, w.objectId);
    HoldsNum8(h, 16, w.offset);
    HoldsNum8(h, 24, w.length);
    HoldsNum4(h, 48, w.logicalSize);
    HoldsNum4(h, 52, w.physicalSize);
  }

  lemma EmbeddedDecodes(d: Draft)
    requires Encodable(d) && d.kind.WriteEmbedded?
    ensures ReadsBack(d)
  {
    hide HeaderFor;
    TypeReads(d);
    EmbeddedReads(d);
  }

  lemma RangeReads(d: Draft)
    requires Encodable(d) && d.kind.ObjectRange?
    ensures var h, r := HeaderFor(d), d.kind.range;
            && U64At(h, 8) == r.firstObject && U64At(h, 16) == r.objectSlots && h[68] == r.flags
            && Crypt(h[32..40], h[40..52], h[52..68]) == r.crypt
  {
    hide LittleEndian;
    hide HeaderFor;
    ByteOfHeader(d);
    var h, r := HeaderFor(d), d.kind.range;
    HoldsNum8(h, 8, r.firstObject);
    HoldsNum8(h, 16, r.objectSlots);
    CryptReads(h, r.crypt, 32);
  }

  lemma RangeDecodes(d: Draft)
    requires Encodable(d) && d.kind.ObjectRange?
    ensures ReadsBack(d)
  {
    hide HeaderFor;
    TypeReads(d);
    RangeReads(d);
  }

  lemma PlainDecodes(d: Draft)
    requires Encodable(d) && (d.kind.FreeObjects? || d.kind.Free? || d.kind.End? || d.kind.WriteByRef? || d.kind.Redact?)
    ensures ReadsBack(d)
  {
    hide LittleEndian;
    TypeReads(d);
    ByteOfHeader(d);
    hide HeaderFor;
    var h := HeaderFor(d);
    match d.kind
    case FreeObjects(first, count) =>
      HoldsNum8(h, 8, first);
      HoldsNum8(h, 16, count);
    case Free(id, offset, length) =>
      HoldsNum8(h, 8, id);
      HoldsNum8(h, 16, offset);
      HoldsNum8(h, 24, length);
    case _ =>
  }

  /** A written header decodes to its record's kind and payload length. */
  lemma HeaderDecodes(d: Draft)
    requires Encodable(d)
    ensures ReadsBack(d)
    ensures d.kind.Begin? ==> U64At(HeaderFor(d), 8) == DMU_BACKUP_MAGIC
  {
    hide HeaderFor;
    hide ReadsBack;
    match d.kind
    case Begin(_) => BeginDecodes(d);
    case Object(_) => ObjectDecodes(d);
    case Write(_) => WriteDecodes(d);
    case Spill(_) => SpillDecodes(d);
    case WriteEmbedded(_) => EmbeddedDecodes(d);
    case ObjectRange(_) => RangeDecodes(d);
    case _ => PlainDecodes(d);
  }

  // ---------- Checks on a written header ----------

  /** The checksum fields of a written header are zero, and a written END is zero behind its type. */
  lemma HeaderPasses(d: Draft, sums: Sums)
    requires Encodable(d)
    ensures Validate(sums, HeaderFor(d), d.payload).Ok?
    ensures EventOf(HeaderFor(d)) == EventFor(d)
  {
    hide HeaderFor;
    hide Validate;
    hide EventOf;
    hide ReadsBack;
    hide ReadChecksum;
    hide ZeroFilled;
    HeaderDecodes(d);
    TrailerIsZero(d);
    if d.kind.End? {
      EndIsZero(d);
    }
    SumsPass(d, sums);
    EventReads(d);
  }

  lemma SumsPass(d: Draft, sums: Sums)
    requires Encodable(d) && ReadsBack(d) && ReadChecksum(HeaderFor(d), CHECKSUM_OFFSET) == ZERO
    requires d.kind.End? ==> ReadChecksum(HeaderFor(d), 8) == ZERO
    ensures Validate(sums, HeaderFor(d), d.payload).Ok?
  {
    hide HeaderFor;
    hide DecodeKind;
    hide PayloadSize;
    hide ReadChecksum;
    hide Words;
    hide Fold;
  }

  lemma EventReads(d: Draft)
    requires Encodable(d) && ReadsBack(d) && (d.kind.End? ==> ZeroFilled(HeaderFor(d)))
    ensures EventOf(HeaderFor(d)) == EventFor(d)
  {
    hide HeaderFor;
    hide PayloadSize;
    hide ZeroFilled;
    if d.kind.Begin? {
      BeginEvent(HeaderFor(d));
    }
    hide DecodeKind;
  }

  lemma NoSums(h: Header, at: nat)
    requires at + 32 <= RECORD_SIZE && forall i :: at <= i < at + 32 ==> h[i] == 0
    ensures ReadChecksum(h, at) == ZERO
  {
    NoNum8(h, at);
    NoNum8(h, at + 8);
    NoNum8(h, at + 16);
    NoNum8(h, at + 24);
  }

  lemma NoNum8(h: Header, at: nat)
    requires at + 8 <= RECORD_SIZE && forall i :: at <= i < at + 8 ==> h[i] == 0
    ensures U64At(h, at) == 0
  {
    var b := h[at..at + 8];
    assert b[..4] == [0, 0, 0, 0] && b[4..] == [0, 0, 0, 0];
  }

  lemma TrailerIsZero(d: Draft)
    requires Encodable(d)
    ensures ReadChecksum(HeaderFor(d), CHECKSUM_OFFSET) == ZERO
  {
    hide LittleEndian;
    hide ReadChecksum;
    ByteOfHeader(d);
    hide HeaderFor;
    NoSums(HeaderFor(d), CHECKSUM_OFFSET);
  }

  lemma EndIsZero(d: Draft)
    requires Encodable(d) && d.kind.End?
    ensures ReadChecksum(HeaderFor(d), 8) == ZERO && ZeroFilled(HeaderFor(d))
  {
    hide ReadChecksum;
    ByteOfHeader(d);
    hide HeaderFor;
    NoSums(HeaderFor(d), 8);
  }

  // ---------- Files ----------

  predicate AllEncodable(drafts: seq<Draft>) { forall d :: d in drafts ==> Encodable(d) }

  lemma FrontEncodable(drafts: seq<Draft>, n: nat)
    requires AllEncodable(drafts) && n <= |drafts|
    ensures AllEncodable(drafts[..n]) && (n < |drafts| ==> Encodable(drafts[n]))
  {
  }

  /** Header and payload of every record in turn. */
  function FileOf(drafts: seq<Draft>): seq<Byte>
    requires AllEncodable(drafts)
    decreases |drafts|
  {
    if drafts == [] then []
    else
      var n := |drafts| - 1;
      FileOf(drafts[..n]) + HeaderFor(drafts[n]) + drafts[n].payload
  }

  /** The records with the offsets they get in the file. */
  function Stamped(drafts: seq<Draft>): (records: seq<Record>)
    requires AllEncodable(drafts)
    ensures |records| == |drafts|
    ensures forall i :: 0 <= i < |drafts| ==> records[i].kind == drafts[i].kind && records[i].payload == drafts[i].payload
    decreases |drafts|
  {
    if drafts == [] then []
    else
      var n := |drafts| - 1;
      Stamped(drafts[..n]) + [Record(|FileOf(drafts[..n])|, drafts[n].kind, drafts[n].payload)]
  }

  /** The records fit the format, their framing is that of a send file, and the file's offsets fit 64 bits. */
  predicate Sendable(drafts: seq<Draft>) {
    AllEncodable(drafts) && FrameRun(CLOSED, EventsFor(drafts)) == Some(CLOSED) && |FileOf(drafts)| <= U64_MAX
  }

  lemma {:induction false} WrittenPrefix(drafts: seq<Draft>, n: nat)
    requires AllEncodable(drafts) && n <= |drafts|
    ensures AllEncodable(drafts[..n]) && FileOf(drafts[..n]) <= FileOf(drafts)
    decreases |drafts|
  {
    hide HeaderFor;
    if n < |drafts| {
      var k := |drafts| - 1;
      WrittenPrefix(drafts[..k], n);
      assert drafts[..k][..n] == drafts[..n];
    } else {
      assert drafts[..n] == drafts;
    }
  }

  lemma EventsSnoc(drafts: seq<Draft>, n: nat)
    requires n < |drafts|
    ensures EventsFor(drafts[..n + 1]) == EventsFor(drafts[..n]) + [EventFor(drafts[n])]
  {
  }

  /** A file holds a record's header and payload from an offset on. */
  ghost predicate Lies(input: seq<Byte>, start: nat, d: Draft)
    requires Encodable(d)
  {
    && start + RECORD_SIZE + |d.payload| <= |input| && HeaderAt(input, start) == HeaderFor(d)
    && input[start + RECORD_SIZE..start + RECORD_SIZE + |d.payload|] == d.payload
  }

  /** Where record n lies in the file. */
  lemma RecordLies(drafts: seq<Draft>, n: nat)
    requires AllEncodable(drafts) && n < |drafts|
    ensures AllEncodable(drafts[..n]) && AllEncodable(drafts[..n + 1]) && Encodable(drafts[n])
    ensures |FileOf(drafts[..n + 1])| == |FileOf(drafts[..n])| + RECORD_SIZE + |drafts[n].payload| <= |FileOf(drafts)|
    ensures Lies(FileOf(drafts), |FileOf(drafts[..n])|, drafts[n])
  {
    hide HeaderFor;
    hide Encodable;
    hide AllEncodable;
    hide FileOf;
    hide Stamped;
    hide Lies;
    FrontEncodable(drafts, n);
    FrontEncodable(drafts, n + 1);
    assert drafts[..n] + [drafts[n]] == drafts[..n + 1];
    WrittenSnoc(drafts[..n], drafts[n]);
    WrittenPrefix(drafts, n + 1);
    LiesBehind(FileOf(drafts[..n]), drafts[n], FileOf(drafts));
  }

  lemma LiesBehind(front: seq<Byte>, d: Draft, input: seq<Byte>)
    requires Encodable(d) && front + HeaderFor(d) + d.payload <= input
    ensures |front| + RECORD_SIZE + |d.payload| <= |input| && Lies(input, |front|, d)
  {
    hide HeaderFor;
    hide Encodable;
    PrefixParts(front, HeaderFor(d), d.payload, input);
  }

  lemma WrittenSnoc(front: seq<Draft>, d: Draft)
    requires AllEncodable(front) && Encodable(d)
    ensures AllEncodable(front + [d]) && FileOf(front + [d]) == FileOf(front) + HeaderFor(d) + d.payload
    ensures Stamped(front + [d]) == Stamped(front) + [Record(|FileOf(front)|, d.kind, d.payload)]
  {
    hide HeaderFor;
    hide Encodable;
    assert (front + [d])[..|front|] == front && (front + [d])[|front|] == d;
  }

  lemma PrefixParts(front: seq<Byte>, header: Header, payload: seq<Byte>, input: seq<Byte>)
    requires front + header + payload <= input
    ensures |front| + RECORD_SIZE + |payload| <= |input| && input[|front|..|front| + RECORD_SIZE] == header
    ensures input[|front| + RECORD_SIZE..|front| + RECORD_SIZE + |payload|] == payload
  {
    var whole := front + header + payload;
    assert forall i :: 0 <= i < |whole| ==> input[i] == whole[i];
  }

  /** A run that has read a number of written records. */
  ghost predicate HasRead(input: seq<Byte>, drafts: seq<Draft>, n: nat)
    requires AllEncodable(drafts) && n <= |drafts| && AllEncodable(drafts[..n])
  {
    var p := ReadMany(input, n);
    && p.Some? && p.value.records == Stamped(drafts[..n]) && p.value.state.offset == |FileOf(drafts[..n])|
    && FrameRun(CLOSED, EventsFor(drafts[..n])) == Some(p.value.state.flags)
  }

  lemma FramePrefix(events: seq<Event>, n: nat)
    requires n < |events| && FrameRun(CLOSED, events).Some?
    ensures FrameRun(CLOSED, events[..n]).Some? && FrameRun(CLOSED, events[..n + 1]).Some?
    ensures FrameRun(CLOSED, events[..n + 1]) == FrameStep(FrameRun(CLOSED, events[..n]).value, events[n])
  {
    hide FrameStep;
    FrameRunAppend(CLOSED, events[..n + 1], events[n + 1..]);
    assert events == events[..n + 1] + events[n + 1..];
    assert events[..n + 1][..n] == events[..n];
  }

  lemma LyingIsIntact(input: seq<Byte>, d: Draft, st: ReaderState)
    requires Encodable(d) && |input| <= U64_MAX && Lies(input, st.offset, d)
    ensures Intact(input, st) && EventOf(HeaderAt(input, st.offset)) == EventFor(d)
  {
    hide HeaderFor;
    hide DecodeKind;
    hide PayloadSize;
    hide Validate;
    hide EventOf;
    HeaderDecodes(d);
    HeaderPasses(d, st.sums);
    BeginsAreZero(d.kind);
  }

  lemma BeginsAreZero(kind: RecordKind)
    ensures TypeOf(kind) == 0 <==> kind.Begin?
  {
  }

  /** An accepted record has the kind its header decodes to. */
  lemma KindIsDecoded(input: seq<Byte>, st: ReaderState)
    requires st.offset + RECORD_SIZE <= |input| && Next(input, st).Got? && U32At(HeaderAt(input, st.offset), 0) < DRR_NUMTYPES
    ensures DecodeKind(HeaderAt(input, st.offset)) == Ok(Next(input, st).record.kind)
  {
    hide DecodeKind;
    hide PayloadSize;
    hide Validate;
    hide ZeroFilled;
  }

  /** A lying record the framing admits is the next one read. */
  lemma LyingIsRead(input: seq<Byte>, d: Draft, st: ReaderState)
    requires Encodable(d) && |input| <= U64_MAX && Lies(input, st.offset, d) && Reachable(st)
    requires FrameStep(st.flags, EventFor(d)).Some?
    ensures Next(input, st).Got?
    ensures var Got(r, next) := Next(input, st);
            && r == Record(st.offset, d.kind, d.payload) && next.offset == st.offset + RECORD_SIZE + |d.payload|
            && FrameStep(st.flags, EventFor(d)) == Some(next.flags)
  {
    hide HeaderFor;
    hide Intact;
    hide DecodeKind;
    hide PayloadSize;
    hide EventOf;
    hide FrameStep;
    hide Reachable;
    hide Next;
    LyingIsIntact(input, d, st);
    IntactFailsOnlyOnFraming(input, st);
    NextFollowsFraming(input, st);
    HeaderDecodes(d);
    KindIsDecoded(input, st);
    SizeIsDeclared(input, st);
    var Got(r, next) := Next(input, st);
    assert r.payload == d.payload;
  }

  lemma SizeIsDeclared(input: seq<Byte>, st: ReaderState)
    requires st.offset <= |input| && Next(input, st).Got?
    ensures st.offset + RECORD_SIZE <= |input|
    ensures Next(input, st).next.offset == st.offset + RECORD_SIZE + PayloadSize(HeaderAt(input, st.offset))
  {
    GotIsIntact(input, st);
    hide Next;
  }

  lemma RunGrows(input: seq<Byte>, n: nat)
    requires ReadMany(input, n).Some? && Next(input, ReadMany(input, n).value.state).Got?
    ensures ReadMany(input, n + 1).Some?
    ensures var p, Got(r, next) := ReadMany(input, n).value, Next(input, ReadMany(input, n).value.state);
            ReadMany(input, n + 1).value.records == p.records + [r] && ReadMany(input, n + 1).value.state == next
  {
    hide Next;
    hide EventOf;
  }

  lemma OneMoreRead(drafts: seq<Draft>, n: nat)
    requires Sendable(drafts) && n < |drafts| && AllEncodable(drafts[..n]) && AllEncodable(drafts[..n + 1])
    requires HasRead(FileOf(drafts), drafts, n)
    ensures HasRead(FileOf(drafts), drafts, n + 1)
  {
    hide FileOf;
    hide Stamped;
    hide Encodable;
    hide AllEncodable;
    hide Lies;
    hide Next;
    hide ReadMany;
    hide FrameRun;
    hide FrameStep;
    hide EventFor;
    hide Reachable;
    var input := FileOf(drafts);
    var st, d := ReadMany(input, n).value.state, drafts[n];
    RecordLies(drafts, n);
    EventsSnoc(drafts, n);
    assert EventsFor(drafts)[..n] == EventsFor(drafts[..n]) && EventsFor(drafts)[..n + 1] == EventsFor(drafts[..n + 1]);
    FramePrefix(EventsFor(drafts), n);
    LyingIsRead(input, d, st);
    RunGrows(input, n);
    assert drafts[..n] + [d] == drafts[..n + 1];
    WrittenSnoc(drafts[..n], d);
  }

  lemma {:induction false} ReadsWritten(drafts: seq<Draft>, n: nat)
    requires Sendable(drafts) && n <= |drafts|
    ensures AllEncodable(drafts[..n]) && HasRead(FileOf(drafts), drafts, n)
    decreases n
  {
    hide HasRead;
    hide Sendable;
    SendableEncodes(drafts);
    FrontEncodable(drafts, n);
    if n == 0 {
      NothingRead(drafts);
    } else {
      ReadsWritten(drafts, n - 1);
      OneMoreRead(drafts, n - 1);
    }
  }

  lemma SendableEncodes(drafts: seq<Draft>)
    requires Sendable(drafts)
    ensures AllEncodable(drafts)
  {
  }

  lemma NothingRead(drafts: seq<Draft>)
    requires AllEncodable(drafts)
    ensures AllEncodable(drafts[..0]) && HasRead(FileOf(drafts), drafts, 0)
  {
    hide FrameStep;
    hide HeaderFor;
    hide ReadMany;
    hide Next;
    ReadNone(FileOf(drafts));
    assert drafts[..0] == [] && EventsFor([]) == [] && FileOf([]) == [] && Stamped([]) == [];
  }

  /** What is written is read back, record by record, to a clean end of the file. */
  lemma WrittenIsRead(drafts: seq<Draft>)
    requires Sendable(drafts)
    ensures ReadsTo(FileOf(drafts), Stamped(drafts))
  {
    ReadsWritten(drafts, |drafts|);
    assert drafts[..|drafts|] == drafts;
    hide HeaderFor;
    hide FileOf;
    hide Stamped;
    hide FrameRun;
    hide NextRecord;
  }

  // ---------- Building sendable lists ----------

  lemma EventsJoin(a: seq<Draft>, b: seq<Draft>)
    ensures EventsFor(a + b) == EventsFor(a) + EventsFor(b)
  {
    hide EventFor;
  }

  /** A million records always fit a file whose offsets fit 64 bits. */
  lemma {:induction false} WrittenFits(drafts: seq<Draft>)
    requires AllEncodable(drafts)
    ensures |FileOf(drafts)| <= |drafts| * (RECORD_SIZE + MAX_PAYLOAD_SIZE)
    ensures |drafts| <= 1_000_000 ==> |FileOf(drafts)| <= U64_MAX
    decreases |drafts|
  {
    hide HeaderFor;
    if drafts != [] {
      var n := |drafts| - 1;
      FrontEncodable(drafts, n);
      WrittenFits(drafts[..n]);
      OneMore(n, RECORD_SIZE + MAX_PAYLOAD_SIZE);
    }
    if |drafts| <= 1_000_000 {
      MulMonotone(|drafts|, 1_000_000, RECORD_SIZE + MAX_PAYLOAD_SIZE);
    }
  }

  /** A substream: its BEGIN, body records and an END. */
  function WithEnds(begin: Draft, body: seq<Draft>): seq<Draft> { [begin] + body + [Draft(End, [])] }

  lemma SubstreamIsSendable(begin: Draft, body: seq<Draft>)
    requires begin.kind.Begin? && begin.kind.begin.headerType == DMU_SUBSTREAM && Encodable(begin)
    requires AllEncodable(body) && (forall d :: d in body ==> EventFor(d) == Body) && |body| <= 1000
    ensures Sendable(WithEnds(begin, body))
  {
    var drafts, sub := WithEnds(begin, body), Substream(EventsFor(body), true);
    assert EventsFor(drafts) == FlatSub(BeginSub, sub);
    SubstreamAccepted(false, BeginSub, sub);
    WrittenFits(drafts);
  }

  lemma SendsJoin(a: seq<Draft>, b: seq<Draft>)
    requires Sendable(a) && Sendable(b) && |a| + |b| <= 1_000_000
    ensures Sendable(a + b)
  {
    hide EventsFor;
    hide FrameRun;
    hide Encodable;
    EventsJoin(a, b);
    FrameRunAppend(CLOSED, EventsFor(a), EventsFor(b));
    WrittenFits(a + b);
  }
}
