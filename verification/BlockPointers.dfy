/** Portable block-pointer properties: built from send records on one side, masked out of on-disk pointers on
    the other (src/encrypted.rs, `BlockPointerAuth`, `block_prop`, `pool_block_pointer_auth`). */
module BlockPointers {
  import opened Bytes

  const BLKPTR_SIZE: nat := 128

  /** A 128-byte on-disk block pointer. */
  type RawPointer = p: seq<Byte> | |p| == 128 witness seq(128, _ => 0)

  datatype Auth = Auth(prop: U64, mac: Mac)

  const HOLE: Auth := Auth(0, Zeros(16))

  // ---------- The property word ----------

  /** The bit fields of a property word, least significant first. */
  datatype Fields = Fields(
    lsize: nat, psize: nat, compression: nat, embedded: nat, checksum: nat, objectType: nat, level: nat,
    crypt: nat, dedup: nat, byteorder: nat)
  {
    predicate Bounded() {
      && lsize < 0x1_0000 && psize < 0x1_0000 && compression < 0x80 && embedded < 2 && checksum < 0x100
      && objectType < 0x100 && level < 0x20 && crypt < 2 && dedup < 2 && byteorder < 2
    }
  }

  /** The disjoint fields joined: the bitwise "or" of shifted fields is their sum. */
  function Word(f: Fields): U64
    requires f.Bounded()
  {
    f.lsize + 0x1_0000 * f.psize + 0x1_0000_0000 * f.compression + 0x80_0000_0000 * f.embedded
    + 0x100_0000_0000 * f.checksum + 0x1_0000_0000_0000 * f.objectType + 0x100_0000_0000_0000 * f.level
    + 0x2000_0000_0000_0000 * f.crypt + 0x4000_0000_0000_0000 * f.dedup + 0x8000_0000_0000_0000 * f.byteorder
  }

  /** The field of `span` values whose lowest bit weighs `unit`. */
  function FieldOf(w: U64, unit: nat, span: nat): nat
    requires unit > 0 && span > 0
  {
    w / unit % span
  }

  /** `w & !((span - 1) << shift)`, where unit is 1 << shift. */
  function ClearBits(w: U64, unit: nat, span: nat): U64
    requires unit > 0 && span > 0
  {
    ClearFits(w, unit, span);
    w - FieldOf(w, unit, span) * unit
  }

  lemma ClearFits(w: U64, unit: nat, span: nat)
    requires unit > 0 && span > 0
    ensures 0 <= FieldOf(w, unit, span) * unit <= w
  {
    var q := w / unit;
    DivideBounds(w, unit);
    DivideBounds(q, span);
    MulMonotone(q % span, q, unit);
  }

  function SizeField(size: U64): Option<nat> {
    if size < 512 || size % 512 != 0 || size / 512 > 65536 then None else Some(size / 512 - 1)
  }

  function BlockProp(logicalSize: U64, physicalSize: U64, compression: Byte, objectType: U32, level: Byte, byteorder: nat)
    : (r: Option<U64>)
    ensures r.Some? ==> r.value != 0
  {
    if compression > 0x7f || level > 0x1f || byteorder > 1 then None
    else
      var lsize, psize := SizeField(logicalSize), SizeField(physicalSize);
      if lsize.None? || psize.None? || objectType > 255 then None
      else Some(Word(Fields(lsize.value, psize.value, compression, 0, 0, objectType, level, 1, 0, byteorder)))
  }

  // ---------- Encodings ----------

  /** The key versions the program knows; it refuses any other. */
  type Version = v: int | 0 <= v <= 1

  /** Version 1 pads each pointer to 32 bytes. */
  function PointerSize(version: Version): nat { if version == 1 then 32 else 24 }

  function Encode(version: Version, a: Auth): (b: seq<Byte>)
    ensures |b| == PointerSize(version)
  {
    LittleEndian(a.prop, 8) + a.mac + if version == 1 then Zeros(8) else []
  }

  /** The fixed-width encoding loses nothing. */
  lemma EncodeInjective(version: Version, a: Auth, b: Auth)
    requires Encode(version, a) == Encode(version, b)
    ensures a == b
  {
    assert Encode(version, a)[..8] == LittleEndian(a.prop, 8) && Encode(version, b)[..8] == LittleEndian(b.prop, 8);
    assert Encode(version, a)[8..24] == a.mac && Encode(version, b)[8..24] == b.mac;
    U64Fits();
    LittleEndianRoundTrip(a.prop, 8);
    LittleEndianRoundTrip(b.prop, 8);
  }

  // ---------- The pool side ----------

  function PropWord(raw: RawPointer): U64 { Le64(raw[48..56]) }

  predicate IsHole(raw: RawPointer) { AllZero(raw[..16]) && FieldOf(PropWord(raw), 0x80_0000_0000, 2) == 0 }

  /** The masks applied to an on-disk property word. */
  function PoolProp(raw: RawPointer, version: U64): U64 {
    var w := PropWord(raw);
    if version == 0 then
      ClearBits(ClearBits(ClearBits(w, 0x4000_0000_0000_0000, 2), 0x100_0000_0000, 0x100), 0x1_0000, 0x1_0000)
    else if IsHole(raw) then 0
    else PortableProp(w)
  }

  function PortableProp(w: U64): U64 {
    var masked :=
      if FieldOf(w, 0x100_0000_0000_0000, 0x20) != 0 then
        ClearBits(ClearBits(ClearBits(w, 0x8000_0000_0000_0000, 2), 0x1_0000_0000, 0x80), 0x1_0000, 0x1_0000)
      else w;
    ClearBits(ClearBits(masked, 0x4000_0000_0000_0000, 2), 0x100_0000_0000, 0x100)
  }

  const DMU_OT_OBJSET: nat := 11

  function PoolMac(raw: RawPointer): Mac {
    if FieldOf(PropWord(raw), 0x1_0000_0000_0000, 0x100) == DMU_OT_OBJSET || IsHole(raw) then Zeros(16)
    else raw[112..128]
  }

  /** `pool_block_pointer_auth`; None for a truncated pointer or an unknown key version. */
  function PoolAuthBytes(raw: seq<Byte>, version: U64): Option<seq<Byte>> {
    if |raw| != 128 || version > 1 then None
    else Some(LittleEndian(PoolProp(raw, version), 8) + PoolMac(raw) + if version == 1 then Zeros(8) else [])
  }

  /** The pointer as the send side would describe it. */
  function Normalized(version: Version, raw: RawPointer): Auth { Auth(PoolProp(raw, version), PoolMac(raw)) }

  lemma PoolAuthIsNormalized(version: Version, raw: RawPointer)
    ensures PoolAuthBytes(raw, version) == Some(Encode(version, Normalized(version, raw)))
  {
  }

  /** Under version 1 every hole is the empty pointer. */
  lemma HoleIsNormalized(raw: RawPointer)
    requires IsHole(raw)
    ensures Normalized(1, raw) == HOLE
  {
  }

  // ---------- The masks keep exactly the portable fields ----------

  lemma FieldAt(w: U64, low: nat, unit: nat, value: nat, span: nat, high: nat)
    requires low < unit && value < span && w == low + unit * (value + span * high)
    ensures FieldOf(w, unit, span) == value
  {
    DivideExact(low, unit, value + span * high);
    assert (value + span * high) / span == high by { DivideExact(value, span, high); }
  }

  // Clearing a field of a joined word clears that field and no other.

  lemma ClearsByteorder(f: Fields)
    requires f.Bounded()
    ensures ClearBits(Word(f), 0x8000_0000_0000_0000, 2) == Word(f.(byteorder := 0))
  {
    hide FieldOf;
    FieldAt(Word(f), Word(f.(byteorder := 0)), 0x8000_0000_0000_0000, f.byteorder, 2, 0);
  }

  lemma ClearsDedup(f: Fields)
    requires f.Bounded()
    ensures ClearBits(Word(f), 0x4000_0000_0000_0000, 2) == Word(f.(dedup := 0))
  {
    hide FieldOf;
    FieldAt(Word(f), Word(f.(dedup := 0, byteorder := 0)), 0x4000_0000_0000_0000, f.dedup, 2, f.byteorder);
  }

  lemma ReadsLevel(f: Fields)
    requires f.Bounded()
    ensures FieldOf(Word(f), 0x100_0000_0000_0000, 0x20) == f.level
  {
    hide FieldOf;
    var low := Word(f.(level := 0, crypt := 0, dedup := 0, byteorder := 0));
    FieldAt(Word(f), low, 0x100_0000_0000_0000, f.level, 0x20, f.crypt + 2 * f.dedup + 4 * f.byteorder);
  }

  lemma ClearsChecksum(f: Fields)
    requires f.Bounded()
    ensures ClearBits(Word(f), 0x100_0000_0000, 0x100) == Word(f.(checksum := 0))
  {
    hide FieldOf;
    var low := f.lsize + 0x1_0000 * f.psize + 0x1_0000_0000 * f.compression + 0x80_0000_0000 * f.embedded;
    var high := f.objectType + 0x100 * f.level + 0x2000 * f.crypt + 0x4000 * f.dedup + 0x8000 * f.byteorder;
    FieldAt(Word(f), low, 0x100_0000_0000, f.checksum, 0x100, high);
  }

  lemma ClearsCompression(f: Fields)
    requires f.Bounded()
    ensures ClearBits(Word(f), 0x1_0000_0000, 0x80) == Word(f.(compression := 0))
  {
    hide FieldOf;
    var low := f.lsize + 0x1_0000 * f.psize;
    var high := f.embedded + 2 * f.checksum + 0x200 * f.objectType + 0x2_0000 * f.level + 0x40_0000 * f.crypt
                + 0x80_0000 * f.dedup + 0x100_0000 * f.byteorder;
    FieldAt(Word(f), low, 0x1_0000_0000, f.compression, 0x80, high);
  }

  lemma ClearsPsize(f: Fields)
    requires f.Bounded()
    ensures ClearBits(Word(f), 0x1_0000, 0x1_0000) == Word(f.(psize := 0))
  {
    hide FieldOf;
    var high := f.compression + 0x80 * f.embedded + 0x100 * f.checksum + 0x1_0000 * f.objectType + 0x100_0000 * f.level
                + 0x2000_0000 * f.crypt + 0x4000_0000 * f.dedup + 0x8000_0000 * f.byteorder;
    FieldAt(Word(f), f.lsize, 0x1_0000, f.psize, 0x1_0000, high);
  }

  /** What survives the masks: everything but the dedup and checksum fields, and in an indirect pointer also
      everything but the byte order, compression and physical size. */
  function Portable(f: Fields): Fields {
    var kept := f.(dedup := 0, checksum := 0);
    if f.level != 0 then kept.(byteorder := 0, compression := 0, psize := 0) else kept
  }

  lemma MasksKeepPortableFields(f: Fields)
    requires f.Bounded()
    ensures PortableProp(Word(f)) == Word(Portable(f))
  {
    hide FieldOf;
    hide Word;
    hide ClearBits;
    ReadsLevel(f);
    var g := f;
    if f.level != 0 {
      ClearsByteorder(f);
      ClearsCompression(f.(byteorder := 0));
      ClearsPsize(f.(byteorder := 0, compression := 0));
      g := f.(byteorder := 0, compression := 0, psize := 0);
    }
    ClearsDedup(g);
    ClearsChecksum(g.(dedup := 0));
  }

  /** An on-disk pointer whose portable fields describe a written block normalizes to the property word the
      send side builds from the record: the leaf keeps all sizes and its byte order, an indirect pointer is
      described with the smallest physical size, no compression and byte order zero. */
  lemma PoolPropMatchesSend(raw: RawPointer, f: Fields, logicalSize: U64, physicalSize: U64, compression: Byte,
                            objectType: U32, level: Byte, byteorder: nat)
    requires f.Bounded() && PropWord(raw) == Word(f) && !IsHole(raw) && f.embedded == 0 && f.crypt == 1
    requires BlockProp(logicalSize, physicalSize, compression, objectType, level, byteorder).Some?
    requires SizeField(logicalSize) == Some(f.lsize) && objectType == f.objectType && level == f.level
    requires if level == 0
             then SizeField(physicalSize) == Some(f.psize) && compression == f.compression && byteorder == f.byteorder
             else physicalSize == 512 && compression == 0 && byteorder == 0
    ensures BlockProp(logicalSize, physicalSize, compression, objectType, level, byteorder) == Some(PoolProp(raw, 1))
  {
    hide Word;
    hide PortableProp;
    MasksKeepPortableFields(f);
  }

  // ---------- Key version 0 ----------

  lemma VersionZeroMasks(raw: RawPointer, f: Fields)
    requires f.Bounded() && PropWord(raw) == Word(f)
    ensures PoolProp(raw, 0) == Word(f.(dedup := 0, checksum := 0, psize := 0))
  {
    hide FieldOf;
    hide Word;
    hide ClearBits;
    ClearsDedup(f);
    ClearsChecksum(f.(dedup := 0));
    ClearsPsize(f.(dedup := 0, checksum := 0));
  }

  /** Under key version 0 the send side describes every block with the smallest physical size. The two words of a
      leaf then agree; those of an indirect pointer agree only if it is stored uncompressed with byte order zero. */
  lemma VersionZeroAgreesIff(raw: RawPointer, f: Fields, logicalSize: U64, compression: Byte, objectType: U32, level: Byte,
                             byteorder: nat)
    requires f.Bounded() && PropWord(raw) == Word(f) && f.embedded == 0 && f.crypt == 1
    requires BlockProp(logicalSize, 512, compression, objectType, level, byteorder).Some?
    requires SizeField(logicalSize) == Some(f.lsize) && objectType == f.objectType && level == f.level
    requires if level == 0 then compression == f.compression && byteorder == f.byteorder
             else compression == 0 && byteorder == 0
    ensures BlockProp(logicalSize, 512, compression, objectType, level, byteorder) == Some(PoolProp(raw, 0))
       <==> level == 0 || (f.compression == 0 && f.byteorder == 0)
  {
    hide PoolProp;
    VersionZeroMasks(raw, f);
  }

  /** Under key version 0 a hole on disk agrees with the empty pointer of the send side only if every kept field is zero. */
  lemma VersionZeroHoleIff(raw: RawPointer, f: Fields)
    requires f.Bounded() && PropWord(raw) == Word(f)
    ensures IsHole(raw) ==>
              (Normalized(0, raw) == HOLE <==> f.(dedup := 0, checksum := 0, psize := 0) == Fields(0, 0, 0, 0, 0, 0, 0, 0, 0, 0))
  {
    hide PoolProp;
    hide FieldOf;
    hide PropWord;
    VersionZeroMasks(raw, f);
  }
}
