/** Replay records (src/stream.rs) and how a WRITE payload becomes plaintext (src/compression.rs,
    src/encrypted.rs). Library codecs and ciphers are parameters. */
module Records {
  import opened Bytes

  const DMU_SUBSTREAM: int := 1

  const DMU_COMPOUNDSTREAM: int := 2

  const RECORD_SIZE: nat := 312

  datatype BeginRecord = BeginRecord(headerType: int, toGuid: U64, fromGuid: U64, raw: bool)

  datatype ObjectRecord = ObjectRecord(
    objectId: U64, objectType: U32, bonusType: U32, blockSize: U32, bonusLength: U32, checksumType: Byte,
    compression: Byte, dnodeSlots: Byte, flags: Byte, indirectBlockShift: Byte, levels: Byte,
    blockPointers: Byte, maxBlockId: U64)

  /** Salt, initialisation vector and tag of a protected block. */
  datatype Crypt = Crypt(salt: seq<Byte>, iv: seq<Byte>, mac: Mac)

  datatype WriteRecord = WriteRecord(
    objectId: U64, objectType: U32, offset: U64, logicalSize: U64, flags: Byte, compressedSize: U64,
    compression: Byte, crypt: Crypt)

  datatype EmbeddedRecord = EmbeddedRecord(
    objectId: U64, offset: U64, length: U64, compression: Byte, embeddedType: Byte,
    logicalSize: U32, physicalSize: U32)

  datatype SpillRecord = SpillRecord(
    objectId: U64, logicalSize: U64, flags: Byte, compression: Byte, compressedSize: U64, crypt: Crypt)

  datatype ObjectRangeRecord = ObjectRangeRecord(firstObject: U64, objectSlots: U64, crypt: Crypt, flags: Byte)

  datatype RecordKind =
    | Begin(begin: BeginRecord)
    | Object(dnode: ObjectRecord)
    | FreeObjects(firstObject: U64, objectCount: U64)
    | Write(write: WriteRecord)
    | Free(objectId: U64, offset: U64, length: U64)
    | End
    | WriteByRef
    | Spill(spill: SpillRecord)
    | WriteEmbedded(embedded: EmbeddedRecord)
    | ObjectRange(range: ObjectRangeRecord)
    | Redact

  datatype Record = Record(streamOffset: nat, kind: RecordKind, payload: seq<Byte>)

  /** Whether a FREEOBJECTS range covers an object. */
  predicate Covers(firstObject: U64, objectCount: U64, objectId: U64) {
    firstObject <= objectId < SaturatingAdd(firstObject, objectCount)
  }

  predicate IsEncryptedObjectType(t: nat) {
    if (t / 0x80) % 2 == 1 then (t / 0x20) % 2 == 1
    else t in {9, 10, 18, 19, 20, 22, 23, 25, 26, 33, 34, 35, 39, 40, 44, 45, 46, 47, 49}
  }

  type Key = nat

  /** The parts of decoding whose source is not here: library codecs, key unwrapping, the cipher, the
      authentication code and the CRC. */
  datatype Codec = Codec(
    library: (int, seq<Byte>, nat) -> Option<seq<Byte>>,
    unlock: seq<Byte> -> Option<Key>,
    decrypt: (Key, Crypt, seq<Byte>) -> Option<seq<Byte>>,
    authentic: (Key, seq<Byte>, seq<Byte>) -> bool,
    crc32: seq<Byte> -> nat)
  {
    /** A library codec that answers produces exactly the logical size it was asked for. */
    ghost predicate Exact() {
      forall c, payload, n :: library(c, payload, n).Some? ==> |library(c, payload, n).value| == n
    }

    function DecompressBlock(compression: int, payload: seq<Byte>, logicalSize: nat): (r: Option<seq<Byte>>)
      ensures Exact() && r.Some? ==> |r.value| == logicalSize
    {
      if compression == 0 || compression == 1 then None
      else if compression == 2 then
        if |payload| == logicalSize then Some(payload) else None
      else library(compression, payload, logicalSize)
    }

    function DecodeReplayWrite(compression: int, payload: seq<Byte>, logicalSize: nat): (r: Option<seq<Byte>>)
      ensures Exact() && r.Some? ==> |r.value| == logicalSize
    {
      if compression == 0 then
        if |payload| == logicalSize then Some(payload) else None
      else DecompressBlock(compression, payload, logicalSize)
    }

    function DecodeEmbeddedWrite(compression: int, embeddedType: int, payload: seq<Byte>, physicalSize: nat, logicalSize: nat)
      : (r: Option<seq<Byte>>)
      ensures Exact() && r.Some? ==> |r.value| == logicalSize
    {
      if embeddedType != 0 || physicalSize > |payload| then None
      else DecompressBlock(compression, payload[..physicalSize], logicalSize)
    }

    /** A raw WRITE is decrypted, or authenticated in place, and then decompressed. */
    function DecodeRawWrite(key: Key, encrypted: bool, compression: int, crypt: Crypt, payload: seq<Byte>, logicalSize: nat)
      : (r: Option<seq<Byte>>)
      ensures Exact() && r.Some? ==> |r.value| == logicalSize
    {
      var protected :=
        if encrypted then decrypt(key, crypt, payload)
        else if authentic(key, payload, crypt.mac) then Some(payload)
        else None;
      if protected.None? then None
      else DecompressBlock(if compression == 0 then 2 else compression, protected.value, logicalSize)
    }
  }
}
