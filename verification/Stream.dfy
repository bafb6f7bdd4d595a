/** The send-stream reader: header parsing, framing and checksums (src/stream.rs, `StreamReader`). */
module Stream {
  import opened Bytes
  import opened Records
  import opened Fletcher

  const CHECKSUM_OFFSET: nat := 280

  const MAX_PAYLOAD_SIZE: nat := 256 * 1024 * 1024

  const DMU_BACKUP_MAGIC: nat := 0x2_f5ba_cbac

  const DRR_NUMTYPES: nat := 11

  datatype Error = Io | Invalid | Unsupported | BadChecksum

  datatype Result<+T> = Ok(value: T) | Err(error: Error)

  /** A 312-byte record header. */
  type Header = h: seq<Byte> | |h| == RECORD_SIZE witness seq(RECORD_SIZE, _ => 0)

  // ---------- Pure header decoding ----------

  function U32At(h: Header, at: nat): U32
    requires at + 4 <= RECORD_SIZE
  {
    Le32(h[at..at + 4])
  }

  function U64At(h: Header, at: nat): U64
    requires at + 8 <= RECORD_SIZE
  {
    Le64(h[at..at + 8])
  }

  function Reversed8(b: seq<Byte>): seq<Byte>
    requires |b| == 8
  {
    [b[7], b[6], b[5], b[4], b[3], b[2], b[1], b[0]]
  }

  function RoundUp8(value: U32): nat { (value + 7) / 8 * 8 }

  function PayloadSize(h: Header): U64 {
    var t := U32At(h, 0);
    if t == 0 then U32At(h, 4)
    else if t == 1 then if U32At(h, 36) != 0 then U32At(h, 36) else RoundUp8(U32At(h, 28))
    else if t == 3 then if h[50] == 0 then U64At(h, 32) else U64At(h, 96)
    else if t == 7 then if U64At(h, 40) == 0 then U64At(h, 16) else U64At(h, 40)
    else if t == 8 then RoundUp8(U32At(h, 52))
    else 0
  }

  /** The record kind, for a header whose type has been range checked. */
  function DecodeKind(h: Header): Result<RecordKind>
    requires U32At(h, 0) < DRR_NUMTYPES
  {
    var t := U32At(h, 0);
    if t == 0 then DecodeBegin(h)
    else if t == 1 then Ok(Object(ObjectRecord(
      U64At(h, 8), U32At(h, 16), U32At(h, 20), U32At(h, 24), U32At(h, 28), h[32], h[33], h[34], h[35],
      h[48], h[49], h[50], U64At(h, 56))))
    else if t == 2 then Ok(FreeObjects(U64At(h, 8), U64At(h, 16)))
    else if t == 3 then Ok(Write(WriteRecord(
      U64At(h, 8), U32At(h, 16), U64At(h, 24), U64At(h, 32), h[49], U64At(h, 96), h[50],
      Crypt(h[104..112], h[112..124], h[124..140]))))
    else if t == 4 then Ok(Free(U64At(h, 8), U64At(h, 16), U64At(h, 24)))
    else if t == 5 then Ok(End)
    else if t == 6 then Ok(WriteByRef)
    else if t == 7 then Ok(Spill(SpillRecord(
      U64At(h, 8), U64At(h, 16), h[32], h[33], U64At(h, 40), Crypt(h[48..56], h[56..68], h[68..84]))))
    else if t == 8 then Ok(WriteEmbedded(EmbeddedRecord(
      U64At(h, 8), U64At(h, 16), U64At(h, 24), h[40], h[41], U32At(h, 48), U32At(h, 52))))
    else if t == 9 then Ok(ObjectRange(ObjectRangeRecord(
      U64At(h, 8), U64At(h, 16), Crypt(h[32..40], h[40..52], h[52..68]), h[68])))
    else Ok(Redact)
  }

  function DecodeBegin(h: Header): Result<RecordKind> {
    if U64At(h, 8) != DMU_BACKUP_MAGIC && Le64(Reversed8(h[8..16])) != DMU_BACKUP_MAGIC then Err(Invalid)
    else
      var versionInfo := U64At(h, 16);
      var headerType := versionInfo % 4;
      if headerType != DMU_SUBSTREAM && headerType != DMU_COMPOUNDSTREAM then Err(Unsupported)
      // FEATURE_RAW is bit 24 of the feature word, which starts at bit 2.
      else Ok(Begin(BeginRecord(headerType, U64At(h, 40), U64At(h, 48), (versionInfo / 0x400_0000) % 2 == 1)))
  }

  lemma KindMatchesType(h: Header)
    requires U32At(h, 0) < DRR_NUMTYPES && DecodeKind(h).Ok?
    ensures DecodeKind(h).value.Begin? <==> U32At(h, 0) == 0
    ensures DecodeKind(h).value.End? <==> U32At(h, 0) == 5
  {
  }

  function ReadChecksum(h: Header, at: nat): Sums
    requires at + 32 <= RECORD_SIZE
  {
    Sums(U64At(h, at), U64At(h, at + 8), U64At(h, at + 16), U64At(h, at + 24))
  }

  // ---------- Specification: framing as an automaton over record events ----------

  datatype Event = BeginSub | BeginCompound | Body | EndOf(zeroFilled: bool)

  datatype Flags = Flags(segmentOpen: bool, compoundOpen: bool)

  const CLOSED: Flags := Flags(false, false)

  function FrameStep(f: Flags, e: Event): Option<Flags> {
    match e
    case BeginSub => if f.segmentOpen then None else Some(f.(segmentOpen := true))
    case BeginCompound => if f.segmentOpen || f.compoundOpen then None else Some(Flags(true, true))
    case Body => if f.segmentOpen then Some(f) else None
    case EndOf(zeroFilled) =>
      if f.segmentOpen then Some(f.(segmentOpen := false))
      else if f.compoundOpen && zeroFilled then Some(CLOSED)
      else None
  }

  // ---------- Specification: one call of the reader ----------

  datatype ReaderState = ReaderState(offset: nat, started: bool, flags: Flags, sawEnd: bool, sums: Sums)

  const READER_START: ReaderState := ReaderState(0, false, CLOSED, false, ZERO)

  datatype Outcome = EndOfInput | Got(record: Record, next: ReaderState) | Failed(error: Error)

  predicate ZeroFilled(h: Header) { AllZero(h[4..]) }

  /** The checksum after a record, when its own checksum fields are acceptable. */
  function Validate(sums: Sums, h: Header, payload: seq<Byte>): Result<Sums> {
    var t := U32At(h, 0);
    if t == 0 then
      if |payload| % 4 != 0 then Err(Invalid) else Ok(Fold(Checksum(h), Words(payload)))
    else if t == 5 && ReadChecksum(h, 8) != ZERO && ReadChecksum(h, 8) != sums then Err(BadChecksum)
    else ValidateTrailer(Fold(sums, Words(h[..CHECKSUM_OFFSET])), h, payload)
  }

  /** The sums up to a record's own checksum field, which they must equal unless it is zero. */
  function ValidateTrailer(head: Sums, h: Header, payload: seq<Byte>): Result<Sums> {
    if ReadChecksum(h, CHECKSUM_OFFSET) != ZERO && ReadChecksum(h, CHECKSUM_OFFSET) != head then Err(BadChecksum)
    else if U32At(h, 0) == 5 then Ok(head)
    else if |payload| % 4 != 0 then Err(Invalid)
    else Ok(Fold(Fold(head, Words(h[CHECKSUM_OFFSET..])), Words(payload)))
  }

  function Next(input: seq<Byte>, st: ReaderState): Outcome
    requires st.offset <= |input|
  {
    var f := st.flags;
    if st.offset == |input| then
      if st.started && (f.segmentOpen || f.compoundOpen) then Failed(Invalid) else EndOfInput
    else if st.offset + RECORD_SIZE > |input| then Failed(Io)
    else NextRecord(input, st, input[st.offset..st.offset + RECORD_SIZE])
  }

  function NextRecord(input: seq<Byte>, st: ReaderState, h: Header): Outcome
    requires st.offset + RECORD_SIZE <= |input|
  {
    var t, f := U32At(h, 0), st.flags;
    var conclusion := t == 5 && !f.segmentOpen;
    if t >= DRR_NUMTYPES then Failed(Invalid)
    else if !st.started && t != 0 then Failed(Invalid)
    else if f.segmentOpen && t == 0 then Failed(Invalid)
    else if conclusion && !f.compoundOpen then Failed(Invalid)
    else if !f.segmentOpen && t != 0 && !conclusion then Failed(Invalid)
    else if PayloadSize(h) > MAX_PAYLOAD_SIZE then Failed(Invalid)
    else
      var end := st.offset + RECORD_SIZE + PayloadSize(h);
      if end > |input| then Failed(Io)
      else
        var payload := input[st.offset + RECORD_SIZE..end];
        var kind := DecodeKind(h);
        if kind.Err? then Failed(kind.error)
        else if conclusion && !ZeroFilled(h) then Failed(Invalid)
        else
          var sums := if conclusion then Ok(st.sums) else Validate(st.sums, h, payload);
          if sums.Err? then Failed(sums.error)
          else if t == 0 && U64At(h, 8) != DMU_BACKUP_MAGIC then Failed(Unsupported)
          else if t == 0 && kind.value.begin.headerType == DMU_COMPOUNDSTREAM && f.compoundOpen then Failed(Invalid)
          else if end > U64_MAX then Failed(Invalid)
          else
            var flags :=
              if t == 0 then Flags(true, f.compoundOpen || kind.value.begin.headerType == DMU_COMPOUNDSTREAM)
              else if conclusion then CLOSED
              else if t == 5 then f.(segmentOpen := false)
              else f;
            Got(Record(st.offset, kind.value, payload),
                ReaderState(end, st.started || t == 0, flags, st.sawEnd || (t == 5 && !conclusion), sums.value))
  }

  // ---------- The reader ----------

  class StreamReader {
    const input: seq<Byte>
    var offset: nat
    var started: bool
    var segmentOpen: bool
    var compoundOpen: bool
    var sawEnd: bool
    var checksum: Fletcher4

    ghost function State(): ReaderState
      reads this, checksum
    {
      ReaderState(offset, started, Flags(segmentOpen, compoundOpen), sawEnd, checksum.sums)
    }

    constructor (input: seq<Byte>)
      ensures this.input == input && State() == READER_START && fresh(checksum)
    {
      this.input, offset, started, segmentOpen, compoundOpen, sawEnd := input, 0, false, false, false, false;
      checksum := new Fletcher4();
    }

    method NextRecord() returns (outcome: Result<Option<Record>>)
      requires offset <= |input|
      modifies this, checksum
      ensures offset <= |input| && checksum == old(checksum)
      ensures match old(Next(input, State()))
              case EndOfInput => outcome == Ok(None) && State() == old(State())
              case Got(record, next) => outcome == Ok(Some(record)) && State() == next
              case Failed(error) => outcome == Err(error)
    {
      hide Validate;
      hide DecodeKind;
      hide PayloadSize;
      if offset == |input| {
        if !started {
          return Ok(None);
        }
        if segmentOpen {
          return Err(Invalid);
        }
        if compoundOpen {
          return Err(Invalid);
        }
        return Ok(None);
      }
      if offset + RECORD_SIZE > |input| {
        return Err(Io);
      }
      var header: Header := input[offset..offset + RECORD_SIZE];
      var recordType := U32At(header, 0);
      if recordType >= DRR_NUMTYPES {
        return Err(Invalid);
      }
      if !started && recordType != 0 {
        return Err(Invalid);
      }
      if segmentOpen && recordType == 0 {
        return Err(Invalid);
      }
      var conclusion := recordType == 5 && !segmentOpen;
      if conclusion && !compoundOpen {
        return Err(Invalid);
      }
      if !segmentOpen && recordType != 0 && !conclusion {
        return Err(Invalid);
      }
      var payloadSize := PayloadSize(header);
      if payloadSize > MAX_PAYLOAD_SIZE {
        return Err(Invalid);
      }
      if offset + RECORD_SIZE + payloadSize > |input| {
        return Err(Io);
      }
      var payload := input[offset + RECORD_SIZE..offset + RECORD_SIZE + payloadSize];
      var kind := DecodeKind(header);
      if kind.Err? {
        return Err(kind.error);
      }
      if conclusion {
        if !ZeroFilled(header) {
          return Err(Invalid);
        }
      } else {
        var valid := ValidateChecksum(header, payload);
        if valid.Err? {
          return Err(valid.error);
        }
      }
      KindMatchesType(header);
      outcome := Advance(header, recordType, conclusion, kind.value, payload);
    }

    /** The tail of `next_record`: open or close segments and move past the record. */
    method Advance(header: Header, recordType: U32, conclusion: bool, kind: RecordKind, payload: seq<Byte>)
      returns (outcome: Result<Option<Record>>)
      requires recordType == 0 ==> kind.Begin?
      requires recordType == 5 <==> kind.End?
      requires recordType != 0 ==> !kind.Begin?
      requires offset + RECORD_SIZE + |payload| <= |input|
      modifies this
      ensures checksum == old(checksum) && offset <= |input|
      ensures outcome ==
        if recordType == 0 && U64At(header, 8) != DMU_BACKUP_MAGIC then Err(Unsupported)
        else if recordType == 0 && kind.begin.headerType == DMU_COMPOUNDSTREAM && old(compoundOpen) then Err(Invalid)
        else if old(offset) + RECORD_SIZE + |payload| > U64_MAX then Err(Invalid)
        else Ok(Some(Record(old(offset), kind, payload)))
      ensures outcome.Ok? ==> State() == ReaderState(
        old(offset) + RECORD_SIZE + |payload|, old(started) || recordType == 0,
        if recordType == 0 then Flags(true, old(compoundOpen) || kind.begin.headerType == DMU_COMPOUNDSTREAM)
        else if recordType == 5 && conclusion then Flags(old(segmentOpen), false)
        else if recordType == 5 then Flags(false, old(compoundOpen))
        else Flags(old(segmentOpen), old(compoundOpen)),
        old(sawEnd) || (recordType == 5 && !conclusion), checksum.sums)
    {
      var recordOffset := offset;
      if kind.Begin? {
        if U64At(header, 8) != DMU_BACKUP_MAGIC {
          return Err(Unsupported);
        }
        if kind.begin.headerType == DMU_COMPOUNDSTREAM {
          if compoundOpen {
            return Err(Invalid);
          }
          compoundOpen := true;
        }
        started := true;
        segmentOpen := true;
      }
      if kind.End? {
        if conclusion {
          compoundOpen := false;
        } else {
          segmentOpen := false;
          sawEnd := true;
        }
      }
      if offset + RECORD_SIZE + |payload| > U64_MAX {
        return Err(Invalid);
      }
      offset := offset + RECORD_SIZE + |payload|;
      return Ok(Some(Record(recordOffset, kind, payload)));
    }

    method ValidateChecksum(header: Header, payload: seq<Byte>) returns (outcome: Result<()>)
      modifies checksum
      ensures var expected := Validate(old(checksum.sums), header, payload);
              && (outcome.Ok? <==> expected.Ok?)
              && (expected.Ok? ==> checksum.sums == expected.value)
              && (expected.Err? ==> outcome == Err(expected.error))
    {
      hide Words;
      hide Fold;
      hide ReadChecksum;
      var recordType := U32At(header, 0);
      if recordType == 0 {
        checksum.Reset();
        var ok := checksum.Update(header);
        ok := checksum.Update(payload);
        return if ok then Ok(()) else Err(Invalid);
      }
      if recordType == 5 {
        var expected := ReadChecksum(header, 8);
        if expected != ZERO && expected != checksum.sums {
          return Err(BadChecksum);
        }
      }
      var ok := checksum.Update(header[..CHECKSUM_OFFSET]);
      var recordChecksum := ReadChecksum(header, CHECKSUM_OFFSET);
      if recordChecksum != ZERO && recordChecksum != checksum.sums {
        return Err(BadChecksum);
      }
      if recordType != 5 {
        ok := checksum.Update(header[CHECKSUM_OFFSET..]);
        ok := checksum.Update(payload);
        return if ok then Ok(()) else Err(Invalid);
      }
      return Ok(());
    }
  }
}
