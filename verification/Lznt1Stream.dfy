/** LZNT1 chunk streams and the loops of src/ntfs_compression.rs that decode them into a buffer. */
module Lznt1Stream {
  import opened Bytes
  import opened Lznt1

  datatype Chunk = Raw(bytes: seq<Byte>) | Packed(tokens: seq<Token>)

  /** Packed tokens are legal from position zero: no back-reference leaves its chunk. */
  predicate Sound(c: Chunk) { c.Packed? ==> Legal(c.tokens, 0) }

  /** The plaintext of one chunk, whatever stands before it. */
  function ChunkText(c: Chunk): seq<Byte>
    requires Sound(c)
  {
    match c
    case Raw(bytes) => bytes
    case Packed(tokens) => Expand([], tokens)
  }

  predicate AllSound(chunks: seq<Chunk>) { chunks == [] || (Sound(chunks[0]) && AllSound(chunks[1..])) }

  function Text(chunks: seq<Chunk>): seq<Byte>
    requires AllSound(chunks)
  {
    if chunks == [] then [] else ChunkText(chunks[0]) + Text(chunks[1..])
  }

  // ---------- What the decoder reads ----------

  datatype ParsedStream = ParsedStream(chunks: seq<Chunk>, ok: bool)

  function ConsChunk(c: Chunk, p: ParsedStream): ParsedStream { ParsedStream([c] + p.chunks, p.ok) }

  /** The body of a chunk: None when nothing is written, otherwise the chunk written and whether it is complete. */
  function ParseBody(header: nat, body: seq<Byte>, room: nat): (r: (Option<Chunk>, bool))
    requires room <= CHUNK
    ensures r.0.Some? ==> Sound(r.0.value) && |ChunkText(r.0.value)| <= room
    ensures r.0.None? ==> !r.1
  {
    if header < 0x8000 then
      if |body| > room then (None, false) else (Some(Raw(body)), true)
    else
      var p := Parse(body, 0, 0, 0, room);
      (Some(Packed(p.tokens)), p.ok)
  }

  /** A chunk header: its body's size, or None. */
  function BodySize(header: nat): Option<nat> {
    if header == 0 || header / 0x1000 % 8 != 3 then None else Some(header % 0x1000 + 1)
  }

  /** What `decode_lznt1` reads from the bytes still to come, with `written` bytes already in the output: the
      chunks it writes, in full or in part, and whether it gets to the required length. */
  function ParseStream(rest: seq<Byte>, written: nat, limit: nat, required: nat): (p: ParsedStream)
    requires written <= limit && required <= limit
    ensures AllSound(p.chunks) && written + |Text(p.chunks)| <= limit
    ensures p.ok ==> required <= written + |Text(p.chunks)|
    decreases |rest|
  {
    if written >= required then ParsedStream([], true)
    else if |rest| < 2 then ParsedStream([], false)
    else
      var header := FromLittleEndian(rest[..2]);
      var size := BodySize(header);
      if size.None? || |rest| < 2 + size.value then ParsedStream([], false)
      else
        var (chunk, complete) := ParseBody(header, rest[2..2 + size.value], Min(CHUNK, limit - written));
        if chunk.None? then ParsedStream([], false)
        else
          var end := written + |ChunkText(chunk.value)|;
          if !complete || (end != written + CHUNK && end < required) then ParsedStream([chunk.value], false)
          else ConsChunk(chunk.value, ParseStream(rest[2 + size.value..], end, limit, required))
  }

  /** What `decode_lznt1` leaves in its output buffer, and whether it succeeds. */
  function Decoded(input: seq<Byte>, output: seq<Byte>, required: nat): (r: (bool, seq<Byte>))
    ensures |r.1| == |output|
  {
    if required > |output| then (false, output)
    else
      var p := ParseStream(input, 0, |output|, required);
      (p.ok, Patched(output, 0, Text(p.chunks)))
  }

  // ---------- Round trip ----------

  predicate Writable(c: Chunk, room: nat) {
    match c
    case Raw(bytes) => 1 <= |bytes| <= room
    case Packed(tokens) => tokens != [] && Legal(tokens, 0) && Size(tokens) <= room && |Serialize(tokens, 0)| <= CHUNK
  }

  /** Chunks a stream may consist of: all but the last expand to a full chunk, and the last reaches the end. */
  predicate Fits(chunks: seq<Chunk>, written: nat, limit: nat, required: nat) {
    if chunks == [] then required <= written <= limit
    else
      && written < required <= limit && Writable(chunks[0], Min(CHUNK, limit - written))
      && var end := written + |ChunkText(chunks[0])|;
         (end == written + CHUNK || required <= end) && Fits(chunks[1..], end, limit, required)
  }

  function BodyOf(c: Chunk): seq<Byte>
    requires Sound(c)
  {
    match c
    case Raw(bytes) => bytes
    case Packed(tokens) => Serialize(tokens, 0)
  }

  function HeaderOf(c: Chunk): nat
    requires Sound(c) && BodyOf(c) != []
  {
    (if c.Packed? then 0xb000 else 0x3000) + |BodyOf(c)| - 1
  }

  /** The two headers of a body size are told apart by their top bit and give the size back. */
  lemma HeaderFields(size: nat)
    requires 1 <= size <= CHUNK
    ensures BodySize(0x3000 + size - 1) == Some(size) && BodySize(0xb000 + size - 1) == Some(size)
  {
  }

  lemma {:induction false} WritableBody(c: Chunk, room: nat)
    requires Writable(c, room) && room <= CHUNK
    ensures Sound(c) && 1 <= |BodyOf(c)| <= CHUNK && |ChunkText(c)| <= room
    ensures HeaderOf(c) < 0x1_0000 && BodySize(HeaderOf(c)) == Some(|BodyOf(c)|)
    ensures HeaderOf(c) >= 0x8000 <==> c.Packed?
    ensures ParseBody(HeaderOf(c), BodyOf(c), room) == (Some(c), true)
  {
    hide Legal;
    hide Expand;
    hide Parse;
    HeaderFields(|BodyOf(c)|);
    hide BodySize;
    if c.Packed? {
      assert Serialize(c.tokens, 0) != [];
      hide Serialize;
      ChunkRoundTrip(c.tokens, 0, 0, room);
    }
  }

  function StreamBytes(chunks: seq<Chunk>): seq<Byte>
    requires AllSound(chunks) && forall c :: c in chunks ==> Sound(c) && BodyOf(c) != []
  {
    if chunks == [] then []
    else LittleEndian(HeaderOf(chunks[0]), 2) + BodyOf(chunks[0]) + StreamBytes(chunks[1..])
  }

  lemma {:induction false} FitsSound(chunks: seq<Chunk>, written: nat, limit: nat, required: nat)
    requires Fits(chunks, written, limit, required)
    ensures AllSound(chunks) && forall c :: c in chunks ==> Sound(c) && BodyOf(c) != []
  {
    hide Writable;
    hide ChunkText;
    hide BodyOf;
    if chunks != [] {
      WritableBody(chunks[0], Min(CHUNK, limit - written));
      FitsSound(chunks[1..], written + |ChunkText(chunks[0])|, limit, required);
    }
  }

  lemma ReadsHeader(c: Chunk, later: seq<Byte>, room: nat)
    requires Writable(c, room) && room <= CHUNK
    ensures Sound(c) && BodyOf(c) != []
    ensures var rest, n := LittleEndian(HeaderOf(c), 2) + BodyOf(c) + later, |BodyOf(c)|;
            && FromLittleEndian(rest[..2]) == HeaderOf(c) && BodySize(HeaderOf(c)) == Some(n) && |rest| >= 2 + n
            && rest[2..2 + n] == BodyOf(c) && rest[2 + n..] == later
            && ParseBody(HeaderOf(c), BodyOf(c), room) == (Some(c), true)
  {
    hide Writable;
    hide BodyOf;
    hide HeaderOf;
    hide BodySize;
    hide LittleEndian;
    hide FromLittleEndian;
    hide ParseBody;
    WritableBody(c, room);
    TwoBytes(HeaderOf(c));
    var rest := LittleEndian(HeaderOf(c), 2) + BodyOf(c) + later;
    assert rest[..2] == LittleEndian(HeaderOf(c), 2);
  }

  /** One written chunk in front of other bytes is read and the rest follows. */
  lemma ParsesOne(c: Chunk, later: seq<Byte>, written: nat, limit: nat, required: nat)
    requires written < required <= limit && Writable(c, Min(CHUNK, limit - written))
    requires Sound(c) && BodyOf(c) != [] && |ChunkText(c)| <= Min(CHUNK, limit - written)
    requires var end := written + |ChunkText(c)|; end == written + CHUNK || required <= end
    ensures ParseStream(LittleEndian(HeaderOf(c), 2) + BodyOf(c) + later, written, limit, required)
         == ConsChunk(c, ParseStream(later, written + |ChunkText(c)|, limit, required))
  {
    hide Writable;
    hide ChunkText;
    hide BodyOf;
    hide HeaderOf;
    hide BodySize;
    hide LittleEndian;
    hide FromLittleEndian;
    hide ParseBody;
    hide Sound;
    ReadsHeader(c, later, Min(CHUNK, limit - written));
  }

  /** Decoding a written stream, whatever padding follows it, reads exactly its chunks. */
  lemma {:induction false} StreamRoundTrip(chunks: seq<Chunk>, padding: seq<Byte>, written: nat, limit: nat, required: nat)
    requires Fits(chunks, written, limit, required)
    requires AllSound(chunks) && forall c :: c in chunks ==> Sound(c) && BodyOf(c) != []
    ensures ParseStream(StreamBytes(chunks) + padding, written, limit, required) == ParsedStream(chunks, true)
    decreases |chunks|
  {
    hide Writable;
    hide ChunkText;
    hide BodyOf;
    hide HeaderOf;
    hide LittleEndian;
    hide ParseStream;
    hide Sound;
    if chunks == [] {
      assert StreamBytes(chunks) + padding == padding;
      StreamEnds(padding, written, limit, required);
    } else {
      var c, later := chunks[0], StreamBytes(chunks[1..]) + padding;
      WritableBody(c, Min(CHUNK, limit - written));
      StreamRoundTrip(chunks[1..], padding, written + |ChunkText(c)|, limit, required);
      ParsesOne(c, later, written, limit, required);
      assert StreamBytes(chunks) + padding == LittleEndian(HeaderOf(c), 2) + BodyOf(c) + later;
      assert chunks == [c] + chunks[1..];
    }
  }

  lemma StreamEnds(rest: seq<Byte>, written: nat, limit: nat, required: nat)
    requires required <= written <= limit
    ensures ParseStream(rest, written, limit, required) == ParsedStream([], true)
  {
  }

  /** Every accepted stream consists of chunks that could have been written. */
  lemma {:induction false} AcceptedFits(rest: seq<Byte>, written: nat, limit: nat, required: nat)
    requires written <= limit && required <= limit && ParseStream(rest, written, limit, required).ok
    ensures Fits(ParseStream(rest, written, limit, required).chunks, written, limit, required)
    decreases |rest|
  {
    hide Writable;
    hide ChunkText;
    hide BodyOf;
    hide BodySize;
    hide FromLittleEndian;
    hide ParseBody;
    hide Sound;
    if written < required {
      var header := FromLittleEndian(rest[..2]);
      var size := BodySize(header).value;
      var room := Min(CHUNK, limit - written);
      var chunk := ParseBody(header, rest[2..2 + size], room).0.value;
      AcceptedBody(header, rest[2..2 + size], room);
      AcceptedFits(rest[2 + size..], written + |ChunkText(chunk)|, limit, required);
      var chunks := ParseStream(rest, written, limit, required).chunks;
      assert chunks[0] == chunk && chunks[1..] == ParseStream(rest[2 + size..], written + |ChunkText(chunk)|, limit, required).chunks;
    }
  }

  lemma AcceptedBody(header: nat, body: seq<Byte>, room: nat)
    requires BodySize(header) == Some(|body|) && room <= CHUNK && ParseBody(header, body, room).1
    ensures ParseBody(header, body, room).0.Some? && Writable(ParseBody(header, body, room).0.value, room)
  {
    hide Legal;
    hide Parse;
    hide Serialize;
    hide Expand;
    if header >= 0x8000 {
      var tokens := Parse(body, 0, 0, 0, room).tokens;
      AcceptedLength(body, 0, 0, 0, room);
      assert tokens[..0] == [] && tokens[0..] == tokens;
      NoBodies(0);
      FirstFlag(body, room);
    }
  }

  lemma FirstFlag(body: seq<Byte>, room: nat)
    requires body != [] && room <= CHUNK && Parse(body, 0, 0, 0, room).ok
    ensures Parse(body, 0, 0, 0, room).tokens != []
  {
    SomeToken(body[1..], body[0], 8, 0, room);
  }

  /** Decoding a stream of writable chunks into any buffer they fit gives their plaintext and leaves the bytes
      behind it alone. */
  lemma DecodesWrittenStream(chunks: seq<Chunk>, padding: seq<Byte>, output: seq<Byte>, required: nat)
    requires Fits(chunks, 0, |output|, required)
    ensures AllSound(chunks) && (forall c :: c in chunks ==> Sound(c) && BodyOf(c) != []) && |Text(chunks)| <= |output|
    ensures Decoded(StreamBytes(chunks) + padding, output, required) == (true, Text(chunks) + output[|Text(chunks)|..])
  {
    hide Sound;
    hide StreamBytes;
    hide Text;
    hide ParseStream;
    hide BodyOf;
    FitsRequires(chunks, 0, |output|, required);
    FitsSound(chunks, 0, |output|, required);
    StreamRoundTrip(chunks, padding, 0, |output|, required);
    assert output[..0] + Text(chunks) + output[|Text(chunks)|..] == Text(chunks) + output[|Text(chunks)|..];
  }

  lemma FitsRequires(chunks: seq<Chunk>, written: nat, limit: nat, required: nat)
    requires Fits(chunks, written, limit, required)
    ensures required <= limit
  {
  }
}
