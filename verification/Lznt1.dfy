/** LZNT1 (section 2.5 of MS-XCA): tokens, their expansion, their serialization, and the decoder of
    src/ntfs_compression.rs (`decode_lznt1`, `decode_chunk`). */
module Lznt1 {
  import opened Bytes

  const CHUNK: nat := 4096

  datatype Token = Literal(byte: Byte) | Match(distance: nat, length: nat)

  // ---------- What a token list means ----------

  /** LZ77 copy of n bytes, one at a time: the copied bytes may themselves be copied again. */
  function Copied(out: seq<Byte>, distance: nat, n: nat): (r: seq<Byte>)
    requires 1 <= distance <= |out|
    ensures |r| == |out| + n && out <= r
  {
    if n == 0 then out
    else
      var before := Copied(out, distance, n - 1);
      before + [before[|before| - distance]]
  }

  /** Also where the copy overlaps itself, every copied byte equals the byte `distance` before it. */
  lemma {:induction false} CopyRepeats(out: seq<Byte>, distance: nat, n: nat, i: nat)
    requires 1 <= distance <= |out| <= i < |out| + n
    ensures Copied(out, distance, n)[i] == Copied(out, distance, n)[i - distance]
  {
    if i < |out| + n - 1 {
      CopyRepeats(out, distance, n - 1, i);
    }
  }

  function TokenSize(t: Token): nat { if t.Literal? then 1 else t.length }

  function Size(tokens: seq<Token>): nat { if tokens == [] then 0 else TokenSize(tokens[0]) + Size(tokens[1..]) }

  /** The token's split between displacement and length bits at a position: `split` low bits hold the length. */
  function SplitFrom(split: nat, pos: nat): (r: nat)
    requires 4 <= split <= 12
    ensures 4 <= r <= split
  {
    if split > 4 && Shl1(16 - split) < pos then SplitFrom(split - 1, pos) else split
  }

  function Split(pos: nat): nat { SplitFrom(12, pos) }

  /** How many lengths a token can name at a position. */
  function LengthSpan(pos: nat): (span: nat)
    ensures span > 0
  {
    Shl1Monotone(0, Split(pos));
    Shl1(Split(pos))
  }

  /** A back-reference stays inside its chunk and its length fits the split. */
  predicate LegalToken(t: Token, pos: nat) {
    t.Match? ==> 1 <= t.distance <= pos <= CHUNK && 3 <= t.length < 3 + LengthSpan(pos)
  }

  predicate Legal(tokens: seq<Token>, pos: nat) {
    tokens == [] || (LegalToken(tokens[0], pos) && Legal(tokens[1..], pos + TokenSize(tokens[0])))
  }

  function Applied(out: seq<Byte>, t: Token): (r: seq<Byte>)
    requires LegalToken(t, |out|)
    ensures |r| == |out| + TokenSize(t) && out <= r
  {
    match t
    case Literal(b) => out + [b]
    case Match(distance, length) => Copied(out, distance, length)
  }

  function Expand(out: seq<Byte>, tokens: seq<Token>): (r: seq<Byte>)
    requires Legal(tokens, |out|)
    ensures |r| == |out| + Size(tokens) && out <= r
    decreases |tokens|
  {
    if tokens == [] then out else Expand(Applied(out, tokens[0]), tokens[1..])
  }

  // ---------- Displacement widths ----------

  /** The displacement width 16 - Split is the least width of at least 4 bits that covers the position, so every
      distance back to the start of the chunk can be encoded. */
  lemma LeastWidth(pos: nat)
    requires pos <= CHUNK
    ensures 4 <= 16 - Split(pos) <= 12 && pos <= Shl1(16 - Split(pos))
    ensures forall width {:trigger Shl1(width)} :: 4 <= width < 16 - Split(pos) ==> Shl1(width) < pos
  {
    hide SplitFrom;
    ShlAt12();
    SplitCovers(12, pos);
    forall width | 4 <= width < 16 - Split(pos)
      ensures Shl1(width) < pos
    {
      NarrowerFails(12, pos, width);
    }
  }

  lemma {:induction false} SplitCovers(split: nat, pos: nat)
    requires 4 <= split <= 12 && pos <= CHUNK
    ensures pos <= Shl1(16 - SplitFrom(split, pos))
    decreases split
  {
    if split > 4 && Shl1(16 - split) < pos {
      SplitCovers(split - 1, pos);
    } else {
      ShlAt12();
    }
  }

  lemma {:induction false} NarrowerFails(split: nat, pos: nat, width: nat)
    requires 4 <= split <= 12 && 16 - split <= width < 16 - SplitFrom(split, pos)
    ensures Shl1(width) < pos
    decreases split
  {
    hide Shl1;
    if 16 - split < width {
      NarrowerFails(split - 1, pos, width);
    }
  }

  lemma ShlAt12()
    ensures Shl1(4) == 16 && Shl1(8) == 256 && Shl1(12) == CHUNK && Shl1(16) == 0x1_0000
  {
    assert Shl1(8) == 16 * Shl1(4);
    assert Shl1(12) == 16 * Shl1(8);
    assert Shl1(16) == 16 * Shl1(12);
  }

  // ---------- Token words ----------

  function MatchWord(t: Token, pos: nat): nat
    requires t.Match? && LegalToken(t, pos)
  {
    (t.distance - 1) * LengthSpan(pos) + (t.length - 3)
  }

  function ReadMatch(word: nat, pos: nat): (t: Token)
    ensures t.Match? && t.distance >= 1 && 3 <= t.length < 3 + LengthSpan(pos)
  {
    Match(word / LengthSpan(pos) + 1, word % LengthSpan(pos) + 3)
  }

  /** A legal back-reference fits 16 bits and reads back. */
  lemma MatchRoundTrip(t: Token, pos: nat)
    requires t.Match? && LegalToken(t, pos)
    ensures MatchWord(t, pos) < 0x1_0000 && ReadMatch(MatchWord(t, pos), pos) == t
  {
    hide Split;
    var split := Split(pos);
    LeastWidth(pos);
    ShlAt12();
    Shl1Adds(16 - split, split);
    var unit, d, l := Shl1(split), t.distance - 1, t.length - 3;
    assert (d + 1) * unit <= Shl1(16 - split) * unit by { MulMonotone(d + 1, Shl1(16 - split), unit); }
    assert (d + 1) * unit == d * unit + unit;
    DivideExact(l, unit, d);
    assert l + unit * d == MatchWord(t, pos);
    Remainder(l, unit, d);
  }

  lemma Remainder(low: nat, unit: nat, q: nat)
    requires low < unit
    ensures (low + unit * q) % unit == low
  {
    DivideExact(low, unit, q);
  }

  // ---------- Serialization of a chunk ----------

  function TokenBytes(t: Token, pos: nat): (b: seq<Byte>)
    requires LegalToken(t, pos)
    ensures |b| == if t.Literal? then 1 else 2
  {
    if t.Literal? then [t.byte] else LittleEndian(MatchWord(t, pos), 2)
  }

  function Bodies(tokens: seq<Token>, pos: nat): seq<Byte>
    requires Legal(tokens, pos)
  {
    if tokens == [] then [] else TokenBytes(tokens[0], pos) + Bodies(tokens[1..], pos + TokenSize(tokens[0]))
  }

  /** One flag bit per token, the first token in the lowest bit. */
  function Flags(tokens: seq<Token>): (flags: nat)
    ensures flags < Shl1(|tokens|)
  {
    if tokens == [] then 0 else (if tokens[0].Match? then 1 else 0) + 2 * Flags(tokens[1..])
  }

  lemma {:induction false} LegalSplit(tokens: seq<Token>, pos: nat, n: nat)
    requires Legal(tokens, pos) && n <= |tokens|
    ensures Legal(tokens[..n], pos) && Legal(tokens[n..], pos + Size(tokens[..n]))
    ensures Size(tokens) == Size(tokens[..n]) + Size(tokens[n..])
  {
    if n > 0 {
      LegalSplit(tokens[1..], pos + TokenSize(tokens[0]), n - 1);
      assert tokens[1..][..n - 1] == tokens[..n][1..] && tokens[1..][n - 1..] == tokens[n..];
    } else {
      assert tokens[..0] == [] && tokens[0..] == tokens;
    }
  }

  /** Groups of up to eight tokens behind a flag byte. */
  function Serialize(tokens: seq<Token>, pos: nat): seq<Byte>
    requires Legal(tokens, pos)
    decreases |tokens|
  {
    if tokens == [] then []
    else
      var n := Min(8, |tokens|);
      LegalSplit(tokens, pos, n);
      [FlagByte(tokens[..n])] + Bodies(tokens[..n], pos) + Serialize(tokens[n..], pos + Size(tokens[..n]))
  }

  function FlagByte(tokens: seq<Token>): Byte
    requires |tokens| <= 8
  {
    ShlAt12();
    Shl1Monotone(|tokens|, 8);
    Flags(tokens)
  }

  // ---------- The decoder ----------

  datatype ParsedChunk = ParsedChunk(tokens: seq<Token>, ok: bool)

  function Cons(t: Token, p: ParsedChunk): ParsedChunk { ParsedChunk([t] + p.tokens, p.ok) }

  /** What `decode_chunk` reads from the bytes still to come, with `bits` flag bits left: the tokens it applies and
      whether it then reaches the end of its input. */
  function Parse(rest: seq<Byte>, flags: nat, bits: nat, pos: nat, limit: nat): (p: ParsedChunk)
    requires pos <= limit <= CHUNK
    ensures Legal(p.tokens, pos) && pos + Size(p.tokens) <= limit
    decreases |rest|
  {
    if rest == [] then ParsedChunk([], true)
    else if bits == 0 then
      if |rest| == 1 then ParsedChunk([], false) else Parse(rest[1..], rest[0], 8, pos, limit)
    else if flags % 2 == 0 then
      if pos >= limit then ParsedChunk([], false)
      else Cons(Literal(rest[0]), Parse(rest[1..], flags / 2, bits - 1, pos + 1, limit))
    else if |rest| < 2 then ParsedChunk([], false)
    else
      var t := ReadMatch(FromLittleEndian(rest[..2]), pos);
      if t.distance > pos || pos + t.length > limit then ParsedChunk([], false)
      else Cons(t, Parse(rest[2..], flags / 2, bits - 1, pos + t.length, limit))
  }

  // ---------- A legal chunk decodes to itself ----------

  function Prepend(front: seq<Token>, p: ParsedChunk): ParsedChunk { ParsedChunk(front + p.tokens, p.ok) }

  lemma FlagShift(tokens: seq<Token>)
    requires tokens != []
    ensures Flags(tokens) % 2 == (if tokens[0].Match? then 1 else 0) && Flags(tokens) / 2 == Flags(tokens[1..])
  {
  }

  /** One token at the head of the remaining bytes is read back. */
  lemma ParseOne(t: Token, flags: nat, bits: nat, pos: nat, limit: nat, tail: seq<Byte>)
    requires LegalToken(t, pos) && bits > 0 && pos + TokenSize(t) <= limit <= CHUNK
    requires flags % 2 == (if t.Match? then 1 else 0)
    ensures Parse(TokenBytes(t, pos) + tail, flags, bits, pos, limit)
         == Cons(t, Parse(tail, flags / 2, bits - 1, pos + TokenSize(t), limit))
  {
    hide LengthSpan;
    hide Parse;
    hide ReadMatch;
    hide MatchWord;
    hide LittleEndian;
    hide FromLittleEndian;
    var rest := TokenBytes(t, pos) + tail;
    if t.Match? {
      MatchRoundTrip(t, pos);
      TwoBytes(MatchWord(t, pos));
      assert rest[..2] == TokenBytes(t, pos) && rest[2..] == tail;
      ParseMatch(rest, t, flags, bits, pos, limit);
    } else {
      assert rest[0] == t.byte && rest[1..] == tail;
      ParseLiteral(rest, flags, bits, pos, limit);
    }
  }

  lemma ParseMatch(rest: seq<Byte>, t: Token, flags: nat, bits: nat, pos: nat, limit: nat)
    requires |rest| >= 2 && t == ReadMatch(FromLittleEndian(rest[..2]), pos) && bits > 0 && flags % 2 == 1
    requires t.distance <= pos && pos + t.length <= limit <= CHUNK
    ensures Parse(rest, flags, bits, pos, limit) == Cons(t, Parse(rest[2..], flags / 2, bits - 1, pos + t.length, limit))
  {
    hide ReadMatch;
    hide FromLittleEndian;
  }

  lemma ParseLiteral(rest: seq<Byte>, flags: nat, bits: nat, pos: nat, limit: nat)
    requires rest != [] && bits > 0 && flags % 2 == 0 && pos < limit <= CHUNK
    ensures Parse(rest, flags, bits, pos, limit) == Cons(Literal(rest[0]), Parse(rest[1..], flags / 2, bits - 1, pos + 1, limit))
  {
    hide ReadMatch;
    hide FromLittleEndian;
  }

  lemma TwoBytes(word: nat)
    requires word < 0x1_0000
    ensures FromLittleEndian(LittleEndian(word, 2)) == word
  {
    assert Power256(2) == 0x1_0000;
    LittleEndianRoundTrip(word, 2);
  }

  lemma BodiesCons(tokens: seq<Token>, pos: nat, tail: seq<Byte>)
    requires tokens != [] && Legal(tokens, pos)
    ensures var t, rest := tokens[0], tokens[1..];
            && LegalToken(t, pos) && Legal(rest, pos + TokenSize(t)) && Size(tokens) == TokenSize(t) + Size(rest)
            && Bodies(tokens, pos) + tail == TokenBytes(t, pos) + (Bodies(rest, pos + TokenSize(t)) + tail)
  {
    hide LegalToken;
    hide TokenBytes;
  }

  /** The bodies of a group are read back behind their flags. */
  lemma {:induction false} ParseGroup(tokens: seq<Token>, bits: nat, pos: nat, limit: nat, tail: seq<Byte>)
    requires Legal(tokens, pos) && pos + Size(tokens) <= limit <= CHUNK && |tokens| <= bits
    ensures Parse(Bodies(tokens, pos) + tail, Flags(tokens), bits, pos, limit)
         == Prepend(tokens, Parse(tail, 0, bits - |tokens|, pos + Size(tokens), limit))
    decreases |tokens|
  {
    hide LegalToken;
    hide Legal;
    hide Bodies;
    hide LengthSpan;
    hide Parse;
    hide Flags;
    hide TokenBytes;
    hide Size;
    hide Prepend;
    hide Cons;
    if tokens == [] {
      NoSize();
      PrependNothing(Parse(tail, 0, bits, pos, limit));
      NoBodies(pos);
      NoFlags();
      assert Bodies(tokens, pos) + tail == tail;
    } else {
      var t, rest := tokens[0], tokens[1..];
      var at := pos + TokenSize(t);
      FlagShift(tokens);
      BodiesCons(tokens, pos, tail);
      ParseOne(t, Flags(tokens), bits, pos, limit, Bodies(rest, at) + tail);
      ParseGroup(rest, bits - 1, at, limit, tail);
      PrependCons(tokens, Parse(tail, 0, bits - |tokens|, pos + Size(tokens), limit));
    }
  }

  lemma NoSize()
    ensures Size([]) == 0
  {
  }

  lemma PrependNothing(p: ParsedChunk)
    ensures Prepend([], p) == p
  {
    assert [] + p.tokens == p.tokens;
  }

  lemma PrependCons(tokens: seq<Token>, p: ParsedChunk)
    requires tokens != []
    ensures Cons(tokens[0], Prepend(tokens[1..], p)) == Prepend(tokens, p)
  {
    assert tokens == [tokens[0]] + tokens[1..];
  }

  lemma NoFlags()
    ensures Flags([]) == 0
  {
  }

  lemma SerializeGroup(tokens: seq<Token>, pos: nat)
    requires Legal(tokens, pos) && tokens != []
    ensures var n := Min(8, |tokens|);
            var group, later := tokens[..n], tokens[n..];
            && Legal(group, pos) && Legal(later, pos + Size(group)) && Size(tokens) == Size(group) + Size(later)
            && Serialize(tokens, pos) == [Flags(group)] + (Bodies(group, pos) + Serialize(later, pos + Size(group)))
            && Bodies(group, pos) != []
  {
    hide LegalToken;
    hide Flags;
    hide Bodies;
    var n := Min(8, |tokens|);
    LegalSplit(tokens, pos, n);
    BodiesNotEmpty(tokens[..n], pos);
  }

  /** Decoding the serialization of any legal token list reads exactly that list. */
  lemma {:induction false} ChunkRoundTrip(tokens: seq<Token>, flags: nat, pos: nat, limit: nat)
    requires Legal(tokens, pos) && pos + Size(tokens) <= limit <= CHUNK
    ensures Parse(Serialize(tokens, pos), flags, 0, pos, limit) == ParsedChunk(tokens, true)
    decreases |tokens|
  {
    hide Legal;
    hide Flags;
    hide Bodies;
    hide Serialize;
    hide Size;
    hide Parse;
    if tokens == [] {
      NothingToParse(flags, 0, pos, limit);
    } else {
      var n := Min(8, |tokens|);
      SerializeGroup(tokens, pos);
      var group, later := tokens[..n], tokens[n..];
      var at := pos + Size(group);
      var whole, tail := Serialize(tokens, pos), Serialize(later, at);
      assert whole[0] == Flags(group) && whole[1..] == Bodies(group, pos) + tail;
      ParseFlags(whole, flags, pos, limit);
      ParseGroup(group, 8, pos, limit, tail);
      ChunkRoundTrip(later, 0, at, limit);
      if later == [] {
        NothingToParse(0, 8 - n, at, limit);
      }
      assert tokens == group + later;
    }
  }

  lemma NothingToParse(flags: nat, bits: nat, pos: nat, limit: nat)
    requires pos <= limit <= CHUNK
    ensures Legal([], pos) && Serialize([], pos) == [] && Parse([], flags, bits, pos, limit) == ParsedChunk([], true)
  {
  }

  lemma ParseFlags(rest: seq<Byte>, flags: nat, pos: nat, limit: nat)
    requires pos <= limit <= CHUNK && |rest| >= 2
    ensures Parse(rest, flags, 0, pos, limit) == Parse(rest[1..], rest[0], 8, pos, limit)
  {
  }

  lemma BodiesNotEmpty(tokens: seq<Token>, pos: nat)
    requires Legal(tokens, pos) && tokens != []
    ensures Bodies(tokens, pos) != []
  {
  }

  /** The bytes a token list takes with `bits` flag bits of the current flag byte left. */
  function BytesLeft(tokens: seq<Token>, bits: nat, pos: nat): nat
    requires Legal(tokens, pos)
  {
    var n := Min(bits, |tokens|);
    LegalSplit(tokens, pos, n);
    |Bodies(tokens[..n], pos)| + |Serialize(tokens[n..], pos + Size(tokens[..n]))|
  }

  lemma BytesLeftCons(t: Token, tokens: seq<Token>, bits: nat, pos: nat)
    requires bits > 0 && LegalToken(t, pos) && Legal(tokens, pos + TokenSize(t))
    ensures Legal([t] + tokens, pos)
    ensures BytesLeft([t] + tokens, bits, pos) == |TokenBytes(t, pos)| + BytesLeft(tokens, bits - 1, pos + TokenSize(t))
  {
    hide LegalToken;
    hide LengthSpan;
    hide Serialize;
    hide TokenBytes;
    var whole := [t] + tokens;
    var n := Min(bits, |whole|);
    assert whole[1..] == tokens;
    LegalSplit(whole, pos, n);
    LegalSplit(tokens, pos + TokenSize(t), n - 1);
    assert whole[..n][0] == t && whole[..n][1..] == tokens[..n - 1] && whole[n..] == tokens[n - 1..];
  }

  lemma BytesLeftFlag(tokens: seq<Token>, pos: nat)
    requires Legal(tokens, pos) && tokens != []
    ensures BytesLeft(tokens, 0, pos) == 1 + BytesLeft(tokens, 8, pos)
  {
    hide LegalToken;
    hide Bodies;
    hide FlagByte;
    LegalSplit(tokens, pos, Min(8, |tokens|));
    assert tokens[..0] == [] && tokens[0..] == tokens && |Bodies([], pos)| == 0 by { NoBodies(pos); }
  }

  lemma NoBodies(pos: nat)
    ensures Bodies([], pos) == []
  {
  }

  /** An accepted chunk is exactly as long as the serialization of the tokens it parses to. */
  lemma {:induction false} AcceptedLength(rest: seq<Byte>, flags: nat, bits: nat, pos: nat, limit: nat)
    requires pos <= limit <= CHUNK && bits <= 8 && Parse(rest, flags, bits, pos, limit).ok
    ensures |rest| == BytesLeft(Parse(rest, flags, bits, pos, limit).tokens, bits, pos)
    decreases |rest|
  {
    hide LegalToken;
    hide LengthSpan;
    hide Legal;
    hide BytesLeft;
    hide FromLittleEndian;
    hide ReadMatch;
    hide MatchWord;
    hide LittleEndian;
    hide Parse;
    var tokens := Parse(rest, flags, bits, pos, limit).tokens;
    if rest == [] {
      NothingLeft(bits, pos);
      ParsesNothing(flags, bits, pos, limit);
    } else if bits == 0 {
      ParsesFlag(rest, flags, pos, limit);
      AcceptedLength(rest[1..], rest[0], 8, pos, limit);
      SomeToken(rest[1..], rest[0], 8, pos, limit);
      BytesLeftFlag(tokens, pos);
    } else {
      ParsesToken(rest, flags, bits, pos, limit);
      var t := tokens[0];
      var next := pos + TokenSize(t);
      AcceptedLength(rest[|TokenBytes(t, pos)|..], flags / 2, bits - 1, next, limit);
      BytesLeftCons(t, tokens[1..], bits, pos);
    }
  }

  lemma ParsesNothing(flags: nat, bits: nat, pos: nat, limit: nat)
    requires pos <= limit <= CHUNK
    ensures Parse([], flags, bits, pos, limit) == ParsedChunk([], true)
  {
  }

  lemma ParsesFlag(rest: seq<Byte>, flags: nat, pos: nat, limit: nat)
    requires pos <= limit <= CHUNK && rest != [] && Parse(rest, flags, 0, pos, limit).ok
    ensures Parse(rest, flags, 0, pos, limit) == Parse(rest[1..], rest[0], 8, pos, limit) && |rest| > 1
  {
    hide ReadMatch;
    hide FromLittleEndian;
  }

  /** An accepted remainder with flag bits left starts with one token. */
  lemma ParsesToken(rest: seq<Byte>, flags: nat, bits: nat, pos: nat, limit: nat)
    requires pos <= limit <= CHUNK && rest != [] && bits > 0 && Parse(rest, flags, bits, pos, limit).ok
    ensures var tokens := Parse(rest, flags, bits, pos, limit).tokens;
            && tokens != [] && LegalToken(tokens[0], pos) && Legal(tokens[1..], pos + TokenSize(tokens[0]))
            && tokens == [tokens[0]] + tokens[1..]
            && |TokenBytes(tokens[0], pos)| <= |rest| && pos + TokenSize(tokens[0]) <= limit
            && var later := Parse(rest[|TokenBytes(tokens[0], pos)|..], flags / 2, bits - 1, pos + TokenSize(tokens[0]), limit);
               later.ok && later.tokens == tokens[1..]
  {
    hide LengthSpan;
    hide ReadMatch;
    hide FromLittleEndian;
    hide MatchWord;
    hide LittleEndian;
    LegalHead(Parse(rest, flags, bits, pos, limit).tokens, pos);
  }

  lemma NothingLeft(bits: nat, pos: nat)
    ensures Legal([], pos) && BytesLeft([], bits, pos) == 0
  {
  }

  lemma LegalHead(tokens: seq<Token>, pos: nat)
    requires Legal(tokens, pos) && tokens != []
    ensures LegalToken(tokens[0], pos) && Legal(tokens[1..], pos + TokenSize(tokens[0]))
  {
  }

  lemma SomeToken(rest: seq<Byte>, flags: nat, bits: nat, pos: nat, limit: nat)
    requires pos <= limit <= CHUNK && bits > 0 && rest != [] && Parse(rest, flags, bits, pos, limit).ok
    ensures Parse(rest, flags, bits, pos, limit).tokens != []
  {
  }
}
