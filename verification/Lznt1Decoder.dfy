/** The decoding loops of src/ntfs_compression.rs, which write into the caller's buffer as they go. */
module Lznt1Decoder {
  import opened Bytes
  import opened Lznt1
  import opened Lznt1Stream

  // ---------- decode_chunk ----------

  /** Where the decoder ends up from a state in the middle of a chunk: the bytes written and the verdict. */
  function Finish(done: seq<Byte>, rest: seq<Byte>, flags: nat, bits: nat, limit: nat): (seq<Byte>, bool)
    requires |done| <= limit <= CHUNK
  {
    var p := Parse(rest, flags, bits, |done|, limit);
    (Expand(done, p.tokens), p.ok)
  }

  lemma FinishFlags(done: seq<Byte>, rest: seq<Byte>, flags: nat, limit: nat)
    requires |done| <= limit <= CHUNK && |rest| >= 1
    ensures Finish(done, rest, flags, 0, limit) == if |rest| == 1 then (done, false) else Finish(done, rest[1..], rest[0], 8, limit)
  {
    hide ReadMatch;
    hide LegalToken;
  }

  lemma FinishEnds(done: seq<Byte>, flags: nat, bits: nat, limit: nat)
    requires |done| <= limit <= CHUNK
    ensures Finish(done, [], flags, bits, limit) == (done, true)
  {
  }

  lemma FinishLiteral(done: seq<Byte>, rest: seq<Byte>, flags: nat, bits: nat, limit: nat)
    requires |done| <= limit <= CHUNK && |rest| >= 1 && bits > 0 && flags % 2 == 0
    ensures Finish(done, rest, flags, bits, limit)
         == if |done| >= limit then (done, false) else Finish(done + [rest[0]], rest[1..], flags / 2, bits - 1, limit)
  {
    hide ReadMatch;
    hide Parse;
    if |done| < limit {
      ParseLiteral(rest, flags, bits, |done|, limit);
      FinishToken(done, Literal(rest[0]), rest, rest[1..], flags, bits, limit);
    } else {
      ParseFails(rest, flags, bits, |done|, limit);
      FinishFails(done, rest, flags, bits, limit);
    }
  }

  lemma ParseFails(rest: seq<Byte>, flags: nat, bits: nat, pos: nat, limit: nat)
    requires pos <= limit <= CHUNK && |rest| >= 1 && bits > 0
    requires if flags % 2 == 0 then pos >= limit
             else |rest| < 2 || (var t := ReadMatch(FromLittleEndian(rest[..2]), pos); t.distance > pos || pos + t.length > limit)
    ensures Parse(rest, flags, bits, pos, limit) == ParsedChunk([], false)
  {
    hide ReadMatch;
    hide FromLittleEndian;
  }

  lemma ExpandCons(done: seq<Byte>, t: Token, tokens: seq<Token>)
    requires LegalToken(t, |done|) && Legal(tokens, |done| + TokenSize(t))
    ensures Legal([t] + tokens, |done|) && Expand(done, [t] + tokens) == Expand(Applied(done, t), tokens)
  {
    hide Applied;
    hide LegalToken;
    assert ([t] + tokens)[1..] == tokens;
  }

  /** One token read, one token applied. */
  lemma FinishToken(done: seq<Byte>, t: Token, rest: seq<Byte>, next: seq<Byte>, flags: nat, bits: nat, limit: nat)
    requires LegalToken(t, |done|) && |done| + TokenSize(t) <= limit <= CHUNK && bits > 0
    requires Parse(rest, flags, bits, |done|, limit) == Cons(t, Parse(next, flags / 2, bits - 1, |done| + TokenSize(t), limit))
    ensures Finish(done, rest, flags, bits, limit) == Finish(Applied(done, t), next, flags / 2, bits - 1, limit)
  {
    hide Parse;
    hide Expand;
    hide LegalToken;
    hide Legal;
    hide Applied;
    hide TokenSize;
    ExpandCons(done, t, Parse(next, flags / 2, bits - 1, |done| + TokenSize(t), limit).tokens);
  }

  lemma FinishMatch(done: seq<Byte>, t: Token, rest: seq<Byte>, flags: nat, bits: nat, limit: nat)
    requires |done| <= limit <= CHUNK && |rest| >= 2 && bits > 0 && flags % 2 == 1
    requires t == ReadMatch(FromLittleEndian(rest[..2]), |done|)
    ensures Finish(done, rest, flags, bits, limit)
         == if t.distance > |done| || |done| + t.length > limit then (done, false)
            else Finish(Copied(done, t.distance, t.length), rest[2..], flags / 2, bits - 1, limit)
  {
    hide FromLittleEndian;
    hide Parse;
    hide Expand;
    hide ReadMatch;
    hide LengthSpan;
    hide Copied;
    hide Finish;
    if t.distance > |done| || |done| + t.length > limit {
      ParseFails(rest, flags, bits, |done|, limit);
      FinishFails(done, rest, flags, bits, limit);
    } else {
      ParseMatch(rest, t, flags, bits, |done|, limit);
      FinishToken(done, t, rest, rest[2..], flags, bits, limit);
    }
  }

  lemma FinishFails(done: seq<Byte>, rest: seq<Byte>, flags: nat, bits: nat, limit: nat)
    requires |done| <= limit <= CHUNK && Parse(rest, flags, bits, |done|, limit) == ParsedChunk([], false)
    ensures Finish(done, rest, flags, bits, limit) == (done, false)
  {
    hide Parse;
  }

  lemma FinishShort(done: seq<Byte>, rest: seq<Byte>, flags: nat, bits: nat, limit: nat)
    requires |done| <= limit <= CHUNK && |rest| == 1 && bits > 0 && flags % 2 == 1
    ensures Finish(done, rest, flags, bits, limit) == (done, false)
  {
    hide Finish;
    ParseFails(rest, flags, bits, |done|, limit);
    FinishFails(done, rest, flags, bits, limit);
  }

  /** `flags >> bit`. */
  function FlagsFrom(flags: nat, bit: nat): nat { if bit == 0 then flags else FlagsFrom(flags, bit - 1) / 2 }

  /** The split loop. */
  method SplitAt(destination: nat) returns (shift: nat)
    ensures shift == Split(destination)
  {
    shift := 12;
    while shift > 4 && Shl1(16 - shift) < destination
      invariant 4 <= shift <= 12 && SplitFrom(12, destination) == SplitFrom(shift, destination)
      decreases shift
    {
      shift := shift - 1;
    }
  }

  lemma PatchedSnoc(was: seq<Byte>, lo: nat, done: seq<Byte>, b: Byte)
    requires lo + |done| < |was|
    ensures Patched(was, lo, done)[lo + |done| := b] == Patched(was, lo, done + [b])
    ensures forall i :: 0 <= i < |done| ==> Patched(was, lo, done)[lo + i] == done[i]
  {
  }

  /** Copies forwards byte by byte, so the copy may overlap what it writes. */
  method CopyBack(output: array<Byte>, lo: nat, destination: nat, distance: nat, length: nat,
                  ghost was: seq<Byte>, ghost done: seq<Byte>)
    requires 1 <= distance <= destination == |done| && lo + destination + length <= output.Length == |was|
    requires output[..] == Patched(was, lo, done)
    modifies output
    ensures output[..] == Patched(was, lo, Copied(done, distance, length))
  {
    hide Patched;
    var at := lo + destination;
    ghost var out := done;
    for k := 0 to length
      invariant at == lo + |out| && out == Copied(done, distance, k)
      invariant output[..] == Patched(was, lo, out)
    {
      PatchedSnoc(was, lo, out, out[|out| - distance]);
      assert output[at - distance] == output[..][lo + (|out| - distance)];
      output[at] := output[at - distance];
      out := out + [out[|out| - distance]];
      at := at + 1;
    }
  }

  lemma FinishMeans(input: seq<Byte>, limit: nat)
    requires limit <= CHUNK
    ensures var p := Parse(input, 0, 0, 0, limit);
            Finish([], input, 0, 0, limit) == (Expand([], p.tokens), p.ok) && |Expand([], p.tokens)| == Size(p.tokens)
  {
  }

  lemma FlagsIgnored(done: seq<Byte>, rest: seq<Byte>, flags: nat, limit: nat)
    requires |done| <= limit <= CHUNK
    ensures Finish(done, rest, flags, 0, limit) == Finish(done, rest, 0, 0, limit)
  {
    if rest == [] {
      FinishEnds(done, flags, 0, limit);
      FinishEnds(done, 0, 0, limit);
    } else {
      FinishFlags(done, rest, flags, limit);
      FinishFlags(done, rest, 0, limit);
    }
  }

  /** One token; None when the chunk is rejected there. */
  method DecodeToken(input: seq<Byte>, at: nat, isMatch: bool, output: array<Byte>, lo: nat, limit: nat, destination: nat,
                     ghost was: seq<Byte>, ghost done: seq<Byte>, ghost flags: nat, ghost bits: nat)
    returns (ok: bool, next: nat, written: nat, ghost out: seq<Byte>)
    requires at < |input| && destination == |done| <= limit <= CHUNK && lo + limit <= output.Length == |was|
    requires bits > 0 && (flags % 2 == 1 <==> isMatch) && output[..] == Patched(was, lo, done)
    modifies output
    ensures at < next <= |input| && written == |out| <= limit && output[..] == Patched(was, lo, out)
    ensures Finish(done, input[at..], flags, bits, limit)
         == if ok then Finish(out, input[next..], flags / 2, bits - 1, limit) else (out, false)
  {
    hide Finish;
    hide ReadMatch;
    hide FromLittleEndian;
    hide Patched;
    if !isMatch {
      FinishLiteral(done, input[at..], flags, bits, limit);
      if destination >= limit {
        return false, at + 1, destination, done;
      }
      PatchedSnoc(was, lo, done, input[at]);
      output[lo + destination] := input[at];
      return true, at + 1, destination + 1, done + [input[at]];
    }
    if at + 2 > |input| {
      FinishShort(done, input[at..], flags, bits, limit);
      return false, at + 1, destination, done;
    }
    assert input[at..][..2] == input[at..at + 2] && input[at..][2..] == input[at + 2..];
    var word := FromLittleEndian(input[at..at + 2]);
    var shift := SplitAt(destination);
    Shl1Monotone(0, shift);
    var distance, length := word / Shl1(shift) + 1, word % Shl1(shift) + 3;
    MatchRead(word, destination);
    FinishMatch(done, Match(distance, length), input[at..], flags, bits, limit);
    if distance > destination || length > limit - destination {
      return false, at + 2, destination, done;
    }
    CopyBack(output, lo, destination, distance, length, was, done);
    return true, at + 2, destination + length, Copied(done, distance, length);
  }

  lemma MatchRead(word: nat, pos: nat)
    ensures Shl1(Split(pos)) > 0 && ReadMatch(word, pos) == Match(word / Shl1(Split(pos)) + 1, word % Shl1(Split(pos)) + 3)
  {
    Shl1Monotone(0, Split(pos));
    hide Split;
  }

  /** The tokens behind one flag byte. */
  method DecodeGroup(input: seq<Byte>, at: nat, flags: Byte, output: array<Byte>, lo: nat, limit: nat, destination: nat,
                     ghost was: seq<Byte>, ghost done: seq<Byte>)
    returns (ok: bool, next: nat, written: nat, ghost out: seq<Byte>)
    requires at < |input| && destination == |done| <= limit <= CHUNK && lo + limit <= output.Length == |was|
    requires output[..] == Patched(was, lo, done)
    modifies output
    ensures at < next <= |input| && written == |out| <= limit && output[..] == Patched(was, lo, out)
    ensures Finish(done, input[at..], flags, 8, limit)
         == if ok then Finish(out, input[next..], 0, 0, limit) else (out, false)
  {
    hide Finish;
    hide Patched;
    out, next, written := done, at, destination;
    var bit := 0;
    while bit < 8 && next < |input|
      invariant bit <= 8 && at <= next <= |input| && written == |out| <= limit && (bit > 0 ==> at < next)
      invariant output[..] == Patched(was, lo, out)
      invariant Finish(out, input[next..], FlagsFrom(flags, bit), 8 - bit, limit) == Finish(done, input[at..], flags, 8, limit)
      decreases 8 - bit
    {
      ok, next, written, out :=
        DecodeToken(input, next, FlagsFrom(flags, bit) % 2 == 1, output, lo, limit, written, was, out, FlagsFrom(flags, bit), 8 - bit);
      if !ok {
        return;
      }
      bit := bit + 1;
    }
    ok := true;
    if next < |input| {
      FlagsIgnored(out, input[next..], FlagsFrom(flags, bit), limit);
    } else {
      assert input[next..] == [];
      FinishEnds(out, FlagsFrom(flags, bit), 8 - bit, limit);
      FinishEnds(out, 0, 0, limit);
    }
  }

  /** `decode_chunk` into output[lo..end]. */
  method DecodeChunk(input: seq<Byte>, output: array<Byte>, lo: nat, end: nat) returns (ok: bool, written: nat)
    requires lo <= end <= output.Length && end - lo <= CHUNK
    modifies output
    ensures var p := Parse(input, 0, 0, 0, end - lo);
            ok == p.ok && written == Size(p.tokens) && lo + written <= end
            && output[..] == Patched(old(output[..]), lo, Expand([], p.tokens))
  {
    hide Finish;
    hide Parse;
    hide Expand;
    hide Patched;
    var limit := end - lo;
    ghost var was := output[..];
    ghost var done: seq<Byte> := [];
    FinishMeans(input, limit);
    var source := 0;
    written := 0;
    NothingPatched(was, lo);
    assert input[0..] == input;
    while source < |input|
      invariant source <= |input| && written == |done| <= limit
      invariant output[..] == Patched(was, lo, done)
      invariant Finish(done, input[source..], 0, 0, limit) == Finish([], input, 0, 0, limit)
      decreases |input| - source
    {
      var flags := input[source];
      FinishFlags(done, input[source..], 0, limit);
      source := source + 1;
      if source >= |input| {
        return false, written;
      }
      ok, source, written, done := DecodeGroup(input, source, flags, output, lo, limit, written, was, done);
      if !ok {
        return;
      }
    }
    assert input[source..] == [];
    FinishEnds(done, 0, 0, limit);
    ok := true;
  }

  lemma NothingPatched(was: seq<Byte>, lo: nat)
    requires lo <= |was|
    ensures Patched(was, lo, []) == was
  {
  }

  // ---------- decode_lznt1 ----------

  lemma TextCons(c: Chunk, chunks: seq<Chunk>)
    requires Sound(c) && AllSound(chunks)
    ensures AllSound([c] + chunks) && Text([c] + chunks) == ChunkText(c) + Text(chunks)
  {
    assert ([c] + chunks)[1..] == chunks;
  }

  /** The buffer and verdict from a state between two chunks. */
  function Rest(now: seq<Byte>, rest: seq<Byte>, written: nat, required: nat): (bool, seq<Byte>)
    requires written <= |now| && required <= |now|
  {
    var p := ParseStream(rest, written, |now|, required);
    (p.ok, Patched(now, written, Text(p.chunks)))
  }

  lemma RestStops(now: seq<Byte>, rest: seq<Byte>, written: nat, required: nat)
    requires written <= |now| && required <= |now|
    ensures written >= required ==> Rest(now, rest, written, required) == (true, now)
    ensures written < required && |rest| < 2 ==> Rest(now, rest, written, required) == (false, now)
    ensures written < required && |rest| >= 2 && BodySize(FromLittleEndian(rest[..2])).None? ==>
              Rest(now, rest, written, required) == (false, now)
    ensures (written < required && |rest| >= 2 && BodySize(FromLittleEndian(rest[..2])).Some?
             && |rest| < 2 + BodySize(FromLittleEndian(rest[..2])).value) ==> Rest(now, rest, written, required) == (false, now)
  {
    hide FromLittleEndian;
    hide BodySize;
    hide ParseBody;
    NothingPatched(now, written);
    hide Patched;
  }

  /** One chunk's body, in full or in part. */
  lemma RestBody(now: seq<Byte>, rest: seq<Byte>, written: nat, required: nat, size: nat)
    requires written < required <= |now| && |rest| >= 2 + size && BodySize(FromLittleEndian(rest[..2])) == Some(size)
    ensures var (chunk, complete) := ParseBody(FromLittleEndian(rest[..2]), rest[2..2 + size], Min(CHUNK, |now| - written));
            if chunk.None? then Rest(now, rest, written, required) == (false, now)
            else
              var text := ChunkText(chunk.value);
              var end := written + |text|;
              Rest(now, rest, written, required)
                == if !complete || (end != written + CHUNK && end < required) then (false, Patched(now, written, text))
                   else Rest(Patched(now, written, text), rest[2 + size..], end, required)
  {
    hide FromLittleEndian;
    hide BodySize;
    hide ParseBody;
    hide Patched;
    hide ChunkText;
    var (chunk, complete) := ParseBody(FromLittleEndian(rest[..2]), rest[2..2 + size], Min(CHUNK, |now| - written));
    NothingPatched(now, written);
    if chunk.Some? {
      var text := ChunkText(chunk.value);
      var end := written + |text|;
      TextCons(chunk.value, []);
      assert Text([]) == [] && [chunk.value] + [] == [chunk.value] && text + [] == text;
      var later := ParseStream(rest[2 + size..], end, |now|, required);
      TextCons(chunk.value, later.chunks);
      PatchedTwice(now, written, text, Text(later.chunks));
    }
  }

  /** One chunk of either kind: stored bytes are copied, compressed ones decoded. */
  method DecodeBody(header: nat, body: seq<Byte>, output: array<Byte>, lo: nat, end: nat) returns (ok: bool, written: nat)
    requires lo <= end <= output.Length && end - lo <= CHUNK
    modifies output
    ensures var (chunk, complete) := ParseBody(header, body, end - lo);
            && ok == complete
            && (chunk.None? ==> output[..] == old(output[..]))
            && (chunk.Some? ==> written == |ChunkText(chunk.value)| && lo + written <= end
                                && output[..] == Patched(old(output[..]), lo, ChunkText(chunk.value)))
  {
    hide Parse;
    hide Expand;
    hide Patched;
    if header < 0x8000 {
      if |body| > end - lo {
        return false, 0;
      }
      CopyInto(output, lo, body);
      return true, |body|;
    }
    ok, written := DecodeChunk(body, output, lo, end);
  }

  /** `decode_lznt1` into a whole buffer. */
  method DecodeLznt1(input: seq<Byte>, output: array<Byte>, required: nat) returns (ok: bool)
    modifies output
    ensures (ok, output[..]) == Decoded(input, old(output[..]), required)
  {
    hide Rest;
    hide ParseStream;
    hide Text;
    hide ParseBody;
    hide ChunkText;
    hide FromLittleEndian;
    hide BodySize;
    hide Patched;
    if required > output.Length {
      return false;
    }
    ghost var goal := Rest(output[..], input, 0, required);
    assert goal == Decoded(input, output[..], required) by { RestIsDecoded(input, output[..], required); }
    var source: nat, destination: nat := 0, 0;
    assert input[0..] == input;
    while destination < required
      invariant source <= |input| && destination <= output.Length
      invariant Rest(output[..], input[source..], destination, required) == goal
      decreases |input| - source
    {
      ghost var rest := input[source..];
      RestStops(output[..], rest, destination, required);
      if source + 2 > |input| {
        return false;
      }
      SlicedTail(input, source, 0, 2);
      var header := FromLittleEndian(input[source..source + 2]);
      var size := BodySize(header);
      if size.None? {
        return false;
      }
      source := source + 2;
      if source + size.value > |input| {
        return false;
      }
      var chunk := input[source..source + size.value];
      SlicedTail(input, source - 2, 2, 2 + size.value);
      RestBody(output[..], rest, destination, required, size.value);
      source := source + size.value;
      var end := Min(destination + CHUNK, output.Length);
      var written;
      ok, written := DecodeBody(header, chunk, output, destination, end);
      if !ok || (written != CHUNK && destination + written < required) {
        return false;
      }
      destination := destination + written;
    }
    RestStops(output[..], input[source..], destination, required);
    return true;
  }

  lemma RestIsDecoded(input: seq<Byte>, output: seq<Byte>, required: nat)
    requires required <= |output|
    ensures Rest(output, input, 0, required) == Decoded(input, output, required)
  {
  }
}
