/** Bytes, unsigned 64-bit values, and the byte-sequence vocabulary the other modules share.
    A file is a finite sequence of bytes that reads as zero past its end. */
module Bytes {

  type Byte = x: int | 0 <= x < 256

  /** A 16-byte authentication tag or truncated digest. */
  type Mac = m: seq<Byte> | |m| == 16 witness seq(16, _ => 0)

  const U64_MAX: nat := 0xFFFF_FFFF_FFFF_FFFF

  type U64 = x: int | 0 <= x <= U64_MAX

  type U32 = x: int | 0 <= x <= 0xFFFF_FFFF

  datatype Option<+T> = None | Some(value: T)

  function Min(a: int, b: int): int { if a <= b then a else b }

  function Max(a: int, b: int): int { if a <= b then b else a }

  function Zeros(n: nat): seq<Byte> { seq(n, _ => 0) }

  predicate AllZero(bytes: seq<Byte>) { forall i :: 0 <= i < |bytes| ==> bytes[i] == 0 }

  /** The byte a file holds at offset i, zero past the end. */
  function At(data: seq<Byte>, i: nat): Byte { if i < |data| then data[i] else 0 }

  /** `File::set_len`: cut, or extend with zeros. */
  function Resized(data: seq<Byte>, n: nat): (r: seq<Byte>)
    ensures |r| == n
    ensures forall i :: 0 <= i < n ==> r[i] == At(data, i)
  {
    if n <= |data| then data[..n] else data + Zeros(n - |data|)
  }

  /** A slice, or None when it runs past the end: `slice.get(start..start + n)`. */
  function Slice(data: seq<Byte>, start: nat, n: nat): Option<seq<Byte>> {
    if start + n <= |data| then Some(data[start..start + n]) else None
  }

  /** The n bytes a reader sees from offset start, zero past the end. */
  function Window(data: seq<Byte>, start: nat, n: nat): seq<Byte> {
    seq<Byte>(n, i requires 0 <= i => At(data, start + i))
  }

  /** Little-endian fields. */
  function Le32(b: seq<Byte>): U32
    requires |b| == 4
  {
    b[0] as int + 0x100 * b[1] as int + 0x1_0000 * b[2] as int + 0x100_0000 * b[3] as int
  }

  function Le64(b: seq<Byte>): U64
    requires |b| == 8
  {
    Le32(b[..4]) as int + 0x1_0000_0000 * Le32(b[4..]) as int
  }

  /** Saturating and checked u64 addition. */
  function SaturatingAdd(a: U64, b: U64): U64 { if a + b > U64_MAX then U64_MAX else a + b }

  /** A run of bytes overwritten in place. */
  function Patched(block: seq<Byte>, start: nat, text: seq<Byte>): (r: seq<Byte>)
    requires start + |text| <= |block|
    ensures |r| == |block|
  {
    block[..start] + text + block[start + |text|..]
  }

  /** `copy_from_slice` into a part of a buffer. */
  method CopyInto(buffer: array<Byte>, at: nat, text: seq<Byte>)
    requires at + |text| <= buffer.Length
    modifies buffer
    ensures buffer[..] == Patched(old(buffer[..]), at, text)
    ensures buffer[..at] == old(buffer[..at]) && buffer[at..at + |text|] == text
    ensures buffer[..at + |text|] == old(buffer[..at]) + text
    ensures buffer[at + |text|..] == old(buffer[at + |text|..])
    ensures at == 0 && |text| == buffer.Length ==> buffer[..] == text
  {
    forall i | at <= i < at + |text| {
      buffer[i] := text[i - at];
    }
    assert buffer[..at + |text|] == buffer[..at] + buffer[at..at + |text|];
  }

  /** Two copies one after the other are one copy of both texts. */
  lemma PatchedTwice(was: seq<Byte>, at: nat, front: seq<Byte>, back: seq<Byte>)
    requires at + |front| + |back| <= |was|
    ensures Patched(Patched(was, at, front), at + |front|, back) == Patched(was, at, front + back)
  {
  }

  lemma PatchedParts(was: seq<Byte>, at: nat, text: seq<Byte>)
    requires at + |text| <= |was|
    ensures Patched(was, at, text)[..at + |text|] == was[..at] + text
    ensures Patched(was, at, text)[at + |text|..] == was[at + |text|..]
  {
  }

  /** Parts of what is left of an input. */
  lemma SlicedTail(s: seq<Byte>, start: nat, from: nat, to: nat)
    requires from <= to && start + to <= |s|
    ensures s[start..][from..to] == s[start + from..start + to]
    ensures s[start..][to..] == s[start + to..]
  {
  }

  /** 1 << n. */
  function Shl1(n: nat): nat { if n == 0 then 1 else 2 * Shl1(n - 1) }

  lemma {:induction false} Shl1Monotone(m: nat, n: nat)
    requires m <= n
    ensures 0 < Shl1(m) <= Shl1(n)
    decreases n
  {
    if m < n {
      Shl1Monotone(m, n - 1);
    } else if m > 0 {
      Shl1Monotone(m - 1, m - 1);
    }
  }

  lemma {:induction false} Shl1Adds(a: nat, b: nat)
    ensures Shl1(a + b) == Shl1(a) * Shl1(b)
  {
    hide Shl1;
    if a > 0 {
      Shl1Adds(a - 1, b);
      Shl1Step(a);
      Shl1Step(a + b);
      TwiceProduct(Shl1(a - 1), Shl1(b));
    } else {
      Shl1Start();
    }
  }

  lemma Shl1Start()
    ensures Shl1(0) == 1
  {
  }

  lemma Shl1Step(n: nat)
    requires n > 0
    ensures Shl1(n) == 2 * Shl1(n - 1)
  {
  }

  lemma TwiceProduct(x: nat, y: nat)
    ensures 2 * (x * y) == (2 * x) * y
  {
  }

  lemma MulMonotone(a: nat, b: nat, c: nat)
    requires a <= b
    ensures a * c <= b * c
  {
  }

  lemma OneMore(n: nat, w: nat)
    ensures (n + 1) * w == n * w + w
  {
  }

  lemma DivideExact(low: nat, unit: nat, q: nat)
    requires low < unit
    ensures (low + unit * q) / unit == q
  {
    var w := low + unit * q;
    var r := w / unit;
    assert r * unit <= w < (r + 1) * unit;
    if r < q {
      MulMonotone(r + 1, q, unit);
    } else if q < r {
      MulMonotone(q + 1, r, unit);
    }
  }

  lemma DivideBounds(p: nat, unit: nat)
    requires unit > 0
    ensures 0 <= p / unit && p / unit * unit <= p < (p / unit + 1) * unit
    ensures 0 <= p % unit < unit && p % unit == p - unit * (p / unit)
  {
  }

  /** The block of a given size that holds offset p. */
  function BlockIndex(p: nat, size: nat): (id: nat)
    requires size > 0
    ensures id * size <= p < (id + 1) * size
  {
    DivideBounds(p, size);
    p / size
  }

  lemma SameBlock(p: nat, size: nat, id: nat)
    requires size > 0 && id * size <= p < (id + 1) * size
    ensures BlockIndex(p, size) == id
  {
    var other := BlockIndex(p, size);
    if id < other {
      MulMonotone(id + 1, other, size);
    } else if other < id {
      MulMonotone(other + 1, id, size);
    }
  }

  // ---------- Little-endian numbers of any width ----------

  function LittleEndian(n: nat, width: nat): (b: seq<Byte>)
    ensures |b| == width
  {
    if width == 0 then [] else [n % 256] + LittleEndian(n / 256, width - 1)
  }

  function FromLittleEndian(b: seq<Byte>): nat {
    if b == [] then 0 else b[0] + 256 * FromLittleEndian(b[1..])
  }

  function Power256(width: nat): nat { if width == 0 then 1 else 256 * Power256(width - 1) }

  lemma {:induction false} LittleEndianRoundTrip(n: nat, width: nat)
    requires n < Power256(width)
    ensures FromLittleEndian(LittleEndian(n, width)) == n
  {
    if width > 0 {
      LittleEndianRoundTrip(n / 256, width - 1);
      assert LittleEndian(n, width)[1..] == LittleEndian(n / 256, width - 1);
    }
  }

  lemma U64Fits()
    ensures Power256(8) == U64_MAX + 1
  {
    assert Power256(4) == 0x1_0000_0000;
    assert Power256(8) == 256 * (256 * (256 * (256 * Power256(4))));
  }
}
