/** Reads widened to whole sectors: raw devices (src/source.rs, `read_exact_at`) and `.detto` images
    (src/datto.rs, `DettoImage::read_exact_at`). */
module SectorReads {
  import opened Bytes

  const MAX_SCRATCH: nat := 0x10_0000

  // ---------- Rounding ----------

  predicate Multiple(n: nat, unit: nat)
    requires unit > 0
  {
    n % unit == 0
  }

  function FloorTo(n: nat, unit: nat): (m: nat)
    requires unit > 0
    ensures m <= n < m + unit && Multiple(m, unit)
  {
    FloorFacts(n, unit);
    n / unit * unit
  }

  lemma FloorFacts(n: nat, unit: nat)
    requires unit > 0
    ensures 0 <= n / unit * unit <= n < n / unit * unit + unit && Multiple(n / unit * unit, unit)
  {
    DivideExact(0, unit, n / unit);
    assert n / unit * unit == 0 + unit * (n / unit);
  }

  /** `div_ceil(unit) * unit`. */
  function CeilTo(n: nat, unit: nat): (m: nat)
    requires unit > 0
    ensures n <= m < n + unit && Multiple(m, unit)
  {
    FloorTo(n + unit - 1, unit)
  }

  /** The least multiple that is large enough. */
  lemma CeilIsLeast(n: nat, unit: nat, m: nat)
    requires unit > 0 && Multiple(m, unit) && n <= m
    ensures CeilTo(n, unit) <= m
  {
    var c := CeilTo(n, unit);
    if m < c {
      MultiplesApart(m, c, unit);
    }
  }

  /** Two multiples differ by at least a unit. */
  lemma MultiplesApart(a: nat, b: nat, unit: nat)
    requires unit > 0 && Multiple(a, unit) && Multiple(b, unit) && a < b
    ensures a + unit <= b
  {
    var p, q := a / unit, b / unit;
    assert a == p * unit && b == q * unit;
    if p >= q {
      MulMonotone(q, p, unit);
    }
    MulMonotone(p + 1, q, unit);
    assert (p + 1) * unit == p * unit + unit;
  }

  lemma EveryMultipleOfOne(n: nat)
    ensures Multiple(n, 1)
  {
  }

  lemma MultiplesAdd(a: nat, b: nat, unit: nat)
    requires unit > 0 && Multiple(a, unit) && Multiple(b, unit)
    ensures Multiple(a + b, unit)
  {
    var p, q := a / unit, b / unit;
    assert a + b == unit * (p + q) by { assert unit * (p + q) == unit * p + unit * q; }
    DivideExact(0, unit, p + q);
  }

  lemma CeilShifts(start: nat, n: nat, unit: nat)
    requires unit > 0 && Multiple(start, unit)
    ensures start + CeilTo(n, unit) == CeilTo(start + n, unit)
  {
    var low, high := start + CeilTo(n, unit), CeilTo(start + n, unit);
    MultiplesAdd(start, CeilTo(n, unit), unit);
    if low < high {
      MultiplesApart(low, high, unit);
    } else if high < low {
      MultiplesApart(high, low, unit);
    }
  }

  lemma CeilMonotone(m: nat, n: nat, unit: nat)
    requires unit > 0 && m <= n
    ensures CeilTo(m, unit) <= CeilTo(n, unit)
  {
    CeilIsLeast(m, unit, CeilTo(n, unit));
  }

  // ---------- Devices ----------

  /** A sector size: a power of two of at most a mebibyte. */
  predicate SectorSize(sector: nat) { exists k: nat :: k <= 20 && sector == Shl1(k) }

  lemma {:induction false} PowerDivides(k: nat, n: nat)
    requires k <= n
    ensures Shl1(k) > 0 && Multiple(Shl1(n), Shl1(k))
  {
    Shl1Monotone(0, k);
    if k < n {
      PowerDivides(k, n - 1);
      MultiplesAdd(Shl1(n - 1), Shl1(n - 1), Shl1(k));
    } else {
      DivideExact(0, Shl1(k), 1);
    }
  }

  lemma ScratchIsAligned(sector: nat)
    requires SectorSize(sector)
    ensures sector > 0 && Multiple(MAX_SCRATCH, sector)
  {
    var k: nat :| k <= 20 && sector == Shl1(k);
    assert Shl1(10) == 1024;
    assert Shl1(20) == 1024 * Shl1(10);
    PowerDivides(k, 20);
  }

  /** One request to the operating system, and how many bytes it returned. */
  datatype Request = Request(position: nat, length: nat, count: nat)

  /** An answer a device of a given size may give: some of the bytes asked for, none at the end. */
  predicate Answer(size: nat, r: Request) {
    r.length > 0 && r.count <= r.length && (r.count == 0 <==> r.position >= size) && (r.count > 0 ==> r.position + r.count <= size)
  }

  /** A log of `positioned_read` for [position, position + remaining): each request asks for everything still
      missing, and an empty answer ends it. */
  predicate Serves(log: seq<Request>, size: nat, position: nat, remaining: nat) {
    if remaining == 0 || position > U64_MAX then log == []
    else
      && log != [] && log[0].position == position && log[0].length == remaining && Answer(size, log[0])
      && if log[0].count == 0 then |log| == 1 else Serves(log[1..], size, position + log[0].count, remaining - log[0].count)
  }

  predicate AlignedRequest(r: Request, sector: nat)
    requires sector > 0
  {
    Multiple(r.position, sector) && Multiple(r.length, sector)
  }

  /** Every request is a run of whole sectors. */
  predicate AllAligned(log: seq<Request>, sector: nat)
    requires sector > 0
  {
    forall r :: r in log ==> AlignedRequest(r, sector)
  }

  /** Every answer is a run of whole sectors. */
  predicate AllWhole(log: seq<Request>, sector: nat)
    requires sector > 0
  {
    forall r :: r in log ==> Multiple(r.count, sector)
  }

  /** No request asks for more than a number of bytes. */
  predicate AllWithin(log: seq<Request>, bytes: nat) { forall r :: r in log ==> r.length <= bytes }

  lemma LogsJoin(a: seq<Request>, b: seq<Request>, sector: nat, bytes: nat)
    requires sector > 0
    ensures AllAligned(a + b, sector) <==> AllAligned(a, sector) && AllAligned(b, sector)
    ensures AllWhole(a + b, sector) <==> AllWhole(a, sector) && AllWhole(b, sector)
    ensures AllWithin(a + b, bytes) <==> AllWithin(a, bytes) && AllWithin(b, bytes)
  {
    hide AlignedRequest;
    hide Multiple;
    assert forall r :: r in a + b <==> r in a || r in b;
  }

  lemma LogSplits(log: seq<Request>, sector: nat, bytes: nat)
    requires sector > 0 && log != []
    ensures AllAligned(log, sector) <==> AlignedRequest(log[0], sector) && AllAligned(log[1..], sector)
    ensures AllWhole(log, sector) <==> Multiple(log[0].count, sector) && AllWhole(log[1..], sector)
    ensures AllWithin(log, bytes) <==> log[0].length <= bytes && AllWithin(log[1..], bytes)
  {
    hide AlignedRequest;
    hide Multiple;
    LogsJoin([log[0]], log[1..], sector, bytes);
    assert log == [log[0]] + log[1..];
  }

  /** The requests for a run of whole sectors stay aligned exactly when every answer is a run of whole sectors. */
  lemma {:induction false} AlignedIffWhole(log: seq<Request>, size: nat, position: nat, remaining: nat, sector: nat)
    requires sector > 0 && size <= U64_MAX && Serves(log, size, position, remaining)
    requires Multiple(position, sector) && Multiple(remaining, sector)
    ensures AllAligned(log, sector) <==> AllWhole(log, sector)
    ensures AllWithin(log, remaining)
    decreases |log|
  {
    hide Multiple;
    hide AllAligned;
    hide AllWhole;
    hide AllWithin;
    if log == [] {
      NothingLogged(sector, remaining);
    } else {
      var count, rest := log[0].count, log[1..];
      LogSplits(log, sector, remaining);
      if count == 0 {
        NothingLogged(sector, remaining);
      } else if Multiple(count, sector) {
        MultiplesAdd(position, count, sector);
        MultiplesSubtract(remaining, count, sector);
        AlignedIffWhole(rest, size, position + count, remaining - count, sector);
        FewerBytes(rest, remaining - count, remaining);
      } else {
        assert count < remaining && rest != [];
        MisalignedAfter(position, count, sector);
        LogSplits(rest, sector, remaining);
        assert rest[0].position == position + count;
        ServesWithin(rest, size, position + count, remaining - count);
        FewerBytes(rest, remaining - count, remaining);
      }
    }
  }

  lemma NothingLogged(sector: nat, bytes: nat)
    requires sector > 0
    ensures AllAligned([], sector) && AllWhole([], sector) && AllWithin([], bytes) && Multiple(0, sector)
  {
    DivideExact(0, sector, 0);
  }

  lemma FewerBytes(log: seq<Request>, bytes: nat, more: nat)
    requires AllWithin(log, bytes) && bytes <= more
    ensures AllWithin(log, more)
  {
  }

  lemma {:induction false} ServesWithin(log: seq<Request>, size: nat, position: nat, remaining: nat)
    requires Serves(log, size, position, remaining)
    ensures AllWithin(log, remaining)
    decreases |log|
  {
    hide AllWithin;
    if log == [] {
      NothingLogged(1, remaining);
    } else {
      LogSplits(log, 1, remaining);
      if log[0].count == 0 {
        NothingLogged(1, remaining);
      } else {
        ServesWithin(log[1..], size, position + log[0].count, remaining - log[0].count);
        FewerBytes(log[1..], remaining - log[0].count, remaining);
      }
    }
  }

  lemma MultiplesSubtract(a: nat, b: nat, unit: nat)
    requires unit > 0 && b <= a && Multiple(a, unit) && Multiple(b, unit)
    ensures Multiple(a - b, unit)
  {
    var p, q := a / unit, b / unit;
    assert a == unit * p && b == unit * q;
    if p < q {
      MulMonotone(p + 1, q, unit);
    }
    TimesDifference(unit, p, q);
    DivideExact(0, unit, p - q);
  }

  lemma TimesDifference(unit: nat, p: nat, q: nat)
    ensures unit * (p - q) == unit * p - unit * q
  {
  }

  lemma MisalignedAfter(position: nat, count: nat, unit: nat)
    requires unit > 0 && Multiple(position, unit) && !Multiple(count, unit)
    ensures !Multiple(position + count, unit)
  {
    if Multiple(position + count, unit) {
      MultiplesSubtract(position + count, position, unit);
    }
  }

  /** A device that answers a request of two sectors with a hundred bytes: the next request is not aligned. */
  lemma ShortAnswerMisaligns()
    ensures var log := [Request(0, 1024, 100), Request(100, 924, 924)];
            Serves(log, 1024, 0, 1024) && !AllWhole(log, 512) && !AllAligned(log, 512)
  {
    var log := [Request(0, 1024, 100), Request(100, 924, 924)];
    assert log[1..][0] == log[1] && log[1..][1..] == [];
    assert log[0] in log && log[1] in log;
    assert Serves(log[1..][1..], 1024, 1024, 0);
  }

  /** The open device. Its log of requests grows by one entry per positioned read of the operating system. */
  class Device {
    const data: seq<Byte>
    ghost var log: seq<Request>

    constructor (data: seq<Byte>)
      ensures this.data == data && log == []
    {
      this.data := data;
      log := [];
    }

    /** `read_at` into buffer[from..to]: some of the bytes from a position on. */
    method ReadAt(position: nat, buffer: array<Byte>, from: nat, to: nat) returns (count: nat)
      requires from < to <= buffer.Length
      modifies this`log, buffer
      ensures log == old(log) + [Request(position, to - from, count)]
      ensures Answer(|data|, Request(position, to - from, count))
      ensures count > 0 ==> position + count <= |data| && buffer[from..from + count] == data[position..position + count]
      ensures buffer[..from] == old(buffer[..from]) && buffer[from + count..] == old(buffer[from + count..])
    {
      if position >= |data| {
        count := 0;
      } else {
        count := *;
        if !(0 < count <= Min(to - from, |data| - position)) {
          count := 1;
        }
        CopyInto(buffer, from, data[position..position + count]);
      }
      log := log + [Request(position, to - from, count)];
    }
  }

  /** The requests a device has seen since it had seen a number of them. */
  ghost function Since(device: Device, seen: nat): seq<Request>
    requires seen <= |device.log|
    reads device
  {
    device.log[seen..]
  }

  lemma WindowsJoin(disk: seq<Byte>, start: nat, m: nat, n: nat)
    ensures Window(disk, start, m) + Window(disk, start + m, n) == Window(disk, start, m + n)
  {
  }

  lemma WindowInside(disk: seq<Byte>, start: nat, n: nat, skip: nat, count: nat)
    requires skip + count <= n
    ensures Window(disk, start, n)[skip..skip + count] == Window(disk, start + skip, count)
  {
  }

  lemma WindowIsSlice(disk: seq<Byte>, start: nat, n: nat)
    requires start + n <= |disk|
    ensures Window(disk, start, n) == disk[start..start + n]
  {
    forall k: nat | k < n
      ensures Window(disk, start, n)[k] == disk[start..start + n][k]
    {
      assert Window(disk, start, n)[k] == At(disk, start + k);
    }
  }

  /** `positioned_read` into buffer[..n]. */
  method PositionedRead(device: Device, offset: nat, buffer: array<Byte>, n: nat) returns (ok: bool)
    requires n <= buffer.Length && |device.data| <= U64_MAX
    modifies device`log, buffer
    ensures ok <==> n == 0 || offset + n <= |device.data|
    ensures ok ==> buffer[..n] == Window(device.data, offset, n)
    ensures old(device.log) <= device.log
    ensures Serves(Since(device, |old(device.log)|), |device.data|, offset, n)
  {
    hide Window;
    hide Serves;
    hide Answer;
    hide Served;
    ghost var seen, size := |device.log|, |device.data|;
    var complete := 0;
    WindowInside(device.data, offset, 0, 0, 0);
    NothingServed(size, offset, n);
    assert Since(device, seen) == [];
    while complete < n
      invariant complete <= n && (complete > 0 ==> offset + complete <= size)
      invariant buffer[..complete] == Window(device.data, offset, complete)
      invariant old(device.log) <= device.log && Served(Since(device, seen), size, offset, n, complete)
    {
      var position := offset + complete;
      if position > U64_MAX {
        ServedEnds(Since(device, seen), size, offset, n, complete);
        return false;
      }
      ghost var before := Since(device, seen);
      var count := device.ReadAt(position, buffer, complete, n);
      assert Since(device, seen) == before + [Request(position, n - complete, count)];
      ServedOnce(before, size, offset, n, complete, Request(position, n - complete, count));
      if count == 0 {
        NoAnswer(size, position, n - complete);
        return false;
      }
      WindowsJoin(device.data, offset, complete, count);
      WindowIsSlice(device.data, position, count);
      assert buffer[..complete + count] == buffer[..complete] + buffer[complete..complete + count];
      AnswerFits(size, Request(position, n - complete, count));
      complete := complete + count;
    }
    ServedEnds(Since(device, seen), size, offset, n, complete);
    return true;
  }

  lemma NoAnswer(size: nat, position: nat, wanted: nat)
    requires Answer(size, Request(position, wanted, 0))
    ensures position + wanted > size
  {
  }

  lemma AnswerFits(size: nat, r: Request)
    requires Answer(size, r)
    ensures r.count <= r.length
  {
  }

  /** A log so far: whatever serves the rest completes it. */
  ghost predicate Served(log: seq<Request>, size: nat, offset: nat, n: nat, complete: nat)
    requires complete <= n
  {
    forall rest :: Serves(rest, size, offset + complete, n - complete) ==> Serves(log + rest, size, offset, n)
  }

  lemma NothingServed(size: nat, offset: nat, n: nat)
    ensures Served([], size, offset, n, 0)
  {
    hide Serves;
    forall rest | Serves(rest, size, offset + 0, n - 0)
      ensures Serves([] + rest, size, offset, n)
    {
      assert [] + rest == rest;
    }
  }

  lemma ServedEnds(log: seq<Request>, size: nat, offset: nat, n: nat, complete: nat)
    requires complete <= n && Served(log, size, offset, n, complete) && (complete == n || offset + complete > U64_MAX)
    ensures Serves(log, size, offset, n)
  {
    assert Serves([], size, offset + complete, n - complete);
    assert log + [] == log;
  }

  lemma ServedOnce(log: seq<Request>, size: nat, offset: nat, n: nat, complete: nat, r: Request)
    requires complete < n && offset + complete <= U64_MAX && Served(log, size, offset, n, complete)
    requires r.position == offset + complete && r.length == n - complete && Answer(size, r)
    ensures r.count == 0 ==> Serves(log + [r], size, offset, n)
    ensures r.count > 0 ==> Served(log + [r], size, offset, n, complete + r.count)
  {
    if r.count == 0 {
      assert Serves([r], size, offset + complete, n - complete);
    } else {
      forall rest | Serves(rest, size, offset + (complete + r.count), n - (complete + r.count))
        ensures Serves(log + [r] + rest, size, offset, n)
      {
        var all := [r] + rest;
        assert all[1..] == rest && all[0] == r;
        assert Serves(all, size, offset + complete, n - complete);
        assert log + [r] + rest == log + all;
      }
    }
  }

  // ---------- Rounds ----------

  /** How many wanted bytes one round delivers. */
  function ChunkCount(sector: nat, capacity: nat, position: nat, remaining: nat): (count: nat)
    requires sector > 0 && capacity >= sector
    ensures count <= remaining && (remaining > 0 ==> count > 0)
  {
    Min(remaining, capacity - (position - FloorTo(position, sector)))
  }

  /** How many bytes of whole sectors one round asks for. */
  function ChunkRead(sector: nat, capacity: nat, position: nat, remaining: nat): (read: nat)
    requires sector > 0 && capacity >= sector
    ensures Multiple(read, sector)
  {
    CeilTo(position - FloorTo(position, sector) + ChunkCount(sector, capacity, position, remaining), sector)
  }

  /** The requests of the widened reads for [position, position + remaining): round by round the sectors around what
      is still missing, as many as the scratch space takes, up to the first round past the end of the device. */
  ghost predicate Rounds(log: seq<Request>, size: nat, sector: nat, capacity: nat, position: nat, remaining: nat)
    requires sector > 0 && capacity >= sector
    decreases remaining
  {
    if remaining == 0 || position > U64_MAX then log == []
    else
      var start, count := FloorTo(position, sector), ChunkCount(sector, capacity, position, remaining);
      var read := ChunkRead(sector, capacity, position, remaining);
      exists k: nat :: k <= |log| && Serves(log[..k], size, start, read)
                       && if start + read <= size then Rounds(log[k..], size, sector, capacity, position + count, remaining - count)
                          else k == |log|
  }

  lemma ChunkFits(sector: nat, capacity: nat, position: nat, remaining: nat)
    requires sector > 0 && capacity >= sector && Multiple(capacity, sector)
    ensures ChunkRead(sector, capacity, position, remaining) <= capacity
    ensures FloorTo(position, sector) + ChunkRead(sector, capacity, position, remaining)
         == CeilTo(position + ChunkCount(sector, capacity, position, remaining), sector)
  {
    var start, count := FloorTo(position, sector), ChunkCount(sector, capacity, position, remaining);
    CeilIsLeast(position - start + count, sector, capacity);
    CeilShifts(start, position - start + count, sector);
  }

  /** Whatever the device answers, no round asks for more than the scratch space; its requests stay aligned exactly
      while the device answers with whole sectors. */
  lemma {:induction false} RoundsAligned(log: seq<Request>, size: nat, sector: nat, capacity: nat, position: nat, remaining: nat)
    requires sector > 0 && capacity >= sector && Multiple(capacity, sector) && size <= U64_MAX
    requires Rounds(log, size, sector, capacity, position, remaining)
    ensures AllAligned(log, sector) <==> AllWhole(log, sector)
    ensures AllWithin(log, capacity)
    decreases remaining
  {
    hide Serves;
    hide Multiple;
    hide FloorTo;
    hide CeilTo;
    hide AllAligned;
    hide AllWhole;
    hide AllWithin;
    NothingLogged(sector, capacity);
    if remaining > 0 && position <= U64_MAX {
      var start, count := FloorTo(position, sector), ChunkCount(sector, capacity, position, remaining);
      var read := ChunkRead(sector, capacity, position, remaining);
      var k: nat :| k <= |log| && Serves(log[..k], size, start, read)
                    && if start + read <= size then Rounds(log[k..], size, sector, capacity, position + count, remaining - count)
                       else k == |log|;
      AlignedIffWhole(log[..k], size, start, read, sector);
      ChunkFits(sector, capacity, position, remaining);
      FewerBytes(log[..k], read, capacity);
      if start + read <= size {
        RoundsAligned(log[k..], size, sector, capacity, position + count, remaining - count);
        LogsJoin(log[..k], log[k..], sector, capacity);
        assert log == log[..k] + log[k..];
      } else {
        assert log == log[..k];
      }
    }
  }

  /** A log so far: whatever completes the remaining rounds completes it. */
  ghost predicate RoundsSoFar(log: seq<Request>, size: nat, sector: nat, capacity: nat, offset: nat, n: nat, complete: nat)
    requires sector > 0 && capacity >= sector && complete <= n
  {
    forall rest :: Rounds(rest, size, sector, capacity, offset + complete, n - complete)
                   ==> Rounds(log + rest, size, sector, capacity, offset, n)
  }

  lemma NoRounds(size: nat, sector: nat, capacity: nat, offset: nat, n: nat)
    requires sector > 0 && capacity >= sector
    ensures RoundsSoFar([], size, sector, capacity, offset, n, 0)
  {
    hide Rounds;
    forall rest | Rounds(rest, size, sector, capacity, offset + 0, n - 0)
      ensures Rounds([] + rest, size, sector, capacity, offset, n)
    {
      assert [] + rest == rest;
    }
  }

  lemma RoundsEnd(log: seq<Request>, size: nat, sector: nat, capacity: nat, offset: nat, n: nat, complete: nat)
    requires sector > 0 && capacity >= sector && complete <= n
    requires RoundsSoFar(log, size, sector, capacity, offset, n, complete) && (complete == n || offset + complete > U64_MAX)
    ensures Rounds(log, size, sector, capacity, offset, n)
  {
    assert Rounds([], size, sector, capacity, offset + complete, n - complete);
    assert log + [] == log;
  }

  lemma OneRound(log: seq<Request>, round: seq<Request>, size: nat, sector: nat, capacity: nat, offset: nat, n: nat, complete: nat)
    requires sector > 0 && capacity >= sector && complete < n && offset + complete <= U64_MAX
    requires RoundsSoFar(log, size, sector, capacity, offset, n, complete)
    requires Serves(round, size, FloorTo(offset + complete, sector), ChunkRead(sector, capacity, offset + complete, n - complete))
    ensures var start, read := FloorTo(offset + complete, sector), ChunkRead(sector, capacity, offset + complete, n - complete);
            var count := ChunkCount(sector, capacity, offset + complete, n - complete);
            if start + read <= size then RoundsSoFar(log + round, size, sector, capacity, offset, n, complete + count)
            else Rounds(log + round, size, sector, capacity, offset, n)
  {
    hide Serves;
    hide FloorTo;
    hide CeilTo;
    hide ChunkRead;
    hide ChunkCount;
    var start, read := FloorTo(offset + complete, sector), ChunkRead(sector, capacity, offset + complete, n - complete);
    var count := ChunkCount(sector, capacity, offset + complete, n - complete);
    if start + read <= size {
      forall rest | Rounds(rest, size, sector, capacity, offset + (complete + count), n - (complete + count))
        ensures Rounds(log + round + rest, size, sector, capacity, offset, n)
      {
        var all := round + rest;
        assert all[..|round|] == round && all[|round|..] == rest;
        assert Rounds(all, size, sector, capacity, offset + complete, n - complete);
        assert log + round + rest == log + all;
      }
    } else {
      assert round[..|round|] == round;
      assert Rounds(round, size, sector, capacity, offset + complete, n - complete);
    }
  }

  /** One round: the sectors around a position, as many as the scratch space takes, and their wanted part copied out. */
  method ReadChunk(device: Device, sector: nat, position: nat, scratch: array<Byte>, buffer: array<Byte>, at: nat)
    returns (ok: bool, count: nat)
    requires sector > 0 && scratch.Length >= sector && Multiple(scratch.Length, sector) && |device.data| <= U64_MAX
    requires at < buffer.Length && buffer != scratch
    modifies device`log, scratch, buffer
    ensures count == ChunkCount(sector, scratch.Length, position, buffer.Length - at)
    ensures ok <==> CeilTo(position + count, sector) <= |device.data|
    ensures ok ==> buffer[..at + count] == old(buffer[..at]) + Window(device.data, position, count)
    ensures old(device.log) <= device.log
    ensures Serves(Since(device, |old(device.log)|), |device.data|, FloorTo(position, sector),
                   ChunkRead(sector, scratch.Length, position, buffer.Length - at))
  {
    hide CeilTo;
    hide FloorTo;
    hide Multiple;
    hide Window;
    hide Serves;
    var start: nat := FloorTo(position, sector);
    var skip: nat := position - start;
    count := Min(buffer.Length - at, scratch.Length - skip);
    var read: nat := CeilTo(skip + count, sector);
    ChunkFits(sector, scratch.Length, position, buffer.Length - at);
    ok := PositionedRead(device, start, scratch, read);
    if ok {
      WindowInside(device.data, start, read, skip, count);
      var sectors := scratch[..read];
      CopyInto(buffer, at, sectors[skip..skip + count]);
    }
  }

  /** Whether a request can go straight to the caller's buffer. */
  predicate Direct(sector: nat, offset: nat, n: nat)
    requires sector > 0
  {
    sector == 1 || (Multiple(offset, sector) && Multiple(n, sector))
  }

  /** The size of the scratch space: whole sectors, at most a mebibyte. */
  function Capacity(sector: nat, n: nat): nat
    requires sector > 0
  {
    CeilTo(Min(n + sector - 1, MAX_SCRATCH), sector)
  }

  lemma CapacityIsSmall(sector: nat, n: nat)
    requires SectorSize(sector) && n > 0
    ensures sector > 0 && sector <= Capacity(sector, n) <= MAX_SCRATCH && Multiple(Capacity(sector, n), sector)
  {
    ScratchIsAligned(sector);
    CeilIsLeast(Min(n + sector - 1, MAX_SCRATCH), sector, MAX_SCRATCH);
    MultiplesApart(0, MAX_SCRATCH, sector);
  }

  /** The requests of one read: none, one run to the caller's buffer, or rounds through the scratch space. */
  ghost predicate Requested(log: seq<Request>, size: nat, sector: nat, offset: nat, n: nat)
    requires sector > 0 && (n > 0 ==> Capacity(sector, n) >= sector)
  {
    if n == 0 then log == []
    else if Direct(sector, offset, n) then Serves(log, size, offset, n)
    else Rounds(log, size, sector, Capacity(sector, n), offset, n)
  }

  /** What every read asks of the operating system: at most a mebibyte at a time unless it goes straight to the
      caller's buffer, and whole sectors at sector boundaries exactly while the device answers with whole sectors. */
  lemma RequestsAreAligned(log: seq<Request>, size: nat, sector: nat, offset: nat, n: nat)
    requires SectorSize(sector) && size <= U64_MAX
    ensures sector > 0 && (n > 0 ==> Capacity(sector, n) >= sector)
    ensures Requested(log, size, sector, offset, n) ==>
              && (AllAligned(log, sector) <==> AllWhole(log, sector))
              && AllWithin(log, if Direct(sector, offset, n) then n else MAX_SCRATCH)
  {
    hide SectorSize;
    hide Capacity;
    hide Multiple;
    hide Serves;
    hide Rounds;
    hide AllAligned;
    hide AllWhole;
    hide AllWithin;
    ScratchIsAligned(sector);
    NothingLogged(sector, n);
    NothingLogged(sector, MAX_SCRATCH);
    if n > 0 {
      CapacityIsSmall(sector, n);
      if Requested(log, size, sector, offset, n) {
        if Direct(sector, offset, n) {
          if sector == 1 {
            EveryMultipleOfOne(offset);
            EveryMultipleOfOne(n);
          }
          AlignedIffWhole(log, size, offset, n, sector);
        } else {
          RoundsAligned(log, size, sector, Capacity(sector, n), offset, n);
          FewerBytes(log, Capacity(sector, n), MAX_SCRATCH);
        }
      }
    }
  }

  lemma KnownSector(sector: nat, n: nat)
    requires SectorSize(sector)
    ensures sector > 0 && (n > 0 ==> Capacity(sector, n) >= sector)
  {
    ScratchIsAligned(sector);
    if n > 0 {
      CapacityIsSmall(sector, n);
    }
  }

  /** The rounds through the scratch space: each one fills it with whole sectors and copies out the wanted bytes. */
  method ReadRounds(device: Device, sector: nat, offset: U64, scratch: array<Byte>, buffer: array<Byte>) returns (ok: bool)
    requires SectorSize(sector) && |device.data| <= U64_MAX && sector > 0
    requires buffer.Length > 0 && scratch != buffer && scratch.Length == Capacity(sector, buffer.Length)
    requires sector <= scratch.Length && Multiple(scratch.Length, sector)
    modifies device`log, scratch, buffer
    ensures ok <==> CeilTo(offset + buffer.Length, sector) <= |device.data|
    ensures ok ==> offset + buffer.Length <= |device.data| && buffer[..] == device.data[offset..offset + buffer.Length]
    ensures old(device.log) <= device.log
    ensures Rounds(Since(device, |old(device.log)|), |device.data|, sector, scratch.Length, offset, buffer.Length)
  {
    hide SectorSize;
    hide CeilTo;
    hide FloorTo;
    hide Multiple;
    hide Window;
    hide Rounds;
    hide RoundsSoFar;
    hide Capacity;
    hide ChunkCount;
    hide ChunkRead;
    hide Serves;
    var n := buffer.Length;
    var complete: nat := 0;
    ghost var seen, size := |device.log|, |device.data|;
    WindowInside(device.data, offset, 0, 0, 0);
    NoRounds(size, sector, scratch.Length, offset, n);
    assert Since(device, seen) == [];
    while complete < n
      invariant complete <= n && (complete > 0 ==> CeilTo(offset + complete, sector) <= size)
      invariant buffer[..complete] == Window(device.data, offset, complete)
      invariant old(device.log) <= device.log && RoundsSoFar(Since(device, seen), size, sector, scratch.Length, offset, n, complete)
    {
      var position := offset + complete;
      CeilMonotone(position, offset + n, sector);
      if position > U64_MAX {
        return false;
      }
      ghost var before, known := Since(device, seen), |device.log|;
      ChunkFits(sector, scratch.Length, position, n - complete);
      var got, count := ReadChunk(device, sector, position, scratch, buffer, complete);
      assert Since(device, seen) == before + Since(device, known);
      OneRound(before, Since(device, known), size, sector, scratch.Length, offset, n, complete);
      CeilMonotone(position + count, offset + n, sector);
      if !got {
        return false;
      }
      WindowsJoin(device.data, offset, complete, count);
      complete := complete + count;
    }
    RoundsEnd(Since(device, seen), size, sector, scratch.Length, offset, n, complete);
    assert buffer[..n] == buffer[..];
    WindowIsSlice(device.data, offset, n);
    return true;
  }

  /** Returns exactly the requested bytes; it succeeds when the sectors they lie in are on the device. The requests it
      sends are those of `Requested`, which says which sectors it asks for, round by round. */
  method ReadExactAt(device: Device, sector: nat, offset: U64, buffer: array<Byte>) returns (ok: bool)
    requires SectorSize(sector) && |device.data| <= U64_MAX
    modifies device`log, buffer
    ensures sector > 0 && (buffer.Length > 0 ==> Capacity(sector, buffer.Length) >= sector)
    ensures ok <==> buffer.Length == 0 || CeilTo(offset + buffer.Length, sector) <= |device.data|
    ensures ok ==> offset + buffer.Length <= Max(|device.data|, offset)
    ensures ok && buffer.Length > 0 ==> buffer[..] == device.data[offset..offset + buffer.Length]
    ensures old(device.log) <= device.log
    ensures Requested(Since(device, |old(device.log)|), |device.data|, sector, offset, buffer.Length)
    ensures var log := Since(device, |old(device.log)|);
            && (AllAligned(log, sector) <==> AllWhole(log, sector))
            && AllWithin(log, if Direct(sector, offset, buffer.Length) then buffer.Length else MAX_SCRATCH)
  {
    hide SectorSize;
    hide CeilTo;
    hide FloorTo;
    hide Multiple;
    hide Window;
    hide Serves;
    hide AllAligned;
    hide AllWhole;
    hide AllWithin;
    hide Rounds;
    var n := buffer.Length;
    ghost var seen, size := |device.log|, |device.data|;
    KnownSector(sector, n);
    if n == 0 {
      RequestsAreAligned([], size, sector, offset, n);
      return true;
    }
    if sector == 1 || (Multiple(offset, sector) && Multiple(n, sector)) {
      DirectEnd(sector, offset, n);
      ok := PositionedRead(device, offset, buffer, n);
      RequestsAreAligned(Since(device, seen), size, sector, offset, n);
      if ok {
        WindowIsSlice(device.data, offset, n);
        assert buffer[..n] == buffer[..];
      }
      return;
    }
    CapacityIsSmall(sector, n);
    var scratch := new Byte[CeilTo(Min(n + sector - 1, MAX_SCRATCH), sector)];
    ok := ReadRounds(device, sector, offset, scratch, buffer);
    RequestsAreAligned(Since(device, seen), size, sector, offset, n);
  }

  /** A direct read ends at a sector boundary. */
  lemma DirectEnd(sector: nat, offset: nat, n: nat)
    requires sector > 0 && Direct(sector, offset, n)
    ensures CeilTo(offset + n, sector) == offset + n
  {
    hide CeilTo;
    if sector == 1 {
      EveryMultipleOfOne(offset);
      EveryMultipleOfOne(n);
    }
    MultiplesAdd(offset, n, sector);
    CeilIsLeast(offset + n, sector, offset + n);
  }

  // ---------- .detto images ----------

  const SECTOR: nat := 512

  type Sector = s: seq<Byte> | |s| == SECTOR witness Zeros(SECTOR)

  /** Decrypts a sector of the image given its number. */
  datatype SectorCipher = SectorCipher(open: (nat, Sector) -> Sector)

  /** The plaintext of consecutive sectors, the first of which has the given number. */
  function Decrypted(c: SectorCipher, data: seq<Byte>, first: nat): (plain: seq<Byte>)
    requires |data| % SECTOR == 0
    ensures |plain| == |data|
  {
    if data == [] then [] else c.open(first, data[..SECTOR]) + Decrypted(c, data[SECTOR..], first + 1)
  }

  lemma {:induction false} DecryptedTail(c: SectorCipher, data: seq<Byte>, first: nat, skip: nat)
    requires |data| % SECTOR == 0 && SECTOR * skip <= |data|
    ensures Decrypted(c, data, first)[SECTOR * skip..] == Decrypted(c, data[SECTOR * skip..], first + skip)
    decreases skip
  {
    if skip > 0 {
      DecryptedTail(c, data[SECTOR..], first + 1, skip - 1);
      assert data[SECTOR..][SECTOR * (skip - 1)..] == data[SECTOR * skip..];
      var whole, rest := Decrypted(c, data, first), Decrypted(c, data[SECTOR..], first + 1);
      assert whole[SECTOR..] == rest && whole[SECTOR * skip..] == rest[SECTOR * (skip - 1)..];
    } else {
      assert data[0..] == data;
    }
  }

  lemma {:induction false} DecryptedHead(c: SectorCipher, data: seq<Byte>, first: nat, sectors: nat)
    requires |data| % SECTOR == 0 && SECTOR * sectors <= |data|
    ensures Decrypted(c, data, first)[..SECTOR * sectors] == Decrypted(c, data[..SECTOR * sectors], first)
    decreases sectors
  {
    if sectors > 0 {
      var head := data[..SECTOR * sectors];
      DecryptedHead(c, data[SECTOR..], first + 1, sectors - 1);
      assert head[SECTOR..] == data[SECTOR..][..SECTOR * (sectors - 1)] && head[..SECTOR] == data[..SECTOR];
      var whole, rest := Decrypted(c, data, first), Decrypted(c, data[SECTOR..], first + 1);
      assert whole[..SECTOR * sectors] == whole[..SECTOR] + rest[..SECTOR * (sectors - 1)];
    }
  }

  /** Decrypting whole sectors out of the middle is the middle of the decrypted image. */
  lemma DecryptedSlice(c: SectorCipher, data: seq<Byte>, first: nat, skip: nat, sectors: nat)
    requires |data| % SECTOR == 0 && SECTOR * (skip + sectors) <= |data|
    ensures Decrypted(c, data, first)[SECTOR * skip..SECTOR * (skip + sectors)]
         == Decrypted(c, data[SECTOR * skip..SECTOR * (skip + sectors)], first + skip)
  {
    hide Decrypted;
    var tail := data[SECTOR * skip..];
    DecryptedTail(c, data, first, skip);
    DecryptedHead(c, tail, first + skip, sectors);
    assert tail[..SECTOR * sectors] == data[SECTOR * skip..SECTOR * (skip + sectors)];
    var whole := Decrypted(c, data, first);
    assert whole[SECTOR * skip..][..SECTOR * sectors] == whole[SECTOR * skip..SECTOR * (skip + sectors)];
  }

  /** The library's in-place decryption of an area. */
  method DecryptArea(c: SectorCipher, area: array<Byte>, first: nat)
    requires area.Length % SECTOR == 0
    modifies area
    ensures area[..] == Decrypted(c, old(area[..]), first)
  {
    hide Patched;
    ghost var was := area[..];
    assert was[..0] == [] && Decrypted(c, [], first) == [];
    hide Decrypted;
    var at: nat, number := 0, first;
    while at < area.Length
      invariant at <= area.Length && at % SECTOR == 0 && number == first + at / SECTOR
      invariant area[at..] == was[at..]
      invariant area[..at] == Decrypted(c, was[..at], first)
    {
      var sector: Sector := area[at..at + SECTOR];
      DecryptedSnoc(c, was, first, at);
      assert sector == area[at..][..SECTOR] == was[at..][..SECTOR] == was[at..at + SECTOR];
      var plain: Sector := c.open(number, sector);
      CopyInto(area, at, plain);
      assert was[at + SECTOR..] == was[at..][SECTOR..];
      at, number := at + SECTOR, number + 1;
    }
    assert area[..] == area[..at] && was[..at] == was;
  }

  lemma DecryptedSnoc(c: SectorCipher, data: seq<Byte>, first: nat, at: nat)
    requires at % SECTOR == 0 && at + SECTOR <= |data|
    ensures Decrypted(c, data[..at + SECTOR], first)
         == Decrypted(c, data[..at], first) + c.open(first + at / SECTOR, data[at..at + SECTOR])
  {
    var more, n := data[..at + SECTOR], at / SECTOR;
    DecryptedTail(c, more, first, n);
    DecryptedHead(c, more, first, n);
    assert more[SECTOR * n..] == data[at..at + SECTOR] && more[..SECTOR * n] == data[..at];
    OneSector(c, data[at..at + SECTOR], first + n);
    var whole := Decrypted(c, more, first);
    assert whole == whole[..SECTOR * n] + whole[SECTOR * n..];
  }

  lemma OneSector(c: SectorCipher, sector: Sector, number: nat)
    ensures Decrypted(c, sector, number) == c.open(number, sector)
  {
    assert sector[..SECTOR] == sector;
    assert Decrypted(c, sector[SECTOR..], number + 1) == [];
  }

  lemma AreaIsSlice(c: SectorCipher, image: seq<Byte>, start: nat, stop: nat, from: nat, to: nat)
    requires |image| % SECTOR == 0 && start % SECTOR == 0 && stop % SECTOR == 0 && start <= from <= to <= stop <= |image|
    ensures Decrypted(c, image[start..stop], start / SECTOR)[from - start..to - start] == Decrypted(c, image, 0)[from..to]
  {
    hide Decrypted;
    DecryptedSlice(c, image, 0, start / SECTOR, (stop - start) / SECTOR);
    SliceWithin(Decrypted(c, image, 0), start, stop, from, to);
  }

  lemma SliceWithin(s: seq<Byte>, start: nat, stop: nat, from: nat, to: nat)
    requires start <= from <= to <= stop <= |s|
    ensures s[start..stop][from - start..to - start] == s[from..to]
  {
    var inner := s[start..stop][from - start..to - start];
    forall k | 0 <= k < to - from
      ensures inner[k] == s[from..to][k]
    {
      assert s[start..stop][from - start + k] == s[from + k];
    }
  }

  /** The sectors around a range of an image. */
  lemma SectorBounds(offset: nat, end: nat, size: nat)
    requires offset <= end <= size && size % SECTOR == 0
    ensures FloorTo(offset, SECTOR) <= offset && end <= CeilTo(end, SECTOR) <= size
    ensures FloorTo(offset, SECTOR) % SECTOR == 0 && CeilTo(end, SECTOR) % SECTOR == 0
  {
    CeilIsLeast(end, SECTOR, size);
  }

  /** Any byte range of a `.detto` image is that range of the sector-by-sector decrypted image. */
  method DettoReadExactAt(c: SectorCipher, image: seq<Byte>, offset: U64, buffer: array<Byte>) returns (ok: bool)
    requires |image| > 0 && |image| % SECTOR == 0
    modifies buffer
    ensures ok <==> offset + buffer.Length <= Min(|image|, U64_MAX)
    ensures ok ==> buffer[..] == Decrypted(c, image, 0)[offset..offset + buffer.Length]
  {
    hide Patched;
    hide Decrypted;
    var end := offset + buffer.Length;
    if end > U64_MAX || end > |image| {
      return false;
    }
    if buffer.Length == 0 {
      return true;
    }
    hide FloorTo;
    hide CeilTo;
    hide Multiple;
    var start, stop := FloorTo(offset, SECTOR), CeilTo(end, SECTOR);
    SectorBounds(offset, end, |image|);
    var area := new Byte[stop - start];
    CopyInto(area, 0, image[start..stop]);
    DecryptArea(c, area, start / SECTOR);
    AreaIsSlice(c, image, start, stop, offset, end);
    var within := offset - start;
    CopyInto(buffer, 0, area[within..within + buffer.Length]);
    return true;
  }
}
