/** The cached reader of a compressed NTFS stream (src/ntfs_compression.rs, `CompressedStream`): over every sequence
    of successful reads it returns slices of the plaintext, and a failed decoding can leave a stale cache. */
module NtfsReads {
  import opened Bytes
  import opened Lznt1Stream
  import opened Lznt1Decoder
  import opened NtfsRunMap
  import opened NtfsCompression

  // ---------- Support ----------

  /** Without sparse clusters a collected unit is whole. */
  lemma {:induction false} GatherLength(runs: seq<Run>, disk: seq<Byte>, position: nat, end: nat, packed: seq<Byte>, sparse: bool)
    requires position <= end
    ensures var g := GatherRuns(runs, disk, position, end, packed, sparse);
            g.Gathered? ==> (sparse ==> g.sparse) && (!g.sparse ==> |g.packed| == |packed| + (end - position))
    decreases |runs|
  {
    if position < end && runs != [] && runs[0].start <= position < runs[0].end {
      var next := Min(runs[0].end, end);
      if runs[0].physical.None? {
        GatherLength(runs[1..], disk, next, end, packed, true);
      } else if !sparse && DiskBytes(runs[0], disk, position, next).Some? {
        GatherLength(runs[1..], disk, next, end, packed + DiskBytes(runs[0], disk, position, next).value, false);
      }
    }
  }

  lemma {:induction false} ChainEnds(runs: seq<Run>, lo: nat, hi: nat, i: nat, j: nat)
    requires Chain(runs, lo, hi) && i <= j < |runs|
    ensures lo < runs[i].end <= runs[j].end
    decreases |runs|
  {
    if i > 0 {
      ChainEnds(runs[1..], runs[0].end, hi, i - 1, j - 1);
    } else if j > 0 {
      ChainEnds(runs[1..], runs[0].end, hi, 0, j - 1);
    }
  }

  lemma {:induction false} FirstIsPartition(runs: seq<Run>, position: nat, k: nat)
    requires k <= |runs| && (forall i :: 0 <= i < k ==> runs[i].end <= position) && (k < |runs| ==> runs[k].end > position)
    ensures FirstEndingAfter(runs, position) == k
  {
    if k > 0 {
      assert runs[0].end <= position;
      FirstIsPartition(runs[1..], position, k - 1);
    }
  }

  /** `partition_point(|run| run.end <= position)` on a chain of runs. */
  method PartitionPoint(runs: seq<Run>, position: nat, ghost lo: nat, ghost hi: nat) returns (first: nat)
    requires Chain(runs, lo, hi)
    ensures first == FirstEndingAfter(runs, position)
  {
    hide Chain;
    var left, right := 0, |runs|;
    while left < right
      invariant left <= right <= |runs|
      invariant forall i :: 0 <= i < left ==> runs[i].end <= position
      invariant forall i :: right <= i < |runs| ==> runs[i].end > position
    {
      var middle := (left + right) / 2;
      if runs[middle].end <= position {
        forall i | 0 <= i <= middle
          ensures runs[i].end <= position
        {
          ChainEnds(runs, lo, hi, i, middle);
        }
        left := middle + 1;
      } else {
        forall i | middle <= i < |runs|
          ensures runs[i].end > position
        {
          ChainEnds(runs, lo, hi, middle, i);
        }
        right := middle;
      }
    }
    FirstIsPartition(runs, position, left);
    return left;
  }

  lemma LoadedText(m: RunMap, disk: seq<Byte>, unit: nat, cache: seq<Byte>)
    requires unit * m.unitSize < m.initialized && |cache| == m.unitSize
    ensures Loaded(m, disk, unit, cache).0 <==> UnitText(m, disk, unit).Some?
    ensures UnitText(m, disk, unit).Some? ==> Loaded(m, disk, unit, cache).1 == UnitText(m, disk, unit).value
    ensures UnitText(m, disk, unit).None? ==>
      Loaded(m, disk, unit, cache).1
        == if (unit + 1) * m.unitSize <= U64_MAX && GatherUnit(m, disk, unit).Gathered? then Spoiled(m, disk, unit) else cache
  {
    hide GatherUnit;
    hide Decoded;
  }

  lemma SameUnit(m: RunMap, unit: nat, p: nat)
    requires m.unitSize > 0 && unit * m.unitSize <= p < (unit + 1) * m.unitSize
    ensures UnitOf(m, p) == unit
  {
    SameBlock(p, m.unitSize, unit);
  }

  /** A byte of a loaded unit is a byte of the plaintext. */
  lemma PlainFromUnit(m: RunMap, disk: seq<Byte>, unit: nat, p: nat)
    requires m.unitSize > 0 && unit * m.unitSize <= p < (unit + 1) * m.unitSize && p < m.initialized
    requires UnitText(m, disk, unit).Some?
    ensures 0 <= p - unit * m.unitSize < m.unitSize
    ensures Loads(m, disk, p) && Plain(m, disk, p) == UnitText(m, disk, unit).value[p - unit * m.unitSize]
  {
    hide UnitText;
    assert (unit + 1) * m.unitSize == unit * m.unitSize + m.unitSize;
    SameUnit(m, unit, p);
    hide UnitOf;
  }

  /** Behind the end of a unit come later units. */
  lemma LaterUnit(m: RunMap, unit: nat, p: nat)
    requires m.unitSize > 0
    ensures p >= (unit + 1) * m.unitSize ==> UnitOf(m, p) > unit
  {
    if p >= (unit + 1) * m.unitSize && UnitOf(m, p) <= unit {
      MulMonotone(UnitOf(m, p) + 1, unit + 1, m.unitSize);
    }
  }

  // ---------- The reader ----------

  class CompressedStream {
    const layout: RunMap
    const cache: array<Byte>
    var cachedUnit: Option<nat>

    /** The stream as `open` leaves it. */
    constructor (layout: RunMap, ghost volume: U64)
      requires Covering(layout, volume)
      ensures this.layout == layout && cachedUnit == None && fresh(cache) && cache.Length == layout.unitSize
    {
      this.layout := layout;
      cache := new Byte[layout.unitSize](_ => 0);
      cachedUnit := None;
    }

    ghost predicate Valid(disk: seq<Byte>)
      reads this
    {
      |disk| <= U64_MAX && Covering(layout, |disk|) && cache.Length == layout.unitSize
    }

    /** The cache holds the unit it is labelled with. */
    ghost predicate Coherent(disk: seq<Byte>)
      reads this, cache
    {
      cachedUnit.Some? ==>
        && cachedUnit.value * layout.unitSize < layout.initialized
        && UnitText(layout, disk, cachedUnit.value) == Some(cache[..])
    }

    /** The allocated clusters of a unit. */
    method Collect(disk: seq<Byte>, start: nat, end: nat) returns (g: Gather)
      requires Valid(disk) && start <= end
      ensures g == GatherRuns(layout.runs[FirstEndingAfter(layout.runs, start)..], disk, start, end, [], false)
    {
      hide DiskBytes;
      hide FirstEndingAfter;
      ghost var last: U64 :| Chain(layout.runs, 0, last);
      var first := PartitionPoint(layout.runs, start, 0, last);
      var position: nat, packed, sparse := start, [], false;
      var i := first;
      while i < |layout.runs| && position != end
        invariant first <= i <= |layout.runs| && position <= end
        invariant GatherRuns(layout.runs[first..], disk, start, end, [], false)
               == GatherRuns(layout.runs[i..], disk, position, end, packed, sparse)
        decreases |layout.runs| - i
      {
        var run := layout.runs[i];
        assert layout.runs[i..][0] == run && layout.runs[i..][1..] == layout.runs[i + 1..];
        if !(run.start <= position < run.end) {
          return Missing;
        }
        var next := Min(run.end, end);
        if run.physical.Some? {
          if sparse {
            return AllocatedAfterSparse;
          }
          var bytes := DiskBytes(run, disk, position, next);
          if bytes.None? {
            return ReadFailed;
          }
          packed := packed + bytes.value;
        } else {
          sparse := true;
        }
        position, i := next, i + 1;
      }
      if position != end {
        return Truncated;
      }
      return Gathered(packed, sparse);
    }

    method LoadUnit(disk: seq<Byte>, unit: nat) returns (ok: bool)
      requires Valid(disk) && unit * layout.unitSize < layout.initialized
      modifies cache
      ensures (ok, cache[..]) == Loaded(layout, disk, unit, old(cache[..]))
    {
      hide Patched;
      hide GatherRuns;
      hide FirstEndingAfter;
      hide Decoded;
      hide Covering;
      var start := unit * layout.unitSize;
      assert (unit + 1) * layout.unitSize == start + layout.unitSize;
      if start + layout.unitSize > U64_MAX {
        return false;
      }
      var g := Collect(disk, start, start + layout.unitSize);
      assert g == GatherUnit(layout, disk, unit);
      if !g.Gathered? {
        return false;
      }
      CopyInto(cache, 0, Zeros(layout.unitSize));
      if g.packed == [] {
        return true;
      }
      GatherLength(layout.runs[FirstEndingAfter(layout.runs, start)..], disk, start, start + layout.unitSize, [], false);
      if !g.sparse {
        CopyInto(cache, 0, g.packed);
        assert Resized(g.packed, layout.unitSize) == g.packed;
        return true;
      }
      ok := DecodeLznt1(g.packed, cache, Required(layout, unit));
    }

    /** The cached bytes outlive a failure to load a unit: nothing is cached, the unit's clusters were refused before
        decoding, or the half-decoded bytes happen to be those of the cached unit. */
    ghost predicate Outlives(disk: seq<Byte>, failing: nat)
      requires failing * layout.unitSize < layout.initialized
      reads this
    {
      cachedUnit.Some? && GatherUnit(layout, disk, failing).Gathered? ==>
        && cachedUnit.value * layout.unitSize < layout.initialized
        && UnitText(layout, disk, cachedUnit.value) == Some(Spoiled(layout, disk, failing))
    }

    /** Makes a unit the cached one. A unit labelled as cached is not looked at again, whatever the cache holds. */
    method Hold(disk: seq<Byte>, unit: nat) returns (ok: bool)
      requires Valid(disk) && unit * layout.unitSize < layout.initialized
      modifies this`cachedUnit, cache
      ensures old(cachedUnit) == Some(unit) ==> ok && cachedUnit == Some(unit) && cache[..] == old(cache[..])
      ensures old(cachedUnit) != Some(unit) || old(Coherent(disk)) ==> (ok <==> UnitText(layout, disk, unit).Some?)
      ensures ok && (old(cachedUnit) != Some(unit) || old(Coherent(disk))) ==> cachedUnit == Some(unit) && Coherent(disk)
      ensures !ok ==> cachedUnit == old(cachedUnit) && (old(Coherent(disk)) ==> (Coherent(disk) <==> Outlives(disk, unit)))
      ensures !ok && GatherUnit(layout, disk, unit).Gathered? ==> cache[..] == Spoiled(layout, disk, unit)
    {
      hide UnitText;
      hide GatherUnit;
      hide Spoiled;
      hide Loaded;
      if cachedUnit == Some(unit) {
        return true;
      }
      ghost var before := cache[..];
      ok := LoadUnit(disk, unit);
      LoadedText(layout, disk, unit, before);
      UnitIsPrefix(layout, disk, unit);
      hide Covering;
      if ok {
        cachedUnit := Some(unit);
      }
    }

    /** A read that stays in one unit below the initialized length. */
    predicate InOneUnit(offset: nat, n: nat)
      requires layout.unitSize > 0
    {
      && 0 < n && offset + n <= layout.initialized && offset + n <= layout.length
      && offset - UnitOf(layout, offset) * layout.unitSize + n <= layout.unitSize
    }

    /** One round: holds the unit of a position and copies out as much of it as is wanted and initialized. */
    method ReadPart(disk: seq<Byte>, position: nat, buffer: array<Byte>, at: nat) returns (ok: bool, unit: nat, count: nat)
      requires Valid(disk) && buffer != cache && position < layout.initialized && at < buffer.Length && layout.unitSize > 0
      modifies this`cachedUnit, cache, buffer
      ensures unit == UnitOf(layout, position) && unit * layout.unitSize < layout.initialized
      ensures old(cachedUnit) == Some(unit) ==> ok && cache[..] == old(cache[..])
      ensures old(Coherent(disk)) ==> (ok <==> UnitText(layout, disk, unit).Some?)
      ensures ok ==> && 0 < count <= buffer.Length - at && position + count <= layout.initialized
                     && position - unit * layout.unitSize + count <= layout.unitSize && cachedUnit == Some(unit)
                     && (at + count == buffer.Length || position + count == layout.initialized
                         || position + count == (unit + 1) * layout.unitSize)
                     && (forall i :: 0 <= i < at ==> buffer[i] == old(buffer[i]))
                     && (forall i :: at <= i < at + count ==> buffer[i] == cache[position - unit * layout.unitSize + (i - at)])
      ensures ok && old(Coherent(disk)) ==>
                && Coherent(disk)
                && (forall p: nat :: position <= p < position + count ==> Loads(layout, disk, p))
                && (forall i: nat :: at <= i < at + count ==> buffer[i] == Plain(layout, disk, position + (i - at)))
      ensures !ok ==> cachedUnit == old(cachedUnit) && (old(Coherent(disk)) ==> (Coherent(disk) <==> Outlives(disk, unit)))
      ensures !ok && GatherUnit(layout, disk, unit).Gathered? ==> cache[..] == Spoiled(layout, disk, unit)
    {
      hide Patched;
      hide UnitText;
      hide GatherUnit;
      hide Spoiled;
      hide Outlives;
      hide Plain;
      hide Loads;
      hide Covering;
      unit, count := UnitOf(layout, position), 0;
      ghost var coherent := Coherent(disk);
      ok := Hold(disk, unit);
      if !ok {
        return;
      }
      var within := position - unit * layout.unitSize;
      assert (unit + 1) * layout.unitSize == unit * layout.unitSize + layout.unitSize;
      count := Min(buffer.Length - at, Min(layout.unitSize - within, layout.initialized - position));
      if coherent {
        forall p: nat | position <= p < position + count
          ensures Loads(layout, disk, p) && Plain(layout, disk, p) == cache[within + (p - position)]
        {
          PlainFromUnit(layout, disk, unit, p);
        }
      }
      ghost var text := cache[within..within + count];
      CopyInto(buffer, at, cache[within..within + count]);
      forall i | at <= i < at + count
        ensures buffer[i] == cache[within + (i - at)]
      {
        assert buffer[at..at + count][i - at] == text[i - at];
      }
    }

    /** Fills the buffer with the plaintext from an offset, exactly when the read lies in the file and all its units
        load. The cache stays coherent on success; after a failing unit it is coherent exactly when it outlives it. A
        read of the unit labelled as cached shows whatever the cache holds. */
    method ReadExactAt(disk: seq<Byte>, offset: U64, buffer: array<Byte>) returns (ok: bool, ghost failing: nat)
      requires Valid(disk) && buffer != cache
      modifies this`cachedUnit, cache, buffer
      ensures layout.unitSize > 0
      ensures old(Coherent(disk)) ==> (ok <==> Readable(layout, disk, offset, buffer.Length))
      ensures old(Coherent(disk)) && ok ==>
                Coherent(disk) && forall i :: 0 <= i < buffer.Length ==> buffer[i] == Plain(layout, disk, offset + i)
      ensures offset + buffer.Length > layout.length ==> !ok && cachedUnit == old(cachedUnit) && cache[..] == old(cache[..])
      ensures !ok && offset + buffer.Length <= layout.length ==>
                && failing * layout.unitSize < layout.initialized
                && (old(Coherent(disk)) ==>
                      UnitText(layout, disk, failing).None? && (Coherent(disk) <==> Outlives(disk, failing)))
                && (failing == UnitOf(layout, offset) ==> cachedUnit == old(cachedUnit))
                && (GatherUnit(layout, disk, failing).Gathered? ==> cache[..] == Spoiled(layout, disk, failing))
      ensures ok && InOneUnit(offset, buffer.Length) ==> cachedUnit == Some(UnitOf(layout, offset))
      ensures InOneUnit(offset, buffer.Length) && old(cachedUnit) == Some(UnitOf(layout, offset)) ==>
                && ok && cache[..] == old(cache[..])
                && forall i :: 0 <= i < buffer.Length ==>
                     buffer[i] == cache[offset - UnitOf(layout, offset) * layout.unitSize + i]
    {
      hide UnitText;
      hide GatherUnit;
      hide Spoiled;
      hide Outlives;
      hide Plain;
      hide Loads;
      hide UnitOf;
      hide Coherent;
      failing := 0;
      PositiveUnit(disk);
      hide Covering;
      if offset + buffer.Length > layout.length {
        return false, failing;
      }
      ghost var coherent := Coherent(disk);
      ghost var single := InOneUnit(offset, buffer.Length);
      ghost var was, tag := cache[..], cachedUnit;
      ghost var first := UnitOf(layout, offset);
      ghost var firstEnd, skip := (first + 1) * layout.unitSize, offset - first * layout.unitSize;
      var position: nat, done: nat := offset, 0;
      while done < buffer.Length
        invariant position == offset + done && done <= buffer.Length
        invariant done == 0 ==> cachedUnit == tag && cache[..] == was
        invariant coherent ==> Coherent(disk)
        invariant coherent ==> forall i :: 0 <= i < done ==> buffer[i] == Plain(layout, disk, offset + i)
        invariant coherent ==> forall p: nat :: offset <= p < position ==> Loads(layout, disk, p)
        invariant 0 < done < buffer.Length && position < layout.initialized ==> position >= firstEnd
        invariant done > 0 && single ==> done == buffer.Length && cachedUnit == Some(first)
        invariant done > 0 && single && tag == Some(first) ==>
                    cache[..] == was && forall i :: 0 <= i < done ==> buffer[i] == was[skip + i]
      {
        if position >= layout.initialized {
          TailIsZero(disk, position);
          forall i | done <= i < buffer.Length {
            buffer[i] := 0;
          }
          break;
        }
        LaterUnit(layout, first, position);
        var held, unit, count := ReadPart(disk, position, buffer, done);
        if !held {
          if coherent {
            NotReadable(disk, offset, buffer.Length, position);
          }
          return false, unit;
        }
        position, done := position + count, done + count;
      }
      return true, failing;
    }

    lemma PositiveUnit(disk: seq<Byte>)
      requires Valid(disk)
      ensures layout.unitSize > 0
    {
    }

    lemma TailIsZero(disk: seq<Byte>, position: nat)
      requires layout.unitSize > 0 && position >= layout.initialized
      ensures forall p: nat :: position <= p ==> Loads(layout, disk, p) && Plain(layout, disk, p) == 0
    {
    }

    lemma NotReadable(disk: seq<Byte>, offset: nat, n: nat, position: nat)
      requires layout.unitSize > 0 && offset <= position < offset + n && position < layout.initialized
      requires UnitText(layout, disk, UnitOf(layout, position)).None?
      ensures !Readable(layout, disk, offset, n)
    {
      assert !Loads(layout, disk, position);
    }
  }

  // ---------- A stale cache ----------

  /** Unit 0 is stored verbatim; unit 1 is one cluster of zeros, which is no LZNT1 stream, and sparse padding. */
  const STORED: Run := Run(0, 8192, Some(0))

  const CLUSTER: Run := Run(8192, 8704, Some(8192))

  const PADDING: Run := Run(8704, 16384, None)

  const STALE_MAP: RunMap := RunMap([STORED, CLUSTER, PADDING], 16384, 16384, 8192)

  function Verbatim(): seq<Byte> { seq(8192, _ => 67) }

  function StaleDisk(): (disk: seq<Byte>)
    ensures |disk| == 8704
  {
    Verbatim() + Zeros(512)
  }

  /** The header of a compressed data attribute of 32 clusters whose 16384 bytes are all initialized. */
  function StaleHeader(): (h: seq<Byte>)
    ensures |h| == 72
  {
    seq<Byte>(72, i => if i == 8 || i == 12 then 1 else if i == 24 then 31 else if i == 34 then 4
                       else if i == 32 || i == 49 || i == 57 then 64 else 0)
  }

  const STALE_RUNS: seq<DataRun> := [DataRun(8192, Some(0)), DataRun(512, Some(8192)), DataRun(7680, None)]

  function StaleAttribute(): Attribute { Attribute(0, StaleHeader(), STALE_RUNS) }

  const STALE_EXTENT: Extent := Extent(0, 16384, 16384, 16384, [STORED, CLUSTER, PADDING])

  lemma EightBytes(h: seq<Byte>, at: nat, low: Byte, high: Byte)
    requires at + 8 <= |h| && h[at] == low && h[at + 1] == high && forall i :: at + 2 <= i < at + 8 ==> h[i] == 0
    ensures Le64(h[at..at + 8]) == low + 256 * high
  {
    var b := h[at..at + 8];
    assert b[..4] == [low, high, 0, 0] && b[4..] == [0, 0, 0, 0];
  }

  lemma StaleHeaderFields()
    ensures HeaderOk(StaleHeader())
    ensures var h := StaleHeader();
            Le64(h[16..24]) == 0 && Le64(h[24..32]) == 31 && Le64(h[48..56]) == 16384 && Le64(h[56..64]) == 16384
  {
    hide Le64;
    hide FromLittleEndian;
    var h := StaleHeader();
    EightBytes(h, 16, 0, 0);
    EightBytes(h, 24, 31, 0);
    EightBytes(h, 48, 0, 64);
    EightBytes(h, 56, 0, 64);
    assert h[32..34] == [64, 0];
    LittleSixtyFour();
  }

  lemma LittleSixtyFour()
    ensures FromLittleEndian([64, 0]) == 64
  {
    var none: seq<Byte>, zero: seq<Byte>, both: seq<Byte> := [], [0], [64, 0];
    assert zero[1..] == none && both[1..] == zero;
    assert FromLittleEndian(none) == 0;
    assert FromLittleEndian(zero) == zero[0] + 256 * FromLittleEndian(none);
    assert FromLittleEndian(both) == both[0] + 256 * FromLittleEndian(zero);
  }

  lemma RunRead(run: DataRun, rest: seq<DataRun>, offset: U64, end: U64, cluster: nat, volume: U64, later: seq<Run>)
    requires cluster > 0 && RunOk(run, offset, end, cluster, volume)
    requires ExtentRuns(rest, offset + run.size, end, cluster, volume) == Some(later)
    ensures ExtentRuns([run] + rest, offset, end, cluster, volume)
         == Some([Run(offset, offset + run.size, run.physical)] + later)
  {
    assert ([run] + rest)[1..] == rest;
  }

  lemma StaleRunsRead()
    ensures ExtentRuns(STALE_RUNS, 0, 16384, 512, 8704) == Some([STORED, CLUSTER, PADDING])
  {
    hide ExtentRuns;
    NoRunsRead(16384, 512, 8704);
    RunRead(STALE_RUNS[2], [], 8704, 16384, 512, 8704, []);
    RunRead(STALE_RUNS[1], [STALE_RUNS[2]] + [], 8192, 16384, 512, 8704, [PADDING] + []);
    RunRead(STALE_RUNS[0], [STALE_RUNS[1]] + ([STALE_RUNS[2]] + []), 0, 16384, 512, 8704, [CLUSTER] + ([PADDING] + []));
    assert [STALE_RUNS[0]] + ([STALE_RUNS[1]] + ([STALE_RUNS[2]] + [])) == STALE_RUNS;
    assert [STORED] + ([CLUSTER] + ([PADDING] + [])) == [STORED, CLUSTER, PADDING];
  }

  lemma NoRunsRead(end: U64, cluster: nat, volume: U64)
    requires cluster > 0
    ensures ExtentRuns([], end, end, cluster, volume) == Some([])
  {
  }

  lemma StaleExtentRead()
    ensures ExtentOf(StaleAttribute(), 512, 8704) == Some(STALE_EXTENT)
  {
    hide StaleHeader;
    hide HeaderOk;
    hide Le64;
    hide ExtentRuns;
    StaleHeaderFields();
    StaleRunsRead();
  }

  /** The example is the map that `open` returns for this attribute. */
  lemma StaleOpens()
    ensures Opened([StaleAttribute()], 512, |StaleDisk()|) == Some(STALE_MAP)
  {
    hide StaleDisk;
    hide ExtentOf;
    StaleExtentRead();
    var start := Scan({}, [], 0);
    assert [] + [STALE_EXTENT] == [STALE_EXTENT] && [StaleAttribute()][1..] == [];
    assert AddExtents(start, [StaleAttribute()], 512, 8704) == Some(Scan({} + {0}, [STALE_EXTENT], 3));
    assert [STALE_EXTENT][..0] == [] && SortedByStart([STALE_EXTENT]) == [STALE_EXTENT];
    assert [STALE_EXTENT][1..] == [] && [] + STALE_EXTENT.runs == STALE_EXTENT.runs;
    assert Joined([STALE_EXTENT], 0, []) == Some((STALE_EXTENT.runs, 16384));
    assert CeilDiv(16384, 8192) * 8192 == 16384;
  }

  lemma StaleBytes()
    ensures DiskBytes(STORED, StaleDisk(), 0, 8192) == Some(Verbatim())
    ensures DiskBytes(CLUSTER, StaleDisk(), 8192, 8704) == Some(Zeros(512))
  {
    hide Verbatim;
    var disk := StaleDisk();
    assert |Verbatim()| == 8192 by { VerbatimLength(); }
    assert disk[0..8192] == Verbatim() && disk[8192..8704] == Zeros(512);
  }

  lemma VerbatimLength()
    ensures |Verbatim()| == 8192
  {
  }

  /** One allocated run in front. */
  lemma GatherAllocated(run: Run, later: seq<Run>, disk: seq<Byte>, position: nat, next: nat, end: nat, packed: seq<Byte>, bytes: seq<Byte>)
    requires run.physical.Some? && run.start <= position < run.end && position < end && next == Min(run.end, end)
    requires DiskBytes(run, disk, position, next) == Some(bytes)
    ensures GatherRuns([run] + later, disk, position, end, packed, false) == GatherRuns(later, disk, next, end, packed + bytes, false)
  {
    hide DiskBytes;
    assert ([run] + later)[1..] == later;
  }

  /** One sparse run that reaches the end of the unit. */
  lemma GatherSparse(run: Run, later: seq<Run>, disk: seq<Byte>, position: nat, end: nat, packed: seq<Byte>)
    requires run.physical.None? && run.start <= position < end <= run.end
    ensures GatherRuns([run] + later, disk, position, end, packed, false) == Gathered(packed, true)
  {
    hide DiskBytes;
    assert ([run] + later)[1..] == later;
  }

  lemma GatherEnds(runs: seq<Run>, disk: seq<Byte>, end: nat, packed: seq<Byte>)
    ensures GatherRuns(runs, disk, end, end, packed, false) == Gathered(packed, false)
  {
  }

  lemma StaleStarts()
    ensures FirstEndingAfter(STALE_MAP.runs, 0) == 0 && FirstEndingAfter(STALE_MAP.runs, 8192) == 1
  {
    FirstIsPartition(STALE_MAP.runs, 0, 0);
    FirstIsPartition(STALE_MAP.runs, 8192, 1);
  }

  lemma VerbatimGathers()
    ensures GatherUnit(STALE_MAP, StaleDisk(), 0) == Gathered(Verbatim(), false)
  {
    hide GatherRuns;
    hide StaleDisk;
    hide FirstEndingAfter;
    hide DiskBytes;
    hide Verbatim;
    StaleStarts();
    StaleBytes();
    var none: seq<Byte> := [];
    assert STALE_MAP.runs[0..] == [STORED] + [CLUSTER, PADDING] && none + Verbatim() == Verbatim();
    GatherAllocated(STORED, [CLUSTER, PADDING], StaleDisk(), 0, 8192, 8192, none, Verbatim());
    GatherEnds([CLUSTER, PADDING], StaleDisk(), 8192, Verbatim());
  }

  lemma PackedGathers()
    ensures GatherUnit(STALE_MAP, StaleDisk(), 1) == Gathered(Zeros(512), true)
  {
    hide GatherRuns;
    hide StaleDisk;
    hide FirstEndingAfter;
    hide DiskBytes;
    hide Zeros;
    StaleStarts();
    StaleBytes();
    var none: seq<Byte> := [];
    assert STALE_MAP.runs[1..] == [CLUSTER] + [PADDING] && [PADDING] + [] == [PADDING] && none + Zeros(512) == Zeros(512);
    GatherAllocated(CLUSTER, [PADDING], StaleDisk(), 8192, 8704, 16384, none, Zeros(512));
    GatherSparse(PADDING, [], StaleDisk(), 8704, 16384, Zeros(512));
  }

  lemma ZerosAreNoStream()
    ensures Decoded(Zeros(512), Zeros(8192), 8192) == (false, Zeros(8192))
  {
    var input := Zeros(512);
    assert input[..2] == [0, 0];
    assert FromLittleEndian([0, 0]) == 0 by { assert [0, 0][1..] == [0]; }
    assert ParseStream(input, 0, 8192, 8192) == ParsedStream([], false);
    NothingPatched(Zeros(8192), 0);
  }

  /** A load that reaches the decoder and fails leaves zeros where unit 0 holds other bytes. */
  lemma FailureSpoilsUnit()
    ensures UnitText(STALE_MAP, StaleDisk(), 0) == Some(Verbatim())
    ensures UnitText(STALE_MAP, StaleDisk(), 1).None? && GatherUnit(STALE_MAP, StaleDisk(), 1).Gathered?
    ensures Spoiled(STALE_MAP, StaleDisk(), 1) == Zeros(8192) && Verbatim()[0] == 67
  {
    VerbatimGathers();
    PackedGathers();
    ZerosAreNoStream();
    hide GatherUnit;
    hide Decoded;
    hide StaleDisk;
    assert Resized(Verbatim(), 8192) == Verbatim();
  }

  lemma StaleUnits()
    ensures UnitOf(STALE_MAP, 0) == 0 && UnitOf(STALE_MAP, 8192) == 1
    ensures Plain(STALE_MAP, StaleDisk(), 0) == 67
    ensures Readable(STALE_MAP, StaleDisk(), 0, 1) && !Readable(STALE_MAP, StaleDisk(), 8192, 1)
  {
    hide StaleDisk;
    hide UnitText;
    SameUnit(STALE_MAP, 0, 0);
    SameUnit(STALE_MAP, 1, 8192);
    FailureSpoilsUnit();
    hide UnitOf;
    hide Verbatim;
    assert Loads(STALE_MAP, StaleDisk(), 0) && !Loads(STALE_MAP, StaleDisk(), 8192);
  }

  /** Reading unit 0, failing to read unit 1, and reading unit 0 again: the last read succeeds and shows a byte that is
      not in the file. */
  method FailureLeavesStaleCache() returns (shown: Byte)
    ensures Opened([StaleAttribute()], 512, |StaleDisk()|) == Some(STALE_MAP)
    ensures shown == 0 && Plain(STALE_MAP, StaleDisk(), 0) == 67
  {
    hide StaleDisk;
    hide UnitText;
    hide Plain;
    hide Readable;
    hide GatherUnit;
    hide Spoiled;
    hide UnitOf;
    hide Covering;
    hide CompressedStream.Outlives;
    hide Opened;
    StaleOpens();
    OpenedIsCovering([StaleAttribute()], 512, |StaleDisk()|);
    StaleUnits();
    FailureSpoilsUnit();
    var disk := StaleDisk();
    var stream := new CompressedStream(STALE_MAP, |disk|);
    var one := new Byte[1];
    var first, _ := stream.ReadExactAt(disk, 0, one);
    var second, failing := stream.ReadExactAt(disk, 8192, one);
    assert failing == 1;
    var third, _ := stream.ReadExactAt(disk, 0, one);
    assert third && stream.cache[..][0] == 0;
    return one[0];
  }
}
