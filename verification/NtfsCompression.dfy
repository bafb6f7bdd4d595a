/** Positioned reads of a compressed NTFS stream through its one-unit cache (src/ntfs_compression.rs,
    `read_exact_at` and `load_unit`). The disk is a byte sequence. */
module NtfsCompression {
  import opened Bytes
  import opened Lznt1Stream
  import opened Lznt1Decoder
  import opened NtfsRunMap

  // ---------- Specification ----------

  /** The index of the first run that ends after a position. */
  function FirstEndingAfter(runs: seq<Run>, position: nat): (i: nat)
    ensures i <= |runs|
  {
    if runs == [] || runs[0].end > position then 0 else 1 + FirstEndingAfter(runs[1..], position)
  }

  datatype Gather = Gathered(packed: seq<Byte>, sparse: bool) | Missing | Truncated | AllocatedAfterSparse | ReadFailed

  /** The allocated bytes of a unit from a position to its end, collected run by run. */
  function GatherRuns(runs: seq<Run>, disk: seq<Byte>, position: nat, end: nat, packed: seq<Byte>, sparse: bool): Gather
    requires position <= end
  {
    if position == end then Gathered(packed, sparse)
    else if runs == [] then Truncated
    else if !(runs[0].start <= position < runs[0].end) then Missing
    else
      var next := Min(runs[0].end, end);
      if runs[0].physical.None? then GatherRuns(runs[1..], disk, next, end, packed, true)
      else if sparse then AllocatedAfterSparse
      else
        var bytes := DiskBytes(runs[0], disk, position, next);
        if bytes.None? then ReadFailed else GatherRuns(runs[1..], disk, next, end, packed + bytes.value, false)
  }

  /** The bytes an allocated run stores for stream positions [position, next). */
  function DiskBytes(run: Run, disk: seq<Byte>, position: nat, next: nat): Option<seq<Byte>>
    requires run.physical.Some? && run.start <= position <= next
  {
    var at := run.physical.value + (position - run.start);
    if at > U64_MAX then None else Slice(disk, at, next - position)
  }

  function GatherUnit(m: RunMap, disk: seq<Byte>, unit: nat): Gather {
    var start := unit * m.unitSize;
    GatherRuns(m.runs[FirstEndingAfter(m.runs, start)..], disk, start, start + m.unitSize, [], false)
  }

  /** How much of a unit must come out of the decoder. */
  function Required(m: RunMap, unit: nat): nat
    requires unit * m.unitSize < m.initialized
  {
    Min(m.initialized - unit * m.unitSize, m.unitSize)
  }

  /** Whether `load_unit` succeeds and what it leaves in the cache. */
  function Loaded(m: RunMap, disk: seq<Byte>, unit: nat, cache: seq<Byte>): (r: (bool, seq<Byte>))
    requires unit * m.unitSize < m.initialized && |cache| == m.unitSize
    ensures |r.1| == m.unitSize
  {
    if (unit + 1) * m.unitSize > U64_MAX then (false, cache)
    else
      match GatherUnit(m, disk, unit)
      case Gathered(packed, sparse) =>
        if packed == [] then (true, Zeros(m.unitSize))
        else if !sparse then (true, Resized(packed, m.unitSize))
        else Decoded(packed, Zeros(m.unitSize), Required(m, unit))
      case _ => (false, cache)
  }

  /** A unit's plaintext: zeros, the stored bytes, or their LZNT1 decoding. */
  function UnitText(m: RunMap, disk: seq<Byte>, unit: nat): (text: Option<seq<Byte>>)
    requires unit * m.unitSize < m.initialized
    ensures text.Some? ==> |text.value| == m.unitSize
  {
    var loaded := Loaded(m, disk, unit, Zeros(m.unitSize));
    if loaded.0 then Some(loaded.1) else None
  }

  /** The cache after a failed decoding. */
  function Spoiled(m: RunMap, disk: seq<Byte>, unit: nat): seq<Byte>
    requires unit * m.unitSize < m.initialized && GatherUnit(m, disk, unit).Gathered?
  {
    Decoded(GatherUnit(m, disk, unit).packed, Zeros(m.unitSize), Required(m, unit)).1
  }

  function UnitOf(m: RunMap, p: nat): (unit: nat)
    requires m.unitSize > 0
    ensures unit * m.unitSize <= p < (unit + 1) * m.unitSize
  {
    BlockIndex(p, m.unitSize)
  }

  /** The byte of the stream at a position, given that its unit can be loaded. */
  function Plain(m: RunMap, disk: seq<Byte>, p: nat): Byte
    requires m.unitSize > 0
  {
    if p >= m.initialized then 0
    else
      var text := UnitText(m, disk, UnitOf(m, p));
      if text.None? then 0 else text.value[p - UnitOf(m, p) * m.unitSize]
  }

  predicate Loads(m: RunMap, disk: seq<Byte>, p: nat)
    requires m.unitSize > 0
  {
    p < m.initialized ==> UnitText(m, disk, UnitOf(m, p)).Some?
  }

  /** The read lies in the file and every unit it needs can be loaded. */
  predicate Readable(m: RunMap, disk: seq<Byte>, offset: nat, n: nat)
    requires m.unitSize > 0
  {
    offset + n <= m.length && forall p: nat :: offset <= p < offset + n ==> Loads(m, disk, p)
  }

  // ---------- A unit is an allocated prefix ----------

  predicate Allocated(runs: seq<Run>, p: nat) {
    runs != [] && if p < runs[0].end then runs[0].physical.Some? else Allocated(runs[1..], p)
  }

  /** The disk byte behind a stream position. */
  function Stored(runs: seq<Run>, disk: seq<Byte>, p: nat): Byte {
    if runs == [] then 0
    else if p < runs[0].end then
      if runs[0].physical.None? || p < runs[0].start then 0 else At(disk, runs[0].physical.value + (p - runs[0].start))
    else Stored(runs[1..], disk, p)
  }

  predicate PrefixAllocated(runs: seq<Run>, lo: nat, hi: nat, k: nat) {
    && lo + k <= hi
    && (forall p: nat :: lo <= p < lo + k ==> Allocated(runs, p))
    && (forall p: nat :: lo + k <= p < hi ==> !Allocated(runs, p))
  }

  /** Some position is sparse and a later one is allocated. */
  predicate HoleFirst(runs: seq<Run>, lo: nat, hi: nat) {
    exists p: nat, q: nat :: lo <= p < q < hi && !Allocated(runs, p) && Allocated(runs, q)
  }

  predicate SomeAllocated(runs: seq<Run>, lo: nat, hi: nat) { exists q: nat :: lo <= q < hi && Allocated(runs, q) }

  /** What collecting a unit means, byte by byte. */
  predicate Explains(runs: seq<Run>, disk: seq<Byte>, lo: nat, hi: nat, packed: seq<Byte>, sparse: bool, g: Gather) {
    match g
    case Gathered(all, padded) =>
      && |packed| <= |all| && all[..|packed|] == packed
      && PrefixAllocated(runs, lo, hi, |all| - |packed|) && (sparse ==> |all| == |packed|)
      && padded == (sparse || |all| - |packed| < hi - lo)
      && forall i: nat :: |packed| <= i < |all| ==> all[i] == Stored(runs, disk, lo + (i - |packed|))
    case AllocatedAfterSparse => if sparse then SomeAllocated(runs, lo, hi) else HoleFirst(runs, lo, hi)
    case _ => false
  }

  /** Past the first run, positions belong to the later runs. */
  lemma LaterRuns(runs: seq<Run>, disk: seq<Byte>, p: nat)
    requires runs != [] && runs[0].end <= p
    ensures Allocated(runs, p) == Allocated(runs[1..], p) && Stored(runs, disk, p) == Stored(runs[1..], disk, p)
  {
  }

  lemma ReadsInVolume(run: Run, disk: seq<Byte>, position: nat, next: nat)
    requires |disk| <= U64_MAX && run.physical.Some? && run.start <= position <= next <= run.end && InVolume(run, |disk|)
    ensures DiskBytes(run, disk, position, next).Some? && |DiskBytes(run, disk, position, next).value| == next - position
    ensures forall i: nat :: i < next - position ==>
              DiskBytes(run, disk, position, next).value[i] == At(disk, run.physical.value + (position + i - run.start))
  {
  }

  /** A sparse run in front. */
  lemma SparseExplains(runs: seq<Run>, disk: seq<Byte>, lo: nat, next: nat, hi: nat, packed: seq<Byte>, sparse: bool, g: Gather)
    requires runs != [] && runs[0].physical.None? && lo < next <= hi && next == Min(runs[0].end, hi)
    requires Explains(runs[1..], disk, next, hi, packed, true, g)
    ensures Explains(runs, disk, lo, hi, packed, sparse, g)
  {
    hide Stored;
    forall p: nat | next <= p < hi
      ensures Allocated(runs, p) == Allocated(runs[1..], p)
    {
      LaterRuns(runs, disk, p);
    }
    assert forall p: nat :: lo <= p < next ==> !Allocated(runs, p);
    if g.AllocatedAfterSparse? {
      var q: nat :| next <= q < hi && Allocated(runs[1..], q);
      assert Allocated(runs, q) && !Allocated(runs, lo);
    }
  }

  /** An allocated run in front of runs that are fully explained. */
  lemma AllocatedExplains(runs: seq<Run>, disk: seq<Byte>, lo: nat, next: nat, hi: nat, packed: seq<Byte>, bytes: seq<Byte>, g: Gather)
    requires runs != [] && runs[0].physical.Some? && runs[0].start <= lo < next <= hi && next == Min(runs[0].end, hi)
    requires |bytes| == next - lo
    requires forall i: nat :: i < next - lo ==> bytes[i] == At(disk, runs[0].physical.value + (lo + i - runs[0].start))
    requires Explains(runs[1..], disk, next, hi, packed + bytes, false, g)
    ensures Explains(runs, disk, lo, hi, packed, false, g)
  {
    forall p: nat | next <= p < hi
      ensures Allocated(runs, p) == Allocated(runs[1..], p) && Stored(runs, disk, p) == Stored(runs[1..], disk, p)
    {
      LaterRuns(runs, disk, p);
    }
    assert forall p: nat :: lo <= p < next ==> Allocated(runs, p);
    match g {
      case Gathered(all, padded) =>
        assert all[..|packed|] == (packed + bytes)[..|packed|];
        forall i: nat | |packed| <= i < |all|
          ensures all[i] == Stored(runs, disk, lo + (i - |packed|))
        {
          if i < |packed| + |bytes| {
            assert all[i] == all[..|packed + bytes|][i] == bytes[i - |packed|];
          }
        }
      case AllocatedAfterSparse =>
        var p: nat, q: nat :| next <= p < q < hi && !Allocated(runs[1..], p) && Allocated(runs[1..], q);
        assert !Allocated(runs, p) && Allocated(runs, q);
      case _ =>
    }
  }

  lemma {:induction false} GatherExplained(runs: seq<Run>, disk: seq<Byte>, lo: nat, hi: nat, packed: seq<Byte>, sparse: bool, first: nat, last: nat)
    requires Chain(runs, first, last) && first <= lo <= hi <= last && (runs != [] ==> lo < runs[0].end || lo == hi)
    requires |disk| <= U64_MAX && AllInVolume(runs, |disk|)
    ensures Explains(runs, disk, lo, hi, packed, sparse, GatherRuns(runs, disk, lo, hi, packed, sparse))
    decreases |runs|, 1
  {
    hide Explains;
    hide DiskBytes;
    hide InVolume;
    if lo == hi {
      AtEndExplained(runs, disk, lo, packed, sparse);
    } else {
      var run := runs[0];
      var next := Min(run.end, hi);
      if run.physical.None? {
        LaterExplained(runs, disk, next, hi, packed, true, last);
        SparseExplains(runs, disk, lo, next, hi, packed, sparse, GatherRuns(runs[1..], disk, next, hi, packed, true));
      } else if sparse {
        HoleExplained(runs, disk, lo, hi, packed);
      } else {
        ReadsInVolume(run, disk, lo, next);
        var bytes := DiskBytes(run, disk, lo, next).value;
        LaterExplained(runs, disk, next, hi, packed + bytes, false, last);
        AllocatedExplains(runs, disk, lo, next, hi, packed, bytes, GatherRuns(runs[1..], disk, next, hi, packed + bytes, false));
      }
    }
  }

  /** The runs behind the first one, which the unit may end inside. */
  lemma {:induction false} LaterExplained(runs: seq<Run>, disk: seq<Byte>, next: nat, hi: nat, packed: seq<Byte>, sparse: bool, last: nat)
    requires |disk| <= U64_MAX && AllInVolume(runs, |disk|) && runs != [] && Chain(runs[1..], runs[0].end, last)
    requires next == Min(runs[0].end, hi) && hi <= last
    ensures Explains(runs[1..], disk, next, hi, packed, sparse, GatherRuns(runs[1..], disk, next, hi, packed, sparse))
    decreases |runs|, 0
  {
    hide Explains;
    hide InVolume;
    ChainPositive(runs[1..], runs[0].end, last);
    if next == hi {
      AtEndExplained(runs[1..], disk, hi, packed, sparse);
    } else {
      GatherExplained(runs[1..], disk, next, hi, packed, sparse, runs[0].end, last);
    }
  }

  lemma AtEndExplained(runs: seq<Run>, disk: seq<Byte>, lo: nat, packed: seq<Byte>, sparse: bool)
    ensures Explains(runs, disk, lo, lo, packed, sparse, Gathered(packed, sparse))
  {
  }

  lemma HoleExplained(runs: seq<Run>, disk: seq<Byte>, lo: nat, hi: nat, packed: seq<Byte>)
    requires runs != [] && runs[0].physical.Some? && lo < runs[0].end && lo < hi
    ensures Explains(runs, disk, lo, hi, packed, true, AllocatedAfterSparse)
  {
    assert Allocated(runs, lo);
  }

  lemma ChainPositive(runs: seq<Run>, lo: nat, hi: nat)
    requires Chain(runs, lo, hi)
    ensures runs != [] ==> lo < runs[0].end
    ensures runs == [] ==> lo == hi
  {
  }

  lemma {:induction false} DropsToChain(runs: seq<Run>, disk: seq<Byte>, lo: nat, hi: nat, position: nat)
    requires Chain(runs, lo, hi) && lo <= position < hi
    ensures var i := FirstEndingAfter(runs, position);
            i < |runs| && runs[i].start <= position < runs[i].end && Chain(runs[i..], runs[i].start, hi)
    ensures var i := FirstEndingAfter(runs, position);
            forall p: nat :: position <= p ==> Allocated(runs, p) == Allocated(runs[i..], p)
                                               && Stored(runs, disk, p) == Stored(runs[i..], disk, p)
    decreases |runs|
  {
    if runs[0].end > position {
      assert runs[0..] == runs;
    } else {
      DropsToChain(runs[1..], disk, runs[0].end, hi, position);
      var i := FirstEndingAfter(runs[1..], position);
      assert runs[1..][i..] == runs[i + 1..] && runs[1..][i] == runs[i + 1];
    }
  }

  /** In an opened stream no unit with initialized bytes can miss a run: its clusters are an allocated prefix, whose
      bytes are collected in order, or an allocated cluster follows a sparse one and the unit is refused. */
  lemma UnitIsPrefix(m: RunMap, disk: seq<Byte>, unit: nat)
    requires |disk| <= U64_MAX && Covering(m, |disk|) && unit * m.unitSize < m.initialized
    ensures var start := unit * m.unitSize;
            (unit + 1) * m.unitSize <= U64_MAX
            && Explains(m.runs, disk, start, start + m.unitSize, [], false, GatherUnit(m, disk, unit))
  {
    hide Explains;
    hide GatherRuns;
    hide InVolume;
    var end: U64 :| Chain(m.runs, 0, end) && CeilDiv(m.initialized, m.unitSize) * m.unitSize <= end;
    var start := unit * m.unitSize;
    UnitsFit(unit, m.unitSize, m.initialized);
    var i := FirstEndingAfter(m.runs, start);
    DropsToChain(m.runs, disk, 0, end, start);
    GatherExplained(m.runs[i..], disk, start, start + m.unitSize, [], false, m.runs[i].start, end);
    ExplainsSuffix(m.runs, m.runs[i..], disk, start, start + m.unitSize, GatherUnit(m, disk, unit));
  }

  lemma ExplainsSuffix(runs: seq<Run>, suffix: seq<Run>, disk: seq<Byte>, lo: nat, hi: nat, g: Gather)
    requires Explains(suffix, disk, lo, hi, [], false, g)
    requires forall p: nat :: lo <= p ==> Allocated(runs, p) == Allocated(suffix, p) && Stored(runs, disk, p) == Stored(suffix, disk, p)
    ensures Explains(runs, disk, lo, hi, [], false, g)
  {
  }

  lemma UnitsFit(unit: nat, size: nat, initialized: nat)
    requires size > 0 && unit * size < initialized
    ensures (unit + 1) * size <= CeilDiv(initialized, size) * size
  {
    var n := CeilDiv(initialized, size);
    DivideBounds(initialized + size - 1, size);
    assert (n + 1) * size == n * size + size;
    if n < unit + 1 {
      MulMonotone(n, unit, size);
    }
    MulMonotone(unit + 1, n, size);
  }
}
