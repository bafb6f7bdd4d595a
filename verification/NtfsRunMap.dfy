/** The run map of a compressed NTFS stream (src/ntfs_compression.rs, `CompressedStream::open` and `add_extent`).
    Walking the attributes and decoding mapping pairs belong to the ntfs crate: a call starts from the unnamed data
    attributes in the order they are met. */
module NtfsRunMap {
  import opened Bytes

  const MAX_RUNS: nat := 1_000_000

  datatype Run = Run(start: U64, end: U64, physical: Option<U64>)

  datatype DataRun = DataRun(size: U64, physical: Option<U64>)

  /** A data attribute: its disk position, its header bytes and its decoded data runs. */
  datatype Attribute = Attribute(position: U64, header: seq<Byte>, dataRuns: seq<DataRun>)

  datatype Extent = Extent(start: U64, end: U64, length: U64, initialized: U64, runs: seq<Run>)

  datatype Scan = Scan(seen: set<U64>, extents: seq<Extent>, runCount: nat)

  datatype RunMap = RunMap(runs: seq<Run>, length: U64, initialized: U64, unitSize: nat)

  // ---------- add_extent ----------

  predicate HeaderOk(h: seq<Byte>) {
    && |h| >= 64 && h[8] == 1
    // Flags: the low byte names LZNT1, 0x4000 is encryption.
    && h[12] == 1 && h[13] / 0x40 % 2 == 0
    && (h[34] == 4 || (h[34] == 0 && h[16..24] != Zeros(8)))
    && 64 <= FromLittleEndian(h[32..34]) < |h|
  }

  predicate RunOk(run: DataRun, offset: nat, end: nat, cluster: nat, volume: U64)
    requires cluster > 0
  {
    && run.size != 0 && run.size % cluster == 0 && offset + run.size <= end
    && (run.physical.Some? ==> run.physical.value + run.size <= volume)
  }

  /** The runs of an extent, or None when one is malformed or they do not end at the extent's end. */
  function ExtentRuns(data: seq<DataRun>, offset: U64, end: U64, cluster: nat, volume: U64): Option<seq<Run>>
    requires cluster > 0
  {
    if data == [] then if offset == end then Some([]) else None
    else if !RunOk(data[0], offset, end, cluster, volume) then None
    else
      var later := ExtentRuns(data[1..], offset + data[0].size, end, cluster, volume);
      if later.None? then None else Some([Run(offset, offset + data[0].size, data[0].physical)] + later.value)
  }

  /** The byte offset of a virtual cluster. */
  function ByteOf(vcn: nat, cluster: nat): nat {
    MulMonotone(0, vcn, cluster);
    vcn * cluster
  }

  function ExtentOf(a: Attribute, cluster: nat, volume: U64): Option<Extent>
    requires cluster > 0
  {
    if !HeaderOk(a.header) then None
    else
      var h := a.header;
      var start, end := ByteOf(Le64(h[16..24]), cluster), ByteOf(Le64(h[24..32]) as int + 1, cluster);
      if start > U64_MAX || end > U64_MAX then None
      else
        var runs := ExtentRuns(a.dataRuns, start, end, cluster, volume);
        if runs.None? then None else Some(Extent(start, end, Le64(h[48..56]), Le64(h[56..64]), runs.value))
  }

  function AddExtent(scan: Scan, a: Attribute, cluster: nat, volume: U64): Option<Scan>
    requires cluster > 0
  {
    if a.position in scan.seen then Some(scan)
    else if |scan.extents| >= MAX_RUNS || scan.runCount + |a.dataRuns| > MAX_RUNS then None
    else
      var extent := ExtentOf(a, cluster, volume);
      if extent.None? then None
      else Some(Scan(scan.seen + {a.position}, scan.extents + [extent.value], scan.runCount + |a.dataRuns|))
  }

  function AddExtents(scan: Scan, attributes: seq<Attribute>, cluster: nat, volume: U64): Option<Scan>
    requires cluster > 0
    decreases |attributes|
  {
    if attributes == [] then Some(scan)
    else
      var next := AddExtent(scan, attributes[0], cluster, volume);
      if next.None? then None else AddExtents(next.value, attributes[1..], cluster, volume)
  }

  // ---------- open ----------

  function Inserted(sorted: seq<Extent>, e: Extent): seq<Extent> {
    if sorted == [] || e.start < sorted[0].start then [e] + sorted else [sorted[0]] + Inserted(sorted[1..], e)
  }

  /** The library's stable sort by start. */
  function SortedByStart(extents: seq<Extent>): seq<Extent>
    decreases |extents|
  {
    if extents == [] then []
    else Inserted(SortedByStart(extents[..|extents| - 1]), extents[|extents| - 1])
  }

  /** The runs of extents that follow each other without a gap from `end` on, and where they end. */
  function Joined(extents: seq<Extent>, end: U64, runs: seq<Run>): Option<(seq<Run>, U64)> {
    if extents == [] then Some((runs, end))
    else if extents[0].start != end || |runs| + |extents[0].runs| > MAX_RUNS then None
    else Joined(extents[1..], extents[0].end, runs + extents[0].runs)
  }

  function CeilDiv(n: nat, unit: nat): nat
    requires unit > 0
  {
    (n + unit - 1) / unit
  }

  function Opened(attributes: seq<Attribute>, cluster: nat, volume: U64): Option<RunMap> {
    if cluster !in {512, 1024, 2048, 4096} then None
    else
      var scan := AddExtents(Scan({}, [], 0), attributes, cluster, volume);
      if scan.None? || scan.value.extents == [] then None
      else
        var extents := SortedByStart(scan.value.extents);
        SortKeeps(scan.value.extents);
        var first := extents[0];
        if first.start != 0 || first.initialized > first.length then None
        else
          var joined := Joined(extents, 0, []);
          var required := CeilDiv(first.initialized, 16 * cluster) * (16 * cluster);
          if joined.None? || required > U64_MAX || joined.value.1 < required then None
          else Some(RunMap(joined.value.0, first.length, first.initialized, 16 * cluster))
  }

  // ---------- What a successful open guarantees ----------

  /** Non-empty runs, each starting where the previous one ends. */
  predicate Chain(runs: seq<Run>, lo: nat, hi: nat) {
    if runs == [] then lo == hi else runs[0].start == lo && lo < runs[0].end && Chain(runs[1..], runs[0].end, hi)
  }

  predicate InVolume(run: Run, volume: U64) {
    run.physical.Some? ==> run.start <= run.end && run.physical.value + (run.end - run.start) <= volume
  }

  predicate AllInVolume(runs: seq<Run>, volume: U64) { forall run :: run in runs ==> InVolume(run, volume) }

  /** The run map is one chain from zero that covers every unit holding initialized bytes. */
  ghost predicate Covering(m: RunMap, volume: U64) {
    && m.unitSize in {8192, 16384, 32768, 65536} && m.initialized <= m.length && AllInVolume(m.runs, volume)
    && exists end: U64 :: Chain(m.runs, 0, end) && CeilDiv(m.initialized, m.unitSize) * m.unitSize <= end
  }

  /** An extent's runs are one chain from its start to its end. */
  predicate ExtentOk(e: Extent, volume: U64) { Chain(e.runs, e.start, e.end) && AllInVolume(e.runs, volume) }

  lemma {:induction false} ExtentRunsChain(data: seq<DataRun>, offset: U64, end: U64, cluster: nat, volume: U64)
    requires cluster > 0 && ExtentRuns(data, offset, end, cluster, volume).Some?
    ensures var runs := ExtentRuns(data, offset, end, cluster, volume).value;
            Chain(runs, offset, end) && AllInVolume(runs, volume)
  {
    if data != [] {
      var next := offset + data[0].size;
      ExtentRunsChain(data[1..], next, end, cluster, volume);
      var later := ExtentRuns(data[1..], next, end, cluster, volume).value;
      var run := Run(offset, next, data[0].physical);
      assert ([run] + later)[1..] == later;
      assert InVolume(run, volume);
    }
  }

  lemma ExtentOfOk(a: Attribute, cluster: nat, volume: U64)
    requires cluster > 0 && ExtentOf(a, cluster, volume).Some?
    ensures ExtentOk(ExtentOf(a, cluster, volume).value, volume)
  {
    hide ExtentRuns;
    hide AllInVolume;
    hide Chain;
    hide Le64;
    var e := ExtentOf(a, cluster, volume).value;
    ExtentRunsChain(a.dataRuns, e.start, e.end, cluster, volume);
  }

  predicate AllExtentsOk(extents: seq<Extent>, volume: U64) { forall e :: e in extents ==> ExtentOk(e, volume) }

  lemma {:induction false} AddExtentsOk(scan: Scan, attributes: seq<Attribute>, cluster: nat, volume: U64)
    requires cluster > 0 && AllExtentsOk(scan.extents, volume) && AddExtents(scan, attributes, cluster, volume).Some?
    ensures AllExtentsOk(AddExtents(scan, attributes, cluster, volume).value.extents, volume)
    decreases |attributes|
  {
    hide ExtentOf;
    hide ExtentOk;
    if attributes != [] {
      var a := attributes[0];
      if a.position !in scan.seen {
        ExtentOfOk(a, cluster, volume);
      }
      AddExtentsOk(AddExtent(scan, a, cluster, volume).value, attributes[1..], cluster, volume);
    }
  }

  lemma {:induction false} InsertKeeps(sorted: seq<Extent>, e: Extent)
    ensures multiset(Inserted(sorted, e)) == multiset(sorted) + multiset{e}
  {
    if sorted != [] && e.start >= sorted[0].start {
      InsertKeeps(sorted[1..], e);
      assert sorted == [sorted[0]] + sorted[1..];
    }
  }

  lemma {:induction false} SortKeeps(extents: seq<Extent>)
    ensures multiset(SortedByStart(extents)) == multiset(extents)
    ensures |SortedByStart(extents)| == |extents|
    decreases |extents|
  {
    if extents != [] {
      var n := |extents| - 1;
      SortKeeps(extents[..n]);
      InsertKeeps(SortedByStart(extents[..n]), extents[n]);
      assert extents == extents[..n] + [extents[n]];
    }
    assert |multiset(SortedByStart(extents))| == |multiset(extents)|;
  }

  lemma {:induction false} ChainAppend(a: seq<Run>, b: seq<Run>, lo: nat, mid: nat, hi: nat)
    requires Chain(a, lo, mid) && Chain(b, mid, hi)
    ensures Chain(a + b, lo, hi)
  {
    if a == [] {
      assert a + b == b;
    } else {
      ChainAppend(a[1..], b, a[0].end, mid, hi);
      assert (a + b)[1..] == a[1..] + b;
    }
  }

  lemma {:induction false} JoinedChain(extents: seq<Extent>, end: U64, runs: seq<Run>, volume: U64)
    requires AllExtentsOk(extents, volume) && Chain(runs, 0, end) && AllInVolume(runs, volume)
    requires Joined(extents, end, runs).Some?
    ensures var (joined, hi) := Joined(extents, end, runs).value;
            Chain(joined, 0, hi) && AllInVolume(joined, volume)
  {
    hide InVolume;
    if extents != [] {
      var e := extents[0];
      assert ExtentOk(e, volume);
      ChainAppend(runs, e.runs, 0, end, e.end);
      JoinedChain(extents[1..], e.end, runs + e.runs, volume);
    }
  }

  /** A stream that opens has a run map without a gap, inside the volume, that covers every unit holding
      initialized bytes. */
  lemma OpenedIsCovering(attributes: seq<Attribute>, cluster: nat, volume: U64)
    requires Opened(attributes, cluster, volume).Some?
    ensures Covering(Opened(attributes, cluster, volume).value, volume)
  {
    hide AddExtents;
    hide SortedByStart;
    hide CeilDiv;
    hide Joined;
    hide Chain;
    hide AllInVolume;
    AddExtentsOk(Scan({}, [], 0), attributes, cluster, volume);
    var extents := AddExtents(Scan({}, [], 0), attributes, cluster, volume).value.extents;
    SortKeeps(extents);
    var sorted := SortedByStart(extents);
    assert AllExtentsOk(sorted, volume) by {
      hide ExtentOk;
      forall e | e in sorted
        ensures ExtentOk(e, volume)
      {
        assert e in multiset(sorted);
        assert e in extents;
      }
    }
    EmptyChain(volume);
    JoinedChain(sorted, 0, [], volume);
  }

  lemma EmptyChain(volume: U64)
    ensures Chain([], 0, 0) && AllInVolume([], volume)
  {
  }

  // ---------- The loops ----------

  method ReadExtent(a: Attribute, cluster: nat, volume: U64) returns (extent: Option<Extent>)
    requires cluster > 0
    ensures extent == ExtentOf(a, cluster, volume)
  {
    hide HeaderOk;
    hide RunOk;
    hide Le64;
    if !HeaderOk(a.header) {
      return None;
    }
    HeaderLength(a.header);
    var h := a.header;
    var start, end := ByteOf(Le64(h[16..24]), cluster), ByteOf(Le64(h[24..32]) as int + 1, cluster);
    if start > U64_MAX || end > U64_MAX {
      return None;
    }
    var runs, offset := [], start;
    var i := 0;
    assert a.dataRuns[0..] == a.dataRuns;
    PrefixedNothing(ExtentRuns(a.dataRuns, start, end, cluster, volume));
    while i < |a.dataRuns|
      invariant i <= |a.dataRuns| && 0 <= offset <= U64_MAX
      invariant ExtentRuns(a.dataRuns, start, end, cluster, volume)
             == Prefixed(runs, ExtentRuns(a.dataRuns[i..], offset, end, cluster, volume))
    {
      var run := a.dataRuns[i];
      assert a.dataRuns[i..][1..] == a.dataRuns[i + 1..];
      if !RunOk(run, offset, end, cluster, volume) {
        return None;
      }
      RunFits(run, offset, end, cluster, volume);
      PrefixedTwice(runs, Run(offset, offset + run.size, run.physical),
                    ExtentRuns(a.dataRuns[i + 1..], offset + run.size, end, cluster, volume));
      runs := runs + [Run(offset, offset + run.size, run.physical)];
      offset, i := offset + run.size, i + 1;
    }
    if offset != end {
      return None;
    }
    assert runs + [] == runs;
    return Some(Extent(start, end, Le64(h[48..56]), Le64(h[56..64]), runs));
  }

  lemma HeaderLength(h: seq<Byte>)
    requires HeaderOk(h)
    ensures |h| >= 64
  {
  }

  lemma RunFits(run: DataRun, offset: nat, end: nat, cluster: nat, volume: U64)
    requires cluster > 0 && RunOk(run, offset, end, cluster, volume)
    ensures offset + run.size <= end
  {
  }

  function Prefixed(front: seq<Run>, later: Option<seq<Run>>): Option<seq<Run>> {
    if later.None? then None else Some(front + later.value)
  }

  lemma PrefixedNothing(later: Option<seq<Run>>)
    ensures Prefixed([], later) == later
  {
    if later.Some? {
      assert [] + later.value == later.value;
    }
  }

  lemma PrefixedTwice(front: seq<Run>, run: Run, later: Option<seq<Run>>)
    ensures Prefixed(front, Prefixed([run], later)) == Prefixed(front + [run], later)
  {
    if later.Some? {
      assert front + ([run] + later.value) == front + [run] + later.value;
    }
  }

  method Open(attributes: seq<Attribute>, cluster: nat, volume: U64) returns (m: Option<RunMap>)
    ensures m == Opened(attributes, cluster, volume)
  {
    hide ExtentOf;
    hide SortedByStart;
    hide CeilDiv;
    if cluster !in {512, 1024, 2048, 4096} {
      return None;
    }
    var scan := Scan({}, [], 0);
    var i := 0;
    assert attributes[0..] == attributes;
    while i < |attributes|
      invariant i <= |attributes|
      invariant AddExtents(Scan({}, [], 0), attributes, cluster, volume) == AddExtents(scan, attributes[i..], cluster, volume)
    {
      var a := attributes[i];
      assert attributes[i..][0] == a && attributes[i..][1..] == attributes[i + 1..];
      if a.position !in scan.seen {
        if |scan.extents| >= MAX_RUNS || scan.runCount + |a.dataRuns| > MAX_RUNS {
          return None;
        }
        var extent := ReadExtent(a, cluster, volume);
        if extent.None? {
          return None;
        }
        scan := Scan(scan.seen + {a.position}, scan.extents + [extent.value], scan.runCount + |a.dataRuns|);
      }
      i := i + 1;
    }
    var extents := SortedByStart(scan.extents);
    SortKeeps(scan.extents);
    if extents == [] {
      return None;
    }
    var first := extents[0];
    if first.start != 0 || first.initialized > first.length {
      return None;
    }
    var joined := JoinExtents(extents);
    if joined.None? {
      return None;
    }
    var required := CeilDiv(first.initialized, 16 * cluster) * (16 * cluster);
    if required > U64_MAX || joined.value.1 < required {
      return None;
    }
    return Some(RunMap(joined.value.0, first.length, first.initialized, 16 * cluster));
  }

  method JoinExtents(extents: seq<Extent>) returns (joined: Option<(seq<Run>, U64)>)
    ensures joined == Joined(extents, 0, [])
  {
    var runs, end: U64 := [], 0;
    var i := 0;
    assert extents[0..] == extents;
    while i < |extents|
      invariant i <= |extents| && Joined(extents, 0, []) == Joined(extents[i..], end, runs)
    {
      var extent := extents[i];
      assert extents[i..][1..] == extents[i + 1..];
      if extent.start != end || |runs| + |extent.runs| > MAX_RUNS {
        return None;
      }
      runs, end, i := runs + extent.runs, extent.end, i + 1;
    }
    return Some((runs, end));
  }
}
