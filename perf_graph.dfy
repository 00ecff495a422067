/** The performance graph's sample store (PerfGraph.cpp, Functions/PerfGraph.h):
    a 50-row ring of per-core CPU loads, each row kept sorted from the busiest
    core down, two 35-slot rings for RAM and GPU load, and the once-a-second
    redraw guard. The float drawing code is not part of this model. */
module PerfGraphs {
  import opened CInt
  import opened Wrappers
  import opened Comm

  const CPU_POINTS: int := 50
  const MISC_POINTS: int := 35
  /** Entries of a CPU row; only the first 16 are filled from a message. */
  const ROW: int := 17
  const CORES: int := 16
  /** Index of the stale last entry of a CPU row. */
  const STALE: int := 16
  /** Minimum time between redraws, in milliseconds. */
  const REDRAW_MS: int := 1000

  /** Ordered from largest to smallest, the order of std::sort with `a > b`. */
  predicate Descending(s: seq<int>)
  {
    forall p, q :: 0 <= p < q < |s| ==> s[p] >= s[q]
  }

  /** The smallest entry of a descending sequence is its last one: a sorted
      permutation of non-negative values that include a 0 ends in 0. */
  lemma SortedEndsWithZero(r: seq<int>, xs: seq<int>)
    requires |r| == |xs| + 1 && Descending(r)
    requires multiset(r) == multiset(xs + [0])
    requires forall k :: 0 <= k < |xs| ==> xs[k] >= 0
    ensures r[|r| - 1] == 0
  {
    assert 0 in multiset(xs + [0]);
    var p :| 0 <= p < |r| && r[p] == 0;
    assert r[|r| - 1] <= 0;
    assert r[|r| - 1] in multiset(xs + [0]);
    assert r[|r| - 1] in xs + [0];
    var k :| 0 <= k < |xs + [0]| && (xs + [0])[k] == r[|r| - 1];
  }

  /** Exchanges a[j - 1] and a[j]. */
  method SwapDown(a: array<int>, j: int)
    requires 0 < j < a.Length
    modifies a
    ensures a[j - 1] == old(a[j]) && a[j] == old(a[j - 1])
    ensures forall q :: 0 <= q < a.Length && q != j - 1 && q != j ==> a[q] == old(a[q])
    ensures multiset(a[..]) == multiset(old(a[..]))
  {
    a[j - 1], a[j] := a[j], a[j - 1];
  }

  /** One insertion step: a[i] sinks into the sorted prefix a[..i]. */
  method InsertDescending(a: array<int>, i: int)
    requires 0 < i < a.Length && Descending(a[..i])
    modifies a
    ensures Descending(a[..i + 1])
    ensures multiset(a[..]) == multiset(old(a[..]))
    ensures forall q :: i < q < a.Length ==> a[q] == old(a[q])
  {
    var j := i;
    while j > 0 && a[j - 1] < a[j]
      invariant 0 <= j <= i
      invariant multiset(a[..]) == multiset(old(a[..]))
      invariant forall q :: i < q < a.Length ==> a[q] == old(a[q])
      invariant forall p, q :: 0 <= p < q <= i && p != j && q != j ==> a[p] >= a[q]
      invariant forall q :: j < q <= i ==> a[j] > a[q]
    {
      SwapDown(a, j);
      j := j - 1;
    }
  }

  /** std::sort with the descending comparator, on a row buffer. */
  method SortDescending(a: array<int>)
    modifies a
    ensures Descending(a[..]) && multiset(a[..]) == multiset(old(a[..]))
  {
    if a.Length == 0 {
      return;
    }
    var i := 1;
    while i < a.Length
      invariant 1 <= i <= a.Length
      invariant Descending(a[..i])
      invariant multiset(a[..]) == multiset(old(a[..]))
    {
      InsertDescending(a, i);
      assert a[..i + 1] == a[..i + 1];
      i := i + 1;
    }
    assert a[..a.Length] == a[..];
  }

  /** Row r of a CPU sample table. */
  ghost function RowOf(m: array2<int>, r: int): (s: seq<int>)
    reads m
    requires m.Length1 == ROW && 0 <= r < m.Length0
    ensures |s| == ROW
  {
    seq(ROW, j requires 0 <= j < ROW && m.Length1 == ROW && 0 <= r < m.Length0 reads m => m[r, j])
  }

  class PerfGraph {
    var cpuData: array2<int>
    var gpuData: array<int>
    var ramData: array<int>
    var cpuStart: int
    var miscStart: int
    var lastUpdate: int
    var gpuvd: int
    var gpuve: int
    var gpumem: int
    var hasCpuDisplay: bool
    var hasMiscDisplay: bool

    /** The cursors stay inside their rings, and every CPU row ends in the 0
        its never-copied 17th entry got from the constructor. */
    ghost predicate Valid()
      reads this, cpuData
    {
      cpuData.Length0 == CPU_POINTS && cpuData.Length1 == ROW &&
      gpuData.Length == MISC_POINTS && ramData.Length == MISC_POINTS &&
      gpuData != ramData &&
      0 <= cpuStart < CPU_POINTS && 0 <= miscStart < MISC_POINTS &&
      IsUInt64(lastUpdate) &&
      forall r :: 0 <= r < CPU_POINTS ==> cpuData[r, STALE] == 0
    }

    ghost function Row(r: int): (s: seq<int>)
      reads this, cpuData
      requires Valid() && 0 <= r < CPU_POINTS
      ensures |s| == ROW
    {
      RowOf(cpuData, r)
    }

    constructor (hasCpuDisplay: bool, hasMiscDisplay: bool)
      ensures Valid() && fresh(cpuData) && fresh(gpuData) && fresh(ramData)
      ensures forall r, j :: 0 <= r < CPU_POINTS && 0 <= j < ROW ==> cpuData[r, j] == 0
      ensures forall k :: 0 <= k < MISC_POINTS ==> gpuData[k] == 0 && ramData[k] == 0
      ensures cpuStart == 0 && miscStart == 0 && lastUpdate == 0
      ensures this.hasCpuDisplay == hasCpuDisplay && this.hasMiscDisplay == hasMiscDisplay
    {
      var cpu := new int[CPU_POINTS, ROW];
      var gpu := new int[MISC_POINTS];
      var ram := new int[MISC_POINTS];
      var r := 0;
      while r < CPU_POINTS
        invariant 0 <= r <= CPU_POINTS
        invariant forall p, j :: 0 <= p < r && 0 <= j < ROW ==> cpu[p, j] == 0
      {
        var j := 0;
        while j < ROW
          invariant 0 <= j <= ROW
          invariant forall p, q :: 0 <= p < r && 0 <= q < ROW ==> cpu[p, q] == 0
          invariant forall q :: 0 <= q < j ==> cpu[r, q] == 0
        {
          cpu[r, j] := 0;
          j := j + 1;
        }
        r := r + 1;
      }
      var k := 0;
      while k < MISC_POINTS
        invariant 0 <= k <= MISC_POINTS
        invariant forall p :: 0 <= p < k ==> gpu[p] == 0
        invariant forall p, q :: 0 <= p < CPU_POINTS && 0 <= q < ROW ==> cpu[p, q] == 0
      {
        gpu[k] := 0;
        k := k + 1;
      }
      k := 0;
      while k < MISC_POINTS
        invariant 0 <= k <= MISC_POINTS
        invariant forall p :: 0 <= p < k ==> ram[p] == 0
        invariant forall p :: 0 <= p < MISC_POINTS ==> gpu[p] == 0
        invariant forall p, q :: 0 <= p < CPU_POINTS && 0 <= q < ROW ==> cpu[p, q] == 0
      {
        ram[k] := 0;
        k := k + 1;
      }
      cpuData, gpuData, ramData := cpu, gpu, ram;
      cpuStart, miscStart, lastUpdate := 0, 0, 0;
      gpuvd, gpuve, gpumem := 0, 0, 0;
      this.hasCpuDisplay := hasCpuDisplay;
      this.hasMiscDisplay := hasMiscDisplay;
    }

    method SetCpuDisplay(present: bool)
      modifies this
      ensures hasCpuDisplay == present && hasMiscDisplay == old(hasMiscDisplay) && lastUpdate == old(lastUpdate)
      ensures cpuData == old(cpuData) && gpuData == old(gpuData) && ramData == old(ramData)
      ensures cpuStart == old(cpuStart) && miscStart == old(miscStart)
    {
      hasCpuDisplay := present;
    }

    method SetMiscDisplay(present: bool)
      modifies this
      ensures hasMiscDisplay == present && hasCpuDisplay == old(hasCpuDisplay) && lastUpdate == old(lastUpdate)
      ensures cpuData == old(cpuData) && gpuData == old(gpuData) && ramData == old(ramData)
      ensures cpuStart == old(cpuStart) && miscStart == old(miscStart)
    {
      hasMiscDisplay := present;
    }

    /** The memcpy of AddData: the 16 core loads, then the row's own last entry. */
    method LoadRow(row: int, msg: Message) returns (buf: array<int>)
      requires Valid() && 0 <= row < CPU_POINTS && WellFormed(msg)
      ensures fresh(buf) && buf[..] == msg.data[..CORES] + [cpuData[row, STALE]]
    {
      buf := new int[ROW];
      var j := 0;
      while j < ROW
        invariant 0 <= j <= ROW
        invariant forall q :: 0 <= q < j ==> buf[q] == if q < CORES then msg.data[q] else cpuData[row, q]
        modifies buf
      {
        buf[j] := if j < CORES then msg.data[j] else cpuData[row, j];
        j := j + 1;
      }
    }

    /** Writes a row buffer back into the ring. */
    method StoreRow(row: int, buf: array<int>)
      requires Valid() && 0 <= row < CPU_POINTS && buf.Length == ROW && buf[STALE] == 0
      modifies cpuData
      ensures Valid() && RowOf(cpuData, row) == buf[..]
      ensures forall r :: 0 <= r < CPU_POINTS && r != row ==> RowOf(cpuData, r) == old(RowOf(cpuData, r))
    {
      var j := 0;
      while j < ROW
        invariant 0 <= j <= ROW
        invariant forall q :: 0 <= q < j ==> cpuData[row, q] == buf[q]
        invariant forall r, q :: 0 <= r < CPU_POINTS && r != row && 0 <= q < ROW ==> cpuData[r, q] == old(cpuData[r, q])
        invariant forall q :: j <= q < ROW ==> cpuData[row, q] == old(cpuData[row, q])
      {
        cpuData[row, j] := buf[j];
        j := j + 1;
      }
      assert RowOf(cpuData, row) == buf[..];
      forall r | 0 <= r < CPU_POINTS && r != row
        ensures RowOf(cpuData, r) == old(RowOf(cpuData, r))
      {
        assert forall q :: 0 <= q < ROW ==> RowOf(cpuData, r)[q] == old(RowOf(cpuData, r))[q];
      }
    }

    /** RAM and GPU loads into the misc rings, GPU clocks into their fields. */
    method StoreMisc(msg: Message)
      requires Valid() && WellFormed(msg)
      modifies this, gpuData, ramData
      ensures Valid() && cpuData == old(cpuData) && gpuData == old(gpuData) && ramData == old(ramData)
      ensures ramData[..] == old(ramData[..])[miscStart := msg.data[16]]
      ensures gpuData[..] == old(gpuData[..])[miscStart := msg.data[17]]
      ensures gpuvd == msg.data[18] && gpuve == msg.data[19] && gpumem == msg.data[20]
      ensures cpuStart == old(cpuStart) && miscStart == old(miscStart) && lastUpdate == old(lastUpdate)
      ensures hasCpuDisplay == old(hasCpuDisplay) && hasMiscDisplay == old(hasMiscDisplay)
    {
      ramData[miscStart] := msg.data[16];
      gpuData[miscStart] := msg.data[17];
      gpuvd := msg.data[18];
      gpuve := msg.data[19];
      gpumem := msg.data[20];
    }

    /** Stores one Measurements message at the cursors and advances them. */
    method AddData(msg: Message)
      requires Valid() && WellFormed(msg) && msg.msgType == MEASUREMENTS
      modifies this, cpuData, gpuData, ramData
      ensures Valid()
      ensures cpuData == old(cpuData) && gpuData == old(gpuData) && ramData == old(ramData)
      // the row at the old cursor holds the 16 core loads, sorted, followed by the stale 0
      ensures Descending(RowOf(cpuData, old(cpuStart)))
      ensures multiset(RowOf(cpuData, old(cpuStart))) == multiset(msg.data[..CORES] + [0])
      ensures forall r :: 0 <= r < CPU_POINTS && r != old(cpuStart) ==> RowOf(cpuData, r) == old(RowOf(cpuData, r))
      ensures ramData[..] == old(ramData[..])[old(miscStart) := msg.data[16]]
      ensures gpuData[..] == old(gpuData[..])[old(miscStart) := msg.data[17]]
      ensures gpuvd == msg.data[18] && gpuve == msg.data[19] && gpumem == msg.data[20]
      ensures cpuStart == (old(cpuStart) + 1) % CPU_POINTS
      ensures miscStart == (old(miscStart) + 1) % MISC_POINTS
      ensures lastUpdate == old(lastUpdate) && hasCpuDisplay == old(hasCpuDisplay) && hasMiscDisplay == old(hasMiscDisplay)
    {
      var buf := LoadRow(cpuStart, msg);
      SortDescending(buf);
      SortedEndsWithZero(buf[..], msg.data[..CORES]);
      ghost var sorted := buf[..];
      StoreRow(cpuStart, buf);
      ghost var table := cpuData;
      StoreMisc(msg);
      cpuStart := (cpuStart + 1) % CPU_POINTS;
      miscStart := (miscStart + 1) % MISC_POINTS;
      assert RowOf(table, old(cpuStart)) == sorted;
    }

    /** The redraw guard of Draw: `now` is millis(). Fewer than 1000 ms since
        the last redraw (in uint64 arithmetic) draws nothing and keeps the
        timestamp; otherwise the graphs that have a display are redrawn. */
    method Draw(now: int) returns (drewCpu: bool, drewMisc: bool)
      requires Valid() && IsUInt64(now)
      modifies this
      ensures Valid() && cpuData == old(cpuData) && cpuStart == old(cpuStart) && miscStart == old(miscStart)
      ensures gpuData == old(gpuData) && ramData == old(ramData)
      ensures hasCpuDisplay == old(hasCpuDisplay) && hasMiscDisplay == old(hasMiscDisplay)
      ensures Elapsed(now, old(lastUpdate)) < REDRAW_MS ==> !drewCpu && !drewMisc && lastUpdate == old(lastUpdate)
      ensures Elapsed(now, old(lastUpdate)) >= REDRAW_MS ==>
        lastUpdate == now && drewCpu == hasCpuDisplay && drewMisc == hasMiscDisplay
    {
      if Elapsed(now, lastUpdate) < REDRAW_MS {
        return false, false;
      }
      lastUpdate := now;
      drewCpu := hasCpuDisplay;
      drewMisc := hasMiscDisplay;
    }
  }
}
