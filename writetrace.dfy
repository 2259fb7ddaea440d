/** The committed-write trace (`log_mem_write_groups`): a 16-lane write is
    reported as one record per maximal run of contiguous enabled lanes, each
    record giving the run's address, its length and its bytes from the most
    significant (highest lane) down to the least. The text formatting of the
    record is not modelled; a record holds the numbers the line prints. */
module WriteTrace {
  import opened Words

  const LaneCount: nat := 16

  /** Lanes `start .. start+len-1`. */
  datatype Run = Run(start: nat, len: nat)

  /** One line of the memory-write trace: `<time> PC 0 : MEM[<addr>] <= <len> bytes : 0x<data>`. */
  datatype MemWriteLine = MemWriteLine(time: nat, addr: U32, len: nat, data: seq<Byte>)

  /** The 16 write-enable bits of a mask, lane 0 first. */
  function MaskLanes(mask: U16): (lanes: seq<bool>)
    ensures |lanes| == LaneCount
    ensures forall i :: 0 <= i < LaneCount ==> lanes[i] == Lane(mask, i)
  {
    seq(LaneCount, i requires 0 <= i < LaneCount => Lane(mask, i))
  }

  /** The first lane at or after `i` that is disabled, or 16. */
  function RunEnd(lanes: seq<bool>, i: nat): (e: nat)
    requires |lanes| == LaneCount && i <= LaneCount
    ensures i <= e <= LaneCount
    ensures forall j :: i <= j < e ==> lanes[j]
    ensures e < LaneCount ==> !lanes[e]
    decreases LaneCount - i
  {
    if i < LaneCount && lanes[i] then RunEnd(lanes, i + 1) else i
  }

  /** The runs the scan finds from lane `i` on: skip disabled lanes, take
      the enabled lanes that follow as one run, repeat. */
  function RunsFrom(lanes: seq<bool>, i: nat): seq<Run>
    requires |lanes| == LaneCount && i <= LaneCount
    decreases LaneCount - i
  {
    if i == LaneCount then []
    else if !lanes[i] then RunsFrom(lanes, i + 1)
    else [Run(i, RunEnd(lanes, i) - i)] + RunsFrom(lanes, RunEnd(lanes, i))
  }

  /** The runs of a write-enable mask. */
  function Runs(mask: U16): seq<Run>
  {
    RunsFrom(MaskLanes(mask), 0)
  }

  predicate InRun(r: Run, j: int)
  {
    r.start <= j < r.start + r.len
  }

  ghost predicate Covered(R: seq<Run>, j: int)
  {
    exists k :: 0 <= k < |R| && InRun(R[k], j)
  }

  /** Every run is non-empty and lies between lane `i` and lane 16. */
  ghost predicate RunsWithin(R: seq<Run>, i: nat)
  {
    forall k :: 0 <= k < |R| ==> i <= R[k].start && 0 < R[k].len && R[k].start + R[k].len <= LaneCount
  }

  /** Runs ascend, with at least one lane between neighbours: disjoint and never adjacent. */
  ghost predicate RunsSeparated(R: seq<Run>)
  {
    forall k :: 0 < k < |R| ==> R[k - 1].start + R[k - 1].len < R[k].start
  }

  /** From lane `i` on, a lane is enabled exactly when some run contains it. */
  ghost predicate RunsCover(lanes: seq<bool>, R: seq<Run>, i: nat)
    requires |lanes| == LaneCount
  {
    forall j :: i <= j < LaneCount ==> (lanes[j] <==> Covered(R, j))
  }

  lemma {:induction false} RunsFromWithin(lanes: seq<bool>, i: nat)
    requires |lanes| == LaneCount && i <= LaneCount
    ensures RunsWithin(RunsFrom(lanes, i), i)
    decreases LaneCount - i
  {
    if i == LaneCount {
    } else if !lanes[i] {
      RunsFromWithin(lanes, i + 1);
    } else {
      RunsFromWithin(lanes, RunEnd(lanes, i));
    }
  }

  lemma {:induction false} RunsFromCover(lanes: seq<bool>, i: nat)
    requires |lanes| == LaneCount && i <= LaneCount
    ensures RunsCover(lanes, RunsFrom(lanes, i), i)
    decreases LaneCount - i
  {
    var R := RunsFrom(lanes, i);
    if i == LaneCount {
    } else if !lanes[i] {
      RunsFromCover(lanes, i + 1);
      RunsFromWithin(lanes, i + 1);
      forall k | 0 <= k < |R|
        ensures !InRun(R[k], i)
      {
      }
    } else {
      var e := RunEnd(lanes, i);
      var rest := RunsFrom(lanes, e);
      RunsFromCover(lanes, e);
      RunsFromWithin(lanes, e);
      assert R == [Run(i, e - i)] + rest;
      forall j | i <= j < LaneCount
        ensures lanes[j] <==> Covered(R, j)
      {
        if j < e {
          assert InRun(R[0], j);
        } else {
          if lanes[j] {
            var k :| 0 <= k < |rest| && InRun(rest[k], j);
            assert InRun(R[k + 1], j);
          }
          if Covered(R, j) {
            var k :| 0 <= k < |R| && InRun(R[k], j);
            assert InRun(rest[k - 1], j);
          }
        }
      }
    }
  }

  lemma {:induction false} RunsFromSeparated(lanes: seq<bool>, i: nat)
    requires |lanes| == LaneCount && i <= LaneCount
    ensures RunsSeparated(RunsFrom(lanes, i))
    decreases LaneCount - i
  {
    if i == LaneCount {
    } else if !lanes[i] {
      RunsFromSeparated(lanes, i + 1);
    } else {
      var e := RunEnd(lanes, i);
      var rest := RunsFrom(lanes, e);
      RunsFromSeparated(lanes, e);
      RunsFromWithin(lanes, e);
      if |rest| > 0 {
        RunsFromCover(lanes, e);
        assert InRun(rest[0], rest[0].start);
      }
      assert RunsFrom(lanes, i) == [Run(i, e - i)] + rest;
    }
  }

  /** In separated runs, an earlier run ends before a later one starts. */
  lemma {:induction false} OrderedRuns(R: seq<Run>, k: nat, m: nat)
    requires RunsSeparated(R) && k < m < |R|
    ensures R[k].start + R[k].len < R[m].start
    decreases m - k
  {
    if k + 1 < m {
      OrderedRuns(R, k + 1, m);
    }
  }

  /** Separated runs that cover exactly the enabled lanes are maximal: the
      lane just after a run and the lane just before it are disabled. */
  lemma MaximalRuns(lanes: seq<bool>, R: seq<Run>, k: nat)
    requires |lanes| == LaneCount && k < |R|
    requires RunsWithin(R, 0) && RunsSeparated(R) && RunsCover(lanes, R, 0)
    ensures R[k].start + R[k].len < LaneCount ==> !lanes[R[k].start + R[k].len]
    ensures 0 < R[k].start ==> !lanes[R[k].start - 1]
  {
    var r := R[k];
    if r.start + r.len < LaneCount && Covered(R, r.start + r.len) {
      var m :| 0 <= m < |R| && InRun(R[m], r.start + r.len);
      if k < m { OrderedRuns(R, k, m); } else if m < k { OrderedRuns(R, m, k); }
    }
    if 0 < r.start && Covered(R, r.start - 1) {
      var m :| 0 <= m < |R| && InRun(R[m], r.start - 1);
      if k < m { OrderedRuns(R, k, m); } else if m < k { OrderedRuns(R, m, k); }
    }
  }

  /** The runs of a mask: non-empty, inside the 16 lanes, ascending with a
      gap between neighbours, maximal (the lanes just outside a run are
      disabled), and covering exactly the enabled lanes. */
  lemma RunsShape(mask: U16)
    ensures RunsWithin(Runs(mask), 0)
    ensures RunsSeparated(Runs(mask))
    ensures RunsCover(MaskLanes(mask), Runs(mask), 0)
    ensures forall k :: 0 <= k < |Runs(mask)| ==>
      var r := Runs(mask)[k];
      (r.start + r.len < LaneCount ==> !Lane(mask, r.start + r.len)) &&
      (0 < r.start ==> !Lane(mask, r.start - 1))
  {
    var lanes, R := MaskLanes(mask), Runs(mask);
    RunsFromWithin(lanes, 0);
    RunsFromSeparated(lanes, 0);
    RunsFromCover(lanes, 0);
    forall k | 0 <= k < |R|
      ensures R[k].start + R[k].len < LaneCount ==> !Lane(mask, R[k].start + R[k].len)
      ensures 0 < R[k].start ==> !Lane(mask, R[k].start - 1)
    {
      MaximalRuns(lanes, R, k);
    }
  }

  /** A zero mask produces no record. */
  lemma ZeroMaskNoRuns()
    ensures Runs(0) == []
  {
    NoRunsAbove(MaskLanes(0), 0);
  }

  lemma {:induction false} NoRunsAbove(lanes: seq<bool>, i: nat)
    requires |lanes| == LaneCount && i <= LaneCount
    requires forall j :: i <= j < LaneCount ==> !lanes[j]
    ensures RunsFrom(lanes, i) == []
    decreases LaneCount - i
  {
    if i < LaneCount {
      NoRunsAbove(lanes, i + 1);
    }
  }

  /** Lanes {0,1,2} and {5} enabled: two records, the first three bytes
      long, the second one byte. */
  lemma GapSplitsRuns()
    ensures Runs(0x27) == [Run(0, 3), Run(5, 1)]
  {
    var lanes := MaskLanes(0x27);
    GapLanes();
    NoRunsAbove(lanes, 6);
    assert RunEnd(lanes, 5) == 6;
    assert RunsFrom(lanes, 3) == [Run(5, 1)];
    assert RunEnd(lanes, 0) == 3;
  }

  /** The enabled lanes of mask 0x27 are 0, 1, 2 and 5. */
  lemma GapLanes()
    ensures var lanes := MaskLanes(0x27);
      lanes[0] && lanes[1] && lanes[2] && !lanes[3] && !lanes[4] && lanes[5] &&
      forall j :: 6 <= j < LaneCount ==> !lanes[j]
  {
    assert Pow2(1) == 2 && Pow2(2) == 4 && Pow2(3) == 8 && Pow2(4) == 16 && Pow2(5) == 32 && Pow2(6) == 64;
    forall j | 6 <= j < LaneCount
      ensures !Lane(0x27, j)
    {
      Pow2AtLeast(6, j);
    }
  }

  lemma {:induction false} Pow2AtLeast(m: nat, n: nat)
    requires m <= n
    ensures Pow2(m) <= Pow2(n)
    decreases n - m
  {
    if m < n {
      Pow2AtLeast(m + 1, n);
    }
  }

  /** The record for one run: address base+start (wrapping like `uint32_t`),
      the run length, and the run's bytes from lane start+len-1 down to lane start. */
  function LineOf(time: nat, base: U32, bytes: seq<Byte>, r: Run): MemWriteLine
    requires |bytes| == LaneCount && r.start + r.len <= LaneCount
  {
    MemWriteLine(time, Wrap32(base + r.start), r.len,
      seq(r.len, t requires 0 <= t < r.len => bytes[r.start + r.len - 1 - t]))
  }

  /** The records for a list of runs, in the same order. */
  function LinesOf(time: nat, base: U32, bytes: seq<Byte>, R: seq<Run>): (lines: seq<MemWriteLine>)
    requires |bytes| == LaneCount && RunsWithin(R, 0)
    ensures |lines| == |R|
  {
    if R == [] then []
    else LinesOf(time, base, bytes, R[..|R| - 1]) + [LineOf(time, base, bytes, R[|R| - 1])]
  }

  /** The records `log_mem_write_groups` emits for one committed write. */
  function WriteLines(time: nat, base: U32, bytes: seq<Byte>, mask: U16): (lines: seq<MemWriteLine>)
    requires |bytes| == LaneCount
  {
    RunsFromWithin(MaskLanes(mask), 0);
    LinesOf(time, base, bytes, Runs(mask))
  }

  /** `log_mem_write_groups`: the scan over the mask, one record per run. */
  method LogMemWriteGroups(time: nat, base: U32, bytes: seq<Byte>, mask: U16) returns (lines: seq<MemWriteLine>)
    requires |bytes| == LaneCount
    ensures lines == WriteLines(time, base, bytes, mask)
  {
    ghost var lanes := MaskLanes(mask);
    ghost var all := RunsFrom(lanes, 0);
    RunsFromWithin(lanes, 0);
    lines := [];
    ghost var found: seq<Run> := [];
    var i := 0;
    while i < 16
      invariant 0 <= i <= LaneCount
      invariant found + RunsFrom(lanes, i) == all
      invariant RunsWithin(found, 0)
      invariant lines == LinesOf(time, base, bytes, found)
    {
      i := SkipDisabled(mask, i);
      if i >= 16 {
        break;
      }
      var start := i;
      var line;
      line, i := EmitRun(time, base, bytes, mask, start);
      AppendRun(lanes, found, start, i, all);
      AppendLine(time, base, bytes, found, Run(start, i - start));
      lines := lines + [line];
      found := found + [Run(start, i - start)];
    }
    assert RunsFrom(lanes, i) == [];
    assert found == all;
  }

  /** The first inner loop of the scan: advance past disabled lanes. */
  method SkipDisabled(mask: U16, i0: nat) returns (i: nat)
    requires i0 <= LaneCount
    ensures i0 <= i <= LaneCount && (i < LaneCount ==> Lane(mask, i))
    ensures RunsFrom(MaskLanes(mask), i) == RunsFrom(MaskLanes(mask), i0)
  {
    i := i0;
    while i < 16 && !Lane(mask, i)
      invariant i0 <= i <= LaneCount
      invariant RunsFrom(MaskLanes(mask), i) == RunsFrom(MaskLanes(mask), i0)
    {
      i := i + 1;
    }
  }

  /** The second inner loop of the scan: count the enabled lanes from `start`. */
  method ScanRun(mask: U16, start: nat) returns (i: nat, len: nat)
    requires start <= LaneCount
    ensures i == RunEnd(MaskLanes(mask), start) && len == i - start
  {
    ghost var lanes := MaskLanes(mask);
    i, len := start, 0;
    while i < 16 && Lane(mask, i)
      invariant start <= i <= LaneCount
      invariant len == i - start
      invariant RunEnd(lanes, start) == RunEnd(lanes, i)
    {
      len := len + 1;
      i := i + 1;
    }
  }

  /** Taking the run that starts at `start` and ends before lane `e` moves it from the runs still to find to those found. */
  lemma AppendRun(lanes: seq<bool>, found: seq<Run>, start: nat, e: nat, all: seq<Run>)
    requires |lanes| == LaneCount && start < e <= LaneCount && lanes[start]
    requires RunEnd(lanes, start) == e
    requires found + RunsFrom(lanes, start) == all
    requires RunsWithin(found, 0)
    ensures (found + [Run(start, e - start)]) + RunsFrom(lanes, e) == all
    ensures RunsWithin(found + [Run(start, e - start)], 0)
  {
    assert RunsFrom(lanes, start) == [Run(start, e - start)] + RunsFrom(lanes, e);
  }

  /** Appending the record of one more run. */
  lemma AppendLine(time: nat, base: U32, bytes: seq<Byte>, found: seq<Run>, r: Run)
    requires |bytes| == LaneCount && RunsWithin(found, 0) && RunsWithin(found + [r], 0)
    requires r.start + r.len <= LaneCount
    ensures LinesOf(time, base, bytes, found + [r])
         == LinesOf(time, base, bytes, found) + [LineOf(time, base, bytes, r)]
  {
    assert (found + [r])[..|found|] == found;
  }

  /** One pass of the scan's outer loop once lane `start` is known to be
      enabled: count the run and build its record. */
  method EmitRun(time: nat, base: U32, bytes: seq<Byte>, mask: U16, start: nat) returns (line: MemWriteLine, e: nat)
    requires |bytes| == LaneCount && start < LaneCount
    ensures e == RunEnd(MaskLanes(mask), start)
    ensures line == LineOf(time, base, bytes, Run(start, e - start))
  {
    var len;
    e, len := ScanRun(mask, start);
    var hex := HighToLow(bytes, start, len);
    line := MemWriteLine(time, Wrap32(base + start), len, hex);
  }

  /** The hex field of one record: lanes start+len-1 down to start. */
  method HighToLow(bytes: seq<Byte>, start: nat, len: nat) returns (hex: seq<Byte>)
    requires start + len <= |bytes|
    ensures hex == seq(len, t requires 0 <= t < len => bytes[start + len - 1 - t])
  {
    hex := [];
    var j := len - 1;
    while j >= 0
      invariant -1 <= j < len
      invariant |hex| == len - 1 - j
      invariant forall t :: 0 <= t < |hex| ==> hex[t] == bytes[start + len - 1 - t]
    {
      hex := hex + [bytes[start + j]];
      j := j - 1;
    }
    assert |hex| == len;
  }
}
