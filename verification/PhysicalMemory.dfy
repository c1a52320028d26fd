// The list of RAM runs that EPT initialization walks (util.cpp).
module PhysicalMemory {
  import opened EptTree
  import opened EptLifetime

  // PHYSICAL_MEMORY_RANGE.
  datatype Range = Range(base: nat, bytes: nat)

  const END := Range(0, 0)

  // BYTES_TO_PAGES.
  function BytesToPages(bytes: nat): nat {
    (bytes + PAGE_SIZE - 1) / PAGE_SIZE
  }

  function RunOf(r: Range): Run {
    Run(r.base / PAGE_SIZE, BytesToPages(r.bytes))
  }

  // The number of ranges before the terminating one.
  function Count(ranges: seq<Range>): (n: nat)
    requires END in ranges
    ensures n < |ranges| && ranges[n] == END && END !in ranges[..n]
  {
    if ranges[0] == END then 0 else
      assert ranges == [ranges[0]] + ranges[1..];
      1 + Count(ranges[1..])
  }

  function TotalPages(runs: seq<Run>): nat {
    if runs == [] then 0 else TotalPages(runs[..|runs| - 1]) + runs[|runs| - 1].pageCount
  }

  ghost predicate RunsFor(ranges: seq<Range>, runs: seq<Run>) {
    |runs| <= |ranges| && forall i :: 0 <= i < |runs| ==> runs[i] == RunOf(ranges[i])
  }

  // UtilpBuildPhysicalMemoryRanges; `allocated` says whether the block for the
  // runs could be allocated.
  method Build(ranges: seq<Range>, canAllocate: bool) returns (runs: array?<Run>, pages: nat)
    requires END in ranges
    ensures runs != null <==> Count(ranges) > 0 && canAllocate
    ensures runs != null ==>
      && runs.Length == Count(ranges) && RunsFor(ranges, runs[..]) && pages == TotalPages(runs[..])
  {
    var n := 0;
    runs, pages := null, 0;
    ghost var list := [];
    while ranges[n] != END
      invariant n <= Count(ranges) && |list| == n && RunsFor(ranges, list) && pages == TotalPages(list)
      decreases |ranges| - n
    {
      assert n < Count(ranges);
      pages := pages + BytesToPages(ranges[n].bytes);
      TotalNext(list, RunOf(ranges[n]));
      list := list + [RunOf(ranges[n])];
      n := n + 1;
    }
    assert n == Count(ranges);
    if n == 0 || !canAllocate {
      return;
    }
    runs := new Run[n](i => Run(0, 0));
    for i := 0 to n
      invariant forall k :: 0 <= k < i ==> runs[k] == RunOf(ranges[k])
    {
      runs[i] := Run(ranges[i].base / PAGE_SIZE, BytesToPages(ranges[i].bytes));
    }
    assert runs[..] == list;
  }

  lemma {:induction false} TotalNext(runs: seq<Run>, r: Run)
    ensures TotalPages(runs + [r]) == TotalPages(runs) + r.pageCount
  {
    assert (runs + [r])[..|runs|] == runs;
  }

  // The page total is the number of RAM frames when no two runs overlap.
  lemma {:induction false} TotalIsFrameCount(runs: seq<Run>)
    requires Disjoint(runs)
    ensures |RamFrames(runs, |runs|)| == TotalPages(runs)
  {
    if runs != [] {
      var n := |runs| - 1;
      var front := runs[..n];
      TotalIsFrameCount(front);
      FramesOfPrefix(runs, front, n);
      var a, b := RamFrames(runs, n), RunFrames(runs[n], runs[n].pageCount);
      forall f | f in a
        ensures f !in b
      {
        FrameOfRun(runs, n, f);
      }
      RunSize(runs[n], runs[n].pageCount);
      assert a * b == {};
    }
  }

  lemma {:induction false} FramesOfPrefix(runs: seq<Run>, front: seq<Run>, n: nat)
    requires n <= |runs| && n <= |front| && forall i :: 0 <= i < n ==> runs[i] == front[i]
    ensures RamFrames(runs, n) == RamFrames(front, n)
  {
    if n > 0 {
      FramesOfPrefix(runs, front, n - 1);
    }
  }

  lemma {:induction false} FrameOfRun(runs: seq<Run>, n: nat, f: nat)
    requires n <= |runs| && f in RamFrames(runs, n)
    ensures exists i :: 0 <= i < n && runs[i].basePage <= f < runs[i].basePage + runs[i].pageCount
  {
    if f !in RunFrames(runs[n - 1], runs[n - 1].pageCount) {
      FrameOfRun(runs, n - 1, f);
    }
  }

  lemma {:induction false} RunSize(run: Run, pages: nat)
    ensures |RunFrames(run, pages)| == pages
  {
    if pages > 0 {
      RunSize(run, pages - 1);
    }
  }

  lemma InFrames(run: Run, a: nat)
    requires a < PAGE_SIZE * FRAME_COUNT
    ensures Frame(a) == a / PAGE_SIZE
    ensures Frame(a) in RunFrames(run, run.pageCount) <==>
      run.basePage <= a / PAGE_SIZE < run.basePage + run.pageCount
  {
  }

  // The frames of a run hold every byte of its range if and only if rounding
  // the base down does not cost the range its last page: always so when the
  // base is page aligned.
  lemma {:induction false} RangeCoveredExact(r: Range)
    requires r.bytes > 0 && r.base + r.bytes <= PAGE_SIZE * FRAME_COUNT
    ensures (forall a: nat :: r.base <= a < r.base + r.bytes ==> Frame(a) in RunFrames(RunOf(r), RunOf(r).pageCount))
      <==> r.base % PAGE_SIZE + r.bytes <= PAGE_SIZE * BytesToPages(r.bytes)
    ensures r.bytes <= PAGE_SIZE * BytesToPages(r.bytes) < r.bytes + PAGE_SIZE
  {
    var run := RunOf(r);
    var last := r.base + r.bytes - 1;
    var frames := RunFrames(run, run.pageCount);
    InFrames(run, last);
    assert Frame(last) in frames <==> r.base % PAGE_SIZE + r.bytes <= PAGE_SIZE * BytesToPages(r.bytes);
    if Frame(last) in frames {
      forall a: nat | r.base <= a < r.base + r.bytes
        ensures Frame(a) in frames
      {
        InFrames(run, a);
        assert a / PAGE_SIZE <= last / PAGE_SIZE;
      }
    }
  }
}
