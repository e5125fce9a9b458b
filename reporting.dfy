/** The two reports the middleware prints about its workers: the periodic
    interval record (`getRecord`) and the final statistics at shut-down
    (`getFinalStats`), without their floating-point averages and text. */
module Reporting {
  import opened Ledger
  import opened Histograms
  import opened Workers

  /** `Worker.clear_histogram`: set until the first interval record, which
      discards every histogram gathered so far (the warm-up). */
  class HistogramReset {
    var pending: bool

    constructor ()
      ensures pending
    {
      pending := true;
    }
  }

  /** No worker appears twice in the list. */
  predicate Distinct(ws: seq<Worker>)
  {
    forall i, j :: 0 <= i < |ws| && 0 <= j < |ws| && i != j ==> ws[i] != ws[j]
  }

  function TotalsOf(ws: seq<Worker>): (r: seq<Totals>)
    reads ws
    ensures |r| == |ws| && forall k :: 0 <= k < |ws| ==> r[k] == ws[k].totals
  {
    seq(|ws|, k reads ws requires 0 <= k < |ws| => ws[k].totals)
  }

  function HistCountsOf(ws: seq<Worker>): (r: seq<int>)
    reads ws
    ensures |r| == |ws| && forall k :: 0 <= k < |ws| ==> r[k] == ws[k].histCount
  {
    seq(|ws|, k reads ws requires 0 <= k < |ws| => ws[k].histCount)
  }

  function HistogramsOf(ws: seq<Worker>): (r: seq<seq<int>>)
    reads ws
    ensures |r| == |ws| && forall k :: 0 <= k < |ws| ==> r[k] == ws[k].histogram
  {
    seq(|ws|, k reads ws requires 0 <= k < |ws| => ws[k].histogram)
  }

  lemma SumIntervalsStep(ivs: seq<Interval>, iv: Interval)
    ensures SumIntervals(ivs + [iv]) == PlusInterval(SumIntervals(ivs), iv)
  {
    assert (ivs + [iv])[..|ivs|] == ivs;
  }

  /** The statistics fields of one worker, as a value. */
  datatype Figures = Figures(totals: Totals, interval: Interval, histCount: int, histogram: seq<int>)

  function Snap(w: Worker): Figures
    reads w
  {
    Figures(w.totals, w.interval, w.histCount, w.histogram)
  }

  function SnapsOf(ws: seq<Worker>): (r: seq<Figures>)
    reads ws
    ensures |r| == |ws| && forall k :: 0 <= k < |ws| ==> r[k] == Snap(ws[k])
  {
    if ws == [] then [] else SnapsOf(ws[..|ws| - 1]) + [Snap(ws[|ws| - 1])]
  }

  /** The interval figures of every snapshot. */
  function IntervalsIn(fs: seq<Figures>): (r: seq<Interval>)
    ensures |r| == |fs| && forall k :: 0 <= k < |fs| ==> r[k] == fs[k].interval
  {
    seq(|fs|, k requires 0 <= k < |fs| => fs[k].interval)
  }

  /** A worker's figures after the interval record. */
  function AfterRecord(f: Figures, clear: bool): Figures
  {
    if clear then Figures(f.totals, EmptyInterval, 0, [])
    else f.(interval := EmptyInterval)
  }

  /** Every worker's figures after the interval record. */
  function AfterRecordAll(fs: seq<Figures>, clear: bool): (r: seq<Figures>)
    ensures |r| == |fs| && forall k :: 0 <= k < |fs| ==> r[k] == AfterRecord(fs[k], clear)
  {
    seq(|fs|, k requires 0 <= k < |fs| => AfterRecord(fs[k], clear))
  }

  /** The interval record resets only the interval: a second record with no
      completion in between sums to zero in every figure, while every
      worker's cumulative figures are what they were. */
  lemma RecordTwiceSeesNothing(fs: seq<Figures>, clear: bool)
    ensures SumIntervals(IntervalsIn(AfterRecordAll(fs, clear))) == EmptyInterval
    ensures forall k :: 0 <= k < |fs| ==> AfterRecordAll(fs, clear)[k].totals == fs[k].totals
  {
    var after := IntervalsIn(AfterRecordAll(fs, clear));
    forall k | 0 <= k < |after|
      ensures after[k] == EmptyInterval
    {
      assert after[k] == AfterRecord(fs[k], clear).interval;
    }
    SumOfEmptyIntervals(after);
  }

  /** A histogram that agrees with its count still does after the record,
      whether it was cleared or kept. */
  lemma RecordKeepsBalance(f: Figures, clear: bool)
    requires Balanced(f.histogram, f.histCount)
    ensures Balanced(AfterRecord(f, clear).histogram, AfterRecord(f, clear).histCount)
    ensures clear ==> AfterRecord(f, clear).histogram == [] && AfterRecord(f, clear).histCount == 0
    ensures !clear ==> AfterRecord(f, clear).histogram == f.histogram
  {
  }

  /** The body of the loop of `getRecord` (lines 463-491) for one worker:
      its interval figures are read and reset, and its histogram is cleared
      when `clear` is set. */
  method ReportOne(w: Worker, clear: bool) returns (iv: Interval)
    modifies w
    ensures iv == old(w.interval)
    ensures Snap(w) == AfterRecord(old(Snap(w)), clear)
    ensures old(w.Valid()) ==> w.Valid()
  {
    iv := w.interval;
    w.interval := EmptyInterval;
    if clear {
      w.histogram := [];
      w.histCount := 0;
    }
  }

  /** `getRecord` (lines 452-497) without its averages: the interval figures
      of every worker are summed and reset, the cumulative figures are left
      alone, and the histograms are cleared on the first call only. */
  method GetRecord(workers: seq<Worker>, reset: HistogramReset)
    returns (sum: Interval, count: int)
    requires Distinct(workers)
    modifies workers, reset
    ensures sum == SumIntervals(IntervalsIn(old(SnapsOf(workers))))
    // `result_count_interval`: every request of the interval, of any type
    ensures count == IntervalCount(sum) && count == SumCounts(IntervalsIn(old(SnapsOf(workers))))
    ensures forall k :: 0 <= k < |workers| ==>
      Snap(workers[k]) == AfterRecord(old(Snap(workers[k])), old(reset.pending))
    ensures !reset.pending
  {
    ghost var before := SnapsOf(workers);
    ghost var seen: seq<Interval> := [];
    var clear := reset.pending;
    sum := EmptyInterval;
    var i := 0;
    while i < |workers|
      invariant i <= |workers| && |seen| == i && sum == SumIntervals(seen)
      invariant forall k :: 0 <= k < i ==> seen[k] == before[k].interval
      invariant reset.pending == clear
      invariant forall k :: 0 <= k < i ==> Snap(workers[k]) == AfterRecord(before[k], clear)
      invariant forall k :: i <= k < |workers| ==> Snap(workers[k]) == before[k]
    {
      label before_call:
      var iv := ReportOne(workers[i], clear);
      forall k | 0 <= k < |workers| && k != i
        ensures Snap(workers[k]) == old@before_call(Snap(workers[k]))
      {
        assert workers[k] != workers[i];
      }
      SumIntervalsStep(seen, iv);
      seen := seen + [iv];
      sum := PlusInterval(sum, iv);
      i := i + 1;
    }
    reset.pending := false;
    assert seen == IntervalsIn(before);
    SumIntervalsCount(seen);
    count := IntervalCount(sum);
  }

  // ---------------------------------------------------------------------
  // The final statistics (lines 523-725)
  // ---------------------------------------------------------------------

  /** Lines 587-600: one worker's histogram added into the cumulative one,
      which first grows with empty buckets to the worker's length. */
  method AddInto(acc: seq<int>, h: seq<int>) returns (r: seq<int>)
    ensures r == MergeInto(acc, h)
  {
    r := acc;
    if |h| > |r| {
      var idx := |acc|;
      while idx < |h|
        invariant |acc| <= idx <= |h| && r == acc + Zeros(idx - |acc|)
      {
        assert Zeros(idx + 1 - |acc|) == Zeros(idx - |acc|) + [0];
        r := r + [0];
        idx := idx + 1;
      }
    }
    var idx := 0;
    while idx < |h|
      invariant idx <= |h| && |r| == Max(|acc|, |h|)
      invariant forall j :: 0 <= j < |r| ==> r[j] == At(acc, j) + (if j < idx then h[j] else 0)
    {
      r := r[idx := r[idx] + h[idx]];
      idx := idx + 1;
    }
  }

  /** Lines 718-722: the running sum after every bucket. */
  method RunningSumsOf(h: seq<int>) returns (r: seq<int>)
    ensures r == RunningSums(h)
  {
    var runningSum := 0;
    r := [];
    var idx := 0;
    while idx < |h|
      invariant idx <= |h| && |r| == idx && runningSum == Sum(h[..idx])
      invariant forall j :: 0 <= j < idx ==> r[j] == Sum(h[..j + 1])
    {
      assert h[..idx + 1][..idx] == h[..idx];
      runningSum := runningSum + h[idx];
      r := r + [runningSum];
      idx := idx + 1;
    }
  }

  lemma SumTotalsStep(ts: seq<Totals>, i: nat)
    requires i < |ts|
    ensures SumTotals(ts[..i + 1]) == PlusTotals(SumTotals(ts[..i]), ts[i])
  {
    assert ts[..i + 1][..i] == ts[..i];
  }

  lemma SumStep(cs: seq<int>, i: nat)
    requires i < |cs|
    ensures Sum(cs[..i + 1]) == Sum(cs[..i]) + cs[i]
  {
    assert cs[..i + 1][..i] == cs[..i];
  }

  lemma MergeAllStep(hs: seq<seq<int>>, i: nat)
    requires i < |hs|
    ensures MergeAll(hs[..i + 1]) == MergeInto(MergeAll(hs[..i]), hs[i])
  {
    assert hs[..i + 1][..i] == hs[..i];
  }

  /** The loop of `getFinalStats` over the workers (lines 561-600), without
      its per-worker text. */
  method Accumulate(workers: seq<Worker>) returns (totals: Totals, histTotal: int, merged: seq<int>)
    ensures totals == SumTotals(TotalsOf(workers))
    ensures histTotal == Sum(HistCountsOf(workers))
    ensures merged == MergeAll(HistogramsOf(workers))
  {
    ghost var ts := TotalsOf(workers);
    ghost var cs := HistCountsOf(workers);
    ghost var hs := HistogramsOf(workers);
    totals, histTotal, merged := NoTotals, 0, [];
    var i := 0;
    while i < |workers|
      invariant i <= |workers|
      invariant totals == SumTotals(ts[..i]) && histTotal == Sum(cs[..i])
      invariant merged == MergeAll(hs[..i])
    {
      var w := workers[i];
      SumTotalsStep(ts, i);
      SumStep(cs, i);
      MergeAllStep(hs, i);
      totals := PlusTotals(totals, w.totals);
      histTotal := histTotal + w.histCount;
      merged := AddInto(merged, w.histogram);
      i := i + 1;
    }
    assert ts[..i] == ts && cs[..i] == cs && hs[..i] == hs;
  }

  /** `getFinalStats` (lines 523-725) without its text and floating-point
      ratios: the cumulative figures and histogram counts of every worker
      summed, their histograms merged, and the running sums of the percentile
      table. When every worker's histogram agrees with its count, the merged
      histogram holds `histTotal` requests and the last percentile is 100%. */
  method FinalStats(workers: seq<Worker>)
    returns (totals: Totals, histTotal: int, merged: seq<int>, running: seq<int>)
    ensures totals == SumTotals(TotalsOf(workers))
    ensures TotalCount(totals) == SumTotalCounts(TotalsOf(workers))
    ensures histTotal == Sum(HistCountsOf(workers))
    ensures merged == MergeAll(HistogramsOf(workers))
    ensures |merged| == MaxLength(HistogramsOf(workers))
    ensures running == RunningSums(merged)
    ensures (forall k :: 0 <= k < |workers| ==> workers[k].Valid()) ==>
      Sum(merged) == histTotal && (merged != [] ==> running[|merged| - 1] == histTotal)
    // the percentile column never goes down
    ensures (forall k :: 0 <= k < |workers| ==> workers[k].Valid()) ==>
      forall i, j :: 0 <= i <= j < |running| ==> running[i] <= running[j]
  {
    totals, histTotal, merged := Accumulate(workers);
    running := RunningSumsOf(merged);
    SumTotalsCount(TotalsOf(workers));
    MergeAllShape(HistogramsOf(workers));
    if forall k :: 0 <= k < |workers| ==> workers[k].Valid() {
      BalancedAll(HistogramsOf(workers), HistCountsOf(workers));
      SumMergeAll(HistogramsOf(workers));
      MergeAllNonNegative(HistogramsOf(workers));
      forall i, j | 0 <= i <= j < |running|
        ensures running[i] <= running[j]
      {
        RunningSumsGrow(merged, i, j);
      }
      if merged != [] {
        RunningSumsEnd(merged);
      }
    }
  }
}
