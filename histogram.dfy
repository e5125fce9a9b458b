/** Latency histograms: bucket `i` counts the requests whose end-to-end
    latency, in microseconds, divided by 100 is `i` (buckets of 0.1 ms). The
    worker grows its histogram on demand; the final report merges them. */
module Histograms {

  /** Total number of requests a histogram holds. */
  function Sum(h: seq<int>): int
  {
    if h == [] then 0 else Sum(h[..|h| - 1]) + h[|h| - 1]
  }

  /** Bucket `i`, reading a missing bucket as empty. */
  function At(h: seq<int>, i: int): int
  {
    if 0 <= i < |h| then h[i] else 0
  }

  predicate NonNegative(h: seq<int>)
  {
    forall i :: 0 <= i < |h| ==> h[i] >= 0
  }

  /** A histogram holding exactly `count` requests. */
  predicate Balanced(h: seq<int>, count: int)
  {
    Sum(h) == count && NonNegative(h)
  }

  function Zeros(n: nat): (r: seq<int>)
    ensures |r| == n && forall i :: 0 <= i < n ==> r[i] == 0
  {
    seq(n, _ => 0)
  }

  function Max(a: nat, b: nat): nat
  {
    if a >= b then a else b
  }

  lemma SumAppend(h: seq<int>, v: int)
    ensures Sum(h + [v]) == Sum(h) + v
  {
    assert (h + [v])[..|h|] == h;
  }

  /** Padding with empty buckets adds no requests. */
  lemma {:induction false} SumPadded(h: seq<int>, n: nat)
    ensures Sum(h + Zeros(n)) == Sum(h)
    decreases n
  {
    if n > 0 {
      assert Zeros(n) == Zeros(n - 1) + [0];
      assert h + Zeros(n) == (h + Zeros(n - 1)) + [0];
      SumAppend(h + Zeros(n - 1), 0);
      SumPadded(h, n - 1);
    } else {
      assert h + Zeros(0) == h;
    }
  }

  /** Changing one bucket changes the total by the same amount. */
  lemma {:induction false} SumUpdate(h: seq<int>, i: nat, v: int)
    requires i < |h|
    ensures Sum(h[i := v]) == Sum(h) - h[i] + v
    decreases |h|
  {
    var last := |h| - 1;
    var u := h[i := v];
    assert u[..last] == if i == last then h[..last] else h[..last][i := v];
    if i < last {
      SumUpdate(h[..last], i, v);
    }
  }

  // ---------------------------------------------------------------------
  // One completed request (lines 419-424 of Worker.java)
  // ---------------------------------------------------------------------

  /** The histogram grown with empty buckets until `i` is one of its buckets. */
  function Padded(h: seq<int>, i: nat): (r: seq<int>)
    ensures |r| == Max(|h|, i + 1)
  {
    if i < |h| then h else h + Zeros(i + 1 - |h|)
  }

  /** The histogram after one more request in bucket `i`: zeros are appended
      until `i` is a bucket, then that bucket goes up by one. */
  function Bumped(h: seq<int>, i: nat): (r: seq<int>)
    ensures |r| == Max(|h|, i + 1)
    ensures r[i] == At(h, i) + 1
    ensures forall j :: 0 <= j < |r| && j != i ==> r[j] == At(h, j)
  {
    var padded := Padded(h, i);
    padded[i := padded[i] + 1]
  }

  /** Recording a request adds exactly one to the histogram's total. */
  lemma SumBumped(h: seq<int>, i: nat)
    ensures Sum(Bumped(h, i)) == Sum(h) + 1
  {
    var padded := Padded(h, i);
    if i >= |h| {
      SumPadded(h, i + 1 - |h|);
    }
    SumUpdate(padded, i, padded[i] + 1);
  }

  lemma BumpedNonNegative(h: seq<int>, i: nat)
    requires NonNegative(h)
    ensures NonNegative(Bumped(h, i))
  {
  }

  // ---------------------------------------------------------------------
  // The final merge (lines 587-600 of Worker.java)
  // ---------------------------------------------------------------------

  /** `acc` after adding histogram `h` bucket by bucket, grown to fit. */
  function MergeInto(acc: seq<int>, h: seq<int>): (r: seq<int>)
    ensures |r| == Max(|acc|, |h|)
    ensures forall i :: 0 <= i < |r| ==> r[i] == At(acc, i) + At(h, i)
  {
    seq(Max(|acc|, |h|), i => At(acc, i) + At(h, i))
  }

  /** All histograms merged, in worker order. */
  function MergeAll(hs: seq<seq<int>>): seq<int>
  {
    if hs == [] then [] else MergeInto(MergeAll(hs[..|hs| - 1]), hs[|hs| - 1])
  }

  function MaxLength(hs: seq<seq<int>>): nat
  {
    if hs == [] then 0 else Max(MaxLength(hs[..|hs| - 1]), |hs[|hs| - 1]|)
  }

  /** Bucket `i` summed over every histogram. */
  function Column(hs: seq<seq<int>>, i: nat): int
  {
    if hs == [] then 0 else Column(hs[..|hs| - 1], i) + At(hs[|hs| - 1], i)
  }

  /** Every histogram's total, summed. */
  function SumAll(hs: seq<seq<int>>): int
  {
    if hs == [] then 0 else SumAll(hs[..|hs| - 1]) + Sum(hs[|hs| - 1])
  }

  /** The merged histogram is as long as the longest one, and each of its
      buckets is the sum of that bucket over every histogram. */
  lemma {:induction false} MergeAllShape(hs: seq<seq<int>>)
    ensures |MergeAll(hs)| == MaxLength(hs)
    ensures forall i :: 0 <= i < |MergeAll(hs)| ==> MergeAll(hs)[i] == Column(hs, i)
  {
    if hs != [] {
      var init := hs[..|hs| - 1];
      MergeAllShape(init);
      forall i | 0 <= i < |MergeAll(hs)|
        ensures MergeAll(hs)[i] == Column(hs, i)
      {
        assert At(MergeAll(init), i) == Column(init, i) by {
          if i >= |MergeAll(init)| {
            ColumnPastEnd(init, i);
          }
        }
      }
    }
  }

  /** Past the longest histogram every column is empty. */
  lemma {:induction false} ColumnPastEnd(hs: seq<seq<int>>, i: nat)
    requires i >= MaxLength(hs)
    ensures Column(hs, i) == 0
  {
    if hs != [] {
      ColumnPastEnd(hs[..|hs| - 1], i);
    }
  }

  /** Adding two histograms bucket-wise adds their totals. */
  lemma SumMergeInto(a: seq<int>, b: seq<int>)
    ensures Sum(MergeInto(a, b)) == Sum(a) + Sum(b)
  {
    var n := Max(|a|, |b|);
    var x, y := a + Zeros(n - |a|), b + Zeros(n - |b|);
    assert MergeInto(a, b) == Pointwise(x, y);
    SumPointwise(x, y);
    SumPadded(a, n - |a|);
    SumPadded(b, n - |b|);
  }

  function Pointwise(x: seq<int>, y: seq<int>): (r: seq<int>)
    requires |x| == |y|
    ensures |r| == |x| && forall i :: 0 <= i < |x| ==> r[i] == x[i] + y[i]
  {
    seq(|x|, i requires 0 <= i < |x| => x[i] + y[i])
  }

  lemma {:induction false} SumPointwise(x: seq<int>, y: seq<int>)
    requires |x| == |y|
    ensures Sum(Pointwise(x, y)) == Sum(x) + Sum(y)
    decreases |x|
  {
    if x != [] {
      var k := |x| - 1;
      SumPointwise(x[..k], y[..k]);
      assert Pointwise(x, y)[..k] == Pointwise(x[..k], y[..k]);
    }
  }

  /** The merged histogram holds every worker's requests, no more and no less. */
  lemma {:induction false} SumMergeAll(hs: seq<seq<int>>)
    ensures Sum(MergeAll(hs)) == SumAll(hs)
  {
    if hs != [] {
      SumMergeAll(hs[..|hs| - 1]);
      SumMergeInto(MergeAll(hs[..|hs| - 1]), hs[|hs| - 1]);
    }
  }

  /** Merging histograms with no negative bucket gives none either. */
  lemma {:induction false} MergeAllNonNegative(hs: seq<seq<int>>)
    requires forall k :: 0 <= k < |hs| ==> NonNegative(hs[k])
    ensures NonNegative(MergeAll(hs))
  {
    if hs != [] {
      MergeAllNonNegative(hs[..|hs| - 1]);
    }
  }

  /** Histograms that each hold their own count hold, together, the sum of
      the counts. */
  lemma {:induction false} BalancedAll(hs: seq<seq<int>>, counts: seq<int>)
    requires |hs| == |counts| && forall k :: 0 <= k < |hs| ==> Balanced(hs[k], counts[k])
    ensures SumAll(hs) == Sum(counts)
  {
    if hs != [] {
      var k := |hs| - 1;
      BalancedAll(hs[..k], counts[..k]);
      assert Balanced(hs[k], counts[k]);
    }
  }

  // ---------------------------------------------------------------------
  // The running sum behind the percentiles (lines 718-722 of Worker.java)
  // ---------------------------------------------------------------------

  /** `runningSum` after bucket `i`, for every bucket. */
  function RunningSums(h: seq<int>): (r: seq<int>)
    ensures |r| == |h|
  {
    seq(|h|, i requires 0 <= i < |h| => Sum(h[..i + 1]))
  }

  /** With non-negative buckets the running sum never decreases... */
  lemma RunningSumsGrow(h: seq<int>, i: nat, j: nat)
    requires NonNegative(h) && i <= j < |h|
    ensures RunningSums(h)[i] <= RunningSums(h)[j]
  {
    PrefixSumsGrow(h, i, j);
  }

  /** ... and it ends at the histogram's total. */
  lemma RunningSumsEnd(h: seq<int>)
    requires h != []
    ensures RunningSums(h)[|h| - 1] == Sum(h)
  {
    assert h[..|h|] == h;
  }

  lemma {:induction false} PrefixSumsGrow(h: seq<int>, i: nat, j: nat)
    requires NonNegative(h) && i <= j < |h|
    ensures Sum(h[..i + 1]) <= Sum(h[..j + 1])
    decreases j - i
  {
    if i < j {
      PrefixSumsGrow(h, i, j - 1);
      assert h[..j + 1] == h[..j] + [h[j]];
      SumAppend(h[..j], h[j]);
    }
  }
}
