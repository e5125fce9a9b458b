/** The integer statistics a worker keeps about the requests it completes:
    cumulative figures per request type, and interval figures that the
    periodic report reads and resets. Times are differences of microsecond
    timestamps. */
module Ledger {

  datatype Kind = Set | Get | MultiGet | Invalid

  /** The timestamps of one request: created (enqueued by the middleware),
      dequeued by the worker, sent to and received from the backends, and
      completed. */
  datatype Stamps = Stamps(created: int, dequeued: int, sent: int, received: int, completed: int)
  {
    /** End-to-end response time. */
    function Response(): int { completed - created }
    /** Time inside the worker. */
    function Processing(): int { completed - dequeued }
    /** Time waiting for the backends. */
    function Server(): int { received - sent }
    /** Time in the queue. */
    function Queueing(): int { dequeued - created }
  }

  /** Per-type cumulative figures: `count_*`, `total_time_*`,
      `total_proc_time_*`, `total_server_time_*`. */
  datatype TypeStats = TypeStats(count: int, respTime: int, procTime: int, serverTime: int)

  const NoRequests := TypeStats(0, 0, 0, 0)

  /** Every cumulative field of a worker. */
  datatype Totals = Totals(
    sets: TypeStats, gets: TypeStats, multigets: TypeStats, invalids: TypeStats,
    hitsSet: int, hitsGet: int, hitsMultiget: int, missesMultiget: int,
    queueTime: int, multigetLength: int)

  const NoTotals := Totals(NoRequests, NoRequests, NoRequests, NoRequests, 0, 0, 0, 0, 0, 0)

  /** The interval fields: `count_*_interval`, `hits_interval`,
      `total_time_interval`, `total_q_time_interval`,
      `total_server_time_interval`. */
  datatype Interval = Interval(
    countSet: int, countGet: int, countMultiget: int, countInvalid: int,
    hits: int, respTime: int, queueTime: int, serverTime: int)

  const EmptyInterval := Interval(0, 0, 0, 0, 0, 0, 0, 0)

  function Of(t: Totals, k: Kind): TypeStats
  {
    match k
    case Set => t.sets
    case Get => t.gets
    case MultiGet => t.multigets
    case Invalid => t.invalids
  }

  function CountOf(iv: Interval, k: Kind): int
  {
    match k
    case Set => iv.countSet
    case Get => iv.countGet
    case MultiGet => iv.countMultiget
    case Invalid => iv.countInvalid
  }

  /** Requests of every type together. */
  function TotalCount(t: Totals): int
  {
    t.sets.count + t.gets.count + t.multigets.count + t.invalids.count
  }

  /** `result_count_interval`: requests of every type in the interval. */
  function IntervalCount(iv: Interval): int
  {
    iv.countSet + iv.countGet + iv.countMultiget + iv.countInvalid
  }

  /** Only SET and GET requests carry their own hit flag into the counters;
      multiget hits are counted from the reply text instead. */
  predicate CountsOwnHit(k: Kind, hit: bool)
  {
    hit && (k == Set || k == Get)
  }

  /** Lines 374-415: the cumulative figures after one completed request of
      kind `k`. */
  function RecordTotals(t: Totals, k: Kind, hit: bool, keyCount: int, st: Stamps): (r: Totals)
    // exactly the request's own type is charged, with all three times ...
    ensures Of(r, k) == TypeStats(Of(t, k).count + 1, Of(t, k).respTime + st.Response(),
      Of(t, k).procTime + st.Processing(), Of(t, k).serverTime + st.Server())
    // ... and every other type is left alone
    ensures forall k' :: k' != k ==> Of(r, k') == Of(t, k')
    ensures TotalCount(r) == TotalCount(t) + 1
    ensures r.hitsSet == t.hitsSet + (if k == Set && hit then 1 else 0)
    ensures r.hitsGet == t.hitsGet + (if k == Get && hit then 1 else 0)
    ensures r.hitsMultiget == t.hitsMultiget && r.missesMultiget == t.missesMultiget
    ensures r.queueTime == t.queueTime + st.Queueing()
    ensures r.multigetLength == t.multigetLength + (if k == MultiGet then keyCount else 0)
  {
    var one := (s: TypeStats) => TypeStats(s.count + 1, s.respTime + st.Response(),
      s.procTime + st.Processing(), s.serverTime + st.Server());
    var t' := t.(queueTime := t.queueTime + st.Queueing());
    match k
    case Set => t'.(sets := one(t.sets), hitsSet := t.hitsSet + (if hit then 1 else 0))
    case Get => t'.(gets := one(t.gets), hitsGet := t.hitsGet + (if hit then 1 else 0))
    case MultiGet => t'.(multigets := one(t.multigets), multigetLength := t.multigetLength + keyCount)
    case Invalid => t'.(invalids := one(t.invalids))
  }

  /** Lines 376-414: the interval figures after one completed request. */
  function RecordInterval(iv: Interval, k: Kind, hit: bool, st: Stamps): (r: Interval)
    ensures CountOf(r, k) == CountOf(iv, k) + 1
    ensures forall k' :: k' != k ==> CountOf(r, k') == CountOf(iv, k')
    ensures IntervalCount(r) == IntervalCount(iv) + 1
    ensures r.hits == iv.hits + (if CountsOwnHit(k, hit) then 1 else 0)
    ensures r.respTime == iv.respTime + st.Response()
    ensures r.queueTime == iv.queueTime + st.Queueing()
    ensures r.serverTime == iv.serverTime + st.Server()
  {
    var iv' := iv.(hits := iv.hits + (if CountsOwnHit(k, hit) then 1 else 0),
                   respTime := iv.respTime + st.Response(),
                   queueTime := iv.queueTime + st.Queueing(),
                   serverTime := iv.serverTime + st.Server());
    match k
    case Set => iv'.(countSet := iv.countSet + 1)
    case Get => iv'.(countGet := iv.countGet + 1)
    case MultiGet => iv'.(countMultiget := iv.countMultiget + 1)
    case Invalid => iv'.(countInvalid := iv.countInvalid + 1)
  }

  /** Lines 224-226 and 358-360: the multiget hit and miss counters after
      `hits` of `keyCount` keys were found. */
  function RecordMultigetHits(t: Totals, iv: Interval, hits: int, keyCount: int): (r: (Totals, Interval))
    ensures r.0 == t.(hitsMultiget := t.hitsMultiget + hits,
                      missesMultiget := t.missesMultiget + keyCount - hits)
    ensures r.1 == iv.(hits := iv.hits + hits)
    // every key is either a hit or a miss
    ensures (r.0.hitsMultiget + r.0.missesMultiget) - (t.hitsMultiget + t.missesMultiget) == keyCount
  {
    (t.(hitsMultiget := t.hitsMultiget + hits, missesMultiget := t.missesMultiget + keyCount - hits),
     iv.(hits := iv.hits + hits))
  }

  // ---------------------------------------------------------------------
  // Summing over workers (getRecord, getFinalStats)
  // ---------------------------------------------------------------------

  function PlusInterval(a: Interval, b: Interval): Interval
  {
    Interval(a.countSet + b.countSet, a.countGet + b.countGet,
             a.countMultiget + b.countMultiget, a.countInvalid + b.countInvalid,
             a.hits + b.hits, a.respTime + b.respTime,
             a.queueTime + b.queueTime, a.serverTime + b.serverTime)
  }

  /** The field-wise sum of the interval figures of every worker. */
  function SumIntervals(ivs: seq<Interval>): Interval
  {
    if ivs == [] then EmptyInterval
    else PlusInterval(SumIntervals(ivs[..|ivs| - 1]), ivs[|ivs| - 1])
  }

  /** The summed interval's request count is the sum of every worker's. */
  lemma {:induction false} SumIntervalsCount(ivs: seq<Interval>)
    ensures IntervalCount(SumIntervals(ivs)) == SumCounts(ivs)
  {
    if ivs != [] {
      SumIntervalsCount(ivs[..|ivs| - 1]);
    }
  }

  function SumCounts(ivs: seq<Interval>): int
  {
    if ivs == [] then 0 else SumCounts(ivs[..|ivs| - 1]) + IntervalCount(ivs[|ivs| - 1])
  }

  /** Once every worker's interval is reset, the next report reads zeros. */
  lemma {:induction false} SumOfEmptyIntervals(ivs: seq<Interval>)
    requires forall i :: 0 <= i < |ivs| ==> ivs[i] == EmptyInterval
    ensures SumIntervals(ivs) == EmptyInterval
  {
    if ivs != [] {
      var init := ivs[..|ivs| - 1];
      assert forall i :: 0 <= i < |init| ==> init[i] == ivs[i];
      SumOfEmptyIntervals(init);
      assert ivs[|ivs| - 1] == EmptyInterval;
    }
  }

  function PlusStats(a: TypeStats, b: TypeStats): TypeStats
  {
    TypeStats(a.count + b.count, a.respTime + b.respTime,
              a.procTime + b.procTime, a.serverTime + b.serverTime)
  }

  function PlusTotals(a: Totals, b: Totals): Totals
  {
    Totals(PlusStats(a.sets, b.sets), PlusStats(a.gets, b.gets),
           PlusStats(a.multigets, b.multigets), PlusStats(a.invalids, b.invalids),
           a.hitsSet + b.hitsSet, a.hitsGet + b.hitsGet,
           a.hitsMultiget + b.hitsMultiget, a.missesMultiget + b.missesMultiget,
           a.queueTime + b.queueTime, a.multigetLength + b.multigetLength)
  }

  /** The field-wise sum of the cumulative figures of every worker. */
  function SumTotals(ts: seq<Totals>): Totals
  {
    if ts == [] then NoTotals else PlusTotals(SumTotals(ts[..|ts| - 1]), ts[|ts| - 1])
  }

  /** The aggregate request count of the final report is the sum of every
      worker's request count. */
  lemma {:induction false} SumTotalsCount(ts: seq<Totals>)
    ensures TotalCount(SumTotals(ts)) == SumTotalCounts(ts)
  {
    if ts != [] {
      SumTotalsCount(ts[..|ts| - 1]);
    }
  }

  function SumTotalCounts(ts: seq<Totals>): int
  {
    if ts == [] then 0 else SumTotalCounts(ts[..|ts| - 1]) + TotalCount(ts[|ts| - 1])
  }
}
