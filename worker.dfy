/** A worker of the middleware: it takes one request at a time, serves it
    through the backends and records it in its statistics ledger. */
module Workers {
  import opened JavaText
  import opened Protocol
  import opened LoadBalancing
  import opened WriteConsensus
  import opened RoutedRead
  import opened Sharding
  import opened Ledger
  import opened Histograms

  /** What parsing a client command yields: its type, the raw bytes (with
      the trailing `\r\n`) and, for a multiget, its number of keys. An
      unparseable command has kind `Invalid`. */
  datatype Request = Request(kind: Kind, raw: string, keyCount: int)

  /** Line 419: the histogram bucket of a request, `(int) latency / 100`,
      for a latency that fits a Java `int`. */
  function Bucket(st: Stamps): (r: nat)
    requires 0 <= st.Response() <= INT32_MAX
    ensures r * 100 <= st.Response() < (r + 1) * 100
  {
    st.Response() / 100
  }

  /** Whether a request takes the routed branch: a GET, or a MULTIGET of a
      worker that does not shard. */
  predicate Routed(req: Request, sharded: bool)
  {
    req.kind == Get || (req.kind == MultiGet && !sharded)
  }

  /** The multiget hit counting that precedes `completed`; other requests
      leave the counters as they are. */
  function AfterHits(t: Totals, iv: Interval, req: Request, hits: int): (Totals, Interval)
  {
    if req.kind == MultiGet then RecordMultigetHits(t, iv, hits, req.keyCount) else (t, iv)
  }

  /** Only backend `server` receives the command, once. */
  predicate RoutedTo(server: nat, command: string, sent: seq<seq<string>>)
  {
    server < |sent| && sent[server] == [command] &&
    forall s :: 0 <= s < |sent| && s != server ==> sent[s] == []
  }

  /** Only backend `server` was read, exactly until its reply was
      terminated; every other backend was not read at all. */
  predicate DrainedOnly(server: nat, backends: seq<seq<string>>, consumed: seq<nat>)
    requires server < |backends| && ReadsToDrain(backends[server]).Some?
  {
    |consumed| == |backends| && consumed[server] == ReadsToDrain(backends[server]).value &&
    forall s :: 0 <= s < |backends| && s != server ==> consumed[s] == 0
  }

  /** Lines 420-424: the histogram list grown, one `add(0)` at a time, until
      `index` is one of its buckets. */
  method Grow(h: seq<int>, index: nat) returns (g: seq<int>)
    ensures g == Padded(h, index)
  {
    g := h;
    if index >= |g| {
      var i := |h|;
      while i <= index
        invariant |h| <= i <= index + 1
        invariant g == h + Zeros(i - |h|)
      {
        assert Zeros(i + 1 - |h|) == Zeros(i - |h|) + [0];
        g := g + [0];
        i := i + 1;
      }
    }
  }

  class Worker {
    const id: int
    const sharded: bool
    const serverCount: nat
    var totals: Totals
    var interval: Interval
    var histCount: int
    var histogram: seq<int>

    /** The histogram holds exactly the `histCount` requests recorded since
        it was last cleared. */
    predicate Valid()
      reads this
    {
      Balanced(histogram, histCount)
    }

    constructor (id: int, sharded: bool, serverCount: nat)
      ensures this.id == id && this.sharded == sharded && this.serverCount == serverCount
      ensures totals == NoTotals && interval == EmptyInterval
      ensures histCount == 0 && histogram == []
      ensures Valid()
    {
      this.id := id;
      this.sharded := sharded;
      this.serverCount := serverCount;
      totals := NoTotals;
      interval := EmptyInterval;
      histCount := 0;
      histogram := [];
    }

    /** `completed` (lines 371-425): one more request of its type, in the
        cumulative and interval figures and in the histogram, which grows
        with empty buckets until the request's bucket exists. */
    method Completed(req: Request, hit: bool, st: Stamps)
      requires Valid() && 0 <= st.Response() <= INT32_MAX
      modifies this
      ensures Valid()
      ensures histCount == old(histCount) + 1
      ensures totals == RecordTotals(old(totals), req.kind, hit, req.keyCount, st)
      ensures interval == RecordInterval(old(interval), req.kind, hit, st)
      ensures histogram == Bumped(old(histogram), Bucket(st))
    {
      var index := st.Response() / 100;
      var h := Grow(histogram, index);
      SumBumped(histogram, index);
      BumpedNonNegative(histogram, index);
      histogram := h[index := h[index] + 1];
      histCount := histCount + 1;
      totals := RecordTotals(totals, req.kind, hit, req.keyCount, st);
      interval := RecordInterval(interval, req.kind, hit, st);
    }

    /** Lines 222-227 and 356-361: the multiget hit and miss counters. */
    method CountMultigetHits(hits: int, keyCount: int)
      modifies this
      ensures (totals, interval) == RecordMultigetHits(old(totals), old(interval), hits, keyCount)
      ensures histCount == old(histCount) && histogram == old(histogram)
    {
      var r := RecordMultigetHits(totals, interval, hits, keyCount);
      totals, interval := r.0, r.1;
    }

    /** The SET branch of `run` (lines 166-199), then `completed`. */
    method ServeSet(req: Request, st: Stamps, backends: seq<seq<string>>)
      returns (stalled: bool, sent: seq<seq<string>>, consumed: seq<nat>, writes: seq<string>, hit: bool)
      requires Valid() && 0 <= st.Response() <= INT32_MAX
      modifies this
      ensures Valid()
      ensures |sent| == |backends| && forall s :: 0 <= s < |sent| ==> sent[s] == [req.raw]
      ensures stalled <==> exists s :: 0 <= s < |backends| && backends[s] == []
      ensures |writes| <= 1
      // every backend's one reply is read, and the client hears the consensus
      ensures !stalled ==>
        |consumed| == |backends| && forall s :: 0 <= s < |backends| ==> consumed[s] == 1
      ensures !stalled ==> ConsensusReply(backends, hit, writes)
      ensures stalled ==> Unchanged(old(totals), old(interval), old(histCount), old(histogram))
      ensures !stalled ==> Recorded(old(totals), old(interval), old(histCount), old(histogram), req, hit, st)
    {
      stalled, sent, consumed, hit, writes := SetConsensus(req.raw, backends);
      if !stalled {
        Completed(req, hit, st);
      }
    }

    /** The GET / non-sharded MULTIGET branch of `run` (lines 201-238): one
        ticket picks the backend, whose reply is relayed; a multiget's
        `VALUE` count goes into the hit counters, then `completed`. */
    method ServeRouted(req: Request, st: Stamps, backends: seq<seq<string>>, lb: LoadBalancer)
      returns (stalled: bool, sent: seq<seq<string>>, consumed: seq<nat>, writes: seq<string>,
               hits: int, hit: bool)
      requires Valid() && 0 <= st.Response() <= INT32_MAX
      requires |backends| == serverCount > 0
      modifies this, lb
      ensures Valid()
      ensures lb.next == old(lb.next) + 1
      ensures |sent| == |backends|
      ensures RoutedTo(BackendIndex(old(lb.next), serverCount), req.raw, sent)
      ensures var chunks := backends[BackendIndex(old(lb.next), serverCount)];
        (stalled <==> ReadsToDrain(chunks).None?) &&
        (!stalled ==> writes == [Drained(chunks)] && (hit <==> !IsMiss(writes[0])))
      ensures !stalled ==> DrainedOnly(BackendIndex(old(lb.next), serverCount), backends, consumed)
      ensures !stalled && req.kind == MultiGet ==> hits == Occurrences(writes[0], "VALUE")
      ensures stalled ==>
        writes == [] && Unchanged(old(totals), old(interval), old(histCount), old(histogram))
      ensures !stalled ==> var charged := AfterHits(old(totals), old(interval), req, hits);
        Recorded(charged.0, charged.1, old(histCount), old(histogram), req, hit, st)
    {
      var ticket := lb.GetServer();
      var server := BackendIndex(ticket, serverCount);
      var response;
      stalled, sent, consumed, response, hit, writes := RoutedRead.RoutedRead(req.raw, backends, server);
      hits := 0;
      if stalled {
        return;
      }
      if req.kind == MultiGet {
        hits := HitCount(response);
        HitCountIsValueCount(response);
        CountMultigetHits(hits, req.keyCount);
      }
      Completed(req, hit, st);
    }

    /** The sharded MULTIGET branch of `run` (lines 154-159): `shardedRead`
        with its hit counting (lines 355-361), then `completed`. The hits
        charged to the ledger are those `shardedRead` counts, including its
        count over the last raw reply after an error. */
    method ServeSharded(req: Request, st: Stamps, backends: seq<seq<string>>, lb: LoadBalancer)
      returns (stalled: bool, sent: seq<seq<string>>, contacted: seq<int>, consumed: seq<nat>,
               replies: seq<string>, responded: bool, writes: seq<string>, hits: int)
      requires Valid() && 0 <= st.Response() <= INT32_MAX
      requires |backends| == serverCount > 0 && req.kind == MultiGet && |req.raw| >= 2
      modifies this, lb
      ensures Valid()
      ensures Dealt(req.raw, old(lb.next), lb.next, |backends|, sent, contacted)
      ensures FannedIn(backends, contacted, stalled, consumed, replies, responded, writes, hits)
      ensures !stalled ==> |writes| == 1 && (writes[0] == ERROR || EndsWith(writes[0], END))
      ensures stalled ==>
        |writes| <= 1 && Unchanged(old(totals), old(interval), old(histCount), old(histogram))
      ensures !stalled ==> var charged := AfterHits(old(totals), old(interval), req, hits);
        Recorded(charged.0, charged.1, old(histCount), old(histogram), req, false, st)
    {
      stalled, sent, contacted, consumed, replies, responded, writes, hits :=
        ShardedRead(req.raw, backends, lb);
      if stalled {
        return;
      }
      if !responded {
        var w := writes[0];
        assert w[|w| - |END|..] == END;
      }
      CountMultigetHits(hits, req.keyCount);
      Completed(req, false, st);
    }

    /** One iteration of `run` (lines 142-239) for a dequeued request: an
        unparseable command is answered `ERROR`; otherwise the request goes
        down the sharded-multiget, SET or routed branch. `stalled` means a
        backend read never returned, so the request is never completed.
        `consumed` is the number of reads each backend served; `contacted`,
        `replies` and `responded` describe the sharded fan-in and are left
        empty by the other branches. */
    method ServeRequest(req: Request, st: Stamps, backends: seq<seq<string>>, lb: LoadBalancer)
      returns (stalled: bool, sent: seq<seq<string>>, consumed: seq<nat>, contacted: seq<int>,
               replies: seq<string>, responded: bool, writes: seq<string>, hits: int, hit: bool)
      requires Valid() && 0 <= st.Response() <= INT32_MAX
      requires |backends| == serverCount
      requires req.kind == Get || req.kind == MultiGet ==> serverCount > 0
      requires req.kind == MultiGet ==> |req.raw| >= 2
      modifies this, lb
      ensures Valid()
      ensures |sent| == |backends|
      // which backends hear of the request, and which tickets it takes
      ensures req.kind == Invalid ==>
        lb.next == old(lb.next) && forall s :: 0 <= s < |sent| ==> sent[s] == []
      ensures req.kind == Set ==>
        lb.next == old(lb.next) && forall s :: 0 <= s < |sent| ==> sent[s] == [req.raw]
      ensures Routed(req, sharded) ==>
        lb.next == old(lb.next) + 1 && RoutedTo(BackendIndex(old(lb.next), serverCount), req.raw, sent)
      ensures req.kind == MultiGet && sharded ==>
        Dealt(req.raw, old(lb.next), lb.next, |backends|, sent, contacted)
      // only a backend can stall a request; every served request gets one reply
      ensures req.kind == Invalid ==> !stalled && writes == [ERROR]
      ensures req.kind == Set ==>
        (stalled <==> exists s :: 0 <= s < |backends| && backends[s] == [])
      ensures Routed(req, sharded) ==>
        (stalled <==> ReadsToDrain(backends[BackendIndex(old(lb.next), serverCount)]).None?)
      ensures !stalled ==> |writes| == 1
      ensures stalled ==> |writes| <= 1
      // which backends are read, and how far
      ensures req.kind == Invalid ==>
        |consumed| == |backends| && forall s :: 0 <= s < |backends| ==> consumed[s] == 0
      ensures req.kind == Set && !stalled ==>
        |consumed| == |backends| && forall s :: 0 <= s < |backends| ==> consumed[s] == 1
      ensures Routed(req, sharded) && !stalled ==>
        DrainedOnly(BackendIndex(old(lb.next), serverCount), backends, consumed)
      // what the client hears, the hit flag and the multiget hit count
      ensures req.kind == Set && !stalled ==> ConsensusReply(backends, hit, writes)
      ensures Routed(req, sharded) && !stalled ==>
        writes == [Drained(backends[BackendIndex(old(lb.next), serverCount)])] &&
        (hit <==> !IsMiss(writes[0]))
      ensures Routed(req, sharded) && req.kind == MultiGet && !stalled ==>
        hits == Occurrences(writes[0], "VALUE")
      ensures req.kind == MultiGet && sharded ==>
        FannedIn(backends, contacted, stalled, consumed, replies, responded, writes, hits)
      // the ledger: untouched by a stalled request, one more request otherwise
      ensures stalled ==> Unchanged(old(totals), old(interval), old(histCount), old(histogram))
      ensures !stalled ==> var charged := AfterHits(old(totals), old(interval), req, hits);
        Recorded(charged.0, charged.1, old(histCount), old(histogram), req, hit, st)
    {
      hits, hit := 0, false;
      contacted, replies, responded := [], [], false;
      if req.kind == Invalid {
        stalled, sent, consumed, writes := false, seq(|backends|, _ => []), seq(|backends|, _ => 0), [ERROR];
        Completed(req, false, st);
      } else if sharded && req.kind == MultiGet {
        stalled, sent, contacted, consumed, replies, responded, writes, hits :=
          ServeSharded(req, st, backends, lb);
      } else if req.kind == Set {
        stalled, sent, consumed, writes, hit := ServeSet(req, st, backends);
      } else {
        stalled, sent, consumed, writes, hits, hit := ServeRouted(req, st, backends, lb);
      }
    }

    /** Nothing in the ledger moved. */
    predicate Unchanged(t: Totals, iv: Interval, count: int, h: seq<int>)
      reads this
    {
      totals == t && interval == iv && histCount == count && histogram == h
    }

    /** Exactly one request was recorded. */
    predicate Recorded(t: Totals, iv: Interval, count: int, h: seq<int>,
                       req: Request, hit: bool, st: Stamps)
      reads this
      requires 0 <= st.Response() <= INT32_MAX
    {
      totals == RecordTotals(t, req.kind, hit, req.keyCount, st) &&
      interval == RecordInterval(iv, req.kind, hit, st) &&
      histCount == count + 1 && histogram == Bumped(h, Bucket(st))
    }
  }
}
