# Worker of a memcached proxy middleware, modelled in Dafny

This project models the worker of a caching middleware that sits between
memcached clients and several memcached backends. The model covers
`Worker.java`. A worker takes one parsed client request and handles it by type:

- **SET.** The command is written to every backend, and every backend's one
  reply is read. The client receives the first reply that is not `STORED\r\n`.
  If every backend stored the value, it receives the last `STORED\r\n`.
- **GET, and MULTIGET when sharding is off.** The shared round-robin counter
  picks one backend. Its reply is read until the text ends with `END\r\n` or
  `ERROR\r\n`, and is then relayed to the client verbatim.
- **MULTIGET when sharding is on.** The keys are split over the backends.
  - With fewer keys than backends, each key goes alone to the next backend the
    counter picks.
  - Otherwise, the keys are dealt round robin by key index.
  - Every backend that was sent something is drained. Five bytes are stripped
    from each reply, and the results are concatenated and closed with one
    `END\r\n`. The merged reply goes to the client unless `ERROR\r\n` was
    already relayed, which happens at most once.
- **Every request** is then recorded in the worker's statistics ledger:
  - cumulative and interval counters for its type;
  - a latency histogram with buckets of 100 microseconds, grown on demand.

Two reports read the ledgers. `getRecord` sums and resets the interval
counters, and its first call also clears the histograms. `getFinalStats` sums
the cumulative counters, merges the histograms and takes the running sum
behind the percentile table.

How the model stands in for the outside world:

- A backend connection is the sequence of chunks its successive reads would
  return. A backend that runs out of chunks before its reply is complete is a
  read that never returns. The model reports it as `stalled`, and the request
  is then never recorded.
- The client channel is the sequence of strings written to it.
- `System.nanoTime()` stamps are parameters (`Stamps`).
- The shared counter (`Worker.server`) and the one-shot clear flag
  (`Worker.clear_histogram`) are small objects passed in explicitly:
  `LoadBalancer` and `HistogramReset`.
- Java's `String.trim`, `String.endsWith` and `String.split` on a literal
  separator are modelled with Java's semantics. For `split`, this includes
  dropping trailing empty strings, which `count = split("VALUE").length - 1`
  relies on.

Some behaviour of the code is modelled as written even though it looks
unintended:

- The 5-byte strip is applied to `ERROR\r\n` replies too.
- After an error, the sharded hit count is taken over the last loop's raw
  reply, or over the placeholder `"response"` when the last backend was not
  contacted. It is not taken over the merged text.
- When an error was relayed, the merged reply is discarded.

## Model

| member | source | states |
|---|---|---|
| `JavaText.Trim` | middleware/src/util/Worker.java:267 | the trimmed command is a contiguous slice `s[a..b]` of the input, every character cut off on either side is at or below U+0020, and the slice neither starts nor ends with such a character |
| `JavaText.TrimIsInfix` | middleware/src/util/Worker.java:267 | what is left after trimming the front and then the back is the slice of the input that starts where the leading blanks end, and only blanks lie outside it |
| `JavaText.SplitKeepsEveryPiece` | middleware/src/util/Worker.java:223 | on a text that does not end with the separator, `split` returns one more piece than there are matches, and those pieces join back to the text |
| `Protocol.ReadsToDrain` | middleware/src/util/Worker.java:213-218 | the number of reads after which the accumulated text first ends with `END\r\n` or `ERROR\r\n`; no shorter prefix of the reads is terminated; None when no prefix ever is |
| `Protocol.Drain` | middleware/src/util/Worker.java:212-218 | the read loop stops exactly after the first read that leaves a terminated text and returns that text; it fails only when the backend never completes its reply |
| `Protocol.HitCountIsValueCount` | middleware/src/util/Worker.java:223 | on every terminated reply, and on the placeholder, `split("VALUE").length - 1` equals the number of `VALUE` occurrences |
| `LoadBalancing.LoadBalancer.constructor` | middleware/src/util/Worker.java:82 | the shared counter starts at 0 |
| `LoadBalancing.LoadBalancer.GetServer` | middleware/src/util/Worker.java:254-256 | returns the counter's value before the call, and the counter goes up by exactly one |
| `LoadBalancing.BackendIndex` | middleware/src/util/Worker.java:205 | a ticket modulo `serverCount` is always a valid backend index |
| `LoadBalancing.TicketsVisitCyclically` | middleware/src/util/Worker.java:205 | `i` consecutive tickets later, the selected backend has moved `i` places round the cycle of backends |
| `LoadBalancing.ConsecutiveTicketsDistinct` | middleware/src/util/Worker.java:278-281 | fewer than `serverCount` consecutive tickets never select the same backend twice |
| `LoadBalancing.Wrap32` | middleware/src/util/Worker.java:82 | the Java `int` value of an integer lies in the 32-bit range and is congruent to it modulo 2^32 |
| `LoadBalancing.JavaRem` | middleware/src/util/Worker.java:205 | Java's `%` by a positive divisor: the remainder lies in `[0, b)` for a non-negative dividend and in `(-b, 0]` for a negative one, and it differs from the dividend by a multiple of `b` |
| `LoadBalancing.RemainderCongruent` | middleware/src/util/Worker.java:205 | a number and its Euclidean remainder, and their negations, differ by a multiple of the divisor |
| `LoadBalancing.AsWrittenAgreesBeforeWrap` | middleware/src/util/Worker.java:205 | for fewer than 2^31 calls, the source's `int` counter selects the same backend as the unbounded counter |
| `LoadBalancing.AsWrittenIndexGoesNegative` | middleware/src/util/Worker.java:254-256 | on call 2^31 the `int` counter has wrapped, and with three backends the index asked of the connection list is -2 |
| `WriteConsensus.SetConsensus` | middleware/src/util/Worker.java:166-199 | every backend is sent the identical command and read once; `hit` holds iff every reply is `STORED\r\n`; the client gets exactly one write: the first non-`STORED` reply on failure, otherwise the last reply |
| `RoutedRead.RoutedRead` | middleware/src/util/Worker.java:207-237 | only the chosen backend is written to and read; it is drained exactly until its reply is terminated; `hit` is false iff the reply is exactly `END\r\n` or ends with `ERROR\r\n`; the reply is relayed verbatim as the one write |
| `Sharding.CommandArgumentsShape` | middleware/src/util/Worker.java:267-268 | the argument list is never empty, and its words joined with single spaces give back the trimmed command line |
| `Sharding.ShardKeysAt` | middleware/src/util/Worker.java:315-317 | the `j`-th key sent to backend `s` is the key at position `s + j*n` |
| `Sharding.KeyRouted` | middleware/src/util/Worker.java:313-320 | with at least as many keys as backends, the key at position `i` is sent to backend `i % n` as that backend's `(i / n)`-th key |
| `Sharding.SlotHoldsOneKey` | middleware/src/util/Worker.java:313-320 | each slot of each backend's share holds the key of one position `p`, and that slot is `(p % n, p / n)`, so no key is sent to two backends |
| `Sharding.ShardSizesBalanced` | middleware/src/util/Worker.java:315-317 | each backend receives between floor(k/n) and ceil(k/n) of the k keys |
| `Sharding.SevenKeysOverThree` | middleware/src/util/Worker.java:313-320 | with 7 keys and 3 backends, backend 0 gets keys 1, 4, 7, backend 1 gets keys 2, 5, and backend 2 gets keys 3, 6 |
| `Sharding.ShardCommands` | middleware/src/util/Worker.java:313-320 | backend `s` is sent `get`, then a space and each key of its round-robin share in original order, then `\r\n` |
| `Sharding.OffsetOfTicket` | middleware/src/util/Worker.java:278-279 | the `i`-th of fewer than `n` consecutive tickets selects the backend `i` places after the first ticket's backend |
| `Sharding.MarksOfMeaning` | middleware/src/util/Worker.java:276-283 | `servers[s]` is 1 exactly when one of the key tickets selected backend `s`, and 0 otherwise |
| `Sharding.MarkedCountsKeys` | middleware/src/util/Worker.java:276-289 | with fewer keys than backends, exactly as many distinct backends are marked (and later read) as there are keys |
| `Sharding.SmallSentShape` | middleware/src/util/Worker.java:278-283 | with fewer keys than backends, the backend of key `i` is sent `get <key>\r\n` alone, and an unselected backend is sent nothing |
| `Sharding.SmallFanOut` | middleware/src/util/Worker.java:276-283 | one ticket per key (the counter moves by the key count), `servers[]` holds the marks of the selected backends, and each key goes alone to its backend |
| `Sharding.StripEnd` | middleware/src/util/Worker.java:305 | for a reply of at least five characters, the stripped text followed by the reply's last five characters is the reply |
| `Sharding.FetchOne` | middleware/src/util/Worker.java:287-295 | a marked backend is drained exactly until its reply is terminated; an unmarked backend is not read at all |
| `Sharding.FanIn` | middleware/src/util/Worker.java:285-309 | every contacted backend is drained; `ERROR\r\n` is written at most once, exactly when some contacted reply ends in an error; the merged body is the stripped contacted replies in backend order; the reply string left behind is the last raw reply or the placeholder |
| `Sharding.Gather` | middleware/src/util/Worker.java:322-353 | after the loop the client has received either one `ERROR\r\n`, or, if no error occurred, the merged body followed by one `END\r\n`; the hit count is the number of `VALUE` blocks in the text the source splits |
| `Sharding.ShardedRead` | middleware/src/util/Worker.java:264-361 | which backends are sent what and which tickets are taken, in both regimes; when reads stall; the single error relay; the merged reply; and the hit count over the merged reply, or over the last raw reply after an error |
| `Ledger.RecordTotals` | middleware/src/util/Worker.java:373-411 | one completed request charges its own type's count and three latency totals, leaves every other type alone, raises the total count by one, and moves the hit counters only for a SET or GET that hit |
| `Ledger.RecordInterval` | middleware/src/util/Worker.java:376-413 | one completed request adds one to its type's interval count and none to the others; the interval hits move only for a SET or GET hit |
| `Ledger.RecordMultigetHits` | middleware/src/util/Worker.java:223-226 | `hits` goes to the cumulative and interval hits; `keyCount - hits` goes to the misses; together they grow by the key count |
| `Ledger.SumIntervalsCount` | middleware/src/util/Worker.java:466-497 | the request count of the summed intervals is the sum of every worker's four interval counts |
| `Ledger.SumOfEmptyIntervals` | middleware/src/util/Worker.java:476-483 | workers whose intervals are all reset sum to an all-zero interval |
| `Ledger.SumTotalsCount` | middleware/src/util/Worker.java:561-564 | the aggregate request count of the final report is the sum of every worker's request count |
| `Histograms.Padded` | middleware/src/util/Worker.java:419-423 | after growing, the histogram's length is the larger of its old length and `index + 1` |
| `Histograms.Bumped` | middleware/src/util/Worker.java:419-424 | bucket `index` goes up by one and every other bucket keeps its value, with new buckets reading as 0 |
| `Histograms.SumBumped` | middleware/src/util/Worker.java:419-424 | recording a request adds exactly one to the histogram's total |
| `Histograms.MergeInto` | middleware/src/util/Worker.java:591-600 | the merged histogram is as long as the longer of the two, and each bucket is the sum of the two buckets where they exist |
| `Histograms.MergeAllShape` | middleware/src/util/Worker.java:590-600 | the histogram merged over all workers is as long as the longest worker histogram, and bucket `i` is the sum of the workers' bucket `i` |
| `Histograms.SumMergeAll` | middleware/src/util/Worker.java:590-600 | the merged histogram holds every worker's requests, no more and no less |
| `Histograms.BalancedAll` | middleware/src/util/Worker.java:587 | when each worker's histogram agrees with its `hist_count`, all the histograms together hold the sum of the counts |
| `Histograms.RunningSumsGrow` | middleware/src/util/Worker.java:718-720 | with non-negative buckets, the running sum never decreases |
| `Histograms.RunningSumsEnd` | middleware/src/util/Worker.java:718-722 | the last running sum is the histogram's total |
| `Workers.Bucket` | middleware/src/util/Worker.java:418 | the bucket index `i` of a latency `t` satisfies `100*i <= t < 100*(i+1)` |
| `Workers.Grow` | middleware/src/util/Worker.java:419-423 | `add(0)` runs until `index` is a bucket: the old buckets come first, followed only by zeros |
| `Workers.Worker.constructor` | middleware/src/util/Worker.java:93-117 | a new worker has all counters at zero and an empty histogram |
| `Workers.Worker.Completed` | middleware/src/util/Worker.java:371-425 | `hist_count` grows by one, the counters move as `RecordTotals` and `RecordInterval` say, only the request's bucket is incremented, and the histogram still sums to `hist_count` |
| `Workers.Worker.CountMultigetHits` | middleware/src/util/Worker.java:222-227 | the multiget hit and miss counters move as `RecordMultigetHits` says; the histogram and `hist_count` do not move |
| `Workers.Worker.ServeSet` | middleware/src/util/Worker.java:166-199 | the SET branch: every backend is read exactly once; `hit` holds iff every reply is `STORED\r\n`; the client gets the first non-`STORED` reply on failure and the last reply otherwise; then exactly one completion, or no ledger change when a backend stalls |
| `Workers.Worker.ServeRouted` | middleware/src/util/Worker.java:201-238 | the routed branch: one ticket, only the selected backend is contacted and drained, every other backend is left unread, the reply is relayed verbatim, a multiget's `VALUE` count is charged as hits, then one completion |
| `Workers.Worker.ServeSharded` | middleware/src/util/Worker.java:156-161 | the sharded branch: the keys are dealt to the backends and tickets taken as in `shardedRead`; each contacted backend is drained; the client gets `ERROR\r\n` exactly when a contacted reply ends in an error, otherwise the merged reply ending in `END\r\n`; the hits charged are the `VALUE` count of the merged reply, or of the last raw reply after an error; then one completion |
| `Workers.Worker.ServeRequest` | middleware/src/util/Worker.java:142-239 | dispatch by type: an invalid command gets `ERROR\r\n` and reads no backend; a SET gets the consensus reply and reads each backend once; a routed request reads only its backend and relays its reply; a sharded multiget gets the dealt commands, the error relay or merged reply and its hit count; every request that does not stall gets exactly one client write and exactly one ledger record; a stalled request leaves the ledger unchanged |
| `Reporting.HistogramReset.constructor` | middleware/src/util/Worker.java:28 | the one-shot clear flag starts set |
| `Reporting.RecordTwiceSeesNothing` | middleware/src/util/Worker.java:463-492 | after one interval record, a second with no completion in between sums to all zeros, and the cumulative counters are untouched |
| `Reporting.RecordKeepsBalance` | middleware/src/util/Worker.java:485-490 | the record keeps each histogram in agreement with `hist_count`: both are cleared when the flag is set, and both are kept otherwise |
| `Reporting.ReportOne` | middleware/src/util/Worker.java:465-491 | one worker's interval is returned and zeroed, its cumulative counters are kept, and its histogram and `hist_count` are cleared only when the flag is set |
| `Reporting.GetRecord` | middleware/src/util/Worker.java:452-497 | the returned interval is the field-wise sum over the workers, and the returned count is the sum of the four interval counts; every worker's interval ends at zero and its cumulative counters are kept; histograms are cleared only while the flag is set, and the flag ends cleared |
| `Reporting.AddInto` | middleware/src/util/Worker.java:590-600 | the loop grows the accumulator with zeros to the worker's length and adds that worker's buckets, which gives `MergeInto` |
| `Reporting.RunningSumsOf` | middleware/src/util/Worker.java:717-722 | the loop's running sum after bucket `i` is the sum of buckets `0..i` |
| `Reporting.Accumulate` | middleware/src/util/Worker.java:560-600 | the worker loop of the final report yields the summed cumulative counters, the summed `hist_count`, and the merged histogram |
| `Reporting.FinalStats` | middleware/src/util/Worker.java:523-600 | the integer content of the final report, read without modifying any worker; when every worker's histogram agrees with its count, the merged histogram holds `hist_count_total` requests, and so the last running sum is 100%; when every worker's histogram is non-negative and agrees with its count, the running sums never decrease |
| `Histograms.MergeAllNonNegative` | middleware/src/util/Worker.java:590-600 | merging non-negative worker histograms gives a non-negative histogram |

## Left out

- Socket opening and closing, the `ByteBuffer` capacity of 16384 bytes with
  its overflow, and the `IOException` paths. The model has no I/O failure.
  A read that never returns is the only backend failure it represents.
- The `BlockingQueue.take`, thread interruption and cancellation. The model
  serves one request at a time.
- The `synchronized` blocks. The ledger is modelled as plain fields under
  sequential execution.
- The unused `CountDownLatch` fields.
- Everything floating point and all text formatting:
  - averages, operations per second, hit rates and percentages;
  - the `timeRun >> 20` conversion;
  - `String.format`, `initLog` and logging.
- `Request.parse()`. The request's type, raw command and key count are
  inputs. A command that fails to parse arrives with type `Invalid`.
- The `>> 10` conversion of `System.nanoTime()` to microseconds. The stamps
  are given already in microseconds.
- Workers.Worker.Completed: requires `0 <= completed - created <= 2^31 - 1`.
  The source casts the latency to `int` and would index the histogram at a
  negative position for a negative or wrapped latency.
- The 32-bit wrap-around of the `int` and `long` ledger counters. They are
  unbounded integers in the model.
- Reporting.GetRecord: requires that no worker appears twice in the list. The
  frame reasoning is stated per distinct worker.
- Reporting.GetRecord: does not restate that each worker's histogram still
  agrees with its `hist_count` afterwards. That fact is
  `Reporting.RecordKeepsBalance`, stated about the same `AfterRecord` state
  that `GetRecord` ensures.
- Reporting.Accumulate: also sums each worker's cumulative queueing time. The
  final report's loop (Worker.java:560-600) does not read `total_q_time`, so
  this one component of the sum appears in no report line.

## Findings

| source | as written | input that shows it | evidently intended | confidence | as-written member | corrected member |
|---|---|---|---|---|---|---|
| middleware/src/util/Worker.java:82-255 | the shared counter is a Java `int`, and `getServer() % serverCount` uses Java's truncating `%` | the 2^31-th call (counter wrapped to -2^31) with 3 backends gives index -2, and `connections.get(-2)` throws | a backend index in `[0, serverCount)` on every call, so the counter should be unbounded or the remainder taken as non-negative | high; not executed | `LoadBalancing.AsWrittenIndexGoesNegative` | `LoadBalancing.BackendIndex` |
