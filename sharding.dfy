/** The sharded multiget engine (`shardedRead`): the keys of one `get` are
    spread over the backends, the partial replies are merged, and the client
    receives either the merged reply or a single `ERROR`. */
module Sharding {
  import opened JavaText
  import opened Protocol
  import opened Arithmetic
  import opened LoadBalancing

  // ---------------------------------------------------------------------
  // The command words (lines 266-268)
  // ---------------------------------------------------------------------

  /** `new String(buffer[0 .. limit - 2]).trim().split(" ")`: the command
      word followed by the keys. */
  function CommandArguments(raw: string): seq<string>
    requires |raw| >= 2
  {
    Split(Trim(raw[..|raw| - 2]), " ")
  }

  /** The argument list is never empty, and the words glue back, one space
      apart, into the trimmed command line. */
  lemma CommandArgumentsShape(raw: string)
    requires |raw| >= 2
    ensures |CommandArguments(raw)| >= 1
    ensures Join(CommandArguments(raw), " ") == Trim(raw[..|raw| - 2])
  {
    var line := Trim(raw[..|raw| - 2]);
    assert !EndsWith(line, " ");
    SplitKeepsEveryPiece(line, " ");
  }

  /** The keys of a multiget: the words after the command word. */
  function Keys(raw: string): seq<string>
    requires |raw| >= 2
  {
    CommandArgumentsShape(raw);
    CommandArguments(raw)[1..]
  }

  /** `"get" + " " + k1 + " " + k2 ... + "\r\n"` */
  function GetCommand(keys: seq<string>): string
  {
    "get" + Spaced(keys) + "\r\n"
  }

  function Spaced(keys: seq<string>): string
  {
    if keys == [] then "" else " " + keys[0] + Spaced(keys[1..])
  }

  // ---------------------------------------------------------------------
  // Keys at least as many as backends: round robin by key index
  // ---------------------------------------------------------------------

  /** The keys, from position `s` on, at positions `s`, `s + n`, `s + 2n`, ...:
      what backend `s` of `n` is sent. */
  function ShardKeys(keys: seq<string>, s: nat, n: nat): seq<string>
    requires n > 0
    decreases |keys| - s
  {
    if s >= |keys| then [] else [keys[s]] + ShardKeys(keys, s + n, n)
  }

  /** The `j`-th key sent to backend `s` is the key at position `s + j * n`. */
  lemma {:induction false} ShardKeysAt(keys: seq<string>, s: nat, n: nat, j: nat)
    requires n > 0 && j < |ShardKeys(keys, s, n)|
    ensures s + j * n < |keys| && ShardKeys(keys, s, n)[j] == keys[s + j * n]
    decreases j
  {
    if j > 0 {
      assert ShardKeys(keys, s, n) == [keys[s]] + ShardKeys(keys, s + n, n);
      ShardKeysAt(keys, s + n, n, j - 1);
      var m := (j - 1) * n;
      assert j * n == m + n by {
        Distribute(j - 1, 1, n);
      }
    }
  }

  /** Every position `s + j * n` below |keys| is slot `j` of backend `s`. */
  lemma {:induction false} SlotOfPosition(keys: seq<string>, s: nat, n: nat, j: nat)
    requires n > 0 && s + j * n < |keys|
    ensures j < |ShardKeys(keys, s, n)| && ShardKeys(keys, s, n)[j] == keys[s + j * n]
    decreases j
  {
    if j > 0 {
      var m := (j - 1) * n;
      assert j * n == m + n by {
        Distribute(j - 1, 1, n);
      }
      SlotOfPosition(keys, s + n, n, j - 1);
      assert ShardKeys(keys, s, n) == [keys[s]] + ShardKeys(keys, s + n, n);
    }
  }

  /** The slot a key position takes within its backend's share. */
  function Slot(i: nat, n: nat): nat
    requires n > 0
  {
    i / n
  }

  /** Every key is sent somewhere: the key at position `i` is the
      `(i / n)`-th key of backend `i % n`. */
  lemma KeyRouted(keys: seq<string>, n: nat, i: nat)
    requires n > 0 && i < |keys|
    ensures var r := ShardKeys(keys, BackendIndex(i, n), n);
      Slot(i, n) < |r| && r[Slot(i, n)] == keys[i]
  {
    var s, j := BackendIndex(i, n), Slot(i, n);
    assert s + j * n == i;
    SlotOfPosition(keys, s, n, j);
  }

  /** ... and nowhere else: slot `j` of backend `s` holds the key at position
      `p == s + j * n`, and `(s, j) == (p % n, p / n)`, so no two slots of any
      two backends hold the key of the same position. */
  lemma SlotHoldsOneKey(keys: seq<string>, n: nat, s: nat, j: nat)
    requires s < n && j < |ShardKeys(keys, s, n)|
    ensures var p := s + j * n;
      p < |keys| && ShardKeys(keys, s, n)[j] == keys[p] && p % n == s && p / n == j
  {
    ShardKeysAt(keys, s, n, j);
    ModOfMultiplePlus(j, n, s);
    DivOfMultiplePlus(j, n, s);
  }

  /** Each backend gets `floor(k / n)` or `ceil(k / n)` of the `k` keys. */
  lemma ShardSizesBalanced(keys: seq<string>, s: nat, n: nat)
    requires 0 <= s < n
    ensures |keys| / n <= |ShardKeys(keys, s, n)| <= (|keys| + n - 1) / n
  {
    var k, m := |keys|, |ShardKeys(keys, s, n)|;
    // no slot m: the next position s + m * n is past the end
    if s + m * n < k {
      SlotOfPosition(keys, s, n, m);
    }
    Distribute(m, 1, n);
    DivBelow(k, n, m + 1);
    if m > 0 {
      // slot m - 1 exists: its position is before the end
      ShardKeysAt(keys, s, n, m - 1);
      Distribute(m - 1, 1, n);
      DivAtLeast(k + n - 1, n, m);
    }
  }

  /** Seven keys over three backends: backend 0 is sent keys 1, 4 and 7,
      backend 1 keys 2 and 5, backend 2 keys 3 and 6 (counting from 1). */
  lemma SevenKeysOverThree(keys: seq<string>)
    requires |keys| == 7
    ensures ShardKeys(keys, 0, 3) == [keys[0], keys[3], keys[6]]
    ensures ShardKeys(keys, 1, 3) == [keys[1], keys[4]]
    ensures ShardKeys(keys, 2, 3) == [keys[2], keys[5]]
  {
    assert ShardKeys(keys, 6, 3) == [keys[6]] + ShardKeys(keys, 9, 3);
    assert ShardKeys(keys, 4, 3) == [keys[4]] + ShardKeys(keys, 7, 3);
    assert ShardKeys(keys, 5, 3) == [keys[5]] + ShardKeys(keys, 8, 3);
  }

  /** Lines 313-320: the sub-command of every backend when there are at least
      as many keys as backends. `args[0]` is the command word. */
  method ShardCommands(args: seq<string>, serverCount: nat) returns (commands: seq<string>)
    requires |args| >= 1
    ensures |commands| == serverCount
    ensures forall s :: 0 <= s < serverCount ==>
      commands[s] == GetCommand(ShardKeys(args[1..], s, serverCount))
  {
    var keys := args[1..];
    commands := [];
    var server := 0;
    while server < serverCount
      invariant server <= serverCount && |commands| == server
      invariant forall s :: 0 <= s < server ==>
        commands[s] == GetCommand(ShardKeys(keys, s, serverCount))
    {
      var commandSvr := "get";
      var idx := server + 1;
      while idx < |args|
        invariant server + 1 <= idx
        invariant commandSvr + Spaced(ShardKeys(keys, idx - 1, serverCount)) ==
          "get" + Spaced(ShardKeys(keys, server, serverCount))
        decreases |args| - idx
      {
        var rest := ShardKeys(keys, idx - 1 + serverCount, serverCount);
        assert ShardKeys(keys, idx - 1, serverCount) == [keys[idx - 1]] + rest;
        assert Spaced([keys[idx - 1]] + rest) == " " + keys[idx - 1] + Spaced(rest) by {
          assert ([keys[idx - 1]] + rest)[1..] == rest;
        }
        commandSvr := commandSvr + " " + args[idx];
        idx := idx + serverCount;
      }
      commandSvr := commandSvr + "\r\n";
      commands := commands + [commandSvr];
      server := server + 1;
    }
  }

  // ---------------------------------------------------------------------
  // Fewer keys than backends: one key per ticket of the load balancer
  // ---------------------------------------------------------------------

  /** How far backend `s` lies, going round the cycle of `n` backends, after
      the backend the first ticket selects. */
  function Offset(firstTicket: nat, n: nat, s: nat): (r: nat)
    requires n > 0
    ensures r < n
  {
    (s - BackendIndex(firstTicket, n)) % n
  }

  /** The `i`-th consecutive ticket selects the backend at offset `i`: with
      fewer keys than backends the keys land on a window of consecutive
      backends, one key each. */
  lemma OffsetOfTicket(firstTicket: nat, n: nat, i: nat)
    requires i < n
    ensures Offset(firstTicket, n, BackendIndex(firstTicket + i, n)) == i
  {
    var b := BackendIndex(firstTicket, n);
    TicketsVisitCyclically(firstTicket, n, i);
    if b + i < n {
      ModOfMultiplePlus(0, n, b + i);
      ModOfMultiplePlus(0, n, i);
    } else {
      ModOfMultiplePlus(1, n, b + i - n);
      ModOfMultiplePlus(-1, n, i);
    }
  }

  /** Number of marks equal to 1 (the `servers[]` array of the source). */
  function Marked(marks: seq<int>): nat
  {
    if marks == [] then 0
    else Marked(marks[..|marks| - 1]) + (if marks[|marks| - 1] == 1 then 1 else 0)
  }

  /** Marking a backend that was not marked adds one contacted backend. */
  lemma {:induction false} MarkOneMore(marks: seq<int>, s: nat)
    requires s < |marks| && marks[s] != 1
    ensures Marked(marks[s := 1]) == Marked(marks) + 1
    decreases |marks|
  {
    var m := marks[s := 1];
    var last := |marks| - 1;
    assert m[..last] == if s == last then marks[..last] else marks[..last][s := 1];
    if s < last {
      MarkOneMore(marks[..last], s);
    }
  }

  /** The backends the first `k` tickets from `firstTicket` select. */
  function Picks(firstTicket: nat, n: nat, k: nat): (r: seq<int>)
    requires n > 0
    ensures |r| == k && forall i :: 0 <= i < k ==> r[i] == BackendIndex(firstTicket + i, n)
  {
    seq(k, i requires 0 <= i < k => BackendIndex(firstTicket + i, n))
  }

  /** `servers[]` after the first `k` keys were dealt out (lines 276-283). */
  function MarksOf(firstTicket: nat, n: nat, k: nat): (r: seq<int>)
    requires n > 0
    ensures |r| == n
  {
    if k == 0 then seq(n, _ => 0)
    else MarksOf(firstTicket, n, k - 1)[BackendIndex(firstTicket + k - 1, n) := 1]
  }

  /** The commands sent to every backend after the first `k` keys were dealt
      out: each key alone, as `get <key>\r\n`, to the backend its ticket
      selects. */
  function SmallSent(keys: seq<string>, firstTicket: nat, n: nat, k: nat): (r: seq<seq<string>>)
    requires n > 0 && k <= |keys|
    ensures |r| == n
  {
    if k == 0 then seq(n, _ => [])
    else
      var prev := SmallSent(keys, firstTicket, n, k - 1);
      var p := BackendIndex(firstTicket + k - 1, n);
      prev[p := prev[p] + ["get " + keys[k - 1] + "\r\n"]]
  }

  /** A backend is marked exactly when one of the tickets selected it. */
  lemma {:induction false} MarksOfMeaning(firstTicket: nat, n: nat, k: nat, s: nat)
    requires n > 0 && s < n
    ensures MarksOf(firstTicket, n, k)[s] == if s in Picks(firstTicket, n, k) then 1 else 0
  {
    if k > 0 {
      MarksOfMeaning(firstTicket, n, k - 1, s);
      assert Picks(firstTicket, n, k) == Picks(firstTicket, n, k - 1) + [BackendIndex(firstTicket + k - 1, n)];
    }
  }

  /** The `k`-th ticket selects a backend none of the previous `k` tickets
      did, as long as `k < n`. */
  lemma FreshPick(firstTicket: nat, n: nat, k: nat)
    requires 0 < n && k < n
    ensures BackendIndex(firstTicket + k, n) !in Picks(firstTicket, n, k)
  {
    forall i | 0 <= i < k
      ensures Picks(firstTicket, n, k)[i] != BackendIndex(firstTicket + k, n)
    {
      ConsecutiveTicketsDistinct(firstTicket, n, i, k);
    }
  }

  /** With fewer keys than backends, exactly as many backends as keys are
      contacted. */
  lemma {:induction false} MarkedCountsKeys(firstTicket: nat, n: nat, k: nat)
    requires 0 < n && k <= n
    ensures Marked(MarksOf(firstTicket, n, k)) == k
  {
    if k == 0 {
      NoneMarked(seq(n, _ => 0));
    } else {
      var p := BackendIndex(firstTicket + k - 1, n);
      MarkedCountsKeys(firstTicket, n, k - 1);
      FreshPick(firstTicket, n, k - 1);
      MarksOfMeaning(firstTicket, n, k - 1, p);
      MarkOneMore(MarksOf(firstTicket, n, k - 1), p);
    }
  }

  lemma {:induction false} NoneMarked(marks: seq<int>)
    requires forall s :: 0 <= s < |marks| ==> marks[s] == 0
    ensures Marked(marks) == 0
  {
    if marks != [] {
      NoneMarked(marks[..|marks| - 1]);
    }
  }

  /** With fewer keys than backends, the backend of key `i` is sent that key
      alone, and a backend no ticket selected is sent nothing. */
  lemma {:induction false} SmallSentShape(keys: seq<string>, firstTicket: nat, n: nat, k: nat)
    requires 0 < n && k <= |keys| && k <= n
    ensures forall i :: 0 <= i < k ==>
      SmallSent(keys, firstTicket, n, k)[Picks(firstTicket, n, k)[i]] == ["get " + keys[i] + "\r\n"]
    ensures forall s :: 0 <= s < n && s !in Picks(firstTicket, n, k) ==>
      SmallSent(keys, firstTicket, n, k)[s] == []
  {
    if k > 0 {
      SmallSentShape(keys, firstTicket, n, k - 1);
      FreshPick(firstTicket, n, k - 1);
      var prevPicks := Picks(firstTicket, n, k - 1);
      var picks := Picks(firstTicket, n, k);
      assert picks == prevPicks + [BackendIndex(firstTicket + k - 1, n)];
      forall i | 0 <= i < k - 1
        ensures picks[i] == prevPicks[i]
      {
      }
    }
  }

  /** Lines 276-283: every key takes the next ticket of the shared load
      balancer and is sent alone to the backend it selects, which is marked
      in `servers`. */
  method SmallFanOut(keys: seq<string>, serverCount: nat, lb: LoadBalancer)
    returns (servers: array<int>, sent: seq<seq<string>>)
    requires serverCount > 0
    modifies lb
    ensures fresh(servers) && servers.Length == serverCount
    ensures lb.next == old(lb.next) + |keys|
    ensures servers[..] == MarksOf(old(lb.next), serverCount, |keys|)
    ensures sent == SmallSent(keys, old(lb.next), serverCount, |keys|)
  {
    ghost var first := lb.next;
    servers := new int[serverCount](_ => 0);
    sent := seq(serverCount, _ => []);
    var idx := 0;
    while idx < |keys|
      invariant idx <= |keys| && lb.next == first + idx
      invariant servers[..] == MarksOf(first, serverCount, idx)
      invariant sent == SmallSent(keys, first, serverCount, idx)
    {
      var ticket := lb.GetServer();
      var server := BackendIndex(ticket, serverCount);
      servers[server] := 1;
      sent := sent[server := sent[server] + ["get " + keys[idx] + "\r\n"]];
      idx := idx + 1;
    }
  }

  // ---------------------------------------------------------------------
  // Fan-in (lines 285-309, 322-353)
  // ---------------------------------------------------------------------

  /** `temp.position(temp.position() - 5)`: the last five bytes go, which is
      the `END\r\n` of a successful reply (and `ROR\r\n` of an error). Every
      reply it is applied to is terminated, hence at least five long. */
  function StripEnd(reply: string): (r: string)
    ensures |reply| >= 5 ==> reply == r + reply[|reply| - 5..]
  {
    if |reply| < 5 then "" else reply[..|reply| - 5]
  }

  /** The merged body: the stripped replies of the contacted backends among
      the first |replies|, in backend order. */
  function Aggregate(replies: seq<string>, marks: seq<int>): string
    requires |replies| <= |marks|
  {
    if replies == [] then ""
    else
      var k := |replies| - 1;
      Aggregate(replies[..k], marks) + (if marks[k] == 1 then StripEnd(replies[k]) else "")
  }

  /** Whether a contacted backend among the first |replies| answered an error. */
  function AnyError(replies: seq<string>, marks: seq<int>): bool
    requires |replies| <= |marks|
  {
    if replies == [] then false
    else
      var k := |replies| - 1;
      AnyError(replies[..k], marks) || (marks[k] == 1 && EndsWith(replies[k], ERROR))
  }

  /** `AnyError` is the existential it names. */
  lemma {:induction false} AnyErrorMeans(replies: seq<string>, marks: seq<int>)
    requires |replies| <= |marks|
    ensures AnyError(replies, marks) <==>
      exists s :: 0 <= s < |replies| && marks[s] == 1 && EndsWith(replies[s], ERROR)
  {
    if replies != [] {
      var k := |replies| - 1;
      AnyErrorMeans(replies[..k], marks);
      assert forall s :: 0 <= s < k ==> replies[..k][s] == replies[s];
    }
  }

  /** The reply string left after the fan-in loop over the first |replies|
      backends: the last one's raw reply if it was contacted, the initial
      placeholder otherwise. */
  function LastRaw(replies: seq<string>, marks: seq<int>): string
    requires |replies| <= |marks|
  {
    var k := |replies|;
    if k > 0 && marks[k - 1] == 1 then replies[k - 1] else PLACEHOLDER
  }

  /** What the fan-in leaves for backend `s`: a contacted backend is drained
      exactly until its reply is terminated; the others are not read at all. */
  predicate Fetched(chunks: seq<string>, mark: int, count: nat, reply: string)
  {
    if mark == 1 then
      ReadsToDrain(chunks).Some? && count == ReadsToDrain(chunks).value &&
      reply == Drained(chunks) && Terminated(reply)
    else count == 0 && reply == ""
  }

  /** Lines 287-295 (and 324-331): the reads of one backend in the fan-in
      loop. `ok` is false when a contacted backend never completes. */
  method FetchOne(chunks: seq<string>, mark: int) returns (ok: bool, count: nat, reply: string)
    ensures ok <==> mark != 1 || ReadsToDrain(chunks).Some?
    ensures ok ==> Fetched(chunks, mark, count, reply)
  {
    ok, count, reply := true, 0, "";
    if mark == 1 {
      ok, count, reply := Drain(chunks);
    }
  }

  /** One more backend's reply extends the merged body ... */
  lemma AggregateStep(replies: seq<string>, reply: string, marks: seq<int>)
    requires |replies| < |marks|
    ensures Aggregate(replies + [reply], marks) ==
      Aggregate(replies, marks) + (if marks[|replies|] == 1 then StripEnd(reply) else "")
  {
    var next := replies + [reply];
    assert next[..|replies|] == replies && next[|replies|] == reply;
  }

  /** ... and the error flag, as the loop body does. */
  lemma AnyErrorStep(replies: seq<string>, reply: string, marks: seq<int>)
    requires |replies| < |marks|
    ensures AnyError(replies + [reply], marks) ==
      (AnyError(replies, marks) || (marks[|replies|] == 1 && EndsWith(reply, ERROR)))
  {
    var next := replies + [reply];
    assert next[..|replies|] == replies && next[|replies|] == reply;
  }

  /** The first |consumed| backends were fetched as their marks say. */
  predicate FetchedUpTo(backends: seq<seq<string>>, marks: seq<int>,
                        consumed: seq<nat>, replies: seq<string>)
    requires |marks| == |backends|
  {
    |consumed| == |replies| <= |backends| &&
    forall s :: 0 <= s < |consumed| ==> Fetched(backends[s], marks[s], consumed[s], replies[s])
  }

  /** Fetching one more backend extends the fetched prefix. */
  lemma FetchedStep(backends: seq<seq<string>>, marks: seq<int>,
                    consumed: seq<nat>, replies: seq<string>, count: nat, reply: string)
    requires |marks| == |backends| && FetchedUpTo(backends, marks, consumed, replies)
    requires |consumed| < |backends|
    requires Fetched(backends[|consumed|], marks[|consumed|], count, reply)
    ensures FetchedUpTo(backends, marks, consumed + [count], replies + [reply])
  {
    var k := |consumed|;
    forall s | 0 <= s < k + 1
      ensures Fetched(backends[s], marks[s], (consumed + [count])[s], (replies + [reply])[s])
    {
      if s < k {
        assert (consumed + [count])[s] == consumed[s] && (replies + [reply])[s] == replies[s];
      }
    }
  }

  /** When every backend was fetched, no contacted backend stalled. */
  lemma FetchedAllNoStall(backends: seq<seq<string>>, marks: seq<int>,
                          consumed: seq<nat>, replies: seq<string>)
    requires |marks| == |backends| && FetchedUpTo(backends, marks, consumed, replies)
    requires |consumed| == |backends|
    ensures !exists s :: 0 <= s < |backends| && marks[s] == 1 && ReadsToDrain(backends[s]).None?
  {
    forall s | 0 <= s < |backends| && marks[s] == 1
      ensures ReadsToDrain(backends[s]).Some?
    {
      assert Fetched(backends[s], marks[s], consumed[s], replies[s]);
    }
  }

  /** The fan-in loop of `shardedRead` (lines 286-309; 323-344 with every
      backend contacted): drain every contacted backend (`marks[s] == 1`),
      relay `ERROR` on the first failing reply only, and merge the stripped
      replies. `lastRaw` is the reply string the loop leaves behind. */
  method FanIn(backends: seq<seq<string>>, marks: seq<int>)
    returns (stalled: bool, consumed: seq<nat>, replies: seq<string>,
             responded: bool, writes: seq<string>, aggregate: string, lastRaw: string)
    requires |marks| == |backends|
    ensures stalled <==>
      exists s :: 0 <= s < |backends| && marks[s] == 1 && ReadsToDrain(backends[s]).None?
    // ERROR is written at most once, and nothing else
    ensures writes == if responded then [ERROR] else []
    ensures !stalled ==> |consumed| == |backends| && |replies| == |backends|
    ensures !stalled ==> forall s :: 0 <= s < |backends| ==>
      Fetched(backends[s], marks[s], consumed[s], replies[s])
    ensures !stalled ==> responded == AnyError(replies, marks)
    ensures !stalled ==> aggregate == Aggregate(replies, marks)
    ensures !stalled ==> lastRaw == LastRaw(replies, marks)
    ensures !stalled ==> lastRaw == PLACEHOLDER || Terminated(lastRaw)
  {
    var n := |backends|;
    aggregate := "";
    consumed, replies, responded, writes := [], [], false, [];
    lastRaw := PLACEHOLDER;
    var server := 0;
    while server < n
      invariant server <= n && |consumed| == server
      invariant FetchedUpTo(backends, marks, consumed, replies)
      invariant aggregate == Aggregate(replies, marks)
      invariant responded == AnyError(replies, marks)
      invariant lastRaw == LastRaw(replies, marks)
    {
      var ok, count, reply := FetchOne(backends[server], marks[server]);
      if !ok {
        // the source blocks on this backend for ever, after relaying the
        // first error if there was one
        writes := if responded then [ERROR] else [];
        assert marks[server] == 1 && ReadsToDrain(backends[server]).None?;
        return true, consumed, replies, responded, writes, aggregate, lastRaw;
      }
      var contacted := marks[server] == 1;
      lastRaw := if contacted then reply else PLACEHOLDER;
      if contacted && EndsWith(reply, ERROR) && !responded {
        // the first error is relayed at once (lines 298-303)
        responded := true;
      }
      aggregate := aggregate + (if contacted then StripEnd(reply) else "");
      AggregateStep(replies, reply, marks);
      AnyErrorStep(replies, reply, marks);
      FetchedStep(backends, marks, consumed, replies, count, reply);
      consumed := consumed + [count];
      replies := replies + [reply];
      server := server + 1;
    }
    stalled := false;
    writes := if responded then [ERROR] else [];
    FetchedAllNoStall(backends, marks, consumed, replies);
    if n > 0 && marks[n - 1] == 1 {
      assert Fetched(backends[n - 1], marks[n - 1], consumed[n - 1], replies[n - 1]);
    }
  }

  /** The whole fan-in of `shardedRead` (lines 285-353): after the loop the
      merged reply, closed by `END\r\n`, goes to the client unless an error
      was relayed. `responseStr` is the text the hit counter is taken over. */
  method Gather(backends: seq<seq<string>>, marks: seq<int>)
    returns (stalled: bool, consumed: seq<nat>, replies: seq<string>,
             responded: bool, writes: seq<string>, responseStr: string)
    requires |marks| == |backends|
    ensures stalled <==>
      exists s :: 0 <= s < |backends| && marks[s] == 1 && ReadsToDrain(backends[s]).None?
    // ERROR is written at most once, and nothing else when it is
    ensures responded ==> writes == [ERROR]
    ensures stalled && !responded ==> writes == []
    ensures !stalled ==> |consumed| == |backends| && |replies| == |backends|
    ensures !stalled ==> forall s :: 0 <= s < |backends| ==>
      Fetched(backends[s], marks[s], consumed[s], replies[s])
    ensures !stalled ==> (responded <==>
      exists s :: 0 <= s < |backends| && marks[s] == 1 && EndsWith(replies[s], ERROR))
    ensures !stalled && responded ==> responseStr == LastRaw(replies, marks)
    ensures !stalled && !responded ==>
      writes == [Aggregate(replies, marks) + END] && responseStr == writes[0]
    // whichever text it is taken over, the hit count counts its VALUE blocks
    ensures !stalled ==> HitCount(responseStr) == Occurrences(responseStr, "VALUE")
  {
    var aggregate;
    stalled, consumed, replies, responded, writes, aggregate, responseStr := FanIn(backends, marks);
    if stalled {
      return;
    }
    AnyErrorMeans(replies, marks);
    aggregate := aggregate + END;
    if !responded {
      responseStr := aggregate;
      writes := writes + [aggregate];
      assert responseStr[|responseStr| - 5..] == END;
    }
    HitCountIsValueCount(responseStr);
  }

  /** How `shardedRead` deals out the keys of `raw` over `n` backends, with
      the shared counter moving from `first` to `next`. With fewer keys than
      backends, each key takes one ticket and goes alone, as `get <key>`, to
      the backend its ticket selects, which is marked in `contacted`.
      Otherwise every backend is contacted with one `get` of its round-robin
      share, and no ticket is taken. */
  predicate Dealt(raw: string, first: nat, next: nat, n: nat,
                  sent: seq<seq<string>>, contacted: seq<int>)
    requires |raw| >= 2 && n > 0
  {
    var keys := Keys(raw);
    |sent| == n && |contacted| == n &&
    if |keys| < n then
      next == first + |keys| && contacted == MarksOf(first, n, |keys|) &&
      sent == SmallSent(keys, first, n, |keys|)
    else
      next == first && (forall s :: 0 <= s < n ==> contacted[s] == 1) &&
      forall s :: 0 <= s < n ==> sent[s] == [GetCommand(ShardKeys(keys, s, n))]
  }

  /** What the fan-in of `shardedRead` leaves behind. It stalls exactly when a
      contacted backend never completes its reply. Otherwise every contacted
      backend is drained until its reply is terminated, and the others are not
      read. The client gets one `ERROR` exactly when a contacted reply ends in
      an error, and otherwise the merged reply closed by `END`. `hits` is the
      `VALUE` count of the merged reply, or, after an error, of the last raw
      reply string the loop left behind. */
  predicate FannedIn(backends: seq<seq<string>>, contacted: seq<int>, stalled: bool,
                     consumed: seq<nat>, replies: seq<string>, responded: bool,
                     writes: seq<string>, hits: int)
    requires |contacted| == |backends|
  {
    (stalled <==>
      exists s :: 0 <= s < |backends| && contacted[s] == 1 && ReadsToDrain(backends[s]).None?) &&
    (responded ==> writes == [ERROR]) &&
    (stalled && !responded ==> writes == []) &&
    (!stalled ==>
      |consumed| == |backends| && |replies| == |backends| &&
      (forall s :: 0 <= s < |backends| ==>
        Fetched(backends[s], contacted[s], consumed[s], replies[s])) &&
      (responded <==>
        exists s :: 0 <= s < |backends| && contacted[s] == 1 && EndsWith(replies[s], ERROR)) &&
      (!responded ==>
        writes == [Aggregate(replies, contacted) + END] && hits == Occurrences(writes[0], "VALUE")) &&
      (responded ==> hits == Occurrences(LastRaw(replies, contacted), "VALUE")))
  }

  /** `shardedRead` (lines 264-353) up to the hit count: the keys are dealt
      out in one of the two regimes, the contacted backends are drained and
      merged, and `hits` is the `VALUE` count of the text line 357 splits. */
  method ShardedRead(raw: string, backends: seq<seq<string>>, lb: LoadBalancer)
    returns (stalled: bool, sent: seq<seq<string>>, contacted: seq<int>, consumed: seq<nat>,
             replies: seq<string>, responded: bool, writes: seq<string>, hits: int)
    requires |raw| >= 2 && |backends| > 0
    modifies lb
    ensures Dealt(raw, old(lb.next), lb.next, |backends|, sent, contacted)
    ensures FannedIn(backends, contacted, stalled, consumed, replies, responded, writes, hits)
  {
    var n := |backends|;
    var keys := Keys(raw);
    if |keys| < n {
      var servers;
      servers, sent := SmallFanOut(keys, n, lb);
      contacted := servers[..];
    } else {
      var args := CommandArguments(raw);
      CommandArgumentsShape(raw);
      var commands := ShardCommands(args, n);
      assert args[1..] == keys;
      sent := seq(n, s requires 0 <= s < n => [commands[s]]);
      contacted := seq(n, _ => 1);
    }
    var responseStr;
    stalled, consumed, replies, responded, writes, responseStr := Gather(backends, contacted);
    hits := HitCount(responseStr);
  }
}
