/** The SET branch of the dispatcher: the command goes to every backend, every
    backend's one reply is read, and the client hears the first failure or,
    when every backend stored the value, the last `STORED`. */
module WriteConsensus {
  import opened Protocol

  /** The reply of backend `s` to the SET: what its one read returned. */
  function ReplyOf(backends: seq<seq<string>>, s: nat): string
    requires s < |backends| && backends[s] != []
  {
    backends[s][0]
  }

  /** What the client hears of a SET that every backend answered: `hit` holds
      iff every reply is `STORED`; on failure the one write is the first
      reply that is not `STORED`, otherwise it is the last reply. */
  predicate ConsensusReply(backends: seq<seq<string>>, hit: bool, writes: seq<string>)
    requires forall s :: 0 <= s < |backends| ==> backends[s] != []
  {
    (hit <==> forall s :: 0 <= s < |backends| ==> ReplyOf(backends, s) == STORED) &&
    (!hit ==> exists f :: (0 <= f < |backends| &&
      writes == [ReplyOf(backends, f)] && ReplyOf(backends, f) != STORED &&
      forall s :: 0 <= s < f ==> ReplyOf(backends, s) == STORED)) &&
    (hit ==> writes == [if |backends| == 0 then "" else ReplyOf(backends, |backends| - 1)])
  }

  /** Lines 166-199 of the source. `backends[s]` is what reads from backend `s`
      would return; every backend is read once, so only its first chunk is a
      reply. `stalled` means some backend sent nothing: the source blocks on
      that read for ever. */
  method SetConsensus(command: string, backends: seq<seq<string>>)
    returns (stalled: bool, sent: seq<seq<string>>, consumed: seq<nat>,
             hit: bool, writes: seq<string>)
    // every backend receives the identical command, whatever happens next
    ensures |sent| == |backends| && forall s :: 0 <= s < |sent| ==> sent[s] == [command]
    ensures stalled <==> exists s :: 0 <= s < |backends| && backends[s] == []
    ensures |writes| <= 1
    ensures !stalled ==> (|consumed| == |backends| &&
      forall s :: 0 <= s < |backends| ==> consumed[s] == 1)
    // hit iff every backend stored the value; the client gets the first
    // failing reply, or the last reply when every backend stored it
    ensures !stalled ==> ConsensusReply(backends, hit, writes)
  {
    var n := |backends|;
    sent := [];
    var server := 0;
    while server < n
      invariant server <= n && |sent| == server
      invariant forall s :: 0 <= s < server ==> sent[s] == [command]
    {
      sent := sent + [[command]];
      server := server + 1;
    }

    var responseStr := "";
    hit := true;
    writes := [];
    consumed := [];
    ghost var firstFailure := 0;
    server := 0;
    while server < n
      invariant server <= n && |consumed| == server
      invariant forall s :: 0 <= s < server ==> backends[s] != [] && consumed[s] == 1
      invariant hit <==> forall s :: 0 <= s < server ==> ReplyOf(backends, s) == STORED
      invariant hit ==> writes == [] && (server == 0 || responseStr == ReplyOf(backends, server - 1))
      invariant !hit ==> (firstFailure < server && writes == [ReplyOf(backends, firstFailure)] &&
        ReplyOf(backends, firstFailure) != STORED &&
        forall s :: 0 <= s < firstFailure ==> ReplyOf(backends, s) == STORED)
      invariant server == 0 ==> responseStr == ""
    {
      if backends[server] == [] {
        // the blocking read never returns
        return true, sent, consumed, hit, writes;
      }
      responseStr := backends[server][0];
      assert ReplyOf(backends, server) == responseStr;
      consumed := consumed + [1];
      if responseStr != STORED {
        if hit {
          hit := false;
          firstFailure := server;
          writes := writes + [responseStr];
        }
      }
      server := server + 1;
    }
    stalled := false;
    if !hit {
      return;
    }
    writes := writes + [responseStr];
  }
}
