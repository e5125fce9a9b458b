/** The GET / non-sharded MULTIGET branch of the dispatcher: the command goes to
    the one backend the load balancer picked, whose reply is drained and relayed
    to the client verbatim. */
module RoutedRead {
  import opened JavaText
  import opened Protocol

  /** Lines 207-237 of the source, once the backend index `server` has been
      chosen (line 205). `stalled` means the backend never completes its reply. */
  method RoutedRead(command: string, backends: seq<seq<string>>, server: nat)
    returns (stalled: bool, sent: seq<seq<string>>, consumed: seq<nat>,
             response: string, hit: bool, writes: seq<string>)
    requires server < |backends|
    // only the chosen backend is written to, and only once
    ensures |sent| == |backends| && sent[server] == [command]
    ensures forall s :: 0 <= s < |backends| && s != server ==> sent[s] == []
    ensures stalled <==> ReadsToDrain(backends[server]).None?
    ensures stalled ==> writes == []
    // only the chosen backend is read, exactly until its reply is terminated
    ensures !stalled ==> (|consumed| == |backends| &&
      consumed[server] == ReadsToDrain(backends[server]).value &&
      forall s :: 0 <= s < |backends| && s != server ==> consumed[s] == 0)
    ensures !stalled ==> response == Drained(backends[server]) && Terminated(response)
    // a miss is a bare END or an error, and the reply is relayed verbatim
    ensures !stalled ==> (hit <==> !IsMiss(response))
    ensures !stalled ==> writes == [response]
  {
    var n := |backends|;
    sent := seq(n, s => if s == server then [command] else []);
    var ok, count;
    ok, count, response := Drain(backends[server]);
    if !ok {
      return true, sent, [], response, false, [];
    }
    stalled := false;
    consumed := seq(n, s => if s == server then count else 0);
    hit := true;
    if response == END || EndsWith(response, ERROR) {
      hit := false;
    }
    writes := [response];
  }
}
