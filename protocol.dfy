/** The memcached text-protocol replies the worker recognises, and the way it
    reads a backend: blocking reads appended to one buffer until the text ends
    with a read terminator. A backend connection is modelled by the sequence of
    chunks its successive reads would return. */
module Protocol {
  import opened JavaText

  datatype Option<T> = None | Some(value: T)

  const STORED: string := "STORED\r\n"
  const END: string := "END\r\n"
  const ERROR: string := "ERROR\r\n"
  /** Initial value of the worker's reply string before the first read. */
  const PLACEHOLDER: string := "response"

  /** The read loops stop once the accumulated text ends with one of these. */
  predicate Terminated(text: string)
  {
    EndsWith(text, END) || EndsWith(text, ERROR)
  }

  /** A GET is a miss iff the backend answered a bare `END` or an error. */
  predicate IsMiss(text: string)
  {
    text == END || EndsWith(text, ERROR)
  }

  /** Everything the first |chunks| reads delivered, in order. */
  function Concat(chunks: seq<string>): string
  {
    if chunks == [] then "" else Concat(chunks[..|chunks| - 1]) + chunks[|chunks| - 1]
  }

  lemma ConcatStep(chunks: seq<string>, i: nat)
    requires i < |chunks|
    ensures Concat(chunks[..i + 1]) == Concat(chunks[..i]) + chunks[i]
  {
    assert chunks[..i + 1][..i] == chunks[..i];
  }

  /** The least number of reads, from `from` on, after which the accumulated
      text is terminated. */
  function SearchFrom(chunks: seq<string>, from: nat): (r: Option<nat>)
    requires 1 <= from
    ensures r.Some? ==> from <= r.value <= |chunks| && Terminated(Concat(chunks[..r.value]))
    ensures forall j :: from <= j <= |chunks| && (r.None? || j < r.value) ==>
      !Terminated(Concat(chunks[..j]))
    decreases |chunks| + 1 - from
  {
    if from > |chunks| then None
    else if Terminated(Concat(chunks[..from])) then Some(from)
    else SearchFrom(chunks, from + 1)
  }

  /** The number of reads after which a drain loop stops, or None when the
      backend never completes its reply (the source then blocks for ever). */
  function ReadsToDrain(chunks: seq<string>): (r: Option<nat>)
    ensures r.Some? ==> 1 <= r.value <= |chunks| && Terminated(Concat(chunks[..r.value]))
    ensures forall j :: 1 <= j <= |chunks| && (r.None? || j < r.value) ==>
      !Terminated(Concat(chunks[..j]))
  {
    SearchFrom(chunks, 1)
  }

  /** The reply text a drain loop leaves in the buffer. */
  function Drained(chunks: seq<string>): string
    requires ReadsToDrain(chunks).Some?
  {
    Concat(chunks[..ReadsToDrain(chunks).value])
  }

  /** One drain loop of the source: read until the accumulated text ends with
      `END\r\n` or `ERROR\r\n`. `ok` is false when the chunks run out first. */
  method Drain(chunks: seq<string>) returns (ok: bool, count: nat, text: string)
    ensures ok == ReadsToDrain(chunks).Some?
    ensures ok ==> count == ReadsToDrain(chunks).value && text == Drained(chunks)
    ensures ok ==> Terminated(text)
    ensures !ok ==> count == |chunks|
  {
    var buffer := "";
    text := PLACEHOLDER;
    count := 0;
    while !Terminated(text)
      invariant count <= |chunks|
      invariant buffer == Concat(chunks[..count])
      invariant count == 0 ==> text == PLACEHOLDER
      invariant count > 0 ==> text == buffer
      invariant forall j :: 1 <= j < count ==> !Terminated(Concat(chunks[..j]))
      decreases |chunks| - count
    {
      if count == |chunks| {
        return false, count, text;
      }
      ConcatStep(chunks, count);
      buffer := buffer + chunks[count];
      count := count + 1;
      text := buffer;
    }
    ok := true;
  }

  /** `text.split("VALUE").length - 1`: how the source counts multiget hits. */
  function HitCount(text: string): int
  {
    |Split(text, "VALUE")| - 1
  }

  /** On every text the worker counts over, the split count is exactly the
      number of `VALUE` markers. */
  lemma HitCountIsValueCount(text: string)
    requires Terminated(text) || text == PLACEHOLDER
    ensures HitCount(text) == Occurrences(text, "VALUE")
  {
    assert !EndsWith(text, "VALUE");
    SplitKeepsEveryPiece(text, "VALUE");
  }
}
