/** The loop that scans Suricata's standard output line by line, forwards every line
    that decodes as an event, and stops on cancellation, end of stream or a read
    error. */
module Forwarder {
  import opened Wrappers
  import opened Seqs

  /** One line `scanner.Scan()` delivered, with whether the context was already done
      when the loop's `select` checked it. */
  datatype Scanned<L> = Scanned(line: L, ctxDone: bool)

  /** Why `Scan` finally returned false: the stream closed cleanly, or
      `scanner.Err()` reports an error (a failed read, a line over the buffer limit). */
  datatype StreamEnd = EndOfStream | ScanError

  /** What the loop returns: nil, `ctx.Err()`, or the wrapped scanner error. */
  datatype LoopOutcome = Finished | Cancelled | ReadFailed

  /** The events sent on the logs channel, in order, and how the loop ended. */
  datatype Forwarded<E> = Forwarded(events: seq<E>, outcome: LoopOutcome)

  /** The loop over the lines scanned, `decode` standing for `json.Unmarshal` into an
      event (nothing when it fails). */
  function Forward<L, E>(scanned: seq<Scanned<L>>, end: StreamEnd, decode: L -> Option<E>): (r: Forwarded<E>)
    ensures |r.events| <= |scanned|
    ensures r.outcome == Cancelled <==> exists i :: 0 <= i < |scanned| && scanned[i].ctxDone
    ensures r.outcome == Finished <==> end == EndOfStream && forall i :: 0 <= i < |scanned| ==> !scanned[i].ctxDone
    ensures r.outcome == ReadFailed <==> end == ScanError && forall i :: 0 <= i < |scanned| ==> !scanned[i].ctxDone
  {
    if |scanned| == 0 then Forwarded([], if end == EndOfStream then Finished else ReadFailed)
    else if scanned[0].ctxDone then Forwarded([], Cancelled)
    else
      var rest := Forward(scanned[1..], end, decode);
      assert forall i :: 1 <= i < |scanned| ==> scanned[i] == scanned[1..][i - 1];
      match decode(scanned[0].line)
      case Some(e) => Forwarded([e] + rest.events, rest.outcome)
      case None => rest
  }

  /** The position of the first line read after the context was done, or the number
      of lines if there is none. */
  function FirstDone<L>(scanned: seq<Scanned<L>>): (k: nat)
    ensures k <= |scanned|
    ensures forall i :: 0 <= i < k ==> !scanned[i].ctxDone
    ensures k < |scanned| ==> scanned[k].ctxDone
  {
    if |scanned| == 0 || scanned[0].ctxDone then 0
    else
      var k := FirstDone(scanned[1..]);
      assert forall i :: 1 <= i < k + 1 ==> scanned[i] == scanned[1..][i - 1];
      k + 1
  }

  /** The lines themselves. */
  function Lines<L>(scanned: seq<Scanned<L>>): (lines: seq<L>)
    ensures |lines| == |scanned|
    ensures forall i :: 0 <= i < |scanned| ==> lines[i] == scanned[i].line
  {
    seq(|scanned|, i requires 0 <= i < |scanned| => scanned[i].line)
  }

  /** The events forwarded are exactly the decodable lines read before the context was
      seen done, in the order they were read; the line on which cancellation is seen
      and everything after it produce nothing. */
  lemma {:induction false} ForwardedAreDecodedLines<L, E(!new)>(scanned: seq<Scanned<L>>, end: StreamEnd, decode: L -> Option<E>)
    ensures Forward(scanned, end, decode).events == FilterMap(Lines(scanned[..FirstDone(scanned)]), decode)
  {
    var k := FirstDone(scanned);
    if k == 0 {
      assert Lines(scanned[..0]) == [];
    } else {
      var tail := scanned[1..];
      ForwardedAreDecodedLines(tail, end, decode);
      assert FirstDone(tail) == k - 1;
      var lines := Lines(scanned[..k]);
      assert lines == [scanned[0].line] + Lines(tail[..k - 1]);
      assert lines[1..] == Lines(tail[..k - 1]);
    }
  }

  /** A line that does not decode changes nothing, wherever it sits: it is dropped and
      the loop carries on. */
  lemma {:induction false} UndecodableLineIsSkipped<L, E>(before: seq<Scanned<L>>, line: L, after: seq<Scanned<L>>, end: StreamEnd, decode: L -> Option<E>)
    requires decode(line).None?
    ensures Forward(before + [Scanned(line, false)] + after, end, decode) == Forward(before + after, end, decode)
  {
    if |before| == 0 {
      assert before + [Scanned(line, false)] + after == [Scanned(line, false)] + after;
      assert ([Scanned(line, false)] + after)[1..] == after;
      assert before + after == after;
    } else {
      UndecodableLineIsSkipped(before[1..], line, after, end, decode);
      assert (before + [Scanned(line, false)] + after)[1..] == before[1..] + [Scanned(line, false)] + after;
      assert (before + after)[1..] == before[1..] + after;
      assert (before + [Scanned(line, false)] + after)[0] == before[0] == (before + after)[0];
    }
  }

  /** With the context already done when the loop starts, nothing is forwarded; the
      loop reports cancellation only if a line arrives, since the context is checked
      after each read, and an empty stream ends as the stream does. */
  lemma CancelledFromTheStart<L, E>(scanned: seq<Scanned<L>>, end: StreamEnd, decode: L -> Option<E>)
    requires forall i :: 0 <= i < |scanned| ==> scanned[i].ctxDone
    ensures Forward(scanned, end, decode).events == []
    ensures Forward(scanned, end, decode).outcome == Cancelled <==> |scanned| > 0
  {
  }
}
