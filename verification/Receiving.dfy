/** What receiving returns, for all that a connection can bring: the responses, and every kind of error. */
module Receiving {
  import opened Wrappers
  import opened Text
  import opened Headers
  import opened ParserSpec
  import opened Fragmentation
  import opened ReadBack
  import opened EndToEnd
  import opened ChunkCoding

  /** The first `n` events are reads that bring something. */
  predicate AllHeard(arrivals: seq<ReadEvent>, n: nat) {
    n <= |arrivals| && forall i :: 0 <= i < n ==> arrivals[i].Received? && arrivals[i].bytes != ""
  }

  function BytesOf(events: seq<ReadEvent>): seq<string> {
    if events == [] then []
    else [if events[0].Received? then events[0].bytes else ""] + BytesOf(events[1..])
  }

  /** The parser after the first `n` events. */
  ghost function Reached(p: Parser, arrivals: seq<ReadEvent>, n: nat): Parser
    requires n <= |arrivals|
  {
    FeedAll(p, BytesOf(arrivals[..n]), AsWritten)
  }

  lemma ReachedNone(p: Parser, arrivals: seq<ReadEvent>)
    ensures Reached(p, arrivals, 0) == p
  {
    assert arrivals[..0] == [];
  }

  lemma ReachedMore(p: Parser, arrivals: seq<ReadEvent>, n: nat)
    requires 0 < n <= |arrivals| && arrivals[0].Received?
    ensures Reached(p, arrivals, n) == Reached(Feed(p, arrivals[0].bytes, AsWritten), arrivals[1..], n - 1)
  {
    var all := BytesOf(arrivals[..n]);
    assert arrivals[..n][0] == arrivals[0] && arrivals[..n][1..] == arrivals[1..][..n - 1];
    assert all == [arrivals[0].bytes] + BytesOf(arrivals[1..][..n - 1]);
    assert all[1..] == BytesOf(arrivals[1..][..n - 1]);
  }

  /**
   The reply when `n` reads leave the parser in state `q` and receiving ends there: with the parser,
   or because there is nothing more to read, the peer has closed, or a read has failed.
   */
  predicate EndsWith(q: Parser, arrivals: seq<ReadEvent>, n: nat, reply: Reply)
    requires n <= |arrivals|
  {
    if q.phase == Complete then reply == Reply(Ok(q.response), arrivals[n..])
    else if q.phase == Failed then reply == Reply(Err(Protocol(CodeOf(q.fault))), arrivals[n..])
    else if n == |arrivals| then reply == Reply(Err(Protocol(ParseError)), [])
    else
      match arrivals[n]
      case ReadFailed(code) => reply == Reply(Err(Transport(code)), arrivals[n + 1..])
      case Received(bytes) => bytes == "" && reply == Reply(Err(Protocol(ParseError)), arrivals[n + 1..])
  }

  /** Receiving ends after `n` reads, and not before. */
  ghost predicate EndsAfter(p: Parser, arrivals: seq<ReadEvent>, n: nat, reply: Reply) {
    && AllHeard(arrivals, n) && (n > 0 ==> !Reached(p, arrivals, n - 1).Final())
    && EndsWith(Reached(p, arrivals, n), arrivals, n, reply)
  }

  lemma HeardMore(arrivals: seq<ReadEvent>, n: nat)
    requires arrivals != [] && arrivals[0].Received? && arrivals[0].bytes != ""
    ensures AllHeard(arrivals, n + 1) <==> AllHeard(arrivals[1..], n)
  {
    if AllHeard(arrivals, n + 1) {
      forall i | 0 <= i < n ensures arrivals[1..][i].Received? && arrivals[1..][i].bytes != "" {
        assert arrivals[1..][i] == arrivals[i + 1];
      }
    }
    if AllHeard(arrivals[1..], n) {
      forall i | 0 < i < n + 1 ensures arrivals[i].Received? && arrivals[i].bytes != "" {
        assert arrivals[i] == arrivals[1..][i - 1];
      }
    }
  }

  /** Where receiving ends, one read earlier. */
  lemma EndsStep(p: Parser, arrivals: seq<ReadEvent>, n: nat, reply: Reply)
    requires !p.Final() && arrivals != [] && arrivals[0].Received? && arrivals[0].bytes != ""
    requires EndsAfter(Feed(p, arrivals[0].bytes, AsWritten), arrivals[1..], n, reply)
    ensures EndsAfter(p, arrivals, n + 1, reply)
  {
    HeardMore(arrivals, n);
    ReachedMore(p, arrivals, n + 1);
    if n > 0 { ReachedMore(p, arrivals, n); } else { ReachedNone(p, arrivals); }
    assert arrivals[1..][n..] == arrivals[n + 1..];
    if n < |arrivals[1..]| { assert arrivals[1..][n + 1..] == arrivals[n + 2..]; }
  }

  lemma {:induction false} ReceiveEnds(p: Parser, arrivals: seq<ReadEvent>) returns (n: nat)
    requires p.phase != Failed
    ensures EndsAfter(p, arrivals, n, Receive(p, arrivals))
    decreases |arrivals|
  {
    ReachedNone(p, arrivals);
    n := 0;
    assert arrivals[0..] == arrivals;
    if !p.Final() && arrivals != [] && arrivals[0].Received? && arrivals[0].bytes != "" {
      var next := Feed(p, arrivals[0].bytes, AsWritten);
      if next.phase == Failed {
        ReachedNone(next, arrivals[1..]);
        assert arrivals[1..][0..] == arrivals[1..];
        assert EndsAfter(next, arrivals[1..], 0, Receive(p, arrivals));
        EndsStep(p, arrivals, 0, Receive(p, arrivals));
        n := 1;
      } else {
        var m := ReceiveEnds(next, arrivals[1..]);
        EndsStep(p, arrivals, m, Receive(p, arrivals));
        n := m + 1;
      }
    }
  }

  /** Reads that bring the parser to its end keep it there. */
  lemma {:induction false} ReachedStays(p: Parser, arrivals: seq<ReadEvent>, m: nat, n: nat)
    requires m <= n && AllHeard(arrivals, n) && Reached(p, arrivals, m).Final()
    ensures Reached(p, arrivals, n) == Reached(p, arrivals, m)
    decreases m
  {
    if m == 0 {
      ReachedNone(p, arrivals);
      FinalStays(p, BytesOf(arrivals[..n]), AsWritten);
    } else {
      ReachedMore(p, arrivals, m);
      ReachedMore(p, arrivals, n);
      HeardMore(arrivals, n - 1);
      ReachedStays(Feed(p, arrivals[0].bytes, AsWritten), arrivals[1..], m - 1, n - 1);
    }
  }

  lemma EndsOnce(p: Parser, arrivals: seq<ReadEvent>, m: nat, n: nat, a: Reply, b: Reply)
    requires EndsAfter(p, arrivals, m, a) && EndsAfter(p, arrivals, n, b)
    ensures n <= m
  {
    if m < n && Reached(p, arrivals, m).Final() { ReachedStays(p, arrivals, m, n - 1); }
  }

  /** Receiving from any connection: its reply is the one with which some number of reads ends it. */
  lemma ReceiveIff(arrivals: seq<ReadEvent>, reply: Reply)
    ensures Receive(FRESH, arrivals) == reply <==> exists n :: EndsAfter(FRESH, arrivals, n, reply)
  {
    var n := ReceiveEnds(FRESH, arrivals);
    forall m: nat | EndsAfter(FRESH, arrivals, m, reply) ensures Receive(FRESH, arrivals) == reply {
      EndsOnce(FRESH, arrivals, m, n, reply, Receive(FRESH, arrivals));
      EndsOnce(FRESH, arrivals, n, m, Receive(FRESH, arrivals), reply);
    }
  }

  /** The first `n` events are reads that bring something, and they complete this response. */
  ghost predicate Completes(arrivals: seq<ReadEvent>, n: nat, r: Response) {
    AllHeard(arrivals, n) && Reached(FRESH, arrivals, n).phase == Complete && Reached(FRESH, arrivals, n).response == r
  }

  lemma {:induction false} FirstFinal(arrivals: seq<ReadEvent>, m: nat) returns (k: nat)
    requires m <= |arrivals| && Reached(FRESH, arrivals, m).Final()
    ensures k <= m && Reached(FRESH, arrivals, k).Final() && (k > 0 ==> !Reached(FRESH, arrivals, k - 1).Final())
  {
    k := m;
    if m > 0 && Reached(FRESH, arrivals, m - 1).Final() { k := FirstFinal(arrivals, m - 1); }
  }

  lemma CompletesGives(arrivals: seq<ReadEvent>, m: nat, r: Response)
    requires Completes(arrivals, m, r)
    ensures Receive(FRESH, arrivals).result == Ok(r)
  {
    var k := FirstFinal(arrivals, m);
    ReachedStays(FRESH, arrivals, k, m);
    assert EndsAfter(FRESH, arrivals, k, Reply(Ok(r), arrivals[k..]));
    ReceiveIff(arrivals, Reply(Ok(r), arrivals[k..]));
  }

  /** A response is returned if and only if some number of reads that bring something complete it. */
  lemma ReceivedIff(arrivals: seq<ReadEvent>, r: Response)
    ensures Receive(FRESH, arrivals).result == Ok(r) <==> exists n :: Completes(arrivals, n, r)
  {
    var n := ReceiveEnds(FRESH, arrivals);
    if m: nat :| Completes(arrivals, m, r) { CompletesGives(arrivals, m, r); }
    if Receive(FRESH, arrivals).result == Ok(r) { OkIsComplete(arrivals, n, Receive(FRESH, arrivals)); }
  }

  lemma OkIsComplete(arrivals: seq<ReadEvent>, n: nat, reply: Reply)
    requires EndsAfter(FRESH, arrivals, n, reply) && reply.result.Ok?
    ensures Completes(arrivals, n, reply.result.value)
  {
  }

  // ----- responses that do not arrive whole -----

  /** The event that ends receiving while the parser waits: nothing, an empty read, or a failed one. */
  predicate Stops(tail: seq<ReadEvent>) { tail == [] || tail[0] == Received("") || tail[0].ReadFailed? }

  function StopError(tail: seq<ReadEvent>): ReceiveError {
    if tail != [] && tail[0].ReadFailed? then Transport(tail[0].code) else Protocol(ParseError)
  }

  lemma StoppedWaiting(parts: seq<string>, tail: seq<ReadEvent>)
    requires "" !in parts && !FeedAll(FRESH, parts, AsWritten).Final() && Stops(tail)
    ensures Receive(FRESH, Events(parts) + tail).result == Err(StopError(tail))
  {
    ReceiveGoesOn(FRESH, parts, tail);
  }

  lemma SizedPartsWait(r: Response, parts: seq<string>, missing: string)
    requires WellFormed(r) && ShortLines(r) && Concat(parts) + missing == Print(r) && missing != ""
    ensures !FeedAll(FRESH, parts, AsWritten).Final()
  {
    var a := Concat(parts);
    if parts != [] {
      PrintedFits(r);
      JoinedAppend(FRESH, a, missing);
      ShorterFits(Append(FRESH, a), missing);
      SizedPrefixIsUnchunked(r, a, missing);
      UnchunkedCuts(FRESH, parts);
      AnyCutAgrees(FRESH, parts, AsWritten);
      SizedPrefixWaits(r, a, missing);
    }
  }

  lemma SizedPrefixIsUnchunked(r: Response, a: string, missing: string)
    requires WellFormed(r) && a + missing == Print(r)
    ensures StopPoint(Append(FRESH, a)).phase != BodyChunked
  {
    var q := StopPoint(Append(FRESH, a));
    PrintedStop(r);
    JoinedAppend(FRESH, a, missing);
    StopPointCommutes(Append(FRESH, a), missing);
    if q.phase == BodyChunked { StopPointPhase(Append(q, missing)); }
  }

  /** A sized response of which something is missing is an error: that of the close, or of the failed read. */
  lemma TruncatedIsRefused(r: Response, parts: seq<string>, missing: string, tail: seq<ReadEvent>)
    requires WellFormed(r) && ShortLines(r) && Concat(parts) + missing == Print(r) && missing != ""
    requires "" !in parts && Stops(tail)
    ensures Receive(FRESH, Events(parts) + tail).result == Err(StopError(tail))
  {
    SizedPartsWait(r, parts, missing);
    StoppedWaiting(parts, tail);
  }

  /** So is a chunked one of which more than the final line end is missing. */
  lemma TruncatedChunksAreRefused(r: Response, chunks: seq<Chunk>, last: string, extension: string,
                                  parts: seq<string>, missing: string, tail: seq<ReadEvent>)
    requires Sent(r, chunks, last, extension) && CutsOutsideChunks(FRESH, parts)
    requires Concat(parts) + missing == PrintChunked(r, chunks, last, extension) && |missing| > 2
    requires "" !in parts && Stops(tail)
    ensures Receive(FRESH, Events(parts) + tail).result == Err(StopError(tail))
  {
    var a := Concat(parts);
    if parts != [] {
      ChunkedFits(r, chunks, last, extension);
      JoinedAppend(FRESH, a, missing);
      ShorterFits(Append(FRESH, a), missing);
      AnyCutAgrees(FRESH, parts, AsWritten);
      ChunkedPrefixIff(r, chunks, last, extension, a, missing);
    }
    StoppedWaiting(parts, tail);
  }
}
