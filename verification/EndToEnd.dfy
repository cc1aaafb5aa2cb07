/** Receiving a response over a connection that delivers it in arbitrary pieces. */
module EndToEnd {
  import opened Wrappers
  import opened Text
  import opened Headers
  import opened ParserSpec
  import opened Fragmentation
  import opened ReadBack
  import opened ResponseParser

  /** What one read from the peer yields; an empty read means that the peer has closed. */
  datatype ReadEvent = Received(bytes: string) | ReadFailed(code: int)

  datatype ReceiveError = Transport(code: int) | Protocol(error: ErrorCode)

  /** What receiving yields, and the reads that are still to come on the connection. */
  datatype Reply = Reply(result: Result<Response, ReceiveError>, unread: seq<ReadEvent>)

  /** Reads until the parser is done; a peer with nothing more to say has closed. */
  ghost function Receive(p: Parser, arrivals: seq<ReadEvent>): Reply
    decreases |arrivals|
  {
    if p.phase == Complete then Reply(Ok(p.response), arrivals)
    else if p.phase == Failed || arrivals == [] then Reply(Err(Protocol(ParseError)), arrivals)
    else
      match arrivals[0]
      case ReadFailed(code) => Reply(Err(Transport(code)), arrivals[1..])
      case Received(bytes) =>
        if bytes == "" then Reply(Err(Protocol(ParseError)), arrivals[1..])
        else
          var next := Feed(p, bytes, AsWritten);
          if next.phase == Failed then Reply(Err(Protocol(CodeOf(next.fault))), arrivals[1..])
          else Receive(next, arrivals[1..])
  }

  /**
   The receive loop of the client. The receive buffer only carries one read to the parser, so it
   is represented by the bytes of that read.
   */
  method ReceiveResponse(arrivals: seq<ReadEvent>)
    returns (r: Result<Response, ReceiveError>, unread: seq<ReadEvent>)
    ensures Reply(r, unread) == Receive(FRESH, arrivals)
  {
    var parser := new HttpParser();
    var i := 0;
    while parser.phase != Complete && parser.phase != Failed
      invariant fresh(parser) && fresh(parser.headers) && fresh(parser.body) && fresh(parser.body.data)
      invariant parser.Valid() && parser.body.data.Length >= 1
      invariant 0 <= i <= |arrivals| && parser.phase != Failed
      invariant Receive(FRESH, arrivals) == Receive(parser.State(), arrivals[i..])
      decreases |arrivals| - i
    {
      if i == |arrivals| { return Err(Protocol(ParseError)), []; }
      unread := arrivals[i + 1..];
      assert arrivals[i..][1..] == unread;
      if arrivals[i] == Received("") { return Err(Protocol(ParseError)), unread; }
      if arrivals[i].ReadFailed? { return Err(Transport(arrivals[i].code)), unread; }
      var error := parser.Feed(arrivals[i].bytes);
      if error.Some? { return Err(Protocol(error.value)), unread; }
      i := i + 1;
    }
    var response := parser.TakeResponse();
    return Ok(response), arrivals[i..];
  }

  function Events(parts: seq<string>): seq<ReadEvent> {
    if parts == [] then [] else [Received(parts[0])] + Events(parts[1..])
  }

  lemma EventsStep(parts: seq<string>, later: seq<ReadEvent>)
    requires parts != []
    ensures Events(parts) + later == [Received(parts[0])] + (Events(parts[1..]) + later)
  {
  }

  lemma PartsStep(parts: seq<string>)
    requires parts != [] && "" !in parts
    ensures parts[0] != "" && "" !in parts[1..]
  {
    assert parts[0] in parts;
  }

  lemma ReceiveStep(p: Parser, bytes: string, tail: seq<ReadEvent>)
    requires !p.Final() && bytes != "" && Feed(p, bytes, AsWritten).phase != Failed
    ensures Receive(p, [Received(bytes)] + tail) == Receive(Feed(p, bytes, AsWritten), tail)
  {
    assert ([Received(bytes)] + tail)[1..] == tail;
  }

  /** How many of the reads the parser takes before it is done. */
  ghost function Used(p: Parser, parts: seq<string>): (n: nat)
    ensures n <= |parts|
    decreases |parts|
  {
    if p.Final() || parts == [] then 0 else 1 + Used(Feed(p, parts[0], AsWritten), parts[1..])
  }

  /** Reads that bring the parser to completion yield its response; the reads after that stay unread. */
  lemma {:induction false} ReceiveCompletes(p: Parser, parts: seq<string>, later: seq<ReadEvent>)
    requires p.phase != Failed && "" !in parts
    requires FeedAll(p, parts, AsWritten).phase == Complete
    ensures Receive(p, Events(parts) + later)
      == Reply(Ok(FeedAll(p, parts, AsWritten).response), Events(parts[Used(p, parts)..]) + later)
    decreases |parts|
  {
    if p.phase == Complete {
      FinalStays(p, parts, AsWritten);
      assert parts[0..] == parts;
    } else if parts != [] {
      var bytes, rest := parts[0], parts[1..];
      PartsStep(parts);
      var next := Feed(p, bytes, AsWritten);
      assert FeedAll(p, parts, AsWritten) == FeedAll(next, rest, AsWritten);
      if next.phase == Failed { FinalStays(next, rest, AsWritten); }
      EventsStep(parts, later);
      ReceiveStep(p, bytes, Events(rest) + later);
      ReceiveCompletes(next, rest, later);
      assert parts[1 + Used(next, rest)..] == rest[Used(next, rest)..];
    }
  }

  /** The parser is done after the first `k` reads exactly when it uses no more than those. */
  lemma {:induction false} DoneAfter(p: Parser, parts: seq<string>, k: nat)
    requires k <= |parts| && FeedAll(p, parts, AsWritten).Final()
    ensures FeedAll(p, parts[..k], AsWritten).Final() <==> Used(p, parts) <= k
    decreases |parts|
  {
    if p.Final() {
      FinalStays(p, parts[..k], AsWritten);
    } else if k > 0 {
      assert parts[..k][0] == parts[0] && parts[..k][1..] == parts[1..][..k - 1];
      DoneAfter(Feed(p, parts[0], AsWritten), parts[1..], k - 1);
    }
  }

  // ----- the printed head fits the line limit -----

  lemma {:induction false} HeaderLinesFit(p: Parser, fields: seq<Field>, rest: string)
    requires p.phase == HeaderLines && AllPrintable(fields)
    requires forall i :: 0 <= i < |fields| ==> |FieldLine(fields[i])| < MAX_HEADER_BUFFER
    requires p.buffer == HeaderBlock(fields) + rest
    requires LinesFit(WithFields(p, fields, rest))
    ensures LinesFit(p)
    decreases |fields|
  {
    if fields == [] {
      assert p.response.fields + fields == p.response.fields;
      assert p.buffer == rest;
    } else {
      var f, tail := fields[0], HeaderBlock(fields[1..]) + rest;
      BlockSplits(fields, rest);
      FieldLineAdvances(p, f, tail);
      LineEndsAtCrlf(FieldLine(f), tail);
      FieldsJoin(p, fields, tail, rest);
      HeaderLinesFit(WithFields(p, [f], tail), fields[1..], rest);
    }
  }

  lemma BlankLineFits(p: Parser, rest: string)
    requires p.phase == HeaderLines && p.buffer == "\r\n" + rest && LinesFit(BeginBody(p.(buffer := rest)))
    ensures LinesFit(p)
  {
    BlankLineAdvances(p, rest);
    LineEndsAtCrlf("", rest);
    assert "" + "\r\n" + rest == p.buffer;
  }

  lemma StatusLineFits(p: Parser, status: nat, reason: string, tail: string)
    requires p.phase == StatusLine && 100 <= status <= 599 && !HasCrlf(StatusText(status, reason))
    requires p.buffer == StatusText(status, reason) + "\r\n" + tail && |StatusText(status, reason)| < MAX_HEADER_BUFFER
    requires LinesFit(p.(phase := HeaderLines, response := p.response.(status := status, reason := reason),
          buffer := tail))
    ensures LinesFit(p)
  {
    StatusTextAdvances(p, status, reason, tail);
    LineEndsAtCrlf(StatusText(status, reason), tail);
  }

  lemma HeadFits(r: Response, rest: string)
    requires PrintableHead(r) && ShortLines(r)
    requires LinesFit(AfterHead(r, rest))
    ensures LinesFit(Append(FRESH, PrintHead(r) + rest))
  {
    var tail := HeaderBlock(r.fields) + ("\r\n" + rest);
    var p := Append(FRESH, PrintHead(r) + rest);
    HeadSplits(r, rest);
    var p1 := p.(phase := HeaderLines, response := p.response.(status := r.status, reason := r.reason), buffer := tail);
    var p2 := FRESH.(phase := HeaderLines, response := r.(body := ""), buffer := "\r\n" + rest);
    assert WithFields(p1, r.fields, "\r\n" + rest) == p2 by { assert [] + r.fields == r.fields; }
    BlankLineFits(p2, rest);
    HeaderLinesFit(p1, r.fields, "\r\n" + rest);
    StatusLineFits(p, r.status, r.reason, tail);
  }

  lemma HeadSplits(r: Response, rest: string)
    ensures Append(FRESH, PrintHead(r) + rest).buffer
      == StatusText(r.status, r.reason) + "\r\n" + (HeaderBlock(r.fields) + ("\r\n" + rest))
  {
  }

  // ----- responses with a Content-Length -----

  /** A response whose printed form announces the length of its body. */
  ghost predicate WellFormed(r: Response) {
    PrintableHead(r) && !IsChunked(r.fields) && ContentLength(r.fields) == Some(|r.body|)
  }

  function Print(r: Response): string { PrintHead(r) + r.body }

  /** The parser stops with the whole body before it. */
  lemma PrintedStop(r: Response)
    requires WellFormed(r)
    ensures var q := StopPoint(Append(FRESH, Print(r)));
      q.phase == BodyRaw && q.remaining == |r.body| && q.buffer == r.body && q.response == r.(body := "")
  {
    HeadReads(r, r.body);
    NoRoundsInBody(AfterHead(r, r.body));
  }

  lemma WholeBodyCompletes(q: Parser)
    requires q.phase == BodyRaw && q.remaining == |q.buffer| && q.response.body == ""
    ensures var p := Settle(q, AsWritten);
      p.phase == Complete && p.response == q.response.(body := q.buffer) && p.buffer == ""
  {
    SettleIsTakeBody(q, AsWritten);
    assert "" + q.buffer[..|q.buffer|] == q.buffer;
  }

  /** Fed at once, a printed response is complete and equal to what was printed. */
  lemma PrintedIsRead(r: Response)
    requires WellFormed(r)
    ensures var p := Feed(FRESH, Print(r), AsWritten);
      p.phase == Complete && p.response == r && p.buffer == ""
  {
    var q := StopPoint(Append(FRESH, Print(r)));
    PrintedStop(r);
    WholeBodyCompletes(q);
    assert Feed(FRESH, Print(r), AsWritten) == Settle(q, AsWritten);
  }

  lemma {:induction false} UnchunkedCuts(p: Parser, parts: seq<string>)
    requires !p.Final() ==> StopPoint(Append(p, Concat(parts))).phase != BodyChunked
    ensures CutsOutsideChunks(p, parts)
    decreases |parts|
  {
    if |parts| > 1 {
      var a, rest := parts[0], Concat(parts[1..]);
      var p1 := Feed(p, a, AsWritten);
      if !p.Final() {
        JoinedAppend(p, a, rest);
        var q := StopPoint(Append(p, a));
        StopPointCommutes(Append(p, a), rest);
        if q.phase == BodyChunked { StopPointPhase(Append(q, rest)); }
        if !p1.Final() {
          SettledUnchanged(q, AsWritten);
          if q.phase == BodyRaw || q.phase == BodyUntilEof { NoRoundsInBody(Append(p1, rest)); }
        }
      }
      UnchunkedCuts(p1, parts[1..]);
    }
  }

  /**
   End to end: for every way of cutting a printed response into non-empty reads, receiving it
   returns exactly its status, reason, ordered fields and body, and leaves alone what comes later.
   */
  lemma ReceiveReturnsWhatWasSent(r: Response, parts: seq<string>, later: seq<ReadEvent>)
    requires WellFormed(r) && ShortLines(r)
    requires Concat(parts) == Print(r) && "" !in parts
    ensures Receive(FRESH, Events(parts) + later) == Reply(Ok(r), later)
  {
    SizedFedInParts(r, parts);
    ReceiveCompletes(FRESH, parts, later);
    SizedUsesAll(r, parts);
    assert Events(parts[|parts|..]) + later == later;
  }

  lemma SizedFedInParts(r: Response, parts: seq<string>)
    requires WellFormed(r) && ShortLines(r) && Concat(parts) == Print(r)
    ensures parts != [] && FeedAll(FRESH, parts, AsWritten).phase == Complete
    ensures FeedAll(FRESH, parts, AsWritten).response == r
  {
    SizedCuts(r, parts);
    PrintedIsRead(r);
    AnyCutAgrees(FRESH, parts, AsWritten);
  }

  lemma PrintedFits(r: Response)
    requires WellFormed(r) && ShortLines(r)
    ensures LinesFit(Append(FRESH, Print(r)))
  {
    LinesFitInBody(AfterHead(r, r.body));
    HeadFits(r, r.body);
  }

  // ----- how much of the connection is used -----

  /** Feeding some first parts is feeding their bytes, for a stream that may be cut as it is. */
  lemma {:induction false} FirstPartsFit(p: Parser, parts: seq<string>, k: nat)
    requires k <= |parts| && CutsOutsideChunks(p, parts)
    ensures CutsOutsideChunks(p, parts[..k])
    decreases |parts|
  {
    if k > 1 {
      assert parts[..k][0] == parts[0] && parts[..k][1..] == parts[1..][..k - 1];
      FirstPartsFit(Feed(p, parts[0], AsWritten), parts[1..], k - 1);
    }
  }

  lemma {:induction false} ShorterFits(p: Parser, more: string)
    requires LinesFit(Append(p, more))
    ensures LinesFit(p)
    decreases |p.buffer|
  {
    if HasCrlf(p.buffer) { LinesCommute(p.buffer, more); }
    if Advance(p).Some? {
      AdvanceCommutes(p, more);
      ShorterFits(Advance(p).value, more);
    }
  }

  lemma {:induction false} ConcatSplits(parts: seq<string>, k: nat)
    requires k <= |parts|
    ensures Concat(parts[..k]) + Concat(parts[k..]) == Concat(parts)
  {
    if k == 0 {
      assert parts[..0] == [] && parts[0..] == parts;
    } else {
      assert parts[..k][0] == parts[0] && parts[..k][1..] == parts[1..][..k - 1];
      assert parts[1..][k - 1..] == parts[k..];
      ConcatSplits(parts[1..], k - 1);
    }
  }

  lemma FirstPartsAgree(p: Parser, parts: seq<string>, k: nat)
    requires !p.Final() && 0 < k <= |parts| && LinesFit(Append(p, Concat(parts))) && CutsOutsideChunks(p, parts)
    ensures Agree(FeedAll(p, parts[..k], AsWritten), Feed(p, Concat(parts[..k]), AsWritten))
  {
    ConcatSplits(parts, k);
    JoinedAppend(p, Concat(parts[..k]), Concat(parts[k..]));
    ShorterFits(Append(p, Concat(parts[..k])), Concat(parts[k..]));
    FirstPartsFit(p, parts, k);
    AnyCutAgrees(p, parts[..k], AsWritten);
  }

  /** A status or header line that is refused stays refused, so no body is ever reached. */
  lemma RefusedStays(p: Parser, a: string, b: string)
    requires !p.Final() && LinesFit(Append(p, a + b))
    requires var q := StopPoint(Append(p, a));
      (q.phase == StatusLine || q.phase == HeaderLines) && Settle(q, AsWritten).Final()
    ensures StopPoint(Append(p, a + b)) == Append(StopPoint(Append(p, a)), b)
  {
    var q := StopPoint(Append(p, a));
    JoinedAppend(p, a, b);
    StopPointCommutes(Append(p, a), b);
    if Overflows(p, a) { CutsAreShort(p, a, b); }
    UnreadableStays(q, b, AsWritten);
  }

  /** A body of which bytes are still missing. */
  lemma MissingBodyWaits(q: Parser, b: string)
    requires b != "" && (q.phase == BodyUntilEof || (q.phase == BodyRaw && q.remaining == |q.buffer| + |b|))
    ensures !Settle(q, AsWritten).Final()
  {
    if q.phase == BodyRaw { SettleIsTakeBody(q, AsWritten); }
  }

  /** A stop point from which later bytes lead to a sized body is not the end. */
  lemma LeadsToBody(q: Parser, b: string)
    requires !q.Final() && b != "" && StopPoint(Append(q, b)).phase == BodyRaw
    requires var t := StopPoint(Append(q, b)); t.remaining == |t.buffer|
    requires Settle(q, AsWritten).Final() && (q.phase == StatusLine || q.phase == HeaderLines)
      ==> StopPoint(Append(q, b)) == Append(q, b)
    ensures !Settle(q, AsWritten).Final()
  {
    match q.phase
    case BodyRaw =>
      NoRoundsInBody(Append(q, b));
      MissingBodyWaits(q, b);
    case BodyUntilEof => MissingBodyWaits(q, b);
    case BodyChunked => StopPointPhase(Append(q, b));
    case _ =>
  }

  /** A printed response is complete with its last byte and not before. */
  lemma SizedPrefixWaits(r: Response, a: string, b: string)
    requires WellFormed(r) && ShortLines(r) && a + b == Print(r) && b != ""
    ensures !Feed(FRESH, a, AsWritten).Final()
  {
    var q := StopPoint(Append(FRESH, a));
    PrintedFits(r);
    PrintedStop(r);
    StopPointCommutes(Append(FRESH, a), b);
    JoinedAppend(FRESH, a, b);
    StopPointPhase(Append(FRESH, a));
    if Settle(q, AsWritten).Final() && (q.phase == StatusLine || q.phase == HeaderLines) { RefusedStays(FRESH, a, b); }
    LeadsToBody(q, b);
  }

  /** The last read is used, unless what came before it was enough. */
  lemma UsesAllIfWaiting(p: Parser, parts: seq<string>)
    requires !p.Final() && parts != [] && LinesFit(Append(p, Concat(parts))) && CutsOutsideChunks(p, parts)
    requires FeedAll(p, parts, AsWritten).Final()
    requires !Feed(p, Concat(parts[..|parts| - 1]), AsWritten).Final()
    ensures Used(p, parts) == |parts|
  {
    var k := |parts| - 1;
    DoneAfter(p, parts, k);
    if k > 0 { FirstPartsAgree(p, parts, k); }
  }

  lemma SizedCuts(r: Response, parts: seq<string>)
    requires WellFormed(r) && ShortLines(r) && Concat(parts) == Print(r)
    ensures parts != [] && CutsOutsideChunks(FRESH, parts) && LinesFit(Append(FRESH, Concat(parts)))
  {
    PrintedStop(r);
    PrintedFits(r);
    PrintIsNotEmpty(r);
    UnchunkedCuts(FRESH, parts);
  }

  lemma SizedUsesAll(r: Response, parts: seq<string>)
    requires WellFormed(r) && ShortLines(r) && Concat(parts) == Print(r) && "" !in parts
    requires parts != [] && FeedAll(FRESH, parts, AsWritten).Final()
    ensures Used(FRESH, parts) == |parts|
  {
    var k := |parts| - 1;
    SizedCuts(r, parts);
    ConcatSplits(parts, k);
    assert parts[k] in parts && Concat(parts[k..]) != "";
    SizedPrefixWaits(r, Concat(parts[..k]), Concat(parts[k..]));
    UsesAllIfWaiting(FRESH, parts);
  }

  // ----- responses without a length -----

  lemma {:induction false} NothingReceivedUntilEof(p: Parser, arrivals: seq<ReadEvent>)
    requires p.phase == BodyUntilEof
    ensures Receive(p, arrivals).result.Err?
    decreases |arrivals|
  {
    if arrivals != [] && arrivals[0].Received? && arrivals[0].bytes != "" {
      NoRoundsInBody(Append(p, arrivals[0].bytes));
      NothingReceivedUntilEof(Feed(p, arrivals[0].bytes, AsWritten), arrivals[1..]);
    }
  }

  /** Reads that leave the parser waiting are passed over to the reads after them. */
  lemma {:induction false} ReceiveGoesOn(p: Parser, parts: seq<string>, later: seq<ReadEvent>)
    requires "" !in parts && !FeedAll(p, parts, AsWritten).Final()
    ensures Receive(p, Events(parts) + later) == Receive(FeedAll(p, parts, AsWritten), later)
    decreases |parts|
  {
    if parts == [] {
      assert Events(parts) + later == later;
    } else {
      var bytes, rest := parts[0], parts[1..];
      PartsStep(parts);
      if p.Final() { FinalStays(p, parts, AsWritten); }
      var next := Feed(p, bytes, AsWritten);
      assert FeedAll(p, parts, AsWritten) == FeedAll(next, rest, AsWritten);
      if next.Final() { FinalStays(next, rest, AsWritten); }
      EventsStep(parts, later);
      ReceiveStep(p, bytes, Events(rest) + later);
      ReceiveGoesOn(next, rest, later);
    }
  }

  lemma UntilEofWaits(q: Parser)
    requires q.phase == BodyUntilEof
    ensures Settle(q, AsWritten).phase == BodyUntilEof
  {
  }

  lemma UnsizedHeadReads(r: Response)
    requires PrintableHead(r) && !IsChunked(r.fields) && ContentLength(r.fields).None?
    ensures StopPoint(Append(FRESH, Print(r))).phase == BodyUntilEof
    ensures Feed(FRESH, Print(r), AsWritten).phase == BodyUntilEof
  {
    var q := AfterHead(r, r.body);
    HeadReads(r, r.body);
    assert q.phase == BodyUntilEof;
    NoRoundsInBody(q);
    assert StopPoint(Append(FRESH, Print(r))) == q;
    UntilEofWaits(q);
  }

  /** A stop point from which later bytes lead to an unsized body: refused, kept, or there already. */
  lemma LeadsToUnsized(q: Parser, more: string)
    requires !q.Final() && Advance(q).None? && StopPoint(Append(q, more)).phase == BodyUntilEof
    ensures var p := Settle(q, AsWritten);
      p.phase == Failed || p.phase == BodyUntilEof || (p == q && !p.Final() && more != "")
  {
    assert Append(q, "") == q;
    if q.phase == BodyRaw {
      NoRoundsInBody(Append(q, more));
    } else if q.phase == BodyChunked {
      StopPointPhase(Append(q, more));
    } else if q.phase == BodyUntilEof {
      UntilEofWaits(q);
    } else if !Settle(q, AsWritten).Final() {
      SettledUnchanged(q, AsWritten);
    }
  }

  lemma FeedsToUnsized(p: Parser, a: string, rest: string)
    requires !p.Final() && StopPoint(Append(p, a + rest)).phase == BodyUntilEof
    ensures var q := Feed(p, a, AsWritten);
      || q.phase == Failed
      || (!q.Final() && StopPoint(Append(q, rest)).phase == BodyUntilEof && (rest == "" ==> q.phase == BodyUntilEof))
  {
    var q := StopPoint(Append(p, a));
    JoinedAppend(p, a, rest);
    StopPointCommutes(Append(p, a), rest);
    StopPointPhase(Append(p, a));
    LeadsToUnsized(q, rest);
    if Settle(q, AsWritten).phase == BodyUntilEof { NoRoundsInBody(Append(Settle(q, AsWritten), rest)); }
  }

  /** Whatever the cuts, the parser has refused a line that was too long, or collects the body. */
  lemma {:induction false} UnsizedFedInParts(p: Parser, parts: seq<string>)
    requires !p.Final() && parts != [] && StopPoint(Append(p, Concat(parts))).phase == BodyUntilEof
    ensures var q := FeedAll(p, parts, AsWritten); q.phase == Failed || q.phase == BodyUntilEof
    decreases |parts|
  {
    var next := Feed(p, parts[0], AsWritten);
    FeedsToUnsized(p, parts[0], Concat(parts[1..]));
    if next.phase == Failed {
      FinalStays(next, parts[1..], AsWritten);
    } else if |parts| > 1 {
      UnsizedFedInParts(next, parts[1..]);
    }
  }

  /** Reads that make the parser fail make receiving fail. */
  lemma {:induction false} ReceiveFails(p: Parser, parts: seq<string>, later: seq<ReadEvent>)
    requires "" !in parts && FeedAll(p, parts, AsWritten).phase == Failed
    ensures Receive(p, Events(parts) + later).result.Err?
    decreases |parts|
  {
    if p.Final() {
      FinalStays(p, parts, AsWritten);
    } else if parts != [] {
      var next := Feed(p, parts[0], AsWritten);
      PartsStep(parts);
      EventsStep(parts, later);
      FailingRead(p, parts[0], Events(parts[1..]) + later);
      if next.phase != Failed {
        ReceiveStep(p, parts[0], Events(parts[1..]) + later);
        ReceiveFails(next, parts[1..], later);
      }
    }
  }

  lemma FailingRead(p: Parser, bytes: string, tail: seq<ReadEvent>)
    requires !p.Final() && bytes != ""
    ensures Feed(p, bytes, AsWritten).phase == Failed ==> Receive(p, [Received(bytes)] + tail).result.Err?
  {
    assert ([Received(bytes)] + tail)[0] == Received(bytes);
  }

  lemma PrintIsNotEmpty(r: Response)
    ensures Print(r) != ""
  {
    assert |StatusText(r.status, r.reason)| > 0;
  }

  /**
   A response that is neither chunked nor has a usable length is never returned, however it is cut
   and however the peer goes on: not even when it closes the connection to mark the end.
   */
  lemma UnsizedResponseIsNeverReturned(r: Response, parts: seq<string>, later: seq<ReadEvent>)
    requires PrintableHead(r) && !IsChunked(r.fields) && ContentLength(r.fields).None?
    requires Concat(parts) == Print(r) && "" !in parts
    ensures Receive(FRESH, Events(parts) + later).result.Err?
  {
    UnsizedHeadReads(r);
    PrintIsNotEmpty(r);
    UnsizedFedInParts(FRESH, parts);
    if FeedAll(FRESH, parts, AsWritten).phase == Failed {
      ReceiveFails(FRESH, parts, later);
    } else {
      ReceiveGoesOn(FRESH, parts, later);
      NothingReceivedUntilEof(FeedAll(FRESH, parts, AsWritten), later);
    }
  }
}
