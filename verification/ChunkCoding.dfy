/** The chunked coding of section 7.1 of RFC 9112, read back by the parser. */
module ChunkCoding {
  import opened Wrappers
  import opened Text
  import opened Headers
  import opened ParserSpec
  import opened Fragmentation
  import opened ReadBack
  import opened EndToEnd

  /** A chunk as a sender writes it: any spelling of the size, an optional extension, the data. */
  datatype Chunk = Chunk(size: string, extension: string, data: string)

  /** Hexadecimal digits of either case, leading zeros allowed. */
  predicate Spells(size: string, n: nat) {
    size != "" && AllDigits(size, 16) && ValueOf(size, 16) == n
  }

  predicate SizeLine(size: string, extension: string, n: nat) {
    && Spells(size, n)
    && (extension == "" || extension[0] == ';')
    && !HasCrlf(size + extension)
  }

  predicate ValidChunk(c: Chunk) {
    0 < |c.data| <= MAX_CHUNK_SIZE && SizeLine(c.size, c.extension, |c.data|)
  }

  predicate AllValid(chunks: seq<Chunk>) { forall i :: 0 <= i < |chunks| ==> ValidChunk(chunks[i]) }

  /** The chunks, then the last chunk (size zero) and the blank line. */
  function Encode(chunks: seq<Chunk>, last: string, extension: string): string {
    if chunks == [] then last + extension + "\r\n" + "\r\n"
    else
      var c := chunks[0];
      c.size + c.extension + "\r\n" + (c.data + "\r\n" + Encode(chunks[1..], last, extension))
  }

  function Data(chunks: seq<Chunk>): string {
    if chunks == [] then "" else chunks[0].data + Data(chunks[1..])
  }

  lemma NoSpacesToSkip(s: string)
    requires s != "" && s[0] != ' '
    ensures SkipSpaces(s) == s
  {
  }

  /** A size line announces the size it spells. */
  lemma SizeLineReads(size: string, extension: string, n: nat)
    requires SizeLine(size, extension, n) && n <= MAX_CHUNK_SIZE
    ensures ParseChunkLine(size + extension) == Ok(n)
  {
    var line := size + extension;
    assert ';' !in size;
    if extension == "" {
      assert line == size;
      FindNothing(size, ';');
    } else {
      assert line == size + [';'] + extension[1..];
      FindSplits(size, ';', extension[1..]);
    }
    assert line[..Find(line, ';')] == size;
    assert DigitValue(size[0]) < 16;
    NoSpacesToSkip(size);
    FromCharsReads(size, "", 16, SIZE_LIMIT);
    assert size + "" == size;
  }

  function WithBody(p: Parser, data: string, buffer: string): Parser {
    p.(response := p.response.(body := p.response.body + data), buffer := buffer)
  }

  lemma ChunkAdvances(p: Parser, c: Chunk, rest: string)
    requires p.phase == BodyChunked && ValidChunk(c)
    requires p.buffer == c.size + c.extension + "\r\n" + (c.data + "\r\n" + rest)
    ensures Advance(p) == Some(WithBody(p, c.data, rest))
  {
    var after := c.data + "\r\n" + rest;
    LineEndsAtCrlf(c.size + c.extension, after);
    SizeLineReads(c.size, c.extension, |c.data|);
    assert after[..|c.data|] == c.data && after[|c.data| + 2..] == rest;
    assert TakeChunk(p, Ok(|c.data|), after) == Some(WithBody(p, c.data, rest));
  }

  lemma LastChunkSettles(p: Parser, last: string, extension: string, mode: EraseMode)
    requires p.phase == BodyChunked && SizeLine(last, extension, 0)
    requires p.buffer == last + extension + "\r\n" + "\r\n"
    ensures Advance(p).None? && Settle(p, mode) == p.(phase := Complete, buffer := "")
  {
    LineEndsAtCrlf(last + extension, "\r\n");
    SizeLineReads(last, extension, 0);
    assert "\r\n"[2..] == "";
    assert SettleChunk(p, Ok(0), "\r\n", mode) == p.(phase := Complete, buffer := "");
  }

  lemma BodiesJoin(p: Parser, chunks: seq<Chunk>, mid: string, rest: string)
    requires chunks != []
    ensures WithBody(WithBody(p, chunks[0].data, mid), Data(chunks[1..]), rest) == WithBody(p, Data(chunks), rest)
  {
    assert p.response.body + chunks[0].data + Data(chunks[1..]) == p.response.body + Data(chunks);
  }

  /** The last size line and the blank line after it. */
  function Ending(last: string, extension: string): string { last + extension + "\r\n" + "\r\n" }

  /** The loop over an encoded body takes every chunk and stops before the last size line. */
  lemma {:induction false} EncodedStops(p: Parser, chunks: seq<Chunk>, last: string, extension: string)
    requires p.phase == BodyChunked && p.buffer == Encode(chunks, last, extension)
    requires AllValid(chunks) && SizeLine(last, extension, 0)
    ensures StopPoint(p) == WithBody(p, Data(chunks), Ending(last, extension))
    decreases |chunks|
  {
    if chunks == [] {
      LastChunkSettles(p, last, extension, AsWritten);
      assert p.response.body + "" == p.response.body;
    } else {
      var rest := Encode(chunks[1..], last, extension);
      ChunkAdvances(p, chunks[0], rest);
      EncodedStops(WithBody(p, chunks[0].data, rest), chunks[1..], last, extension);
      BodiesJoin(p, chunks, rest, Ending(last, extension));
    }
  }

  /** Reading an encoded body completes with the concatenation of the chunks. */
  lemma EncodedIsRead(p: Parser, chunks: seq<Chunk>, last: string, extension: string, mode: EraseMode)
    requires p.phase == BodyChunked && p.buffer == Encode(chunks, last, extension)
    requires AllValid(chunks) && SizeLine(last, extension, 0)
    ensures Settle(StopPoint(p), mode) == WithBody(p, Data(chunks), "").(phase := Complete)
  {
    EncodedStops(p, chunks, last, extension);
    LastChunkSettles(StopPoint(p), last, extension, mode);
  }

  /** The inverse law for one `feed` of a whole chunked body. */
  lemma ChunkedRoundTrip(p: Parser, chunks: seq<Chunk>, last: string, extension: string)
    requires p.phase == BodyChunked && p.buffer == ""
    requires AllValid(chunks) && SizeLine(last, extension, 0)
    ensures var q := Feed(p, Encode(chunks, last, extension), AsWritten);
      q.phase == Complete && q.buffer == "" && q.response == p.response.(body := p.response.body + Data(chunks))
  {
    var coded := Encode(chunks, last, extension);
    var fed := Append(p, coded);
    assert fed.buffer == coded;
    EncodedIsRead(fed, chunks, last, extension, AsWritten);
    assert Feed(p, coded, AsWritten) == Settle(StopPoint(fed), AsWritten);
  }

  // ----- whole responses -----

  /** The bytes of a response whose body is sent in chunks. */
  function PrintChunked(r: Response, chunks: seq<Chunk>, last: string, extension: string): string {
    PrintHead(r) + Encode(chunks, last, extension)
  }

  lemma {:induction false} ChunksFit(p: Parser)
    requires p.phase == BodyChunked
    ensures LinesFit(p)
    decreases |p.buffer|
  {
    if Advance(p).Some? { ChunksFit(Advance(p).value); }
  }

  lemma ChunkedFedAtOnce(r: Response, chunks: seq<Chunk>, last: string, extension: string, mode: EraseMode)
    requires PrintableHead(r) && IsChunked(r.fields) && r.body == Data(chunks)
    requires AllValid(chunks) && SizeLine(last, extension, 0)
    ensures var p := Feed(FRESH, PrintChunked(r, chunks, last, extension), mode);
      p.phase == Complete && p.response == r
  {
    var coded := Encode(chunks, last, extension);
    var q := AfterHead(r, coded);
    var p := Append(FRESH, PrintChunked(r, chunks, last, extension));
    HeadReads(r, coded);
    assert Feed(FRESH, PrintChunked(r, chunks, last, extension), mode) == Settle(StopPoint(q), mode);
    EncodedIsRead(q, chunks, last, extension, mode);
    assert WithBody(q, Data(chunks), "").response == r by { assert "" + Data(chunks) == r.body; }
  }

  /**
   A chunked response is read back from any pieces that do not cut a chunk after its size line;
   the variant that keeps the size line reads it back from any pieces at all.
   */
  lemma ChunkedResponseIsRead(r: Response, chunks: seq<Chunk>, last: string, extension: string,
                              parts: seq<string>, mode: EraseMode)
    requires PrintableHead(r) && ShortLines(r) && IsChunked(r.fields) && r.body == Data(chunks)
    requires AllValid(chunks) && SizeLine(last, extension, 0)
    requires Concat(parts) == PrintChunked(r, chunks, last, extension)
    requires mode == AsWritten ==> CutsOutsideChunks(FRESH, parts)
    ensures var p := FeedAll(FRESH, parts, mode); p.phase == Complete && p.response == r
    ensures parts != []
  {
    ChunkedFedAtOnce(r, chunks, last, extension, mode);
    ChunksFit(AfterHead(r, Encode(chunks, last, extension)));
    HeadFits(r, Encode(chunks, last, extension));
    assert parts != [] by { assert |PrintChunked(r, chunks, last, extension)| > 0; }
    AnyCutAgrees(FRESH, parts, mode);
  }

  // ----- the end of a chunked response on a connection that stays open -----

  /** A chunked response as it is sent. */
  ghost predicate Sent(r: Response, chunks: seq<Chunk>, last: string, extension: string) {
    && PrintableHead(r) && ShortLines(r) && IsChunked(r.fields) && r.body == Data(chunks)
    && AllValid(chunks) && SizeLine(last, extension, 0)
  }

  lemma ChunkedStop(r: Response, chunks: seq<Chunk>, last: string, extension: string)
    requires Sent(r, chunks, last, extension)
    ensures var q := StopPoint(Append(FRESH, PrintChunked(r, chunks, last, extension)));
      q.phase == BodyChunked && q.buffer == Ending(last, extension)
  {
    var coded := Encode(chunks, last, extension);
    HeadReads(r, coded);
    EncodedStops(AfterHead(r, coded), chunks, last, extension);
  }

  lemma ChunkedFits(r: Response, chunks: seq<Chunk>, last: string, extension: string)
    requires Sent(r, chunks, last, extension)
    ensures LinesFit(Append(FRESH, PrintChunked(r, chunks, last, extension)))
  {
    ChunksFit(AfterHead(r, Encode(chunks, last, extension)));
    HeadFits(r, Encode(chunks, last, extension));
  }

  lemma {:induction false} StopPointShrinks(p: Parser)
    ensures |StopPoint(p).buffer| <= |p.buffer|
    decreases |p.buffer|
  {
    if Advance(p).Some? { StopPointShrinks(Advance(p).value); }
  }

  /** What later bytes set going again ends among those bytes. */
  lemma AdvanceAcross(q: Parser, b: string)
    requires Advance(q).None? && Advance(Append(q, b)).Some?
    ensures |Advance(Append(q, b)).value.buffer| < |b|
  {
    if HasCrlf(q.buffer) { LinesCommute(q.buffer, b); } else { LateCrlf(q.buffer, b); }
  }

  /** A stop point that already holds the last size line keeps it, and is complete. */
  lemma EndingIsThere(q: Parser, b: string, last: string, extension: string)
    requires q.phase == BodyChunked && q.buffer + b == Ending(last, extension) && SizeLine(last, extension, 0)
    ensures HasCrlf(q.buffer) <==> |b| <= 2
    ensures |b| <= 2 ==> Settle(q, AsWritten).phase == Complete
  {
    LineEndsAtCrlf(last + extension, "\r\n");
    if HasCrlf(q.buffer) { LinesCommute(q.buffer, b); }
    if |b| <= 2 {
      assert CrlfAt(Ending(last, extension), |last + extension|);
      assert CrlfAt(q.buffer, |last + extension|);
      assert forall i :: 0 <= i < |q.buffer| ==> q.buffer[i] == Ending(last, extension)[i];
      assert HasCrlf(q.buffer);
      SizeLineReads(last, extension, 0);
      SettleIsSettleChunk(q, AsWritten);
    }
  }

  lemma EndingReached(q: Parser, a: string, b: string, last: string, extension: string)
    requires q == StopPoint(Append(FRESH, a)) && LinesFit(Append(FRESH, a + b)) && SizeLine(last, extension, 0)
    requires var t := StopPoint(Append(q, b)); t.phase == BodyChunked && t.buffer == Ending(last, extension)
    ensures Settle(q, AsWritten).Final() <==> |b| <= 2
  {
    if Advance(Append(q, b)).Some? {
      AdvanceAcross(q, b);
      StopPointShrinks(Advance(Append(q, b)).value);
      StillWaiting(q, a, b);
    } else {
      EndingIsThere(q, b, last, extension);
      SettleIsSettleChunk(q, AsWritten);
    }
  }

  /** The parser is done as soon as the last size line has ended: up to two bytes may be missing. */
  lemma ChunkedPrefixIff(r: Response, chunks: seq<Chunk>, last: string, extension: string, a: string, b: string)
    requires Sent(r, chunks, last, extension) && a + b == PrintChunked(r, chunks, last, extension)
    ensures Feed(FRESH, a, AsWritten).Final() <==> |b| <= 2
  {
    ChunkedStop(r, chunks, last, extension);
    ChunkedFits(r, chunks, last, extension);
    JoinedAppend(FRESH, a, b);
    StopPointCommutes(Append(FRESH, a), b);
    EndingReached(StopPoint(Append(FRESH, a)), a, b, last, extension);
  }

  /** A parser that later bytes set going again has not ended. */
  lemma StillWaiting(q: Parser, a: string, b: string)
    requires q == StopPoint(Append(FRESH, a)) && LinesFit(Append(FRESH, a + b))
    requires Advance(Append(q, b)).Some?
    ensures !Settle(q, AsWritten).Final()
  {
    StopPointPhase(Append(FRESH, a));
    if q.phase == BodyChunked {
      SettleIsSettleChunk(q, AsWritten);
      if HasCrlf(q.buffer) { LinesCommute(q.buffer, b); }
    } else if Settle(q, AsWritten).Final() {
      RefusedStays(FRESH, a, b);
    }
  }

  lemma ChunkedUses(r: Response, chunks: seq<Chunk>, last: string, extension: string, parts: seq<string>, k: nat)
    requires Sent(r, chunks, last, extension) && Concat(parts) == PrintChunked(r, chunks, last, extension)
    requires CutsOutsideChunks(FRESH, parts) && k <= |parts| && FeedAll(FRESH, parts, AsWritten).Final()
    ensures Used(FRESH, parts) <= k <==> |Concat(parts[k..])| <= 2
  {
    DoneAfter(FRESH, parts, k);
    ConcatSplits(parts, k);
    ChunkedFits(r, chunks, last, extension);
    ChunkedPrefixIff(r, chunks, last, extension, Concat(parts[..k]), Concat(parts[k..]));
    if k > 0 {
      FirstPartsAgree(FRESH, parts, k);
    } else {
      assert |PrintHead(r)| > 2;
    }
  }

  /** What the parser leaves of the last line end. */
  lemma ChunkedLeftover(r: Response, chunks: seq<Chunk>, last: string, extension: string, parts: seq<string>)
    requires Sent(r, chunks, last, extension) && Concat(parts) == PrintChunked(r, chunks, last, extension)
    requires CutsOutsideChunks(FRESH, parts) && FeedAll(FRESH, parts, AsWritten).Final()
    ensures Concat(parts[Used(FRESH, parts)..]) in {"", "\n", "\r\n"}
  {
    var k := Used(FRESH, parts);
    ChunkedUses(r, chunks, last, extension, parts, k);
    ConcatSplits(parts, k);
    EncodeEnds(r, chunks, last, extension);
    ShortEnd(Concat(parts[..k]), Concat(parts[k..]));
  }

  lemma ChunkedUsesAllIff(r: Response, chunks: seq<Chunk>, last: string, extension: string, parts: seq<string>)
    requires Sent(r, chunks, last, extension) && Concat(parts) == PrintChunked(r, chunks, last, extension)
    requires CutsOutsideChunks(FRESH, parts) && FeedAll(FRESH, parts, AsWritten).Final() && parts != []
    ensures Used(FRESH, parts) == |parts| <==> |parts[|parts| - 1]| > 2
  {
    var n := |parts| - 1;
    ChunkedUses(r, chunks, last, extension, parts, n);
    assert parts[n..] == [parts[n]] && Concat(parts[n..]) == parts[n];
  }

  /**
   End to end for chunked responses. The response comes back as it was sent; of its last line end,
   what has not come by the time the last size line ends stays on the connection.
   */
  lemma ReceiveReturnsChunkedResponse(r: Response, chunks: seq<Chunk>, last: string, extension: string,
                                      parts: seq<string>, later: seq<ReadEvent>)
    requires Sent(r, chunks, last, extension)
    requires Concat(parts) == PrintChunked(r, chunks, last, extension) && "" !in parts
    requires CutsOutsideChunks(FRESH, parts)
    ensures var reply, k := Receive(FRESH, Events(parts) + later), Used(FRESH, parts);
      && reply == Reply(Ok(r), Events(parts[k..]) + later)
      && Concat(parts[k..]) in {"", "\n", "\r\n"}
      && parts != [] && (reply.unread == later <==> |parts[|parts| - 1]| > 2)
  {
    ChunkedResponseIsRead(r, chunks, last, extension, parts, AsWritten);
    ReceiveCompletes(FRESH, parts, later);
    ChunkedLeftover(r, chunks, last, extension, parts);
    ChunkedUsesAllIff(r, chunks, last, extension, parts);
    EventsLeft(parts, Used(FRESH, parts), later);
  }

  lemma EventsLeft(parts: seq<string>, k: nat, later: seq<ReadEvent>)
    requires k <= |parts|
    ensures Events(parts[k..]) + later == later <==> k == |parts|
  {
    assert k < |parts| ==> |Events(parts[k..]) + later| > |later|;
  }

  lemma ShortEnd(a: string, b: string)
    requires |b| <= 2 <= |a + b| && (a + b)[|a + b| - 2..] == "\r\n"
    ensures b in {"", "\n", "\r\n"}
  {
    var s := a + b;
    assert s[|s| - 2] == '\r' && s[|s| - 1] == '\n';
    assert |b| >= 1 ==> b[|b| - 1] == s[|s| - 1];
    assert |b| == 2 ==> b[0] == s[|s| - 2];
    assert |b| == 1 ==> b == "\n";
    assert |b| == 2 ==> b == "\r\n";
  }

  lemma {:induction false} EncodingEnds(chunks: seq<Chunk>, last: string, extension: string)
    ensures var s := Encode(chunks, last, extension); |s| >= 2 && s[|s| - 2..] == "\r\n"
    decreases |chunks|
  {
    if chunks != [] {
      EncodingEnds(chunks[1..], last, extension);
      var rest := Encode(chunks[1..], last, extension);
      var s := Encode(chunks, last, extension);
      assert s[|s| - |rest|..] == rest;
      assert s[|s| - 2..] == rest[|rest| - 2..];
    }
  }

  lemma EncodeEnds(r: Response, chunks: seq<Chunk>, last: string, extension: string)
    ensures var s := PrintChunked(r, chunks, last, extension); |s| >= 2 && s[|s| - 2..] == "\r\n"
  {
    EncodingEnds(chunks, last, extension);
    var s, coded := PrintChunked(r, chunks, last, extension), Encode(chunks, last, extension);
    assert s[|s| - 2..] == coded[|coded| - 2..];
  }

  /** Waiting for a status line that begins with something else than one. */
  predicate Spoiled(p: Parser) { p.phase == StatusLine && p.buffer != "" && p.buffer[0] != 'H' }

  lemma SpoiledLine(line: string)
    requires line != "" ==> line[0] != 'H'
    ensures ParseStatusLine(line).Err?
  {
    if line != "" && |line| >= 7 { assert line[..7][0] == line[0]; }
  }

  lemma SpoiledStays(p: Parser, data: string)
    requires p.phase == StatusLine && Spoiled(Append(p, data))
    ensures var q := Feed(p, data, AsWritten); q.phase == Failed || Spoiled(q)
  {
    var q := Append(p, data);
    if HasCrlf(q.buffer) { SpoiledLine(FirstLine(q.buffer)); }
    assert Advance(q).None?;
  }

  lemma {:induction false} SpoiledNeverReturns(p: Parser, arrivals: seq<ReadEvent>)
    requires Spoiled(p)
    ensures Receive(p, arrivals).result.Err?
    decreases |arrivals|
  {
    if arrivals != [] && arrivals[0].Received? && arrivals[0].bytes != "" {
      var bytes := arrivals[0].bytes;
      assert Append(p, bytes).buffer[0] == p.buffer[0];
      SpoiledStays(p, bytes);
      if Feed(p, bytes, AsWritten).phase != Failed { SpoiledNeverReturns(Feed(p, bytes, AsWritten), arrivals[1..]); }
    }
  }

  lemma SpoiledFirstRead(bytes: string, tail: seq<ReadEvent>)
    requires bytes != "" && bytes[0] != 'H'
    ensures Receive(FRESH, [Received(bytes)] + tail).result.Err?
  {
    var next, arrivals := Feed(FRESH, bytes, AsWritten), [Received(bytes)] + tail;
    assert Append(FRESH, bytes).buffer == bytes;
    SpoiledStays(FRESH, bytes);
    if next.phase == Failed {
      assert arrivals[0] == Received(bytes);
    } else {
      ReceiveStep(FRESH, bytes, tail);
      SpoiledNeverReturns(next, tail);
    }
  }

  lemma SpoiledConnection(parts: seq<string>, later: seq<ReadEvent>)
    requires parts != [] && parts[0] != "" && parts[0][0] != 'H'
    ensures Receive(FRESH, Events(parts) + later).result.Err?
  {
    var tail := Events(parts[1..]) + later;
    assert Events(parts) + later == [Received(parts[0])] + tail;
    SpoiledFirstRead(parts[0], tail);
  }

  /**
   A response that follows a chunked one on the same connection is received if and only if the last
   read of the chunked one held more than the final line end; otherwise that line end, or its last
   byte, is taken for the start of the next response.
   */
  lemma NextResponseIsReadIff(r: Response, chunks: seq<Chunk>, last: string, extension: string, parts: seq<string>,
                              next: Response, nextParts: seq<string>, later: seq<ReadEvent>)
    requires Sent(r, chunks, last, extension) && CutsOutsideChunks(FRESH, parts)
    requires Concat(parts) == PrintChunked(r, chunks, last, extension) && "" !in parts
    requires WellFormed(next) && ShortLines(next) && Concat(nextParts) == Print(next) && "" !in nextParts
    ensures parts != []
    ensures var first := Receive(FRESH, Events(parts) + (Events(nextParts) + later));
      && first.result == Ok(r)
      && (Receive(FRESH, first.unread).result == Ok(next) <==> |parts[|parts| - 1]| > 2)
  {
    var k, coming := Used(FRESH, parts), Events(nextParts) + later;
    ReceiveReturnsChunkedResponse(r, chunks, last, extension, parts, coming);
    EventsLeft(parts, k, coming);
    if k == |parts| {
      ReceiveReturnsWhatWasSent(next, nextParts, later);
    } else {
      NotAllUsed(parts, k);
      SpoiledConnection(parts[k..], coming);
    }
  }

  lemma NotAllUsed(parts: seq<string>, k: nat)
    requires k < |parts| && "" !in parts && Concat(parts[k..]) in {"", "\n", "\r\n"}
    ensures var left := parts[k..]; left != [] && left[0] != "" && left[0][0] != 'H'
  {
    var left := parts[k..];
    assert parts[k] in parts && left[0] == parts[k];
    assert Concat(left)[0] == left[0][0];
  }

  const IN_CHUNKS: Parser := FRESH.(phase := BodyChunked)

  lemma OneCallExample()
    ensures var p := Feed(IN_CHUNKS, "5\r\nhel" + "lo\r\n0\r\n\r\n", AsWritten);
      p.phase == Complete && p.response.body == "hello"
  {
    var chunks := [Chunk("5", "", "hello")];
    assert ValueOf("5"[..0], 16) == 0 && ValueOf("0"[..0], 16) == 0;
    assert chunks[1..] == [];
    assert Encode([], "0", "") == "0\r\n\r\n";
    assert Encode(chunks, "0", "") == "5\r\nhel" + "lo\r\n0\r\n\r\n";
    assert Data(chunks) == "hello";
    ChunkedRoundTrip(IN_CHUNKS, chunks, "0", "");
  }

  /** The first call erases "5" and its line end, and waits. */
  lemma FirstCallExample()
    ensures Feed(IN_CHUNKS, "5\r\nhel", AsWritten) == Append(IN_CHUNKS, "hel")
  {
    var p := Append(IN_CHUNKS, "5\r\nhel");
    assert p.buffer == "5" + "\r\n" + "hel";
    LineEndsAtCrlf("5", "hel");
    assert "5" + "" == "5" && ValueOf("5"[..0], 16) == 0;
    SizeLineReads("5", "", 5);
    assert Advance(p) == TakeChunk(p, Ok(5), "hel") == None;
    assert Settle(p, AsWritten) == SettleChunk(p, Ok(5), "hel", AsWritten);
  }

  lemma NotASize(s: string)
    requires s != "" && ';' !in s && s[0] != ' ' && DigitValue(s[0]) >= 16
    ensures ParseChunkLine(s) == Err(BadChunkSize)
  {
    FindNothing(s, ';');
    NoSpacesToSkip(s);
    assert s[..|s|] == s && LeadingDigits(s, 16) == 0;
  }

  lemma BadSizeFails(p: Parser, line: string, rest: string)
    requires p.phase == BodyChunked && p.buffer == line + "\r\n" + rest
    requires !HasCrlf(line) && ParseChunkLine(line).Err?
    ensures Advance(p).None? && Settle(p, AsWritten).phase == Failed
  {
    LineEndsAtCrlf(line, rest);
    SettleIsSettleChunk(p, AsWritten);
  }

  /** The second call then takes "hello" for a chunk size. */
  lemma SecondCallExample()
    ensures Feed(Append(IN_CHUNKS, "hel"), "lo\r\n0\r\n\r\n", AsWritten).phase == Failed
  {
    var p := Append(Append(IN_CHUNKS, "hel"), "lo\r\n0\r\n\r\n");
    assert p.buffer == "hello" + "\r\n" + "0\r\n\r\n";
    NoCrlfWithoutLf("hello");
    NotASize("hello");
    BadSizeFails(p, "hello", "0\r\n\r\n");
    assert StopPoint(p) == p;
  }

  /** When a call ends inside a chunk, the code's answer depends on the cut: five bytes cut after three. */
  lemma CutChunkExample()
    ensures var a, b := "5\r\nhel", "lo\r\n0\r\n\r\n";
      && Feed(IN_CHUNKS, a + b, AsWritten).phase == Complete
      && Feed(IN_CHUNKS, a + b, AsWritten).response.body == "hello"
      && Feed(Feed(IN_CHUNKS, a, AsWritten), b, AsWritten).phase == Failed
  {
    OneCallExample();
    FirstCallExample();
    SecondCallExample();
  }
}
