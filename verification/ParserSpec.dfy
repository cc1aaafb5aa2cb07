/**
 What the incremental response parser computes, as functions of its state.

 One call of `feed` appends its bytes to the buffer and then takes as many whole lines and whole
 chunks off the front as it can (`Advance`, repeated by `StopPoint`); `Settle` is the last,
 non-looping thing it does in the state where it stops.
 */
module ParserSpec {
  import opened Wrappers
  import opened Text
  import opened Headers

  const MAX_CHUNK_SIZE: nat := 64 * 1024 * 1024
  const MAX_HEADER_BUFFER: nat := 8192

  datatype Phase = StatusLine | HeaderLines | BodyRaw | BodyChunked | BodyUntilEof | Complete | Failed

  /** One value for each error message of the parser. */
  datatype Fault =
    | NoFault
    | HeaderSectionTooLarge
    | MissingStatusCode
    | BadVersion
    | EmptyStatusCode
    | NonDigitStatusCode
    | StatusCodeOutOfRange
    | MissingColon
    | EmptyHeaderName
    | EmptyChunkSize
    | BadChunkSize

  datatype ErrorCode = ParseError | InvalidVersion | InvalidHeader | ChunkedEncodingError

  /** The code returned along with each message. */
  function CodeOf(f: Fault): ErrorCode {
    match f
    case BadVersion => InvalidVersion
    case MissingColon => InvalidHeader
    case EmptyHeaderName => InvalidHeader
    case EmptyChunkSize => ChunkedEncodingError
    case BadChunkSize => ChunkedEncodingError
    case _ => ParseError
  }

  datatype Response = Response(status: nat, reason: string, fields: seq<Field>, body: string)

  datatype Parser = Parser(
    phase: Phase, response: Response, fault: Fault, buffer: string, remaining: nat, lengthSet: bool)
  {
    predicate Final() { phase == Complete || phase == Failed }
  }

  const FRESH: Parser := Parser(StatusLine, Response(0, "", [], ""), NoFault, "", 0, false)

  // ----- lines -----

  function ParseStatusLine(line: string): Result<(nat, string), Fault> {
    var sp1 := Find(line, ' ');
    if sp1 == |line| then Err(MissingStatusCode)
    else if sp1 < 8 || line[..7] != "HTTP/1." then Err(BadVersion)
    else
      var sp2 := FindFrom(line, ' ', sp1 + 1);
      var code := line[sp1 + 1..sp2];
      var reason := if sp2 == |line| then "" else line[sp2 + 1..];
      if code == "" then Err(EmptyStatusCode)
      else if !AllDigits(code, 10) then Err(NonDigitStatusCode)
      else if !(100 <= ValueOf(code, 10) <= 599) then Err(StatusCodeOutOfRange)
      else Ok((ValueOf(code, 10), reason))
  }

  function ParseHeaderLine(line: string): Result<Field, Fault> {
    var colon := Find(line, ':');
    if colon == |line| then Err(MissingColon)
    else if colon == 0 then Err(EmptyHeaderName)
    else Ok(Field(line[..colon], Trim(line[colon + 1..])))
  }

  function SkipSpaces(s: string): string {
    if s != [] && s[0] == ' ' then SkipSpaces(s[1..]) else s
  }

  /** The size announced by a chunk's first line; extensions after ';' are ignored. */
  function ParseChunkLine(line: string): Result<nat, Fault> {
    var hex := SkipSpaces(line[..Find(line, ';')]);
    if hex == "" then Err(EmptyChunkSize)
    else
      match FromChars(hex, 16, SIZE_LIMIT)
      case None => Err(BadChunkSize)
      case Some(n) => if n > MAX_CHUNK_SIZE then Err(BadChunkSize) else Ok(n)
  }

  // ----- one round of the loop -----

  function FirstLine(buffer: string): string { buffer[..FindCrlf(buffer)] }

  function AfterLine(buffer: string): string
    requires HasCrlf(buffer)
  {
    buffer[FindCrlf(buffer) + 2..]
  }

  /** Where the blank line after the headers leads. */
  ghost function BeginBody(p: Parser): Parser {
    var fields := p.response.fields;
    if IsChunked(fields) then p.(phase := BodyChunked)
    else
      match ContentLength(fields)
      case Some(n) => p.(phase := BodyRaw, remaining := n, lengthSet := true)
      case None => p.(phase := BodyUntilEof)
  }

  /** Moves a chunk that has fully arrived, closing CRLF included, from `rest` to the body. */
  function TakeChunk(p: Parser, size: Result<nat, Fault>, rest: string): (r: Option<Parser>)
    ensures r.Some? ==> |r.value.buffer| + 2 <= |rest|
  {
    if size.Err? || size.value == 0 || |rest| < size.value + 2 then None
    else
      var n := size.value;
      Some(p.(response := p.response.(body := p.response.body + rest[..n]), buffer := rest[n + 2..]))
  }

  /** A round that consumes a whole line or a whole chunk and goes on. */
  ghost function Advance(p: Parser): (r: Option<Parser>)
    ensures r.Some? ==> |r.value.buffer| + 2 <= |p.buffer|
  {
    if !HasCrlf(p.buffer) then None
    else
      var line, rest := FirstLine(p.buffer), AfterLine(p.buffer);
      match p.phase
      case StatusLine =>
        (match ParseStatusLine(line)
         case Ok((code, reason)) =>
           Some(p.(phase := HeaderLines, response := p.response.(status := code, reason := reason), buffer := rest))
         case Err(_) => None)
      case HeaderLines =>
        if line == "" then Some(BeginBody(p.(buffer := rest)))
        else
          (match ParseHeaderLine(line)
           case Ok(f) => Some(p.(response := p.response.(fields := p.response.fields + [f]), buffer := rest))
           case Err(_) => None)
      case BodyChunked => TakeChunk(p, ParseChunkLine(line), rest)
      case _ => None
  }

  /** The state in which no further round goes on. */
  ghost function StopPoint(p: Parser): (q: Parser)
    ensures Advance(q).None?
    decreases |p.buffer|
  {
    match Advance(p)
    case Some(next) => StopPoint(next)
    case None => p
  }

  /** The buffer holds a partial line that is already too long. */
  predicate OverlongLine(p: Parser) {
    (p.phase == StatusLine || p.phase == HeaderLines) && !HasCrlf(p.buffer) && |p.buffer| > MAX_HEADER_BUFFER
  }

  /** The buffer holds a chunk's size line, but not yet the whole chunk. */
  predicate ChunkPending(p: Parser) {
    && p.phase == BodyChunked && HasCrlf(p.buffer)
    && var size := ParseChunkLine(FirstLine(p.buffer));
       size.Ok? && size.value > 0 && |AfterLine(p.buffer)| < size.value + 2
  }

  /**
   The code erases a chunk's size line before it knows that the chunk has arrived (`AsWritten`).
   `KeepLine` is NOT the code: it is the variant that leaves the line in place until the whole
   chunk can be taken.
   */
  datatype EraseMode = AsWritten | KeepLine

  function Fail(p: Parser, f: Fault): Parser { p.(phase := Failed, fault := f) }

  /** A bad size, the final zero-size chunk, or a chunk that has not fully arrived. */
  function SettleChunk(p: Parser, size: Result<nat, Fault>, rest: string, mode: EraseMode): Parser {
    match size
    case Err(f) => Fail(p, f)
    case Ok(n) =>
      if n == 0 then p.(phase := Complete, buffer := if "\r\n" <= rest then rest[2..] else rest)
      else if mode == AsWritten then p.(buffer := rest)
      else p
  }

  function Min(a: nat, b: nat): nat { if a < b then a else b }

  /** Moves `n` bytes of a Content-Length body from the buffer to the response. */
  function TakeBody(p: Parser, n: nat): Parser
    requires n <= p.remaining && n <= |p.buffer|
  {
    p.(response := p.response.(body := p.response.body + p.buffer[..n]), buffer := p.buffer[n..],
       remaining := p.remaining - n, phase := if p.remaining == n then Complete else p.phase)
  }

  /** The final round, in a state from which `Advance` does not go on. */
  ghost function Settle(p: Parser, mode: EraseMode): Parser {
    match p.phase
    case StatusLine =>
      if OverlongLine(p) then Fail(p, HeaderSectionTooLarge)
      else if !HasCrlf(p.buffer) then p
      else
        (match ParseStatusLine(FirstLine(p.buffer))
         case Err(f) => Fail(p, f)
         case Ok(_) => p)
    case HeaderLines =>
      if OverlongLine(p) then Fail(p, HeaderSectionTooLarge)
      else if !HasCrlf(p.buffer) then p
      else
        (match ParseHeaderLine(FirstLine(p.buffer))
         case Err(f) => Fail(p, f)
         case Ok(_) => p)
    case BodyRaw => TakeBody(p, Min(p.remaining, |p.buffer|))
    case BodyChunked =>
      if !HasCrlf(p.buffer) then p
      else SettleChunk(p, ParseChunkLine(FirstLine(p.buffer)), AfterLine(p.buffer), mode)
    case BodyUntilEof =>
      p.(response := p.response.(body := p.response.body + p.buffer), buffer := "")
    case _ => p
  }

  lemma SettleGrows(p: Parser, mode: EraseMode)
    ensures p.response.body <= Settle(p, mode).response.body
  {
    match p.phase
    case BodyRaw =>
    case BodyUntilEof =>
    case _ => assert Settle(p, mode).response == p.response;
  }

  lemma AdvanceGrows(p: Parser)
    requires Advance(p).Some?
    ensures p.response.body <= Advance(p).value.response.body
  {
  }

  /** What is in the body stays there. */
  lemma {:induction false} BodyGrows(p: Parser)
    ensures p.response.body <= StopPoint(p).response.body
    decreases |p.buffer|
  {
    if Advance(p).Some? {
      AdvanceGrows(p);
      BodyGrows(Advance(p).value);
    }
  }

  function Append(p: Parser, data: string): Parser { p.(buffer := p.buffer + data) }

  /** One call of `feed`. */
  ghost function Feed(p: Parser, data: string, mode: EraseMode): Parser {
    if p.Final() then p else Settle(StopPoint(Append(p, data)), mode)
  }

  /** Successive calls of `feed`. */
  ghost function FeedAll(p: Parser, parts: seq<string>, mode: EraseMode): Parser
    decreases |parts|
  {
    if parts == [] then p else FeedAll(Feed(p, parts[0], mode), parts[1..], mode)
  }

  function Concat(parts: seq<string>): string {
    if parts == [] then "" else parts[0] + Concat(parts[1..])
  }
}
