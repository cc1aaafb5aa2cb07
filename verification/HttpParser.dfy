/** The incremental parser as an object (`http_parser`), against `ParserSpec`. */
module ResponseParser {
  import opened Wrappers
  import opened Text
  import opened Headers
  import opened HeaderStore
  import opened Buffers
  import Spec = ParserSpec

  class HttpParser {
    var phase: Spec.Phase
    var status: nat
    var reason: string
    const headers: HttpHeaders
    const body: ByteBuffer
    var fault: Spec.Fault
    var buffer: string
    var remaining: nat
    var lengthSet: bool

    ghost predicate Valid()
      reads this, body, body.data
    {
      body.Valid()
    }

    /** The abstract parser this object represents. */
    ghost function State(): Spec.Parser
      requires Valid()
      reads this, headers, body, body.data
    {
      Spec.Parser(phase, Spec.Response(status, reason, headers.fields, body.Contents()),
                  fault, buffer, remaining, lengthSet)
    }

    constructor ()
      ensures Valid() && State() == Spec.FRESH && body.data.Length >= 1
      ensures fresh(headers) && fresh(body) && fresh(body.data)
    {
      phase, status, reason := Spec.StatusLine, 0, "";
      headers := new HttpHeaders();
      body := new ByteBuffer();
      fault, buffer, remaining, lengthSet := Spec.NoFault, "", 0, false;
    }

    /** Back to the initial state; the body keeps its storage. */
    method Reset()
      requires Valid()
      modifies this, headers, body
      ensures Valid() && State() == Spec.FRESH && body.data == old(body.data)
    {
      phase, status, reason := Spec.StatusLine, 0, "";
      headers.Clear();
      body.Clear();
      fault, buffer, remaining, lengthSet := Spec.NoFault, "", 0, false;
      assert State().response == Spec.Response(0, "", [], body.Contents());
    }

    /** Moves the response out. The parser's own body is left without storage. */
    method ReleaseResponse() returns (code: nat, phrase: string, fields: seq<Field>, content: ByteBuffer)
      requires Valid()
      modifies this, headers, body
      ensures fresh(content) && content.Valid()
      ensures Spec.Response(code, phrase, fields, content.Contents()) == old(State()).response
      ensures Valid() && body.data.Length == 0 && phase == old(phase)
    {
      code, phrase, fields := status, reason, headers.fields;
      content := new ByteBuffer.MoveFrom(body);
      headers.Clear();
      reason := "";
    }

    /** The released response as a value. */
    method TakeResponse() returns (r: Spec.Response)
      requires Valid()
      modifies this, headers, body
      ensures r == old(State()).response
    {
      var code, phrase, fields, content := ReleaseResponse();
      var bytes := content.Peek(content.Size());
      assert bytes == content.Contents();
      return Spec.Response(code, phrase, fields, bytes);
    }

    /** The body can take what it is to become: without storage it can only stay empty. */
    ghost predicate CanHold(content: string)
      reads this, body
    {
      body.data.Length >= 1 || content == ""
    }

    /** Consumes `data`. Anything but an error code means "look at the phase". */
    method Feed(data: string) returns (error: Option<Spec.ErrorCode>)
      requires Valid() && CanHold(Spec.Feed(State(), data, Spec.AsWritten).response.body)
      modifies this, headers, body, body.data
      ensures Valid() && body.data.Length >= old(body.data.Length) && (body.data == old(body.data) || fresh(body.data))
      ensures State() == Spec.Feed(old(State()), data, Spec.AsWritten)
      ensures error == if phase == Spec.Failed && old(phase) != Spec.Failed then Some(Spec.CodeOf(fault)) else None
    {
      if phase == Spec.Failed || phase == Spec.Complete { return None; }
      buffer := buffer + data;
      ghost var start := Spec.Append(old(State()), data);
      var progress := true;
      while progress
        invariant Valid() && body.data.Length >= old(body.data.Length)
        invariant body.data == old(body.data) || fresh(body.data)
        invariant RoundDone(start, State(), progress, None)
        decreases progress, |buffer|
      {
        ghost var before := State();
        progress, error := Round();
        RoundsCompose(start, before, State(), progress, error);
        if error.Some? { return; }
      }
      return None;
    }

    /** What one round of the loop owes: it leads on to the same end, or it has reached the end. */
    static ghost predicate RoundDone(before: Spec.Parser, after: Spec.Parser, progress: bool,
                                     error: Option<Spec.ErrorCode>) {
      if progress then
        error == None && !after.Final() && Spec.StopPoint(after) == Spec.StopPoint(before)
      else
        && after == Spec.Settle(Spec.StopPoint(before), Spec.AsWritten)
        && error == if after.phase == Spec.Failed then Some(Spec.CodeOf(after.fault)) else None
    }

    static lemma RoundsCompose(first: Spec.Parser, before: Spec.Parser, after: Spec.Parser, progress: bool,
                               error: Option<Spec.ErrorCode>)
      requires RoundDone(first, before, true, None) && RoundDone(before, after, progress, error)
      ensures RoundDone(first, after, progress, error)
    {
    }

    /** One round of the loop, by phase. */
    method Round() returns (progress: bool, error: Option<Spec.ErrorCode>)
      requires Valid() && phase != Spec.Failed && phase != Spec.Complete
      requires CanHold(Spec.Settle(Spec.StopPoint(State()), Spec.AsWritten).response.body)
      modifies this, headers, body, body.data
      ensures Valid() && body.data.Length >= old(body.data.Length) && (body.data == old(body.data) || fresh(body.data))
      ensures RoundDone(old(State()), State(), progress, error)
      ensures progress ==> |buffer| < old(|buffer|)
    {
      if phase == Spec.StatusLine {
        progress, error := StatusLineRound();
      } else if phase == Spec.HeaderLines {
        progress, error := HeaderLineRound();
      } else {
        error := ProcessBody();
        progress := false;
      }
    }

    static lemma RoundAdvances(before: Spec.Parser, after: Spec.Parser)
      requires Spec.Advance(before) == Some(after) && !after.Final()
      ensures RoundDone(before, after, true, None)
    {
    }

    static lemma RoundEnds(before: Spec.Parser, after: Spec.Parser, error: Option<Spec.ErrorCode>)
      requires Spec.Advance(before).None? && after == Spec.Settle(before, Spec.AsWritten)
      requires error == if after.phase == Spec.Failed then Some(Spec.CodeOf(after.fault)) else None
      ensures RoundDone(before, after, false, error)
    {
    }

    /** The partial line in the buffer, in either of the line phases. */
    method PartialLine() returns (error: Option<Spec.ErrorCode>)
      requires Valid() && (phase == Spec.StatusLine || phase == Spec.HeaderLines) && !HasCrlf(buffer)
      modifies this`phase, this`fault
      ensures Valid() && RoundDone(old(State()), State(), false, error)
    {
      if |buffer| > Spec.MAX_HEADER_BUFFER {
        fault, phase := Spec.HeaderSectionTooLarge, Spec.Failed;
        error := Some(Spec.ParseError);
      } else {
        error := None;
      }
      RoundEnds(old(State()), State(), error);
    }

    /** The loop's first case. */
    method StatusLineRound() returns (progress: bool, error: Option<Spec.ErrorCode>)
      requires Valid() && phase == Spec.StatusLine
      modifies this
      ensures Valid() && RoundDone(old(State()), State(), progress, error)
      ensures progress ==> |buffer| < old(|buffer|)
    {
      var pos := FindCrlf(buffer);
      if pos == |buffer| {
        error := PartialLine();
        return false, error;
      }
      error := ParseStatusLine(buffer[..pos]);
      if error.Some? {
        phase := Spec.Failed;
        RoundEnds(old(State()), State(), error);
        return false, error;
      }
      buffer, phase := buffer[pos + 2..], Spec.HeaderLines;
      RoundAdvances(old(State()), State());
      return true, None;
    }

    /** The blank line after the headers. */
    method BlankLine()
      requires Valid() && phase == Spec.HeaderLines && HasCrlf(buffer) && FindCrlf(buffer) == 0
      modifies this`buffer, this`phase, this`remaining, this`lengthSet
      ensures Valid() && RoundDone(old(State()), State(), true, None) && |buffer| < old(|buffer|)
    {
      buffer := buffer[2..];
      BeginBody();
      RoundAdvances(old(State()), State());
    }

    /** The loop's second case. */
    method HeaderLineRound() returns (progress: bool, error: Option<Spec.ErrorCode>)
      requires Valid() && phase == Spec.HeaderLines
      modifies this, headers
      ensures Valid() && RoundDone(old(State()), State(), progress, error)
      ensures progress ==> |buffer| < old(|buffer|)
    {
      var pos := FindCrlf(buffer);
      if pos == |buffer| {
        error := PartialLine();
        return false, error;
      }
      if pos == 0 {
        BlankLine();
        return true, None;
      }
      error := ParseHeaderLine(buffer[..pos]);
      if error.Some? {
        phase := Spec.Failed;
        RoundEnds(old(State()), State(), error);
        return false, error;
      }
      buffer := buffer[pos + 2..];
      RoundAdvances(old(State()), State());
      return true, None;
    }

    method ParseStatusLine(line: string) returns (error: Option<Spec.ErrorCode>)
      modifies this`status, this`reason, this`fault
      ensures match Spec.ParseStatusLine(line)
        case Ok((code, phrase)) => error == None && status == code && reason == phrase && fault == old(fault)
        case Err(f) => error == Some(Spec.CodeOf(f)) && fault == f && status == old(status) && reason == old(reason)
    {
      var sp1 := Find(line, ' ');
      if sp1 == |line| {
        fault := Spec.MissingStatusCode;
        return Some(Spec.ParseError);
      }
      if sp1 < 8 || line[..7] != "HTTP/1." {
        fault := Spec.BadVersion;
        return Some(Spec.InvalidVersion);
      }
      var sp2 := FindFrom(line, ' ', sp1 + 1);
      var codeText := line[sp1 + 1..sp2];
      var phrase := if sp2 == |line| then "" else line[sp2 + 1..];
      if codeText == "" {
        fault := Spec.EmptyStatusCode;
        return Some(Spec.ParseError);
      }
      var digits, code := ParseCode(codeText);
      if !digits {
        fault := Spec.NonDigitStatusCode;
        return Some(Spec.ParseError);
      }
      if code < 100 || code > 599 {
        fault := Spec.StatusCodeOutOfRange;
        return Some(Spec.ParseError);
      }
      status, reason := code, phrase;
      return None;
    }

    /** The loop over the digits of the status code. */
    static method ParseCode(text: string) returns (digits: bool, code: nat)
      ensures digits == AllDigits(text, 10) && (digits ==> code == ValueOf(text, 10))
    {
      code := 0;
      for i := 0 to |text|
        invariant AllDigits(text[..i], 10) && code == ValueOf(text[..i], 10)
      {
        if DigitValue(text[i]) >= 10 { return false, 0; }
        assert text[..i + 1][..i] == text[..i];
        code := code * 10 + DigitValue(text[i]);
      }
      assert text[..|text|] == text;
      return true, code;
    }

    method ParseHeaderLine(line: string) returns (error: Option<Spec.ErrorCode>)
      modifies this`fault, headers
      ensures match Spec.ParseHeaderLine(line)
        case Ok(f) => error == None && headers.fields == old(headers.fields) + [f] && fault == old(fault)
        case Err(f) => error == Some(Spec.CodeOf(f)) && headers.fields == old(headers.fields) && fault == f
    {
      var colon := Find(line, ':');
      if colon == |line| {
        fault := Spec.MissingColon;
        return Some(Spec.InvalidHeader);
      }
      var value := line[colon + 1..];
      while value != "" && IsOws(value[0])
        invariant Trim(value) == Trim(line[colon + 1..])
        decreases |value|
      {
        value := value[1..];
      }
      while value != "" && IsOws(value[|value| - 1])
        invariant TrimRight(value) == Trim(line[colon + 1..])
        decreases |value|
      {
        value := value[..|value| - 1];
      }
      if colon == 0 {
        fault := Spec.EmptyHeaderName;
        return Some(Spec.InvalidHeader);
      }
      headers.Add(line[..colon], value);
      return None;
    }

    /** The blank line has been removed: choose how the body is delimited. */
    method BeginBody()
      requires Valid()
      modifies this`phase, this`remaining, this`lengthSet
      ensures Valid() && State() == Spec.BeginBody(old(State()))
    {
      var chunked := headers.GetIsChunked();
      var length := headers.GetContentLength();
      if chunked {
        phase := Spec.BodyChunked;
      } else if length.Some? {
        remaining, lengthSet, phase := length.value, true, Spec.BodyRaw;
      } else {
        phase := Spec.BodyUntilEof;
      }
    }

    /** The remaining cases: takes what there is of the body. */
    method ProcessBody() returns (error: Option<Spec.ErrorCode>)
      requires Valid() && CanHold(Spec.Settle(Spec.StopPoint(State()), Spec.AsWritten).response.body)
      requires phase == Spec.BodyRaw || phase == Spec.BodyChunked || phase == Spec.BodyUntilEof
      modifies this, body, body.data
      ensures Valid() && body.data.Length >= old(body.data.Length) && (body.data == old(body.data) || fresh(body.data))
      ensures RoundDone(old(State()), State(), false, error)
    {
      match phase
      case BodyRaw =>
        ProcessRaw();
        return None;
      case BodyChunked =>
        error := ProcessChunks();
        return;
      case BodyUntilEof =>
        assert old(State()).response.body + "" == old(State()).response.body;
        if buffer != "" {
          body.Write(buffer);
          buffer := "";
        }
        return None;
    }

    method ProcessRaw()
      requires Valid() && phase == Spec.BodyRaw && (remaining > 0 && buffer != "" ==> body.data.Length >= 1)
      modifies this, body, body.data
      ensures Valid() && body.data.Length >= old(body.data.Length) && (body.data == old(body.data) || fresh(body.data))
      ensures State() == Spec.TakeBody(old(State()), Spec.Min(old(remaining), old(|buffer|)))
    {
      assert old(State()).response.body + buffer[..0] == old(State()).response.body;
      if remaining == 0 {
        phase := Spec.Complete;
        return;
      }
      if buffer == "" { return; }
      var n := Spec.Min(remaining, |buffer|);
      body.Write(buffer[..n]);
      buffer, remaining := buffer[n..], remaining - n;
      if remaining == 0 { phase := Spec.Complete; }
    }

    /** The size on a chunk's first line. */
    method ParseChunkLine(line: string) returns (size: nat, error: Option<Spec.ErrorCode>)
      modifies this`fault
      ensures match Spec.ParseChunkLine(line)
        case Ok(n) => error == None && size == n && fault == old(fault)
        case Err(f) => error == Some(Spec.CodeOf(f)) && fault == f
    {
      var hex := line[..Find(line, ';')];
      while hex != "" && hex[0] == ' '
        invariant Spec.SkipSpaces(hex) == Spec.SkipSpaces(line[..Find(line, ';')])
        decreases |hex|
      {
        hex := hex[1..];
      }
      if hex == "" {
        fault := Spec.EmptyChunkSize;
        return 0, Some(Spec.ChunkedEncodingError);
      }
      var parsed := FromChars(hex, 16, SIZE_LIMIT);
      if parsed.None? || parsed.value > Spec.MAX_CHUNK_SIZE {
        fault := Spec.BadChunkSize;
        return 0, Some(Spec.ChunkedEncodingError);
      }
      return parsed.value, None;
    }

    /** The loop of the chunked case. */
    method ProcessChunks() returns (error: Option<Spec.ErrorCode>)
      requires Valid() && phase == Spec.BodyChunked
      requires CanHold(Spec.Settle(Spec.StopPoint(State()), Spec.AsWritten).response.body)
      modifies this, body, body.data
      ensures Valid() && body.data.Length >= old(body.data.Length) && (body.data == old(body.data) || fresh(body.data))
      ensures RoundDone(old(State()), State(), false, error)
    {
      var more := true;
      error := None;
      while more
        invariant Valid() && body.data.Length >= old(body.data.Length)
        invariant body.data == old(body.data) || fresh(body.data)
        invariant more ==> phase == Spec.BodyChunked
        invariant RoundDone(old(State()), State(), more, error)
        decreases more, |buffer|
      {
        ghost var before := State();
        if Spec.Advance(before).Some? { ChunkFits(before); }
        more, error := ChunkRound();
        RoundsCompose(old(State()), before, State(), more, error);
      }
    }

    static lemma ChunkLineMissing(p: Spec.Parser)
      requires p.phase == Spec.BodyChunked && !HasCrlf(p.buffer)
      ensures RoundDone(p, p, false, None)
    {
      RoundEnds(p, p, None);
    }

    static lemma ChunkLineRefused(p: Spec.Parser, f: Spec.Fault)
      requires p.phase == Spec.BodyChunked && HasCrlf(p.buffer)
      requires Spec.ParseChunkLine(Spec.FirstLine(p.buffer)) == Err(f)
      ensures RoundDone(p, Spec.Fail(p, f), false, Some(Spec.CodeOf(f)))
    {
      RoundEnds(p, Spec.Fail(p, f), Some(Spec.CodeOf(f)));
    }

    /** The size line is read; what is left to do depends on what comes after it. */
    static lemma ChunkLineRead(p: Spec.Parser, size: nat)
      requires p.phase == Spec.BodyChunked && HasCrlf(p.buffer)
      requires Spec.ParseChunkLine(Spec.FirstLine(p.buffer)) == Ok(size)
      ensures var q := p.(buffer := Spec.AfterLine(p.buffer));
        && Spec.Advance(p) == Spec.TakeChunk(q, Ok(size), q.buffer)
        && (Spec.Advance(p).None? ==>
              Spec.Settle(p, Spec.AsWritten) == Spec.SettleChunk(q, Ok(size), q.buffer, Spec.AsWritten))
    {
    }

    /** A chunk that can be taken makes the final body non-empty. */
    static lemma ChunkFits(p: Spec.Parser)
      requires p.phase == Spec.BodyChunked && Spec.Advance(p).Some?
      ensures Spec.Settle(Spec.StopPoint(p), Spec.AsWritten).response.body != ""
    {
      Spec.BodyGrows(Spec.Advance(p).value);
      Spec.SettleGrows(Spec.StopPoint(p), Spec.AsWritten);
    }

    /** One chunk: its size line is gone before it is known whether the chunk is there. */
    method ChunkRound() returns (more: bool, error: Option<Spec.ErrorCode>)
      requires Valid() && phase == Spec.BodyChunked
      requires Spec.Advance(State()).Some? ==> body.data.Length >= 1
      modifies this, body, body.data
      ensures Valid() && body.data.Length >= old(body.data.Length) && (body.data == old(body.data) || fresh(body.data))
      ensures RoundDone(old(State()), State(), more, error)
      ensures more ==> |buffer| < old(|buffer|) && phase == Spec.BodyChunked
    {
      ghost var before := State();
      var pos := FindCrlf(buffer);
      if pos == |buffer| {
        ChunkLineMissing(before);
        return false, None;
      }
      var size;
      size, error := ParseChunkLine(buffer[..pos]);
      if error.Some? {
        phase := Spec.Failed;
        ChunkLineRefused(before, fault);
        return false, error;
      }
      more := SizedChunk(size);
    }

    /** The size line goes, then the chunk if it is there. */
    method SizedChunk(size: nat) returns (more: bool)
      requires Valid() && phase == Spec.BodyChunked && HasCrlf(buffer)
      requires Spec.ParseChunkLine(Spec.FirstLine(buffer)) == Ok(size)
      requires Spec.Advance(State()).Some? ==> body.data.Length >= 1
      modifies this`phase, this`buffer, body, body.data
      ensures Valid() && body.data.Length >= old(body.data.Length) && (body.data == old(body.data) || fresh(body.data))
      ensures RoundDone(old(State()), State(), more, None)
      ensures more ==> |buffer| < old(|buffer|) && phase == Spec.BodyChunked
    {
      ghost var before := State();
      ChunkLineRead(before, size);
      buffer := buffer[FindCrlf(buffer) + 2..];
      more := ChunkData(size);
      if more { RoundAdvances(before, State()); } else { RoundEnds(before, State(), None); }
    }

    /** After the size line: the end, a chunk that is not there yet, or a chunk to take. */
    method ChunkData(size: nat) returns (more: bool)
      requires Valid() && phase == Spec.BodyChunked
      requires 0 < size && size + 2 <= |buffer| ==> body.data.Length >= 1
      modifies this`phase, this`buffer, body, body.data
      ensures Valid() && body.data.Length >= old(body.data.Length) && (body.data == old(body.data) || fresh(body.data))
      ensures phase != Spec.Failed
      ensures match Spec.TakeChunk(old(State()), Ok(size), old(buffer))
        case Some(next) => more && State() == next
        case None => !more && State() == Spec.SettleChunk(old(State()), Ok(size), old(buffer), Spec.AsWritten)
    {
      if size == 0 {
        if |buffer| >= 2 && buffer[0] == '\r' && buffer[1] == '\n' { buffer := buffer[2..]; }
        phase := Spec.Complete;
        return false;
      }
      if |buffer| < size + 2 { return false; }
      body.Write(buffer[..size]);
      buffer := buffer[size + 2..];
      return true;
    }
  }

  /** One-shot parsing of a complete response. */
  method ParseResponse(data: string) returns (r: Result<Spec.Response, Spec.ErrorCode>)
    ensures var p := Spec.Feed(Spec.FRESH, data, Spec.AsWritten);
      r == if p.phase == Spec.Complete then Ok(p.response)
           else if p.phase == Spec.Failed then Err(Spec.CodeOf(p.fault))
           else Err(Spec.ParseError)
  {
    var parser := new HttpParser();
    var error := parser.Feed(data);
    if error.Some? { return Err(error.value); }
    if parser.phase == Spec.Failed { return Err(Spec.ParseError); }
    if parser.phase != Spec.Complete { return Err(Spec.ParseError); }
    var response := parser.TakeResponse();
    return Ok(response);
  }
}
