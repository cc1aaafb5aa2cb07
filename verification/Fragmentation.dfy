/**
 The parsed response depends on the bytes and not on how they were cut, up to exactly two places
 where the code's answer does depend on the cut.
 */
module Fragmentation {
  import opened Wrappers
  import opened Text
  import opened ParserSpec

  /** Same parser; what is left over in the buffer matters only while more input is awaited. */
  predicate Agree(p: Parser, q: Parser) {
    && p.phase == q.phase && p.response == q.response && p.fault == q.fault
    && p.remaining == q.remaining && p.lengthSet == q.lengthSet
    && (p.Final() || p.buffer == q.buffer)
  }

  // ----- rounds commute with later input -----

  lemma LinesCommute(buffer: string, more: string)
    requires HasCrlf(buffer)
    ensures HasCrlf(buffer + more)
    ensures FirstLine(buffer + more) == FirstLine(buffer)
    ensures AfterLine(buffer + more) == AfterLine(buffer) + more
  {
    CrlfSurvivesAppend(buffer, more);
  }

  lemma TakeChunkCommutes(p: Parser, size: Result<nat, Fault>, rest: string, more: string)
    requires TakeChunk(p, size, rest).Some?
    ensures TakeChunk(Append(p, more), size, rest + more) == Some(Append(TakeChunk(p, size, rest).value, more))
  {
    assert (rest + more)[..size.value] == rest[..size.value];
    assert (rest + more)[size.value + 2..] == rest[size.value + 2..] + more;
  }

  lemma AdvanceCommutes(p: Parser, more: string)
    requires Advance(p).Some?
    ensures Advance(Append(p, more)) == Some(Append(Advance(p).value, more))
  {
    LinesCommute(p.buffer, more);
    if p.phase == BodyChunked {
      TakeChunkCommutes(p, ParseChunkLine(FirstLine(p.buffer)), AfterLine(p.buffer), more);
    }
  }

  /** Stopping part way and going on with the rest ends where a single go ends. */
  lemma {:induction false} StopPointCommutes(p: Parser, more: string)
    ensures StopPoint(Append(p, more)) == StopPoint(Append(StopPoint(p), more))
    decreases |p.buffer|
  {
    if Advance(p).Some? {
      AdvanceCommutes(p, more);
      StopPointCommutes(Advance(p).value, more);
    }
  }

  // ----- two calls against one -----

  /** The first call refuses a partial line that is too long. */
  ghost predicate Overflows(p: Parser, a: string) {
    !p.Final() && OverlongLine(StopPoint(Append(p, a)))
  }

  /** The first call ends inside a chunk and erases its size line. */
  ghost predicate LosesChunkSize(p: Parser, a: string) {
    !p.Final() && ChunkPending(StopPoint(Append(p, a)))
  }

  lemma TakeAcross(body: string, buffer: string, more: string, k: nat)
    requires k <= |more|
    ensures (buffer + more)[..|buffer| + k] == buffer + more[..k]
    ensures (buffer + more)[|buffer| + k..] == more[k..]
    ensures body + (buffer + more[..k]) == (body + buffer) + more[..k]
    ensures "" + more == more && buffer[..|buffer|] == buffer && buffer[|buffer|..] == ""
  {
  }

  /** All of the buffer and then the rest of the body, or the body in one go. */
  lemma TakeBodyCommutes(q: Parser, more: string, k: nat)
    requires q.phase == BodyRaw && |q.buffer| < q.remaining
    requires |q.buffer| + k == Min(q.remaining, |q.buffer + more|)
    ensures TakeBody(Append(TakeBody(q, |q.buffer|), more), k) == TakeBody(Append(q, more), |q.buffer| + k)
  {
    TakeAcross(q.response.body, q.buffer, more, k);
    var first := TakeBody(q, |q.buffer|);
    assert first == q.(response := q.response.(body := q.response.body + q.buffer), buffer := "",
                       remaining := q.remaining - |q.buffer|);
    assert Append(first, more).buffer == more;
  }

  lemma NoRoundsInBody(p: Parser)
    requires p.phase == BodyRaw || p.phase == BodyUntilEof
    ensures StopPoint(p) == p
  {
  }

  lemma SettleIsTakeBody(q: Parser, mode: EraseMode)
    requires q.phase == BodyRaw
    ensures Settle(q, mode) == TakeBody(q, Min(q.remaining, |q.buffer|))
  {
  }

  lemma DoneBodyCommutes(q: Parser, more: string)
    requires q.phase == BodyRaw && q.remaining <= |q.buffer|
    ensures Agree(TakeBody(q, q.remaining), TakeBody(Append(q, more), q.remaining))
  {
    assert (q.buffer + more)[..q.remaining] == q.buffer[..q.remaining];
  }

  lemma SettleRawCommutes(q: Parser, more: string, mode: EraseMode)
    requires q.phase == BodyRaw
    ensures Agree(Feed(Settle(q, mode), more, mode), Settle(Append(q, more), mode))
  {
    SettleIsTakeBody(q, mode);
    SettleIsTakeBody(Append(q, more), mode);
    if q.remaining <= |q.buffer| {
      DoneBodyCommutes(q, more);
    } else {
      var k := Min(q.remaining, |q.buffer + more|) - |q.buffer|;
      var first := TakeBody(q, |q.buffer|);
      var second := Append(first, more);
      NoRoundsInBody(second);
      SettleIsTakeBody(second, mode);
      TakeBodyCommutes(q, more, k);
      assert Min(second.remaining, |second.buffer|) == k;
      assert Feed(first, more, mode) == TakeBody(second, k);
    }
  }

  /** A line that cannot be read stays unreadable; a partial one is looked at again. */
  lemma SettleLineCommutes(q: Parser, more: string, mode: EraseMode)
    requires q.phase == StatusLine || q.phase == HeaderLines
    requires Advance(q).None?
    requires OverlongLine(q) ==> !HasCrlf(q.buffer + more)
    ensures Agree(Feed(Settle(q, mode), more, mode), Settle(StopPoint(Append(q, more)), mode))
  {
    if HasCrlf(q.buffer) || OverlongLine(q) {
      UnreadableStays(q, more, mode);
    } else {
      assert Settle(q, mode) == q;
    }
  }

  lemma UnreadableStays(q: Parser, more: string, mode: EraseMode)
    requires q.phase == StatusLine || q.phase == HeaderLines
    requires Advance(q).None? && (HasCrlf(q.buffer) || OverlongLine(q))
    requires OverlongLine(q) ==> !HasCrlf(q.buffer + more)
    ensures StopPoint(Append(q, more)) == Append(q, more)
    ensures Settle(q, mode).Final() && Agree(Settle(q, mode), Settle(Append(q, more), mode))
  {
    if HasCrlf(q.buffer) { LinesCommute(q.buffer, more); }
    assert Advance(Append(q, more)).None?;
  }

  lemma SettleChunkCommutes(q: Parser, more: string, mode: EraseMode)
    requires q.phase == BodyChunked && Advance(q).None?
    requires mode == AsWritten ==> !ChunkPending(q)
    ensures Agree(Feed(Settle(q, mode), more, mode), Settle(StopPoint(Append(q, more)), mode))
  {
    if !HasCrlf(q.buffer) || ChunkPending(q) {
      assert Settle(q, mode) == q;
    } else {
      LinesCommute(q.buffer, more);
      var size, rest := ParseChunkLine(FirstLine(q.buffer)), AfterLine(q.buffer);
      assert size.Err? || size.value == 0;
      assert Advance(Append(q, more)) == TakeChunk(Append(q, more), size, rest + more);
      var r := SettleChunk(q, size, rest, mode);
      assert Settle(q, mode) == r && r.Final();
      assert Settle(Append(q, more), mode) == SettleChunk(Append(q, more), size, rest + more, mode);
    }
  }

  lemma SettleCommutes(q: Parser, more: string, mode: EraseMode)
    requires Advance(q).None? && !q.Final()
    requires OverlongLine(q) ==> !HasCrlf(q.buffer + more)
    requires mode == AsWritten ==> !ChunkPending(q)
    ensures Agree(Feed(Settle(q, mode), more, mode), Settle(StopPoint(Append(q, more)), mode))
  {
    match q.phase
    case BodyRaw =>
      NoRoundsInBody(Append(q, more));
      SettleRawCommutes(q, more, mode);
    case BodyUntilEof =>
      NoRoundsInBody(Append(q, more));
      NoRoundsInBody(Append(Settle(q, mode), more));
      assert "" + more == more;
      assert q.response.body + (q.buffer + more) == (q.response.body + q.buffer) + more;
    case BodyChunked => SettleChunkCommutes(q, more, mode);
    case _ => SettleLineCommutes(q, more, mode);
  }

  /** Two calls agree with one, unless one of the two guards held when the first call stopped. */
  lemma TwoFeedsAgree(p: Parser, a: string, b: string, mode: EraseMode)
    requires Overflows(p, a) ==> !HasCrlf(StopPoint(Append(p, a)).buffer + b)
    requires mode == AsWritten ==> !LosesChunkSize(p, a)
    ensures Agree(Feed(Feed(p, a, mode), b, mode), Feed(p, a + b, mode))
  {
    if !p.Final() {
      var q := StopPoint(Append(p, a));
      StopPointCommutes(Append(p, a), b);
      assert Append(Append(p, a), b) == Append(p, a + b) by { assert (p.buffer + a) + b == p.buffer + (a + b); }
      if q.Final() {
        StopPointPhase(Append(p, a));
      } else {
        assert Feed(p, a, mode) == Settle(q, mode);
        assert Feed(p, a + b, mode) == Settle(StopPoint(Append(q, b)), mode);
        SettleCommutes(q, b, mode);
      }
    }
  }

  lemma {:induction false} StopPointPhase(p: Parser)
    requires !p.Final()
    ensures !StopPoint(p).Final()
    ensures p.phase == BodyChunked ==> StopPoint(p).phase == BodyChunked
    decreases |p.buffer|
  {
    if Advance(p).Some? { StopPointPhase(Advance(p).value); }
  }

  // ----- exactly when two calls agree with one -----

  /** True of every state that `feed` and `reset` can produce: no status before a status line. */
  predicate StatusUnset(p: Parser) {
    p.phase == StatusLine ==> p.response.status == 0
  }

  lemma AdvanceHistory(p: Parser)
    requires Advance(p).Some?
    ensures var q := Advance(p).value;
      && q.phase != StatusLine
      && |q.response.fields| >= |p.response.fields|
      && (p.phase != StatusLine ==> q.response.status == p.response.status)
      && (p.phase == StatusLine ==> q.response.status >= 100)
      && (p.phase == HeaderLines && FindCrlf(p.buffer) > 0 ==> |q.response.fields| > |p.response.fields|)
  {
  }

  lemma {:induction false} StopPointHistory(p: Parser)
    ensures var q := StopPoint(p);
      && |q.response.fields| >= |p.response.fields|
      && (p.phase != StatusLine ==> q.phase != StatusLine && q.response.status == p.response.status)
      && (q.phase == StatusLine ==> q == p)
    decreases |p.buffer|
  {
    if Advance(p).Some? {
      AdvanceHistory(p);
      StopPointHistory(Advance(p).value);
    }
  }

  lemma SettleHistory(p: Parser, mode: EraseMode)
    ensures var q := Settle(p, mode);
      && q.response.fields == p.response.fields && q.response.status == p.response.status
      && (q.phase == StatusLine ==> p.phase == StatusLine)
  {
    match p.phase
    case BodyRaw => SettleIsTakeBody(p, mode);
    case BodyChunked => SettleIsSettleChunk(p, mode);
    case _ =>
  }

  lemma SettleIsSettleChunk(p: Parser, mode: EraseMode)
    requires p.phase == BodyChunked
    ensures Settle(p, mode)
      == if HasCrlf(p.buffer) then SettleChunk(p, ParseChunkLine(FirstLine(p.buffer)), AfterLine(p.buffer), mode) else p
  {
  }

  lemma FeedKeepsStatusUnset(p: Parser, data: string, mode: EraseMode)
    requires StatusUnset(p)
    ensures StatusUnset(Feed(p, data, mode))
  {
    var q := StopPoint(Append(p, data));
    StopPointHistory(Append(p, data));
    SettleHistory(q, mode);
  }

  /** Once its end has arrived, a non-empty line is consumed or refused for what it says. */
  lemma CompletedLineIsRead(q: Parser)
    requires q.phase == StatusLine || q.phase == HeaderLines
    requires StatusUnset(q) && HasCrlf(q.buffer) && FindCrlf(q.buffer) > 0
    ensures var r := Settle(StopPoint(q), AsWritten);
      r.fault == HeaderSectionTooLarge && r.phase == Failed ==> r.response != q.response
  {
    if Advance(q).Some? {
      AdvanceHistory(q);
      StopPointHistory(Advance(q).value);
      SettleHistory(StopPoint(q), AsWritten);
    } else {
      assert StopPoint(q) == q;
    }
  }

  lemma JoinedAppend(p: Parser, a: string, b: string)
    ensures Append(Append(p, a), b) == Append(p, a + b)
  {
    assert (p.buffer + a) + b == p.buffer + (a + b);
  }

  lemma LateCrlf(s: string, more: string)
    requires !HasCrlf(s) && HasCrlf(s + more)
    ensures FindCrlf(s + more) + 1 >= |s|
  {
    var t := s + more;
    var pos := FindCrlf(t);
    assert pos + 1 < |s| ==> CrlfAt(s, pos);
  }

  /** After a refusal, the cut is visible exactly when the refused line is completed later. */
  lemma OverflowExact(p: Parser, a: string, b: string)
    requires StatusUnset(p) && Overflows(p, a)
    ensures Agree(Feed(Feed(p, a, AsWritten), b, AsWritten), Feed(p, a + b, AsWritten))
      <==> !HasCrlf(StopPoint(Append(p, a)).buffer + b)
  {
    var q := StopPoint(Append(p, a));
    if HasCrlf(q.buffer + b) {
      StopPointHistory(Append(p, a));
      StopPointCommutes(Append(p, a), b);
      JoinedAppend(p, a, b);
      LateCrlf(q.buffer, b);
      CompletedLineIsRead(Append(q, b));
    } else {
      TwoFeedsAgree(p, a, b, AsWritten);
    }
  }

  /** Bytes that contain nothing that looks like a line end. */
  function Filler(n: nat): string { seq(n, _ => 'x') }

  lemma FillerOverflows()
    ensures Overflows(FRESH, Filler(MAX_HEADER_BUFFER + 1))
    ensures StopPoint(Append(FRESH, Filler(MAX_HEADER_BUFFER + 1))).buffer == Filler(MAX_HEADER_BUFFER + 1)
  {
    var p := Append(FRESH, Filler(MAX_HEADER_BUFFER + 1));
    assert p.buffer == Filler(MAX_HEADER_BUFFER + 1);
    NoCrlfWithoutLf(p.buffer);
    assert StopPoint(p) == p;
  }

  /** 8193 bytes without a line end are refused for their length; with a line end after them, for what they say. */
  lemma OverflowExample()
    ensures var line := Filler(MAX_HEADER_BUFFER + 1);
      && Overflows(FRESH, line)
      && !Agree(Feed(Feed(FRESH, line, AsWritten), "\r\n", AsWritten), Feed(FRESH, line + "\r\n", AsWritten))
  {
    var line := Filler(MAX_HEADER_BUFFER + 1);
    FillerOverflows();
    NoCrlfWithoutLf(line);
    LineEndsAtCrlf(line, "");
    assert line + "\r\n" == line + "\r\n" + "";
    OverflowExact(FRESH, line, "\r\n");
  }

  function Weight(p: Parser): nat { |p.response.body| + |p.buffer| }

  /** A chunked parser that reads a size line loses at least three bytes of body and buffer. */
  lemma {:induction false} ChunkLinesCost(p: Parser)
    requires p.phase == BodyChunked
    ensures var r := Settle(StopPoint(p), AsWritten);
      !HasCrlf(p.buffer) || r.Final() || Weight(r) + 3 <= Weight(p)
    decreases |p.buffer|
  {
    if HasCrlf(p.buffer) {
      var line, rest := FirstLine(p.buffer), AfterLine(p.buffer);
      if line == "" { EmptyChunkLine(line); }
      if Advance(p).Some? {
        var next := Advance(p).value;
        ChunkLinesCost(next);
        assert Weight(next) + 5 <= Weight(p);
      }
    }
  }

  lemma EmptyChunkLine(line: string)
    requires line == ""
    ensures ParseChunkLine(line) == Err(EmptyChunkSize)
  {
    assert line[..Find(line, ';')] == "";
  }

  lemma FillerCompletesChunk(q: Parser, size: Result<nat, Fault>, rest: string)
    requires size.Ok? && size.value > 0 && |rest| < size.value + 2
    ensures var b := Filler(size.value + 2);
      var one := TakeChunk(Append(q, b), size, rest + b);
      one.Some? && !HasCrlf(one.value.buffer) && Weight(one.value) + 2 == Weight(q.(buffer := rest + b))
  {
    var n, b := size.value, Filler(size.value + 2);
    assert (rest + b)[n + 2..] == b[n + 2 - |rest|..];
  }

  /** The code waits for the rest of the chunk without its size. */
  lemma PendingIsCut(q: Parser)
    requires ChunkPending(q)
    ensures Settle(q, AsWritten) == q.(buffer := AfterLine(q.buffer))
  {
    SettleIsSettleChunk(q, AsWritten);
  }

  /** In one call the chunk would be taken, and the next size line awaited. */
  lemma PendingCompletes(q: Parser, b: string)
    requires ChunkPending(q) && b == Filler(ParseChunkLine(FirstLine(q.buffer)).value + 2)
    ensures var one := Settle(StopPoint(Append(q, b)), AsWritten);
      one.phase == BodyChunked && Weight(one) + 2 == Weight(q.(buffer := AfterLine(q.buffer) + b))
  {
    var size, rest := ParseChunkLine(FirstLine(q.buffer)), AfterLine(q.buffer);
    LinesCommute(q.buffer, b);
    FillerCompletesChunk(q, size, rest);
    var one := TakeChunk(Append(q, b), size, rest + b).value;
    assert Advance(Append(q, b)) == Some(one);
    assert StopPoint(Append(q, b)) == one;
    SettleIsSettleChunk(one, AsWritten);
  }

  lemma WaitingCosts(p: Parser, b: string)
    requires p.phase == BodyChunked
    ensures var two := Feed(p, b, AsWritten);
      two.Final() || Weight(two) == Weight(Append(p, b)) || Weight(two) + 3 <= Weight(Append(p, b))
  {
    var q := Append(p, b);
    ChunkLinesCost(q);
    if !HasCrlf(q.buffer) {
      assert StopPoint(q) == q;
      SettleIsSettleChunk(q, AsWritten);
    }
  }

  lemma CutChunkIsVisible(p: Parser, a: string) returns (b: string)
    requires LosesChunkSize(p, a)
    ensures !Agree(Feed(Feed(p, a, AsWritten), b, AsWritten), Feed(p, a + b, AsWritten))
  {
    var q := StopPoint(Append(p, a));
    b := Filler(ParseChunkLine(FirstLine(q.buffer)).value + 2);
    StopPointCommutes(Append(p, a), b);
    JoinedAppend(p, a, b);
    PendingCompletes(q, b);
    PendingIsCut(q);
    WaitingCosts(q.(buffer := AfterLine(q.buffer)), b);
  }

  /**
   The law of incremental parsing, with its exact exceptions: whatever comes after `a` may be fed
   separately if and only if feeding `a` neither refused a partial line nor dropped a chunk size.
   */
  lemma FragmentationExact(p: Parser, a: string)
    requires StatusUnset(p)
    ensures (forall b :: Agree(Feed(Feed(p, a, AsWritten), b, AsWritten), Feed(p, a + b, AsWritten)))
      <==> !Overflows(p, a) && !LosesChunkSize(p, a)
  {
    if Overflows(p, a) {
      OverflowExact(p, a, "\r\n");
      LineEndsAtCrlf(StopPoint(Append(p, a)).buffer, "");
      assert StopPoint(Append(p, a)).buffer + "\r\n" == StopPoint(Append(p, a)).buffer + "\r\n" + "";
    } else if LosesChunkSize(p, a) {
      var b := CutChunkIsVisible(p, a);
    } else {
      forall b ensures Agree(Feed(Feed(p, a, AsWritten), b, AsWritten), Feed(p, a + b, AsWritten)) {
        TwoFeedsAgree(p, a, b, AsWritten);
      }
    }
  }

  /** Keeping the size line until the chunk has arrived removes the second exception. */
  lemma FragmentationOfVariant(p: Parser, a: string, b: string)
    requires Overflows(p, a) ==> !HasCrlf(StopPoint(Append(p, a)).buffer + b)
    ensures Agree(Feed(Feed(p, a, KeepLine), b, KeepLine), Feed(p, a + b, KeepLine))
  {
    TwoFeedsAgree(p, a, b, KeepLine);
  }

  /** In a chunked body the variant has no exception at all. */
  lemma VariantInChunks(p: Parser, a: string, b: string)
    requires p.phase == BodyChunked
    ensures Agree(Feed(Feed(p, a, KeepLine), b, KeepLine), Feed(p, a + b, KeepLine))
  {
    StopPointPhase(Append(p, a));
    TwoFeedsAgree(p, a, b, KeepLine);
  }

  // ----- any number of calls -----

  /** Every line of the header section that ends within the buffer has at most 8191 bytes. */
  ghost predicate LinesFit(p: Parser)
    decreases |p.buffer|
  {
    && (p.phase == StatusLine || p.phase == HeaderLines ==>
          HasCrlf(p.buffer) ==> FindCrlf(p.buffer) < MAX_HEADER_BUFFER)
    && (Advance(p).Some? ==> LinesFit(Advance(p).value))
  }

  /** No call but the last ends between a size line and the end of its chunk. */
  ghost predicate CutsOutsideChunks(p: Parser, parts: seq<string>)
    decreases |parts|
  {
    |parts| <= 1 || (!LosesChunkSize(p, parts[0]) && CutsOutsideChunks(Feed(p, parts[0], AsWritten), parts[1..]))
  }

  lemma {:induction false} LinesFitAtStop(p: Parser, more: string)
    requires LinesFit(Append(p, more))
    ensures LinesFit(Append(StopPoint(p), more))
    decreases |p.buffer|
  {
    if Advance(p).Some? {
      AdvanceCommutes(p, more);
      LinesFitAtStop(Advance(p).value, more);
    }
  }

  lemma {:induction false} FinalStays(p: Parser, parts: seq<string>, mode: EraseMode)
    requires p.Final()
    ensures FeedAll(p, parts, mode) == p
    decreases |parts|
  {
    if parts != [] { FinalStays(p, parts[1..], mode); }
  }

  /** A settled parser that goes on waiting has changed only if its body is of a raw kind. */
  lemma SettledUnchanged(q: Parser, mode: EraseMode)
    requires Advance(q).None? && !Settle(q, mode).Final() && (mode == AsWritten ==> !ChunkPending(q))
    ensures q.phase == BodyRaw || q.phase == BodyUntilEof || Settle(q, mode) == q
    ensures Settle(q, mode).phase == q.phase
  {
    match q.phase
    case BodyRaw => SettleIsTakeBody(q, mode);
    case BodyChunked => SettleIsSettleChunk(q, mode);
    case _ =>
  }

  lemma LinesFitAfterFeed(p: Parser, a: string, rest: string, mode: EraseMode)
    requires !p.Final() && LinesFit(Append(p, a + rest)) && !Feed(p, a, mode).Final()
    requires mode == AsWritten ==> !LosesChunkSize(p, a)
    ensures LinesFit(Append(Feed(p, a, mode), rest))
  {
    var q := StopPoint(Append(p, a));
    JoinedAppend(p, a, rest);
    LinesFitAtStop(Append(p, a), rest);
    SettledUnchanged(q, mode);
    if q.phase == BodyRaw || q.phase == BodyUntilEof { LinesFitInBody(Append(Settle(q, mode), rest)); }
  }

  lemma LinesFitInBody(p: Parser)
    requires p.phase == BodyRaw || p.phase == BodyUntilEof
    ensures LinesFit(p)
  {
  }

  lemma CutsAreShort(p: Parser, a: string, rest: string)
    requires LinesFit(Append(p, a + rest)) && Overflows(p, a)
    ensures !HasCrlf(StopPoint(Append(p, a)).buffer + rest)
  {
    var q := StopPoint(Append(p, a));
    JoinedAppend(p, a, rest);
    LinesFitAtStop(Append(p, a), rest);
    if HasCrlf(q.buffer + rest) { LateCrlf(q.buffer, rest); }
  }

  /** However a byte stream is cut, the parser ends as if it had been fed at once. */
  lemma {:induction false} AnyCutAgrees(p: Parser, parts: seq<string>, mode: EraseMode)
    requires !p.Final() && parts != []
    requires LinesFit(Append(p, Concat(parts)))
    requires mode == AsWritten ==> CutsOutsideChunks(p, parts)
    ensures Agree(FeedAll(p, parts, mode), Feed(p, Concat(parts), mode))
    decreases |parts|
  {
    var a, rest := parts[0], Concat(parts[1..]);
    var p1 := Feed(p, a, mode);
    if |parts| == 1 {
      assert a + rest == a;
    } else {
      if Overflows(p, a) { CutsAreShort(p, a, rest); }
      TwoFeedsAgree(p, a, rest, mode);
      if p1.Final() {
        FinalStays(p1, parts[1..], mode);
      } else {
        LinesFitAfterFeed(p, a, rest, mode);
        AnyCutAgrees(p1, parts[1..], mode);
      }
    }
  }

  lemma CollectStep(p: Parser, data: string)
    requires p.phase == BodyUntilEof && p.buffer == ""
    ensures Feed(p, data, AsWritten) == p.(response := p.response.(body := p.response.body + data))
  {
    NoRoundsInBody(Append(p, data));
    assert "" + data == data;
  }

  /** A body that ends with the connection is collected, but never completes. */
  lemma {:induction false} UntilEofNeverCompletes(p: Parser, parts: seq<string>)
    requires p.phase == BodyUntilEof && p.buffer == ""
    ensures var q := FeedAll(p, parts, AsWritten);
      q.phase == BodyUntilEof && q.response.body == p.response.body + Concat(parts)
    decreases |parts|
  {
    if parts == [] {
      assert p.response.body + "" == p.response.body;
    } else {
      CollectStep(p, parts[0]);
      UntilEofNeverCompletes(Feed(p, parts[0], AsWritten), parts[1..]);
      assert p.response.body + parts[0] + Concat(parts[1..]) == p.response.body + (parts[0] + Concat(parts[1..]));
    }
  }
}
