/** Which cuts of a chunked response the parser survives, by position, and when reads can avoid the others. */
module ChunkCuts {
  import opened Text
  import opened Headers
  import opened ParserSpec
  import opened Fragmentation
  import opened ReadBack
  import opened EndToEnd
  import opened ChunkCoding

  /** The most that one read can bring. */
  const READ_SIZE: nat := 8192

  // ----- positions inside chunks -----

  function SizeText(c: Chunk): string { c.size + c.extension }

  /** Where the data of a chunk starts, and where the chunk ends, from where it begins. */
  function DataStart(c: Chunk): nat { |SizeText(c)| + 2 }

  function ChunkEnd(c: Chunk): nat { DataStart(c) + |c.data| + 2 }

  /** The size line of a chunk has ended before `x`, and the chunk itself has not. */
  predicate InsideChunk(chunks: seq<Chunk>, x: nat)
    decreases |chunks|
  {
    && chunks != [] && DataStart(chunks[0]) <= x
    && (x < ChunkEnd(chunks[0]) || InsideChunk(chunks[1..], x - ChunkEnd(chunks[0])))
  }

  predicate CutInside(r: Response, chunks: seq<Chunk>, x: nat) {
    |PrintHead(r)| <= x && InsideChunk(chunks, x - |PrintHead(r)|)
  }

  // ----- what the parser makes of a prefix -----

  lemma ShortPrefixHasNoCrlf(line: string, rest: string, s: string)
    requires !HasCrlf(line) && s <= line + "\r\n" + rest && |s| < |line| + 2
    ensures !HasCrlf(s)
  {
    LineEndsAtCrlf(line, rest);
    var t := line + "\r\n" + rest;
    assert forall i :: 0 <= i < |s| ==> s[i] == t[i];
    assert forall i :: CrlfAt(s, i) ==> CrlfAt(t, i);
  }

  lemma LongPrefixSplits(line: string, rest: string, s: string)
    requires s <= line + "\r\n" + rest && |s| >= |line| + 2
    ensures var tail := s[|line| + 2..]; s == line + "\r\n" + tail && tail <= rest
  {
    var t := line + "\r\n" + rest;
    assert s == t[..|s|] && t[|line| + 2..] == rest;
    assert s[..|line| + 2] == t[..|line| + 2] == line + "\r\n";
  }

  lemma NoLineNoRound(p: Parser)
    requires !HasCrlf(p.buffer)
    ensures StopPoint(p) == p && !ChunkPending(p)
  {
  }

  /** A prefix of an encoded body leaves the parser with a chunk pending exactly when it ends inside one. */
  lemma {:induction false} BodyPrefix(p: Parser, chunks: seq<Chunk>, last: string, extension: string)
    requires p.phase == BodyChunked && p.buffer <= Encode(chunks, last, extension)
    requires AllValid(chunks) && SizeLine(last, extension, 0)
    ensures ChunkPending(StopPoint(p)) <==> InsideChunk(chunks, |p.buffer|)
    decreases |chunks|
  {
    if chunks == [] {
      LastPrefix(p, last, extension);
    } else {
      var c, rest := chunks[0], Encode(chunks[1..], last, extension);
      assert p.buffer <= SizeText(c) + "\r\n" + (c.data + "\r\n" + rest);
      if |p.buffer| < DataStart(c) {
        ShortPrefixHasNoCrlf(SizeText(c), c.data + "\r\n" + rest, p.buffer);
        NoLineNoRound(p);
      } else if |p.buffer| < ChunkEnd(c) {
        LongPrefixSplits(SizeText(c), c.data + "\r\n" + rest, p.buffer);
        PartOfChunk(p, c, p.buffer[DataStart(c)..]);
      } else {
        var next := WholeChunk(p, c, rest);
        BodyPrefix(next, chunks[1..], last, extension);
      }
    }
  }

  lemma LastPrefix(p: Parser, last: string, extension: string)
    requires p.phase == BodyChunked && p.buffer <= last + extension + "\r\n" + "\r\n" && SizeLine(last, extension, 0)
    ensures !ChunkPending(StopPoint(p))
  {
    var line := last + extension;
    if |p.buffer| < |line| + 2 {
      ShortPrefixHasNoCrlf(line, "\r\n", p.buffer);
      NoLineNoRound(p);
    } else {
      LongPrefixSplits(line, "\r\n", p.buffer);
      LineEndsAtCrlf(line, p.buffer[|line| + 2..]);
      SizeLineReads(last, extension, 0);
      assert StopPoint(p) == p;
    }
  }

  lemma PartOfChunk(p: Parser, c: Chunk, part: string)
    requires p.phase == BodyChunked && ValidChunk(c) && p.buffer == SizeText(c) + "\r\n" + part && |part| < |c.data| + 2
    ensures ChunkPending(StopPoint(p))
  {
    LineEndsAtCrlf(SizeText(c), part);
    SizeLineReads(c.size, c.extension, |c.data|);
    assert StopPoint(p) == p;
  }

  lemma WholeChunk(p: Parser, c: Chunk, rest: string) returns (next: Parser)
    requires p.phase == BodyChunked && ValidChunk(c) && |p.buffer| >= ChunkEnd(c)
    requires p.buffer <= SizeText(c) + "\r\n" + (c.data + "\r\n" + rest)
    ensures next.phase == BodyChunked && StopPoint(p) == StopPoint(next)
    ensures next.buffer <= rest && |next.buffer| == |p.buffer| - ChunkEnd(c)
  {
    var tail := p.buffer[DataStart(c)..];
    LongPrefixSplits(SizeText(c), c.data + "\r\n" + rest, p.buffer);
    LongPrefixSplits(c.data, rest, tail);
    var left := tail[|c.data| + 2..];
    ChunkAdvances(p, c, left);
    next := WithBody(p, c.data, left);
  }

  lemma {:induction false} FieldsPrefix(p: Parser, fields: seq<Field>)
    requires p.phase == HeaderLines && AllPrintable(fields)
    requires p.buffer <= HeaderBlock(fields) + "\r\n" && |p.buffer| < |HeaderBlock(fields) + "\r\n"|
    ensures StopPoint(p).phase == HeaderLines
    decreases |fields|
  {
    if fields == [] {
      ShortPrefixHasNoCrlf("", "", p.buffer);
      NoLineNoRound(p);
    } else {
      var line, rest := FieldLine(fields[0]), HeaderBlock(fields[1..]) + "\r\n";
      BlockSplits(fields, "\r\n");
      if |p.buffer| < |line| + 2 {
        ShortPrefixHasNoCrlf(line, rest, p.buffer);
        NoLineNoRound(p);
      } else {
        var tail := p.buffer[|line| + 2..];
        LongPrefixSplits(line, rest, p.buffer);
        FieldLineAdvances(p, fields[0], tail);
        FieldsPrefix(WithFields(p, [fields[0]], tail), fields[1..]);
      }
    }
  }

  /** A parser that has not seen the whole head is not in the body. */
  lemma HeadPrefix(r: Response, a: string)
    requires PrintableHead(r) && a <= PrintHead(r) && |a| < |PrintHead(r)|
    ensures var q := StopPoint(Append(FRESH, a)); q.phase == StatusLine || q.phase == HeaderLines
  {
    var p, line, rest := Append(FRESH, a), StatusText(r.status, r.reason), HeaderBlock(r.fields) + "\r\n";
    assert p.buffer == a && PrintHead(r) == line + "\r\n" + rest;
    if |a| < |line| + 2 {
      ShortPrefixHasNoCrlf(line, rest, a);
      NoLineNoRound(p);
    } else {
      var tail := a[|line| + 2..];
      LongPrefixSplits(line, rest, a);
      StatusTextAdvances(p, r.status, r.reason, tail);
      FieldsPrefix(Advance(p).value, r.fields);
    }
  }

  lemma PrefixBeyond(head: string, rest: string, a: string)
    requires a <= head + rest && |a| >= |head|
    ensures a == head + a[|head|..] && a[|head|..] <= rest
  {
    assert a == (head + rest)[..|a|];
  }

  lemma PrefixPendingIff(r: Response, chunks: seq<Chunk>, last: string, extension: string, a: string)
    requires Sent(r, chunks, last, extension) && a <= PrintChunked(r, chunks, last, extension)
    ensures ChunkPending(StopPoint(Append(FRESH, a))) <==> CutInside(r, chunks, |a|)
  {
    var head, coded := PrintHead(r), Encode(chunks, last, extension);
    if |a| < |head| {
      assert a <= head;
      HeadPrefix(r, a);
    } else {
      var tail := a[|head|..];
      PrefixBeyond(head, coded, a);
      HeadReads(r, tail);
      BodyPrefix(AfterHead(r, tail), chunks, last, extension);
    }
  }

  // ----- cuts -----

  /** Whether a chunk is pending after these bytes depends on the bytes alone, unless a size was lost before. */
  lemma PendingCarries(p: Parser, a: string, more: string)
    requires !p.Final() && !LosesChunkSize(p, a) && LinesFit(Append(p, a + more))
    ensures var q := Feed(p, a, AsWritten);
      ChunkPending(StopPoint(Append(p, a + more))) <==> !q.Final() && ChunkPending(StopPoint(Append(q, more)))
  {
    var q := StopPoint(Append(p, a));
    JoinedAppend(p, a, more);
    StopPointCommutes(Append(p, a), more);
    if q.phase == BodyRaw || q.phase == BodyUntilEof {
      NoRoundsInBody(Append(q, more));
      if !Settle(q, AsWritten).Final() {
        SettledUnchanged(q, AsWritten);
        NoRoundsInBody(Append(Settle(q, AsWritten), more));
      }
    } else if !Settle(q, AsWritten).Final() {
      SettledUnchanged(q, AsWritten);
    } else if q.phase == BodyChunked {
      EndedStays(q, more);
    } else {
      StopPointPhase(Append(p, a));
      RefusedStays(p, a, more);
    }
  }

  lemma EndedStays(q: Parser, more: string)
    requires q.phase == BodyChunked && Advance(q).None? && Settle(q, AsWritten).Final()
    ensures !ChunkPending(StopPoint(Append(q, more)))
  {
    SettleIsSettleChunk(q, AsWritten);
    LinesCommute(q.buffer, more);
    assert Advance(Append(q, more)).None?;
  }

  ghost predicate PendingAfter(p: Parser, parts: seq<string>, k: nat)
    requires k <= |parts|
  {
    ChunkPending(StopPoint(Append(p, Concat(parts[..k]))))
  }

  ghost predicate NeverPending(p: Parser, parts: seq<string>) {
    forall k :: 0 < k < |parts| ==> !PendingAfter(p, parts, k)
  }

  lemma FirstParts(parts: seq<string>, k: nat)
    requires 0 < k <= |parts|
    ensures Concat(parts[..k]) == parts[0] + Concat(parts[1..][..k - 1])
  {
    assert parts[..k][0] == parts[0] && parts[..k][1..] == parts[1..][..k - 1];
  }

  lemma FirstPartsFitLines(p: Parser, parts: seq<string>, k: nat)
    requires k <= |parts| && LinesFit(Append(p, Concat(parts)))
    ensures LinesFit(Append(p, Concat(parts[..k])))
  {
    ConcatSplits(parts, k);
    JoinedAppend(p, Concat(parts[..k]), Concat(parts[k..]));
    ShorterFits(Append(p, Concat(parts[..k])), Concat(parts[k..]));
  }

  lemma PendingStep(p: Parser, parts: seq<string>, k: nat)
    requires !p.Final() && 1 < k < |parts| && !LosesChunkSize(p, parts[0]) && LinesFit(Append(p, Concat(parts)))
    ensures var q := Feed(p, parts[0], AsWritten);
      PendingAfter(p, parts, k) <==> !q.Final() && PendingAfter(q, parts[1..], k - 1)
  {
    FirstParts(parts, k);
    FirstPartsFitLines(p, parts, k);
    PendingCarries(p, parts[0], Concat(parts[1..][..k - 1]));
  }

  lemma FirstPending(p: Parser, parts: seq<string>)
    requires !p.Final() && parts != []
    ensures PendingAfter(p, parts, 1) == LosesChunkSize(p, parts[0])
  {
    assert parts[..1] == [parts[0]] && Concat([parts[0]]) == parts[0];
  }

  lemma {:induction false} CutsOutsideIsNeverPending(p: Parser, parts: seq<string>)
    requires !p.Final() && LinesFit(Append(p, Concat(parts)))
    ensures CutsOutsideChunks(p, parts) <==> NeverPending(p, parts)
    decreases |parts|
  {
    if |parts| > 1 {
      var q, rest := Feed(p, parts[0], AsWritten), parts[1..];
      FirstPending(p, parts);
      if !LosesChunkSize(p, parts[0]) {
        forall k | 1 < k < |parts|
          ensures PendingAfter(p, parts, k) <==> !q.Final() && PendingAfter(q, rest, k - 1)
        {
          PendingStep(p, parts, k);
        }
        if q.Final() {
          NoCutsAfterEnd(q, rest);
        } else {
          LinesFitAfterFeed(p, parts[0], Concat(rest), AsWritten);
          CutsOutsideIsNeverPending(q, rest);
          NeverPendingCons(p, q, parts);
        }
      }
    }
  }

  lemma NeverPendingCons(p: Parser, q: Parser, parts: seq<string>)
    requires |parts| > 1 && !PendingAfter(p, parts, 1)
    requires forall k :: 1 < k < |parts| ==> (PendingAfter(p, parts, k) <==> PendingAfter(q, parts[1..], k - 1))
    ensures NeverPending(p, parts) <==> NeverPending(q, parts[1..])
  {
    if NeverPending(p, parts) {
      forall k | 0 < k < |parts[1..]| ensures !PendingAfter(q, parts[1..], k) {
        assert !PendingAfter(p, parts, k + 1);
      }
    }
  }

  lemma {:induction false} NoCutsAfterEnd(p: Parser, parts: seq<string>)
    requires p.Final()
    ensures CutsOutsideChunks(p, parts)
    decreases |parts|
  {
    if |parts| > 1 { NoCutsAfterEnd(Feed(p, parts[0], AsWritten), parts[1..]); }
  }

  /** The condition on the cuts of a chunked response, in terms of their positions alone. */
  lemma CutsOutsideIff(r: Response, chunks: seq<Chunk>, last: string, extension: string, parts: seq<string>)
    requires Sent(r, chunks, last, extension) && Concat(parts) == PrintChunked(r, chunks, last, extension)
    ensures CutsOutsideChunks(FRESH, parts)
      <==> forall k :: 0 < k < |parts| ==> !CutInside(r, chunks, |Concat(parts[..k])|)
  {
    ChunkedFits(r, chunks, last, extension);
    CutsOutsideIsNeverPending(FRESH, parts);
    forall k | 0 < k < |parts| ensures PendingAfter(FRESH, parts, k) <==> CutInside(r, chunks, |Concat(parts[..k])|) {
      ConcatSplits(parts, k);
      PrefixPendingIff(r, chunks, last, extension, Concat(parts[..k]));
    }
  }

  // ----- reads of bounded size -----

  /** Non-empty reads, none larger than the receive buffer. */
  predicate Reads(parts: seq<string>) { forall i :: 0 <= i < |parts| ==> 0 < |parts[i]| <= READ_SIZE }

  /** Some read is the first to reach a position, and goes less than one buffer beyond it. */
  lemma {:induction false} FirstToReach(parts: seq<string>, x: nat) returns (k: nat)
    requires Reads(parts) && 0 < x <= |Concat(parts)|
    ensures 0 < k <= |parts| && x <= |Concat(parts[..k])| < x + READ_SIZE
    decreases |parts|
  {
    if |parts[0]| >= x {
      k := 1;
      assert parts[..1] == [parts[0]] && Concat([parts[0]]) == parts[0];
    } else {
      var j := FirstToReach(parts[1..], x - |parts[0]|);
      k := j + 1;
      assert parts[..k][0] == parts[0] && parts[..k][1..] == parts[1..][..j];
    }
  }

  /** The positions inside the i-th chunk. */
  lemma {:induction false} ChunkInterval(chunks: seq<Chunk>, last: string, extension: string, i: nat) returns (x: nat)
    requires i < |chunks|
    ensures 0 < x && x + |chunks[i].data| + 2 <= |Encode(chunks, last, extension)|
    ensures forall y :: x <= y < x + |chunks[i].data| + 2 ==> InsideChunk(chunks, y)
    decreases i
  {
    var c := chunks[0];
    if i == 0 {
      x := DataStart(c);
    } else {
      var z := ChunkInterval(chunks[1..], last, extension, i - 1);
      x := ChunkEnd(c) + z;
      forall y | x <= y < x + |chunks[i].data| + 2 ensures InsideChunk(chunks, y) {
        assert InsideChunk(chunks[1..], y - ChunkEnd(c));
      }
    }
  }

  /** The largest chunk that fits one read together with the end of its size line and its own line end. */
  const LARGEST: nat := READ_SIZE - 3

  predicate AllFit(chunks: seq<Chunk>) { forall i :: 0 <= i < |chunks| ==> |chunks[i].data| <= LARGEST }

  /** A chunk that is too large for one read is always cut. */
  lemma LargeChunkIsCut(r: Response, chunks: seq<Chunk>, last: string, extension: string, parts: seq<string>, i: nat)
    requires Sent(r, chunks, last, extension) && Concat(parts) == PrintChunked(r, chunks, last, extension)
    requires Reads(parts) && i < |chunks| && |chunks[i].data| > LARGEST
    ensures !CutsOutsideChunks(FRESH, parts)
  {
    var head := |PrintHead(r)|;
    var x := ChunkInterval(chunks, last, extension, i);
    var k := FirstToReach(parts, head + x);
    var y := |Concat(parts[..k])| - head;
    assert InsideChunk(chunks, y);
    assert parts[..|parts|] == parts;
    assert CutInside(r, chunks, |Concat(parts[..k])|);
    CutsOutsideIff(r, chunks, last, extension, parts);
  }

  // The other direction: reads of one byte each, and one read for each chunk.

  function Bytes(s: string): (r: seq<string>)
    ensures |r| == |s| && forall i :: 0 <= i < |s| ==> r[i] == [s[i]]
  {
    seq(|s|, i => ByteAt(s, i))
  }

  function ByteAt(s: string, i: int): string { if 0 <= i < |s| then [s[i]] else "" }

  lemma BytesTail(s: string, k: nat)
    requires 0 < k <= |s|
    ensures Bytes(s)[0] == [s[0]] && Bytes(s)[1..] == Bytes(s[1..])
    ensures s[..k] == [s[0]] + s[1..][..k - 1]
  {
  }

  lemma {:induction false} BytesJoin(s: string, k: nat)
    requires k <= |s|
    ensures Concat(Bytes(s)[..k]) == s[..k]
    decreases k
  {
    if k > 0 {
      BytesJoin(s[1..], k - 1);
      FirstParts(Bytes(s), k);
      BytesTail(s, k);
    }
  }

  lemma {:induction false} ConcatJoins(a: seq<string>, b: seq<string>)
    ensures Concat(a + b) == Concat(a) + Concat(b)
    decreases |a|
  {
    if a == [] {
      assert a + b == b;
    } else {
      assert (a + b)[0] == a[0] && (a + b)[1..] == a[1..] + b;
      ConcatJoins(a[1..], b);
    }
  }

  /** A prefix of two lists of reads lies in the first, or holds all of it. */
  lemma PrefixOfTwo(a: seq<string>, b: seq<string>, k: nat)
    requires k <= |a| + |b|
    ensures |Concat((a + b)[..k])| == if k <= |a| then |Concat(a[..k])| else |Concat(a)| + |Concat(b[..k - |a|])|
  {
    if k <= |a| {
      assert (a + b)[..k] == a[..k];
    } else {
      assert (a + b)[..k] == a + b[..k - |a|];
      ConcatJoins(a, b[..k - |a|]);
    }
  }

  /** One read for a chunk: the last byte of its size line, the data, the line end. */
  function WholeRead(c: Chunk): string { "\n" + (c.data + "\r\n") }

  function Gentle(chunks: seq<Chunk>, last: string, extension: string): seq<string> {
    if chunks == [] then Bytes(last + extension + "\r\n" + "\r\n")
    else Bytes(SizeText(chunks[0]) + "\r") + ([WholeRead(chunks[0])] + Gentle(chunks[1..], last, extension))
  }

  lemma BytesAreReads(s: string)
    ensures Reads(Bytes(s)) && Concat(Bytes(s)) == s && |Bytes(s)| == |s|
  {
    BytesJoin(s, |s|);
    assert Bytes(s)[..|s|] == Bytes(s) && s[..|s|] == s;
  }

  lemma {:induction false} GentleIsWhole(chunks: seq<Chunk>, last: string, extension: string)
    requires AllFit(chunks)
    ensures Reads(Gentle(chunks, last, extension))
    ensures Concat(Gentle(chunks, last, extension)) == Encode(chunks, last, extension)
    decreases |chunks|
  {
    if chunks == [] {
      BytesAreReads(last + extension + "\r\n" + "\r\n");
    } else {
      var c, rest := chunks[0], Gentle(chunks[1..], last, extension);
      GentleIsWhole(chunks[1..], last, extension);
      BytesAreReads(SizeText(c) + "\r");
      ConcatJoins(Bytes(SizeText(c) + "\r"), [WholeRead(c)] + rest);
      ConcatJoins([WholeRead(c)], rest);
      assert Concat([WholeRead(c)]) == WholeRead(c);
      JoinsToChunk(c, Encode(chunks[1..], last, extension));
    }
  }

  lemma JoinsToChunk(c: Chunk, rest: string)
    ensures SizeText(c) + "\r" + (WholeRead(c) + rest) == c.size + c.extension + "\r\n" + (c.data + "\r\n" + rest)
  {
    assert "\r" + "\n" == "\r\n";
  }

  /** No prefix of these reads ends inside a chunk. */
  lemma {:induction false} GentleIsOutside(chunks: seq<Chunk>, last: string, extension: string, k: nat)
    requires k <= |Gentle(chunks, last, extension)|
    ensures !InsideChunk(chunks, |Concat(Gentle(chunks, last, extension)[..k])|)
    decreases |chunks|
  {
    if chunks != [] {
      var c, rest := chunks[0], Gentle(chunks[1..], last, extension);
      var line := SizeText(c) + "\r";
      PrefixOfTwo(Bytes(line), [WholeRead(c)] + rest, k);
      if k <= |line| {
        BytesJoin(line, k);
      } else {
        var j := k - |line| - 1;
        BytesAreReads(line);
        PrefixOfTwo([WholeRead(c)], rest, j + 1);
        WholeReadLength(c, rest, j);
        GentleIsOutside(chunks[1..], last, extension, j);
      }
    }
  }

  lemma WholeReadLength(c: Chunk, rest: seq<string>, j: nat)
    requires j <= |rest|
    ensures |Concat(([WholeRead(c)] + rest)[..j + 1])| == |c.data| + 3 + |Concat(rest[..j])|
  {
    var all := [WholeRead(c)] + rest;
    assert all[..j + 1][0] == WholeRead(c) && all[..j + 1][1..] == rest[..j];
  }

  lemma GentleCut(r: Response, chunks: seq<Chunk>, last: string, extension: string, k: nat)
    requires var parts := Bytes(PrintHead(r)) + Gentle(chunks, last, extension); k <= |parts|
    ensures var parts := Bytes(PrintHead(r)) + Gentle(chunks, last, extension);
      !CutInside(r, chunks, |Concat(parts[..k])|)
  {
    var head, body := PrintHead(r), Gentle(chunks, last, extension);
    BytesAreReads(head);
    PrefixOfTwo(Bytes(head), body, k);
    if k <= |head| {
      BytesJoin(head, k);
      StartIsOutside(chunks);
    } else {
      GentleIsOutside(chunks, last, extension, k - |head|);
    }
  }

  lemma GentleReads(r: Response, chunks: seq<Chunk>, last: string, extension: string) returns (parts: seq<string>)
    requires Sent(r, chunks, last, extension) && AllFit(chunks)
    ensures Reads(parts) && Concat(parts) == PrintChunked(r, chunks, last, extension) && CutsOutsideChunks(FRESH, parts)
  {
    var head, body := PrintHead(r), Gentle(chunks, last, extension);
    parts := Bytes(head) + body;
    BytesAreReads(head);
    GentleIsWhole(chunks, last, extension);
    ConcatJoins(Bytes(head), body);
    forall k | 0 < k < |parts| ensures !CutInside(r, chunks, |Concat(parts[..k])|) {
      GentleCut(r, chunks, last, extension, k);
    }
    CutsOutsideIff(r, chunks, last, extension, parts);
  }

  lemma StartIsOutside(chunks: seq<Chunk>)
    ensures !InsideChunk(chunks, 0)
  {
  }

  /**
   A chunked response can be received from reads of at most 8192 bytes without a chunk being cut if
   and only if no chunk has more than 8189 bytes.
   */
  lemma UncutReadsExistIff(r: Response, chunks: seq<Chunk>, last: string, extension: string)
    requires Sent(r, chunks, last, extension)
    ensures (exists parts :: Reads(parts) && Concat(parts) == PrintChunked(r, chunks, last, extension)
                             && CutsOutsideChunks(FRESH, parts))
      <==> AllFit(chunks)
  {
    if AllFit(chunks) {
      var parts := GentleReads(r, chunks, last, extension);
    } else {
      var i :| 0 <= i < |chunks| && |chunks[i].data| > LARGEST;
      forall parts | Reads(parts) && Concat(parts) == PrintChunked(r, chunks, last, extension)
        ensures !CutsOutsideChunks(FRESH, parts)
      {
        LargeChunkIsCut(r, chunks, last, extension, parts, i);
      }
    }
  }
}
