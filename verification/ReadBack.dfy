/** Reading back what was printed: field lines, status lines, the head of a response. */
module ReadBack {
  import opened Wrappers
  import opened Text
  import opened Headers
  import opened ParserSpec

  // ----- the printed form -----

  function FieldLine(f: Field): string { f.name + ": " + f.value }

  function HeaderBlock(fields: seq<Field>): string {
    if fields == [] then "" else FieldLine(fields[0]) + "\r\n" + HeaderBlock(fields[1..])
  }

  /** A name without ':', a value without outer blanks, and no line break inside the line. */
  predicate Printable(f: Field) {
    f.name != "" && ':' !in f.name && Trimmed(f.value) && !HasCrlf(FieldLine(f))
  }

  predicate AllPrintable(fields: seq<Field>) { forall i :: 0 <= i < |fields| ==> Printable(fields[i]) }

  function StatusText(status: nat, reason: string): string { "HTTP/1.1 " + Decimal(status) + " " + reason }

  function PrintHead(r: Response): string {
    StatusText(r.status, r.reason) + "\r\n" + HeaderBlock(r.fields) + "\r\n"
  }

  predicate PrintableHead(r: Response) {
    100 <= r.status <= 599 && !HasCrlf(StatusText(r.status, r.reason)) && AllPrintable(r.fields)
  }

  /** No line is as long as the parser's limit for unfinished lines. */
  predicate ShortLines(r: Response) {
    && |StatusText(r.status, r.reason)| < MAX_HEADER_BUFFER
    && forall i :: 0 <= i < |r.fields| ==> |FieldLine(r.fields[i])| < MAX_HEADER_BUFFER
  }

  // ----- one line -----

  lemma TrimOneBlank(v: string)
    requires Trimmed(v)
    ensures Trim(" " + v) == v
  {
    assert (" " + v)[1..] == v;
    assert TrimLeft(" " + v) == TrimLeft(v) == v;
  }

  /** A printed field line parses to the field. */
  lemma FieldLineReads(f: Field)
    requires Printable(f)
    ensures ParseHeaderLine(FieldLine(f)) == Ok(f)
  {
    var line := FieldLine(f);
    assert line == f.name + [':'] + (" " + f.value);
    FindSplits(f.name, ':', " " + f.value);
    assert line[..|f.name|] == f.name && line[|f.name| + 1..] == " " + f.value;
    TrimOneBlank(f.value);
  }

  lemma DigitsAreNotBlank(s: string)
    requires AllDigits(s, 10)
    ensures ' ' !in s
  {
  }

  /** Where the blanks of a printed status line are, and what is between them. */
  lemma StatusTextSplits(digits: string, reason: string)
    requires ' ' !in digits
    ensures var line, sp2 := "HTTP/1.1 " + digits + " " + reason, 9 + |digits|;
      && Find(line, ' ') == 8 && line[..7] == "HTTP/1." && FindFrom(line, ' ', 9) == sp2
      && line[9..sp2] == digits && sp2 < |line| && line[sp2 + 1..] == reason
  {
    var line, sp2 := "HTTP/1.1 " + digits + " " + reason, 9 + |digits|;
    assert line == "HTTP/1.1" + [' '] + (digits + " " + reason);
    FindSplits("HTTP/1.1", ' ', digits + " " + reason);
    assert line[..7] == "HTTP/1.";
    assert line[9..sp2] == digits && line[sp2] == ' ';
    assert forall i :: 9 <= i < sp2 ==> line[i] == digits[i - 9];
    assert line[sp2 + 1..] == reason;
  }

  /** A printed status line parses to its code and reason. */
  lemma StatusTextReads(status: nat, reason: string)
    requires 100 <= status <= 599
    ensures ParseStatusLine(StatusText(status, reason)) == Ok((status, reason))
  {
    DigitsAreNotBlank(Decimal(status));
    StatusTextSplits(Decimal(status), reason);
  }

  // ----- the header section -----

  function WithFields(p: Parser, fields: seq<Field>, buffer: string): Parser {
    p.(response := p.response.(fields := p.response.fields + fields), buffer := buffer)
  }

  lemma BlockSplits(fields: seq<Field>, rest: string)
    requires fields != []
    ensures HeaderBlock(fields) + rest == FieldLine(fields[0]) + "\r\n" + (HeaderBlock(fields[1..]) + rest)
  {
  }

  lemma FieldsJoin(p: Parser, fields: seq<Field>, mid: string, rest: string)
    requires fields != []
    ensures WithFields(WithFields(p, [fields[0]], mid), fields[1..], rest) == WithFields(p, fields, rest)
  {
    assert p.response.fields + [fields[0]] + fields[1..] == p.response.fields + fields;
  }

  /** A parser that meets a printed header block appends exactly those fields, in order. */
  lemma {:induction false} HeaderBlockReads(p: Parser, fields: seq<Field>, rest: string)
    requires p.phase == HeaderLines && AllPrintable(fields)
    requires p.buffer == HeaderBlock(fields) + rest
    ensures StopPoint(p) == StopPoint(WithFields(p, fields, rest))
    decreases |fields|
  {
    if fields == [] {
      assert p.response.fields + fields == p.response.fields;
      assert p.buffer == rest;
    } else {
      var f, tail := fields[0], HeaderBlock(fields[1..]) + rest;
      BlockSplits(fields, rest);
      FieldLineAdvances(p, f, tail);
      var next := WithFields(p, [f], tail);
      HeaderBlockReads(next, fields[1..], rest);
      FieldsJoin(p, fields, tail, rest);
    }
  }

  lemma FieldLineAdvances(p: Parser, f: Field, tail: string)
    requires p.phase == HeaderLines && Printable(f) && p.buffer == FieldLine(f) + "\r\n" + tail
    ensures Advance(p) == Some(WithFields(p, [f], tail))
  {
    LineEndsAtCrlf(FieldLine(f), tail);
    FieldLineReads(f);
  }

  lemma StatusTextAdvances(p: Parser, status: nat, reason: string, tail: string)
    requires p.phase == StatusLine && 100 <= status <= 599 && !HasCrlf(StatusText(status, reason))
    requires p.buffer == StatusText(status, reason) + "\r\n" + tail
    ensures Advance(p)
      == Some(p.(phase := HeaderLines, response := p.response.(status := status, reason := reason), buffer := tail))
  {
    LineEndsAtCrlf(StatusText(status, reason), tail);
    StatusTextReads(status, reason);
  }

  lemma BlankLineAdvances(p: Parser, tail: string)
    requires p.phase == HeaderLines && p.buffer == "\r\n" + tail
    ensures Advance(p) == Some(BeginBody(p.(buffer := tail)))
  {
    LineEndsAtCrlf("", tail);
    assert "" + "\r\n" + tail == p.buffer;
  }

  /** The state in which a fresh parser has read the head of `r` and has `rest` left. */
  ghost function AfterHead(r: Response, rest: string): Parser {
    BeginBody(FRESH.(phase := HeaderLines, response := r.(body := ""), buffer := rest))
  }

  /** From the first field to the body. */
  lemma FieldsRead(p: Parser, r: Response, rest: string)
    requires AllPrintable(r.fields) && p.buffer == HeaderBlock(r.fields) + ("\r\n" + rest)
    requires p == FRESH.(phase := HeaderLines, response := Response(r.status, r.reason, [], ""), buffer := p.buffer)
    ensures StopPoint(p) == StopPoint(AfterHead(r, rest))
  {
    var q := FRESH.(phase := HeaderLines, response := r.(body := ""), buffer := "\r\n" + rest);
    HeaderBlockReads(p, r.fields, "\r\n" + rest);
    assert WithFields(p, r.fields, "\r\n" + rest) == q by { assert [] + r.fields == r.fields; }
    BlankLineAdvances(q, rest);
  }

  /** A printed head is read completely: status, reason and the same fields in the same order. */
  lemma HeadReads(r: Response, rest: string)
    requires PrintableHead(r)
    ensures StopPoint(Append(FRESH, PrintHead(r) + rest)) == StopPoint(AfterHead(r, rest))
  {
    var tail := HeaderBlock(r.fields) + ("\r\n" + rest);
    var p := Append(FRESH, PrintHead(r) + rest);
    assert p.buffer == StatusText(r.status, r.reason) + "\r\n" + tail;
    StatusTextAdvances(p, r.status, r.reason, tail);
    var p1 := Advance(p).value;
    FieldsRead(p1, r, rest);
    assert StopPoint(p) == StopPoint(p1);
  }
}
