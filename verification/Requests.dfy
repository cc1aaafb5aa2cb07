/** Printing requests (`http_request`) and pushing the bytes through a connection. */
module Requests {
  import opened Wrappers
  import opened Text
  import opened Headers
  import opened Buffers
  import opened ReadBack
  import opened LineForms
  import Spec = ParserSpec

  datatype Method = Get | Post | Put | Patch | Delete | Head | Options | Trace | Connect

  function Token(m: Method): string {
    match m
    case Get => "GET"
    case Post => "POST"
    case Put => "PUT"
    case Patch => "PATCH"
    case Delete => "DELETE"
    case Head => "HEAD"
    case Options => "OPTIONS"
    case Trace => "TRACE"
    case Connect => "CONNECT"
  }

  datatype Request = Request(
    method_: Method, uri: string, host: string, scheme: string, port: nat, fields: seq<Field>, body: string)

  function RequestLine(m: Method, uri: string): string { Token(m) + " " + uri + " HTTP/1.1" }

  predicate CleanUri(uri: string) { '\r' !in uri && '\n' !in uri }

  /** The bytes sent for a request; nothing at all when the URI holds a line break. */
  function Serialize(r: Request): string {
    if CleanUri(r.uri) then RequestLine(r.method_, r.uri) + "\r\n" + HeaderBlock(r.fields) + "\r\n" + r.body else ""
  }

  /** The printer. */
  method SerializeRequest(r: Request) returns (buf: ByteBuffer)
    ensures fresh(buf) && fresh(buf.data) && buf.Valid() && buf.Contents() == Serialize(r)
  {
    buf := new ByteBuffer();
    if !CleanUri(r.uri) { return; }
    var line := RequestLine(r.method_, r.uri) + "\r\n";
    WritePieces(buf, line, r.fields, r.body);
    assert "" + line == line;
  }

  /** The pieces in order. */
  method WritePieces(buf: ByteBuffer, line: string, fields: seq<Field>, body: string)
    requires buf.Valid() && buf.data.Length >= 1
    modifies buf, buf.data
    ensures buf.Valid() && (buf.data == old(buf.data) || fresh(buf.data))
    ensures buf.Contents() == old(buf.Contents()) + line + HeaderBlock(fields) + "\r\n" + body
  {
    buf.Write(line);
    WriteFields(buf, fields);
    buf.Write("\r\n");
    assert buf.Contents() + "" == buf.Contents();
    if |body| > 0 {
      buf.Write(body);
    }
  }

  /** The loop over the fields. */
  method WriteFields(buf: ByteBuffer, fields: seq<Field>)
    requires buf.Valid() && buf.data.Length >= 1
    modifies buf, buf.data
    ensures buf.Valid() && buf.data.Length >= 1 && (buf.data == old(buf.data) || fresh(buf.data))
    ensures buf.Contents() == old(buf.Contents()) + HeaderBlock(fields)
  {
    ghost var goal := buf.Contents() + HeaderBlock(fields);
    for i := 0 to |fields|
      invariant buf.Valid() && buf.data.Length >= 1 && (buf.data == old(buf.data) || fresh(buf.data))
      invariant buf.Contents() + HeaderBlock(fields[i..]) == goal
    {
      BlockStep(buf.Contents(), fields, i);
      buf.Write(fields[i].name + ": " + fields[i].value + "\r\n");
    }
    assert buf.Contents() + "" == buf.Contents();
  }

  lemma BlockStep(before: string, fields: seq<Field>, i: nat)
    requires i < |fields|
    ensures before + HeaderBlock(fields[i..])
      == before + (fields[i].name + ": " + fields[i].value + "\r\n") + HeaderBlock(fields[i + 1..])
  {
    assert fields[i..][1..] == fields[i + 1..];
    assert HeaderBlock(fields[i..]) == FieldLine(fields[i]) + "\r\n" + HeaderBlock(fields[i + 1..]);
  }

  // ----- reading a request back -----

  /** Field lines up to the blank line, and what follows it. */
  function ReadFields(s: string): Option<(seq<Field>, string)>
    decreases |s|
  {
    if !HasCrlf(s) then None
    else if Spec.FirstLine(s) == "" then Some(([], Spec.AfterLine(s)))
    else
      match Spec.ParseHeaderLine(Spec.FirstLine(s))
      case Err(_) => None
      case Ok(f) =>
        match ReadFields(Spec.AfterLine(s))
        case None => None
        case Some((fields, rest)) => Some(([f] + fields, rest))
  }

  /** Token, URI, fields and body of a printed request. */
  function ReadRequest(s: string): Option<(string, string, seq<Field>, string)> {
    if !HasCrlf(s) then None
    else
      var line := Spec.FirstLine(s);
      var sp := Find(line, ' ');
      if |line| < sp + 10 || line[|line| - 9..] != " HTTP/1.1" then None
      else
        match ReadFields(Spec.AfterLine(s))
        case None => None
        case Some((fields, body)) => Some((line[..sp], line[sp + 1..|line| - 9], fields, body))
  }

  lemma {:induction false} FieldsReadBack(fields: seq<Field>, body: string)
    requires AllPrintable(fields)
    ensures ReadFields(HeaderBlock(fields) + ("\r\n" + body)) == Some((fields, body))
  {
    var s := HeaderBlock(fields) + ("\r\n" + body);
    if fields == [] {
      assert s == "" + "\r\n" + body;
      LineEndsAtCrlf("", body);
    } else {
      var rest := HeaderBlock(fields[1..]) + ("\r\n" + body);
      BlockSplits(fields, "\r\n" + body);
      FieldsReadBack(fields[1..], body);
      FirstFieldReads(fields[0], rest);
      assert [fields[0]] + fields[1..] == fields;
    }
  }

  lemma FirstFieldReads(f: Field, rest: string)
    requires Printable(f) && ReadFields(rest).Some?
    ensures var (fields, body) := ReadFields(rest).value;
      ReadFields(FieldLine(f) + "\r\n" + rest) == Some(([f] + fields, body))
  {
    LineEndsAtCrlf(FieldLine(f), rest);
    FieldLineReads(f);
    assert FieldLine(f) != "";
  }

  lemma TokenIsAWord(m: Method)
    ensures ' ' !in Token(m) && '\n' !in Token(m)
  {
  }

  lemma RequestLineReads(token: string, uri: string)
    requires ' ' !in token && '\n' !in token && '\n' !in uri
    ensures var line := token + " " + uri + " HTTP/1.1";
      && !HasCrlf(line) && Find(line, ' ') == |token| && |line| >= |token| + 10
      && line[..|token|] == token && line[|token| + 1..|line| - 9] == uri && line[|line| - 9..] == " HTTP/1.1"
  {
    var line := token + " " + uri + " HTTP/1.1";
    assert line == token + [' '] + (uri + " HTTP/1.1");
    FindSplits(token, ' ', uri + " HTTP/1.1");
    assert '\n' !in " HTTP/1.1" && |" HTTP/1.1"| == 9;
    NoCrlfWithoutLf(line);
  }

  lemma ReadRequestSplits(token: string, uri: string, tail: string)
    requires ' ' !in token && '\n' !in token && '\n' !in uri
    ensures ReadRequest(token + " " + uri + " HTTP/1.1" + "\r\n" + tail)
      == match ReadFields(tail)
         case None => None
         case Some((fields, body)) => Some((token, uri, fields, body))
  {
    RequestLineReads(token, uri);
    LineEndsAtCrlf(token + " " + uri + " HTTP/1.1", tail);
  }

  lemma LineHasNoCrlf(s: string)
    requires HasCrlf(s)
    ensures !HasCrlf(Spec.FirstLine(s))
  {
    var line := Spec.FirstLine(s);
    assert forall i :: 0 <= i < |line| ==> line[i] == s[i];
    assert forall i :: CrlfAt(line, i) ==> CrlfAt(s, i);
  }

  /** What is read as a field has no colon in its name, no outer blanks in its value, and no line break. */
  lemma PartHasNoCrlf(s: string, i: nat, j: nat)
    requires !HasCrlf(s) && i <= j <= |s|
    ensures !HasCrlf(s[i..j])
  {
    var part := s[i..j];
    forall k ensures !CrlfAt(part, k) {
      if 0 <= k && k + 1 < |part| { assert part[k] == s[i + k] && part[k + 1] == s[i + k + 1] && !CrlfAt(s, i + k); }
    }
  }

  lemma JoinHasNoCrlf(a: string, b: string)
    requires !HasCrlf(a) && !HasCrlf(b) && (b != "" ==> b[0] != '\n')
    ensures !HasCrlf(a + b)
  {
    forall k ensures !CrlfAt(a + b, k) {
      if 0 <= k && k + 1 < |a| {
        assert !CrlfAt(a, k);
      } else if |a| <= k && k + 1 < |a + b| {
        assert !CrlfAt(b, k - |a|);
      }
    }
  }

  /** What is read as a field has no colon in its name, no outer blanks in its value, and no line break. */
  lemma ReadFieldIsPrintable(line: string)
    requires !HasCrlf(line) && Spec.ParseHeaderLine(line).Ok?
    ensures Printable(Spec.ParseHeaderLine(line).value)
  {
    HeaderLineFaults(line);
    var name, before, value, after := HeaderLineForm(line);
    HeaderLineReads(name, before, value, after);
    var start := |name| + 1 + |before|;
    assert line[0..|name|] == name && line[start..start + |value|] == value;
    PartHasNoCrlf(line, 0, |name|);
    PartHasNoCrlf(line, start, start + |value|);
    FieldHasNoCrlf(name, value);
  }

  lemma FieldHasNoCrlf(name: string, value: string)
    requires !HasCrlf(name) && !HasCrlf(value)
    ensures !HasCrlf(FieldLine(Field(name, value)))
  {
    BlankBefore(value);
    assert FieldLine(Field(name, value)) == name + ":" + (" " + value);
    NoCrlfWithoutLf(":");
    JoinHasNoCrlf(name, ":");
    JoinHasNoCrlf(name + ":", " " + value);
  }

  lemma BlankBefore(value: string)
    requires !HasCrlf(value)
    ensures !HasCrlf(" " + value)
  {
    forall k ensures !CrlfAt(" " + value, k) {
      if k > 0 && k + 1 < |" " + value| { assert !CrlfAt(value, k - 1); }
    }
  }

  lemma {:induction false} ReadFieldsArePrintable(s: string)
    requires ReadFields(s).Some?
    ensures AllPrintable(ReadFields(s).value.0)
    decreases |s|
  {
    var line := Spec.FirstLine(s);
    if line != "" {
      LineHasNoCrlf(s);
      ReadFieldIsPrintable(line);
      ReadFieldsArePrintable(Spec.AfterLine(s));
    }
  }

  /**
   A printed request can be read back completely if and only if its URI has no line break and each
   of its fields can be told from its neighbours: a name that is not empty and has no colon, a value
   without outer blanks, and no line break in either.
   */
  lemma RequestReadsBack(r: Request)
    ensures ReadRequest(Serialize(r)) == Some((Token(r.method_), r.uri, r.fields, r.body))
      <==> CleanUri(r.uri) && AllPrintable(r.fields)
  {
    if CleanUri(r.uri) {
      var token, tail := Token(r.method_), HeaderBlock(r.fields) + ("\r\n" + r.body);
      assert Serialize(r) == token + " " + r.uri + " HTTP/1.1" + "\r\n" + tail;
      TokenIsAWord(r.method_);
      ReadRequestSplits(token, r.uri, tail);
      if AllPrintable(r.fields) {
        FieldsReadBack(r.fields, r.body);
      } else if ReadFields(tail).Some? {
        ReadFieldsArePrintable(tail);
      }
    }
  }

  /** A line break in a value makes a second field of what follows it. */
  lemma BrokenValuePrintsTwoFields(name: string, value: string, name': string, value': string, rest: seq<Field>)
    ensures HeaderBlock([Field(name, value + "\r\n" + name' + ": " + value')] + rest)
      == HeaderBlock([Field(name, value)] + ([Field(name', value')] + rest))
  {
    BlockOfCons(Field(name, value + "\r\n" + name' + ": " + value'), rest);
    BlockOfCons(Field(name, value), [Field(name', value')] + rest);
    BlockOfCons(Field(name', value'), rest);
  }

  /** The header block, line by line. */
  lemma BlockOfCons(f: Field, rest: seq<Field>)
    ensures HeaderBlock([]) == ""
    ensures HeaderBlock([f] + rest) == f.name + ": " + f.value + "\r\n" + HeaderBlock(rest)
  {
    assert ([f] + rest)[1..] == rest;
  }

  /** The bytes of a request: request line, header block, blank line, body. */
  lemma SerializedBytes(r: Request)
    ensures Serialize(r)
      == if '\r' in r.uri || '\n' in r.uri then ""
         else Token(r.method_) + " " + r.uri + " HTTP/1.1\r\n" + HeaderBlock(r.fields) + "\r\n" + r.body
  {
    assert " HTTP/1.1" + "\r\n" == " HTTP/1.1\r\n";
  }

  lemma TokensAre()
    ensures Token(Get) == "GET" && Token(Post) == "POST" && Token(Put) == "PUT" && Token(Patch) == "PATCH"
    ensures Token(Delete) == "DELETE" && Token(Head) == "HEAD" && Token(Options) == "OPTIONS"
    ensures Token(Trace) == "TRACE" && Token(Connect) == "CONNECT"
  {
  }

  const ONE_FIELD: Request := Request(Get, "/", "h", "http", 80, [Field("A", "1\r\nB: 2")], "")
  const TWO_FIELDS: Request := ONE_FIELD.(fields := [Field("A", "1"), Field("B", "2")])

  lemma TwoFieldsArePrintable()
    ensures AllPrintable(TWO_FIELDS.fields)
  {
    NoCrlfWithoutLf(FieldLine(Field("A", "1")));
    NoCrlfWithoutLf(FieldLine(Field("B", "2")));
  }

  /** Two requests with different fields, printed alike: the line break in the value is not refused. */
  lemma BrokenValueExample()
    ensures Serialize(ONE_FIELD) == Serialize(TWO_FIELDS) && ONE_FIELD.fields != TWO_FIELDS.fields
    ensures ReadRequest(Serialize(ONE_FIELD)) == Some(("GET", "/", TWO_FIELDS.fields, ""))
  {
    assert "1" + "\r\n" + "B" + ": " + "2" == "1\r\nB: 2";
    BrokenValuePrintsTwoFields("A", "1", "B", "2", []);
    assert ONE_FIELD.fields == [Field("A", "1\r\nB: 2")] + [];
    assert TWO_FIELDS.fields == [Field("A", "1")] + ([Field("B", "2")] + []);
    TwoFieldsArePrintable();
    RequestReadsBack(TWO_FIELDS);
  }

  lemma TokensDiffer(m: Method, n: Method)
    requires Token(m) == Token(n)
    ensures m == n
  {
    assert |Token(m)| == |Token(n)| && Token(m)[0] == Token(n)[0] && Token(m)[1] == Token(n)[1];
  }

  /** No two requests that differ in method, URI, fields or body print the same bytes. */
  lemma SerializeIsInjective(r: Request, s: Request)
    requires CleanUri(r.uri) && AllPrintable(r.fields) && CleanUri(s.uri) && AllPrintable(s.fields)
    requires Serialize(r) == Serialize(s)
    ensures r.method_ == s.method_ && r.uri == s.uri && r.fields == s.fields && r.body == s.body
  {
    RequestReadsBack(r);
    RequestReadsBack(s);
    TokensDiffer(r.method_, s.method_);
  }

  /** The header section of a printed request, met by a response parser, yields the same fields. */
  lemma HeaderSectionReads(p: Spec.Parser, fields: seq<Field>, rest: string)
    requires p.phase == Spec.HeaderLines && p.buffer == "" && AllPrintable(fields)
    ensures Spec.StopPoint(Spec.Append(p, HeaderBlock(fields) + rest)) == Spec.StopPoint(WithFields(p, fields, rest))
  {
    var q := Spec.Append(p, HeaderBlock(fields) + rest);
    assert q.buffer == HeaderBlock(fields) + rest;
    HeaderBlockReads(q, fields, rest);
  }

  // ----- sending -----

  /** What one write to the peer does: it takes some bytes (zero: it would block), or fails. */
  datatype SendEvent = Sent(count: nat) | SendFailed(code: int)

  datatype SendStatus = Done | WouldBlock | Broken(code: int)

  /** Prints the request and sends the bytes. */
  method SendRequest(r: Request, outcomes: seq<SendEvent>) returns (status: SendStatus, delivered: string)
    ensures (status, delivered) == Transmit(Serialize(r), outcomes)
  {
    var buf := SerializeRequest(r);
    var bytes := buf.Peek(buf.Size());
    assert bytes == buf.Contents();
    status, delivered := SendBytes(bytes, outcomes);
  }

  /** Writes until all bytes are gone; a connection with nothing more to say would block. */
  method SendBytes(bytes: string, outcomes: seq<SendEvent>) returns (status: SendStatus, delivered: string)
    ensures (status, delivered) == Transmit(bytes, outcomes)
  {
    delivered := "";
    var totalSent: nat, remaining: nat, i: nat := 0, |bytes|, 0;
    ghost var goal := Transmit(bytes, outcomes);
    assert bytes[0..] == bytes && outcomes[0..] == outcomes && "" + goal.1 == goal.1;
    while remaining > 0
      invariant totalSent + remaining == |bytes| && i <= |outcomes|
      invariant goal.0 == Transmit(bytes[totalSent..], outcomes[i..]).0
      invariant goal.1 == delivered + Transmit(bytes[totalSent..], outcomes[i..]).1
      decreases remaining
    {
      ghost var left := bytes[totalSent..];
      assert delivered + "" == delivered;
      if i == |outcomes| { return WouldBlock, delivered; }
      if outcomes[i].SendFailed? { return Broken(outcomes[i].code), delivered; }
      var sent := Spec.Min(outcomes[i].count, remaining);
      if sent == 0 { return WouldBlock, delivered; }
      TransmitStep(left, outcomes[i..], delivered);
      SliceStep(bytes, totalSent, sent);
      assert outcomes[i..][1..] == outcomes[i + 1..];
      delivered := delivered + bytes[totalSent..totalSent + sent];
      totalSent, remaining, i := totalSent + sent, remaining - sent, i + 1;
    }
    assert delivered + "" == delivered;
    return Done, delivered;
  }

  lemma SliceStep(bytes: string, done: nat, n: nat)
    requires done + n <= |bytes|
    ensures bytes[done..][n..] == bytes[done + n..] && bytes[done..][..n] == bytes[done..done + n]
  {
  }

  lemma TransmitStep(bytes: string, outcomes: seq<SendEvent>, before: string)
    requires bytes != "" && outcomes != [] && outcomes[0].Sent? && outcomes[0].count > 0
    ensures var n, t := Spec.Min(outcomes[0].count, |bytes|), Transmit(bytes, outcomes);
      var u := Transmit(bytes[n..], outcomes[1..]);
      t.0 == u.0 && before + t.1 == (before + bytes[..n]) + u.1
  {
  }

  function Transmit(bytes: string, outcomes: seq<SendEvent>): (SendStatus, string)
    decreases |bytes|
  {
    if bytes == "" then (Done, "")
    else if outcomes == [] then (WouldBlock, "")
    else
      match outcomes[0]
      case SendFailed(code) => (Broken(code), "")
      case Sent(count) =>
        var n := Spec.Min(count, |bytes|);
        if n == 0 then (WouldBlock, "")
        else
          var (status, rest) := Transmit(bytes[n..], outcomes[1..]);
          (status, bytes[..n] + rest)
  }

  /** Delivery is in order and without gaps; it is reported done exactly when it is complete. */
  lemma {:induction false} DeliveryIsPrefix(bytes: string, outcomes: seq<SendEvent>)
    ensures var (status, delivered) := Transmit(bytes, outcomes);
      delivered <= bytes && (status == Done <==> delivered == bytes)
    decreases |bytes|
  {
    if bytes != "" && outcomes != [] && outcomes[0].Sent? {
      var n := Spec.Min(outcomes[0].count, |bytes|);
      if n > 0 {
        DeliveryIsPrefix(bytes[n..], outcomes[1..]);
        assert bytes == bytes[..n] + bytes[n..];
      }
    }
  }

  /** Any positive partial writes, if there are enough of them, deliver everything. */
  lemma {:induction false} PartialWritesSuffice(bytes: string, outcomes: seq<SendEvent>)
    requires |outcomes| >= |bytes|
    requires forall i :: 0 <= i < |outcomes| ==> outcomes[i].Sent? && outcomes[i].count > 0
    ensures Transmit(bytes, outcomes) == (Done, bytes)
    decreases |bytes|
  {
    if bytes != "" {
      var n := Spec.Min(outcomes[0].count, |bytes|);
      PartialWritesSuffice(bytes[n..], outcomes[1..]);
      assert bytes == bytes[..n] + bytes[n..];
    }
  }

  // ----- how sending ends -----

  function Total(outcomes: seq<SendEvent>): nat {
    if outcomes == [] then 0 else (if outcomes[0].Sent? then outcomes[0].count else 0) + Total(outcomes[1..])
  }

  /** The first `n` writes all take something. */
  predicate AllTake(outcomes: seq<SendEvent>, n: nat) {
    n <= |outcomes| && forall i :: 0 <= i < n ==> outcomes[i].Sent? && outcomes[i].count > 0
  }

  /** Why sending ends after `n` writes that all took something, and what has arrived by then. */
  ghost predicate SendEnds(bytes: string, outcomes: seq<SendEvent>, n: nat, status: SendStatus, delivered: string) {
    && AllTake(outcomes, n) && (n > 0 ==> Total(outcomes[..n - 1]) < |bytes|)
    && if Total(outcomes[..n]) >= |bytes| then status == Done && delivered == bytes
       else
         && delivered == bytes[..Total(outcomes[..n])]
         && (status == WouldBlock <==> n == |outcomes| || outcomes[n] == Sent(0))
         && forall code :: status == Broken(code) <==> n < |outcomes| && outcomes[n] == SendFailed(code)
  }

  lemma TotalMore(outcomes: seq<SendEvent>, n: nat)
    requires 0 < n <= |outcomes| && outcomes[0].Sent?
    ensures Total(outcomes[..n]) == outcomes[0].count + Total(outcomes[1..][..n - 1])
  {
    assert outcomes[..n][0] == outcomes[0] && outcomes[..n][1..] == outcomes[1..][..n - 1];
  }

  /** One write earlier. */
  lemma SendEndsStep(bytes: string, outcomes: seq<SendEvent>, n: nat, status: SendStatus, rest: string)
    requires outcomes != [] && outcomes[0].Sent? && 0 < outcomes[0].count < |bytes|
    requires SendEnds(bytes[outcomes[0].count..], outcomes[1..], n, status, rest)
    ensures SendEnds(bytes, outcomes, n + 1, status, bytes[..outcomes[0].count] + rest)
  {
    var count := outcomes[0].count;
    TotalMore(outcomes, n + 1);
    if n > 0 { TotalMore(outcomes, n); } else { assert outcomes[..0] == []; }
    forall i | 0 < i < n + 1 ensures outcomes[i].Sent? && outcomes[i].count > 0 {
      assert outcomes[i] == outcomes[1..][i - 1];
    }
    var t := Total(outcomes[1..][..n]);
    if t >= |bytes| - count {
      assert bytes[..count] + bytes[count..] == bytes;
    } else {
      assert bytes[..count] + bytes[count..][..t] == bytes[..count + t];
    }
  }

  /** For any writes, how many of them take something decides what arrives and what is reported. */
  lemma {:induction false} SendingEnds(bytes: string, outcomes: seq<SendEvent>) returns (n: nat)
    ensures SendEnds(bytes, outcomes, n, Transmit(bytes, outcomes).0, Transmit(bytes, outcomes).1)
    decreases |bytes|
  {
    n := 0;
    assert outcomes[..0] == [] && bytes[..0] == "";
    if bytes != "" && outcomes != [] && outcomes[0].Sent? && outcomes[0].count > 0 {
      var count := outcomes[0].count;
      if count < |bytes| {
        n := SendingEnds(bytes[count..], outcomes[1..]);
        var (status, rest) := Transmit(bytes[count..], outcomes[1..]);
        SendEndsStep(bytes, outcomes, n, status, rest);
        n := n + 1;
      } else {
        n := 1;
        TotalMore(outcomes, 1);
        assert bytes[..|bytes|] == bytes && bytes + "" == bytes;
      }
    }
  }
}
