/** Replies that can come back for every request, for the examples about the pool. */
module Replies {
  import opened Wrappers
  import opened Text
  import opened Headers
  import opened ParserSpec
  import opened ReadBack
  import opened Requests
  import opened EndToEnd
  import opened ClientSpec

  /** A network that takes the request byte by byte and then brings these bytes. */
  function Obliging(r: Request, bytes: string): Net {
    Net(0, true, Opened, 0, seq(|Serialize(r)|, _ => Sent(1)), [Received(bytes)])
  }

  /** Every sized response can come back for every request. */
  lemma ReplyCanCome(r: Request, response: Response)
    requires WellFormed(response) && ShortLines(response)
    ensures SendAndReceive(r, Obliging(r, Print(response))) == Ok(response)
  {
    var bytes, net := Serialize(r), Obliging(r, Print(response));
    PartialWritesSuffice(bytes, net.outcomes);
    var parts := [Print(response)];
    PrintIsNotEmpty(response);
    assert Concat(parts) == Print(response) by { assert parts[1..] == [] && parts[0] + "" == parts[0]; }
    assert Events(parts) + [] == net.arrivals by { assert Events(parts[1..]) == []; }
    ReceiveReturnsWhatWasSent(response, parts, []);
  }

  const OK_REPLY: Response := Bodiless(200, "OK", [])

  lemma ZeroReads()
    ensures FromChars("0", 10, SIZE_LIMIT) == Some(0)
  {
    assert ValueOf("0"[..0], 10) == 0 && ValueOf("0", 10) == 0;
    FromCharsReads("0", "", 10, SIZE_LIMIT);
    assert "0" + "" == "0";
  }

  /** Some literal lines, none of which holds a line break. */
  lemma ShortHead(status: nat, reason: string)
    requires 100 <= status <= 599 && |reason| <= 10 && '\n' !in reason
    ensures !HasCrlf(StatusText(status, reason)) && |StatusText(status, reason)| < MAX_HEADER_BUFFER
  {
    DecimalIsShort(status);
    DecimalHasNoLf(status);
    assert '\n' !in "HTTP/1.1 ";
    NoCrlfWithoutLf(StatusText(status, reason));
  }

  lemma {:induction false} DecimalIsShort(n: nat)
    ensures |Decimal(n)| <= n + 1
  {
    if n >= 10 { DecimalIsShort(n / 10); }
  }

  lemma DecimalHasNoLf(n: nat)
    ensures '\n' !in Decimal(n)
  {
  }

  /** A field of one short line. */
  predicate Modest(f: Field) { Printable(f) && |FieldLine(f)| < MAX_HEADER_BUFFER }

  lemma PlainField(name: string, value: string)
    requires name != "" && ':' !in name && '\n' !in name && '\n' !in value && Trimmed(value)
    requires |name| + |value| < 100
    ensures Modest(Field(name, value))
  {
    NoCrlfWithoutLf(FieldLine(Field(name, value)));
  }

  lemma NamedCons(f: Field, rest: seq<Field>, name: string)
    ensures Named([f] + rest, name) == if IsNamed(f, name) then [f] + Named(rest, name) else Named(rest, name)
  {
    assert ([f] + rest)[1..] == rest;
  }

  lemma NamesApart()
    ensures !EqualsIgnoreCase("Content-Length", "Connection") && !EqualsIgnoreCase("Connection", "Content-Length")
    ensures !EqualsIgnoreCase("Location", "Content-Length") && !EqualsIgnoreCase("Content-Length", "Transfer-Encoding")
    ensures !EqualsIgnoreCase("Connection", "Transfer-Encoding") && !EqualsIgnoreCase("Location", "Transfer-Encoding")
  {
  }

  /** No body, and some further fields. */
  function Bodiless(status: nat, reason: string, fields: seq<Field>): Response {
    Response(status, reason, [NO_LENGTH] + fields, "")
  }

  const NO_LENGTH: Field := Field("Content-Length", "0")

  lemma BodilessLength(fields: seq<Field>)
    requires Named(fields, "Transfer-Encoding") == []
    ensures ContentLength([NO_LENGTH] + fields) == Some(0) && !IsChunked([NO_LENGTH] + fields)
  {
    ZeroReads();
    NamesApart();
    NamedCons(NO_LENGTH, fields, "Content-Length");
    NamedCons(NO_LENGTH, fields, "Transfer-Encoding");
  }

  lemma NoLengthIsModest()
    ensures Modest(NO_LENGTH)
  {
    PlainField("Content-Length", "0");
  }

  predicate AllModest(fields: seq<Field>) { forall i :: 0 <= i < |fields| ==> Modest(fields[i]) }

  lemma ModestCons(f: Field, fields: seq<Field>)
    requires Modest(f) && AllModest(fields)
    ensures AllModest([f] + fields)
  {
  }

  lemma ModestHead(r: Response)
    requires 100 <= r.status <= 599 && |r.reason| <= 10 && '\n' !in r.reason
    requires AllModest(r.fields)
    ensures PrintableHead(r) && ShortLines(r)
  {
    ShortHead(r.status, r.reason);
  }

  lemma BodilessHasLength(status: nat, reason: string, fields: seq<Field>)
    requires Named(fields, "Transfer-Encoding") == []
    ensures var r := Bodiless(status, reason, fields);
      !IsChunked(r.fields) && ContentLength(r.fields) == Some(|r.body|)
  {
    BodilessLength(fields);
  }

  lemma BodilessIsSized(status: nat, reason: string, fields: seq<Field>)
    requires 100 <= status <= 599 && |reason| <= 10 && '\n' !in reason
    requires Named(fields, "Transfer-Encoding") == [] && AllModest(fields)
    ensures WellFormed(Bodiless(status, reason, fields)) && ShortLines(Bodiless(status, reason, fields))
  {
    NoLengthIsModest();
    ModestCons(NO_LENGTH, fields);
    ModestHead(Bodiless(status, reason, fields));
    BodilessHasLength(status, reason, fields);
  }

  lemma OkReplyIsSized()
    ensures WellFormed(OK_REPLY) && ShortLines(OK_REPLY) && KeepsAlive(OK_REPLY.fields)
  {
    BodilessIsSized(200, "OK", []);
    NamesApart();
    NamedCons(NO_LENGTH, [], "Connection");
  }

  const CLOSING: seq<Field> := [Field("Connection", "close"), Field("Location", "http://h/")]

  const CLOSING_REDIRECT: Response := Bodiless(302, "Found", CLOSING)

  lemma ClosingHasNoEncoding()
    ensures Named(CLOSING, "Transfer-Encoding") == []
  {
    NamesApart();
    assert CLOSING == [CLOSING[0]] + ([CLOSING[1]] + []);
    NamedCons(CLOSING[0], [CLOSING[1]] + [], "Transfer-Encoding");
    NamedCons(CLOSING[1], [], "Transfer-Encoding");
  }

  lemma CloseIsModest()
    ensures Modest(Field("Connection", "close"))
  {
    PlainField("Connection", "close");
  }

  lemma LocationIsModest()
    ensures Modest(Field("Location", "http://h/"))
  {
    PlainField("Location", "http://h/");
  }

  lemma ClosingRedirectIsSized()
    ensures WellFormed(CLOSING_REDIRECT) && ShortLines(CLOSING_REDIRECT)
  {
    ClosingHasNoEncoding();
    CloseIsModest();
    LocationIsModest();
    BodilessIsSized(302, "Found", CLOSING);
  }

  lemma ClosingRedirectCloses()
    ensures !KeepsAlive(CLOSING_REDIRECT.fields)
  {
    NamesApart();
    NamedCons(NO_LENGTH, CLOSING, "Connection");
    assert CLOSING == [CLOSING[0]] + [CLOSING[1]];
    NamedCons(CLOSING[0], [CLOSING[1]], "Connection");
    assert TokenAt("close", 0, 5) && "close"[0..5] == "close";
    assert HasToken("close", "close");
  }

  /** An exchange in which the network does what it should. */
  lemma AnsweredExchange(c: Client, cfg: Config, r: Request, remaining: nat, response: Response)
    requires WellFormed(response) && ShortLines(response)
    ensures var x := Exchange(c, cfg, r, remaining, Obliging(r, Print(response)));
      && x.attempt.request == r && x.attempt.reply == Some(response)
      && x.verdict == if EntersRedirect(cfg, response, remaining) then Redirect(r, response) else Answer(response)
  {
    ReplyCanCome(r, response);
  }
}
