/** What the requests of a chain carry: the cookies of all runs so far, and credentials. */
module ClientFields {
  import opened Wrappers
  import opened Text
  import opened Headers
  import opened Requests
  import opened EndToEnd
  import opened Urls
  import opened ClientSpec
  import opened ClientProofs
  import opened CookieScope
  import opened Replies
  import Cookies

  // ----- the Cookie field -----

  /** Cookies replace the first Cookie field there is, or make one; without any, nothing changes. */
  function WithCookies(had: seq<Field>, cookies: string): seq<Field> {
    if cookies == "" then had
    else if had == [] then [Field("Cookie", cookies)]
    else [had[0].(value := cookies)] + had[1..]
  }

  lemma CookieIsNoDefault(cfg: Config, r: Request)
    ensures forall i :: 0 <= i < |Defaults(cfg, r)| ==> !EqualsIgnoreCase(Defaults(cfg, r)[i].name, "Cookie")
  {
    assert Lower("Connection"[1]) == 'o' && Lower("Content-Length"[1]) == 'o';
    assert |"Connection"| != |"Cookie"| && |"Content-Length"| != |"Cookie"| && |"Host"| != |"Cookie"|;
    assert |"User-Agent"| != |"Cookie"| && |"Accept"| == |"Cookie"| && Lower("Accept"[0]) != Lower("Cookie"[0]);
  }

  lemma DefaultsSetCookies(cfg: Config, jar: seq<Cookies.Cookie>, req: Request)
    ensures var r := Addressed(cfg, req);
      Named(ApplyDefaults(cfg, jar, req).fields, "Cookie")
      == WithCookies(Named(req.fields, "Cookie"), Cookies.CookieHeader(jar, r.host, r.uri))
  {
    var r := Addressed(cfg, req);
    var filled := FillIn(r.fields, Defaults(cfg, r));
    CookieIsNoDefault(cfg, r);
    FillInKeepsOthers(r.fields, Defaults(cfg, r), "Cookie");
    SetReplacesFirst(filled, "Cookie", Cookies.CookieHeader(jar, r.host, r.uri));
  }

  lemma AddressStays(cfg: Config, jar: seq<Cookies.Cookie>, req: Request)
    ensures var r, s := ApplyDefaults(cfg, jar, req), Addressed(cfg, req); r.host == s.host && r.uri == s.uri
  {
  }

  lemma FollowingCookies(cfg: Config, jar: seq<Cookies.Cookie>, a: Attempt, b: Request)
    requires Follows(cfg, jar, a, b)
    ensures Named(b.fields, "Cookie") == WithCookies([], Cookies.CookieHeader(jar, b.host, b.uri))
  {
    var next := NextRequest(a);
    CopyEffect(a.request.fields, next.host != a.request.host, "Cookie");
    DefaultsSetCookies(cfg, jar, next);
    AddressStays(cfg, jar, next);
  }

  /**
   The Cookie field of every request of a chain: the cookies that the jar, with what all replies so
   far have set, has for the request's own host and URI. Only the first request may bring its own.
   */
  lemma CookieFieldOf(c: Client, cfg: Config, req: Request, net: Server, i: nat)
    requires i < |Execute(c, cfg, req, net).attempts|
    ensures var attempts := Execute(c, cfg, req, net).attempts;
      var r := attempts[i].request;
      Named(r.fields, "Cookie")
      == WithCookies(if i == 0 then Named(req.fields, "Cookie") else [],
                     Cookies.CookieHeader(JarAlong(c.jar, attempts[..i]), r.host, r.uri))
  {
    var attempts := Execute(c, cfg, req, net).attempts;
    ExecuteIsLinked(c, cfg, req, net);
    if i == 0 {
      assert JarAlong(c.jar, attempts[..0]) == c.jar;
      DefaultsSetCookies(cfg, c.jar, req);
      AddressStays(cfg, c.jar, req);
    } else {
      LinkOf(cfg, c.jar, attempts, i);
      FollowingCookies(cfg, JarAlong(c.jar, attempts[..i]), attempts[i - 1], attempts[i].request);
    }
  }

  // ----- the jar over runs -----

  /** The Set-Cookie values of a reply, with the host that it came from. */
  function LinesOf(fields: seq<Field>, host: string): seq<SetLine> {
    if fields == [] then []
    else
      var first := if IsNamed(fields[0], "Set-Cookie") then [SetLine(fields[0].value, host)] else [];
      first + LinesOf(fields[1..], host)
  }

  function AttemptLines(a: Attempt): seq<SetLine> {
    match a.reply
    case None => []
    case Some(response) => LinesOf(response.fields, a.request.host)
  }

  function LinesAlong(attempts: seq<Attempt>): seq<SetLine> {
    if attempts == [] then [] else AttemptLines(attempts[0]) + LinesAlong(attempts[1..])
  }

  lemma JarOfOneMore(sets: seq<SetLine>, s: SetLine)
    ensures JarOf(sets + [s]) == Cookies.Upsert(JarOf(sets), CookieOf(s))
  {
    var all := CookiesOf(sets + [s]);
    assert all[..|all| - 1] == CookiesOf(sets) && all[|all| - 1] == CookieOf(s);
  }

  lemma LinesJoin(a: seq<SetLine>, b: seq<SetLine>, c: seq<SetLine>)
    ensures (a + b) + c == a + (b + c) && a + [] == a && [] + c == c
  {
  }

  lemma {:induction false} SetCookiesIsRun(sets: seq<SetLine>, fields: seq<Field>, host: string)
    ensures SetCookies(JarOf(sets), fields, host) == JarOf(sets + LinesOf(fields, host))
    decreases |fields|
  {
    if fields == [] {
      LinesJoin(sets, [], []);
    } else {
      var rest := LinesOf(fields[1..], host);
      if IsNamed(fields[0], "Set-Cookie") {
        var s := SetLine(fields[0].value, host);
        JarOfOneMore(sets, s);
        SetCookiesIsRun(sets + [s], fields[1..], host);
        LinesJoin(sets, [s], rest);
      } else {
        SetCookiesIsRun(sets, fields[1..], host);
        LinesJoin(sets, [], rest);
      }
    }
  }

  lemma AttemptIsRun(sets: seq<SetLine>, a: Attempt)
    ensures AfterAttempt(JarOf(sets), a) == JarOf(sets + AttemptLines(a))
  {
    if a.reply.Some? {
      SetCookiesIsRun(sets, a.reply.value.fields, a.request.host);
    } else {
      LinesJoin(sets, [], []);
    }
  }

  lemma {:induction false} JarAlongIsRun(sets: seq<SetLine>, attempts: seq<Attempt>)
    ensures JarAlong(JarOf(sets), attempts) == JarOf(sets + LinesAlong(attempts))
    decreases |attempts|
  {
    if attempts == [] {
      LinesJoin(sets, [], []);
    } else {
      var first, rest := AttemptLines(attempts[0]), attempts[1..];
      AttemptIsRun(sets, attempts[0]);
      JarAlongIsRun(sets + first, rest);
      LinesJoin(sets, first, LinesAlong(rest));
    }
  }

  /** All Set-Cookie values that the calls of a client have received, in order. */
  ghost function CallLines(cfg: Config, calls: seq<(Request, Server)>): seq<SetLine> {
    if calls == [] then []
    else
      var before := calls[..|calls| - 1];
      var (req, net) := calls[|calls| - 1];
      CallLines(cfg, before) + LinesAlong(Execute(AfterCalls(cfg, before), cfg, req, net).attempts)
  }

  lemma {:induction false} JarAfterCalls(cfg: Config, calls: seq<(Request, Server)>)
    ensures AfterCalls(cfg, calls).jar == JarOf(CallLines(cfg, calls))
  {
    if calls != [] {
      var before := calls[..|calls| - 1];
      var (req, net) := calls[|calls| - 1];
      JarAfterCalls(cfg, before);
      ExecuteIsLinked(AfterCalls(cfg, before), cfg, req, net);
      JarAlongIsRun(CallLines(cfg, before), Execute(AfterCalls(cfg, before), cfg, req, net).attempts);
    }
  }

  /**
   Over whole runs of a client: the Cookie field of a request is that of the jar filled by all the
   Set-Cookie values that came before it, in this call and in earlier ones, each from its own host.
   */
  lemma CookiesOverRuns(cfg: Config, calls: seq<(Request, Server)>, req: Request, net: Server, i: nat)
    requires i < |Execute(AfterCalls(cfg, calls), cfg, req, net).attempts|
    ensures var attempts := Execute(AfterCalls(cfg, calls), cfg, req, net).attempts;
      var r, sets := attempts[i].request, CallLines(cfg, calls) + LinesAlong(attempts[..i]);
      Named(r.fields, "Cookie")
      == WithCookies(if i == 0 then Named(req.fields, "Cookie") else [],
                     Cookies.CookieHeader(JarOf(sets), r.host, r.uri))
  {
    var c := AfterCalls(cfg, calls);
    JarAfterCalls(cfg, calls);
    CookieFieldOf(c, cfg, req, net, i);
    JarAlongIsRun(CallLines(cfg, calls), Execute(c, cfg, req, net).attempts[..i]);
  }

  // ----- credentials -----

  /**
   Credentials reach another origin than that of the first request exactly when all hosts up to there
   are the same and the scheme or the port is not: only hosts are compared.
   */
  lemma CredentialsLeaveOriginIff(c: Client, cfg: Config, req: Request, net: Server, i: nat, name: string)
    requires i < |Execute(c, cfg, req, net).attempts| && Secret(name)
    ensures var attempts := Execute(c, cfg, req, net).attempts;
      var o, p := OriginOf(attempts[0].request), OriginOf(attempts[i].request);
      Named(attempts[i].request.fields, name) != [] && p != o
      <==> Named(req.fields, name) != [] && SameHosts(attempts, i) && (p.scheme != o.scheme || p.port != o.port)
  {
    RedirectChainIsSafe(c, cfg, req, net, i, name);
  }

  const SECRET: Field := Field("Authorization", "x")

  const SECRET_REQUEST: Request := Request(Get, "/", "h", "https", 443, [SECRET], "")

  lemma LocationOfRedirect()
    ensures Lookup(CLOSING_REDIRECT.fields, "Location") == Some("http://h/")
  {
    assert CLOSING == [CLOSING[0]] + ([CLOSING[1]] + []);
    assert !EqualsIgnoreCase("Connection", "Location") && !EqualsIgnoreCase("Content-Length", "Location");
    NamedCons(NO_LENGTH, CLOSING, "Location");
    NamedCons(CLOSING[0], [CLOSING[1]] + [], "Location");
    NamedCons(CLOSING[1], [], "Location");
  }

  lemma ClearUrlReads()
    ensures ParseUrl("http://h/") == Some(Url("http", "h", 80, "/"))
  {
    RebuildIff("http", "h", 80, "/");
    assert BuildUrl("http", "h", 80, "/") == "http://h/";
  }

  const CLEAR: Url := Url("http", "h", 80, "/")

  lemma RedirectsToClear(r: Request)
    ensures Redirect(r, CLOSING_REDIRECT) == Follow(RedirectRequest(r, 302, CLEAR))
  {
    LocationOfRedirect();
    ClearUrlReads();
    assert "http://" <= "http://h/";
  }

  /** Answers everything with a redirect to http://h/. */
  function ToClear(): Server { (k: nat, r: Request) => Obliging(r, Print(CLOSING_REDIRECT)) }

  lemma StepToClear(c: Client, cfg: Config, req: Request, remaining: nat)
    requires cfg.followRedirects && remaining > 0
    ensures var x, r := Steps(cfg, ToClear())(c, req, remaining, 0), ApplyDefaults(cfg, c.jar, req);
      x.attempt.request == r && x.verdict == Follow(RedirectRequest(r, 302, CLEAR))
  {
    var r := ApplyDefaults(cfg, c.jar, req);
    ClosingRedirectIsSized();
    AnsweredExchange(c, cfg, r, remaining, CLOSING_REDIRECT);
    RedirectsToClear(r);
  }

  lemma AddressIsKept(cfg: Config, jar: seq<Cookies.Cookie>, req: Request)
    requires req.host != "" && req.port != 0 && req.scheme != ""
    ensures OriginOf(ApplyDefaults(cfg, jar, req)) == OriginOf(req) == Origin(req.scheme, req.host, req.port)
  {
  }

  lemma ChainContinues(step: Stepper, c: Client, req: Request, remaining: nat, k: nat)
    requires remaining > 0 && step(c, req, remaining, k).verdict.Follow?
    ensures var x := step(c, req, remaining, k);
      Chain(step, c, req, remaining, k).attempts
      == [x.attempt] + Chain(step, x.client, x.verdict.request, remaining - 1, k + 1).attempts
  {
  }

  lemma FirstOfChain(c: Client, cfg: Config, req: Request, net: Server, remaining: nat, k: nat)
    ensures var attempts := Chain(Steps(cfg, net), c, req, remaining, k).attempts;
      attempts != [] && attempts[0].request == ApplyDefaults(cfg, c.jar, req)
  {
    StepsAreOrderly(cfg, net);
    ChainIsGood(DefaultsOf(cfg), FollowsIn(cfg), Steps(cfg, net), c, req, remaining, k);
    assert DefaultsOf(cfg)(c.jar, req) == ApplyDefaults(cfg, c.jar, req);
  }

  /** A chain that goes on has a second attempt, for the request it goes on with. */
  lemma SecondAttempt(c: Client, cfg: Config, req: Request, net: Server, next: Request)
    returns (jar: seq<Cookies.Cookie>)
    requires cfg.maxRedirects > 0 && Steps(cfg, net)(c, req, cfg.maxRedirects, 0).verdict == Follow(next)
    ensures var attempts := Execute(c, cfg, req, net).attempts;
      |attempts| >= 2 && attempts[1].request == ApplyDefaults(cfg, jar, next)
  {
    var step := Steps(cfg, net);
    var x := step(c, req, cfg.maxRedirects, 0);
    jar := x.client.jar;
    ChainContinues(step, c, req, cfg.maxRedirects, 0);
    FirstOfChain(x.client, cfg, next, net, cfg.maxRedirects - 1, 1);
    SecondOf(x.attempt, Chain(step, x.client, next, cfg.maxRedirects - 1, 1).attempts);
  }

  lemma SecondOf(x: Attempt, rest: seq<Attempt>)
    requires rest != []
    ensures |[x] + rest| >= 2 && ([x] + rest)[1] == rest[0]
  {
  }

  lemma ChainToClear(c: Client, cfg: Config, req: Request)
    requires cfg.followRedirects && cfg.maxRedirects > 0
    ensures var attempts := Execute(c, cfg, req, ToClear()).attempts;
      |attempts| >= 2 && OriginOf(attempts[1].request) == Origin("http", "h", 80)
  {
    var next := RedirectRequest(ApplyDefaults(cfg, c.jar, req), 302, CLEAR);
    StepToClear(c, cfg, req, cfg.maxRedirects);
    var jar := SecondAttempt(c, cfg, req, ToClear(), next);
    AddressIsKept(cfg, jar, next);
  }

  /** An https request with credentials, redirected to http on the same host: they go out in the clear. */
  lemma ClearCredentialsExample(c: Client, cfg: Config)
    requires cfg.followRedirects && cfg.maxRedirects > 0
    ensures var attempts := Execute(c, cfg, SECRET_REQUEST, ToClear()).attempts;
      && |attempts| >= 2 && OriginOf(attempts[0].request) == Origin("https", "h", 443)
      && OriginOf(attempts[1].request) == Origin("http", "h", 80)
      && Named(attempts[1].request.fields, "Authorization") == [SECRET]
  {
    var attempts := Execute(c, cfg, SECRET_REQUEST, ToClear()).attempts;
    ChainToClear(c, cfg, SECRET_REQUEST);
    ExecuteIsLinked(c, cfg, SECRET_REQUEST, ToClear());
    SecretIsSent(cfg, c.jar);
    CredentialsStep(cfg, c.jar, attempts, 1, "Authorization");
  }

  lemma SecretIsSent(cfg: Config, jar: seq<Cookies.Cookie>)
    ensures var r := ApplyDefaults(cfg, jar, SECRET_REQUEST);
      OriginOf(r) == Origin("https", "h", 443) && Named(r.fields, "Authorization") == [SECRET]
  {
    AddressIsKept(cfg, jar, SECRET_REQUEST);
    NamesDiffer();
    DefaultsKeepOthers(cfg, jar, SECRET_REQUEST, "Authorization");
    NamedCons(SECRET, [], "Authorization");
  }
}
