/** Properties of redirect chains, against any server. */
module ClientProofs {
  import opened Wrappers
  import opened Text
  import opened Headers
  import opened ParserSpec
  import opened Requests
  import opened Urls
  import opened ClientSpec
  import Cookies

  // ----- what the defaults do to the fields of one name -----

  lemma PutIfAbsentKeepsOthers(fields: seq<Field>, name: string, value: string, other: string)
    requires !EqualsIgnoreCase(name, other)
    ensures Named(PutIfAbsent(fields, name, value), other) == Named(fields, other)
  {
    SetKeepsOthers(fields, name, value, other);
  }

  lemma PutIfAbsentAdds(fields: seq<Field>, name: string, value: string)
    ensures Named(PutIfAbsent(fields, name, value), name)
      == if Named(fields, name) == [] then [Field(name, value)] else Named(fields, name)
  {
    SetReplacesFirst(fields, name, value);
  }

  /** A name that no default touches. */
  predicate Untouched(name: string) {
    && !EqualsIgnoreCase("Host", name) && !EqualsIgnoreCase("Connection", name)
    && !EqualsIgnoreCase("Content-Length", name)
    && !EqualsIgnoreCase("User-Agent", name) && !EqualsIgnoreCase("Accept", name) && !EqualsIgnoreCase("Cookie", name)
  }

  lemma {:induction false} FillInKeepsOthers(fields: seq<Field>, defaults: seq<Field>, name: string)
    requires forall i :: 0 <= i < |defaults| ==> !EqualsIgnoreCase(defaults[i].name, name)
    ensures Named(FillIn(fields, defaults), name) == Named(fields, name)
    decreases |defaults|
  {
    if defaults != [] {
      PutIfAbsentKeepsOthers(fields, defaults[0].name, defaults[0].value, name);
      FillInKeepsOthers(PutIfAbsent(fields, defaults[0].name, defaults[0].value), defaults[1..], name);
    }
  }

  lemma AddCookiesKeepsOthers(fields: seq<Field>, cookies: string, name: string)
    requires !EqualsIgnoreCase("Cookie", name)
    ensures Named(AddCookies(fields, cookies), name) == Named(fields, name)
  {
    SetKeepsOthers(fields, "Cookie", cookies, name);
  }

  lemma DefaultsKeepOthers(cfg: Config, jar: seq<Cookies.Cookie>, req: Request, name: string)
    requires Untouched(name)
    ensures Named(ApplyDefaults(cfg, jar, req).fields, name) == Named(req.fields, name)
  {
    var r := Addressed(cfg, req);
    FillInKeepsOthers(r.fields, Defaults(cfg, r), name);
    AddCookiesKeepsOthers(FillIn(r.fields, Defaults(cfg, r)), Cookies.CookieHeader(jar, r.host, r.uri), name);
  }

  // ----- one redirect -----

  lemma {:induction false} CopyEffect(fields: seq<Field>, crossOrigin: bool, name: string)
    ensures var all := Skipped(Field(name, ""), crossOrigin);
      Named(CopyFields(fields, crossOrigin), name) == if all then [] else Named(fields, name)
  {
    if fields != [] {
      CopyEffect(fields[1..], crossOrigin, name);
      if !Skipped(fields[0], crossOrigin) {
        assert CopyFields(fields, crossOrigin)[1..] == CopyFields(fields[1..], crossOrigin);
      }
      if IsNamed(fields[0], name) { SameSkip(fields[0], name, crossOrigin); }
    }
  }

  lemma SameSkip(f: Field, name: string, crossOrigin: bool)
    requires IsNamed(f, name)
    ensures Skipped(f, crossOrigin) == Skipped(Field(name, ""), crossOrigin)
  {
    SameFoldedName(f, name, "Host");
    SameFoldedName(f, name, "Content-Length");
    SameFoldedName(f, name, "Cookie");
    SameFoldedName(f, name, "Authorization");
    SameFoldedName(f, name, "Proxy-Authorization");
  }

  /** `b` is what a client with this jar sends when `a` has been redirected. */
  ghost predicate Follows(cfg: Config, jar: seq<Cookies.Cookie>, a: Attempt, b: Request) {
    && a.reply.Some? && IsRedirect(a.reply.value.status) && a.notice.Some? && ParseUrl(a.notice.value.to).Some?
    && b == ApplyDefaults(cfg, jar, NextRequest(a))
  }

  /** Where the redirect callback was told that it goes. */
  function NextRequest(a: Attempt): Request
    requires a.reply.Some? && a.notice.Some? && ParseUrl(a.notice.value.to).Some?
  {
    RedirectRequest(a.request, a.reply.value.status, ParseUrl(a.notice.value.to).value)
  }

  predicate WebScheme(scheme: string) { scheme == "http" || scheme == "https" }

  predicate Secret(name: string) { name == "Authorization" || name == "Proxy-Authorization" }

  lemma NamesDiffer()
    ensures Untouched("Authorization") && Untouched("Proxy-Authorization")
    ensures !EqualsIgnoreCase("Connection", "Host") && !EqualsIgnoreCase("User-Agent", "Host")
    ensures !EqualsIgnoreCase("Accept", "Host") && !EqualsIgnoreCase("Cookie", "Host")
    ensures !EqualsIgnoreCase("Connection", "Content-Length") && !EqualsIgnoreCase("User-Agent", "Content-Length")
    ensures !EqualsIgnoreCase("Accept", "Content-Length") && !EqualsIgnoreCase("Cookie", "Content-Length")
    ensures !EqualsIgnoreCase("Host", "Content-Length") && !EqualsIgnoreCase("Content-Length", "Host")
  {
    assert Lower("Connection"[0]) == 'c' && Lower("Cookie"[0]) == 'c' && Lower("Content-Length"[0]) == 'c';
  }

  lemma SecretsAreSkipped(name: string, crossOrigin: bool)
    requires Secret(name)
    ensures Skipped(Field(name, ""), crossOrigin) == crossOrigin
  {
    NamesDiffer();
  }

  /** A redirect hands credentials on exactly when it stays on the same host. */
  lemma CredentialsFollow(cfg: Config, jar: seq<Cookies.Cookie>, a: Attempt, b: Request, name: string)
    requires Follows(cfg, jar, a, b) && Secret(name)
    ensures Named(b.fields, name) == if b.host == a.request.host then Named(a.request.fields, name) else []
  {
    var u, next := ParseUrl(a.notice.value.to).value, NextRequest(a);
    ParsedUrlIsUsable(a.notice.value.to);
    NamesDiffer();
    DefaultsKeepOthers(cfg, jar, next, name);
    SecretsAreSkipped(name, u.host != a.request.host);
    CopyEffect(a.request.fields, u.host != a.request.host, name);
  }

  lemma RedirectedHost(cfg: Config, jar: seq<Cookies.Cookie>, next: Request)
    requires next.host != "" && next.port != 0 && next.body == "" && Named(next.fields, "Host") == []
    ensures Named(ApplyDefaults(cfg, jar, next).fields, "Host") == [Field("Host", HostText(next.host, next.port))]
  {
    NamesDiffer();
    assert HostText(next.host, next.port) == HostValue(next.host, next.port) by { assert next.host + "" == next.host; }
    var defaults := Defaults(cfg, next);
    var f1 := PutIfAbsent(next.fields, "Host", HostValue(next.host, next.port));
    PutIfAbsentAdds(next.fields, "Host", HostValue(next.host, next.port));
    assert FillIn(next.fields, defaults) == FillIn(f1, defaults[1..]);
    FillInKeepsOthers(f1, defaults[1..], "Host");
    AddCookiesKeepsOthers(FillIn(next.fields, defaults), Cookies.CookieHeader(jar, next.host, next.uri), "Host");
    assert Addressed(cfg, next) == next;
  }

  lemma RedirectedLength(cfg: Config, jar: seq<Cookies.Cookie>, next: Request)
    requires next.body == "" && Named(next.fields, "Content-Length") == []
    ensures Named(ApplyDefaults(cfg, jar, next).fields, "Content-Length") == []
  {
    NamesDiffer();
    var r := Addressed(cfg, next);
    FillInKeepsOthers(r.fields, Defaults(cfg, r), "Content-Length");
    var filled := FillIn(r.fields, Defaults(cfg, r));
    AddCookiesKeepsOthers(filled, Cookies.CookieHeader(jar, r.host, r.uri), "Content-Length");
  }

  /** The host, and the port if it is not one of the two usual ones. */
  function HostText(host: string, port: nat): string {
    if port == 80 || port == 443 then host else host + ":" + Decimal(port)
  }

  /** Every redirected request is empty, announces no length, and names its own host exactly once. */
  lemma RedirectedShape(cfg: Config, jar: seq<Cookies.Cookie>, a: Attempt, b: Request)
    requires Follows(cfg, jar, a, b)
    ensures b.body == "" && Named(b.fields, "Content-Length") == []
    ensures Named(b.fields, "Host") == [Field("Host", HostText(b.host, b.port))]
    ensures b.method_ == if a.reply.value.status in {307, 308} then a.request.method_ else Get
    ensures 300 <= a.reply.value.status <= 399
  {
    var u, next := ParseUrl(a.notice.value.to).value, NextRequest(a);
    ParsedUrlIsUsable(a.notice.value.to);
    CopyEffect(a.request.fields, u.host != a.request.host, "Host");
    CopyEffect(a.request.fields, u.host != a.request.host, "Content-Length");
    RedirectedHost(cfg, jar, next);
    RedirectedLength(cfg, jar, next);
  }

  /** The callback has been told where the redirected request goes. */
  lemma RedirectIsAnnounced(cfg: Config, jar: seq<Cookies.Cookie>, a: Attempt, b: Request)
    requires Follows(cfg, jar, a, b)
    ensures a.notice.Some? && ParseUrl(a.notice.value.to) == Some(Url(b.scheme, b.host, b.port, b.uri))
  {
    ParsedUrlIsUsable(a.notice.value.to);
  }

  // ----- whole chains -----

  /** The jar after an attempt: the cookies of its reply are stored. */
  function AfterAttempt(jar: seq<Cookies.Cookie>, a: Attempt): seq<Cookies.Cookie> {
    match a.reply
    case None => jar
    case Some(response) => SetCookies(jar, response.fields, a.request.host)
  }

  function JarAlong(jar: seq<Cookies.Cookie>, attempts: seq<Attempt>): seq<Cookies.Cookie>
    decreases |attempts|
  {
    if attempts == [] then jar else JarAlong(AfterAttempt(jar, attempts[0]), attempts[1..])
  }

  lemma JarAlongCons(jar: seq<Cookies.Cookie>, x: Attempt, rest: seq<Attempt>)
    ensures JarAlong(jar, [x] + rest) == JarAlong(AfterAttempt(jar, x), rest)
  {
    assert ([x] + rest)[1..] == rest;
  }

  /** Each attempt of a chain follows from the one before it, with the cookies of all before it. */
  ghost predicate Linked(cfg: Config, jar: seq<Cookies.Cookie>, attempts: seq<Attempt>) {
    forall i :: 0 < i < |attempts| ==> LinkedAt(cfg, jar, attempts, i)
  }

  ghost predicate LinkedAt(cfg: Config, jar: seq<Cookies.Cookie>, attempts: seq<Attempt>, i: nat)
    requires 0 < i < |attempts|
  {
    Follows(cfg, JarAlong(jar, attempts[..i]), attempts[i - 1], attempts[i].request)
  }

  lemma ExchangeFollows(c: Client, cfg: Config, r: Request, remaining: nat, net: Net)
    ensures var x := Exchange(c, cfg, r, remaining, net);
      && x.attempt.request == r && x.client.jar == AfterAttempt(c.jar, x.attempt)
      && (x.verdict.Follow? ==>
            && remaining > 0
            && Follows(cfg, x.client.jar, x.attempt, ApplyDefaults(cfg, x.client.jar, x.verdict.request)))
  {
    var x := Exchange(c, cfg, r, remaining, net);
    if x.verdict.Follow? {
      var response := SendAndReceive(r, net).value;
      assert x.verdict == Redirect(r, response);
      var target := TargetUrl(r, Lookup(response.fields, "Location").value).value;
      assert x.attempt.notice == Announcement(r, response) && x.attempt.notice.value.to == target;
    }
  }

  // The induction over a chain knows its steps, the filling in of defaults and the link between
  // neighbours only by what they promise.

  type Dress = (seq<Cookies.Cookie>, Request) -> Request

  type Link = (seq<Cookies.Cookie>, Attempt, Request) -> bool

  predicate StepStarts(dress: Dress, step: Stepper, c: Client, req: Request, remaining: nat, k: nat) {
    var x := step(c, req, remaining, k);
    x.attempt.request == dress(c.jar, req) && x.client.jar == AfterAttempt(c.jar, x.attempt)
  }

  predicate StepFollows(dress: Dress, link: Link, step: Stepper, c: Client, req: Request, remaining: nat, k: nat) {
    var x := step(c, req, remaining, k);
    x.verdict.Follow? ==> remaining > 0 && link(x.client.jar, x.attempt, dress(x.client.jar, x.verdict.request))
  }

  ghost predicate Orderly(dress: Dress, link: Link, step: Stepper) {
    forall c: Client, req: Request, remaining: nat, k: nat ::
      StepStarts(dress, step, c, req, remaining, k) && StepFollows(dress, link, step, c, req, remaining, k)
  }

  predicate LinkAt(link: Link, jar: seq<Cookies.Cookie>, attempts: seq<Attempt>, i: nat)
    requires 0 < i < |attempts|
  {
    link(JarAlong(jar, attempts[..i]), attempts[i - 1], attempts[i].request)
  }

  /** A non-empty chain of at most `most` linked attempts that starts with `first`. */
  predicate GoodChain(link: Link, jar: seq<Cookies.Cookie>, attempts: seq<Attempt>, first: Request, most: nat) {
    && 1 <= |attempts| <= most && attempts[0].request == first
    && forall i :: 0 < i < |attempts| ==> LinkAt(link, jar, attempts, i)
  }

  lemma LinkCons(link: Link, jar: seq<Cookies.Cookie>, x: Attempt, rest: seq<Attempt>, i: nat)
    requires 0 < i <= |rest|
    requires i == 1 ==> link(AfterAttempt(jar, x), x, rest[0].request)
    requires i > 1 ==> LinkAt(link, AfterAttempt(jar, x), rest, i - 1)
    ensures LinkAt(link, jar, [x] + rest, i)
  {
    assert ([x] + rest)[..i] == [x] + rest[..i - 1];
    JarAlongCons(jar, x, rest[..i - 1]);
  }

  lemma GoodCons(link: Link, jar: seq<Cookies.Cookie>, x: Attempt, rest: seq<Attempt>, next: Request, most: nat)
    requires GoodChain(link, AfterAttempt(jar, x), rest, next, most) && link(AfterAttempt(jar, x), x, next)
    ensures GoodChain(link, jar, [x] + rest, x.request, most + 1)
  {
    forall i | 0 < i <= |rest| ensures LinkAt(link, jar, [x] + rest, i) { LinkCons(link, jar, x, rest, i); }
  }

  lemma {:induction false} ChainIsGood(dress: Dress, link: Link, step: Stepper,
                                      c: Client, req: Request, remaining: nat, k: nat)
    requires Orderly(dress, link, step)
    ensures var run := Chain(step, c, req, remaining, k);
      && GoodChain(link, c.jar, run.attempts, dress(c.jar, req), remaining + 1)
      && run.client.jar == JarAlong(c.jar, run.attempts)
    decreases remaining
  {
    var x := step(c, req, remaining, k);
    assert StepStarts(dress, step, c, req, remaining, k) && StepFollows(dress, link, step, c, req, remaining, k);
    if x.verdict.Follow? {
      var next := dress(x.client.jar, x.verdict.request);
      var rest := Chain(step, x.client, x.verdict.request, remaining - 1, k + 1);
      ChainIsGood(dress, link, step, x.client, x.verdict.request, remaining - 1, k + 1);
      GoodCons(link, c.jar, x.attempt, rest.attempts, next, remaining);
      JarAlongCons(c.jar, x.attempt, rest.attempts);
      assert Chain(step, c, req, remaining, k).attempts == [x.attempt] + rest.attempts;
    } else {
      JarAlongCons(c.jar, x.attempt, []);
      assert Chain(step, c, req, remaining, k).attempts == [x.attempt] == [x.attempt] + [];
    }
  }

  ghost function DefaultsOf(cfg: Config): Dress {
    (jar: seq<Cookies.Cookie>, req: Request) => ApplyDefaults(cfg, jar, req)
  }

  ghost function FollowsIn(cfg: Config): Link {
    (jar: seq<Cookies.Cookie>, a: Attempt, b: Request) => Follows(cfg, jar, a, b)
  }

  lemma StepsAreOrderly(cfg: Config, net: Server)
    ensures Orderly(DefaultsOf(cfg), FollowsIn(cfg), Steps(cfg, net))
  {
    var step, dress, link := Steps(cfg, net), DefaultsOf(cfg), FollowsIn(cfg);
    forall c: Client, req: Request, remaining: nat, k: nat
      ensures StepStarts(dress, step, c, req, remaining, k) && StepFollows(dress, link, step, c, req, remaining, k)
    {
      var r := ApplyDefaults(cfg, c.jar, req);
      ExchangeFollows(c, cfg, r, remaining, net(k, r));
      assert step(c, req, remaining, k) == Exchange(c, cfg, r, remaining, net(k, r));
    }
  }

  /** At most one request more than redirects allowed, each following from the one before. */
  lemma ExecuteIsLinked(c: Client, cfg: Config, req: Request, net: Server)
    ensures var run := Execute(c, cfg, req, net);
      && 1 <= |run.attempts| <= cfg.maxRedirects + 1
      && run.attempts[0].request == ApplyDefaults(cfg, c.jar, req)
      && Linked(cfg, c.jar, run.attempts)
      && run.client.jar == JarAlong(c.jar, run.attempts)
  {
    var attempts := Execute(c, cfg, req, net).attempts;
    StepsAreOrderly(cfg, net);
    ChainIsGood(DefaultsOf(cfg), FollowsIn(cfg), Steps(cfg, net), c, req, cfg.maxRedirects, 0);
    forall i | 0 < i < |attempts| ensures LinkedAt(cfg, c.jar, attempts, i) {
      assert LinkAt(FollowsIn(cfg), c.jar, attempts, i);
    }
  }

  predicate SameHosts(attempts: seq<Attempt>, i: nat)
    requires i < |attempts|
  {
    forall j :: 0 <= j <= i ==> attempts[j].request.host == attempts[0].request.host
  }

  /** All replies before the i-th request have one of the two statuses that keep the method. */
  predicate AllKeepMethod(attempts: seq<Attempt>, i: nat)
    requires i <= |attempts|
  {
    forall j :: 0 <= j < i ==> attempts[j].reply.Some? && attempts[j].reply.value.status in {307, 308}
  }

  lemma SameHostsStep(attempts: seq<Attempt>, i: nat)
    requires 0 < i < |attempts|
    ensures SameHosts(attempts, i)
      == (SameHosts(attempts, i - 1) && attempts[i].request.host == attempts[i - 1].request.host)
  {
    if SameHosts(attempts, i) {
      assert attempts[i].request.host == attempts[0].request.host == attempts[i - 1].request.host;
    }
  }

  /** One link of a chain, as the lemmas about one redirect want it. */
  lemma LinkOf(cfg: Config, jar: seq<Cookies.Cookie>, attempts: seq<Attempt>, i: nat)
    requires Linked(cfg, jar, attempts) && 0 < i < |attempts|
    ensures Follows(cfg, JarAlong(jar, attempts[..i]), attempts[i - 1], attempts[i].request)
  {
    assert LinkedAt(cfg, jar, attempts, i);
  }

  lemma CredentialsStep(cfg: Config, jar: seq<Cookies.Cookie>, attempts: seq<Attempt>, i: nat, name: string)
    requires Linked(cfg, jar, attempts) && 0 < i < |attempts| && Secret(name)
    ensures var a, b := attempts[i - 1].request, attempts[i].request;
      Named(b.fields, name) == if b.host == a.host then Named(a.fields, name) else []
  {
    LinkOf(cfg, jar, attempts, i);
    CredentialsFollow(cfg, JarAlong(jar, attempts[..i]), attempts[i - 1], attempts[i].request, name);
  }

  lemma MethodStep(cfg: Config, jar: seq<Cookies.Cookie>, attempts: seq<Attempt>, i: nat)
    requires Linked(cfg, jar, attempts) && 0 < i < |attempts|
    ensures var a := attempts[i - 1];
      && a.reply.Some?
      && attempts[i].request.method_ == if a.reply.value.status in {307, 308} then a.request.method_ else Get
  {
    LinkOf(cfg, jar, attempts, i);
    RedirectedShape(cfg, JarAlong(jar, attempts[..i]), attempts[i - 1], attempts[i].request);
  }

  lemma {:induction false} CredentialsOf(cfg: Config, jar: seq<Cookies.Cookie>, attempts: seq<Attempt>,
                                         i: nat, name: string)
    requires Linked(cfg, jar, attempts) && i < |attempts| && Secret(name)
    ensures Named(attempts[i].request.fields, name)
      == if SameHosts(attempts, i) then Named(attempts[0].request.fields, name) else []
  {
    if i > 0 {
      CredentialsOf(cfg, jar, attempts, i - 1, name);
      CredentialsStep(cfg, jar, attempts, i, name);
      SameHostsStep(attempts, i);
    }
  }

  lemma {:induction false} MethodOf(cfg: Config, jar: seq<Cookies.Cookie>, attempts: seq<Attempt>, i: nat)
    requires Linked(cfg, jar, attempts) && i < |attempts|
    ensures attempts[i].request.method_ == if AllKeepMethod(attempts, i) then attempts[0].request.method_ else Get
  {
    if i > 0 {
      MethodOf(cfg, jar, attempts, i - 1);
      MethodStep(cfg, jar, attempts, i);
      assert AllKeepMethod(attempts, i)
        == (AllKeepMethod(attempts, i - 1) && attempts[i - 1].reply.value.status in {307, 308});
    }
  }

  /**
   Redirect chains, against any server. Request i carries the original credentials if hosts 0..i are
   all the same, and none otherwise; it keeps the method if every redirect so far was 307 or 308, and
   is a GET otherwise; from the second on it is empty, names its own host once, and goes where the
   redirect callback was told.
   */
  lemma RedirectChainIsSafe(c: Client, cfg: Config, req: Request, net: Server, i: nat, name: string)
    requires i < |Execute(c, cfg, req, net).attempts| && Secret(name)
    ensures var attempts := Execute(c, cfg, req, net).attempts;
      var r := attempts[i].request;
      && |attempts| <= cfg.maxRedirects + 1
      && Named(r.fields, name) == (if SameHosts(attempts, i) then Named(req.fields, name) else [])
      && r.method_ == (if AllKeepMethod(attempts, i) then req.method_ else Get)
      && (i > 0 ==>
            && attempts[i - 1].reply.Some? && 300 <= attempts[i - 1].reply.value.status <= 399
            && attempts[i - 1].notice.Some?
            && ParseUrl(attempts[i - 1].notice.value.to) == Some(Url(r.scheme, r.host, r.port, r.uri))
            && r.body == "" && Named(r.fields, "Content-Length") == []
            && Named(r.fields, "Host") == [Field("Host", HostText(r.host, r.port))])
  {
    var attempts := Execute(c, cfg, req, net).attempts;
    ExecuteIsLinked(c, cfg, req, net);
    CredentialsOf(cfg, c.jar, attempts, i, name);
    MethodOf(cfg, c.jar, attempts, i);
    NamesDiffer();
    DefaultsKeepOthers(cfg, c.jar, req, name);
    if i > 0 {
      var before := JarAlong(c.jar, attempts[..i]);
      LinkOf(cfg, c.jar, attempts, i);
      RedirectedShape(cfg, before, attempts[i - 1], attempts[i].request);
      RedirectIsAnnounced(cfg, before, attempts[i - 1], attempts[i].request);
    }
  }

  /**
   A redirect to a path stays on the same scheme, host and port, and asks for that path, exactly
   when the scheme is http or https, the host is plain, and the port is not one the rebuilt URL
   leaves out wrongly.
   */
  lemma RelativeRedirectStaysIff(r: Request, response: Response, path: string)
    requires r.port < PORT_LIMIT
    requires Lookup(response.fields, "Location") == Some(path) && path != "" && path[0] == '/'
    ensures var o := OriginOf(r);
      (Redirect(r, response).Follow? && var q := Redirect(r, response).request; OriginOf(q) == o && q.uri == path)
      <==> WebScheme(o.scheme) && PlainHost(r.host) && PortSurvives(o.scheme, r.port)
  {
    var o := OriginOf(r);
    var target := BuildUrl(o.scheme, r.host, r.port, path);
    if WebScheme(o.scheme) { RebuildIff(o.scheme, r.host, r.port, path); }
    assert path[0] != 'h' && path[..1] == "/";
    assert TargetUrl(r, path) == Some(target);
    ParsedUrlIsUsable(target);
    if ParseUrl(target).Some? {
      var u := ParseUrl(target).value;
      assert Redirect(r, response) == Follow(RedirectRequest(r, response.status, u));
    }
  }
}
