/**
 What a call returns and why: when an exchange is answered and on which connection, when a chain goes
 on and where to, and what it ends with.
 */
module ClientResults {
  import opened Wrappers
  import opened Text
  import opened Headers
  import opened ParserSpec
  import opened Requests
  import opened Urls
  import opened EndToEnd
  import opened ClientSpec
  import opened ClientProofs
  import opened PoolUse
  import Cookies

  // ----- one exchange -----

  function OriginFor(r: Request): Origin { Origin(SchemeOf(r), r.host, r.port) }

  /** There is a connection for the request that is not idle for too long and still connected. */
  predicate Reusable(c: Client, cfg: Config, r: Request, net: Net) {
    var key := PoolKey(OriginFor(r));
    key in c.pool && net.now - c.pool[key].lastActive <= cfg.idleTimeout && net.alive
  }

  /** Opening a new connection fails at any step it takes; only https takes the third. */
  predicate OpeningFails(r: Request, net: Net, code: int) {
    || net.opening == CreateFailed(code) || net.opening == ConnectFailed(code)
    || (net.opening == TlsFailed(code) && SchemeOf(r) == "https")
  }

  /** The connection that an exchange uses: a pooled one, no other, if there is a good one; else a new one. */
  ghost predicate UsesConnection(c: Client, cfg: Config, r: Request, net: Net, entry: Option<PoolEntry>) {
    if Reusable(c, cfg, r, net) then entry == Some(c.pool[PoolKey(OriginFor(r))])
    else if exists code :: OpeningFails(r, net, code) then entry == None
    else entry == Some(PoolEntry(OriginFor(r), SchemeOf(r) == "https", SchemeOf(r) == "https", net.later))
  }

  lemma OriginIsFor(r: Request)
    ensures OriginOf(r) == OriginFor(r)
  {
  }

  lemma OpeningCodes(r: Request, net: Net)
    ensures var o := OpenError(net.opening, SchemeOf(r) == "https");
      && (o.Some? <==> exists code :: OpeningFails(r, net, code))
      && forall code :: OpeningFails(r, net, code) ==> o == Some(NotOpened(code))
  {
    match net.opening
    case Opened =>
    case CreateFailed(code) => assert OpeningFails(r, net, code);
    case ConnectFailed(code) => assert OpeningFails(r, net, code);
    case TlsFailed(code) => if SchemeOf(r) == "https" { assert OpeningFails(r, net, code); }
  }

  lemma AcquiresAsItShould(c: Client, cfg: Config, r: Request, net: Net)
    ensures UsesConnection(c, cfg, r, net, Acquire(CleanupIdle(c.pool, net.now, cfg.idleTimeout), OriginOf(r), net).1)
  {
    OriginIsFor(r);
    OpeningCodes(r, net);
  }

  /** Why there is no reply: the connection could not be opened, the request not sent, the reply not received. */
  ghost predicate FailsWith(a: Attempt, net: Net, failure: Failure) {
    if a.entry.None? then exists code :: OpeningFails(a.request, net, code) && failure == NotOpened(code)
    else
      var (status, delivered) := Transmit(Serialize(a.request), net.outcomes);
      if delivered != Serialize(a.request) then failure == NotSent(status)
      else
        var received := Receive(FRESH, net.arrivals).result;
        received.Err? && failure == NotReceived(received.error)
  }

  /** There is a reply exactly when there is a connection, the whole request went out, and this came back. */
  ghost predicate AnsweredWith(a: Attempt, net: Net, response: Response) {
    && a.entry.Some? && Transmit(Serialize(a.request), net.outcomes).1 == Serialize(a.request)
    && Receive(FRESH, net.arrivals).result == Ok(response)
  }

  lemma DoneIffDelivered(r: Request, net: Net)
    ensures var (status, delivered) := Transmit(Serialize(r), net.outcomes);
      status == Done <==> delivered == Serialize(r)
  {
    DeliveryIsPrefix(Serialize(r), net.outcomes);
  }

  /** Everything an exchange does with its connection and the network. */
  lemma ExchangeIs(c: Client, cfg: Config, r: Request, remaining: nat, net: Net)
    ensures var x := Exchange(c, cfg, r, remaining, net);
      && UsesConnection(c, cfg, r, net, x.attempt.entry)
      && (forall response :: x.attempt.reply == Some(response) <==> AnsweredWith(x.attempt, net, response))
      && (x.attempt.reply.None? ==> x.verdict.Error? && FailsWith(x.attempt, net, x.verdict.failure))
  {
    AcquiresAsItShould(c, cfg, r, net);
    OpeningCodes(r, net);
    OriginIsFor(r);
    DoneIffDelivered(r, net);
    ExchangeReply(c, cfg, r, remaining, net);
  }

  lemma ExchangeReply(c: Client, cfg: Config, r: Request, remaining: nat, net: Net)
    ensures var x := Exchange(c, cfg, r, remaining, net);
      var entry := Acquire(CleanupIdle(c.pool, net.now, cfg.idleTimeout), OriginOf(r), net).1;
      && x.attempt.request == r && x.attempt.entry == entry
      && (if entry.None? then x.attempt.reply == None && x.verdict == Error(OpenFailure(net, OriginOf(r)))
          else match SendAndReceive(r, net)
            case Err(failure) => x.attempt.reply == None && x.verdict == Error(failure)
            case Ok(response) => x.attempt.reply == Some(response))
  {
  }

  // ----- where redirects lead -----

  predicate IsAbsolute(location: string) { "http://" <= location || "https://" <= location }

  predicate IsPath(location: string) { location != "" && location[0] == '/' }

  /** The scheme, host and port of the request itself, as a redirect to a path takes them over. */
  function Base(r: Request): string {
    SchemeOf(r) + "://" + r.host + (if r.port == 80 || r.port == 443 then "" else ":" + Decimal(r.port))
  }

  /** The URL that a location stands for: itself, or a path on the same host. */
  predicate StandsFor(r: Request, location: string, url: string) {
    (IsAbsolute(location) && url == location) || (IsPath(location) && url == Base(r) + location)
  }

  lemma TargetIs(r: Request, location: string)
    ensures forall url :: TargetUrl(r, location) == Some(url) <==> StandsFor(r, location, url)
  {
    OriginIsFor(r);
    assert IsPath(location) <==> "/" <= location;
    if IsAbsolute(location) { assert location[0] == 'h'; }
    assert BuildUrl(SchemeOf(r), r.host, r.port, location) == Base(r) + location;
  }

  /** The redirect is one to follow: asked for, within the budget, and to a location in a known form. */
  predicate Redirects(cfg: Config, a: Attempt, remaining: nat, url: string) {
    && a.reply.Some? && 300 <= a.reply.value.status <= 399 && cfg.followRedirects && remaining > 0
    && Lookup(a.reply.value.fields, "Location").Some?
    && StandsFor(a.request, Lookup(a.reply.value.fields, "Location").value, url)
  }

  /** What the callback is told of such a redirect. */
  function NoticeOf(a: Attempt, url: string): Notice
    requires a.reply.Some?
  {
    Notice(Base(a.request) + a.request.uri, url, a.reply.value.status)
  }

  /** An attempt goes on to the next request exactly when it redirects to a URL that can be parsed. */
  ghost predicate Continues(cfg: Config, a: Attempt, remaining: nat, next: Request) {
    exists url, u: Url ::
      && Redirects(cfg, a, remaining, url) && ParseUrl(url) == Some(u) && a.notice == Some(NoticeOf(a, url))
      && next.scheme == u.scheme && next.host == u.host && next.port == u.port && next.uri == u.path
  }

  /** And where it does not go on, this is the result. */
  ghost predicate Concludes(cfg: Config, a: Attempt, remaining: nat, net: Net, result: Result<Response, Failure>) {
    match a.reply
    case None => a.notice == None && result.Err? && FailsWith(a, net, result.error)
    case Some(response) =>
      && AnsweredWith(a, net, response)
      && (if exists url :: Redirects(cfg, a, remaining, url) then
            && result == Err(BadLocation)
            && exists url ::
                 Redirects(cfg, a, remaining, url) && ParseUrl(url) == None && a.notice == Some(NoticeOf(a, url))
          else result == Ok(response) && a.notice == None)
  }

  lemma RedirectIs(cfg: Config, a: Attempt, remaining: nat, url: string)
    requires a.reply.Some? && EntersRedirect(cfg, a.reply.value, remaining)
    ensures Redirects(cfg, a, remaining, url) ==>
      && Announcement(a.request, a.reply.value) == Some(NoticeOf(a, url))
      && Redirect(a.request, a.reply.value)
         == if ParseUrl(url).None? then Error(BadLocation)
            else Follow(RedirectRequest(a.request, a.reply.value.status, ParseUrl(url).value))
  {
    if Redirects(cfg, a, remaining, url) {
      TargetIs(a.request, Lookup(a.reply.value.fields, "Location").value);
      OriginIsFor(a.request);
      assert BuildUrl(SchemeOf(a.request), a.request.host, a.request.port, a.request.uri)
        == Base(a.request) + a.request.uri;
    }
  }

  lemma NoRedirectIs(cfg: Config, a: Attempt, remaining: nat)
    requires a.reply.Some? && EntersRedirect(cfg, a.reply.value, remaining)
    requires forall url :: !Redirects(cfg, a, remaining, url)
    ensures Redirect(a.request, a.reply.value) == Answer(a.reply.value)
    ensures Announcement(a.request, a.reply.value) == None
  {
    var location := Lookup(a.reply.value.fields, "Location");
    if location.Some? {
      TargetIs(a.request, location.value);
      if TargetUrl(a.request, location.value).Some? {
        assert Redirects(cfg, a, remaining, TargetUrl(a.request, location.value).value);
      }
    }
  }

  // ----- whole chains -----

  /** What a verdict that does not go on returns. */
  function Final(v: Verdict): Result<Response, Failure> {
    match v
    case Answer(response) => Ok(response)
    case Error(failure) => Err(failure)
    case Follow(_) => Err(BadLocation)
  }

  lemma UnansweredIs(c: Client, cfg: Config, r: Request, remaining: nat, net: Net)
    ensures var x := Exchange(c, cfg, r, remaining, net);
      x.attempt.reply.None? ==> x.attempt.notice == None
  {
  }

  lemma AnsweredIs(c: Client, cfg: Config, r: Request, remaining: nat, net: Net)
    ensures var x := Exchange(c, cfg, r, remaining, net);
      x.attempt.reply.Some? ==>
        var response := x.attempt.reply.value;
        if EntersRedirect(cfg, response, remaining) then
          x.verdict == Redirect(r, response) && x.attempt.notice == Announcement(r, response)
        else x.verdict == Answer(response) && x.attempt.notice == None
  {
  }

  /** An exchange that is not followed by another has the result that its attempt asks for. */
  lemma ExchangeConcludes(c: Client, cfg: Config, r: Request, remaining: nat, net: Net)
    ensures var x := Exchange(c, cfg, r, remaining, net);
      !x.verdict.Follow? ==> Concludes(cfg, x.attempt, remaining, net, Final(x.verdict))
  {
    var x := Exchange(c, cfg, r, remaining, net);
    ExchangeIs(c, cfg, r, remaining, net);
    ExchangeReply(c, cfg, r, remaining, net);
    UnansweredIs(c, cfg, r, remaining, net);
    AnsweredIs(c, cfg, r, remaining, net);
    if x.attempt.reply.Some? && EntersRedirect(cfg, x.attempt.reply.value, remaining) {
      if url :| Redirects(cfg, x.attempt, remaining, url) {
        RedirectIs(cfg, x.attempt, remaining, url);
      } else {
        NoRedirectIs(cfg, x.attempt, remaining);
      }
    }
  }

  /** An exchange that is followed by another redirects to where that one goes. */
  lemma ExchangeContinues(c: Client, cfg: Config, r: Request, remaining: nat, net: Net, jar: seq<Cookies.Cookie>)
    ensures var x := Exchange(c, cfg, r, remaining, net);
      x.verdict.Follow? ==>
        remaining > 0 && Continues(cfg, x.attempt, remaining, ApplyDefaults(cfg, jar, x.verdict.request))
  {
    var x := Exchange(c, cfg, r, remaining, net);
    ExchangeReply(c, cfg, r, remaining, net);
    AnsweredIs(c, cfg, r, remaining, net);
    if x.verdict.Follow? {
      if url :| Redirects(cfg, x.attempt, remaining, url) {
        RedirectIs(cfg, x.attempt, remaining, url);
        ParsedUrlIsUsable(url);
        NextIsAddressed(cfg, jar, x.attempt, url);
      } else {
        NoRedirectIs(cfg, x.attempt, remaining);
      }
    }
  }

  lemma NextIsAddressed(cfg: Config, jar: seq<Cookies.Cookie>, a: Attempt, url: string)
    requires a.reply.Some? && ParseUrl(url).Some? && ParseUrl(url).value.host != "" && ParseUrl(url).value.port != 0
    ensures var u := ParseUrl(url).value;
      var next := ApplyDefaults(cfg, jar, RedirectRequest(a.request, a.reply.value.status, u));
      next.scheme == u.scheme && next.host == u.host && next.port == u.port && next.uri == u.path
  {
  }

  // The induction over a chain knows its steps only by what they promise.

  type Go = (Attempt, nat, Request) -> bool

  type End = (Attempt, nat, nat, Result<Response, Failure>) -> bool

  predicate StepGoesOn(dress: Dress, go: Go, end: End, step: Stepper, c: Client, req: Request, remaining: nat, k: nat) {
    var x := step(c, req, remaining, k);
    && x.attempt.request == dress(c.jar, req)
    && if x.verdict.Follow? then remaining > 0 && go(x.attempt, remaining, dress(x.client.jar, x.verdict.request))
       else end(x.attempt, k, remaining, Final(x.verdict))
  }

  ghost predicate StepsGoOn(dress: Dress, go: Go, end: End, step: Stepper) {
    forall c: Client, req: Request, remaining: nat, k: nat :: StepGoesOn(dress, go, end, step, c, req, remaining, k)
  }

  /** Each attempt goes on to the next, and the last one gives the result. */
  predicate Told(go: Go, end: End, first: Request, attempts: seq<Attempt>, remaining: nat, k: nat,
                 result: Result<Response, Failure>)
  {
    && 1 <= |attempts| <= remaining + 1 && attempts[0].request == first
    && (forall i :: 0 < i < |attempts| ==> go(attempts[i - 1], remaining - (i - 1), attempts[i].request))
    && end(attempts[|attempts| - 1], k + |attempts| - 1, remaining - (|attempts| - 1), result)
  }

  lemma ToldCons(go: Go, end: End, x: Attempt, next: Request, rest: seq<Attempt>, remaining: nat, k: nat,
                 result: Result<Response, Failure>)
    requires remaining > 0 && Told(go, end, next, rest, remaining - 1, k + 1, result) && go(x, remaining, next)
    ensures Told(go, end, x.request, [x] + rest, remaining, k, result)
  {
    var all := [x] + rest;
    forall i | 0 < i < |all| ensures go(all[i - 1], remaining - (i - 1), all[i].request) {
      if i > 1 { assert go(rest[i - 2], remaining - 1 - (i - 2), rest[i - 1].request); }
    }
  }

  lemma {:induction false} ChainIsTold(dress: Dress, go: Go, end: End, step: Stepper,
                                       c: Client, req: Request, remaining: nat, k: nat)
    requires StepsGoOn(dress, go, end, step)
    ensures var run := Chain(step, c, req, remaining, k);
      Told(go, end, dress(c.jar, req), run.attempts, remaining, k, run.result)
    decreases remaining
  {
    var x := step(c, req, remaining, k);
    assert StepGoesOn(dress, go, end, step, c, req, remaining, k);
    if x.verdict.Follow? {
      var rest := Chain(step, x.client, x.verdict.request, remaining - 1, k + 1);
      ChainIsTold(dress, go, end, step, x.client, x.verdict.request, remaining - 1, k + 1);
      ToldCons(go, end, x.attempt, dress(x.client.jar, x.verdict.request), rest.attempts, remaining, k, rest.result);
      assert Chain(step, c, req, remaining, k).attempts == [x.attempt] + rest.attempts;
    } else {
      assert Chain(step, c, req, remaining, k) == Run(x.client, Final(x.verdict), [x.attempt]);
    }
  }

  ghost function Going(cfg: Config): Go {
    (a: Attempt, remaining: nat, next: Request) => Continues(cfg, a, remaining, next)
  }

  ghost function Ending(cfg: Config, net: Server): End {
    (a: Attempt, k: nat, remaining: nat, result: Result<Response, Failure>) =>
      Concludes(cfg, a, remaining, net(k, a.request), result)
  }

  lemma ServerGoesOn(cfg: Config, net: Server)
    ensures StepsGoOn(DefaultsOf(cfg), Going(cfg), Ending(cfg, net), Steps(cfg, net))
  {
    forall c: Client, req: Request, remaining: nat, k: nat
      ensures StepGoesOn(DefaultsOf(cfg), Going(cfg), Ending(cfg, net), Steps(cfg, net), c, req, remaining, k)
    {
      var r := ApplyDefaults(cfg, c.jar, req);
      var x := Exchange(c, cfg, r, remaining, net(k, r));
      assert Steps(cfg, net)(c, req, remaining, k) == x;
      ExchangeFollows(c, cfg, r, remaining, net(k, r));
      if x.verdict.Follow? {
        ExchangeContinues(c, cfg, r, remaining, net(k, r), x.client.jar);
      } else {
        ExchangeConcludes(c, cfg, r, remaining, net(k, r));
      }
    }
  }

  /** The i-th attempt goes on to the one after it. */
  ghost predicate ContinuesAt(cfg: Config, attempts: seq<Attempt>, i: nat)
    requires 0 < i < |attempts| <= cfg.maxRedirects + 1
  {
    Continues(cfg, attempts[i - 1], cfg.maxRedirects - (i - 1), attempts[i].request)
  }

  /** The last attempt gives the result. */
  ghost predicate ConcludesAt(cfg: Config, net: Server, attempts: seq<Attempt>, result: Result<Response, Failure>)
    requires 1 <= |attempts| <= cfg.maxRedirects + 1
  {
    var n := |attempts| - 1;
    Concludes(cfg, attempts[n], cfg.maxRedirects - n, net(n, attempts[n].request), result)
  }

  /** The story of a call, told by its attempts. */
  ghost predicate Story(cfg: Config, net: Server, attempts: seq<Attempt>, result: Result<Response, Failure>) {
    && 1 <= |attempts| <= cfg.maxRedirects + 1
    && (forall i :: 0 < i < |attempts| ==> ContinuesAt(cfg, attempts, i))
    && ConcludesAt(cfg, net, attempts, result)
  }

  lemma ToldContinues(cfg: Config, end: End, first: Request, attempts: seq<Attempt>,
                      result: Result<Response, Failure>, i: nat)
    requires Told(Going(cfg), end, first, attempts, cfg.maxRedirects, 0, result) && 0 < i < |attempts|
    ensures ContinuesAt(cfg, attempts, i)
  {
    var go := Going(cfg);
    assert go(attempts[i - 1], cfg.maxRedirects - (i - 1), attempts[i].request);
  }

  lemma ToldConcludes(cfg: Config, net: Server, go: Go, first: Request, attempts: seq<Attempt>,
                      result: Result<Response, Failure>)
    requires Told(go, Ending(cfg, net), first, attempts, cfg.maxRedirects, 0, result)
    ensures ConcludesAt(cfg, net, attempts, result)
  {
    var end, n := Ending(cfg, net), |attempts| - 1;
    assert end(attempts[n], n, cfg.maxRedirects - n, result);
  }

  /**
   The result of a call, against any server. Every attempt but the last was answered by a redirect,
   within the budget and to a URL that can be parsed, and the next request goes there. The last one was
   not: the result is its answer, or the failure that it met, or that the URL cannot be parsed.
   */
  lemma ResultOfCall(c: Client, cfg: Config, req: Request, net: Server)
    ensures var run := Execute(c, cfg, req, net); Story(cfg, net, run.attempts, run.result)
  {
    var run := Execute(c, cfg, req, net);
    ServerGoesOn(cfg, net);
    ChainIsTold(DefaultsOf(cfg), Going(cfg), Ending(cfg, net), Steps(cfg, net), c, req, cfg.maxRedirects, 0);
    var first := DefaultsOf(cfg)(c.jar, req);
    forall i | 0 < i < |run.attempts| ensures ContinuesAt(cfg, run.attempts, i) {
      ToldContinues(cfg, Ending(cfg, net), first, run.attempts, run.result, i);
    }
    ToldConcludes(cfg, net, Going(cfg), first, run.attempts, run.result);
  }
}
