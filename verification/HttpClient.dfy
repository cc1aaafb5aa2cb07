/** The client as an object (`http_client`), against `ClientSpec`. */
module ClientObject {
  import opened Wrappers
  import opened Text
  import opened Headers
  import opened HeaderStore
  import opened Requests
  import opened Urls
  import opened EndToEnd
  import opened Cookies
  import P = ParserSpec
  import Spec = ClientSpec

  class HttpClient {
    const config: Spec.Config
    var connections: map<string, Spec.PoolEntry>
    const cookies: CookieJar

    ghost function State(): Spec.Client
      reads this, cookies
    {
      Spec.Client(connections, cookies.cookies)
    }

    constructor (config: Spec.Config)
      ensures State() == Spec.Client(map[], []) && this.config == config && fresh(cookies)
    {
      this.config := config;
      connections := map[];
      cookies := new CookieJar();
    }

    /** `if (!headers.contains(name)) headers.set(name, value)`. */
    static method SetDefault(headers: HttpHeaders, name: string, value: string)
      modifies headers
      ensures headers.fields == Spec.PutIfAbsent(old(headers.fields), name, value)
    {
      var present := headers.ContainsName(name);
      if !present { headers.Set(name, value); }
    }

    static lemma FillInUnrolled(fields: seq<Field>, cfg: Spec.Config, r: Request)
      ensures var f1 := Spec.PutIfAbsent(fields, "Host", Spec.HostValue(r.host, r.port));
        var f2 := Spec.PutIfAbsent(f1, "Connection", if cfg.keepAlive then "keep-alive" else "close");
        var f3 := if r.body != "" then Spec.PutIfAbsent(f2, "Content-Length", Decimal(|r.body|)) else f2;
        var f4 := Spec.PutIfAbsent(f3, "User-Agent", "vynx_http/0.1");
        Spec.FillIn(fields, Spec.Defaults(cfg, r)) == Spec.PutIfAbsent(f4, "Accept", "*/*")
    {
      var d := Spec.Defaults(cfg, r);
      var f1 := Spec.PutIfAbsent(fields, d[0].name, d[0].value);
      var f2 := Spec.PutIfAbsent(f1, d[1].name, d[1].value);
      var f3 := if r.body != "" then Spec.PutIfAbsent(f2, "Content-Length", Decimal(|r.body|)) else f2;
      var tail := [Field("User-Agent", "vynx_http/0.1"), Field("Accept", "*/*")];
      assert Spec.FillIn(fields, d) == Spec.FillIn(f1, d[1..]);
      assert d[1..][1..] == d[2..];
      assert Spec.FillIn(f1, d[1..]) == Spec.FillIn(f2, d[2..]);
      if r.body != "" {
        assert d[2..][1..] == tail;
      } else {
        assert d[2..] == tail;
      }
      assert Spec.FillIn(f2, d[2..]) == Spec.FillIn(f3, tail);
      assert tail[1..] == [Field("Accept", "*/*")] && tail[1..][1..] == [];
      var f4 := Spec.PutIfAbsent(f3, tail[0].name, tail[0].value);
      assert Spec.FillIn(f3, tail) == Spec.FillIn(f4, tail[1..]);
    }

    /** The headers a request should have. */
    method FillHeaders(headers: HttpHeaders, r: Request)
      modifies headers
      ensures headers.fields == Spec.FillIn(old(headers.fields), Spec.Defaults(config, r))
    {
      FillInUnrolled(headers.fields, config, r);
      SetDefault(headers, "Host", r.host + PortText(r.port));
      SetDefault(headers, "Connection", if config.keepAlive then "keep-alive" else "close");
      if |r.body| > 0 { SetDefault(headers, "Content-Length", Decimal(|r.body|)); }
      SetDefault(headers, "User-Agent", "vynx_http/0.1");
      SetDefault(headers, "Accept", "*/*");
    }

    /** The request with host, port, default headers and cookies filled in. */
    method ApplyDefaults(req: Request) returns (r: Request)
      ensures r == Spec.ApplyDefaults(config, cookies.cookies, req)
    {
      r := req;
      if r.host == "" && config.defaultHost != "" { r := r.(host := config.defaultHost); }
      if r.port == 0 { r := r.(port := config.defaultPort); }
      assert r == Spec.Addressed(config, req);
      var headers := new HttpHeaders();
      headers.fields := r.fields;
      FillHeaders(headers, r);
      var cookieHeader := cookies.BuildCookieHeader(r.host, r.uri);
      if cookieHeader != "" { headers.Set("Cookie", cookieHeader); }
      r := r.(fields := headers.fields);
    }

    /** Drops every connection that has been idle for too long. */
    method CleanupIdle(now: int)
      modifies this`connections
      ensures connections == Spec.CleanupIdle(old(connections), now, config.idleTimeout)
    {
      var left := connections.Keys;
      while left != {}
        invariant connections.Keys <= old(connections).Keys && left <= connections.Keys
        invariant forall k :: k in connections ==> connections[k] == old(connections)[k]
        invariant forall k :: k in old(connections) && k !in left ==>
          (k in connections <==> now - old(connections)[k].lastActive <= config.idleTimeout)
        decreases |left|
      {
        var k :| k in left;
        left := left - {k};
        if now - connections[k].lastActive > config.idleTimeout {
          connections := connections - {k};
        }
      }
    }

    /** Stores the cookies of a response. */
    method StoreCookies(fields: seq<Field>, host: string)
      modifies cookies
      ensures cookies.cookies == Spec.SetCookies(old(cookies.cookies), fields, host)
    {
      ghost var goal := Spec.SetCookies(cookies.cookies, fields, host);
      for i := 0 to |fields|
        invariant Spec.SetCookies(cookies.cookies, fields[i..], host) == goal
      {
        assert fields[i..][1..] == fields[i + 1..];
        var same := SameName(fields[i].name, "Set-Cookie");
        if same { cookies.SetCookieLine(fields[i].value, host); }
      }
    }

    /** The headers a redirected request takes over. */
    static method RedirectFields(fields: seq<Field>, crossOrigin: bool) returns (kept: seq<Field>)
      ensures kept == Spec.CopyFields(fields, crossOrigin)
    {
      kept := [];
      for i := 0 to |fields|
        invariant Spec.CopyFields(fields, crossOrigin) == kept + Spec.CopyFields(fields[i..], crossOrigin)
      {
        assert fields[i..][1..] == fields[i + 1..];
        var skip := SkipsField(fields[i], crossOrigin);
        if !skip { kept := kept + [fields[i]]; }
      }
      assert kept + [] == kept;
    }

    /** The names that are not taken over. */
    static method SkipsField(f: Field, crossOrigin: bool) returns (skip: bool)
      ensures skip == Spec.Skipped(f, crossOrigin)
    {
      var host := SameName(f.name, "Host");
      var length := SameName(f.name, "Content-Length");
      var cookie := SameName(f.name, "Cookie");
      skip := host || length || cookie;
      if crossOrigin {
        var auth := SameName(f.name, "Authorization");
        var proxy := SameName(f.name, "Proxy-Authorization");
        skip := skip || auth || proxy;
      }
    }

    static method KeepsConnection(fields: seq<Field>) returns (keep: bool)
      ensures keep == KeepsAlive(fields)
    {
      var headers := new HttpHeaders();
      headers.fields := fields;
      keep := headers.ConnectionKeepAlive();
    }

    /** The redirect block: where to go next, if anywhere. */
    static method FollowRedirect(r: Request, response: P.Response)
      returns (verdict: Spec.Verdict, notice: Option<Spec.Notice>)
      ensures verdict == Spec.Redirect(r, response) && notice == Spec.Announcement(r, response)
    {
      var headers := new HttpHeaders();
      headers.fields := response.fields;
      var location := headers.Get("Location");
      if location.None? { return Spec.Answer(response), None; }
      var loc := location.value;
      var target: string;
      if "http://" <= loc || "https://" <= loc {
        target := loc;
      } else if "/" <= loc {
        target := BuildUrl(Spec.OriginOf(r).scheme, r.host, r.port, loc);
      } else {
        return Spec.Answer(response), None;
      }
      notice := Some(Spec.Notice(BuildUrl(Spec.OriginOf(r).scheme, r.host, r.port, r.uri), target, response.status));
      var u := ParseUrlInto(target);
      if u.None? { return Spec.Error(Spec.BadLocation), notice; }
      var fields := RedirectFields(r.fields, u.value.host != r.host);
      var m := if response.status == 307 || response.status == 308 then r.method_ else Get;
      verdict := Spec.Follow(Request(m, u.value.path, u.value.host, u.value.scheme, u.value.port, fields, ""));
    }

    /** A pooled connection that is still good, or a new one. */
    method Acquire(o: Spec.Origin, net: Spec.Net) returns (entry: Option<Spec.PoolEntry>)
      modifies this`connections
      ensures (connections, entry) == Spec.Acquire(old(connections), o, net)
      ensures entry.Some? ==> Spec.PoolKey(o) in connections && connections[Spec.PoolKey(o)] == entry.value
    {
      var key := Spec.PoolKey(o);
      if key in connections && net.alive { return Some(connections[key]); }
      connections := connections - {key};
      var isTls := o.scheme == "https";
      if Spec.OpenError(net.opening, isTls).Some? { return None; }
      var fresh_ := Spec.PoolEntry(o, isTls, isTls, net.later);
      connections := connections[key := fresh_];
      return Some(fresh_);
    }

    static method SendAndReceive(r: Request, net: Spec.Net) returns (reply: Result<P.Response, Spec.Failure>)
      ensures reply == Spec.SendAndReceive(r, net)
    {
      var status, delivered := SendRequest(r, net.outcomes);
      if status != Done { return Err(Spec.NotSent(status)); }
      var received, unread := ReceiveResponse(net.arrivals);
      if received.Err? { return Err(Spec.NotReceived(received.error)); }
      return Ok(received.value);
    }

    /** One exchange, with everything it does to the pool and the jar. */
    method ExchangeOnce(r: Request, remaining: nat, net: Spec.Net)
      returns (verdict: Spec.Verdict, ghost attempt: Spec.Attempt)
      modifies this, cookies
      ensures Spec.Outcome(State(), verdict, attempt) == Spec.Exchange(old(State()), config, r, remaining, net)
    {
      CleanupIdle(net.now);
      var o := Spec.OriginOf(r);
      var key := Spec.PoolKey(o);
      var entry := Acquire(o, net);
      if entry.None? {
        attempt := Spec.Attempt(r, None, None, None);
        return Spec.Error(Spec.OpenFailure(net, o)), attempt;
      }
      var reply := SendAndReceive(r, net);
      if reply.Err? {
        attempt := Spec.Attempt(r, entry, None, None);
        connections := connections - {key};
        return Spec.Error(reply.error), attempt;
      }
      var notice;
      verdict, notice := Conclude(r, remaining, key, entry.value.(lastActive := net.later), reply.value);
      attempt := Spec.Attempt(r, entry, Some(reply.value), notice);
    }

    /** A response has arrived: the connection, the cookies, and where to go from here. */
    method Conclude(r: Request, remaining: nat, key: string, entry: Spec.PoolEntry, response: P.Response)
      returns (verdict: Spec.Verdict, notice: Option<Spec.Notice>)
      modifies this, cookies
      ensures connections == Spec.PoolAfter(config, old(connections), key, entry, response, remaining)
      ensures cookies.cookies == Spec.SetCookies(old(cookies.cookies), response.fields, r.host)
      ensures verdict
        == if Spec.EntersRedirect(config, response, remaining) then Spec.Redirect(r, response)
           else Spec.Answer(response)
      ensures notice
        == if Spec.EntersRedirect(config, response, remaining) then Spec.Announcement(r, response) else None
    {
      connections := connections[key := entry];
      StoreCookies(response.fields, r.host);
      if 300 <= response.status < 400 && config.followRedirects && remaining > 0 {
        verdict, notice := FollowRedirect(r, response);
      } else {
        verdict, notice := Spec.Answer(response), None;
        var keep := KeepsConnection(response.fields);
        if !keep { connections := connections - {key}; }
      }
    }

    /** One step of a chain: the defaults, then the exchange. */
    method Step(req: Request, remaining: nat, net: Spec.Server, k: nat)
      returns (verdict: Spec.Verdict, ghost attempt: Spec.Attempt)
      modifies this, cookies
      ensures Spec.Outcome(State(), verdict, attempt) == Spec.Steps(config, net)(old(State()), req, remaining, k)
    {
      var r := ApplyDefaults(req);
      verdict, attempt := ExchangeOnce(r, remaining, net(k, r));
    }

    /** The k-th request of a chain and all that follow from it. */
    method DoExecute(req: Request, remaining: nat, net: Spec.Server, k: nat)
      returns (result: Result<P.Response, Spec.Failure>, ghost attempts: seq<Spec.Attempt>)
      modifies this, cookies
      ensures Spec.Run(State(), result, attempts)
        == Spec.Chain(Spec.Steps(config, net), old(State()), req, remaining, k)
      decreases remaining
    {
      ghost var before, step := State(), Spec.Steps(config, net);
      var verdict;
      ghost var attempt;
      verdict, attempt := Step(req, remaining, net, k);
      ghost var x := Spec.Outcome(State(), verdict, attempt);
      match verdict
      case Answer(response) =>
        ChainEnds(step, before, req, remaining, k, x);
        return Ok(response), [attempt];
      case Error(failure) =>
        ChainEnds(step, before, req, remaining, k, x);
        return Err(failure), [attempt];
      case Follow(next) =>
        if remaining == 0 {
          ChainEnds(step, before, req, remaining, k, x);
          return Err(Spec.BadLocation), [attempt];
        }
        result, attempts := DoExecute(next, remaining - 1, net, k + 1);
        ChainGoesOn(step, before, req, remaining, k, x, Spec.Run(State(), result, attempts));
        attempts := [attempt] + attempts;
    }

    static lemma ChainEnds(step: Spec.Stepper, c: Spec.Client, req: Request, remaining: nat, k: nat, x: Spec.Outcome)
      requires x == step(c, req, remaining, k) && (x.verdict.Follow? ==> remaining == 0)
      ensures Spec.Chain(step, c, req, remaining, k) == Spec.Run(x.client, Final(x.verdict), [x.attempt])
    {
    }

    /** What a chain returns that goes no further. */
    static function Final(v: Spec.Verdict): Result<P.Response, Spec.Failure> {
      match v
      case Answer(response) => Ok(response)
      case Error(failure) => Err(failure)
      case Follow(_) => Err(Spec.BadLocation)
    }

    static lemma ChainGoesOn(step: Spec.Stepper, c: Spec.Client, req: Request, remaining: nat, k: nat,
                             x: Spec.Outcome, rest: Spec.Run)
      requires x == step(c, req, remaining, k) && x.verdict.Follow? && remaining > 0
      requires rest == Spec.Chain(step, x.client, x.verdict.request, remaining - 1, k + 1)
      ensures Spec.Chain(step, c, req, remaining, k) == Spec.Run(rest.client, rest.result, [x.attempt] + rest.attempts)
    {
    }

    method Execute(req: Request, net: Spec.Server)
      returns (result: Result<P.Response, Spec.Failure>, ghost attempts: seq<Spec.Attempt>)
      modifies this, cookies
      ensures Spec.Run(State(), result, attempts) == Spec.Execute(old(State()), config, req, net)
    {
      result, attempts := DoExecute(req, config.maxRedirects, net, 0);
    }
  }
}
