/** Over all runs of a client: which connections its requests are sent on. */
module PoolUse {
  import opened Wrappers
  import opened Headers
  import opened ParserSpec
  import opened Requests
  import opened Urls
  import opened EndToEnd
  import opened ClientSpec
  import opened PoolKeys
  import opened Replies

  /** No two of the schemes can get into each other's way. */
  predicate Separate(schemes: set<string>) {
    forall s, t :: s in schemes && t in schemes ==> s == t || Apart(s, t)
  }

  /** Requests of these schemes; one without a scheme counts as http or https. */
  predicate Within(schemes: set<string>, r: Request) { r.scheme == "" || r.scheme in schemes }

  lemma WebIsSeparate()
    ensures Separate({"http", "https"})
  {
    assert |"http://"| > |"https"| && !("http" + "://" <= "https");
  }

  predicate EntryOk(schemes: set<string>, key: string, e: PoolEntry) {
    && key == PoolKey(e.openedTo) && e.openedTo.scheme in schemes
    && e.isTls == (e.openedTo.scheme == "https") && (e.isTls ==> e.handshakeDone)
  }

  predicate PoolOk(schemes: set<string>, pool: map<string, PoolEntry>) {
    forall k :: k in pool ==> EntryOk(schemes, k, pool[k])
  }

  /** A request without a scheme is for https on port 443, and for http on any other. */
  function SchemeOf(r: Request): string {
    if r.scheme != "" then r.scheme else if r.port == 443 then "https" else "http"
  }

  /** The connection leads where the request goes, and is secure exactly when it should be. */
  predicate RightConnection(a: Attempt) {
    a.entry.Some? ==>
      var e, r := a.entry.value, a.request;
      && e.openedTo == Origin(SchemeOf(r), r.host, r.port)
      && e.isTls == (SchemeOf(r) == "https") && (e.isTls ==> e.handshakeDone)
  }

  lemma AcquireIsRight(schemes: set<string>, pool: map<string, PoolEntry>, o: Origin, net: Net)
    requires Separate(schemes) && PoolOk(schemes, pool) && o.scheme in schemes
    ensures var (after, entry) := Acquire(pool, o, net);
      && PoolOk(schemes, after)
      && (entry.Some? ==> entry.value.openedTo == o && EntryOk(schemes, PoolKey(o), entry.value))
  {
    var key := PoolKey(o);
    if key in pool && net.alive {
      assert EntryOk(schemes, key, pool[key]);
      PoolKeyIsInjective(pool[key].openedTo, o);
    }
  }

  lemma PoolAfterIsOk(schemes: set<string>, cfg: Config, pool: map<string, PoolEntry>, key: string, entry: PoolEntry,
                      response: Response, remaining: nat)
    requires PoolOk(schemes, pool) && EntryOk(schemes, key, entry)
    ensures PoolOk(schemes, PoolAfter(cfg, pool, key, entry, response, remaining))
  {
  }

  /** Schemes among which the client stays: redirects lead to http and https. */
  predicate Closed(schemes: set<string>) { {"http", "https"} <= schemes && "" !in schemes }

  lemma FollowedIsWithin(schemes: set<string>, r: Request, response: Response)
    requires Closed(schemes)
    ensures Redirect(r, response).Follow? ==> Within(schemes, Redirect(r, response).request)
  {
    if Redirect(r, response).Follow? {
      ParsedUrlIsUsable(TargetUrl(r, Lookup(response.fields, "Location").value).value);
    }
  }

  lemma ExchangeKeepsPool(schemes: set<string>, c: Client, cfg: Config, r: Request, remaining: nat, net: Net)
    requires Separate(schemes) && Closed(schemes) && PoolOk(schemes, c.pool) && Within(schemes, r)
    ensures var x := Exchange(c, cfg, r, remaining, net);
      && PoolOk(schemes, x.client.pool) && RightConnection(x.attempt)
      && (x.verdict.Follow? ==> Within(schemes, x.verdict.request))
  {
    var o := OriginOf(r);
    var cleaned := CleanupIdle(c.pool, net.now, cfg.idleTimeout);
    AcquireIsRight(schemes, cleaned, o, net);
    var (pool, entry) := Acquire(cleaned, o, net);
    if entry.Some? && SendAndReceive(r, net).Ok? {
      var response := SendAndReceive(r, net).value;
      PoolAfterIsOk(schemes, cfg, pool, PoolKey(o), entry.value.(lastActive := net.later), response, remaining);
      FollowedIsWithin(schemes, r, response);
    }
  }

  ghost predicate StepKeepsPool(schemes: set<string>, step: Stepper, c: Client, req: Request, remaining: nat, k: nat) {
    PoolOk(schemes, c.pool) && Within(schemes, req) ==>
      var x := step(c, req, remaining, k);
      && PoolOk(schemes, x.client.pool) && RightConnection(x.attempt)
      && (x.verdict.Follow? ==> Within(schemes, x.verdict.request))
  }

  ghost predicate StepsKeepPool(schemes: set<string>, step: Stepper) {
    forall c: Client, req: Request, remaining: nat, k: nat :: StepKeepsPool(schemes, step, c, req, remaining, k)
  }

  lemma ServerKeepsPool(schemes: set<string>, cfg: Config, net: Server)
    requires Separate(schemes) && Closed(schemes)
    ensures StepsKeepPool(schemes, Steps(cfg, net))
  {
    forall c: Client, req: Request, remaining: nat, k: nat
      ensures StepKeepsPool(schemes, Steps(cfg, net), c, req, remaining, k)
    {
      if PoolOk(schemes, c.pool) && Within(schemes, req) {
        var r := ApplyDefaults(cfg, c.jar, req);
        ExchangeKeepsPool(schemes, c, cfg, r, remaining, net(k, r));
        assert Steps(cfg, net)(c, req, remaining, k) == Exchange(c, cfg, r, remaining, net(k, r));
      }
    }
  }

  predicate AllRight(attempts: seq<Attempt>) { forall i :: 0 <= i < |attempts| ==> RightConnection(attempts[i]) }

  lemma AllRightCons(x: Attempt, rest: seq<Attempt>)
    requires RightConnection(x) && AllRight(rest)
    ensures AllRight([x] + rest)
  {
  }

  /** Over a whole chain, every connection used, pooled or new, is the right one. */
  lemma {:induction false} ChainUsesRightConnections(schemes: set<string>, step: Stepper, c: Client, req: Request,
                                                     remaining: nat, k: nat)
    requires PoolOk(schemes, c.pool) && Within(schemes, req) && StepsKeepPool(schemes, step)
    ensures var run := Chain(step, c, req, remaining, k); PoolOk(schemes, run.client.pool) && AllRight(run.attempts)
    decreases remaining
  {
    var x := step(c, req, remaining, k);
    assert StepKeepsPool(schemes, step, c, req, remaining, k);
    if x.verdict.Follow? && remaining > 0 {
      ChainUsesRightConnections(schemes, step, x.client, x.verdict.request, remaining - 1, k + 1);
      AllRightCons(x.attempt, Chain(step, x.client, x.verdict.request, remaining - 1, k + 1).attempts);
    }
  }

  predicate CallsWithin(schemes: set<string>, calls: seq<(Request, Server)>) {
    forall i :: 0 <= i < |calls| ==> Within(schemes, calls[i].0)
  }

  /** After these calls, the next one uses only connections to the origins of its requests. */
  ghost predicate CallIsRight(cfg: Config, calls: seq<(Request, Server)>, req: Request, net: Server) {
    AllRight(Execute(AfterCalls(cfg, calls), cfg, req, net).attempts)
  }

  lemma {:induction false} PoolStaysOk(schemes: set<string>, cfg: Config, calls: seq<(Request, Server)>)
    requires Separate(schemes) && Closed(schemes) && CallsWithin(schemes, calls)
    ensures PoolOk(schemes, AfterCalls(cfg, calls).pool)
  {
    if calls != [] {
      var before := calls[..|calls| - 1];
      var (req, net) := calls[|calls| - 1];
      PoolStaysOk(schemes, cfg, before);
      ServerKeepsPool(schemes, cfg, net);
      ChainUsesRightConnections(schemes, Steps(cfg, net), AfterCalls(cfg, before), req, cfg.maxRedirects, 0);
    }
  }

  /** After any calls, the next one reuses only connections to its own scheme, host and port. */
  lemma EveryCallUsesRightConnections(schemes: set<string>, cfg: Config, calls: seq<(Request, Server)>,
                                      req: Request, net: Server)
    requires Separate(schemes) && Closed(schemes) && CallsWithin(schemes, calls) && Within(schemes, req)
    ensures CallIsRight(cfg, calls, req, net)
  {
    PoolStaysOk(schemes, cfg, calls);
    ServerKeepsPool(schemes, cfg, net);
    ChainUsesRightConnections(schemes, Steps(cfg, net), AfterCalls(cfg, calls), req, cfg.maxRedirects, 0);
  }

  // ----- schemes that do get into each other's way -----

  const IDLE_ZERO: Config := Config(0, false, true, "", 0, 0)

  function AlwaysOk(): Server { (k: nat, r: Request) => Obliging(r, Print(OK_REPLY)) }

  function To(o: Origin): Request { Request(Get, "/", o.host, o.scheme, o.port, [], "") }

  /** The connection an exchange at time zero finds or opens. */
  function Found(c: Client, o: Origin): PoolEntry {
    if PoolKey(o) in c.pool && c.pool[PoolKey(o)].lastActive >= 0 then c.pool[PoolKey(o)]
    else PoolEntry(o, o.scheme == "https", o.scheme == "https", 0)
  }

  lemma AcquiredAtZero(c: Client, o: Origin, net: Net)
    requires net.alive && net.opening == Opened && net.later == 0
    ensures Acquire(CleanupIdle(c.pool, 0, 0), o, net).1 == Some(Found(c, o))
  {
  }

  /** What an exchange with a kept answer comes to. */
  lemma KeptExchange(c: Client, cfg: Config, r: Request, net: Net, e: PoolEntry, response: Response)
    requires Acquire(CleanupIdle(c.pool, net.now, cfg.idleTimeout), OriginOf(r), net).1 == Some(e)
    requires SendAndReceive(r, net) == Ok(response) && KeepsAlive(response.fields)
    ensures var x, key := Exchange(c, cfg, r, 0, net), PoolKey(OriginOf(r));
      && x.verdict == Answer(response) && x.attempt.request == r && x.attempt.entry == Some(e)
      && key in x.client.pool && x.client.pool[key] == e.(lastActive := net.later)
  {
  }

  lemma ExchangeAtZero(c: Client, r: Request)
    ensures var x, o := Exchange(c, IDLE_ZERO, r, 0, Obliging(r, Print(OK_REPLY))), OriginOf(r);
      && x.verdict == Answer(OK_REPLY) && x.attempt.request == r && x.attempt.entry == Some(Found(c, o))
      && PoolKey(o) in x.client.pool && x.client.pool[PoolKey(o)] == Found(c, o).(lastActive := 0)
  {
    var net := Obliging(r, Print(OK_REPLY));
    AcquiredAtZero(c, OriginOf(r), net);
    OkReplyIsSized();
    ReplyCanCome(r, OK_REPLY);
    KeptExchange(c, IDLE_ZERO, r, net, Found(c, OriginOf(r)), OK_REPLY);
  }

  /** A call that is answered is one attempt, and leaves the connection it used under its key. */
  lemma AnsweredCall(c: Client, o: Origin)
    requires o.scheme != "" && o.host != "" && o.port != 0
    ensures var run := Execute(c, IDLE_ZERO, To(o), AlwaysOk());
      && |run.attempts| == 1 && OriginOf(run.attempts[0].request) == o
      && run.attempts[0].entry == Some(Found(c, o))
      && PoolKey(o) in run.client.pool && run.client.pool[PoolKey(o)] == Found(c, o).(lastActive := 0)
  {
    var r := ApplyDefaults(IDLE_ZERO, c.jar, To(o));
    ExchangeAtZero(c, r);
    assert Steps(IDLE_ZERO, AlwaysOk())(c, To(o), 0, 0) == Exchange(c, IDLE_ZERO, r, 0, Obliging(r, Print(OK_REPLY)));
    assert OriginOf(r) == o;
  }

  /** Two calls, of a scheme and of one that continues it: the second uses the first one's connection. */
  lemma ContinuedSchemeCrossesOver(s: string, t: string)
    requires s != "" && s + "://" <= t
    ensures var o, p := Origin(s, t[|s| + 3..] + "://h", 1), Origin(t, "h", 1);
      && To(o).scheme == s && To(p).scheme == t
      && !CallIsRight(IDLE_ZERO, [(To(o), AlwaysOk())], To(p), AlwaysOk())
  {
    var o, p := Origin(s, t[|s| + 3..] + "://h", 1), Origin(t, "h", 1);
    var calls := [(To(o), AlwaysOk())];
    var empty := Client(map[], []);
    ContinuedSchemeCollides(s, t);
    assert calls[..0] == [] && AfterCalls(IDLE_ZERO, calls[..0]) == empty;
    AnsweredCall(empty, o);
    var c := AfterCalls(IDLE_ZERO, calls);
    assert c == Execute(empty, IDLE_ZERO, To(o), AlwaysOk()).client;
    AnsweredCall(c, p);
    assert |s| < |t|;
    var attempts := Execute(c, IDLE_ZERO, To(p), AlwaysOk()).attempts;
    assert attempts[0].entry.value.openedTo == o != p;
    assert !RightConnection(attempts[0]);
  }

  ghost predicate AlwaysRight(schemes: set<string>) {
    forall cfg: Config, calls: seq<(Request, Server)>, req: Request, net: Server ::
      CallsWithin(schemes, calls) && Within(schemes, req) ==> CallIsRight(cfg, calls, req, net)
  }

  lemma CrossingOverIsWrong(schemes: set<string>, s: string, t: string)
    requires s in schemes && t in schemes && s != "" && s + "://" <= t
    ensures !AlwaysRight(schemes)
  {
    var o, p := Origin(s, t[|s| + 3..] + "://h", 1), Origin(t, "h", 1);
    var calls := [(To(o), AlwaysOk())];
    ContinuedSchemeCrossesOver(s, t);
    assert calls[0].0.scheme == s && CallsWithin(schemes, calls) && Within(schemes, To(p));
    assert !CallIsRight(IDLE_ZERO, calls, To(p), AlwaysOk());
  }

  /**
   Over all runs of a client, connections are used for their own origins only, if and only if no
   scheme in use continues another one with "://".
   */
  lemma ConnectionsAreRightIff(schemes: set<string>)
    requires Closed(schemes)
    ensures AlwaysRight(schemes) <==> Separate(schemes)
  {
    if Separate(schemes) {
      forall cfg: Config, calls: seq<(Request, Server)>, req: Request, net: Server
        | CallsWithin(schemes, calls) && Within(schemes, req)
        ensures CallIsRight(cfg, calls, req, net)
      {
        EveryCallUsesRightConnections(schemes, cfg, calls, req, net);
      }
    } else {
      var s, t :| s in schemes && t in schemes && s != t && s + "://" <= t;
      CrossingOverIsWrong(schemes, s, t);
    }
  }
}
