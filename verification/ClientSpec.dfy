/**
 What `execute` does, as functions: default headers, the keep-alive pool, cookies and redirects.
 The network is an oracle that answers the k-th request of a chain as it pleases.
 */
module ClientSpec {
  import opened Wrappers
  import opened Text
  import opened Headers
  import opened ParserSpec
  import opened Requests
  import opened Urls
  import opened EndToEnd
  import Cookies

  datatype Config = Config(
    maxRedirects: nat, followRedirects: bool, keepAlive: bool, defaultHost: string, defaultPort: nat, idleTimeout: int)

  // ----- default headers -----

  function PutIfAbsent(fields: seq<Field>, name: string, value: string): seq<Field> {
    if Contains(fields, name) then fields else SetField(fields, name, value)
  }

  function HostValue(host: string, port: nat): string { host + PortText(port) }

  /** The default fields, in the order in which they are looked at. */
  function Defaults(cfg: Config, r: Request): seq<Field> {
    [Field("Host", HostValue(r.host, r.port)), Field("Connection", if cfg.keepAlive then "keep-alive" else "close")]
    + (if r.body != "" then [Field("Content-Length", Decimal(|r.body|))] else [])
    + [Field("User-Agent", "vynx_http/0.1"), Field("Accept", "*/*")]
  }

  function FillIn(fields: seq<Field>, defaults: seq<Field>): seq<Field>
    decreases |defaults|
  {
    if defaults == [] then fields
    else FillIn(PutIfAbsent(fields, defaults[0].name, defaults[0].value), defaults[1..])
  }

  /** Host and port from the configuration, where the request leaves them open. */
  function Addressed(cfg: Config, req: Request): Request {
    req.(host := if req.host == "" && cfg.defaultHost != "" then cfg.defaultHost else req.host,
         port := if req.port == 0 then cfg.defaultPort else req.port)
  }

  function AddCookies(fields: seq<Field>, cookies: string): seq<Field> {
    if cookies == "" then fields else SetField(fields, "Cookie", cookies)
  }

  function ApplyDefaults(cfg: Config, jar: seq<Cookies.Cookie>, req: Request): Request {
    var r := Addressed(cfg, req);
    r.(fields := AddCookies(FillIn(r.fields, Defaults(cfg, r)), Cookies.CookieHeader(jar, r.host, r.uri)))
  }

  // ----- the pool -----

  datatype Origin = Origin(scheme: string, host: string, port: nat)

  /** `openedTo` is where the connection leads, whatever key it is filed under. */
  datatype PoolEntry = PoolEntry(openedTo: Origin, isTls: bool, handshakeDone: bool, lastActive: int)

  datatype Client = Client(pool: map<string, PoolEntry>, jar: seq<Cookies.Cookie>)

  function OriginOf(r: Request): Origin {
    Origin(if r.scheme == "" then (if r.port == 443 then "https" else "http") else r.scheme, r.host, r.port)
  }

  function PoolKey(o: Origin): string { o.scheme + "://" + o.host + ":" + Decimal(o.port) }

  function CleanupIdle(pool: map<string, PoolEntry>, now: int, idleTimeout: int): map<string, PoolEntry> {
    map k | k in pool && now - pool[k].lastActive <= idleTimeout :: pool[k]
  }

  // ----- the network -----

  datatype Opening = Opened | CreateFailed(code: int) | ConnectFailed(code: int) | TlsFailed(code: int)

  /**
   The network during one exchange: the time, whether a pooled socket is still connected, how opening
   a new one goes, what each write takes and what each read brings.
   */
  datatype Net = Net(now: int, alive: bool, opening: Opening, later: int,
                     outcomes: seq<SendEvent>, arrivals: seq<ReadEvent>)

  type Server = (nat, Request) -> Net

  /** Why there is no response. */
  datatype Failure = NotOpened(code: int) | NotSent(status: SendStatus) | NotReceived(error: ReceiveError) | BadLocation

  function OpenError(o: Opening, isTls: bool): Option<Failure> {
    match o
    case Opened => None
    case CreateFailed(code) => Some(NotOpened(code))
    case ConnectFailed(code) => Some(NotOpened(code))
    case TlsFailed(code) => if isTls then Some(NotOpened(code)) else None
  }

  /** The request goes out as printed; what comes back is parsed. */
  ghost function SendAndReceive(r: Request, net: Net): Result<Response, Failure> {
    var status := Transmit(Serialize(r), net.outcomes).0;
    if status != Done then Err(NotSent(status))
    else
      match Receive(FRESH, net.arrivals).result
      case Err(e) => Err(NotReceived(e))
      case Ok(response) => Ok(response)
  }

  /** The connection for a request: pooled if it is still good, else new; `None` when opening fails. */
  function Acquire(pool: map<string, PoolEntry>, o: Origin, net: Net): (map<string, PoolEntry>, Option<PoolEntry>) {
    var key, isTls := PoolKey(o), o.scheme == "https";
    if key in pool && net.alive then (pool, Some(pool[key]))
    else if OpenError(net.opening, isTls).Some? then (pool - {key}, None)
    else
      var entry := PoolEntry(o, isTls, isTls, net.later);
      ((pool - {key})[key := entry], Some(entry))
  }

  function SetCookies(jar: seq<Cookies.Cookie>, fields: seq<Field>, host: string): seq<Cookies.Cookie>
    decreases |fields|
  {
    if fields == [] then jar
    else if IsNamed(fields[0], "Set-Cookie") then
      SetCookies(Cookies.Upsert(jar, Cookies.ParseSetCookie(fields[0].value, host)), fields[1..], host)
    else SetCookies(jar, fields[1..], host)
  }

  // ----- redirects -----

  predicate IsRedirect(status: nat) { 300 <= status < 400 }

  predicate KeepsMethod(status: nat) { status == 307 || status == 308 }

  /** Headers that a redirected request does not take over. */
  predicate Skipped(f: Field, crossOrigin: bool) {
    || IsNamed(f, "Host") || IsNamed(f, "Content-Length") || IsNamed(f, "Cookie")
    || (crossOrigin && (IsNamed(f, "Authorization") || IsNamed(f, "Proxy-Authorization")))
  }

  function CopyFields(fields: seq<Field>, crossOrigin: bool): seq<Field> {
    if fields == [] then []
    else if Skipped(fields[0], crossOrigin) then CopyFields(fields[1..], crossOrigin)
    else [fields[0]] + CopyFields(fields[1..], crossOrigin)
  }

  function RedirectRequest(r: Request, status: nat, u: Url): Request {
    Request(if KeepsMethod(status) then r.method_ else Get, u.path, u.host, u.scheme, u.port,
            CopyFields(r.fields, u.host != r.host), "")
  }

  /** Where a redirect leads; `None` for a location in no known form. */
  function TargetUrl(r: Request, location: string): Option<string> {
    if "http://" <= location || "https://" <= location then Some(location)
    else if "/" <= location then Some(BuildUrl(OriginOf(r).scheme, r.host, r.port, location))
    else None
  }

  datatype Verdict = Answer(response: Response) | Error(failure: Failure) | Follow(request: Request)

  /** What the redirect callback is told: where from, where to, and the status. */
  datatype Notice = Notice(from: string, to: string, status: nat)

  /** A request as it went out, the connection it used, the reply it got, and what the callback was told. */
  datatype Attempt = Attempt(
    request: Request, entry: Option<PoolEntry>, reply: Option<Response>, notice: Option<Notice>)

  predicate EntersRedirect(cfg: Config, response: Response, remaining: nat) {
    IsRedirect(response.status) && cfg.followRedirects && remaining > 0
  }

  function Redirect(r: Request, response: Response): Verdict {
    match Lookup(response.fields, "Location")
    case None => Answer(response)
    case Some(location) =>
      match TargetUrl(r, location)
      case None => Answer(response)
      case Some(target) =>
        match ParseUrl(target)
        case None => Error(BadLocation)
        case Some(u) => Follow(RedirectRequest(r, response.status, u))
  }

  /** The callback hears of every target in a known form, even one that then cannot be parsed. */
  function Announcement(r: Request, response: Response): Option<Notice> {
    match Lookup(response.fields, "Location")
    case None => None
    case Some(location) =>
      match TargetUrl(r, location)
      case None => None
      case Some(target) => Some(Notice(BuildUrl(OriginOf(r).scheme, r.host, r.port, r.uri), target, response.status))
  }

  /** What one exchange leaves behind, decides and records. */
  datatype Outcome = Outcome(client: Client, verdict: Verdict, attempt: Attempt)

  /** One exchange for a request that has its defaults. */
  ghost function Exchange(c: Client, cfg: Config, r: Request, remaining: nat, net: Net): Outcome {
    var o := OriginOf(r);
    var (pool, entry) := Acquire(CleanupIdle(c.pool, net.now, cfg.idleTimeout), o, net);
    if entry.None? then Outcome(c.(pool := pool), Error(OpenFailure(net, o)), Attempt(r, None, None, None))
    else
      match SendAndReceive(r, net)
      case Err(failure) => Outcome(c.(pool := pool - {PoolKey(o)}), Error(failure), Attempt(r, entry, None, None))
      case Ok(response) => Outcome(
        Client(PoolAfter(cfg, pool, PoolKey(o), entry.value.(lastActive := net.later), response, remaining),
               SetCookies(c.jar, response.fields, r.host)),
        if EntersRedirect(cfg, response, remaining) then Redirect(r, response) else Answer(response),
        Attempt(r, entry, Some(response),
                if EntersRedirect(cfg, response, remaining) then Announcement(r, response) else None))
  }

  /** The connection stays, unless the peer closes it and the answer is not in the redirect code. */
  ghost function PoolAfter(cfg: Config, pool: map<string, PoolEntry>, key: string, entry: PoolEntry,
                           response: Response, remaining: nat): map<string, PoolEntry> {
    if EntersRedirect(cfg, response, remaining) || KeepsAlive(response.fields) then pool[key := entry] else pool - {key}
  }

  function OpenFailure(net: Net, o: Origin): Failure {
    match OpenError(net.opening, o.scheme == "https")
    case None => NotOpened(0)
    case Some(failure) => failure
  }

  /** The client after a chain, its result, and all attempts. */
  datatype Run = Run(client: Client, result: Result<Response, Failure>, attempts: seq<Attempt>)

  /** How the k-th request of a chain goes, with so many redirects left. */
  type Stepper = (Client, Request, nat, nat) -> Outcome

  /** Goes on as long as the steps say so. */
  ghost function Chain(step: Stepper, c: Client, req: Request, remaining: nat, k: nat): Run
    decreases remaining
  {
    var x := step(c, req, remaining, k);
    match x.verdict
    case Answer(response) => Run(x.client, Ok(response), [x.attempt])
    case Error(failure) => Run(x.client, Err(failure), [x.attempt])
    case Follow(request) =>
      if remaining == 0 then Run(x.client, Err(BadLocation), [x.attempt])
      else
        var rest := Chain(step, x.client, request, remaining - 1, k + 1);
        rest.(attempts := [x.attempt] + rest.attempts)
  }

  /** Each request gets its defaults and is exchanged with the server. */
  ghost function Steps(cfg: Config, net: Server): Stepper {
    (c: Client, req: Request, remaining: nat, k: nat) =>
      var r := ApplyDefaults(cfg, c.jar, req); Exchange(c, cfg, r, remaining, net(k, r))
  }

  /** `execute`. */
  ghost function Execute(c: Client, cfg: Config, req: Request, net: Server): Run {
    Chain(Steps(cfg, net), c, req, cfg.maxRedirects, 0)
  }

  /** Calls of one client, one after the other, each with its own server behaviour. */
  ghost function AfterCalls(cfg: Config, calls: seq<(Request, Server)>): Client {
    if calls == [] then Client(map[], [])
    else
      var (req, net) := calls[|calls| - 1];
      Execute(AfterCalls(cfg, calls[..|calls| - 1]), cfg, req, net).client
  }
}
