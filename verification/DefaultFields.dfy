/** The fields of every request that goes out, spelled out: those it brings, and those it is given. */
module DefaultFields {
  import opened Wrappers
  import opened Text
  import opened Headers
  import opened HeaderStore
  import opened Requests
  import opened Urls
  import opened ClientSpec
  import opened ClientProofs
  import Cookies

  /** The defaults whose names the fields do not have. */
  function Missing(fields: seq<Field>, defaults: seq<Field>): seq<Field>
    decreases |defaults|
  {
    if defaults == [] then []
    else (if Named(fields, defaults[0].name) == [] then [defaults[0]] else []) + Missing(fields, defaults[1..])
  }

  predicate Apart(fields: seq<Field>) {
    forall i, j :: 0 <= i < j < |fields| ==> !EqualsIgnoreCase(fields[i].name, fields[j].name)
  }

  lemma {:induction false} NoneNamed(fields: seq<Field>, name: string)
    requires Named(fields, name) == []
    ensures forall k :: 0 <= k < |fields| ==> !IsNamed(fields[k], name)
  {
    if fields != [] {
      NoneNamed(fields[1..], name);
      assert forall k :: 1 <= k < |fields| ==> fields[k] == fields[1..][k - 1];
    }
  }

  lemma PutIfAbsentIs(fields: seq<Field>, d: Field)
    ensures PutIfAbsent(fields, d.name, d.value) == fields + if Named(fields, d.name) == [] then [d] else []
  {
    if Named(fields, d.name) == [] {
      NoneNamed(fields, d.name);
      SetFieldNew(fields, d.name, d.value);
    }
  }

  lemma {:induction false} MissingKeeps(fields: seq<Field>, d: Field, defaults: seq<Field>)
    requires forall i :: 0 <= i < |defaults| ==> !EqualsIgnoreCase(d.name, defaults[i].name)
    ensures Missing(fields + [d], defaults) == Missing(fields, defaults)
    decreases |defaults|
  {
    if defaults != [] {
      NamedConcat(fields, [d], defaults[0].name);
      assert Named([d], defaults[0].name) == [];
      assert Named(fields, defaults[0].name) + [] == Named(fields, defaults[0].name);
      MissingKeeps(fields, d, defaults[1..]);
    }
  }

  lemma FieldsJoin3(a: seq<Field>, b: seq<Field>, c: seq<Field>)
    ensures (a + b) + c == a + (b + c) && a + [] == a && [] + c == c
  {
  }

  /** Filling in adds the missing ones at the end, in order, and touches nothing else. */
  lemma {:induction false} FillInIs(fields: seq<Field>, defaults: seq<Field>)
    requires Apart(defaults)
    ensures FillIn(fields, defaults) == fields + Missing(fields, defaults)
    decreases |defaults|
  {
    if defaults == [] {
      FieldsJoin3(fields, [], []);
    } else {
      var d, rest := defaults[0], defaults[1..];
      var first := if Named(fields, d.name) == [] then [d] else [];
      PutIfAbsentIs(fields, d);
      assert forall i :: 0 <= i < |rest| ==> rest[i] == defaults[i + 1];
      FillInIs(fields + first, rest);
      if first == [d] { MissingKeeps(fields, d, rest); } else { FieldsJoin3(fields, [], []); }
      FieldsJoin3(fields, first, Missing(fields, rest));
    }
  }

  /** The field, unless the request brings one of that name. */
  function Unless(fields: seq<Field>, name: string, value: string): seq<Field> {
    if Named(fields, name) == [] then [Field(name, value)] else []
  }

  /** What a request is given: its host, whether the connection is to go on, its length, and who asks for what. */
  function Given(cfg: Config, r: Request): seq<Field> {
    Unless(r.fields, "Host", HostText(r.host, r.port))
    + (Unless(r.fields, "Connection", if cfg.keepAlive then "keep-alive" else "close")
       + ((if r.body == "" then [] else Unless(r.fields, "Content-Length", Decimal(|r.body|)))
          + (Unless(r.fields, "User-Agent", "vynx_http/0.1") + Unless(r.fields, "Accept", "*/*"))))
  }

  lemma DefaultsApart(cfg: Config, r: Request)
    ensures Apart(Defaults(cfg, r))
  {
    var d := Defaults(cfg, r);
    var length := if r.body != "" then 1 else 0;
    assert |d| == 4 + length && d[0].name == "Host" && d[1].name == "Connection";
    assert length == 1 ==> d[2].name == "Content-Length";
    assert d[2 + length].name == "User-Agent" && d[3 + length].name == "Accept";
    NameLengths();
  }

  lemma NameLengths()
    ensures |"Host"| == 4 && |"Accept"| == 6 && |"Connection"| == |"User-Agent"| == 10 && |"Content-Length"| == 14
    ensures !EqualsIgnoreCase("Connection", "User-Agent")
  {
    assert Lower("Connection"[0]) != Lower("User-Agent"[0]);
  }

  lemma MissingCons(fields: seq<Field>, d: Field, rest: seq<Field>)
    ensures Missing(fields, [d] + rest) == Unless(fields, d.name, d.value) + Missing(fields, rest)
  {
    assert ([d] + rest)[1..] == rest;
  }

  lemma MissingTwo(fields: seq<Field>, a: Field, b: Field, rest: seq<Field>)
    ensures Missing(fields, [a] + ([b] + rest))
      == Unless(fields, a.name, a.value) + (Unless(fields, b.name, b.value) + Missing(fields, rest))
  {
    MissingCons(fields, a, [b] + rest);
    MissingCons(fields, b, rest);
  }

  lemma MissingLength(fields: seq<Field>, body: string, tail: seq<Field>)
    ensures Missing(fields, (if body != "" then [Field("Content-Length", Decimal(|body|))] else []) + tail)
      == (if body == "" then [] else Unless(fields, "Content-Length", Decimal(|body|))) + Missing(fields, tail)
  {
    if body != "" {
      MissingCons(fields, Field("Content-Length", Decimal(|body|)), tail);
    } else {
      FieldsJoin3([], [], tail);
      FieldsJoin3([], [], Missing(fields, tail));
    }
  }

  lemma DefaultsSplit(cfg: Config, r: Request)
    ensures Defaults(cfg, r)
      == [Field("Host", HostText(r.host, r.port))]
         + ([Field("Connection", if cfg.keepAlive then "keep-alive" else "close")]
            + ((if r.body != "" then [Field("Content-Length", Decimal(|r.body|))] else [])
               + ([Field("User-Agent", "vynx_http/0.1")] + ([Field("Accept", "*/*")] + []))))
  {
    HostIsText(r.host, r.port);
  }

  lemma MissingIsGiven(cfg: Config, r: Request)
    ensures Missing(r.fields, Defaults(cfg, r)) == Given(cfg, r)
  {
    var host := Field("Host", HostText(r.host, r.port));
    var connection := Field("Connection", if cfg.keepAlive then "keep-alive" else "close");
    var agent, accept := Field("User-Agent", "vynx_http/0.1"), Field("Accept", "*/*");
    var length := if r.body != "" then [Field("Content-Length", Decimal(|r.body|))] else [];
    DefaultsSplit(cfg, r);
    MissingTwo(r.fields, host, connection, length + ([agent] + ([accept] + [])));
    MissingLength(r.fields, r.body, [agent] + ([accept] + []));
    MissingTail(r.fields, agent, accept);
  }

  lemma HostIsText(host: string, port: nat)
    ensures HostValue(host, port) == HostText(host, port)
  {
    assert host + "" == host;
  }

  lemma MissingTail(fields: seq<Field>, agent: Field, accept: Field)
    ensures Missing(fields, [agent] + ([accept] + []))
      == Unless(fields, agent.name, agent.value) + Unless(fields, accept.name, accept.value)
  {
    MissingCons(fields, agent, [accept] + []);
    MissingCons(fields, accept, []);
    FieldsJoin3(Unless(fields, accept.name, accept.value), [], []);
  }

  /**
   Every request goes out as it was made, with host and port from the configuration where it has none,
   and with these fields after its own; cookies, if there are any, are set last.
   */
  lemma RequestAsSent(cfg: Config, jar: seq<Cookies.Cookie>, req: Request)
    ensures var r := ApplyDefaults(cfg, jar, req);
      var s := req.(host := if req.host == "" then cfg.defaultHost else req.host,
                    port := if req.port == 0 then cfg.defaultPort else req.port);
      var cookies := Cookies.CookieHeader(jar, s.host, s.uri);
      var fields := req.fields + Given(cfg, s);
      r == s.(fields := if cookies == "" then fields else SetField(fields, "Cookie", cookies))
  {
    var s := Addressed(cfg, req);
    MissingIsGiven(cfg, s);
    DefaultsApart(cfg, s);
    FillInIs(s.fields, Defaults(cfg, s));
  }

  // ----- what a redirect takes over -----

  /** The names that a redirected request does not take over; the last two only to another host. */
  predicate LeftBehind(name: string, otherHost: bool) {
    || EqualsIgnoreCase(name, "Host") || EqualsIgnoreCase(name, "Content-Length") || EqualsIgnoreCase(name, "Cookie")
    || (otherHost && (EqualsIgnoreCase(name, "Authorization") || EqualsIgnoreCase(name, "Proxy-Authorization")))
  }

  lemma CopiedNames(fields: seq<Field>, otherHost: bool, name: string)
    ensures Named(CopyFields(fields, otherHost), name)
      == if LeftBehind(name, otherHost) then [] else Named(fields, name)
  {
    CopyEffect(fields, otherHost, name);
  }

  lemma {:induction false} MissingNamed(fields: seq<Field>, defaults: seq<Field>, name: string)
    requires Named(fields, name) != [] || forall i :: 0 <= i < |defaults| ==> !EqualsIgnoreCase(defaults[i].name, name)
    ensures Named(Missing(fields, defaults), name) == []
    decreases |defaults|
  {
    if defaults != [] {
      var d := defaults[0];
      var first := if Named(fields, d.name) == [] then [d] else [];
      MissingNamed(fields, defaults[1..], name);
      NamedConcat(first, Missing(fields, defaults[1..]), name);
      if EqualsIgnoreCase(d.name, name) { SameNamed(fields, d.name, name); }
    }
  }

  /** Names that are equal up to case name the same fields. */
  lemma {:induction false} SameNamed(fields: seq<Field>, name: string, other: string)
    requires EqualsIgnoreCase(name, other)
    ensures Named(fields, name) == Named(fields, other)
  {
    if fields != [] { SameNamed(fields[1..], name, other); }
  }

  /** A default name: one that a request is given if it has none. */
  predicate IsDefault(name: string) {
    || EqualsIgnoreCase("Host", name) || EqualsIgnoreCase("Connection", name)
    || EqualsIgnoreCase("Content-Length", name)
    || EqualsIgnoreCase("User-Agent", name) || EqualsIgnoreCase("Accept", name)
  }

  /**
   All other fields follow a redirect as they are: those of any name that is not left behind, unless it
   is one of the defaults and the request had none.
   */
  lemma FieldsFollow(cfg: Config, jar: seq<Cookies.Cookie>, a: Attempt, b: Request, name: string)
    requires Follows(cfg, jar, a, b)
    requires !LeftBehind(name, b.host != a.request.host) && (IsDefault(name) ==> Named(a.request.fields, name) != [])
    ensures Named(b.fields, name) == Named(a.request.fields, name)
  {
    var next := NextRequest(a);
    ParsedUrlIsUsable(a.notice.value.to);
    CopiedNames(a.request.fields, next.host != a.request.host, name);
    KeptByDefaults(cfg, jar, next, name);
  }

  lemma KeptByDefaults(cfg: Config, jar: seq<Cookies.Cookie>, req: Request, name: string)
    requires !EqualsIgnoreCase(name, "Cookie") && (IsDefault(name) ==> Named(req.fields, name) != [])
    ensures Named(ApplyDefaults(cfg, jar, req).fields, name) == Named(req.fields, name)
  {
    var s := Addressed(cfg, req);
    var defaults := Defaults(cfg, s);
    DefaultsApart(cfg, s);
    FillInIs(s.fields, defaults);
    if !IsDefault(name) {
      forall i | 0 <= i < |defaults| ensures !EqualsIgnoreCase(defaults[i].name, name) {
        DefaultsAreDefault(cfg, s, i);
      }
    }
    MissingNamed(s.fields, defaults, name);
    NamedConcat(s.fields, Missing(s.fields, defaults), name);
    AddCookiesKeepsOthers(FillIn(s.fields, defaults), Cookies.CookieHeader(jar, s.host, s.uri), name);
  }

  lemma DefaultsAreDefault(cfg: Config, r: Request, i: nat)
    requires i < |Defaults(cfg, r)|
    ensures Defaults(cfg, r)[i].name in {"Host", "Connection", "Content-Length", "User-Agent", "Accept"}
  {
  }
}
