/** URLs: `parse_url`, and the URL that a relative redirect builds for itself. */
module Urls {
  import opened Wrappers
  import opened Text

  datatype Url = Url(scheme: string, host: string, port: nat, path: string)

  const PORT_LIMIT: nat := 0x1_0000

  /** A non-empty, non-zero port; characters after the leading digits are not looked at. */
  function ParsePort(s: string): Option<nat> {
    match FromChars(s, 10, PORT_LIMIT)
    case None => None
    case Some(p) => if p == 0 then None else Some(p)
  }

  function ParseUrl(url: string): Option<Url> {
    if "https://" <= url then ParseRest("https", 443, url[8..])
    else if "http://" <= url then ParseRest("http", 80, url[7..])
    else None
  }

  function ParseRest(scheme: string, port: nat, rest: string): Option<Url> {
    var slash := Find(rest, '/');
    var hostPort := rest[..slash];
    var path := if slash == |rest| then "/" else rest[slash..];
    if hostPort == "" then None
    else if hostPort[0] == '[' then ParseBracketed(scheme, port, hostPort, path)
    else ParsePlain(scheme, port, hostPort, path)
  }

  /** `[address]` or `[address]:port`; the brackets are not part of the host. */
  function ParseBracketed(scheme: string, port: nat, hostPort: string, path: string): Option<Url>
    requires hostPort != "" && hostPort[0] == '['
  {
    var close := Find(hostPort, ']');
    if close == |hostPort| || close == 1 then None
    else if close + 1 == |hostPort| then Some(Url(scheme, hostPort[1..close], port, path))
    else if hostPort[close + 1] != ':' then None
    else
      match ParsePort(hostPort[close + 2..])
      case None => None
      case Some(p) => Some(Url(scheme, hostPort[1..close], p, path))
  }

  function ParsePlain(scheme: string, port: nat, hostPort: string, path: string): Option<Url> {
    var colon := Find(hostPort, ':');
    if colon == 0 then None
    else if colon == |hostPort| then Some(Url(scheme, hostPort, port, path))
    else
      match ParsePort(hostPort[colon + 1..])
      case None => None
      case Some(p) => Some(Url(scheme, hostPort[..colon], p, path))
  }

  /** The parser, step by step on its result. */
  method ParseUrlInto(url: string) returns (r: Option<Url>)
    ensures r == ParseUrl(url)
  {
    var scheme, port, rest := "", 80, url;
    if |url| >= 8 && url[..8] == "https://" {
      scheme, port, rest := "https", 443, url[8..];
    } else if |url| >= 7 && url[..7] == "http://" {
      scheme, port, rest := "http", 80, url[7..];
    } else {
      return None;
    }
    var slash := Find(rest, '/');
    var hostPort, path := rest[..slash], "/";
    if slash < |rest| { path := rest[slash..]; }
    if hostPort == "" { return None; }
    r := ParseHostPort(scheme, port, hostPort, path);
  }

  /** The host and an optional port; `defaultPort` stays unless one is given. */
  method ParseHostPort(scheme: string, defaultPort: nat, hostPort: string, path: string) returns (r: Option<Url>)
    requires hostPort != ""
    ensures r == if hostPort[0] == '[' then ParseBracketed(scheme, defaultPort, hostPort, path)
                 else ParsePlain(scheme, defaultPort, hostPort, path)
  {
    var host, portText, port := "", "", defaultPort;
    if hostPort[0] == '[' {
      var close := Find(hostPort, ']');
      if close == |hostPort| { return None; }
      host := hostPort[1..close];
      if close + 1 < |hostPort| {
        if hostPort[close + 1] != ':' { return None; }
        portText := hostPort[close + 2..];
        if portText == "" { return None; }
      }
    } else {
      var colon := Find(hostPort, ':');
      host := hostPort[..colon];
      assert hostPort[..|hostPort|] == hostPort;
      if colon < |hostPort| {
        portText := hostPort[colon + 1..];
        if portText == "" { return None; }
      }
    }
    if portText != "" {
      var value := ParsePort(portText);
      if value.None? { return None; }
      port := value.value;
    }
    if host == "" { return None; }
    return Some(Url(scheme, host, port, path));
  }

  // ----- rebuilding -----

  function DefaultPort(scheme: string): nat { if scheme == "https" then 443 else 80 }

  function PortText(port: nat): string { if port != 80 && port != 443 then ":" + Decimal(port) else "" }

  /** The target of a redirect to `path` on the same host, port and scheme. */
  function BuildUrl(scheme: string, host: string, port: nat, path: string): string {
    scheme + "://" + host + PortText(port) + path
  }

  predicate PlainHost(host: string) { host != "" && '/' !in host && ':' !in host && host[0] != '[' }

  /** The port is a number, and not the one that the other scheme leaves unwritten. */
  predicate PortSurvives(scheme: string, port: nat) {
    port != 0 && (port == 80 || port == 443 ==> port == DefaultPort(scheme))
  }

  lemma DecimalIsPlain(n: nat)
    ensures forall c :: c in Decimal(n) ==> c != '/' && c != ':' && c != ']'
  {
  }

  lemma PortTextIsPlain(port: nat)
    ensures '/' !in PortText(port) && ']' !in PortText(port)
  {
    DecimalIsPlain(port);
  }

  lemma ParsePortReads(port: nat)
    requires port < PORT_LIMIT
    ensures ParsePort(Decimal(port)) == if port == 0 then None else Some(port)
  {
    FromCharsReads(Decimal(port), "", 10, PORT_LIMIT);
    assert Decimal(port) + "" == Decimal(port);
  }

  /** Parsing never lengthens the host, and drops something whenever it cuts. */
  lemma ParsedHost(scheme: string, port: nat, rest: string)
    ensures var r := ParseRest(scheme, port, rest);
      r.Some? ==>
        var hostPort := rest[..Find(rest, '/')];
        && r.value.host != "" && |r.value.host| <= |hostPort|
        && (hostPort[0] == '[' ==> |r.value.host| + 2 <= Find(hostPort, ']') + 1 <= |hostPort|)
        && (hostPort[0] != '[' ==> r.value.host == hostPort[..Find(hostPort, ':')])
  {
  }

  lemma ParsedRestIsUsable(scheme: string, port: nat, rest: string)
    requires port != 0
    ensures var r := ParseRest(scheme, port, rest);
      r.Some? ==> r.value.host != "" && r.value.port != 0 && r.value.scheme == scheme
  {
  }

  /** What the parser accepts has a host, a port and one of the two schemes. */
  lemma ParsedUrlIsUsable(url: string)
    ensures var r := ParseUrl(url);
      r.Some? ==> r.value.host != "" && r.value.port != 0 && (r.value.scheme == "http" || r.value.scheme == "https")
  {
    if "https://" <= url {
      ParsedRestIsUsable("https", 443, url[8..]);
    } else if "http://" <= url {
      ParsedRestIsUsable("http", 80, url[7..]);
    }
  }

  lemma HostPortOf(host: string, port: nat, path: string)
    requires path != "" && path[0] == '/'
    ensures var rest := host + PortText(port) + path;
      && ('/' !in host ==> Find(rest, '/') == |host + PortText(port)|)
      && ('/' in host ==> Find(rest, '/') < |host|)
  {
    var rest := host + PortText(port) + path;
    PortTextIsPlain(port);
    if '/' in host {
      var i :| 0 <= i < |host| && host[i] == '/';
      assert rest[i] == '/';
    } else {
      assert rest == (host + PortText(port)) + ['/'] + path[1..];
      FindSplits(host + PortText(port), '/', path[1..]);
    }
  }

  /** Hosts that are not plain never come back. */
  lemma OddHostIsLost(scheme: string, host: string, port: nat, path: string)
    requires path != "" && path[0] == '/' && !PlainHost(host)
    ensures var r := ParseRest(scheme, DefaultPort(scheme), host + PortText(port) + path);
      r.Some? ==> r.value.host != host
  {
    var rest := host + PortText(port) + path;
    HostPortOf(host, port, path);
    ParsedHost(scheme, DefaultPort(scheme), rest);
    var hostPort := rest[..Find(rest, '/')];
    PortTextIsPlain(port);
    if host != "" && '/' !in host {
      assert hostPort == host + PortText(port);
      if host[0] == '[' {
        var close := Find(hostPort, ']');
        assert close < |hostPort| ==> hostPort[close] == ']';
        assert close >= |host| ==> close == |hostPort|;
      } else {
        var i :| 0 <= i < |host| && host[i] == ':';
        assert hostPort[i] == ':';
        assert Find(hostPort, ':') <= i;
      }
    }
  }

  lemma PlainHostReads(scheme: string, host: string, port: nat, path: string)
    requires path != "" && path[0] == '/' && PlainHost(host) && port < PORT_LIMIT
    ensures ParseRest(scheme, DefaultPort(scheme), host + PortText(port) + path)
      == if port == 80 || port == 443 then Some(Url(scheme, host, DefaultPort(scheme), path))
         else if port == 0 then None
         else Some(Url(scheme, host, port, path))
  {
    var rest, hostPort := host + PortText(port) + path, host + PortText(port);
    HostPortOf(host, port, path);
    assert rest[..|hostPort|] == hostPort && rest[|hostPort|..] == path;
    if port == 80 || port == 443 {
      assert hostPort == host;
      FindNothing(host, ':');
    } else {
      assert hostPort == host + [':'] + Decimal(port);
      FindSplits(host, ':', Decimal(port));
      assert hostPort[..|host|] == host && hostPort[|host| + 1..] == Decimal(port);
      ParsePortReads(port);
    }
  }

  lemma SchemeSplits(scheme: string, rest: string)
    requires scheme == "http" || scheme == "https"
    ensures ParseUrl(scheme + "://" + rest) == ParseRest(scheme, DefaultPort(scheme), rest)
  {
    var url := scheme + "://" + rest;
    if scheme == "https" {
      assert url == "https://" + rest && url[8..] == rest;
    } else {
      assert url == "http://" + rest && url[7..] == rest && url[4] == ':';
      assert "https://"[4] == 's';
    }
  }

  /**
   Rebuilding a URL for a relative redirect and parsing it again gives back the same scheme, host,
   port and path if and only if the host is plain and the port survives.
   */
  lemma RebuildIff(scheme: string, host: string, port: nat, path: string)
    requires scheme == "http" || scheme == "https"
    requires port < PORT_LIMIT && path != "" && path[0] == '/'
    ensures ParseUrl(BuildUrl(scheme, host, port, path)) == Some(Url(scheme, host, port, path))
      <==> PlainHost(host) && PortSurvives(scheme, port)
  {
    var rest := host + PortText(port) + path;
    assert BuildUrl(scheme, host, port, path) == scheme + "://" + rest;
    SchemeSplits(scheme, rest);
    if PlainHost(host) {
      PlainHostReads(scheme, host, port, path);
    } else {
      OddHostIsLost(scheme, host, port, path);
    }
  }

  lemma BracketedHostReads()
    ensures ParseRest("http", 80, "[::1]/") == Some(Url("http", "::1", 80, "/"))
  {
    var rest := "[::1]/";
    assert rest == "[::1]" + ['/'] + "";
    FindSplits("[::1]", '/', "");
    assert rest[..5] == "[::1]" == "[::1" + [']'] + "" && rest[5..] == "/";
    FindSplits("[::1", ']', "");
    assert "[::1]"[1..4] == "::1";
  }

  lemma BareHostIsRefused()
    ensures ParseRest("http", 80, "::1/") == None
  {
    assert "::1/" == "::1" + ['/'] + "";
    FindSplits("::1", '/', "");
    assert "::1/"[..3] == "::1" && Find("::1", ':') == 0;
  }

  /** A host given in brackets loses them on parsing, so a redirect on it goes astray. */
  lemma BracketedHostExample()
    ensures ParseUrl("http://[::1]/") == Some(Url("http", "::1", 80, "/"))
    ensures ParseUrl(BuildUrl("http", "::1", 80, "/")) == None
  {
    assert "http://[::1]/" == "http" + "://" + "[::1]/";
    SchemeSplits("http", "[::1]/");
    BracketedHostReads();
    assert BuildUrl("http", "::1", 80, "/") == "http" + "://" + "::1/";
    SchemeSplits("http", "::1/");
    BareHostIsRefused();
  }

  /** Port 443 over plain http is dropped, and the redirect goes to port 80. */
  lemma CrossedPortExample()
    ensures ParseUrl(BuildUrl("http", "h", 443, "/")) == Some(Url("http", "h", 80, "/"))
  {
    assert BuildUrl("http", "h", 443, "/") == "http" + "://" + ("h" + PortText(443) + "/");
    SchemeSplits("http", "h" + PortText(443) + "/");
    PlainHostReads("http", "h", 443, "/");
  }
}
