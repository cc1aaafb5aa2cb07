/** What a URL of each form stands for; every string has one of the forms. */
module UrlForms {
  import opened Wrappers
  import opened Text
  import opened Urls

  predicate IsWeb(scheme: string) { scheme == "http" || scheme == "https" }

  function UsualPort(scheme: string): nat { if scheme == "https" then 443 else 80 }

  /** What follows the authority: nothing, or a path. */
  predicate IsTail(tail: string) { tail != "" ==> tail[0] == '/' }

  function PathOf(tail: string): string { if tail == "" then "/" else tail }

  /** The digits of a port, whatever follows them: there must be some, and a number between 1 and 65535. */
  lemma PortReads(digits: string, rest: string)
    requires (forall i :: 0 <= i < |digits| ==> '0' <= digits[i] <= '9') && (rest != "" ==> !('0' <= rest[0] <= '9'))
    ensures ParsePort(digits + rest)
      == if digits == "" || ValueOf(digits, 10) == 0 || ValueOf(digits, 10) > 65535 then None
         else Some(ValueOf(digits, 10))
  {
    forall i | 0 <= i < |digits| ensures DigitValue(digits[i]) < 10 { DigitsAre(digits[i]); }
    if rest != "" { DigitsAre(rest[0]); }
    FromCharsIs(digits, rest, 10, PORT_LIMIT);
  }

  lemma SlashEnds(authority: string, tail: string)
    requires '/' !in authority && IsTail(tail)
    ensures var rest := authority + tail;
      && Find(rest, '/') == |authority| && rest[..|authority|] == authority
      && (if |authority| == |rest| then "/" else rest[|authority|..]) == PathOf(tail)
  {
    var rest := authority + tail;
    if tail == "" {
      assert rest == authority;
      FindNothing(authority, '/');
    } else {
      assert rest == authority + ['/'] + tail[1..];
      FindSplits(authority, '/', tail[1..]);
    }
  }

  lemma AuthorityEnds(scheme: string, authority: string, tail: string)
    requires IsWeb(scheme) && '/' !in authority && IsTail(tail)
    ensures ParseUrl(scheme + "://" + (authority + tail))
      == if authority == "" then None
         else if authority[0] == '[' then ParseBracketed(scheme, UsualPort(scheme), authority, PathOf(tail))
         else ParsePlain(scheme, UsualPort(scheme), authority, PathOf(tail))
  {
    SchemeSplits(scheme, authority + tail);
    SlashEnds(authority, tail);
  }

  /** A host, a port if there is one, and a path if there is one. */
  lemma PlainUrlReads(scheme: string, host: string, port: string, tail: string)
    requires IsWeb(scheme) && '/' !in host + port && IsTail(tail) && ':' !in host
    requires (port != "" ==> port[0] == ':') && (host != "" ==> host[0] != '[')
    ensures ParseUrl(scheme + "://" + (host + port + tail))
      == if host == "" then None
         else if port == "" then Some(Url(scheme, host, UsualPort(scheme), PathOf(tail)))
         else if ParsePort(port[1..]) == None then None
         else Some(Url(scheme, host, ParsePort(port[1..]).value, PathOf(tail)))
  {
    var authority := host + port;
    AuthorityEnds(scheme, authority, tail);
    assert host + port + tail == authority + tail;
    if authority != "" { PlainAuthority(scheme, host, port, PathOf(tail)); }
  }

  lemma PlainAuthority(scheme: string, host: string, port: string, path: string)
    requires ':' !in host && (port != "" ==> port[0] == ':') && host + port != "" && (host != "" ==> host[0] != '[')
    ensures (host + port)[0] != '['
    ensures ParsePlain(scheme, UsualPort(scheme), host + port, path)
      == if host == "" then None
         else if port == "" then Some(Url(scheme, host, UsualPort(scheme), path))
         else if ParsePort(port[1..]) == None then None
         else Some(Url(scheme, host, ParsePort(port[1..]).value, path))
  {
    var authority := host + port;
    if port == "" {
      assert authority == host;
      FindNothing(host, ':');
    } else {
      assert authority == host + [':'] + port[1..];
      FindSplits(host, ':', port[1..]);
      assert authority[..|host|] == host && authority[|host| + 1..] == port[1..];
    }
  }

  /** An address in brackets, and what follows them: nothing, or a port; anything else is refused. */
  lemma BracketedUrlReads(scheme: string, host: string, after: string, tail: string)
    requires IsWeb(scheme) && '/' !in host + after && IsTail(tail) && ']' !in host
    ensures ParseUrl(scheme + "://" + ("[" + host + "]" + after + tail))
      == if host == "" then None
         else if after == "" then Some(Url(scheme, host, UsualPort(scheme), PathOf(tail)))
         else if after[0] != ':' || ParsePort(after[1..]) == None then None
         else Some(Url(scheme, host, ParsePort(after[1..]).value, PathOf(tail)))
  {
    var authority := "[" + host + "]" + after;
    assert '/' !in authority;
    AuthorityEnds(scheme, authority, tail);
    assert "[" + host + "]" + after + tail == authority + tail;
    BracketedAuthority(scheme, host, after, PathOf(tail));
  }

  lemma BracketedAuthority(scheme: string, host: string, after: string, path: string)
    requires ']' !in host
    ensures ("[" + host + "]" + after)[0] == '['
    ensures ParseBracketed(scheme, UsualPort(scheme), "[" + host + "]" + after, path)
      == if host == "" then None
         else if after == "" then Some(Url(scheme, host, UsualPort(scheme), path))
         else if after[0] != ':' || ParsePort(after[1..]) == None then None
         else Some(Url(scheme, host, ParsePort(after[1..]).value, path))
  {
    var authority, close := "[" + host + "]" + after, 1 + |host|;
    assert authority == ("[" + host) + [']'] + after;
    FindSplits("[" + host, ']', after);
    assert authority[1..close] == host;
    if after != "" { assert authority[close + 1] == after[0] && authority[close + 2..] == after[1..]; }
  }

  /** A bracket that is not closed before the path. */
  lemma OpenBracketIsRefused(scheme: string, rest: string, tail: string)
    requires IsWeb(scheme) && '/' !in rest && ']' !in rest && IsTail(tail)
    ensures ParseUrl(scheme + "://" + ("[" + rest + tail)) == None
  {
    var authority := "[" + rest;
    assert '/' !in authority && ']' !in authority;
    AuthorityEnds(scheme, authority, tail);
    assert "[" + rest + tail == authority + tail;
    FindNothing(authority, ']');
  }

  /** Anything but http:// and https:// is refused. */
  lemma OtherSchemesAreRefused(url: string)
    requires !("http://" <= url) && !("https://" <= url)
    ensures ParseUrl(url) == None
  {
  }
}
