/** The cookie jar. */
module Cookies {
  import opened Wrappers
  import opened Text

  datatype Cookie = Cookie(
    name: string, value: string, domain: string, path: string, secure: bool, hasExpiry: bool, expires: int)

  datatype Key = Key(name: string, domain: string, path: string)

  function KeyOf(c: Cookie): Key { Key(c.name, c.domain, c.path) }

  // ----- storing -----

  /** Replaces the first cookie with the same key, or appends. */
  function Upsert(jar: seq<Cookie>, c: Cookie): seq<Cookie> {
    if jar == [] then [c]
    else if KeyOf(jar[0]) == KeyOf(c) then [c] + jar[1..]
    else [jar[0]] + Upsert(jar[1..], c)
  }

  /** The jar after a run of cookies set one after the other. */
  function JarAfter(set_: seq<Cookie>): seq<Cookie> {
    if set_ == [] then [] else Upsert(JarAfter(set_[..|set_| - 1]), set_[|set_| - 1])
  }

  /** The keys of a run, each where it first occurs. */
  function FirstKeys(set_: seq<Cookie>): seq<Key> {
    if set_ == [] then []
    else
      var before, k := FirstKeys(set_[..|set_| - 1]), KeyOf(set_[|set_| - 1]);
      if k in before then before else before + [k]
  }

  /** The last cookie of a run with this key. */
  function LastWith(set_: seq<Cookie>, k: Key): Option<Cookie> {
    if set_ == [] then None
    else if KeyOf(set_[|set_| - 1]) == k then Some(set_[|set_| - 1])
    else LastWith(set_[..|set_| - 1], k)
  }

  predicate Distinct(keys: seq<Key>) { forall i, j :: 0 <= i < j < |keys| ==> keys[i] != keys[j] }

  /** One step: the slot of the key is overwritten in place, or a new last slot appears. */
  lemma {:induction false} UpsertEffect(jar: seq<Cookie>, c: Cookie)
    ensures var r := Upsert(jar, c);
      if exists i :: 0 <= i < |jar| && KeyOf(jar[i]) == KeyOf(c)
      then exists i :: 0 <= i < |jar| && KeyOf(jar[i]) == KeyOf(c) && r == jar[i := c]
      else r == jar + [c]
  {
    if jar != [] && KeyOf(jar[0]) != KeyOf(c) {
      UpsertEffect(jar[1..], c);
      var r := Upsert(jar[1..], c);
      assert jar == [jar[0]] + jar[1..];
      if i :| 0 <= i < |jar[1..]| && KeyOf(jar[1..][i]) == KeyOf(c) && r == jar[1..][i := c] {
        assert KeyOf(jar[i + 1]) == KeyOf(c) && Upsert(jar, c) == jar[i + 1 := c];
      } else {
        assert forall i :: 1 <= i < |jar| ==> jar[i] == jar[1..][i - 1];
      }
    } else if jar != [] {
      assert Upsert(jar, c) == jar[0 := c];
    }
  }

  /** Slot by slot, the jar has these keys, and holds the last cookie of the run for each. */
  predicate Holds(jar: seq<Cookie>, keys: seq<Key>, set_: seq<Cookie>) {
    && |jar| == |keys|
    && forall i :: 0 <= i < |jar| ==> KeyOf(jar[i]) == keys[i] && Some(jar[i]) == LastWith(set_, keys[i])
  }

  lemma OverwriteHolds(jar: seq<Cookie>, keys: seq<Key>, before: seq<Cookie>, c: Cookie, i: nat)
    requires Holds(jar, keys, before) && Distinct(keys) && i < |jar| && keys[i] == KeyOf(c)
    ensures Holds(jar[i := c], keys, before + [c])
  {
    assert (before + [c])[..|before|] == before;
  }

  lemma AppendHolds(jar: seq<Cookie>, keys: seq<Key>, before: seq<Cookie>, c: Cookie)
    requires Holds(jar, keys, before) && KeyOf(c) !in keys
    ensures Holds(jar + [c], keys + [KeyOf(c)], before + [c])
  {
    assert (before + [c])[..|before|] == before;
  }

  /** Over any run: keys stay unique and in first-insertion order, and the last write wins. */
  lemma {:induction false} JarIsExact(set_: seq<Cookie>)
    ensures Distinct(FirstKeys(set_)) && Holds(JarAfter(set_), FirstKeys(set_), set_)
  {
    if set_ != [] {
      var before, c := set_[..|set_| - 1], set_[|set_| - 1];
      var jar, keys := JarAfter(before), FirstKeys(before);
      assert set_ == before + [c];
      JarIsExact(before);
      UpsertEffect(jar, c);
      if i :| 0 <= i < |jar| && KeyOf(jar[i]) == KeyOf(c) && Upsert(jar, c) == jar[i := c] {
        assert keys[i] == KeyOf(c);
        OverwriteHolds(jar, keys, before, c, i);
      } else {
        assert forall j :: 0 <= j < |jar| ==> keys[j] == KeyOf(jar[j]);
        AppendHolds(jar, keys, before, c);
      }
    }
  }

  // ----- domains -----

  /** The byte-suffix test of the source. */
  predicate DomainMatches(domain: string, host: string) {
    || domain == ""
    || domain == host
    || (|host| > |domain| && host[|host| - |domain|..] == domain && host[|host| - |domain| - 1] == '.')
  }

  function Labels(s: string): seq<string>
    decreases |s|
  {
    var i := Find(s, '.');
    if i == |s| then [s] else [s[..i]] + Labels(s[i + 1..])
  }

  function Join(labels: seq<string>): string
    requires labels != []
  {
    if |labels| == 1 then labels[0] else labels[0] + "." + Join(labels[1..])
  }

  lemma CutAt(s: string, i: nat)
    requires i < |s| && s[i] == '.'
    ensures s == s[..i] + "." + s[i + 1..]
  {
  }

  lemma JoinCons(first: string, rest: seq<string>)
    requires rest != []
    ensures Join([first] + rest) == first + "." + Join(rest)
  {
    assert ([first] + rest)[1..] == rest;
  }

  lemma {:induction false} JoinLabels(s: string)
    ensures Labels(s) != [] && Join(Labels(s)) == s
    decreases |s|
  {
    var i := Find(s, '.');
    if i < |s| {
      JoinLabels(s[i + 1..]);
      JoinCons(s[..i], Labels(s[i + 1..]));
      CutAt(s, i);
    }
  }

  lemma {:induction false} LabelsConcat(a: string, b: string)
    ensures Labels(a + "." + b) == Labels(a) + Labels(b)
    decreases |a|
  {
    var s, i := a + "." + b, Find(a, '.');
    if i == |a| {
      assert s == a + ['.'] + b;
      FindSplits(a, '.', b);
      assert s[..i] == a && s[i + 1..] == b;
    } else {
      assert s == a[..i] + ['.'] + (a[i + 1..] + "." + b);
      FindSplits(a[..i], '.', a[i + 1..] + "." + b);
      assert s[..i] == a[..i] && s[i + 1..] == a[i + 1..] + "." + b;
      LabelsConcat(a[i + 1..], b);
    }
  }

  lemma {:induction false} JoinConcat(a: seq<string>, b: seq<string>)
    requires a != [] && b != []
    ensures Join(a + b) == Join(a) + "." + Join(b)
    decreases |a|
  {
    assert (a + b)[1..] == a[1..] + b;
    if |a| == 1 {
      assert a[1..] + b == b;
    } else {
      JoinConcat(a[1..], b);
    }
  }

  predicate SuffixOf(a: seq<string>, b: seq<string>) { |a| <= |b| && b[|b| - |a|..] == a }

  lemma MatchGivesSuffix(domain: string, host: string)
    requires domain != "" && DomainMatches(domain, host)
    ensures SuffixOf(Labels(domain), Labels(host))
  {
    if domain != host {
      var before := host[..|host| - |domain| - 1];
      assert host == before + "." + domain;
      LabelsConcat(before, domain);
    }
  }

  lemma SuffixGivesMatch(domain: string, host: string)
    requires SuffixOf(Labels(domain), Labels(host))
    ensures DomainMatches(domain, host)
  {
    var d, h := Labels(domain), Labels(host);
    JoinLabels(domain);
    JoinLabels(host);
    var before := h[..|h| - |d|];
    assert h == before + d;
    if before == [] {
      assert h == d;
    } else {
      JoinConcat(before, d);
      assert host == Join(before) + "." + domain;
    }
  }

  /** The byte test is a test on labels: the host is the domain, or ends with a dot and the domain. */
  lemma DomainMatchIsLabelSuffix(domain: string, host: string)
    requires domain != ""
    ensures DomainMatches(domain, host) <==> SuffixOf(Labels(domain), Labels(host))
  {
    if DomainMatches(domain, host) { MatchGivesSuffix(domain, host); }
    if SuffixOf(Labels(domain), Labels(host)) { SuffixGivesMatch(domain, host); }
  }

  // ----- paths -----

  predicate PathMatches(cookie: string, path: string) {
    || cookie == ""
    || (cookie <= path && (|path| == |cookie| || cookie[|cookie| - 1] == '/' || path[|cookie|] == '/'))
  }

  /** The cookie's path as a directory. */
  function Directory(cookie: string): string
    requires cookie != ""
  {
    if cookie[|cookie| - 1] == '/' then cookie else cookie + "/"
  }

  /** The path itself or something below it: the path match of section 5.1.4 of RFC 6265. */
  lemma PathMatchIsBelow(cookie: string, path: string)
    requires cookie != ""
    ensures PathMatches(cookie, path) <==> path == cookie || Directory(cookie) <= path
  {
    if Directory(cookie) <= path {
      assert cookie <= path;
    }
    if cookie <= path && |path| > |cookie| && path[|cookie|] == '/' {
      assert path[..|cookie| + 1] == cookie + "/";
    }
  }

  /**
   The client passes the whole request URI. With a query after the path, the test differs from that
   of the path alone in two cases: an exact match without a final slash is hidden by the query, and a
   cookie path that itself goes on into the query may match.
   */
  lemma QueryHidesExactMatch(cookie: string, path: string, query: string)
    requires cookie != ""
    ensures var uri := path + "?" + query;
      PathMatches(cookie, uri) == PathMatches(cookie, path)
      <==> !(cookie == path && cookie[|cookie| - 1] != '/') && !(path + "?" <= cookie && PathMatches(cookie, uri))
  {
    var uri := path + "?" + query;
    assert uri[|path|] == '?' && (path + "?")[|path|] == '?';
    assert |cookie| <= |path| ==> uri[..|cookie|] == path[..|cookie|];
    assert |cookie| > |path| && cookie <= uri ==> cookie[..|path| + 1] == uri[..|path| + 1] == path + "?";
  }

  /** A cookie path with a query of its own is sent along with that query, though not for the path. */
  lemma QueryInPathExample()
    ensures PathMatches("/a?b", "/a" + "?" + "b") && !PathMatches("/a?b", "/a")
  {
    assert "/a?b" == "/a" + "?" + "b";
  }

  // ----- the Cookie header -----

  predicate Applies(c: Cookie, domain: string, path: string) {
    DomainMatches(c.domain, domain) && PathMatches(c.path, path)
  }

  /** The cookies that apply, in jar order. */
  function Applying(jar: seq<Cookie>, domain: string, path: string): seq<Cookie> {
    if jar == [] then []
    else if Applies(jar[0], domain, path) then [jar[0]] + Applying(jar[1..], domain, path)
    else Applying(jar[1..], domain, path)
  }

  function Pair(c: Cookie): string { c.name + "=" + c.value }

  function PrintPairs(cookies: seq<Cookie>): string {
    if cookies == [] then ""
    else if |cookies| == 1 then Pair(cookies[0])
    else PrintPairs(cookies[..|cookies| - 1]) + "; " + Pair(cookies[|cookies| - 1])
  }

  lemma PrintOneMore(printed: seq<Cookie>, c: Cookie)
    ensures PrintPairs(printed + [c])
      == (if printed == [] then "" else PrintPairs(printed) + "; ") + (c.name + "=" + c.value)
  {
    var more := printed + [c];
    assert more[..|more| - 1] == printed;
  }

  function CookieHeader(jar: seq<Cookie>, domain: string, path: string): string {
    PrintPairs(Applying(jar, domain, path))
  }

  // ----- Set-Cookie -----

  function DropSpaces(s: string): string {
    if s != "" && s[0] == ' ' then DropSpaces(s[1..]) else s
  }

  function DropSpacesRight(s: string): string {
    if s != "" && s[|s| - 1] == ' ' then DropSpacesRight(s[..|s| - 1]) else s
  }

  function TrimSpaces(s: string): string { DropSpacesRight(DropSpaces(s)) }

  /** The first ';'-separated piece, trimmed, and what follows it. */
  function FirstPiece(s: string): (r: (string, string))
    requires s != ""
    ensures |r.1| < |s|
  {
    var semi := Find(s, ';');
    if semi == |s| then (TrimSpaces(s), "")
    else
      DropSpacesShrinks(s[semi + 1..]);
      (TrimSpaces(s[..semi]), DropSpaces(s[semi + 1..]))
  }

  lemma DropSpacesShrinks(s: string)
    ensures |DropSpaces(s)| <= |s|
  {
  }

  /** Splits at the first '='; without one the value is empty. */
  function NameValue(token: string): (string, string) {
    var eq := Find(token, '=');
    if eq == |token| then (token, "") else (token[..eq], token[eq + 1..])
  }

  function Directive(c: Cookie, token: string): Cookie {
    var (key, val) := NameValue(token);
    if EqualsIgnoreCase(key, "domain") then
      c.(domain := if val != "" && val[0] == '.' then val[1..] else val)
    else if EqualsIgnoreCase(key, "path") then c.(path := val)
    else if EqualsIgnoreCase(key, "secure") then c.(secure := true)
    else if EqualsIgnoreCase(key, "expires") then c.(hasExpiry := true, expires := 0)
    else c
  }

  function Directives(c: Cookie, remaining: string): Cookie
    decreases |remaining|
  {
    if remaining == "" then c
    else
      var (token, rest) := FirstPiece(remaining);
      Directives(Directive(c, token), rest)
  }

  const BLANK: Cookie := Cookie("", "", "", "", false, false, 0)

  function WithDefaults(c: Cookie, requestDomain: string): Cookie {
    var d := if c.domain == "" then c.(domain := requestDomain) else c;
    if d.path == "" then d.(path := "/") else d
  }

  /** What a `Set-Cookie` value says by itself. */
  function ParseLine(line: string): Cookie {
    if line == "" then BLANK
    else
      var (token, rest) := FirstPiece(line);
      var (name, value) := NameValue(token);
      Directives(BLANK.(name := name, value := value), rest)
  }

  /** The cookie that a `Set-Cookie` value describes for a request to `requestDomain`. */
  function ParseSetCookie(line: string, requestDomain: string): Cookie {
    WithDefaults(ParseLine(line), requestDomain)
  }

  lemma UpsertStep(jar: seq<Cookie>, c: Cookie, i: nat)
    requires i < |jar|
    ensures jar[..i] + Upsert(jar[i..], c)
      == if KeyOf(jar[i]) == KeyOf(c) then jar[i := c] else jar[..i + 1] + Upsert(jar[i + 1..], c)
  {
    assert jar[i..][1..] == jar[i + 1..];
  }

  // ----- a Set-Cookie value written and read -----

  /** The directives of a cookie; the date is not stored, so any text will do for it. */
  function Attributes(c: Cookie, date: string): seq<string> {
    ["Domain=" + c.domain, "Path=" + c.path]
    + (if c.secure then ["Secure"] else [])
    + (if c.hasExpiry then ["Expires=" + date] else [])
  }

  function Pieces(tokens: seq<string>): string
    requires tokens != []
  {
    if |tokens| == 1 then tokens[0] else tokens[0] + "; " + Pieces(tokens[1..])
  }

  function PrintSetCookie(c: Cookie, date: string): string { Pieces([Pair(c)] + Attributes(c, date)) }

  /** Survives the splitting and trimming. */
  predicate Tidy(s: string) {
    s != "" && ';' !in s && s[0] != ' ' && s[|s| - 1] != ' '
  }

  lemma TidyStays(s: string)
    requires Tidy(s)
    ensures TrimSpaces(s) == s
  {
  }

  lemma PieceReads(token: string, rest: string)
    requires Tidy(token) && rest != "" && rest[0] != ' '
    ensures FirstPiece(token + "; " + rest) == (token, rest)
  {
    var s := token + "; " + rest;
    assert s == token + [';'] + (" " + rest);
    FindSplits(token, ';', " " + rest);
    assert s[..|token|] == token && s[|token| + 1..] == " " + rest && (" " + rest)[1..] == rest;
    assert DropSpaces(" " + rest) == DropSpaces(rest) == rest;
    TidyStays(token);
  }

  lemma LastPieceReads(token: string)
    requires Tidy(token)
    ensures FirstPiece(token) == (token, "")
  {
    FindNothing(token, ';');
    TidyStays(token);
  }

  lemma NameValueReads(name: string, value: string)
    requires '=' !in name
    ensures NameValue(name + "=" + value) == (name, value)
  {
    assert name + "=" + value == name + ['='] + value;
    FindSplits(name, '=', value);
    assert (name + "=" + value)[..|name|] == name && (name + "=" + value)[|name| + 1..] == value;
  }

  lemma DomainDirective(c: Cookie, domain: string)
    requires domain != "" && domain[0] != '.'
    ensures Directive(c, "Domain=" + domain) == c.(domain := domain)
  {
    var token := "Domain=" + domain;
    assert token == "Domain" + "=" + domain;
    NameValueReads("Domain", domain);
    assert NameValue(token) == ("Domain", domain) && EqualsIgnoreCase("Domain", "domain");
  }

  lemma PathDirective(c: Cookie, path: string)
    ensures Directive(c, "Path=" + path) == c.(path := path)
  {
    assert "Path=" + path == "Path" + "=" + path;
    NameValueReads("Path", path);
  }

  lemma SecureDirective(c: Cookie)
    ensures Directive(c, "Secure") == c.(secure := true)
  {
    FindNothing("Secure", '=');
    assert NameValue("Secure") == ("Secure", "");
    assert EqualsIgnoreCase("Secure", "secure") && |"domain"| == |"secure"| && Lower("Secure"[0]) != Lower("domain"[0]);
  }

  lemma ExpiresDirective(c: Cookie, date: string)
    ensures Directive(c, "Expires=" + date) == c.(hasExpiry := true, expires := 0)
  {
    var token := "Expires=" + date;
    assert token == "Expires" + "=" + date;
    NameValueReads("Expires", date);
    assert NameValue(token) == ("Expires", date) && EqualsIgnoreCase("Expires", "expires");
  }

  /** The directives one after the other. */
  function DirectiveAll(c: Cookie, tokens: seq<string>): Cookie
    decreases |tokens|
  {
    if tokens == [] then c else DirectiveAll(Directive(c, tokens[0]), tokens[1..])
  }

  predicate AllTidy(tokens: seq<string>) { forall i :: 0 <= i < |tokens| ==> Tidy(tokens[i]) }

  lemma PiecesStart(tokens: seq<string>)
    requires tokens != [] && AllTidy(tokens)
    ensures Pieces(tokens) != "" && Pieces(tokens)[0] != ' '
  {
    assert Pieces(tokens)[0] == tokens[0][0];
  }

  lemma {:induction false} DirectivesRead(c: Cookie, tokens: seq<string>)
    requires tokens != [] && AllTidy(tokens)
    ensures Directives(c, Pieces(tokens)) == DirectiveAll(c, tokens)
    decreases |tokens|
  {
    var next := Directive(c, tokens[0]);
    PiecesStart(tokens);
    if |tokens| == 1 {
      LastPieceReads(tokens[0]);
      assert Directives(next, "") == next && tokens[1..] == [];
    } else {
      PiecesStart(tokens[1..]);
      PieceReads(tokens[0], Pieces(tokens[1..]));
      DirectivesRead(next, tokens[1..]);
    }
  }

  lemma DirectiveSplit(c: Cookie, token: string, rest: seq<string>)
    ensures DirectiveAll(c, [token] + rest) == DirectiveAll(Directive(c, token), rest)
  {
    assert ([token] + rest)[1..] == rest;
  }

  lemma AttributesRead(c: Cookie, from: Cookie, date: string)
    requires c.domain != "" && c.domain[0] != '.'
    requires from == Cookie(c.name, c.value, "", "", false, false, 0) && c.expires == 0
    ensures DirectiveAll(from, Attributes(c, date)) == c
  {
    var expiry := if c.hasExpiry then ["Expires=" + date] else [];
    var flags := (if c.secure then ["Secure"] else []) + expiry;
    var withPath := from.(domain := c.domain, path := c.path);
    assert Attributes(c, date) == ["Domain=" + c.domain] + (["Path=" + c.path] + flags);
    DomainDirective(from, c.domain);
    PathDirective(from.(domain := c.domain), c.path);
    DirectiveSplit(from, "Domain=" + c.domain, ["Path=" + c.path] + flags);
    DirectiveSplit(from.(domain := c.domain), "Path=" + c.path, flags);
    FlagsRead(c, withPath, date);
  }

  lemma FlagsRead(c: Cookie, from: Cookie, date: string)
    requires from == c.(secure := false, hasExpiry := false) && c.expires == 0
    ensures var expiry := if c.hasExpiry then ["Expires=" + date] else [];
      DirectiveAll(from, (if c.secure then ["Secure"] else []) + expiry) == c
  {
    var expiry := if c.hasExpiry then ["Expires=" + date] else [];
    SecureDirective(from);
    ExpiresDirective(from.(secure := c.secure), date);
    DirectiveSplit(from, "Secure", expiry);
    DirectiveSplit(from.(secure := c.secure), "Expires=" + date, []);
    assert ["Expires=" + date] + [] == ["Expires=" + date] && [] + expiry == expiry;
  }

  /** A cookie written out with its domain, path and flags is read back, whoever sends it. */
  lemma SetCookieReadsBack(c: Cookie, date: string, requestDomain: string)
    requires '=' !in c.name && Tidy(Pair(c)) && AllTidy(Attributes(c, date))
    requires c.domain != "" && c.domain[0] != '.' && c.path != "" && c.expires == 0
    ensures ParseSetCookie(PrintSetCookie(c, date), requestDomain) == c
  {
    var tokens := Attributes(c, date);
    assert ([Pair(c)] + tokens)[1..] == tokens;
    PiecesStart(tokens);
    PieceReads(Pair(c), Pieces(tokens));
    NameValueReads(c.name, c.value);
    DirectivesRead(BLANK.(name := c.name, value := c.value), tokens);
    AttributesRead(c, BLANK.(name := c.name, value := c.value), date);
  }

  // ----- pieces, directives and defaults of any form -----

  predicate Spaces(s: string) { forall i :: 0 <= i < |s| ==> s[i] == ' ' }

  lemma {:induction false} SpacesDropped(spaces: string, s: string)
    requires Spaces(spaces)
    ensures DropSpaces(spaces + s) == DropSpaces(s)
    decreases |spaces|
  {
    if spaces == "" {
      assert spaces + s == s;
    } else {
      assert (spaces + s)[0] == ' ' && (spaces + s)[1..] == spaces[1..] + s;
      SpacesDropped(spaces[1..], s);
    }
  }

  lemma {:induction false} SpacesDroppedRight(s: string, spaces: string)
    requires Spaces(spaces)
    ensures DropSpacesRight(s + spaces) == DropSpacesRight(s)
    decreases |spaces|
  {
    if spaces == "" {
      assert s + spaces == s;
    } else {
      var n := |spaces| - 1;
      assert (s + spaces)[|s| + n] == ' ' && (s + spaces)[..|s| + n] == s + spaces[..n];
      SpacesDroppedRight(s, spaces[..n]);
    }
  }

  lemma SpacesTrimmed(before: string, token: string, after: string)
    requires Spaces(before) && Spaces(after) && Tidy(token)
    ensures TrimSpaces(before + token + after) == token
  {
    assert before + token + after == before + (token + after);
    SpacesDropped(before, token + after);
    assert DropSpaces(token + after) == token + after;
    SpacesDroppedRight(token, after);
  }

  /** Blanks around a piece and after its semicolon do not count. */
  lemma SpacedPieceReads(before: string, token: string, after: string, gap: string, rest: string)
    requires Spaces(before) && Spaces(after) && Spaces(gap) && Tidy(token) && (rest != "" ==> rest[0] != ' ')
    ensures FirstPiece(before + token + after + ";" + (gap + rest)) == (token, rest)
  {
    var piece, s := before + token + after, before + token + after + ";" + (gap + rest);
    assert ';' !in piece;
    assert s == piece + [';'] + (gap + rest);
    FindSplits(piece, ';', gap + rest);
    assert s[..|piece|] == piece && s[|piece| + 1..] == gap + rest;
    SpacesTrimmed(before, token, after);
    SpacesDropped(gap, rest);
  }

  /** What each directive sets, in any spelling of its name; the first dot of a domain is dropped. */
  lemma DirectiveSets(c: Cookie, name: string, value: string)
    requires '=' !in name
    ensures var d := Directive(c, name + "=" + value);
      && (EqualsIgnoreCase(name, "Domain") ==>
            d == c.(domain := if value != "" && value[0] == '.' then value[1..] else value))
      && (EqualsIgnoreCase(name, "Path") ==> d == c.(path := value))
      && (EqualsIgnoreCase(name, "Expires") ==> d == c.(hasExpiry := true, expires := 0))
      && (EqualsIgnoreCase(name, "Secure") ==> d == c.(secure := true))
      && ((forall known :: known in {"Domain", "Path", "Expires", "Secure"} ==> !EqualsIgnoreCase(name, known))
          ==> d == c)
  {
    NameValueReads(name, value);
    DirectiveNames(name);
  }

  /** The names are told apart by their first letters, capital or small. */
  lemma DirectiveNames(name: string)
    ensures EqualsIgnoreCase(name, "Domain") <==> EqualsIgnoreCase(name, "domain")
    ensures EqualsIgnoreCase(name, "Path") <==> EqualsIgnoreCase(name, "path")
    ensures EqualsIgnoreCase(name, "Secure") <==> EqualsIgnoreCase(name, "secure")
    ensures EqualsIgnoreCase(name, "Expires") <==> EqualsIgnoreCase(name, "expires")
    ensures EqualsIgnoreCase(name, "domain") ==> !EqualsIgnoreCase(name, "secure")
  {
    SameFold("Domain", "domain", name);
    SameFold("Path", "path", name);
    SameFold("Secure", "secure", name);
    SameFold("Expires", "expires", name);
    assert Lower("domain"[0]) != Lower("secure"[0]);
  }

  lemma SameFold(a: string, b: string, name: string)
    requires EqualsIgnoreCase(a, b)
    ensures EqualsIgnoreCase(name, a) <==> EqualsIgnoreCase(name, b)
  {
  }

  /** A cookie without a domain is for the host it comes from, one without a path for all paths. */
  lemma DefaultsAre(line: string, from: string)
    ensures var said, c := ParseLine(line), ParseSetCookie(line, from);
      && c.domain == (if said.domain == "" then from else said.domain)
      && c.path == (if said.path == "" then "/" else said.path)
      && c == said.(domain := c.domain, path := c.path)
  {
  }

  /** A cookie with no domain or no path at all would apply everywhere. */
  lemma EmptyMatchesAll(host: string, path: string)
    ensures DomainMatches("", host) && PathMatches("", path)
  {
  }

  // ----- the object -----

  lemma ApplyingStep(cookies: seq<Cookie>, domain: string, path: string, i: nat, printed: seq<Cookie>)
    requires i < |cookies|
    ensures printed + Applying(cookies[i..], domain, path)
      == (if Applies(cookies[i], domain, path) then printed + [cookies[i]] else printed)
         + Applying(cookies[i + 1..], domain, path)
  {
    assert cookies[i..][1..] == cookies[i + 1..];
  }

  class CookieJar {
    var cookies: seq<Cookie>

    constructor ()
      ensures cookies == []
    {
      cookies := [];
    }

    method SetCookie(c: Cookie)
      modifies this
      ensures cookies == Upsert(old(cookies), c)
    {
      ghost var goal := Upsert(cookies, c);
      assert cookies[..0] + Upsert(cookies[0..], c) == goal;
      for i := 0 to |cookies|
        invariant cookies == old(cookies)
        invariant cookies[..i] + Upsert(cookies[i..], c) == goal
      {
        UpsertStep(cookies, c, i);
        if cookies[i].name == c.name && cookies[i].domain == c.domain && cookies[i].path == c.path {
          cookies := cookies[i := c];
          return;
        }
      }
      cookies := cookies + [c];
    }

    method SetCookieLine(line: string, requestDomain: string)
      modifies this
      ensures cookies == Upsert(old(cookies), ParseSetCookie(line, requestDomain))
    {
      var entry, remaining, first := BLANK, line, true;
      while remaining != ""
        invariant cookies == old(cookies)
        invariant first ==> entry == BLANK && remaining == line
        invariant !first ==> Directives(entry, remaining) == ParseLine(line)
        decreases |remaining|
      {
        var (token, rest) := FirstPiece(remaining);
        remaining := rest;
        if first {
          var (name, value) := NameValue(token);
          entry := entry.(name := name, value := value);
          first := false;
        } else {
          entry := Directive(entry, token);
        }
      }
      if entry.domain == "" { entry := entry.(domain := requestDomain); }
      if entry.path == "" { entry := entry.(path := "/"); }
      SetCookie(entry);
    }

    /** One more pair at the end of the header. */
    static method AppendPair(header: string, first: bool, c: Cookie, ghost printed: seq<Cookie>)
      returns (longer: string)
      requires header == PrintPairs(printed) && first == (printed == [])
      ensures longer == PrintPairs(printed + [c])
    {
      PrintOneMore(printed, c);
      longer := header;
      if !first { longer := longer + "; "; }
      longer := longer + (c.name + "=" + c.value);
    }

    method BuildCookieHeader(domain: string, path: string) returns (header: string)
      ensures header == CookieHeader(cookies, domain, path)
    {
      header := "";
      var first := true;
      ghost var printed: seq<Cookie> := [];
      for i := 0 to |cookies|
        invariant Applying(cookies, domain, path) == printed + Applying(cookies[i..], domain, path)
        invariant header == PrintPairs(printed) && first == (printed == [])
      {
        ApplyingStep(cookies, domain, path, i, printed);
        if Applies(cookies[i], domain, path) {
          header := AppendPair(header, first, cookies[i], printed);
          first := false;
          printed := printed + [cookies[i]];
        }
      }
      assert printed + [] == printed;
    }

    method Clear()
      modifies this
      ensures cookies == []
    {
      cookies := [];
    }
  }
}
