/**
 Whose cookies go where, compared with RFC 6265: its domain match (section 5.1.3), and what it
 stores and sends (sections 5.3 and 5.4).
 */
module CookieScope {
  import opened Wrappers
  import opened Text
  import opened Cookies

  // ----- the domain match -----

  function Fold(s: string): (r: string)
    ensures |r| == |s| && forall i :: 0 <= i < |s| ==> r[i] == Lower(s[i])
  {
    seq(|s|, i => LowerAt(s, i))
  }

  function LowerAt(s: string, i: int): char { if 0 <= i < |s| then Lower(s[i]) else ' ' }

  /** One part of a dotted address: up to three digits, at most 255. */
  predicate IsOctet(s: string) { 1 <= |s| <= 3 && AllDigits(s, 10) && ValueOf(s, 10) <= 255 }

  predicate IsIpv4(host: string) {
    var parts := Labels(host); |parts| == 4 && forall i :: 0 <= i < 4 ==> IsOctet(parts[i])
  }

  /** Not a host name: an IPv4 address, or an IPv6 address, which has colons. */
  predicate IsAddress(host: string) { IsIpv4(host) || ':' in host }

  /** The host is the domain, or ends with a dot and the domain, in any spelling. */
  predicate FoldedMatches(domain: string, host: string) { DomainMatches(Fold(domain), Fold(host)) }

  /**
   The domain match of section 5.1.3: equal up to case, or a host name that ends with a dot and the
   domain up to case.
   */
  predicate RfcDomainMatches(domain: string, host: string) {
    Fold(domain) == Fold(host) || (FoldedMatches(domain, host) && !IsAddress(host))
  }

  lemma DotsStay(host: string, i: nat)
    requires i < |host|
    ensures Fold(host)[i] == '.' <==> host[i] == '.'
  {
  }

  lemma TailFolds(domain: string, host: string)
    requires |domain| <= |host|
    ensures Fold(host)[|host| - |domain|..] == Fold(host[|host| - |domain|..])
  {
  }

  /** In the spelling of the domain, the two tests agree up to the address. */
  lemma SpellingDecides(domain: string, host: string)
    requires domain != "" && FoldedMatches(domain, host)
    ensures |domain| <= |host| && (DomainMatches(domain, host) <==> host[|host| - |domain|..] == domain)
  {
    if |domain| < |host| { DotsStay(host, |host| - |domain| - 1); }
    if |domain| == |host| { assert host[0..] == host; }
  }

  lemma EqualFolds(a: string, b: string)
    requires a == b
    ensures Fold(a) == Fold(b)
  {
  }

  lemma MatchFolds(domain: string, host: string)
    requires domain != "" && DomainMatches(domain, host)
    ensures FoldedMatches(domain, host)
  {
    if domain != host {
      TailFolds(domain, host);
      DotsStay(host, |host| - |domain| - 1);
      EqualFolds(host[|host| - |domain|..], domain);
    }
  }

  /** A caller can see whether the test of the source can be trusted. */
  predicate TestIsRight(domain: string, host: string) {
    if IsAddress(host) && |domain| < |host| then !DomainMatches(domain, host)
    else FoldedMatches(domain, host) ==> |domain| <= |host| && host[|host| - |domain|..] == domain
  }

  /**
   The test of the source is that of the section if and only if an address is not matched by its
   ending, and anything else that matches up to case is spelled as the domain is.
   */
  lemma DomainMatchIsRfcIff(domain: string, host: string)
    requires domain != ""
    ensures DomainMatches(domain, host) == RfcDomainMatches(domain, host) <==> TestIsRight(domain, host)
  {
    if DomainMatches(domain, host) { MatchFolds(domain, host); }
    if FoldedMatches(domain, host) { SpellingDecides(domain, host); }
    FoldedEqual(domain, host);
  }

  lemma FoldedEqual(domain: string, host: string)
    requires domain != ""
    ensures Fold(domain) == Fold(host) ==> FoldedMatches(domain, host) && |domain| == |host|
    ensures FoldedMatches(domain, host) && |domain| >= |host| ==> Fold(domain) == Fold(host)
  {
    assert |Fold(domain)| == |domain| && |Fold(host)| == |host|;
  }

  lemma OctetsRead()
    ensures IsOctet("10") && IsOctet("1") && IsOctet("2") && IsOctet("3")
  {
    assert ValueOf("1"[..0], 10) == 0 && ValueOf("2"[..0], 10) == 0 && ValueOf("3"[..0], 10) == 0;
    assert ValueOf("1", 10) == 1 && ValueOf("2", 10) == 2 && ValueOf("3", 10) == 3;
    assert "10"[..1] == "1" && ValueOf("10", 10) == 10;
  }

  lemma LabelsCons(first: string, rest: string)
    requires '.' !in first
    ensures Labels(first + "." + rest) == [first] + Labels(rest)
  {
    var s := first + "." + rest;
    assert s == first + ['.'] + rest;
    FindSplits(first, '.', rest);
    assert s[..|first|] == first && s[|first| + 1..] == rest;
  }

  lemma FourLabels(a: string, b: string, c: string, d: string)
    requires '.' !in a && '.' !in b && '.' !in c && '.' !in d
    ensures Labels(a + "." + (b + "." + (c + "." + d))) == [a, b, c, d]
  {
    LabelsCons(a, b + "." + (c + "." + d));
    LabelsCons(b, c + "." + d);
    LabelsCons(c, d);
    FindNothing(d, '.');
  }

  lemma QuadIsIpv4(a: string, b: string, c: string, d: string)
    requires IsOctet(a) && IsOctet(b) && IsOctet(c) && IsOctet(d)
    ensures IsIpv4(a + "." + (b + "." + (c + "." + d)))
  {
    OctetHasNoDot(a);
    OctetHasNoDot(b);
    OctetHasNoDot(c);
    OctetHasNoDot(d);
    FourLabels(a, b, c, d);
  }

  lemma OctetHasNoDot(s: string)
    requires IsOctet(s)
    ensures '.' !in s
  {
    assert DigitValue('.') == 36;
  }

  lemma EndingMatches(before: string, ending: string)
    ensures DomainMatches(ending, before + "." + ending)
  {
    var host := before + "." + ending;
    assert host[|before| + 1..] == ending && host[|before|] == '.';
  }

  /** An address is matched by its ending. */
  lemma AddressEndingMatches(a: string, b: string, c: string, d: string)
    requires IsOctet(a) && IsOctet(b) && IsOctet(c) && IsOctet(d)
    ensures var ending, host := c + "." + d, a + "." + (b + "." + (c + "." + d));
      DomainMatches(ending, host) && !RfcDomainMatches(ending, host)
  {
    var ending, host := c + "." + d, a + "." + (b + "." + (c + "." + d));
    QuadIsIpv4(a, b, c, d);
    EndingMatches(a + "." + b, ending);
    assert host == a + "." + b + "." + ending;
    assert |Fold(ending)| < |Fold(host)|;
  }

  lemma AddressExample()
    ensures DomainMatches("2.3", "10.1.2.3") && !RfcDomainMatches("2.3", "10.1.2.3")
  {
    OctetsRead();
    AddressEndingMatches("10", "1", "2", "3");
    assert "2" + "." + "3" == "2.3";
    assert "10" + "." + ("1" + "." + ("2" + "." + "3")) == "10.1.2.3";
  }

  /** A name not matched because of one capital letter. */
  lemma SpellingExample()
    ensures !DomainMatches("Example.com", "example.com") && RfcDomainMatches("Example.com", "example.com")
  {
    assert "Example.com"[0] == 'E' && "example.com"[0] == 'e';
    assert Fold("Example.com") == Fold("example.com");
  }

  // ----- what is stored and sent -----

  /** A `Set-Cookie` value, and the host whose answer it came with. */
  datatype SetLine = SetLine(line: string, from: string)

  function CookieOf(s: SetLine): Cookie { ParseSetCookie(s.line, s.from) }

  /** The Domain attribute, empty when there is none. */
  function DomainAttribute(s: SetLine): string { ParseLine(s.line).domain }

  /** As far as hosts go, the source sends the cookie to `to`. */
  predicate SourceSends(s: SetLine, to: string) { DomainMatches(CookieOf(s).domain, to) }

  /**
   Section 5.3 stores a cookie without the attribute for the one host it came from, and one with it
   only if that host is itself in the domain; section 5.4 sends it accordingly.
   */
  predicate RfcStores(s: SetLine) {
    DomainAttribute(s) == "" || RfcDomainMatches(DomainAttribute(s), s.from)
  }

  predicate RfcSends(s: SetLine, to: string) {
    && RfcStores(s)
    && if DomainAttribute(s) == "" then Fold(s.from) == Fold(to) else RfcDomainMatches(DomainAttribute(s), to)
  }

  /**
   When both send the cookie or both do not. Without a Domain attribute: to the very host it came
   from, or to a host that is neither the same in another spelling nor below it. With one that the
   section accepts: where the domain tests agree. With any other: where the source's test fails.
   */
  predicate ScopeIsRight(s: SetLine, to: string) {
    var domain := DomainAttribute(s);
    if domain == "" then s.from == to || (Fold(s.from) != Fold(to) && !DomainMatches(s.from, to))
    else if RfcDomainMatches(domain, s.from) then TestIsRight(domain, to)
    else !DomainMatches(domain, to)
  }

  lemma SentAsRfcIff(s: SetLine, to: string)
    ensures SourceSends(s, to) == RfcSends(s, to) <==> ScopeIsRight(s, to)
  {
    var domain := DomainAttribute(s);
    if domain == "" {
      SameHostSends(s.from, to);
    } else {
      DomainMatchIsRfcIff(domain, to);
    }
  }

  lemma SameHostSends(from: string, to: string)
    ensures from == to ==> DomainMatches(from, to) && Fold(from) == Fold(to)
    ensures from != to && Fold(from) == Fold(to) ==> !DomainMatches(from, to)
  {
    if Fold(from) == Fold(to) { assert |from| == |Fold(from)| == |Fold(to)| == |to|; }
  }

  lemma AttributeReads(name: string, value: string, domain: string)
    requires '=' !in name && Tidy(name + "=" + value) && Tidy("Domain=" + domain) && domain != "" && domain[0] != '.'
    ensures ParseLine(name + "=" + value + "; " + ("Domain=" + domain)).domain == domain
  {
    var token, c := "Domain=" + domain, BLANK.(name := name, value := value);
    assert token[0] == 'D';
    PieceReads(name + "=" + value, token);
    NameValueReads(name, value);
    DomainDirective(c, domain);
    LastPieceReads(token);
    assert Directives(c, token) == Directives(c.(domain := domain), "");
  }

  lemma PlainLineReads(name: string, value: string)
    requires '=' !in name && Tidy(name + "=" + value)
    ensures ParseLine(name + "=" + value).domain == ""
  {
    LastPieceReads(name + "=" + value);
    NameValueReads(name, value);
  }

  /** The source lets a host set a cookie for any other: stored, and sent there, though the section refuses it. */
  lemma ForeignCookieIsStored(name: string, value: string, domain: string, from: string)
    requires '=' !in name && Tidy(name + "=" + value) && Tidy("Domain=" + domain) && domain != "" && domain[0] != '.'
    requires !RfcDomainMatches(domain, from)
    ensures var s := SetLine(name + "=" + value + "; " + ("Domain=" + domain), from);
      SourceSends(s, domain) && !RfcStores(s)
  {
    AttributeReads(name, value, domain);
  }

  lemma ForeignCookieExample()
    ensures var s := SetLine("a" + "=" + "1" + "; " + ("Domain=" + "b.com"), "a.com");
      SourceSends(s, "b.com") && !RfcStores(s)
  {
    assert Fold("b.com")[0] == 'b' && Fold("a.com")[0] == 'a';
    assert |Fold("b.com")| == |Fold("a.com")| == 5;
    ForeignCookieIsStored("a", "1", "b.com", "a.com");
  }

  /** A cookie without a Domain attribute is sent below the host it came from. */
  lemma HostCookieExample()
    ensures var s := SetLine("a=1", "h"); SourceSends(s, "x.h") && !RfcSends(s, "x.h")
  {
    PlainLineReads("a", "1");
    assert "a" + "=" + "1" == "a=1";
    assert "x.h"[2..] == "h" && "x.h"[1] == '.';
    assert |Fold("h")| == 1 && |Fold("x.h")| == 3;
  }

  // ----- over runs -----

  function CookiesOf(sets: seq<SetLine>): (r: seq<Cookie>)
    ensures |r| == |sets| && forall i :: 0 <= i < |sets| ==> r[i] == CookieOf(sets[i])
  {
    if sets == [] then [] else [CookieOf(sets[0])] + CookiesOf(sets[1..])
  }

  /** The jar after a run of `Set-Cookie` values from whatever hosts. */
  function JarOf(sets: seq<SetLine>): seq<Cookie> { JarAfter(CookiesOf(sets)) }

  /** The cookie at `i` is this one, and the last one of its key. */
  predicate LastAt(set_: seq<Cookie>, c: Cookie, i: int) {
    0 <= i < |set_| && set_[i] == c && forall j :: i < j < |set_| ==> KeyOf(set_[j]) != KeyOf(c)
  }

  lemma LastAtAppend(before: seq<Cookie>, last: Cookie, c: Cookie, i: int)
    ensures LastAt(before + [last], c, i)
      <==> if KeyOf(last) == KeyOf(c) then i == |before| && last == c else LastAt(before, c, i)
  {
    var all := before + [last];
    assert all[|before|] == last;
    if LastAt(before, c, i) && KeyOf(last) != KeyOf(c) {
      forall j | i < j < |all| ensures KeyOf(all[j]) != KeyOf(c) { assert j < |before| ==> all[j] == before[j]; }
    }
    if LastAt(all, c, i) && i < |before| {
      forall j | i < j < |before| ensures KeyOf(before[j]) != KeyOf(c) { assert all[j] == before[j]; }
    }
  }

  lemma {:induction false} LastWithIff(set_: seq<Cookie>, c: Cookie)
    ensures LastWith(set_, KeyOf(c)) == Some(c) <==> exists i :: LastAt(set_, c, i)
  {
    if set_ != [] {
      var before, last := set_[..|set_| - 1], set_[|set_| - 1];
      assert set_ == before + [last];
      LastWithIff(before, c);
      forall i ensures LastAt(set_, c, i)
        <==> if KeyOf(last) == KeyOf(c) then i == |before| && last == c else LastAt(before, c, i)
      {
        LastAtAppend(before, last, c, i);
      }
      if last == c { assert LastAt(set_, c, |before|); }
      if i :| LastAt(before, c, i) { assert KeyOf(last) != KeyOf(c) ==> LastAt(set_, c, i); }
    }
  }

  lemma {:induction false} LastIsAKey(set_: seq<Cookie>, k: Key)
    ensures LastWith(set_, k).Some? ==> k in FirstKeys(set_)
  {
    if set_ != [] && KeyOf(set_[|set_| - 1]) != k { LastIsAKey(set_[..|set_| - 1], k); }
  }

  lemma InJarIff(set_: seq<Cookie>, c: Cookie)
    ensures c in JarAfter(set_) <==> LastWith(set_, KeyOf(c)) == Some(c)
  {
    var jar, keys := JarAfter(set_), FirstKeys(set_);
    JarIsExact(set_);
    if LastWith(set_, KeyOf(c)) == Some(c) {
      LastIsAKey(set_, KeyOf(c));
      var i :| 0 <= i < |keys| && keys[i] == KeyOf(c);
      assert Some(jar[i]) == LastWith(set_, keys[i]);
    }
  }

  /** Why a cookie is in the jar: a value that set it, from some host, the last one of its key. */
  predicate SetLast(sets: seq<SetLine>, c: Cookie, i: int) { i < |sets| && LastAt(CookiesOf(sets), c, i) }

  lemma JarOverRunsIff(sets: seq<SetLine>, c: Cookie)
    ensures c in JarOf(sets) <==> exists i :: SetLast(sets, c, i)
  {
    var set_ := CookiesOf(sets);
    InJarIff(set_, c);
    LastWithIff(set_, c);
    forall i ensures SetLast(sets, c, i) <==> LastAt(set_, c, i) {}
  }

  lemma {:induction false} ApplyingIff(jar: seq<Cookie>, to: string, uri: string, c: Cookie)
    ensures c in Applying(jar, to, uri) <==> c in jar && Applies(c, to, uri)
  {
    if jar != [] { ApplyingIff(jar[1..], to, uri, c); }
  }

  lemma SetLastScope(sets: seq<SetLine>, c: Cookie, i: int, to: string)
    requires SetLast(sets, c, i)
    ensures SourceSends(sets[i], to) == DomainMatches(c.domain, to)
    ensures SourceSends(sets[i], to) == RfcSends(sets[i], to) <==> ScopeIsRight(sets[i], to)
  {
    SentAsRfcIff(sets[i], to);
  }

  /** Set last at `i`, and sent by the source, or by the sections of the RFC. */
  predicate SentBy(sets: seq<SetLine>, c: Cookie, i: int, to: string, uri: string, rfc: bool) {
    SetLast(sets, c, i) && PathMatches(c.path, uri) && if rfc then RfcSends(sets[i], to) else SourceSends(sets[i], to)
  }

  /**
   Over all runs: the cookies sent to a host are those that some host has set last under their key,
   where the source's domain and path tests hold.
   */
  lemma SentOverRunsIff(sets: seq<SetLine>, to: string, uri: string, c: Cookie)
    ensures c in Applying(JarOf(sets), to, uri) <==> exists i :: SentBy(sets, c, i, to, uri, false)
  {
    ApplyingIff(JarOf(sets), to, uri, c);
    JarOverRunsIff(sets, c);
    if i :| SetLast(sets, c, i) {
      SetLastScope(sets, c, i, to);
      assert Applies(c, to, uri) ==> SentBy(sets, c, i, to, uri, false);
    }
    if i :| SentBy(sets, c, i, to, uri, false) { SetLastScope(sets, c, i, to); }
  }

  /** Where the scope of every value is right, they are the cookies that the sections would send. */
  lemma SentOverRunsAsRfc(sets: seq<SetLine>, to: string, uri: string, c: Cookie)
    requires forall i :: 0 <= i < |sets| ==> ScopeIsRight(sets[i], to)
    ensures c in Applying(JarOf(sets), to, uri) <==> exists i :: SentBy(sets, c, i, to, uri, true)
  {
    SentOverRunsIff(sets, to, uri, c);
    if i :| SentBy(sets, c, i, to, uri, false) {
      SetLastScope(sets, c, i, to);
      assert SentBy(sets, c, i, to, uri, true);
    }
    if i :| SentBy(sets, c, i, to, uri, true) {
      SetLastScope(sets, c, i, to);
      assert SentBy(sets, c, i, to, uri, false);
    }
  }
}
