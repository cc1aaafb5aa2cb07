/** The keys of the keep-alive pool: which origins share one. */
module PoolKeys {
  import opened Text
  import opened Urls
  import opened ClientSpec

  lemma DecimalHasNoColon(n: nat)
    ensures ':' !in Decimal(n)
  {
    DecimalIsPlain(n);
  }

  /** The text after the last colon. */
  function AfterLastColon(s: string): string {
    if s == "" || s[|s| - 1] == ':' then "" else AfterLastColon(s[..|s| - 1]) + [s[|s| - 1]]
  }

  lemma {:induction false} LastColon(before: string, tail: string)
    requires ':' !in tail
    ensures AfterLastColon(before + ":" + tail) == tail
  {
    var s := before + ":" + tail;
    if tail != "" {
      var shorter := tail[..|tail| - 1];
      assert s[..|s| - 1] == before + ":" + shorter;
      LastColon(before, shorter);
      assert tail == shorter + [tail[|tail| - 1]];
    } else {
      assert s[|s| - 1] == ':';
    }
  }

  lemma SplitAtLastColon(a: string, x: string, b: string, y: string)
    requires ':' !in x && ':' !in y && a + ":" + x == b + ":" + y
    ensures a == b && x == y
  {
    LastColon(a, x);
    LastColon(b, y);
    assert a == (a + ":" + x)[..|a|] && b == (b + ":" + y)[..|b|];
  }

  function Head(o: Origin): string { o.scheme + "://" + o.host }

  /** A pool key determines the port, and the scheme and host taken together. */
  lemma PoolKeyMeans(o: Origin, p: Origin)
    ensures PoolKey(o) == PoolKey(p) <==> Head(o) == Head(p) && o.port == p.port
  {
    assert PoolKey(o) == Head(o) + ":" + Decimal(o.port) && PoolKey(p) == Head(p) + ":" + Decimal(p.port);
    if PoolKey(o) == PoolKey(p) {
      DecimalHasNoColon(o.port);
      DecimalHasNoColon(p.port);
      SplitAtLastColon(Head(o), Decimal(o.port), Head(p), Decimal(p.port));
      assert ValueOf(Decimal(o.port), 10) == o.port && ValueOf(Decimal(p.port), 10) == p.port;
    }
  }

  /** Neither of two schemes continues the other with "://". */
  predicate Apart(s: string, t: string) { !(s + "://" <= t) && !(t + "://" <= s) }

  /** The three characters after the shorter scheme are found in the longer one. */
  lemma HeadsMeet(s: string, h: string, t: string, g: string)
    requires s + "://" + h == t + "://" + g && |s| < |t|
    ensures s + "://" <= t
  {
    var x, n := s + "://" + h, |s|;
    assert x[n] == ':' && x[n + 1] == '/' && x[n + 2] == '/';
    assert x == t + "://" + g;
    assert x[|t|] == ':';
    assert (s + "://")[..] == x[..n + 3] == t[..n + 3];
  }

  lemma HeadsAgree(s: string, h: string, t: string, g: string)
    requires s + "://" + h == t + "://" + g && (s == t || Apart(s, t))
    ensures s == t && h == g
  {
    var x := s + "://" + h;
    if |s| < |t| {
      HeadsMeet(s, h, t, g);
    } else if |t| < |s| {
      HeadsMeet(t, g, s, h);
    } else {
      assert s == x[..|s|] && t == x[..|t|];
      assert h == x[|s| + 3..] && g == x[|t| + 3..];
    }
  }

  /** Among schemes of which none continues another, a key determines scheme, host and port, whatever the host. */
  lemma PoolKeyIsInjective(o: Origin, p: Origin)
    requires o.scheme == p.scheme || Apart(o.scheme, p.scheme)
    requires PoolKey(o) == PoolKey(p)
    ensures o == p
  {
    PoolKeyMeans(o, p);
    HeadsAgree(o.scheme, o.host, p.scheme, p.host);
  }

  /** A scheme and one that continues it: two origins with one key. */
  lemma ContinuedSchemeCollides(s: string, t: string)
    requires s + "://" <= t
    ensures PoolKey(Origin(s, t[|s| + 3..] + "://h", 1)) == PoolKey(Origin(t, "h", 1))
  {
    var o, p := Origin(s, t[|s| + 3..] + "://h", 1), Origin(t, "h", 1);
    assert t == s + "://" + t[|s| + 3..];
    assert Head(o) == Head(p);
    PoolKeyMeans(o, p);
  }

  /** Exactly when the keys of two schemes never coincide, for any hosts and ports. */
  lemma SchemesNeverCollideIff(s: string, t: string)
    requires s != t
    ensures (forall h, g, i, j :: PoolKey(Origin(s, h, i)) != PoolKey(Origin(t, g, j))) <==> Apart(s, t)
  {
    if s + "://" <= t {
      ContinuedSchemeCollides(s, t);
    } else if t + "://" <= s {
      ContinuedSchemeCollides(t, s);
    } else {
      forall h, g, i, j ensures PoolKey(Origin(s, h, i)) != PoolKey(Origin(t, g, j)) {
        if PoolKey(Origin(s, h, i)) == PoolKey(Origin(t, g, j)) {
          PoolKeyIsInjective(Origin(s, h, i), Origin(t, g, j));
        }
      }
    }
  }

  /** One key, two origins, and only one of them is secure. */
  lemma OtherSchemesCollide()
    ensures var o, p := Origin("https", "x://h", 1), Origin("https://x", "h", 1);
      o != p && PoolKey(o) == PoolKey(p)
  {
    assert "https" + "://" <= "https://x" && "https://x"[8..] == "x";
    ContinuedSchemeCollides("https", "https://x");
    assert "x" + "://h" == "x://h";
  }
}
