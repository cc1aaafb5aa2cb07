/** Which connections stay in the pool: after one exchange, and after a whole call. */
module PoolRemains {
  import opened Wrappers
  import opened Headers
  import opened Requests
  import opened EndToEnd
  import opened ClientSpec
  import opened ClientProofs
  import opened Replies

  predicate Uses(a: Attempt, key: string) { PoolKey(OriginOf(a.request)) == key }

  /** The attempt was answered, and the answer keeps the connection or gets into the redirect code. */
  ghost predicate LeavesEntry(cfg: Config, a: Attempt, remaining: nat) {
    && a.reply.Some?
    && (KeepsAlive(a.reply.value.fields)
        || (300 <= a.reply.value.status <= 399 && cfg.followRedirects && remaining > 0))
  }

  /**
   What one exchange leaves under its key: a failed one nothing; an answered one its connection,
   unless the peer closes and the answer does not get into the redirect code.
   */
  lemma EntryLeftIff(c: Client, cfg: Config, r: Request, remaining: nat, net: Net)
    ensures var x := Exchange(c, cfg, r, remaining, net);
      && x.attempt.request == r
      && (PoolKey(OriginOf(r)) in x.client.pool <==> LeavesEntry(cfg, x.attempt, remaining))
      && (PoolKey(OriginOf(r)) in x.client.pool ==> x.client.pool[PoolKey(OriginOf(r))].lastActive == net.later)
  {
  }

  /** Under any other key the exchange only clears away what has been idle for too long. */
  lemma OtherEntriesStay(c: Client, cfg: Config, r: Request, remaining: nat, net: Net, key: string)
    requires key != PoolKey(OriginOf(r))
    ensures var x := Exchange(c, cfg, r, remaining, net);
      && (key in x.client.pool <==> key in c.pool && net.now - c.pool[key].lastActive <= cfg.idleTimeout)
      && (key in x.client.pool ==> x.client.pool[key] == c.pool[key])
  {
    var x, cleaned := Exchange(c, cfg, r, remaining, net), CleanupIdle(c.pool, net.now, cfg.idleTimeout);
    ExchangeTouchesOneKey(c, cfg, r, remaining, net, key);
    assert key in cleaned <==> key in c.pool && net.now - c.pool[key].lastActive <= cfg.idleTimeout;
  }

  predicate SameUnder(key: string, a: map<string, PoolEntry>, b: map<string, PoolEntry>) {
    (key in a <==> key in b) && (key in a ==> a[key] == b[key])
  }

  lemma AcquireTouchesOneKey(pool: map<string, PoolEntry>, o: Origin, net: Net, key: string)
    requires key != PoolKey(o)
    ensures SameUnder(key, Acquire(pool, o, net).0, pool)
  {
  }

  lemma ExchangeTouchesOneKey(c: Client, cfg: Config, r: Request, remaining: nat, net: Net, key: string)
    requires key != PoolKey(OriginOf(r))
    ensures SameUnder(key, Exchange(c, cfg, r, remaining, net).client.pool,
                      CleanupIdle(c.pool, net.now, cfg.idleTimeout))
  {
    var o, cleaned := OriginOf(r), CleanupIdle(c.pool, net.now, cfg.idleTimeout);
    var pool := Acquire(cleaned, o, net).0;
    AcquireTouchesOneKey(cleaned, o, net, key);
    assert SameUnder(key, Exchange(c, cfg, r, remaining, net).client.pool, pool);
  }

  // When the k-th exchange of a chain cleans up, and when it ends.

  function CleanupTime(net: Server, a: Attempt, k: nat): int { net(k, a.request).now }

  function EndTime(net: Server, a: Attempt, k: nat): int { net(k, a.request).later }

  /** What the k-th attempt of a chain does to the entry under `key`. */
  ghost predicate Touched(cfg: Config, net: Server, x: Attempt, k: nat, remaining: nat,
                          pool: map<string, PoolEntry>, next: map<string, PoolEntry>, key: string) {
    if Uses(x, key) then
      && (key in next <==> LeavesEntry(cfg, x, remaining))
      && (key in next ==> next[key].lastActive == EndTime(net, x, k))
    else
      && (key in next <==> key in pool && CleanupTime(net, x, k) - pool[key].lastActive <= cfg.idleTimeout)
      && (key in next ==> next[key] == pool[key])
  }

  /** A connection last active at `t` outlives the clean-ups of the attempts from `from` on. */
  predicate Outlives(cfg: Config, net: Server, attempts: seq<Attempt>, k: nat, from: nat, t: int) {
    forall j :: from <= j < |attempts| ==> CleanupTime(net, attempts[j], k + j) - t <= cfg.idleTimeout
  }

  predicate LastUse(attempts: seq<Attempt>, key: string, i: nat) {
    && i < |attempts| && Uses(attempts[i], key)
    && forall j :: i < j < |attempts| ==> !Uses(attempts[j], key)
  }

  predicate Unused(attempts: seq<Attempt>, key: string) {
    forall j :: 0 <= j < |attempts| ==> !Uses(attempts[j], key)
  }

  /** The i-th attempt is the last to use the key, leaves a connection there, and it is not cleared away. */
  ghost predicate LeftByLast(cfg: Config, net: Server, attempts: seq<Attempt>, k: nat, remaining: nat,
                             key: string, i: nat) {
    && LastUse(attempts, key, i) && i <= remaining && LeavesEntry(cfg, attempts[i], remaining - i)
    && Outlives(cfg, net, attempts, k, i + 1, EndTime(net, attempts[i], k + i))
  }

  /** No attempt uses the key, and what was there before is not cleared away. */
  predicate LeftFromBefore(cfg: Config, net: Server, attempts: seq<Attempt>, k: nat,
                           pool: map<string, PoolEntry>, key: string) {
    Unused(attempts, key) && key in pool && Outlives(cfg, net, attempts, k, 0, pool[key].lastActive)
  }

  ghost predicate SomeLeaves(cfg: Config, net: Server, attempts: seq<Attempt>, k: nat, remaining: nat, key: string) {
    exists i :: LeftByLast(cfg, net, attempts, k, remaining, key, i)
  }

  ghost predicate Stays(cfg: Config, net: Server, attempts: seq<Attempt>, k: nat, remaining: nat,
                        pool: map<string, PoolEntry>, key: string) {
    || SomeLeaves(cfg, net, attempts, k, remaining, key)
    || LeftFromBefore(cfg, net, attempts, k, pool, key)
  }

  lemma OutlivesCons(cfg: Config, net: Server, x: Attempt, rest: seq<Attempt>, k: nat, from: nat, t: int)
    ensures Outlives(cfg, net, [x] + rest, k, from + 1, t) <==> Outlives(cfg, net, rest, k + 1, from, t)
    ensures Outlives(cfg, net, [x] + rest, k, 0, t)
      <==> CleanupTime(net, x, k) - t <= cfg.idleTimeout && Outlives(cfg, net, rest, k + 1, 0, t)
  {
    var all := [x] + rest;
    if Outlives(cfg, net, all, k, from + 1, t) {
      forall j | from <= j < |rest| ensures CleanupTime(net, rest[j], k + 1 + j) - t <= cfg.idleTimeout {
        assert all[j + 1] == rest[j];
      }
    }
    if Outlives(cfg, net, all, k, 0, t) {
      assert all[0] == x;
      forall j | 0 <= j < |rest| ensures CleanupTime(net, rest[j], k + 1 + j) - t <= cfg.idleTimeout {
        assert all[j + 1] == rest[j];
      }
    }
    assert forall j :: 0 < j < |all| ==> all[j] == rest[j - 1];
  }

  lemma LastUseCons(x: Attempt, rest: seq<Attempt>, key: string, i: nat)
    ensures LastUse([x] + rest, key, i + 1) <==> LastUse(rest, key, i)
    ensures LastUse([x] + rest, key, 0) <==> Uses(x, key) && Unused(rest, key)
    ensures Unused([x] + rest, key) <==> !Uses(x, key) && Unused(rest, key)
  {
    var all := [x] + rest;
    assert forall j :: 0 <= j < |rest| ==> all[j + 1] == rest[j];
    assert forall j :: 0 < j < |all| ==> all[j] == rest[j - 1];
  }

  lemma LeftByLastCons(cfg: Config, net: Server, x: Attempt, rest: seq<Attempt>, k: nat,
                       remaining: nat, key: string, i: nat)
    requires remaining > 0
    ensures LeftByLast(cfg, net, [x] + rest, k, remaining, key, i + 1)
      <==> LeftByLast(cfg, net, rest, k + 1, remaining - 1, key, i)
  {
    LastUseCons(x, rest, key, i);
    if i < |rest| {
      assert ([x] + rest)[i + 1] == rest[i];
      OutlivesCons(cfg, net, x, rest, k, i + 1, EndTime(net, rest[i], k + 1 + i));
    }
  }

  /** The entry under `key` after the first attempt, seen from the rest of the chain. */
  lemma StaysCons(cfg: Config, net: Server, x: Attempt, rest: seq<Attempt>, k: nat, remaining: nat,
                  pool: map<string, PoolEntry>, next: map<string, PoolEntry>, key: string)
    requires remaining > 0
    requires Touched(cfg, net, x, k, remaining, pool, next, key)
    ensures Stays(cfg, net, [x] + rest, k, remaining, pool, key)
      <==> Stays(cfg, net, rest, k + 1, remaining - 1, next, key)
  {
    FirstLeaves(cfg, net, x, rest, k, remaining, pool, next, key);
    SomeLeavesCons(cfg, net, x, rest, k, remaining, key);
  }

  lemma SomeLeavesCons(cfg: Config, net: Server, x: Attempt, rest: seq<Attempt>, k: nat, remaining: nat, key: string)
    requires remaining > 0
    ensures SomeLeaves(cfg, net, [x] + rest, k, remaining, key)
      <==> LeftByLast(cfg, net, [x] + rest, k, remaining, key, 0)
           || SomeLeaves(cfg, net, rest, k + 1, remaining - 1, key)
  {
    if SomeLeaves(cfg, net, [x] + rest, k, remaining, key) {
      var i: nat :| LeftByLast(cfg, net, [x] + rest, k, remaining, key, i);
      if i > 0 { LeftByLastCons(cfg, net, x, rest, k, remaining, key, i - 1); }
    }
    if SomeLeaves(cfg, net, rest, k + 1, remaining - 1, key) {
      var k', less := k + 1, remaining - 1;
      var i: nat :| LeftByLast(cfg, net, rest, k', less, key, i);
      LeftByLastCons(cfg, net, x, rest, k, remaining, key, i);
    }
  }

  lemma FirstLeaves(cfg: Config, net: Server, x: Attempt, rest: seq<Attempt>, k: nat, remaining: nat,
                    pool: map<string, PoolEntry>, next: map<string, PoolEntry>, key: string)
    requires Touched(cfg, net, x, k, remaining, pool, next, key)
    ensures LeftByLast(cfg, net, [x] + rest, k, remaining, key, 0) || LeftFromBefore(cfg, net, [x] + rest, k, pool, key)
      <==> LeftFromBefore(cfg, net, rest, k + 1, next, key)
  {
    LastUseCons(x, rest, key, 0);
    assert ([x] + rest)[0] == x;
    OutlivesCons(cfg, net, x, rest, k, 0, EndTime(net, x, k));
    if key in pool { OutlivesCons(cfg, net, x, rest, k, 0, pool[key].lastActive); }
  }

  lemma StaysAlone(cfg: Config, net: Server, x: Attempt, k: nat, remaining: nat,
                   pool: map<string, PoolEntry>, next: map<string, PoolEntry>, key: string)
    requires Touched(cfg, net, x, k, remaining, pool, next, key)
    ensures Stays(cfg, net, [x], k, remaining, pool, key) <==> key in next
  {
    var all := [x];
    assert Uses(x, key) && LeavesEntry(cfg, x, remaining) ==> LeftByLast(cfg, net, all, k, remaining, key, 0);
    if i: nat :| LeftByLast(cfg, net, all, k, remaining, key, i) { assert i == 0; }
    if LeftFromBefore(cfg, net, all, k, pool, key) { assert !Uses(all[0], key); }
  }

  /** A step of a chain that does to the entry under `key` what an exchange does. */
  ghost predicate StepTouches(cfg: Config, net: Server, step: Stepper, c: Client, req: Request,
                              remaining: nat, k: nat, key: string) {
    var x := step(c, req, remaining, k);
    Touched(cfg, net, x.attempt, k, remaining, c.pool, x.client.pool, key) && (x.verdict.Follow? ==> remaining > 0)
  }

  ghost predicate StepsTouch(cfg: Config, net: Server, step: Stepper, key: string) {
    forall c: Client, req: Request, remaining: nat, k: nat ::
      StepTouches(cfg, net, step, c, req, remaining, k, key)
  }

  lemma ServerTouches(cfg: Config, net: Server, key: string)
    ensures StepsTouch(cfg, net, Steps(cfg, net), key)
  {
    forall c: Client, req: Request, remaining: nat, k: nat
      ensures StepTouches(cfg, net, Steps(cfg, net), c, req, remaining, k, key)
    {
      var r := ApplyDefaults(cfg, c.jar, req);
      EntryLeftIff(c, cfg, r, remaining, net(k, r));
      ExchangeFollows(c, cfg, r, remaining, net(k, r));
      if key != PoolKey(OriginOf(r)) { OtherEntriesStay(c, cfg, r, remaining, net(k, r), key); }
      assert Steps(cfg, net)(c, req, remaining, k) == Exchange(c, cfg, r, remaining, net(k, r));
    }
  }

  lemma {:induction false} ChainLeaves(cfg: Config, net: Server, step: Stepper, c: Client, req: Request,
                                       remaining: nat, k: nat, key: string)
    requires StepsTouch(cfg, net, step, key)
    ensures var run := Chain(step, c, req, remaining, k);
      key in run.client.pool <==> Stays(cfg, net, run.attempts, k, remaining, c.pool, key)
    decreases remaining
  {
    var x := step(c, req, remaining, k);
    assert StepTouches(cfg, net, step, c, req, remaining, k, key);
    if x.verdict.Follow? {
      var rest := Chain(step, x.client, x.verdict.request, remaining - 1, k + 1);
      ChainLeaves(cfg, net, step, x.client, x.verdict.request, remaining - 1, k + 1, key);
      StaysCons(cfg, net, x.attempt, rest.attempts, k, remaining, c.pool, x.client.pool, key);
    } else {
      StaysAlone(cfg, net, x.attempt, k, remaining, c.pool, x.client.pool, key);
    }
  }

  /**
   Which connections a whole call leaves in the pool. Under a key that it used: the last attempt to
   use it was answered, and kept the connection or got into the redirect code, and no later clean-up
   found it idle. Under any other key: there was one before, and no clean-up found it idle.
   */
  lemma PoolAfterCallIff(c: Client, cfg: Config, req: Request, net: Server, key: string)
    ensures var run := Execute(c, cfg, req, net);
      key in run.client.pool <==> Stays(cfg, net, run.attempts, 0, cfg.maxRedirects, c.pool, key)
  {
    ServerTouches(cfg, net, key);
    ChainLeaves(cfg, net, Steps(cfg, net), c, req, cfg.maxRedirects, 0, key);
  }

  /** A redirect that announces the end of the connection, which stays in the pool all the same. */
  lemma EntryLeftExample(c: Client, cfg: Config, r: Request, remaining: nat)
    requires cfg.followRedirects && remaining > 0
    ensures var x := Exchange(c, cfg, r, remaining, Obliging(r, Print(CLOSING_REDIRECT)));
      && x.attempt.reply == Some(CLOSING_REDIRECT) && !KeepsAlive(CLOSING_REDIRECT.fields)
      && PoolKey(OriginOf(r)) in x.client.pool
  {
    ClosingRedirectIsSized();
    ClosingRedirectCloses();
    AnsweredExchange(c, cfg, r, remaining, CLOSING_REDIRECT);
    EntryLeftIff(c, cfg, r, remaining, Obliging(r, Print(CLOSING_REDIRECT)));
  }
}
