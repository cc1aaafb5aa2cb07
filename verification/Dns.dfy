/** The resolver's cache. */
module Dns {
  import opened Wrappers

  datatype Address = V4(bytes: string, port: nat) | V6(bytes: string, port: nat, scope: nat)

  predicate WellSized(a: Address) { |a.bytes| == if a.V4? then 4 else 16 }

  predicate AllWellSized(addresses: seq<Address>) { forall i :: 0 <= i < |addresses| ==> WellSized(addresses[i]) }

  datatype RecordType = A | Aaaa | Cname | Mx | Ns | Txt | Srv

  datatype Record = Record(
    kind: RecordType, name: string, data: string, ttl: int, expiry: int, priority: nat, port: nat)

  datatype CacheEntry = CacheEntry(records: seq<Record>, inserted: int, ttl: int)

  datatype Config = Config(port: nat, maxCacheSize: nat, ttl: int)

  // ----- records -----

  function Encode(a: Address, host: string, now: int, cfg: Config): Record {
    Record(if a.V4? then A else Aaaa, host, a.bytes, cfg.ttl, now + cfg.ttl, 0, cfg.port)
  }

  function EncodeAll(addresses: seq<Address>, host: string, now: int, cfg: Config): (r: seq<Record>)
    ensures |r| == |addresses| && forall i :: 0 <= i < |r| ==> r[i] == Encode(addresses[i], host, now, cfg)
  {
    if addresses == [] then [] else [Encode(addresses[0], host, now, cfg)] + EncodeAll(addresses[1..], host, now, cfg)
  }

  /** The addresses of the records that hold one; the configured port, no scope. */
  function DecodeAll(records: seq<Record>, port: nat): seq<Address> {
    if records == [] then []
    else
      var r, rest := records[0], DecodeAll(records[1..], port);
      if r.kind == A && |r.data| == 4 then [V4(r.data, port)] + rest
      else if r.kind == Aaaa && |r.data| == 16 then [V6(r.data, port, 0)] + rest
      else rest
  }

  /** What survives a stay in the cache. */
  function Cached(a: Address, port: nat): Address { if a.V4? then V4(a.bytes, port) else V6(a.bytes, port, 0) }

  function CachedAll(addresses: seq<Address>, port: nat): (r: seq<Address>)
    ensures |r| == |addresses| && forall i :: 0 <= i < |r| ==> r[i] == Cached(addresses[i], port)
  {
    if addresses == [] then [] else [Cached(addresses[0], port)] + CachedAll(addresses[1..], port)
  }

  /** Decoding inverts encoding up to port and scope: no address is lost, added or moved. */
  lemma {:induction false} RecordsRoundTrip(addresses: seq<Address>, host: string, now: int, cfg: Config)
    requires AllWellSized(addresses)
    ensures DecodeAll(EncodeAll(addresses, host, now, cfg), cfg.port) == CachedAll(addresses, cfg.port)
  {
    if addresses != [] {
      var tail := addresses[1..];
      assert forall i :: 0 <= i < |tail| ==> tail[i] == addresses[i + 1];
      RecordsRoundTrip(tail, host, now, cfg);
      assert EncodeAll(addresses, host, now, cfg)[1..] == EncodeAll(tail, host, now, cfg);
      assert WellSized(addresses[0]);
    }
  }

  // ----- the cache -----

  datatype Cache = Cache(entries: map<string, CacheEntry>, hits: nat, misses: nat, expired: nat)

  const EMPTY_CACHE: Cache := Cache(map[], 0, 0, 0)

  predicate Fresh(e: CacheEntry, now: int) { now < e.inserted + e.ttl }

  /** The first locked section of `resolve`: a hit, or room for a new lookup. */
  function Lookup(c: Cache, host: string, now: int, cfg: Config): (Cache, Option<seq<Address>>) {
    if host !in c.entries then (c, None)
    else if Fresh(c.entries[host], now) then
      (c.(hits := c.hits + 1), Some(DecodeAll(c.entries[host].records, cfg.port)))
    else (c.(entries := c.entries - {host}, expired := c.expired + 1), None)
  }

  /** An entry that no other is older than. */
  predicate Oldest(entries: map<string, CacheEntry>, victim: string) {
    victim in entries && forall h :: h in entries ==> entries[victim].inserted <= entries[h].inserted
  }

  function Evict(c: Cache, victim: string, cfg: Config): Cache {
    if |c.entries| <= cfg.maxCacheSize then c else c.(entries := c.entries - {victim})
  }

  function EntryFor(host: string, addresses: seq<Address>, now: int, cfg: Config): CacheEntry {
    CacheEntry(EncodeAll(addresses, host, now, cfg), now, cfg.ttl)
  }

  /** The second locked section: makes room if the cache is over its size, then stores. */
  function Store(c: Cache, host: string, addresses: seq<Address>, now: int, victim: string, cfg: Config): Cache {
    var room := Evict(c, victim, cfg);
    room.(entries := room.entries[host := EntryFor(host, addresses, now, cfg)])
  }

  class DnsResolver {
    var config: Config
    var cache: map<string, CacheEntry>
    var hits: nat
    var misses: nat
    var expired: nat

    ghost function State(): Cache
      reads this
    {
      Cache(cache, hits, misses, expired)
    }

    constructor (config: Config)
      ensures State() == EMPTY_CACHE && this.config == config
    {
      this.config := config;
      cache, hits, misses, expired := map[], 0, 0, 0;
    }

    method LookupCached(host: string, now: int) returns (hit: Option<seq<Address>>)
      modifies this`cache, this`hits, this`expired
      ensures (State(), hit) == Lookup(old(State()), host, now, config)
    {
      if host !in cache { return None; }
      var entry := cache[host];
      if now >= entry.inserted + entry.ttl {
        cache, expired := cache - {host}, expired + 1;
        return None;
      }
      hits := hits + 1;
      var addresses := DecodeRecords(entry.records, config.port);
      return Some(addresses);
    }

    static method DecodeRecords(records: seq<Record>, port: nat) returns (addresses: seq<Address>)
      ensures addresses == DecodeAll(records, port)
    {
      addresses := [];
      for i := 0 to |records|
        invariant DecodeAll(records, port) == addresses + DecodeAll(records[i..], port)
      {
        var r := records[i];
        assert records[i..][1..] == records[i + 1..];
        if r.kind == A && |r.data| == 4 {
          addresses := addresses + [V4(r.data, port)];
        } else if r.kind == Aaaa && |r.data| == 16 {
          addresses := addresses + [V6(r.data, port, 0)];
        }
      }
      assert addresses + [] == addresses;
    }

    /** Removes an oldest entry if the cache is over its size. */
    method EvictOldestIfNeeded() returns (ghost victim: string)
      modifies this`cache
      ensures State() == Evict(old(State()), victim, config)
      ensures |old(cache)| > config.maxCacheSize ==> Oldest(old(cache), victim)
    {
      if |cache| <= config.maxCacheSize { return ""; }
      var oldest :| oldest in cache;
      var left := cache.Keys - {oldest};
      while left != {}
        invariant oldest in cache && left <= cache.Keys
        invariant forall h :: h in cache && h !in left ==> cache[oldest].inserted <= cache[h].inserted
        decreases |left|
      {
        var h :| h in left;
        left := left - {h};
        if cache[h].inserted < cache[oldest].inserted { oldest := h; }
      }
      victim := oldest;
      cache := cache - {oldest};
    }

    method StoreResult(host: string, addresses: seq<Address>, now: int) returns (ghost victim: string)
      modifies this`cache
      ensures State() == Store(old(State()), host, addresses, now, victim, config)
      ensures |old(cache)| > config.maxCacheSize ==> Oldest(old(cache), victim)
    {
      victim := EvictOldestIfNeeded();
      var records := [];
      for i := 0 to |addresses|
        invariant records == EncodeAll(addresses[..i], host, now, config)
      {
        records := records + [Encode(addresses[i], host, now, config)];
      }
      assert addresses[..|addresses|] == addresses;
      cache := cache[host := CacheEntry(records, now, config.ttl)];
    }

    /** `answer` is what the system resolver says, should it be asked. */
    method Resolve(host: string, now: int, answer: seq<Address>, later: int)
      returns (r: Option<seq<Address>>, ghost victim: string)
      modifies this
      ensures config == old(config)
      ensures var (found, hit) := Lookup(old(State()), host, now, config);
        if hit.Some? then State() == found && r == hit
        else
          var missed := found.(misses := found.misses + 1);
          if answer == [] then State() == missed && r == None
          else State() == Store(missed, host, answer, later, victim, config) && r == Some(answer)
    {
      victim := "";
      r := LookupCached(host, now);
      if r.Some? { return; }
      misses := misses + 1;
      if answer == [] { return; }
      victim := StoreResult(host, answer, later);
      r := Some(answer);
    }
  }

  // ----- every interleaving -----

  /** The locked sections, in whatever order threads reach them. */
  datatype Op =
    | LookupOp(host: string, now: int)
    | StoreOp(host: string, addresses: seq<Address>, now: int, victim: string)
    | ClearOp

  predicate Legal(c: Cache, op: Op, cfg: Config) {
    match op
    case StoreOp(_, addresses, _, victim) =>
      AllWellSized(addresses) && (|c.entries| > cfg.maxCacheSize ==> Oldest(c.entries, victim))
    case _ => true
  }

  function Apply(c: Cache, op: Op, cfg: Config): Cache {
    match op
    case LookupOp(host, now) => Lookup(c, host, now, cfg).0
    case StoreOp(host, addresses, now, victim) => Store(c, host, addresses, now, victim, cfg)
    case ClearOp => c.(entries := map[])
  }

  function After(ops: seq<Op>, cfg: Config): Cache {
    if ops == [] then EMPTY_CACHE else Apply(After(ops[..|ops| - 1], cfg), ops[|ops| - 1], cfg)
  }

  predicate LegalRun(ops: seq<Op>, cfg: Config) {
    ops == [] || (LegalRun(ops[..|ops| - 1], cfg) && Legal(After(ops[..|ops| - 1], cfg), ops[|ops| - 1], cfg))
  }

  /** The last thing a run stored for a host. */
  function LastStore(ops: seq<Op>, host: string): Option<(seq<Address>, int)> {
    if ops == [] then None
    else
      var op := ops[|ops| - 1];
      if op.StoreOp? && op.host == host then Some((op.addresses, op.now)) else LastStore(ops[..|ops| - 1], host)
  }

  predicate AgreesAt(c: Cache, ops: seq<Op>, host: string, cfg: Config)
    requires host in c.entries
  {
    var last := LastStore(ops, host);
    last.Some? && AllWellSized(last.value.0) && c.entries[host] == EntryFor(host, last.value.0, last.value.1, cfg)
  }

  /** After any interleaving: at most one entry too many, and every entry is the last one stored. */
  lemma {:induction false} CacheInvariant(ops: seq<Op>, cfg: Config)
    requires LegalRun(ops, cfg)
    ensures |After(ops, cfg).entries| <= cfg.maxCacheSize + 1
    ensures forall host :: host in After(ops, cfg).entries ==> AgreesAt(After(ops, cfg), ops, host, cfg)
  {
    if ops != [] {
      var before, op := ops[..|ops| - 1], ops[|ops| - 1];
      var c := After(before, cfg);
      CacheInvariant(before, cfg);
      SizeStep(c, op, cfg);
      var d := After(ops, cfg);
      forall host | host in d.entries ensures AgreesAt(d, ops, host, cfg) {
        if !(op.StoreOp? && op.host == host) { assert AgreesAt(c, before, host, cfg); }
      }
    }
  }

  lemma SizeStep(c: Cache, op: Op, cfg: Config)
    requires |c.entries| <= cfg.maxCacheSize + 1 && Legal(c, op, cfg)
    ensures |Apply(c, op, cfg).entries| <= cfg.maxCacheSize + 1
  {
    match op
    case LookupOp(host, now) =>
      if host in c.entries { assert |c.entries - {host}| == |c.entries| - 1 by { RemoveOne(c.entries, host); } }
    case StoreOp(host, addresses, now, victim) =>
      if |c.entries| > cfg.maxCacheSize { RemoveOne(c.entries, victim); }
      AddOne(Evict(c, victim, cfg).entries, host, EntryFor(host, addresses, now, cfg));
    case ClearOp =>
  }

  lemma RemoveOne(m: map<string, CacheEntry>, k: string)
    requires k in m
    ensures |m - {k}| == |m| - 1
  {
    assert (m - {k}).Keys == m.Keys - {k};
    assert |m - {k}| == |(m - {k}).Keys| && |m| == |m.Keys|;
  }

  lemma AddOne(m: map<string, CacheEntry>, k: string, e: CacheEntry)
    ensures |m[k := e]| <= |m| + 1
  {
    assert m[k := e].Keys == m.Keys + {k};
    assert |m[k := e]| == |m[k := e].Keys| && |m| == |m.Keys|;
  }

  /** A hit, at any point of any interleaving, is fresh and returns the last stored addresses in order. */
  lemma HitsAreRight(ops: seq<Op>, host: string, now: int, cfg: Config)
    requires LegalRun(ops, cfg)
    requires Lookup(After(ops, cfg), host, now, cfg).1.Some?
    ensures LastStore(ops, host).Some?
    ensures var (addresses, inserted) := LastStore(ops, host).value;
      && now < inserted + cfg.ttl
      && Lookup(After(ops, cfg), host, now, cfg).1.value == CachedAll(addresses, cfg.port)
  {
    CacheInvariant(ops, cfg);
    assert AgreesAt(After(ops, cfg), ops, host, cfg);
    var (addresses, inserted) := LastStore(ops, host).value;
    RecordsRoundTrip(addresses, host, inserted, cfg);
  }

  // ----- one section at a time -----

  /** A lookup hits exactly when there is an entry whose time is not over; a stale entry goes. */
  lemma LookupIff(c: Cache, host: string, now: int, cfg: Config)
    ensures var (d, hit) := Lookup(c, host, now, cfg);
      && (hit.Some? <==> host in c.entries && now < c.entries[host].inserted + c.entries[host].ttl)
      && d.hits == c.hits + (if hit.Some? then 1 else 0) && d.misses == c.misses
      && d.expired == c.expired + (if host in c.entries && hit.None? then 1 else 0)
      && forall h :: (h in d.entries <==> h in c.entries && (h == host ==> hit.Some?))
                     && (h in d.entries ==> d.entries[h] == c.entries[h])
  {
  }

  /** What has been stored is found until its time to live is over, with the addresses it was stored with. */
  lemma StoredIsFound(c: Cache, host: string, addresses: seq<Address>, now: int, victim: string, cfg: Config,
                      later: int)
    requires AllWellSized(addresses)
    ensures Lookup(Store(c, host, addresses, now, victim, cfg), host, later, cfg).1
      == if later < now + cfg.ttl then Some(CachedAll(addresses, cfg.port)) else None
  {
    RecordsRoundTrip(addresses, host, now, cfg);
  }

  /** Storing drops the victim if the cache holds more than its size, and no other entry in any case. */
  lemma StoreIsExact(c: Cache, host: string, addresses: seq<Address>, now: int, victim: string, cfg: Config,
                     other: string)
    requires other != host
    ensures var d := Store(c, host, addresses, now, victim, cfg);
      && host in d.entries && d.hits == c.hits && d.misses == c.misses && d.expired == c.expired
      && (other in d.entries <==> other in c.entries && !(|c.entries| > cfg.maxCacheSize && other == victim))
      && (other in d.entries ==> d.entries[other] == c.entries[other])
  {
  }
}
