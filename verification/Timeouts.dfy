/** The timeout manager and the loop together: what every operation keeps, over every run. */
module Timeouts {
  import opened TimerSpec
  import opened LoopTimers

  // ----- keys -----

  /** Distinct (handle, kind) pairs never share a key, negative handles included. */
  lemma MakeKeyIsInjective(h: Handle, k: Kind, h': Handle, k': Kind)
    requires MakeKey(h, k) == MakeKey(h', k')
    ensures h == h' && k == k'
  {
    KeyMeans(h, k);
    KeyMeans(h', k');
    assert KindNumber(k) < 4 && KindNumber(k') < 4;
    assert KindNumber(k) == KindNumber(k') ==> k == k';
  }

  /** The key of a negative handle is ten times the handle plus the kind, two words up. */
  lemma KeyMeans(h: Handle, k: Kind)
    ensures h >= 0 ==> MakeKey(h, k) == h as int * 10 + KindNumber(k)
    ensures h < 0 ==> MakeKey(h, k) == WORD + h as int * 10 + KindNumber(k)
  {
    if h < 0 {
      var v := WORD + h as int;
      assert h as int % WORD == v;
      assert v * 10 == 9 * WORD + (WORD + h as int * 10);
      ModuloRemovesMultiples(9, WORD + h as int * 10);
    }
  }

  lemma ModuloRemovesMultiples(n: nat, r: nat)
    requires r < WORD
    ensures (n * WORD + r) % WORD == r
  {
  }

  // ----- the invariant -----

  predicate KeyOk(s: System, k: Key)
    requires k in s.entries
  {
    k == MakeKey(s.entries[k].handle, s.entries[k].kind)
  }

  /** An active entry's timer is in the list, live, and will call back for that entry. */
  predicate Backed(s: System, k: Key, firing: int)
    requires k in s.entries
  {
    s.entries[k].active ==>
      var e := s.entries[k];
      var i := IndexOf(s.loop.timers, e.timer);
      && i < |s.loop.timers| && i != firing && !s.loop.timers[i].cancelled
      && s.loop.timers[i].callback == Managed(e.handle, e.kind)
  }

  /** A live timer of the manager belongs to the active entry of its handle and kind. */
  predicate Fronted(s: System, i: nat)
    requires i < |s.loop.timers|
  {
    var t := s.loop.timers[i];
    !t.cancelled && t.callback.Managed? ==>
      var key := MakeKey(t.callback.handle, t.callback.kind);
      IsActive(s, key) && s.entries[key].timer == t.id
  }

  predicate OneShot(s: System, i: nat)
    requires i < |s.loop.timers|
  {
    s.loop.timers[i].callback.Managed? ==> s.attached && !s.loop.timers[i].repeating
  }

  function ActiveIds(s: System): set<nat> {
    set k | k in ActiveKeys(s.entries) :: s.entries[k].timer
  }

  /** Successful starts are fired, cancelled or still active. */
  predicate Conserved(s: System) {
    s.fates.starts == s.stats.fired + s.stats.cancelled + |ActiveKeys(s.entries)|
  }

  /** Every started timeout is exactly one of: called back, cancelled, active. */
  predicate Partition(f: Fates, active: set<nat>) {
    && f.started == f.ran + f.dropped + active
    && f.ran !! f.dropped && f.ran !! active && f.dropped !! active
  }

  predicate Partitioned(s: System) {
    && Partition(s.fates, ActiveIds(s))
    && |s.fates.ran| == s.stats.fired && |s.fates.dropped| == s.stats.cancelled
    && forall id :: id in s.fates.started ==> id < s.loop.nextId
  }

  /** The timer whose callback is running no longer has an active entry. */
  predicate FiringDone(s: System, firing: int) {
    0 <= firing < |s.loop.timers| && s.loop.timers[firing].callback.Managed? ==>
      !IsActive(s, MakeKey(s.loop.timers[firing].callback.handle, s.loop.timers[firing].callback.kind))
  }

  /** How entries and timers point at each other. */
  ghost predicate Links(s: System, firing: int) {
    && (forall k :: k in s.entries ==> KeyOk(s, k))
    && (s.attached ==> forall k :: k in s.entries ==> Backed(s, k, firing))
    && (forall i :: 0 <= i < |s.loop.timers| && i != firing ==> Fronted(s, i))
    && (forall i :: 0 <= i < |s.loop.timers| ==> OneShot(s, i))
    && FiringDone(s, firing)
  }

  /** The counts and sets of starts and their fates. */
  predicate Ledger(s: System) {
    Conserved(s) && (s.attached ==> Partitioned(s))
  }

  ghost predicate MgrInv(s: System, firing: int) { Links(s, firing) && Ledger(s) }

  predicate Counted(s: System) { s.stats.active == |ActiveKeys(s.entries)| }

  ghost predicate Inv(s: System) { LoopInv(s.loop, -1) && MgrInv(s, -1) && Counted(s) }

  // ----- lists with the same ids -----

  lemma SameIndex(a: seq<Timer>, b: seq<Timer>, id: nat)
    requires |a| == |b| && forall i :: 0 <= i < |a| ==> a[i].id == b[i].id
    ensures IndexOf(a, id) == IndexOf(b, id)
  {
  }

  /** Distinct active entries have distinct timers. */
  lemma TimersAreDistinct(s: System, k: Key, k': Key, firing: int)
    requires k in s.entries && KeyOk(s, k) && Backed(s, k, firing) && s.entries[k].active
    requires k' in s.entries && KeyOk(s, k') && Backed(s, k', firing) && s.entries[k'].active
    requires s.entries[k].timer == s.entries[k'].timer
    ensures k == k'
  {
  }

  // ----- steps that leave the entries alone -----

  /** Nothing that is counted differs; only later ids may have been given out. */
  predicate SameBooks(s: System, t: System) {
    && t.entries == s.entries && t.attached == s.attached && t.fates == s.fates
    && t.stats.fired == s.stats.fired && t.stats.cancelled == s.stats.cancelled && t.loop.nextId >= s.loop.nextId
  }

  lemma SameLedger(s: System, t: System)
    requires Ledger(s) && SameBooks(s, t)
    ensures Ledger(t)
  {
    assert ActiveIds(t) == ActiveIds(s);
  }

  lemma SameLinks(s: System, t: System, firing: int)
    requires Links(s, firing) && SameBooks(s, t) && t.loop.timers == s.loop.timers
    ensures Links(t, firing)
  {
    forall k | k in t.entries ensures KeyOk(t, k) { assert KeyOk(s, k); }
    if s.attached {
      forall k | k in t.entries ensures Backed(t, k, firing) { assert Backed(s, k, firing); }
    }
    forall j | 0 <= j < |t.loop.timers| && j != firing ensures Fronted(t, j) { assert Fronted(s, j); }
    forall j | 0 <= j < |t.loop.timers| ensures OneShot(t, j) { assert OneShot(s, j); }
  }

  // ----- deactivating one entry -----

  lemma DropActiveKeys(s: System, key: Key, t: System)
    requires IsActive(s, key) && t.entries == s.entries[key := s.entries[key].(active := false)]
    ensures ActiveKeys(t.entries) == ActiveKeys(s.entries) - {key}
    ensures |ActiveKeys(t.entries)| + 1 == |ActiveKeys(s.entries)|
  {
    assert key in ActiveKeys(s.entries);
  }

  lemma DropActiveIds(s: System, key: Key, firing: int, t: System)
    requires IsActive(s, key) && t.entries == s.entries[key := s.entries[key].(active := false)]
    requires s.attached && Links(s, firing)
    ensures ActiveIds(t) == ActiveIds(s) - {s.entries[key].timer} && s.entries[key].timer in ActiveIds(s)
  {
    var id := s.entries[key].timer;
    DropActiveKeys(s, key, t);
    assert key in ActiveKeys(s.entries);
    forall k | k in ActiveKeys(s.entries) && k != key ensures s.entries[k].timer != id {
      if s.entries[k].timer == id {
        assert KeyOk(s, k) && Backed(s, k, firing) && KeyOk(s, key) && Backed(s, key, firing);
        TimersAreDistinct(s, k, key, firing);
      }
    }
    forall other | other in ActiveIds(s) - {id} ensures other in ActiveIds(t) {
      var k :| k in ActiveKeys(s.entries) && s.entries[k].timer == other;
      assert k in ActiveKeys(t.entries) && t.entries[k].timer == other;
    }
    forall other | other in ActiveIds(t) ensures other in ActiveIds(s) - {id} {
      var k :| k in ActiveKeys(t.entries) && t.entries[k].timer == other;
      assert k in ActiveKeys(s.entries) && s.entries[k].timer == other;
    }
  }

  lemma DeactivateBacked(s: System, key: Key, k: Key, firing: int)
    requires s.attached && IdsOk(s.loop) && IsActive(s, key) && KeyOk(s, key) && Backed(s, key, firing)
    requires k in s.entries && KeyOk(s, k) && Backed(s, k, firing)
    ensures Backed(Deactivate(s, key), k, firing)
  {
    var e, t := s.entries[key], Deactivate(s, key);
    var i := IndexOf(s.loop.timers, e.timer);
    assert AsBorn(s.loop, i);
    assert t.loop.timers == s.loop.timers[i := s.loop.timers[i].(cancelled := true)];
    if t.entries[k].active { SameIndex(s.loop.timers, t.loop.timers, t.entries[k].timer); }
  }

  lemma DeactivateFronted(s: System, key: Key, j: nat, firing: int)
    requires IdsOk(s.loop) && IsActive(s, key) && (s.attached ==> Backed(s, key, firing))
    requires j < |s.loop.timers| && OneShot(s, j) && (j != firing ==> Fronted(s, j))
    ensures var t := Deactivate(s, key);
      |t.loop.timers| == |s.loop.timers| && OneShot(t, j) && (j != firing ==> Fronted(t, j))
  {
    var e, t := s.entries[key], Deactivate(s, key);
    if s.attached {
      var i := IndexOf(s.loop.timers, e.timer);
      assert AsBorn(s.loop, i);
      IndexOfId(s.loop, j);
    }
  }

  lemma DeactivateLinks(s: System, key: Key, firing: int)
    requires IdsOk(s.loop) && Links(s, firing) && IsActive(s, key)
    ensures Links(Deactivate(s, key), firing)
  {
    var t := Deactivate(s, key);
    assert KeyOk(s, key);
    if s.attached {
      assert Backed(s, key, firing);
      forall k | k in t.entries ensures Backed(t, k, firing) {
        assert KeyOk(s, k) && Backed(s, k, firing);
        DeactivateBacked(s, key, k, firing);
      }
    }
    forall k | k in t.entries ensures KeyOk(t, k) { assert KeyOk(s, k); }
    forall j | 0 <= j < |t.loop.timers| ensures OneShot(t, j) && (j != firing ==> Fronted(t, j)) {
      assert OneShot(s, j) && (j != firing ==> Fronted(s, j));
      DeactivateFronted(s, key, j, firing);
    }
  }

  lemma PartitionDrops(f: Fates, active: set<nat>, id: nat)
    requires Partition(f, active) && id in active
    ensures Partition(f.(dropped := f.dropped + {id}), active - {id}) && |f.dropped + {id}| == |f.dropped| + 1
  {
  }

  lemma PartitionRuns(f: Fates, active: set<nat>, id: nat)
    requires Partition(f, active) && id in active
    ensures Partition(f.(ran := f.ran + {id}), active - {id}) && |f.ran + {id}| == |f.ran| + 1
  {
  }

  lemma PartitionStarts(f: Fates, active: set<nat>, id: nat)
    requires Partition(f, active) && id !in f.started
    ensures Partition(f.(starts := f.starts + 1, started := f.started + {id}), active + {id})
  {
  }

  lemma DeactivateLedger(s: System, key: Key, firing: int)
    requires Links(s, firing) && Ledger(s) && IsActive(s, key)
    ensures Ledger(Deactivate(s, key))
  {
    var t := Deactivate(s, key);
    DropActiveKeys(s, key, t);
    if s.attached {
      var id := s.entries[key].timer;
      DropActiveIds(s, key, firing, t);
      PartitionDrops(s.fates, ActiveIds(s), id);
    }
  }

  lemma DeactivateKeeps(s: System, key: Key, firing: int)
    requires LoopInv(s.loop, firing) && MgrInv(s, firing) && IsActive(s, key)
    ensures LoopInv(Deactivate(s, key).loop, firing) && MgrInv(Deactivate(s, key), firing)
  {
    CancelKeeps(s.loop, s.entries[key].timer, firing);
    DeactivateLinks(s, key, firing);
    DeactivateLedger(s, key, firing);
  }

  /** Counting again makes the reported count the true one, and changes nothing else. */
  lemma RecountKeeps(s: System, firing: int)
    requires MgrInv(s, firing)
    ensures MgrInv(Recount(s), firing) && Counted(Recount(s))
  {
    SameLinks(s, Recount(s), firing);
    SameLedger(s, Recount(s));
  }

  lemma CancelTimeoutKeeps(s: System, h: Handle, k: Kind, firing: int)
    requires LoopInv(s.loop, firing) && MgrInv(s, firing) && Counted(s)
    ensures var t := CancelTimeout(s, h, k); LoopInv(t.loop, firing) && MgrInv(t, firing) && Counted(t)
  {
    var key := MakeKey(h, k);
    if IsActive(s, key) {
      DeactivateKeeps(s, key, firing);
      RecountKeeps(Deactivate(s, key), firing);
    }
  }

  lemma {:induction false} CancelEachInv(s: System, h: Handle, order: seq<Key>, firing: int)
    requires LoopInv(s.loop, firing) && MgrInv(s, firing)
    ensures var t := CancelEach(s, h, order); LoopInv(t.loop, firing) && MgrInv(t, firing)
    decreases |order|
  {
    if order != [] {
      if IsActive(s, order[0]) && s.entries[order[0]].handle == h { DeactivateKeeps(s, order[0], firing); }
      CancelEachInv(CancelIfOf(s, h, order[0]), h, order[1..], firing);
    }
  }

  lemma CancelAllKeeps(s: System, h: Handle, order: seq<Key>, firing: int)
    requires LoopInv(s.loop, firing) && MgrInv(s, firing)
    ensures var t := CancelAll(s, h, order); LoopInv(t.loop, firing) && MgrInv(t, firing) && Counted(t)
  {
    CancelEachInv(s, h, order, firing);
    RecountKeeps(CancelEach(s, h, order), firing);
  }

  // ----- starting -----

  lemma IndexAfterAppend(timers: seq<Timer>, t: Timer, id: nat)
    ensures IndexOf(timers, id) < |timers| ==> IndexOf(timers + [t], id) == IndexOf(timers, id)
    ensures IndexOf(timers, id) == |timers| && t.id == id ==> IndexOf(timers + [t], id) == |timers|
  {
    var all := timers + [t];
    assert forall i :: 0 <= i < |timers| ==> all[i] == timers[i];
    assert all[|timers|] == t;
  }

  lemma InstallKeys(s: System, key: Key, e: Entry, t: System)
    requires !IsActive(s, key) && e.active && t.entries == s.entries[key := e]
    ensures ActiveKeys(t.entries) == ActiveKeys(s.entries) + {key}
    ensures |ActiveKeys(t.entries)| == |ActiveKeys(s.entries)| + 1
  {
    assert key !in ActiveKeys(s.entries);
  }

  lemma InstallIds(s: System, key: Key, e: Entry, t: System)
    requires !IsActive(s, key) && e.active && t.entries == s.entries[key := e]
    ensures ActiveIds(t) == ActiveIds(s) + {e.timer}
  {
    InstallKeys(s, key, e, t);
    forall id | id in ActiveIds(s) ensures id in ActiveIds(t) {
      var k :| k in ActiveKeys(s.entries) && s.entries[k].timer == id;
      assert k in ActiveKeys(t.entries) && t.entries[k].timer == id;
    }
    assert key in ActiveKeys(t.entries) && t.entries[key].timer == e.timer;
    forall id | id in ActiveIds(t) ensures id in ActiveIds(s) + {e.timer} {
      var k :| k in ActiveKeys(t.entries) && t.entries[k].timer == id;
      assert k != key ==> k in ActiveKeys(s.entries) && s.entries[k].timer == id;
    }
  }

  lemma InstallBacked(s: System, h: Handle, k: Kind, duration: int, now: int, key: Key)
    requires s.attached && LoopInv(s.loop, -1) && key in Install(s, h, k, duration, now).entries
    requires key in s.entries ==> Backed(s, key, -1)
    ensures Backed(Install(s, h, k, duration, now), key, -1)
  {
    var t, n := Install(s, h, k, duration, now), |s.loop.timers|;
    forall i | 0 <= i < n ensures s.loop.timers[i].id < s.loop.nextId { assert AsBorn(s.loop, i); }
    IndexAfterAppend(s.loop.timers, t.loop.timers[n], t.entries[key].timer);
  }

  lemma InstallFronted(s: System, h: Handle, k: Kind, duration: int, now: int, j: nat)
    requires !IsActive(s, MakeKey(h, k)) && j < |Install(s, h, k, duration, now).loop.timers|
    requires j < |s.loop.timers| ==> Fronted(s, j) && OneShot(s, j)
    ensures var t := Install(s, h, k, duration, now); Fronted(t, j) && OneShot(t, j)
  {
  }

  lemma InstallLinks(s: System, h: Handle, k: Kind, duration: int, now: int)
    requires LoopInv(s.loop, -1) && Links(s, -1) && !IsActive(s, MakeKey(h, k))
    ensures Links(Install(s, h, k, duration, now), -1)
  {
    var t, key := Install(s, h, k, duration, now), MakeKey(h, k);
    if s.attached {
      forall k' | k' in t.entries ensures Backed(t, k', -1) {
        assert k' in s.entries ==> Backed(s, k', -1);
        InstallBacked(s, h, k, duration, now, k');
      }
    }
    forall k' | k' in t.entries ensures KeyOk(t, k') { assert k' != key ==> KeyOk(s, k'); }
    forall j | 0 <= j < |t.loop.timers| ensures Fronted(t, j) && OneShot(t, j) {
      assert j < |s.loop.timers| ==> Fronted(s, j) && OneShot(s, j);
      InstallFronted(s, h, k, duration, now, j);
    }
  }

  lemma InstallLedger(s: System, h: Handle, k: Kind, duration: int, now: int)
    requires Ledger(s) && !IsActive(s, MakeKey(h, k))
    ensures Ledger(Install(s, h, k, duration, now))
  {
    var t, key := Install(s, h, k, duration, now), MakeKey(h, k);
    InstallKeys(s, key, t.entries[key], t);
    if s.attached {
      InstallIds(s, key, t.entries[key], t);
      assert s.loop.nextId !in s.fates.started;
      PartitionStarts(s.fates, ActiveIds(s), s.loop.nextId);
    }
  }

  lemma InstallKeeps(s: System, h: Handle, k: Kind, duration: int, now: int)
    requires LoopInv(s.loop, -1) && MgrInv(s, -1) && now >= s.loop.clock && !IsActive(s, MakeKey(h, k))
    ensures var t := Install(s, h, k, duration, now); LoopInv(t.loop, -1) && MgrInv(t, -1)
  {
    ScheduleKeeps(s.loop, duration, duration, Managed(h, k), false, now);
    InstallLinks(s, h, k, duration, now);
    InstallLedger(s, h, k, duration, now);
  }

  lemma StartKeeps(s: System, h: Handle, k: Kind, duration: int, now: int)
    requires LoopInv(s.loop, -1) && MgrInv(s, -1) && now >= s.loop.clock
    ensures Inv(Start(s, h, k, duration, now))
  {
    var key := MakeKey(h, k);
    var s1 := if IsActive(s, key) then Deactivate(s, key) else s;
    if IsActive(s, key) { DeactivateKeeps(s, key, -1); }
    InstallKeeps(s1, h, k, duration, now);
    RecountKeeps(Install(s1, h, k, duration, now), -1);
  }
}
