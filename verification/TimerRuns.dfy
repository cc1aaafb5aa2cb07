/** Passes over the timers, and whole runs. */
module TimerRuns {
  import opened TimerSpec
  import opened LoopTimers
  import opened Timeouts

  // ----- what callbacks may do -----

  /** The id is none of the manager's. */
  predicate ForeignId(timers: seq<Timer>, id: nat) {
    var i := IndexOf(timers, id);
    i < |timers| ==> timers[i].callback.Foreign?
  }

  /**
   No callback cancels a timer of the manager behind its back; a callback run by the manager holds
   the manager's lock, so it does not call the manager either.
   */
  predicate ActLegal(timers: seq<Timer>, callback: Callback, a: Action) {
    match a
    case Cancel(id) => ForeignId(timers, id)
    case _ => callback.Foreign?
  }

  predicate ActsLegal(timers: seq<Timer>, callback: Callback, acts: seq<Action>) {
    forall i :: 0 <= i < |acts| ==> ActLegal(timers, callback, acts[i])
  }

  predicate PassLegal(timers: seq<Timer>, acts: nat -> seq<Action>) {
    forall i :: 0 <= i < |timers| ==> ActsLegal(timers, timers[i].callback, acts(timers[i].id))
  }

  predicate SameIdentity(a: seq<Timer>, b: seq<Timer>) {
    |a| == |b| && forall i :: 0 <= i < |a| ==> a[i].id == b[i].id && a[i].callback == b[i].callback
  }

  lemma SameIdentityLegal(a: seq<Timer>, b: seq<Timer>, callback: Callback, acts: seq<Action>)
    requires SameIdentity(a, b) && ActsLegal(a, callback, acts)
    ensures ActsLegal(b, callback, acts)
  {
    forall i | 0 <= i < |acts| ensures ActLegal(b, callback, acts[i]) {
      assert ActLegal(a, callback, acts[i]);
      if acts[i].Cancel? { SameIndex(a, b, acts[i].id); }
    }
  }

  lemma SameIdentityPass(a: seq<Timer>, b: seq<Timer>, acts: nat -> seq<Action>)
    requires SameIdentity(a, b) && PassLegal(a, acts)
    ensures PassLegal(b, acts)
  {
    forall i | 0 <= i < |b| ensures ActsLegal(b, b[i].callback, acts(b[i].id)) {
      assert ActsLegal(a, a[i].callback, acts(a[i].id));
      SameIdentityLegal(a, b, a[i].callback, acts(a[i].id));
    }
  }

  lemma CancelForeignLinks(s: System, id: nat, firing: int)
    requires Links(s, firing) && ForeignId(s.loop.timers, id)
    ensures Links(s.(loop := CancelTimer(s.loop, id)), firing)
  {
    var t := s.(loop := CancelTimer(s.loop, id));
    forall k | k in t.entries ensures KeyOk(t, k) { assert KeyOk(s, k); }
    if s.attached {
      forall k | k in t.entries ensures Backed(t, k, firing) {
        assert Backed(s, k, firing);
        SameIndex(s.loop.timers, t.loop.timers, t.entries[k].timer);
      }
    }
    forall j | 0 <= j < |t.loop.timers| ensures OneShot(t, j) && (j != firing ==> Fronted(t, j)) {
      assert OneShot(s, j) && (j != firing ==> Fronted(s, j));
    }
  }

  lemma CancelForeignKeeps(s: System, id: nat, firing: int)
    requires LoopInv(s.loop, firing) && MgrInv(s, firing) && ForeignId(s.loop.timers, id)
    ensures var t := s.(loop := CancelTimer(s.loop, id)); LoopInv(t.loop, firing) && MgrInv(t, firing)
  {
    CancelKeeps(s.loop, id, firing);
    CancelForeignLinks(s, id, firing);
    SameLedger(s, s.(loop := CancelTimer(s.loop, id)));
  }

  /** Same schedule, same time; the timers differ in their flags alone. */
  predicate SameSchedule(l: Loop, m: Loop) {
    SameTimers(l.timers, m.timers) && m.born == l.born && m.clock == l.clock && m.nextId == l.nextId
  }

  lemma {:induction false} CancelEachSchedule(s: System, h: Handle, order: seq<Key>)
    ensures SameSchedule(s.loop, CancelEach(s, h, order).loop)
    decreases |order|
  {
    if order != [] { CancelEachSchedule(CancelIfOf(s, h, order[0]), h, order[1..]); }
  }

  lemma {:induction false} CancelEachAttached(s: System, h: Handle, order: seq<Key>)
    ensures CancelEach(s, h, order).attached == s.attached
    decreases |order|
  {
    if order != [] { CancelEachAttached(CancelIfOf(s, h, order[0]), h, order[1..]); }
  }

  lemma ActSchedule(s: System, a: Action)
    ensures SameSchedule(s.loop, Act(s, a).loop) && Act(s, a).attached == s.attached
  {
    if a.CancelHandle? {
      CancelEachSchedule(s, a.of, a.order);
      CancelEachAttached(s, a.of, a.order);
    }
  }

  lemma ActKeeps(s: System, callback: Callback, a: Action, firing: int)
    requires LoopInv(s.loop, firing) && MgrInv(s, firing) && ActLegal(s.loop.timers, callback, a)
    requires callback.Foreign? ==> Counted(s)
    ensures LoopInv(Act(s, a).loop, firing) && MgrInv(Act(s, a), firing)
    ensures callback.Foreign? ==> Counted(Act(s, a))
  {
    match a
    case Cancel(id) => CancelForeignKeeps(s, id, firing);
    case CancelOne(h, k) => CancelTimeoutKeeps(s, h, k, firing);
    case CancelHandle(h, order) => CancelAllKeeps(s, h, order, firing);
  }

  lemma OthersLegal(timers: seq<Timer>, callback: Callback, acts: seq<Action>)
    requires acts != [] && ActsLegal(timers, callback, acts)
    ensures ActsLegal(timers, callback, acts[1..])
  {
    forall i | 0 <= i < |acts[1..]| ensures ActLegal(timers, callback, acts[1..][i]) {
      assert ActLegal(timers, callback, acts[i + 1]);
    }
  }

  lemma {:induction false} ActAllSchedule(s: System, acts: seq<Action>)
    ensures SameSchedule(s.loop, ActAll(s, acts).loop) && ActAll(s, acts).attached == s.attached
    decreases |acts|
  {
    if acts != [] {
      ActSchedule(s, acts[0]);
      ActAllSchedule(Act(s, acts[0]), acts[1..]);
    }
  }

  /** What every legal action keeps, all of them keep. */
  lemma {:induction false} ActionsKeep(inv: System -> bool, s: System, callback: Callback, acts: seq<Action>)
    requires inv(s) && ActsLegal(s.loop.timers, callback, acts)
    requires forall s, a :: inv(s) && ActLegal(s.loop.timers, callback, a) ==> inv(Act(s, a))
    ensures inv(ActAll(s, acts))
    decreases |acts|
  {
    if acts != [] {
      var next := Act(s, acts[0]);
      assert ActLegal(s.loop.timers, callback, acts[0]);
      ActSchedule(s, acts[0]);
      OthersLegal(s.loop.timers, callback, acts);
      SameIdentityLegal(s.loop.timers, next.loop.timers, callback, acts[1..]);
      ActionsKeep(inv, next, callback, acts[1..]);
    }
  }

  /** The invariant while a callback runs. */
  ghost predicate InCallback(s: System, callback: Callback, firing: int) {
    LoopInv(s.loop, firing) && MgrInv(s, firing) && (callback.Foreign? ==> Counted(s))
  }

  lemma ActAllInv(s: System, callback: Callback, acts: seq<Action>, firing: int)
    requires LoopInv(s.loop, firing) && MgrInv(s, firing) && ActsLegal(s.loop.timers, callback, acts)
    requires callback.Foreign? ==> Counted(s)
    ensures LoopInv(ActAll(s, acts).loop, firing) && MgrInv(ActAll(s, acts), firing)
    ensures callback.Foreign? ==> Counted(ActAll(s, acts))
    ensures SameSchedule(s.loop, ActAll(s, acts).loop) && ActAll(s, acts).attached == s.attached
  {
    forall s, a | InCallback(s, callback, firing) && ActLegal(s.loop.timers, callback, a)
      ensures InCallback(Act(s, a), callback, firing)
    {
      ActKeeps(s, callback, a, firing);
    }
    ActionsKeep(s => InCallback(s, callback, firing), s, callback, acts);
    ActAllSchedule(s, acts);
  }

  // ----- one timer -----

  lemma BeginForeignLinks(s: System, i: nat, now: int)
    requires Links(s, -1) && i < |s.loop.timers| && s.loop.timers[i].callback.Foreign?
    ensures Links(s.(loop := BeginFire(s.loop, s.loop.timers[i].id, now)), i)
  {
    var t := s.(loop := BeginFire(s.loop, s.loop.timers[i].id, now));
    forall k | k in t.entries ensures KeyOk(t, k) { assert KeyOk(s, k); }
    if s.attached {
      forall k | k in t.entries ensures Backed(t, k, i) { assert Backed(s, k, -1); }
    }
    forall j | 0 <= j < |t.loop.timers| ensures OneShot(t, j) && Fronted(t, j) {
      assert OneShot(s, j) && Fronted(s, j);
    }
  }

  lemma BeginForeign(s: System, i: nat, now: int)
    requires Inv(s) && i < |s.loop.timers| && Due(s.loop.timers[i], now) && now == s.loop.clock
    requires s.loop.timers[i].callback.Foreign?
    ensures var t := s.(loop := BeginFire(s.loop, s.loop.timers[i].id, now));
      LoopInv(t.loop, i) && MgrInv(t, i) && Counted(t)
  {
    BeginFireKeeps(s.loop, i, now);
    BeginForeignLinks(s, i, now);
    SameLedger(s, s.(loop := BeginFire(s.loop, s.loop.timers[i].id, now)));
  }

  /** The manager's part of a fire, up to the user's callback. */
  function Ran(s: System, i: nat, now: int, key: Key): System
    requires i < |s.loop.timers| && IsActive(s, key)
  {
    s.(loop := BeginFire(s.loop, s.loop.timers[i].id, now),
       entries := s.entries[key := s.entries[key].(active := false)],
       stats := s.stats.(fired := s.stats.fired + 1),
       fates := s.fates.(ran := s.fates.ran + {s.loop.timers[i].id}))
  }

  /** A timer of the manager that fires finds its own entry, active: a stale one never fires. */
  lemma FiresItsOwnEntry(s: System, i: nat)
    requires Inv(s) && i < |s.loop.timers| && !s.loop.timers[i].cancelled && s.loop.timers[i].callback.Managed?
    ensures var t := s.loop.timers[i];
      var key := MakeKey(t.callback.handle, t.callback.kind);
      && s.attached && !t.repeating && IsActive(s, key)
      && s.entries[key].timer == t.id
      && s.entries[key].handle == t.callback.handle && s.entries[key].kind == t.callback.kind
  {
    var t := s.loop.timers[i];
    var key := MakeKey(t.callback.handle, t.callback.kind);
    assert Fronted(s, i) && OneShot(s, i);
    assert Backed(s, key, -1);
    IndexOfId(s.loop, i);
  }

  /** The timer at `i` is live, and the active entry `key` is its own. */
  predicate Paired(s: System, i: nat, key: Key) {
    && i < |s.loop.timers| && s.loop.timers[i].callback.Managed?
    && key == MakeKey(s.loop.timers[i].callback.handle, s.loop.timers[i].callback.kind)
    && IsActive(s, key) && s.entries[key].timer == s.loop.timers[i].id
    && s.entries[key].handle == s.loop.timers[i].callback.handle
    && s.entries[key].kind == s.loop.timers[i].callback.kind
  }

  /** Every other active entry has another timer. */
  lemma OthersStayBacked(s: System, i: nat, now: int, key: Key, k: Key)
    requires IdsOk(s.loop) && Paired(s, i, key) && k in s.entries && KeyOk(s, k) && Backed(s, k, -1)
    ensures KeyOk(Ran(s, i, now, key), k) && Backed(Ran(s, i, now, key), k, i)
  {
  }

  /** Every other live timer of the manager has another entry. */
  lemma OthersStayFronted(s: System, i: nat, now: int, key: Key, j: nat)
    requires IdsOk(s.loop) && Paired(s, i, key) && j < |s.loop.timers| && OneShot(s, j) && Fronted(s, j)
    ensures OneShot(Ran(s, i, now, key), j) && (j != i ==> Fronted(Ran(s, i, now, key), j))
  {
    IndexOfId(s.loop, j);
    IndexOfId(s.loop, i);
  }

  lemma BeginManagedLinks(s: System, i: nat, now: int, key: Key)
    requires Inv(s) && i < |s.loop.timers| && !s.loop.timers[i].cancelled && s.loop.timers[i].callback.Managed?
    requires key == MakeKey(s.loop.timers[i].callback.handle, s.loop.timers[i].callback.kind) && IsActive(s, key)
    ensures Links(Ran(s, i, now, key), i)
  {
    var t := Ran(s, i, now, key);
    FiresItsOwnEntry(s, i);
    forall k | k in t.entries ensures KeyOk(t, k) && Backed(t, k, i) {
      assert KeyOk(s, k) && Backed(s, k, -1);
      OthersStayBacked(s, i, now, key, k);
    }
    forall j | 0 <= j < |t.loop.timers| ensures OneShot(t, j) && (j != i ==> Fronted(t, j)) {
      assert OneShot(s, j) && Fronted(s, j);
      OthersStayFronted(s, i, now, key, j);
    }
  }

  lemma BeginManagedLedger(s: System, i: nat, now: int, key: Key)
    requires Links(s, -1) && Ledger(s) && s.attached && i < |s.loop.timers| && IsActive(s, key)
    requires s.entries[key].timer == s.loop.timers[i].id
    ensures Ledger(Ran(s, i, now, key))
  {
    var t := Ran(s, i, now, key);
    DropActiveKeys(s, key, t);
    DropActiveIds(s, key, -1, t);
    PartitionRuns(s.fates, ActiveIds(s), s.loop.timers[i].id);
  }

  lemma BeginManaged(s: System, i: nat, now: int, key: Key)
    requires Inv(s) && i < |s.loop.timers| && Due(s.loop.timers[i], now) && now == s.loop.clock
    requires s.loop.timers[i].callback.Managed?
    requires key == MakeKey(s.loop.timers[i].callback.handle, s.loop.timers[i].callback.kind) && IsActive(s, key)
    ensures LoopInv(Ran(s, i, now, key).loop, i) && MgrInv(Ran(s, i, now, key), i)
  {
    BeginFireKeeps(s.loop, i, now);
    FiresItsOwnEntry(s, i);
    BeginManagedLinks(s, i, now, key);
    BeginManagedLedger(s, i, now, key);
  }

  lemma EndFireLinks(s: System, i: nat, now: int)
    requires Links(s, i) && i < |s.loop.timers|
    ensures Links(s.(loop := EndFire(s.loop, i, now)), -1)
  {
    var t := s.(loop := EndFire(s.loop, i, now));
    forall k | k in t.entries ensures KeyOk(t, k) { assert KeyOk(s, k); }
    if s.attached {
      forall k | k in t.entries ensures Backed(t, k, -1) {
        assert Backed(s, k, i);
        SameIndex(s.loop.timers, t.loop.timers, t.entries[k].timer);
      }
    }
    forall j | 0 <= j < |t.loop.timers| ensures OneShot(t, j) && Fronted(t, j) {
      assert OneShot(s, j) && (j != i ==> Fronted(s, j));
    }
  }

  lemma EndFireMgr(s: System, i: nat, now: int)
    requires MgrInv(s, i) && i < |s.loop.timers|
    ensures MgrInv(s.(loop := EndFire(s.loop, i, now)), -1)
  {
    EndFireLinks(s, i, now);
    SameLedger(s, s.(loop := EndFire(s.loop, i, now)));
  }

  ghost predicate CallbackDone(s: System, after: System, i: nat) {
    LoopInv(after.loop, i) && MgrInv(after, i) && Counted(after) && SameSchedule(s.loop, after.loop)
    && after.attached == s.attached
  }

  lemma RunForeign(s: System, i: nat, now: int, acts: seq<Action>)
    requires Inv(s) && i < |s.loop.timers| && Due(s.loop.timers[i], now) && now == s.loop.clock
    requires ActsLegal(s.loop.timers, s.loop.timers[i].callback, acts) && s.loop.timers[i].callback.Foreign?
    ensures CallbackDone(s, RunCallback(s, s.loop.timers[i], now, acts), i)
  {
    var begun := s.(loop := BeginFire(s.loop, s.loop.timers[i].id, now));
    BeginForeign(s, i, now);
    ActAllInv(begun, Foreign, acts, i);
    assert RunCallback(s, s.loop.timers[i], now, acts) == ActAll(begun, acts);
  }

  lemma RunManaged(s: System, i: nat, now: int, acts: seq<Action>)
    requires Inv(s) && i < |s.loop.timers| && Due(s.loop.timers[i], now) && now == s.loop.clock
    requires ActsLegal(s.loop.timers, s.loop.timers[i].callback, acts) && s.loop.timers[i].callback.Managed?
    ensures CallbackDone(s, RunCallback(s, s.loop.timers[i], now, acts), i)
  {
    var t := s.loop.timers[i];
    var key := MakeKey(t.callback.handle, t.callback.kind);
    FiresItsOwnEntry(s, i);
    BeginManaged(s, i, now, key);
    var ran := Ran(s, i, now, key);
    ActAllInv(ran, t.callback, acts, i);
    RecountKeeps(ActAll(ran, acts), i);
    ManagedCallback(s, i, now, acts, key);
  }

  /** The manager's lambda: its own part, the user's callback, the count. */
  lemma ManagedCallback(s: System, i: nat, now: int, acts: seq<Action>, key: Key)
    requires i < |s.loop.timers| && s.loop.timers[i].callback.Managed? && IsActive(s, key)
    requires key == MakeKey(s.loop.timers[i].callback.handle, s.loop.timers[i].callback.kind)
    ensures RunCallback(s, s.loop.timers[i], now, acts) == Recount(ActAll(Ran(s, i, now, key), acts))
  {
  }

  lemma FireEnds(s: System, after: System, i: nat, now: int)
    requires CallbackDone(s, after, i) && i < |s.loop.timers| && now == s.loop.clock
    requires 1 <= s.loop.timers[i].id <= |s.loop.born| && s.loop.born[s.loop.timers[i].id - 1].expiry <= now
    ensures var t := after.(loop := EndFire(after.loop, i, now));
      Inv(t) && SameIdentity(s.loop.timers, t.loop.timers) && t.loop.clock == now && t.attached == s.attached
  {
    assert SameTimer(s.loop.timers[i], after.loop.timers[i]);
    EndFireKeeps(after.loop, i, now);
    EndFireMgr(after, i, now);
  }

  lemma VisitKeeps(s: System, i: nat, now: int, acts: nat -> seq<Action>)
    requires Inv(s) && i < |s.loop.timers| && now == s.loop.clock && PassLegal(s.loop.timers, acts)
    ensures var t := Visit(s, i, now, acts);
      Inv(t) && SameIdentity(s.loop.timers, t.loop.timers) && t.loop.clock == now && t.attached == s.attached
  {
    var t := s.loop.timers[i];
    if Due(t, now) {
      assert ActsLegal(s.loop.timers, t.callback, acts(t.id));
      if t.callback.Foreign? { RunForeign(s, i, now, acts(t.id)); } else { RunManaged(s, i, now, acts(t.id)); }
      BeginFireKeeps(s.loop, i, now);
      FireEnds(s, RunCallback(s, t, now, acts(t.id)), i, now);
    }
  }

  /** What every visit keeps, all visits keep. */
  lemma {:induction false} VisitsKeep(inv: System -> bool, s: System, i: nat, now: int, acts: nat -> seq<Action>)
    requires inv(s) && i <= |s.loop.timers|
    requires forall s, i: nat :: inv(s) && i < |s.loop.timers| ==> inv(Visit(s, i, now, acts))
    ensures inv(VisitFrom(s, i, now, acts))
    decreases |s.loop.timers| - i
  {
    if i < |s.loop.timers| {
      VisitKeepsLength(s, i, now, acts);
      VisitsKeep(inv, Visit(s, i, now, acts), i + 1, now, acts);
    }
  }

  /** The invariant during a pass. */
  ghost predicate InPass(s: System, attached: bool, now: int, acts: nat -> seq<Action>) {
    Inv(s) && s.attached == attached && now == s.loop.clock && PassLegal(s.loop.timers, acts)
  }

  lemma VisitKeepsPass(s: System, i: nat, attached: bool, now: int, acts: nat -> seq<Action>)
    requires InPass(s, attached, now, acts) && i < |s.loop.timers|
    ensures InPass(Visit(s, i, now, acts), attached, now, acts)
  {
    VisitKeeps(s, i, now, acts);
    SameIdentityPass(s.loop.timers, Visit(s, i, now, acts).loop.timers, acts);
  }

  lemma VisitFromKeeps(s: System, i: nat, now: int, acts: nat -> seq<Action>)
    requires Inv(s) && i <= |s.loop.timers| && now == s.loop.clock && PassLegal(s.loop.timers, acts)
    ensures var t := VisitFrom(s, i, now, acts); Inv(t) && t.attached == s.attached
  {
    var attached := s.attached;
    forall s, i: nat | InPass(s, attached, now, acts) && i < |s.loop.timers|
      ensures InPass(Visit(s, i, now, acts), attached, now, acts)
    {
      VisitKeepsPass(s, i, attached, now, acts);
    }
    VisitsKeep(s => InPass(s, attached, now, acts), s, i, now, acts);
  }

  // ----- removing cancelled timers -----

  lemma IndexWhenAscending(timers: seq<Timer>, k: nat)
    requires k < |timers| && forall i, j :: 0 <= i < j < |timers| ==> timers[i].id < timers[j].id
    ensures IndexOf(timers, timers[k].id) == k
  {
  }

  lemma IndexInLive(l: Loop, i: nat)
    requires IdsOk(l) && i < |l.timers| && !l.timers[i].cancelled
    ensures var j := IndexOf(Live(l.timers), l.timers[i].id);
      j < |Live(l.timers)| && Live(l.timers)[j] == l.timers[i]
  {
    forall x, y | 0 <= x < y < |l.timers| ensures l.timers[x].id < l.timers[y].id { assert Ascending(l, x, y); }
    LiveIsSublist(l.timers);
    var k :| 0 <= k < |Live(l.timers)| && Live(l.timers)[k] == l.timers[i];
    IndexWhenAscending(Live(l.timers), k);
  }

  lemma LiveLinks(s: System)
    requires IdsOk(s.loop) && Links(s, -1)
    ensures Links(s.(loop := s.loop.(timers := Live(s.loop.timers))), -1)
  {
    var t := s.(loop := s.loop.(timers := Live(s.loop.timers)));
    LiveIsSublist(s.loop.timers);
    forall k | k in t.entries ensures KeyOk(t, k) { assert KeyOk(s, k); }
    if s.attached {
      forall k | k in t.entries ensures Backed(t, k, -1) {
        assert Backed(s, k, -1);
        if t.entries[k].active { IndexInLive(s.loop, IndexOf(s.loop.timers, t.entries[k].timer)); }
      }
    }
    forall j | 0 <= j < |t.loop.timers| ensures OneShot(t, j) && Fronted(t, j) {
      var i :| 0 <= i < |s.loop.timers| && s.loop.timers[i] == t.loop.timers[j];
      assert OneShot(s, i) && Fronted(s, i);
    }
  }

  /** The removal at the end of a pass. */
  function Cleared(s: System): System { s.(loop := s.loop.(timers := Live(s.loop.timers))) }

  lemma ClearedKeeps(s: System)
    requires Inv(s)
    ensures Inv(Cleared(s))
  {
    LiveKeeps(s.loop);
    LiveLinks(s);
    SameLedger(s, Cleared(s));
  }

  /** The time stamp at the beginning of a pass. */
  function Stamped(s: System, now: int): System { s.(loop := s.loop.(clock := now)) }

  lemma StampedKeeps(s: System, now: int)
    requires Inv(s) && now >= s.loop.clock
    ensures Inv(Stamped(s, now))
  {
    TickKeeps(s.loop, now);
    SameLinks(s, Stamped(s, now), -1);
    SameLedger(s, Stamped(s, now));
  }

  lemma PassKeeps(s: System, now: int, acts: nat -> seq<Action>)
    requires Inv(s) && now >= s.loop.clock && PassLegal(s.loop.timers, acts)
    ensures Inv(Pass(s, now, acts)) && Pass(s, now, acts).attached == s.attached
  {
    var begun := Stamped(s, now);
    StampedKeeps(s, now);
    VisitFromKeeps(begun, 0, now, acts);
    ClearedKeeps(VisitFrom(begun, 0, now, acts));
    assert Pass(s, now, acts) == Cleared(VisitFrom(begun, 0, now, acts));
  }

  // ----- runs -----

  datatype Op =
    | StartOp(h: Handle, k: Kind, duration: int, now: int)
    | CancelOp(h: Handle, k: Kind)
    | CancelAllOp(h: Handle, order: seq<Key>)
    | ResetOp(h: Handle, duration: int, now: int)
    | ScheduleOp(delay: int, interval: int, repeating: bool, now: int)
    | CancelTimerOp(id: nat)
    | PassOp(now: int, acts: nat -> seq<Action>)

  /** Time does not go back, and the manager's timers are cancelled by the manager alone. */
  predicate Legal(s: System, op: Op) {
    match op
    case StartOp(_, _, _, now) => now >= s.loop.clock
    case ResetOp(_, _, now) => now >= s.loop.clock
    case ScheduleOp(_, _, _, now) => now >= s.loop.clock
    case CancelTimerOp(id) => ForeignId(s.loop.timers, id)
    case PassOp(now, acts) => now >= s.loop.clock && PassLegal(s.loop.timers, acts)
    case _ => true
  }

  function Apply(s: System, op: Op): System {
    match op
    case StartOp(h, k, duration, now) => Start(s, h, k, duration, now)
    case CancelOp(h, k) => CancelTimeout(s, h, k)
    case CancelAllOp(h, order) => CancelAll(s, h, order)
    case ResetOp(h, duration, now) => ResetIdle(s, h, duration, now)
    case ScheduleOp(delay, interval, repeating, now) =>
      s.(loop := Schedule(s.loop, delay, interval, Foreign, repeating, now))
    case CancelTimerOp(id) => s.(loop := CancelTimer(s.loop, id))
    case PassOp(now, acts) => Pass(s, now, acts)
  }

  lemma ScheduleForeignLinks(s: System, delay: int, interval: int, repeating: bool, now: int)
    requires Links(s, -1)
    ensures Links(s.(loop := Schedule(s.loop, delay, interval, Foreign, repeating, now)), -1)
  {
    var t := s.(loop := Schedule(s.loop, delay, interval, Foreign, repeating, now));
    var n := |s.loop.timers|;
    forall k | k in t.entries ensures KeyOk(t, k) { assert KeyOk(s, k); }
    if s.attached {
      forall k | k in t.entries ensures Backed(t, k, -1) {
        assert Backed(s, k, -1);
        IndexAfterAppend(s.loop.timers, t.loop.timers[n], t.entries[k].timer);
      }
    }
    forall j | 0 <= j < |t.loop.timers| ensures OneShot(t, j) && Fronted(t, j) {
      assert j < n ==> OneShot(s, j) && Fronted(s, j);
    }
  }

  lemma ScheduleForeignKeeps(s: System, delay: int, interval: int, repeating: bool, now: int)
    requires Inv(s) && now >= s.loop.clock
    ensures Inv(s.(loop := Schedule(s.loop, delay, interval, Foreign, repeating, now)))
  {
    ScheduleKeeps(s.loop, delay, interval, Foreign, repeating, now);
    ScheduleForeignLinks(s, delay, interval, repeating, now);
    SameLedger(s, s.(loop := Schedule(s.loop, delay, interval, Foreign, repeating, now)));
  }

  lemma ResetKeeps(s: System, h: Handle, duration: int, now: int)
    requires Inv(s) && now >= s.loop.clock
    ensures Inv(ResetIdle(s, h, duration, now)) && ResetIdle(s, h, duration, now).attached == s.attached
  {
    CancelTimeoutKeeps(s, h, Idle, -1);
    StartKeeps(CancelTimeout(s, h, Idle), h, Idle, duration, now);
  }

  lemma ApplyKeeps(s: System, op: Op)
    requires Inv(s) && Legal(s, op)
    ensures Inv(Apply(s, op)) && Apply(s, op).attached == s.attached
  {
    match op
    case StartOp(h, k, duration, now) => StartKeeps(s, h, k, duration, now);
    case CancelOp(h, k) => CancelTimeoutKeeps(s, h, k, -1);
    case CancelAllOp(h, order) =>
      CancelAllKeeps(s, h, order, -1);
      CancelEachAttached(s, h, order);
    case ResetOp(h, duration, now) => ResetKeeps(s, h, duration, now);
    case ScheduleOp(delay, interval, repeating, now) => ScheduleForeignKeeps(s, delay, interval, repeating, now);
    case CancelTimerOp(id) => CancelForeignKeeps(s, id, -1);
    case PassOp(now, acts) => PassKeeps(s, now, acts);
  }

  function Run(s: System, ops: seq<Op>): System
    decreases |ops|
  {
    if ops == [] then s else Run(Apply(s, ops[0]), ops[1..])
  }

  predicate LegalRun(s: System, ops: seq<Op>)
    decreases |ops|
  {
    ops == [] || (Legal(s, ops[0]) && LegalRun(Apply(s, ops[0]), ops[1..]))
  }

  lemma {:induction false} RunKeeps(s: System, ops: seq<Op>)
    requires Inv(s) && LegalRun(s, ops)
    ensures Inv(Run(s, ops)) && Run(s, ops).attached == s.attached
    decreases |ops|
  {
    if ops != [] {
      ApplyKeeps(s, ops[0]);
      RunKeeps(Apply(s, ops[0]), ops[1..]);
    }
  }

  lemma InitialInv(attached: bool)
    ensures Inv(Initial(attached))
  {
    var s := Initial(attached);
    assert ActiveKeys(s.entries) == {} && ActiveIds(s) == {};
  }

  /** The invariant holds of every state of every legal run. */
  lemma EveryRun(attached: bool, ops: seq<Op>)
    requires LegalRun(Initial(attached), ops)
    ensures Inv(Run(Initial(attached), ops)) && Run(Initial(attached), ops).attached == attached
  {
    InitialInv(attached);
    RunKeeps(Initial(attached), ops);
  }

  // ----- what the invariant says -----

  /** After every run: nothing is lost or counted twice, and the reported count is the true one. */
  lemma TimeoutsAreConserved(attached: bool, ops: seq<Op>)
    requires LegalRun(Initial(attached), ops)
    ensures var s := Run(Initial(attached), ops);
      && s.fates.starts == s.stats.fired + s.stats.cancelled + s.stats.active
      && s.stats.active == |ActiveKeys(s.entries)|
  {
    EveryRun(attached, ops);
  }

  /** The ids of the live timers that the manager has scheduled. */
  function LiveManaged(timers: seq<Timer>): set<nat> {
    set i | 0 <= i < |timers| && !timers[i].cancelled && timers[i].callback.Managed? :: timers[i].id
  }

  lemma ActiveAreLive(s: System)
    requires Links(s, -1) && s.attached
    ensures ActiveIds(s) <= LiveManaged(s.loop.timers)
  {
    forall id | id in ActiveIds(s) ensures id in LiveManaged(s.loop.timers) {
      var k :| k in ActiveKeys(s.entries) && s.entries[k].timer == id;
      assert Backed(s, k, -1);
    }
  }

  lemma LiveAreActive(s: System)
    requires Links(s, -1)
    ensures LiveManaged(s.loop.timers) <= ActiveIds(s)
  {
    forall id | id in LiveManaged(s.loop.timers) ensures id in ActiveIds(s) {
      var i :| 0 <= i < |s.loop.timers| && !s.loop.timers[i].cancelled && s.loop.timers[i].callback.Managed?
        && s.loop.timers[i].id == id;
      assert Fronted(s, i);
      assert MakeKey(s.loop.timers[i].callback.handle, s.loop.timers[i].callback.kind) in ActiveKeys(s.entries);
    }
  }

  /** Active entries and the manager's live timers correspond, one to one. */
  lemma EntriesMatchTimers(ops: seq<Op>)
    requires LegalRun(Initial(true), ops)
    ensures var s := Run(Initial(true), ops);
      && LiveManaged(s.loop.timers) == ActiveIds(s)
      && forall k, k' | k in ActiveKeys(s.entries) && k' in ActiveKeys(s.entries) ::
           s.entries[k].timer == s.entries[k'].timer ==> k == k'
  {
    var s := Run(Initial(true), ops);
    EveryRun(true, ops);
    ActiveAreLive(s);
    LiveAreActive(s);
    forall k, k'
      | k in ActiveKeys(s.entries) && k' in ActiveKeys(s.entries) && s.entries[k].timer == s.entries[k'].timer
      ensures k == k'
    {
      assert Backed(s, k, -1) && Backed(s, k', -1) && KeyOk(s, k) && KeyOk(s, k');
      TimersAreDistinct(s, k, k', -1);
    }
  }

  // ----- fates are final -----

  predicate Grown(f: Fates, g: Fates) { f.ran <= g.ran && f.dropped <= g.dropped && f.started <= g.started }

  lemma {:induction false} CancelEachGrows(s: System, h: Handle, order: seq<Key>)
    ensures Grown(s.fates, CancelEach(s, h, order).fates)
    decreases |order|
  {
    if order != [] { CancelEachGrows(CancelIfOf(s, h, order[0]), h, order[1..]); }
  }

  lemma {:induction false} ActAllGrows(s: System, acts: seq<Action>)
    ensures Grown(s.fates, ActAll(s, acts).fates)
    decreases |acts|
  {
    if acts != [] {
      if acts[0].CancelHandle? { CancelEachGrows(s, acts[0].of, acts[0].order); }
      ActAllGrows(Act(s, acts[0]), acts[1..]);
    }
  }

  lemma CallbackGrows(s: System, t: Timer, now: int, acts: seq<Action>)
    ensures Grown(s.fates, RunCallback(s, t, now, acts).fates)
  {
    var begun := s.(loop := BeginFire(s.loop, t.id, now));
    ActAllGrows(begun, acts);
    if t.callback.Managed? {
      var key := MakeKey(t.callback.handle, t.callback.kind);
      if IsActive(begun, key) {
        ActAllGrows(begun.(entries := s.entries[key := s.entries[key].(active := false)],
                           stats := s.stats.(fired := s.stats.fired + 1),
                           fates := s.fates.(ran := s.fates.ran + {t.id})), acts);
      }
    }
  }

  lemma {:induction false} VisitsGrow(s: System, i: nat, now: int, acts: nat -> seq<Action>)
    requires i <= |s.loop.timers|
    ensures Grown(s.fates, VisitFrom(s, i, now, acts).fates)
    decreases |s.loop.timers| - i
  {
    if i < |s.loop.timers| {
      CallbackGrows(s, s.loop.timers[i], now, acts(s.loop.timers[i].id));
      VisitKeepsLength(s, i, now, acts);
      VisitsGrow(Visit(s, i, now, acts), i + 1, now, acts);
    }
  }

  lemma {:induction false} RunGrows(s: System, ops: seq<Op>)
    ensures Grown(s.fates, Run(s, ops).fates)
    decreases |ops|
  {
    if ops != [] {
      match ops[0] {
        case CancelAllOp(h, order) => CancelEachGrows(s, h, order);
        case PassOp(now, acts) => VisitsGrow(s.(loop := s.loop.(clock := now)), 0, now, acts);
        case _ =>
      }
      RunGrows(Apply(s, ops[0]), ops[1..]);
    }
  }

  lemma {:induction false} RunSplits(s: System, first: seq<Op>, then_: seq<Op>)
    requires LegalRun(s, first + then_)
    ensures Run(s, first + then_) == Run(Run(s, first), then_)
    ensures LegalRun(s, first) && LegalRun(Run(s, first), then_)
    decreases |first|
  {
    if first == [] {
      assert first + then_ == then_;
    } else {
      assert (first + then_)[1..] == first[1..] + then_;
      RunSplits(Apply(s, first[0]), first[1..], then_);
    }
  }

  /** A timeout that was cancelled or replaced never calls back, however the run goes on. */
  lemma CancelledNeverRuns(ops: seq<Op>, later: seq<Op>, id: nat)
    requires LegalRun(Initial(true), ops + later)
    requires id in Run(Initial(true), ops).fates.dropped
    ensures id !in Run(Initial(true), ops + later).fates.ran
  {
    RunSplits(Initial(true), ops, later);
    RunGrows(Run(Initial(true), ops), later);
    EveryRun(true, ops + later);
  }

  /** Each start leads to at most one callback: as many callbacks have run as timeouts have fired. */
  lemma EachStartRunsOnce(ops: seq<Op>)
    requires LegalRun(Initial(true), ops)
    ensures var s := Run(Initial(true), ops);
      && |s.fates.ran| == s.stats.fired && s.fates.ran <= s.fates.started
      && s.fates.started == s.fates.ran + s.fates.dropped + LiveManaged(s.loop.timers)
      && s.fates.ran !! s.fates.dropped && s.fates.ran !! LiveManaged(s.loop.timers)
  {
    EveryRun(true, ops);
    EntriesMatchTimers(ops);
  }

  /** The loop's own promises, after every run. */
  lemma LoopTimersAreSafe(attached: bool, ops: seq<Op>)
    requires LegalRun(Initial(attached), ops)
    ensures var l := Run(Initial(attached), ops).loop;
      // ids in the list are strictly increasing
      && (forall i, j :: 0 <= i < j < |l.timers| ==> l.timers[i].id < l.timers[j].id)
      // nothing fires before the expiry it was scheduled with
      && (forall x :: 0 <= x < |l.trace| && l.trace[x].Fired? ==>
            1 <= l.trace[x].id <= |l.born| && l.trace[x].now >= l.born[l.trace[x].id - 1].expiry)
      // one-shot timers fire once; repeating ones at least an interval apart
      && (forall x, y |
            0 <= x < y < |l.trace| && l.trace[x].Fired? && l.trace[y].Fired? && l.trace[x].id == l.trace[y].id ::
            1 <= l.trace[x].id <= |l.born| && l.born[l.trace[x].id - 1].repeating
            && l.trace[y].now >= l.trace[x].now + l.born[l.trace[x].id - 1].interval)
      // nothing fires after a successful cancellation, not even in the same pass
      && (forall x, y :: 0 <= x < y < |l.trace| && l.trace[x].Dropped? && l.trace[y].Fired? ==>
            l.trace[x].id != l.trace[y].id)
  {
    EveryRun(attached, ops);
    var l := Run(Initial(attached), ops).loop;
    forall i, j | 0 <= i < j < |l.timers| ensures l.timers[i].id < l.timers[j].id { assert Ascending(l, i, j); }
    FiresAreSafe(l);
    DropsAreFinal(l);
  }

  lemma FiresAreSafe(l: Loop)
    requires TraceOk(l)
    ensures forall x :: 0 <= x < |l.trace| && l.trace[x].Fired? ==>
      1 <= l.trace[x].id <= |l.born| && l.trace[x].now >= l.born[l.trace[x].id - 1].expiry
    ensures forall x, y |
      0 <= x < y < |l.trace| && l.trace[x].Fired? && l.trace[y].Fired? && l.trace[x].id == l.trace[y].id ::
      1 <= l.trace[x].id <= |l.born| && l.born[l.trace[x].id - 1].repeating
      && l.trace[y].now >= l.trace[x].now + l.born[l.trace[x].id - 1].interval
  {
    forall x, y | 0 <= x < y < |l.trace| && l.trace[x].Fired? && l.trace[y].Fired? && l.trace[x].id == l.trace[y].id
      ensures 1 <= l.trace[x].id <= |l.born| && l.born[l.trace[x].id - 1].repeating
        && l.trace[y].now >= l.trace[x].now + l.born[l.trace[x].id - 1].interval
    {
      assert NotEarly(l, x) && Spaced(l, x, y);
    }
    forall x | 0 <= x < |l.trace| && l.trace[x].Fired?
      ensures 1 <= l.trace[x].id <= |l.born| && l.trace[x].now >= l.born[l.trace[x].id - 1].expiry
    {
      assert NotEarly(l, x);
    }
  }

  lemma DropsAreFinal(l: Loop)
    requires TraceOk(l)
    ensures forall x, y :: 0 <= x < y < |l.trace| && l.trace[x].Dropped? && l.trace[y].Fired? ==>
      l.trace[x].id != l.trace[y].id
  {
    forall x, y | 0 <= x < y < |l.trace| && l.trace[x].Dropped? && l.trace[y].Fired?
      ensures l.trace[x].id != l.trace[y].id
    {
      assert StaysDropped(l, x, y);
    }
  }

  // ----- cancel_all -----

  lemma {:induction false} CancelEachKeys(s: System, h: Handle, order: seq<Key>)
    ensures var t := CancelEach(s, h, order);
      && t.entries.Keys == s.entries.Keys
      && forall k :: k in s.entries ==>
           t.entries[k] == s.entries[k].(active := s.entries[k].active && !(k in order && s.entries[k].handle == h))
    decreases |order|
  {
    if order != [] {
      CancelEachKeys(CancelIfOf(s, h, order[0]), h, order[1..]);
      assert order == [order[0]] + order[1..];
    }
  }

  /** Walking the whole map deactivates exactly the timeouts of that handle, of all four kinds. */
  lemma CancelAllIsExact(s: System, h: Handle, order: seq<Key>, h': Handle, k: Kind)
    requires Inv(s) && forall key :: key in s.entries ==> key in order
    ensures IsActive(CancelAll(s, h, order), MakeKey(h', k)) <==> IsActive(s, MakeKey(h', k)) && h' != h
  {
    var key := MakeKey(h', k);
    CancelEachKeys(s, h, order);
    if key in s.entries {
      assert KeyOk(s, key);
      MakeKeyIsInjective(h', k, s.entries[key].handle, s.entries[key].kind);
    }
  }
}
