/** What each operation of the timeout manager and each action of a callback does, and to nothing else. */
module TimerEffects {
  import opened Wrappers
  import opened TimerSpec
  import opened LoopTimers
  import opened Timeouts
  import opened TimerRuns

  /** The timeouts that are active, by handle and kind. */
  predicate Active(s: System, h: Handle, k: Kind) { IsActive(s, MakeKey(h, k)) }

  lemma KeysApart(h: Handle, k: Kind, h': Handle, k': Kind)
    ensures MakeKey(h, k) == MakeKey(h', k') <==> h == h' && k == k'
  {
    if MakeKey(h, k) == MakeKey(h', k') { MakeKeyIsInjective(h, k, h', k'); }
  }

  /**
   A start makes its timeout active, under the next id and with a timer that is due after the duration,
   counts one start and, if the timeout was active before, one cancellation; no other timeout changes.
   */
  lemma StartIsExact(s: System, h: Handle, k: Kind, duration: int, now: int, h': Handle, k': Kind)
    requires s.attached
    ensures var t := Start(s, h, k, duration, now);
      && Active(t, h, k) && t.entries[MakeKey(h, k)] == Entry(s.loop.nextId, h, k, true)
      && |t.loop.timers| == |s.loop.timers| + 1
      && t.loop.timers[|s.loop.timers|] == Timer(s.loop.nextId, now + duration, duration, Managed(h, k), false, false)
      && t.fates.starts == s.fates.starts + 1 && t.stats.fired == s.stats.fired
      && t.stats.cancelled == s.stats.cancelled + (if Active(s, h, k) then 1 else 0)
      && ((h' != h || k' != k) ==>
            && (Active(t, h', k') <==> Active(s, h', k'))
            && (Active(t, h', k') ==> t.entries[MakeKey(h', k')] == s.entries[MakeKey(h', k')]))
  {
    KeysApart(h, k, h', k');
  }

  /** A cancellation ends its timeout if it is active, and then its timer too; otherwise nothing happens. */
  lemma CancelIsExact(s: System, h: Handle, k: Kind)
    requires Inv(s)
    ensures var t := CancelTimeout(s, h, k);
      && !Active(t, h, k) && (!Active(s, h, k) ==> t == s)
      && (Active(s, h, k) ==> t.stats.cancelled == s.stats.cancelled + 1 && t.stats.fired == s.stats.fired)
      && (Active(s, h, k) && s.attached ==>
            var i := IndexOf(s.loop.timers, s.entries[MakeKey(h, k)].timer);
            i < |s.loop.timers| && |t.loop.timers| == |s.loop.timers| && t.loop.timers[i].cancelled)
  {
    if Active(s, h, k) && s.attached {
      var key := MakeKey(h, k);
      assert Backed(s, key, -1);
      CancelMarksTimer(s, key);
    }
  }

  lemma CancelMarksTimer(s: System, key: Key)
    requires s.attached && IsActive(s, key) && IdsOk(s.loop) && Backed(s, key, -1)
    ensures var i, t := IndexOf(s.loop.timers, s.entries[key].timer), Recount(Deactivate(s, key));
      i < |s.loop.timers| && |t.loop.timers| == |s.loop.timers| && t.loop.timers[i].cancelled
  {
    assert AsBorn(s.loop, IndexOf(s.loop.timers, s.entries[key].timer));
  }

  /** No other timeout changes. */
  lemma CancelLeavesOthers(s: System, h: Handle, k: Kind, h': Handle, k': Kind)
    requires h' != h || k' != k
    ensures var t := CancelTimeout(s, h, k);
      && (Active(t, h', k') <==> Active(s, h', k'))
      && (Active(t, h', k') ==> t.entries[MakeKey(h', k')] == s.entries[MakeKey(h', k')])
  {
    KeysApart(h, k, h', k');
  }

  /** Resetting an idle timeout leaves it active, due after the new duration, whether it was before or not. */
  lemma ResetIsExact(s: System, h: Handle, duration: int, now: int, h': Handle, k': Kind)
    requires Inv(s) && s.attached
    ensures var t := ResetIdle(s, h, duration, now);
      && Active(t, h, Idle) && t.entries[MakeKey(h, Idle)] == Entry(s.loop.nextId, h, Idle, true)
      && |t.loop.timers| == |s.loop.timers| + 1
      && t.loop.timers[|s.loop.timers|]
         == Timer(s.loop.nextId, now + duration, duration, Managed(h, Idle), false, false)
      && t.stats.cancelled == s.stats.cancelled + (if Active(s, h, Idle) then 1 else 0)
      && ((h' != h || k' != Idle) ==> (Active(t, h', k') <==> Active(s, h', k')))
  {
    var mid := CancelTimeout(s, h, Idle);
    CancelIsExact(s, h, Idle);
    if h' != h || k' != Idle { CancelLeavesOthers(s, h, Idle, h', k'); }
    CancelSchedule(s, h, Idle);
    StartIsExact(mid, h, Idle, duration, now, h', k');
  }

  lemma CancelSchedule(s: System, h: Handle, k: Kind)
    ensures var t := CancelTimeout(s, h, k);
      t.attached == s.attached && t.loop.nextId == s.loop.nextId && |t.loop.timers| == |s.loop.timers|
  {
  }

  // ----- callbacks -----

  /** Actions end timeouts and mark timers; they bring none back. */
  ghost predicate OnlyEnds(s: System, t: System) {
    && SameTimers(s.loop.timers, t.loop.timers)
    && forall k :: IsActive(t, k) ==> IsActive(s, k)
  }

  lemma {:induction false} CancelEachEnds(s: System, h: Handle, order: seq<Key>)
    ensures OnlyEnds(s, CancelEach(s, h, order))
    decreases |order|
  {
    if order != [] {
      var next := CancelIfOf(s, h, order[0]);
      CancelEachEnds(next, h, order[1..]);
    }
  }

  lemma ActEnds(s: System, a: Action)
    ensures OnlyEnds(s, Act(s, a))
  {
    if a.CancelHandle? { CancelEachEnds(s, a.of, a.order); }
  }

  lemma {:induction false} ActAllEnds(s: System, acts: seq<Action>)
    ensures OnlyEnds(s, ActAll(s, acts))
    decreases |acts|
  {
    if acts != [] {
      ActEnds(s, acts[0]);
      ActAllEnds(Act(s, acts[0]), acts[1..]);
    }
  }

  /** What an action asks for holds: the timer is marked, the timeout or all those of the handle are over. */
  ghost predicate Done(before: seq<Timer>, t: System, a: Action) {
    match a
    case Cancel(id) =>
      var i := IndexOf(before, id);
      i < |before| ==> i < |t.loop.timers| && t.loop.timers[i].cancelled
    case CancelOne(h, k) => !Active(t, h, k)
    case CancelHandle(h, order) =>
      forall key :: key in order && IsActive(t, key) ==> t.entries[key].handle != h
  }

  lemma DoneStays(before: seq<Timer>, t: System, u: System, a: Action)
    requires Done(before, t, a) && OnlyEnds(t, u) && SameHandles(t, u)
    ensures Done(before, u, a)
  {
    if a.Cancel? && IndexOf(before, a.id) < |before| {
      var i := IndexOf(before, a.id);
      assert SameTimer(t.loop.timers[i], u.loop.timers[i]);
    }
  }

  predicate SameHandles(s: System, t: System) {
    t.entries.Keys == s.entries.Keys && forall k :: k in s.entries ==> t.entries[k].handle == s.entries[k].handle
  }

  lemma {:induction false} CancelEachHandles(s: System, h: Handle, order: seq<Key>)
    ensures SameHandles(s, CancelEach(s, h, order))
    decreases |order|
  {
    if order != [] { CancelEachHandles(CancelIfOf(s, h, order[0]), h, order[1..]); }
  }

  lemma {:induction false} ActAllHandles(s: System, acts: seq<Action>)
    ensures SameHandles(s, ActAll(s, acts))
    decreases |acts|
  {
    if acts != [] {
      if acts[0].CancelHandle? { CancelEachHandles(s, acts[0].of, acts[0].order); }
      ActAllHandles(Act(s, acts[0]), acts[1..]);
    }
  }

  lemma ActDoes(before: seq<Timer>, s: System, a: Action)
    requires SameIdentity(before, s.loop.timers)
    ensures Done(before, Act(s, a), a)
  {
    match a
    case Cancel(id) => SameIndex(before, s.loop.timers, id);
    case CancelOne(h, k) =>
    case CancelHandle(h, order) => CancelEachKeys(s, h, order);
  }

  /** A callback's actions all take effect, in whatever order it takes them. */
  lemma {:induction false} ActionsTakeEffect(before: seq<Timer>, s: System, acts: seq<Action>, j: nat)
    requires SameIdentity(before, s.loop.timers) && j < |acts|
    ensures Done(before, ActAll(s, acts), acts[j])
    decreases |acts|
  {
    var next, rest := Act(s, acts[0]), acts[1..];
    ActEnds(s, acts[0]);
    forall i | 0 <= i < |before|
      ensures next.loop.timers[i].id == before[i].id && next.loop.timers[i].callback == before[i].callback
    {
      assert SameTimer(s.loop.timers[i], next.loop.timers[i]);
    }
    if j == 0 {
      ActDoes(before, s, acts[0]);
      ActAllEnds(next, rest);
      ActAllHandles(next, rest);
      DoneStays(before, next, ActAll(next, rest), acts[0]);
    } else {
      ActionsTakeEffect(before, next, rest, j - 1);
    }
  }

  lemma ManagedTakesEffect(s: System, i: nat, now: int, acts: seq<Action>, j: nat, key: Key)
    requires i < |s.loop.timers| && s.loop.timers[i].callback.Managed? && IsActive(s, key) && j < |acts|
    requires key == MakeKey(s.loop.timers[i].callback.handle, s.loop.timers[i].callback.kind)
    ensures var u := RunCallback(s, s.loop.timers[i], now, acts);
      Done(s.loop.timers, u, acts[j]) && !IsActive(u, key)
  {
    var ran := Ran(s, i, now, key);
    ManagedCallback(s, i, now, acts, key);
    ActionsTakeEffect(s.loop.timers, ran, acts, j);
    ActAllEnds(ran, acts);
    assert !IsActive(ran, key);
    DoneStays(s.loop.timers, ActAll(ran, acts), Recount(ActAll(ran, acts)), acts[j]);
  }

  lemma ForeignTakesEffect(s: System, t: Timer, now: int, acts: seq<Action>, j: nat)
    requires t.callback.Foreign? && j < |acts|
    ensures Done(s.loop.timers, RunCallback(s, t, now, acts), acts[j])
  {
    ActionsTakeEffect(s.loop.timers, s.(loop := BeginFire(s.loop, t.id, now)), acts, j);
  }

  /** When a due timer's turn comes its callback runs: a timeout is over first, and then all actions take effect. */
  lemma CallbackTakesEffect(s: System, i: nat, now: int, acts: seq<Action>, j: nat)
    requires Inv(s) && i < |s.loop.timers| && Due(s.loop.timers[i], now) && j < |acts|
    ensures var t, u := s.loop.timers[i], RunCallback(s, s.loop.timers[i], now, acts);
      && Done(s.loop.timers, u, acts[j])
      && (t.callback.Managed? ==>
            Active(s, t.callback.handle, t.callback.kind) && !Active(u, t.callback.handle, t.callback.kind))
  {
    var t := s.loop.timers[i];
    if t.callback.Managed? {
      FiresItsOwnEntry(s, i);
      ManagedTakesEffect(s, i, now, acts, j, MakeKey(t.callback.handle, t.callback.kind));
    } else {
      ForeignTakesEffect(s, t, now, acts, j);
    }
  }
}
