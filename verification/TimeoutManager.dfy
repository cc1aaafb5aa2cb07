/** The event loop's timers and the timeout manager as objects, against `TimerSpec`. */
module Timekeeping {
  import Spec = TimerSpec
  import opened TimerRuns

  // ----- the poll timeout -----

  const TICKS_PER_MS: int := 1_000_000
  const LATEST: int := 0x7fff_ffff_ffff_ffff
  const INT_SIZE: int := 0x1_0000_0000

  /** `duration_cast<milliseconds>`, which truncates towards zero. */
  function ToMs(ticks: int): int {
    if ticks >= 0 then ticks / TICKS_PER_MS else -(-ticks / TICKS_PER_MS)
  }

  /** `static_cast<int>` of a 64-bit count. */
  function ToInt(ms: int): int {
    var low := ms % INT_SIZE;
    if low < INT_SIZE / 2 then low else low - INT_SIZE
  }

  predicate Earliest(timers: seq<Spec.Timer>, min: int) {
    && (forall i :: 0 <= i < |timers| && !timers[i].cancelled ==> min <= timers[i].expiry)
    && (min == LATEST || exists i :: 0 <= i < |timers| && !timers[i].cancelled && timers[i].expiry == min)
  }

  predicate AllCancelled(timers: seq<Spec.Timer>) { forall i :: 0 <= i < |timers| ==> timers[i].cancelled }

  /** How long the poller may sleep when the earliest live timer is due at `min`. */
  function Sleep(min: int, now: int): int {
    var ms := ToInt(ToMs(min - now));
    if ms > 0 then ms else 0
  }

  /**
   The loop oversleeps exactly when the earliest timer is overdue by more than 2^31 ms and the low
   word of that count happens to read as a positive number.
   */
  lemma OversleepsIff(min: int, now: int)
    ensures var left := ToMs(min - now);
      (Sleep(min, now) <= if left > 0 then left else 0)
      <==> !(left < -0x8000_0000 && 0 < left % INT_SIZE < 0x8000_0000)
  {
    var left := ToMs(min - now);
    if 0 <= left < INT_SIZE {
      assert left % INT_SIZE == left;
    } else if -INT_SIZE <= left < 0 {
      assert left % INT_SIZE == if left == -INT_SIZE then 0 else left + INT_SIZE;
    }
  }

  /** Within 2^31 ms either way the sleep is the time left in whole milliseconds, rounded towards zero, or none. */
  lemma SleepIsExact(min: int, now: int)
    requires -0x8000_0000 * TICKS_PER_MS < min - now < 0x8000_0000 * TICKS_PER_MS
    ensures var ms := Sleep(min, now);
      if min <= now then ms == 0 else ms * 1_000_000 <= min - now < (ms + 1) * 1_000_000
  {
    var left := ToMs(min - now);
    if min > now {
      assert 0 <= left < 0x8000_0000 && left % INT_SIZE == left;
    } else {
      assert -0x8000_0000 <= left <= 0;
      assert left < 0 ==> left % INT_SIZE == left + INT_SIZE;
    }
  }

  /** The earliest timer has been due for 4294967295 ms, and the loop sleeps for one more. */
  lemma OversleepsExample()
    ensures ToMs(-4294967295 * TICKS_PER_MS) < 0 && Sleep(-4294967295 * TICKS_PER_MS, 0) == 1
  {
    var ticks := 4294967295 * TICKS_PER_MS;
    assert ticks / TICKS_PER_MS == 4294967295;
    assert -4294967295 % INT_SIZE == 1;
  }

  /**
   With nothing but cancelled timers in the list the loop sleeps for the low word of the largest
   time point, in milliseconds, or not at all when that reads as negative.
   */
  lemma NoLiveTimerSleep(now: int)
    requires 0 <= now <= LATEST
    ensures var low := ((LATEST - now) / TICKS_PER_MS) % INT_SIZE;
      Sleep(LATEST, now) == if low < 0x8000_0000 then low else 0
  {
  }

  /** At time zero that is more than 24 days; with no timers at all it would be the configured timeout. */
  lemma NoLiveTimerExample()
    ensures Sleep(LATEST, 0) == 2077252342
  {
    assert LATEST / TICKS_PER_MS == 9223372036854;
    assert 9223372036854 % INT_SIZE == 2077252342;
  }

  class EventLoop {
    var timers: seq<Spec.Timer>
    var nextTimerId: nat
    var timersFired: nat
    var defaultTimeoutMs: int
    ghost var born: seq<Spec.Timer>
    ghost var trace: seq<Spec.Event>
    ghost var clock: int

    ghost function State(): Spec.Loop
      reads this
    {
      Spec.Loop(timers, nextTimerId, timersFired, born, trace, clock)
    }

    constructor (defaultTimeoutMs: int := 100)
      ensures State() == Spec.EMPTY_LOOP
    {
      timers, nextTimerId, timersFired := [], 1, 0;
      this.defaultTimeoutMs := defaultTimeoutMs;
      born, trace, clock := [], [], 0;
    }

    method ScheduleTimer(delay: int, interval: int, callback: Spec.Callback, repeating: bool, now: int)
      returns (id: nat)
      modifies this
      ensures State() == Spec.Schedule(old(State()), delay, interval, callback, repeating, now)
      ensures id == old(nextTimerId)
    {
      id := nextTimerId;
      nextTimerId := nextTimerId + 1;
      var entry := Spec.Timer(id, now + delay, interval, callback, repeating, false);
      timers := timers + [entry];
      born, clock := born + [entry], now;
    }

    method CancelTimer(id: nat) returns (found: bool)
      modifies this`timers, this`trace
      ensures State() == Spec.CancelTimer(old(State()), id)
      ensures found == (Spec.IndexOf(old(timers), id) < old(|timers|))
    {
      for i := 0 to |timers|
        invariant timers == old(timers) && trace == old(trace)
        invariant forall j :: 0 <= j < i ==> timers[j].id != id
      {
        if timers[i].id == id {
          timers := timers[i := timers[i].(cancelled := true)];
          trace := trace + [Spec.Dropped(id)];
          return true;
        }
      }
      return false;
    }

    /** The time to sleep, from a scan for the earliest live timer. */
    method CalculateTimeout(now: int) returns (ms: int)
      ensures timers == [] ==> ms == defaultTimeoutMs
      ensures timers != [] && AllCancelled(timers) ==> ms == Sleep(LATEST, now)
      ensures timers != [] ==> ms >= 0
      ensures forall min :: timers != [] && Earliest(timers, min) && min <= LATEST ==> ms == Sleep(min, now)
    {
      if timers == [] { return defaultTimeoutMs; }
      var min := LATEST;
      for i := 0 to |timers|
        invariant min <= LATEST && Earliest(timers[..i], min)
      {
        if !timers[i].cancelled && timers[i].expiry < min { min := timers[i].expiry; }
      }
      assert timers[..|timers|] == timers;
      ms := Sleep(min, now);
    }

    /** One pass; `acts` says what the callbacks of this pass do. */
    method ProcessTimers(mgr: TimeoutManager, now: int, acts: nat -> seq<Spec.Action>)
      requires mgr.loop == this
      modifies this, mgr
      ensures mgr.loop == this && mgr.State() == Spec.Pass(old(mgr.State()), now, acts)
    {
      clock := now;
      ghost var goal := Spec.VisitFrom(mgr.State(), 0, now, acts);
      var i := 0;
      while i < |timers|
        invariant mgr.loop == this && i <= |timers| && Spec.VisitFrom(mgr.State(), i, now, acts) == goal
        decreases |timers| - i
      {
        Spec.VisitKeepsLength(mgr.State(), i, now, acts);
        mgr.VisitTimer(i, now, acts);
        i := i + 1;
      }
      RemoveCancelled();
    }

    method RemoveCancelled()
      modifies this`timers
      ensures timers == Spec.Live(old(timers))
    {
      var kept := [];
      for i := 0 to |timers|
        invariant timers == old(timers) && Spec.Live(timers) == kept + Spec.Live(timers[i..])
      {
        if !timers[i].cancelled { kept := kept + [timers[i]]; }
      }
      timers := kept;
    }
  }

  class TimeoutManager {
    const loop: EventLoop
    /** Whether `set_event_loop` was called, which is done at most once, before any start. */
    const attached: bool
    var entries: map<Spec.Key, Spec.Entry>
    var stats: Spec.Stats
    ghost var fates: Spec.Fates

    ghost function State(): Spec.System
      reads this, loop
    {
      Spec.System(loop.State(), attached, entries, stats, fates)
    }

    constructor (loop: EventLoop, attached: bool)
      requires loop.State() == Spec.EMPTY_LOOP
      ensures State() == Spec.Initial(attached) && this.loop == loop
    {
      this.loop, this.attached := loop, attached;
      entries, stats, fates := map[], Spec.Stats(0, 0, 0), Spec.Fates(0, {}, {}, {});
    }

    /** `count_active_in_map`, walking the map in whatever order. */
    method CountActive() returns (count: nat)
      ensures count == |Spec.ActiveKeys(entries)|
    {
      var left := entries.Keys;
      ghost var seen: set<Spec.Key> := {};
      count := 0;
      while left != {}
        invariant seen + left == entries.Keys && seen !! left
        invariant count == |ActiveIn(entries, seen)|
        decreases |left|
      {
        var k :| k in left;
        OneMoreKey(entries, seen, k);
        left, seen := left - {k}, seen + {k};
        if entries[k].active { count := count + 1; }
      }
      assert ActiveIn(entries, seen) == Spec.ActiveKeys(entries);
    }

    static function ActiveIn(entries: map<Spec.Key, Spec.Entry>, keys: set<Spec.Key>): set<Spec.Key> {
      set k | k in keys && k in entries && entries[k].active
    }

    static lemma OneMoreKey(entries: map<Spec.Key, Spec.Entry>, keys: set<Spec.Key>, k: Spec.Key)
      requires k in entries && k !in keys
      ensures |ActiveIn(entries, keys + {k})| == |ActiveIn(entries, keys)| + if entries[k].active then 1 else 0
    {
      assert ActiveIn(entries, keys + {k})
        == if entries[k].active then ActiveIn(entries, keys) + {k} else ActiveIn(entries, keys);
    }

    method Recount()
      modifies this`stats
      ensures State() == Spec.Recount(old(State()))
    {
      var n := CountActive();
      stats := stats.(active := n);
    }

    /** The shared part of cancelling and replacing an active entry. */
    method Deactivate(key: Spec.Key)
      requires key in entries && entries[key].active
      modifies this`entries, this`stats, this`fates, loop`timers, loop`trace
      ensures State() == Spec.Deactivate(old(State()), key)
    {
      var entry := entries[key];
      if attached && entry.timer != Spec.INVALID_TIMER {
        var found := loop.CancelTimer(entry.timer);
      }
      entries := entries[key := entry.(active := false)];
      stats := stats.(cancelled := stats.cancelled + 1);
      fates := fates.(dropped := fates.dropped + {entry.timer});
    }

    method StartTimeout(handle: Spec.Handle, kind: Spec.Kind, duration: int, now: int)
      modifies this, loop
      ensures State() == Spec.Start(old(State()), handle, kind, duration, now)
    {
      var key := Spec.MakeKey(handle, kind);
      if key in entries && entries[key].active {
        Deactivate(key);
      }
      Install(key, handle, kind, duration, now);
      Recount();
    }

    /** The timer is scheduled, if there is a loop, and the entry stored. */
    method Install(key: Spec.Key, handle: Spec.Handle, kind: Spec.Kind, duration: int, now: int)
      requires key == Spec.MakeKey(handle, kind)
      modifies this`entries, this`fates, loop
      ensures State() == Spec.Install(old(State()), handle, kind, duration, now)
    {
      var tid := Spec.INVALID_TIMER;
      if attached {
        tid := loop.ScheduleTimer(duration, duration, Spec.Managed(handle, kind), false, now);
      }
      entries := entries[key := Spec.Entry(tid, handle, kind, true)];
      fates := fates.(starts := fates.starts + 1, started := fates.started + {tid});
    }

    method CancelTimeout(handle: Spec.Handle, kind: Spec.Kind) returns (ok: bool)
      modifies this, loop
      ensures State() == Spec.CancelTimeout(old(State()), handle, kind)
      ensures ok == old(Spec.IsActive(State(), Spec.MakeKey(handle, kind)))
    {
      var key := Spec.MakeKey(handle, kind);
      if key !in entries || !entries[key].active { return false; }
      Deactivate(key);
      Recount();
      return true;
    }

    /** `order` is the order in which the hash map is walked. */
    method CancelAll(handle: Spec.Handle, order: seq<Spec.Key>)
      modifies this, loop
      ensures State() == Spec.CancelAll(old(State()), handle, order)
    {
      ghost var goal := Spec.CancelEach(State(), handle, order);
      for i := 0 to |order|
        invariant Spec.CancelEach(State(), handle, order[i..]) == goal
      {
        if order[i] in entries && entries[order[i]].active && entries[order[i]].handle == handle {
          Deactivate(order[i]);
        }
      }
      Recount();
    }

    method ResetIdle(handle: Spec.Handle, duration: int, now: int)
      modifies this, loop
      ensures State() == Spec.ResetIdle(old(State()), handle, duration, now)
    {
      var ok := CancelTimeout(handle, Spec.Idle);
      StartTimeout(handle, Spec.Idle, duration, now);
    }

    method IsActive(handle: Spec.Handle, kind: Spec.Kind) returns (active: bool)
      ensures active == Spec.IsActive(State(), Spec.MakeKey(handle, kind))
    {
      var key := Spec.MakeKey(handle, kind);
      return key in entries && entries[key].active;
    }

    // ----- callbacks -----

    method RunActions(acts: seq<Spec.Action>)
      modifies this, loop
      ensures State() == Spec.ActAll(old(State()), acts)
    {
      ghost var goal := Spec.ActAll(State(), acts);
      for i := 0 to |acts|
        invariant Spec.ActAll(State(), acts[i..]) == goal
      {
        match acts[i]
        case Cancel(id) => var found := loop.CancelTimer(id);
        case CancelOne(h, k) => var ok := CancelTimeout(h, k);
        case CancelHandle(h, order) => CancelAll(h, order);
      }
    }

    /** The lambda that `StartTimeout` hands to the loop. */
    method OnTimer(id: nat, handle: Spec.Handle, kind: Spec.Kind, acts: seq<Spec.Action>)
      modifies this, loop
      ensures State() == Spec.OnTimer(old(State()), id, handle, kind, acts)
    {
      var key := Spec.MakeKey(handle, kind);
      if key in entries && entries[key].active {
        entries := entries[key := entries[key].(active := false)];
        stats := stats.(fired := stats.fired + 1);
        fates := fates.(ran := fates.ran + {id});
        RunActions(acts);
      }
      Recount();
    }

    method RunCallback(timer: Spec.Timer, now: int, acts: seq<Spec.Action>)
      modifies this, loop
      ensures State() == Spec.RunCallback(old(State()), timer, now, acts)
    {
      loop.trace := loop.trace + [Spec.Fired(timer.id, now)];
      match timer.callback
      case Managed(h, k) => OnTimer(timer.id, h, k, acts);
      case Foreign => RunActions(acts);
    }

    /** The loop body of a pass: the callback first, then the timer's own update. */
    method VisitTimer(i: nat, now: int, acts: nat -> seq<Spec.Action>)
      requires i < |loop.timers|
      modifies this, loop
      ensures State() == Spec.Visit(old(State()), i, now, acts)
    {
      var timer := loop.timers[i];
      if timer.cancelled || now < timer.expiry { return; }
      Spec.KeepsLength(State(), timer, now, acts(timer.id));
      RunCallback(timer, now, acts(timer.id));
      loop.timersFired := loop.timersFired + 1;
      var after := loop.timers[i];
      var next := if after.repeating then after.(expiry := now + after.interval) else after.(cancelled := true);
      loop.timers := loop.timers[i := next];
    }
  }

  /** An operation of a run, carried out on the objects. */
  method Perform(mgr: TimeoutManager, op: Op)
    modifies mgr, mgr.loop
    ensures mgr.State() == Apply(old(mgr.State()), op)
  {
    match op
    case StartOp(h, k, duration, now) => mgr.StartTimeout(h, k, duration, now);
    case CancelOp(h, k) => var ok := mgr.CancelTimeout(h, k);
    case CancelAllOp(h, order) => mgr.CancelAll(h, order);
    case ResetOp(h, duration, now) => mgr.ResetIdle(h, duration, now);
    case ScheduleOp(delay, interval, repeating, now) =>
      var id := mgr.loop.ScheduleTimer(delay, interval, Spec.Foreign, repeating, now);
    case CancelTimerOp(id) => var found := mgr.loop.CancelTimer(id);
    case PassOp(now, acts) => mgr.loop.ProcessTimers(mgr, now, acts);
  }
}
