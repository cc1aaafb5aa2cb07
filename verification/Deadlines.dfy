/**
 Runs against what was asked for. What each start and each schedule asks for is read off the operations
 alone: when it is to be over, its interval, whether it repeats, and whose callback it is.
 */
module Deadlines {
  import opened Wrappers
  import opened TimerSpec
  import opened LoopTimers
  import opened Timeouts
  import opened TimerRuns
  import opened TimerProgress

  datatype Wanted = Wanted(deadline: int, interval: int, repeating: bool, callback: Callback)

  /** A start without a loop asks the loop for nothing. */
  function Wants(attached: bool, op: Op): seq<Wanted> {
    match op
    case StartOp(h, k, duration, now) =>
      if attached then [Wanted(now + duration, duration, false, Managed(h, k))] else []
    case ResetOp(h, duration, now) =>
      if attached then [Wanted(now + duration, duration, false, Managed(h, Idle))] else []
    case ScheduleOp(delay, interval, repeating, now) => [Wanted(now + delay, interval, repeating, Foreign)]
    case _ => []
  }

  function WantedBy(attached: bool, ops: seq<Op>): seq<Wanted> {
    if ops == [] then [] else Wants(attached, ops[0]) + WantedBy(attached, ops[1..])
  }

  // ----- what a run schedules -----

  /** The timer with this id is the one wanted under it. */
  predicate WantedAt(l: Loop, wanted: seq<Wanted>, i: nat)
    requires i < |l.born| == |wanted|
  {
    l.born[i] == Timer(i + 1, wanted[i].deadline, wanted[i].interval, wanted[i].callback, wanted[i].repeating, false)
  }

  predicate AsWanted(l: Loop, wanted: seq<Wanted>) {
    |l.born| == |wanted| && l.nextId == |wanted| + 1 && forall i :: 0 <= i < |wanted| ==> WantedAt(l, wanted, i)
  }

  lemma SameBorn(l: Loop, m: Loop, wanted: seq<Wanted>)
    requires AsWanted(l, wanted) && m.born == l.born && m.nextId == l.nextId
    ensures AsWanted(m, wanted)
  {
    forall i | 0 <= i < |wanted| ensures WantedAt(m, wanted, i) { assert WantedAt(l, wanted, i); }
  }

  lemma OneMoreBorn(l: Loop, m: Loop, wanted: seq<Wanted>, w: Wanted)
    requires AsWanted(l, wanted) && m.nextId == l.nextId + 1
    requires m.born == l.born + [Timer(l.nextId, w.deadline, w.interval, w.callback, w.repeating, false)]
    ensures AsWanted(m, wanted + [w])
  {
    forall i | 0 <= i < |wanted + [w]| ensures WantedAt(m, wanted + [w], i) {
      assert i < |wanted| ==> WantedAt(l, wanted, i);
    }
  }

  lemma InstallBorn(s: System, h: Handle, k: Kind, duration: int, now: int, wanted: seq<Wanted>)
    requires AsWanted(s.loop, wanted)
    ensures AsWanted(Install(s, h, k, duration, now).loop, wanted + Wants(s.attached, StartOp(h, k, duration, now)))
  {
    if s.attached {
      var w := Wanted(now + duration, duration, false, Managed(h, k));
      OneMoreBorn(s.loop, Install(s, h, k, duration, now).loop, wanted, w);
    } else {
      assert wanted + [] == wanted;
    }
  }

  lemma StartBorn(s: System, h: Handle, k: Kind, duration: int, now: int, wanted: seq<Wanted>)
    requires AsWanted(s.loop, wanted)
    ensures AsWanted(Start(s, h, k, duration, now).loop, wanted + Wants(s.attached, StartOp(h, k, duration, now)))
    ensures Start(s, h, k, duration, now).attached == s.attached
  {
    var key := MakeKey(h, k);
    var s1 := if IsActive(s, key) then Deactivate(s, key) else s;
    SameBorn(s.loop, s1.loop, wanted);
    InstallBorn(s1, h, k, duration, now, wanted);
    assert Start(s, h, k, duration, now).loop == Install(s1, h, k, duration, now).loop;
  }

  lemma CallbackBorn(s: System, t: Timer, now: int, acts: seq<Action>)
    ensures var u := RunCallback(s, t, now, acts);
      u.loop.born == s.loop.born && u.loop.nextId == s.loop.nextId && u.attached == s.attached
  {
    var begun := s.(loop := BeginFire(s.loop, t.id, now));
    ActAllSchedule(begun, acts);
    if t.callback.Managed? && IsActive(begun, MakeKey(t.callback.handle, t.callback.kind)) {
      var key := MakeKey(t.callback.handle, t.callback.kind);
      ActAllSchedule(begun.(entries := s.entries[key := s.entries[key].(active := false)],
                        stats := s.stats.(fired := s.stats.fired + 1),
                        fates := s.fates.(ran := s.fates.ran + {t.id})), acts);
    }
  }

  lemma {:induction false} VisitsBorn(s: System, i: nat, now: int, acts: nat -> seq<Action>)
    requires i <= |s.loop.timers|
    ensures var u := VisitFrom(s, i, now, acts);
      u.loop.born == s.loop.born && u.loop.nextId == s.loop.nextId && u.attached == s.attached
    decreases |s.loop.timers| - i
  {
    if i < |s.loop.timers| {
      CallbackBorn(s, s.loop.timers[i], now, acts(s.loop.timers[i].id));
      VisitKeepsLength(s, i, now, acts);
      VisitsBorn(Visit(s, i, now, acts), i + 1, now, acts);
    }
  }

  lemma ApplyBorn(s: System, op: Op, wanted: seq<Wanted>)
    requires AsWanted(s.loop, wanted)
    ensures AsWanted(Apply(s, op).loop, wanted + Wants(s.attached, op)) && Apply(s, op).attached == s.attached
  {
    assert wanted + [] == wanted;
    match op
    case StartOp(h, k, duration, now) => StartBorn(s, h, k, duration, now, wanted);
    case ResetOp(h, duration, now) =>
      SameBorn(s.loop, CancelTimeout(s, h, Idle).loop, wanted);
      StartBorn(CancelTimeout(s, h, Idle), h, Idle, duration, now, wanted);
    case ScheduleOp(delay, interval, repeating, now) =>
      OneMoreBorn(s.loop, Apply(s, op).loop, wanted, Wanted(now + delay, interval, repeating, Foreign));
    case CancelAllOp(h, order) =>
      CancelEachSchedule(s, h, order);
      CancelEachAttached(s, h, order);
      SameBorn(s.loop, Apply(s, op).loop, wanted);
    case PassOp(now, acts) =>
      VisitsBorn(s.(loop := s.loop.(clock := now)), 0, now, acts);
      SameBorn(s.loop, Apply(s, op).loop, wanted);
    case _ => SameBorn(s.loop, Apply(s, op).loop, wanted);
  }

  lemma {:induction false} RunBorn(s: System, ops: seq<Op>, wanted: seq<Wanted>)
    requires AsWanted(s.loop, wanted)
    ensures AsWanted(Run(s, ops).loop, wanted + WantedBy(s.attached, ops))
    decreases |ops|
  {
    if ops == [] {
      assert wanted + [] == wanted;
    } else {
      ApplyBorn(s, ops[0], wanted);
      RunBorn(Apply(s, ops[0]), ops[1..], wanted + Wants(s.attached, ops[0]));
      assert wanted + Wants(s.attached, ops[0]) + WantedBy(s.attached, ops[1..]) == wanted + WantedBy(s.attached, ops);
    }
  }

  /** Over every run, the timers that were scheduled are those that were asked for, in order. */
  lemma ScheduledAsWanted(attached: bool, ops: seq<Op>)
    ensures AsWanted(Run(Initial(attached), ops).loop, WantedBy(attached, ops))
  {
    RunBorn(Initial(attached), ops, []);
    assert [] + WantedBy(attached, ops) == WantedBy(attached, ops);
  }

  // ----- nothing comes early, and repeats come when they should -----

  /** Over every run: no timer fires before its deadline, and only repeating ones fire again, an interval later. */
  lemma FiresMeetDeadlines(attached: bool, ops: seq<Op>, x: nat)
    requires LegalRun(Initial(attached), ops) && x < |Run(Initial(attached), ops).loop.trace|
    requires Run(Initial(attached), ops).loop.trace[x].Fired?
    ensures var trace, wanted := Run(Initial(attached), ops).loop.trace, WantedBy(attached, ops);
      var e := trace[x];
      && 1 <= e.id <= |wanted| && e.now >= wanted[e.id - 1].deadline
      && forall y :: x < y < |trace| && trace[y].Fired? && trace[y].id == e.id ==>
           wanted[e.id - 1].repeating && trace[y].now >= e.now + wanted[e.id - 1].interval
  {
    var l, wanted := Run(Initial(attached), ops).loop, WantedBy(attached, ops);
    ScheduledAsWanted(attached, ops);
    EveryRun(attached, ops);
    assert NotEarly(l, x);
    assert WantedAt(l, wanted, l.trace[x].id - 1);
    forall y | x < y < |l.trace| && l.trace[y].Fired? && l.trace[y].id == l.trace[x].id
      ensures var w := wanted[l.trace[x].id - 1]; w.repeating && l.trace[y].now >= l.trace[x].now + w.interval
    {
      assert Spaced(l, x, y);
    }
  }

  /** The timer is due at its deadline, and if it has fired, an interval after the last time. */
  predicate DueAsWanted(l: Loop, wanted: seq<Wanted>, t: Timer) {
    && 1 <= t.id <= |wanted|
    && var w := wanted[t.id - 1];
       && t.callback == w.callback && t.repeating == w.repeating && t.interval == w.interval
       && match LastFire(l.trace, t.id)
          case None => t.expiry == w.deadline
          case Some(now) => w.repeating && t.expiry == now + w.interval
  }

  lemma DueAsBorn(l: Loop, wanted: seq<Wanted>, i: nat)
    requires LoopInv(l, -1) && AsWanted(l, wanted) && i < |l.timers| && !l.timers[i].cancelled
    ensures DueAsWanted(l, wanted, l.timers[i])
  {
    assert NextExpiryOk(l, i);
    assert WantedAt(l, wanted, l.timers[i].id - 1);
    if LastFire(l.trace, l.timers[i].id).Some? {
      var x := FireOf(l.trace, l.timers[i].id);
      assert AfterFire(l, x, i);
    }
  }

  /** Over every run, every live timer is due exactly when it should be. */
  lemma TimersAreDueExactly(attached: bool, ops: seq<Op>, i: nat)
    requires LegalRun(Initial(attached), ops) && i < |Run(Initial(attached), ops).loop.timers|
    requires !Run(Initial(attached), ops).loop.timers[i].cancelled
    ensures var l := Run(Initial(attached), ops).loop; DueAsWanted(l, WantedBy(attached, ops), l.timers[i])
  {
    ScheduledAsWanted(attached, ops);
    EveryRun(attached, ops);
    DueAsBorn(Run(Initial(attached), ops).loop, WantedBy(attached, ops), i);
  }

  lemma {:induction false} FireOf(trace: seq<Event>, id: nat) returns (x: nat)
    requires LastFire(trace, id).Some?
    ensures x < |trace| && trace[x] == Fired(id, LastFire(trace, id).value)
  {
    x := |trace| - 1;
    if !(trace[x].Fired? && trace[x].id == id) { x := FireOf(trace[..x], id); }
  }

  // ----- timeouts -----

  predicate StartedAs(l: Loop, id: nat) { 1 <= id <= |l.born| && l.born[id - 1].callback.Managed? }

  ghost predicate HasFired(trace: seq<Event>, id: nat) {
    exists x :: 0 <= x < |trace| && trace[x].Fired? && trace[x].id == id
  }

  /** The timeouts that have started are the timers of the manager; those that have called back have fired. */
  ghost predicate Recorded(s: System) {
    && s.loop.nextId == |s.loop.born| + 1
    && (s.attached ==> forall id :: id in s.fates.started <==> StartedAs(s.loop, id))
    && forall id :: id in s.fates.ran ==> HasFired(s.loop.trace, id)
  }

  /** Nothing is started and no callback runs; the history only grows. */
  predicate SameHistory(s: System, t: System) {
    && s.loop.trace <= t.loop.trace && t.loop.born == s.loop.born && t.loop.nextId == s.loop.nextId
    && t.attached == s.attached && t.fates.started == s.fates.started && t.fates.ran == s.fates.ran
  }

  lemma FiredGrows(a: seq<Event>, b: seq<Event>, id: nat)
    requires a <= b && HasFired(a, id)
    ensures HasFired(b, id)
  {
    var x :| 0 <= x < |a| && a[x].Fired? && a[x].id == id;
    assert b[x] == a[x];
  }

  lemma HistoryRecorded(s: System, t: System)
    requires Recorded(s) && SameHistory(s, t)
    ensures Recorded(t)
  {
    forall id | id in t.fates.ran ensures HasFired(t.loop.trace, id) { FiredGrows(s.loop.trace, t.loop.trace, id); }
    forall id ensures StartedAs(t.loop, id) <==> StartedAs(s.loop, id) {}
  }

  lemma {:induction false} CancelEachHistory(s: System, h: Handle, order: seq<Key>)
    ensures SameHistory(s, CancelEach(s, h, order))
    decreases |order|
  {
    if order != [] { CancelEachHistory(CancelIfOf(s, h, order[0]), h, order[1..]); }
  }

  lemma {:induction false} ActAllHistory(s: System, acts: seq<Action>)
    ensures SameHistory(s, ActAll(s, acts))
    decreases |acts|
  {
    if acts != [] {
      if acts[0].CancelHandle? { CancelEachHistory(s, acts[0].of, acts[0].order); }
      ActAllHistory(Act(s, acts[0]), acts[1..]);
    }
  }

  /** The manager's part of a fire: its timer has an event, and is one that ran. */
  lemma RanRecorded(s: System, t: System, id: nat, now: int)
    requires Recorded(s) && t.loop == BeginFire(s.loop, id, now) && t.attached == s.attached
    requires t.fates.started == s.fates.started && t.fates.ran == s.fates.ran + {id}
    ensures Recorded(t)
  {
    assert t.loop.trace[|s.loop.trace|] == Fired(id, now);
    forall other | other in t.fates.ran ensures HasFired(t.loop.trace, other) {
      if other != id { FiredGrows(s.loop.trace, t.loop.trace, other); }
    }
    forall other ensures StartedAs(t.loop, other) <==> StartedAs(s.loop, other) {}
  }

  lemma CallbackRecorded(s: System, t: Timer, now: int, acts: seq<Action>)
    requires Recorded(s)
    ensures Recorded(RunCallback(s, t, now, acts))
  {
    var begun := s.(loop := BeginFire(s.loop, t.id, now));
    HistoryRecorded(s, begun);
    if t.callback.Managed? && IsActive(begun, MakeKey(t.callback.handle, t.callback.kind)) {
      var key := MakeKey(t.callback.handle, t.callback.kind);
      var ran := begun.(entries := s.entries[key := s.entries[key].(active := false)],
                        stats := s.stats.(fired := s.stats.fired + 1),
                        fates := s.fates.(ran := s.fates.ran + {t.id}));
      RanRecorded(s, ran, t.id, now);
      ActAllHistory(ran, acts);
      HistoryRecorded(ran, RunCallback(s, t, now, acts));
    } else {
      ActAllHistory(begun, acts);
      HistoryRecorded(begun, RunCallback(s, t, now, acts));
    }
  }

  lemma {:induction false} VisitsRecorded(s: System, i: nat, now: int, acts: nat -> seq<Action>)
    requires Recorded(s) && i <= |s.loop.timers|
    ensures Recorded(VisitFrom(s, i, now, acts))
    decreases |s.loop.timers| - i
  {
    if i < |s.loop.timers| {
      var t := s.loop.timers[i];
      CallbackRecorded(s, t, now, acts(t.id));
      if Due(t, now) { HistoryRecorded(RunCallback(s, t, now, acts(t.id)), Visit(s, i, now, acts)); }
      VisitKeepsLength(s, i, now, acts);
      VisitsRecorded(Visit(s, i, now, acts), i + 1, now, acts);
    }
  }

  lemma InstallRecorded(s: System, h: Handle, k: Kind, duration: int, now: int)
    requires Recorded(s)
    ensures Recorded(Install(s, h, k, duration, now))
  {
    var t := Install(s, h, k, duration, now);
    if s.attached {
      forall id: nat ensures StartedAs(t.loop, id) <==> StartedAs(s.loop, id) || id == s.loop.nextId {
        assert 1 <= id <= |s.loop.born| ==> t.loop.born[id - 1] == s.loop.born[id - 1];
      }
    }
  }

  lemma StartRecorded(s: System, h: Handle, k: Kind, duration: int, now: int)
    requires Recorded(s)
    ensures Recorded(Start(s, h, k, duration, now))
  {
    var key := MakeKey(h, k);
    var s1 := if IsActive(s, key) then Deactivate(s, key) else s;
    HistoryRecorded(s, s1);
    InstallRecorded(s1, h, k, duration, now);
    HistoryRecorded(Install(s1, h, k, duration, now), Start(s, h, k, duration, now));
  }

  lemma ScheduleRecorded(s: System, delay: int, interval: int, repeating: bool, now: int)
    requires Recorded(s)
    ensures Recorded(s.(loop := Schedule(s.loop, delay, interval, Foreign, repeating, now)))
  {
    var t := s.(loop := Schedule(s.loop, delay, interval, Foreign, repeating, now));
    forall id: nat ensures StartedAs(t.loop, id) <==> StartedAs(s.loop, id) {
      assert 1 <= id <= |s.loop.born| ==> t.loop.born[id - 1] == s.loop.born[id - 1];
    }
  }

  lemma ApplyRecorded(s: System, op: Op)
    requires Recorded(s)
    ensures Recorded(Apply(s, op))
  {
    match op
    case StartOp(h, k, duration, now) => StartRecorded(s, h, k, duration, now);
    case ResetOp(h, duration, now) =>
      HistoryRecorded(s, CancelTimeout(s, h, Idle));
      StartRecorded(CancelTimeout(s, h, Idle), h, Idle, duration, now);
    case ScheduleOp(delay, interval, repeating, now) => ScheduleRecorded(s, delay, interval, repeating, now);
    case CancelAllOp(h, order) =>
      CancelEachHistory(s, h, order);
      HistoryRecorded(s, Apply(s, op));
    case PassOp(now, acts) =>
      var begun := s.(loop := s.loop.(clock := now));
      HistoryRecorded(s, begun);
      VisitsRecorded(begun, 0, now, acts);
      HistoryRecorded(VisitFrom(begun, 0, now, acts), Apply(s, op));
    case _ => HistoryRecorded(s, Apply(s, op));
  }

  lemma {:induction false} RunRecorded(s: System, ops: seq<Op>)
    requires Recorded(s)
    ensures Recorded(Run(s, ops))
    decreases |ops|
  {
    if ops != [] {
      ApplyRecorded(s, ops[0]);
      RunRecorded(Apply(s, ops[0]), ops[1..]);
    }
  }

  /** Over every run the started timeouts are those that were asked for. */
  lemma StartedAsWanted(ops: seq<Op>, id: nat)
    ensures var s, wanted := Run(Initial(true), ops), WantedBy(true, ops);
      && (id in s.fates.started <==> 1 <= id <= |wanted| && wanted[id - 1].callback.Managed?)
      && (id in s.fates.ran ==> HasFired(s.loop.trace, id))
  {
    var s, wanted := Run(Initial(true), ops), WantedBy(true, ops);
    RunRecorded(Initial(true), ops);
    ScheduledAsWanted(true, ops);
    RunAttached(Initial(true), ops, []);
    if 1 <= id <= |wanted| { assert WantedAt(s.loop, wanted, id - 1); }
  }

  lemma {:induction false} RunAttached(s: System, ops: seq<Op>, wanted: seq<Wanted>)
    requires AsWanted(s.loop, wanted)
    ensures Run(s, ops).attached == s.attached
    decreases |ops|
  {
    if ops != [] {
      ApplyBorn(s, ops[0], wanted);
      RunAttached(Apply(s, ops[0]), ops[1..], wanted + Wants(s.attached, ops[0]));
    }
  }

  /** No timeout calls back before its deadline. */
  lemma NoTimeoutIsEarly(ops: seq<Op>, id: nat)
    requires LegalRun(Initial(true), ops) && id in Run(Initial(true), ops).fates.ran
    ensures var s, wanted := Run(Initial(true), ops), WantedBy(true, ops);
      && 1 <= id <= |wanted|
      && exists x :: 0 <= x < |s.loop.trace| && s.loop.trace[x].Fired? && s.loop.trace[x].id == id
                     && s.loop.trace[x].now >= wanted[id - 1].deadline
  {
    var s := Run(Initial(true), ops);
    StartedAsWanted(ops, id);
    var x :| 0 <= x < |s.loop.trace| && s.loop.trace[x].Fired? && s.loop.trace[x].id == id;
    FiresMeetDeadlines(true, ops, x);
  }

  lemma ActiveHasNotFired(s: System, key: Key)
    requires Inv(s) && s.attached && IsActive(s, key)
    ensures var i := IndexOf(s.loop.timers, s.entries[key].timer);
      && i < |s.loop.timers| && s.loop.timers[i].id == s.entries[key].timer && !s.loop.timers[i].cancelled
      && LastFire(s.loop.trace, s.loop.timers[i].id) == None
  {
    assert Backed(s, key, -1);
    EventEndsTimer(s, IndexOf(s.loop.timers, s.entries[key].timer));
    NeverFired(s.loop.trace, s.loop.timers[IndexOf(s.loop.timers, s.entries[key].timer)].id);
  }

  lemma ActiveEntry(s: System, id: nat) returns (key: Key)
    requires id in ActiveIds(s)
    ensures IsActive(s, key) && s.entries[key].timer == id
  {
    key :| key in ActiveKeys(s.entries) && s.entries[key].timer == id;
  }

  lemma EndedOrActive(s: System, id: nat)
    requires Partition(s.fates, ActiveIds(s)) && id in s.fates.started && id !in ActiveIds(s)
    ensures id in s.fates.ran + s.fates.dropped
  {
  }

  /** The timer of an active timeout has not fired, so it is due at its deadline. */
  lemma ActiveIsUnfired(ops: seq<Op>, key: Key)
    requires LegalRun(Initial(true), ops) && IsActive(Run(Initial(true), ops), key)
    ensures var s := Run(Initial(true), ops);
      var i := IndexOf(s.loop.timers, s.entries[key].timer);
      && i < |s.loop.timers| && s.loop.timers[i].id == s.entries[key].timer && !s.loop.timers[i].cancelled
      && LastFire(s.loop.trace, s.loop.timers[i].id) == None
  {
    EveryRun(true, ops);
    ActiveHasNotFired(Run(Initial(true), ops), key);
  }

  /** A timeout that is active and not overdue has its deadline ahead of it. */
  lemma ActiveIsAhead(ops: seq<Op>, key: Key, now: int)
    requires LegalRun(Initial(true), ops)
    requires IsActive(Run(Initial(true), ops), key) && !Overdue(Run(Initial(true), ops), key, now)
    ensures var id, wanted := Run(Initial(true), ops).entries[key].timer, WantedBy(true, ops);
      1 <= id <= |wanted| && wanted[id - 1].deadline > now
  {
    var s := Run(Initial(true), ops);
    ActiveIsUnfired(ops, key);
    TimersAreDueExactly(true, ops, IndexOf(s.loop.timers, s.entries[key].timer));
  }

  lemma RunPartition(ops: seq<Op>)
    requires LegalRun(Initial(true), ops)
    ensures var s := Run(Initial(true), ops); Partition(s.fates, ActiveIds(s))
  {
    EveryRun(true, ops);
  }

  /** A pass at or after its deadline ends a timeout: it has called back, or was cancelled. */
  lemma TimeoutsEndAtTheirDeadline(ops: seq<Op>, now: int, acts: nat -> seq<Action>, id: nat)
    requires LegalRun(Initial(true), ops + [PassOp(now, acts)])
    requires var wanted := WantedBy(true, ops + [PassOp(now, acts)]);
      1 <= id <= |wanted| && wanted[id - 1].callback.Managed? && wanted[id - 1].deadline <= now
    ensures var s := Run(Initial(true), ops + [PassOp(now, acts)]); id in s.fates.ran + s.fates.dropped
  {
    var all := ops + [PassOp(now, acts)];
    var s := Run(Initial(true), all);
    if id in ActiveIds(s) {
      var key := ActiveEntry(s, id);
      NoTimeoutIsOverdue(ops, now, acts, key);
      ActiveIsAhead(all, key, now);
    }
    StartedAsWanted(all, id);
    RunPartition(all);
    EndedOrActive(s, id);
  }

  // ----- the loop's own count -----

  function Fires(trace: seq<Event>): nat {
    if trace == [] then 0
    else Fires(trace[..|trace| - 1]) + if trace[|trace| - 1].Fired? then 1 else 0
  }

  lemma FiresAppend(trace: seq<Event>, e: Event)
    ensures Fires(trace + [e]) == Fires(trace) + if e.Fired? then 1 else 0
  {
    assert (trace + [e])[..|trace|] == trace;
  }

  /** Cancelling fires nothing. */
  predicate SameFires(s: System, t: System) {
    Fires(t.loop.trace) == Fires(s.loop.trace) && t.loop.fired == s.loop.fired
  }

  lemma CancelFires(l: Loop, id: nat)
    ensures Fires(CancelTimer(l, id).trace) == Fires(l.trace) && CancelTimer(l, id).fired == l.fired
  {
    FiresAppend(l.trace, Dropped(id));
  }

  lemma {:induction false} CancelEachFires(s: System, h: Handle, order: seq<Key>)
    ensures SameFires(s, CancelEach(s, h, order))
    decreases |order|
  {
    if order != [] {
      if order[0] in s.entries { CancelFires(s.loop, s.entries[order[0]].timer); }
      CancelEachFires(CancelIfOf(s, h, order[0]), h, order[1..]);
    }
  }

  lemma ActFires(s: System, a: Action)
    ensures SameFires(s, Act(s, a))
  {
    match a
    case Cancel(id) => CancelFires(s.loop, id);
    case CancelOne(h, k) =>
      if MakeKey(h, k) in s.entries { CancelFires(s.loop, s.entries[MakeKey(h, k)].timer); }
    case CancelHandle(h, order) => CancelEachFires(s, h, order);
  }

  lemma {:induction false} ActAllFires(s: System, acts: seq<Action>)
    ensures SameFires(s, ActAll(s, acts))
    decreases |acts|
  {
    if acts != [] {
      ActFires(s, acts[0]);
      ActAllFires(Act(s, acts[0]), acts[1..]);
    }
  }

  lemma CallbackFires(s: System, t: Timer, now: int, acts: seq<Action>)
    ensures var u := RunCallback(s, t, now, acts);
      Fires(u.loop.trace) == Fires(s.loop.trace) + 1 && u.loop.fired == s.loop.fired
  {
    var begun := s.(loop := BeginFire(s.loop, t.id, now));
    FiresAppend(s.loop.trace, Fired(t.id, now));
    ActAllFires(begun, acts);
    if t.callback.Managed? && IsActive(begun, MakeKey(t.callback.handle, t.callback.kind)) {
      var key := MakeKey(t.callback.handle, t.callback.kind);
      ActAllFires(begun.(entries := s.entries[key := s.entries[key].(active := false)],
                         stats := s.stats.(fired := s.stats.fired + 1),
                         fates := s.fates.(ran := s.fates.ran + {t.id})), acts);
    }
  }

  predicate CountsFires(l: Loop) { l.fired == Fires(l.trace) }

  lemma {:induction false} VisitsCount(s: System, i: nat, now: int, acts: nat -> seq<Action>)
    requires CountsFires(s.loop) && i <= |s.loop.timers|
    ensures CountsFires(VisitFrom(s, i, now, acts).loop)
    decreases |s.loop.timers| - i
  {
    if i < |s.loop.timers| {
      CallbackFires(s, s.loop.timers[i], now, acts(s.loop.timers[i].id));
      VisitKeepsLength(s, i, now, acts);
      VisitsCount(Visit(s, i, now, acts), i + 1, now, acts);
    }
  }

  lemma ApplyCounts(s: System, op: Op)
    requires CountsFires(s.loop)
    ensures CountsFires(Apply(s, op).loop)
  {
    match op
    case StartOp(h, k, _, _) => ActFires(s, CancelOne(h, k));
    case CancelOp(h, k) => ActFires(s, CancelOne(h, k));
    case ResetOp(h, _, _) => ActFires(s, CancelOne(h, Idle));
    case CancelAllOp(h, order) => CancelEachFires(s, h, order);
    case CancelTimerOp(id) => CancelFires(s.loop, id);
    case PassOp(now, acts) => VisitsCount(s.(loop := s.loop.(clock := now)), 0, now, acts);
    case ScheduleOp(_, _, _, _) =>
  }

  /** Over every run the loop's statistics count the fires, each once. */
  lemma {:induction false} FiresAreCounted(s: System, ops: seq<Op>)
    requires CountsFires(s.loop)
    ensures CountsFires(Run(s, ops).loop)
    decreases |ops|
  {
    if ops != [] {
      ApplyCounts(s, ops[0]);
      FiresAreCounted(Apply(s, ops[0]), ops[1..]);
    }
  }
}
