/** What a pass achieves: every timer that is due fires or has been cancelled, and none stays overdue. */
module TimerProgress {
  import opened TimerSpec
  import opened LoopTimers
  import opened Timeouts
  import opened TimerRuns

  ghost predicate DroppedSince(trace: seq<Event>, from: nat, id: nat) {
    exists x :: from <= x < |trace| && trace[x] == Dropped(id)
  }

  ghost predicate FiredSince(trace: seq<Event>, from: nat, id: nat, now: int) {
    exists x :: from <= x < |trace| && trace[x] == Fired(id, now)
  }

  lemma TraceGrows(a: seq<Event>, b: seq<Event>, from: nat, id: nat, now: int)
    requires a <= b
    ensures DroppedSince(a, from, id) ==> DroppedSince(b, from, id)
    ensures FiredSince(a, from, id, now) ==> FiredSince(b, from, id, now)
  {
    if DroppedSince(a, from, id) {
      var x :| from <= x < |a| && a[x] == Dropped(id);
      assert b[x] == Dropped(id);
    }
    if FiredSince(a, from, id, now) {
      var x :| from <= x < |a| && a[x] == Fired(id, now);
      assert b[x] == Fired(id, now);
    }
  }

  // ----- while a callback runs -----

  /** The timer at `j` is as it was, or has been marked; marking it has left an event since `from`. */
  ghost predicate MarkedAt(l: Loop, m: Loop, from: nat, j: nat)
    requires j < |l.timers| && |m.timers| == |l.timers|
  {
    && SameTimer(l.timers[j], m.timers[j])
    && (!l.timers[j].cancelled && m.timers[j].cancelled ==> DroppedSince(m.trace, from, l.timers[j].id))
  }

  ghost predicate Marked(l: Loop, m: Loop, from: nat) {
    && |m.timers| == |l.timers| && l.trace <= m.trace
    && forall j :: 0 <= j < |l.timers| ==> MarkedAt(l, m, from, j)
  }

  lemma MarkedTwice(l: Loop, m: Loop, n: Loop, from: nat)
    requires Marked(l, m, from) && Marked(m, n, from)
    ensures Marked(l, n, from)
  {
    forall j | 0 <= j < |l.timers| ensures MarkedAt(l, n, from, j) {
      assert MarkedAt(l, m, from, j) && MarkedAt(m, n, from, j);
      TraceGrows(m.trace, n.trace, from, l.timers[j].id, 0);
    }
  }

  lemma CancelMarks(l: Loop, id: nat, from: nat)
    requires from <= |l.trace|
    ensures Marked(l, CancelTimer(l, id), from)
  {
    var m := CancelTimer(l, id);
    if IndexOf(l.timers, id) < |l.timers| { assert m.trace[|l.trace|] == Dropped(id); }
  }

  lemma {:induction false} CancelEachMarks(s: System, h: Handle, order: seq<Key>, from: nat)
    requires from <= |s.loop.trace|
    ensures Marked(s.loop, CancelEach(s, h, order).loop, from)
    decreases |order|
  {
    if order != [] {
      var next := CancelIfOf(s, h, order[0]);
      if order[0] in s.entries { CancelMarks(s.loop, s.entries[order[0]].timer, from); }
      CancelEachMarks(next, h, order[1..], from);
      MarkedTwice(s.loop, next.loop, CancelEach(s, h, order).loop, from);
    }
  }

  lemma ActMarks(s: System, a: Action, from: nat)
    requires from <= |s.loop.trace|
    ensures Marked(s.loop, Act(s, a).loop, from)
  {
    match a
    case Cancel(id) => CancelMarks(s.loop, id, from);
    case CancelOne(h, k) =>
      if IsActive(s, MakeKey(h, k)) { CancelMarks(s.loop, s.entries[MakeKey(h, k)].timer, from); }
    case CancelHandle(h, order) => CancelEachMarks(s, h, order, from);
  }

  lemma {:induction false} ActAllMarks(s: System, acts: seq<Action>, from: nat)
    requires from <= |s.loop.trace|
    ensures Marked(s.loop, ActAll(s, acts).loop, from)
    decreases |acts|
  {
    if acts != [] {
      ActMarks(s, acts[0], from);
      ActAllMarks(Act(s, acts[0]), acts[1..], from);
      MarkedTwice(s.loop, Act(s, acts[0]).loop, ActAll(s, acts).loop, from);
    }
  }

  /** The event of the fire comes first, then whatever the callback cancels. */
  lemma CallbackMarks(s: System, t: Timer, now: int, acts: seq<Action>, from: nat)
    requires from <= |s.loop.trace|
    ensures var m := RunCallback(s, t, now, acts).loop;
      Marked(s.loop, m, from) && FiredSince(m.trace, from, t.id, now)
  {
    var begun := s.(loop := BeginFire(s.loop, t.id, now));
    assert begun.loop.trace[|s.loop.trace|] == Fired(t.id, now);
    ActAllMarks(begun, acts, from);
    TraceGrows(begun.loop.trace, ActAll(begun, acts).loop.trace, from, t.id, now);
    if t.callback.Managed? && IsActive(begun, MakeKey(t.callback.handle, t.callback.kind)) {
      var key := MakeKey(t.callback.handle, t.callback.kind);
      var ran := begun.(entries := s.entries[key := s.entries[key].(active := false)],
                        stats := s.stats.(fired := s.stats.fired + 1),
                        fates := s.fates.(ran := s.fates.ran + {t.id}));
      ActAllMarks(ran, acts, from);
      TraceGrows(ran.loop.trace, ActAll(ran, acts).loop.trace, from, t.id, now);
    }
    MarkedTwice(s.loop, begun.loop, RunCallback(s, t, now, acts).loop, from);
  }

  // ----- one pass -----

  /** The timer at `j` has been dealt with: it was not due, or there is an event for it and it is not overdue. */
  ghost predicate Settled(l: Loop, m: Loop, now: int, j: nat)
    requires j < |l.timers| && |m.timers| == |l.timers|
  {
    var t, u := l.timers[j], m.timers[j];
    if Due(t, now) then
      && (FiredSince(m.trace, |l.trace|, t.id, now) || DroppedSince(m.trace, |l.trace|, t.id))
      && (u.cancelled || (u.repeating && u.expiry == now + u.interval))
    else SameTimer(t, u)
  }

  /** `l` is the loop when the pass began; the timers before `i` have been visited. */
  ghost predicate VisitedTo(l: Loop, m: Loop, now: int, i: nat) {
    && |m.timers| == |l.timers| && l.trace <= m.trace
    && (forall j :: i <= j < |l.timers| ==> MarkedAt(l, m, |l.trace|, j))
    && (forall j :: 0 <= j < i && j < |l.timers| ==> Settled(l, m, now, j))
  }

  lemma SettledStays(l: Loop, m: Loop, n: Loop, now: int, j: nat)
    requires j < |l.timers| == |m.timers| && Settled(l, m, now, j)
    requires |n.timers| == |m.timers| && m.trace <= n.trace && SameTimer(m.timers[j], n.timers[j])
    ensures Settled(l, n, now, j)
  {
    TraceGrows(m.trace, n.trace, |l.trace|, l.timers[j].id, now);
  }

  lemma MarkedStays(l: Loop, m: Loop, n: Loop, j: nat)
    requires j < |l.timers| == |m.timers| && MarkedAt(l, m, |l.trace|, j)
    requires |n.timers| == |m.timers| && m.trace <= n.trace && MarkedAt(m, n, |l.trace|, j)
    ensures MarkedAt(l, n, |l.trace|, j)
  {
    TraceGrows(m.trace, n.trace, |l.trace|, l.timers[j].id, 0);
  }

  lemma VisitSettles(l: Loop, s: System, i: nat, now: int, acts: nat -> seq<Action>)
    requires VisitedTo(l, s.loop, now, i) && i < |l.timers|
    ensures VisitedTo(l, Visit(s, i, now, acts).loop, now, i + 1)
  {
    var m, n, t := s.loop, Visit(s, i, now, acts).loop, s.loop.timers[i];
    assert MarkedAt(l, m, |l.trace|, i);
    if Due(t, now) {
      var after := RunCallback(s, t, now, acts(t.id)).loop;
      CallbackMarks(s, t, now, acts(t.id), |l.trace|);
      assert n == EndFire(after, i, now) && MarkedAt(m, after, |l.trace|, i);
      forall j | i < j < |l.timers| ensures MarkedAt(l, n, |l.trace|, j) {
        assert MarkedAt(m, after, |l.trace|, j) && MarkedAt(l, m, |l.trace|, j);
        MarkedStays(l, m, n, j);
      }
      forall j | 0 <= j < i ensures Settled(l, n, now, j) {
        assert MarkedAt(m, after, |l.trace|, j) && Settled(l, m, now, j);
        SettledStays(l, m, n, now, j);
      }
    }
    assert Settled(l, n, now, i);
  }

  lemma {:induction false} VisitsSettle(l: Loop, s: System, i: nat, now: int, acts: nat -> seq<Action>)
    requires VisitedTo(l, s.loop, now, i) && i <= |l.timers|
    ensures VisitedTo(l, VisitFrom(s, i, now, acts).loop, now, |l.timers|)
    decreases |l.timers| - i
  {
    if i < |l.timers| {
      VisitSettles(l, s, i, now, acts);
      VisitKeepsLength(s, i, now, acts);
      VisitsSettle(l, Visit(s, i, now, acts), i + 1, now, acts);
    }
  }

  /** The pass before cancelled timers are removed. */
  function AllVisited(s: System, now: int, acts: nat -> seq<Action>): System {
    VisitFrom(s.(loop := s.loop.(clock := now)), 0, now, acts)
  }

  lemma PassSettles(s: System, now: int, acts: nat -> seq<Action>)
    ensures VisitedTo(s.loop, AllVisited(s, now, acts).loop, now, |s.loop.timers|)
  {
    VisitsSettle(s.loop, s.(loop := s.loop.(clock := now)), 0, now, acts);
  }

  /** Every timer that is live and due when a pass begins fires in it, or is cancelled in it. */
  lemma DueTimersFire(s: System, now: int, acts: nat -> seq<Action>, i: nat)
    requires i < |s.loop.timers| && Due(s.loop.timers[i], now)
    ensures var trace, id := Pass(s, now, acts).loop.trace, s.loop.timers[i].id;
      s.loop.trace <= trace && (FiredSince(trace, |s.loop.trace|, id, now) || DroppedSince(trace, |s.loop.trace|, id))
  {
    PassSettles(s, now, acts);
    assert Settled(s.loop, AllVisited(s, now, acts).loop, now, i);
  }

  /** No timer that is left after a pass is overdue, except a repeating one whose interval is not positive. */
  lemma NothingStaysOverdue(s: System, now: int, acts: nat -> seq<Action>, i: nat)
    requires i < |Pass(s, now, acts).loop.timers|
    ensures var t := Pass(s, now, acts).loop.timers[i];
      !t.cancelled && (now < t.expiry || (t.repeating && t.expiry == now + t.interval))
  {
    var done := AllVisited(s, now, acts).loop;
    PassSettles(s, now, acts);
    LiveIsSublist(done.timers);
    var j :| 0 <= j < |done.timers| && done.timers[j] == Live(done.timers)[i];
    assert Settled(s.loop, done, now, j);
  }

  /** The time of the entry's timer has come. */
  predicate Overdue(s: System, key: Key, now: int)
    requires key in s.entries
  {
    var i := IndexOf(s.loop.timers, s.entries[key].timer);
    i < |s.loop.timers| && now >= s.loop.timers[i].expiry
  }

  /** An active timeout whose time has come is over after the pass: called back, or cancelled by a callback. */
  lemma OverdueTimeoutsEnd(s: System, now: int, acts: nat -> seq<Action>, key: Key)
    requires Inv(s) && s.attached && now >= s.loop.clock && PassLegal(s.loop.timers, acts)
    requires IsActive(s, key) && Overdue(s, key, now)
    ensures var t, id := Pass(s, now, acts), s.entries[key].timer;
      && id !in s.fates.ran && id !in s.fates.dropped
      && id in t.fates.ran + t.fates.dropped && id !in ActiveIds(t)
  {
    var t, id := Pass(s, now, acts), s.entries[key].timer;
    assert Backed(s, key, -1);
    PassKeeps(s, now, acts);
    DueTimersFire(s, now, acts, IndexOf(s.loop.timers, id));
    EventEndsTimeout(t, id);
    ActiveIsStarted(s, key);
    VisitsGrow(s.(loop := s.loop.(clock := now)), 0, now, acts);
    assert Partition(t.fates, ActiveIds(t));
  }

  lemma ActiveIsStarted(s: System, key: Key)
    requires Partition(s.fates, ActiveIds(s)) && IsActive(s, key)
    ensures var id := s.entries[key].timer; id in s.fates.started && id !in s.fates.ran && id !in s.fates.dropped
  {
    assert key in ActiveKeys(s.entries) && s.entries[key].timer in ActiveIds(s);
  }

  /** A timer with an event is no longer that of an active entry. */
  lemma EventEndsTimeout(s: System, id: nat)
    requires Inv(s) && s.attached && exists x :: 0 <= x < |s.loop.trace| && s.loop.trace[x].id == id
    ensures id !in ActiveIds(s)
  {
    if id in ActiveIds(s) {
      var k :| k in ActiveKeys(s.entries) && s.entries[k].timer == id;
      assert Backed(s, k, -1);
      EventEndsTimer(s, IndexOf(s.loop.timers, id));
    }
  }

  /** A live timer of the manager has neither fired nor been cancelled. */
  lemma EventEndsTimer(s: System, j: nat)
    requires Inv(s) && j < |s.loop.timers| && !s.loop.timers[j].cancelled && s.loop.timers[j].callback.Managed?
    ensures forall x :: 0 <= x < |s.loop.trace| ==> s.loop.trace[x].id != s.loop.timers[j].id
  {
    assert OneShot(s, j) && NextExpiryOk(s.loop, j);
    forall x | 0 <= x < |s.loop.trace| ensures s.loop.trace[x].id != s.loop.timers[j].id {
      assert AfterFire(s.loop, x, j) && NotLive(s.loop, x, j);
    }
  }

  /** After any run that ends with a pass, every active timeout still has time left. */
  lemma NoTimeoutIsOverdue(ops: seq<Op>, now: int, acts: nat -> seq<Action>, key: Key)
    requires LegalRun(Initial(true), ops + [PassOp(now, acts)])
    requires IsActive(Run(Initial(true), ops + [PassOp(now, acts)]), key)
    ensures var t := Run(Initial(true), ops + [PassOp(now, acts)]);
      IndexOf(t.loop.timers, t.entries[key].timer) < |t.loop.timers| && !Overdue(t, key, now)
  {
    var s, t := Run(Initial(true), ops), Run(Initial(true), ops + [PassOp(now, acts)]);
    RunSplits(Initial(true), ops, [PassOp(now, acts)]);
    assert t == Pass(s, now, acts) by { assert [PassOp(now, acts)][1..] == []; }
    EveryRun(true, ops + [PassOp(now, acts)]);
    assert Backed(t, key, -1);
    var i := IndexOf(t.loop.timers, t.entries[key].timer);
    NothingStaysOverdue(s, now, acts, i);
    assert OneShot(t, i);
  }
}
