/** What holds of the loop's timers over every run. */
module LoopTimers {
  import opened Wrappers
  import opened TimerSpec

  // Each clause of the invariant speaks of one or two positions of the timer list or the trace.

  /** The timer at `i` is the one scheduled under its id. */
  predicate AsBorn(l: Loop, i: nat)
    requires i < |l.timers|
  {
    var t := l.timers[i];
    && 1 <= t.id <= |l.born|
    && var b := l.born[t.id - 1]; b.callback == t.callback && b.interval == t.interval && b.repeating == t.repeating
  }

  predicate Ascending(l: Loop, i: nat, j: nat)
    requires i < j < |l.timers|
  {
    l.timers[i].id < l.timers[j].id
  }

  /** No event comes before its timer exists, and nothing fires before its first expiry. */
  predicate NotEarly(l: Loop, x: nat)
    requires x < |l.trace|
  {
    && 1 <= l.trace[x].id <= |l.born|
    && (l.trace[x].Fired? ==> l.born[l.trace[x].id - 1].expiry <= l.trace[x].now <= l.clock)
  }

  /** Two fires of one timer: it repeats, and they are at least its interval apart. */
  predicate Spaced(l: Loop, x: nat, y: nat)
    requires x < y < |l.trace| && NotEarly(l, x)
  {
    l.trace[x].Fired? && l.trace[y].Fired? && l.trace[x].id == l.trace[y].id ==>
      var b := l.born[l.trace[x].id - 1]; b.repeating && l.trace[y].now >= l.trace[x].now + b.interval
  }

  /** Nothing fires after it has been cancelled. */
  predicate StaysDropped(l: Loop, x: nat, y: nat)
    requires x < y < |l.trace|
  {
    l.trace[x].Dropped? && l.trace[y].Fired? ==> l.trace[x].id != l.trace[y].id
  }

  /** A cancelled timer is not live. */
  predicate NotLive(l: Loop, x: nat, i: nat)
    requires x < |l.trace| && i < |l.timers|
  {
    l.trace[x].Dropped? && !l.timers[i].cancelled ==> l.trace[x].id != l.timers[i].id
  }

  /** The next expiry is one interval past every time the timer has fired. */
  predicate AfterFire(l: Loop, x: nat, i: nat)
    requires x < |l.trace| && i < |l.timers|
  {
    var t := l.timers[i];
    l.trace[x].Fired? && l.trace[x].id == t.id ==> t.repeating && t.expiry >= l.trace[x].now + t.interval
  }

  /** The next expiry is the scheduled one until that has passed. */
  predicate NotBeforeBorn(l: Loop, i: nat)
    requires i < |l.timers| && AsBorn(l, i)
  {
    var b := l.born[l.timers[i].id - 1];
    l.timers[i].expiry == b.expiry || b.expiry <= l.clock
  }

  /** When a timer last fired. */
  function LastFire(trace: seq<Event>, id: nat): Option<int> {
    if trace == [] then None
    else
      var e := trace[|trace| - 1];
      if e.Fired? && e.id == id then Some(e.now) else LastFire(trace[..|trace| - 1], id)
  }

  lemma LastFireAppend(trace: seq<Event>, e: Event, id: nat)
    ensures LastFire(trace + [e], id) == if e.Fired? && e.id == id then Some(e.now) else LastFire(trace, id)
  {
    assert (trace + [e])[..|trace|] == trace;
  }

  lemma {:induction false} NeverFired(trace: seq<Event>, id: nat)
    requires forall x :: 0 <= x < |trace| ==> trace[x].id != id
    ensures LastFire(trace, id) == None
  {
    if trace != [] { NeverFired(trace[..|trace| - 1], id); }
  }

  /** A timer is due an interval after it last fired, or when it was scheduled for. */
  predicate ExactlyDue(l: Loop, i: nat)
    requires i < |l.timers| && AsBorn(l, i)
  {
    var t := l.timers[i];
    match LastFire(l.trace, t.id)
    case None => t.expiry == l.born[t.id - 1].expiry
    case Some(now) => t.expiry == now + t.interval
  }

  ghost predicate IdsOk(l: Loop) {
    && l.nextId == |l.born| + 1
    && (forall k :: 0 <= k < |l.born| ==> l.born[k].id == k + 1)
    && (forall i :: 0 <= i < |l.timers| ==> AsBorn(l, i))
    && (forall i, j :: 0 <= i < j < |l.timers| ==> Ascending(l, i, j))
  }

  ghost predicate TraceOk(l: Loop) {
    && (forall x :: 0 <= x < |l.trace| ==> NotEarly(l, x))
    && (forall x, y :: 0 <= x < y < |l.trace| ==> Spaced(l, x, y))
    && (forall x, y :: 0 <= x < y < |l.trace| ==> StaysDropped(l, x, y))
    && (forall x, i :: 0 <= x < |l.trace| && 0 <= i < |l.timers| ==> NotLive(l, x, i))
  }

  ghost predicate NextExpiryOk(l: Loop, i: nat)
    requires i < |l.timers|
  {
    AsBorn(l, i) && NotBeforeBorn(l, i) && ExactlyDue(l, i) && forall x :: 0 <= x < |l.trace| ==> AfterFire(l, x, i)
  }

  /**
   `firing` is the position of the timer whose callback is running, or -1. Between its callback and
   the update of its entry that timer is exempt from the last clause; it is the one that has just fired.
   */
  ghost predicate LoopInv(l: Loop, firing: int) {
    && IdsOk(l) && TraceOk(l)
    && (0 <= firing < |l.timers| ==> LastFire(l.trace, l.timers[firing].id) == Some(l.clock))
    && forall i :: 0 <= i < |l.timers| && i != firing && !l.timers[i].cancelled ==> NextExpiryOk(l, i)
  }

  lemma IndexOfId(l: Loop, i: nat)
    requires IdsOk(l) && i < |l.timers|
    ensures IndexOf(l.timers, l.timers[i].id) == i
  {
    var j := IndexOf(l.timers, l.timers[i].id);
    assert j < i ==> Ascending(l, j, i);
  }

  // ----- every step keeps it -----

  /** Steps that add no event: the timers of `m` are those of `l`, or new, or marked. */
  lemma SameTrace(l: Loop, m: Loop)
    requires TraceOk(l) && m.trace == l.trace && l.born <= m.born && l.clock <= m.clock
    requires IdsOk(m)
    requires forall i :: 0 <= i < |m.timers| && !m.timers[i].cancelled ==>
      || m.timers[i].id > |l.born|
      || exists j :: 0 <= j < |l.timers| && l.timers[j].id == m.timers[i].id && !l.timers[j].cancelled
    ensures TraceOk(m)
  {
    forall x | 0 <= x < |m.trace| ensures NotEarly(m, x) { assert NotEarly(l, x); }
    forall x, y | 0 <= x < y < |m.trace| ensures Spaced(m, x, y) && StaysDropped(m, x, y) {
      assert NotEarly(l, x) && NotEarly(m, x);
      assert Spaced(l, x, y) && StaysDropped(l, x, y);
    }
    forall x, i | 0 <= x < |m.trace| && 0 <= i < |m.timers| ensures NotLive(m, x, i) {
      assert NotEarly(l, x);
      if !m.timers[i].cancelled && m.timers[i].id <= |l.born| {
        var j :| 0 <= j < |l.timers| && l.timers[j].id == m.timers[i].id && !l.timers[j].cancelled;
        assert NotLive(l, x, j);
      }
    }
  }

  lemma SameExpiry(l: Loop, i: nat, m: Loop, j: nat)
    requires i < |l.timers| && j < |m.timers| && NextExpiryOk(l, i)
    requires m.timers[j] == l.timers[i] && l.born <= m.born && l.clock <= m.clock && m.trace == l.trace
    ensures NextExpiryOk(m, j)
  {
    forall x | 0 <= x < |m.trace| ensures AfterFire(m, x, j) { assert AfterFire(l, x, i); }
  }

  lemma ScheduleKeeps(l: Loop, delay: int, interval: int, callback: Callback, repeating: bool, now: int)
    requires LoopInv(l, -1) && now >= l.clock
    ensures LoopInv(Schedule(l, delay, interval, callback, repeating, now), -1)
  {
    var m := Schedule(l, delay, interval, callback, repeating, now);
    var n := |l.timers|;
    forall i | 0 <= i < |m.timers| ensures AsBorn(m, i) { assert i < n ==> AsBorn(l, i); }
    forall i, j | 0 <= i < j < |m.timers| ensures Ascending(m, i, j) {
      assert AsBorn(l, i);
      assert j < n ==> Ascending(l, i, j);
    }
    SameTrace(l, m);
    forall i | 0 <= i < |m.timers| && !m.timers[i].cancelled ensures NextExpiryOk(m, i) {
      if i < n {
        SameExpiry(l, i, m, i);
      } else {
        forall x | 0 <= x < |m.trace| ensures AfterFire(m, x, i) && m.trace[x].id != m.timers[i].id {
          assert NotEarly(l, x);
        }
        NeverFired(m.trace, m.timers[i].id);
      }
    }
  }

  lemma TickKeeps(l: Loop, now: int)
    requires LoopInv(l, -1) && now >= l.clock
    ensures LoopInv(l.(clock := now), -1)
  {
    var m := l.(clock := now);
    forall i | 0 <= i < |m.timers| ensures AsBorn(m, i) { assert AsBorn(l, i); }
    forall i, j | 0 <= i < j < |m.timers| ensures Ascending(m, i, j) { assert Ascending(l, i, j); }
    SameTrace(l, m);
    forall i | 0 <= i < |m.timers| && !m.timers[i].cancelled ensures NextExpiryOk(m, i) { SameExpiry(l, i, m, i); }
  }

  lemma CancelKeepsIds(l: Loop, id: nat)
    requires IdsOk(l)
    ensures IdsOk(CancelTimer(l, id))
  {
    var m := CancelTimer(l, id);
    forall i | 0 <= i < |m.timers| ensures AsBorn(m, i) { assert AsBorn(l, i); }
    forall i, j | 0 <= i < j < |m.timers| ensures Ascending(m, i, j) { assert Ascending(l, i, j); }
  }

  /** Adding the event of a successful cancellation, once the timer is marked. */
  lemma DropKeepsTrace(l: Loop, id: nat)
    requires IdsOk(l) && TraceOk(l) && IndexOf(l.timers, id) < |l.timers|
    ensures TraceOk(CancelTimer(l, id))
  {
    var m, k := CancelTimer(l, id), IndexOf(l.timers, id);
    var n := |l.trace|;
    forall x | 0 <= x < |m.trace| ensures NotEarly(m, x) {
      if x < n { assert NotEarly(l, x); } else { assert AsBorn(l, k); }
    }
    forall x, y | 0 <= x < y < |m.trace| ensures Spaced(m, x, y) && StaysDropped(m, x, y) {
      assert NotEarly(m, x);
      if y < n { assert NotEarly(l, x) && Spaced(l, x, y) && StaysDropped(l, x, y); }
    }
    forall x, i | 0 <= x < |m.trace| && 0 <= i < |m.timers| ensures NotLive(m, x, i) {
      if x < n { assert NotLive(l, x, i); }
      else if i != k { IndexOfId(l, i); }
    }
  }

  lemma CancelKeeps(l: Loop, id: nat, firing: int)
    requires LoopInv(l, firing)
    ensures LoopInv(CancelTimer(l, id), firing)
  {
    var m := CancelTimer(l, id);
    if IndexOf(l.timers, id) < |l.timers| {
      CancelKeepsIds(l, id);
      DropKeepsTrace(l, id);
      forall other: nat ensures LastFire(m.trace, other) == LastFire(l.trace, other) {
        LastFireAppend(l.trace, Dropped(id), other);
      }
      forall i | 0 <= i < |m.timers| && i != firing && !m.timers[i].cancelled ensures NextExpiryOk(m, i) {
        assert NextExpiryOk(l, i);
        forall x | 0 <= x < |m.trace| ensures AfterFire(m, x, i) {
          assert x < |l.trace| ==> AfterFire(l, x, i);
        }
      }
    }
  }

  lemma FireKeepsTrace(l: Loop, k: nat, now: int)
    requires IdsOk(l) && TraceOk(l) && k < |l.timers| && Due(l.timers[k], now) && now == l.clock && NextExpiryOk(l, k)
    ensures TraceOk(BeginFire(l, l.timers[k].id, now))
  {
    var m := BeginFire(l, l.timers[k].id, now);
    var n := |l.trace|;
    forall x | 0 <= x < |m.trace| ensures NotEarly(m, x) { assert x < n ==> NotEarly(l, x); }
    forall x, y | 0 <= x < y < |m.trace| ensures Spaced(m, x, y) && StaysDropped(m, x, y) {
      assert NotEarly(l, x) && NotEarly(m, x);
      if y < n { assert Spaced(l, x, y) && StaysDropped(l, x, y); }
      else { assert AfterFire(l, x, k) && NotLive(l, x, k); }
    }
    forall x, i | 0 <= x < |m.trace| && 0 <= i < |m.timers| ensures NotLive(m, x, i) {
      assert x < n ==> NotLive(l, x, i);
    }
  }

  lemma BeginFireKeeps(l: Loop, k: nat, now: int)
    requires LoopInv(l, -1) && k < |l.timers| && Due(l.timers[k], now) && now == l.clock
    ensures LoopInv(BeginFire(l, l.timers[k].id, now), k)
    ensures 1 <= l.timers[k].id <= |l.born| && l.born[l.timers[k].id - 1].expiry <= now
  {
    var m := BeginFire(l, l.timers[k].id, now);
    assert NextExpiryOk(l, k);
    FireKeepsTrace(l, k, now);
    LastFireAppend(l.trace, Fired(l.timers[k].id, now), l.timers[k].id);
    forall i | 0 <= i < |m.timers| ensures AsBorn(m, i) { assert AsBorn(l, i); }
    forall i, j | 0 <= i < j < |m.timers| ensures Ascending(m, i, j) { assert Ascending(l, i, j); }
    forall i | 0 <= i < |m.timers| && i != k && !m.timers[i].cancelled ensures NextExpiryOk(m, i) {
      assert NextExpiryOk(l, i);
      assert i < k ==> Ascending(l, i, k);
      assert k < i ==> Ascending(l, k, i);
      LastFireAppend(l.trace, Fired(l.timers[k].id, now), m.timers[i].id);
      forall x | 0 <= x < |m.trace| ensures AfterFire(m, x, i) {
        assert x < |l.trace| ==> AfterFire(l, x, i);
      }
    }
  }

  lemma EndFireKeepsIds(l: Loop, k: nat, now: int)
    requires IdsOk(l) && k < |l.timers|
    ensures IdsOk(EndFire(l, k, now))
  {
    var m := EndFire(l, k, now);
    forall i | 0 <= i < |m.timers| ensures AsBorn(m, i) { assert AsBorn(l, i); }
    forall i, j | 0 <= i < j < |m.timers| ensures Ascending(m, i, j) { assert Ascending(l, i, j); }
  }

  lemma EndFireKeeps(l: Loop, k: nat, now: int)
    requires LoopInv(l, k) && k < |l.timers| && now == l.clock
    requires 1 <= l.timers[k].id <= |l.born| && l.born[l.timers[k].id - 1].expiry <= now
    ensures LoopInv(EndFire(l, k, now), -1)
  {
    var m := EndFire(l, k, now);
    EndFireKeepsIds(l, k, now);
    SameTrace(l, m);
    forall i | 0 <= i < |m.timers| && !m.timers[i].cancelled ensures NextExpiryOk(m, i) {
      if i != k {
        SameExpiry(l, i, m, i);
      } else {
        forall x | 0 <= x < |m.trace| ensures AfterFire(m, x, i) { assert NotEarly(l, x); }
      }
    }
  }

  /** Removing cancelled timers keeps the others, in order. */
  lemma {:induction false} LiveIsSublist(timers: seq<Timer>)
    ensures forall i :: 0 <= i < |Live(timers)| ==> Live(timers)[i] in timers && !Live(timers)[i].cancelled
    ensures forall i :: 0 <= i < |timers| && !timers[i].cancelled ==> timers[i] in Live(timers)
    ensures (forall i, j :: 0 <= i < j < |timers| ==> timers[i].id < timers[j].id)
      ==> forall i, j :: 0 <= i < j < |Live(timers)| ==> Live(timers)[i].id < Live(timers)[j].id
  {
    if timers != [] {
      LiveIsSublist(timers[1..]);
      assert forall i :: 1 <= i < |timers| ==> timers[i] == timers[1..][i - 1];
    }
  }

  lemma LiveFrom(timers: seq<Timer>, i: nat) returns (j: nat)
    requires i < |Live(timers)|
    ensures j < |timers| && timers[j] == Live(timers)[i] && !timers[j].cancelled
  {
    LiveIsSublist(timers);
    assert Live(timers)[i] in timers;
    j :| 0 <= j < |timers| && timers[j] == Live(timers)[i];
  }

  lemma LiveAscends(l: Loop, i: nat, j: nat)
    requires IdsOk(l) && i < j < |Live(l.timers)|
    ensures Live(l.timers)[i].id < Live(l.timers)[j].id
  {
    forall x, y | 0 <= x < y < |l.timers| ensures l.timers[x].id < l.timers[y].id { assert Ascending(l, x, y); }
    LiveIsSublist(l.timers);
  }

  lemma LiveKeepsIds(l: Loop)
    requires IdsOk(l)
    ensures IdsOk(l.(timers := Live(l.timers)))
  {
    var m := l.(timers := Live(l.timers));
    forall i | 0 <= i < |m.timers| ensures AsBorn(m, i) {
      var j := LiveFrom(l.timers, i);
      assert AsBorn(l, j);
    }
    forall i, j | 0 <= i < j < |m.timers| ensures Ascending(m, i, j) { LiveAscends(l, i, j); }
  }

  lemma LiveKeepsTrace(l: Loop)
    requires IdsOk(l) && TraceOk(l)
    ensures TraceOk(l.(timers := Live(l.timers)))
  {
    var m := l.(timers := Live(l.timers));
    LiveKeepsIds(l);
    forall i | 0 <= i < |m.timers|
      ensures exists j :: 0 <= j < |l.timers| && l.timers[j].id == m.timers[i].id && !l.timers[j].cancelled
    {
      var j := LiveFrom(l.timers, i);
    }
    SameTrace(l, m);
  }

  lemma LiveKeeps(l: Loop)
    requires LoopInv(l, -1)
    ensures LoopInv(l.(timers := Live(l.timers)), -1)
  {
    var m := l.(timers := Live(l.timers));
    LiveKeepsIds(l);
    LiveKeepsTrace(l);
    forall i | 0 <= i < |m.timers| ensures NextExpiryOk(m, i) {
      var j := LiveFrom(l.timers, i);
      SameExpiry(l, j, m, i);
    }
  }
}
