/**
 The timers of the event loop and the timeouts kept on top of them, as values.

 Times are ticks of the steady clock. What the source never stores is kept beside it as history:
 every timer as it was scheduled (`born`), what happened to timers in order (`trace`), and the
 fate of every started timeout.
 */
module TimerSpec {

  // ----- the loop -----

  const INVALID_TIMER: nat := 0

  newtype Handle = h: int | -0x8000_0000 <= h < 0x8000_0000

  datatype Kind = Connect | Read | Write | Idle

  /** Whose callback it is: the manager's lambda for one handle and kind, or anything else. */
  datatype Callback = Managed(handle: Handle, kind: Kind) | Foreign

  datatype Timer = Timer(id: nat, expiry: int, interval: int, callback: Callback, repeating: bool, cancelled: bool)

  datatype Event = Fired(id: nat, now: int) | Dropped(id: nat)

  datatype Loop = Loop(timers: seq<Timer>, nextId: nat, fired: nat, born: seq<Timer>, trace: seq<Event>, clock: int)

  /** The first timer with this id. */
  function IndexOf(timers: seq<Timer>, id: nat): (i: nat)
    ensures i <= |timers|
    ensures i < |timers| ==> timers[i].id == id
    ensures forall j :: 0 <= j < i ==> timers[j].id != id
  {
    if timers == [] || timers[0].id == id then 0
    else
      var i := 1 + IndexOf(timers[1..], id);
      assert forall j :: 1 <= j < i ==> timers[j] == timers[1..][j - 1];
      i
  }

  function Schedule(l: Loop, delay: int, interval: int, callback: Callback, repeating: bool, now: int): Loop {
    var t := Timer(l.nextId, now + delay, interval, callback, repeating, false);
    l.(timers := l.timers + [t], nextId := l.nextId + 1, born := l.born + [t], clock := now)
  }

  /** `cancel_timer`: only marks the timer; the next pass removes it. */
  function CancelTimer(l: Loop, id: nat): Loop {
    var i := IndexOf(l.timers, id);
    if i == |l.timers| then l
    else l.(timers := l.timers[i := l.timers[i].(cancelled := true)], trace := l.trace + [Dropped(id)])
  }

  function BeginFire(l: Loop, id: nat, now: int): Loop { l.(trace := l.trace + [Fired(id, now)]) }

  /** After the callback: a repeating timer gets its next expiry, any other is over. */
  function EndFire(l: Loop, i: nat, now: int): Loop
    requires i < |l.timers|
  {
    var t := l.timers[i];
    l.(timers := l.timers[i := if t.repeating then t.(expiry := now + t.interval) else t.(cancelled := true)],
       fired := l.fired + 1)
  }

  function Live(timers: seq<Timer>): seq<Timer> {
    if timers == [] then []
    else if timers[0].cancelled then Live(timers[1..])
    else [timers[0]] + Live(timers[1..])
  }

  // ----- the manager -----

  type Key = nat

  const WORD: nat := 0x1_0000_0000_0000_0000

  function KindNumber(k: Kind): nat {
    match k
    case Connect => 0
    case Read => 1
    case Write => 2
    case Idle => 3
  }

  /** `static_cast<uint64_t>(h) * 10 + t`, in 64-bit arithmetic. */
  function MakeKey(h: Handle, k: Kind): Key {
    (((h as int % WORD) * 10) % WORD + KindNumber(k)) % WORD
  }

  datatype Entry = Entry(timer: nat, handle: Handle, kind: Kind, active: bool)

  function ActiveKeys(entries: map<Key, Entry>): set<Key> {
    set k | k in entries && entries[k].active
  }

  datatype Stats = Stats(fired: nat, cancelled: nat, active: nat)

  /** Successful starts, and the timer ids of the starts, of the callbacks run, and of the cancellations. */
  datatype Fates = Fates(starts: nat, started: set<nat>, ran: set<nat>, dropped: set<nat>)

  datatype System = System(loop: Loop, attached: bool, entries: map<Key, Entry>, stats: Stats, fates: Fates)

  const EMPTY_LOOP: Loop := Loop([], 1, 0, [], [], 0)

  function Initial(attached: bool): System {
    System(EMPTY_LOOP, attached, map[], Stats(0, 0, 0), Fates(0, {}, {}, {}))
  }

  function Recount(s: System): System { s.(stats := s.stats.(active := |ActiveKeys(s.entries)|)) }

  predicate IsActive(s: System, key: Key) { key in s.entries && s.entries[key].active }

  /** The cancelled entry's timer is marked, the entry goes inactive, the cancellation is counted. */
  function Deactivate(s: System, key: Key): System
    requires IsActive(s, key)
  {
    var e := s.entries[key];
    s.(loop := if s.attached && e.timer != INVALID_TIMER then CancelTimer(s.loop, e.timer) else s.loop,
       entries := s.entries[key := e.(active := false)],
       stats := s.stats.(cancelled := s.stats.cancelled + 1),
       fates := s.fates.(dropped := s.fates.dropped + {e.timer}))
  }

  function Install(s: System, h: Handle, k: Kind, duration: int, now: int): System {
    var id := if s.attached then s.loop.nextId else INVALID_TIMER;
    s.(loop := if s.attached then Schedule(s.loop, duration, duration, Managed(h, k), false, now) else s.loop,
       entries := s.entries[MakeKey(h, k) := Entry(id, h, k, true)],
       fates := s.fates.(starts := s.fates.starts + 1, started := s.fates.started + {id}))
  }

  function Start(s: System, h: Handle, k: Kind, duration: int, now: int): System {
    var key := MakeKey(h, k);
    Recount(Install(if IsActive(s, key) then Deactivate(s, key) else s, h, k, duration, now))
  }

  /** Fails, and changes nothing, when there is no such active timeout. */
  function CancelTimeout(s: System, h: Handle, k: Kind): System {
    var key := MakeKey(h, k);
    if IsActive(s, key) then Recount(Deactivate(s, key)) else s
  }

  /** One step of the walk over the hash map. */
  function CancelIfOf(s: System, h: Handle, key: Key): System {
    if IsActive(s, key) && s.entries[key].handle == h then Deactivate(s, key) else s
  }

  function CancelEach(s: System, h: Handle, order: seq<Key>): System
    decreases |order|
  {
    if order == [] then s else CancelEach(CancelIfOf(s, h, order[0]), h, order[1..])
  }

  /** `order` is the order in which the hash map happens to be walked. */
  function CancelAll(s: System, h: Handle, order: seq<Key>): System {
    Recount(CancelEach(s, h, order))
  }

  function ResetIdle(s: System, h: Handle, duration: int, now: int): System {
    Start(CancelTimeout(s, h, Idle), h, Idle, duration, now)
  }

  // ----- one pass over the timers -----

  /**
   What a callback may do. Starting timers from a callback is left out: the source allows it, but it
   makes the vector grow under the loop that walks it.
   */
  datatype Action = Cancel(id: nat) | CancelOne(handle: Handle, kind: Kind) | CancelHandle(of: Handle, order: seq<Key>)

  function Act(s: System, a: Action): System {
    match a
    case Cancel(id) => s.(loop := CancelTimer(s.loop, id))
    case CancelOne(h, k) => CancelTimeout(s, h, k)
    case CancelHandle(h, order) => CancelAll(s, h, order)
  }

  function ActAll(s: System, acts: seq<Action>): System
    decreases |acts|
  {
    if acts == [] then s else ActAll(Act(s, acts[0]), acts[1..])
  }

  /** The manager's timer callback; `id` is the timer whose callback it is. */
  function OnTimer(s: System, id: nat, h: Handle, k: Kind, acts: seq<Action>): System {
    var key := MakeKey(h, k);
    if IsActive(s, key) then
      var e := s.entries[key];
      Recount(ActAll(s.(entries := s.entries[key := e.(active := false)],
                        stats := s.stats.(fired := s.stats.fired + 1),
                        fates := s.fates.(ran := s.fates.ran + {id})), acts))
    else Recount(s)
  }

  function RunCallback(s: System, t: Timer, now: int, acts: seq<Action>): System {
    var begun := s.(loop := BeginFire(s.loop, t.id, now));
    match t.callback
    case Managed(h, k) => OnTimer(begun, t.id, h, k, acts)
    case Foreign => ActAll(begun, acts)
  }

  predicate Due(t: Timer, now: int) { !t.cancelled && now >= t.expiry }

  /** The loop body for the timer at `i`; `acts` says what each callback does. */
  function Visit(s: System, i: nat, now: int, acts: nat -> seq<Action>): (r: System)
    requires i < |s.loop.timers|
  {
    var t := s.loop.timers[i];
    if !Due(t, now) then s
    else
      var after := RunCallback(s, t, now, acts(t.id));
      KeepsLength(s, t, now, acts(t.id));
      after.(loop := EndFire(after.loop, i, now))
  }

  function VisitFrom(s: System, i: nat, now: int, acts: nat -> seq<Action>): System
    requires i <= |s.loop.timers|
    decreases |s.loop.timers| - i
  {
    if i == |s.loop.timers| then s
    else
      VisitKeepsLength(s, i, now, acts);
      VisitFrom(Visit(s, i, now, acts), i + 1, now, acts)
  }

  /** `process_timers`. */
  function Pass(s: System, now: int, acts: nat -> seq<Action>): System {
    var done := VisitFrom(s.(loop := s.loop.(clock := now)), 0, now, acts);
    done.(loop := done.loop.(timers := Live(done.loop.timers)))
  }

  // ----- callbacks neither add nor remove timers -----

  /** Nothing about a timer but its cancelled flag differs. */
  predicate SameTimer(t: Timer, u: Timer) { t.(cancelled := u.cancelled) == u && (t.cancelled ==> u.cancelled) }

  predicate SameTimers(a: seq<Timer>, b: seq<Timer>) {
    |a| == |b| && forall i :: 0 <= i < |a| ==> SameTimer(a[i], b[i])
  }

  lemma {:induction false} CancelEachKeeps(s: System, h: Handle, order: seq<Key>)
    ensures SameTimers(s.loop.timers, CancelEach(s, h, order).loop.timers)
    decreases |order|
  {
    if order != [] { CancelEachKeeps(CancelIfOf(s, h, order[0]), h, order[1..]); }
  }

  lemma {:induction false} ActAllKeeps(s: System, acts: seq<Action>)
    ensures SameTimers(s.loop.timers, ActAll(s, acts).loop.timers)
    decreases |acts|
  {
    if acts != [] {
      if acts[0].CancelHandle? { CancelEachKeeps(s, acts[0].of, acts[0].order); }
      ActAllKeeps(Act(s, acts[0]), acts[1..]);
    }
  }

  lemma KeepsLength(s: System, t: Timer, now: int, acts: seq<Action>)
    ensures SameTimers(s.loop.timers, RunCallback(s, t, now, acts).loop.timers)
  {
    var begun := s.(loop := BeginFire(s.loop, t.id, now));
    ActAllKeeps(begun, acts);
    if t.callback.Managed? && IsActive(begun, MakeKey(t.callback.handle, t.callback.kind)) {
      var key := MakeKey(t.callback.handle, t.callback.kind);
      ActAllKeeps(begun.(entries := s.entries[key := s.entries[key].(active := false)],
                         stats := s.stats.(fired := s.stats.fired + 1),
                         fates := s.fates.(ran := s.fates.ran + {t.id})), acts);
    }
  }

  lemma VisitKeepsLength(s: System, i: nat, now: int, acts: nat -> seq<Action>)
    requires i < |s.loop.timers|
    ensures |Visit(s, i, now, acts).loop.timers| == |s.loop.timers|
  {
    var t := s.loop.timers[i];
    KeepsLength(s, t, now, acts(t.id));
  }
}
