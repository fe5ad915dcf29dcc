/** Event queues: a list of registered events, each triggered or not, with one-shot timers and a FIFO of
    further triggers behind an event that is already triggered. */
module EventQueue {
  import opened Words
  import opened Errno

  const EV_ADD: nat := 0x01
  const EV_ONESHOT: nat := 0x10
  const EV_CLEAR: nat := 0x20

  const KERNEL_EVFILT_USER: int := -11
  const KERNEL_EVFILT_GRAPHICS: int := -14
  const KERNEL_EVFILT_HRTIMER: int := -15

  const UINT32_MAX: nat := 0xffff_ffff
  const UINT64_MAX: nat := 0xffff_ffff_ffff_ffff

  datatype KernelEvent = KernelEvent(ident: nat, filter: int, flags: nat, fflags: nat, data: int, udata: int)

  /** The trigger and reset functions that a filter can hold. `ResetVideoOutEvent` does what
      `InterruptEventResetFunc` does. */
  datatype TriggerFunc = NoTriggerFunc | UserEventTriggerFunc | AmprEventTriggerFunc | InterruptEventTriggerFunc
  datatype ResetFunc = NoResetFunc | UserEventResetFunc | InterruptEventResetFunc

  datatype QueueEvent = QueueEvent(
    triggered: bool, deadline_ns: nat, event: KernelEvent,
    trigger_func: TriggerFunc, reset_func: ResetFunc, pending_events: seq<KernelEvent>)

  datatype Option<T> = None | Some(value: T)

  datatype Key = Key(ident: nat, filter: int)

  function KeyOf(e: KernelEvent): Key {
    Key(e.ident, e.filter)
  }

  predicate OneShot(e: KernelEvent) {
    And(e.flags, EV_ONESHOT) != 0
  }

  predicate Clears(e: KernelEvent) {
    And(e.flags, EV_CLEAR) != 0
  }

  // ---- one event ----

  function Triggered(e: QueueEvent, data: int): QueueEvent {
    match e.trigger_func
    case NoTriggerFunc => e.(triggered := true)
    case UserEventTriggerFunc => e.(triggered := true, event := e.event.(data := data, udata := data))
    case AmprEventTriggerFunc =>
      Queued(e, e.event.(data := data))
    case InterruptEventTriggerFunc =>
      Queued(e, e.event.(fflags := (e.event.fflags + 1) % (UINT32_MAX + 1), data := data))
  }

  /** Behind a triggered event the next trigger waits. */
  function Queued(e: QueueEvent, triggered_event: KernelEvent): QueueEvent {
    if e.triggered then e.(pending_events := e.pending_events + [triggered_event])
    else e.(triggered := true, event := triggered_event)
  }

  /** An interrupt event is reset whatever its flags are, any other only with EV_CLEAR, by its reset function or
      without one. */
  predicate Resets(e: QueueEvent) {
    e.reset_func == InterruptEventResetFunc || Clears(e.event)
  }

  function AfterReset(e: QueueEvent): QueueEvent {
    if Resets(e) then e.(triggered := false, event := e.event.(fflags := 0, data := 0)) else e
  }

  /** The event after it has been handed out once and stays registered. */
  function AfterDelivery(e: QueueEvent): QueueEvent {
    var r := AfterReset(e);
    if r.pending_events == [] then r
    else r.(event := r.pending_events[0], pending_events := r.pending_events[1..], triggered := true)
  }

  function Expired(e: QueueEvent, now_ns: nat): QueueEvent {
    if !e.triggered && e.deadline_ns != 0 && e.deadline_ns <= now_ns then e.(triggered := true) else e
  }

  function WithUdata(s: seq<KernelEvent>, udata: int): (r: seq<KernelEvent>)
    ensures |r| == |s| && forall i :: 0 <= i < |s| ==> r[i] == s[i].(udata := udata)
  {
    if s == [] then [] else [s[0].(udata := udata)] + WithUdata(s[1..], udata)
  }

  function Readded(e: QueueEvent, again: QueueEvent): QueueEvent {
    e.(deadline_ns := again.deadline_ns, event := e.event.(udata := again.event.udata),
       pending_events := WithUdata(e.pending_events, again.event.udata))
  }

  // ---- the list ----

  function Find(events: seq<QueueEvent>, key: Key): (k: nat)
    ensures k <= |events|
    ensures k < |events| ==> KeyOf(events[k].event) == key
    ensures forall i :: 0 <= i < k ==> KeyOf(events[i].event) != key
  {
    if events == [] || KeyOf(events[0].event) == key then 0 else 1 + Find(events[1..], key)
  }

  function AllExpired(events: seq<QueueEvent>, now_ns: nat): (r: seq<QueueEvent>)
    ensures |r| == |events| && forall i :: 0 <= i < |r| ==> r[i] == Expired(events[i], now_ns)
  {
    if events == [] then [] else [Expired(events[0], now_ns)] + AllExpired(events[1..], now_ns)
  }

  /** Hand one event out as often as it is triggered and there is room. The first part is what is handed
      out, the second what stays registered: one event, or none after a one-shot. */
  function HandOut(e: QueueEvent, room: nat): (r: (seq<KernelEvent>, seq<QueueEvent>))
    ensures |r.0| <= room && |r.1| <= 1
    decreases room
  {
    if !e.triggered || room == 0 then ([], [e])
    else if OneShot(e.event) then ([e.event], [])
    else
      var rest := HandOut(AfterDelivery(e), room - 1);
      ([e.event] + rest.0, rest.1)
  }

  /** Walk the list from its front until the room is used up. */
  function HandOutAll(events: seq<QueueEvent>, room: nat): (r: (seq<KernelEvent>, seq<QueueEvent>))
    ensures |r.0| <= room && |r.1| <= |events|
    decreases |events|
  {
    if events == [] || room == 0 then ([], events)
    else
      var first := HandOut(events[0], room);
      var rest := HandOutAll(events[1..], room - |first.0|);
      (first.0 + rest.0, first.1 + rest.1)
  }

  /** A level-triggered event stays triggered, and fills whatever room there is. */
  lemma {:induction false} LevelFillsRoom(e: QueueEvent, room: nat)
    requires e.triggered && !OneShot(e.event) && !Resets(e) && e.pending_events == []
    ensures HandOut(e, room).1 == [e]
    ensures |HandOut(e, room).0| == room && forall i :: 0 <= i < room ==> HandOut(e, room).0[i] == e.event
  {
    if room > 0 {
      assert AfterDelivery(e) == e;
      LevelFillsRoom(e, room - 1);
    }
  }

  /** When room is left over, nothing that stays registered is triggered. */
  lemma {:induction false} RoomLeftMeansDrained(events: seq<QueueEvent>, room: nat)
    requires |HandOutAll(events, room).0| < room
    ensures forall i :: 0 <= i < |HandOutAll(events, room).1| ==> !HandOutAll(events, room).1[i].triggered
    decreases |events|
  {
    if events != [] {
      OneDrained(events[0], room);
      RoomLeftMeansDrained(events[1..], room - |HandOut(events[0], room).0|);
    }
  }

  lemma {:induction false} OneDrained(e: QueueEvent, room: nat)
    requires |HandOut(e, room).0| < room
    ensures forall i :: 0 <= i < |HandOut(e, room).1| ==> !HandOut(e, room).1[i].triggered
    decreases room
  {
    if e.triggered && !OneShot(e.event) {
      OneDrained(AfterDelivery(e), room - 1);
    }
  }

  lemma ExpiredDeadlines(events: seq<QueueEvent>, now_ns: nat)
    ensures forall i :: 0 <= i < |events| ==> AllExpired(events, now_ns)[i].deadline_ns == events[i].deadline_ns
  {
  }

  /** Handing out does not touch a deadline. */
  lemma {:induction false} DeadlinesStay(events: seq<QueueEvent>, room: nat)
    requires forall i :: 0 <= i < |events| ==> events[i].deadline_ns <= UINT64_MAX
    ensures forall i :: 0 <= i < |HandOutAll(events, room).1| ==>
      HandOutAll(events, room).1[i].deadline_ns <= UINT64_MAX
    decreases |events|
  {
    hide HandOut;
    if events != [] && room > 0 {
      DeadlineStays(events[0], room);
      DeadlinesStay(events[1..], room - |HandOut(events[0], room).0|);
    }
  }

  lemma {:induction false} DeadlineStays(e: QueueEvent, room: nat)
    ensures HandOut(e, room).1 != [] ==> HandOut(e, room).1[0].deadline_ns == e.deadline_ns
    decreases room
  {
    hide OneShot, Clears;
    if e.triggered && room > 0 && !OneShot(e.event) {
      DeadlineStays(AfterDelivery(e), room - 1);
    }
  }

  predicate Has(events: seq<QueueEvent>, key: Key) {
    Find(events, key) < |events|
  }

  function Added(events: seq<QueueEvent>, event: QueueEvent): seq<QueueEvent> {
    var k := Find(events, KeyOf(event.event));
    if k < |events| then events[k := Readded(events[k], event)] else events + [event]
  }

  function TriggeredIn(events: seq<QueueEvent>, key: Key, data: int): seq<QueueEvent> {
    var k := Find(events, key);
    if k < |events| then events[k := Triggered(events[k], data)] else events
  }

  function Deleted(events: seq<QueueEvent>, key: Key): seq<QueueEvent> {
    var k := Find(events, key);
    if k < |events| then events[..k] + events[k + 1..] else events
  }

  // ---- the queue ----

  class KernelEqueuePrivate {
    var m_events: seq<QueueEvent>
    var m_closed: bool

    constructor ()
      ensures m_events == [] && !m_closed
    {
      m_events, m_closed := [], false;
    }

    method Close()
      modifies this
      ensures m_closed && m_events == if old(m_closed) then old(m_events) else []
    {
      if m_closed {
        return;
      }
      m_closed := true;
      m_events := [];
    }

    method TriggerExpiredTimers(now_ns: nat)
      modifies this`m_events
      ensures m_events == AllExpired(old(m_events), now_ns)
    {
      var i := 0;
      while i < |m_events|
        invariant i <= |m_events| == |old(m_events)|
        invariant forall k :: 0 <= k < i ==> m_events[k] == Expired(old(m_events)[k], now_ns)
        invariant m_events[i..] == old(m_events)[i..]
      {
        var event := m_events[i];
        assert event == old(m_events)[i];
        if !event.triggered && event.deadline_ns != 0 && event.deadline_ns <= now_ns {
          m_events := m_events[i := event.(triggered := true)];
        }
        i := i + 1;
      }
    }

    /** The inner loop of `GetTriggeredEvents`: hand out the event at `it` until it is no longer triggered,
        turns out to be a one-shot, or the buffer is full. */
    method HandOutAt(it: nat, ev: array<KernelEvent>, start: nat, num: nat) returns (ret: nat, erase: bool)
      requires it < |m_events| && start < num <= ev.Length
      modifies this`m_events, ev
      ensures var r := HandOut(old(m_events)[it], num - start);
        && ret == start + |r.0| && Buffer(ev[..], old(ev[..]), start, r.0)
        && (erase <==> r.1 == [])
        && (if erase then |m_events| == |old(m_events)| && m_events == old(m_events)[it := m_events[it]]
            else m_events == old(m_events)[it := r.1[0]])
    {
      hide OneShot, Clears, HandOut, HandingOut, Buffer;
      ghost var first, was, before, out := m_events[it], m_events, ev[..], [];
      ret, erase := start, false;
      HandOutStart(first, num - start);
      BufferStart(before, start);
      while m_events[it].triggered
        invariant ret == start + |out| < num && |m_events| == |was| && m_events == was[it := m_events[it]]
        invariant HandingOut(first, num - start, out, m_events[it], num - ret)
        invariant Buffer(ev[..], before, start, out)
        decreases num - ret
      {
        var event := m_events[it];
        HandOutStep(first, num - start, out, event, num - ret);
        BufferStep(ev[..], before, start, out, [event.event], ev[..][ret := event.event]);
        ghost var next := ev[..][ret := event.event];
        ev[ret] := event.event;
        assert ev[..] == next;
        ret := ret + 1;
        out := out + [event.event];
        if OneShot(event.event) {
          return ret, true;
        }
        if event.reset_func != NoResetFunc {
          event := ResetByFunc(event);
        } else if Clears(event.event) {
          event := event.(triggered := false, event := event.event.(fflags := 0, data := 0));
        }
        if event.pending_events != [] {
          event := event.(event := event.pending_events[0], pending_events := event.pending_events[1..],
                          triggered := true);
        }
        m_events := m_events[it := event];
        if ret >= num {
          break;
        }
      }
      HandOutEnd(first, num - start, out, m_events[it], num - ret);
    }

    /** One turn of the outer loop: hand out the event at `it`, then erase it or step over it. */
    method HandOutAndStep(it: nat, ev: array<KernelEvent>, start: nat, num: nat, ghost walk: Walk)
      returns (ret: nat, next: nat, ghost later: Walk)
      requires it < |m_events| && start < num <= ev.Length
      requires WalkAt(walk, num, m_events, it, ev[..], start)
      modifies this`m_events, ev
      ensures WalkAt(later, num, m_events, next, ev[..], ret)
      ensures later.all == walk.all && later.before == walk.before && |later.rest| < |walk.rest|
    {
      hide HandOut, Buffer, OneShot, Clears, WalkAt;
      WalkHead(walk, num, m_events, it, ev[..], start);
      ghost var was, buf, r := m_events, ev[..], HandOut(m_events[it], num - start);
      var erase;
      ret, erase := HandOutAt(it, ev, start, num);
      if erase {
        m_events := m_events[..it] + m_events[it + 1..];
        next := it;
      } else {
        next := it + 1;
      }
      assert m_events == AfterTurn(was, it, r.1);
      later := WalkStep(walk, num, was, it, buf, start, ev[..]);
    }

    /** Hand out triggered events, at most `num`. */
    method GetTriggeredEvents(ev: array<KernelEvent>, num: nat, now_ns: nat) returns (ret: int)
      requires 1 <= num <= ev.Length
      modifies this`m_events, ev
      ensures old(m_closed) ==> ret == KERNEL_ERROR_EBADF && m_events == old(m_events) && ev[..] == old(ev[..])
      ensures !old(m_closed) ==>
        var r := HandOutAll(AllExpired(old(m_events), now_ns), num);
        && ret == |r.0| && ev[..] == r.0 + old(ev[..])[ret..] && m_events == r.1
    {
      hide HandOut, HandOutAll, WalkAt, Expired, AllExpired;
      if m_closed {
        return KERNEL_ERROR_EBADF;
      }
      TriggerExpiredTimers(now_ns);
      ret := 0;
      ghost var walk := Walk(m_events, ev[..], [], [], m_events);
      var it: nat := 0;
      StartWalk(m_events, num, ev[..]);
      while it < |m_events|
        invariant 0 <= ret < num
        invariant WalkAt(walk, num, m_events, it, ev[..], ret)
        invariant walk.all == AllExpired(old(m_events), now_ns) && walk.before == old(ev[..])
        decreases |walk.rest|
      {
        ret, it, walk := HandOutAndStep(it, ev, ret, num, walk);
        if ret >= num {
          WalkEnd(walk, num, m_events, it, ev[..], ret);
          return;
        }
      }
      WalkEnd(walk, num, m_events, it, ev[..], ret);
    }

    /** How long to wait for the nearest armed timer, in microseconds; false when none is armed. */
    method GetNextTimerWaitMicros(now_ns: nat) returns (has: bool, wait_micros: nat)
      requires now_ns <= UINT64_MAX && forall i :: 0 <= i < |m_events| ==> m_events[i].deadline_ns <= UINT64_MAX
      ensures has <==> exists i :: 0 <= i < |m_events| && Armed(m_events[i])
      ensures has ==> exists i :: Nearest(m_events, i) && wait_micros == WaitFor(m_events[i].deadline_ns, now_ns)
    {
      var nearest_deadline := UINT64_MAX;
      for i := 0 to |m_events|
        invariant nearest_deadline <= UINT64_MAX
        invariant nearest_deadline == UINT64_MAX <==> forall k :: 0 <= k < i ==> !Armed(m_events[k])
        invariant nearest_deadline < UINT64_MAX ==>
          exists k :: 0 <= k < i && Armed(m_events[k]) && m_events[k].deadline_ns == nearest_deadline
        invariant forall k :: 0 <= k < i && Armed(m_events[k]) ==> nearest_deadline <= m_events[k].deadline_ns
      {
        var event := m_events[i];
        if !event.triggered && event.deadline_ns != 0 && event.deadline_ns < nearest_deadline {
          nearest_deadline := event.deadline_ns;
        }
      }
      if nearest_deadline == UINT64_MAX {
        return false, 0;
      }
      var remaining_ns := if nearest_deadline > now_ns then nearest_deadline - now_ns else 0;
      var sum := (remaining_ns + 999) % (UINT64_MAX + 1);
      var rounded_us := if sum / 1000 > 1 then sum / 1000 else 1;
      return true, if rounded_us < UINT32_MAX then rounded_us else UINT32_MAX;
    }

    method AddEvent(event: QueueEvent) returns (r: int)
      modifies this`m_events
      ensures old(m_closed) ==> r == KERNEL_ERROR_EBADF && m_events == old(m_events)
      ensures !old(m_closed) ==> r == OK && m_events == Added(old(m_events), event)
    {
      if m_closed {
        return KERNEL_ERROR_EBADF;
      }
      var it := FindEvent(KeyOf(event.event));
      if it < |m_events| {
        m_events := m_events[it := Readded(m_events[it], event)];
      } else {
        m_events := m_events + [event];
      }
      return OK;
    }

    method TriggerEvent(ident: nat, filter: int, trigger_data: int) returns (r: int)
      modifies this`m_events
      ensures old(m_closed) ==> r == KERNEL_ERROR_EBADF && m_events == old(m_events)
      ensures !old(m_closed) ==>
        && r == (if Has(old(m_events), Key(ident, filter)) then OK else KERNEL_ERROR_ENOENT)
        && m_events == TriggeredIn(old(m_events), Key(ident, filter), trigger_data)
    {
      if m_closed {
        return KERNEL_ERROR_EBADF;
      }
      var it := FindEvent(Key(ident, filter));
      if it < |m_events| {
        m_events := m_events[it := Triggered(m_events[it], trigger_data)];
        return OK;
      }
      return KERNEL_ERROR_ENOENT;
    }

    method DeleteEvent(ident: nat, filter: int) returns (r: int)
      modifies this`m_events
      ensures old(m_closed) ==> r == KERNEL_ERROR_EBADF && m_events == old(m_events)
      ensures !old(m_closed) ==>
        && r == (if Has(old(m_events), Key(ident, filter)) then OK else KERNEL_ERROR_ENOENT)
        && m_events == Deleted(old(m_events), Key(ident, filter))
    {
      if m_closed {
        return KERNEL_ERROR_EBADF;
      }
      var it := FindEvent(Key(ident, filter));
      if it < |m_events| {
        m_events := m_events[..it] + m_events[it + 1..];
        return OK;
      }
      return KERNEL_ERROR_ENOENT;
    }

    /** `std::find_if` on the key. */
    method FindEvent(key: Key) returns (it: nat)
      ensures it == Find(m_events, key)
    {
      it := 0;
      while it < |m_events| && KeyOf(m_events[it].event) != key
        invariant it <= |m_events| && forall i :: 0 <= i < it ==> KeyOf(m_events[i].event) != key
      {
        it := it + 1;
      }
    }

    /** One turn of the loop of `WaitForEvents`, with the lock held: hand out what is triggered, or say how
        long to sleep on the condition variable. `micros` 0 waits without a limit. */
    method WaitTurn(ev: array<KernelEvent>, num: nat, micros: nat, elapsed: nat, now_ns: nat, later_ns: nat)
      returns (ret: int, sleep: Sleep)
      requires 1 <= num <= ev.Length && micros <= UINT32_MAX
      requires later_ns <= UINT64_MAX && forall i :: 0 <= i < |m_events| ==> m_events[i].deadline_ns <= UINT64_MAX
      modifies this`m_events, ev
      ensures m_closed == old(m_closed)
      ensures old(m_closed) ==>
        ret == KERNEL_ERROR_EBADF && sleep == NoSleep && m_events == old(m_events) && ev[..] == old(ev[..])
      ensures !old(m_closed) ==>
        var r := HandOutAll(AllExpired(old(m_events), now_ns), num);
        && ret == |r.0| && m_events == r.1 && ev[..] == r.0 + old(ev[..])[ret..]
        && (sleep == NoSleep <==> ret != 0 || 0 < micros <= elapsed)
        && (sleep == Forever <==>
              sleep != NoSleep && micros == 0 && forall i :: 0 <= i < |m_events| ==> !Armed(m_events[i]))
      ensures sleep.Micros? ==> IsSleep(m_events, micros, elapsed, later_ns, sleep.n)
      ensures sleep != NoSleep ==> forall i :: 0 <= i < |m_events| ==> !m_events[i].triggered
      ensures sleep == Forever ==> forall i :: 0 <= i < |m_events| ==> !Armed(m_events[i])
      ensures sleep.Micros? ==>
        && (micros != 0 ==> sleep.n <= micros - elapsed)
        && (later_ns >= 998 ==> forall i :: 0 <= i < |m_events| && Armed(m_events[i]) ==>
              sleep.n <= WaitFor(m_events[i].deadline_ns, later_ns))
      ensures sleep == NoSleep && ret == 0 ==> 0 < micros <= elapsed
    {
      hide HandOutAll, Expired, WaitFor;
      ghost var before := AllExpired(m_events, now_ns);
      ExpiredDeadlines(m_events, now_ns);
      ret := GetTriggeredEvents(ev, num, now_ns);
      if ret != 0 || (elapsed >= micros && micros != 0) {
        return ret, NoSleep;
      }
      RoomLeftMeansDrained(before, num);
      DeadlinesStay(before, num);
      var has_timer, timer_wait := GetNextTimerWaitMicros(later_ns);
      if micros == 0 && !has_timer {
        return ret, Forever;
      }
      if later_ns >= 998 {
        forall i, k | 0 <= i < |m_events| && 0 <= k < |m_events| && Armed(m_events[k])
          && m_events[i].deadline_ns <= m_events[k].deadline_ns
          ensures WaitFor(m_events[i].deadline_ns, later_ns) <= WaitFor(m_events[k].deadline_ns, later_ns)
        {
          WaitMonotone(m_events[i].deadline_ns, m_events[k].deadline_ns, later_ns);
        }
      }
      var external_wait := if micros != 0 then micros - elapsed else UINT32_MAX;
      assert forall i, k :: Nearest(m_events, i) && Nearest(m_events, k) ==>
        m_events[i].deadline_ns == m_events[k].deadline_ns;
      return ret, Micros(if has_timer && timer_wait < external_wait then timer_wait else external_wait);
    }
  }

  /** A sleep lasts until the time left of the wait, if that is limited, or the wait for the nearest deadline, if a
      timer is armed, whichever is less. */
  ghost predicate IsSleep(events: seq<QueueEvent>, micros: nat, elapsed: nat, later_ns: nat, n: nat) {
    var left := if micros == 0 then UINT32_MAX else micros - elapsed;
    if exists i :: Nearest(events, i) then
      forall i :: Nearest(events, i) ==>
        n == var wait := WaitFor(events[i].deadline_ns, later_ns); if wait < left then wait else left
    else
      n == left
  }

  /** No armed timer has an earlier deadline. */
  predicate Nearest(events: seq<QueueEvent>, i: int) {
    && 0 <= i < |events| && Armed(events[i])
    && forall k :: 0 <= k < |events| && Armed(events[k]) ==> events[i].deadline_ns <= events[k].deadline_ns
  }

  datatype Sleep = NoSleep | Forever | Micros(n: nat)

  /** A timer that a wait has to wake up for. The largest deadline stands for none. */
  predicate Armed(e: QueueEvent) {
    !e.triggered && e.deadline_ns != 0 && e.deadline_ns < UINT64_MAX
  }

  /** The wait for a deadline, as computed in 64-bit arithmetic. */
  function WaitFor(deadline_ns: nat, now_ns: nat): (wait: nat) {
    var remaining_ns := if deadline_ns > now_ns then deadline_ns - now_ns else 0;
    var us := (remaining_ns + 999) % (UINT64_MAX + 1) / 1000;
    var rounded_us := if us > 1 then us else 1;
    if rounded_us < UINT32_MAX then rounded_us else UINT32_MAX
  }

  /** The list after the walk has left the first of `rest`, of which `kept` stays. */
  lemma Advanced(done: seq<QueueEvent>, rest: seq<QueueEvent>, was: seq<QueueEvent>, now: seq<QueueEvent>,
                 kept: seq<QueueEvent>)
    requires rest != [] && was == done + rest && |kept| <= 1
    requires now == if kept == [] then was[..|done|] + was[|done| + 1..] else was[|done| := kept[0]]
    ensures now == done + kept + rest[1..]
  {
  }

  /** A buffer into which `out` has been written from `start` on. */
  ghost predicate Buffer(now: seq<KernelEvent>, before: seq<KernelEvent>, start: nat, out: seq<KernelEvent>) {
    start + |out| <= |before| && now == before[..start] + out + before[start + |out|..]
  }

  lemma BufferStart(before: seq<KernelEvent>, start: nat)
    requires start <= |before|
    ensures Buffer(before, before, start, [])
  {
  }

  lemma BufferStep(now: seq<KernelEvent>, before: seq<KernelEvent>, start: nat, out: seq<KernelEvent>,
                   more: seq<KernelEvent>, next: seq<KernelEvent>)
    requires Buffer(now, before, start, out)
    requires Buffer(next, now, start + |out|, more)
      || (|more| == 1 && start + |out| < |now| && next == now[start + |out| := more[0]])
    ensures Buffer(next, before, start, out + more)
  {
  }

  lemma BufferEnd(now: seq<KernelEvent>, before: seq<KernelEvent>, out: seq<KernelEvent>)
    requires Buffer(now, before, 0, out)
    ensures |out| <= |before| && now == out + before[|out|..]
  {
  }

  /** Call the reset function. */
  function ResetByFunc(e: QueueEvent): QueueEvent
    requires e.reset_func != NoResetFunc
  {
    match e.reset_func
    case UserEventResetFunc => UserEventReset(e)
    case InterruptEventResetFunc => InterruptEventReset(e)
  }

  function UserEventReset(e: QueueEvent): QueueEvent {
    if Clears(e.event) then e.(triggered := false, event := e.event.(fflags := 0, data := 0)) else e
  }

  function InterruptEventReset(e: QueueEvent): QueueEvent {
    e.(triggered := false, event := e.event.(fflags := 0, data := 0))
  }

  // ---- what the two loops keep ----

  /** Handing out `first` amounts to what is `out` already and handing out `now`. */
  ghost predicate HandingOut(first: QueueEvent, room: nat, out: seq<KernelEvent>, now: QueueEvent, left: nat) {
    HandOut(first, room).0 == out + HandOut(now, left).0 && HandOut(first, room).1 == HandOut(now, left).1
  }

  lemma HandOutStart(first: QueueEvent, room: nat)
    ensures HandingOut(first, room, [], first, room)
  {
    assert [] + HandOut(first, room).0 == HandOut(first, room).0;
  }

  lemma HandOutStep(first: QueueEvent, room: nat, out: seq<KernelEvent>, now: QueueEvent, left: nat)
    requires HandingOut(first, room, out, now, left) && now.triggered && left > 0
    ensures OneShot(now.event) ==> HandOut(first, room) == (out + [now.event], [])
    ensures !OneShot(now.event) ==> HandingOut(first, room, out + [now.event], AfterDelivery(now), left - 1)
  {
    if !OneShot(now.event) {
      var later := HandOut(AfterDelivery(now), left - 1).0;
      assert out + ([now.event] + later) == out + [now.event] + later;
    }
    hide AfterDelivery, OneShot;
  }

  lemma HandOutEnd(first: QueueEvent, room: nat, out: seq<KernelEvent>, now: QueueEvent, left: nat)
    requires HandingOut(first, room, out, now, left) && (!now.triggered || left == 0)
    ensures HandOut(first, room) == (out, [now])
  {
    assert out + [] == out;
  }

  /** The outer loop: `out` is handed out, `done` has been walked and stays, `rest` is still to be walked. */
  datatype Walk = Walk(all: seq<QueueEvent>, before: seq<KernelEvent>,
                       out: seq<KernelEvent>, done: seq<QueueEvent>, rest: seq<QueueEvent>)

  ghost predicate WalkAt(w: Walk, num: nat, events: seq<QueueEvent>, it: nat, buf: seq<KernelEvent>, ret: int) {
    && events == w.done + w.rest && it == |w.done| && ret == |w.out| <= num
    && Buffer(buf, w.before, 0, w.out)
    && HandOutAll(w.all, num).0 == w.out + HandOutAll(w.rest, num - ret).0
    && HandOutAll(w.all, num).1 == w.done + HandOutAll(w.rest, num - ret).1
  }

  lemma StartWalk(all: seq<QueueEvent>, num: nat, before: seq<KernelEvent>)
    ensures WalkAt(Walk(all, before, [], [], all), num, all, 0, before, 0)
  {
    assert [] + HandOutAll(all, num).0 == HandOutAll(all, num).0;
    assert [] + HandOutAll(all, num).1 == HandOutAll(all, num).1;
  }

  lemma WalkHead(w: Walk, num: nat, events: seq<QueueEvent>, it: nat, buf: seq<KernelEvent>, ret: int)
    requires WalkAt(w, num, events, it, buf, ret) && it < |events|
    ensures w.rest != [] && events[it] == w.rest[0]
  {
  }

  /** The list after a turn at `it`, where `kept` stays. */
  ghost function AfterTurn(events: seq<QueueEvent>, it: nat, kept: seq<QueueEvent>): seq<QueueEvent>
    requires it < |events|
  {
    if kept == [] then events[..it] + events[it + 1..] else events[it := kept[0]]
  }

  lemma WalkStep(w: Walk, num: nat, events: seq<QueueEvent>, it: nat, buf: seq<KernelEvent>, ret: nat,
                 filled: seq<KernelEvent>) returns (later: Walk)
    requires WalkAt(w, num, events, it, buf, ret) && ret < num
    requires it < |events| && Buffer(filled, buf, ret, HandOut(events[it], num - ret).0)
    ensures var r := HandOut(events[it], num - ret);
      WalkAt(later, num, AfterTurn(events, it, r.1), if r.1 == [] then it else it + 1, filled, ret + |r.0|)
    ensures later.all == w.all && later.before == w.before && |later.rest| < |w.rest|
  {
    hide HandOut, Buffer;
    WalkHead(w, num, events, it, buf, ret);
    var r := HandOut(w.rest[0], num - ret);
    later := w.(out := w.out + r.0, done := w.done + r.1, rest := w.rest[1..]);
    var after := HandOutAll(later.rest, num - ret - |r.0|);
    HandOutRest(w.rest, num - ret);
    assert w.out + (r.0 + after.0) == w.out + r.0 + after.0;
    assert w.done + (r.1 + after.1) == w.done + r.1 + after.1;
    Advanced(w.done, w.rest, events, AfterTurn(events, it, r.1), r.1);
    BufferStep(buf, w.before, 0, w.out, r.0, filled);
  }

  lemma HandOutRest(rest: seq<QueueEvent>, room: nat)
    requires rest != [] && room > 0
    ensures var r := HandOut(rest[0], room); var later := HandOutAll(rest[1..], room - |r.0|);
      HandOutAll(rest, room) == (r.0 + later.0, r.1 + later.1)
  {
  }

  lemma WalkEnd(w: Walk, num: nat, events: seq<QueueEvent>, it: nat, buf: seq<KernelEvent>, ret: int)
    requires WalkAt(w, num, events, it, buf, ret) && (it >= |events| || ret >= num)
    ensures ret == |HandOutAll(w.all, num).0| <= |w.before|
    ensures buf == HandOutAll(w.all, num).0 + w.before[ret..] && events == HandOutAll(w.all, num).1
  {
    assert HandOutAll(w.rest, num - ret) == ([], w.rest);
    assert w.out + [] == w.out;
    BufferEnd(buf, w.before, w.out);
  }

  /** A wait lasts until the deadline, unless clamped, exactly when rounding up did not wrap around; then it
      overshoots by at most a microsecond. */
  lemma WaitReachesDeadlineIff(deadline_ns: nat, now_ns: nat)
    requires deadline_ns <= UINT64_MAX && now_ns <= UINT64_MAX
    ensures var remaining := if deadline_ns > now_ns then deadline_ns - now_ns else 0;
      var wait := WaitFor(deadline_ns, now_ns);
      && 1 <= wait <= UINT32_MAX
      && (1000 * wait >= remaining || wait == UINT32_MAX <==> remaining + 999 <= UINT64_MAX)
      && 1000 * wait <= remaining + 1000
  {
    var remaining := if deadline_ns > now_ns then deadline_ns - now_ns else 0;
    var sum := (remaining + 999) % (UINT64_MAX + 1);
    assert sum == if remaining + 999 <= UINT64_MAX then remaining + 999 else remaining + 999 - (UINT64_MAX + 1);
  }

  /** At clock 0 the wait for a deadline one nanosecond before the largest takes a microsecond. */
  lemma WaitCutShort()
    ensures WaitFor(0xffff_ffff_ffff_fffe, 0) == 1
  {
  }

  /** A wait rounds up to microseconds, of which it has 32 bits. */
  lemma WaitRounds(now_ns: nat, ns: nat)
    requires now_ns + ns <= 0xffff_ffff_ffff_fc18
    ensures 0 < ns <= 0xffff_ffff * 1000 ==>
      1000 * (WaitFor(now_ns + ns, now_ns) - 1) < ns <= 1000 * WaitFor(now_ns + ns, now_ns)
    ensures ns > 0xffff_ffff * 1000 ==> WaitFor(now_ns + ns, now_ns) == 0xffff_ffff
    ensures WaitFor(now_ns, now_ns + ns) == 1
  {
  }

  lemma WaitMonotone(d: nat, e: nat, now_ns: nat)
    requires d <= e < UINT64_MAX && 998 <= now_ns <= UINT64_MAX
    ensures WaitFor(d, now_ns) <= WaitFor(e, now_ns)
  {
  }

  /** It never wraps around once the clock has reached 998 ns. */
  lemma WaitNeverWraps(deadline_ns: nat, now_ns: nat)
    requires deadline_ns < UINT64_MAX && 998 <= now_ns <= UINT64_MAX
    ensures var remaining := if deadline_ns > now_ns then deadline_ns - now_ns else 0;
      var wait := WaitFor(deadline_ns, now_ns);
      1000 * wait >= remaining || wait == UINT32_MAX
  {
    WaitReachesDeadlineIff(deadline_ns, now_ns);
  }

  // ---- timers ----

  datatype Timespec = Timespec(tv_sec: int, tv_nsec: int)

  /** The test of `KernelAddHRTimerEvent`. */
  predicate TimerRefused(ts: Timespec) {
    ts.tv_sec < 0 || ts.tv_nsec < 0 || ts.tv_nsec >= 1_000_000_000
    || ts.tv_sec > (UINT64_MAX - ts.tv_nsec) / 1_000_000_000
  }

  /** It refuses exactly the malformed delays and those that do not fit 64 bits of nanoseconds. */
  lemma RefusedIff(ts: Timespec)
    ensures !TimerRefused(ts) <==>
      && 0 <= ts.tv_sec && 0 <= ts.tv_nsec < 1_000_000_000
      && ts.tv_sec * 1_000_000_000 + ts.tv_nsec < 0x1_0000_0000_0000_0000
  {
  }

  function TimerEvent(ident: nat, udata: int, deadline_ns: nat): QueueEvent {
    QueueEvent(false, deadline_ns, KernelEvent(ident, KERNEL_EVFILT_HRTIMER, EV_ADD + EV_ONESHOT, 0, 0, udata),
               NoTriggerFunc, NoResetFunc, [])
  }

  function AmprEvent(ident: nat, udata: int): QueueEvent {
    QueueEvent(false, 0, KernelEvent(ident, KERNEL_EVFILT_USER, EV_ADD + EV_CLEAR, 0, 0, udata),
               AmprEventTriggerFunc, UserEventResetFunc, [])
  }

  /** What `AddEqEvent` of the renderer registers. */
  function InterruptEvent(id: int, udata: int): QueueEvent {
    QueueEvent(false, 0, KernelEvent(Ident(id), KERNEL_EVFILT_GRAPHICS, 0, 0, id, udata),
               InterruptEventTriggerFunc, InterruptEventResetFunc, [])
  }

  /** `static_cast<uintptr_t>(id)` of a 32-bit int. */
  function Ident(id: int): nat {
    id % (UINT64_MAX + 1)
  }

  /** What `KernelAddUserEvent` and, with EV_CLEAR, `KernelAddUserEventEdge` register. */
  function UserEvent(id: int, edge: bool): QueueEvent {
    var flags := if edge then EV_ADD + EV_CLEAR else EV_ADD;
    QueueEvent(false, 0, KernelEvent(Ident(id), KERNEL_EVFILT_USER, flags, 0, 0, 0),
               UserEventTriggerFunc, UserEventResetFunc, [])
  }

  // ---- what a program sees of them ----

  lemma Flags()
    ensures And(0x11, 0x10) == 0x10 && And(0x11, 0x20) == 0 && And(0x21, 0x10) == 0 && And(0x21, 0x20) == 0x20
    ensures And(1, 0x10) == 0 && And(1, 0x20) == 0 && And(0, 0x10) == 0 && And(0, 0x20) == 0
  {
    assert And(2, 2) == 2 && And(2, 1) == 0;
    assert And(8, 8) == 8 && And(8, 4) == 0;
  }

  /** The 64-bit pattern of the id. */
  lemma IdentOfId(id: int)
    requires -0x8000_0000 <= id < 0x8000_0000
    ensures Ident(id) == if id >= 0 then id else 0x1_0000_0000_0000_0000 + id
  {
  }

  /** A timer is handed out once, with its own user data, and gone; before its deadline it is not. */
  lemma TimerSeen(ident: nat, udata: int, deadline_ns: nat, now_ns: nat, room: nat)
    requires room > 0
    ensures var e := Expired(TimerEvent(ident, udata, deadline_ns), now_ns);
      HandOut(e, room) == if 0 < deadline_ns <= now_ns
                          then ([KernelEvent(ident, -15, 0x11, 0, 0, udata)], [])
                          else ([], [TimerEvent(ident, udata, deadline_ns)])
  {
    Flags();
  }

  /** An event that is reset is handed out once if nothing waits behind it. */
  lemma HandedOutOnce(e: QueueEvent, room: nat)
    requires room > 0 && e.triggered && !OneShot(e.event) && Resets(e) && e.pending_events == []
    ensures HandOut(e, room) == ([e.event], [e.(triggered := false, event := e.event.(fflags := 0, data := 0))])
  {
    var after := AfterDelivery(e);
    assert HandOut(after, room - 1) == ([], [after]);
    assert [e.event] + [] == [e.event];
    assert HandOut(e, room) == ([e.event] + [], [after]);
  }

  /** An AMPR event is handed out with the data of its trigger, and waits for the next one. */
  lemma AmprSeen(ident: nat, udata: int, data: int, room: nat)
    requires room > 0
    ensures HandOut(Triggered(AmprEvent(ident, udata), data), room)
         == ([KernelEvent(ident, -11, 0x21, 0, data, udata)], [AmprEvent(ident, udata)])
  {
    Flags();
    HandedOutOnce(Triggered(AmprEvent(ident, udata), data), room);
  }

  /** An interrupt event likewise, with its count of one. */
  lemma InterruptSeen(id: int, udata: int, data: int, room: nat)
    requires room > 0
    ensures HandOut(Triggered(InterruptEvent(id, udata), data), room)
         == ([KernelEvent(Ident(id), -14, 0, 1, data, udata)],
             [InterruptEvent(id, udata).(event := KernelEvent(Ident(id), -14, 0, 0, 0, udata))])
    ensures InterruptEvent(id, udata).event == KernelEvent(Ident(id), -14, 0, 0, id, udata)
  {
    Flags();
    HandedOutOnce(Triggered(InterruptEvent(id, udata), data), room);
  }

  /** Interrupts that come before the first is handed out wait in order, each counting on from it. */
  lemma InterruptsSeen(id: int, udata: int, data: int, more: int)
    ensures var e := Triggered(Triggered(InterruptEvent(id, udata), data), more);
      HandOut(e, 2).0
        == [KernelEvent(Ident(id), -14, 0, 1, data, udata), KernelEvent(Ident(id), -14, 0, 2, more, udata)]
  {
    Flags();
    var e := Triggered(Triggered(InterruptEvent(id, udata), data), more);
    HandedOutOnce(AfterDelivery(e), 1);
  }

  /** The count is one of 32 bits. */
  lemma InterruptCount(id: int, udata: int, fflags: nat, data: int)
    requires fflags <= 0xffff_ffff
    ensures var e := InterruptEvent(id, udata); var counted := e.(event := e.event.(fflags := fflags));
      Triggered(counted, data).event.fflags == if fflags == 0xffff_ffff then 0 else fflags + 1
  {
  }

  /** An event without a trigger function is marked and handed out as it is. */
  lemma PlainSeen(e: QueueEvent, data: int, room: nat)
    requires room > 0 && e.trigger_func == NoTriggerFunc && !OneShot(e.event) && Resets(e) && e.pending_events == []
    ensures HandOut(Triggered(e, data), room).0 == [e.event]
  {
    HandedOutOnce(Triggered(e, data), room);
  }

  /** A user event carries the data of its last trigger twice; an edge event is handed out once, a level event as
      often as there is room. */
  lemma UserSeen(id: int, edge: bool, data: int, more: int, room: nat)
    requires room > 0
    ensures var seen := KernelEvent(Ident(id), -11, if edge then 0x21 else 1, 0, more, more);
      var e := Triggered(Triggered(UserEvent(id, edge), data), more);
      && HandOut(e, room).0 == (if edge then [seen] else seq(room, _ => seen))
      && (!edge ==> HandOut(e, room).1 == [e])
  {
    Flags();
    var e := Triggered(Triggered(UserEvent(id, edge), data), more);
    if edge {
      var after := AfterDelivery(e);
      assert HandOut(after, room - 1) == ([], [after]);
    } else {
      LevelFillsRoom(e, room);
    }
  }

  /** Registering a key again gives its new user data to everything still to be handed out, and its deadline to the
      timer; what is handed out, and how often, stays the same. */
  lemma {:induction false} ReaddedSeen(e: QueueEvent, again: QueueEvent, room: nat)
    ensures var r, was := HandOut(Readded(e, again), room), HandOut(e, room);
      && |r.0| == |was.0| && |r.1| == |was.1|
      && (forall i :: 0 <= i < |r.0| ==> r.0[i] == was.0[i].(udata := again.event.udata))
      && (forall i :: 0 <= i < |r.1| ==> r.1[i] == Readded(was.1[i], again) && r.1[i].deadline_ns == again.deadline_ns)
    decreases room
  {
    if e.triggered && room > 0 && !OneShot(e.event) {
      ReaddedThenDelivered(e, again);
      ReaddedSeen(AfterDelivery(e), again, room - 1);
    }
  }

  lemma ReaddedThenDelivered(e: QueueEvent, again: QueueEvent)
    ensures AfterDelivery(Readded(e, again)) == Readded(AfterDelivery(e), again)
    ensures OneShot(Readded(e, again).event) == OneShot(e.event)
  {
    hide And;
    if e.pending_events != [] {
      var u := again.event.udata;
      assert WithUdata(e.pending_events, u)[1..] == WithUdata(e.pending_events[1..], u);
    }
  }

  // ---- handles ----

  class Equeues {
    var g_equeues: map<int, KernelEqueuePrivate>
    var g_next_equeue: nat

    constructor ()
      ensures Valid() && g_equeues == map[] && g_next_equeue == 1
    {
      g_equeues, g_next_equeue := map[], 1;
    }

    /** Every handle in use was handed out before, and no two of them name the same queue. */
    ghost predicate Valid()
      reads this
    {
      && g_next_equeue >= 1
      && (forall eq :: eq in g_equeues ==> 0 < eq < g_next_equeue)
      && (forall a, b :: a in g_equeues && b in g_equeues && a != b ==> g_equeues[a] != g_equeues[b])
    }

    function KernelPinEqueue(eq: int): (owner: KernelEqueuePrivate?)
      requires Valid()
      reads this
      ensures owner != null <==> eq in g_equeues
      ensures owner != null ==> owner == g_equeues[eq]
    {
      if eq == 0 then null else if eq in g_equeues then g_equeues[eq] else null
    }

    /** A new handle is none that was ever handed out. `exits` is the process giving up. */
    method KernelCreateEqueue(eq_is_null: bool, name_is_null: bool) returns (exits: bool, r: int, eq: int)
      requires Valid()
      modifies this
      ensures Valid()
      ensures eq_is_null || name_is_null ==>
        !exits && r == KERNEL_ERROR_EINVAL && g_equeues == old(g_equeues) && g_next_equeue == old(g_next_equeue)
      ensures !eq_is_null && !name_is_null ==>
        && (exits <==> old(g_next_equeue) > 0x7fff_ffff_ffff_ffff)
        && (exits ==> g_equeues == old(g_equeues) && g_next_equeue == old(g_next_equeue))
        && (!exits ==>
              && r == OK && eq == old(g_next_equeue) && g_next_equeue == eq + 1
              && eq !in old(g_equeues) && g_equeues.Keys == old(g_equeues).Keys + {eq}
              && fresh(g_equeues[eq]) && g_equeues[eq].m_events == [] && !g_equeues[eq].m_closed
              && forall other :: other in old(g_equeues) ==> g_equeues[other] == old(g_equeues)[other])
    {
      exits, r, eq := false, KERNEL_ERROR_EINVAL, 0;
      if eq_is_null || name_is_null {
        return;
      }
      if g_next_equeue > 0x7fff_ffff_ffff_ffff {
        exits := true;
        return;
      }
      eq := g_next_equeue;
      g_next_equeue := g_next_equeue + 1;
      var owner := new KernelEqueuePrivate();
      g_equeues := g_equeues[eq := owner];
      r := OK;
    }

    /** The handle stops working at once, and whoever still holds the queue finds it closed. */
    method KernelDeleteEqueue(eq: int) returns (r: int)
      requires Valid()
      modifies this, if eq in g_equeues then {g_equeues[eq]} else {}
      ensures Valid() && g_next_equeue == old(g_next_equeue)
      ensures eq !in old(g_equeues) ==> r == KERNEL_ERROR_EBADF && g_equeues == old(g_equeues)
      ensures eq in old(g_equeues) ==>
        && r == OK && g_equeues == old(g_equeues) - {eq} && old(g_equeues)[eq].m_closed
        && old(g_equeues)[eq].m_events == if old(g_equeues[eq].m_closed) then old(g_equeues[eq].m_events) else []
    {
      if eq !in g_equeues {
        return KERNEL_ERROR_EBADF;
      }
      var owner := g_equeues[eq];
      g_equeues := g_equeues - {eq};
      owner.Close();
      return OK;
    }

    /** Insert or re-arm a one-shot timer. `ts` is `None` for a null pointer. */
    method KernelAddHRTimerEvent(eq: int, id: int, ts: Option<Timespec>, udata: int, now_ns: nat) returns (r: int)
      requires Valid() && now_ns <= UINT64_MAX
      modifies if eq in g_equeues then {g_equeues[eq]} else {}
      ensures Valid()
      ensures ts == None ==> r == KERNEL_ERROR_EFAULT
      ensures ts.Some? && TimerRefused(ts.value) ==> r == KERNEL_ERROR_EINVAL
      ensures ts.Some? && !TimerRefused(ts.value) && eq !in g_equeues ==> r == KERNEL_ERROR_EBADF
      ensures eq in g_equeues ==>
        var owner := g_equeues[eq];
        var delay_ns := if ts.Some? then ts.value.tv_sec * 1_000_000_000 + ts.value.tv_nsec else 0;
        if ts.Some? && !TimerRefused(ts.value) && !old(owner.m_closed) then
          && r == OK
          && var end, last := now_ns + delay_ns, 0xffff_ffff_ffff_ffff;
             var timer := TimerEvent(Ident(id), udata, if end < last then end else last);
             owner.m_events == Added(old(owner.m_events), timer)
        else owner.m_events == old(owner.m_events)
      ensures eq in g_equeues ==>
        && g_equeues[eq].m_closed == old(g_equeues[eq].m_closed)
        && (ts.Some? && !TimerRefused(ts.value) && g_equeues[eq].m_closed ==> r == KERNEL_ERROR_EBADF)
    {
      if ts == None {
        return KERNEL_ERROR_EFAULT;
      }
      if TimerRefused(ts.value) {
        return KERNEL_ERROR_EINVAL;
      }
      RefusedIff(ts.value);
      var delay_ns := ts.value.tv_sec * 1_000_000_000 + ts.value.tv_nsec;
      var deadline_ns := if delay_ns <= UINT64_MAX - now_ns then now_ns + delay_ns else UINT64_MAX;
      var owner := KernelPinEqueue(eq);
      if owner == null {
        return KERNEL_ERROR_EBADF;
      }
      r := owner.AddEvent(TimerEvent(Ident(id), udata, deadline_ns));
    }
  }
}
