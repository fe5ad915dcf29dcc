/** Whole runs of an event queue: any interleaving of calls, each of which holds the queue's lock. */
module EventQueueProtocol {
  import opened Words
  import opened EventQueue

  datatype Op =
    | Add(event: QueueEvent)
    | Trigger(key: Key, data: int)
    | Delete(key: Key)
    | Drain(num: nat, now_ns: nat)
    | Close

  datatype State = State(events: seq<QueueEvent>, closed: bool)

  const INITIAL: State := State([], false)

  /** One call: the queue afterwards, and the events handed out. */
  function Step(s: State, op: Op): (State, seq<KernelEvent>) {
    if s.closed then (s, [])
    else match op
      case Add(event) => (s.(events := Added(s.events, event)), [])
      case Trigger(key, data) => (s.(events := TriggeredIn(s.events, key, data)), [])
      case Delete(key) => (s.(events := Deleted(s.events, key)), [])
      case Drain(num, now_ns) =>
        var r := HandOutAll(AllExpired(s.events, now_ns), num);
        (s.(events := r.1), r.0)
      case Close => (State([], true), [])
  }

  function Run(s: State, ops: seq<Op>): (State, seq<KernelEvent>) {
    if ops == [] then (s, [])
    else
      var before := Run(s, ops[..|ops| - 1]);
      var last := Step(before.0, ops[|ops| - 1]);
      (last.0, before.1 + last.1)
  }

  // ---- the calls are those of the queue ----

  /** One call on a queue; `ev` is the buffer of a drain. */
  method Perform(q: KernelEqueuePrivate, ev: array<KernelEvent>, op: Op) returns (out: seq<KernelEvent>)
    requires op.Drain? ==> 1 <= op.num <= ev.Length
    modifies q, ev
    ensures (State(q.m_events, q.m_closed), out) == Step(old(State(q.m_events, q.m_closed)), op)
  {
    hide HandOutAll, AllExpired, Added, TriggeredIn, Deleted;
    out := [];
    var r;
    match op {
      case Add(event) =>
        r := q.AddEvent(event);
      case Trigger(key, data) =>
        r := q.TriggerEvent(key.ident, key.filter, data);
      case Delete(key) =>
        r := q.DeleteEvent(key.ident, key.filter);
      case Drain(num, now_ns) =>
        r := q.GetTriggeredEvents(ev, num, now_ns);
        out := if q.m_closed then [] else ev[..r];
      case Close =>
        q.Close();
    }
  }

  /** So a run from the start is one of a new queue, and what is handed out in it is what its drains put into their
      buffers. */
  method PerformAll(ev: array<KernelEvent>, ops: seq<Op>) returns (q: KernelEqueuePrivate, out: seq<KernelEvent>)
    requires forall i :: 0 <= i < |ops| && ops[i].Drain? ==> 1 <= ops[i].num <= ev.Length
    modifies ev
    ensures fresh(q) && (State(q.m_events, q.m_closed), out) == Run(INITIAL, ops)
  {
    hide Step;
    q := new KernelEqueuePrivate();
    out := [];
    for i := 0 to |ops|
      invariant fresh(q) && (State(q.m_events, q.m_closed), out) == Run(INITIAL, ops[..i])
    {
      var handed := Perform(q, ev, ops[i]);
      out := out + handed;
      assert ops[..i + 1][..i] == ops[..i];
    }
    assert ops[..|ops|] == ops;
  }

  /** Events are registered with nothing pending, as every caller does; some are registered triggered. */
  predicate Proper(op: Op) {
    op.Add? ==> op.event.pending_events == []
  }

  // ---- the invariant ----

  ghost predicate UniqueKeys(events: seq<QueueEvent>) {
    forall i, j :: 0 <= i < j < |events| ==> KeyOf(events[i].event) != KeyOf(events[j].event)
  }

  /** Pending events wait behind a triggered one, and are events of the same registration. */
  predicate WellFormed(e: QueueEvent) {
    && (e.pending_events != [] ==> e.triggered)
    && forall i :: 0 <= i < |e.pending_events| ==>
      KeyOf(e.pending_events[i]) == KeyOf(e.event) && e.pending_events[i].flags == e.event.flags
  }

  ghost predicate Inv(s: State) {
    && UniqueKeys(s.events)
    && (forall i :: 0 <= i < |s.events| ==> WellFormed(s.events[i]))
    && (s.closed ==> s.events == [])
  }

  ghost predicate SameKeys(events: seq<QueueEvent>, now: seq<QueueEvent>) {
    |events| == |now| && forall i :: 0 <= i < |now| ==> KeyOf(now[i].event) == KeyOf(events[i].event)
  }

  lemma ReplacedKeepsInv(s: State, k: nat, e: QueueEvent)
    requires Inv(s) && k < |s.events| && WellFormed(e) && KeyOf(e.event) == KeyOf(s.events[k].event)
    ensures Inv(s.(events := s.events[k := e])) && SameKeys(s.events, s.events[k := e])
  {
  }

  lemma {:induction false} HandOutWellFormed(e: QueueEvent, room: nat)
    requires WellFormed(e)
    ensures forall i :: 0 <= i < |HandOut(e, room).0| ==> KeyOf(HandOut(e, room).0[i]) == KeyOf(e.event)
    ensures forall i :: 0 <= i < |HandOut(e, room).1| ==>
      WellFormed(HandOut(e, room).1[i]) && KeyOf(HandOut(e, room).1[i].event) == KeyOf(e.event)
    decreases room
  {
    hide OneShot, Clears;
    if e.triggered && room > 0 && !OneShot(e.event) {
      HandOutWellFormed(AfterDelivery(e), room - 1);
    }
  }

  /** Every event that a walk leaves registered was registered, and keys stay unique. */
  lemma {:induction false} HandOutAllKeeps(events: seq<QueueEvent>, room: nat)
    requires UniqueKeys(events) && forall i :: 0 <= i < |events| ==> WellFormed(events[i])
    ensures var rest := HandOutAll(events, room).1;
      && UniqueKeys(rest) && (forall i :: 0 <= i < |rest| ==> WellFormed(rest[i]))
      && (forall i :: 0 <= i < |rest| ==>
            exists j :: 0 <= j < |events| && KeyOf(events[j].event) == KeyOf(rest[i].event))
    decreases |events|
  {
    hide HandOut, WellFormed;
    if events != [] && room > 0 {
      HandOutWellFormed(events[0], room);
      var left := room - |HandOut(events[0], room).0|;
      HandOutAllKeeps(events[1..], left);
      var later := HandOutAll(events[1..], left).1;
      forall i | 0 <= i < |later| ensures KeyOf(later[i].event) != KeyOf(events[0].event) {
        var j :| 0 <= j < |events[1..]| && KeyOf(events[1..][j].event) == KeyOf(later[i].event);
        assert events[1..][j] == events[j + 1];
      }
      forall i | 0 <= i < |later|
        ensures exists j :: 0 <= j < |events| && KeyOf(events[j].event) == KeyOf(later[i].event)
      {
        var j :| 0 <= j < |events[1..]| && KeyOf(events[1..][j].event) == KeyOf(later[i].event);
        assert events[1..][j] == events[j + 1];
      }
    }
  }

  lemma ExpiredKeeps(s: State, now_ns: nat)
    requires Inv(s)
    ensures Inv(s.(events := AllExpired(s.events, now_ns))) && SameKeys(s.events, AllExpired(s.events, now_ns))
  {
  }

  lemma StepKeepsInv(s: State, op: Op)
    requires Inv(s) && Proper(op)
    ensures Inv(Step(s, op).0)
  {
    hide HandOutAll, AllExpired, WellFormed;
    if !s.closed {
      match op
      case Add(event) =>
        var k := Find(s.events, KeyOf(event.event));
        if k < |s.events| {
          ReaddedWellFormed(s.events[k], event);
          ReplacedKeepsInv(s, k, Readded(s.events[k], event));
        } else {
          FreshWellFormed(event);
        }
      case Trigger(key, data) =>
        var k := Find(s.events, key);
        if k < |s.events| {
          TriggeredWellFormed(s.events[k], data);
          ReplacedKeepsInv(s, k, Triggered(s.events[k], data));
        }
      case Delete(key) =>
        CutKeepsInv(s, Find(s.events, key));
      case Drain(num, now_ns) =>
        ExpiredKeeps(s, now_ns);
        HandOutAllKeeps(AllExpired(s.events, now_ns), num);
      case Close =>
    }
  }

  lemma CutKeepsInv(s: State, k: nat)
    requires Inv(s) && k <= |s.events|
    ensures k < |s.events| ==> Inv(s.(events := s.events[..k] + s.events[k + 1..]))
  {
    if k < |s.events| {
      var cut := s.events[..k] + s.events[k + 1..];
      forall i | 0 <= i < |cut| ensures cut[i] == s.events[if i < k then i else i + 1] {
      }
    }
  }

  lemma ReaddedWellFormed(e: QueueEvent, again: QueueEvent)
    requires WellFormed(e)
    ensures WellFormed(Readded(e, again)) && KeyOf(Readded(e, again).event) == KeyOf(e.event)
  {
  }

  lemma FreshWellFormed(e: QueueEvent)
    requires e.pending_events == []
    ensures WellFormed(e)
  {
  }

  lemma TriggeredWellFormed(e: QueueEvent, data: int)
    requires WellFormed(e)
    ensures WellFormed(Triggered(e, data)) && KeyOf(Triggered(e, data).event) == KeyOf(e.event)
  {
  }

  /** In every run keys stay unique, and whatever is pending waits behind a triggered event. */
  lemma {:induction false} RunKeepsInv(s: State, ops: seq<Op>)
    requires Inv(s) && forall i :: 0 <= i < |ops| ==> Proper(ops[i])
    ensures Inv(Run(s, ops).0)
  {
    hide Inv, Step;
    if ops != [] {
      RunKeepsInv(s, ops[..|ops| - 1]);
      StepKeepsInv(Run(s, ops[..|ops| - 1]).0, ops[|ops| - 1]);
    }
  }

  // ---- events with a FIFO: every trigger is handed out exactly once, in order ----

  /** The data still to be handed out for one event. */
  function DataOf(e: QueueEvent): seq<int> {
    (if e.triggered then [e.event.data] else []) + Datas(e.pending_events)
  }

  function Datas(s: seq<KernelEvent>): (r: seq<int>)
    ensures |r| == |s| && forall i :: 0 <= i < |r| ==> r[i] == s[i].data
  {
    if s == [] then [] else [s[0].data] + Datas(s[1..])
  }

  /** The data still to be handed out for a key. */
  function Outstanding(events: seq<QueueEvent>, key: Key): seq<int> {
    if events == [] then []
    else (if KeyOf(events[0].event) == key then DataOf(events[0]) else []) + Outstanding(events[1..], key)
  }

  /** The data handed out for a key. */
  function Delivered(out: seq<KernelEvent>, key: Key): seq<int> {
    if out == [] then [] else (if KeyOf(out[0]) == key then [out[0].data] else []) + Delivered(out[1..], key)
  }

  function TriggeredBy(op: Op, key: Key): seq<int> {
    if op.Trigger? && op.key == key then [op.data] else []
  }

  /** The data of all triggers of a key in a run. */
  function Triggers(ops: seq<Op>, key: Key): seq<int> {
    if ops == [] then [] else Triggers(ops[..|ops| - 1], key) + TriggeredBy(ops[|ops| - 1], key)
  }

  /** What `KernelAddAmprEvent` and the renderer's `AddEqEvent` register, at any later time. */
  predicate IsFifo(e: QueueEvent) {
    && e.deadline_ns == 0 && !OneShot(e.event)
    && (|| (e.trigger_func == AmprEventTriggerFunc && e.reset_func == UserEventResetFunc && Clears(e.event))
        || (e.trigger_func == InterruptEventTriggerFunc && e.reset_func == InterruptEventResetFunc))
  }

  ghost predicate FifoAt(events: seq<QueueEvent>, key: Key) {
    Find(events, key) < |events| && IsFifo(events[Find(events, key)])
  }

  /** The event stays registered: nothing deletes it, and no other kind of event is registered on its key. */
  predicate LeavesFifo(op: Op, key: Key) {
    && Proper(op) && op != Delete(key) && op != Close
    && (op.Add? && KeyOf(op.event.event) == key ==> op.event.deadline_ns == 0)
  }

  lemma AddedAreFifo(ident: nat, id: int, udata: int)
    ensures IsFifo(AmprEvent(ident, udata)) && IsFifo(InterruptEvent(id, udata))
  {
    assert And(0, 0x10) == 0;
    assert And(2, 2) == 2 && And(2, 1) == 0;
    assert And(8, 8) == 8 && And(8, 4) == 0;
    assert And(0x21, 0x20) == 0x20 && And(0x21, 0x10) == 0;
  }

  lemma {:induction false} NoneOutstanding(events: seq<QueueEvent>, key: Key)
    requires forall i :: 0 <= i < |events| ==> KeyOf(events[i].event) != key
    ensures Outstanding(events, key) == []
  {
    if events != [] {
      NoneOutstanding(events[1..], key);
    }
  }

  lemma {:induction false} OutstandingAt(events: seq<QueueEvent>, key: Key)
    requires UniqueKeys(events)
    ensures var k := Find(events, key);
      Outstanding(events, key) == if k < |events| then DataOf(events[k]) else []
  {
    hide DataOf;
    if events != [] {
      if KeyOf(events[0].event) == key {
        forall i | 0 <= i < |events[1..]| ensures KeyOf(events[1..][i].event) != key {
          assert events[1..][i] == events[i + 1];
        }
        NoneOutstanding(events[1..], key);
        assert DataOf(events[0]) + [] == DataOf(events[0]);
      } else {
        OutstandingAt(events[1..], key);
      }
    }
  }

  lemma {:induction false} FindOnly(events: seq<QueueEvent>, k: nat)
    requires UniqueKeys(events) && k < |events|
    ensures Find(events, KeyOf(events[k].event)) == k
  {
    var f := Find(events, KeyOf(events[k].event));
    assert f <= k;
  }

  lemma {:induction false} FindSame(events: seq<QueueEvent>, now: seq<QueueEvent>, key: Key)
    requires SameKeys(events, now)
    ensures Find(now, key) == Find(events, key)
  {
    if events != [] && KeyOf(events[0].event) != key {
      FindSame(events[1..], now[1..], key);
    }
  }

  lemma {:induction false} DeliveredConcat(a: seq<KernelEvent>, b: seq<KernelEvent>, key: Key)
    ensures Delivered(a + b, key) == Delivered(a, key) + Delivered(b, key)
  {
    if a == [] {
      assert a + b == b;
    } else {
      assert (a + b)[1..] == a[1..] + b;
      DeliveredConcat(a[1..], b, key);
    }
  }

  lemma {:induction false} DeliveredNone(out: seq<KernelEvent>, key: Key)
    requires forall i :: 0 <= i < |out| ==> KeyOf(out[i]) != key
    ensures Delivered(out, key) == []
  {
    if out != [] {
      DeliveredNone(out[1..], key);
    }
  }

  /** One delivery takes exactly the first outstanding datum. */
  lemma DeliveryTakesFirst(e: QueueEvent)
    requires WellFormed(e) && IsFifo(e) && e.triggered
    ensures var after := AfterDelivery(e);
      && WellFormed(after) && IsFifo(after) && KeyOf(after.event) == KeyOf(e.event)
      && DataOf(e) == [e.event.data] + DataOf(after)
  {
    hide And;
    if e.pending_events != [] {
      assert Datas(e.pending_events) == [e.pending_events[0].data] + Datas(e.pending_events[1..]);
    }
  }

  lemma {:induction false} HandOutConserves(e: QueueEvent, room: nat)
    requires WellFormed(e) && IsFifo(e)
    ensures |HandOut(e, room).1| == 1 && IsFifo(HandOut(e, room).1[0])
    ensures Delivered(HandOut(e, room).0, KeyOf(e.event)) + DataOf(HandOut(e, room).1[0]) == DataOf(e)
    decreases room
  {
    hide AfterDelivery, WellFormed, DataOf;
    if e.triggered && room > 0 {
      DeliveryTakesFirst(e);
      HandOutConserves(AfterDelivery(e), room - 1);
      var later := HandOut(AfterDelivery(e), room - 1);
      assert ([e.event] + later.0)[1..] == later.0;
    } else {
      assert [] + DataOf(e) == DataOf(e);
    }
  }

  /** A walk hands out, and leaves behind, exactly what was outstanding for a key, in order. */
  lemma {:induction false} WalkConserves(events: seq<QueueEvent>, room: nat, key: Key)
    requires UniqueKeys(events) && forall i :: 0 <= i < |events| ==> WellFormed(events[i])
    requires forall i :: 0 <= i < |events| && KeyOf(events[i].event) == key ==> IsFifo(events[i])
    ensures var r := HandOutAll(events, room);
      Delivered(r.0, key) + Outstanding(r.1, key) == Outstanding(events, key)
    decreases |events|
  {
    hide HandOut, WellFormed, IsFifo, DataOf, Delivered;
    if events == [] || room == 0 {
      DeliveredNone([], key);
      assert [] + Outstanding(events, key) == Outstanding(events, key);
    } else {
      var first := HandOut(events[0], room);
      var rest := HandOutAll(events[1..], room - |first.0|);
      HandOutWellFormed(events[0], room);
      TailUnique(events);
      WalkConserves(events[1..], room - |first.0|, key);
      DeliveredConcat(first.0, rest.0, key);
      if KeyOf(events[0].event) == key {
        HandOutConserves(events[0], room);
        NoneOutstanding(events[1..], key);
        EmptyParts(Delivered(rest.0, key), Outstanding(rest.1, key));
        assert (first.1 + rest.1)[1..] == rest.1;
        assert DataOf(events[0]) + [] == DataOf(events[0]);
      } else {
        DeliveredNone(first.0, key);
        OutstandingPrefix(first.1, rest.1, key);
      }
    }
  }

  /** The event is still registered afterwards. */
  lemma {:induction false} WalkKeepsFifo(events: seq<QueueEvent>, room: nat, key: Key)
    requires forall i :: 0 <= i < |events| ==> WellFormed(events[i])
    requires FifoAt(events, key)
    ensures FifoAt(HandOutAll(events, room).1, key)
    decreases |events|
  {
    hide HandOut, HandOutAll, WellFormed, IsFifo;
    if room == 0 {
      WalkNothing(events, room);
    } else {
      var first := HandOut(events[0], room);
      HandOutWellFormed(events[0], room);
      HandOutRest(events, room);
      if KeyOf(events[0].event) == key {
        HandOutConserves(events[0], room);
      } else {
        WalkKeepsFifo(events[1..], room - |first.0|, key);
        FindBehind(first.1, HandOutAll(events[1..], room - |first.0|).1, key);
      }
    }
  }

  lemma EmptyParts(a: seq<int>, b: seq<int>)
    requires a + b == []
    ensures a == [] && b == []
  {
    assert |a + b| == |a| + |b|;
  }

  lemma TailUnique(events: seq<QueueEvent>)
    requires UniqueKeys(events) && events != []
    ensures UniqueKeys(events[1..])
    ensures forall i :: 0 <= i < |events[1..]| ==> events[1..][i] == events[i + 1]
    ensures forall i :: 0 <= i < |events[1..]| ==> KeyOf(events[1..][i].event) != KeyOf(events[0].event)
  {
  }

  lemma OutstandingPrefix(a: seq<QueueEvent>, b: seq<QueueEvent>, key: Key)
    requires |a| <= 1 && forall i :: 0 <= i < |a| ==> KeyOf(a[i].event) != key
    ensures Outstanding(a + b, key) == Outstanding(b, key)
  {
    if a == [] {
      assert a + b == b;
    } else {
      assert (a + b)[1..] == b;
    }
  }

  lemma OutstandingReplaced(s: State, k: nat, e: QueueEvent, key: Key)
    requires Inv(s) && k < |s.events| && WellFormed(e) && KeyOf(e.event) == KeyOf(s.events[k].event)
    ensures KeyOf(e.event) == key ==>
      Outstanding(s.events, key) == DataOf(s.events[k]) && Outstanding(s.events[k := e], key) == DataOf(e)
    ensures KeyOf(e.event) != key ==> Outstanding(s.events[k := e], key) == Outstanding(s.events, key)
    ensures FifoAt(s.events, key) && (KeyOf(e.event) == key ==> IsFifo(e)) ==> FifoAt(s.events[k := e], key)
  {
    hide DataOf, WellFormed, IsFifo;
    ReplacedKeepsInv(s, k, e);
    OutstandingAt(s.events, key);
    OutstandingAt(s.events[k := e], key);
    FindSame(s.events, s.events[k := e], key);
    FindOnly(s.events, k);
  }

  lemma ReaddedSameData(e: QueueEvent, again: QueueEvent)
    requires again.deadline_ns == 0
    ensures DataOf(Readded(e, again)) == DataOf(e) && (IsFifo(e) ==> IsFifo(Readded(e, again)))
  {
    hide And;
  }

  lemma TriggerAppends(e: QueueEvent, data: int)
    requires WellFormed(e) && IsFifo(e)
    ensures DataOf(Triggered(e, data)) == DataOf(e) + [data] && IsFifo(Triggered(e, data))
  {
    hide And;
  }

  lemma ExpiredSameOutstanding(s: State, now_ns: nat, key: Key)
    requires Inv(s) && FifoAt(s.events, key)
    ensures Outstanding(AllExpired(s.events, now_ns), key) == Outstanding(s.events, key)
    ensures FifoAt(AllExpired(s.events, now_ns), key)
  {
    hide DataOf;
    ExpiredKeeps(s, now_ns);
    FindSame(s.events, AllExpired(s.events, now_ns), key);
    OutstandingAt(s.events, key);
    OutstandingAt(AllExpired(s.events, now_ns), key);
  }

  lemma DrainConserves(s: State, num: nat, now_ns: nat, key: Key)
    requires Inv(s) && FifoAt(s.events, key)
    ensures var r := HandOutAll(AllExpired(s.events, now_ns), num);
      Delivered(r.0, key) + Outstanding(r.1, key) == Outstanding(s.events, key) && FifoAt(r.1, key)
  {
    hide DataOf, WellFormed, IsFifo, HandOutAll, AllExpired;
    var events := AllExpired(s.events, now_ns);
    ExpiredKeeps(s, now_ns);
    ExpiredSameOutstanding(s, now_ns, key);
    forall i | 0 <= i < |events| && KeyOf(events[i].event) == key ensures IsFifo(events[i]) {
      FindOnly(events, i);
    }
    WalkConserves(events, num, key);
    WalkKeepsFifo(events, num, key);
  }

  lemma AddKeepsOutstanding(s: State, event: QueueEvent, key: Key)
    requires Inv(s) && FifoAt(s.events, key) && LeavesFifo(Add(event), key)
    ensures Outstanding(Added(s.events, event), key) == Outstanding(s.events, key)
    ensures FifoAt(Added(s.events, event), key)
  {
    hide DataOf, WellFormed, IsFifo, Readded;
    var k := Find(s.events, KeyOf(event.event));
    if k < |s.events| {
      ReaddedWellFormed(s.events[k], event);
      if KeyOf(event.event) == key {
        ReaddedSameData(s.events[k], event);
      }
      OutstandingReplaced(s, k, Readded(s.events[k], event), key);
    } else {
      FreshWellFormed(event);
      AppendedFind(s.events, event, key);
      OutstandingAt(s.events, key);
      OutstandingAt(s.events + [event], key);
    }
  }

  lemma {:induction false} AppendedFind(events: seq<QueueEvent>, event: QueueEvent, key: Key)
    requires Find(events, key) < |events|
    ensures Find(events + [event], key) == Find(events, key)
  {
    if KeyOf(events[0].event) != key {
      AppendedFind(events[1..], event, key);
      assert (events + [event])[1..] == events[1..] + [event];
    }
  }

  lemma DeleteKeepsOutstanding(s: State, other: Key, key: Key)
    requires Inv(s) && FifoAt(s.events, key) && other != key
    ensures Outstanding(Deleted(s.events, other), key) == Outstanding(s.events, key)
    ensures FifoAt(Deleted(s.events, other), key)
  {
    hide DataOf, WellFormed, IsFifo;
    var k := Find(s.events, other);
    if k < |s.events| {
      CutKeepsInv(s, k);
      var cut, f := s.events[..k] + s.events[k + 1..], Find(s.events, key);
      var at := if f < k then f else f - 1;
      assert cut[at] == s.events[f];
      FindOnly(cut, at);
      OutstandingAt(s.events, key);
      OutstandingAt(cut, key);
    }
  }

  /** One call on a queue where an event with a FIFO stays registered. */
  lemma FifoStep(s: State, op: Op, key: Key)
    requires Inv(s) && FifoAt(s.events, key) && LeavesFifo(op, key)
    ensures var r := Step(s, op);
      && FifoAt(r.0.events, key)
      && Delivered(r.1, key) + Outstanding(r.0.events, key) == Outstanding(s.events, key) + TriggeredBy(op, key)
  {
    hide FifoAt, Outstanding, HandOutAll, AllExpired, Added, Deleted, IsFifo, WellFormed, DataOf, Triggered;
    FifoIsOpen(s, key);
    match op
    case Add(event) =>
      AddKeepsOutstanding(s, event, key);
    case Trigger(other, data) =>
      var k := Find(s.events, other);
      if k < |s.events| {
        TriggeredWellFormed(s.events[k], data);
        if other == key {
          FifoFound(s, key);
          TriggerAppends(s.events[k], data);
        }
        OutstandingReplaced(s, k, Triggered(s.events[k], data), key);
      } else if other == key {
        FifoFound(s, key);
        assert false;
      }
    case Delete(other) =>
      DeleteKeepsOutstanding(s, other, key);
    case Drain(num, now_ns) =>
      DrainConserves(s, num, now_ns, key);
  }

  lemma FifoIsOpen(s: State, key: Key)
    requires Inv(s) && FifoAt(s.events, key)
    ensures !s.closed
  {
  }

  lemma FifoFound(s: State, key: Key)
    requires FifoAt(s.events, key)
    ensures Find(s.events, key) < |s.events| && IsFifo(s.events[Find(s.events, key)])
  {
  }

  /** Exactly once, in order: over any run in which the event stays registered, what has been handed out
      followed by what is outstanding is what was outstanding at the start followed by all triggers. */
  lemma {:induction false} FifoExactlyOnce(s: State, ops: seq<Op>, key: Key)
    requires Inv(s) && FifoAt(s.events, key) && forall i :: 0 <= i < |ops| ==> LeavesFifo(ops[i], key)
    ensures var r := Run(s, ops);
      && Inv(r.0) && FifoAt(r.0.events, key)
      && Delivered(r.1, key) + Outstanding(r.0.events, key) == Outstanding(s.events, key) + Triggers(ops, key)
    decreases |ops|
  {
    hide Inv, FifoAt, Outstanding, Step, Delivered, TriggeredBy;
    if ops == [] {
      DeliveredNone([], key);
      assert [] + Outstanding(s.events, key) == Outstanding(s.events, key) + [];
    } else {
      var init, last := ops[..|ops| - 1], ops[|ops| - 1];
      FifoExactlyOnce(s, init, key);
      var before := Run(s, init);
      FifoStep(before.0, last, key);
      StepKeepsInv(before.0, last);
      var after := Step(before.0, last);
      DeliveredConcat(before.1, after.1, key);
      assert Delivered(before.1, key) + (Delivered(after.1, key) + Outstanding(after.0.events, key))
          == Delivered(before.1, key) + Delivered(after.1, key) + Outstanding(after.0.events, key);
      assert Delivered(before.1, key) + (Outstanding(before.0.events, key) + TriggeredBy(last, key))
          == Delivered(before.1, key) + Outstanding(before.0.events, key) + TriggeredBy(last, key);
      assert Outstanding(s.events, key) + Triggers(init, key) + TriggeredBy(last, key)
          == Outstanding(s.events, key) + (Triggers(init, key) + TriggeredBy(last, key));
    }
  }

  /** So it is for what the two callers register: from the registration on, what has been handed out followed by
      what is outstanding is all triggers since, exactly once and in order. */
  lemma RegisteredExactlyOnce(s: State, event: QueueEvent, ops: seq<Op>)
    requires Inv(s) && !s.closed && !Has(s.events, KeyOf(event.event))
    requires (exists ident: nat, udata :: event == AmprEvent(ident, udata))
      || (exists id: int, udata :: event == InterruptEvent(id, udata))
    requires forall i :: 0 <= i < |ops| ==> LeavesFifo(ops[i], KeyOf(event.event))
    ensures var key := KeyOf(event.event); var r := Run(Step(s, Add(event)).0, ops);
      && Inv(r.0) && FifoAt(r.0.events, key)
      && Delivered(r.1, key) + Outstanding(r.0.events, key) == Triggers(ops, key)
  {
    hide Inv, Outstanding, Delivered, Run, LeavesFifo, IsFifo;
    var key, t := KeyOf(event.event), Step(s, Add(event)).0;
    if ident: nat, udata :| event == AmprEvent(ident, udata) {
      AddedAreFifo(ident, 0, udata);
    } else {
      var id: int, udata :| event == InterruptEvent(id, udata);
      AddedAreFifo(0, id, udata);
    }
    StepKeepsInv(s, Add(event));
    FindAppended(s.events, event);
    NothingOutstandingYet(t, key);
    FifoExactlyOnce(t, ops, key);
    assert [] + Triggers(ops, key) == Triggers(ops, key);
  }

  lemma NothingOutstandingYet(s: State, key: Key)
    requires Inv(s) && Has(s.events, key)
    requires var e := s.events[Find(s.events, key)]; !e.triggered && e.pending_events == []
    ensures Outstanding(s.events, key) == []
  {
    hide WellFormed;
    OutstandingAt(s.events, key);
  }

  /** A drain that did not fill its buffer has left nothing outstanding. */
  lemma RoomLeftMeansNothingOutstanding(s: State, num: nat, now_ns: nat, key: Key)
    requires Inv(s) && !s.closed && |Step(s, Drain(num, now_ns)).1| < num
    ensures Outstanding(Step(s, Drain(num, now_ns)).0.events, key) == []
  {
    hide HandOutAll, AllExpired;
    var events := AllExpired(s.events, now_ns);
    ExpiredKeeps(s, now_ns);
    HandOutAllKeeps(events, num);
    RoomLeftMeansDrained(events, num);
    OutstandingAt(HandOutAll(events, num).1, key);
  }

  // ---- one-shot timers ----

  /** What `KernelAddHRTimerEvent` registers, at any later time. */
  predicate IsTimer(e: QueueEvent) {
    e.trigger_func == NoTriggerFunc && e.pending_events == [] && OneShot(e.event)
  }

  /** Only timers are registered on the key, not yet triggered, and none is triggered by hand. */
  predicate OnlyTimer(op: Op, key: Key) {
    && Proper(op)
    && (Arms(op, key) ==> IsTimer(op.event) && !op.event.triggered)
    && !(op.Trigger? && op.key == key)
  }

  lemma TimerEventIsTimer(ident: nat, udata: int, deadline_ns: nat)
    ensures IsTimer(TimerEvent(ident, udata, deadline_ns))
    ensures KeyOf(TimerEvent(ident, udata, deadline_ns).event) == Key(ident, KERNEL_EVFILT_HRTIMER)
  {
    assert And(4, 4) == 4;
    assert And(0x11, 0x10) == 0x10;
  }

  /** How many events on the key are registered, and how many of those are triggered. */
  function Present(events: seq<QueueEvent>, key: Key): nat {
    if Has(events, key) then 1 else 0
  }

  /** The calls that insert, rather than re-arm, an event on the key. */
  function Insertions(s: State, ops: seq<Op>, key: Key): nat {
    if ops == [] then 0
    else
      var before := Run(s, ops[..|ops| - 1]).0;
      Insertions(s, ops[..|ops| - 1], key) + if Inserts(before, ops[|ops| - 1], key) then 1 else 0
  }

  predicate Inserts(s: State, op: Op, key: Key) {
    !s.closed && op.Add? && KeyOf(op.event.event) == key && !Has(s.events, key)
  }

  /** The index of the last of them, or -1. */
  function LastInsertion(s: State, ops: seq<Op>, key: Key): (at: int)
    ensures -1 <= at < |ops|
  {
    if ops == [] then -1
    else
      var init := ops[..|ops| - 1];
      if Inserts(Run(s, init).0, ops[|ops| - 1], key) then |init| else LastInsertion(s, init, key)
  }

  /** Before call `i` no event was on the key, and after it there is one. */
  ghost predicate Appears(s: State, ops: seq<Op>, key: Key, i: nat) {
    i < |ops| && !Has(Run(s, ops[..i]).0.events, key) && Has(Run(s, ops[..i + 1]).0.events, key)
  }

  ghost function Appearances(s: State, ops: seq<Op>, key: Key): set<nat> {
    set i: nat | i < |ops| && Appears(s, ops, key, i)
  }

  lemma InsertsIffAppears(s: State, op: Op, key: Key)
    requires Inv(s) && Proper(op)
    ensures Inserts(s, op, key) <==> !Has(s.events, key) && Has(Step(s, op).0.events, key)
  {
    hide HandOutAll, AllExpired, WellFormed, Added, TriggeredIn, Deleted;
    if !s.closed {
      match op
      case Add(event) =>
        AddTimer(s, event, key);
      case Trigger(other, data) =>
        TriggerKeepsKeys(s, other, data, key);
      case Delete(other) =>
        DeleteTimer(s, other, key);
      case Drain(num, now_ns) =>
        var events := AllExpired(s.events, now_ns);
        ExpiredKeeps(s, now_ns);
        FindSame(s.events, events, key);
        HandOutAllKeeps(events, num);
      case Close =>
    }
  }

  lemma TriggerKeepsKeys(s: State, other: Key, data: int, key: Key)
    requires Inv(s)
    ensures Has(TriggeredIn(s.events, other, data), key) <==> Has(s.events, key)
  {
    hide WellFormed, Triggered;
    var k := Find(s.events, other);
    if k < |s.events| {
      TriggeredWellFormed(s.events[k], data);
      ReplacedKeepsInv(s, k, Triggered(s.events[k], data));
      FindSame(s.events, s.events[k := Triggered(s.events[k], data)], key);
    }
  }

  /** The insertions of a run are the times that an event appears on the key; the last of them is the last time. */
  lemma {:induction false} InsertionsAreAppearances(s: State, ops: seq<Op>, key: Key)
    requires Inv(s) && forall i :: 0 <= i < |ops| ==> Proper(ops[i])
    ensures Insertions(s, ops, key) == |Appearances(s, ops, key)|
    ensures LastInsertion(s, ops, key) == -1 <==> Appearances(s, ops, key) == {}
    ensures var at := LastInsertion(s, ops, key);
      at != -1 ==> at in Appearances(s, ops, key) && forall i :: i in Appearances(s, ops, key) ==> i <= at
  {
    hide Inv, Run, Step, Inserts, Has;
    if ops != [] {
      var init, last := ops[..|ops| - 1], ops[|ops| - 1];
      InsertionsAreAppearances(s, init, key);
      RunKeepsInv(s, init);
      InsertsIffAppears(Run(s, init).0, last, key);
      RunUnfold(s, ops);
      AppearancesStep(s, ops, key);
    }
  }

  lemma RunUnfold(s: State, ops: seq<Op>)
    requires ops != []
    ensures Run(s, ops).0 == Step(Run(s, ops[..|ops| - 1]).0, ops[|ops| - 1]).0
  {
  }

  lemma AppearancesStep(s: State, ops: seq<Op>, key: Key)
    requires ops != []
    ensures var init := ops[..|ops| - 1];
      Appearances(s, ops, key) == Appearances(s, init, key)
        + if !Has(Run(s, init).0.events, key) && Has(Run(s, ops).0.events, key) then {|init|} else {}
  {
    hide Run, Has;
    var init := ops[..|ops| - 1];
    assert ops[..|ops|] == ops;
    forall i: nat | i < |init| ensures Appears(s, ops, key, i) <==> Appears(s, init, key, i) {
      assert init[..i] == ops[..i] && init[..i + 1] == ops[..i + 1];
    }
  }

  /** The call registers a timer on the key, or arms the registered one again. */
  predicate Arms(op: Op, key: Key) {
    op.Add? && KeyOf(op.event.event) == key
  }

  /** Call `j` is the last before call `k` to set the deadline. */
  ghost predicate InForce(ops: seq<Op>, key: Key, j: nat, k: nat, deadline_ns: nat) {
    && j < k <= |ops| && Arms(ops[j], key) && ops[j].event.deadline_ns == deadline_ns
    && forall i :: j < i < k ==> !Arms(ops[i], key)
  }

  /** Call `k` is a drain whose clock shows the deadline in force, which call `j` set, or more. */
  ghost predicate Fired(ops: seq<Op>, key: Key, from: int, j: nat, k: nat) {
    && from <= j < k < |ops| && ops[k].Drain? && Arms(ops[j], key)
    && InForce(ops, key, j, k, ops[j].event.deadline_ns) && 0 < ops[j].event.deadline_ns <= ops[k].now_ns
  }

  /** The deadline in force was reached at some drain since call `from`. */
  ghost predicate HasFired(ops: seq<Op>, key: Key, from: int) {
    exists j: nat, k: nat :: Fired(ops, key, from, j, k)
  }

  ghost predicate ArmedWith(ops: seq<Op>, key: Key, from: int, deadline_ns: nat) {
    exists j: nat :: from <= j && InForce(ops, key, j, |ops|, deadline_ns)
  }

  /** What is known of the event on the key, inserted by call `from`, after the calls `ops`. */
  ghost predicate TimerAt(events: seq<QueueEvent>, ops: seq<Op>, key: Key, from: int) {
    Has(events, key) ==>
      var e := events[Find(events, key)];
      && 0 <= from < |ops| && IsTimer(e)
      && ArmedWith(ops, key, from, e.deadline_ns) && (e.triggered ==> HasFired(ops, key, from))
  }

  lemma FiredLater(ops: seq<Op>, op: Op, key: Key, from: int)
    ensures HasFired(ops, key, from) ==> HasFired(ops + [op], key, from)
  {
    if HasFired(ops, key, from) {
      var j: nat, k: nat :| Fired(ops, key, from, j, k);
      assert Fired(ops + [op], key, from, j, k);
    }
  }

  /** Another call leaves the deadline in force, or sets it; a drain may reach it. */
  lemma ArmedLater(ops: seq<Op>, op: Op, key: Key, from: int)
    ensures !Arms(op, key) ==> forall d: nat :: ArmedWith(ops, key, from, d) ==> ArmedWith(ops + [op], key, from, d)
    ensures Arms(op, key) ==> forall i: int :: i <= |ops| ==> ArmedWith(ops + [op], key, i, op.event.deadline_ns)
    ensures op.Drain? ==>
      forall d: nat :: ArmedWith(ops, key, from, d) && 0 < d <= op.now_ns ==> HasFired(ops + [op], key, from)
  {
    var more := ops + [op];
    assert more[|ops|] == op;
    forall d: nat | ArmedWith(ops, key, from, d) && !Arms(op, key) ensures ArmedWith(more, key, from, d) {
      var j: nat :| from <= j && InForce(ops, key, j, |ops|, d);
      assert InForce(more, key, j, |more|, d);
    }
    forall d: nat | ArmedWith(ops, key, from, d) && op.Drain? && 0 < d <= op.now_ns
      ensures HasFired(more, key, from)
    {
      var j: nat :| from <= j && InForce(ops, key, j, |ops|, d);
      assert InForce(more, key, j, |ops|, d);
      assert Fired(more, key, from, j, |ops|);
    }
    forall i: int | Arms(op, key) && i <= |ops| ensures ArmedWith(more, key, i, op.event.deadline_ns) {
      assert InForce(more, key, |ops|, |more|, op.event.deadline_ns);
    }
  }

  /** A walk hands a timer out at most once, and only when it is triggered, and then it is gone. */
  lemma {:induction false} WalkTimer(events: seq<QueueEvent>, room: nat, key: Key)
    requires UniqueKeys(events) && forall i :: 0 <= i < |events| ==> WellFormed(events[i])
    requires Has(events, key) ==> IsTimer(events[Find(events, key)])
    ensures var r := HandOutAll(events, room);
      var n := |Delivered(r.0, key)|;
      && n + Present(r.1, key) == Present(events, key)
      && (n > 0 ==> events[Find(events, key)].triggered)
      && (Has(r.1, key) ==> r.1[Find(r.1, key)] == events[Find(events, key)])
    decreases |events|
  {
    hide HandOut, HandOutAll, WellFormed, IsTimer, Delivered;
    if events == [] || room == 0 {
      WalkNothing(events, room);
      DeliveredNone([], key);
    } else {
      var first := HandOut(events[0], room);
      var rest := HandOutAll(events[1..], room - |first.0|);
      HandOutRest(events, room);
      HandOutWellFormed(events[0], room);
      TailUnique(events);
      if KeyOf(events[0].event) == key {
        WalkNone(events[1..], room - |first.0|, key);
        HandOutTimer(events[0], room);
        JoinHead(first.0, first.1, rest.0, rest.1, key);
      } else {
        WalkTimer(events[1..], room - |first.0|, key);
        JoinBehind(first.0, first.1, rest.0, rest.1, key);
      }
    }
  }

  lemma WalkNothing(events: seq<QueueEvent>, room: nat)
    requires events == [] || room == 0
    ensures HandOutAll(events, room) == ([], events)
  {
  }

  lemma JoinHead(out: seq<KernelEvent>, kept: seq<QueueEvent>, later: seq<KernelEvent>, rest: seq<QueueEvent>, key: Key)
    requires |kept| <= 1 && forall i :: 0 <= i < |kept| ==> KeyOf(kept[i].event) == key
    requires Delivered(later, key) == [] && !Has(rest, key)
    ensures |Delivered(out + later, key)| == |Delivered(out, key)|
    ensures kept == [] ==> !Has(kept + rest, key)
    ensures kept != [] ==> Find(kept + rest, key) == 0 && (kept + rest)[0] == kept[0]
  {
    DeliveredConcat(out, later, key);
    if kept == [] {
      assert kept + rest == rest;
    }
  }

  lemma JoinBehind(out: seq<KernelEvent>, kept: seq<QueueEvent>, later: seq<KernelEvent>, rest: seq<QueueEvent>,
                   key: Key)
    requires |kept| <= 1 && forall i :: 0 <= i < |kept| ==> KeyOf(kept[i].event) != key
    requires forall i :: 0 <= i < |out| ==> KeyOf(out[i]) != key
    ensures |Delivered(out + later, key)| == |Delivered(later, key)|
    ensures Has(kept + rest, key) <==> Has(rest, key)
    ensures Has(rest, key) ==> (kept + rest)[Find(kept + rest, key)] == rest[Find(rest, key)]
  {
    DeliveredConcat(out, later, key);
    DeliveredNone(out, key);
    FindBehind(kept, rest, key);
  }

  lemma HandOutTimer(e: QueueEvent, room: nat)
    requires IsTimer(e) && room > 0
    ensures e.triggered ==> |Delivered(HandOut(e, room).0, KeyOf(e.event))| == 1 && HandOut(e, room).1 == []
    ensures !e.triggered ==> |Delivered(HandOut(e, room).0, KeyOf(e.event))| == 0 && HandOut(e, room).1 == [e]
  {
  }

  lemma FindBehind(a: seq<QueueEvent>, b: seq<QueueEvent>, key: Key)
    requires |a| <= 1 && forall i :: 0 <= i < |a| ==> KeyOf(a[i].event) != key
    ensures Find(a + b, key) == |a| + Find(b, key)
  {
    if a == [] {
      assert a + b == b;
    } else {
      assert (a + b)[1..] == b;
    }
  }

  lemma {:induction false} WalkNone(events: seq<QueueEvent>, room: nat, key: Key)
    requires forall i :: 0 <= i < |events| ==> WellFormed(events[i]) && KeyOf(events[i].event) != key
    ensures Delivered(HandOutAll(events, room).0, key) == [] && !Has(HandOutAll(events, room).1, key)
    decreases |events|
  {
    hide HandOut, WellFormed, Delivered;
    if events == [] || room == 0 {
      DeliveredNone([], key);
      FindNone(events, key);
    } else {
      var first := HandOut(events[0], room);
      var rest := HandOutAll(events[1..], room - |first.0|);
      HandOutWellFormed(events[0], room);
      WalkNone(events[1..], room - |first.0|, key);
      DeliveredNone(first.0, key);
      DeliveredConcat(first.0, rest.0, key);
      FindBehind(first.1, rest.1, key);
    }
  }

  lemma FindNone(events: seq<QueueEvent>, key: Key)
    requires forall i :: 0 <= i < |events| ==> KeyOf(events[i].event) != key
    ensures !Has(events, key)
  {
  }

  /** One call: deliveries and the registered event are paid for by insertions, and a delivery happens only
      at a drain, at which or before which a drain found the deadline in force reached. */
  lemma TimerStep(s: State, ops: seq<Op>, op: Op, key: Key, from: int)
    requires Inv(s) && OnlyTimer(op, key) && TimerAt(s.events, ops, key, from)
    ensures var r := Step(s, op);
      && TimerAt(r.0.events, ops + [op], key, if Inserts(s, op, key) then |ops| else from)
      && |Delivered(r.1, key)| + Present(r.0.events, key)
           <= Present(s.events, key) + (if Inserts(s, op, key) then 1 else 0)
      && (Delivered(r.1, key) != [] ==> op.Drain? && 0 <= from < |ops| && HasFired(ops + [op], key, from))
  {
    hide HandOutAll, AllExpired, IsTimer, WellFormed, HasFired, ArmedWith, Added, TriggeredIn, Deleted, Delivered;
    ArmedLater(ops, op, key, from);
    FiredLater(ops, op, key, from);
    DeliveredNone([], key);
    if !s.closed {
      match op
      case Add(event) =>
        AddTimer(s, event, key);
      case Trigger(other, data) =>
        TriggerTimer(s, other, data, key);
      case Delete(other) =>
        DeleteTimer(s, other, key);
      case Drain(num, now_ns) =>
        DrainTimer(s, ops, num, now_ns, key, from);
      case Close =>
    }
  }

  /** Registering an event on the key inserts it or re-arms it; registering any other leaves the key alone. */
  lemma AddTimer(s: State, event: QueueEvent, key: Key)
    requires Inv(s) && Proper(Add(event))
    ensures var now, was := Added(s.events, event), Find(s.events, key);
      if KeyOf(event.event) == key then
        && Has(now, key)
        && var e := now[Find(now, key)];
        && e.deadline_ns == event.deadline_ns
        && (if Has(s.events, key)
            then e.triggered == s.events[was].triggered && (IsTimer(s.events[was]) ==> IsTimer(e))
            else e == event)
      else
        && (Has(now, key) <==> Has(s.events, key))
        && (Has(now, key) ==> now[Find(now, key)] == s.events[was])
  {
    hide IsTimer, WellFormed, Readded;
    var k := Find(s.events, KeyOf(event.event));
    if k < |s.events| {
      ReaddedWellFormed(s.events[k], event);
      ReplacedKeepsInv(s, k, Readded(s.events[k], event));
      FindSame(s.events, s.events[k := Readded(s.events[k], event)], key);
      ReaddedTimer(s.events[k], event);
      FindOnly(s.events, k);
    } else if KeyOf(event.event) == key {
      FindAppended(s.events, event);
    } else {
      FindOther(s.events, event, key);
    }
  }

  lemma TriggerTimer(s: State, other: Key, data: int, key: Key)
    requires Inv(s) && other != key
    ensures var now := TriggeredIn(s.events, other, data);
      && (Has(now, key) <==> Has(s.events, key))
      && (Has(now, key) ==> now[Find(now, key)] == s.events[Find(s.events, key)])
  {
    hide WellFormed, Triggered;
    var k := Find(s.events, other);
    if k < |s.events| {
      TriggeredWellFormed(s.events[k], data);
      ReplacedKeepsInv(s, k, Triggered(s.events[k], data));
      FindSame(s.events, s.events[k := Triggered(s.events[k], data)], key);
    }
  }

  lemma ReaddedTimer(e: QueueEvent, again: QueueEvent)
    ensures var r := Readded(e, again);
      r.deadline_ns == again.deadline_ns && r.triggered == e.triggered && (IsTimer(e) ==> IsTimer(r))
  {
    hide And;
  }

  lemma {:induction false} FindAppended(events: seq<QueueEvent>, event: QueueEvent)
    requires Find(events, KeyOf(event.event)) == |events|
    ensures Find(events + [event], KeyOf(event.event)) == |events|
  {
    if events != [] {
      FindAppended(events[1..], event);
      assert (events + [event])[1..] == events[1..] + [event];
    }
  }

  lemma {:induction false} FindOther(events: seq<QueueEvent>, event: QueueEvent, key: Key)
    requires KeyOf(event.event) != key
    ensures Find(events + [event], key) == (if Has(events, key) then Find(events, key) else |events| + 1)
  {
    if events != [] && KeyOf(events[0].event) != key {
      FindOther(events[1..], event, key);
      assert (events + [event])[1..] == events[1..] + [event];
    }
  }

  lemma DeleteTimer(s: State, other: Key, key: Key)
    requires Inv(s)
    ensures var now := Deleted(s.events, other);
      Has(now, key) ==> Has(s.events, key) && now[Find(now, key)] == s.events[Find(s.events, key)]
  {
    hide WellFormed;
    var k, now := Find(s.events, other), Deleted(s.events, other);
    if k < |s.events| && Has(now, key) {
      var at := Find(now, key);
      var f := if at < k then at else at + 1;
      assert s.events[f] == now[at];
      FindOnly(s.events, f);
    }
  }

  lemma DrainTimer(s: State, ops: seq<Op>, num: nat, now_ns: nat, key: Key, from: int)
    requires Inv(s) && TimerAt(s.events, ops, key, from)
    ensures var r := HandOutAll(AllExpired(s.events, now_ns), num);
      && TimerAt(r.1, ops + [Drain(num, now_ns)], key, from)
      && |Delivered(r.0, key)| + Present(r.1, key) <= Present(s.events, key)
      && (Delivered(r.0, key) != [] ==>
            0 <= from < |ops| && HasFired(ops + [Drain(num, now_ns)], key, from))
  {
    hide HandOutAll, IsTimer, WellFormed, HasFired, ArmedWith;
    var events := AllExpired(s.events, now_ns);
    ArmedLater(ops, Drain(num, now_ns), key, from);
    FiredLater(ops, Drain(num, now_ns), key, from);
    ExpiredKeeps(s, now_ns);
    FindSame(s.events, events, key);
    if Has(events, key) {
      var e := s.events[Find(s.events, key)];
      ExpiredTimer(e, now_ns);
    }
    WalkTimer(events, num, key);
  }

  lemma ExpiredTimer(e: QueueEvent, now_ns: nat)
    ensures IsTimer(e) ==> IsTimer(Expired(e, now_ns))
    ensures Expired(e, now_ns).deadline_ns == e.deadline_ns
    ensures Expired(e, now_ns).triggered ==> e.triggered || 0 < e.deadline_ns <= now_ns
  {
  }

  /** In every run a timer that is never triggered by hand is handed out at most once per insertion. */
  lemma {:induction false} TimerOncePerInsertion(ops: seq<Op>, key: Key)
    requires forall i :: 0 <= i < |ops| ==> OnlyTimer(ops[i], key)
    ensures var r := Run(INITIAL, ops);
      && Inv(r.0) && TimerAt(r.0.events, ops, key, LastInsertion(INITIAL, ops, key))
      && |Delivered(r.1, key)| + Present(r.0.events, key) <= Insertions(INITIAL, ops, key)
    decreases |ops|
  {
    hide Inv, TimerAt, Step, Delivered, Inserts;
    if ops == [] {
      NoTimerYet(key);
    } else {
      var init, last := ops[..|ops| - 1], ops[|ops| - 1];
      TimerOncePerInsertion(init, key);
      var before := Run(INITIAL, init);
      TimerStep(before.0, init, last, key, LastInsertion(INITIAL, init, key));
      StepKeepsInv(before.0, last);
      DeliveredConcat(before.1, Step(before.0, last).1, key);
      assert init + [last] == ops;
    }
  }

  lemma NoTimerYet(key: Key)
    ensures Inv(INITIAL) && TimerAt(INITIAL.events, [], key, -1)
    ensures Delivered([], key) == [] && Present(INITIAL.events, key) == 0
  {
  }

  /** The call that inserted the registered event, after which none inserted another. */
  lemma {:induction false} LastInsertionIsLast(s: State, ops: seq<Op>, key: Key)
    ensures var at := LastInsertion(s, ops, key);
      && (at >= 0 ==> Inserts(Run(s, ops[..at]).0, ops[at], key))
      && forall k :: at < k < |ops| ==> !Inserts(Run(s, ops[..k]).0, ops[k], key)
  {
    hide Inserts, Run;
    if ops != [] {
      var init := ops[..|ops| - 1];
      LastInsertionIsLast(s, init, key);
      forall k | 0 <= k < |init| ensures init[..k] == ops[..k] {
      }
    }
  }

  /** And a timer is handed out only after a drain, this one or one since the event was inserted, saw a clock at
      or past the deadline in force at that drain. */
  lemma TimerOnlyAfterDeadline(ops: seq<Op>, num: nat, now_ns: nat, key: Key)
    requires forall i :: 0 <= i < |ops| ==> OnlyTimer(ops[i], key)
    requires Delivered(Step(Run(INITIAL, ops).0, Drain(num, now_ns)).1, key) != []
    ensures var at := LastInsertion(INITIAL, ops, key);
      && 0 <= at && Inserts(Run(INITIAL, ops[..at]).0, ops[at], key)
      && (forall k :: at < k < |ops| ==> !Inserts(Run(INITIAL, ops[..k]).0, ops[k], key))
      && HasFired(ops + [Drain(num, now_ns)], key, at)
  {
    hide Inv, TimerAt, Step, Delivered, HasFired, Run, Inserts, LastInsertion;
    TimerOncePerInsertion(ops, key);
    TimerStep(Run(INITIAL, ops).0, ops, Drain(num, now_ns), key, LastInsertion(INITIAL, ops, key));
    LastInsertionIsLast(INITIAL, ops, key);
  }

  /** A call by which `KernelAddHRTimerEvent` may register a timer on the key, or one that leaves the key alone. */
  ghost predicate HRTimerCall(op: Op, ident: nat) {
    var key := Key(ident, KERNEL_EVFILT_HRTIMER);
    && Proper(op) && !(op.Trigger? && op.key == key)
    && (Arms(op, key) ==> exists udata, deadline_ns: nat :: op.event == TimerEvent(ident, udata, deadline_ns))
  }

  /** So it is for high-resolution timers, from an empty queue on: one hand-out for each insertion at most, and none
      before a drain has seen the deadline in force. */
  lemma HRTimerFires(ops: seq<Op>, num: nat, now_ns: nat, ident: nat)
    requires forall i :: 0 <= i < |ops| ==> HRTimerCall(ops[i], ident)
    ensures var key, r := Key(ident, KERNEL_EVFILT_HRTIMER), Run(INITIAL, ops);
      && |Delivered(r.1, key)| + Present(r.0.events, key) <= Insertions(INITIAL, ops, key)
      && (Delivered(Step(r.0, Drain(num, now_ns)).1, key) != [] ==>
            HasFired(ops + [Drain(num, now_ns)], key, LastInsertion(INITIAL, ops, key)))
  {
    hide Inv, TimerAt, Step, Delivered, HasFired, Run, Inserts, Insertions, LastInsertion, IsTimer;
    var key := Key(ident, KERNEL_EVFILT_HRTIMER);
    forall i | 0 <= i < |ops| ensures OnlyTimer(ops[i], key) {
      if Arms(ops[i], key) {
        var udata, deadline_ns: nat :| ops[i].event == TimerEvent(ident, udata, deadline_ns);
        TimerEventIsTimer(ident, udata, deadline_ns);
      }
    }
    TimerOncePerInsertion(ops, key);
    if Delivered(Step(Run(INITIAL, ops).0, Drain(num, now_ns)).1, key) != [] {
      TimerOnlyAfterDeadline(ops, num, now_ns, key);
    }
  }

  // ---- closing ----

  /** After a close nothing is registered, and no later call changes that or hands anything out. */
  lemma {:induction false} ClosedForGood(s: State, ops: seq<Op>)
    requires s.closed
    ensures Run(s, ops) == (s, [])
  {
    if ops != [] {
      ClosedForGood(s, ops[..|ops| - 1]);
      assert Step(s, ops[|ops| - 1]) == (s, []);
      assert Run(s, ops).1 == [];
    }
  }
}
