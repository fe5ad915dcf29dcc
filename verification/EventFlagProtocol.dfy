/** Any number of threads using one event flag, as interleaved stretches of lock-held code. */
module EventFlagProtocol {
  import opened EventFlag

  type Thread = nat

  /** A thread inside the condition variable, and whether a signal has reached it. */
  datatype Waiter = Waiter(req: Request, signalled: bool)

  datatype Drainer = Nobody | Canceller(t: Thread) | Deleter(t: Thread)

  datatype State = State(flag: Flag, blocked: map<Thread, Waiter>, drainer: Drainer, gone: bool)

  /** What happens next.  An attempt of Set, Clear, Cancel or Delete that finds the flag marked, and
      a drain test that finds waiting threads, change nothing and are not events. */
  datatype Event =
    | Enter(t: Thread, req: Request)
    | Wake(t: Thread, elapsed: nat)
    | SetCall(bits: bv64)
    | ClearCall(bits: bv64)
    | CancelBegin(t: Thread, bits: bv64)
    | DeleteBegin(t: Thread)
    | DrainEnd

  function Initial(single: bool, bits: bv64): State {
    State(Flag(single, Set, 0, bits), map[], Nobody, false)
  }

  predicate Busy(s: State, t: Thread) {
    t in s.blocked || s.drainer == Canceller(t) || s.drainer == Deleter(t)
  }

  /** The condition variable may return at any time, with or without a signal. */
  predicate Enabled(s: State, e: Event) {
    !s.gone &&
    match e
    case Enter(t, _) => !Busy(s, t)
    case Wake(t, _) => t in s.blocked
    case SetCall(_) => s.flag.status == Set
    case ClearCall(_) => s.flag.status == Set
    case CancelBegin(t, _) => !Busy(s, t) && s.flag.status == Set
    case DeleteBegin(t) => !Busy(s, t) && s.flag.status == Set
    case DrainEnd => s.drainer != Nobody && s.flag.waiting <= 0
  }

  function SignalAll(m: map<Thread, Waiter>): map<Thread, Waiter> {
    map t | t in m :: m[t].(signalled := true)
  }

  /** What the thread of an event returns, for the two events that are part of a wait. */
  function OutcomeOf(s: State, e: Event): Option<Outcome> {
    match e
    case Enter(_, req) => Some(EnterStep(s.flag, req).1)
    case Wake(t, elapsed) => if t in s.blocked then Some(WakeStep(s.flag, s.blocked[t].req, elapsed).1) else None
    case _ => None
  }

  function Apply(s: State, e: Event): State
    requires Enabled(s, e)
  {
    match e
    case Enter(t, req) =>
      var (f, o) := EnterStep(s.flag, req);
      s.(flag := f, blocked := if o.Blocks? then s.blocked[t := Waiter(req, false)] else s.blocked)
    case Wake(t, elapsed) =>
      var req := s.blocked[t].req;
      var (f, o) := WakeStep(s.flag, req, elapsed);
      s.(flag := f,
         blocked := if o.Blocks? then s.blocked[t := Waiter(req, false)] else s.blocked - {t})
    case SetCall(bits) =>
      s.(flag := SetStep(s.flag, bits), blocked := SignalAll(s.blocked))
    case ClearCall(bits) =>
      s.(flag := ClearStep(s.flag, bits))
    case CancelBegin(t, bits) =>
      s.(flag := CancelStep(s.flag, bits), blocked := SignalAll(s.blocked),
         drainer := if s.flag.waiting > 0 then Canceller(t) else Nobody)
    case DeleteBegin(t) =>
      s.(flag := DeleteStep(s.flag), blocked := SignalAll(s.blocked),
         drainer := Deleter(t), gone := s.flag.waiting <= 0)
    case DrainEnd =>
      if s.drainer.Canceller? then s.(flag := RestoreStep(s.flag), drainer := Nobody)
      else s.(gone := true)
  }

  // ---- the steps are those of the flag ----

  /** The arguments of the wait that an event is part of. */
  function RequestOf(s: State, e: Event): Request
    requires Enabled(s, e) && (e.Enter? || e.Wake?)
  {
    match e
    case Enter(_, req) => req
    case Wake(t, _) => s.blocked[t].req
  }

  /** Every event is a stretch of code of the flag. A thread is inside the condition variable afterwards exactly
      when its stretch ended there, and then no signal has reached it yet. */
  method Perform(flag: KernelEventFlagPrivate, s: State, e: Event) returns (outcome: Option<Outcome>, gone: bool)
    requires Enabled(s, e) && flag.Abs() == s.flag
    modifies flag
    ensures flag.Abs() == Apply(s, e).flag
    ensures outcome == OutcomeOf(s, e) && gone == Apply(s, e).gone
    ensures outcome.Some? <==> e.Enter? || e.Wake?
    ensures outcome.Some? ==>
      && var after := Apply(s, e).blocked;
      && (e.t in after <==> outcome.value.Blocks?)
      && (outcome.value.Blocks? ==> after[e.t] == Waiter(RequestOf(s, e), false))
      && after - {e.t} == s.blocked - {e.t}
    ensures outcome.None? ==>
      && var after := Apply(s, e).blocked;
      && after.Keys == s.blocked.Keys
      && forall t :: t in s.blocked ==>
        after[t] == if e.ClearCall? || e.DrainEnd? then s.blocked[t] else s.blocked[t].(signalled := true)
  {
    hide Satisfied, Cleared, LoopMeans, IsUnion, IsIntersection, IsTimeLeft;
    outcome, gone := None, false;
    match e {
      case Enter(_, req) =>
        var o := flag.Wait(req);
        outcome := Some(o);
      case Wake(t, elapsed) =>
        var o := flag.Woken(s.blocked[t].req, elapsed);
        outcome := Some(o);
      case SetCall(bits) =>
        var done := flag.SetBits(bits);
      case ClearCall(bits) =>
        var done := flag.Clear(bits);
      case CancelBegin(_, bits) =>
        var begun, num := flag.Cancel(bits);
      case DeleteBegin(_) =>
        var begun;
        begun, gone := flag.Delete();
      case DrainEnd =>
        if s.drainer.Canceller? {
          var finished := flag.CancelDrain();
        } else {
          gone := flag.DeleteDrain();
        }
    }
  }

  /** So every run is one of a new flag. */
  method PerformAll(single: bool, bits: bv64, states: seq<State>, events: seq<Event>)
    returns (flag: KernelEventFlagPrivate, outcomes: seq<Option<Outcome>>)
    requires IsRun(states, events) && states[0] == Initial(single, bits)
    ensures fresh(flag) && flag.Abs() == states[|events|].flag
    ensures |outcomes| == |events|
    ensures forall i :: 0 <= i < |events| ==> outcomes[i] == OutcomeOf(states[i], events[i])
  {
    hide Enabled, Apply, OutcomeOf;
    flag := new KernelEventFlagPrivate(single, bits);
    outcomes := [];
    for i := 0 to |events|
      invariant fresh(flag) && flag.Abs() == states[i].flag && |outcomes| == i
      invariant forall k :: 0 <= k < i ==> outcomes[k] == OutcomeOf(states[k], events[k])
    {
      assert Enabled(states[i], events[i]) && states[i + 1] == Apply(states[i], events[i]);
      var outcome, gone := Perform(flag, states[i], events[i]);
      outcomes := outcomes + [outcome];
    }
  }

  // ---- what every step keeps ----

  /** A thread that no signal has reached would not return if it looked at the bits now. */
  ghost predicate NoLostWakeup(s: State) {
    forall t :: t in s.blocked && !s.blocked[t].signalled ==> !Satisfied(s.flag.bits, s.blocked[t].req)
  }

  ghost predicate Inv(s: State) {
    && s.flag.waiting == |s.blocked|
    && (s.drainer == Nobody <==> s.flag.status == Set)
    && (s.drainer.Canceller? <==> s.flag.status == Canceled)
    && (s.drainer.Canceller? ==> s.drainer.t !in s.blocked)
    && (s.drainer.Deleter? ==> s.drainer.t !in s.blocked)
    && (s.flag.single ==> |s.blocked| <= 1)
    && (s.gone ==> s.blocked == map[] && s.flag.status == Deleted)
    && NoLostWakeup(s)
  }

  lemma InitialInv(single: bool, bits: bv64)
    ensures Inv(Initial(single, bits))
  {
  }

  // ---- bits ----

  lemma FewerBits(bits: bv64, mask: bv64, r: bv64)
    ensures !HasAll(bits, r) ==> !HasAll(bits & mask, r) && !HasAll(0, r)
    ensures !HasAny(bits, r) ==> !HasAny(bits & mask, r) && !HasAny(0, r)
  {
  }

  lemma ClearingKeepsUnsatisfied(bits: bv64, mask: bv64, req: Request)
    requires !Satisfied(bits, req)
    ensures !Satisfied(bits & mask, req) && !Satisfied(0, req)
  {
    hide HasAll, HasAny;
    FewerBits(bits, mask, req.bits);
  }

  /** However an Ok wait clears, nobody else's condition becomes true. */
  lemma ClearedKeepsUnsatisfied(bits: bv64, winner: Request, req: Request)
    requires !Satisfied(bits, req)
    ensures !Satisfied(Cleared(bits, winner), req)
  {
    hide Satisfied;
    ClearingKeepsUnsatisfied(bits, !winner.bits, req);
  }

  // ---- sizes ----

  lemma SizeAdd<K, V>(m: map<K, V>, k: K, v: V)
    ensures |m[k := v]| == if k in m then |m| else |m| + 1
  {
    assert m[k := v].Keys == m.Keys + {k};
  }

  lemma SizeRemove<K, V>(m: map<K, V>, k: K)
    requires k in m
    ensures |m - {k}| == |m| - 1
  {
    assert (m - {k}).Keys == m.Keys - {k};
  }

  lemma SizeSignal(m: map<Thread, Waiter>)
    ensures |SignalAll(m)| == |m|
    ensures SignalAll(m).Keys == m.Keys
  {
    assert SignalAll(m).Keys == m.Keys;
  }

  lemma SizePositive<K, V>(m: map<K, V>, k: K)
    requires k in m
    ensures |m| >= 1
  {
    SizeRemove(m, k);
  }

  // ---- one step ----

  lemma EnterInv(s: State, t: Thread, req: Request)
    requires Inv(s) && Enabled(s, Enter(t, req))
    ensures Inv(Apply(s, Enter(t, req)))
  {
    hide Satisfied, Cleared;
    SizeAdd(s.blocked, t, Waiter(req, false));
    var s' := Apply(s, Enter(t, req));
    forall u | u in s'.blocked && !s'.blocked[u].signalled ensures !Satisfied(s'.flag.bits, s'.blocked[u].req) {
      if !Satisfied(s.flag.bits, s'.blocked[u].req) {
        ClearedKeepsUnsatisfied(s.flag.bits, req, s'.blocked[u].req);
      }
    }
  }

  lemma WakeInv(s: State, t: Thread, elapsed: nat)
    requires Inv(s) && Enabled(s, Wake(t, elapsed))
    ensures Inv(Apply(s, Wake(t, elapsed)))
  {
    hide Satisfied, Cleared;
    var req := s.blocked[t].req;
    SizeAdd(s.blocked, t, Waiter(req, false));
    SizeRemove(s.blocked, t);
    var s' := Apply(s, Wake(t, elapsed));
    forall u | u in s'.blocked && !s'.blocked[u].signalled ensures !Satisfied(s'.flag.bits, s'.blocked[u].req) {
      if !Satisfied(s.flag.bits, s'.blocked[u].req) {
        ClearedKeepsUnsatisfied(s.flag.bits, req, s'.blocked[u].req);
      }
    }
  }

  lemma StepInv(s: State, e: Event)
    requires Inv(s) && Enabled(s, e)
    ensures Inv(Apply(s, e))
  {
    match e {
      case Enter(t, req) =>
        EnterInv(s, t, req);
      case Wake(t, elapsed) =>
        WakeInv(s, t, elapsed);
      case _ =>
        OtherInv(s, e);
    }
  }

  lemma OtherInv(s: State, e: Event)
    requires Inv(s) && Enabled(s, e) && !e.Enter? && !e.Wake?
    ensures Inv(Apply(s, e))
  {
    hide Satisfied;
    SizeSignal(s.blocked);
    if e.ClearCall? {
      var s' := Apply(s, e);
      forall u | u in s'.blocked && !s'.blocked[u].signalled ensures !Satisfied(s'.flag.bits, s'.blocked[u].req) {
        ClearingKeepsUnsatisfied(s.flag.bits, e.bits, s.blocked[u].req);
      }
    }
  }

  // ---- runs ----

  /** `states[i + 1]` follows from `states[i]` by `events[i]`. */
  ghost predicate IsRun(states: seq<State>, events: seq<Event>) {
    && |states| == |events| + 1
    && forall i :: 0 <= i < |events| ==> Enabled(states[i], events[i]) && states[i + 1] == Apply(states[i], events[i])
  }

  lemma {:induction false} RunInv(states: seq<State>, events: seq<Event>, n: nat)
    requires IsRun(states, events) && Inv(states[0]) && n <= |events|
    ensures Inv(states[n])
  {
    hide Inv, Enabled, Apply;
    if n > 0 {
      RunInv(states, events, n - 1);
      StepInv(states[n - 1], events[n - 1]);
      assert states[n - 1 + 1] == Apply(states[n - 1], events[n - 1]);
    }
  }

  // ---- every thread blocked at a cancel or delete gets its answer ----

  /** The mark of a cancel or delete that found thread `t` waiting. */
  ghost predicate Marks(s: State, e: Event, t: Thread) {
    (e.CancelBegin? || e.DeleteBegin?) && t in s.blocked
  }

  function Mark(e: Event): Status
    requires e.CancelBegin? || e.DeleteBegin?
  {
    if e.CancelBegin? then Canceled else Deleted
  }

  /** While a marked thread stays blocked, the mark stays and nothing sets, clears or marks again. */
  lemma MarkStays(s: State, e: Event, t: Thread)
    requires Inv(s) && Enabled(s, e) && s.flag.status != Set && t in s.blocked && !(e.Wake? && e.t == t)
    ensures t in Apply(s, e).blocked && Apply(s, e).flag.status == s.flag.status
    ensures e.Enter? || e.Wake?
  {
    hide Satisfied, Cleared;
    SizePositive(s.blocked, t);
  }

  lemma {:induction false} MarkHolds(states: seq<State>, events: seq<Event>, i: nat, j: nat, t: Thread)
    requires IsRun(states, events) && Inv(states[0]) && i < j <= |events|
    requires Enabled(states[i], events[i]) && Marks(states[i], events[i], t)
    requires forall k :: i < k < j ==> !(events[k].Wake? && events[k].t == t)
    ensures t in states[j].blocked && states[j].flag.status == Mark(events[i])
  {
    hide Satisfied, Cleared;
    RunInv(states, events, j - 1);
    if j == i + 1 {
      SizePositive(states[i].blocked, t);
    } else {
      MarkHolds(states, events, i, j - 1, t);
      MarkStays(states[j - 1], events[j - 1], t);
    }
  }

  /** In every interleaving, a thread that was blocked when a cancel (delete) marked the flag returns
      Canceled (Deleted) the next time it runs, never Ok or TimedOut. */
  lemma BlockedThreadIsAnswered(states: seq<State>, events: seq<Event>, i: nat, j: nat, t: Thread)
    requires IsRun(states, events) && Inv(states[0]) && i < j < |events|
    requires Marks(states[i], events[i], t)
    requires events[j].Wake? && events[j].t == t
    requires forall k :: i < k < j ==> !(events[k].Wake? && events[k].t == t)
    ensures OutcomeOf(states[j], events[j]).Some? && OutcomeOf(states[j], events[j]).value.Returned?
    ensures OutcomeOf(states[j], events[j]).value.result == if events[i].CancelBegin? then WasCanceled else WasDeleted
  {
    hide Satisfied, Cleared;
    MarkHolds(states, events, i, j, t);
  }

  /** Cancel restores the flag, and delete destroys it, only when no thread is blocked. */
  lemma DrainedWhenEmpty(s: State, e: Event)
    requires Inv(s) && Enabled(s, e) && s.flag.status != Set
    requires Apply(s, e).flag.status == Set || Apply(s, e).gone
    ensures e == DrainEnd && s.blocked == map[]
  {
    hide Satisfied, Cleared;
  }

  /** Conversely a wait returns Canceled or Deleted only while the flag is so marked. */
  lemma AnsweredOnlyWhenMarked(s: State, e: Event)
    requires OutcomeOf(s, e).Some? && OutcomeOf(s, e).value.Returned?
    ensures OutcomeOf(s, e).value.result == WasCanceled ==> s.flag.status == Canceled && e.Wake?
    ensures OutcomeOf(s, e).value.result == WasDeleted ==> s.flag.status == Deleted && e.Wake?
  {
    hide Satisfied, Cleared;
  }

  /** In single-thread mode a second waiter is turned away. */
  lemma SingleWaiter(states: seq<State>, events: seq<Event>, n: nat, t: Thread, u: Thread)
    requires IsRun(states, events) && Inv(states[0]) && n <= |events|
    requires states[n].flag.single && t in states[n].blocked && u in states[n].blocked
    ensures t == u
  {
    RunInv(states, events, n);
    if t != u {
      SizeRemove(states[n].blocked, t);
      SizePositive(states[n].blocked - {t}, u);
    }
  }

  /** No missed wake-up: whoever could return now, if allowed to look, has been signalled. */
  lemma SatisfiedIsSignalled(states: seq<State>, events: seq<Event>, n: nat, t: Thread)
    requires IsRun(states, events) && Inv(states[0]) && n <= |events|
    requires t in states[n].blocked && Satisfied(states[n].flag.bits, states[n].blocked[t].req)
    ensures states[n].blocked[t].signalled
  {
    RunInv(states, events, n);
  }

  // ---- no bit is consumed twice ----

  /** A wait for all of its bits, `b` among them, returns Ok and clears `b`. */
  ghost predicate Takes(s: State, e: Event, b: bv64)
    requires Enabled(s, e)
  {
    && (e.Enter? || e.Wake?)
    && OutcomeOf(s, e).value.Returned? && OutcomeOf(s, e).value.result == Ok
    && var req := if e.Enter? then e.req else s.blocked[e.t].req;
       req.wait == And && req.clear != ClearNone && HasAny(req.bits, b)
  }

  ghost predicate Gives(e: Event, b: bv64) {
    (e.SetCall? || e.CancelBegin?) && HasAny(e.bits, b)
  }

  function Level(s: State, b: bv64): nat {
    if HasAny(s.flag.bits, b) then 1 else 0
  }

  lemma SetFacts(bits: bv64, x: bv64, b: bv64)
    ensures HasAny(bits | x, b) ==> HasAny(bits, b) || HasAny(x, b)
  {
    if HasAny(bits | x, b) {
      OrHas(bits, x, b);
    }
  }

  lemma TakeFacts(bits: bv64, x: bv64, b: bv64)
    requires OneBit(b) && HasAny(x, b)
    ensures !HasAny(bits & !x, b)
  {
    OneBitTest(bits, b);
    OneBitTest(x, b);
    if HasAny(bits & !x, b) {
      MinusHas(bits, x, b);
    }
  }

  lemma AllGivesAny(bits: bv64, x: bv64, b: bv64)
    requires HasAll(bits, x) && HasAny(x, b)
    ensures HasAny(bits, b)
  {
  }

  lemma OneBitTest(x: bv64, b: bv64)
    requires OneBit(b)
    ensures x & b == 0 || x & b == b
  {
  }

  lemma OrHas(bits: bv64, x: bv64, b: bv64)
    requires HasAny(bits | x, b)
    ensures HasAny(bits, b) || HasAny(x, b)
  {
  }

  lemma MinusHas(bits: bv64, x: bv64, b: bv64)
    requires (bits & b == 0 || bits & b == b) && (x & b == 0 || x & b == b)
    requires HasAny(bits & !x, b)
    ensures HasAny(bits, b) && !HasAny(x, b)
  {
  }

  /** No wait turns a bit on. */
  lemma LoopKeepsOff(f: Flag, req: Request, elapsed: nat, b: bv64)
    requires !HasAny(f.bits, b)
    ensures !HasAny(LoopStep(f, req, elapsed).0.bits, b)
  {
    hide HasAll, HasAny, Satisfied, Cleared;
    ClearedKeepsOff(f.bits, req, b);
  }

  lemma ClearedKeepsOff(bits: bv64, req: Request, b: bv64)
    requires !HasAny(bits, b)
    ensures !HasAny(Cleared(bits, req), b)
  {
    hide HasAll, HasAny;
    FewerBits(bits, !req.bits, b);
  }

  /** A wait that returns Ok and takes `b` finds it on and leaves it off. */
  lemma LoopTakes(f: Flag, req: Request, elapsed: nat, b: bv64)
    requires OneBit(b) && HasAny(req.bits, b) && req.wait == And && req.clear != ClearNone
    requires Satisfied(f.bits, req)
    ensures HasAny(f.bits, b) && !HasAny(LoopStep(f, req, elapsed).0.bits, b)
  {
    hide HasAll, HasAny, OneBit;
    AllGivesAny(f.bits, req.bits, b);
    TakeFacts(f.bits, req.bits, b);
    ZeroHasNone(b);
  }

  lemma ZeroHasNone(b: bv64)
    ensures !HasAny(0, b)
  {
  }

  lemma StepLevel(s: State, e: Event, b: bv64)
    requires Enabled(s, e) && OneBit(b)
    ensures Level(Apply(s, e), b) + (if Takes(s, e, b) then 1 else 0) <= Level(s, b) + (if Gives(e, b) then 1 else 0)
  {
    match e {
      case Enter(_, _) => WaitLevel(s, e, b);
      case Wake(_, _) => WaitLevel(s, e, b);
      case SetCall(bits) => SetFacts(s.flag.bits, bits, b);
      case ClearCall(bits) => FewerBits(s.flag.bits, bits, b);
      case _ =>
    }
    hide HasAll, HasAny, OneBit;
  }

  lemma WaitLevel(s: State, e: Event, b: bv64)
    requires Enabled(s, e) && OneBit(b) && (e.Enter? || e.Wake?)
    ensures Level(Apply(s, e), b) + (if Takes(s, e, b) then 1 else 0) <= Level(s, b)
  {
    hide HasAll, HasAny, OneBit;
    var req := if e.Enter? then e.req else s.blocked[e.t].req;
    var f := if e.Enter? then s.flag else s.flag.(waiting := s.flag.waiting - 1);
    var elapsed := if e.Enter? then 0 else e.elapsed;
    if Takes(s, e, b) {
      LoopTakes(f, req, elapsed, b);
    } else if !HasAny(s.flag.bits, b) {
      LoopKeepsOff(f, req, elapsed, b);
    }
  }

  ghost function Taken(states: seq<State>, events: seq<Event>, b: bv64, n: nat): nat
    requires IsRun(states, events) && n <= |events|
  {
    if n == 0 then 0
    else Taken(states, events, b, n - 1) + (if Takes(states[n - 1], events[n - 1], b) then 1 else 0)
  }

  ghost function Given(events: seq<Event>, b: bv64, n: nat): nat
    requires n <= |events|
  {
    if n == 0 then 0 else Given(events, b, n - 1) + (if Gives(events[n - 1], b) then 1 else 0)
  }

  /** In any run, the waits that take bit `b` are no more than its initial value and the calls that
      give it. */
  lemma {:induction false} TakenAtMostGiven(states: seq<State>, events: seq<Event>, b: bv64, n: nat)
    requires IsRun(states, events) && n <= |events| && OneBit(b)
    ensures Taken(states, events, b, n) + Level(states[n], b) <= Level(states[0], b) + Given(events, b, n)
  {
    hide Takes, Gives, OneBit, Level, Enabled, Apply;
    if n > 0 {
      TakenAtMostGiven(states, events, b, n - 1);
      StepLevel(states[n - 1], events[n - 1], b);
      assert states[n - 1 + 1] == Apply(states[n - 1], events[n - 1]);
    }
  }

  // ---- when a drain can end ----

  /** A thread that waits forever and that no signal has reached. */
  ghost predicate Stranded(s: State, t: Thread) {
    t in s.blocked && !s.blocked[t].signalled && s.blocked[t].req.micros.None?
  }

  /** The condition variable returns for a reason: a signal or the end of a timed wait. */
  ghost predicate Caused(s: State, e: Event) {
    e.Wake? ==> !Stranded(s, e.t)
  }

  ghost predicate CausedRun(states: seq<State>, events: seq<Event>) {
    IsRun(states, events) && forall i :: 0 <= i < |events| ==> Caused(states[i], events[i])
  }

  /** The cancel or delete in progress can still finish without a spurious wake-up. */
  ghost predicate DrainCanEnd(s: State) {
    exists states: seq<State>, events: seq<Event> ::
      && CausedRun(states, events) && states[0] == s
      && states[|events|].flag.status == s.flag.status && Enabled(states[|events|], DrainEnd)
  }

  lemma {:induction false} StrandedStays(states: seq<State>, events: seq<Event>, n: nat, t: Thread)
    requires CausedRun(states, events) && n <= |events|
    requires Inv(states[0]) && states[0].flag.status != Set && Stranded(states[0], t)
    ensures Stranded(states[n], t) && states[n].flag.status == states[0].flag.status
  {
    hide Satisfied, Cleared;
    if n > 0 {
      StrandedStays(states, events, n - 1, t);
      RunInv(states, events, n - 1);
      MarkStays(states[n - 1], events[n - 1], t);
      assert Caused(states[n - 1], events[n - 1]);
    }
  }

  lemma {:induction false} DrainByWaking(s: State) returns (states: seq<State>, events: seq<Event>)
    requires Inv(s) && !s.gone && s.flag.status != Set
    requires forall t :: !Stranded(s, t)
    ensures CausedRun(states, events) && states[0] == s
    ensures states[|events|].flag.status == s.flag.status && Enabled(states[|events|], DrainEnd)
    decreases |s.blocked|
  {
    if s.blocked == map[] {
      states, events := [s], [];
    } else {
      hide Satisfied, Cleared;
      var t :| t in s.blocked;
      var e := Wake(t, 0);
      StepInv(s, e);
      SizeRemove(s.blocked, t);
      var s' := Apply(s, e);
      assert forall u :: !Stranded(s', u) by {
        assert forall u :: Stranded(s', u) ==> Stranded(s, u);
      }
      var more, rest := DrainByWaking(s');
      states, events := [s] + more, [e] + rest;
      Prepend(s, e, more, rest);
    }
  }

  lemma Prepend(s: State, e: Event, states: seq<State>, events: seq<Event>)
    requires CausedRun(states, events) && Enabled(s, e) && Caused(s, e) && states[0] == Apply(s, e)
    ensures CausedRun([s] + states, [e] + events)
  {
    hide Enabled, Apply, Caused;
    var ss, es := [s] + states, [e] + events;
    forall i | 0 <= i < |es|
      ensures Enabled(ss[i], es[i]) && ss[i + 1] == Apply(ss[i], es[i]) && Caused(ss[i], es[i])
    {
      if i > 0 {
        assert ss[i] == states[i - 1] && es[i] == events[i - 1] && ss[i + 1] == states[i - 1 + 1];
      }
    }
  }

  /** A cancel or delete in progress can end exactly when no thread is stranded. */
  lemma DrainEndsIffNobodyStranded(s: State)
    requires Inv(s) && !s.gone && s.flag.status != Set
    ensures DrainCanEnd(s) <==> forall t :: !Stranded(s, t)
  {
    if forall t :: !Stranded(s, t) {
      var states, events := DrainByWaking(s);
    } else if DrainCanEnd(s) {
      hide Satisfied, Cleared;
      var t :| Stranded(s, t);
      var states: seq<State>, events: seq<Event> :|
        && CausedRun(states, events) && states[0] == s
        && states[|events|].flag.status == s.flag.status && Enabled(states[|events|], DrainEnd);
      StrandedStays(states, events, |events|, t);
      RunInv(states, events, |events|);
      SizePositive(states[|events|].blocked, t);
    }
  }

  /** Such a state is reachable: a thread that starts to wait while a cancel drains gets no signal. */
  lemma StrandingHappens() returns (states: seq<State>, events: seq<Event>)
    ensures CausedRun(states, events) && states[0] == Initial(false, 0)
    ensures states[|events|].flag.status == Canceled && Stranded(states[|events|], 3)
    ensures !DrainCanEnd(states[|events|])
  {
    var req := Request(1, And, ClearNone, None);
    var s0 := Initial(false, 0);
    FewerBits(0, 0, 1);
    assert !Satisfied(0, req);
    hide Satisfied;
    var s1 := Apply(s0, Enter(1, req));
    var s2 := Apply(s1, CancelBegin(2, 0));
    var s3 := Apply(s2, Enter(3, req));
    states, events := [s0, s1, s2, s3], [Enter(1, req), CancelBegin(2, 0), Enter(3, req)];
    InitialInv(false, 0);
    RunInv(states, events, 3);
    DrainEndsIffNobodyStranded(s3);
  }
}
