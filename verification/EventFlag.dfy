/** The kernel event flag: one mutex, one condition variable, and calls that wait, set, clear,
    cancel and delete.  The class has one method for each stretch of code that runs while the
    mutex is held; the functions say what such a stretch does. */
module EventFlag {

  datatype Option<T> = None | Some(value: T)

  datatype Status = Set | Canceled | Deleted

  datatype WaitMode = And | Or

  datatype ClearMode = ClearNone | ClearAll | ClearBits

  datatype WaitResult = Ok | AlreadyWaiting | TimedOut | WasCanceled | WasDeleted

  /** The arguments of a wait; no `micros` means to wait forever. */
  datatype Request = Request(bits: bv64, wait: WaitMode, clear: ClearMode, micros: Option<nat>)

  /** What a stretch of a wait ends with: a return, with the reported pattern and the time left, or
      a wait on the condition variable. */
  datatype Outcome =
    | Returned(result: WaitResult, pattern: Option<bv64>, left: Option<nat>)
    | Blocks

  /** The fields the mutex protects. */
  datatype Flag = Flag(single: bool, status: Status, waiting: int, bits: bv64)

  predicate HasAll(bits: bv64, wanted: bv64) {
    bits & wanted == wanted
  }

  predicate HasAny(bits: bv64, wanted: bv64) {
    bits & wanted != 0
  }

  predicate Satisfied(bits: bv64, req: Request) {
    (req.wait == And && HasAll(bits, req.bits)) || (req.wait == Or && HasAny(bits, req.bits))
  }

  function Cleared(bits: bv64, req: Request): bv64 {
    match req.clear
    case ClearAll => 0
    case ClearBits => Difference(bits, req.bits)
    case ClearNone => bits
  }

  function Difference(bits: bv64, cut: bv64): bv64 {
    bits & !cut
  }

  function TimeLeft(req: Request, elapsed: nat): Option<nat> {
    if req.micros.None? then None
    else Some(if elapsed >= req.micros.value then 0 else req.micros.value - elapsed)
  }

  /** From the loop condition of a wait to its return or to the condition variable. */
  function LoopStep(f: Flag, req: Request, elapsed: nat): (Flag, Outcome) {
    if Satisfied(f.bits, req) then
      (f.(bits := Cleared(f.bits, req)), Returned(Ok, Some(f.bits), TimeLeft(req, elapsed)))
    else if req.micros.Some? && elapsed >= req.micros.value then
      (f, Returned(TimedOut, Some(f.bits), Some(0)))
    else
      (f.(waiting := f.waiting + 1), Blocks)
  }

  function EnterStep(f: Flag, req: Request): (Flag, Outcome) {
    if f.single && f.waiting > 0 then (f, Returned(AlreadyWaiting, None, req.micros))
    else LoopStep(f, req, 0)
  }

  function WakeStep(f: Flag, req: Request, elapsed: nat): (Flag, Outcome) {
    var g := f.(waiting := f.waiting - 1);
    match f.status
    case Canceled => (g, Returned(WasCanceled, Some(f.bits), TimeLeft(req, elapsed)))
    case Deleted => (g, Returned(WasDeleted, Some(f.bits), TimeLeft(req, elapsed)))
    case Set => LoopStep(g, req, elapsed)
  }

  function Union(bits: bv64, more: bv64): bv64 {
    bits | more
  }

  function Intersection(bits: bv64, kept: bv64): bv64 {
    bits & kept
  }

  function SetStep(f: Flag, bits: bv64): Flag {
    f.(bits := Union(f.bits, bits))
  }

  /** `Clear` keeps the given bits. */
  function ClearStep(f: Flag, bits: bv64): Flag {
    f.(bits := Intersection(f.bits, bits))
  }

  function RestoreStep(f: Flag): Flag {
    f.(status := Set)
  }

  function DeleteStep(f: Flag): Flag {
    f.(status := Deleted)
  }

  /** Marking the flag and, when nobody waits, restoring it at once. */
  function CancelStep(f: Flag, bits: bv64): Flag {
    f.(bits := bits, status := if f.waiting > 0 then Canceled else Set)
  }

  // ---- what the stretches do, bit by bit ----

  ghost predicate OneBit(b: bv64) {
    b != 0 && b & (b - 1) == 0
  }

  /** The bit `b` is on in a pattern. */
  ghost predicate On(bits: bv64, b: bv64) {
    bits & b != 0
  }

  /** An And wait wants every bit asked for, an Or wait one of them. */
  ghost predicate Met(bits: bv64, req: Request) {
    if req.wait == And then forall b :: OneBit(b) && On(req.bits, b) ==> On(bits, b)
    else exists b :: OneBit(b) && On(req.bits, b) && On(bits, b)
  }

  /** The bits that a wait which returns Ok turns off. */
  ghost predicate TurnsOff(req: Request, b: bv64) {
    req.clear == ClearAll || (req.clear == ClearBits && On(req.bits, b))
  }

  ghost predicate PartOf(b: bv64, d: bv64) {
    b & d == b
  }

  /** The lowest bit of a pattern. */
  lemma LowestBit(d: bv64) returns (b: bv64)
    requires d != 0
    ensures OneBit(b) && PartOf(b, d)
  {
    b := d & (!d + 1);
  }

  lemma NotAllLeavesSome(bits: bv64, wanted: bv64)
    requires !HasAll(bits, wanted)
    ensures Difference(wanted, bits) != 0
  {
  }

  lemma MissingBit(bits: bv64, wanted: bv64) returns (b: bv64)
    requires !HasAll(bits, wanted)
    ensures OneBit(b) && On(wanted, b) && !On(bits, b)
  {
    hide HasAll, On, OneBit, PartOf, Difference;
    NotAllLeavesSome(bits, wanted);
    b := LowestBit(Difference(wanted, bits));
    BitOfDifference(bits, wanted, b);
  }

  lemma BitOfDifference(bits: bv64, wanted: bv64, b: bv64)
    requires OneBit(b) && PartOf(b, Difference(wanted, bits))
    ensures On(wanted, b) && !On(bits, b)
  {
  }

  lemma AnyLeavesSome(bits: bv64, wanted: bv64)
    requires HasAny(bits, wanted)
    ensures Intersection(bits, wanted) != 0
  {
  }

  lemma SharedBit(bits: bv64, wanted: bv64) returns (b: bv64)
    requires HasAny(bits, wanted)
    ensures OneBit(b) && On(wanted, b) && On(bits, b)
  {
    hide HasAny, On, OneBit, PartOf, Intersection;
    AnyLeavesSome(bits, wanted);
    b := LowestBit(Intersection(bits, wanted));
    BitOfBoth(bits, wanted, b);
  }

  lemma BitOfBoth(bits: bv64, wanted: bv64, b: bv64)
    requires OneBit(b) && PartOf(b, Intersection(bits, wanted))
    ensures On(wanted, b) && On(bits, b)
  {
  }

  lemma AllOfThem(bits: bv64, wanted: bv64, b: bv64)
    requires HasAll(bits, wanted) && On(wanted, b)
    ensures On(bits, b)
  {
  }

  /** The test of the wait loop says what the mode asks for. */
  lemma SatisfiedIffMet(bits: bv64, req: Request)
    ensures Satisfied(bits, req) <==> Met(bits, req)
  {
    hide HasAll, HasAny, OneBit, On;
    if req.wait == And {
      if HasAll(bits, req.bits) {
        forall b | OneBit(b) && On(req.bits, b) ensures On(bits, b) {
          AllOfThem(bits, req.bits, b);
        }
      } else {
        var b := MissingBit(bits, req.bits);
      }
    } else {
      if HasAny(bits, req.bits) {
        var b := SharedBit(bits, req.bits);
      }
      forall b | OneBit(b) && On(req.bits, b) && On(bits, b) ensures HasAny(bits, req.bits) {
        CommonBit(bits, req.bits, b);
      }
    }
  }

  lemma CommonBit(bits: bv64, wanted: bv64, b: bv64)
    requires OneBit(b) && On(wanted, b) && On(bits, b)
    ensures HasAny(bits, wanted)
  {
    SingleBit(wanted, b);
    SingleBit(bits, b);
  }

  lemma SingleBit(x: bv64, b: bv64)
    requires OneBit(b) && On(x, b)
    ensures x & b == b
  {
  }

  lemma UnionHas(bits: bv64, more: bv64, b: bv64)
    requires On(Union(bits, more), b)
    ensures On(bits, b) || On(more, b)
  {
  }

  lemma UnionKeeps(bits: bv64, more: bv64, b: bv64)
    requires On(bits, b)
    ensures On(Union(bits, more), b)
  {
  }

  lemma UnionAdds(bits: bv64, more: bv64, b: bv64)
    requires On(more, b)
    ensures On(Union(bits, more), b)
  {
  }

  lemma UnionBit(bits: bv64, more: bv64, b: bv64)
    ensures On(Union(bits, more), b) <==> On(bits, b) || On(more, b)
  {
    hide Union, On;
    if On(bits, b) {
      UnionKeeps(bits, more, b);
    } else if On(more, b) {
      UnionAdds(bits, more, b);
    } else if On(Union(bits, more), b) {
      UnionHas(bits, more, b);
    }
  }

  lemma IntersectionBit(bits: bv64, kept: bv64, b: bv64)
    requires OneBit(b)
    ensures On(Intersection(bits, kept), b) <==> On(bits, b) && On(kept, b)
  {
    if On(bits, b) && On(kept, b) {
      SingleBit(bits, b);
      SingleBit(kept, b);
    }
  }

  lemma DifferenceHas(bits: bv64, cut: bv64, b: bv64)
    requires On(Difference(bits, cut), b)
    ensures On(bits, b)
  {
  }

  lemma DifferenceCuts(bits: bv64, cut: bv64, b: bv64)
    requires cut & b == b
    ensures !On(Difference(bits, cut), b)
  {
  }

  lemma DifferenceKeeps(bits: bv64, cut: bv64, b: bv64)
    requires On(bits, b) && !On(cut, b)
    ensures On(Difference(bits, cut), b)
  {
  }

  lemma DifferenceBit(bits: bv64, cut: bv64, b: bv64)
    requires OneBit(b)
    ensures On(Difference(bits, cut), b) <==> On(bits, b) && !On(cut, b)
  {
    hide Difference, OneBit;
    if On(cut, b) {
      SingleBit(cut, b);
      DifferenceCuts(bits, cut, b);
    }
    hide On;
    if On(bits, b) && !On(cut, b) {
      DifferenceKeeps(bits, cut, b);
    } else if On(Difference(bits, cut), b) {
      DifferenceHas(bits, cut, b);
    }
  }

  lemma ZeroBit(b: bv64)
    ensures !On(0, b)
  {
  }

  lemma ClearedBit(bits: bv64, req: Request, b: bv64)
    requires OneBit(b)
    ensures On(Cleared(bits, req), b) <==> On(bits, b) && !TurnsOff(req, b)
  {
    hide On, OneBit, Difference;
    DifferenceBit(bits, req.bits, b);
    ZeroBit(b);
  }

  /** Pattern `after` is what a wait that returned Ok leaves of `before`. */
  ghost predicate LeftBehind(before: bv64, req: Request, after: bv64) {
    forall b :: OneBit(b) ==> (On(after, b) <==> On(before, b) && !TurnsOff(req, b))
  }

  ghost predicate IsUnion(before: bv64, more: bv64, after: bv64) {
    forall b :: OneBit(b) ==> (On(after, b) <==> On(before, b) || On(more, b))
  }

  ghost predicate IsIntersection(before: bv64, kept: bv64, after: bv64) {
    forall b :: OneBit(b) ==> (On(after, b) <==> On(before, b) && On(kept, b))
  }

  /** The time that is left of a limited wait after `elapsed` microseconds. */
  ghost predicate IsTimeLeft(req: Request, elapsed: nat, left: Option<nat>) {
    match req.micros
    case None => left == None
    case Some(micros) => left.Some? && (if elapsed < micros then left.value + elapsed == micros else left.value == 0)
  }

  /** What a stretch of the wait loop does to the pattern, and what it reports: the pattern before it clears any
      bit.  It blocks only while the wait is not met and there is time left. */
  ghost predicate LoopMeans(before: bv64, req: Request, elapsed: nat, o: Outcome, after: bv64) {
    && (Met(before, req) <==> o.Returned? && o.result == Ok)
    && (if Met(before, req) then LeftBehind(before, req, after) else after == before)
    && (o.Blocks? <==> !Met(before, req) && (req.micros == None || elapsed < req.micros.value))
    && (o.Returned? ==> o.result in {Ok, TimedOut} && o.pattern == Some(before) && IsTimeLeft(req, elapsed, o.left))
  }

  lemma LoopStepMeans(f: Flag, req: Request, elapsed: nat)
    ensures var (g, o) := LoopStep(f, req, elapsed);
      LoopMeans(f.bits, req, elapsed, o, g.bits) && g.waiting == f.waiting + if o.Blocks? then 1 else 0
  {
    hide Satisfied, Met, On, OneBit, Cleared, TurnsOff;
    SatisfiedIffMet(f.bits, req);
    forall b | OneBit(b) ensures On(Cleared(f.bits, req), b) <==> On(f.bits, b) && !TurnsOff(req, b) {
      ClearedBit(f.bits, req, b);
    }
  }

  lemma UnionMeans(bits: bv64, more: bv64)
    ensures IsUnion(bits, more, Union(bits, more))
  {
    hide On, OneBit, Union;
    forall b | OneBit(b) ensures On(Union(bits, more), b) <==> On(bits, b) || On(more, b) {
      UnionBit(bits, more, b);
    }
  }

  lemma IntersectionMeans(bits: bv64, kept: bv64)
    ensures IsIntersection(bits, kept, Intersection(bits, kept))
  {
    hide On, OneBit, Intersection;
    forall b | OneBit(b) ensures On(Intersection(bits, kept), b) <==> On(bits, b) && On(kept, b) {
      IntersectionBit(bits, kept, b);
    }
  }

  class KernelEventFlagPrivate {
    const m_single_thread: bool
    var m_status: Status
    var m_waiting_threads: int
    var m_bits: bv64

    constructor (single: bool, bits: bv64)
      ensures Abs() == Flag(single, Set, 0, bits)
    {
      m_single_thread, m_status, m_waiting_threads, m_bits := single, Set, 0, bits;
    }

    ghost function Abs(): Flag
      reads this
    {
      Flag(m_single_thread, m_status, m_waiting_threads, m_bits)
    }

    /** The loop of `Wait`, up to a return or the unlocking inside the condition variable. */
    method TestLoop(req: Request, elapsed: nat) returns (o: Outcome)
      modifies this
      ensures (Abs(), o) == LoopStep(old(Abs()), req, elapsed)
    {
      if !Satisfied(m_bits, req) {
        if req.micros.Some? && elapsed >= req.micros.value {
          return Returned(TimedOut, Some(m_bits), TimeLeft(req, elapsed));
        }
        m_waiting_threads := m_waiting_threads + 1;
        return Blocks;
      }
      o := Returned(Ok, Some(m_bits), TimeLeft(req, elapsed));
      match req.clear {
        case ClearAll => m_bits := 0;
        case ClearBits => m_bits := m_bits & !req.bits;
        case ClearNone =>
      }
    }

    method Wait(req: Request) returns (o: Outcome)
      modifies this
      ensures (Abs(), o) == EnterStep(old(Abs()), req)
      ensures m_status == old(m_status)
      ensures m_single_thread && old(m_waiting_threads) > 0 ==>
        o == Returned(AlreadyWaiting, None, req.micros) && Abs() == old(Abs())
      ensures !(m_single_thread && old(m_waiting_threads) > 0) ==>
        && LoopMeans(old(m_bits), req, 0, o, m_bits)
        && m_waiting_threads == old(m_waiting_threads) + (if o.Blocks? then 1 else 0)
    {
      hide Satisfied, Cleared, LoopMeans, TimeLeft;
      LoopStepMeans(Abs(), req, 0);
      if m_single_thread && m_waiting_threads > 0 {
        return Returned(AlreadyWaiting, None, req.micros);
      }
      o := TestLoop(req, 0);
    }

    /** `Poll` is a wait of zero time. */
    method Poll(bits: bv64, wait: WaitMode, clear: ClearMode) returns (o: Outcome)
      modifies this
      ensures (Abs(), o) == EnterStep(old(Abs()), Request(bits, wait, clear, Some(0)))
      ensures o.Returned?
      ensures !(m_single_thread && old(m_waiting_threads) > 0) ==>
        LoopMeans(old(m_bits), Request(bits, wait, clear, Some(0)), 0, o, m_bits)
    {
      hide Satisfied, Cleared, Met, LeftBehind;
      o := Wait(Request(bits, wait, clear, Some(0)));
    }

    /** After the condition variable returned with the mutex held again. */
    method Woken(req: Request, elapsed: nat) returns (o: Outcome)
      modifies this
      ensures (Abs(), o) == WakeStep(old(Abs()), req, elapsed)
      ensures m_status == old(m_status)
      ensures old(m_status) == Set ==>
        && LoopMeans(old(m_bits), req, elapsed, o, m_bits)
        && m_waiting_threads == old(m_waiting_threads) - (if o.Blocks? then 0 else 1)
      ensures old(m_status) != Set ==>
        && m_bits == old(m_bits) && m_waiting_threads == old(m_waiting_threads) - 1
        && o.Returned? && o.result == (if old(m_status) == Canceled then WasCanceled else WasDeleted)
        && o.pattern == Some(old(m_bits)) && IsTimeLeft(req, elapsed, o.left)
    {
      hide Satisfied, Cleared, LoopMeans;
      LoopStepMeans(Abs().(waiting := m_waiting_threads - 1), req, elapsed);
      m_waiting_threads := m_waiting_threads - 1;
      match m_status {
        case Canceled =>
          return Returned(WasCanceled, Some(m_bits), TimeLeft(req, elapsed));
        case Deleted =>
          return Returned(WasDeleted, Some(m_bits), TimeLeft(req, elapsed));
        case Set =>
          o := TestLoop(req, elapsed);
      }
    }

    /** One attempt of `Set`; without success the caller unlocks, sleeps and tries again.  True means
        that the bits are set and every waiting thread is signalled. */
    method SetBits(bits: bv64) returns (done: bool)
      modifies this
      ensures done == (old(m_status) == Set)
      ensures Abs() == if done then SetStep(old(Abs()), bits) else old(Abs())
      ensures if done then IsUnion(old(m_bits), bits, m_bits) else m_bits == old(m_bits)
    {
      hide Union, IsUnion;
      UnionMeans(m_bits, bits);
      if m_status != Set {
        return false;
      }
      m_bits := Union(m_bits, bits);
      done := true;
    }

    method Clear(bits: bv64) returns (done: bool)
      modifies this
      ensures done == (old(m_status) == Set)
      ensures Abs() == if done then ClearStep(old(Abs()), bits) else old(Abs())
      ensures if done then IsIntersection(old(m_bits), bits, m_bits) else m_bits == old(m_bits)
    {
      hide Intersection, IsIntersection;
      IntersectionMeans(m_bits, bits);
      if m_status != Set {
        return false;
      }
      m_bits := Intersection(m_bits, bits);
      done := true;
    }

    /** One attempt of `Cancel` up to its first unlocking: mark the flag, report and signal the
        waiting threads, and finish at once if there are none. */
    method Cancel(bits: bv64) returns (begun: bool, num: int)
      modifies this
      ensures begun == (old(m_status) == Set)
      ensures begun ==> Abs() == CancelStep(old(Abs()), bits) && num == old(m_waiting_threads)
      ensures begun ==>
        && m_bits == bits && m_waiting_threads == old(m_waiting_threads)
        && m_status == if old(m_waiting_threads) > 0 then Canceled else Set
      ensures !begun ==> Abs() == old(Abs())
    {
      if m_status != Set {
        return false, 0;
      }
      num := m_waiting_threads;
      m_status := Canceled;
      m_bits := bits;
      begun := true;
      var finished := CancelDrain();
    }

    /** One test of `Cancel`'s final loop: restore the flag once nobody waits. */
    method CancelDrain() returns (finished: bool)
      modifies this
      ensures finished == (old(m_waiting_threads) <= 0)
      ensures Abs() == if finished then RestoreStep(old(Abs())) else old(Abs())
    {
      if m_waiting_threads > 0 {
        return false;
      }
      m_status := Set;
      finished := true;
    }

    /** The destructor: mark the flag and signal; it is gone once nobody waits. */
    method Delete() returns (begun: bool, gone: bool)
      modifies this
      ensures begun == (old(m_status) == Set)
      ensures Abs() == if begun then DeleteStep(old(Abs())) else old(Abs())
      ensures gone == (begun && old(m_waiting_threads) <= 0)
    {
      if m_status != Set {
        return false, false;
      }
      m_status := Deleted;
      begun := true;
      gone := DeleteDrain();
    }

    /** One test of the destructor's final loop. */
    method DeleteDrain() returns (gone: bool)
      ensures gone == (m_waiting_threads <= 0)
    {
      gone := !(m_waiting_threads > 0);
    }
  }
}
