/** The slot vector's atomic loads and stores as interleaved steps: one owner thread inserts and
    erases, any number of readers call `is_allocated` at the same time. */
module SlotVectorProtocol {
  import SV = SlotVector

  const ChunkSlots: nat := SV.ChunkSlots
  const MaxChunks: nat := SV.MaxChunks

  /** Generations run from 1 to 2^32 - 1 and then start again. */
  const Generations: nat := 0xFFFF_FFFF

  /** The generation a slot shows after `erases` erases. */
  function Generation(erases: nat): (g: nat)
    ensures 1 <= g <= 0xFFFF_FFFF
  {
    1 + erases % Generations
  }

  /** `generation + 1` in 32 bits, with zero skipped, is the next generation. */
  lemma NextGeneration(erases: nat)
    ensures var g := (Generation(erases) + 1) % 0x1_0000_0000;
      Generation(erases + 1) == if g == 0 then 1 else g
  {
  }

  /** Two erase counts show the same generation when they are a multiple of 2^32 - 1 apart. */
  lemma SameGeneration(a: nat, b: nat)
    requires a <= b
    ensures Generation(a) == Generation(b) <==> (b - a) % Generations == 0
  {
  }

  datatype Slot = Slot(hasValue: bool, alive: bool, erases: nat)

  /** A handle as the owner gave it out: the slot and its erase count at that time. */
  datatype Handle = Handle(index: nat, epoch: nat)

  /** What the owner does next. */
  datatype Pc =
    | Idle
    | StoreChunk(index: nat)
    | Emplace(index: nat)
    | StoreAlive(index: nat)
    | StoreCapacity(index: nat)
    | StoreGeneration(index: nat)
    | ResetValue(index: nat)

  /** `chunks` chunk pointers are published; slots never touched are absent from the map. */
  datatype State = State(
    chunks: nat, capacity: nat, slots: map<nat, Slot>, free: seq<nat>, pc: Pc, issued: set<Handle>)

  function SlotOf(s: State, i: nat): Slot {
    if i in s.slots then s.slots[i] else Slot(false, false, 0)
  }

  const Empty: State := State(0, 0, map[], [], Idle, {})

  datatype Step = BeginInsert | BeginErase(h: Handle) | Continue

  /** The test of `erase`, made by the owner itself. */
  predicate Live(s: State, h: Handle) {
    SlotOf(s, h.index).alive && SlotOf(s, h.index).erases == h.epoch
  }

  predicate Enabled(s: State, e: Step) {
    match e
    case BeginInsert => s.pc == Idle && (s.free != [] || s.capacity < MaxChunks * ChunkSlots)
    case BeginErase(h) => s.pc == Idle && h in s.issued && Live(s, h)
    case Continue => s.pc != Idle
  }

  /** An insert is refused only when no slot is free and all 2^22 are in use. */
  lemma FullIff(s: State)
    requires s.pc == Idle
    ensures Enabled(s, BeginInsert) <==> s.free != [] || s.capacity < 0x40_0000
  {
  }

  function Apply(s: State, e: Step): State
    requires Enabled(s, e)
  {
    match e
    case BeginInsert =>
      if s.free == [] then
        s.(pc := if s.capacity / ChunkSlots >= s.chunks then StoreChunk(s.capacity) else Emplace(s.capacity))
      else
        s.(free := s.free[..|s.free| - 1], pc := Emplace(s.free[|s.free| - 1]))
    case BeginErase(h) =>
      s.(slots := s.slots[h.index := SlotOf(s, h.index).(alive := false)], pc := StoreGeneration(h.index))
    case Continue =>
      var i := s.pc.index;
      var slot := SlotOf(s, i);
      match s.pc
      case StoreChunk(_) =>
        s.(chunks := s.chunks + 1, pc := Emplace(i))
      case Emplace(_) =>
        s.(slots := s.slots[i := slot.(hasValue := true)], pc := StoreAlive(i))
      case StoreAlive(_) =>
        s.(slots := s.slots[i := slot.(alive := true)], pc := StoreCapacity(i))
      case StoreCapacity(_) =>
        s.(capacity := if i == s.capacity then i + 1 else s.capacity, pc := Idle,
           issued := s.issued + {Handle(i, slot.erases)})
      case StoreGeneration(_) =>
        s.(slots := s.slots[i := slot.(erases := slot.erases + 1)], pc := ResetValue(i))
      case ResetValue(_) =>
        s.(slots := s.slots[i := slot.(hasValue := false)], free := s.free + [i], pc := Idle)
  }

  // ---- what every step keeps ----

  ghost predicate Distinct(a: seq<nat>) {
    forall i, j :: 0 <= i < j < |a| ==> a[i] != a[j]
  }

  /** The slot an unfinished insert or erase is working on. */
  predicate InWork(s: State, i: nat) {
    s.pc != Idle && s.pc.index == i
  }

  /** Outside the owner's current work: below the capacity a slot is free or alive, above it is
      untouched; and only a slot with a value is alive. */
  ghost predicate SlotOk(s: State, i: nat) {
    var slot := SlotOf(s, i);
    && (slot.alive ==> slot.hasValue)
    && (i in s.free ==> i < s.capacity && !slot.alive && !InWork(s, i))
    && (!InWork(s, i) ==>
          && slot.hasValue == slot.alive
          && (i < s.capacity && !slot.alive ==> i in s.free)
          && (i >= s.capacity ==> slot == Slot(false, false, 0)))
  }

  ghost predicate WorkOk(s: State) {
    s.pc.Idle? ||
    var i := s.pc.index;
    var slot := SlotOf(s, i);
    && i <= s.capacity
    && (!s.pc.StoreChunk? ==> i < ChunkSlots * s.chunks)
    && match s.pc
       case StoreChunk(_) =>
         i == s.capacity == ChunkSlots * s.chunks && s.chunks < MaxChunks && slot == Slot(false, false, 0)
       case Emplace(_) => !slot.hasValue && (i == s.capacity ==> slot.erases == 0)
       case StoreAlive(_) => slot.hasValue && !slot.alive && (i == s.capacity ==> slot.erases == 0)
       case StoreCapacity(_) => slot.alive && (i == s.capacity ==> slot.erases == 0)
       case _ => i < s.capacity && slot.hasValue && !slot.alive
  }

  /** A handle given out names a slot below the capacity, and the newest one of a slot is live until
      the owner starts to erase it. */
  ghost predicate HandleOk(s: State, h: Handle) {
    && h.index < s.capacity
    && h.epoch <= SlotOf(s, h.index).erases
    && (h.epoch == SlotOf(s, h.index).erases ==>
          (SlotOf(s, h.index).alive && s.pc != StoreCapacity(h.index)) || s.pc == StoreGeneration(h.index))
  }

  ghost predicate Inv(s: State) {
    && s.capacity <= ChunkSlots * s.chunks <= ChunkSlots * MaxChunks
    && Distinct(s.free)
    && (forall i: nat :: SlotOk(s, i))
    && WorkOk(s)
    && (forall h :: h in s.issued ==> HandleOk(s, h))
  }

  lemma EmptyInv()
    ensures Inv(Empty)
  {
  }

  lemma PopBack(a: seq<nat>)
    requires a != [] && Distinct(a)
    ensures Distinct(a[..|a| - 1])
    ensures forall x :: x in a[..|a| - 1] <==> x in a && x != a[|a| - 1]
  {
    assert a == a[..|a| - 1] + [a[|a| - 1]];
  }

  lemma BeginInsertInv(s: State)
    requires Inv(s) && Enabled(s, BeginInsert)
    ensures Inv(Apply(s, BeginInsert))
  {
    var s' := Apply(s, BeginInsert);
    var i := s'.pc.index;
    assert SlotOk(s, i);
    if s.free != [] {
      PopBack(s.free);
    }
    forall k: nat ensures SlotOk(s', k) {
      assert SlotOk(s, k);
    }
    forall h | h in s'.issued ensures HandleOk(s', h) {
      assert HandleOk(s, h);
    }
  }

  lemma BeginEraseInv(s: State, h: Handle)
    requires Inv(s) && Enabled(s, BeginErase(h))
    ensures Inv(Apply(s, BeginErase(h)))
  {
    var s' := Apply(s, BeginErase(h));
    assert HandleOk(s, h) && SlotOk(s, h.index);
    forall k: nat ensures SlotOk(s', k) {
      assert SlotOk(s, k);
    }
    forall g | g in s'.issued ensures HandleOk(s', g) {
      assert HandleOk(s, g);
    }
  }

  lemma ContinueInv(s: State)
    requires Inv(s) && Enabled(s, Continue)
    ensures Inv(Apply(s, Continue))
  {
    var s' := Apply(s, Continue);
    assert SlotOk(s, s.pc.index);
    forall k: nat ensures SlotOk(s', k) {
      assert SlotOk(s, k);
    }
    forall h | h in s'.issued ensures HandleOk(s', h) {
      if h in s.issued {
        assert HandleOk(s, h);
      }
    }
  }

  lemma StepInv(s: State, e: Step)
    requires Inv(s) && Enabled(s, e)
    ensures Inv(Apply(s, e))
  {
    match e {
      case BeginInsert => BeginInsertInv(s);
      case BeginErase(h) => BeginEraseInv(s, h);
      case Continue => ContinueInv(s);
    }
  }

  // ---- runs of the owner, and what a reader sees ----

  /** `run[i + 1]` follows from `run[i]` by the owner's step `steps[i]`. */
  ghost predicate IsRun(run: seq<State>, steps: seq<Step>) {
    && |run| == |steps| + 1 && run[0] == Empty
    && forall i :: 0 <= i < |steps| ==> Enabled(run[i], steps[i]) && run[i + 1] == Apply(run[i], steps[i])
  }

  lemma {:induction false} RunInv(run: seq<State>, steps: seq<Step>, n: nat)
    requires IsRun(run, steps) && n <= |steps|
    ensures Inv(run[n])
  {
    hide Inv, Enabled, Apply;
    if n == 0 {
      EmptyInv();
    } else {
      RunInv(run, steps, n - 1);
      StepInv(run[n - 1], steps[n - 1]);
      assert run[n - 1 + 1] == Apply(run[n - 1], steps[n - 1]);
    }
  }

  /** Capacity, published chunks, erase counts and handles given out only grow; a handle that is
      not live stays so. */
  ghost predicate Grows(s: State, t: State) {
    && s.capacity <= t.capacity && s.chunks <= t.chunks && s.issued <= t.issued
    && (forall i: nat :: SlotOf(s, i).erases <= SlotOf(t, i).erases)
    && (forall h :: h in s.issued && !Live(s, h) ==> !Live(t, h))
  }

  lemma StepGrows(s: State, e: Step)
    requires Inv(s) && Enabled(s, e)
    ensures Grows(s, Apply(s, e))
  {
    forall h | h in s.issued && !Live(s, h) ensures !Live(Apply(s, e), h) {
      assert HandleOk(s, h);
    }
  }

  lemma {:induction false} RunGrows(run: seq<State>, steps: seq<Step>, i: nat, j: nat)
    requires IsRun(run, steps) && i <= j <= |steps|
    ensures Grows(run[i], run[j])
  {
    hide Inv, Enabled, Apply, SlotOf;
    if i < j {
      RunGrows(run, steps, i, j - 1);
      RunInv(run, steps, j - 1);
      StepGrows(run[j - 1], steps[j - 1]);
      assert run[j - 1 + 1] == Apply(run[j - 1], steps[j - 1]);
    }
  }

  /** `is_allocated` for slot `index` and generation `g`: it loads the capacity, then `alive`, then
      the generation, each from the state at that moment. */
  predicate IsAllocated(atCapacity: State, atAlive: State, atGeneration: State, index: nat, g: nat) {
    && index < atCapacity.capacity
    && SlotOf(atAlive, index).alive
    && Generation(SlotOf(atGeneration, index).erases) == g
  }

  /** The reader never follows a chunk pointer that is not published. */
  lemma ReaderFindsChunk(run: seq<State>, steps: seq<Step>, i: nat, j: nat, index: nat)
    requires IsRun(run, steps) && i <= j <= |steps|
    requires index < run[i].capacity
    ensures index / ChunkSlots < run[j].chunks
  {
    RunInv(run, steps, i);
    RunGrows(run, steps, i, j);
  }

  /** A reader that got its handle before the call, whatever the owner does between the loads: true
      means that the handle was live when `alive` was loaded, false that it is no longer live at the
      end of the call -- as long as the slot has seen fewer than 2^32 - 1 erases since. */
  lemma ReaderIsLinearizable(run: seq<State>, steps: seq<Step>, i: nat, j: nat, k: nat, h: Handle)
    requires IsRun(run, steps) && i <= j <= k <= |steps| && h in run[i].issued
    requires SlotOf(run[k], h.index).erases - h.epoch < Generations
    ensures var r := IsAllocated(run[i], run[j], run[k], h.index, Generation(h.epoch));
      && (r ==> Live(run[j], h))
      && (!r ==> !Live(run[k], h))
  {
    RunInv(run, steps, i);
    RunInv(run, steps, j);
    RunInv(run, steps, k);
    RunGrows(run, steps, i, j);
    RunGrows(run, steps, j, k);
    assert HandleOk(run[i], h) && HandleOk(run[j], h) && HandleOk(run[k], h);
    SameGeneration(h.epoch, SlotOf(run[k], h.index).erases);
  }

  /** Without the bound a false answer is still right; a true one is wrong exactly when the slot was alive
      under a later handle and the erases seen by the last load are a multiple of 2^32 - 1. */
  lemma ReaderIsWrongIff(run: seq<State>, steps: seq<Step>, i: nat, j: nat, k: nat, h: Handle)
    requires IsRun(run, steps) && i <= j <= k <= |steps| && h in run[i].issued
    ensures var r := IsAllocated(run[i], run[j], run[k], h.index, Generation(h.epoch));
      && (r && !Live(run[j], h) <==>
            && SlotOf(run[j], h.index).alive && SlotOf(run[j], h.index).erases > h.epoch
            && (SlotOf(run[k], h.index).erases - h.epoch) % Generations == 0)
      && (!r ==> !Live(run[k], h))
  {
    RunInv(run, steps, i);
    RunInv(run, steps, j);
    RunInv(run, steps, k);
    RunGrows(run, steps, i, j);
    RunGrows(run, steps, j, k);
    assert HandleOk(run[i], h) && HandleOk(run[j], h) && HandleOk(run[k], h);
    SameGeneration(h.epoch, SlotOf(run[k], h.index).erases);
  }

  // ---- a run in which it happens ----

  /** Slot 0 is the only one, alive, and has been erased `n` times; all its handles have been given out. */
  ghost predicate Reused(s: State, n: nat) {
    && s.pc == Idle && s.free == [] && s.capacity == 1 && SlotOf(s, 0) == Slot(true, true, n)
    && forall e: nat :: e <= n ==> Handle(0, e) in s.issued
  }

  /** The owner finishes what it has begun, as further steps of the run. */
  lemma {:induction false} FinishRun(run: seq<State>, steps: seq<Step>) returns (run': seq<State>, steps': seq<Step>)
    requires IsRun(run, steps)
    ensures IsRun(run', steps') && run'[|steps'|] == Finish(run[|steps|])
    decreases StepsLeft(run[|steps|].pc)
  {
    hide Enabled, Apply;
    if run[|steps|].pc == Idle {
      run', steps' := run, steps;
    } else {
      ContinueGoes(run[|steps|]);
      ExtendRun(run, steps, Continue);
      run', steps' := FinishRun(run + [Apply(run[|steps|], Continue)], steps + [Continue]);
    }
  }

  lemma ContinueGoes(s: State)
    requires s.pc != Idle
    ensures Enabled(s, Continue) && StepsLeft(Apply(s, Continue).pc) < StepsLeft(s.pc)
  {
  }

  lemma ExtendRun(run: seq<State>, steps: seq<Step>, e: Step)
    requires IsRun(run, steps) && Enabled(run[|steps|], e)
    ensures IsRun(run + [Apply(run[|steps|], e)], steps + [e])
  {
    hide Enabled, Apply;
  }

  /** A whole operation as further steps of the run. */
  lemma Operation(run: seq<State>, steps: seq<Step>, e: Step) returns (run': seq<State>, steps': seq<Step>)
    requires IsRun(run, steps) && Enabled(run[|steps|], e)
    ensures IsRun(run', steps') && run'[|steps'|] == Finish(Apply(run[|steps|], e))
  {
    hide Enabled, Apply, IsRun;
    ExtendRun(run, steps, e);
    Lengths(run, steps);
    run', steps' := FinishRun(run + [Apply(run[|steps|], e)], steps + [e]);
  }

  lemma Lengths(run: seq<State>, steps: seq<Step>)
    requires IsRun(run, steps)
    ensures |run| == |steps| + 1
  {
  }

  /** Inserting once, then erasing and inserting again `n` times. */
  lemma {:induction false} ReuseRun(n: nat) returns (run: seq<State>, steps: seq<Step>)
    ensures IsRun(run, steps) && Reused(run[|steps|], n)
  {
    hide Inv, Apply, Live, Finish;
    if n == 0 {
      EmptyInv();
      InsertComposes(Empty);
      FirstHandle();
      run, steps := Operation([Empty], [], BeginInsert);
    } else {
      run, steps := ReuseRun(n - 1);
      var s, h := run[|steps|], Handle(0, n - 1);
      RunInv(run, steps, |steps|);
      CanErase(s, n - 1);
      EraseComposes(s, h);
      run, steps := Operation(run, steps, BeginErase(h));
      var t := run[|steps|];
      CanInsert(t);
      InsertComposes(t);
      ReusedAgain(s, t, Finish(Apply(t, BeginInsert)), n);
      run, steps := Operation(run, steps, BeginInsert);
    }
  }

  lemma FirstHandle()
    ensures Enabled(Empty, BeginInsert) && Reused(Finish(Apply(Empty, BeginInsert)), 0)
  {
    var a := Apply(Empty, BeginInsert);
    var b := Apply(a, Continue);
    var c := Apply(b, Continue);
    var d := Apply(c, Continue);
    assert Finish(a) == Finish(b) == Finish(c) == Finish(d) == Apply(d, Continue);
  }

  lemma CanErase(s: State, n: nat)
    requires Reused(s, n)
    ensures Enabled(s, BeginErase(Handle(0, n)))
  {
  }

  lemma CanInsert(t: State)
    requires t.pc == Idle && t.free != []
    ensures Enabled(t, BeginInsert)
  {
  }

  lemma ReusedAgain(s: State, t: State, u: State, n: nat)
    requires n > 0 && Reused(s, n - 1) && Inv(u) && u.pc == Idle
    requires t.free == s.free + [0] && t.issued == s.issued && SlotOf(t, 0) == Slot(false, false, n)
    requires u.free == t.free[..|t.free| - 1] && u.capacity == t.capacity == s.capacity
    requires u.issued == t.issued + {Handle(0, n)} && SlotOf(u, 0).erases == n
    requires Live(u, Handle(0, n))
    ensures Reused(u, n)
  {
    assert SlotOk(u, 0);
  }

  /** A run of 2^32 - 1 erases at whose end the first handle, long dead, is accepted. */
  lemma StaleHandleAccepted() returns (run: seq<State>, steps: seq<Step>, h: Handle)
    ensures IsRun(run, steps) && h in run[|steps|].issued && !Live(run[|steps|], h)
    ensures IsAllocated(run[|steps|], run[|steps|], run[|steps|], h.index, Generation(h.epoch))
  {
    hide IsRun;
    run, steps := ReuseRun(Generations);
    Lengths(run, steps);
    h := Handle(0, 0);
    SameGeneration(0, Generations);
  }

  /** Between operations the free list holds each dead index below the capacity once, and no other. */
  lemma FreeListIsExact(run: seq<State>, steps: seq<Step>, n: nat, i: nat)
    requires IsRun(run, steps) && n <= |steps| && run[n].pc == Idle
    ensures i in run[n].free <==> i < run[n].capacity && !SlotOf(run[n], i).alive
    ensures Distinct(run[n].free)
  {
    RunInv(run, steps, n);
    assert SlotOk(run[n], i);
  }

  /** A handle given out by an insert is live at that moment and was not given out before. */
  lemma InsertIsFresh(run: seq<State>, steps: seq<Step>, n: nat)
    requires IsRun(run, steps) && n < |steps| && run[n].pc.StoreCapacity?
    ensures var i := run[n].pc.index;
      var h := Handle(i, SlotOf(run[n], i).erases);
      h !in run[n].issued && h in run[n + 1].issued && Live(run[n + 1], h)
  {
    RunInv(run, steps, n);
    assert run[n + 1] == Apply(run[n], steps[n]);
  }

  // ---- an operation run to its end ----

  function StepsLeft(pc: Pc): nat {
    match pc
    case Idle => 0
    case StoreChunk(_) => 4
    case Emplace(_) => 3
    case StoreAlive(_) => 2
    case StoreCapacity(_) => 1
    case StoreGeneration(_) => 2
    case ResetValue(_) => 1
  }

  /** The owner finishes what it has begun. */
  function Finish(s: State): State
    decreases StepsLeft(s.pc)
  {
    if s.pc == Idle then s else Finish(Apply(s, Continue))
  }

  /** The steps of an insert together: one handle becomes live, on the slot freed last or the next new
      one, and all others stay as they were. */
  lemma InsertComposes(s: State)
    requires Inv(s) && Enabled(s, BeginInsert)
    ensures var t := Finish(Apply(s, BeginInsert));
      var i := if s.free == [] then s.capacity else s.free[|s.free| - 1];
      && Inv(t) && t.pc == Idle
      && t.capacity == (if s.free == [] then s.capacity + 1 else s.capacity)
      && t.free == (if s.free == [] then [] else s.free[..|s.free| - 1])
      && !SlotOf(s, i).alive && t.issued == s.issued + {Handle(i, SlotOf(s, i).erases)}
      && (forall h :: Live(t, h) <==> Live(s, h) || h == Handle(i, SlotOf(s, i).erases))
      && (forall k: nat :: SlotOf(t, k).erases == SlotOf(s, k).erases)
  {
    var a := Apply(s, BeginInsert);
    StepInv(s, BeginInsert);
    var b := if a.pc.StoreChunk? then Apply(a, Continue) else a;
    if a.pc.StoreChunk? {
      StepInv(a, Continue);
    }
    FinishInsert(b);
    assert SlotOk(s, a.pc.index);
  }

  lemma FinishInsert(b: State)
    requires Inv(b) && b.pc.Emplace?
    ensures var t, i := Finish(b), b.pc.index;
      && Inv(t) && t.pc == Idle && t.free == b.free
      && t.capacity == (if i == b.capacity then i + 1 else b.capacity)
      && t.issued == b.issued + {Handle(i, SlotOf(b, i).erases)}
      && SlotOf(t, i) == Slot(true, true, SlotOf(b, i).erases)
      && forall k: nat :: k != i ==> SlotOf(t, k) == SlotOf(b, k)
  {
    hide Inv;
    StepInv(b, Continue);
    var c := Apply(b, Continue);
    StepInv(c, Continue);
    var d := Apply(c, Continue);
    StepInv(d, Continue);
    assert Finish(d) == Apply(d, Continue);
  }

  /** The steps of an erase together: exactly this handle dies, its slot moves to the next generation and
      joins the free list. */
  lemma EraseComposes(s: State, h: Handle)
    requires Inv(s) && Enabled(s, BeginErase(h))
    ensures var t := Finish(Apply(s, BeginErase(h)));
      && Inv(t) && t.pc == Idle && t.capacity == s.capacity
      && t.free == s.free + [h.index] && t.issued == s.issued
      && (forall g :: Live(t, g) <==> Live(s, g) && g != h)
      && SlotOf(t, h.index) == Slot(false, false, h.epoch + 1)
      && (forall k: nat :: k != h.index ==> SlotOf(t, k) == SlotOf(s, k))
  {
    hide Inv;
    StepInv(s, BeginErase(h));
    var a := Apply(s, BeginErase(h));
    StepInv(a, Continue);
    var b := Apply(a, Continue);
    StepInv(b, Continue);
    assert Finish(b) == Apply(b, Continue);
  }

  // ---- the owner's view ----

  /** The owner's slots and free list, as the state between two operations. */
  ghost predicate Mirrors<T>(slots: seq<SV.Slot<T>>, free: seq<nat>, s: State) {
    && s.pc == Idle && |slots| == s.capacity && free == s.free && SV.FreeListValid(slots, free)
    && forall i :: 0 <= i < |slots| ==> SameSlot(slots[i], SlotOf(s, i))
  }

  ghost predicate SameSlot<T>(slot: SV.Slot<T>, t: Slot) {
    slot.alive == t.alive == t.hasValue == slot.value.Some? && slot.generation == Generation(t.erases)
  }

  /** Undisturbed, the reader's test is that a handle is among the contents. */
  lemma ContentsMirror<T>(slots: seq<SV.Slot<T>>, free: seq<nat>, s: State, index: nat, g: nat)
    requires Mirrors(slots, free, s)
    ensures SV.SlotsValid(slots)
    ensures SV.SlotId(index, g) in SV.Contents(slots) <==> IsAllocated(s, s, s, index, g)
  {
  }

  /** What `SlotVector.Insert` does is what the steps of an insert do together. */
  lemma InsertMirrors<T>(slots: seq<SV.Slot<T>>, free: seq<nat>, s: State, v: T)
    requires Inv(s) && Mirrors(slots, free, s) && Enabled(s, BeginInsert)
    ensures Mirrors(SV.InsertedSlots(slots, free, v), SV.InsertedFree(free), Finish(Apply(s, BeginInsert)))
  {
    hide Inv, Enabled, Apply, Generation, Finish;
    var t := Finish(Apply(s, BeginInsert));
    var i := if s.free == [] then s.capacity else s.free[|s.free| - 1];
    InsertComposes(s);
    InsertedSlot(s);
    var after := SV.InsertedSlots(slots, free, v);
    if free == [] {
      SV.AppendFree(slots, free, SV.Slot(SV.Some(v), 1, true));
      FirstGeneration();
    } else {
      SV.PopFree(slots, free, SV.Slot(SV.Some(v), slots[i].generation, true));
    }
  }

  lemma FirstGeneration()
    ensures Generation(0) == 1
  {
  }

  lemma InsertedSlot(s: State)
    requires Inv(s) && Enabled(s, BeginInsert)
    ensures var t := Finish(Apply(s, BeginInsert));
      var i := if s.free == [] then s.capacity else s.free[|s.free| - 1];
      && (s.free == [] ==> SlotOf(s, i).erases == 0)
      && SlotOf(t, i) == Slot(true, true, SlotOf(s, i).erases)
      && forall k: nat :: k != i ==> SlotOf(t, k) == SlotOf(s, k)
  {
    var a := Apply(s, BeginInsert);
    StepInv(s, BeginInsert);
    var b := if a.pc.StoreChunk? then Apply(a, Continue) else a;
    if a.pc.StoreChunk? {
      StepInv(a, Continue);
    }
    FinishInsert(b);
    assert SlotOk(s, a.pc.index);
  }

  /** And likewise for `SlotVector.Erase`, which takes the handle by its generation. */
  lemma EraseMirrors<T>(slots: seq<SV.Slot<T>>, free: seq<nat>, s: State, h: Handle)
    requires Inv(s) && Mirrors(slots, free, s) && Enabled(s, BeginErase(h))
    ensures h.index < |slots| && SV.SlotId(h.index, Generation(h.epoch)) in SV.Contents(slots)
    ensures Mirrors(SV.ErasedSlots(slots, SV.SlotId(h.index, Generation(h.epoch))), free + [h.index],
                    Finish(Apply(s, BeginErase(h))))
  {
    hide Inv, Apply, Finish, Generation;
    CanBeErased(s, h);
    EraseComposes(s, h);
    ContentsMirror(slots, free, s, h.index, Generation(h.epoch));
    NextGeneration(h.epoch);
    SV.PushFree(slots, free, h.index, SV.Slot(SV.None, SV.NextGeneration(Generation(h.epoch)), false));
  }

  lemma CanBeErased(s: State, h: Handle)
    requires Inv(s) && Enabled(s, BeginErase(h))
    ensures h.index < s.capacity && SlotOf(s, h.index).alive && SlotOf(s, h.index).erases == h.epoch
  {
    assert HandleOk(s, h);
  }
}
