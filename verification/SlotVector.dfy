/** Slots with stable addresses and generation-tagged handles, as the owner thread uses them. */
module SlotVector {

  const ChunkSlots: nat := 1024
  const MaxChunks: nat := 4096
  const INVALID_INDEX: nat := 0xFFFF_FFFF

  datatype Option<T> = None | Some(value: T)

  datatype SlotId = SlotId(index: nat, generation: nat)

  datatype Slot<T> = Slot(value: Option<T>, generation: nat, alive: bool)

  ghost predicate SlotsValid<T>(slots: seq<Slot<T>>) {
    forall i :: 0 <= i < |slots| ==>
      && (slots[i].alive <==> slots[i].value.Some?)
      && 1 <= slots[i].generation <= 0xFFFF_FFFF
  }

  /** The slot of a handle is alive and shows the handle's generation. */
  ghost predicate Reachable<T>(slots: seq<Slot<T>>, id: SlotId) {
    id.index < |slots| && slots[id.index].alive && slots[id.index].generation == id.generation
  }

  /** The objects reachable by their handles. */
  ghost function Contents<T>(slots: seq<Slot<T>>): (m: map<SlotId, T>)
    requires SlotsValid(slots)
    ensures forall id :: id in m <==> Reachable(slots, id)
    ensures forall id :: id in m ==>
      Reachable(slots, id) && slots[id.index].value == Some(m[id])
  {
    var ids := set i | 0 <= i < |slots| && slots[i].alive :: SlotId(i, slots[i].generation);
    assert forall id :: Reachable(slots, id) ==> id == SlotId(id.index, slots[id.index].generation);
    map id | id in ids :: slots[id.index].value.value
  }

  /** A slot, or a new one beyond the end. */
  ghost function SlotAt<T>(slots: seq<Slot<T>>, i: nat): Slot<T> {
    if i < |slots| then slots[i] else Slot(None, 1, false)
  }

  ghost predicate FreeListValid<T>(slots: seq<Slot<T>>, free: seq<nat>) {
    && (forall i, j :: 0 <= i < j < |free| ==> free[i] != free[j])
    && (forall i :: i in free <==> 0 <= i < |slots| && !slots[i].alive)
  }

  lemma SizeAdd<K, V>(m: map<K, V>, k: K, v: V)
    requires k !in m
    ensures |m[k := v]| == |m| + 1
  {
    assert m[k := v].Keys == m.Keys + {k};
  }

  lemma SizeRemove<K, V>(m: map<K, V>, k: K)
    requires k in m
    ensures |m - {k}| == |m| - 1
  {
    assert (m - {k}).Keys == m.Keys - {k};
  }

  /** Storing a value in a dead slot adds one handle that was not in use. */
  lemma StoreContents<T>(slots: seq<Slot<T>>, i: nat, v: T)
    requires SlotsValid(slots) && i < |slots| && !slots[i].alive
    ensures var id := SlotId(i, slots[i].generation);
      var after := slots[i := Slot(Some(v), slots[i].generation, true)];
      && id !in Contents(slots) && SlotsValid(after)
      && Contents(after) == Contents(slots)[id := v] && |Contents(after)| == |Contents(slots)| + 1
  {
    var id, after := SlotId(i, slots[i].generation), slots[i := Slot(Some(v), slots[i].generation, true)];
    forall x ensures Reachable(after, x) <==> x == id || Reachable(slots, x) {
    }
    hide Reachable;
    SizeAdd(Contents(slots), id, v);
  }

  lemma AppendContents<T>(slots: seq<Slot<T>>, v: T)
    requires SlotsValid(slots)
    ensures var id := SlotId(|slots|, 1);
      var after := slots + [Slot(Some(v), 1, true)];
      && id !in Contents(slots) && SlotsValid(after)
      && Contents(after) == Contents(slots)[id := v] && |Contents(after)| == |Contents(slots)| + 1
  {
    SizeAdd(Contents(slots), SlotId(|slots|, 1), v);
  }

  /** Emptying a live slot removes its handle and no other. */
  lemma EraseContents<T>(slots: seq<Slot<T>>, i: nat, g: nat)
    requires SlotsValid(slots) && i < |slots| && slots[i].alive && 1 <= g <= 0xFFFF_FFFF
    ensures var after := slots[i := Slot(None, g, false)];
      && SlotsValid(after)
      && Contents(after) == Contents(slots) - {SlotId(i, slots[i].generation)}
      && |Contents(after)| == |Contents(slots)| - 1
  {
    assert Reachable(slots, SlotId(i, slots[i].generation));
    SizeRemove(Contents(slots), SlotId(i, slots[i].generation));
  }

  lemma SlotOfId<T>(slots: seq<Slot<T>>, id: SlotId)
    requires SlotsValid(slots) && id in Contents(slots)
    ensures id.index < |slots| && slots[id.index].generation == id.generation
    ensures 1 <= id.generation <= 0xFFFF_FFFF
  {
  }

  /** `generation + 1` in 32 bits, skipping zero. */
  function NextGeneration(g: nat): (n: nat)
    requires 1 <= g <= 0xFFFF_FFFF
    ensures 1 <= n <= 0xFFFF_FFFF
    ensures n == if g == 0xFFFF_FFFF then 1 else g + 1
  {
    var n := (g + 1) % 0x1_0000_0000;
    if n == 0 then 1 else n
  }

  /** The whole effect of an erase on the slots and the free list. */
  lemma EraseById<T>(slots: seq<Slot<T>>, free: seq<nat>, id: SlotId, g: nat)
    requires SlotsValid(slots) && FreeListValid(slots, free) && id in Contents(slots)
    requires 1 <= g <= 0xFFFF_FFFF
    ensures id.index < |slots| && slots[id.index].generation == id.generation
    ensures var after := slots[id.index := Slot(None, g, false)];
      && SlotsValid(after) && FreeListValid(after, free + [id.index])
      && Contents(after) == Contents(slots) - {id} && |Contents(after)| == |Contents(slots)| - 1
  {
    assert Reachable(slots, id);
    EraseContents(slots, id.index, g);
    hide Contents;
    PushFree(slots, free, id.index, Slot(None, g, false));
  }

  /** The slots after an insert, on the index freed last or the next one. */
  ghost function InsertedSlots<T>(slots: seq<Slot<T>>, free: seq<nat>, v: T): seq<Slot<T>>
    requires FreeListValid(slots, free)
  {
    if free == [] then slots + [Slot(Some(v), 1, true)]
    else
      var i := free[|free| - 1];
      assert i in free;
      slots[i := Slot(Some(v), slots[i].generation, true)]
  }

  ghost function InsertedFree(free: seq<nat>): seq<nat> {
    if free == [] then [] else free[..|free| - 1]
  }

  ghost function ErasedSlots<T>(slots: seq<Slot<T>>, id: SlotId): seq<Slot<T>>
    requires id.index < |slots| && 1 <= id.generation <= 0xFFFF_FFFF
  {
    slots[id.index := Slot(None, NextGeneration(id.generation), false)]
  }

  lemma PopFree<T>(slots: seq<Slot<T>>, free: seq<nat>, s: Slot<T>)
    requires FreeListValid(slots, free) && free != [] && s.alive
    ensures free[|free| - 1] < |slots| && !slots[free[|free| - 1]].alive
    ensures FreeListValid(slots[free[|free| - 1] := s], free[..|free| - 1])
  {
    var i := free[|free| - 1];
    assert i in free;
    var front := free[..|free| - 1];
    assert free == front + [i];
    forall x ensures x in front <==> x in free && x != i {
      if x in front {
        var j :| 0 <= j < |front| && front[j] == x;
        assert free[j] == x && free[|free| - 1] == i;
      }
    }
  }

  lemma AppendFree<T>(slots: seq<Slot<T>>, free: seq<nat>, s: Slot<T>)
    requires FreeListValid(slots, free) && s.alive
    ensures FreeListValid(slots + [s], free)
  {
  }

  lemma SlotsValidAt<T>(slots: seq<Slot<T>>, i: nat)
    requires SlotsValid(slots) && i < |slots|
    ensures 1 <= slots[i].generation <= 0xFFFF_FFFF
    ensures slots[i].alive <==> slots[i].value.Some?
  {
  }

  lemma PushFree<T>(slots: seq<Slot<T>>, free: seq<nat>, i: nat, s: Slot<T>)
    requires FreeListValid(slots, free) && i < |slots| && slots[i].alive && !s.alive
    ensures FreeListValid(slots[i := s], free + [i])
  {
  }

  class SlotVector<T> {
    var m_chunks: seq<array?<Slot<T>>>
    var m_capacity: nat
    var m_free_list: seq<nat>
    var m_size: nat

    ghost var Chunks: set<object>
    ghost var Slots: seq<Slot<T>>

    /** Chunks exist below the capacity and are never shared; `Slots` mirrors their contents, and
        slots above the capacity are as new. */
    ghost predicate Storage()
      reads this`m_chunks, this`m_capacity, this`Chunks, this`Slots, Chunks
    {
      && m_capacity == |Slots| <= MaxChunks * ChunkSlots
      && |m_chunks| == MaxChunks
      && this !in Chunks
      && (forall k :: 0 <= k < MaxChunks && ChunkSlots * k < m_capacity ==> m_chunks[k] != null)
      && (forall k :: 0 <= k < MaxChunks && m_chunks[k] != null ==>
            m_chunks[k] in Chunks && m_chunks[k].Length == ChunkSlots)
      && (forall k, l :: 0 <= k < l < MaxChunks && m_chunks[l] != null ==> m_chunks[k] != m_chunks[l])
      && (forall k, j :: 0 <= k < MaxChunks && m_chunks[k] != null && 0 <= j < ChunkSlots ==>
            m_chunks[k][j] == SlotAt(Slots, ChunkSlots * k + j))
    }

    ghost predicate Valid()
      reads this, Chunks
    {
      && Storage() && this !in Chunks && m_capacity == |Slots| <= MaxChunks * ChunkSlots
      && SlotsValid(Slots) && FreeListValid(Slots, m_free_list)
      && m_size == |Contents(Slots)|
    }

    constructor ()
      ensures Valid() && fresh(Chunks) && Contents(Slots) == map[]
    {
      m_chunks := seq(MaxChunks, _ => null);
      m_capacity, m_free_list, m_size := 0, [], 0;
      Chunks, Slots := {}, [];
    }

    predicate IsAllocated(id: SlotId)
      requires Valid()
      reads this, Chunks
      ensures IsAllocated(id) <==> id in Contents(Slots)
    {
      if id.index == INVALID_INDEX || id.index >= m_capacity then false
      else
        var slot := m_chunks[id.index / ChunkSlots][id.index % ChunkSlots];
        slot.alive && slot.generation == id.generation
    }

    method TryGet(id: SlotId) returns (v: Option<T>)
      requires Valid()
      ensures v == if id in Contents(Slots) then Some(Contents(Slots)[id]) else None
    {
      if IsAllocated(id) {
        v := m_chunks[id.index / ChunkSlots][id.index % ChunkSlots].value;
      } else {
        v := None;
      }
    }

    /** Store `v` under a handle that is not in use. */
    method Insert(v: T) returns (id: SlotId)
      requires Valid()
      requires m_free_list == [] ==> m_capacity < 0x40_0000
      modifies this, Chunks
      ensures Valid() && fresh(Chunks - old(Chunks))
      ensures id !in old(Contents(Slots)) && Contents(Slots) == old(Contents(Slots))[id := v]
      ensures id.index == if old(m_free_list) == [] then old(m_capacity) else old(m_free_list)[|old(m_free_list)| - 1]
      ensures FreeListValid(old(Slots), old(m_free_list))
      ensures Slots == InsertedSlots(old(Slots), old(m_free_list), v) && m_free_list == InsertedFree(old(m_free_list))
    {
      hide SlotsValid, FreeListValid, Contents, Storage;
      var index;
      if m_free_list == [] {
        index := m_capacity;
        AppendContents(Slots, v);
        AppendFree(Slots, m_free_list, Slot(Some(v), 1, true));
        EnsureChunk(index);
      } else {
        index := m_free_list[|m_free_list| - 1];
        PopFree(Slots, m_free_list, Slot(Some(v), 1, true));
        StoreContents(Slots, index, v);
        PopFree(Slots, m_free_list, Slot(Some(v), Slots[index].generation, true));
        BelowCapacity(index);
        m_free_list := m_free_list[..|m_free_list| - 1];
      }
      var generation := Generation(index);
      Put(index, Slot(Some(v), generation, true));
      m_size := m_size + 1;
      id := SlotId(index, generation);
    }

    /** Publish the chunk of the next slot, with all slots dead and of generation 1. */
    method EnsureChunk(index: nat)
      requires Storage() && index == m_capacity < MaxChunks * ChunkSlots
      modifies this`m_chunks, this`Chunks
      ensures Storage() && this !in Chunks && fresh(Chunks - old(Chunks)) && old(Chunks) <= Chunks
      ensures m_chunks[index / ChunkSlots] != null
    {
      var k := index / ChunkSlots;
      if m_chunks[k] == null {
        var chunk := new Slot<T>[ChunkSlots](_ => Slot(None, 1, false));
        m_chunks := m_chunks[k := chunk];
        Chunks := Chunks + {chunk};
      }
    }

    function Generation(index: nat): (g: nat)
      requires Storage() && index < MaxChunks * ChunkSlots && m_chunks[index / ChunkSlots] != null
      reads this`m_chunks, this`m_capacity, this`Chunks, this`Slots, Chunks
      ensures g == SlotAt(Slots, index).generation
    {
      m_chunks[index / ChunkSlots][index % ChunkSlots].generation
    }

    /** Write a slot, and raise the capacity if it is the next one. */
    method Put(index: nat, slot: Slot<T>)
      requires Storage() && index <= m_capacity && index < MaxChunks * ChunkSlots
      requires m_chunks[index / ChunkSlots] != null
      modifies this`m_capacity, this`Slots, Chunks
      ensures Storage() && m_capacity == |Slots| <= MaxChunks * ChunkSlots
      ensures Slots == if index == |old(Slots)| then old(Slots) + [slot] else old(Slots)[index := slot]
    {
      var chunk := m_chunks[index / ChunkSlots];
      chunk[index % ChunkSlots] := slot;
      if index == m_capacity {
        m_capacity := index + 1;
        Slots := Slots + [slot];
      } else {
        Slots := Slots[index := slot];
      }
    }

    /** End the life of a handle; its slot can be reused under another generation. */
    method Erase(id: SlotId)
      requires Valid() && id in Contents(Slots)
      modifies this, Chunks
      ensures Valid() && Chunks == old(Chunks)
      ensures Contents(Slots) == old(Contents(Slots)) - {id}
      ensures id.index < |old(Slots)| && 1 <= id.generation <= 0xFFFF_FFFF
      ensures Slots == ErasedSlots(old(Slots), id)
      ensures Slots[id.index].generation == if id.generation == 0xFFFF_FFFF then 1 else id.generation + 1
      ensures m_free_list == old(m_free_list) + [id.index]
    {
      SlotOfId(Slots, id);
      BelowCapacity(id.index);
      hide SlotsValid, FreeListValid, Contents, Storage, Reachable, NextGeneration;
      var generation := NextGeneration(Generation(id.index));
      EraseById(Slots, m_free_list, id, generation);
      Retire(id.index, Slot(None, generation, false));
    }

    method Retire(index: nat, slot: Slot<T>)
      requires Storage() && this !in Chunks && index < m_capacity == |Slots| <= MaxChunks * ChunkSlots && m_size > 0
      modifies this, Chunks
      ensures Storage() && m_capacity == |Slots| == |old(Slots)|
      ensures Slots == old(Slots)[index := slot] && Chunks == old(Chunks)
      ensures m_free_list == old(m_free_list) + [index] && m_size == old(m_size) - 1
    {
      BelowCapacity(index);
      hide Storage;
      Put(index, slot);
      m_free_list := m_free_list + [index];
      m_size := m_size - 1;
    }

    lemma BelowCapacity(index: nat)
      requires Storage() && index < m_capacity
      ensures index < MaxChunks * ChunkSlots && m_chunks[index / ChunkSlots] != null
    {
    }

    /** The number of reachable objects. */
    method Size() returns (n: nat)
      requires Valid()
      ensures n == |Contents(Slots)|
    {
      n := m_size;
    }

    /** What `ForEach` hands to its callback: every reachable object once, by ascending index. */
    method ForEach() returns (visited: seq<(SlotId, T)>)
      requires Valid()
      ensures VisitedBelow(Slots, visited, |Slots|)
    {
      hide SlotsValid, FreeListValid, Contents, VisitedBelow;
      visited := [];
      NothingVisited(Slots);
      for index := 0 to m_capacity
        invariant VisitedBelow(Slots, visited, index)
      {
        BelowCapacity(index);
        SlotsValidAt(Slots, index);
        var slot := m_chunks[index / ChunkSlots][index % ChunkSlots];
        assert slot == SlotAt(Slots, index);
        VisitSlot(Slots, visited, index);
        if slot.value.Some? {
          visited := visited + [(SlotId(index, slot.generation), slot.value.value)];
        }
      }
    }
  }

  ghost predicate Seen<T>(visited: seq<(SlotId, T)>, id: SlotId) {
    exists i :: 0 <= i < |visited| && visited[i].0 == id
  }

  lemma SeenMore<T>(visited: seq<(SlotId, T)>, e: (SlotId, T), id: SlotId)
    ensures Seen(visited + [e], id) <==> Seen(visited, id) || e.0 == id
  {
    var more := visited + [e];
    assert more[|visited|] == e;
    if Seen(visited, id) {
      var i :| 0 <= i < |visited| && visited[i].0 == id;
      assert more[i].0 == id;
    }
  }

  /** The visits are the reachable objects with an index below `n`, each once and in order. */
  ghost predicate VisitedBelow<T>(slots: seq<Slot<T>>, visited: seq<(SlotId, T)>, n: nat) {
    && (forall i, j :: 0 <= i < j < |visited| ==> visited[i].0.index < visited[j].0.index)
    && (forall i :: 0 <= i < |visited| ==>
          && visited[i].0.index < n
          && Reachable(slots, visited[i].0) && slots[visited[i].0.index].value == Some(visited[i].1))
    && (forall id :: Reachable(slots, id) && id.index < n ==> Seen(visited, id))
  }

  ghost predicate Visits<T>(visited: seq<(SlotId, T)>, id: SlotId, v: T) {
    exists i :: 0 <= i < |visited| && visited[i] == (id, v)
  }

  /** All visits together are the contents. */
  lemma VisitsAreContents<T>(slots: seq<Slot<T>>, visited: seq<(SlotId, T)>)
    requires SlotsValid(slots) && VisitedBelow(slots, visited, |slots|)
    ensures forall id, v :: Visits(visited, id, v) <==> id in Contents(slots) && Contents(slots)[id] == v
  {
    forall id, v ensures Visits(visited, id, v) <==> id in Contents(slots) && Contents(slots)[id] == v {
      if id in Contents(slots) && Contents(slots)[id] == v {
        assert Reachable(slots, id);
        var i :| 0 <= i < |visited| && visited[i].0 == id;
        assert visited[i] == (id, v);
      }
    }
  }

  lemma NothingVisited<T>(slots: seq<Slot<T>>)
    requires SlotsValid(slots)
    ensures VisitedBelow(slots, [], 0)
  {
  }

  lemma VisitSlot<T>(slots: seq<Slot<T>>, visited: seq<(SlotId, T)>, n: nat)
    requires SlotsValid(slots) && VisitedBelow(slots, visited, n) && n < |slots|
    ensures var slot := slots[n];
      VisitedBelow(slots,
        if slot.value.Some? then visited + [(SlotId(n, slot.generation), slot.value.value)] else visited, n + 1)
  {
    var slot := slots[n];
    var id' := SlotId(n, slot.generation);
    assert forall id :: Reachable(slots, id) && id.index == n ==> id == id';
    assert Reachable(slots, id') <==> slot.value.Some?;
    hide Seen, Reachable;
    if slot.value.Some? {
      var e := (id', slot.value.value);
      forall id ensures Seen(visited + [e], id) <==> Seen(visited, id) || e.0 == id {
        SeenMore(visited, e, id);
      }
    }
  }
}
