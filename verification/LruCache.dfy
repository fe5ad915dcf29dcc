/** A least-recently-used cache: items in chunks that never move, threaded on a doubly linked list,
    with the ids of freed items handed out again in the order in which they were freed. */
module LruCache {

  const CHUNK_ITEMS: nat := 1024

  /** One live item, as a caller sees it. */
  datatype Entry<T> = Entry(id: nat, tick: int, value: T)

  // ---- what the operations do to the list, oldest first ----

  ghost predicate DistinctIds<T>(entries: seq<Entry<T>>) {
    forall i, j :: 0 <= i < j < |entries| ==> entries[i].id != entries[j].id
  }

  ghost predicate Live<T>(entries: seq<Entry<T>>, id: nat) {
    exists i :: 0 <= i < |entries| && entries[i].id == id
  }

  /** Where a live id is. */
  ghost function IndexOf<T>(entries: seq<Entry<T>>, id: nat): (k: nat)
    requires Live(entries, id)
    ensures k < |entries| && entries[k].id == id
  {
    var k :| 0 <= k < |entries| && entries[k].id == id;
    k
  }

  ghost function Without<T>(entries: seq<Entry<T>>, id: nat): (r: seq<Entry<T>>) {
    if Live(entries, id) then
      var k := IndexOf(entries, id);
      entries[..k] + entries[k + 1..]
    else entries
  }

  ghost function Inserted<T>(entries: seq<Entry<T>>, id: nat, tick: int, value: T): seq<Entry<T>> {
    entries + [Entry(id, tick, value)]
  }

  /** A touch that does not advance an item's tick is ignored; any other moves the item to the end. */
  ghost function Touched<T>(entries: seq<Entry<T>>, id: nat, tick: int): seq<Entry<T>>
    requires Live(entries, id)
  {
    var e := entries[IndexOf(entries, id)];
    if e.tick >= tick then entries else Without(entries, id) + [e.(tick := tick)]
  }

  /** What the callback of a traversal does with the item it is shown. */
  datatype Reaction = Reaction(free: bool, stop: bool)

  /** The items a traversal visits: from the oldest, up to the first one above the bound or the first
      one at which the callback asks to stop. */
  ghost function Visited<T>(entries: seq<Entry<T>>, tick: int, callback: T -> Reaction): (r: seq<Entry<T>>)
    ensures r <= entries
  {
    if entries == [] || entries[0].tick > tick then []
    else if callback(entries[0].value).stop then [entries[0]]
    else [entries[0]] + Visited(entries[1..], tick, callback)
  }

  /** The items that survive being shown to the callback. */
  ghost function Kept<T>(entries: seq<Entry<T>>, callback: T -> Reaction): (r: seq<Entry<T>>) {
    if entries == [] then []
    else
      var e := entries[|entries| - 1];
      Kept(entries[..|entries| - 1], callback) + if callback(e.value).free then [] else [e]
  }

  /** The ids of those that do not, in the order of the visits. */
  ghost function Dropped<T>(entries: seq<Entry<T>>, callback: T -> Reaction): (r: seq<nat>) {
    if entries == [] then []
    else
      var e := entries[|entries| - 1];
      Dropped(entries[..|entries| - 1], callback) + if callback(e.value).free then [e.id] else []
  }

  ghost function Values<T>(entries: seq<Entry<T>>): (r: seq<T>)
    ensures |r| == |entries| && forall i :: 0 <= i < |r| ==> r[i] == entries[i].value
  {
    if entries == [] then [] else Values(entries[..|entries| - 1]) + [entries[|entries| - 1].value]
  }

  // ---- ordering over whole runs ----

  ghost predicate SortedByTick<T>(entries: seq<Entry<T>>) {
    forall i, j :: 0 <= i < j < |entries| ==> entries[i].tick <= entries[j].tick
  }

  datatype Op<T> = Insert(id: nat, tick: int, value: T) | Touch(id: nat, tick: int) | Free(id: nat)

  ghost predicate Allowed<T>(entries: seq<Entry<T>>, op: Op<T>) {
    if op.Insert? then !Live(entries, op.id) else Live(entries, op.id)
  }

  ghost function Step<T>(entries: seq<Entry<T>>, op: Op<T>): seq<Entry<T>>
    requires Allowed(entries, op)
  {
    match op
    case Insert(id, tick, value) => Inserted(entries, id, tick, value)
    case Touch(id, tick) => Touched(entries, id, tick)
    case Free(id) => Without(entries, id)
  }

  /** Every step of a run from an empty cache is on an id that it may be on. */
  ghost predicate Possible<T>(ops: seq<Op<T>>)
    decreases |ops|, 0
  {
    ops != [] ==> Possible(ops[..|ops| - 1]) && Allowed(State(ops[..|ops| - 1]), ops[|ops| - 1])
  }

  ghost function State<T>(ops: seq<Op<T>>): seq<Entry<T>>
    requires Possible(ops)
    decreases |ops|, 1
  {
    if ops == [] then [] else Step(State(ops[..|ops| - 1]), ops[|ops| - 1])
  }

  /** The ticks of inserts and touches never go back. */
  ghost predicate ClockForward<T>(ops: seq<Op<T>>) {
    forall i, j :: 0 <= i < j < |ops| && !ops[i].Free? && !ops[j].Free? ==> ops[i].tick <= ops[j].tick
  }

  ghost predicate NoLaterThan<T>(ops: seq<Op<T>>, clock: int) {
    forall i :: 0 <= i < |ops| && !ops[i].Free? ==> ops[i].tick <= clock
  }

  ghost predicate Ordered<T>(entries: seq<Entry<T>>, clock: int) {
    && DistinctIds(entries)
    && SortedByTick(entries)
    && forall i :: 0 <= i < |entries| ==> entries[i].tick <= clock
  }

  lemma WithoutIs<T>(entries: seq<Entry<T>>, k: nat)
    requires DistinctIds(entries) && k < |entries|
    ensures Live(entries, entries[k].id) && IndexOf(entries, entries[k].id) == k
    ensures Without(entries, entries[k].id) == entries[..k] + entries[k + 1..]
  {
    assert Live(entries, entries[k].id);
    assert entries[IndexOf(entries, entries[k].id)].id == entries[k].id;
  }

  lemma CutKeepsOrder<T>(entries: seq<Entry<T>>, k: nat, clock: int)
    requires Ordered(entries, clock) && k < |entries|
    ensures Ordered(entries[..k] + entries[k + 1..], clock)
    ensures !Live(entries[..k] + entries[k + 1..], entries[k].id)
  {
    var cut := entries[..k] + entries[k + 1..];
    forall i | 0 <= i < |cut| ensures cut[i] == entries[if i < k then i else i + 1] {
    }
  }

  lemma AppendKeepsOrder<T>(entries: seq<Entry<T>>, e: Entry<T>, clock: int)
    requires Ordered(entries, clock) && !Live(entries, e.id) && e.tick == clock
    ensures Ordered(entries + [e], clock)
  {
  }

  lemma StepKeepsOrder<T>(entries: seq<Entry<T>>, op: Op<T>, clock: int)
    requires Ordered(entries, clock) && Allowed(entries, op) && (!op.Free? ==> op.tick == clock)
    ensures Ordered(Step(entries, op), clock)
  {
    hide Ordered, Live;
    if op.Insert? {
      AppendKeepsOrder(entries, Entry(op.id, op.tick, op.value), clock);
    } else {
      OrderedIsDistinct(entries, clock);
      var k := IndexOf(entries, op.id);
      WithoutIs(entries, k);
      CutKeepsOrder(entries, k, clock);
      if op.Touch? {
        AppendKeepsOrder(entries[..k] + entries[k + 1..], entries[k].(tick := op.tick), clock);
      }
    }
  }

  lemma OrderedIsDistinct<T>(entries: seq<Entry<T>>, clock: int)
    requires Ordered(entries, clock)
    ensures DistinctIds(entries)
    ensures forall later :: clock <= later ==> Ordered(entries, later)
  {
  }

  /** Under a clock that never goes back, the list stays sorted by tick over every run. */
  lemma {:induction false} RunsStaySorted<T>(ops: seq<Op<T>>, clock: int)
    requires Possible(ops) && ClockForward(ops) && NoLaterThan(ops, clock)
    ensures Ordered(State(ops), clock)
    decreases |ops|
  {
    hide Ordered, Step, Allowed;
    if ops == [] {
      EmptyIsOrdered<T>(clock);
    } else {
      var op := ops[|ops| - 1];
      var now := if op.Free? then clock else op.tick;
      RunsStaySorted(ops[..|ops| - 1], now);
      StepKeepsOrder(State(ops[..|ops| - 1]), op, now);
      OrderedIsDistinct(State(ops), now);
    }
  }

  lemma EmptyIsOrdered<T>(clock: int)
    ensures Ordered<T>([], clock)
  {
  }

  /** A touch keeps a sorted list sorted exactly when it is ignored, or when its tick is not below
      that of any other item. */
  lemma TouchKeepsOrderIff<T>(entries: seq<Entry<T>>, id: nat, tick: int)
    requires DistinctIds(entries) && SortedByTick(entries) && Live(entries, id)
    ensures SortedByTick(Touched(entries, id, tick)) <==>
      entries[IndexOf(entries, id)].tick >= tick
      || forall i :: 0 <= i < |entries| && entries[i].id != id ==> entries[i].tick <= tick
  {
    var k := IndexOf(entries, id);
    WithoutIs(entries, k);
    var others := entries[..k] + entries[k + 1..];
    var after := Touched(entries, id, tick);
    if entries[k].tick < tick && SortedByTick(after) {
      forall i | 0 <= i < |entries| && entries[i].id != id ensures entries[i].tick <= tick {
        var at := if i < k then i else i - 1;
        assert others[at] == entries[i] && after[at] == entries[i];
        assert after[|others|].tick == tick;
      }
    }
    if entries[k].tick < tick && forall i :: 0 <= i < |entries| && entries[i].id != id ==> entries[i].tick <= tick {
      forall i, j | 0 <= i < j < |after| ensures after[i].tick <= after[j].tick {
        assert after[i] == others[i] == entries[if i < k then i else i + 1];
      }
    }
  }

  /** An insert keeps it sorted exactly when its tick is not below that of the last item. */
  lemma InsertKeepsOrderIff<T>(entries: seq<Entry<T>>, id: nat, tick: int, value: T)
    requires SortedByTick(entries)
    ensures SortedByTick(Inserted(entries, id, tick, value))
      <==> entries == [] || entries[|entries| - 1].tick <= tick
  {
    var last, after := |entries| - 1, Inserted(entries, id, tick, value);
    if entries != [] && SortedByTick(after) {
      assert after[last].tick <= after[last + 1].tick;
    }
  }

  lemma FreeKeepsOrder<T>(entries: seq<Entry<T>>, id: nat)
    requires DistinctIds(entries) && SortedByTick(entries) && Live(entries, id)
    ensures SortedByTick(Without(entries, id))
  {
    WithoutIs(entries, IndexOf(entries, id));
  }

  /** Whatever ticks the operations bring: the step that leaves a sorted list unsorted is an insert below the
      newest tick, or a touch that is not ignored and not above every other tick. */
  lemma StepKeepsOrderIff<T>(entries: seq<Entry<T>>, op: Op<T>)
    requires DistinctIds(entries) && SortedByTick(entries) && Allowed(entries, op)
    ensures SortedByTick(Step(entries, op)) <==>
      match op
      case Insert(_, tick, _) => entries == [] || entries[|entries| - 1].tick <= tick
      case Touch(id, tick) =>
        || entries[IndexOf(entries, id)].tick >= tick
        || forall i :: 0 <= i < |entries| && entries[i].id != id ==> entries[i].tick <= tick
      case Free(_) => true
  {
    hide SortedByTick, DistinctIds, IndexOf, Without, Inserted, Touched;
    match op
    case Insert(id, tick, value) => InsertKeepsOrderIff(entries, id, tick, value);
    case Touch(id, tick) => TouchKeepsOrderIff(entries, id, tick);
    case Free(id) => FreeKeepsOrder(entries, id);
  }

  /** Runs under a clock that went back: a touch that advances one item to a tick below the newest one leaves
      the list unsorted, and so does an insert below it. */
  lemma BackwardClockUnsorts()
    ensures var ops := [Insert(0, 1, 0), Insert(1, 5, 0), Touch(0, 3)];
      Possible(ops) && State(ops) == [Entry(1, 5, 0), Entry(0, 3, 0)] && !SortedByTick(State(ops))
    ensures var ops := [Insert(0, 5, 0), Insert(1, 1, 0)];
      Possible(ops) && State(ops) == [Entry(0, 5, 0), Entry(1, 1, 0)] && !SortedByTick(State(ops))
  {
    TwoInserts(1, 5);
    TwoInserts(5, 1);
    var ops := [Insert(0, 1, 0), Insert(1, 5, 0), Touch(0, 3)];
    var two := [Entry(0, 1, 0), Entry(1, 5, 0)];
    assert ops[..2] == [Insert(0, 1, 0), Insert(1, 5, 0)];
    assert two[0].id == 0;
    WithoutIs(two, 0);
    assert Step(two, ops[2]) == [Entry(1, 5, 0), Entry(0, 3, 0)];
    assert State(ops)[0].tick > State(ops)[1].tick;
    var back := State([Insert(0, 5, 0), Insert(1, 1, 0)]);
    assert back[0].tick > back[1].tick;
  }

  lemma TwoInserts(a: int, b: int)
    ensures var ops := [Insert(0, a, 0), Insert(1, b, 0)];
      Possible(ops) && State(ops) == [Entry(0, a, 0), Entry(1, b, 0)]
  {
    var ops: seq<Op<int>> := [Insert(0, a, 0), Insert(1, b, 0)];
    var one := ops[..1];
    assert one == [Insert(0, a, 0)] && one[..0] == [];
    assert State(one) == [Entry(0, a, 0)];
    assert State(ops) == State(one) + [Entry(1, b, 0)];
  }

  /** In a sorted list, a traversal without an early stop visits exactly the live items whose tick is
      not above the bound, oldest first, each once. */
  lemma {:induction false} VisitsExactlyBelow<T>(entries: seq<Entry<T>>, tick: int, callback: T -> Reaction)
    requires SortedByTick(entries)
    requires forall i :: 0 <= i < |entries| ==> !callback(entries[i].value).stop
    ensures var n := |Visited(entries, tick, callback)|;
      && (forall i :: 0 <= i < n ==> entries[i].tick <= tick)
      && (forall i :: n <= i < |entries| ==> entries[i].tick > tick)
  {
    if entries != [] && entries[0].tick <= tick {
      VisitsExactlyBelow(entries[1..], tick, callback);
      var n := |Visited(entries[1..], tick, callback)|;
      forall i | n + 1 <= i < |entries| ensures entries[i].tick > tick {
        assert entries[i] == entries[1..][i - 1];
      }
    }
  }

  // ---- live and free ids ----

  ghost predicate DistinctNumbers(s: seq<nat>) {
    forall i, j :: 0 <= i < j < |s| ==> s[i] != s[j]
  }

  /** Live and free ids are distinct, disjoint, and together all ids below `size`. */
  ghost predicate IdsPartition<T>(entries: seq<Entry<T>>, free: seq<nat>, size: nat) {
    && DistinctIds(entries) && DistinctNumbers(free)
    && (forall id: nat :: id < size <==> Live(entries, id) || id in free)
    && (forall id: nat :: !(Live(entries, id) && id in free))
  }

  /** One id below `size` is neither live nor free. */
  ghost predicate HandedOut<T>(entries: seq<Entry<T>>, free: seq<nat>, size: nat, id: nat) {
    && DistinctIds(entries) && DistinctNumbers(free)
    && id < size && !Live(entries, id) && id !in free
    && (forall other: nat :: other < size <==> other == id || Live(entries, other) || other in free)
    && (forall other: nat :: !(Live(entries, other) && other in free))
  }

  // ---- the cache ----

  class Item<T> {
    var value: T
    var tick: int
    var next: Item?<T>
    var prev: Item?<T>
    ghost const id: nat

    constructor (value: T, ghost id: nat)
      ensures this.id == id && next == null && prev == null
    {
      this.value, tick, next, prev := value, 0, null, null;
      this.id := id;
    }
  }

  /** The items of a list of entries. */
  ghost function Nodes<T>(items: seq<Item<T>>, entries: seq<Entry<T>>): (r: seq<Item<T>>)
    requires forall i :: 0 <= i < |entries| ==> entries[i].id < |items|
    ensures |r| == |entries| && forall i :: 0 <= i < |r| ==> r[i] == items[entries[i].id]
  {
    if entries == [] then []
    else Nodes(items, entries[..|entries| - 1]) + [items[entries[|entries| - 1].id]]
  }

  ghost function NextOf<T>(nodes: seq<Item<T>>, i: nat): Item?<T>
    requires i < |nodes|
  {
    if i + 1 < |nodes| then nodes[i + 1] else null
  }

  ghost function PrevOf<T>(nodes: seq<Item<T>>, i: nat): Item?<T>
    requires i < |nodes|
  {
    if i > 0 then nodes[i - 1] else null
  }

  lemma Beside<T>(nodes: seq<Item<T>>, k: nat)
    requires k < |nodes|
    ensures NextOf(nodes, k) == if k + 1 < |nodes| then nodes[k + 1] else null
    ensures PrevOf(nodes, k) == if k > 0 then nodes[k - 1] else null
  {
  }

  lemma BesideAppended<T>(nodes: seq<Item<T>>, item: Item<T>, i: nat)
    requires i <= |nodes|
    ensures var all := nodes + [item];
      && NextOf(all, i) == (if i == |nodes| then null else if i == |nodes| - 1 then item else NextOf(nodes, i))
      && PrevOf(all, i) == (if i < |nodes| then PrevOf(nodes, i) else if i > 0 then nodes[i - 1] else null)
  {
  }

  /** The last node is the only one in the last place; taking it out and putting it back changes nothing. */
  lemma LastNode<T>(nodes: seq<Item<T>>, k: nat)
    requires Distinct(nodes) && k < |nodes|
    ensures nodes[|nodes| - 1] == nodes[k] <==> k == |nodes| - 1
    ensures k == |nodes| - 1 ==> nodes[..k] + nodes[k + 1..] + [nodes[k]] == nodes
    ensures Distinct(nodes[..k] + nodes[k + 1..]) && nodes[k] !in nodes[..k] + nodes[k + 1..]
  {
  }

  /** The neighbours of what is left when one node is cut out. */
  lemma Neighbours<T>(nodes: seq<Item<T>>, k: nat, i: nat)
    requires k < |nodes| && i < |nodes| - 1
    ensures var cut := nodes[..k] + nodes[k + 1..]; var j := if i < k then i else i + 1;
      && cut[i] == nodes[j]
      && NextOf(cut, i) == NextOf(nodes, if j == k - 1 then k else j)
      && PrevOf(cut, i) == PrevOf(nodes, if j == k + 1 then k else j)
  {
  }

  class LeastRecentlyUsedCache<T(0)> {
    var m_chunks: seq<seq<Item<T>>>
    var m_size: nat
    var m_free: seq<nat>
    var m_first: Item?<T>
    var m_last: Item?<T>

    /** The live items, oldest first. */
    ghost var entries: seq<Entry<T>>
    /** All chunks in one sequence. */
    ghost var items: seq<Item<T>>

    constructor ()
      ensures Valid() && entries == [] && m_free == [] && m_size == 0
    {
      m_chunks, m_size, m_free, m_first, m_last := [], 0, [], null, null;
      entries, items := [], [];
    }

    /** The chunks hold `items` in order, and there are just enough of them. */
    ghost predicate ChunksHold()
      reads this`m_chunks, this`m_size, this`items
    {
      && |items| == CHUNK_ITEMS * |m_chunks|
      && m_size <= |items| < m_size + CHUNK_ITEMS
      && (forall c :: 0 <= c < |m_chunks| ==> |m_chunks[c]| == CHUNK_ITEMS)
      && (forall i :: 0 <= i < |items| ==> items[i] == m_chunks[i / CHUNK_ITEMS][i % CHUNK_ITEMS])
      && (forall i :: 0 <= i < |items| ==> items[i].id == i)
    }

    /** The list fields are those of a well-formed doubly linked list over `nodes`. */
    ghost predicate Links(nodes: seq<Item<T>>)
      reads this`m_first, this`m_last, (set x | x in nodes)`next, (set x | x in nodes)`prev
    {
      && m_first == (if nodes == [] then null else nodes[0])
      && m_last == (if nodes == [] then null else nodes[|nodes| - 1])
      && (forall i :: 0 <= i < |nodes| ==> nodes[i].next == NextOf(nodes, i))
      && (forall i :: 0 <= i < |nodes| ==> nodes[i].prev == PrevOf(nodes, i))
    }

    lemma LinksEnds(nodes: seq<Item<T>>)
      requires Links(nodes)
      ensures m_first == if nodes == [] then null else nodes[0]
      ensures m_last == if nodes == [] then null else nodes[|nodes| - 1]
    {
    }

    lemma NextNode(nodes: seq<Item<T>>, i: nat)
      requires Links(nodes) && i < |nodes|
      ensures nodes[i].next == if i + 1 < |nodes| then nodes[i + 1] else null
    {
    }

    lemma ItemIds()
      requires ChunksHold()
      ensures m_size <= |items| && forall i :: 0 <= i < |items| ==> items[i].id == i
    {
    }

    ghost predicate InBounds(entries: seq<Entry<T>>)
      reads this`items
    {
      forall i :: 0 <= i < |entries| ==> entries[i].id < |items|
    }

    /** The items hold what the entries say. */
    ghost predicate Stored(entries: seq<Entry<T>>)
      requires InBounds(entries)
      reads this`items, (set x | x in items)`tick, (set x | x in items)`value
    {
      forall i :: 0 <= i < |entries| ==>
        items[entries[i].id].tick == entries[i].tick && items[entries[i].id].value == entries[i].value
    }

    /** Items that are not live are not linked. */
    ghost predicate Idle(entries: seq<Entry<T>>)
      reads this`items, (set x | x in items)`next, (set x | x in items)`prev
    {
      forall id: nat :: id < |items| && !Live(entries, id) ==> items[id].next == null && items[id].prev == null
    }

    lemma StoredCut(entries: seq<Entry<T>>, k: nat)
      requires k < |entries| && InBounds(entries[..k] + entries[k + 1..])
      requires forall i :: 0 <= i < |entries| && i != k ==>
        entries[i].id < |items|
        && items[entries[i].id].tick == entries[i].tick && items[entries[i].id].value == entries[i].value
      ensures Stored(entries[..k] + entries[k + 1..])
    {
    }

    lemma StoredAppend(entries: seq<Entry<T>>, e: Entry<T>)
      requires InBounds(entries) && Stored(entries) && e.id < |items|
      requires items[e.id].tick == e.tick && items[e.id].value == e.value
      ensures InBounds(entries + [e]) && Stored(entries + [e])
    {
    }

    lemma StoredAll(entries: seq<Entry<T>>)
      requires InBounds(entries) && Stored(entries)
      ensures forall i :: 0 <= i < |entries| ==>
        entries[i].id < |items|
        && items[entries[i].id].tick == entries[i].tick && items[entries[i].id].value == entries[i].value
    {
    }

    lemma StoredAt(entries: seq<Entry<T>>, k: nat)
      requires InBounds(entries) && Stored(entries) && k < |entries|
      ensures items[entries[k].id].tick == entries[k].tick && items[entries[k].id].value == entries[k].value
    {
    }

    lemma BoundsCut(entries: seq<Entry<T>>, k: nat)
      requires InBounds(entries) && k < |entries|
      ensures InBounds(entries[..k] + entries[k + 1..])
    {
    }

    ghost predicate Valid()
      reads this, items
    {
      && ChunksHold() && IdsPartition(entries, m_free, m_size) && InBounds(entries)
      && Links(Nodes(items, entries)) && Stored(entries) && Idle(entries)
    }

    function At(id: nat): (item: Item<T>)
      requires ChunksHold() && id < |items|
      reads this`m_chunks, this`m_size, this`items
      ensures item == items[id]
    {
      m_chunks[id / CHUNK_ITEMS][id % CHUNK_ITEMS]
    }

    /** `std::make_unique<Item[]>(ChunkItems)` */
    static method NewChunk(value: T, ghost base: nat) returns (chunk: seq<Item<T>>)
      ensures |chunk| == CHUNK_ITEMS
      ensures forall i :: 0 <= i < |chunk| ==> fresh(chunk[i]) && chunk[i].id == base + i
      ensures forall i :: 0 <= i < |chunk| ==> chunk[i].next == null && chunk[i].prev == null
    {
      chunk := [];
      while |chunk| < CHUNK_ITEMS
        invariant |chunk| <= CHUNK_ITEMS
        invariant forall i :: 0 <= i < |chunk| ==> fresh(chunk[i]) && chunk[i].id == base + i
        invariant forall i :: 0 <= i < |chunk| ==> chunk[i].next == null && chunk[i].prev == null
      {
        var item := new Item(value, base + |chunk|);
        chunk := chunk + [item];
      }
    }

    /** The id freed longest ago, or a new one; a new chunk when the last one is full. */
    method Build() returns (id: nat)
      requires ChunksHold() && IdsPartition(entries, m_free, m_size)
      modifies this`m_chunks, this`m_size, this`m_free, this`items
      ensures ChunksHold() && HandedOut(entries, m_free, m_size, id) && old(items) <= items
      ensures forall i :: |old(items)| <= i < |items| ==>
        fresh(items[i]) && items[i].next == null && items[i].prev == null
      ensures if old(m_free) == [] then id == old(m_size) && m_size == id + 1 && m_free == []
        else id == old(m_free)[0] && m_size == old(m_size) && m_free == old(m_free)[1..]
    {
      hide Live, DistinctIds;
      HandOut(entries, m_free, m_size);
      if m_free == [] {
        id := m_size;
        m_size := m_size + 1;
        if id % CHUNK_ITEMS == 0 {
          var value: T := *;
          var chunk := NewChunk(value, |items|);
          m_chunks := m_chunks + [chunk];
          items := items + chunk;
        }
        return;
      }
      id := m_free[0];
      m_free := m_free[1..];
    }

    /** Put an item at the end of the list. The list fields of the first item of an empty list are not
        written, so they must be null already. */
    method Attach(item: Item<T>, ghost nodes: seq<Item<T>>)
      requires Links(nodes) && Distinct(nodes) && item !in nodes
      requires nodes == [] ==> item.next == null && item.prev == null
      modifies this`m_first, this`m_last, item`next, item`prev, (set x | x in nodes)`next
      ensures Links(nodes + [item])
    {
      hide NextOf, PrevOf;
      assert forall i :: 0 <= i < |nodes| ==> nodes[i] != item;
      ghost var all := nodes + [item];
      forall i | 0 <= i < |all|
        ensures NextOf(all, i) == (if i == |nodes| then null else if i == |nodes| - 1 then item else NextOf(nodes, i))
        ensures PrevOf(all, i) == (if i < |nodes| then PrevOf(nodes, i) else if i > 0 then nodes[i - 1] else null)
      {
        BesideAppended(nodes, item, i);
      }
      if m_first == null {
        m_first := item;
      }
      if m_last == null {
        m_last := item;
        return;
      }
      item.prev := m_last;
      m_last.next := item;
      item.next := null;
      m_last := item;
      assert forall i :: 0 <= i < |nodes| ==> nodes[i].prev == PrevOf(nodes, i);
    }

    /** Take an item out of the list. Its own list fields keep pointing where they did. */
    method Detach(item: Item<T>, ghost nodes: seq<Item<T>>, ghost k: nat)
      requires Links(nodes) && Distinct(nodes) && k < |nodes| && item == nodes[k]
      modifies this`m_first, this`m_last, (set x | x in nodes)`next, (set x | x in nodes)`prev
      ensures Links(nodes[..k] + nodes[k + 1..])
      ensures item.next == old(item.next) && item.prev == old(item.prev)
    {
      hide NextOf, PrevOf;
      assert item.prev == PrevOf(nodes, k) && item.next == NextOf(nodes, k);
      Beside(nodes, k);
      if item.prev != null {
        item.prev.next := item.next;
      }
      if item.next != null {
        item.next.prev := item.prev;
      }
      if m_first == item {
        m_first := item.next;
      }
      if m_last == item {
        m_last := item.prev;
      }
      assert forall j :: 0 <= j < |nodes| ==> nodes[j].next == NextOf(nodes, if j == k - 1 then k else j);
      assert forall j :: 0 <= j < |nodes| ==> nodes[j].prev == PrevOf(nodes, if j == k + 1 then k else j);
      ghost var cut := nodes[..k] + nodes[k + 1..];
      forall i | 0 <= i < |cut| ensures cut[i].next == NextOf(cut, i) && cut[i].prev == PrevOf(cut, i) {
        Neighbours(nodes, k, i);
      }
    }

    method Insert(value: T, tick: int) returns (id: nat)
      requires Valid()
      modifies this, items
      ensures Valid() && !Live(old(entries), id)
      ensures entries == Inserted(old(entries), id, tick, value)
      ensures old(items) <= items && forall i :: |old(items)| <= i < |items| ==> fresh(items[i])
      ensures if old(m_free) == [] then id == old(m_size) && m_size == id + 1 && m_free == []
        else id == old(m_free)[0] && m_size == old(m_size) && m_free == old(m_free)[1..]
    {
      hide Live, DistinctIds, Links, NextOf, PrevOf, Distinct, IdsPartition, HandedOut, Nodes, ChunksHold;
      ItemIds();
      ghost var nodes := Nodes(items, entries);
      PartitionGives(entries, m_free, m_size);
      NodesDistinct(items, entries);
      id := Build();
      ItemIds();
      SameNodes(old(items), items, entries);
      InsertedPartition(entries, m_free, m_size, id, tick, value);
      NotANode(items, entries, id);
      var item := At(id);
      item.value := value;
      item.tick := tick;
      StoredAppend(entries, Entry(id, tick, value));
      Attach(item, nodes);
      NodesAppend(items, entries, Entry(id, tick, value));
      LiveInserted(entries, id, tick, value);
      forall other: nat | other < |items| && other != id && !Live(entries, other)
        ensures items[other].next == null && items[other].prev == null
      {
        NotANode(items, entries, other);
      }
      entries := Inserted(entries, id, tick, value);
    }

    /** What `Touch` does to the list. */
    method MoveToEnd(item: Item<T>, ghost nodes: seq<Item<T>>, ghost k: nat)
      requires Links(nodes) && Distinct(nodes) && k < |nodes| && item == nodes[k]
      modifies this`m_first, this`m_last, (set x | x in nodes)`next, (set x | x in nodes)`prev
      ensures Links(nodes[..k] + nodes[k + 1..] + [item])
    {
      hide Links;
      LastNode(nodes, k);
      LinksEnds(nodes);
      if item != m_last {
        Detach(item, nodes, k);
        Attach(item, nodes[..k] + nodes[k + 1..]);
      }
    }

    /** The source reads and relinks the item whatever its state: the id must be a live one. */
    method Touch(id: nat, tick: int)
      requires Valid() && Live(entries, id)
      modifies this`m_first, this`m_last, this`entries, items
      ensures Valid()
      ensures entries == Touched(old(entries), id, tick)
    {
      hide Live, DistinctIds, Links, NextOf, PrevOf, Distinct, IdsPartition, Nodes, ChunksHold;
      ItemIds();
      PartitionGives(entries, m_free, m_size);
      var item := At(id);
      ghost var k := IndexOf(entries, id);
      StoredAt(entries, k);
      if item.tick >= tick {
        return;
      }
      item.tick := tick;
      ghost var e := entries[k].(tick := tick);
      ghost var rest := entries[..k] + entries[k + 1..];
      ghost var nodes := Nodes(items, entries);
      NodesDistinct(items, entries);
      NodesCut(items, entries, k);
      NodesAppend(items, rest, e);
      WithoutIs(entries, k);
      LiveCut(entries, k);
      MovedPartition(entries, m_free, m_size, k, e);
      BoundsCut(entries, k);
      StoredCut(entries, k);
      StoredAppend(rest, e);
      MoveToEnd(item, nodes, k);
      forall other: nat | other < |items| && !Live(entries, other)
        ensures items[other].next == null && items[other].prev == null
      {
        NotANode(items, entries, other);
      }
      entries := rest + [e];
    }

    method Free(id: nat)
      requires Valid() && Live(entries, id)
      modifies this`m_first, this`m_last, this`m_free, this`entries, items
      ensures Valid()
      ensures entries == Without(old(entries), id) && m_free == old(m_free) + [id]
      ensures forall i :: 0 <= i < |items| ==> items[i].value == old(items[i].value)
    {
      hide Live, DistinctIds, Links, NextOf, PrevOf, Distinct, IdsPartition, Nodes, ChunksHold, InBounds, Stored;
      ItemIds();
      PartitionGives(entries, m_free, m_size);
      var item := At(id);
      ghost var k := IndexOf(entries, id);
      ghost var rest := entries[..k] + entries[k + 1..];
      ghost var nodes := Nodes(items, entries);
      NodesDistinct(items, entries);
      NodesCut(items, entries, k);
      WithoutIs(entries, k);
      LiveCut(entries, k);
      FreedPartition(entries, m_free, m_size, k);
      BoundsCut(entries, k);
      StoredAll(entries);
      StoredCut(entries, k);
      Detach(item, nodes, k);
      NotANode(items, rest, id);
      item.next := null;
      item.prev := null;
      m_free := m_free + [id];
      forall other: nat | other < |items| && !Live(entries, other)
        ensures items[other].next == null && items[other].prev == null
      {
        NotANode(items, entries, other);
      }
      entries := rest;
    }

    lemma StartTraversal(was: seq<Entry<T>>, tick: int, callback: T -> Reaction)
      requires Valid() && was == entries
      ensures m_first == if |was| > 0 && was[0].id < |items| then items[was[0].id] else null
      ensures |was| > 0 ==> was[0].id < |items|
      ensures AfterVisits(was, 0, callback, [], entries, m_free, m_free) && SoFar(was, 0, tick, callback)
    {
      hide Idle, Stored, IdsPartition, ChunksHold;
      LinksEnds(Nodes(items, entries));
      assert was[0..] == was;
    }

    /** The next item is the live item `was[k]`, and its successor is that of `was[k + 1]`. */
    lemma VisitNext(was: seq<Entry<T>>, k: nat, callback: T -> Reaction, visited: seq<T>, free: seq<nat>)
      requires Valid() && k < |was| && AfterVisits(was, k, callback, visited, entries, free, m_free)
      ensures Live(entries, was[k].id) && was[k].id < |items|
      ensures items[was[k].id].tick == was[k].tick && items[was[k].id].value == was[k].value
      ensures k + 1 < |was| ==> was[k + 1].id < |items|
      ensures items[was[k].id].next == if k + 1 < |was| then items[was[k + 1].id] else null
      ensures AfterVisits(was, k + 1, callback, visited + [was[k].value],
        if callback(was[k].value).free then Without(entries, was[k].id) else entries,
        free, if callback(was[k].value).free then m_free + [was[k].id] else m_free)
    {
      hide Idle, IdsPartition, ChunksHold, Links, Kept, Dropped, Values, Live, Without;
      PartitionGives(entries, m_free, m_size);
      var j := |Kept(was[..k], callback)|;
      VisitCut(Kept(was[..k], callback), was, k);
      NextNode(Nodes(items, entries), j);
      WithoutIs(entries, j);
      KeptStep(was, k, callback);
    }

    /** Visit the items whose tick is not above a bound, oldest first, until the callback asks to stop.
        The callback may free the item that it is shown, whose id it finds in the object itself. */
    method ForEachItemBelow(tick: int, callback: T -> Reaction, idOf: T -> nat) returns (visited: seq<T>)
      requires Valid()
      requires forall i | 0 <= i < |entries| && callback(entries[i].value).free ::
        idOf(entries[i].value) == entries[i].id
      modifies this`m_first, this`m_last, this`m_free, this`entries, items
      ensures Valid()
      ensures var seen := Visited(old(entries), tick, callback);
        && visited == Values(seen)
        && entries == Kept(seen, callback) + old(entries)[|seen|..]
        && m_free == old(m_free) + Dropped(seen, callback)
    {
      hide Valid, Kept, Dropped, Values, Visited, Without, Live, SoFar, AfterVisits;
      ghost var was, k := entries, 0;
      StartTraversal(was, tick, callback);
      visited := [];
      var item := m_first;
      while item != null
        invariant k <= |was| && Valid() && SoFar(was, k, tick, callback)
        invariant AfterVisits(was, k, callback, visited, entries, old(m_free), m_free)
        invariant k < |was| ==> was[k].id < |items|
        invariant item == if k < |was| then items[was[k].id] else null
        decreases |was| - k
      {
        VisitNext(was, k, callback, visited, old(m_free));
        VisitStep(was, k, tick, callback);
        if item.tick > tick {
          VisitsDone(was, k, callback, visited, entries, old(m_free), m_free);
          return;
        }
        var next := item.next;
        visited := visited + [item.value];
        var reaction := callback(item.value);
        if reaction.free {
          Free(idOf(item.value));
        }
        if reaction.stop {
          VisitsDone(was, k + 1, callback, visited, entries, old(m_free), m_free);
          return;
        }
        item := next;
        k := k + 1;
      }
      VisitedAll(was, tick, callback);
      VisitsDone(was, k, callback, visited, entries, old(m_free), m_free);
    }
  }

  ghost predicate Distinct<T>(nodes: seq<Item<T>>) {
    forall i, j :: 0 <= i < j < |nodes| ==> nodes[i] != nodes[j]
  }

  lemma NodesDistinct<T>(items: seq<Item<T>>, entries: seq<Entry<T>>)
    requires forall i :: 0 <= i < |entries| ==> entries[i].id < |items|
    requires forall i :: 0 <= i < |items| ==> items[i].id == i
    requires DistinctIds(entries)
    ensures Distinct(Nodes(items, entries))
  {
    var nodes := Nodes(items, entries);
    forall i, j | 0 <= i < j < |nodes| ensures nodes[i] != nodes[j] {
      assert nodes[i].id == entries[i].id && nodes[j].id == entries[j].id;
    }
  }

  lemma SameNodes<T>(before: seq<Item<T>>, after: seq<Item<T>>, entries: seq<Entry<T>>)
    requires forall i :: 0 <= i < |entries| ==> entries[i].id < |before|
    requires before <= after
    ensures forall i :: 0 <= i < |entries| ==> entries[i].id < |after|
    ensures Nodes(after, entries) == Nodes(before, entries)
  {
  }

  lemma NodesAppend<T>(items: seq<Item<T>>, entries: seq<Entry<T>>, e: Entry<T>)
    requires forall i :: 0 <= i < |entries| ==> entries[i].id < |items|
    requires e.id < |items|
    ensures Nodes(items, entries + [e]) == Nodes(items, entries) + [items[e.id]]
  {
  }

  lemma NodesCut<T>(items: seq<Item<T>>, entries: seq<Entry<T>>, k: nat)
    requires forall i :: 0 <= i < |entries| ==> entries[i].id < |items|
    requires k < |entries|
    ensures var nodes := Nodes(items, entries);
      Nodes(items, entries[..k] + entries[k + 1..]) == nodes[..k] + nodes[k + 1..]
  {
  }

  /** The first `k` items are visited, and then whatever a traversal of the others visits. */
  ghost predicate SoFar<T>(was: seq<Entry<T>>, k: nat, tick: int, callback: T -> Reaction) {
    k <= |was| && Visited(was, tick, callback) == was[..k] + Visited(was[k..], tick, callback)
  }

  /** What the first `k` visits leave behind. */
  ghost predicate AfterVisits<T>(was: seq<Entry<T>>, k: nat, callback: T -> Reaction,
                                 visited: seq<T>, entries: seq<Entry<T>>, free: seq<nat>, m_free: seq<nat>)
  {
    && k <= |was| && visited == Values(was[..k])
    && entries == Kept(was[..k], callback) + was[k..]
    && m_free == free + Dropped(was[..k], callback)
  }

  lemma VisitsDone<T>(was: seq<Entry<T>>, k: nat, callback: T -> Reaction,
                      visited: seq<T>, entries: seq<Entry<T>>, free: seq<nat>, m_free: seq<nat>)
    requires AfterVisits(was, k, callback, visited, entries, free, m_free)
    ensures k <= |was| && |was[..k]| == k && visited == Values(was[..k])
    ensures entries == Kept(was[..k], callback) + was[k..] && m_free == free + Dropped(was[..k], callback)
  {
  }

  lemma KeptStep<T>(was: seq<Entry<T>>, k: nat, callback: T -> Reaction)
    requires k < |was|
    ensures Kept(was[..k + 1], callback)
         == Kept(was[..k], callback) + if callback(was[k].value).free then [] else [was[k]]
    ensures Dropped(was[..k + 1], callback)
         == Dropped(was[..k], callback) + if callback(was[k].value).free then [was[k].id] else []
    ensures Values(was[..k + 1]) == Values(was[..k]) + [was[k].value]
  {
    assert was[..k + 1][..k] == was[..k];
  }

  lemma VisitStep<T>(was: seq<Entry<T>>, k: nat, tick: int, callback: T -> Reaction)
    requires k < |was| && SoFar(was, k, tick, callback)
    ensures if was[k].tick > tick then Visited(was, tick, callback) == was[..k]
      else if callback(was[k].value).stop then Visited(was, tick, callback) == was[..k + 1]
      else SoFar(was, k + 1, tick, callback)
  {
    hide Visited;
    assert was[k..][1..] == was[k + 1..];
    assert was[..k + 1] == was[..k] + [was[k]];
    VisitFirst(was[k..], tick, callback);
  }

  lemma VisitCut<T>(kept: seq<Entry<T>>, was: seq<Entry<T>>, k: nat)
    requires k < |was|
    ensures var all, j := kept + was[k..], |kept|;
      && all == kept + [was[k]] + was[k + 1..]
      && |all| == |kept| + |was| - k && all[j] == was[k] && (k + 1 < |was| ==> all[j + 1] == was[k + 1])
      && all[..j] == kept && all[j + 1..] == was[k + 1..]
  {
  }

  lemma VisitFirst<T>(entries: seq<Entry<T>>, tick: int, callback: T -> Reaction)
    requires entries != []
    ensures Visited(entries, tick, callback) ==
      if entries[0].tick > tick then []
      else if callback(entries[0].value).stop then [entries[0]]
      else [entries[0]] + Visited(entries[1..], tick, callback)
  {
  }

  lemma VisitedAll<T>(was: seq<Entry<T>>, tick: int, callback: T -> Reaction)
    requires SoFar(was, |was|, tick, callback)
    ensures Visited(was, tick, callback) == was[..|was|]
  {
  }

  lemma PartitionGives<T>(entries: seq<Entry<T>>, free: seq<nat>, size: nat)
    requires IdsPartition(entries, free, size)
    ensures DistinctIds(entries)
    ensures forall id: nat :: Live(entries, id) ==> id < size && id !in free
    ensures forall i :: 0 <= i < |entries| ==> Live(entries, entries[i].id)
  {
  }

  lemma HandOut<T>(entries: seq<Entry<T>>, free: seq<nat>, size: nat)
    requires IdsPartition(entries, free, size)
    ensures free == [] ==> HandedOut(entries, free, size + 1, size)
    ensures free != [] ==> HandedOut(entries, free[1..], size, free[0])
  {
    if free != [] {
      assert free[0] in free;
      assert forall id :: id in free <==> id == free[0] || id in free[1..];
    }
  }

  lemma InsertedPartition<T>(entries: seq<Entry<T>>, free: seq<nat>, size: nat, id: nat, tick: int, value: T)
    requires HandedOut(entries, free, size, id)
    ensures !Live(entries, id) && id < size
    ensures IdsPartition(Inserted(entries, id, tick, value), free, size)
  {
    LiveInserted(entries, id, tick, value);
    forall i | 0 <= i < |entries| ensures entries[i].id != id {
      assert Live(entries, entries[i].id);
    }
  }

  lemma FreedPartition<T>(entries: seq<Entry<T>>, free: seq<nat>, size: nat, k: nat)
    requires IdsPartition(entries, free, size) && k < |entries|
    ensures IdsPartition(entries[..k] + entries[k + 1..], free + [entries[k].id], size)
  {
    PartitionGives(entries, free, size);
    LiveCut(entries, k);
    var id := entries[k].id;
    assert forall other: nat :: other in free + [id] <==> other == id || other in free;
    hide Live;
  }

  lemma MovedPartition<T>(entries: seq<Entry<T>>, free: seq<nat>, size: nat, k: nat, e: Entry<T>)
    requires IdsPartition(entries, free, size) && k < |entries| && e.id == entries[k].id
    ensures var moved := entries[..k] + entries[k + 1..] + [e];
      && IdsPartition(moved, free, size)
      && forall other: nat :: Live(moved, other) <==> Live(entries, other)
  {
    LiveMoved(entries, k, e);
  }

  lemma NotANode<T>(items: seq<Item<T>>, entries: seq<Entry<T>>, id: nat)
    requires forall i :: 0 <= i < |entries| ==> entries[i].id < |items|
    requires forall i :: 0 <= i < |items| ==> items[i].id == i
    requires id < |items| && !Live(entries, id)
    ensures items[id] !in Nodes(items, entries)
  {
  }

  lemma LiveInserted<T>(entries: seq<Entry<T>>, id: nat, tick: int, value: T)
    ensures forall other: nat ::
      Live(Inserted(entries, id, tick, value), other) <==> other == id || Live(entries, other)
  {
    var after := Inserted(entries, id, tick, value);
    assert after[|entries|].id == id;
    forall other: nat | Live(entries, other) ensures Live(after, other) {
      assert after[IndexOf(entries, other)].id == other;
    }
  }

  lemma LiveCut<T>(entries: seq<Entry<T>>, k: nat)
    requires DistinctIds(entries) && k < |entries|
    ensures var cut := entries[..k] + entries[k + 1..];
      && DistinctIds(cut)
      && forall other: nat :: Live(cut, other) <==> other != entries[k].id && Live(entries, other)
  {
    var cut := entries[..k] + entries[k + 1..];
    forall i | 0 <= i < |cut| ensures cut[i] == entries[if i < k then i else i + 1] {
    }
    forall other: nat | other != entries[k].id && Live(entries, other) ensures Live(cut, other) {
      var at := IndexOf(entries, other);
      assert cut[if at < k then at else at - 1].id == other;
    }
  }

  lemma LiveMoved<T>(entries: seq<Entry<T>>, k: nat, e: Entry<T>)
    requires DistinctIds(entries) && k < |entries| && e.id == entries[k].id
    ensures var moved := entries[..k] + entries[k + 1..] + [e];
      && DistinctIds(moved)
      && forall other: nat :: Live(moved, other) <==> Live(entries, other)
  {
    var cut := entries[..k] + entries[k + 1..];
    LiveCut(entries, k);
    LiveInserted(cut, e.id, e.tick, e.value);
    assert entries[k].id == e.id;
    forall i | 0 <= i < |cut| ensures cut[i].id != e.id {
      assert Live(cut, cut[i].id);
    }
  }
}
