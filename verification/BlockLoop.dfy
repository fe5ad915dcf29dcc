/** When the loop over the symbols of a compressed block does not end.  Past the end of the input all bits
    are zero, so every turn reads the same item; it goes on for ever exactly when that item appends nothing
    and each turn leaves as many bits in the buffer as the next one asks for. */
module BlockLoop {
  import opened Words
  import opened Canonical
  import opened Deflate
  import opened Supply
  import opened ZBuf

  // ---- the number of buffered bits ----

  /** A refill leaves 25 to 32 bits, in whole bytes more than before; `e` of them are then taken. */
  function Refilled(x: int, e: nat): (r: int)
    ensures 25 - e <= r <= 32 - e && (r - x) % 8 == 0
  {
    25 - e + (x - 25 + e) % 8
  }

  /** The buffered bits after a turn that takes codes of `a` and `b` bits and then `e` plain bits. */
  function Turn(a: nat, b: nat, e: nat, m: int): int {
    if m - a - b >= e then m - a - b - e else Refilled(m - a - b - e, e)
  }

  function Turns(a: nat, b: nat, e: nat, m: int, k: nat): int {
    if k == 0 then m else Turn(a, b, e, Turns(a, b, e, m, k - 1))
  }

  /** From `m` buffered bits on each turn needs a refill and finds its 16 bits before both codes. */
  ghost predicate Circles(a: nat, b: nat, e: nat, m: int) {
    16 + a <= m < a + b + e && forall k: nat :: 1 <= k ==> Circling(a, b, e, m, k)
  }

  predicate Circling(a: nat, b: nat, e: nat, m: int, k: nat) {
    16 + a <= Refilled(m - k * (a + b + e), e) < a + b + e
  }

  /** Eight turns are enough to find out. */
  lemma {:induction false} EightTurns(a: nat, b: nat, e: nat, m: int, k: nat)
    requires k >= 1 && forall j: nat :: 1 <= j <= 8 ==> Circling(a, b, e, m, j)
    ensures Circling(a, b, e, m, k)
  {
    if k > 8 {
      EightTurns(a, b, e, m, k - 8);
      SameRefill(m - k * (a + b + e), m - (k - 8) * (a + b + e), a + b + e, e);
    }
  }

  lemma CirclesInEight(a: nat, b: nat, e: nat, m: int)
    ensures Circles(a, b, e, m) <==>
      16 + a <= m < a + b + e && forall j: nat :: 1 <= j <= 8 ==> Circling(a, b, e, m, j)
  {
    hide Circling;
    if forall j: nat :: 1 <= j <= 8 ==> Circling(a, b, e, m, j) {
      forall k: nat | 1 <= k ensures Circling(a, b, e, m, k) {
        EightTurns(a, b, e, m, k);
      }
    }
  }

  lemma SameRefill(x: int, y: int, d: int, e: nat)
    requires y == x + 8 * d
    ensures Refilled(x, e) == Refilled(y, e)
  {
  }

  lemma RefillOfRefill(x: int, y: int, e: nat)
    ensures Refilled(Refilled(x, e) - y, e) == Refilled(x - y, e)
  {
  }

  /** Circling goes on for ever. */
  lemma CirclesOn(a: nat, b: nat, e: nat, m: int)
    requires Circles(a, b, e, m)
    ensures Turn(a, b, e, m) == Refilled(m - a - b - e, e) && Circles(a, b, e, Turn(a, b, e, m))
  {
    hide Refilled;
    var d := a + b + e;
    var m' := Refilled(m - d, e);
    assert Circling(a, b, e, m, 1);
    forall k: nat | 1 <= k ensures Circling(a, b, e, m', k) {
      assert Circling(a, b, e, m, k + 1);
      RefillOfRefill(m - d, k * d, e);
      assert (k + 1) * d == k * d + d;
    }
  }

  /** If the bits suffice for long enough then after some turns they circle. */
  lemma {:induction false} ComesRound(a: nat, b: nat, e: nat, m: int) returns (j: nat)
    requires a >= 1 && b >= 1
    requires forall k: nat :: k <= (if m > 0 then m else 0) + 10 ==> Turns(a, b, e, m, k) >= 16 + a
    ensures j <= (if m > 0 then m else 0) + 1 && Circles(a, b, e, Turns(a, b, e, m, j))
    decreases m
  {
    var d := a + b + e;
    assert Turns(a, b, e, m, 0) == m;
    if m >= d {
      var rest := m - d;
      forall k: nat | k <= rest + 10 ensures Turns(a, b, e, rest, k) >= 16 + a {
        TurnsAdd(a, b, e, m, k);
      }
      var i := ComesRound(a, b, e, rest);
      TurnsAdd(a, b, e, m, i);
      j := i + 1;
    } else {
      TurnsAdd(a, b, e, m, 0);
      var m1 := Turn(a, b, e, m);
      forall k: nat | k <= 9 ensures Turns(a, b, e, m1, k) >= 16 + a {
        TurnsAdd(a, b, e, m, k);
      }
      AllRefills(a, b, e, m1, 9);
      forall i: nat | 1 <= i <= 8 ensures Circling(a, b, e, m1, i) {
        AllRefills(a, b, e, m1, i);
      }
      AllRefills(a, b, e, m1, 0);
      CirclesInEight(a, b, e, m1);
      j := 1;
    }
  }

  lemma {:induction false} TurnsAdd(a: nat, b: nat, e: nat, m: int, k: nat)
    ensures Turns(a, b, e, m, k + 1) == Turns(a, b, e, Turn(a, b, e, m), k)
  {
    hide Turn;
    if k > 0 {
      TurnsAdd(a, b, e, m, k - 1);
    }
  }

  /** After one refill every turn that is followed by another is one. */
  lemma {:induction false} AllRefills(a: nat, b: nat, e: nat, m: int, k: nat)
    requires a >= 1 && k <= 9 && b + e >= 17 && m <= 32 - e
    requires forall i: nat :: i <= 9 ==> Turns(a, b, e, m, i) >= 16 + a
    ensures Turns(a, b, e, m, k) <= 32 - e
    ensures k <= 8 ==> Turns(a, b, e, m, k) < a + b + e
    ensures 1 <= k ==> Turns(a, b, e, m, k) == Refilled(m - k * (a + b + e), e)
  {
    hide Refilled;
    var d := a + b + e;
    if k > 0 {
      AllRefills(a, b, e, m, k - 1);
      var before := Turns(a, b, e, m, k - 1);
      assert Turns(a, b, e, m, k) == Turn(a, b, e, before) == Refilled(before - d, e);
      if k > 1 {
        RefillOfRefill(m - (k - 1) * d, d, e);
        assert m - (k - 1) * d - d == m - k * d;
      }
    }
    if k <= 8 {
      assert Turns(a, b, e, m, k + 1) == Turn(a, b, e, Turns(a, b, e, m, k)) >= 16 + a;
    }
  }

  // ---- the turns of the loop past the end of the input ----

  /** The item that zero bits stand for. */
  ghost predicate ZeroItem(c: Codes, z: Item) {
    ItemAt(c, 0, 0, z)
  }

  /** It is what can be read wherever only zeros follow. */
  lemma ZerosAhead(c: Codes, s: nat, pos: nat, it: Item)
    requires Shr(s, pos) == 0
    ensures ItemAt(c, s, pos, it) <==> ZeroItem(c, it)
  {
    hide SymbolAt, Field, LengthBase, LengthExtra, DistBase, DistExtra;
    if ItemOk(c, it) {
      if it.Literal? {
        ReadsZero(c.lit, s, pos, 0, it.b, 0);
      } else {
        var p1 := c.lit[it.lsym];
        var p2 := p1 + LengthExtra(it.lsym - 257);
        var p3 := p2 + c.dist[it.dsym];
        ReadsZero(c.lit, s, pos, 0, it.lsym, 0);
        ReadsZero(c.dist, s, pos, p1, it.dsym, LengthExtra(it.lsym - 257));
        ReadsZero(c.dist, s, pos, p2, it.dsym, 0);
        ReadsZero(c.dist, s, pos, p3, it.dsym, DistExtra(it.dsym));
        assert pos + p1 + LengthExtra(it.lsym - 257) == pos + p2 && pos + p2 + c.dist[it.dsym] == pos + p3;
      }
    }
  }

  lemma ReadsZero(lens: seq<nat>, s: nat, pos: nat, k: nat, sym: nat, n: nat)
    requires Shr(s, pos) == 0
    ensures Shr(s, pos + k) == 0
    ensures SymbolAt(lens, s, pos + k, sym) <==> SymbolAt(lens, 0, k, sym)
    ensures Field(s, pos + k, n) == Field(0, k, n)
  {
    hide Matches, Low, Shr;
    ShrAdd(s, pos, k);
  }

  lemma PastEnd(bytes: seq<byte>, c: Codes, pos: nat, it: Item)
    requires pos >= 8 * |bytes|
    ensures ItemAt(c, LittleEndian(bytes), pos, it) <==> ZeroItem(c, it)
  {
    hide ItemAt, LittleEndian, Shr;
    ZerosPastEnd(bytes, pos);
    ZerosAhead(c, LittleEndian(bytes), pos, it);
  }

  /** A copy of nothing has one of the reserved length symbols. */
  lemma EmptyCopy(c: Codes, z: Item)
    requires ZeroItem(c, z) && ItemLen(z) == 0
    ensures z.Copy? && 286 <= z.lsym <= 287 && LengthExtra(z.lsym - 257) == 0
    ensures z.lsym < |c.lit| && z.dsym < |c.dist| && z.dsym < 32
    ensures c.lit[z.lsym] >= 1 && c.dist[z.dsym] >= 1
  {
    hide Field, Shr, Code, Bit;
    if z.lsym - 257 < 29 {
      LengthPositive(z.lsym - 257);
    }
  }

  /** One turn with the zero item, when it appends nothing. */
  lemma OneTurn(size: nat, c: Codes, pos: nat, fed: nat, z: Item)
    requires c.Valid() && ZeroItem(c, z) && ItemLen(z) == 0 && 8 * size <= pos <= 8 * fed
    ensures z.Copy? && LengthSymbol(z.lsym)
    ensures var a, b, e, m := c.lit[z.lsym], c.dist[z.dsym], DistExtra(z.dsym), 8 * fed - pos;
      var pos', fed' := pos + ItemBits(c, z), FedItem(c, pos, fed, z);
      && (ItemSupplied(size, c, pos, fed, z) <==> m >= 16 + a)
      && (m >= 16 + a ==> pos' <= 8 * fed' && 8 * fed' - pos' == Turn(a, b, e, m))
  {
    hide Matches, Field, LengthBase, DistBase, LengthExtra, Kraft, DistExtra;
    EmptyCopy(c, z);
    CopySupply(size, c, pos, fed, z);
    DistExtraBits(z.dsym);
    var a, b, e, m := c.lit[z.lsym], c.dist[z.dsym], DistExtra(z.dsym), 8 * fed - pos;
    if m >= 16 + a {
      RefillFrom(fed, pos + a + b, e);
    }
  }

  /** What a refill leaves. */
  lemma RefillFrom(fed: nat, p: nat, e: nat)
    requires e <= 13
    ensures p + e <= 8 * Need(fed, p, e)
    ensures 8 * Need(fed, p, e) - p - e ==
      if 8 * fed - p >= e then 8 * fed - p - e else Refilled(8 * fed - p - e, e)
  {
  }

  /** Zero bits are an empty copy whose codes and extra bits circle from `m` buffered bits on. */
  ghost predicate Hangs(c: Codes, z: Item, m: int) {
    && ZeroItem(c, z) && ItemLen(z) == 0 && z.Copy?
    && Circles(c.lit[z.lsym], c.dist[z.dsym], DistExtra(z.dsym), m)
  }

  /** The decoder stands where only the zero item follows, for ever. */
  ghost predicate Stuck(size: nat, c: Codes, pos: nat, fed: nat, written: nat, z: Item) {
    8 * size <= pos <= 8 * fed && Hangs(c, z, 8 * fed - pos) && ItemDist(z) <= written
  }

  function ItemDist(z: Item): nat {
    if z.Copy? then z.dist else 0
  }

  // ---- stuck implies endless ----

  /** A further turn of a stuck decoder leaves it stuck and the output as it is. */
  lemma StuckTurn(d: Decoder, c: Codes, p: nat, fed: nat, n: nat, limit: nat, items: seq<Item>, z: Item)
    requires (d.expandable ==> limit > 0) && c.Valid() && d.Going(c, p, fed, n, limit, items)
    requires Stuck(|d.input|, c, After(c, p, items), FedItems(c, p, fed, items), n + TotalLen(items), z)
    ensures d.Going(c, p, fed, n, limit, items + [z])
    ensures Stuck(|d.input|, c, After(c, p, items + [z]), FedItems(c, p, fed, items + [z]),
                  n + TotalLen(items + [z]), z)
  {
    hide LittleEndian, ItemAt, ItemsAt, ItemsSupplied, After, FedItems, AppendsAll, TotalLen, ItemBits, Circles, Turn;
    hide ItemSupplied, FedItem, Repeat, DistExtra;
    var s, q, g := LittleEndian(d.input), After(c, p, items), FedItems(c, p, fed, items);
    EmptyCopy(c, z);
    var a, b, e, m := c.lit[z.lsym], c.dist[z.dsym], DistExtra(z.dsym), 8 * g - q;
    PastEnd(d.input, c, q, z);
    OneTurn(|d.input|, c, q, g, z);
    assert m >= 16 + a by { CirclesBound(a, b, e, m); }
    CirclesOn(a, b, e, m);
    var out: seq<byte>, r :| |out| == n && AppendsAll(out, items, r);
    AppendsLen(out, items, r);
    NothingAppended(r, z);
    Extend(c, s, p, out, items, r, z, r);
    ExtendSupply(|d.input|, c, p, fed, items, z);
    ItApplies(out, items + [z], r);
  }

  lemma CirclesBound(a: nat, b: nat, e: nat, m: int)
    requires Circles(a, b, e, m)
    ensures 16 + a <= m
  {
  }

  lemma NothingAppended(out: seq<byte>, z: Item)
    requires z.Copy? && z.len == 0 && z.dist <= |out|
    ensures Appends(out, z, out)
  {
  }

  lemma {:induction false} StuckGoesOn(d: Decoder, c: Codes, p: nat, fed: nat, n: nat, limit: nat, items: seq<Item>,
                                       z: Item, k: nat)
    requires (d.expandable ==> limit > 0) && c.Valid() && d.Going(c, p, fed, n, limit, items)
    requires Stuck(|d.input|, c, After(c, p, items), FedItems(c, p, fed, items), n + TotalLen(items), z)
    ensures d.GoesOn(c, p, fed, n, limit, |items| + k)
    decreases k
  {
    hide Stuck, d.Going, After, FedItems, TotalLen, Kraft;
    if k > 0 {
      StuckTurn(d, c, p, fed, n, limit, items, z);
      StuckGoesOn(d, c, p, fed, n, limit, items + [z], z, k - 1);
    }
  }

  // ---- endless implies stuck ----

  lemma {:induction false} AppendsPrefix(out: seq<byte>, items: seq<Item>, r: seq<byte>, k: nat)
    requires AppendsAll(out, items, r) && k <= |items|
    ensures Applies(|out|, items[..k])
    ensures k < |items| && items[k].Copy? ==> items[k].dist <= |out| + TotalLen(items[..k])
    decreases |items|
  {
    hide Repeat;
    if k == |items| {
      assert items[..k] == items;
    } else {
      var front := items[..|items| - 1];
      var q := r[..|r| - ItemLen(items[|items| - 1])];
      if k < |front| {
        AppendsPrefix(out, front, q, k);
        assert front[..k] == items[..k];
      } else {
        AppendsLen(out, front, q);
        ItApplies(out, front, q);
      }
    }
  }

  /** Decoding that goes on after some items goes on after their beginning, and then has the next. */
  lemma GoingPrefix(d: Decoder, c: Codes, p: nat, fed: nat, n: nat, limit: nat, items: seq<Item>, k: nat)
    requires (d.expandable ==> limit > 0) && d.Going(c, p, fed, n, limit, items) && k <= |items|
    ensures d.Going(c, p, fed, n, limit, items[..k])
    ensures k < |items| ==>
      var q, g := After(c, p, items[..k]), FedItems(c, p, fed, items[..k]);
      && ItemAt(c, LittleEndian(d.input), q, items[k]) && ItemSupplied(|d.input|, c, q, g, items[k])
      && (items[k].Copy? ==> items[k].dist <= n + TotalLen(items[..k]))
  {
    hide LittleEndian, ItemAt, ItemSupplied, ItemsAt, ItemsSupplied, AppendsAll, After, FedItems, TotalLen;
    var out: seq<byte>, r :| |out| == n && AppendsAll(out, items, r);
    AppendsPrefix(out, items, r, k);
    ItemsPrefix(c, LittleEndian(d.input), p, items, k);
    SuppliedPrefix(|d.input|, c, p, fed, items, k);
    TotalLenPrefix(items, k);
    d.FitsMonotone(limit, n + TotalLen(items[..k]), n + TotalLen(items));
  }

  lemma Next(c: Codes, p: nat, fed: nat, items: seq<Item>, k: nat)
    requires k < |items|
    ensures After(c, p, items[..k + 1]) == After(c, p, items[..k]) + ItemBits(c, items[k])
    ensures FedItems(c, p, fed, items[..k + 1])
      == FedItem(c, After(c, p, items[..k]), FedItems(c, p, fed, items[..k]), items[k])
    ensures TotalLen(items[..k + 1]) == TotalLen(items[..k]) + ItemLen(items[k])
  {
    hide ItemBits, FedItem, ItemLen;
    assert items[..k + 1][..k] == items[..k] && items[..k + 1][k] == items[k];
  }

  lemma ItemForward(c: Codes, s: nat, pos: nat, fed: nat, it: Item)
    requires c.Valid() && ItemAt(c, s, pos, it)
    ensures ItemBits(c, it) >= 1 && pos + ItemBits(c, it) <= 8 * FedItem(c, pos, fed, it)
  {
    hide Shr, Field, LengthBase, LengthExtra, DistBase, DistExtra, Kraft, Code, Bit;
    if it.Copy? {
      DistExtraBits(it.dsym);
    }
  }

  /** After as many items as the input has bits, and one more, the input is behind. */
  lemma {:induction false} ItemsForward(d: Decoder, c: Codes, p: nat, fed: nat, n: nat, limit: nat, items: seq<Item>,
                                        k: nat)
    requires (d.expandable ==> limit > 0) && c.Valid() && d.Going(c, p, fed, n, limit, items) && k <= |items|
    ensures After(c, p, items[..k]) >= p + k
    ensures k >= 1 ==> After(c, p, items[..k]) <= 8 * FedItems(c, p, fed, items[..k])
  {
    hide LittleEndian, ItemAt, d.Going, ItemBits, FedItem, ItemSupplied, FedItems, TotalLen, Kraft;
    if k == 0 {
      assert items[..0] == [];
    } else {
      hide After;
      ItemsForward(d, c, p, fed, n, limit, items, k - 1);
      GoingPrefix(d, c, p, fed, n, limit, items, k - 1);
      Next(c, p, fed, items, k - 1);
      ItemForward(c, LittleEndian(d.input), After(c, p, items[..k - 1]), FedItems(c, p, fed, items[..k - 1]),
                  items[k - 1]);
    }
  }

  /** From then on all items are the zero item. */
  lemma ZerosFollow(d: Decoder, c: Codes, p: nat, fed: nat, n: nat, limit: nat, items: seq<Item>, i: nat, k: nat)
    requires (d.expandable ==> limit > 0) && c.Valid() && d.Going(c, p, fed, n, limit, items)
    requires 8 * |d.input| <= i <= k < |items|
    ensures ZeroItem(c, items[k]) && items[k] == items[i]
  {
    hide LittleEndian, ItemAt, d.Going, After, FedItems, TotalLen, Kraft, ItemSupplied;
    ItemsForward(d, c, p, fed, n, limit, items, i);
    ItemsForward(d, c, p, fed, n, limit, items, k);
    GoingPrefix(d, c, p, fed, n, limit, items, i);
    GoingPrefix(d, c, p, fed, n, limit, items, k);
    PastEnd(d.input, c, After(c, p, items[..i]), items[i]);
    PastEnd(d.input, c, After(c, p, items[..k]), items[k]);
    ItemUnique(c, 0, 0, items[i], items[k]);
  }

  /** If the zero item appends a byte then the output outgrows every buffer. */
  lemma {:induction false} OutputGrows(d: Decoder, c: Codes, p: nat, fed: nat, n: nat, limit: nat, items: seq<Item>,
                                       i: nat, k: nat)
    requires (d.expandable ==> limit > 0) && c.Valid() && d.Going(c, p, fed, n, limit, items)
    requires 8 * |d.input| <= i < |items| && i + k <= |items| && ItemLen(items[i]) >= 1
    ensures TotalLen(items[..i + k]) >= k
  {
    hide LittleEndian, ItemAt, d.Going, After, FedItems, TotalLen, Kraft, ItemSupplied, ZeroItem;
    if k > 0 {
      OutputGrows(d, c, p, fed, n, limit, items, i, k - 1);
      ZerosFollow(d, c, p, fed, n, limit, items, i, i + k - 1);
      Next(c, p, fed, items, i + k - 1);
    }
  }

  /** The buffered bits from item `i` on. */
  lemma {:induction false} BitsFollow(d: Decoder, c: Codes, p: nat, fed: nat, n: nat, limit: nat, items: seq<Item>,
                                      i: nat, k: nat)
    requires (d.expandable ==> limit > 0) && c.Valid() && d.Going(c, p, fed, n, limit, items)
    requires 8 * |d.input| < i && i + k < |items|
    requires ItemLen(items[i]) == 0 && ZeroItem(c, items[i]) && items[i].Copy? && items[i].lsym < |c.lit|
    requires items[i].dsym < |c.dist| && items[i].dsym < 32
    ensures var z, q, g := items[i], After(c, p, items[..i + k]), FedItems(c, p, fed, items[..i + k]);
      var m := 8 * FedItems(c, p, fed, items[..i]) - After(c, p, items[..i]);
      && 8 * |d.input| <= q <= 8 * g
      && 8 * g - q == Turns(c.lit[z.lsym], c.dist[z.dsym], DistExtra(z.dsym), m, k) >= 16 + c.lit[z.lsym]
  {
    hide LittleEndian, ItemAt, d.Going, After, FedItems, TotalLen, Kraft, ItemSupplied, ZeroItem, Turn, DistExtra;
    hide FedItem, ItemBits;
    var z, q, g := items[i], After(c, p, items[..i + k]), FedItems(c, p, fed, items[..i + k]);
    ZerosFollow(d, c, p, fed, n, limit, items, i, i + k);
    ItemsForward(d, c, p, fed, n, limit, items, i + k);
    GoingPrefix(d, c, p, fed, n, limit, items, i + k);
    OneTurn(|d.input|, c, q, g, z);
    if k > 0 {
      var before := i + k - 1;
      BitsFollow(d, c, p, fed, n, limit, items, i, k - 1);
      ZerosFollow(d, c, p, fed, n, limit, items, i, before);
      Next(c, p, fed, items, before);
      OneTurn(|d.input|, c, After(c, p, items[..before]), FedItems(c, p, fed, items[..before]), z);
    }
  }

  /** After the items decoding from `p` is stuck. */
  ghost predicate StuckAfter(d: Decoder, c: Codes, p: nat, fed: nat, n: nat, limit: nat, items: seq<Item>, z: Item)
    requires d.expandable ==> limit > 0
  {
    && d.Going(c, p, fed, n, limit, items)
    && Stuck(|d.input|, c, After(c, p, items), FedItems(c, p, fed, items), n + TotalLen(items), z)
  }

  ghost predicate GetsStuck(d: Decoder, c: Codes, p: nat, fed: nat, n: nat, limit: nat)
    requires d.expandable ==> limit > 0
  {
    exists items, z :: StuckAfter(d, c, p, fed, n, limit, items, z)
  }

  /** More output than any buffer of this decoder holds. */
  function Beyond(limit: nat): nat {
    (if limit > UINT_MAX then limit else UINT_MAX) + 1
  }

  /** A decoder that goes on past the end of the input and past every buffer reads an empty copy there. */
  lemma ZeroItemIsEmpty(d: Decoder, c: Codes, p: nat, fed: nat, n: nat, limit: nat, items: seq<Item>, i: nat)
    requires (d.expandable ==> limit > 0) && c.Valid() && d.Going(c, p, fed, n, limit, items)
    requires 8 * |d.input| <= i && i + Beyond(limit) <= |items|
    ensures ItemLen(items[i]) == 0 && ZeroItem(c, items[i])
  {
    hide ItemsAt, ItemsSupplied, ZeroItem, TotalLen, Doubled, Applies, LittleEndian, Kraft;
    ZerosFollow(d, c, p, fed, n, limit, items, i, i);
    if ItemLen(items[i]) >= 1 {
      var k := Beyond(limit);
      OutputGrows(d, c, p, fed, n, limit, items, i, k);
      TotalLenPrefix(items, i + k);
    }
  }

  lemma SameBeginning(d: Decoder, c: Codes, p: nat, fed: nat, n: nat, limit: nat, a: seq<Item>, b: seq<Item>)
    requires (d.expandable ==> limit > 0) && c.Valid() && |a| <= |b|
    requires d.Going(c, p, fed, n, limit, a) && d.Going(c, p, fed, n, limit, b)
    ensures b[..|a|] == a
  {
    hide ItemsAt, ItemsSupplied, TotalLen, d.Fits, Applies, LittleEndian, Kraft;
    ItemsAgree(c, LittleEndian(d.input), p, a, b, |a|);
    assert a[..|a|] == a;
  }

  /** The loop over the symbols of a block never ends exactly when it gets stuck. */
  lemma EndlessIffStuck(d: Decoder, c: Codes, p: nat, fed: nat, n: nat, limit: nat)
    requires (d.expandable ==> limit > 0) && c.Valid()
    ensures (forall rounds :: d.GoesOn(c, p, fed, n, limit, rounds)) <==> GetsStuck(d, c, p, fed, n, limit)
  {
    hide d.Going, Stuck, Kraft, After, FedItems, TotalLen;
    if forall rounds :: d.GoesOn(c, p, fed, n, limit, rounds) {
      EndlessGetsStuck(d, c, p, fed, n, limit);
    }
    if GetsStuck(d, c, p, fed, n, limit) {
      forall rounds ensures d.GoesOn(c, p, fed, n, limit, rounds) {
        StuckForever(d, c, p, fed, n, limit, rounds);
      }
    }
  }

  lemma StuckForever(d: Decoder, c: Codes, p: nat, fed: nat, n: nat, limit: nat, rounds: nat)
    requires (d.expandable ==> limit > 0) && c.Valid() && GetsStuck(d, c, p, fed, n, limit)
    ensures d.GoesOn(c, p, fed, n, limit, rounds)
  {
    hide d.Going, Stuck, Kraft, After, FedItems, TotalLen;
    var items, z :| StuckAfter(d, c, p, fed, n, limit, items, z);
    StuckGoesOn(d, c, p, fed, n, limit, items, z, rounds);
    var all :| |all| == |items| + rounds && d.Going(c, p, fed, n, limit, all);
    GoingPrefix(d, c, p, fed, n, limit, all, rounds);
    assert |all[..rounds]| == rounds;
  }

  lemma EndlessGetsStuck(d: Decoder, c: Codes, p: nat, fed: nat, n: nat, limit: nat)
    requires (d.expandable ==> limit > 0) && c.Valid()
    requires forall rounds :: d.GoesOn(c, p, fed, n, limit, rounds)
    ensures GetsStuck(d, c, p, fed, n, limit)
  {
    hide d.Going, StuckAfter, Kraft, After, FedItems, TotalLen, ZeroItem;
    var i := 8 * |d.input| + 1;
    assert d.GoesOn(c, p, fed, n, limit, i + Beyond(limit));
    var first :| |first| == i + Beyond(limit) && d.Going(c, p, fed, n, limit, first);
    ItemsForward(d, c, p, fed, n, limit, first, i);
    var m := 8 * FedItems(c, p, fed, first[..i]) - After(c, p, first[..i]);
    var size := |first| + m + 12;
    assert d.GoesOn(c, p, fed, n, limit, size);
    var all :| |all| == size && d.Going(c, p, fed, n, limit, all);
    SameBeginning(d, c, p, fed, n, limit, first, all);
    assert all[..i] == all[..|first|][..i] == first[..i];
    LongGetsStuck(d, c, p, fed, n, limit, all, i, m);
  }

  /** Items that go on for long enough past the end of the input get stuck on the way. */
  lemma LongGetsStuck(d: Decoder, c: Codes, p: nat, fed: nat, n: nat, limit: nat, all: seq<Item>, i: nat, m: nat)
    requires (d.expandable ==> limit > 0) && c.Valid() && d.Going(c, p, fed, n, limit, all)
    requires i == 8 * |d.input| + 1 && i + Beyond(limit) + m + 12 <= |all|
    requires m == 8 * FedItems(c, p, fed, all[..i]) - After(c, p, all[..i])
    ensures GetsStuck(d, c, p, fed, n, limit)
  {
    hide d.Going, Stuck, Kraft, After, FedItems, TotalLen, Turns, ZeroItem, Circles, DistExtra, ItemLen;
    ZeroItemIsEmpty(d, c, p, fed, n, limit, all, i);
    var z := all[i];
    EmptyCopy(c, z);
    var a, b, e := c.lit[z.lsym], c.dist[z.dsym], DistExtra(z.dsym);
    forall k: nat | k <= m + 10 ensures Turns(a, b, e, m, k) >= 16 + a {
      BitsFollow(d, c, p, fed, n, limit, all, i, k);
    }
    var j := ComesRound(a, b, e, m);
    BitsFollow(d, c, p, fed, n, limit, all, i, j);
    ZerosFollow(d, c, p, fed, n, limit, all, i, i + j);
    GoingPrefix(d, c, p, fed, n, limit, all, i + j);
    ItIsStuck(|d.input|, c, After(c, p, all[..i + j]), FedItems(c, p, fed, all[..i + j]),
              n + TotalLen(all[..i + j]), z);
    assert StuckAfter(d, c, p, fed, n, limit, all[..i + j], z);
  }

  lemma ItIsStuck(size: nat, c: Codes, pos: nat, fed: nat, written: nat, z: Item)
    requires 8 * size <= pos <= 8 * fed && ZeroItem(c, z) && ItemLen(z) == 0 && z.Copy? && z.dist <= written
    requires z.lsym < |c.lit| && z.dsym < |c.dist| && z.dsym < 32
    requires Circles(c.lit[z.lsym], c.dist[z.dsym], DistExtra(z.dsym), 8 * fed - pos)
    ensures Stuck(size, c, pos, fed, written, z)
  {
    hide ZeroItem, Circles;
  }

  // ---- the codes that allow it ----

  ghost predicate CanHang(c: Codes) {
    exists z, m: nat :: Hangs(c, z, m)
  }

  ghost predicate GetsStuckSomewhere(d: Decoder, c: Codes) {
    exists p: nat, fed: nat, n: nat, limit: nat :: limit > 0 && GetsStuck(d, c, p, fed, n, limit)
  }

  /** Whatever the input, with other codes the loop ends wherever it starts; with these there is a state in
      which it does not. */
  lemma StuckSomewhereIff(d: Decoder, c: Codes)
    requires c.Valid()
    ensures GetsStuckSomewhere(d, c) <==> CanHang(c)
  {
    hide d.Going, Kraft, After, FedItems, TotalLen, Hangs;
    if GetsStuckSomewhere(d, c) {
      var p: nat, fed: nat, n: nat, limit: nat :| limit > 0 && GetsStuck(d, c, p, fed, n, limit);
      var items, z :| StuckAfter(d, c, p, fed, n, limit, items, z);
      assert Hangs(c, z, 8 * FedItems(c, p, fed, items) - After(c, p, items));
    }
    if CanHang(c) {
      var z, m: nat :| Hangs(c, z, m);
      var fed := |d.input| + m;
      StartsStuck(d, c, 8 * fed - m, fed, ItemDist(z), ItemDist(z) + 1, z);
    }
  }

  lemma StartsStuck(d: Decoder, c: Codes, p: nat, fed: nat, n: nat, limit: nat, z: Item)
    requires (d.expandable ==> limit > 0) && n <= limit && Stuck(|d.input|, c, p, fed, n, z)
    ensures GetsStuck(d, c, p, fed, n, limit) && d.Going(c, p, fed, n, limit, [])
  {
    hide Stuck;
    var out := seq(n, _ => 0 as byte);
    NothingYet(c, LittleEndian(d.input), p, out);
    NothingFed(|d.input|, c, p, fed);
    ItApplies(out, [], out);
    d.NothingGrown(limit, n);
    assert StuckAfter(d, c, p, fed, n, limit, [], z);
  }

  /** Codes that read zero bits as anything but a reserved length symbol are not among them. */
  lemma AdvancingCannotHang(c: Codes)
    requires ZerosAdvance(c)
    ensures !CanHang(c)
  {
    hide Circles, LengthBase, LengthExtra, DistBase, DistExtra, Field, Matches;
    forall z | ZeroItem(c, z) && ItemLen(z) == 0 && z.Copy? ensures false {
      EmptyCopy(c, z);
    }
  }

  /** Nor are the fixed codes: zero bits end the block. */
  lemma FixedCannotHang()
    ensures !CanHang(FixedCodes())
  {
    hide SymbolAt, FixedCodes, Circles, LengthBase, LengthExtra, DistBase, DistExtra, Field;
    forall z ensures !ZeroItem(FixedCodes(), z) {
      if ZeroItem(FixedCodes(), z) {
        FixedZerosEnd(if z.Literal? then z.b else z.lsym);
      }
    }
  }

  // ---- whole streams ----

  /** Readable blocks, none of them final, lead to a block that takes more turns than any bound. */
  ghost predicate NeverEnds(d: Decoder, blocks: seq<Block>, trace: seq<Point>, fed: nat, limit: nat)
    requires d.expandable ==> limit > 0
  {
    && (exists turns :: d.Reached(blocks, trace, fed, limit, turns))
    && forall rounds ::
      d.LongBlock(trace[|blocks|].pos, FedBefore(LittleEndian(d.input), blocks, trace, fed, |blocks|),
                  |trace[|blocks|].out|, Grown(limit, |trace[|blocks|].out|), rounds)
  }

  /** Then the decoder's only answer from there is that it ran out of turns, whatever bound it has. */
  lemma NeverEndsIsTheAnswer(d: Decoder, blocks: seq<Block>, trace: seq<Point>, fed: nat, limit: nat,
                             r: Outcome, b: seq<Block>, t: seq<Point>, rounds: nat, cause: Cause)
    requires (d.expandable ==> limit > 0) && NeverEnds(d, blocks, trace, fed, limit)
    requires d.StreamOutcome(r, b, t, trace[0], fed, limit, rounds, cause)
    ensures r == OutOfRounds
  {
    hide LittleEndian, BlockAt, BlockEnd, BlockAppends, IsFinal, d.Fits, Grown, d.BlockRefused, d.LongBlock, FedBefore;
    hide FedBlock, d.Readable, StreamSupplied;
    var s, k := LittleEndian(d.input), |blocks|;
    var turns :| d.Reached(blocks, trace, fed, limit, turns);
    var p, f, n := trace[k].pos, FedBefore(s, blocks, trace, fed, k), |trace[k].out|;
    assert d.LongBlock(p, f, n, Grown(limit, n), rounds);
    if r == Done {
      FinalIsLater(s, blocks, trace, b, t);
      d.WithinReadable(blocks, trace, fed, limit, rounds, b, t);
      d.LongIsNotReadable(p, f, n, Grown(limit, n), rounds, b[k]);
    } else if r == Failed && |b| < k {
      d.WithinReadable(b, t, fed, limit, turns, blocks, trace);
      var at := |b|;
      d.RefusedIsNotReadable(t[at].pos, FedBefore(s, b, t, fed, at), |t[at].out|, Grown(limit, |t[at].out|), rounds,
                             cause, turns, blocks[at]);
    } else if r == Failed && |b| > k {
      d.WithinReadable(blocks, trace, fed, limit, rounds, b, t);
      d.LongIsNotReadable(p, f, n, Grown(limit, n), rounds, b[k]);
    } else if r == Failed {
      BlocksAgree(s, blocks, trace, b, t, k);
      FedAgree(s, blocks, trace, b, t, fed, k);
      d.LongIsNotRefused(p, f, n, Grown(limit, n), rounds, cause);
    }
  }
}
