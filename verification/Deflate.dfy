/** What a DEFLATE stream means: RFC 1951 stated over a number whose bits are the stream,
    first bit lowest.  Nothing here mentions tables, buffers or pointers. */
module Deflate {
  import opened Words
  import opened Canonical

  function LengthBase(i: nat): nat
    requires i < 31
  {
    [
      3, 4, 5, 6, 7, 8, 9, 10, 11, 13, 15, 17, 19, 23, 27, 31, 35, 43, 51, 59,
      67, 83, 99, 115, 131, 163, 195, 227, 258, 0, 0][i]
  }

  function LengthExtra(i: nat): nat
    requires i < 31
  {
    [
      0, 0, 0, 0, 0, 0, 0, 0, 1, 1, 1, 1, 2, 2, 2, 2, 3, 3, 3, 3, 4, 4, 4, 4, 5, 5, 5, 5, 0, 0, 0][i]
  }

  function DistBase(i: nat): nat
    requires i < 32
  {
    [
      1, 2, 3, 4, 5, 7, 9, 13, 17, 25, 33, 49, 65, 97, 129, 193, 257, 385, 513, 769,
      1025, 1537, 2049, 3073, 4097, 6145, 8193, 12289, 16385, 24577, 0, 0][i]
  }

  function DistExtra(i: nat): nat
    requires i < 32
  {
    [
      0, 0, 0, 0, 1, 1, 2, 2, 3, 3, 4, 4, 5, 5, 6, 6, 7, 7, 8, 8, 9, 9, 10, 10, 11, 11, 12, 12, 13, 13, 0, 0][i]
  }

  /** RFC 1951 section 3.2.5 in closed form: four symbols for each number of extra bits, and one for 258. */
  lemma LengthTable(i: nat)
    requires i < 31
    ensures LengthExtra(i) == if i < 8 || i >= 28 then 0 else (i - 4) / 4
    ensures LengthBase(i) ==
      if i < 8 then 3 + i else if i < 28 then 3 + (4 + i % 4) * Pow2((i - 4) / 4) else if i == 28 then 258 else 0
  {
    hide Pow2;
    SmallPowers();
  }

  /** Likewise two symbols for each number of extra bits. */
  lemma DistanceTable(i: nat)
    requires i < 32
    ensures DistExtra(i) == if i < 2 || i >= 30 then 0 else i / 2 - 1
    ensures DistBase(i) ==
      if i < 2 then 1 + i else if i < 30 then 1 + (2 + i % 2) * Pow2(i / 2 - 1) else 0
  {
    hide Pow2;
    SmallPowers();
  }

  /** The lengths that a length symbol stands for follow those of the symbol before it. */
  lemma LengthsTile(i: nat)
    requires i < 27
    ensures LengthBase(0) == 3 && LengthBase(28) == 258 && LengthExtra(28) == 0
    ensures LengthBase(i + 1) == LengthBase(i) + Pow2(LengthExtra(i))
  {
    hide Pow2;
    SmallPowers();
  }

  lemma DistancesTile(i: nat)
    requires i < 29
    ensures DistBase(0) == 1 && DistBase(29) + Pow2(DistExtra(29)) == 32769
    ensures DistBase(i + 1) == DistBase(i) + Pow2(DistExtra(i))
  {
    hide Pow2;
    SmallPowers();
  }

  lemma SmallPowers()
    ensures Pow2(0) == 1 && Pow2(1) == 2 && Pow2(2) == 4 && Pow2(3) == 8 && Pow2(4) == 16 && Pow2(5) == 32
    ensures Pow2(6) == 64 && Pow2(7) == 128 && Pow2(8) == 256 && Pow2(9) == 512 && Pow2(10) == 1024
    ensures Pow2(11) == 2048 && Pow2(12) == 4096 && Pow2(13) == 8192
  {
    Pow2Values();
    assert Pow2(7) == 2 * Pow2(6) && Pow2(5) == 2 * Pow2(4) && Pow2(6) == 2 * Pow2(5);
    assert Pow2(10) == 2 * Pow2(9) && Pow2(11) == 2 * Pow2(10);
    assert Pow2(12) == 2 * Pow2(11) && Pow2(13) == 2 * Pow2(12);
  }

  /** The distance symbol `d` with suitable extra bits stands for distance `x`. */
  ghost predicate DistanceSymbolFor(d: nat, x: nat) {
    d < 30 && DistBase(d) <= x < DistBase(d) + Pow2(DistExtra(d))
  }

  ghost predicate LengthSymbolFor(l: nat, x: nat) {
    l < 29 && LengthBase(l) <= x < LengthBase(l) + Pow2(LengthExtra(l))
  }

  /** Every distance from 1 to 32768 has exactly one symbol, and no other distance has any. */
  lemma OneDistanceSymbol(x: nat)
    ensures (exists d: nat :: DistanceSymbolFor(d, x)) <==> 1 <= x <= 32768
    ensures forall d: nat, e: nat :: DistanceSymbolFor(d, x) && DistanceSymbolFor(e, x) ==> d == e
  {
    hide DistBase, DistExtra, Pow2;
    DistancesTile(0);
    if 1 <= x <= 32768 {
      var d := FindDistance(x, 29);
    }
    forall d: nat, e: nat | DistanceSymbolFor(d, x) && DistanceSymbolFor(e, x) ensures d == e {
      if d < e {
        DistancesGrow(d, e);
      } else if e < d {
        DistancesGrow(e, d);
      }
    }
    forall d: nat | DistanceSymbolFor(d, x) ensures 1 <= x <= 32768 {
      if d < 29 {
        DistancesGrow(d, 29);
      }
      if d > 0 {
        DistancesGrow(0, d);
      }
      DistanceEnds();
    }
  }

  lemma DistanceEnds()
    ensures DistBase(0) == 1 && DistBase(29) + Pow2(DistExtra(29)) == 32769 && Pow2(DistExtra(29)) == 8192
  {
    SmallPowers();
  }

  lemma {:induction false} FindDistance(x: nat, n: nat) returns (d: nat)
    requires n < 30 && 1 <= x < DistBase(n) + Pow2(DistExtra(n))
    ensures DistanceSymbolFor(d, x)
    decreases n
  {
    if x >= DistBase(n) {
      d := n;
    } else {
      DistancesTile(if n == 0 then 0 else n - 1);
      d := FindDistance(x, n - 1);
    }
  }

  lemma {:induction false} DistancesGrow(d: nat, e: nat)
    requires d < e < 30
    ensures DistBase(d) + Pow2(DistExtra(d)) <= DistBase(e)
    decreases e
  {
    DistancesTile(e - 1);
    if d < e - 1 {
      DistancesGrow(d, e - 1);
    }
  }

  lemma {:induction false} FindLength(x: nat, n: nat) returns (l: nat)
    requires 3 <= x && ((n < 28 && x < LengthBase(n) + Pow2(LengthExtra(n))) || (n == 28 && x <= 258))
    ensures LengthSymbolFor(l, x)
    decreases n
  {
    SmallPowers();
    if n == 28 && x == 258 {
      l := 28;
    } else if n == 28 {
      l := FindLength(x, 27);
    } else if x >= LengthBase(n) {
      l := n;
    } else {
      LengthsTile(if n == 0 then 0 else n - 1);
      l := FindLength(x, n - 1);
    }
  }

  lemma LengthsInRange(l: nat)
    requires l < 29
    ensures 3 <= LengthBase(l) && LengthBase(l) + Pow2(LengthExtra(l)) <= 259
  {
    hide Pow2;
    SmallPowers();
  }

  /** The lengths that have a symbol are those from 3 to 258. */
  lemma LengthsCovered(x: nat)
    ensures (exists l: nat :: LengthSymbolFor(l, x)) <==> 3 <= x <= 258
  {
    hide LengthBase, LengthExtra, Pow2;
    if 3 <= x <= 258 {
      var l := FindLength(x, 28);
    }
    forall l: nat | LengthSymbolFor(l, x) ensures 3 <= x <= 258 {
      LengthsInRange(l);
    }
  }

  /** Code lengths of a block's two alphabets. */
  datatype Codes = Codes(lit: seq<nat>, dist: seq<nat>) {
    ghost predicate Valid() {
      && IsLengths(lit) && |lit| <= 288 && Kraft(lit)
      && IsLengths(dist) && |dist| <= 32 && Kraft(dist)
    }
  }

  /** One step of a compressed block: a literal byte, or a copy that came from the literal/length
      symbol `lsym` and the distance symbol `dsym`. */
  datatype Item =
    | Literal(b: byte)
    | Copy(lsym: nat, dsym: nat, len: nat, dist: nat)

  /** `n` bits of the stream from bit `pos` on. */
  function Field(s: nat, pos: nat, n: nat): nat {
    Low(Shr(s, pos), n)
  }

  ghost predicate SymbolAt(lens: seq<nat>, s: nat, pos: nat, sym: nat) {
    sym < |lens| && Matches(lens, sym, Shr(s, pos))
  }

  ghost predicate LengthSymbol(sym: nat) {
    257 <= sym < 288
  }

  /** The number of stream bits an item takes. */
  ghost function ItemBits(c: Codes, it: Item): nat {
    if !ItemOk(c, it) then 0
    else match it
    case Literal(b) => c.lit[b]
    case Copy(l, d, _, _) => c.lit[l] + LengthExtra(l - 257) + c.dist[d] + DistExtra(d)
  }

  ghost predicate ItemOk(c: Codes, it: Item) {
    match it
    case Literal(b) => b < |c.lit|
    case Copy(l, d, _, _) => LengthSymbol(l) && l < |c.lit| && d < |c.dist| && d < 32
  }

  /** RFC 1951 section 3.2.5: the item is encoded at bit `pos`. */
  ghost predicate ItemAt(c: Codes, s: nat, pos: nat, it: Item) {
    && ItemOk(c, it)
    && match it
       case Literal(b) => SymbolAt(c.lit, s, pos, b)
       case Copy(l, d, len, dist) =>
         var p1 := pos + c.lit[l];
         var p2 := p1 + LengthExtra(l - 257);
         var p3 := p2 + c.dist[d];
         && SymbolAt(c.lit, s, pos, l)
         && len == LengthBase(l - 257) + Field(s, p1, LengthExtra(l - 257))
         && SymbolAt(c.dist, s, p2, d)
         && dist == DistBase(d) + Field(s, p3, DistExtra(d))
  }

  /** Where the stream stands after the items. */
  ghost function After(c: Codes, pos: nat, items: seq<Item>): nat {
    if items == [] then pos
    else After(c, pos, items[..|items| - 1]) + ItemBits(c, items[|items| - 1])
  }

  /** The items are encoded one after the other from bit `pos` on. */
  ghost predicate ItemsAt(c: Codes, s: nat, pos: nat, items: seq<Item>) {
    items != [] ==>
      var front := items[..|items| - 1];
      && ItemsAt(c, s, pos, front)
      && ItemAt(c, s, After(c, pos, front), items[|items| - 1])
  }

  /** A whole block body: items, then the end-of-block symbol 256. */
  ghost predicate BodyAt(c: Codes, s: nat, pos: nat, items: seq<Item>) {
    ItemsAt(c, s, pos, items) && SymbolAt(c.lit, s, After(c, pos, items), 256)
  }

  // ---- the bytes a block stands for ----

  /** RFC 1951 section 3.2.3: repeat `len` times: append the byte `dist` back. */
  function Repeat(out: seq<byte>, len: nat, dist: nat): (r: seq<byte>)
    requires 1 <= dist <= |out|
    ensures |r| == |out| + len && out <= r
  {
    if len == 0 then out
    else
      var r := Repeat(out, len - 1, dist);
      r + [r[|r| - dist]]
  }

  lemma RepeatNone(front: seq<byte>, dist: nat)
    requires 1 <= dist <= |front|
    ensures Repeat(front, 0, dist) == front
  {
  }

  lemma RepeatMore(front: seq<byte>, n: nat, dist: nat)
    requires 1 <= dist <= |front|
    ensures Repeat(front, n + 1, dist) == Repeat(front, n, dist) + [Repeat(front, n, dist)[|front| + n - dist]]
  {
  }

  ghost predicate Copies(r: seq<byte>, n: nat, dist: nat)
    requires 1 <= dist <= n
  {
    forall i :: n <= i < |r| ==> r[i] == r[i - dist]
  }

  lemma {:induction false} RepeatCopies(out: seq<byte>, len: nat, dist: nat)
    requires 1 <= dist <= |out|
    ensures Copies(Repeat(out, len, dist), |out|, dist)
  {
    if len > 0 {
      RepeatCopies(out, len - 1, dist);
      var front := Repeat(out, len - 1, dist);
      var r := front + [front[|front| - dist]];
      assert Repeat(out, len, dist) == r;
      forall i | |out| <= i < |r| ensures r[i] == r[i - dist] {
        if i < |front| {
          assert front[i] == front[i - dist];
        }
      }
    }
  }

  lemma {:induction false} OnlyRepeat(out: seq<byte>, len: nat, dist: nat, r: seq<byte>)
    requires 1 <= dist <= |out| && |r| == |out| + len && out <= r
    requires Copies(r, |out|, dist)
    ensures r == Repeat(out, len, dist)
  {
    if len == 0 {
      assert r == out;
    } else {
      OnlyRepeat(out, len - 1, dist, r[..|r| - 1]);
      assert r == r[..|r| - 1] + [r[|r| - 1]];
    }
  }

  /** Each byte of a copy equals the one `dist` before it; this and the prefix determine the copy. */
  lemma RepeatEquation(out: seq<byte>, len: nat, dist: nat, r: seq<byte>)
    requires 1 <= dist <= |out|
    ensures r == Repeat(out, len, dist)
      <==> |r| == |out| + len && out <= r && forall i :: |out| <= i < |r| ==> r[i] == r[i - dist]
  {
    hide Repeat;
    RepeatCopies(out, len, dist);
    if |r| == |out| + len && out <= r && Copies(r, |out|, dist) {
      OnlyRepeat(out, len, dist, r);
    }
  }

  /** What an item may do to the output.  A distance of zero (symbols 30 and 31, which RFC 1951
      reserves) only fixes how much is appended, not what. */
  ghost predicate Appends(out: seq<byte>, it: Item, r: seq<byte>) {
    match it
    case Literal(b) => r == out + [b]
    case Copy(_, _, len, dist) =>
      && dist <= |out|
      && |r| == |out| + len && out <= r
      && (dist >= 1 ==> r == Repeat(out, len, dist))
  }

  function ItemLen(it: Item): nat {
    if it.Literal? then 1 else it.len
  }

  ghost predicate AppendsAll(out: seq<byte>, items: seq<Item>, r: seq<byte>) {
    if items == [] then r == out
    else
      var n := |r| - ItemLen(items[|items| - 1]);
      0 <= n && AppendsAll(out, items[..|items| - 1], r[..n]) && Appends(r[..n], items[|items| - 1], r)
  }

  /** No codeword starts the stream at `pos`. */
  ghost predicate NoSymbol(lens: seq<nat>, s: nat, pos: nat) {
    forall sym: nat :: !SymbolAt(lens, s, pos, sym)
  }

  /** The stream at `pos` continues with no item and no end of block: the literal/length code or
      the distance code after it is none of the assigned ones. */
  ghost predicate NoItem(c: Codes, s: nat, pos: nat) {
    || NoSymbol(c.lit, s, pos)
    || exists l: nat :: && LengthSymbol(l) && SymbolAt(c.lit, s, pos, l)
                   && NoSymbol(c.dist, s, pos + c.lit[l] + LengthExtra(l - 257))
  }

  // ---- the stream determines the block ----

  lemma ItemUnique(c: Codes, s: nat, pos: nat, a: Item, b: Item)
    requires c.Valid() && ItemAt(c, s, pos, a) && ItemAt(c, s, pos, b)
    ensures a == b
  {
    hide Matches, LengthBase, LengthExtra, DistBase, DistExtra, Field, Shr;
    var ha := if a.Literal? then a.b else a.lsym;
    var hb := if b.Literal? then b.b else b.lsym;
    PrefixFree(c.lit, ha, hb, Shr(s, pos));
    if a.Copy? {
      PrefixFree(c.dist, a.dsym, b.dsym, Shr(s, pos + c.lit[ha] + LengthExtra(ha - 257)));
    }
  }

  lemma NotEnd(c: Codes, s: nat, pos: nat, a: Item)
    requires c.Valid() && ItemAt(c, s, pos, a)
    ensures !SymbolAt(c.lit, s, pos, 256)
  {
    hide Matches;
    if SymbolAt(c.lit, s, pos, 256) {
      PrefixFree(c.lit, if a.Literal? then a.b else a.lsym, 256, Shr(s, pos));
    }
  }

  lemma {:induction false} ItemsPrefix(c: Codes, s: nat, pos: nat, items: seq<Item>, n: nat)
    requires ItemsAt(c, s, pos, items) && n <= |items|
    ensures ItemsAt(c, s, pos, items[..n])
    ensures n < |items| ==> ItemAt(c, s, After(c, pos, items[..n]), items[n])
  {
    if n < |items| - 1 {
      var front := items[..|items| - 1];
      ItemsPrefix(c, s, pos, front, n);
      assert front[..n] == items[..n];
    } else if n == |items| {
      assert items[..n] == items;
    }
  }

  lemma PrefixStep<T>(a: seq<T>, b: seq<T>, n: nat)
    requires 0 < n <= |a| && n <= |b| && a[..n - 1] == b[..n - 1] && a[n - 1] == b[n - 1]
    ensures a[..n] == b[..n]
  {
    assert a[..n] == a[..n - 1] + [a[n - 1]];
    assert b[..n] == b[..n - 1] + [b[n - 1]];
  }

  lemma {:induction false} ItemsAgree(c: Codes, s: nat, pos: nat, a: seq<Item>, b: seq<Item>, n: nat)
    requires c.Valid() && ItemsAt(c, s, pos, a) && ItemsAt(c, s, pos, b)
    requires n <= |a| && n <= |b|
    ensures a[..n] == b[..n]
  {
    if n > 0 {
      hide After, ItemAt, ItemsAt, Kraft;
      ItemsAgree(c, s, pos, a, b, n - 1);
      ItemsPrefix(c, s, pos, a, n - 1);
      ItemsPrefix(c, s, pos, b, n - 1);
      ItemUnique(c, s, After(c, pos, a[..n - 1]), a[n - 1], b[n - 1]);
      PrefixStep(a, b, n);
    }
  }

  /** Two readings of a block body from one place are the same reading. */
  lemma BodyUnique(c: Codes, s: nat, pos: nat, a: seq<Item>, b: seq<Item>)
    requires c.Valid() && BodyAt(c, s, pos, a) && BodyAt(c, s, pos, b)
    ensures a == b
  {
    hide After, ItemAt, ItemsAt, Kraft;
    var n := if |a| <= |b| then |a| else |b|;
    ItemsAgree(c, s, pos, a, b, n);
    assert a[..|a|] == a && b[..|b|] == b;
    if n < |a| {
      ItemsPrefix(c, s, pos, a, n);
      NotEnd(c, s, After(c, pos, a[..n]), a[n]);
    } else if n < |b| {
      ItemsPrefix(c, s, pos, b, n);
      NotEnd(c, s, After(c, pos, b[..n]), b[n]);
    }
  }

  /** Without reserved distances, the items determine the output. */
  lemma {:induction false} OutputUnique(out: seq<byte>, items: seq<Item>, r: seq<byte>, q: seq<byte>)
    requires AppendsAll(out, items, r) && AppendsAll(out, items, q)
    requires forall it :: it in items && it.Copy? ==> it.dist >= 1
    ensures r == q
  {
    if items != [] {
      var last := items[|items| - 1];
      var front := items[..|items| - 1];
      assert last in items;
      OutputUnique(out, front, r[..|r| - ItemLen(last)], q[..|q| - ItemLen(last)]);
    }
  }

  // ---- stored blocks, section 3.2.4 ----

  /** The next byte boundary. */
  function AlignByte(pos: nat): (p: nat)
    ensures pos <= p < pos + 8 && p % 8 == 0
  {
    (pos + 7) / 8 * 8
  }

  ghost predicate StoredHeader(s: nat, pos: nat) {
    Field(s, AlignByte(pos) + 16, 16) == 0xFFFF - Field(s, AlignByte(pos), 16)
  }

  ghost predicate StoredAt(s: nat, pos: nat, data: seq<byte>) {
    && StoredHeader(s, pos)
    && |data| == Field(s, AlignByte(pos), 16)
    && forall i :: 0 <= i < |data| ==> data[i] == Field(s, AlignByte(pos) + 32 + 8 * i, 8)
  }

  // ---- dynamic Huffman codes, section 3.2.7 ----

  /** The alphabet position of the `i`th transmitted code length code. */
  function CodeLengthOrder(i: nat): (r: nat)
    requires i < 19
    ensures r < 19
  {
    [16, 17, 18, 0, 8, 7, 9, 6, 10, 5, 11, 4, 12, 3, 13, 2, 14, 1, 15][i]
  }

  /** One symbol of the run-length code for code lengths. */
  datatype Run =
    | Len(len: nat)
    | Again(n: nat)
    | Zeros(sym: nat, n: nat)

  ghost predicate RunOk(cl: seq<nat>, r: Run) {
    && |cl| == 19
    && (r.Len? ==> r.len <= MaxLen)
    && (r.Zeros? ==> r.sym == 17 || r.sym == 18)
  }

  ghost function RunBits(cl: seq<nat>, r: Run): nat {
    if !RunOk(cl, r) then 0
    else match r
      case Len(l) => cl[l]
      case Again(_) => cl[16] + 2
      case Zeros(sym, _) => cl[sym] + (if sym == 17 then 3 else 7)
  }

  ghost predicate RunAt(cl: seq<nat>, s: nat, pos: nat, r: Run) {
    && RunOk(cl, r)
    && match r
       case Len(l) => SymbolAt(cl, s, pos, l)
       case Again(n) => SymbolAt(cl, s, pos, 16) && n == 3 + Field(s, pos + cl[16], 2)
       case Zeros(sym, n) =>
         && SymbolAt(cl, s, pos, sym)
         && n == if sym == 17 then 3 + Field(s, pos + cl[17], 3) else 11 + Field(s, pos + cl[18], 7)
  }

  ghost function RunsAfter(cl: seq<nat>, pos: nat, runs: seq<Run>): nat {
    if runs == [] then pos
    else RunsAfter(cl, pos, runs[..|runs| - 1]) + RunBits(cl, runs[|runs| - 1])
  }

  /** The code lengths the runs stand for; `Again` repeats the one before it. */
  function Lens(runs: seq<Run>): seq<nat> {
    if runs == [] then []
    else AddRun(Lens(runs[..|runs| - 1]), runs[|runs| - 1])
  }

  function AddRun(lens: seq<nat>, r: Run): (q: seq<nat>)
  {
    match r
    case Len(l) => lens + [l]
    case Again(n) => lens + seq(n, _ => if lens == [] then 0 else lens[|lens| - 1])
    case Zeros(_, n) => lens + seq(n, _ => 0)
  }

  ghost predicate RunsAt(cl: seq<nat>, s: nat, pos: nat, runs: seq<Run>) {
    runs != [] ==>
      var front, last := runs[..|runs| - 1], runs[|runs| - 1];
      && RunsAt(cl, s, pos, front)
      && RunAt(cl, s, RunsAfter(cl, pos, front), last)
      && (last.Again? ==> Lens(front) != [])
  }

  datatype Header = Header(cl: seq<nat>, runs: seq<Run>)

  function Hlit(s: nat, pos: nat): nat { Field(s, pos, 5) + 257 }
  function Hdist(s: nat, pos: nat): nat { Field(s, pos + 5, 5) + 1 }
  function Hclen(s: nat, pos: nat): nat { Field(s, pos + 10, 4) + 4 }

  ghost predicate CodeLengthsAt(s: nat, pos: nat, hclen: nat, cl: seq<nat>) {
    && |cl| == 19
    && forall i :: 0 <= i < 19 ==> cl[CodeLengthOrder(i)] == if i < hclen then Field(s, pos + 3 * i, 3) else 0
  }

  /** The code lengths can be read at `pos`. */
  ghost predicate LengthsAt(s: nat, pos: nat, h: Header) {
    && CodeLengthsAt(s, pos + 14, Hclen(s, pos), h.cl) && Kraft(h.cl)
    && RunsAt(h.cl, s, RunsStart(s, pos), h.runs)
    && |Lens(h.runs)| == Hlit(s, pos) + Hdist(s, pos)
  }

  /** They can be read and make two prefix codes. */
  ghost predicate HeaderAt(s: nat, pos: nat, h: Header) {
    LengthsAt(s, pos, h) && HeaderCodes(s, pos, h).Valid()
  }

  function RunsStart(s: nat, pos: nat): nat {
    pos + 14 + 3 * Hclen(s, pos)
  }

  ghost function HeaderCodes(s: nat, pos: nat, h: Header): Codes {
    if |Lens(h.runs)| == Hlit(s, pos) + Hdist(s, pos) then
      Codes(Lens(h.runs)[..Hlit(s, pos)], Lens(h.runs)[Hlit(s, pos)..])
    else
      Codes([], [])
  }

  /** A run appends `count` copies of `fill`. */
  lemma AddRunFill(lens: seq<nat>, r: Run, fill: nat, count: nat)
    requires match r
             case Len(l) => fill == l && count == 1
             case Again(n) => count == n && fill == if lens == [] then 0 else lens[|lens| - 1]
             case Zeros(_, n) => count == n && fill == 0
    ensures AddRun(lens, r) == lens + seq(count, _ => fill)
  {
  }

  lemma {:induction false} LensBound(cl: seq<nat>, s: nat, pos: nat, runs: seq<Run>)
    requires RunsAt(cl, s, pos, runs)
    ensures IsLengths(Lens(runs))
  {
    if runs != [] {
      hide Field, SymbolAt, RunsAfter;
      LensBound(cl, s, pos, runs[..|runs| - 1]);
    }
  }

  lemma ExtendRuns(cl: seq<nat>, s: nat, pos: nat, runs: seq<Run>, r: Run)
    requires RunsAt(cl, s, pos, runs) && RunAt(cl, s, RunsAfter(cl, pos, runs), r)
    requires r.Again? ==> Lens(runs) != []
    ensures RunsAt(cl, s, pos, runs + [r])
    ensures RunsAfter(cl, pos, runs + [r]) == RunsAfter(cl, pos, runs) + RunBits(cl, r)
    ensures Lens(runs + [r]) == AddRun(Lens(runs), r)
  {
    hide RunAt, RunBits, AddRun;
    var all := runs + [r];
    assert all[..|all| - 1] == runs && all[|all| - 1] == r;
  }

  // ---- the stream determines the dynamic codes ----

  function CodeLengthRank(r: nat): nat {
    if r == 16 then 0 else if r == 17 then 1 else if r == 18 then 2 else if r == 0 then 3
    else if r >= 8 then 2 * (r - 8) + 4 else 2 * (7 - r) + 5
  }

  lemma OrderInverse(i: nat)
    requires i < 19
    ensures CodeLengthRank(CodeLengthOrder(i)) == i
  {
  }

  lemma OrderOnto(r: nat)
    requires r < 19
    ensures CodeLengthRank(r) < 19 && CodeLengthOrder(CodeLengthRank(r)) == r
  {
  }

  lemma CodeLengthsUnique(s: nat, pos: nat, hclen: nat, a: seq<nat>, b: seq<nat>)
    requires CodeLengthsAt(s, pos, hclen, a) && CodeLengthsAt(s, pos, hclen, b)
    ensures a == b
  {
    hide Field, CodeLengthOrder, CodeLengthRank;
    forall r | 0 <= r < 19 ensures a[r] == b[r] {
      OrderOnto(r);
      assert a[CodeLengthOrder(CodeLengthRank(r))] == b[CodeLengthOrder(CodeLengthRank(r))];
    }
  }

  lemma CodeLengthsBound(s: nat, pos: nat, hclen: nat, cl: seq<nat>)
    requires CodeLengthsAt(s, pos, hclen, cl)
    ensures IsLengths(cl)
  {
    hide CodeLengthOrder, CodeLengthRank, Shr;
    Pow2Values();
    forall r | 0 <= r < 19 ensures cl[r] <= MaxLen {
      OrderOnto(r);
      var i := CodeLengthRank(r);
      assert cl[CodeLengthOrder(i)] == if i < hclen then Field(s, pos + 3 * i, 3) else 0;
    }
  }

  lemma RunUnique(cl: seq<nat>, s: nat, pos: nat, a: Run, b: Run)
    requires IsLengths(cl) && Kraft(cl) && RunAt(cl, s, pos, a) && RunAt(cl, s, pos, b)
    ensures a == b
  {
    hide Matches, Kraft, Field;
    PrefixFree(cl, RunSymbol(a), RunSymbol(b), Shr(s, pos));
  }

  function RunSymbol(r: Run): nat {
    match r
    case Len(l) => l
    case Again(_) => 16
    case Zeros(sym, _) => sym
  }

  lemma {:induction false} RunsPrefix(cl: seq<nat>, s: nat, pos: nat, runs: seq<Run>, n: nat)
    requires RunsAt(cl, s, pos, runs) && n <= |runs|
    ensures RunsAt(cl, s, pos, runs[..n])
    ensures n < |runs| ==>
      && RunAt(cl, s, RunsAfter(cl, pos, runs[..n]), runs[n])
      && (runs[n].Again? ==> Lens(runs[..n]) != [])
    ensures |Lens(runs[..n])| + (|runs| - n) <= |Lens(runs)|
    ensures n < |runs| ==> |Lens(runs[..n])| + |AddRun([], runs[n])| <= |Lens(runs)|
  {
    if n == |runs| {
      assert runs[..n] == runs;
    } else {
      var front := runs[..|runs| - 1];
      RunGrows(cl, s, RunsAfter(cl, pos, front), Lens(front), runs[|runs| - 1]);
      if n < |front| {
        RunsPrefix(cl, s, pos, front, n);
        assert front[..n] == runs[..n];
      }
    }
  }

  lemma RunGrows(cl: seq<nat>, s: nat, pos: nat, lens: seq<nat>, r: Run)
    requires RunAt(cl, s, pos, r)
    ensures |AddRun(lens, r)| == |lens| + |AddRun([], r)| >= |lens| + 1
  {
    hide SymbolAt, Field;
  }

  lemma {:induction false} RunsAgree(cl: seq<nat>, s: nat, pos: nat, a: seq<Run>, b: seq<Run>, n: nat)
    requires IsLengths(cl) && Kraft(cl) && RunsAt(cl, s, pos, a) && RunsAt(cl, s, pos, b)
    requires n <= |a| && n <= |b|
    ensures a[..n] == b[..n]
  {
    if n > 0 {
      hide RunsAfter, RunAt, RunsAt, Kraft, Lens, AddRun, IsLengths;
      RunsAgree(cl, s, pos, a, b, n - 1);
      RunsPrefix(cl, s, pos, a, n - 1);
      RunsPrefix(cl, s, pos, b, n - 1);
      var p := RunsAfter(cl, pos, a[..n - 1]);
      assert RunAt(cl, s, p, a[n - 1]) && RunAt(cl, s, p, b[n - 1]);
      RunUnique(cl, s, p, a[n - 1], b[n - 1]);
      PrefixStep(a, b, n);
    }
  }

  /** A dynamic header is determined by the stream: if `runs` are readable, stand for fewer code
      lengths than wanted, and the header `h` is there, then `h` continues with a further run. */
  lemma HeaderContinues(s: nat, pos: nat, cl: seq<nat>, runs: seq<Run>, h: Header)
    requires LengthsAt(s, pos, h) && CodeLengthsAt(s, pos + 14, Hclen(s, pos), cl)
    requires RunsAt(cl, s, RunsStart(s, pos), runs)
    requires |Lens(runs)| < Hlit(s, pos) + Hdist(s, pos)
    ensures h.cl == cl && |runs| < |h.runs| && h.runs[..|runs|] == runs
    ensures RunAt(cl, s, RunsAfter(cl, RunsStart(s, pos), runs), h.runs[|runs|])
    ensures h.runs[|runs|].Again? ==> Lens(runs) != []
    ensures |Lens(runs)| + |AddRun([], h.runs[|runs|])| <= Hlit(s, pos) + Hdist(s, pos)
  {
    hide Field, RunsAt, RunAt, RunsAfter, Kraft, Lens, AddRun;
    CodeLengthsUnique(s, pos + 14, Hclen(s, pos), cl, h.cl);
    CodeLengthsBound(s, pos + 14, Hclen(s, pos), cl);
    var n := |runs|;
    assert runs[..n] == runs && h.runs[..|h.runs|] == h.runs;
    if |h.runs| <= n {
      RunsAgree(cl, s, RunsStart(s, pos), runs, h.runs, |h.runs|);
      RunsPrefix(cl, s, RunsStart(s, pos), runs, |h.runs|);
    } else {
      RunsAgree(cl, s, RunsStart(s, pos), runs, h.runs, n);
      RunsPrefix(cl, s, RunsStart(s, pos), h.runs, n);
    }
  }

  lemma HeaderUnique(s: nat, pos: nat, a: Header, b: Header)
    requires LengthsAt(s, pos, a) && LengthsAt(s, pos, b)
    ensures a == b
  {
    hide Field, RunAt, RunsAfter, Kraft, AddRun;
    CodeLengthsUnique(s, pos + 14, Hclen(s, pos), a.cl, b.cl);
    CodeLengthsBound(s, pos + 14, Hclen(s, pos), a.cl);
    var n := if |a.runs| <= |b.runs| then |a.runs| else |b.runs|;
    RunsAgree(a.cl, s, RunsStart(s, pos), a.runs, b.runs, n);
    assert a.runs[..|a.runs|] == a.runs && b.runs[..|b.runs|] == b.runs;
    RunsPrefix(a.cl, s, RunsStart(s, pos), a.runs, n);
    RunsPrefix(a.cl, s, RunsStart(s, pos), b.runs, n);
  }

  // ---- fixed Huffman codes, section 3.2.6 ----

  function FixedLength(i: nat): nat {
    if i <= 143 then 8 else if i <= 255 then 9 else if i <= 279 then 7 else 8
  }

  function FixedCodes(): Codes {
    Codes(seq(288, i requires 0 <= i => FixedLength(i)), seq(32, _ => 5))
  }

  lemma {:induction false} FixedKraftSum(n: nat)
    requires n <= 288
    ensures KraftUpTo(FixedCodes().lit, MaxLen, n) ==
      if n <= 144 then 128 * n
      else if n <= 256 then 128 * 144 + 64 * (n - 144)
      else if n <= 280 then 128 * 144 + 64 * 112 + 256 * (n - 256)
      else 128 * 144 + 64 * 112 + 256 * 24 + 128 * (n - 280)
  {
    if n > 0 {
      assert Pow2(6) == 64 && Pow2(7) == 128 && Pow2(8) == 256;
      hide Pow2;
      FixedKraftSum(n - 1);
    }
  }

  lemma {:induction false} FixedDistKraftSum(n: nat)
    requires n <= 32
    ensures KraftUpTo(FixedCodes().dist, MaxLen, n) == 1024 * n
  {
    if n > 0 {
      FixedDistKraftSum(n - 1);
      Pow2Values();
      assert Pow2(9) == 512 && Pow2(10) == 1024;
    }
  }

  lemma FixedCodesValid()
    ensures FixedCodes().Valid() && |FixedCodes().lit| == 288 && |FixedCodes().dist| == 32
  {
    FixedKraftSum(288);
    FixedDistKraftSum(32);
    Pow2Values();
    hide Pow2, KraftUpTo;
  }

  /** The fixed codes leave no bit pattern unassigned: every stream starts with one of their codewords. */
  lemma FixedCodesComplete(stream: nat)
    ensures Covered(FixedCodes().lit, stream) && Covered(FixedCodes().dist, stream)
  {
    FixedKraftSum(288);
    FixedDistKraftSum(32);
    FixedCodesValid();
    Pow2Values();
    hide FixedCodes, Kraft, KraftUpTo, Matches;
    CompleteIff(FixedCodes().lit);
    CompleteIff(FixedCodes().dist);
  }

  /** No fixed code is shorter than 7 bits, and no symbol before 256 has one of 7 bits. */
  lemma {:induction false} FixedCounts(l: nat, n: nat)
    requires l <= 7 && n <= (if l == 7 then 256 else 288)
    ensures Count(FixedCodes().lit, l, n) == 0
  {
    if n > 0 {
      FixedCounts(l, n - 1);
    }
  }

  lemma {:induction false} FixedFirstCode(l: nat)
    requires l <= 7
    ensures FirstCode(FixedCodes().lit, l) == 0
  {
    if l > 0 {
      FixedFirstCode(l - 1);
      FixedCounts(l - 1, 288);
    }
  }

  lemma FixedEndOfBlock()
    ensures FixedCodes().lit[256] == 7 && Code(FixedCodes().lit, 256) == 0
  {
    FixedFirstCode(7);
    FixedCounts(7, 256);
    hide FirstCode, Count;
  }

  /** A codeword of zeros starts a stream of zeros. */
  lemma ZeroCodeMatches(lens: seq<nat>, i: nat)
    requires i < |lens| && lens[i] > 0 && Code(lens, i) == 0
    ensures SymbolAt(lens, 0, 0, i)
  {
    hide Code, Bit;
    assert Shr(0, 0) == 0;
    forall k | 0 <= k < lens[i] ensures Bit(0, k) == Bit(Code(lens, i), lens[i] - 1 - k) {
      BitZero(k);
      BitZero(lens[i] - 1 - k);
    }
  }

  /** With the fixed codes zero bits are the end of the block. */
  lemma FixedZerosEnd(sym: nat)
    ensures SymbolAt(FixedCodes().lit, 0, 0, 256)
    ensures SymbolAt(FixedCodes().lit, 0, 0, sym) ==> sym == 256
  {
    hide Shr, Code, FixedCodes, Kraft, Matches;
    FixedCodesValid();
    FixedEndOfBlock();
    ZeroCodeMatches(FixedCodes().lit, 256);
    if SymbolAt(FixedCodes().lit, 0, 0, sym) {
      PrefixFree(FixedCodes().lit, sym, 256, Shr(0, 0));
    }
  }

  // ---- whole streams, section 3.2.3 ----

  datatype Block =
    | Stored(data: seq<byte>)
    | Fixed(items: seq<Item>)
    | Dynamic(header: Header, items: seq<Item>)

  /** A block with its three header bits starts at `pos`. */
  ghost predicate BlockAt(s: nat, pos: nat, b: Block) {
    match b
    case Stored(data) => Field(s, pos + 1, 2) == 0 && StoredAt(s, pos + 3, data)
    case Fixed(items) => Field(s, pos + 1, 2) == 1 && BodyAt(FixedCodes(), s, pos + 3, items)
    case Dynamic(h, items) =>
      && Field(s, pos + 1, 2) == 2 && HeaderAt(s, pos + 3, h)
      && BodyAt(HeaderCodes(s, pos + 3, h), s, RunsAfter(h.cl, RunsStart(s, pos + 3), h.runs), items)
  }

  ghost predicate IsFinal(s: nat, pos: nat) {
    Field(s, pos, 1) == 1
  }

  ghost function BlockEnd(s: nat, pos: nat, b: Block): nat
    requires BlockAt(s, pos, b)
  {
    match b
    case Stored(data) => AlignByte(pos + 3) + 32 + 8 * |data|
    case Fixed(items) => After(FixedCodes(), pos + 3, items) + FixedCodes().lit[256]
    case Dynamic(h, items) =>
      var c := HeaderCodes(s, pos + 3, h);
      After(c, RunsAfter(h.cl, RunsStart(s, pos + 3), h.runs), items) + c.lit[256]
  }

  ghost predicate BlockAppends(out: seq<byte>, b: Block, r: seq<byte>) {
    match b
    case Stored(data) => r == out + data
    case Fixed(items) => AppendsAll(out, items, r)
    case Dynamic(_, items) => AppendsAll(out, items, r)
  }

  /** Where decoding stands between two blocks. */
  datatype Point = Point(pos: nat, out: seq<byte>)

  /** `blocks` are encoded one after the other, the first starting at `trace[0].pos`, and
      `trace[i]` is where the stream and the output stand before block `i`. */
  ghost predicate BlocksAt(s: nat, blocks: seq<Block>, trace: seq<Point>) {
    && |trace| == |blocks| + 1
    && forall i :: 0 <= i < |blocks| ==>
         && BlockAt(s, trace[i].pos, blocks[i])
         && trace[i + 1].pos == BlockEnd(s, trace[i].pos, blocks[i])
         && BlockAppends(trace[i].out, blocks[i], trace[i + 1].out)
  }

  /** A complete stream: only the last block is marked final. */
  ghost predicate StreamAt(s: nat, blocks: seq<Block>, trace: seq<Point>) {
    && BlocksAt(s, blocks, trace) && blocks != []
    && forall i :: 0 <= i < |blocks| ==> (IsFinal(s, trace[i].pos) <==> i == |blocks| - 1)
  }

  // ---- the stream determines the blocks ----

  lemma BlockUnique(s: nat, pos: nat, a: Block, b: Block)
    requires BlockAt(s, pos, a) && BlockAt(s, pos, b)
    ensures a == b
  {
    hide Field, BodyAt, LengthsAt, Kraft, AlignByte, FixedCodes, RunsAfter, HeaderCodes, RunsStart, StoredHeader;
    FixedCodesValid();
    match a {
      case Stored(data) =>
        assert a.data == b.data;
      case Fixed(items) =>
        BodyUnique(FixedCodes(), s, pos + 3, items, b.items);
      case Dynamic(h, items) =>
        HeaderUnique(s, pos + 3, h, b.header);
        BodyUnique(HeaderCodes(s, pos + 3, h), s, RunsAfter(h.cl, RunsStart(s, pos + 3), h.runs), items, b.items);
    }
  }

  /** How much a block appends, whatever the output before it. */
  function BlockLen(b: Block): nat {
    if b.Stored? then |b.data| else TotalLen(b.items)
  }

  function TotalLen(items: seq<Item>): nat {
    if items == [] then 0 else TotalLen(items[..|items| - 1]) + ItemLen(items[|items| - 1])
  }

  lemma {:induction false} AppendsLen(out: seq<byte>, items: seq<Item>, r: seq<byte>)
    requires AppendsAll(out, items, r)
    ensures |r| == |out| + TotalLen(items)
  {
    if items != [] {
      var last := items[|items| - 1];
      AppendsLen(out, items[..|items| - 1], r[..|r| - ItemLen(last)]);
    }
  }

  lemma BlockAppendsLen(out: seq<byte>, b: Block, r: seq<byte>)
    requires BlockAppends(out, b, r)
    ensures |r| == |out| + BlockLen(b)
  {
    if !b.Stored? {
      AppendsLen(out, b.items, r);
    }
  }

  /** From the same starting point two readings of a stream agree block by block. */
  lemma {:induction false} BlocksAgree(s: nat, a: seq<Block>, ta: seq<Point>, b: seq<Block>, tb: seq<Point>, n: nat)
    requires BlocksAt(s, a, ta) && BlocksAt(s, b, tb) && n <= |a| && n <= |b|
    requires ta[0].pos == tb[0].pos && |ta[0].out| == |tb[0].out|
    ensures a[..n] == b[..n] && ta[n].pos == tb[n].pos && |ta[n].out| == |tb[n].out|
  {
    hide BlockAt, BlockEnd, BlockAppends;
    if n > 0 {
      BlocksAgree(s, a, ta, b, tb, n - 1);
      assert ta[n - 1 + 1].pos == BlockEnd(s, ta[n - 1].pos, a[n - 1]);
      assert tb[n - 1 + 1].pos == BlockEnd(s, tb[n - 1].pos, b[n - 1]);
      BlockUnique(s, ta[n - 1].pos, a[n - 1], b[n - 1]);
      BlockAppendsLen(ta[n - 1].out, a[n - 1], ta[n - 1 + 1].out);
      BlockAppendsLen(tb[n - 1].out, b[n - 1], tb[n - 1 + 1].out);
      PrefixStep(a, b, n);
    }
  }

  ghost predicate NoReserved(items: seq<Item>) {
    forall it :: it in items && it.Copy? ==> it.dist >= 1
  }

  /** No copy of the block uses a reserved distance symbol. */
  ghost predicate Regular(b: Block) {
    b.Stored? || NoReserved(b.items)
  }

  /** A stream has one reading; without reserved distances it has one output. */
  lemma {:induction false} StreamUnique(s: nat, a: seq<Block>, ta: seq<Point>, b: seq<Block>, tb: seq<Point>)
    requires StreamAt(s, a, ta) && StreamAt(s, b, tb) && ta[0] == tb[0]
    ensures a == b && ta[|a|].pos == tb[|a|].pos
    ensures (forall i :: 0 <= i < |a| ==> Regular(a[i])) ==> ta == tb
  {
    hide BlockAt, BlockEnd, BlockAppends, IsFinal, Regular;
    var n := if |a| <= |b| then |a| else |b|;
    BlocksAgree(s, a, ta, b, tb, n - 1);
    BlocksAgree(s, a, ta, b, tb, n);
    assert IsFinal(s, ta[n - 1].pos) <==> n - 1 == |a| - 1;
    assert IsFinal(s, tb[n - 1].pos) <==> n - 1 == |b| - 1;
    assert a[..n] == a && b[..n] == b;
    if forall i :: 0 <= i < |a| ==> Regular(a[i]) {
      SameTrace(s, a, ta, tb, n);
      assert ta[..n + 1] == ta && tb[..n + 1] == tb;
    }
  }

  lemma {:induction false} SameTrace(s: nat, a: seq<Block>, ta: seq<Point>, tb: seq<Point>, n: nat)
    requires BlocksAt(s, a, ta) && BlocksAt(s, a, tb) && ta[0] == tb[0] && n <= |a|
    requires forall i :: 0 <= i < |a| ==> Regular(a[i])
    ensures ta[..n + 1] == tb[..n + 1]
  {
    hide BlockAt, BlockEnd, BlockAppends, Regular;
    if n > 0 {
      SameTrace(s, a, ta, tb, n - 1);
      assert ta[n - 1] == ta[..n][n - 1] == tb[..n][n - 1] == tb[n - 1];
      assert ta[n - 1 + 1].pos == BlockEnd(s, ta[n - 1].pos, a[n - 1]) == tb[n - 1 + 1].pos;
      OneOutput(ta[n - 1].out, a[n - 1], ta[n - 1 + 1].out, tb[n - 1 + 1].out);
      PrefixStep(ta, tb, n + 1);
    }
  }

  lemma OneOutput(out: seq<byte>, b: Block, r: seq<byte>, q: seq<byte>)
    requires BlockAppends(out, b, r) && BlockAppends(out, b, q) && Regular(b)
    ensures r == q
  {
    if !b.Stored? {
      OutputUnique(out, b.items, r, q);
    }
  }

  /** Whatever the `n` bytes of output are, no block at `pos` can be read and applied to them. */
  ghost predicate Hopeless(s: nat, pos: nat, n: nat) {
    forall b, out, r :: |out| == n && BlockAt(s, pos, b) ==> !BlockAppends(out, b, r)
  }

  lemma NotHopeless(s: nat, blocks: seq<Block>, trace: seq<Point>, k: nat)
    requires BlocksAt(s, blocks, trace) && k < |blocks|
    ensures !Hopeless(s, trace[k].pos, |trace[k].out|)
  {
    hide BlockAt, BlockEnd, BlockAppends;
    assert BlockAppends(trace[k].out, blocks[k], trace[k + 1].out);
  }

  /** If readable non-final blocks lead to such a point then there is no complete stream. */
  lemma HopelessStream(s: nat, a: seq<Block>, ta: seq<Point>, b: seq<Block>, tb: seq<Point>)
    requires BlocksAt(s, a, ta) && forall i :: 0 <= i < |a| ==> !IsFinal(s, ta[i].pos)
    requires Hopeless(s, ta[|a|].pos, |ta[|a|].out|)
    requires |tb| > 0 && ta[0].pos == tb[0].pos && |ta[0].out| == |tb[0].out|
    ensures !StreamAt(s, b, tb)
  {
    hide BlockAt, BlockEnd, BlockAppends, IsFinal;
    if StreamAt(s, b, tb) {
      if |b| <= |a| {
        BlocksAgree(s, a, ta, b, tb, |b| - 1);
      } else {
        BlocksAgree(s, a, ta, b, tb, |a|);
        NotHopeless(s, b, tb, |a|);
      }
    }
  }

  /** After `n` bytes of output and the items, the stream goes on with an unassigned code or with a
      copy from before the output. */
  ghost predicate Broken(c: Codes, s: nat, pos: nat, n: nat, items: seq<Item>) {
    && ItemsAt(c, s, pos, items)
    && var p := After(c, pos, items);
       || NoItem(c, s, p)
       || exists it :: ItemAt(c, s, p, it) && it.Copy? && it.dist > n + TotalLen(items)
  }

  /** A block body that breaks off is not the body of any block that applies to the output. */
  lemma BrokenBody(c: Codes, s: nat, pos: nat, n: nat, items: seq<Item>, other: seq<Item>)
    requires c.Valid() && Broken(c, s, pos, n, items)
    requires BodyAt(c, s, pos, other)
    ensures forall out, r :: |out| == n ==> !AppendsAll(out, other, r)
  {
    hide ItemAt, ItemsAt, NoItem, After, Kraft, SymbolAt;
    var k := |items|;
    assert items[..k] == items && other[..|other|] == other;
    var p := After(c, pos, items);
    if |other| <= k {
      ItemsAgree(c, s, pos, items, other, |other|);
      ItemsPrefix(c, s, pos, items, |other|);
      if |other| < k {
        NotEnd(c, s, After(c, pos, other), items[|other|]);
      } else if NoItem(c, s, p) {
        EndIsNoItem(c, s, p);
      } else {
        var it :| ItemAt(c, s, p, it) && it.Copy? && it.dist > n + TotalLen(items);
        NotEnd(c, s, p, it);
      }
    } else {
      ItemsAgree(c, s, pos, items, other, k);
      ItemsPrefix(c, s, pos, other, k);
      if NoItem(c, s, p) {
        ItemIsNoItem(c, s, p, other[k]);
      } else {
        var it :| ItemAt(c, s, p, it) && it.Copy? && it.dist > n + TotalLen(items);
        ItemUnique(c, s, p, it, other[k]);
        forall out: seq<byte>, r | |out| == n ensures !AppendsAll(out, other, r) {
          TooFar(out, other, r, k);
        }
      }
    }
  }

  lemma EndIsNoItem(c: Codes, s: nat, p: nat)
    requires c.Valid() && SymbolAt(c.lit, s, p, 256)
    ensures !NoItem(c, s, p)
  {
    hide Matches, Kraft;
    forall l: nat | LengthSymbol(l) ensures !SymbolAt(c.lit, s, p, l) {
      if SymbolAt(c.lit, s, p, l) {
        PrefixFree(c.lit, l, 256, Shr(s, p));
      }
    }
  }

  lemma ItemIsNoItem(c: Codes, s: nat, p: nat, it: Item)
    requires c.Valid() && ItemAt(c, s, p, it)
    ensures !NoItem(c, s, p)
  {
    hide Matches, Kraft, LengthBase, LengthExtra, DistBase, DistExtra, Field;
    var sym := if it.Literal? then it.b else it.lsym;
    forall l: nat | LengthSymbol(l) && SymbolAt(c.lit, s, p, l)
      ensures !NoSymbol(c.dist, s, p + c.lit[l] + LengthExtra(l - 257))
    {
      PrefixFree(c.lit, l, sym, Shr(s, p));
    }
  }

  lemma {:induction false} TooFar(out: seq<byte>, items: seq<Item>, r: seq<byte>, k: nat)
    requires k < |items| && items[k].Copy? && items[k].dist > |out| + TotalLen(items[..k])
    ensures !AppendsAll(out, items, r)
    decreases |items|
  {
    var front := items[..|items| - 1];
    var n := |r| - ItemLen(items[|items| - 1]);
    if AppendsAll(out, items, r) {
      if k == |front| {
        AppendsLen(out, front, r[..n]);
      } else {
        assert front[..k] == items[..k];
        TooFar(out, front, r[..n], k);
      }
    }
  }

  lemma HopelessFixed(s: nat, pos: nat, n: nat, items: seq<Item>)
    requires Field(s, pos + 1, 2) == 1 && Broken(FixedCodes(), s, pos + 3, n, items)
    ensures Hopeless(s, pos, n)
  {
    hide Broken, BodyAt, HeaderAt, Field, AppendsAll, FixedCodes, StoredAt;
    FixedCodesValid();
    forall b, out, r | |out| == n && BlockAt(s, pos, b) ensures !BlockAppends(out, b, r) {
      BrokenBody(FixedCodes(), s, pos + 3, n, items, b.items);
    }
  }

  lemma HopelessDynamic(s: nat, pos: nat, n: nat, h: Header, items: seq<Item>)
    requires Field(s, pos + 1, 2) == 2 && HeaderAt(s, pos + 3, h)
    requires Broken(HeaderCodes(s, pos + 3, h), s, RunsAfter(h.cl, RunsStart(s, pos + 3), h.runs), n, items)
    ensures Hopeless(s, pos, n)
  {
    hide Broken, BodyAt, LengthsAt, Kraft, Field, AppendsAll, FixedCodes, StoredAt, HeaderCodes, RunsAfter, RunsStart;
    var c, p := HeaderCodes(s, pos + 3, h), RunsAfter(h.cl, RunsStart(s, pos + 3), h.runs);
    forall b, out, r | |out| == n && BlockAt(s, pos, b) ensures !BlockAppends(out, b, r) {
      HeaderUnique(s, pos + 3, h, b.header);
      BrokenBody(c, s, p, n, items, b.items);
    }
  }

  /** A block type or a block header that no block has. */
  lemma HopelessHeader(s: nat, pos: nat, n: nat)
    requires match Field(s, pos + 1, 2)
             case 0 => !StoredHeader(s, pos + 3)
             case 1 => false
             case 2 => NoHeader(s, pos + 3)
             case _ => true
    ensures Hopeless(s, pos, n)
  {
    hide BodyAt, HeaderAt, Field, AppendsAll, FixedCodes, StoredHeader;
  }

  /** No valid dynamic code lengths start at `pos`. */
  ghost predicate NoHeader(s: nat, pos: nat) {
    forall h :: !HeaderAt(s, pos, h)
  }

  lemma StoredBlock(s: nat, pos: nat, data: seq<byte>)
    requires Field(s, pos + 1, 2) == 0 && StoredAt(s, pos + 3, data)
    ensures BlockAt(s, pos, Stored(data))
    ensures BlockEnd(s, pos, Stored(data)) == AlignByte(pos + 3) + 32 + 8 * |data|
    ensures forall out :: BlockAppends(out, Stored(data), out + data)
  {
    hide StoredAt, Field;
  }

  lemma FixedBlock(s: nat, pos: nat, items: seq<Item>)
    requires Field(s, pos + 1, 2) == 1 && BodyAt(FixedCodes(), s, pos + 3, items)
    ensures BlockAt(s, pos, Fixed(items))
    ensures BlockEnd(s, pos, Fixed(items)) == After(FixedCodes(), pos + 3, items) + FixedCodes().lit[256]
    ensures forall out, r :: BlockAppends(out, Fixed(items), r) <==> AppendsAll(out, items, r)
  {
    hide BodyAt, Field, AppendsAll, After;
  }

  lemma DynamicBlock(s: nat, pos: nat, h: Header, items: seq<Item>)
    requires Field(s, pos + 1, 2) == 2 && HeaderAt(s, pos + 3, h)
    requires BodyAt(HeaderCodes(s, pos + 3, h), s, RunsAfter(h.cl, RunsStart(s, pos + 3), h.runs), items)
    ensures var c := HeaderCodes(s, pos + 3, h);
      && BlockAt(s, pos, Dynamic(h, items))
      && |c.lit| > 256
      && BlockEnd(s, pos, Dynamic(h, items))
         == After(c, RunsAfter(h.cl, RunsStart(s, pos + 3), h.runs), items) + c.lit[256]
    ensures forall out, r :: BlockAppends(out, Dynamic(h, items), r) <==> AppendsAll(out, items, r)
  {
    hide HeaderAt, HeaderCodes, Field, AppendsAll, After, RunsAfter, RunsStart, ItemsAt, Matches;
  }
}
