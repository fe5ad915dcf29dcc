/** How many input bytes the decoder's bit buffer has taken in, and so which symbols it refuses for want
    of bits. A symbol is decoded with 16 bits in the buffer; only when the input is used up are there
    fewer. `fed` counts the bytes taken in, `size` the bytes of the input; past its end zero bytes are
    taken in, but only for fields of plain bits. */
module Supply {
  import opened Words
  import opened Canonical
  import opened Deflate

  /** Bytes taken in once `n` bits at bit `pos` have been asked for: a refill buffers at least 25 bits. */
  function Need(fed: nat, pos: nat, n: nat): nat {
    if pos + n > 8 * fed then (pos + 32) / 8 else fed
  }

  /** The guard of a symbol at bit `pos`. */
  predicate HasBits(size: nat, fed: nat, pos: nat) {
    pos + 16 <= 8 * fed || fed < size
  }

  // ---- items ----

  /** Where the distance symbol of a copy with length symbol `l` starts. */
  ghost function DistPos(c: Codes, pos: nat, l: nat): nat
    requires LengthSymbol(l) && l < |c.lit|
  {
    pos + c.lit[l] + LengthExtra(l - 257)
  }

  ghost function FedLength(c: Codes, pos: nat, fed: nat, l: nat): nat
    requires LengthSymbol(l) && l < |c.lit|
  {
    Need(Need(fed, pos, 16), pos + c.lit[l], LengthExtra(l - 257))
  }

  ghost function FedItem(c: Codes, pos: nat, fed: nat, it: Item): nat {
    if !ItemOk(c, it) then fed
    else match it
      case Literal(_) => Need(fed, pos, 16)
      case Copy(l, d, _, _) =>
        var p2 := DistPos(c, pos, l);
        Need(Need(FedLength(c, pos, fed, l), p2, 16), p2 + c.dist[d], DistExtra(d))
  }

  /** Both symbols of an item have their bits. */
  ghost predicate ItemSupplied(size: nat, c: Codes, pos: nat, fed: nat, it: Item) {
    && HasBits(size, fed, pos)
    && (it.Copy? && ItemOk(c, it) ==> HasBits(size, FedLength(c, pos, fed, it.lsym), DistPos(c, pos, it.lsym)))
  }

  ghost function FedItems(c: Codes, pos: nat, fed: nat, items: seq<Item>): nat {
    if items == [] then fed
    else
      var front := items[..|items| - 1];
      FedItem(c, After(c, pos, front), FedItems(c, pos, fed, front), items[|items| - 1])
  }

  ghost predicate ItemsSupplied(size: nat, c: Codes, pos: nat, fed: nat, items: seq<Item>) {
    items != [] ==>
      var front := items[..|items| - 1];
      && ItemsSupplied(size, c, pos, fed, front)
      && ItemSupplied(size, c, After(c, pos, front), FedItems(c, pos, fed, front), items[|items| - 1])
  }

  /** All symbols of a block body have their bits, the end of block included. */
  ghost predicate BodySupplied(size: nat, c: Codes, pos: nat, fed: nat, items: seq<Item>) {
    ItemsSupplied(size, c, pos, fed, items) && HasBits(size, FedItems(c, pos, fed, items), After(c, pos, items))
  }

  ghost function FedBody(c: Codes, pos: nat, fed: nat, items: seq<Item>): nat {
    Need(FedItems(c, pos, fed, items), After(c, pos, items), 16)
  }

  /** The symbol at `pos`, or the distance symbol after a length symbol there, lacks its bits. */
  ghost predicate Starved(size: nat, c: Codes, s: nat, pos: nat, fed: nat) {
    || !HasBits(size, fed, pos)
    || exists l: nat ::
      && LengthSymbol(l) && SymbolAt(c.lit, s, pos, l)
      && !HasBits(size, FedLength(c, pos, fed, l), DistPos(c, pos, l))
  }

  lemma StarvedHere(size: nat, c: Codes, s: nat, pos: nat, fed: nat)
    ensures !HasBits(size, fed, pos) ==> Starved(size, c, s, pos, fed)
  {
  }

  lemma StarvedBehind(size: nat, c: Codes, s: nat, pos: nat, fed: nat, l: nat)
    requires LengthSymbol(l) && SymbolAt(c.lit, s, pos, l)
    ensures DistPos(c, pos, l) == pos + c.lit[l] + LengthExtra(l - 257)
    ensures FedLength(c, pos, fed, l) == Need(Need(fed, pos, 16), pos + c.lit[l], LengthExtra(l - 257))
    ensures !HasBits(size, FedLength(c, pos, fed, l), DistPos(c, pos, l)) ==> Starved(size, c, s, pos, fed)
  {
    hide HasBits, Need, LengthExtra, Matches;
  }

  lemma LiteralSupply(size: nat, c: Codes, pos: nat, fed: nat, b: byte)
    requires b < |c.lit|
    ensures ItemSupplied(size, c, pos, fed, Literal(b)) <==> HasBits(size, fed, pos)
    ensures FedItem(c, pos, fed, Literal(b)) == Need(fed, pos, 16)
  {
    hide HasBits, Need;
  }

  lemma CopySupply(size: nat, c: Codes, pos: nat, fed: nat, it: Item)
    requires it.Copy? && ItemOk(c, it)
    ensures var p1 := pos + c.lit[it.lsym];
      var p2, f2 := p1 + LengthExtra(it.lsym - 257), Need(Need(fed, pos, 16), p1, LengthExtra(it.lsym - 257));
      && (ItemSupplied(size, c, pos, fed, it) <==> HasBits(size, fed, pos) && HasBits(size, f2, p2))
      && FedItem(c, pos, fed, it) == Need(Need(f2, p2, 16), p2 + c.dist[it.dsym], DistExtra(it.dsym))
  {
    hide HasBits, Need, LengthExtra, DistExtra;
  }

  lemma StarvedItem(size: nat, c: Codes, s: nat, pos: nat, fed: nat, it: Item)
    requires c.Valid() && Starved(size, c, s, pos, fed) && ItemAt(c, s, pos, it)
    ensures !ItemSupplied(size, c, pos, fed, it)
  {
    hide Matches, Kraft, HasBits, FedLength, LengthBase, LengthExtra, DistBase, DistExtra, Field, Shr;
    if HasBits(size, fed, pos) {
      var l: nat :| LengthSymbol(l) && SymbolAt(c.lit, s, pos, l)
                 && !HasBits(size, FedLength(c, pos, fed, l), DistPos(c, pos, l));
      PrefixFree(c.lit, l, if it.Literal? then it.b else it.lsym, Shr(s, pos));
    }
  }

  lemma StarvedEnd(size: nat, c: Codes, s: nat, pos: nat, fed: nat)
    requires c.Valid() && Starved(size, c, s, pos, fed) && SymbolAt(c.lit, s, pos, 256)
    ensures !HasBits(size, fed, pos)
  {
    hide Matches, Kraft, HasBits, FedLength, Shr;
    if HasBits(size, fed, pos) {
      var l: nat :| LengthSymbol(l) && SymbolAt(c.lit, s, pos, l)
                 && !HasBits(size, FedLength(c, pos, fed, l), DistPos(c, pos, l));
      PrefixFree(c.lit, l, 256, Shr(s, pos));
    }
  }

  lemma {:induction false} SuppliedPrefix(size: nat, c: Codes, pos: nat, fed: nat, items: seq<Item>, n: nat)
    requires ItemsSupplied(size, c, pos, fed, items) && n <= |items|
    ensures ItemsSupplied(size, c, pos, fed, items[..n])
    ensures n < |items| ==>
      ItemSupplied(size, c, After(c, pos, items[..n]), FedItems(c, pos, fed, items[..n]), items[n])
  {
    hide ItemSupplied, FedItems, After;
    if n < |items| - 1 {
      var front := items[..|items| - 1];
      SuppliedPrefix(size, c, pos, fed, front, n);
      assert front[..n] == items[..n];
    } else if n == |items| {
      assert items[..n] == items;
    }
  }

  // ---- what a block body that stops early rules out ----

  /** Readable items are the beginning of any body that can be read from the same place. */
  lemma BodyContinues(c: Codes, s: nat, pos: nat, items: seq<Item>, other: seq<Item>)
    requires c.Valid() && ItemsAt(c, s, pos, items) && BodyAt(c, s, pos, other)
    ensures |items| <= |other| && other[..|items|] == items
    ensures |items| == |other| ==> other == items && SymbolAt(c.lit, s, After(c, pos, items), 256)
    ensures |items| < |other| ==> ItemAt(c, s, After(c, pos, items), other[|items|])
  {
    hide ItemAt, ItemsAt, After, Kraft, SymbolAt;
    var k := |items|;
    assert items[..k] == items && other[..|other|] == other;
    if |other| < k {
      ItemsAgree(c, s, pos, items, other, |other|);
      ItemsPrefix(c, s, pos, items, |other|);
      NotEnd(c, s, After(c, pos, other), items[|other|]);
    } else {
      ItemsAgree(c, s, pos, items, other, k);
      ItemsPrefix(c, s, pos, other, k);
    }
  }

  lemma StarvedBody(size: nat, c: Codes, s: nat, pos: nat, fed: nat, items: seq<Item>, other: seq<Item>)
    requires c.Valid() && ItemsAt(c, s, pos, items) && BodyAt(c, s, pos, other)
    requires Starved(size, c, s, After(c, pos, items), FedItems(c, pos, fed, items))
    ensures !BodySupplied(size, c, pos, fed, other)
  {
    hide ItemAt, ItemsAt, After, Kraft, SymbolAt, Starved, ItemSupplied, ItemsSupplied, FedItems, HasBits;
    BodyContinues(c, s, pos, items, other);
    var p, f := After(c, pos, items), FedItems(c, pos, fed, items);
    if |items| == |other| {
      StarvedEnd(size, c, s, p, f);
    } else {
      StarvedItem(size, c, s, p, f, other[|items|]);
      if ItemsSupplied(size, c, pos, fed, other) {
        SuppliedPrefix(size, c, pos, fed, other, |items|);
      }
    }
  }

  lemma {:induction false} TotalLenPrefix(items: seq<Item>, n: nat)
    requires n <= |items|
    ensures TotalLen(items[..n]) <= TotalLen(items)
    ensures n < |items| ==> TotalLen(items[..n]) + ItemLen(items[n]) <= TotalLen(items)
  {
    if n < |items| - 1 {
      var front := items[..|items| - 1];
      TotalLenPrefix(front, n);
      assert front[..n] == items[..n];
    } else if n == |items| {
      assert items[..n] == items;
    }
  }

  /** If the next item is `it` then every body goes on with it and is at least that long. */
  lemma BodyHasItem(c: Codes, s: nat, pos: nat, items: seq<Item>, it: Item, other: seq<Item>)
    requires c.Valid() && ItemsAt(c, s, pos, items) && BodyAt(c, s, pos, other)
    requires ItemAt(c, s, After(c, pos, items), it)
    ensures TotalLen(items) + ItemLen(it) <= TotalLen(other)
  {
    hide ItemAt, ItemsAt, After, Kraft, SymbolAt, TotalLen;
    BodyContinues(c, s, pos, items, other);
    if |items| == |other| {
      NotEnd(c, s, After(c, pos, items), it);
    } else {
      ItemUnique(c, s, After(c, pos, items), it, other[|items|]);
      TotalLenPrefix(other, |items|);
    }
  }

  // ---- dynamic headers ----

  function RunExtra(r: Run): nat {
    match r
    case Len(_) => 0
    case Again(_) => 2
    case Zeros(sym, _) => if sym == 17 then 3 else 7
  }

  ghost function FedRun(cl: seq<nat>, pos: nat, fed: nat, r: Run): nat {
    if !RunOk(cl, r) then fed else Need(Need(fed, pos, 16), pos + cl[RunSymbol(r)], RunExtra(r))
  }

  ghost function FedRuns(cl: seq<nat>, pos: nat, fed: nat, runs: seq<Run>): nat {
    if runs == [] then fed
    else
      var front := runs[..|runs| - 1];
      FedRun(cl, RunsAfter(cl, pos, front), FedRuns(cl, pos, fed, front), runs[|runs| - 1])
  }

  ghost predicate RunsSupplied(size: nat, cl: seq<nat>, pos: nat, fed: nat, runs: seq<Run>) {
    runs != [] ==>
      var front := runs[..|runs| - 1];
      && RunsSupplied(size, cl, pos, fed, front)
      && HasBits(size, FedRuns(cl, pos, fed, front), RunsAfter(cl, pos, front))
  }

  /** After `n` lengths of the code length code. */
  function FedSizes(pos: nat, fed: nat, n: nat): nat {
    if n == 0 then fed else Need(FedSizes(pos, fed, n - 1), pos + 3 * (n - 1), 3)
  }

  /** After everything in a header that comes before the runs. */
  function FedFields(s: nat, pos: nat, fed: nat): nat {
    FedSizes(pos + 14, Need(Need(Need(fed, pos, 5), pos + 5, 5), pos + 10, 4), Hclen(s, pos))
  }

  ghost predicate HeaderSupplied(size: nat, s: nat, pos: nat, fed: nat, h: Header) {
    RunsSupplied(size, h.cl, RunsStart(s, pos), FedFields(s, pos, fed), h.runs)
  }

  ghost function FedHeader(s: nat, pos: nat, fed: nat, h: Header): nat {
    FedRuns(h.cl, RunsStart(s, pos), FedFields(s, pos, fed), h.runs)
  }

  lemma {:induction false} RunsSuppliedPrefix(size: nat, cl: seq<nat>, pos: nat, fed: nat, runs: seq<Run>, n: nat)
    requires RunsSupplied(size, cl, pos, fed, runs) && n < |runs|
    ensures HasBits(size, FedRuns(cl, pos, fed, runs[..n]), RunsAfter(cl, pos, runs[..n]))
  {
    hide FedRuns, RunsAfter, HasBits;
    if n < |runs| - 1 {
      var front := runs[..|runs| - 1];
      RunsSuppliedPrefix(size, cl, pos, fed, front, n);
      assert front[..n] == runs[..n];
    }
  }

  /** Too few code lengths so far, and the next run lacks its bits. */
  ghost predicate HeaderStarved(size: nat, s: nat, pos: nat, fed: nat) {
    exists cl, runs ::
      && CodeLengthsAt(s, pos + 14, Hclen(s, pos), cl) && RunsAt(cl, s, RunsStart(s, pos), runs)
      && |Lens(runs)| < Hlit(s, pos) + Hdist(s, pos)
      && !HasBits(size, FedRuns(cl, RunsStart(s, pos), FedFields(s, pos, fed), runs),
                  RunsAfter(cl, RunsStart(s, pos), runs))
  }

  /** Too few code lengths so far, and the next run lacks its bits: no header there is supplied. */
  lemma StarvedHeader(size: nat, s: nat, pos: nat, fed: nat, cl: seq<nat>, runs: seq<Run>, h: Header)
    requires LengthsAt(s, pos, h) && CodeLengthsAt(s, pos + 14, Hclen(s, pos), cl)
    requires RunsAt(cl, s, RunsStart(s, pos), runs) && |Lens(runs)| < Hlit(s, pos) + Hdist(s, pos)
    requires !HasBits(size, FedRuns(cl, RunsStart(s, pos), FedFields(s, pos, fed), runs),
                      RunsAfter(cl, RunsStart(s, pos), runs))
    ensures !HeaderSupplied(size, s, pos, fed, h)
  {
    hide LengthsAt, CodeLengthsAt, RunsAt, RunAt, RunsAfter, FedRuns, FedFields, HasBits, AddRun, Lens, RunsSupplied;
    HeaderContinues(s, pos, cl, runs, h);
    if HeaderSupplied(size, s, pos, fed, h) {
      RunsSuppliedPrefix(size, h.cl, RunsStart(s, pos), FedFields(s, pos, fed), h.runs, |runs|);
    }
  }

  // ---- blocks and streams ----

  /** After the three header bits of a block. */
  function FedTag(pos: nat, fed: nat): nat {
    Need(Need(fed, pos, 1), pos + 1, 2)
  }

  /** The input holds what the decoder asks for when it reads the block. */
  ghost predicate BlockSupplied(size: nat, s: nat, pos: nat, fed: nat, b: Block) {
    var f := FedTag(pos, fed);
    match b
    case Stored(data) => AlignByte(pos + 3) / 8 + 4 + |data| <= size
    case Fixed(items) => BodySupplied(size, FixedCodes(), pos + 3, f, items)
    case Dynamic(h, items) =>
      && HeaderSupplied(size, s, pos + 3, f, h)
      && BodySupplied(size, HeaderCodes(s, pos + 3, h), RunsAfter(h.cl, RunsStart(s, pos + 3), h.runs),
                      FedHeader(s, pos + 3, f, h), items)
  }

  /** A stored block leaves the bit buffer empty. */
  ghost function FedBlock(s: nat, pos: nat, fed: nat, b: Block): nat
    requires BlockAt(s, pos, b)
  {
    var f := FedTag(pos, fed);
    match b
    case Stored(_) => BlockEnd(s, pos, b) / 8
    case Fixed(items) => FedBody(FixedCodes(), pos + 3, f, items)
    case Dynamic(h, items) =>
      FedBody(HeaderCodes(s, pos + 3, h), RunsAfter(h.cl, RunsStart(s, pos + 3), h.runs),
              FedHeader(s, pos + 3, f, h), items)
  }

  /** Bytes taken in before block `k` of a stream, of which `fed` before the first. */
  ghost function FedBefore(s: nat, blocks: seq<Block>, trace: seq<Point>, fed: nat, k: nat): nat
    requires BlocksAt(s, blocks, trace) && k <= |blocks|
  {
    if k == 0 then fed
    else FedBlock(s, trace[k - 1].pos, FedBefore(s, blocks, trace, fed, k - 1), blocks[k - 1])
  }

  ghost predicate StreamSupplied(size: nat, s: nat, blocks: seq<Block>, trace: seq<Point>, fed: nat)
    requires BlocksAt(s, blocks, trace)
  {
    forall k :: 0 <= k < |blocks| ==>
      BlockSupplied(size, s, trace[k].pos, FedBefore(s, blocks, trace, fed, k), blocks[k])
  }

  // ---- enough input after the last block ----

  lemma {:induction false} PaddedItems(size: nat, c: Codes, pos: nat, fed: nat, items: seq<Item>)
    requires After(c, pos, items) + 16 <= 8 * size
    ensures ItemsSupplied(size, c, pos, fed, items) && pos <= After(c, pos, items)
  {
    hide Need, LengthExtra, DistExtra;
    if items != [] {
      PaddedItems(size, c, pos, fed, items[..|items| - 1]);
    }
  }

  lemma {:induction false} PaddedRuns(size: nat, cl: seq<nat>, pos: nat, fed: nat, runs: seq<Run>)
    requires RunsAfter(cl, pos, runs) + 16 <= 8 * size
    ensures RunsSupplied(size, cl, pos, fed, runs) && pos <= RunsAfter(cl, pos, runs)
  {
    hide FedRun, RunBits;
    if runs != [] {
      PaddedRuns(size, cl, pos, fed, runs[..|runs| - 1]);
    }
  }

  lemma PaddedBody(size: nat, c: Codes, s: nat, pos: nat, fed: nat, items: seq<Item>)
    requires BodyAt(c, s, pos, items) && After(c, pos, items) + c.lit[256] + 15 <= 8 * size
    ensures BodySupplied(size, c, pos, fed, items) && pos <= After(c, pos, items) <= 8 * size - 16 && |c.lit| > 256
  {
    hide ItemsAt, ItemsSupplied, After, FedItems;
    assert c.lit[256] >= 1;
    PaddedItems(size, c, pos, fed, items);
  }

  lemma PaddedBlock(size: nat, s: nat, pos: nat, fed: nat, b: Block)
    requires BlockAt(s, pos, b) && BlockEnd(s, pos, b) + 15 <= 8 * size
    ensures BlockSupplied(size, s, pos, fed, b) && pos <= BlockEnd(s, pos, b)
  {
    hide BodyAt, BodySupplied, After, HeaderAt, HeaderCodes, FixedCodes, RunsAfter, RunsSupplied, Field, StoredHeader;
    match b
    case Stored(data) =>
    case Fixed(items) =>
      PaddedBody(size, FixedCodes(), s, pos + 3, FedTag(pos, fed), items);
    case Dynamic(h, items) =>
      var c, q := HeaderCodes(s, pos + 3, h), RunsAfter(h.cl, RunsStart(s, pos + 3), h.runs);
      var f := FedTag(pos, fed);
      PaddedBody(size, c, s, q, FedHeader(s, pos + 3, f, h), items);
      PaddedRuns(size, h.cl, RunsStart(s, pos + 3), FedFields(s, pos + 3, f), h.runs);
  }

  /** Fifteen bits of input after the last block are enough, whatever they are. A zlib stream, with four
      bytes of check sum there, always has them. */
  lemma PaddedStream(size: nat, s: nat, blocks: seq<Block>, trace: seq<Point>, fed: nat)
    requires BlocksAt(s, blocks, trace) && trace[|blocks|].pos + 15 <= 8 * size
    ensures StreamSupplied(size, s, blocks, trace, fed)
  {
    hide BlockAt, BlockEnd, BlockAppends, BlockSupplied, FedBlock;
    forall k | 0 <= k < |blocks|
      ensures BlockSupplied(size, s, trace[k].pos, FedBefore(s, blocks, trace, fed, k), blocks[k])
    {
      TraceForward(size, s, blocks, trace, k + 1);
      PaddedBlock(size, s, trace[k].pos, FedBefore(s, blocks, trace, fed, k), blocks[k]);
    }
  }

  lemma {:induction false} TraceForward(size: nat, s: nat, blocks: seq<Block>, trace: seq<Point>, k: nat)
    requires BlocksAt(s, blocks, trace) && k <= |blocks| && trace[|blocks|].pos + 15 <= 8 * size
    ensures trace[k].pos + 15 <= 8 * size
    decreases |blocks| - k
  {
    hide BlockAt, BlockEnd, BlockAppends, BlockSupplied;
    if k < |blocks| {
      TraceForward(size, s, blocks, trace, k + 1);
      PaddedBlock(size, s, trace[k].pos, 0, blocks[k]);
    }
  }
}
