/** A fixed-size bit set packed into 64-bit words. */
module BitArray {
  import opened Words

  // ---- words ----

  function Ones(): (w: nat)
    ensures w < Pow2(64)
  {
    Pow2(64) - 1
  }

  lemma OnesBits(k: nat)
    ensures Bit(Ones(), k) == (k < 64)
  {
    BitNot(0, 64, k);
    BitZero(k);
  }

  /** `~0 << b` */
  function StartMask(b: nat): (w: nat)
    ensures w < Pow2(64)
  {
    Low(Shl(Ones(), b), 64)
  }

  lemma StartMaskBits(b: nat, k: nat)
    ensures Bit(StartMask(b), k) == (b <= k < 64)
  {
    BitLow(Shl(Ones(), b), 64, k);
    BitShl(Ones(), b, k);
    if b <= k {
      OnesBits(k - b);
    }
  }

  /** `e == 63 ? ~0 : (1 << (e + 1)) - 1` */
  function EndMask(e: nat): (w: nat)
    requires e < 64
    ensures w < Pow2(64)
  {
    ShlValue(1, e + 1);
    Pow2Monotone(e + 1, 64);
    if e == 63 then Ones() else Shl(1, e + 1) - 1
  }

  lemma EndMaskBits(e: nat, k: nat)
    requires e < 64
    ensures Bit(EndMask(e), k) == (k <= e)
  {
    ShlValue(1, e + 1);
    Pow2Monotone(e + 1, 64);
    BitNot(0, e + 1, k);
    BitZero(k);
  }

  /** `~0 >> (63 - e)` */
  function LastMask(e: nat): (w: nat)
    requires e < 64
    ensures w < Pow2(64)
  {
    Shr(Ones(), 63 - e)
  }

  lemma LastMaskBits(e: nat, k: nat)
    requires e < 64
    ensures Bit(LastMask(e), k) == (k <= e)
  {
    BitShr(Ones(), 63 - e, k);
    OnesBits(k + 63 - e);
  }

  /** `std::countr_zero`, from bit `i` on. */
  function CountrZero(x: nat, i: nat): (r: nat)
    requires i <= 64
    ensures i <= r <= 64
    ensures forall k :: i <= k < r ==> !Bit(x, k)
    ensures r < 64 ==> Bit(x, r)
    decreases 64 - i
  {
    if i == 64 || Bit(x, i) then i else CountrZero(x, i + 1)
  }

  /** `std::countr_one`, from bit `i` on. */
  function CountrOne(x: nat, i: nat): (r: nat)
    requires i <= 64
    ensures i <= r <= 64
    ensures forall k :: i <= k < r ==> Bit(x, k)
    ensures r < 64 ==> !Bit(x, r)
    decreases 64 - i
  {
    if i == 64 || !Bit(x, i) then i else CountrOne(x, i + 1)
  }

  /** `std::countl_zero`, counting on after `i` zeros. */
  function CountlZero(x: nat, i: nat): (r: nat)
    requires i <= 64
    ensures i <= r <= 64
    ensures forall k :: 64 - r <= k < 64 - i ==> !Bit(x, k)
    ensures r < 64 ==> Bit(x, 63 - r)
    decreases 64 - i
  {
    if i == 64 || Bit(x, 63 - i) then i else CountlZero(x, i + 1)
  }

  /** `std::countl_one`, counting on after `i` ones. */
  function CountlOne(x: nat, i: nat): (r: nat)
    requires i <= 64
    ensures i <= r <= 64
    ensures forall k :: 64 - r <= k < 64 - i ==> Bit(x, k)
    ensures r < 64 ==> !Bit(x, 63 - r)
    decreases 64 - i
  {
    if i == 64 || !Bit(x, 63 - i) then i else CountlOne(x, i + 1)
  }

  /** A nonzero word has a set bit. */
  lemma NonzeroHasBit(x: nat)
    requires 0 < x < Pow2(64)
    ensures exists k :: 0 <= k < 64 && Bit(x, k)
  {
    if forall k :: 0 <= k < 64 ==> !Bit(x, k) {
      forall k | 0 <= k < 64 ensures Bit(x, k) == Bit(0, k) {
        BitZero(k);
      }
      SameBits(x, 0, 64);
    }
  }

  // ---- the set the words stand for ----

  ghost predicate WordsValid(s: seq<nat>) {
    forall w :: 0 <= w < |s| ==> s[w] < Pow2(64)
  }

  /** Bit `k` of the array. */
  ghost predicate Has(s: seq<nat>, k: nat)
    requires k < 64 * |s|
  {
    Bit(s[k / 64], k % 64)
  }

  /** The words from `start` on: how one word of a range is masked. */
  ghost predicate Masked(start: nat, end: nat, w: nat, j: nat)
    requires start < end && j < 64
  {
    && (w == start / 64 ==> Bit(StartMask(start % 64), j))
    && (w == (end - 1) / 64 ==> Bit(EndMask((end - 1) % 64), j))
  }

  /** Between its first and its last word a range covers exactly what its two masks leave. */
  lemma MaskedIsInRange(start: nat, end: nat, k: nat)
    requires start < end && start / 64 <= k / 64 <= (end - 1) / 64
    ensures Masked(start, end, k / 64, k % 64) <==> start <= k < end
  {
    StartMaskBits(start % 64, k % 64);
    EndMaskBits((end - 1) % 64, k % 64);
    hide StartMask, EndMask, Bit;
  }

  type Range = (nat, nat)

  // ---- ranges of bits ----

  ghost predicate SomeIn(s: seq<nat>, a: nat, b: nat) {
    exists k :: a <= k < b && k < 64 * |s| && Has(s, k)
  }

  ghost predicate AllIn(s: seq<nat>, a: nat, b: nat)
    requires b <= 64 * |s|
  {
    forall k :: a <= k < b ==> Has(s, k)
  }

  ghost predicate NoneIn(s: seq<nat>, a: nat, b: nat)
    requires b <= 64 * |s|
  {
    forall k :: a <= k < b ==> !Has(s, k)
  }

  /** The first run of set bits at or after `start`. */
  ghost predicate IsFirstRange(s: seq<nat>, start: nat, r: Range) {
    var n := 64 * |s|;
    if r.0 == n then r.1 == n && NoneIn(s, start, n)
    else
      && start <= r.0 < r.1 <= n
      && NoneIn(s, start, r.0) && AllIn(s, r.0, r.1)
      && (r.1 < n ==> !Has(s, r.1))
  }

  /** The last run of set bits below `end`. */
  ghost predicate IsLastRange(s: seq<nat>, end: nat, r: Range)
    requires end <= 64 * |s|
  {
    if r.1 == 0 then r.0 == 0 && NoneIn(s, 0, end)
    else
      && r.0 < r.1 <= end
      && NoneIn(s, r.1, end) && AllIn(s, r.0, r.1)
      && (r.0 > 0 ==> !Has(s, r.0 - 1))
  }

  /** A nonempty run of set bits that no neighbour extends. */
  ghost predicate MaximalRun(s: seq<nat>, a: nat, b: nat) {
    && a < b <= 64 * |s|
    && AllIn(s, a, b)
    && (a > 0 ==> !Has(s, a - 1))
    && (b < 64 * |s| ==> !Has(s, b))
  }

  /** `rs` lists the maximal runs that end at or before `done`, a place where no run goes on. */
  ghost predicate RunsBelow(s: seq<nat>, done: nat, rs: seq<Range>) {
    && done <= 64 * |s|
    && (0 < done < 64 * |s| ==> !Has(s, done))
    && (forall a: nat, b: nat :: (a, b) in rs <==> b <= done && MaximalRun(s, a, b))
    && (forall i :: 0 <= i < |rs| - 1 ==> rs[i].1 < rs[i + 1].0)
    && (|rs| > 0 ==> rs[|rs| - 1].1 == done)
    && (|rs| == 0 ==> done == 0)
  }

  lemma NextRun(s: seq<nat>, done: nat, it: Range, rs: seq<Range>)
    requires RunsBelow(s, done, rs) && IsFirstRange(s, done, it) && it.0 < 64 * |s|
    ensures RunsBelow(s, it.1, rs + [it])
  {
    hide Has;
    var more := rs + [it];
    forall a: nat, b: nat ensures (a, b) in more <==> b <= it.1 && MaximalRun(s, a, b) {
      if b <= it.1 && MaximalRun(s, a, b) && b > done {
        var first := if a < done then done else a;
        assert Has(s, first);
        assert a <= it.0;
      }
      if (a, b) == it && a > 0 {
        assert a != done;
      }
    }
  }

  lemma AllRunsSeen(s: seq<nat>, done: nat, rs: seq<Range>)
    requires RunsBelow(s, done, rs) && NoneIn(s, done, 64 * |s|)
    ensures forall a: nat, b: nat :: (a, b) in rs <==> MaximalRun(s, a, b)
  {
    hide Has;
    forall a: nat, b: nat | MaximalRun(s, a, b) ensures b <= done {
      assert Has(s, b - 1);
    }
  }

  lemma SomeInSplit(s: seq<nat>, a: nat, b: nat, c: nat)
    requires a <= b <= c
    ensures SomeIn(s, a, c) <==> SomeIn(s, a, b) || SomeIn(s, b, c)
  {
  }

  lemma NoneInEmpty(s: seq<nat>, a: nat)
    ensures !SomeIn(s, a, a)
  {
  }

  /** A word holding exactly the bits of a range inside word `w` is nonzero when one of them is set. */
  lemma RangeWord(s: seq<nat>, w: nat, a: nat, b: nat, x: nat)
    requires w < |s| && 64 * w <= a < b <= 64 * (w + 1) && x < Pow2(64)
    requires forall j :: 0 <= j < 64 ==> (Bit(x, j) <==> Bit(s[w], j) && a <= 64 * w + j < b)
    ensures x != 0 <==> SomeIn(s, a, b)
  {
    hide Bit, Pow2;
    if x != 0 {
      NonzeroHasBit(x);
      var j :| 0 <= j < 64 && Bit(x, j);
      assert Has(s, 64 * w + j);
    } else {
      forall k | a <= k < b ensures !Has(s, k) {
        BitZero(k % 64);
      }
    }
  }

  lemma MaskBits(start: nat, end: nat, j: nat)
    requires start < end && j < 64
    ensures Bit(StartMask(start % 64), j) == (start <= 64 * (start / 64) + j)
    ensures Bit(LastMask((end - 1) % 64), j) == (64 * ((end - 1) / 64) + j < end)
  {
    StartMaskBits(start % 64, j);
    LastMaskBits((end - 1) % 64, j);
    hide StartMask, LastMask, Bit;
  }

  lemma MaskedWord(s: seq<nat>, start: nat, end: nat, w: nat)
    requires WordsValid(s) && start < end <= 64 * |s| && w == start / 64 == (end - 1) / 64
    ensures And(And(s[w], StartMask(start % 64)), LastMask((end - 1) % 64)) != 0 <==> SomeIn(s, start, end)
  {
    hide Bit, Pow2, StartMask, LastMask, And;
    var x := And(And(s[w], StartMask(start % 64)), LastMask((end - 1) % 64));
    forall j | 0 <= j < 64 ensures Bit(x, j) <==> Bit(s[w], j) && start <= 64 * w + j < end {
      AndBits(s[w], StartMask(start % 64), LastMask((end - 1) % 64), j);
      MaskBits(start, end, j);
    }
    RangeWord(s, w, start, end, x);
  }

  lemma MaskedEnds(s: seq<nat>, start: nat, end: nat)
    requires WordsValid(s) && start < end <= 64 * |s| && start / 64 < (end - 1) / 64
    ensures And(s[start / 64], StartMask(start % 64)) != 0 <==> SomeIn(s, start, 64 * (start / 64 + 1))
    ensures And(s[(end - 1) / 64], LastMask((end - 1) % 64)) != 0 <==> SomeIn(s, 64 * ((end - 1) / 64), end)
  {
    hide Bit, Pow2, StartMask, LastMask, And;
    var first, last := start / 64, (end - 1) / 64;
    var x, y := And(s[first], StartMask(start % 64)), And(s[last], LastMask((end - 1) % 64));
    forall j | 0 <= j < 64
      ensures Bit(x, j) <==> Bit(s[first], j) && start <= 64 * first + j
      ensures Bit(y, j) <==> Bit(s[last], j) && 64 * last + j < end
    {
      BitAnd(s[first], StartMask(start % 64), j);
      BitAnd(s[last], LastMask((end - 1) % 64), j);
      MaskBits(start, end, j);
    }
    RangeWord(s, first, start, 64 * (first + 1), x);
    RangeWord(s, last, 64 * last, end, y);
  }

  lemma WholeWord(s: seq<nat>, w: nat)
    requires WordsValid(s) && w < |s|
    ensures s[w] != 0 <==> SomeIn(s, 64 * w, 64 * (w + 1))
  {
    RangeWord(s, w, 64 * w, 64 * (w + 1), s[w]);
  }

  ghost predicate Covers(w: nat, m: nat) {
    forall j :: 0 <= j < 64 && Bit(m, j) ==> Bit(w, j)
  }

  /** Masking a word gives the mask back when the word covers it. */
  lemma CoversMask(w: nat, m: nat)
    requires m < Pow2(64)
    ensures And(w, m) == m <==> Covers(w, m)
  {
    hide Pow2, And;
    forall j | 0 <= j < 64 ensures Bit(And(w, m), j) == (Bit(w, j) && Bit(m, j)) {
      BitAnd(w, m, j);
    }
    if And(w, m) == m {
      forall j | 0 <= j < 64 && Bit(m, j) ensures Bit(w, j) {
        BitAnd(w, m, j);
      }
    } else if Covers(w, m) {
      SameBits(And(w, m), m, 64);
    }
  }

  /** A mask holding exactly a range inside word `w` is covered when the whole range is set. */
  lemma AllRangeWord(s: seq<nat>, w: nat, a: nat, b: nat, m: nat)
    requires w < |s| && 64 * w <= a < b <= 64 * (w + 1) && m < Pow2(64)
    requires forall j :: 0 <= j < 64 ==> (Bit(m, j) <==> a <= 64 * w + j < b)
    ensures And(s[w], m) == m <==> AllIn(s, a, b)
  {
    hide Pow2, And;
    CoversMask(s[w], m);
    if And(s[w], m) == m {
      forall k | a <= k < b ensures Has(s, k) {
        assert k / 64 == w;
        assert Bit(m, k % 64);
      }
    }
    if AllIn(s, a, b) {
      forall j | 0 <= j < 64 && Bit(m, j) ensures Bit(s[w], j) {
        assert Has(s, 64 * w + j);
      }
    }
  }

  lemma AllMaskedWord(s: seq<nat>, start: nat, end: nat, w: nat)
    requires start < end <= 64 * |s| && w == start / 64 == (end - 1) / 64
    ensures var mask := And(StartMask(start % 64), LastMask((end - 1) % 64));
      And(s[w], mask) == mask <==> AllIn(s, start, end)
  {
    hide Bit, Pow2, StartMask, LastMask, And;
    var mask := And(StartMask(start % 64), LastMask((end - 1) % 64));
    forall j | 0 <= j < 64 ensures Bit(mask, j) <==> start <= 64 * w + j < end {
      BitAnd(StartMask(start % 64), LastMask((end - 1) % 64), j);
      MaskBits(start, end, j);
    }
    AllRangeWord(s, w, start, end, mask);
  }

  lemma AllMaskedEnds(s: seq<nat>, start: nat, end: nat)
    requires start < end <= 64 * |s| && start / 64 < (end - 1) / 64
    ensures And(s[start / 64], StartMask(start % 64)) == StartMask(start % 64)
       <==> AllIn(s, start, 64 * (start / 64 + 1))
    ensures And(s[(end - 1) / 64], LastMask((end - 1) % 64)) == LastMask((end - 1) % 64)
       <==> AllIn(s, 64 * ((end - 1) / 64), end)
  {
    hide Bit, Pow2, StartMask, LastMask, And;
    var first, last := start / 64, (end - 1) / 64;
    forall j | 0 <= j < 64
      ensures Bit(StartMask(start % 64), j) <==> start <= 64 * first + j < 64 * (first + 1)
    {
      MaskBits(start, end, j);
    }
    var m := LastMask((end - 1) % 64);
    forall j | 0 <= j < 64 ensures Bit(m, j) <==> 64 * last + j < end {
      MaskBits(start, end, j);
    }
    AllRangeWord(s, first, start, 64 * (first + 1), StartMask(start % 64));
    AllRangeWord(s, last, 64 * last, end, m);
  }

  lemma AllWholeWord(s: seq<nat>, w: nat)
    requires WordsValid(s) && w < |s|
    ensures s[w] == Ones() <==> AllIn(s, 64 * w, 64 * (w + 1))
  {
    hide Bit, Pow2;
    forall j | 0 <= j < 64 ensures Bit(Ones(), j) {
      OnesBits(j);
    }
    if s[w] == Ones() {
    } else {
      NotOnesHasClearBit(s[w]);
      var j :| 0 <= j < 64 && !Bit(s[w], j);
      assert !Has(s, 64 * w + j);
    }
  }

  lemma NotOnesHasClearBit(x: nat)
    requires x < Pow2(64) && x != Ones()
    ensures exists j :: 0 <= j < 64 && !Bit(x, j)
  {
    hide Bit, Pow2, Ones;
    if forall j :: 0 <= j < 64 ==> Bit(x, j) {
      forall j | 0 <= j < 64 ensures Bit(x, j) == Bit(Ones(), j) {
        OnesBits(j);
      }
      SameBits(x, Ones(), 64);
      assert false;
    }
  }

  // ---- scanning forward ----

  /** Nothing set from `start` up to word `w`, and `x` is word `w` without its bits below `start`. */
  ghost predicate ForwardAt(s: seq<nat>, start: nat, w: nat, x: nat)
    requires w < |s|
  {
    && x < Pow2(64)
    && NoneIn(s, start, 64 * w)
    && start < 64 * (w + 1)
    && forall j :: 0 <= j < 64 ==> (Bit(x, j) <==> start <= 64 * w + j && Bit(s[w], j))
  }

  lemma FirstWord(s: seq<nat>, start: nat)
    requires WordsValid(s) && start < 64 * |s|
    ensures ForwardAt(s, start, start / 64, And(s[start / 64], StartMask(start % 64)))
  {
    hide Bit, Pow2, StartMask, LastMask, And;
    forall j | 0 <= j < 64
      ensures Bit(And(s[start / 64], StartMask(start % 64)), j)
         <==> start <= 64 * (start / 64) + j && Bit(s[start / 64], j)
    {
      BitAnd(s[start / 64], StartMask(start % 64), j);
      MaskBits(start, start + 1, j);
    }
  }

  lemma NothingThere(s: seq<nat>, start: nat, w: nat)
    requires WordsValid(s) && w < |s| && ForwardAt(s, start, w, 0)
    ensures NoneIn(s, start, 64 * (w + 1))
    ensures w + 1 < |s| ==> ForwardAt(s, start, w + 1, s[w + 1])
  {
    hide Bit, Pow2;
    forall k | start <= k < 64 * (w + 1) ensures !Has(s, k) {
      if k >= 64 * w {
        BitZero(k % 64);
        assert Bit(0, k % 64) <==> start <= 64 * w + k % 64 && Bit(s[w], k % 64);
      }
    }
  }

  /** How far a run that starts inside a word goes there. */
  lemma RunInWord(s: seq<nat>, w: nat, b: nat)
    requires WordsValid(s) && w < |s| && b < 64
    ensures var ones := CountrOne(Shr(s[w], b), 0);
      && b + ones <= 64
      && AllIn(s, 64 * w + b, 64 * w + b + ones)
      && (b + ones < 64 ==> !Has(s, 64 * w + b + ones))
  {
    hide Bit, Pow2;
    var ones := CountrOne(Shr(s[w], b), 0);
    BitShr(s[w], b, 64 - b);
    BitAbove(s[w], 64, 64);
    forall k | 64 * w + b <= k < 64 * w + b + ones ensures Has(s, k) {
      BitShr(s[w], b, k - 64 * w - b);
    }
    if b + ones < 64 {
      BitShr(s[w], b, ones);
    }
  }

  /** The first set bit of the masked word starts the run looked for. */
  lemma FoundForward(s: seq<nat>, start: nat, w: nat, x: nat)
    requires WordsValid(s) && w < |s| && ForwardAt(s, start, w, x) && x != 0
    ensures var b := CountrZero(x, 0);
      && b < 64
      && start <= 64 * w + b && NoneIn(s, start, 64 * w + b)
      && 0 < CountrOne(Shr(s[w], b), 0)
  {
    hide Bit, Pow2;
    NonzeroHasBit(x);
    var b := CountrZero(x, 0);
    assert Bit(x, b) && Bit(s[w], b);
    BitShr(s[w], b, 0);
    forall k | start <= k < 64 * w + b ensures !Has(s, k) {
      if k >= 64 * w {
        assert !Bit(x, k - 64 * w);
      }
    }
  }

  /** A run that fills its words so far ends in word `w`. */
  lemma RunEndsForward(s: seq<nat>, w: nat)
    requires WordsValid(s) && w < |s| && s[w] != Ones()
    ensures var e := 64 * w + CountrOne(s[w], 0);
      e < 64 * (w + 1) && AllIn(s, 64 * w, e) && !Has(s, e)
  {
    hide Bit, Pow2;
    NotOnesHasClearBit(s[w]);
    var ones := CountrOne(s[w], 0);
    forall k | 64 * w <= k < 64 * w + ones ensures Has(s, k) {
      assert Bit(s[w], k - 64 * w);
    }
  }

  // ---- scanning backward ----

  /** Nothing set from word `w + 1` up to `end`, and `x` is word `w` without its bits from `end` on. */
  ghost predicate BackwardAt(s: seq<nat>, end: nat, w: nat, x: nat)
    requires w < |s| && end <= 64 * |s|
  {
    && x < Pow2(64)
    && 64 * w < end
    && NoneIn(s, 64 * (w + 1), end)
    && forall j :: 0 <= j < 64 ==> (Bit(x, j) <==> 64 * w + j < end && Bit(s[w], j))
  }

  lemma LastWord(s: seq<nat>, end: nat)
    requires WordsValid(s) && 0 < end <= 64 * |s|
    ensures var w := (end - 1) / 64;
      BackwardAt(s, end, w, And(s[w], EndMask((end - 1) % 64)))
  {
    hide Bit, Pow2, EndMask, And;
    var w := (end - 1) / 64;
    forall j | 0 <= j < 64
      ensures Bit(And(s[w], EndMask((end - 1) % 64)), j) <==> 64 * w + j < end && Bit(s[w], j)
    {
      BitAnd(s[w], EndMask((end - 1) % 64), j);
      EndMaskBits((end - 1) % 64, j);
    }
  }

  lemma NothingThereBackward(s: seq<nat>, end: nat, w: nat)
    requires WordsValid(s) && w < |s| && end <= 64 * |s| && BackwardAt(s, end, w, 0)
    ensures NoneIn(s, 64 * w, end)
    ensures w > 0 ==> BackwardAt(s, end, w - 1, s[w - 1])
  {
    hide Bit, Pow2;
    forall k | 64 * w <= k < end ensures !Has(s, k) {
      if k < 64 * (w + 1) {
        BitZero(k % 64);
        assert Bit(0, k % 64) <==> 64 * w + k % 64 < end && Bit(s[w], k % 64);
      }
    }
  }

  lemma ShiftedBits(x: nat, e: nat, j: nat)
    requires j < 64
    ensures Bit(Low(Shl(x, e), 64), j) == (j >= e && Bit(x, j - e))
  {
    BitLow(Shl(x, e), 64, j);
    BitShl(x, e, j);
  }

  /** The last set bit of the masked word ends the run looked for. */
  lemma FoundBackward(s: seq<nat>, end: nat, w: nat, x: nat)
    requires WordsValid(s) && w < |s| && end <= 64 * |s| && BackwardAt(s, end, w, x) && x != 0
    ensures var empty := CountlZero(x, 0);
      var last := 64 * (w + 1) - empty;
      empty < 64 && Bit(x, 63 - empty) && 0 < last <= end && NoneIn(s, last, end)
  {
    hide Bit, Pow2, CountlZero;
    NonzeroHasBit(x);
    var empty := CountlZero(x, 0);
    var last := 64 * (w + 1) - empty;
    assert 64 * w + (63 - empty) < end;
    forall k | last <= k < end ensures !Has(s, k) {
      if k < 64 * (w + 1) {
        assert !Bit(x, k - 64 * w);
      }
    }
  }

  /** The leading ones of a word shifted up by `e`, bit by bit. */
  lemma OnesAfterShift(x: nat, e: nat)
    requires e < 64 && Bit(x, 63 - e)
    ensures var ones := CountlOne(Low(Shl(x, e), 64), 0);
      && 0 < ones <= 64 - e
      && (forall j :: 64 - e - ones <= j < 64 - e ==> Bit(x, j))
      && (e + ones < 64 ==> !Bit(x, 63 - e - ones))
  {
    hide Bit, Pow2, Low, Shl;
    var y := Low(Shl(x, e), 64);
    var ones := CountlOne(y, 0);
    ShiftedBits(x, e, 63);
    if e > 0 {
      ShiftedBits(x, e, e - 1);
    }
    forall j | 64 - e - ones <= j < 64 - e ensures Bit(x, j) {
      ShiftedBits(x, e, j + e);
      assert Bit(y, j + e);
    }
    if e + ones < 64 {
      ShiftedBits(x, e, 63 - ones);
    }
  }

  /** How far down a run that ends inside a word goes there. */
  lemma RunInWordBackward(s: seq<nat>, end: nat, w: nat, x: nat)
    requires WordsValid(s) && w < |s| && end <= 64 * |s| && BackwardAt(s, end, w, x)
    requires CountlZero(x, 0) < 64 && 64 * (w + 1) - CountlZero(x, 0) <= end && Bit(x, 63 - CountlZero(x, 0))
    ensures var empty := CountlZero(x, 0);
      var ones := CountlOne(Low(Shl(x, empty), 64), 0);
      var last := 64 * (w + 1) - empty;
      && 0 < ones && empty + ones <= 64
      && AllIn(s, last - ones, last)
      && (empty + ones < 64 ==> !Has(s, last - ones - 1))
  {
    hide Bit, Pow2, Low, Shl, CountlZero, CountlOne, WordsValid;
    var empty := CountlZero(x, 0);
    OnesAfterShift(x, empty);
    var ones := CountlOne(Low(Shl(x, empty), 64), 0);
    var last := 64 * (w + 1) - empty;
    forall k | last - ones <= k < last ensures Has(s, k) {
      assert Bit(x, k - 64 * w);
    }
    if empty + ones < 64 {
      assert !Bit(x, 63 - empty - ones);
    }
  }

  /** A run that fills its words so far begins in word `w`. */
  lemma RunBeginsBackward(s: seq<nat>, w: nat)
    requires WordsValid(s) && w < |s| && s[w] != Ones()
    ensures var a := 64 * (w + 1) - CountlOne(s[w], 0);
      64 * w < a && AllIn(s, a, 64 * (w + 1)) && !Has(s, a - 1)
  {
    hide Bit, Pow2, CountlOne, Ones;
    NotOnesHasClearBit(s[w]);
    var ones := CountlOne(s[w], 0);
    forall k | 64 * (w + 1) - ones <= k < 64 * (w + 1) ensures Has(s, k) {
      assert Bit(s[w], k - 64 * w);
    }
    assert !Bit(s[w], 63 - ones);
  }

  class BitArray {
    const m_data: array<nat>

    /** `BitArray()`: all bits clear. */
    constructor (words: nat)
      requires words > 0
      ensures Valid() && fresh(m_data) && m_data.Length == words
      ensures forall k :: 0 <= k < N() ==> !Has(m_data[..], k)
    {
      m_data := new nat[words](_ => 0);
      new;
      forall k | 0 <= k < N() ensures !Has(m_data[..], k) {
        BitZero(k % 64);
      }
    }

    function N(): nat {
      64 * m_data.Length
    }

    ghost predicate Valid()
      reads m_data
    {
      m_data.Length > 0 && WordsValid(m_data[..])
    }

    /** `BitArray(other, start, end)`: the part of another array inside a range. */
    constructor FromRange(other: BitArray, start: nat, end: nat)
      requires other.Valid()
      ensures Valid() && fresh(m_data) && N() == other.N()
      ensures forall k :: 0 <= k < N() ==>
        (Has(m_data[..], k) <==> end <= N() && start <= k < end && Has(other.m_data[..], k))
    {
      m_data := new nat[other.m_data.Length](_ => 0);
      new;
      CopyRange(other, start, end);
    }

    method CopyRange(other: BitArray, start: nat, end: nat)
      requires Valid() && other.Valid() && other.m_data != m_data && N() == other.N()
      requires forall w :: 0 <= w < m_data.Length ==> m_data[w] == 0
      modifies m_data
      ensures Valid()
      ensures forall k :: 0 <= k < N() ==>
        (Has(m_data[..], k) <==> end <= N() && start <= k < end && Has(other.m_data[..], k))
    {
      hide Bit, Pow2;
      if start >= end || end > N() {
        ZeroWords(m_data[..]);
        return;
      }
      var first_word, last_word := start / 64, (end - 1) / 64;
      var start_mask, end_mask := StartMask(start % 64), EndMask((end - 1) % 64);
      if first_word == last_word {
        m_data[first_word] := And(And(other.m_data[first_word], start_mask), end_mask);
      } else {
        m_data[first_word] := And(other.m_data[first_word], start_mask);
        for word := first_word + 1 to last_word
          invariant forall w :: 0 <= w < m_data.Length ==>
            m_data[w] == (if first_word < w < word then other.m_data[w]
                          else if w == first_word then And(other.m_data[w], start_mask) else 0)
        {
          m_data[word] := other.m_data[word];
        }
        m_data[last_word] := And(other.m_data[last_word], end_mask);
      }
      forall k | 0 <= k < N()
        ensures Has(m_data[..], k) <==> start <= k < end && Has(other.m_data[..], k)
      {
        BitZero(k % 64);
        if first_word <= k / 64 <= last_word {
          MaskedIsInRange(start, end, k);
          AndBits(other.m_data[k / 64], start_mask, end_mask, k % 64);
        }
      }
    }

    predicate Get(index: nat): (r: bool)
      requires index < N()
      reads m_data
      ensures r <==> Has(m_data[..], index)
    {
      ShlValue(1, index % 64);
      AndPower(m_data[index / 64], index % 64);
      And(m_data[index / 64], Shl(1, index % 64)) != 0
    }

    method Set(index: nat)
      requires Valid() && index < N()
      modifies m_data
      ensures Valid()
      ensures forall k :: 0 <= k < N() ==> (Has(m_data[..], k) <==> k == index || Has(old(m_data[..]), k))
    {
      hide Bit, Pow2;
      OneBitWord(index % 64);
      OrBound(m_data[index / 64], Shl(1, index % 64), 64);
      m_data[index / 64] := Or(m_data[index / 64], Shl(1, index % 64));
      forall k | 0 <= k < N() ensures Has(m_data[..], k) <==> k == index || Has(old(m_data[..]), k) {
        BitOr(old(m_data[index / 64]), Shl(1, index % 64), k % 64);
        OneBitWordBits(index % 64, k % 64);
      }
    }

    method Unset(index: nat)
      requires Valid() && index < N()
      modifies m_data
      ensures Valid()
      ensures forall k :: 0 <= k < N() ==> (Has(m_data[..], k) <==> k != index && Has(old(m_data[..]), k))
    {
      hide Bit, Pow2;
      OneBitWord(index % 64);
      m_data[index / 64] := And(m_data[index / 64], Not(Shl(1, index % 64), 64));
      forall k | 0 <= k < N() ensures Has(m_data[..], k) <==> k != index && Has(old(m_data[..]), k) {
        BitAnd(old(m_data[index / 64]), Not(Shl(1, index % 64), 64), k % 64);
        BitNot(Shl(1, index % 64), 64, k % 64);
        OneBitWordBits(index % 64, k % 64);
      }
    }

    /** Set a half-open range; an empty or overlong one is ignored. */
    method SetRange(start: nat, end: nat)
      requires Valid()
      modifies m_data
      ensures Valid()
      ensures forall k :: 0 <= k < N() ==>
        (Has(m_data[..], k) <==> (end <= N() && start <= k < end) || Has(old(m_data[..]), k))
    {
      hide Bit, Pow2;
      if start >= end || end > N() {
        return;
      }
      ghost var was := m_data[..];
      var first_word, last_word := start / 64, (end - 1) / 64;
      var start_mask, end_mask := StartMask(start % 64), EndMask((end - 1) % 64);
      if first_word == last_word {
        AndBound(start_mask, end_mask);
        OrBound(m_data[first_word], And(start_mask, end_mask), 64);
        m_data[first_word] := Or(m_data[first_word], And(start_mask, end_mask));
      } else {
        OrBound(m_data[first_word], start_mask, 64);
        OrBound(m_data[last_word], end_mask, 64);
        m_data[first_word] := Or(m_data[first_word], start_mask);
        for word := first_word + 1 to last_word
          invariant forall w :: 0 <= w < m_data.Length ==>
            m_data[w] == (if first_word < w < word then Ones()
                          else if w == first_word then Or(was[w], start_mask) else was[w])
        {
          m_data[word] := Ones();
        }
        m_data[last_word] := Or(m_data[last_word], end_mask);
      }
      forall k | 0 <= k < N() ensures Has(m_data[..], k) <==> start <= k < end || Has(was, k) {
        if first_word <= k / 64 <= last_word {
          MaskedIsInRange(start, end, k);
          OrBits(was[k / 64], start_mask, end_mask, k % 64);
        }
      }
    }

    /** Clear a half-open range; an empty or overlong one is ignored. */
    method UnsetRange(start: nat, end: nat)
      requires Valid()
      modifies m_data
      ensures Valid()
      ensures forall k :: 0 <= k < N() ==>
        (Has(m_data[..], k) <==> !(end <= N() && start <= k < end) && Has(old(m_data[..]), k))
    {
      hide Bit, Pow2;
      if start >= end || end > N() {
        return;
      }
      ghost var was := m_data[..];
      var first_word, last_word := start / 64, (end - 1) / 64;
      var start_mask, end_mask := KeepBelow(start % 64), KeepAbove((end - 1) % 64);
      if first_word == last_word {
        m_data[first_word] := And(m_data[first_word], Or(start_mask, end_mask));
      } else {
        m_data[first_word] := And(m_data[first_word], start_mask);
        for word := first_word + 1 to last_word
          invariant forall w :: 0 <= w < m_data.Length ==>
            m_data[w] == (if first_word < w < word then 0
                          else if w == first_word then And(was[w], start_mask) else was[w])
        {
          m_data[word] := 0;
        }
        m_data[last_word] := And(m_data[last_word], end_mask);
      }
      forall k | 0 <= k < N() ensures Has(m_data[..], k) <==> !(start <= k < end) && Has(was, k) {
        if first_word <= k / 64 <= last_word {
          MaskedIsInRange(start, end, k);
          KeepBits(was[k / 64], start % 64, (end - 1) % 64, k % 64);
        }
      }
    }

    /** Whether any bit of a half-open range is set. */
    method AnyInRange(start: nat, end: nat) returns (r: bool)
      requires Valid()
      ensures r <==> end <= N() && SomeIn(m_data[..], start, end)
    {
      hide Bit, Pow2;
      if start >= end || end > N() {
        return false;
      }
      ghost var s := m_data[..];
      var first, last := start / 64, (end - 1) / 64;
      var first_mask, last_mask := StartMask(start % 64), LastMask((end - 1) % 64);
      if first == last {
        MaskedWord(s, start, end, first);
        return And(And(m_data[first], first_mask), last_mask) != 0;
      }
      MaskedEnds(s, start, end);
      hide SomeIn;
      SomeInSplit(s, start, 64 * (first + 1), end);
      SomeInSplit(s, 64 * (first + 1), 64 * last, end);
      if And(m_data[first], first_mask) != 0 || And(m_data[last], last_mask) != 0 {
        return true;
      }
      for word := first + 1 to last
        invariant SomeIn(s, 64 * (first + 1), 64 * last) <==> SomeIn(s, 64 * word, 64 * last)
      {
        SomeInSplit(s, 64 * word, 64 * (word + 1), 64 * last);
        WholeWord(s, word);
        if m_data[word] != 0 {
          return true;
        }
      }
      NoneInEmpty(s, 64 * last);
      return false;
    }

    /** Whether every bit of a half-open range is set; false for an empty range. */
    method AllInRange(start: nat, end: nat) returns (r: bool)
      requires Valid()
      ensures r <==> start < end <= N() && AllIn(m_data[..], start, end)
    {
      hide Bit, Pow2;
      if start >= end || end > N() {
        return false;
      }
      ghost var s := m_data[..];
      var first, last := start / 64, (end - 1) / 64;
      var first_mask, last_mask := StartMask(start % 64), LastMask((end - 1) % 64);
      if first == last {
        AllMaskedWord(s, start, end, first);
        var mask := And(first_mask, last_mask);
        return And(m_data[first], mask) == mask;
      }
      AllMaskedEnds(s, start, end);
      if And(m_data[first], first_mask) != first_mask || And(m_data[last], last_mask) != last_mask {
        return false;
      }
      for word := first + 1 to last
        invariant AllIn(s, 64 * (first + 1), 64 * word)
      {
        AllWholeWord(s, word);
        if m_data[word] != Ones() {
          return false;
        }
      }
      return true;
    }

    /** The first set bit at or after `start`, and the end of its run; (N, N) when there is none. */
    method FirstRangeFrom(start: nat) returns (r: Range)
      requires Valid()
      ensures IsFirstRange(m_data[..], start, r)
    {
      hide Bit, Pow2, Has, ForwardAt, CountrZero, CountrOne, Ones, StartMask, And, Shr;
      if start >= N() {
        return (N(), N());
      }
      ghost var s := m_data[..];
      var word_index := start / 64;
      var word := And(m_data[word_index], StartMask(start % 64));
      FirstWord(s, start);
      while word == 0
        invariant word_index < m_data.Length && ForwardAt(s, start, word_index, word)
        decreases m_data.Length - word_index
      {
        NothingThere(s, start, word_index);
        word_index := word_index + 1;
        if word_index == m_data.Length {
          return (N(), N());
        }
        word := m_data[word_index];
      }
      FoundForward(s, start, word_index, word);
      var first := 64 * word_index + CountrZero(word, 0);
      var first_bit := first % 64;
      var first_ones := CountrOne(Shr(m_data[word_index], first_bit), 0);
      RunInWord(s, word_index, first_bit);
      if first_bit + first_ones < 64 {
        return (first, first + first_ones);
      }
      word_index := word_index + 1;
      while word_index < m_data.Length
        invariant first < 64 * word_index <= N() && AllIn(s, first, 64 * word_index)
      {
        word := m_data[word_index];
        AllWholeWord(s, word_index);
        if word != Ones() {
          RunEndsForward(s, word_index);
          return (first, 64 * word_index + CountrOne(word, 0));
        }
        word_index := word_index + 1;
      }
      return (first, N());
    }

    /** The last set bit below `end`, with the whole run that ends there; (0, 0) when there is none. */
    method LastRangeFrom(end: nat) returns (r: Range)
      requires Valid()
      ensures IsLastRange(m_data[..], if end > N() then N() else end, r)
    {
      hide Bit, Pow2, Has, BackwardAt, CountlZero, CountlOne, Ones, EndMask, And, Low, Shl;
      if end == 0 {
        return (0, 0);
      }
      ghost var s := m_data[..];
      var end := if end > N() then N() else end;
      var word_index := (end - 1) / 64;
      var word := And(m_data[word_index], EndMask((end - 1) % 64));
      LastWord(s, end);
      while word == 0
        invariant word_index < m_data.Length && BackwardAt(s, end, word_index, word)
        decreases word_index
      {
        NothingThereBackward(s, end, word_index);
        if word_index == 0 {
          return (0, 0);
        }
        word_index := word_index - 1;
        word := m_data[word_index];
      }
      FoundBackward(s, end, word_index, word);
      var empty_bits := CountlZero(word, 0);
      var ones := CountlOne(Low(Shl(word, empty_bits), 64), 0);
      var last := 64 * (word_index + 1) - empty_bits;
      RunInWordBackward(s, end, word_index, word);
      if empty_bits + ones < 64 {
        return (last - ones, last);
      }
      while word_index != 0
        invariant 64 * word_index < last <= end && AllIn(s, 64 * word_index, last)
        decreases word_index
      {
        word_index := word_index - 1;
        word := m_data[word_index];
        AllWholeWord(s, word_index);
        if word != Ones() {
          RunBeginsBackward(s, word_index);
          return (64 * (word_index + 1) - CountlOne(word, 0), last);
        }
      }
      return (0, last);
    }

    /** Walking the iterator from `begin()` to `end()` visits exactly the maximal runs, ascending. */
    method Ranges() returns (rs: seq<Range>)
      requires Valid()
      ensures forall a: nat, b: nat :: (a, b) in rs <==> MaximalRun(m_data[..], a, b)
      ensures forall i :: 0 <= i < |rs| - 1 ==> rs[i].1 < rs[i + 1].0
    {
      hide Has;
      ghost var s := m_data[..];
      rs := [];
      var it := FirstRangeFrom(0);
      ghost var done := 0;
      while it != (N(), N())
        invariant IsFirstRange(s, done, it)
        invariant RunsBelow(s, done, rs)
        decreases N() - done
      {
        NextRun(s, done, it, rs);
        rs := rs + [it];
        done := it.1;
        it := FirstRangeFrom(it.1);
      }
      AllRunsSeen(s, done, rs);
    }
  }

  /** `(1 << b) - 1` */
  function KeepBelow(b: nat): (w: nat)
    requires b < 64
    ensures w < Pow2(64)
  {
    ShlValue(1, b);
    Pow2Monotone(b, 64);
    Shl(1, b) - 1
  }

  /** `e == 63 ? 0 : ~((1 << (e + 1)) - 1)` */
  function KeepAbove(e: nat): (w: nat)
    requires e < 64
    ensures w < Pow2(64)
  {
    ShlValue(1, e + 1);
    Pow2Monotone(e + 1, 64);
    if e == 63 then 0 else Not(Shl(1, e + 1) - 1, 64)
  }

  lemma KeepMasks(b: nat, e: nat, j: nat)
    requires b < 64 && e < 64 && j < 64
    ensures Bit(KeepBelow(b), j) == !Bit(StartMask(b), j)
    ensures Bit(KeepAbove(e), j) == !Bit(EndMask(e), j)
  {
    StartMaskBits(b, j);
    EndMaskBits(e, j);
    ShlValue(1, b);
    BitNot(0, b, j);
    BitZero(j);
    if e < 63 {
      ShlValue(1, e + 1);
      Pow2Monotone(e + 1, 64);
      BitNot(Shl(1, e + 1) - 1, 64, j);
    }
    hide StartMask;
  }

  lemma KeepBits(w: nat, b: nat, e: nat, j: nat)
    requires b < 64 && e < 64 && j < 64
    ensures Bit(And(w, KeepBelow(b)), j) == (Bit(w, j) && !Bit(StartMask(b), j))
    ensures Bit(And(w, KeepAbove(e)), j) == (Bit(w, j) && !Bit(EndMask(e), j))
    ensures Bit(And(w, Or(KeepBelow(b), KeepAbove(e))), j)
         == (Bit(w, j) && !(Bit(StartMask(b), j) && Bit(EndMask(e), j)))
    ensures !Bit(0, j)
  {
    hide Bit, StartMask, EndMask, KeepBelow, KeepAbove, And, Or;
    KeepMasks(b, e, j);
    BitAnd(w, KeepBelow(b), j);
    BitAnd(w, KeepAbove(e), j);
    BitAnd(w, Or(KeepBelow(b), KeepAbove(e)), j);
    BitOr(KeepBelow(b), KeepAbove(e), j);
    BitZero(j);
  }

  lemma AndBits(w: nat, a: nat, b: nat, j: nat)
    ensures Bit(And(And(w, a), b), j) == (Bit(w, j) && Bit(a, j) && Bit(b, j))
    ensures Bit(And(w, a), j) == (Bit(w, j) && Bit(a, j))
    ensures Bit(And(w, b), j) == (Bit(w, j) && Bit(b, j))
  {
    BitAnd(And(w, a), b, j);
    BitAnd(w, a, j);
    BitAnd(w, b, j);
  }

  lemma OrBits(w: nat, a: nat, b: nat, j: nat)
    requires j < 64
    ensures Bit(Or(w, And(a, b)), j) == (Bit(w, j) || (Bit(a, j) && Bit(b, j)))
    ensures Bit(Or(w, a), j) == (Bit(w, j) || Bit(a, j))
    ensures Bit(Or(w, b), j) == (Bit(w, j) || Bit(b, j))
    ensures Bit(Ones(), j)
  {
    BitOr(w, And(a, b), j);
    BitAnd(a, b, j);
    BitOr(w, a, j);
    BitOr(w, b, j);
    OnesBits(j);
  }

  lemma AndBound(a: nat, b: nat)
    requires a < Pow2(64)
    ensures And(a, b) < Pow2(64)
  {
  }

  lemma OneBitWord(b: nat)
    requires b < 64
    ensures Shl(1, b) < Pow2(64)
  {
    assert Pow2(63 + 1) == 2 * Pow2(63);
    hide Pow2, Shl;
    ShlValue(1, b);
    Pow2Monotone(b, 63);
  }

  lemma OneBitWordBits(b: nat, j: nat)
    ensures Bit(Shl(1, b), j) == (j == b)
  {
    BitShl(1, b, j);
    if j > b {
      BitZero(j - b - 1);
    }
  }

  lemma ZeroWords(s: seq<nat>)
    requires forall w :: 0 <= w < |s| ==> s[w] == 0
    ensures forall k :: 0 <= k < 64 * |s| ==> !Has(s, k)
  {
    forall k | 0 <= k < 64 * |s| ensures !Has(s, k) {
      BitZero(k % 64);
    }
  }
}
