/** The decoding tables of stb_image's `stbi__zhuffman` and the method that fills them. */
module ZHuffman {
  import opened Words
  import opened Canonical
  import opened BitReversal

  const FastBits := 9
  const NumSymbols := 288

  /** Symbol `j` has a code short enough for the fast table and its codeword starts the index `x`. */
  ghost predicate HitsFast(lens: seq<nat>, j: nat, x: nat)
    requires j < |lens|
  {
    lens[j] <= FastBits && Matches(lens, j, x)
  }

  /** The fast table entry for index `x` once the first `n` symbols are stored: length and symbol
      of the last one that hits, or zero. */
  ghost function FastEntry(lens: seq<nat>, x: nat, n: nat): nat
    requires n <= |lens|
  {
    if n == 0 then 0
    else if HitsFast(lens, n - 1, x) then 512 * lens[n - 1] + (n - 1)
    else FastEntry(lens, x, n - 1)
  }

  lemma {:induction false} FastEntryMiss(lens: seq<nat>, x: nat, n: nat)
    requires n <= |lens|
    requires forall j :: 0 <= j < n ==> !HitsFast(lens, j, x)
    ensures FastEntry(lens, x, n) == 0
  {
    if n > 0 {
      FastEntryMiss(lens, x, n - 1);
    }
  }

  /** Because codes are prefix free, the entry is that of the one symbol that hits. */
  lemma {:induction false} FastEntryHit(lens: seq<nat>, x: nat, n: nat, j: nat)
    requires IsLengths(lens) && Kraft(lens) && j < n <= |lens| && HitsFast(lens, j, x)
    ensures FastEntry(lens, x, n) == 512 * lens[j] + j
  {
    if HitsFast(lens, n - 1, x) {
      PrefixFree(lens, j, n - 1, x);
    } else {
      FastEntryHit(lens, x, n - 1, j);
    }
  }

  /** Indices with the same low bits are a multiple of 2^s apart. */
  lemma LowGap(j: nat, x: nat, s: nat)
    requires j < x < j + Pow2(s)
    ensures Low(x, s) != Low(j, s)
  {
    Split(x, s);
    Split(j, s);
    NotAMultiple(x - j, Shr(x, s) - Shr(j, s), Pow2(s));
    Distribute(Shr(x, s), Shr(j, s), Pow2(s));
  }

  lemma NotAMultiple(d: nat, q: int, p: nat)
    requires 0 < d < p
    ensures d != p * q
  {
    if q >= 1 {
      assert p * q == p + p * (q - 1);
    }
  }

  lemma Distribute(a: int, b: int, p: int)
    ensures p * (a - b) == p * a - p * b
    ensures p * (b + 1) == p * b + p
  {
  }

  lemma LowStep(j: nat, s: nat)
    ensures Low(j + Pow2(s), s) == Low(j, s)
  {
    Split(j, s);
    Distribute(0, Shr(j, s), Pow2(s));
    SplitUnique(Low(j, s), Shr(j, s) + 1, s);
  }

  class Table {
    const fast: array<nat>
    const firstcode: array<nat>
    const maxcode: array<nat>
    const firstsymbol: array<nat>
    const size: array<nat>
    const value: array<nat>

    constructor ()
      ensures Shape() && fresh(Repr())
    {
      fast := new nat[512];
      firstcode := new nat[16];
      maxcode := new nat[17];
      firstsymbol := new nat[16];
      size := new nat[NumSymbols];
      value := new nat[NumSymbols];
    }

    ghost function Repr(): set<object> {
      {fast, firstcode, maxcode, firstsymbol, size, value}
    }

    ghost predicate Shape() {
      && fast.Length == 512 && firstcode.Length == 16 && maxcode.Length == 17
      && firstsymbol.Length == 16 && size.Length == NumSymbols && value.Length == NumSymbols
      && fast != size && fast != value && size != value
      && firstcode != firstsymbol
    }

    /** `firstcode`, `maxcode` and `firstsymbol` describe the code intervals of `lens`. */
    ghost predicate HasIntervals(lens: seq<nat>)
      requires Shape()
      reads firstcode, maxcode, firstsymbol
    {
      IntervalsBelow(lens, 16) && maxcode[16] == 0x1_0000
    }

    ghost predicate IntervalsBelow(lens: seq<nat>, n: nat)
      requires Shape() && n <= 16
      reads firstcode, maxcode, firstsymbol
    {
      forall l :: 1 <= l < n ==>
        && firstcode[l] == FirstCode(lens, l)
        && firstsymbol[l] == FirstSymbol(lens, l)
        && maxcode[l] == AlignedEnd(lens, l)
    }

    /** `size` and `value` list the first `n` symbols in code order. */
    ghost predicate HasSymbols(lens: seq<nat>, n: nat)
      requires Shape() && IsLengths(lens) && |lens| <= NumSymbols && n <= |lens|
      reads size, value
    {
      forall i :: 0 <= i < n && lens[i] > 0 ==>
        && Position(lens, i) < NumSymbols
        && size[Position(lens, i)] == lens[i]
        && value[Position(lens, i)] == i
    }

    ghost predicate HasFast(lens: seq<nat>, n: nat)
      requires Shape() && n <= |lens|
      reads fast
    {
      forall x :: 0 <= x < 512 ==> fast[x] == FastEntry(lens, x, n)
    }

    /** The table decodes the canonical code with these lengths. */
    ghost predicate Represents(lens: seq<nat>)
      reads Repr()
    {
      && Shape()
      && IsLengths(lens) && |lens| <= NumSymbols && Kraft(lens)
      && HasIntervals(lens) && HasSymbols(lens, |lens|) && HasFast(lens, |lens|)
    }

    /** Fill the tables; succeed exactly when the lengths satisfy Kraft's inequality. */
    method Build(sizelist: seq<nat>) returns (ok: bool)
      requires Shape() && IsLengths(sizelist) && |sizelist| <= NumSymbols
      modifies Repr()
      ensures ok <==> Kraft(sizelist)
      ensures ok ==> Represents(sizelist)
    {
      for x := 0 to 512
        invariant forall y :: 0 <= y < x ==> fast[y] == 0
      {
        fast[x] := 0;
      }
      var sizes := CountSizes(sizelist);
      var next_code;
      ok, next_code := AssignIntervals(sizelist, sizes);
      if ok {
        StoreSymbols(sizelist, next_code);
      }
    }

    static method CountSizes(sizelist: seq<nat>) returns (sizes: seq<nat>)
      requires IsLengths(sizelist)
      ensures |sizes| == 17
      ensures forall l :: 0 <= l <= 15 ==> sizes[l] == Total(sizelist, l)
    {
      sizes := seq(17, _ => 0);
      for i := 0 to |sizelist|
        invariant |sizes| == 17
        invariant forall l :: 0 <= l <= 15 ==> sizes[l] == Count(sizelist, l, i)
      {
        sizes := sizes[sizelist[i] := sizes[sizelist[i]] + 1];
      }
      sizes := sizes[0 := 0];
    }

    method AssignIntervals(ghost lens: seq<nat>, sizes: seq<nat>) returns (ok: bool, next_code: seq<nat>)
      requires Shape() && IsLengths(lens) && |lens| <= NumSymbols
      requires |sizes| == 17 && forall l :: 0 <= l <= 15 ==> sizes[l] == Total(lens, l)
      modifies firstcode, maxcode, firstsymbol
      ensures ok <==> Kraft(lens)
      ensures ok ==> HasIntervals(lens)
      ensures ok ==> |next_code| == 16 && forall l :: 1 <= l <= 15 ==> next_code[l] == FirstCode(lens, l)
    {
      IntervalBase(lens);
      hide FirstCode, FirstSymbol, Count, Pow2, Shl, Low, AlignedEnd, KraftUpTo;
      next_code := seq(16, _ => 0);
      for i := 1 to 16
      {
        if sizes[i] > Shl(1, i) {
          ShlValue(1, i);
          TooManyCodes(lens, i);
          return false, next_code;
        }
      }
      var code, k := 0, 0;
      for i := 1 to 16
        invariant |next_code| == 16
        invariant code == FirstCode(lens, i) && k == FirstSymbol(lens, i)
        invariant EndCode(lens, i - 1) <= Pow2(i - 1)
        invariant forall l :: 1 <= l < i ==> next_code[l] == FirstCode(lens, l)
        invariant IntervalsBelow(lens, i)
      {
        IntervalStep(lens, i);
        next_code := next_code[i := code];
        firstcode[i] := Low(code, 16);
        firstsymbol[i] := Low(k, 16);
        code := code + sizes[i];
        if sizes[i] != 0 {
          if code - 1 >= Shl(1, i) {
            TooManyCodes(lens, i);
            return false, next_code;
          }
        }
        maxcode[i] := Shl(code, 16 - i);
        code := Shl(code, 1);
        k := k + sizes[i];
      }
      maxcode[16] := 0x1_0000;
      EndCodeIsKraftSum(lens, 15);
      ok := true;
    }

    method StoreSymbols(sizelist: seq<nat>, next_code0: seq<nat>)
      requires Shape() && IsLengths(sizelist) && |sizelist| <= NumSymbols && Kraft(sizelist)
      requires HasIntervals(sizelist)
      requires forall x :: 0 <= x < 512 ==> fast[x] == 0
      requires |next_code0| == 16 && forall l :: 1 <= l <= 15 ==> next_code0[l] == FirstCode(sizelist, l)
      modifies size, value, fast
      ensures HasSymbols(sizelist, |sizelist|) && HasFast(sizelist, |sizelist|)
    {
      hide FirstCode, FirstSymbol, Pow2, HitsFast, Kraft, AlignedEnd, Shl, Or, Low;
      var next_code := next_code0;
      for i := 0 to |sizelist|
        invariant |next_code| == 16
        invariant forall l :: 1 <= l <= 15 ==> next_code[l] == FirstCode(sizelist, l) + Count(sizelist, l, i)
        invariant HasSymbols(sizelist, i) && HasFast(sizelist, i)
      {
        var s := sizelist[i];
        if s != 0 {
          var c := next_code[s] - firstcode[s] + firstsymbol[s];
          var fastv := Low(Or(Shl(s, 9), i), 16);
          FastValue(s, i);
          StorePair(sizelist, i, c, s);
          if s <= FastBits {
            StoreFast(sizelist, i, s, next_code[s], fastv);
          } else {
            NoHit(sizelist, i);
          }
          next_code := next_code[s := next_code[s] + 1];
        } else {
          NoHit(sizelist, i);
        }
      }
    }

    /** Store the length of symbol `i` and the symbol at its position in code order. */
    method StorePair(ghost lens: seq<nat>, i: nat, c: nat, s: nat)
      requires Shape() && IsLengths(lens) && |lens| <= NumSymbols
      requires i < |lens| && s == lens[i] > 0 && c == Position(lens, i) && HasSymbols(lens, i)
      modifies size, value
      ensures HasSymbols(lens, i + 1)
    {
      hide FirstSymbol, Count;
      PositionsDistinct(lens, i);
      size[c] := s;
      value[c] := i;
    }

    /** Store `fastv` at every index whose low bits are the reversed code of symbol `i`. */
    method StoreFast(ghost lens: seq<nat>, ghost i: nat, s: nat, code: nat, fastv: nat)
      requires Shape() && IsLengths(lens) && |lens| <= NumSymbols && Kraft(lens)
      requires i < |lens| && s == lens[i] && 0 < s <= FastBits && code == Code(lens, i)
      requires fastv == 512 * s + i && HasFast(lens, i)
      modifies fast
      ensures HasFast(lens, i + 1)
    {
      hide Reverse, Low, Shl, Pow2, Matches, FirstCode, Count;
      ghost var rev := Reverse(code, s);
      var j := BitReverseN(code, s);
      BitReverseNReverses(code, s);
      LowSmall(j, s);
      forall x | 0 <= x < j ensures Low(x, s) != rev {
        LowSmall(x, s);
      }
      forall x: nat ensures HitsFast(lens, i, x) <==> Low(x, s) == rev {
        MatchesIffReversed(lens, i, x);
      }
      while j < Shl(1, FastBits)
        invariant Low(j, s) == rev
        invariant forall x :: 0 <= x < 512 ==>
          fast[x] == if HitsFast(lens, i, x) && x < j then fastv else FastEntry(lens, x, i)
        decreases 512 - j
      {
        ShlValue(1, FastBits);
        Pow2Values();
        fast[j] := fastv;
        forall x | j < x < j + Pow2(s) ensures !HitsFast(lens, i, x) {
          LowGap(j, x, s);
        }
        LowStep(j, s);
        ShlValue(1, s);
        j := j + Shl(1, s);
      }
      ShlValue(1, FastBits);
      Pow2Values();
    }
  }

  lemma MulCommutes(a: nat, b: nat)
    ensures a * b == b * a
  {
  }

  lemma PositionsDistinct(lens: seq<nat>, i: nat)
    requires i < |lens| && lens[i] > 0
    ensures Position(lens, i) < |lens|
    ensures forall j :: 0 <= j < i && lens[j] > 0 ==> Position(lens, j) != Position(lens, i)
  {
    PositionInjective(lens, i, i);
    forall j | 0 <= j < i && lens[j] > 0 ensures Position(lens, j) != Position(lens, i) {
      PositionInjective(lens, i, j);
    }
  }

  lemma IntervalBase(lens: seq<nat>)
    ensures FirstCode(lens, 1) == 0 && FirstSymbol(lens, 1) == 0 && EndCode(lens, 0) <= Pow2(0)
  {
    assert FirstCode(lens, 0) == 0 && FirstSymbol(lens, 0) == 0 && Total(lens, 0) == 0;
  }

  lemma NoHit(lens: seq<nat>, i: nat)
    requires i < |lens| && (lens[i] == 0 || lens[i] > FastBits)
    ensures forall x: nat :: !HitsFast(lens, i, x)
  {
  }

  /** What one round of the interval loop computes, with all casts exact. */
  lemma IntervalStep(lens: seq<nat>, l: nat)
    requires |lens| <= NumSymbols && 1 <= l <= MaxLen && EndCode(lens, l - 1) <= Pow2(l - 1)
    ensures Low(FirstCode(lens, l), 16) == FirstCode(lens, l)
    ensures Low(FirstSymbol(lens, l), 16) == FirstSymbol(lens, l)
    ensures Shl(1, l) == Pow2(l)
    ensures Total(lens, l) == 0 ==> EndCode(lens, l) <= Pow2(l)
    ensures Shl(EndCode(lens, l), 16 - l) == AlignedEnd(lens, l)
    ensures Shl(EndCode(lens, l), 1) == FirstCode(lens, l + 1)
    ensures FirstSymbol(lens, l) + Total(lens, l) == FirstSymbol(lens, l + 1)
  {
    Pow2Values();
    Pow2Monotone(l, 15);
    FirstSymbolIsUsed(lens, l);
    LowSmall(FirstCode(lens, l), 16);
    LowSmall(FirstSymbol(lens, l), 16);
    ShlValue(1, l);
    ShlValue(EndCode(lens, l), 16 - l);
    MulCommutes(EndCode(lens, l), Pow2(16 - l));
  }

  lemma FastValue(s: nat, i: nat)
    requires s <= MaxLen && i < NumSymbols
    ensures Low(Or(Shl(s, 9), i), 16) == 512 * s + i
    ensures Shr(512 * s + i, 9) == s && And(512 * s + i, 511) == i
  {
    hide Shl, Or, Low, Shr, And, Pow2;
    Pow2Values();
    OrCommutes(Shl(s, 9), i);
    OrAppend(i, s, 9);
    LowSmall(512 * s + i, 16);
    SplitUnique(i, s, 9);
    AndMask(512 * s + i, 9);
  }

  lemma TooManyCodes(lens: seq<nat>, l: nat)
    requires l <= MaxLen && EndCode(lens, l) > Pow2(l)
    ensures !Kraft(lens)
  {
    if Kraft(lens) {
      KraftFits(lens, l);
    }
  }
}
