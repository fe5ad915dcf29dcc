/** The canonical Huffman codes of RFC 1951, section 3.2.2, and what makes a list of code
    lengths a prefix code.  Everything here is about code lengths, not about a decoder. */
module Canonical {
  import opened Words

  const MaxLen := 15

  /** Code lengths of the symbols 0, 1, ...; zero marks an unused symbol. */
  ghost predicate IsLengths(lens: seq<nat>) {
    forall i :: 0 <= i < |lens| ==> lens[i] <= MaxLen
  }

  /** How many of the first `n` symbols have code length `l`. */
  function Count(lens: seq<nat>, l: nat, n: nat): (c: nat)
    requires n <= |lens|
    ensures c <= n
  {
    if n == 0 then 0 else Count(lens, l, n - 1) + (if lens[n - 1] == l then 1 else 0)
  }

  /** `bl_count` of RFC 1951: unused symbols do not count. */
  function Total(lens: seq<nat>, l: nat): nat {
    if l == 0 then 0 else Count(lens, l, |lens|)
  }

  /** `next_code` of RFC 1951: the smallest code of length `l`. */
  function FirstCode(lens: seq<nat>, l: nat): nat {
    if l == 0 then 0 else 2 * (FirstCode(lens, l - 1) + Total(lens, l - 1))
  }

  /** One past the largest code of length `l`. */
  function EndCode(lens: seq<nat>, l: nat): nat {
    FirstCode(lens, l) + Total(lens, l)
  }

  /** The code RFC 1951 assigns to symbol `i`. */
  function Code(lens: seq<nat>, i: nat): nat
    requires i < |lens|
  {
    FirstCode(lens, lens[i]) + Count(lens, lens[i], i)
  }

  /** The number of used symbols with a code shorter than `l`. */
  function FirstSymbol(lens: seq<nat>, l: nat): nat {
    if l == 0 then 0 else FirstSymbol(lens, l - 1) + Total(lens, l - 1)
  }

  /** The position of symbol `i` in the order of its code. */
  function Position(lens: seq<nat>, i: nat): nat
    requires i < |lens|
  {
    FirstSymbol(lens, lens[i]) + Count(lens, lens[i], i)
  }

  /** Sum of 2^(l - length) over the first `n` symbols with length between 1 and `l`. */
  function KraftUpTo(lens: seq<nat>, l: nat, n: nat): nat
    requires n <= |lens|
  {
    if n == 0 then 0
    else KraftUpTo(lens, l, n - 1) + (if 1 <= lens[n - 1] <= l then Pow2(l - lens[n - 1]) else 0)
  }

  /** Kraft's inequality: the sum of 2^-length over the used symbols is at most one. */
  ghost predicate Kraft(lens: seq<nat>) {
    KraftUpTo(lens, MaxLen, |lens|) <= Pow2(MaxLen)
  }

  /** The codeword of symbol `i`, most significant bit first, is a prefix of the bit stream
      whose bit `k` is `Bit(stream, k)`. */
  ghost predicate Matches(lens: seq<nat>, i: nat, stream: nat)
    requires i < |lens|
  {
    && lens[i] > 0
    && forall k :: 0 <= k < lens[i] ==> Bit(stream, k) == Bit(Code(lens, i), lens[i] - 1 - k)
  }

  // ---- counting ----

  lemma {:induction false} CountMonotone(lens: seq<nat>, l: nat, m: nat, n: nat)
    requires m <= n <= |lens|
    ensures Count(lens, l, m) <= Count(lens, l, n)
  {
    if m < n {
      CountMonotone(lens, l, m, n - 1);
    }
  }

  /** Among symbols of one length the rank is strictly increasing. */
  lemma {:induction false} CountStrict(lens: seq<nat>, i: nat, n: nat)
    requires i < n <= |lens|
    ensures Count(lens, lens[i], i) < Count(lens, lens[i], n)
  {
    CountMonotone(lens, lens[i], i + 1, n);
  }

  /** Every rank below the count belongs to a symbol. */
  lemma {:induction false} CountOnto(lens: seq<nat>, l: nat, r: nat, n: nat) returns (i: nat)
    requires n <= |lens| && r < Count(lens, l, n)
    ensures i < n && lens[i] == l && Count(lens, l, i) == r
  {
    if lens[n - 1] == l && Count(lens, l, n - 1) == r {
      i := n - 1;
    } else {
      i := CountOnto(lens, l, r, n - 1);
    }
  }

  // ---- Kraft's sum and the RFC's code assignment ----

  lemma {:induction false} KraftStep(lens: seq<nat>, l: nat, n: nat)
    requires n <= |lens|
    ensures KraftUpTo(lens, l + 1, n) == 2 * KraftUpTo(lens, l, n) + Count(lens, l + 1, n)
  {
    if n > 0 {
      KraftStep(lens, l, n - 1);
    }
  }

  lemma {:induction false} KraftZero(lens: seq<nat>, n: nat)
    requires n <= |lens|
    ensures KraftUpTo(lens, 0, n) == 0
  {
    if n > 0 {
      KraftZero(lens, n - 1);
    }
  }

  /** The RFC's `next_code` recurrence computes partial Kraft sums. */
  lemma {:induction false} EndCodeIsKraftSum(lens: seq<nat>, l: nat)
    ensures EndCode(lens, l) == KraftUpTo(lens, l, |lens|)
  {
    if l == 0 {
      KraftZero(lens, |lens|);
    } else {
      EndCodeIsKraftSum(lens, l - 1);
      KraftStep(lens, l - 1, |lens|);
    }
  }

  /** If the codes up to length `m` fit then so do those up to a shorter length. */
  lemma {:induction false} EndCodeFits(lens: seq<nat>, l: nat, m: nat)
    requires l <= m && EndCode(lens, m) <= Pow2(m)
    ensures EndCode(lens, l) <= Pow2(l)
    decreases m - l
  {
    if l < m {
      EndCodeFits(lens, l + 1, m);
    }
  }

  lemma KraftFits(lens: seq<nat>, l: nat)
    requires Kraft(lens) && l <= MaxLen
    ensures EndCode(lens, l) <= Pow2(l)
  {
    EndCodeIsKraftSum(lens, MaxLen);
    EndCodeFits(lens, l, MaxLen);
  }

  lemma CodeRange(lens: seq<nat>, i: nat)
    requires IsLengths(lens) && Kraft(lens) && i < |lens| && lens[i] > 0
    ensures FirstCode(lens, lens[i]) <= Code(lens, i) < EndCode(lens, lens[i]) <= Pow2(lens[i])
  {
    KraftFits(lens, lens[i]);
    CountStrict(lens, i, |lens|);
  }

  // ---- positions in code order ----

  lemma {:induction false} FirstSymbolMonotone(lens: seq<nat>, l: nat, m: nat)
    requires 1 <= l < m
    ensures FirstSymbol(lens, l) + Total(lens, l) <= FirstSymbol(lens, m)
  {
    if l + 1 < m {
      FirstSymbolMonotone(lens, l, m - 1);
    }
  }

  /** Symbols with a length between 1 and `l` among the first `n`. */
  function Used(lens: seq<nat>, l: nat, n: nat): (u: nat)
    requires n <= |lens|
    ensures u <= n
  {
    if n == 0 then 0 else Used(lens, l, n - 1) + (if 1 <= lens[n - 1] <= l then 1 else 0)
  }

  lemma {:induction false} UsedStep(lens: seq<nat>, l: nat, n: nat)
    requires n <= |lens|
    ensures Used(lens, l + 1, n) == Used(lens, l, n) + Count(lens, l + 1, n)
    ensures Used(lens, 0, n) == 0
  {
    if n > 0 {
      UsedStep(lens, l, n - 1);
    }
  }

  lemma {:induction false} FirstSymbolIsUsed(lens: seq<nat>, l: nat)
    ensures FirstSymbol(lens, l) + Total(lens, l) == Used(lens, l, |lens|)
  {
    if l == 0 {
      UsedStep(lens, 0, |lens|);
    } else {
      FirstSymbolIsUsed(lens, l - 1);
      UsedStep(lens, l - 1, |lens|);
    }
  }

  /** Used symbols have distinct positions below the number of symbols. */
  lemma PositionInjective(lens: seq<nat>, i: nat, j: nat)
    requires i < |lens| && j < |lens| && lens[i] > 0 && lens[j] > 0
    ensures Position(lens, i) < |lens|
    ensures Position(lens, i) == Position(lens, j) ==> i == j
  {
    CountStrict(lens, i, |lens|);
    CountStrict(lens, j, |lens|);
    FirstSymbolIsUsed(lens, lens[i]);
    if lens[i] < lens[j] {
      FirstSymbolMonotone(lens, lens[i], lens[j]);
    } else if lens[j] < lens[i] {
      FirstSymbolMonotone(lens, lens[j], lens[i]);
    } else if i < j {
      CountStrict(lens, i, j);
    } else if j < i {
      CountStrict(lens, j, i);
    }
  }

  // ---- codes as intervals of 16-bit words ----

  /** The code interval ends, aligned at the top of a 16-bit word. */
  function AlignedEnd(lens: seq<nat>, l: nat): nat
    requires l <= 16
  {
    EndCode(lens, l) * Pow2(16 - l)
  }

  lemma AlignedStart(lens: seq<nat>, l: nat)
    requires 1 <= l <= 16
    ensures FirstCode(lens, l) * Pow2(16 - l) == AlignedEnd(lens, l - 1)
    ensures AlignedEnd(lens, l - 1) <= AlignedEnd(lens, l)
  {
    var p, e := Pow2(16 - l), EndCode(lens, l - 1);
    assert Pow2(16 - (l - 1)) == 2 * p;
    MulAssoc(e, p);
    MulMonotone(FirstCode(lens, l), EndCode(lens, l), p);
  }

  lemma {:induction false} AlignedMonotone(lens: seq<nat>, l: nat, m: nat)
    requires l <= m <= 16
    ensures AlignedEnd(lens, l) <= AlignedEnd(lens, m)
  {
    if l < m {
      AlignedMonotone(lens, l, m - 1);
      AlignedStart(lens, m);
    }
  }

  /** The next 16 bits of the stream with the first bit at the top. */
  function Window(stream: nat): (k: nat)
    ensures k < Pow2(16)
  {
    Reverse(stream, 16)
  }

  /** Matching a codeword is falling into its interval of windows. */
  lemma MatchesIffInterval(lens: seq<nat>, i: nat, stream: nat)
    requires IsLengths(lens) && Kraft(lens) && i < |lens| && lens[i] > 0
    ensures Matches(lens, i, stream) <==> Shr(Window(stream), 16 - lens[i]) == Code(lens, i)
  {
    hide Bit, Shr, Reverse, Pow2, FirstCode, Count;
    var s := lens[i];
    var w := Shr(Window(stream), 16 - s);
    CodeRange(lens, i);
    ShrBound(Window(stream), 16 - s, s);
    forall k | 0 <= k < s ensures Bit(w, s - 1 - k) == Bit(stream, k) {
      BitShr(Window(stream), 16 - s, s - 1 - k);
      BitReverse(stream, 16, 15 - k);
    }
    if Matches(lens, i, stream) {
      forall k | 0 <= k < s ensures Bit(w, k) == Bit(Code(lens, i), k) {
        assert Bit(w, s - 1 - (s - 1 - k)) == Bit(stream, s - 1 - k);
      }
      SameBits(w, Code(lens, i), s);
    }
  }

  /** Windows between two aligned ends are those with a codeword of that length. */
  lemma LengthInterval(lens: seq<nat>, l: nat, w: nat)
    requires 1 <= l <= 16
    ensures AlignedEnd(lens, l - 1) <= w < AlignedEnd(lens, l)
      <==> FirstCode(lens, l) <= Shr(w, 16 - l) < EndCode(lens, l)
  {
    AlignedStart(lens, l);
    ShrInterval(w, 16 - l, FirstCode(lens, l));
    ShrInterval(w, 16 - l, EndCode(lens, l));
  }

  lemma MatchLength(lens: seq<nat>, i: nat, stream: nat)
    requires IsLengths(lens) && Kraft(lens) && i < |lens|
    requires Matches(lens, i, stream)
    ensures AlignedEnd(lens, lens[i] - 1) <= Window(stream) < AlignedEnd(lens, lens[i])
  {
    MatchesIffInterval(lens, i, stream);
    CodeRange(lens, i);
    LengthInterval(lens, lens[i], Window(stream));
  }

  /** At most one codeword is a prefix of a bit stream. */
  lemma PrefixFree(lens: seq<nat>, i: nat, j: nat, stream: nat)
    requires IsLengths(lens) && Kraft(lens) && i < |lens| && j < |lens|
    requires Matches(lens, i, stream) && Matches(lens, j, stream)
    ensures i == j
  {
    hide FirstCode, Bit, Pow2, Shr, AlignedEnd;
    MatchLength(lens, i, stream);
    MatchLength(lens, j, stream);
    if lens[i] < lens[j] {
      AlignedMonotone(lens, lens[i], lens[j] - 1);
    } else if lens[j] < lens[i] {
      AlignedMonotone(lens, lens[j], lens[i] - 1);
    }
    MatchesIffInterval(lens, i, stream);
    MatchesIffInterval(lens, j, stream);
    if i < j {
      CountStrict(lens, i, j);
    } else if j < i {
      CountStrict(lens, j, i);
    }
  }

  /** Some codeword is a prefix exactly when the window lies below the last aligned end. */
  lemma SomeMatch(lens: seq<nat>, l: nat, stream: nat) returns (i: nat)
    requires IsLengths(lens) && Kraft(lens) && 1 <= l <= MaxLen
    requires AlignedEnd(lens, l - 1) <= Window(stream) < AlignedEnd(lens, l)
    ensures i < |lens| && lens[i] == l && Matches(lens, i, stream)
    ensures Position(lens, i) == Shr(Window(stream), 16 - l) - FirstCode(lens, l) + FirstSymbol(lens, l)
  {
    LengthInterval(lens, l, Window(stream));
    i := CountOnto(lens, l, Shr(Window(stream), 16 - l) - FirstCode(lens, l), |lens|);
    MatchesIffInterval(lens, i, stream);
  }

  /** Some codeword is a prefix of the stream. */
  ghost predicate Covered(lens: seq<nat>, stream: nat) {
    exists i :: 0 <= i < |lens| && Matches(lens, i, stream)
  }

  lemma {:induction false} CoveredBelow(lens: seq<nat>, l: nat, stream: nat)
    requires IsLengths(lens) && Kraft(lens) && l <= MaxLen && Window(stream) < AlignedEnd(lens, l)
    ensures Covered(lens, stream)
  {
    assert l == 0 ==> EndCode(lens, l) == 0;
    hide FirstCode, Matches, Pow2, Reverse;
    if l > 0 {
      if Window(stream) < AlignedEnd(lens, l - 1) {
        CoveredBelow(lens, l - 1, stream);
      } else {
        var i := SomeMatch(lens, l, stream);
      }
    }
  }

  lemma {:induction false} AllOnes(n: nat)
    ensures Reverse(Pow2(n) - 1, n) == Pow2(n) - 1
  {
    if n > 0 {
      AllOnes(n - 1);
    }
  }

  /** A code leaves no bit pattern out exactly when its Kraft sum is one. */
  lemma CompleteIff(lens: seq<nat>)
    requires IsLengths(lens) && Kraft(lens)
    ensures (forall stream :: Covered(lens, stream)) <==> KraftUpTo(lens, MaxLen, |lens|) == Pow2(MaxLen)
  {
    hide FirstCode, Matches, Reverse, KraftUpTo;
    EndCodeIsKraftSum(lens, MaxLen);
    Pow2Values();
    var one := Pow2(16 - MaxLen);
    assert one == 2 * Pow2(0);
    assert AlignedEnd(lens, MaxLen) == EndCode(lens, MaxLen) * one;
    if EndCode(lens, MaxLen) == Pow2(MaxLen) {
      forall stream ensures Covered(lens, stream) {
        CoveredBelow(lens, MaxLen, stream);
      }
    }
    if EndCode(lens, MaxLen) < Pow2(MaxLen) && forall stream :: Covered(lens, stream) {
      AllOnes(16);
      assert Covered(lens, 0xFFFF);
      var i :| 0 <= i < |lens| && Matches(lens, i, 0xFFFF);
      Uncovered(lens, i, 0xFFFF);
    }
  }

  lemma Uncovered(lens: seq<nat>, i: nat, stream: nat)
    requires IsLengths(lens) && Kraft(lens) && i < |lens| && Matches(lens, i, stream)
    ensures Window(stream) < AlignedEnd(lens, MaxLen)
  {
    hide FirstCode, Reverse, Pow2, AlignedEnd;
    MatchLength(lens, i, stream);
    AlignedMonotone(lens, lens[i], MaxLen);
  }

  /** A match depends only on the first `lens[i]` bits of the stream. */
  lemma MatchesIffReversed(lens: seq<nat>, i: nat, stream: nat)
    requires IsLengths(lens) && Kraft(lens) && i < |lens| && lens[i] > 0
    ensures Matches(lens, i, stream) <==> Low(stream, lens[i]) == Reverse(Code(lens, i), lens[i])
  {
    var s, c := lens[i], Code(lens, i);
    forall k | 0 <= k < s
      ensures Bit(Low(stream, s), k) == Bit(stream, k)
      ensures Bit(Reverse(c, s), k) == Bit(c, s - 1 - k)
    {
      BitLow(stream, s, k);
      BitReverse(c, s, k);
    }
    if Matches(lens, i, stream) {
      SameBits(Low(stream, s), Reverse(c, s), s);
    }
  }

  lemma MatchesPrefix(lens: seq<nat>, i: nat, stream: nat, n: nat)
    requires i < |lens| && lens[i] <= n
    ensures Matches(lens, i, Low(stream, n)) <==> Matches(lens, i, stream)
  {
    forall k | 0 <= k < lens[i] ensures Bit(Low(stream, n), k) == Bit(stream, k) {
      BitLow(stream, n, k);
    }
  }
}
