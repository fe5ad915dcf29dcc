/** The mask-and-shift bit reversal of stb_image. */
module BitReversal {
  import opened Words

  /** The bits of a hexadecimal digit that the masks use. */
  lemma DigitBits(k: nat)
    requires k < 4
    ensures !Bit(0x0, k) && Bit(0xF, k)
    ensures Bit(0xA, k) == (k % 2 == 1) && Bit(0x5, k) == (k % 2 == 0)
    ensures Bit(0xC, k) == (k / 2 == 1) && Bit(0x3, k) == (k / 2 == 0)
  {
    assert k == 0 || k == 1 || k == 2 || k == 3;
    assert Bit(0xC, 2) && Bit(0xC, 3);
    assert Bit(0xF, 2) && Bit(0xF, 3);
    assert Bit(0xA, 3) && Bit(0x5, 2);
  }

  lemma DigitOf(rest: nat, digit: nat, k: nat)
    requires digit < 16
    ensures Bit(16 * rest + digit, k) == if k < 4 then Bit(digit, k) else Bit(rest, k - 4)
  {
    assert Pow2(4) == 16;
    SplitUnique(digit, rest, 4);
    if k < 4 {
      BitLow(16 * rest + digit, 4, k);
    } else {
      BitShr(16 * rest + digit, 4, k - 4);
    }
  }

  lemma HexWord(x: nat, d3: nat, d2: nat, d1: nat, d0: nat, k: nat)
    requires d3 < 16 && d2 < 16 && d1 < 16 && d0 < 16 && k < 16
    requires x == 16 * (16 * (16 * d3 + d2) + d1) + d0
    ensures Bit(x, k) == Bit(if k < 4 then d0 else if k < 8 then d1 else if k < 12 then d2 else d3, k % 4)
  {
    DigitOf(16 * (16 * d3 + d2) + d1, d0, k);
    if k >= 4 {
      DigitOf(16 * d3 + d2, d1, k - 4);
      if k >= 8 {
        DigitOf(d3, d2, k - 8);
      }
    }
  }

  /** Whether bit `k` lies in an odd group of `s` bits. */
  predicate OddGroup(k: nat, s: nat) {
    if s == 1 then k % 2 == 1 else if s == 2 then k / 2 % 2 == 1 else if s == 4 then k / 4 % 2 == 1 else k / 8 % 2 == 1
  }

  /** `hi` selects the odd groups of `s` bits of a 16-bit word and `lo` the even ones. */
  ghost predicate IsMaskPair(hi: nat, lo: nat, s: nat) {
    && hi < Pow2(16) && lo < Pow2(16)
    && forall k :: 0 <= k < 16 ==> Bit(hi, k) == OddGroup(k, s) && Bit(lo, k) == !OddGroup(k, s)
  }

  lemma Masks()
    ensures IsMaskPair(0xAAAA, 0x5555, 1)
    ensures IsMaskPair(0xCCCC, 0x3333, 2)
    ensures IsMaskPair(0xF0F0, 0x0F0F, 4)
    ensures IsMaskPair(0xFF00, 0x00FF, 8)
  {
    hide Bit, Pow2;
    Pow2Values();
    forall k | 0 <= k < 16 ensures Bit(0xAAAA, k) == OddGroup(k, 1) && Bit(0x5555, k) == !OddGroup(k, 1) {
      HexWord(0xAAAA, 0xA, 0xA, 0xA, 0xA, k);
      HexWord(0x5555, 0x5, 0x5, 0x5, 0x5, k);
      DigitBits(k % 4);
    }
    forall k | 0 <= k < 16 ensures Bit(0xCCCC, k) == OddGroup(k, 2) && Bit(0x3333, k) == !OddGroup(k, 2) {
      HexWord(0xCCCC, 0xC, 0xC, 0xC, 0xC, k);
      HexWord(0x3333, 0x3, 0x3, 0x3, 0x3, k);
      DigitBits(k % 4);
    }
    forall k | 0 <= k < 16 ensures Bit(0xF0F0, k) == OddGroup(k, 4) && Bit(0x0F0F, k) == !OddGroup(k, 4) {
      HexWord(0xF0F0, 0xF, 0x0, 0xF, 0x0, k);
      HexWord(0x0F0F, 0x0, 0xF, 0x0, 0xF, k);
      DigitBits(k % 4);
    }
    forall k | 0 <= k < 16 ensures Bit(0xFF00, k) == OddGroup(k, 8) && Bit(0x00FF, k) == !OddGroup(k, 8) {
      HexWord(0xFF00, 0xF, 0xF, 0x0, 0x0, k);
      HexWord(0x00FF, 0x0, 0x0, 0xF, 0xF, k);
      DigitBits(k % 4);
    }
  }

  /** One step of the reversal: swap neighbouring groups of `s` bits. */
  function SwapGroups(n: nat, hi: nat, lo: nat, s: nat): nat {
    Or(Shr(And(n, hi), s), Shl(And(n, lo), s))
  }

  /** The bit that a swap of groups of `s` bits moves to position `k`. */
  function Partner(k: nat, s: nat): int {
    if OddGroup(k, s) then k - s else k + s
  }

  lemma NeighbourGroups(k: nat, s: nat)
    requires s == 1 || s == 2 || s == 4 || s == 8
    requires k < 16
    ensures if OddGroup(k, s) then k >= s else k + s < 16
    ensures k + s < 16 ==> OddGroup(k + s, s) != OddGroup(k, s)
    ensures k >= s ==> OddGroup(k - s, s) != OddGroup(k, s)
  {
    if s == 1 {
    } else if s == 2 {
    } else if s == 4 {
    } else {
    }
  }

  /** Four swaps send bit `k` to bit `15 - k`. */
  lemma PartnersReverse(k: nat)
    requires k < 16
    ensures 0 <= Partner(k, 8) < 16 && 0 <= Partner(Partner(k, 8), 4) < 16
    ensures 0 <= Partner(Partner(Partner(k, 8), 4), 2) < 16
    ensures Partner(Partner(Partner(Partner(k, 8), 4), 2), 1) == 15 - k
  {
    var k3 := Partner(k, 8);
    assert k3 == if k >= 8 then k - 8 else k + 8;
    var k2 := Partner(k3, 4);
    assert k2 == if k3 % 8 >= 4 then k3 - 4 else k3 + 4;
    var k1 := Partner(k2, 2);
    assert k1 == if k2 % 4 >= 2 then k2 - 2 else k2 + 2;
  }

  lemma SwapGroupsBit(n: nat, hi: nat, lo: nat, s: nat, k: nat)
    requires s == 1 || s == 2 || s == 4 || s == 8
    requires k < 16 && IsMaskPair(hi, lo, s)
    ensures 0 <= Partner(k, s) < 16 && Bit(SwapGroups(n, hi, lo, s), k) == Bit(n, Partner(k, s))
  {
    hide Bit, And, Or, Shr, Shl, OddGroup, Pow2;
    BitOr(Shr(And(n, hi), s), Shl(And(n, lo), s), k);
    BitShr(And(n, hi), s, k);
    BitShl(And(n, lo), s, k);
    BitAnd(n, hi, k + s);
    if k + s >= 16 {
      BitAbove(hi, 16, k + s);
    }
    if k >= s {
      BitAnd(n, lo, k - s);
    }
    NeighbourGroups(k, s);
  }

  function BitReverse16(n: nat): nat {
    var n1 := SwapGroups(n, 0xAAAA, 0x5555, 1);
    var n2 := SwapGroups(n1, 0xCCCC, 0x3333, 2);
    var n3 := SwapGroups(n2, 0xF0F0, 0x0F0F, 4);
    SwapGroups(n3, 0xFF00, 0x00FF, 8)
  }

  lemma BitReverse16Bound(n: nat)
    ensures BitReverse16(n) < Pow2(16)
  {
    hide And, Or, Shr, Shl;
    var n3 := SwapGroups(SwapGroups(SwapGroups(n, 0xAAAA, 0x5555, 1), 0xCCCC, 0x3333, 2), 0xF0F0, 0x0F0F, 4);
    Pow2Values();
    ShlValue(And(n3, 0x00FF), 8);
    OrBound(Shr(And(n3, 0xFF00), 8), Shl(And(n3, 0x00FF), 8), 16);
  }

  /** The mask-and-shift sequence reverses the low 16 bits. */
  lemma BitReverse16Reverses(n: nat)
    ensures BitReverse16(n) == Reverse(n, 16)
  {
    hide Bit, And, Or, Shr, Shl, Reverse, Pow2, SwapGroups, OddGroup;
    var n1 := SwapGroups(n, 0xAAAA, 0x5555, 1);
    var n2 := SwapGroups(n1, 0xCCCC, 0x3333, 2);
    var n3 := SwapGroups(n2, 0xF0F0, 0x0F0F, 4);
    Masks();
    forall k | 0 <= k < 16 ensures Bit(BitReverse16(n), k) == Bit(Reverse(n, 16), k) {
      PartnersReverse(k);
      SwapGroupsBit(n3, 0xFF00, 0x00FF, 8, k);
      var k3 := Partner(k, 8);
      SwapGroupsBit(n2, 0xF0F0, 0x0F0F, 4, k3);
      var k2 := Partner(k3, 4);
      SwapGroupsBit(n1, 0xCCCC, 0x3333, 2, k2);
      SwapGroupsBit(n, 0xAAAA, 0x5555, 1, Partner(k2, 2));
      BitReverse(n, 16, k);
    }
    BitReverse16Bound(n);
    SameBits(BitReverse16(n), Reverse(n, 16), 16);
  }

  /** `stbi__bit_reverse`: reverse 16 bits, then drop the zeros. */
  function BitReverseN(v: nat, bits: nat): nat
    requires bits <= 16
  {
    Shr(BitReverse16(v), 16 - bits)
  }

  lemma BitReverseNReverses(v: nat, bits: nat)
    requires bits <= 16
    ensures BitReverseN(v, bits) == Reverse(v, bits)
  {
    BitReverse16Reverses(v);
    var r := Shr(Reverse(v, 16), 16 - bits);
    ShrBound(Reverse(v, 16), 16 - bits, bits);
    forall k | 0 <= k < bits ensures Bit(r, k) == Bit(Reverse(v, bits), k) {
      BitShr(Reverse(v, 16), 16 - bits, k);
      BitReverse(v, 16, k + 16 - bits);
      BitReverse(v, bits, k);
    }
    SameBits(r, Reverse(v, bits), bits);
  }
}
