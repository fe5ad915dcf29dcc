/** Machine words as natural numbers.

    A word is a `nat`; bit `k` is `Bit(x, k)`, least significant first.  The C operators are
    defined bit by bit, so that each has one lemma that says what it does to a single bit. */
module Words {

  type byte = x: nat | x < 256

  function Pow2(n: nat): (p: nat)
    ensures p >= 1
  {
    if n == 0 then 1 else 2 * Pow2(n - 1)
  }

  predicate Bit(x: nat, k: nat) {
    if k == 0 then x % 2 == 1 else Bit(x / 2, k - 1)
  }

  /** `x >> n`. */
  function Shr(x: nat, n: nat): (r: nat)
    ensures r <= x
  {
    if n == 0 then x else Shr(x / 2, n - 1)
  }

  /** `x << n`, before any truncation to a width. */
  function Shl(x: nat, n: nat): nat {
    if n == 0 then x else 2 * Shl(x, n - 1)
  }

  /** The low `n` bits of `x`, that is `x & ((1 << n) - 1)` or a cast to an `n`-bit type. */
  function Low(x: nat, n: nat): (r: nat)
    ensures r < Pow2(n) && r <= x
  {
    if n == 0 then 0 else x % 2 + 2 * Low(x / 2, n - 1)
  }

  /** `x & y`. */
  function And(x: nat, y: nat): (r: nat)
    ensures r <= x && r <= y
  {
    if x == 0 || y == 0 then 0 else 2 * And(x / 2, y / 2) + (if x % 2 == 1 && y % 2 == 1 then 1 else 0)
  }

  /** `x | y`. */
  function Or(x: nat, y: nat): nat {
    if x == 0 && y == 0 then 0 else 2 * Or(x / 2, y / 2) + (if x % 2 == 1 || y % 2 == 1 then 1 else 0)
  }

  /** `x ^ y`. */
  function Xor(x: nat, y: nat): nat {
    if x == 0 && y == 0 then 0 else 2 * Xor(x / 2, y / 2) + (if x % 2 != y % 2 then 1 else 0)
  }

  /** `~x` on a `w`-bit word. */
  function Not(x: nat, w: nat): (r: nat)
    requires x < Pow2(w)
    ensures r < Pow2(w)
  {
    Pow2(w) - 1 - x
  }

  /** The low `n` bits of `x` in reverse order. */
  function Reverse(x: nat, n: nat): (r: nat)
    ensures r < Pow2(n)
  {
    if n == 0 then 0 else (x % 2) * Pow2(n - 1) + Reverse(x / 2, n - 1)
  }

  // ---- powers of two ----

  lemma {:induction false} Pow2Add(m: nat, n: nat)
    ensures Pow2(m + n) == Pow2(m) * Pow2(n)
  {
    if m > 0 {
      Pow2Add(m - 1, n);
    }
  }

  lemma {:induction false} Pow2Monotone(m: nat, n: nat)
    requires m <= n
    ensures Pow2(m) <= Pow2(n)
  {
    if m < n {
      Pow2Monotone(m, n - 1);
    }
  }

  lemma Pow2Values()
    ensures Pow2(0) == 1 && Pow2(3) == 8 && Pow2(4) == 16 && Pow2(8) == 256 && Pow2(9) == 512
    ensures Pow2(15) == 0x8000 && Pow2(16) == 0x1_0000 && Pow2(32) == 0x1_0000_0000
  {
    assert Pow2(4) == 16 && Pow2(7) == 128 && Pow2(8) == 256;
    Pow2Add(8, 7);
    Pow2Add(8, 8);
    Pow2Add(16, 16);
  }

  lemma MulAssoc(e: nat, p: nat)
    ensures e * (2 * p) == 2 * (e * p) == (2 * e) * p
    ensures (2 * p) * e == 2 * (p * e)
  {
  }

  lemma MulMonotone(a: nat, b: nat, p: nat)
    requires a <= b
    ensures a * p <= b * p
  {
    assert b * p == a * p + (b - a) * p;
  }

  // ---- what each operator does to one bit ----

  lemma {:induction false} BitAnd(x: nat, y: nat, k: nat)
    ensures Bit(And(x, y), k) == (Bit(x, k) && Bit(y, k))
  {
    if x == 0 || y == 0 {
      BitZero(k);
    } else if k > 0 {
      BitAnd(x / 2, y / 2, k - 1);
    }
  }

  lemma {:induction false} BitOr(x: nat, y: nat, k: nat)
    ensures Bit(Or(x, y), k) == (Bit(x, k) || Bit(y, k))
  {
    if x == 0 && y == 0 {
      BitZero(k);
    } else if k > 0 {
      BitOr(x / 2, y / 2, k - 1);
    }
  }

  lemma {:induction false} BitXor(x: nat, y: nat, k: nat)
    ensures Bit(Xor(x, y), k) == (Bit(x, k) != Bit(y, k))
  {
    if x == 0 && y == 0 {
      BitZero(k);
    } else if k > 0 {
      BitXor(x / 2, y / 2, k - 1);
    }
  }

  lemma {:induction false} BitZero(k: nat)
    ensures !Bit(0, k)
  {
    if k > 0 {
      BitZero(k - 1);
    }
  }

  /** Complementing below 2p and halving commute, and the last bit flips. */
  lemma HalfComplement(x: nat, p: nat)
    requires x < 2 * p
    ensures (2 * p - 1 - x) / 2 == p - 1 - x / 2
    ensures (2 * p - 1 - x) % 2 == 1 - x % 2
  {
  }

  lemma {:induction false} BitNot(x: nat, w: nat, k: nat)
    requires x < Pow2(w)
    ensures Bit(Not(x, w), k) == (k < w && !Bit(x, k))
  {
    if w == 0 {
      BitZero(k);
    } else {
      HalfComplement(x, Pow2(w - 1));
      if k > 0 {
        BitNot(x / 2, w - 1, k - 1);
      }
    }
  }

  lemma {:induction false} BitShr(x: nat, n: nat, k: nat)
    ensures Bit(Shr(x, n), k) == Bit(x, k + n)
  {
    if n > 0 {
      BitShr(x / 2, n - 1, k);
    }
  }

  lemma {:induction false} BitShl(x: nat, n: nat, k: nat)
    ensures Bit(Shl(x, n), k) == (k >= n && Bit(x, k - n))
  {
    if n > 0 && k > 0 {
      BitShl(x, n - 1, k - 1);
    }
  }

  lemma {:induction false} BitLow(x: nat, n: nat, k: nat)
    ensures Bit(Low(x, n), k) == (k < n && Bit(x, k))
  {
    if n == 0 {
      BitZero(k);
    } else if k > 0 {
      BitLow(x / 2, n - 1, k - 1);
    }
  }

  /** A word below 2^n has no bit at or above `n`. */
  lemma {:induction false} BitAbove(x: nat, n: nat, k: nat)
    requires x < Pow2(n) && n <= k
    ensures !Bit(x, k)
  {
    if n == 0 {
      BitZero(k);
    } else {
      BitAbove(x / 2, n - 1, k - 1);
    }
  }

  /** Two words below 2^n with the same low `n` bits are equal. */
  lemma {:induction false} SameBits(x: nat, y: nat, n: nat)
    requires x < Pow2(n) && y < Pow2(n)
    requires forall k :: 0 <= k < n ==> Bit(x, k) == Bit(y, k)
    ensures x == y
  {
    if n > 0 {
      assert Bit(x, 0) == Bit(y, 0);
      forall k | 0 <= k < n - 1 ensures Bit(x / 2, k) == Bit(y / 2, k) {
        assert Bit(x, k + 1) == Bit(y, k + 1);
      }
      SameBits(x / 2, y / 2, n - 1);
    }
  }

  lemma {:induction false} BitReverse(x: nat, n: nat, k: nat)
    ensures Bit(Reverse(x, n), k) == (k < n && Bit(x, n - 1 - k))
  {
    if k >= n {
      BitAbove(Reverse(x, n), n, k);
    } else {
      var r := Reverse(x / 2, n - 1);
      BitTop(x % 2, r, n - 1, k);
      if k < n - 1 {
        BitReverse(x / 2, n - 1, k);
      }
    }
  }

  /** A bit put on top of an `n`-bit word. */
  lemma {:induction false} BitTop(b: nat, r: nat, n: nat, k: nat)
    requires b < 2 && r < Pow2(n) && k <= n
    ensures Bit(b * Pow2(n) + r, k) == if k == n then b == 1 else Bit(r, k)
  {
    if n > 0 {
      var x := b * Pow2(n) + r;
      assert x == 2 * (b * Pow2(n - 1)) + r;
      assert x / 2 == b * Pow2(n - 1) + r / 2 && x % 2 == r % 2;
      if k > 0 {
        BitTop(b, r / 2, n - 1, k - 1);
      }
    }
  }

  // ---- arithmetic meaning ----

  lemma {:induction false} Split(x: nat, n: nat)
    ensures x == Low(x, n) + Pow2(n) * Shr(x, n)
  {
    if n > 0 {
      Split(x / 2, n - 1);
    }
  }

  lemma {:induction false} ShlValue(x: nat, n: nat)
    ensures Shl(x, n) == Pow2(n) * x
  {
    if n > 0 {
      ShlValue(x, n - 1);
    }
  }

  /** Low and high part of a word are determined by `x == lo + 2^n * hi`. */
  lemma {:induction false} SplitUnique(lo: nat, hi: nat, n: nat)
    requires lo < Pow2(n)
    ensures Low(lo + Pow2(n) * hi, n) == lo
    ensures Shr(lo + Pow2(n) * hi, n) == hi
  {
    if n > 0 {
      var x := lo + Pow2(n) * hi;
      assert x == lo + 2 * (Pow2(n - 1) * hi);
      assert x / 2 == lo / 2 + Pow2(n - 1) * hi;
      SplitUnique(lo / 2, hi, n - 1);
    }
  }

  lemma {:induction false} ShrAdd(x: nat, m: nat, n: nat)
    ensures Shr(Shr(x, m), n) == Shr(x, m + n)
  {
    if m > 0 {
      ShrAdd(x / 2, m - 1, n);
    }
  }

  lemma {:induction false} LowLow(x: nat, m: nat, n: nat)
    requires m <= n
    ensures Low(Low(x, n), m) == Low(x, m)
  {
    if m > 0 {
      LowLow(x / 2, m - 1, n - 1);
    }
  }

  lemma {:induction false} LowSplit(x: nat, m: nat, n: nat)
    ensures Low(x, m + n) == Low(x, m) + Pow2(m) * Low(Shr(x, m), n)
  {
    if m > 0 {
      LowSplit(x / 2, m - 1, n);
      MulAssoc(Low(Shr(x, m), n), Pow2(m - 1));
    }
  }

  /** `x ^ (2^n - 1)` is the complement of an `n`-bit word. */
  lemma {:induction false} XorOnes(x: nat, n: nat)
    requires x < Pow2(n)
    ensures Xor(x, Pow2(n) - 1) == Pow2(n) - 1 - x
  {
    if n > 0 {
      HalfComplement(0, Pow2(n - 1));
      HalfComplement(x, Pow2(n - 1));
      XorOnes(x / 2, n - 1);
    }
  }

  lemma {:induction false} LowSmall(x: nat, n: nat)
    requires x < Pow2(n)
    ensures Low(x, n) == x
  {
    if n > 0 {
      LowSmall(x / 2, n - 1);
    }
  }

  lemma {:induction false} ShrBound(x: nat, m: nat, n: nat)
    requires x < Pow2(m + n)
    ensures Shr(x, m) < Pow2(n)
  {
    if m > 0 {
      ShrBound(x / 2, m - 1, n);
    }
  }

  /** Comparing a multiple of `p` with a number is comparing quotients. */
  lemma CompareQuotient(c: nat, h: nat, lo: nat, p: nat)
    requires lo < p
    ensures c * p <= lo + p * h <==> c <= h
  {
    if c <= h {
      MulMonotone(c, h, p);
    } else {
      MulMonotone(h + 1, c, p);
    }
  }

  /** The words at or above c * 2^n are those that shift down to at least `c`. */
  lemma ShrInterval(x: nat, n: nat, c: nat)
    ensures c * Pow2(n) <= x <==> c <= Shr(x, n)
  {
    Split(x, n);
    CompareQuotient(c, Shr(x, n), Low(x, n), Pow2(n));
  }

  /** `x | (y << n)` appends `y` above an `n`-bit `x`. */
  lemma {:induction false} OrAppend(x: nat, y: nat, n: nat)
    requires x < Pow2(n)
    ensures Or(x, Shl(y, n)) == x + Pow2(n) * y
  {
    ShlValue(y, n);
    if n == 0 {
      OrZero(y);
    } else {
      OrAppend(x / 2, y, n - 1);
      assert Shl(y, n) / 2 == Shl(y, n - 1);
      if x == 0 && Shl(y, n) == 0 {
        assert Shl(y, n - 1) == 0;
        assert Or(x, Shl(y, n)) == 0;
        assert Pow2(n) * y == 0;
      } else {
        assert Pow2(n) * y == 2 * (Pow2(n - 1) * y);
      }
    }
  }

  lemma {:induction false} OrBound(x: nat, y: nat, n: nat)
    requires x < Pow2(n) && y < Pow2(n)
    ensures Or(x, y) < Pow2(n)
  {
    if n > 0 {
      OrBound(x / 2, y / 2, n - 1);
    }
  }

  lemma {:induction false} OrCommutes(x: nat, y: nat)
    ensures Or(x, y) == Or(y, x)
  {
    if x > 0 || y > 0 {
      OrCommutes(x / 2, y / 2);
    }
  }

  lemma {:induction false} OrZero(x: nat)
    ensures Or(0, x) == x
  {
    if x > 0 {
      OrZero(x / 2);
    }
  }

  /** `x & ((1 << n) - 1)` is the low part of `x`. */
  lemma {:induction false} AndMask(x: nat, n: nat)
    ensures And(x, Pow2(n) - 1) == Low(x, n)
  {
    if n > 0 {
      HalfComplement(0, Pow2(n - 1));
      AndMask(x / 2, n - 1);
      LowSmall(0, n);
    }
  }

  /** `x & (1 << k)` tests bit `k`. */
  lemma {:induction false} AndPower(x: nat, k: nat)
    ensures And(x, Pow2(k)) == if Bit(x, k) then Pow2(k) else 0
  {
    if k == 0 {
      assert And(x / 2, 0) == 0;
    } else {
      AndPower(x / 2, k - 1);
      if x == 0 {
        BitZero(k);
      }
    }
  }
}
