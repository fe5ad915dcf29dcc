/** The bit buffer and the growing output buffer of stb_image's `stbi__zbuf`. */
module ZBuf {
  import opened Words
  import opened Canonical
  import opened BitReversal
  import opened ZHuffman
  import opened Deflate
  import opened Supply

  const UINT_MAX: nat := 0xFFFF_FFFF

  /** The bytes as one number, first byte lowest.  Bit `k` of the number is bit `k % 8` of byte
      `k / 8`, which is the bit order of RFC 1951 section 3.1.1; past the end all bits are zero. */
  function LittleEndian(bytes: seq<byte>): nat {
    if bytes == [] then 0 else bytes[0] + 256 * LittleEndian(bytes[1..])
  }

  lemma {:induction false} BitOfBytes(bytes: seq<byte>, k: nat)
    ensures Bit(LittleEndian(bytes), k) == (k / 8 < |bytes| && Bit(bytes[k / 8], k % 8))
  {
    hide Bit, Shr, Low;
    if bytes == [] {
      BitZero(k);
    } else {
      var rest := LittleEndian(bytes[1..]);
      Pow2Values();
      SplitUnique(bytes[0], rest, 8);
      if k < 8 {
        BitLow(LittleEndian(bytes), 8, k);
      } else {
        BitShr(LittleEndian(bytes), 8, k - 8);
        BitOfBytes(bytes[1..], k - 8);
      }
    }
  }

  /** Consuming `s` bits of a buffered number takes them from the buffer. */
  lemma {:induction false} ShrBuffered(c: nat, nb: nat, rest: nat, s: nat)
    requires s <= nb
    ensures Shr(c + Pow2(nb) * rest, s) == Shr(c, s) + Pow2(nb - s) * rest
  {
    if s > 0 {
      var p, all := Pow2(nb - 1), c + Pow2(nb) * rest;
      assert Pow2(nb) == 2 * p;
      Half(c, p, rest);
      ShrBuffered(c / 2, nb - 1, rest, s - 1);
      ShrStep(c, s);
      ShrStep(all, s);
    }
    hide Pow2, Shr;
  }

  lemma ShrStep(x: nat, s: nat)
    requires s > 0
    ensures Shr(x, s) == Shr(x / 2, s - 1)
  {
  }

  lemma Half(c: nat, p: nat, rest: nat)
    ensures c + (2 * p) * rest == c + 2 * (p * rest)
    ensures (c + (2 * p) * rest) / 2 == c / 2 + p * rest
  {
  }

  lemma LowBuffered(c: nat, nb: nat, rest: nat, n: nat)
    requires c < Pow2(nb) && n <= nb
    ensures Low(c + Pow2(nb) * rest, n) == Low(c, n)
  {
    SplitUnique(c, rest, nb);
    LowLow(c + Pow2(nb) * rest, n, nb);
  }

  /** The size a buffer of `limit` bytes reaches when doubled until it holds `need` bytes. */
  function Doubled(limit: nat, need: nat): (r: nat)
    requires limit > 0
    ensures r >= need && r >= limit
    decreases need - limit
  {
    if need <= limit then limit else Doubled(2 * limit, need)
  }

  /** The same when the buffer may be empty; an empty buffer does not grow. */
  function Grown(limit: nat, need: nat): (r: nat) {
    if limit == 0 then 0 else Doubled(limit, need)
  }

  lemma {:induction false} DoubledMonotone(limit: nat, a: nat, b: nat)
    requires limit > 0 && a <= b
    ensures Doubled(limit, a) <= Doubled(limit, b)
    decreases b - limit
  {
    if limit < a {
      DoubledMonotone(2 * limit, a, b);
    }
  }

  lemma DoubledGrows(limit: nat, need: nat)
    requires limit > 0
    ensures need <= limit ==> Doubled(limit, need) == limit
    ensures need > limit ==> Doubled(limit, need) == Doubled(2 * limit, need)
  {
  }

  /** Doubling in two steps reaches the same size. */
  lemma {:induction false} DoubledAgain(limit: nat, a: nat, b: nat)
    requires limit > 0 && a <= b
    ensures Doubled(Doubled(limit, a), b) == Doubled(limit, b)
    decreases b - limit
  {
    if limit < a {
      DoubledAgain(2 * limit, a, b);
    }
  }

  lemma TwiceTheSize(limit: nat, i: nat)
    ensures limit * Pow2(i + 1) == (2 * limit) * Pow2(i)
  {
  }

  lemma {:induction false} SizesGrow(limit: nat, k: nat, i: nat)
    requires k <= i
    ensures limit * Pow2(k) <= limit * Pow2(i)
  {
    if k < i {
      SizesGrow(limit, k, i - 1);
      assert limit * Pow2(i) == 2 * (limit * Pow2(i - 1));
    }
  }

  /** It is the first sufficient size among `limit`, twice `limit`, four times `limit` and so on. */
  lemma {:induction false} DoubledIsLeast(limit: nat, need: nat) returns (k: nat)
    requires limit > 0
    ensures Doubled(limit, need) == limit * Pow2(k) && need <= limit * Pow2(k)
    ensures k > 0 ==> limit * Pow2(k - 1) < need
    decreases need - limit
  {
    if need <= limit {
      k := 0;
    } else {
      var j := DoubledIsLeast(2 * limit, need);
      k := j + 1;
      TwiceTheSize(limit, j);
      if j > 0 {
        TwiceTheSize(limit, j - 1);
      }
      hide Pow2;
      assert limit * Pow2(0) == limit by {
        assert Pow2(0) == 1 by { Pow2Values(); }
      }
    }
  }

  datatype Outcome = Done | Failed | OutOfRounds

  datatype RoundResult = Continue | EndOfBlock | Error

  /** Why a block is refused. */
  datatype Cause = InputUsedUp | BadCode | FarDistance | NoRoom

  class Decoder {
    const input: seq<byte>
    const expandable: bool
    /** The largest block the host's `realloc` can provide. */
    const heapLimit: nat

    var zbuffer: nat
    var num_bits: int
    var code_buffer: nat

    var out: array<byte>
    var zout: nat

    const z_length: Table
    const z_distance: Table

    /** Input bits consumed so far. */
    ghost var pos: nat
    /** Bytes moved into `code_buffer` so far, counting the zero bytes supplied past the end. */
    ghost var fed: nat

    /** A decoder at the start of `input` that writes to `obuf`. */
    constructor (input: seq<byte>, obuf: array<byte>, expandable: bool, heapLimit: nat)
      requires obuf.Length <= UINT_MAX && (expandable ==> obuf.Length > 0)
      ensures this.input == input && this.expandable == expandable && this.heapLimit == heapLimit
      ensures Valid() && TablesOk() && fresh(z_length.Repr()) && fresh(z_distance.Repr())
      ensures out == obuf && Output() == [] && pos == 0
    {
      this.input, this.expandable, this.heapLimit := input, expandable, heapLimit;
      zbuffer, num_bits, code_buffer, pos, fed := 0, 0, 0, 0, 0;
      out, zout := obuf, 0;
      z_length := new Table();
      z_distance := new Table();
      assert input[0..] == input;
    }

    ghost predicate BitsOk()
      reads this
    {
      && zbuffer <= |input|
      && 0 <= num_bits <= 32
      && code_buffer < Pow2(num_bits)
      && (fed == zbuffer || (fed > zbuffer && zbuffer == |input|))
      && pos + num_bits == 8 * fed
      && Ahead() == code_buffer + Pow2(num_bits) * LittleEndian(input[zbuffer..])
    }

    /** The bit stream from the next unconsumed bit on. */
    ghost function Ahead(): nat
      reads this
    {
      Shr(LittleEndian(input), pos)
    }

    /** The two tables and the output buffer do not share memory. */
    ghost predicate TablesOk()
      reads this
    {
      && z_length.Shape() && z_distance.Shape()
      && z_length.Repr() !! z_distance.Repr()
      && out !in z_length.Repr() && out !in z_distance.Repr()
    }

    ghost predicate OutOk()
      reads this
    {
      zout <= out.Length <= UINT_MAX && (expandable ==> out.Length > 0)
    }

    ghost predicate Valid()
      reads this
    {
      BitsOk() && OutOk()
    }

    ghost function Output(): seq<byte>
      requires zout <= out.Length
      reads this, out
    {
      out[..zout]
    }

    predicate Zeof()
      reads this
    {
      zbuffer >= |input|
    }

    method Zget8() returns (b: byte)
      requires zbuffer <= |input|
      modifies this`zbuffer
      ensures b == if old(zbuffer) < |input| then input[old(zbuffer)] else 0
      ensures zbuffer == if old(zbuffer) < |input| then old(zbuffer) + 1 else old(zbuffer)
      ensures LittleEndian(input[old(zbuffer)..]) == b + 256 * LittleEndian(input[zbuffer..])
    {
      if Zeof() {
        b := 0;
      } else {
        b := input[zbuffer];
        zbuffer := zbuffer + 1;
      }
    }

    /** Refill the bit buffer.  The stream ahead does not change; a buffer holding more than
        `num_bits` bits is treated as the end of the input. */
    method FillBits()
      requires zbuffer <= |input| && 0 <= num_bits <= 24
      requires code_buffer < Pow2(num_bits) ==> BitsOk()
      modifies this`zbuffer, this`num_bits, this`code_buffer, this`fed
      ensures old(code_buffer) < Pow2(old(num_bits)) ==> BitsOk() && 25 <= num_bits
      ensures old(code_buffer) >= Pow2(old(num_bits)) ==>
        zbuffer == |input| && num_bits == old(num_bits) && code_buffer == old(code_buffer) && fed == old(fed)
    {
      hide Pow2, Shr, LittleEndian;
      var more := true;
      while more
        invariant zbuffer <= |input| && 0 <= num_bits <= 32 && (more ==> num_bits <= 24)
        invariant old(code_buffer) < Pow2(old(num_bits)) ==> BitsOk() && (!more ==> 25 <= num_bits)
        invariant old(code_buffer) >= Pow2(old(num_bits)) ==>
          && num_bits == old(num_bits) && code_buffer == old(code_buffer) && fed == old(fed)
          && more
        decreases more, 32 - num_bits
      {
        ShlValue(1, num_bits);
        if code_buffer >= Shl(1, num_bits) {
          zbuffer := |input|;
          return;
        }
        var b := Zget8();
        FeedByte(code_buffer, num_bits, b, LittleEndian(input[zbuffer..]));
        code_buffer := Or(code_buffer, Shl(b, num_bits));
        num_bits := num_bits + 8;
        fed := fed + 1;
        more := num_bits <= 24;
      }
    }

    /** Take `n` bits off the stream. */
    method Zreceive(n: nat) returns (k: nat)
      requires BitsOk() && n <= 24
      modifies this`zbuffer, this`num_bits, this`code_buffer, this`fed, this`pos
      ensures BitsOk()
      ensures k == Low(old(Ahead()), n) && pos == old(pos) + n
      ensures fed == Need(old(fed), old(pos), n)
    {
      hide Pow2, Shr, Shl, Low, And, LittleEndian;
      if num_bits < n {
        FillBits();
      }
      ShlValue(1, n);
      AndMask(code_buffer, n);
      LowBuffered(code_buffer, num_bits, LittleEndian(input[zbuffer..]), n);
      k := And(code_buffer, Shl(1, n) - 1);
      Consume(n);
    }

    /** `code_buffer >>= n; num_bits -= n`. */
    method Consume(n: nat)
      requires BitsOk() && n <= num_bits
      modifies this`num_bits, this`code_buffer, this`pos
      ensures BitsOk() && pos == old(pos) + n && num_bits == old(num_bits) - n
    {
      hide Pow2, Shr, LittleEndian;
      ghost var rest := LittleEndian(input[zbuffer..]);
      ShrBuffered(code_buffer, num_bits, rest, n);
      ShrAdd(LittleEndian(input), pos, n);
      ShrBound(code_buffer, n, num_bits - n);
      code_buffer := Shr(code_buffer, n);
      num_bits := num_bits - n;
      pos := pos + n;
    }

    /** Decode one symbol: the unique one whose codeword starts the stream.  It is refused exactly when
        there is none, or when fewer than 16 bits are buffered and the input is used up. */
    method HuffmanDecode(z: Table, ghost lens: seq<nat>) returns (r: int)
      requires BitsOk() && z.Represents(lens)
      modifies this`zbuffer, this`num_bits, this`code_buffer, this`fed, this`pos
      ensures BitsOk()
      ensures r == -1 <==> !HasBits(|input|, old(fed), old(pos)) || NoSymbol(lens, LittleEndian(input), old(pos))
      ensures !HasBits(|input|, old(fed), old(pos)) <==> old(num_bits) < 16 && old(Zeof())
      ensures r == -1 ==> pos == old(pos)
      ensures r != -1 ==>
        && 0 <= r < |lens| && SymbolAt(lens, LittleEndian(input), old(pos), r) && pos == old(pos) + lens[r]
        && fed == Need(old(fed), old(pos), 16)
    {
      hide Pow2, Shr, Low, And, Matches, AlignedEnd, FastEntry, FirstCode, FirstSymbol, Count, LittleEndian;
      hide KraftUpTo, SymbolAt, NoShortSymbol;
      if num_bits < 16 {
        if Zeof() {
          return -1;
        }
        FillBits();
      }
      ghost var rest := LittleEndian(input[zbuffer..]);
      Pow2Values();
      AndMask(code_buffer, FastBits);
      LowBuffered(code_buffer, num_bits, rest, FastBits);
      var b := z.fast[And(code_buffer, 511)];
      ghost var hit := FastLookup(lens, LittleEndian(input), pos);
      if b != 0 {
        FastValue(lens[hit], hit);
        Consume(Shr(b, 9));
        return And(b, 511);
      }
      r := HuffmanDecodeSlow(z, lens);
    }

    method HuffmanDecodeSlow(z: Table, ghost lens: seq<nat>) returns (r: int)
      requires BitsOk() && num_bits >= 16 && z.Represents(lens)
      requires NoShortSymbol(lens, LittleEndian(input), pos)
      modifies this`num_bits, this`code_buffer, this`pos
      ensures BitsOk()
      ensures r == -1 <==> NoSymbol(lens, LittleEndian(input), old(pos))
      ensures r == -1 ==> pos == old(pos)
      ensures r != -1 ==>
        0 <= r < |lens| && SymbolAt(lens, LittleEndian(input), old(pos), r) && pos == old(pos) + lens[r]
    {
      hide Pow2, Shr, Low, Matches, AlignedEnd, FirstCode, FirstSymbol, Count, LittleEndian;
      hide Reverse, FastEntry, BitReverse16, KraftUpTo, SymbolAt;
      ghost var s0, p, stream := LittleEndian(input), pos, Ahead();
      LowBuffered(code_buffer, num_bits, LittleEndian(input[zbuffer..]), 16);
      SameWindow(code_buffer, stream);
      BitReverseNReverses(code_buffer, 16);
      var k := BitReverseN(code_buffer, 16);
      Pow2Values();
      assert k < 0x1_0000 == z.maxcode[16];
      BelowLimit(lens, FastBits, s0, p);
      var s := FastBits + 1;
      while k >= z.maxcode[s]
        invariant FastBits < s <= 16
        invariant AlignedEnd(lens, s - 1) <= k
        decreases 16 - s
      {
        s := s + 1;
      }
      if s >= 16 {
        AboveLimit(lens, s0, p);
        return -1;
      }
      ghost var i := SymbolInInterval(lens, s, s0, p);
      var b := Shr(k, 16 - s) - z.firstcode[s] + z.firstsymbol[s];
      if b >= NumSymbols {
        return -1;
      }
      if z.size[b] != s {
        return -1;
      }
      Consume(s);
      return z.value[b];
    }

    /** `realloc` to the next sufficient doubling works: it stays within `unsigned` and the heap. */
    predicate CanGrow(limit: nat, need: nat)
      requires expandable ==> limit > 0
    {
      && expandable
      && need <= UINT_MAX
      && Doubled(limit, need) <= UINT_MAX
      && Doubled(limit, need) <= heapLimit
    }

    /** Growing works exactly when some doubling is large enough, has a size of 32 bits, and is on the heap. */
    lemma CanGrowIff(limit: nat, need: nat)
      requires limit > 0
      ensures CanGrow(limit, need) <==>
        expandable && exists k: nat :: need <= limit * Pow2(k) < 0x1_0000_0000 && limit * Pow2(k) <= heapLimit
    {
      var least := DoubledIsLeast(limit, need);
      hide Doubled, Pow2;
      if k: nat :| need <= limit * Pow2(k) < 0x1_0000_0000 && limit * Pow2(k) <= heapLimit {
        if k < least {
          SizesGrow(limit, k, least - 1);
        }
        SizesGrow(limit, least, k);
      }
    }

    /** Make room for `n` bytes at `zo`: double the buffer until it is large enough, keep what it holds. */
    method Zexpand(zo: nat, n: nat) returns (ok: bool)
      requires zo <= out.Length <= UINT_MAX && (expandable ==> out.Length > 0) && n <= UINT_MAX
      modifies this`zout, this`out
      ensures zout == zo && zo <= out.Length <= UINT_MAX && out.Length >= old(out.Length)
      ensures ok <==> CanGrow(old(out.Length), zo + n)
      ensures !ok ==> out == old(out)
      ensures ok ==> fresh(out) && out.Length == Doubled(old(out.Length), zo + n)
      ensures ok ==> out[..old(out.Length)] == old(out[..])
      ensures out[..zo] == old(out[..zo])
    {
      zout := zo;
      if !expandable {
        return false;
      }
      var cur := zout;
      var limit := out.Length;
      if UINT_MAX - cur < n {
        return false;
      }
      while cur + n > limit
        invariant 0 < old(out.Length) <= limit <= UINT_MAX
        invariant Doubled(old(out.Length), zo + n) == Doubled(limit, zo + n)
        decreases cur + n - limit
      {
        if limit > UINT_MAX / 2 {
          return false;
        }
        limit := limit * 2;
      }
      if limit > heapLimit {
        return false;
      }
      var q := new byte[limit];
      forall i | 0 <= i < out.Length {
        q[i] := out[i];
      }
      out := q;
      ok := true;
    }

    /** The two copy loops: forwards, one byte at a time, so that a copy may overlap its source. */
    method CopyBytes(zo: nat, len: nat, dist: nat) returns (zo': nat)
      requires dist <= zo && zo + len <= out.Length
      modifies out
      ensures zo' == zo + len
      ensures out[..zo] == old(out[..zo])
      ensures dist >= 1 ==> out[..zo'] == Repeat(old(out[..zo]), len, dist)
      ensures dist == 0 ==> out[..] == old(out[..])
    {
      if dist == 1 {
        zo' := CopyRun(zo, len);
      } else {
        zo' := CopyForward(zo, len, dist);
      }
    }

    method CopyRun(zo: nat, len: nat) returns (zo': nat)
      requires 1 <= zo && zo + len <= out.Length
      modifies out
      ensures zo' == zo + len
      ensures out[..zo] == old(out[..zo]) && out[..zo'] == Repeat(old(out[..zo]), len, 1)
    {
      zo' := zo;
      var n := len;
      var v := out[zo - 1];
      while n > 0
        invariant 0 <= n <= len && zo' == zo + len - n
        invariant v == out[zo' - 1]
        invariant out[..zo] == old(out[..zo]) && out[..zo'] == Repeat(old(out[..zo]), len - n, 1)
      {
        out[zo'] := v;
        zo' := zo' + 1;
        n := n - 1;
        assert out[..zo'] == out[..zo' - 1] + [v];
      }
    }

    method CopyForward(zo: nat, len: nat, dist: nat) returns (zo': nat)
      requires dist <= zo && zo + len <= out.Length
      modifies out
      ensures zo' == zo + len
      ensures out[..zo] == old(out[..zo])
      ensures dist >= 1 ==> out[..zo'] == Repeat(old(out[..zo]), len, dist)
      ensures dist == 0 ==> out[..] == old(out[..])
    {
      hide Repeat;
      zo' := zo;
      var n := len;
      var p := zo - dist;
      if dist >= 1 {
        RepeatNone(out[..zo], dist);
      }
      while n > 0
        invariant 0 <= n <= len && zo' == zo + len - n && p == zo' - dist
        invariant out[..zo] == old(out[..zo])
        invariant dist >= 1 ==> out[..zo'] == Repeat(old(out[..zo]), len - n, dist)
        invariant dist == 0 ==> out[..] == old(out[..])
      {
        ghost var before := out[..zo'];
        if dist >= 1 {
          RepeatMore(old(out[..zo]), len - n, dist);
        }
        out[zo'] := out[p];
        zo' := zo' + 1;
        p := p + 1;
        n := n - 1;
        assert out[..zo'] == before + [out[zo' - 1]];
      }
    }

    /** `base`, plus `extra` bits of the stream if there are any. */
    method Extended(base: nat, extra: nat) returns (v: nat)
      requires BitsOk() && extra <= 24
      modifies this`zbuffer, this`num_bits, this`code_buffer, this`fed, this`pos
      ensures BitsOk() && pos == old(pos) + extra && fed == Need(old(fed), old(pos), extra)
      ensures v == base + Field(LittleEndian(input), old(pos), extra)
    {
      v := base;
      if extra != 0 {
        var k := Zreceive(extra);
        v := v + k;
      }
    }

    /** The second half of a copy: after its length symbol `z`, read the extra length bits, the
        distance symbol and its extra bits. */
    method ReadCopy(zd: Table, ghost c: Codes, z: nat)
      returns (ok: bool, len: nat, dist: nat, ghost dsym: nat)
      requires BitsOk() && c.Valid() && zd.Represents(c.dist) && LengthSymbol(z)
      modifies this`zbuffer, this`num_bits, this`code_buffer, this`fed, this`pos
      ensures BitsOk()
      ensures var p1, p2 := old(pos), old(pos) + LengthExtra(z - 257);
        var f2 := Need(old(fed), p1, LengthExtra(z - 257));
        && len == LengthBase(z - 257) + Field(LittleEndian(input), p1, LengthExtra(z - 257))
        && (ok ==>
              && dsym < |c.dist| && SymbolAt(c.dist, LittleEndian(input), p2, dsym)
              && dist == DistBase(dsym) + Field(LittleEndian(input), p2 + c.dist[dsym], DistExtra(dsym))
              && pos == p2 + c.dist[dsym] + DistExtra(dsym)
              && HasBits(|input|, f2, p2)
              && fed == Need(Need(f2, p2, 16), p2 + c.dist[dsym], DistExtra(dsym)))
        && (!ok ==> NoSymbol(c.dist, LittleEndian(input), p2) || !HasBits(|input|, f2, p2))
    {
      hide Pow2, Shr, Field, Matches, LittleEndian, FirstCode, FastEntry, KraftUpTo;
      hide LengthBase, DistBase, LengthExtra, DistExtra, SymbolAt, NoSymbol;
      hide Table.HasIntervals, Table.HasSymbols, Table.HasFast;
      ExtraBits(z - 257);
      len := Extended(LengthBase(z - 257), LengthExtra(z - 257));
      var d := HuffmanDecode(zd, c.dist);
      if d < 0 {
        dist, dsym := 0, 0;
        return false, len, dist, dsym;
      }
      dsym := d;
      DistExtraBits(d);
      dist := Extended(DistBase(d), DistExtra(d));
      ok := true;
    }

    /** Room for `need` bytes in a buffer of `limit` bytes that may have to grow. */
    predicate Fits(limit: nat, need: nat)
      requires expandable ==> limit > 0
    {
      need <= limit || CanGrow(limit, need)
    }

    /** A block decoded up to bit `p`, with `fed` bytes taken in and `n` bytes of output in a buffer that
        had `limit` bytes, is refused for this cause. */
    ghost predicate Refused(c: Codes, p: nat, fed: nat, n: nat, limit: nat, cause: Cause)
      requires expandable ==> limit > 0
    {
      var s := LittleEndian(input);
      match cause
      case InputUsedUp => Starved(|input|, c, s, p, fed)
      case BadCode => NoItem(c, s, p)
      case FarDistance => exists it :: ItemAt(c, s, p, it) && it.Copy? && it.dist > n
      case NoRoom => exists it :: ItemAt(c, s, p, it) && !Fits(limit, n + ItemLen(it))
    }

    /** The reading half of one turn of the decoding loop: symbol `z`, and for a copy its length and
        distance. */
    method ReadItem(zl: Table, zd: Table, ghost c: Codes)
      returns (r: RoundResult, z: nat, len: nat, dist: nat, ghost it: Item)
      requires BitsOk() && c.Valid() && zl.Represents(c.lit) && zd.Represents(c.dist)
      modifies this`zbuffer, this`num_bits, this`code_buffer, this`fed, this`pos
      ensures BitsOk()
      ensures r == Continue ==>
        && ItemAt(c, LittleEndian(input), old(pos), it) && pos == old(pos) + ItemBits(c, it)
        && (if z < 256 then it == Literal(z) else it.Copy? && it.len == len && it.dist == dist)
        && ItemSupplied(|input|, c, old(pos), old(fed), it) && fed == FedItem(c, old(pos), old(fed), it)
      ensures r == EndOfBlock ==>
        && SymbolAt(c.lit, LittleEndian(input), old(pos), 256) && pos == old(pos) + c.lit[256]
        && HasBits(|input|, old(fed), old(pos)) && fed == Need(old(fed), old(pos), 16)
      ensures r == Error ==>
        NoItem(c, LittleEndian(input), old(pos)) || Starved(|input|, c, LittleEndian(input), old(pos), old(fed))
      ensures len < 300
    {
      hide Pow2, Shr, Field, Matches, LittleEndian, FirstCode, FastEntry, KraftUpTo;
      hide LengthBase, DistBase, LengthExtra, DistExtra, ItemAt, ItemBits, NoItem, SymbolAt, NoSymbol;
      hide Table.HasIntervals, Table.HasSymbols, Table.HasFast;
      ghost var s, p := LittleEndian(input), pos;
      hide Starved, Need, HasBits, FedItem, ItemSupplied, Kraft, IsLengths;
      ghost var f := fed;
      z, len, dist, it := 0, 0, 0, Literal(0);
      var sym := HuffmanDecode(zl, c.lit);
      if sym < 0 {
        NoLiteralCode(c, s, p);
        StarvedHere(|input|, c, s, p, f);
        r := Error;
        return;
      }
      z := sym;
      if z < 256 {
        it := Literal(z);
        LiteralItem(c, s, p, z);
        LiteralSupply(|input|, c, p, f, z);
        r := Continue;
      } else if z == 256 {
        r := EndOfBlock;
      } else {
        LengthSmall(s, p + c.lit[z], z - 257);
        ghost var d;
        var ok;
        ok, len, dist, d := ReadCopy(zd, c, z);
        it := Copy(z, d, len, dist);
        if ok {
          CopyItem(c, s, p, z, d, len, dist);
          CopySupply(|input|, c, p, f, it);
          r := Continue;
        } else {
          NoDistanceCode(c, s, p, z);
          StarvedBehind(|input|, c, s, p, f, z);
          r := Error;
        }
      }
    }

    /** One turn of the decoding loop: one item, or the end of the block. */
    method Round(zl: Table, zd: Table, ghost c: Codes, zo: nat)
      returns (r: RoundResult, zo': nat, ghost it: Item, ghost cause: Cause)
      requires BitsOk() && OutOk() && zo <= out.Length
      requires c.Valid() && zl.Represents(c.lit) && zd.Represents(c.dist)
      requires out !in zl.Repr() && out !in zd.Repr()
      modifies this, out
      ensures BitsOk() && OutOk() && zo' <= out.Length
      ensures out == old(out) || fresh(out)
      ensures r == Continue ==>
        && ItemAt(c, LittleEndian(input), old(pos), it) && pos == old(pos) + ItemBits(c, it)
        && ItemSupplied(|input|, c, old(pos), old(fed), it) && fed == FedItem(c, old(pos), old(fed), it)
        && Appends(old(out[..zo]), it, out[..zo']) && zo' == zo + ItemLen(it)
        && Fits(old(out.Length), zo') && out.Length == Grown(old(out.Length), zo')
      ensures r == EndOfBlock ==>
        && SymbolAt(c.lit, LittleEndian(input), old(pos), 256) && pos == old(pos) + c.lit[256]
        && HasBits(|input|, old(fed), old(pos)) && fed == Need(old(fed), old(pos), 16)
        && zo' == zo == zout && out == old(out) && out[..zo'] == old(out[..zo])
      ensures r == Error ==> Refused(c, old(pos), old(fed), zo, old(out.Length), cause)
    {
      hide LittleEndian, ItemAt, ItemBits, NoItem, SymbolAt, Doubled, Kraft, Shr, Pow2;
      hide Starved, Need, HasBits, FedItem, ItemSupplied, Appends, Grown, Fits;
      zo', cause := zo, BadCode;
      ghost var s, p, f := LittleEndian(input), pos, fed;
      var z: nat, len: nat, dist: nat;
      r, z, len, dist, it := ReadItem(zl, zd, c);
      if r == Error {
        cause := if NoItem(c, s, p) then BadCode else InputUsedUp;
        return;
      }
      if r == EndOfBlock {
        zout := zo;
        return;
      }
      if z >= 256 && zo < dist {
        cause := FarDistance;
        return Error, zo', it, cause;
      }
      var ok := MakeRoom(zo, if z < 256 then 1 else len);
      if !ok {
        cause := NoRoom;
        return Error, zo', it, cause;
      }
      zo' := WriteItem(zo, z, len, dist, it);
    }

    /** Expand the output only if `n` more bytes do not fit behind `zo`. */
    method MakeRoom(zo: nat, n: nat) returns (ok: bool)
      requires zo <= out.Length <= UINT_MAX && (expandable ==> out.Length > 0) && n <= UINT_MAX
      modifies this`zout, this`out
      ensures zo <= out.Length <= UINT_MAX && (expandable ==> out.Length > 0)
      ensures ok <==> Fits(old(out.Length), zo + n)
      ensures out == old(out) || fresh(out)
      ensures !ok ==> out == old(out)
      ensures ok ==> zo + n <= out.Length == Grown(old(out.Length), zo + n)
      ensures out[..zo] == old(out[..zo])
      ensures out.Length >= old(out.Length) && (zout == zo || zout == old(zout))
    {
      hide Doubled;
      ok := true;
      if zo + n > out.Length {
        ok := Zexpand(zo, n);
      } else {
        NothingGrown(out.Length, zo + n);
      }
    }

    /** The writing half of one turn. */
    method WriteItem(zo: nat, z: nat, len: nat, dist: nat, ghost it: Item) returns (zo': nat)
      requires if z < 256 then it == Literal(z) else it.Copy? && it.len == len && it.dist == dist <= zo
      requires zo + ItemLen(it) <= out.Length
      modifies out
      ensures zo' == zo + ItemLen(it) && Appends(old(out[..zo]), it, out[..zo'])
    {
      hide Repeat;
      ghost var front := out[..zo];
      if z < 256 {
        out[zo] := z;
        zo' := zo + 1;
        assert out[..zo'] == front + [z];
      } else {
        zo' := CopyBytes(zo, len, dist);
        CopyAppends(front, it, out[..zo']);
      }
    }

    /** Bounds the turns a block can still take: each appends a byte or consumes a real input bit. */
    ghost function Potential(zo: nat): nat
      requires zo <= UINT_MAX
      reads this
    {
      Weight(UINT_MAX - zo, 8 * |input|, pos)
    }

    lemma FitsMonotone(limit: nat, a: nat, b: nat)
      requires (expandable ==> limit > 0) && a <= b && Fits(limit, b)
      ensures Fits(limit, a)
    {
      hide Doubled;
      if expandable {
        DoubledMonotone(limit, a, b);
      }
    }

    /** Growing on the way to a need changes neither whether it can be met nor the size that meets it. */
    lemma GrownStep(limit: nat, a: nat, b: nat)
      requires (expandable ==> limit > 0) && a <= b && Fits(limit, a)
      ensures expandable ==> Grown(limit, a) > 0
      ensures Fits(Grown(limit, a), b) <==> Fits(limit, b)
      ensures Fits(limit, b) ==> Grown(Grown(limit, a), b) == Grown(limit, b)
    {
      if limit > 0 {
        DoubledAgain(limit, a, b);
        DoubledGrows(limit, a);
        DoubledGrows(limit, b);
        hide Doubled;
      }
    }

    /** The items can be read at `p`, with the bits and the room they take and with no copy from before the
        `n` bytes of output: decoding goes on after them. */
    ghost predicate Going(c: Codes, p: nat, fed: nat, n: nat, limit: nat, items: seq<Item>)
      requires expandable ==> limit > 0
    {
      && ItemsAt(c, LittleEndian(input), p, items) && ItemsSupplied(|input|, c, p, fed, items)
      && Applies(n, items) && Fits(limit, n + TotalLen(items))
    }

    /** They are a whole block body. */
    ghost predicate Decodable(c: Codes, p: nat, fed: nat, n: nat, limit: nat, items: seq<Item>)
      requires expandable ==> limit > 0
    {
      && Going(c, p, fed, n, limit, items)
      && SymbolAt(c.lit, LittleEndian(input), After(c, p, items), 256)
      && HasBits(|input|, FedItems(c, p, fed, items), After(c, p, items))
    }

    /** Decoding stops for this cause after some items. */
    ghost predicate RefusedAfter(c: Codes, p: nat, fed: nat, n: nat, limit: nat, items: seq<Item>, cause: Cause)
      requires expandable ==> limit > 0
    {
      && ItemsAt(c, LittleEndian(input), p, items)
      && Refused(c, After(c, p, items), FedItems(c, p, fed, items), n + TotalLen(items), limit, cause)
    }

    ghost predicate EndsWithin(c: Codes, p: nat, fed: nat, n: nat, limit: nat, rounds: nat)
      requires expandable ==> limit > 0
    {
      exists body :: |body| < rounds && Decodable(c, p, fed, n, limit, body)
    }

    ghost predicate GoesOn(c: Codes, p: nat, fed: nat, n: nat, limit: nat, rounds: nat)
      requires expandable ==> limit > 0
    {
      exists items :: |items| == rounds && Going(c, p, fed, n, limit, items)
    }

    /** How the loop over a block body ended. */
    ghost predicate BodyOutcome(r: Outcome, c: Codes, p: nat, fed: nat, n: nat, limit: nat, rounds: nat,
                                items: seq<Item>, cause: Cause)
      requires expandable ==> limit > 0
    {
      match r
      case Done => Decodable(c, p, fed, n, limit, items) && |items| < rounds
      case Failed => RefusedAfter(c, p, fed, n, limit, items, cause) && |items| < rounds
      case OutOfRounds => Going(c, p, fed, n, limit, items) && |items| == rounds
    }

    /** The three endings exclude each other, so each occurs exactly when the stream says so. */
    lemma OneOutcome(r: Outcome, c: Codes, p: nat, fed: nat, n: nat, limit: nat, rounds: nat,
                     items: seq<Item>, cause: Cause)
      requires (expandable ==> limit > 0) && c.Valid()
      requires BodyOutcome(r, c, p, fed, n, limit, rounds, items, cause)
      ensures r == Done <==> EndsWithin(c, p, fed, n, limit, rounds)
      ensures r == OutOfRounds <==> GoesOn(c, p, fed, n, limit, rounds)
    {
      hide Going, RefusedAfter, Kraft;
      if EndsWithin(c, p, fed, n, limit, rounds) {
        var body :| |body| < rounds && Decodable(c, p, fed, n, limit, body);
        DecodableIsDecoded(c, p, fed, n, limit, body, items);
      }
      if GoesOn(c, p, fed, n, limit, rounds) {
        var all :| |all| == rounds && Going(c, p, fed, n, limit, all);
        if r == Done {
          DecodableIsDecoded(c, p, fed, n, limit, items, all);
        } else if r == Failed {
          FailsWithin(c, p, fed, n, limit, all, items, cause);
        }
      }
    }

    /** Decode a block body for at most `rounds` turns of the source's endless loop. */
    method ParseHuffmanBlock(zl: Table, zd: Table, ghost c: Codes, rounds: nat)
      returns (r: Outcome, ghost items: seq<Item>, ghost cause: Cause)
      requires Valid()
      requires c.Valid() && zl.Represents(c.lit) && zd.Represents(c.dist)
      requires out !in zl.Repr() && out !in zd.Repr()
      modifies this, out
      ensures Valid() && (out == old(out) || fresh(out))
      ensures BodyOutcome(r, c, old(pos), old(fed), old(zout), old(out.Length), rounds, items, cause)
      ensures r == Done <==> EndsWithin(c, old(pos), old(fed), old(zout), old(out.Length), rounds)
      ensures r == OutOfRounds <==> GoesOn(c, old(pos), old(fed), old(zout), old(out.Length), rounds)
      ensures r == Done ==>
        && pos == After(c, old(pos), items) + c.lit[256] && fed == FedBody(c, old(pos), old(fed), items)
        && AppendsAll(old(Output()), items, Output()) && out.Length == Grown(old(out.Length), zout)
      ensures r == OutOfRounds && ZerosAdvance(c) ==> rounds <= old(Potential(zout))
    {
      hide LittleEndian, ItemAt, ItemBits, SymbolAt, Shr, Pow2, Appends, Kraft, ItemLen, Weight, Refused;
      hide ItemsAt, After, AppendsAll, TotalLen, Doubled, Grown, Fits, Applies;
      hide FedItems, FedItem, ItemSupplied, ItemsSupplied, HasBits, Need;
      ghost var s, p0, f0, out0, L0 := LittleEndian(input), pos, fed, out[..zout], out.Length;
      items, cause := [], BadCode;
      NothingYet(c, s, p0, out0);
      NothingFed(|input|, c, p0, f0);
      NothingGrown(L0, zout);
      var zo: nat := zout;
      for k := 0 to rounds
        invariant BitsOk() && OutOk() && zo <= out.Length
        invariant out == old(out) || fresh(out)
        invariant |items| == k && ItemsAt(c, s, p0, items) && pos == After(c, p0, items)
        invariant ItemsSupplied(|input|, c, p0, f0, items) && fed == FedItems(c, p0, f0, items)
        invariant AppendsAll(out0, items, out[..zo]) && zo == |out0| + TotalLen(items)
        invariant Fits(L0, zo) && out.Length == Grown(L0, zo)
        invariant ZerosAdvance(c) ==> k + Potential(zo) <= old(Potential(zout))
      {
        ghost var p, f, front, L := pos, fed, out[..zo], out.Length;
        var res, zo', it, why := Round(zl, zd, c, zo);
        ItApplies(out0, items, front);
        if res == Error {
          cause := why;
          GrownRefused(c, p, f, zo, L0, cause);
          OneOutcome(Failed, c, p0, f0, |out0|, L0, rounds, items, cause);
          return Failed, items, cause;
        }
        if res == EndOfBlock {
          OneOutcome(Done, c, p0, f0, |out0|, L0, rounds, items, cause);
          return Done, items, cause;
        }
        Extend(c, s, p0, out0, items, front, it, out[..zo']);
        ExtendSupply(|input|, c, p0, f0, items, it);
        GrownStep(L0, zo, zo');
        if ZerosAdvance(c) {
          TurnAdvances(c, input, p, it);
          WeightDrops(UINT_MAX - zo, UINT_MAX - zo', 8 * |input|, p, pos);
        }
        items := items + [it];
        zo := zo';
      }
      zout := zo;
      ItApplies(out0, items, out[..zo]);
      OneOutcome(OutOfRounds, c, p0, f0, |out0|, L0, rounds, items, cause);
      r := OutOfRounds;
    }

    lemma NothingGrown(limit: nat, n: nat)
      requires (expandable ==> limit > 0) && n <= limit
      ensures Fits(limit, n) && Grown(limit, n) == limit
    {
    }

    /** A refusal seen with the buffer as it has grown is one for the buffer as it was. */
    lemma GrownRefused(c: Codes, p: nat, fed: nat, n: nat, limit: nat, cause: Cause)
      requires (expandable ==> limit > 0) && Fits(limit, n)
      requires (expandable ==> Grown(limit, n) > 0) && Refused(c, p, fed, n, Grown(limit, n), cause)
      ensures Refused(c, p, fed, n, limit, cause)
    {
      hide LittleEndian, ItemAt, Grown, Fits, Starved, NoItem;
      if cause == NoRoom {
        var it :| ItemAt(c, LittleEndian(input), p, it) && !Fits(Grown(limit, n), n + ItemLen(it));
        GrownStep(limit, n, n + ItemLen(it));
      }
    }

    /** Each cause rules out, in its own way, every body of items at that place. */
    lemma RefusedBody(c: Codes, p: nat, fed: nat, n: nat, limit: nat, items: seq<Item>, cause: Cause, other: seq<Item>)
      requires (expandable ==> limit > 0) && c.Valid()
      requires RefusedAfter(c, p, fed, n, limit, items, cause) && BodyAt(c, LittleEndian(input), p, other)
      ensures match cause
              case InputUsedUp => !BodySupplied(|input|, c, p, fed, other)
              case NoRoom => !Fits(limit, n + TotalLen(other))
              case _ => Broken(c, LittleEndian(input), p, n, items) && !Applies(n, other)
    {
      hide LittleEndian, ItemAt, ItemsAt, After, NoItem, Fits, TotalLen, Starved, BodySupplied, BodyAt, Kraft;
      var s := LittleEndian(input);
      match cause {
        case InputUsedUp =>
          StarvedBody(|input|, c, s, p, fed, items, other);
        case NoRoom =>
          var it :| ItemAt(c, s, After(c, p, items), it) && !Fits(limit, n + TotalLen(items) + ItemLen(it));
          BodyHasItem(c, s, p, items, it, other);
          if Fits(limit, n + TotalLen(other)) {
            FitsMonotone(limit, n + TotalLen(items) + ItemLen(it), n + TotalLen(other));
          }
        case _ =>
          BrokenBody(c, s, p, n, items, other);
      }
    }

    /** A body that decodes is not refused, and it ends after its own number of turns. */
    lemma DecodableIsDecoded(c: Codes, p: nat, fed: nat, n: nat, limit: nat, body: seq<Item>, items: seq<Item>)
      requires (expandable ==> limit > 0) && c.Valid() && Decodable(c, p, fed, n, limit, body)
      ensures forall cause :: !RefusedAfter(c, p, fed, n, limit, items, cause)
      ensures Going(c, p, fed, n, limit, items) ==> |items| <= |body|
    {
      hide LittleEndian, ItemsAt, ItemsSupplied, After, Fits, TotalLen, Kraft, SymbolAt, HasBits, FedItems;
      forall cause ensures !RefusedAfter(c, p, fed, n, limit, items, cause) {
        if RefusedAfter(c, p, fed, n, limit, items, cause) {
          RefusedBody(c, p, fed, n, limit, items, cause, body);
        }
      }
      if Going(c, p, fed, n, limit, items) {
        BodyContinues(c, LittleEndian(input), p, items, body);
      }
    }

    /** Nor is one refused within items after which decoding goes on. */
    lemma GoingIsNotRefused(c: Codes, p: nat, fed: nat, n: nat, limit: nat, items: seq<Item>, k: nat, cause: Cause)
      requires (expandable ==> limit > 0) && c.Valid() && Going(c, p, fed, n, limit, items) && k < |items|
      ensures !RefusedAfter(c, p, fed, n, limit, items[..k], cause)
    {
      hide LittleEndian, ItemAt, ItemsAt, ItemsSupplied, After, NoItem, Fits, TotalLen, Starved, Kraft, FedItems;
      hide ItemSupplied, AppendsAll;
      var s, q := LittleEndian(input), After(c, p, items[..k]);
      ItemsPrefix(c, s, p, items, k);
      SuppliedPrefix(|input|, c, p, fed, items, k);
      TotalLenPrefix(items, k);
      if RefusedAfter(c, p, fed, n, limit, items[..k], cause) {
        match cause {
          case InputUsedUp =>
            StarvedItem(|input|, c, s, q, FedItems(c, p, fed, items[..k]), items[k]);
          case NoRoom =>
            var it :| ItemAt(c, s, q, it) && !Fits(limit, n + TotalLen(items[..k]) + ItemLen(it));
            ItemUnique(c, s, q, it, items[k]);
            FitsMonotone(limit, n + TotalLen(items[..k]) + ItemLen(it), n + TotalLen(items));
          case BadCode =>
            ItemIsNoItem(c, s, q, items[k]);
          case FarDistance =>
            var it :| ItemAt(c, s, q, it) && it.Copy? && it.dist > n + TotalLen(items[..k]);
            ItemUnique(c, s, q, it, items[k]);
            var out: seq<byte>, r :| |out| == n && AppendsAll(out, items, r);
            TooFar(out, items, r, k);
        }
      }
    }

    lemma FailsWithin(c: Codes, p: nat, fed: nat, n: nat, limit: nat, all: seq<Item>, items: seq<Item>, cause: Cause)
      requires (expandable ==> limit > 0) && c.Valid() && Going(c, p, fed, n, limit, all) && |items| < |all|
      ensures !RefusedAfter(c, p, fed, n, limit, items, cause)
    {
      hide Refused, ItemsSupplied, After, FedItems, Kraft, Fits, Applies, ItemsAt;
      if RefusedAfter(c, p, fed, n, limit, items, cause) {
        ItemsAgree(c, LittleEndian(input), p, items, all, |items|);
        assert all[..|items|] == items[..|items|] == items;
        GoingIsNotRefused(c, p, fed, n, limit, all, |items|, cause);
      }
    }

    /** Read a byte past the (empty) bit buffer. */
    method TakeByte() returns (b: byte)
      requires BitsOk() && num_bits == 0
      modifies this`zbuffer, this`fed, this`pos
      ensures BitsOk() && num_bits == 0 && pos == old(pos) + 8
      ensures b == Field(LittleEndian(input), old(pos), 8)
    {
      hide LittleEndian, Shr, Pow2, Low;
      b := Zget8();
      ghost var rest := LittleEndian(input[zbuffer..]);
      EmptyBuffer(code_buffer, b, rest);
      ShrAdd(LittleEndian(input), pos, 8);
      fed := fed + 1;
      pos := pos + 8;
    }

    /** Discard the bits before the next byte boundary. */
    method SkipToByte()
      requires BitsOk()
      modifies this`zbuffer, this`num_bits, this`code_buffer, this`fed, this`pos
      ensures BitsOk() && num_bits % 8 == 0 && pos == AlignByte(old(pos))
    {
      hide LittleEndian, Shr, Low, And;
      Pow2Values();
      AndMask(num_bits, 3);
      SmallLow(num_bits);
      ToBoundary(pos, num_bits, fed);
      var n := And(num_bits, 7);
      hide Pow2;
      if n != 0 {
        var discard := Zreceive(n);
      }
      WholeBytes(pos, num_bits, fed);
    }

    /** Move the buffered whole bytes into `header`. */
    method DrainBits() returns (header: seq<nat>)
      requires BitsOk() && num_bits % 8 == 0
      modifies this`num_bits, this`code_buffer, this`pos
      ensures BitsOk() && num_bits == 0 && |header| <= 4 && pos == old(pos) + 8 * |header|
      ensures forall i :: 0 <= i < |header| ==> header[i] == Field(LittleEndian(input), old(pos) + 8 * i, 8)
    {
      hide LittleEndian, Field;
      ghost var s := LittleEndian(input);
      header := [];
      while num_bits > 0
        invariant BitsOk() && num_bits == old(num_bits) - 8 * |header| && pos == old(pos) + 8 * |header|
        invariant forall i :: 0 <= i < |header| ==> header[i] == Field(s, old(pos) + 8 * i, 8)
      {
        var b := DrainByte();
        header := header + [b];
      }
    }

    method DrainByte() returns (b: nat)
      requires BitsOk() && num_bits >= 8
      modifies this`num_bits, this`code_buffer, this`pos
      ensures BitsOk() && num_bits == old(num_bits) - 8 && pos == old(pos) + 8
      ensures b == Field(LittleEndian(input), old(pos), 8)
    {
      hide LittleEndian, Shr, Pow2, Low, And, Field;
      Pow2Values();
      AndMask(code_buffer, 8);
      LowBuffered(code_buffer, num_bits, LittleEndian(input[zbuffer..]), 8);
      FieldIsLow(LittleEndian(input), pos);
      b := And(code_buffer, 255);
      Consume(8);
    }

    /** Skip to a byte boundary and collect the four header bytes, first from the bit buffer, then
        from the input.  No payload byte is in the bit buffer afterwards. */
    method StoredHeaderBytes() returns (ok: bool, header: seq<nat>)
      requires BitsOk()
      modifies this`zbuffer, this`num_bits, this`code_buffer, this`fed, this`pos
      ensures ok && BitsOk() && num_bits == 0 && pos == AlignByte(old(pos)) + 32
      ensures Ahead() == LittleEndian(input[zbuffer..])
      ensures |header| == 4
      ensures forall i :: 0 <= i < 4 ==> header[i] == Field(LittleEndian(input), AlignByte(old(pos)) + 8 * i, 8)
    {
      hide LittleEndian, Shr, Pow2, Field, AlignByte;
      ghost var s := LittleEndian(input);
      SkipToByte();
      ghost var p := pos;
      header := DrainBits();
      if num_bits < 0 {
        return false, header;
      }
      while |header| < 4
        invariant BitsOk() && num_bits == 0 && |header| <= 4 && pos == p + 8 * |header|
        invariant forall i :: 0 <= i < |header| ==> header[i] == Field(s, p + 8 * i, 8)
      {
        ghost var k := |header|;
        var b := TakeByte();
        assert b == Field(s, p + 8 * k, 8);
        header := header + [b];
      }
      EmptyBuffer(code_buffer, 0, LittleEndian(input[zbuffer..]));
      ok := true;
    }

    method CopyInput(len: nat)
      requires zbuffer + len <= |input| && zout + len <= out.Length
      modifies out
      ensures out[..zout + len] == old(out[..zout]) + input[zbuffer..zbuffer + len]
    {
      for i := 0 to len
        invariant out[..zout] == old(out[..zout])
        invariant out[zout..zout + i] == input[zbuffer..zbuffer + i]
      {
        ghost var done := out[zout..zout + i];
        out[zout + i] := input[zbuffer + i];
        assert out[zout..zout + i + 1] == done + [out[zout + i]];
        assert input[zbuffer..zbuffer + i + 1] == input[zbuffer..zbuffer + i] + [input[zbuffer + i]];
      }
      assert out[..zout + len] == out[..zout] + out[zout..zout + len];
    }

    /** Read the length of a stored block and check it against its complement and the input. */
    method ReadStoredLength() returns (ok: bool, len: nat)
      requires BitsOk()
      modifies this`zbuffer, this`num_bits, this`code_buffer, this`fed, this`pos
      ensures BitsOk() && num_bits == 0 && pos == AlignByte(old(pos)) + 32
      ensures Ahead() == LittleEndian(input[zbuffer..])
      ensures len == Field(LittleEndian(input), AlignByte(old(pos)), 16) <= 0xFFFF
      ensures ok <==>
        StoredHeader(LittleEndian(input), old(pos)) && AlignByte(old(pos)) / 8 + 4 + len <= |input|
      ensures ok ==> zbuffer + len <= |input|
    {
      hide LittleEndian, Shr, Pow2, Low, Xor, Field, AlignByte;
      ghost var s, p := LittleEndian(input), AlignByte(pos);
      var header;
      ok, header := StoredHeaderBytes();
      len := header[1] * 256 + header[0];
      if !ok {
        return;
      }
      var nlen := header[3] * 256 + header[2];
      TwoBytes(s, p);
      TwoBytes(s, p + 16);
      Pow2Values();
      XorOnes(len, 16);
      if nlen != Xor(len, 0xffff) {
        return false, len;
      }
      if fed > zbuffer {
        PaddedHeader(input, p, len, nlen);
      }
      ok := zbuffer + len <= |input|;
    }

    /** `memcpy` the payload and advance both pointers. */
    method TakeStored(len: nat) returns (ghost data: seq<byte>)
      requires Valid() && num_bits == 0 && Ahead() == LittleEndian(input[zbuffer..])
      requires zbuffer + len <= |input| && zout + len <= out.Length
      modifies this`zbuffer, this`zout, this`pos, this`fed, out
      ensures pos == 8 * fed && zout == old(zout) + len
      ensures Valid() && Output() == old(Output()) + data && pos == old(pos) + 8 * len
      ensures |data| == len
      ensures forall i :: 0 <= i < len ==> data[i] == Field(LittleEndian(input), old(pos) + 8 * i, 8)
    {
      hide LittleEndian, Shr, Pow2, Field;
      data := input[zbuffer..zbuffer + len];
      CopyInput(len);
      StoredBytes(input, pos, zbuffer, len, fed);
      zbuffer := zbuffer + len;
      zout := zout + len;
      pos := pos + 8 * len;
      fed := fed + len;
      EmptyBuffer(code_buffer, 0, LittleEndian(input[zbuffer..]));
    }

    /** Copy a stored block.  It is refused exactly when its lengths disagree, when the input is
        shorter than the length says, or when the output cannot grow. */
    method ParseUncompressedBlock() returns (ok: bool, ghost data: seq<byte>)
      requires Valid()
      modifies this, out
      ensures Valid() && (out == old(out) || fresh(out))
      ensures var s, p := LittleEndian(input), AlignByte(old(pos));
        var len := Field(s, p, 16);
        && (ok <==>
              && StoredHeader(s, old(pos))
              && p / 8 + 4 + len <= |input|
              && Fits(old(out.Length), old(zout) + len))
      ensures !ok ==> out == old(out)
      ensures ok ==> pos == 8 * fed && out.Length == Grown(old(out.Length), zout)
      ensures ok ==> StoredAt(LittleEndian(input), old(pos), data)
      ensures ok ==> Output() == old(Output()) + data
      ensures ok ==> pos == AlignByte(old(pos)) + 32 + 8 * |data|
    {
      hide LittleEndian, Shr, Pow2, Field, Doubled, AlignByte, StoredHeader;
      data := [];
      var len;
      ok, len := ReadStoredLength();
      if !ok {
        return;
      }
      ok := MakeRoom(zout, len);
      if !ok {
        return;
      }
      data := TakeStored(len);
    }

    /** Read the code lengths of the code length code. */
    method ReadCodeLengthSizes(hclen: nat) returns (cl: seq<nat>)
      requires BitsOk() && hclen <= 19
      modifies this`zbuffer, this`num_bits, this`code_buffer, this`fed, this`pos
      ensures BitsOk() && pos == old(pos) + 3 * hclen && fed == FedSizes(old(pos), old(fed), hclen)
      ensures CodeLengthsAt(LittleEndian(input), old(pos), hclen, cl)
    {
      hide LittleEndian, Shr, Pow2, Field, CodeLengthOrder, CodeLengthRank, FedSizes, Need;
      ghost var s, p0, f0 := LittleEndian(input), pos, fed;
      FedSizesStep(p0, f0, 0);
      var codelength_sizes := new nat[19](_ => 0);
      for i := 0 to hclen
        invariant BitsOk() && pos == old(pos) + 3 * i && fed == FedSizes(old(pos), old(fed), i)
        invariant forall k :: 0 <= k < 19 ==>
          codelength_sizes[CodeLengthOrder(k)] == if k < i then Field(s, old(pos) + 3 * k, 3) else 0
      {
        FedSizesStep(p0, f0, i);
        var v := Extended(0, 3);
        forall k | 0 <= k < 19 && k != i ensures CodeLengthOrder(k) != CodeLengthOrder(i) {
          OrderInverse(k);
          OrderInverse(i);
        }
        codelength_sizes[CodeLengthOrder(i)] := v;
      }
      cl := codelength_sizes[..];
    }

    /** Read one run: `count` code lengths of value `fill`, after `n` code lengths ending in `prev`. */
    method ReadRun(zc: Table, ghost cl: seq<nat>, n: nat, prev: nat)
      returns (ok: bool, fill: nat, count: nat, ghost run: Run)
      requires BitsOk() && zc.Represents(cl) && |cl| == 19
      modifies this`zbuffer, this`num_bits, this`code_buffer, this`fed, this`pos
      ensures BitsOk()
      ensures ok ==> RunAt(cl, LittleEndian(input), old(pos), run) && pos == old(pos) + RunBits(cl, run)
      ensures ok ==> HasBits(|input|, old(fed), old(pos)) && fed == FedRun(cl, old(pos), old(fed), run)
      ensures ok ==> match run
        case Len(l) => fill == l && count == 1
        case Again(k) => count == k && fill == prev && n > 0
        case Zeros(_, k) => count == k && fill == 0
      ensures !ok ==>
        || NoSymbol(cl, LittleEndian(input), old(pos))
        || (n == 0 && SymbolAt(cl, LittleEndian(input), old(pos), 16))
        || !HasBits(|input|, old(fed), old(pos))
    {
      hide LittleEndian, Shr, Pow2, Field, Matches, FirstCode, KraftUpTo, FastEntry, RunAt, RunBits, SymbolAt, NoSymbol;
      hide Table.HasIntervals, Table.HasSymbols, Table.HasFast;
      hide HasBits, Need;
      ghost var s, p := LittleEndian(input), pos;
      ok, fill, count, run := true, 0, 1, Len(0);
      var c := HuffmanDecode(zc, cl);
      if c < 0 || c >= 19 {
        return false, fill, count, run;
      }
      if c < 16 {
        fill, run := c, Len(c);
      } else if c == 16 {
        count := Extended(3, 2);
        if n == 0 {
          return false, fill, count, run;
        }
        fill, run := prev, Again(count);
      } else if c == 17 {
        count := Extended(3, 3);
        run := Zeros(17, count);
      } else {
        count := Extended(11, 7);
        run := Zeros(18, count);
      }
      RunFromFields(cl, s, p, run);
      NeedNothing(fed, pos);
    }

    /** Read the run-length coded code lengths into `lencodes` until there are `ntot` of them. */
    method ReadLengths(zc: Table, ghost cl: seq<nat>, lencodes: array<nat>, ntot: nat)
      returns (ok: bool, ghost runs: seq<Run>)
      requires BitsOk() && zc.Represents(cl) && |cl| == 19
      requires lencodes !in zc.Repr() && ntot <= lencodes.Length
      modifies this`zbuffer, this`num_bits, this`code_buffer, this`fed, this`pos, lencodes
      ensures BitsOk() && RunsAt(cl, LittleEndian(input), old(pos), runs)
      ensures ok ==> pos == RunsAfter(cl, old(pos), runs) && Lens(runs) == lencodes[..ntot]
      ensures ok ==> RunsSupplied(|input|, cl, old(pos), old(fed), runs) && fed == FedRuns(cl, old(pos), old(fed), runs)
      ensures !ok ==> |Lens(runs)| < ntot
      ensures !ok ==>
        || !HasBits(|input|, FedRuns(cl, old(pos), old(fed), runs), RunsAfter(cl, old(pos), runs))
        || NoRunFits(cl, LittleEndian(input), RunsAfter(cl, old(pos), runs), |Lens(runs)|, ntot)
    {
      hide LittleEndian, Shr, Pow2, RunAt, RunBits, RunsAt, RunsAfter, AddRun, Lens, Kraft, NoSymbol, SymbolAt;
      hide HasBits, FedRun, FedRuns, RunsSupplied;
      ghost var s, p0, f0 := LittleEndian(input), pos, fed;
      runs := [];
      NoRuns(cl, s, p0);
      NoRunsFed(|input|, cl, p0, f0);
      var n := 0;
      while n < ntot
        invariant BitsOk() && zc.Represents(cl) && 0 <= n <= ntot
        invariant RunsAt(cl, s, p0, runs) && pos == RunsAfter(cl, p0, runs) && Lens(runs) == lencodes[..n]
        invariant RunsSupplied(|input|, cl, p0, f0, runs) && fed == FedRuns(cl, p0, f0, runs)
      {
        ghost var p := pos;
        var more, fill, count, run := ReadRun(zc, cl, n, if n == 0 then 0 else lencodes[n - 1]);
        if !more {
          if NoSymbol(cl, s, p) || (n == 0 && SymbolAt(cl, s, p, 16)) {
            NoRunHere(cl, s, p, n == 0);
          }
          return false, runs;
        }
        AddRunFill([], run, if n == 0 then fill else AloneFill(run), count);
        if ntot - n < count {
          OnlyRunHere(cl, s, p, run);
          return false, runs;
        }
        AddRunFill(lencodes[..n], run, fill, count);
        ExtendRuns(cl, s, p0, runs, run);
        ExtendRunSupply(|input|, cl, p0, f0, runs, run);
        Memset(lencodes, n, fill, count);
        RunGrows(cl, s, p, lencodes[..n], run);
        runs := runs + [run];
        n := n + count;
      }
      ok := true;
    }

    /** Build the literal/length table, then the distance table. */
    method BuildTables(lit: seq<nat>, dist: seq<nat>) returns (ok: bool)
      requires TablesOk() && IsLengths(lit) && |lit| <= NumSymbols && IsLengths(dist) && |dist| <= NumSymbols
      modifies z_length.Repr(), z_distance.Repr()
      ensures ok <==> Kraft(lit) && Kraft(dist)
      ensures ok ==> z_length.Represents(lit) && z_distance.Represents(dist)
    {
      hide Kraft, Table.HasIntervals, Table.HasSymbols, Table.HasFast;
      ok := z_length.Build(lit);
      if !ok {
        return;
      }
      ok := z_distance.Build(dist);
    }

    /** A fresh table for the code length code, unless its lengths are not a prefix code. */
    method BuildCodeLengthTable(cl: seq<nat>) returns (ok: bool, z: Table)
      requires IsLengths(cl) && |cl| <= NumSymbols
      ensures fresh(z.Repr()) && (ok <==> Kraft(cl)) && (ok ==> z.Represents(cl))
    {
      z := new Table();
      ok := z.Build(cl);
    }

    /** Read HLIT, HDIST, HCLEN and the lengths of the code length code. */
    method ReadHeaderSizes() returns (hlit: nat, hdist: nat, cl: seq<nat>)
      requires BitsOk()
      modifies this`zbuffer, this`num_bits, this`code_buffer, this`fed, this`pos
      ensures BitsOk() && pos == RunsStart(LittleEndian(input), old(pos))
      ensures fed == FedFields(LittleEndian(input), old(pos), old(fed))
      ensures hlit == Hlit(LittleEndian(input), old(pos)) && hdist == Hdist(LittleEndian(input), old(pos))
      ensures 257 <= hlit <= 288 && 1 <= hdist <= 32
      ensures CodeLengthsAt(LittleEndian(input), old(pos) + 14, Hclen(LittleEndian(input), old(pos)), cl)
      ensures |cl| == 19 && IsLengths(cl)
    {
      hide LittleEndian, Shr, Pow2, Field, CodeLengthsAt, FedSizes, Need;
      ghost var s, p := LittleEndian(input), pos;
      HeaderFields(s, p);
      hlit := Extended(257, 5);
      hdist := Extended(1, 5);
      var hclen := Extended(4, 4);
      cl := ReadCodeLengthSizes(hclen);
      CodeLengthsBound(s, p + 14, hclen, cl);
      CodeLengthsSize(s, p + 14, hclen, cl);
    }

    /** Read the dynamic code lengths and build the two tables.  This succeeds exactly when the stream holds
        valid code lengths and the input holds the bits they ask for. */
    method ComputeHuffmanCodes() returns (ok: bool, ghost h: Header)
      requires BitsOk() && TablesOk()
      modifies this`zbuffer, this`num_bits, this`code_buffer, this`fed, this`pos
      modifies z_length.Repr(), z_distance.Repr()
      ensures BitsOk()
      ensures ok <==> SomeHeader(|input|, LittleEndian(input), old(pos), old(fed))
      ensures ok ==>
        && HeaderAt(LittleEndian(input), old(pos), h)
        && HeaderSupplied(|input|, LittleEndian(input), old(pos), old(fed), h)
        && pos == RunsAfter(h.cl, RunsStart(LittleEndian(input), old(pos)), h.runs)
        && fed == FedHeader(LittleEndian(input), old(pos), old(fed), h)
        && z_length.Represents(HeaderCodes(LittleEndian(input), old(pos), h).lit)
        && z_distance.Represents(HeaderCodes(LittleEndian(input), old(pos), h).dist)
      ensures !ok ==>
        HeaderStarved(|input|, LittleEndian(input), old(pos), old(fed)) || NoHeader(LittleEndian(input), old(pos))
    {
      hide LittleEndian, Shr, Pow2, Field, RunsAt, RunsAfter, Lens, Kraft, CodeLengthsAt;
      hide Table.HasIntervals, Table.HasSymbols, Table.HasFast, NoHeader, NoRunFits;
      hide Hlit, Hdist, Hclen, RunsStart, IsLengths, FedFields, FedRuns, RunsSupplied, HasBits;
      hide HeaderStarved, SomeHeader;
      ghost var s, p, f := LittleEndian(input), pos, fed;
      StarvedOrNone(|input|, s, p, f);
      var hlit, hdist, codelength_sizes := ReadHeaderSizes();
      var ntot := hlit + hdist;
      h := Header(codelength_sizes, []);
      var z_codelength;
      ok, z_codelength := BuildCodeLengthTable(codelength_sizes);
      if !ok {
        BadCodeLengthCode(s, p, codelength_sizes);
        return;
      }
      var lencodes := new nat[455];
      ghost var runs;
      ok, runs := ReadLengths(z_codelength, codelength_sizes, lencodes, ntot);
      h := Header(codelength_sizes, runs);
      if !ok {
        if NoRunFits(h.cl, s, RunsAfter(h.cl, RunsStart(s, p), runs), |Lens(runs)|, ntot) {
          StuckHeader(s, p, h.cl, runs);
        } else {
          ItIsStarved(|input|, s, p, f, h.cl, runs);
        }
        return;
      }
      LensBound(h.cl, s, RunsStart(s, p), runs);
      SplitLengths(Lens(runs), hlit);
      assert Lens(runs)[..hlit] == lencodes[..hlit] && Lens(runs)[hlit..] == lencodes[hlit..ntot];
      ok := BuildTables(lencodes[..hlit], lencodes[hlit..ntot]);
      if !ok {
        BadLengths(s, p, h);
      } else {
        ItIsHeader(|input|, s, p, f, h);
      }
    }

    // ---- blocks ----

    ghost predicate StoredRefused(p: nat, n: nat, limit: nat, cause: Cause)
      requires expandable ==> limit > 0
    {
      var s := LittleEndian(input);
      var len := Field(s, AlignByte(p), 16);
      match cause
      case InputUsedUp => StoredHeader(s, p) && AlignByte(p) / 8 + 4 + len > |input|
      case BadCode => !StoredHeader(s, p)
      case NoRoom => StoredHeader(s, p) && !Fits(limit, n + len)
      case FarDistance => false
    }

    ghost predicate HeaderRefused(p: nat, fed: nat, cause: Cause) {
      match cause
      case InputUsedUp => HeaderStarved(|input|, LittleEndian(input), p, fed)
      case BadCode => NoHeader(LittleEndian(input), p)
      case _ => false
    }

    /** Decoding stops for this cause after fewer than `rounds` items. */
    ghost predicate BodyRefused(c: Codes, p: nat, fed: nat, n: nat, limit: nat, rounds: nat, cause: Cause)
      requires expandable ==> limit > 0
    {
      exists items :: |items| < rounds && RefusedAfter(c, p, fed, n, limit, items, cause)
    }

    /** The block at bit `p` is refused for this cause, when `fed` bytes have been taken in and `n` bytes
        written to a buffer of `limit` bytes, within `rounds` turns. */
    ghost predicate BlockRefused(p: nat, fed: nat, n: nat, limit: nat, rounds: nat, cause: Cause)
      requires expandable ==> limit > 0
    {
      var s, f := LittleEndian(input), FedTag(p, fed);
      match Field(s, p + 1, 2)
      case 0 => StoredRefused(p + 3, n, limit, cause)
      case 1 => BodyRefused(FixedCodes(), p + 3, f, n, limit, rounds, cause)
      case 2 =>
        || HeaderRefused(p + 3, f, cause)
        || exists h ::
          && HeaderAt(s, p + 3, h) && HeaderSupplied(|input|, s, p + 3, f, h)
          && BodyRefused(HeaderCodes(s, p + 3, h), RunsAfter(h.cl, RunsStart(s, p + 3), h.runs),
                         FedHeader(s, p + 3, f, h), n, limit, rounds, cause)
      case _ => cause == BadCode
    }

    /** The block at bit `p` is compressed and still going on after `rounds` items. */
    ghost predicate LongBlock(p: nat, fed: nat, n: nat, limit: nat, rounds: nat)
      requires expandable ==> limit > 0
    {
      var s, f := LittleEndian(input), FedTag(p, fed);
      match Field(s, p + 1, 2)
      case 1 => GoesOn(FixedCodes(), p + 3, f, n, limit, rounds)
      case 2 =>
        exists h ::
          && HeaderAt(s, p + 3, h) && HeaderSupplied(|input|, s, p + 3, f, h)
          && GoesOn(HeaderCodes(s, p + 3, h), RunsAfter(h.cl, RunsStart(s, p + 3), h.runs),
                    FedHeader(s, p + 3, f, h), n, limit, rounds)
      case _ => false
    }

    /** `b` is the block at bit `p`, with the input, the output and the room that it takes. */
    ghost predicate Readable(p: nat, fed: nat, n: nat, limit: nat, rounds: nat, b: Block)
      requires expandable ==> limit > 0
    {
      && BlockAt(LittleEndian(input), p, b) && BlockSupplied(|input|, LittleEndian(input), p, fed, b)
      && BlockApplies(n, b) && Fits(limit, n + BlockLen(b))
      && (b.Stored? || |b.items| < rounds)
    }

    ghost predicate BlockOutcome(r: Outcome, p: nat, fed: nat, n: nat, limit: nat, rounds: nat, b: Block, cause: Cause)
      requires expandable ==> limit > 0
    {
      match r
      case Done => Readable(p, fed, n, limit, rounds, b)
      case Failed => BlockRefused(p, fed, n, limit, rounds, cause)
      case OutOfRounds => LongBlock(p, fed, n, limit, rounds)
    }

    lemma BodyRefusalMeans(c: Codes, p: nat, fed: nat, n: nat, limit: nat, rounds: nat, cause: Cause)
      requires (expandable ==> limit > 0) && c.Valid() && BodyRefused(c, p, fed, n, limit, rounds, cause)
      ensures forall other :: BodyAt(c, LittleEndian(input), p, other) ==>
        && (cause == InputUsedUp ==> !BodySupplied(|input|, c, p, fed, other))
        && (cause == NoRoom ==> !Fits(limit, n + TotalLen(other)))
      ensures cause in {BadCode, FarDistance} ==> exists items :: Broken(c, LittleEndian(input), p, n, items)
    {
      hide LittleEndian, ItemAt, ItemsAt, After, NoItem, Fits, TotalLen, Starved, BodySupplied, BodyAt, Kraft;
      var items :| |items| < rounds && RefusedAfter(c, p, fed, n, limit, items, cause);
      if cause in {BadCode, FarDistance} {
        assert Broken(c, LittleEndian(input), p, n, items);
      }
      hide RefusedAfter, Broken, Applies;
      forall other | BodyAt(c, LittleEndian(input), p, other)
        ensures (cause == InputUsedUp ==> !BodySupplied(|input|, c, p, fed, other))
        ensures (cause == NoRoom ==> !Fits(limit, n + TotalLen(other)))
      {
        RefusedBody(c, p, fed, n, limit, items, cause, other);
      }
    }

    /** What each cause says about all blocks that could be meant. */
    lemma BlockRefusalMeans(p: nat, fed: nat, n: nat, limit: nat, rounds: nat, cause: Cause)
      requires (expandable ==> limit > 0) && BlockRefused(p, fed, n, limit, rounds, cause)
      ensures cause == InputUsedUp ==> forall b :: BlockAt(LittleEndian(input), p, b) ==>
        !BlockSupplied(|input|, LittleEndian(input), p, fed, b)
      ensures cause == NoRoom ==> forall b :: BlockAt(LittleEndian(input), p, b) ==> !Fits(limit, n + BlockLen(b))
      ensures cause in {BadCode, FarDistance} ==> Hopeless(LittleEndian(input), p, n)
    {
      hide LittleEndian, BodyAt, BodySupplied, Fits, TotalLen, HeaderAt, HeaderSupplied, HeaderCodes, RunsAfter;
      hide FixedCodes, BodyRefused, StoredHeader, Field, RunsStart, FedHeader, FedTag, Broken, NoHeader, HeaderStarved;
      hide Codes.Valid, Hopeless;
      var s, f := LittleEndian(input), FedTag(p, fed);
      var kind := Field(s, p + 1, 2);
      if kind == 0 {
        if cause == BadCode { HopelessHeader(s, p, n); }
      } else if kind == 1 {
        FixedRefusalMeans(p, fed, n, limit, rounds, cause);
      } else if kind == 2 {
        DynamicRefusalMeans(p, fed, n, limit, rounds, cause);
      } else {
        HopelessHeader(s, p, n);
      }
    }

    lemma FixedRefusalMeans(p: nat, fed: nat, n: nat, limit: nat, rounds: nat, cause: Cause)
      requires (expandable ==> limit > 0) && Field(LittleEndian(input), p + 1, 2) == 1
      requires BodyRefused(FixedCodes(), p + 3, FedTag(p, fed), n, limit, rounds, cause)
      ensures cause == InputUsedUp ==> forall b :: BlockAt(LittleEndian(input), p, b) ==>
        !BlockSupplied(|input|, LittleEndian(input), p, fed, b)
      ensures cause == NoRoom ==> forall b :: BlockAt(LittleEndian(input), p, b) ==> !Fits(limit, n + BlockLen(b))
      ensures cause in {BadCode, FarDistance} ==> Hopeless(LittleEndian(input), p, n)
    {
      hide LittleEndian, BodyAt, BodySupplied, Fits, TotalLen, HeaderAt, HeaderSupplied, StoredAt;
      hide FixedCodes, BodyRefused, Field, FedTag, Broken, Codes.Valid, Hopeless;
      var s := LittleEndian(input);
      FixedCodesValid();
      BodyRefusalMeans(FixedCodes(), p + 3, FedTag(p, fed), n, limit, rounds, cause);
      if cause in {BadCode, FarDistance} {
        var items :| Broken(FixedCodes(), s, p + 3, n, items);
        HopelessFixed(s, p, n, items);
      }
    }

    lemma DynamicRefusalMeans(p: nat, fed: nat, n: nat, limit: nat, rounds: nat, cause: Cause)
      requires (expandable ==> limit > 0) && Field(LittleEndian(input), p + 1, 2) == 2
      requires BlockRefused(p, fed, n, limit, rounds, cause)
      ensures cause == InputUsedUp ==> forall b :: BlockAt(LittleEndian(input), p, b) ==>
        !BlockSupplied(|input|, LittleEndian(input), p, fed, b)
      ensures cause == NoRoom ==> forall b :: BlockAt(LittleEndian(input), p, b) ==> !Fits(limit, n + BlockLen(b))
      ensures cause in {BadCode, FarDistance} ==> Hopeless(LittleEndian(input), p, n)
    {
      hide LittleEndian, BodyAt, BodySupplied, Fits, TotalLen, HeaderSupplied, LengthsAt, HeaderCodes, RunsAfter;
      hide StoredAt, FixedCodes, BodyRefused, Field, RunsStart, FedHeader, FedTag, Broken, NoHeader, HeaderStarved;
      hide Codes.Valid, Hopeless;
      var s, f := LittleEndian(input), FedTag(p, fed);
      if HeaderRefused(p + 3, f, cause) {
        if cause == BadCode {
          HopelessHeader(s, p, n);
        } else {
          StarvedOrNone(|input|, s, p + 3, f);
        }
      } else {
        var h :| && HeaderAt(s, p + 3, h) && HeaderSupplied(|input|, s, p + 3, f, h)
                 && BodyRefused(HeaderCodes(s, p + 3, h), RunsAfter(h.cl, RunsStart(s, p + 3), h.runs),
                                FedHeader(s, p + 3, f, h), n, limit, rounds, cause);
        var c, q := HeaderCodes(s, p + 3, h), RunsAfter(h.cl, RunsStart(s, p + 3), h.runs);
        BodyRefusalMeans(c, q, FedHeader(s, p + 3, f, h), n, limit, rounds, cause);
        if cause in {BadCode, FarDistance} {
          var items :| Broken(c, s, q, n, items);
          HopelessDynamic(s, p, n, h, items);
        }
        OnlyHeader(s, p + 3, h);
      }
    }

    /** A block that is long, or refused, is not readable. */
    lemma OneBlockOutcome(r: Outcome, p: nat, fed: nat, n: nat, limit: nat, rounds: nat, b: Block, cause: Cause)
      requires (expandable ==> limit > 0) && BlockOutcome(r, p, fed, n, limit, rounds, b, cause)
      ensures r == Done <==> exists d :: Readable(p, fed, n, limit, rounds, d)
    {
      hide LittleEndian, BlockAt, BlockSupplied, BlockApplies, Fits, BlockLen, Hopeless, BlockRefused, LongBlock;
      forall d ensures Readable(p, fed, n, limit, rounds, d) ==> r == Done {
        if r == Failed {
          RefusedIsNotReadable(p, fed, n, limit, rounds, cause, rounds, d);
        } else if r == OutOfRounds && Readable(p, fed, n, limit, rounds, d) {
          LongIsNotReadable(p, fed, n, limit, rounds, d);
        }
      }
    }

    /** However many turns there are. */
    lemma RefusedIsNotReadable(p: nat, fed: nat, n: nat, limit: nat, rounds: nat, cause: Cause, turns: nat, d: Block)
      requires (expandable ==> limit > 0) && BlockRefused(p, fed, n, limit, rounds, cause)
      ensures !Readable(p, fed, n, limit, turns, d)
    {
      hide LittleEndian, BlockAt, BlockSupplied, BlockApplies, Fits, BlockLen, Hopeless, BlockRefused;
      if Readable(p, fed, n, limit, turns, d) {
        BlockRefusalMeans(p, fed, n, limit, rounds, cause);
        HopelessBlock(LittleEndian(input), p, n, d);
      }
    }

    /** Nor is a block both long and refused. */
    lemma LongIsNotRefused(p: nat, fed: nat, n: nat, limit: nat, rounds: nat, cause: Cause)
      requires (expandable ==> limit > 0) && LongBlock(p, fed, n, limit, rounds)
      ensures !BlockRefused(p, fed, n, limit, rounds, cause)
    {
      hide LittleEndian, HeaderSupplied, LengthsAt, HeaderCodes, RunsAfter, FixedCodes, Field, RunsStart, FedHeader;
      hide FedTag, Codes.Valid, RefusedAfter, GoesOn, HeaderStarved, BodyRefused;
      var s, f := LittleEndian(input), FedTag(p, fed);
      if BlockRefused(p, fed, n, limit, rounds, cause) {
        if Field(s, p + 1, 2) == 1 {
          FixedCodesValid();
          GoingBodyIsNotRefused(FixedCodes(), p + 3, f, n, limit, rounds, cause);
        } else {
          StarvedOrNone(|input|, s, p + 3, f);
          var h :| && HeaderAt(s, p + 3, h) && HeaderSupplied(|input|, s, p + 3, f, h)
                   && GoesOn(HeaderCodes(s, p + 3, h), RunsAfter(h.cl, RunsStart(s, p + 3), h.runs),
                             FedHeader(s, p + 3, f, h), n, limit, rounds);
          ItIsHeader(|input|, s, p + 3, f, h);
          OnlyHeader(s, p + 3, h);
          GoingBodyIsNotRefused(HeaderCodes(s, p + 3, h), RunsAfter(h.cl, RunsStart(s, p + 3), h.runs),
                                FedHeader(s, p + 3, f, h), n, limit, rounds, cause);
        }
      }
    }

    lemma GoingBodyIsNotRefused(c: Codes, p: nat, fed: nat, n: nat, limit: nat, rounds: nat, cause: Cause)
      requires (expandable ==> limit > 0) && c.Valid() && GoesOn(c, p, fed, n, limit, rounds)
      ensures !BodyRefused(c, p, fed, n, limit, rounds, cause)
    {
      hide RefusedAfter, Going, Kraft;
      var all :| |all| == rounds && Going(c, p, fed, n, limit, all);
      forall items | |items| < rounds ensures !RefusedAfter(c, p, fed, n, limit, items, cause) {
        FailsWithin(c, p, fed, n, limit, all, items, cause);
      }
    }

    lemma LongIsNotReadable(p: nat, fed: nat, n: nat, limit: nat, rounds: nat, d: Block)
      requires (expandable ==> limit > 0) && LongBlock(p, fed, n, limit, rounds)
      ensures !Readable(p, fed, n, limit, rounds, d)
    {
      hide LittleEndian, Fits, TotalLen, HeaderSupplied, LengthsAt, HeaderCodes, RunsAfter, StoredAt, StoredHeader;
      hide FixedCodes, Field, RunsStart, FedHeader, FedTag, Codes.Valid, Going, RefusedAfter, ItemsAt, ItemsSupplied;
      hide FedItems, After, AppendsAll, SymbolAt, HasBits;
      var s, f := LittleEndian(input), FedTag(p, fed);
      if Readable(p, fed, n, limit, rounds, d) {
        if d.Fixed? {
          FixedCodesValid();
          BodyIsDecodable(FixedCodes(), p + 3, f, n, limit, d.items);
          var items :| |items| == rounds && Going(FixedCodes(), p + 3, f, n, limit, items);
          DecodableIsDecoded(FixedCodes(), p + 3, f, n, limit, d.items, items);
        } else if d.Dynamic? {
          var c, q := HeaderCodes(s, p + 3, d.header), RunsAfter(d.header.cl, RunsStart(s, p + 3), d.header.runs);
          var g := FedHeader(s, p + 3, f, d.header);
          BodyIsDecodable(c, q, g, n, limit, d.items);
          OnlyHeader(s, p + 3, d.header);
          assert GoesOn(c, q, g, n, limit, rounds);
          var items :| |items| == rounds && Going(c, q, g, n, limit, items);
          DecodableIsDecoded(c, q, g, n, limit, d.items, items);
        }
      }
    }

    lemma BodyIsDecodable(c: Codes, p: nat, fed: nat, n: nat, limit: nat, items: seq<Item>)
      requires (expandable ==> limit > 0)
      requires BodyAt(c, LittleEndian(input), p, items) && BodySupplied(|input|, c, p, fed, items)
      requires Applies(n, items) && Fits(limit, n + TotalLen(items))
      ensures Decodable(c, p, fed, n, limit, items)
    {
      hide LittleEndian, ItemsAt, ItemsSupplied, FedItems, After, SymbolAt, HasBits, TotalLen, Fits, AppendsAll;
    }

    /** The three kinds of block, after the three header bits at `p`, before which `f` bytes were taken in. */
    method ParseStored(ghost p: nat, ghost f: nat, ghost rounds: nat)
      returns (r: Outcome, ghost b: Block, ghost cause: Cause)
      requires Valid() && pos == p + 3 && Field(LittleEndian(input), p + 1, 2) == 0
      modifies this, out
      ensures Valid() && (out == old(out) || fresh(out))
      ensures BlockOutcome(r, p, f, old(zout), old(out.Length), rounds, b, cause)
      ensures r == Done ==>
        && pos == BlockEnd(LittleEndian(input), p, b) && fed == FedBlock(LittleEndian(input), p, f, b)
        && BlockAppends(old(Output()), b, Output()) && out.Length == Grown(old(out.Length), zout)
        && p < 8 * |input|
      ensures r != OutOfRounds
    {
      hide LittleEndian, Shr, Pow2, Field, StoredHeader, StoredAt, BlockAt, BlockEnd, BlockAppends, BitsOk, Fits;
      ghost var s, n, limit := LittleEndian(input), zout, out.Length;
      ghost var out0 := Output();
      var ok, data := ParseUncompressedBlock();
      b, cause := Stored(data), NoRoom;
      if ok {
        StoredBlock(s, p, data);
        ItBlockApplies(out0, b, Output());
        StoredSupplied(|input|, s, p, f, data);
        return Done, b, cause;
      }
      if !StoredHeader(s, p + 3) {
        cause := BadCode;
      } else if AlignByte(p + 3) / 8 + 4 + Field(s, AlignByte(p + 3), 16) > |input| {
        cause := InputUsedUp;
      }
      r := Failed;
    }

    method ParseFixed(ghost p: nat, ghost f: nat, rounds: nat) returns (r: Outcome, ghost b: Block, ghost cause: Cause)
      requires Valid() && TablesOk() && pos == p + 3 && Field(LittleEndian(input), p + 1, 2) == 1
      requires fed == FedTag(p, f)
      modifies this, out, z_length.Repr(), z_distance.Repr()
      ensures Valid() && TablesOk() && (out == old(out) || fresh(out))
      ensures BlockOutcome(r, p, f, old(zout), old(out.Length), rounds, b, cause)
      ensures r == Done ==>
        && pos == BlockEnd(LittleEndian(input), p, b) && fed == FedBlock(LittleEndian(input), p, f, b)
        && BlockAppends(old(Output()), b, Output()) && out.Length == Grown(old(out.Length), zout)
      ensures r == OutOfRounds ==> rounds <= old(Potential(zout))
    {
      hide LittleEndian, Shr, Pow2, Field, BlockAt, BlockEnd, BlockAppends, BodyAt, AppendsAll, BitsOk, GoesOn;
      hide Table.HasIntervals, Table.HasSymbols, Table.HasFast, FixedCodes, Kraft, After, ItemsAt, Weight, SymbolAt;
      hide Fits, Readable, RefusedAfter, FedTag, Decodable, EndsWithin, BodySupplied, FedBody;
      ghost var n, limit, out0 := zout, out.Length, Output();
      FixedCodesValid();
      FixedAdvance();
      var c := FixedCodes();
      var ok := BuildTables(c.lit, c.dist);
      assert ok;
      ghost var items;
      r, items, cause := ParseHuffmanBlock(z_length, z_distance, c, rounds);
      b := Fixed(items);
      if r == Done {
        DecodedFixed(p, f, n, limit, rounds, items);
        FixedBlock(LittleEndian(input), p, items);
      }
    }

    method ParseDynamic(ghost p: nat, ghost f: nat, rounds: nat)
      returns (r: Outcome, ghost b: Block, ghost cause: Cause)
      requires Valid() && TablesOk() && pos == p + 3 && Field(LittleEndian(input), p + 1, 2) == 2
      requires fed == FedTag(p, f)
      modifies this, out, z_length.Repr(), z_distance.Repr()
      ensures Valid() && TablesOk() && (out == old(out) || fresh(out))
      ensures BlockOutcome(r, p, f, old(zout), old(out.Length), rounds, b, cause)
      ensures r == Done ==>
        && pos == BlockEnd(LittleEndian(input), p, b) && fed == FedBlock(LittleEndian(input), p, f, b)
        && BlockAppends(old(Output()), b, Output()) && out.Length == Grown(old(out.Length), zout)
    {
      hide LittleEndian, Shr, Pow2, Field, BlockAt, BlockEnd, BlockAppends, BodyAt, AppendsAll, BitsOk, GoesOn;
      hide Table.HasIntervals, Table.HasSymbols, Table.HasFast, HeaderCodes, RunsStart, RunsAfter, Kraft, FedTag;
      hide After, ItemsAt, LengthsAt, NoHeader, Codes.Valid, CodeLengthsAt, Doubled, CanGrow, Fits, Readable;
      hide RefusedAfter, Decodable, EndsWithin, BodySupplied, FedBody, FedHeader, HeaderSupplied, HeaderStarved;
      ghost var s, n, limit, out0 := LittleEndian(input), zout, out.Length, Output();
      var ok, h := ComputeHuffmanCodes();
      if !ok {
        b, cause := Stored([]), if NoHeader(s, p + 3) then BadCode else InputUsedUp;
        return Failed, b, cause;
      }
      ghost var c, q, g, items := HeaderCodes(s, p + 3, h), pos, fed, [];
      r, items, cause := ParseHuffmanBlock(z_length, z_distance, c, rounds);
      b := Dynamic(h, items);
      if r == Done {
        DecodedDynamic(p, f, n, limit, rounds, h, items);
        DynamicBlock(s, p, h, items);
      }
    }

    lemma DecodedFixed(p: nat, f: nat, n: nat, limit: nat, rounds: nat, items: seq<Item>)
      requires (expandable ==> limit > 0) && Field(LittleEndian(input), p + 1, 2) == 1 && |items| < rounds
      requires Decodable(FixedCodes(), p + 3, FedTag(p, f), n, limit, items)
      ensures Readable(p, f, n, limit, rounds, Fixed(items)) && BodyAt(FixedCodes(), LittleEndian(input), p + 3, items)
    {
      hide LittleEndian, ItemsAt, ItemsSupplied, FixedCodes, Fits, FedTag, Field, AppendsAll, FedItems, After, SymbolAt;
      hide HasBits, TotalLen;
      var out: seq<byte>, r :| |out| == n && AppendsAll(out, items, r);
      assert BlockAppends(out, Fixed(items), r);
    }

    lemma DecodedDynamic(p: nat, f: nat, n: nat, limit: nat, rounds: nat, h: Header, items: seq<Item>)
      requires (expandable ==> limit > 0) && Field(LittleEndian(input), p + 1, 2) == 2 && |items| < rounds
      requires HeaderAt(LittleEndian(input), p + 3, h)
      requires HeaderSupplied(|input|, LittleEndian(input), p + 3, FedTag(p, f), h)
      requires Decodable(HeaderCodes(LittleEndian(input), p + 3, h),
                         RunsAfter(h.cl, RunsStart(LittleEndian(input), p + 3), h.runs),
                         FedHeader(LittleEndian(input), p + 3, FedTag(p, f), h), n, limit, items)
      ensures Readable(p, f, n, limit, rounds, Dynamic(h, items))
      ensures BodyAt(HeaderCodes(LittleEndian(input), p + 3, h), LittleEndian(input),
                     RunsAfter(h.cl, RunsStart(LittleEndian(input), p + 3), h.runs), items)
    {
      hide LittleEndian, ItemsAt, ItemsSupplied, HeaderCodes, Fits, FedTag, Field, AppendsAll, FedItems, After;
      hide SymbolAt, HasBits, TotalLen, HeaderAt, HeaderSupplied, RunsAfter, RunsStart, FedHeader;
      var out: seq<byte>, r :| |out| == n && AppendsAll(out, items, r);
      assert BlockAppends(out, Dynamic(h, items), r);
    }

    /** Decode one block, from its three header bits to its end. */
    method ParseBlock(rounds: nat)
      returns (r: Outcome, final: bool, ghost b: Block, ghost cause: Cause)
      requires Valid() && TablesOk()
      modifies this, out, z_length.Repr(), z_distance.Repr()
      ensures Valid() && TablesOk() && (out == old(out) || fresh(out))
      ensures final <==> IsFinal(LittleEndian(input), old(pos))
      ensures BlockOutcome(r, old(pos), old(fed), old(zout), old(out.Length), rounds, b, cause)
      ensures r == Done <==> exists d :: Readable(old(pos), old(fed), old(zout), old(out.Length), rounds, d)
      ensures r == Done ==>
        && pos == BlockEnd(LittleEndian(input), old(pos), b)
        && fed == FedBlock(LittleEndian(input), old(pos), old(fed), b)
        && BlockAppends(old(Output()), b, Output()) && out.Length == Grown(old(out.Length), zout)
        && old(pos) < 8 * |input|
    {
      hide LittleEndian, Shr, Pow2, BlockAt, BlockEnd, BlockAppends, BitsOk, Doubled, Readable, LongBlock, Need;
      hide FedBlock;
      ghost var s, p, f, n, limit := LittleEndian(input), pos, fed, zout, out.Length;
      BlockKind(input, p);
      b, cause := Stored([]), BadCode;
      var bit := Zreceive(1);
      final := bit == 1;
      var kind := Zreceive(2);
      assert fed == FedTag(p, f);
      hide Field, FedTag;
      if kind == 0 {
        r, b, cause := ParseStored(p, f, rounds);
      } else if kind == 3 {
        r := Failed;
        assert BlockRefused(p, f, n, limit, rounds, cause);
      } else {
        hide BlockRefused;
        if kind == 1 {
          r, b, cause := ParseFixed(p, f, rounds);
        } else {
          r, b, cause := ParseDynamic(p, f, rounds);
        }
      }
      hide BlockRefused;
      OneBlockOutcome(r, p, f, n, limit, rounds, b, cause);
    }

    /** RFC 1950's two header bytes: the check sum, no preset dictionary, and method 8; and the
        input must go on after them. */
    method ParseZlibHeader() returns (ok: bool)
      requires zbuffer <= |input|
      modifies this`zbuffer
      ensures ok <==>
        && old(zbuffer) + 2 < |input|
        && (input[old(zbuffer)] as nat * 256 + input[old(zbuffer) + 1]) % 31 == 0
        && !Bit(input[old(zbuffer) + 1], 5)
        && input[old(zbuffer)] % 16 == 8
      ensures ok ==> zbuffer == old(zbuffer) + 2
      ensures zbuffer <= |input|
    {
      var cmf := Zget8();
      Pow2Values();
      AndMask(cmf, 4);
      LowFour(cmf);
      var cm := And(cmf, 15);
      var flg := Zget8();
      if Zeof() {
        return false;
      }
      if (cmf as nat * 256 + flg) % 31 != 0 {
        return false;
      }
      AndPower(flg, 5);
      assert Pow2(5) == 32;
      if And(flg, 32) != 0 {
        return false;
      }
      ok := cm == 8;
    }

    /** The blocks are a complete stream from `start` on, the input holds the bits asked for and the buffer
        of `limit` bytes has room for the output; no block takes as many as `rounds` turns. */
    ghost predicate Decodes(blocks: seq<Block>, trace: seq<Point>, start: Point, fed: nat, limit: nat, rounds: nat)
      requires expandable ==> limit > 0
    {
      && StreamAt(LittleEndian(input), blocks, trace) && trace[0] == start
      && Within(blocks, trace, fed, limit, rounds)
    }

    /** The same of blocks that need not be complete. */
    ghost predicate Within(blocks: seq<Block>, trace: seq<Point>, fed: nat, limit: nat, rounds: nat)
      requires expandable ==> limit > 0
    {
      && BlocksAt(LittleEndian(input), blocks, trace)
      && StreamSupplied(|input|, LittleEndian(input), blocks, trace, fed)
      && Fits(limit, |trace[|blocks|].out|)
      && Short(blocks, rounds)
    }

    /** Readable blocks, none of them final. */
    ghost predicate Reached(blocks: seq<Block>, trace: seq<Point>, fed: nat, limit: nat, rounds: nat)
      requires expandable ==> limit > 0
    {
      && Within(blocks, trace, fed, limit, rounds) && NoneFinal(LittleEndian(input), blocks, trace)
      && GrownOk(limit, |trace[|blocks|].out|)
    }

    /** They lead to a block that is refused. */
    ghost predicate Stopped(blocks: seq<Block>, trace: seq<Point>, fed: nat, limit: nat, rounds: nat, cause: Cause)
      requires expandable ==> limit > 0
    {
      && Reached(blocks, trace, fed, limit, rounds)
      && BlockRefused(trace[|blocks|].pos, FedBefore(LittleEndian(input), blocks, trace, fed, |blocks|),
                      |trace[|blocks|].out|, Grown(limit, |trace[|blocks|].out|), rounds, cause)
    }

    /** They lead to one that takes too many turns. */
    ghost predicate TooLong(blocks: seq<Block>, trace: seq<Point>, fed: nat, limit: nat, rounds: nat)
      requires expandable ==> limit > 0
    {
      && Reached(blocks, trace, fed, limit, rounds)
      && LongBlock(trace[|blocks|].pos, FedBefore(LittleEndian(input), blocks, trace, fed, |blocks|),
                   |trace[|blocks|].out|, Grown(limit, |trace[|blocks|].out|), rounds)
    }

    ghost predicate GrownOk(limit: nat, n: nat) {
      expandable ==> Grown(limit, n) > 0
    }

    ghost predicate StreamOutcome(r: Outcome, blocks: seq<Block>, trace: seq<Point>, start: Point, fed: nat,
                                  limit: nat, rounds: nat, cause: Cause)
      requires expandable ==> limit > 0
    {
      && |trace| > 0 && trace[0] == start
      && match r
         case Done => Decodes(blocks, trace, start, fed, limit, rounds)
         case Failed => Stopped(blocks, trace, fed, limit, rounds, cause)
         case OutOfRounds => TooLong(blocks, trace, fed, limit, rounds)
    }

    /** Whether any stream decodes from `start`. */
    ghost predicate SomeStream(start: Point, fed: nat, limit: nat, rounds: nat)
      requires expandable ==> limit > 0
    {
      exists b, t :: Decodes(b, t, start, fed, limit, rounds)
    }

    /** Whether some block from `start` on takes too many turns. */
    ghost predicate RunsOut(start: Point, fed: nat, limit: nat, rounds: nat)
      requires expandable ==> limit > 0
    {
      exists b, t :: |t| > 0 && t[0] == start && TooLong(b, t, fed, limit, rounds)
    }

    /** Decode a whole stream.  It succeeds exactly when the header is right and the input is a DEFLATE stream
        that holds the bits asked for and that the buffer has room for; the output is then what the stream
        stands for.  It runs out of turns exactly when readable blocks lead to one that takes too many. */
    method ParseZlib(parse_header: bool, rounds: nat)
      returns (r: Outcome, ghost blocks: seq<Block>, ghost trace: seq<Point>, ghost cause: Cause)
      requires OutOk() && TablesOk() && zbuffer == 0
      modifies this, out, z_length.Repr(), z_distance.Repr()
      ensures parse_header && !ZlibHeader(input) ==> r == Failed && trace == []
      ensures !(parse_header && !ZlibHeader(input)) ==>
        var at := if parse_header then 2 else 0;
        var start := Point(8 * at, old(Output()));
        && OutOk()
        && StreamOutcome(r, blocks, trace, start, at, old(out.Length), rounds, cause)
        && (r == Done <==> SomeStream(start, at, old(out.Length), rounds))
        && (r == OutOfRounds <==> RunsOut(start, at, old(out.Length), rounds))
        && (r == Done ==> trace[|blocks|] == Point(pos, Output()))
    {
      hide StreamOutcome, SomeStream, RunsOut;
      blocks, trace, cause := [], [], BadCode;
      if parse_header {
        var ok := ParseZlibHeader();
        if !ok {
          return Failed, blocks, trace, cause;
        }
      }
      StartBits();
      r, blocks, trace, cause := ParseBlocks(rounds);
    }

    /** An empty bit buffer in front of byte `zbuffer`. */
    method StartBits()
      requires zbuffer <= |input|
      modifies this`num_bits, this`code_buffer, this`pos, this`fed
      ensures BitsOk() && pos == 8 * zbuffer && fed == zbuffer
    {
      hide LittleEndian, Shr;
      num_bits, code_buffer := 0, 0;
      pos, fed := 8 * zbuffer, zbuffer;
      ShrBytes(input, zbuffer);
      EmptyBuffer(0, 0, LittleEndian(input[zbuffer..]));
    }

    /** The loop over the blocks. */
    method ParseBlocks(rounds: nat)
      returns (r: Outcome, ghost blocks: seq<Block>, ghost trace: seq<Point>, ghost cause: Cause)
      requires Valid() && TablesOk()
      modifies this, out, z_length.Repr(), z_distance.Repr()
      ensures Valid()
      ensures StreamOutcome(r, blocks, trace, Point(old(pos), old(Output())), old(fed), old(out.Length), rounds, cause)
      ensures r == Done <==> SomeStream(Point(old(pos), old(Output())), old(fed), old(out.Length), rounds)
      ensures r == OutOfRounds <==> RunsOut(Point(old(pos), old(Output())), old(fed), old(out.Length), rounds)
      ensures r == Done ==> trace[|blocks|] == Point(pos, Output())
    {
      hide LittleEndian, Shr, Pow2, BlockAt, BlockEnd, BlockAppends, IsFinal, Doubled, BitsOk, Grown, Fits;
      hide BlockRefused, LongBlock, Readable, Within, FedBlock, FedBefore, StreamOutcome, SomeStream;
      hide RunsOut;
      ghost var s, start, f0, limit := LittleEndian(input), Point(pos, Output()), fed, out.Length;
      blocks, trace, cause := [], [start], BadCode;
      StartWithin(start, f0, limit, rounds);
      var final := false;
      while !final
        invariant Valid() && TablesOk() && (out == old(out) || fresh(out))
        invariant BlocksAt(s, blocks, trace) && Within(blocks, trace, f0, limit, rounds)
        invariant fed == FedBefore(s, blocks, trace, f0, |blocks|) && out.Length == Grown(limit, zout)
        invariant trace[0] == start && trace[|blocks|] == Point(pos, Output())
        invariant forall i :: 0 <= i < |blocks| ==> (IsFinal(s, trace[i].pos) <==> final && i == |blocks| - 1)
        invariant final ==> blocks != []
        decreases !final, if pos < 8 * |input| then 8 * |input| - pos else 0
      {
        ghost var p, f, n := pos, fed, zout;
        ghost var b;
        r, final, b, cause := ParseBlock(rounds);
        if r != Done {
          BlockStops(r, blocks, trace, start, f0, limit, rounds, b, cause);
          OneStreamOutcome(r, blocks, trace, start, f0, limit, rounds, cause);
          return r, blocks, trace, cause;
        }
        ExtendWithin(blocks, trace, f0, limit, rounds, b, Point(pos, Output()));
        blocks, trace := blocks + [b], trace + [Point(pos, Output())];
      }
      r := Done;
      StreamDone(blocks, trace, start, f0, limit, rounds, cause);
      OneStreamOutcome(r, blocks, trace, start, f0, limit, rounds, cause);
    }

    lemma StartWithin(start: Point, fed: nat, limit: nat, rounds: nat)
      requires (expandable ==> limit > 0) && |start.out| <= limit
      ensures Within([], [start], fed, limit, rounds) && Grown(limit, |start.out|) == limit
      ensures FedBefore(LittleEndian(input), [], [start], fed, 0) == fed
    {
      hide LittleEndian;
    }

    lemma StreamDone(blocks: seq<Block>, trace: seq<Point>, start: Point, fed: nat, limit: nat, rounds: nat,
                     cause: Cause)
      requires (expandable ==> limit > 0) && Within(blocks, trace, fed, limit, rounds) && blocks != []
      requires trace[0] == start
      requires forall i :: 0 <= i < |blocks| ==> (IsFinal(LittleEndian(input), trace[i].pos) <==> i == |blocks| - 1)
      ensures StreamOutcome(Done, blocks, trace, start, fed, limit, rounds, cause)
    {
      hide LittleEndian, IsFinal, BlockAt, BlockEnd, BlockAppends, Fits, StreamSupplied;
    }

    /** The block after readable ones is refused or too long. */
    lemma BlockStops(r: Outcome, blocks: seq<Block>, trace: seq<Point>, start: Point, fed: nat, limit: nat,
                     rounds: nat, b: Block, cause: Cause)
      requires (expandable ==> limit > 0) && Within(blocks, trace, fed, limit, rounds) && r != Done
      requires trace[0] == start && NoneFinal(LittleEndian(input), blocks, trace)
      requires GrownOk(limit, |trace[|blocks|].out|)
      requires BlockOutcome(r, trace[|blocks|].pos, FedBefore(LittleEndian(input), blocks, trace, fed, |blocks|),
                            |trace[|blocks|].out|, Grown(limit, |trace[|blocks|].out|), rounds, b, cause)
      ensures StreamOutcome(r, blocks, trace, start, fed, limit, rounds, cause)
    {
      hide LittleEndian, BlockAt, BlockEnd, BlockAppends, StreamSupplied, Fits, Grown, FedBefore, IsFinal;
      hide BlockRefused, LongBlock;
    }

    lemma ExtendWithin(blocks: seq<Block>, trace: seq<Point>, fed: nat, limit: nat, rounds: nat, b: Block, next: Point)
      requires (expandable ==> limit > 0) && Within(blocks, trace, fed, limit, rounds)
      requires GrownOk(limit, |trace[|blocks|].out|)
      requires Readable(trace[|blocks|].pos, FedBefore(LittleEndian(input), blocks, trace, fed, |blocks|),
                        |trace[|blocks|].out|, Grown(limit, |trace[|blocks|].out|), rounds, b)
      requires next.pos == BlockEnd(LittleEndian(input), trace[|blocks|].pos, b)
      requires BlockAppends(trace[|blocks|].out, b, next.out)
      ensures var blocks', trace' := blocks + [b], trace + [next];
        && BlocksAt(LittleEndian(input), blocks', trace') && Within(blocks', trace', fed, limit, rounds)
        && FedBefore(LittleEndian(input), blocks', trace', fed, |blocks'|)
           == FedBlock(LittleEndian(input), trace[|blocks|].pos,
                       FedBefore(LittleEndian(input), blocks, trace, fed, |blocks|), b)
      ensures Grown(Grown(limit, |trace[|blocks|].out|), |next.out|) == Grown(limit, |next.out|)
      ensures next.pos > trace[|blocks|].pos
    {
      hide LittleEndian, BlockAt, BlockEnd, BlockAppends, BlockSupplied, FedBlock, Fits, Grown, BlockApplies, BlockLen;
      var s, n := LittleEndian(input), |blocks|;
      var blocks', trace' := blocks + [b], trace + [next];
      BlockForward(s, trace[n].pos, b);
      BlockAppendsLen(trace[n].out, b, next.out);
      GrownStep(limit, |trace[n].out|, |next.out|);
      ExtendBlocks(s, blocks, trace, b, next);
      hide BlocksAt, StreamSupplied, FedBefore;
      ExtendStreamSupply(|input|, s, blocks, trace, fed, b, next);
    }

    /** Whatever stops the decoder keeps every stream from the same start from decoding, and the answers exclude
        each other. */
    lemma OneStreamOutcome(r: Outcome, blocks: seq<Block>, trace: seq<Point>, start: Point, fed: nat, limit: nat,
                           rounds: nat, cause: Cause)
      requires (expandable ==> limit > 0) && StreamOutcome(r, blocks, trace, start, fed, limit, rounds, cause)
      ensures r == Done <==> SomeStream(start, fed, limit, rounds)
      ensures r == OutOfRounds <==> RunsOut(start, fed, limit, rounds)
    {
      hide Decodes, Stopped, TooLong;
      if SomeStream(start, fed, limit, rounds) {
        var b, t :| Decodes(b, t, start, fed, limit, rounds);
        HasStart(b, t, start, fed, limit, rounds);
        OneAnswer(r, blocks, trace, cause, Done, b, t, cause, start, fed, limit, rounds);
      }
      if RunsOut(start, fed, limit, rounds) {
        var b, t :| |t| > 0 && t[0] == start && TooLong(b, t, fed, limit, rounds);
        OneAnswer(r, blocks, trace, cause, OutOfRounds, b, t, cause, start, fed, limit, rounds);
      }
    }

    lemma HasStart(b: seq<Block>, t: seq<Point>, start: Point, fed: nat, limit: nat, rounds: nat)
      requires (expandable ==> limit > 0) && Decodes(b, t, start, fed, limit, rounds)
      ensures |t| > 0 && t[0] == start
    {
    }

    lemma OneAnswer(r: Outcome, blocks: seq<Block>, trace: seq<Point>, cause: Cause,
                    q: Outcome, b: seq<Block>, t: seq<Point>, why: Cause,
                    start: Point, fed: nat, limit: nat, rounds: nat)
      requires (expandable ==> limit > 0)
      requires StreamOutcome(r, blocks, trace, start, fed, limit, rounds, cause)
      requires StreamOutcome(q, b, t, start, fed, limit, rounds, why)
      ensures r == q
    {
      hide LittleEndian, BlockAt, BlockEnd, BlockAppends, IsFinal, FedBefore, Fits, Grown, FedBlock;
      hide BlockRefused, LongBlock, StreamSupplied, Short;
      var s := LittleEndian(input);
      if r == Done && q != Done {
        FinalIsLater(s, b, t, blocks, trace);
        StopIsNotPassed(q, b, t, why, blocks, trace, fed, limit, rounds);
      } else if r != Done && q == Done {
        FinalIsLater(s, blocks, trace, b, t);
        StopIsNotPassed(r, blocks, trace, cause, b, t, fed, limit, rounds);
      } else if r != q && |blocks| < |b| {
        StopIsNotPassed(r, blocks, trace, cause, b, t, fed, limit, rounds);
      } else if r != q && |b| < |blocks| {
        StopIsNotPassed(q, b, t, why, blocks, trace, fed, limit, rounds);
      } else if r != q {
        var k, n := |b|, |t[|b|].out|;
        BlocksAgree(s, blocks, trace, b, t, k);
        FedAgree(s, blocks, trace, b, t, fed, k);
        LongIsNotRefused(t[k].pos, FedBefore(s, b, t, fed, k), n, Grown(limit, n), rounds,
                         if r == Failed then cause else why);
      }
    }

    /** Blocks that are read do not go on where the decoder stops. */
    lemma StopIsNotPassed(r: Outcome, blocks: seq<Block>, trace: seq<Point>, cause: Cause, b: seq<Block>, t: seq<Point>,
                          fed: nat, limit: nat, rounds: nat)
      requires (expandable ==> limit > 0) && |trace| > 0 && r != Done
      requires StreamOutcome(r, blocks, trace, trace[0], fed, limit, rounds, cause)
      requires |t| > 0 && trace[0] == t[0] && Within(b, t, fed, limit, rounds)
      ensures |blocks| >= |b|
    {
      hide LittleEndian, BlockAt, BlockEnd, BlockAppends, IsFinal, FedBefore, Fits, Grown, Within, Readable;
      hide BlockRefused, LongBlock;
      if |blocks| < |b| {
        WithinBlocks(blocks, trace, fed, limit, rounds);
        WithinReadable(blocks, trace, fed, limit, rounds, b, t);
        var n := |trace[|blocks|].out|;
        var p, f := trace[|blocks|].pos, FedBefore(LittleEndian(input), blocks, trace, fed, |blocks|);
        assert BlockOutcome(r, p, f, n, Grown(limit, n), rounds, b[|blocks|], cause);
        OneBlockOutcome(r, p, f, n, Grown(limit, n), rounds, b[|blocks|], cause);
      }
    }

    lemma WithinBlocks(blocks: seq<Block>, trace: seq<Point>, fed: nat, limit: nat, rounds: nat)
      requires (expandable ==> limit > 0) && Within(blocks, trace, fed, limit, rounds)
      ensures BlocksAt(LittleEndian(input), blocks, trace)
    {
    }

    /** The next of the blocks that are read, behind a beginning of them. */
    lemma WithinReadable(blocks: seq<Block>, trace: seq<Point>, fed: nat, limit: nat, rounds: nat,
                         b: seq<Block>, t: seq<Point>)
      requires (expandable ==> limit > 0) && BlocksAt(LittleEndian(input), blocks, trace)
      requires Within(b, t, fed, limit, rounds) && |blocks| < |b| && trace[0] == t[0]
      requires GrownOk(limit, |trace[|blocks|].out|)
      ensures Readable(trace[|blocks|].pos, FedBefore(LittleEndian(input), blocks, trace, fed, |blocks|),
                       |trace[|blocks|].out|, Grown(limit, |trace[|blocks|].out|), rounds, b[|blocks|])
    {
      hide LittleEndian, BlockAt, BlockEnd, BlockAppends, BlockSupplied, FedBlock, Fits, Grown, BlockLen;
      var s, k := LittleEndian(input), |blocks|;
      BlocksAgree(s, blocks, trace, b, t, k);
      FedAgree(s, blocks, trace, b, t, fed, k);
      BlockFits(b, t, limit, k);
      hide FedBefore;
      assert BlockAppends(t[k].out, b[k], t[k + 1].out);
    }

    /** The output behind block `k` has room in the buffer as it is before that block. */
    lemma BlockFits(b: seq<Block>, t: seq<Point>, limit: nat, k: nat)
      requires (expandable ==> limit > 0) && BlocksAt(LittleEndian(input), b, t) && k < |b|
      requires Fits(limit, |t[|b|].out|) && GrownOk(limit, |t[k].out|)
      ensures Fits(Grown(limit, |t[k].out|), |t[k].out| + BlockLen(b[k]))
    {
      hide LittleEndian, BlockAt, BlockEnd, BlockAppends, Fits, Grown, BlockLen;
      BlockAppendsLen(t[k].out, b[k], t[k + 1].out);
      OutGrows(LittleEndian(input), b, t, k + 1);
      FitsMonotone(limit, |t[k + 1].out|, |t[|b|].out|);
      FitsMonotone(limit, |t[k].out|, |t[k + 1].out|);
      GrownStep(limit, |t[k].out|, |t[k + 1].out|);
    }

    /** A refusal for any reason but lack of input or memory is right: there is no stream. */
    lemma RefusalIsRight(blocks: seq<Block>, trace: seq<Point>, fed: nat, limit: nat, rounds: nat, cause: Cause)
      requires (expandable ==> limit > 0) && Stopped(blocks, trace, fed, limit, rounds, cause)
      requires cause in {BadCode, FarDistance}
      ensures forall b, t :: |t| > 0 && t[0] == trace[0] ==> !StreamAt(LittleEndian(input), b, t)
    {
      hide LittleEndian, Hopeless, BlockAt, BlockEnd, BlockAppends, StreamAt, BlockRefused, Fits, Grown, FedBefore;
      var n := |trace[|blocks|].out|;
      BlockRefusalMeans(trace[|blocks|].pos, FedBefore(LittleEndian(input), blocks, trace, fed, |blocks|), n,
                        Grown(limit, n), rounds, cause);
      forall b, t: seq<Point> | |t| > 0 && t[0] == trace[0] ensures !StreamAt(LittleEndian(input), b, t) {
        HopelessStream(LittleEndian(input), blocks, trace, b, t);
      }
    }

    /** A refusal for lack of input means that a stream there, if any, ends at most 14 bits before the input
        does, or beyond it. */
    lemma InputRefusalIsRight(blocks: seq<Block>, trace: seq<Point>, fed: nat, limit: nat, rounds: nat,
                              b: seq<Block>, t: seq<Point>)
      requires (expandable ==> limit > 0) && Stopped(blocks, trace, fed, limit, rounds, InputUsedUp)
      requires StreamAt(LittleEndian(input), b, t) && t[0] == trace[0]
      ensures t[|b|].pos + 15 > 8 * |input|
    {
      hide LittleEndian, BlockAt, BlockEnd, BlockAppends, BlockRefused, Fits, Grown, FedBlock, BlockSupplied, IsFinal;
      var s, k, n := LittleEndian(input), |blocks|, |trace[|blocks|].out|;
      BlockRefusalMeans(trace[k].pos, FedBefore(s, blocks, trace, fed, k), n, Grown(limit, n), rounds, InputUsedUp);
      if t[|b|].pos + 15 <= 8 * |input| {
        PaddedStream(|input|, s, b, t, fed);
        FinalIsLater(s, blocks, trace, b, t);
        BlocksAgree(s, blocks, trace, b, t, k);
        FedAgree(s, blocks, trace, b, t, fed, k);
      }
    }

    /** A refusal for lack of room means that the output of a stream there, if any, has no room. */
    lemma RoomRefusalIsRight(blocks: seq<Block>, trace: seq<Point>, fed: nat, limit: nat, rounds: nat,
                             b: seq<Block>, t: seq<Point>)
      requires (expandable ==> limit > 0) && Stopped(blocks, trace, fed, limit, rounds, NoRoom)
      requires StreamAt(LittleEndian(input), b, t) && t[0] == trace[0]
      ensures !Fits(limit, |t[|b|].out|)
    {
      hide LittleEndian, BlockAt, BlockEnd, BlockAppends, BlockRefused, Fits, Grown, FedBlock, IsFinal, BlockLen;
      var s, k, n := LittleEndian(input), |blocks|, |trace[|blocks|].out|;
      BlockRefusalMeans(trace[k].pos, FedBefore(s, blocks, trace, fed, k), n, Grown(limit, n), rounds, NoRoom);
      hide FedBefore;
      FinalIsLater(s, blocks, trace, b, t);
      BlocksAgree(s, blocks, trace, b, t, k);
      if Fits(limit, |t[|b|].out|) {
        BlockFits(b, t, limit, k);
      }
    }

    /** Every complete stream with fifteen bits of input behind it decodes, given room and turns enough. */
    lemma CompleteStreamDecodes(blocks: seq<Block>, trace: seq<Point>, fed: nat, limit: nat, rounds: nat)
      requires (expandable ==> limit > 0) && StreamAt(LittleEndian(input), blocks, trace)
      requires trace[|blocks|].pos + 15 <= 8 * |input|
      requires Fits(limit, |trace[|blocks|].out|) && Short(blocks, rounds)
      ensures SomeStream(trace[0], fed, limit, rounds)
    {
      hide LittleEndian, BlockAt, BlockEnd, BlockAppends, IsFinal, Fits, StreamSupplied;
      PaddedStream(|input|, LittleEndian(input), blocks, trace, fed);
      assert Decodes(blocks, trace, trace[0], fed, limit, rounds);
    }
  }

  /** No block takes as many as `rounds` items. */
  ghost predicate Short(blocks: seq<Block>, rounds: nat) {
    forall k :: 0 <= k < |blocks| ==> blocks[k].Stored? || |blocks[k].items| < rounds
  }

  ghost predicate BlockApplies(n: nat, b: Block) {
    exists out: seq<byte>, r :: |out| == n && BlockAppends(out, b, r)
  }

  lemma StoredSupplied(size: nat, s: nat, p: nat, fed: nat, data: seq<byte>)
    requires StoredAt(s, p + 3, data) && Field(s, p + 1, 2) == 0
    ensures |data| == Field(s, AlignByte(p + 3), 16)
    ensures BlockSupplied(size, s, p, fed, Stored(data)) <==> AlignByte(p + 3) / 8 + 4 + |data| <= size
    ensures FedBlock(s, p, fed, Stored(data)) == BlockEnd(s, p, Stored(data)) / 8
    ensures BlockLen(Stored(data)) == |data|
  {
    hide Field;
  }

  lemma ItBlockApplies(out: seq<byte>, b: Block, r: seq<byte>)
    requires BlockAppends(out, b, r)
    ensures BlockApplies(|out|, b)
  {
  }

  lemma HopelessBlock(s: nat, pos: nat, n: nat, b: Block)
    requires BlockAt(s, pos, b) && BlockApplies(n, b)
    ensures !Hopeless(s, pos, n)
  {
    hide BlockAt, BlockAppends;
  }

  lemma OnlyHeader(s: nat, pos: nat, h: Header)
    requires HeaderAt(s, pos, h)
    ensures forall g :: HeaderAt(s, pos, g) ==> g == h
  {
    hide LengthsAt, Codes.Valid, HeaderCodes;
    forall g | HeaderAt(s, pos, g) ensures g == h {
      HeaderUnique(s, pos, g, h);
    }
  }

  lemma ItIsStarved(size: nat, s: nat, pos: nat, fed: nat, cl: seq<nat>, runs: seq<Run>)
    requires CodeLengthsAt(s, pos + 14, Hclen(s, pos), cl) && RunsAt(cl, s, RunsStart(s, pos), runs)
    requires |Lens(runs)| < Hlit(s, pos) + Hdist(s, pos)
    requires !HasBits(size, FedRuns(cl, RunsStart(s, pos), FedFields(s, pos, fed), runs),
                      RunsAfter(cl, RunsStart(s, pos), runs))
    ensures HeaderStarved(size, s, pos, fed)
  {
    hide CodeLengthsAt, RunsAt, Lens, HasBits, FedRuns, FedFields, RunsAfter, RunsStart, Hlit, Hdist, Hclen;
  }

  /** Valid code lengths start at `pos` and have their bits. */
  ghost predicate SomeHeader(size: nat, s: nat, pos: nat, fed: nat) {
    exists h :: HeaderAt(s, pos, h) && HeaderSupplied(size, s, pos, fed, h)
  }

  lemma ItIsHeader(size: nat, s: nat, pos: nat, fed: nat, h: Header)
    requires HeaderAt(s, pos, h) && HeaderSupplied(size, s, pos, fed, h)
    ensures SomeHeader(size, s, pos, fed)
  {
    hide HeaderAt, HeaderSupplied;
  }

  lemma StarvedOrNone(size: nat, s: nat, pos: nat, fed: nat)
    ensures HeaderStarved(size, s, pos, fed) ==>
      forall h :: HeaderAt(s, pos, h) ==> !HeaderSupplied(size, s, pos, fed, h)
    ensures HeaderStarved(size, s, pos, fed) || NoHeader(s, pos) ==> !SomeHeader(size, s, pos, fed)
  {
    hide LengthsAt, CodeLengthsAt, RunsAt, Lens, HasBits, FedRuns, FedFields, RunsAfter, RunsStart, HeaderSupplied;
    hide Hlit, Hdist, Hclen, Codes.Valid, HeaderCodes;
    if HeaderStarved(size, s, pos, fed) {
      var cl, runs :|
        && CodeLengthsAt(s, pos + 14, Hclen(s, pos), cl) && RunsAt(cl, s, RunsStart(s, pos), runs)
        && |Lens(runs)| < Hlit(s, pos) + Hdist(s, pos)
        && !HasBits(size, FedRuns(cl, RunsStart(s, pos), FedFields(s, pos, fed), runs),
                    RunsAfter(cl, RunsStart(s, pos), runs));
      forall h | HeaderAt(s, pos, h) ensures !HeaderSupplied(size, s, pos, fed, h) {
        StarvedHeader(size, s, pos, fed, cl, runs, h);
      }
    }
  }

  /** Readable blocks, none of them marked final. */
  ghost predicate NoneFinal(s: nat, blocks: seq<Block>, trace: seq<Point>) {
    BlocksAt(s, blocks, trace) && forall i :: 0 <= i < |blocks| ==> !IsFinal(s, trace[i].pos)
  }

  /** A complete stream from the same start goes on after them. */
  lemma FinalIsLater(s: nat, a: seq<Block>, ta: seq<Point>, b: seq<Block>, tb: seq<Point>)
    requires NoneFinal(s, a, ta) && StreamAt(s, b, tb) && ta[0] == tb[0]
    ensures |a| < |b|
  {
    hide BlockAt, BlockEnd, BlockAppends, IsFinal;
    if |b| <= |a| {
      var last := |b| - 1;
      BlocksAgree(s, a, ta, b, tb, last);
    }
  }

  lemma ExtendBlocks(s: nat, blocks: seq<Block>, trace: seq<Point>, b: Block, next: Point)
    requires BlocksAt(s, blocks, trace) && BlockAt(s, trace[|blocks|].pos, b)
    requires next.pos == BlockEnd(s, trace[|blocks|].pos, b) && BlockAppends(trace[|blocks|].out, b, next.out)
    ensures BlocksAt(s, blocks + [b], trace + [next])
  {
    hide BlockAt, BlockEnd, BlockAppends;
  }

  /** Blocks that agree take in the same bytes. */
  lemma {:induction false} FedAgree(s: nat, a: seq<Block>, ta: seq<Point>, b: seq<Block>, tb: seq<Point>, fed: nat,
                                    k: nat)
    requires BlocksAt(s, a, ta) && BlocksAt(s, b, tb) && k <= |a| && k <= |b|
    requires ta[0].pos == tb[0].pos && |ta[0].out| == |tb[0].out|
    ensures FedBefore(s, a, ta, fed, k) == FedBefore(s, b, tb, fed, k)
  {
    hide BlockAt, BlockEnd, BlockAppends, FedBlock;
    if k > 0 {
      FedAgree(s, a, ta, b, tb, fed, k - 1);
      BlocksAgree(s, a, ta, b, tb, k - 1);
      BlocksAgree(s, a, ta, b, tb, k);
      assert a[..k][k - 1] == b[..k][k - 1];
    }
  }

  lemma ExtendStreamSupply(size: nat, s: nat, blocks: seq<Block>, trace: seq<Point>, fed: nat, b: Block, next: Point)
    requires BlocksAt(s, blocks, trace) && BlocksAt(s, blocks + [b], trace + [next])
    requires StreamSupplied(size, s, blocks, trace, fed)
    requires BlockSupplied(size, s, trace[|blocks|].pos, FedBefore(s, blocks, trace, fed, |blocks|), b)
    ensures StreamSupplied(size, s, blocks + [b], trace + [next], fed)
    ensures BlockAt(s, trace[|blocks|].pos, b)
    ensures FedBefore(s, blocks + [b], trace + [next], fed, |blocks| + 1)
      == FedBlock(s, trace[|blocks|].pos, FedBefore(s, blocks, trace, fed, |blocks|), b)
  {
    var blocks', trace' := blocks + [b], trace + [next];
    assert trace'[|blocks|] == trace[|blocks|] && blocks'[|blocks|] == b;
    assert BlockAt(s, trace'[|blocks|].pos, blocks'[|blocks|]);
    hide BlockAt, BlockEnd, BlockAppends, BlockSupplied, FedBlock, BlocksAt;
    forall k | 0 <= k <= |blocks|
      ensures FedBefore(s, blocks', trace', fed, k) == FedBefore(s, blocks, trace, fed, k)
    {
      SameStart(trace, next);
      FedAgree(s, blocks, trace, blocks', trace', fed, k);
    }
    forall k | 0 <= k < |blocks'|
      ensures BlockSupplied(size, s, trace'[k].pos, FedBefore(s, blocks', trace', fed, k), blocks'[k])
    {
      if k < |blocks| {
        assert BlockSupplied(size, s, trace[k].pos, FedBefore(s, blocks, trace, fed, k), blocks[k]);
      }
    }
  }

  lemma SameStart(trace: seq<Point>, next: Point)
    requires |trace| > 0
    ensures (trace + [next])[0] == trace[0]
  {
  }

  lemma {:induction false} OutGrows(s: nat, blocks: seq<Block>, trace: seq<Point>, k: nat)
    requires BlocksAt(s, blocks, trace) && k <= |blocks|
    ensures |trace[k].out| <= |trace[|blocks|].out|
    decreases |blocks| - k
  {
    hide BlockAt, BlockEnd, BlockAppends;
    if k < |blocks| {
      OutGrows(s, blocks, trace, k + 1);
      BlockAppendsLen(trace[k].out, blocks[k], trace[k + 1].out);
    }
  }

  /** The zlib header of RFC 1950 section 2.2, followed by at least one byte. */
  predicate ZlibHeader(bytes: seq<byte>) {
    && 2 < |bytes|
    && (bytes[0] as nat * 256 + bytes[1]) % 31 == 0
    && !Bit(bytes[1], 5)
    && bytes[0] % 16 == 8
  }

  lemma LowFour(x: nat)
    ensures Low(x, 4) == x % 16
  {
    SmallLow(x / 2);
  }

  lemma {:induction false} AfterForward(c: Codes, pos: nat, items: seq<Item>)
    ensures After(c, pos, items) >= pos
  {
    if items != [] {
      AfterForward(c, pos, items[..|items| - 1]);
    }
  }

  lemma {:induction false} RunsForward(cl: seq<nat>, pos: nat, runs: seq<Run>)
    ensures RunsAfter(cl, pos, runs) >= pos
  {
    if runs != [] {
      RunsForward(cl, pos, runs[..|runs| - 1]);
    }
  }

  /** A block takes at least its three header bits. */
  lemma BlockForward(s: nat, p: nat, b: Block)
    requires BlockAt(s, p, b)
    ensures BlockEnd(s, p, b) > p
  {
    hide ItemsAt, Matches, LengthsAt, FixedCodes, Field, After, RunsAfter, HeaderCodes;
    match b {
      case Stored(_) =>
      case Fixed(items) =>
        AfterForward(FixedCodes(), p + 3, items);
      case Dynamic(h, items) =>
        RunsForward(h.cl, RunsStart(s, p + 3), h.runs);
        AfterForward(HeaderCodes(s, p + 3, h), RunsAfter(h.cl, RunsStart(s, p + 3), h.runs), items);
    }
  }

  /** Past the end of the input every block is a stored one. */
  lemma BlockKind(bytes: seq<byte>, p: nat)
    ensures Field(LittleEndian(bytes), p + 1, 2) <= 3
    ensures p >= 8 * |bytes| ==> Field(LittleEndian(bytes), p + 1, 2) == 0
  {
    hide LittleEndian, Shr;
    assert Pow2(2) == 4;
    if p >= 8 * |bytes| {
      ZerosPastEnd(bytes, p + 1);
    }
  }

  lemma HeaderFields(s: nat, p: nat)
    ensures 257 <= Hlit(s, p) <= 288 && 1 <= Hdist(s, p) <= 32 && 4 <= Hclen(s, p) <= 19
    ensures Hlit(s, p) == 257 + Field(s, p, 5) && Hdist(s, p) == 1 + Field(s, p + 5, 5)
    ensures Hclen(s, p) == 4 + Field(s, p + 10, 4)
  {
    hide Shr, Low;
    Pow2Values();
    assert Pow2(5) == 32;
  }

  lemma SplitLengths(lens: seq<nat>, n: nat)
    requires IsLengths(lens) && n <= |lens|
    ensures IsLengths(lens[..n]) && IsLengths(lens[n..])
  {
  }

  lemma CodeLengthsSize(s: nat, p: nat, hclen: nat, cl: seq<nat>)
    requires CodeLengthsAt(s, p, hclen, cl)
    ensures |cl| == 19
  {
  }

  lemma BadCodeLengthCode(s: nat, p: nat, cl: seq<nat>)
    requires CodeLengthsAt(s, p + 14, Hclen(s, p), cl) && !Kraft(cl)
    ensures NoHeader(s, p)
  {
    hide CodeLengthsAt, Kraft, RunsAt, Lens;
    forall h ensures !HeaderAt(s, p, h) {
      if LengthsAt(s, p, h) {
        CodeLengthsUnique(s, p + 14, Hclen(s, p), cl, h.cl);
      }
    }
  }

  lemma StuckHeader(s: nat, p: nat, cl: seq<nat>, runs: seq<Run>)
    requires CodeLengthsAt(s, p + 14, Hclen(s, p), cl) && RunsAt(cl, s, RunsStart(s, p), runs)
    requires |Lens(runs)| < Hlit(s, p) + Hdist(s, p)
    requires NoRunFits(cl, s, RunsAfter(cl, RunsStart(s, p), runs), |Lens(runs)|, Hlit(s, p) + Hdist(s, p))
    ensures NoHeader(s, p)
  {
    hide CodeLengthsAt, Kraft, RunsAt, Lens, RunsAfter, RunAt, Field, AddRun;
    forall h ensures !HeaderAt(s, p, h) {
      if LengthsAt(s, p, h) {
        HeaderContinues(s, p, cl, runs, h);
      }
    }
  }

  lemma BadLengths(s: nat, p: nat, h: Header)
    requires LengthsAt(s, p, h) && !HeaderCodes(s, p, h).Valid()
    ensures NoHeader(s, p)
  {
    hide CodeLengthsAt, Kraft, RunsAt, Lens, Field;
    forall g ensures !HeaderAt(s, p, g) {
      if LengthsAt(s, p, g) {
        HeaderUnique(s, p, g, h);
      }
    }
  }

  lemma SmallLow(x: nat)
    ensures Low(x, 3) == x % 8
  {
    var h, q := x / 2, x / 2 / 2;
    assert Low(q, 1) == q % 2;
    assert Low(h, 2) == h % 2 + 2 * Low(q, 1);
    assert Low(x, 3) == x % 2 + 2 * Low(h, 2);
    hide Low;
    assert x == x % 2 + 2 * (h % 2) + 4 * (q % 2) + 8 * (q / 2);
  }

  lemma ToBoundary(pos: nat, nb: nat, fed: nat)
    requires pos + nb == 8 * fed
    ensures AlignByte(pos) == pos + nb % 8
  {
  }

  lemma WholeBytes(pos: nat, nb: nat, fed: nat)
    requires pos % 8 == 0 && pos + nb == 8 * fed
    ensures nb % 8 == 0
  {
  }

  lemma EmptyBuffer(c: nat, b: byte, rest: nat)
    requires c < Pow2(0)
    ensures c == 0 && c + Pow2(0) * (b + 256 * rest) == b + 256 * rest
    ensures Low(b + 256 * rest, 8) == b && Shr(b + 256 * rest, 8) == rest
    ensures c + Pow2(0) * rest == rest
  {
    Pow2Values();
    SplitUnique(b, rest, 8);
  }

  lemma FieldIsLow(s: nat, pos: nat)
    ensures Field(s, pos, 8) == Low(Shr(s, pos), 8)
  {
  }

  lemma TwoBytes(s: nat, p: nat)
    ensures Field(s, p, 16) == Field(s, p + 8, 8) * 256 + Field(s, p, 8)
    ensures Field(s, p, 16) < 0x1_0000
  {
    Pow2Values();
    LowSplit(Shr(s, p), 8, 8);
    ShrAdd(s, p, 8);
  }

  /** If the last header byte lies past the input it is zero, and the block is longer than the input. */
  lemma PaddedHeader(bytes: seq<byte>, p: nat, len: nat, nlen: nat)
    requires p % 8 == 0 && p / 8 + 4 > |bytes|
    requires nlen == Field(LittleEndian(bytes), p + 24, 8) * 256 + Field(LittleEndian(bytes), p + 16, 8)
    requires nlen == 0xFFFF - len
    ensures len > 0
  {
    hide LittleEndian, Shr;
    ZerosPastEnd(bytes, p + 24);
    Pow2Values();
  }

  lemma ShrZero(x: nat)
    ensures Shr(x, 0) == x
  {
  }

  lemma FirstByte(bytes: seq<byte>)
    requires bytes != []
    ensures Low(LittleEndian(bytes), 8) == bytes[0]
    ensures Shr(LittleEndian(bytes), 8) == LittleEndian(bytes[1..])
  {
    EmptyBuffer(0, bytes[0], LittleEndian(bytes[1..]));
  }

  /** Skipping whole bytes of the stream. */
  lemma {:induction false} ShrBytes(bytes: seq<byte>, k: nat)
    requires k <= |bytes|
    ensures Shr(LittleEndian(bytes), 8 * k) == LittleEndian(bytes[k..])
  {
    hide Shr, LittleEndian;
    assert Shr(LittleEndian(bytes), 0) == LittleEndian(bytes) by {
      ShrZero(LittleEndian(bytes));
    }
    if k == 0 {
      assert bytes[0..] == bytes;
    } else {
      FirstByte(bytes);
      ShrAdd(LittleEndian(bytes), 8, 8 * (k - 1));
      ShrBytes(bytes[1..], k - 1);
      assert bytes[1..][k - 1..] == bytes[k..];
    }
  }

  lemma ByteField(bytes: seq<byte>, k: nat)
    requires k < |bytes|
    ensures Field(LittleEndian(bytes), 8 * k, 8) == bytes[k]
  {
    ShrBytes(bytes, k);
    FirstByte(bytes[k..]);
  }

  /** With an empty bit buffer, `len` input bytes are the next `8 * len` bits of the stream. */
  lemma StoredBytes(bytes: seq<byte>, pos: nat, z: nat, len: nat, fed: nat)
    requires z + len <= |bytes| && pos == 8 * fed && (fed == z || (fed > z && z == |bytes|))
    requires Shr(LittleEndian(bytes), pos) == LittleEndian(bytes[z..])
    ensures forall i :: 0 <= i < len ==> bytes[z + i] == Field(LittleEndian(bytes), pos + 8 * i, 8)
    ensures Shr(LittleEndian(bytes), pos + 8 * len) == LittleEndian(bytes[z + len..])
  {
    hide LittleEndian, Shr, Field;
    if len > 0 {
      forall i | 0 <= i < len ensures bytes[z + i] == Field(LittleEndian(bytes), pos + 8 * i, 8) {
        ByteField(bytes, z + i);
      }
      ShrBytes(bytes, z + len);
    }
  }

  /** After `n` code lengths, the stream at `p` has no run that leads to at most `ntot`. */
  ghost predicate NoRunFits(cl: seq<nat>, s: nat, p: nat, n: nat, ntot: nat) {
    forall run :: RunAt(cl, s, p, run) ==> (run.Again? && n == 0) || n + |AddRun([], run)| > ntot
  }

  function AloneFill(r: Run): nat {
    if r.Len? then r.len else 0
  }

  method Memset(a: array<nat>, n: nat, fill: nat, count: nat)
    requires n + count <= a.Length
    modifies a
    ensures a[..n + count] == old(a[..n]) + seq(count, _ => fill)
  {
    for i := 0 to count
      invariant a[..n] == old(a[..n])
      invariant forall k :: n <= k < n + i ==> a[k] == fill
    {
      a[n + i] := fill;
    }
    assert a[..n + count] == a[..n] + a[n..n + count];
  }

  lemma RunFromFields(cl: seq<nat>, s: nat, p: nat, run: Run)
    requires |cl| == 19 && SymbolAt(cl, s, p, RunSymbol(run))
    requires match run
             case Len(l) => l < 16
             case Again(n) => n == 3 + Field(s, p + cl[16], 2)
             case Zeros(sym, n) =>
               || (sym == 17 && n == 3 + Field(s, p + cl[17], 3))
               || (sym == 18 && n == 11 + Field(s, p + cl[18], 7))
    ensures RunAt(cl, s, p, run)
    ensures RunBits(cl, run) == cl[RunSymbol(run)] + match run
                                                    case Len(_) => 0
                                                    case Again(_) => 2
                                                    case Zeros(sym, _) => if sym == 17 then 3 else 7
    ensures RunOk(cl, run)
  {
    hide Field, Matches;
  }

  lemma NoRuns(cl: seq<nat>, s: nat, p: nat)
    ensures RunsAt(cl, s, p, []) && RunsAfter(cl, p, []) == p && Lens([]) == []
  {
  }

  lemma FedSizesStep(pos: nat, fed: nat, n: nat)
    ensures FedSizes(pos, fed, 0) == fed
    ensures FedSizes(pos, fed, n + 1) == Need(FedSizes(pos, fed, n), pos + 3 * n, 3)
  {
  }

  lemma NeedNothing(fed: nat, pos: nat)
    requires pos <= 8 * fed
    ensures Need(fed, pos, 0) == fed
  {
  }

  lemma NoRunsFed(size: nat, cl: seq<nat>, p: nat, fed: nat)
    ensures RunsSupplied(size, cl, p, fed, []) && FedRuns(cl, p, fed, []) == fed
  {
  }

  lemma ExtendRunSupply(size: nat, cl: seq<nat>, p: nat, fed: nat, runs: seq<Run>, r: Run)
    requires RunsSupplied(size, cl, p, fed, runs) && HasBits(size, FedRuns(cl, p, fed, runs), RunsAfter(cl, p, runs))
    ensures RunsSupplied(size, cl, p, fed, runs + [r])
    ensures FedRuns(cl, p, fed, runs + [r]) == FedRun(cl, RunsAfter(cl, p, runs), FedRuns(cl, p, fed, runs), r)
  {
    hide HasBits, FedRun, RunsAfter;
    var all := runs + [r];
    assert all[..|all| - 1] == runs && all[|all| - 1] == r;
  }

  lemma NoRunHere(cl: seq<nat>, s: nat, p: nat, empty: bool)
    requires IsLengths(cl) && Kraft(cl) && |cl| == 19
    requires NoSymbol(cl, s, p) || (empty && SymbolAt(cl, s, p, 16))
    ensures forall run :: RunAt(cl, s, p, run) ==> run.Again? && empty
  {
    hide Matches, Field, Kraft;
    forall run | RunAt(cl, s, p, run) ensures run.Again? && empty {
      assert SymbolAt(cl, s, p, RunSymbol(run));
      PrefixFree(cl, RunSymbol(run), 16, Shr(s, p));
    }
  }

  lemma OnlyRunHere(cl: seq<nat>, s: nat, p: nat, run: Run)
    requires IsLengths(cl) && Kraft(cl) && RunAt(cl, s, p, run)
    ensures forall r :: RunAt(cl, s, p, r) ==> r == run
  {
    hide RunAt, Kraft;
    forall r | RunAt(cl, s, p, r) ensures r == run {
      RunUnique(cl, s, p, r, run);
    }
  }

  /** The symbol that zero bits decode to, if any, is not one of the reserved symbols 286 and 287,
      whose copies have no length. */
  ghost predicate ZerosAdvance(c: Codes) {
    forall sym: nat :: SymbolAt(c.lit, 0, 0, sym) ==> sym < 286
  }

  /** So a block with the fixed codes always comes to an end. */
  lemma FixedAdvance()
    ensures ZerosAdvance(FixedCodes())
  {
    hide SymbolAt, FixedCodes;
    forall sym: nat | SymbolAt(FixedCodes().lit, 0, 0, sym) ensures sym < 286 {
      FixedZerosEnd(sym);
    }
  }

  ghost function Weight(room: nat, bits: nat, pos: nat): nat {
    room * (bits + 1) + (if pos < bits then bits - pos else 0)
  }

  lemma WeightDrops(room: nat, room': nat, bits: nat, pos: nat, pos': nat)
    requires room' <= room && pos < pos' && (room' < room || pos < bits)
    ensures Weight(room', bits, pos') + 1 <= Weight(room, bits, pos)
  {
    if room' < room {
      MulMonotone(room' + 1, room, bits + 1);
    }
  }

  lemma {:induction false} LittleEndianBound(bytes: seq<byte>)
    ensures LittleEndian(bytes) < Pow2(8 * |bytes|)
  {
    if bytes != [] {
      LittleEndianBound(bytes[1..]);
      Pow2Values();
      Pow2Add(8, 8 * (|bytes| - 1));
    }
  }

  /** Past the end of the input the stream is all zeros. */
  lemma ZerosPastEnd(bytes: seq<byte>, pos: nat)
    requires pos >= 8 * |bytes|
    ensures Shr(LittleEndian(bytes), pos) == 0
  {
    hide LittleEndian, Shr;
    LittleEndianBound(bytes);
    Pow2Monotone(8 * |bytes|, pos);
    ShrBound(LittleEndian(bytes), pos, 0);
  }

  /** Each turn consumes a bit, and appends a byte unless the bits are real input. */
  lemma TurnAdvances(c: Codes, bytes: seq<byte>, pos: nat, it: Item)
    requires ZerosAdvance(c) && ItemAt(c, LittleEndian(bytes), pos, it)
    ensures ItemBits(c, it) >= 1
    ensures ItemLen(it) >= 1 || pos < 8 * |bytes|
  {
    hide LittleEndian, Shr, Bit, Code, Field;
    if pos >= 8 * |bytes| {
      ZerosPastEnd(bytes, pos);
      assert Shr(0, 0) == 0;
      var sym := if it.Literal? then it.b else it.lsym;
      assert SymbolAt(c.lit, 0, 0, sym);
      if it.Copy? {
        LengthPositive(sym - 257);
      }
    }
  }

  lemma LengthPositive(i: nat)
    requires i < 29
    ensures LengthBase(i) >= 3
  {
  }

  lemma NothingYet(c: Codes, s: nat, p: nat, out0: seq<byte>)
    ensures ItemsAt(c, s, p, []) && After(c, p, []) == p
    ensures AppendsAll(out0, [], out0) && TotalLen([]) == 0
  {
  }

  lemma NothingFed(size: nat, c: Codes, p: nat, fed: nat)
    ensures ItemsSupplied(size, c, p, fed, []) && FedItems(c, p, fed, []) == fed
  {
  }

  lemma ExtendSupply(size: nat, c: Codes, p: nat, fed: nat, items: seq<Item>, it: Item)
    requires ItemsSupplied(size, c, p, fed, items)
    requires ItemSupplied(size, c, After(c, p, items), FedItems(c, p, fed, items), it)
    ensures ItemsSupplied(size, c, p, fed, items + [it])
    ensures FedItems(c, p, fed, items + [it]) == FedItem(c, After(c, p, items), FedItems(c, p, fed, items), it)
  {
    hide ItemSupplied, FedItem, After;
    var all := items + [it];
    assert all[..|all| - 1] == items && all[|all| - 1] == it;
  }

  /** The items make sense after some `n` bytes of output. */
  ghost predicate Applies(n: nat, items: seq<Item>) {
    exists out: seq<byte>, r :: |out| == n && AppendsAll(out, items, r)
  }

  lemma ItApplies(out: seq<byte>, items: seq<Item>, r: seq<byte>)
    requires AppendsAll(out, items, r)
    ensures Applies(|out|, items)
  {
  }

  lemma Extend(c: Codes, s: nat, p: nat, out0: seq<byte>, items: seq<Item>, front: seq<byte>, it: Item, r: seq<byte>)
    requires ItemsAt(c, s, p, items) && AppendsAll(out0, items, front)
    requires ItemAt(c, s, After(c, p, items), it) && Appends(front, it, r)
    ensures ItemsAt(c, s, p, items + [it]) && AppendsAll(out0, items + [it], r)
    ensures After(c, p, items + [it]) == After(c, p, items) + ItemBits(c, it)
    ensures TotalLen(items + [it]) == TotalLen(items) + ItemLen(it)
    ensures |r| == |front| + ItemLen(it)
  {
    hide ItemAt, ItemBits, Repeat;
    var all := items + [it];
    assert all[..|all| - 1] == items && all[|all| - 1] == it;
    assert r[..|front|] == front;
  }

  lemma NoLiteralCode(c: Codes, s: nat, p: nat)
    ensures NoSymbol(c.lit, s, p) ==> NoItem(c, s, p)
  {
    hide SymbolAt;
  }

  lemma NoDistanceCode(c: Codes, s: nat, p: nat, l: nat)
    requires LengthSymbol(l) && SymbolAt(c.lit, s, p, l)
    ensures NoSymbol(c.dist, s, p + c.lit[l] + LengthExtra(l - 257)) ==> NoItem(c, s, p)
  {
    hide Matches, LengthExtra;
  }

  lemma LiteralItem(c: Codes, s: nat, p: nat, b: byte)
    requires SymbolAt(c.lit, s, p, b)
    ensures ItemAt(c, s, p, Literal(b)) && ItemBits(c, Literal(b)) == c.lit[b]
  {
    hide Matches;
  }

  lemma CopyItem(c: Codes, s: nat, p: nat, l: nat, d: nat, len: nat, dist: nat)
    requires LengthSymbol(l) && SymbolAt(c.lit, s, p, l) && d < 32
    requires len == LengthBase(l - 257) + Field(s, p + c.lit[l], LengthExtra(l - 257))
    requires SymbolAt(c.dist, s, p + c.lit[l] + LengthExtra(l - 257), d)
    requires dist == DistBase(d) + Field(s, p + c.lit[l] + LengthExtra(l - 257) + c.dist[d], DistExtra(d))
    ensures ItemAt(c, s, p, Copy(l, d, len, dist))
    ensures ItemBits(c, Copy(l, d, len, dist)) == c.lit[l] + LengthExtra(l - 257) + c.dist[d] + DistExtra(d)
  {
    hide Matches, LengthBase, LengthExtra, DistBase, DistExtra, Field;
  }

  lemma CopyAppends(front: seq<byte>, it: Item, r: seq<byte>)
    requires it.Copy? && it.dist <= |front| <= |r| && |r| == |front| + it.len
    requires r[..|front|] == front
    requires it.dist >= 1 ==> r == Repeat(front, it.len, it.dist)
    ensures Appends(front, it, r)
  {
  }

  /** No copy is longer than 258 + 31 bytes. */
  lemma LengthSmall(s: nat, p: nat, i: nat)
    requires i < 31
    ensures LengthBase(i) + Field(s, p, LengthExtra(i)) < 300
  {
    hide Shr;
    ExtraBits(i);
    Pow2Monotone(LengthExtra(i), 5);
    assert Pow2(5) == 32;
  }

  lemma ExtraBits(i: nat)
    requires i < 31
    ensures LengthExtra(i) <= 5
  {
  }

  lemma DistExtraBits(i: nat)
    requires i < 32
    ensures DistExtra(i) <= 13
  {
  }

  /** No codeword of at most nine bits starts the stream at `p`. */
  ghost predicate NoShortSymbol(lens: seq<nat>, s: nat, p: nat) {
    forall i: nat :: SymbolAt(lens, s, p, i) ==> lens[i] > FastBits
  }

  /** The fast table finds the symbol whose codeword of at most nine bits starts the stream. */
  lemma FastLookup(lens: seq<nat>, s: nat, p: nat) returns (r: int)
    requires IsLengths(lens) && Kraft(lens)
    ensures r == -1 || 0 <= r < |lens|
    ensures r != -1 ==> SymbolAt(lens, s, p, r) && 0 < lens[r] <= FastBits
    ensures FastEntry(lens, Low(Shr(s, p), FastBits), |lens|) == if r == -1 then 0 else 512 * lens[r] + r
    ensures r == -1 ==> NoShortSymbol(lens, s, p)
  {
    hide FastEntry;
    var stream := Shr(s, p);
    var x := Low(stream, FastBits);
    forall i | 0 <= i < |lens| && lens[i] <= FastBits
      ensures HitsFast(lens, i, x) <==> Matches(lens, i, stream)
    {
      MatchesPrefix(lens, i, stream, FastBits);
    }
    if i :| 0 <= i < |lens| && HitsFast(lens, i, x) {
      FastEntryHit(lens, x, |lens|, i);
      r := i;
    } else {
      FastEntryMiss(lens, x, |lens|);
      r := -1;
    }
  }

  /** The symbol whose codeword of `l` bits starts the stream, and its place in code order. */
  lemma SymbolInInterval(lens: seq<nat>, l: nat, s: nat, p: nat) returns (i: nat)
    requires IsLengths(lens) && Kraft(lens) && 1 <= l <= MaxLen
    requires AlignedEnd(lens, l - 1) <= Window(Shr(s, p)) < AlignedEnd(lens, l)
    ensures i < |lens| && lens[i] == l && SymbolAt(lens, s, p, i)
    ensures Position(lens, i) < |lens|
    ensures Position(lens, i) == Shr(Window(Shr(s, p)), 16 - l) - FirstCode(lens, l) + FirstSymbol(lens, l)
  {
    hide AlignedEnd, Shr, Matches, FirstCode, FirstSymbol, Count, Kraft;
    i := SomeMatch(lens, l, Shr(s, p));
    PositionInjective(lens, i, i);
  }

  /** The window of a stream is that of its low 16 bits. */
  lemma SameWindow(x: nat, y: nat)
    requires Low(x, 16) == Low(y, 16)
    ensures Window(x) == Window(y)
  {
    hide Bit, Low, Reverse, Pow2;
    forall k | 0 <= k < 16 ensures Bit(Reverse(x, 16), k) == Bit(Reverse(y, 16), k) {
      BitReverse(x, 16, k);
      BitReverse(y, 16, k);
      BitLow(x, 16, 15 - k);
      BitLow(y, 16, 15 - k);
    }
    SameBits(Reverse(x, 16), Reverse(y, 16), 16);
  }

  /** If no codeword of at most `l` bits starts the stream then its window is at or above the limit. */
  lemma {:induction false} BelowLimit(lens: seq<nat>, l: nat, s: nat, p: nat)
    requires IsLengths(lens) && Kraft(lens) && l <= FastBits && NoShortSymbol(lens, s, p)
    ensures AlignedEnd(lens, l) <= Window(Shr(s, p))
  {
    assert l == 0 ==> EndCode(lens, l) == 0;
    if l > 0 {
      hide SymbolAt, Shr, AlignedEnd, FirstCode, FirstSymbol, Count, Reverse, Kraft;
      BelowLimit(lens, l - 1, s, p);
      if Window(Shr(s, p)) < AlignedEnd(lens, l) {
        var i := SymbolInInterval(lens, l, s, p);
      }
    }
  }

  lemma AboveLimit(lens: seq<nat>, s: nat, p: nat)
    requires IsLengths(lens) && Kraft(lens)
    requires AlignedEnd(lens, MaxLen) <= Window(Shr(s, p))
    ensures NoSymbol(lens, s, p)
  {
    hide AlignedEnd, Shr;
    forall i: nat ensures !SymbolAt(lens, s, p, i) {
      if SymbolAt(lens, s, p, i) {
        MatchLength(lens, i, Shr(s, p));
        AlignedMonotone(lens, lens[i], MaxLen);
      }
    }
  }

  /** One refill step of the bit buffer. */
  lemma FeedByte(c: nat, nb: nat, b: byte, rest: nat)
    requires c < Pow2(nb)
    ensures Or(c, Shl(b, nb)) < Pow2(nb + 8)
    ensures c + Pow2(nb) * (b + 256 * rest) == Or(c, Shl(b, nb)) + Pow2(nb + 8) * rest
  {
    OrAppend(c, b, nb);
    Pow2Values();
    Pow2Add(nb, 8);
    FeedValue(c, Pow2(nb), b, rest);
  }

  lemma FeedValue(c: nat, p: nat, b: nat, rest: nat)
    requires c < p && b < 256
    ensures c + p * b < p * 256
    ensures c + p * (b + 256 * rest) == c + p * b + (p * 256) * rest
  {
    MulMonotone(b + 1, 256, p);
    assert p * (b + 256 * rest) == p * b + p * (256 * rest);
  }
}
