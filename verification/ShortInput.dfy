/** A complete DEFLATE stream that the decoder refuses for want of input: every bit of it is there, but the
    last symbol starts 13 bits before the end of the input and a symbol is only decoded with 16 bits. */
module ShortInput {
  import opened Words
  import opened Canonical
  import opened Deflate
  import opened Supply
  import opened ZBuf

  /** One final block with the fixed codes: two zero bytes, then the end of the block. */
  const TwoZeros: seq<byte> := [0x63, 0x60, 0, 0]

  /** The bits of the stream that are set. */
  predicate Ones(k: nat) {
    k in {0, 1, 5, 6, 13, 14}
  }

  lemma BitsOfBytes()
    ensures forall k :: 0 <= k < 8 ==> Bit(0x63, k) == (k in {0, 1, 5, 6})
    ensures forall k :: 0 <= k < 8 ==> Bit(0x60, k) == (k in {5, 6})
    ensures forall k :: 0 <= k < 8 ==> Bit(48, k) == (k in {4, 5})
    ensures forall k :: 0 <= k < 8 ==> !Bit(0, k)
  {
    assert Bit(0x63, 0) && Bit(0x63, 1) && !Bit(0x63, 2) && !Bit(0x63, 3);
    assert !Bit(0x63, 4) && Bit(0x63, 5) && Bit(0x63, 6) && !Bit(0x63, 7);
    assert !Bit(0x60, 0) && !Bit(0x60, 1) && !Bit(0x60, 2) && !Bit(0x60, 3);
    assert !Bit(0x60, 4) && Bit(0x60, 5) && Bit(0x60, 6) && !Bit(0x60, 7);
    assert !Bit(48, 0) && !Bit(48, 1) && !Bit(48, 2) && !Bit(48, 3);
    assert Bit(48, 4) && Bit(48, 5) && !Bit(48, 6) && !Bit(48, 7);
    hide Bit;
    forall k: nat ensures !Bit(0, k) {
      BitZero(k);
    }
  }

  lemma StreamBits(p: nat, k: nat)
    ensures Bit(Shr(LittleEndian(TwoZeros), p), k) == Ones(p + k)
  {
    hide Bit, LittleEndian, Shr;
    BitShr(LittleEndian(TwoZeros), p, k);
    BitOfBytes(TwoZeros, p + k);
    BitsOfBytes();
  }

  /** The codes of seven bits are those of the symbols from 256 to 279. */
  lemma {:induction false} FixedSevens(n: nat)
    requires n <= 288
    ensures Count(FixedCodes().lit, 7, n) == if n <= 256 then 0 else if n <= 280 then n - 256 else 24
  {
    if n > 0 {
      FixedSevens(n - 1);
    }
  }

  lemma ZeroLiteral()
    ensures |FixedCodes().lit| == 288 && FixedCodes().lit[0] == 8 && Code(FixedCodes().lit, 0) == 48
  {
    var lens := FixedCodes().lit;
    FixedFirstCode(7);
    FixedSevens(288);
    assert FirstCode(lens, 8) == 2 * (FirstCode(lens, 7) + Total(lens, 7));
    hide FirstCode;
    assert Count(lens, 8, 0) == 0;
  }

  /** The literal 0 starts at bits 3 and 11, the end of block at bit 19. */
  lemma Symbols()
    ensures var s := LittleEndian(TwoZeros);
      && SymbolAt(FixedCodes().lit, s, 3, 0) && SymbolAt(FixedCodes().lit, s, 11, 0)
      && SymbolAt(FixedCodes().lit, s, 19, 256)
  {
    hide Bit, LittleEndian, Shr, Code, FixedCodes;
    var s, lit := LittleEndian(TwoZeros), FixedCodes().lit;
    ZeroLiteral();
    FixedEndOfBlock();
    BitsOfBytes();
    forall k | 0 <= k < 8
      ensures Bit(Shr(s, 3), k) == Bit(48, 7 - k) && Bit(Shr(s, 11), k) == Bit(48, 7 - k)
    {
      StreamBits(3, k);
      StreamBits(11, k);
    }
    forall k | 0 <= k < 7 ensures Bit(Shr(s, 19), k) == Bit(0, 6 - k) {
      StreamBits(19, k);
    }
  }

  lemma HeaderBits()
    ensures IsFinal(LittleEndian(TwoZeros), 0) && Field(LittleEndian(TwoZeros), 1, 2) == 1
  {
    hide LittleEndian, Shr;
    var s := LittleEndian(TwoZeros);
    StreamBits(0, 0);
    StreamBits(1, 0);
    StreamBits(1, 1);
    assert Low(Shr(s, 0), 1) == Shr(s, 0) % 2;
    assert Low(Shr(s, 1), 2) == Shr(s, 1) % 2 + 2 * Low(Shr(s, 1) / 2, 1);
    assert Bit(Shr(s, 1), 1) == Bit(Shr(s, 1) / 2, 0);
  }

  const TwoLiterals: seq<Item> := [Literal(0), Literal(0)]

  lemma Body()
    ensures var c, s := FixedCodes(), LittleEndian(TwoZeros);
      && BodyAt(c, s, 3, TwoLiterals) && After(c, 3, TwoLiterals) == 19 && |c.lit| == 288 && c.lit[256] == 7
    ensures !BodySupplied(4, FixedCodes(), 3, 4, TwoLiterals)
    ensures AppendsAll([], TwoLiterals, [0, 0])
  {
    hide LittleEndian, Matches, FixedCodes, Code;
    var c, s := FixedCodes(), LittleEndian(TwoZeros);
    ZeroLiteral();
    FixedEndOfBlock();
    Symbols();
    var one := [Literal(0)];
    assert TwoLiterals[..1] == one && one[..0] == [];
    LiteralSupply(4, c, 3, 4, 0);
    LiteralSupply(4, c, 11, 4, 0);
    assert After(c, 3, one) == 11 && FedItems(c, 3, 4, one) == 4;
    LiteralItem(c, s, 3, 0);
    LiteralItem(c, s, 11, 0);
    assert ItemsAt(c, s, 3, []) && After(c, 3, []) == 3;
    assert ItemsAt(c, s, 3, one);
    assert [0, 0][..1] == [] + [0 as byte];
    assert AppendsAll([], [], []);
    assert AppendsAll([], one, [0]);
  }

  const Blocks: seq<Block> := [Fixed(TwoLiterals)]
  const Trace: seq<Point> := [Point(0, []), Point(26, [0, 0])]

  /** The four bytes are a complete raw stream of 26 bits, the only one there, and no decoder accepts it,
      whatever its buffer and however many turns it may take. */
  lemma CompleteButRefused(d: Decoder, limit: nat, rounds: nat)
    requires d.input == TwoZeros && (d.expandable ==> limit > 0)
    ensures StreamAt(LittleEndian(TwoZeros), Blocks, Trace)
    ensures !d.SomeStream(Point(0, []), 0, limit, rounds)
  {
    hide LittleEndian, BodyAt, FixedCodes, IsFinal, Field, BodySupplied, AppendsAll, After;
    var s := LittleEndian(TwoZeros);
    HeaderBits();
    Body();
    FixedBlock(s, 0, TwoLiterals);
    assert FedTag(0, 0) == 4;
    assert !BlockSupplied(4, s, 0, 0, Blocks[0]);
    hide BlockAt, BlockEnd, BlockAppends, BlockSupplied;
    if d.SomeStream(Point(0, []), 0, limit, rounds) {
      var b, t :| d.Decodes(b, t, Point(0, []), 0, limit, rounds);
      BlocksAgree(s, Blocks, Trace, b, t, 1);
    }
  }
}
