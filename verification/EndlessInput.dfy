/** An input of thirty bytes on which the loop over the symbols of a block does not end: a stored block of nine
    zero bytes, and a dynamic block whose only length symbol is the reserved 286, on seven zero bits, and whose
    only distance symbol is 6, on fifteen zero bits and two extra bits.  Each turn takes 24 bits, refills on the
    way, appends nothing and leaves 23 bits in the buffer. */
module EndlessInput {
  import opened Words
  import opened Canonical
  import opened Deflate
  import opened Supply
  import opened ZBuf
  import opened BlockLoop

  const Input: seq<byte> := [
    0, 9, 0, 0xF6, 0xFF, 0, 0, 0, 0, 0, 0, 0, 0, 0,
    245, 230, 161, 0, 6, 0, 0, 0, 128, 251, 251, 247, 161, 141, 0, 0]

  // ---- the bits of the second block ----

  /** The bits from 112 on that are set. */
  predicate Ones(k: nat) {
    k in {
      112, 114, 116, 117, 118, 119, 121, 122, 125, 126, 127, 128, 133, 135, 145, 146, 183, 184, 185, 187, 188, 189,
      190, 191, 192, 193, 195, 196, 197, 198, 199, 200, 201, 202, 204, 205, 206, 207, 208, 213, 215, 216, 218, 219, 223}
  }

  lemma BitsOfFirstBytes()
    ensures forall k :: 0 <= k < 8 ==> (Bit(245, k) <==> k !in {1, 3}) && (Bit(230, k) <==> k !in {0, 3, 4})
    ensures forall k :: 0 <= k < 8 ==> (Bit(161, k) <==> k in {0, 5, 7}) && (Bit(6, k) <==> k in {1, 2})
  {
    assert Bit(245, 0) && !Bit(245, 1) && Bit(245, 2) && !Bit(245, 3);
    assert Bit(245, 4) && Bit(245, 5) && Bit(245, 6) && Bit(245, 7);
    assert !Bit(230, 0) && Bit(230, 1) && Bit(230, 2) && !Bit(230, 3);
    assert !Bit(230, 4) && Bit(230, 5) && Bit(230, 6) && Bit(230, 7);
    assert Bit(161, 0) && !Bit(161, 1) && !Bit(161, 2) && !Bit(161, 3);
    assert !Bit(161, 4) && Bit(161, 5) && !Bit(161, 6) && Bit(161, 7);
    assert !Bit(6, 0) && Bit(6, 1) && Bit(6, 2) && !Bit(6, 3);
    assert !Bit(6, 4) && !Bit(6, 5) && !Bit(6, 6) && !Bit(6, 7);
  }

  lemma BitsOfLastBytes()
    ensures forall k :: 0 <= k < 8 ==> (Bit(128, k) <==> k == 7) && (Bit(251, k) <==> k != 2)
    ensures forall k :: 0 <= k < 8 ==> (Bit(247, k) <==> k != 3) && (Bit(141, k) <==> k in {0, 2, 3, 7})
  {
    assert !Bit(128, 0) && !Bit(128, 1) && !Bit(128, 2) && !Bit(128, 3);
    assert !Bit(128, 4) && !Bit(128, 5) && !Bit(128, 6) && Bit(128, 7);
    assert Bit(251, 0) && Bit(251, 1) && !Bit(251, 2) && Bit(251, 3);
    assert Bit(251, 4) && Bit(251, 5) && Bit(251, 6) && Bit(251, 7);
    assert Bit(247, 0) && Bit(247, 1) && Bit(247, 2) && !Bit(247, 3);
    assert Bit(247, 4) && Bit(247, 5) && Bit(247, 6) && Bit(247, 7);
    assert Bit(141, 0) && !Bit(141, 1) && Bit(141, 2) && Bit(141, 3);
    assert !Bit(141, 4) && !Bit(141, 5) && !Bit(141, 6) && Bit(141, 7);
  }

  lemma InputBit(k: nat)
    requires 112 <= k
    ensures Bit(LittleEndian(Input), k) <==> Ones(k)
  {
    hide Bit, LittleEndian;
    BitOfBytes(Input, k);
    BitsOfFirstBytes();
    BitsOfLastBytes();
    BitZero(k % 8);
    var i, j := k / 8, k % 8;
    assert k == 8 * i + j && 14 <= i;
  }

  lemma StreamBit(p: nat, k: nat)
    requires 112 <= p
    ensures Bit(Shr(LittleEndian(Input), p), k) <==> Ones(p + k)
  {
    hide Bit, LittleEndian, Shr, Ones;
    BitShr(LittleEndian(Input), p, k);
    InputBit(p + k);
  }

  /** A field of the stream from its bits. */
  function Value(p: nat, n: nat): nat
    decreases n
  {
    if n == 0 then 0 else (if Ones(p) then 1 else 0) + 2 * Value(p + 1, n - 1)
  }

  lemma {:induction false} FieldValue(p: nat, n: nat)
    requires 112 <= p
    ensures Field(LittleEndian(Input), p, n) == Value(p, n)
    decreases n
  {
    hide LittleEndian, Shr, Ones;
    if n > 0 {
      var s := LittleEndian(Input);
      FieldValue(p + 1, n - 1);
      ShrAdd(s, p, 1);
      StreamBit(p, 0);
      assert Shr(Shr(s, p), 1) == Shr(s, p) / 2 by {
        HalfIsShift(Shr(s, p));
      }
    }
  }

  lemma HalfIsShift(x: nat)
    ensures Shr(x, 1) == x / 2
  {
    assert Shr(x / 2, 0) == x / 2;
  }

  // ---- the stored block ----

  const Zeros9: seq<byte> := [0, 0, 0, 0, 0, 0, 0, 0, 0]

  lemma FirstBlock()
    ensures var s, b := LittleEndian(Input), Stored(Zeros9);
      && BlockAt(s, 0, b) && BlockEnd(s, 0, b) == 112 && !IsFinal(s, 0)
      && BlockSupplied(30, s, 0, 0, b) && FedBlock(s, 0, 0, b) == 14 && BlockAppends([], b, Zeros9)
  {
    hide LittleEndian, Field, StoredAt;
    FirstBits();
    StoredFields();
    StoredBlock(LittleEndian(Input), 0, Zeros9);
    assert [] + Zeros9 == Zeros9;
    StoredSupplied(30, LittleEndian(Input), 0, 0, Zeros9);
  }

  lemma StoredFields()
    ensures StoredAt(LittleEndian(Input), 3, Zeros9)
  {
    hide LittleEndian, Field;
    var s := LittleEndian(Input);
    forall i | 0 <= i < 9 ensures Zeros9[i] == Field(s, AlignByte(3) + 32 + 8 * i, 8) {
      ByteField(Input, 5 + i);
    }
    TwoBytes(s, 8);
    TwoBytes(s, 24);
    ByteField(Input, 1);
    ByteField(Input, 2);
    ByteField(Input, 3);
    ByteField(Input, 4);
  }

  lemma FirstBits()
    ensures !IsFinal(LittleEndian(Input), 0) && Field(LittleEndian(Input), 1, 2) == 0
  {
    hide LittleEndian, Shr;
    var s := LittleEndian(Input);
    forall k: nat | k < 8 ensures !Bit(s, k) {
      BitOfBytes(Input, k);
      BitZero(k);
    }
    BitShr(s, 0, 0);
    BitShr(s, 1, 0);
    BitShr(s, 1, 1);
    assert Low(Shr(s, 0), 1) == Shr(s, 0) % 2;
    assert Low(Shr(s, 1), 2) == Shr(s, 1) % 2 + 2 * Low(Shr(s, 1) / 2, 1);
    assert Bit(Shr(s, 1), 1) == Bit(Shr(s, 1) / 2, 0);
  }

  // ---- the header of the dynamic block ----

  /** The lengths of the code length code: 1, 2, 6 and 7 for the symbols 18, 17, 7 and 15. */
  const CodeLengths: seq<nat> := [0, 0, 0, 0, 0, 0, 0, 6, 0, 0, 0, 0, 0, 0, 0, 7, 0, 2, 1]

  lemma HeaderCounts()
    ensures var s := LittleEndian(Input);
      && IsFinal(s, 112) && Field(s, 113, 2) == 2
      && Hlit(s, 115) == 287 && Hdist(s, 115) == 7 && Hclen(s, 115) == 19 && RunsStart(s, 115) == 186
  {
    hide LittleEndian, Field, Value;
    HeaderValues();
    FieldValue(112, 1);
    FieldValue(113, 2);
    FieldValue(115, 5);
    FieldValue(120, 5);
    FieldValue(125, 4);
  }

  lemma HeaderValues()
    ensures Value(112, 1) == 1 && Value(113, 2) == 2
    ensures Value(115, 5) == 30 && Value(120, 5) == 6 && Value(125, 4) == 15
  {
    assert Ones(112) && !Ones(113) && Ones(114);
    assert !Ones(115) && Ones(116) && Ones(117) && Ones(118) && Ones(119);
    assert !Ones(120) && Ones(121) && Ones(122) && !Ones(123) && !Ones(124);
    assert Ones(125) && Ones(126) && Ones(127) && Ones(128);
    hide Ones;
  }

  lemma LengthValue(i: nat)
    requires i < 19
    ensures Value(129 + 3 * i, 3) == CodeLengths[CodeLengthOrder(i)]
  {
    ThreeBits(129 + 3 * i);
    hide Value;
  }

  lemma HeaderLengths()
    ensures CodeLengthsAt(LittleEndian(Input), 129, 19, CodeLengths)
  {
    hide LittleEndian, Field, Value, CodeLengthOrder;
    forall i | 0 <= i < 19 ensures CodeLengths[CodeLengthOrder(i)] == Field(LittleEndian(Input), 129 + 3 * i, 3) {
      FieldValue(129 + 3 * i, 3);
      LengthValue(i);
    }
  }

  lemma ThreeBits(p: nat)
    ensures Value(p, 3) == (if Ones(p) then 1 else 0) + (if Ones(p + 1) then 2 else 0) + (if Ones(p + 2) then 4 else 0)
  {
    hide Ones;
  }

  /** Only four symbols of the code length code are used. */
  lemma {:induction false} FourSymbols(l: nat, n: nat)
    requires n <= 19
    ensures l >= 1 ==> (
        Count(CodeLengths, l, n)
        == (if n > 7 && l == 6 then 1 else 0) + (if n > 15 && l == 7 then 1 else 0)
           + (if n > 17 && l == 2 then 1 else 0) + (if n > 18 && l == 1 then 1 else 0))
    ensures l == MaxLen ==> (
        KraftUpTo(CodeLengths, l, n)
        == (if n > 7 then 512 else 0) + (if n > 15 then 256 else 0)
           + (if n > 17 then 0x2000 else 0) + (if n > 18 then 0x4000 else 0))
  {
    if n > 0 {
      FourSymbols(l, n - 1);
      SmallPowers();
      Pow2Values();
      assert Pow2(14) == 2 * Pow2(13);
    }
  }

  lemma CodeLengthTotals(l: nat)
    requires 1 <= l <= 7
    ensures Total(CodeLengths, l) == if l in {1, 2, 6, 7} then 1 else 0
  {
    FourSymbols(l, 19);
    hide Count;
  }

  lemma CodeLengthFirsts()
    ensures FirstCode(CodeLengths, 1) == 0 && FirstCode(CodeLengths, 2) == 2
    ensures FirstCode(CodeLengths, 6) == 48 && FirstCode(CodeLengths, 7) == 98
  {
    assert Total(CodeLengths, 0) == 0;
    forall l: nat | 1 <= l <= 7 ensures Total(CodeLengths, l) == if l in {1, 2, 6, 7} then 1 else 0 {
      CodeLengthTotals(l);
    }
    hide Total;
    var c := CodeLengths;
    assert FirstCode(c, 0) == 0 && FirstCode(c, 1) == 0 && FirstCode(c, 2) == 2 && FirstCode(c, 3) == 6;
    assert FirstCode(c, 4) == 12 && FirstCode(c, 5) == 24 && FirstCode(c, 6) == 48 && FirstCode(c, 7) == 98;
  }

  lemma CodeLengthsFit()
    ensures IsLengths(CodeLengths) && Kraft(CodeLengths)
  {
    FourSymbols(MaxLen, 19);
    Pow2Values();
    hide KraftUpTo, Pow2, Count;
    assert |CodeLengths| == 19;
  }

  lemma CodeLengthCodes()
    ensures IsLengths(CodeLengths) && Kraft(CodeLengths)
    ensures Code(CodeLengths, 18) == 0 && Code(CodeLengths, 17) == 2
    ensures Code(CodeLengths, 7) == 48 && Code(CodeLengths, 15) == 98
  {
    hide FirstCode, Count, KraftUpTo, Kraft;
    CodeLengthsFit();
    CodeLengthFirsts();
    FourSymbols(1, 18);
    FourSymbols(2, 17);
    FourSymbols(6, 7);
    FourSymbols(7, 15);
  }

  lemma BitsOfCodes()
    ensures forall k :: 0 <= k < 6 ==> (Bit(48, k) <==> k in {4, 5})
    ensures forall k :: 0 <= k < 7 ==> (Bit(98, k) <==> k in {1, 5, 6})
    ensures !Bit(0, 0) && !Bit(2, 0) && Bit(2, 1)
  {
    assert !Bit(48, 0) && !Bit(48, 1) && !Bit(48, 2) && !Bit(48, 3) && Bit(48, 4) && Bit(48, 5);
    assert !Bit(98, 0) && Bit(98, 1) && !Bit(98, 2) && !Bit(98, 3) && !Bit(98, 4) && Bit(98, 5) && Bit(98, 6);
  }

  lemma RunSymbols()
    ensures var s, cl := LittleEndian(Input), CodeLengths;
      && SymbolAt(cl, s, 186, 18) && SymbolAt(cl, s, 194, 18) && SymbolAt(cl, s, 202, 17)
      && SymbolAt(cl, s, 207, 7) && SymbolAt(cl, s, 213, 17) && SymbolAt(cl, s, 218, 15)
  {
    hide Bit, LittleEndian, Shr, Code, Ones;
    CodeLengthCodes();
    SymbolFromBits(186, 18, 0);
    SymbolFromBits(194, 18, 0);
    SymbolFromBits(202, 17, 2);
    SymbolFromBits(207, 7, 48);
    SymbolFromBits(213, 17, 2);
    SymbolFromBits(218, 15, 98);
  }

  lemma SymbolFromBits(p: nat, sym: nat, code: nat)
    requires 112 <= p && sym < 19 && CodeLengths[sym] > 0 && Code(CodeLengths, sym) == code
    requires (p, sym) in {(186, 18), (194, 18), (202, 17), (207, 7), (213, 17), (218, 15)}
    requires code == if sym == 18 then 0 else if sym == 17 then 2 else if sym == 7 then 48 else 98
    ensures SymbolAt(CodeLengths, LittleEndian(Input), p, sym)
  {
    hide Bit, LittleEndian, Shr, Code;
    BitsOfCodes();
    var len := CodeLengths[sym];
    forall k | 0 <= k < len ensures Bit(Shr(LittleEndian(Input), p), k) == Bit(code, len - 1 - k) {
      StreamBit(p, k);
    }
  }

  lemma RunExtras()
    ensures var s := LittleEndian(Input);
      && Field(s, 187, 7) == 127 && Field(s, 195, 7) == 127 && Field(s, 204, 3) == 7 && Field(s, 215, 3) == 3
  {
    hide LittleEndian, Field, Value;
    ExtraValues();
    FieldValue(187, 7);
    FieldValue(195, 7);
    FieldValue(204, 3);
    FieldValue(215, 3);
  }

  lemma ExtraValues()
    ensures Value(187, 7) == 127 && Value(195, 7) == 127 && Value(204, 3) == 7 && Value(215, 3) == 3
  {
    assert Ones(187) && Ones(188) && Ones(189) && Ones(190) && Ones(191) && Ones(192) && Ones(193);
    assert Ones(195) && Ones(196) && Ones(197) && Ones(198) && Ones(199) && Ones(200) && Ones(201);
    assert Ones(204) && Ones(205) && Ones(206) && Ones(215) && Ones(216) && !Ones(217);
    hide Ones;
  }

  /** 286 zeros and a 7 for the length symbols, 6 zeros and a 15 for the distance symbols. */
  const Runs: seq<Run> := [Zeros(18, 138), Zeros(18, 138), Zeros(17, 10), Len(7), Zeros(17, 6), Len(15)]

  /** Where each run starts, and the bytes taken in before it. */
  function RunPos(k: nat): nat
    requires k <= 6
  {
    [186, 194, 202, 207, 213, 218, 225][k]
  }

  function RunFed(k: nat): nat
    requires k <= 6
  {
    [25, 27, 27, 29, 29, 29, 31][k]
  }

  lemma RunHere(k: nat)
    requires k < 6
    ensures RunAt(CodeLengths, LittleEndian(Input), RunPos(k), Runs[k])
    ensures RunPos(k + 1) == RunPos(k) + RunBits(CodeLengths, Runs[k])
    ensures HasBits(30, RunFed(k), RunPos(k)) && RunFed(k + 1) == FedRun(CodeLengths, RunPos(k), RunFed(k), Runs[k])
  {
    hide LittleEndian, Field, Matches;
    RunSymbols();
    RunExtras();
    RunFromFields(CodeLengths, LittleEndian(Input), RunPos(k), Runs[k]);
  }

  function Lengths(k: nat): seq<nat>
    requires k <= 6
  {
    if k == 0 then [] else AddRun(Lengths(k - 1), Runs[k - 1])
  }

  lemma {:induction false} RunsHere(k: nat)
    requires k <= 6
    ensures var s, cl := LittleEndian(Input), CodeLengths;
      && RunsAt(cl, s, 186, Runs[..k]) && RunsAfter(cl, 186, Runs[..k]) == RunPos(k)
      && RunsSupplied(30, cl, 186, 25, Runs[..k]) && FedRuns(cl, 186, 25, Runs[..k]) == RunFed(k)
      && Lens(Runs[..k]) == Lengths(k)
  {
    hide RunAt, RunBits, FedRun, HasBits, AddRun, LittleEndian;
    var s, cl := LittleEndian(Input), CodeLengths;
    if k == 0 {
      NoRuns(cl, s, 186);
      NoRunsFed(30, cl, 186, 25);
    } else {
      RunsHere(k - 1);
      RunHere(k - 1);
      hide RunsAt, RunsAfter, RunsSupplied, FedRuns, Lens;
      ExtendRuns(cl, s, 186, Runs[..k - 1], Runs[k - 1]);
      ExtendRunSupply(30, cl, 186, 25, Runs[..k - 1], Runs[k - 1]);
      assert Runs[..k] == Runs[..k - 1] + [Runs[k - 1]];
    }
  }

  function LoopingCodes(): Codes {
    Codes(seq(286, _ => 0) + [7], seq(6, _ => 0) + [15])
  }

  lemma FirstLengths()
    ensures Lengths(3) == seq(286, _ => 0)
  {
    hide AddRun;
    AddRunFill([], Runs[0], 0, 138);
    AddRunFill(seq(138, _ => 0), Runs[1], 0, 138);
    AddRunFill(seq(276, _ => 0), Runs[2], 0, 10);
    assert Lengths(0) == [];
    assert Lengths(1) == seq(138, _ => 0);
    assert Lengths(2) == seq(138, _ => 0) + seq(138, _ => 0) == seq(276, _ => 0);
    assert Lengths(3) == seq(276, _ => 0) + seq(10, _ => 0);
  }

  lemma AllLengths()
    ensures Lengths(6) == LoopingCodes().lit + LoopingCodes().dist
  {
    hide AddRun;
    FirstLengths();
    var lit, zeros := LoopingCodes().lit, seq(6, _ => 0);
    AddRunFill(seq(286, _ => 0), Runs[3], 7, 1);
    AddRunFill(lit, Runs[4], 0, 6);
    AddRunFill(lit + zeros, Runs[5], 15, 1);
    assert Lengths(4) == lit;
    assert Lengths(5) == lit + zeros;
    assert Lengths(6) == lit + zeros + seq(1, _ => 15) == lit + (zeros + [15]);
  }

  const TheHeader: Header := Header(CodeLengths, Runs)

  lemma HeaderHere()
    ensures var s := LittleEndian(Input);
      && HeaderAt(s, 115, TheHeader) && HeaderCodes(s, 115, TheHeader) == LoopingCodes()
      && RunsAfter(CodeLengths, RunsStart(s, 115), Runs) == 225
  {
    hide LittleEndian, Field, RunsAt, RunsAfter, Kraft, Lens, Lengths, Hlit, Hdist, Hclen, RunsStart, CodeLengthsAt;
    HeaderCounts();
    HeaderLengths();
    CodeLengthCodes();
    RunsHere(6);
    assert Runs[..6] == Runs;
    AllLengths();
    var c := LoopingCodes();
    assert (c.lit + c.dist)[..287] == c.lit && (c.lit + c.dist)[287..] == c.dist;
    LoneCode(286, 7);
    LoneCode(6, 15);
  }

  lemma HeaderBytes()
    ensures var s, f := LittleEndian(Input), FedTag(112, 14);
      HeaderSupplied(30, s, 115, f, TheHeader) && FedHeader(s, 115, f, TheHeader) == 31
  {
    hide LittleEndian, RunsSupplied, FedRuns, Hclen, RunsStart, Field, FedSizes;
    HeaderCounts();
    RunsHere(6);
    assert Runs[..6] == Runs;
    assert FedTag(112, 14) == 18;
    LengthBytes(19);
  }

  lemma {:induction false} LengthBytes(n: nat)
    requires n <= 19
    ensures FedSizes(129, 18, n) == if n <= 5 then 18 else if n <= 15 then 22 else 25
  {
    if n > 0 {
      LengthBytes(n - 1);
    }
  }

  lemma {:induction false} LoneSymbol(k: nat, len: nat, l: nat, n: nat)
    requires n <= k + 1 && 1 <= len <= MaxLen
    ensures var lens := seq(k, _ => 0) + [len];
      && (1 <= l && (l < len || n <= k) ==> Count(lens, l, n) == 0)
      && (l <= MaxLen ==> KraftUpTo(lens, l, n) == if n <= k || l < len then 0 else Pow2(l - len))
  {
    if n > 0 {
      LoneSymbol(k, len, l, n - 1);
    }
  }

  lemma {:induction false} LoneFirstCode(k: nat, len: nat, l: nat)
    requires 1 <= len <= MaxLen && l <= len
    ensures FirstCode(seq(k, _ => 0) + [len], l) == 0
  {
    if l > 0 {
      LoneFirstCode(k, len, l - 1);
      LoneSymbol(k, len, l - 1, k + 1);
    }
  }

  lemma LoneKraft(k: nat, len: nat)
    requires 1 <= len <= MaxLen
    ensures Kraft(seq(k, _ => 0) + [len])
  {
    hide KraftUpTo, Pow2;
    LoneSymbol(k, len, MaxLen, k + 1);
    Pow2Monotone(MaxLen - len, MaxLen);
  }

  lemma LoneCode(k: nat, len: nat)
    requires 1 <= len <= MaxLen
    ensures var lens := seq(k, _ => 0) + [len];
      IsLengths(lens) && Kraft(lens) && SymbolAt(lens, 0, 0, k)
  {
    hide FirstCode, Count, Kraft, KraftUpTo, Matches;
    var lens := seq(k, _ => 0) + [len];
    LoneKraft(k, len);
    LoneFirstCode(k, len, len);
    LoneSymbol(k, len, len, k);
    assert lens[k] == len && Code(lens, k) == 0;
    ZeroCodeMatches(lens, k);
  }

  // ---- the body ----

  const LoopingItem: Item := Copy(286, 6, 0, 9)

  lemma CodesHere()
    ensures var c := LoopingCodes();
      && c.Valid() && |c.lit| == 287 && |c.dist| == 7 && c.lit[286] == 7 && c.dist[6] == 15
      && SymbolAt(c.lit, 0, 0, 286) && SymbolAt(c.dist, 0, 7, 6)
  {
    hide Kraft, Matches;
    LoneCode(286, 7);
    LoneCode(6, 15);
    hide LoopingCodes, IsLengths, SymbolAt;
    ReadsZero(LoopingCodes().dist, 0, 0, 7, 6, 0);
  }

  lemma NothingInZero(k: nat, n: nat)
    ensures Field(0, k, n) == 0
  {
    hide Shr, Low;
    assert Shr(0, k) == 0;
  }

  lemma LoopingItemIsZero()
    ensures LoopingCodes().Valid() && ZeroItem(LoopingCodes(), LoopingItem)
    ensures Hangs(LoopingCodes(), LoopingItem, 23) && ItemBits(LoopingCodes(), LoopingItem) == 24
  {
    hide Kraft, SymbolAt, Circles, Field, LoopingCodes, IsLengths;
    CodesHere();
    NothingInZero(7, 0);
    NothingInZero(22, 2);
    CirclesHere();
  }

  lemma CirclesHere()
    ensures Circles(7, 15, 2, 23)
  {
    CirclesInEight(7, 15, 2, 23);
  }

  lemma OnlyZerosLeft()
    ensures Shr(LittleEndian(Input), 225) == 0
  {
    hide LittleEndian, Shr;
    var s := LittleEndian(Input);
    ShrBytes(Input, 28);
    assert Input[28..] == [0, 0];
    TwoZeroBytes();
    ShrAdd(s, 224, 1);
    HalfIsShift(0);
  }

  lemma TwoZeroBytes()
    ensures LittleEndian([0, 0]) == 0
  {
    var two: seq<byte> := [0, 0];
    assert two[1..] == [0];
    assert LittleEndian([0]) == 0;
  }

  /** The first turn, which takes the last bits of the input. */
  lemma FirstTurn(d: Decoder, limit: nat)
    requires d.input == Input && (d.expandable ==> limit > 0) && d.Fits(limit, 9)
    ensures GetsStuck(d, LoopingCodes(), 225, 31, 9, limit)
  {
    hide LittleEndian, ItemAt, ItemsAt, ItemsSupplied, After, FedItems, AppendsAll, TotalLen, Circles, Repeat, Doubled;
    hide ItemSupplied, FedItem, ZeroItem, LoopingCodes, ItemBits;
    var c, s, z := LoopingCodes(), LittleEndian(Input), LoopingItem;
    LoopingItemIsZero();
    OnlyZerosLeft();
    ZerosAhead(c, s, 225, z);
    FirstBytes();
    NothingYet(c, s, 225, Zeros9);
    NothingFed(30, c, 225, 31);
    NothingAppended(Zeros9, z);
    Extend(c, s, 225, Zeros9, [], Zeros9, z, Zeros9);
    ExtendSupply(30, c, 225, 31, [], z);
    assert [] + [z] == [z];
    ItApplies(Zeros9, [z], Zeros9);
    assert StuckAfter(d, c, 225, 31, 9, limit, [z], z);
  }

  lemma FirstBytes()
    ensures ItemSupplied(30, LoopingCodes(), 225, 31, LoopingItem)
    ensures FedItem(LoopingCodes(), 225, 31, LoopingItem) == 34
  {
    LoopingItemIsZero();
    hide Kraft, Hangs, ZeroItem;
    CopySupply(30, LoopingCodes(), 225, 31, LoopingItem);
  }

  // ---- the whole input ----

  const Blocks: seq<Block> := [Stored(Zeros9)]
  const Trace: seq<Point> := [Point(0, []), Point(112, Zeros9)]

  lemma SecondBlock(d: Decoder, limit: nat, rounds: nat)
    requires d.input == Input && (d.expandable ==> limit > 0) && d.Fits(limit, 9)
    ensures d.LongBlock(112, 14, 9, limit, rounds)
  {
    hide LittleEndian, Field, HeaderAt, HeaderSupplied, HeaderCodes, RunsAfter, RunsStart, FedHeader, FedTag;
    hide LoopingCodes, d.GoesOn;
    HeaderCounts();
    HeaderHere();
    HeaderBytes();
    LoopingItemIsZero();
    FirstTurn(d, limit);
    StuckForever(d, LoopingCodes(), 225, 31, 9, limit, rounds);
  }

  lemma TooLongForAll(d: Decoder, limit: nat, rounds: nat)
    requires d.input == Input && (d.expandable ==> limit > 0) && d.Fits(limit, 9)
    ensures d.TooLong(Blocks, Trace, 0, limit, rounds)
  {
    hide LittleEndian, BlockAt, BlockEnd, BlockAppends, BlockSupplied, FedBlock, IsFinal, Grown, d.LongBlock, d.Fits;
    var s := LittleEndian(Input);
    FirstBlock();
    d.GrownStep(limit, 9, 9);
    SecondBlock(d, Grown(limit, 9), rounds);
    assert FedBefore(s, Blocks, Trace, 0, 0) == 0;
    assert FedBefore(s, Blocks, Trace, 0, 1) == 14;
  }

  lemma OnlyAnswer(d: Decoder, limit: nat, r: Outcome, b: seq<Block>, t: seq<Point>, rounds: nat, cause: Cause)
    requires d.input == Input && (d.expandable ==> limit > 0) && d.Fits(limit, 9)
    requires d.StreamOutcome(r, b, t, Point(0, []), 0, limit, rounds, cause)
    ensures r == OutOfRounds
  {
    hide d.TooLong, d.Stopped, d.Decodes, d.Fits;
    TooLongForAll(d, limit, rounds);
    d.OneAnswer(r, b, t, cause, OutOfRounds, Blocks, Trace, cause, Point(0, []), 0, limit, rounds);
  }

  /** However many turns a block may take, the decoder answers on this input that it ran out of them, if its
      output has room for nine bytes. */
  lemma InputNeverEnds(d: Decoder, limit: nat)
    requires d.input == Input && (d.expandable ==> limit > 0) && d.Fits(limit, 9)
    ensures forall rounds :: d.TooLong(Blocks, Trace, 0, limit, rounds)
    ensures forall r, b, t, rounds, cause :: d.StreamOutcome(r, b, t, Point(0, []), 0, limit, rounds, cause) ==>
      r == OutOfRounds
  {
    hide d.TooLong, d.StreamOutcome, d.Fits;
    forall rounds ensures d.TooLong(Blocks, Trace, 0, limit, rounds) {
      TooLongForAll(d, limit, rounds);
    }
    forall r, b, t, rounds, cause | d.StreamOutcome(r, b, t, Point(0, []), 0, limit, rounds, cause)
      ensures r == OutOfRounds
    {
      OnlyAnswer(d, limit, r, b, t, rounds, cause);
    }
  }
}
