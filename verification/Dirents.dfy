/** Directory entries packed into 512-byte blocks, and the calls that read them back in chunks. */
module Dirents {
  import opened Words
  import opened Errno

  const DESCRIPTOR_MIN: int := 3
  const DIR_BLOCK_SIZE: nat := 512

  type uint16 = x: nat | x < 0x1_0000
  type uint32 = x: nat | x < 0x1_0000_0000

  datatype Option<T> = None | Some(value: T)

  datatype DirEntry = DirEntry(name: seq<byte>, is_file: bool)

  /** What a reader of one record sees. */
  datatype Record = Record(fileno: uint32, entry: DirEntry)

  // ---- alignment ----

  function AlignDown(value: nat, alignment: nat): (r: nat)
    requires value < Pow2(64) && alignment < Pow2(64)
  {
    if alignment != 0 then And(value, Not(alignment - 1, 64)) else value
  }

  function AlignUp(value: nat, alignment: nat): (r: nat)
    requires value < Pow2(64) && alignment < Pow2(64)
  {
    if alignment != 0 then And(Low(value + alignment - 1, 64), Not(alignment - 1, 64)) else value
  }

  lemma ZeroComplement(k: nat)
    ensures Not(0, k) == Pow2(k) - 1
  {
  }

  /** Clearing the low `k` bits, bit by bit. */
  lemma ClearLowBit(x: nat, k: nat, j: nat)
    requires k <= 64 && j < 64 && Pow2(k) <= Pow2(64)
    ensures Bit(And(x, Not(Pow2(k) - 1, 64)), j) == Bit(Shl(Shr(x, k), k), j)
  {
    hide Pow2, And, Shr, Shl, Not;
    BitAnd(x, Not(Pow2(k) - 1, 64), j);
    BitNot(Pow2(k) - 1, 64, j);
    ZeroComplement(k);
    BitNot(0, k, j);
    BitZero(j);
    BitShl(Shr(x, k), k, j);
    if j >= k {
      BitShr(x, k, j - k);
    }
  }

  /** Clearing the low `k` bits. */
  lemma ClearLow(x: nat, k: nat)
    requires x < Pow2(64) && k <= 64
    ensures Pow2(k) <= Pow2(64)
    ensures And(x, Not(Pow2(k) - 1, 64)) == Pow2(k) * Shr(x, k)
    ensures Pow2(k) * Shr(x, k) <= x < Pow2(k) * Shr(x, k) + Pow2(k)
  {
    hide Pow2, And, Shr, Shl, Not, Low;
    Pow2Monotone(k, 64);
    Split(x, k);
    ShlValue(Shr(x, k), k);
    forall j | 0 <= j < 64 ensures Bit(And(x, Not(Pow2(k) - 1, 64)), j) == Bit(Shl(Shr(x, k), k), j) {
      ClearLowBit(x, k, j);
    }
    SameBits(And(x, Not(Pow2(k) - 1, 64)), Shl(Shr(x, k), k), 64);
  }

  /** For a power of two, rounding down gives the greatest multiple that is not above the value. */
  lemma AlignDownIsGreatestMultiple(value: nat, k: nat, c: nat)
    requires value < Pow2(64) && k < 64
    ensures Pow2(k) < Pow2(64)
    ensures var r := AlignDown(value, Pow2(k)); r == Pow2(k) * Shr(value, k) && r <= value < r + Pow2(k)
    ensures Pow2(k) * c <= value ==> Pow2(k) * c <= AlignDown(value, Pow2(k))
  {
    hide And, Not, Shr;
    Pow2Monotone(k, 63);
    ClearLow(value, k);
    MultipleBelow(Pow2(k), Shr(value, k), c);
  }

  /** For a power of two, rounding up gives the least multiple that is not below the value. */
  lemma AlignUpIsLeastMultiple(value: nat, k: nat, c: nat)
    requires k < 64 && value + Pow2(k) <= Pow2(64)
    ensures Pow2(k) < Pow2(64) && value < Pow2(64)
    ensures var r := AlignUp(value, Pow2(k));
      r == Pow2(k) * Shr(value + Pow2(k) - 1, k) && value <= r < value + Pow2(k)
    ensures Pow2(k) * c >= value ==> Pow2(k) * c >= AlignUp(value, Pow2(k))
  {
    hide And, Not, Shr, Low;
    Pow2Monotone(k, 63);
    var x := value + Pow2(k) - 1;
    LowSmall(x, 64);
    ClearLow(x, k);
    MultipleBelow(Pow2(k), c, Shr(x, k));
  }

  /** Distinct multiples of `p` are at least `p` apart. */
  lemma MultipleBelow(p: nat, q: nat, c: nat)
    ensures p * c <= p * q || p * c >= p * q + p
  {
    if c > q {
      MulMonotone(q + 1, c, p);
      assert p * (q + 1) == p * q + p;
    } else {
      MulMonotone(c, q, p);
    }
  }

  /** What the two sizes in this file align to. */
  lemma RecordLength(n: nat)
    requires n <= 255
    ensures 4 < Pow2(64) && 8 + n + 1 < Pow2(64)
    ensures var reclen := AlignUp(8 + n + 1, 4); 9 + n <= reclen <= 264 && reclen == (12 + n) / 4 * 4
  {
    Pow2Monotone(32, 64);
    Pow2Values();
    assert Pow2(2) == 4;
    AlignUpIsLeastMultiple(8 + n + 1, 2, 66);
    assert Shr(12 + n, 2) == Shr((12 + n) / 2 / 2, 0) == (12 + n) / 4;
    hide AlignUp, Pow2;
  }

  lemma WholeBlocks(nbytes: nat)
    requires nbytes < 0x8000_0000
    ensures DIR_BLOCK_SIZE < Pow2(64) && nbytes < Pow2(64)
    ensures AlignDown(nbytes, DIR_BLOCK_SIZE) == nbytes / DIR_BLOCK_SIZE * DIR_BLOCK_SIZE
  {
    hide AlignDown, Pow2, Shr;
    Pow2Monotone(32, 64);
    Pow2Values();
    AlignDownIsGreatestMultiple(nbytes, 9, 0);
  }

  // ---- little-endian fields ----

  function Le16(x: uint16): (r: seq<byte>)
    ensures |r| == 2
  {
    [x % 256, x / 256]
  }

  function Le32(x: uint32): (r: seq<byte>)
    ensures |r| == 4
  {
    Le16(x % 0x1_0000) + Le16(x / 0x1_0000)
  }

  function Read16(b: seq<byte>, at: nat): uint16
    requires at + 2 <= |b|
  {
    var lo: nat, hi: nat := b[at], b[at + 1];
    lo + 256 * hi
  }

  function Read32(b: seq<byte>, at: nat): uint32
    requires at + 4 <= |b|
  {
    var lo: nat, hi: nat := Read16(b, at), Read16(b, at + 2);
    lo + 0x1_0000 * hi
  }

  /** Overwrite part of a buffer. */
  function Store(b: seq<byte>, at: nat, data: seq<byte>): (r: seq<byte>)
    requires at + |data| <= |b|
    ensures |r| == |b|
    ensures forall i :: 0 <= i < |b| ==> r[i] == if at <= i < at + |data| then data[i - at] else b[i]
  {
    b[..at] + data + b[at + |data|..]
  }

  // ---- the reader ----

  /** The record at the front of a buffer, with its length. */
  function FirstRecord(b: seq<byte>): (r: Option<(Record, nat)>)
    ensures r.Some? ==> 9 <= r.value.1 <= |b|
  {
    if |b| < 9 then None
    else
      var reclen: nat, namlen: nat := Read16(b, 4), b[7];
      if reclen < 9 + namlen || reclen > |b| || b[6] !in {4, 8} || b[8 + namlen] != 0 then None
      else Some((Record(Read32(b, 0), DirEntry(b[8..8 + namlen], b[6] == 8)), reclen))
  }

  /** Walk the records by their lengths, the way a caller of getdents does. */
  function Parse(b: seq<byte>): (r: Option<seq<Record>>)
    decreases |b|
  {
    if b == [] then Some([])
    else
      var first := FirstRecord(b);
      if first.None? then None
      else Join(Some([first.value.0]), Parse(b[first.value.1..]))
  }

  function Join<T>(a: Option<seq<T>>, b: Option<seq<T>>): Option<seq<T>> {
    if a.Some? && b.Some? then Some(a.value + b.value) else None
  }

  /** Walk each block on its own: succeeds only when every record lies inside one block and the
      records of a block fill it. */
  function ParseBlocks(b: seq<byte>): (r: Option<seq<Record>>)
    decreases |b|
  {
    if b == [] then Some([])
    else if |b| < DIR_BLOCK_SIZE then None
    else Join(Parse(b[..DIR_BLOCK_SIZE]), ParseBlocks(b[DIR_BLOCK_SIZE..]))
  }

  function RecordOf(entry: DirEntry, hash: seq<byte> -> uint32): Record {
    Record(hash(entry.name), entry)
  }

  function Records(entries: seq<DirEntry>, hash: seq<byte> -> uint32): (r: seq<Record>)
    ensures |r| == |entries| && forall i :: 0 <= i < |r| ==> r[i] == RecordOf(entries[i], hash)
  {
    if entries == [] then [] else Records(entries[..|entries| - 1], hash) + [RecordOf(entries[|entries| - 1], hash)]
  }

  lemma FirstRecordConcat(a: seq<byte>, b: seq<byte>)
    requires FirstRecord(a).Some?
    ensures FirstRecord(a + b) == FirstRecord(a)
  {
    var c := a + b;
    var namlen: nat := a[7];
    assert forall i :: 0 <= i < |a| ==> c[i] == a[i];
    assert c[8..8 + namlen] == a[8..8 + namlen];
  }

  lemma {:induction false} ParseConcat(a: seq<byte>, b: seq<byte>)
    requires Parse(a).Some?
    ensures Parse(a + b) == Join(Parse(a), Parse(b))
    decreases |a|
  {
    hide FirstRecord;
    if a == [] {
      assert a + b == b;
      JoinNothing(Parse(b));
    } else {
      var first := FirstRecord(a).value;
      ParseConcat(a[first.1..], b);
      FirstRecordConcat(a, b);
      assert (a + b)[first.1..] == a[first.1..] + b;
      JoinAssociates(Some([first.0]), Parse(a[first.1..]), Parse(b));
    }
  }

  lemma JoinNothing<T>(a: Option<seq<T>>)
    ensures Join(Some([]), a) == a == Join(a, Some([]))
  {
    if a.Some? {
      assert [] + a.value == a.value == a.value + [];
    }
  }

  lemma NothingParses()
    ensures Parse([]) == Some([])
  {
  }

  /** Walking block by block and walking straight through see the same records. */
  lemma {:induction false} BlocksParse(b: seq<byte>)
    requires ParseBlocks(b).Some?
    ensures |b| % DIR_BLOCK_SIZE == 0
    ensures Parse(b) == ParseBlocks(b)
    decreases |b|
  {
    hide Parse;
    if b == [] {
      NothingParses();
    } else {
      var first, rest := b[..DIR_BLOCK_SIZE], b[DIR_BLOCK_SIZE..];
      BlocksParse(rest);
      ParseConcat(first, rest);
      assert b == first + rest;
    }
  }

  lemma {:induction false} BlocksConcat(a: seq<byte>, b: seq<byte>)
    requires |a| % DIR_BLOCK_SIZE == 0
    ensures ParseBlocks(a + b) == Join(ParseBlocks(a), ParseBlocks(b))
    decreases |a|
  {
    hide Parse;
    if a == [] {
      assert a + b == b;
      JoinNothing(ParseBlocks(b));
    } else {
      var first, rest := a[..DIR_BLOCK_SIZE], a[DIR_BLOCK_SIZE..];
      BlocksConcat(rest, b);
      assert (a + b)[..DIR_BLOCK_SIZE] == first && (a + b)[DIR_BLOCK_SIZE..] == rest + b;
      JoinAssociates(Parse(first), ParseBlocks(rest), ParseBlocks(b));
    }
  }

  lemma JoinAssociates<T>(a: Option<seq<T>>, b: Option<seq<T>>, c: Option<seq<T>>)
    ensures Join(Join(a, b), c) == Join(a, Join(b, c))
  {
    if a.Some? && b.Some? && c.Some? {
      assert (a.value + b.value) + c.value == a.value + (b.value + c.value);
    }
  }

  lemma OneBlock(b: seq<byte>)
    requires |b| == DIR_BLOCK_SIZE
    ensures ParseBlocks(b) == Parse(b)
  {
    hide Parse;
    assert b[..DIR_BLOCK_SIZE] == b && b[DIR_BLOCK_SIZE..] == [];
    assert ParseBlocks([]) == Some([]);
    JoinNothing(Parse(b));
  }

  // ---- the writer ----

  /** The bytes of exactly one record, whatever its padding holds. */
  ghost predicate IsRecord(x: seq<byte>, r: Record) {
    var name := r.entry.name;
    && |name| <= 255 && 9 + |name| <= |x| < 0x1_0000
    && Read16(x, 4) == |x|
    && Read32(x, 0) == r.fileno
    && x[6] == (if r.entry.is_file then 8 else 4)
    && x[7] == |name| && x[8..8 + |name|] == name && x[8 + |name|] == 0
  }

  lemma RecordParses(x: seq<byte>, r: Record)
    requires IsRecord(x, r)
    ensures Parse(x) == Some([r])
  {
    hide Parse;
    assert FirstRecord(x) == Some((r, |x|));
    assert x[|x|..] == [];
    OnlyRecord(x, r);
  }

  lemma OnlyRecord(x: seq<byte>, r: Record)
    requires FirstRecord(x) == Some((r, |x|)) && x[|x|..] == []
    ensures Parse(x) == Some([r])
  {
    hide FirstRecord;
    assert Parse(x[|x|..]) == Some([]);
    JoinNothing(Some([r]));
  }

  /** `*last_reclen += static_cast<uint16_t>(n)` */
  function AddToReclen(d: seq<byte>, at: nat, n: nat): (r: seq<byte>)
    requires at + 2 <= |d|
    ensures |r| == |d|
  {
    Store(d, at, Le16((Read16(d, at) + n % 0x1_0000) % 0x1_0000))
  }

  /** Giving the last record the rest of the buffer leaves a record. */
  lemma GrowRecord(x: seq<byte>, r: Record, rest: seq<byte>)
    requires IsRecord(x, r) && |x| + |rest| < 0x1_0000
    ensures IsRecord(AddToReclen(x + rest, 4, |rest|), r)
  {
    hide AddToReclen, Read16, Read32;
    var y := AddToReclen(x + rest, 4, |rest|);
    GrownLength(x, rest);
    var n := |r.entry.name|;
    assert y[8..8 + n] == x[8..8 + n];
  }

  lemma GrownLength(x: seq<byte>, rest: seq<byte>)
    requires 6 <= |x| && Read16(x, 4) == |x| && |x| + |rest| < 0x1_0000
    ensures var y := AddToReclen(x + rest, 4, |rest|);
      && Read16(y, 4) == |x| + |rest| && Read32(y, 0) == Read32(x, 0)
      && forall i :: 0 <= i < |x| && i != 4 && i != 5 ==> y[i] == x[i]
  {
    hide Store;
    assert Read16(x + rest, 4) == |x|;
    var len := |x| + |rest|;
    assert Le16(len) == [len % 256, len / 256];
  }

  method WriteRecord(d: seq<byte>, offset: nat, entry: DirEntry, reclen: uint16, h: uint32) returns (r: seq<byte>)
    requires |entry.name| <= 255 && 9 + |entry.name| <= reclen && offset + reclen <= |d|
    ensures |r| == |d| && r[..offset] == d[..offset]
    ensures forall i :: offset + 9 + |entry.name| <= i < |d| ==> r[i] == d[i]
    ensures IsRecord(r[offset..offset + reclen], Record(h, entry))
  {
    r := Store(d, offset, Le32(h));
    r := Store(r, offset + 4, Le16(reclen));
    r := r[offset + 6 := if entry.is_file then 8 else 4];
    r := r[offset + 7 := |entry.name|];
    r := Store(r, offset + 8, entry.name + [0]);
    ghost var x := r[offset..offset + reclen];
    assert forall i :: 0 <= i < reclen ==> x[i] == r[offset + i];
    assert x[..4] == Le32(h) && x[4..6] == Le16(reclen);
    FieldsReadBack(x, h, reclen);
    assert x[8..8 + |entry.name|] == entry.name;
    assert r[..offset] == d[..offset];
  }

  lemma FieldsReadBack(x: seq<byte>, h: uint32, reclen: uint16)
    requires |x| >= 6 && x[..4] == Le32(h) && x[4..6] == Le16(reclen)
    ensures Read32(x, 0) == h && Read16(x, 4) == reclen
  {
    assert x[0] == x[..4][0] && x[1] == x[..4][1] && x[2] == x[..4][2] && x[3] == x[..4][3];
    assert x[4] == x[4..6][0] && x[5] == x[4..6][1];
    assert Le32(h)[0] == h % 0x1_0000 % 256 && Le32(h)[1] == h % 0x1_0000 / 256;
    assert Le32(h)[2] == h / 0x1_0000 % 256 && Le32(h)[3] == h / 0x1_0000 / 256;
  }

  // ---- the bytes of a listing ----

  function Zeros(n: nat): (r: seq<byte>)
    ensures |r| == n
  {
    seq(n, _ => 0)
  }

  /** A record of `reclen` bytes: hash, length, type, name, and zeros from the end of the name on. */
  function RecordBytes(e: DirEntry, h: uint32, reclen: nat): (r: seq<byte>)
    requires |e.name| <= 255 && 9 + |e.name| <= reclen < 0x1_0000
    ensures |r| == reclen
  {
    Le32(h) + Le16(reclen) + [if e.is_file then 8 else 4, |e.name|] + e.name + Zeros(reclen - 8 - |e.name|)
  }

  /** The length of a record before it is stretched: a multiple of four. */
  function RecordSize(e: DirEntry): (n: nat)
    ensures n % 4 == 0 && 9 + |e.name| <= n < 13 + |e.name|
  {
    (12 + |e.name|) / 4 * 4
  }

  ghost predicate Packable(entries: seq<DirEntry>) {
    forall i :: 0 <= i < |entries| ==> |entries[i].name| <= 255
  }

  /** How much of the last block the entries take up; a block is begun only for a record that does not fit. */
  function Fill(entries: seq<DirEntry>): nat {
    if entries == [] then DIR_BLOCK_SIZE
    else
      var f, n := Fill(entries[..|entries| - 1]), RecordSize(entries[|entries| - 1]);
      if f + n > DIR_BLOCK_SIZE then n else f + n
  }

  lemma {:induction false} FillBounds(entries: seq<DirEntry>)
    requires Packable(entries)
    ensures Fill(entries) <= DIR_BLOCK_SIZE && (entries != [] ==> Fill(entries) >= RecordSize(entries[|entries| - 1]))
  {
    if entries != [] {
      FillBounds(entries[..|entries| - 1]);
    }
  }

  /** What comes before the last record: records one after the other, the last of each block but this one
      stretched to its end. */
  ghost function Before(entries: seq<DirEntry>, hash: seq<byte> -> uint32): (r: seq<byte>)
    requires Packable(entries) && entries != []
    decreases |entries|, 0
  {
    var front := entries[..|entries| - 1];
    FillBounds(front);
    if front == [] then []
    else
      var fits := Fill(front) + RecordSize(entries[|entries| - 1]) <= DIR_BLOCK_SIZE;
      Listing(front, hash, if fits then 0 else DIR_BLOCK_SIZE - Fill(front))
  }

  /** The records of the entries, the last one stretched by `more` bytes. */
  ghost function Listing(entries: seq<DirEntry>, hash: seq<byte> -> uint32, more: nat): (r: seq<byte>)
    requires Packable(entries) && entries != [] && more <= DIR_BLOCK_SIZE
    decreases |entries|, 1
  {
    var e := entries[|entries| - 1];
    Before(entries, hash) + RecordBytes(e, hash(e.name), RecordSize(e) + more)
  }

  /** The whole listing fills its blocks. */
  ghost function ListingBytes(entries: seq<DirEntry>, hash: seq<byte> -> uint32): seq<byte>
    requires Packable(entries)
  {
    FillBounds(entries);
    if entries == [] then [] else Listing(entries, hash, DIR_BLOCK_SIZE - Fill(entries))
  }

  /** Adding to the length field of a record with zeros behind it stretches it over them. */
  lemma Stretch(d: seq<byte>, e: DirEntry, h: uint32, n: nat, m: nat)
    requires |e.name| <= 255 && 9 + |e.name| <= n && n + m < 0x1_0000
    ensures AddToReclen(d + RecordBytes(e, h, n) + Zeros(m), |d| + 4, m) == d + RecordBytes(e, h, n + m)
  {
    hide Le32;
    var x, y := d + RecordBytes(e, h, n) + Zeros(m), d + RecordBytes(e, h, n + m);
    var at := |d| + 4;
    assert x[at] == Le16(n)[0] && x[at + 1] == Le16(n)[1];
    assert Read16(x, at) == n;
    var z := Store(x, at, Le16(n + m));
    forall i | 0 <= i < |z| ensures z[i] == y[i] {
    }
  }

  /** The fields of a record and zeros behind them are all of it. */
  lemma OnlyBytes(x: seq<byte>, e: DirEntry, h: uint32)
    requires IsRecord(x, Record(h, e)) && forall i :: 9 + |e.name| <= i < |x| ==> x[i] == 0
    ensures x == RecordBytes(e, h, |x|)
  {
    var n := 8 + |e.name|;
    assert x == x[..4] + x[4..6] + x[6..8] + x[8..n] + x[n..];
    OnlyFields(x, h);
    assert x[6..8] == [if e.is_file then 8 else 4, |e.name|];
    assert x[n..] == Zeros(|x| - n);
  }

  lemma OnlyFields(x: seq<byte>, h: uint32)
    requires 6 <= |x| < 0x1_0000 && Read16(x, 4) == |x| && Read32(x, 0) == h
    ensures x[..4] == Le32(h) && x[4..6] == Le16(|x|)
  {
    assert x[..4] == Le16(Read16(x, 0)) + Le16(Read16(x, 2));
    assert x[4..6] == Le16(Read16(x, 4));
  }

  /** The loop state of `PackDirents`, byte by byte. */
  ghost predicate Exact(d: seq<byte>, offset: nat, last_reclen_offset: nat, entries: seq<DirEntry>,
                        hash: seq<byte> -> uint32)
    requires Packable(entries)
  {
    FillBounds(entries);
    if entries == [] then d == [] && offset == 0
    else
      && d == Listing(entries, hash, 0) + Zeros(DIR_BLOCK_SIZE - Fill(entries))
      && offset == |Listing(entries, hash, 0)| && last_reclen_offset == |Before(entries, hash)| + 4
  }

  lemma ExactBounds(d: seq<byte>, offset: nat, last_reclen_offset: nat, entries: seq<DirEntry>,
                    hash: seq<byte> -> uint32)
    requires Packable(entries) && Exact(d, offset, last_reclen_offset, entries, hash)
    ensures entries != [] ==> |d| - offset == DIR_BLOCK_SIZE - Fill(entries) && last_reclen_offset + 2 <= |d|
    ensures entries != [] ==> d[..offset] == Listing(entries, hash, 0) && forall i :: offset <= i < |d| ==> d[i] == 0
    ensures entries == [] ==> d == [] && offset == 0 && ListingBytes(entries, hash) == []
  {
    FillBounds(entries);
    hide Listing;
  }

  lemma NothingExact(hash: seq<byte> -> uint32)
    ensures Exact([], 0, 0, [], hash)
  {
  }

  /** Closing the block makes the listing of the entries so far. */
  lemma ExactClose(d: seq<byte>, offset: nat, last_reclen_offset: nat, entries: seq<DirEntry>,
                   hash: seq<byte> -> uint32)
    requires Packable(entries) && Exact(d, offset, last_reclen_offset, entries, hash) && entries != []
    ensures last_reclen_offset + 2 <= |d|
    ensures AddToReclen(d, last_reclen_offset, |d| - offset) == ListingBytes(entries, hash)
  {
    hide AddToReclen, Before, RecordBytes;
    ExactBounds(d, offset, last_reclen_offset, entries, hash);
    FillBounds(entries);
    var e := entries[|entries| - 1];
    Stretch(Before(entries, hash), e, hash(e.name), RecordSize(e), DIR_BLOCK_SIZE - Fill(entries));
  }

  /** A record written into the zeros behind `w`, where the records before it end. */
  lemma ExactRecord(w: seq<byte>, m: nat, d: seq<byte>, entries: seq<DirEntry>, e: DirEntry, hash: seq<byte> -> uint32)
    requires Packable(entries) && |e.name| <= 255 && RecordSize(e) <= m && |d| == |w| + m && d[..|w|] == w
    requires IsRecord(d[|w|..|w| + RecordSize(e)], Record(hash(e.name), e))
    requires forall i :: |w| + 9 + |e.name| <= i < |d| ==> d[i] == 0
    requires Before(entries + [e], hash) == w && m - RecordSize(e) == DIR_BLOCK_SIZE - Fill(entries + [e])
    ensures Packable(entries + [e]) && Exact(d, |w| + RecordSize(e), |w| + 4, entries + [e], hash)
  {
    hide IsRecord, RecordBytes, Before, Fill;
    var n := RecordSize(e);
    var x := d[|w|..|w| + n];
    assert forall i :: 9 + |e.name| <= i < n ==> x[i] == d[|w| + i];
    RecordLongEnough(x, Record(hash(e.name), e));
    OnlyBytes(x, e, hash(e.name));
    assert d == d[..|w|] + x + d[|w| + n..];
    assert d[|w| + n..] == Zeros(m - n);
    FillBounds(entries + [e]);
  }

  lemma RecordLongEnough(x: seq<byte>, r: Record)
    requires IsRecord(x, r)
    ensures 9 + |r.entry.name| <= |x| < 0x1_0000
  {
  }

  /** The next record in the block, and the first one of the next block. */
  lemma BeforeNext(entries: seq<DirEntry>, e: DirEntry, hash: seq<byte> -> uint32)
    requires Packable(entries) && |e.name| <= 255
    ensures Packable(entries + [e]) && Fill(entries) <= DIR_BLOCK_SIZE
    ensures entries != [] && Fill(entries) + RecordSize(e) <= DIR_BLOCK_SIZE ==>
      && Fill(entries + [e]) == Fill(entries) + RecordSize(e)
      && Before(entries + [e], hash) == Listing(entries, hash, 0)
    ensures entries == [] || Fill(entries) + RecordSize(e) > DIR_BLOCK_SIZE ==>
      Fill(entries + [e]) == RecordSize(e) && Before(entries + [e], hash) == ListingBytes(entries, hash)
  {
    hide Listing, RecordSize;
    FillBounds(entries);
    var all := entries + [e];
    assert all[..|all| - 1] == entries && all[|all| - 1] == e;
    SizePositive(e);
  }

  lemma SizePositive(e: DirEntry)
    ensures RecordSize(e) > 0
  {
  }

  /** The loop state of `PackDirents`: the finished blocks and the records of the last block before its
      last one parse to `rs` without its last, and the last record has not been given its padding yet. */
  ghost predicate Packed(d: seq<byte>, offset: nat, last_reclen_offset: nat, rs: seq<Record>) {
    if rs == [] then d == [] && offset == 0 && last_reclen_offset == 0
    else
      && |d| >= DIR_BLOCK_SIZE && |d| % DIR_BLOCK_SIZE == 0
      && |d| - DIR_BLOCK_SIZE + 4 <= last_reclen_offset < offset + 4 <= |d| + 4
      && var start, last := |d| - DIR_BLOCK_SIZE, last_reclen_offset - 4;
      && IsRecord(d[last..offset], rs[|rs| - 1])
      && Join(ParseBlocks(d[..start]), Parse(d[start..last])) == Some(rs[..|rs| - 1])
  }

  lemma LastRecordAppends(done: seq<byte>, before: seq<byte>, y: seq<byte>, rs: seq<Record>, r: Record)
    requires |done| % DIR_BLOCK_SIZE == 0 && |before| + |y| == DIR_BLOCK_SIZE && IsRecord(y, r)
    requires Join(ParseBlocks(done), Parse(before)) == Some(rs)
    ensures ParseBlocks(done + (before + y)) == Some(rs + [r])
  {
    hide Parse, ParseBlocks, IsRecord;
    RecordParses(y, r);
    ParseConcat(before, y);
    OneBlock(before + y);
    BlocksConcat(done, before + y);
    JoinAssociates(ParseBlocks(done), Parse(before), Some([r]));
  }

  /** Closing a block gives its unused bytes to its last record, and then every block parses. */
  lemma CloseBlock(d: seq<byte>, offset: nat, last_reclen_offset: nat, rs: seq<Record>)
    requires rs != [] && Packed(d, offset, last_reclen_offset, rs)
    ensures last_reclen_offset + 2 <= |d|
    ensures ParseBlocks(AddToReclen(d, last_reclen_offset, |d| - offset)) == Some(rs)
  {
    hide Parse, ParseBlocks, IsRecord, AddToReclen;
    PackedBounds(d, offset, last_reclen_offset, rs);
    var start, last := |d| - DIR_BLOCK_SIZE, last_reclen_offset - 4;
    var x, rest := d[last..offset], d[offset..];
    var y := AddToReclen(x + rest, 4, |rest|);
    GrownInPlace(d, offset, last);
    GrowRecord(x, rs[|rs| - 1], rest);
    LastRecordAppends(d[..start], d[start..last], y, rs[..|rs| - 1], rs[|rs| - 1]);
    assert d[..last] + y == d[..start] + (d[start..last] + y);
    assert rs[..|rs| - 1] + [rs[|rs| - 1]] == rs;
  }

  lemma GrownInPlace(d: seq<byte>, offset: nat, last: nat)
    requires last + 6 <= offset <= |d|
    ensures AddToReclen(d, last + 4, |d| - offset)
         == d[..last] + AddToReclen(d[last..offset] + d[offset..], 4, |d| - offset)
  {
    assert d[last..offset] + d[offset..] == d[last..];
    assert Read16(d, last + 4) == Read16(d[last..], 4);
  }

  /** A record written after the last one. */
  lemma NextInBlock(d: seq<byte>, e: seq<byte>, offset: nat, last_reclen_offset: nat, reclen: nat,
                    rs: seq<Record>, r: Record)
    requires rs != [] && Packed(d, offset, last_reclen_offset, rs)
    requires |e| == |d| && offset + reclen <= |d| && e[..offset] == d[..offset]
    requires IsRecord(e[offset..offset + reclen], r)
    ensures Packed(e, offset + reclen, offset + 4, rs + [r])
  {
    hide Parse, ParseBlocks, IsRecord;
    var start, last := |d| - DIR_BLOCK_SIZE, last_reclen_offset - 4;
    var x := d[last..offset];
    RecordParses(x, rs[|rs| - 1]);
    ParseConcat(d[start..last], x);
    assert e[..offset][..start] == e[..start] && d[..offset][..start] == d[..start];
    assert e[start..offset] == d[start..last] + x by {
      assert e[start..offset] == e[..offset][start..] == d[..offset][start..] == d[start..offset];
    }
    JoinAssociates(ParseBlocks(d[..start]), Parse(d[start..last]), Some([rs[|rs| - 1]]));
    assert rs[..|rs| - 1] + [rs[|rs| - 1]] == rs;
    assert (rs + [r])[..|rs|] == rs;
    ParseNonempty(e[offset..offset + reclen], r);
  }

  lemma ParseNonempty(x: seq<byte>, r: Record)
    requires IsRecord(x, r)
    ensures |x| >= 9
  {
  }

  /** A record written at the start of a new block. */
  lemma FirstInBlock(c: seq<byte>, e: seq<byte>, reclen: nat, rs: seq<Record>, r: Record)
    requires ParseBlocks(c) == Some(rs) && |c| % DIR_BLOCK_SIZE == 0
    requires |e| == |c| + DIR_BLOCK_SIZE && reclen <= DIR_BLOCK_SIZE && e[..|c|] == c
    requires IsRecord(e[|c|..|c| + reclen], r)
    ensures Packed(e, |c| + reclen, |c| + 4, rs + [r])
  {
    hide Parse, ParseBlocks, IsRecord, Join;
    assert e[|c|..|c|] == [];
    NothingParses();
    JoinNothing(ParseBlocks(c));
    assert (rs + [r])[..|rs|] == rs;
    ParseNonempty(e[|c|..|c| + reclen], r);
  }

  /** What is known between two entries: the blocks parse to the entries, and their bytes are these. */
  ghost predicate Listed(d: seq<byte>, offset: nat, last_reclen_offset: nat, entries: seq<DirEntry>,
                         hash: seq<byte> -> uint32)
  {
    && Packable(entries)
    && Packed(d, offset, last_reclen_offset, Records(entries, hash))
    && Exact(d, offset, last_reclen_offset, entries, hash)
  }

  lemma ListedBounds(d: seq<byte>, offset: nat, last_reclen_offset: nat, entries: seq<DirEntry>,
                     hash: seq<byte> -> uint32)
    requires Listed(d, offset, last_reclen_offset, entries, hash)
    ensures offset <= |d| && |d| % DIR_BLOCK_SIZE == 0 && (d == [] <==> entries == [])
    ensures entries != [] ==> last_reclen_offset + 2 <= offset
  {
    hide Packed, Exact;
    PackedBounds(d, offset, last_reclen_offset, Records(entries, hash));
    ExactBounds(d, offset, last_reclen_offset, entries, hash);
  }

  lemma NothingListed(hash: seq<byte> -> uint32)
    ensures Listed([], 0, 0, [], hash)
  {
    PackedEmpty();
    NothingExact(hash);
  }

  /** Give the last record the rest of its block. */
  method CloseListing(dirents: seq<byte>, offset: nat, last_reclen_offset: nat, ghost entries: seq<DirEntry>,
                      ghost hash: seq<byte> -> uint32)
    returns (r: seq<byte>)
    requires Listed(dirents, offset, last_reclen_offset, entries, hash)
    ensures ParseBlocks(r) == Some(Records(entries, hash)) && |r| % DIR_BLOCK_SIZE == 0
    ensures r == ListingBytes(entries, hash)
  {
    hide Packed, ParseBlocks, Exact, ListingBytes, AddToReclen;
    r := dirents;
    PackedBounds(dirents, offset, last_reclen_offset, Records(entries, hash));
    ExactBounds(dirents, offset, last_reclen_offset, entries, hash);
    if dirents != [] {
      CloseBlock(dirents, offset, last_reclen_offset, Records(entries, hash));
      ExactClose(dirents, offset, last_reclen_offset, entries, hash);
      r := AddToReclen(dirents, last_reclen_offset, |dirents| - offset);
    }
  }

  /** A record behind the last one, or at the start of a new block behind `d`. */
  lemma ListedNext(d: seq<byte>, e: seq<byte>, offset: nat, last_reclen_offset: nat, entries: seq<DirEntry>,
                   entry: DirEntry, hash: seq<byte> -> uint32)
    requires Listed(d, offset, last_reclen_offset, entries, hash) && entries != [] && |entry.name| <= 255
    requires |e| == |d| && offset + RecordSize(entry) <= |d| && e[..offset] == d[..offset]
    requires IsRecord(e[offset..offset + RecordSize(entry)], RecordOf(entry, hash))
    requires forall i :: offset + 9 + |entry.name| <= i < |d| ==> e[i] == d[i]
    ensures Listed(e, offset + RecordSize(entry), offset + 4, entries + [entry], hash)
  {
    hide Packed, IsRecord, Exact, Listing, ListingBytes, Before, Fill, RecordSize;
    ExactBounds(d, offset, last_reclen_offset, entries, hash);
    BeforeNext(entries, entry, hash);
    RecordsAppend(entries, entry, hash);
    NextInBlock(d, e, offset, last_reclen_offset, RecordSize(entry), Records(entries, hash), RecordOf(entry, hash));
    ExactRecord(d[..offset], |d| - offset, e, entries, entry, hash);
  }

  lemma ListedFirst(c: seq<byte>, e: seq<byte>, entries: seq<DirEntry>, entry: DirEntry, hash: seq<byte> -> uint32)
    requires Packable(entries) && |entry.name| <= 255 && |c| % DIR_BLOCK_SIZE == 0
    requires ParseBlocks(c) == Some(Records(entries, hash)) && c == ListingBytes(entries, hash)
    requires entries != [] ==> Fill(entries) + RecordSize(entry) > DIR_BLOCK_SIZE
    requires |e| == |c| + DIR_BLOCK_SIZE && e[..|c|] == c && RecordSize(entry) <= DIR_BLOCK_SIZE
    requires IsRecord(e[|c|..|c| + RecordSize(entry)], RecordOf(entry, hash))
    requires forall i :: |c| + 9 + |entry.name| <= i < |e| ==> e[i] == 0
    ensures Listed(e, |c| + RecordSize(entry), |c| + 4, entries + [entry], hash)
  {
    hide Packed, IsRecord, Exact, Listing, ListingBytes, Before, Fill, RecordSize, ParseBlocks;
    BeforeNext(entries, entry, hash);
    RecordsAppend(entries, entry, hash);
    FirstInBlock(c, e, RecordSize(entry), Records(entries, hash), RecordOf(entry, hash));
    ExactRecord(c, DIR_BLOCK_SIZE, e, entries, entry, hash);
  }

  lemma RecordsAppend(entries: seq<DirEntry>, entry: DirEntry, hash: seq<byte> -> uint32)
    ensures Records(entries + [entry], hash) == Records(entries, hash) + [RecordOf(entry, hash)]
  {
    assert (entries + [entry])[..|entries|] == entries;
  }

  /** Pack a directory listing. `None` is the process exiting on a name that is too long. */
  method PackDirents(entries: seq<DirEntry>, hash: seq<byte> -> uint32) returns (r: Option<seq<byte>>)
    ensures r.None? <==> exists i :: 0 <= i < |entries| && |entries[i].name| > 255
    ensures r.Some? ==> ParseBlocks(r.value) == Some(Records(entries, hash)) && |r.value| % DIR_BLOCK_SIZE == 0
    ensures r.Some? ==> Packable(entries) && r.value == ListingBytes(entries, hash)
  {
    hide Listed, ParseBlocks, IsRecord, Pow2, AlignUp, ListingBytes, Fill, Exact;
    var dirents: seq<byte> := [];
    var offset: nat, last_reclen_offset: nat := 0, 0;
    NothingListed(hash);
    for i := 0 to |entries|
      invariant forall k :: 0 <= k < i ==> |entries[k].name| <= 255
      invariant Listed(dirents, offset, last_reclen_offset, entries[..i], hash)
    {
      var entry := entries[i];
      var name := entry.name;
      if |name| > 255 {
        return None;
      }
      RecordLength(|name|);
      var reclen := AlignUp(8 + |name| + 1, 4);
      assert entries[..i + 1] == entries[..i] + [entry];
      ListedBounds(dirents, offset, last_reclen_offset, entries[..i], hash);
      ListedFill(dirents, offset, last_reclen_offset, entries[..i], hash);
      if offset + reclen > |dirents| {
        dirents := CloseListing(dirents, offset, last_reclen_offset, entries[..i], hash);
        offset := |dirents|;
        ghost var closed := dirents;
        dirents := dirents + seq(DIR_BLOCK_SIZE, _ => 0);
        assert dirents[..offset] == closed;
        dirents := WriteRecord(dirents, offset, entry, reclen, hash(name));
        ListedFirst(closed, dirents, entries[..i], entry, hash);
      } else {
        ghost var was := dirents;
        dirents := WriteRecord(dirents, offset, entry, reclen, hash(name));
        ListedNext(was, dirents, offset, last_reclen_offset, entries[..i], entry, hash);
      }
      last_reclen_offset := offset + 4;
      offset := offset + reclen;
    }
    assert entries[..|entries|] == entries;
    dirents := CloseListing(dirents, offset, last_reclen_offset, entries, hash);
    return Some(dirents);
  }

  lemma ListedFill(d: seq<byte>, offset: nat, last_reclen_offset: nat, entries: seq<DirEntry>,
                   hash: seq<byte> -> uint32)
    requires Listed(d, offset, last_reclen_offset, entries, hash)
    ensures Packable(entries) && (entries == [] ==> offset == 0)
    ensures entries != [] ==> |d| - offset == DIR_BLOCK_SIZE - Fill(entries)
  {
    hide Packed, Exact;
    ExactBounds(d, offset, last_reclen_offset, entries, hash);
  }

  lemma PackedEmpty()
    ensures Packed([], 0, 0, [])
  {
  }

  lemma PackedBounds(d: seq<byte>, offset: nat, last_reclen_offset: nat, rs: seq<Record>)
    requires Packed(d, offset, last_reclen_offset, rs)
    ensures offset <= |d| && |d| % DIR_BLOCK_SIZE == 0 && (d == [] <==> rs == [])
    ensures rs == [] ==> ParseBlocks(d) == Some(rs) && offset == 0
    ensures rs != [] ==> last_reclen_offset + 2 <= offset
  {
    if rs != [] {
      ParseNonempty(d[last_reclen_offset - 4..offset], rs[|rs| - 1]);
    }
  }

  // ---- the calls that read ----

  class File {
    var is_opened: bool
    var directory: bool
    var dirents: seq<byte>
    var dents_offset: nat
  }

  /** What a read of `count` bytes at `offset` hands out. */
  function Chunk(d: seq<byte>, offset: nat, count: nat): (r: seq<byte>)
    ensures |r| <= count
  {
    if offset >= |d| then []
    else if count < |d| - offset then d[offset..offset + count]
    else d[offset..]
  }

  method ReadDirectory(file: File, buf: array<byte>, count: nat) returns (bytes: nat)
    requires count <= buf.Length
    modifies file`dents_offset, buf
    ensures bytes == |Chunk(file.dirents, old(file.dents_offset), count)|
    ensures buf[..] == Chunk(file.dirents, old(file.dents_offset), count) + old(buf[bytes..])
    ensures file.dents_offset == old(file.dents_offset) + bytes
  {
    var remaining := if file.dents_offset < |file.dirents| then |file.dirents| - file.dents_offset else 0;
    bytes := if count < remaining then count else remaining;
    if bytes != 0 {
      forall i | 0 <= i < bytes {
        buf[i] := file.dirents[file.dents_offset + i];
      }
      assert buf[..bytes] == Chunk(file.dirents, file.dents_offset, count);
      assert buf[bytes..] == old(buf[bytes..]);
      file.dents_offset := file.dents_offset + bytes;
    }
  }

  /** `FileDescriptors::GetFile`; the unsigned cast sends a descriptor below the minimum out of range.  Descriptor
      `i + 3` is the one in slot `i`, and there is no other. */
  function GetFile(m_files: seq<File?>, d: int): (r: File?)
    ensures r == if 3 <= d < 3 + |m_files| then m_files[d - 3] else null
  {
    var index := d - DESCRIPTOR_MIN;
    if 0 <= index < |m_files| then m_files[index] else null
  }

  class FileDescriptors {
    var m_files: seq<File?>

    constructor ()
      ensures m_files == []
    {
      m_files := [];
    }

    /** A new file under the lowest descriptor not in use. */
    method CreateDescriptor() returns (d: int)
      modifies this
      ensures GetFile(old(m_files), d) == null
      ensures 3 <= d && forall e :: 3 <= e < d ==> GetFile(old(m_files), e) != null
      ensures GetFile(m_files, d) != null && fresh(GetFile(m_files, d))
      ensures !GetFile(m_files, d).is_opened && !GetFile(m_files, d).directory
      ensures forall e :: e != d ==> GetFile(m_files, e) == GetFile(old(m_files), e)
    {
      var file := new File;
      file.is_opened, file.directory := false, false;
      for index := 0 to |m_files|
        invariant m_files == old(m_files) && forall k :: 0 <= k < index ==> m_files[k] != null
      {
        if m_files[index] == null {
          m_files := m_files[index := file];
          return index + DESCRIPTOR_MIN;
        }
      }
      m_files := m_files + [file];
      return |m_files| + DESCRIPTOR_MIN - 1;
    }

    /** Needs a descriptor in use that is closed, where the source ends the process. */
    method DeleteDescriptor(d: int)
      requires GetFile(m_files, d) != null && !GetFile(m_files, d).is_opened
      modifies this
      ensures GetFile(m_files, d) == null
      ensures forall e :: e != d ==> GetFile(m_files, e) == GetFile(old(m_files), e)
    {
      var index := d - DESCRIPTOR_MIN;
      m_files := m_files[index := null];
    }
  }

  /** The first error of a call, if any, in the order in which the code looks for them. */
  ghost function DirentsError(m_files: seq<File?>, fd: int, buf: array?<byte>, nbytes: int): (r: int)
    reads set file | file in m_files
  {
    var file := if 3 <= fd < 3 + |m_files| then m_files[fd - 3] else null;
    if fd < 3 then KERNEL_ERROR_EBADF
    else if buf == null then KERNEL_ERROR_EFAULT
    else if file == null then KERNEL_ERROR_EBADF
    else if !file.directory || nbytes < DIR_BLOCK_SIZE then KERNEL_ERROR_EINVAL
    else if file.dents_offset > |file.dirents| || file.dents_offset % DIR_BLOCK_SIZE != 0 then KERNEL_ERROR_EINVAL
    else 0
  }

  /** Read whole blocks of a directory. The result is an error code or the number of bytes read. */
  method KernelGetdirentries(m_files: seq<File?>, fd: int, buf: array?<byte>, nbytes: int, basep: array?<int>)
    returns (r: int)
    requires nbytes < 0x8000_0000
    requires buf != null ==> nbytes <= buf.Length
    requires basep != null ==> basep.Length == 1
    requires forall file :: file in m_files && file != null && file.directory ==> file.is_opened
    modifies (set file | file in m_files && file != null)`dents_offset, buf, basep
    ensures var error := old(DirentsError(m_files, fd, buf, nbytes));
      if error != 0 then
        && r == error
        && (forall file :: file in m_files && file != null ==> file.dents_offset == old(file.dents_offset))
        && (buf != null ==> buf[..] == old(buf[..]))
      else
        && 3 <= fd < 3 + |m_files| && m_files[fd - 3] != null
        && var file := m_files[fd - 3];
        var chunk := Chunk(file.dirents, old(file.dents_offset), nbytes / DIR_BLOCK_SIZE * DIR_BLOCK_SIZE);
        && r == |chunk|
        && buf[..] == chunk + old(buf[..])[r..]
        && file.dents_offset == old(file.dents_offset) + r
        && (basep != null ==> basep[0] == old(file.dents_offset))
        && (forall other :: other in m_files && other != null && other != file
              ==> other.dents_offset == old(other.dents_offset))
  {
    if fd < DESCRIPTOR_MIN {
      return KERNEL_ERROR_EBADF;
    }
    if buf == null {
      return KERNEL_ERROR_EFAULT;
    }
    var file := GetFile(m_files, fd);
    if file == null {
      return KERNEL_ERROR_EBADF;
    }
    if !file.directory || nbytes < DIR_BLOCK_SIZE {
      return KERNEL_ERROR_EINVAL;
    }
    if file.dents_offset > |file.dirents| || file.dents_offset % DIR_BLOCK_SIZE != 0 {
      return KERNEL_ERROR_EINVAL;
    }
    if basep != null {
      basep[0] := file.dents_offset;
    }
    WholeBlocks(nbytes);
    r := ReadDirectory(file, buf, AlignDown(nbytes, DIR_BLOCK_SIZE));
  }

  // ---- a whole listing ----

  /** What successive calls with buffers of these sizes hand out, from `offset` on. */
  function Chunks(d: seq<byte>, offset: nat, sizes: seq<nat>): (r: seq<seq<byte>>)
    ensures |r| == |sizes|
    decreases |sizes|
  {
    if sizes == [] then []
    else
      var chunk := Chunk(d, offset, sizes[0] / DIR_BLOCK_SIZE * DIR_BLOCK_SIZE);
      [chunk] + Chunks(d, offset + |chunk|, sizes[1..])
  }

  /** The number of bytes in all chunks. */
  function Total(chunks: seq<seq<byte>>): nat {
    if chunks == [] then 0 else |chunks[0]| + Total(chunks[1..])
  }

  lemma WholeChunk(d: seq<byte>, offset: nat, size: nat)
    requires offset <= |d| && |d| % DIR_BLOCK_SIZE == 0 && offset % DIR_BLOCK_SIZE == 0
    ensures var n := |Chunk(d, offset, size / DIR_BLOCK_SIZE * DIR_BLOCK_SIZE)|;
      offset + n <= |d| && (offset + n) % DIR_BLOCK_SIZE == 0
  {
  }

  lemma {:induction false} ChunksAppend(d: seq<byte>, offset: nat, sizes: seq<nat>, size: nat)
    requires offset <= |d| && |d| % DIR_BLOCK_SIZE == 0 && offset % DIR_BLOCK_SIZE == 0
    ensures var chunks := Chunks(d, offset, sizes); var at := offset + Total(chunks);
      && at <= |d| && at % DIR_BLOCK_SIZE == 0
      && var chunk := Chunk(d, at, size / DIR_BLOCK_SIZE * DIR_BLOCK_SIZE);
         && Chunks(d, offset, sizes + [size]) == chunks + [chunk]
         && Total(chunks + [chunk]) == Total(chunks) + |chunk|
    decreases |sizes|
  {
    hide Chunk;
    var more := sizes + [size];
    if sizes == [] {
      assert more[1..] == [];
    } else {
      var first := Chunk(d, offset, sizes[0] / DIR_BLOCK_SIZE * DIR_BLOCK_SIZE);
      WholeChunk(d, offset, sizes[0]);
      assert more[1..] == sizes[1..] + [size];
      ChunksAppend(d, offset + |first|, sizes[1..], size);
      var later := Chunks(d, offset + |first|, sizes[1..]);
      var chunk := Chunk(d, offset + |first| + Total(later), size / DIR_BLOCK_SIZE * DIR_BLOCK_SIZE);
      TotalHead(first, later);
      TotalHead(first, later + [chunk]);
      assert [first] + (later + [chunk]) == ([first] + later) + [chunk];
    }
  }

  lemma TotalHead(first: seq<byte>, later: seq<seq<byte>>)
    ensures Total([first] + later) == |first| + Total(later)
  {
    assert ([first] + later)[1..] == later;
  }

  /** What a program gets that calls `KernelGetdirentries` on one descriptor with buffers of these sizes. */
  method ListDirectory(m_files: seq<File?>, fd: int, buf: array<byte>, sizes: seq<nat>)
    returns (chunks: seq<seq<byte>>)
    requires 3 <= fd < 3 + |m_files| && m_files[fd - 3] != null && m_files[fd - 3].directory
    requires forall file :: file in m_files && file != null && file.directory ==> file.is_opened
    requires forall i :: 0 <= i < |sizes| ==> DIR_BLOCK_SIZE <= sizes[i] < 0x8000_0000 && sizes[i] <= buf.Length
    requires var file := m_files[fd - 3];
      && |file.dirents| % DIR_BLOCK_SIZE == 0 && file.dents_offset <= |file.dirents|
      && file.dents_offset % DIR_BLOCK_SIZE == 0
    modifies (set file | file in m_files && file != null)`dents_offset, buf
    ensures var file := m_files[fd - 3];
      && chunks == Chunks(file.dirents, old(file.dents_offset), sizes)
      && file.dents_offset == old(file.dents_offset) + Total(chunks)
  {
    var file := m_files[fd - 3];
    ghost var start := file.dents_offset;
    chunks := [];
    for i := 0 to |sizes|
      invariant chunks == Chunks(file.dirents, start, sizes[..i])
      invariant file.dents_offset == start + Total(chunks)
    {
      ChunksAppend(file.dirents, start, sizes[..i], sizes[i]);
      var r := KernelGetdirentries(m_files, fd, buf, sizes[i], null);
      chunks := chunks + [buf[..r]];
      assert sizes[..i + 1] == sizes[..i] + [sizes[i]];
    }
    assert sizes[..|sizes|] == sizes;
  }

  /** The records found by walking each chunk on its own. */
  function ParseChunks(chunks: seq<seq<byte>>): Option<seq<Record>> {
    if chunks == [] then Some([]) else Join(Parse(chunks[0]), ParseChunks(chunks[1..]))
  }

  /** Any run of whole blocks parses on its own, and what follows it parses to the rest. */
  lemma ChunkParses(d: seq<byte>, offset: nat, count: nat)
    requires offset <= |d| && offset % DIR_BLOCK_SIZE == 0 && count % DIR_BLOCK_SIZE == 0
    requires ParseBlocks(d[offset..]).Some?
    ensures var chunk := Chunk(d, offset, count);
      && |chunk| % DIR_BLOCK_SIZE == 0 && offset + |chunk| <= |d|
      && Parse(chunk).Some? && ParseBlocks(d[offset + |chunk|..]).Some?
      && ParseBlocks(d[offset..]) == Join(Parse(chunk), ParseBlocks(d[offset + |chunk|..]))
  {
    hide Parse, ParseBlocks;
    BlocksParse(d[offset..]);
    var chunk := Chunk(d, offset, count);
    var rest := d[offset + |chunk|..];
    assert chunk + rest == d[offset..];
    BlocksConcat(chunk, rest);
    BlocksParse(chunk);
  }

  /** A call returns nothing exactly when the calls before it have returned everything; that is the case from
      then on. */
  lemma {:induction false} EmptyIffAtEnd(d: seq<byte>, offset: nat, sizes: seq<nat>, i: nat)
    requires offset <= |d| && i < |sizes| && forall k :: 0 <= k < |sizes| ==> sizes[k] >= DIR_BLOCK_SIZE
    ensures var chunks := Chunks(d, offset, sizes);
      && offset + Total(chunks[..i]) <= |d|
      && (chunks[i] == [] <==> offset + Total(chunks[..i]) == |d|)
      && (chunks[i] == [] ==> forall k :: i <= k < |sizes| ==> chunks[k] == [])
    decreases |sizes|
  {
    var chunks := Chunks(d, offset, sizes);
    var chunk := chunks[0];
    var later := Chunks(d, offset + |chunk|, sizes[1..]);
    assert chunks[1..] == later;
    if i == 0 {
      assert chunks[..0] == [];
      forall k | 0 <= k < |sizes| && chunk == [] ensures chunks[k] == [] {
        if k > 0 {
          EmptyIffAtEnd(d, offset, sizes[1..], 0);
          assert chunks[k] == later[k - 1];
        }
      }
    } else {
      EmptyIffAtEnd(d, offset + |chunk|, sizes[1..], i - 1);
      assert chunks[i] == later[i - 1];
      assert chunks[..i] == [chunk] + later[..i - 1];
      assert chunks[..i][1..] == later[..i - 1];
      forall k | i <= k < |sizes| && chunks[i] == [] ensures chunks[k] == [] {
        assert chunks[k] == later[k - 1];
      }
    }
  }

  /** Reading a directory to its end returns every entry exactly once, in order, in chunks that can
      each be walked on their own; when a call returns nothing, everything has been returned. */
  lemma {:induction false} EveryEntryOnce(d: seq<byte>, offset: nat, sizes: seq<nat>)
    requires offset <= |d| && offset % DIR_BLOCK_SIZE == 0 && ParseBlocks(d[offset..]).Some?
    requires forall i :: 0 <= i < |sizes| ==> sizes[i] >= DIR_BLOCK_SIZE
    ensures var chunks := Chunks(d, offset, sizes); var all := ParseBlocks(d[offset..]).value;
      && (forall i :: 0 <= i < |chunks| ==> Parse(chunks[i]).Some?)
      && ParseChunks(chunks).Some? && ParseChunks(chunks).value <= all
      && (forall i :: 0 <= i < |chunks| && chunks[i] == [] ==> ParseChunks(chunks).value == all)
      && (|d| - offset <= |sizes| * DIR_BLOCK_SIZE ==> ParseChunks(chunks).value == all)
    decreases |sizes|
  {
    hide Parse, ParseBlocks;
    var all := ParseBlocks(d[offset..]).value;
    if sizes == [] {
      if |d| == offset {
        NothingLeft(d, offset);
      }
    } else {
      var count := sizes[0] / DIR_BLOCK_SIZE * DIR_BLOCK_SIZE;
      var chunk := Chunk(d, offset, count);
      ChunkParses(d, offset, count);
      EveryEntryOnce(d, offset + |chunk|, sizes[1..]);
      var chunks := Chunks(d, offset, sizes);
      var later := Chunks(d, offset + |chunk|, sizes[1..]);
      assert chunks[0] == chunk && chunks[1..] == later;
      if chunk == [] {
        NothingLeft(d, offset);
      }
    }
  }

  lemma NothingLeft(d: seq<byte>, offset: nat)
    requires offset == |d|
    ensures ParseBlocks(d[offset..]) == Some([])
  {
  }

  /** A packed listing, read from its start by calls with buffers of any sizes, gives back the entries that were
      packed, in order and none twice; all of them once some call has returned nothing. */
  lemma ListingReadBack(d: seq<byte>, entries: seq<DirEntry>, hash: seq<byte> -> uint32, sizes: seq<nat>)
    requires ParseBlocks(d) == Some(Records(entries, hash))
    requires forall i :: 0 <= i < |sizes| ==> sizes[i] >= DIR_BLOCK_SIZE
    ensures var chunks := Chunks(d, 0, sizes);
      && ParseChunks(chunks).Some? && ParseChunks(chunks).value <= Records(entries, hash)
      && (Total(chunks) == |d| <==> ParseChunks(chunks).value == Records(entries, hash))
      && (forall i :: 0 <= i < |sizes| && chunks[i] == [] ==> ParseChunks(chunks).value == Records(entries, hash))
      && (|d| <= |sizes| * DIR_BLOCK_SIZE ==> ParseChunks(chunks).value == Records(entries, hash))
  {
    hide Parse, ParseBlocks, ParseChunks, Records;
    assert d[0..] == d;
    EveryEntryOnce(d, 0, sizes);
    AllBytesAllRecords(d, 0, sizes);
  }

  /** All entries have been returned exactly when all bytes have. */
  lemma {:induction false} AllBytesAllRecords(d: seq<byte>, offset: nat, sizes: seq<nat>)
    requires offset <= |d| && offset % DIR_BLOCK_SIZE == 0 && ParseBlocks(d[offset..]).Some?
    requires forall i :: 0 <= i < |sizes| ==> sizes[i] >= DIR_BLOCK_SIZE
    ensures var chunks := Chunks(d, offset, sizes);
      && ParseChunks(chunks).Some? && offset + Total(chunks) <= |d|
      && (offset + Total(chunks) == |d| <==> ParseChunks(chunks).value == ParseBlocks(d[offset..]).value)
    decreases |sizes|
  {
    hide Parse, ParseBlocks;
    if sizes == [] {
      if offset == |d| {
        NothingLeft(d, offset);
      } else {
        assert |d[offset..]| == |d| - offset;
        SomethingLeft(d[offset..]);
      }
    } else {
      var count := sizes[0] / DIR_BLOCK_SIZE * DIR_BLOCK_SIZE;
      var chunk := Chunk(d, offset, count);
      ChunkParses(d, offset, count);
      AllBytesAllRecords(d, offset + |chunk|, sizes[1..]);
      var chunks := Chunks(d, offset, sizes);
      assert chunks[1..] == Chunks(d, offset + |chunk|, sizes[1..]);
      Cancel(Parse(chunk).value, ParseChunks(chunks[1..]).value, ParseBlocks(d[offset + |chunk|..]).value);
    }
  }

  lemma Cancel<T>(a: seq<T>, x: seq<T>, y: seq<T>)
    ensures a + x == a + y <==> x == y
  {
    assert (a + x)[|a|..] == x && (a + y)[|a|..] == y;
  }

  lemma SomethingLeft(b: seq<byte>)
    requires ParseBlocks(b).Some? && b != []
    ensures ParseBlocks(b).value != []
  {
    hide Pow2, FirstRecord;
    BlocksParse(b);
  }
}
