/** The table-driven checksums against their bit-serial definition. */
module Crc {
  import opened Folds
  import opened CrcTables

  /** The reflected polynomials of CRC32C (section 12.1 of RFC 3720) and CRC-32 (section 8 of RFC 1952). */
  const CRC32C_POLY: bv32 := 0x82F6_3B78
  const CRC32_POLY: bv32 := 0xEDB8_8320

  const ALL_ONES: bv32 := 0xFFFF_FFFF

  // ---------------------------------------------------------------- bit-serial definition

  function Xor(a: bv32, b: bv32): bv32 {
    a ^ b
  }

  function Widen(b: bv8): bv32 {
    b as bv32
  }

  /** The register moves down by one bit. */
  function Step(p: bv32, c: bv32): bv32 {
    if c & 1 == 1 then (c >> 1) ^ p else c >> 1
  }

  function Steps(p: bv32, n: nat, c: bv32): bv32
    decreases n
  {
    if n == 0 then c else Steps(p, n - 1, Step(p, c))
  }

  /** A byte comes in at the bottom of the register, which then moves down by its eight bits. */
  function AbsorbByte(p: bv32, c: bv32, b: bv8): bv32 {
    Steps(p, 8, Xor(c, Widen(b)))
  }

  function Absorb(p: bv32): (bv32, bv8) -> bv32 {
    (c: bv32, b: bv8) => AbsorbByte(p, c, b)
  }

  /** The register after the message `s`. */
  function BitSerial(p: bv32, s: seq<bv8>): bv32 {
    Fold(Absorb(p), ALL_ONES, s)
  }

  // ---------------------------------------------------------------- linearity

  lemma BothEven(p: bv32, a: bv32, b: bv32)
    requires a & 1 == 0 && b & 1 == 0
    ensures Step(p, a ^ b) == Step(p, a) ^ Step(p, b)
  {
  }

  lemma OddEven(p: bv32, a: bv32, b: bv32)
    requires a & 1 == 1 && b & 1 == 0
    ensures Step(p, a ^ b) == Step(p, a) ^ Step(p, b)
  {
  }

  lemma EvenOdd(p: bv32, a: bv32, b: bv32)
    requires a & 1 == 0 && b & 1 == 1
    ensures Step(p, a ^ b) == Step(p, a) ^ Step(p, b)
  {
  }

  lemma BothOdd(p: bv32, a: bv32, b: bv32)
    requires a & 1 == 1 && b & 1 == 1
    ensures Step(p, a ^ b) == Step(p, a) ^ Step(p, b)
  {
  }

  lemma StepSum(p: bv32, a: bv32, b: bv32)
    ensures Step(p, a ^ b) == Step(p, a) ^ Step(p, b)
  {
    if a & 1 == 0 {
      if b & 1 == 0 { BothEven(p, a, b); } else { EvenOdd(p, a, b); }
    } else {
      if b & 1 == 0 { OddEven(p, a, b); } else { BothOdd(p, a, b); }
    }
  }

  lemma StepLinear(p: bv32, a: bv32, b: bv32)
    ensures Step(p, Xor(a, b)) == Xor(Step(p, a), Step(p, b))
  {
    StepSum(p, a, b);
  }

  /** The register is linear over exclusive or. */
  lemma {:induction false} StepsLinear(p: bv32, n: nat, a: bv32, b: bv32)
    ensures Steps(p, n, Xor(a, b)) == Xor(Steps(p, n, a), Steps(p, n, b))
    decreases n
  {
    if n > 0 {
      StepLinear(p, a, b);
      StepsLinear(p, n - 1, Step(p, a), Step(p, b));
    }
  }

  /** A polynomial of degree 32 loses no bit. */
  lemma StepInjective(p: bv32, a: bv32, b: bv32)
    requires p & 0x8000_0000 != 0 && Step(p, a) == Step(p, b)
    ensures a == b
  {
  }

  lemma {:induction false} StepsInjective(p: bv32, n: nat, a: bv32, b: bv32)
    requires p & 0x8000_0000 != 0 && Steps(p, n, a) == Steps(p, n, b)
    ensures a == b
    decreases n
  {
    if n > 0 {
      StepsInjective(p, n - 1, Step(p, a), Step(p, b));
      StepInjective(p, a, b);
    }
  }

  function Eight(p: bv32, c: bv32): bv32 {
    Step(p, Step(p, Step(p, Step(p, Step(p, Step(p, Step(p, Step(p, c))))))))
  }

  lemma Unroll(p: bv32, n: nat, c: bv32, d: bv32)
    requires n > 0 && d == Step(p, c)
    ensures Steps(p, n, c) == Steps(p, n - 1, d)
  {
  }

  lemma EightSteps(p: bv32, c: bv32)
    ensures Steps(p, 8, c) == Eight(p, c)
  {
    var z1 := Step(p, c);
    var z2 := Step(p, z1);
    var z3 := Step(p, z2);
    var z4 := Step(p, z3);
    var z5 := Step(p, z4);
    var z6 := Step(p, z5);
    var z7 := Step(p, z6);
    Unroll(p, 8, c, z1);
    Unroll(p, 7, z1, z2);
    Unroll(p, 6, z2, z3);
    Unroll(p, 5, z3, z4);
    Unroll(p, 4, z4, z5);
    Unroll(p, 3, z5, z6);
    Unroll(p, 2, z6, z7);
    Unroll(p, 1, z7, Step(p, z7));
  }

  function Low(x: bv32): bv32 {
    x & 0xFF
  }

  function High(x: bv32): bv32 {
    x & 0xFFFF_FF00
  }

  function Down(x: bv32): bv32 {
    x >> 8
  }

  lemma LowHigh(x: bv32)
    ensures x == Xor(Low(x), High(x))
  {
    assert x == (x & 0xFF) ^ (x & 0xFFFF_FF00);
  }

  /** Bits above the lowest byte only move down. */
  lemma HighBytes(p: bv32, x: bv32)
    ensures Eight(p, High(x)) == Down(x)
  {
    assert Eight(p, x & 0xFFFF_FF00) == x >> 8;
  }

  /** Eight steps on any register are eight steps on its lowest byte. */
  lemma EightOnLow(p: bv32, x: bv32)
    ensures Steps(p, 8, x) == Xor(Eight(p, Low(x)), Down(x))
  {
    LowHigh(x);
    StepsLinear(p, 8, Low(x), High(x));
    EightSteps(p, Low(x));
    EightSteps(p, High(x));
    HighBytes(p, x);
  }

  // ---------------------------------------------------------------- the tables

  /** The quarter of a table that the two highest bits of an index select. */
  function Quarter(i: bv8): bv8 {
    i >> 6
  }

  lemma Crc32cQuarter0(i: bv8)
    requires Quarter(i) == 0
    ensures Crc32cTable(i) == Eight(CRC32C_POLY, Widen(i))
  {
  }

  lemma Crc32cQuarter1(i: bv8)
    requires Quarter(i) == 1
    ensures Crc32cTable(i) == Eight(CRC32C_POLY, Widen(i))
  {
  }

  lemma Crc32cQuarter2(i: bv8)
    requires Quarter(i) == 2
    ensures Crc32cTable(i) == Eight(CRC32C_POLY, Widen(i))
  {
  }

  lemma Crc32cQuarter3(i: bv8)
    requires Quarter(i) == 3
    ensures Crc32cTable(i) == Eight(CRC32C_POLY, Widen(i))
  {
  }

  /** Every entry of the tables is what eight steps make of its index. */
  lemma Crc32cTableOk(i: bv8)
    ensures Crc32cTable(i) == Eight(CRC32C_POLY, Widen(i))
  {
    if Quarter(i) == 0 {
      Crc32cQuarter0(i);
    } else if Quarter(i) == 1 {
      Crc32cQuarter1(i);
    } else if Quarter(i) == 2 {
      Crc32cQuarter2(i);
    } else {
      Crc32cQuarter3(i);
    }
  }

  lemma Crc32Quarter0(i: bv8)
    requires Quarter(i) == 0
    ensures Crc32Table(i) == Eight(CRC32_POLY, Widen(i))
  {
  }

  lemma Crc32Quarter1(i: bv8)
    requires Quarter(i) == 1
    ensures Crc32Table(i) == Eight(CRC32_POLY, Widen(i))
  {
  }

  lemma Crc32Quarter2(i: bv8)
    requires Quarter(i) == 2
    ensures Crc32Table(i) == Eight(CRC32_POLY, Widen(i))
  {
  }

  lemma Crc32Quarter3(i: bv8)
    requires Quarter(i) == 3
    ensures Crc32Table(i) == Eight(CRC32_POLY, Widen(i))
  {
  }

  lemma Crc32TableOk(i: bv8)
    ensures Crc32Table(i) == Eight(CRC32_POLY, Widen(i))
  {
    if Quarter(i) == 0 {
      Crc32Quarter0(i);
    } else if Quarter(i) == 1 {
      Crc32Quarter1(i);
    } else if Quarter(i) == 2 {
      Crc32Quarter2(i);
    } else {
      Crc32Quarter3(i);
    }
  }

  function Index(c: bv32, b: bv8): bv8 {
    ((c ^ (b as bv32)) & 0xFF) as bv8
  }

  lemma IndexIsLow(c: bv32, b: bv8)
    ensures Widen(Index(c, b)) == Low(Xor(c, Widen(b)))
  {
  }

  lemma ByteIsLow(c: bv32, b: bv8)
    ensures Down(Xor(c, Widen(b))) == Down(c)
  {
  }

  /** One table look-up does the work of eight steps. */
  lemma LookUp(p: bv32, entry: bv32, c: bv32, b: bv8)
    requires entry == Eight(p, Widen(Index(c, b)))
    ensures AbsorbByte(p, c, b) == Xor(entry, Down(c))
  {
    EightOnLow(p, Xor(c, Widen(b)));
    IndexIsLow(c, b);
    ByteIsLow(c, b);
  }

  // ---------------------------------------------------------------- the table-driven loops

  /** The checksum of ext4 metadata: no inversion at the end. */
  method Crc32c(buf: seq<bv8>) returns (crc: bv32)
    ensures crc == BitSerial(CRC32C_POLY, buf) && (buf == [] ==> crc == 0xFFFF_FFFF)
  {
    crc := ALL_ONES;
    for i := 0 to |buf|
      invariant crc == Fold(Absorb(CRC32C_POLY), ALL_ONES, buf[..i])
    {
      var b := buf[i];
      Crc32cTableOk(Index(crc, b));
      LookUp(CRC32C_POLY, Crc32cTable(Index(crc, b)), crc, b);
      FoldLast(Absorb(CRC32C_POLY), ALL_ONES, buf, i);
      crc := Xor(Crc32cTable(Index(crc, b)), Down(crc));
    }
    assert buf[..|buf|] == buf;
  }

  /** The checksum of partition tables: inverted at the end. */
  method Crc32(buf: seq<bv8>) returns (crc: bv32)
    ensures crc == !BitSerial(CRC32_POLY, buf) && (buf == [] ==> crc == 0)
  {
    crc := ALL_ONES;
    for i := 0 to |buf|
      invariant crc == Fold(Absorb(CRC32_POLY), ALL_ONES, buf[..i])
    {
      var b := buf[i];
      Crc32TableOk(Index(crc, b));
      LookUp(CRC32_POLY, Crc32Table(Index(crc, b)), crc, b);
      FoldLast(Absorb(CRC32_POLY), ALL_ONES, buf, i);
      crc := Xor(Crc32Table(Index(crc, b)), Down(crc));
    }
    assert buf[..|buf|] == buf;
    crc := !crc;
  }

  // ---------------------------------------------------------------- bit by bit

  function Bit(b: bool): bv32 {
    if b then 1 else 0
  }

  function AbsorbBit(p: bv32): (bv32, bool) -> bv32 {
    (c: bv32, b: bool) => Step(p, Xor(c, Bit(b)))
  }

  function Up(x: bv32): bv32 {
    x << 1
  }

  /** The word with the bits `s`, the first one lowest. */
  function Word(s: seq<bool>): bv32 {
    if s == [] then 0 else Xor(Bit(s[0]), Up(Word(s[1..])))
  }

  function Grow(mask: bv32): bv32 {
    (mask << 1) | 1
  }

  /** The `n` lowest bits. */
  function Mask(n: nat): bv32 {
    if n == 0 then 0 else Grow(Mask(n - 1))
  }

  predicate Within(w: bv32, mask: bv32) {
    w & !mask == 0
  }

  lemma RawBelow(x: bv32, w: bv32, mask: bv32)
    requires w & !mask == 0 && (x == 0 || x == 1)
    ensures (x ^ (w << 1)) & !((mask << 1) | 1) == 0
  {
  }

  lemma PutBelow(b: bool, w: bv32, mask: bv32)
    requires Within(w, mask)
    ensures Within(Xor(Bit(b), Up(w)), Grow(mask))
  {
    RawBelow(Bit(b), w, mask);
  }

  lemma {:induction false} WordWithin(s: seq<bool>)
    ensures Within(Word(s), Mask(|s|))
  {
    if s != [] {
      WordWithin(s[1..]);
      PutBelow(s[0], Word(s[1..]), Mask(|s| - 1));
    }
  }

  lemma GrowWithin(m: bv32, m': bv32)
    requires Within(m, m')
    ensures Within(Grow(m), Grow(m'))
  {
  }

  lemma {:induction false} MaskGrows(n: nat, k: nat)
    requires n <= k
    ensures Within(Mask(n), Mask(k))
    decreases n
  {
    if n > 0 {
      MaskGrows(n - 1, k - 1);
      GrowWithin(Mask(n - 1), Mask(k - 1));
    }
  }

  lemma FourMore(m: bv32)
    ensures Grow(Grow(Grow(Grow(m)))) == (m << 4) | 0xF
  {
  }

  lemma {:induction false} NextMask(n: nat, m: bv32)
    requires n > 0 && Mask(n - 1) == m
    ensures Mask(n) == Grow(m)
  {
  }

  lemma {:induction false} MaskFour(n: nat, m: bv32)
    requires Mask(n) == m
    ensures Mask(n + 4) == (m << 4) | 0xF
  {
    NextMask(n + 1, m);
    NextMask(n + 2, Grow(m));
    NextMask(n + 3, Grow(Grow(m)));
    NextMask(n + 4, Grow(Grow(Grow(m))));
    FourMore(m);
  }

  lemma Mask31()
    ensures Mask(31) == 0x7FFF_FFFF
  {
    MaskFour(0, 0);
    MaskFour(4, 0xF);
    MaskFour(8, 0xFF);
    MaskFour(12, 0xFFF);
    MaskFour(16, 0xFFFF);
    MaskFour(20, 0xF_FFFF);
    MaskFour(24, 0xFF_FFFF);
    NextMask(29, 0xFFF_FFFF);
    NextMask(30, 0x1FFF_FFFF);
    NextMask(31, 0x3FFF_FFFF);
  }

  predicate TopClear(w: bv32) {
    w & 0x8000_0000 == 0
  }

  lemma LowHalf(w: bv32, m: bv32, m': bv32)
    requires Within(w, m) && Within(m, m') && m' == 0x7FFF_FFFF
    ensures TopClear(w)
  {
  }

  /** Up to 31 bits leave the top of a word clear. */
  lemma ShortWord(s: seq<bool>)
    requires |s| <= 31
    ensures TopClear(Word(s))
  {
    WordWithin(s);
    MaskGrows(|s|, 31);
    Mask31();
    LowHalf(Word(s), Mask(|s|), Mask(31));
  }

  lemma StepUp(p: bv32, w: bv32)
    requires TopClear(w)
    ensures Step(p, Up(w)) == w
  {
  }

  lemma XorAssociative(a: bv32, b: bv32, c: bv32)
    ensures Xor(Xor(a, b), c) == Xor(a, Xor(b, c))
  {
  }

  /** Up to 32 bits can be put in the register at once. */
  lemma {:induction false} AtOnce(p: bv32, c: bv32, s: seq<bool>)
    requires |s| <= 32
    ensures Fold(AbsorbBit(p), c, s) == Steps(p, |s|, Xor(c, Word(s)))
    decreases |s|
  {
    if s == [] {
      assert Xor(c, 0) == c;
    } else {
      var w, d := Word(s[1..]), Xor(c, Bit(s[0]));
      AtOnce(p, Step(p, d), s[1..]);
      ShortWord(s[1..]);
      StepUp(p, w);
      StepLinear(p, d, Up(w));
      XorAssociative(c, Bit(s[0]), Up(w));
    }
  }

  lemma LowestBit(b: bool, w: bv32, d: bool, v: bv32)
    requires TopClear(w) && TopClear(v) && Xor(Bit(b), Up(w)) == Xor(Bit(d), Up(v))
    ensures b == d && w == v
  {
  }

  lemma {:induction false} WordInjective(s: seq<bool>, t: seq<bool>)
    requires |s| == |t| <= 32 && Word(s) == Word(t)
    ensures s == t
    decreases |s|
  {
    if s != [] {
      ShortWord(s[1..]);
      ShortWord(t[1..]);
      LowestBit(s[0], Word(s[1..]), t[0], Word(t[1..]));
      WordInjective(s[1..], t[1..]);
      assert s == [s[0]] + s[1..] && t == [t[0]] + t[1..];
    }
  }

  lemma XorInjective(c: bv32, a: bv32, b: bv32)
    requires Xor(c, a) == Xor(c, b) || Xor(a, c) == Xor(b, c)
    ensures a == b
  {
  }

  /** No two different words of up to 32 bits take the register from one value to the same value. */
  lemma WordsSeparate(p: bv32, c: bv32, u: seq<bool>, v: seq<bool>)
    requires p & 0x8000_0000 != 0 && |u| == |v| <= 32 && u != v
    ensures Fold(AbsorbBit(p), c, u) != Fold(AbsorbBit(p), c, v)
  {
    AtOnce(p, c, u);
    AtOnce(p, c, v);
    if Steps(p, |u|, Xor(c, Word(u))) == Steps(p, |u|, Xor(c, Word(v))) {
      StepsInjective(p, |u|, Xor(c, Word(u)), Xor(c, Word(v)));
      XorInjective(c, Word(u), Word(v));
      WordInjective(u, v);
      assert false;
    }
  }

  lemma AbsorbInjective(p: bv32)
    requires p & 0x8000_0000 != 0
    ensures Injective(AbsorbBit(p))
  {
    var f := AbsorbBit(p);
    forall a, b, m {:trigger f(a, m), f(b, m)} | f(a, m) == f(b, m) ensures a == b {
      StepInjective(p, Xor(a, Bit(m)), Xor(b, Bit(m)));
      XorInjective(Bit(m), a, b);
    }
  }

  // ---------------------------------------------------------------- bytes as bits

  /** The `n` lowest bits of a byte, the lowest first. */
  function LowBits(b: bv8, n: nat): (r: seq<bool>)
    ensures |r| == n
  {
    if n == 0 then [] else [b & 1 != 0] + LowBits(b >> 1, n - 1)
  }

  function ByteBits(b: bv8): (r: seq<bool>)
    ensures |r| == 8
  {
    LowBits(b, 8)
  }

  /** The bits of a message. */
  function Bits(s: seq<bv8>): (r: seq<bool>)
    ensures |r| == 8 * |s|
  {
    if s == [] then [] else ByteBits(s[0]) + Bits(s[1..])
  }

  /** The byte has no more than `n` bits. */
  predicate Narrow(b: bv8, n: nat) {
    if n == 0 then b == 0 else Narrow(b >> 1, n - 1)
  }

  lemma PeelBit(b: bv8)
    ensures Xor(Bit(b & 1 != 0), Up(Widen(b >> 1))) == Widen(b)
  {
  }

  lemma {:induction false} WordOfBits(b: bv8, n: nat)
    requires Narrow(b, n)
    ensures Word(LowBits(b, n)) == Widen(b)
    decreases n
  {
    if n > 0 {
      WordOfBits(b >> 1, n - 1);
      PeelBit(b);
      assert LowBits(b, n)[1..] == LowBits(b >> 1, n - 1);
    }
  }

  lemma {:induction false} NextNarrow(b: bv8, n: nat, d: bv8)
    requires n > 0 && d == b >> 1
    ensures Narrow(b, n) == Narrow(d, n - 1)
  {
  }

  lemma EightBitsOnly(b: bv8)
    ensures Narrow(b, 8)
  {
    NextNarrow(b, 8, b >> 1);
    NextNarrow(b >> 1, 7, b >> 2);
    NextNarrow(b >> 2, 6, b >> 3);
    NextNarrow(b >> 3, 5, b >> 4);
    NextNarrow(b >> 4, 4, b >> 5);
    NextNarrow(b >> 5, 3, b >> 6);
    NextNarrow(b >> 6, 2, b >> 7);
    NextNarrow(b >> 7, 1, 0);
  }

  lemma WordOfByte(b: bv8)
    ensures Word(ByteBits(b)) == Widen(b)
  {
    EightBitsOnly(b);
    WordOfBits(b, 8);
  }

  /** The bytes of a message can be taken in bit by bit. */
  lemma {:induction false} BitByBit(p: bv32, c: bv32, s: seq<bv8>)
    ensures Fold(Absorb(p), c, s) == Fold(AbsorbBit(p), c, Bits(s))
    decreases |s|
  {
    if s != [] {
      AtOnce(p, c, ByteBits(s[0]));
      WordOfByte(s[0]);
      BitByBit(p, AbsorbByte(p, c, s[0]), s[1..]);
      FoldConcat(AbsorbBit(p), c, ByteBits(s[0]), Bits(s[1..]));
    }
  }

  lemma WidenInjective(b: bv8, d: bv8)
    requires Widen(b) == Widen(d)
    ensures b == d
  {
  }

  lemma {:induction false} BitsInjective(s: seq<bv8>, t: seq<bv8>)
    requires Bits(s) == Bits(t)
    ensures s == t
    decreases |s|
  {
    if s != [] {
      assert Bits(s)[..8] == ByteBits(s[0]) && Bits(t)[..8] == ByteBits(t[0]);
      assert Bits(s)[8..] == Bits(s[1..]) && Bits(t)[8..] == Bits(t[1..]);
      WordOfByte(s[0]);
      WordOfByte(t[0]);
      WidenInjective(s[0], t[0]);
      BitsInjective(s[1..], t[1..]);
      assert s == [s[0]] + s[1..] && t == [t[0]] + t[1..];
    }
  }

  lemma {:induction false} BitsConcat(s: seq<bv8>, t: seq<bv8>)
    ensures Bits(s + t) == Bits(s) + Bits(t)
    decreases |s|
  {
    if s == [] {
      assert s + t == t;
    } else {
      assert (s + t)[1..] == s[1..] + t;
      BitsConcat(s[1..], t);
    }
  }

  // ---------------------------------------------------------------- bursts

  /** `s` and `t` have the same bits before position `i` and from position `i + n` on. */
  predicate SameOutside(s: seq<bool>, t: seq<bool>, i: nat, n: nat) {
    |s| == |t| && i + n <= |s| && s[..i] == t[..i] && s[i + n..] == t[i + n..]
  }

  lemma WindowOf(x: seq<bool>, y: seq<bool>, i: nat, n: nat)
    requires SameOutside(x, y, i, n) && x != y
    ensures x == x[..i] + x[i..i + n] + x[i + n..] && y == x[..i] + y[i..i + n] + x[i + n..]
    ensures x[i..i + n] != y[i..i + n]
  {
    assert x == x[..i] + x[i..i + n] + x[i + n..];
    assert y == y[..i] + y[i..i + n] + y[i + n..];
  }

  lemma BitBurst(p: bv32, c: bv32, x: seq<bool>, y: seq<bool>, i: nat, n: nat)
    requires p & 0x8000_0000 != 0 && n <= 32 && SameOutside(x, y, i, n) && x != y
    ensures Fold(AbsorbBit(p), c, x) != Fold(AbsorbBit(p), c, y)
  {
    var f, pre, u, v, post := AbsorbBit(p), x[..i], x[i..i + n], y[i..i + n], x[i + n..];
    WindowOf(x, y, i, n);
    FoldAround(f, c, pre, u, post);
    FoldAround(f, c, pre, v, post);
    AbsorbInjective(p);
    WordsSeparate(p, Fold(f, c, pre), u, v);
    FoldInjective(f, Fold(f, Fold(f, c, pre), u), Fold(f, Fold(f, c, pre), v), post);
  }

  /** Two messages that differ only inside a window of 32 bits, wherever it starts, have different
      checksums. */
  lemma BurstDetected(p: bv32, s: seq<bv8>, t: seq<bv8>, i: nat, n: nat)
    requires p & 0x8000_0000 != 0 && n <= 32 && SameOutside(Bits(s), Bits(t), i, n) && s != t
    ensures BitSerial(p, s) != BitSerial(p, t)
  {
    BitByBit(p, ALL_ONES, s);
    BitByBit(p, ALL_ONES, t);
    if Bits(s) == Bits(t) { BitsInjective(s, t); }
    BitBurst(p, ALL_ONES, Bits(s), Bits(t), i, n);
  }

  /** In particular, messages that differ only inside four consecutive bytes. */
  lemma FourBytesDetected(p: bv32, s: seq<bv8>, t: seq<bv8>, i: nat)
    requires p & 0x8000_0000 != 0 && |s| == |t| && i + 4 <= |s| && s != t
    requires s[..i] == t[..i] && s[i + 4..] == t[i + 4..]
    ensures BitSerial(p, s) != BitSerial(p, t)
  {
    BytesAsBits(s, i);
    BytesAsBits(t, i);
    BytesAsBits(s, i + 4);
    BytesAsBits(t, i + 4);
    BurstDetected(p, s, t, 8 * i, 32);
  }

  lemma BytesAsBits(s: seq<bv8>, i: nat)
    requires i <= |s|
    ensures Bits(s)[..8 * i] == Bits(s[..i]) && Bits(s)[8 * i..] == Bits(s[i..])
  {
    assert s == s[..i] + s[i..];
    BitsConcat(s[..i], s[i..]);
  }

  /** The same for the checksum of partition tables, which is inverted. */
  lemma Crc32BurstDetected(s: seq<bv8>, t: seq<bv8>, i: nat, n: nat)
    requires n <= 32 && SameOutside(Bits(s), Bits(t), i, n) && s != t
    ensures !BitSerial(CRC32_POLY, s) != !BitSerial(CRC32_POLY, t)
  {
    BurstDetected(CRC32_POLY, s, t, i, n);
    NotInjective(BitSerial(CRC32_POLY, s), BitSerial(CRC32_POLY, t));
  }

  lemma NotNot(a: bv32)
    ensures !(!a) == a
  {
  }

  lemma NotInjective(a: bv32, b: bv32)
    requires a != b
    ensures !a != !b
  {
    NotNot(a);
    NotNot(b);
  }
}
