/** What the two checksums promise, whatever the message: a message followed by its own checksum leaves a constant,
    and the first four bytes may be inverted instead of the register. */
module CrcLaws {
  import opened Crc
  import opened Folds

  // ---------------------------------------------------------------- four bytes at once

  function UpBy(n: nat, x: bv32): bv32 {
    if n == 0 then x else Up(UpBy(n - 1, x))
  }

  lemma UpXor(a: bv32, b: bv32)
    ensures Up(Xor(a, b)) == Xor(Up(a), Up(b))
  {
    RawUp(a, b);
  }

  lemma RawUp(a: bv32, b: bv32)
    ensures (a ^ b) << 1 == (a << 1) ^ (b << 1)
  {
  }

  /** The word of two pieces, the second one above the first. */
  lemma {:induction false} WordConcat(s: seq<bool>, t: seq<bool>)
    ensures Word(s + t) == Xor(Word(s), UpBy(|s|, Word(t)))
    decreases |s|
  {
    if s == [] {
      assert s + t == t;
      assert Xor(0, Word(t)) == Word(t);
    } else {
      var w, v := Word(s[1..]), UpBy(|s| - 1, Word(t));
      assert (s + t)[1..] == s[1..] + t;
      WordConcat(s[1..], t);
      UpXor(w, v);
      XorAssociative(Bit(s[0]), Up(w), Up(v));
    }
  }

  function Up8(x: bv32): bv32 {
    x << 8
  }

  lemma RawEight(x: bv32)
    ensures Up(Up(Up(Up(Up(Up(Up(Up(x)))))))) == x << 8
  {
  }

  lemma {:induction false} NextUp(n: nat, x: bv32, y: bv32)
    requires n > 0 && UpBy(n - 1, x) == y
    ensures UpBy(n, x) == Up(y)
  {
  }

  lemma UpByEight(x: bv32)
    ensures UpBy(8, x) == Up8(x)
  {
    var z1 := Up(x);
    var z2 := Up(z1);
    var z3 := Up(z2);
    var z4 := Up(z3);
    var z5 := Up(z4);
    var z6 := Up(z5);
    var z7 := Up(z6);
    NextUp(1, x, x);
    NextUp(2, x, z1);
    NextUp(3, x, z2);
    NextUp(4, x, z3);
    NextUp(5, x, z4);
    NextUp(6, x, z5);
    NextUp(7, x, z6);
    NextUp(8, x, z7);
    RawEight(x);
  }

  /** The word of a message, the first byte lowest. */
  function WordOf(s: seq<bv8>): bv32 {
    if s == [] then 0 else Xor(Widen(s[0]), Up8(WordOf(s[1..])))
  }

  lemma {:induction false} WordOfBytes(s: seq<bv8>)
    ensures Word(Bits(s)) == WordOf(s)
  {
    if s != [] {
      WordOfBytes(s[1..]);
      WordOfByte(s[0]);
      WordConcat(ByteBits(s[0]), Bits(s[1..]));
      UpByEight(WordOf(s[1..]));
    }
  }

  /** Up to four bytes can be put in the register at once. */
  lemma BytesAtOnce(p: bv32, c: bv32, s: seq<bv8>)
    requires |s| <= 4
    ensures Fold(Absorb(p), c, s) == Steps(p, 8 * |s|, Xor(c, WordOf(s)))
  {
    BitByBit(p, c, s);
    AtOnce(p, c, Bits(s));
    WordOfBytes(s);
  }

  // ---------------------------------------------------------------- a message and its checksum

  function ByteAt0(w: bv32): bv8 {
    (w & 0xFF) as bv8
  }

  function ByteAt1(w: bv32): bv8 {
    ((w >> 8) & 0xFF) as bv8
  }

  function ByteAt2(w: bv32): bv8 {
    ((w >> 16) & 0xFF) as bv8
  }

  function ByteAt3(w: bv32): bv8 {
    ((w >> 24) & 0xFF) as bv8
  }

  /** The four bytes of a word, the lowest first. */
  function LittleEndian(w: bv32): (s: seq<bv8>)
    ensures |s| == 4
  {
    [ByteAt0(w), ByteAt1(w), ByteAt2(w), ByteAt3(w)]
  }

  function Four(b0: bv8, b1: bv8, b2: bv8, b3: bv8): bv32 {
    Xor(Widen(b0), Up8(Xor(Widen(b1), Up8(Xor(Widen(b2), Up8(Widen(b3)))))))
  }

  lemma RawFour(w: bv32)
    ensures Four(ByteAt0(w), ByteAt1(w), ByteAt2(w), ByteAt3(w)) == w
  {
  }

  lemma NothingAbove(b: bv8)
    ensures Xor(Widen(b), Up8(0)) == Widen(b)
  {
  }

  lemma {:induction false} WordOfNext(s: seq<bv8>, b: bv8, t: seq<bv8>)
    requires s == [b] + t
    ensures WordOf(s) == Xor(Widen(b), Up8(WordOf(t)))
  {
    assert s[1..] == t;
  }

  lemma {:induction false} WordOfFour(b0: bv8, b1: bv8, b2: bv8, b3: bv8)
    ensures WordOf([b0, b1, b2, b3]) == Four(b0, b1, b2, b3)
  {
    WordOfNext([b3], b3, []);
    NothingAbove(b3);
    WordOfNext([b2, b3], b2, [b3]);
    WordOfNext([b1, b2, b3], b1, [b2, b3]);
    WordOfNext([b0, b1, b2, b3], b0, [b1, b2, b3]);
  }

  /** The bytes of a word are that word. */
  lemma LittleEndianWord(w: bv32)
    ensures WordOf(LittleEndian(w)) == w
  {
    WordOfFour(ByteAt0(w), ByteAt1(w), ByteAt2(w), ByteAt3(w));
    RawFour(w);
  }

  /** The register after a message that is followed by a word. */
  lemma ThenWord(p: bv32, s: seq<bv8>, w: bv32)
    ensures BitSerial(p, s + LittleEndian(w)) == Steps(p, 32, Xor(BitSerial(p, s), w))
  {
    FoldConcat(Absorb(p), ALL_ONES, s, LittleEndian(w));
    BytesAtOnce(p, BitSerial(p, s), LittleEndian(w));
    LittleEndianWord(w);
  }

  lemma {:induction false} StepsThen(p: bv32, m: nat, n: nat, c: bv32)
    ensures Steps(p, m + n, c) == Steps(p, n, Steps(p, m, c))
    decreases m
  {
    if m > 0 { StepsThen(p, m - 1, n, Step(p, c)); }
  }

  /** Thirty-two steps in four times eight. */
  lemma FourTimesEight(p: bv32, c: bv32)
    ensures Steps(p, 32, c) == Eight(p, Eight(p, Eight(p, Eight(p, c))))
  {
    var c1 := Eight(p, c);
    var c2 := Eight(p, c1);
    var c3 := Eight(p, c2);
    StepsThen(p, 8, 24, c);
    EightSteps(p, c);
    StepsThen(p, 8, 16, c1);
    EightSteps(p, c1);
    StepsThen(p, 8, 8, c2);
    EightSteps(p, c2);
    EightSteps(p, c3);
  }

  lemma XorNot(c: bv32)
    ensures Xor(c, !c) == 0xFFFF_FFFF
  {
  }

  lemma XorSelf(c: bv32)
    ensures Xor(c, c) == 0
  {
  }

  /** What the polynomial of CRC-32 makes of a register full of ones. */
  lemma Crc32Ones()
    ensures Eight(CRC32_POLY, Eight(CRC32_POLY, Eight(CRC32_POLY, Eight(CRC32_POLY, 0xFFFF_FFFF)))) == 0xDEBB_20E3
  {
    assert Eight(CRC32_POLY, 0xFFFF_FFFF) == 0x2DFD_1072;
    assert Eight(CRC32_POLY, 0x2DFD_1072) == 0xBE26_ED00;
    assert Eight(CRC32_POLY, 0xBE26_ED00) == 0x00BE_26ED;
    assert Eight(CRC32_POLY, 0x00BE_26ED) == 0xDEBB_20E3;
  }

  lemma NoSteps(p: bv32)
    ensures Eight(p, 0) == 0
  {
  }

  lemma OnlyWord(p: bv32, s: seq<bv8>, w: bv32, v: bv32)
    requires p & 0x8000_0000 != 0 && BitSerial(p, s + LittleEndian(w)) == BitSerial(p, s + LittleEndian(v))
    ensures w == v
  {
    var c := BitSerial(p, s);
    ThenWord(p, s, w);
    ThenWord(p, s, v);
    StepsInjective(p, 32, Xor(c, w), Xor(c, v));
    XorInjective(c, w, v);
  }

  lemma Crc32Constant(s: seq<bv8>)
    ensures BitSerial(CRC32_POLY, s + LittleEndian(!BitSerial(CRC32_POLY, s))) == 0xDEBB_20E3
  {
    ThenWord(CRC32_POLY, s, !BitSerial(CRC32_POLY, s));
    XorNot(BitSerial(CRC32_POLY, s));
    FourTimesEight(CRC32_POLY, 0xFFFF_FFFF);
    Crc32Ones();
  }

  lemma Crc32cConstant(s: seq<bv8>)
    ensures BitSerial(CRC32C_POLY, s + LittleEndian(BitSerial(CRC32C_POLY, s))) == 0
  {
    ThenWord(CRC32C_POLY, s, BitSerial(CRC32C_POLY, s));
    XorSelf(BitSerial(CRC32C_POLY, s));
    FourTimesEight(CRC32C_POLY, 0);
    NoSteps(CRC32C_POLY);
  }

  /** A message followed by a word, the lowest byte first, has the checksum 0x2144DF1C exactly when the word is the
      checksum of the message. */
  method Crc32Residue(s: seq<bv8>, w: bv32) returns (crc: bv32, residue: bv32)
    ensures residue == 0x2144_DF1C <==> w == crc
  {
    crc := Crc32(s);
    residue := Crc32(s + LittleEndian(w));
    Crc32Constant(s);
    if residue == 0x2144_DF1C {
      NotNot(BitSerial(CRC32_POLY, s + LittleEndian(w)));
      OnlyWord(CRC32_POLY, s, w, crc);
    }
  }

  /** With the checksum of ext4, which is not inverted, it is 0. */
  method Crc32cResidue(s: seq<bv8>, w: bv32) returns (crc: bv32, residue: bv32)
    ensures residue == 0 <==> w == crc
  {
    crc := Crc32c(s);
    residue := Crc32c(s + LittleEndian(w));
    Crc32cConstant(s);
    if residue == 0 { OnlyWord(CRC32C_POLY, s, w, crc); }
  }

  // ---------------------------------------------------------------- the first four bytes

  lemma RawFlip(b0: bv8, b1: bv8, b2: bv8, b3: bv8)
    ensures Four(!b0, !b1, !b2, !b3) == Xor(0xFFFF_FFFF, Four(b0, b1, b2, b3))
  {
  }

  lemma FromZero(c: bv32)
    ensures Xor(0, c) == c
  {
  }

  /** A register that starts full of ones is one that starts at 0 on a message with its first 32 bits inverted, as
      section 12.1 of RFC 3720 has it. */
  lemma FirstBytesInverted(p: bv32, s: seq<bv8>)
    requires |s| >= 4
    ensures BitSerial(p, s) == Fold(Absorb(p), 0, [!s[0], !s[1], !s[2], !s[3]] + s[4..])
  {
    var u, v := [s[0], s[1], s[2], s[3]], [!s[0], !s[1], !s[2], !s[3]];
    assert s == u + s[4..];
    FoldConcat(Absorb(p), ALL_ONES, u, s[4..]);
    FoldConcat(Absorb(p), 0, v, s[4..]);
    BytesAtOnce(p, ALL_ONES, u);
    BytesAtOnce(p, 0, v);
    WordOfFour(s[0], s[1], s[2], s[3]);
    WordOfFour(!s[0], !s[1], !s[2], !s[3]);
    RawFlip(s[0], s[1], s[2], s[3]);
    FromZero(WordOf(v));
  }
}
