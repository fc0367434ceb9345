/** The first word of an allocation header: a size that is a multiple of 16, with four flags in its low
    bits. The other modules use the fields; here is why the fields can be set one at a time. */
module AllocHeader {
  import opened Arith
  import opened Cells
  import opened Common

  /** The fields of the word. */
  datatype Fields = Fields(size: bv64, isAllocated: bool, leftAllocated: bool, color: Color, mapped: bool)

  function Unpack(w: bv64): Fields {
    Fields(w & !0xF, w & 0x1 != 0, w & 0x2 != 0, if (w >> 2) & 0x1 == 0 then Black else Red, w & 0x8 != 0)
  }

  function Bit(b: bool, mask: bv64): bv64 {
    if b then mask else 0
  }

  function Pack(f: Fields): bv64 {
    f.size | Bit(f.isAllocated, 0x1) | Bit(f.leftAllocated, 0x2) | Bit(f.color == Red, 0x4) | Bit(f.mapped, 0x8)
  }

  /** Which bit is which. */
  lemma WordLayout()
    ensures Pack(Fields(0x40, false, false, Black, false)) == 0x40
    ensures Pack(Fields(0x40, true, false, Black, false)) == 0x41
    ensures Pack(Fields(0x40, false, true, Black, false)) == 0x42
    ensures Pack(Fields(0x40, false, false, Red, false)) == 0x44
    ensures Pack(Fields(0x40, false, false, Black, true)) == 0x48
  {
  }

  /** Every word is the packing of its fields, so the fields determine the word. */
  lemma PackUnpack(w: bv64)
    ensures Pack(Unpack(w)) == w
  {
  }

  lemma LowBitsClear(f: Fields)
    requires f.size & 0xF == 0
    ensures Unpack(Pack(f)) == f
  {
  }

  lemma LowBitsSet(f: Fields)
    requires f.size & 0xF != 0
    ensures Unpack(Pack(f)).size != f.size
  {
  }

  /** The fields survive packing exactly when the size has no low bits. */
  lemma UnpackPack(f: Fields)
    ensures Unpack(Pack(f)) == f <==> f.size & 0xF == 0
  {
    if f.size & 0xF == 0 { LowBitsClear(f); } else { LowBitsSet(f); }
  }

  // ---------------------------------------------------------------- numbers as words

  predicate Odd(w: bv64) {
    w & 1 == 1
  }

  function Half(w: bv64): bv64 {
    w >> 1
  }

  function Up(w: bv64): bv64 {
    w << 1
  }

  function Grow(w: bv64): bv64 {
    (w << 1) | 1
  }

  /** `w` with the bit `b` put below it. */
  function Below(w: bv64, b: bool): bv64 {
    if b then Grow(w) else Up(w)
  }

  function Weight(b: bool): nat {
    if b then 1 else 0
  }

  /** The number that the `n` lowest bits of a word are the binary digits of. */
  function Number(w: bv64, n: nat): nat {
    if n == 0 then 0 else Weight(Odd(w)) + 2 * Number(Half(w), n - 1)
  }

  /** The word of the `n` lowest binary digits of a number. */
  function WordOf(x: nat, n: nat): bv64 {
    if n == 0 then 0 else Below(WordOf(x / 2, n - 1), x % 2 == 1)
  }

  /** The `n` lowest bits. */
  function Mask(n: nat): bv64 {
    if n == 0 then 0 else Grow(Mask(n - 1))
  }

  predicate Within(w: bv64, mask: bv64) {
    w & !mask == 0
  }

  predicate TopClear(w: bv64) {
    w & 0x8000_0000_0000_0000 == 0
  }

  lemma OneBelow(w: bv64, mask: bv64)
    requires w & !mask == 0
    ensures ((w << 1) | 1) & !((mask << 1) | 1) == 0
  {
  }

  lemma ZeroBelow(w: bv64, mask: bv64)
    requires w & !mask == 0
    ensures (w << 1) & !((mask << 1) | 1) == 0
  {
  }

  lemma GrowWithin(m: bv64, m': bv64)
    requires Within(m, m')
    ensures Within(Grow(m), Grow(m'))
  {
    OneBelow(m, m');
  }

  lemma UpWithin(w: bv64, mask: bv64)
    requires Within(w, mask)
    ensures Within(Up(w), Grow(mask))
  {
    ZeroBelow(w, mask);
  }

  lemma {:induction false} WordWithin(x: nat, n: nat)
    ensures Within(WordOf(x, n), Mask(n))
    decreases n
  {
    if n > 0 {
      WordWithin(x / 2, n - 1);
      if x % 2 == 1 {
        GrowWithin(WordOf(x / 2, n - 1), Mask(n - 1));
      } else {
        UpWithin(WordOf(x / 2, n - 1), Mask(n - 1));
      }
    }
  }

  lemma {:induction false} MaskGrows(n: nat, k: nat)
    requires n <= k
    ensures Within(Mask(n), Mask(k))
    decreases n
  {
    if n > 0 {
      MaskGrows(n - 1, k - 1);
      GrowWithin(Mask(n - 1), Mask(k - 1));
    }
  }

  lemma FourMore(m: bv64)
    ensures Grow(Grow(Grow(Grow(m)))) == (m << 4) | 0xF
  {
  }

  lemma {:induction false} NextMask(n: nat, m: bv64)
    requires n > 0 && Mask(n - 1) == m
    ensures Mask(n) == Grow(m)
  {
  }

  lemma {:induction false} MaskFour(n: nat, m: bv64)
    requires Mask(n) == m
    ensures Mask(n + 4) == (m << 4) | 0xF
  {
    NextMask(n + 1, m);
    NextMask(n + 2, Grow(m));
    NextMask(n + 3, Grow(Grow(m)));
    NextMask(n + 4, Grow(Grow(Grow(m))));
    FourMore(m);
  }

  lemma Mask63()
    ensures Mask(63) == 0x7FFF_FFFF_FFFF_FFFF
  {
    MaskFour(0, 0x0);
    MaskFour(4, 0xF);
    MaskFour(8, 0xFF);
    MaskFour(12, 0xFFF);
    MaskFour(16, 0xFFFF);
    MaskFour(20, 0xFFFFF);
    MaskFour(24, 0xFFFFFF);
    MaskFour(28, 0xFFFFFFF);
    MaskFour(32, 0xFFFFFFFF);
    MaskFour(36, 0xFFFFFFFFF);
    MaskFour(40, 0xFFFFFFFFFF);
    MaskFour(44, 0xFFFFFFFFFFF);
    MaskFour(48, 0xFFFFFFFFFFFF);
    MaskFour(52, 0xFFFFFFFFFFFFF);
    MaskFour(56, 0xFFFFFFFFFFFFFF);
    NextMask(61, 0x0FFF_FFFF_FFFF_FFFF);
    NextMask(62, 0x1FFF_FFFF_FFFF_FFFF);
    NextMask(63, 0x3FFF_FFFF_FFFF_FFFF);
  }

  lemma LowHalf(w: bv64, m: bv64, m': bv64)
    requires Within(w, m) && Within(m, m') && m' == 0x7FFF_FFFF_FFFF_FFFF
    ensures TopClear(w)
  {
  }

  lemma ShortWord(x: nat, n: nat)
    requires n <= 63
    ensures TopClear(WordOf(x, n))
  {
    WordWithin(x, n);
    MaskGrows(n, 63);
    Mask63();
    LowHalf(WordOf(x, n), Mask(n), Mask(63));
  }

  lemma HalfOfBelow(w: bv64, b: bool)
    requires TopClear(w)
    ensures Half(Below(w, b)) == w && (Odd(Below(w, b)) <==> b)
  {
  }

  /** A number of up to 64 binary digits is the number of its word. */
  lemma {:induction false} NumberOfWord(x: nat, n: nat)
    requires x < Pow2(n) && n <= 64
    ensures Number(WordOf(x, n), n) == x
    decreases n
  {
    if n > 0 {
      ShortWord(x / 2, n - 1);
      HalfOfBelow(WordOf(x / 2, n - 1), x % 2 == 1);
      NumberOfWord(x / 2, n - 1);
    }
  }

  /** The four lowest bits are clear. */
  predicate LowClear(w: bv64) {
    w & 0xF == 0
  }

  lemma LowDigits(w: bv64)
    ensures LowClear(w) <==> !Odd(w) && !Odd(Half(w)) && !Odd(Half(Half(w))) && !Odd(Half(Half(Half(w))))
  {
  }

  /** A word has no low bits exactly when its number is a multiple of 16. */
  lemma LowClearIsMultiple(w: bv64, n: nat)
    requires n >= 4
    ensures LowClear(w) <==> Number(w, n) % 16 == 0
  {
    LowDigits(w);
    var h1 := Half(w);
    var h2 := Half(h1);
    var h3 := Half(h2);
    FourDigits(w, h1, h2, h3, Half(h3), n);
    MultipleOf16(Odd(w), Odd(h1), Odd(h2), Odd(h3), Number(Half(h3), n - 4));
  }

  lemma MultipleOf16(b0: bool, b1: bool, b2: bool, b3: bool, q: nat)
    ensures (Weight(b0) + 2 * Weight(b1) + 4 * Weight(b2) + 8 * Weight(b3) + 16 * q) % 16 == 0 <==>
            !b0 && !b1 && !b2 && !b3
  {
  }

  lemma FourDigits(w: bv64, h1: bv64, h2: bv64, h3: bv64, h4: bv64, n: nat)
    requires n >= 4 && h1 == Half(w) && h2 == Half(h1) && h3 == Half(h2) && h4 == Half(h3)
    ensures Number(w, n) == Weight(Odd(w)) + 2 * Weight(Odd(h1)) + 4 * Weight(Odd(h2)) + 8 * Weight(Odd(h3)) +
                            16 * Number(h4, n - 4)
  {
    assert Number(w, n) == Weight(Odd(w)) + 2 * Number(h1, n - 1);
    assert Number(h1, n - 1) == Weight(Odd(h1)) + 2 * Number(h2, n - 2);
    assert Number(h2, n - 2) == Weight(Odd(h2)) + 2 * Number(h3, n - 3);
    assert Number(h3, n - 3) == Weight(Odd(h3)) + 2 * Number(h4, n - 4);
  }

  // ---------------------------------------------------------------- headers as words

  const WORD_BITS: nat := 64

  /** The fields of the word that a header of the heap is stored in. */
  function AsFields(hd: Header): Fields {
    Fields(WordOf(hd.size, WORD_BITS), hd.isAllocated, hd.leftAllocated, hd.color, hd.mapped)
  }

  /** The header that the fields of a word stand for. */
  function AsHeader(f: Fields): Header {
    Header(Number(f.size, WORD_BITS), f.isAllocated, f.leftAllocated, f.color, f.mapped)
  }

  lemma SizeWord(size: nat)
    requires size <= U64_MAX
    ensures Number(WordOf(size, WORD_BITS), WORD_BITS) == size
    ensures LowClear(WordOf(size, WORD_BITS)) <==> size % 16 == 0
  {
    Pow64();
    NumberOfWord(size, WORD_BITS);
    LowClearIsMultiple(WordOf(size, WORD_BITS), WORD_BITS);
  }

  lemma Pow64()
    ensures Pow2(64) == U64_MAX + 1
  {
    assert Pow2(4) == 16;
    PowDouble(4, 16, 8);
    PowDouble(8, 0x100, 16);
    PowDouble(16, 0x1_0000, 32);
    PowDouble(32, 0x1_0000_0000, 64);
  }

  lemma PowDouble(k: nat, v: nat, k': nat)
    requires Pow2(k) == v && k' == k + k
    ensures Pow2(k') == v * v
  {
    PowSplit(k, k);
  }

  lemma SizeField(w: bv64)
    ensures LowClear(Unpack(w).size)
  {
  }

  /** A header can be read back from its word exactly when its size is a multiple of 16, as all sizes are
      that the heap writes. */
  lemma HeaderStored(hd: Header)
    requires hd.size <= U64_MAX
    ensures AsHeader(Unpack(Pack(AsFields(hd)))) == hd <==> Packable(hd.size)
  {
    var f := AsFields(hd);
    SizeWord(hd.size);
    UnpackPack(f);
    SizeField(Pack(f));
    LowClearIsMultiple(Unpack(Pack(f)).size, WORD_BITS);
  }

  class AllocHeader {
    var inner: bv64

    function View(): Fields
      reads this
    {
      Unpack(inner)
    }

    method Allocate()
      modifies this
      ensures View() == old(View()).(isAllocated := true)
    {
      inner := inner | 0x1;
    }

    method Free()
      modifies this
      ensures View() == old(View()).(isAllocated := false)
    {
      inner := inner & !0x1;
    }

    method SetMapped(mapped: bool)
      modifies this
      ensures View() == old(View()).(mapped := mapped)
    {
      if mapped {
        inner := inner | 0x8;
      } else {
        inner := inner & !0x8;
      }
    }

    method SetLeftAllocated(isAllocated: bool)
      modifies this
      ensures View() == old(View()).(leftAllocated := isAllocated)
    {
      if isAllocated {
        inner := inner | 0x2;
      } else {
        inner := inner & !0x2;
      }
    }

    method SetColor(color: Color)
      modifies this
      ensures View() == old(View()).(color := color)
    {
      match color
      case Black => inner := inner & !0x4;
      case Red => inner := inner | 0x4;
    }

    /** The size is stored, and the flags kept, exactly for multiples of 16. */
    method SetSize(size: nat)
      requires size <= U64_MAX
      modifies this
      ensures AsHeader(View()) == AsHeader(old(View())).(size := size) <==> size % 16 == 0
    {
      SetSizeIs(inner, size);
      inner := WithSize(inner, WordOf(size, WORD_BITS));
    }
  }

  /** The word with the flags of `w` and the size `size`. */
  function WithSize(w: bv64, size: bv64): bv64 {
    size | (w & 0xF)
  }

  lemma FlagsKept(w: bv64, v: bv64)
    requires LowClear(v)
    ensures Unpack(WithSize(w, v)) == Unpack(w).(size := v)
  {
  }

  lemma SetSizeIs(w: bv64, size: nat)
    requires size <= U64_MAX
    ensures AsHeader(Unpack(WithSize(w, WordOf(size, WORD_BITS)))) == AsHeader(Unpack(w)).(size := size) <==>
            size % 16 == 0
  {
    var v := WordOf(size, WORD_BITS);
    SizeWord(size);
    if size % 16 == 0 {
      FlagsKept(w, v);
    } else {
      SizeField(WithSize(w, v));
      LowClearIsMultiple(Unpack(WithSize(w, v)).size, WORD_BITS);
    }
  }
}
