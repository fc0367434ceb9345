/** Memory as bytes, and the eight-byte links stored in it. */
module Links {
  import opened Common

  type Bytes = map<Addr, Byte>

  const LINK_SIZE: nat := 8

  /** The number whose little-endian digits are the bytes from `x` to `e`. */
  function Read(m: Bytes, x: Addr, e: Addr): nat
    decreases e - x
  {
    if x >= e then 0 else (if x in m then m[x] else 0) + 256 * Read(m, x + 1, e)
  }

  /** The memory with the digits of `v` stored from `x` to `e`. */
  function Write(m: Bytes, x: Addr, e: Addr, v: nat): Bytes
    decreases e - x
  {
    if x >= e then m else Write(m[x := v % 256], x + 1, e, v / 256)
  }

  /** The least number with too many digits for `n` bytes. */
  function Limit(n: nat): nat {
    if n == 0 then 1 else 256 * Limit(n - 1)
  }

  ghost predicate SameByte(m: Bytes, m': Bytes, y: Addr) {
    (y in m' <==> y in m) && (y in m ==> m'[y] == m[y])
  }

  /** Nothing but the bytes from `x` to `e` changed. */
  ghost predicate OnlyIn(m: Bytes, m': Bytes, x: Addr, e: Addr) {
    && m.Keys <= m'.Keys
    && forall y {:trigger SameByte(m, m', y)} :: !(x <= y < e) ==> SameByte(m, m', y)
  }

  lemma {:induction false} WriteOnly(m: Bytes, x: Addr, e: Addr, v: nat)
    ensures OnlyIn(m, Write(m, x, e, v), x, e)
    decreases e - x
  {
    if x < e {
      var m1, m' := m[x := v % 256], Write(m, x, e, v);
      WriteOnly(m1, x + 1, e, v / 256);
      forall y {:trigger SameByte(m, m', y)} | !(x <= y < e) ensures SameByte(m, m', y) {
        assert SameByte(m1, m', y);
      }
    }
  }

  /** A number depends on its own bytes only. */
  lemma {:induction false} ReadSame(m: Bytes, m': Bytes, x: Addr, e: Addr)
    requires forall y {:trigger SameByte(m, m', y)} :: x <= y < e ==> SameByte(m, m', y)
    ensures Read(m', x, e) == Read(m, x, e)
    decreases e - x
  {
    if x < e {
      assert SameByte(m, m', x);
      ReadSame(m, m', x + 1, e);
    }
  }

  lemma {:induction false} ReadWritten(m: Bytes, x: Addr, e: Addr, v: nat)
    requires x <= e && v < Limit(e - x)
    ensures Read(Write(m, x, e, v), x, e) == v
    decreases e - x
  {
    if x < e {
      var m1, m' := m[x := v % 256], Write(m, x, e, v);
      WriteOnly(m1, x + 1, e, v / 256);
      assert SameByte(m1, m', x);
      ReadWritten(m1, x + 1, e, v / 256);
    }
  }

  // ---------------------------------------------------------------- links

  function Link(m: Bytes, x: Addr): nat {
    Read(m, x, x + LINK_SIZE)
  }

  function SetLink(m: Bytes, x: Addr, v: nat): Bytes {
    Write(m, x, x + LINK_SIZE, v)
  }

  lemma {:induction false} LimitStep(n: nat, v: nat)
    requires n > 0 && Limit(n - 1) == v
    ensures Limit(n) == 256 * v
  {
  }

  lemma LinkLimit()
    ensures Limit(LINK_SIZE) == U64_MAX + 1
  {
    LimitStep(1, 1);
    LimitStep(2, 0x100);
    LimitStep(3, 0x1_0000);
    LimitStep(4, 0x100_0000);
    LimitStep(5, 0x1_0000_0000);
    LimitStep(6, 0x100_0000_0000);
    LimitStep(7, 0x1_0000_0000_0000);
    LimitStep(8, 0x100_0000_0000_0000);
  }

  /** A link can be read back; its lowest byte comes first. */
  lemma LinkSet(m: Bytes, x: Addr, v: nat)
    requires v <= U64_MAX
    ensures Link(SetLink(m, x, v), x) == v
    ensures x in SetLink(m, x, v) && SetLink(m, x, v)[x] == v % 256
  {
    LinkLimit();
    ReadWritten(m, x, x + LINK_SIZE, v);
    WriteOnly(m[x := v % 256], x + 1, x + LINK_SIZE, v / 256);
    assert SameByte(m[x := v % 256], SetLink(m, x, v), x);
  }

  lemma SetLinkOnly(m: Bytes, x: Addr, v: nat)
    ensures OnlyIn(m, SetLink(m, x, v), x, x + LINK_SIZE)
  {
    WriteOnly(m, x, x + LINK_SIZE, v);
  }

  /** A link whose bytes did not change. */
  lemma LinkSame(m: Bytes, m': Bytes, x: Addr, e: Addr, y: Addr)
    requires OnlyIn(m, m', x, e) && (y + LINK_SIZE <= x || e <= y)
    ensures Link(m', y) == Link(m, y)
  {
    forall z {:trigger SameByte(m, m', z)} | y <= z < y + LINK_SIZE ensures SameByte(m, m', z) {
    }
    ReadSame(m, m', y, y + LINK_SIZE);
  }
}
