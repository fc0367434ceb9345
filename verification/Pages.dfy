/** The pages of virtual memory that are mapped to physical frames. */
module Pages {
  import opened Arith
  import opened Common

  const PAGE_SIZE: nat := 0x1000

  /** The frame of each page that is mapped, both by their first address. */
  type Frames = map<Addr, Addr>

  function PageOf(a: Addr): Addr {
    a - a % PAGE_SIZE
  }

  lemma SamePage(a: Addr, b: Addr)
    requires PageOf(b) <= a < PageOf(b) + PAGE_SIZE
    ensures PageOf(a) == PageOf(b)
  {
    var q := b / PAGE_SIZE;
    DivMod(b, PAGE_SIZE);
    DivModUnique(a, PAGE_SIZE, q, a - PAGE_SIZE * q);
  }

  predicate HasPage(f: Frames, a: Addr) {
    PageOf(a) in f
  }

  function PageAt(base: Addr, i: nat): Addr {
    base + i * PAGE_SIZE
  }

  /** Maps `n` pages from `virt` to consecutive frames from `phys`. */
  function MapPages(f: Frames, virt: Addr, phys: Addr, n: nat): Frames {
    if n == 0 then f else MapPages(f, virt, phys, n - 1)[PageAt(virt, n - 1) := PageAt(phys, n - 1)]
  }

  /** The page at `a` after `len` bytes from `virt` were mapped to the frames from `phys`: its distance from
      `virt` is the distance of its frame from `phys`, and a page outside is as before. */
  ghost predicate FrameOk(f: Frames, f': Frames, virt: Addr, phys: Addr, len: nat, a: Addr) {
    if virt <= a < virt + len && (a - virt) % 0x1000 == 0 then a in f' && f'[a] == phys + (a - virt)
    else (a in f' <==> a in f) && (a in f ==> f'[a] == f[a])
  }

  ghost predicate MapsTo(f: Frames, f': Frames, virt: Addr, phys: Addr, len: nat) {
    forall a {:trigger FrameOk(f, f', virt, phys, len, a)} :: FrameOk(f, f', virt, phys, len, a)
  }

  lemma {:induction false} MapPagesIs(f: Frames, virt: Addr, phys: Addr, n: nat)
    ensures MapsTo(f, MapPages(f, virt, phys, n), virt, phys, 0x1000 * n)
  {
    var f' := MapPages(f, virt, phys, n);
    if n > 0 {
      var f1 := MapPages(f, virt, phys, n - 1);
      MapPagesIs(f, virt, phys, n - 1);
      forall a {:trigger FrameOk(f, f', virt, phys, 0x1000 * n, a)} ensures FrameOk(f, f', virt, phys, 0x1000 * n, a) {
        assert FrameOk(f, f1, virt, phys, 0x1000 * (n - 1), a);
        if virt + 0x1000 * (n - 1) <= a < virt + 0x1000 * n && (a - virt) % 0x1000 == 0 { LastOne(a - virt, n); }
      }
    } else {
      forall a {:trigger FrameOk(f, f', virt, phys, 0, a)} ensures FrameOk(f, f', virt, phys, 0, a) {
      }
    }
  }

  lemma LastOne(d: nat, n: nat)
    requires n > 0 && 0x1000 * (n - 1) <= d < 0x1000 * n && d % 0x1000 == 0
    ensures d == 0x1000 * (n - 1)
  {
    DivMod(d, 0x1000);
  }

  // ---------------------------------------------------------------- frames that differ

  predicate FrameApart(p: Addr, q: Addr) {
    p + 0x1000 <= q || q + 0x1000 <= p
  }

  /** No two pages share a byte of physical memory. */
  ghost predicate OwnFrames(f: Frames) {
    forall a, b {:trigger f[a], f[b]} :: a in f && b in f && a != b ==> FrameApart(f[a], f[b])
  }

  /** The frame allocator's answer `phys` shares no byte with a frame in use. */
  ghost predicate FreshFrames(f: Frames, phys: Addr, len: nat) {
    forall a {:trigger f[a]} :: a in f ==> f[a] + 0x1000 <= phys || phys + len <= f[a]
  }

  lemma OwnFramesKept(f: Frames, f': Frames, virt: Addr, phys: Addr, len: nat)
    requires MapsTo(f, f', virt, phys, len) && OwnFrames(f) && FreshFrames(f, phys, len) && len % 0x1000 == 0
    ensures OwnFrames(f')
  {
    forall a, b {:trigger f'[a], f'[b]} | a in f' && b in f' && a != b ensures FrameApart(f'[a], f'[b]) {
      assert FrameOk(f, f', virt, phys, len, a) && FrameOk(f, f', virt, phys, len, b);
      WholePages(a - virt, b - virt, len);
    }
  }

  lemma WholePages(d: int, e: int, len: nat)
    requires len % 0x1000 == 0 && d != e
    ensures d % 0x1000 == 0 && e % 0x1000 == 0 ==> d + 0x1000 <= e || e + 0x1000 <= d
    ensures d % 0x1000 == 0 && d < len ==> d + 0x1000 <= len
    ensures e % 0x1000 == 0 && e < len ==> e + 0x1000 <= len
  {
    DivMod(d, 0x1000);
    DivMod(e, 0x1000);
    DivMod(len, 0x1000);
  }

  // ---------------------------------------------------------------- pages that are there

  lemma MapsMore(f: Frames, f': Frames, virt: Addr, phys: Addr, len: nat)
    requires MapsTo(f, f', virt, phys, len)
    ensures f.Keys <= f'.Keys
  {
    forall a | a in f ensures a in f' {
      assert FrameOk(f, f', virt, phys, len, a);
    }
  }

  /** Every address from `virt`, which is the start of a page, to the end of what was mapped has a page. */
  lemma MapsHasPage(f: Frames, f': Frames, virt: Addr, phys: Addr, len: nat, a: Addr)
    requires MapsTo(f, f', virt, phys, len) && virt % 0x1000 == 0 && virt <= a < virt + len
    ensures HasPage(f', a)
  {
    var i := (a - virt) / 0x1000;
    DivMod(a - virt, 0x1000);
    DivMod(virt, 0x1000);
    DivModUnique(a, 0x1000, virt / 0x1000 + i, (a - virt) % 0x1000);
    DivModUnique(PageOf(a) - virt, 0x1000, i, 0);
    assert FrameOk(f, f', virt, phys, len, PageOf(a));
  }
}
