/** The kernel heap hands out only memory that is backed by physical frames. */
module HeapPages {
  import opened Arith
  import opened Common
  import opened HeapLayout
  import opened KernelHeap
  import opened Pages

  ghost predicate RangeBacked(f: Frames, lo: Addr, hi: Addr) {
    forall y {:trigger HasPage(f, y)} :: lo <= y < hi ==> HasPage(f, y)
  }

  /** All bytes of a block have frames; an unmapped block has one for its start, a lost one need not have any. */
  ghost predicate BlockBacked(h: Heap, f: Frames, b: Addr) {
    && b in h.st
    && match h.st[b]
       case InUnmapped => HasPage(f, b)
       case Leaked => true
       case _ => RangeBacked(f, b, Next(h, b))
  }

  /** All blocks are backed as they should be, and so is the end of the heap. */
  ghost predicate Backed(h: Heap, f: Frames) {
    && RangeBacked(f, h.fence - MIN_BLOCK_SIZE, h.fence)
    && forall b {:trigger BlockBacked(h, f, b)} :: b in h.st ==> BlockBacked(h, f, b)
  }

  // ---------------------------------------------------------------- where blocks end

  /** A block ends where the next block, or the fence, is. */
  lemma NextUnique(h: Heap, c: Addr, x: Addr)
    requires HeapInv(h) && c in h.st && c < x <= h.fence && (x == h.fence || x in h.st)
    requires forall d {:trigger h.st[d]} :: d in h.st && c < d ==> x <= d
    ensures Next(h, c) == x
  {
    assert BlockOk(h, c);
    var y := Next(h, c);
    assert x in h.st ==> Apart(h, c, x);
    assert y in h.st ==> h.st[y] == h.st[y];
  }

  lemma ServedNext(h: Heap, h': Heap, inMapped: bool, v: nat, size: nat, b: Addr, addr: Addr, c: Addr)
    requires HeapInv(h) && HeapInv(h') && h'.fence == h.fence
    requires Served(h, inMapped, v, size, b, addr, h') && c in h.st && c != b
    ensures Next(h', c) == Next(h, c)
  {
    var x := Next(h, c);
    assert BlockOk(h, c) && BlockOk(h, b) && Apart(h, b, c) && Apart(h, c, b);
    forall d {:trigger h'.st[d]} | d in h'.st && c < d ensures x <= d {
      if d in h.st { assert Apart(h, c, d); }
    }
    NextUnique(h', c, x);
  }

  lemma ServedFront(h: Heap, h': Heap, inMapped: bool, v: nat, size: nat, b: Addr, addr: Addr)
    requires HeapInv(h) && HeapInv(h') && h'.fence == h.fence && Served(h, inMapped, v, size, b, addr, h')
    ensures var n := AllocSize(size);
            var r := b + n + HEADER_SIZE;
            if Size(h, b) >= n + MIN_BLOCK_SIZE then Next(h', b) == r && Next(h', r) == Next(h, b) && r < h.fence
            else Next(h', b) == Next(h, b)
  {
    var n := AllocSize(size);
    var r, e := b + n + HEADER_SIZE, Next(h, b);
    assert BlockOk(h, b);
    forall d {:trigger h'.st[d]} | d in h'.st && b < d ensures e <= d || (d == r && d !in h.st) {
      if d in h.st { assert Apart(h, b, d); }
    }
    if Size(h, b) >= n + MIN_BLOCK_SIZE {
      NextUnique(h', b, r);
      NextUnique(h', r, e);
    } else {
      NextUnique(h', b, e);
    }
  }

  // ---------------------------------------------------------------- requests

  /** The pages mapped for a block back its bytes and the header after it. */
  lemma FrontPages(f: Frames, f': Frames, b: Addr, n: nat, phys: Addr, y: Addr)
    requires b % 16 == 0 && n % 16 == 0 && HasPage(f, b) && b <= y <= b + n + HEADER_SIZE
    requires BlockMapped(f, f', b, n, phys)
    ensures HasPage(f', y)
  {
    MapsMore(f, f', b - b % 0x1000 + 0x1000, phys, 0x1000 * (n / 0x1000 + 1));
    if y < PageOf(b) + 0x1000 {
      SamePage(y, b);
    } else {
      LastPage(b, n);
      MapsHasPage(f, f', b - b % 0x1000 + 0x1000, phys, 0x1000 * (n / 0x1000 + 1), y);
    }
  }

  /** The last multiple of 16 in a page is 16 bytes before its end. */
  lemma LastSixteen(x: int)
    requires x % 16 == 0
    ensures x % 0x1000 <= 0xFF0
  {
    var k, q := x / 16, x / 0x1000;
    DivMod(x, 16);
    DivMod(x, 0x1000);
    assert x % 0x1000 == 16 * (k - 256 * q);
  }

  lemma LastPage(b: Addr, n: nat)
    requires b % 16 == 0 && n % 16 == 0
    ensures (b - b % 0x1000) % 0x1000 == 0 && b + n + 16 < b - b % 0x1000 + 0x1000 + 0x1000 * (n / 0x1000 + 1)
  {
    LastSixteen(b);
    LastSixteen(n);
    DivMod(b, 0x1000);
    DivMod(n, 0x1000);
    DivModUnique(b - b % 0x1000, 0x1000, b / 0x1000, 0);
  }

  lemma MoreFrames(h: Heap, f: Frames, f': Frames, b: Addr)
    requires BlockBacked(h, f, b) && f.Keys <= f'.Keys
    ensures BlockBacked(h, f', b)
  {
    if !h.st[b].Leaked? && !h.st[b].InUnmapped? {
      forall y {:trigger HasPage(f', y)} | b <= y < Next(h, b) ensures HasPage(f', y) {
        assert HasPage(f, y);
      }
    }
  }

  /** A block of the unmapped tree is backed when it is handed out. */
  lemma UnmappedServed(h: Heap, h': Heap, f: Frames, f': Frames, size: nat, b: Addr, addr: Addr, phys: Addr)
    requires HeapInv(h) && HeapInv(h') && h'.fence == h.fence && Backed(h, f)
    requires Served(h, false, PageRound(AllocSize(size)), size, b, addr, h')
    requires BlockMapped(f, f', b, AllocSize(size), phys)
    ensures var n := AllocSize(size);
            && BlockBacked(h', f', b) && f.Keys <= f'.Keys
            && (Size(h, b) >= n + MIN_BLOCK_SIZE ==> BlockBacked(h', f', b + n + HEADER_SIZE))
  {
    var n := AllocSize(size);
    assert BlockOk(h, b) && BlockBacked(h, f, b);
    ServedFront(h, h', false, PageRound(n), size, b, addr);
    MapsMore(f, f', b - b % 0x1000 + 0x1000, phys, 0x1000 * (n / 0x1000 + 1));
    forall y {:trigger HasPage(f', y)} | b <= y < Next(h', b) ensures HasPage(f', y) {
      if y <= b + n + HEADER_SIZE { FrontPages(f, f', b, n, phys, y); } else { assert HasPage(f, y); }
    }
    FrontPages(f, f', b, n, phys, b + n + HEADER_SIZE);
  }

  lemma MappedServed(h: Heap, h': Heap, f: Frames, size: nat, b: Addr, addr: Addr)
    requires HeapInv(h) && HeapInv(h') && h'.fence == h.fence && Backed(h, f)
    requires Served(h, true, AllocSize(size), size, b, addr, h')
    ensures var n := AllocSize(size);
            && BlockBacked(h', f, b) && (Size(h, b) >= n + MIN_BLOCK_SIZE ==> BlockBacked(h', f, b + n + HEADER_SIZE))
  {
    assert BlockOk(h, b) && BlockBacked(h, f, b);
    ServedFront(h, h', true, AllocSize(size), size, b, addr);
  }

  lemma ServedBacked(h: Heap, h': Heap, f: Frames, f': Frames, inMapped: bool, v: nat, size: nat, b: Addr, addr: Addr)
    requires HeapInv(h) && HeapInv(h') && h'.fence == h.fence && Backed(h, f) && f.Keys <= f'.Keys
    requires Served(h, inMapped, v, size, b, addr, h')
    requires BlockBacked(h', f', b)
    requires var n := AllocSize(size);
             Size(h, b) >= n + MIN_BLOCK_SIZE ==> BlockBacked(h', f', b + n + HEADER_SIZE)
    ensures Backed(h', f')
  {
    forall y {:trigger HasPage(f', y)} | h.fence - MIN_BLOCK_SIZE <= y < h.fence ensures HasPage(f', y) {
      assert HasPage(f, y);
    }
    var r := b + AllocSize(size) + HEADER_SIZE;
    forall c {:trigger BlockBacked(h', f', c)} | c in h'.st ensures BlockBacked(h', f', c) {
      if c != b && c in h.st {
        assert BlockBacked(h, f, c);
        MoreFrames(h, f, f', c);
        ServedNext(h, h', inMapped, v, size, b, addr, c);
        assert c == r ==> Apart(h, b, c) && BlockOk(h, b);
      }
    }
  }

  lemma LeakedBacked(h: Heap, h': Heap, f: Frames, b: Addr)
    requires HeapInv(h) && HeapInv(h') && h'.fence == h.fence && Backed(h, f) && b in h.st
    requires h'.st == h.st[b := Leaked]
    ensures Backed(h', f)
  {
    forall c {:trigger BlockBacked(h', f, c)} | c in h'.st ensures BlockBacked(h', f, c) {
      assert BlockBacked(h, f, c) && BlockOk(h, c);
      forall d {:trigger h'.st[d]} | d in h'.st && c < d ensures Next(h, c) <= d {
        assert Apart(h, c, d);
      }
      NextUnique(h', c, Next(h, c));
    }
  }

  /** Backing does not depend on the rest of memory. */
  lemma SameBlocksBacked(h: Heap, h': Heap, f: Frames)
    requires HeapInv(h) && HeapInv(h') && h'.fence == h.fence && Backed(h, f) && h'.st == h.st
    ensures Backed(h', f)
  {
    forall c {:trigger BlockBacked(h', f, c)} | c in h'.st ensures BlockBacked(h', f, c) {
      assert BlockBacked(h, f, c) && BlockOk(h, c);
      forall d {:trigger h'.st[d]} | d in h'.st && c < d ensures Next(h, c) <= d {
        assert Apart(h, c, d);
      }
      NextUnique(h', c, Next(h, c));
    }
  }

  /** After a request everything handed out is backed. */
  lemma RequestBacked(h: Heap, f: Frames, size: nat, pages: Option<Addr>, b: Addr, addr: Addr, h': Heap, f': Frames)
    requires HeapInv(h) && HeapInv(h') && h'.fence == h.fence && Backed(h, f)
    requires Kalloced(h, size, pages.Some?, b, addr, h') && FramesRel(h, f, size, pages, b, f')
    ensures Backed(h', f')
  {
    var n := AllocSize(size);
    if size == 0 {
    } else if !NoBlock(h, true, n) {
      MappedServed(h, h', f, size, b, addr);
      ServedBacked(h, h', f, f, true, n, size, b, addr);
    } else if NoBlock(h, false, PageRound(n)) {
    } else if pages.Some? {
      UnmappedServed(h, h', f, f', size, b, addr, pages.value);
      ServedBacked(h, h', f, f', false, PageRound(n), size, b, addr);
    } else {
      LeakedBacked(h, h', f, b);
    }
  }

  // ---------------------------------------------------------------- frees

  lemma FreedNext(h: Heap, b: Addr, cur: Addr, e: Addr, h': Heap, c: Addr)
    requires HeapInv(h) && HeapInv(h') && h'.fence == h.fence && b in h.st && Freed(h, b, cur, e, h')
    requires c in h'.st && c != cur
    ensures Next(h', c) == Next(h, c)
  {
    var x := Next(h, c);
    assert BlockOk(h, c) && BlockOk(h, b) && BlockOk(h, cur) && Apart(h, c, cur) && Apart(h, c, b);
    forall d {:trigger h'.st[d]} | d in h'.st && c < d ensures x <= d {
      assert Apart(h, c, d);
    }
    NextUnique(h', c, x);
  }

  lemma MergedBacked(h: Heap, f: Frames, b: Addr, cur: Addr, e: Addr, h': Heap)
    requires HeapInv(h) && Backed(h, f) && b in h.st && h.st[b].Out? && Freed(h, b, cur, e, h')
    ensures RangeBacked(f, cur, e)
  {
    assert BlockBacked(h, f, b) && BlockBacked(h, f, cur);
    var r := Next(h, b);
    if ShowsFree(h.m, r) { assert BlockBacked(h, f, r); }
    forall y {:trigger HasPage(f, y)} | cur <= y < e ensures HasPage(f, y) {
    }
  }

  /** After a free everything is still backed. */
  lemma FreeBacked(h: Heap, f: Frames, b: Addr, cur: Addr, e: Addr, h': Heap)
    requires HeapInv(h) && HeapInv(h') && h'.fence == h.fence && Backed(h, f)
    requires b in h.st && h.st[b].Out? && Freed(h, b, cur, e, h')
    ensures Backed(h', f)
  {
    MergedBacked(h, f, b, cur, e, h');
    forall c {:trigger BlockBacked(h', f, c)} | c in h'.st ensures BlockBacked(h', f, c) {
      assert BlockBacked(h, f, c);
      if c != cur { FreedNext(h, b, cur, e, h', c); }
    }
  }

  // ---------------------------------------------------------------- the first pages

  /** The pages a fresh heap needs: its first one, and those at its end. */
  ghost predicate FirstPages(heapStart: Addr, heapSize: nat, frames: Frames) {
    var fence := heapStart + (heapSize - PAGE_SIZE / 2) + HEADER_SIZE;
    HasPage(frames, heapStart) && RangeBacked(frames, fence - MIN_BLOCK_SIZE, fence)
  }

  lemma FreshBacked(h: Heap, heapStart: Addr, heapSize: nat, frames: Frames)
    requires h.st == map[heapStart := InUnmapped] && FirstPages(heapStart, heapSize, frames)
    requires h.fence == heapStart + (heapSize - PAGE_SIZE / 2) + HEADER_SIZE
    ensures Backed(h, frames)
  {
    assert BlockBacked(h, frames, heapStart);
  }

  /** The pages mapped before the kernel's own heap is set up: its first and its last one. */
  function FirstFrames(heapStart: Addr, heapSize: nat, first: Addr, last: Addr): Frames {
    map[heapStart := first, heapStart + heapSize - PAGE_SIZE := last]
  }

  /** They are enough for a heap of whole pages. */
  lemma TwoPagesEnough(heapStart: Addr, heapSize: nat, first: Addr, last: Addr)
    requires heapStart % PAGE_SIZE == 0 && heapSize % PAGE_SIZE == 0
    ensures heapSize % 16 == 0 && FirstPages(heapStart, heapSize, FirstFrames(heapStart, heapSize, first, last))
  {
    var f, page := FirstFrames(heapStart, heapSize, first, last), heapStart + heapSize - PAGE_SIZE;
    var i, n := heapStart / PAGE_SIZE, heapSize / PAGE_SIZE;
    DivMod(heapStart, PAGE_SIZE);
    DivMod(heapSize, PAGE_SIZE);
    DivModUnique(page, PAGE_SIZE, i + n - 1, 0);
    DivModUnique(heapSize, 16, 256 * n, 0);
    forall y {:trigger HasPage(f, y)} | page <= y < page + PAGE_SIZE ensures HasPage(f, y) {
      SamePage(y, page);
    }
  }
}
