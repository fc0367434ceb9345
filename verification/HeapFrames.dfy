/** Which physical memory is behind the kernel heap, over whole runs. */
module HeapFrames {
  import opened Arith
  import opened Cells
  import opened Common
  import opened HeapLayout
  import opened HeapLaws
  import opened HeapPages
  import opened HeapRuns
  import opened KernelHeap
  import opened Pages
  import opened Traces

  /** What the frame allocator answers shares no byte with a frame that is mapped. */
  ghost predicate FreshAnswer(s: State, op: Op) {
    op.Alloc? && op.pages.Some? ==>
      FreshFrames(s.frames, op.pages.value, 0x1000 * (AllocSize(op.size) / 0x1000 + 1))
  }

  lemma StepOwnFrames(ops: seq<Op>, results: seq<Addr>, trace: seq<State>, k: nat)
    requires IsRun(map[], LiveStep, StateOk, StepRel, ops, results, trace) && k < |results|
    requires OwnFrames(trace[k].frames) && FreshAnswer(trace[k], ops[k])
    ensures OwnFrames(trace[k + 1].frames)
  {
    var f, f' := trace[k].frames, trace[k + 1].frames;
    if ops[k].Alloc? {
      var b := RequestAt(ops, results, trace, k);
      var n := AllocSize(ops[k].size);
      if f' != f {
        DivModUnique(0x1000 * (n / 0x1000 + 1), 0x1000, n / 0x1000 + 1, 0);
        OwnFramesKept(f, f', b - b % 0x1000 + 0x1000, ops[k].pages.value, 0x1000 * (n / 0x1000 + 1));
      }
    } else {
      RunStep(map[], LiveStep, StateOk, StepRel, ops, results, trace, k);
    }
  }

  /** If the frame allocator never hands out a frame that is mapped, no two pages ever share a frame. */
  lemma {:induction false} RunOwnFrames(ops: seq<Op>, results: seq<Addr>, trace: seq<State>, j: nat)
    requires IsRun(map[], LiveStep, StateOk, StepRel, ops, results, trace) && j <= |results|
    requires OwnFrames(trace[0].frames)
    requires forall k {:trigger trace[k]} :: 0 <= k < j ==> FreshAnswer(trace[k], ops[k])
    ensures OwnFrames(trace[j].frames)
  {
    if j > 0 {
      RunOwnFrames(ops, results, trace, j - 1);
      StepOwnFrames(ops, results, trace, j - 1);
    }
  }

  // ---------------------------------------------------------------- physical addresses

  /** The physical address behind `y`. */
  ghost function Physical(f: Frames, y: Addr): Addr
    requires HasPage(f, y)
  {
    f[PageOf(y)] + y % 0x1000
  }

  lemma LivePage(live: map<Addr, nat>, s: State, p: Addr, y: Addr)
    requires StateOk(live, s) && p in live && p <= y < p + live[p]
    ensures HasPage(s.frames, y)
  {
    var b := p - HEADER_SIZE;
    assert TrackOk(s.h.st, live, p) && BlockOk(s.h, b) && BlockBacked(s.h, s.frames, b);
  }

  lemma PhysicalApart(f: Frames, y: Addr, z: Addr)
    requires OwnFrames(f) && HasPage(f, y) && HasPage(f, z) && y != z
    ensures Physical(f, y) != Physical(f, z)
  {
    assert PageOf(y) != PageOf(z) ==> FrameApart(f[PageOf(y)], f[PageOf(z)]);
  }

  /** No two bytes that clients hold, of one allocation or of two, are the same physical byte. */
  lemma ClientsOwnMemory(ops: seq<Op>, results: seq<Addr>, trace: seq<State>, j: nat, p: Addr, q: Addr, y: Addr,
                         z: Addr)
    requires IsRun(map[], LiveStep, StateOk, StepRel, ops, results, trace) && j <= |results|
    requires OwnFrames(trace[0].frames)
    requires forall k {:trigger trace[k]} :: 0 <= k < j ==> FreshAnswer(trace[k], ops[k])
    requires var live := HeldAfter(map[], LiveStep, ops, results, j);
             p in live && q in live && p <= y < p + live[p] && q <= z < q + live[q]
    ensures HasPage(trace[j].frames, y) && HasPage(trace[j].frames, z)
    ensures Physical(trace[j].frames, y) == Physical(trace[j].frames, z) <==> y == z
  {
    RunOwnFrames(ops, results, trace, j);
    RunSound(map[], LiveStep, StateOk, StepRel, ops, results, trace, j);
    LivePage(HeldAfter(map[], LiveStep, ops, results, j), trace[j], p, y);
    LivePage(HeldAfter(map[], LiveStep, ops, results, j), trace[j], q, z);
    if y != z { PhysicalApart(trace[j].frames, y, z); }
  }

  // ---------------------------------------------------------------- memory that stays where it is

  /** Pages are mapped behind the start of the last block only, so those of the other blocks stay. */
  lemma EarlierPagesKept(f: Frames, f': Frames, b: Addr, n: nat, phys: Addr, y: Addr)
    requires BlockMapped(f, f', b, n, phys) && HasPage(f, y) && y < b
    ensures HasPage(f', y) && Physical(f', y) == Physical(f, y)
  {
    var virt, len := b - b % 0x1000 + 0x1000, 0x1000 * (n / 0x1000 + 1);
    assert FrameOk(f, f', virt, phys, len, PageOf(y));
  }

  lemma StepPhysical(ops: seq<Op>, results: seq<Addr>, trace: seq<State>, k: nat, p: Addr, y: Addr)
    requires IsRun(map[], LiveStep, StateOk, StepRel, ops, results, trace) && k < |results|
    requires var live := HeldAfter(map[], LiveStep, ops, results, k); p in live && p <= y < p + live[p]
    ensures HasPage(trace[k].frames, y) && HasPage(trace[k + 1].frames, y)
    ensures Physical(trace[k + 1].frames, y) == Physical(trace[k].frames, y)
  {
    var h, f, f', live := trace[k].h, trace[k].frames, trace[k + 1].frames, HeldAfter(map[], LiveStep, ops, results, k);
    RunStep(map[], LiveStep, StateOk, StepRel, ops, results, trace, k);
    LivePage(live, trace[k], p, y);
    if ops[k].Alloc? {
      var b := RequestAt(ops, results, trace, k);
      if f' != f {
        BeforeUnmapped(h, live, p, y, b);
        EarlierPagesKept(f, f', b, AllocSize(ops[k].size), ops[k].pages.value, y);
      }
    }
  }

  lemma BeforeUnmapped(h: Heap, live: map<Addr, nat>, p: Addr, y: Addr, b: Addr)
    requires HeapInv(h) && Tracks(h.st, live) && p in live && p <= y < p + live[p]
    requires b in h.st && h.st[b] == InUnmapped
    ensures y < b
  {
    var c := p - HEADER_SIZE;
    assert TrackOk(h.st, live, p) && BlockOk(h, c) && BlockOk(h, b) && Apart(h, c, b) && Apart(h, b, c);
  }

  /** From one point of a run to any later one, the bytes of an allocation that is not given back stay at the same
      physical addresses. */
  lemma {:induction false} RunPhysical(ops: seq<Op>, results: seq<Addr>, trace: seq<State>, p: Addr, y: Addr, i: nat,
                                       j: nat)
    requires IsRun(map[], LiveStep, StateOk, StepRel, ops, results, trace) && i <= j <= |results|
    requires var live := HeldAfter(map[], LiveStep, ops, results, i); p in live && p <= y < p + live[p]
    requires forall k {:trigger ops[k]} :: i <= k < j ==> ops[k] != Free(p)
    ensures HasPage(trace[i].frames, y) && HasPage(trace[j].frames, y)
    ensures Physical(trace[j].frames, y) == Physical(trace[i].frames, y)
  {
    LiveKept(ops, results, trace, p, i, j);
    RunSound(map[], LiveStep, StateOk, StepRel, ops, results, trace, i);
    LivePage(HeldAfter(map[], LiveStep, ops, results, i), trace[i], p, y);
    if i < j {
      LiveKept(ops, results, trace, p, i, j - 1);
      RunPhysical(ops, results, trace, p, y, i, j - 1);
      StepPhysical(ops, results, trace, j - 1, p, y);
    }
  }

  /** What is not given back stays with its client, with the size asked for. */
  lemma {:induction false} LiveKept(ops: seq<Op>, results: seq<Addr>, trace: seq<State>, p: Addr, i: nat, j: nat)
    requires IsRun(map[], LiveStep, StateOk, StepRel, ops, results, trace) && i <= j <= |results|
    requires p in HeldAfter(map[], LiveStep, ops, results, i)
    requires forall k {:trigger ops[k]} :: i <= k < j ==> ops[k] != Free(p)
    ensures var live, live' := HeldAfter(map[], LiveStep, ops, results, i), HeldAfter(map[], LiveStep, ops, results, j);
            p in live' && live'[p] == live[p]
  {
    if i < j {
      LiveKept(ops, results, trace, p, i, j - 1);
      if ops[j - 1].Alloc? { NewPointer(ops, results, trace, p, j - 1); }
    }
  }

  lemma NewPointer(ops: seq<Op>, results: seq<Addr>, trace: seq<State>, p: Addr, k: nat)
    requires IsRun(map[], LiveStep, StateOk, StepRel, ops, results, trace) && k < |results| && ops[k].Alloc?
    requires p in HeldAfter(map[], LiveStep, ops, results, k)
    ensures results[k] == 0 || results[k] != p
  {
    RunSound(map[], LiveStep, StateOk, StepRel, ops, results, trace, k);
    var b := RequestAt(ops, results, trace, k);
    assert TrackOk(trace[k].h.st, HeldAfter(map[], LiveStep, ops, results, k), p);
    assert BlockOk(trace[k].h, p - HEADER_SIZE);
  }

  // ---------------------------------------------------------------- the last page

  /** A page that has a frame keeps it through a request for `n` bytes exactly when it is not among those behind the
      start of the block, one more than the whole pages in `n`. */
  lemma PageKept(f: Frames, f': Frames, b: Addr, n: nat, phys: Addr, a: Addr)
    requires BlockMapped(f, f', b, n, phys) && FreshFrames(f, phys, 0x1000 * (n / 0x1000 + 1))
    requires a in f && a % 0x1000 == 0
    ensures a in f'
    ensures f'[a] == f[a] <==> a <= b || b - b % 0x1000 + 0x1000 * (n / 0x1000 + 1) < a
  {
    var virt, len := b - b % 0x1000 + 0x1000, 0x1000 * (n / 0x1000 + 1);
    assert FrameOk(f, f', virt, phys, len, a);
    DivMod(a, 0x1000);
    DivMod(b, 0x1000);
    DivModUnique(a - virt, 0x1000, a / 0x1000 - b / 0x1000 - 1, 0);
  }

  ghost predicate PageHas(f: Frames, virt: Addr, phys: Addr, i: nat) {
    virt + 0x1000 * i in f && f[virt + 0x1000 * i] == phys + 0x1000 * i
  }

  lemma MappedInOrder(f: Frames, f': Frames, b: Addr, n: nat, phys: Addr, i: nat)
    requires BlockMapped(f, f', b, n, phys) && i <= n / 0x1000
    ensures PageHas(f', b - b % 0x1000 + 0x1000, phys, i)
  {
    var virt, len := b - b % 0x1000 + 0x1000, 0x1000 * (n / 0x1000 + 1);
    assert FrameOk(f, f', virt, phys, len, virt + 0x1000 * i);
    DivModUnique(0x1000 * i, 0x1000, i, 0);
  }

  /** The first request on the kernel's own heap: its pages follow the first one in order. The last page of the heap,
      with its sentinels in it, keeps its frame exactly when the pages mapped end before it. */
  method FirstRequest(mem: Memory, heapStart: Addr, heapSize: nat, first: Addr, last: Addr, req: nat, align: nat,
                      phys: Addr)
    returns (heap: KernelHeapAllocator, addr: Addr)
    requires heapStart >= 0 && heapStart % PAGE_SIZE == 0 && heapSize > MIN_HEAP_SIZE && heapSize % PAGE_SIZE == 0
    requires heapStart + heapSize <= U64_MAX
    requires forall x :: heapStart <= x < heapStart + heapSize ==> x in mem.cells
    requires !mem.cells[heapStart + (heapSize - PAGE_SIZE / 2) + HEADER_SIZE].header.mapped
    requires 0 < req && req + 0x2000 <= heapSize && req <= MAX_LAYOUT_SIZE
    requires FreshFrames(map[heapStart := first, heapStart + heapSize - 0x1000 := last], phys,
                         0x1000 * (AllocSize(req) / 0x1000 + 1))
    modifies mem
    ensures addr == heapStart + 16
    ensures forall i: nat {:trigger PageHas(heap.frames, heapStart + 0x1000, phys, i)} ::
              i <= AllocSize(req) / 0x1000 ==> PageHas(heap.frames, heapStart + 0x1000, phys, i)
    ensures var page := heapStart + heapSize - 0x1000;
            && page in heap.frames
            && (heap.frames[page] == last <==> 0x1000 * (AllocSize(req) / 0x1000 + 2) < heapSize)
  {
    heap := InitKernelHeap(mem, heapStart, heapSize, first, last);
    ghost var h, f, b := heap.Layout(), heap.frames, 0;
    addr, b := heap.KallocLayout(req, align, Some(phys));
    FirstServed(h, heapStart, heapSize, req, b, addr, heap.Layout());
    FirstFramesAfter(h, heapStart, heapSize, req, b, addr, heap.Layout(), f, first, last, phys, heap.frames);
  }

  lemma FirstFramesAfter(h: Heap, heapStart: Addr, heapSize: nat, req: nat, b: Addr, addr: Addr, h': Heap, f: Frames,
                         first: Addr, last: Addr, phys: Addr, f': Frames)
    requires heapStart % 0x1000 == 0 && heapSize % 0x1000 == 0 && heapSize > 0x1000
    requires HeapInv(h) && h.st == map[heapStart := InUnmapped] && 0 < req
    requires Kalloced(h, req, true, b, addr, h') && addr == heapStart + HEADER_SIZE && heapStart >= 0
    requires f == map[heapStart := first, heapStart + heapSize - 0x1000 := last]
    requires FreshFrames(f, phys, 0x1000 * (AllocSize(req) / 0x1000 + 1)) && FramesRel(h, f, req, Some(phys), b, f')
    ensures forall i: nat {:trigger PageHas(f', heapStart + 0x1000, phys, i)} ::
              i <= AllocSize(req) / 0x1000 ==> PageHas(f', heapStart + 0x1000, phys, i)
    ensures var page := heapStart + heapSize - 0x1000;
            page in f' && (f'[page] == last <==> 0x1000 * (AllocSize(req) / 0x1000 + 2) < heapSize)
  {
    assert b == heapStart && BlockMapped(f, f', heapStart, AllocSize(req), phys);
    forall i: nat {:trigger PageHas(f', heapStart + 0x1000, phys, i)} | i <= AllocSize(req) / 0x1000
      ensures PageHas(f', heapStart + 0x1000, phys, i)
    {
      MappedInOrder(f, f', heapStart, AllocSize(req), phys, i);
    }
    LastPageAligned(heapStart, heapSize);
    PageKept(f, f', heapStart, AllocSize(req), phys, heapStart + heapSize - 0x1000);
  }

  lemma LastPageAligned(heapStart: Addr, heapSize: nat)
    requires heapStart % 0x1000 == 0 && heapSize % 0x1000 == 0
    ensures (heapStart + heapSize - 0x1000) % 0x1000 == 0
  {
    DivMod(heapStart, 0x1000);
    DivMod(heapSize, 0x1000);
    DivModUnique(heapStart + heapSize - 0x1000, 0x1000, heapStart / 0x1000 + heapSize / 0x1000 - 1, 0);
  }
}
