/** What freeing undoes: laws about the kernel heap's operations one after another. */
module HeapLaws {
  import opened Common
  import opened HeapLayout
  import opened HeapPages
  import opened HeapRuns
  import opened KernelHeap
  import opened Traces

  /** The two heaps have the same blocks, in the same places and of the same sizes. */
  ghost predicate SameBlocks(h: Heap, h': Heap) {
    h'.st == h.st && forall c {:trigger h.st[c]} :: c in h.st ==> Size(h', c) == Size(h, c)
  }

  ghost predicate SameBounds(h: Heap, h': Heap) {
    h'.start == h.start && h'.fence == h.fence
  }

  /** Where the same blocks start they also end. */
  lemma SameStarts(h: Heap, h': Heap)
    requires HeapInv(h) && HeapInv(h') && SameBounds(h, h') && h'.st == h.st
    ensures SameBlocks(h, h')
  {
    forall c {:trigger h.st[c]} | c in h.st ensures Size(h', c) == Size(h, c) {
      assert BlockOk(h, c);
      forall d {:trigger h'.st[d]} | d in h'.st && c < d ensures Next(h, c) <= d {
        assert Apart(h, c, d);
      }
      NextUnique(h', c, Next(h, c));
    }
  }

  /** Where the free block that contains `b` ends when a block taken from the mapped tree is given back at once:
      the rest of it is merged again exactly when the allocated bit at the place of the rest was clear, and a
      block handed out whole is merged with a right neighbour that shows free. Nothing on the left is merged. */
  lemma FreeAtOnce(h: Heap, size: nat, b: Addr, addr: Addr, h': Heap, cur: Addr, e: Addr, h'': Heap)
    requires HeapInv(h) && HeapInv(h') && SameBounds(h, h')
    requires Served(h, true, AllocSize(size), size, b, addr, h') && Freed(h', b, cur, e, h'')
    ensures cur == b
    ensures var r := b + AllocSize(size) + 16;
            if Size(h, b) >= AllocSize(size) + 128
            then r in h.m && e == if h.m[r].header.isAllocated then r else Next(h, b)
            else e == if ShowsFree(h.m, Next(h, b)) then Next(h, Next(h, b)) else Next(h, b)
  {
    var n := AllocSize(size);
    var r := b + n + HEADER_SIZE;
    assert BlockOk(h, b) && BlockOk(h', b);
    ServedFront(h, h', true, n, size, b, addr);
    if Size(h, b) >= n + MIN_BLOCK_SIZE {
      assert h'.m[r].header.isAllocated == h.m[r].header.isAllocated && h'.m[r].header.mapped;
    } else if Next(h, b) in h.st {
      ServedNext(h, h', true, n, size, b, addr, Next(h, b));
    }
  }

  /** A request served by a part of a mapped block is undone by giving the part back at once, blocks and sizes,
      exactly when the allocated bit at the place of the rest was clear. */
  lemma FreeUndoesSplit(h: Heap, size: nat, b: Addr, addr: Addr, h': Heap, cur: Addr, e: Addr, h'': Heap)
    requires HeapInv(h) && HeapInv(h') && HeapInv(h'') && SameBounds(h, h') && SameBounds(h', h'')
    requires Served(h, true, AllocSize(size), size, b, addr, h') && Freed(h', b, cur, e, h'')
    requires Size(h, b) >= AllocSize(size) + 128
    ensures b + AllocSize(size) + 16 in h.m
    ensures SameBlocks(h, h'') <==> !h.m[b + AllocSize(size) + 16].header.isAllocated
  {
    var r := b + AllocSize(size) + HEADER_SIZE;
    FreeAtOnce(h, size, b, addr, h', cur, e, h'');
    assert BlockOk(h, b);
    assert r in h.st ==> Apart(h, b, r);
    if !h.m[r].header.isAllocated {
      forall c ensures c in h''.st <==> c in h.st {
        if c in h.st { assert Apart(h, b, c); }
      }
      assert h''.st == h.st;
      SameStarts(h, h'');
    } else {
      assert r in h''.st;
    }
  }

  /** A part of an unmapped block stays a block of its own when it is given back at once: it moves to the mapped
      tree, and the rest stays in the unmapped one. */
  lemma UnmappedAtOnce(h: Heap, size: nat, b: Addr, addr: Addr, h': Heap, cur: Addr, e: Addr, h'': Heap)
    requires HeapInv(h) && HeapInv(h') && SameBounds(h, h')
    requires Served(h, false, PageRound(AllocSize(size)), size, b, addr, h') && Freed(h', b, cur, e, h'')
    ensures cur == b && e == if Size(h, b) >= AllocSize(size) + 128 then b + AllocSize(size) + 16 else h.fence
    ensures h''.st == h'.st[b := InMapped]
  {
    var n := AllocSize(size);
    assert BlockOk(h, b) && BlockOk(h', b);
    ServedFront(h, h', false, PageRound(n), size, b, addr);
    forall c ensures c in h''.st <==> c in h'.st {
      if c in h'.st { assert Apart(h', b, c); }
    }
  }

  // ---------------------------------------------------------------- two neighbours

  /** Two outstanding neighbours that are given back one after the other, the left one first, become one block. */
  lemma LeftThenRight(h: Heap, b: Addr, c: Addr, cur: Addr, e: Addr, h': Heap, cur': Addr, e': Addr, h'': Heap)
    requires HeapInv(h) && HeapInv(h') && SameBounds(h, h')
    requires b in h.st && h.st[b].Out? && c in h.st && h.st[c].Out? && c == Next(h, b)
    requires Freed(h, b, cur, e, h') && Freed(h', c, cur', e', h'')
    ensures e == c && cur' == cur && cur <= b && Next(h, c) <= e'
  {
    assert BlockOk(h, b) && BlockOk(h, c) && BlockOk(h', c) && BlockOk(h', cur);
    assert Apart(h', cur, cur') && Apart(h', cur', cur);
    if Next(h, c) in h.st { assert BlockOk(h, Next(h, c)); }
  }

  /** The right one first, they stay two blocks: giving a block back leaves its allocated bit set, and the scan
      to the right goes by that bit. */
  lemma RightThenLeft(h: Heap, b: Addr, c: Addr, cur: Addr, e: Addr, h': Heap, cur': Addr, e': Addr, h'': Heap)
    requires HeapInv(h) && HeapInv(h') && SameBounds(h, h')
    requires b in h.st && h.st[b].Out? && c in h.st && h.st[c].Out? && c == Next(h, b)
    requires Freed(h, c, cur, e, h') && Freed(h', b, cur', e', h'')
    ensures cur == c && e' == c && c in h''.st && h''.st[c] == InMapped
  {
    assert BlockOk(h, b) && BlockOk(h, c) && Apart(h, cur, b) && Apart(h, b, cur);
    assert cur == c;
    FreedNext(h, c, cur, e, h', b);
  }

  // ---------------------------------------------------------------- in every run

  /** In any run, a request that is answered with a part of a mapped block and given back by the next operation
      leaves the blocks as they were exactly when the allocated bit at the place of the rest was clear. */
  lemma RunUndoesSplit(ops: seq<Op>, results: seq<Addr>, trace: seq<State>, i: nat)
    requires IsRun(map[], LiveStep, StateOk, StepRel, ops, results, trace) && i + 1 < |results|
    requires ops[i].Alloc? && results[i] != 0 && ops[i + 1] == Free(results[i])
    requires !NoBlock(trace[i].h, true, AllocSize(ops[i].size))
    ensures var h, b, n := trace[i].h, results[i] - 16, AllocSize(ops[i].size);
            b in h.st && h.st[b] == InMapped && (Size(h, b) >= n + 128 ==>
              && b + n + 16 in h.m
              && (SameBlocks(h, trace[i + 2].h) <==> !h.m[b + n + 16].header.isAllocated))
  {
    var op, r, s, s', s'' := ops[i], results[i], trace[i], trace[i + 1], trace[i + 2];
    var block := RequestAt(ops, results, trace, i);
    var cur, e := FreeAt(ops, results, trace, i + 1);
    assert BlockOk(s.h, block);
    if Size(s.h, block) >= AllocSize(op.size) + 128 {
      FreeUndoesSplit(s.h, op.size, block, r, s'.h, cur, e, s''.h);
    }
  }

  lemma RequestAt(ops: seq<Op>, results: seq<Addr>, trace: seq<State>, i: nat) returns (block: Addr)
    requires IsRun(map[], LiveStep, StateOk, StepRel, ops, results, trace) && i < |results| && ops[i].Alloc?
    ensures Kalloced(trace[i].h, ops[i].size, ops[i].pages.Some?, block, results[i], trace[i + 1].h)
    ensures FramesRel(trace[i].h, trace[i].frames, ops[i].size, ops[i].pages, block, trace[i + 1].frames)
    ensures HeapInv(trace[i].h) && HeapInv(trace[i + 1].h) && SameBounds(trace[i].h, trace[i + 1].h)
  {
    RunStep(map[], LiveStep, StateOk, StepRel, ops, results, trace, i);
    RunSound(map[], LiveStep, StateOk, StepRel, ops, results, trace, i + 1);
    block :| Requested(trace[i], ops[i].size, ops[i].pages, block, results[i], trace[i + 1]);
  }

  /** The operation after a request that was answered gives the answer back. */
  lemma FreeAt(ops: seq<Op>, results: seq<Addr>, trace: seq<State>, i: nat) returns (cur: Addr, e: Addr)
    requires IsRun(map[], LiveStep, StateOk, StepRel, ops, results, trace) && 0 < i < |results|
    requires ops[i - 1].Alloc? && results[i - 1] != 0 && ops[i] == Free(results[i - 1])
    ensures Freed(trace[i].h, results[i - 1] - 16, cur, e, trace[i + 1].h)
    ensures HeapInv(trace[i + 1].h) && SameBounds(trace[i].h, trace[i + 1].h)
  {
    RunStep(map[], LiveStep, StateOk, StepRel, ops, results, trace, i);
    RunSound(map[], LiveStep, StateOk, StepRel, ops, results, trace, i + 1);
    cur, e :| Kfreed(trace[i].h, results[i - 1], cur, e, trace[i + 1].h);
  }
}
