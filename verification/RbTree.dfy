/** The red-black tree of the kernel heap, updated in place in the cells of a memory. */
module RbTree {
  import opened Cells
  import opened Common
  import opened RbShape
  import opened RbColor
  import opened RbFix
  import opened Arith
  import opened RbAlgebra

  class RbTree {
    const mem: Memory
    const nil: Addr
    var root: Addr
    var count: int
    /** The addresses of the nodes in order. */
    ghost var s: seq<Addr>
    ghost var iv: map<Addr, Span>
    ghost var bh: map<Addr, nat>

    ghost function Snapshot(): View
      reads this, mem
    {
      View(mem.cells, nil, root, s, iv)
    }

    ghost predicate Valid()
      reads this, mem
    {
      Rb(Snapshot(), bh) && Sorted(mem.cells, s) && count == |s|
    }

    /** A tree of one node with an empty header, at `rootAddr`, and its sentinel at `nilAddr`. */
    constructor (mem: Memory, rootAddr: Addr, nilAddr: Addr)
      requires rootAddr in mem.cells && nilAddr in mem.cells && rootAddr != nilAddr
      modifies mem
      ensures Valid() && this.mem == mem && nil == nilAddr && s == [rootAddr] && iv.Keys == {rootAddr}
      ensures mem.cells == old(mem.cells)[rootAddr := Node(NULL_HEADER, nilAddr, nilAddr, nilAddr)]
                                         [nilAddr := Node(NULL_HEADER, 0, 0, 0)]
    {
      this.mem := mem;
      nil := nilAddr;
      root := rootAddr;
      count := 1;
      s := [rootAddr];
      iv := map[rootAddr := Span(0, 0, 1)];
      bh := map[rootAddr := 1];
      new;
      mem.cells := mem.cells[rootAddr := Node(NULL_HEADER, nilAddr, nilAddr, nilAddr)];
      mem.cells := mem.cells[nilAddr := Node(NULL_HEADER, 0, 0, 0)];
      assert NodeOk(Snapshot(), rootAddr);
    }

    method LeftRotate(center: Addr)
      requires RotLeftSafe(mem.cells, nil, center)
      modifies this`root, mem
      ensures mem.cells == RotLeftCells(old(mem.cells), nil, center)
      ensures root == if old(mem.cells[center].parent) == nil then old(mem.cells[center].right) else old(root)
    {
      ghost var m := mem.cells;
      var rightChild := mem.cells[center].right;
      mem.SetRight(center, mem.cells[rightChild].left);
      if mem.cells[rightChild].left != nil {
        mem.SetParent(mem.cells[rightChild].left, center);
      }
      mem.SetParent(rightChild, mem.cells[center].parent);
      if mem.cells[center].parent == nil {
        root := rightChild;
      } else if center == mem.cells[mem.cells[center].parent].left {
        mem.SetLeft(mem.cells[center].parent, rightChild);
      } else {
        mem.SetRight(mem.cells[center].parent, rightChild);
      }
      mem.SetLeft(rightChild, center);
      mem.SetParent(center, rightChild);
      assert mem.cells == RotLeftCells(m, nil, center);
    }

    method RightRotate(center: Addr)
      requires RotRightSafe(mem.cells, nil, center)
      modifies this`root, mem
      ensures mem.cells == RotRightCells(old(mem.cells), nil, center)
      ensures root == if old(mem.cells[center].parent) == nil then old(mem.cells[center].left) else old(root)
    {
      ghost var m := mem.cells;
      var leftChild := mem.cells[center].left;
      mem.SetLeft(center, mem.cells[leftChild].right);
      if mem.cells[leftChild].right != nil {
        mem.SetParent(mem.cells[leftChild].right, center);
      }
      mem.SetParent(leftChild, mem.cells[center].parent);
      if mem.cells[center].parent == nil {
        root := leftChild;
      } else if center == mem.cells[mem.cells[center].parent].right {
        mem.SetRight(mem.cells[center].parent, leftChild);
      } else {
        mem.SetLeft(mem.cells[center].parent, leftChild);
      }
      mem.SetRight(leftChild, center);
      mem.SetParent(center, leftChild);
      assert mem.cells == RotRightCells(m, nil, center);
    }

    /** Paints `center` red and its right child black, then rotates left. */
    method PaintAndRotateLeft(center: Addr)
      requires RotLeftSafe(mem.cells, nil, center)
      modifies this`root, mem
      ensures var m := SetCol(SetCol(old(mem.cells), old(mem.cells)[center].right, Black), center, Red);
              mem.cells == RotLeftCells(m, nil, center)
      ensures root == if old(mem.cells[center].parent) == nil then old(mem.cells[center].right) else old(root)
    {
      mem.SetColor(mem.cells[center].right, Black);
      mem.SetColor(center, Red);
      LeftRotate(center);
    }

    /** Paints `center` red and its left child black, then rotates right. */
    method PaintAndRotateRight(center: Addr)
      requires RotRightSafe(mem.cells, nil, center)
      modifies this`root, mem
      ensures var m := SetCol(SetCol(old(mem.cells), old(mem.cells)[center].left, Black), center, Red);
              mem.cells == RotRightCells(m, nil, center)
      ensures root == if old(mem.cells[center].parent) == nil then old(mem.cells[center].left) else old(root)
    {
      mem.SetColor(mem.cells[center].left, Black);
      mem.SetColor(center, Red);
      RightRotate(center);
    }

    /** Red parent and uncle of `x`: they and the grandparent change colour. */
    method InsertPush(x: Addr, parent: Addr, uncle: Addr)
      requires InsInv(Snapshot(), bh, x) && mem.cells[x].parent == parent && parent in mem.cells
      requires Col(mem.cells, parent) == Red
      requires uncle in mem.cells && Col(mem.cells, uncle) == Red
      requires mem.cells[parent].parent in mem.cells
      requires var g := mem.cells[parent].parent;
               || (mem.cells[g].left == parent && mem.cells[g].right == uncle)
               || (mem.cells[g].left == uncle && mem.cells[g].right == parent)
      modifies this`bh, mem
      ensures mem.cells == PushUp(old(mem.cells), old(mem.cells)[parent].parent)
      ensures InsInv(Snapshot(), bh, old(mem.cells)[parent].parent)
    {
      ghost var t := Snapshot();
      var grandparent := mem.cells[parent].parent;
      ghost var bh' := InsPush(t, bh, x);
      PushUpEither(t.m, grandparent, t.m.Keys);
      mem.SetColor(parent, Black);
      mem.SetColor(uncle, Black);
      mem.SetColor(grandparent, Red);
      bh := bh';
    }

    /** The right child of `x` is red like `x`: it moves up and `x` is the one to repair. */
    method InsertTurnLeft(x: Addr)
      requires NodeOk(Snapshot(), x) && mem.cells[x].right in mem.cells && mem.cells[x].right != nil
      requires InsInv(Snapshot(), bh, mem.cells[x].right) && Col(mem.cells, x) == Red
      modifies this`root, this`iv, mem
      ensures InsInv(Snapshot(), bh, x) && iv.Keys == old(iv.Keys)
      ensures mem.cells == RotLeftCells(old(mem.cells), nil, x) && Framed(old(mem.cells), mem.cells, iv.Keys)
    {
      ghost var t := Snapshot();
      InsTurnLeft(t, bh, mem.cells[x].right);
      RotLeftDistinct(t, x);
      FramedRotLeft(t, x, t.iv.Keys);
      LeftRotate(x);
      iv := RotLeft(t, x).iv;
      assert iv.Keys == t.iv.Keys;
    }

    /** The left child of `x` is red like `x`: it moves up and `x` is the one to repair. */
    method InsertTurnRight(x: Addr)
      requires NodeOk(Snapshot(), x) && mem.cells[x].left in mem.cells && mem.cells[x].left != nil
      requires InsInv(Snapshot(), bh, mem.cells[x].left) && Col(mem.cells, x) == Red
      modifies this`root, this`iv, mem
      ensures InsInv(Snapshot(), bh, x) && iv.Keys == old(iv.Keys)
      ensures mem.cells == RotRightCells(old(mem.cells), nil, x) && Framed(old(mem.cells), mem.cells, iv.Keys)
    {
      ghost var t := Snapshot();
      InsTurnRight(t, bh, mem.cells[x].left);
      RotRightDistinct(t, x);
      FramedRotRight(t, x, t.iv.Keys);
      RightRotate(x);
      iv := RotRight(t, x).iv;
      assert iv.Keys == t.iv.Keys;
    }

    /** Outer grandchild `x` below a left child: recolour and rotate right; the fix-up is then over. */
    method InsertLastRight(x: Addr)
      requires InsInv(Snapshot(), bh, x)
      requires var p := mem.cells[x].parent;
               && p in mem.cells && Col(mem.cells, p) == Red && mem.cells[p].left == x
               && mem.cells[p].parent in mem.cells
      requires var p := mem.cells[x].parent; var g := mem.cells[p].parent;
               mem.cells[g].left == p && mem.cells[g].right in mem.cells && Col(mem.cells, mem.cells[g].right) == Black
      modifies this`root, this`iv, this`bh, mem
      ensures InsInv(Snapshot(), bh, x) && mem.cells[x].parent in mem.cells
      ensures Col(mem.cells, mem.cells[x].parent) == Black
      ensures iv.Keys == old(iv.Keys) && Framed(old(mem.cells), mem.cells, iv.Keys)
    {
      ghost var t', bh' := InsLastRight(Snapshot(), bh, x);
      PaintAndRotateRight(mem.cells[mem.cells[x].parent].parent);
      iv, bh := t'.iv, bh';
      assert Snapshot() == t';
    }

    /** Outer grandchild `x` below a right child: recolour and rotate left; the fix-up is then over. */
    method InsertLastLeft(x: Addr)
      requires InsInv(Snapshot(), bh, x)
      requires var p := mem.cells[x].parent;
               && p in mem.cells && Col(mem.cells, p) == Red && mem.cells[p].right == x
               && mem.cells[p].parent in mem.cells
      requires var p := mem.cells[x].parent; var g := mem.cells[p].parent;
               mem.cells[g].right == p && mem.cells[g].left in mem.cells && Col(mem.cells, mem.cells[g].left) == Black
      modifies this`root, this`iv, this`bh, mem
      ensures InsInv(Snapshot(), bh, x) && mem.cells[x].parent in mem.cells
      ensures Col(mem.cells, mem.cells[x].parent) == Black
      ensures iv.Keys == old(iv.Keys) && Framed(old(mem.cells), mem.cells, iv.Keys)
    {
      ghost var t', bh' := InsLastLeft(Snapshot(), bh, x);
      PaintAndRotateLeft(mem.cells[mem.cells[x].parent].parent);
      iv, bh := t'.iv, bh';
      assert Snapshot() == t';
    }

    /** Black uncle, parent a left child: one or two rotations end the fix-up. */
    method InsertRotateLeft(newNode: Addr) returns (next: Addr)
      requires InsInv(Snapshot(), bh, newNode)
      requires var p := mem.cells[newNode].parent;
               p in mem.cells && Col(mem.cells, p) == Red && mem.cells[p].parent in mem.cells
      requires var p := mem.cells[newNode].parent; var g := mem.cells[p].parent;
               mem.cells[g].left == p && mem.cells[g].right in mem.cells && Col(mem.cells, mem.cells[g].right) == Black
      modifies this`root, this`iv, this`bh, mem
      ensures InsInv(Snapshot(), bh, next) && iv.Keys == old(iv.Keys)
      ensures Framed(old(mem.cells), mem.cells, old(iv.Keys))
      ensures mem.cells[next].parent in mem.cells && Col(mem.cells, mem.cells[next].parent) == Black
    {
      ghost var t := Snapshot();
      InsGrandparent(t, bh, newNode);
      next := newNode;
      if next == mem.cells[mem.cells[next].parent].right {
        next := mem.cells[next].parent;
        InsertTurnLeft(next);
      } else {
        FramedRefl(mem.cells, iv.Keys);
      }
      ghost var m := mem.cells;
      InsertLastRight(next);
      FramedTrans(t.m, m, mem.cells, t.iv.Keys);
    }

    /** One round of the insertion fix-up when the parent is a left child. */
    method FixInsertLeft(newNode: Addr) returns (next: Addr)
      requires InsInv(Snapshot(), bh, newNode)
      requires var p := mem.cells[newNode].parent;
               p in mem.cells && Col(mem.cells, p) == Red && mem.cells[p].parent in mem.cells
      requires var p := mem.cells[newNode].parent; mem.cells[mem.cells[p].parent].left == p
      modifies this`root, this`iv, this`bh, mem
      ensures InsInv(Snapshot(), bh, next) && iv.Keys == old(iv.Keys)
      ensures Framed(old(mem.cells), mem.cells, old(iv.Keys))
      ensures mem.cells[next].parent in mem.cells
      ensures Col(mem.cells, mem.cells[next].parent) == Black ||
              Width(Snapshot(), next) > old(Width(Snapshot(), newNode))
    {
      next := newNode;
      ghost var t := Snapshot();
      InsGrandparent(t, bh, next);
      var uncle := mem.cells[mem.cells[mem.cells[next].parent].parent].right;
      if Col(mem.cells, uncle) == Red {
        ghost var g := mem.cells[mem.cells[next].parent].parent;
        PushUpEither(t.m, g, t.iv.Keys);
        InsertPush(next, mem.cells[next].parent, uncle);
        next := mem.cells[mem.cells[next].parent].parent;
      } else {
        next := InsertRotateLeft(next);
      }
    }

    /** Black uncle, parent a right child: one or two rotations end the fix-up. */
    method InsertRotateRight(newNode: Addr) returns (next: Addr)
      requires InsInv(Snapshot(), bh, newNode)
      requires var p := mem.cells[newNode].parent;
               p in mem.cells && Col(mem.cells, p) == Red && mem.cells[p].parent in mem.cells
      requires var p := mem.cells[newNode].parent; var g := mem.cells[p].parent;
               mem.cells[g].right == p && mem.cells[g].left in mem.cells && Col(mem.cells, mem.cells[g].left) == Black
      modifies this`root, this`iv, this`bh, mem
      ensures InsInv(Snapshot(), bh, next) && iv.Keys == old(iv.Keys)
      ensures Framed(old(mem.cells), mem.cells, old(iv.Keys))
      ensures mem.cells[next].parent in mem.cells && Col(mem.cells, mem.cells[next].parent) == Black
    {
      ghost var t := Snapshot();
      InsGrandparent(t, bh, newNode);
      next := newNode;
      if next == mem.cells[mem.cells[next].parent].left {
        next := mem.cells[next].parent;
        InsertTurnRight(next);
      } else {
        FramedRefl(mem.cells, iv.Keys);
      }
      ghost var m := mem.cells;
      InsertLastLeft(next);
      FramedTrans(t.m, m, mem.cells, t.iv.Keys);
    }

    /** One round of the insertion fix-up when the parent is a right child. */
    method FixInsertRight(newNode: Addr) returns (next: Addr)
      requires InsInv(Snapshot(), bh, newNode)
      requires var p := mem.cells[newNode].parent;
               p in mem.cells && Col(mem.cells, p) == Red && mem.cells[p].parent in mem.cells
      requires var p := mem.cells[newNode].parent; mem.cells[mem.cells[p].parent].right == p
      modifies this`root, this`iv, this`bh, mem
      ensures InsInv(Snapshot(), bh, next) && iv.Keys == old(iv.Keys)
      ensures Framed(old(mem.cells), mem.cells, old(iv.Keys))
      ensures mem.cells[next].parent in mem.cells
      ensures Col(mem.cells, mem.cells[next].parent) == Black ||
              Width(Snapshot(), next) > old(Width(Snapshot(), newNode))
    {
      next := newNode;
      ghost var t := Snapshot();
      InsGrandparent(t, bh, next);
      var uncle := mem.cells[mem.cells[mem.cells[next].parent].parent].left;
      if Col(mem.cells, uncle) == Red {
        ghost var g := mem.cells[mem.cells[next].parent].parent;
        PushUpEither(t.m, g, t.iv.Keys);
        InsertPush(next, mem.cells[next].parent, uncle);
        next := mem.cells[mem.cells[next].parent].parent;
      } else {
        next := InsertRotateRight(next);
      }
    }

    method FixInsert(newNode: Addr)
      requires InsInv(Snapshot(), bh, newNode)
      modifies this`root, this`iv, this`bh, mem
      ensures Rb(Snapshot(), bh) && iv.Keys == old(iv.Keys)
      ensures Framed(old(mem.cells), mem.cells, old(iv.Keys))
    {
      var node := newNode;
      assert NodeOk(Snapshot(), node);
      assert mem.cells[node].parent in mem.cells;
      assert Framed(old(mem.cells), mem.cells, old(iv.Keys));
      while Col(mem.cells, mem.cells[node].parent) == Red
        invariant InsInv(Snapshot(), bh, node) && iv.Keys == old(iv.Keys)
        invariant mem.cells[node].parent in mem.cells
        invariant Framed(old(mem.cells), mem.cells, old(iv.Keys))
        decreases if Col(mem.cells, mem.cells[node].parent) == Red then |s| + 1 - Width(Snapshot(), node) else 0
      {
        ghost var m := mem.cells;
        InsGrandparent(Snapshot(), bh, node);
        var parent := mem.cells[node].parent;
        if parent == mem.cells[mem.cells[parent].parent].left {
          node := FixInsertLeft(node);
        } else {
          node := FixInsertRight(node);
        }
        FramedTrans(old(mem.cells), m, mem.cells, old(iv.Keys));
      }
      ghost var m := mem.cells;
      ghost var bh' := InsDone(Snapshot(), bh, node);
      assert NodeOk(Snapshot(), root);
      FramedSetCol(m, root, Black, old(iv.Keys));
      mem.SetColor(root, Black);
      bh := bh';
      FramedTrans(old(mem.cells), m, mem.cells, old(iv.Keys));
    }

    /** Walks from the root to the free slot for a new leaf of the given size. */
    method FindSlot(size: nat) returns (parent: Addr, ghost left: bool, ghost k: nat, ghost path: seq<Addr>)
      requires Shape(Snapshot()) && Sorted(mem.cells, s)
      ensures SearchInv(Snapshot(), size, nil, parent, left, k, k)
      ensures SearchPath(Snapshot(), size, path) && ComesNext(Snapshot(), size, path, nil)
      ensures parent == if path == [] then nil else path[|path| - 1]
    {
      ghost var t := Snapshot();
      var child := root;
      parent, path := nil, [];
      ghost var lo: nat, hi: nat := 0, |s|;
      left := true;
      while child != nil
        invariant SearchInv(t, size, child, parent, left, lo, hi)
        invariant SearchPath(t, size, path) && ComesNext(t, size, path, child)
        invariant parent == if path == [] then nil else path[|path| - 1]
        decreases hi - lo
      {
        SearchStep(t, size, child, parent, left, lo, hi);
        ExtendPath(t, size, path, child);
        parent, path := child, path + [child];
        if size < mem.cells[child].header.size {
          child := mem.cells[child].left;
          left, hi := true, t.iv[parent].pos;
        } else {
          child := mem.cells[child].right;
          left, lo := false, t.iv[parent].pos + 1;
        }
      }
      k := lo;
    }

    /** Inserts the node `newNode`, which is in no tree, after all nodes whose key is not greater. The walk to
        its place is at most 2 * log2(n + 1) nodes long. */
    method InsertNode(newNode: Addr) returns (ghost k: nat, ghost path: seq<Addr>)
      requires Valid() && newNode in mem.cells && newNode !in iv && newNode != nil
      modifies this, mem
      ensures Valid() && count == old(count) + 1
      ensures SplitsAt(old(mem.cells), old(s), k, old(mem.cells)[newNode].header.size)
      ensures s == InsertAt(old(s), k, newNode)
      ensures iv.Keys == old(iv.Keys) + {newNode}
      ensures Framed(old(mem.cells), mem.cells, iv.Keys)
      ensures SearchPath(old(Snapshot()), old(mem.cells)[newNode].header.size, path)
      ensures ComesNext(old(Snapshot()), old(mem.cells)[newNode].header.size, path, nil)
      ensures Pow2(|path|) <= (old(count) + 1) * (old(count) + 1)
    {
      ghost var t := Snapshot();
      ghost var left;
      var parent;
      parent, left, k, path := FindSlot(mem.cells[newNode].header.size);
      WalkBound(t, bh, path);
      InsertBelow(newNode, parent, left, k);
      count := count + 1;
    }

    /** Hangs a node in its place and restores the colour rules. */
    method InsertBelow(newNode: Addr, parent: Addr, ghost left: bool, ghost k: nat)
      requires Rb(Snapshot(), bh) && newNode in mem.cells && newNode !in iv && newNode != nil
      requires SearchInv(Snapshot(), mem.cells[newNode].header.size, nil, parent, left, k, k)
      modifies this`root, this`s, this`iv, this`bh, mem
      ensures Rb(Snapshot(), bh) && Sorted(mem.cells, s)
      ensures SplitsAt(old(mem.cells), old(s), k, old(mem.cells)[newNode].header.size)
      ensures s == InsertAt(old(s), k, newNode) && iv.Keys == old(iv.Keys) + {newNode}
      ensures Framed(old(mem.cells), mem.cells, iv.Keys)
    {
      ghost var t := Snapshot();
      AttachLeaf(newNode, parent, left, k);
      ghost var m := mem.cells;
      FixInsert(newNode);
      FramedTrans(t.m, m, mem.cells, iv.Keys);
      InsertedSorted(t, mem.cells, newNode, parent, left, k, iv.Keys);
    }

    method LinkLeaf(newNode: Addr, parent: Addr)
      requires newNode in mem.cells && parent in mem.cells && newNode != parent && newNode != nil
      modifies this`root, mem
      ensures mem.cells == AttachCells(old(mem.cells), nil, newNode, parent,
                                       old(mem.cells[newNode].header.size < mem.cells[parent].header.size))
      ensures root == if parent == nil then newNode else old(root)
    {
      ghost var m, left := mem.cells, mem.cells[newNode].header.size < mem.cells[parent].header.size;
      mem.SetParent(newNode, parent);
      if parent == nil {
        root := newNode;
      } else if mem.cells[newNode].header.size < mem.cells[parent].header.size {
        mem.SetLeft(parent, newNode);
      } else {
        mem.SetRight(parent, newNode);
      }
      mem.SetLeft(newNode, nil);
      mem.SetRight(newNode, nil);
      mem.SetColor(newNode, Red);
      assert mem.cells == AttachCells(m, nil, newNode, parent, left);
    }

    method AttachLeaf(newNode: Addr, parent: Addr, ghost left: bool, ghost k: nat)
      requires Rb(Snapshot(), bh) && newNode in mem.cells && newNode !in iv && newNode != nil
      requires SearchInv(Snapshot(), mem.cells[newNode].header.size, nil, parent, left, k, k)
      modifies this`root, this`s, this`iv, this`bh, mem
      ensures InsInv(Snapshot(), bh, newNode) && s == InsertAt(old(s), k, newNode)
      ensures iv.Keys == old(iv.Keys) + {newNode}
      ensures Framed(old(mem.cells), mem.cells, iv.Keys)
    {
      ghost var t := Snapshot();
      AttachInsInv(t, bh, newNode, parent, left, k);
      AttachFramed(t, newNode, parent, left);
      ghost var t' := Attach(t, newNode, parent, left);
      LinkLeaf(newNode, parent);
      s, iv, bh := t'.s, t'.iv, bh[newNode := 0];
      assert Snapshot() == t';
    }

    /** `x` is a left child, one black short, with a red sibling: the sibling rises above their parent. */
    method RemoveRotateLeft(x: Addr)
      requires RemInv(Snapshot(), bh, x, Lft) && x != root && Col(mem.cells, x) == Black
      requires var w := mem.cells[mem.cells[x].parent].right; w in mem.cells && Col(mem.cells, w) == Red
      modifies this`root, this`iv, this`bh, mem
      ensures RemInv(Snapshot(), bh, x, Lft) && x != root && mem.cells[x] == old(mem.cells[x])
      ensures iv.Keys == old(iv.Keys) && Framed(old(mem.cells), mem.cells, iv.Keys)
      ensures var p := mem.cells[x].parent;
              && Col(mem.cells, p) == Red && mem.cells[p].right in mem.cells
              && Col(mem.cells, mem.cells[p].right) == Black
    {
      ghost var t', bh' := RemRotateLeft(Snapshot(), bh, x);
      PaintAndRotateLeft(mem.cells[x].parent);
      iv, bh := t'.iv, bh';
      assert Snapshot() == t';
    }

    /** The black sibling has a red inner child, which rises above it. */
    method RemoveTurnLeft(x: Addr)
      requires RemInv(Snapshot(), bh, x, Lft) && x != root && Col(mem.cells, x) == Black
      requires var w := mem.cells[mem.cells[x].parent].right;
               && w in mem.cells && Col(mem.cells, w) == Black && mem.cells[w].left in mem.cells
               && mem.cells[w].right in mem.cells
               && Col(mem.cells, mem.cells[w].left) == Red && Col(mem.cells, mem.cells[w].right) == Black
      modifies this`root, this`iv, this`bh, mem
      ensures RemInv(Snapshot(), bh, x, Lft) && x != root && mem.cells[x] == old(mem.cells[x])
      ensures iv.Keys == old(iv.Keys) && Framed(old(mem.cells), mem.cells, iv.Keys)
      ensures var w := mem.cells[mem.cells[x].parent].right;
              && w in mem.cells && Col(mem.cells, w) == Black && mem.cells[w].right in mem.cells
              && Col(mem.cells, mem.cells[w].right) == Red
    {
      ghost var t', bh' := RemTurnLeft(Snapshot(), bh, x);
      PaintAndRotateRight(mem.cells[mem.cells[x].parent].right);
      iv, bh := t'.iv, bh';
      assert Snapshot() == t';
    }

    method PaintAndRotateLastLeft(center: Addr)
      requires RotLeftSafe(mem.cells, nil, center) && mem.cells[mem.cells[center].right].right in mem.cells
      modifies this`root, mem
      ensures mem.cells == LastRot(old(mem.cells), nil, center)
      ensures root == if old(mem.cells[center].parent) == nil then old(mem.cells[center].right) else old(root)
    {
      var sibling := mem.cells[center].right;
      mem.SetColor(sibling, Col(mem.cells, center));
      mem.SetColor(center, Black);
      mem.SetColor(mem.cells[sibling].right, Black);
      LeftRotate(center);
    }

    /** The black sibling has a red outer child: recolour, rotate, and the tree is red-black again. */
    method RemoveLastLeft(x: Addr)
      requires RemInv(Snapshot(), bh, x, Lft) && x != root && Col(mem.cells, x) == Black
      requires var w := mem.cells[mem.cells[x].parent].right;
               && w in mem.cells && Col(mem.cells, w) == Black && mem.cells[w].right in mem.cells
               && Col(mem.cells, mem.cells[w].right) == Red
      modifies this`root, this`iv, this`bh, mem
      ensures Rb(Snapshot(), bh) && iv.Keys == old(iv.Keys) && Framed(old(mem.cells), mem.cells, iv.Keys)
    {
      ghost var t', bh' := RemLastLeft(Snapshot(), bh, x);
      PaintAndRotateLastLeft(mem.cells[x].parent);
      iv, bh := t'.iv, bh';
      assert Snapshot() == t';
    }

    /** One round of the removal fix-up when the short subtree is a left child and its sibling is black. */
    method FixRemoveBlackLeft(x: Addr) returns (next: Addr, ghost ds: Side)
      requires RemInv(Snapshot(), bh, x, Lft) && x != root && Col(mem.cells, x) == Black
      requires var w := mem.cells[mem.cells[x].parent].right; w in mem.cells && Col(mem.cells, w) == Black
      modifies this`root, this`iv, this`bh, mem
      ensures RemInv(Snapshot(), bh, next, ds) && iv.Keys == old(iv.Keys) && Framed(old(mem.cells), mem.cells, iv.Keys)
      ensures next == root ||
              (next == old(mem.cells[x].parent) && Col(mem.cells, next) == old(Col(mem.cells, next)) && iv == old(iv))
    {
      ghost var m := mem.cells;
      RemSibling(Snapshot(), bh, x, Lft);
      var sibling := mem.cells[mem.cells[x].parent].right;
      if Col(mem.cells, mem.cells[sibling].left) == Black && Col(mem.cells, mem.cells[sibling].right) == Black {
        ghost var bh';
        bh', ds := RemSink(Snapshot(), bh, x, Lft);
        FramedSetCol(m, sibling, Red, iv.Keys);
        mem.SetColor(sibling, Red);
        bh := bh';
        next := mem.cells[x].parent;
      } else {
        if Col(mem.cells, mem.cells[sibling].right) == Black {
          RemoveTurnLeft(x);
        } else {
          FramedRefl(m, iv.Keys);
        }
        ghost var m' := mem.cells;
        RemoveLastLeft(x);
        FramedTrans(m, m', mem.cells, iv.Keys);
        RemAtRoot(Snapshot(), bh);
        next, ds := root, Lft;
      }
    }

    /** One round of the removal fix-up when the short subtree is a left child. */
    method FixRemoveLeft(x: Addr) returns (next: Addr, ghost ds: Side)
      requires RemInv(Snapshot(), bh, x, Lft) && x != root && Col(mem.cells, x) == Black
      modifies this`root, this`iv, this`bh, mem
      ensures RemInv(Snapshot(), bh, next, ds) && iv.Keys == old(iv.Keys) && Framed(old(mem.cells), mem.cells, iv.Keys)
      ensures next == root || Col(mem.cells, next) == Red || Width(Snapshot(), next) > old(Width(Snapshot(), x))
    {
      ghost var m := mem.cells;
      RemSibling(Snapshot(), bh, x, Lft);
      if Col(mem.cells, mem.cells[mem.cells[x].parent].right) == Red {
        RemoveRotateLeft(x);
      } else {
        FramedRefl(m, iv.Keys);
      }
      ghost var m' := mem.cells;
      next, ds := FixRemoveBlackLeft(x);
      FramedTrans(m, m', mem.cells, iv.Keys);
    }

    /** `x` is a right child, one black short, with a red sibling: the sibling rises above their parent. */
    method RemoveRotateRight(x: Addr)
      requires RemInv(Snapshot(), bh, x, Rgt) && x != root && Col(mem.cells, x) == Black
      requires var w := mem.cells[mem.cells[x].parent].left; w in mem.cells && Col(mem.cells, w) == Red
      modifies this`root, this`iv, this`bh, mem
      ensures RemInv(Snapshot(), bh, x, Rgt) && x != root && mem.cells[x] == old(mem.cells[x])
      ensures iv.Keys == old(iv.Keys) && Framed(old(mem.cells), mem.cells, iv.Keys)
      ensures var p := mem.cells[x].parent;
              && Col(mem.cells, p) == Red && mem.cells[p].left in mem.cells
              && Col(mem.cells, mem.cells[p].left) == Black
    {
      ghost var t', bh' := RemRotateRight(Snapshot(), bh, x);
      PaintAndRotateRight(mem.cells[x].parent);
      iv, bh := t'.iv, bh';
      assert Snapshot() == t';
    }

    /** The black sibling has a red inner child, which rises above it. */
    method RemoveTurnRight(x: Addr)
      requires RemInv(Snapshot(), bh, x, Rgt) && x != root && Col(mem.cells, x) == Black
      requires var w := mem.cells[mem.cells[x].parent].left;
               && w in mem.cells && Col(mem.cells, w) == Black && mem.cells[w].left in mem.cells
               && mem.cells[w].right in mem.cells
               && Col(mem.cells, mem.cells[w].right) == Red && Col(mem.cells, mem.cells[w].left) == Black
      modifies this`root, this`iv, this`bh, mem
      ensures RemInv(Snapshot(), bh, x, Rgt) && x != root && mem.cells[x] == old(mem.cells[x])
      ensures iv.Keys == old(iv.Keys) && Framed(old(mem.cells), mem.cells, iv.Keys)
      ensures var w := mem.cells[mem.cells[x].parent].left;
              && w in mem.cells && Col(mem.cells, w) == Black && mem.cells[w].left in mem.cells
              && Col(mem.cells, mem.cells[w].left) == Red
    {
      ghost var t', bh' := RemTurnRight(Snapshot(), bh, x);
      PaintAndRotateLeft(mem.cells[mem.cells[x].parent].left);
      iv, bh := t'.iv, bh';
      assert Snapshot() == t';
    }

    method PaintAndRotateLastRight(center: Addr)
      requires RotRightSafe(mem.cells, nil, center) && mem.cells[mem.cells[center].left].left in mem.cells
      modifies this`root, mem
      ensures mem.cells == LastRotR(old(mem.cells), nil, center)
      ensures root == if old(mem.cells[center].parent) == nil then old(mem.cells[center].left) else old(root)
    {
      var sibling := mem.cells[center].left;
      mem.SetColor(sibling, Col(mem.cells, center));
      mem.SetColor(center, Black);
      mem.SetColor(mem.cells[sibling].left, Black);
      RightRotate(center);
    }

    /** The black sibling has a red outer child: recolour, rotate, and the tree is red-black again. */
    method RemoveLastRight(x: Addr)
      requires RemInv(Snapshot(), bh, x, Rgt) && x != root && Col(mem.cells, x) == Black
      requires var w := mem.cells[mem.cells[x].parent].left;
               && w in mem.cells && Col(mem.cells, w) == Black && mem.cells[w].left in mem.cells
               && Col(mem.cells, mem.cells[w].left) == Red
      modifies this`root, this`iv, this`bh, mem
      ensures Rb(Snapshot(), bh) && iv.Keys == old(iv.Keys) && Framed(old(mem.cells), mem.cells, iv.Keys)
    {
      ghost var t', bh' := RemLastRight(Snapshot(), bh, x);
      PaintAndRotateLastRight(mem.cells[x].parent);
      iv, bh := t'.iv, bh';
      assert Snapshot() == t';
    }

    /** One round of the removal fix-up when the short subtree is a right child and its sibling is black. */
    method FixRemoveBlackRight(x: Addr) returns (next: Addr, ghost ds: Side)
      requires RemInv(Snapshot(), bh, x, Rgt) && x != root && Col(mem.cells, x) == Black
      requires var w := mem.cells[mem.cells[x].parent].left; w in mem.cells && Col(mem.cells, w) == Black
      modifies this`root, this`iv, this`bh, mem
      ensures RemInv(Snapshot(), bh, next, ds) && iv.Keys == old(iv.Keys) && Framed(old(mem.cells), mem.cells, iv.Keys)
      ensures next == root ||
              (next == old(mem.cells[x].parent) && Col(mem.cells, next) == old(Col(mem.cells, next)) && iv == old(iv))
    {
      ghost var m := mem.cells;
      RemSibling(Snapshot(), bh, x, Rgt);
      var sibling := mem.cells[mem.cells[x].parent].left;
      if Col(mem.cells, mem.cells[sibling].left) == Black && Col(mem.cells, mem.cells[sibling].right) == Black {
        ghost var bh';
        bh', ds := RemSink(Snapshot(), bh, x, Rgt);
        FramedSetCol(m, sibling, Red, iv.Keys);
        mem.SetColor(sibling, Red);
        bh := bh';
        next := mem.cells[x].parent;
      } else {
        if Col(mem.cells, mem.cells[sibling].left) == Black {
          RemoveTurnRight(x);
        } else {
          FramedRefl(m, iv.Keys);
        }
        ghost var m' := mem.cells;
        RemoveLastRight(x);
        FramedTrans(m, m', mem.cells, iv.Keys);
        RemAtRoot(Snapshot(), bh);
        next, ds := root, Lft;
      }
    }

    /** One round of the removal fix-up when the short subtree is a right child. */
    method FixRemoveRight(x: Addr) returns (next: Addr, ghost ds: Side)
      requires RemInv(Snapshot(), bh, x, Rgt) && x != root && Col(mem.cells, x) == Black
      modifies this`root, this`iv, this`bh, mem
      ensures RemInv(Snapshot(), bh, next, ds) && iv.Keys == old(iv.Keys) && Framed(old(mem.cells), mem.cells, iv.Keys)
      ensures next == root || Col(mem.cells, next) == Red || Width(Snapshot(), next) > old(Width(Snapshot(), x))
    {
      ghost var m := mem.cells;
      RemSibling(Snapshot(), bh, x, Rgt);
      if Col(mem.cells, mem.cells[mem.cells[x].parent].left) == Red {
        RemoveRotateRight(x);
      } else {
        FramedRefl(m, iv.Keys);
      }
      ghost var m' := mem.cells;
      next, ds := FixRemoveBlackRight(x);
      FramedTrans(m, m', mem.cells, iv.Keys);
    }

    method FixRemove(extraBlack: Addr, ghost side: Side)
      requires RemInv(Snapshot(), bh, extraBlack, side)
      modifies this`root, this`iv, this`bh, mem
      ensures Rb(Snapshot(), bh) && iv.Keys == old(iv.Keys) && Framed(old(mem.cells), mem.cells, iv.Keys)
    {
      var node := extraBlack;
      ghost var ds := side;
      FramedRefl(mem.cells, iv.Keys);
      while node != root && Col(mem.cells, node) == Black
        invariant RemInv(Snapshot(), bh, node, ds) && iv.Keys == old(iv.Keys)
        invariant Framed(old(mem.cells), mem.cells, iv.Keys)
        decreases if node == root || Col(mem.cells, node) == Red then 0 else |s| + 1 - Width(Snapshot(), node)
      {
        ghost var m := mem.cells;
        RemSibling(Snapshot(), bh, node, ds);
        if node == mem.cells[mem.cells[node].parent].left {
          node, ds := FixRemoveLeft(node);
        } else {
          node, ds := FixRemoveRight(node);
        }
        FramedTrans(old(mem.cells), m, mem.cells, iv.Keys);
        WidthBound(Snapshot(), node);
      }
      ghost var m := mem.cells;
      ghost var bh' := RemDone(Snapshot(), bh, node, ds);
      FramedPaintBlack(Snapshot(), node);
      mem.SetColor(node, Black);
      bh := bh';
      FramedTrans(old(mem.cells), m, mem.cells, iv.Keys);
    }

    method SubtreeMin(subtreeRoot: Addr) returns (min: Addr, ghost path: seq<Addr>)
      requires Shape(Snapshot()) && NodeOk(Snapshot(), subtreeRoot)
      ensures NodeOk(Snapshot(), min) && mem.cells[min].left == nil
      ensures iv[min].lo == iv[min].pos == iv[subtreeRoot].lo
      ensures LeftPath(Snapshot(), subtreeRoot, path) && path[|path| - 1] == min
    {
      min, path := subtreeRoot, [subtreeRoot];
      while mem.cells[min].left != nil
        invariant NodeOk(Snapshot(), min) && iv[min].lo == iv[subtreeRoot].lo
        invariant LeftPath(Snapshot(), subtreeRoot, path) && path[|path| - 1] == min
        decreases iv[min].pos
      {
        min := mem.cells[min].left;
        assert NodeOk(Snapshot(), min);
        path := path + [min];
      }
    }

    /** Puts `replacement` in the slot of `node`; the parent link of the sentinel is written too. */
    method SwapNodes(node: Addr, replacement: Addr)
      requires node in mem.cells && replacement in mem.cells && mem.cells[node].parent in mem.cells
      requires mem.cells[node].parent != node
      modifies this`root, mem
      ensures root == if old(mem.cells[node].parent) == nil then replacement else old(root)
      ensures mem.cells == SwapCells(old(mem.cells), nil, node, replacement)
    {
      if mem.cells[node].parent == nil {
        root := replacement;
      } else if node == mem.cells[mem.cells[node].parent].left {
        mem.SetLeft(mem.cells[node].parent, replacement);
      } else {
        mem.SetRight(mem.cells[node].parent, replacement);
      }
      mem.SetParent(replacement, mem.cells[node].parent);
    }

    /** What is left to do after a node of colour `color` lost its place: nothing, or to repair the
        short subtree `extraBlack`. */
    ghost predicate Unlinked(color: Color, extraBlack: Addr, ds: Side)
      reads this, mem
    {
      if color == Black then RemInv(Snapshot(), bh, extraBlack, ds) else Rb(Snapshot(), bh)
    }

    /** Takes a node without two children out of the links. */
    method UnlinkOuter(node: Addr, child: Addr) returns (ghost ds: Side)
      requires Rb(Snapshot(), bh) && NodeOk(Snapshot(), node) && child == OnlyChild(Snapshot(), node)
      requires mem.cells[node].left == nil || mem.cells[node].right == nil
      modifies this`root, this`s, this`iv, this`bh, mem
      ensures Unlinked(old(Col(mem.cells, node)), child, ds)
      ensures Without(old(Snapshot()), Snapshot(), node, mem.cells)
      ensures Framed(old(mem.cells), mem.cells, old(iv.Keys) + {nil})
    {
      ghost var t';
      t', ds := RemoveOuter(Snapshot(), bh, node);
      FramedSwap(Snapshot(), node);
      SwapNodes(node, child);
      s, iv := t'.s, t'.iv;
      assert Snapshot() == t';
    }

    method TakePlaceLinks(node: Addr, rightMin: Addr)
      requires TakePlaceSafe(mem.cells, nil, node, rightMin)
      modifies this`root, mem
      ensures mem.cells == TakePlace(old(mem.cells), nil, node, rightMin)
      ensures root == if old(mem.cells[node].parent) == nil then rightMin else old(root)
    {
      ghost var m := mem.cells;
      SwapNodes(node, rightMin);
      mem.SetLeft(rightMin, mem.cells[node].left);
      mem.SetParent(mem.cells[rightMin].left, rightMin);
      mem.SetColor(rightMin, Col(mem.cells, node));
      assert mem.cells == TakePlace(m, nil, node, rightMin);
    }

    /** Moves the successor `rightMin` of `node` into the place of `node`. */
    method MoveUpLinks(node: Addr, rightMin: Addr)
      requires MoveUpSafe(mem.cells, nil, node, rightMin)
      modifies this`root, mem
      ensures mem.cells == MoveUp(old(mem.cells), nil, node, rightMin)
      ensures root == if old(mem.cells[node].parent) == nil then rightMin else old(root)
    {
      ghost var m := mem.cells;
      var extraBlack := mem.cells[rightMin].right;
      if rightMin != mem.cells[node].right {
        SwapNodes(rightMin, mem.cells[rightMin].right);
        mem.SetRight(rightMin, mem.cells[node].right);
        mem.SetParent(mem.cells[rightMin].right, rightMin);
        MoveUpFar(m, nil, node, rightMin, mem.cells);
      } else {
        mem.SetParent(extraBlack, rightMin);
        MoveUpNear(m, nil, node, rightMin);
      }
      TakePlaceLinks(node, rightMin);
    }

    method UnlinkInner(node: Addr, rightMin: Addr) returns (ghost ds: Side)
      requires Rb(Snapshot(), bh) && Successor(Snapshot(), node, rightMin)
      modifies this`root, this`s, this`iv, this`bh, mem
      ensures Unlinked(old(Col(mem.cells, rightMin)), old(mem.cells[rightMin].right), ds)
      ensures Without(old(Snapshot()), Snapshot(), node, mem.cells)
      ensures Framed(old(mem.cells), mem.cells, old(iv.Keys) + {nil})
    {
      ghost var t := Snapshot();
      ghost var t', bh';
      if Col(mem.cells, rightMin) == Black {
        t', bh', ds := RemoveInnerBlack(t, bh, node, rightMin);
      } else {
        t', bh' := RemoveInnerRed(t, bh, node, rightMin);
        ds := Lft;
      }
      FramedMoveUp(t, node, rightMin);
      SuccessorSafe(t, node, rightMin);
      MoveUpLinks(node, rightMin);
      s, iv, bh := t'.s, t'.iv, bh';
      assert Snapshot() == t';
    }

    /** Takes `node` out of the links; `extraBlack` and `colorCheck` tell what is left to repair. */
    method Unlink(node: Addr) returns (extraBlack: Addr, colorCheck: Color, ghost ds: Side, ghost path: seq<Addr>)
      requires Rb(Snapshot(), bh) && NodeOk(Snapshot(), node)
      modifies this`root, this`s, this`iv, this`bh, mem
      ensures Unlinked(colorCheck, extraBlack, ds)
      ensures Without(old(Snapshot()), Snapshot(), node, mem.cells)
      ensures Framed(old(mem.cells), mem.cells, old(iv.Keys) + {nil})
      ensures SuccessorPath(old(Snapshot()), node, path)
    {
      colorCheck, path := Col(mem.cells, node), [];
      if mem.cells[node].left == nil {
        extraBlack := mem.cells[node].right;
        ds := UnlinkOuter(node, extraBlack);
      } else if mem.cells[node].right == nil {
        extraBlack := mem.cells[node].left;
        ds := UnlinkOuter(node, extraBlack);
      } else {
        assert NodeOk(Snapshot(), mem.cells[node].right);
        var rightMin;
        rightMin, path := SubtreeMin(mem.cells[node].right);
        SuccessorOk(Snapshot(), node, rightMin);
        colorCheck := Col(mem.cells, rightMin);
        extraBlack := mem.cells[rightMin].right;
        ds := UnlinkInner(node, rightMin);
      }
    }

    /** Takes `nodeToRemove` out of the tree. No other node changes its address or its key. The walk to the
        successor is at most 2 * log2(n + 1) nodes long. */
    method RemoveNode(nodeToRemove: Addr) returns (removed: Addr, ghost path: seq<Addr>)
      requires Valid() && nodeToRemove in iv
      modifies this, mem
      ensures Valid() && removed == nodeToRemove && count == old(count) - 1
      ensures old(iv[nodeToRemove].pos < |s|) && s == RemoveAt(old(s), old(iv[nodeToRemove].pos))
      ensures old(s[iv[nodeToRemove].pos]) == nodeToRemove
      ensures iv.Keys == old(iv.Keys) - {nodeToRemove}
      ensures Framed(old(mem.cells), mem.cells, old(iv.Keys) + {nil})
      ensures SuccessorPath(old(Snapshot()), nodeToRemove, path)
      ensures Pow2(|path|) <= (old(count) + 1) * (old(count) + 1)
    {
      ghost var t, bh0 := Snapshot(), bh;
      assert NodeOk(t, nodeToRemove);
      var extraBlack, colorCheck;
      ghost var ds;
      extraBlack, colorCheck, ds, path := Unlink(nodeToRemove);
      ghost var m := mem.cells;
      if colorCheck == Black {
        FixRemove(extraBlack, ds);
      } else {
        FramedRefl(m, iv.Keys);
      }
      FramedMore(m, mem.cells, iv.Keys, t.iv.Keys + {nil});
      FramedTrans(t.m, m, mem.cells, t.iv.Keys + {nil});
      RemovedSorted(t.m, mem.cells, t.s, t.iv[nodeToRemove].pos, t.iv.Keys + {nil});
      WalkBound(t, bh0, path);
      count := count - 1;
      removed := nodeToRemove;
    }

    /** Walks down to a node with the least key that is at least `value`, in at most 2 * log2(n + 1) steps. */
    method SearchBestFit(value: nat) returns (fit: Option<Addr>, ghost path: seq<Addr>)
      requires Valid() && value <= U64_MAX
      ensures match fit
              case Some(a) => IsBestFit(mem.cells, s, value, a)
              case None => NoFit(mem.cells, s, value)
      ensures SearchPath(Snapshot(), value, path)
      ensures ComesNext(Snapshot(), value, path, nil) || (path != [] && Key(mem.cells, path[|path| - 1]) == value)
      ensures Pow2(|path|) <= (count + 1) * (count + 1)
    {
      if root == nil {
        WalkBound(Snapshot(), bh, []);
        return None, [];
      }
      var closestSizeMatch, toRemove;
      closestSizeMatch, toRemove, path := DescendFit(value);
      WalkBound(Snapshot(), bh, path);
      if closestSizeMatch < value || closestSizeMatch == U64_MAX {
        return None, path;
      }
      fit := Some(toRemove);
    }

    /** The walk of the search, which remembers the best node it saw. */
    method DescendFit(value: nat) returns (closestSizeMatch: nat, toRemove: Addr, ghost path: seq<Addr>)
      requires Valid() && value <= U64_MAX && root != nil
      ensures closestSizeMatch == U64_MAX ==> NoFit(mem.cells, s, value)
      ensures closestSizeMatch != U64_MAX ==>
                value <= closestSizeMatch && IsBestFit(mem.cells, s, value, toRemove)
      ensures SearchPath(Snapshot(), value, path)
      ensures ComesNext(Snapshot(), value, path, nil) || (path != [] && Key(mem.cells, path[|path| - 1]) == value)
    {
      ghost var t := Snapshot();
      path := [];
      var walker := root;
      closestSizeMatch, toRemove := U64_MAX, walker;
      ghost var p, lo: nat, hi: nat := nil, 0, |s|;
      while walker != nil
        invariant FitInv(t, value, walker, p, lo, hi, closestSizeMatch, toRemove)
        invariant SearchPath(t, value, path) && ComesNext(t, value, path, walker)
        decreases hi - lo
      {
        FitStep(t, value, walker, p, lo, hi, closestSizeMatch, toRemove);
        ExtendPath(t, value, path, walker);
        path := path + [walker];
        var walkerSize := mem.cells[walker].header.size;
        if value == walkerSize {
          closestSizeMatch := walkerSize;
          toRemove := walker;
          break;
        }
        p := walker;
        if value < walkerSize {
          if walkerSize < closestSizeMatch {
            closestSizeMatch := walkerSize;
            toRemove := walker;
          }
          walker := mem.cells[walker].left;
          hi := t.iv[p].pos;
        } else {
          walker := mem.cells[walker].right;
          lo := t.iv[p].pos + 1;
        }
      }
      FitDone(t, value, walker, p, lo, hi, closestSizeMatch, toRemove);
    }

    /** Removes and returns a node with the least key that is at least `value`, if there is one. */
    method FindBestNodeFit(value: nat) returns (fit: Option<Addr>)
      requires Valid() && value <= U64_MAX
      modifies this, mem
      ensures Valid()
      ensures match fit
              case Some(a) =>
                && IsBestFit(old(mem.cells), old(s), value, a) && a in old(iv)
                && old(iv[a].pos < |s|) && s == RemoveAt(old(s), old(iv[a].pos)) && iv.Keys == old(iv.Keys) - {a}
                && Framed(old(mem.cells), mem.cells, old(iv.Keys) + {nil})
              case None =>
                && NoFit(mem.cells, s, value)
                && s == old(s) && iv == old(iv) && mem.cells == old(mem.cells) && root == old(root) && bh == old(bh)
    {
      ghost var path;
      fit, path := SearchBestFit(value);
      if fit.Some? {
        var removed;
        removed, path := RemoveNode(fit.value);
      }
    }
  }
}
