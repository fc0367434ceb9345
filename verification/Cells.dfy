/** The memory of the kernel heap, seen as typed cells: every address can be read as a red-black
    tree node, that is an allocation header followed by three links. */
module Cells {
  import opened Common

  datatype Color = Black | Red

  /** The fields packed in the first word of an allocation header. */
  datatype Header = Header(size: nat, isAllocated: bool, leftAllocated: bool, color: Color, mapped: bool)

  /** A size a header has room for: its four low bits hold flags. */
  predicate Packable(size: nat) {
    size % 16 == 0 && size <= U64_MAX
  }

  const NULL_HEADER := Header(0, false, false, Black, false)

  datatype Node = Node(header: Header, parent: Addr, left: Addr, right: Addr)

  type Cells = map<Addr, Node>

  function WithColor(n: Node, c: Color): Node {
    n.(header := n.header.(color := c))
  }

  class Memory {
    var cells: Cells

    constructor (cells: Cells)
      ensures this.cells == cells
    {
      this.cells := cells;
    }

    method SetParent(a: Addr, p: Addr)
      requires a in cells
      modifies this
      ensures cells == old(cells)[a := old(cells)[a].(parent := p)]
    {
      cells := cells[a := cells[a].(parent := p)];
    }

    method SetLeft(a: Addr, l: Addr)
      requires a in cells
      modifies this
      ensures cells == old(cells)[a := old(cells)[a].(left := l)]
    {
      cells := cells[a := cells[a].(left := l)];
    }

    method SetRight(a: Addr, r: Addr)
      requires a in cells
      modifies this
      ensures cells == old(cells)[a := old(cells)[a].(right := r)]
    {
      cells := cells[a := cells[a].(right := r)];
    }

    method SetHeader(a: Addr, h: Header)
      requires a in cells
      modifies this
      ensures cells == old(cells)[a := old(cells)[a].(header := h)]
    {
      cells := cells[a := cells[a].(header := h)];
    }

    method SetColor(a: Addr, c: Color)
      requires a in cells
      modifies this
      ensures cells == old(cells)[a := WithColor(old(cells)[a], c)]
    {
      cells := cells[a := WithColor(cells[a], c)];
    }
  }
}
