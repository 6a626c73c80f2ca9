// Cells of the unbounded integer lattice the ant walks on, and the four
// orthogonal moves (up, down, left, right) it may make from a cell.

module Cells {

  /** A grid cell: an ordered pair of signed integer coordinates. */
  datatype Cell = Cell(x: int, y: int)

  function Abs(n: int): nat
  {
    if n < 0 then -n else n
  }

  /** Two cells are adjacent when they are one unit move apart along one
      axis: this is the ant's movement rule. */
  ghost predicate Adjacent(a: Cell, b: Cell)
  {
    || (a.x == b.x && (a.y == b.y - 1 || a.y == b.y + 1))
    || (a.y == b.y && (a.x == b.x - 1 || a.x == b.x + 1))
  }

  /** `_get_adjacent_cells`: exactly the cells one unit move away, four
      distinct cells, none of them the cell itself. */
  function AdjacentCells(c: Cell): (r: set<Cell>)
    ensures |r| == 4
    ensures c !in r
    ensures forall n :: n in r <==> Adjacent(c, n)
  {
    {Cell(c.x - 1, c.y), Cell(c.x + 1, c.y), Cell(c.x, c.y - 1), Cell(c.x, c.y + 1)}
  }

  /** Adjacency is Manhattan distance 1. */
  lemma AdjacentIsManhattanUnit(a: Cell, b: Cell)
    ensures Adjacent(a, b) <==> Abs(a.x - b.x) + Abs(a.y - b.y) == 1
  {
  }
}
