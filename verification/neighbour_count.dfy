/**
 `getNeighbors` is named for the neighbours of a cell but its loop runs over
 the whole 3 by 3 window, so the cell itself is counted too. This module
 pins the discrepancy down with a concrete canvas, and defines the count
 the name promises: the same loop over the eight offsets other than
 `(0, 0)`.
 */
module NeighbourCount {
  import opened RustInt
  import opened Grid
  import opened GridLemmas

  /** The neighbour count as evidently intended: the centre cell is left out. */
  function CountNeighbours(c: Canvas, x: Usize, y: Usize): (r: Checked<Usize>)
    requires c.Valid()
    ensures r.Ok? <==>
      SafeCentre(AsIsize(x), GridSizeX) && SafeCentre(AsIsize(y), GridSizeY)
      && WindowSum(c, AsIsize(x), AsIsize(y), NeighbourOffsets) <= U8_MAX
    ensures r.Ok? ==> r.value == WindowSum(c, AsIsize(x), AsIsize(y), NeighbourOffsets)
  {
    WindowDefinedIff(AsIsize(x), AsIsize(y));
    match Accumulate(c, AsIsize(x), AsIsize(y), NeighbourOffsets, 0)
    case Panic => Panic
    case Ok(n) => Ok(n)
  }

  /** On a canvas of dead (0) and live (1) cells the corrected count lies in `[0, 8]`. */
  lemma CountNeighboursRange(c: Canvas, x: Usize, y: Usize)
    requires c.Valid() && CellsAtMost(c, 1)
    requires SafeCentre(AsIsize(x), GridSizeX) && SafeCentre(AsIsize(y), GridSizeY)
    ensures CountNeighbours(c, x, y).Ok?
    ensures 0 <= CountNeighbours(c, x, y).value <= 8
  {
    WindowSumBound(c, AsIsize(x), AsIsize(y), NeighbourOffsets, 1);
  }

  /**
   Whenever `getNeighbors` returns, its result exceeds the corrected count
   by exactly the value of the centre cell.
   */
  lemma GetNeighborsAddsCentre(c: Canvas, x: Usize, y: Usize)
    requires c.Valid()
    ensures GetNeighbors(c, x, y).Ok? ==>
      && CountNeighbours(c, x, y).Ok?
      && GetNeighbors(c, x, y).value == At(c, AsIsize(x), AsIsize(y)) + CountNeighbours(c, x, y).value
  {
    GetNeighborsPanicFree(c, x, y);
    if GetNeighbors(c, x, y).Ok? {
      GetNeighborsCountsCentre(c, x, y);
    }
  }

  /** A canvas whose only non-zero cell is a single live cell at `(px, py)`. */
  function Isolated(px: int, py: int): (c: Canvas)
    requires 0 <= px < GridSizeX && 0 <= py < GridSizeY
    ensures c.Valid() && CellsAtMost(c, 1)
    ensures forall x, y :: 0 <= x < GridSizeX && 0 <= y < GridSizeY ==>
      (c.cells[x][y] == 1 <==> x == px && y == py)
  {
    Canvas(seq(GridSizeY, i => seq(GridSizeX, j => if i == px && j == py then 1 else 0)))
  }

  /** A window none of whose cells is live sums to 0. */
  lemma {:induction false} DeadWindow(c: Canvas, x: int, y: int, offsets: seq<(int, int)>)
    requires c.Valid()
    requires forall k :: 0 <= k < |offsets| ==> At(c, x + offsets[k].0, y + offsets[k].1) == 0
    ensures WindowSum(c, x, y, offsets) == 0
    decreases |offsets|
  {
    if offsets != [] {
      assert At(c, x + offsets[0].0, y + offsets[0].1) == 0;
      DeadWindow(c, x, y, offsets[1..]);
    }
  }

  /**
   The discrepancy on a concrete input: a lone live cell with no live
   neighbour gets a `getNeighbors` value of 1, where the corrected count
   is 0.
   */
  lemma CentreCountedCounterexample()
    ensures GetNeighbors(Isolated(5, 5), 5, 5) == Ok(1)
    ensures CountNeighbours(Isolated(5, 5), 5, 5) == Ok(0)
  {
    var c := Isolated(5, 5);
    forall k | 0 <= k < |NeighbourOffsets|
      ensures At(c, 5 + NeighbourOffsets[k].0, 5 + NeighbourOffsets[k].1) == 0
    {
    }
    DeadWindow(c, 5, 5, NeighbourOffsets);
    GetNeighborsCountsCentre(c, 5, 5);
  }
}
