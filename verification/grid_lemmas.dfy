/**
 Properties of the canvas lookup and of the 3 by 3 sum: bounds, wrap-around
 identities, which coordinates are panic-free, what the sum adds up, and
 when the `u8` accumulator cannot overflow.
 */
module GridLemmas {
  import opened RustInt
  import Itertools
  import opened Grid

  /** Inside the grid the wrap is the identity: `get_value(x, y) == canvas[x][y]`. */
  lemma GetValueInGrid(c: Canvas, x: int, y: int)
    requires c.Valid()
    requires 0 <= x < GridSizeX && 0 <= y < GridSizeY
    ensures x < |c.cells| && y < |c.cells[x]|
    ensures GetValue(c, x, y) == Ok(c.cells[x][y])
  {
  }

  /** One step past either edge lands on the opposite edge, on both axes. */
  lemma WrapIdentities(c: Canvas, x: Isize, y: Isize)
    requires c.Valid()
    ensures GetValue(c, -1, y) == GetValue(c, GridSizeX - 1, y)
    ensures GetValue(c, GridSizeX, y) == GetValue(c, 0, y)
    ensures GetValue(c, x, -1) == GetValue(c, x, GridSizeY - 1)
    ensures GetValue(c, x, GridSizeY) == GetValue(c, x, 0)
  {
  }

  /**
   The wrap is a panic-free lookup only for `coord >= -size` or `coord` a
   multiple of `size`: one step below `-size` the remainder is negative and
   the index panics, while `-2 * size` still lands on row (or column) 0.
   */
  lemma GetValueBelowRangePanics(c: Canvas, y: Isize)
    requires c.Valid()
    ensures GetValue(c, -GridSizeX - 1, y) == Panic
    ensures GetValue(c, y, -GridSizeY - 1) == Panic
    ensures GetValue(c, -2 * GridSizeX, y) == GetValue(c, 0, y)
    ensures GetValue(c, y, -2 * GridSizeY) == GetValue(c, y, 0)
  {
  }

  /** The nine offsets of `cartesian_product`, in the order the loop visits them. */
  lemma OffsetsEnumerated()
    ensures Offsets == [(-1, -1), (-1, 0), (-1, 1), (0, -1), (0, 0), (0, 1), (1, -1), (1, 0), (1, 1)]
  {
    var p := Itertools.CartesianProduct(Deltas, Deltas);
    forall i, j | 0 <= i < 3 && 0 <= j < 3
      ensures p[3 * i + j] == (Deltas[i], Deltas[j])
    {
      Itertools.CartesianProductAt(Deltas, Deltas, i, j);
    }
    assert p[0] == (Deltas[0], Deltas[0]) && p[1] == (Deltas[0], Deltas[1]) && p[2] == (Deltas[0], Deltas[2]);
    assert p[3] == (Deltas[1], Deltas[0]) && p[4] == (Deltas[1], Deltas[1]) && p[5] == (Deltas[1], Deltas[2]);
    assert p[6] == (Deltas[2], Deltas[0]) && p[7] == (Deltas[2], Deltas[1]) && p[8] == (Deltas[2], Deltas[2]);
  }

  /** A centre from which all three of `c - 1`, `c`, `c + 1` wrap without panicking. */
  predicate SafeCentre(centre: int, size: int)
    requires size > 0
  {
    -size < centre < ISIZE_MAX - size
  }

  /** The three coordinates around a centre all wrap exactly when the centre is safe. */
  lemma AxisWraps(centre: int, size: int)
    requires size == GridSizeX || size == GridSizeY
    ensures Wraps(centre - 1, size) && Wraps(centre, size) && Wraps(centre + 1, size)
        <==> SafeCentre(centre, size)
  {
  }

  /** Both windows, the nine cells and the eight neighbours, are panic-free exactly at safe centres. */
  lemma WindowDefinedIff(x: int, y: int)
    ensures WindowDefined(x, y, Offsets) <==> SafeCentre(x, GridSizeX) && SafeCentre(y, GridSizeY)
    ensures WindowDefined(x, y, NeighbourOffsets) <==> SafeCentre(x, GridSizeX) && SafeCentre(y, GridSizeY)
  {
    OffsetsEnumerated();
    AxisWraps(x, GridSizeX);
    AxisWraps(y, GridSizeY);
    if WindowDefined(x, y, Offsets) {
      assert Offsets[1] == (-1, 0) && Offsets[4] == (0, 0) && Offsets[7] == (1, 0);
      assert Offsets[3] == (0, -1) && Offsets[5] == (0, 1);
    }
    if WindowDefined(x, y, NeighbourOffsets) {
      assert NeighbourOffsets[1] == (-1, 0) && NeighbourOffsets[3] == (0, -1);
      assert NeighbourOffsets[4] == (0, 1) && NeighbourOffsets[6] == (1, 0);
    }
  }

  /**
   `getNeighbors` panics neither on the casts, the additions nor the
   lookups exactly when both `isize` images of its arguments are safe
   centres, and then not at all unless the nine-cell sum exceeds 255. In
   particular every in-grid coordinate is safe, and so is `usize::MAX`,
   whose `isize` image is -1.
   */
  lemma GetNeighborsPanicFree(c: Canvas, x: Usize, y: Usize)
    requires c.Valid()
    ensures GetNeighbors(c, x, y).Ok? <==>
      SafeCentre(AsIsize(x), GridSizeX) && SafeCentre(AsIsize(y), GridSizeY)
      && WindowSum(c, AsIsize(x), AsIsize(y), Offsets) <= U8_MAX
    ensures 0 <= x < GridSizeX && 0 <= y < GridSizeY ==>
      SafeCentre(AsIsize(x), GridSizeX) && SafeCentre(AsIsize(y), GridSizeY)
  {
    WindowDefinedIff(AsIsize(x), AsIsize(y));
  }

  /** The window sum splits over concatenated offset lists. */
  lemma {:induction false} WindowSumAppend(c: Canvas, x: int, y: int, a: seq<(int, int)>, b: seq<(int, int)>)
    requires c.Valid()
    ensures WindowSum(c, x, y, a + b) == WindowSum(c, x, y, a) + WindowSum(c, x, y, b)
    decreases |a|
  {
    if a != [] {
      var ab := a + b;
      assert ab != [] && ab[0] == a[0] && ab[1..] == a[1..] + b;
      WindowSumAppend(c, x, y, a[1..], b);
      assert WindowSum(c, x, y, ab) == At(c, x + a[0].0, y + a[0].1) + WindowSum(c, x, y, ab[1..]);
    } else {
      assert a + b == b;
    }
  }

  /** The nine-cell window is the centre cell plus its eight neighbours: the centre is not excluded. */
  lemma NineCellSum(c: Canvas, x: int, y: int)
    requires c.Valid()
    ensures WindowSum(c, x, y, Offsets) == At(c, x, y) + WindowSum(c, x, y, NeighbourOffsets)
  {
    OffsetsEnumerated();
    var front, back := NeighbourOffsets[..4], NeighbourOffsets[4..];
    var middle := [(0, 0)] + back;
    assert Offsets == front + middle;
    assert NeighbourOffsets == front + back;
    assert middle[0] == (0, 0) && middle[1..] == back;
    assert WindowSum(c, x, y, middle) == At(c, x, y) + WindowSum(c, x, y, back);
    WindowSumAppend(c, x, y, front, middle);
    WindowSumAppend(c, x, y, front, back);
  }

  /**
   What `getNeighbors` returns at a safe centre: the centre's own value
   plus the eight surrounding wrapped values, unless that total overflows
   the `u8` accumulator.
   */
  lemma GetNeighborsCountsCentre(c: Canvas, x: Usize, y: Usize)
    requires c.Valid()
    requires SafeCentre(AsIsize(x), GridSizeX) && SafeCentre(AsIsize(y), GridSizeY)
    ensures var total := At(c, AsIsize(x), AsIsize(y)) + WindowSum(c, AsIsize(x), AsIsize(y), NeighbourOffsets);
      && (GetNeighbors(c, x, y).Ok? <==> total <= U8_MAX)
      && (GetNeighbors(c, x, y).Ok? ==> GetNeighbors(c, x, y).value == total)
  {
    GetNeighborsPanicFree(c, x, y);
    NineCellSum(c, AsIsize(x), AsIsize(y));
  }

  predicate CellsAtMost(c: Canvas, m: int)
    requires c.Valid()
  {
    forall x, y :: 0 <= x < GridSizeX && 0 <= y < GridSizeY ==> c.cells[x][y] <= m
  }

  /** A window over cells bounded by `m` sums to at most `m` per offset. */
  lemma {:induction false} WindowSumBound(c: Canvas, x: int, y: int, offsets: seq<(int, int)>, m: int)
    requires c.Valid() && CellsAtMost(c, m)
    ensures WindowSum(c, x, y, offsets) <= |offsets| * m
    decreases |offsets|
  {
    if offsets != [] {
      WindowSumBound(c, x, y, offsets[1..], m);
      assert |offsets| * m == m + (|offsets| - 1) * m;
    }
  }

  /**
   The `u8` accumulator cannot overflow while every cell is at most 28:
   nine such cells add up to at most 252.
   */
  lemma GetNeighborsNoOverflow(c: Canvas, x: Usize, y: Usize)
    requires c.Valid() && CellsAtMost(c, 28)
    requires SafeCentre(AsIsize(x), GridSizeX) && SafeCentre(AsIsize(y), GridSizeY)
    ensures GetNeighbors(c, x, y).Ok?
    ensures GetNeighbors(c, x, y).value <= 9 * 28
  {
    OffsetsEnumerated();
    WindowSumBound(c, AsIsize(x), AsIsize(y), Offsets, 28);
    GetNeighborsPanicFree(c, x, y);
  }

  /** Every window of an all-zero canvas sums to 0. */
  lemma {:induction false} ZeroWindow(c: Canvas, x: int, y: int, offsets: seq<(int, int)>)
    requires c.Valid() && IsAllZero(c)
    ensures WindowSum(c, x, y, offsets) == 0
    decreases |offsets|
  {
    if offsets != [] {
      ZeroWindow(c, x, y, offsets[1..]);
    }
  }

  /**
   On an all-zero canvas such as a fresh one, `getNeighbors` returns 0 at
   every safe centre (every in-grid coordinate among them) and panics
   elsewhere only because of the coordinate arithmetic.
   */
  lemma ZeroCanvasNeighbors(c: Canvas, x: Usize, y: Usize)
    requires c.Valid() && IsAllZero(c)
    ensures GetNeighbors(c, x, y) ==
      if SafeCentre(AsIsize(x), GridSizeX) && SafeCentre(AsIsize(y), GridSizeY) then Ok(0) else Panic
  {
    ZeroWindow(c, AsIsize(x), AsIsize(y), Offsets);
    GetNeighborsPanicFree(c, x, y);
  }

  /** `Canvas::new` followed by `getNeighbors` at any in-grid coordinate yields 0. */
  lemma NewCanvasNeighborsZero(x: Usize, y: Usize)
    requires 0 <= x < GridSizeX && 0 <= y < GridSizeY
    ensures GetNeighbors(New(), x, y) == Ok(0)
  {
    ZeroCanvasNeighbors(New(), x, y);
  }
}
