/**
 The `Canvas` of the prototype: a fixed 40 by 40 grid of `u8` cell values
 with a toroidal (wrap-around) lookup and a 3 by 3 neighbourhood sum.

 The Rust struct stores `[[u8; GRID_SIZE_X]; GRID_SIZE_Y]` and indexes it
 as `canvas[x][y]`: the outer array is the one of length `GridSizeY`, yet it
 is indexed by the x coordinate. Every lookup below stays in bounds only
 because `GridSizeX == GridSizeY`.
 */
module Grid {
  import opened RustInt
  import Itertools

  const GridSizeX: int := 40
  const GridSizeY: int := 40

  datatype Canvas = Canvas(cells: seq<seq<U8>>) {
    /** The shape fixed by the Rust array type: `GridSizeY` rows of `GridSizeX` cells. */
    predicate Valid() {
      && |cells| == GridSizeY
      && forall i :: 0 <= i < |cells| ==> |cells[i]| == GridSizeX
    }
  }

  /** The cell a coordinate pair denotes on the torus, with true (Euclidean) wrap-around. */
  function At(c: Canvas, x: int, y: int): U8
    requires c.Valid()
  {
    c.cells[x % GridSizeX][y % GridSizeY]
  }

  predicate IsAllZero(c: Canvas)
    requires c.Valid()
  {
    forall x, y :: 0 <= x < GridSizeX && 0 <= y < GridSizeY ==> c.cells[x][y] == 0
  }

  /** `Canvas::new`: every cell starts at 0. */
  function New(): (c: Canvas)
    ensures c.Valid()
    ensures IsAllZero(c)
  {
    var row: seq<U8> := seq(GridSizeX, _ => 0);
    Canvas(seq(GridSizeY, _ => row))
  }

  /**
   A coordinate `get_value` accepts without panicking: `coord + size` does
   not overflow `isize`, and the truncating remainder that follows is not
   negative. The remainder is negative exactly when `coord` lies below
   `-size` and is not a multiple of `size`.
   */
  predicate Wraps(coord: int, size: int)
    requires size > 0
  {
    && ISIZE_MIN <= coord
    && coord + size <= ISIZE_MAX
    && (coord >= -size || coord % size == 0)
  }

  /**
   One line of `get_value`: `(coord + size) % size` on `isize`. The
   addition panics on overflow; the remainder keeps the sign of its
   dividend, so it is a valid index only for `coord >= -size` (or a
   multiple of `size`).
   */
  function WrapCoord(coord: Isize, size: int): (r: Checked<Isize>)
    requires 0 < size <= ISIZE_MAX
    ensures r.Ok? <==> coord + size <= ISIZE_MAX
    ensures r.Ok? ==> -size < r.value < size && (coord - r.value) % size == 0
    ensures r.Ok? ==> (r.value >= 0 <==> Wraps(coord, size))
    ensures r.Ok? && r.value >= 0 ==> r.value == coord % size
    ensures -size <= coord <= ISIZE_MAX - size ==> r.Ok? && 0 <= r.value < size
  {
    if coord + size > ISIZE_MAX then Panic
    else
      var w := Rem(coord + size, size);
      ModShift(coord - w, size, 1);
      ModShift(coord, size, 1);
      if w >= 0 then ModCongruent(coord, w, size); Ok(w) else Ok(w)
  }

  /**
   `Canvas::get_value`: wrap both coordinates, cast them to `usize` and
   index `canvas[x][y]`. A negative wrapped coordinate becomes a huge
   `usize` and the index panics.
   */
  function GetValue(c: Canvas, x: Isize, y: Isize): (r: Checked<U8>)
    requires c.Valid()
    ensures r.Ok? <==> Wraps(x, GridSizeX) && Wraps(y, GridSizeY)
    ensures r.Ok? ==> r.value == At(c, x, y)
  {
    match WrapCoord(x, GridSizeX)
    case Panic => Panic
    case Ok(wx) =>
      match WrapCoord(y, GridSizeY)
      case Panic => Panic
      case Ok(wy) =>
        var ix, iy := AsUsize(wx), AsUsize(wy);
        if ix < |c.cells| && iy < |c.cells[ix]| then Ok(c.cells[ix][iy]) else Panic
  }

  /** The per-axis offsets `[-1, 0, 1]`. */
  const Deltas: seq<int> := [-1, 0, 1]

  /** The nine `(dx, dy)` pairs `getNeighbors` visits, in its order; `(0, 0)` among them. */
  const Offsets: seq<(int, int)> := Itertools.CartesianProduct(Deltas, Deltas)

  /** The eight offsets of the true Moore neighbourhood: all but `(0, 0)`. */
  const NeighbourOffsets: seq<(int, int)> :=
    [(-1, -1), (-1, 0), (-1, 1), (0, -1), (0, 1), (1, -1), (1, 0), (1, 1)]

  /** Every lookup at `(x + dx, y + dy)` for the given offsets is panic-free. */
  predicate WindowDefined(x: int, y: int, offsets: seq<(int, int)>) {
    forall k :: 0 <= k < |offsets| ==>
      Wraps(x + offsets[k].0, GridSizeX) && Wraps(y + offsets[k].1, GridSizeY)
  }

  /** Reference definition: the sum of the torus cells at `(x + dx, y + dy)` over the offsets. */
  function WindowSum(c: Canvas, x: int, y: int, offsets: seq<(int, int)>): (s: int)
    requires c.Valid()
    ensures s >= 0
  {
    if offsets == [] then 0
    else At(c, x + offsets[0].0, y + offsets[0].1) + WindowSum(c, x, y, offsets[1..])
  }

  /**
   The loop of `getNeighbors` from some offset on, with the `u8`
   accumulator `number` holding `acc`: each step forms the `isize`
   coordinates (which may overflow), looks the cell up, and adds it with
   `+=` on `u8`, which panics past 255.
   */
  function Accumulate(c: Canvas, x: Isize, y: Isize, offsets: seq<(int, int)>, acc: U8): (r: Checked<U8>)
    requires c.Valid()
    ensures r.Ok? <==> WindowDefined(x, y, offsets) && acc + WindowSum(c, x, y, offsets) <= U8_MAX
    ensures r.Ok? ==> r.value == acc + WindowSum(c, x, y, offsets)
    decreases |offsets|
  {
    if offsets == [] then Ok(acc)
    else
      var (dx, dy) := offsets[0];
      if !InIsize(x + dx) || !InIsize(y + dy) then Panic
      else
        match GetValue(c, x + dx, y + dy)
        case Panic => Panic
        case Ok(v) =>
          if acc + v > U8_MAX then Panic
          else Accumulate(c, x, y, offsets[1..], acc + v)
  }

  /**
   `Canvas::getNeighbors`: the `usize` arguments are cast to `isize`, the
   nine cells of the 3 by 3 window (the centre included) are summed into a
   `u8`, and the sum is returned as `usize`.
   */
  function GetNeighbors(c: Canvas, x: Usize, y: Usize): (r: Checked<Usize>)
    requires c.Valid()
    ensures r.Ok? <==>
      WindowDefined(AsIsize(x), AsIsize(y), Offsets)
      && WindowSum(c, AsIsize(x), AsIsize(y), Offsets) <= U8_MAX
    ensures r.Ok? ==> r.value == WindowSum(c, AsIsize(x), AsIsize(y), Offsets)
  {
    match Accumulate(c, AsIsize(x), AsIsize(y), Offsets, 0)
    case Panic => Panic
    case Ok(n) => Ok(n)
  }
}
