# Game of Life canvas prototype, modelled in Dafny

The program is an early prototype of Conway's Game of Life drawn with the
`nannou` creative-coding framework. Its only logic is the `Canvas`: a fixed
40 by 40 array of `u8` cell values, a toroidal lookup `get_value` that wraps
each coordinate with `(c + SIZE) % SIZE`, and `getNeighbors`, which adds up
`get_value` over all nine offsets of `{-1, 0, 1}²`. `Model::new` creates an
all-zero canvas and the per-frame `update` callback has an empty body, so
the canvas never changes. The prototype has no generation step, and
neither does this model.

The model works on immutable values:

- `RustInt` (`rust_int.dfy`): the Rust integer types involved (`u8`, `isize`,
  `usize` on a 64-bit target), the `as` casts between `isize` and `usize`,
  and Rust's `%`, whose remainder keeps the sign of the dividend (Dafny's
  own `%` is Euclidean). A computation that panics is the `Panic` value of
  `Checked<T>`; arithmetic overflow is taken to panic, as in a debug build.
- `Itertools` (`itertools.dfy`): `cartesian_product` on sequences.
- `Grid` (`grid.dfy`): the canvas as `seq<seq<U8>>` with the array's shape
  (outer length `GridSizeY`, inner length `GridSizeX`), `Canvas::new`,
  `get_value` and `getNeighbors`, each with a contract relating it to a
  reference definition on the torus (`At`, Euclidean wrap-around, and
  `WindowSum`, the sum of `At` over a list of offsets).
- `GridLemmas` (`grid_lemmas.dfy`): wrap bounds and identities, exactly
  which arguments make `getNeighbors` panic, the nine-cell decomposition,
  and when the `u8` accumulator cannot overflow.
- `NeighbourCount` (`neighbour_count.dfy`): the centre-cell discrepancy
  (see Findings) and the corrected eight-neighbour count.
- `App` (`app.dfy`): `Model`, `Model::new`, the no-op `update` and the
  framework's frame loop as a fold over update events.

The source as written does not compile: line 24 assigns to the non-`mut`
parameters `x` and `y`. The model follows the evident intent: the wrapped
value replaces the coordinate. On line 33 the unannotated literals of
`[-1, 0, 1]` are inferred as `isize`, the type of the cast coordinate they
are added to, and the model's offsets are `isize` values accordingly.

The array is declared `[[u8; GRID_SIZE_X]; GRID_SIZE_Y]` but indexed
`canvas[x][y]` with `x < GRID_SIZE_X`. `Canvas.Valid` keeps the declared
shape and `GetValue` bounds-checks against the real lengths. Every in-grid
index stays in bounds only because `GridSizeX == GridSizeY == 40`. The
verifier uses that equality in `GetValue` and `GetValueInGrid`.

A true torus lookup would be total, `((c mod n) + n) mod n`, and a
neighbour count would leave out the centre. The code does neither, and
the model follows the code. A coordinate below `-40` that is not a
multiple of 40 panics. The centre is counted.

## Model

| member | source | states |
|---|---|---|
| RustInt.Rem | src/main.rs:24-25 | Rust's `%` for a positive divisor: the result is congruent to the dividend, lies in `[0, b)` for a non-negative dividend and in `(-b, 0]` for a negative one, and is 0 exactly when the divisor divides the dividend |
| RustInt.AsUsize | src/main.rs:26 | `as usize` keeps the value modulo 2^64 and maps exactly the negative `isize` values above `isize::MAX`, so a negative wrapped coordinate can never be a valid index |
| RustInt.AsIsize | src/main.rs:33 | `as isize` keeps the value modulo 2^64 and is negative exactly for arguments above `isize::MAX` |
| RustInt.CastsRoundTrip | src/main.rs:33 | the `isize`/`usize` casts are inverse bijections |
| Itertools.CartesianProductAt | src/main.rs:32 | `cartesian_product` yields `(xs[i], ys[j])` at position `i * \|ys\| + j`: the second iterator moves fastest |
| Grid.New | src/main.rs:17-21 | `Canvas::new` has the declared array shape and every cell is 0 |
| Grid.WrapCoord | src/main.rs:24-25 | the wrap panics only when `c + size` overflows `isize`; the result is congruent to `c` and lies in `(-size, size)`; it is a non-negative index exactly when `c >= -size` or `size` divides `c`, and is then the Euclidean `c mod size`; for `-size <= c` it is always in `[0, size)` |
| Grid.GetValue | src/main.rs:23-27 | `get_value` succeeds exactly when both coordinates wrap to non-negative values without overflow, and then returns the torus cell at `(x mod 40, y mod 40)` |
| Grid.Accumulate | src/main.rs:30-34 | the `u8` accumulation loop succeeds exactly when every offset's lookup is panic-free and the starting value plus the window sum is at most 255, and then returns that total |
| Grid.GetNeighbors | src/main.rs:29-36 | `getNeighbors` succeeds exactly when all nine lookups are panic-free and the nine-cell sum is at most 255, and then returns that sum |
| GridLemmas.GetValueInGrid | src/main.rs:23-26 | inside the grid the lookup is the identity `canvas[x][y]`, and `x` is in bounds of the outer array of length `GridSizeY` |
| GridLemmas.WrapIdentities | src/main.rs:23-26 | `get_value(-1, y) == get_value(39, y)`, `get_value(40, y) == get_value(0, y)`, and the same on the y axis |
| GridLemmas.GetValueBelowRangePanics | src/main.rs:24-26 | one step below `-40` on either axis the remainder is negative and the lookup panics, while `-80` still lands on index 0; so the wrap's real precondition is `c >= -40`, or `c` a multiple of 40 |
| GridLemmas.OffsetsEnumerated | src/main.rs:32 | the loop visits the nine offsets in the order (-1,-1), (-1,0), (-1,1), (0,-1), (0,0), (0,1), (1,-1), (1,0), (1,1) |
| GridLemmas.AxisWraps | src/main.rs:24-25 | `c - 1`, `c` and `c + 1` all wrap without panicking exactly when `-40 < c < isize::MAX - 40` |
| GridLemmas.WindowDefinedIff | src/main.rs:32-33 | all nine lookups of the window are panic-free exactly when both centre coordinates are safe in that sense; the same holds for the eight-cell window |
| GridLemmas.GetNeighborsPanicFree | src/main.rs:29-35 | `getNeighbors(x, y)` returns exactly when the `isize` images of `x` and `y` are safe centres and the nine-cell sum is at most 255; every in-grid coordinate is a safe centre |
| GridLemmas.NineCellSum | src/main.rs:32-34 | the nine-cell window sum is the centre cell plus the sum of its eight wrapped neighbours |
| GridLemmas.GetNeighborsCountsCentre | src/main.rs:29-35 | at a safe centre `getNeighbors` returns the centre's value plus the eight surrounding wrapped values, and panics exactly when that total exceeds 255 |
| GridLemmas.GetNeighborsNoOverflow | src/main.rs:30-35 | if every cell is at most 28 the `u8` accumulator never overflows and the result is at most 252 |
| GridLemmas.ZeroCanvasNeighbors | src/main.rs:29-35 | on an all-zero canvas `getNeighbors` returns 0 at every safe centre and panics elsewhere |
| GridLemmas.NewCanvasNeighborsZero | src/main.rs:17-35 | on a fresh canvas `getNeighbors` returns 0 at every in-grid coordinate |
| NeighbourCount.CountNeighbours | src/main.rs:29-35 | corrected count: the same loop over the eight offsets other than (0,0); it returns exactly at safe centres whose eight-cell sum is at most 255, and then returns that sum |
| NeighbourCount.CountNeighboursRange | src/main.rs:29-35 | on a canvas of 0/1 cells the corrected count is defined at every safe centre and lies in `[0, 8]` |
| NeighbourCount.GetNeighborsAddsCentre | src/main.rs:32-34 | whenever `getNeighbors` returns, its value is the corrected count plus the centre cell's value |
| NeighbourCount.CentreCountedCounterexample | src/main.rs:32-34 | a lone live cell at (5, 5) gets `getNeighbors` 1 but a corrected count of 0 |
| App.NewModel | src/main.rs:44-48 | `Model::new` holds a canvas of the declared shape whose cells are all 0 |
| App.RunPreservesModel | src/main.rs:62 | any sequence of `update` calls leaves the model unchanged |
| App.NewModelStaysZero | src/main.rs:44-62 | after `Model::new` and any number of frames the canvas is still all-zero and `getNeighbors` returns 0 at every in-grid coordinate |

## Left out

- `main`, the `model` window builder, `view`, the frame submission and its `unwrap`: framework I/O and foreign calls.
- `Model::draw`: presentation only, with `f32` positions, sizes and colours.
- `SCALE` and the `f32` forms of the grid sizes: only their integer values, 40 and 40, matter to the canvas logic.
- The `event` handler: its mouse-press arm and its default arm are both empty.
- Release-build arithmetic: overflow is modelled as a panic, as in a debug build; a release build would wrap instead.
- Targets where `usize` is not 64 bits wide.
- App.Update: carries no contract of its own, because its body is empty; what it does is stated by `App.RunPreservesModel`.
- A Game of Life generation step, birth/survival rules and timer gating: the program has none.

## Findings

| source | as written | input that shows it | evidently intended | confidence | as-written member | corrected member |
|---|---|---|---|---|---|---|
| src/main.rs:32-34 | `getNeighbors` adds all nine cells of the 3 by 3 window, so the cell's own value is counted | a canvas whose only non-zero cell is a 1 at (5, 5): `getNeighbors(5, 5)` returns 1 although no neighbour is live | sum only the eight surrounding cells, as the name says | medium, not executed | NeighbourCount.CentreCountedCounterexample | NeighbourCount.CountNeighbours |

`Grid.GetNeighbors` keeps the as-written nine-cell sum because that is what
the program computes. `NeighbourCount.CountNeighbours` is the corrected
eight-cell count. `NeighbourCount.CountNeighboursRange` proves it stays in
`[0, 8]` on 0/1 cells. `NeighbourCount.GetNeighborsAddsCentre` proves the
two differ by exactly the centre cell's value.
