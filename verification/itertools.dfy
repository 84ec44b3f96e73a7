/**
 The one adaptor of the `itertools` crate the canvas uses: the cartesian
 product of two finite iterators, modelled on sequences.
 */
module Itertools {

  /**
   `xs.iter().cartesian_product(ys.iter())`: the pairs `(x, y)` for every
   `x` of `xs` and `y` of `ys`. Where each pair sits is stated by
   `CartesianProductAt`.
   */
  function CartesianProduct<A, B>(xs: seq<A>, ys: seq<B>): (r: seq<(A, B)>)
    ensures |r| == |xs| * |ys|
    decreases |xs|
  {
    if xs == [] then []
    else
      var row := seq(|ys|, j requires 0 <= j < |ys| => (xs[0], ys[j]));
      assert |xs| * |ys| == |ys| + (|xs| - 1) * |ys|;
      row + CartesianProduct(xs[1..], ys)
  }

  /**
   The product is ordered by the position in `xs` first and, for equal
   positions, by the position in `ys`: the second iterator is the
   fast-moving one.
   */
  lemma {:induction false} CartesianProductAt<A, B>(xs: seq<A>, ys: seq<B>, i: int, j: int)
    requires 0 <= i < |xs| && 0 <= j < |ys|
    ensures i * |ys| + j < |CartesianProduct(xs, ys)|
    ensures CartesianProduct(xs, ys)[i * |ys| + j] == (xs[i], ys[j])
  {
    if i > 0 {
      CartesianProductAt(xs[1..], ys, i - 1, j);
      assert i * |ys| + j == |ys| + ((i - 1) * |ys| + j);
    }
  }
}
