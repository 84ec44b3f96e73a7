/**
 Rust's fixed-width integers as the canvas code uses them: `u8` cell values,
 `isize` coordinates, `usize` arguments and indices, the `as` casts between
 the two pointer-sized types, and the remainder operator `%`, whose sign
 follows the dividend.

 A Rust computation that panics (an out-of-bounds index, or an arithmetic
 overflow in a debug build) is modelled by the `Panic` alternative of
 `Checked`.
 */
module RustInt {

  const U8_MAX: int := 255
  const ISIZE_MIN: int := -0x8000_0000_0000_0000
  const ISIZE_MAX: int := 0x7FFF_FFFF_FFFF_FFFF
  /** 2^64: `usize` and `isize` are 64 bits wide on the platforms the program targets. */
  const WORD_MODULUS: int := 0x1_0000_0000_0000_0000

  type U8 = n: int | 0 <= n <= U8_MAX
  type Isize = n: int | ISIZE_MIN <= n <= ISIZE_MAX
  type Usize = n: int | 0 <= n < WORD_MODULUS

  /** The outcome of a Rust expression: a value, or a panic. */
  datatype Checked<+T> = Panic | Ok(value: T)

  predicate InIsize(n: int) {
    ISIZE_MIN <= n <= ISIZE_MAX
  }

  /** `i as usize`: the same 64 bits read as an unsigned number. */
  function AsUsize(i: Isize): (u: Usize)
    ensures (u - i) % WORD_MODULUS == 0
    ensures i < 0 <==> u > ISIZE_MAX
  {
    if i >= 0 then i else i + WORD_MODULUS
  }

  /** `u as isize`: the same 64 bits read as a two's-complement number. */
  function AsIsize(u: Usize): (i: Isize)
    ensures (u - i) % WORD_MODULUS == 0
    ensures i < 0 <==> u > ISIZE_MAX
  {
    if u <= ISIZE_MAX then u else u - WORD_MODULUS
  }

  /** The two casts are inverse bijections between `isize` and `usize`. */
  lemma CastsRoundTrip(i: Isize, u: Usize)
    ensures AsIsize(AsUsize(i)) == i
    ensures AsUsize(AsIsize(u)) == u
  {
  }

  /**
   `a % b` on signed integers with `b > 0`: the remainder of division
   truncated toward zero. Unlike Dafny's Euclidean `%`, the result is
   negative whenever `a` is negative and not a multiple of `b`.
   */
  function Rem(a: int, b: int): (r: int)
    requires b > 0
    ensures a >= 0 ==> 0 <= r < b
    ensures a < 0 ==> -b < r <= 0
    ensures (a - r) % b == 0
    ensures r == 0 <==> a % b == 0
  {
    RemProperties(a, b);
    if a >= 0 then a % b else -((-a) % b)
  }

  lemma RemProperties(a: int, b: int)
    requires b > 0
    ensures a >= 0 ==> (a - a % b) % b == 0
    ensures a < 0 ==> (a + (-a) % b) % b == 0
    ensures a < 0 ==> ((-a) % b == 0 <==> a % b == 0)
  {
    if a >= 0 {
      var q := a / b;
      assert a - a % b == q * b + 0;
      ModOfMultiple(q, b, 0);
    } else {
      var q, m := (-a) / b, (-a) % b;
      assert -a == q * b + m;
      assert a + m == (-q) * b + 0;
      ModOfMultiple(-q, b, 0);
      if m != 0 {
        assert a == (-q - 1) * b + (b - m);
        ModOfMultiple(-q - 1, b, b - m);
      }
    }
  }

  /** Dafny's `%` is the remainder of the unique Euclidean decomposition. */
  lemma ModOfMultiple(q: int, b: int, r: int)
    requires b > 0 && 0 <= r < b
    ensures (q * b + r) % b == r
  {
    var a := q * b + r;
    var d := q - a / b;
    assert d * b == a % b - r;
    MulAwayFromZero(d, b);
  }

  lemma MulAwayFromZero(d: int, b: int)
    requires b > 0
    ensures d >= 1 ==> d * b >= b
    ensures d <= -1 ==> d * b <= -b
  {
    if d >= 1 {
      assert d * b == (d - 1) * b + b;
    } else if d <= -1 {
      assert d * b == (d + 1) * b - b;
    }
  }

  /** Adding a multiple of `b` does not change the Euclidean remainder. */
  lemma ModShift(x: int, b: int, k: int)
    requires b > 0
    ensures (x + k * b) % b == x % b
  {
    var q := x / b;
    assert x + k * b == (q + k) * b + x % b;
    ModOfMultiple(q + k, b, x % b);
  }

  /** `r` is the Euclidean remainder of `a` when it is in range and congruent to `a`. */
  lemma ModCongruent(a: int, r: int, b: int)
    requires b > 0 && 0 <= r < b && (a - r) % b == 0
    ensures a % b == r
  {
    var q := (a - r) / b;
    assert a == q * b + r;
    ModOfMultiple(q, b, r);
  }
}
