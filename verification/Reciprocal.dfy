/** The reciprocal estimate of src/compiler-rt/builtins/divsf3.c: a linear first
    guess refined by three Newton-Raphson steps in wrapping 32-bit arithmetic. */
module Reciprocal {
  import opened Words

  /** reciprocal = 0x7504f333 - q31b, in 32 bits. */
  function Guess(q31b: nat): nat { (0x7504f333 - q31b) % TWO32 }

  /** correction = -(reciprocal * q31b >> 32), in 32 bits. */
  function Correction(r: nat, q31b: nat): nat { (-(r * q31b / TWO32)) % TWO32 }

  /** reciprocal = reciprocal * correction >> 31, in 32 bits. */
  function Refine(r: nat, q31b: nat): nat { (r * Correction(r, q31b) / TWO31) % TWO32 }

  /** The reciprocal after three refinements and the final bump downwards. */
  function Estimate(q31b: nat): nat {
    (Refine(Refine(Refine(Guess(q31b), q31b), q31b), q31b) - 2) % TWO32
  }

  /** How far r * q is below 1.0, at scale 2^63. */
  function Err(r: nat, q: nat): int { TWO63 - r * q }

  /** The refinement before its truncation to 32 bits. */
  function Unwrapped(r: nat, q: nat): nat { r * Correction(r, q) / TWO31 }

  lemma SquareBound(e: int, k: int)
    requires -k <= e <= k
    ensures 0 <= e * e <= k * k
  {
    assert (k - e) * (k + e) >= 0;
  }

  lemma CorrectionValue(r: nat, q: nat)
    requires -TWO63 < Err(r, q) < TWO63 - TWO32
    ensures Correction(r, q) == TWO32 - r * q / TWO32
    ensures 0 < Correction(r, q) < TWO32
  {
    var t := r * q / TWO32;
    DivBounds(r * q, TWO32, 1, TWO32);
    DivUnique(-t, TWO32, -1, TWO32 - t);
  }

  /** One step squares the error, up to the two truncations u and v. */
  lemma ErrorEquation(r: nat, q: nat)
    requires -TWO63 < Err(r, q) < TWO63 - TWO32
    ensures var e := Err(r, q); var u := r * q % TWO32; var v := r * Correction(r, q) % TWO31;
      TWO63 * Err(Unwrapped(r, q), q) == e * e - u * (r * q) + TWO32 * (q * v)
  {
    var p := r * q;
    var t, u := p / TWO32, p % TWO32;
    var c := Correction(r, q);
    var n, v := r * c / TWO31, r * c % TWO31;
    CorrectionValue(r, q);
    assert TWO32 * c == 2 * TWO63 - p + u;
    assert TWO31 * n == r * c - v;
    assert TWO31 * (n * q) == p * c - q * v by {
      assert TWO31 * (n * q) == (TWO31 * n) * q == (r * c - v) * q;
      assert (r * c) * q == p * c;
    }
    assert TWO63 * (n * q) == p * (TWO32 * c) - TWO32 * (q * v);
    var e := TWO63 - p;
    assert e * e == TWO63 * TWO63 - 2 * (TWO63 * p) + p * p;
    assert p * (TWO32 * c) == 2 * (TWO63 * p) - p * p + u * p;
  }

  /** The truncation of r * q loses a multiple of 256, because q31b = b << 8. */
  lemma LowWord(r: nat, q: nat)
    requires q % 256 == 0
    ensures 0 <= r * q % TWO32 <= TWO32 - 256
  {
    var k := r * (q / 256);
    assert r * q == k * 256;
    DivUnique(k * 256, TWO32, k / 0x100_0000, (k % 0x100_0000) * 256);
  }

  /** Error bounds carried from one step to the next. */
  lemma ErrorBounds(r: nat, q: nat, low: int, k: int)
    requires q % 256 == 0
    requires low <= k < TWO63 - TWO32 && -low <= Err(r, q) <= k
    ensures TWO63 * Err(Unwrapped(r, q), q) >= -((TWO32 - 256) * (TWO63 + low))
    ensures TWO63 * Err(Unwrapped(r, q), q) <= k * k + TWO63 * q
  {
    var p := r * q;
    var u, v := p % TWO32, r * Correction(r, q) % TWO31;
    ErrorEquation(r, q);
    SquareBound(Err(r, q), k);
    LowWord(r, q);
    ProductBound(u, TWO32 - 256, p, TWO63 + low);
    ProductBound(q, q, v, TWO31);
    assert TWO32 * (q * TWO31) == TWO63 * q;
  }

  lemma ProductBound(a: nat, x: nat, b: nat, y: nat)
    requires a <= x && b <= y
    ensures 0 <= a * b <= x * y
  {
    MulLe(a, x, b);
    assert x * b <= x * y;
  }

  const K0: int := 791240234141483008
  const K1: int := 67877685648668755
  const K2: int := 499537458175862

  lemma Quadratic(q: int, c: int, lo: int, hi: int)
    requires lo <= q <= hi
    ensures 4 * ((c - q) * q) <= c * c
    ensures (c - q) * q >= c * q - (lo + hi) * q + lo * hi
  {
    var x, y := c - 2 * q, q * q;
    assert (c - q) * q == c * q - y;
    assert x * x == c * c - 4 * (c * q) + 4 * y >= 0;
    assert (q - lo) * (hi - q) == (lo + hi) * q - y - lo * hi;
    assert (q - lo) * (hi - q) >= 0;
  }

  /** The linear guess is within 0.0858 of the reciprocal, relatively. */
  lemma GuessError(q: nat)
    requires TWO31 <= q < TWO32
    ensures Guess(q) == TWO32 + 0x7504f333 - q
    ensures -K0 <= Err(Guess(q), q) <= K0
  {
    var c := TWO32 + 0x7504f333;
    DivUnique(0x7504f333 - q, TWO32, -1, c - q);
    Quadratic(q, c, TWO31, TWO32);
  }

  /** A product that exceeds 2^63 by little leaves its factor in 32 bits. */
  lemma NoWrap(n: nat, q: nat)
    requires q >= TWO31 + 256 && TWO63 - n * q >= -2 * TWO32
    ensures n % TWO32 == n
  {
    MulLe(TWO32, n, q);
  }

  /** A step that starts from error at most k stays in 32 bits. */
  lemma StepBounds(r: nat, q: nat, low: int, k: int, k': int)
    requires TWO31 + 256 <= q < TWO32 && q % 256 == 0
    requires low <= k <= K0 && -low <= Err(r, q) <= k
    requires k * k + TWO63 * TWO32 <= TWO63 * k'
    ensures -2 * TWO32 <= Err(Refine(r, q), q) <= k'
  {
    ErrorBounds(r, q, low, k);
    NoWrap(Unwrapped(r, q), q);
  }

  /** The third step ends between two units above and fourteen units below the
      reciprocal, still in 32 bits. */
  lemma LastStep(r: nat, q: nat)
    requires TWO31 + 256 <= q < TWO32 && q % 256 == 0
    requires -2 * TWO32 <= Err(r, q) <= K2
    ensures -2 * q < Err(Refine(r, q), q) < 14 * q
  {
    ErrorBounds(r, q, 2 * TWO32, K2);
    LastRange(Err(Unwrapped(r, q), q), q);
    NoWrap(Unwrapped(r, q), q);
  }

  lemma LastRange(e: int, q: int)
    requires TWO31 + 256 <= q
    requires TWO63 * e >= -((TWO32 - 256) * (TWO63 + 2 * TWO32)) && TWO63 * e <= K2 * K2 + TWO63 * q
    ensures -2 * TWO32 <= e && -2 * q < e < 14 * q
  {}

  lemma ThreeSteps(q: nat)
    requires TWO31 + 256 <= q < TWO32 && q % 256 == 0
    ensures var r := Refine(Refine(Refine(Guess(q), q), q), q);
      -2 * q < Err(r, q) < 14 * q
  {
    GuessError(q);
    var r0 := Guess(q);
    StepBounds(r0, q, K0, K0, K1);
    var r1 := Refine(r0, q);
    StepBounds(r1, q, 2 * TWO32, K1, K2);
    LastStep(Refine(r1, q), q);
  }

  /** For 1.0 the third step reaches 2^32 and wraps to zero; the bump undoes it. */
  lemma EstimateOfOne()
    ensures Estimate(TWO31) == TWO32 - 2
  {
    assert Guess(TWO31) == 0xf504_f333;
    assert Correction(0xf504_f333, TWO31) == 0x857d_8667;
    assert Refine(0xf504_f333, TWO31) == 0xff87_6cce;
    assert Correction(0xff87_6cce, TWO31) == 0x803c_4999;
    assert Refine(0xff87_6cce, TWO31) == 0xffff_c735;
    assert Correction(0xffff_c735, TWO31) == 0x8000_1c66;
    assert Refine(0xffff_c735, TWO31) == 0;
  }

  /** The estimate is strictly below the reciprocal 2^63 / q31b, and short of it
      by fewer than 16 units, for the significand of every binary32 number. */
  lemma EstimateAccuracy(b: nat)
    requires 0x80_0000 <= b < 0x100_0000
    ensures var q := b * 256; var r := Estimate(q);
      r < TWO32 && r * q < TWO63 < (r + 16) * q
  {
    var q := b * 256;
    if b == 0x80_0000 {
      EstimateOfOne();
    } else {
      ThreeSteps(q);
      Bump(Refine(Refine(Refine(Guess(q), q), q), q), q);
    }
  }

  lemma Bump(r: nat, q: nat)
    requires r < TWO32 && TWO31 <= q < TWO32 && -2 * q < Err(r, q) < 14 * q
    ensures var s := (r - 2) % TWO32;
      s < TWO32 && s * q < TWO63 < (s + 16) * q
  {
    MulLe(r, 1, q);
    MulAdd(r, -2, q);
    MulAdd(r, 14, q);
  }
}
