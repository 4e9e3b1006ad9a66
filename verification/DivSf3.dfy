/** Single-precision soft-float division, src/compiler-rt/builtins/divsf3.c. */
module DivSf3 {
  import opened Words
  import opened Float32
  import opened Reciprocal
  import FpLib

  // ------------------------------------------------------ quotient and residual

  /** The truncated Q24 quotient from the reciprocal estimate r. */
  function Quotient(a: nat, r: nat): nat { r * (2 * a) / TWO32 }

  ghost predicate Significand(s: nat) { IMPLICIT_BIT <= s < 2 * IMPLICIT_BIT }

  ghost predicate Estimates(r: nat, b: nat) {
    r < TWO32 && r * (b * 256) < TWO63 < (r + 16) * (b * 256)
  }

  const TWO55: int := 0x80_0000_0000_0000

  /** What the quotient misses: the reciprocal's shortfall and the dropped bits t. */
  lemma QuotientGap(a: nat, b: nat, r: nat)
    ensures var t := r * a % TWO31;
      TWO31 * (a * 0x100_0000 - Quotient(a, r) * b) == a * (TWO55 - r * b) + t * b
  {
    var q, p := Quotient(a, r), r * a;
    assert q == p / TWO31 by {
      assert r * (2 * a) == 2 * p;
      DivDiv(2 * p, 2, TWO31);
    }
    var t := p % TWO31;
    DivModOf(p, TWO31);
    MulAssoc(TWO31, q, b);
    MulAdd(p, -t, b);
    assert p * b == a * (r * b);
    assert a * (TWO55 - r * b) == TWO55 * a - a * (r * b);
  }

  /** The quotient is below a/b, by less than nine eighths of a unit. */
  lemma QuotientError(a: nat, b: nat, r: nat)
    requires Significand(a) && Significand(b) && Estimates(r, b)
    ensures var d := a * 0x100_0000 - Quotient(a, r) * b; 0 < d && 8 * d < 9 * b
  {
    var g, t := TWO55 - r * b, r * a % TWO31;
    QuotientGap(a, b, r);
    assert 0 < g < 16 * b by {
      MulAssoc(r, b, 256);
      MulAdd(r, 16, b * 256);
    }
    ProductBound(a, 0xff_ffff, g, 16 * b);
    ProductBound(1, a, 1, g);
    ProductBound(t, TWO31, b, b);
  }

  /** The quotient reaches 1.0 (2^24) exactly when a exceeds b, and is at least one half. */
  lemma QuotientRange(a: nat, b: nat, r: nat)
    requires Significand(a) && Significand(b) && Estimates(r, b)
    ensures 0x80_0000 <= Quotient(a, r) < 0x200_0000
    ensures Quotient(a, r) < 0x100_0000 <==> a <= b
  {
    var q := Quotient(a, r);
    QuotientError(a, b, r);
    MulLe(q, 0xff_ffff, b);
    MulLe(0x100_0000, q, b);
    MulLe(0x200_0000, q, b);
    QuotientAtLeast(a, b, r);
  }

  lemma QuotientAtLeast(a: nat, b: nat, r: nat)
    requires Significand(a) && Significand(b) && Estimates(r, b)
    ensures a <= Quotient(a, r)
  {
    MulLe(b * 256, 0xff_ffff * 256, r + 16);
    assert r >= TWO31;
    MulLe(TWO31, r, 2 * a);
    MulLe(r, TWO32, 2 * a);
    DivBounds(r * (2 * a), TWO32, a, TWO63);
  }

  /** No quotient of two 24-bit significands lies halfway between two of them. */
  lemma NoTie(n: nat, b: nat, k: nat)
    requires 0 < b < 0x100_0000
    ensures (2 * n + 1) * b != 0x100_0000 * k
  {
    Pow2Values();
    if (2 * n + 1) * b == 0x100_0000 * k {
      OddDivides(n, b, k, 24);
      DivUnique(b, 0x100_0000, 0, b);
    }
  }

  /** A power of two dividing an odd multiple of b divides b. */
  lemma {:induction false} OddDivides(n: nat, b: nat, k: nat, e: nat)
    requires (2 * n + 1) * b == Pow2(e) * k
    ensures b % Pow2(e) == 0
  {
    if e > 0 {
      var p := Pow2(e - 1);
      assert Pow2(e) == 2 * p;
      hide Pow2;
      HalveOddMultiple(n, b, p * k) by { MulAssoc(2, p, k); }
      OddDivides(n, b / 2, k, e - 1);
      DoubleMultiple(b / 2, p);
    }
  }

  lemma DoubleMultiple(h: nat, p: nat)
    requires p > 0 && h % p == 0
    ensures (2 * h) % (2 * p) == 0
  {
    DivModOf(h, p);
    MulAssoc(h / p, 2, p);
    DivUnique(2 * h, 2 * p, h / p, 0);
  }

  lemma HalveOddMultiple(n: nat, b: nat, m: nat)
    requires (2 * n + 1) * b == 2 * m
    ensures b == 2 * (b / 2) && (2 * n + 1) * (b / 2) == m
  {
    MulAdd(2 * n, 1, b);
    MulAssoc(2, n, b);
    EvenRest(n * b, b, m);
    DoubleFactor(2 * n + 1, b / 2);
  }

  lemma EvenRest(p: nat, b: nat, m: nat)
    requires 2 * p + b == 2 * m
    ensures b == 2 * (b / 2)
  {}

  lemma DoubleFactor(k: nat, h: nat)
    ensures k * (2 * h) == 2 * (k * h)
  {}

  // ------------------------------------------------------ the rounding tail

  /** The tail of the function: overflow, flush to zero, or round by the residual. */
  function Tail(e: int, q: nat, residual: nat, b: nat): nat
    requires Significand(q)
  {
    if e >= 255 then INF_REP
    else if e < 1 then 0
    else Pack(e, q) + if 2 * residual > b then 1 else 0
  }

  /** In the normal range the residual decides the rounding correctly. The exact
      quotient is n/b in units of g/den gaps. */
  lemma RoundByResidual(num: nat, den: nat, n: nat, b: nat, q: nat, e: nat, g: nat)
    requires den > 0 && g > 0 && 1 <= e <= 254 && Significand(q)
    requires num == n * g && Pow2(e - 1) * den == b * g
    requires 0 < n - q * b && 4 * (n - q * b) < 5 * b && (2 * q + 1) * b != 2 * n
    ensures RoundsTo(num, den, Tail(e, q, n - q * b, b))
  {
    hide Mag, RoundsTo, Pow2;
    var d := n - q * b;
    var p := Pow2(e - 1);
    PackGaps(den, e, q);
    var x, gap := q * p * den, b * g;
    assert x == (q * b) * g by {
      MulAssoc(q, p, den);
      MulAssoc(q, b, g);
    }
    assert num == x + d * g by { MulAdd(q * b, d, g); }
    CompareScale(0, d, g);
    CompareScale(4 * d, 5 * b, g);
    CompareScale(2 * d, b, g);
    MulAssoc(2, d, g);
    MulAssoc(4, d, g);
    MulAssoc(5, b, g);
    assert 2 * d != b by { assert (2 * q + 1) * b == 2 * (q * b) + b; }
    RoundNear(num, den, Pack(e, q), x, gap, 2 * d > b);
  }

  /** When the exponent field would reach 255 the quotient rounds to infinity. */
  lemma RoundOverflow(num: nat, den: nat, b: nat, q: nat, e: nat, g: nat)
    requires den > 0 && 255 <= e && Significand(q)
    requires num >= (q * b) * g && Pow2(e - 1) * den == b * g
    ensures RoundsTo(num, den, INF_REP)
  {
    hide RoundsTo;
    var p := Pow2(253);
    Pow2Mono(254, e - 1);
    assert Pow2(254) == 2 * p;
    MulLe(2 * p, Pow2(e - 1), den);
    MulAssoc(2, p, den);
    var x := p * den;
    assert b * g >= 2 * x;
    MulAssoc(q, b, g);
    ProductBound(0x80_0000, q, 2 * x, b * g);
    assert 2 * num >= 0x200_0000 * x;
    MulAssoc(0x1ff_ffff, p, den);
    RoundsToInfinity(num, den);
  }

  /** The result is correctly rounded exactly when the quotient num/den exceeds
      2^-126 (2^23 units) or is small enough to round to zero. Everything in
      between, 2^-126 itself included, is flushed to zero. */
  lemma TailCorrect(num: nat, den: nat, n: nat, b: nat, q: nat, e: int, g: nat, h: nat)
    requires Significand(q) && Significand(b) && n <= 0x100_0000 * b
    requires num == n * Pow2(g) && den == b * Pow2(h) && g == e - 1 + h
    requires 0 < n - q * b && 4 * (n - q * b) < 5 * b && (2 * q + 1) * b != 2 * n
    ensures var r := Tail(e, q, n - q * b, b);
      && (RoundsTo(num, den, r) <==> 0x80_0000 * den < num || 2 * num <= den)
      && (num <= 0x80_0000 * den ==> r == 0)
  {
    hide Mag, RoundsTo, Pow2;
    ScaledDenominator(b, h, e, g);
    if e >= 1 {
      TailNormal(num, den, n, b, q, e, Pow2(g));
    } else {
      BelowThreshold(num, den, n, b, Pow2(g), Pow2(h));
      RoundsToZero(num, den);
    }
  }

  lemma ScaledDenominator(b: nat, h: nat, e: int, g: nat)
    requires b > 0 && g == e - 1 + h
    ensures b * Pow2(h) > 0
    ensures e >= 1 ==> Pow2(e - 1) * (b * Pow2(h)) == b * Pow2(g)
    ensures e < 1 ==> 2 * Pow2(g) <= Pow2(h)
  {
    var k := Pow2(h);
    MulLe(1, b, k);
    if e >= 1 {
      Pow2Add(e - 1, h);
      MulAssoc(Pow2(e - 1), b, k);
      MulAssoc(b, Pow2(e - 1), k);
    } else {
      Pow2Mono(g, h);
    }
  }

  lemma TailNormal(num: nat, den: nat, n: nat, b: nat, q: nat, e: nat, k: nat)
    requires Significand(q) && Significand(b) && den > 0 && k > 0 && e >= 1
    requires num == n * k && Pow2(e - 1) * den == b * k
    requires 0 < n - q * b && 4 * (n - q * b) < 5 * b && (2 * q + 1) * b != 2 * n
    ensures RoundsTo(num, den, Tail(e, q, n - q * b, b)) && 0x80_0000 * den < num
  {
    hide Mag, RoundsTo, Pow2;
    MulLe(q * b + 1, n, k);
    MulAdd(q * b, 1, k);
    AboveThreshold(num, den, b, q, Pow2(e - 1), k);
    if e >= 255 {
      RoundOverflow(num, den, b, q, e, k);
    } else {
      RoundByResidual(num, den, n, b, q, e, k);
    }
  }

  lemma AboveThreshold(num: nat, den: nat, b: nat, q: nat, p: nat, k: nat)
    requires num > (q * b) * k && p * den == b * k && Significand(q) && p > 0
    ensures 0x80_0000 * den < num
  {
    MulLe(1, p, den);
    MulAssoc(q, b, k);
    ProductBound(0x80_0000, q, den, b * k);
  }

  lemma BelowThreshold(num: nat, den: nat, n: nat, b: nat, k: nat, k': nat)
    requires num == n * k && den == b * k' && 2 * k <= k' && n <= 0x100_0000 * b
    ensures num <= 0x80_0000 * den
  {
    MulLe(n, 0x100_0000 * b, k);
    MulAssoc(0x100_0000, b, k);
    ProductBound(b, b, 2 * k, k');
    assert b * (2 * k) == 2 * (b * k);
  }

  // ------------------------------------------------------ operands

  /** Magnitude of a sign-free representation as s * 2^x / 2^shift, where s is the
      normalised significand of the source. */
  ghost predicate Operand(abs: nat, s: nat, x: nat, shift: nat) {
    && Significand(s)
    && Mag(abs) * Pow2(shift) == s * Pow2(x)
  }

  /** The written exponent, quotient and residual the source computes from
      normalised operands and the reciprocal estimate r. */
  function Finish(a: nat, b: nat, r: nat, exponent: int): nat
    requires Significand(a) && Significand(b) && Estimates(r, b)
  {
    QuotientRange(a, b, r);
    QuotientError(a, b, r);
    var q := Quotient(a, r);
    if q < 0x100_0000 then Tail(exponent + 126, q, a * 0x100_0000 - q * b, b)
    else
      Halved(a, b, r);
      Tail(exponent + 127, q / 2, a * 0x80_0000 - (q / 2) * b, b)
  }

  lemma Halved(a: nat, b: nat, r: nat)
    requires Significand(a) && Significand(b) && Estimates(r, b)
    ensures var q := Quotient(a, r); var d := a * 0x80_0000 - (q / 2) * b;
      0 < d && 16 * d < 17 * b
  {
    hide Quotient, Pow2;
    QuotientError(a, b, r);
    HalveProduct(Quotient(a, r), b);
  }

  lemma HalveProduct(q: nat, b: nat)
    ensures 2 * ((q / 2) * b) == q * b - (if q % 2 == 1 then b else 0)
  {
    var h := q / 2;
    assert q == 2 * h + q % 2;
    MulAdd(2 * h, q % 2, b);
    MulAssoc(2, h, b);
  }

  /** Finish rounds the ratio of the two operands, except where it flushes. */
  lemma FinishCorrect(aAbs: nat, bAbs: nat, a: nat, b: nat, xa: nat, xb: nat, sa: nat, sb: nat, r: nat)
    requires Operand(aAbs, a, xa, sa) && Operand(bAbs, b, xb, sb) && Estimates(r, b)
    requires Mag(bAbs) > 0
    ensures var num, den := Mag(aAbs) * Pow2(149), Mag(bAbs);
      var result := Finish(a, b, r, (xa - sa) - (xb - sb));
      && (RoundsTo(num, den, result) <==> 0x80_0000 * den < num || 2 * num <= den)
      && (num <= 0x80_0000 * den ==> result == 0)
  {
    hide Mag, RoundsTo, Pow2;
    var num, den, k := Mag(aAbs) * Pow2(149), Mag(bAbs), Pow2(sa + sb);
    var e := (xa - sa) - (xb - sb);
    var h := xb + sa;
    var q := Quotient(a, r);
    QuotientRange(a, b, r);
    QuotientError(a, b, r);
    ScaleOperands(Mag(aAbs), Mag(bAbs), a, b, xa, xb, sa, sb);
    if q < 0x100_0000 {
      var n := a * 0x100_0000;
      NoTie(q, b, 2 * a);
      TailCorrect(num * k, den * k, n, b, q, e + 126, xa + sb + 125, h);
    } else {
      var n := a * 0x80_0000;
      Halved(a, b, r);
      NoTie(q / 2, b, a);
      TailCorrect(num * k, den * k, n, b, q / 2, e + 127, xa + sb + 126, h);
    }
    var result := Finish(a, b, r, e);
    RoundsToScale(num, den, k, result);
    Thresholds(num, den, k);
  }

  lemma Thresholds(num: nat, den: nat, k: nat)
    requires k > 0
    ensures 0x80_0000 * (den * k) < num * k <==> 0x80_0000 * den < num
    ensures 2 * (num * k) <= den * k <==> 2 * num <= den
  {
    MulAssoc(0x80_0000, den, k);
    MulAssoc(2, num, k);
    CompareScale(0x80_0000 * den, num, k);
    CompareScale(2 * num, den, k);
  }

  lemma ScaleOperands(ma: nat, mb: nat, a: nat, b: nat, xa: nat, xb: nat, sa: nat, sb: nat)
    requires ma * Pow2(sa) == a * Pow2(xa) && mb * Pow2(sb) == b * Pow2(xb)
    ensures var k := Pow2(sa + sb);
      && (ma * Pow2(149)) * k == (a * 0x100_0000) * Pow2(xa + sb + 125)
      && (ma * Pow2(149)) * k == (a * 0x80_0000) * Pow2(xa + sb + 126)
      && mb * k == b * Pow2(xb + sa)
  {
    hide Pow2;
    Pow2Values();
    var p, pb := Pow2(149), Pow2(sb);
    Pow2Add(sa, sb);
    Pow2Add(xb, sa);
    Pow2Add(24, xa + sb + 125);
    Pow2Add(23, xa + sb + 126);
    Pow2Add(xa, sb + 149);
    Pow2Add(sb, 149);
    Shuffle(ma, p, Pow2(sa), pb);
    Shuffle(a, p, Pow2(xa), pb);
    MulAssoc(a, 0x100_0000, Pow2(xa + sb + 125));
    MulAssoc(a, 0x80_0000, Pow2(xa + sb + 126));
    assert mb * (Pow2(sa) * pb) == (mb * pb) * Pow2(sa);
    MulAssoc(b, Pow2(xb), Pow2(sa));
  }

  lemma Shuffle(m: nat, p: nat, x: nat, y: nat)
    ensures (m * p) * (x * y) == (m * x) * (y * p)
    ensures (m * x) * (y * p) == m * (x * (y * p))
  {}

  lemma NormalOperand(abs: nat)
    requires IMPLICIT_BIT <= abs
    ensures Operand(abs, IMPLICIT_BIT + abs % IMPLICIT_BIT, abs / IMPLICIT_BIT - 1, 0)
    ensures Mag(abs) > 0
  {
    MagMono(0, abs);
  }

  lemma SubnormalOperand(abs: nat, s: nat, scale: int)
    requires 0 < abs < IMPLICIT_BIT && scale <= 0 && s == abs * Pow2(1 - scale) && Significand(s)
    ensures Operand(abs, s, 0, 1 - scale)
    ensures Mag(abs) > 0
  {
    MagMono(0, abs);
  }

  // ------------------------------------------------------ the function on words

  const MAX_EXPONENT: nat := 255
  const QUIET_BIT: nat := 0x40_0000
  const QNAN_REP: nat := 0x7fc0_0000

  function AbsRep(a: nat): nat { a % SIGN_BIT }
  predicate Negative(a: nat) { a / SIGN_BIT % 2 == 1 }
  predicate IsNaN(a: nat) { AbsRep(a) > INF_REP }
  predicate IsInfinity(a: nat) { AbsRep(a) == INF_REP }
  predicate IsZero(a: nat) { AbsRep(a) == 0 }

  /** The masked fields of a 32-bit representation. */
  lemma Fields(a: nat)
    requires a < TWO32
    ensures And(Shr(a, 23), MAX_EXPONENT) == AbsRep(a) / IMPLICIT_BIT < 256
    ensures And(a, IMPLICIT_BIT - 1) == AbsRep(a) % IMPLICIT_BIT
    ensures And(a, SIGN_BIT - 1) == AbsRep(a)
    ensures a == AbsRep(a) + if Negative(a) then SIGN_BIT else 0
  {
    Pow2Values();
    SmallPowers();
    AndMask(a, 23);
    AndMask(a, 31);
    AndMask(Shr(a, 23), 8);
    FieldArithmetic(a);
  }

  lemma FieldArithmetic(a: nat)
    requires a < 0x1_0000_0000
    ensures a / 0x80_0000 % 256 == (a % 0x8000_0000) / 0x80_0000 < 256
    ensures a % 0x80_0000 == (a % 0x8000_0000) % 0x80_0000
    ensures a == a % 0x8000_0000 + (if a / 0x8000_0000 % 2 == 1 then 0x8000_0000 else 0)
  {
    DivUnique(a % 0x8000_0000, 0x80_0000, a / 0x80_0000 % 256, a % 0x80_0000);
  }

  /** The sign of the result is the exclusive or of the signs. */
  lemma SignField(a: nat, b: nat)
    ensures And(Xor(a, b), SIGN_BIT) == if Negative(a) != Negative(b) then SIGN_BIT else 0
  {
    Pow2Values();
    AndBit(Xor(a, b), 31);
    XorBit(a, b, 31);
  }

  /** Inserting a sign bit above a 31-bit magnitude. */
  lemma WithSign(abs: nat, negative: bool)
    requires abs < SIGN_BIT
    ensures var r := Or(abs, if negative then SIGN_BIT else 0);
      r < TWO32 && AbsRep(r) == abs && Negative(r) == negative
  {
    SetTopBit(abs);
    OrZero(abs);
  }

  lemma SetTopBit(abs: nat)
    requires abs < 0x8000_0000
    ensures Or(abs, 0x8000_0000) == abs + 0x8000_0000
    ensures (abs + 0x8000_0000) % 0x8000_0000 == abs && (abs + 0x8000_0000) / 0x8000_0000 == 1
  {
    Pow2Values();
    OrBit(abs, 31);
    DivUnique(abs + 0x8000_0000, 0x8000_0000, 1, abs);
  }

  function Quieted(a: nat): nat { if a / QUIET_BIT % 2 == 1 then a else a + QUIET_BIT }

  /** Making a NaN quiet leaves it a NaN. */
  lemma QuietNaN(a: nat)
    requires a < TWO32 && IsNaN(a)
    ensures Or(a, QUIET_BIT) == Quieted(a)
    ensures Quieted(a) < TWO32 && IsNaN(Quieted(a)) && Quieted(a) / QUIET_BIT % 2 == 1
  {
    hide Or, Pow2;
    Pow2Values();
    OrBit(a, 22);
    QuietField(a);
  }

  lemma QuietField(a: nat)
    requires a < 0x1_0000_0000 && a % 0x8000_0000 > 0x7f80_0000
    ensures a / 0x40_0000 % 2 == 0 ==>
      (a + 0x40_0000) % 0x8000_0000 == a % 0x8000_0000 + 0x40_0000 && (a + 0x40_0000) / 0x40_0000 % 2 == 1
      && a + 0x40_0000 < 0x1_0000_0000
  {}

  /** Setting the implicit bit of a significand, already set or not. */
  lemma SetImplicit(s: nat)
    requires s < 2 * IMPLICIT_BIT
    ensures Or(s, IMPLICIT_BIT) == if s < IMPLICIT_BIT then IMPLICIT_BIT + s else s
  {
    Pow2Values();
    OrBit(s, 23);
  }

  /** Composing the result's fields. */
  lemma Compose(e: nat, q: nat)
    requires e < 256 && Significand(q)
    ensures Or(And(q, IMPLICIT_BIT - 1), Shl(e, 23, 32)) == Pack(e, q)
  {
    Pow2Values();
    AndMask(q, 23);
    DivUnique(q, 0x80_0000, 1, q - IMPLICIT_BIT);
    assert And(q, IMPLICIT_BIT - 1) == q - IMPLICIT_BIT;
    DivUnique(e * 0x80_0000, 0x1_0000_0000, 0, e * 0x80_0000);
    assert Shl(e, 23, 32) == e * 0x80_0000;
    OrShift(e, q - IMPLICIT_BIT, 23);
    OrComm(q - IMPLICIT_BIT, e * IMPLICIT_BIT);
  }

  /** a and b are finite and nonzero, subnormals included. */
  predicate Ordinary(a: nat) { 0 < AbsRep(a) < INF_REP }

  /** Magnitudes of the operands, with the quotient's unit 2^-149 multiplied in. */
  function Numerator(a: nat): nat { Mag(AbsRep(a)) * Pow2(149) }
  function Denominator(b: nat): nat { Mag(AbsRep(b)) }

  /** What __divsf3 owes its caller when both operands are ordinary: the sign, and
      the correctly rounded magnitude except where the quotient is flushed. */
  ghost predicate DividesOrdinary(a: nat, b: nat, result: nat) {
    var num, den := Numerator(a), Denominator(b);
    && Negative(result) == (Negative(a) != Negative(b))
    && (RoundsTo(num, den, AbsRep(result)) <==> 0x80_0000 * den < num || 2 * num <= den)
    && (num <= 0x80_0000 * den ==> IsZero(result))
  }

  /** What it owes for zeros, infinities and NaNs: a NaN operand comes back, made quiet. */
  ghost predicate DividesSpecial(a: nat, b: nat, result: nat) {
    if IsNaN(a) || IsNaN(b) then
      result == Quieted(if IsNaN(a) then a else b)
    else if (IsInfinity(a) && IsInfinity(b)) || (IsZero(a) && IsZero(b)) then
      result == QNAN_REP
    else
      && Negative(result) == (Negative(a) != Negative(b))
      && (IsInfinity(a) || IsZero(b) ==> IsInfinity(result))
      && (IsInfinity(b) || IsZero(a) ==> IsZero(result))
  }

  /** Everything __divsf3 owes its caller. */
  ghost predicate Divides(a: nat, b: nat, result: nat) {
    if Ordinary(a) && Ordinary(b) then DividesOrdinary(a, b, result) else DividesSpecial(a, b, result)
  }

  /** The result is a quiet NaN exactly for NaN operands, infinity over infinity and
      zero over zero, and no other NaN is ever returned. */
  lemma NaNResults(a: nat, b: nat, result: nat)
    requires a < TWO32 && b < TWO32 && result < TWO32 && Divides(a, b, result)
    ensures IsNaN(result) <==>
      IsNaN(a) || IsNaN(b) || (IsInfinity(a) && IsInfinity(b)) || (IsZero(a) && IsZero(b))
    ensures IsNaN(result) ==> result / 0x40_0000 % 2 == 1
    ensures IsNaN(a) ==> result == a || result == a + 0x40_0000
    ensures !IsNaN(a) && IsNaN(b) ==> result == b || result == b + 0x40_0000
    ensures IsNaN(result) && !IsNaN(a) && !IsNaN(b) ==> result == 0x7fc0_0000
  {
    hide RoundsTo, Mag, Pow2, DividesOrdinary;
    if Ordinary(a) && Ordinary(b) {
      OrdinaryIsNumber(a, b, result);
    } else if IsNaN(a) {
      QuietNaN(a);
    } else if IsNaN(b) {
      QuietNaN(b);
    }
  }

  lemma OrdinaryIsNumber(a: nat, b: nat, result: nat)
    requires DividesOrdinary(a, b, result)
    ensures !IsNaN(result)
  {
    hide Mag, Pow2, Dist;
  }

  /** The three Newton steps and the bump (lines 82-105 of the source). */
  method NewtonReciprocal(q31b: nat) returns (reciprocal: nat)
    requires TWO31 <= q31b < TWO32 && q31b % 256 == 0
    ensures reciprocal < TWO32 && reciprocal * q31b < TWO63 < (reciprocal + 16) * q31b
  {
    hide Words.Pow2;
    reciprocal := (0x7504f333 - q31b) % TWO32;
    var correction := (-(reciprocal * q31b / TWO32)) % TWO32;
    reciprocal := (reciprocal * correction / TWO31) % TWO32;
    assert reciprocal == Refine(Guess(q31b), q31b);
    correction := (-(reciprocal * q31b / TWO32)) % TWO32;
    reciprocal := (reciprocal * correction / TWO31) % TWO32;
    assert reciprocal == Refine(Refine(Guess(q31b), q31b), q31b);
    correction := (-(reciprocal * q31b / TWO32)) % TWO32;
    reciprocal := (reciprocal * correction / TWO31) % TWO32;
    reciprocal := (reciprocal - 2) % TWO32;
    assert reciprocal == Estimate(q31b);
    hide *;
    AsSignificand(q31b);
    EstimateAccuracy(q31b / 256);
  }

  lemma AsSignificand(q31b: nat)
    requires TWO31 <= q31b < TWO32 && q31b % 256 == 0
    ensures 0x80_0000 <= q31b / 256 < 0x100_0000 && q31b / 256 * 256 == q31b
  {}

  /** Zeros, infinities, NaNs and subnormals (lines 34-68 of the source): either the
      result is settled, or both significands come back normalised. */
  method SpecialCases(a: nat, b: nat, quotientSign: nat)
    returns (settled: bool, result: nat, aSignificand: nat, bSignificand: nat, scale: int,
             ghost aShift: nat, ghost bShift: nat)
    requires a < TWO32 && b < TWO32
    requires quotientSign == if Negative(a) != Negative(b) then SIGN_BIT else 0
    ensures settled <==> !(Ordinary(a) && Ordinary(b))
    ensures settled ==> result < TWO32 && DividesSpecial(a, b, result)
    ensures !settled ==>
      && aSignificand < 2 * IMPLICIT_BIT && bSignificand < 2 * IMPLICIT_BIT
      && NormalisedOperand(AbsRep(a), aSignificand, aShift) && NormalisedOperand(AbsRep(b), bSignificand, bShift)
      && scale == bShift - aShift
           + (if AbsRep(a) < IMPLICIT_BIT then 1 else 0) - (if AbsRep(b) < IMPLICIT_BIT then 1 else 0)
  {
    hide RoundsTo, Mag, Pow2, And, Or, Xor;
    Fields(a);
    Fields(b);
    WithSign(0, Negative(a) != Negative(b));
    WithSign(INF_REP, Negative(a) != Negative(b));
    OrZero(quotientSign);
    var aAbs := And(a, SIGN_BIT - 1);
    var bAbs := And(b, SIGN_BIT - 1);
    settled, result, scale, aShift, bShift := true, QNAN_REP, 0, 0, 0;
    aSignificand := And(a, IMPLICIT_BIT - 1);
    bSignificand := And(b, IMPLICIT_BIT - 1);
    if aAbs > INF_REP { QuietNaN(a); result := Or(a, QUIET_BIT); return; }
    if bAbs > INF_REP { QuietNaN(b); result := Or(b, QUIET_BIT); return; }
    if aAbs == INF_REP {
      if bAbs != INF_REP { result := Or(aAbs, quotientSign); }
      return;
    }
    if bAbs == INF_REP { result := quotientSign; return; }
    if aAbs == 0 {
      if bAbs != 0 { result := quotientSign; }
      return;
    }
    if bAbs == 0 { result := Or(INF_REP, quotientSign); return; }
    settled := false;
    if aAbs < IMPLICIT_BIT {
      var adjust;
      aSignificand, adjust := FpLib.Normalize(aSignificand);
      scale := scale + adjust;
      aShift := 1 - adjust;
    }
    if bAbs < IMPLICIT_BIT {
      var adjust;
      bSignificand, adjust := FpLib.Normalize(bSignificand);
      scale := scale - adjust;
      bShift := 1 - adjust;
    }
  }

  /** The significand of an ordinary operand before the implicit bit is set. */
  ghost predicate NormalisedOperand(abs: nat, s: nat, shift: nat) {
    if abs < IMPLICIT_BIT then shift >= 1 && s == abs * Pow2(shift) && Significand(s)
    else shift == 0 && s == abs % IMPLICIT_BIT
  }

  lemma OperandFrom(abs: nat, s: nat, shift: nat)
    requires 0 < abs && s < 2 * IMPLICIT_BIT && NormalisedOperand(abs, s, shift)
    ensures Mag(abs) > 0 && Operand(abs, Or(s, IMPLICIT_BIT), ScaledExponent(abs), shift)
  {
    SetImplicit(s);
    if abs < IMPLICIT_BIT {
      SubnormalOperand(abs, s, 1 - shift);
    } else {
      NormalOperand(abs);
    }
  }

  /** The residual the source computes: of the quotient, or of its half when a exceeds b. */
  function ResidualOfQuotient(a: nat, b: nat, r: nat): int {
    if a <= b then a * 0x100_0000 - Quotient(a, r) * b else a * 0x80_0000 - (Quotient(a, r) / 2) * b
  }

  /** The residual of the source's two cases: the quotient reaches 2^24 exactly when
      a exceeds b, and is then halved. */
  lemma ResidualOf(a: nat, b: nat, r: nat)
    requires Significand(a) && Significand(b) && Estimates(r, b)
    ensures var q := Quotient(a, r);
      if q < 2 * IMPLICIT_BIT then
        var d := a * 0x100_0000 - q * b;
        a <= b && Significand(q) && 0 < d < 2 * b && d % TWO32 == d
        && forall e :: Finish(a, b, r, e) == Tail(e - 1 + EXPONENT_BIAS, q, d, b)
      else
        var d := a * 0x80_0000 - (q / 2) * b;
        a > b && Significand(q / 2) && 0 < d < 2 * b && d % TWO32 == d
        && forall e :: Finish(a, b, r, e) == Tail(e + EXPONENT_BIAS, q / 2, d, b)
  {
    hide Tail, Pow2, Estimates, Quotient;
    QuotientRange(a, b, r);
    QuotientError(a, b, r);
    var q := Quotient(a, r);
    if q < 2 * IMPLICIT_BIT {
      FitsWord(a * 0x100_0000 - q * b, b);
    } else {
      Halved(a, b, r);
      FitsWord(a * 0x80_0000 - (q / 2) * b, b);
    }
  }

  /** A residual that fits a word survives the wrapping subtraction. */
  lemma FitsWord(d: int, b: nat)
    requires 0 < d && 8 * d < 9 * b && b < 2 * IMPLICIT_BIT
    ensures d < 2 * b && d % TWO32 == d
  {
    DivUnique(d, TWO32, 0, d);
  }

  /** Quotient and residual (lines 119-143 of the source); the wrapped residual is
      the true one. */
  method QuotientAndResidual(aSignificand: nat, bSignificand: nat, reciprocal: nat, exponent: int)
    returns (quotient: nat, residual: nat, writtenExponent: int)
    requires Significand(aSignificand) && Significand(bSignificand) && Estimates(reciprocal, bSignificand)
    ensures Significand(quotient) && 0 < residual < 2 * bSignificand
    ensures residual == ResidualOfQuotient(aSignificand, bSignificand, reciprocal)
    ensures var scale := if aSignificand <= bSignificand then 0x100_0000 else 0x80_0000;
      residual == aSignificand * scale - quotient * bSignificand
    ensures Finish(aSignificand, bSignificand, reciprocal, exponent)
         == Tail(writtenExponent, quotient, residual, bSignificand)
  {
    hide Tail, Pow2, Estimates, Finish;
    assert reciprocal * (aSignificand * 2 % TWO32) / TWO32 == Quotient(aSignificand, reciprocal);
    hide Quotient;
    ResidualOf(aSignificand, bSignificand, reciprocal);
    var quotientExponent := exponent;
    quotient := reciprocal * (aSignificand * 2 % TWO32) / TWO32;
    if quotient < 2 * IMPLICIT_BIT {
      residual := (aSignificand * 0x100_0000 - quotient * bSignificand) % TWO32;
      quotientExponent := quotientExponent - 1;
    } else {
      quotient := quotient / 2;
      residual := (aSignificand * 0x80_0000 - quotient * bSignificand) % TWO32;
    }
    writtenExponent := quotientExponent + EXPONENT_BIAS;
  }

  /** The quotient misses less than one unit exactly when it is the floor of a/b. What
      decides it is the reciprocal's shortfall against the bits the product drops. */
  lemma QuotientIsFloor(a: nat, b: nat, r: nat)
    requires Significand(a) && Significand(b) && Estimates(r, b)
    ensures Quotient(a, r) == a * 0x100_0000 / b <==> a * (TWO55 - r * b) < (TWO31 - r * a % TWO31) * b
    ensures a * 0x100_0000 - Quotient(a, r) * b < b <==> a * (TWO55 - r * b) < (TWO31 - r * a % TWO31) * b
  {
    hide Quotient, Estimates;
    var q, t := Quotient(a, r), r * a % TWO31;
    var d := a * 0x100_0000 - q * b;
    QuotientError(a, b, r);
    QuotientGap(a, b, r);
    MulAdd(TWO31, -t, b);
    FloorOf(a * 0x100_0000, b, q);
  }

  lemma FloorOf(n: nat, b: nat, q: nat)
    requires b > 0 && 0 < n - q * b
    ensures q == n / b <==> n - q * b < b
  {
    DivModOf(n, b);
    if n - q * b < b { DivUnique(n, b, q, n - q * b); }
  }

  /** When the residual stays below the divisor, as the source's comment says it does. */
  lemma ResidualBelowDivisor(a: nat, b: nat, r: nat)
    requires Significand(a) && Significand(b) && Estimates(r, b)
    ensures ResidualOfQuotient(a, b, r) < b <==>
      a * (TWO55 - r * b) < (TWO31 - r * a % TWO31) * b || (a > b && Quotient(a, r) % 2 == 0)
  {
    hide Quotient, Estimates;
    QuotientIsFloor(a, b, r);
    QuotientError(a, b, r);
    HalveProduct(Quotient(a, r), b);
  }

  /** It can exceed the divisor, halved or not. */
  lemma ResidualExceedsDivisor()
    ensures var a, b := 0x83_392f, 0x84_631d;
      Significand(a) && Significand(b) && ResidualOfQuotient(a, b, Estimate(b * 256)) == 8707430 > b
    ensures var a, b := 0xbf_06fd, 0x8c_a656;
      Significand(a) && Significand(b) && ResidualOfQuotient(a, b, Estimate(b * 256)) == 9219968 > b
  {
    EstimateOfWitness();
    EstimateOfHalved();
    hide Estimate;
    assert Quotient(0x83_392f, 0xf784_35f8) == 0xfd_bfe2;
    assert Quotient(0xbf_06fd, 0xe8f9_d3a1) == 0x15b_b181;
  }

  lemma EstimateOfHalved()
    ensures Estimate(0x8ca6_5600) == 0xe8f9_d3a1
  {
    hide Refine;
    assert Guess(0x8ca6_5600) == 0xe85e_9d33;
    RefineValue(0xe85e_9d33, 0x8ca6_5600, 0x7faa_b961, 0xe8f9_6c3b);
    RefineValue(0xe8f9_6c3b, 0x8ca6_5600, 0x7fff_c730, 0xe8f9_d3a2);
    RefineValue(0xe8f9_d3a2, 0x8ca6_5600, 0x7fff_ffff, 0xe8f9_d3a3);
  }

  lemma EstimateOfWitness()
    ensures Estimate(0x8463_1d00) == 0xf784_35f8
  {
    hide Refine;
    assert Guess(0x8463_1d00) == 0xf0a1_d633;
    RefineValue(0xf0a1_d633, 0x8463_1d00, 0x7c70_9c4a, 0xf753_3178);
    RefineValue(0xf753_3178, 0x8463_1d00, 0x7fe6_a6b2, 0xf784_2c46);
    RefineValue(0xf784_2c46, 0x8463_1d00, 0x7fff_fafb, 0xf784_35fa);
  }

  /** One step from the two truncated quotients it forms. */
  lemma RefineValue(r: nat, q: nat, t: nat, n: nat)
    requires 0 < t < TWO32 && t * TWO32 <= r * q < (t + 1) * TWO32
    requires n < TWO32 && n * TWO31 <= r * (TWO32 - t) < (n + 1) * TWO31
    ensures Refine(r, q) == n
  {
    DivUnique(r * q, TWO32, t, r * q - t * TWO32);
    DivUnique(0 - t, TWO32, -1, TWO32 - t);
    DivUnique(r * (TWO32 - t), TWO31, n, r * (TWO32 - t) - n * TWO31);
    DivUnique(n, TWO32, 0, n);
  }

  /** Overflow, flush to zero, or rounding, and the sign (lines 145-166 of the source). */
  method Encode(writtenExponent: int, quotient: nat, residual: nat, bSignificand: nat, quotientSign: nat)
    returns (result: nat)
    requires Significand(quotient) && Significand(bSignificand) && residual < 2 * bSignificand
    requires quotientSign == 0 || quotientSign == SIGN_BIT
    ensures result < TWO32
    ensures AbsRep(result) == Tail(writtenExponent, quotient, residual, bSignificand)
    ensures Negative(result) == (quotientSign == SIGN_BIT)
  {
    hide And, Or, Shl, Pow2;
    if writtenExponent >= MAX_EXPONENT {
      WithSign(INF_REP, quotientSign == SIGN_BIT);
      result := Or(INF_REP, quotientSign);
    } else if writtenExponent < 1 {
      WithSign(0, quotientSign == SIGN_BIT);
      OrZero(quotientSign);
      result := quotientSign;
    } else {
      Compose(writtenExponent, quotient);
      var round := residual * 2 % TWO32 > bSignificand;
      var absResult := And(quotient, IMPLICIT_BIT - 1);
      absResult := Or(absResult, Shl(writtenExponent, 23, 32));
      absResult := absResult + if round then 1 else 0;
      WithSign(absResult, quotientSign == SIGN_BIT);
      result := Or(absResult, quotientSign);
    }
  }

  method DivSf3(a: nat, b: nat) returns (result: nat)
    requires a < TWO32 && b < TWO32
    ensures result < TWO32
    ensures Divides(a, b, result)
  {
    hide RoundsTo, Mag, Pow2, And, Or, Xor, Shl, Shr, Estimate, Finish, Refine, DividesOrdinary, DividesSpecial;
    hide AbsRep, NormalisedOperand, ScaledExponent, Negative, Estimates;
    Fields(a);
    Fields(b);
    SignField(a, b);
    var aExponent := And(Shr(a, 23), MAX_EXPONENT);
    var bExponent := And(Shr(b, 23), MAX_EXPONENT);
    var quotientSign := And(Xor(a, b), SIGN_BIT);
    var aSignificand := And(a, IMPLICIT_BIT - 1);
    var bSignificand := And(b, IMPLICIT_BIT - 1);
    var scale := 0;
    ghost var aShift, bShift := 0, 0;
    WrapTest(aExponent);
    WrapTest(bExponent);
    if (aExponent - 1) % TWO32 >= MAX_EXPONENT - 1 || (bExponent - 1) % TWO32 >= MAX_EXPONENT - 1 {
      var settled;
      settled, result, aSignificand, bSignificand, scale, aShift, bShift := SpecialCases(a, b, quotientSign);
      if settled { return; }
    } else {
      NormalPath(AbsRep(a));
      NormalPath(AbsRep(b));
    }
    ExponentFields(AbsRep(a));
    ExponentFields(AbsRep(b));
    ghost var aOriginal, bOriginal := aSignificand, bSignificand;
    SetImplicit(aSignificand);
    SetImplicit(bSignificand);
    aSignificand := Or(aSignificand, IMPLICIT_BIT);
    bSignificand := Or(bSignificand, IMPLICIT_BIT);
    var quotientExponent := aExponent - bExponent + scale;
    AlignedSignificand(bSignificand);
    var reciprocal := NewtonReciprocal(bSignificand * 256 % TWO32);
    assert Estimates(reciprocal, bSignificand) by { EstimatesMeans(reciprocal, bSignificand); }
    var quotient, residual, writtenExponent :=
      QuotientAndResidual(aSignificand, bSignificand, reciprocal, quotientExponent);
    result := Encode(writtenExponent, quotient, residual, bSignificand, quotientSign);
    Assemble(a, b, aOriginal, bOriginal, aShift, bShift, reciprocal, quotientExponent, result);
  }

  /** b << 8 loses no bit and is the Q31 form of b. */
  lemma AlignedSignificand(b: nat)
    requires Significand(b)
    ensures b * 256 % TWO32 == b * 256 && TWO31 <= b * 256 < TWO32 && b * 256 % 256 == 0
  {}

  lemma EstimatesMeans(r: nat, b: nat)
    ensures Estimates(r, b) <==> r < TWO32 && r * (b * 256) < TWO63 < (r + 16) * (b * 256)
  {}

  /** The pieces the source computes make up a correct division. */
  lemma Assemble(a: nat, b: nat, s: nat, t: nat, aShift: nat, bShift: nat, r: nat, exponent: int, result: nat)
    requires a < TWO32 && b < TWO32 && result < TWO32 && Ordinary(a) && Ordinary(b)
    requires s < 2 * IMPLICIT_BIT && NormalisedOperand(AbsRep(a), s, aShift)
    requires t < 2 * IMPLICIT_BIT && NormalisedOperand(AbsRep(b), t, bShift)
    requires Significand(Or(s, IMPLICIT_BIT)) && Significand(Or(t, IMPLICIT_BIT)) && Estimates(r, Or(t, IMPLICIT_BIT))
    requires exponent == (ScaledExponent(AbsRep(a)) - aShift) - (ScaledExponent(AbsRep(b)) - bShift)
    requires AbsRep(result) == Finish(Or(s, IMPLICIT_BIT), Or(t, IMPLICIT_BIT), r, exponent)
    requires Negative(result) == (Negative(a) != Negative(b))
    ensures DividesOrdinary(a, b, result)
  {
    hide RoundsTo, Mag, Pow2, Or, Finish, NormalisedOperand, Estimates;
    OperandFrom(AbsRep(a), s, aShift);
    OperandFrom(AbsRep(b), t, bShift);
    FinishCorrect(AbsRep(a), AbsRep(b), Or(s, IMPLICIT_BIT), Or(t, IMPLICIT_BIT),
                  ScaledExponent(AbsRep(a)), ScaledExponent(AbsRep(b)), aShift, bShift, r);
  }

  /** An exponent field strictly between 0 and 255 belongs to a normal number. */
  lemma NormalPath(abs: nat)
    requires abs / IMPLICIT_BIT != 0 && abs / IMPLICIT_BIT < 255
    ensures IMPLICIT_BIT <= abs < INF_REP && NormalisedOperand(abs, abs % IMPLICIT_BIT, 0)
    ensures abs % IMPLICIT_BIT < IMPLICIT_BIT
  {}

  /** The unsigned comparison that singles out fields 0 and 255. */
  lemma WrapTest(e: nat)
    requires e < 256
    ensures (e - 1) % TWO32 >= MAX_EXPONENT - 1 <==> e == 0 || e == MAX_EXPONENT
  {}

  lemma ExponentFields(abs: nat)
    ensures abs / IMPLICIT_BIT == 0 <==> abs < IMPLICIT_BIT
    ensures abs < INF_REP ==> abs / IMPLICIT_BIT < MAX_EXPONENT
    ensures ScaledExponent(abs) == abs / IMPLICIT_BIT - (if abs < IMPLICIT_BIT then 0 else 1)
  {}

  /** Exponent of a representation's magnitude, in units of 2^-149. */
  function ScaledExponent(abs: nat): nat {
    var e := abs / IMPLICIT_BIT;
    if e == 0 then 0 else e - 1
  }

  /** The contract leaves no freedom: it determines every bit of the result. */
  lemma DividesUnique(a: nat, b: nat, r: nat, s: nat)
    requires a < TWO32 && b < TWO32 && r < TWO32 && s < TWO32
    requires Divides(a, b, r) && Divides(a, b, s)
    ensures r == s
  {
    hide RoundsTo, Mag, Pow2;
    if Ordinary(a) && Ordinary(b) {
      MagMono(0, AbsRep(b));
      if 0x80_0000 * Denominator(b) < Numerator(a) {
        RoundsToUnique(Numerator(a), Denominator(b), AbsRep(r), AbsRep(s));
      }
    }
  }

  /** Quotients above 2^-126 in magnitude are always correctly rounded, overflow
      to infinity included. */
  lemma NormalQuotientsRounded(a: nat, b: nat, result: nat)
    requires Ordinary(a) && Ordinary(b) && result < TWO32 && DividesOrdinary(a, b, result)
    requires 0x80_0000 * Denominator(b) < Numerator(a)
    ensures RoundsTo(Numerator(a), Denominator(b), AbsRep(result))
    ensures IsInfinity(result) <==> 2 * Numerator(a) >= 0x1ff_ffff * Pow2(253) * Denominator(b)
  {
    hide RoundsTo, Mag, Pow2;
    MagMono(0, AbsRep(b));
    RoundsToInfinity(Numerator(a), Denominator(b));
    if 2 * Numerator(a) >= 0x1ff_ffff * Pow2(253) * Denominator(b) {
      RoundsToUnique(Numerator(a), Denominator(b), AbsRep(result), INF_REP);
    }
  }

  /** Correct rounding fails on a quotient that is a normal number: the smallest
      normal number divided by 1.0 is itself, yet the source returns zero. */
  lemma SmallestNormalFlushed(result: nat)
    requires result < TWO32 && DividesOrdinary(0x0080_0000, 0x3f80_0000, result)
    ensures RoundsTo(Numerator(0x0080_0000), Denominator(0x3f80_0000), 0x0080_0000)
    ensures result == 0
  {
    hide RoundsTo, Pow2, Mag;
    var num, den := Numerator(0x0080_0000), Denominator(0x3f80_0000);
    ExampleMagnitudes();
    Pow2Values();
    Pow2Add(23, 126);
    assert num == 0x80_0000 * den;
    RoundsToExact(num, den, 0x0080_0000);
    Fields(result);
  }

  lemma ExampleMagnitudes()
    ensures Mag(0x0080_0000) == 0x80_0000 && Mag(0x3f80_0000) == 0x80_0000 * Pow2(126)
  {
    hide Pow2;
    SmallPowers();
  }
}
