/** The binary32 format of IEEE 754-2008 and its default rounding, round to
    nearest with ties to even (section 4.3.1), stated over exact integers. */
module Float32 {
  import opened Words

  const IMPLICIT_BIT: nat := 0x80_0000
  const SIGN_BIT: nat := 0x8000_0000
  const INF_REP: nat := 0x7f80_0000
  const EXPONENT_BIAS: nat := 127

  /** Magnitude of a sign-free representation, in units of 2^-149, the smallest
      subnormal. The infinity pattern stands for 2^128, the value that would
      follow the largest finite number if the exponent range were unbounded. */
  function Mag(r: nat): nat {
    var e, m := r / IMPLICIT_BIT, r % IMPLICIT_BIT;
    if e == 0 then m else (IMPLICIT_BIT + m) * Pow2(e - 1)
  }

  /** The gap between a representation and its successor. */
  function Ulp(r: nat): (u: nat)
    ensures u > 0
  {
    var e := r / IMPLICIT_BIT;
    if e == 0 then 1 else Pow2(e - 1)
  }

  lemma MagStep(r: nat)
    ensures Mag(r + 1) == Mag(r) + Ulp(r)
    ensures Ulp(r) <= Ulp(r + 1)
  {
    var e, m := r / IMPLICIT_BIT, r % IMPLICIT_BIT;
    if m + 1 < IMPLICIT_BIT {
      DivUnique(r + 1, IMPLICIT_BIT, e, m + 1);
    } else {
      DivUnique(r + 1, IMPLICIT_BIT, e + 1, 0);
      if e > 0 {
        assert Pow2(e) == 2 * Pow2(e - 1);
        assert Mag(r + 1) == 0x80_0000 * Pow2(e) == 0x100_0000 * Pow2(e - 1);
        assert Mag(r) == 0xff_ffff * Pow2(e - 1);
      }
    }
  }

  lemma {:induction false} MagMono(r: nat, s: nat)
    requires r < s
    ensures Mag(r) < Mag(s)
    decreases s
  {
    MagStep(s - 1);
    if r < s - 1 {
      MagMono(r, s - 1);
    }
  }

  /** Distance between num/den and a representation, scaled by den. */
  function Dist(num: nat, den: nat, r: nat): nat { Abs(num - Mag(r) * den) }

  /** r is the representation nearest to num/den; a tie goes to the even one.
      The infinity pattern takes part as 2^128, so results from the midpoint
      2^128 - 2^103 upward round to infinity, as section 4.3.1 requires. */
  ghost predicate RoundsTo(num: nat, den: nat, r: nat) {
    && r <= INF_REP
    && forall s: nat | s <= INF_REP && s != r ::
         Dist(num, den, r) < Dist(num, den, s) || (Dist(num, den, r) == Dist(num, den, s) && r % 2 == 0)
  }

  lemma ScaledMono(r: nat, s: nat, den: nat)
    requires den > 0 && r < s
    ensures Mag(r) * den < Mag(s) * den
  {
    MagMono(r, s);
    MulLe(Mag(r) + 1, Mag(s), den);
  }

  /** Being within half a gap of both neighbours is being nearest. */
  lemma RoundsToLocal(num: nat, den: nat, r: nat)
    requires den > 0 && r <= INF_REP
    requires r > 0 ==> var mid := Mag(r - 1) * den + Mag(r) * den;
                       mid < 2 * num || (mid == 2 * num && r % 2 == 0)
    requires r < INF_REP ==> var mid := Mag(r) * den + Mag(r + 1) * den;
                             2 * num < mid || (mid == 2 * num && r % 2 == 0)
    ensures RoundsTo(num, den, r)
  {
    forall s: nat | s <= INF_REP && s != r
      ensures Dist(num, den, r) < Dist(num, den, s) || (Dist(num, den, r) == Dist(num, den, s) && r % 2 == 0)
    {
      if s < r {
        if s < r - 1 { ScaledMono(s, r - 1, den); }
        ScaledMono(r - 1, r, den);
      } else {
        if r + 1 < s { ScaledMono(r + 1, s, den); }
        ScaledMono(r, r + 1, den);
      }
    }
  }

  /** A representable value rounds to itself. */
  lemma RoundsToExact(num: nat, den: nat, r: nat)
    requires den > 0 && r <= INF_REP && num == Mag(r) * den
    ensures RoundsTo(num, den, r)
  {
    hide Mag;
    forall s: nat | s <= INF_REP && s != r
      ensures Dist(num, den, r) < Dist(num, den, s)
    {
      if s < r { ScaledMono(s, r, den); } else { ScaledMono(r, s, den); }
    }
  }

  /** Rounding is a function: no value rounds to two representations. */
  lemma RoundsToUnique(num: nat, den: nat, r: nat, s: nat)
    requires den > 0 && RoundsTo(num, den, r) && RoundsTo(num, den, s)
    ensures r == s
  {
    if r < s {
      NoTwoNearest(num, den, r, s);
    } else if s < r {
      NoTwoNearest(num, den, s, r);
    }
  }

  lemma NoTwoNearest(num: nat, den: nat, r: nat, s: nat)
    requires den > 0 && r < s <= INF_REP
    ensures !(RoundsTo(num, den, r) && RoundsTo(num, den, s))
  {
    hide Mag;
    ScaledMono(r, s, den);
    if r + 1 < s {
      ScaledMono(r, r + 1, den);
      ScaledMono(r + 1, s, den);
      CloserBetween(num, Mag(r) * den, Mag(r + 1) * den, Mag(s) * den);
      assert Dist(num, den, r + 1) < Dist(num, den, r) || Dist(num, den, r + 1) < Dist(num, den, s);
    } else {
      assert s % 2 == 0 <==> r % 2 != 0;
      assert RoundsTo(num, den, r) ==>
        Dist(num, den, r) < Dist(num, den, s) || (Dist(num, den, r) == Dist(num, den, s) && r % 2 == 0);
    }
  }

  /** A value between two others is nearer to any x than one of them is. */
  lemma CloserBetween(x: int, lo: int, mid: int, hi: int)
    requires lo < mid < hi
    ensures Abs(x - mid) < Abs(x - lo) || Abs(x - mid) < Abs(x - hi)
  {}

  /** Rounding preserves order. */
  lemma RoundsToMonotone(x: nat, y: nat, den: nat, r: nat, s: nat)
    requires den > 0 && x <= y && RoundsTo(x, den, r) && RoundsTo(y, den, s)
    ensures r <= s
  {
    if s < r {
      ScaledMono(s, r, den);
      assert Dist(x, den, r) <= Dist(x, den, s);
      assert Dist(y, den, s) <= Dist(y, den, r);
      assert x == y;
      RoundsToUnique(x, den, r, s);
    }
  }

  /** Zero is the rounded value exactly up to half the smallest subnormal. */
  lemma RoundsToZero(num: nat, den: nat)
    requires den > 0
    ensures RoundsTo(num, den, 0) <==> 2 * num <= den
  {
    MagStep(0);
    if 2 * num <= den {
      RoundsToLocal(num, den, 0);
    } else {
      assert Dist(num, den, 1) < Dist(num, den, 0);
    }
  }

  /** Infinity is the rounded value exactly from 2^128 - 2^103 upward. */
  lemma RoundsToInfinity(num: nat, den: nat)
    requires den > 0
    ensures RoundsTo(num, den, INF_REP) <==> 2 * num >= 0x1ff_ffff * Pow2(253) * den
  {
    var last := INF_REP - 1;
    MagStep(last);
    assert Mag(last) == 0xff_ffff * Pow2(253);
    assert Mag(last) * den + Mag(INF_REP) * den == 0x1ff_ffff * Pow2(253) * den;
    ScaledMono(last, INF_REP, den);
    if 2 * num >= 0x1ff_ffff * Pow2(253) * den {
      RoundsToLocal(num, den, INF_REP);
    } else {
      assert Dist(num, den, last) < Dist(num, den, INF_REP);
    }
  }

  /** The representation with exponent field e and significand q. */
  function Pack(e: nat, q: nat): nat
    requires IMPLICIT_BIT <= q
  {
    e * IMPLICIT_BIT + (q - IMPLICIT_BIT)
  }

  lemma PackMag(e: nat, q: nat)
    requires 0 < e && IMPLICIT_BIT <= q < 2 * IMPLICIT_BIT
    ensures Mag(Pack(e, q)) == q * Pow2(e - 1) && Ulp(Pack(e, q)) == Pow2(e - 1)
    ensures Pack(e, q) % 2 == q % 2
  {
    hide Pow2;
    DivUnique(Pack(e, q), 0x80_0000, e, q - IMPLICIT_BIT);
    EvenMultiple(e, q - IMPLICIT_BIT);
  }

  lemma EvenMultiple(e: nat, m: nat)
    ensures (e * 0x80_0000 + m) % 2 == m % 2
  {}

  /** A truncated representation plus a correct up/down decision is the rounded
      value. x and g are the representation's magnitude and gap, scaled by den. */
  lemma RoundNear(num: nat, den: nat, r: nat, x: nat, g: nat, up: bool)
    requires den > 0 && r < INF_REP
    requires Mag(r) * den == x && Mag(r + 1) * den == x + g && Mag(r + 2) * den >= x + 2 * g
    requires x <= num && 2 * num < 2 * x + 3 * g
    requires up ==> 2 * x + g < 2 * num || (2 * x + g == 2 * num && r % 2 == 1)
    requires !up ==> 2 * num < 2 * x + g || (2 * num == 2 * x + g && r % 2 == 0)
    ensures RoundsTo(num, den, r + if up then 1 else 0)
  {
    hide *;
    if up {
      RoundsToLocal(num, den, r + 1);
    } else {
      if r > 0 { ScaledMono(r - 1, r, den); }
      RoundsToLocal(num, den, r);
    }
  }

  /** The scaled magnitudes of three consecutive representations. */
  lemma PackGaps(den: nat, e: nat, q: nat)
    requires den > 0 && 1 <= e && IMPLICIT_BIT <= q < 2 * IMPLICIT_BIT
    ensures var p := Pow2(e - 1); var r := Pack(e, q);
      && r % 2 == q % 2
      && Mag(r) * den == q * p * den
      && Mag(r + 1) * den == q * p * den + p * den
      && Mag(r + 2) * den >= q * p * den + 2 * (p * den)
  {
    var r, p := Pack(e, q), Pow2(e - 1);
    PackMag(e, q);
    MagStep(r);
    MagStep(r + 1);
    var m := q * p;
    MulLe(m + 2 * p, Mag(r + 2), den);
    MulAdd(m, p, den);
    MulAdd(m + p, p, den);
  }

  /** Rounding depends only on the ratio. */
  lemma RoundsToScale(num: nat, den: nat, k: nat, r: nat)
    requires k > 0
    ensures RoundsTo(num * k, den * k, r) <==> RoundsTo(num, den, r)
  {
    forall s: nat
      ensures Dist(num * k, den * k, s) == Dist(num, den, s) * k
    {
      DistScale(num, den, k, s);
    }
    forall s: nat
      ensures Dist(num * k, den * k, r) < Dist(num * k, den * k, s) <==> Dist(num, den, r) < Dist(num, den, s)
      ensures Dist(num * k, den * k, r) == Dist(num * k, den * k, s) <==> Dist(num, den, r) == Dist(num, den, s)
    {
      CompareScale(Dist(num, den, r), Dist(num, den, s), k);
    }
  }

  lemma DistScale(num: nat, den: nat, k: nat, s: nat)
    requires k > 0
    ensures Dist(num * k, den * k, s) == Dist(num, den, s) * k
  {
    var m := Mag(s);
    MulAssoc(m, den, k);
    var d := num - m * den;
    assert num * k - m * (den * k) == d * k;
    CompareScale(0, d, k);
    CompareScale(d, 0, k);
    assert (-d) * k == -(d * k);
  }

  lemma CompareScale(x: int, y: int, k: nat)
    requires k > 0
    ensures x * k < y * k <==> x < y
    ensures x * k == y * k <==> x == y
  {
    MulLe(x + 1, y, k);
    MulLe(y + 1, x, k);
  }
}
