/** Unsigned double-word division by shift and subtract:
    src/compiler-rt/builtins/udivmoddi4.c (words of 32 bits) and
    src/compiler-rt/builtins/udivmodti4.c (words of 64 bits). */
module UDivMod {
  import opened Words
  import opened DoubleWords

  /** What a / b and a % b mean for unsigned words. */
  ghost predicate IsQuotient(n: nat, d: nat, quotient: nat, rem: nat) {
    d > 0 && quotient == n / d && rem == n % d
  }

  // ------------------------------------------------------ the shift-subtract loop

  /** The loop invariant. With sr dividend bits still to process, they are the top
      sr bits of q; the bits below them, with carry, are the quotient so far, and
      r is its remainder. The last clause keeps the sign test exact when d uses
      the top bit. */
  ghost predicate Dividing(w: nat, n: nat, d: nat, q: nat, r: nat, carry: nat, sr: nat) {
    && 0 < w && sr < 2 * w && n < Pow2(2 * w) && q < Pow2(2 * w) && carry <= 1
    && r < d < Pow2(2 * w)
    && q / Pow2(2 * w - sr) == n % Pow2(sr)
    && n / Pow2(sr) == (2 * (q % Pow2(2 * w - sr)) + carry) * d + r
    && (Pow2(2 * w - 1) < d && sr > 0 ==> sr == 1 && Pow2(2 * w - 1) <= n)
  }

  /** Splitting off the top one of k + 1 bits. */
  lemma SplitTop(n: nat, m: nat)
    requires m > 0
    ensures (n % (2 * m)) / m <= 1 && (n % (2 * m)) % m == n % m
    ensures n / m == 2 * (n / (2 * m)) + (n % (2 * m)) / m
  {
    DivDiv(n, m, 2);
    assert m * 2 == 2 * m;
    DivUnique(n % (2 * m), m, n / m % 2, n % m);
  }

  /** Shifting q left moves its top bit out and the carry in. */
  lemma ShiftQuotient(q: nat, c: nat, m: nat, carry: nat, half: nat)
    requires c > 0 && m > 0 && carry <= 1 && half == c * m && half > 0
    ensures var top := q / half; var q' := 2 * q + carry - top * (2 * half);
      && top == (q / c) / m && 0 <= q' < 2 * half
      && q' / (2 * c) == (q / c) % m
      && q' % (2 * c) == 2 * (q % c) + carry
  {
    DivDiv(q, c, m);
    DivModOf(q, c);
    DivModOf(q / c, m);
    ShiftDigits(q, q / c / m, q / c % m, q % c, c, m, carry, half);
  }

  lemma ShiftDigits(q: nat, top: nat, rest: nat, l: nat, c: nat, m: nat, carry: nat, half: nat)
    requires c > 0 && half == c * m && carry <= 1 && l < c && rest < m
    requires q == (top * m + rest) * c + l
    ensures var q' := 2 * q + carry - top * (2 * half);
      && 0 <= q' < 2 * half && q' / (2 * c) == rest && q' % (2 * c) == 2 * l + carry
  {
    MulAdd(top * m, rest, c);
    MulAssoc(top, m, c);
    MulAssoc(top, 2, half);
    MulSwap(top, 2, half);
    MulSwap(rest, 2, c);
    MulAssoc(rest, 2, c);
    MulLe(rest + 1, m, 2 * c);
    MulAdd(rest, 1, 2 * c);
    MulSwap(2, c, m);
    MulLe(0, rest, 2 * c);
    DivUnique(2 * q + carry - top * (2 * half), 2 * c, rest, 2 * l + carry);
  }

  /** The remainder after a shift, from the quotient digits low found so far. */
  lemma RemainderStep(n: nat, d: nat, low: nat, r: nat, top: nat, m: nat, half: nat)
    requires m > 0 && r < d && top <= 1 && n < 2 * half
    requires n / m == 2 * (low * d + r) + top
    ensures n / m == 2 * low * d + (2 * r + top)
    ensures 2 * r + top < 2 * d && 2 * r + top < 2 * half
    ensures half < d && m == 1 && half <= n ==> half <= 2 * r + top
  {
    QuotientLe(n, m);
    Digits(n / m, d, low, r, top, half);
  }

  lemma Digits(k: int, d: nat, low: nat, r: nat, top: nat, half: nat)
    requires r < d && top <= 1 && k < 2 * half && k == 2 * (low * d + r) + top
    ensures k == 2 * low * d + (2 * r + top)
    ensures 2 * r + top < 2 * d && 2 * r + top < 2 * half
    ensures half < d && half <= k ==> half <= 2 * r + top
  {
    var p := low * d;
    MulAssoc(2, low, d);
    MulLe(0, low, d);
    MulLe(1, low, d);
  }

  /** The registers after one left shift of r:q. */
  function ShiftedQ(w: nat, q: nat, carry: nat): int
    requires w > 0
  {
    2 * q + carry - q / Pow2(2 * w - 1) * Pow2(2 * w)
  }

  function ShiftedR(w: nat, q: nat, r: nat): int
    requires w > 0
  {
    2 * r + q / Pow2(2 * w - 1)
  }

  lemma ShiftedQuotient(w: nat, n: nat, d: nat, q: nat, r: nat, carry: nat, sr: nat)
    requires Dividing(w, n, d, q, r, carry, sr) && sr > 0
    ensures var q' := ShiftedQ(w, q, carry); var low := Pow2(2 * w - (sr - 1));
      && 0 <= q' < Pow2(2 * w) && 0 <= q / Pow2(2 * w - 1) <= 1
      && q' / low == n % Pow2(sr - 1)
      && q' % low == 2 * (q % Pow2(2 * w - sr)) + carry
      && q / Pow2(2 * w - 1) == n % Pow2(sr) / Pow2(sr - 1)
  {
    hide Pow2;
    Pow2Add(2 * w - sr, sr - 1);
    Doubled(sr);
    Doubled(2 * w - (sr - 1));
    Doubled(2 * w);
    ShiftedTop(n, q, Pow2(2 * w - sr), Pow2(sr - 1), carry, Pow2(2 * w - 1));
  }

  lemma ShiftedTop(n: nat, q: nat, c: nat, m: nat, carry: nat, half: nat)
    requires c > 0 && m > 0 && carry <= 1 && half == c * m && half > 0 && q < 2 * half
    requires q / c == n % (2 * m)
    ensures var q' := 2 * q + carry - q / half * (2 * half);
      && 0 <= q' < 2 * half && 0 <= q / half <= 1
      && q' / (2 * c) == n % m
      && q' % (2 * c) == 2 * (q % c) + carry
      && q / half == n % (2 * m) / m
  {
    ShiftQuotient(q, c, m, carry, half);
    SplitTop(n, m);
  }

  /** One shift of r:q keeps the dividend; the shifted remainder is below 2d and
      does not overflow. */
  lemma ShiftStep(w: nat, n: nat, d: nat, q: nat, r: nat, carry: nat, sr: nat)
    requires Dividing(w, n, d, q, r, carry, sr) && sr > 0
    ensures var q' := ShiftedQ(w, q, carry); var r' := ShiftedR(w, q, r); var low := Pow2(2 * w - (sr - 1));
      && 0 <= q' < Pow2(2 * w) && q' / low == n % Pow2(sr - 1)
      && 0 <= r' < 2 * d && r' < Pow2(2 * w)
      && n / Pow2(sr - 1) == 2 * (q' % low) * d + r'
      && (Pow2(2 * w - 1) < d ==> Pow2(2 * w - 1) <= r')
  {
    var m := Pow2(sr - 1);
    ShiftedQuotient(w, n, d, q, r, carry, sr);
    assert Pow2(sr) == 2 * m && Pow2(2 * w) == 2 * Pow2(2 * w - 1);
    assert sr == 1 ==> m == 1;
    hide Pow2, ShiftedQ;
    SplitTop(n, m);
    RemainderStep(n, d, 2 * (q % Pow2(2 * w - sr)) + carry, r, q / Pow2(2 * w - 1), m, Pow2(2 * w - 1));
  }

  /** s = (signed)(d - r - 1) >> (2w - 1): all ones or all zeros. */
  function SignMask(w: nat, d: nat, r: nat): int
    requires w > 0
  {
    Asr(Signed(Wrap(d - r - 1, 2 * w), 2 * w), 2 * w - 1)
  }

  /** The branchless comparison: the mask is set exactly when r >= d, and then
      carry is 1 and d is subtracted. */
  lemma BranchlessSubtract(w: nat, d: nat, r: nat)
    requires w > 0 && d < Pow2(2 * w) && r < Pow2(2 * w)
    requires r < 2 * d && (Pow2(2 * w - 1) < d ==> Pow2(2 * w - 1) <= r)
    ensures SignMask(w, d, r) == if r >= d then -1 else 0
    ensures var mask := Wrap(SignMask(w, d, r), 2 * w);
      && And(mask, 1) == (if r >= d then 1 else 0)
      && Wrap(r - And(d, mask), 2 * w) == if r >= d then r - d else r
  {
    hide SignMask;
    SignMaskValue(w, d, r);
    ApplyMask(w, d, r, r >= d);
  }

  lemma SignMaskValue(w: nat, d: nat, r: nat)
    requires w > 0 && d < Pow2(2 * w) && r < Pow2(2 * w)
    requires r < 2 * d && (Pow2(2 * w - 1) < d ==> Pow2(2 * w - 1) <= r)
    ensures SignMask(w, d, r) == if r >= d then -1 else 0
  {
    var p, half := Pow2(2 * w), Pow2(2 * w - 1);
    assert p == 2 * half;
    if r >= d {
      DivUnique(d - r - 1, p, -1, p + d - r - 1);
      DivUnique(d - r - 1, half, -1, half + d - r - 1);
    } else {
      DivUnique(d - r - 1, p, 0, d - r - 1);
      DivUnique(d - r - 1, half, 0, d - r - 1);
    }
  }

  lemma ApplyMask(w: nat, d: nat, r: nat, taken: bool)
    requires w > 0 && d < Pow2(2 * w) && r < Pow2(2 * w) && (taken ==> d <= r)
    ensures var mask := Wrap(if taken then -1 else 0, 2 * w);
      And(mask, 1) == (if taken then 1 else 0) && Wrap(r - And(d, mask), 2 * w) == if taken then r - d else r
  {
    var p := Pow2(2 * w);
    assert p == 2 * Pow2(2 * w - 1);
    AndMask(d, 2 * w);
    DivUnique(d, p, 0, d);
    AndMask(p - 1, 1);
    DivUnique(p - 1, 2, Pow2(2 * w - 1) - 1, 1);
    DivUnique(-1, p, -1, p - 1);
    DivUnique(0, p, 0, 0);
    DivUnique(r - (if taken then d else 0), p, 0, r - if taken then d else 0);
  }

  /** One iteration of the loop keeps the invariant. */
  lemma LoopStep(w: nat, n: nat, d: nat, q: nat, r: nat, carry: nat, sr: nat)
    requires Dividing(w, n, d, q, r, carry, sr) && sr > 0
    ensures 0 <= ShiftedQ(w, q, carry) && 0 <= ShiftedR(w, q, r) < 2 * d && ShiftedR(w, q, r) < Pow2(2 * w)
    ensures Pow2(2 * w - 1) < d ==> Pow2(2 * w - 1) <= ShiftedR(w, q, r)
    ensures var r' := ShiftedR(w, q, r);
      Dividing(w, n, d, ShiftedQ(w, q, carry), if r' >= d then r' - d else r', if r' >= d then 1 else 0, sr - 1)
  {
    ShiftStep(w, n, d, q, r, carry, sr);
    MulAdd(2 * (ShiftedQ(w, q, carry) % Pow2(2 * w - (sr - 1))), 1, d);
  }

  /** After the last iteration q and the final carry are the quotient. */
  lemma LoopExit(w: nat, n: nat, d: nat, q: nat, r: nat, carry: nat)
    requires Dividing(w, n, d, q, r, carry, 0)
    ensures IsQuotient(n, d, Or(Shl(q, 1, 2 * w), carry), r)
  {
    var p := Pow2(2 * w);
    assert Pow2(0) == 1 && Pow2(1) == 2;
    DivUnique(q, p, 0, q);
    DivUnique(n, 1, n, 0);
    DivUnique(n, d, 2 * q + carry, r);
    QuotientLe(n, d);
    DivUnique(2 * q, p, 0, 2 * q);
    OrShift(q, carry, 1);
  }

  /** The four-word shift of the loop body computes the shifted registers. */
  lemma ShiftRegisters(w: nat, rHigh: nat, rLow: nat, qHigh: nat, qLow: nat, carry: nat)
    requires w > 0 && carry <= 1
    requires rHigh < Pow2(w) && rLow < Pow2(w) && qHigh < Pow2(w) && qLow < Pow2(w)
    requires 0 <= ShiftedR(w, All(w, qHigh, qLow), All(w, rHigh, rLow)) < Pow2(2 * w)
    ensures var rHigh', rLow' := Joined(w, rHigh, rLow, w - 1), Joined(w, rLow, qHigh, w - 1);
      rHigh' < Pow2(w) && rLow' < Pow2(w)
      && All(w, rHigh', rLow') == ShiftedR(w, All(w, qHigh, qLow), All(w, rHigh, rLow))
    ensures var qHigh', qLow' := Joined(w, qHigh, qLow, w - 1), Or(Shl(qLow, 1, w), carry);
      qHigh' < Pow2(w) && qLow' < Pow2(w)
      && All(w, qHigh', qLow') == ShiftedQ(w, All(w, qHigh, qLow), carry)
  {
    hide Or, Shl;
    ShiftIn(w, qHigh, qLow, carry);
    TopBit(w, qHigh, qLow);
    JoinedIsShifted(w, rLow, qHigh);
    ShiftIn(w, rHigh, rLow, Shr(qHigh, w - 1));
    JoinedBits(w, rHigh, rLow, w - 1);
    TopBit(w, rHigh, rLow);
    NoOverflow(ShiftedR(w, All(w, qHigh, qLow), All(w, rHigh, rLow)), Shr(rHigh, w - 1), Pow2(2 * w));
  }

  lemma JoinedIsShifted(w: nat, high: nat, low: nat)
    requires w > 0
    ensures Joined(w, high, low, w - 1) == Or(Shl(high, 1, w), Shr(low, w - 1))
  {}

  lemma NoOverflow(x: int, top: nat, p: nat)
    requires x < p && top <= 1 && x - top * p >= 0
    ensures top == 0
  {}

  /** Shifted, compared and subtracted: everything one iteration does. */
  lemma Iteration(w: nat, n: nat, d: nat, rHigh: nat, rLow: nat, qHigh: nat, qLow: nat, carry: nat, sr: nat)
    requires rHigh < Pow2(w) && rLow < Pow2(w) && qHigh < Pow2(w) && qLow < Pow2(w) && sr > 0
    requires Dividing(w, n, d, All(w, qHigh, qLow), All(w, rHigh, rLow), carry, sr)
    ensures var qHigh', qLow' := Joined(w, qHigh, qLow, w - 1), Or(Shl(qLow, 1, w), carry);
      var r := All(w, Joined(w, rHigh, rLow, w - 1), Joined(w, rLow, qHigh, w - 1));
      var mask := Wrap(SignMask(w, d, r), 2 * w);
      var r' := Wrap(r - And(d, mask), 2 * w);
      && qHigh' < Pow2(w) && qLow' < Pow2(w)
      && High(w, r') < Pow2(w) && Low(w, r') < Pow2(w) && All(w, High(w, r'), Low(w, r')) == r'
      && Dividing(w, n, d, All(w, qHigh', qLow'), r', And(mask, 1), sr - 1)
  {
    hide Pow2, And, Or, Shl, Shr, ShiftedQ, ShiftedR, All, Wrap, High, Low, SignMask, Joined;
    var q1, r1 := All(w, qHigh, qLow), All(w, rHigh, rLow);
    LoopStep(w, n, d, q1, r1, carry, sr);
    ShiftRegisters(w, rHigh, rLow, qHigh, qLow, carry);
    hide Dividing;
    var r := ShiftedR(w, q1, r1);
    BranchlessSubtract(w, d, r);
    SplitWords(w, if r >= d then r - d else r);
  }

  /** The loop of lines 207-231 of udivmoddi4.c. */
  method ShiftSubtract(w: nat, ghost n: nat, d: nat, q0: nat, r0: nat, sr0: nat) returns (quotient: nat, rem: nat)
    requires Dividing(w, n, d, q0, r0, 0, sr0)
    ensures IsQuotient(n, d, quotient, rem)
  {
    SplitWords(w, q0);
    SplitWords(w, r0);
    hide Pow2, And, Or, Shl, Shr, Dividing, Signed, All, Wrap, High, Low, Asr, IsQuotient;
    var qHigh: nat, qLow: nat := High(w, q0), Low(w, q0);
    var rHigh: nat, rLow: nat := High(w, r0), Low(w, r0);
    var carry: nat, sr: nat := 0, sr0;
    while sr > 0
      invariant qHigh < Pow2(w) && qLow < Pow2(w) && rHigh < Pow2(w) && rLow < Pow2(w)
      invariant Dividing(w, n, d, All(w, qHigh, qLow), All(w, rHigh, rLow), carry, sr)
    {
      Iteration(w, n, d, rHigh, rLow, qHigh, qLow, carry, sr);
      rHigh, rLow, qHigh, qLow, carry := Iterate(w, d, rHigh, rLow, qHigh, qLow, carry);
      sr := sr - 1;
    }
    quotient := Or(Shl(All(w, qHigh, qLow), 1, 2 * w), carry);
    rem := All(w, rHigh, rLow);
    LoopExit(w, n, d, All(w, qHigh, qLow), rem, carry);
  }

  /** The loop body of lines 211-225 of udivmoddi4.c. */
  method Iterate(w: nat, d: nat, rHigh0: nat, rLow0: nat, qHigh0: nat, qLow0: nat, carry0: nat)
    returns (rHigh: nat, rLow: nat, qHigh: nat, qLow: nat, carry: nat)
    requires w > 0
    ensures var r := All(w, Joined(w, rHigh0, rLow0, w - 1), Joined(w, rLow0, qHigh0, w - 1));
      var mask := Wrap(SignMask(w, d, r), 2 * w);
      var r' := Wrap(r - And(d, mask), 2 * w);
      rHigh == High(w, r') && rLow == Low(w, r') && carry == And(mask, 1)
    ensures qHigh == Joined(w, qHigh0, qLow0, w - 1) && qLow == Or(Shl(qLow0, 1, w), carry0)
  {
    hide Pow2, And, Or, Shl, Shr, Signed, All, Wrap, High, Low, Asr;
    rHigh := Or(Shl(rHigh0, 1, w), Shr(rLow0, w - 1));
    rLow := Or(Shl(rLow0, 1, w), Shr(qHigh0, w - 1));
    qHigh := Or(Shl(qHigh0, 1, w), Shr(qLow0, w - 1));
    qLow := Or(Shl(qLow0, 1, w), carry0);
    var r := All(w, rHigh, rLow);
    var s := Asr(Signed(Wrap(d - r - 1, 2 * w), 2 * w), 2 * w - 1);
    carry := And(Wrap(s, 2 * w), 1);
    r := Wrap(r - And(d, Wrap(s, 2 * w)), 2 * w);
    rHigh, rLow := High(w, r), Low(w, r);
  }

  // ------------------------------------------------------ initial alignment

  /** r = n >> sr and q = n << (2w - sr): the registers on entry to the loop. */
  ghost predicate Aligned(w: nat, n: nat, sr: nat, q: nat, r: nat) {
    && 1 <= sr < 2 * w
    && r == Shr(n, sr)
    && q == Wrap(n, sr) * Pow2(2 * w - sr)
  }

  lemma AlignSmall(w: nat, high: nat, low: nat, sr: nat)
    requires 1 <= sr < w && high < Pow2(w) && low < Pow2(w)
    ensures Aligned(w, All(w, high, low), sr, All(w, Shl(low, w - sr, w), 0),
                    All(w, Shr(high, sr), Joined(w, high, low, sr)))
  {
    AlignWithin(w, high, low, sr);
    KeptBits(w, low, sr);
    Pow2Add(w - sr, w);
    MulAssoc(low % Pow2(sr), Pow2(w - sr), Pow2(w));
  }

  lemma AlignWord(w: nat, high: nat, low: nat)
    requires 1 <= w && high < Pow2(w) && low < Pow2(w)
    ensures Aligned(w, All(w, high, low), w, All(w, low, 0), All(w, 0, high))
  {
    hide Pow2;
    assert 2 * w - w == w;
    AllWords(w, high, low);
  }

  lemma AlignLarge(w: nat, high: nat, low: nat, sr: nat)
    requires w < sr < 2 * w && high < Pow2(w) && low < Pow2(w)
    ensures Aligned(w, All(w, high, low), sr, All(w, Joined(w, high, low, sr - w), Shl(low, 2 * w - sr, w)),
                    All(w, 0, Shr(high, sr - w)))
  {
    hide Pow2, Or, Shl, Joined;
    var k := sr - w;
    AlignBeyond(w, high, low, k);
    LargeQuotient(w, high, low, k);
    assert 2 * w - sr == w - k;
  }

  lemma LargeQuotient(w: nat, high: nat, low: nat, k: nat)
    requires k <= w && high < Pow2(w) && low < Pow2(w)
    ensures All(w, Joined(w, high, low, k), Shl(low, w - k, w)) == All(w, Wrap(high, k), low) * Pow2(w - k)
  {
    hide Pow2, Or, Shl, Joined;
    KeptBits(w, low, k);
    JoinedBits(w, high, low, k);
    Pow2Add(k, w - k);
    DivModOf(low, Pow2(k));
    LargeArithmetic(Wrap(high, k), low / Pow2(k), low % Pow2(k), Pow2(k), Pow2(w - k));
  }

  lemma LargeArithmetic(y: int, u: int, v: int, s: int, t: int)
    ensures (y * t + u) * (s * t) + v * t == (y * (s * t) + (u * s + v)) * t
  {
    var b := s * t;
    MulAdd(y * t, u, b);
    MulAdd(y * b, u * s + v, t);
    MulAdd(u * s, v, t);
    MulSwap(y, t, b);
    MulAssoc(u, s, t);
  }

  /** Aligned registers establish the loop invariant. */
  lemma StartDividing(w: nat, n: nat, d: nat, q: nat, r: nat, sr: nat)
    requires Aligned(w, n, sr, q, r) && n < Pow2(2 * w) && Shr(n, sr) < d < Pow2(2 * w)
    requires Pow2(2 * w - 1) < d ==> sr == 1 && Pow2(2 * w - 1) <= n
    ensures Dividing(w, n, d, q, r, 0, sr)
  {
    var c, s := Pow2(2 * w - sr), Pow2(sr);
    Pow2Add(sr, 2 * w - sr);
    MulDiv(n % s, c);
    MulLe(n % s + 1, s, c);
    MulAdd(n % s, 1, c);
  }

  /** The length of a double word whose high word is not zero. */
  lemma HighBits(w: nat, high: nat, low: nat)
    requires 0 < high < Pow2(w) && low < Pow2(w)
    ensures var c := Clz(high, w); Pow2(2 * w - 1 - c) <= All(w, high, low) < Pow2(2 * w - c)
  {
    var c := Clz(high, w);
    Pow2Add(w - 1 - c, w);
    Pow2Add(w - c, w);
    var b := Pow2(w);
    MulLe(Pow2(w - 1 - c), high, b);
    MulLe(high + 1, Pow2(w - c), b);
    MulAdd(high, 1, b);
  }

  /** Shifting n to one bit less than d leaves it below d. */
  lemma ShiftedBelow(n: nat, d: nat, nBits: nat, dBits: nat)
    requires dBits > 0 && n < Pow2(nBits) && Pow2(dBits - 1) <= d && dBits <= nBits
    ensures Shr(n, nBits - dBits + 1) < d
  {
    Pow2Add(nBits - dBits + 1, dBits - 1);
    DivBounds(n, Pow2(nBits - dBits + 1), 0, Pow2(dBits - 1));
  }

  // ------------------------------------------------------ the case tree

  lemma QuotientZero(n: nat, d: nat)
    requires n < d
    ensures IsQuotient(n, d, 0, n)
  {
    DivUnique(n, d, 0, n);
  }

  /** A divisor whose low word is zero leaves the dividend's low word alone. */
  lemma HighDivisor(w: nat, nHigh: nat, nLow: nat, dHigh: nat)
    requires dHigh > 0 && nHigh < Pow2(w) && nLow < Pow2(w)
    ensures IsQuotient(All(w, nHigh, nLow), All(w, dHigh, 0), nHigh / dHigh, All(w, nHigh % dHigh, nLow))
  {
    var b, n := Pow2(w), All(w, nHigh, nLow);
    AllWords(w, nHigh, nLow);
    MulPositive(b, dHigh);
    DivDiv(n, b, dHigh);
    assert All(w, dHigh, 0) == b * dHigh;
  }

  /** Division by a power of two with a mask and a shift. */
  lemma MaskDivides(n: nat, d: nat)
    requires d > 0 && And(d, d - 1) == 0
    ensures d == Pow2(Ctz(d)) && And(n, d - 1) == n % d && Shr(n, Ctz(d)) == n / d
  {
    PowerOfTwoTest(d);
    AndMask(n, Ctz(d));
  }

  /** A divisor that is not a power of two has a second significant bit. */
  lemma NotPower(d: nat, w: nat)
    requires 0 < d < Pow2(w) && And(d, d - 1) != 0
    ensures Clz(d, w) + 1 < w
  {
    assert Pow2(0) == 1 && Pow2(1) == 2;
  }

  lemma PowerExponent(d: nat, w: nat)
    requires 1 < d == Pow2(Ctz(d)) < Pow2(w)
    ensures 1 <= Ctz(d) < w
  {
    if Ctz(d) >= w { Pow2Mono(w, Ctz(d)); }
    assert Pow2(0) == 1;
  }

  /** Both high words nonzero and d not longer than n: one bit less than d of n
      is a proper remainder. */
  lemma HighAlignment(w: nat, nHigh: nat, nLow: nat, dHigh: nat, dLow: nat)
    requires 0 < nHigh < Pow2(w) && nLow < Pow2(w) && 0 < dHigh < Pow2(w) && dLow < Pow2(w)
    ensures var n, d := All(w, nHigh, nLow), All(w, dHigh, dLow);
      var cn, cd := Clz(nHigh, w), Clz(dHigh, w);
      && (cd < cn ==> n < d)
      && (cn <= cd ==> Shr(n, cd - cn + 1) < d)
      && (Pow2(2 * w - 1) < d && cn <= cd ==> cd - cn == 0 && Pow2(2 * w - 1) <= n)
  {
    hide All, Clz, Pow2, Shr;
    HighBits(w, nHigh, nLow);
    HighBits(w, dHigh, dLow);
    var cn, cd := Clz(nHigh, w), Clz(dHigh, w);
    var n, d := All(w, nHigh, nLow), All(w, dHigh, dLow);
    if cd < cn {
      Pow2Mono(2 * w - cn, 2 * w - 1 - cd);
    } else {
      ShiftedBelow(n, d, 2 * w - cn, 2 * w - cd);
      if cd > 0 { Pow2Mono(2 * w - cd, 2 * w - 1); }
    }
  }

  /** A one-word divisor that is not a power of two. */
  lemma OneWordAlignment(w: nat, nHigh: nat, nLow: nat, d: nat)
    requires 0 < nHigh < Pow2(w) && nLow < Pow2(w) && 0 < d < Pow2(w) && And(d, d - 1) != 0
    ensures var sr := 1 + w + Clz(d, w) - Clz(nHigh, w);
      && 2 <= sr < 2 * w
      && Shr(All(w, nHigh, nLow), sr) < d
      && d <= Pow2(2 * w - 1)
  {
    HighBits(w, nHigh, nLow);
    NotPower(d, w);
    ShiftedBelow(All(w, nHigh, nLow), d, 2 * w - Clz(nHigh, w), w - Clz(d, w));
    Pow2Mono(w, 2 * w - 1);
  }

  /** unsigned sr = clz(d) - clz(n): small when d is no longer than n, huge otherwise. */
  lemma UnsignedDifference(cd: nat, cn: nat)
    requires cd < 64 && cn < 64
    ensures Wrap(cd - cn, 32) == if cn <= cd then cd - cn else cd - cn + 0x1_0000_0000
  {
    Pow2Values();
    if cn <= cd {
      DivUnique(cd - cn, 0x1_0000_0000, 0, cd - cn);
    } else {
      DivUnique(cd - cn, 0x1_0000_0000, -1, cd - cn + 0x1_0000_0000);
    }
  }

  lemma OneWordValue(w: nat, high: nat, low: nat)
    ensures if high == 0 then All(w, high, low) == low else All(w, high, low) >= Pow2(w)
  {
    MulLe(1, high, Pow2(w));
  }

  predicate WordSize(w: nat) { w == 32 || w == 64 }

  /** K X / K 0 (lines 59-120 of udivmodti4.c, d.s.high != 0). */
  method LowWordZero(w: nat, nHigh: nat, nLow: nat, dHigh: nat) returns (quotient: nat, rem: nat)
    requires WordSize(w) && 0 < nHigh < Pow2(w) && nLow < Pow2(w) && 0 < dHigh < Pow2(w)
    ensures IsQuotient(All(w, nHigh, nLow), All(w, dHigh, 0), quotient, rem)
  {
    hide Pow2, All, And, Or, Shl, Shr, Clz, Ctz, Wrap, Aligned, Dividing, IsQuotient;
    ghost var n := All(w, nHigh, nLow);
    var d := All(w, dHigh, 0);
    HighDivisor(w, nHigh, nLow, dHigh);
    AllWords(w, nHigh, nLow);
    AllWords(w, dHigh, 0);
    if nLow == 0 {
      return nHigh / dHigh, All(w, nHigh % dHigh, 0);
    }
    if And(dHigh, dHigh - 1) == 0 {
      MaskDivides(nHigh, dHigh);
      return Shr(nHigh, Ctz(dHigh)), All(w, And(nHigh, dHigh - 1), nLow);
    }
    var sr := Wrap(Clz(dHigh, w) - Clz(nHigh, w), 32);
    UnsignedDifference(Clz(dHigh, w), Clz(nHigh, w));
    NotPower(dHigh, w);
    HighAlignment(w, nHigh, nLow, dHigh, 0);
    if sr > w - 2 {
      QuotientZero(n, d);
      return 0, All(w, nHigh, nLow);
    }
    sr := sr + 1;
    AlignSmall(w, nHigh, nLow, sr);
    var qHigh, qLow := Shl(nLow, w - sr, w), 0;
    var rHigh, rLow := Shr(nHigh, sr), Or(Shl(nHigh, w - sr, w), Shr(nLow, sr));
    StartDividing(w, n, d, All(w, qHigh, qLow), All(w, rHigh, rLow), sr);
    quotient, rem := ShiftSubtract(w, n, d, All(w, qHigh, qLow), All(w, rHigh, rLow), sr);
  }

  lemma PowerDivisor(w: nat, nHigh: nat, nLow: nat, d: nat)
    requires nHigh < Pow2(w) && nLow < Pow2(w) && 0 < d < Pow2(w) && And(d, d - 1) == 0
    ensures d == 1 ==> IsQuotient(All(w, nHigh, nLow), d, All(w, nHigh, nLow), And(nLow, d - 1))
    ensures d > 1 ==> var sr := Ctz(d);
      1 <= sr < w && IsQuotient(All(w, nHigh, nLow), d, All(w, Shr(nHigh, sr), Joined(w, nHigh, nLow, sr)),
          And(nLow, d - 1))
  {
    MaskDivides(nLow, d);
    if d == 1 {
      DivUnique(All(w, nHigh, nLow), 1, All(w, nHigh, nLow), 0);
    } else {
      PowerExponent(d, w);
      AlignWithin(w, nHigh, nLow, Ctz(d));
    }
  }

  /** K X / 0 K (lines 123-172 of udivmodti4.c). */
  method OneWordDivisor(w: nat, nHigh: nat, nLow: nat, dLow: nat) returns (quotient: nat, rem: nat)
    requires WordSize(w) && 0 < nHigh < Pow2(w) && nLow < Pow2(w) && 0 < dLow < Pow2(w)
    ensures IsQuotient(All(w, nHigh, nLow), dLow, quotient, rem)
  {
    hide Pow2, All, And, Or, Shl, Shr, Clz, Ctz, Wrap, Aligned, Dividing, IsQuotient;
    ghost var n := All(w, nHigh, nLow);
    AllWords(w, nHigh, nLow);
    var sr: nat;
    if And(dLow, dLow - 1) == 0 {
      PowerDivisor(w, nHigh, nLow, dLow);
      rem := And(nLow, dLow - 1);
      if dLow == 1 {
        return All(w, nHigh, nLow), rem;
      }
      sr := Ctz(dLow);
      return All(w, Shr(nHigh, sr), Or(Shl(nHigh, w - sr, w), Shr(nLow, sr))), rem;
    }
    OneWordAlignment(w, nHigh, nLow, dLow);
    sr := 1 + w + Clz(dLow, w) - Clz(nHigh, w);
    var qHigh: nat, qLow: nat, rHigh: nat, rLow: nat;
    if sr == w {
      qLow, qHigh, rHigh, rLow := 0, nLow, 0, nHigh;
      AlignWord(w, nHigh, nLow);
    } else if sr < w {
      qLow := 0;
      qHigh := Shl(nLow, w - sr, w);
      rHigh := Shr(nHigh, sr);
      rLow := Or(Shl(nHigh, w - sr, w), Shr(nLow, sr));
      AlignSmall(w, nHigh, nLow, sr);
    } else {
      qLow := Shl(nLow, 2 * w - sr, w);
      qHigh := Or(Shl(nHigh, 2 * w - sr, w), Shr(nLow, sr - w));
      rHigh := 0;
      rLow := Shr(nHigh, sr - w);
      assert 2 * w - sr == w - (sr - w);
      assert qHigh == Joined(w, nHigh, nLow, sr - w);
      AlignLarge(w, nHigh, nLow, sr);
    }
    Pow2Mono(w, 2 * w);
    StartDividing(w, n, dLow, All(w, qHigh, qLow), All(w, rHigh, rLow), sr);
    quotient, rem := ShiftSubtract(w, n, dLow, All(w, qHigh, qLow), All(w, rHigh, rLow), sr);
  }

  /** K X / K K (lines 174-205 of udivmodti4.c). */
  method TwoWordDivisor(w: nat, nHigh: nat, nLow: nat, dHigh: nat, dLow: nat) returns (quotient: nat, rem: nat)
    requires WordSize(w) && 0 < nHigh < Pow2(w) && nLow < Pow2(w) && 0 < dHigh < Pow2(w) && dLow < Pow2(w)
    ensures IsQuotient(All(w, nHigh, nLow), All(w, dHigh, dLow), quotient, rem)
  {
    hide Pow2, All, And, Or, Shl, Shr, Clz, Wrap, Aligned, Dividing, IsQuotient;
    ghost var n := All(w, nHigh, nLow);
    var d := All(w, dHigh, dLow);
    AllWords(w, nHigh, nLow);
    AllWords(w, dHigh, dLow);
    var sr := Wrap(Clz(dHigh, w) - Clz(nHigh, w), 32);
    UnsignedDifference(Clz(dHigh, w), Clz(nHigh, w));
    HighAlignment(w, nHigh, nLow, dHigh, dLow);
    if sr > w - 1 {
      QuotientZero(n, d);
      return 0, All(w, nHigh, nLow);
    }
    sr := sr + 1;
    var qHigh: nat, qLow: nat, rHigh: nat, rLow: nat;
    qLow := 0;
    if sr == w {
      qHigh, rHigh, rLow := nLow, 0, nHigh;
      AlignWord(w, nHigh, nLow);
    } else {
      rHigh := Shr(nHigh, sr);
      rLow := Or(Shl(nHigh, w - sr, w), Shr(nLow, sr));
      qHigh := Shl(nLow, w - sr, w);
      AlignSmall(w, nHigh, nLow, sr);
    }
    StartDividing(w, n, d, All(w, qHigh, qLow), All(w, rHigh, rLow), sr);
    quotient, rem := ShiftSubtract(w, n, d, All(w, qHigh, qLow), All(w, rHigh, rLow), sr);
  }

  /** Quotient and remainder of two double words, for either word size. */
  method UDivMod(w: nat, a: nat, b: nat) returns (quotient: nat, rem: nat)
    requires WordSize(w) && a < Pow2(2 * w) && 0 < b < Pow2(2 * w)
    ensures quotient == a / b && rem == a % b
  {
    hide IsQuotient;
    quotient, rem := CaseTree(w, a, b);
    MeansQuotient(a, b, quotient, rem);
  }

  lemma MeansQuotient(n: nat, d: nat, quotient: nat, rem: nat)
    requires d > 0
    ensures IsQuotient(n, d, quotient, rem) <==> quotient == n / d && rem == n % d
  {}

  /** 0 X / 0 X: the machine's own division. */
  method OneWordEach(n: nat, d: nat) returns (quotient: nat, rem: nat)
    requires d > 0
    ensures IsQuotient(n, d, quotient, rem)
  {
    DivNat(n, d);
    quotient, rem := n / d, n % d;
  }

  /** The choice between the special shapes (lines 36-205 of udivmoddi4.c). */
  method CaseTree(w: nat, a: nat, b: nat) returns (quotient: nat, rem: nat)
    requires WordSize(w) && a < Pow2(2 * w) && 0 < b < Pow2(2 * w)
    ensures IsQuotient(a, b, quotient, rem)
  {
    hide Pow2, All, High, Low, IsQuotient;
    SplitWords(w, a);
    SplitWords(w, b);
    OneWordValue(w, High(w, a), Low(w, a));
    OneWordValue(w, High(w, b), Low(w, b));
    var nHigh: nat, nLow: nat, dHigh: nat, dLow: nat := High(w, a), Low(w, a), High(w, b), Low(w, b);
    if nHigh == 0 {
      if dHigh == 0 {
        quotient, rem := OneWordEach(nLow, dLow);
        return;
      }
      QuotientZero(a, b);
      return 0, nLow;
    }
    if dLow == 0 {
      quotient, rem := LowWordZero(w, nHigh, nLow, dHigh);
    } else if dHigh == 0 {
      quotient, rem := OneWordDivisor(w, nHigh, nLow, dLow);
    } else {
      quotient, rem := TwoWordDivisor(w, nHigh, nLow, dHigh, dLow);
    }
  }

  /** __udivmoddi4: 64-bit operands in words of 32 bits. */
  method UDivModDI4(a: nat, b: nat) returns (quotient: nat, rem: nat)
    requires a < Pow2(64) && 0 < b < Pow2(64)
    ensures quotient == a / b && rem == a % b
  {
    quotient, rem := UDivMod(32, a, b);
  }

  /** __udivmodti4: 128-bit operands in words of 64 bits. */
  method UDivModTI4(a: nat, b: nat) returns (quotient: nat, rem: nat)
    requires a < Pow2(128) && 0 < b < Pow2(128)
    ensures quotient == a / b && rem == a % b
  {
    quotient, rem := UDivMod(64, a, b);
  }
}
