/** Natural-number models of machine words: powers of two, division facts and
    the bitwise operators the C sources use on unsigned words. */
module Words {

  const TWO31: int := 0x8000_0000
  const TWO32: int := 0x1_0000_0000
  const TWO63: int := 0x8000_0000_0000_0000
  const TWO64: int := 0x1_0000_0000_0000_0000
  const TWO96: int := 0x1_0000_0000_0000_0000_0000_0000
  const TWO128: int := 0x1_0000_0000_0000_0000_0000_0000_0000_0000

  function Pow2(n: nat): (p: nat)
    ensures p > 0
  {
    if n == 0 then 1 else 2 * Pow2(n - 1)
  }

  lemma {:induction false} Pow2Add(a: nat, b: nat)
    ensures Pow2(a + b) == Pow2(a) * Pow2(b)
  {
    if a == 0 {
    } else {
      Pow2Add(a - 1, b);
      assert Pow2(a + b) == 2 * Pow2(a - 1 + b);
    }
  }

  lemma {:induction false} Pow2Mono(a: nat, b: nat)
    requires a <= b
    ensures Pow2(a) <= Pow2(b)
    ensures a < b ==> 2 * Pow2(a) <= Pow2(b)
  {
    if a < b {
      Pow2Mono(a, b - 1);
    }
  }

  lemma Doubled(k: nat)
    requires k > 0
    ensures Pow2(k) == 2 * Pow2(k - 1)
  {}

  lemma MulLe(a: int, b: int, c: nat)
    ensures a <= b ==> a * c <= b * c
  {}

  lemma Between(lo: int, x: int, hi: int, p: nat)
    requires lo <= x < hi && p > 0
    ensures p * lo <= x * p < p * hi && lo * p <= x * p < hi * p
  {
    MulLe(lo, x, p);
    MulLe(x + 1, hi, p);
  }

  lemma MulAdd(a: int, b: int, c: int)
    ensures (a + b) * c == a * c + b * c
  {}

  lemma MulAssoc(a: int, b: int, c: int)
    ensures (a * b) * c == a * (b * c)
  {}

  lemma MulSwap(a: int, b: int, c: int)
    ensures (a * b) * c == (a * c) * b
  {}

  lemma Pow2Values()
    ensures Pow2(22) == 0x40_0000 && Pow2(23) == 0x80_0000 && Pow2(24) == 0x100_0000 && Pow2(25) == 0x200_0000
    ensures Pow2(26) == 0x400_0000
    ensures Pow2(31) == 0x8000_0000 && Pow2(32) == 0x1_0000_0000
    ensures Pow2(64) == 0x1_0000_0000_0000_0000
  {
    assert Pow2(1) == 2 && Pow2(2) == 4 && Pow2(3) == 8 && Pow2(4) == 16;
    Pow2Add(4, 4);
    Pow2Add(8, 8);
    Pow2Add(16, 4);
    assert Pow2(21) == 0x20_0000;
    assert Pow2(27) == 0x800_0000 by { Pow2Add(24, 3); }
    Pow2Add(27, 4);
    Pow2Add(32, 32);
  }

  lemma SmallPowers()
    ensures Pow2(0) == 1 && Pow2(1) == 2 && Pow2(2) == 4 && Pow2(8) == 256
  {
    assert Pow2(3) == 8 && Pow2(4) == 16;
    Pow2Add(4, 4);
  }

  /** A quotient and an in-range remainder are the quotient and the remainder. */
  lemma DivUnique(x: int, d: int, q: int, r: int)
    requires d > 0 && x == q * d + r && 0 <= r < d
    ensures q == x / d && r == x % d
  {
    var k := q - x / d;
    assert x == d * (x / d) + x % d;
    assert k * d == x % d - r;
    MulLe(1, k, d);
    MulLe(k, -1, d);
  }

  lemma DivModOf(x: int, d: int)
    requires d > 0
    ensures x == (x / d) * d + x % d && 0 <= x % d < d
  {}

  /** Dividing twice is dividing by the product, and the remainders nest. */
  lemma DivDiv(x: int, a: int, b: int)
    requires a > 0 && b > 0
    ensures a * b > 0
    ensures (x / a) / b == x / (a * b)
    ensures x % (a * b) == ((x / a) % b) * a + x % a
  {
    var q, r := x / a, x % a;
    var q2, r2 := q / b, q % b;
    DivModOf(x, a);
    DivModOf(q, b);
    MulAdd(q2 * b, r2, a);
    MulAssoc(q2, b, a);
    MulLe(r2, b - 1, a);
    MulAdd(b, -1, a);
    MulLe(0, r2, a);
    MulPositive(a, b);
    DivUnique(x, a * b, q2, r2 * a + r);
  }

  lemma MulPositive(a: int, b: int)
    requires a > 0 && b > 0
    ensures a * b > 0
  {}

  lemma DivBounds(x: int, d: int, lo: int, hi: int)
    requires d > 0 && lo * d <= x < hi * d
    ensures lo <= x / d < hi
  {
    var q := x / d;
    DivModOf(x, d);
    MulLe(q + 1, lo, d);
    MulLe(hi, q, d);
  }

  lemma DivNat(x: nat, d: int)
    requires d > 0
    ensures x / d >= 0
  {
    MulLe(x / d, -1, d);
    DivModOf(x, d);
  }

  lemma QuotientLe(n: nat, m: nat)
    requires m > 0
    ensures 0 <= n / m <= n && (m == 1 ==> n / m == n)
  {
    DivNat(n, m);
    DivModOf(n, m);
    MulLe(1, m, n / m);
  }

  lemma RemainderLe(n: nat, m: nat)
    requires m > 0
    ensures 0 <= n % m <= n
  {
    DivNat(n, m);
    DivModOf(n, m);
    MulLe(0, n / m, m);
  }

  lemma MulDiv(q: int, d: int)
    requires d > 0
    ensures (q * d) / d == q && (q * d) % d == 0
  {
    DivUnique(q * d, d, q, 0);
  }

  /** Multiples of the modulus do not change a remainder. */
  lemma ModAdd(x: int, k: int, d: int)
    requires d > 0
    ensures (x + k * d) % d == x % d
    ensures (x + k * d) / d == x / d + k
  {
    DivModOf(x, d);
    assert x + k * d == (x / d + k) * d + x % d by {
      assert (x / d + k) * d == (x / d) * d + k * d;
    }
    DivUnique(x + k * d, d, x / d + k, x % d);
  }

  // ---------------------------------------------------------------- bit operators

  function And(a: nat, b: nat): nat {
    if a == 0 || b == 0 then 0
    else 2 * And(a / 2, b / 2) + (if a % 2 == 1 && b % 2 == 1 then 1 else 0)
  }

  function Or(a: nat, b: nat): nat {
    if a == 0 then b else if b == 0 then a
    else 2 * Or(a / 2, b / 2) + (if a % 2 == 1 || b % 2 == 1 then 1 else 0)
  }

  function Xor(a: nat, b: nat): nat {
    if a == 0 then b else if b == 0 then a
    else 2 * Xor(a / 2, b / 2) + (if a % 2 != b % 2 then 1 else 0)
  }

  type Byte = b: nat | b < 256

  function Abs(x: int): int { if x < 0 then -x else x }

  /** The bits of x below a power of two m. */
  function LowPart(x: nat, m: nat): nat
    requires m > 0
  {
    x % m
  }

  /** x << k in a word of w bits. */
  function Shl(x: nat, k: nat, w: nat): nat { x * Pow2(k) % Pow2(w) }

  /** x >> k for an unsigned word. */
  function Shr(x: nat, k: nat): nat {
    DivNat(x, Pow2(k));
    x / Pow2(k)
  }

  /** An integer reduced to a word of k bits. */
  function Wrap(x: int, k: nat): nat { x % Pow2(k) }

  /** The value of a word of k bits read as two's complement. */
  function Signed(x: nat, k: nat): int
    requires k > 0
  {
    if x < Pow2(k - 1) then x else x - Pow2(k)
  }

  /** An arithmetic right shift. */
  function Asr(x: int, k: nat): int { x / Pow2(k) }

  lemma {:induction false} AndMask(a: nat, k: nat)
    ensures And(a, Pow2(k) - 1) == a % Pow2(k)
  {
    if k == 0 {
    } else {
      var m := Pow2(k - 1);
      AndMask(a / 2, k - 1);
      DivDiv(a, 2, m);
      assert (Pow2(k) - 1) / 2 == m - 1 && (Pow2(k) - 1) % 2 == 1;
      if a == 0 {
        assert a % Pow2(k) == 0;
      }
    }
  }

  lemma {:induction false} OrComm(a: nat, b: nat)
    ensures Or(a, b) == Or(b, a)
  {
    if a != 0 && b != 0 {
      OrComm(a / 2, b / 2);
    }
  }

  lemma OrHalf(a: nat, b: nat)
    ensures Or(a, b) / 2 == Or(a / 2, b / 2)
    ensures Or(a, b) % 2 == 1 <==> a % 2 == 1 || b % 2 == 1
  {}

  lemma OrDouble(x: nat, l: nat)
    requires Or(x, l / 2) == x + l / 2
    ensures Or(2 * x, l) == 2 * x + l
  {
    hide *;
    OrHalf(2 * x, l);
    assert (2 * x) / 2 == x;
  }

  lemma OrZero(a: nat)
    ensures Or(a, 0) == a && Or(0, a) == a
  {}

  /** Or-ing a field into zeroed low bits is addition. */
  lemma {:induction false} OrShift(h: nat, l: nat, k: nat)
    requires l < Pow2(k)
    ensures Or(h * Pow2(k), l) == h * Pow2(k) + l
  {
    if k == 0 {
      OrZero(h);
    } else {
      assert Pow2(k) == 2 * Pow2(k - 1);
      MulAssoc(h, 2, Pow2(k - 1));
      MulAssoc(2, h, Pow2(k - 1));
      hide *;
      OrShift(h, l / 2, k - 1);
      OrDouble(h * Pow2(k - 1), l);
    }
  }

  /** Or-ing a single low bit makes the word odd. */
  lemma OrLowBit(a: nat, s: bool)
    ensures Or(a, if s then 1 else 0) == if s && a % 2 == 0 then a + 1 else a
  {
    if a != 0 && s {
      assert Or(a / 2, 0) == a / 2;
    }
  }

  lemma XorHalf(a: nat, b: nat)
    ensures Xor(a, b) / 2 == Xor(a / 2, b / 2)
    ensures Xor(a, b) % 2 == 1 <==> a % 2 != b % 2
  {}

  lemma {:induction false} XorOnes(a: nat, k: nat)
    requires a < Pow2(k)
    ensures Xor(a, Pow2(k) - 1) == Pow2(k) - 1 - a
  {
    if k > 0 {
      var m := Pow2(k - 1);
      assert Pow2(k) == 2 * m;
      hide *;
      XorOnes(a / 2, k - 1);
      XorHalf(a, 2 * m - 1);
      OnesStep(Xor(a, 2 * m - 1), a, m);
    }
  }

  lemma OnesStep(x: nat, a: nat, m: nat)
    requires m > 0
    ensures (2 * m - 1) / 2 == m - 1 && (2 * m - 1) % 2 == 1
    ensures x / 2 == m - 1 - a / 2 && (x % 2 == 1 <==> a % 2 != 1) ==> x == 2 * m - 1 - a
  {}

  // ---------------------------------------------------------------- counting zeros

  function BitLen(x: nat): (n: nat)
    ensures x < Pow2(n)
    ensures x > 0 ==> n > 0 && Pow2(n - 1) <= x
  {
    if x == 0 then 0 else 1 + BitLen(x / 2)
  }

  /** The value of __builtin_clz on a nonzero word of w bits. */
  function Clz(x: nat, w: nat): (n: nat)
    requires 0 < x < Pow2(w)
    ensures n < w && Pow2(w - 1 - n) <= x < Pow2(w - n)
  {
    BitLenBound(x, w);
    w - BitLen(x)
  }

  lemma BitLenBound(x: nat, w: nat)
    requires 0 < x < Pow2(w)
    ensures 0 < BitLen(x) <= w
  {
    if BitLen(x) > w {
      Pow2Mono(w, BitLen(x) - 1);
    }
  }

  lemma BitLenUnique(x: nat, n: nat)
    requires n > 0 && Pow2(n - 1) <= x < Pow2(n)
    ensures BitLen(x) == n
  {
    if BitLen(x) < n { Pow2Mono(BitLen(x), n - 1); }
    if BitLen(x) > n { Pow2Mono(n, BitLen(x) - 1); }
  }

  /** Shifting a number of n bits left by k - n makes it a number of k bits. */
  lemma ShiftToTop(s: nat, k: nat)
    requires s > 0 && BitLen(s) <= k
    ensures k > 0 && Pow2(k - 1) <= s * Pow2(k - BitLen(s)) < Pow2(k)
  {
    hide *;
    var n := BitLen(s);
    Pow2Add(k - n, n);
    Pow2Add(k - n, n - 1);
    Between(Pow2(n - 1), s, Pow2(n), Pow2(k - n));
  }

  /** The value of __builtin_ctz on a nonzero word. */
  function Ctz(x: nat): (n: nat)
    requires x > 0
  {
    if x % 2 == 1 then 0 else 1 + Ctz(x / 2)
  }

  /** d & (d - 1) is zero exactly for powers of two, and then d is 1 << ctz(d). */
  lemma {:induction false} PowerOfTwoTest(d: nat)
    requires d > 0
    ensures And(d, d - 1) == 0 <==> d == Pow2(Ctz(d))
  {
    if d % 2 == 1 {
      assert Pow2(Ctz(d)) == 1;
      if d > 1 {
        assert (d - 1) / 2 == d / 2;
        AndSelf(d / 2);
      }
    } else {
      PowerOfTwoTest(d / 2);
      assert (d - 1) / 2 == d / 2 - 1;
      assert Pow2(Ctz(d)) == 2 * Pow2(Ctz(d / 2));
    }
  }

  lemma {:induction false} AndSelf(a: nat)
    ensures And(a, a) == a
  {
    if a != 0 { AndSelf(a / 2); }
  }

  lemma AndHalf(a: nat, b: nat)
    ensures And(a, b) / 2 == And(a / 2, b / 2)
    ensures And(a, b) % 2 == 1 <==> a % 2 == 1 && b % 2 == 1
  {}

  /** Testing one bit of a word. */
  lemma {:induction false} AndBit(a: nat, k: nat)
    ensures And(a, Pow2(k)) == if a / Pow2(k) % 2 == 1 then Pow2(k) else 0
    decreases k
  {
    AndHalf(a, Pow2(k));
    if k == 0 {
      assert And(a / 2, 0) == 0;
    } else {
      var m := Pow2(k - 1);
      assert Pow2(k) / 2 == m && Pow2(k) % 2 == 0;
      AndBit(a / 2, k - 1);
      DivDiv(a, 2, m);
    }
  }

  /** Or-ing one bit sets it. */
  lemma {:induction false} OrBit(a: nat, k: nat)
    ensures Or(a, Pow2(k)) == if a / Pow2(k) % 2 == 1 then a else a + Pow2(k)
    decreases k
  {
    OrHalf(a, Pow2(k));
    if k == 0 {
      assert Or(a / 2, 0) == a / 2;
    } else {
      var m := Pow2(k - 1);
      assert Pow2(k) / 2 == m && Pow2(k) % 2 == 0;
      OrBit(a / 2, k - 1);
      DivDiv(a, 2, m);
    }
  }

  predicate Bit(x: nat, k: nat) { x / Pow2(k) % 2 == 1 }

  lemma BitHalf(x: nat, k: nat)
    ensures k > 0 ==> (Bit(x, k) <==> Bit(x / 2, k - 1))
    ensures Bit(x, 0) <==> x % 2 == 1
  {
    if k > 0 {
      Doubled(k);
      DivDiv(x, 2, Pow2(k - 1));
    }
  }

  lemma {:induction false} XorBits(a: nat, b: nat, k: nat)
    ensures Bit(Xor(a, b), k) <==> Bit(a, k) != Bit(b, k)
    decreases k
  {
    hide *;
    XorHalf(a, b);
    BitHalf(a, k);
    BitHalf(b, k);
    BitHalf(Xor(a, b), k);
    if k > 0 { XorBits(a / 2, b / 2, k - 1); }
  }

  lemma {:induction false} AndBits(a: nat, b: nat, k: nat)
    ensures Bit(And(a, b), k) <==> Bit(a, k) && Bit(b, k)
    decreases k
  {
    hide *;
    AndHalf(a, b);
    BitHalf(a, k);
    BitHalf(b, k);
    BitHalf(And(a, b), k);
    if k > 0 { AndBits(a / 2, b / 2, k - 1); }
  }

  lemma {:induction false} OrBits(a: nat, b: nat, k: nat)
    ensures Bit(Or(a, b), k) <==> Bit(a, k) || Bit(b, k)
    decreases k
  {
    hide *;
    OrHalf(a, b);
    BitHalf(a, k);
    BitHalf(b, k);
    BitHalf(Or(a, b), k);
    if k > 0 { OrBits(a / 2, b / 2, k - 1); }
  }

  lemma LowStep(x: nat, m: nat)
    requires m > 0
    ensures LowPart(x, 2 * m) / 2 == LowPart(x / 2, m) && LowPart(x, 2 * m) % 2 == x % 2
  {
    DivDiv(x, 2, m);
  }

  /** Truncating to n bits keeps each of them. */
  lemma {:induction false} LowBits(x: nat, n: nat, k: nat)
    requires k < n
    ensures Bit(LowPart(x, Pow2(n)), k) <==> Bit(x, k)
    decreases k
  {
    hide *;
    Doubled(n);
    LowStep(x, Pow2(n - 1));
    BitHalf(x, k);
    BitHalf(LowPart(x, Pow2(n)), k);
    if k > 0 { LowBits(x / 2, n - 1, k - 1); }
  }

  /** Each bit of an exclusive or. */
  lemma XorBit(a: nat, b: nat, k: nat)
    ensures Xor(a, b) / Pow2(k) % 2 == 1 <==> a / Pow2(k) % 2 != b / Pow2(k) % 2
  {
    hide Xor, Pow2;
    XorBits(a, b, k);
  }

  /** The bits of a word that a left shift by w - k keeps. */
  lemma KeptBits(w: nat, x: nat, k: nat)
    requires k <= w && x < Pow2(w)
    ensures Shl(x, w - k, w) == (x % Pow2(k)) * Pow2(w - k) < Pow2(w)
  {
    var s, t := Pow2(k), Pow2(w - k);
    Pow2Add(k, w - k);
    DivModOf(x, s);
    MulAdd((x / s) * s, x % s, t);
    MulAssoc(x / s, s, t);
    Between(0, x % s, s, t);
    DivUnique(x * t, s * t, x / s, (x % s) * t);
  }

  /** Exclusive or with one bit flips it. */
  lemma {:induction false} XorFlip(a: nat, k: nat)
    ensures Xor(a, Pow2(k)) == if a / Pow2(k) % 2 == 1 then a - Pow2(k) else a + Pow2(k)
    decreases k
  {
    XorHalf(a, Pow2(k));
    if k == 0 {
      assert Xor(a / 2, 0) == a / 2;
    } else {
      var m := Pow2(k - 1);
      assert Pow2(k) / 2 == m && Pow2(k) % 2 == 0;
      XorFlip(a / 2, k - 1);
      DivDiv(a, 2, m);
    }
  }
}
