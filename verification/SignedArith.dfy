/** Signed 128-bit arithmetic in two's complement: src/compiler-rt/builtins/divti3.c,
    modti3.c and muloti4.c. Right shifts of negative numbers are arithmetic. */
module SignedArith {
  import opened Words
  import UDivMod

  /** The most negative value, (ti_int)1 << 127. */
  function MinInt(): int { 0 - Pow2(127) }

  lemma Halves()
    ensures Pow2(128) == 2 * Pow2(127) && Pow2(127) >= 4
  {
    Pow2Mono(2, 127);
    assert Pow2(2) == 2 * Pow2(1) == 4;
  }

  ghost predicate IsInt128(x: int) { MinInt() <= x < Pow2(127) }

  /** The low 128 bits of an integer, and what they mean as a signed word. */
  function Bits(x: int): nat { Wrap(x, 128) }
  function Value(bits: nat): int { Signed(bits, 128) }

  /** x ^ y on signed words. */
  function XorSigned(x: int, y: int): int { Value(Xor(Bits(x), Bits(y))) }

  lemma BitsOf(x: int)
    requires MinInt() <= x < Pow2(128)
    ensures Bits(x) == if x < 0 then x + Pow2(128) else x
    ensures Value(Bits(x)) == if x < Pow2(127) then x else x - Pow2(128)
  {
    hide Pow2;
    Halves();
    if x < 0 {
      DivUnique(x, Pow2(128), -1, x + Pow2(128));
    } else {
      DivUnique(x, Pow2(128), 0, x);
    }
  }

  /** x >> 127 is the sign mask. */
  lemma SignMask(x: int)
    requires IsInt128(x)
    ensures Asr(x, 127) == if x < 0 then -1 else 0
  {
    hide Pow2;
    if x < 0 {
      DivUnique(x, Pow2(127), -1, x + Pow2(127));
    } else {
      DivUnique(x, Pow2(127), 0, x);
    }
  }

  lemma Complement(x: nat, s: int)
    requires x < Pow2(128) && (s == 0 || s == -1)
    ensures Xor(x, Bits(s)) == if s == 0 then x else Pow2(128) - 1 - x
  {
    hide Pow2;
    Halves();
    BitsOf(s);
    if s == 0 {
      assert Xor(x, 0) == x;
    } else {
      XorOnes(x, 128);
    }
  }

  /** (x ^ s) - s negates when s is -1; the most negative number stays itself. */
  lemma ConditionalNegate(x: int, s: int)
    requires IsInt128(x) && (s == 0 || s == -1)
    ensures Value(Bits(XorSigned(x, s) - s)) == if s == -1 && x != MinInt() then -x else x
    ensures Bits(Value(Bits(XorSigned(x, s) - s))) == Bits(if s == 0 then x else -x)
  {
    hide Pow2, Value, Bits, XorSigned;
    XorSignedValue(x, s);
    var y := if s == 0 then x else -x;
    assert XorSigned(x, s) - s == y;
    NegatedBits(y);
  }

  lemma NegatedBits(y: int)
    requires IsInt128(y) || y == Pow2(127)
    ensures Value(Bits(y)) == if y == Pow2(127) then MinInt() else y
    ensures Bits(Value(Bits(y))) == Bits(y)
  {
    hide Pow2, Value, Bits;
    Halves();
    BitsOf(y);
    BitsOf(MinInt());
  }

  lemma XorSignedValue(x: int, s: int)
    requires IsInt128(x) && (s == 0 || s == -1)
    ensures XorSigned(x, s) == if s == 0 then x else -x - 1
  {
    hide Pow2, Value, Bits, Xor;
    Halves();
    BitsOf(x);
    BitsBound(x);
    Complement(Bits(x), s);
    ComplementValue(x);
  }

  lemma BitsBound(x: int)
    ensures Bits(x) < Pow2(128)
  {
    DivModOf(x, Pow2(128));
  }

  lemma ComplementValue(x: int)
    requires IsInt128(x)
    ensures Value(Pow2(128) - 1 - Bits(x)) == -x - 1
  {
    hide Pow2, Bits;
    Halves();
    BitsOf(x);
  }

  // ------------------------------------------------------ truncating division

  /** The quotient of section 6.5.5 of ISO/IEC 9899:2011: truncated toward zero. */
  function Truncated(a: int, b: int): int
    requires b != 0
  {
    if (a < 0) == (b < 0) then Abs(a) / Abs(b) else -(Abs(a) / Abs(b))
  }

  ghost predicate IsTruncation(a: int, b: int, q: int) {
    var r := a - q * b;
    Abs(r) < Abs(b) && (r == 0 || (r < 0) == (a < 0))
  }

  /** A remainder smaller than the divisor and of the dividend's sign (or zero)
      characterises the truncated quotient. */
  lemma TruncatedMeaning(a: int, b: int, q: int)
    requires b != 0
    ensures q == Truncated(a, b) <==> IsTruncation(a, b, q)
    ensures a - Truncated(a, b) * b == if a < 0 then -(Abs(a) % Abs(b)) else Abs(a) % Abs(b)
  {
    var t, m, n := Truncated(a, b), Abs(a), Abs(b);
    DivModOf(m, n);
    DivNat(m, n);
    var k := m / n;
    assert t * b == if a < 0 then -(k * n) else k * n;
    var d := q - t;
    assert (a - q * b) == (a - t * b) - d * b by { MulAdd(t, d, b); }
    TruncationGap(d, b, a - t * b, a);
  }

  lemma TruncationGap(d: int, b: int, r: int, a: int)
    requires b != 0 && Abs(r) < Abs(b) && (r == 0 || (r < 0) == (a < 0))
    ensures Abs(r - d * b) < Abs(b) && (r - d * b == 0 || (r - d * b < 0) == (a < 0)) <==> d == 0
  {
    MulLe(1, d, Abs(b));
    MulLe(d, -1, Abs(b));
    assert d * b == if b < 0 then -(d * Abs(b)) else d * Abs(b);
  }

  /** __divti3. */
  method DivTI3(a: int, b: int) returns (q: int)
    requires IsInt128(a) && IsInt128(b) && b != 0
    ensures q == if a == MinInt() && b == -1 then MinInt() else Truncated(a, b)
  {
    hide Pow2, Xor, Value, Bits, XorSigned, Asr;
    SignMask(a);
    SignMask(b);
    var s_a := Asr(a, 127);
    var s_b := Asr(b, 127);
    ConditionalNegate(a, s_a);
    ConditionalNegate(b, s_b);
    AbsoluteBits(a);
    AbsoluteBits(b);
    QuotientSign(s_a, s_b);
    AbsQuotient(a, b);
    ApplySign(Abs(a) / Abs(b), XorSigned(s_a, s_b));
    var a' := Value(Bits(XorSigned(a, s_a) - s_a));
    var b' := Value(Bits(XorSigned(b, s_b) - s_b));
    s_a := XorSigned(s_a, s_b);
    var u, _ := UDivMod.UDivModTI4(Bits(a'), Bits(b'));
    q := Value(Bits(Xor(u, Bits(s_a)) - Bits(s_a)));
  }

  /** __modti3. */
  method ModTI3(a: int, b: int) returns (r: int)
    requires IsInt128(a) && IsInt128(b) && b != 0
    ensures r == a - Truncated(a, b) * b
  {
    hide Pow2, Xor, Value, Bits, XorSigned, Asr;
    var s := Asr(b, 127);
    SignMask(b);
    ConditionalNegate(b, s);
    var b' := Value(Bits(XorSigned(b, s) - s));
    s := Asr(a, 127);
    SignMask(a);
    ConditionalNegate(a, s);
    var a' := Value(Bits(XorSigned(a, s) - s));
    AbsoluteBits(a);
    AbsoluteBits(b);
    var _, u := UDivMod.UDivModTI4(Bits(a'), Bits(b'));
    TruncatedMeaning(a, b, 0);
    SmallRemainder(a, b);
    BitsOf(u);
    ConditionalNegate(Value(u), s);
    r := Value(Bits(XorSigned(Value(u), s) - s));
  }

  lemma QuotientSign(s: int, t: int)
    requires (s == 0 || s == -1) && (t == 0 || t == -1)
    ensures XorSigned(s, t) == if s == t then 0 else -1
  {
    hide Pow2;
    Halves();
    BitsOf(s);
    Complement(Bits(s), t);
  }

  /** The unsigned bits of the negated operand are its magnitude, for the most
      negative number too. */
  lemma AbsoluteBits(x: int)
    requires IsInt128(x)
    ensures Bits(if x < 0 then -x else x) == Abs(x) < Pow2(128)
    ensures x != 0 ==> Abs(x) > 0
  {
    hide Pow2;
    Halves();
    BitsOf(Abs(x));
  }

  /** (u ^ s) - s on unsigned words, read as signed. */
  lemma ApplySign(u: nat, s: int)
    requires u <= Pow2(127) && (s == 0 || s == -1)
    ensures Value(Bits(Xor(u, Bits(s)) - Bits(s))) == if s == -1 || u == Pow2(127) then 0 - u else u
  {
    hide Pow2, Value, Bits, Xor;
    Halves();
    BitsOf(s);
    Complement(u, s);
    var x: int := if s == -1 then 0 - u else u;
    assert Xor(u, Bits(s)) - Bits(s) == x;
    BitsOf(x);
  }

  /** The magnitude of a quotient reaches 2^127 only for the most negative number
      over plus or minus one. */
  lemma AbsQuotient(a: int, b: int)
    requires IsInt128(a) && b != 0
    ensures 0 <= Abs(a) / Abs(b) <= Pow2(127)
    ensures Abs(a) / Abs(b) == Pow2(127) <==> a == MinInt() && Abs(b) == 1
  {
    hide Pow2;
    Halves();
    QuotientAtMost(Abs(a), Abs(b));
  }

  lemma QuotientAtMost(m: nat, n: nat)
    requires n > 0
    ensures 0 <= m / n <= m
    ensures m > 0 ==> (m / n == m <==> n == 1)
  {
    var k := m / n;
    DivModOf(m, n);
    DivNat(m, n);
    MulLe(2, n, k);
    MulLe(1, n, k);
    if n == 1 { DivUnique(m, 1, m, 0); }
  }

  lemma SmallRemainder(a: int, b: int)
    requires IsInt128(a) && IsInt128(b) && b != 0
    ensures 0 <= Abs(a) % Abs(b) < Pow2(127)
  {
    hide Pow2;
  }

  /** __divti3 and __modti3 together: quotient and remainder reassemble the dividend. Only
      MIN / -1, whose quotient is not representable, leaves the identity behind. */
  method DivMod(a: int, b: int) returns (q: int, r: int)
    requires IsInt128(a) && IsInt128(b) && b != 0
    ensures IsInt128(q) && IsInt128(r)
    ensures Abs(r) < Abs(b) && (r == 0 || (r < 0) == (a < 0))
    ensures a == q * b + r <==> !(a == MinInt() && b == -1)
  {
    hide Pow2, Truncated;
    q := DivTI3(a, b);
    r := ModTI3(a, b);
    TruncatedMeaning(a, b, Truncated(a, b));
    TruncatedFits(a, b);
    Halves();
  }

  /** The truncated quotient is representable but for MIN / -1, and the remainder always. */
  lemma TruncatedFits(a: int, b: int)
    requires IsInt128(a) && IsInt128(b) && b != 0
    ensures a == MinInt() && b == -1 <==> !IsInt128(Truncated(a, b))
    ensures a == MinInt() && b == -1 ==> a - Truncated(a, b) * b == 0
    ensures IsInt128(a - Truncated(a, b) * b)
  {
    hide Pow2;
    Halves();
    AbsQuotient(a, b);
    TruncatedMeaning(a, b, Truncated(a, b));
    SmallRemainder(a, b);
  }

  // ------------------------------------------------------ overflow detection

  /** m * n exceeds a bound exactly when m exceeds the truncated bound / n. */
  lemma ProductExceeds(m: nat, n: nat, bound: nat)
    requires n > 0
    ensures m > bound / n <==> m * n > bound
  {
    var k := bound / n;
    DivModOf(bound, n);
    MulLe(m, k, n);
    MulLe(k + 1, m, n);
    MulAdd(k, 1, n);
  }

  lemma ProductOfMagnitudes(a: int, b: int)
    ensures a * b == if (a < 0) == (b < 0) then Abs(a) * Abs(b) else -(Abs(a) * Abs(b))
  {}

  /** Wrapping leaves the one signed 128-bit number congruent modulo 2^128. */
  lemma WrappedValue(x: int)
    ensures 0 - Pow2(127) <= Value(Bits(x)) < Pow2(127) && (Value(Bits(x)) - x) % Pow2(128) == 0
    ensures IsInt128(x) <==> 0 - Pow2(127) <= x < Pow2(127)
    ensures IsInt128(x) ==> Value(Bits(x)) == x
  {
    hide Pow2;
    Halves();
    DivModOf(x, Pow2(128));
    var k := x / Pow2(128) + if Bits(x) < Pow2(127) then 0 else 1;
    MulAdd(x / Pow2(128), 1, Pow2(128));
    assert Value(Bits(x)) - x == (-k) * Pow2(128);
    MulDiv(-k, Pow2(128));
    if IsInt128(x) { BitsOf(x); }
  }

  /** A MIN operand overflows unless the other is 0 or 1. */
  lemma MinOperand(a: int, b: int)
    requires a == MinInt() && IsInt128(b)
    ensures IsInt128(a * b) <==> b == 0 || b == 1
    ensures IsInt128(b * a) <==> b == 0 || b == 1
  {
    hide Pow2;
    Halves();
    ProductOfMagnitudes(a, b);
    SmallProduct(Abs(a), Abs(b), Pow2(127));
  }

  /** Operands 0, 1 and -1 cannot overflow against anything but MIN. */
  lemma TinyOperand(a: int, b: int)
    requires IsInt128(a) && IsInt128(b) && a != MinInt() && b != MinInt() && (Abs(a) < 2 || Abs(b) < 2)
    ensures IsInt128(a * b)
  {
    hide Pow2;
    Halves();
    ProductOfMagnitudes(a, b);
    SmallProduct(Abs(a), Abs(b), Pow2(127));
  }

  /** The two division tests, for operands of like and of unlike sign. */
  lemma DivisionTest(a: int, b: int)
    requires IsInt128(a) && IsInt128(b) && a != MinInt() && b != MinInt() && Abs(a) >= 2 && Abs(b) >= 2
    ensures (a < 0) == (b < 0) ==> (Abs(a) > Truncated(Pow2(127) - 1, Abs(b)) <==> !IsInt128(a * b))
    ensures (a < 0) != (b < 0) ==> (Abs(a) > Truncated(MinInt(), -Abs(b)) <==> !IsInt128(a * b))
  {
    hide Pow2, Truncated;
    Halves();
    ProductOfMagnitudes(a, b);
    BoundQuotient(Pow2(127) - 1, Abs(b));
    ProductExceeds(Abs(a), Abs(b), Pow2(127) - 1);
    BoundQuotient(MinInt(), -Abs(b));
    ProductExceeds(Abs(a), Abs(b), Pow2(127));
    MulPositive(Abs(a), Abs(b));
  }

  /** __muloti4. */
  method MulOTI4(a: int, b: int) returns (result: int, overflow: int)
    requires IsInt128(a) && IsInt128(b)
    ensures overflow == if 0 - Pow2(127) <= a * b < Pow2(127) then 0 else 1
    ensures 0 - Pow2(127) <= result < Pow2(127) && (result - a * b) % Pow2(128) == 0
    ensures overflow == 0 ==> result == a * b
  {
    hide Pow2, Xor, Value, Bits, Truncated, Asr, XorSigned, IsInt128, MinInt;
    var MIN := MinInt();
    var MAX := Pow2(127) - 1;
    overflow := 0;
    result := Value(Bits(a * b));
    WrappedValue(a * b);
    SignMask(a);
    SignMask(b);
    if a == MIN {
      MinOperand(a, b);
      if b != 0 && b != 1 { overflow := 1; }
      return;
    }
    if b == MIN {
      MinOperand(b, a);
      if a != 0 && a != 1 { overflow := 1; }
      return;
    }
    var sa := Asr(a, 127);
    ConditionalNegate(a, sa);
    var abs_a := Value(Bits(XorSigned(a, sa) - sa));
    var sb := Asr(b, 127);
    ConditionalNegate(b, sb);
    var abs_b := Value(Bits(XorSigned(b, sb) - sb));
    assert abs_a == Abs(a) && abs_b == Abs(b);
    if abs_a < 2 || abs_b < 2 {
      TinyOperand(a, b);
      return;
    }
    DivisionTest(a, b);
    if sa == sb {
      if abs_a > Truncated(MAX, abs_b) { overflow := 1; }
    } else {
      if abs_a > Truncated(MIN, -abs_b) { overflow := 1; }
    }
  }

  lemma BoundQuotient(x: int, y: int)
    requires (x < 0) == (y < 0) && y != 0
    ensures Truncated(x, y) == Abs(x) / Abs(y)
  {}

  /** Products with 0 or 1, and products of the largest magnitude with 2 or more. */
  lemma SmallProduct(m: nat, n: nat, p: nat)
    requires m <= p && n <= p && p > 1
    ensures m == 0 || n == 0 ==> m * n == 0
    ensures m == 1 ==> m * n == n
    ensures n == 1 ==> m * n == m
    ensures m == p && n >= 2 ==> m * n > p
    ensures n == p && m >= 2 ==> m * n > p
  {
    MulLe(2, n, m);
    MulLe(2, m, n);
  }
}
