/** Unsigned integer to binary32 conversion: src/compiler-rt/builtins/floatundisf.c,
    floatuntisf.c (a rounding window of three bits) and floatunsisf.c (comparison of
    the shifted-out remainder). */
module IntToFloat {
  import opened Words
  import opened Float32

  const MANT_DIG: nat := 24

  // ------------------------------------------------------ specification

  /** The leading 24 bits of a number with more than 24. */
  function Lead(a: nat): nat
    requires BitLen(a) > MANT_DIG
  {
    Shr(a, BitLen(a) - MANT_DIG)
  }

  /** The bits below them. */
  function Rest(a: nat): nat
    requires BitLen(a) > MANT_DIG
  {
    Wrap(a, BitLen(a) - MANT_DIG)
  }

  /** Round up above half, and at half when the leading part is odd. */
  predicate RoundUp(a: nat)
    requires BitLen(a) > MANT_DIG
  {
    var half := Pow2(BitLen(a) - MANT_DIG - 1);
    Rest(a) > half || (Rest(a) == half && Lead(a) % 2 == 1)
  }

  lemma LeadRange(a: nat)
    requires BitLen(a) > MANT_DIG
    ensures IMPLICIT_BIT <= Lead(a) < 2 * IMPLICIT_BIT
    ensures Rest(a) < Pow2(BitLen(a) - MANT_DIG)
    ensures a == Lead(a) * Pow2(BitLen(a) - MANT_DIG) + Rest(a)
  {
    var k := BitLen(a) - MANT_DIG;
    Pow2Values();
    Pow2Add(23, k);
    Pow2Add(24, k);
    DivBounds(a, Pow2(k), IMPLICIT_BIT, 2 * IMPLICIT_BIT);
    DivModOf(a, Pow2(k));
  }

  /** The significand, shifted up when the number is short. */
  function Significand(a: nat): (q: nat)
    requires a > 0
    ensures IMPLICIT_BIT <= q < 2 * IMPLICIT_BIT
  {
    if BitLen(a) > MANT_DIG then
      LeadRange(a);
      Lead(a)
    else
      Pow2Values();
      ShiftToTop(a, MANT_DIG);
      a * Pow2(MANT_DIG - BitLen(a))
  }

  /** The binary32 representation the conversions return. */
  function ToFloat(a: nat): nat {
    if a == 0 then 0
    else Pack(BitLen(a) - 1 + EXPONENT_BIAS, Significand(a)) + if BitLen(a) > MANT_DIG && RoundUp(a) then 1 else 0
  }

  /** It is a, rounded to nearest with ties to even. */
  lemma ToFloatRounds(a: nat)
    requires BitLen(a) <= 128
    ensures RoundsTo(a * Pow2(149), 1, ToFloat(a))
  {
    if a == 0 {
      RoundsToZero(0, 1);
    } else if BitLen(a) > MANT_DIG {
      LongRounds(a);
    } else {
      ShortRounds(a);
    }
  }

  lemma LongRounds(a: nat)
    requires MANT_DIG < BitLen(a) <= 128
    ensures RoundsTo(a * Pow2(149), 1, ToFloat(a))
  {
    hide RoundsTo, Pow2, Lead, Rest, BitLen, Mag;
    LongParts(a);
    LeadBounds(a);
    RoundLead(a, Lead(a), Rest(a), Pow2(BitLen(a) - MANT_DIG - 1), Pow2(149), BitLen(a) - 1 + EXPONENT_BIAS,
        RoundUp(a));
  }

  lemma LongParts(a: nat)
    requires BitLen(a) > MANT_DIG
    ensures var k := BitLen(a) - MANT_DIG; var half := Pow2(k - 1);
      && a == Lead(a) * (2 * half) + Rest(a) && Rest(a) < 2 * half
      && Pow2(BitLen(a) - 1 + EXPONENT_BIAS - 1) == 2 * half * Pow2(149)
  {
    hide Lead, Rest, BitLen;
    var k := BitLen(a) - MANT_DIG;
    LeadRange(a);
    assert Pow2(k) == 2 * Pow2(k - 1);
    UnitScale(k);
  }

  lemma UnitScale(k: nat)
    requires k > 0
    ensures Pow2(k + 149) == 2 * Pow2(k - 1) * Pow2(149)
  {
    Pow2Add(k, 149);
    assert Pow2(k) == 2 * Pow2(k - 1);
    hide Pow2;
  }

  lemma RoundLead(a: nat, q: nat, rest: nat, half: nat, u: nat, e: nat, up: bool)
    requires IMPLICIT_BIT <= q < 2 * IMPLICIT_BIT && 1 <= e <= 254 && u > 0
    requires a == q * (2 * half) + rest && rest < 2 * half && Pow2(e - 1) == 2 * half * u
    requires up <==> rest > half || (rest == half && q % 2 == 1)
    ensures RoundsTo(a * u, 1, Pack(e, q) + if up then 1 else 0)
  {
    hide RoundsTo, Mag, Pow2;
    PackGaps(1, e, q);
    var g := half * u;
    MulAdd(q * (2 * half), rest, u);
    MulAssoc(q, 2 * half, u);
    MulAssoc(2, half, u);
    CompareScale(rest, half, u);
    CompareScale(rest, 2 * half, u);
    RoundNear(a * u, 1, Pack(e, q), q * (2 * g), 2 * g, up);
  }

  lemma ShortRounds(a: nat)
    requires 0 < a && BitLen(a) <= MANT_DIG
    ensures RoundsTo(a * Pow2(149), 1, ToFloat(a))
    ensures Mag(ToFloat(a)) == a * Pow2(149)
  {
    hide RoundsTo, Mag, Pow2;
    var n, q := BitLen(a), Significand(a);
    Pow2Add(MANT_DIG - n, n + 125);
    RoundExact(a, q, Pow2(MANT_DIG - n), Pow2(149), n - 1 + EXPONENT_BIAS);
  }

  lemma RoundExact(a: nat, q: nat, scale: nat, u: nat, e: nat)
    requires IMPLICIT_BIT <= q < 2 * IMPLICIT_BIT && 1 <= e <= 254
    requires q == a * scale && u == scale * Pow2(e - 1)
    ensures RoundsTo(a * u, 1, Pack(e, q)) && Mag(Pack(e, q)) == a * u
  {
    hide RoundsTo, Mag, Pow2;
    PackGaps(1, e, q);
    MulAssoc(a, scale, Pow2(e - 1));
    RoundNear(a * u, 1, Pack(e, q), q * Pow2(e - 1), Pow2(e - 1), false);
  }

  // ------------------------------------------------------ the rounding window P, Q, R

  /** x holds the leading 24 bits, the first bit below them and a sticky bit. */
  ghost predicate IsWindow(a: nat, x: nat)
    requires BitLen(a) > MANT_DIG
  {
    var half := Pow2(BitLen(a) - MANT_DIG - 1);
    && x / 4 == Lead(a)
    && (x % 4 > 2 <==> Rest(a) > half)
    && (x % 4 == 2 <==> Rest(a) == half)
  }

  /** One bit too many: a <<= 1. */
  lemma WindowDoubled(a: nat, width: nat)
    requires BitLen(a) == MANT_DIG + 1 && width >= 64
    ensures IsWindow(a, Shl(a, 1, width))
  {
    assert Pow2(0) == 1 && Pow2(1) == 2;
    Pow2Values();
    Pow2Mono(64, width);
    hide Pow2;
    ShlSmall(a, 1, width);
    DivByTwo(a, Pow2(1));
  }

  lemma DivByTwo(a: int, d: int)
    requires d == 2
    ensures a / d == a / 2 && a % d == a % 2
  {}

  lemma ShlSmall(a: nat, k: nat, width: nat)
    requires a * Pow2(k) < Pow2(width)
    ensures Shl(a, k, width) == a * Pow2(k)
  {
    DivUnique(a * Pow2(k), Pow2(width), 0, a * Pow2(k));
  }

  lemma WindowExact(a: nat)
    requires BitLen(a) == MANT_DIG + 2
    ensures IsWindow(a, a)
  {
    assert Pow2(0) == 1 && Pow2(1) == 2 && Pow2(2) == 4;
  }

  /** The mask (du_int)(-1) >> (width - j) has j ones. */
  lemma LowMask(width: nat, j: nat)
    requires j <= width
    ensures Shr(Pow2(width) - 1, width - j) == Pow2(j) - 1
  {
    hide Pow2, Shr;
    var k := width - j;
    Pow2Add(j, k);
    ShrLast(Pow2(width) - 1, Pow2(j), k);
  }

  lemma ShrLast(x: nat, a: nat, k: nat)
    requires a > 0 && x == a * Pow2(k) - 1
    ensures Shr(x, k) == a - 1
  {
    hide Pow2;
    MulAdd(a, -1, Pow2(k));
    DivUnique(x, Pow2(k), a - 1, Pow2(k) - 1);
  }

  /** The two bits below the leading part, with a sticky bit for the others. */
  lemma WindowSticky(a: nat, j: nat)
    requires BitLen(a) == j + MANT_DIG + 2
    ensures IsWindow(a, Or(Shr(a, j), if Wrap(a, j) != 0 then 1 else 0))
  {
    var p := Pow2(j);
    var half, unit := Pow2(j + 1), Pow2(j + 2);
    assert half == 2 * p && unit == 4 * p;
    assert Lead(a) == a / unit && Rest(a) == a % unit;
    hide Pow2, Or, Lead, Rest, BitLen;
    OrLowBit(Shr(a, j), Wrap(a, j) != 0);
    WindowArithmetic(a, p);
  }

  lemma WindowArithmetic(a: nat, p: nat)
    requires p > 0
    ensures var x := a / p; var y := if a % p != 0 && x % 2 == 0 then x + 1 else x;
      && y / 4 == a / (4 * p)
      && (y % 4 > 2 <==> a % (4 * p) > 2 * p)
      && (y % 4 == 2 <==> a % (4 * p) == 2 * p)
  {
    DivDiv(a, p, 4);
    DivModOf(a, p);
    assert p * 4 == 4 * p;
    CompareHalf(a / p % 4, a % p, p);
  }

  lemma CompareHalf(t: nat, r: nat, p: nat)
    requires t < 4 && r < p
    ensures t * p + r > 2 * p <==> t == 3 || (t == 2 && r > 0)
    ensures t * p + r == 2 * p <==> t == 2 && r == 0
  {
    if t == 0 {} else if t == 1 {} else if t == 2 {} else { assert t == 3; }
  }

  /** Or-ing P into R, adding one and dropping two bits rounds the window. */
  lemma RoundWindow(x: nat)
    ensures And(x, 4) == if x / 4 % 2 == 1 then 4 else 0
    ensures (Or(x, if And(x, 4) != 0 then 1 else 0) + 1) / 4
         == x / 4 + if x % 4 > 2 || (x % 4 == 2 && x / 4 % 2 == 1) then 1 else 0
  {
    assert Pow2(2) == 2 * Pow2(1) == 4;
    AndBit(x, 2);
    OrLowBit(x, And(x, 4) != 0);
  }

  /** Inserting a rounded significand under the exponent; a carry out of the 24
      bits has already moved into the exponent. */
  lemma Insert(e: nat, q: nat)
    requires 1 <= e && e < 256 && IMPLICIT_BIT <= q < 2 * IMPLICIT_BIT
    ensures Or(Shl(e, 23, 32), And(q, 0x7f_ffff)) == Pack(e, q)
  {
    Pow2Values();
    AndMask(q, 23);
    DivUnique(q, 0x80_0000, 1, q - IMPLICIT_BIT);
    DivUnique(e * 0x80_0000, 0x1_0000_0000, 0, e * 0x80_0000);
    assert Shl(e, 23, 32) == e * 0x80_0000;
    OrShift(e, q - IMPLICIT_BIT, 23);
  }

  /** The switch on the number of significant digits (lines 43-53 of floatundisf.c). */
  method Window(width: nat, a: nat, sd: nat) returns (x: nat)
    requires width >= 64 && sd == BitLen(a) && MANT_DIG < sd <= width
    ensures IsWindow(a, x)
  {
    hide Pow2, And, Or, Shl, Shr, IsWindow, BitLen;
    x := a;
    if sd == MANT_DIG + 1 {
      WindowDoubled(a, width);
      x := Shl(x, 1, width);
    } else if sd == MANT_DIG + 2 {
      WindowExact(a);
    } else {
      WindowSticky(a, sd - (MANT_DIG + 2));
      LowMask(width, sd - (MANT_DIG + 2));
      AndMask(a, sd - (MANT_DIG + 2));
      x := Or(Shr(x, sd - (MANT_DIG + 2)),
              if And(x, Shr(Pow2(width) - 1, width + (MANT_DIG + 2) - sd)) != 0 then 1 else 0);
    }
  }

  /** __floatundisf (width 64) and __floatuntisf (width 128). */
  method FloatUnsigned(width: nat, a0: nat) returns (bits: nat)
    requires (width == 64 || width == 128) && a0 < Pow2(width)
    ensures bits == ToFloat(a0)
  {
    hide Pow2, And, Or, Shl, Shr, IsWindow, Lead, Rest, RoundUp, BitLen, Significand, ToFloat;
    assert ToFloat(0) == 0 by { ZeroFloat(); }
    if a0 > 0 { ClzLength(a0, width); }
    hide Clz;
    var a := a0;
    if a == 0 { return 0; }
    var sd := width - Clz(a, width);
    var e := sd - 1;
    if sd > MANT_DIG {
      a := Window(width, a, sd);
      WindowRounded(a0, a);
      a := Or(a, if And(a, 4) != 0 then 1 else 0);
      a := a + 1;
      a := Shr(a, 2);
      if And(a, Pow2(MANT_DIG)) != 0 {
        a := Shr(a, 1);
        e := e + 1;
      }
    } else {
      ShortSignificand(a, width);
      a := Shl(a, MANT_DIG - sd, width);
    }
    Insert(e + EXPONENT_BIAS, a);
    LowWordOf(a);
    bits := Or(Shl(e + EXPONENT_BIAS, 23, 32), And(Wrap(a, 32), 0x7f_ffff));
  }

  lemma ZeroFloat()
    ensures ToFloat(0) == 0
  {}

  lemma ClzLength(a: nat, width: nat)
    requires 0 < a < Pow2(width)
    ensures width - Clz(a, width) == BitLen(a) && 0 < BitLen(a) <= width
  {
    BitLenBound(a, width);
  }

  lemma LowWordOf(a: nat)
    requires a < 2 * IMPLICIT_BIT
    ensures Wrap(a, 32) == a
  {
    Pow2Values();
    DivUnique(a, Pow2(32), 0, a);
  }

  lemma ShortSignificand(a: nat, width: nat)
    requires 0 < a && BitLen(a) <= MANT_DIG && width >= 64
    ensures Shl(a, MANT_DIG - BitLen(a), width) == Significand(a)
    ensures IMPLICIT_BIT <= Significand(a) < 2 * IMPLICIT_BIT
    ensures ToFloat(a) == Pack(BitLen(a) - 1 + EXPONENT_BIAS, Significand(a))
  {
    Pow2Values();
    Pow2Mono(64, width);
    ShiftToTop(a, MANT_DIG);
    DivUnique(Significand(a), Pow2(width), 0, Significand(a));
  }

  /** What is left of the window is the significand, rounded; the carry case gives
      the same representation with the exponent raised. */
  lemma WindowRounded(a: nat, x: nat)
    requires BitLen(a) > MANT_DIG && IsWindow(a, x)
    ensures var y := Shr(Or(x, if And(x, 4) != 0 then 1 else 0) + 1, 2);
      var e := BitLen(a) - 1 + EXPONENT_BIAS;
      && IMPLICIT_BIT <= y <= 2 * IMPLICIT_BIT
      && (And(y, Pow2(MANT_DIG)) != 0 <==> y == 2 * IMPLICIT_BIT)
      && (y < 2 * IMPLICIT_BIT ==> ToFloat(a) == Pack(e, y))
      && (y == 2 * IMPLICIT_BIT ==> ToFloat(a) == Pack(e + 1, Shr(y, 1)) && Shr(y, 1) == IMPLICIT_BIT)
  {
    hide And, Or, Shr, Pow2, Lead, Rest, BitLen;
    LeadBounds(a);
    RoundWindow(x);
    ShrByFour(Or(x, if And(x, 4) != 0 then 1 else 0) + 1);
    CarryTest(Lead(a) + if RoundUp(a) then 1 else 0);
  }

  lemma LeadBounds(a: nat)
    requires BitLen(a) > MANT_DIG
    ensures IMPLICIT_BIT <= Lead(a) < 2 * IMPLICIT_BIT
    ensures ToFloat(a) == Pack(BitLen(a) - 1 + EXPONENT_BIAS, Lead(a)) + if RoundUp(a) then 1 else 0
  {
    LeadRange(a);
  }

  lemma ShrByFour(x: nat)
    ensures Shr(x, 2) == x / 4
  {
    SmallPowers();
    Pow2Values();
    Quarter(x, Pow2(2));
  }

  lemma CarryTest(y: nat)
    requires y <= 0x100_0000
    ensures And(y, Pow2(24)) != 0 <==> y == 0x100_0000
    ensures y == 0x100_0000 ==> Shr(y, 1) == IMPLICIT_BIT
  {
    hide And, Pow2;
    SmallPowers();
    Pow2Values();
    AndBit(y, 24);
    DivByTwo(y, Pow2(1));
    CarryBit(y, Pow2(24));
  }

  lemma Quarter(x: int, d: int)
    requires d == 4
    ensures x / d == x / 4
  {}

  lemma CarryBit(y: nat, p: nat)
    requires p == 0x100_0000 && y <= p
    ensures y / p % 2 == 1 <==> y == p
  {}

  method FloatUnDISF(a: nat) returns (bits: nat)
    requires a < Pow2(64)
    ensures bits == ToFloat(a)
  {
    bits := FloatUnsigned(64, a);
  }

  method FloatUnTISF(a: nat) returns (bits: nat)
    requires a < Pow2(128)
    ensures bits == ToFloat(a)
  {
    bits := FloatUnsigned(128, a);
  }

  // ------------------------------------------------------ the shifted-out remainder

  /** __floatunsisf. */
  method FloatUnSISF(a: nat) returns (bits: nat)
    requires a < Pow2(32)
    ensures bits == ToFloat(a)
  {
    hide Pow2, Xor, And, Shl, Shr, Lead, Rest, RoundUp, BitLen, Significand, ToFloat;
    assert ToFloat(0) == 0 by { ZeroFloat(); }
    if a == 0 { return 0; }
    ClzLength(a, 32);
    hide Clz;
    var exponent := 31 - Clz(a, 32);
    var result: nat;
    if exponent <= 23 {
      var shift := 23 - exponent;
      ShortField(a);
      result := Xor(Shl(a, shift, 32), IMPLICIT_BIT);
    } else {
      var shift := exponent - 23;
      LongField(a);
      result := Xor(Shr(a, shift), IMPLICIT_BIT);
      var round := Shl(a, 32 - shift, 32);
      if round > SIGN_BIT { result := result + 1; }
      if round == SIGN_BIT { result := result + And(result, 1); }
    }
    ExponentField(exponent + EXPONENT_BIAS);
    bits := result + Shl(exponent + EXPONENT_BIAS, 23, 32);
  }

  lemma ExponentField(e: nat)
    requires e < 256
    ensures Shl(e, 23, 32) == e * IMPLICIT_BIT
  {
    Pow2Values();
    DivUnique(e * 0x80_0000, 0x1_0000_0000, 0, e * 0x80_0000);
  }

  lemma DropImplicit(q: nat)
    requires IMPLICIT_BIT <= q < 2 * IMPLICIT_BIT
    ensures Xor(q, IMPLICIT_BIT) == q - IMPLICIT_BIT
  {
    Pow2Values();
    XorFlip(q, 23);
  }

  lemma ShortField(a: nat)
    requires 0 < a && BitLen(a) <= MANT_DIG
    ensures Xor(Shl(a, MANT_DIG - BitLen(a), 32), IMPLICIT_BIT) == Significand(a) - IMPLICIT_BIT
    ensures ToFloat(a) == (BitLen(a) - 1 + EXPONENT_BIAS) * IMPLICIT_BIT + (Significand(a) - IMPLICIT_BIT)
  {
    Pow2Values();
    ShiftToTop(a, MANT_DIG);
    ShlSmall(a, MANT_DIG - BitLen(a), 32);
    DropImplicit(Significand(a));
  }

  /** The shifted-out bits, moved to the top of a word, compare with the sign bit as
      they compare with half a unit. */
  lemma LongField(a: nat)
    requires MANT_DIG < BitLen(a) <= 32
    ensures var k := BitLen(a) - MANT_DIG; var q := Xor(Shr(a, k), IMPLICIT_BIT); var round := Shl(a, 32 - k, 32);
      && q == Lead(a) - IMPLICIT_BIT && And(q, 1) == Lead(a) % 2
      && ToFloat(a) == (BitLen(a) - 1 + EXPONENT_BIAS) * IMPLICIT_BIT + q
           + if round > SIGN_BIT || (round == SIGN_BIT && And(q, 1) == 1) then 1 else 0
  {
    hide Xor, And, Shl, Shr, Pow2, Lead, Rest, BitLen, ToFloat, Significand;
    LeadBounds(a);
    DropImplicit(Lead(a));
    LowBit(Lead(a) - IMPLICIT_BIT);
    CompareRemainder(a);
    LeadIsShift(a);
  }

  lemma LeadIsShift(a: nat)
    requires BitLen(a) > MANT_DIG
    ensures Shr(a, BitLen(a) - MANT_DIG) == Lead(a)
  {}

  lemma LowBit(x: nat)
    ensures And(x, 1) == x % 2
  {
    SmallPowers();
    Pow2Values();
    AndMask(x, 1);
  }

  lemma CompareRemainder(a: nat)
    requires MANT_DIG < BitLen(a) <= 32
    ensures var k := BitLen(a) - MANT_DIG; var round := Shl(a, 32 - k, 32); var half := Pow2(k - 1);
      (round > SIGN_BIT <==> Rest(a) > half) && (round == SIGN_BIT <==> Rest(a) == half)
  {
    hide Pow2, Shl, BitLen;
    var k := BitLen(a) - MANT_DIG;
    Pow2Mono(BitLen(a), 32);
    KeptBits(32, a, k);
    Pow2Add(k - 1, 32 - k);
    Pow2Values();
    assert k - 1 + (32 - k) == 31;
    CompareScale(Rest(a), Pow2(k - 1), Pow2(32 - k));
    CompareScale(Pow2(k - 1), Rest(a), Pow2(32 - k));
  }

  // ------------------------------------------------------ consequences

  /** Conversion preserves order. */
  lemma ToFloatMonotone(a: nat, b: nat)
    requires a <= b && BitLen(b) <= 128
    ensures ToFloat(a) <= ToFloat(b)
  {
    hide ToFloat, RoundsTo, Mag, Pow2, BitLen;
    BitLenMono(a, b);
    ToFloatRounds(a);
    ToFloatRounds(b);
    var u := Pow2(149);
    MulLe(a, b, u);
    RoundsToMonotone(a * u, b * u, 1, ToFloat(a), ToFloat(b));
  }

  lemma {:induction false} BitLenMono(a: nat, b: nat)
    requires a <= b
    ensures BitLen(a) <= BitLen(b)
  {
    if a > 0 { BitLenMono(a / 2, b / 2); }
  }

  /** A 128-bit number converts to infinity exactly from 2^128 - 2^103 upward. */
  lemma ToFloatInfinity(a: nat)
    requires BitLen(a) <= 128
    ensures ToFloat(a) == INF_REP <==> a >= Pow2(128) - Pow2(103)
  {
    hide ToFloat, RoundsTo, Mag, Pow2, BitLen;
    ToFloatRounds(a);
    RoundsToInfinity(a * Pow2(149), 1);
    InfinityUnits();
    OverflowThreshold(a, Pow2(103), Pow2(149), Pow2(253));
    if a >= 0x1ff_ffff * Pow2(103) {
      RoundsToUnique(a * Pow2(149), 1, ToFloat(a), INF_REP);
    }
  }

  lemma InfinityUnits()
    ensures Pow2(128) - Pow2(103) == 0x1ff_ffff * Pow2(103)
    ensures Pow2(253) == 2 * (Pow2(103) * Pow2(149))
  {
    hide Pow2;
    SmallPowers();
    Pow2Values();
    Pow2Add(25, 103);
    Pow2Add(1, 252);
    Pow2Add(103, 149);
  }

  lemma OverflowThreshold(a: nat, p: nat, u: nat, top: nat)
    requires u > 0 && top == 2 * (p * u)
    ensures a >= 0x1ff_ffff * p <==> 2 * (a * u) >= 0x1ff_ffff * top * 1
  {
    MulAssoc(0x1ff_ffff, p, u);
    CompareScale(a, 0x1ff_ffff * p, u);
  }

  /** Numbers of at most 24 bits convert exactly. */
  lemma ToFloatExact(a: nat)
    requires a < Pow2(24)
    ensures Mag(ToFloat(a)) == a * Pow2(149)
  {
    hide Pow2, Mag;
    if a > 0 {
      BitLenBound(a, 24);
      ShortRounds(a);
    } else {
      assert Mag(0) == 0 by { MagZero(); }
    }
  }

  lemma MagZero()
    ensures Mag(0) == 0
  {}

  /** Ties go to even: a number halfway between two neighbours of 24 bits takes the one
      with an even significand. */
  lemma HalfwayGoesToEven(k: nat)
    requires 0x80_0000 <= k < 0x100_0000
    ensures Mag(ToFloat(2 * k + 1)) == (if k % 2 == 0 then 2 * k else 2 * k + 2) * Pow2(149)
  {
    hide Pow2, Mag, ToFloat;
    Pow2Values();
    BitLenUnique(2 * k + 1, 25);
    HalfwayBits(k);
    PackMag(151, k);
    MagStep(Pack(151, k));
    Doubled(150);
    MulAssoc(k, 2, Pow2(149));
    MulAssoc(k + 1, 2, Pow2(149));
    MulAdd(k, 1, Pow2(150));
  }

  lemma HalfwayBits(k: nat)
    requires 0x80_0000 <= k < 0x100_0000 && BitLen(2 * k + 1) == 25
    ensures ToFloat(2 * k + 1) == Pack(151, k) + if k % 2 == 1 then 1 else 0
  {
    hide BitLen, Pow2;
    SmallPowers();
  }
}
