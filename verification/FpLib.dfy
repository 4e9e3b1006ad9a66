/** Helpers of src/compiler-rt/builtins/fp_lib.h. */
module FpLib {
  import opened Words
  import opened Float32
  import opened DoubleWords

  /** Shifts a subnormal significand up to the implicit bit and returns the
      exponent adjustment, 1 - shift. */
  method Normalize(significand: nat) returns (normalized: nat, scale: int)
    requires 0 < significand < IMPLICIT_BIT
    ensures scale <= 0 && normalized == significand * Pow2(1 - scale)
    ensures IMPLICIT_BIT <= normalized < 2 * IMPLICIT_BIT
  {
    NormalizeShift(significand);
    var shift := Clz(significand, 32) - Clz(IMPLICIT_BIT, 32);
    normalized := Shl(significand, shift, 32);
    scale := 1 - shift;
  }

  lemma NormalizeShift(s: nat)
    requires 0 < s < IMPLICIT_BIT
    ensures s < Pow2(32) && IMPLICIT_BIT < Pow2(32)
    ensures var shift := Clz(s, 32) - Clz(IMPLICIT_BIT, 32);
      && shift >= 1 && Shl(s, shift, 32) == s * Pow2(shift)
      && IMPLICIT_BIT <= s * Pow2(shift) < 2 * IMPLICIT_BIT
  {
    Pow2Values();
    BitLenUnique(IMPLICIT_BIT, 24);
    BitLenBound(s, 23);
    ShiftToTop(s, 24);
    var shift := 24 - BitLen(s);
    DivUnique(s * Pow2(shift), Pow2(32), 0, s * Pow2(shift));
  }

  // ------------------------------------------------------ 64 x 64 -> 128 multiply

  function LoWord(a: nat): nat { a % TWO32 }
  function HiWord(a: nat): nat { a / TWO32 }

  lemma WordProduct(a: nat, b: nat)
    requires a < TWO32 && b < TWO32
    ensures 0 <= a * b <= 0xffff_fffe_0000_0001
  {
    MulLe(a, 0xffff_ffff, b);
    MulLe(0, a, b);
  }

  /** Schoolbook expansion of a two-word product. */
  lemma ProductOfHalves(ah: int, al: int, bh: int, bl: int)
    ensures (ah * 0x1_0000_0000 + al) * (bh * 0x1_0000_0000 + bl)
         == (ah * bh) * 0x1_0000_0000_0000_0000 + (ah * bl + al * bh) * 0x1_0000_0000 + al * bl
  {
    var b := bh * 0x1_0000_0000 + bl;
    MulAdd(ah * 0x1_0000_0000, al, b);
    MulSwap(ah, 0x1_0000_0000, b);
    assert ah * b == (ah * bh) * 0x1_0000_0000 + ah * bl;
    assert al * b == (al * bh) * 0x1_0000_0000 + al * bl;
  }

  lemma Halves(a: nat, b: nat)
    requires a < TWO64 && b < TWO64
    ensures HiWord(a) < TWO32 && LoWord(a) < TWO32 && HiWord(b) < TWO32 && LoWord(b) < TWO32
    ensures a * b == (HiWord(a) * HiWord(b)) * TWO64 + (HiWord(a) * LoWord(b) + LoWord(a) * HiWord(b)) * TWO32
                     + LoWord(a) * LoWord(b)
  {
    ProductOfHalves(HiWord(a), LoWord(a), HiWord(b), LoWord(b));
  }

  /** wideMultiply for double precision: always the exact product. */
  method WideMultiply64(a: nat, b: nat) returns (hi: nat, lo: nat)
    requires a < TWO64 && b < TWO64
    ensures hi < TWO64 && lo < TWO64
    ensures hi * TWO64 + lo == a * b
  {
    Halves(a, b);
    hide HiWord, LoWord;
    WordProduct(LoWord(a), LoWord(b));
    WordProduct(LoWord(a), HiWord(b));
    WordProduct(HiWord(a), LoWord(b));
    WordProduct(HiWord(a), HiWord(b));
    var plolo := LoWord(a) * LoWord(b);
    var plohi := LoWord(a) * HiWord(b);
    var philo := HiWord(a) * LoWord(b);
    var phihi := HiWord(a) * HiWord(b);
    hi, lo := AddHalves(plolo, plohi, philo, phihi);
  }

  /** The additions of lines 93-97 of fp_lib.h. */
  method AddHalves(plolo: nat, plohi: nat, philo: nat, phihi: nat) returns (hi: nat, lo: nat)
    requires plolo <= 0xffff_fffe_0000_0001 && plohi <= 0xffff_fffe_0000_0001
    requires philo <= 0xffff_fffe_0000_0001 && phihi <= 0xffff_fffe_0000_0001
    ensures hi < TWO64 && lo < TWO64
    ensures hi * TWO64 + lo == phihi * TWO64 + (philo + plohi) * TWO32 + plolo
  {
    var r0 := LoWord(plolo);
    var r1 := HiWord(plolo) + LoWord(plohi) + LoWord(philo);
    lo := (r0 + r1 * TWO32 % TWO64) % TWO64;
    hi := (HiWord(plohi) + HiWord(philo) + HiWord(r1) + phihi) % TWO64;
    ColumnsOf64(plolo, plohi, philo, phihi);
  }

  /** Summing the four partial products by columns loses nothing. */
  lemma ColumnsOf64(ll: nat, lh: nat, hl: nat, hh: nat)
    requires ll <= 0xffff_fffe_0000_0001 && lh <= 0xffff_fffe_0000_0001
    requires hl <= 0xffff_fffe_0000_0001 && hh <= 0xffff_fffe_0000_0001
    ensures var r0, r1 := LoWord(ll), HiWord(ll) + LoWord(lh) + LoWord(hl);
      var lo := (r0 + r1 * TWO32 % TWO64) % TWO64;
      var hi := (HiWord(lh) + HiWord(hl) + HiWord(r1) + hh) % TWO64;
      hi * TWO64 + lo == hh * TWO64 + (hl + lh) * TWO32 + ll
  {
    var r1 := HiWord(ll) + LoWord(lh) + LoWord(hl);
    LowHalf(LoWord(ll), r1);
    HighHalf(lh, hl, hh, r1);
  }

  lemma LowHalf(r0: nat, r1: nat)
    requires r0 < 0x1_0000_0000
    ensures (r0 + r1 * 0x1_0000_0000 % 0x1_0000_0000_0000_0000) % 0x1_0000_0000_0000_0000
         == r0 + (r1 % 0x1_0000_0000) * 0x1_0000_0000
  {
    var h, l := r1 / 0x1_0000_0000, r1 % 0x1_0000_0000;
    DivUnique(r1 * 0x1_0000_0000, 0x1_0000_0000_0000_0000, h, l * 0x1_0000_0000);
  }

  lemma HighHalf(lh: nat, hl: nat, hh: nat, r1: nat)
    requires lh <= 0xffff_fffe_0000_0001 && hl <= 0xffff_fffe_0000_0001 && hh <= 0xffff_fffe_0000_0001
    requires r1 < 3 * 0x1_0000_0000
    ensures (HiWord(lh) + HiWord(hl) + HiWord(r1) + hh) % TWO64 == HiWord(lh) + HiWord(hl) + HiWord(r1) + hh
  {
    DivUnique(HiWord(lh) + HiWord(hl) + HiWord(r1) + hh, TWO64, 0, HiWord(lh) + HiWord(hl) + HiWord(r1) + hh);
  }

  // ------------------------------------------------------ 128 x 128 -> 256 multiply

  /** Word_1 .. Word_4: the 32-bit words of a, most significant first. */
  function Word1(a: nat): nat { a / TWO96 % TWO32 }
  function Word2(a: nat): nat { a / TWO64 % TWO32 }
  function Word3(a: nat): nat { a / TWO32 % TWO32 }
  function Word4(a: nat): nat { a % TWO32 }

  /** The columns of the schoolbook product, sum0 the least significant. */
  function Sum0(a: nat, b: nat): nat { Word4(a) * Word4(b) }
  function Sum1(a: nat, b: nat): nat { Word3(a) * Word4(b) + Word4(a) * Word3(b) }
  function Sum2(a: nat, b: nat): nat { Word2(a) * Word4(b) + Word3(a) * Word3(b) + Word4(a) * Word2(b) }
  function Sum3(a: nat, b: nat): nat {
    Word1(a) * Word4(b) + Word2(a) * Word3(b) + Word3(a) * Word2(b) + Word4(a) * Word1(b)
  }
  function Sum4(a: nat, b: nat): nat { Word1(a) * Word3(b) + Word2(a) * Word2(b) + Word3(a) * Word1(b) }
  function Sum5(a: nat, b: nat): nat { Word1(a) * Word2(b) + Word2(a) * Word1(b) }
  function Sum6(a: nat, b: nat): nat { Word1(a) * Word1(b) }

  function R0(sum0: nat, sum1: nat): nat { sum0 % TWO64 + (sum1 % TWO32) * TWO32 }
  function R1(sum0: nat, sum1: nat, sum2: nat, sum3: nat): nat {
    sum0 / TWO64 + sum1 / TWO32 % TWO64 + sum2 % TWO64 + (sum3 % TWO32) * TWO32
  }

  /** The sum r0 + (r1 << 64) does not fit the low half, and its carry is dropped. */
  predicate CarryDropped(a: nat, b: nat) {
    R0(Sum0(a, b), Sum1(a, b)) + (R1(Sum0(a, b), Sum1(a, b), Sum2(a, b), Sum3(a, b)) % TWO64) * TWO64 >= TWO128
  }

  lemma WordsOf(a: nat)
    requires a < TWO128
    ensures a == Word1(a) * TWO96 + Word2(a) * TWO64 + Word3(a) * TWO32 + Word4(a)
    ensures Word1(a) < TWO32 && Word2(a) < TWO32 && Word3(a) < TWO32 && Word4(a) < TWO32
  {
    var q := a / TWO32;
    assert q == a / 0x1_0000_0000;
    DivDiv(a, 0x1_0000_0000, 0x1_0000_0000);
    DivDiv(a, 0x1_0000_0000_0000_0000, 0x1_0000_0000);
  }

  lemma Row(c: int, w1: int, w2: int, w3: int, w4: int)
    ensures c * (w1 * 0x1_0000_0000_0000_0000_0000_0000 + w2 * 0x1_0000_0000_0000_0000 + w3 * 0x1_0000_0000 + w4)
         == (c * w1) * 0x1_0000_0000_0000_0000_0000_0000 + (c * w2) * 0x1_0000_0000_0000_0000
            + (c * w3) * 0x1_0000_0000 + c * w4
  {}

  /** The product of two four-word numbers by columns. */
  lemma ProductByColumns(a: nat, b: nat)
    requires a < TWO128 && b < TWO128
    ensures a * b == Sum0(a, b) + Sum1(a, b) * TWO32 + Sum2(a, b) * TWO64 + Sum3(a, b) * TWO96
                     + (Sum4(a, b) + Sum5(a, b) * TWO32 + Sum6(a, b) * TWO64) * TWO128
  {
    WordsOf(a);
    WordsOf(b);
    Expand(a, b, Word1(a), Word2(a), Word3(a), Word4(a), Word1(b), Word2(b), Word3(b), Word4(b));
  }

  lemma Expand(a: int, b: int, a1: int, a2: int, a3: int, a4: int, b1: int, b2: int, b3: int, b4: int)
    requires a == a1 * TWO96 + a2 * TWO64 + a3 * TWO32 + a4
    requires b == b1 * TWO96 + b2 * TWO64 + b3 * TWO32 + b4
    ensures a * b == a4 * b4 + (a3 * b4 + a4 * b3) * TWO32 + (a2 * b4 + a3 * b3 + a4 * b2) * TWO64
                     + (a1 * b4 + a2 * b3 + a3 * b2 + a4 * b1) * TWO96
                     + ((a1 * b3 + a2 * b2 + a3 * b1) + (a1 * b2 + a2 * b1) * TWO32 + (a1 * b1) * TWO64) * TWO128
  {
    Row(b, a1, a2, a3, a4);
    Row(a1, b1, b2, b3, b4);
    Row(a2, b1, b2, b3, b4);
    Row(a3, b1, b2, b3, b4);
    Row(a4, b1, b2, b3, b4);
  }

  lemma ColumnBounds(a: nat, b: nat)
    requires a < TWO128 && b < TWO128
    ensures Sum0(a, b) <= 0xffff_fffe_0000_0001
    ensures Sum1(a, b) <= 2 * 0xffff_fffe_0000_0001 && Sum5(a, b) <= 2 * 0xffff_fffe_0000_0001
    ensures Sum2(a, b) <= 3 * 0xffff_fffe_0000_0001 && Sum4(a, b) <= 3 * 0xffff_fffe_0000_0001
    ensures Sum3(a, b) <= 4 * 0xffff_fffe_0000_0001 && Sum6(a, b) <= 0xffff_fffe_0000_0001
  {
    WordsOf(a);
    WordsOf(b);
    forall x: nat, y: nat | x < TWO32 && y < TWO32
      ensures 0 <= x * y <= 0xffff_fffe_0000_0001
    {
      WordProduct(x, y);
    }
  }

  /** r0, r1 and the higher columns add up to the product. */
  lemma RegroupColumns(s0: nat, s1: nat, s2: nat, s3: nat)
    requires s0 <= 0xffff_fffe_0000_0001 && s1 <= 2 * 0xffff_fffe_0000_0001
    ensures s0 + s1 * TWO32 + s2 * TWO64 + s3 * TWO96
         == R0(s0, s1) + R1(s0, s1, s2, s3) * TWO64 + (s2 / TWO64 + s3 / TWO32) * TWO128
  {
    assert s0 / TWO64 == 0 && s0 % TWO64 == s0;
    assert s1 / TWO32 % TWO64 == s1 / TWO32;
  }

  /** The wrapping sums give the low half, and the high half up to one carry. */
  lemma CombineHalves(r0: nat, r1: nat, rest: nat, product: nat)
    requires product == r0 + r1 * TWO64 + rest * TWO128
    requires r0 < 2 * TWO64 && product < TWO128 * TWO128
    ensures (r0 + r1 * TWO64 % TWO128) % TWO128 == product % TWO128
    ensures (r1 / TWO64 + rest) % TWO128 == product / TWO128 - if r0 + (r1 % TWO64) * TWO64 >= TWO128 then 1 else 0
  {
    var h, l := r1 / TWO64, r1 % TWO64;
    DivUnique(r1 * TWO64, TWO128, h, l * TWO64);
    var low := r0 + l * TWO64;
    var carry := if low >= TWO128 then 1 else 0;
    DivUnique(low, TWO128, carry, low - carry * TWO128);
    DivUnique(product, TWO128, h + rest + carry, low - carry * TWO128);
    DivUnique(h + rest, TWO128, 0, h + rest);
  }

  /** The wrapping additions of lines 187-201 of fp_lib.h. */
  method CombineColumns(sum0: nat, sum1: nat, sum2: nat, sum3: nat, sum4: nat, sum5: nat, sum6: nat, ghost product: nat)
    returns (hi: nat, lo: nat)
    requires sum0 <= 0xffff_fffe_0000_0001 && sum1 <= 2 * 0xffff_fffe_0000_0001
    requires product
        == sum0 + sum1 * TWO32 + sum2 * TWO64 + sum3 * TWO96 + (sum4 + sum5 * TWO32 + sum6 * TWO64) * TWO128
    requires product < TWO128 * TWO128
    ensures lo == product % TWO128
    ensures hi == product / TWO128
                  - if R0(sum0, sum1) + (R1(sum0, sum1, sum2, sum3) % TWO64) * TWO64 >= TWO128 then 1 else 0
  {
    RegroupColumns(sum0, sum1, sum2, sum3);
    var r0 := sum0 % TWO64 + (sum1 % TWO32) * TWO32;
    var r1 := sum0 / TWO64 + sum1 / TWO32 % TWO64 + sum2 % TWO64 + (sum3 % TWO32) * TWO32;
    ghost var rest := sum2 / TWO64 + sum3 / TWO32 + sum4 + sum5 * TWO32 + sum6 * TWO64;
    CombineHalves(r0, r1, rest, product);
    assert sum1 / TWO96 == 0;
    lo := (r0 + r1 * TWO64 % TWO128) % TWO128;
    hi := (r1 / TWO64 + sum1 / TWO96 + sum2 / TWO64 + sum3 / TWO32 + sum4 + sum5 * TWO32 + sum6 * TWO64) % TWO128;
  }

  /** wideMultiply for quad precision. The low half is exact; the high half is one
      short exactly when the carry out of the low half is dropped. */
  method WideMultiply128(a: nat, b: nat) returns (hi: nat, lo: nat)
    requires a < TWO128 && b < TWO128
    ensures lo == a * b % TWO128
    ensures hi == a * b / TWO128 - if CarryDropped(a, b) then 1 else 0
  {
    hide Word1, Word2, Word3, Word4, R0, R1;
    var product11 := Word1(a) * Word1(b);
    var product12 := Word1(a) * Word2(b);
    var product13 := Word1(a) * Word3(b);
    var product14 := Word1(a) * Word4(b);
    var product21 := Word2(a) * Word1(b);
    var product22 := Word2(a) * Word2(b);
    var product23 := Word2(a) * Word3(b);
    var product24 := Word2(a) * Word4(b);
    var product31 := Word3(a) * Word1(b);
    var product32 := Word3(a) * Word2(b);
    var product33 := Word3(a) * Word3(b);
    var product34 := Word3(a) * Word4(b);
    var product41 := Word4(a) * Word1(b);
    var product42 := Word4(a) * Word2(b);
    var product43 := Word4(a) * Word3(b);
    var product44 := Word4(a) * Word4(b);
    var sum0: nat := product44;
    var sum1: nat := product34 + product43;
    var sum2: nat := product24 + product33 + product42;
    var sum3: nat := product14 + product23 + product32 + product41;
    var sum4: nat := product13 + product22 + product31;
    var sum5: nat := product12 + product21;
    var sum6: nat := product11;
    assert sum0 == Sum0(a, b) && sum1 == Sum1(a, b) && sum2 == Sum2(a, b) && sum3 == Sum3(a, b);
    assert sum4 == Sum4(a, b) && sum5 == Sum5(a, b) && sum6 == Sum6(a, b);
    hide Sum0, Sum1, Sum2, Sum3, Sum4, Sum5, Sum6;
    ProductByColumns(a, b);
    ColumnBounds(a, b);
    ProductFits(a, b);
    hi, lo := CombineColumns(sum0, sum1, sum2, sum3, sum4, sum5, sum6, a * b);
  }

  lemma ProductFits(a: nat, b: nat)
    requires a < TWO128 && b < TWO128
    ensures 0 <= a * b < TWO128 * TWO128
  {
    MulLe(a, TWO128 - 1, b);
    MulLe(0, a, b);
  }

  /** The dropped carry is reachable: __multf3 passes a 113-bit significand and
      another shifted left by the fifteen exponent bits (fp_mul_impl.inc:75), and these
      operands of that form have it. */
  lemma CarryDroppedWitness()
    ensures var a, s := 0x1_7634_ad45_f23d_3802_08a9_c2cd_789b, 0x1_c3f9_7e35_814a_d493_e78c_95ee_eb51;
      && Quad(a) && Quad(s) && s * 0x8000 < TWO128
      && CarryDropped(a, s * 0x8000)
  {
    var a, b := 0x1_7634_ad45_f23d_3802_08a9_c2cd_789b, 0xe1fc_bf1a_c0a5_6a49_f3c6_4af7_75a8_8000;
    WordsAre(a, 0x1_7634, 0xad45_f23d, 0x3802_08a9, 0xc2cd_789b);
    WordsAre(b, 0xe1fc_bf1a, 0xc0a5_6a49, 0xf3c6_4af7, 0x75a8_8000);
    hide Word1, Word2, Word3, Word4;
    assert Sum0(a, b) == 0x5988_205c_b905_8000 && Sum1(a, b) == 0xd33d_b8bd_b23a_ab8d;
    assert Sum2(a, b) == 0x1_1790_4e35_2cc2_4742 && Sum3(a, b) == 0x1_7b1c_e97f_e86f_b1ca;
    hide Sum0, Sum1, Sum2, Sum3;
    WitnessColumns();
  }

  lemma WordsAre(x: nat, w1: nat, w2: nat, w3: nat, w4: nat)
    requires w1 < TWO32 && w2 < TWO32 && w3 < TWO32 && w4 < TWO32
    requires x == w1 * TWO96 + w2 * TWO64 + w3 * TWO32 + w4
    ensures Word1(x) == w1 && Word2(x) == w2 && Word3(x) == w3 && Word4(x) == w4
  {
    hide Word1, Word2, Word3, Word4;
    WordsOf(x);
  }

  lemma WitnessColumns()
    ensures R0(0x5988_205c_b905_8000, 0xd33d_b8bd_b23a_ab8d) == 0x1_0bc2_cbe9_b905_8000
    ensures R1(0x5988_205c_b905_8000, 0xd33d_b8bd_b23a_ab8d, 0x1_1790_4e35_2cc2_4742, 0x1_7b1c_e97f_e86f_b1ca)
         == 0xffff_ffff_ffff_ffff
  {}

  /** A binary128 significand with its implicit bit. */
  predicate Quad(s: nat) { 0x1_0000_0000_0000_0000_0000_0000_0000 <= s < 0x2_0000_0000_0000_0000_0000_0000_0000 }

  // ------------------------------------------------------ right shift with sticky bit

  /** x shifted right by c, its low bit also set when any dropped bit was 1. */
  function StickyShift(x: nat, c: nat): nat {
    var q := Shr(x, c);
    if Wrap(x, c) != 0 && q % 2 == 0 then q + 1 else q
  }

  /** That is: all bits but the lowest are those of the quotient, and the lowest says
      whether its own or any dropped bit was 1. */
  lemma StickyShiftBits(x: nat, c: nat)
    ensures StickyShift(x, c) / 2 == x / Pow2(c) / 2
    ensures StickyShift(x, c) % 2 == 1 <==> x / Pow2(c) % 2 == 1 || x % Pow2(c) != 0
  {
    hide Pow2;
  }

  /** The bits a left shift keeps are zero exactly when those of the right shift's
      remainder are. */
  lemma KeptZero(w: nat, x: nat, k: nat)
    requires k <= w && x < Pow2(w)
    ensures Shl(x, w - k, w) == 0 <==> Wrap(x, k) == 0
  {
    hide Shl, Pow2;
    KeptBits(w, x, k);
    MulLe(1, Wrap(x, k), Pow2(w - k));
  }

  lemma PairZero(w: nat, high: nat, low: nat)
    requires high < Pow2(w) && low < Pow2(w)
    ensures All(w, high, low) == 0 <==> high == 0 && low == 0
    ensures Or(high, low) == 0 <==> high == 0 && low == 0
  {
    MulLe(1, high, Pow2(w));
    if high != 0 && low != 0 { OrPositive(high, low); }
  }

  lemma {:induction false} OrPositive(a: nat, b: nat)
    requires a != 0 || b != 0
    ensures Or(a, b) != 0
  {
    if a > 1 && b > 1 { OrPositive(a / 2, b / 2); }
  }

  /** wideRightShiftWithSticky for words of w bits. A count of 0 or w would shift a
      word by its own width, which C leaves undefined. */
  method WideRightShiftWithSticky(w: nat, hi0: nat, lo0: nat, count: nat) returns (hi: nat, lo: nat)
    requires w > 0 && hi0 < Pow2(w) && lo0 < Pow2(w)
    requires count != 0 && count != w
    ensures hi < Pow2(w) && lo < Pow2(w)
    ensures All(w, hi, lo) == StickyShift(All(w, hi0, lo0), count)
  {
    hide Pow2, Or, Shl, Shr, Wrap, StickyShift, All;
    if count < w {
      var sticky := Shl(lo0, w - count, w) != 0;
      lo := Or(Or(Shl(hi0, w - count, w), Shr(lo0, count)), if sticky then 1 else 0);
      hi := Shr(hi0, count);
      ShortShift(w, hi0, lo0, count);
    } else if count < 2 * w {
      var sticky := Or(Shl(hi0, 2 * w - count, w), lo0) != 0;
      lo := Or(Shr(hi0, count - w), if sticky then 1 else 0);
      hi := 0;
      LongShift(w, hi0, lo0, count);
    } else {
      var sticky := Or(hi0, lo0) != 0;
      lo := if sticky then 1 else 0;
      hi := 0;
      FullShift(w, hi0, lo0, count);
    }
  }

  lemma ShortShift(w: nat, hi: nat, lo: nat, c: nat)
    requires 0 < c < w && hi < Pow2(w) && lo < Pow2(w)
    ensures var sticky := Shl(lo, w - c, w) != 0;
      var lo' := Or(Joined(w, hi, lo, c), if sticky then 1 else 0);
      && Shr(hi, c) < Pow2(w) && lo' < Pow2(w)
      && All(w, Shr(hi, c), lo') == StickyShift(All(w, hi, lo), c)
  {
    hide Or, Shl, Shr, Wrap, Joined, Pow2, StickyShift;
    AlignWithin(w, hi, lo, c);
    JoinedBits(w, hi, lo, c);
    KeptZero(w, lo, c);
    ShrBound(hi, c, w);
    SameWrap(w, hi, lo, c);
    SetSticky(w, Shr(hi, c), Joined(w, hi, lo, c), All(w, hi, lo), c, Wrap(lo, c) != 0);
  }

  lemma SameWrap(w: nat, hi: nat, lo: nat, c: nat)
    requires c <= w && hi < Pow2(w) && lo < Pow2(w)
    ensures Wrap(All(w, hi, lo), c) == Wrap(lo, c)
    ensures Shr(All(w, hi, lo), c) == All(w, Shr(hi, c), Joined(w, hi, lo, c))
  {
    AlignWithin(w, hi, lo, c);
  }

  /** Setting the low bit of the low word sets it in the pair. */
  lemma SetSticky(w: nat, high: nat, low: nat, x: nat, c: nat, sticky: bool)
    requires w > 0 && low < Pow2(w) && Shr(x, c) == All(w, high, low) && (sticky <==> Wrap(x, c) != 0)
    ensures var low' := Or(low, if sticky then 1 else 0);
      low' < Pow2(w) && All(w, high, low') == StickyShift(x, c)
  {
    var half := Pow2(w - 1);
    assert Pow2(w) == 2 * half;
    hide Pow2, Or, Shr, Wrap;
    OrLowBit(low, sticky);
    EvenTimes(high, half, Pow2(w));
    AddToEven(high * Pow2(w), low, half);
  }

  lemma AddToEven(h: nat, low: nat, half: nat)
    requires h % 2 == 0 && low < 2 * half
    ensures (h + low) % 2 == low % 2
    ensures low % 2 == 0 ==> low + 1 < 2 * half
  {}

  lemma EvenTimes(h: nat, half: nat, p: nat)
    requires p == 2 * half
    ensures h * p % 2 == 0
  {
    MulSwap(2, half, h);
    MulAssoc(2, half, h);
  }

  lemma ShrBound(x: nat, k: nat, w: nat)
    requires x < Pow2(w)
    ensures Shr(x, k) < Pow2(w)
  {
    QuotientLe(x, Pow2(k));
  }

  lemma LongShift(w: nat, hi: nat, lo: nat, c: nat)
    requires 0 < w < c < 2 * w && hi < Pow2(w) && lo < Pow2(w)
    ensures var sticky := Or(Shl(hi, 2 * w - c, w), lo) != 0;
      var lo' := Or(Shr(hi, c - w), if sticky then 1 else 0);
      lo' < Pow2(w) && All(w, 0, lo') == StickyShift(All(w, hi, lo), c)
  {
    hide Or, Shl, Shr, Wrap, Pow2, StickyShift, All;
    var k := c - w;
    BeyondWords(w, hi, lo, k);
    KeptZero(w, hi, k);
    KeptBits(w, hi, k);
    WrapBound(hi, k, w);
    PairZero(w, Wrap(hi, k), lo);
    PairZero(w, Shl(hi, w - k, w), lo);
    ShrBound(hi, k, w);
    SetSticky(w, 0, Shr(hi, k), All(w, hi, lo), c, Wrap(All(w, hi, lo), c) != 0);
  }

  lemma BeyondWords(w: nat, hi: nat, lo: nat, k: nat)
    requires k <= w && hi < Pow2(w) && lo < Pow2(w)
    ensures Shr(All(w, hi, lo), w + k) == All(w, 0, Shr(hi, k))
    ensures Wrap(All(w, hi, lo), w + k) == All(w, Wrap(hi, k), lo)
  {
    AlignBeyond(w, hi, lo, k);
  }

  lemma WrapBound(x: nat, k: nat, w: nat)
    requires x < Pow2(w)
    ensures Wrap(x, k) < Pow2(w)
  {
    RemainderLe(x, Pow2(k));
  }

  lemma FullShift(w: nat, hi: nat, lo: nat, c: nat)
    requires 0 < w && 2 * w <= c && hi < Pow2(w) && lo < Pow2(w)
    ensures var lo' := if Or(hi, lo) != 0 then 1 else 0;
      lo' < Pow2(w) && 0 < Pow2(w) && All(w, 0, lo') == StickyShift(All(w, hi, lo), c)
  {
    AllWords(w, hi, lo);
    PairZero(w, hi, lo);
    Pow2Mono(2 * w, c);
    Pow2Mono(0, w);
    DivUnique(All(w, hi, lo), Pow2(c), 0, All(w, hi, lo));
  }

  /** Two successive shifts lose nothing over one: the branches of the source agree
      with each other. */
  lemma StickyShiftCompose(x: nat, c: nat, d: nat)
    ensures StickyShift(StickyShift(x, c), d) == StickyShift(x, c + d)
  {
    Pow2Add(c, d);
    DivDiv(x, Pow2(c), Pow2(d));
    var q, r := Shr(x, c), Wrap(x, c);
    DivModOf(x, Pow2(c));
    if d == 0 {
      assert Pow2(0) == 1;
    } else {
      assert Pow2(d) == 2 * Pow2(d - 1);
      LowBitUnshifted(q, Pow2(d - 1), r != 0);
      DivModOf(q, Pow2(d));
      MulLe(1, q % Pow2(d), Pow2(c));
      assert Shr(x, c + d) == Shr(q, d) && Wrap(x, c + d) == Wrap(q, d) * Pow2(c) + r;
      assert Wrap(q, d) == 0 ==> Wrap(q, d) * Pow2(c) == 0;
      hide Pow2, Shr, Wrap;
    }
  }

  /** Setting the low bit changes neither the quotient by an even number nor the
      bits above it. */
  lemma LowBitUnshifted(q: nat, m: nat, s: bool)
    requires m > 0
    ensures var y := if s && q % 2 == 0 then q + 1 else q;
      y / (2 * m) == q / (2 * m) && (y % (2 * m) != 0 <==> q % (2 * m) != 0 || s)
  {
    DivDiv(q, 2, m);
    DivDiv(q + 1, 2, m);
    var y := if s && q % 2 == 0 then q + 1 else q;
    assert y / 2 == q / 2;
    assert y % (2 * m) == (q / 2 % m) * 2 + y % 2;
    assert q % (2 * m) == (q / 2 % m) * 2 + q % 2;
    DivModOf(q / 2, m);
  }
}
