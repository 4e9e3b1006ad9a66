/** Pairs of machine words: the unions of src/compiler-rt/builtins/int_types.h and
    shifts that cross the word boundary. */
module DoubleWords {
  import opened Words

  /** The value of a union of two words of w bits. */
  function All(w: nat, high: nat, low: nat): nat { high * Pow2(w) + low }

  function High(w: nat, x: nat): nat { Shr(x, w) }
  function Low(w: nat, x: nat): nat { Wrap(x, w) }

  lemma AllWords(w: nat, high: nat, low: nat)
    requires high < Pow2(w) && low < Pow2(w)
    ensures All(w, high, low) < Pow2(2 * w)
    ensures All(w, high, low) / Pow2(w) == high && All(w, high, low) % Pow2(w) == low
  {
    hide Pow2;
    Pow2Add(w, w);
    WordPair(high, low, Pow2(w));
  }

  lemma WordPair(high: nat, low: nat, b: nat)
    requires high < b && low < b
    ensures high * b + low < b * b
    ensures (high * b + low) / b == high && (high * b + low) % b == low
  {
    MulLe(high, b - 1, b);
    MulAdd(b, -1, b);
    DivUnique(high * b + low, b, high, low);
  }

  lemma SplitWords(w: nat, x: nat)
    requires x < Pow2(2 * w)
    ensures High(w, x) < Pow2(w) && Low(w, x) < Pow2(w)
    ensures All(w, High(w, x), Low(w, x)) == x
  {
    hide Pow2;
    Pow2Add(w, w);
    DivBounds(x, Pow2(w), 0, Pow2(w));
    DivModOf(x, Pow2(w));
  }

  // ------------------------------------------------------ shifts across words

  function Joined(w: nat, high: nat, low: nat, k: nat): nat
    requires k <= w
  {
    Or(Shl(high, w - k, w), Shr(low, k))
  }

  /** (high << (w - k)) | (low >> k) joins the low bits of one word to the high
      bits of the next. */
  lemma JoinedBits(w: nat, high: nat, low: nat, k: nat)
    requires k <= w && high < Pow2(w) && low < Pow2(w)
    ensures Shr(low, k) < Pow2(w - k)
    ensures Joined(w, high, low, k) == (high % Pow2(k)) * Pow2(w - k) + low / Pow2(k) < Pow2(w)
  {
    var s, t := Pow2(k), Pow2(w - k);
    KeptBits(w, high, k);
    Pow2Add(k, w - k);
    DivBounds(low, s, 0, t);
    OrShift(high % s, low / s, w - k);
    MulLe(high % s + 1, s, t);
    MulAdd(high % s, 1, t);
  }

  /** n >> k and the bits it drops, for k up to a word. */
  lemma AlignWithin(w: nat, high: nat, low: nat, k: nat)
    requires k <= w && high < Pow2(w) && low < Pow2(w)
    ensures All(w, high, low) / Pow2(k) == All(w, Shr(high, k), Joined(w, high, low, k))
    ensures All(w, high, low) % Pow2(k) == low % Pow2(k)
  {
    var s, t := Pow2(k), Pow2(w - k);
    JoinedBits(w, high, low, k);
    Pow2Add(k, w - k);
    AlignQuotient(high, low, s, t);
    assert All(w, high, low) == high * (s * t) + low;
    assert All(w, Shr(high, k), Joined(w, high, low, k)) == (high / s) * (s * t) + ((high % s) * t + low / s);
    hide *;
  }

  lemma AlignQuotient(high: nat, low: nat, s: nat, t: nat)
    requires s > 0
    ensures (high * (s * t) + low) / s == (high / s) * (s * t) + ((high % s) * t + low / s)
    ensures (high * (s * t) + low) % s == low % s
  {
    var x, y, u, v := high / s, high % s, low / s, low % s;
    DivModOf(high, s);
    DivModOf(low, s);
    AlignArithmetic(x, y, u, v, s, t);
    DivUnique(high * (s * t) + low, s, x * (s * t) + (y * t + u), v);
  }

  lemma AlignArithmetic(x: int, y: int, u: int, v: int, s: int, t: int)
    ensures (x * s + y) * (s * t) + (u * s + v) == (x * (s * t) + (y * t + u)) * s + v
  {
    var b := s * t;
    MulAdd(x * s, y, b);
    MulAdd(x * b, y * t + u, s);
    MulAdd(y * t, u, s);
    MulSwap(x, s, b);
    MulAssoc(y, t, s);
  }

  /** n >> (w + k) and the bits it drops. */
  lemma AlignBeyond(w: nat, high: nat, low: nat, k: nat)
    requires k <= w && high < Pow2(w) && low < Pow2(w)
    ensures var n := All(w, high, low);
      && n / Pow2(w + k) == Shr(high, k)
      && n % Pow2(w + k) == All(w, high % Pow2(k), low)
  {
    Pow2Add(w, k);
    AllWords(w, high, low);
    DivDiv(All(w, high, low), Pow2(w), Pow2(k));
  }

  /** One left shift of a double word, with a bit shifted in. */
  lemma ShiftIn(w: nat, high: nat, low: nat, bit: nat)
    requires w > 0 && high < Pow2(w) && low < Pow2(w) && bit <= 1
    ensures var high' := Joined(w, high, low, w - 1); var low' := Or(Shl(low, 1, w), bit);
      && high' < Pow2(w) && low' < Pow2(w)
      && All(w, high', low') == 2 * All(w, high, low) + bit - Shr(high, w - 1) * Pow2(2 * w)
      && Shr(high, w - 1) == All(w, high, low) / Pow2(2 * w - 1) <= 1
  {
    hide Pow2, Or;
    var s, b := Pow2(w - 1), Pow2(w);
    Doubled(w);
    SmallPowers();
    KeptBits(w, high, w - 1);
    KeptBits(w, low, w - 1);
    JoinedBits(w, high, low, w - 1);
    OrShift(low % s, bit, 1);
    DivModOf(high, s);
    DivModOf(low, s);
    DivBounds(high, s, 0, 2);
    TopBit(w, high, low);
    Pow2Add(w, w);
    ShiftArithmetic(high / s, high % s, low / s, low % s, bit, s);
  }

  lemma TopBit(w: nat, high: nat, low: nat)
    requires w > 0 && high < Pow2(w) && low < Pow2(w)
    ensures Shr(high, w - 1) == All(w, high, low) / Pow2(2 * w - 1) <= 1
  {
    assert Pow2(w) == 2 * Pow2(w - 1);
    AllWords(w, high, low);
    Pow2Add(w, w - 1);
    DivDiv(All(w, high, low), Pow2(w), Pow2(w - 1));
    DivBounds(high, Pow2(w - 1), 0, 2);
  }

  lemma ShiftArithmetic(x: nat, y: nat, u: nat, v: nat, bit: nat, s: nat)
    ensures var b := 2 * s;
      2 * ((x * s + y) * b + (u * s + v)) + bit - x * (b * b) == (y * 2 + u) * b + (v * 2 + bit)
  {
    var b := 2 * s;
    MulAdd(x * s, y, b);
    MulAdd(y * 2, u, b);
    MulSwap(y, 2, b);
    MulAssoc(x, s, b);
    MulAssoc(2, s, b);
    MulAssoc(x, 2, s * b);
    MulAssoc(u, 2, s);
    MulSwap(u, 2, s);
  }
}
