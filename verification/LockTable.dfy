/** The lock table of src/compiler-rt/builtins/atomic.c: which of the 1024 spinlocks
    guards an address. */
module LockTable {
  import opened Words

  const SPINLOCK_COUNT: nat := 1024

  /** lock_for_pointer: hash is an intptr_t, so its shifts are arithmetic. */
  function LockFor(ptr: nat): nat {
    var hash := Asr(Signed(ptr, 64), 4);
    var low := And(Wrap(hash, 64), SPINLOCK_COUNT - 1);
    var mixed := Xor(Wrap(Asr(hash, 16), 64), low);
    And(mixed, SPINLOCK_COUNT - 1)
  }

  /** The index in closed form: ten bits above the line offset, perturbed by ten bits
      sixteen places further up. */
  lemma LockForBits(ptr: nat)
    requires ptr < Pow2(64)
    ensures LockFor(ptr) == Xor(ptr / 0x10_0000 % 1024, ptr / 16 % 1024)
    ensures LockFor(ptr) < SPINLOCK_COUNT
  {
    hide And, Xor, Pow2, Wrap, Asr, Signed;
    Thousand();
    HashBits(ptr);
    var hash := Asr(Signed(ptr, 64), 4);
    var low := And(Wrap(hash, 64), SPINLOCK_COUNT - 1);
    AndMask(Wrap(hash, 64), 10);
    AndMask(Xor(Wrap(Asr(hash, 16), 64), low), 10);
    XorLow1024(Wrap(Asr(hash, 16), 64), low);
  }

  lemma XorLow1024(a: nat, b: nat)
    ensures Xor(a, b) % 1024 == Xor(a % 1024, b % 1024)
    ensures b < 1024 ==> b % 1024 == b
  {
    hide Xor, Pow2;
    Thousand();
    XorLow(a, b, 10);
  }

  lemma Thousand()
    ensures Pow2(10) == 1024 && Pow2(4) == 16 && Pow2(16) == 0x1_0000
  {
    assert Pow2(4) == 16;
    Pow2Add(4, 4);
    Pow2Add(8, 8);
    Pow2Add(8, 2);
  }

  /** The sign plays no part in the bits the hash keeps. */
  lemma HashBits(ptr: nat)
    requires ptr < Pow2(64)
    ensures Wrap(Asr(Signed(ptr, 64), 4), 64) % 1024 == ptr / 16 % 1024
    ensures Wrap(Asr(Asr(Signed(ptr, 64), 4), 16), 64) % 1024 == ptr / 0x10_0000 % 1024
  {
    hide Pow2;
    Thousand();
    Pow2Values();
    var borrow := if Signed(ptr, 64) < 0 then 1 else 0;
    var hash := Asr(Signed(ptr, 64), 4);
    ModAdd(ptr, -borrow * 0x1000_0000_0000_0000, 16);
    assert hash == ptr / 16 - borrow * 0x1000_0000_0000_0000;
    WordLow(hash);
    ModAdd(ptr / 16, -borrow * 0x4_0000_0000_0000, 1024);
    ModAdd(ptr / 16, -borrow * 0x1000_0000_0000, 0x1_0000);
    DivDiv(ptr, 16, 0x1_0000);
    WordLow(Asr(hash, 16));
    ModAdd(ptr / 0x10_0000, -borrow * 0x4_0000_0000, 1024);
  }

  /** Wrapping to 64 bits keeps the low ten. */
  lemma WordLow(x: int)
    ensures Wrap(x, 64) % 1024 == x % 1024
  {
    hide Pow2;
    Pow2Values();
    DivModOf(x, 0x1_0000_0000_0000_0000);
    ModAdd(Wrap(x, 64), x / 0x1_0000_0000_0000_0000 * 0x40_0000_0000_0000, 1024);
  }

  lemma FromHalves(x: nat, y: nat)
    requires x / 2 == y / 2 && x % 2 == y % 2
    ensures x == y
  {}

  lemma {:induction false} XorLow(a: nat, b: nat, k: nat)
    ensures LowPart(Xor(a, b), Pow2(k)) == Xor(LowPart(a, Pow2(k)), LowPart(b, Pow2(k)))
  {
    if k > 0 {
      hide *;
      Doubled(k);
      var m := Pow2(k - 1);
      LowStep(a, m);
      LowStep(b, m);
      LowStep(Xor(a, b), m);
      XorHalf(a, b);
      XorHalf(LowPart(a, 2 * m), LowPart(b, 2 * m));
      XorLow(a / 2, b / 2, k - 1);
      FromHalves(LowPart(Xor(a, b), 2 * m), Xor(LowPart(a, 2 * m), LowPart(b, 2 * m)));
    }
  }

  lemma {:induction false} XorCancel(a: nat, b: nat, c: nat)
    requires Xor(a, b) == Xor(a, c)
    ensures b == c
    decreases a + b + c
  {
    if a != 0 || b != 0 || c != 0 {
      XorHalf(a, b);
      XorHalf(a, c);
      XorCancel(a / 2, b / 2, c / 2);
    }
  }

  /** All bytes of one aligned sixteen-byte line share a lock. */
  lemma LineSharesLock(p: nat, q: nat)
    requires p < Pow2(64) && q < Pow2(64) && p / 16 == q / 16
    ensures LockFor(p) == LockFor(q)
  {
    hide Pow2, LockFor;
    LockForBits(p);
    LockForBits(q);
    DivDiv(p, 16, 0x1_0000);
    DivDiv(q, 16, 0x1_0000);
  }

  /** Within one aligned megabyte two addresses share a lock exactly when their lines
      are a multiple of 1024 apart. */
  lemma NearbyLinesSpread(p: nat, q: nat)
    requires p < Pow2(64) && q < Pow2(64) && p / 0x10_0000 == q / 0x10_0000
    ensures LockFor(p) == LockFor(q) <==> p / 16 % 1024 == q / 16 % 1024
  {
    hide Pow2, LockFor, Xor;
    LockForBits(p);
    LockForBits(q);
    if LockFor(p) == LockFor(q) {
      XorCancel(p / 0x10_0000 % 1024, p / 16 % 1024, q / 16 % 1024);
    }
  }

  /** Below one megabyte nothing perturbs the hash. */
  lemma LowLock(p: nat)
    requires p < 0x10_0000
    ensures LockFor(p) == p / 16 % 1024
  {
    hide LockFor, Pow2, Xor;
    Pow2Values();
    LockForBits(p);
    assert p / 0x10_0000 == 0;
    ZeroXor(p / 16 % 1024);
  }

  lemma ZeroXor(x: nat)
    ensures Xor(0, x) == x
  {}
}
