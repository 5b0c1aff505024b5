/** Bitwise operators on natural numbers, and the laws that turn masks into division and remainder. */
module Bits {

  function And(a: nat, b: nat): (r: nat)
    decreases a
  {
    if a == 0 || b == 0 then 0 else 2 * And(a / 2, b / 2) + (if a % 2 == 1 && b % 2 == 1 then 1 else 0)
  }

  function Or(a: nat, b: nat): (r: nat)
    decreases a + b
  {
    if a == 0 && b == 0 then 0 else 2 * Or(a / 2, b / 2) + (if a % 2 == 1 || b % 2 == 1 then 1 else 0)
  }

  function Xor(a: nat, b: nat): (r: nat)
    decreases a + b
  {
    if a == 0 && b == 0 then 0 else 2 * Xor(a / 2, b / 2) + (if a % 2 != b % 2 then 1 else 0)
  }

  function Pow2(k: nat): (r: nat)
    ensures r >= 1
  {
    if k == 0 then 1 else 2 * Pow2(k - 1)
  }

  lemma {:induction false} XorBound(a: nat, b: nat, k: nat)
    requires a < Pow2(k) && b < Pow2(k)
    ensures Xor(a, b) < Pow2(k)
    decreases k
  {
    if k > 0 {
      XorBound(a / 2, b / 2, k - 1);
    }
  }

  /** The number made of the low k bits of x. */
  function Low(x: nat, k: nat): (r: nat) {
    if k == 0 then 0 else 2 * Low(x / 2, k - 1) + x % 2
  }

  lemma {:induction false} LowIsRemainder(x: nat, k: nat)
    ensures Low(x, k) == x % Pow2(k)
    decreases k
  {
    if k > 0 {
      LowIsRemainder(x / 2, k - 1);
      HalveRemainder(x, Pow2(k - 1), Pow2(k));
    }
  }

  lemma {:induction false} AndIsLow(x: nat, k: nat)
    ensures And(x, Pow2(k) - 1) == Low(x, k)
    decreases k
  {
    if k > 0 {
      AndIsLow(x / 2, k - 1);
      AndOdd(x, Pow2(k - 1) - 1);
    }
  }

  /** `x & (2^k - 1)` is the remainder. */
  lemma {:induction false} AndLowMask(x: nat, k: nat)
    ensures And(x, Pow2(k) - 1) == x % Pow2(k)
  {
    AndIsLow(x, k);
    LowIsRemainder(x, k);
  }

  lemma {:induction false} AndOdd(a: nat, b: nat)
    ensures And(a, 2 * b + 1) == 2 * And(a / 2, b) + a % 2
  {
    AndStep(a, 2 * b + 1);
    assert (2 * b + 1) / 2 == b && (2 * b + 1) % 2 == 1;
  }

  lemma {:induction false} AndStep(a: nat, b: nat)
    ensures And(a, b) == 2 * And(a / 2, b / 2) + (if a % 2 == 1 && b % 2 == 1 then 1 else 0)
  {
  }

  lemma HalveRemainder(x: nat, m: nat, p: nat)
    requires m >= 1 && p == 2 * m
    ensures x % p == 2 * ((x / 2) % m) + x % 2
  {
    var q, r := (x / 2) / m, (x / 2) % m;
    assert x / 2 == m * q + r;
    assert p * q == 2 * (m * q);
    RemainderIs(x, p, q, 2 * r + x % 2);
  }

  lemma RemainderIs(x: nat, d: nat, q: nat, r: nat)
    requires d > 0 && x == d * q + r && r < d
    ensures x % d == r && x / d == q
  {
    var q', r' := x / d, x % d;
    assert x == d * q' + r';
    Spread(d, q, q');
    Spread(d, q', q);
  }

  lemma Spread(d: nat, a: nat, b: nat)
    ensures a < b ==> d * a + d <= d * b
  {
    if a < b {
      Distribute(d, a + 1, b - a - 1);
      Distribute(d, a, 1);
    }
  }

  lemma Distribute(d: nat, a: nat, b: nat)
    ensures d * (a + b) == d * a + d * b && d * b >= 0
  {
  }

  lemma {:induction false} Pow2Sum(a: nat, b: nat)
    ensures Pow2(a + b) == Pow2(a) * Pow2(b)
    decreases a
  {
    if a > 0 {
      Pow2Sum(a - 1, b);
      assert Pow2(a + b) == 2 * Pow2(a - 1 + b);
    }
  }

  /** The powers of two that the kernel's constants are made of. */
  lemma Pow2Values()
    ensures Pow2(2) == 4 && Pow2(4) == 16 && Pow2(6) == 64 && Pow2(9) == 512 && Pow2(12) == 4096 && Pow2(16) == 0x10000
    ensures Pow2(21) == 0x200000 && Pow2(27) == 0x8000000 && Pow2(30) == 0x40000000 && Pow2(32) == 0x1_0000_0000
    ensures Pow2(36) == 0x10_0000_0000 && Pow2(43) == 0x800_0000_0000 && Pow2(52) == 0x10_0000_0000_0000
    ensures Pow2(53) == 0x20_0000_0000_0000
  {
    assert Pow2(2) == 4 && Pow2(3) == 8 && Pow2(4) == 16;
    Pow2Sum(4, 2);
    Pow2Sum(4, 4);
    Pow2Sum(8, 1);
    Pow2Sum(8, 4);
    Pow2Sum(8, 8);
    Pow2Sum(12, 9);
    Pow2Sum(21, 6);
    Pow2Sum(21, 9);
    Pow2Sum(16, 16);
    Pow2Sum(32, 4);
    Pow2Sum(27, 16);
    Pow2Sum(36, 16);
    Pow2Sum(52, 1);
  }

  // ---- masks over a field of bits ----

  /** `x & ((2^n - 1) << lo)` is the field of n bits at position lo, in place. */
  lemma {:induction false} AndFieldMask(x: nat, lo: nat, n: nat, mask: nat)
    requires mask == (Pow2(n) - 1) * Pow2(lo)
    ensures And(x, mask) == x / Pow2(lo) % Pow2(n) * Pow2(lo)
    decreases lo
  {
    if lo == 0 {
      AndLowMask(x, n);
      assert x / Pow2(0) == x;
    } else {
      var half := (Pow2(n) - 1) * Pow2(lo - 1);
      Doubled(Pow2(n) - 1, Pow2(lo - 1));
      AndFieldMask(x / 2, lo - 1, n, half);
      AndEven(x, half);
      DivTwice(x, Pow2(lo - 1));
      Doubled(x / Pow2(lo) % Pow2(n), Pow2(lo - 1));
    }
  }

  lemma Doubled(a: nat, b: nat)
    ensures a * (2 * b) == 2 * (a * b)
  {
  }

  lemma {:induction false} AndEven(a: nat, b: nat)
    ensures And(a, 2 * b) == 2 * And(a / 2, b)
  {
    AndStep(a, 2 * b);
  }

  lemma DivTwice(x: nat, m: nat)
    requires m >= 1
    ensures x / 2 / m == x / (2 * m)
  {
    var q, r := x / 2 / m, x / 2 % m;
    assert x / 2 == m * q + r;
    assert (2 * m) * q == 2 * (m * q);
    RemainderIs(x, 2 * m, q, 2 * r + x % 2);
  }

  // ---- or of disjoint parts ----

  lemma {:induction false} OrStep(a: nat, b: nat)
    ensures Or(a, b) == 2 * Or(a / 2, b / 2) + (if a % 2 == 1 || b % 2 == 1 then 1 else 0)
  {
    if a == 0 && b == 0 {
      assert Or(0, 0) == 0;
    }
  }

  lemma {:induction false} OrZero(a: nat)
    ensures Or(a, 0) == a
    decreases a
  {
    if a > 0 { OrZero(a / 2); }
  }

  lemma {:induction false} OrCommutes(a: nat, b: nat)
    ensures Or(a, b) == Or(b, a)
    decreases a + b
  {
    if a != 0 || b != 0 { OrCommutes(a / 2, b / 2); }
  }

  /** `x << k`. */
  function Shl(x: nat, k: nat): nat {
    if k == 0 then x else 2 * Shl(x, k - 1)
  }

  lemma {:induction false} ShlIsTimes(x: nat, k: nat)
    ensures Shl(x, k) == x * Pow2(k)
    decreases k
  {
    if k > 0 {
      ShlIsTimes(x, k - 1);
      Doubled(x, Pow2(k - 1));
    }
  }

  /** Or works on the parts above and below bit k separately. */
  lemma {:induction false} OrSplit(ah: nat, al: nat, bh: nat, bl: nat, k: nat)
    requires al < Pow2(k) && bl < Pow2(k)
    ensures Or(Shl(ah, k) + al, Shl(bh, k) + bl) == Shl(Or(ah, bh), k) + Or(al, bl)
    decreases k
  {
    if k == 0 {
      assert Or(0, 0) == 0;
    } else {
      OrSplit(ah, al / 2, bh, bl / 2, k - 1);
      OrLift(Shl(ah, k - 1), al, Shl(bh, k - 1), bl, Shl(Or(ah, bh), k - 1));
    }
  }

  lemma {:induction false} OrLift(a: nat, al: nat, b: nat, bl: nat, c: nat)
    requires Or(a + al / 2, b + bl / 2) == c + Or(al / 2, bl / 2)
    ensures Or(2 * a + al, 2 * b + bl) == 2 * c + Or(al, bl)
  {
    OrStep(2 * a + al, 2 * b + bl);
    OrStep(al, bl);
    assert (2 * a + al) / 2 == a + al / 2 && (2 * b + bl) / 2 == b + bl / 2;
  }

  // ---- the same at the bits the kernel uses, without Pow2 ----

  lemma {:induction false} OrLow(x: nat, low: nat, k: nat)
    requires low < Pow2(k)
    ensures Or(Shl(x, k), low) == Shl(x, k) + low
  {
    ShlIsTimes(0, k);
    OrSplit(x, 0, 0, low, k);
    OrZero(x);
    OrCommutes(0, low);
    OrZero(low);
  }

  lemma {:induction false} OrLow2(q: nat, low: nat)
    requires low < 4
    ensures Or(4 * q, low) == 4 * q + low
  {
    OrStep(4 * q, low);
    OrStep(2 * q, low / 2);
    OrZero(q);
  }

  lemma {:induction false} OrLow12(q: nat, low: nat)
    requires low < 4096
    ensures Or(4096 * q, low) == 4096 * q + low
  {
    Pow2Values();
    ShlIsTimes(q, 12);
    OrLow(q, low, 12);
  }

  lemma {:induction false} OrHigh53(x: nat, high: nat, low: nat)
    requires x < 0x20_0000_0000_0000 && low < 0x20_0000_0000_0000
    ensures Or(x, high * 0x20_0000_0000_0000 + low) == high * 0x20_0000_0000_0000 + Or(x, low)
  {
    Pow2Values();
    ShlIsTimes(0, 53);
    ShlIsTimes(high, 53);
    OrSplit(0, x, high, low, 53);
    OrCommutes(0, high);
    OrZero(high);
  }

  /** Setting bit 0 and then bit 1 of a multiple of four. */
  lemma {:induction false} OrOneTwo(q: nat)
    ensures Or(Or(4 * q, 1), 2) == 4 * q + 3
  {
    assert Shl(q, 1) == 2 * q && Shl(q, 2) == 4 * q && Shl(0, 1) == 0 && Shl(0, 2) == 0 && Pow2(1) == 2 && Pow2(2) == 4;
    OrLow2(q, 1);
    OrSplit(q, 1, 0, 2, 2);
    OrZero(q);
    assert Or(1, 2) == 3;
  }
}
