/** Machine words as natural numbers: powers of two, bitwise "or" and the truncating left shift. */
module Bits {
  type byte = b: nat | b < 256

  const TWO_TO_THE_64: nat := 0x1_0000_0000_0000_0000

  function Pow2(n: nat): (p: nat)
    ensures 1 <= p
  {
    if n == 0 then 1 else 2 * Pow2(n - 1)
  }

  lemma {:induction false} Pow2Add(a: nat, b: nat)
    ensures Pow2(a + b) == Pow2(a) * Pow2(b)
  {
    if a != 0 {
      Pow2Add(a - 1, b);
      MulAssociative(2, Pow2(a - 1), Pow2(b));
    }
  }

  lemma {:induction false} Pow2Increases(a: nat, b: nat)
    requires a < b
    ensures 2 * Pow2(a) <= Pow2(b)
  {
    if a + 1 < b {
      Pow2Increases(a, b - 1);
    }
  }

  lemma Pow2Reflects(a: nat, b: nat)
    requires Pow2(a) < Pow2(b)
    ensures a < b
  {
  }

  lemma Pow2Seven(n: nat)
    ensures Pow2(7 * (n + 1)) == 128 * Pow2(7 * n)
  {
    assert Pow2(7) == 128;
    Pow2Add(7, 7 * n);
  }

  /** The powers of two that matter here, seven bits apart. */
  lemma {:induction false} PowerTable(k: nat)
    ensures k == 0 ==> Pow2(k) == 1
    ensures k == 2 ==> Pow2(k) == 4
    ensures k == 9 ==> Pow2(k) == 0x200
    ensures k == 16 ==> Pow2(k) == 0x1_0000
    ensures k == 49 ==> Pow2(k) == 0x2_0000_0000_0000
    ensures k == 56 ==> Pow2(k) == 0x100_0000_0000_0000
    ensures k == 63 ==> Pow2(k) == 0x8000_0000_0000_0000
    ensures k == 70 ==> Pow2(k) == 0x40_0000_0000_0000_0000
  {
    if k == 49 {
      PowersBelow(k);
    } else if 10 <= k {
      PowerTable(k - 7);
      Pow2By7(k);
    }
  }

  lemma Pow2By7(k: nat)
    requires 7 <= k
    ensures Pow2(k) == 128 * Pow2(k - 7)
  {
    assert Pow2(7) == 128;
    Pow2Add(7, k - 7);
  }

  lemma PowersBelow(k: nat)
    requires k == 49
    ensures Pow2(k) == 0x2_0000_0000_0000
  {
    Pow2By7(k);
    Pow2By7(k - 7);
    Pow2By7(k - 14);
    assert Pow2(k - 21) == 0x1000_0000 by {
      Pow2By7(k - 21);
      Pow2By7(k - 28);
      assert Pow2(14) == 0x4000;
    }
  }

  lemma MulAssociative(a: nat, b: nat, c: nat)
    ensures (a * b) * c == a * (b * c)
  {
  }

  /** The C++ operator `|` on natural numbers. */
  function BitOr(a: nat, b: nat): nat
    decreases a + b
  {
    if a == 0 then b
    else if b == 0 then a
    else (if a % 2 == 1 || b % 2 == 1 then 1 else 0) + 2 * BitOr(a / 2, b / 2)
  }

  /** Or-ing a low part into a number whose low bits are clear adds the two. */
  lemma {:induction false} OrOfDisjointBits(low: nat, high: nat, k: nat)
    requires low < Pow2(k)
    ensures BitOr(low, high * Pow2(k)) == low + high * Pow2(k)
  {
    if k != 0 && low != 0 {
      var c := high * Pow2(k - 1);
      assert Pow2(k) == 2 * Pow2(k - 1);
      MulTwice(high, Pow2(k - 1));
      hide Pow2, BitOr;
      OrOfDisjointBits(low / 2, high, k - 1);
      OrStep(low, c);
    }
  }

  lemma OrStep(a: nat, c: nat)
    requires a != 0 && BitOr(a / 2, c) == a / 2 + c
    ensures BitOr(a, 2 * c) == a + 2 * c
  {
  }

  /** `x << n` on a 64-bit unsigned word. */
  function ShiftLeft64(x: nat, n: nat): nat {
    (x * Pow2(n)) % TWO_TO_THE_64
  }

  /** `x >> n` on an unsigned word: `n` halvings. */
  function ShiftRight(x: nat, n: nat): nat {
    if n == 0 then x else ShiftRight(x / 2, n - 1)
  }

  lemma {:induction false} ShiftRightTwice(x: nat, a: nat, b: nat)
    ensures ShiftRight(ShiftRight(x, a), b) == ShiftRight(x, a + b)
  {
    if a != 0 {
      ShiftRightTwice(x / 2, a - 1, b);
    }
  }

  /** The low `n` bits, those a right shift drops. */
  function LowBits(x: nat, n: nat): (r: nat)
    ensures r < Pow2(n)
  {
    if n == 0 then 0 else x % 2 + 2 * LowBits(x / 2, n - 1)
  }

  /** A right shift is the quotient by the power of two, and the dropped bits are the remainder. */
  lemma {:induction false} ShiftRightQuotient(x: nat, n: nat)
    ensures x == ShiftRight(x, n) * Pow2(n) + LowBits(x, n)
  {
    if n != 0 {
      ShiftRightQuotient(x / 2, n - 1);
      MulTwice(ShiftRight(x / 2, n - 1), Pow2(n - 1));
    }
  }

  lemma MulTwice(a: nat, b: nat)
    ensures a * (2 * b) == 2 * (a * b)
  {
  }

  lemma MulGap(a: nat, b: nat, d: nat)
    requires a < b
    ensures a * d + d <= b * d
  {
    assert b * d == a * d + (b - a) * d;
    assert (b - a) * d == d + (b - a - 1) * d;
  }

  lemma DivModUnique(x: nat, d: nat, q: nat, r: nat)
    requires r < d && x == q * d + r
    ensures x / d == q && x % d == r
  {
    var q' := x / d;
    if q < q' {
      MulGap(q, q', d);
    } else if q' < q {
      MulGap(q', q, d);
    }
  }

  lemma SmallMod(x: nat, d: nat)
    requires x < d
    ensures x % d == x
  {
  }
}
