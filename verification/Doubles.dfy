/**
 The comparison of a 64-bit count with `exp2(k)`. The count is first converted to an IEEE 754
 binary64 number, which has 53 significant bits, by rounding to nearest with ties to even.
 */
module Doubles {
  import opened Bits

  /** Significant bits of a binary64 number. */
  const PRECISION: nat := 53
  const TWO_TO_THE_53: nat := 0x20_0000_0000_0000
  const TWO_TO_THE_52: nat := 0x10_0000_0000_0000

  lemma {:induction false} ScaledPowers(e: nat)
    ensures Pow2(PRECISION + e) == TWO_TO_THE_53 * Pow2(e)
    ensures Pow2(PRECISION - 1 + e) == TWO_TO_THE_52 * Pow2(e)
  {
    if e == 0 {
      var k := 3;
      PowerTable(PRECISION - 1 - k);
      assert Pow2(PRECISION - 1 - k + 1) == 2 * Pow2(PRECISION - 1 - k);
    } else {
      ScaledPowers(e - 1);
    }
  }

  /** The binary exponent of the last significant bit of `v` once it no longer fits in 53 bits. */
  function UlpExponent(v: nat): (e: nat)
    ensures v < TWO_TO_THE_53 <==> e == 0
    ensures v < Pow2(PRECISION + e)
    ensures e > 0 ==> Pow2(PRECISION - 1 + e) <= v
  {
    ScaledPowers(0);
    if v < TWO_TO_THE_53 then 0 else UlpExponentFrom(v, 1)
  }

  function UlpExponentFrom(v: nat, e: nat): (r: nat)
    requires 0 < e && Pow2(PRECISION - 1 + e) <= v
    ensures e <= r
    ensures Pow2(PRECISION - 1 + r) <= v < Pow2(PRECISION + r)
    decreases v - Pow2(PRECISION - 1 + e)
  {
    if v < Pow2(PRECISION + e) then e else UlpExponentFrom(v, e + 1)
  }

  /** A natural number that binary64 represents exactly: 53 significant bits and an exponent. */
  ghost predicate IsDouble(d: nat) {
    exists m: nat, e: nat :: IsScaled(d, m, e)
  }

  ghost predicate IsScaled(d: nat, m: nat, e: nat) {
    m < TWO_TO_THE_53 && d == m * Pow2(e)
  }

  /** Conversion of an unsigned integer to binary64: roundTiesToEven. */
  function RoundToDouble(v: nat): nat {
    var e := UlpExponent(v);
    RoundHalfEven(ShiftRight(v, e), LowBits(v, e), Pow2(e))
  }

  /** Rounds `q * ulp + r` to a multiple of `ulp`. */
  function RoundHalfEven(q: nat, r: nat, ulp: nat): nat
    requires r < ulp
  {
    q * ulp + if 2 * r < ulp || (2 * r == ulp && q % 2 == 0) then 0 else ulp
  }

  /** `v < exp2(k)` as the compiled comparison decides it. */
  predicate LessThanExp2(v: nat, k: nat) {
    RoundToDouble(v) < Pow2(k)
  }

  function Gap(a: nat, b: nat): nat {
    if a <= b then b - a else a - b
  }

  ////////// Rounding to a multiple of the unit in the last place //////////

  lemma RoundHalfEvenIsNearest(v: nat, q: nat, r: nat, ulp: nat, j: nat)
    requires r < ulp && v == q * ulp + r
    ensures Gap(RoundHalfEven(q, r, ulp), v) <= Gap(j * ulp, v)
  {
    if j < q {
      MulGap(j, q, ulp);
    } else if q < j {
      MulGap(q, j, ulp);
    }
  }

  lemma RoundHalfEvenAtMost(q: nat, r: nat, ulp: nat, j: nat)
    requires r < ulp && q * ulp + r <= j * ulp
    ensures RoundHalfEven(q, r, ulp) <= j * ulp
  {
    if j < q {
      MulGap(j, q, ulp);
    } else if q < j {
      MulGap(q, j, ulp);
    }
  }

  lemma RoundHalfEvenAtLeast(q: nat, r: nat, ulp: nat, j: nat)
    requires r < ulp && j * ulp <= q * ulp + r
    ensures j * ulp <= RoundHalfEven(q, r, ulp)
  {
    if q < j {
      MulGap(q, j, ulp);
    }
  }

  lemma RoundHalfEvenMultiple(q: nat, r: nat, ulp: nat, b: nat) returns (m: nat)
    requires r < ulp && q * ulp + r < b * ulp
    ensures m <= b && RoundHalfEven(q, r, ulp) == m * ulp
  {
    m := if RoundHalfEven(q, r, ulp) == q * ulp then q else q + 1;
    if b <= q && b < q {
      MulGap(b, q, ulp);
    }
    assert (q + 1) * ulp == q * ulp + ulp;
  }

  /** Just below an even multiple `top` of the unit, exactly the upper half of the last unit reaches it. */
  lemma RoundHalfEvenReaches(v: nat, q: nat, r: nat, ulp: nat, b: nat, top: nat)
    requires r < ulp && v == q * ulp + r
    requires top == b * ulp && b % 2 == 0 && v < top
    ensures RoundHalfEven(q, r, ulp) < top <==> 2 * v < 2 * top - ulp
  {
    if b < q {
      MulGap(b, q, ulp);
    }
    if q + 1 < b {
      MulGap(q + 1, b, ulp);
    }
    assert (q + 1) * ulp == q * ulp + ulp;
  }

  /** The parts of `v` that `RoundToDouble` works on. */
  lemma Parts(v: nat) returns (q: nat, r: nat, ulp: nat)
    ensures ulp == Pow2(UlpExponent(v)) && r < ulp && v == q * ulp + r
    ensures RoundToDouble(v) == RoundHalfEven(q, r, ulp)
  {
    var e := UlpExponent(v);
    q, r, ulp := ShiftRight(v, e), LowBits(v, e), Pow2(e);
    ShiftRightQuotient(v, e);
  }

  ////////// Rounding returns a nearest double //////////

  lemma RoundedIsDouble(v: nat)
    ensures IsDouble(RoundToDouble(v))
  {
    var e := UlpExponent(v);
    var q, r, ulp := Parts(v);
    ScaledPowers(e);
    var m := RoundHalfEvenMultiple(q, r, ulp, TWO_TO_THE_53);
    if m < TWO_TO_THE_53 {
      assert IsScaled(RoundToDouble(v), m, e);
    } else {
      MulAssociative(TWO_TO_THE_52, 2, ulp);
      assert IsScaled(RoundToDouble(v), TWO_TO_THE_52, e + 1);
    }
  }

  lemma CoarserIsMultiple(d: nat, m: nat, f: nat, e: nat) returns (j: nat)
    requires IsScaled(d, m, f) && e <= f
    ensures d == j * Pow2(e)
  {
    j := m * Pow2(f - e);
    Pow2Add(f - e, e);
    MulAssociative(m, Pow2(f - e), Pow2(e));
  }

  lemma FinerIsSmaller(d: nat, m: nat, f: nat, e: nat)
    requires IsScaled(d, m, f) && f < e
    ensures d <= Pow2(PRECISION - 1 + e)
  {
    MulGap(m, TWO_TO_THE_53, Pow2(f));
    ScaledPowers(f);
    if PRECISION + f < PRECISION - 1 + e {
      Pow2Increases(PRECISION + f, PRECISION - 1 + e);
    }
  }

  lemma DoubleIsNoNearer(v: nat, d: nat, m: nat, f: nat)
    requires IsScaled(d, m, f)
    ensures Gap(RoundToDouble(v), v) <= Gap(d, v)
  {
    var e := UlpExponent(v);
    var q, r, ulp := Parts(v);
    if e <= f {
      var j := CoarserIsMultiple(d, m, f, e);
      RoundHalfEvenIsNearest(v, q, r, ulp, j);
    } else {
      FinerIsSmaller(d, m, f, e);
      var j := TWO_TO_THE_52;
      ScaledPowers(e);
      RoundHalfEvenIsNearest(v, q, r, ulp, j);
    }
  }

  /** Rounding returns a double, and no double is nearer. */
  lemma RoundingIsNearest(v: nat)
    ensures IsDouble(RoundToDouble(v))
    ensures forall d: nat :: IsDouble(d) ==> Gap(RoundToDouble(v), v) <= Gap(d, v)
  {
    RoundedIsDouble(v);
    forall d: nat | IsDouble(d)
      ensures Gap(RoundToDouble(v), v) <= Gap(d, v)
    {
      var m: nat, f: nat :| IsScaled(d, m, f);
      DoubleIsNoNearer(v, d, m, f);
    }
  }

  /** A double as near as the rounded value is a multiple of the unit in the last place, or is further off. */
  lemma NearestIsMultiple(v: nat, d: nat)
    requires IsDouble(d) && Gap(d, v) == Gap(RoundToDouble(v), v)
    ensures exists j: nat :: d == j * Pow2(UlpExponent(v))
  {
    hide RoundToDouble, RoundHalfEven;
    var e := UlpExponent(v);
    var m: nat, f: nat :| IsScaled(d, m, f);
    if e <= f {
      var j := CoarserIsMultiple(d, m, f, e);
    } else {
      FinerIsSmaller(d, m, f, e);
      var top := TWO_TO_THE_52;
      ScaledPowers(e);
      assert Pow2(PRECISION - 1 + e) == top * Pow2(e);
      var q, r, ulp := Parts(v);
      RoundHalfEvenIsNearest(v, q, r, ulp, top);
      assert d == top * Pow2(e);
    }
  }

  lemma TieIsEven(v: nat, q: nat, r: nat, ulp: nat, j: nat) returns (m: nat)
    requires r < ulp && v == q * ulp + r
    requires j * ulp != RoundHalfEven(q, r, ulp) && Gap(j * ulp, v) == Gap(RoundHalfEven(q, r, ulp), v)
    ensures m % 2 == 0 && RoundHalfEven(q, r, ulp) == m * ulp
  {
    assert (q + 1) * ulp == q * ulp + ulp;
    if j < q {
      MulGap(j, q, ulp);
    } else if q + 1 < j {
      MulGap(q + 1, j, ulp);
    }
    m := if RoundHalfEven(q, r, ulp) == q * ulp then q else q + 1;
  }

  ghost predicate IsEvenInLastPlace(d: nat, ulp: nat) {
    exists m: nat :: m % 2 == 0 && d == m * ulp
  }

  lemma TieGoesToEven(v: nat, d: nat)
    requires IsDouble(d) && d != RoundToDouble(v) && Gap(d, v) == Gap(RoundToDouble(v), v)
    ensures IsEvenInLastPlace(RoundToDouble(v), Pow2(UlpExponent(v)))
  {
    hide RoundToDouble, RoundHalfEven;
    NearestIsMultiple(v, d);
    var q, r, ulp := Parts(v);
    var j: nat :| d == j * ulp;
    var m := TieIsEven(v, q, r, ulp, j);
  }

  /** When another double is just as near, the one that rounding returns is even in the last place. */
  lemma TiesGoToEven(v: nat)
    ensures forall d: nat :: IsDouble(d) && d != RoundToDouble(v) && Gap(d, v) == Gap(RoundToDouble(v), v) ==>
      IsEvenInLastPlace(RoundToDouble(v), Pow2(UlpExponent(v)))
  {
    hide RoundToDouble, IsDouble, IsEvenInLastPlace;
    forall d: nat | IsDouble(d) && d != RoundToDouble(v) && Gap(d, v) == Gap(RoundToDouble(v), v)
      ensures IsEvenInLastPlace(RoundToDouble(v), Pow2(UlpExponent(v)))
    {
      TieGoesToEven(v, d);
    }
  }

  ////////// The comparison //////////

  /** The least natural number that the comparison with `exp2(k)` no longer takes for smaller. */
  function Threshold(k: nat): nat {
    if k <= PRECISION then Pow2(k)
    else
      Pow2Increases(k - PRECISION - 1, k);
      Pow2(k) - Pow2(k - PRECISION - 1)
  }

  lemma ExponentBelow(v: nat, k: nat)
    requires v < Pow2(k)
    ensures UlpExponent(v) == 0 || PRECISION - 1 + UlpExponent(v) < k
  {
    var e := UlpExponent(v);
    if e != 0 {
      Pow2Reflects(PRECISION - 1 + e, k);
    }
  }

  lemma ExponentAbove(v: nat, k: nat)
    requires Pow2(k) <= v
    ensures k < PRECISION + UlpExponent(v)
  {
  }

  lemma ExactBelowPrecision(v: nat)
    requires UlpExponent(v) == 0
    ensures RoundToDouble(v) == v
  {
  }

  lemma SmallIsExact(v: nat, k: nat)
    requires v < Pow2(k) && k <= PRECISION
    ensures RoundToDouble(v) == v
  {
    ScaledPowers(0);
    if k < PRECISION {
      Pow2Increases(k, PRECISION);
    }
    ExactBelowPrecision(v);
  }

  lemma RoundingStaysBelow(v: nat, k: nat)
    requires v < Pow2(k)
    ensures RoundToDouble(v) <= Pow2(k)
    ensures k <= PRECISION ==> RoundToDouble(v) == v
  {
    hide RoundToDouble, RoundHalfEven, UlpExponent;
    var e := UlpExponent(v);
    if k <= PRECISION {
      SmallIsExact(v, k);
    } else if e == 0 {
      ExactBelowPrecision(v);
    } else {
      var q, r, ulp := Parts(v);
      ExponentBelow(v, k);
      Pow2Add(k - e, e);
      RoundHalfEvenAtMost(q, r, ulp, Pow2(k - e));
    }
  }

  lemma RoundingStaysAbove(v: nat, k: nat)
    requires Pow2(k) <= v
    ensures Pow2(k) <= RoundToDouble(v)
  {
    hide RoundToDouble, RoundHalfEven, UlpExponent;
    var e := UlpExponent(v);
    ExponentAbove(v, k);
    if e == 0 {
      ExactBelowPrecision(v);
    } else {
      var q, r, ulp := Parts(v);
      ScaledPowers(e);
      RoundHalfEvenAtLeast(q, r, ulp, TWO_TO_THE_52);
      if k < PRECISION - 1 + e {
        Pow2Increases(k, PRECISION - 1 + e);
      }
    }
  }

  lemma ExponentOfBinade(v: nat, k: nat)
    requires PRECISION < k && Pow2(k - 1) <= v < Pow2(k)
    ensures UlpExponent(v) == k - PRECISION
  {
    ExponentBelow(v, k);
    ExponentAbove(v, k - 1);
    if UlpExponent(v) == 0 {
      Pow2Increases(PRECISION, k);
    }
  }

  lemma BinadeParts(v: nat, k: nat) returns (q: nat, r: nat, ulp: nat, b: nat)
    requires PRECISION < k && UlpExponent(v) == k - PRECISION
    ensures r < ulp && v == q * ulp + r && Pow2(k) == b * ulp && b % 2 == 0
    ensures ulp == 2 * Pow2(k - PRECISION - 1)
    ensures RoundToDouble(v) == RoundHalfEven(q, r, ulp)
  {
    q, r, ulp := Parts(v);
    b := TWO_TO_THE_53;
    ScaledPowers(k - PRECISION);
  }

  lemma TopBinade(v: nat, k: nat)
    requires PRECISION < k && Pow2(k - 1) <= v < Pow2(k)
    ensures LessThanExp2(v, k) <==> v < Threshold(k)
  {
    ExponentOfBinade(v, k);
    var q, r, ulp, b := BinadeParts(v, k);
    RoundHalfEvenReaches(v, q, r, ulp, b, Pow2(k));
  }

  /**
   The comparison with `exp2(k)` is exact up to 53 bits. Above, the counts within half a unit in
   the last place below `exp2(k)` round up to it and are taken for not smaller.
   */
  lemma ComparisonIsExactBelowThreshold(v: nat, k: nat)
    ensures LessThanExp2(v, k) <==> v < Threshold(k)
  {
    if Pow2(k) <= v {
      RoundingStaysAbove(v, k);
    } else if k <= PRECISION {
      RoundingStaysBelow(v, k);
    } else if v < Pow2(k - 1) {
      RoundingStaysBelow(v, k - 1);
      if k - PRECISION - 1 < k - 1 {
        Pow2Increases(k - PRECISION - 1, k - 1);
      }
    } else {
      TopBinade(v, k);
    }
  }

  /** Decides `v < exp2(k)` by converting `v` to binary64 first. */
  method CompareWithExp2(v: nat, k: nat) returns (less: bool)
    ensures less <==> v < Threshold(k)
  {
    ComparisonIsExactBelowThreshold(v, k);
    less := RoundToDouble(v) < Pow2(k);
  }
}
