/** `RoundNat` is correctly rounded, and correct rounding has one answer. */
module DoubleProofs {
  import opened Bits
  import opened Double

  // ---- Where the doubles are ----

  /** Between `q * 2^s` and the next multiple of `2^s` there is no double, when q fills the significand. */
  lemma Gap(q: nat, s: nat, m': nat, e': int)
    requires q >= Pow2(PRECISION - 1) && m' < Pow2(PRECISION) && e' >= -1074
    ensures Scaled(m', e') <= Scaled(q, s) || Scaled(m', e') >= Scaled(q + 1, s)
  {
    hide Scale;
    if e' >= s {
      ScaleTwice(m', (e' - s) as nat, s + 1074);
      var k := Scale(m', (e' - s) as nat);
      ScaleOrder(k, q, s + 1074);
      ScaleOrder(q + 1, k, s + 1074);
    } else {
      FinerIsBelow(m', e' + 1074, q, s + 1074);
    }
  }

  /** A significand one binade up outweighs every smaller exponent. */
  lemma FinerIsBelow(m: nat, e: nat, q: nat, s: nat)
    requires e < s && q >= Pow2(PRECISION - 1) && m < Pow2(PRECISION)
    ensures Scale(m, e) < Scale(q, s)
  {
    hide Scale;
    ScalePositive(1, e);
    ScaleOrder(m, Pow2(PRECISION), e);
    ScaleTwice(1, PRECISION, e);
    Pow2Monotone(PRECISION + e, PRECISION - 1 + s);
    ScaleTwice(1, PRECISION - 1, s);
    ScaleOrder(Pow2(PRECISION - 1), q, s);
  }

  // ---- The rounding step ----

  /** The quotient of an integer too wide for the significand exactly fills it. */
  lemma WideQuotient(n: nat)
    requires Excess(n) > 0
    ensures Pow2(PRECISION - 1) <= Shr(n, Excess(n)) < Pow2(PRECISION)
  {
    hide Scale;
    var s := Excess(n);
    var q := Shr(n, s);
    BitLengthBounds(n);
    SplitAt(n, s);
    ScaleTwice(1, PRECISION - 1, s);
    ScaleTwice(1, PRECISION, s);
    ScaleOrder(q, Pow2(PRECISION - 1), s);
    ScaleOrder(Pow2(PRECISION), q, s);
  }

  lemma NarrowIsExact(n: nat)
    requires Excess(n) == 0
    ensures n < Pow2(PRECISION) && RoundShift(n, 0) == n
  {
    hide Scale;
    if n > 0 {
      BitLengthBounds(n);
      Pow2Monotone(BitLength(n), PRECISION);
    } else {
      Pow2Monotone(0, PRECISION);
    }
  }

  /** Rounding to the nearer end of the gap, and to the even end from its middle. */
  lemma RoundShiftNearest(n: nat, m': nat, e': int)
    requires Excess(n) > 0 && m' < Pow2(PRECISION) && e' >= -1074
    ensures NoNearer(n, RoundShift(n, Excess(n)), Excess(n), m', e')
  {
    hide Scale;
    var s := Excess(n);
    var q, r, h := Shr(n, s), Low(n, s), Pow2(s - 1);
    WideQuotient(n);
    Gap(q, s, m', e');
    SplitAt(n, s);
    ScaleAdd(Scale(q, s), r, 1074);
    ScaleTwice(q, s, 1074);
    ScaleAdd(q, 1, s + 1074);
    ScaleTwice(1, s, 1074);
    ScaleTwice(1, s - 1, 1074);
    ScaleDouble(1, s - 1);
    ScaleDouble(h, 1074);
    ScaleOrder(r, 2 * h, 1074);
    ScaleOrder(r, h, 1074);
    ScaleOrder(h, r, 1074);
  }

  /** Renormalising after a carry keeps the value, and keeps it even. */
  lemma PackValue(m: nat, e: nat)
    requires m <= Pow2(PRECISION) && Pack(m, e).Fin?
    ensures Scaled(Pack(m, e).m, Pack(m, e).e) == Scaled(m, e)
    ensures m % 2 == 0 ==> Pack(m, e).m % 2 == 0
  {
    hide Scale;
    ScaleDouble(1, PRECISION - 1);
    ScaleDouble(1, PRECISION - 2);
    ScaleDouble(Pow2(PRECISION - 1), e + 1074);
  }

  lemma RoundShiftRange(n: nat)
    ensures RoundShift(n, Excess(n)) <= Pow2(PRECISION)
    ensures Excess(n) > 0 ==> RoundShift(n, Excess(n)) >= Pow2(PRECISION - 1)
  {
    hide Scale;
    if Excess(n) > 0 {
      WideQuotient(n);
    } else {
      NarrowIsExact(n);
    }
  }

  // ---- Overflow ----

  /** Packing overflows exactly from half a unit in the last place below `2^1024`. */
  lemma OverflowExact(n: nat)
    ensures RoundNat(n) == Inf <==> n >= OverflowThreshold()
  {
    hide Scale;
    var s := Excess(n);
    Pow2Monotone(970, 1023);
    Pow2Monotone(1023, 1024);
    RoundShiftRange(n);
    if s == 0 {
      NarrowIsExact(n);
      Pow2Monotone(PRECISION, 1023);
    } else {
      BitLengthBounds(n);
      if s < MAX_EXPONENT {
        Pow2Monotone(BitLength(n), 1023);
      } else if s > MAX_EXPONENT {
        Pow2Monotone(1024, BitLength(n) - 1);
      } else {
        LastBinade(n);
      }
    }
  }

  /** In the last binade only a carry overflows, and it needs at least the half bit over all ones. */
  lemma {:induction false} LastBinade(n: nat)
    requires Excess(n) == MAX_EXPONENT
    ensures RoundShift(n, Excess(n)) == Pow2(PRECISION) <==> n >= OverflowThreshold()
  {
    hide Scale, Shr, Low, BitLength;
    var s, top := MAX_EXPONENT, Pow2(PRECISION);
    var q, half := Shr(n, s), Pow2(s - 1);
    WideQuotient(n);
    SplitAt(n, s);
    ScaleDouble(1, s - 1);
    ScaleDouble(1, PRECISION - 1);
    ScaleTwice(1, PRECISION, s);
    ScaleOrder(q, top - 1, s);
    ScaleAdd(top - 1, 1, s);
    Pow2Monotone(970, 1024);
    LastCarry(q, top, Scale(q, s), Scale(top - 1, s), Low(n, s), half);
  }

  /** A quotient below an even power rounds up to it exactly from the half bit over all ones. */
  lemma LastCarry(q: nat, top: nat, sq: nat, last: nat, r: nat, half: nat)
    requires q < top && top % 2 == 0 && r < 2 * half
    requires if q == top - 1 then sq == last else sq + 2 * half <= last
    ensures (if r > half || (r == half && q % 2 == 1) then q + 1 else q) == top <==> sq + r >= last + half
  {
  }

  // ---- The main result ----

  /** `RoundNat` picks the nearest finite double, the even one of two, and overflows where IEEE 754 says. */
  lemma RoundNatIsNearestEven(n: nat)
    ensures IsNearestEven(n, RoundNat(n))
  {
    hide Scale;
    OverflowExact(n);
    RoundShiftRange(n);
    var d, s := RoundNat(n), Excess(n);
    if d.Fin? {
      PackCanonical(n);
      PackValue(RoundShift(n, s), s);
      forall m': nat, e': int | m' < Pow2(PRECISION) && -1074 <= e' <= MAX_EXPONENT
        ensures NoNearer(n, d.m, d.e, m', e')
      {
        if s > 0 {
          RoundShiftNearest(n, m', e');
        } else {
          NarrowIsExact(n);
        }
      }
    }
  }

  lemma PackCanonical(n: nat)
    requires RoundNat(n).Fin?
    ensures Canonical(RoundNat(n).m, RoundNat(n).e)
  {
    hide Scale;
    ScalePositive(1, PRECISION - 1);
    ScaleDouble(1, PRECISION - 1);
    RoundShiftRange(n);
    if Excess(n) == 0 {
      NarrowIsExact(n);
    }
  }

  /** Two canonical pairs with one value are one pair. */
  lemma CanonicalUnique(m1: nat, e1: nat, m2: nat, e2: nat)
    requires Canonical(m1, e1) && Canonical(m2, e2) && Scaled(m1, e1) == Scaled(m2, e2)
    ensures m1 == m2 && e1 == e2
  {
    hide Scale;
    if e1 < e2 {
      FinerIsBelow(m1, e1 + 1074, m2, e2 + 1074);
    } else if e2 < e1 {
      FinerIsBelow(m2, e2 + 1074, m1, e1 + 1074);
    } else {
      ScaleOrder(m1, m2, e1 + 1074);
      ScaleOrder(m2, m1, e1 + 1074);
    }
  }

  /** Between two doubles of even significand lies another. */
  lemma DoubleBetween(m1: nat, e1: nat, m2: nat, e2: nat)
    requires Canonical(m1, e1) && Canonical(m2, e2) && m1 % 2 == 0 && m2 % 2 == 0
    requires Scaled(m1, e1) < Scaled(m2, e2)
    ensures m1 + 1 < Pow2(PRECISION)
    ensures Scaled(m1, e1) < Scaled(m1 + 1, e1) < Scaled(m2, e2)
  {
    hide Scale;
    ScaleDouble(1, PRECISION - 1);
    ScalePositive(1, e1 + 1074);
    ScaleAdd(m1, 1, e1 + 1074);
    if e2 < e1 {
      FinerIsBelow(m2, e2 + 1074, m1, e1 + 1074);
    } else {
      ScaleTwice(m2, e2 - e1, e1 + 1074);
      ScaleDouble(m2 / 2, e2 - e1);
      var k := Scale(m2, e2 - e1);
      ScaleOrder(k, m1, e1 + 1074);
      ScaleOrder(k, m1 + 1, e1 + 1074);
    }
  }

  /** Of two doubles of even significand, neither is nearest to an integer midway between them. */
  lemma MidpointOfEvens(n: nat, m1: nat, e1: nat, m2: nat, e2: nat)
    requires Canonical(m1, e1) && Canonical(m2, e2) && m1 % 2 == 0 && m2 % 2 == 0
    requires Scaled(m1, e1) < Scaled(m2, e2)
    requires Distance(Scaled(n, 0), Scaled(m1, e1)) == Distance(Scaled(n, 0), Scaled(m2, e2))
    ensures m1 + 1 < Pow2(PRECISION)
    ensures !NoNearer(n, m1, e1, m1 + 1, e1)
  {
    hide Scale;
    DoubleBetween(m1, e1, m2, e2);
  }

  /** Correct rounding has one answer, so `IsNearestEven` pins every bit of the result. */
  lemma NearestEvenUnique(n: nat, d1: Double, d2: Double)
    requires IsNearestEven(n, d1) && IsNearestEven(n, d2)
    ensures d1 == d2
  {
    hide Scale;
    if d1.Fin? && d2.Fin? {
      assert NoNearer(n, d1.m, d1.e, d2.m, d2.e) && NoNearer(n, d2.m, d2.e, d1.m, d1.e);
      if Scaled(d1.m, d1.e) == Scaled(d2.m, d2.e) {
        CanonicalUnique(d1.m, d1.e, d2.m, d2.e);
      } else if Scaled(d1.m, d1.e) < Scaled(d2.m, d2.e) {
        MidpointOfEvens(n, d1.m, d1.e, d2.m, d2.e);
      } else {
        MidpointOfEvens(n, d2.m, d2.e, d1.m, d1.e);
      }
    }
  }
}
