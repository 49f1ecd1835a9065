/**
  Digits of a power-of-two base to a double: `digits_to_f64`, which packs the top digits into a
  u128 and keeps one sticky bit for the rest, and rounds once.
 */
module RadixDigits {
  import opened Bits
  import opened Double
  import opened DoubleProofs

  // ---- The integer a digit run denotes ----

  predicate IsWidth(bits: nat) {
    bits == 1 || bits == 3 || bits == 4
  }

  ghost predicate AreDigits(digits: seq<nat>, bits: nat) {
    forall i | 0 <= i < |digits| :: digits[i] < Pow2(bits)
  }

  /** The bits that n digits of a width take: `bits * n`. */
  function Width(n: nat, bits: nat): nat {
    if n == 0 then 0 else Width(n - 1, bits) + bits
  }

  /** Most significant digit first. */
  function Value(digits: seq<nat>, bits: nat): nat {
    if digits == [] then 0
    else Scale(Value(digits[..|digits| - 1], bits), bits) + digits[|digits| - 1]
  }

  // ---- pow2 and the float operations digits_to_f64 uses ----

  /** `f64::from_bits`, for the patterns of positive finite doubles with an integer value. */
  function FromBits(pattern: nat): Double
    requires 1023 <= Shr(pattern, 52) < 2047
    requires Shr(pattern, 52) < 1075 ==> Low(Pow2(52) + Low(pattern, 52), 1075 - Shr(pattern, 52)) == 0
  {
    var exponent, significand := Shr(pattern, 52), Pow2(52) + Low(pattern, 52);
    if exponent >= 1075 then Fin(significand, exponent - 1075) else Fin(Shr(significand, 1075 - exponent), 0)
  }

  /** `2^k`, saturating to infinity above the double range. */
  function PowerOfTwo(k: nat): Double {
    if k > 1023 then Inf
    else
      PowerOfTwoFields(k);
      FromBits(Shl(k + 1023, 52, 64))
  }

  function Product(a: nat, b: nat): nat {
    a * b
  }

  /** IEEE 754 multiplication of positive doubles: the exact product, rounded. */
  function Multiply(a: Double, b: Double): Double {
    if a == Inf || b == Inf then Inf else RoundNat(Scale(Product(a.m, b.m), a.e + b.e))
  }

  /** The fold that packs a digit run into a u128. */
  function PackDigits(run: seq<nat>, bits: nat): nat {
    if run == [] then 0
    else Or(Shl(PackDigits(run[..|run| - 1], bits), bits, 128), run[|run| - 1])
  }

  function FirstNonZero(digits: seq<nat>): (start: nat)
    ensures start <= |digits|
    ensures forall i | 0 <= i < start :: digits[i] == 0
    ensures start < |digits| ==> digits[start] != 0
  {
    if digits == [] || digits[0] != 0 then 0 else 1 + FirstNonZero(digits[1..])
  }

  /** A u128 holds this many digits. */
  function HeadLen(bits: nat): nat
    requires IsWidth(bits)
  {
    128 / bits
  }

  function DigitsToF64(digits: seq<nat>, bits: nat): Double
    requires IsWidth(bits) && AreDigits(digits, bits)
  {
    var start := FirstNonZero(digits);
    if start == |digits| then Fin(0, 0)
    else
      var significant := digits[start..];
      var headLen := HeadLen(bits);
      if |significant| <= headLen then RoundNat(PackDigits(significant, bits))
      else
        HeadWidth(significant, bits);
        LongDigitsToF64(PackDigits(significant[..headLen], bits), significant[headLen..], bits)
  }

  /** The path for digits that outgrow a u128: the top digits packed, and one sticky bit for the rest. */
  function LongDigitsToF64(head: nat, tail: seq<nat>, bits: nat): Double
    requires 54 <= BitLength(head) <= 128
  {
    var leadingZeros := 128 - BitLength(head);
    var shift := 128 - leadingZeros - 53;
    var dropped := Width(|tail|, bits);
    var tailNonZero := exists i | 0 <= i < |tail| :: tail[i] != 0;
    Multiply(RoundNat(HeadMantissa(head, shift, tailNonZero)), PowerOfTwo(dropped + shift))
  }

  /** The significand a head and the sticky bit of its tail round to: at most `2^53`. */
  function HeadMantissa(head: nat, shift: nat, tailNonZero: bool): nat
    requires shift > 0
  {
    var mantissa := Low(Shr(head, shift), 64);
    var half := And(Shr(head, shift - 1), 1) == 1;
    var sticky := And(head, OnesBelow(shift - 1)) != 0 || tailNonZero;
    if half && (sticky || And(mantissa, 1) == 1) then mantissa + 1 else mantissa
  }

  /** The mask `(1 << k) - 1`. */
  function OnesBelow(k: nat): nat {
    ScalePositive(1, k);
    Pow2(k) - 1
  }

  lemma TwelveBits()
    ensures Pow2(12) == 4096
  {
    assert Scale(1, 6) == 64;
  }

  lemma {:induction false} PowerOfTwoFields(k: nat)
    requires k <= 1023
    ensures Shr(Shl(k + 1023, 52, 64), 52) == k + 1023 && Low(Shl(k + 1023, 52, 64), 52) == 0
    ensures k < 52 ==> Shr(Pow2(52), 52 - k) == Pow2(k) && Low(Pow2(52), 52 - k) == 0
  {
    hide Scale, Shr, Low;
    TwelveBits();
    ScalePositive(1, 52);
    ScaleOrder(k + 1023, Pow2(12), 52);
    ScaleTwice(1, 12, 52);
    LowOfSmall(Scale(k + 1023, 52), 64);
    SplitUnique(Scale(k + 1023, 52), 52, k + 1023, 0);
    if k < 52 {
      ScaleTwice(1, k, 52 - k);
      ScalePositive(1, 52 - k);
      SplitUnique(Pow2(52), 52 - k, Pow2(k), 0);
    }
  }

  // ---- Packing loses nothing ----

  lemma {:induction false} ValueBound(digits: seq<nat>, bits: nat)
    requires AreDigits(digits, bits)
    ensures Value(digits, bits) < Pow2(Width(|digits|, bits))
  {
    hide Scale;
    ScaleByZero(1);
    if digits != [] {
      var n := |digits| - 1;
      ValueBound(digits[..n], bits);
      ScaleOrder(Value(digits[..n], bits), Pow2(Width(n, bits)), bits);
      ScaleTwice(1, Width(n, bits), bits);
    }
  }

  lemma {:induction false} PackIsValue(run: seq<nat>, bits: nat)
    requires AreDigits(run, bits) && Width(|run|, bits) <= 128
    ensures PackDigits(run, bits) == Value(run, bits)
  {
    hide Scale, Low;
    if run != [] {
      var init, last := run[..|run| - 1], run[|run| - 1];
      PackIsValue(init, bits);
      ValueBound(run, bits);
      Pow2Monotone(Width(|run|, bits), 128);
      LowOfSmall(Scale(Value(init, bits), bits), 128);
      OrIsAdd(Value(init, bits), last, bits);
    }
  }

  lemma ScaleByZero(a: nat)
    ensures Scale(a, 0) == a
  {
  }

  lemma {:induction false} ValueConcat(a: seq<nat>, b: seq<nat>, bits: nat)
    ensures Value(a + b, bits) == Scale(Value(a, bits), Width(|b|, bits)) + Value(b, bits)
  {
    hide Scale;
    if b == [] {
      assert a + b == a;
      ScaleByZero(Value(a, bits));
    } else {
      var n := |b| - 1;
      ValueConcat(a, b[..n], bits);
      assert (a + b)[..|a + b| - 1] == a + b[..n];
      ScaleAdd(Scale(Value(a, bits), Width(n, bits)), Value(b[..n], bits), bits);
      ScaleTwice(Value(a, bits), Width(n, bits), bits);
    }
  }

  lemma {:induction false} ZeroValue(digits: seq<nat>, bits: nat)
    ensures Value(digits, bits) == 0 <==> forall i | 0 <= i < |digits| :: digits[i] == 0
  {
    if digits != [] {
      var init := digits[..|digits| - 1];
      ZeroValue(init, bits);
      ScaleZero(bits);
      ScalePositive(Value(init, bits), bits);
      assert forall i | 0 <= i < |init| :: init[i] == digits[i];
    }
  }

  lemma LeadingZerosDrop(digits: seq<nat>, bits: nat)
    ensures Value(digits, bits) == Value(digits[FirstNonZero(digits)..], bits)
  {
    var start := FirstNonZero(digits);
    assert digits == digits[..start] + digits[start..];
    ValueConcat(digits[..start], digits[start..], bits);
    ZeroValue(digits[..start], bits);
    ScaleZero(Width(|digits[start..]|, bits));
  }

  /** A run that starts with a non-zero digit is at least the place value of that digit. */
  lemma LeadingDigitWeight(digits: seq<nat>, bits: nat)
    requires digits != [] && digits[0] != 0
    ensures Value(digits, bits) >= Pow2(Width(|digits| - 1, bits))
  {
    assert digits == digits[..1] + digits[1..];
    ValueConcat(digits[..1], digits[1..], bits);
    var first := digits[..1];
    assert first[..0] == [] && Value([], bits) == 0;
    ScaleZero(bits);
    assert Value(first, bits) == digits[0];
    ScaleOrder(1, digits[0], Width(|digits[1..]|, bits));
  }

  // ---- Head and sticky bit decide the rounding of the whole integer ----

  /** The bits of `head * 2^dropped + rest`, seen from the place where the head is cut. */
  lemma WholeFromHead(head: nat, rest: nat, dropped: nat, shift: nat)
    requires rest < Pow2(dropped)
    ensures var whole := Scale(head, dropped) + rest;
            && Shr(whole, shift + dropped) == Shr(head, shift)
            && Low(whole, shift + dropped) == Scale(Low(head, shift), dropped) + rest
  {
    hide Scale, Shr, Low;
    var q, r := Shr(head, shift), Low(head, shift);
    SplitAt(head, shift);
    ScaleAdd(Scale(q, shift), r, dropped);
    ScaleTwice(q, shift, dropped);
    ScaleOrder(r, Pow2(shift), dropped);
    ScaleTwice(1, shift, dropped);
    SplitUnique(Scale(head, dropped) + rest, shift + dropped, q, Scale(r, dropped) + rest);
  }

  lemma WholeBitLength(head: nat, rest: nat, dropped: nat)
    requires head > 0 && rest < Pow2(dropped)
    ensures BitLength(Scale(head, dropped) + rest) == BitLength(head) + dropped
  {
    hide Scale;
    var b := BitLength(head);
    BitLengthBounds(head);
    ScaleOrder(Pow2(b - 1), head, dropped);
    ScaleOrder(head, Pow2(b), dropped);
    ScaleTwice(1, b - 1, dropped);
    ScaleTwice(1, b, dropped);
    BitLengthFromBounds(Scale(head, dropped) + rest, b - 1 + dropped);
  }

  /** Half bit, sticky bit and parity of the head round the whole integer. */
  lemma HeadRoundsWhole(head: nat, rest: nat, dropped: nat, shift: nat)
    requires rest < Pow2(dropped) && shift > 0
    ensures var mantissa := Shr(head, shift);
            var half := Shr(head, shift - 1) % 2 == 1;
            var sticky := Low(head, shift - 1) != 0 || rest != 0;
            RoundShift(Scale(head, dropped) + rest, shift + dropped)
            == if half && (sticky || mantissa % 2 == 1) then mantissa + 1 else mantissa
  {
    WholeFromHead(head, rest, dropped, shift);
    HalfBit(head, shift);
    hide Scale, Shr, Low;
    var half, low, H := Shr(head, shift - 1) % 2, Low(head, shift - 1), Pow2(shift - 1);
    ScaleZero(shift - 1);
    ScaleAdd(Scale(half, shift - 1), low, dropped);
    ScaleTwice(1, shift - 1, dropped);
    ScaleOrder(low, H, dropped);
    ScaleZero(dropped);
    ScalePositive(low, dropped);
  }

  /** A rounded mantissa times a power of two, as the float product gives it. */
  lemma ProductIsPack(mantissa: nat, k: nat)
    requires Pow2(PRECISION - 1) <= mantissa <= Pow2(PRECISION)
    ensures Multiply(RoundNat(mantissa), PowerOfTwo(k)) == Pack(mantissa, k)
  {
    hide Scale, Multiply, PowerOfTwo, RoundNat;
    ScaleDouble(1, PRECISION - 1);
    ScalePositive(1, PRECISION - 1);
    if mantissa == Pow2(PRECISION) {
      ExactProduct(Pow2(PRECISION - 1), 1, k);
      ScaleByZero(Pow2(PRECISION - 1));
      ScaleDouble(Pow2(PRECISION - 1), 0);
    } else {
      ExactProduct(mantissa, 0, k);
      ScaleByZero(mantissa);
    }
  }

  lemma ExactProduct(m: nat, e: nat, k: nat)
    requires Pow2(PRECISION - 1) <= m < Pow2(PRECISION) && e <= MAX_EXPONENT
    ensures RoundNat(Scale(m, e)) == Fin(m, e)
    ensures Multiply(Fin(m, e), PowerOfTwo(k)) == Pack(m, e + k)
  {
    hide Scale, Product, PowerOfTwo, RoundNat;
    WideIsExact(m, e);
    WideIsExact(m, e + k);
    assert Pack(m, e) == Fin(m, e);
    assert k > 1023 ==> Pack(m, e + k) == Inf;
    hide Pack;
    PowerOfTwoValue(k);
    if k <= 1023 {
      ScaledProduct(m, e, k);
    }
  }

  lemma ScaledProduct(m: nat, e: nat, k: nat)
    ensures Scale(Product(m, Pow2(k)), e) == Scale(m, e + k)
    ensures k >= 52 ==> Scale(Product(m, Pow2(52)), e + (k - 52)) == Scale(m, e + k)
  {
    hide Scale, Product;
    TimesPow2(m, k);
    ScaleTwice(m, k, e);
    if k >= 52 {
      TimesPow2(m, 52);
      ScaleTwice(m, 52, e + (k - 52));
    }
  }

  lemma PowerOfTwoValue(k: nat)
    ensures PowerOfTwo(k) == if k < 52 then Fin(Pow2(k), 0) else if k <= 1023 then Fin(Pow2(52), k - 52) else Inf
  {
    hide Scale, Shr, Low;
    if k <= 1023 {
      PowerOfTwoFields(k);
    }
  }

  lemma {:induction false} TimesPow2(m: nat, j: nat)
    ensures Product(m, Pow2(j)) == Scale(m, j)
  {
    if j > 0 {
      TimesPow2(m, j - 1);
      assert m * (2 * Pow2(j - 1)) == 2 * (m * Pow2(j - 1));
    }
  }

  /** A significand of full width survives rounding at any scale. */
  lemma WideIsExact(m: nat, e: nat)
    requires Pow2(PRECISION - 1) <= m < Pow2(PRECISION)
    ensures RoundNat(Scale(m, e)) == Pack(m, e)
  {
    hide Scale, Shr, Low, BitLength, Pack;
    BitLengthFromBounds(m, PRECISION - 1);
    ScalePositive(1, PRECISION - 1);
    ScalePositive(1, e);
    ScaleByZero(m);
    WholeBitLength(m, 0, e);
    SplitUnique(Scale(m, e), e, m, 0);
    assert e > 0 ==> Pow2(e - 1) >= 1 by {
      if e > 0 {
        ScalePositive(1, e - 1);
      }
    }
    assert RoundShift(Scale(m, e), e) == m;
  }

  /** The packed head of a long run leaves room for a significand, a half bit and a sticky bit. */
  lemma HeadWidth(digits: seq<nat>, bits: nat)
    requires IsWidth(bits) && AreDigits(digits, bits)
    requires |digits| > HeadLen(bits) && digits[0] != 0
    ensures var head := digits[..HeadLen(bits)];
            PackDigits(head, bits) == Value(head, bits) && 54 <= BitLength(PackDigits(head, bits)) <= 128
  {
    hide Scale, Low, HeadLen, Width, Value, PackDigits, BitLength;
    var head := digits[..HeadLen(bits)];
    HeadLenWidths(bits);
    PackIsValue(head, bits);
    LeadingDigitWeight(head, bits);
    ValueBound(head, bits);
    WidthOfBetween(Value(head, bits), Width(|head| - 1, bits), Width(|head|, bits));
  }

  lemma HeadLenWidths(bits: nat)
    requires IsWidth(bits)
    ensures HeadLen(bits) > 0 && Width(HeadLen(bits) - 1, bits) >= 53 && Width(HeadLen(bits), bits) <= 128
  {
    hide Width;
    WidthIsProduct(HeadLen(bits) - 1, bits);
    WidthIsProduct(HeadLen(bits), bits);
  }

  lemma WidthOfBetween(v: nat, lo: nat, hi: nat)
    requires 53 <= lo && hi <= 128 && Pow2(lo) <= v < Pow2(hi)
    ensures 54 <= BitLength(v) <= 128
  {
    hide Scale;
    Pow2Monotone(53, lo);
    Pow2Monotone(hi, 128);
    ScalePositive(1, 53);
    BitLengthBounds(v);
    if BitLength(v) < 54 {
      Pow2Monotone(BitLength(v), 53);
    } else if BitLength(v) > 128 {
      Pow2Monotone(128, BitLength(v) - 1);
    }
  }

  lemma {:induction false} HeadMantissaRoundsWhole(head: nat, rest: nat, dropped: nat)
    requires BitLength(head) >= 54 && rest < Pow2(dropped)
    ensures var shift := BitLength(head) - 53;
            HeadMantissa(head, shift, rest != 0) == RoundShift(Scale(head, dropped) + rest, shift + dropped)
  {
    hide Scale, Shr, Low, And, BitLength, RoundShift;
    var shift := BitLength(head) - 53;
    HeadRoundsWhole(head, rest, dropped, shift);
    AndMaskIsLow(head, shift - 1);
    AndOne(Shr(head, shift - 1));
    AndOne(Shr(head, shift));
    MantissaFits(head);
  }

  lemma LongPathIsRoundNat(head: nat, tail: seq<nat>, bits: nat)
    requires 54 <= BitLength(head) <= 128 && AreDigits(tail, bits)
    ensures LongDigitsToF64(head, tail, bits) == RoundNat(Scale(head, Width(|tail|, bits)) + Value(tail, bits))
  {
    hide Scale, HeadMantissa, RoundShift, Multiply, PowerOfTwo, Pack, Value, Width, BitLength, Low;
    var rest, dropped, shift := Value(tail, bits), Width(|tail|, bits), BitLength(head) - 53;
    var whole := Scale(head, dropped) + rest;
    var tailNonZero := exists i | 0 <= i < |tail| :: tail[i] != 0;
    ValueBound(tail, bits);
    ZeroValue(tail, bits);
    assert tailNonZero == (rest != 0);
    HeadMantissaRoundsWhole(head, rest, dropped);
    EmptyHead(head);
    WholeBitLength(head, rest, dropped);
    assert Excess(whole) == shift + dropped;
    RoundShiftRange(whole);
    assert RoundNat(whole) == Pack(RoundShift(whole, shift + dropped), shift + dropped);
    hide RoundNat;
    ProductIsPack(RoundShift(whole, shift + dropped), shift + dropped);
  }

  lemma EmptyHead(head: nat)
    requires BitLength(head) > 0
    ensures head > 0
  {
  }

  lemma AndOne(a: nat)
    ensures And(a, 1) == a % 2
  {
    AndZero(a / 2);
  }

  lemma MantissaFits(head: nat)
    requires BitLength(head) >= 54
    ensures Low(Shr(head, BitLength(head) - 53), 64) == Shr(head, BitLength(head) - 53)
  {
    hide Scale, Shr, Low;
    WideQuotient(head);
    Pow2Monotone(PRECISION, 64);
    LowOfSmall(Shr(head, BitLength(head) - 53), 64);
  }

  /**
    The conversion rounds once: a digit run of any length becomes the double its exact integer
    rounds to. The head, the half bit and the sticky bit together decide what the whole would.
   */
  lemma DigitsToF64IsRoundNat(digits: seq<nat>, bits: nat)
    requires IsWidth(bits) && AreDigits(digits, bits)
    ensures DigitsToF64(digits, bits) == RoundNat(Value(digits, bits))
  {
    hide Scale, LongDigitsToF64, RoundNat, HeadLen, Value, PackDigits, FirstNonZero;
    LeadingZerosDrop(digits, bits);
    var significant := digits[FirstNonZero(digits)..];
    if significant == [] {
      EmptyValue(bits);
      RoundZero();
    } else if |significant| <= HeadLen(bits) {
      HeadFits(|significant|, bits);
      PackIsValue(significant, bits);
    } else {
      LongRun(significant, bits);
    }
  }

  lemma EmptyValue(bits: nat)
    ensures Value([], bits) == 0
  {
  }

  lemma LongRun(significant: seq<nat>, bits: nat)
    requires IsWidth(bits) && AreDigits(significant, bits)
    requires |significant| > HeadLen(bits) && significant[0] != 0
    ensures var head := PackDigits(significant[..HeadLen(bits)], bits);
            && 54 <= BitLength(head) <= 128
            && LongDigitsToF64(head, significant[HeadLen(bits)..], bits) == RoundNat(Value(significant, bits))
  {
    hide Scale, LongDigitsToF64, RoundNat, HeadLen, Value, PackDigits, Width, BitLength;
    HeadWidth(significant, bits);
    var head, tail := significant[..HeadLen(bits)], significant[HeadLen(bits)..];
    assert significant == head + tail;
    ValueConcat(head, tail, bits);
    LongPathIsRoundNat(PackDigits(head, bits), tail, bits);
  }

  lemma HeadFits(n: nat, bits: nat)
    requires IsWidth(bits) && n <= HeadLen(bits)
    ensures Width(n, bits) <= 128
  {
    WidthIsProduct(n, bits);
  }

  lemma {:induction false} WidthIsProduct(n: nat, bits: nat)
    requires IsWidth(bits)
    ensures Width(n, bits) == if bits == 1 then n else if bits == 3 then 3 * n else 4 * n
  {
    if n > 0 {
      WidthIsProduct(n - 1, bits);
    }
  }

  lemma RoundZero()
    ensures RoundNat(0) == Fin(0, 0)
  {
    hide Scale;
    ScalePositive(1, PRECISION);
  }

  /** So it is the nearest double, the even one of two, and infinity exactly from the IEEE 754 threshold. */
  lemma DigitsToF64IsNearestEven(digits: seq<nat>, bits: nat)
    requires IsWidth(bits) && AreDigits(digits, bits)
    ensures IsNearestEven(Value(digits, bits), DigitsToF64(digits, bits))
  {
    hide Scale;
    DigitsToF64IsRoundNat(digits, bits);
    RoundNatIsNearestEven(Value(digits, bits));
  }
}
