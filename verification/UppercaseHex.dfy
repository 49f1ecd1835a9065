/**
  The `0X` literal that each port converts in code: TypeScript through parseInt, Rust through
  `radix_literal_value`, Go through a 64-bit integer.
 */
module UppercaseHex {
  import opened Wrappers
  import opened Bits
  import opened Double
  import opened DoubleProofs
  import opened RadixDigits
  import opened RadixLiteral

  /** What `/^[+-]?0X[0-9a-fA-F]+/` matches. */
  predicate IsUppercaseHex(src: string) {
    IsRadixLiteral(src, None) && Unsigned(src)[1] == 'X'
  }

  ghost function Magnitude(src: string): nat
    requires IsUppercaseHex(src)
  {
    LiteralInteger(src, None)
  }

  /** A Go int64 as a float64, which has no negative zero to give. */
  function IntToF64(n: int): F64 {
    Signed(n < 0, RoundNat(if n < 0 then -n else n))
  }

  /** strconv.ParseInt answers the largest int64 on overflow, and its error is dropped. */
  ghost function GoUppercaseHex(src: string): F64
    requires IsUppercaseHex(src)
  {
    var v := Magnitude(src);
    var n := if v < Pow2(63) then v else OnesBelow(63);
    IntToF64(if IsNegative(src) then -n else n)
  }

  /** parseInt rounds the exact integer, and the sign is a float factor, so a zero keeps it. */
  ghost function TsUppercaseHex(src: string): F64
    requires IsUppercaseHex(src)
  {
    Signed(IsNegative(src), RoundNat(Magnitude(src)))
  }

  /** Rust and TypeScript agree on every literal. */
  lemma RustMatchesTypeScript(src: string)
    requires IsUppercaseHex(src)
    ensures ReadRadixLiteral(src, None) == Some(TsUppercaseHex(src))
  {
  }

  /** The integers that round to `2^63`: up to half a unit in the last place above it. */
  lemma RoundsToTwo63(v: nat)
    requires v >= Pow2(63)
    ensures RoundNat(v) == Fin(Pow2(52), 11) <==> v <= Pow2(63) + 1024
  {
    hide Scale, RoundNat;
    if v < Pow2(64) {
      NextBinade(v);
    } else {
      Pow2Monotone(63, 64);
      TenBits();
      Pow2Monotone(11, 63);
      HigherBinade(v);
    }
  }

  lemma TenBits()
    ensures Pow2(10) == 1024 && Pow2(11) == 2048
  {
  }

  lemma HigherBinade(v: nat)
    requires v >= Pow2(64)
    ensures RoundNat(v) != Fin(Pow2(52), 11)
  {
    hide Scale, RoundShift, BitLength;
    Pow2Monotone(0, 64);
    ScaleByZero(1);
    BitLengthBounds(v);
    if BitLength(v) < 65 {
      Pow2Monotone(BitLength(v), 64);
    }
  }

  lemma NextBinade(v: nat)
    requires Pow2(63) <= v < Pow2(64)
    ensures RoundNat(v) == Fin(Pow2(52), 11) <==> v <= Pow2(63) + 1024
  {
    hide Scale, Shr, Low, BitLength;
    var q, r := Shr(v, 11), Low(v, 11);
    BitLengthFromBounds(v, 63);
    SplitAt(v, 11);
    WideQuotient(v);
    TenBits();
    ScaleTwice(1, 52, 11);
    ScaleOrder(Pow2(52) + 1, q, 11);
    ScaleAdd(Pow2(52), 1, 11);
    ScaleDouble(1, 51);
    ScaleDouble(1, 52);
    ScalePositive(1, 52);
  }

  /** The largest int64 is 53 ones over ten more, and rounds up. */
  lemma LargestInt64()
    ensures RoundNat(OnesBelow(63)) == Fin(Pow2(52), 11)
  {
    hide Scale, Shr, Low, BitLength;
    TenBits();
    Pow2Monotone(53, 62);
    Pow2Monotone(11, 53);
    ScaleDouble(1, 62);
    BitLengthFromBounds(OnesBelow(63), 62);
    ScaleTwice(1, 53, 10);
    ScaleAdd(OnesBelow(53), 1, 10);
    SplitUnique(OnesBelow(63), 10, OnesBelow(53), OnesBelow(10));
    OddOnes(53);
    ScaleDouble(1, 9);
  }

  lemma OddOnes(k: nat)
    requires k > 0
    ensures OnesBelow(k) % 2 == 1
  {
    hide Scale;
    ScaleDouble(1, k - 1);
    assert Pow2(k) == 2 * Pow2(k - 1);
  }

  /**
    Where Go's 64-bit detour matters: it gives the other ports' value exactly when the magnitude is
    at most half a unit above `2^63`, where saturation rounds the same way, and the literal is not a
    negative zero.
   */
  lemma GoMatchesExactly(src: string)
    requires IsUppercaseHex(src)
    ensures GoUppercaseHex(src) == TsUppercaseHex(src)
            <==> Magnitude(src) <= Pow2(63) + 1024 && !(IsNegative(src) && Magnitude(src) == 0)
    ensures Some(GoUppercaseHex(src)) == ReadRadixLiteral(src, None) <==> GoUppercaseHex(src) == TsUppercaseHex(src)
  {
    RustMatchesTypeScript(src);
    hide Scale, RoundNat, Magnitude, IsUppercaseHex;
    var v := Magnitude(src);
    Pow2Monotone(11, 63);
    TenBits();
    if v >= Pow2(63) {
      RoundsToTwo63(v);
      LargestInt64();
    }
  }

  /** A negative zero is one failure: Go drops its sign. */
  lemma GoDropsNegativeZero(src: string)
    requires src == "-0X0"
    ensures IsUppercaseHex(src) && GoUppercaseHex(src) != TsUppercaseHex(src)
  {
    hide Scale, RoundNat, Value, WithoutSeparator, ToDigit;
    BinaryLookingDigits(src, 1);
    ZeroValue(LiteralDigits(src, None), 4);
    GoMatchesExactly(src);
  }

  /** Seventeen digits are the other: Go answers `2^63` for `2^64`. */
  lemma GoSaturates(src: string)
    requires src == "0X10000000000000000"
    ensures IsUppercaseHex(src) && GoUppercaseHex(src) != TsUppercaseHex(src)
  {
    hide Scale, RoundNat, Value, WithoutSeparator, ToDigit, Width;
    BinaryLookingDigits(src, 17);
    LeadingDigitWeight(LiteralDigits(src, None), 4);
    WidthIsProduct(16, 4);
    Pow2Monotone(63, 64);
    TenBits();
    Pow2Monotone(11, 63);
    GoMatchesExactly(src);
  }

  /** A literal written with the digits 0 and 1 alone. */
  lemma BinaryLookingDigits(src: string, n: nat)
    requires var rest := Unsigned(src); n > 0 && |rest| == n + 2 && rest[0] == '0' && rest[1] == 'X'
    requires forall i | 2 <= i < n + 2 :: Unsigned(src)[i] == '0' || Unsigned(src)[i] == '1'
    ensures IsUppercaseHex(src) && |LiteralDigits(src, None)| == n
    ensures forall i | 0 <= i < n :: LiteralDigits(src, None)[i] == if Unsigned(src)[i + 2] == '0' then 0 else 1
  {
    assert Pow2(4) == 16;
    NothingSeparated(Unsigned(src)[2..]);
  }

  lemma {:induction false} NothingSeparated(body: string)
    ensures WithoutSeparator(body, None) == body
  {
    if body != [] {
      NothingSeparated(body[1..]);
    }
  }
}
