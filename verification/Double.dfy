/**
  The non-negative IEEE 754 binary64 values that integers round to, and the one rounding
  rule everything is compared with: to nearest, ties to even (IEEE 754-2008, section 4.3.1).
 */
module Double {
  import opened Bits

  const PRECISION: nat := 53
  const MAX_EXPONENT: nat := 971

  /** `Fin(m, e)` is `m * 2^e`; a canonical pair is the one encoding of its value. */
  datatype Double = Fin(m: nat, e: nat) | Inf

  predicate Canonical(m: nat, e: nat) {
    m < Pow2(PRECISION) && (e > 0 ==> m >= Pow2(PRECISION - 1)) && e <= MAX_EXPONENT
  }

  /** n shifted right by s, rounded half to even on the bits that drop. */
  function RoundShift(n: nat, s: nat): nat {
    var q, r := Shr(n, s), Low(n, s);
    if s > 0 && (r > Pow2(s - 1) || (r == Pow2(s - 1) && q % 2 == 1)) then q + 1 else q
  }

  /** How many low bits of n do not fit a significand. */
  function Excess(n: nat): nat {
    if BitLength(n) <= PRECISION then 0 else BitLength(n) - PRECISION
  }

  /** The double `m * 2^e`, where a rounding carry may have made m the power of two just too wide. */
  function Pack(m: nat, e: nat): Double {
    var (m', e') := if m == Pow2(PRECISION) then (Pow2(PRECISION - 1), e + 1) else (m, e);
    if e' > MAX_EXPONENT then Inf else Fin(m', e')
  }

  /** An exact integer as a double: Rust's `u128 as f64`, and every other integer conversion here. */
  function RoundNat(n: nat): Double {
    Pack(RoundShift(n, Excess(n)), Excess(n))
  }

  // ---- What "correctly rounded" means, with no reference to how it is computed ----

  /** `m * 2^e` counted in units of the least double, `2^-1074`. */
  ghost function Scaled(m: nat, e: int): nat
    requires e >= -1074
  {
    Scale(m, e + 1074)
  }

  ghost function Distance(a: int, b: int): int {
    if a <= b then b - a else a - b
  }

  /** No finite double `m' * 2^e'` is nearer to n than `m * 2^e`, and one just as near makes m even. */
  ghost predicate NoNearer(n: nat, m: nat, e: nat, m': nat, e': int)
    requires e' >= -1074
  {
    var N, V, W := Scaled(n, 0), Scaled(m, e), Scaled(m', e');
    && Distance(N, V) <= Distance(N, W)
    && (Distance(N, V) == Distance(N, W) && V != W ==> m % 2 == 0)
  }

  /** The least integer that rounds to infinity: half a unit in the last place below `2^1024`. */
  ghost function OverflowThreshold(): nat
  {
    Pow2Monotone(970, 1024);
    Pow2(1024) - Pow2(970)
  }

  ghost predicate IsNearestEven(n: nat, d: Double) {
    match d
    case Inf => n >= OverflowThreshold()
    case Fin(m, e) =>
      && Canonical(m, e)
      && n < OverflowThreshold()
      && forall m': nat, e': int | m' < Pow2(PRECISION) && -1074 <= e' <= MAX_EXPONENT :: NoNearer(n, m, e, m', e')
  }
}
