/** Naturals as bit strings: scaling by powers of two, bit lengths, and the shift and mask operators. */
module Bits {

  /** `a * 2^k`, the left shift that loses nothing. */
  function Scale(a: nat, k: nat): nat {
    if k == 0 then a else 2 * Scale(a, k - 1)
  }

  function Pow2(k: nat): nat {
    Scale(1, k)
  }

  /** The number of significant bits: 128 minus Rust's `leading_zeros` on a u128. */
  function BitLength(n: nat): nat {
    if n == 0 then 0 else 1 + BitLength(n / 2)
  }

  /** Right shift. */
  function Shr(a: nat, k: nat): nat {
    if k == 0 then a else Shr(a / 2, k - 1)
  }

  /** The low k bits. */
  function Low(a: nat, k: nat): nat {
    if k == 0 then 0 else a % 2 + 2 * Low(a / 2, k - 1)
  }

  /** A left shift in a register of `width` bits: the bits shifted out are lost. */
  function Shl(a: nat, k: nat, width: nat): nat {
    Low(Scale(a, k), width)
  }

  /** Bitwise or. */
  function Or(a: nat, b: nat): nat
    decreases a + b
  {
    if a == 0 && b == 0 then 0
    else (if a % 2 == 1 || b % 2 == 1 then 1 else 0) + 2 * Or(a / 2, b / 2)
  }

  /** Bitwise and. */
  function And(a: nat, b: nat): nat
    decreases a
  {
    if a == 0 then 0
    else (if a % 2 == 1 && b % 2 == 1 then 1 else 0) + 2 * And(a / 2, b / 2)
  }

  // ---- Scaling ----

  lemma {:induction false} ScaleAdd(a: nat, b: nat, k: nat)
    ensures Scale(a + b, k) == Scale(a, k) + Scale(b, k)
  {
    if k > 0 {
      ScaleAdd(a, b, k - 1);
    }
  }

  lemma {:induction false} ScalePositive(a: nat, k: nat)
    ensures Scale(a, k) >= a && Pow2(k) >= 1
  {
    if k > 0 {
      ScalePositive(a, k - 1);
    }
  }

  /** Scaling keeps the order, and keeps different numbers at least a unit apart. */
  lemma ScaleOrder(a: nat, b: nat, k: nat)
    ensures a <= b ==> Scale(a, k) <= Scale(b, k)
    ensures a < b ==> Scale(a, k) + Pow2(k) <= Scale(b, k)
    ensures a <= b <==> Scale(a, k) <= Scale(b, k)
  {
    ScalePositive(1, k);
    if a < b {
      ScaleAdd(a, 1, k);
      ScaleAdd(a + 1, b - a - 1, k);
    } else if b < a {
      ScaleAdd(b, 1, k);
      ScaleAdd(b + 1, a - b - 1, k);
    }
  }

  lemma {:induction false} ScaleTwice(a: nat, j: nat, k: nat)
    ensures Scale(Scale(a, j), k) == Scale(a, j + k)
  {
    if k > 0 {
      ScaleTwice(a, j, k - 1);
    }
  }

  lemma {:induction false} ScaleZero(k: nat)
    ensures Scale(0, k) == 0
  {
    if k > 0 {
      ScaleZero(k - 1);
    }
  }

  lemma ScaleDouble(a: nat, k: nat)
    ensures Scale(2 * a, k) == 2 * Scale(a, k) == Scale(a, k + 1)
  {
    ScaleAdd(a, a, k);
  }

  lemma {:induction false} Pow2Monotone(a: nat, b: nat)
    requires a <= b
    ensures 1 <= Pow2(a) <= Pow2(b)
    ensures a < b ==> 2 * Pow2(a) <= Pow2(b)
  {
    ScalePositive(1, a);
    if a < b {
      Pow2Monotone(a, b - 1);
    }
  }

  // ---- Bit lengths ----

  lemma {:induction false} BitLengthBounds(n: nat)
    requires n > 0
    ensures BitLength(n) > 0
    ensures Pow2(BitLength(n) - 1) <= n < Pow2(BitLength(n))
  {
    if n > 1 {
      BitLengthBounds(n / 2);
    }
  }

  lemma {:induction false} BitLengthFromBounds(n: nat, k: nat)
    requires Pow2(k) <= n < Pow2(k + 1)
    ensures BitLength(n) == k + 1
  {
    hide Scale, BitLength;
    ScalePositive(1, k);
    BitLengthBounds(n);
    var b := BitLength(n);
    if b > k + 1 {
      Pow2Monotone(k + 1, b - 1);
    } else if b < k + 1 {
      Pow2Monotone(b, k);
    }
  }

  // ---- Shifts and masks ----

  /** A shift and a mask at the same place split a number without loss. */
  lemma {:induction false} SplitAt(a: nat, k: nat)
    ensures a == Scale(Shr(a, k), k) + Low(a, k)
    ensures Low(a, k) < Pow2(k)
  {
    if k > 0 {
      SplitAt(a / 2, k - 1);
    }
  }

  lemma {:induction false} SplitUnique(a: nat, k: nat, q: nat, r: nat)
    requires a == Scale(q, k) + r && r < Pow2(k)
    ensures Shr(a, k) == q && Low(a, k) == r
  {
    if k > 0 {
      SplitUnique(a / 2, k - 1, q, r / 2);
    }
  }

  /** A number that fits k bits is all low bits. */
  lemma LowOfSmall(a: nat, k: nat)
    requires a < Pow2(k)
    ensures Low(a, k) == a
  {
    ScaleZero(k);
    SplitUnique(a, k, 0, a);
  }

  /** The half bit: the top one of the bits a shift drops. */
  lemma {:induction false} HalfBit(a: nat, k: nat)
    requires k > 0
    ensures Low(a, k) == Scale(Shr(a, k - 1) % 2, k - 1) + Low(a, k - 1)
    ensures Low(a, k - 1) < Pow2(k - 1)
  {
    SplitAt(a, k - 1);
    if k > 1 {
      HalfBit(a / 2, k - 1);
    }
  }

  lemma {:induction false} OrZero(a: nat)
    ensures Or(a, 0) == a
  {
    if a > 0 {
      OrZero(a / 2);
    }
  }

  /** Or fills the cleared low bits that a shift leaves: it adds a value narrower than the shift. */
  lemma {:induction false} OrIsAdd(a: nat, d: nat, k: nat)
    requires d < Pow2(k)
    ensures Or(Scale(a, k), d) == Scale(a, k) + d
  {
    if k == 0 {
      OrZero(a);
    } else {
      OrIsAdd(a, d / 2, k - 1);
    }
  }

  lemma {:induction false} AndZero(a: nat)
    ensures And(a, 0) == 0
  {
    if a > 0 {
      AndZero(a / 2);
    }
  }

  /** Masking with `2^k - 1` keeps the low k bits. */
  lemma {:induction false} AndMaskIsLow(a: nat, k: nat)
    ensures Pow2(k) >= 1 && And(a, Pow2(k) - 1) == Low(a, k)
  {
    ScalePositive(1, k);
    if k == 0 {
      AndZero(a);
    } else if a == 0 {
      LowOfSmall(0, k);
    } else {
      AndMaskIsLow(a / 2, k - 1);
    }
  }
}
