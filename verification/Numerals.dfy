/** Numbers written in digits, by division: what the readers of the repository are held to. */
module Numerals {

  const LOWER := "0123456789abcdef"
  const UPPER := "0123456789ABCDEF"

  predicate IsDigitOf(c: nat, d: nat)
    requires d < 16
  {
    c == LOWER[d] as nat || c == UPPER[d] as nat
  }

  /** The characters write a number: the last digit is the remainder, and those before it write the quotient. */
  predicate Denotes(t: seq<nat>, n: nat, radix: nat)
    requires 2 <= radix <= 16
  {
    if t == [] then n == 0 else IsDigitOf(t[|t| - 1], n % radix) && Denotes(t[..|t| - 1], n / radix, radix)
  }

  /** A number written with no more digits than it needs, in either letter case. */
  function Numeral(n: nat, radix: nat, upper: bool): (t: seq<nat>)
    requires 2 <= radix <= 16
    ensures t != [] && forall i | 0 <= i < |t| :: t[i] < 0x80
    decreases n
  {
    var c := (if upper then UPPER else LOWER)[n % radix] as nat;
    if n < radix then [c] else Shrinks(n, radix); Numeral(n / radix, radix, upper) + [c]
  }

  lemma Shrinks(n: nat, radix: nat)
    requires 2 <= radix <= n
    ensures n / radix < n
  {
    assert n == n / radix * radix + n % radix;
    if n / radix >= n {
      Doubles(n / radix, radix);
    }
  }

  lemma Doubles(q: nat, radix: nat)
    requires radix >= 2
    ensures q * radix >= 2 * q
  {
  }

  lemma {:induction false} NumeralDenotes(n: nat, radix: nat, upper: bool)
    requires 2 <= radix <= 16
    ensures Denotes(Numeral(n, radix, upper), n, radix)
    decreases n
  {
    var t := Numeral(n, radix, upper);
    if n < radix {
      SmallDivides(n, radix);
      assert t[..0] == [];
    } else {
      Shrinks(n, radix);
      NumeralDenotes(n / radix, radix, upper);
      assert t[..|t| - 1] == Numeral(n / radix, radix, upper);
    }
  }

  lemma SmallDivides(n: nat, radix: nat)
    requires n < radix
    ensures n / radix == 0 && n % radix == n
  {
  }

  /** A text denotes one number at most. */
  lemma {:induction false} DenotesOne(t: seq<nat>, n: nat, m: nat, radix: nat)
    requires 2 <= radix <= 16 && Denotes(t, n, radix) && Denotes(t, m, radix)
    ensures n == m
    decreases |t|
  {
    if t != [] {
      hide Denotes, IsDigitOf;
      var k := |t| - 1;
      var q, d := Divided(t, n, radix);
      var p, e := Divided(t, m, radix);
      DenotesOne(t[..k], q, p, radix);
      SameDigit(t[k], d, e);
    }
  }

  lemma SameDigit(c: nat, d: nat, e: nat)
    requires d < 16 && e < 16 && IsDigitOf(c, d) && IsDigitOf(c, e)
    ensures d == e
  {
  }

  /** The last step of the writing. */
  lemma Divided(t: seq<nat>, n: nat, radix: nat) returns (q: nat, d: nat)
    requires 2 <= radix <= 16 && t != [] && Denotes(t, n, radix)
    ensures d < radix && n == q * radix + d && IsDigitOf(t[|t| - 1], d) && Denotes(t[..|t| - 1], q, radix)
  {
    hide IsDigitOf;
    q, d := n / radix, n % radix;
    DividesBack(n, radix);
  }

  lemma DividesBack(n: nat, radix: nat)
    requires radix > 0
    ensures n == n / radix * radix + n % radix && n % radix < radix
  {
  }

  function Codes(s: string): (t: seq<nat>)
    ensures |t| == |s| && forall i | 0 <= i < |s| :: t[i] == s[i] as nat
  {
    seq(|s|, i requires 0 <= i < |s| => s[i] as nat)
  }

  function Chars(t: seq<nat>): (s: string)
    requires forall i | 0 <= i < |t| :: t[i] < 0x80
    ensures Codes(s) == t
  {
    seq(|t|, i requires 0 <= i < |t| => t[i] as char)
  }
}
