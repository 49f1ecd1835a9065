/**
  Base-prefixed integer literals: `0x`, `0o` and `0b` digits of any length, with an optional sign
  and separator, read as an exact integer and rounded to a double once.
 */
module RadixLiteral {
  import opened Wrappers
  import opened Bits
  import opened Double
  import opened RadixDigits

  datatype F64 = Signed(negative: bool, magnitude: Double)

  /** Rust's `char::to_digit`, for the bases the prefixes name. */
  function ToDigit(c: char, bits: nat): Option<nat> {
    var d := if '0' <= c <= '9' then (c - '0') as nat
             else if 'a' <= c <= 'f' then (c - 'a') as nat + 10
             else if 'A' <= c <= 'F' then (c - 'A') as nat + 10
             else 16;
    if d < Pow2(bits) && d < 16 then Some(d) else None
  }

  function PrefixBits(c: char): nat {
    match c
    case 'x' => 4
    case 'X' => 4
    case 'o' => 3
    case 'O' => 3
    case 'b' => 1
    case 'B' => 1
    case _ => 0
  }

  /** What is left of a literal after its sign. */
  function Unsigned(src: string): string {
    if src != [] && (src[0] == '-' || src[0] == '+') then src[1..] else src
  }

  function WithoutSeparator(body: string, separator: Option<char>): string {
    if body == [] then []
    else (if Some(body[0]) == separator then [] else [body[0]]) + WithoutSeparator(body[1..], separator)
  }

  /** A sign at most, `0`, a radix letter, and digits of that radix with separators anywhere among them. */
  predicate IsRadixLiteral(src: string, separator: Option<char>) {
    var rest := Unsigned(src);
    && |rest| >= 2 && rest[0] == '0' && IsWidth(PrefixBits(rest[1]))
    && var digits := WithoutSeparator(rest[2..], separator);
       digits != [] && forall i | 0 <= i < |digits| :: ToDigit(digits[i], PrefixBits(rest[1])).Some?
  }

  ghost function LiteralBits(src: string): nat
    requires |Unsigned(src)| >= 2
  {
    PrefixBits(Unsigned(src)[1])
  }

  ghost function LiteralDigits(src: string, separator: Option<char>): seq<nat>
    requires IsRadixLiteral(src, separator)
  {
    var digits := WithoutSeparator(Unsigned(src)[2..], separator);
    seq(|digits|, i requires 0 <= i < |digits| => ToDigit(digits[i], LiteralBits(src)).value)
  }

  /** The exact magnitude a literal denotes. */
  ghost function LiteralInteger(src: string, separator: Option<char>): nat
    requires IsRadixLiteral(src, separator)
  {
    Value(LiteralDigits(src, separator), LiteralBits(src))
  }

  predicate IsNegative(src: string) {
    src != [] && src[0] == '-'
  }

  /** The reading: the sign, and the correctly rounded magnitude, of exactly the literals. */
  ghost function ReadRadixLiteral(src: string, separator: Option<char>): Option<F64> {
    if IsRadixLiteral(src, separator)
    then Some(Signed(IsNegative(src), RoundNat(LiteralInteger(src, separator))))
    else None
  }

  lemma {:induction false} WithoutSeparatorSnoc(body: string, c: char, separator: Option<char>)
    ensures WithoutSeparator(body + [c], separator)
            == WithoutSeparator(body, separator) + (if Some(c) == separator then [] else [c])
  {
    if body == [] {
      assert (body + [c])[1..] == [];
    } else {
      assert (body + [c])[1..] == body[1..] + [c];
      WithoutSeparatorSnoc(body[1..], c, separator);
    }
  }

  lemma {:induction false} WithoutSeparatorPrefix(a: string, b: string, separator: Option<char>)
    ensures WithoutSeparator(a + b, separator) == WithoutSeparator(a, separator) + WithoutSeparator(b, separator)
  {
    if a == [] {
      assert a + b == b;
    } else {
      assert (a + b)[1..] == a[1..] + b;
      WithoutSeparatorPrefix(a[1..], b, separator);
    }
  }

  /**
    The value of a base-prefixed literal. It reads exactly the literals, and a literal's magnitude is
    its exact integer, rounded once to the nearest double.
   */
  method RadixLiteralValue(src: string, separator: Option<char>) returns (r: Option<F64>)
    ensures r == ReadRadixLiteral(src, separator)
    ensures r.Some? ==> IsNearestEven(LiteralInteger(src, separator), r.value.magnitude)
  {
    hide Scale, RoundNat, DigitsToF64, Value;
    var negative := IsNegative(src);
    var rest := Unsigned(src);
    if rest == [] || rest[0] != '0' || |rest| < 2 {
      return None;
    }
    var bits := PrefixBits(rest[1]);
    if bits == 0 {
      return None;
    }
    var body := rest[2..];
    var digits: seq<nat> := [];
    for i := 0 to |body|
      invariant |digits| == |WithoutSeparator(body[..i], separator)|
      invariant forall k | 0 <= k < |digits| ::
                  ToDigit(WithoutSeparator(body[..i], separator)[k], bits) == Some(digits[k])
    {
      assert body[..i + 1] == body[..i] + [body[i]];
      WithoutSeparatorSnoc(body[..i], body[i], separator);
      if Some(body[i]) == separator {
        continue;
      }
      var digit := ToDigit(body[i], bits);
      if digit == None {
        assert body == body[..i + 1] + body[i + 1..];
        WithoutSeparatorPrefix(body[..i + 1], body[i + 1..], separator);
        assert WithoutSeparator(body, separator)[|digits|] == body[i];
        return None;
      }
      digits := digits + [digit.value];
    }
    assert body[..|body|] == body;
    if digits == [] {
      return None;
    }
    assert digits == LiteralDigits(src, separator);
    assert AreDigits(digits, bits);
    DigitsToF64IsRoundNat(digits, bits);
    DigitsToF64IsNearestEven(digits, bits);
    r := Some(Signed(negative, DigitsToF64(digits, bits)));
  }
}
