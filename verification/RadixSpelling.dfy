/** The base-prefixed literals once more, as they are written: digits by division, a prefix, a sign, separators. */
module RadixSpelling {
  import opened Wrappers
  import opened Numerals
  import opened Bits
  import opened Double
  import opened RadixDigits
  import opened RadixLiteral

  predicate IsRadixLetter(c: char, radix: nat) {
    || (radix == 16 && (c == 'x' || c == 'X'))
    || (radix == 8 && (c == 'o' || c == 'O'))
    || (radix == 2 && (c == 'b' || c == 'B'))
  }

  /** The digits with separators put anywhere, before, among and after them. */
  predicate IsSpread(body: string, t: string, separator: Option<char>) {
    if body == "" then t == ""
    else if Some(body[0]) == separator then IsSpread(body[1..], t, separator)
    else t != "" && t[0] == body[0] && IsSpread(body[1..], t[1..], separator)
  }

  /** A sign or none, `0`, a radix letter, and the digits of a number with separators among them. */
  ghost predicate IsWrittenIn(src: string, separator: Option<char>, sign: string, letter: char, body: string,
                              t: string, radix: nat, n: nat) {
    && (sign == "" || sign == "+" || sign == "-")
    && src == sign + (['0', letter] + body) && IsRadixLetter(letter, radix)
    && IsSpread(body, t, separator) && t != "" && Denotes(Codes(t), n, radix)
  }

  ghost predicate IsWritten(src: string, separator: Option<char>, negative: bool, n: nat) {
    exists sign: string, letter: char, body: string, t: string, radix: nat ::
      IsWrittenIn(src, separator, sign, letter, body, t, radix, n) && negative == (sign == "-")
  }

  // ---- One digit ----

  lemma DigitExact(c: char, d: nat, bits: nat)
    requires IsWidth(bits) && d < Pow2(bits) <= 16
    ensures ToDigit(c, bits) == Some(d) <==> IsDigitOf(c as nat, d)
  {
  }

  lemma Widths()
    ensures Pow2(1) == 2 && Pow2(3) == 8 && Pow2(4) == 16
  {
  }

  lemma RadixIs(bits: nat)
    requires IsWidth(bits)
    ensures Pow2(bits) == 2 || Pow2(bits) == 8 || Pow2(bits) == 16
  {
    Widths();
  }

  lemma ScaleWidths(v: nat)
    ensures Scale(v, 1) == v * 2 && Scale(v, 3) == v * 8 && Scale(v, 4) == v * 16
  {
  }

  lemma RadixOfLetter(c: char, radix: nat)
    requires IsRadixLetter(c, radix)
    ensures IsWidth(PrefixBits(c)) && Pow2(PrefixBits(c)) == radix
    ensures forall v: nat :: Scale(v, PrefixBits(c)) == v * radix
  {
    Widths();
    forall v: nat ensures Scale(v, PrefixBits(c)) == v * radix {
      ScaleWidths(v);
    }
  }

  lemma LetterOfWidth(c: char)
    requires IsWidth(PrefixBits(c))
    ensures IsRadixLetter(c, Pow2(PrefixBits(c)))
  {
    Widths();
  }

  // ---- Digits and separators ----

  lemma {:induction false} SpreadExact(body: string, t: string, separator: Option<char>)
    ensures IsSpread(body, t, separator) <==> t == WithoutSeparator(body, separator)
  {
    if body != "" {
      if Some(body[0]) == separator {
        SpreadExact(body[1..], t, separator);
      } else {
        var rest := WithoutSeparator(body[1..], separator);
        assert WithoutSeparator(body, separator) == [body[0]] + rest;
        if t != "" {
          SpreadExact(body[1..], t[1..], separator);
          assert t == [t[0]] + t[1..];
        }
      }
    }
  }

  /** The digits of a text, by the reader's own table. */
  ghost predicate AreDigitsOf(t: string, digits: seq<nat>, bits: nat) {
    |digits| == |t| && forall i | 0 <= i < |t| :: ToDigit(t[i], bits) == Some(digits[i])
  }

  lemma {:induction false} ValueDenotes(t: string, digits: seq<nat>, bits: nat)
    requires IsWidth(bits) && 2 <= Pow2(bits) <= 16 && AreDigitsOf(t, digits, bits)
    requires forall v: nat :: Scale(v, bits) == v * Pow2(bits)
    ensures Denotes(Codes(t), Value(digits, bits), Pow2(bits))
    decreases |t|
  {
    hide ToDigit, Pow2, Scale, IsDigitOf;
    var radix := Pow2(bits);
    if t != "" {
      var m := |t| - 1;
      ValueDenotes(t[..m], digits[..m], bits);
      DigitBounds(t[m], digits[m], bits);
      RadixIs(bits);
      LastDigit(Value(digits[..m], bits), digits[m], radix);
      DigitExact(t[m], digits[m], bits);
      assert Codes(t)[..m] == Codes(t[..m]);
    }
  }

  lemma DigitBounds(c: char, d: nat, bits: nat)
    requires ToDigit(c, bits) == Some(d)
    ensures d < Pow2(bits)
  {
  }

  lemma LastDigit(q: nat, d: nat, radix: nat)
    requires d < radix && (radix == 2 || radix == 8 || radix == 16)
    ensures (q * radix + d) / radix == q && (q * radix + d) % radix == d
  {
  }

  /** And a text that denotes a number has the reader's digits, of which that is the value. */
  lemma {:induction false} DenotesDigits(t: string, n: nat, bits: nat)
    requires IsWidth(bits) && 2 <= Pow2(bits) <= 16 && Denotes(Codes(t), n, Pow2(bits))
    ensures forall i | 0 <= i < |t| :: ToDigit(t[i], bits).Some?
    decreases |t|
  {
    hide ToDigit, Pow2, IsDigitOf;
    if t != "" {
      var m, radix := |t| - 1, Pow2(bits);
      var q, d := n / radix, n % radix;
      assert Codes(t)[..m] == Codes(t[..m]);
      DenotesDigits(t[..m], q, bits);
      DigitExact(t[m], d, bits);
    }
  }

  // ---- Whole literals ----

  lemma UnsignedIs(sign: string, letter: char, body: string)
    requires sign == "" || sign == "+" || sign == "-"
    ensures var src := sign + (['0', letter] + body);
            && Unsigned(src) == ['0', letter] + body && Unsigned(src)[2..] == body
            && IsNegative(src) == (sign == "-")
  {
    var rest := ['0', letter] + body;
    var src := sign + rest;
    assert src[|sign|..] == rest && rest[2..] == body;
    assert sign == "" ==> src == rest;
    assert sign != "" ==> src[0] == sign[0] && src[1..] == rest;
  }

  /** Every literal is read as the number its digits write, with its sign, rounded once. */
  lemma RadixReads(src: string, separator: Option<char>, sign: string, letter: char, body: string, t: string,
                   radix: nat, n: nat)
    requires IsWrittenIn(src, separator, sign, letter, body, t, radix, n)
    ensures IsRadixLiteral(src, separator) && LiteralInteger(src, separator) == n
    ensures ReadRadixLiteral(src, separator) == Some(Signed(sign == "-", RoundNat(n)))
  {
    hide Scale, RoundNat, Value, Denotes, ToDigit, PrefixBits, WithoutSeparator, IsSpread, Unsigned, Pow2;
    var bits := PrefixBits(letter);
    UnsignedIs(sign, letter, body);
    RadixOfLetter(letter, radix);
    SpreadExact(body, t, separator);
    DenotesDigits(t, n, bits);
    var digits := LiteralDigits(src, separator);
    assert AreDigitsOf(t, digits, bits);
    ValueDenotes(t, digits, bits);
    DenotesOne(Codes(t), Value(digits, bits), n, radix);
  }

  /** And nothing else is read. */
  lemma RadixAccepts(src: string, separator: Option<char>)
    requires IsRadixLiteral(src, separator)
    ensures IsWritten(src, separator, IsNegative(src), LiteralInteger(src, separator))
  {
    hide Scale, Value, Denotes, ToDigit, PrefixBits, WithoutSeparator, IsSpread, Pow2, IsRadixLetter;
    var rest := Unsigned(src);
    var sign := src[..|src| - |rest|];
    var letter, body := rest[1], rest[2..];
    var bits := PrefixBits(letter);
    var t := WithoutSeparator(body, separator);
    LetterOfWidth(letter);
    RadixBounds(letter);
    RadixOfLetter(letter, Pow2(bits));
    SpreadExact(body, t, separator);
    assert AreDigitsOf(t, LiteralDigits(src, separator), bits);
    ValueDenotes(t, LiteralDigits(src, separator), bits);
    assert rest == ['0', letter] + body;
    assert src == sign + rest;
    assert sign == "" || sign == [src[0]];
    assert IsWrittenIn(src, separator, sign, letter, body, t, Pow2(bits), LiteralInteger(src, separator));
  }

  lemma RadixBounds(letter: char)
    requires IsWidth(PrefixBits(letter))
    ensures 2 <= Pow2(PrefixBits(letter)) <= 16
  {
    Widths();
  }

  /** The literals are exactly the texts so written, and a literal's value is that of the number written. */
  lemma RadixReadsExactly(src: string, separator: Option<char>, r: F64)
    ensures ReadRadixLiteral(src, separator) == Some(r)
            <==> exists negative: bool, n: nat ::
                   IsWritten(src, separator, negative, n) && r == Signed(negative, RoundNat(n))
  {
    hide RoundNat, IsRadixLiteral, LiteralInteger, IsWrittenIn;
    if ReadRadixLiteral(src, separator) == Some(r) {
      RadixAccepts(src, separator);
    }
    if negative: bool, n: nat :| IsWritten(src, separator, negative, n) && r == Signed(negative, RoundNat(n)) {
      var sign: string, letter: char, body: string, t: string, radix: nat :|
        IsWrittenIn(src, separator, sign, letter, body, t, radix, n) && negative == (sign == "-");
      RadixReads(src, separator, sign, letter, body, t, radix, n);
    }
  }

  /** Every number has a literal in each radix, under each of its letters, in either letter case. */
  lemma EveryNumberIsRead(n: nat, radix: nat, letter: char, upper: bool, sign: string)
    requires IsRadixLetter(letter, radix) && (sign == "" || sign == "+" || sign == "-")
    ensures var src := sign + (['0', letter] + Chars(Numeral(n, radix, upper)));
            ReadRadixLiteral(src, None) == Some(Signed(sign == "-", RoundNat(n)))
  {
    hide RoundNat, Denotes, Numeral, IsSpread;
    var t := Chars(Numeral(n, radix, upper));
    var src := sign + (['0', letter] + t);
    NumeralDenotes(n, radix, upper);
    WithoutNone(t);
    SpreadExact(t, t, None);
    assert IsWrittenIn(src, None, sign, letter, t, t, radix, n);
    RadixReads(src, None, sign, letter, t, t, radix, n);
  }

  lemma {:induction false} WithoutNone(t: string)
    ensures WithoutSeparator(t, None) == t
  {
    if t != "" {
      WithoutNone(t[1..]);
    }
  }
}
