/** What the canonical form of a number and of a string looks like, with no reference to how it is written. */
module CanonSpelling {
  import opened Numerals
  import opened Canon
  import opened Ordering

  // ---- Digits ----

  predicate AllLower(s: string) {
    forall i | 0 <= i < |s| :: s[i] in LOWER
  }

  lemma {:induction false} HexDenotes(v: nat, n: nat)
    requires v < Pow16(n)
    ensures Denotes(Codes(HexText(v, n)), v, 16) && AllLower(HexText(v, n))
  {
    var t := HexText(v, n);
    if n > 0 {
      HexDenotes(v / 16, n - 1);
      assert Codes(t)[..n - 1] == Codes(HexText(v / 16, n - 1));
    }
  }

  lemma SixteenBound()
    ensures Pow16(4) == 0x1_0000 && Pow16(16) == 0x1_0000_0000_0000_0000
  {
    assert Pow16(2) == 0x100 && Pow16(4) == 0x1_0000;
    assert Pow16(6) == 0x100_0000 && Pow16(8) == 0x1_0000_0000;
    assert Pow16(10) == 0x100_0000_0000 && Pow16(12) == 0x1_0000_0000_0000;
    assert Pow16(14) == 0x100_0000_0000_0000;
  }

  // ---- Numbers ----

  /** A hash and the sixteen lower-case hexadecimal digits that write the bits. */
  ghost predicate IsBits(text: string, bits: nat) {
    |text| == 17 && text[0] == '#' && AllLower(text[1..]) && Denotes(Codes(text[1..]), bits, 16)
  }

  /**
    The text of a double by its fields: "NaN" exactly for the greatest exponent with a significand, the name of
    an infinity exactly for the greatest exponent with none, by the sign, and for every other double its bits.
   */
  lemma NumberByFields(bits: nat)
    requires bits < 0x1_0000_0000_0000_0000
    ensures var text, top := NumberText(bits), Exponent(bits) == 2047;
            && (text == "NaN" <==> top && Significand(bits) != 0)
            && (text == "Infinity" <==> top && Significand(bits) == 0 && SignBit(bits) == 0)
            && (text == "-Infinity" <==> top && Significand(bits) == 0 && SignBit(bits) == 1)
            && (IsBits(text, bits) <==> !top)
  {
    NaNByFields(bits);
    InfinityByFields(bits);
    SignIsBit(bits);
    SixteenBound();
    HexDenotes(bits, 16);
    hide HexText, Denotes, Exponent, Significand, SignBit, IsNaN, Pow16, AllLower;
    var hex := HexText(bits, 16);
    assert ("#" + hex)[1..] == hex;
  }

  lemma SignIsBit(bits: nat)
    requires bits < 0x1_0000_0000_0000_0000
    ensures SignBit(bits) == 0 || SignBit(bits) == 1
  {
  }

  // ---- Strings ----

  /** How a unit is written: a printable ASCII character by itself, behind a backslash if it is a quote or a
      backslash, and any other unit by four digits. */
  ghost predicate Writes(text: string, c: Unit) {
    if ' ' as nat <= c <= '~' as nat then
      text == (if c == '"' as nat || c == '\\' as nat then ['\\'] else []) + [c as char]
    else
      |text| == 6 && text[..2] == ['\\', 'u'] && AllLower(text[2..]) && Denotes(Codes(text[2..]), c, 16)
  }

  lemma UnitWritten(c: Unit)
    ensures Writes(QuoteUnit(c), c)
  {
    if !(0x20 <= c <= 0x7E) {
      SixteenBound();
      HexDenotes(c, 4);
      hide HexText, Denotes, Pow16, AllLower;
      var hex := HexText(c, 4);
      assert ("\\u" + hex)[2..] == hex && ("\\u" + hex)[..2] == ['\\', 'u'];
    }
  }

  /** The pieces of a text one after another. */
  function Pieced(pieces: seq<string>): string {
    if pieces == [] then "" else pieces[0] + Pieced(pieces[1..])
  }

  /** A quoted string is a piece for every unit, in order, between double quotes. */
  ghost predicate IsQuoted(text: string, units: seq<Unit>) {
    exists pieces: seq<string> ::
      && |pieces| == |units| && (forall i | 0 <= i < |units| :: Writes(pieces[i], units[i]))
      && text == ['"'] + Pieced(pieces) + ['"']
  }

  lemma {:induction false} UnitsWritten(units: seq<Unit>) returns (pieces: seq<string>)
    ensures |pieces| == |units| && (forall i | 0 <= i < |units| :: Writes(pieces[i], units[i]))
    ensures Pieced(pieces) == QuoteUnits(units)
  {
    hide Writes, QuoteUnit;
    if units == [] {
      pieces := [];
    } else {
      var rest := UnitsWritten(units[1..]);
      UnitWritten(units[0]);
      pieces := [QuoteUnit(units[0])] + rest;
      assert pieces[1..] == rest;
    }
  }

  /** The quoted form of a string is the text so written, and no other text is. */
  lemma QuotedIsWritten(units: seq<Unit>, text: string)
    ensures text == Quoted(units) <==> IsQuoted(text, units)
  {
    hide Writes, QuoteUnits, Pieced;
    var pieces := UnitsWritten(units);
    if IsQuoted(text, units) {
      var others: seq<string> :|
        && |others| == |units| && (forall i | 0 <= i < |units| :: Writes(others[i], units[i]))
        && text == ['"'] + Pieced(others) + ['"'];
      forall i | 0 <= i < |units| ensures others[i] == pieces[i] {
        WrittenOne(others[i], pieces[i], units[i]);
      }
      assert others == pieces;
    }
  }

  lemma WrittenOne(s: string, t: string, c: Unit)
    requires Writes(s, c) && Writes(t, c)
    ensures s == t
  {
    if !(0x20 <= c <= 0x7E) {
      hide Denotes, AllLower, LOWER;
      SameDigits(s[2..], t[2..], c);
      assert s == s[..2] + s[2..] && t == t[..2] + t[2..];
    }
  }

  lemma {:induction false} SameDigits(s: string, t: string, n: nat)
    requires |s| == |t| && AllLower(s) && AllLower(t) && Denotes(Codes(s), n, 16) && Denotes(Codes(t), n, 16)
    ensures s == t
    decreases |s|
  {
    if s != "" {
      var k := |s| - 1;
      assert Codes(s)[..k] == Codes(s[..k]) && Codes(t)[..k] == Codes(t[..k]);
      SameDigits(s[..k], t[..k], n / 16);
      SameLower(s[k], t[k], n % 16);
      assert s == s[..k] + [s[k]] && t == t[..k] + [t[k]];
    }
  }

  lemma SameLower(a: char, b: char, d: nat)
    requires d < 16 && a in LOWER && b in LOWER && IsDigitOf(a as nat, d) && IsDigitOf(b as nat, d)
    ensures a == b
  {
  }

  // ---- Values ----

  lemma SortTwo<T>(a: T, b: T, key: T -> seq<nat>)
    requires Before(key(a), key(b))
    ensures SortBy([a, b], key) == [a, b] && SortBy([b, a], key) == [a, b]
  {
    BeforeTotal(key(a), key(b));
    hide Before;
    assert [a][1..] == [] && [b][1..] == [] && [a, b][1..] == [b] && [b, a][1..] == [a];
    assert SortBy<T>([], key) == [];
    assert SortBy([a], key) == [a] && SortBy([b], key) == [b];
  }

  /** A member's key is quoted, a colon parts it from its value, and commas part the members, in order of their keys. */
  lemma TwoMembers(x: Member, y: Member)
    requires Before(Codes(Quoted(x.key)), Codes(Quoted(y.key)))
    ensures var text := "{" + (Quoted(x.key) + ":" + CanonText(x.value) + ","
                               + (Quoted(y.key) + ":" + CanonText(y.value))) + "}";
            CanonText(Object([x, y])) == text && CanonText(Object([y, x])) == text
  {
    hide Before, Quoted, SortBy;
    var a, b := EntryOf(x), EntryOf(y);
    SortTwo(a, b, EntryKey);
    assert EntriesOf([x, y]) == [a, b] && EntriesOf([y, x]) == [b, a];
    TwoJoined(Whole(a), Whole(b));
    assert Mapped([a, b], Whole) == [Whole(a), Whole(b)];
  }

  lemma TwoJoined(s: string, t: string)
    ensures Joined([s, t]) == s + "," + t
  {
    assert [s, t][1..] == [t];
  }

  lemma TwoItems(v: Json, w: Json)
    ensures CanonText(Array([v, w])) == "[" + (CanonText(v) + "," + CanonText(w)) + "]"
  {
    TwoJoined(CanonText(v), CanonText(w));
    assert CanonAll([v, w]) == [CanonText(v), CanonText(w)];
  }

  lemma OneUnit(c: Unit)
    requires ' ' as nat <= c <= '~' as nat && c != '"' as nat && c != '\\' as nat
    ensures Quoted([c]) == ['"', c as char, '"']
  {
    assert [c][1..] == [];
    assert QuoteUnits([]) == "";
  }

  /** A whole value written out, the same whichever member came first. */
  lemma CanonOfExample()
    ensures var x := Member(['b' as nat], Number(0x7FF0_0000_0000_0000));
            var y := Member(['a' as nat], Array([Null, Bool(true)]));
            && CanonText(Object([x, y])) == "{\"a\":[null,true],\"b\":Infinity}"
            && CanonText(Object([y, x])) == "{\"a\":[null,true],\"b\":Infinity}"
  {
    hide Quoted, Before, CanonText;
    OneUnit('a' as nat);
    OneUnit('b' as nat);
    KeysInOrder();
    ValuesOfExample();
    var x := Member(['b' as nat], Number(0x7FF0_0000_0000_0000));
    var y := Member(['a' as nat], Array([Null, Bool(true)]));
    TwoMembers(y, x);
  }

  lemma ValuesOfExample()
    ensures CanonText(Number(0x7FF0_0000_0000_0000)) == "Infinity"
    ensures CanonText(Array([Null, Bool(true)])) == "[null,true]"
  {
    TwoItems(Null, Bool(true));
    hide HexText, IsNaN, CanonAll;
    NaNByFields(0x7FF0_0000_0000_0000);
  }

  lemma KeysInOrder()
    ensures Before(Codes("\"a\""), Codes("\"b\""))
  {
    FirstDifferenceDecides(Codes("\"a\""), Codes("\"b\""), 1);
  }
}
