/** A decoder that undoes the quoting, the digits and the bracketing of the canonical form. */
module CanonDecoder {
  import opened Wrappers
  import opened Ordering
  import opened Canon

  // ---- Digits ----

  function DigitOf(c: char): Option<nat> {
    if '0' <= c <= '9' then Some(c as nat - '0' as nat)
    else if 'a' <= c <= 'f' then Some(c as nat - 'a' as nat + 10)
    else None
  }

  function NumberOf(s: string): Option<nat> {
    if s == "" then Some(0)
    else
      match NumberOf(s[..|s| - 1])
      case None => None
      case Some(v) =>
        match DigitOf(s[|s| - 1])
        case None => None
        case Some(d) => Some(16 * v + d)
  }

  lemma NumberSnoc(s: string, c: char)
    requires NumberOf(s).Some? && DigitOf(c).Some?
    ensures NumberOf(s + [c]) == Some(16 * NumberOf(s).value + DigitOf(c).value)
  {
    assert (s + [c])[..|s|] == s;
  }

  lemma NumberEmpty()
    ensures NumberOf("") == Some(0)
  {
  }

  lemma {:induction false} HexBack(v: nat, n: nat)
    requires v < Pow16(n)
    ensures NumberOf(HexText(v, n)) == Some(v)
  {
    hide NumberOf, DigitOf;
    if n > 0 {
      HexBack(v / 16, n - 1);
      DigitBack(v % 16);
      NumberSnoc(HexText(v / 16, n - 1), HEX[v % 16]);
    } else {
      NumberEmpty();
    }
  }

  lemma DigitBack(d: nat)
    requires d < 16
    ensures DigitOf(HEX[d]) == Some(d)
  {
  }

  // ---- Strings ----

  /** The units up to the closing quote, and what follows it. */
  function ReadUnits(s: string): (r: Option<(seq<Unit>, string)>)
    ensures r.Some? ==> |r.value.1| < |s|
    decreases |s|
  {
    if s == "" then None
    else if s[0] == '"' then Some(([], s[1..]))
    else
      match ReadUnit(s)
      case None => None
      case Some((c, n)) =>
        match ReadUnits(s[n..])
        case None => None
        case Some((units, rest)) => Some(([c] + units, rest))
  }

  /** One unit, and the length of its spelling. */
  function ReadUnit(s: string): (r: Option<(Unit, nat)>)
    requires s != ""
    ensures r.Some? ==> 1 <= r.value.1 <= |s|
  {
    if s[0] != '\\' then
      if s[0] < 0x7F as char then Some((s[0] as nat, 1)) else None
    else if |s| >= 2 && (s[1] == '"' || s[1] == '\\') then Some((s[1] as nat, 2))
    else if |s| >= 6 && s[1] == 'u' && NumberOf(s[2..6]).Some? && NumberOf(s[2..6]).value < 0x10000 then
      Some((NumberOf(s[2..6]).value, 6))
    else None
  }

  lemma UnitBack(c: Unit, rest: string)
    ensures var s := QuoteUnit(c) + rest;
            s != "" && s[0] != '"' && ReadUnit(s) == Some((c, |QuoteUnit(c)|)) && s[|QuoteUnit(c)|..] == rest
  {
    var s := QuoteUnit(c) + rest;
    if !(0x20 <= c <= 0x7E) {
      FourBound();
      HexBack(c, 4);
      hide HexText, NumberOf;
      assert s[2..6] == HexText(c, 4);
    }
  }

  lemma FourBound()
    ensures Pow16(4) == 0x10000
  {
    assert Pow16(2) == 256;
  }

  lemma {:induction false} UnitsBack(units: seq<Unit>, rest: string)
    ensures ReadUnits(QuoteUnits(units) + ("\"" + rest)) == Some((units, rest))
  {
    hide QuoteUnit, ReadUnit;
    if units == [] {
      assert "" + ("\"" + rest) == "\"" + rest;
      assert ("\"" + rest)[1..] == rest;
    } else {
      var tail := QuoteUnits(units[1..]) + ("\"" + rest);
      assert QuoteUnits(units) + ("\"" + rest) == QuoteUnit(units[0]) + tail;
      UnitBack(units[0], tail);
      UnitsBack(units[1..], rest);
      assert [units[0]] + units[1..] == units;
    }
  }

  lemma QuotedTail(units: seq<Unit>, x: string)
    ensures var s := Quoted(units) + x; s != "" && s[0] == '"' && s[1..] == QuoteUnits(units) + ("\"" + x)
  {
    hide QuoteUnits;
  }

  /** No quoted form is the beginning of another: what begins alike is alike, and so is what follows. */
  lemma QuotedIsPrefixFree(a: seq<Unit>, x: string, b: seq<Unit>, y: string)
    requires Quoted(a) + x == Quoted(b) + y
    ensures a == b && x == y
  {
    hide QuoteUnits, ReadUnits, Quoted;
    UnitsBack(a, x);
    UnitsBack(b, y);
    QuotedTail(a, x);
    QuotedTail(b, y);
  }

  // ---- Values ----

  predicate Starts(s: string, word: string) {
    |word| <= |s| && s[..|word|] == word
  }

  /** A value at the front of a text, and what follows it. */
  function ReadValue(s: string): (r: Option<(Tree, string)>)
    ensures r.Some? ==> |r.value.1| < |s|
    decreases |s|, 1
  {
    if s == "" then None
    else if s[0] == '"' then
      match ReadUnits(s[1..])
      case None => None
      case Some((units, rest)) => Some((TextTree(units), rest))
    else if s[0] == '[' then
      if Starts(s[1..], "]") then Some((ArrayTree([]), s[2..]))
      else
        match ReadItems(s[1..])
        case None => None
        case Some((items, rest)) => Some((ArrayTree(items), rest))
    else if s[0] == '{' then
      if Starts(s[1..], "}") then Some((ObjectTree(map[]), s[2..]))
      else
        match ReadMembers(s[1..])
        case None => None
        case Some((members, rest)) => Some((ObjectTree(members), rest))
    else ReadWord(s)
  }

  /** A name at the front of a text. */
  function Expect(s: string, word: string, tree: Tree): (r: Option<(Tree, string)>)
    requires word != ""
    ensures r.Some? ==> |r.value.1| < |s|
  {
    if Starts(s, word) then Some((tree, s[|word|..])) else None
  }

  /** The names, and the numbers by their bits. */
  function ReadWord(s: string): (r: Option<(Tree, string)>)
    requires s != ""
    ensures r.Some? ==> |r.value.1| < |s|
  {
    if s[0] == 'n' then Expect(s, "null", NullTree)
    else if s[0] == 't' then Expect(s, "true", BoolTree(true))
    else if s[0] == 'f' then Expect(s, "false", BoolTree(false))
    else if s[0] == 'N' then Expect(s, "NaN", NaNTree)
    else if s[0] == 'I' then Expect(s, "Infinity", NumberTree(INFINITE))
    else if s[0] == '-' then Expect(s, "-Infinity", NumberTree(SIGN + INFINITE))
    else if s[0] == '#' && |s| >= 17 then
      match NumberOf(s[1..17])
      case None => None
      case Some(bits) => Some((NumberTree(bits), s[17..]))
    else None
  }

  /** The items up to the closing bracket. */
  function ReadItems(s: string): (r: Option<(seq<Tree>, string)>)
    ensures r.Some? ==> |r.value.1| < |s|
    decreases |s|, 2
  {
    match ReadValue(s)
    case None => None
    case Some((item, rest)) =>
      if Starts(rest, "]") then Some(([item], rest[1..]))
      else if Starts(rest, ",") then
        match ReadItems(rest[1..])
        case None => None
        case Some((items, after)) => Some(([item] + items, after))
      else None
  }

  /** The members up to the closing brace. */
  function ReadMembers(s: string): (r: Option<(map<seq<Unit>, Tree>, string)>)
    ensures r.Some? ==> |r.value.1| < |s|
    decreases |s|, 2
  {
    if !Starts(s, "\"") then None
    else
      match ReadUnits(s[1..])
      case None => None
      case Some((key, afterKey)) =>
        if !Starts(afterKey, ":") then None
        else
          match ReadValue(afterKey[1..])
          case None => None
          case Some((value, rest)) =>
            if Starts(rest, "}") then Some((map[key := value], rest[1..]))
            else if Starts(rest, ",") then
              match ReadMembers(rest[1..])
              case None => None
              case Some((members, after)) => Some((members[key := value], after))
            else None
  }

  // ---- The round trip ----

  /** What a value's canonical form is read back as, whatever follows it. */
  ghost predicate ReadsBack(v: Json) {
    forall rest: string :: ReadValue(CanonText(v) + rest) == Some((TreeOf(v), rest))
  }

  lemma ExpectBack(word: string, tree: Tree, rest: string)
    requires word != ""
    ensures Expect(word + rest, word, tree) == Some((tree, rest))
    ensures word + rest != "" && (word + rest)[0] == word[0]
  {
    assert (word + rest)[..|word|] == word && (word + rest)[|word|..] == rest;
  }

  lemma NumberBack(bits: nat, rest: string)
    requires bits < Pow16(16)
    ensures ReadValue(NumberText(bits) + rest) == Some((NumberTreeOf(bits), rest))
  {
    NaNByFields(bits);
    hide HexText, NumberOf, Pow16, Expect, Exponent, Significand;
    if IsNaN(bits) {
      ExpectBack("NaN", NaNTree, rest);
    } else if bits == INFINITE {
      ExpectBack("Infinity", NumberTree(INFINITE), rest);
    } else if bits == SIGN + INFINITE {
      ExpectBack("-Infinity", NumberTree(SIGN + INFINITE), rest);
    } else {
      BitsBack(bits, HexText(bits, 16), rest);
    }
  }

  lemma BitsBack(bits: nat, digits: string, rest: string)
    requires bits < Pow16(16) && digits == HexText(bits, 16)
    ensures ReadValue("#" + digits + rest) == Some((NumberTree(bits), rest))
  {
    HexBack(bits, 16);
    hide HexText, NumberOf, Pow16, Expect, ReadValue;
    var s := "#" + digits + rest;
    assert s[1..17] == digits && s[17..] == rest;
    HashRead(s, bits);
  }

  lemma HashRead(s: string, bits: nat)
    requires |s| >= 17 && s[0] == '#' && NumberOf(s[1..17]) == Some(bits)
    ensures ReadValue(s) == Some((NumberTree(bits), s[17..]))
  {
    hide NumberOf, Expect;
  }

  lemma WordBack(v: Json, rest: string)
    requires v.Null? || v.Bool?
    ensures ReadValue(CanonText(v) + rest) == Some((TreeOf(v), rest))
  {
    hide Expect;
    if v.Null? {
      ExpectBack("null", NullTree, rest);
    } else if v.b {
      ExpectBack("true", BoolTree(true), rest);
    } else {
      ExpectBack("false", BoolTree(false), rest);
    }
  }

  lemma TextBack(units: seq<Unit>, rest: string)
    ensures ReadValue(Quoted(units) + rest) == Some((TextTree(units), rest))
  {
    hide QuoteUnits, ReadUnits, Quoted;
    UnitsBack(units, rest);
    QuotedTail(units, rest);
  }

  lemma {:induction false} ItemsBack(items: seq<Json>, rest: string)
    requires items != [] && forall i | 0 <= i < |items| :: ReadsBack(items[i])
    ensures ReadItems(Joined(CanonAll(items)) + ("]" + rest)) == Some((TreesOf(items), rest))
    decreases |items|
  {
    hide ReadValue, CanonText, TreeOf;
    var s := Joined(CanonAll(items)) + ("]" + rest);
    assert ReadsBack(items[0]);
    if |items| == 1 {
      assert ReadValue(CanonText(items[0]) + ("]" + rest)) == Some((TreeOf(items[0]), "]" + rest));
      assert ("]" + rest)[..1] == "]" && ("]" + rest)[1..] == rest;
      assert TreesOf(items) == [TreeOf(items[0])];
    } else {
      var tail := Joined(CanonAll(items[1..])) + ("]" + rest);
      assert CanonAll(items)[1..] == CanonAll(items[1..]);
      assert s == CanonText(items[0]) + ("," + tail);
      assert ReadValue(CanonText(items[0]) + ("," + tail)) == Some((TreeOf(items[0]), "," + tail));
      assert ("," + tail)[..1] == "," && ("," + tail)[1..] == tail;
      forall i | 0 <= i < |items[1..]| ensures ReadsBack(items[1..][i]) {
        assert ReadsBack(items[i + 1]);
      }
      ItemsBack(items[1..], rest);
      assert TreesOf(items) == [TreeOf(items[0])] + TreesOf(items[1..]);
    }
  }

  lemma MemberBack(m: Member, tail: string)
    requires ReadsBack(m.value) && tail != ""
    ensures var s := Whole(EntryOf(m)) + tail;
            && Starts(s, "\"") && ReadUnits(s[1..]) == Some((m.key, ":" + (CanonText(m.value) + tail)))
            && Starts(":" + (CanonText(m.value) + tail), ":")
            && (":" + (CanonText(m.value) + tail))[1..] == CanonText(m.value) + tail
            && ReadValue(CanonText(m.value) + tail) == Some((TreeOf(m.value), tail))
  {
    hide ReadValue, CanonText, TreeOf, ReadUnits, QuoteUnits, Quoted;
    var value := CanonText(m.value);
    var after := ":" + (value + tail);
    assert Quoted(m.key) + ":" + value + tail == Quoted(m.key) + after;
    QuotedTail(m.key, after);
    UnitsBack(m.key, after);
    assert after[..1] == ":" && after[1..] == value + tail;
    assert (Quoted(m.key) + after)[..1] == "\"";
  }

  lemma {:induction false} MembersBack(members: seq<Member>, rest: string)
    requires members != [] && forall i | 0 <= i < |members| :: ReadsBack(members[i].value)
    ensures ReadMembers(Joined(Mapped(EntriesOf(members), Whole)) + ("}" + rest)) == Some((MapOf(members), rest))
    decreases |members|
  {
    hide ReadValue, ReadUnits, CanonText, TreeOf, Whole, EntryOf, ReadsBack;
    var texts := Mapped(EntriesOf(members), Whole);
    var first := Whole(EntryOf(members[0]));
    assert texts[0] == first;
    if |members| == 1 {
      MemberBack(members[0], "}" + rest);
      assert ("}" + rest)[..1] == "}" && ("}" + rest)[1..] == rest;
      assert MapOf(members[1..]) == map[];
    } else {
      var tail := Joined(Mapped(EntriesOf(members[1..]), Whole)) + ("}" + rest);
      assert EntriesOf(members)[1..] == EntriesOf(members[1..]);
      assert texts[1..] == Mapped(EntriesOf(members[1..]), Whole);
      assert Joined(texts) + ("}" + rest) == first + ("," + tail);
      MemberBack(members[0], "," + tail);
      assert ("," + tail)[..1] == "," && ("," + tail)[1..] == tail;
      forall i | 0 <= i < |members[1..]| ensures ReadsBack(members[1..][i].value) {
        assert ReadsBack(members[i + 1].value);
      }
      MembersBack(members[1..], rest);
    }
  }
}
