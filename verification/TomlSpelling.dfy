/**
  How the parts of a TOML text are spelled (tools/port-deps.cjs), character by character: a document written
  out and read, strings of every kind, and escapes.
 */
module TomlSpelling {
  import opened Numerals
  import opened Wrappers
  import opened StringLiteral
  import opened TomlSyntax
  import opened TomlPrint
  import HasValue

  // ---- A document ----

  lemma EscapedOn(c: nat, v: seq<nat>)
    ensures Escaped([c] + v) == EscapedChar(c) + Escaped(v)
  {
    assert ([c] + v)[1..] == v;
  }

  lemma NamesOfExample()
    ensures WrittenName(Codes("b")) == Codes("\"b\"") && WrittenName(Codes("\"\n")) == Codes("\"\\\"\\n\"")
  {
    EscapedOn('b' as nat, []);
    EscapedOn(LF, []);
    EscapedOn(QUOTE, [LF]);
    hide Escaped;
    assert Codes("b") == ['b' as nat] + [] && Codes("\"\n") == [QUOTE] + [LF] && [LF] == [LF] + [];
    EscapedNothing();
  }

  lemma EscapedNothing()
    ensures Escaped([]) == []
  {
  }

  const HEADER := "[[ a . \"b\" ]]"
  const LIST := "[ true , \"\\\"\\n\"  ]"
  const EXAMPLE := " " + HEADER + " # x\n" + (" " + ("c = " + LIST) + " # x\n")

  const SPACED: Style := Layout({Codes("a"), Codes("c")}, Codes(" "), Codes("# x"), false)

  lemma KeyOfExample()
    ensures WrittenKey(SPACED, [Codes("a"), Codes("b")]) == Codes("a . \"b\" ")
    ensures WrittenKey(SPACED, [Codes("c")]) == Codes("c ")
  {
    hide WrittenName;
    NamesOfExample();
    var a, b, c := Codes("a"), Codes("b"), Codes("c");
    assert a[0] != b[0] && b[0] != c[0];
    assert IsBareName(a) && IsBareName(c);
    assert [a, b][1..] == [b];
    assert WrittenPart(SPACED.bare, b) == WrittenName(b);
    assert WrittenKey(SPACED, [b]) == Codes("\"b\" ");
  }

  lemma ItemsOfExample(x: Value, y: Value)
    requires IsWritable(x, 2) && IsWritable(y, 2)
    ensures WrittenItems(SPACED, [x, y], 2)
            == Codes(" ") + WrittenValue(SPACED, x, 2) + Codes(" ") + [COMMA]
               + (Codes(" ") + WrittenValue(SPACED, y, 2) + Codes(" "))
  {
    hide WrittenValue, IsWritable;
    assert [x, y][1..] == [y] && [y][1..] == [];
    assert WrittenItems(SPACED, [], 2) == [];
    assert WrittenItems(SPACED, [y], 2) == Codes(" ") + WrittenValue(SPACED, y, 2) + Codes(" ") + [] + [];
  }

  lemma ValueOfExample()
    ensures WrittenValue(SPACED, ArrayValue(2, [BoolValue(2, true), StringValue(2, Codes("\"\n"))]), 2)
            == Codes(LIST)
  {
    hide WrittenName, WrittenItems, Escaped;
    NamesOfExample();
    ItemsOfExample(BoolValue(2, true), StringValue(2, Codes("\"\n")));
    assert Codes("[ true , ") == [OPEN_BRACKET] + (Codes(" ") + Codes("true") + Codes(" ") + [COMMA] + Codes(" "));
    assert Codes(LIST)
        == Codes("[ true , ") + Codes("\"\\\"\\n\"") + (Codes(" ") + Codes(" ") + [CLOSE_BRACKET]);
  }

  lemma LinesOfExample(keys: seq<Name>, key: seq<Name>, value: Value)
    requires keys != [] && WrittenKey(SPACED, keys) == Codes("a . \"b\" ")
    requires key != [] && WrittenKey(SPACED, key) == Codes("c ")
    requires IsWritable(value, 2) && WrittenValue(SPACED, value, 2) == Codes(LIST)
    ensures WrittenStatement(SPACED, Header(1, keys, true), 1) == Codes(HEADER)
    ensures WrittenStatement(SPACED, Pair(2, key, value), 2) == Codes("c = " + LIST)
  {
    hide WrittenKey, WrittenValue, IsWritable;
    HeaderIs();
    PairIs();
  }

  lemma HeaderIs()
    ensures [OPEN_BRACKET, OPEN_BRACKET] + (Codes(" ") + Codes("a . \"b\" ")) + [CLOSE_BRACKET, CLOSE_BRACKET]
            == Codes(HEADER)
  {
  }

  lemma PairIs()
    ensures Codes("c ") + [EQUALS] + (Codes(" ") + Codes(LIST)) == Codes("c = " + LIST)
  {
    assert Codes("c ") + [EQUALS] + Codes(" ") == Codes("c = ");
    CodesOn("c = ", LIST);
    hide Codes, LIST;
    assert Codes("c ") + [EQUALS] + (Codes(" ") + Codes(LIST)) == Codes("c ") + [EQUALS] + Codes(" ") + Codes(LIST);
  }

  lemma TwoLines(s: Statement, s': Statement)
    requires IsWritableStatement(s, 1) && IsWritableStatement(s', 2)
    ensures Written(SPACED, [s, s'], 1)
            == (Codes(" ") + WrittenStatement(SPACED, s, 1) + Codes(" ") + Codes("# x")) + [LF]
               + ((Codes(" ") + WrittenStatement(SPACED, s', 2) + Codes(" ") + Codes("# x")) + [LF])
  {
    hide WrittenStatement, IsWritableStatement;
    assert [s, s'][1..] == [s'] && [s'][1..] == [];
    assert Written(SPACED, [], 3) == [];
    assert Written(SPACED, [s'], 2)
        == (Codes(" ") + WrittenStatement(SPACED, s', 2) + Codes(" ") + Codes("# x")) + [LF] + [];
  }

  /** A document written out, character by character, and read. */
  lemma DocumentOfExample()
    ensures var header := Header(1, [Codes("a"), Codes("b")], true);
            var value := ArrayValue(2, [BoolValue(2, true), StringValue(2, Codes("\"\n"))]);
            var ss := [header, Pair(2, [Codes("c")], value)];
            && (forall k | 0 <= k < |ss| :: IsWritableStatement(ss[k], 1 + k))
            && Written(SPACED, ss, 1) == Codes(EXAMPLE) && StatementsFrom(Codes(EXAMPLE), 0) == Some(ss)
  {
    hide WrittenKey, WrittenValue, WrittenStatement, Written, LineFeeds;
    var keys, key := [Codes("a"), Codes("b")], [Codes("c")];
    var value := ArrayValue(2, [BoolValue(2, true), StringValue(2, Codes("\"\n"))]);
    KeyOfExample();
    ValueOfExample();
    LinesOfExample(keys, key, value);
    var header, pair := Header(1, keys, true), Pair(2, key, value);
    TwoLines(header, pair);
    LinesTogether();
    hide IsWritableStatement;
    var text := Codes(EXAMPLE);
    assert text[0..] == text;
    FirstLine(text);
    WrittenReadsBack(SPACED, text, 0, [header, pair], 1);
  }

  lemma FirstLine(text: seq<nat>)
    ensures LineAt(text, 0) == 1
  {
  }

  lemma LinesTogether()
    ensures (Codes(" ") + Codes(HEADER) + Codes(" ") + Codes("# x")) + [LF]
            + ((Codes(" ") + Codes("c = " + LIST) + Codes(" ") + Codes("# x")) + [LF])
            == Codes(EXAMPLE)
  {
    hide Codes;
    LineTogether(HEADER);
    LineTogether("c = " + LIST);
    CodesOn(" " + HEADER + " # x\n", " " + ("c = " + LIST) + " # x\n");
  }

  lemma LineTogether(s: string)
    ensures (Codes(" ") + Codes(s) + Codes(" ") + Codes("# x")) + [LF] == Codes(" " + s + " # x\n")
  {
    CodesOn(" ", s);
    CodesOn(" " + s, " # x\n");
    assert Codes(" # x\n") == Codes(" ") + Codes("# x") + [LF];
  }

  lemma CodesOn(s: string, t: string)
    ensures Codes(s + t) == Codes(s) + Codes(t)
  {
  }

  // ---- Strings of other kinds ----

  /** Characters between apostrophes stand for themselves. */
  lemma {:induction false} LiteralReads(text: seq<nat>, i: nat, v: seq<nat>, tick: nat)
    requires tick == '\'' as nat && tick !in v && LF !in v && Stands(text, i, v + [tick])
    ensures ShortFrom(text, i, tick) == Some((v, i + |v| + 1))
    decreases |v|
  {
    StandsFirst(text, i, v + [tick]);
    if v != [] {
      assert v + [tick] == [v[0]] + (v[1..] + [tick]);
      StandsBoth(text, i, [v[0]], v[1..] + [tick]);
      LiteralReads(text, i + 1, v[1..], tick);
      assert [v[0]] + v[1..] == v;
    }
  }

  /** Three quotes and up to two more: those belong to the string. */
  lemma QuotesEnd(text: seq<nat>, i: nat, quote: nat, more: nat)
    requires more <= 2 && Stands(text, i, seq(3 + more, _ => quote))
    requires more < 2 && i + 3 + more < |text| ==> text[i + 3 + more] != quote
    ensures LongFrom(text, i, quote) == Some((seq(more, _ => quote), i + 3 + more))
  {
    var w := text[i..i + 3 + more];
    assert forall k | 0 <= k < 3 + more :: text[i + k] == w[k] == quote;
    assert LongFrom(text, i, quote).value.0 == seq(more, _ => quote);
  }

  /** Between three apostrophes characters stand for themselves too, line feeds and lone apostrophes among them. */
  lemma {:induction false} LongLiteralReads(text: seq<nat>, i: nat, v: seq<nat>, tick: nat, more: nat)
    requires tick == '\'' as nat && more <= 2 && Stands(text, i, v + seq(3 + more, _ => tick))
    requires forall p | i <= p < i + |v| :: !TripleAt(text, p, tick)
    requires var e := i + |v| + 3 + more; more < 2 && e < |text| ==> text[e] != tick
    ensures LongFrom(text, i, tick) == Some((v + seq(more, _ => tick), i + |v| + 3 + more))
    decreases |v|
  {
    var quotes := seq(3 + more, _ => tick);
    hide Stands, TripleAt;
    if v == [] {
      assert v + quotes == quotes;
      QuotesEnd(text, i, tick, more);
      assert v + seq(more, _ => tick) == seq(more, _ => tick);
    } else {
      assert v + quotes == [v[0]] + (v[1..] + quotes);
      StandsFirst(text, i, v + quotes);
      StandsBoth(text, i, [v[0]], v[1..] + quotes);
      assert !TripleAt(text, i, tick);
      LongLiteralReads(text, i + 1, v[1..], tick, more);
      assert [v[0]] + (v[1..] + seq(more, _ => tick)) == v + seq(more, _ => tick);
    }
  }

  /** A line feed right after three opening quotes is no part of the string. */
  lemma LongOpens(text: seq<nat>, i: nat, quote: nat, fed: bool)
    requires Stands(text, i, [quote, quote, quote] + if fed then ['\n' as nat] else [])
    requires !fed && i + 3 < |text| ==> text[i + 3] != '\n' as nat
    ensures i < |text| && StringFrom(text, i) == LongFrom(text, if fed then i + 4 else i + 3, quote)
  {
    hide LongFrom, ShortFrom;
    var w := text[i..i + if fed then 4 else 3];
    assert w[0] == text[i] && w[1] == text[i + 1] && w[2] == text[i + 2] && (fed ==> w[3] == text[i + 3]);
  }

  /** A backslash, blanks and a line feed fold a line: what space follows is passed over as well. */
  lemma FoldReads(text: seq<nat>, i: nat, blanks: seq<nat>, space: seq<nat>)
    requires Stands(text, i, ['\\' as nat] + blanks + ['\n' as nat] + space)
    requires |blanks| < 200 && forall k | 0 <= k < |blanks| :: blanks[k] in Codes(" \t")
    requires forall k | 0 <= k < |space| :: space[k] in Codes(HasValue.SPACES)
    requires var e := i + 1 + |blanks| + 1 + |space|; e < |text| ==> text[e] !in Codes(HasValue.SPACES)
    ensures LongFrom(text, i, '"' as nat) == LongFrom(text, i + 1 + |blanks| + 1 + |space|, '"' as nat)
  {
    var quote, e := '"' as nat, i + 1 + |blanks| + 1 + |space|;
    FoldStands(text, i, blanks, space);
    forall k | 0 <= k < |blanks| ensures IsBlank(blanks[k]) && HasValue.IsSpace(blanks[k]) {
      BlanksAre(blanks[k]);
    }
    forall k | 0 <= k < |space| ensures HasValue.IsSpace(space[k]) {
      HasValue.SpacesAre(space[k]);
    }
    if e < |text| {
      HasValue.SpacesAre(text[e]);
    }
    hide LongFrom, HasValue.IsSpace, HasValue.SPACES, RunEnd;
    RunHere(text, i + 1, blanks, IsBlank, 200);
    SpacesPassed(text, i + 1, blanks + ['\n' as nat] + space);
    FoldStep(text, i, quote);
  }

  lemma FoldStands(text: seq<nat>, i: nat, blanks: seq<nat>, space: seq<nat>)
    requires Stands(text, i, ['\\' as nat] + blanks + ['\n' as nat] + space)
    ensures i < |text| && text[i] == BACKSLASH && Stands(text, i + 1, blanks)
    ensures i + 1 + |blanks| < |text| && text[i + 1 + |blanks|] == LF
    ensures Stands(text, i + 1, blanks + ['\n' as nat] + space)
  {
    hide Stands;
    var folded := blanks + ['\n' as nat] + space;
    assert ['\\' as nat] + blanks + ['\n' as nat] + space == ['\\' as nat] + folded;
    StandsBoth(text, i, ['\\' as nat], folded);
    StandsFirst(text, i, ['\\' as nat]);
    StandsThree(text, i + 1, blanks, '\n' as nat, space);
  }

  lemma {:induction false} SpacesPassed(text: seq<nat>, i: nat, w: seq<nat>)
    requires Stands(text, i, w) && forall k | 0 <= k < |w| :: HasValue.IsSpace(w[k])
    requires i + |w| < |text| ==> !HasValue.IsSpace(text[i + |w|])
    ensures SpaceEnd(text, i) == i + |w|
    decreases |w|
  {
    if w != [] {
      assert w == [w[0]] + w[1..];
      StandsBoth(text, i, [w[0]], w[1..]);
      StandsFirst(text, i, w);
      SpacesPassed(text, i + 1, w[1..]);
    }
  }

  lemma FoldStep(text: seq<nat>, i: nat, quote: nat)
    requires quote == '"' as nat && i < |text| && text[i] == BACKSLASH && FoldsAt(text, i + 1)
    ensures LongFrom(text, i, quote) == LongFrom(text, SpaceEnd(text, i + 1), quote)
  {
    hide FoldsAt, SpaceEnd;
  }

  /** Blanks are spaces and tabs. */
  lemma BlanksAre(c: nat)
    ensures IsBlank(c) <==> c in Codes(" \t")
  {
    assert Codes(" \t")[0] == ' ' as nat && Codes(" \t")[1] == '\t' as nat;
  }

  // ---- Escapes ----

  const NAMED := "btnfre\"\\"
  const MEANT := "\U{8}\t\n\U{C}\r\U{1B}\"\\"

  /** The letter for a run of digits of a length. */
  predicate IsRunLetter(c: nat, width: nat) {
    || (c == 'x' as nat && width == 2) || (c == 'u' as nat && width == 4) || (c == 'U' as nat && width == 8)
  }

  /** An escape after its backslash: a letter for a character, or a letter and as many digits as it takes. */
  ghost predicate IsEscape(w: seq<nat>, code: nat) {
    && w != []
    && ((|w| == 1 && exists k :: 0 <= k < |NAMED| && w[0] == NAMED[k] as nat && code == MEANT[k] as nat)
        || (IsRunLetter(w[0], |w| - 1) && Denotes(w[1..], code, 16) && code <= 0x10FFFF))
  }

  lemma NamedAre(c: nat)
    ensures forall code: nat ::
              Simple(c) == Some(code)
              <==> exists k :: 0 <= k < |NAMED| && c == NAMED[k] as nat && code == MEANT[k] as nat
    ensures Simple(c).Some? ==> Width(c) == 0
    ensures forall width: nat | width > 0 :: IsRunLetter(c, width) <==> Width(c) == width
  {
    assert NAMED[0] == 'b' && NAMED[1] == 't' && NAMED[2] == 'n' && NAMED[3] == 'f';
    assert NAMED[4] == 'r' && NAMED[5] == 'e' && NAMED[6] == '"' && NAMED[7] == '\\';
  }

  /** An escape is read as the character it stands for, and nothing else is one. */
  lemma EscapeExactly(text: seq<nat>, i: nat, code: nat, n: nat)
    ensures EscapeFrom(text, i) == Some((code, n)) <==> i + n <= |text| && IsEscape(text[i..i + n], code)
  {
    hide HexRun, Denotes, Simple, Width;
    if i < |text| {
      NamedAre(text[i]);
      if n > 0 && i + n <= |text| {
        var w := text[i..i + n];
        assert w[0] == text[i] && w[1..] == text[i + 1..i + 1 + (n - 1)];
        HexRunExact(text, i + 1, n - 1, code);
      }
    }
  }
}
