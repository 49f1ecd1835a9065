/**
  The grammar's embedding as a literal of each language (ts/embed-grammar.js, ts/embed-translate.js), and
  the splice between markers that puts it into a source file.
 */
module EmbedGrammar {
  import opened Wrappers

  const BACKTICK := '`'

  // ---- TypeScript: a template literal ----

  /** `replace` with a pattern of one character, everywhere. */
  function ReplaceChar(s: string, c: char, with: string): string {
    if s == "" then "" else (if s[0] == c then with else [s[0]]) + ReplaceChar(s[1..], c, with)
  }

  predicate OpensHole(s: string, i: nat) {
    i + 1 < |s| && s[i] == '$' && s[i + 1] == '{'
  }

  /** `replace` of every `${`. */
  function ReplaceHole(s: string): string {
    if s == "" then ""
    else if OpensHole(s, 0) then "\\${" + ReplaceHole(s[2..])
    else [s[0]] + ReplaceHole(s[1..])
  }

  /** tsContent and tsString: three replacements, one after another. */
  function TsContent(s: string): string {
    ReplaceHole(ReplaceChar(ReplaceChar(s, '\\', "\\\\"), BACKTICK, "\\`"))
  }

  /** One pass over the characters that escapes a backslash, a backtick, and the dollar of `${`. */
  function Escape(s: string): string {
    if s == "" then ""
    else (if s[0] == '\\' || s[0] == BACKTICK || OpensHole(s, 0) then ['\\', s[0]] else [s[0]]) + Escape(s[1..])
  }

  lemma {:induction false} HoleOfCons(c: char, rest: string)
    requires c != '$' || rest == "" || rest[0] != '{'
    ensures ReplaceHole([c] + rest) == [c] + ReplaceHole(rest)
  {
    assert ([c] + rest)[1..] == rest;
  }

  /** The three replacements never meet each other's work. */
  lemma {:induction false} OnePass(s: string)
    ensures TsContent(s) == Escape(s)
  {
    if s != "" {
      hide TsContent, Escape;
      OnePass(s[1..]);
      if s[0] == '\\' || s[0] == BACKTICK {
        EscapedPass(s);
      } else {
        OtherPass(s);
      }
    }
  }

  lemma {:induction false} EscapedPass(s: string)
    requires s != "" && (s[0] == '\\' || s[0] == BACKTICK) && TsContent(s[1..]) == Escape(s[1..])
    ensures TsContent(s) == Escape(s)
  {
    hide ReplaceChar, ReplaceHole;
    var doubled := ReplaceChar(s[1..], '\\', "\\\\");
    var ticked := ReplaceChar(doubled, BACKTICK, "\\`");
    TwoPass(s, if s[0] == '\\' then "\\\\" else [s[0]], doubled);
    HoleOfTwo(s[0], ticked);
    assert ['\\', s[0]] == if s[0] == BACKTICK then "\\`" else "\\\\";
  }

  lemma {:induction false} HoleOfTwo(c: char, rest: string)
    requires c != '$'
    ensures ReplaceHole(['\\', c] + rest) == ['\\', c] + ReplaceHole(rest)
  {
    hide ReplaceHole;
    HoleOfCons(c, rest);
    HoleOfCons('\\', [c] + rest);
    assert ['\\'] + ([c] + rest) == ['\\', c] + rest;
    assert ['\\'] + ([c] + ReplaceHole(rest)) == ['\\', c] + ReplaceHole(rest);
  }

  lemma {:induction false} OtherPass(s: string)
    requires s != "" && s[0] != '\\' && s[0] != BACKTICK && TsContent(s[1..]) == Escape(s[1..])
    ensures TsContent(s) == Escape(s)
  {
    hide ReplaceChar, ReplaceHole;
    var doubled := ReplaceChar(s[1..], '\\', "\\\\");
    var ticked := ReplaceChar(doubled, BACKTICK, "\\`");
    FirstKept(s[1..]);
    TwoPass(s, [s[0]], doubled);
    if OpensHole(s, 0) {
      HoleStep(s, ticked);
    } else {
      HoleOfCons(s[0], ticked);
    }
  }

  /** A brace at the front is still there after the first two replacements, and none comes to be. */
  lemma {:induction false} FirstKept(s: string)
    ensures var t := ReplaceChar(ReplaceChar(s, '\\', "\\\\"), BACKTICK, "\\`");
            (t != "" && t[0] == '{') <==> (s != "" && s[0] == '{')
    ensures var t := ReplaceChar(ReplaceChar(s, '\\', "\\\\"), BACKTICK, "\\`");
            s != "" && s[0] == '{' ==> t == ['{'] + ReplaceChar(ReplaceChar(s[1..], '\\', "\\\\"), BACKTICK, "\\`")
  {
    if s != "" {
      var rest := ReplaceChar(s[1..], '\\', "\\\\");
      if s[0] == '\\' {
        TwoPass(s, "\\\\", rest);
      } else {
        TwoPass(s, [s[0]], rest);
      }
    }
  }

  /** The first two replacements, at a text's first character. */
  lemma {:induction false} TwoPass(s: string, first: string, doubled: string)
    requires s != "" && first == (if s[0] == '\\' then "\\\\" else [s[0]])
        && doubled == ReplaceChar(s[1..], '\\', "\\\\")
    ensures ReplaceChar(s, '\\', "\\\\") == first + doubled
    ensures ReplaceChar(first + doubled, BACKTICK, "\\`")
            == (if s[0] == BACKTICK then "\\`" else first) + ReplaceChar(doubled, BACKTICK, "\\`")
  {
    var whole := first + doubled;
    assert whole[1..] == first[1..] + doubled;
    if s[0] == '\\' {
      assert whole[1..][1..] == doubled;
      var ticked := ReplaceChar(doubled, BACKTICK, "\\`");
      assert ReplaceChar(whole[1..], BACKTICK, "\\`") == ['\\'] + ticked;
      assert ['\\'] + (['\\'] + ticked) == "\\\\" + ticked;
    } else {
      assert whole[1..] == doubled;
    }
  }

  lemma {:induction false} HoleStep(s: string, ticked: string)
    requires OpensHole(s, 0) && ticked == ReplaceChar(ReplaceChar(s[1..], '\\', "\\\\"), BACKTICK, "\\`")
    requires ReplaceHole(ticked) == Escape(s[1..])
    ensures ReplaceHole(['$'] + ticked) == Escape(s)
  {
    FirstKept(s[1..]);
    assert OpensHole(['$'] + ticked, 0);
    var after := ticked[1..];
    assert (['$'] + ticked)[2..] == after;
    HoleOfCons('{', after);
    assert ticked == ['{'] + after;
    assert "\\${" + ReplaceHole(after) == ['\\', '$'] + (['{'] + ReplaceHole(after));
  }

  /**
    The value of a template's characters: section 11.8.6 of the 6th edition of ECMA-262. A raw carriage
    return counts as a line feed, and with a line feed after it as one. An unescaped backtick or `${` ends
    the characters, and escapes other than those of the escaper are not read here.
   */
  function TemplateValue(s: string): Option<string>
    decreases |s|
  {
    if s == "" then Some("")
    else if s[0] == '\\' then
      if |s| >= 2 && (s[1] == '\\' || s[1] == BACKTICK || s[1] == '$') then Before(s[1], TemplateValue(s[2..]))
      else None
    else if s[0] == BACKTICK || OpensHole(s, 0) then None
    else if s[0] == '\r' then Before('\n', TemplateValue(if |s| >= 2 && s[1] == '\n' then s[2..] else s[1..]))
    else Before(s[0], TemplateValue(s[1..]))
  }

  function Before(c: char, rest: Option<string>): Option<string> {
    match rest
    case None => None
    case Some(t) => Some([c] + t)
  }

  /** Every end of line as a line feed. */
  function Normalized(s: string): string {
    if s == "" then ""
    else if s[0] == '\r' then ['\n'] + Normalized(if |s| >= 2 && s[1] == '\n' then s[2..] else s[1..])
    else [s[0]] + Normalized(s[1..])
  }

  lemma {:induction false} NormalizedIffNoReturn(s: string)
    ensures |Normalized(s)| <= |s|
    ensures Normalized(s) == s <==> '\r' !in s
    decreases |s|
  {
    if s != "" {
      var rest := if s[0] == '\r' && |s| >= 2 && s[1] == '\n' then s[2..] else s[1..];
      NormalizedIffNoReturn(rest);
      assert s == [s[0]] + s[1..];
      assert Normalized(s)[1..] == Normalized(rest);
    }
  }

  lemma {:induction false} EscapedValue(s: string)
    ensures TemplateValue(Escape(s)) == Some(Normalized(s))
    decreases |s|
  {
    if s != "" {
      var rest := Escape(s[1..]);
      EscapedValue(s[1..]);
      if s[0] == '\\' || s[0] == BACKTICK || OpensHole(s, 0) {
        assert Escape(s) == ['\\', s[0]] + rest;
        assert Escape(s)[2..] == rest;
      } else {
        assert Escape(s) == [s[0]] + rest && Escape(s)[1..] == rest;
        if s[0] == '\r' && |s| >= 2 && s[1] == '\n' {
          EscapedValue(s[2..]);
          assert s[1..][1..] == s[2..];
          assert rest == ['\n'] + Escape(s[2..]);
          assert Escape(s)[2..] == Escape(s[2..]);
        } else if s[0] == '$' {
          assert rest == "" || rest[0] != '{';
        } else if s[0] == '\r' {
          assert rest == "" || rest[0] != '\n';
        }
      }
    }
  }

  /** tsString: a text in backticks, whose characters evaluate to the text. */
  lemma TemplateIsText(s: string)
    ensures TemplateValue(TsContent(s)) == Some(s) <==> '\r' !in s
  {
    OnePass(s);
    EscapedValue(s);
    NormalizedIffNoReturn(s);
  }

  /** The embedded template evaluates to the grammar, after the line feed that the embedding puts first. */
  lemma TemplateIsGrammar(grammar: string)
    ensures TemplateValue("\n" + TsContent(grammar)) == Some("\n" + grammar) <==> '\r' !in grammar
  {
    OnePass(grammar);
    EscapedValue(grammar);
    NormalizedIffNoReturn(grammar);
    assert ("\n" + Escape(grammar))[1..] == Escape(grammar);
    assert ("\n" + Normalized(grammar))[1..] == Normalized(grammar) && ("\n" + grammar)[1..] == grammar;
  }

  /** A lone carriage return is a failing text: it comes out as a line feed. */
  lemma TemplateTurnsReturn()
    ensures TemplateValue(TsContent("\r")) == Some("\n")
  {
    OnePass("\r");
    EscapedValue("\r");
    assert "\r"[1..] == "" && Normalized("") == "";
    assert Normalized("\r") == ['\n'] + Normalized("\r"[1..]);
    assert ['\n'] + "" == "\n";
  }

  // ---- Go: raw strings, joined ----

  /** `split` on the backtick: at least one part. */
  function Split(s: string): (parts: seq<string>)
    ensures parts != []
  {
    if s == "" then [""]
    else
      var rest := Split(s[1..]);
      if s[0] == BACKTICK then [""] + rest else [[s[0]] + rest[0]] + rest[1..]
  }

  const GLUE := " + \"`\" + "

  function JoinRaw(parts: seq<string>): string
    requires parts != []
  {
    var raw := [BACKTICK] + parts[0] + [BACKTICK];
    if |parts| == 1 then raw else raw + GLUE + JoinRaw(parts[1..])
  }

  /** goEscape. */
  function GoEscape(s: string): string {
    var parts := Split(s);
    if |parts| == 1 then [BACKTICK] + s + [BACKTICK] else JoinRaw(parts)
  }

  predicate Starts(s: string, word: string) {
    |word| <= |s| && s[..|word|] == word
  }

  /** A raw string's characters up to its backtick, carriage returns discarded, and what follows it. */
  function RawValue(s: string): Option<(string, string)> {
    if s == "" then None
    else if s[0] == BACKTICK then Some(("", s[1..]))
    else
      match RawValue(s[1..])
      case None => None
      case Some((t, rest)) => Some((if s[0] == '\r' then t else [s[0]] + t, rest))
  }

  /** The value of a Go constant: raw strings, with a quoted backtick between each two. */
  function GoValue(s: string): Option<string>
    decreases |s|
  {
    if !Starts(s, [BACKTICK]) then None
    else
      match RawValue(s[1..])
      case None => None
      case Some((t, rest)) =>
        if rest == "" then Some(t)
        else if !Starts(rest, GLUE) || |rest| >= |s| then None
        else
          match GoValue(rest[|GLUE|..])
          case None => None
          case Some(more) => Some(t + [BACKTICK] + more)
  }

  function WithoutReturns(s: string): string {
    if s == "" then "" else (if s[0] == '\r' then "" else [s[0]]) + WithoutReturns(s[1..])
  }

  lemma {:induction false} WithoutIffNone(s: string)
    ensures |WithoutReturns(s)| <= |s| && (WithoutReturns(s) == s <==> '\r' !in s)
  {
    if s != "" {
      WithoutIffNone(s[1..]);
      assert s == [s[0]] + s[1..];
      if s[0] == '\r' {
        assert "" + WithoutReturns(s[1..]) == WithoutReturns(s[1..]);
      } else {
        assert WithoutReturns(s)[1..] == WithoutReturns(s[1..]);
      }
    }
  }

  lemma {:induction false} RawBack(part: string, rest: string)
    requires BACKTICK !in part
    ensures RawValue(part + ([BACKTICK] + rest)) == Some((WithoutReturns(part), rest))
  {
    var s := part + ([BACKTICK] + rest);
    if part == "" {
      assert s == [BACKTICK] + rest && s[1..] == rest;
    } else {
      assert s[1..] == part[1..] + ([BACKTICK] + rest);
      RawBack(part[1..], rest);
      if part[0] == '\r' {
        assert "" + WithoutReturns(part[1..]) == WithoutReturns(part[1..]);
      }
    }
  }

  /** The parts, with the backticks between them. */
  function Glued(parts: seq<string>): string
    requires parts != []
  {
    if |parts| == 1 then parts[0] else parts[0] + [BACKTICK] + Glued(parts[1..])
  }

  lemma {:induction false} SplitGlues(s: string)
    ensures Glued(Split(s)) == s && forall i | 0 <= i < |Split(s)| :: BACKTICK !in Split(s)[i]
  {
    if s != "" {
      SplitGlues(s[1..]);
      var rest, parts := Split(s[1..]), Split(s);
      assert s == [s[0]] + s[1..];
      if s[0] == BACKTICK {
        assert parts[1..] == rest;
        assert "" + [BACKTICK] + Glued(rest) == [BACKTICK] + Glued(rest);
      } else {
        assert parts[1..] == rest[1..];
        if |rest| > 1 {
          assert [s[0]] + rest[0] + [BACKTICK] + Glued(rest[1..]) == [s[0]] + (rest[0] + [BACKTICK] + Glued(rest[1..]));
        }
        forall i | 0 <= i < |parts| ensures BACKTICK !in parts[i] {
          if i > 0 {
            assert parts[i] == rest[i];
          }
        }
      }
    }
  }

  lemma {:induction false} WithoutConcat(a: string, b: string)
    ensures WithoutReturns(a + b) == WithoutReturns(a) + WithoutReturns(b)
  {
    if a == "" {
      assert a + b == b;
    } else {
      assert (a + b)[1..] == a[1..] + b;
      WithoutConcat(a[1..], b);
      var first := if a[0] == '\r' then "" else [a[0]];
      assert first + (WithoutReturns(a[1..]) + WithoutReturns(b)) == first + WithoutReturns(a[1..]) + WithoutReturns(b);
    }
  }

  lemma {:induction false} JoinedValue(parts: seq<string>)
    requires parts != [] && forall i | 0 <= i < |parts| :: BACKTICK !in parts[i]
    ensures GoValue(JoinRaw(parts)) == Some(WithoutReturns(Glued(parts)))
    decreases |parts|
  {
    var s := JoinRaw(parts);
    var after := if |parts| == 1 then "" else GLUE + JoinRaw(parts[1..]);
    assert s == [BACKTICK] + (parts[0] + ([BACKTICK] + after));
    assert s[..1] == [BACKTICK] && s[1..] == parts[0] + ([BACKTICK] + after);
    RawBack(parts[0], after);
    if |parts| > 1 {
      JoinedValue(parts[1..]);
      GlueFirst(JoinRaw(parts[1..]));
      WithoutConcat(parts[0] + [BACKTICK], Glued(parts[1..]));
      WithoutConcat(parts[0], [BACKTICK]);
      assert WithoutReturns([BACKTICK]) == [BACKTICK] + WithoutReturns([BACKTICK][1..]);
      assert [BACKTICK][1..] == "" && [BACKTICK] + "" == [BACKTICK];
    }
  }

  lemma GlueFirst(rest: string)
    ensures Starts(GLUE + rest, GLUE) && (GLUE + rest)[|GLUE|..] == rest && GLUE + rest != ""
  {
    assert (GLUE + rest)[..|GLUE|] == GLUE;
  }

  const NUL: char := '\0'
  const BYTE_ORDER_MARK: char := '\U{FEFF}'

  /** Inside a file the compiler takes neither of these, wherever they stand. */
  predicate GoTakes(s: string) {
    NUL !in s && BYTE_ORDER_MARK !in s
  }

  lemma {:induction false} JoinedHas(parts: seq<string>, c: char)
    requires parts != [] && c != BACKTICK && c !in GLUE
    ensures c in JoinRaw(parts) <==> c in Glued(parts)
  {
    var raw := [BACKTICK] + parts[0] + [BACKTICK];
    assert c in raw <==> c in parts[0];
    if |parts| > 1 {
      JoinedHas(parts[1..], c);
      assert c in raw + GLUE <==> c in raw;
    }
  }

  lemma GoTakesGrammar(grammar: string)
    ensures GoTakes(GoEscape(grammar)) <==> GoTakes(grammar)
  {
    var parts := Split(grammar);
    SplitGlues(grammar);
    JoinedHas(parts, NUL);
    JoinedHas(parts, BYTE_ORDER_MARK);
    if |parts| == 1 {
      assert GoEscape(grammar) == JoinRaw(parts);
    }
  }

  /**
    The emitted Go constant is taken and evaluates to the grammar, exactly when the grammar has no
    carriage return, no U+0000 and no U+FEFF.
   */
  lemma GoConstantIsGrammar(grammar: string)
    ensures GoTakes(GoEscape(grammar)) && GoValue(GoEscape(grammar)) == Some(grammar)
            <==> '\r' !in grammar && NUL !in grammar && BYTE_ORDER_MARK !in grammar
  {
    var parts := Split(grammar);
    SplitGlues(grammar);
    JoinedValue(parts);
    if |parts| == 1 {
      assert GoEscape(grammar) == JoinRaw(parts);
    }
    WithoutIffNone(grammar);
    GoTakesGrammar(grammar);
  }

  /** A lone carriage return is a failing grammar: the raw string drops it. */
  lemma GoDropsReturn()
    ensures GoValue(GoEscape("\r")) == Some("")
  {
    var parts := Split("\r");
    assert "\r"[1..] == "" && Split("") == [""];
    assert parts == [['\r'] + Split("")[0]] + Split("")[1..];
    assert ['\r'] + "" == "\r" && parts == ["\r"];
    JoinedValue(parts);
    assert WithoutReturns("\r") == "" + WithoutReturns("\r"[1..]);
    assert GoEscape("\r") == JoinRaw(parts);
  }

  // ---- Rust: one raw string ----

  /** A pattern's first place in a text from a place on. */
  function IndexFrom(s: string, pattern: string, i: nat): (r: Option<nat>)
    requires i <= |s|
    ensures r.Some? ==> && i <= r.value && Occurs(s, pattern, r.value)
                        && forall k | i <= k < r.value :: !Occurs(s, pattern, k)
    ensures r.None? ==> forall k | i <= k :: !Occurs(s, pattern, k)
    decreases |s| - i
  {
    if Occurs(s, pattern, i) then Some(i)
    else if i == |s| then None
    else IndexFrom(s, pattern, i + 1)
  }

  predicate Occurs(s: string, pattern: string, k: nat) {
    k + |pattern| <= |s| && s[k..k + |pattern|] == pattern
  }

  ghost predicate Contains(s: string, pattern: string) {
    exists k: nat :: Occurs(s, pattern, k)
  }

  const RUST_END := "\"#"

  /** One character as the Rust compiler reads a source file's line ends: CRLF is a line feed. */
  function LineStep(s: string): (r: (string, nat))
    requires s != ""
    ensures 1 <= r.1 <= |s|
  {
    if s[0] == '\r' && |s| >= 2 && s[1] == '\n' then ("\n", 2) else ([s[0]], 1)
  }

  function LinesRead(s: string): string {
    if s == "" then "" else LineStep(s).0 + LinesRead(s[LineStep(s).1..])
  }

  /** The characters of `r#"..."#`: it closes at the first `"#`, and what follows that must be the statement's end. */
  function RawCharacters(s: string): Option<string> {
    if !Starts(s, "r#\"") then None
    else
      match IndexFrom(s, RUST_END, 3)
      case None => None
      case Some(k) => if s[k + 2..] == ";" then Some(s[3..k]) else None
  }

  /** The value of a Rust raw string: its characters once the lines are read, among them no lone carriage return. */
  function RustValue(s: string): Option<string> {
    match RawCharacters(LinesRead(s))
    case None => None
    case Some(t) => if '\r' in t then None else Some(t)
  }

  /** The characters that turn the direction of text, which the compiler denies in a literal unless told otherwise. */
  predicate TurnsText(c: char) {
    '\U{202A}' <= c <= '\U{202E}' || '\U{2066}' <= c <= '\U{2069}'
  }

  predicate RustTakes(s: string) {
    forall k | 0 <= k < |s| :: !TurnsText(s[k])
  }

  function RawLiteral(content: string): string {
    "r#\"" + content + (RUST_END + ";")
  }

  lemma {:induction false} LinesOfBoth(a: string, b: string)
    requires a != "" && b != "" ==> a[|a| - 1] != '\r' || b[0] != '\n'
    ensures LinesRead(a + b) == LinesRead(a) + LinesRead(b)
    decreases |a|
  {
    hide LinesRead, LineStep;
    if a == "" {
      LinesOfNothing();
      assert a + b == b && "" + LinesRead(b) == LinesRead(b);
    } else {
      var (first, n) := LineStep(a);
      StepOfBoth(a, b);
      LinesUnfold(a);
      LinesUnfold(a + b);
      assert (a + b)[n..] == a[n..] + b;
      LinesOfBoth(a[n..], b);
      Joined3(first, LinesRead(a[n..]), LinesRead(b));
    }
  }

  lemma Joined3(a: string, b: string, c: string)
    ensures a + (b + c) == a + b + c
  {
  }

  lemma LinesOfNothing()
    ensures LinesRead("") == ""
  {
  }

  lemma LinesUnfold(s: string)
    requires s != ""
    ensures LinesRead(s) == LineStep(s).0 + LinesRead(s[LineStep(s).1..])
  {
  }

  lemma StepOfBoth(a: string, b: string)
    requires a != "" && (b != "" ==> a[|a| - 1] != '\r' || b[0] != '\n')
    ensures LineStep(a + b) == LineStep(a)
  {
    assert (a + b)[0] == a[0];
  }

  lemma {:induction false} LinesWithoutReturn(s: string)
    requires '\r' !in s
    ensures LinesRead(s) == s
  {
    if s != "" {
      assert s == [s[0]] + s[1..];
      LinesWithoutReturn(s[1..]);
    }
  }

  lemma LiteralLines(content: string)
    ensures LinesRead(RawLiteral(content)) == RawLiteral(LinesRead(content))
  {
    var open, close := "r#\"", RUST_END + ";";
    LinesWithoutReturn(open);
    LinesWithoutReturn(close);
    hide LinesRead, LineStep;
    LinesOfBoth(content, close);
    LinesOfBoth(open, content + close);
    Joined3(open, content, close);
    Joined3(open, LinesRead(content), close);
  }

  /** With no `"#` in it, the characters are the content; with one, the literal ends early. */
  lemma LiteralCharacters(content: string)
    ensures RawCharacters(RawLiteral(content)) == Some(content) <==> !Contains(content, RUST_END)
  {
    var s, end := RawLiteral(content), 3 + |content|;
    assert s[..3] == "r#\"";
    assert forall k | 0 <= k < |content| :: s[3 + k] == content[k];
    assert s[end] == '"' && s[end + 1] == '#' && s[end + 2] == ';';
    assert s[end..end + 2] == RUST_END;
    assert Occurs(s, RUST_END, end);
    var k := IndexFrom(s, RUST_END, 3).value;
    if Contains(content, RUST_END) {
      var j: nat :| Occurs(content, RUST_END, j);
      assert s[3 + j..3 + j + 2] == content[j..j + 2];
      assert Occurs(s, RUST_END, 3 + j);
      assert |s[3..k]| < |content|;
    } else {
      if k < end {
        PairInside(s, content, k);
      }
      assert s[k + 2..] == ";" && s[3..k] == content;
    }
  }

  /**
    The embedding refuses a grammar with `"#` in it. For the others the literal is the grammar exactly when
    the grammar has no carriage return: the compiler reads CRLF as a line feed and refuses a lone one. And it
    takes the literal as it is set by default exactly when no character turns the direction of text.
   */
  lemma RustLiteralIsGrammar(grammar: string)
    ensures RustValue(RawLiteral(grammar)) == Some(grammar) <==> !Contains(grammar, RUST_END) && '\r' !in grammar
    ensures RustTakes(RawLiteral(grammar)) <==> forall k | 0 <= k < |grammar| :: !TurnsText(grammar[k])
  {
    LiteralTaken(grammar);
    hide RawCharacters, RawLiteral, RustTakes, TurnsText;
    LiteralLines(grammar);
    LiteralCharacters(LinesRead(grammar));
    if '\r' !in grammar {
      LinesWithoutReturn(grammar);
    } else if RustValue(RawLiteral(grammar)) == Some(grammar) {
      assert false;
    }
  }

  lemma {:induction false} LiteralTaken(grammar: string)
    ensures RustTakes(RawLiteral(grammar)) <==> forall k | 0 <= k < |grammar| :: !TurnsText(grammar[k])
  {
    var s := RawLiteral(grammar);
    assert forall k | 0 <= k < |grammar| :: s[3 + k] == grammar[k];
  }

  /**
    A failing grammar for each: CRLF comes out as a line feed, `"#` ends the literal early, and an override of
    the direction of text is denied.
   */
  lemma RustTurnsLineEnd()
    ensures RustValue(RawLiteral("\r\n")) == Some("\n")
    ensures RustValue(RawLiteral(RUST_END)) != Some(RUST_END)
    ensures !RustTakes(RawLiteral("\U{202E}"))
  {
    assert TurnsText("\U{202E}"[0]);
    LiteralTaken("\U{202E}");
    LiteralLines("\r\n");
    assert LinesRead("\r\n") == "\n" by {
      assert "\r\n"[2..] == "";
      assert ['\n'] + "" == "\n";
    }
    assert forall j: nat :: !Occurs("\n", RUST_END, j);
    LiteralCharacters("\n");
    assert RUST_END[0..2] == RUST_END;
    assert Occurs(RUST_END, RUST_END, 0);
    RustLiteralIsGrammar(RUST_END);
  }

  lemma PairInside(s: string, grammar: string, k: nat)
    requires s == RawLiteral(grammar) && 3 <= k < 3 + |grammar| && Occurs(s, RUST_END, k)
    ensures Contains(grammar, RUST_END)
  {
    assert s[k] == s[k..k + 2][0] == '"' && s[k + 1] == s[k..k + 2][1] == '#';
    if k + 1 < 3 + |grammar| {
      assert grammar[k - 3..k - 3 + 2] == s[k..k + 2];
      assert Occurs(grammar, RUST_END, k - 3);
    }
  }

  // ---- The splice ----

  function BeginMarker(): string {
    "// --- BEGIN EMBEDDED json5-grammar.jsonic ---"
  }

  function EndMarker(): string {
    "// --- END EMBEDDED json5-grammar.jsonic ---"
  }

  /** The place where a pattern occurs first. */
  ghost predicate IsFirst(s: string, pattern: string, k: nat) {
    Occurs(s, pattern, k) && forall j | 0 <= j < k :: !Occurs(s, pattern, j)
  }

  /** What a caller gets: the markers with the new content between, and the rest of the file as it was. */
  ghost predicate IsSplice(src: string, content: string, out: string, b: nat, e: nat) {
    && b <= |src| && e + |EndMarker()| <= |src|
    && var last := ContentAt(src[..b]) + |content| + 1;
       && last + |EndMarker()| <= |out|
       && out[..b] == src[..b] && Occurs(out, BeginMarker(), b)
       && out[last - |content| - 1..last - 1] == content
       && out[last - |content| - 2] == '\n' && out[last - 1] == '\n'
       && Occurs(out, EndMarker(), last) && out[last + |EndMarker()|..] == src[e + |EndMarker()|..]
  }

  /**
    embed, on a file's text. It writes nothing exactly when a marker is missing. Otherwise what stands before
    the first opening marker and after the first closing one is kept, and the content stands between them,
    on lines of its own.
   */
  method Embed(src: string, content: string) returns (out: Option<string>)
    ensures out == None <==> !Contains(src, BeginMarker()) || !Contains(src, EndMarker())
    ensures out.Some? ==> exists b: nat, e: nat ::
              && IsFirst(src, BeginMarker(), b) && IsFirst(src, EndMarker(), e)
              && IsSplice(src, content, out.value, b, e)
    ensures out == Spliced(src, content)
  {
    hide BeginMarker, EndMarker, IsSplice, Replacement;
    var begin := IndexFrom(src, BeginMarker(), 0);
    var end := IndexFrom(src, EndMarker(), 0);
    if begin == None || end == None {
      return None;
    }
    var replacement := BeginMarker() + "\n" + content + "\n" + EndMarker();
    ReplacementIs(content);
    var text := src[..begin.value] + replacement + src[end.value + |EndMarker()|..];
    SpliceHolds(src, content, text, begin.value, end.value);
    out := Some(text);
  }

  lemma ReplacementIs(content: string)
    ensures Replacement(content) == BeginMarker() + "\n" + content + "\n" + EndMarker()
  {
  }

  lemma SpliceHolds(src: string, content: string, out: string, b: nat, e: nat)
    requires Occurs(src, BeginMarker(), b) && Occurs(src, EndMarker(), e)
    requires out == src[..b] + Replacement(content) + src[e + |EndMarker()|..]
    ensures IsSplice(src, content, out, b, e)
  {
    hide BeginMarker, EndMarker;
    var tail := src[e + |EndMarker()|..];
    Lines(out, src[..b], content, tail);
    PrefixKept(src, content, tail, b);
    assert out[..b] == src[..b] by {
      assert out[..b + |BeginMarker()|][..b] == out[..b];
    }
  }

  function Replacement(content: string): string {
    BeginMarker() + "\n" + content + "\n" + EndMarker()
  }

  function Spliced(src: string, content: string): Option<string> {
    var begin, end := IndexFrom(src, BeginMarker(), 0), IndexFrom(src, EndMarker(), 0);
    if begin == None || end == None then None
    else Some(src[..begin.value] + Replacement(content) + src[end.value + |EndMarker()|..])
  }

  lemma OccursAlike(s: string, t: string, n: nat, pattern: string, k: nat)
    requires n <= |s| && n <= |t| && s[..n] == t[..n] && k + |pattern| <= n
    ensures Occurs(s, pattern, k) == Occurs(t, pattern, k)
  {
    assert s[k..k + |pattern|] == s[..n][k..k + |pattern|];
    assert t[k..k + |pattern|] == t[..n][k..k + |pattern|];
  }

  lemma OccursInside(s: string, i: nat, part: string, pattern: string, k: nat)
    requires i + |part| <= |s| && s[i..i + |part|] == part && k + |pattern| <= |part|
    ensures Occurs(s, pattern, i + k) == Occurs(part, pattern, k)
  {
    var here, there := s[i + k..i + k + |pattern|], part[k..k + |pattern|];
    forall j | 0 <= j < |pattern| ensures here[j] == there[j] {
      assert s[i + k + j] == s[i..i + |part|][k + j];
    }
  }

  lemma OccursSpans(s: string, pattern: string, k: nat, p: nat)
    requires Occurs(s, pattern, k) && k <= p < k + |pattern|
    ensures s[p] in pattern
  {
    assert s[k..k + |pattern|][p - k] == s[p];
  }

  lemma FirstIs(s: string, pattern: string, k: nat)
    requires Occurs(s, pattern, k) && forall j | 0 <= j < k :: !Occurs(s, pattern, j)
    ensures IndexFrom(s, pattern, 0) == Some(k)
  {
  }

  /** A marker is one line, and the closing one is not in the opening one. */
  lemma Markers()
    ensures '\n' !in EndMarker() && |BeginMarker()| == |EndMarker()| + 2
    ensures forall d: nat :: !Occurs(BeginMarker(), EndMarker(), d)
  {
    OneLineMarker();
    MarkerSizes();
    hide BeginMarker, EndMarker;
    forall d: nat ensures !Occurs(BeginMarker(), EndMarker(), d) {
      if Occurs(BeginMarker(), EndMarker(), d) {
        NotWithin(d);
        assert false;
      }
    }
  }

  lemma OneLineMarker()
    ensures '\n' !in EndMarker()
  {
  }

  lemma MarkerSizes()
    ensures |EndMarker()| == 44 && |BeginMarker()| == 46
  {
  }

  lemma MarkerStarts()
    ensures |EndMarker()| == 44 && |BeginMarker()| == 46
    ensures EndMarker()[1] == '/' && EndMarker()[7] == 'E'
    ensures BeginMarker()[2] == ' ' && BeginMarker()[3] == '-' && BeginMarker()[7] == 'B'
  {
  }

  lemma NotWithin(d: nat)
    ensures !Occurs(BeginMarker(), EndMarker(), d)
  {
    MarkerStarts();
    hide BeginMarker, EndMarker;
    var begin, end := BeginMarker(), EndMarker();
    if d + |end| <= |begin| {
      assert begin[d..d + |end|][1] == begin[d + 1];
      assert begin[d..d + |end|][7] == begin[d + 7];
    }
  }

  /** A text with the replacement in it, and the places of its lines. */
  ghost predicate Holds(out: string, before: string, content: string, tail: string) {
    out == before + Replacement(content) + tail
  }

  function ContentAt(before: string): nat {
    |before| + |BeginMarker()| + 1
  }

  lemma Lines(out: string, before: string, content: string, tail: string)
    requires Holds(out, before, content, tail)
    ensures var c := ContentAt(before);
            && c + |content| + 1 + |EndMarker()| <= |out|
            && out[..|before| + |BeginMarker()|] == before + BeginMarker()
            && out[c - 1] == '\n' && out[c..c + |content|] == content && out[c + |content|] == '\n'
            && Occurs(out, EndMarker(), c + |content| + 1) && out[c + |content| + 1 + |EndMarker()|..] == tail
  {
    hide BeginMarker, EndMarker;
    var c := ContentAt(before);
    assert out == (before + BeginMarker()) + ("\n" + content + "\n" + EndMarker() + tail);
    assert out == (before + BeginMarker() + "\n") + (content + "\n" + EndMarker() + tail);
    assert out == (before + BeginMarker() + "\n" + content) + ("\n" + EndMarker() + tail);
    assert out == (before + BeginMarker() + "\n" + content + "\n") + (EndMarker() + tail);
    assert out == (before + BeginMarker() + "\n" + content + "\n" + EndMarker()) + tail;
  }

  /** What stands before the content is as it was, opening marker included. */
  lemma PrefixKept(src: string, content: string, tail: string, b: nat)
    requires Occurs(src, BeginMarker(), b)
    ensures var out := src[..b] + Replacement(content) + tail;
            && b + |BeginMarker()| <= |out| && b + |BeginMarker()| <= |src|
            && out[..b + |BeginMarker()|] == src[..b + |BeginMarker()|] && out[b..b + |BeginMarker()|] == BeginMarker()
  {
    hide BeginMarker, EndMarker;
    var out := src[..b] + Replacement(content) + tail;
    Lines(out, src[..b], content, tail);
    assert src[..b + |BeginMarker()|] == src[..b] + src[b..b + |BeginMarker()|];
    assert out[b..b + |BeginMarker()|] == out[..b + |BeginMarker()|][b..];
  }

  /** The opening marker stays where it was found first. */
  lemma BeginStays(src: string, content: string, tail: string, b: nat)
    requires IndexFrom(src, BeginMarker(), 0) == Some(b)
    ensures IndexFrom(src[..b] + Replacement(content) + tail, BeginMarker(), 0) == Some(b)
  {
    hide BeginMarker, EndMarker, Replacement;
    var out := src[..b] + Replacement(content) + tail;
    PrefixKept(src, content, tail, b);
    OccursAlike(out, src, b + |BeginMarker()|, BeginMarker(), b);
    forall j | 0 <= j < b ensures !Occurs(out, BeginMarker(), j) {
      OccursAlike(out, src, b + |BeginMarker()|, BeginMarker(), j);
    }
    FirstIs(out, BeginMarker(), b);
  }

  /** Where the closing marker can be in a spliced text: before the opening one, in the content, or where it was put. */
  lemma {:induction false} EndPlaces(src: string, content: string, tail: string, b: nat, k: nat)
    requires IndexFrom(src, BeginMarker(), 0) == Some(b)
    requires Occurs(src[..b] + Replacement(content) + tail, EndMarker(), k) && k < ContentAt(src[..b]) + |content| + 1
    ensures (k < b && Occurs(src, EndMarker(), k)) || Contains(content, EndMarker())
  {
    var out := src[..b] + Replacement(content) + tail;
    hide *;
    SplicedParts(out, src, content, tail, b);
    EndPlacesIn(out, src, content, b, k);
  }

  lemma {:induction false} SplicedParts(out: string, src: string, content: string, tail: string, b: nat)
    requires IndexFrom(src, BeginMarker(), 0) == Some(b) && out == src[..b] + Replacement(content) + tail
    ensures IsSplicedAt(out, src, content, b) && ContentAt(src[..b]) == b + |BeginMarker()| + 1
  {
    var before := src[..b];
    hide BeginMarker, EndMarker, Replacement, Occurs, IndexFrom;
    Lines(out, before, content, tail);
    PrefixKept(src, content, tail, b);
  }

  /** What a spliced text holds: what stood before the opening marker and the marker, and the content on its lines. */
  ghost predicate IsSplicedAt(out: string, src: string, content: string, b: nat) {
    var m := b + |BeginMarker()|;
    && m + 1 + |content| < |out| && m <= |src| && out[..m] == src[..m] && out[b..m] == BeginMarker()
    && out[m] == '\n' && out[m + 1..m + 1 + |content|] == content && out[m + 1 + |content|] == '\n'
  }

  lemma {:induction false} EndPlacesIn(out: string, src: string, content: string, b: nat, k: nat)
    requires IsSplicedAt(out, src, content, b)
    requires Occurs(out, EndMarker(), k) && k < b + |BeginMarker()| + 1 + |content| + 1
    ensures (k < b && Occurs(src, EndMarker(), k)) || Contains(content, EndMarker())
  {
    hide BeginMarker, EndMarker, Occurs, Contains;
    if k <= b + |BeginMarker()| {
      EndAbove(out, src, b, k);
    } else {
      EndInContent(out, content, b + |BeginMarker()| + 1, k);
    }
  }

  lemma EndAbove(out: string, src: string, b: nat, k: nat)
    requires b + |BeginMarker()| < |out| && b + |BeginMarker()| <= |src|
        && out[..b + |BeginMarker()|] == src[..b + |BeginMarker()|]
    requires out[b..b + |BeginMarker()|] == BeginMarker() && out[b + |BeginMarker()|] == '\n'
    requires Occurs(out, EndMarker(), k) && k <= b + |BeginMarker()|
    ensures k < b && Occurs(src, EndMarker(), k)
  {
    Markers();
    hide BeginMarker, EndMarker;
    if k + |EndMarker()| > b + |BeginMarker()| {
      OccursSpans(out, EndMarker(), k, b + |BeginMarker()|);
    }
    if k >= b {
      OccursInside(out, b, BeginMarker(), EndMarker(), k - b);
    }
    OccursAlike(out, src, b + |BeginMarker()|, EndMarker(), k);
  }

  lemma EndInContent(out: string, content: string, c: nat, k: nat)
    requires c + |content| < |out| && out[c..c + |content|] == content && out[c + |content|] == '\n'
    requires Occurs(out, EndMarker(), k) && c <= k <= c + |content|
    ensures Contains(content, EndMarker())
  {
    Markers();
    hide BeginMarker, EndMarker;
    if k + |EndMarker()| > c + |content| {
      OccursSpans(out, EndMarker(), k, c + |content|);
    }
    OccursInside(out, c, content, EndMarker(), k - c);
  }

  lemma SplicedForm(src: string, content: string) returns (b: nat, e: nat, tail: string)
    requires Spliced(src, content).Some?
    ensures b <= |src| && IndexFrom(src, BeginMarker(), 0) == Some(b) && IndexFrom(src, EndMarker(), 0) == Some(e)
    ensures Spliced(src, content) == Some(src[..b] + Replacement(content) + tail)
  {
    hide BeginMarker, EndMarker, Replacement;
    b, e := IndexFrom(src, BeginMarker(), 0).value, IndexFrom(src, EndMarker(), 0).value;
    tail := src[e + |EndMarker()|..];
  }

  /** With the closing marker found too early, the text spliced again is longer. */
  lemma Grows(before: string, content: string, tail: string)
    requires var out := before + Replacement(content) + tail;
             && IndexFrom(out, BeginMarker(), 0) == Some(|before|)
             && IndexFrom(out, EndMarker(), 0).Some? && IndexFrom(out, EndMarker(),
                0).value < ContentAt(before) + |content| + 1
    ensures var out := before + Replacement(content) + tail; Spliced(out, content) != Some(out)
  {
    hide BeginMarker, EndMarker, Replacement, IndexFrom, Contains;
    var out := before + Replacement(content) + tail;
    GrownBy(out, content, |before|, IndexFrom(out, EndMarker(), 0).value);
    PutLength(before, content, tail);
  }

  lemma PutLength(before: string, content: string, tail: string)
    ensures |before + Replacement(content) + tail| == ContentAt(before) + |content| + 1 + |EndMarker()| + |tail|
    ensures |Replacement(content)| == |BeginMarker()| + 1 + |content| + 1 + |EndMarker()|
  {
  }

  /** With the closing marker after the opening one, and not in the content, it is found where it was put. */
  lemma EndStays(src: string, content: string, tail: string, b: nat, e: nat)
    requires IndexFrom(src, BeginMarker(), 0) == Some(b) && IndexFrom(src, EndMarker(), 0) == Some(e)
    requires b < e && !Contains(content, EndMarker())
    ensures IndexFrom(src[..b] + Replacement(content) + tail, EndMarker(), 0)
        == Some(ContentAt(src[..b]) + |content| + 1)
  {
    var out, last := src[..b] + Replacement(content) + tail, ContentAt(src[..b]) + |content| + 1;
    hide BeginMarker, EndMarker, Replacement, Contains;
    Lines(out, src[..b], content, tail);
    forall k | 0 <= k < last ensures !Occurs(out, EndMarker(), k) {
      if Occurs(out, EndMarker(), k) {
        EndPlaces(src, content, tail, b, k);
      }
    }
    FirstIs(out, EndMarker(), last);
  }

  /** A text with both markers where they were put is spliced into itself. */
  lemma Settled(before: string, content: string, tail: string)
    requires var out := before + Replacement(content) + tail;
             && IndexFrom(out, BeginMarker(), 0) == Some(|before|)
             && IndexFrom(out, EndMarker(), 0) == Some(ContentAt(before) + |content| + 1)
    ensures var out := before + Replacement(content) + tail; Spliced(out, content) == Some(out)
  {
    hide BeginMarker, EndMarker, Replacement, IndexFrom;
    var out := before + Replacement(content) + tail;
    Lines(out, before, content, tail);
    assert out[..|before|] == before;
  }

  lemma GrownBy(out: string, content: string, b: nat, first: nat)
    requires IndexFrom(out, BeginMarker(), 0) == Some(b) && IndexFrom(out, EndMarker(), 0) == Some(first)
    ensures Spliced(out, content).Some?
    ensures |Spliced(out, content).value| == b + |Replacement(content)| + |out| - first - |EndMarker()|
  {
    hide BeginMarker, EndMarker, Replacement;
  }

  /** Otherwise the closing marker is found too early, and the text grows. */
  lemma {:induction false} EarlierEnd(src: string, content: string, tail: string, b: nat, e: nat)
    requires IndexFrom(src, BeginMarker(), 0) == Some(b) && IndexFrom(src, EndMarker(), 0) == Some(e)
    requires e <= b || Contains(content, EndMarker())
    ensures var found := IndexFrom(src[..b] + Replacement(content) + tail, EndMarker(), 0);
            found.Some? && found.value < ContentAt(src[..b]) + |content| + 1
  {
    Markers();
    hide BeginMarker, EndMarker;
    var out, c := src[..b] + Replacement(content) + tail, ContentAt(src[..b]);
    Lines(out, src[..b], content, tail);
    if e <= b {
      PrefixKept(src, content, tail, b);
      OccursAlike(out, src, b + |BeginMarker()|, EndMarker(), e);
      assert Occurs(out, EndMarker(), e);
    } else {
      var j: nat :| Occurs(content, EndMarker(), j);
      OccursInside(out, c, content, EndMarker(), j);
      assert Occurs(out, EndMarker(), c + j);
    }
  }

  /** Both markers are there, the opening one before the first closing one. */
  predicate InOrder(src: string) {
    var begin, end := IndexFrom(src, BeginMarker(), 0), IndexFrom(src, EndMarker(), 0);
    begin.Some? && end.Some? && begin.value < end.value
  }

  lemma SpliceSettles(src: string, content: string, out: string)
    requires Spliced(src, content) == Some(out) && InOrder(src) && !Contains(content, EndMarker())
    ensures Spliced(out, content) == Some(out)
  {
    hide BeginMarker, EndMarker, Replacement, IndexFrom, Contains, Spliced, Occurs, ContentAt;
    var b, e, tail := SplicedForm(src, content);
    assert b < e;
    hide InOrder;
    BeginStays(src, content, tail, b);
    EndStays(src, content, tail, b, e);
    var before := src[..b];
    assert |before| == b;
    Settled(before, content, tail);
  }

  lemma SpliceGrows(src: string, content: string, out: string)
    requires Spliced(src, content) == Some(out) && (!InOrder(src) || Contains(content, EndMarker()))
    ensures Spliced(out, content) != Some(out)
  {
    var b, e, tail := SplicedForm(src, content);
    hide BeginMarker, EndMarker, Replacement, IndexFrom, Contains, Spliced, Occurs;
    BeginStays(src, content, tail, b);
    EarlierEnd(src, content, tail, b, e);
    Grows(src[..b], content, tail);
  }

  /**
    Running the embedding again changes nothing exactly when the opening marker comes before the first
    closing one and the content does not have the closing marker in it.
   */
  lemma SpliceIdempotent(src: string, content: string, out: string)
    requires Spliced(src, content) == Some(out)
    ensures Spliced(out, content) == Some(out) <==> InOrder(src) && !Contains(content, EndMarker())
  {
    hide BeginMarker, EndMarker, InOrder, Contains, Spliced;
    if InOrder(src) && !Contains(content, EndMarker()) {
      SpliceSettles(src, content, out);
    } else {
      SpliceGrows(src, content, out);
    }
  }

  /** A failing content: the closing marker itself. It is spliced, and each run leaves one more behind. */
  lemma {:induction false} EndMarkerNeverSettles()
    ensures var first := Spliced(BeginMarker() + EndMarker(), EndMarker());
            first.Some? && Spliced(first.value, EndMarker()) != first
  {
    assert EndMarker()[0..|EndMarker()|] == EndMarker();
    assert Occurs(EndMarker(), EndMarker(), 0);
    hide BeginMarker, EndMarker;
    var src, n := BeginMarker() + EndMarker(), |BeginMarker()|;
    assert src[0..n] == BeginMarker() && src[n..n + |EndMarker()|] == EndMarker();
    assert Occurs(src, BeginMarker(), 0) && Occurs(src, EndMarker(), n);
    SpliceIdempotent(src, EndMarker(), Spliced(src, EndMarker()).value);
  }
}
