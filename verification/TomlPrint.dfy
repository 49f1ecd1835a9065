/**
  Statements written out as a TOML text, and read back (tools/port-deps.cjs): bare and quoted keys, escaped
  strings, arrays and inline tables, one statement a line, with blanks and comments between them.
 */
module TomlPrint {
  import opened Numerals
  import opened Wrappers
  import opened StringLiteral
  import opened TomlSyntax

  const COMMA: nat := ',' as nat

  // ---- Writing ----

  /**
    How a text is laid out: the names that are written bare where they can be, the blanks between the parts,
    the comment at the end of each line, and whether the last item of a list has a comma after it.
   */
  datatype Layout = Layout(bare: set<Name>, pad: seq<nat>, note: seq<nat>, lastComma: bool)

  predicate IsLayout(y: Layout) {
    && (forall k | 0 <= k < |y.pad| :: y.pad[k] == ' ' as nat || y.pad[k] == '\t' as nat)
    && '\n' as nat !in y.note && (y.note != [] ==> y.note[0] == '#' as nat)
  }

  type Style = y: Layout | IsLayout(y) witness Layout({}, [], [], true)

  function WrittenName(name: Name): (w: seq<nat>)
    ensures |w| == |Escaped(name)| + 2 && w[0] == QUOTE
  {
    [QUOTE] + Escaped(name) + [QUOTE]
  }

  predicate IsBareChar(c: nat) {
    || ('a' as nat <= c <= 'z' as nat) || ('A' as nat <= c <= 'Z' as nat) || ('0' as nat <= c <= '9' as nat)
    || c == '_' as nat || c == '-' as nat
  }

  /** A name that can stand in a key without quotes. */
  predicate IsBareName(name: Name) {
    0 < |name| <= 256 && forall k | 0 <= k < |name| :: IsBareChar(name[k])
  }

  predicate StartsKey(c: nat) {
    c == '"' as nat || IsBareChar(c)
  }

  /** A part of a key, without quotes if it is one of the bare ones and can be. */
  function WrittenPart(bare: set<Name>, name: Name): (w: seq<nat>)
    ensures w != [] && StartsKey(w[0])
  {
    if name in bare && IsBareName(name) then name else WrittenName(name)
  }

  function WrittenKey(y: Style, names: seq<Name>): (w: seq<nat>)
    requires names != []
    ensures w != [] && StartsKey(w[0])
  {
    var w := WrittenPart(y.bare, names[0]) + y.pad;
    if |names| == 1 then w else w + [DOT] + (y.pad + WrittenKey(y, names[1..]))
  }

  /** The values that one line can hold: every key has a part, and other scalars are runs of their characters. */
  predicate IsWritable(v: Value, line: nat)
    decreases v
  {
    match v
    case StringValue(l, _) => l == line
    case BoolValue(l, _) => l == line
    case RawValue(l, raw) => l == line && (IsPlain(raw) || IsDateTime(raw))
    case ArrayValue(l, items) => l == line && forall k | 0 <= k < |items| :: IsWritable(items[k], line)
    case InlineValue(l, entries) => l == line && forall k | 0 <= k < |entries| :: IsWritableEntry(entries[k], line)
  }

  predicate IsWritableEntry(entry: Entry, line: nat)
    decreases entry
  {
    entry.keys != [] && IsWritable(entry.value, line)
  }

  /** A number, a date or a time, or anything else of their characters that is no boolean. */
  predicate IsPlain(raw: seq<nat>) {
    && 0 < |raw| <= 256 && raw != Codes("true") && raw != Codes("false")
    && forall k | 0 <= k < |raw| :: IsPlainChar(raw[k])
  }

  predicate IsPlainChar(c: nat) {
    || ('a' as nat <= c <= 'z' as nat) || ('A' as nat <= c <= 'Z' as nat) || ('0' as nat <= c <= '9' as nat)
    || c == '+' as nat || c == '-' as nat || c == '_' as nat || c == '.' as nat || c == ':' as nat
  }

  predicate IsDigitChar(c: nat) {
    '0' as nat <= c <= '9' as nat
  }

  predicate IsClockChar(c: nat) {
    || IsDigitChar(c) || c == ':' as nat || c == '.' as nat || c == '+' as nat || c == '-' as nat
    || c == 'Z' as nat || c == 'z' as nat
  }

  /** A date, a space, and a time of at most 63 characters. */
  predicate IsDateTime(raw: seq<nat>) {
    && 15 <= |raw| <= 74
    && raw[4] == '-' as nat && raw[7] == '-' as nat && raw[10] == ' ' as nat && raw[13] == ':' as nat
    && (forall k | 0 <= k < 13 && k != 4 && k != 7 && k != 10 :: IsDigitChar(raw[k]))
    && forall k | 14 <= k < |raw| :: IsClockChar(raw[k])
  }

  function WrittenValue(y: Style, v: Value, line: nat): seq<nat>
    requires IsWritable(v, line)
    decreases v
  {
    match v
    case StringValue(_, s) => WrittenName(s)
    case BoolValue(_, b) => Codes(if b then "true" else "false")
    case RawValue(_, raw) => raw
    case ArrayValue(_, items) => [OPEN_BRACKET] + (WrittenItems(y, items, line) + y.pad) + [CLOSE_BRACKET]
    case InlineValue(_, entries) => [OPEN_BRACE] + (WrittenEntries(y, entries, line) + y.pad) + [CLOSE_BRACE]
  }

  /** What is written after an item: a comma, but none has to be after the last one. */
  function CommaAfter(y: Style, left: nat): seq<nat> {
    if left > 1 || y.lastComma then [COMMA] else []
  }

  function WrittenItems(y: Style, items: seq<Value>, line: nat): seq<nat>
    requires forall k | 0 <= k < |items| :: IsWritable(items[k], line)
    decreases items
  {
    if items == [] then []
    else y.pad + WrittenValue(y, items[0], line) + y.pad + CommaAfter(y, |items|) + WrittenItems(y, items[1..], line)
  }

  function WrittenEntries(y: Style, entries: seq<Entry>, line: nat): seq<nat>
    requires forall k | 0 <= k < |entries| :: IsWritableEntry(entries[k], line)
    decreases entries
  {
    if entries == [] then []
    else
      y.pad + WrittenEntry(y, entries[0], line) + y.pad + CommaAfter(y, |entries|)
      + WrittenEntries(y, entries[1..], line)
  }

  function WrittenEntry(y: Style, entry: Entry, line: nat): seq<nat>
    requires IsWritableEntry(entry, line)
    decreases entry
  {
    WrittenKey(y, entry.keys) + [EQUALS] + (y.pad + WrittenValue(y, entry.value, line))
  }

  predicate IsWritableStatement(s: Statement, line: nat) {
    s.line == line && s.keys != [] && (s.Pair? ==> IsWritable(s.value, line))
  }

  function Brackets(bracket: nat, twice: bool): seq<nat> {
    if twice then [bracket, bracket] else [bracket]
  }

  function WrittenHeader(y: Style, keys: seq<Name>, twice: bool): seq<nat>
    requires keys != []
  {
    Brackets(OPEN_BRACKET, twice) + (y.pad + WrittenKey(y, keys)) + Brackets(CLOSE_BRACKET, twice)
  }

  function WrittenStatement(y: Style, s: Statement, line: nat): seq<nat>
    requires IsWritableStatement(s, line)
  {
    match s
    case Header(_, keys, twice) => WrittenHeader(y, keys, twice)
    case Pair(_, keys, value) => WrittenEntry(y, Entry(keys, value), line)
  }

  /** The statements, one a line, from a line on. */
  function Written(y: Style, ss: seq<Statement>, line: nat): seq<nat>
    requires forall k | 0 <= k < |ss| :: IsWritableStatement(ss[k], line + k)
  {
    if ss == [] then []
    else
      assert forall k | 0 <= k < |ss| - 1 :: ss[1..][k] == ss[k + 1];
      (y.pad + WrittenStatement(y, ss[0], line) + y.pad + y.note) + [LF] + Written(y, ss[1..], line + 1)
  }

  // ---- Reading back ----

  /** What a text has at a place. */
  ghost predicate Stands(text: seq<nat>, i: nat, w: seq<nat>) {
    i + |w| <= |text| && text[i..i + |w|] == w
  }

  lemma StandsBoth(text: seq<nat>, i: nat, a: seq<nat>, b: seq<nat>)
    requires Stands(text, i, a + b)
    ensures Stands(text, i, a) && Stands(text, i + |a|, b)
  {
    assert text[i..i + |a|] == (a + b)[..|a|];
    assert text[i + |a|..i + |a| + |b|] == (a + b)[|a|..];
  }

  lemma StandsThree(text: seq<nat>, i: nat, a: seq<nat>, c: nat, b: seq<nat>)
    requires Stands(text, i, a + [c] + b)
    ensures Stands(text, i, a) && i + |a| < |text| && text[i + |a|] == c && Stands(text, i + |a| + 1, b)
  {
    StandsBoth(text, i, a + [c], b);
    StandsBoth(text, i, a, [c]);
  }

  lemma StandsFirst(text: seq<nat>, i: nat, w: seq<nat>)
    requires Stands(text, i, w) && w != []
    ensures i < |text| && text[i] == w[0]
  {
    assert text[i] == text[i..i + |w|][0];
  }

  lemma {:induction false} EscapedHasNoQuote(v: seq<nat>)
    ensures if v == [] then Escaped(v) == [] else Escaped(v) != [] && Escaped(v)[0] != QUOTE
    ensures LF !in Escaped(v)
  {
    if v != [] {
      EscapedHasNoQuote(v[1..]);
    }
  }

  lemma {:induction false} NameReads(text: seq<nat>, i: nat, name: Name)
    requires Stands(text, i, WrittenName(name)) && i + |WrittenName(name)| < |text|
    requires text[i + |WrittenName(name)|] != QUOTE
    ensures IsQuoteAt(text, i) && !TripleAt(text, i, QUOTE)
    ensures StringFrom(text, i) == Some((name, i + |WrittenName(name)|))
    ensures NameFrom(text, i) == Some((name, i + |WrittenName(name)|))
  {
    hide ShortFrom, TripleAt, WrittenName, Escaped, Stands;
    NameStands(text, i, name);
    EscapedReadsBack(name, text, i + 1, text[i + |WrittenName(name)|..]);
  }

  lemma BareReads(text: seq<nat>, i: nat, name: Name)
    requires IsBareName(name) && Stands(text, i, name) && i + |name| < |text| && !IsBareChar(text[i + |name|])
    ensures NameFrom(text, i) == Some((name, i + |name|))
  {
    hide RunEnd;
    StandsFirst(text, i, name);
    assert forall c: nat :: IsKeyChar(c) <==> IsBareChar(c);
    RunHere(text, i, name, IsKeyChar, 256);
  }

  lemma NameStands(text: seq<nat>, i: nat, name: Name)
    requires Stands(text, i, WrittenName(name)) && i + |WrittenName(name)| < |text|
    requires text[i + |WrittenName(name)|] != QUOTE
    ensures i + 1 < |text| && text[i] == QUOTE && !TripleAt(text, i, QUOTE)
    ensures text[i + 1..] == Escaped(name) + [QUOTE] + text[i + |WrittenName(name)|..]
  {
    var e := Escaped(name);
    hide Escaped;
    StandsFirst(text, i, WrittenName(name));
    assert WrittenName(name) == [QUOTE] + (e + [QUOTE]);
    StandsBoth(text, i, [QUOTE], e + [QUOTE]);
    EscapedHasNoQuote(name);
    StandsFirst(text, i + 1, e + [QUOTE]);
    assert text[i + 1..] == text[i + 1..i + 1 + |e| + 1] + text[i + 1 + |e| + 1..];
  }

  // ---- Blanks between the parts ----

  lemma BlankEndHere(text: seq<nat>, i: nat)
    requires i <= |text| && (i < |text| ==> !IsBlank(text[i]))
    ensures BlankEnd(text, i) == i
  {
  }

  lemma GapEndHere(text: seq<nat>, i: nat)
    requires i <= |text| && (i < |text| ==> !IsBlank(text[i]) && text[i] != LF && text[i] != HASH)
    ensures GapEnd(text, i) == i
  {
  }

  /** Blanks are passed over, and stay on their line. */
  lemma {:induction false} PadPassed(y: Style, text: seq<nat>, i: nat, w: seq<nat>)
    requires w <= y.pad && Stands(text, i, w)
    ensures BlankEnd(text, i) == BlankEnd(text, i + |w|)
    decreases |w|
  {
    if w != [] {
      var n := |w| - 1;
      assert w == w[..n] + [w[n]];
      StandsBoth(text, i, w[..n], [w[n]]);
      StandsFirst(text, i + n, [w[n]]);
      PadPassed(y, text, i, w[..n]);
      assert IsBlank(y.pad[n]);
    }
  }

  lemma GapByBlanks(text: seq<nat>, i: nat, j: nat)
    requires i <= |text| && j <= |text| && BlankEnd(text, i) == BlankEnd(text, j)
    ensures GapEnd(text, i) == GapEnd(text, j) && LineEndFrom(text, i) == LineEndFrom(text, j)
    ensures KeyFrom(text, i) == KeyFrom(text, j)
  {
    hide BlankEnd, NameFrom;
  }

  lemma PadStays(y: Style, text: seq<nat>, i: nat)
    requires Stands(text, i, y.pad)
    ensures LineAt(text, i + |y.pad|) == LineAt(text, i)
  {
    hide LineAt;
    LineStays(text, i, y.pad);
  }

  /** What a layout's blanks change: nothing. */
  lemma PadGoes(y: Style, text: seq<nat>, i: nat)
    requires Stands(text, i, y.pad)
    ensures i + |y.pad| <= |text|
    ensures var j := i + |y.pad|;
            && BlankEnd(text, i) == BlankEnd(text, j) && GapEnd(text, i) == GapEnd(text, j)
            && LineEndFrom(text, i) == LineEndFrom(text, j) && KeyFrom(text, i) == KeyFrom(text, j)
            && LineAt(text, i) == LineAt(text, j)
  {
    hide BlankEnd, GapEnd, LineEndFrom, KeyFrom, LineAt;
    PadPassed(y, text, i, y.pad);
    GapByBlanks(text, i, i + |y.pad|);
    PadStays(y, text, i);
  }

  /** After blanks stands what stands after them, or one of them. */
  lemma PadFirst(y: Style, text: seq<nat>, i: nat, c: nat)
    requires Stands(text, i, y.pad) && i + |y.pad| < |text| && text[i + |y.pad|] == c
    ensures i < |text| && (text[i] == c || IsBlank(text[i]))
    ensures IsBlank(text[i]) && text[i] != c ==> i + 1 < |text| && (text[i + 1] == c || IsBlank(text[i + 1]))
  {
    if y.pad != [] {
      assert text[i] == text[i..i + |y.pad|][0] == y.pad[0];
      if |y.pad| > 1 {
        assert text[i + 1] == text[i..i + |y.pad|][1] == y.pad[1];
      }
    }
  }

  // ---- Keys ----

  lemma {:induction false} RunHere(text: seq<nat>, i: nat, w: seq<nat>, fits: nat -> bool, limit: nat)
    requires Stands(text, i, w) && |w| <= limit && i + |w| < |text| && !fits(text[i + |w|])
    requires forall k | 0 <= k < |w| :: fits(w[k])
    ensures RunEnd(text, i, fits, limit) == i + |w|
    decreases limit
  {
    if w != [] {
      assert w == [w[0]] + w[1..];
      StandsBoth(text, i, [w[0]], w[1..]);
      StandsFirst(text, i, w);
      RunHere(text, i + 1, w[1..], fits, limit - 1);
    }
  }

  /** One part of a key, and the blanks after it. */
  lemma PartReads(y: Style, text: seq<nat>, i: nat, name: Name)
    requires Stands(text, i, WrittenPart(y.bare, name) + y.pad)
    requires var e := i + |WrittenPart(y.bare, name) + y.pad|;
             e < |text| && (text[e] == DOT || text[e] == EQUALS || text[e] == CLOSE_BRACKET)
    ensures var w := WrittenPart(y.bare, name);
            && i < |text| && BlankEnd(text, i) == i && NameFrom(text, i) == Some((name, i + |w|))
            && i + |w| <= |text| && BlankEnd(text, i + |w|) == i + |w + y.pad|
  {
    hide *;
    var w := WrittenPart(y.bare, name);
    StandsBoth(text, i, w, y.pad);
    StandsFirst(text, i, w);
    PadGoes(y, text, i + |w|);
    PadFirst(y, text, i + |w|, text[i + |w| + |y.pad|]);
    KeyMarks(text, i + |w| + |y.pad|);
    NamePartReads(y.bare, text, i, name);
  }

  lemma KeyMarks(text: seq<nat>, e: nat)
    requires e < |text| && (text[e] == DOT || text[e] == EQUALS || text[e] == CLOSE_BRACKET)
    ensures BlankEnd(text, e) == e
  {
  }

  lemma NamePartReads(bare: set<Name>, text: seq<nat>, i: nat, name: Name)
    requires Stands(text, i, WrittenPart(bare, name)) && i < |text| && StartsKey(text[i])
    requires var e := i + |WrittenPart(bare, name)|;
             e < |text| && (text[e] == DOT || text[e] == EQUALS || text[e] == CLOSE_BRACKET || IsBlank(text[e]))
    ensures BlankEnd(text, i) == i && NameFrom(text, i) == Some((name, i + |WrittenPart(bare, name)|))
  {
    hide NameFrom, Stands;
    if name in bare && IsBareName(name) {
      BareReads(text, i, name);
    } else {
      NameReads(text, i, name);
    }
  }

  lemma {:induction false} KeyReads(y: Style, text: seq<nat>, i: nat, names: seq<Name>)
    requires names != [] && Stands(text, i, WrittenKey(y, names)) && i + |WrittenKey(y, names)| < |text|
    requires text[i + |WrittenKey(y, names)|] == EQUALS || text[i + |WrittenKey(y, names)|] == CLOSE_BRACKET
    ensures KeyFrom(text, i) == Some((names, i + |WrittenKey(y, names)|))
    decreases |names|
  {
    hide *;
    var w := WrittenPart(y.bare, names[0]);
    KeySplit(y, names);
    if |names| == 1 {
      PartReads(y, text, i, names[0]);
      KeyEnds(text, i, names, i + |w|);
    } else {
      var more := WrittenKey(y, names[1..]);
      StandsThree(text, i, w + y.pad, DOT, y.pad + more);
      PartReads(y, text, i, names[0]);
      var k := i + |w + y.pad|;
      StandsBoth(text, k + 1, y.pad, more);
      PadGoes(y, text, k + 1);
      KeyReads(y, text, k + 1 + |y.pad|, names[1..]);
      KeyGoesOn(text, i, names, i + |w|);
    }
  }

  lemma KeySplit(y: Style, names: seq<Name>)
    requires names != []
    ensures |names| == 1 ==> WrittenKey(y, names) == WrittenPart(y.bare, names[0]) + y.pad
    ensures |names| > 1 ==>
              var w, more := WrittenPart(y.bare, names[0]) + y.pad, WrittenKey(y, names[1..]);
              && WrittenKey(y, names) == w + [DOT] + (y.pad + more)
              && |WrittenKey(y, names)| == |w| + 1 + |y.pad| + |more|
    ensures DOT != EQUALS && DOT != CLOSE_BRACKET
  {
  }

  lemma KeyEnds(text: seq<nat>, i: nat, names: seq<Name>, e: nat)
    requires |names| == 1 && i <= |text| && BlankEnd(text, i) == i && NameFrom(text, i) == Some((names[0], e))
    requires BlankEnd(text, e) < |text| && text[BlankEnd(text, e)] != DOT
    ensures KeyFrom(text, i) == Some((names, BlankEnd(text, e)))
  {
    hide NameFrom, BlankEnd;
    assert names == [names[0]];
  }

  lemma KeyGoesOn(text: seq<nat>, i: nat, names: seq<Name>, e: nat)
    requires names != [] && i <= e <= |text| && BlankEnd(text, i) == i && NameFrom(text, i) == Some((names[0], e))
    requires BlankEnd(text, e) < |text| && text[BlankEnd(text, e)] == DOT
    requires KeyFrom(text, BlankEnd(text, e) + 1).Some?
    requires KeyFrom(text, BlankEnd(text, e) + 1).value.0 == names[1..]
    ensures KeyFrom(text, i) == Some((names, KeyFrom(text, BlankEnd(text, e) + 1).value.1))
  {
    hide NameFrom, BlankEnd;
    assert [names[0]] + names[1..] == names;
  }

  // ---- Values ----

  /** What may follow a value, after blanks. */
  predicate Stops(c: nat) {
    c == COMMA || c == CLOSE_BRACKET || c == CLOSE_BRACE || c == HASH || c == LF
  }

  ghost predicate Ends(text: seq<nat>, e: nat) {
    && e < |text| && (Stops(text[e]) || IsBlank(text[e]))
    && (IsBlank(text[e]) ==> e + 1 < |text| && (Stops(text[e + 1]) || IsBlank(text[e + 1])))
  }

  lemma PadEnds(y: Style, text: seq<nat>, e: nat)
    requires Stands(text, e, y.pad) && e + |y.pad| < |text| && Stops(text[e + |y.pad|])
    ensures Ends(text, e)
  {
    PadFirst(y, text, e, text[e + |y.pad|]);
  }

  lemma ScalarReads(text: seq<nat>, i: nat, raw: seq<nat>)
    requires Stands(text, i, raw) && 0 < |raw| <= 256 && forall k | 0 <= k < |raw| :: IsPlainChar(raw[k])
    requires Ends(text, i + |raw|)
    ensures ScalarFrom(text, i) == Some((raw, i + |raw|))
    ensures !IsQuoteAt(text, i) && text[i] != OPEN_BRACKET && text[i] != OPEN_BRACE
  {
    hide RunEnd, IsDate;
    StandsFirst(text, i, raw);
    assert forall c: nat :: IsScalarChar(c) <==> IsPlainChar(c);
    RunHere(text, i, raw, IsScalarChar, 256);
    var e := i + |raw|;
    assert TimeEnd(text, e) == e;
    assert text[i..e] + text[e..e] == raw;
  }

  lemma {:induction false} ValueReads(y: Style, text: seq<nat>, i: nat, v: Value, line: nat)
    requires IsWritable(v, line) && Stands(text, i, WrittenValue(y, v, line)) && LineAt(text, i) == line
    requires Ends(text, i + |WrittenValue(y, v, line)|)
    ensures ValueFrom(text, i) == Some((v, i + |WrittenValue(y, v, line)|))
    ensures LineAt(text, i + |WrittenValue(y, v, line)|) == line
    decreases v, 1
  {
    hide StringFrom, ScalarFrom, ItemsFrom, EntriesFrom, LineAt, WrittenItems, WrittenEntries, LineFeeds, Stands, Ends;
    match v {
      case StringValue(_, s) => TextReads(text, i, s);
      case BoolValue(_, b) =>
        BooleansAre();
        PlainReads(text, i, Codes(if b then "true" else "false"));
      case RawValue(_, raw) =>
        BooleansAre();
        if IsPlain(raw) {
          PlainReads(text, i, raw);
        } else {
          DateReads(text, i, raw);
        }
      case ArrayValue(_, items) =>
        OpensHere(text, i, OPEN_BRACKET, WrittenItems(y, items, line) + y.pad, CLOSE_BRACKET);
        ItemsRead(y, text, i + 1, items, line);
      case InlineValue(_, entries) =>
        OpensHere(text, i, OPEN_BRACE, WrittenEntries(y, entries, line) + y.pad, CLOSE_BRACE);
        EntriesRead(y, text, i + 1, entries, line);
    }
  }

  lemma BooleansAre()
    ensures TRUE == Codes("true") && FALSE == Codes("false")
    ensures forall k | 0 <= k < 4 :: IsPlainChar(TRUE[k])
    ensures forall k | 0 <= k < 5 :: IsPlainChar(FALSE[k])
  {
  }

  lemma TextReads(text: seq<nat>, i: nat, s: seq<nat>)
    requires var w := WrittenName(s); Stands(text, i, w) && Ends(text, i + |w|)
    ensures var w := WrittenName(s);
            && IsQuoteAt(text, i) && StringFrom(text, i) == Some((s, i + |w|))
            && LineAt(text, i + |w|) == LineAt(text, i)
  {
    hide StringFrom;
    NameReads(text, i, s);
    EscapedHasNoQuote(s);
    LineStays(text, i, WrittenName(s));
  }

  lemma PlainReads(text: seq<nat>, i: nat, raw: seq<nat>)
    requires Stands(text, i, raw) && 0 < |raw| <= 256 && forall k | 0 <= k < |raw| :: IsPlainChar(raw[k])
    requires Ends(text, i + |raw|)
    ensures ScalarFrom(text, i) == Some((raw, i + |raw|)) && LineAt(text, i + |raw|) == LineAt(text, i)
    ensures !IsQuoteAt(text, i) && text[i] != OPEN_BRACKET && text[i] != OPEN_BRACE
  {
    hide ScalarFrom, LineAt;
    ScalarReads(text, i, raw);
    LineStays(text, i, raw);
  }

  lemma DateReads(text: seq<nat>, i: nat, raw: seq<nat>)
    requires Stands(text, i, raw) && IsDateTime(raw) && Ends(text, i + |raw|)
    ensures ScalarFrom(text, i) == Some((raw, i + |raw|)) && LineAt(text, i + |raw|) == LineAt(text, i)
    ensures !IsQuoteAt(text, i) && text[i] != OPEN_BRACKET && text[i] != OPEN_BRACE
  {
    hide ScalarFrom, TimeEnd, LineAt, RunEnd;
    var date, time := raw[..10], raw[14..];
    assert raw == date + raw[10..14] + time;
    StandsBoth(text, i, date + raw[10..14], time);
    StandsBoth(text, i, date, raw[10..14]);
    assert text[i..i + |raw|] == raw;
    assert text[i] == raw[0] && text[i + 10] == raw[10] && text[i + 11] == raw[11] && text[i + 12] == raw[12];
    assert text[i + 13] == raw[13] && text[i + 14] == raw[14];
    assert IsDigitChar(raw[0]) && IsDigitChar(raw[11]) && IsDigitChar(raw[12]) && IsClockChar(raw[14]);
    RunHere(text, i, date, IsScalarChar, 256);
    RunHere(text, i + 14, time, IsTimeChar, 60);
    assert IsDate(date);
    TimeHere(text, i + 10);
    DateThenTime(text, i, raw);
    LineStays(text, i, raw);
  }

  lemma TimeHere(text: seq<nat>, i: nat)
    requires i + 4 < |text| && text[i] == BLANK && IsDigit(text[i + 1]) && IsDigit(text[i + 2])
    requires text[i + 3] == ':' as nat && IsTimeChar(text[i + 4])
    ensures TimeEnd(text, i) == RunEnd(text, i + 4, IsTimeChar, 60)
  {
  }

  lemma DateThenTime(text: seq<nat>, i: nat, raw: seq<nat>)
    requires i + |raw| <= |text| && |raw| >= 10 && text[i..i + |raw|] == raw && IsDate(raw[..10])
    requires RunEnd(text, i, IsScalarChar, 256) == i + 10 && TimeEnd(text, i + 10) == i + |raw|
    ensures ScalarFrom(text, i) == Some((raw, i + |raw|))
  {
    hide RunEnd, TimeEnd, IsDate;
    assert text[i..i + 10] == text[i..i + |raw|][..10] == raw[..10];
    assert text[i..i + 10] + text[i + 10..i + |raw|] == text[i..i + |raw|];
  }

  lemma OpensHere(text: seq<nat>, i: nat, opener: nat, w: seq<nat>, closer: nat)
    requires Stands(text, i, [opener] + w + [closer]) && opener != LF
    ensures i + 1 <= |text| && text[i] == opener && Stands(text, i + 1, w + [closer])
    ensures LineAt(text, i + 1) == LineAt(text, i)
  {
    assert [opener] + w + [closer] == [] + [opener] + (w + [closer]);
    StandsThree(text, i, [], opener, w + [closer]);
  }

  /** Nothing without a line feed moves to another line. */
  lemma LineStays(text: seq<nat>, i: nat, w: seq<nat>)
    requires Stands(text, i, w) && LF !in w
    ensures LineAt(text, i + |w|) == LineAt(text, i)
  {
    forall k | i <= k < i + |w| ensures text[k] != LF {
      assert text[k] == text[i..i + |w|][k - i] == w[k - i];
    }
    NoLineFeeds(text, i, i + |w|);
  }

  lemma {:induction false} ItemsRead(y: Style, text: seq<nat>, i: nat, items: seq<Value>, line: nat)
    requires forall k | 0 <= k < |items| :: IsWritable(items[k], line)
    requires Stands(text, i, WrittenItems(y, items, line) + y.pad + [CLOSE_BRACKET]) && LineAt(text, i) == line
    ensures ItemsFrom(text, i) == Some((items, i + |WrittenItems(y, items, line)| + |y.pad| + 1))
    ensures LineAt(text, i + |WrittenItems(y, items, line)| + |y.pad| + 1) == line
    decreases items, 0
  {
    hide *;
    NothingWritten(y, line);
    if items == [] {
      NoItems(y, text, i);
    } else {
      var w, comma, more := WrittenValue(y, items[0], line), CommaAfter(y, |items|), WrittenItems(y, items[1..], line);
      ItemsSplit(y, items, line);
      TailIs(y, |items|, more, CLOSE_BRACKET);
      Spot(y, text, i, w, comma, more + y.pad + [CLOSE_BRACKET], CLOSE_BRACKET);
      var p := i + |y.pad|;
      ValueBegins(y, text, p, items[0], line);
      ValueReads(y, text, p, items[0], line);
      ItemsRead(y, text, p + |w| + |y.pad| + |comma|, items[1..], line);
      ItemThenItems(text, i, p, items, p + |w|, p + |w| + |y.pad| + |comma|);
    }
  }

  lemma NothingWritten(y: Style, line: nat)
    ensures WrittenItems(y, [], line) == [] && WrittenEntries(y, [], line) == []
    ensures [] + y.pad == y.pad
  {
  }

  lemma ItemsSplit(y: Style, items: seq<Value>, line: nat)
    requires items != [] && forall k | 0 <= k < |items| :: IsWritable(items[k], line)
    ensures var w, more := WrittenValue(y, items[0], line), WrittenItems(y, items[1..], line);
            && WrittenItems(y, items, line) + y.pad + [CLOSE_BRACKET]
               == y.pad + (w + (y.pad + (CommaAfter(y, |items|) + (more + y.pad + [CLOSE_BRACKET]))))
            && |WrittenItems(y, items, line)| == |y.pad| + |w| + |y.pad| + |CommaAfter(y, |items|)| + |more|
  {
    hide WrittenValue, CommaAfter;
    var w, more := WrittenValue(y, items[0], line), WrittenItems(y, items[1..], line);
    Regroup(y.pad, w, CommaAfter(y, |items|), more, CLOSE_BRACKET);
  }

  lemma Regroup(pad: seq<nat>, w: seq<nat>, comma: seq<nat>, more: seq<nat>, closer: nat)
    ensures pad + w + pad + comma + more + pad + [closer] == pad + (w + (pad + (comma + (more + pad + [closer]))))
  {
  }

  /** What follows an item: blanks, and a comma and the tail, or no comma and more blanks and the closer. */
  ghost predicate IsTail(y: Style, comma: seq<nat>, tail: seq<nat>, closer: nat) {
    && (closer == CLOSE_BRACKET || closer == CLOSE_BRACE)
    && (comma == [COMMA] || (comma == [] && tail == y.pad + [closer]))
  }

  lemma TailIs(y: Style, left: nat, more: seq<nat>, closer: nat)
    requires left > 0 && (left == 1 ==> more == []) && (closer == CLOSE_BRACKET || closer == CLOSE_BRACE)
    ensures IsTail(y, CommaAfter(y, left), more + y.pad + [closer], closer) && LF !in y.pad + CommaAfter(y, left)
  {
    if left == 1 {
      assert [] + y.pad == y.pad;
    }
  }

  /** After an item a comma, and k is past it; or the closer, and the gap at k ends there too. */
  ghost predicate Goes(text: seq<nat>, e: nat, k: nat, closer: nat) {
    && e <= |text| && k <= |text| && GapEnd(text, e) < |text|
    && (text[GapEnd(text, e)] == COMMA || text[GapEnd(text, e)] == closer)
    && if text[GapEnd(text, e)] == COMMA then k == GapEnd(text, e) + 1
       else GapEnd(text, k) == GapEnd(text, GapEnd(text, e))
  }

  lemma GoesOn(text: seq<nat>, e: nat, k: nat, closer: nat)
    requires Goes(text, e, k, closer) && (closer == CLOSE_BRACKET || closer == CLOSE_BRACE)
    ensures CommaEnd(text, GapEnd(text, e), closer).Some?
    ensures var next := CommaEnd(text, GapEnd(text, e), closer).value;
            ItemsFrom(text, next) == ItemsFrom(text, k) && EntriesFrom(text, next) == EntriesFrom(text, k)
  {
    hide GapEnd, ItemsFrom, EntriesFrom;
    if text[GapEnd(text, e)] != COMMA {
      ItemsOver(text, GapEnd(text, e), k);
    }
  }

  /** An item among others: blanks, what is written of it, and what follows. */
  lemma Spot(y: Style, text: seq<nat>, i: nat, w: seq<nat>, comma: seq<nat>, tail: seq<nat>, closer: nat)
    requires Stands(text, i, y.pad + (w + (y.pad + (comma + tail)))) && IsTail(y, comma, tail, closer)
    requires LF !in y.pad + comma
    ensures var p := i + |y.pad|;
            var e := p + |w|;
            var k := e + |y.pad| + |comma|;
            && p <= |text| && e <= |text| && k <= |text|
            && Stands(text, p, w) && Ends(text, e) && Stands(text, k, tail) && Goes(text, e, k, closer)
            && GapEnd(text, i) == GapEnd(text, p) && LineAt(text, p) == LineAt(text, i)
            && LineAt(text, k) == LineAt(text, e)
  {
    hide *;
    var p := i + |y.pad|;
    var e := p + |w|;
    var g := e + |y.pad|;
    StandsBoth(text, i, y.pad, w + (y.pad + (comma + tail)));
    PadGoes(y, text, i);
    ItemParts(text, p, w, y.pad, comma, tail);
    StandsEnd(text, p, w);
    StandsEnd(text, g, comma);
    LineStays(text, e, y.pad + comma);
    PadGoes(y, text, e);
    if comma == [] {
      TailGoes(y, text, g, tail, closer);
    } else {
      CommaGoes(y, text, e, tail, closer, comma);
    }
    GoesHere(text, e, g, closer, comma);
  }

  lemma GoesHere(text: seq<nat>, e: nat, g: nat, closer: nat, comma: seq<nat>)
    requires e <= g <= |text| && GapEnd(text, e) == GapEnd(text, g) < |text| && |comma| <= 1
    requires comma == [] ==>
               text[GapEnd(text, g)] == closer != COMMA && GapEnd(text, GapEnd(text, g)) == GapEnd(text, g)
    requires comma != [] ==> text[g] == COMMA && GapEnd(text, g) == g
    ensures g + |comma| <= |text| && Goes(text, e, g + |comma|, closer)
  {
    hide GapEnd;
  }

  lemma ItemParts(text: seq<nat>, p: nat, w: seq<nat>, pad: seq<nat>, comma: seq<nat>, tail: seq<nat>)
    requires Stands(text, p, w + (pad + (comma + tail)))
    ensures var e := p + |w|;
            && Stands(text, p, w) && Stands(text, e, pad) && Stands(text, e, pad + comma)
            && Stands(text, e + |pad|, comma) && Stands(text, e + |pad| + |comma|, tail)
  {
    hide Stands;
    var e := p + |w|;
    StandsBoth(text, p, w, pad + (comma + tail));
    StandsBoth(text, e, pad, comma + tail);
    StandsBoth(text, e + |pad|, comma, tail);
    assert pad + (comma + tail) == (pad + comma) + tail;
    StandsBoth(text, e, pad + comma, tail);
  }

  lemma CommaGoes(y: Style, text: seq<nat>, e: nat, tail: seq<nat>, closer: nat, comma: seq<nat>)
    requires IsTail(y, comma, tail, closer) && comma != []
    requires Stands(text, e, y.pad) && Stands(text, e + |y.pad|, comma)
    ensures var g := e + |y.pad|;
            |comma| == 1 && g < |text| && text[g] == COMMA && GapEnd(text, g) == g && Ends(text, e)
  {
    hide Stands, GapEnd, Ends;
    var g := e + |y.pad|;
    StandsFirst(text, g, comma);
    CommaIsNoGap(text, g, COMMA);
    PadEnds(y, text, e);
  }

  lemma TailGoes(y: Style, text: seq<nat>, g: nat, tail: seq<nat>, closer: nat)
    requires IsTail(y, [], tail, closer) && Stands(text, g, tail) && g >= |y.pad| && Stands(text, g - |y.pad|, y.pad)
    ensures var c := g + |y.pad|;
            && c < |text| && text[c] == closer != COMMA && GapEnd(text, g) == c && GapEnd(text, c) == c
            && Ends(text, g - |y.pad|)
  {
    hide Stands, GapEnd, Ends, BlankEnd, LineEndFrom, KeyFrom, LineAt;
    StandsBoth(text, g, y.pad, [closer]);
    StandsFirst(text, g + |y.pad|, [closer]);
    PadGoes(y, text, g);
    CommaIsNoGap(text, g + |y.pad|, closer);
    PadsEnd(y, text, g - |y.pad|);
  }

  lemma CommaIsNoGap(text: seq<nat>, i: nat, c: nat)
    requires i < |text| && text[i] == c && (c == COMMA || c == CLOSE_BRACKET || c == CLOSE_BRACE)
    ensures GapEnd(text, i) == i
  {
    GapEndHere(text, i);
  }

  lemma PadsEnd(y: Style, text: seq<nat>, e: nat)
    requires var n := |y.pad|; Stands(text, e, y.pad) && Stands(text, e + n, y.pad)
    requires var n := |y.pad|; e + n + n < |text| && Stops(text[e + n + n])
    ensures Ends(text, e)
  {
    if y.pad != [] {
      StandsFirst(text, e, y.pad);
      StandsFirst(text, e + |y.pad|, y.pad);
      if |y.pad| > 1 {
        assert text[e + 1] == text[e..e + |y.pad|][1] == y.pad[1];
      }
    }
  }

  lemma ItemsOver(text: seq<nat>, i: nat, j: nat)
    requires i <= |text| && j <= |text| && GapEnd(text, i) == GapEnd(text, j)
    ensures ItemsFrom(text, i) == ItemsFrom(text, j) && EntriesFrom(text, i) == EntriesFrom(text, j)
  {
    hide GapEnd, ValueFrom, EntryFrom, CommaEnd;
  }

  lemma NoItems(y: Style, text: seq<nat>, i: nat)
    requires Stands(text, i, y.pad + [CLOSE_BRACKET])
    ensures ItemsFrom(text, i) == Some(([], i + |y.pad| + 1))
    ensures LineAt(text, i + |y.pad| + 1) == LineAt(text, i)
  {
    hide LineAt, LineEndFrom, KeyFrom, BlankEnd;
    LineStays(text, i, y.pad + [CLOSE_BRACKET]);
    StandsBoth(text, i, y.pad, [CLOSE_BRACKET]);
    StandsFirst(text, i + |y.pad|, [CLOSE_BRACKET]);
    PadGoes(y, text, i);
    GapEndHere(text, i + |y.pad|);
  }

  lemma ItemThenItems(text: seq<nat>, i: nat, p: nat, items: seq<Value>, e: nat, k: nat)
    requires items != [] && i <= p < |text| && GapEnd(text, i) == p && Goes(text, e, k, CLOSE_BRACKET)
    requires text[p] != CLOSE_BRACKET && ValueFrom(text, p) == Some((items[0], e))
    requires ItemsFrom(text, k).Some? && ItemsFrom(text, k).value.0 == items[1..]
    ensures ItemsFrom(text, i) == Some((items, ItemsFrom(text, k).value.1))
  {
    hide ValueFrom, GapEnd;
    GoesOn(text, e, k, CLOSE_BRACKET);
    assert [items[0]] + items[1..] == items;
  }

  /** A written value begins with no white space, no comment and no closer. */
  lemma ValueBegins(y: Style, text: seq<nat>, i: nat, v: Value, line: nat)
    requires IsWritable(v, line) && Stands(text, i, WrittenValue(y, v, line))
    ensures i < |text| && !IsBlank(text[i]) && text[i] != LF && text[i] != HASH && text[i] != CLOSE_BRACKET
    ensures BlankEnd(text, i) == i && GapEnd(text, i) == i
  {
    hide WrittenItems, WrittenEntries, BlankEnd, GapEnd;
    StandsFirst(text, i, WrittenValue(y, v, line));
    assert IsWritable(v, line);
    BlankEndHere(text, i);
    GapEndHere(text, i);
  }

  lemma {:induction false} EntryReads(y: Style, text: seq<nat>, i: nat, entry: Entry, line: nat)
    requires IsWritableEntry(entry, line) && Stands(text, i, WrittenEntry(y, entry, line)) && LineAt(text, i) == line
    requires Ends(text, i + |WrittenEntry(y, entry, line)|)
    ensures EntryFrom(text, i) == Some((entry, i + |WrittenEntry(y, entry, line)|))
    ensures LineAt(text, i + |WrittenEntry(y, entry, line)|) == line
    decreases entry, 0
  {
    hide KeyFrom, ValueFrom, WrittenKey, WrittenValue, IsWritable, LineAt, LineFeeds, Stands, BlankEnd, GapEnd,
      LineEndFrom, Ends;
    var k, w := WrittenKey(y, entry.keys), WrittenValue(y, entry.value, line);
    StandsThree(text, i, k, EQUALS, y.pad + w);
    KeyReads(y, text, i, entry.keys);
    KeyOnLine(text, i);
    EqualsStays(text, i, i + |k|);
    var j := i + |k| + 1;
    StandsBoth(text, j, y.pad, w);
    PadGoes(y, text, j);
    ValueBegins(y, text, j + |y.pad|, entry.value, line);
    ValueReads(y, text, j + |y.pad|, entry.value, line);
  }

  lemma EqualsStays(text: seq<nat>, i: nat, k: nat)
    requires i <= k < |text| && text[k] == EQUALS && LineFeeds(text, k) == LineFeeds(text, i)
    ensures LineAt(text, k + 1) == LineAt(text, i)
  {
  }

  lemma {:induction false} EntriesRead(y: Style, text: seq<nat>, i: nat, entries: seq<Entry>, line: nat)
    requires forall k | 0 <= k < |entries| :: IsWritableEntry(entries[k], line)
    requires Stands(text, i, WrittenEntries(y, entries, line) + y.pad + [CLOSE_BRACE]) && LineAt(text, i) == line
    ensures EntriesFrom(text, i) == Some((entries, i + |WrittenEntries(y, entries, line)| + |y.pad| + 1))
    ensures LineAt(text, i + |WrittenEntries(y, entries, line)| + |y.pad| + 1) == line
    decreases entries, 0
  {
    hide *;
    NothingWritten(y, line);
    if entries == [] {
      NoEntries(y, text, i);
    } else {
      var w, comma := WrittenEntry(y, entries[0], line), CommaAfter(y, |entries|);
      var more := WrittenEntries(y, entries[1..], line);
      EntriesSplit(y, entries, line);
      TailIs(y, |entries|, more, CLOSE_BRACE);
      Spot(y, text, i, w, comma, more + y.pad + [CLOSE_BRACE], CLOSE_BRACE);
      var p := i + |y.pad|;
      EntryBegins(y, text, p, entries[0], line);
      EntryReads(y, text, p, entries[0], line);
      EntriesRead(y, text, p + |w| + |y.pad| + |comma|, entries[1..], line);
      EntryThenEntries(text, i, p, entries, p + |w|, p + |w| + |y.pad| + |comma|);
    }
  }

  lemma EntriesSplit(y: Style, entries: seq<Entry>, line: nat)
    requires entries != [] && forall k | 0 <= k < |entries| :: IsWritableEntry(entries[k], line)
    ensures var w, more := WrittenEntry(y, entries[0], line), WrittenEntries(y, entries[1..], line);
            && WrittenEntries(y, entries, line) + y.pad + [CLOSE_BRACE]
               == y.pad + (w + (y.pad + (CommaAfter(y, |entries|) + (more + y.pad + [CLOSE_BRACE]))))
            && |WrittenEntries(y, entries, line)| == |y.pad| + |w| + |y.pad| + |CommaAfter(y, |entries|)| + |more|
  {
    hide WrittenEntry, CommaAfter;
    var w, more := WrittenEntry(y, entries[0], line), WrittenEntries(y, entries[1..], line);
    Regroup(y.pad, w, CommaAfter(y, |entries|), more, CLOSE_BRACE);
  }

  lemma NoEntries(y: Style, text: seq<nat>, i: nat)
    requires Stands(text, i, y.pad + [CLOSE_BRACE])
    ensures EntriesFrom(text, i) == Some(([], i + |y.pad| + 1))
    ensures LineAt(text, i + |y.pad| + 1) == LineAt(text, i)
  {
    hide LineAt, LineEndFrom, KeyFrom, BlankEnd;
    LineStays(text, i, y.pad + [CLOSE_BRACE]);
    StandsBoth(text, i, y.pad, [CLOSE_BRACE]);
    StandsFirst(text, i + |y.pad|, [CLOSE_BRACE]);
    PadGoes(y, text, i);
    GapEndHere(text, i + |y.pad|);
  }

  lemma EntryThenEntries(text: seq<nat>, i: nat, p: nat, entries: seq<Entry>, e: nat, k: nat)
    requires entries != [] && i <= p < |text| && GapEnd(text, i) == p && Goes(text, e, k, CLOSE_BRACE)
    requires text[p] != CLOSE_BRACE && EntryFrom(text, p) == Some((entries[0], e))
    requires EntriesFrom(text, k).Some? && EntriesFrom(text, k).value.0 == entries[1..]
    ensures EntriesFrom(text, i) == Some((entries, EntriesFrom(text, k).value.1))
  {
    hide EntryFrom, GapEnd;
    GoesOn(text, e, k, CLOSE_BRACE);
    assert [entries[0]] + entries[1..] == entries;
  }

  lemma EntryBegins(y: Style, text: seq<nat>, i: nat, entry: Entry, line: nat)
    requires IsWritableEntry(entry, line) && Stands(text, i, WrittenEntry(y, entry, line))
    ensures i < |text| && StartsKey(text[i]) && text[i] != CLOSE_BRACE && text[i] != OPEN_BRACKET
    ensures GapEnd(text, i) == i
  {
    hide WrittenKey, Stands, GapEnd;
    StandsFirst(text, i, WrittenEntry(y, entry, line));
    GapEndHere(text, i);
  }

  // ---- Statements ----

  /** Blanks, a comment and a line feed end a line. */
  lemma NoteEnds(y: Style, text: seq<nat>, i: nat)
    requires var e := i + |y.pad| + |y.note|; Stands(text, i, y.pad + y.note) && e < |text| && text[e] == LF
    ensures var e := i + |y.pad| + |y.note|;
            LineEndFrom(text, i) == Some(e + 1) && LineAt(text, e + 1) == LineAt(text, i) + 1
    ensures Ends(text, i)
  {
    hide *;
    var j := i + |y.pad|;
    StandsBoth(text, i, y.pad, y.note);
    PadGoes(y, text, i);
    NoteHere(y, text, j);
    PadEnds(y, text, i);
    LineStays(text, j, y.note);
    LineFeedHere(text, j + |y.note|);
  }

  lemma LineFeedHere(text: seq<nat>, i: nat)
    requires i < |text| && text[i] == LF
    ensures LineAt(text, i + 1) == LineAt(text, i) + 1
  {
  }

  lemma NoteHere(y: Style, text: seq<nat>, j: nat)
    requires var e := j + |y.note|; Stands(text, j, y.note) && e < |text| && text[e] == LF
    ensures Stops(text[j]) && LineEndFrom(text, j) == Some(j + |y.note| + 1) && LF !in y.note
  {
    hide BlankEnd, LineFeedFrom, Stands;
    if y.note != [] {
      StandsFirst(text, j, y.note);
      assert y.note[0] == HASH;
    }
    BlankEndHere(text, j);
    NoteRuns(text, j, y.note);
  }

  lemma NoteRuns(text: seq<nat>, i: nat, note: seq<nat>)
    requires LF !in note && Stands(text, i, note) && i + |note| < |text| && text[i + |note|] == LF
    ensures LineFeedFrom(text, i) == i + |note|
  {
    forall k | i <= k < i + |note| ensures text[k] != LF {
      assert text[k] == text[i..i + |note|][k - i] == note[k - i];
    }
  }

  lemma StatementReads(y: Style, text: seq<nat>, i: nat, s: Statement, line: nat)
    requires IsWritableStatement(s, line) && i <= |text| && LineAt(text, i) == line
    requires var w := WrittenStatement(y, s, line) + (y.pad + y.note);
             Stands(text, i, w) && i + |w| < |text| && text[i + |w|] == LF
    ensures i < |text| && GapEnd(text, i) == i
    ensures var e := i + |WrittenStatement(y, s, line) + (y.pad + y.note)|;
            && (if text[i] == OPEN_BRACKET then HeaderFrom(text, i) else PairFrom(text, i)) == Some((s, e + 1))
            && LineAt(text, e + 1) == line + 1
  {
    hide HeaderFrom, PairFrom, WrittenKey, WrittenEntry, WrittenHeader, LineAt, IsWritable, Stands, GapEnd;
    match s {
      case Header(_, keys, twice) => HeaderReads(y, text, i, keys, twice);
      case Pair(_, keys, value) => PairReads(y, text, i, keys, value, line);
    }
  }

  lemma PairReads(y: Style, text: seq<nat>, i: nat, keys: seq<Name>, value: Value, line: nat)
    requires keys != [] && IsWritable(value, line)
    requires var w := WrittenEntry(y, Entry(keys, value), line) + (y.pad + y.note);
             Stands(text, i, w) && i + |w| < |text| && text[i + |w|] == LF && LineAt(text, i) == line
    ensures i < |text| && GapEnd(text, i) == i
    ensures var e := i + |WrittenEntry(y, Entry(keys, value), line) + (y.pad + y.note)|;
            && text[i] != OPEN_BRACKET && PairFrom(text, i) == Some((Pair(line, keys, value), e + 1))
            && LineAt(text, e + 1) == line + 1
  {
    hide EntryFrom, WrittenKey, WrittenValue, LineAt, LineEndFrom, IsWritable, Stands, GapEnd, Ends, WrittenEntry;
    var w := WrittenEntry(y, Entry(keys, value), line);
    StandsBoth(text, i, w, y.pad + y.note);
    NoteEnds(y, text, i + |w|);
    EntryBegins(y, text, i, Entry(keys, value), line);
    EntryReads(y, text, i, Entry(keys, value), line);
  }

  lemma BracketsHere(text: seq<nat>, i: nat, bracket: nat, twice: bool)
    requires Stands(text, i, Brackets(bracket, twice)) && bracket != LF
    ensures i < |text| && text[i] == bracket && BracketsAt(text, i, bracket, twice)
    ensures LineAt(text, i + |Brackets(bracket, twice)|) == LineAt(text, i)
  {
    var w := Brackets(bracket, twice);
    assert text[i] == text[i..i + |w|][0] && (twice ==> text[i + 1] == text[i..i + |w|][1]);
    hide LineAt;
    LineStays(text, i, w);
  }

  lemma {:induction false} HeaderReads(y: Style, text: seq<nat>, i: nat, keys: seq<Name>, twice: bool)
    requires keys != [] && i <= |text|
    requires var w := WrittenHeader(y, keys, twice) + (y.pad + y.note);
             Stands(text, i, w) && i + |w| < |text| && text[i + |w|] == LF
    ensures i < |text| && GapEnd(text, i) == i
    ensures var line, e := LineAt(text, i), i + |WrittenHeader(y, keys, twice) + (y.pad + y.note)|;
            && text[i] == OPEN_BRACKET && HeaderFrom(text, i) == Some((Header(line, keys, twice), e + 1))
            && LineAt(text, e + 1) == line + 1
  {
    hide *;
    var w := WrittenHeader(y, keys, twice);
    StandsBoth(text, i, w, y.pad + y.note);
    NoteEnds(y, text, i + |w|);
    HeaderKey(y, text, i, keys, twice);
    BracketIsNoGap(text, i);
    var n: nat := if twice then 2 else 1;
    HeaderDone(text, i, keys, twice, i + |w| - n);
  }

  lemma BracketIsNoGap(text: seq<nat>, i: nat)
    requires i < |text| && text[i] == OPEN_BRACKET
    ensures GapEnd(text, i) == i
  {
    GapEndHere(text, i);
  }

  lemma HeaderDone(text: seq<nat>, i: nat, keys: seq<Name>, twice: bool, k: nat)
    requires i < |text| && text[i] == OPEN_BRACKET && BracketsAt(text, i, OPEN_BRACKET, true) == twice
    requires var n := if twice then 2 else 1;
             && i + n <= |text| && KeyFrom(text, i + n) == Some((keys, k))
             && BracketsAt(text, k, CLOSE_BRACKET, twice) && k + n < |text| && LineEndFrom(text, k + n).Some?
    ensures var n := if twice then 2 else 1;
            HeaderFrom(text, i) == Some((Header(LineAt(text, i), keys, twice), LineEndFrom(text, k + n).value))
  {
    hide KeyFrom, LineAt, LineEndFrom;
  }

  lemma HeaderKey(y: Style, text: seq<nat>, i: nat, keys: seq<Name>, twice: bool)
    requires keys != [] && i <= |text|
    requires Stands(text, i, WrittenHeader(y, keys, twice))
    ensures var n: nat, w := if twice then 2 else 1, |WrittenHeader(y, keys, twice)|;
            && i < |text| && text[i] == OPEN_BRACKET && BracketsAt(text, i, OPEN_BRACKET, true) == twice
            && 2 * n <= w && i + w <= |text| && KeyFrom(text, i + n) == Some((keys, i + w - n))
            && BracketsAt(text, i + w - n, CLOSE_BRACKET, twice)
            && LineAt(text, i + w) == LineAt(text, i)
  {
    hide KeyFrom, WrittenKey, WrittenHeader, LineAt, Stands, BracketsAt, BlankEnd, GapEnd, LineEndFrom;
    var n: nat, k := if twice then 2 else 1, WrittenKey(y, keys);
    var p := i + n + |y.pad|;
    HeaderParts(y, text, i, keys, twice);
    StandsFirst(text, p, k);
    BracketsHere(text, i, OPEN_BRACKET, twice);
    BracketsHere(text, p + |k|, CLOSE_BRACKET, twice);
    PadFirst(y, text, i + n, text[p]);
    TwiceHere(text, i, twice);
    StandsEnd(text, p + |k|, Brackets(CLOSE_BRACKET, twice));
    PadGoes(y, text, i + n);
    KeyReads(y, text, p, keys);
    KeyLine(y, text, p, keys);
  }

  lemma HeaderParts(y: Style, text: seq<nat>, i: nat, keys: seq<Name>, twice: bool)
    requires keys != []
    requires Stands(text, i, WrittenHeader(y, keys, twice))
    ensures var n, w := if twice then 2 else 1, WrittenKey(y, keys);
            && |Brackets(OPEN_BRACKET, twice)| == |Brackets(CLOSE_BRACKET, twice)| == n
            && |WrittenHeader(y, keys, twice)| == n + |y.pad| + |w| + n
            && Stands(text, i, Brackets(OPEN_BRACKET, twice)) && Stands(text, i + n, y.pad)
            && Stands(text, i + n + |y.pad|, w) && Stands(text, i + n + |y.pad| + |w|, Brackets(CLOSE_BRACKET, twice))
  {
    hide WrittenKey, Stands;
    var w := y.pad + WrittenKey(y, keys);
    var before, after := Brackets(OPEN_BRACKET, twice), Brackets(CLOSE_BRACKET, twice);
    StandsBoth(text, i, before + w, after);
    StandsBoth(text, i, before, w);
    StandsBoth(text, i + |before|, y.pad, WrittenKey(y, keys));
  }

  lemma TwiceHere(text: seq<nat>, i: nat, twice: bool)
    requires BracketsAt(text, i, OPEN_BRACKET, twice)
    requires var c := i + if twice then 2 else 1; c < |text| && (StartsKey(text[c]) || IsBlank(text[c]))
    ensures BracketsAt(text, i, OPEN_BRACKET, true) == twice
  {
  }

  lemma StandsEnd(text: seq<nat>, i: nat, w: seq<nat>)
    requires Stands(text, i, w)
    ensures i + |w| <= |text|
  {
  }

  lemma {:induction false} KeyLine(y: Style, text: seq<nat>, i: nat, keys: seq<Name>)
    requires i <= |text| && keys != [] && KeyFrom(text, i) == Some((keys, i + |WrittenKey(y, keys)|))
    ensures LineAt(text, i + |WrittenKey(y, keys)|) == LineAt(text, i)
  {
    hide KeyFrom, WrittenKey;
    KeyOnLine(text, i);
  }

  /** Any statements at all that a line can hold are read back from the text that writes them, in any layout. */
  lemma {:induction false} WrittenReadsBack(y: Style, text: seq<nat>, i: nat, ss: seq<Statement>, line: nat)
    requires forall k | 0 <= k < |ss| :: IsWritableStatement(ss[k], line + k)
    requires i <= |text| && text[i..] == Written(y, ss, line) && LineAt(text, i) == line
    ensures StatementsFrom(text, i) == Some(ss)
    decreases |ss|
  {
    hide StatementsFrom, HeaderFrom, PairFrom, WrittenStatement, LineAt, IsWritableStatement, Stands, GapEnd, BlankEnd,
      LineEndFrom, KeyFrom;
    if ss == [] {
      NoStatements(text, i);
    } else {
      var w, more := WrittenStatement(y, ss[0], line), Written(y, ss[1..], line + 1);
      assert forall k | 0 <= k < |ss| - 1 :: ss[1..][k] == ss[k + 1];
      LineStands(y, text, i, w, more);
      var s := i + |y.pad|;
      PadGoes(y, text, i);
      StatementReads(y, text, s, ss[0], line);
      WrittenReadsBack(y, text, s + |w + (y.pad + y.note)| + 1, ss[1..], line + 1);
      StatementThenStatements(text, i, s, ss, s + |w + (y.pad + y.note)| + 1);
    }
  }

  lemma LineStands(y: Style, text: seq<nat>, i: nat, w: seq<nat>, more: seq<nat>)
    requires i <= |text| && text[i..] == (y.pad + w + y.pad + y.note) + [LF] + more
    ensures Stands(text, i, y.pad) && Stands(text, i + |y.pad|, w + (y.pad + y.note))
    ensures var e := i + |y.pad| + |w + (y.pad + y.note)|;
            e < |text| && text[e] == LF && text[e + 1..] == more
  {
    var rest, all := text[i..], y.pad + (w + (y.pad + y.note));
    assert y.pad + w + y.pad + y.note == all;
    hide *;
    assert text[i..i + |all|] == rest[..|all|] && text[i + |all| + 1..] == rest[|all| + 1..];
    assert text[i + |all|] == rest[|all|];
    StandsWhole(text, i, all);
    StandsBoth(text, i, y.pad, w + (y.pad + y.note));
  }

  lemma StandsWhole(text: seq<nat>, i: nat, w: seq<nat>)
    requires i + |w| <= |text| && text[i..i + |w|] == w
    ensures Stands(text, i, w)
  {
  }

  lemma NoStatements(text: seq<nat>, i: nat)
    requires i <= |text| && text[i..] == []
    ensures StatementsFrom(text, i) == Some([])
  {
    GapEndHere(text, i);
  }

  lemma StatementThenStatements(text: seq<nat>, i: nat, s: nat, ss: seq<Statement>, e: nat)
    requires ss != [] && i <= s < |text| && GapEnd(text, i) == s && e <= |text|
    requires (if text[s] == OPEN_BRACKET then HeaderFrom(text, s) else PairFrom(text, s)) == Some((ss[0], e))
    requires StatementsFrom(text, e) == Some(ss[1..])
    ensures StatementsFrom(text, i) == Some(ss)
  {
    hide HeaderFrom, PairFrom, GapEnd;
    assert [ss[0]] + ss[1..] == ss;
  }
}
