/**
  The language of the TOML reader (tools/port-deps.cjs), read from a text without a cursor: each function
  says what stands at a place and where it ends.
 */
module TomlSyntax {
  import opened Wrappers
  import opened Utf
  import opened StringLiteral
  import HasValue

  type Name = seq<nat>

  const BLANK: nat := ' ' as nat
  const TAB: nat := 0x09
  const QUOTE: nat := '"' as nat
  const APOSTROPHE: nat := '\'' as nat
  const HASH: nat := '#' as nat
  const DOT: nat := '.' as nat
  const EQUALS: nat := '=' as nat
  const OPEN_BRACKET: nat := '[' as nat
  const CLOSE_BRACKET: nat := ']' as nat
  const OPEN_BRACE: nat := '{' as nat
  const CLOSE_BRACE: nat := '}' as nat

  function LineFeeds(text: seq<nat>, i: nat): nat
    requires i <= |text|
  {
    if i == 0 then 0 else LineFeeds(text, i - 1) + (if text[i - 1] == LF then 1 else 0)
  }

  lemma {:induction false} NoLineFeeds(text: seq<nat>, i: nat, j: nat)
    requires i <= j <= |text| && forall k | i <= k < j :: text[k] != LF
    ensures LineFeeds(text, j) == LineFeeds(text, i)
    decreases j
  {
    if i < j {
      NoLineFeeds(text, i, j - 1);
    }
  }

  predicate IsKeyChar(c: nat) {
    || ('A' as nat <= c <= 'Z' as nat) || ('a' as nat <= c <= 'z' as nat) || IsDigit(c)
    || c == '_' as nat || c == '-' as nat
  }

  predicate IsScalarChar(c: nat) {
    || ('A' as nat <= c <= 'Z' as nat) || ('a' as nat <= c <= 'z' as nat) || IsDigit(c)
    || c == '+' as nat || c == '-' as nat || c == '_' as nat || c == '.' as nat || c == ':' as nat
  }

  predicate IsTimeChar(c: nat) {
    IsDigit(c) || c == ':' as nat || c == '.' as nat || c == '+' as nat || c == '-' as nat || c == 'Z' as nat
        || c == 'z' as nat
  }

  /** The simple escapes. */
  function Simple(c: nat): Option<nat> {
    if c == 'b' as nat then Some(0x08)
    else if c == 't' as nat then Some(TAB)
    else if c == 'n' as nat then Some(LF)
    else if c == 'f' as nat then Some(0x0C)
    else if c == 'r' as nat then Some(CR)
    else if c == 'e' as nat then Some(0x1B)
    else if c == QUOTE || c == BACKSLASH then Some(c)
    else None
  }

  /** How many hex digits an escape takes, or none. */
  function Width(c: nat): nat {
    if c == 'x' as nat then 2 else if c == 'u' as nat then 4 else if c == 'U' as nat then 8 else 0
  }

  /** The line a place is on. */
  function LineAt(text: seq<nat>, i: nat): nat
    requires i <= |text|
  {
    1 + LineFeeds(text, i)
  }

  // ---- Between statements ----

  predicate IsBlank(c: nat) {
    c == BLANK || c == TAB
  }

  function BlankEnd(text: seq<nat>, i: nat): (e: nat)
    requires i <= |text|
    ensures i <= e <= |text|
    decreases |text| - i
  {
    if i < |text| && IsBlank(text[i]) then BlankEnd(text, i + 1) else i
  }

  function LineFeedFrom(text: seq<nat>, i: nat): (e: nat)
    requires i <= |text|
    ensures i <= e <= |text| && (e < |text| ==> text[e] == LF) && forall k | i <= k < e :: text[k] != LF
    decreases |text| - i
  {
    if i < |text| && text[i] != LF then LineFeedFrom(text, i + 1) else i
  }

  function CommentEnd(text: seq<nat>, i: nat): (e: nat)
    requires i <= |text|
    ensures i <= e <= |text|
  {
    if i < |text| && text[i] == HASH then LineFeedFrom(text, i) else i
  }

  /** Where white space, comments and line feeds end. */
  function GapEnd(text: seq<nat>, i: nat): (e: nat)
    requires i <= |text|
    ensures i <= e <= |text|
    decreases |text| - i
  {
    var j := CommentEnd(text, BlankEnd(text, i));
    if j < |text| && text[j] == LF then GapEnd(text, j + 1) else j
  }

  lemma {:induction false} BlanksPassed(text: seq<nat>, i: nat)
    requires i <= |text|
    ensures forall k | i <= k < BlankEnd(text, i) :: IsBlank(text[k])
    ensures BlankEnd(text, i) < |text| ==> !IsBlank(text[BlankEnd(text, i)])
    decreases |text| - i
  {
    if i < |text| && IsBlank(text[i]) {
      BlanksPassed(text, i + 1);
    }
  }

  /** A character that is no part of a statement: a blank, a line feed, or one after a `#` on its line. */
  ghost predicate IsGap(text: seq<nat>, k: nat)
    requires k < |text|
  {
    || IsBlank(text[k]) || text[k] == LF
    || exists h :: 0 <= h <= k && text[h] == HASH && forall m | h <= m < k :: text[m] != LF
  }

  /** A gap is nothing but white space, comments and line feeds, and nothing of those stands where it ends. */
  lemma {:induction false} GapIsAllGap(text: seq<nat>, i: nat)
    requires i <= |text|
    ensures forall k | i <= k < GapEnd(text, i) :: IsGap(text, k)
    ensures var e := GapEnd(text, i); e < |text| ==> !IsBlank(text[e]) && text[e] != LF && text[e] != HASH
    decreases |text| - i
  {
    hide BlankEnd, CommentEnd, IsGap;
    var b := BlankEnd(text, i);
    var j := CommentEnd(text, b);
    BlanksAreGap(text, i);
    CommentIsGap(text, b);
    if j < |text| && text[j] == LF {
      LineFeedIsGap(text, j);
      GapIsAllGap(text, j + 1);
    }
  }

  lemma BlanksAreGap(text: seq<nat>, i: nat)
    requires i <= |text|
    ensures forall k | i <= k < BlankEnd(text, i) :: IsGap(text, k)
    ensures BlankEnd(text, i) < |text| ==> !IsBlank(text[BlankEnd(text, i)])
  {
    BlanksPassed(text, i);
  }

  lemma CommentIsGap(text: seq<nat>, b: nat)
    requires b <= |text|
    ensures forall k | b <= k < CommentEnd(text, b) :: IsGap(text, k)
    ensures var j := CommentEnd(text, b); j < |text| && text[j] != LF ==> j == b && text[j] != HASH
  {
    hide IsBlank;
    forall k | b <= k < CommentEnd(text, b) ensures IsGap(text, k) {
      assert text[b] == HASH;
    }
  }

  lemma LineFeedIsGap(text: seq<nat>, j: nat)
    requires j < |text| && text[j] == LF
    ensures IsGap(text, j)
  {
  }

  /** Past a line's end, when nothing but blanks and a comment stands before it. */
  function LineEndFrom(text: seq<nat>, i: nat): (r: Option<nat>)
    requires i <= |text|
    ensures r.Some? ==> i <= r.value <= |text|
  {
    var j := CommentEnd(text, BlankEnd(text, i));
    if j >= |text| then Some(j) else if text[j] == LF then Some(j + 1) else None
  }

  // ---- Strings ----

  /** The code an escape stands for, from the character after its backslash on, and how many characters it takes. */
  function EscapeFrom(text: seq<nat>, i: nat): (r: Option<(nat, nat)>)
    ensures r.Some? ==> 1 <= r.value.1 && i + r.value.1 <= |text|
  {
    if i >= |text| then None
    else if Simple(text[i]).Some? then Some((Simple(text[i]).value, 1))
    else
      var width := Width(text[i]);
      if width == 0 then None
      else
        match HexRun(text, i + 1, width)
        case None => None
        case Some(code) => if code > 0x10FFFF then None else Some((code, 1 + width))
  }

  /** The value of a string from a place inside it, and the place past its quote. */
  function ShortFrom(text: seq<nat>, i: nat, quote: nat): (r: Option<(seq<nat>, nat)>)
    ensures r.Some? ==> i < r.value.1 <= |text|
    decreases |text| - i
  {
    if i >= |text| || text[i] == LF then None
    else if text[i] == quote then Some(([], i + 1))
    else if text[i] == BACKSLASH && quote == QUOTE then
      match EscapeFrom(text, i + 1)
      case None => None
      case Some((code, n)) => Onto(Utf16One(code), ShortFrom(text, i + 1 + n, quote))
    else Onto([text[i]], ShortFrom(text, i + 1, quote))
  }

  function Onto(a: seq<nat>, rest: Option<(seq<nat>, nat)>): Option<(seq<nat>, nat)> {
    match rest
    case None => None
    case Some((v, end)) => Some((a + v, end))
  }

  lemma OntoLaws(a: seq<nat>, b: seq<nat>, rest: Option<(seq<nat>, nat)>)
    ensures Onto(a, Onto(b, rest)) == Onto(a + b, rest) && Onto([], rest) == rest
  {
    if rest.Some? {
      assert a + (b + rest.value.0) == a + b + rest.value.0;
      assert [] + rest.value.0 == rest.value.0;
    }
  }

  predicate TripleAt(text: seq<nat>, i: nat, quote: nat) {
    i + 2 < |text| && text[i] == quote && text[i + 1] == quote && text[i + 2] == quote
  }

  /** The quotes after three closing ones that belong to the string, up to two. */
  function ExtraQuotes(text: seq<nat>, i: nat, quote: nat): nat {
    if i < |text| && text[i] == quote then
      if i + 1 < |text| && text[i + 1] == quote then 2 else 1
    else 0
  }

  /** Where a run of characters of a class ends, at most `limit` characters on. */
  function RunEnd(text: seq<nat>, i: nat, fits: nat -> bool, limit: nat): (e: nat)
    requires i <= |text|
    ensures i <= e <= |text| && e <= i + limit && forall k | i <= k < e :: fits(text[k])
    ensures e == i + limit || e == |text| || !fits(text[e])
    decreases limit
  {
    if limit > 0 && i < |text| && fits(text[i]) then RunEnd(text, i + 1, fits, limit - 1) else i
  }

  /** Whether only blanks stand before the line's end, within two hundred characters. */
  predicate FoldsAt(text: seq<nat>, i: nat)
    requires i <= |text|
  {
    var e := RunEnd(text, i, IsBlank, 200);
    e < i + 200 && e < |text| && text[e] == LF
  }

  function SpaceEnd(text: seq<nat>, i: nat): (e: nat)
    requires i <= |text|
    ensures i <= e <= |text|
    decreases |text| - i
  {
    if i < |text| && HasValue.IsSpace(text[i]) then SpaceEnd(text, i + 1) else i
  }

  /** The value of a string in three quotes from a place inside it, and the place past its quotes. */
  function LongFrom(text: seq<nat>, i: nat, quote: nat): (r: Option<(seq<nat>, nat)>)
    ensures r.Some? ==> i < r.value.1 <= |text|
    decreases |text| - i
  {
    if i >= |text| then None
    else if TripleAt(text, i, quote) then
      var n := ExtraQuotes(text, i + 3, quote);
      Some((seq(n, _ => quote), i + 3 + n))
    else if text[i] == BACKSLASH && quote == QUOTE then
      if FoldsAt(text, i + 1) then LongFrom(text, SpaceEnd(text, i + 1), quote)
      else
        match EscapeFrom(text, i + 1)
        case None => None
        case Some((code, n)) => Onto(Utf16One(code), LongFrom(text, i + 1 + n, quote))
    else Onto([text[i]], LongFrom(text, i + 1, quote))
  }

  /** A string at its quote. */
  function StringFrom(text: seq<nat>, i: nat): (r: Option<(seq<nat>, nat)>)
    requires i < |text|
    ensures r.Some? ==> i < r.value.1 <= |text|
  {
    var quote := text[i];
    if TripleAt(text, i, quote) then
      LongFrom(text, if i + 3 < |text| && text[i + 3] == LF then i + 4 else i + 3, quote)
    else ShortFrom(text, i + 1, quote)
  }

  function EscapedChar(c: nat): seq<nat> {
    if c == QUOTE || c == BACKSLASH then [BACKSLASH, c] else if c == LF then [BACKSLASH, 'n' as nat] else [c]
  }

  /** A string's characters written in a basic string. */
  function Escaped(v: seq<nat>): seq<nat> {
    if v == [] then [] else EscapedChar(v[0]) + Escaped(v[1..])
  }

  /** Any characters at all can be written in a basic string, and are read back. */
  lemma {:induction false} EscapedReadsBack(v: seq<nat>, text: seq<nat>, i: nat, rest: seq<nat>)
    requires i <= |text| && text[i..] == Escaped(v) + [QUOTE] + rest
    ensures ShortFrom(text, i, QUOTE) == Some((v, i + |Escaped(v)| + 1))
    decreases |v|
  {
    hide EscapeFrom, Utf16One, EscapedChar;
    if v == [] {
      assert text[i] == text[i..][0];
    } else {
      var w, more := EscapedChar(v[0]), Escaped(v[1..]) + [QUOTE] + rest;
      assert Escaped(v) + [QUOTE] + rest == w + more;
      FirstEscaped(v[0], text, i, more);
      EscapedReadsBack(v[1..], text, i + |w|, rest);
      assert [v[0]] + v[1..] == v;
    }
  }

  lemma FirstEscaped(c: nat, text: seq<nat>, i: nat, more: seq<nat>)
    requires i <= |text| && text[i..] == EscapedChar(c) + more && more != []
    ensures var w := EscapedChar(c);
            && i + |w| < |text| && text[i + |w|..] == more
            && if |w| == 1 then text[i] == c && c != QUOTE && c != BACKSLASH && c != LF
               else |w| == 2 && text[i] == BACKSLASH && EscapeFrom(text, i + 1) == Some((c, 1)) && Utf16One(c) == [c]
  {
    hide EscapeFrom, Utf16One;
    var w := EscapedChar(c);
    var here := text[i..];
    assert here[0] == text[i] && here[1] == text[i + 1] && here[|w|..] == text[i + |w|..];
    if |w| == 2 {
      EscapedOne(c, text, i);
    }
  }

  lemma EscapedOne(c: nat, text: seq<nat>, i: nat)
    requires i + 1 < |text| && (c == QUOTE || c == BACKSLASH || c == LF)
    requires text[i] == BACKSLASH && text[i + 1] == (if c == LF then 'n' as nat else c)
    ensures EscapeFrom(text, i + 1) == Some((c, 1)) && Utf16One(c) == [c]
  {
  }

  // ---- Keys ----

  predicate IsQuoteAt(text: seq<nat>, i: nat) {
    i < |text| && (text[i] == QUOTE || text[i] == APOSTROPHE)
  }

  /** One part of a key: a string in one line, or a run of at most 256 bare characters. */
  function NameFrom(text: seq<nat>, i: nat): (r: Option<(Name, nat)>)
    requires i <= |text|
    ensures r.Some? ==> i < r.value.1 <= |text|
  {
    if IsQuoteAt(text, i) then
      if TripleAt(text, i, text[i]) then None else StringFrom(text, i)
    else
      var e := RunEnd(text, i, IsKeyChar, 256);
      if e == i then None else Some((text[i..e], e))
  }

  /** A dotted key's parts, blanks around them. */
  function KeyFrom(text: seq<nat>, i: nat): (r: Option<(seq<Name>, nat)>)
    requires i <= |text|
    ensures r.Some? ==> r.value.0 != [] && i < r.value.1 <= |text|
    decreases |text| - i
  {
    match NameFrom(text, BlankEnd(text, i))
    case None => None
    case Some((name, e)) =>
      var k := BlankEnd(text, e);
      if k < |text| && text[k] == DOT then PartsOnto([name], KeyFrom(text, k + 1)) else Some(([name], k))
  }

  function PartsOnto(a: seq<Name>, rest: Option<(seq<Name>, nat)>): Option<(seq<Name>, nat)> {
    match rest
    case None => None
    case Some((names, e)) => Some((a + names, e))
  }

  // ---- Values ----

  /** A value as it is written, with the line it stands on. */
  datatype Value =
    | StringValue(line: nat, v: seq<nat>)
    | BoolValue(line: nat, b: bool)
    | RawValue(line: nat, raw: seq<nat>)
    | ArrayValue(line: nat, items: seq<Value>)
    | InlineValue(line: nat, entries: seq<Entry>)

  /** A key and its value in an inline table. */
  datatype Entry = Entry(keys: seq<Name>, value: Value)

  /** Four digits, two and two, with hyphens between. */
  predicate IsDate(s: seq<nat>) {
    && |s| == 10 && s[4] == '-' as nat && s[7] == '-' as nat
    && forall k | 0 <= k < 10 && k != 4 && k != 7 :: IsDigit(s[k])
  }

  const TRUE: seq<nat> := ['t' as nat, 'r' as nat, 'u' as nat, 'e' as nat]
  const FALSE: seq<nat> := ['f' as nat, 'a' as nat, 'l' as nat, 's' as nat, 'e' as nat]

  function Scalar(line: nat, raw: seq<nat>): Value {
    if raw == TRUE then BoolValue(line, true)
    else if raw == FALSE then BoolValue(line, false)
    else RawValue(line, raw)
  }

  /** Where a space and a time after a date end, or the place itself when they are not there. */
  function TimeEnd(text: seq<nat>, i: nat): (e: nat)
    requires i <= |text|
    ensures i <= e <= |text|
  {
    if i + 4 < |text| && text[i] == BLANK && IsDigit(text[i + 1]) && IsDigit(text[i + 2]) && text[i + 3] == ':' as nat
       && IsTimeChar(text[i + 4])
    then RunEnd(text, i + 4, IsTimeChar, 60)
    else i
  }

  /** A scalar that is no string: a run of its characters, and a time after a date. */
  function ScalarFrom(text: seq<nat>, i: nat): (r: Option<(seq<nat>, nat)>)
    requires i <= |text|
    ensures r.Some? ==> i < r.value.1 <= |text|
  {
    var e := RunEnd(text, i, IsScalarChar, 256);
    if e == i then None
    else if IsDate(text[i..e]) then Some((text[i..e] + text[e..TimeEnd(text, e)], TimeEnd(text, e)))
    else Some((text[i..e], e))
  }

  function ValueFrom(text: seq<nat>, i: nat): (r: Option<(Value, nat)>)
    requires i <= |text|
    ensures r.Some? ==> i < r.value.1 <= |text| && r.value.0.line == LineAt(text, i)
    decreases |text| - i, 1
  {
    var line := LineAt(text, i);
    if IsQuoteAt(text, i) then
      match StringFrom(text, i)
      case None => None
      case Some((v, e)) => Some((StringValue(line, v), e))
    else if i < |text| && text[i] == OPEN_BRACKET then
      match ItemsFrom(text, i + 1)
      case None => None
      case Some((items, e)) => Some((ArrayValue(line, items), e))
    else if i < |text| && text[i] == OPEN_BRACE then
      match EntriesFrom(text, i + 1)
      case None => None
      case Some((entries, e)) => Some((InlineValue(line, entries), e))
    else
      match ScalarFrom(text, i)
      case None => None
      case Some((raw, e)) => Some((Scalar(line, raw), e))
  }

  /** Past what separates two items: a comma, or nothing when the closer is next or the text ends. */
  function CommaEnd(text: seq<nat>, i: nat, closer: nat): (r: Option<nat>)
    requires i <= |text|
    ensures r.Some? ==> i <= r.value <= |text|
  {
    if i < |text| && text[i] == ',' as nat then Some(i + 1)
    else if i < |text| && text[i] != closer then None
    else Some(i)
  }

  /** The items of an array up to its bracket, from inside it. */
  function ItemsFrom(text: seq<nat>, i: nat): (r: Option<(seq<Value>, nat)>)
    requires i <= |text|
    ensures r.Some? ==> i < r.value.1 <= |text|
    decreases |text| - i, 2
  {
    var j := GapEnd(text, i);
    if j >= |text| then None
    else if text[j] == CLOSE_BRACKET then Some(([], j + 1))
    else
      match ValueFrom(text, j)
      case None => None
      case Some((v, e)) =>
        match CommaEnd(text, GapEnd(text, e), CLOSE_BRACKET)
        case None => None
        case Some(k) =>
          match ItemsFrom(text, k)
          case None => None
          case Some((rest, end)) => Some(([v] + rest, end))
  }

  /** A key, `=` and a value. */
  function EntryFrom(text: seq<nat>, i: nat): (r: Option<(Entry, nat)>)
    requires i <= |text|
    ensures r.Some? ==> i < r.value.1 <= |text| && r.value.0.keys != []
    decreases |text| - i, 2
  {
    match KeyFrom(text, i)
    case None => None
    case Some((keys, k)) =>
      if k >= |text| || text[k] != EQUALS then None
      else
        match ValueFrom(text, BlankEnd(text, k + 1))
        case None => None
        case Some((v, e)) => Some((Entry(keys, v), e))
  }

  /** The entries of an inline table up to its brace, from inside it. */
  function EntriesFrom(text: seq<nat>, i: nat): (r: Option<(seq<Entry>, nat)>)
    requires i <= |text|
    ensures r.Some? ==> i < r.value.1 <= |text|
    decreases |text| - i, 3
  {
    var j := GapEnd(text, i);
    if j >= |text| then None
    else if text[j] == CLOSE_BRACE then Some(([], j + 1))
    else
      match EntryFrom(text, j)
      case None => None
      case Some((entry, e)) =>
        match CommaEnd(text, GapEnd(text, e), CLOSE_BRACE)
        case None => None
        case Some(k) =>
          match EntriesFrom(text, k)
          case None => None
          case Some((rest, end)) => Some(([entry] + rest, end))
  }

  // ---- Statements ----

  /** A statement and the line it begins on. */
  datatype Statement =
    | Header(line: nat, keys: seq<Name>, twice: bool)
    | Pair(line: nat, keys: seq<Name>, value: Value)

  predicate BracketsAt(text: seq<nat>, i: nat, bracket: nat, twice: bool) {
    i < |text| && text[i] == bracket && (twice ==> i + 1 < |text| && text[i + 1] == bracket)
  }

  function HeaderFrom(text: seq<nat>, i: nat): (r: Option<(Statement, nat)>)
    requires i < |text| && text[i] == OPEN_BRACKET
    ensures r.Some? ==> i < r.value.1 <= |text| && r.value.0.keys != [] && r.value.0.line == LineAt(text, i)
  {
    var twice := BracketsAt(text, i, OPEN_BRACKET, true);
    var n := if twice then 2 else 1;
    match KeyFrom(text, i + n)
    case None => None
    case Some((keys, k)) =>
      if !BracketsAt(text, k, CLOSE_BRACKET, twice) then None
      else
        match LineEndFrom(text, k + n)
        case None => None
        case Some(e) => Some((Header(LineAt(text, i), keys, twice), e))
  }

  function PairFrom(text: seq<nat>, i: nat): (r: Option<(Statement, nat)>)
    requires i <= |text|
    ensures r.Some? ==> i < r.value.1 <= |text| && r.value.0.keys != [] && r.value.0.line == LineAt(text, i)
  {
    match EntryFrom(text, i)
    case None => None
    case Some((entry, k)) =>
      match LineEndFrom(text, k)
      case None => None
      case Some(e) => Some((Pair(LineAt(text, i), entry.keys, entry.value), e))
  }

  /** The statements of a text, in order. */
  function StatementsFrom(text: seq<nat>, i: nat): (r: Option<seq<Statement>>)
    requires i <= |text|
    ensures r.Some? ==> forall k | 0 <= k < |r.value| :: r.value[k].keys != []
    decreases |text| - i
  {
    var j := GapEnd(text, i);
    if j >= |text| then Some([])
    else
      match (if text[j] == OPEN_BRACKET then HeaderFrom(text, j) else PairFrom(text, j))
      case None => None
      case Some((s, e)) =>
        match StatementsFrom(text, e)
        case None => None
        case Some(rest) => Some([s] + rest)
  }

  // ---- A statement's value stands on the statement's own line ----

  lemma {:induction false} BlanksOnLine(text: seq<nat>, i: nat)
    requires i <= |text|
    ensures LineFeeds(text, BlankEnd(text, i)) == LineFeeds(text, i)
    decreases |text| - i
  {
    BlanksPassed(text, i);
    NoLineFeeds(text, i, BlankEnd(text, i));
  }

  lemma {:induction false} HexHasNoLineFeed(text: seq<nat>, i: nat, n: nat)
    requires HexRun(text, i, n).Some?
    ensures i + n <= |text| && LineFeeds(text, i + n) == LineFeeds(text, i)
  {
    forall k | i <= k < i + n ensures text[k] != LF {
      assert HexDigit(text[k]).Some?;
    }
    NoLineFeeds(text, i, i + n);
  }

  lemma EscapeOnLine(text: seq<nat>, i: nat)
    requires EscapeFrom(text, i).Some?
    ensures LineFeeds(text, i + EscapeFrom(text, i).value.1) == LineFeeds(text, i)
  {
    assert text[i] != LF;
    NoLineFeeds(text, i, i + 1);
    if Simple(text[i]).None? {
      HexHasNoLineFeed(text, i + 1, Width(text[i]));
    }
  }

  lemma {:induction false} ShortOnLine(text: seq<nat>, i: nat, quote: nat)
    requires ShortFrom(text, i, quote).Some? && i <= |text|
    ensures LineFeeds(text, ShortFrom(text, i, quote).value.1) == LineFeeds(text, i)
    decreases |text| - i
  {
    NoLineFeeds(text, i, i + 1);
    if text[i] == quote {
    } else if text[i] == BACKSLASH && quote == QUOTE {
      EscapeOnLine(text, i + 1);
      ShortOnLine(text, i + 1 + EscapeFrom(text, i + 1).value.1, quote);
    } else {
      ShortOnLine(text, i + 1, quote);
    }
  }

  lemma NameOnLine(text: seq<nat>, i: nat)
    requires i <= |text| && NameFrom(text, i).Some?
    ensures LineFeeds(text, NameFrom(text, i).value.1) == LineFeeds(text, i)
  {
    if IsQuoteAt(text, i) {
      NoLineFeeds(text, i, i + 1);
      ShortOnLine(text, i + 1, text[i]);
    } else {
      NoLineFeeds(text, i, RunEnd(text, i, IsKeyChar, 256));
    }
  }

  lemma {:induction false} KeyOnLine(text: seq<nat>, i: nat)
    requires i <= |text| && KeyFrom(text, i).Some?
    ensures LineFeeds(text, KeyFrom(text, i).value.1) == LineFeeds(text, i)
    decreases |text| - i
  {
    hide NameFrom;
    BlanksOnLine(text, i);
    NameOnLine(text, BlankEnd(text, i));
    var e := NameFrom(text, BlankEnd(text, i)).value.1;
    BlanksOnLine(text, e);
    var k := BlankEnd(text, e);
    if k < |text| && text[k] == DOT {
      NoLineFeeds(text, k, k + 1);
      KeyOnLine(text, k + 1);
    }
  }

  /** So no key is ever the reason for a line, and a value's line is that of its statement. */
  lemma ValueOnLine(text: seq<nat>, i: nat)
    requires i <= |text| && EntryFrom(text, i).Some?
    ensures EntryFrom(text, i).value.0.value.line == LineAt(text, i)
  {
    hide KeyFrom, ValueFrom;
    KeyOnLine(text, i);
    var k := KeyFrom(text, i).value.1;
    NoLineFeeds(text, k, k + 1);
    BlanksOnLine(text, k + 1);
  }
}
