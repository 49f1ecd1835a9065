/**
  String literals with line continuations, over a text of any character unit: where a literal ends,
  the items it is made of, and the escapes that refuse it. The escape semantics are those of section
  7.8.4 of ECMA-262 5.1, as the grammar document configures them.
 */
module StringLiteral {
  import opened Wrappers
  import opened Numerals

  const LF: nat := 0x0A
  const CR: nat := 0x0D
  const LS: nat := 0x2028
  const PS: nat := 0x2029
  const BACKSLASH: nat := 0x5C

  /** The string options: `escapeStrict`, `allowUnknown`, `allowControl`, and whether the quote is multi-line. */
  datatype Syntax = Syntax(escapeStrict: bool, allowUnknown: bool, allowControl: bool, multiLine: bool)

  /** The grammar's: every unknown escape stands for its character, and no control character is body. */
  const GRAMMAR := Syntax(false, true, false, false)

  predicate IsQuote(c: nat) {
    c == '"' as nat || c == '\'' as nat || c == '`' as nat
  }

  predicate IsLineTerminator(c: nat) {
    c == LF || c == CR || c == LS || c == PS
  }

  predicate IsDigit(c: nat) {
    '0' as nat <= c <= '9' as nat
  }

  /** The grammar's escape map. */
  function EscapeMap(c: nat): Option<nat> {
    if c == 'b' as nat then Some(0x08)
    else if c == 'f' as nat then Some(0x0C)
    else if c == 'n' as nat then Some(LF)
    else if c == 'r' as nat then Some(CR)
    else if c == 't' as nat then Some(0x09)
    else if c == 'v' as nat then Some(0x0B)
    else if c == '0' as nat then Some(0x00)
    else if c == '"' as nat || c == '\'' as nat || c == '`' as nat || c == BACKSLASH || c == '/' as nat then Some(c)
    else None
  }

  function HexDigit(c: nat): Option<nat> {
    if '0' as nat <= c <= '9' as nat then Some(c - '0' as nat)
    else if 'a' as nat <= c <= 'f' as nat then Some(c - 'a' as nat + 10)
    else if 'A' as nat <= c <= 'F' as nat then Some(c - 'A' as nat + 10)
    else None
  }

  /** Exactly n hex digits at a place, or None when fewer are there. */
  function HexRun(text: seq<nat>, at: nat, n: nat): (v: Option<nat>)
    ensures v.Some? ==> at + n <= |text| && forall k | at <= k < at + n :: HexDigit(text[k]).Some?
  {
    if n == 0 then if at <= |text| then Some(0) else None
    else
      match HexRun(text, at, n - 1)
      case None => None
      case Some(v) =>
        if at + n > |text| then None
        else
          match HexDigit(text[at + n - 1])
          case None => None
          case Some(d) => Some(v * 16 + d)
  }

  lemma DigitExact(c: nat, d: nat)
    requires d < 16
    ensures HexDigit(c) == Some(d) <==> IsDigitOf(c, d)
  {
  }

  /** A run of hex digits reads as the number they write, and nothing else is one. */
  lemma {:induction false} HexRunExact(text: seq<nat>, at: nat, n: nat, u: nat)
    ensures HexRun(text, at, n) == Some(u) <==> at + n <= |text| && Denotes(text[at..at + n], u, 16)
    decreases n
  {
    hide HexDigit, IsDigitOf;
    if n > 0 && at + n <= |text| {
      HexRunExact(text, at, n - 1, u / 16);
      assert text[at..at + n][..n - 1] == text[at..at + n - 1];
      DigitExact(text[at + n - 1], u % 16);
      HexDigitSmall(text[at + n - 1]);
    }
  }

  lemma HexDigitSmall(c: nat)
    ensures HexDigit(c).Some? ==> HexDigit(c).value < 16
  {
  }

  // ---- Reading ----

  datatype Why = InvalidAscii | InvalidUnicode | Unexpected | Unprintable

  /** What an item adds: a character of the source, a code unit an escape spells, a replacement, or nothing. */
  datatype Piece = Char(c: nat) | Unit(u: nat) | Replaced(c: nat) | Continuation(ender: nat)

  /** An item of a literal and its length in the source. */
  datatype Item = Item(len: nat, piece: Piece)

  datatype Step =
    | Close
    | RunsOut
    | Take(item: Item)
    | Bad(why: Why, skip: nat, span: nat)

  /** A control or line character that may not stand in the body. */
  predicate IsUnprintable(c: nat, syn: Syntax) {
    if c == CR || c == LF then !syn.multiLine else c < 32 && !syn.allowControl
  }

  /** What stands at a place inside a literal. */
  function StepAt(s: seq<nat>, i: nat, quote: nat, syn: Syntax): (r: Step)
    requires i <= |s|
    ensures r.Take? ==> 1 <= r.item.len && i + r.item.len <= |s|
    ensures r.Bad? ==> i + r.skip < |s| && r.skip == if r.why == Unexpected then 1 else 0
  {
    if i == |s| then RunsOut
    else if s[i] == quote then Close
    else if s[i] == BACKSLASH then EscapeAt(s, i, syn)
    else if IsUnprintable(s[i], syn) then Bad(Unprintable, 0, 1)
    else Take(Item(1, Char(s[i])))
  }

  function EscapeAt(s: seq<nat>, i: nat, syn: Syntax): (r: Step)
    requires i < |s| && s[i] == BACKSLASH
    ensures r.Take? ==> 2 <= r.item.len && i + r.item.len <= |s|
    ensures r.Bad? ==> i + r.skip < |s| && r.skip == if r.why == Unexpected then 1 else 0
  {
    if i + 1 == |s| then RunsOut
    else
      var n := s[i + 1];
      if IsLineTerminator(n) then
        if n == CR && i + 2 < |s| && s[i + 2] == LF then Take(Item(3, Continuation(LF)))
        else Take(Item(2, Continuation(n)))
      else if EscapeMap(n).Some? then Take(Item(2, Replaced(EscapeMap(n).value)))
      else if n == 'x' as nat && !syn.escapeStrict then
        match HexRun(s, i + 2, 2)
        case None => Bad(InvalidAscii, 0, 4)
        case Some(u) => Take(Item(4, Unit(u)))
      else if n == 'u' as nat then
        match HexRun(s, i + 2, 4)
        case None => Bad(InvalidUnicode, 0, 6)
        case Some(u) => Take(Item(6, Unit(u)))
      else if !syn.allowUnknown then Bad(Unexpected, 1, 1)
      else Take(Item(2, Char(n)))
  }

  /** How the reading of a literal ends: just past its closing quote, at an error, or with the source. */
  datatype End = Closed(end: nat) | Failed(why: Why, at: nat, span: nat) | Unterminated

  datatype Reading = Reading(items: seq<Item>, end: End)

  /** A literal from a place inside it: the items, as far as they go, and how it ends. */
  function ReadFrom(s: seq<nat>, i: nat, quote: nat, syn: Syntax): (r: Reading)
    requires i <= |s|
    ensures r.end.Closed? ==> i < r.end.end <= |s|
    ensures r.end.Failed? ==> i <= r.end.at < |s| && (r.end.why == Unexpected ==> i < r.end.at)
    decreases |s| - i
  {
    match StepAt(s, i, quote, syn)
    case Close => Reading([], Closed(i + 1))
    case RunsOut => Reading([], Unterminated)
    case Bad(why, skip, span) => Reading([], Failed(why, i + skip, span))
    case Take(item) =>
      var rest := ReadFrom(s, i + item.len, quote, syn);
      Reading([item] + rest.items, rest.end)
  }

  /** The items before a place a reader has come to. */
  ghost predicate Reached(s: seq<nat>, i: nat, quote: nat, syn: Syntax, done: seq<Item>, j: nat)
    requires i <= |s| && j <= |s|
  {
    var from, on := ReadFrom(s, i, quote, syn), ReadFrom(s, j, quote, syn);
    && from == Reading(done + on.items, on.end)
    && j == i + Length(done)
  }

  function Length(items: seq<Item>): nat {
    if items == [] then 0 else Length(items[..|items| - 1]) + items[|items| - 1].len
  }

  lemma ReachedStep(s: seq<nat>, i: nat, quote: nat, syn: Syntax, done: seq<Item>, j: nat)
    requires i <= |s| && j <= |s| && Reached(s, i, quote, syn, done, j) && StepAt(s, j, quote, syn).Take?
    ensures var item := StepAt(s, j, quote, syn).item;
            j + item.len <= |s| && Reached(s, i, quote, syn, done + [item], j + item.len)
  {
    var item := StepAt(s, j, quote, syn).item;
    ReadsItem(s, j, quote, syn);
    hide StepAt, ReadFrom, Length;
    var on := ReadFrom(s, j + item.len, quote, syn);
    assert done + ([item] + on.items) == done + [item] + on.items;
    LengthSnoc(done, item);
  }

  lemma ReadsItem(s: seq<nat>, j: nat, quote: nat, syn: Syntax)
    requires j <= |s| && StepAt(s, j, quote, syn).Take?
    ensures var item := StepAt(s, j, quote, syn).item;
            j + item.len <= |s| && var on := ReadFrom(s, j + item.len, quote, syn);
            ReadFrom(s, j, quote, syn) == Reading([item] + on.items, on.end)
  {
    hide StepAt;
  }

  lemma LengthSnoc(items: seq<Item>, item: Item)
    ensures Length(items + [item]) == Length(items) + item.len
  {
    assert (items + [item])[..|items|] == items;
  }

  lemma ReachedStart(s: seq<nat>, i: nat, quote: nat, syn: Syntax)
    requires i <= |s|
    ensures Reached(s, i, quote, syn, [], i)
  {
    var on := ReadFrom(s, i, quote, syn);
    assert [] + on.items == on.items;
  }

  // ---- The value as UTF-16 code units ----

  /** What a piece adds to a value of code units. */
  function PieceUnits(p: Piece): seq<nat> {
    match p
    case Char(c) => [c]
    case Unit(u) => [u]
    case Replaced(c) => [c]
    case Continuation(_) => []
  }

  function Units(items: seq<Item>): seq<nat> {
    if items == [] then [] else Units(items[..|items| - 1]) + PieceUnits(items[|items| - 1].piece)
  }

  // ---- Rows and columns ----

  datatype Port = TypeScript | Go

  /** The row characters, the same in every port: a lone CR is not one. */
  predicate IsRowChar(c: nat) {
    c == LF || c == LS || c == PS
  }

  /** The line characters a port's reader takes as such in a multi-line body. */
  predicate IsLineBody(port: Port, c: nat) {
    match port
    case TypeScript => IsLineTerminator(c)
    case Go => c == LF || c == CR
  }

  datatype Place = Place(row: nat, col: nat)

  predicate IsRawLine(port: Port, syn: Syntax, item: Item) {
    item.len == 1 && item.piece.Char? && syn.multiLine && IsLineBody(port, item.piece.c)
  }

  /** The cursor past an item. */
  function Advance(port: Port, syn: Syntax, p: Place, item: Item): Place {
    if item.piece.Continuation? then
      if IsRowChar(item.piece.ender) then Place(p.row + 1, 1) else Place(p.row, p.col + 2)
    else if IsRawLine(port, syn, item) then
      Place(if IsRowChar(item.piece.c) then p.row + 1 else p.row, 1)
    else Place(p.row, p.col + item.len)
  }

  function AdvanceAll(port: Port, syn: Syntax, p: Place, items: seq<Item>): Place {
    if items == [] then p
    else Advance(port, syn, AdvanceAll(port, syn, p, items[..|items| - 1]), items[|items| - 1])
  }

  lemma Snoc(port: Port, syn: Syntax, p: Place, items: seq<Item>, item: Item)
    ensures AdvanceAll(port, syn, p, items + [item]) == Advance(port, syn, AdvanceAll(port, syn, p, items), item)
    ensures Units(items + [item]) == Units(items) + PieceUnits(item.piece)
    ensures Length(items + [item]) == Length(items) + item.len
  {
    assert (items + [item])[..|items|] == items;
  }

  /** A reader's loop at a place: the items so far, their units and the cursor past them. */
  ghost predicate Along(s: seq<nat>, i: nat, quote: nat, syn: Syntax, port: Port, first: Place,
                        done: seq<Item>, j: nat, units: seq<nat>, site: Place)
    requires i <= |s| && j <= |s|
  {
    forall n: nat | Folded(n) ::
      && Reached(s, i, quote, syn, done, j)
      && units == Units(done)
      && site == AdvanceAll(port, syn, first, done)
  }

  lemma AlongStart(s: seq<nat>, i: nat, quote: nat, syn: Syntax, port: Port, first: Place)
    requires i <= |s|
    ensures Along(s, i, quote, syn, port, first, [], i, [], first)
  {
    ReachedStart(s, i, quote, syn);
  }

  lemma AlongTake(s: seq<nat>, i: nat, quote: nat, syn: Syntax, port: Port, first: Place,
                  done: seq<Item>, j: nat, units: seq<nat>, site: Place)
    requires i <= |s| && j <= |s| && Along(s, i, quote, syn, port, first, done, j, units, site)
    requires StepAt(s, j, quote, syn).Take?
    ensures var item := StepAt(s, j, quote, syn).item;
            Along(s, i, quote, syn, port, first, done + [item], j + item.len,
                  units + PieceUnits(item.piece), Advance(port, syn, site, item))
  {
    assert Folded(0);
    var item := StepAt(s, j, quote, syn).item;
    hide ReadFrom, StepAt, Advance;
    ReachedStep(s, i, quote, syn, done, j);
    Snoc(port, syn, first, done, item);
  }

  /** How a reading ends whose reader has come to a place where no item stands. */
  function EndAt(step: Step, j: nat): End
    requires !step.Take?
  {
    match step
    case Close => Closed(j + 1)
    case RunsOut => Unterminated
    case Bad(why, skip, span) => Failed(why, j + skip, span)
  }

  lemma AlongEnd(s: seq<nat>, i: nat, quote: nat, syn: Syntax, port: Port, first: Place,
                 done: seq<Item>, j: nat, units: seq<nat>, site: Place)
    requires i <= |s| && j <= |s| && Along(s, i, quote, syn, port, first, done, j, units, site)
    requires !StepAt(s, j, quote, syn).Take?
    ensures ReadFrom(s, i, quote, syn) == Reading(done, EndAt(StepAt(s, j, quote, syn), j))
    ensures units == Units(done) && site == AdvanceAll(port, syn, first, done)
  {
    assert Folded(0);
    assert done + [] == done;
  }

  // ---- The scan that runs before the reader ----

  /** Where a scan stopped, with what it found: at the closing quote, or at the end of the source. */
  datatype Scan = Scan(forbidden: bool, continued: bool, stop: Option<nat>)

  /** An escape section 7.8.4 refuses: a decimal digit but a lone zero, or a brace after `\u`. */
  predicate IsForbidden(s: seq<nat>, i: nat)
    requires i + 1 < |s|
  {
    var n := s[i + 1];
    var after := if i + 2 < |s| then s[i + 2] else 0;
    || ('1' as nat <= n <= '9' as nat)
    || (n == '0' as nat && IsDigit(after))
    || (n == 'u' as nat && after == '{' as nat)
  }

  /** The walk the string check has always made: an escape takes the character after it along. */
  function ScanFrom(s: seq<nat>, i: nat, quote: nat): Scan
    decreases |s| - i
  {
    if i >= |s| then Scan(false, false, None)
    else if s[i] == quote then Scan(false, false, Some(i))
    else if s[i] != BACKSLASH then ScanFrom(s, i + 1, quote)
    else if i + 1 == |s| then Scan(false, false, None)
    else
      var rest := ScanFrom(s, i + 2, quote);
      if IsForbidden(s, i) then rest.(forbidden := true)
      else if IsLineTerminator(s[i + 1]) then rest.(continued := true)
      else rest
  }

  // ---- The check that decides whose a string is ----

  /** The quotes that open strings: the backtick only with its option. */
  predicate Opens(c: nat, backtick: bool) {
    c == '"' as nat || c == '\'' as nat || (backtick && c == '`' as nat)
  }

  /** Only a backtick string is multi-line. */
  function SyntaxFor(syn: Syntax, quote: nat): Syntax {
    syn.(multiLine := quote == '`' as nat)
  }

  /** The fixed check's answer at a place: the engine's string, one refused at its quote, or one read here. */
  datatype Verdict = NotOurs | RefusedAtQuote | ReadHere(reading: Reading)

  function FixedVerdict(s: seq<nat>, k: nat, syn: Syntax, backtick: bool): Verdict {
    if k >= |s| || !Opens(s[k], backtick) then NotOurs
    else
      var found := ScanFrom(s, k + 1, s[k]);
      if !found.continued then NotOurs
      else if found.forbidden then RefusedAtQuote
      else ReadHere(ReadFrom(s, k + 1, s[k], SyntaxFor(syn, s[k])))
  }
}
