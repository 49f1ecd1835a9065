/**
  The Rust port's string scan and reader: the rest of a source as UTF-8 bytes, with a literal at its
  start, read without moving the lexer. Progress is counted twice, in characters and in bytes.
 */
module RustString {
  import opened Wrappers
  import opened Utf
  import opened StringLiteral
  import opened Surrogates
  import GoString

  /** What decode_continued_string read. */
  datatype ContinuedString =
    | Read(value: seq<nat>, chars: nat, bytes: nat)
    | BadString(why: Why, at: nat, len: nat)
    | OpenString

  /** hex_digits: `get` answers nothing at a byte inside a character, and the digits must all be there. */
  function HexDigits(bytes: seq<nat>, from: nat, count: nat): Option<nat> {
    if from + count > |bytes| || (from + count < |bytes| && 0x80 <= bytes[from + count] < 0xC0) then None
    else HexRun(bytes, from, count)
  }

  /** The boundary test refuses nothing that the digit test would take. */
  lemma HexDigitsExact(text: seq<nat>, k: nat, count: nat)
    requires Scalars(text) && k <= |text|
    ensures HexDigits(Utf8(text), Offset8(text, k), count) == HexRun(text, k, count)
    ensures HexRun(text, k, count).Some? ==> Offset8(text, k + count) == Offset8(text, k) + count
  {
    hide Utf8;
    GoString.HexBytes(text, k, count);
    if HexRun(text, k, count).Some? {
      OffsetEnd(text);
      OffsetOrder(text, k + count, |text|);
      if k + count < |text| {
        ByteAt(text, k + count);
      }
    }
  }

  /** What the reader does at a place: take an item, refuse what stands there, close, or stop with the source. */
  datatype Turn =
    | On(bytes: nat, chars: nat, piece: Piece)
    | Refuse(why: Why, at: nat, len: nat)
    | Finish(end: nat)
    | Stop

  /** Up to `len` characters from character `at`, clipped at the end of the source. */
  function Span(text: seq<nat>, at: nat, len: nat): nat
    requires at <= |text|
  {
    if at + len <= |text| then len else |text| - at
  }

  ghost function TurnOf(text: seq<nat>, k: nat, quote: nat, syn: Syntax): Turn
    requires k <= |text|
  {
    match StepAt(text, k, quote, syn)
    case Close => Finish(Offset8(text, k + 1))
    case RunsOut => Stop
    case Take(item) => On(Offset8(text, k + item.len), k + item.len, item.piece)
    case Bad(why, skip, span) => Refuse(why, k + skip, Span(text, k + skip, span))
  }

  /** How many of the next `len` characters are there: `chars().take(len).count()`. */
  method CountChars(bytes: seq<nat>, from: nat, len: nat, ghost text: seq<nat>, ghost k: nat) returns (n: nat)
    requires Scalars(text) && bytes == Utf8(text) && k <= |text| && from == Offset8(text, k)
    ensures n == Span(text, k, len)
  {
    n := 0;
    var i := from;
    OffsetEnd(text);
    while n < len && i < |bytes|
      invariant n <= len && k + n <= |text| && i == Offset8(text, k + n)
      decreases len - n
    {
      GoString.NotAtEnd(text, k + n);
      DecodeAt(text, k + n);
      i := i + DecodeRune(bytes, i).1;
      n := n + 1;
    }
    if n < len {
      GoString.PastTheEnd(text, k + n);
    }
  }

  /** The escape branch of decode_continued_string's loop, at character `at`. */
  method EscapeTurn(remaining: seq<nat>, i: nat, at: nat, syn: Syntax, ghost text: seq<nat>) returns (turn: Turn)
    requires Scalars(text) && remaining == Utf8(text) && at < |text| && i == Offset8(text, at) && text[at] == BACKSLASH
    ensures forall quote | quote != BACKSLASH :: turn == TurnOf(text, at, quote, syn)
  {
    hide Utf8, Utf8One, DecodeRune, Scalars, HexRun, HexDigits;
    ByteAt(text, at);
    if i + 1 >= |remaining| {
      GoString.LastCharacter(text, at);
      return Stop;
    }
    GoString.NotLastCharacter(text, at);
    DecodeAt(text, at + 1);
    var (n, size) := DecodeRune(remaining, i + 1);
    var body := i + 1 + size;
    if IsLineTerminator(n) {
      turn := ContinuationTurn(remaining, body, at, n, text);
      return;
    }
    var replacement := EscapeMap(n);
    if replacement.Some? {
      return On(body, at + 2, Replaced(replacement.value));
    }
    if n == 'u' as nat {
      HexDigitsExact(text, at + 2, 4);
      var unit := HexDigits(remaining, body, 4);
      if unit == None {
        var len := CountChars(remaining, i, 6, text, at);
        return Refuse(InvalidUnicode, at, len);
      }
      return On(body + 4, at + 6, Unit(unit.value));
    }
    if n == 'x' as nat && !syn.escapeStrict {
      HexDigitsExact(text, at + 2, 2);
      var byte := HexDigits(remaining, body, 2);
      if byte == None {
        var len := CountChars(remaining, i, 4, text, at);
        return Refuse(InvalidAscii, at, len);
      }
      return On(body + 2, at + 4, Unit(byte.value));
    }
    if !syn.allowUnknown {
      return Refuse(Unexpected, at + 1, 1);
    }
    turn := On(body, at + 2, Char(n));
  }

  method ContinuationTurn(remaining: seq<nat>, body: nat, at: nat, n: nat, ghost text: seq<nat>) returns (turn: Turn)
    requires Scalars(text) && remaining == Utf8(text) && at + 1 < |text| && body == Offset8(text, at + 2)
    requires text[at] == BACKSLASH && n == text[at + 1] && IsLineTerminator(n)
    ensures forall quote, syn | quote != BACKSLASH :: turn == TurnOf(text, at, quote, syn)
  {
    OffsetEnd(text);
    if at + 2 < |text| {
      ByteAt(text, at + 2);
    }
    if n == CR && body < |remaining| && remaining[body] == LF {
      return On(body + 1, at + 3, Continuation(LF));
    }
    turn := On(body, at + 2, Continuation(n));
  }

  /** One turn of decode_continued_string's loop. */
  method BodyTurn(remaining: seq<nat>, i: nat, at: nat, quote: nat, syn: Syntax, ghost text: seq<nat>)
    returns (turn: Turn)
    requires Scalars(text) && remaining == Utf8(text) && at < |text| && i == Offset8(text, at) && quote != BACKSLASH
    ensures turn == TurnOf(text, at, quote, syn)
  {
    hide Utf8, Utf8One, DecodeRune, Scalars;
    DecodeAt(text, at);
    var (c, size) := DecodeRune(remaining, i);
    if c == quote {
      return Finish(i + size);
    }
    if c == BACKSLASH {
      turn := EscapeTurn(remaining, i, at, syn, text);
      return;
    }
    var unprintable := if c == CR || c == LF then !syn.multiLine else c < 32 && !syn.allowControl;
    if unprintable {
      return Refuse(Unprintable, at, 1);
    }
    turn := On(i + size, at + 1, Char(c));
  }

  /** The reader's loop at byte i and character `at`: the sink holds the decoding of the items so far. */
  ghost predicate Reading8(text: seq<nat>, syn: Syntax, i: nat, at: nat, sink: Sink, done: seq<Item>) {
    forall n: nat | Folded(n) ::
      && 0 < at <= |text| && i == Offset8(text, at)
      && Reached(text, 1, text[0], syn, done, at)
      && Represents(sink, ItemUnits(done))
  }

  /** One turn and what it delivers to the value. */
  method ReadTurn(remaining: seq<nat>, i: nat, at: nat, quote: nat, sink: Sink, syn: Syntax,
                  ghost text: seq<nat>, ghost done: seq<Item>)
    returns (turn: Turn, sink': Sink, ghost done': seq<Item>)
    requires Scalars(text) && remaining == Utf8(text) && text != [] && quote == text[0] && quote != BACKSLASH
    requires Reading8(text, syn, i, at, sink, done) && i < |remaining|
    ensures turn.On? ==> turn.bytes > i && Reading8(text, syn, turn.bytes, turn.chars, sink', done')
    ensures !turn.On? ==> && sink' == sink && done' == done
                          && at < |text| && turn == TurnOf(text, at, quote, syn)
  {
    hide Reached, Represents, ItemUnits, Offset8, DecodeLossy;
    assert Folded(0);
    GoString.NotAtEnd(text, at);
    turn := BodyTurn(remaining, i, at, quote, syn, text);
    sink', done' := sink, done;
    if turn.On? {
      ghost var item := StepAt(text, at, quote, syn).item;
      OffsetOrder(text, at, at + item.len);
      GoString.PieceFits(text, at, quote, syn);
      ReachedStep(text, 1, quote, syn, done, at);
      ItemUnitsSnoc(done, item);
      sink' := Deliver(sink, turn.piece, ItemUnits(done));
      done' := done + [item];
    }
  }

  /** decode_continued_string's loop, to where no item stands. */
  method ReadLoop(remaining: seq<nat>, from: nat, quote: nat, syn: Syntax, ghost text: seq<nat>)
    returns (turn: Turn, i: nat, at: nat, sink: Sink, ghost done: seq<Item>)
    requires Scalars(text) && remaining == Utf8(text) && text != [] && quote == text[0] && quote != BACKSLASH
    requires Reading8(text, syn, from, 1, EMPTY, [])
    ensures Reading8(text, syn, i, at, sink, done)
    ensures if i >= |remaining| then turn == Stop else at < |text| && turn == TurnOf(text, at, quote, syn) && !turn.On?
  {
    i, at, sink, turn, done := from, 1, EMPTY, Stop, [];
    while i < |remaining|
      invariant turn == Stop && Reading8(text, syn, i, at, sink, done)
      decreases |remaining| - i
    {
      turn, sink, done := ReadTurn(remaining, i, at, quote, sink, syn, text, done);
      if !turn.On? {
        break;
      }
      i, at, turn := turn.bytes, turn.chars, Stop;
    }
  }

  /** What the reading of a literal at the start of a text answers. */
  ghost function StringOf(text: seq<nat>, syn: Syntax): ContinuedString
    requires text != []
  {
    var reading := ReadFrom(text, 1, text[0], syn);
    match reading.end
    case Closed(end) => Read(DecodeLossy(ItemUnits(reading.items)), end, Offset8(text, end))
    case Failed(why, at, span) => BadString(why, at, Span(text, at, span))
    case Unterminated => OpenString
  }

  /**
    decode_continued_string: the value is the decoding of the literal's code units, and `chars` is the
    number of characters in its first `bytes` bytes.
   */
  method DecodeContinuedString(remaining: seq<nat>, quote: nat, syn: Syntax, ghost text: seq<nat>)
    returns (read: ContinuedString)
    requires Scalars(text) && remaining == Utf8(text) && text != [] && quote == text[0] && IsQuote(quote)
    ensures read == StringOf(text, syn)
    ensures read.Read? ==> read.chars <= |text| && read.bytes <= |remaining|
    ensures read.Read? ==> remaining[..read.bytes] == Utf8(text[..read.chars])
  {
    hide ReadFrom, Reached, StepAt, Offset8, DecodeLossy, ItemUnits, TurnOf, StringOf, Utf8, Utf8One, DecodeRune;
    OffsetEnd(text);
    ReadingStart(text, syn);
    var turn, i, at, sink, done := ReadLoop(remaining, DecodeRune(remaining, 0).1, quote, syn, text);
    assert Folded(0);
    if i >= |remaining| {
      GoString.PastTheEnd(text, at);
      StopsAtEnd(text, quote, syn);
    }
    FlushedIsDecoding(sink, ItemUnits(done));
    ReadEnds(text, syn, done, at);
    match turn {
      case Finish(end) =>
        PrefixBytes(text, at + 1);
        var flushed := Flush(sink);
        read := Read(flushed.out, at + 1, end);
      case Refuse(why, where_, len) => read := BadString(why, where_, len);
      case Stop => read := OpenString;
    }
  }

  lemma ReadingStart(text: seq<nat>, syn: Syntax)
    requires Scalars(text) && text != []
    ensures 0 < |Utf8(text)| && Reading8(text, syn, DecodeRune(Utf8(text), 0).1, 1, EMPTY, [])
  {
    hide Utf8, Utf8One, DecodeRune, Represents, Reached;
    DecodeAt(text, 0);
    NothingRead(text);
    ReachedStart(text, 1, text[0], syn);
    EmptyRepresents();
  }

  lemma NothingRead(text: seq<nat>)
    ensures ItemUnits([]) == [] && Offset8(text, 0) == 0
  {
  }

  lemma StopsAtEnd(text: seq<nat>, quote: nat, syn: Syntax)
    ensures TurnOf(text, |text|, quote, syn) == Stop
  {
  }

  lemma PrefixBytes(text: seq<nat>, k: nat)
    requires k <= |text|
    ensures Offset8(text, k) <= |Utf8(text)| && Utf8(text)[..Offset8(text, k)] == Utf8(text[..k])
  {
    assert text == text[..k] + text[k..];
    Utf8Concat(text[..k], text[k..]);
  }

  lemma ReadEnds(text: seq<nat>, syn: Syntax, done: seq<Item>, at: nat)
    requires 0 < at <= |text| && Reached(text, 1, text[0], syn, done, at)
    requires !TurnOf(text, at, text[0], syn).On?
    ensures var turn := TurnOf(text, at, text[0], syn);
            && (turn.Finish? ==> at < |text| && turn.end == Offset8(text, at + 1)
                                 && StringOf(text, syn) == Read(DecodeLossy(ItemUnits(done)), at + 1, turn.end))
            && (turn.Refuse? ==> StringOf(text, syn) == BadString(turn.why, turn.at, turn.len))
            && (turn.Stop? ==> StringOf(text, syn) == OpenString)
  {
    hide Offset8, DecodeLossy, ItemUnits;
    assert done + [] == done;
  }

  /** scan_string_escapes over a literal at the start of the text. */
  method ScanStringEscapes(remaining: seq<nat>, quote: nat, ghost text: seq<nat>)
    returns (forbidden: bool, continued: bool)
    requires Scalars(text) && remaining == Utf8(text) && text != [] && quote == text[0]
    ensures var scan := ScanFrom(text, 1, quote); forbidden == scan.forbidden && continued == scan.continued
  {
    forbidden, continued := false, false;
    DecodeAt(text, 0);
    OffsetEnd(text);
    var i := DecodeRune(remaining, 0).1;
    ghost var j: nat := 1;
    ghost var whole := ScanFrom(text, j, quote);
    while i < |remaining|
      invariant j <= |text| && i == Offset8(text, j)
      invariant var rest := ScanFrom(text, j, quote);
                && whole.forbidden == (forbidden || rest.forbidden)
                && whole.continued == (continued || rest.continued)
      decreases |remaining| - i
    {
      GoString.NotAtEnd(text, j);
      var turn := ScanAt(remaining, i, quote, text, j);
      if turn.ScanStop? {
        return;
      }
      GoString.ScanStep(text, j, quote);
      forbidden, continued := forbidden || turn.forbidden, continued || turn.continued;
      i, j := turn.next, if text[j] == BACKSLASH then j + 2 else j + 1;
    }
    GoString.PastTheEnd(text, j);
  }

  /** One turn of scan_string_escapes' loop, at character j. */
  method ScanAt(remaining: seq<nat>, i: nat, quote: nat, ghost text: seq<nat>, ghost j: nat)
    returns (turn: GoString.ScanTurn)
    requires Scalars(text) && remaining == Utf8(text) && j < |text| && i == Offset8(text, j)
    ensures turn == GoString.ScanTurnOf(text, j, quote)
  {
    hide Utf8, Utf8One, DecodeRune, Scalars;
    DecodeAt(text, j);
    var (c, size) := DecodeRune(remaining, i);
    if c == quote {
      return GoString.ScanStop;
    }
    if c != BACKSLASH {
      return GoString.ScanOn(i + size, false, false);
    }
    ByteAt(text, j);
    if i + size >= |remaining| {
      GoString.LastCharacter(text, j);
      return GoString.ScanStop;
    }
    GoString.NotLastCharacter(text, j);
    GoString.ForbiddenBytes(text, j);
    var next := remaining[i + size];
    var after := if i + size + 1 < |remaining| then remaining[i + size + 1] else 0;
    DecodeAt(text, j + 1);
    var (escaped, width) := DecodeRune(remaining, i + size);
    var forbidden := (IsDigit(next) && (next != '0' as nat || IsDigit(after)))
                     || (next == 'u' as nat && after == '{' as nat);
    turn := GoString.ScanOn(i + size + width, forbidden, !forbidden && IsLineTerminator(escaped));
  }

  /** The fixed check's answer: how far to advance in characters, and the token. */
  datatype Check =
    | Continue
    | StringToken(value: seq<nat>, advance: nat, bytes: nat)
    | BadToken(why: Why, advance: nat, len: nat)
    | UnexpectedQuote
    | UnterminatedString(len: nat)

  /** read_continued_string, with the cursor at the start of `remaining`. */
  method ReadContinuedString(remaining: seq<nat>, syn: Syntax, backtick: bool, ghost text: seq<nat>)
    returns (check: Check)
    requires Scalars(text) && remaining == Utf8(text)
    ensures match FixedVerdict(text, 0, syn, backtick)
            case NotOurs => check == Continue
            case RefusedAtQuote => check == UnexpectedQuote
            case ReadHere(_) =>
              match StringOf(text, SyntaxFor(syn, text[0]))
              case Read(value, chars, bytes) => check == StringToken(value, chars, bytes)
              case BadString(why, at, len) => check == BadToken(why, at, len)
              case OpenString => check == UnterminatedString(|text|)
  {
    OffsetEnd(text);
    if remaining == [] {
      GoString.PastTheEnd(text, 0);
      return Continue;
    }
    GoString.NotAtEnd(text, 0);
    DecodeAt(text, 0);
    var quote := DecodeRune(remaining, 0).0;
    if !Opens(quote, backtick) {
      return Continue;
    }
    var forbidden, continued := ScanStringEscapes(remaining, quote, text);
    if !continued {
      return Continue;
    }
    if forbidden {
      return UnexpectedQuote;
    }
    var read := DecodeContinuedString(remaining, quote, SyntaxFor(syn, quote), text);
    match read {
      case Read(value, chars, bytes) => check := StringToken(value, chars, bytes);
      case BadString(why, at, len) => check := BadToken(why, at, len);
      case OpenString =>
        var len := CountChars(remaining, 0, |remaining|, text, 0);
        OffsetOrder(text, 0, |text|);
        check := UnterminatedString(len);
    }
  }
}
