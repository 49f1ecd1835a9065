/**
  The Go port's string scan and reader: a lexer cursor over the UTF-8 bytes of a source. The
  contracts speak of the characters those bytes encode; k is a cursor counted in characters.
 */
module GoString {
  import opened Wrappers
  import opened Utf
  import opened StringLiteral
  import opened Surrogates

  datatype Reason = Escape(why: Why) | UnterminatedString | UnexpectedQuote

  /** A token with its value, its bytes of the source and its site. */
  datatype Token =
    | StringToken(value: seq<nat>, start: nat, end: nat, site: Place)
    | BadToken(reason: Reason, start: nat, end: nat, site: Place)

  /** What scanStringEscapes reports. */
  datatype StringEscapes = StringEscapes(forbidden: bool, continued: bool)

  // ---- Bytes where the escapes look for characters ----

  /** A hex run is ASCII, so reading it off the bytes is reading it off the characters. */
  lemma {:induction false} HexBytes(text: seq<nat>, k: nat, n: nat)
    requires Scalars(text) && k <= |text|
    ensures HexRun(Utf8(text), Offset8(text, k), n) == HexRun(text, k, n)
    ensures HexRun(text, k, n).Some? ==> Offset8(text, k + n) == Offset8(text, k) + n
  {
    hide Utf8;
    OffsetEnd(text);
    OffsetOrder(text, k, |text|);
    if n > 0 {
      HexBytes(text, k, n - 1);
      if HexRun(text, k, n - 1).Some? {
        var j := k + n - 1;
        if j < |text| {
          ByteAt(text, j);
        }
      }
    }
  }

  /** hexValue: exactly n hex digits, or -1. */
  method HexValue(src: seq<nat>, at: nat, n: nat) returns (v: int)
    ensures v == match HexRun(src, at, n) case None => -1 case Some(u) => u
  {
    if at + n > |src| {
      return -1;
    }
    v := 0;
    for k := 0 to n
      invariant v >= 0 && HexRun(src, at, k) == Some(v)
    {
      var d := HexDigit(src[at + k]);
      if d == None {
        NoHexBeyond(src, at, k + 1, n);
        return -1;
      }
      v := v * 16 + d.value;
    }
  }

  lemma {:induction false} NoHexBeyond(src: seq<nat>, at: nat, k: nat, n: nat)
    requires k <= n && HexRun(src, at, k) == None
    ensures HexRun(src, at, n) == None
  {
    if k < n {
      NoHexBeyond(src, at, k, n - 1);
    }
  }

  /** The byte after a backslash and the one after that decide what the two characters would. */
  lemma ForbiddenBytes(text: seq<nat>, k: nat)
    requires Scalars(text) && k + 1 < |text| && text[k] == BACKSLASH
    ensures Offset8(text, k) + 1 < |Utf8(text)| && IsForbidden(Utf8(text), Offset8(text, k)) == IsForbidden(text, k)
  {
    hide Utf8;
    ByteAt(text, k);
    ByteAt(text, k + 1);
    if k + 2 < |text| {
      ByteAt(text, k + 2);
    } else {
      OffsetEnd(text);
    }
  }

  /** What scanStringEscapes does at a place: step over something, or stop. */
  datatype ScanTurn = ScanOn(next: nat, forbidden: bool, continued: bool) | ScanStop

  ghost function ScanTurnOf(text: seq<nat>, j: nat, quote: nat): ScanTurn
    requires j < |text|
  {
    if text[j] == quote then ScanStop
    else if text[j] != BACKSLASH then ScanOn(Offset8(text, j + 1), false, false)
    else if j + 1 == |text| then ScanStop
    else
      var forbidden := IsForbidden(text, j);
      ScanOn(Offset8(text, j + 2), forbidden, !forbidden && IsLineTerminator(text[j + 1]))
  }

  /** One turn of scanStringEscapes' loop, at character j. */
  method ScanAt(src: seq<nat>, i: nat, quote: nat, ghost text: seq<nat>, ghost j: nat) returns (turn: ScanTurn)
    requires Scalars(text) && src == Utf8(text) && j < |text| && i == Offset8(text, j)
    ensures turn == ScanTurnOf(text, j, quote)
  {
    DecodeAt(text, j);
    var (r, size) := DecodeRune(src, i);
    if r == quote {
      return ScanStop;
    }
    if r != BACKSLASH {
      return ScanOn(i + size, false, false);
    }
    ByteAt(text, j);
    if i + size >= |src| {
      LastCharacter(text, j);
      return ScanStop;
    }
    NotLastCharacter(text, j);
    ForbiddenBytes(text, j);
    DecodeAt(text, j + 1);
    var (n, nsize) := DecodeRune(src, i + size);
    if IsForbidden(src, i) {
      return ScanOn(i + size + nsize, true, false);
    }
    turn := ScanOn(i + size + nsize, false, IsLineTerminator(n));
  }

  /** scanStringEscapes over the literal whose quote is character k. */
  method ScanStringEscapes(src: seq<nat>, start: nat, quote: nat, ghost text: seq<nat>, ghost k: nat)
    returns (found: StringEscapes)
    requires Scalars(text) && src == Utf8(text) && k < |text| && start == Offset8(text, k) && quote == text[k]
    ensures var scan := ScanFrom(text, k + 1, quote); found == StringEscapes(scan.forbidden, scan.continued)
  {
    var forbidden, continued := false, false;
    DecodeAt(text, k);
    var qsize := DecodeRune(src, start).1;
    var i := start + qsize;
    ghost var j: nat := k + 1;
    ghost var whole := ScanFrom(text, j, quote);
    while i < |src|
      invariant j <= |text| && i == Offset8(text, j)
      invariant var rest := ScanFrom(text, j, quote);
                && whole.forbidden == (forbidden || rest.forbidden)
                && whole.continued == (continued || rest.continued)
      decreases |src| - i
    {
      NotAtEnd(text, j);
      var turn := ScanAt(src, i, quote, text, j);
      if turn.ScanStop? {
        return StringEscapes(forbidden, continued);
      }
      ScanStep(text, j, quote);
      forbidden, continued := forbidden || turn.forbidden, continued || turn.continued;
      i, j := turn.next, if text[j] == BACKSLASH then j + 2 else j + 1;
    }
    PastTheEnd(text, j);
    found := StringEscapes(forbidden, continued);
  }

  lemma ScanStep(text: seq<nat>, j: nat, quote: nat)
    requires j < |text| && ScanTurnOf(text, j, quote).ScanOn?
    ensures var turn, next := ScanTurnOf(text, j, quote), if text[j] == BACKSLASH then j + 2 else j + 1;
            var rest := ScanFrom(text, next, quote);
            && next <= |text| && turn.next == Offset8(text, next) > Offset8(text, j)
            && ScanFrom(text, j, quote)
               == Scan(turn.forbidden || rest.forbidden, turn.continued || rest.continued, rest.stop)
  {
    OffsetOrder(text, j, if text[j] == BACKSLASH then j + 2 else j + 1);
  }

  lemma LastCharacter(text: seq<nat>, j: nat)
    requires j < |text| && Offset8(text, j + 1) >= |Utf8(text)|
    ensures j + 1 == |text|
  {
    OffsetEnd(text);
    OffsetOrder(text, j + 1, |text|);
  }

  lemma NotLastCharacter(text: seq<nat>, j: nat)
    requires j < |text| && Offset8(text, j + 1) < |Utf8(text)|
    ensures j + 1 < |text|
  {
    OffsetEnd(text);
  }

  lemma PastTheEnd(text: seq<nat>, j: nat)
    requires j <= |text| && Offset8(text, j) >= |Utf8(text)|
    ensures j == |text|
  {
    OffsetEnd(text);
    OffsetOrder(text, j, |text|);
  }

  // ---- The reader ----

  /** What the reader does at a place: take an item, refuse what stands there, close, or stop with the source. */
  datatype Turn =
    | On(next: nat, site: Place, piece: Piece)
    | Refuse(why: Why, at: nat, end: nat, site: Place)
    | Finish(next: nat)
    | Stop

  function Clip(end: nat, size: nat): nat {
    if end > size then size else end
  }

  /** Where the source of an error ends, in bytes. */
  ghost function ErrorEnd(text: seq<nat>, k: nat, why: Why): nat
    requires k < |text| && (why == Unexpected ==> k + 1 < |text|)
  {
    match why
    case InvalidAscii => Clip(Offset8(text, k) + 4, |Utf8(text)|)
    case InvalidUnicode => Clip(Offset8(text, k) + 6, |Utf8(text)|)
    case Unexpected => Offset8(text, k + 2)
    case Unprintable => Offset8(text, k + 1)
  }

  /** The turn a step over the characters calls for, in bytes. */
  ghost function TurnOf(text: seq<nat>, k: nat, quote: nat, site: Place, syn: Syntax): Turn
    requires k <= |text|
  {
    match StepAt(text, k, quote, syn)
    case Close => Finish(Offset8(text, k + 1))
    case RunsOut => Stop
    case Take(item) => On(Offset8(text, k + item.len), Advance(Go, syn, site, item), item.piece)
    case Bad(why, skip, span) =>
      Refuse(why, Offset8(text, k + skip), ErrorEnd(text, k, why),
             if why == Unexpected then Place(site.row, site.col + 1) else site)
  }

  /** A line continuation: its terminator is n, and `body` is the byte after it. */
  method ContinuationTurn(src: seq<nat>, body: nat, n: nat, site: Place, ghost text: seq<nat>, ghost k: nat)
    returns (turn: Turn)
    requires Scalars(text) && src == Utf8(text) && k + 1 < |text| && body == Offset8(text, k + 2)
    requires text[k] == BACKSLASH && n == text[k + 1] && IsLineTerminator(n)
    ensures forall quote, syn | quote != BACKSLASH :: turn == TurnOf(text, k, quote, site, syn)
  {
    var ender, next := n, body;
    OffsetEnd(text);
    if k + 2 < |text| {
      ByteAt(text, k + 2);
    }
    if n == CR && body < |src| && src[body] == LF {
      ender := LF;
      next := body + 1;
    }
    turn := On(next, if IsRowChar(ender) then Place(site.row + 1, 1) else Place(site.row, site.col + 2),
               Continuation(ender));
  }

  /** The escape branch of readContinuedString's loop. */
  method EscapeTurn(src: seq<nat>, i: nat, size: nat, site: Place, syn: Syntax, ghost text: seq<nat>, ghost k: nat)
    returns (turn: Turn)
    requires Scalars(text) && src == Utf8(text) && k < |text| && i == Offset8(text, k)
    requires text[k] == BACKSLASH && size == 1
    ensures forall quote | quote != BACKSLASH :: turn == TurnOf(text, k, quote, site, syn)
  {
    hide Utf8, Utf8One, DecodeRune, Scalars, HexRun;
    ByteAt(text, k);
    if i + size >= |src| {
      LastCharacter(text, k);
      return Stop;
    }
    NotLastCharacter(text, k);
    DecodeAt(text, k + 1);
    var (n, nsize) := DecodeRune(src, i + size);
    var body := i + size + nsize;
    if IsLineTerminator(n) {
      turn := ContinuationTurn(src, body, n, site, text, k);
      return;
    }
    var rep := EscapeMap(n);
    if rep.Some? {
      return On(body, Place(site.row, site.col + 2), Replaced(rep.value));
    }
    if n == 'x' as nat && !syn.escapeStrict {
      HexBytes(text, k + 2, 2);
      var cc := HexValue(src, body, 2);
      if cc < 0 {
        return Refuse(InvalidAscii, i, Clip(i + 4, |src|), site);
      }
      return On(body + 2, Place(site.row, site.col + 4), Unit(cc));
    }
    if n == 'u' as nat {
      HexBytes(text, k + 2, 4);
      var cc := HexValue(src, body, 4);
      if cc < 0 {
        return Refuse(InvalidUnicode, i, Clip(i + 6, |src|), site);
      }
      return On(body + 4, Place(site.row, site.col + 6), Unit(cc));
    }
    if !syn.allowUnknown {
      return Refuse(Unexpected, i + size, body, Place(site.row, site.col + 1));
    }
    turn := On(body, Place(site.row, site.col + 2), Char(n));
  }

  /** One turn of readContinuedString's loop. */
  method BodyTurn(src: seq<nat>, i: nat, quote: nat, site: Place, syn: Syntax, ghost text: seq<nat>, ghost k: nat)
    returns (turn: Turn)
    requires Scalars(text) && src == Utf8(text) && k < |text| && i == Offset8(text, k) && quote != BACKSLASH
    ensures turn == TurnOf(text, k, quote, site, syn)
  {
    DecodeAt(text, k);
    var (c, size) := DecodeRune(src, i);
    if c == quote {
      return Finish(i + size);
    }
    if c == BACKSLASH {
      turn := EscapeTurn(src, i, size, site, syn, text, k);
      return;
    }
    if c < 32 {
      var isLine := c == LF || c == CR;
      if syn.multiLine && isLine {
        return On(i + size, Place(if IsRowChar(c) then site.row + 1 else site.row, 1), Char(c));
      }
      if !syn.allowControl || isLine {
        return Refuse(Unprintable, i, i + size, site);
      }
    }
    turn := On(i + size, Place(site.row, site.col + 1), Char(c));
  }

  /** How the reader's loop ended: past the closing quote, at an error, or with the source. */
  datatype Body =
    | Finished(value: seq<nat>, end: nat, site: Place)
    | Refused(why: Why, at: nat, end: nat, site: Place)
    | RanOut

  /** The reader's loop at byte i: character j, the items so far, and the sink that holds their decoding. */
  ghost predicate Reading8(text: seq<nat>, k: nat, first: Place, syn: Syntax, i: nat, site: Place, sink: Sink,
                           j: nat, done: seq<Item>, units: seq<nat>)
  {
    forall n: nat | Folded(n) ::
      && k < j <= |text| && i == Offset8(text, j)
      && Along(text, k + 1, text[k], syn, Go, first, done, j, units, site)
      && Represents(sink, ItemUnits(done))
  }

  /** One turn and what it delivers to the sink. */
  method ReadTurn(src: seq<nat>, i: nat, quote: nat, first: Place, site: Place, sink: Sink, syn: Syntax,
                  ghost text: seq<nat>, ghost k: nat, ghost j: nat, ghost done: seq<Item>, ghost units: seq<nat>)
    returns (turn: Turn, sink': Sink, ghost j': nat, ghost done': seq<Item>, ghost units': seq<nat>)
    requires Scalars(text) && src == Utf8(text) && i < |src| && k < |text| && quote == text[k] && quote != BACKSLASH
    requires Reading8(text, k, first, syn, i, site, sink, j, done, units)
    ensures turn.On? ==> turn.next > i && Reading8(text, k, first, syn, turn.next, turn.site, sink', j', done', units')
    ensures !turn.On? ==> && sink' == sink && j' == j && done' == done && units' == units
                          && j < |text| && turn == TurnOf(text, j, quote, site, syn)
  {
    hide Along, Represents, ItemUnits, Offset8, DecodeLossy;
    assert Folded(0);
    NotAtEnd(text, j);
    turn := BodyTurn(src, i, quote, site, syn, text, j);
    sink', j', done', units' := sink, j, done, units;
    if turn.On? {
      ghost var item := StepAt(text, j, quote, syn).item;
      ReadOn(text, k, first, syn, done, j, units, site);
      sink' := Deliver(sink, turn.piece, ItemUnits(done));
      done', units', j' := done + [item], units + PieceUnits(item.piece), j + item.len;
    }
  }

  /** readContinuedString's loop over the literal whose quote is character k, to where no item stands. */
  method ReadLoop(src: seq<nat>, body: nat, quote: nat, first: Place, syn: Syntax, ghost text: seq<nat>, ghost k: nat)
    returns (turn: Turn, i: nat, sink: Sink, site: Place, ghost j: nat, ghost done: seq<Item>, ghost units: seq<nat>)
    requires Scalars(text) && src == Utf8(text) && k < |text| && quote == text[k] && quote != BACKSLASH
    requires Reading8(text, k, first, syn, body, first, EMPTY, k + 1, [], [])
    ensures Reading8(text, k, first, syn, i, site, sink, j, done, units)
    ensures if i >= |src| then turn == Stop else j < |text| && turn == TurnOf(text, j, quote, site, syn) && !turn.On?
  {
    i, sink, site, turn := body, EMPTY, first, Stop;
    j, done, units := k + 1, [], [];
    while i < |src|
      invariant turn == Stop
      invariant Reading8(text, k, first, syn, i, site, sink, j, done, units)
      decreases |src| - i
    {
      turn, sink, j, done, units := ReadTurn(src, i, quote, first, site, sink, syn, text, k, j, done, units);
      if !turn.On? {
        break;
      }
      i, site, turn := turn.next, turn.site, Stop;
    }
  }

  /**
    The loop's end, as a reading of the literal whose quote is character k: where it ends in the
    characters' reading, and the decoding of the code units that the items spell.
   */
  method ReadBody(src: seq<nat>, start: nat, first: Place, syn: Syntax, ghost text: seq<nat>, ghost k: nat)
    returns (body: Body)
    requires Scalars(text) && src == Utf8(text) && k < |text| && start == Offset8(text, k) && IsQuote(text[k])
    ensures body == BodyOf(text, k, first, syn)
  {
    DecodeAt(text, k);
    var (quote, qsize) := DecodeRune(src, start);
    ReadStart(text, k, first, syn);
    var turn, i, sink, site, j, done, units := ReadLoop(src, start + qsize, quote, first, syn, text, k);
    assert Folded(0);
    hide ReadFrom, Along, StepAt, Offset8, DecodeLossy, ItemUnits, TurnOf, BodyOf;
    if i >= |src| {
      PastTheEnd(text, j);
      StopsAtEnd(text, quote, site, syn);
    }
    var flushed := Flush(sink);
    FlushedIsDecoding(sink, ItemUnits(done));
    BodyEnds(text, k, first, syn, done, j, units, site);
    body := Ended(turn, flushed.out, site);
  }

  lemma StopsAtEnd(text: seq<nat>, quote: nat, site: Place, syn: Syntax)
    ensures TurnOf(text, |text|, quote, site, syn) == Stop
  {
  }

  lemma ReadStart(text: seq<nat>, k: nat, first: Place, syn: Syntax)
    requires k < |text|
    ensures Reading8(text, k, first, syn, Offset8(text, k + 1), first, EMPTY, k + 1, [], [])
  {
    AlongStart(text, k + 1, text[k], syn, Go, first);
    EmptyRepresents();
  }

  /** What taking an item keeps. */
  lemma ReadOn(text: seq<nat>, k: nat, first: Place, syn: Syntax, done: seq<Item>, j: nat, units: seq<nat>, site: Place)
    requires Scalars(text) && k < j < |text| && StepAt(text, j, text[k], syn).Take?
    requires Along(text, k + 1, text[k], syn, Go, first, done, j, units, site)
    ensures var item := StepAt(text, j, text[k], syn).item;
            && j + item.len <= |text| && Offset8(text, j) < Offset8(text, j + item.len)
            && (item.piece.Char? ==> IsScalar(item.piece.c)) && (item.piece.Replaced? ==> item.piece.c < 0x80)
            && Along(text, k + 1, text[k], syn, Go, first, done + [item], j + item.len,
                     units + PieceUnits(item.piece), Advance(Go, syn, site, item))
            && ItemUnits(done + [item]) == ItemUnits(done) + CharUnits(item.piece)
  {
    hide Offset8, Along, ItemUnits, Scalars;
    var item := StepAt(text, j, text[k], syn).item;
    OffsetOrder(text, j, j + item.len);
    PieceFits(text, j, text[k], syn);
    AlongTake(text, k + 1, text[k], syn, Go, first, done, j, units, site);
    ItemUnitsSnoc(done, item);
  }

  lemma NotAtEnd(text: seq<nat>, j: nat)
    requires j <= |text| && Offset8(text, j) < |Utf8(text)|
    ensures j < |text|
  {
    OffsetEnd(text);
  }

  /** The pieces of a text of characters are characters. */
  lemma PieceFits(text: seq<nat>, j: nat, quote: nat, syn: Syntax)
    requires Scalars(text) && j <= |text| && StepAt(text, j, quote, syn).Take?
    ensures var piece := StepAt(text, j, quote, syn).item.piece;
            (piece.Char? ==> IsScalar(piece.c)) && (piece.Replaced? ==> piece.c < 0x80)
  {
  }

  function Ended(turn: Turn, value: seq<nat>, site: Place): Body
    requires !turn.On?
  {
    match turn
    case Finish(next) => Finished(value, next, site)
    case Refuse(why, at, end, there) => Refused(why, at, end, there)
    case Stop => RanOut
  }

  /** The end of the loop that a reading of the characters calls for. */
  ghost function BodyOf(text: seq<nat>, k: nat, first: Place, syn: Syntax): Body
    requires k < |text|
  {
    var reading := ReadFrom(text, k + 1, text[k], syn);
    var site := AdvanceAll(Go, syn, first, reading.items);
    match reading.end
    case Closed(end) => Finished(DecodeLossy(ItemUnits(reading.items)), Offset8(text, end), site)
    case Failed(why, at, span) =>
      Refused(why, Offset8(text, at), ErrorEnd(text, if why == Unexpected then at - 1 else at, why),
              if why == Unexpected then Place(site.row, site.col + 1) else site)
    case Unterminated => RanOut
  }

  lemma BodyEnds(text: seq<nat>, k: nat, first: Place, syn: Syntax, done: seq<Item>, j: nat, units: seq<nat>,
      site: Place)
    requires k < j <= |text| && !TurnOf(text, j, text[k], site, syn).On?
    requires Along(text, k + 1, text[k], syn, Go, first, done, j, units, site)
    ensures BodyOf(text, k, first, syn)
            == Ended(TurnOf(text, j, text[k], site, syn), DecodeLossy(ItemUnits(done)), site)
  {
    hide ReadFrom, Along, Offset8, DecodeLossy, ItemUnits, AdvanceAll, Units, StepAt;
    AlongEnd(text, k + 1, text[k], syn, Go, first, done, j, units, site);
  }

  /** The token a reading of the characters gives, read with the cursor at quote k. */
  ghost function TokenOf(text: seq<nat>, k: nat, place: Place, syn: Syntax): Token
    requires k < |text|
  {
    var start := Offset8(text, k);
    match BodyOf(text, k, Place(place.row, place.col + 1), syn)
    case Finished(value, end, _) => StringToken(value, start, end, place)
    case Refused(why, at, end, site) => BadToken(Escape(why), at, end, site)
    case RanOut => BadToken(UnterminatedString, start, |Utf8(text)|, place)
  }

  /** Where the cursor is left: just past the literal, at the error, or where it was when the source runs out. */
  ghost function CursorOf(text: seq<nat>, k: nat, place: Place, syn: Syntax): (nat, Place)
    requires k < |text|
  {
    match BodyOf(text, k, Place(place.row, place.col + 1), syn)
    case Finished(_, end, site) => (end, Place(site.row, site.col + 1))
    case Refused(_, at, _, site) => (at, site)
    case RanOut => (Offset8(text, k), place)
  }

  /** The lexer: its source, and the cursor that a check may move. */
  class Lex {
    const src: seq<nat>
    var sI: nat
    var rI: nat
    var cI: nat

    constructor (src: seq<nat>)
      ensures this.src == src && sI == 0 && rI == 1 && cI == 1
    {
      this.src := src;
      sI, rI, cI := 0, 1, 1;
    }

    /**
      readContinuedString: the token and the cursor are those of the literal's reading.
     */
    method ReadContinuedString(syn: Syntax, ghost text: seq<nat>, ghost k: nat) returns (token: Token)
      requires Scalars(text) && src == Utf8(text) && k < |text| && sI == Offset8(text, k) && IsQuote(text[k])
      modifies this
      ensures token == TokenOf(text, k, Place(old(rI), old(cI)), syn)
      ensures (sI, Place(rI, cI)) == CursorOf(text, k, Place(old(rI), old(cI)), syn)
    {
      var start, place := sI, Place(rI, cI);
      var body := ReadBody(src, start, Place(rI, cI + 1), syn, text, k);
      match body {
        case Finished(value, end, site) =>
          token := StringToken(value, start, end, place);
          sI, rI, cI := end, site.row, site.col + 1;
        case Refused(why, at, end, site) =>
          sI, rI, cI := at, site.row, site.col;
          token := BadToken(Escape(why), at, end, site);
        case RanOut =>
          token := BadToken(UnterminatedString, start, |src|, place);
      }
    }

    /** The fixedCheck closure, with the cursor at character k. */
    method FixedCheck(syn: Syntax, backtick: bool, ghost text: seq<nat>, ghost k: nat) returns (token: Option<Token>)
      requires Scalars(text) && src == Utf8(text) && k <= |text| && sI == Offset8(text, k)
      modifies this
      ensures var place := Place(old(rI), old(cI));
              match FixedVerdict(text, k, syn, backtick)
              case NotOurs => token == None && sI == old(sI) && Place(rI, cI) == place
              case RefusedAtQuote =>
                && token == Some(BadToken(UnexpectedQuote, old(sI), old(sI) + 1, place))
                && sI == old(sI) && Place(rI, cI) == place
              case ReadHere(_) =>
                && token == Some(TokenOf(text, k, place, SyntaxFor(syn, text[k])))
                && (sI, Place(rI, cI)) == CursorOf(text, k, place, SyntaxFor(syn, text[k]))
    {
      if sI >= |src| {
        PastTheEnd(text, k);
        return None;
      }
      NotAtEnd(text, k);
      DecodeAt(text, k);
      ByteAt(text, k);
      var (quote, qsize) := DecodeRune(src, sI);
      if !Opens(quote, backtick) {
        return None;
      }
      var found := ScanStringEscapes(src, sI, quote, text, k);
      if !found.continued {
        return None;
      }
      if found.forbidden {
        return Some(BadToken(UnexpectedQuote, sI, sI + qsize, Place(rI, cI)));
      }
      var read := ReadContinuedString(SyntaxFor(syn, quote), text, k);
      token := Some(read);
    }
  }
}
