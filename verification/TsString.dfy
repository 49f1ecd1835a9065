/** The TypeScript port's string scan and reader: a lexer point over a text of UTF-16 code units. */
module TsString {
  import opened Wrappers
  import opened StringLiteral

  datatype Token =
    | StringToken(value: seq<nat>, start: nat, end: nat, site: Place)
    | BadToken(reason: Reason, start: nat, end: nat, site: Place)

  datatype Reason = Escape(why: Why) | UnterminatedString | UnexpectedQuote

  const FORBIDDEN := 1
  const CONTINUED := 2

  /** scanString: the two bits as a number, found by a loop that steps over what an escape takes along. */
  method ScanString(src: seq<nat>, start: nat) returns (found: nat)
    requires start < |src|
    ensures var scan := ScanFrom(src, start + 1, src[start]);
            found == (if scan.forbidden then FORBIDDEN else 0) + (if scan.continued then CONTINUED else 0)
  {
    var quote := src[start];
    var forbidden, continued := false, false;
    var i := start + 1;
    ghost var whole := ScanFrom(src, i, quote);
    while i < |src|
      invariant var rest := ScanFrom(src, i, quote);
                && whole.forbidden == (forbidden || rest.forbidden)
                && whole.continued == (continued || rest.continued)
      decreases |src| - i
    {
      var c := src[i];
      if c == quote {
        break;
      }
      if c != BACKSLASH {
        i := i + 1;
        continue;
      }
      if i + 1 == |src| {
        break;
      }
      if IsForbidden(src, i) {
        forbidden := true;
      } else if IsLineTerminator(src[i + 1]) {
        continued := true;
      }
      i := i + 2;
    }
    found := (if forbidden then FORBIDDEN else 0) + (if continued then CONTINUED else 0);
  }

  /** What the reader does at a place: go on, refuse what stands there, close, or stop with the source. */
  datatype Turn =
    | On(next: nat, site: Place, added: seq<nat>)
    | Refuse(why: Why, at: nat, end: nat, site: Place)
    | Finish
    | Stop

  /** The turn a step calls for. */
  ghost function TurnOf(step: Step, i: nat, site: Place, syn: Syntax): Turn {
    match step
    case Close => Finish
    case RunsOut => Stop
    case Take(item) => On(i + item.len, Advance(TypeScript, syn, site, item), PieceUnits(item.piece))
    case Bad(why, skip, span) =>
      Refuse(why, i + skip, i + skip + span, if why == Unexpected then Place(site.row, site.col + 1) else site)
  }

  /** The escape branch of readContinuedString's loop. */
  method EscapeTurn(src: seq<nat>, i: nat, site: Place, syn: Syntax) returns (turn: Turn)
    requires i < |src| && src[i] == BACKSLASH
    ensures turn == TurnOf(EscapeAt(src, i, syn), i, site, syn)
  {
    if i + 1 == |src| {
      return Stop;
    }
    var n := src[i + 1];
    if IsLineTerminator(n) {
      var crlf := n == CR && i + 2 < |src| && src[i + 2] == LF;
      var next := if crlf then i + 3 else i + 2;
      if IsRowChar(if crlf then LF else n) {
        return On(next, Place(site.row + 1, 1), []);
      } else {
        return On(next, Place(site.row, site.col + 2), []);
      }
    }
    var es := EscapeMap(n);
    if es.Some? {
      return On(i + 2, Place(site.row, site.col + 2), [es.value]);
    }
    if n == 'x' as nat && !syn.escapeStrict {
      var hex := HexRun(src, i + 2, 2);
      if hex == None {
        return Refuse(InvalidAscii, i, i + 4, site);
      }
      return On(i + 4, Place(site.row, site.col + 4), [hex.value]);
    }
    if n == 'u' as nat {
      var hex := HexRun(src, i + 2, 4);
      if hex == None {
        return Refuse(InvalidUnicode, i, i + 6, site);
      }
      return On(i + 6, Place(site.row, site.col + 6), [hex.value]);
    }
    if !syn.allowUnknown {
      return Refuse(Unexpected, i + 1, i + 2, Place(site.row, site.col + 1));
    }
    turn := On(i + 2, Place(site.row, site.col + 2), [n]);
  }

  /** One turn of readContinuedString's loop. */
  method BodyTurn(src: seq<nat>, i: nat, quote: nat, site: Place, syn: Syntax) returns (turn: Turn)
    requires i < |src|
    ensures turn == TurnOf(StepAt(src, i, quote, syn), i, site, syn)
  {
    var c := src[i];
    if c == quote {
      return Finish;
    }
    if c == BACKSLASH {
      turn := EscapeTurn(src, i, site, syn);
      return;
    }
    if syn.multiLine && IsLineTerminator(c) {
      return On(i + 1, Place(if IsRowChar(c) then site.row + 1 else site.row, 1), [c]);
    }
    if c < 32 && !(syn.allowControl && !IsLineTerminator(c)) {
      return Refuse(Unprintable, i, i + 1, site);
    }
    turn := On(i + 1, Place(site.row, site.col + 1), [c]);
  }

  /** How the reader's loop ended: past the closing quote, at an error, or with the source. */
  datatype Body =
    | Finished(val: seq<nat>, end: nat, site: Place)
    | Refused(why: Why, at: nat, end: nat, site: Place)
    | RanOut

  /** The end of the loop that a reading calls for. */
  ghost function BodyOf(reading: Reading, first: Place, syn: Syntax): Body {
    var site := AdvanceAll(TypeScript, syn, first, reading.items);
    match reading.end
    case Closed(end) => Finished(Units(reading.items), end, site)
    case Failed(why, at, span) =>
      Refused(why, at, at + span, if why == Unexpected then Place(site.row, site.col + 1) else site)
    case Unterminated => RanOut
  }

  /** What the loop answers when a turn does not go on. */
  function Ended(turn: Turn, i: nat, val: seq<nat>, site: Place): Body
    requires !turn.On?
  {
    match turn
    case Finish => Finished(val, i + 1, site)
    case Refuse(why, at, end, there) => Refused(why, at, end, there)
    case Stop => RanOut
  }

  lemma {:induction false} BodyEnds(src: seq<nat>, start: nat, first: Place, syn: Syntax, done: seq<Item>, i: nat,
                                    val: seq<nat>, site: Place)
    requires start < i <= |src| && !StepAt(src, i, src[start], syn).Take?
    requires Along(src, start + 1, src[start], syn, TypeScript, first, done, i, val, site)
    ensures BodyOf(ReadFrom(src, start + 1, src[start], syn), first, syn)
            == Ended(TurnOf(StepAt(src, i, src[start], syn), i, site, syn), i, val, site)
  {
    hide ReadFrom, StepAt, Along;
    AlongEnd(src, start + 1, src[start], syn, TypeScript, first, done, i, val, site);
  }

  /** readContinuedString's loop over the literal whose quote is at `start`, to where no item stands. */
  method ReadLoop(src: seq<nat>, start: nat, first: Place, syn: Syntax)
    returns (turn: Turn, i: nat, val: seq<nat>, site: Place, ghost done: seq<Item>)
    requires start < |src| && IsQuote(src[start])
    ensures start < i <= |src| && Along(src, start + 1, src[start], syn, TypeScript, first, done, i, val, site)
    ensures turn == TurnOf(StepAt(src, i, src[start], syn), i, site, syn) && !turn.On?
  {
    var quote := src[start];
    i, val, site, done, turn := start + 1, [], first, [], Stop;
    AlongStart(src, i, quote, syn, TypeScript, first);
    while i < |src|
      invariant start + 1 <= i <= |src| && turn == Stop
      invariant Along(src, start + 1, quote, syn, TypeScript, first, done, i, val, site)
      decreases |src| - i
    {
      turn := BodyTurn(src, i, quote, site, syn);
      if !turn.On? {
        break;
      }
      AlongTake(src, start + 1, quote, syn, TypeScript, first, done, i, val, site);
      done := done + [StepAt(src, i, quote, syn).item];
      val, i, site, turn := val + turn.added, turn.next, turn.site, Stop;
    }
  }

  /** The loop's end, as a reading of the literal. */
  method ReadBody(src: seq<nat>, start: nat, first: Place, syn: Syntax) returns (body: Body)
    requires start < |src| && IsQuote(src[start])
    ensures body == BodyOf(ReadFrom(src, start + 1, src[start], syn), first, syn)
  {
    var turn, i, val, site, done := ReadLoop(src, start, first, syn);
    hide ReadFrom, Along, StepAt;
    BodyEnds(src, start, first, syn, done, i, val, site);
    body := Ended(turn, i, val, site);
  }

  /** The lexer: its source, and the point that a check may move. */
  class Lexer {
    const src: seq<nat>
    var sI: nat
    var rI: nat
    var cI: nat

    constructor (src: seq<nat>)
      ensures this.src == src && sI == 0 && rI == 1 && cI == 1
    {
      this.src := src;
      sI, rI, cI := 0, 1, 1;
    }

    /** The token a reading gives, read with the point at a literal's quote. */
    ghost function TokenOf(reading: Reading, start: nat, place: Place, syn: Syntax): Token {
      match reading.end
      case Closed(end) => StringToken(Units(reading.items), start, end, place)
      case Failed(why, at, span) => BadToken(Escape(why), at, at + span, FailurePlace(reading, place, syn))
      case Unterminated => BadToken(UnterminatedString, start, |src|, place)
    }

    /** Just past the items of a literal that began at a place. */
    ghost function BodyPlace(reading: Reading, place: Place, syn: Syntax): Place {
      AdvanceAll(TypeScript, syn, Place(place.row, place.col + 1), reading.items)
    }

    /** An error is sited on the offending character, or on the backslash of a malformed escape. */
    ghost function FailurePlace(reading: Reading, place: Place, syn: Syntax): Place
      requires reading.end.Failed?
    {
      var body := BodyPlace(reading, place, syn);
      Place(body.row, if reading.end.why == Unexpected then body.col + 1 else body.col)
    }

    /** Where the point is left: just past the literal, at the error, or where it was when the source runs out. */
    ghost function PointOf(reading: Reading, start: nat, place: Place, syn: Syntax): (nat, Place) {
      match reading.end
      case Closed(end) => var body := BodyPlace(reading, place, syn); (end, Place(body.row, body.col + 1))
      case Failed(_, at, _) => (at, FailurePlace(reading, place, syn))
      case Unterminated => (start, place)
    }

    /**
      readContinuedString: the token and the point are those of the literal's reading.
     */
    method ReadContinuedString(syn: Syntax) returns (token: Token)
      requires sI < |src| && IsQuote(src[sI])
      modifies this
      ensures var reading, place := ReadFrom(src, old(sI) + 1, src[old(sI)], syn), Place(old(rI), old(cI));
              && token == TokenOf(reading, old(sI), place, syn)
              && (sI, Place(rI, cI)) == PointOf(reading, old(sI), place, syn)
    {
      hide ReadFrom, StepAt, AdvanceAll;
      var start, place := sI, Place(rI, cI);
      var read := ReadBody(src, start, Place(rI, cI + 1), syn);
      match read {
        case Finished(val, end, site) =>
          token := StringToken(val, start, end, place);
          sI, rI, cI := end, site.row, site.col + 1;
        case Refused(why, at, end, site) =>
          sI, rI, cI := at, site.row, site.col;
          token := BadToken(Escape(why), at, end, site);
        case RanOut =>
          token := BadToken(UnterminatedString, start, |src|, place);
      }
    }

    /**
      fixedCheck: at a string that holds a continuation it answers the finished token, or refuses the
      string at its quote; anywhere else it does nothing.
     */
    method FixedCheck(syn: Syntax, backtick: bool) returns (token: Option<Token>)
      modifies this
      ensures var place := Place(old(rI), old(cI));
              match FixedVerdict(src, old(sI), syn, backtick)
              case NotOurs => token == None && sI == old(sI) && Place(rI, cI) == place
              case RefusedAtQuote =>
                && token == Some(BadToken(UnexpectedQuote, old(sI), old(sI) + 1, place))
                && sI == old(sI) && Place(rI, cI) == place
              case ReadHere(reading) =>
                var here := SyntaxFor(syn, src[old(sI)]);
                && token == Some(TokenOf(reading, old(sI), place, here))
                && (sI, Place(rI, cI)) == PointOf(reading, old(sI), place, here)
    {
      if sI >= |src| || !Opens(src[sI], backtick) {
        return None;
      }
      var found := ScanString(src, sI);
      if found / 2 % 2 == 0 {
        return None;
      }
      if found % 2 == 1 {
        return Some(BadToken(UnexpectedQuote, sI, sI + 1, Place(rI, cI)));
      }
      var read := ReadContinuedString(SyntaxFor(syn, src[sI]));
      token := Some(read);
    }
  }
}
