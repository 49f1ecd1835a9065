/**
  Where a literal leaves the cursor: a plain fold over the characters of its source span, which knows
  nothing of items, and what that means for ports that count different units.
 */
module StringPlaces {
  import opened Wrappers
  import opened Utf
  import opened StringLiteral
  import StringTheorems
  import StringAgreement

  /** What stood before a character: nothing special, a backslash that escapes it, or such a backslash and a CR. */
  datatype Mode = Plain | Escaped | EscapedReturn

  function NextMode(mode: Mode, c: nat): Mode {
    if mode == Escaped then (if c == CR then EscapedReturn else Plain)
    else if c == BACKSLASH then Escaped
    else Plain
  }

  /** Whether a character ends a continuation whose terminator ends a row. */
  predicate EndsRow(mode: Mode, c: nat) {
    (mode == Escaped && IsRowChar(c)) || (mode == EscapedReturn && c == LF)
  }

  /** Whether a character stands in a multi-line body as one of the port's line characters. */
  predicate IsRawBreak(port: Port, multiLine: bool, mode: Mode, c: nat) {
    multiLine && mode != Escaped && IsLineBody(port, c)
  }

  /** The cursor past one character: a new row, a column that starts again, or one column more. */
  function PlacePast(port: Port, multiLine: bool, mode: Mode, c: nat, p: Place): Place {
    if EndsRow(mode, c) then Place(p.row + 1, 1)
    else if IsRawBreak(port, multiLine, mode, c) then Place(if IsRowChar(c) then p.row + 1 else p.row, 1)
    else Place(p.row, p.col + 1)
  }

  /** The cursor past the characters from i to e. */
  function PlaceOver(port: Port, multiLine: bool, s: seq<nat>, i: nat, e: nat, mode: Mode, p: Place): Place
    requires e <= |s|
    decreases e - i
  {
    if i >= e then p
    else PlaceOver(port, multiLine, s, i + 1, e, NextMode(mode, s[i]), PlacePast(port, multiLine, mode, s[i], p))
  }

  // ---- One item ----

  lemma {:induction false} OverDigits(port: Port, multiLine: bool, s: seq<nat>, i: nat, n: nat, e: nat, p: Place)
    requires i + n <= e <= |s| && forall k | i <= k < i + n :: HexDigit(s[k]).Some?
    ensures PlaceOver(port, multiLine, s, i, e, Plain, p)
            == PlaceOver(port, multiLine, s, i + n, e, Plain, Place(p.row, p.col + n))
    decreases n
  {
    if n > 0 {
      OverDigits(port, multiLine, s, i + 1, n - 1, e, Place(p.row, p.col + 1));
    }
  }

  /** After an escaped CR that no LF follows, the fold goes on as if nothing stood before. */
  lemma ReturnIsPlain(port: Port, multiLine: bool, s: seq<nat>, i: nat, e: nat, p: Place)
    requires e <= |s| && (i < e ==> s[i] != LF)
    ensures PlaceOver(port, multiLine, s, i, e, EscapedReturn, p) == PlaceOver(port, multiLine, s, i, e, Plain, p)
  {
  }

  lemma OneStep(port: Port, multiLine: bool, s: seq<nat>, i: nat, e: nat, mode: Mode, p: Place)
    requires i < e <= |s|
    ensures PlaceOver(port, multiLine, s, i, e, mode, p)
            == PlaceOver(port, multiLine, s, i + 1, e, NextMode(mode, s[i]), PlacePast(port, multiLine, mode, s[i], p))
  {
  }

  /** Over what follows a backslash. */
  lemma {:induction false} OverEscape(port: Port, s: seq<nat>, i: nat, e: nat, quote: nat, syn: Syntax, p: Place)
    requires i <= |s| && e <= |s| && StepAt(s, i, quote, syn).Take? && i + StepAt(s, i, quote, syn).item.len <= e
    requires s[i] == BACKSLASH
    ensures var item := StepAt(s, i, quote, syn).item;
            PlaceOver(port, syn.multiLine, s, i + 1, e, Escaped, Place(p.row, p.col + 1))
            == PlaceOver(port, syn.multiLine, s, i + item.len, e, Plain, Advance(port, syn, p, item))
  {
    var item := StepAt(s, i, quote, syn).item;
    hide PlaceOver, HexRun;
    OneStep(port, syn.multiLine, s, i + 1, e, Escaped, Place(p.row, p.col + 1));
    if item.len == 3 {
      OneStep(port, syn.multiLine, s, i + 2, e, EscapedReturn, Place(p.row, p.col + 2));
    } else if item.len > 3 {
      assert HexRun(s, i + 2, item.len - 2).Some?;
      OverDigits(port, syn.multiLine, s, i + 2, item.len - 2, e, Place(p.row, p.col + 2));
    } else if s[i + 1] == CR {
      ReturnIsPlain(port, syn.multiLine, s, i + 2, e, Place(p.row, p.col + 2));
    }
  }

  /** Over the characters of an item the fold moves the cursor as the reader does. */
  lemma {:induction false} OverItem(port: Port, s: seq<nat>, i: nat, e: nat, quote: nat, syn: Syntax, p: Place)
    requires i <= |s| && e <= |s| && StepAt(s, i, quote, syn).Take? && i + StepAt(s, i, quote, syn).item.len <= e
    ensures var item := StepAt(s, i, quote, syn).item;
            PlaceOver(port, syn.multiLine, s, i, e, Plain, p)
            == PlaceOver(port, syn.multiLine, s, i + item.len, e, Plain, Advance(port, syn, p, item))
  {
    var item := StepAt(s, i, quote, syn).item;
    hide PlaceOver, HexRun;
    OneStep(port, syn.multiLine, s, i, e, Plain, p);
    if s[i] == BACKSLASH {
      OverEscape(port, s, i, e, quote, syn, p);
    }
  }

  // ---- The whole literal ----

  lemma {:induction false} AdvanceCons(port: Port, syn: Syntax, p: Place, item: Item, rest: seq<Item>)
    ensures AdvanceAll(port, syn, p, [item] + rest) == AdvanceAll(port, syn, Advance(port, syn, p, item), rest)
  {
    hide Advance;
    var items := [item] + rest;
    if rest == [] {
      assert items == [item] && items[..0] == [];
    } else {
      var n := |rest| - 1;
      assert items[..n + 1] == [item] + rest[..n];
      AdvanceCons(port, syn, p, item, rest[..n]);
    }
  }

  /**
    The cursor past a literal is the plain fold over the characters of its source span, in TypeScript and in
    Go, each in its own unit. Rows rise at continuations that end in LF, CRLF, U+2028 or U+2029, and in a multi-line
    body at the port's raw line characters; nothing else starts a column again.
   */
  lemma {:induction false} PlaceIsSourcePlace(port: Port, s: seq<nat>, i: nat, quote: nat, syn: Syntax, p: Place)
    requires i <= |s| && ReadFrom(s, i, quote, syn).end.Closed?
    ensures var reading := ReadFrom(s, i, quote, syn);
            AdvanceAll(port, syn, p, reading.items)
            == PlaceOver(port, syn.multiLine, s, i, reading.end.end - 1, Plain, p)
    decreases |s| - i
  {
    hide StepAt, ReadFrom, Advance;
    var step := StepAt(s, i, quote, syn);
    if step.Take? {
      StringTheorems.ReadTake(s, i, quote, syn, step.item);
      var rest := ReadFrom(s, i + step.item.len, quote, syn);
      AdvanceCons(port, syn, p, step.item, rest.items);
      OverItem(port, s, i, rest.end.end - 1, quote, syn, p);
      PlaceIsSourcePlace(port, s, i + step.item.len, quote, syn, Advance(port, syn, p, step.item));
    } else {
      StringTheorems.ReadStop(s, i, quote, syn);
    }
  }

  /** In a string of one line, a span without a backslash stays in its row, raw U+2028 and U+2029 included. */
  lemma {:induction false} OneLineStays(port: Port, s: seq<nat>, i: nat, e: nat, p: Place)
    requires i <= e <= |s| && forall k | i <= k < e :: s[k] != BACKSLASH
    ensures PlaceOver(port, false, s, i, e, Plain, p) == Place(p.row, p.col + (e - i))
    decreases e - i
  {
    if i < e {
      OneLineStays(port, s, i + 1, e, Place(p.row, p.col + 1));
    }
  }

  // ---- The ports on one text ----

  /** How many raw U+2028 and U+2029 a multi-line body has between i and e. */
  function RawSeparators(multiLine: bool, text: seq<nat>, i: nat, e: nat, mode: Mode): nat
    requires e <= |text|
    decreases e - i
  {
    if i >= e then 0
    else
      (if multiLine && mode != Escaped && (text[i] == LS || text[i] == PS) then 1 else 0)
      + RawSeparators(multiLine, text, i + 1, e, NextMode(mode, text[i]))
  }

  /** How many astral characters stand after the last character that starts a column again, n of them before i. */
  function AstralSince(multiLine: bool, text: seq<nat>, i: nat, e: nat, mode: Mode, n: nat): nat
    requires e <= |text|
    decreases e - i
  {
    if i >= e then n
    else
      var c := text[i];
      AstralSince(multiLine, text, i + 1, e, NextMode(mode, c),
                  if EndsRow(mode, c) || IsRawBreak(Go, multiLine, mode, c) then 0
                  else if c >= 0x10000 then n + 1 else n)
  }

  /** TypeScript's fold over the units of a character: one step, or two that change no mode. */
  lemma UnitSteps(text: seq<nat>, k: nat, e: nat, multiLine: bool, mode: Mode, p: Place)
    requires Scalars(text) && k < e <= |text| && Offset16(text, e) <= |Utf16(text)|
    ensures var u, c := Utf16(text), text[k];
            var past := if c < 0x10000 then PlacePast(TypeScript, multiLine, mode, c, p) else Place(p.row, p.col + 2);
            PlaceOver(TypeScript, multiLine, u, Offset16(text, k), Offset16(text, e), mode, p)
            == PlaceOver(TypeScript, multiLine, u, Offset16(text, k + 1), Offset16(text, e), NextMode(mode, c), past)
  {
    hide Utf16, Offset16, PlaceOver;
    UnitsAt(text, k);
    OffsetOrder16(text, k + 1, e);
    var u, at := Utf16(text), Offset16(text, k);
    OneStep(TypeScript, multiLine, u, at, Offset16(text, e), mode, p);
    if text[k] >= 0x10000 {
      OneStep(TypeScript, multiLine, u, at + 1, Offset16(text, e), Plain, Place(p.row, p.col + 1));
    }
  }

  lemma {:induction false} OffsetOrder16(text: seq<nat>, j: nat, k: nat)
    requires j <= k <= |text|
    ensures Offset16(text, j) <= Offset16(text, k) <= |Utf16(text)|
    decreases k - j
  {
    hide Utf16, Offset16;
    if j < k {
      OffsetOrder16(text, j, k - 1);
      Offset16Step(text, k - 1);
    } else {
      StringAgreement.OffsetWithin(text, k);
    }
  }

  /** Row by row and column by column: what the two folds differ by. */
  lemma {:induction false} FoldsPart(text: seq<nat>, k: nat, e: nat, multiLine: bool, mode: Mode,
                                     p: Place, q: Place, n: nat)
    requires Scalars(text) && k <= e <= |text| && Offset16(text, e) <= |Utf16(text)|
    ensures var ts := PlaceOver(TypeScript, multiLine, Utf16(text), Offset16(text, k), Offset16(text, e), mode, p);
            var go := PlaceOver(Go, multiLine, text, k, e, mode, q);
            var raw := RawSeparators(multiLine, text, k, e, mode);
            && ts.row + q.row == go.row + p.row + raw
            && (raw == 0 && p.col == q.col + n ==> ts.col == go.col + AstralSince(multiLine, text, k, e, mode, n))
    decreases e - k
  {
    hide Utf16, Offset16;
    if k < e {
      var c := text[k];
      UnitSteps(text, k, e, multiLine, mode, p);
      var past := if c < 0x10000 then PlacePast(TypeScript, multiLine, mode, c, p) else Place(p.row, p.col + 2);
      var m := if EndsRow(mode, c) || IsRawBreak(Go, multiLine, mode, c) then 0 else if c >= 0x10000 then n + 1 else n;
      FoldsPart(text, k + 1, e, multiLine, NextMode(mode, c), past, PlacePast(Go, multiLine, mode, c, q), m);
    }
  }

  /**
    The two readings of one text, TypeScript's of its code units and Go's of its characters: the rows differ
    by the raw separators of a multi-line body, and with none of those the columns differ by the astral
    characters since the column last started. So the rows are one exactly when there is no raw separator, and
    the places are one exactly when there is, besides, no such character.
   */
  lemma PortsPart(text: seq<nat>, k: nat, quote: nat, syn: Syntax, p: Place)
    requires Scalars(text) && k <= |text| && IsQuote(quote) && ReadFrom(text, k, quote, syn).end.Closed?
    ensures Offset16(text, k) <= |Utf16(text)|
    ensures var byChars, byUnits := ReadFrom(text, k, quote, syn), ReadFrom(Utf16(text), Offset16(text, k), quote, syn);
            var ts, go := AdvanceAll(TypeScript, syn, p, byUnits.items), AdvanceAll(Go, syn, p, byChars.items);
            var raw := RawSeparators(syn.multiLine, text, k, byChars.end.end - 1, Plain);
            var astral := AstralSince(syn.multiLine, text, k, byChars.end.end - 1, Plain, 0);
            && ts.row == go.row + raw
            && (raw == 0 ==> ts.col == go.col + astral)
            && (ts == go <==> raw == 0 && astral == 0)
  {
    hide Utf16, Offset16, ReadFrom, AdvanceAll, PlaceOver, RawSeparators, AstralSince, StringAgreement.Agrees;
    StringAgreement.ReadUnits(text, k, quote, syn);
    var e := ReadFrom(text, k, quote, syn).end.end;
    ClosedAtQuote(text, k, quote, syn);
    UnitsAt(text, e - 1);
    OffsetOrder16(text, e - 1, |text|);
    SameEnd(text, k, quote, syn);
    PlaceIsSourcePlace(TypeScript, Utf16(text), Offset16(text, k), quote, syn, p);
    PlaceIsSourcePlace(Go, text, k, quote, syn, p);
    FoldsPart(text, k, e - 1, syn.multiLine, Plain, p, p, 0);
  }

  lemma ClosedAtQuote(text: seq<nat>, k: nat, quote: nat, syn: Syntax)
    requires k <= |text| && IsQuote(quote) && ReadFrom(text, k, quote, syn).end.Closed?
    ensures text[ReadFrom(text, k, quote, syn).end.end - 1] == quote
  {
    StringTheorems.ScanAgrees(text, k, quote, syn);
  }

  lemma SameEnd(text: seq<nat>, k: nat, quote: nat, syn: Syntax)
    requires Scalars(text) && k <= |text| && Offset16(text, k) <= |Utf16(text)|
    requires ReadFrom(text, k, quote, syn).end.Closed?
    requires var byUnits := ReadFrom(Utf16(text), Offset16(text, k), quote, syn);
             StringAgreement.Agrees(text, ReadFrom(text, k, quote, syn), byUnits)
    ensures var end := ReadFrom(Utf16(text), Offset16(text, k), quote, syn).end;
            end == Closed(Offset16(text, ReadFrom(text, k, quote, syn).end.end))
  {
  }

  // ---- Literals at which the places part ----

  const BACKTICKS := GRAMMAR.(multiLine := true)

  /** A backtick, a continuation, one character, and a backtick. */
  function OneCharacter(c: nat): seq<nat> {
    ['`' as nat, BACKSLASH, LF, c, '`' as nat]
  }

  lemma OneCharacterReads(c: nat)
    requires c >= 0x80
    ensures ReadFrom(OneCharacter(c), 1, '`' as nat, BACKTICKS).end == Closed(5)
  {
    var s, quote := OneCharacter(c), '`' as nat;
    hide ReadFrom;
    StringTheorems.ReadTake(s, 1, quote, BACKTICKS, Item(2, Continuation(LF)));
    StringTheorems.ReadTake(s, 3, quote, BACKTICKS, Item(1, Char(c)));
    StringTheorems.ReadStop(s, 4, quote, BACKTICKS);
  }

  /** After a row's end an astral character is two of TypeScript's columns and one of Go's: no separator is there. */
  lemma PlacesPartAtAstral(p: Place)
    ensures var text := OneCharacter(0x1F600);
            && Scalars(text) && Offset16(text, 1) <= |Utf16(text)|
            && RawSeparators(true, text, 1, 4, Plain) == 0
            && var byUnits := ReadFrom(Utf16(text), Offset16(text, 1), '`' as nat, BACKTICKS);
               AdvanceAll(TypeScript, BACKTICKS, p, byUnits.items)
               != AdvanceAll(Go, BACKTICKS, p, ReadFrom(text, 1, '`' as nat, BACKTICKS).items)
  {
    var text := OneCharacter(0x1F600);
    OneCharacterReads(0x1F600);
    PortsPart(text, 1, '`' as nat, BACKTICKS, p);
    hide ReadFrom, AdvanceAll, Utf16, Offset16;
    Counts(0x1F600);
  }

  /** And a raw separator is a row of TypeScript's alone. */
  lemma PlacesPartAtSeparator(p: Place)
    ensures var text := OneCharacter(LS);
            && Scalars(text) && Offset16(text, 1) <= |Utf16(text)|
            && var byUnits := ReadFrom(Utf16(text), Offset16(text, 1), '`' as nat, BACKTICKS);
               AdvanceAll(TypeScript, BACKTICKS, p, byUnits.items).row
               == AdvanceAll(Go, BACKTICKS, p, ReadFrom(text, 1, '`' as nat, BACKTICKS).items).row + 1
  {
    var text := OneCharacter(LS);
    OneCharacterReads(LS);
    PortsPart(text, 1, '`' as nat, BACKTICKS, p);
    hide ReadFrom, AdvanceAll, Utf16, Offset16;
    Counts(LS);
  }

  lemma Counts(c: nat)
    requires c >= 0x80
    ensures RawSeparators(true, OneCharacter(c), 1, 4, Plain) == if c == LS || c == PS then 1 else 0
    ensures AstralSince(true, OneCharacter(c), 1, 4, Plain, 0) == if c >= 0x10000 then 1 else 0
  {
    var text := OneCharacter(c);
    assert RawSeparators(true, text, 4, 4, Plain) == 0;
    assert RawSeparators(true, text, 3, 4, Plain) == if c == LS || c == PS then 1 else 0;
    assert RawSeparators(true, text, 2, 4, Escaped) == RawSeparators(true, text, 3, 4, Plain);
    var n := if c >= 0x10000 then 1 else 0;
    assert AstralSince(true, text, 3, 4, Plain, 0) == AstralSince(true, text, 4, 4, Plain, n);
    assert AstralSince(true, text, 2, 4, Escaped, 0) == AstralSince(true, text, 3, 4, Plain, 0);
  }
}
