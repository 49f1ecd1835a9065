/**
  The three ports on one literal: over a text of Unicode scalar values, the TypeScript reader's walk of
  its UTF-16 code units and the Go and Rust readers' walk of its characters come to the same answer.
 */
module StringAgreement {
  import opened Wrappers
  import opened Utf
  import opened StringLiteral
  import opened Surrogates
  import StringTheorems
  import GoString
  import RustString

  // ---- One step ----

  lemma {:induction false} HexUnits(text: seq<nat>, k: nat, n: nat)
    requires Scalars(text) && k <= |text|
    ensures HexRun(Utf16(text), Offset16(text, k), n) == HexRun(text, k, n)
    ensures HexRun(text, k, n).Some? ==> Offset16(text, k + n) == Offset16(text, k) + n
  {
    hide Utf16, Offset16;
    OffsetWithin(text, k);
    if n > 0 {
      HexUnits(text, k, n - 1);
      if HexRun(text, k, n - 1).Some? {
        if k + n <= |text| {
          UnitsAt(text, k + n - 1);
        } else {
          Offset16End(text);
        }
      }
    }
  }

  lemma OffsetWithin(text: seq<nat>, k: nat)
    requires k <= |text|
    ensures Offset16(text, k) <= |Utf16(text)|
  {
    Offset16End(text);
    if k < |text| {
      Offset16Step(text, k);
    }
  }

  /** The two halves of an astral character, and whether a character has them. */
  predicate IsAstral(p: Piece) {
    p.Char? && p.c >= 0x10000
  }

  function High(c: nat): nat
    requires c >= 0x10000
  {
    Utf16One(c)[0]
  }

  function Low(c: nat): nat
    requires c >= 0x10000
  {
    Utf16One(c)[1]
  }

  /** The step over the units that a step over the characters corresponds to. */
  function Halved(step: Step): Step {
    if step.Take? && IsAstral(step.item.piece) then Take(Item(step.item.len, Char(High(step.item.piece.c)))) else step
  }

  /** The characters a step looks at, as units: the one at its place and the two after. */
  lemma UnitsAhead(text: seq<nat>, k: nat)
    requires Scalars(text) && k < |text|
    ensures Offset16(text, k) < |Utf16(text)|
    ensures k + 1 < |text| && text[k] < 0x10000 ==>
              Offset16(text, k) + 1 < |Utf16(text)| && Offset16(text, k + 1) == Offset16(text, k) + 1
    ensures k + 1 == |text| && text[k] < 0x10000 ==> Offset16(text, k) + 1 == |Utf16(text)|
  {
    hide Utf16, Offset16;
    UnitsAt(text, k);
    if k + 1 < |text| {
      UnitsAt(text, k + 1);
    } else {
      Offset16End(text);
    }
  }

  lemma StepUnits(text: seq<nat>, k: nat, quote: nat, syn: Syntax)
    requires Scalars(text) && k <= |text| && IsQuote(quote)
    ensures Offset16(text, k) <= |Utf16(text)|
    ensures StepAt(Utf16(text), Offset16(text, k), quote, syn) == Halved(StepAt(text, k, quote, syn))
  {
    hide Utf16, Offset16, HexRun, Utf16One;
    if k == |text| {
      Offset16End(text);
      return;
    }
    UnitsAt(text, k);
    UnitsAhead(text, k);
    if text[k] == BACKSLASH && k + 1 < |text| {
      UnitsAt(text, k + 1);
      UnitsAhead(text, k + 1);
      OffsetWithin(text, k + 2);
      if text[k + 1] < 0x10000 {
        HexUnits(text, k + 2, 2);
        HexUnits(text, k + 2, 4);
        if k + 2 < |text| {
          UnitsAt(text, k + 2);
        }
      }
    }
  }

  /** Past the step's item, in units: at the item's end, or before the low half of its character. */
  lemma StepOffset(text: seq<nat>, k: nat, quote: nat, syn: Syntax)
    requires Scalars(text) && k <= |text| && StepAt(text, k, quote, syn).Take?
    ensures var item := StepAt(text, k, quote, syn).item;
            && Offset16(text, k + item.len) <= |Utf16(text)|
            && Offset16(text, k + item.len) == Offset16(text, k) + item.len + (if IsAstral(item.piece) then 1 else 0)
            && (IsAstral(item.piece) ==> Utf16(text)[Offset16(text, k) + item.len] == Low(item.piece.c))
  {
    hide Utf16, Offset16, HexRun, Utf16One;
    var item := StepAt(text, k, quote, syn).item;
    UnitsAt(text, k);
    OffsetWithin(text, k + item.len);
    if text[k] == BACKSLASH {
      UnitsAt(text, k + 1);
      if item.len == 3 {
        UnitsAt(text, k + 2);
      } else if item.len == 4 {
        HexUnits(text, k + 2, 2);
      } else if item.len == 6 {
        HexUnits(text, k + 2, 4);
      }
    }
  }

  /** A low half is an item of its own. */
  lemma LowStep(units: seq<nat>, at: nat, quote: nat, syn: Syntax)
    requires at < |units| && IsLow(units[at]) && IsQuote(quote)
    ensures StepAt(units, at, quote, syn) == Take(Item(1, Char(units[at])))
  {
  }

  // ---- The whole literal ----

  /** The same ending, its place in units. */
  function EndUnits(text: seq<nat>, end: End): End
    requires end.Closed? ==> end.end <= |text|
    requires end.Failed? ==> end.at <= |text|
  {
    match end
    case Closed(e) => Closed(Offset16(text, e))
    case Failed(why, at, span) => Failed(why, Offset16(text, at), span)
    case Unterminated => Unterminated
  }

  /** A reading of the units that says what a reading of the characters says. */
  ghost predicate Agrees(text: seq<nat>, byChars: Reading, byUnits: Reading)
    requires byChars.end.Closed? ==> byChars.end.end <= |text|
    requires byChars.end.Failed? ==> byChars.end.at <= |text|
  {
    && Units(byUnits.items) == ItemUnits(byChars.items)
    && byUnits.end == EndUnits(text, byChars.end)
    && StringTheorems.RowBreaks(byUnits.items) == StringTheorems.RowBreaks(byChars.items)
  }

  lemma {:induction false} UnitsCons(item: Item, rest: seq<Item>)
    ensures Units([item] + rest) == PieceUnits(item.piece) + Units(rest)
    ensures ItemUnits([item] + rest) == CharUnits(item.piece) + ItemUnits(rest)
    ensures StringTheorems.RowBreaks([item] + rest)
            == (if StringTheorems.BreaksRow(item) then 1 else 0) + StringTheorems.RowBreaks(rest)
  {
    hide PieceUnits, CharUnits;
    var items := [item] + rest;
    if rest == [] {
      assert items == [item] && items[..0] == [];
      assert Units([]) + PieceUnits(item.piece) == PieceUnits(item.piece) + [];
      assert ItemUnits([]) + CharUnits(item.piece) == CharUnits(item.piece) + [];
    } else {
      var n := |rest| - 1;
      assert items[..n + 1] == [item] + rest[..n];
      UnitsCons(item, rest[..n]);
      var last := rest[n].piece;
      assert PieceUnits(item.piece) + Units(rest[..n]) + PieceUnits(last)
          == PieceUnits(item.piece) + (Units(rest[..n]) + PieceUnits(last));
      assert CharUnits(item.piece) + ItemUnits(rest[..n]) + CharUnits(last)
          == CharUnits(item.piece) + (ItemUnits(rest[..n]) + CharUnits(last));
    }
  }

  lemma {:induction false} ReadUnits(text: seq<nat>, k: nat, quote: nat, syn: Syntax)
    requires Scalars(text) && k <= |text| && IsQuote(quote)
    ensures Offset16(text, k) <= |Utf16(text)|
    ensures Agrees(text, ReadFrom(text, k, quote, syn), ReadFrom(Utf16(text), Offset16(text, k), quote, syn))
    decreases |text| - k
  {
    hide Utf16, Offset16, StepAt, ReadFrom, Agrees;
    StepUnits(text, k, quote, syn);
    var step := StepAt(text, k, quote, syn);
    if step.Take? {
      StepOffset(text, k, quote, syn);
      ReadUnits(text, k + step.item.len, quote, syn);
      TakeUnits(text, k, quote, syn, step.item);
    } else {
      StringTheorems.ReadStop(text, k, quote, syn);
      StringTheorems.ReadStop(Utf16(text), Offset16(text, k), quote, syn);
      StopUnits(text, k, quote, syn);
    }
  }

  lemma StopUnits(text: seq<nat>, k: nat, quote: nat, syn: Syntax)
    requires Scalars(text) && k <= |text| && IsQuote(quote) && Offset16(text, k) <= |Utf16(text)|
    requires var step := StepAt(text, k, quote, syn);
             && !step.Take? && StepAt(Utf16(text), Offset16(text, k), quote, syn) == step
             && ReadFrom(text, k, quote, syn) == Reading([], EndAt(step, k))
             && ReadFrom(Utf16(text), Offset16(text, k), quote, syn) == Reading([], EndAt(step, Offset16(text, k)))
    ensures Agrees(text, ReadFrom(text, k, quote, syn), ReadFrom(Utf16(text), Offset16(text, k), quote, syn))
  {
    var step := StepAt(text, k, quote, syn);
    if k < |text| {
      UnitsAt(text, k);
      assert step.Close? || (step.Bad? && step.skip == 1) ==> text[k] < 0x10000;
    }
    hide Utf16, Offset16, StepAt, ReadFrom;
  }

  lemma PairOn(c: nat, rest: seq<nat>)
    requires c >= 0x10000
    ensures [High(c)] + ([Low(c)] + rest) == Utf16One(c) + rest
  {
    assert Utf16One(c) == [High(c)] + [Low(c)];
  }

  lemma {:induction false} TakeUnits(text: seq<nat>, k: nat, quote: nat, syn: Syntax, item: Item)
    requires Scalars(text) && k + item.len <= |text| && IsQuote(quote) && Offset16(text, k) <= |Utf16(text)|
    requires StepAt(text, k, quote, syn) == Take(item)
    requires StepAt(Utf16(text), Offset16(text, k), quote, syn) == Halved(Take(item))
    requires var next := Offset16(text, k + item.len);
             && next <= |Utf16(text)|
             && next == Offset16(text, k) + item.len + (if IsAstral(item.piece) then 1 else 0)
             && (IsAstral(item.piece) ==> Utf16(text)[next - 1] == Low(item.piece.c))
             && Agrees(text, ReadFrom(text, k + item.len, quote, syn), ReadFrom(Utf16(text), next, quote, syn))
    ensures Agrees(text, ReadFrom(text, k, quote, syn), ReadFrom(Utf16(text), Offset16(text, k), quote, syn))
  {
    hide Utf16, Offset16, StepAt, ReadFrom, Units, ItemUnits;
    var units, at, next := Utf16(text), Offset16(text, k), Offset16(text, k + item.len);
    var rest := ReadFrom(units, next, quote, syn);
    StringTheorems.ReadTake(text, k, quote, syn, item);
    UnitsCons(item, ReadFrom(text, k + item.len, quote, syn).items);
    if IsAstral(item.piece) {
      var high, low := Item(item.len, Char(High(item.piece.c))), Item(1, Char(Low(item.piece.c)));
      StringTheorems.ReadTake(units, at, quote, syn, high);
      assert IsLow(low.piece.c);
      LowStep(units, next - 1, quote, syn);
      StringTheorems.ReadTake(units, next - 1, quote, syn, low);
      UnitsCons(low, rest.items);
      UnitsCons(high, [low] + rest.items);
      PairOn(item.piece.c, Units(rest.items));
    } else {
      StringTheorems.ReadTake(units, at, quote, syn, item);
      UnitsCons(item, rest.items);
    }
  }

  // ---- The scan ----

  function StopUnit(text: seq<nat>, stop: Option<nat>): Option<nat>
    requires stop.Some? ==> stop.value <= |text|
  {
    match stop
    case None => None
    case Some(k) => Some(Offset16(text, k))
  }

  lemma {:induction false} ScanUnits(text: seq<nat>, k: nat, quote: nat)
    requires Scalars(text) && k <= |text| && IsQuote(quote)
    ensures var byChars, byUnits := ScanFrom(text, k, quote), ScanFrom(Utf16(text), Offset16(text, k), quote);
            && (byChars.stop.Some? ==> byChars.stop.value < |text|)
            && byUnits == byChars.(stop := StopUnit(text, byChars.stop))
    decreases |text| - k
  {
    hide Utf16, Offset16;
    if k == |text| {
      Offset16End(text);
    } else {
      UnitsAt(text, k);
      UnitsAhead(text, k);
      if text[k] == BACKSLASH {
        if k + 1 < |text| {
          UnitsAt(text, k + 1);
          UnitsAhead(text, k + 1);
          ForbiddenUnits(text, k);
          ScanUnits(text, k + 2, quote);
        }
      } else {
        ScanUnits(text, k + 1, quote);
      }
    }
  }

  lemma ForbiddenUnits(text: seq<nat>, k: nat)
    requires Scalars(text) && k + 1 < |text| && text[k] == BACKSLASH
    ensures Offset16(text, k) + 1 < |Utf16(text)| && IsForbidden(Utf16(text), Offset16(text, k)) == IsForbidden(text, k)
  {
    hide Utf16, Offset16;
    UnitsAt(text, k);
    UnitsAt(text, k + 1);
    UnitsAhead(text, k + 1);
    if k + 2 < |text| {
      UnitsAt(text, k + 2);
    }
  }

  // ---- The ports ----

  /**
    The fixed check takes the same decision in every port, and where it reads, the two readings agree:
    the same code units, the same kind of ending, and its place at the corresponding character.
   */
  lemma VerdictsAgree(text: seq<nat>, k: nat, syn: Syntax, backtick: bool)
    requires Scalars(text) && k <= |text|
    ensures var byChars, byUnits := FixedVerdict(text, k, syn, backtick),
                                    FixedVerdict(Utf16(text), Offset16(text, k), syn, backtick);
            && (byUnits.NotOurs? <==> byChars.NotOurs?)
            && (byUnits.RefusedAtQuote? <==> byChars.RefusedAtQuote?)
            && (byChars.ReadHere? ==>
                  k < |text| && byChars.reading == ReadFrom(text, k + 1, text[k], SyntaxFor(syn, text[k])))
            && (byChars.ReadHere? ==> Agrees(text, byChars.reading, byUnits.reading))
  {
    hide Utf16, Offset16, ReadFrom, ScanFrom, Agrees;
    if k == |text| {
      Offset16End(text);
    } else {
      UnitsAt(text, k);
      UnitsAhead(text, k);
      if Opens(text[k], backtick) {
        ScanUnits(text, k + 1, text[k]);
        ReadUnits(text, k + 1, text[k], SyntaxFor(syn, text[k]));
      }
    }
  }

  /**
    Go and TypeScript on the literal at character k: one value up to the folding of unpaired halves, or
    the same error at the same character, or both unterminated; and the same rows in a string of one line.
   */
  lemma GoMatchesTypeScript(text: seq<nat>, k: nat, first: Place, syn: Syntax)
    requires Scalars(text) && k < |text| && IsQuote(text[k])
    ensures Offset16(text, k + 1) <= |Utf16(text)|
    ensures var go, ts := GoString.BodyOf(text, k, first, syn),
                          ReadFrom(Utf16(text), Offset16(text, k + 1), text[k], syn);
            && (go.Finished? <==> ts.end.Closed?)
            && (go.Finished? ==> go.value == DecodeLossy(Units(ts.items)))
            && (go.Refused? <==> ts.end.Failed?)
            && (go.Refused? ==> go.why == ts.end.why && exists at | 0 <= at <= |text| ::
                                  go.at == Offset8(text, at) && ts.end.at == Offset16(text, at))
            && (go.Finished? ==> exists end | 0 <= end <= |text| ::
                                  go.end == Offset8(text, end) && ts.end.end == Offset16(text, end))
            && (go.Finished? && !syn.multiLine ==> go.site.row == AdvanceAll(TypeScript, syn, first, ts.items).row)
  {
    hide Utf16, Offset16, Offset8, Utf8, ReadFrom, AdvanceAll, DecodeLossy;
    ReadUnits(text, k + 1, text[k], syn);
    var byChars, byUnits := ReadFrom(text, k + 1, text[k], syn), ReadFrom(Utf16(text), Offset16(text, k + 1),
        text[k], syn);
    if !syn.multiLine {
      StringTheorems.ReadingIsWellSpelled(text, k + 1, text[k], syn);
      StringTheorems.ReadingIsWellSpelled(Utf16(text), Offset16(text, k + 1), text[k], syn);
      StringTheorems.PlaceOfItems(Go, syn, first, byChars.items);
      StringTheorems.PlaceOfItems(TypeScript, syn, first, byUnits.items);
    }
    if byChars.end.Failed? {
      assert byUnits.end.at == Offset16(text, byChars.end.at);
    }
    if byChars.end.Closed? {
      assert byUnits.end.end == Offset16(text, byChars.end.end);
    }
  }

  /** Rust reads the literal at the start of what remains as Go reads it in place. */
  lemma RustMatchesGo(text: seq<nat>, k: nat, first: Place, syn: Syntax)
    requires k < |text|
    ensures var go, rust := GoString.BodyOf(text, k, first, syn), RustString.StringOf(text[k..], syn);
            && (rust.Read? <==> go.Finished?)
            && (rust.Read? ==>
                  k + rust.chars <= |text| && rust.value == go.value && go.end == Offset8(text, k + rust.chars))
            && (rust.BadString? <==> go.Refused?)
            && (rust.BadString? ==> k + rust.at <= |text| && rust.why == go.why && go.at == Offset8(text, k + rust.at))
            && (rust.OpenString? <==> go.RanOut?)
  {
    hide Offset8, ReadFrom, AdvanceAll, DecodeLossy, ItemUnits, Utf8;
    var rest := text[k..];
    assert rest[1..] == text[k + 1..] && rest[0] == text[k];
    StringTheorems.ReadShift(rest, 1, text, k + 1, text[k], syn);
  }

  // ---- When the values are one text ----

  /** Every half has its other half beside it. */
  predicate Paired(units: seq<nat>) {
    if units == [] then true
    else if IsHigh(units[0]) then |units| > 1 && IsLow(units[1]) && Paired(units[2..])
    else !IsLow(units[0]) && Paired(units[1..])
  }

  /**
    The Go and Rust value, encoded, is the TypeScript value exactly when no half of it is unpaired;
    only a lone half parts the ports.
   */
  lemma {:induction false} SameTextIffPaired(units: seq<nat>)
    requires forall k | 0 <= k < |units| :: units[k] < 0x10000
    ensures Utf16(DecodeLossy(units)) == units <==> Paired(units)
  {
    if units != [] {
      var decoded := DecodeLossy(units);
      if IsHigh(units[0]) && |units| > 1 && IsLow(units[1]) {
        SameTextIffPaired(units[2..]);
        assert decoded[1..] == DecodeLossy(units[2..]);
        var rest := Utf16(decoded[1..]);
        assert Utf16(decoded) == [units[0], units[1]] + rest;
        assert units == [units[0], units[1]] + units[2..];
        assert Utf16(decoded)[2..] == rest;
      } else {
        SameTextIffPaired(units[1..]);
        assert decoded[1..] == DecodeLossy(units[1..]);
        var rest := Utf16(decoded[1..]);
        assert Utf16(decoded) == [decoded[0]] + rest;
        assert units == [units[0]] + units[1..];
        assert Utf16(decoded)[1..] == rest;
      }
    }
  }
}
