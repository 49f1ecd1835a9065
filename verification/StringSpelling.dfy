/**
  String literals as they are written, part by part, with no reader in sight: what each part looks like, what
  it stands for, and which may stand in a literal. The readers take exactly these, for what they stand for.
 */
module StringSpelling {
  import opened Wrappers
  import opened Numerals
  import opened Utf
  import opened StringLiteral
  import opened Surrogates
  import GoString
  import RustString
  import StringTheorems

  /**
    A character that stands for itself; an escape with a meaning of its own; a quote, backslash or slash after a
    backslash; a code unit in two or four hex digits; any other character after a backslash; a line end after one.
   */
  datatype Part =
    | Raw(c: nat)
    | Named(k: nat)
    | Plain(k: nat)
    | Hex(t: seq<nat>, u: nat)
    | Unicode(t: seq<nat>, u: nat)
    | Other(c: nat)
    | LineEnd(k: nat)

  const NAMES := "bfnrtv0"
  const MEANINGS := "\U{8}\U{C}\n\r\t\U{B}\0"
  const PLAIN := "\"'`\\/"
  const LINE_ENDS := ["\n", "\r\n", "\r", "\U{2028}", "\U{2029}"]

  function PartText(p: Part): (w: seq<nat>) {
    match p
    case Raw(c) => [c]
    case Named(k) => if k < |NAMES| then ['\\' as nat, NAMES[k] as nat] else []
    case Plain(k) => if k < |PLAIN| then ['\\' as nat, PLAIN[k] as nat] else []
    case Hex(t, _) => ['\\' as nat, 'x' as nat] + t
    case Unicode(t, _) => ['\\' as nat, 'u' as nat] + t
    case Other(c) => ['\\' as nat, c]
    case LineEnd(k) => if k < |LINE_ENDS| then ['\\' as nat] + Codes(LINE_ENDS[k]) else []
  }

  /** What the part stands for, in the units of the text. */
  function PartUnits(p: Part): seq<nat> {
    match p
    case Raw(c) => [c]
    case Named(k) => if k < |MEANINGS| then [MEANINGS[k] as nat] else []
    case Plain(k) => if k < |PLAIN| then [PLAIN[k] as nat] else []
    case Hex(_, u) => [u]
    case Unicode(_, u) => [u]
    case Other(c) => [c]
    case LineEnd(_) => []
  }

  predicate IsLine(c: nat) {
    c == '\n' as nat || c == '\r' as nat
  }

  /** A character with no meaning after a backslash. */
  predicate IsUnknown(c: nat, syn: Syntax) {
    && c !in Codes(NAMES) && c !in Codes(PLAIN) && c != 'u' as nat && (c == 'x' as nat ==> syn.escapeStrict)
    && !IsLine(c) && c != '\U{2028}' as nat && c != '\U{2029}' as nat
  }

  /** The parts a literal may have, by its quote and the options. */
  predicate Fits(p: Part, quote: nat, syn: Syntax) {
    match p
    case Raw(c) =>
      && c != quote && c != '\\' as nat
      && (if IsLine(c) then syn.multiLine else c >= ' ' as nat || syn.allowControl)
    case Named(k) => k < |NAMES|
    case Plain(k) => k < |PLAIN|
    case Hex(t, u) => |t| == 2 && Denotes(t, u, 16) && !syn.escapeStrict
    case Unicode(t, u) => |t| == 4 && Denotes(t, u, 16)
    case Other(c) => syn.allowUnknown && IsUnknown(c, syn)
    case LineEnd(k) => k < |LINE_ENDS|
  }

  function TextOf(ps: seq<Part>): seq<nat> {
    if ps == [] then [] else PartText(ps[0]) + TextOf(ps[1..])
  }

  /** The parts of a literal: a lone CR that ends a line has no LF after it, or it would end it too. */
  predicate AreParts(ps: seq<Part>, quote: nat, syn: Syntax) {
    ps == [] || (
      && Fits(ps[0], quote, syn) && AreParts(ps[1..], quote, syn)
      && (ps[0] == LineEnd(2) ==> TextOf(ps[1..]) == [] || TextOf(ps[1..])[0] != '\n' as nat))
  }

  function UnitsOf(ps: seq<Part>): seq<nat> {
    if ps == [] then [] else PartUnits(ps[0]) + UnitsOf(ps[1..])
  }

  // ---- One part ----

  /** The item that a part is read as. */
  function ItemOf(p: Part): Item {
    Item(|PartText(p)|,
         match p
         case Raw(c) => Char(c)
         case Other(c) => Char(c)
         case Hex(_, u) => Unit(u)
         case Unicode(_, u) => Unit(u)
         case LineEnd(k) => Continuation(if k < 2 then LF else if k == 2 then CR else if k == 3 then LS else PS)
         case _ => Replaced(if PartUnits(p) == [] then 0 else PartUnits(p)[0]))
  }

  /** What a text has at a place. */
  ghost predicate Stands(s: seq<nat>, i: nat, w: seq<nat>) {
    i + |w| <= |s| && s[i..i + |w|] == w
  }

  lemma StandsAt(s: seq<nat>, i: nat, w: seq<nat>, k: nat)
    requires Stands(s, i, w) && k < |w|
    ensures i + k < |s| && s[i + k] == w[k]
  {
    assert s[i + k] == s[i..i + |w|][k];
  }

  lemma NamedMeans(k: nat)
    requires k < |NAMES|
    ensures !IsLineTerminator(NAMES[k] as nat) && EscapeMap(NAMES[k] as nat) == Some(MEANINGS[k] as nat)
  {
  }

  lemma PlainMeans(k: nat)
    requires k < |PLAIN|
    ensures !IsLineTerminator(PLAIN[k] as nat) && EscapeMap(PLAIN[k] as nat) == Some(PLAIN[k] as nat)
  {
  }

  lemma PartReads(s: seq<nat>, i: nat, quote: nat, syn: Syntax, p: Part)
    requires IsQuote(quote) && Fits(p, quote, syn) && Stands(s, i, PartText(p))
    requires p == LineEnd(2) ==> i + 2 == |s| || s[i + 2] != '\n' as nat
    ensures StepAt(s, i, quote, syn) == Take(ItemOf(p)) && PartText(p) != []
  {
    var w := PartText(p);
    hide Stands, HexRun, EscapeMap, Denotes;
    StandsAt(s, i, w, 0);
    match p {
      case Raw(_) =>
      case Named(k) =>
        StandsAt(s, i, w, 1);
        NamedMeans(k);
      case Plain(k) =>
        StandsAt(s, i, w, 1);
        PlainMeans(k);
      case Hex(t, u) =>
        StandsAt(s, i, w, 1);
        DigitsStand(s, i, w, t, u);
        LettersMeanNothing();
      case Unicode(t, u) =>
        StandsAt(s, i, w, 1);
        DigitsStand(s, i, w, t, u);
        LettersMeanNothing();
      case Other(c) =>
        StandsAt(s, i, w, 1);
        OtherMeansNothing(c);
      case LineEnd(k) =>
        LineEndReads(s, i, quote, syn, k);
    }
  }

  lemma DigitsStand(s: seq<nat>, i: nat, w: seq<nat>, t: seq<nat>, u: nat)
    requires Stands(s, i, w) && |w| == |t| + 2 && w[2..] == t && Denotes(t, u, 16)
    ensures HexRun(s, i + 2, |t|) == Some(u)
  {
    hide Denotes, HexRun;
    assert s[i + 2..i + 2 + |t|] == s[i..i + |w|][2..];
    HexRunExact(s, i + 2, |t|, u);
  }

  lemma LettersMeanNothing()
    ensures EscapeMap('x' as nat) == None && EscapeMap('u' as nat) == None
  {
  }

  lemma OtherMeansNothing(c: nat)
    ensures c !in Codes(NAMES) && c !in Codes(PLAIN) <==> EscapeMap(c) == None
  {
    var names, plain := Codes(NAMES), Codes(PLAIN);
    assert names == ['b' as nat, 'f' as nat, 'n' as nat, 'r' as nat, 't' as nat, 'v' as nat, '0' as nat];
    assert plain == ['"' as nat, '\'' as nat, '`' as nat, '\\' as nat, '/' as nat];
  }

  lemma LineEndReads(s: seq<nat>, i: nat, quote: nat, syn: Syntax, k: nat)
    requires IsQuote(quote) && k < |LINE_ENDS| && Stands(s, i, PartText(LineEnd(k)))
    requires k == 2 ==> i + 2 == |s| || s[i + 2] != '\n' as nat
    ensures StepAt(s, i, quote, syn) == Take(ItemOf(LineEnd(k)))
  {
    var w := PartText(LineEnd(k));
    assert |w| == |LINE_ENDS[k]| + 1 && |LINE_ENDS[k]| >= 1;
    StandsAt(s, i, w, 0);
    StandsAt(s, i, w, 1);
    if k == 1 {
      StandsAt(s, i, w, 2);
    }
  }

  // ---- What is written is read ----

  function ItemsOf(ps: seq<Part>): seq<Item> {
    if ps == [] then [] else [ItemOf(ps[0])] + ItemsOf(ps[1..])
  }

  /** A literal's parts are read one by one, to its quote. */
  lemma {:induction false} WrittenReads(s: seq<nat>, i: nat, quote: nat, syn: Syntax, ps: seq<Part>)
    requires IsQuote(quote) && AreParts(ps, quote, syn) && Stands(s, i, TextOf(ps) + [quote])
    ensures i <= |s| && ReadFrom(s, i, quote, syn) == Reading(ItemsOf(ps), Closed(i + |TextOf(ps)| + 1))
    decreases |ps|
  {
    hide StepAt, PartText, Fits, ItemOf, Stands;
    StandsInside(s, i, TextOf(ps) + [quote]);
    if ps == [] {
      assert TextOf(ps) + [quote] == [quote];
      StandsAt(s, i, [quote], 0);
      QuoteCloses(s, i, quote, syn);
    } else {
      var w, rest := PartText(ps[0]), TextOf(ps[1..]) + [quote];
      assert TextOf(ps) + [quote] == w + rest;
      StandsBoth(s, i, w, rest);
      if ps[0] == LineEnd(2) {
        StandsAt(s, i + |w|, rest, 0);
        LineEndLength();
      }
      PartReads(s, i, quote, syn, ps[0]);
      ItemLength(ps[0]);
      WrittenReads(s, i + |w|, quote, syn, ps[1..]);
    }
  }

  lemma ItemLength(p: Part)
    ensures ItemOf(p).len == |PartText(p)|
  {
  }

  lemma LineEndLength()
    ensures |PartText(LineEnd(2))| == 2
  {
  }

  lemma QuoteCloses(s: seq<nat>, i: nat, quote: nat, syn: Syntax)
    requires i < |s| && s[i] == quote
    ensures StepAt(s, i, quote, syn) == Close
  {
  }

  lemma StandsInside(s: seq<nat>, i: nat, w: seq<nat>)
    requires Stands(s, i, w)
    ensures i + |w| <= |s|
  {
  }

  lemma StandsBoth(s: seq<nat>, i: nat, a: seq<nat>, b: seq<nat>)
    requires Stands(s, i, a + b)
    ensures Stands(s, i, a) && Stands(s, i + |a|, b)
  {
    assert s[i..i + |a|] == (a + b)[..|a|];
    assert s[i + |a|..i + |a| + |b|] == (a + b)[|a|..];
  }

  // ---- What is read was written ----

  lemma StepIsPart(s: seq<nat>, i: nat, quote: nat, syn: Syntax) returns (p: Part)
    requires i <= |s| && IsQuote(quote) && StepAt(s, i, quote, syn).Take?
    ensures Fits(p, quote, syn) && Stands(s, i, PartText(p)) && ItemOf(p) == StepAt(s, i, quote, syn).item
    ensures p == LineEnd(2) ==> i + 2 == |s| || s[i + 2] != '\n' as nat
  {
    if s[i] != '\\' as nat {
      p := Raw(s[i]);
    } else {
      p := EscapeIsPart(s, i, quote, syn);
    }
  }

  lemma EscapeIsPart(s: seq<nat>, i: nat, quote: nat, syn: Syntax) returns (p: Part)
    requires i < |s| && IsQuote(quote) && s[i] == '\\' as nat && EscapeAt(s, i, syn).Take?
    ensures Fits(p, quote, syn) && Stands(s, i, PartText(p)) && ItemOf(p) == EscapeAt(s, i, syn).item
    ensures p == LineEnd(2) ==> i + 2 == |s| || s[i + 2] != '\n' as nat
  {
    hide Denotes, HexRun, EscapeMap;
    var n := s[i + 1];
    if IsLineTerminator(n) {
      p := LineEndIsPart(s, i, syn);
    } else if EscapeMap(n).Some? {
      p := MeaningIsPart(s, i, quote, syn);
    } else if n == 'x' as nat && !syn.escapeStrict {
      HexRunExact(s, i + 2, 2, HexRun(s, i + 2, 2).value);
      assert s[i..i + 4] == ['\\' as nat, 'x' as nat] + s[i + 2..i + 4];
      p := Hex(s[i + 2..i + 4], HexRun(s, i + 2, 2).value);
    } else if n == 'u' as nat {
      HexRunExact(s, i + 2, 4, HexRun(s, i + 2, 4).value);
      assert s[i..i + 6] == ['\\' as nat, 'u' as nat] + s[i + 2..i + 6];
      p := Unicode(s[i + 2..i + 6], HexRun(s, i + 2, 4).value);
    } else {
      OtherMeansNothing(n);
      p := Other(n);
    }
  }

  lemma LineTexts()
    ensures PartText(LineEnd(0)) == ['\\' as nat, LF] && PartText(LineEnd(1)) == ['\\' as nat, CR, LF]
    ensures PartText(LineEnd(2)) == ['\\' as nat, CR] && PartText(LineEnd(3)) == ['\\' as nat, LS]
    ensures PartText(LineEnd(4)) == ['\\' as nat, PS]
  {
  }

  lemma LineEndIsPart(s: seq<nat>, i: nat, syn: Syntax) returns (p: Part)
    requires i + 1 < |s| && s[i] == '\\' as nat && IsLineTerminator(s[i + 1])
    ensures p.LineEnd? && p.k < |LINE_ENDS| && Stands(s, i, PartText(p)) && ItemOf(p) == EscapeAt(s, i, syn).item
    ensures p == LineEnd(2) ==> i + 2 == |s| || s[i + 2] != '\n' as nat
  {
    hide PartText, Codes;
    var n := s[i + 1];
    var k := if n == LF then 0 else if n == LS then 3 else if n == PS then 4
             else if i + 2 < |s| && s[i + 2] == LF then 1 else 2;
    p := LineEnd(k);
    LineTexts();
    assert s[i..i + |PartText(p)|] == PartText(p);
  }

  lemma MeaningIsPart(s: seq<nat>, i: nat, quote: nat, syn: Syntax) returns (p: Part)
    requires i + 1 < |s| && s[i] == '\\' as nat && !IsLineTerminator(s[i + 1]) && EscapeMap(s[i + 1]).Some?
    ensures Fits(p, quote, syn) && Stands(s, i, PartText(p)) && ItemOf(p) == EscapeAt(s, i, syn).item
    ensures !p.LineEnd?
  {
    var n := s[i + 1];
    OtherMeansNothing(n);
    if n in Codes(NAMES) {
      var k :| 0 <= k < |NAMES| && Codes(NAMES)[k] == n;
      NamedMeans(k);
      p := Named(k);
    } else {
      var k :| 0 <= k < |PLAIN| && Codes(PLAIN)[k] == n;
      PlainMeans(k);
      p := Plain(k);
    }
  }

  /** Every literal that closes was written so. */
  lemma {:induction false} ClosedIsWritten(s: seq<nat>, i: nat, quote: nat, syn: Syntax) returns (ps: seq<Part>)
    requires i <= |s| && IsQuote(quote) && ReadFrom(s, i, quote, syn).end.Closed?
    ensures AreParts(ps, quote, syn) && Stands(s, i, TextOf(ps) + [quote])
    ensures ReadFrom(s, i, quote, syn) == Reading(ItemsOf(ps), Closed(i + |TextOf(ps)| + 1))
    decreases |s| - i
  {
    hide StepAt, PartText, Fits, ItemOf, Stands, ReadFrom;
    var step := StepAt(s, i, quote, syn);
    if step.Take? {
      var p := StepIsPart(s, i, quote, syn);
      ItemLength(p);
      StringTheorems.ReadTake(s, i, quote, syn, step.item);
      var rest := ClosedIsWritten(s, i + step.item.len, quote, syn);
      ps := [p] + rest;
      assert ps[1..] == rest;
      var w := PartText(p);
      assert TextOf(ps) + [quote] == w + (TextOf(rest) + [quote]);
      StandsJoin(s, i, w, TextOf(rest) + [quote]);
      if p == LineEnd(2) && TextOf(rest) != [] {
        LineEndLength();
        StandsAt(s, i + |w|, TextOf(rest) + [quote], 0);
      }
    } else {
      StringTheorems.ReadStop(s, i, quote, syn);
      ps := [];
      CloseIsQuote(s, i, quote, syn);
    }
  }

  lemma CloseIsQuote(s: seq<nat>, i: nat, quote: nat, syn: Syntax)
    requires i <= |s| && StepAt(s, i, quote, syn) == Close
    ensures Stands(s, i, TextOf([]) + [quote])
  {
    assert [] + [quote] == [quote];
  }

  lemma StandsJoin(s: seq<nat>, i: nat, a: seq<nat>, b: seq<nat>)
    requires Stands(s, i, a) && Stands(s, i + |a|, b)
    ensures Stands(s, i, a + b)
  {
    assert s[i..i + |a| + |b|] == s[i..i + |a|] + s[i + |a|..i + |a| + |b|];
  }

  /**
    The literals are exactly the texts so written, in every configuration: a reading closes with these items if
    and only if parts that fit stand at the place, before the quote, and these are their items.
   */
  lemma LiteralIsWritten(s: seq<nat>, i: nat, quote: nat, syn: Syntax, items: seq<Item>, end: nat)
    requires i <= |s| && IsQuote(quote)
    ensures ReadFrom(s, i, quote, syn) == Reading(items, Closed(end))
            <==> exists ps: seq<Part> ::
                   && AreParts(ps, quote, syn) && Stands(s, i, TextOf(ps) + [quote])
                   && items == ItemsOf(ps) && end == i + |TextOf(ps)| + 1
  {
    hide ReadFrom, AreParts, Stands, TextOf, ItemsOf;
    if ReadFrom(s, i, quote, syn) == Reading(items, Closed(end)) {
      var ps := ClosedIsWritten(s, i, quote, syn);
    }
    if ps: seq<Part> :| && AreParts(ps, quote, syn) && Stands(s, i, TextOf(ps) + [quote])
                        && items == ItemsOf(ps) && end == i + |TextOf(ps)| + 1 {
      WrittenReads(s, i, quote, syn, ps);
    }
  }

  // ---- The value ----

  /** What the part stands for in UTF-16, when the text is one of characters. */
  function PartCodes(p: Part): seq<nat> {
    if p.Raw? || p.Other? then Utf16One(p.c) else PartUnits(p)
  }

  function CodesOf(ps: seq<Part>): seq<nat> {
    if ps == [] then [] else PartCodes(ps[0]) + CodesOf(ps[1..])
  }

  lemma PartIsItem(p: Part, quote: nat, syn: Syntax)
    requires Fits(p, quote, syn)
    ensures PieceUnits(ItemOf(p).piece) == PartUnits(p) && CharUnits(ItemOf(p).piece) == PartCodes(p)
  {
    hide Denotes, Utf16One;
  }

  lemma {:induction false} ValueIsWritten(ps: seq<Part>, quote: nat, syn: Syntax)
    requires AreParts(ps, quote, syn)
    ensures Units(ItemsOf(ps)) == UnitsOf(ps) && ItemUnits(ItemsOf(ps)) == CodesOf(ps)
  {
    hide Fits, ItemOf, PartUnits, PartCodes, Units, ItemUnits, CharUnits, PieceUnits;
    NothingRead();
    if ps != [] {
      var item, rest := ItemOf(ps[0]), ItemsOf(ps[1..]);
      ValueIsWritten(ps[1..], quote, syn);
      PartIsItem(ps[0], quote, syn);
      StringTheorems.UnitsConcat([item], rest);
      StringTheorems.ItemUnitsConcat([item], rest);
      StringTheorems.OneItem(item);
      ItemUnitsSnoc([], item);
      assert [] + [item] == [item] && [] + CharUnits(item.piece) == CharUnits(item.piece);
    }
  }

  lemma NothingRead()
    ensures Units([]) == [] && ItemUnits([]) == []
  {
  }

  /** A written literal. */
  function Literal(ps: seq<Part>, quote: nat): seq<nat> {
    [quote] + TextOf(ps) + [quote]
  }

  lemma LiteralReads(ps: seq<Part>, quote: nat, syn: Syntax)
    requires IsQuote(quote) && AreParts(ps, quote, syn)
    ensures var text := Literal(ps, quote);
            text[0] == quote && ReadFrom(text, 1, quote, syn) == Reading(ItemsOf(ps), Closed(|text|))
  {
    hide ReadFrom, AreParts, TextOf, ItemsOf, Stands;
    StandsQuoted(quote, TextOf(ps));
    WrittenReads(Literal(ps, quote), 1, quote, syn, ps);
  }

  lemma StandsQuoted(quote: nat, w: seq<nat>)
    ensures Stands([quote] + w + [quote], 1, w + [quote])
  {
    assert [quote] + w + [quote] == [quote] + (w + [quote]);
  }

  /** What the three ports make of a written literal: the units its parts stand for, decoded in Go and in Rust. */
  lemma LiteralValue(ps: seq<Part>, quote: nat, syn: Syntax, first: Place)
    requires IsQuote(quote) && AreParts(ps, quote, syn)
    ensures var text := Literal(ps, quote);
            && Units(ReadFrom(text, 1, quote, syn).items) == UnitsOf(ps)
            && RustString.StringOf(text, syn) == RustString.Read(DecodeLossy(CodesOf(ps)), |text|, |Utf8(text)|)
            && GoString.BodyOf(text, 0, first, syn).Finished?
            && GoString.BodyOf(text, 0, first, syn).value == DecodeLossy(CodesOf(ps))
  {
    var text := Literal(ps, quote);
    LiteralReads(ps, quote, syn);
    hide Literal, ReadFrom, AreParts, TextOf, ItemsOf, Units, ItemUnits, DecodeLossy, Utf8, CodesOf, UnitsOf, Offset8;
    ValueIsWritten(ps, quote, syn);
    OffsetEnd(text);
  }

  /** An escaped pair of halves is its astral character, in Go and in Rust. */
  lemma PairDecodes(c: nat, high: nat, low: nat, t: seq<nat>, u: seq<nat>, quote: nat, syn: Syntax)
    requires 0xD800 <= high < 0xDC00 <= low < 0xE000 && c == 0x10000 + (high - 0xD800) * 0x400 + (low - 0xDC00)
    requires |t| == |u| == 4 && Denotes(t, high, 16) && Denotes(u, low, 16)
    ensures var ps := [Unicode(t, high), Unicode(u, low)];
            AreParts(ps, quote, syn) && UnitsOf(ps) == [high, low] && DecodeLossy(CodesOf(ps)) == [c]
  {
    TwoFit(t, high, u, low, quote, syn);
    assert [high, low][2..] == [] && DecodeLossy([]) == [];
  }

  lemma {:induction false} PartThenParts(p: Part, rest: seq<Part>, quote: nat, syn: Syntax)
    ensures UnitsOf([p] + rest) == PartUnits(p) + UnitsOf(rest) && CodesOf([p] + rest) == PartCodes(p) + CodesOf(rest)
    ensures Fits(p, quote, syn) && AreParts(rest, quote, syn) && !p.LineEnd? ==> AreParts([p] + rest, quote, syn)
  {
    hide Fits, PartUnits, PartCodes;
    assert ([p] + rest)[1..] == rest;
  }

  lemma NoParts(quote: nat, syn: Syntax)
    ensures UnitsOf([]) == [] && CodesOf([]) == [] && AreParts([], quote, syn)
  {
  }

  lemma OneEscape(t: seq<nat>, u: nat, quote: nat, syn: Syntax)
    requires |t| == 4 && Denotes(t, u, 16)
    ensures UnitsOf([Unicode(t, u)]) == CodesOf([Unicode(t, u)]) == [u] && AreParts([Unicode(t, u)], quote, syn)
  {
    hide UnitsOf, CodesOf, AreParts, Denotes;
    PartThenParts(Unicode(t, u), [], quote, syn);
    NoParts(quote, syn);
    assert [Unicode(t, u)] + [] == [Unicode(t, u)] && [u] + [] == [u];
  }

  lemma TwoFit(t: seq<nat>, high: nat, u: seq<nat>, low: nat, quote: nat, syn: Syntax)
    requires |t| == |u| == 4 && Denotes(t, high, 16) && Denotes(u, low, 16)
    ensures var ps := [Unicode(t, high), Unicode(u, low)];
            UnitsOf(ps) == CodesOf(ps) == [high, low] && AreParts(ps, quote, syn)
  {
    hide UnitsOf, CodesOf, AreParts, Denotes;
    OneEscape(u, low, quote, syn);
    PartThenParts(Unicode(t, high), [Unicode(u, low)], quote, syn);
    assert [Unicode(t, high)] + [Unicode(u, low)] == [Unicode(t, high), Unicode(u, low)];
    assert [high] + [low] == [high, low];
  }

  /** A half alone is U+FFFD there. */
  lemma LoneHalfDecodes(t: seq<nat>, u: nat)
    requires |t| == 4 && Denotes(t, u, 16) && 0xD800 <= u < 0xE000
    ensures UnitsOf([Unicode(t, u)]) == [u] && DecodeLossy(CodesOf([Unicode(t, u)])) == [0xFFFD]
  {
    OneEscape(t, u, '"' as nat, GRAMMAR);
    assert [u][1..] == [] && DecodeLossy([]) == [];
  }

  // ---- Quotes and line ends ----

  /** A raw line end stands in a backtick literal alone, whatever the options. */
  lemma RawLineEnd(c: nat, quote: nat, syn: Syntax, backtick: bool)
    requires c == '\n' as nat || c == '\r' as nat
    requires quote == '"' as nat || quote == '\'' as nat || quote == '`' as nat
    ensures var s := [quote, '\\' as nat, '\n' as nat, c, quote];
            match FixedVerdict(s, 0, syn, backtick)
            case NotOurs => quote == '`' as nat && !backtick
            case RefusedAtQuote => false
            case ReadHere(reading) =>
              if quote == '`' as nat then reading.end == Closed(5) else reading.end == Failed(Unprintable, 3, 1)
  {
    var s, here := [quote, '\\' as nat, '\n' as nat, c, quote], SyntaxFor(syn, quote);
    assert s[0] == quote && s[1] == '\\' as nat && s[2] == LF && s[3] == c && s[4] == quote && |s| == 5;
    ScanOfFive(s, c, quote);
    ReadOfFive(s, c, quote, here);
    hide ScanFrom, ReadFrom;
  }

  lemma ScanOfFive(s: seq<nat>, c: nat, quote: nat)
    requires |s| == 5 && s[1] == '\\' as nat && s[2] == LF && s[3] == c && s[4] == quote
    requires (c == LF || c == CR) && IsQuote(quote)
    ensures ScanFrom(s, 1, quote) == Scan(false, true, Some(4))
  {
    assert ScanFrom(s, 4, quote) == Scan(false, false, Some(4));
    assert ScanFrom(s, 3, quote) == ScanFrom(s, 4, quote);
  }

  lemma ReadOfFive(s: seq<nat>, c: nat, quote: nat, syn: Syntax)
    requires |s| == 5 && s[1] == '\\' as nat && s[2] == LF && s[3] == c && s[4] == quote
    requires (c == LF || c == CR) && IsQuote(quote)
    ensures ReadFrom(s, 1, quote, syn).end == if syn.multiLine then Closed(5) else Failed(Unprintable, 3, 1)
  {
    assert ReadFrom(s, 4, quote, syn).end == Closed(5);
    assert StepAt(s, 1, quote, syn) == Take(Item(2, Continuation(LF)));
    if syn.multiLine {
      assert StepAt(s, 3, quote, syn) == Take(Item(1, Char(c)));
    } else {
      assert StepAt(s, 3, quote, syn) == Bad(Unprintable, 0, 1);
    }
    hide StepAt;
    assert ReadFrom(s, 3, quote, syn).end == if syn.multiLine then Closed(5) else Failed(Unprintable, 3, 1);
  }

  /** The escapes a literal is refused for: a digit but a lone zero, and a brace after u. */
  lemma ForbiddenIs(c: nat, d: nat)
    ensures IsForbidden(['\\' as nat, c, d], 0)
            <==> || c in Codes("123456789") || (c == '0' as nat && d in Codes("0123456789"))
                 || (c == 'u' as nat && d == '{' as nat)
  {
    assert Codes("123456789") == ['1' as nat, '2' as nat, '3' as nat, '4' as nat, '5' as nat, '6' as nat, '7' as nat,
                                  '8' as nat, '9' as nat];
    assert Codes("0123456789") == ['0' as nat] + Codes("123456789");
  }

  ghost predicate IsEscape(s: seq<nat>, i: nat) {
    i + 1 < |s| && s[i] == '\\' as nat
  }

  ghost predicate WritesANumber(w: seq<nat>) {
    exists u: nat :: Denotes(w, u, 16)
  }

  /** The digits of an escape are there. */
  ghost predicate HasDigits(s: seq<nat>, at: nat, n: nat) {
    at + n <= |s| && WritesANumber(s[at..at + n])
  }

  lemma DigitsAreThere(s: seq<nat>, at: nat, n: nat)
    ensures HasDigits(s, at, n) <==> HexRun(s, at, n).Some?
  {
    if HexRun(s, at, n).Some? {
      HexRunExact(s, at, n, HexRun(s, at, n).value);
    }
    if at + n <= |s| {
      var w := s[at..at + n];
      if u: nat :| Denotes(w, u, 16) {
        HexRunExact(s, at, n, u);
      }
    }
  }

  /**
    What refuses a literal, and how much of the source the error token spans: a hex or a Unicode escape without
    its digits, from its backslash on; a character that may not stand raw; and, where the options do not allow
    unknown escapes, the character after a backslash.
   */
  lemma RefusalIs(s: seq<nat>, i: nat, quote: nat, syn: Syntax)
    requires i < |s| && IsQuote(quote)
    ensures StepAt(s, i, quote, syn) == Bad(Unprintable, 0, 1)
            <==> s[i] != quote && s[i] != '\\' as nat && !Fits(Raw(s[i]), quote, syn)
    ensures StepAt(s, i, quote, syn) == Bad(InvalidAscii, 0, 4)
            <==> IsEscape(s, i) && s[i + 1] == 'x' as nat && !syn.escapeStrict && !HasDigits(s, i + 2, 2)
    ensures StepAt(s, i, quote, syn) == Bad(InvalidUnicode, 0, 6)
            <==> IsEscape(s, i) && s[i + 1] == 'u' as nat && !HasDigits(s, i + 2, 4)
    ensures StepAt(s, i, quote, syn) == Bad(Unexpected, 1, 1)
            <==> IsEscape(s, i) && IsUnknown(s[i + 1], syn) && !syn.allowUnknown
    ensures StepAt(s, i, quote, syn).Bad? ==>
              StepAt(s, i, quote, syn) in [Bad(Unprintable, 0, 1), Bad(InvalidAscii, 0, 4), Bad(InvalidUnicode, 0, 6),
                                           Bad(Unexpected, 1, 1)]
  {
    hide HasDigits, HexRun, EscapeMap, NAMES, PLAIN;
    if IsEscape(s, i) {
      DigitsAreThere(s, i + 2, 2);
      DigitsAreThere(s, i + 2, 4);
      OtherMeansNothing(s[i + 1]);
      LettersMeanNothing();
    }
  }

  /** A line end after a backslash begins a row, but for a lone CR. */
  lemma LineEndMoves(port: Port, syn: Syntax, p: Place, k: nat)
    requires k < |LINE_ENDS|
    ensures Advance(port, syn, p, ItemOf(LineEnd(k))) == if k == 2 then Place(p.row, p.col + 2) else Place(p.row + 1, 1)
  {
    LineTexts();
  }

  /** A raw character moves one column on, but a raw line end in a backtick literal starts the columns again. */
  lemma RawMoves(port: Port, syn: Syntax, p: Place, c: nat)
    ensures Advance(port, syn, p, ItemOf(Raw(c)))
            == if !syn.multiLine then Place(p.row, p.col + 1)
               else if c == '\n' as nat then Place(p.row + 1, 1)
               else if c == '\r' as nat then Place(p.row, 1)
               else if (c == '\U{2028}' as nat || c == '\U{2029}' as nat) && port == TypeScript then Place(p.row + 1, 1)
               else Place(p.row, p.col + 1)
  {
  }
}
