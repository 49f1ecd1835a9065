/**
  Unquoted keys: `decodeIdentifierName` in the three ports, which validates and decodes an IdentifierName
  of section 7.6 of ECMA-262 5.1, where any character may be written as a Unicode escape.
 */
module IdentifierName {
  import opened Wrappers
  import opened Numerals
  import opened Utf
  import opened StringLiteral
  import GoString
  import StringAgreement

  /** The Unicode tables: letters and letter numbers, and the digits, marks and connectors of a part. */
  datatype Tables = Tables(letter: nat -> bool, mark: nat -> bool) {

    predicate Start(c: nat) {
      c == '$' as nat || c == '_' as nat || letter(c)
    }

    predicate Part(c: nat) {
      Start(c) || c == 0x200C || c == 0x200D || mark(c)
    }

    /** Neither table has a backslash or what is not a character. */
    ghost predicate Fit() {
      forall c: nat :: letter(c) || mark(c) ==> IsScalar(c) && c != BACKSLASH
    }
  }

  // ---- The specification ----

  /** A character of a name as it is written: raw, or as an escape of the four hex digits that write it. */
  datatype Spell = RawChar(c: nat) | Escape(digits: seq<nat>, c: nat)

  predicate IsSpell(p: Spell) {
    p.Escape? ==> |p.digits| == 4 && Denotes(p.digits, p.c, 16)
  }

  function SpellText(p: Spell): seq<nat> {
    match p
    case RawChar(c) => [c]
    case Escape(digits, _) => ['\\' as nat, 'u' as nat] + digits
  }

  ghost predicate AreSpells(spells: seq<Spell>) {
    forall i | 0 <= i < |spells| :: IsSpell(spells[i])
  }

  function TextOf(spells: seq<Spell>): seq<nat> {
    if spells == [] then [] else SpellText(spells[0]) + TextOf(spells[1..])
  }

  function ValueOf(spells: seq<Spell>): seq<nat> {
    if spells == [] then [] else [spells[0].c] + ValueOf(spells[1..])
  }

  ghost predicate IsName(tables: Tables, name: seq<nat>) {
    && name != [] && (name[0] == '$' as nat || name[0] == '_' as nat || tables.letter(name[0]))
    && forall i | 0 <= i < |name| ::
         || name[i] == '$' as nat || name[i] == '_' as nat || tables.letter(name[i])
         || name[i] == '\U{200C}' as nat || name[i] == '\U{200D}' as nat || tables.mark(name[i])
  }

  /** The source is a spelling of the name. */
  ghost predicate Spells(source: seq<nat>, name: seq<nat>) {
    exists spells: seq<Spell> :: AreSpells(spells) && TextOf(spells) == source && ValueOf(spells) == name
  }

  // ---- Decoding ----

  /** The character at a place, and the length of its spelling. */
  function CharAt(s: seq<nat>, i: nat): (r: Option<(nat, nat)>)
    requires i < |s|
    ensures r.Some? ==> 1 <= r.value.1 && i + r.value.1 <= |s|
  {
    if s[i] != BACKSLASH then Some((s[i], 1))
    else if i + 6 > |s| || s[i + 1] != 'u' as nat then None
    else
      match HexRun(s, i + 2, 4)
      case None => None
      case Some(c) => Some((c, 6))
  }

  predicate Fits(tables: Tables, c: nat, first: bool) {
    if first then tables.Start(c) else tables.Part(c)
  }

  function NameFrom(tables: Tables, s: seq<nat>, i: nat, first: bool): Option<seq<nat>>
    requires i <= |s|
    decreases |s| - i
  {
    if i == |s| then Some([])
    else
      match CharAt(s, i)
      case None => None
      case Some((c, n)) =>
        if !Fits(tables, c, first) then None
        else
          match NameFrom(tables, s, i + n, false)
          case None => None
          case Some(rest) => Some([c] + rest)
  }

  function Decoded(tables: Tables, s: seq<nat>): Option<seq<nat>> {
    if s == [] then None else NameFrom(tables, s, 0, true)
  }

  // ---- A name comes out exactly of its spellings ----

  ghost predicate FitAll(tables: Tables, name: seq<nat>, first: bool) {
    forall i | 0 <= i < |name| :: Fits(tables, name[i], first && i == 0)
  }

  lemma {:induction false} DecodedIsSpelled(tables: Tables, s: seq<nat>, i: nat, first: bool)
      returns (spells: seq<Spell>)
    requires i <= |s| && NameFrom(tables, s, i, first).Some?
    ensures AreSpells(spells) && TextOf(spells) == s[i..] && ValueOf(spells) == NameFrom(tables, s, i, first).value
    ensures FitAll(tables, ValueOf(spells), first)
    decreases |s| - i
  {
    hide Fits;
    if i == |s| {
      spells := [];
    } else {
      var (c, n) := CharAt(s, i).value;
      var rest := DecodedIsSpelled(tables, s, i + n, false);
      var p := SpellOf(s, i);
      spells := [p] + rest;
      assert spells[1..] == rest;
      assert s[i..] == s[i..i + n] + s[i + n..];
    }
  }

  lemma SpellOf(s: seq<nat>, i: nat) returns (p: Spell)
    requires i < |s| && CharAt(s, i).Some?
    ensures var (c, n) := CharAt(s, i).value; IsSpell(p) && SpellText(p) == s[i..i + n] && p.c == c
  {
    hide HexRun, Denotes;
    if s[i] != BACKSLASH {
      p := RawChar(s[i]);
    } else {
      HexRunExact(s, i + 2, 4, CharAt(s, i).value.0);
      p := Escape(s[i + 2..i + 6], CharAt(s, i).value.0);
      assert s[i..i + 6] == [s[i], s[i + 1]] + s[i + 2..i + 6];
    }
  }

  lemma CharOfSpell(s: seq<nat>, i: nat, p: Spell, rest: seq<nat>)
    requires i <= |s| && IsSpell(p) && s[i..] == SpellText(p) + rest && (p.RawChar? ==> p.c != BACKSLASH)
    ensures i < |s| && CharAt(s, i) == Some((p.c, |SpellText(p)|))
  {
    hide HexRun, Denotes;
    var text := SpellText(p);
    assert s[i] == s[i..][0] == text[0];
    if p.Escape? {
      assert s[i + 1] == s[i..][1] == text[1];
      assert s[i + 2..i + 6] == s[i..][2..6] == p.digits;
      HexRunExact(s, i + 2, 4, p.c);
    }
  }

  lemma {:induction false} SpelledIsDecoded(tables: Tables, s: seq<nat>, i: nat, first: bool, spells: seq<Spell>)
    requires tables.Fit() && i <= |s| && AreSpells(spells) && TextOf(spells) == s[i..]
    requires FitAll(tables, ValueOf(spells), first)
    ensures NameFrom(tables, s, i, first) == Some(ValueOf(spells))
    decreases |spells|
  {
    hide SpellText, CharAt, IsSpell;
    if spells != [] {
      var p, rest := spells[0], spells[1..];
      var name := ValueOf(spells);
      assert name == [p.c] + ValueOf(rest);
      assert Fits(tables, name[0], first && 0 == 0);
      RawFits(tables, p, first);
      CharOfSpell(s, i, p, TextOf(rest));
      assert s[i + |SpellText(p)|..] == s[i..][|SpellText(p)|..] == TextOf(rest);
      forall k | 0 <= k < |ValueOf(rest)| ensures Fits(tables, ValueOf(rest)[k], false) {
        assert Fits(tables, name[k + 1], first && k + 1 == 0);
      }
      SpelledIsDecoded(tables, s, i + |SpellText(p)|, false, rest);
    }
  }

  lemma RawFits(tables: Tables, p: Spell, first: bool)
    requires tables.Fit() && IsSpell(p) && Fits(tables, p.c, first)
    ensures p.RawChar? ==> p.c != BACKSLASH
  {
    hide HexRun;
  }

  lemma NameFits(tables: Tables, name: seq<nat>)
    requires name != []
    ensures IsName(tables, name) <==> FitAll(tables, name, true)
  {
    if FitAll(tables, name, true) {
      assert Fits(tables, name[0], true && 0 == 0);
      forall i | 0 <= i < |name| ensures tables.Part(name[i]) {
        assert Fits(tables, name[i], true && i == 0);
      }
    }
  }

  lemma NotEmpty(tables: Tables, name: seq<nat>)
    requires IsName(tables, name)
    ensures name != []
  {
  }

  lemma EmptyText(spells: seq<Spell>)
    requires AreSpells(spells)
    ensures TextOf(spells) == [] <==> spells == []
    ensures ValueOf(spells) == [] <==> spells == []
  {
  }

  /** A name is returned if and only if the source is a spelling of it and it is a legal IdentifierName. */
  lemma DecodesExactlySpellings(tables: Tables, s: seq<nat>, name: seq<nat>)
    requires tables.Fit()
    ensures Decoded(tables, s) == Some(name) <==> Spells(s, name) && IsName(tables, name)
  {
    hide SpellText, IsSpell, NameFrom, IsName, Fits;
    if Decoded(tables, s) == Some(name) {
      var spells := DecodedIsSpelled(tables, s, 0, true);
      assert s[0..] == s;
      EmptyText(spells);
      NameFits(tables, name);
    }
    if Spells(s, name) && IsName(tables, name) {
      var spells: seq<Spell> :| AreSpells(spells) && TextOf(spells) == s && ValueOf(spells) == name;
      NotEmpty(tables, name);
      EmptyText(spells);
      assert s[0..] == s;
      NameFits(tables, name);
      SpelledIsDecoded(tables, s, 0, true, spells);
    }
  }

  function RawSpells(name: seq<nat>): (r: seq<Spell>)
    ensures AreSpells(r)
  {
    if name == [] then [] else [RawChar(name[0])] + RawSpells(name[1..])
  }

  lemma {:induction false} RawSpelling(name: seq<nat>)
    ensures TextOf(RawSpells(name)) == name && ValueOf(RawSpells(name)) == name
  {
    if name != [] {
      RawSpelling(name[1..]);
      assert RawSpells(name)[1..] == RawSpells(name[1..]);
    }
  }

  /** Decoding a decoded name changes nothing. */
  lemma DecodingIsIdempotent(tables: Tables, s: seq<nat>)
    requires tables.Fit() && Decoded(tables, s).Some?
    ensures Decoded(tables, Decoded(tables, s).value) == Decoded(tables, s)
  {
    hide NameFrom, Fits, IsName;
    var name := Decoded(tables, s).value;
    DecodesExactlySpellings(tables, s, name);
    RawSpelling(name);
    assert Spells(name, name);
    DecodesExactlySpellings(tables, name, name);
  }


  // ---- Over bytes: Go and Rust ----

  /** The rune at a place of any bytes, and the length of its spelling in bytes. */
  function RuneAt(s: seq<nat>, i: nat): (r: Option<(nat, nat)>)
    requires i < |s|
    ensures r.Some? ==> 1 <= r.value.1 && i + r.value.1 <= |s|
  {
    if s[i] == BACKSLASH then
      if i + 6 > |s| || s[i + 1] != 'u' as nat || HexRun(s, i + 2, 4).None? then None
      else if 0xD800 <= HexRun(s, i + 2, 4).value <= 0xDFFF then None
      else Some((HexRun(s, i + 2, 4).value, 6))
    else
      var (c, size) := DecodeRune(s, i);
      if c == REPLACEMENT && size <= 1 then None else Some((c, size))
  }

  function BytesFrom(tables: Tables, s: seq<nat>, i: nat, first: bool): Option<seq<nat>>
    requires i <= |s|
    decreases |s| - i
  {
    if i == |s| then Some([])
    else
      match RuneAt(s, i)
      case None => None
      case Some((c, n)) =>
        if !Fits(tables, c, first) then None
        else
          match BytesFrom(tables, s, i + n, false)
          case None => None
          case Some(rest) => Some([c] + rest)
  }

  /** What a loop has written, and what is still to come. */
  function Then(done: seq<nat>, rest: Option<seq<nat>>): Option<seq<nat>> {
    match rest
    case None => None
    case Some(name) => Some(done + name)
  }

  lemma ThenLaws(done: seq<nat>, c: nat, rest: Option<seq<nat>>)
    ensures Then(done, Then([c], rest)) == Then(done + [c], rest)
    ensures Then([], rest) == rest && Then(done, Some([])) == Some(done)
  {
    if rest.Some? {
      assert done + ([c] + rest.value) == done + [c] + rest.value;
      assert [] + rest.value == rest.value;
    }
    assert done + [] == done;
  }

  /** A loop over bytes at a place: its name so far, and the rest still to be decoded. */
  ghost predicate Written(tables: Tables, s: seq<nat>, i: nat, first: bool, b: seq<nat>)
    requires i <= |s|
  {
    forall n: nat | Folded(n) :: Then(b, BytesFrom(tables, s, i, first)) == BytesFrom(tables, s, 0, true)
  }

  lemma WrittenStart(tables: Tables, s: seq<nat>)
    ensures Written(tables, s, 0, true, [])
  {
    hide BytesFrom;
    ThenLaws([], 0, BytesFrom(tables, s, 0, true));
  }

  lemma WrittenOn(tables: Tables, s: seq<nat>, i: nat, first: bool, b: seq<nat>)
    requires i < |s| && Written(tables, s, i, first, b)
    ensures var rune := RuneAt(s, i);
            && (rune.None? || !Fits(tables, rune.value.0, first) ==> BytesFrom(tables, s, 0, true) == None)
            && (rune.Some? && Fits(tables, rune.value.0, first) ==>
                  Written(tables, s, i + rune.value.1, false, b + [rune.value.0]))
  {
    hide RuneAt, Fits;
    assert Folded(0);
    var rune := RuneAt(s, i);
    if rune.Some? {
      ThenLaws(b, rune.value.0, BytesFrom(tables, s, i + rune.value.1, false));
    }
  }

  lemma WrittenEnd(tables: Tables, s: seq<nat>, first: bool, b: seq<nat>)
    requires Written(tables, s, |s|, first, b)
    ensures BytesFrom(tables, s, 0, true) == Some(b)
  {
    assert Folded(0);
    assert b + [] == b;
  }

  /** The rune at a place, as Go reads it. */
  method GoRune(s: seq<nat>, i: nat) returns (rune: Option<(nat, nat)>)
    requires i < |s|
    ensures rune == RuneAt(s, i)
  {
    hide HexRun, DecodeRune;
    if s[i] == BACKSLASH {
      if i + 6 > |s| || s[i + 1] != 'u' as nat {
        return None;
      }
      var cu := HexRun(s, i + 2, 4);
      if cu == None {
        return None;
      }
      if 0xD800 <= cu.value <= 0xDFFF {
        return None;
      }
      return Some((cu.value, 6));
    }
    var (r, size) := DecodeRune(s, i);
    if r == REPLACEMENT && size <= 1 {
      return None;
    }
    rune := Some((r, size));
  }

  /** One turn of the Go loop: the next byte and the name so far, or nothing. */
  method GoTurn(tables: Tables, s: seq<nat>, i: nat, first: bool, b: seq<nat>) returns (next: Option<(nat, seq<nat>)>)
    requires i < |s| && Written(tables, s, i, first, b)
    ensures next == None ==> BytesFrom(tables, s, 0, true) == None
    ensures next.Some? ==> i < next.value.0 <= |s| && Written(tables, s, next.value.0, false, next.value.1)
  {
    hide BytesFrom, RuneAt, Written;
    var rune := GoRune(s, i);
    WrittenOn(tables, s, i, first, b);
    if rune == None {
      return None;
    }
    var (r, size) := rune.value;
    if first {
      if !tables.Start(r) {
        return None;
      }
    } else if !tables.Part(r) {
      return None;
    }
    next := Some((i + size, b + [r]));
  }

  /** decodeIdentifierName in Go, on bytes that need not be UTF-8. */
  method GoDecode(tables: Tables, s: seq<nat>) returns (name: Option<seq<nat>>)
    ensures name == if s == [] then None else BytesFrom(tables, s, 0, true)
  {
    if s == [] {
      return None;
    }
    var b: seq<nat> := [];
    var first := true;
    var i := 0;
    WrittenStart(tables, s);
    while i < |s|
      invariant i <= |s| && Written(tables, s, i, first, b)
    {
      var next := GoTurn(tables, s, i, first, b);
      if next == None {
        return None;
      }
      i, b := next.value.0, next.value.1;
      first := false;
    }
    WrittenEnd(tables, s, first, b);
    name := Some(b);
  }

  /** The character at a place of a Rust string, which is UTF-8. */
  method RustChar(source: seq<nat>, i: nat, ghost text: seq<nat>, ghost k: nat) returns (ch: Option<(nat, nat)>)
    requires Scalars(text) && source == Utf8(text) && k < |text| && i == Offset8(text, k) && i < |source|
    ensures ch == RuneAt(source, i)
  {
    DecodeAt(text, k);
    ReplacementSize();
    hide HexRun, DecodeRune, Utf8, Offset8, Utf8One;
    if source[i] == BACKSLASH {
      if i + 6 > |source| || source[i + 1] != 'u' as nat || HexRun(source, i + 2, 4) == None {
        return None;
      }
      var unit := HexRun(source, i + 2, 4).value;
      if 0xD800 <= unit <= 0xDFFF {
        return None;
      }
      return Some((unit, 6));
    }
    ch := Some(DecodeRune(source, i));
  }

  /** The Rust loop at a byte that is the offset of character k. */
  ghost predicate RustWritten(tables: Tables, text: seq<nat>, i: nat, first: bool, out: seq<nat>, k: nat) {
    forall n: nat | Folded(n) ::
      k <= |text| && i == Offset8(text, k) <= |Utf8(text)| && Written(tables, Utf8(text), i, first, out)
  }

  /** One turn of the Rust loop: the next byte and the name so far, or nothing. */
  method RustTurn(tables: Tables, source: seq<nat>, i: nat, first: bool, out: seq<nat>, ghost text: seq<nat>,
      ghost k: nat)
    returns (next: Option<(nat, seq<nat>)>, ghost k': nat)
    requires tables.Fit() && Scalars(text) && source == Utf8(text) && i < |source|
    requires RustWritten(tables, text, i, first, out, k)
    ensures next == None ==> Decoded(tables, text) == None
    ensures next.Some? ==> i < next.value.0 <= |source| && RustWritten(tables, text, next.value.0, false,
        next.value.1, k')
  {
    hide BytesFrom, NameFrom, Utf8, Offset8, CharAt, RuneAt, Written;
    assert Folded(0);
    k' := k;
    GoString.NotAtEnd(text, k);
    var ch := RustChar(source, i, text, k);
    WrittenOn(tables, source, i, first, out);
    RuneIsChar(tables, text, k, first);
    if ch == None || !(if first then tables.Start(ch.value.0) else tables.Part(ch.value.0)) {
      NoName(tables, text);
      return None, k;
    }
    k' := k + CharAt(text, k).value.1;
    next := Some((i + ch.value.1, out + [ch.value.0]));
  }

  lemma NoName(tables: Tables, text: seq<nat>)
    requires tables.Fit() && Scalars(text) && BytesFrom(tables, Utf8(text), 0, true) == None
    ensures Decoded(tables, text) == None
  {
    hide BytesFrom, NameFrom;
    OffsetEnd(text);
    BytesDecodeAlike(tables, text, 0, true);
  }

  lemma WholeName(tables: Tables, text: seq<nat>, first: bool, out: seq<nat>)
    requires tables.Fit() && Scalars(text) && text != [] && Written(tables, Utf8(text), |Utf8(text)|, first, out)
    ensures Decoded(tables, text) == Some(out)
  {
    hide BytesFrom, NameFrom;
    OffsetEnd(text);
    WrittenEnd(tables, Utf8(text), first, out);
    BytesDecodeAlike(tables, text, 0, true);
  }

  /** decode_identifier_name. */
  method RustDecode(tables: Tables, source: seq<nat>, ghost text: seq<nat>) returns (name: Option<seq<nat>>)
    requires tables.Fit() && Scalars(text) && source == Utf8(text)
    ensures name == Decoded(tables, text)
  {
    OffsetEnd(text);
    if source == [] {
      GoString.PastTheEnd(text, 0);
      return None;
    }
    var out: seq<nat> := [];
    var first := true;
    var i := 0;
    ghost var k: nat := 0;
    WrittenStart(tables, source);
    while i < |source|
      invariant i <= |source| && RustWritten(tables, text, i, first, out, k)
    {
      var next, k' := RustTurn(tables, source, i, first, out, text, k);
      if next == None {
        return None;
      }
      i, out := next.value.0, next.value.1;
      first, k := false, k';
    }
    hide NameFrom, BytesFrom, Written;
    assert Folded(0);
    WholeName(tables, text, first, out);
    name := Some(out);
  }

  lemma ReplacementSize()
    ensures |Utf8One(REPLACEMENT)| == 3
  {
  }

  lemma RuneIsChar(tables: Tables, text: seq<nat>, k: nat, first: bool)
    requires tables.Fit() && Scalars(text) && k < |text|
    ensures Offset8(text, k) < |Utf8(text)|
    ensures var ch, rune := CharAt(text, k), RuneAt(Utf8(text), Offset8(text, k));
            && (rune.Some? ==> ch.Some? && rune.value.0 == ch.value.0
                               && Offset8(text, k) + rune.value.1 == Offset8(text, k + ch.value.1))
            && (ch.Some? && Fits(tables, ch.value.0, first) ==> rune.Some?)
  {
    hide Utf8, Offset8, HexRun, Utf8One;
    DecodeAt(text, k);
    ByteAt(text, k);
    OffsetEnd(text);
    if text[k] == BACKSLASH {
      if k + 2 <= |text| {
        OffsetOrder(text, k + 1, |text|);
        GoString.HexBytes(text, k + 2, 4);
        ByteAt(text, k + 1);
        if k + 6 <= |text| {
          OffsetOrder(text, k, k + 6);
          OffsetOrder(text, k + 6, |text|);
        }
      }
    } else if text[k] == REPLACEMENT {
      ReplacementSize();
    }
  }

  lemma {:induction false} BytesDecodeAlike(tables: Tables, text: seq<nat>, k: nat, first: bool)
    requires tables.Fit() && Scalars(text) && k <= |text|
    ensures Offset8(text, k) <= |Utf8(text)|
    ensures BytesFrom(tables, Utf8(text), Offset8(text, k), first) == NameFrom(tables, text, k, first)
    decreases |text| - k
  {
    hide Utf8, Offset8, CharAt, RuneAt, Fits;
    OffsetEnd(text);
    OffsetOrder(text, k, |text|);
    if k < |text| {
      RuneIsChar(tables, text, k, first);
      var ch := CharAt(text, k);
      if ch.Some? {
        BytesDecodeAlike(tables, text, k + ch.value.1, false);
      }
    }
  }

  // ---- Over code units: TypeScript ----

  /** The character at a place, and the length of its spelling in code units. */
  function CodePointAt(s: seq<nat>, i: nat): (r: Option<(nat, nat)>)
    requires i < |s|
    ensures r.Some? ==> 1 <= r.value.1 && i + r.value.1 <= |s|
  {
    if s[i] == BACKSLASH then
      if i + 6 > |s| || s[i + 1] != 'u' as nat || HexRun(s, i + 2, 4).None? then None
      else Some((HexRun(s, i + 2, 4).value, 6))
    else if IsHigh(s[i]) && i + 1 < |s| && IsLow(s[i + 1]) then Some((Combine(s[i], s[i + 1]), 2))
    else Some((s[i], 1))
  }

  function UnitsFrom(tables: Tables, s: seq<nat>, i: nat, first: bool): Option<seq<nat>>
    requires i <= |s|
    decreases |s| - i
  {
    if i == |s| then Some([])
    else
      match CodePointAt(s, i)
      case None => None
      case Some((c, n)) =>
        if !Fits(tables, c, first) then None
        else
          match UnitsFrom(tables, s, i + n, false)
          case None => None
          case Some(rest) => Some([c] + rest)
  }

  /** The loop in TypeScript: what it has written are code units. */
  ghost predicate WrittenUnits(tables: Tables, s: seq<nat>, i: nat, first: bool, out: seq<nat>, name: seq<nat>)
    requires i <= |s|
  {
    forall n: nat | Folded(n) ::
      out == Utf16(name) && Then(name, UnitsFrom(tables, s, i, first)) == UnitsFrom(tables, s, 0, true)
  }

  lemma WrittenUnitsStart(tables: Tables, s: seq<nat>)
    ensures WrittenUnits(tables, s, 0, true, [], [])
  {
    hide UnitsFrom;
    ThenLaws([], 0, UnitsFrom(tables, s, 0, true));
  }

  lemma WrittenUnitsOn(tables: Tables, s: seq<nat>, i: nat, first: bool, out: seq<nat>, name: seq<nat>)
    requires i < |s| && WrittenUnits(tables, s, i, first, out, name)
    ensures var ch := CodePointAt(s, i);
            && (ch.None? || !Fits(tables, ch.value.0, first) ==> UnitsFrom(tables, s, 0, true) == None)
            && (ch.Some? && Fits(tables, ch.value.0, first) ==>
                  WrittenUnits(tables, s, i + ch.value.1, false, out + Utf16One(ch.value.0), name + [ch.value.0]))
  {
    hide CodePointAt, Fits, Utf16, Utf16One;
    assert Folded(0);
    var ch := CodePointAt(s, i);
    if ch.Some? {
      ThenLaws(name, ch.value.0, UnitsFrom(tables, s, i + ch.value.1, false));
      Utf16Concat(name, [ch.value.0]);
      Utf16Single(ch.value.0);
    }
  }

  lemma WrittenUnitsEnd(tables: Tables, s: seq<nat>, first: bool, out: seq<nat>, name: seq<nat>)
    requires WrittenUnits(tables, s, |s|, first, out, name)
    ensures UnitsFrom(tables, s, 0, true) == Some(name) && out == Utf16(name)
  {
    assert Folded(0);
    assert name + [] == name;
  }

  method TsChar(s: seq<nat>, i: nat) returns (ch: Option<(nat, nat)>)
    requires i < |s|
    ensures ch == CodePointAt(s, i)
  {
    hide HexRun;
    if s[i] == BACKSLASH {
      if i + 1 >= |s| || s[i + 1] != 'u' as nat {
        return None;
      }
      if i + 6 > |s| || HexRun(s, i + 2, 4) == None {
        return None;
      }
      return Some((HexRun(s, i + 2, 4).value, 6));
    }
    if IsHigh(s[i]) && i + 1 < |s| && IsLow(s[i + 1]) {
      return Some((Combine(s[i], s[i + 1]), 2));
    }
    ch := Some((s[i], 1));
  }

  /** decodeIdentifierName in TypeScript, on any code units. */
  method TsDecode(tables: Tables, s: seq<nat>) returns (out: Option<seq<nat>>)
    ensures s == [] ==> out == None
    ensures s != [] ==> out == match UnitsFrom(tables, s, 0, true)
                               case None => None
                               case Some(name) => Some(Utf16(name))
  {
    if s == [] {
      return None;
    }
    var written: seq<nat> := [];
    ghost var name: seq<nat> := [];
    var first := true;
    var i := 0;
    WrittenUnitsStart(tables, s);
    while i < |s|
      invariant i <= |s| && WrittenUnits(tables, s, i, first, written, name)
    {
      var ch := TsChar(s, i);
      WrittenUnitsOn(tables, s, i, first, written, name);
      if ch == None || !(if first then tables.Start(ch.value.0) else tables.Part(ch.value.0)) {
        return None;
      }
      written := written + Utf16One(ch.value.0);
      name := name + [ch.value.0];
      first := false;
      i := i + ch.value.1;
    }
    WrittenUnitsEnd(tables, s, first, written, name);
    out := Some(written);
  }

  lemma CodePointIsChar(tables: Tables, text: seq<nat>, k: nat)
    requires Scalars(text) && k < |text|
    ensures Offset16(text, k) < |Utf16(text)|
    ensures var ch, point := CharAt(text, k), CodePointAt(Utf16(text), Offset16(text, k));
            && (point.Some? <==> ch.Some?)
            && (ch.Some? ==> point.value.0 == ch.value.0
                               && Offset16(text, k) + point.value.1 == Offset16(text, k + ch.value.1))
  {
    hide Utf16, Offset16, HexRun;
    UnitsAt(text, k);
    StringAgreement.UnitsAhead(text, k);
    if text[k] == BACKSLASH {
      if k + 2 <= |text| {
        StringAgreement.HexUnits(text, k + 2, 4);
        UnitsAt(text, k + 1);
        if k + 6 <= |text| {
          SixUnits(text, k);
        } else {
          NoSix(text, k);
        }
      }
    }
  }

  lemma NoSix(text: seq<nat>, k: nat)
    requires k + 2 <= |text| < k + 6
    ensures HexRun(text, k + 2, 4) == None
  {
  }

  lemma SixUnits(text: seq<nat>, k: nat)
    requires k + 6 <= |text|
    ensures Offset16(text, k + 2) + 4 <= |Utf16(text)|
  {
    hide Utf16, Offset16;
    Offset16Step(text, k + 2);
    Offset16Step(text, k + 3);
    Offset16Step(text, k + 4);
    Offset16Step(text, k + 5);
  }

  lemma {:induction false} UnitsDecodeAlike(tables: Tables, text: seq<nat>, k: nat, first: bool)
    requires Scalars(text) && k <= |text|
    ensures Offset16(text, k) <= |Utf16(text)|
    ensures UnitsFrom(tables, Utf16(text), Offset16(text, k), first) == NameFrom(tables, text, k, first)
    decreases |text| - k
  {
    hide Utf16, Offset16, CharAt, CodePointAt, Fits;
    Offset16End(text);
    if k < |text| {
      CodePointIsChar(tables, text, k);
      var ch := CharAt(text, k);
      if ch.Some? {
        UnitsDecodeAlike(tables, text, k + ch.value.1, false);
      }
    }
  }

  /** The three ports decode one key to one name, each in its own encoding. */
  lemma PortsDecodeAlike(tables: Tables, text: seq<nat>)
    requires tables.Fit() && Scalars(text)
    ensures BytesFrom(tables, Utf8(text), 0, true) == NameFrom(tables, text, 0, true)
    ensures UnitsFrom(tables, Utf16(text), 0, true) == NameFrom(tables, text, 0, true)
  {
    hide Utf8, Utf16, BytesFrom, UnitsFrom, NameFrom;
    OffsetEnd(text);
    Offset16End(text);
    BytesDecodeAlike(tables, text, 0, true);
    UnitsDecodeAlike(tables, text, 0, true);
  }
}
