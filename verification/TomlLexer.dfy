/**
  The lexical part of the TOML reader (tools/port-deps.cjs): one cursor over the text, and the line it is
  on. Each reader finds what the language has at its place, leaves the cursor where that ends, and keeps
  the line one more than the line feeds passed.
 */
module TomlLexer {
  import opened Wrappers
  import opened Utf
  import opened StringLiteral
  import opened TomlSyntax
  import HasValue

  // ---- What the loops keep, folded away from them ----

  /** Inside a string in one line: what was read, and what is still to come, are the whole. */
  ghost predicate ReadSo(text: seq<nat>, start: nat, quote: nat, i: nat, out: seq<nat>) {
    forall n: nat | Folded(n) :: ShortFrom(text, start, quote) == Onto(out, ShortFrom(text, i, quote))
  }

  lemma ReadSoStart(text: seq<nat>, start: nat, quote: nat)
    ensures ReadSo(text, start, quote, start, [])
  {
    hide ShortFrom;
    OntoLaws([], [], ShortFrom(text, start, quote));
  }

  /** The next character, escape or quote. */
  lemma ReadSoOn(text: seq<nat>, start: nat, quote: nat, i: nat, out: seq<nat>)
    requires ReadSo(text, start, quote, i, out) && i <= |text|
    ensures i == |text| || text[i] == LF ==> ShortFrom(text, start, quote) == None
    ensures i < |text| && text[i] == quote && quote != LF ==> ShortFrom(text, start, quote) == Some((out, i + 1))
    ensures i < |text| && text[i] == BACKSLASH && quote == QUOTE ==>
              && (EscapeFrom(text, i + 1) == None ==> ShortFrom(text, start, quote) == None)
              && (EscapeFrom(text, i + 1).Some? ==>
                    var (code, n) := EscapeFrom(text, i + 1).value;
                    ReadSo(text, start, quote, i + 1 + n, out + Utf16One(code)))
    ensures i < |text| && text[i] != LF && text[i] != quote && (text[i] != BACKSLASH || quote != QUOTE) ==>
              ReadSo(text, start, quote, i + 1, out + [text[i]])
  {
    hide EscapeFrom, Utf16One;
    assert Folded(0);
    assert out + [] == out;
    if i < |text| {
      OntoLaws(out, [text[i]], ShortFrom(text, i + 1, quote));
      if EscapeFrom(text, i + 1).Some? {
        var (code, n) := EscapeFrom(text, i + 1).value;
        OntoLaws(out, Utf16One(code), ShortFrom(text, i + 1 + n, quote));
      }
    }
  }

  /** Inside a string in three quotes. */
  ghost predicate LongSo(text: seq<nat>, start: nat, quote: nat, i: nat, out: seq<nat>) {
    forall n: nat | Folded(n) :: LongFrom(text, start, quote) == Onto(out, LongFrom(text, i, quote))
  }

  lemma LongSoStart(text: seq<nat>, start: nat, quote: nat)
    ensures LongSo(text, start, quote, start, [])
  {
    hide LongFrom;
    OntoLaws([], [], LongFrom(text, start, quote));
  }

  /** What one turn of the long string's loop adds, and where it goes on. */
  function LongStep(text: seq<nat>, i: nat, quote: nat): (r: Option<(seq<nat>, nat)>)
    requires i < |text|
    ensures r.Some? ==> i < r.value.1 <= |text|
  {
    if text[i] == BACKSLASH && quote == QUOTE then
      if FoldsAt(text, i + 1) then Some(([], SpaceEnd(text, i + 1)))
      else
        match EscapeFrom(text, i + 1)
        case None => None
        case Some((code, n)) => Some((Utf16One(code), i + 1 + n))
    else Some(([text[i]], i + 1))
  }

  lemma LongSoOn(text: seq<nat>, start: nat, quote: nat, i: nat, out: seq<nat>)
    requires LongSo(text, start, quote, i, out) && i <= |text|
    ensures i == |text| ==> LongFrom(text, start, quote) == None
    ensures i < |text| && TripleAt(text, i, quote) ==>
              var n := ExtraQuotes(text, i + 3, quote);
              LongFrom(text, start, quote) == Some((out + seq(n, _ => quote), i + 3 + n))
    ensures i < |text| && !TripleAt(text, i, quote) ==>
              var step := LongStep(text, i, quote);
              && (step == None ==> LongFrom(text, start, quote) == None)
              && (step.Some? ==> LongSo(text, start, quote, step.value.1, out + step.value.0))
  {
    hide EscapeFrom, Utf16One, FoldsAt, SpaceEnd, ExtraQuotes;
    assert Folded(0);
    if i < |text| && !TripleAt(text, i, quote) {
      var step := LongStep(text, i, quote);
      if step.Some? {
        OntoLaws(out, step.value.0, LongFrom(text, step.value.1, quote));
        OntoLaws([], [], LongFrom(text, step.value.1, quote));
      }
    }
  }

  /** Inside a key. */
  ghost predicate KeySo(text: seq<nat>, start: nat, i: nat, names: seq<Name>)
    requires start <= |text| && i <= |text|
  {
    forall n: nat | Folded(n) :: KeyFrom(text, start) == PartsOnto(names, KeyFrom(text, i))
  }

  lemma KeySoStart(text: seq<nat>, start: nat)
    requires start <= |text|
    ensures KeySo(text, start, start, [])
  {
    var rest := KeyFrom(text, start);
    if rest.Some? {
      assert [] + rest.value.0 == rest.value.0;
    }
  }

  lemma KeySoOn(text: seq<nat>, start: nat, i: nat, names: seq<Name>)
    requires start <= |text| && i <= |text| && KeySo(text, start, i, names)
    ensures var name := NameFrom(text, BlankEnd(text, i));
            && (name == None ==> KeyFrom(text, start) == None)
            && (name.Some? ==>
                  var k := BlankEnd(text, name.value.1);
                  if k < |text| && text[k] == DOT then KeySo(text, start, k + 1, names + [name.value.0])
                  else KeyFrom(text, start) == Some((names + [name.value.0], k)))
  {
    hide NameFrom, BlankEnd;
    assert Folded(0);
    var name := NameFrom(text, BlankEnd(text, i));
    if name.Some? {
      var k := BlankEnd(text, name.value.1);
      if k < |text| && text[k] == DOT {
        var rest := KeyFrom(text, k + 1);
        if rest.Some? {
          assert names + ([name.value.0] + rest.value.0) == names + [name.value.0] + rest.value.0;
        }
      }
    }
  }

  // ---- The cursor ----

  class Cursor {
    const text: seq<nat>
    var i: nat
    var line: nat

    constructor (text: seq<nat>)
      ensures this.text == text && i == 0 && line == 1
    {
      this.text := text;
      i, line := 0, 1;
    }

    /** The line counter is one plus the line feeds consumed. */
    ghost predicate Here()
      reads this
    {
      i <= |text| && line == LineAt(text, i)
    }

    predicate At(c: nat)
      reads this
    {
      i < |text| && text[i] == c
    }

    /** blank. */
    method Blank()
      requires Here()
      modifies `i
      ensures Here() && i == BlankEnd(text, old(i))
    {
      while i < |text| && (text[i] == BLANK || text[i] == TAB)
        invariant Here() && BlankEnd(text, i) == BlankEnd(text, old(i))
      {
        i := i + 1;
      }
    }

    /** comment. */
    method Comment()
      requires Here()
      modifies `i
      ensures Here() && i == CommentEnd(text, old(i))
    {
      if At(HASH) {
        while i < |text| && text[i] != LF
          invariant Here() && LineFeedFrom(text, i) == LineFeedFrom(text, old(i))
        {
          i := i + 1;
        }
      }
    }

    /** gap: white space, comments and line feeds. */
    method Gap()
      requires Here()
      modifies this
      ensures Here() && i == GapEnd(text, old(i))
    {
      while true
        invariant Here() && GapEnd(text, i) == GapEnd(text, old(i))
        decreases |text| - i
      {
        Blank();
        Comment();
        if !At(LF) {
          return;
        }
        i, line := i + 1, line + 1;
      }
    }

    /** endOfLine: nothing more on the line but a comment. */
    method EndOfLine() returns (ok: bool)
      requires Here()
      modifies this
      ensures match LineEndFrom(text, old(i))
              case None => !ok
              case Some(e) => ok && Here() && i == e
    {
      Blank();
      Comment();
      if i >= |text| {
        return true;
      }
      if text[i] != LF {
        return false;
      }
      i, line := i + 1, line + 1;
      ok := true;
    }

    /** escape: the character after a backslash, and the digits it takes. */
    method Escape() returns (code: Option<nat>)
      requires Here()
      modifies `i
      ensures match EscapeFrom(text, old(i))
              case None => code == None
              case Some((c, n)) => code == Some(c) && Here() && i == old(i) + n
    {
      if i >= |text| {
        return None;
      }
      var c := text[i];
      i := i + 1;
      if Simple(c).Some? {
        return Simple(c);
      }
      var width := Width(c);
      if width == 0 {
        return None;
      }
      var hex := HexRun(text, i, width);
      if hex == None {
        return None;
      }
      HexHasNoLineFeed(text, i, width);
      i := i + width;
      if hex.value > 0x10FFFF {
        return None;
      }
      code := hex;
    }

    /** string: either kind of quote, in one line or in several. */
    method ReadString() returns (v: Option<seq<nat>>)
      requires Here() && (At(QUOTE) || At(APOSTROPHE))
      modifies this
      ensures match StringFrom(text, old(i))
              case None => v == None
              case Some((s, e)) => v == Some(s) && Here() && i == e
    {
      var quote := text[i];
      if TripleAt(text, i, quote) {
        v := LongString(quote);
      } else {
        v := ShortString(quote);
      }
    }

    method ShortString(quote: nat) returns (v: Option<seq<nat>>)
      requires Here() && At(quote) && quote != LF
      modifies `i
      ensures match ShortFrom(text, old(i) + 1, quote)
              case None => v == None
              case Some((s, e)) => v == Some(s) && Here() && i == e
    {
      i := i + 1;
      ghost var start := i;
      var out: seq<nat> := [];
      ReadSoStart(text, start, quote);
      while true
        invariant Here() && ReadSo(text, start, quote, i, out)
        decreases |text| - i
      {
        var more := ShortTurn(start, quote, out);
        if more.Done? {
          return more.value;
        }
        out := more.out;
      }
    }

    /** One turn of the short string's loop. */
    method ShortTurn(ghost start: nat, quote: nat, out: seq<nat>) returns (turn: Turn)
      requires Here() && ReadSo(text, start, quote, i, out) && quote != LF
      modifies `i
      ensures turn.More? ==> old(i) < i && Here() && ReadSo(text, start, quote, i, turn.out)
      ensures turn.Done? ==> match ShortFrom(text, start, quote)
                             case None => turn.value == None
                             case Some((s, e)) => turn.value == Some(s) && Here() && i == e
    {
      hide ShortFrom, EscapeFrom, ReadSo;
      ReadSoOn(text, start, quote, i, out);
      if i >= |text| || text[i] == LF {
        return Done(None);
      }
      var c := text[i];
      i := i + 1;
      if c == quote {
        return Done(Some(out));
      }
      if c == BACKSLASH && quote == QUOTE {
        var code := Escape();
        if code == None {
          return Done(None);
        }
        return More(out + Utf16One(code.value));
      }
      turn := More(out + [c]);
    }

    method LongString(quote: nat) returns (v: Option<seq<nat>>)
      requires Here() && TripleAt(text, i, quote) && quote != LF
      modifies this
      ensures var start := if old(i) + 3 < |text| && text[old(i) + 3] == LF then old(i) + 4 else old(i) + 3;
              match LongFrom(text, start, quote)
              case None => v == None
              case Some((s, e)) => v == Some(s) && Here() && i == e
    {
      OpenLong(quote);
      ghost var start := i;
      var out: seq<nat> := [];
      LongSoStart(text, start, quote);
      while true
        invariant Here() && LongSo(text, start, quote, i, out)
        decreases |text| - i
      {
        var more := LongTurn(start, quote, out);
        if more.Done? {
          return more.value;
        }
        out := more.out;
      }
    }

    /** The opening quotes, and a line feed right after them. */
    method OpenLong(quote: nat)
      requires Here() && TripleAt(text, i, quote) && quote != LF
      modifies this
      ensures Here() && i == if old(i) + 3 < |text| && text[old(i) + 3] == LF then old(i) + 4 else old(i) + 3
    {
      NoLineFeeds(text, i, i + 3);
      i := i + 3;
      if At(LF) {
        i, line := i + 1, line + 1;
      }
    }

    /** One turn of the long string's loop. */
    method LongTurn(ghost start: nat, quote: nat, out: seq<nat>) returns (turn: Turn)
      requires Here() && LongSo(text, start, quote, i, out) && quote != LF
      modifies this
      ensures turn.More? ==> old(i) < i && Here() && LongSo(text, start, quote, i, turn.out)
      ensures turn.Done? ==> match LongFrom(text, start, quote)
                             case None => turn.value == None
                             case Some((s, e)) => turn.value == Some(s) && Here() && i == e
    {
      hide LongFrom, LongSo, LongStep;
      LongSoOn(text, start, quote, i, out);
      if i >= |text| {
        return Done(None);
      }
      if TripleAt(text, i, quote) {
        var extra := CloseLong(quote);
        return Done(Some(out + extra));
      }
      var more := LongCharacter(quote);
      turn := if more == None then Done(None) else More(out + more.value);
    }

    /** The closing quotes, and up to two more that belong to the string. */
    method CloseLong(quote: nat) returns (extra: seq<nat>)
      requires Here() && TripleAt(text, i, quote) && quote != LF
      modifies `i
      ensures var n := ExtraQuotes(text, old(i) + 3, quote);
              extra == seq(n, _ => quote) && i == old(i) + 3 + n && Here()
    {
      NoLineFeeds(text, i, i + 3);
      i := i + 3;
      extra := [];
      ghost var start := i;
      while |extra| < 2 && At(quote)
        invariant |extra| <= 2 && extra == seq(|extra|, _ => quote) && i == start + |extra| && Here()
        invariant |extra| <= ExtraQuotes(text, start, quote)
        decreases 2 - |extra|
      {
        extra := extra + [quote];
        i := i + 1;
      }
    }

    /** A character of a long string, an escape, or a line end that a backslash takes along. */
    method LongCharacter(quote: nat) returns (more: Option<seq<nat>>)
      requires Here() && i < |text|
      modifies this
      ensures match LongStep(text, old(i), quote)
              case None => more == None
              case Some((s, e)) => more == Some(s) && Here() && i == e
    {
      var c := text[i];
      i := i + 1;
      if c == LF {
        line := line + 1;
        return Some([c]);
      }
      if c == BACKSLASH && quote == QUOTE {
        var folds := BlankToLineEnd();
        if folds {
          SkipSpace();
          return Some([]);
        }
        var code := Escape();
        if code == None {
          return None;
        }
        return Some(Utf16One(code.value));
      }
      more := Some([c]);
    }

    /** Whether only blanks stand before the line's end, within two hundred characters. */
    method BlankToLineEnd() returns (folds: bool)
      requires i <= |text|
      ensures folds == FoldsAt(text, i)
      ensures folds <==> exists e :: i <= e < |text| && e < i + 200 && text[e] == LF
                           && forall k | i <= k < e :: text[k] == BLANK || text[k] == TAB
    {
      var e := RunEnd(text, i, IsBlank, 200);
      folds := e < i + 200 && e < |text| && text[e] == LF;
      if !folds {
        forall f | i <= f < |text| && f < i + 200 && text[f] == LF
          ensures exists k :: i <= k < f && text[k] != BLANK && text[k] != TAB
        {
          assert e < f && !IsBlank(text[e]);
        }
      }
    }

    method SkipSpace()
      requires Here()
      modifies this
      ensures Here() && i == SpaceEnd(text, old(i))
    {
      while i < |text| && HasValue.IsSpace(text[i])
        invariant Here() && SpaceEnd(text, i) == SpaceEnd(text, old(i))
      {
        if text[i] == LF {
          line := line + 1;
        }
        i := i + 1;
      }
    }

    /** A run of characters of a class, at most `limit` of them: a pattern on a slice of the text. */
    method Run(fits: nat -> bool, limit: nat) returns (run: seq<nat>)
      requires Here() && !fits(LF)
      modifies `i
      ensures Here() && i == RunEnd(text, old(i), fits, limit) && run == text[old(i)..i]
    {
      var start := i;
      i := RunEnd(text, i, fits, limit);
      NoLineFeeds(text, start, i);
      run := text[start..i];
    }

    /** key: a dotted key's parts. */
    method ReadKey() returns (parts: Option<seq<Name>>)
      requires Here()
      modifies this
      ensures match KeyFrom(text, old(i))
              case None => parts == None
              case Some((names, e)) => parts == Some(names) && Here() && i == e
    {
      var names: seq<Name> := [];
      ghost var start := i;
      KeySoStart(text, start);
      while true
        invariant Here() && KeySo(text, start, i, names)
        decreases |text| - i
      {
        KeySoOn(text, start, i, names);
        Blank();
        var name := ReadName();
        if name == None {
          return None;
        }
        names := names + [name.value];
        Blank();
        if !At(DOT) {
          return Some(names);
        }
        i := i + 1;
      }
    }

    method ReadName() returns (name: Option<Name>)
      requires Here()
      modifies this
      ensures match NameFrom(text, old(i))
              case None => name == None
              case Some((s, e)) => name == Some(s) && Here() && i == e
    {
      if At(QUOTE) || At(APOSTROPHE) {
        if TripleAt(text, i, text[i]) {
          return None;
        }
        name := ReadString();
      } else {
        var run := Run(IsKeyChar, 256);
        if run == [] {
          return None;
        }
        name := Some(run);
      }
    }

    /** A scalar that is no string: a run of its characters, and a time after a date. */
    method ReadScalar() returns (raw: Option<seq<nat>>)
      requires Here()
      modifies `i
      ensures match ScalarFrom(text, old(i))
              case None => raw == None
              case Some((s, e)) => raw == Some(s) && Here() && i == e
    {
      var run := Run(IsScalarChar, 256);
      if run == [] {
        return None;
      }
      if IsDate(run) {
        var time := ReadTime();
        return Some(run + time);
      }
      raw := Some(run);
    }

    /** A space and a time, or nothing. */
    method ReadTime() returns (time: seq<nat>)
      requires Here()
      modifies `i
      ensures Here() && i == TimeEnd(text, old(i)) && time == text[old(i)..i]
    {
      if i + 4 < |text| && text[i] == BLANK && IsDigit(text[i + 1]) && IsDigit(text[i + 2]) && text[i + 3] == ':' as nat
         && IsTimeChar(text[i + 4]) {
        var start := i;
        NoLineFeeds(text, i, i + 4);
        i := i + 4;
        var rest := Run(IsTimeChar, 60);
        return text[start..i];
      }
      time := [];
    }
  }

  /** A loop's turn: more to read, or done, with a value or refused. */
  datatype Turn = More(out: seq<nat>) | Done(value: Option<seq<nat>>)
}
