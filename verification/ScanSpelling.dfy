/** What the scan before the string reader finds, said of the pieces that a literal falls into. */
module ScanSpelling {
  import opened Wrappers
  import opened Numerals
  import opened StringLiteral

  /** A character, or a backslash and the character it takes along. */
  datatype Piece = One(c: nat) | Pair(c: nat)

  /** How the pieces end: at the closing quote, with the source, or with the source at a backslash. */
  datatype Ending = Shut | Out | OutAtBackslash

  function PieceText(p: Piece): (w: seq<nat>)
    ensures w != []
  {
    match p case One(c) => [c] case Pair(c) => ['\\' as nat, c]
  }

  function TextOf(ps: seq<Piece>): seq<nat> {
    if ps == [] then [] else PieceText(ps[0]) + TextOf(ps[1..])
  }

  function TailOf(ending: Ending, quote: nat): seq<nat> {
    match ending case Shut => [quote] case Out => [] case OutAtBackslash => ['\\' as nat]
  }

  ghost predicate ArePieces(ps: seq<Piece>, quote: nat) {
    forall k | 0 <= k < |ps| && ps[k].One? :: ps[k].c != quote && ps[k].c != '\\' as nat
  }

  /** The text from a place on falls into the pieces, up to its ending. */
  ghost predicate FallsInto(s: seq<nat>, i: nat, quote: nat, ps: seq<Piece>, ending: Ending) {
    var w := TextOf(ps) + TailOf(ending, quote);
    && ArePieces(ps, quote) && i + |w| <= |s| && s[i..i + |w|] == w && (ending != Shut ==> i + |w| == |s|)
  }

  /** An escape of a decimal digit but a lone zero, or of `u` with a brace after it. */
  ghost predicate IsRefused(s: seq<nat>, i: nat, ps: seq<Piece>, k: nat)
    requires k < |ps|
  {
    var after := i + |TextOf(ps[..k + 1])|;
    && ps[k].Pair?
    && (|| ps[k].c in Codes("123456789")
        || (ps[k].c == '0' as nat && after < |s| && s[after] in Codes("0123456789"))
        || (ps[k].c == 'u' as nat && after < |s| && s[after] == '{' as nat))
  }

  predicate IsContinuation(p: Piece) {
    p.Pair? && p.c in Codes("\n\r\U{2028}\U{2029}")
  }

  ghost predicate SomeRefused(s: seq<nat>, i: nat, ps: seq<Piece>) {
    exists k :: 0 <= k < |ps| && IsRefused(s, i, ps, k)
  }

  predicate SomeContinuation(ps: seq<Piece>) {
    exists k :: 0 <= k < |ps| && IsContinuation(ps[k])
  }

  lemma FirstPiece(s: seq<nat>, i: nat, quote: nat, ps: seq<Piece>, ending: Ending)
    requires ps != [] && FallsInto(s, i, quote, ps, ending)
    ensures var n := |PieceText(ps[0])|;
            i + n <= |s| && s[i..i + n] == PieceText(ps[0]) && FallsInto(s, i + n, quote, ps[1..], ending)
  {
    var p, rest := PieceText(ps[0]), TextOf(ps[1..]) + TailOf(ending, quote);
    var w := TextOf(ps) + TailOf(ending, quote);
    assert w == p + rest;
    SliceParts(s, i, p, rest);
  }

  lemma SliceParts(s: seq<nat>, i: nat, a: seq<nat>, b: seq<nat>)
    requires i + |a| + |b| <= |s| && s[i..i + |a + b|] == a + b
    ensures s[i..i + |a|] == a && s[i + |a|..i + |a| + |b|] == b
  {
    assert s[i..i + |a + b|][..|a|] == s[i..i + |a|];
    assert s[i..i + |a + b|][|a|..] == s[i + |a|..i + |a| + |b|];
  }

  /** The later pieces are refused alike seen from the first one. */
  lemma RefusedLater(s: seq<nat>, i: nat, ps: seq<Piece>)
    requires ps != []
    ensures var j := i + |PieceText(ps[0])|;
            SomeRefused(s, i, ps) <==> IsRefused(s, i, ps, 0) || SomeRefused(s, j, ps[1..])
  {
    var rest, j := ps[1..], i + |PieceText(ps[0])|;
    hide Codes, PieceText;
    forall k | 0 <= k < |rest| ensures IsRefused(s, j, rest, k) <==> IsRefused(s, i, ps, k + 1) {
      assert ps[..k + 2][1..] == rest[..k + 1];
    }
    if k: nat :| 0 < k < |ps| && IsRefused(s, i, ps, k) {
      assert IsRefused(s, j, rest, k - 1);
    }
    if k: nat :| 0 <= k < |rest| && IsRefused(s, j, rest, k) {
      assert IsRefused(s, i, ps, k + 1);
    }
  }

  lemma ContinuedLater(ps: seq<Piece>)
    requires ps != []
    ensures SomeContinuation(ps) <==> IsContinuation(ps[0]) || SomeContinuation(ps[1..])
  {
    var rest := ps[1..];
    if k: nat :| 0 < k < |ps| && IsContinuation(ps[k]) {
      assert IsContinuation(rest[k - 1]);
    }
    if k: nat :| 0 <= k < |rest| && IsContinuation(rest[k]) {
      assert IsContinuation(ps[k + 1]);
    }
  }

  /** What the scan makes of a piece. */
  lemma OnePiece(s: seq<nat>, i: nat, quote: nat, p: Piece, ps: seq<Piece>)
    requires IsQuote(quote) && ps != [] && ps[0] == p && (p.One? ==> p.c != quote && p.c != '\\' as nat)
    requires i + |PieceText(p)| <= |s| && s[i..i + |PieceText(p)|] == PieceText(p)
    ensures var rest := ScanFrom(s, i + |PieceText(p)|, quote);
            ScanFrom(s, i, quote) == Scan(rest.forbidden || IsRefused(s, i, ps, 0), rest.continued || IsContinuation(p),
                                          rest.stop)
  {
    assert ps[..1] == [p] && [p][1..] == [];
    assert TextOf([]) == [];
    assert TextOf([p]) == PieceText(p) + [];
    assert s[i] == PieceText(p)[0] && (p.Pair? ==> s[i + 1] == PieceText(p)[1]);
    if p.Pair? {
      DigitsAre(p.c);
      if i + 2 < |s| {
        DigitsAre(s[i + 2]);
      }
    }
  }

  lemma DigitsAre(c: nat)
    ensures c in Codes("0123456789") <==> IsDigit(c)
    ensures c in Codes("123456789") <==> '1' as nat <= c <= '9' as nat
    ensures c in Codes("\n\r\U{2028}\U{2029}") <==> IsLineTerminator(c)
  {
    assert Codes("123456789") == ['1' as nat, '2' as nat, '3' as nat, '4' as nat, '5' as nat, '6' as nat, '7' as nat,
                                  '8' as nat, '9' as nat];
    assert Codes("0123456789") == ['0' as nat] + Codes("123456789");
    assert Codes("\n\r\U{2028}\U{2029}") == [LF, CR, LS, PS];
  }

  /** The scan's bits and the place where it stops are those of the pieces that the text falls into. */
  lemma {:induction false} ScanIs(s: seq<nat>, i: nat, quote: nat, ps: seq<Piece>, ending: Ending)
    requires IsQuote(quote) && FallsInto(s, i, quote, ps, ending)
    ensures ScanFrom(s, i, quote) == Scan(SomeRefused(s, i, ps), SomeContinuation(ps),
                                          if ending == Shut then Some(i + |TextOf(ps)|) else None)
    decreases |ps|
  {
    if ps == [] {
      EndsScan(s, i, quote, ending);
    } else {
      hide ScanFrom, SomeRefused, SomeContinuation, IsRefused, IsContinuation, PieceText, FallsInto;
      FirstPiece(s, i, quote, ps, ending);
      FirstFits(s, i, quote, ps, ending);
      OnePiece(s, i, quote, ps[0], ps);
      RefusedLater(s, i, ps);
      ContinuedLater(ps);
      ScanIs(s, i + |PieceText(ps[0])|, quote, ps[1..], ending);
    }
  }

  lemma FirstFits(s: seq<nat>, i: nat, quote: nat, ps: seq<Piece>, ending: Ending)
    requires ps != [] && FallsInto(s, i, quote, ps, ending)
    ensures ps[0].One? ==> ps[0].c != quote && ps[0].c != '\\' as nat
  {
  }

  lemma EndsScan(s: seq<nat>, i: nat, quote: nat, ending: Ending)
    requires IsQuote(quote) && FallsInto(s, i, quote, [], ending)
    ensures ScanFrom(s, i, quote) == Scan(false, false, if ending == Shut then Some(i) else None)
  {
    var w := TailOf(ending, quote);
    assert TextOf([]) + w == w;
    assert w != [] ==> s[i] == s[i..i + |w|][0];
  }

  /** Every text falls into pieces. */
  lemma {:induction false} Falls(s: seq<nat>, i: nat, quote: nat) returns (ps: seq<Piece>, ending: Ending)
    requires i <= |s| && IsQuote(quote)
    ensures FallsInto(s, i, quote, ps, ending)
    decreases |s| - i
  {
    if i == |s| {
      ps, ending := [], Out;
    } else if s[i] == quote {
      ps, ending := [], Shut;
    } else if s[i] == '\\' as nat && i + 1 == |s| {
      ps, ending := [], OutAtBackslash;
    } else {
      var p := if s[i] == '\\' as nat then Pair(s[i + 1]) else One(s[i]);
      var rest, end := Falls(s, i + |PieceText(p)|, quote);
      ps, ending := [p] + rest, end;
      PieceFalls(s, i, quote, p, rest, end);
    }
  }

  lemma PieceFalls(s: seq<nat>, i: nat, quote: nat, p: Piece, rest: seq<Piece>, ending: Ending)
    requires (p.One? ==> p.c != quote && p.c != '\\' as nat)
    requires i + |PieceText(p)| <= |s| && s[i..i + |PieceText(p)|] == PieceText(p)
    requires FallsInto(s, i + |PieceText(p)|, quote, rest, ending)
    ensures FallsInto(s, i, quote, [p] + rest, ending)
  {
    var n, ps := |PieceText(p)|, [p] + rest;
    assert ps[1..] == rest;
    hide PieceText;
    var w := TextOf(rest) + TailOf(ending, quote);
    assert TextOf(ps) + TailOf(ending, quote) == PieceText(p) + w;
    assert s[i..i + n + |w|] == s[i..i + n] + s[i + n..i + n + |w|];
  }

  /**
    The check by the pieces: a string without a continuation is the engine's, one with a refused escape is
    refused at its quote, and every other is read here.
   */
  lemma CheckIs(s: seq<nat>, k: nat, syn: Syntax, backtick: bool, ps: seq<Piece>, ending: Ending)
    requires k < |s| && IsQuote(s[k]) && FallsInto(s, k + 1, s[k], ps, ending)
    ensures var verdict := FixedVerdict(s, k, syn, backtick);
            && (verdict.NotOurs? <==> !SomeContinuation(ps) || (s[k] == '`' as nat && !backtick))
            && (verdict.RefusedAtQuote? <==>
                  && SomeContinuation(ps) && SomeRefused(s, k + 1, ps) && (s[k] == '`' as nat ==> backtick))
  {
    hide ScanFrom, FallsInto, SomeContinuation, SomeRefused;
    ScanIs(s, k + 1, s[k], ps, ending);
  }
}
