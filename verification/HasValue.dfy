/**
  Whether a source can begin a value, or is only white space and comments: `hasValue` in the three ports,
  and the rule for sources without a value that is built on it.
 */
module HasValue {
  import opened Wrappers
  import opened Numerals
  import opened Utf
  import opened StringLiteral

  /** ECMAScript's white space and line terminators: the `Zs` category of Unicode, and those named. */
  predicate IsSpace(c: nat) {
    || (0x09 <= c <= 0x0D) || c == 0x20 || c == 0xA0 || c == 0x1680 || (0x2000 <= c <= 0x200A)
    || c == LS || c == PS || c == 0x202F || c == 0x205F || c == 0x3000 || c == 0xFEFF
  }

  const SLASH: nat := '/' as nat
  const STAR: nat := '*' as nat
  const HASH: nat := '#' as nat

  // ---- The specification: trivia, one piece at a time ----

  /** The first line terminator from a place on, or the end. */
  function LineEnd(s: seq<nat>, i: nat): (e: nat)
    requires i <= |s|
    ensures i <= e <= |s| && (e < |s| ==> IsLineTerminator(s[e]))
    ensures forall k | i <= k < e :: !IsLineTerminator(s[k])
    decreases |s| - i
  {
    if i == |s| || IsLineTerminator(s[i]) then i else LineEnd(s, i + 1)
  }

  predicate ClosesAt(s: seq<nat>, k: nat) {
    k + 1 < |s| && s[k] == STAR && s[k + 1] == SLASH
  }

  /** The first end of a block comment from a place on. */
  function Close(s: seq<nat>, i: nat): (r: Option<nat>)
    ensures r.Some? ==> i <= r.value && ClosesAt(s, r.value) && forall k | i <= k < r.value :: !ClosesAt(s, k)
    ensures r.None? ==> forall k | i <= k :: !ClosesAt(s, k)
    decreases |s| - i
  {
    if i + 1 >= |s| then None else if ClosesAt(s, i) then Some(i) else Close(s, i + 1)
  }

  /** Where the white space or comment at a place ends, if there is one and it is closed. */
  function TriviaEnd(s: seq<nat>, i: nat, hash: bool): (r: Option<nat>)
    requires i < |s|
    ensures r.Some? ==> i < r.value <= |s|
  {
    if IsSpace(s[i]) then Some(i + 1)
    else if hash && s[i] == HASH then Some(LineEnd(s, i + 1))
    else if s[i] == SLASH && i + 1 < |s| && s[i + 1] == SLASH then Some(LineEnd(s, i + 2))
    else if s[i] == SLASH && i + 1 < |s| && s[i + 1] == STAR then
      match Close(s, i + 2)
      case None => None
      case Some(k) => Some(k + 2)
    else None
  }

  /** Only trivia from a place on. */
  predicate OnlyTrivia(s: seq<nat>, i: nat, hash: bool)
    requires i <= |s|
    decreases |s| - i
  {
    i == |s| || (TriviaEnd(s, i, hash).Some? && OnlyTrivia(s, TriviaEnd(s, i, hash).value, hash))
  }

  // ---- The scan ----

  /** hasValue and has_value. The Go copy is this one with `hash` false. */
  method HasValueScan(src: seq<nat>, hash: bool) returns (has: bool)
    ensures has == !OnlyTrivia(src, 0, hash)
  {
    var n := |src|;
    var i := 0;
    while i < n
      invariant i <= n && OnlyTrivia(src, i, hash) == OnlyTrivia(src, 0, hash)
    {
      var c := src[i];
      if IsSpace(c) {
        i := i + 1;
        continue;
      }
      if hash && c == HASH {
        i := SkipLine(src, i + 1);
        continue;
      }
      if c == SLASH && i + 1 < n {
        var d := src[i + 1];
        if d == SLASH {
          i := SkipLine(src, i + 2);
          continue;
        }
        if d == STAR {
          var end := IndexOfClose(src, i + 2);
          if end < 0 {
            return true;
          }
          i := end + 2;
          continue;
        }
      }
      return true;
    }
    has := false;
  }

  method SkipLine(src: seq<nat>, start: nat) returns (i: nat)
    requires start <= |src|
    ensures i == LineEnd(src, start)
  {
    i := start;
    while i < |src| && !IsLineTerminator(src[i])
      invariant start <= i <= |src| && LineEnd(src, i) == LineEnd(src, start)
    {
      i := i + 1;
    }
  }

  /** `indexOf` with the two characters of a block comment's end, or -1. */
  method IndexOfClose(src: seq<nat>, start: nat) returns (end: int)
    ensures end == match Close(src, start) case None => -1 case Some(k) => k
  {
    end := -1;
    var k := start;
    while k + 1 < |src|
      invariant k >= start && Close(src, k) == Close(src, start)
    {
      if src[k] == STAR && src[k + 1] == SLASH {
        return k;
      }
      k := k + 1;
    }
  }

  // ---- What a source without a value is ----

  /** White space, a line comment, a block comment, or a hash comment. */
  datatype Piece = Space(c: nat) | Line(body: seq<nat>) | Block(body: seq<nat>) | Hash(body: seq<nat>)

  function PieceText(p: Piece): seq<nat> {
    match p
    case Space(c) => [c]
    case Line(body) => ['/' as nat, '/' as nat] + body
    case Block(body) => ['/' as nat, '*' as nat] + body + ['*' as nat, '/' as nat]
    case Hash(body) => ['#' as nat] + body
  }

  /** The white space of the language, one by one. */
  const SPACES := "\t\n\U{B}\U{C}\r \U{A0}\U{1680}\U{2000}\U{2001}\U{2002}\U{2003}\U{2004}\U{2005}\U{2006}"
    + "\U{2007}\U{2008}\U{2009}\U{200A}\U{2028}\U{2029}\U{202F}\U{205F}\U{3000}\U{FEFF}"

  ghost predicate OneLine(body: seq<nat>) {
    forall k | 0 <= k < |body| :: body[k] !in Codes("\n\r\U{2028}\U{2029}")
  }

  lemma LineEndsAre(c: nat)
    ensures IsLineTerminator(c) <==> c in Codes("\n\r\U{2028}\U{2029}")
  {
    assert Codes("\n\r\U{2028}\U{2029}") == [LF, CR, LS, PS];
  }

  lemma OneLineIs(body: seq<nat>)
    ensures OneLine(body) <==> forall k | 0 <= k < |body| :: !IsLineTerminator(body[k])
  {
    hide IsLineTerminator;
    forall k | 0 <= k < |body| ensures IsLineTerminator(body[k]) <==> body[k] in Codes("\n\r\U{2028}\U{2029}") {
      LineEndsAre(body[k]);
    }
  }

  lemma SpacesAre(c: nat)
    ensures IsSpace(c) <==> c in Codes(SPACES)
  {
    var codes := Codes(SPACES);
    if IsSpace(c) {
      var k := if c <= 0x0D then c - 0x09 else if c == 0x20 then 5 else if c == 0xA0 then 6 else if c == 0x1680 then 7
               else if c <= 0x200A then c - 0x2000 + 8 else if c == 0x2028 then 19 else if c == 0x2029 then 20
               else if c == 0x202F then 21 else if c == 0x205F then 22 else if c == 0x3000 then 23 else 24;
      assert codes[k] == c;
    }
  }

  /** A piece of its kind. A block comment is closed where it first can be. */
  ghost predicate IsPiece(p: Piece, hash: bool) {
    match p
    case Space(c) => c in Codes(SPACES)
    case Line(body) => OneLine(body)
    case Block(body) => forall k | 0 <= k < |body| :: !ClosesAt(body + [STAR, SLASH], k)
    case Hash(body) => hash && OneLine(body)
  }

  /** Pieces in a row, where a line or hash comment goes on to the end of its line. */
  ghost predicate AreTrivia(pieces: seq<Piece>, hash: bool) {
    pieces == [] || (
      && IsPiece(pieces[0], hash)
      && (pieces[0].Line? || pieces[0].Hash? ==>
            |pieces| == 1 || (pieces[1].Space? && IsLineTerminator(pieces[1].c)))
      && AreTrivia(pieces[1..], hash))
  }

  function Text(pieces: seq<Piece>): seq<nat> {
    if pieces == [] then [] else PieceText(pieces[0]) + Text(pieces[1..])
  }

  /** The source splits into white space, line comments, closed block comments and, when enabled, hash comments. */
  ghost predicate Splits(s: seq<nat>, hash: bool) {
    exists pieces: seq<Piece> :: AreTrivia(pieces, hash) && Text(pieces) == s
  }

  lemma {:induction false} LineEndUnique(s: seq<nat>, i: nat, e: nat)
    requires i <= e <= |s| && (e < |s| ==> IsLineTerminator(s[e])) && forall k | i <= k < e :: !IsLineTerminator(s[k])
    ensures LineEnd(s, i) == e
  {
  }

  lemma CloseUnique(s: seq<nat>, i: nat, k: nat)
    requires i <= k && ClosesAt(s, k) && forall j | i <= j < k :: !ClosesAt(s, j)
    ensures Close(s, i) == Some(k)
  {
    assert Close(s, i).Some?;
  }

  /** The piece at a place whose trivia ends. */
  function PieceAt(s: seq<nat>, i: nat, hash: bool): Piece
    requires i < |s| && TriviaEnd(s, i, hash).Some?
  {
    var e := TriviaEnd(s, i, hash).value;
    if IsSpace(s[i]) then Space(s[i])
    else if s[i] == HASH then Hash(s[i + 1..e])
    else if s[i + 1] == SLASH then Line(s[i + 2..e])
    else Block(s[i + 2..e - 2])
  }

  lemma PieceAtIsPiece(s: seq<nat>, i: nat, hash: bool)
    requires i < |s| && TriviaEnd(s, i, hash).Some?
    ensures var p, e := PieceAt(s, i, hash), TriviaEnd(s, i, hash).value;
            && IsPiece(p, hash) && PieceText(p) == s[i..e]
            && (p.Line? || p.Hash? ==> e == |s| || IsLineTerminator(s[e]))
  {
    hide Close, LineEnd, IsPiece, PieceText, OneLine;
    var e := TriviaEnd(s, i, hash).value;
    if IsSpace(s[i]) {
      SpaceAt(s, i, hash);
    } else if s[i] == HASH {
      HashAt(s, i, e);
    } else if s[i + 1] == SLASH {
      LineAt(s, i, e, hash);
    } else {
      BlockAt(s, i, e - 2, hash);
    }
  }

  lemma SpaceAt(s: seq<nat>, i: nat, hash: bool)
    requires i < |s| && IsSpace(s[i])
    ensures IsPiece(Space(s[i]), hash) && PieceText(Space(s[i])) == s[i..i + 1]
  {
    SpacesAre(s[i]);
  }

  lemma HashAt(s: seq<nat>, i: nat, e: nat)
    requires i < |s| && s[i] == HASH && e == LineEnd(s, i + 1)
    ensures IsPiece(Hash(s[i + 1..e]), true) && PieceText(Hash(s[i + 1..e])) == s[i..e]
  {
    OneLineIs(s[i + 1..e]);
    FirstOfSlice(s, i, e);
  }

  lemma LineAt(s: seq<nat>, i: nat, e: nat, hash: bool)
    requires i + 1 < |s| && s[i] == SLASH && s[i + 1] == SLASH && e == LineEnd(s, i + 2)
    ensures IsPiece(Line(s[i + 2..e]), hash) && PieceText(Line(s[i + 2..e])) == s[i..e]
  {
    OneLineIs(s[i + 2..e]);
    FirstOfSlice(s, i, e);
    FirstOfSlice(s, i + 1, e);
  }

  lemma BlockAt(s: seq<nat>, i: nat, k: nat, hash: bool)
    requires i + 1 < |s| && s[i] == SLASH && s[i + 1] == STAR && Close(s, i + 2) == Some(k)
    ensures i + 2 <= k && k + 2 <= |s| && IsPiece(Block(s[i + 2..k]), hash)
        && PieceText(Block(s[i + 2..k])) == s[i..k + 2]
  {
    var body := s[i + 2..k];
    FirstOfSlice(s, i, k + 2);
    FirstOfSlice(s, i + 1, k + 2);
    assert body + [STAR, SLASH] == s[i + 2..k + 2];
    forall j | 0 <= j < |body| ensures !ClosesAt(body + [STAR, SLASH], j) {
      assert !ClosesAt(s, i + 2 + j);
    }
  }

  lemma FirstOfSlice(s: seq<nat>, i: nat, e: nat)
    requires i < e <= |s|
    ensures s[i..e] == [s[i]] + s[i + 1..e]
  {
  }

  lemma {:induction false} TriviaSplits(s: seq<nat>, i: nat, hash: bool) returns (pieces: seq<Piece>)
    requires i <= |s| && OnlyTrivia(s, i, hash)
    ensures AreTrivia(pieces, hash) && Text(pieces) == s[i..]
    ensures if i < |s| then pieces != [] && (IsLineTerminator(s[i]) ==> pieces[0] == Space(s[i])) else pieces == []
    decreases |s| - i
  {
    hide LineEnd, Close, TriviaEnd, IsPiece, PieceText, Text, AreTrivia;
    if i == |s| {
      NothingSplits(hash);
      pieces := [];
    } else {
      var e := TriviaEnd(s, i, hash).value;
      var rest := TriviaSplits(s, e, hash);
      PieceAtIsPiece(s, i, hash);
      PieceThenPieces(PieceAt(s, i, hash), rest, hash);
      pieces := [PieceAt(s, i, hash)] + rest;
      assert s[i..] == s[i..e] + s[e..];
    }
  }

  lemma NothingSplits(hash: bool)
    ensures AreTrivia([], hash) && Text([]) == []
  {
  }

  lemma {:induction false} PieceThenPieces(p: Piece, rest: seq<Piece>, hash: bool)
    requires IsPiece(p, hash) && AreTrivia(rest, hash)
    requires p.Line? || p.Hash? ==> rest == [] || (rest[0].Space? && IsLineTerminator(rest[0].c))
    ensures AreTrivia([p] + rest, hash) && Text([p] + rest) == PieceText(p) + Text(rest)
  {
    assert ([p] + rest)[1..] == rest;
  }

  /** At a place where a piece stands, with what may follow it, the scan ends where the piece does. */
  lemma PieceEnds(s: seq<nat>, i: nat, hash: bool, p: Piece, rest: seq<nat>)
    requires i <= |s| && s[i..] == PieceText(p) + rest && IsPiece(p, hash)
    requires p.Line? || p.Hash? ==> rest == [] || IsLineTerminator(rest[0])
    ensures i < |s| && TriviaEnd(s, i, hash) == Some(i + |PieceText(p)|)
  {
    hide Close, LineEnd, ClosesAt, OneLine, TriviaEnd;
    match p {
      case Space(c) => SpaceEnds(s, i, hash, c, rest);
      case Line(body) => LinePieceEnds(s, i, body, rest, hash);
      case Hash(body) => HashPieceEnds(s, i, body, rest);
      case Block(body) => BlockPieceEnds(s, i, body, rest, hash);
    }
  }

  lemma SpaceEnds(s: seq<nat>, i: nat, hash: bool, c: nat, rest: seq<nat>)
    requires i <= |s| && s[i..] == [c] + rest && c in Codes(SPACES)
    ensures i < |s| && TriviaEnd(s, i, hash) == Some(i + 1)
  {
    SpacesAre(c);
    assert s[i] == s[i..][0];
  }

  lemma HashPieceEnds(s: seq<nat>, i: nat, body: seq<nat>, rest: seq<nat>)
    requires i <= |s| && s[i..] == [HASH] + body + rest && OneLine(body) && (rest == [] || IsLineTerminator(rest[0]))
    ensures i < |s| && TriviaEnd(s, i, true) == Some(i + 1 + |body|)
  {
    hide Close, LineEnd, ClosesAt, OneLine;
    assert s[i] == s[i..][0];
    assert s[i + 1..] == s[i..][1..] == body + rest;
    LineEnds(s, i + 1, body, rest);
  }

  lemma LinePieceEnds(s: seq<nat>, i: nat, body: seq<nat>, rest: seq<nat>, hash: bool)
    requires i <= |s| && s[i..] == [SLASH, SLASH] + body + rest && OneLine(body)
        && (rest == [] || IsLineTerminator(rest[0]))
    ensures i < |s| && TriviaEnd(s, i, hash) == Some(i + 2 + |body|)
  {
    hide Close, LineEnd, ClosesAt, OneLine;
    assert s[i] == s[i..][0] && s[i + 1] == s[i..][1];
    assert s[i + 2..] == s[i..][2..] == body + rest;
    LineEnds(s, i + 2, body, rest);
  }

  lemma BlockPieceEnds(s: seq<nat>, i: nat, body: seq<nat>, rest: seq<nat>, hash: bool)
    requires i <= |s| && s[i..] == [SLASH, STAR] + body + [STAR, SLASH] + rest
    requires forall k | 0 <= k < |body| :: !ClosesAt(body + [STAR, SLASH], k)
    ensures i < |s| && TriviaEnd(s, i, hash) == Some(i + 2 + |body| + 2)
  {
    hide Close, LineEnd, ClosesAt;
    assert s[i] == s[i..][0] && s[i + 1] == s[i..][1];
    assert s[i + 2..] == s[i..][2..] == body + [STAR, SLASH] + rest;
    BlockEnds(s, i + 2, body, rest);
  }

  lemma LineEnds(s: seq<nat>, i: nat, body: seq<nat>, rest: seq<nat>)
    requires i <= |s| && s[i..] == body + rest && OneLine(body) && (rest == [] || IsLineTerminator(rest[0]))
    ensures LineEnd(s, i) == i + |body|
  {
    OneLineIs(body);
    hide OneLine;
    assert forall k | i <= k < i + |body| :: s[k] == s[i..][k - i] == body[k - i];
    assert rest != [] ==> s[i + |body|] == s[i..][|body|] == rest[0];
    LineEndUnique(s, i, i + |body|);
  }

  lemma BlockEnds(s: seq<nat>, i: nat, body: seq<nat>, rest: seq<nat>)
    requires i <= |s| && s[i..] == body + [STAR, SLASH] + rest
    requires forall k | 0 <= k < |body| :: !ClosesAt(body + [STAR, SLASH], k)
    ensures Close(s, i) == Some(i + |body|)
  {
    var closed := body + [STAR, SLASH];
    assert forall k | i <= k < i + |closed| :: s[k] == s[i..][k - i] == closed[k - i];
    forall j | i <= j < i + |body| ensures !ClosesAt(s, j) {
      assert !ClosesAt(closed, j - i);
    }
    CloseUnique(s, i, i + |body|);
  }

  lemma {:induction false} SplitIsTrivia(s: seq<nat>, i: nat, hash: bool, pieces: seq<Piece>)
    requires i <= |s| && AreTrivia(pieces, hash) && Text(pieces) == s[i..]
    ensures OnlyTrivia(s, i, hash)
    decreases |pieces|
  {
    hide IsPiece, PieceText, TriviaEnd;
    if pieces != [] {
      var rest := Text(pieces[1..]);
      if |pieces| > 1 {
        FirstText(pieces[1..]);
      }
      PieceEnds(s, i, hash, pieces[0], rest);
      var e := i + |PieceText(pieces[0])|;
      assert s[e..] == s[i..][|PieceText(pieces[0])|..] == rest;
      SplitIsTrivia(s, e, hash, pieces[1..]);
    }
  }

  lemma FirstText(pieces: seq<Piece>)
    requires pieces != []
    ensures Text(pieces) != [] && (pieces[0].Space? ==> Text(pieces)[0] == pieces[0].c)
  {
  }

  /** The scan answers no exactly when the whole source splits into white space and comments. */
  lemma NoValueIffSplits(s: seq<nat>, hash: bool)
    ensures OnlyTrivia(s, 0, hash) <==> Splits(s, hash)
  {
    assert s[0..] == s;
    if OnlyTrivia(s, 0, hash) {
      var pieces := TriviaSplits(s, 0, hash);
    }
    if Splits(s, hash) {
      var pieces: seq<Piece> :| AreTrivia(pieces, hash) && Text(pieces) == s;
      SplitIsTrivia(s, 0, hash, pieces);
    }
  }

  // ---- Laws ----

  /** Hash comments only ever take a value away. */
  lemma {:induction false} HashOnlyTakesAway(s: seq<nat>, i: nat)
    requires i <= |s| && OnlyTrivia(s, i, false)
    ensures OnlyTrivia(s, i, true)
    decreases |s| - i
  {
    if i < |s| {
      HashOnlyTakesAway(s, TriviaEnd(s, i, false).value);
    }
  }

  /** Trivia within a prefix ends where it did when a line feed follows the prefix. */
  lemma TriviaWithin(p: seq<nat>, after: seq<nat>, i: nat, hash: bool)
    requires i < |p| && TriviaEnd(p, i, hash).Some?
    ensures TriviaEnd(p + [LF] + after, i, hash) == TriviaEnd(p, i, hash)
  {
    var s := p + [LF] + after;
    assert forall k | 0 <= k < |p| :: s[k] == p[k];
    assert s[|p|] == LF;
    if IsSpace(p[i]) {
    } else if hash && p[i] == HASH {
      LineEndUnique(s, i + 1, LineEnd(p, i + 1));
    } else if p[i + 1] == SLASH {
      LineEndUnique(s, i + 2, LineEnd(p, i + 2));
    } else {
      var k := Close(p, i + 2).value;
      forall j | i + 2 <= j < k ensures !ClosesAt(s, j) {
        assert !ClosesAt(p, j);
      }
      CloseUnique(s, i + 2, k);
    }
  }

  lemma {:induction false} TriviaPrefix(p: seq<nat>, after: seq<nat>, i: nat, hash: bool)
    requires i <= |p| && OnlyTrivia(p, i, hash)
    ensures OnlyTrivia(p + [LF] + after, i, hash) == OnlyTrivia(p + [LF] + after, |p| + 1, hash)
    decreases |p| - i
  {
    if i < |p| {
      TriviaWithin(p, after, i, hash);
      TriviaPrefix(p, after, TriviaEnd(p, i, hash).value, hash);
    } else {
      assert (p + [LF] + after)[|p|] == LF;
    }
  }

  lemma LineEndShift(s: seq<nat>, i: nat, t: seq<nat>, j: nat, d: nat)
    requires i + d <= |s| && j <= |t| && s[i..] == t[j..]
    ensures j + d <= |t| && LineEnd(t, j + d) == LineEnd(s, i + d) - i + j
  {
    assert |s| - i == |t| - j;
    assert forall k | j <= k < |t| :: t[k] == t[j..][k - j] == s[i..][k - j] == s[k - j + i];
    LineEndUnique(t, j + d, LineEnd(s, i + d) - i + j);
  }

  lemma ClosesShift(s: seq<nat>, i: nat, t: seq<nat>, j: nat, d: nat)
    requires i <= |s| && j <= |t| && s[i..] == t[j..]
    ensures ClosesAt(s, i + d) == ClosesAt(t, j + d)
  {
    assert |s| - i == |t| - j;
    if i + d + 1 < |s| {
      assert s[i + d] == s[i..][d] == t[j..][d] == t[j + d];
      assert s[i + d + 1] == s[i..][d + 1] == t[j..][d + 1] == t[j + d + 1];
    }
  }

  lemma CloseShift(s: seq<nat>, i: nat, t: seq<nat>, j: nat, d: nat)
    requires i <= |s| && j <= |t| && s[i..] == t[j..]
    ensures Close(t, j + d) == match Close(s, i + d)
                               case None => None
                               case Some(k) => Some(k - i + j)
  {
    hide ClosesAt;
    if Close(s, i + d).Some? {
      var k := Close(s, i + d).value;
      forall m | j + d <= m < k - i + j ensures !ClosesAt(t, m) {
        ClosesShift(s, i, t, j, m - j);
        assert !ClosesAt(s, m - j + i);
      }
      ClosesShift(s, i, t, j, k - i);
      CloseUnique(t, j + d, k - i + j);
    } else if Close(t, j + d).Some? {
      var m := Close(t, j + d).value;
      ClosesShift(s, i, t, j, m - j);
      assert false;
    }
  }

  /** What stands at a place depends on the rest of the text alone. */
  lemma TriviaShift(s: seq<nat>, i: nat, t: seq<nat>, j: nat, hash: bool)
    requires i < |s| && j < |t| && s[i..] == t[j..]
    ensures TriviaEnd(t, j, hash) == match TriviaEnd(s, i, hash)
                                     case None => None
                                     case Some(e) => Some(e - i + j)
  {
    hide LineEnd, Close, ClosesAt;
    assert |s| - i == |t| - j;
    assert s[i] == s[i..][0] == t[j..][0] == t[j];
    LineEndShift(s, i, t, j, 1);
    if i + 1 < |s| {
      assert s[i + 1] == s[i..][1] == t[j..][1] == t[j + 1];
      LineEndShift(s, i, t, j, 2);
      CloseShift(s, i, t, j, 2);
    }
  }

  lemma {:induction false} OnlyTriviaShift(s: seq<nat>, i: nat, t: seq<nat>, j: nat, hash: bool)
    requires i <= |s| && j <= |t| && s[i..] == t[j..]
    ensures OnlyTrivia(s, i, hash) == OnlyTrivia(t, j, hash)
    decreases |s| - i
  {
    hide TriviaEnd;
    assert |s| - i == |t| - j;
    if i < |s| {
      TriviaShift(s, i, t, j, hash);
      if TriviaEnd(s, i, hash).Some? {
        var n := TriviaEnd(s, i, hash).value - i;
        assert s[i + n..] == s[i..][n..] && t[j + n..] == t[j..][n..];
        OnlyTriviaShift(s, i + n, t, j + n, hash);
      }
    }
  }

  /** A prefix without a value, on lines of its own, never changes the answer for what follows. */
  lemma PrefixIsNothing(p: seq<nat>, after: seq<nat>, hash: bool)
    requires OnlyTrivia(p, 0, hash)
    ensures OnlyTrivia(p + [LF] + after, 0, hash) == OnlyTrivia(after, 0, hash)
  {
    var s := p + [LF] + after;
    TriviaPrefix(p, after, 0, hash);
    assert s[|p| + 1..] == after[0..];
    OnlyTriviaShift(s, |p| + 1, after, 0, hash);
  }

  // ---- Code units and characters ----

  lemma UnitsFrom(text: seq<nat>, k: nat)
    requires Scalars(text) && k < |text|
    ensures var u, at := Utf16(text), Offset16(text, k);
            && Offset16(text, k + 1) <= |u|
            && (text[k] < 0x10000 ==> Offset16(text, k + 1) == at + 1 && u[at] == text[k])
            && (text[k] >= 0x10000 ==>
                  Offset16(text, k + 1) == at + 2 && 0xD800 <= u[at] < 0xDC00 && 0xDC00 <= u[at + 1] < 0xE000)
    ensures Offset16(text, k + 1) == |Utf16(text)| <==> k + 1 == |text|
  {
    hide Utf16, Offset16;
    UnitsAt(text, k);
    Offset16Step(text, k);
    if k + 1 < |text| {
      UnitsAt(text, k + 1);
    } else {
      Offset16End(text);
    }
  }

  lemma {:induction false} LineEndUnits(text: seq<nat>, k: nat)
    requires Scalars(text) && k <= |text|
    ensures Offset16(text, k) <= |Utf16(text)|
    ensures LineEnd(Utf16(text), Offset16(text, k)) == Offset16(text, LineEnd(text, k))
    decreases |text| - k
  {
    hide Utf16, Offset16;
    Offset16End(text);
    if k < |text| {
      UnitsFrom(text, k);
      LineEndUnits(text, k + 1);
      if text[k] >= 0x10000 {
        assert LineEnd(Utf16(text), Offset16(text, k)) == LineEnd(Utf16(text), Offset16(text, k) + 1);
      }
    }
  }

  lemma ClosesAtUnits(text: seq<nat>, k: nat)
    requires Scalars(text) && k < |text|
    ensures ClosesAt(Utf16(text), Offset16(text, k)) == ClosesAt(text, k)
    ensures ClosesAt(text, k) ==> Offset16(text, k + 2) == Offset16(text, k) + 2
    ensures text[k] >= 0x10000 ==> !ClosesAt(Utf16(text), Offset16(text, k) + 1)
  {
    hide Utf16, Offset16;
    UnitsFrom(text, k);
    if k + 1 < |text| {
      UnitsFrom(text, k + 1);
    }
  }

  lemma {:induction false} CloseUnits(text: seq<nat>, k: nat)
    requires Scalars(text) && k <= |text|
    ensures match Close(text, k)
            case None => Close(Utf16(text), Offset16(text, k)) == None
            case Some(c) => c + 2 <= |text| && Close(Utf16(text), Offset16(text, k)) == Some(Offset16(text, c))
                            && Offset16(text, c + 2) == Offset16(text, c) + 2
    decreases |text| - k
  {
    hide Utf16, Offset16, ClosesAt;
    Offset16End(text);
    if k < |text| {
      UnitsFrom(text, k);
      ClosesAtUnits(text, k);
      CloseUnits(text, k + 1);
      CloseStep(text, k);
      CloseStep(Utf16(text), Offset16(text, k));
      if text[k] >= 0x10000 {
        CloseStep(Utf16(text), Offset16(text, k) + 1);
      }
      assert ClosesAt(text, k) ==> k + 2 <= |text| by {
        CloseStep(text, k);
      }
    }
  }

  lemma CloseStep(s: seq<nat>, i: nat)
    ensures Close(s, i) == if ClosesAt(s, i) then Some(i) else Close(s, i + 1)
    ensures ClosesAt(s, i) ==> i + 2 <= |s|
  {
  }

  lemma TriviaUnits(text: seq<nat>, k: nat, hash: bool)
    requires Scalars(text) && k < |text|
    ensures Offset16(text, k) < |Utf16(text)|
    ensures TriviaEnd(Utf16(text), Offset16(text, k), hash) == match TriviaEnd(text, k, hash)
                                                               case None => None
                                                               case Some(e) => Some(Offset16(text, e))
  {
    hide Utf16, Offset16, LineEnd, Close;
    UnitsFrom(text, k);
    LineEndUnits(text, k + 1);
    if k + 1 < |text| {
      UnitsFrom(text, k + 1);
      LineEndUnits(text, k + 2);
      CloseUnits(text, k + 2);
    }
  }

  /** TypeScript scans code units, Go and Rust characters, and the answer is one. */
  lemma {:induction false} PortsAgree(text: seq<nat>, k: nat, hash: bool)
    requires Scalars(text) && k <= |text|
    ensures Offset16(text, k) <= |Utf16(text)|
    ensures OnlyTrivia(Utf16(text), Offset16(text, k), hash) == OnlyTrivia(text, k, hash)
    decreases |text| - k
  {
    hide Utf16, Offset16, TriviaEnd;
    Offset16End(text);
    if k < |text| {
      UnitsFrom(text, k);
      TriviaUnits(text, k, hash);
      if TriviaEnd(text, k, hash).Some? {
        PortsAgree(text, TriviaEnd(text, k, hash).value, hash);
      }
    }
  }

  // ---- The rule for sources without a value ----

  /** How a source is taken: refused, or given to the engine. */
  datatype Taken = Json5Empty | Json5NoValue | Engine(src: seq<nat>)

  /**
    The `parser.start` wrappers and parse_with. With requireValue a source of trivia is refused, hash
    comments not counting as such; without it, it is the empty source to the engine.
   */
  method ParseWith(requireValue: bool, hash: bool, src: seq<nat>) returns (taken: Taken)
    ensures taken == Json5Empty <==> requireValue && src == []
    ensures taken == Json5NoValue <==> requireValue && src != [] && Splits(src, false)
    ensures taken.Engine? ==> taken.src == if !requireValue && Splits(src, hash) then [] else src
  {
    NoValueIffSplits(src, false);
    NoValueIffSplits(src, hash);
    if requireValue {
      if src == [] {
        return Json5Empty;
      }
      var has := HasValueScan(src, false);
      if !has {
        return Json5NoValue;
      }
    } else if src != [] {
      var has := HasValueScan(src, hash);
      if !has {
        return Engine([]);
      }
    }
    taken := Engine(src);
  }
}
