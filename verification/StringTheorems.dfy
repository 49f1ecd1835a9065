/** What every reading of a literal keeps: the scan's answer, the value under continuations, the place. */
module StringTheorems {
  import opened Wrappers
  import opened StringLiteral
  import opened Surrogates

  // ---- The scan and the reader ----

  ghost predicate HasContinuation(items: seq<Item>) {
    exists k :: 0 <= k < |items| && items[k].piece.Continuation?
  }

  lemma ContinuationOfCons(item: Item, rest: seq<Item>)
    ensures HasContinuation([item] + rest) <==> item.piece.Continuation? || HasContinuation(rest)
  {
    var items := [item] + rest;
    if HasContinuation(rest) {
      var k :| 0 <= k < |rest| && rest[k].piece.Continuation?;
      assert items[k + 1].piece.Continuation?;
    }
    if item.piece.Continuation? {
      assert items[0].piece.Continuation?;
    }
  }

  /** Over plain characters the scan goes one by one. */
  lemma {:induction false} ScanSkips(s: seq<nat>, i: nat, n: nat, quote: nat)
    requires i + n <= |s| && forall k | i <= k < i + n :: s[k] != quote && s[k] != BACKSLASH
    ensures ScanFrom(s, i, quote) == ScanFrom(s, i + n, quote)
    decreases n
  {
    if n > 0 {
      ScanSkips(s, i + 1, n - 1, quote);
    }
  }

  /** The scan comes to the end of every item the reader takes, whatever the stride of each. */
  lemma ScanOverItem(s: seq<nat>, i: nat, quote: nat, syn: Syntax)
    requires i <= |s| && IsQuote(quote) && StepAt(s, i, quote, syn).Take?
    ensures var item := StepAt(s, i, quote, syn).item;
            var here, there := ScanFrom(s, i, quote), ScanFrom(s, i + item.len, quote);
            && here.stop == there.stop
            && here.continued == (item.piece.Continuation? || there.continued)
  {
    var item := StepAt(s, i, quote, syn).item;
    if s[i] == BACKSLASH {
      ScanSkips(s, i + 2, item.len - 2, quote);
    }
  }

  /**
    The reader and the scan agree, although they advance by different strides: a token ends just past
    the very quote where the scan stopped, an unterminated literal is one whose scan ran off the end,
    and the reader meets a continuation exactly when the scan has set its bit.
   */
  lemma {:induction false} ScanAgrees(s: seq<nat>, i: nat, quote: nat, syn: Syntax)
    requires i <= |s| && IsQuote(quote)
    ensures var reading, scan := ReadFrom(s, i, quote, syn), ScanFrom(s, i, quote);
            && (reading.end.Closed? ==> scan.stop == Some(reading.end.end - 1) && s[reading.end.end - 1] == quote)
            && (reading.end.Unterminated? ==> scan.stop == None)
            && (!reading.end.Failed? ==> (scan.continued <==> HasContinuation(reading.items)))
            && (HasContinuation(reading.items) ==> scan.continued)
    decreases |s| - i
  {
    hide StepAt, ReadFrom, ScanFrom, HasContinuation;
    var step := StepAt(s, i, quote, syn);
    if step.Take? {
      ScanAgrees(s, i + step.item.len, quote, syn);
      ScanOverItem(s, i, quote, syn);
      ReadTake(s, i, quote, syn, step.item);
      ContinuationOfCons(step.item, ReadFrom(s, i + step.item.len, quote, syn).items);
    } else {
      ReadStop(s, i, quote, syn);
      ScanStops(s, i, quote, syn);
    }
  }

  /** Where the reader takes no item the scan stops, if the reader ends there without an error. */
  lemma ScanStops(s: seq<nat>, i: nat, quote: nat, syn: Syntax)
    requires i <= |s| && IsQuote(quote) && !StepAt(s, i, quote, syn).Take?
    ensures StepAt(s, i, quote, syn).Close? ==>
              i < |s| && s[i] == quote && ScanFrom(s, i, quote) == Scan(false, false, Some(i))
    ensures StepAt(s, i, quote, syn).RunsOut? ==> ScanFrom(s, i, quote) == Scan(false, false, None)
    ensures !HasContinuation([])
  {
    hide HexRun, EscapeMap;
  }

  // ---- Readings of texts that agree where they are read ----

  /** An end read from place p, moved to where the same text stands from place q. */
  function Shifted(end: End, p: nat, q: nat): End
    requires end.Closed? ==> end.end >= p
    requires end.Failed? ==> end.at >= p
  {
    match end
    case Closed(e) => Closed(e - p + q)
    case Failed(why, at, span) => Failed(why, at - p + q, span)
    case Unterminated => Unterminated
  }

  lemma {:induction false} HexRunShift(s: seq<nat>, p: nat, t: seq<nat>, q: nat, d: nat, n: nat)
    requires p + d <= |s| && q <= |t| && s[p..] == t[q..]
    ensures HexRun(s, p + d, n) == HexRun(t, q + d, n)
  {
    assert |s| - p == |t| - q;
    if n > 0 {
      HexRunShift(s, p, t, q, d, n - 1);
      if p + d + n <= |s| {
        assert s[p..][d + n - 1] == t[q..][d + n - 1];
      }
    }
  }

  /** What stands at a place depends on the rest of the text alone. */
  lemma StepShift(s: seq<nat>, p: nat, t: seq<nat>, q: nat, quote: nat, syn: Syntax)
    requires p <= |s| && q <= |t| && s[p..] == t[q..]
    ensures StepAt(s, p, quote, syn) == StepAt(t, q, quote, syn)
  {
    assert |s| - p == |t| - q;
    if p + 2 <= |s| {
      HexRunShift(s, p, t, q, 2, 2);
      HexRunShift(s, p, t, q, 2, 4);
    }
    hide HexRun;
    if p < |s| {
      assert s[p] == s[p..][0] == t[q..][0] == t[q];
    }
    if p + 1 < |s| {
      assert s[p + 1] == s[p..][1] == t[q..][1] == t[q + 1];
    }
    if p + 2 < |s| {
      assert s[p + 2] == s[p..][2] == t[q..][2] == t[q + 2];
    }
  }

  lemma {:induction false} ReadShift(s: seq<nat>, p: nat, t: seq<nat>, q: nat, quote: nat, syn: Syntax)
    requires p <= |s| && q <= |t| && s[p..] == t[q..]
    ensures ReadFrom(t, q, quote, syn)
            == Reading(ReadFrom(s, p, quote, syn).items, Shifted(ReadFrom(s, p, quote, syn).end, p, q))
    decreases |s| - p
  {
    hide StepAt, ReadFrom;
    StepShift(s, p, t, q, quote, syn);
    var step := StepAt(s, p, quote, syn);
    if step.Take? {
      var n := step.item.len;
      SuffixOfSuffix(s, p, n);
      SuffixOfSuffix(t, q, n);
      ReadShift(s, p + n, t, q + n, quote, syn);
      ReadTake(s, p, quote, syn, step.item);
      ReadTake(t, q, quote, syn, step.item);
    } else {
      ReadStop(s, p, quote, syn);
      ReadStop(t, q, quote, syn);
    }
  }

  lemma SuffixOfSuffix(s: seq<nat>, p: nat, n: nat)
    requires p + n <= |s|
    ensures s[p + n..] == s[p..][n..]
  {
  }

  /** A reading that takes an item. */
  lemma ReadTake(s: seq<nat>, i: nat, quote: nat, syn: Syntax, item: Item)
    requires i <= |s| && StepAt(s, i, quote, syn) == Take(item) && i + item.len <= |s|
    ensures var rest := ReadFrom(s, i + item.len, quote, syn);
            ReadFrom(s, i, quote, syn) == Reading([item] + rest.items, rest.end)
  {
    hide StepAt;
  }

  /** A reading that ends where it begins. */
  lemma ReadStop(s: seq<nat>, i: nat, quote: nat, syn: Syntax)
    requires i <= |s| && !StepAt(s, i, quote, syn).Take?
    ensures ReadFrom(s, i, quote, syn) == Reading([], EndAt(StepAt(s, i, quote, syn), i))
  {
    hide StepAt;
  }

  lemma {:induction false} HexRunLocal(s: seq<nat>, t: seq<nat>, p: nat, n: nat, j: nat)
    requires p + n <= j <= |s| && j <= |t| && s[..j] == t[..j]
    ensures HexRun(s, p, n) == HexRun(t, p, n)
  {
    if n > 0 {
      HexRunLocal(s, t, p, n - 1, j);
      assert s[..j][p + n - 1] == t[..j][p + n - 1];
    }
  }

  /** An item is read from its own characters, but for the line feed that a final CR would take along. */
  lemma StepLocal(s: seq<nat>, t: seq<nat>, p: nat, j: nat, quote: nat, syn: Syntax)
    requires p <= |s| && StepAt(s, p, quote, syn).Take?
    requires p + StepAt(s, p, quote, syn).item.len <= j <= |s| && j <= |t| && s[..j] == t[..j]
    requires j < |t| ==> t[j] != LF
    ensures StepAt(t, p, quote, syn) == StepAt(s, p, quote, syn)
  {
    var item := StepAt(s, p, quote, syn).item;
    assert forall k | 0 <= k < j :: s[k] == s[..j][k] == t[..j][k] == t[k];
    if item.len == 4 {
      HexRunLocal(s, t, p + 2, 2, j);
    }
    if item.len == 6 {
      HexRunLocal(s, t, p + 2, 4, j);
    }
    hide HexRun;
  }

  // ---- Continuations add nothing ----

  predicate IsContinuation(c: seq<nat>) {
    || (|c| == 2 && c[0] == BACKSLASH && IsLineTerminator(c[1]))
    || c == [BACKSLASH, CR, LF]
  }

  function Inserted(s: seq<nat>, j: nat, c: seq<nat>): seq<nat>
    requires j <= |s|
  {
    s[..j] + c + s[j..]
  }

  lemma InsertedAt(s: seq<nat>, k: nat, c: seq<nat>)
    requires k <= |s| && c != []
    ensures var t := Inserted(s, k, c); |t| == |s| + |c| && t[..k] == s[..k] && t[k] == c[0]
  {
  }

  lemma NothingReached(s: seq<nat>, i: nat, quote: nat, syn: Syntax, j: nat)
    requires i <= |s| && j <= |s| && Reached(s, i, quote, syn, [], j)
    ensures i == j
  {
  }

  /** The items before an insertion are read as they were. */
  lemma {:induction false} ReachedStays(s: seq<nat>, i: nat, quote: nat, syn: Syntax, done: seq<Item>, j: nat,
                                        k: nat, c: seq<nat>)
    requires i <= |s| && j <= k <= |s| && Reached(s, i, quote, syn, done, j)
    requires c != [] && c[0] == BACKSLASH
    ensures i <= j
    ensures Reached(Inserted(s, k, c), i, quote, syn, done, j)
    decreases |done|
  {
    hide Reached, ReadFrom, StepAt, Inserted;
    var t := Inserted(s, k, c);
    InsertedAt(s, k, c);
    if done == [] {
      NothingReached(s, i, quote, syn, j);
      ReachedStart(t, i, quote, syn);
    } else {
      FirstReached(s, i, quote, syn, done, j);
      var item := done[0];
      ReachedStays(s, i + item.len, quote, syn, done[1..], j, k, c);
      StepLocal(s, t, i, k, quote, syn);
      ReachedCons(t, i, quote, syn, item, done[1..], j);
      assert [item] + done[1..] == done;
    }
  }

  lemma {:induction false} LengthCons(item: Item, rest: seq<Item>)
    ensures Length([item] + rest) == item.len + Length(rest)
  {
    if rest == [] {
      assert [item] + rest == [item];
      assert [item][..0] == [];
    } else {
      var n := |rest| - 1;
      assert ([item] + rest)[..n + 1] == [item] + rest[..n];
      LengthCons(item, rest[..n]);
    }
  }

  lemma FirstReached(s: seq<nat>, i: nat, quote: nat, syn: Syntax, done: seq<Item>, j: nat)
    requires i <= |s| && j <= |s| && Reached(s, i, quote, syn, done, j) && done != []
    ensures StepAt(s, i, quote, syn) == Take(done[0]) && i + done[0].len <= |s|
    ensures Reached(s, i + done[0].len, quote, syn, done[1..], j)
  {
    var step, on := StepAt(s, i, quote, syn), ReadFrom(s, j, quote, syn);
    assert ReadFrom(s, i, quote, syn).items == done + on.items;
    assert (done + on.items)[0] == done[0];
    assert step.Take?;
    assert ([step.item] + ReadFrom(s, i + step.item.len, quote, syn).items)[1..] == done[1..] + on.items;
    assert done == [done[0]] + done[1..];
    LengthCons(done[0], done[1..]);
  }

  lemma ReachedCons(s: seq<nat>, i: nat, quote: nat, syn: Syntax, item: Item, done: seq<Item>, j: nat)
    requires i <= |s| && j <= |s| && StepAt(s, i, quote, syn) == Take(item) && i + item.len <= |s|
    requires Reached(s, i + item.len, quote, syn, done, j)
    ensures Reached(s, i, quote, syn, [item] + done, j)
  {
    hide ReadFrom, StepAt, Length;
    ReadTake(s, i, quote, syn, item);
    var on := ReadFrom(s, j, quote, syn);
    assert [item] + (done + on.items) == [item] + done + on.items;
    LengthCons(item, done);
  }

  lemma {:induction false} UnitsConcat(a: seq<Item>, b: seq<Item>)
    ensures Units(a + b) == Units(a) + Units(b)
  {
    hide PieceUnits;
    if b == [] {
      assert a + b == a;
      assert Units(a) + [] == Units(a);
    } else {
      var n := |b| - 1;
      assert (a + b)[..|a| + n] == a + b[..n];
      UnitsConcat(a, b[..n]);
      Associates(Units(a), Units(b[..n]), PieceUnits(b[n].piece));
    }
  }

  /**
    A continuation between two complete items of a readable literal is transparent: the reading goes on
    as before, one item longer, and the value keeps every code unit. The halves of an escaped surrogate
    pair are items, so a pair is still a pair around one. So too for a port that reads characters.
   */
  lemma {:induction false} ContinuationIsTransparent(s: seq<nat>, i: nat, quote: nat, syn: Syntax, done: seq<Item>,
                                                     j: nat, c: seq<nat>)
    requires i <= |s| && j <= |s| && Reached(s, i, quote, syn, done, j) && IsQuote(quote) && !syn.multiLine
    requires ReadFrom(s, i, quote, syn).end.Closed? && IsContinuation(c)
    ensures i <= |Inserted(s, j, c)|
    ensures var before, after := ReadFrom(s, i, quote, syn), ReadFrom(Inserted(s, j, c), i, quote, syn);
            && after.end == Closed(before.end.end + |c|)
            && |after.items| == |before.items| + 1
            && Units(after.items) == Units(before.items) && ItemUnits(after.items) == ItemUnits(before.items)
  {
    hide StepAt, Units, ItemUnits, Length;
    var t := Inserted(s, j, c);
    var item := Item(|c|, Continuation(if |c| == 3 then LF else c[1]));
    ReachedStays(s, i, quote, syn, done, j, j, c);
    NoLineFeedNext(s, i, quote, syn, done, j);
    InsertedStep(s, j, c, quote, syn);
    InsertedReads(s, j, c, quote, syn, item);
    var on := ReadFrom(s, j, quote, syn);
    hide ReadFrom, StepAt, Inserted, Units, ItemUnits, Length;
    assert ReadFrom(t, i, quote, syn) == Reading(done + ([item] + on.items), Shifted(on.end, j, j + |c|));
    assert ReadFrom(s, i, quote, syn) == Reading(done + on.items, on.end);
    hide Reached;
    UnitsAround(done, item, on.items);
    ItemUnitsAround(done, item, on.items);
  }

  lemma {:induction false} ItemUnitsConcat(a: seq<Item>, b: seq<Item>)
    ensures ItemUnits(a + b) == ItemUnits(a) + ItemUnits(b)
    decreases |b|
  {
    hide ItemUnits, CharUnits;
    if b == [] {
      NoItemUnits();
      assert a + b == a && ItemUnits(a) + [] == ItemUnits(a);
    } else {
      var n := |b| - 1;
      ItemUnitsConcat(a, b[..n]);
      ItemUnitsSnoc(a + b[..n], b[n]);
      ItemUnitsSnoc(b[..n], b[n]);
      assert a + b == a + b[..n] + [b[n]] && b == b[..n] + [b[n]];
      Associates(ItemUnits(a), ItemUnits(b[..n]), CharUnits(b[n].piece));
    }
  }

  lemma Associates(a: seq<nat>, b: seq<nat>, c: seq<nat>)
    ensures a + b + c == a + (b + c)
  {
  }

  lemma ItemUnitsAround(done: seq<Item>, item: Item, rest: seq<Item>)
    requires item.piece.Continuation?
    ensures ItemUnits(done + ([item] + rest)) == ItemUnits(done + rest)
  {
    hide ItemUnits;
    ItemUnitsConcat(done, rest);
    ItemUnitsConcat(done, [item] + rest);
    ItemUnitsConcat([item], rest);
    ItemUnitsSnoc([], item);
    NoItemUnits();
    assert [] + [item] == [item] && [] + ItemUnits(rest) == ItemUnits(rest);
  }

  lemma NoItemUnits()
    ensures ItemUnits([]) == []
  {
  }

  lemma UnitsAround(done: seq<Item>, item: Item, rest: seq<Item>)
    requires item.piece.Continuation?
    ensures Units(done + ([item] + rest)) == Units(done + rest)
  {
    hide Units;
    UnitsConcat(done, rest);
    UnitsConcat(done, [item] + rest);
    UnitsConcat([item], rest);
    OneItem(item);
    assert [] + Units(rest) == Units(rest);
  }

  /** In a readable literal that is not multi-line, no item's border is before a raw line feed. */
  lemma NoLineFeedNext(s: seq<nat>, i: nat, quote: nat, syn: Syntax, done: seq<Item>, j: nat)
    requires i <= |s| && j <= |s| && Reached(s, i, quote, syn, done, j) && IsQuote(quote) && !syn.multiLine
    requires ReadFrom(s, i, quote, syn).end.Closed?
    ensures j < |s| ==> s[j] != LF
  {
  }

  /** What was inserted is one item. */
  lemma InsertedStep(s: seq<nat>, j: nat, c: seq<nat>, quote: nat, syn: Syntax)
    requires j <= |s| && IsContinuation(c) && IsQuote(quote) && (j < |s| ==> s[j] != LF)
    ensures j + |c| <= |Inserted(s, j, c)|
    ensures StepAt(Inserted(s, j, c), j, quote, syn) == Take(Item(|c|, Continuation(if |c| == 3 then LF else c[1])))
  {
    var t := Inserted(s, j, c);
    assert t[j] == c[0] && t[j + 1] == c[1];
    assert |c| == 3 ==> t[j + 2] == c[2];
    assert j < |s| ==> t[j + |c|] == s[j];
    hide HexRun, EscapeMap;
  }

  /** And what follows it is read as before. */
  lemma InsertedReads(s: seq<nat>, j: nat, c: seq<nat>, quote: nat, syn: Syntax, item: Item)
    requires j <= |s| && j <= |Inserted(s, j, c)| && StepAt(Inserted(s, j, c), j, quote, syn) == Take(item)
    requires item.len == |c|
    ensures var on := ReadFrom(s, j, quote, syn);
            ReadFrom(Inserted(s, j, c), j, quote, syn) == Reading([item] + on.items, Shifted(on.end, j, j + |c|))
  {
    hide StepAt, Inserted, ReadFrom, IsContinuation;
    InsertedTail(s, j, c);
    TakenThenShifted(Inserted(s, j, c), j, s, j, quote, syn, item);
  }

  lemma InsertedTail(s: seq<nat>, j: nat, c: seq<nat>)
    requires j <= |s|
    ensures j + |c| <= |Inserted(s, j, c)| && Inserted(s, j, c)[j + |c|..] == s[j..]
  {
  }

  lemma TakenThenShifted(t: seq<nat>, q: nat, s: seq<nat>, p: nat, quote: nat, syn: Syntax, item: Item)
    requires q + item.len <= |t| && p <= |s| && t[q + item.len..] == s[p..] && StepAt(t, q, quote, syn) == Take(item)
    ensures var on := ReadFrom(s, p, quote, syn);
            ReadFrom(t, q, quote, syn) == Reading([item] + on.items, Shifted(on.end, p, q + item.len))
  {
    hide StepAt, ReadFrom;
    ReadShift(s, p, t, q + item.len, quote, syn);
    ReadTake(t, q, quote, syn, item);
  }

  lemma OneItem(item: Item)
    ensures Units([item]) == PieceUnits(item.piece)
  {
    assert [item][..0] == [];
    assert Units([]) + PieceUnits(item.piece) == PieceUnits(item.piece);
  }

  /**
    And it never completes a partial escape: put among the characters of a `\x` or `\u` escape it refuses
    the literal at that escape's own backslash, with the items before it as they were.
   */
  lemma ContinuationCompletesNothing(s: seq<nat>, i: nat, quote: nat, syn: Syntax, done: seq<Item>, j: nat,
                                     k: nat, c: seq<nat>)
    requires i <= |s| && j <= |s| && Reached(s, i, quote, syn, done, j) && IsQuote(quote)
    requires StepAt(s, j, quote, syn).Take? && StepAt(s, j, quote, syn).item.piece.Unit?
    requires j + 1 < k < j + StepAt(s, j, quote, syn).item.len && IsContinuation(c)
    ensures i <= |Inserted(s, k, c)|
    ensures var why, span := if s[j + 1] == 'u' as nat then InvalidUnicode else InvalidAscii,
                             if s[j + 1] == 'u' as nat then 6 else 4;
            ReadFrom(Inserted(s, k, c), i, quote, syn) == Reading(done, Failed(why, j, span))
  {
    var t := Inserted(s, k, c);
    ReachedStays(s, i, quote, syn, done, j, k, c);
    BrokenEscape(s, j, quote, syn, k, c);
    hide StepAt, Inserted;
    ReadStop(t, j, quote, syn);
    assert done + [] == done;
  }

  lemma BrokenEscape(s: seq<nat>, j: nat, quote: nat, syn: Syntax, k: nat, c: seq<nat>)
    requires j <= |s| && IsQuote(quote) && StepAt(s, j, quote, syn).Take? && StepAt(s, j, quote, syn).item.piece.Unit?
    requires j + 1 < k < j + StepAt(s, j, quote, syn).item.len && IsContinuation(c)
    ensures j <= |Inserted(s, k, c)|
    ensures StepAt(Inserted(s, k, c), j, quote, syn)
            == Bad(if s[j + 1] == 'u' as nat then InvalidUnicode else InvalidAscii, 0,
                   if s[j + 1] == 'u' as nat then 6 else 4)
  {
    var t := Inserted(s, k, c);
    var n := StepAt(s, j, quote, syn).item.len - 2;
    assert t[j] == s[j] && t[j + 1] == s[j + 1] && t[k] == BACKSLASH;
    NoRunOver(t, j + 2, n, k);
    hide HexRun, EscapeMap;
  }

  lemma NoRunOver(t: seq<nat>, at: nat, n: nat, k: nat)
    requires at <= k < at + n && k < |t| && t[k] == BACKSLASH
    ensures HexRun(t, at, n) == None
  {
    hide HexRun;
    assert HexDigit(BACKSLASH) == None;
  }

  // ---- Rows and columns, item by item ----

  predicate BreaksRow(item: Item) {
    item.piece.Continuation? && IsRowChar(item.piece.ender)
  }

  function RowBreaks(items: seq<Item>): nat {
    if items == [] then 0
    else RowBreaks(items[..|items| - 1]) + (if BreaksRow(items[|items| - 1]) then 1 else 0)
  }

  /** How many characters stand after the last item that ends a row. */
  function SinceBreak(items: seq<Item>): nat {
    if items == [] || BreaksRow(items[|items| - 1]) then 0
    else SinceBreak(items[..|items| - 1]) + items[|items| - 1].len
  }

  /** A lone CR is the two columns the source has. */
  ghost predicate WellSpelled(items: seq<Item>) {
    forall k | 0 <= k < |items| :: items[k].piece == Continuation(CR) ==> items[k].len == 2
  }

  lemma {:induction false} ReadingIsWellSpelled(s: seq<nat>, i: nat, quote: nat, syn: Syntax)
    requires i <= |s|
    ensures WellSpelled(ReadFrom(s, i, quote, syn).items)
    ensures forall item <- ReadFrom(s, i, quote, syn).items | item.piece.Continuation? ::
        IsLineTerminator(item.piece.ender)
    decreases |s| - i
  {
    var step := StepAt(s, i, quote, syn);
    if step.Take? {
      ReadingIsWellSpelled(s, i + step.item.len, quote, syn);
    }
  }

  /** In a single- or double-quoted literal the items' rows are counted by those that end one. */
  lemma {:induction false} PlaceOfItems(port: Port, syn: Syntax, p: Place, items: seq<Item>)
    requires !syn.multiLine && WellSpelled(items)
    requires forall item <- items | item.piece.Continuation? :: IsLineTerminator(item.piece.ender)
    ensures AdvanceAll(port, syn, p, items)
            == Place(p.row + RowBreaks(items), if RowBreaks(items)
                == 0 then p.col + Length(items) else 1 + SinceBreak(items))
  {
    if items != [] {
      PlaceOfItems(port, syn, p, items[..|items| - 1]);
      assert items[|items| - 1] in items;
    }
  }
}
