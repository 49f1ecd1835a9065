/**
  The renderer against trees: a run keeps, in its one stack of markers, exactly enough to be the
  prefix of a tree's walk, and what it has written is exactly that prefix's text.
 */
module RenderProofs {
  import opened Wrappers
  import opened Renderer

  // ---- The text of a run, with the record ends in it ----

  datatype Piece = Tok(token: Token) | Mark

  function Toks(tokens: seq<Token>): seq<Piece> {
    seq(|tokens|, i requires 0 <= i < |tokens| => Tok(tokens[i]))
  }

  function Flat(outputs: seq<Output>): seq<Piece> {
    if outputs == [] then []
    else (if outputs[0].RecordEnd? then [Mark] else Toks(outputs[0].tokens)) + Flat(outputs[1..])
  }

  lemma Assoc<T>(a: seq<T>, b: seq<T>, c: seq<T>)
    ensures (a + b) + c == a + (b + c)
  {
  }

  lemma {:induction false} FlatConcat(a: seq<Output>, b: seq<Output>)
    ensures Flat(a + b) == Flat(a) + Flat(b)
  {
    if a == [] {
      assert a + b == b;
    } else {
      assert (a + b)[1..] == a[1..] + b;
      FlatConcat(a[1..], b);
    }
  }

  lemma FlatSingle(o: Output)
    ensures Flat([o]) == if o.RecordEnd? then [Mark] else Toks(o.tokens)
  {
    assert [o][1..] == [];
  }

  lemma FlatPair(a: seq<Token>, b: seq<Token>)
    ensures Flat([Emit(a), Emit(b)]) == Toks(a) + Toks(b) == Toks(a + b)
  {
    FlatConcat([Emit(a)], [Emit(b)]);
    FlatSingle(Emit(a));
    FlatSingle(Emit(b));
    assert [Emit(a)] + [Emit(b)] == [Emit(a), Emit(b)];
  }

  lemma FlatTriple(a: seq<Token>, b: seq<Token>, c: seq<Token>)
    ensures Flat([Emit(a), Emit(b), Emit(c)]) == Toks(a) + Toks(b) + Toks(c) == Toks(a + b + c)
  {
    FlatConcat([Emit(a), Emit(b)], [Emit(c)]);
    FlatPair(a, b);
    FlatSingle(Emit(c));
    assert [Emit(a), Emit(b)] + [Emit(c)] == [Emit(a), Emit(b), Emit(c)];
  }

  lemma FlatEnded(s: Stack, outputs: seq<Output>)
    ensures Flat(Ended(s, outputs)) == Flat(outputs) + (if |s| == 1 then [Mark] else [])
  {
    FlatConcat(outputs, [RecordEnd]);
    FlatSingle(RecordEnd);
  }

  // ---- Partly built trees ----

  /** An open container: the values it holds, and the key that waits for one. */
  datatype Frame = ArrFrame(items: seq<Tree>) | ObjFrame(members: seq<Entry>, key: Option<string>)

  datatype Build = Building(frames: seq<Frame>) | Finished(root: Tree)

  /** Every open container but the innermost is waiting for the value inside it. */
  predicate Valid(b: Build) {
    b.Building? ==> forall i | 0 <= i < |b.frames| - 1 :: TakesValue(b.frames[i])
  }

  predicate TakesValue(f: Frame) {
    f.ArrFrame? || f.key.Some?
  }

  predicate CanTakeValue(frames: seq<Frame>) {
    frames == [] || TakesValue(frames[|frames| - 1])
  }

  function WithValue(f: Frame, t: Tree): Frame
    requires TakesValue(f)
  {
    match f
    case ArrFrame(items) => ArrFrame(items + [t])
    case ObjFrame(members, key) => ObjFrame(members + [Entry(key.value, t)], None)
  }

  function AddValue(frames: seq<Frame>, t: Tree): Build
    requires CanTakeValue(frames)
  {
    if frames == [] then Finished(t)
    else Building(frames[..|frames| - 1] + [WithValue(frames[|frames| - 1], t)])
  }

  /** One event read as the construction of a tree, or None when no tree goes on so. */
  function BuildStep(b: Build, event: Event): Option<Build>
    requires Valid(b)
  {
    if b.Finished? then None
    else
      var frames := b.frames;
      var n := |frames|;
      match event
      case ArrayStart => if CanTakeValue(frames) then Some(Building(frames + [ArrFrame([])])) else None
      case ObjectStart => if CanTakeValue(frames) then Some(Building(frames + [ObjFrame([], None)])) else None
      case Value(scalar) => if CanTakeValue(frames) then Some(AddValue(frames, Leaf(scalar))) else None
      case Key(name) =>
        if n > 0 && frames[n - 1].ObjFrame? && frames[n - 1].key == None
        then Some(Building(frames[..n - 1] + [ObjFrame(frames[n - 1].members, Some(name))]))
        else None
      case ArrayEnd =>
        if n > 0 && frames[n - 1].ArrFrame?
        then Some(AddValue(frames[..n - 1], Arr(frames[n - 1].items)))
        else None
      case ObjectEnd =>
        if n > 0 && frames[n - 1].ObjFrame? && frames[n - 1].key == None
        then Some(AddValue(frames[..n - 1], Obj(frames[n - 1].members)))
        else None
  }

  // ---- What a partly built tree looks like to the renderer ----

  function MarkerOf(f: Frame, innermost: bool): Marker {
    match f
    case ArrFrame(items) => if innermost && items == [] then ArrayOpen else Array
    case ObjFrame(members, key) => if key.Some? then Member else if members == [] then ObjectOpen else Object
  }

  function Markers(b: Build): Stack {
    match b
    case Finished(_) => [RootDone]
    case Building(frames) =>
      seq(|frames|, i requires 0 <= i < |frames| => MarkerOf(frames[i], i == |frames| - 1))
  }

  // ---- The events a partly built tree has had ----

  function FrameEvents(f: Frame): seq<Event> {
    match f
    case ArrFrame(items) => [ArrayStart] + ItemEvents(items)
    case ObjFrame(members, key) => [ObjectStart] + MemberEvents(members) + (if key.Some? then [Key(key.value)] else [])
  }

  function FramesEvents(frames: seq<Frame>): seq<Event> {
    if frames == [] then [] else FramesEvents(frames[..|frames| - 1]) + FrameEvents(frames[|frames| - 1])
  }

  function BuildEvents(b: Build): seq<Event> {
    if b.Finished? then Events(b.root) else FramesEvents(b.frames)
  }

  // ---- The text a partly built tree has had ----

  /** A container's own text so far; one that waits for an inner value has written the comma before it. */
  function FrameTokens(f: Frame, innermost: bool): seq<Token> {
    match f
    case ArrFrame(items) =>
      [Punctuation('[')] + PrintItems(items) + (if innermost then [] else CommaAfter(|items|))
    case ObjFrame(members, key) =>
      [Punctuation('{')] + PrintMembers(members) + PendingKey(|members|, key)
  }

  function PendingKey(n: nat, key: Option<string>): seq<Token> {
    if key.Some? then CommaAfter(n) + [Quoted(key.value)] + COLON else []
  }

  /** The root's items, each a record. */
  function MarkedItems(items: seq<Tree>): seq<Piece> {
    if items == [] then []
    else
      MarkedItems(items[..|items| - 1]) + Toks(CommaAfter(|items| - 1) + Print(items[|items| - 1])) + [Mark]
  }

  function MemberTokens(n: nat, e: Entry): seq<Token> {
    CommaAfter(n) + [Quoted(e.name)] + COLON + Print(e.value)
  }

  function MarkedMembers(members: seq<Entry>): seq<Piece> {
    if members == [] then []
    else
      MarkedMembers(members[..|members| - 1]) + Toks(MemberTokens(|members| - 1, members[|members| - 1])) + [Mark]
  }

  /** The root container's text so far, with the record ends in it. */
  function RootPieces(f: Frame, innermost: bool): seq<Piece> {
    match f
    case ArrFrame(items) =>
      Toks([Punctuation('[')]) + [Mark] + MarkedItems(items) + Toks(if innermost then [] else CommaAfter(|items|))
    case ObjFrame(members, key) =>
      Toks([Punctuation('{')]) + [Mark] + MarkedMembers(members) + Toks(PendingKey(|members|, key))
  }

  function LevelPieces(f: Frame, isRoot: bool, innermost: bool): seq<Piece> {
    if isRoot then RootPieces(f, innermost) else Toks(FrameTokens(f, innermost))
  }

  /** The text of the containers around the innermost. */
  function OuterPieces(frames: seq<Frame>): seq<Piece> {
    if frames == [] then []
    else OuterPieces(frames[..|frames| - 1]) + LevelPieces(frames[|frames| - 1], |frames| == 1, false)
  }

  /** A whole document: the root's opener, each root child and the closer end records. */
  function RecordPieces(t: Tree): seq<Piece> {
    match t
    case Leaf(scalar) => Toks([ScalarToken(scalar)] + LINE_FEED) + [Mark]
    case Arr(items) => RootPieces(ArrFrame(items), true) + Toks([Punctuation(']')] + LINE_FEED) + [Mark]
    case Obj(members) => RootPieces(ObjFrame(members, None), true) + Toks([Punctuation('}')] + LINE_FEED) + [Mark]
  }

  function Pieces(b: Build): seq<Piece> {
    match b
    case Finished(root) => RecordPieces(root)
    case Building(frames) =>
      if frames == [] then []
      else OuterPieces(frames[..|frames| - 1]) + LevelPieces(frames[|frames| - 1], |frames| == 1, true)
  }

  // ---- One step: the renderer does to the markers and the text what the event does to the tree ----

  /** Going inside a container that takes a value writes the comma the value needs. */
  lemma InsideWritesLead(f: Frame, isRoot: bool)
    requires TakesValue(f)
    ensures LevelPieces(f, isRoot, false)
            == LevelPieces(f, isRoot, true) + Toks(if f.ArrFrame? then CommaAfter(|f.items|) else [])
  {
  }

  lemma ToksConcat(a: seq<Token>, b: seq<Token>)
    ensures Toks(a + b) == Toks(a) + Toks(b)
  {
  }

  /** A value completed inside a container is its comma and its text, and at the root a record. */
  lemma ValueExtendsLevel(f: Frame, isRoot: bool, t: Tree)
    requires TakesValue(f)
    ensures LevelPieces(WithValue(f, t), isRoot, true)
            == LevelPieces(f, isRoot, false) + Toks(Print(t)) + (if isRoot then [Mark] else [])
  {
    match f
    case ArrFrame(items) => ItemExtends(items, t);
    case ObjFrame(members, key) => MemberExtends(members, key.value, t);
  }

  lemma ItemExtends(items: seq<Tree>, t: Tree)
    ensures Toks(FrameTokens(ArrFrame(items + [t]), true)) == Toks(FrameTokens(ArrFrame(items), false)) + Toks(Print(t))
    ensures RootPieces(ArrFrame(items + [t]), true) == RootPieces(ArrFrame(items), false) + Toks(Print(t)) + [Mark]
  {
    ItemTokens(items, t);
    ItemPieces(items, t);
    hide Print, Toks, FrameTokens, RootPieces;
    ToksConcat(FrameTokens(ArrFrame(items), false), Print(t));
  }

  lemma ItemTokens(items: seq<Tree>, t: Tree)
    ensures FrameTokens(ArrFrame(items + [t]), true) == FrameTokens(ArrFrame(items), false) + Print(t)
  {
    hide Print, CommaAfter;
    assert (items + [t])[..|items|] == items;
    var open, printed, comma, text := [Punctuation('[')], PrintItems(items), CommaAfter(|items|), Print(t);
    assert open + (printed + (comma + text)) + [] == open + printed + comma + text;
  }

  lemma ItemPieces(items: seq<Tree>, t: Tree)
    ensures RootPieces(ArrFrame(items + [t]), true) == RootPieces(ArrFrame(items), false) + Toks(Print(t)) + [Mark]
  {
    hide Print, Toks, CommaAfter;
    assert (items + [t])[..|items|] == items;
    ToksConcat(CommaAfter(|items|), Print(t));
    ToksNil();
    var open, marked, comma, text := Toks([Punctuation('[')]) + [Mark], MarkedItems(items),
        Toks(CommaAfter(|items|)), Toks(Print(t));
    assert open + (marked + (comma + text) + [Mark]) + [] == open + marked + comma + text + [Mark];
  }

  lemma ToksNil()
    ensures Toks([]) == []
  {
  }

  lemma MemberExtends(members: seq<Entry>, key: string, t: Tree)
    ensures var more, f := ObjFrame(members + [Entry(key, t)], None), ObjFrame(members, Some(key));
            && FrameTokens(more, true) == FrameTokens(f, false) + Print(t)
            && Toks(FrameTokens(more, true)) == Toks(FrameTokens(f, false)) + Toks(Print(t))
            && RootPieces(more, true) == RootPieces(f, false) + Toks(Print(t)) + [Mark]
  {
    hide Print, Toks;
    assert (members + [Entry(key, t)])[..|members|] == members;
    var f := ObjFrame(members, Some(key));
    ToksConcat(PendingKey(|members|, Some(key)), Print(t));
    ToksConcat(FrameTokens(f, false), Print(t));
    ToksNil();
  }

  lemma LeadOfTop(frames: seq<Frame>)
    requires frames != [] && TakesValue(frames[|frames| - 1]) && Valid(Building(frames))
    ensures var f := frames[|frames| - 1];
            Lead(Markers(Building(frames))) == if f.ArrFrame? then CommaAfter(|f.items|) else []
  {
  }

  /** The outer text up to and with a container that takes a value. */
  lemma OuterSnoc(frames: seq<Frame>, f: Frame)
    ensures OuterPieces(frames + [f]) == OuterPieces(frames) + LevelPieces(f, frames == [], false)
  {
    assert (frames + [f])[..|frames|] == frames;
  }

  lemma EventsSnoc(frames: seq<Frame>, f: Frame)
    ensures FramesEvents(frames + [f]) == FramesEvents(frames) + FrameEvents(f)
  {
    assert (frames + [f])[..|frames|] == frames;
  }

  // The four kinds of step.

  ghost predicate Simulates(b: Build, event: Event)
    requires Valid(b)
  {
    var built, step := BuildStep(b, event), Step(Markers(b), event);
    && (built.Some? <==> step.Ok?)
    && (built.Some? ==>
          && Valid(built.value)
          && step.value.state == Markers(built.value)
          && Pieces(built.value) == Pieces(b) + Flat(step.value.outputs)
          && BuildEvents(built.value) == BuildEvents(b) + [event])
  }

  /** The text of open containers, seen from the innermost. */
  lemma PiecesSnoc(frames: seq<Frame>, f: Frame)
    ensures Pieces(Building(frames + [f])) == OuterPieces(frames) + LevelPieces(f, frames == [], true)
  {
    assert (frames + [f])[..|frames|] == frames;
  }

  lemma MarkersSnoc(frames: seq<Frame>, f: Frame)
    ensures |Markers(Building(frames + [f]))| == |frames| + 1
    ensures Top(Markers(Building(frames + [f]))) == Some(MarkerOf(f, true))
    ensures Pop(Markers(Building(frames + [f]))) == OuterMarkers(frames)
    ensures Markers(Building(frames + [f])) == OuterMarkers(frames) + [MarkerOf(f, true)]
  {
  }

  /** The markers of containers around another. */
  function OuterMarkers(frames: seq<Frame>): Stack {
    seq(|frames|, i requires 0 <= i < |frames| => MarkerOf(frames[i], false))
  }

  /** Adding a completed value to open containers: markers, text and events at once. */
  lemma ValueCompletes(frames: seq<Frame>, f: Frame, t: Tree)
    requires TakesValue(f) && Valid(Building(frames + [f]))
    ensures CanTakeValue(frames + [f])
    ensures var b := AddValue(frames + [f], t);
            && Valid(b)
            && Pieces(b) == OuterPieces(frames + [f]) + Toks(Print(t)) + (if frames == [] then [Mark] else [])
            && BuildEvents(b) == FramesEvents(frames + [f]) + Events(t)
            && Markers(b) == Done(Opened(Markers(Building(frames + [f]))))
  {
    hide Print, Events, Toks, OuterPieces, LevelPieces, Pieces, Markers, FramesEvents, FrameEvents, OuterMarkers;
    var g := WithValue(f, t);
    assert (frames + [f])[..|frames|] == frames;
    assert AddValue(frames + [f], t) == Building(frames + [g]);
    ValidSnoc(frames, f, g);
    OuterSnoc(frames, f);
    PiecesSnoc(frames, g);
    EventsSnoc(frames, f);
    EventsSnoc(frames, g);
    MarkersSnoc(frames, f);
    MarkersSnoc(frames, g);
    ValueExtendsLevel(f, frames == [], t);
    ValueExtendsEvents(f, t);
  }

  /** Only the containers around the innermost decide validity. */
  lemma ValidSnoc(frames: seq<Frame>, f: Frame, g: Frame)
    ensures Valid(Building(frames + [f])) == Valid(Building(frames + [g]))
    ensures Valid(Building(frames + [f])) ==> Valid(Building(frames))
    ensures Valid(Building(frames)) && CanTakeValue(frames) ==> Valid(Building(frames + [f]))
  {
    if Valid(Building(frames + [f])) {
      assert forall i | 0 <= i < |frames| :: (frames + [f])[i] == frames[i] == (frames + [g])[i];
    }
    if Valid(Building(frames + [g])) {
      assert forall i | 0 <= i < |frames| :: (frames + [f])[i] == frames[i] == (frames + [g])[i];
    }
  }

  lemma ValueExtendsEvents(f: Frame, t: Tree)
    requires TakesValue(f)
    ensures FrameEvents(WithValue(f, t)) == FrameEvents(f) + Events(t)
  {
    match f
    case ArrFrame(items) =>
      assert (items + [t])[..|items|] == items;
    case ObjFrame(members, key) =>
      assert (members + [Entry(key.value, t)])[..|members|] == members;
  }

  lemma NoLead()
    ensures Lead(Markers(Building([]))) == [] && Toks([]) == []
  {
  }

  /** What the text grows by when a value begins: the comma before it. */
  lemma LeadExtends(frames: seq<Frame>)
    requires CanTakeValue(frames) && Valid(Building(frames))
    ensures OuterPieces(frames) == Pieces(Building(frames)) + Toks(Lead(Markers(Building(frames))))
  {
    hide Toks, LevelPieces, Markers, Lead;
    if frames != [] {
      var n := |frames| - 1;
      assert frames == frames[..n] + [frames[n]];
      OuterSnoc(frames[..n], frames[n]);
      LeadOfTop(frames);
      InsideWritesLead(frames[n], n == 0);
      var lead := Toks(Lead(Markers(Building(frames))));
      Assoc(OuterPieces(frames[..n]), LevelPieces(frames[n], n == 0, true), lead);
    } else {
      NoLead();
    }
  }

  lemma OpenSimulates(b: Build, event: Event)
    requires Valid(b) && b.Building? && (event == ArrayStart || event == ObjectStart)
    ensures Simulates(b, event)
  {
    hide Toks, OuterPieces, LevelPieces, Pieces, Flat, Markers, FramesEvents, FrameEvents, Lead;
    var frames := b.frames;
    TopMarker(frames);
    if CanTakeValue(frames) {
      var f := if event == ArrayStart then ArrFrame([]) else ObjFrame([], None);
      var opener := [Punctuation(if event == ArrayStart then '[' else '{')];
      ValidSnoc(frames, f, f);
      PiecesSnoc(frames, f);
      LeadExtends(frames);
      EventsSnoc(frames, f);
      ToksNil();
      EmptyLevel(f, frames == [], opener);
      var s := Markers(b);
      FlatPair(Lead(s), opener);
      FlatEnded(Markers(Building(frames + [f])), [Emit(Lead(s)), Emit(opener)]);
      OpenedMarkers(frames, f);
      EmptyFrameEvents();
      var mark := if frames == [] then [Mark] else [];
      Assoc(Toks(Lead(s)), Toks(opener), mark);
      Assoc(Pieces(b), Toks(Lead(s)), Toks(opener) + mark);
    }
  }

  lemma EmptyFrameEvents()
    ensures FrameEvents(ArrFrame([])) == [ArrayStart] && FrameEvents(ObjFrame([], None)) == [ObjectStart]
  {
  }

  lemma EmptyLevel(f: Frame, isRoot: bool, opener: seq<Token>)
    requires || (f == ArrFrame([]) && opener == [Punctuation('[')])
             || (f == ObjFrame([], None) && opener == [Punctuation('{')])
    ensures LevelPieces(f, isRoot, true) == Toks(opener) + (if isRoot then [Mark] else [])
  {
  }

  /** The top marker tells what may come next. */
  lemma TopMarker(frames: seq<Frame>)
    ensures frames == [] ==> Top(Markers(Building(frames))) == None
    ensures frames != [] ==> Top(Markers(Building(frames))) == Some(MarkerOf(frames[|frames| - 1], true))
    ensures |Markers(Building(frames))| == |frames|
  {
  }

  lemma OpenedMarkers(frames: seq<Frame>, f: Frame)
    requires CanTakeValue(frames) && Valid(Building(frames))
    ensures Markers(Building(frames + [f])) == Opened(Markers(Building(frames))) + [MarkerOf(f, true)]
  {
  }

  lemma KeySimulates(b: Build, name: string)
    requires Valid(b) && b.Building?
    ensures Simulates(b, Key(name))
  {
    hide Toks, OuterPieces, LevelPieces, Pieces, Flat, Markers, FramesEvents, FrameEvents;
    var frames := b.frames;
    var n := |frames|;
    TopMarker(frames);
    if n > 0 && frames[n - 1].ObjFrame? && frames[n - 1].key == None {
      var init, f := frames[..n - 1], frames[n - 1];
      var g := ObjFrame(f.members, Some(name));
      assert frames == init + [f];
      ValidSnoc(init, f, g);
      PiecesSnoc(init, f);
      PiecesSnoc(init, g);
      EventsSnoc(init, f);
      EventsSnoc(init, g);
      MarkersSnoc(init, f);
      MarkersSnoc(init, g);
      KeyExtends(f.members, name);
      KeyLevel(f, g, init == []);
      Assoc(OuterPieces(init), LevelPieces(f, init == [], true), Flat(Step(Markers(b), Key(name)).value.outputs));
      Assoc(FramesEvents(init), FrameEvents(f), [Key(name)]);
    }
  }

  lemma KeyLevel(f: Frame, g: Frame, isRoot: bool)
    ensures LevelPieces(f, isRoot, true) == if isRoot then RootPieces(f, true) else Toks(FrameTokens(f, true))
    ensures LevelPieces(g, isRoot, true) == if isRoot then RootPieces(g, true) else Toks(FrameTokens(g, true))
  {
  }

  lemma KeyExtends(members: seq<Entry>, name: string)
    ensures var f, g := ObjFrame(members, None), ObjFrame(members, Some(name));
            var outputs := if members == [] then [Emit([Quoted(name)]), Emit(COLON)]
                           else [Emit(COMMA), Emit([Quoted(name)]), Emit(COLON)];
            && Toks(FrameTokens(g, true)) == Toks(FrameTokens(f, true)) + Flat(outputs)
            && RootPieces(g, true) == RootPieces(f, true) + Flat(outputs)
            && FrameEvents(g) == FrameEvents(f) + [Key(name)]
  {
    FlatPair([Quoted(name)], COLON);
    FlatTriple(COMMA, [Quoted(name)], COLON);
    ToksConcat(FrameTokens(ObjFrame(members, None), true), PendingKey(|members|, Some(name)));
  }

  lemma ValueSimulates(b: Build, scalar: Scalar)
    requires Valid(b) && b.Building?
    ensures Simulates(b, Value(scalar))
  {
    hide Toks, OuterPieces, LevelPieces, Pieces, Flat, Markers, FramesEvents, Done, Opened, Lead, Ended, Tail;
    TopMarker(b.frames);
    if CanTakeValue(b.frames) {
      ValueWrites(Markers(b), scalar);
      if b.frames == [] {
        RootLeafSimulates(b, scalar);
      } else {
        InnerLeafSimulates(b, scalar);
      }
    }
  }

  /** The text a value's step writes. */
  lemma ValueWrites(s: Stack, scalar: Scalar)
    ensures var outputs := [Emit(Lead(s)), Emit([ScalarToken(scalar)]), Emit(Tail(s))];
            Flat(Ended(Done(Opened(s)), outputs))
            == Toks(Lead(s)) + Toks([ScalarToken(scalar)]) + Toks(Tail(s)) + (if |Done(Opened(s))|
                == 1 then [Mark] else [])
  {
    hide Toks, Flat, Done, Opened, Lead, Ended, Tail;
    var outputs := [Emit(Lead(s)), Emit([ScalarToken(scalar)]), Emit(Tail(s))];
    FlatTriple(Lead(s), [ScalarToken(scalar)], Tail(s));
    FlatEnded(Done(Opened(s)), outputs);
  }

  lemma RootLeafSimulates(b: Build, scalar: Scalar)
    requires b == Building([])
    ensures var s, after := Markers(b), Finished(Leaf(scalar));
            && Done(Opened(s)) == Markers(after)
            && Pieces(after) == Pieces(b) + (Toks(Lead(s)) + Toks([ScalarToken(scalar)]) + Toks(Tail(s))
                                             + (if |Done(Opened(s))| == 1 then [Mark] else []))
            && BuildEvents(after) == BuildEvents(b) + [Value(scalar)]
  {
    hide Toks, Pieces, FramesEvents;
    RootLeaf(b, scalar);
    ToksNil();
  }

  lemma InnerLeafSimulates(b: Build, scalar: Scalar)
    requires Valid(b) && b.Building? && b.frames != [] && CanTakeValue(b.frames)
    ensures var s, after := Markers(b), AddValue(b.frames, Leaf(scalar));
            && Valid(after) && Done(Opened(s)) == Markers(after)
            && Pieces(after) == Pieces(b) + (Toks(Lead(s)) + Toks([ScalarToken(scalar)]) + Toks(Tail(s))
                                             + (if |Done(Opened(s))| == 1 then [Mark] else []))
            && BuildEvents(after) == BuildEvents(b) + [Value(scalar)]
  {
    hide Toks, OuterPieces, LevelPieces, Pieces, Markers, FramesEvents, Lead;
    var frames, s := b.frames, Markers(b);
    var n := |frames|;
    TopMarker(frames);
    assert frames == frames[..n - 1] + [frames[n - 1]];
    LeadExtends(frames);
    ToksNil();
    DoneSize(s);
    ValueCompletes(frames[..n - 1], frames[n - 1], Leaf(scalar));
    var lead, text, mark := Toks(Lead(s)), Toks([ScalarToken(scalar)]), if n == 1 then [Mark] else [];
    assert lead + text + [] == lead + text;
    Assoc(Pieces(b), lead, text);
    Assoc(Pieces(b), lead + text, mark);
  }

  lemma DoneSize(s: Stack)
    requires s != []
    ensures |Done(Opened(s))| == |s|
  {
  }

  lemma RootLeaf(b: Build, scalar: Scalar)
    requires b == Building([])
    ensures Pieces(Finished(Leaf(scalar))) == Toks([ScalarToken(scalar)]) + Toks(LINE_FEED) + [Mark]
    ensures Markers(b) == [] && Pieces(b) == [] && OuterPieces([]) == []
    ensures BuildEvents(Finished(Leaf(scalar))) == BuildEvents(b) + [Value(scalar)]
    ensures Markers(Finished(Leaf(scalar))) == [RootDone]
  {
  }

  lemma CloseSimulates(b: Build, event: Event)
    requires Valid(b) && b.Building? && (event == ArrayEnd || event == ObjectEnd)
    ensures Simulates(b, event)
  {
    hide Toks, OuterPieces, LevelPieces, Pieces, Flat, Markers, FramesEvents;
    var frames := b.frames;
    var n := |frames|;
    TopMarker(frames);
    if BuildStep(b, event).Some? {
      var init, f := frames[..n - 1], frames[n - 1];
      assert frames == init + [f];
      MarkersSnoc(init, f);
      CloseAt(init, f, event);
    }
  }

  function Closer(event: Event): seq<Token>
    requires event == ArrayEnd || event == ObjectEnd
  {
    [Punctuation(if event == ArrayEnd then ']' else '}')]
  }

  predicate Closes(event: Event, f: Frame) {
    if event == ArrayEnd then f.ArrFrame? else event == ObjectEnd && f.ObjFrame? && f.key == None
  }

  function ClosedTree(f: Frame): Tree {
    match f
    case ArrFrame(items) => Arr(items)
    case ObjFrame(members, _) => Obj(members)
  }

  lemma CloseAt(init: seq<Frame>, f: Frame, event: Event)
    requires Valid(Building(init + [f]))
    requires Closes(event, f)
    ensures CanTakeValue(init)
    ensures var b := AddValue(init, ClosedTree(f));
            var s := Done(OuterMarkers(init));
            && Valid(b)
            && Markers(b) == s
            && Pieces(b) == Pieces(Building(init + [f])) + Flat(Ended(s, [Emit(Closer(event)),
               Emit(Tail(OuterMarkers(init)))]))
            && BuildEvents(b) == FramesEvents(init + [f]) + [event]
  {
    hide Toks, OuterPieces, LevelPieces, Pieces, Flat, Markers, FramesEvents, FrameEvents, Done, Closer;
    var n := |init|;
    assert n > 0 ==> (init + [f])[n - 1] == init[n - 1];
    EventsSnoc(init, f);
    PiecesSnoc(init, f);
    var s := OuterMarkers(init);
    FlatPair(Closer(event), Tail(s));
    FlatEnded(Done(s), [Emit(Closer(event)), Emit(Tail(s))]);
    ClosedEvents(f, event);
    if n > 0 {
      ValidSnoc(init, f, f);
      assert init == init[..n - 1] + [init[n - 1]];
      ValueCompletes(init[..n - 1], init[n - 1], ClosedTree(f));
      ClosedText(f, event);
      ToksNil();
      OpenedOuter(init);
      var outer, level, close := OuterPieces(init), LevelPieces(f, false, true), Toks(Closer(event));
      var mark := if n == 1 then [Mark] else [];
      assert close + [] == close;
      Assoc(outer, level, close);
      Assoc(outer + level, close, mark);
      Assoc(FramesEvents(init), FrameEvents(f), [event]);
    } else {
      assert init + [f] == [f];
      RootClosed(f, event);
      var level, close := LevelPieces(f, true, true), Toks(Closer(event) + LINE_FEED);
      assert [] + level == level && [] + FrameEvents(f) == FrameEvents(f);
      Assoc(level, close, [Mark]);
    }
  }

  lemma ClosedEvents(f: Frame, event: Event)
    requires Closes(event, f)
    ensures Events(ClosedTree(f)) == FrameEvents(f) + [event]
  {
  }

  lemma ClosedText(f: Frame, event: Event)
    requires Closes(event, f)
    ensures Toks(Print(ClosedTree(f))) == LevelPieces(f, false, true) + Toks(Closer(event))
  {
    ToksConcat(FrameTokens(f, true), Closer(event));
  }

  /** A closed container's parent already counts as opened, and completing the value is all that is left. */
  lemma OpenedOuter(init: seq<Frame>)
    requires init != [] && TakesValue(init[|init| - 1]) && Valid(Building(init))
    ensures Done(Opened(Markers(Building(init)))) == Done(OuterMarkers(init))
    ensures |Done(OuterMarkers(init))| == |init|
    ensures Tail(OuterMarkers(init)) == []
  {
  }

  lemma RootClosed(f: Frame, event: Event)
    requires Closes(event, f)
    ensures Pieces(Finished(ClosedTree(f))) == LevelPieces(f, true, true) + Toks(Closer(event) + LINE_FEED) + [Mark]
    ensures Markers(Finished(ClosedTree(f))) == [RootDone] == Done(OuterMarkers([]))
    ensures OuterPieces([]) == [] && FramesEvents([]) == []
  {
  }

  /** Every step of the renderer does what the event does to the tree, and fails exactly when no tree goes on so. */
  lemma StepSimulates(b: Build, event: Event)
    requires Valid(b)
    ensures Simulates(b, event)
  {
    if b.Finished? {
    } else {
      match event
      case ArrayStart => OpenSimulates(b, event);
      case ObjectStart => OpenSimulates(b, event);
      case Key(name) => KeySimulates(b, name);
      case Value(scalar) => ValueSimulates(b, scalar);
      case ArrayEnd => CloseSimulates(b, event);
      case ObjectEnd => CloseSimulates(b, event);
    }
  }
}
