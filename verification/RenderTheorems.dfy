/** What whole runs of the renderer keep: the trees they accept, the text they write, the records they mark. */
module RenderTheorems {
  import opened Wrappers
  import opened Renderer
  import opened RenderProofs

  // ---- Runs as constructions ----

  /** How far a run of events can be read as the construction of one tree. */
  datatype Progress = Progress(build: Build, consumed: nat)

  function BuildRun(b: Build, events: seq<Event>): (p: Progress)
    requires Valid(b)
    ensures Valid(p.build) && p.consumed <= |events|
    decreases |events|
  {
    if events == [] then Progress(b, 0)
    else
      StepSimulates(b, events[0]);
      match BuildStep(b, events[0])
      case None => Progress(b, 0)
      case Some(next) =>
        var rest := BuildRun(next, events[1..]);
        Progress(rest.build, 1 + rest.consumed)
  }

  /** In every run, the markers and the text are those of the tree that the events so far have built. */
  lemma {:induction false} RunSimulates(b: Build, events: seq<Event>)
    requires Valid(b)
    ensures var run, p := Steps(Markers(b), events), BuildRun(b, events);
            && (run.status.Ok? <==> p.consumed == |events|)
            && (run.status.Ok? ==> run.status.value == Markers(p.build))
            && Pieces(p.build) == Pieces(b) + Flat(run.outputs)
            && BuildEvents(p.build) == BuildEvents(b) + events[..p.consumed]
    decreases |events|
  {
    hide Markers, Pieces, BuildEvents, BuildStep, Step, Flat;
    if events == [] {
      NothingFlat();
      assert Pieces(b) + [] == Pieces(b) && BuildEvents(b) + [] == BuildEvents(b);
    } else {
      StepSimulates(b, events[0]);
      match BuildStep(b, events[0])
      case None =>
        NothingFlat();
        assert Pieces(b) + [] == Pieces(b) && BuildEvents(b) + [] == BuildEvents(b);
      case Some(next) =>
        RunSimulates(next, events[1..]);
        var step, rest := Step(Markers(b), events[0]).value, Steps(Markers(next), events[1..]);
        FlatConcat(step.outputs, rest.outputs);
        Assoc(Pieces(b), Flat(step.outputs), Flat(rest.outputs));
        var n := BuildRun(next, events[1..]).consumed;
        Assoc(BuildEvents(b), [events[0]], events[1..][..n]);
        assert [events[0]] + events[1..][..n] == events[..1 + n];
    }
  }

  lemma NothingFlat()
    ensures Flat([]) == []
  {
  }

  const START := Building([])

  lemma StartFacts()
    ensures Valid(START) && Markers(START) == [] && Pieces(START) == [] && BuildEvents(START) == []
  {
  }

  // ---- Every tree's walk is accepted ----

  lemma {:induction false} BuildRunConcat(b: Build, first: seq<Event>, second: seq<Event>)
    requires Valid(b) && BuildRun(b, first).consumed == |first|
    ensures var p, q := BuildRun(b, first), BuildRun(BuildRun(b, first).build, second);
            BuildRun(b, first + second) == Progress(q.build, |first| + q.consumed)
    decreases |first|
  {
    hide BuildStep;
    if first == [] {
      assert first + second == second;
    } else {
      assert (first + second)[1..] == first[1..] + second;
      StepSimulates(b, first[0]);
      BuildRunConcat(BuildStep(b, first[0]).value, first[1..], second);
    }
  }

  ghost predicate Builds(b: Build, events: seq<Event>, b': Build)
    requires Valid(b)
  {
    BuildRun(b, events) == Progress(b', |events|)
  }

  lemma BuildsThen(b: Build, first: seq<Event>, mid: Build, second: seq<Event>, b': Build)
    requires Valid(b) && Valid(mid) && Builds(b, first, mid) && Builds(mid, second, b')
    ensures Builds(b, first + second, b')
  {
    BuildRunConcat(b, first, second);
  }

  lemma BuildsOne(b: Build, event: Event)
    requires Valid(b) && BuildStep(b, event).Some?
    ensures Builds(b, [event], BuildStep(b, event).value)
  {
    StepSimulates(b, event);
  }

  lemma AddValueValid(frames: seq<Frame>, t: Tree)
    requires Valid(Building(frames)) && CanTakeValue(frames)
    ensures Valid(AddValue(frames, t))
  {
  }

  /** A tree's walk, begun anywhere a value may begin, builds that tree there. */
  lemma {:induction false} WalkBuilds(frames: seq<Frame>, t: Tree)
    requires Valid(Building(frames)) && CanTakeValue(frames)
    ensures Builds(Building(frames), Events(t), AddValue(frames, t))
    decreases t, 1
  {
    hide BuildRun;
    AddValueValid(frames, t);
    var b := Building(frames);
    match t
    case Leaf(scalar) => BuildsOne(b, Value(scalar));
    case Arr(items) =>
      var f := ArrFrame([]);
      ValidSnoc(frames, f, f);
      BuildsOne(b, ArrayStart);
      ItemsBuild(frames, items);
      CloseBuilds(frames, ArrFrame(items), ArrayEnd);
      BuildsThen(b, [ArrayStart], Building(frames + [f]), ItemEvents(items), Building(frames + [ArrFrame(items)]));
      BuildsThen(b, [ArrayStart] + ItemEvents(items), Building(frames + [ArrFrame(items)]), [ArrayEnd],
          AddValue(frames, t));
    case Obj(members) =>
      var f := ObjFrame([], None);
      ValidSnoc(frames, f, f);
      BuildsOne(b, ObjectStart);
      MembersBuild(frames, members);
      var full := ObjFrame(members, None);
      CloseBuilds(frames, full, ObjectEnd);
      BuildsThen(b, [ObjectStart], Building(frames + [f]), MemberEvents(members), Building(frames + [full]));
      BuildsThen(b, [ObjectStart] + MemberEvents(members), Building(frames + [full]), [ObjectEnd], AddValue(frames, t));
  }

  lemma CloseBuilds(frames: seq<Frame>, f: Frame, event: Event)
    requires Valid(Building(frames)) && CanTakeValue(frames) && Closes(event, f)
    ensures Valid(Building(frames + [f]))
    ensures Builds(Building(frames + [f]), [event], AddValue(frames, ClosedTree(f)))
  {
    ValidSnoc(frames, f, f);
    assert (frames + [f])[..|frames|] == frames;
    BuildsOne(Building(frames + [f]), event);
  }

  lemma {:induction false} ItemsBuild(frames: seq<Frame>, items: seq<Tree>)
    requires Valid(Building(frames)) && CanTakeValue(frames)
    ensures Valid(Building(frames + [ArrFrame([])])) && Valid(Building(frames + [ArrFrame(items)]))
    ensures Builds(Building(frames + [ArrFrame([])]), ItemEvents(items), Building(frames + [ArrFrame(items)]))
    decreases items, 0
  {
    ValidSnoc(frames, ArrFrame([]), ArrFrame(items));
    if items != [] {
      hide BuildRun;
      var init, last := items[..|items| - 1], items[|items| - 1];
      var f := ArrFrame(init);
      ItemsBuild(frames, init);
      WalkBuilds(frames + [f], last);
      assert (frames + [f])[..|frames|] == frames && init + [last] == items;
      BuildsThen(Building(frames + [ArrFrame([])]), ItemEvents(init), Building(frames + [f]), Events(last),
                 Building(frames + [ArrFrame(items)]));
    }
  }

  lemma {:induction false} MembersBuild(frames: seq<Frame>, members: seq<Entry>)
    requires Valid(Building(frames)) && CanTakeValue(frames)
    ensures var f, full := ObjFrame([], None), ObjFrame(members, None);
            && Valid(Building(frames + [f])) && Valid(Building(frames + [full]))
            && Builds(Building(frames + [f]), MemberEvents(members), Building(frames + [full]))
    decreases members, 0
  {
    var empty, full := ObjFrame([], None), ObjFrame(members, None);
    ValidSnoc(frames, empty, full);
    if members != [] {
      hide BuildRun;
      var init, last := members[..|members| - 1], members[|members| - 1];
      var f, g := ObjFrame(init, None), ObjFrame(init, Some(last.name));
      MembersBuild(frames, init);
      ValidSnoc(frames, f, g);
      assert (frames + [f])[..|frames|] == frames && (frames + [g])[..|frames|] == frames && init + [last] == members;
      BuildsOne(Building(frames + [f]), Key(last.name));
      WalkBuilds(frames + [g], last.value);
      var start := Building(frames + [empty]);
      BuildsThen(start, MemberEvents(init), Building(frames + [f]), [Key(last.name)], Building(frames + [g]));
      BuildsThen(start, MemberEvents(init) + [Key(last.name)], Building(frames + [g]), Events(last.value),
                 Building(frames + [full]));
    }
  }

  // ---- The main results ----

  /** The render of a tree's walk succeeds, and writes the tree's records. */
  lemma WalkRenders(t: Tree)
    ensures Render(Events(t)).status.Ok? && Flat(Render(Events(t)).outputs) == RecordPieces(t)
    ensures BuildRun(START, Events(t)).build == Finished(t)
  {
    StartFacts();
    WalkBuilds([], t);
    RunSimulates(START, Events(t));
    var run := Steps([], Events(t));
    assert run.outputs + [] == run.outputs;
  }

  /** An accepted run is the walk of a tree, and wrote that tree's records. */
  lemma AcceptedTree(events: seq<Event>) returns (t: Tree)
    requires Render(events).status.Ok?
    ensures events == Events(t) && Flat(Render(events).outputs) == RecordPieces(t)
  {
    hide Markers, Pieces, Steps, Events, BuildRun, Flat, RecordPieces;
    StartFacts();
    RunSimulates(START, events);
    var b := BuildRun(START, events).build;
    FinishedMarkers(b);
    RenderOutputs(events);
    t := b.root;
    assert BuildEvents(b) == events[..|events|] == events;
    FinishedPieces(t);
  }

  lemma FinishedPieces(t: Tree)
    ensures Pieces(Finished(t)) == RecordPieces(t)
  {
  }

  /** The final step writes nothing. */
  lemma RenderOutputs(events: seq<Event>)
    ensures Render(events).outputs == Steps([], events).outputs
  {
    var run := Steps([], events);
    assert run.outputs + [] == run.outputs;
  }

  /**
    The renderer accepts exactly the walks of trees, and answers for a walk the records of its tree:
    everything else is refused.
   */
  lemma RenderAcceptsExactlyWalks(events: seq<Event>)
    ensures Render(events).status.Ok? <==> exists t :: events == Events(t)
    ensures forall t | events == Events(t) :: Flat(Render(events).outputs) == RecordPieces(t)
  {
    hide Events, Flat, Render, RecordPieces;
    forall t | events == Events(t)
      ensures Render(events).status.Ok? && Flat(Render(events).outputs) == RecordPieces(t)
    {
      WalkRenders(t);
    }
    if Render(events).status.Ok? {
      var t := AcceptedTree(events);
    }
  }

  /** Only a finished tree shows the lone root-done marker. */
  lemma FinishedMarkers(b: Build)
    ensures Top(Markers(b)) == Some(RootDone) <==> b.Finished?
  {
  }

  /** One walk, one tree. */
  lemma WalkDeterminesTree(t1: Tree, t2: Tree)
    requires Events(t1) == Events(t2)
    ensures t1 == t2
  {
    WalkRenders(t1);
    WalkRenders(t2);
  }

  // ---- Refused at once: the steps fail exactly where no tree's walk can go on ----

  function Completed(f: Frame): Tree {
    match f
    case ArrFrame(items) => Arr(items)
    case ObjFrame(members, key) => Obj(if key.Some? then members + [Entry(key.value, Leaf(Null))] else members)
  }

  /** Some tree that goes on from an unfinished one: every open container closed as soon as it may be. */
  function Completion(b: Build): Tree
    requires Valid(b)
    decreases b.Building?, if b.Building? then |b.frames| else 0
  {
    if b.Finished? then b.root
    else if b.frames == [] then Leaf(Null)
    else
      var n := |b.frames| - 1;
      CloseAndGoOn(b.frames);
      Completion(AddValue(b.frames[..n], Completed(b.frames[n])))
  }

  lemma CloseAndGoOn(frames: seq<Frame>)
    requires frames != [] && Valid(Building(frames))
    ensures var n := |frames| - 1;
            && CanTakeValue(frames[..n])
            && Valid(AddValue(frames[..n], Completed(frames[n])))
  {
    var n := |frames| - 1;
    assert frames == frames[..n] + [frames[n]];
    ValidSnoc(frames[..n], frames[n], frames[n]);
    AddValueValid(frames[..n], Completed(frames[n]));
  }

  lemma {:induction false} CompletionGoesOn(b: Build)
    requires Valid(b)
    ensures BuildEvents(b) <= Events(Completion(b))
    decreases b.Building?, if b.Building? then |b.frames| else 0
  {
    if b.Building? && b.frames != [] {
      hide Events, BuildEvents;
      var n := |b.frames| - 1;
      var init, f := b.frames[..n], b.frames[n];
      assert b.frames == init + [f];
      CloseAndGoOn(b.frames);
      CloseGoesOn(init, f);
      CompletionGoesOn(AddValue(init, Completed(f)));
    }
  }

  lemma CloseGoesOn(init: seq<Frame>, f: Frame)
    requires Valid(Building(init + [f])) && CanTakeValue(init)
    ensures BuildEvents(Building(init + [f])) <= BuildEvents(AddValue(init, Completed(f)))
  {
    hide Events, FramesEvents;
    EventsSnoc(init, f);
    CompletedGoesOn(f);
    if init == [] {
      NoFrameEvents();
    } else {
      var n := |init| - 1;
      var outer := init[n];
      assert init == init[..n] + [outer];
      EventsSnoc(init[..n], outer);
      EventsSnoc(init[..n], WithValue(outer, Completed(f)));
      ValueExtendsEvents(outer, Completed(f));
    }
  }

  lemma NoFrameEvents()
    ensures FramesEvents([]) == []
  {
  }

  lemma CompletedGoesOn(f: Frame)
    ensures FrameEvents(f) <= Events(Completed(f))
  {
    if f.ObjFrame? && f.key.Some? {
      var members := f.members + [Entry(f.key.value, Leaf(Null))];
      assert members[..|members| - 1] == f.members;
    }
  }

  /** Accepted events begin the walk of some tree. */
  lemma AcceptedPrefix(events: seq<Event>) returns (t: Tree)
    requires Steps([], events).status.Ok?
    ensures events <= Events(t)
  {
    hide Events, Steps, BuildRun, Markers, Pieces, Flat;
    StartFacts();
    RunSimulates(START, events);
    var b := BuildRun(START, events).build;
    CompletionGoesOn(b);
    assert BuildEvents(b) == events[..|events|] == events;
    t := Completion(b);
  }

  lemma WalkPrefixAccepted(events: seq<Event>, t: Tree)
    requires events <= Events(t)
    ensures Steps([], events).status.Ok?
  {
    hide Events, Steps, Flat, BuildRun;
    WalkRenders(t);
    assert Events(t) == events + Events(t)[|events|..];
    RenderedSteps(Events(t));
    StepsOfPrefix([], events, Events(t)[|events|..]);
  }

  /** The steps reject an event as soon as no tree's walk begins with the events so far. */
  lemma StepsAcceptExactlyPrefixes(events: seq<Event>)
    ensures Steps([], events).status.Ok? <==> exists t :: events <= Events(t)
  {
    hide Events, Steps;
    if Steps([], events).status.Ok? {
      var t := AcceptedPrefix(events);
    }
    if t :| events <= Events(t) {
      WalkPrefixAccepted(events, t);
    }
  }

  lemma RenderedSteps(events: seq<Event>)
    requires Render(events).status.Ok?
    ensures Steps([], events).status.Ok?
  {
  }

  lemma {:induction false} StepsOfPrefix(s: Stack, first: seq<Event>, second: seq<Event>)
    requires Steps(s, first + second).status.Ok?
    ensures Steps(s, first).status.Ok?
    decreases |first|
  {
    if first != [] {
      assert (first + second)[1..] == first[1..] + second;
      StepsOfPrefix(Step(s, first[0]).value.state, first[1..], second);
    }
  }

  // ---- The shape and the size of the stack ----

  /** How many containers an event sequence opens and does not close. */
  function Depth(events: seq<Event>): int {
    if events == [] then 0
    else
      var last := events[|events| - 1];
      Depth(events[..|events| - 1])
      + (if last == ArrayStart || last == ObjectStart then 1
         else if last == ArrayEnd || last == ObjectEnd then -1 else 0)
  }

  lemma {:induction false} DepthConcat(a: seq<Event>, b: seq<Event>)
    ensures Depth(a + b) == Depth(a) + Depth(b)
  {
    if b == [] {
      assert a + b == a;
    } else {
      assert (a + b)[..|a + b| - 1] == a + b[..|b| - 1];
      DepthConcat(a, b[..|b| - 1]);
    }
  }

  lemma DepthOne(event: Event)
    ensures Depth([event]) == if event == ArrayStart || event == ObjectStart then 1
                              else if event == ArrayEnd || event == ObjectEnd then -1 else 0
  {
    assert [event][..0] == [];
    assert Depth([]) == 0;
  }

  /** A tree's walk closes what it opens. */
  lemma {:induction false} WalkDepth(t: Tree)
    ensures Depth(Events(t)) == 0
    decreases t, 1
  {
    match t
    case Leaf(scalar) => DepthOne(Value(scalar));
    case Arr(items) =>
      ItemsDepth(items);
      Bracketed(ArrayStart, ItemEvents(items), ArrayEnd);
    case Obj(members) =>
      MembersDepth(members);
      Bracketed(ObjectStart, MemberEvents(members), ObjectEnd);
  }

  lemma Bracketed(open: Event, body: seq<Event>, close: Event)
    requires Depth(body) == 0
    ensures Depth([open] + body + [close]) == Depth([open]) + Depth([close])
    ensures Depth([ArrayStart]) == Depth([ObjectStart]) == 1 && Depth([ArrayEnd]) == Depth([ObjectEnd]) == -1
  {
    DepthConcat([open] + body, [close]);
    DepthConcat([open], body);
    DepthOne(ArrayStart);
    DepthOne(ObjectStart);
    DepthOne(ArrayEnd);
    DepthOne(ObjectEnd);
  }

  lemma {:induction false} ItemsDepth(items: seq<Tree>)
    ensures Depth(ItemEvents(items)) == 0
    decreases items, 0
  {
    if items != [] {
      ItemsDepth(items[..|items| - 1]);
      WalkDepth(items[|items| - 1]);
      DepthConcat(ItemEvents(items[..|items| - 1]), Events(items[|items| - 1]));
    }
  }

  lemma {:induction false} MembersDepth(members: seq<Entry>)
    ensures Depth(MemberEvents(members)) == 0
    decreases members, 0
  {
    if members != [] {
      var init, last := members[..|members| - 1], members[|members| - 1];
      MembersDepth(init);
      WalkDepth(last.value);
      DepthOne(Key(last.name));
      DepthConcat(MemberEvents(init) + [Key(last.name)], Events(last.value));
      DepthConcat(MemberEvents(init), [Key(last.name)]);
    }
  }

  lemma FrameDepth(f: Frame)
    ensures Depth(FrameEvents(f)) == 1
  {
    DepthOne(ArrayStart);
    DepthOne(ObjectStart);
    match f
    case ArrFrame(items) =>
      ItemsDepth(items);
      DepthConcat([ArrayStart], ItemEvents(items));
    case ObjFrame(members, key) =>
      MembersDepth(members);
      DepthConcat([ObjectStart], MemberEvents(members));
      if key.Some? {
        DepthOne(Key(key.value));
        DepthConcat([ObjectStart] + MemberEvents(members), [Key(key.value)]);
      } else {
        assert FrameEvents(f) == [ObjectStart] + MemberEvents(members);
      }
  }

  lemma {:induction false} FramesDepth(frames: seq<Frame>)
    ensures Depth(FramesEvents(frames)) == |frames|
  {
    if frames != [] {
      var init, f := frames[..|frames| - 1], frames[|frames| - 1];
      FramesDepth(init);
      FrameDepth(f);
      DepthConcat(FramesEvents(init), FrameEvents(f));
    }
  }

  lemma MarkersShape(frames: seq<Frame>)
    requires Valid(Building(frames))
    ensures var s := Markers(Building(frames));
            && |s| == |frames|
            && RootDone !in s
            && forall i | 0 <= i < |s| - 1 :: s[i] == Member || s[i] == Array
  {
    var s := Markers(Building(frames));
    forall i | 0 <= i < |s| - 1 ensures s[i] == Member || s[i] == Array {
      assert TakesValue(frames[i]);
    }
  }

  /**
    Every reachable state is the lone root-done marker or one marker per open container, of which only
    the innermost is anything but `:member` or `:array`: the state's size is the nesting's alone.
   */
  lemma ReachableStack(events: seq<Event>)
    requires Steps([], events).status.Ok?
    ensures var s := Steps([], events).status.value;
            || (s == [RootDone] && Depth(events) == 0)
            || (&& |s| == Depth(events)
                && RootDone !in s
                && forall i | 0 <= i < |s| - 1 :: s[i] == Member || s[i] == Array)
  {
    StartFacts();
    RunSimulates(START, events);
    var b := BuildRun(START, events).build;
    assert BuildEvents(b) == events;
    if b.Finished? {
      WalkDepth(b.root);
    } else {
      FramesDepth(b.frames);
      MarkersShape(b.frames);
    }
  }

  // ---- Records ----

  /** The text of a run without its record ends: what `join ""` gives. */
  function Erase(pieces: seq<Piece>): seq<Token> {
    if pieces == [] then []
    else
      var last := pieces[|pieces| - 1];
      Erase(pieces[..|pieces| - 1]) + (if last.Tok? then [last.token] else [])
  }

  /** For each record end, the text before it. */
  function RecordTexts(pieces: seq<Piece>): seq<seq<Token>> {
    if pieces == [] then []
    else
      var init := pieces[..|pieces| - 1];
      RecordTexts(init) + (if pieces[|pieces| - 1].Mark? then [Erase(init)] else [])
  }

  lemma PieceSnoc(pieces: seq<Piece>, x: Piece)
    ensures Erase(pieces + [x]) == Erase(pieces) + (if x.Tok? then [x.token] else [])
    ensures RecordTexts(pieces + [x]) == RecordTexts(pieces) + (if x.Mark? then [Erase(pieces)] else [])
  {
    assert (pieces + [x])[..|pieces|] == pieces;
  }

  lemma {:induction false} TextGrows(pieces: seq<Piece>, tokens: seq<Token>)
    ensures Erase(pieces + Toks(tokens)) == Erase(pieces) + tokens
    ensures RecordTexts(pieces + Toks(tokens)) == RecordTexts(pieces)
  {
    hide Toks, Erase, RecordTexts;
    if tokens == [] {
      ToksNil();
      assert pieces + [] == pieces;
      assert Erase(pieces) + [] == Erase(pieces);
    } else {
      var init, last := tokens[..|tokens| - 1], tokens[|tokens| - 1];
      assert tokens == init + [last];
      TextGrows(pieces, init);
      ToksConcat(init, [last]);
      ToksOne(last);
      Assoc(pieces, Toks(init), [Tok(last)]);
      PieceSnoc(pieces + Toks(init), Tok(last));
      Assoc(Erase(pieces), init, [last]);
    }
  }

  lemma ToksOne(token: Token)
    ensures Toks([token]) == [Tok(token)]
  {
  }

  lemma RecordEnds(pieces: seq<Piece>)
    ensures Erase(pieces + [Mark]) == Erase(pieces)
    ensures RecordTexts(pieces + [Mark]) == RecordTexts(pieces) + [Erase(pieces)]
  {
    PieceSnoc(pieces, Mark);
  }

  lemma RecordGrows(pieces: seq<Piece>, tokens: seq<Token>)
    ensures Erase(pieces + Toks(tokens) + [Mark]) == Erase(pieces) + tokens
    ensures RecordTexts(pieces + Toks(tokens) + [Mark]) == RecordTexts(pieces) + [Erase(pieces) + tokens]
  {
    hide Toks, Erase, RecordTexts;
    TextGrows(pieces, tokens);
    RecordEnds(pieces + Toks(tokens));
  }

  const ARRAY_OPENER := [Punctuation('[')]
  const OBJECT_OPENER := [Punctuation('{')]

  /** The opener, and then the opener with one, two and more whole items. */
  function ItemPrefixes(items: seq<Tree>): seq<seq<Token>> {
    if items == [] then [ARRAY_OPENER] else ItemPrefixes(items[..|items| - 1]) + [ARRAY_OPENER + PrintItems(items)]
  }

  function MemberPrefixes(members: seq<Entry>): seq<seq<Token>> {
    if members == [] then [OBJECT_OPENER]
    else MemberPrefixes(members[..|members| - 1]) + [OBJECT_OPENER + PrintMembers(members)]
  }

  /** The texts that end records inside an open root. */
  function RootRecords(f: Frame): seq<seq<Token>> {
    match f
    case ArrFrame(items) => ItemPrefixes(items)
    case ObjFrame(members, _) => MemberPrefixes(members)
  }

  /** The n-th record of a root array ends after its opener and its first n items, joined by commas. */
  lemma {:induction false} ItemPrefixAt(items: seq<Tree>, n: nat)
    requires n <= |items|
    ensures |ItemPrefixes(items)| == |items| + 1
    ensures ItemPrefixes(items)[n] == ARRAY_OPENER + PrintItems(items[..n])
  {
    if items == [] {
      assert items[..0] == [];
    } else if n == |items| {
      ItemPrefixAt(items[..n - 1], n - 1);
      assert items[..n] == items;
    } else {
      ItemPrefixAt(items[..|items| - 1], n);
      assert items[..|items| - 1][..n] == items[..n];
    }
  }

  lemma {:induction false} MemberPrefixAt(members: seq<Entry>, n: nat)
    requires n <= |members|
    ensures |MemberPrefixes(members)| == |members| + 1
    ensures MemberPrefixes(members)[n] == OBJECT_OPENER + PrintMembers(members[..n])
  {
    if members == [] {
      assert members[..0] == [];
    } else if n == |members| {
      MemberPrefixAt(members[..n - 1], n - 1);
      assert members[..n] == members;
    } else {
      MemberPrefixAt(members[..|members| - 1], n);
      assert members[..|members| - 1][..n] == members[..n];
    }
  }

  function RecordsOf(b: Build): seq<seq<Token>> {
    match b
    case Building(frames) => if frames == [] then [] else RootRecords(frames[0])
    case Finished(Leaf(scalar)) => [Print(b.root) + LINE_FEED]
    case Finished(Arr(items)) => RootRecords(ArrFrame(items)) + [Print(b.root) + LINE_FEED]
    case Finished(Obj(members)) => RootRecords(ObjFrame(members, None)) + [Print(b.root) + LINE_FEED]
  }

  lemma OpenerRecord(opener: seq<Token>)
    ensures Erase(Toks(opener) + [Mark]) == opener && RecordTexts(Toks(opener) + [Mark]) == [opener]
  {
    TextGrows([], opener);
    assert [] + Toks(opener) == Toks(opener);
    RecordEnds(Toks(opener));
  }

  lemma {:induction false} ItemRecords(items: seq<Tree>)
    ensures var p := Toks(ARRAY_OPENER) + [Mark] + MarkedItems(items);
            && Erase(p) == ARRAY_OPENER + PrintItems(items)
            && RecordTexts(p) == RootRecords(ArrFrame(items))
  {
    var start := Toks(ARRAY_OPENER) + [Mark];
    if items == [] {
      OpenerRecord(ARRAY_OPENER);
      assert start + MarkedItems(items) == start;
    } else {
      var n := |items| - 1;
      var grown := CommaAfter(n) + Print(items[n]);
      ItemRecords(items[..n]);
      ItemStep(items, grown);
      RecordGrows(start + MarkedItems(items[..n]), grown);
    }
  }

  lemma ItemStep(items: seq<Tree>, grown: seq<Token>)
    requires items != [] && grown == (var n := |items| - 1; CommaAfter(n) + Print(items[n]))
    ensures var start, init := Toks(ARRAY_OPENER) + [Mark], items[..|items| - 1];
            && start + MarkedItems(items) == start + MarkedItems(init) + Toks(grown) + [Mark]
            && ARRAY_OPENER + PrintItems(items) == ARRAY_OPENER + PrintItems(init) + grown
            && RootRecords(ArrFrame(items)) == RootRecords(ArrFrame(init)) + [ARRAY_OPENER + PrintItems(items)]
  {
    hide Print, Toks;
    var start, init := Toks(ARRAY_OPENER) + [Mark], items[..|items| - 1];
    Assoc(start, MarkedItems(init), Toks(grown));
    Assoc(start, MarkedItems(init) + Toks(grown), [Mark]);
    Assoc(ARRAY_OPENER, PrintItems(init), grown);
  }

  lemma {:induction false} MemberRecords(members: seq<Entry>)
    ensures var p := Toks(OBJECT_OPENER) + [Mark] + MarkedMembers(members);
            && Erase(p) == OBJECT_OPENER + PrintMembers(members)
            && RecordTexts(p) == RootRecords(ObjFrame(members, None))
  {
    var start := Toks(OBJECT_OPENER) + [Mark];
    if members == [] {
      OpenerRecord(OBJECT_OPENER);
      assert start + MarkedMembers(members) == start;
    } else {
      var n := |members| - 1;
      var grown := MemberTokens(n, members[n]);
      MemberRecords(members[..n]);
      MemberStep(members, grown);
      RecordGrows(start + MarkedMembers(members[..n]), grown);
    }
  }

  lemma MemberStep(members: seq<Entry>, grown: seq<Token>)
    requires members != [] && grown == (var n := |members| - 1; MemberTokens(n, members[n]))
    ensures var start, init := Toks(OBJECT_OPENER) + [Mark], members[..|members| - 1];
            && start + MarkedMembers(members) == start + MarkedMembers(init) + Toks(grown) + [Mark]
            && OBJECT_OPENER + PrintMembers(members) == OBJECT_OPENER + PrintMembers(init) + grown
            && RootRecords(ObjFrame(members, None))
               == RootRecords(ObjFrame(init, None)) + [OBJECT_OPENER + PrintMembers(members)]
  {
    hide Print, Toks;
    var start, init := Toks(OBJECT_OPENER) + [Mark], members[..|members| - 1];
    Assoc(start, MarkedMembers(init), Toks(grown));
    Assoc(start, MarkedMembers(init) + Toks(grown), [Mark]);
    Assoc(OBJECT_OPENER, PrintMembers(init), grown);
  }

  lemma RootPiecesRecords(f: Frame, innermost: bool)
    ensures RecordTexts(RootPieces(f, innermost)) == RootRecords(f)
    ensures innermost ==> Erase(RootPieces(f, innermost)) == FrameTokens(f, true)
  {
    hide Toks, Erase, RecordTexts;
    match f
    case ArrFrame(items) =>
      ItemRecords(items);
      TextGrows(Toks(ARRAY_OPENER) + [Mark] + MarkedItems(items), if innermost then [] else CommaAfter(|items|));
    case ObjFrame(members, key) =>
      MemberRecords(members);
      TextGrows(Toks(OBJECT_OPENER) + [Mark] + MarkedMembers(members), PendingKey(|members|, key));
  }

  lemma {:induction false} OuterRecords(frames: seq<Frame>)
    requires frames != []
    ensures RecordTexts(OuterPieces(frames)) == RootRecords(frames[0])
  {
    hide RecordTexts, RootRecords;
    var n := |frames| - 1;
    RootPiecesRecords(frames[0], false);
    if n == 0 {
      assert OuterPieces(frames[..0]) == [];
      assert OuterPieces(frames) == RootPieces(frames[0], false);
    } else {
      OuterRecords(frames[..n]);
      TextGrows(OuterPieces(frames[..n]), FrameTokens(frames[n], false));
    }
  }

  /** A finished document's text is its printing and one line feed. */
  lemma DocumentText(t: Tree)
    ensures Erase(RecordPieces(t)) == Print(t) + LINE_FEED
    ensures RecordTexts(RecordPieces(t)) == RecordsOf(Finished(t))
  {
    hide Toks, Erase, RecordTexts;
    match t
    case Leaf(scalar) =>
      TextGrows([], [ScalarToken(scalar)] + LINE_FEED);
      NothingYet();
      assert [] + Toks([ScalarToken(scalar)] + LINE_FEED) == Toks([ScalarToken(scalar)] + LINE_FEED);
      RecordEnds(Toks([ScalarToken(scalar)] + LINE_FEED));
    case Arr(items) =>
      var root := RootPieces(ArrFrame(items), true);
      RootPiecesRecords(ArrFrame(items), true);
      TextGrows(root, [Punctuation(']')] + LINE_FEED);
      RecordEnds(root + Toks([Punctuation(']')] + LINE_FEED));
    case Obj(members) =>
      var root := RootPieces(ObjFrame(members, None), true);
      RootPiecesRecords(ObjFrame(members, None), true);
      TextGrows(root, [Punctuation('}')] + LINE_FEED);
      RecordEnds(root + Toks([Punctuation('}')] + LINE_FEED));
  }

  lemma NothingYet()
    ensures Erase([]) == [] && RecordTexts([]) == []
  {
  }

  lemma BuildRecords(b: Build)
    ensures RecordTexts(Pieces(b)) == RecordsOf(b)
  {
    hide RecordTexts, RootRecords, Erase;
    NothingYet();
    match b
    case Finished(root) => DocumentText(root);
    case Building(frames) =>
      if frames != [] {
        var n := |frames| - 1;
        if n == 0 {
          RootPiecesRecords(frames[0], true);
          assert OuterPieces(frames[..0]) == [];
          assert Pieces(b) == RootPieces(frames[0], true);
        } else {
          OuterRecords(frames[..n]);
          TextGrows(OuterPieces(frames[..n]), FrameTokens(frames[n], true));
        }
      }
  }

  /**
    In every run, failed ones too, the text before each record end is, in order, the root's opener and
    then the opener with one, two and more whole root children, and at last the whole document.
   */
  lemma RunRecords(events: seq<Event>)
    ensures RecordTexts(Flat(Render(events).outputs)) == RecordsOf(BuildRun(START, events).build)
  {
    hide RecordTexts, RecordsOf, Pieces, Markers, Steps, BuildRun;
    StartFacts();
    RunSimulates(START, events);
    BuildRecords(BuildRun(START, events).build);
    RenderOutputs(events);
    assert Pieces(START) + Flat(Steps([], events).outputs) == Flat(Steps([], events).outputs);
  }

  /** The render of a tree writes its compact printing and one line feed, in one record or its children and two. */
  lemma RenderWritesPrint(t: Tree)
    ensures Erase(Flat(Render(Events(t)).outputs)) == Print(t) + LINE_FEED
    ensures |RecordTexts(Flat(Render(Events(t)).outputs))|
            == match t case Leaf(_) => 1 case Arr(items) => |items| + 2 case Obj(members) => |members| + 2
  {
    hide Print, Events, Flat;
    WalkRenders(t);
    DocumentText(t);
    match t
    case Leaf(_) =>
    case Arr(items) => ItemPrefixAt(items, 0);
    case Obj(members) => MemberPrefixAt(members, 0);
  }
}
