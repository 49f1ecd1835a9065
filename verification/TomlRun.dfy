/**
  A whole TOML text (tools/port-deps.cjs): the statements one after another, from the empty root table; and
  what holds of every accepted text, that each statement stays bound at its own keys, under its header, to
  its own value.
 */
module TomlRun {
  import opened Wrappers
  import opened TomlSyntax
  import opened TomlTree
  import opened TomlBuild

  // ---- Headers ----

  /** A table a header's walk has come to, and the steps it took last. */
  datatype Place = Place(heap: Heap, at: Id, steps: seq<TreeStep>)

  /** One part on a header's way: the table it leads to, or the last one of an array of tables. */
  function DownIn(h: Heap, at: Id, name: Name, line: nat): Option<Place> {
    var entries := EntriesOf(NodeAt(h, at));
    if name !in entries then Some(Place(MadeTable(h, at, name, line, false), |h|, [ByKey(name)]))
    else
      var next := NodeAt(h, entries[name]);
      if next.TableArray? && next.items != [] then
        var last := |next.items| - 1;
        if IsOpen(NodeAt(h, next.items[last])) then Some(Place(h, next.items[last], [ByKey(name), ByItem(last)]))
        else None
      else if IsOpen(next) then Some(Place(h, entries[name], [ByKey(name)]))
      else None
  }

  /** The table of a header in single brackets: a new one, or one that was made only on the way to another. */
  function LastIn(h: Heap, at: Id, name: Name, line: nat): Option<Place> {
    var entries := EntriesOf(NodeAt(h, at));
    if name !in entries then Some(Place(MadeTable(h, at, name, line, true), |h|, [ByKey(name)]))
    else
      var seen := entries[name];
      if seen < |h| && h[seen].Table? && !h[seen].defined then
        Some(Place(h[seen := h[seen].(defined := true)], seen, [ByKey(name)]))
      else None
  }

  /** The table of a header in double brackets: one more in its array, which is made with the first. */
  function ItemIn(h: Heap, at: Id, name: Name, line: nat): Option<Place> {
    var entries, item := EntriesOf(NodeAt(h, at)), Table(line, map[], true, false);
    if name !in entries then
      Some(Place(Bound(h + [item, TableArray(line, [|h|])], at, name, |h| + 1), |h|, [ByKey(name), ByItem(0)]))
    else
      var list := entries[name];
      if list < |h| && h[list].TableArray? then
        var items := h[list].items;
        Some(Place(h[list := h[list].(items := items + [|h|])] + [item], |h|, [ByKey(name), ByItem(|items|)]))
      else None
  }

  /** header, once its keys are read: from a table on down, tables made on the way. */
  function OpenIn(h: Heap, at: Id, keys: seq<Name>, twice: bool, line: nat): Option<Place>
    requires keys != []
    decreases |keys|
  {
    if |keys| == 1 then (if twice then ItemIn(h, at, keys[0], line) else LastIn(h, at, keys[0], line))
    else
      match DownIn(h, at, keys[0], line)
      case None => None
      case Some(p) =>
        match OpenIn(p.heap, p.at, keys[1..], twice, line)
        case None => None
        case Some(q) => Some(Place(q.heap, q.at, p.steps + q.steps))
  }

  // ---- Statements ----

  /** The tree so far, the table that statements fill, and the way to it from the root. */
  datatype State = State(heap: Heap, current: Id, way: seq<TreeStep>)

  const START: State := State([Table(1, map[], true, false)], ROOT, [])

  function Do(st: State, s: Statement): Option<State>
    requires s.keys != []
  {
    match s
    case Header(line, keys, twice) =>
      (match OpenIn(st.heap, ROOT, keys, twice, line)
       case None => None
       case Some(p) => Some(State(p.heap, p.at, p.steps)))
    case Pair(line, keys, value) =>
      (match Build(st.heap, value)
       case None => None
       case Some((b, id)) =>
         match AssignIn(b, st.current, keys, id, line)
         case None => None
         case Some(c) => Some(st.(heap := c)))
  }

  predicate HaveKeys(ss: seq<Statement>) {
    forall k | 0 <= k < |ss| :: ss[k].keys != []
  }

  function Run(st: State, ss: seq<Statement>): Option<State>
    requires HaveKeys(ss)
    decreases |ss|
  {
    if ss == [] then Some(st)
    else
      match Do(st, ss[0])
      case None => None
      case Some(t) => Run(t, ss[1..])
  }

  /** parseToml: the text's statements, done in order. */
  function ParseToml(text: seq<nat>): Option<State> {
    match StatementsFrom(text, 0)
    case None => None
    case Some(ss) => Run(START, ss)
  }

  // ---- What every step keeps ----

  /** No way dangles, and the current table is open and stands where its way leads. */
  ghost predicate Valid(st: State) {
    && Since(st.heap, 0) && st.heap != [] && IsOpen(st.heap[ROOT])
    && st.current < |st.heap| && IsOpen(st.heap[st.current])
    && Follow(st.heap, ROOT, st.way) == Some(st.current)
  }

  /** What one part of a header's walk does. */
  ghost predicate IsStep(h: Heap, at: Id, name: Name, p: Place) {
    && Since(p.heap, 0) && Grows(h, p.heap) && p.at < |p.heap| && IsOpen(p.heap[p.at])
    && Follow(p.heap, at, p.steps) == Some(p.at) && KeysOn(p.steps) == [name]
  }

  /** A table that no header has opened yet, or that was not there. */
  predicate IsUndefined(h: Heap, id: Id) {
    id >= |h| || !h[id].Table? || !h[id].defined
  }

  lemma KeyWay(h: Heap, at: Id, name: Name, id: Id)
    requires StepTo(NodeAt(h, at), ByKey(name)) == Some(id)
    ensures Follow(h, at, [ByKey(name)]) == Some(id) && KeysOn([ByKey(name)]) == [name]
  {
    FollowSnoc(h, at, [], ByKey(name));
    assert [] + [ByKey(name)] == [ByKey(name)];
    assert [ByKey(name)][..0] == [];
  }

  lemma ItemWay(h: Heap, at: Id, name: Name, list: Id, index: nat)
    requires StepTo(NodeAt(h, at), ByKey(name)) == Some(list)
    ensures var steps := [ByKey(name), ByItem(index)];
            Follow(h, at, steps) == StepTo(NodeAt(h, list), ByItem(index)) && KeysOn(steps) == [name]
  {
    KeyWay(h, at, name, list);
    FollowSnoc(h, at, [ByKey(name)], ByItem(index));
    var steps := [ByKey(name), ByItem(index)];
    assert [ByKey(name)] + [ByItem(index)] == steps;
    assert steps[..1] == [ByKey(name)];
  }

  lemma BindsGrows(a: Heap, b: Heap, at: Id, name: Name, id: Id)
    requires Binds(a, b, at, name, id) && IsOpen(a[at])
    ensures Grows(a, b)
  {
  }

  lemma NewTableStep(h: Heap, at: Id, name: Name, line: nat, defined: bool)
    requires Since(h, 0) && at < |h| && IsOpen(h[at]) && name !in h[at].entries
    ensures IsStep(h, at, name, Place(MadeTable(h, at, name, line, defined), |h|, [ByKey(name)]))
  {
    var b := MadeTable(h, at, name, line, defined);
    hide Since;
    MadeBinds(h, at, name, line, defined);
    MadeSince(h, at, name, line, defined, 0);
    BindsGrows(h, b, at, name, |h|);
    KeyWay(b, at, name, |h|);
  }

  lemma ItemFits(h: Heap, list: Id, index: nat)
    requires Since(h, 0) && list < |h| && h[list].TableArray? && index < |h[list].items|
    ensures h[list].items[index] < |h|
  {
    assert Fits(h[list], 0, |h|) && StepTo(h[list], ByItem(index)).Some?;
  }

  lemma DownKeeps(h: Heap, at: Id, name: Name, line: nat)
    requires Since(h, 0) && at < |h| && IsOpen(h[at]) && DownIn(h, at, name, line).Some?
    ensures IsStep(h, at, name, DownIn(h, at, name, line).value)
  {
    hide Since, Follow, KeysOn;
    if name !in h[at].entries {
      NewTableStep(h, at, name, line, false);
    } else {
      var next := h[at].entries[name];
      GrowsReflexive(h);
      NextSince(h, at, name, 0);
      KeyWay(h, at, name, next);
      if h[next].TableArray? && h[next].items != [] {
        var last := |h[next].items| - 1;
        ItemFits(h, next, last);
        ItemWay(h, at, name, next, last);
      }
    }
  }

  lemma LastKeeps(h: Heap, at: Id, name: Name, line: nat)
    requires Since(h, 0) && at < |h| && IsOpen(h[at]) && LastIn(h, at, name, line).Some?
    ensures var p := LastIn(h, at, name, line).value;
            IsStep(h, at, name, p) && IsUndefined(h, p.at) && p.heap[p.at].defined
  {
    if name !in h[at].entries {
      hide Follow, KeysOn;
      NewTableStep(h, at, name, line, true);
      MadeBinds(h, at, name, line, true);
    } else {
      DefinedKeeps(h, h[at].entries[name]);
      KeyWay(LastIn(h, at, name, line).value.heap, at, name, h[at].entries[name]);
    }
  }

  lemma DefinedKeeps(h: Heap, id: Id)
    requires Since(h, 0) && id < |h| && h[id].Table? && !h[id].defined
    ensures var b := h[id := h[id].(defined := true)]; Since(b, 0) && Grows(h, b) && IsOpen(b[id])
  {
    var b := h[id := h[id].(defined := true)];
    forall k | 0 <= k < |b| ensures Fits(b[k], 0, |b|) {
      assert Fits(h[k], 0, |h|);
      assert forall step: TreeStep :: StepTo(b[k], step) == StepTo(h[k], step);
    }
  }

  lemma ItemKeeps(h: Heap, at: Id, name: Name, line: nat)
    requires Since(h, 0) && at < |h| && IsOpen(h[at]) && ItemIn(h, at, name, line).Some?
    ensures var p := ItemIn(h, at, name, line).value;
            IsStep(h, at, name, p) && IsUndefined(h, p.at) && p.heap[p.at].defined
  {
    var item := Table(line, map[], true, false);
    hide Follow, KeysOn;
    if name !in h[at].entries {
      FirstItem(h, at, name, line);
      ItemWay(ItemIn(h, at, name, line).value.heap, at, name, |h| + 1, 0);
    } else {
      var list := h[at].entries[name];
      NextItem(h, list, item);
      ItemWay(ItemIn(h, at, name, line).value.heap, at, name, list, |h[list].items|);
    }
  }

  lemma FirstItem(h: Heap, at: Id, name: Name, line: nat)
    requires Since(h, 0) && at < |h| && IsOpen(h[at]) && name !in h[at].entries
    ensures var p := ItemIn(h, at, name, line);
            && p.Some? && Since(p.value.heap, 0) && Grows(h, p.value.heap) && |p.value.heap| == |h| + 2
            && p.value.heap[|h|] == Table(line, map[], true, false)
            && p.value.heap[|h| + 1] == TableArray(line, [|h|])
            && StepTo(NodeAt(p.value.heap, at), ByKey(name)) == Some(|h| + 1)
  {
    var item, list := Table(line, map[], true, false), TableArray(line, [|h|]);
    var made := h + [item] + [list];
    assert h + [item, list] == made;
    MoreSince(h, item, 0);
    assert Fits(list, 0, |h + [item]|);
    MoreSince(h + [item], list, 0);
    BoundSince(made, at, name, |h| + 1, 0);
  }

  lemma NextItem(h: Heap, list: Id, item: Node)
    requires Since(h, 0) && list < |h| && h[list].TableArray? && Fits(item, 0, |h|)
    ensures var items := h[list].items;
            var b := h[list := h[list].(items := items + [|h|])] + [item];
            Since(b, 0) && Grows(h, b) && StepTo(b[list], ByItem(|items|)) == Some(|h|)
  {
    var items := h[list].items;
    var b := h[list := h[list].(items := items + [|h|])] + [item];
    forall k | 0 <= k < |b| ensures Fits(b[k], 0, |b|) {
      if k == list {
        assert Fits(h[list], 0, |h|);
        forall step: TreeStep | StepTo(b[k], step).Some? ensures StepTo(b[k], step).value < |b| {
          assert step.index < |items| ==> StepTo(h[k], step).Some?;
        }
      } else if k < |h| {
        assert Fits(h[k], 0, |h|);
      }
    }
  }

  /** A header's whole walk. */
  ghost predicate IsOpened(h: Heap, at: Id, keys: seq<Name>, p: Place) {
    && Since(p.heap, 0) && Grows(h, p.heap) && p.at < |p.heap| && IsOpen(p.heap[p.at]) && p.heap[p.at].defined
    && Follow(p.heap, at, p.steps) == Some(p.at) && KeysOn(p.steps) == keys && IsUndefined(h, p.at)
  }

  lemma {:induction false} OpenKeeps(h: Heap, at: Id, keys: seq<Name>, twice: bool, line: nat)
    requires keys != [] && Since(h, 0) && at < |h| && IsOpen(h[at]) && OpenIn(h, at, keys, twice, line).Some?
    ensures IsOpened(h, at, keys, OpenIn(h, at, keys, twice, line).value)
    decreases |keys|
  {
    hide Since, Grows, Follow, KeysOn, DownIn, LastIn, ItemIn;
    if |keys| == 1 {
      assert keys == [keys[0]];
      if twice {
        ItemKeeps(h, at, keys[0], line);
      } else {
        LastKeeps(h, at, keys[0], line);
      }
    } else {
      DownKeeps(h, at, keys[0], line);
      var p := DownIn(h, at, keys[0], line).value;
      OpenKeeps(p.heap, p.at, keys[1..], twice, line);
      OpenOn(h, at, keys, p, OpenIn(p.heap, p.at, keys[1..], twice, line).value);
    }
  }

  lemma OpenOn(h: Heap, at: Id, keys: seq<Name>, p: Place, q: Place)
    requires keys != [] && at < |h| && IsStep(h, at, keys[0], p) && IsOpened(p.heap, p.at, keys[1..], q)
    ensures IsOpened(h, at, keys, Place(q.heap, q.at, p.steps + q.steps))
  {
    hide Since, Follow, KeysOn;
    GrowsTransitive(h, p.heap, q.heap);
    GrowsKeeps(p.heap, q.heap);
    FollowKeeps(p.heap, q.heap, at, p.steps);
    FollowConcat(q.heap, at, p.steps, q.steps);
    KeysConcat(p.steps, q.steps);
    assert [keys[0]] + keys[1..] == keys;
    assert q.at < |h| ==> NodeGrows(h[q.at], p.heap[q.at]);
  }

  /** What a pair does, and what it finds. */
  ghost predicate IsPaired(st: State, keys: seq<Name>, value: Value, t: State) {
    && t.current == st.current && t.way == st.way
    && var path := st.way + KeySteps(keys);
       && Follow(st.heap, ROOT, path) == None
       && var there := Follow(t.heap, ROOT, path);
          there.Some? && IsNew(st.heap, t.heap, there.value) && Says(t.heap, there.value, value)
  }

  /** A node that was not there before and that nothing will change any more. */
  predicate IsNew(a: Heap, b: Heap, id: Id) {
    |a| <= id < |b| && IsSettled(b[id])
  }

  /** Every step: the state stays valid, and no binding is lost. */
  ghost predicate IsDone(st: State, s: Statement, t: State) {
    && Valid(t) && Grows(st.heap, t.heap)
    && (s.Header? ==> KeysOn(t.way) == s.keys && IsUndefined(st.heap, t.current) && t.heap[t.current].defined)
    && (s.Pair? ==> IsPaired(st, s.keys, s.value, t))
  }

  lemma OpenStays(a: Heap, b: Heap, id: Id)
    requires Grows(a, b) && id < |a| && IsOpen(a[id])
    ensures id < |b| && IsOpen(b[id])
  {
    assert NodeGrows(a[id], b[id]);
  }

  lemma SettledStays(a: Heap, b: Heap, id: Id)
    requires Grows(a, b) && id < |a| && IsSettled(a[id])
    ensures id < |b| && b[id] == a[id]
  {
    assert NodeGrows(a[id], b[id]);
  }

  /** A pair, once its value is built and bound. */
  lemma PairDone(st: State, b: Heap, id: Id, keys: seq<Name>, value: Value, c: Heap)
    requires Valid(st) && IsBuilt(st.heap, value, b, id) && Since(c, 0)
    requires OneMore(b, c, st.current)
    requires Follow(b, st.current, KeySteps(keys)) == None && Follow(c, st.current, KeySteps(keys)) == Some(id)
    ensures var t := st.(heap := c); Valid(t) && Grows(st.heap, c) && IsPaired(st, keys, value, t)
  {
    var h, path := st.heap, st.way + KeySteps(keys);
    hide Since, Follow, Keeps, Says, OneMore;
    ApartExtends(h, b);
    OpenStays(h, b, st.current);
    OneMoreGrows(b, c, st.current);
    GrowsTransitive(h, b, c);
    GrowsKeeps(b, c);
    GrowsKeeps(h, c);
    FollowKeeps(h, c, ROOT, st.way);
    FollowConcat(c, ROOT, st.way, KeySteps(keys));
    FollowConcat(h, ROOT, st.way, KeySteps(keys));
    if Follow(h, st.current, KeySteps(keys)).Some? {
      FollowKeeps(h, b, st.current, KeySteps(keys));
      assert false;
    }
    OpenStays(h, c, ROOT);
    OpenStays(h, c, st.current);
    SettledStays(b, c, id);
    SaysKept(b, c, id, value);
  }

  /** What is built apart from a heap in which nothing dangles leaves nothing dangling. */
  lemma ApartSince(h: Heap, b: Heap)
    requires Since(h, 0) && Apart(h, b, |h|)
    ensures Since(b, 0)
  {
    forall k | 0 <= k < |b| ensures Fits(b[k], 0, |b|) {
      if k < |h| {
        assert b[k] == h[k] && Fits(h[k], 0, |h|);
      } else {
        assert Fits(b[k], |h|, |b|);
      }
    }
  }

  lemma DoKeeps(st: State, s: Statement)
    requires Valid(st) && s.keys != [] && Do(st, s).Some?
    ensures IsDone(st, s, Do(st, s).value)
  {
    hide Since, Follow, Apart, OneMore, OpenIn, AssignIn, Build, Says;
    match s {
      case Header(line, keys, twice) =>
        OpenKeeps(st.heap, ROOT, keys, twice, line);
        OpenStays(st.heap, OpenIn(st.heap, ROOT, keys, twice, line).value.heap, ROOT);
      case Pair(line, keys, value) =>
        var (b, id) := Build(st.heap, value).value;
        BuildBuilds(st.heap, value);
        ApartExtends(st.heap, b);
        ApartSince(st.heap, b);
        OpenStays(st.heap, b, st.current);
        AssignBinds(b, st.current, keys, id, line);
        AssignApart(b, st.current, keys, id, line, 0);
        ApartIsSince(b, AssignIn(b, st.current, keys, id, line).value, 0);
        PairDone(st, b, id, keys, value, AssignIn(b, st.current, keys, id, line).value);
    }
  }

  lemma ApartIsSince(a: Heap, b: Heap, since: nat)
    requires Apart(a, b, since)
    ensures Since(b, since)
  {
  }

  // ---- Whole texts ----

  lemma StartValid()
    ensures Valid(START)
  {
  }

  /** Every accepted run keeps the state valid and loses no binding. */
  lemma {:induction false} RunGrows(st: State, ss: seq<Statement>)
    requires Valid(st) && HaveKeys(ss) && Run(st, ss).Some?
    ensures Valid(Run(st, ss).value) && Grows(st.heap, Run(st, ss).value.heap)
    decreases |ss|
  {
    hide Valid, Grows, Do;
    if ss == [] {
      GrowsReflexive(st.heap);
    } else {
      var t := Do(st, ss[0]).value;
      DoKeeps(st, ss[0]);
      RunGrows(t, ss[1..]);
      GrowsTransitive(st.heap, t.heap, Run(t, ss[1..]).value.heap);
    }
  }

  lemma {:induction false} RunSplits(st: State, ss: seq<Statement>, n: nat)
    requires HaveKeys(ss) && n <= |ss| && Run(st, ss).Some?
    ensures Run(st, ss[..n]).Some? && Run(Run(st, ss[..n]).value, ss[n..]) == Run(st, ss)
    decreases n
  {
    hide Do;
    if n > 0 {
      RunSplits(Do(st, ss[0]).value, ss[1..], n - 1);
      assert ss[..n][1..] == ss[1..][..n - 1] && ss[1..][n - 1..] == ss[n..];
    } else {
      assert ss[0..] == ss;
    }
  }

  /** The state before a statement of a run that is accepted. */
  function Before(ss: seq<Statement>, n: nat): State
    requires HaveKeys(ss) && n <= |ss|
  {
    match Run(START, ss[..n])
    case None => START
    case Some(st) => st
  }

  /** One statement of a run: what is before it, what it does, and what comes of it. */
  lemma {:induction false} RunAt(ss: seq<Statement>, n: nat)
    requires HaveKeys(ss) && n < |ss| && Run(START, ss).Some?
    ensures Valid(Before(ss, n)) && IsDone(Before(ss, n), ss[n], Before(ss, n + 1))
    ensures Grows(Before(ss, n + 1).heap, Run(START, ss).value.heap)
  {
    hide Valid, Grows, Do, IsDone;
    var st := Before(ss, n);
    RunSplits(START, ss, n);
    StartValid();
    RunGrows(START, ss[..n]);
    RunSplits(START, ss, n + 1);
    assert ss[..n + 1][..n] == ss[..n] && ss[..n + 1][n..] == [ss[n]];
    RunSplits(START, ss[..n + 1], n);
    RunOne(st, ss[n]);
    DoKeeps(st, ss[n]);
    StepValid(st, ss[n], Before(ss, n + 1));
    RunGrows(Before(ss, n + 1), ss[n + 1..]);
  }

  lemma StepValid(st: State, s: Statement, t: State)
    requires IsDone(st, s, t)
    ensures Valid(t)
  {
  }

  lemma RunOne(st: State, s: Statement)
    requires s.keys != []
    ensures Run(st, [s]) == Do(st, s)
  {
  }

  /** The header a pair stands under: the keys of the last one before it, or none. */
  function HeaderOf(ss: seq<Statement>): seq<Name> {
    if ss == [] then []
    else if ss[|ss| - 1].Header? then ss[|ss| - 1].keys
    else HeaderOf(ss[..|ss| - 1])
  }

  lemma StepWay(st: State, s: Statement, t: State)
    requires IsDone(st, s, t)
    ensures if s.Header? then KeysOn(t.way) == s.keys else t.way == st.way
  {
    hide Valid, Grows;
  }

  lemma {:induction false} WayIsHeader(ss: seq<Statement>, n: nat)
    requires HaveKeys(ss) && n <= |ss| && Run(START, ss).Some?
    ensures KeysOn(Before(ss, n).way) == HeaderOf(ss[..n])
  {
    hide Valid, Grows, Do, IsDone;
    if n > 0 {
      WayIsHeader(ss, n - 1);
      RunAt(ss, n - 1);
      StepWay(Before(ss, n - 1), ss[n - 1], Before(ss, n));
      assert ss[..n][..n - 1] == ss[..n - 1];
    }
  }

  /** Where a pair's value is bound: below the table of its header. */
  function PathOf(ss: seq<Statement>, n: nat): seq<TreeStep>
    requires HaveKeys(ss) && n < |ss|
  {
    Before(ss, n).way + KeySteps(ss[n].keys)
  }

  /**
    On every accepted text each pair stays bound, in the final tree, at its own keys below its own header,
    to its own value; and nothing was bound there before it.
   */
  lemma {:induction false} PairStaysBound(ss: seq<Statement>, n: nat)
    requires HaveKeys(ss) && n < |ss| && Run(START, ss).Some? && ss[n].Pair?
    ensures var end, path := Run(START, ss).value.heap, PathOf(ss, n);
            && KeysOn(path) == HeaderOf(ss[..n]) + ss[n].keys
            && Follow(Before(ss, n).heap, ROOT, path) == None
            && Follow(end, ROOT, path).Some? && Says(end, Follow(end, ROOT, path).value, ss[n].value)
  {
    hide Before, Says, Follow, Keeps, Grows;
    var st, t, end, path := Before(ss, n), Before(ss, n + 1), Run(START, ss).value.heap, PathOf(ss, n);
    RunAt(ss, n);
    WayIsHeader(ss, n);
    KeysConcat(st.way, KeySteps(ss[n].keys));
    KeysOfSteps(ss[n].keys);
    GrowsKeeps(t.heap, end);
    FollowKeeps(t.heap, end, ROOT, path);
    SaysKept(t.heap, end, Follow(t.heap, ROOT, path).value, ss[n].value);
  }

  /** Every pair of a list of statements is found in a tree, at its keys below its header, with its value. */
  ghost predicate HoldsPairs(end: Heap, ss: seq<Statement>) {
    forall n | 0 <= n < |ss| && ss[n].Pair? ::
      exists path: seq<TreeStep> ::
        && KeysOn(path) == HeaderOf(ss[..n]) + ss[n].keys
        && Follow(end, ROOT, path).Some? && Says(end, Follow(end, ROOT, path).value, ss[n].value)
  }

  lemma {:induction false} AllStayBound(ss: seq<Statement>)
    requires HaveKeys(ss) && Run(START, ss).Some?
    ensures HoldsPairs(Run(START, ss).value.heap, ss)
  {
    hide KeysOn, HeaderOf, Follow, Says, Run, PathOf, Before;
    forall n | 0 <= n < |ss| && ss[n].Pair?
      ensures exists path: seq<TreeStep> ::
                && KeysOn(path) == HeaderOf(ss[..n]) + ss[n].keys
                && Follow(Run(START, ss).value.heap, ROOT, path).Some?
                && Says(Run(START, ss).value.heap, Follow(Run(START, ss).value.heap, ROOT, path).value, ss[n].value)
    {
      PairStaysBound(ss, n);
      var path := PathOf(ss, n);
      assert KeysOn(path) == HeaderOf(ss[..n]) + ss[n].keys;
    }
  }

  /** The states of a run come one from the other. */
  lemma {:induction false} BeforeGrows(ss: seq<Statement>, m: nat, n: nat)
    requires HaveKeys(ss) && m <= n <= |ss| && Run(START, ss).Some?
    ensures Grows(Before(ss, m).heap, Before(ss, n).heap)
  {
    RunSplits(START, ss, n);
    RunSplits(START, ss[..n], m);
    assert ss[..n][..m] == ss[..m];
    StartValid();
    RunGrows(START, ss[..m]);
    RunGrows(Before(ss, m), ss[..n][m..]);
  }

  /** No two pairs are bound at one place. */
  lemma {:induction false} PairsApart(ss: seq<Statement>, m: nat, n: nat)
    requires HaveKeys(ss) && m < n < |ss| && Run(START, ss).Some? && ss[m].Pair? && ss[n].Pair?
    ensures PathOf(ss, m) != PathOf(ss, n)
  {
    hide Before, Says, Follow, Keeps, Grows;
    RunAt(ss, m);
    RunAt(ss, n);
    BeforeGrows(ss, m + 1, n);
    GrowsKeeps(Before(ss, m + 1).heap, Before(ss, n).heap);
    FollowKeeps(Before(ss, m + 1).heap, Before(ss, n).heap, ROOT, PathOf(ss, m));
  }

  /** Every header's table stands, in the final tree, where its keys lead, and is marked as opened. */
  lemma {:induction false} HeaderStaysOpen(ss: seq<Statement>, n: nat)
    requires HaveKeys(ss) && n < |ss| && Run(START, ss).Some? && ss[n].Header?
    ensures var end, way := Run(START, ss).value.heap, Before(ss, n + 1).way;
            && KeysOn(way) == ss[n].keys
            && Follow(end, ROOT, way) == Some(Before(ss, n + 1).current)
            && var there := Before(ss, n + 1).current; there < |end| && IsOpen(end[there]) && end[there].defined
  {
    hide Before, Says, Follow, Keeps, Grows;
    var t, end := Before(ss, n + 1), Run(START, ss).value.heap;
    RunAt(ss, n);
    DefinedStays(t.heap, end, t.current);
    GrowsKeeps(t.heap, end);
    FollowKeeps(t.heap, end, ROOT, t.way);
  }

  lemma DefinedStays(a: Heap, b: Heap, id: Id)
    requires Grows(a, b) && id < |a| && IsOpen(a[id]) && a[id].defined
    ensures id < |b| && IsOpen(b[id]) && b[id].defined
  {
    assert NodeGrows(a[id], b[id]);
  }

  /** No two headers open one table. */
  lemma {:induction false} HeadersApart(ss: seq<Statement>, m: nat, n: nat)
    requires HaveKeys(ss) && m < n < |ss| && Run(START, ss).Some? && ss[m].Header? && ss[n].Header?
    ensures Before(ss, m + 1).current != Before(ss, n + 1).current && Before(ss, m + 1).way != Before(ss, n + 1).way
  {
    hide Before, Says, Follow, Keeps, Grows;
    var t, u, v := Before(ss, m + 1), Before(ss, n), Before(ss, n + 1);
    RunAt(ss, m);
    RunAt(ss, n);
    BeforeGrows(ss, m + 1, n);
    DefinedStays(t.heap, u.heap, t.current);
    GrowsKeeps(t.heap, u.heap);
    FollowKeeps(t.heap, u.heap, ROOT, t.way);
    GrowsKeeps(u.heap, v.heap);
    FollowKeeps(u.heap, v.heap, ROOT, t.way);
  }
}
