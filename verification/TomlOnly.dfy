/**
  What the tree of a TOML text does not hold (tools/port-deps.cjs): nothing leads to a value but the keys of
  the pair that has it, so the final tree holds the values of the text and no others.
 */
module TomlOnly {
  import opened Wrappers
  import opened TomlSyntax
  import opened TomlTree
  import opened TomlBuild
  import opened TomlRun

  // ---- The heap is a tree ----

  /** Nothing leads to a node. */
  ghost predicate Unled(h: Heap, id: Id) {
    forall k, step: TreeStep | 0 <= k < |h| :: StepTo(h[k], step) != Some(id)
  }

  /** One step of one node, at most, leads to a node. */
  ghost predicate OneParent(h: Heap) {
    forall j, k, s: TreeStep, u: TreeStep |
      0 <= j < |h| && 0 <= k < |h| && StepTo(h[j], s).Some? && StepTo(h[j], s) == StepTo(h[k], u) :: j == k && s == u
  }

  /** Whatever nothing led to, nothing leads to now, but for one node. */
  ghost predicate KeepsUnled(a: Heap, b: Heap, except: Id) {
    forall y: Id | y < |a| && y != except && Unled(a, y) :: Unled(b, y)
  }

  lemma SameParent(h: Heap, j: Id, s: TreeStep, k: Id, u: TreeStep)
    requires OneParent(h) && StepTo(NodeAt(h, j), s).Some? && StepTo(NodeAt(h, j), s) == StepTo(NodeAt(h, k), u)
    ensures j == k && s == u
  {
    assert j < |h| && k < |h|;
  }

  /** So one way leads from a root to a node. */
  lemma {:induction false} OneWay(h: Heap, root: Id, p: seq<TreeStep>, q: seq<TreeStep>)
    requires OneParent(h) && Unled(h, root) && Follow(h, root, p).Some? && Follow(h, root, p) == Follow(h, root, q)
    ensures p == q
    decreases |p|
  {
    hide OneParent, StepTo;
    if p != [] && q != [] {
      var m, n := |p| - 1, |q| - 1;
      var j, k := Follow(h, root, p[..m]).value, Follow(h, root, q[..n]).value;
      SameParent(h, j, p[m], k, q[n]);
      OneWay(h, root, p[..m], q[..n]);
      assert p == p[..m] + [p[m]] && q == q[..n] + [q[n]];
    } else if p != [] {
      NotLed(h, root, p);
    } else if q != [] {
      NotLed(h, root, q);
    }
  }

  lemma NotLed(h: Heap, root: Id, p: seq<TreeStep>)
    requires Unled(h, root) && p != []
    ensures Follow(h, root, p) != Some(root)
  {
    var n := |p| - 1;
    var at := Follow(h, root, p[..n]);
    assert at.Some? && at.value < |h| ==> StepTo(h[at.value], p[n]) != Some(root);
  }

  /** The steps of a heap and one more. */
  ghost predicate OneStepMore(a: Heap, b: Heap, at: Id, lead: TreeStep, id: Id) {
    && |a| <= |b|
    && forall k, step: TreeStep | 0 <= k < |b| ::
         StepTo(b[k], step) == if k == at && step == lead then Some(id)
                               else if k < |a| then StepTo(a[k], step) else None
  }

  lemma BoundStep(h: Heap, at: Id, name: Name, id: Id)
    requires at < |h| && h[at].Table?
    ensures OneStepMore(h, Bound(h, at, name, id), at, ByKey(name), id)
  {
  }

  lemma MadeStep(h: Heap, at: Id, name: Name, line: nat, defined: bool)
    requires at < |h| && h[at].Table?
    ensures OneStepMore(h, MadeTable(h, at, name, line, defined), at, ByKey(name), |h|)
  {
    var node := Table(line, map[], defined, false);
    assert forall step: TreeStep :: StepTo(node, step) == None;
  }

  lemma {:induction false} StepTree(a: Heap, b: Heap, at: Id, lead: TreeStep, id: Id)
    requires OneParent(a) && Unled(a, id) && OneStepMore(a, b, at, lead, id)
    ensures OneParent(b) && KeepsUnled(a, b, id)
  {
    hide StepTo;
    forall y: Id | y < |a| && y != id && Unled(a, y) ensures Unled(b, y) {
    }
  }

  lemma StepKnown(a: Heap, b: Heap, at: Id, lead: TreeStep, id: Id, k: Id, step: TreeStep)
    requires OneStepMore(a, b, at, lead, id) && k < |b| && StepTo(b[k], step).Some?
    ensures if k == at && step == lead then StepTo(b[k], step) == Some(id)
            else k < |a| && StepTo(b[k], step) == StepTo(a[k], step)
  {
  }

  lemma NewUnled(h: Heap, id: Id)
    requires Since(h, 0) && |h| <= id
    ensures Unled(h, id)
  {
    forall k, step: TreeStep | 0 <= k < |h| ensures StepTo(h[k], step) != Some(id) {
      assert Fits(h[k], 0, |h|);
    }
  }

  /** A node that leads nowhere. */
  lemma {:induction false} MoreTree(h: Heap, node: Node)
    requires Since(h, 0) && OneParent(h) && !node.TableArray? && EntriesOf(node) == map[]
    ensures OneParent(h + [node]) && Unled(h + [node], |h|) && KeepsUnled(h, h + [node], |h|)
  {
    var b := h + [node];
    assert forall k, step: TreeStep | 0 <= k < |b| ::
        StepTo(b[k], step) == if k < |h| then StepTo(h[k], step) else None;
    NewUnled(h, |h|);
    forall y: Id | Unled(h, y) ensures Unled(b, y) {
    }
  }

  // ---- What a binding adds ----

  /** A way in the grown heap is one that was there, or goes by the new step. */
  lemma {:induction false} ByNewStep(a: Heap, b: Heap, root: Id, way: seq<TreeStep>, at: Id, name: Name, id: Id,
                                     p: seq<TreeStep>)
    requires OneParent(a) && Unled(a, root) && OneStepMore(a, b, at, ByKey(name), id)
    requires Follow(a, root, way) == Some(at) && Follow(b, root, p).Some?
    ensures || Follow(a, root, p) == Follow(b, root, p)
            || (way + [ByKey(name)] <= p && Follow(b, id, p[|way| + 1..]) == Follow(b, root, p))
    decreases |p|
  {
    hide OneParent, Unled, OneStepMore, StepTo;
    if p != [] {
      var n := |p| - 1;
      var init, y := p[..n], Follow(b, root, p[..n]).value;
      NodeIsThere(b, y, p[n]);
      ByNewStep(a, b, root, way, at, name, id, init);
      StepKnown(a, b, at, ByKey(name), id, y, p[n]);
      if way + [ByKey(name)] <= init && Follow(b, id, init[|way| + 1..]) == Some(y) {
        assert p[|way| + 1..] == init[|way| + 1..] + [p[n]];
        FollowSnoc(b, id, init[|way| + 1..], p[n]);
      } else if y == at && p[n] == ByKey(name) {
        OneWay(a, root, init, way);
        assert p == way + [ByKey(name)] && p[|way| + 1..] == [];
      }
    }
  }

  lemma NodeIsThere(h: Heap, id: Id, step: TreeStep)
    requires StepTo(NodeAt(h, id), step).Some?
    ensures id < |h|
  {
  }

  lemma {:induction false} AssignTree(h: Heap, at: Id, parts: seq<Name>, id: Id, line: nat)
    requires parts != [] && at < |h| && h[at].Table? && id < |h| && Since(h, 0) && OneParent(h) && Unled(h, id)
    requires AssignIn(h, at, parts, id, line).Some?
    ensures var b := AssignIn(h, at, parts, id, line).value; OneParent(b) && KeepsUnled(h, b, id)
    decreases |parts|
  {
    hide Since, OneParent, Unled, StepTo, MadeTable;
    var name := parts[0];
    if |parts| == 1 {
      BoundStep(h, at, name, id);
      StepTree(h, Bound(h, at, name, id), at, ByKey(name), id);
    } else if name !in h[at].entries {
      var made := MadeTable(h, at, name, line, true);
      MadeTree(h, at, name, line, true);
      MadeSince(h, at, name, line, true, 0);
      AssignTree(made, |h|, parts[1..], id, line);
    } else {
      NextSince(h, at, name, 0);
      AssignTree(h, h[at].entries[name], parts[1..], id, line);
    }
  }

  lemma MadeTree(h: Heap, at: Id, name: Name, line: nat, defined: bool)
    requires at < |h| && h[at].Table? && Since(h, 0) && OneParent(h)
    ensures var made := MadeTable(h, at, name, line, defined); OneParent(made) && KeepsUnled(h, made, |h|)
  {
    hide OneParent, Unled, StepTo, MadeTable, Since;
    MadeStep(h, at, name, line, defined);
    NewUnled(h, |h|);
    StepTree(h, MadeTable(h, at, name, line, defined), at, ByKey(name), |h|);
  }

  /**
    After an assignment a way is one that was there, or goes by the parts that were assigned, or ends at a
    table that statements may still fill.
   */
  lemma {:induction false} AssignOnly(h: Heap, root: Id, way: seq<TreeStep>, at: Id, parts: seq<Name>, id: Id,
                                      line: nat, p: seq<TreeStep>)
    requires parts != [] && at < |h| && h[at].Table? && id < |h| && root < |h|
    requires Since(h, 0) && OneParent(h) && Unled(h, id) && Unled(h, root) && Follow(h, root, way) == Some(at)
    requires AssignIn(h, at, parts, id, line).Some?
    requires Follow(AssignIn(h, at, parts, id, line).value, root, p).Some?
    ensures var b := AssignIn(h, at, parts, id, line).value;
            || Follow(h, root, p) == Follow(b, root, p)
            || way + KeySteps(parts) <= p
            || IsOpen(NodeAt(b, Follow(b, root, p).value))
    decreases |parts|
  {
    hide Since, OneParent, Unled, StepTo, Follow, MadeTable, KeySteps;
    var name, rest, b := parts[0], parts[1..], AssignIn(h, at, parts, id, line).value;
    var next := way + [ByKey(name)];
    WayOn(way, parts);
    if |parts| == 1 {
      BoundStep(h, at, name, id);
      ByNewStep(h, b, root, way, at, name, id, p);
    } else if name !in h[at].entries {
      MadeTree(h, at, name, line, true);
      MadeSince(h, at, name, line, true, 0);
      MadeWay(h, root, way, at, name, line);
      var made := MadeTable(h, at, name, line, true);
      AssignOnly(made, root, next, |h|, rest, id, line, p);
      if Follow(made, root, p) == Follow(b, root, p) {
        MadeStep(h, at, name, line, true);
        ByNewStep(h, made, root, way, at, name, |h|, p);
        if Follow(h, root, p) != Follow(b, root, p) {
          FromEmpty(made, |h|, p[|way| + 1..]);
          NoWay(made, |h|);
          AssignEmptyOpen(made, |h|, rest, id, line);
        }
      }
    } else {
      NextSince(h, at, name, 0);
      KeyStep(h, at, name);
      FollowSnoc(h, root, way, ByKey(name));
      AssignOnly(h, root, next, h[at].entries[name], rest, id, line, p);
    }
  }

  lemma WayOn(way: seq<TreeStep>, parts: seq<Name>)
    requires parts != []
    ensures way + KeySteps(parts) == way + [ByKey(parts[0])] + KeySteps(parts[1..])
    ensures |parts| == 1 ==> KeySteps(parts) == [ByKey(parts[0])]
  {
    StepNames(parts);
  }

  lemma KeyStep(h: Heap, at: Id, name: Name)
    requires at < |h| && h[at].Table? && name in h[at].entries
    ensures StepTo(NodeAt(h, at), ByKey(name)) == Some(h[at].entries[name])
  {
  }

  lemma MadeWay(h: Heap, root: Id, way: seq<TreeStep>, at: Id, name: Name, line: nat)
    requires at < |h| && h[at].Table? && name !in h[at].entries && Follow(h, root, way) == Some(at)
    ensures Follow(MadeTable(h, at, name, line, true), root, way + [ByKey(name)]) == Some(|h|)
  {
    var made := MadeTable(h, at, name, line, true);
    hide Follow, MadeTable, StepTo;
    MadeBinds(h, at, name, line, true);
    BindsKeeps(h, made, at, name, |h|);
    FollowKeeps(h, made, root, way);
    FollowSnoc(made, root, way, ByKey(name));
  }

  lemma {:induction false} FromEmpty(h: Heap, at: Id, p: seq<TreeStep>)
    requires at < |h| && h[at].Table? && h[at].entries == map[] && Follow(h, at, p).Some?
    ensures p == []
    decreases |p|
  {
    if p != [] {
      FromEmpty(h, at, p[..|p| - 1]);
    }
  }

  /** The table a walk goes on from stays open. */
  lemma AssignEmptyOpen(h: Heap, at: Id, parts: seq<Name>, id: Id, line: nat)
    requires parts != [] && at < |h| && IsOpen(h[at]) && AssignIn(h, at, parts, id, line).Some?
    ensures IsOpen(NodeAt(AssignIn(h, at, parts, id, line).value, at))
  {
    var b := AssignIn(h, at, parts, id, line).value;
    hide AssignIn;
    AssignBinds(h, at, parts, id, line);
    OneMoreKeeps(h, b, at);
    assert SameKind(h[at], b[at]);
  }

  // ---- What a value adds ----

  /** A way below a value's node that leads to a value: nowhere, or by the keys of an entry and on below its value. */
  ghost predicate InValue(v: Value, r: seq<TreeStep>)
    decreases v
  {
    r == [] || (v.InlineValue? && exists k | 0 <= k < |v.entries| :: InEntry(v.entries[k], r))
  }

  ghost predicate InEntry(entry: Entry, r: seq<TreeStep>)
    decreases entry
  {
    KeySteps(entry.keys) <= r && InValue(entry.value, r[|entry.keys|..])
  }

  ghost predicate InEntries(entries: seq<Entry>, r: seq<TreeStep>) {
    exists k | 0 <= k < |entries| :: InEntry(entries[k], r)
  }

  /** A way leads to a value. */
  ghost predicate HasValueAt(h: Heap, root: Id, p: seq<TreeStep>) {
    Follow(h, root, p).Some? && IsSettled(NodeAt(h, Follow(h, root, p).value))
  }

  /** Below nodes that keep to themselves and have not changed, nothing leads elsewhere. */
  lemma {:induction false} FollowWithin(a: Heap, b: Heap, since: nat, from: Id, r: seq<TreeStep>)
    requires Since(a, since) && since <= from < |a| <= |b| && forall k | since <= k < |a| :: b[k] == a[k]
    ensures Follow(b, from, r) == Follow(a, from, r)
    ensures Follow(a, from, r).Some? ==> since <= Follow(a, from, r).value < |a|
    decreases |r|
  {
    hide StepTo;
    if r != [] {
      FollowWithin(a, b, since, from, r[..|r| - 1]);
      var at := Follow(a, from, r[..|r| - 1]);
      if at.Some? {
        assert Fits(a[at.value], since, |a|);
      }
    }
  }

  /** An assignment from below a place leaves what is above it alone, if nothing below leads above. */
  lemma {:induction false} AssignElsewhere(h: Heap, at: Id, parts: seq<Name>, id: Id, line: nat, end: nat)
    requires parts != [] && at < end <= |h| && h[at].Table? && Since(h[..end], 0)
    requires AssignIn(h, at, parts, id, line).Some?
    ensures var b := AssignIn(h, at, parts, id, line).value;
            |h| <= |b| && forall k | end <= k < |h| :: b[k] == h[k]
    decreases |parts|
  {
    var name := parts[0];
    if |parts| > 1 {
      if name !in h[at].entries {
        AssignEmpty(MadeTable(h, at, name, line, true), |h|, parts[1..], id, line);
      } else {
        NextSince(h[..end], at, name, 0);
        AssignElsewhere(h, h[at].entries[name], parts[1..], id, line, end);
      }
    }
  }

  lemma {:induction false} BuildTree(h: Heap, v: Value)
    requires Since(h, 0) && OneParent(h) && Build(h, v).Some?
    ensures var (b, id) := Build(h, v).value; OneParent(b) && Unled(b, id) && KeepsUnled(h, b, |h|)
    decreases v
  {
    hide Since, OneParent, Unled;
    match v {
      case StringValue(line, s) => MoreTree(h, Text(line, s));
      case BoolValue(line, b) => MoreTree(h, Flag(line, b));
      case RawValue(line, raw) => MoreTree(h, Other(line, raw));
      case ArrayValue(line, items) =>
        var (b, ids) := BuildAll(h, items).value;
        BuildAllTree(h, items);
        MoreTree(b, Array(line, ids));
      case InlineValue(line, entries) =>
        var node := Table(line, map[], true, true);
        MoreTree(h, node);
        OneNode(h, node);
        ApartSince(h, h + [node]);
        BuildEntriesTree(h + [node], |h|, entries);
    }
  }

  lemma {:induction false} BuildAllTree(h: Heap, items: seq<Value>)
    requires Since(h, 0) && OneParent(h) && BuildAll(h, items).Some?
    ensures var b := BuildAll(h, items).value.0; |h| <= |b| && Since(b, 0) && OneParent(b) && KeepsUnled(h, b, |h|)
    decreases items
  {
    hide Since, OneParent, Unled, Build;
    if items != [] {
      var (b, id) := Build(h, items[0]).value;
      BuildTree(h, items[0]);
      BuildSince(h, items[0]);
      BuildAllTree(b, items[1..]);
    }
  }

  /** What a value leaves: a longer heap, and nothing that dangles. */
  lemma BuildSince(h: Heap, v: Value)
    requires Since(h, 0) && Build(h, v).Some?
    ensures var (b, id) := Build(h, v).value;
            && Extends(h, b) && |h| <= id < |b| && Since(b, 0) && Since(b, |h|) && IsSettled(b[id])
  {
    var (b, id) := Build(h, v).value;
    hide Build, Since;
    BuildBuilds(h, v);
    ApartExtends(h, b);
    ApartSince(h, b);
    ApartIsSince(h, b, |h|);
  }

  lemma {:induction false} BuildEntriesTree(h: Heap, node: Id, entries: seq<Entry>)
    requires Since(h, 0) && OneParent(h) && node < |h| && h[node].Table? && BuildEntries(h, node, entries).Some?
    ensures var b := BuildEntries(h, node, entries).value; |h| <= |b| && OneParent(b) && KeepsUnled(h, b, |h|)
    decreases entries
  {
    hide Since, OneParent, Unled, BuildEntry;
    if entries != [] {
      BuildEntryTree(h, node, entries[0]);
      BuildEntriesTree(BuildEntry(h, node, entries[0]).value, node, entries[1..]);
    }
  }

  lemma {:induction false} BuildEntryTree(h: Heap, node: Id, entry: Entry)
    requires Since(h, 0) && OneParent(h) && node < |h| && h[node].Table? && BuildEntry(h, node, entry).Some?
    ensures var b := BuildEntry(h, node, entry).value;
            |h| <= |b| && Since(b, 0) && OneParent(b) && KeepsUnled(h, b, |h|) && b[node].Table?
    decreases entry
  {
    hide Build;
    BuildTree(h, entry.value);
    BindTree(h, node, entry.keys, entry.value, entry.value.line);
  }

  /** A value's node, built and bound. */
  lemma BindTree(h: Heap, at: Id, keys: seq<Name>, value: Value, line: nat)
    requires Since(h, 0) && OneParent(h) && at < |h| && h[at].Table? && keys != [] && Build(h, value).Some?
    requires var (b, id) := Build(h, value).value;
             OneParent(b) && Unled(b, id) && KeepsUnled(h, b, |h|) && AssignIn(b, at, keys, id, line).Some?
    ensures var (b, id) := Build(h, value).value;
            var c := AssignIn(b, at, keys, id, line).value;
            |h| <= |c| && Since(c, 0) && OneParent(c) && KeepsUnled(h, c, |h|) && c[at].Table?
  {
    hide Since, OneParent, Unled, Build, AssignIn;
    var (b, id) := Build(h, value).value;
    var c := AssignIn(b, at, keys, id, line).value;
    BuildSince(h, value);
    assert b[at] == b[..|h|][at];
    AssignTree(b, at, keys, id, line);
    AssignApart(b, at, keys, id, line, 0);
    ApartIsSince(b, c, 0);
    AssignBinds(b, at, keys, id, line);
    OneMoreKeeps(b, c, at);
    KeptTable(b, c, at);
  }

  /** A value bound: a way that leads to a value led to it before, or goes by the keys and on below the value. */
  lemma {:induction false} BindOnly(h: Heap, root: Id, way: seq<TreeStep>, at: Id, keys: seq<Name>, value: Value,
                                    line: nat, p: seq<TreeStep>)
    requires Since(h, 0) && OneParent(h) && root < |h| && Unled(h, root) && at < |h| && h[at].Table? && keys != []
    requires Follow(h, root, way) == Some(at) && Build(h, value).Some?
    requires var (b, id) := Build(h, value).value;
             && AssignIn(b, at, keys, id, line).Some?
             && HasValueAt(AssignIn(b, at, keys, id, line).value, root, p)
    ensures HasValueAt(h, root, p) || (way + KeySteps(keys) <= p && InValue(value, p[|way + KeySteps(keys)|..]))
    decreases value, 1
  {
    hide Since, OneParent, Unled, Build, AssignIn, Follow, IsSettled, InValue;
    var (b, id) := Build(h, value).value;
    var c := AssignIn(b, at, keys, id, line).value;
    BuildTree(h, value);
    BuildSince(h, value);
    assert b[at] == b[..|h|][at];
    SameBelow(h, b, root, way);
    AssignOnly(b, root, way, at, keys, id, line, p);
    SettledIsClosed(NodeAt(c, Follow(c, root, p).value));
    if way + KeySteps(keys) <= p {
      BoundBelow(h, root, way, at, keys, value, line, p);
      BuildOnly(h, value, p[|way + KeySteps(keys)|..]);
    } else {
      SameBelow(h, b, root, p);
      AssignBinds(b, at, keys, id, line);
      OneMoreKeeps(b, c, at);
      WasSettled(h, b, c, Follow(h, root, p).value);
    }
  }

  lemma SettledIsClosed(node: Node)
    requires IsSettled(node)
    ensures !IsOpen(node)
  {
  }

  /** More nodes after a heap in which nothing dangles lead nowhere from it. */
  lemma SameBelow(h: Heap, b: Heap, from: Id, p: seq<TreeStep>)
    requires Since(h, 0) && from < |h| && Extends(h, b)
    ensures Follow(b, from, p) == Follow(h, from, p)
    ensures Follow(h, from, p).Some? ==> Follow(h, from, p).value < |h|
  {
    assert forall k | 0 <= k < |h| :: b[k] == b[..|h|][k];
    FollowWithin(h, b, 0, from, p);
  }

  lemma WasSettled(h: Heap, b: Heap, c: Heap, x: Id)
    requires Extends(h, b) && Keeps(b, c) && x < |h| && IsSettled(NodeAt(c, x))
    ensures IsSettled(NodeAt(h, x))
  {
    assert b[x] == b[..|h|][x];
    assert SameKind(b[x], c[x]);
  }

  /** Below what was bound everything is as it was built. */
  lemma BoundBelow(h: Heap, root: Id, way: seq<TreeStep>, at: Id, keys: seq<Name>, value: Value, line: nat,
                   p: seq<TreeStep>)
    requires Since(h, 0) && at < |h| && h[at].Table? && keys != [] && root < |h|
    requires Follow(h, root, way) == Some(at) && Build(h, value).Some? && way + KeySteps(keys) <= p
    requires var (b, id) := Build(h, value).value;
             && AssignIn(b, at, keys, id, line).Some?
             && HasValueAt(AssignIn(b, at, keys, id, line).value, root, p)
    ensures var (b, id) := Build(h, value).value; HasValueAt(b, id, p[|way + KeySteps(keys)|..])
  {
    hide Since, Build, AssignIn, Follow, IsSettled, Keeps;
    var (b, id) := Build(h, value).value;
    var c := AssignIn(b, at, keys, id, line).value;
    var rest := p[|way + KeySteps(keys)|..];
    BuildSince(h, value);
    assert b[at] == b[..|h|][at];
    SameBelow(h, b, root, way);
    AssignBinds(b, at, keys, id, line);
    OneMoreKeeps(b, c, at);
    FollowKeeps(b, c, root, way);
    FollowConcat(c, root, way, KeySteps(keys));
    assert p == way + KeySteps(keys) + rest;
    FollowConcat(c, root, way + KeySteps(keys), rest);
    AssignElsewhere(b, at, keys, id, line, |h|);
    FollowWithin(b, c, |h|, id, rest);
  }

  /** Below a value's node a way leads to a value only by the keys of its entries. */
  lemma {:induction false} BuildOnly(h: Heap, v: Value, r: seq<TreeStep>)
    requires Since(h, 0) && OneParent(h) && Build(h, v).Some?
    requires var (b, id) := Build(h, v).value; HasValueAt(b, id, r)
    ensures InValue(v, r)
    decreases v, 0
  {
    hide Since, OneParent, Unled, IsSettled;
    if v.InlineValue? {
      var node := Table(v.line, map[], true, true);
      MoreTree(h, node);
      OneNode(h, node);
      ApartSince(h, h + [node]);
      EmptyHolds(h + [node], |h|);
      EntriesOnly(h + [node], |h|, [], v.entries);
      assert [] + v.entries == v.entries;
      assert r == [] || InEntries(v.entries, r);
    } else {
      var (b, id) := Build(h, v).value;
      Nowhere(b, id, r);
    }
  }

  /** From a node that is no table there is no way. */
  lemma {:induction false} Nowhere(h: Heap, id: Id, r: seq<TreeStep>)
    requires !NodeAt(h, id).Table? && !NodeAt(h, id).TableArray? && Follow(h, id, r).Some?
    ensures r == []
    decreases |r|
  {
    if r != [] {
      Nowhere(h, id, r[..|r| - 1]);
    }
  }

  /** From an inline table in the making, a way leads to a value only by the keys of the entries so far. */
  ghost predicate HoldsEntries(h: Heap, node: Id, entries: seq<Entry>) {
    forall r: seq<TreeStep> | HasValueAt(h, node, r) :: r == [] || InEntries(entries, r)
  }

  lemma EmptyHolds(h: Heap, node: Id)
    requires node < |h| && h[node].Table? && h[node].entries == map[]
    ensures HoldsEntries(h, node, [])
  {
    forall r: seq<TreeStep> | HasValueAt(h, node, r) ensures r == [] {
      FromEmpty(h, node, r);
    }
  }

  lemma {:induction false} EntriesOnly(h: Heap, node: Id, done: seq<Entry>, entries: seq<Entry>)
    requires Since(h, 0) && OneParent(h) && node < |h| && h[node].Table? && Unled(h, node)
    requires BuildEntries(h, node, entries).Some? && HoldsEntries(h, node, done)
    ensures HoldsEntries(BuildEntries(h, node, entries).value, node, done + entries)
    decreases entries, 0
  {
    hide Since, OneParent, Unled, BuildEntry, HoldsEntries;
    if entries == [] {
      assert done + entries == done;
    } else {
      BuildEntryTree(h, node, entries[0]);
      EntryOnly(h, node, done, entries[0]);
      EntriesOnly(BuildEntry(h, node, entries[0]).value, node, done + [entries[0]], entries[1..]);
      assert done + [entries[0]] + entries[1..] == done + entries;
    }
  }

  lemma {:induction false} EntryOnly(h: Heap, node: Id, done: seq<Entry>, entry: Entry)
    requires Since(h, 0) && OneParent(h) && node < |h| && h[node].Table? && Unled(h, node)
    requires BuildEntry(h, node, entry).Some? && HoldsEntries(h, node, done)
    ensures HoldsEntries(BuildEntry(h, node, entry).value, node, done + [entry])
    decreases entry, 0
  {
    hide Since, OneParent, Unled, Build, AssignIn, HasValueAt, InEntry;
    var c := BuildEntry(h, node, entry).value;
    forall r: seq<TreeStep> | HasValueAt(c, node, r) ensures r == [] || InEntries(done + [entry], r) {
      NoWay(h, node);
      BindOnly(h, node, [], node, entry.keys, entry.value, entry.value.line, r);
      assert [] + KeySteps(entry.keys) == KeySteps(entry.keys);
      EntryMore(done, entry, r);
    }
  }

  lemma NoWay(h: Heap, node: Id)
    ensures Follow(h, node, []) == Some(node)
  {
  }

  lemma EntryMore(done: seq<Entry>, entry: Entry, r: seq<TreeStep>)
    ensures InEntries(done, r) ==> InEntries(done + [entry], r)
    ensures KeySteps(entry.keys) <= r && InValue(entry.value, r[|KeySteps(entry.keys)|..]) ==>
              InEntries(done + [entry], r)
  {
    var more := done + [entry];
    assert more[|done|] == entry;
    if InEntries(done, r) {
      var k :| 0 <= k < |done| && InEntry(done[k], r);
      assert more[k] == done[k];
    }
  }

  // ---- What a header adds ----

  /** A header's walk: nothing settled is made, and what leads to a node that was there led to it before. */
  ghost predicate Opens(a: Heap, b: Heap) {
    && |a| <= |b| && OneParent(b) && KeepsUnled(a, b, |a|)
    && (forall k | |a| <= k < |b| :: !IsSettled(b[k]))
    && forall k, step: TreeStep | 0 <= k < |b| && StepTo(b[k], step).Some? && StepTo(b[k], step).value < |a| ::
         k < |a| && StepTo(a[k], step) == StepTo(b[k], step)
  }

  lemma OpensItself(h: Heap)
    requires OneParent(h)
    ensures Opens(h, h)
  {
  }

  lemma OpensTransitive(a: Heap, b: Heap, c: Heap)
    requires Opens(a, b) && Opens(b, c) && Grows(b, c)
    ensures Opens(a, c)
  {
    hide OneParent, StepTo;
    forall k | |a| <= k < |c| ensures !IsSettled(c[k]) {
      if k < |b| {
        assert NodeGrows(b[k], c[k]);
      }
    }
    assert KeepsUnled(a, c, |a|) by {
      hide Unled;
    }
  }

  lemma StepOpens(a: Heap, b: Heap, at: Id, lead: TreeStep, id: Id)
    requires OneParent(a) && Unled(a, id) && OneStepMore(a, b, at, lead, id) && at < |a| <= id
    requires forall k | |a| <= k < |b| :: !IsSettled(b[k])
    ensures Opens(a, b)
  {
    StepTree(a, b, at, lead, id);
    hide OneParent, Unled;
  }

  lemma MadeOpens(h: Heap, at: Id, name: Name, line: nat, defined: bool)
    requires Since(h, 0) && OneParent(h) && at < |h| && h[at].Table? && name !in h[at].entries
    ensures Opens(h, MadeTable(h, at, name, line, defined))
  {
    hide OneParent, Unled, Since, OneStepMore;
    MadeStep(h, at, name, line, defined);
    MadeBinds(h, at, name, line, defined);
    NewUnled(h, |h|);
    StepOpens(h, MadeTable(h, at, name, line, defined), at, ByKey(name), |h|);
  }

  lemma DownOpens(h: Heap, at: Id, name: Name, line: nat)
    requires Since(h, 0) && OneParent(h) && at < |h| && IsOpen(h[at]) && DownIn(h, at, name, line).Some?
    ensures Opens(h, DownIn(h, at, name, line).value.heap)
  {
    hide OneParent, Opens, Since;
    OpensItself(h);
    if name !in h[at].entries {
      MadeOpens(h, at, name, line, false);
    }
  }

  lemma DefinedOpens(h: Heap, id: Id)
    requires OneParent(h) && id < |h| && h[id].Table?
    ensures Opens(h, h[id := h[id].(defined := true)])
  {
    var b := h[id := h[id].(defined := true)];
    assert forall k, step: TreeStep | 0 <= k < |h| :: StepTo(b[k], step) == StepTo(h[k], step);
    SameSteps(h, b);
  }

  /** The steps are all that makes a tree. */
  lemma SameSteps(a: Heap, b: Heap)
    requires |a| == |b| && OneParent(a)
    requires forall k, step: TreeStep | 0 <= k < |a| :: StepTo(b[k], step) == StepTo(a[k], step)
    ensures Opens(a, b)
  {
    hide StepTo;
    forall y: Id | y < |a| && Unled(a, y) ensures Unled(b, y) {
    }
  }

  lemma LastOpens(h: Heap, at: Id, name: Name, line: nat)
    requires Since(h, 0) && OneParent(h) && at < |h| && IsOpen(h[at]) && LastIn(h, at, name, line).Some?
    ensures Opens(h, LastIn(h, at, name, line).value.heap)
  {
    hide OneParent, Opens, Since;
    if name !in h[at].entries {
      MadeOpens(h, at, name, line, true);
    } else {
      DefinedOpens(h, h[at].entries[name]);
    }
  }

  lemma ItemOpens(h: Heap, at: Id, name: Name, line: nat)
    requires Since(h, 0) && OneParent(h) && at < |h| && IsOpen(h[at]) && ItemIn(h, at, name, line).Some?
    ensures Opens(h, ItemIn(h, at, name, line).value.heap)
  {
    hide OneParent, Opens, Since;
    if name !in h[at].entries {
      FirstOpens(h, at, name, line);
    } else {
      NextOpens(h, h[at].entries[name], Table(line, map[], true, false));
    }
  }

  lemma FirstOpens(h: Heap, at: Id, name: Name, line: nat)
    requires Since(h, 0) && OneParent(h) && at < |h| && IsOpen(h[at]) && name !in h[at].entries
    ensures Opens(h, ItemIn(h, at, name, line).value.heap)
  {
    var item, list := Table(line, map[], true, false), TableArray(line, [|h|]);
    var one, two, b := h + [item], h + [item, list], ItemIn(h, at, name, line).value.heap;
    assert OneStepMore(one, two, |h| + 1, ByItem(0), |h|);
    assert OneStepMore(two, b, at, ByKey(name), |h| + 1);
    assert forall k | |h| <= k < |b| :: !IsSettled(b[k]);
    MoreTree(h, item);
    NewUnled(h, |h| + 1);
    hide StepTo;
    StepTree(one, two, |h| + 1, ByItem(0), |h|);
    StepTree(two, b, at, ByKey(name), |h| + 1);
  }

  lemma NextOpens(h: Heap, list: Id, item: Node)
    requires Since(h, 0) && OneParent(h) && list < |h| && h[list].TableArray? && IsOpen(item) && item.entries == map[]
    ensures Opens(h, h[list := h[list].(items := h[list].items + [|h|])] + [item])
  {
    var b := h[list := h[list].(items := h[list].items + [|h|])] + [item];
    assert OneStepMore(h, b, list, ByItem(|h[list].items|), |h|);
    assert forall k | |h| <= k < |b| :: !IsSettled(b[k]);
    NewUnled(h, |h|);
    hide StepTo;
    StepTree(h, b, list, ByItem(|h[list].items|), |h|);
  }

  lemma {:induction false} OpenOpens(h: Heap, at: Id, keys: seq<Name>, twice: bool, line: nat)
    requires keys != [] && Since(h, 0) && OneParent(h) && at < |h| && IsOpen(h[at])
    requires OpenIn(h, at, keys, twice, line).Some?
    ensures Opens(h, OpenIn(h, at, keys, twice, line).value.heap)
    decreases |keys|
  {
    hide Since, OneParent, Opens, Grows, DownIn, LastIn, ItemIn, Follow, KeysOn;
    if |keys| == 1 {
      if twice {
        ItemOpens(h, at, keys[0], line);
      } else {
        LastOpens(h, at, keys[0], line);
      }
    } else {
      var p := DownIn(h, at, keys[0], line).value;
      DownKeeps(h, at, keys[0], line);
      DownOpens(h, at, keys[0], line);
      OpensTree(h, p.heap);
      OpenOpens(p.heap, p.at, keys[1..], twice, line);
      OpenKeeps(p.heap, p.at, keys[1..], twice, line);
      OpensTransitive(h, p.heap, OpenIn(p.heap, p.at, keys[1..], twice, line).value.heap);
    }
  }

  lemma OpensTree(a: Heap, b: Heap)
    requires Opens(a, b)
    ensures OneParent(b) && KeepsUnled(a, b, |a|)
  {
  }

  /** So a header leads to no value that was not there. */
  lemma {:induction false} OpensOnly(a: Heap, b: Heap, root: Id, p: seq<TreeStep>)
    requires Opens(a, b) && root < |a| && Follow(b, root, p).Some? && Follow(b, root, p).value < |a|
    ensures Follow(a, root, p) == Follow(b, root, p)
    decreases |p|
  {
    hide StepTo, OneParent;
    if p != [] {
      var at := Follow(b, root, p[..|p| - 1]).value;
      NodeIsThere(b, at, p[|p| - 1]);
      OpensOnly(a, b, root, p[..|p| - 1]);
    }
  }

  lemma HeaderOnly(a: Heap, b: Heap, p: seq<TreeStep>)
    requires Opens(a, b) && Grows(a, b) && Since(b, 0) && ROOT < |a| && HasValueAt(b, ROOT, p)
    ensures HasValueAt(a, ROOT, p)
  {
    hide Follow, Since;
    var x := Follow(b, ROOT, p).value;
    FollowWithin(b, b, 0, ROOT, p);
    if x < |a| {
      OpensOnly(a, b, ROOT, p);
      assert NodeGrows(a[x], b[x]);
    }
  }

  // ---- Whole texts ----

  /** The state's heap is a tree below the root. */
  ghost predicate IsTree(st: State) {
    OneParent(st.heap) && Unled(st.heap, ROOT)
  }

  lemma StartTree()
    ensures IsTree(START)
  {
  }

  lemma StillUnled(a: Heap, b: Heap, y: Id)
    requires KeepsUnled(a, b, |a|) && y < |a| && Unled(a, y)
    ensures Unled(b, y)
  {
  }

  /** A statement keeps the heap a tree, and a header leads to no value that was not there. */
  lemma HeaderTree(st: State, s: Statement, t: State)
    requires Valid(st) && IsTree(st) && s.Header? && s.keys != [] && Do(st, s) == Some(t)
    ensures IsTree(t) && forall p: seq<TreeStep> | HasValueAt(t.heap, ROOT, p) :: HasValueAt(st.heap, ROOT, p)
  {
    hide Since, OneParent, Unled, Opens, OpenIn, Follow, HasValueAt, Grows, KeysOn;
    OpenOpens(st.heap, ROOT, s.keys, s.twice, s.line);
    OpenKeeps(st.heap, ROOT, s.keys, s.twice, s.line);
    OpensTree(st.heap, t.heap);
    StillUnled(st.heap, t.heap, ROOT);
    forall p: seq<TreeStep> | HasValueAt(t.heap, ROOT, p) ensures HasValueAt(st.heap, ROOT, p) {
      HeaderOnly(st.heap, t.heap, p);
    }
  }

  lemma PairTree(st: State, s: Statement, t: State)
    requires Valid(st) && IsTree(st) && s.Pair? && s.keys != [] && Do(st, s) == Some(t)
    ensures IsTree(t)
  {
    hide Since, OneParent, Unled, Build, AssignIn, Follow;
    BuildTree(st.heap, s.value);
    BindTree(st.heap, st.current, s.keys, s.value, s.line);
    StillUnled(st.heap, t.heap, ROOT);
  }

  /** A way leads to a value of one of the first pairs, or below it. */
  ghost predicate IsPairPath(ss: seq<Statement>, n: nat, p: seq<TreeStep>)
    requires HaveKeys(ss) && n <= |ss|
  {
    exists m | 0 <= m < n :: IsPathOf(ss, m, p)
  }

  ghost predicate IsPathOf(ss: seq<Statement>, m: nat, p: seq<TreeStep>)
    requires HaveKeys(ss) && m < |ss|
  {
    ss[m].Pair? && PathOf(ss, m) <= p && InValue(ss[m].value, p[|PathOf(ss, m)|..])
  }

  /** One statement of a run, as it was done. */
  lemma {:induction false} DoneAt(ss: seq<Statement>, n: nat)
    requires HaveKeys(ss) && n < |ss| && Run(START, ss).Some?
    ensures Do(Before(ss, n), ss[n]) == Some(Before(ss, n + 1))
  {
    hide Do;
    RunSplits(START, ss, n + 1);
    assert ss[..n + 1][..n] == ss[..n] && ss[..n + 1][n..] == [ss[n]];
    RunSplits(START, ss[..n + 1], n);
    RunOne(Before(ss, n), ss[n]);
  }

  /** In every state of a run the heap is a tree, and a way to a value is a pair's. */
  lemma {:induction false} OnlyPairs(ss: seq<Statement>, n: nat, p: seq<TreeStep>)
    requires HaveKeys(ss) && n <= |ss| && Run(START, ss).Some?
    ensures IsTree(Before(ss, n))
    ensures HasValueAt(Before(ss, n).heap, ROOT, p) ==> IsPairPath(ss, n, p)
    decreases n
  {
    hide IsTree, HasValueAt, Do, Valid, IsPathOf, IsDone;
    if n == 0 {
      StartTree();
      StartHolds(p);
    } else {
      var st, s, t := Before(ss, n - 1), ss[n - 1], Before(ss, n);
      OnlyPairs(ss, n - 1, p);
      RunAt(ss, n - 1);
      DoneAt(ss, n - 1);
      if s.Header? {
        HeaderTree(st, s, t);
      } else {
        PairTree(st, s, t);
        if HasValueAt(t.heap, ROOT, p) {
          PairOnly(ss, n - 1, p);
        }
      }
      assert IsPairPath(ss, n - 1, p) ==> IsPairPath(ss, n, p);
      assert IsPathOf(ss, n - 1, p) ==> IsPairPath(ss, n, p);
    }
  }

  lemma StartHolds(p: seq<TreeStep>)
    ensures !HasValueAt(START.heap, ROOT, p)
  {
    if Follow(START.heap, ROOT, p).Some? {
      FromEmpty(START.heap, ROOT, p);
    }
  }

  lemma {:induction false} PairOnly(ss: seq<Statement>, n: nat, p: seq<TreeStep>)
    requires HaveKeys(ss) && n < |ss| && ss[n].Pair? && Valid(Before(ss, n)) && IsTree(Before(ss, n))
    requires Do(Before(ss, n), ss[n]) == Some(Before(ss, n + 1)) && HasValueAt(Before(ss, n + 1).heap, ROOT, p)
    ensures HasValueAt(Before(ss, n).heap, ROOT, p) || IsPathOf(ss, n, p)
  {
    var st, s := Before(ss, n), ss[n];
    hide Before, Since, OneParent, Unled, Build, AssignIn, Follow, HasValueAt, InValue;
    BindOnly(st.heap, ROOT, st.way, st.current, s.keys, s.value, s.line, p);
  }

  // ---- And what the text has, the tree holds ----

  lemma {:induction false} SaysLeads(h: Heap, id: Id, v: Value, r: seq<TreeStep>)
    requires Says(h, id, v) && InValue(v, r)
    ensures HasValueAt(h, id, r)
    decreases v
  {
    hide Follow;
    NoWay(h, id);
    if r != [] {
      var k :| 0 <= k < |v.entries| && InEntry(v.entries[k], r);
      var entry := v.entries[k];
      SaysEach(h, id, v.entries, k);
      var there, rest := Follow(h, id, KeySteps(entry.keys)).value, r[|entry.keys|..];
      SaysLeads(h, there, entry.value, rest);
      FollowConcat(h, id, KeySteps(entry.keys), rest);
      assert r == KeySteps(entry.keys) + rest;
    }
  }

  lemma {:induction false} SaysEach(h: Heap, id: Id, entries: seq<Entry>, k: nat)
    requires SaysEntries(h, id, entries) && k < |entries|
    ensures SaysEntry(h, id, entries[k])
    decreases entries
  {
    hide SaysEntry;
    if k > 0 {
      SaysEach(h, id, entries[1..], k - 1);
    }
  }

  /**
    The final tree of an accepted text holds the values of the text and no others: a way from the root leads to
    a value if and only if it goes by the keys of a pair's header and its own, and on by keys of inline tables.
   */
  lemma {:induction false} TreeIsText(ss: seq<Statement>, p: seq<TreeStep>)
    requires HaveKeys(ss) && Run(START, ss).Some?
    ensures HasValueAt(Run(START, ss).value.heap, ROOT, p) <==> IsPairPath(ss, |ss|, p)
  {
    var end := Run(START, ss).value.heap;
    assert ss[..|ss|] == ss;
    OnlyPairs(ss, |ss|, p);
    if IsPairPath(ss, |ss|, p) {
      var m :| 0 <= m < |ss| && IsPathOf(ss, m, p);
      PathLeads(ss, m, p);
    }
  }

  lemma {:induction false} PathLeads(ss: seq<Statement>, m: nat, p: seq<TreeStep>)
    requires HaveKeys(ss) && m < |ss| && Run(START, ss).Some? && IsPathOf(ss, m, p)
    ensures HasValueAt(Run(START, ss).value.heap, ROOT, p)
  {
    hide Run, Before, Says, InValue, Follow, KeysOn, HeaderOf;
    var end, path := Run(START, ss).value.heap, PathOf(ss, m);
    var rest := p[|path|..];
    PairStaysBound(ss, m);
    SaysLeads(end, Follow(end, ROOT, path).value, ss[m].value, rest);
    FollowConcat(end, ROOT, path, rest);
    assert p == path + rest;
  }

  /** The same of all ways at once. */
  ghost predicate HoldsExactly(end: Heap, ss: seq<Statement>)
    requires HaveKeys(ss)
  {
    forall p: seq<TreeStep> :: HasValueAt(end, ROOT, p) <==> IsPairPath(ss, |ss|, p)
  }

  lemma {:induction false} AllIsText(ss: seq<Statement>)
    requires HaveKeys(ss) && Run(START, ss).Some?
    ensures HoldsExactly(Run(START, ss).value.heap, ss)
  {
    hide Run, HasValueAt, IsPairPath;
    forall p: seq<TreeStep>
      ensures HasValueAt(Run(START, ss).value.heap, ROOT, p) <==> IsPairPath(ss, |ss|, p)
    {
      TreeIsText(ss, p);
    }
  }
}
