/** The tree of the TOML reader (tools/port-deps.cjs): its nodes, the ways down it, and how it grows. */
module TomlTree {
  import opened Wrappers
  import opened TomlSyntax

  /** A node's identity, which is its place in the heap: nodes are made one after another. */
  type Id = nat

  datatype Node =
    | Table(line: nat, entries: map<Name, Id>, defined: bool, inline: bool)
    | TableArray(line: nat, items: seq<Id>)
    | Array(line: nat, items: seq<Id>)
    | Text(line: nat, v: seq<nat>)
    | Flag(line: nat, b: bool)
    | Other(line: nat, raw: seq<nat>)

  type Heap = seq<Node>

  const ROOT: Id := 0

  /** Memory is never dangling; what is not in the model's heap is no table. */
  function NodeAt(h: Heap, id: Id): Node {
    if id < |h| then h[id] else Other(0, [])
  }

  function EntriesOf(node: Node): map<Name, Id> {
    if node.Table? then node.entries else map[]
  }

  /** A table that statements may still fill: an inline table is closed. */
  predicate IsOpen(node: Node) {
    node.Table? && !node.inline
  }

  /** A node that no later statement may change. */
  predicate IsSettled(node: Node) {
    !IsOpen(node) && !node.TableArray?
  }

  /** The heap with a key of a table bound to a node. */
  function Bound(h: Heap, at: Id, name: Name, id: Id): (b: Heap)
    ensures |b| == |h|
  {
    if at < |h| && h[at].Table? then h[at := h[at].(entries := h[at].entries[name := id])] else h
  }

  // ---- Ways down ----

  datatype TreeStep = ByKey(name: Name) | ByItem(index: nat)

  function StepTo(node: Node, step: TreeStep): Option<Id> {
    match step
    case ByKey(name) => if node.Table? && name in node.entries then Some(node.entries[name]) else None
    case ByItem(index) => if node.TableArray? && index < |node.items| then Some(node.items[index]) else None
  }

  /** Where a path leads. */
  function Follow(h: Heap, from: Id, path: seq<TreeStep>): Option<Id> {
    if path == [] then Some(from)
    else
      match Follow(h, from, path[..|path| - 1])
      case None => None
      case Some(at) => StepTo(NodeAt(h, at), path[|path| - 1])
  }

  lemma FollowSnoc(h: Heap, from: Id, path: seq<TreeStep>, step: TreeStep)
    ensures Follow(h, from, path + [step])
            == match Follow(h, from, path) case None => None case Some(at) => StepTo(NodeAt(h, at), step)
  {
    assert (path + [step])[..|path|] == path;
  }

  lemma {:induction false} FollowConcat(h: Heap, from: Id, a: seq<TreeStep>, b: seq<TreeStep>)
    ensures Follow(h, from, a + b)
            == match Follow(h, from, a) case None => None case Some(at) => Follow(h, at, b)
  {
    if b == [] {
      assert a + b == a;
    } else {
      var n := |b| - 1;
      assert (a + b)[..|a| + n] == a + b[..n];
      FollowConcat(h, from, a, b[..n]);
    }
  }

  lemma FollowCons(h: Heap, from: Id, step: TreeStep, rest: seq<TreeStep>)
    ensures Follow(h, from, [step] + rest)
            == match StepTo(NodeAt(h, from), step) case None => None case Some(at) => Follow(h, at, rest)
  {
    FollowConcat(h, from, [step], rest);
    FollowSnoc(h, from, [], step);
    assert [] + [step] == [step];
  }

  function KeySteps(names: seq<Name>): (r: seq<TreeStep>)
    ensures |r| == |names| && forall i | 0 <= i < |names| :: r[i] == ByKey(names[i])
  {
    seq(|names|, i requires 0 <= i < |names| => ByKey(names[i]))
  }

  /** The keys on a path, in order. */
  function KeysOn(path: seq<TreeStep>): seq<Name> {
    if path == [] then []
    else KeysOn(path[..|path| - 1]) + (if path[|path| - 1].ByKey? then [path[|path| - 1].name] else [])
  }

  lemma {:induction false} KeysConcat(a: seq<TreeStep>, b: seq<TreeStep>)
    ensures KeysOn(a + b) == KeysOn(a) + KeysOn(b)
  {
    if b == [] {
      assert a + b == a;
    } else {
      var n := |b| - 1;
      assert (a + b)[..|a| + n] == a + b[..n];
      KeysConcat(a, b[..n]);
      var last := if b[n].ByKey? then [b[n].name] else [];
      assert KeysOn(a) + KeysOn(b[..n]) + last == KeysOn(a) + (KeysOn(b[..n]) + last);
    }
  }

  lemma {:induction false} KeysOfSteps(names: seq<Name>)
    ensures KeysOn(KeySteps(names)) == names
  {
    if names != [] {
      var n := |names| - 1;
      KeysOfSteps(names[..n]);
      assert KeySteps(names)[..n] == KeySteps(names[..n]);
    }
  }

  // ---- Growth ----

  /** The same node, but for keys and items that it may gain. */
  predicate SameKind(a: Node, b: Node) {
    if a.Table? then b.Table? && b.line == a.line && b.inline == a.inline
    else if a.TableArray? then b.TableArray? && b.line == a.line
    else a == b
  }

  /** Every node is as it was or has gained, and no key and no item comes to lead elsewhere. */
  ghost predicate Keeps(a: Heap, b: Heap) {
    && |a| <= |b|
    && (forall k | 0 <= k < |a| :: SameKind(a[k], b[k]))
    && (forall k, step: TreeStep | 0 <= k < |a| && StepTo(a[k], step).Some? :: StepTo(b[k], step) == StepTo(a[k], step))
  }

  lemma KeepsTransitive(a: Heap, b: Heap, c: Heap)
    requires Keeps(a, b) && Keeps(b, c)
    ensures Keeps(a, c)
  {
    hide StepTo;
    forall k | 0 <= k < |a| ensures SameKind(a[k], c[k]) {
      assert SameKind(a[k], b[k]) && SameKind(b[k], c[k]);
    }
  }

  /** So every path leads where it led. */
  lemma {:induction false} FollowKeeps(a: Heap, b: Heap, from: Id, path: seq<TreeStep>)
    requires Keeps(a, b) && Follow(a, from, path).Some?
    ensures Follow(b, from, path) == Follow(a, from, path)
  {
    if path != [] {
      FollowKeeps(a, b, from, path[..|path| - 1]);
    }
  }

  /** An open table may gain keys and its own header, and an array of tables items; nothing else changes. */
  predicate NodeGrows(a: Node, b: Node) {
    if IsOpen(a) then
      && IsOpen(b) && b.line == a.line && (a.defined ==> b.defined)
      && forall name | name in a.entries :: name in b.entries && b.entries[name] == a.entries[name]
    else if a.TableArray? then b.TableArray? && b.line == a.line && a.items <= b.items
    else a == b
  }

  predicate Grows(a: Heap, b: Heap) {
    |a| <= |b| && forall k | 0 <= k < |a| :: NodeGrows(a[k], b[k])
  }

  lemma GrowsReflexive(h: Heap)
    ensures Grows(h, h)
  {
  }

  lemma GrowsTransitive(a: Heap, b: Heap, c: Heap)
    requires Grows(a, b) && Grows(b, c)
    ensures Grows(a, c)
  {
    forall k | 0 <= k < |a| ensures NodeGrows(a[k], c[k]) {
      assert NodeGrows(a[k], b[k]) && NodeGrows(b[k], c[k]);
    }
  }

  lemma GrowsKeeps(a: Heap, b: Heap)
    requires Grows(a, b)
    ensures Keeps(a, b)
  {
    forall k | 0 <= k < |a| ensures SameKind(a[k], b[k]) {
      assert NodeGrows(a[k], b[k]);
    }
    forall k, step: TreeStep | 0 <= k < |a| && StepTo(a[k], step).Some?
      ensures StepTo(b[k], step) == StepTo(a[k], step)
    {
      assert NodeGrows(a[k], b[k]);
    }
  }

  /** The heap with more nodes after it. */
  ghost predicate Extends(a: Heap, b: Heap) {
    |a| <= |b| && b[..|a|] == a
  }

  lemma ExtendsGrows(a: Heap, b: Heap)
    requires Extends(a, b)
    ensures Grows(a, b)
  {
    assert forall k | 0 <= k < |a| :: b[k] == b[..|a|][k] == a[k];
  }

  // ---- One binding more ----

  /** Among the nodes that were there, one table that did not have a key gains it, and nothing else changes. */
  ghost predicate Binds(a: Heap, b: Heap, at: Id, name: Name, id: Id) {
    && |a| <= |b| && at < |a| && a[at].Table? && name !in a[at].entries
    && b[at] == a[at].(entries := a[at].entries[name := id])
    && forall k | 0 <= k < |a| && k != at :: b[k] == a[k]
  }

  /** Nothing happened to the nodes that were there, or one binding more in an open table or in the one given. */
  ghost predicate OneMore(a: Heap, b: Heap, from: Id) {
    || Extends(a, b)
    || exists at: Id, name: Name, id: Id :: Binds(a, b, at, name, id) && (at == from || IsOpen(a[at]))
  }

  lemma BindsKeeps(a: Heap, b: Heap, at: Id, name: Name, id: Id)
    requires Binds(a, b, at, name, id)
    ensures Keeps(a, b)
  {
  }

  lemma OneMoreKeeps(a: Heap, b: Heap, from: Id)
    requires OneMore(a, b, from)
    ensures Keeps(a, b)
  {
    if Extends(a, b) {
      ExtendsGrows(a, b);
      GrowsKeeps(a, b);
    } else {
      var at: Id, name: Name, id: Id :| Binds(a, b, at, name, id) && (at == from || IsOpen(a[at]));
      BindsKeeps(a, b, at, name, id);
    }
  }

  lemma OneMoreGrows(a: Heap, b: Heap, from: Id)
    requires OneMore(a, b, from) && from < |a| && IsOpen(a[from])
    ensures Grows(a, b)
  {
    if Extends(a, b) {
      ExtendsGrows(a, b);
    }
  }
}
