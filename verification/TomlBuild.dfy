/**
  What the statements of a TOML text make (tools/port-deps.cjs): the nodes of a value, the table a header
  opens, and the binding of a key, on heaps as values; and what no later statement undoes.
 */
module TomlBuild {
  import opened Wrappers
  import opened TomlSyntax
  import opened TomlTree

  // ---- Assigning ----

  /** A table made for a key that a table does not have. */
  function MadeTable(h: Heap, at: Id, name: Name, line: nat, defined: bool): Heap {
    Bound(h + [Table(line, map[], defined, false)], at, name, |h|)
  }

  /** assign: down the parts, tables made on the way, and the last part bound, if it is not bound already. */
  function AssignIn(h: Heap, at: Id, parts: seq<Name>, id: Id, line: nat): Option<Heap>
    requires parts != []
    decreases |parts|
  {
    var entries, name := EntriesOf(NodeAt(h, at)), parts[0];
    if |parts| == 1 then (if name in entries then None else Some(Bound(h, at, name, id)))
    else if name !in entries then AssignIn(MadeTable(h, at, name, line, true), |h|, parts[1..], id, line)
    else if !IsOpen(NodeAt(h, entries[name])) then None
    else AssignIn(h, entries[name], parts[1..], id, line)
  }

  lemma StepNames(parts: seq<Name>)
    requires parts != []
    ensures KeySteps(parts) == [ByKey(parts[0])] + KeySteps(parts[1..])
  {
  }

  lemma MadeBinds(h: Heap, at: Id, name: Name, line: nat, defined: bool)
    requires at < |h| && h[at].Table? && name !in h[at].entries
    ensures var b := MadeTable(h, at, name, line, defined);
            && Binds(h, b, at, name, |h|) && |b| == |h| + 1 && b[|h|] == Table(line, map[], defined, false)
            && StepTo(NodeAt(b, at), ByKey(name)) == Some(|h|)
  {
  }

  /**
    What assign does: the parts led nowhere, now they lead to the node, and to the nodes that were there
    nothing happened but one binding.
   */
  lemma {:induction false} AssignBinds(h: Heap, at: Id, parts: seq<Name>, id: Id, line: nat)
    requires parts != [] && at < |h| && h[at].Table? && AssignIn(h, at, parts, id, line).Some?
    ensures var b := AssignIn(h, at, parts, id, line).value;
            && OneMore(h, b, at)
            && Follow(h, at, KeySteps(parts)) == None && Follow(b, at, KeySteps(parts)) == Some(id)
    decreases |parts|
  {
    var b := AssignIn(h, at, parts, id, line).value;
    var entries, name, rest := EntriesOf(NodeAt(h, at)), parts[0], parts[1..];
    hide Follow, OneMore, MadeTable, Keeps;
    StepNames(parts);
    FollowCons(h, at, ByKey(name), KeySteps(rest));
    FollowCons(b, at, ByKey(name), KeySteps(rest));
    if |parts| == 1 {
      LastBinds(h, at, name, id);
      FollowNothing(b, id, rest);
    } else if name !in entries {
      var made := MadeTable(h, at, name, line, true);
      MadeBinds(h, at, name, line, true);
      AssignBinds(made, |h|, rest, id, line);
      AssignEmpty(made, |h|, rest, id, line);
      AssignFresh(h, at, name, made, b);
    } else {
      AssignBinds(h, entries[name], rest, id, line);
      OneMoreKept(h, b, at, entries[name], name);
    }
  }

  /** A walk from an empty table goes on in tables it makes. */
  lemma {:induction false} AssignEmpty(h: Heap, at: Id, parts: seq<Name>, id: Id, line: nat)
    requires parts != [] && at < |h| && h[at].Table? && h[at].entries == map[]
    ensures AssignIn(h, at, parts, id, line).Some?
    ensures var b := AssignIn(h, at, parts, id, line).value;
            |h| <= |b| && forall k | 0 <= k < |h| && k != at :: b[k] == h[k]
    decreases |parts|
  {
    if |parts| > 1 {
      AssignEmpty(MadeTable(h, at, parts[0], line, true), |h|, parts[1..], id, line);
    }
  }

  lemma FollowNothing(h: Heap, at: Id, parts: seq<Name>)
    requires parts == []
    ensures Follow(h, at, KeySteps(parts)) == Some(at)
  {
  }

  lemma LastBinds(h: Heap, at: Id, name: Name, id: Id)
    requires at < |h| && h[at].Table? && name !in h[at].entries
    ensures var b := Bound(h, at, name, id);
            && OneMore(h, b, at)
            && StepTo(NodeAt(h, at), ByKey(name)) == None && StepTo(NodeAt(b, at), ByKey(name)) == Some(id)
  {
    assert Binds(h, Bound(h, at, name, id), at, name, id);
  }

  /** A walk that goes on in a table made for it changes nothing more among the nodes that were there. */
  lemma AssignFresh(h: Heap, at: Id, name: Name, made: Heap, b: Heap)
    requires Binds(h, made, at, name, |h|) && |made| == |h| + 1 && IsOpen(made[|h|]) && made[|h|].entries == map[]
    requires OneMore(made, b, |h|)
    requires forall k | 0 <= k < |h| :: b[k] == made[k]
    ensures OneMore(h, b, at) && StepTo(NodeAt(b, at), ByKey(name)) == Some(|h|)
  {
    assert Binds(h, b, at, name, |h|);
  }

  /** A walk that goes on in a table that was there. */
  lemma OneMoreKept(h: Heap, b: Heap, at: Id, next: Id, name: Name)
    requires OneMore(h, b, next) && at < |h| && next < |h| && IsOpen(h[next])
    requires StepTo(h[at], ByKey(name)) == Some(next)
    ensures OneMore(h, b, at) && StepTo(NodeAt(b, at), ByKey(name)) == Some(next)
  {
    OneMoreKeeps(h, b, next);
  }

  // ---- Values ----

  /** value: the nodes it makes, an array after its items, an inline table before its entries. */
  function Build(h: Heap, v: Value): Option<(Heap, Id)>
    decreases v
  {
    match v
    case StringValue(line, s) => Some((h + [Text(line, s)], |h|))
    case BoolValue(line, b) => Some((h + [Flag(line, b)], |h|))
    case RawValue(line, raw) => Some((h + [Other(line, raw)], |h|))
    case ArrayValue(line, items) =>
      (match BuildAll(h, items)
       case None => None
       case Some((b, ids)) => Some((b + [Array(line, ids)], |b|)))
    case InlineValue(line, entries) =>
      (match BuildEntries(h + [Table(line, map[], true, true)], |h|, entries)
       case None => None
       case Some(b) => Some((b, |h|)))
  }

  function BuildAll(h: Heap, items: seq<Value>): Option<(Heap, seq<Id>)>
    decreases items
  {
    if items == [] then Some((h, []))
    else
      match Build(h, items[0])
      case None => None
      case Some((b, id)) =>
        match BuildAll(b, items[1..])
        case None => None
        case Some((c, ids)) => Some((c, [id] + ids))
  }

  function BuildEntries(h: Heap, node: Id, entries: seq<Entry>): Option<Heap>
    decreases entries
  {
    if entries == [] then Some(h)
    else
      match BuildEntry(h, node, entries[0])
      case None => None
      case Some(b) => BuildEntries(b, node, entries[1..])
  }

  function BuildEntry(h: Heap, node: Id, entry: Entry): Option<Heap>
    decreases entry
  {
    match Build(h, entry.value)
    case None => None
    case Some((b, id)) => if entry.keys == [] then None else AssignIn(b, node, entry.keys, id, entry.value.line)
  }

  /** The node, with those below it, says the value that was written. */
  ghost predicate Says(h: Heap, id: Id, v: Value)
    decreases v
  {
    match v
    case StringValue(line, s) => NodeAt(h, id) == Text(line, s)
    case BoolValue(line, b) => NodeAt(h, id) == Flag(line, b)
    case RawValue(line, raw) => id < |h| && h[id] == Other(line, raw)
    case ArrayValue(line, items) =>
      && NodeAt(h, id).Array? && NodeAt(h, id).line == line && SaysAll(h, NodeAt(h, id).items, items)
    case InlineValue(line, entries) =>
      && NodeAt(h, id).Table? && NodeAt(h, id).inline && NodeAt(h, id).line == line && SaysEntries(h, id, entries)
  }

  ghost predicate SaysAll(h: Heap, ids: seq<Id>, items: seq<Value>)
    decreases items
  {
    if items == [] then ids == [] else ids != [] && Says(h, ids[0], items[0]) && SaysAll(h, ids[1..], items[1..])
  }

  ghost predicate SaysEntries(h: Heap, id: Id, entries: seq<Entry>)
    decreases entries
  {
    entries == [] || (SaysEntry(h, id, entries[0]) && SaysEntries(h, id, entries[1..]))
  }

  /** The entry's keys lead from the table to its value. */
  ghost predicate SaysEntry(h: Heap, id: Id, entry: Entry)
    decreases entry
  {
    var there := Follow(h, id, KeySteps(entry.keys));
    there.Some? && Says(h, there.value, entry.value)
  }

  lemma {:induction false} SaysKept(a: Heap, b: Heap, id: Id, v: Value)
    requires Keeps(a, b) && Says(a, id, v)
    ensures Says(b, id, v)
    decreases v
  {
    hide StepTo;
    assert id < |a| ==> SameKind(a[id], b[id]);
    match v {
      case StringValue(_, _) =>
      case BoolValue(_, _) =>
      case RawValue(_, _) =>
      case ArrayValue(_, items) => SaysAllKept(a, b, NodeAt(a, id).items, items);
      case InlineValue(_, entries) => SaysEntriesKept(a, b, id, entries);
    }
  }

  lemma {:induction false} SaysAllKept(a: Heap, b: Heap, ids: seq<Id>, items: seq<Value>)
    requires Keeps(a, b) && SaysAll(a, ids, items)
    ensures SaysAll(b, ids, items)
    decreases items
  {
    hide Keeps;
    if items != [] {
      SaysKept(a, b, ids[0], items[0]);
      SaysAllKept(a, b, ids[1..], items[1..]);
    }
  }

  lemma {:induction false} SaysEntriesKept(a: Heap, b: Heap, id: Id, entries: seq<Entry>)
    requires Keeps(a, b) && SaysEntries(a, id, entries)
    ensures SaysEntries(b, id, entries)
    decreases entries
  {
    hide Keeps, Follow;
    if entries != [] {
      SaysEntryKept(a, b, id, entries[0]);
      SaysEntriesKept(a, b, id, entries[1..]);
    }
  }

  lemma {:induction false} SaysEntryKept(a: Heap, b: Heap, id: Id, entry: Entry)
    requires Keeps(a, b) && SaysEntry(a, id, entry)
    ensures SaysEntry(b, id, entry)
    decreases entry
  {
    hide Keeps, Follow;
    FollowKeeps(a, b, id, KeySteps(entry.keys));
    SaysKept(a, b, Follow(a, id, KeySteps(entry.keys)).value, entry.value);
  }

  // ---- A value is built of nodes made for it ----

  /** A node leads to nodes of a range only, no array of tables is without any, and an inline table is defined. */
  ghost predicate Fits(node: Node, since: nat, end: nat) {
    && (forall step: TreeStep | StepTo(node, step).Some? :: since <= StepTo(node, step).value < end)
    && (node.Table? && node.inline ==> node.defined)
    && (node.TableArray? ==> node.items != [])
  }

  /** The ways down from nodes made since lead to such nodes: none dangles, and none leads back. */
  ghost predicate Since(h: Heap, since: nat) {
    forall k | since <= k < |h| :: Fits(h[k], since, |h|)
  }

  /** What was made before is as it was, and what was made since keeps to itself. */
  ghost predicate Apart(a: Heap, b: Heap, since: nat) {
    since <= |a| <= |b| && Since(b, since) && forall k | 0 <= k < since :: b[k] == a[k]
  }

  lemma {:induction false} AssignApart(h: Heap, at: Id, parts: seq<Name>, id: Id, line: nat, since: nat)
    requires parts != [] && since <= at < |h| && h[at].Table? && Since(h, since) && since <= id < |h|
    requires AssignIn(h, at, parts, id, line).Some?
    ensures Apart(h, AssignIn(h, at, parts, id, line).value, since)
    decreases |parts|
  {
    var entries, name, rest := h[at].entries, parts[0], parts[1..];
    hide Since;
    if |parts| == 1 {
      BoundSince(h, at, name, id, since);
    } else if name !in entries {
      MadeSince(h, at, name, line, true, since);
      AssignApart(MadeTable(h, at, name, line, true), |h|, rest, id, line, since);
    } else {
      NextSince(h, at, name, since);
      AssignApart(h, entries[name], rest, id, line, since);
    }
  }

  lemma NextSince(h: Heap, at: Id, name: Name, since: nat)
    requires Since(h, since) && since <= at < |h| && h[at].Table? && name in h[at].entries
    ensures since <= h[at].entries[name] < |h|
  {
    assert Fits(h[at], since, |h|) && StepTo(h[at], ByKey(name)).Some?;
  }

  lemma BoundSince(h: Heap, at: Id, name: Name, id: Id, since: nat)
    requires Since(h, since) && at < |h| && since <= id < |h|
    ensures Since(Bound(h, at, name, id), since)
  {
    var b := Bound(h, at, name, id);
    forall k | since <= k < |b| ensures Fits(b[k], since, |b|) {
      assert Fits(h[k], since, |h|);
      forall step: TreeStep | StepTo(b[k], step).Some? ensures since <= StepTo(b[k], step).value < |b| {
        assert StepTo(h[k], step).Some? ==> since <= StepTo(h[k], step).value < |h|;
      }
    }
  }

  lemma MoreSince(h: Heap, node: Node, since: nat)
    requires Since(h, since) && Fits(node, since, |h|)
    ensures Since(h + [node], since)
  {
    var b := h + [node];
    forall k | since <= k < |b| ensures Fits(b[k], since, |b|) {
      if k < |h| {
        assert Fits(h[k], since, |h|);
      }
    }
  }

  lemma MadeSince(h: Heap, at: Id, name: Name, line: nat, defined: bool, since: nat)
    requires Since(h, since) && since <= at < |h|
    ensures var b := MadeTable(h, at, name, line, defined);
            Since(b, since) && |b| == |h| + 1 && b[|h|] == Table(line, map[], defined, false)
            && forall k | 0 <= k < since :: b[k] == h[k]
  {
    var node := Table(line, map[], defined, false);
    MoreSince(h, node, since);
    BoundSince(h + [node], at, name, |h|, since);
  }

  /** Nothing has been made since the heap ends. */
  lemma SinceNow(h: Heap)
    ensures Since(h, |h|)
  {
  }

  /** What a value's nodes are: new ones, that say the value, with the nodes that were there as they were. */
  ghost predicate IsBuilt(h: Heap, v: Value, b: Heap, id: Id) {
    Apart(h, b, |h|) && |h| <= id < |b| && Says(b, id, v) && IsSettled(b[id]) && b[id].line == v.line
  }

  lemma ApartExtends(a: Heap, b: Heap)
    requires Apart(a, b, |a|)
    ensures Extends(a, b) && Keeps(a, b) && Grows(a, b)
  {
    assert b[..|a|] == a;
    ExtendsGrows(a, b);
    GrowsKeeps(a, b);
  }

  /** What is made apart after a heap whose later part is apart is so with it. */
  lemma ApartTransitive(a: Heap, b: Heap, c: Heap, since: nat)
    requires Apart(a, b, since) && Apart(b, c, |b|)
    ensures Apart(a, c, since)
  {
    forall k | since <= k < |c| ensures Fits(c[k], since, |c|) {
      if k < |b| {
        assert c[k] == b[k] && Fits(b[k], since, |b|);
      } else {
        assert Fits(c[k], |b|, |c|);
      }
    }
  }

  lemma {:induction false} BuildBuilds(h: Heap, v: Value)
    requires Build(h, v).Some?
    ensures IsBuilt(h, v, Build(h, v).value.0, Build(h, v).value.1)
    decreases v
  {
    match v {
      case StringValue(line, s) => OneNode(h, Text(line, s));
      case BoolValue(line, b) => OneNode(h, Flag(line, b));
      case RawValue(line, raw) => OneNode(h, Other(line, raw));
      case ArrayValue(line, items) =>
        BuildAllBuilds(h, items);
        var (b, ids) := BuildAll(h, items).value;
        ArrayBuilt(h, b, line, ids, items);
      case InlineValue(line, entries) =>
        var node := Table(line, map[], true, true);
        OneNode(h, node);
        BuildEntriesBuilds(h, h + [node], |h|, line, entries);
    }
  }

  lemma OneNode(h: Heap, node: Node)
    requires Fits(node, |h|, |h|)
    ensures Apart(h, h + [node], |h|)
  {
    SinceNow(h);
    MoreSince(h, node, |h|);
  }

  lemma ArrayBuilt(h: Heap, b: Heap, line: nat, ids: seq<Id>, items: seq<Value>)
    requires Apart(h, b, |h|) && SaysAll(b, ids, items)
    ensures IsBuilt(h, ArrayValue(line, items), b + [Array(line, ids)], |b|)
  {
    var c := b + [Array(line, ids)];
    hide SaysAll, Since, Keeps;
    MoreSince(b, Array(line, ids), |h|);
    assert c[..|b|] == b;
    ExtendsGrows(b, c);
    GrowsKeeps(b, c);
    SaysAllKept(b, c, ids, items);
    assert forall k | 0 <= k < |h| :: c[k] == b[k];
  }

  lemma {:induction false} BuildAllBuilds(h: Heap, items: seq<Value>)
    requires BuildAll(h, items).Some?
    ensures var (b, ids) := BuildAll(h, items).value; Apart(h, b, |h|) && SaysAll(b, ids, items)
    decreases items
  {
    hide Apart, Says, Keeps, Build;
    if items == [] {
      NothingApart(h);
    } else {
      var (b, id) := Build(h, items[0]).value;
      BuildBuilds(h, items[0]);
      BuildAllBuilds(b, items[1..]);
      var (c, ids) := BuildAll(b, items[1..]).value;
      ApartTransitive(h, b, c, |h|);
      ApartExtends(b, c);
      SaysKept(b, c, id, items[0]);
      assert ([id] + ids)[1..] == ids;
    }
  }

  lemma NothingApart(h: Heap)
    ensures Apart(h, h, |h|)
  {
  }

  /** An inline table in the making: new nodes, open for its entries alone. */
  ghost predicate IsFilling(start: Heap, h: Heap, node: Id, line: nat) {
    && Apart(start, h, |start|) && |start| <= node < |h|
    && h[node].Table? && h[node].inline && h[node].line == line
  }

  lemma {:induction false} BuildEntriesBuilds(start: Heap, h: Heap, node: Id, line: nat, entries: seq<Entry>)
    requires IsFilling(start, h, node, line) && BuildEntries(h, node, entries).Some?
    ensures var b := BuildEntries(h, node, entries).value;
            IsFilling(start, b, node, line) && Keeps(h, b) && SaysEntries(b, node, entries)
    decreases entries
  {
    hide IsFilling, Keeps, SaysEntry, BuildEntry;
    if entries == [] {
      KeepsItself(h);
    } else {
      BuildEntryBuilds(start, h, node, line, entries[0]);
      var b := BuildEntry(h, node, entries[0]).value;
      BuildEntriesBuilds(start, b, node, line, entries[1..]);
      var c := BuildEntries(b, node, entries[1..]).value;
      KeepsTransitive(h, b, c);
      SaysEntryKept(b, c, node, entries[0]);
    }
  }

  lemma KeepsItself(h: Heap)
    ensures Keeps(h, h)
  {
  }

  lemma {:induction false} BuildEntryBuilds(start: Heap, h: Heap, node: Id, line: nat, entry: Entry)
    requires IsFilling(start, h, node, line) && BuildEntry(h, node, entry).Some?
    ensures var b := BuildEntry(h, node, entry).value;
            IsFilling(start, b, node, line) && Keeps(h, b) && SaysEntry(b, node, entry)
    decreases entry
  {
    hide Keeps, Says, Since, OneMore, Follow, AssignIn, Build;
    var (b, id) := Build(h, entry.value).value;
    BuildBuilds(h, entry.value);
    ApartTransitive(start, h, b, |start|);
    ApartExtends(h, b);
    assert b[node] == h[node];
    var c := AssignIn(b, node, entry.keys, id, entry.value.line).value;
    AssignApart(b, node, entry.keys, id, entry.value.line, |start|);
    AssignBinds(b, node, entry.keys, id, entry.value.line);
    OneMoreKeeps(b, c, node);
    KeepsTransitive(h, b, c);
    SaysKept(b, c, id, entry.value);
    KeptTable(b, c, node);
  }

  lemma KeptTable(a: Heap, b: Heap, k: Id)
    requires Keeps(a, b) && k < |a| && a[k].Table?
    ensures k < |b| && b[k].Table? && b[k].inline == a[k].inline && b[k].line == a[k].line
  {
    assert SameKind(a[k], b[k]);
  }
}
