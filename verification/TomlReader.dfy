/**
  parseToml (tools/port-deps.cjs): one reader over the text, which builds the tree as it reads. Each method
  makes of the tree what the text's values, entries and statements make of it, and stops where they end.
 */
module TomlReader {
  import opened Wrappers
  import StringLiteral
  import opened TomlSyntax
  import opened TomlTree
  import opened TomlLexer
  import opened TomlBuild
  import opened TomlRun
  import opened TomlOnly

  // ---- Reading and building at once ----

  /** The value at a place, built. */
  function NodeFrom(text: seq<nat>, i: nat, h: Heap): (r: Option<(Heap, Id, nat)>)
    requires i <= |text|
    ensures r.Some? ==> i < r.value.2 <= |text|
  {
    match ValueFrom(text, i)
    case None => None
    case Some((v, e)) =>
      match Build(h, v)
      case None => None
      case Some((b, id)) => Some((b, id, e))
  }

  /** The items of an array from inside it, built. */
  function NodesFrom(text: seq<nat>, i: nat, h: Heap): (r: Option<(Heap, seq<Id>, nat)>)
    requires i <= |text|
    ensures r.Some? ==> i < r.value.2 <= |text|
  {
    match ItemsFrom(text, i)
    case None => None
    case Some((items, e)) =>
      match BuildAll(h, items)
      case None => None
      case Some((b, ids)) => Some((b, ids, e))
  }

  /** The entries of an inline table from inside it, bound. */
  function FilledFrom(text: seq<nat>, i: nat, h: Heap, node: Id): (r: Option<(Heap, nat)>)
    requires i <= |text|
    ensures r.Some? ==> i < r.value.1 <= |text|
  {
    match EntriesFrom(text, i)
    case None => None
    case Some((entries, e)) =>
      match BuildEntries(h, node, entries)
      case None => None
      case Some(b) => Some((b, e))
  }

  /** The statements from a place on, done. */
  function DoneFrom(text: seq<nat>, i: nat, st: State): Option<State>
    requires i <= |text|
  {
    match StatementsFrom(text, i)
    case None => None
    case Some(ss) => Run(st, ss)
  }

  function IdsOnto(ids: seq<Id>, rest: Option<(Heap, seq<Id>, nat)>): Option<(Heap, seq<Id>, nat)> {
    match rest
    case None => None
    case Some((h, more, e)) => Some((h, ids + more, e))
  }

  // ---- What the loops keep, folded away from them ----

  ghost predicate ItemsSo(text: seq<nat>, start: nat, h: Heap, i: nat, heap: Heap, ids: seq<Id>)
    requires start <= |text| && i <= |text|
  {
    forall n: nat | Folded(n) :: NodesFrom(text, start, h) == IdsOnto(ids, NodesFrom(text, i, heap))
  }

  lemma ItemsSoStart(text: seq<nat>, start: nat, h: Heap)
    requires start <= |text|
    ensures ItemsSo(text, start, h, start, h, [])
  {
    var rest := NodesFrom(text, start, h);
    if rest.Some? {
      assert [] + rest.value.1 == rest.value.1;
    }
  }

  lemma ItemsSoOn(text: seq<nat>, start: nat, h: Heap, i: nat, heap: Heap, ids: seq<Id>)
    requires start <= |text| && i <= |text| && ItemsSo(text, start, h, i, heap, ids)
    ensures var j := GapEnd(text, i);
            if j >= |text| then NodesFrom(text, start, h) == None
            else if text[j] == CLOSE_BRACKET then NodesFrom(text, start, h) == Some((heap, ids, j + 1))
            else
              match NodeFrom(text, j, heap)
              case None => NodesFrom(text, start, h) == None
              case Some((b, id, e)) =>
                match CommaEnd(text, GapEnd(text, e), CLOSE_BRACKET)
                case None => NodesFrom(text, start, h) == None
                case Some(k) => ItemsSo(text, start, h, k, b, ids + [id])
  {
    hide GapEnd, CommaEnd, ValueFrom, Build;
    assert Folded(0);
    assert ids + [] == ids;
    var j := GapEnd(text, i);
    if j < |text| && text[j] != CLOSE_BRACKET && ValueFrom(text, j).Some? {
      var (v, e) := ValueFrom(text, j).value;
      if CommaEnd(text, GapEnd(text, e), CLOSE_BRACKET).Some? {
        ItemTaken(text, i, heap, ids);
      }
    }
  }

  lemma ItemTaken(text: seq<nat>, i: nat, heap: Heap, ids: seq<Id>)
    requires i <= |text| && GapEnd(text, i) < |text| && text[GapEnd(text, i)] != CLOSE_BRACKET
    requires ValueFrom(text, GapEnd(text, i)).Some?
    requires CommaEnd(text, GapEnd(text, ValueFrom(text, GapEnd(text, i)).value.1), CLOSE_BRACKET).Some?
    ensures var (v, e) := ValueFrom(text, GapEnd(text, i)).value;
            var k := CommaEnd(text, GapEnd(text, e), CLOSE_BRACKET).value;
            match Build(heap, v)
            case None => NodesFrom(text, i, heap) == None
            case Some((b, id)) => IdsOnto(ids, NodesFrom(text, i, heap)) == IdsOnto(ids + [id], NodesFrom(text, k, b))
  {
    hide GapEnd, CommaEnd, ValueFrom, Build;
    var (v, e) := ValueFrom(text, GapEnd(text, i)).value;
    var k := CommaEnd(text, GapEnd(text, e), CLOSE_BRACKET).value;
    if Build(heap, v).Some? && ItemsFrom(text, k).Some? {
      var (b, id) := Build(heap, v).value;
      var (rest, end) := ItemsFrom(text, k).value;
      assert ([v] + rest)[1..] == rest;
      if BuildAll(b, rest).Some? {
        var more := BuildAll(b, rest).value.1;
        assert ids + ([id] + more) == ids + [id] + more;
      }
    }
  }

  /** An entry's node bound in its table, or nothing. */
  function EntryDone(text: seq<nat>, i: nat, h: Heap, node: Id): (r: Option<(Heap, nat)>)
    requires i <= |text|
    ensures r.Some? ==> i < r.value.1 <= |text|
  {
    match EntryFrom(text, i)
    case None => None
    case Some((entry, e)) =>
      match BuildEntry(h, node, entry)
      case None => None
      case Some(b) => Some((b, e))
  }

  ghost predicate FilledSo(text: seq<nat>, start: nat, h: Heap, node: Id, i: nat, heap: Heap)
    requires start <= |text| && i <= |text|
  {
    forall n: nat | Folded(n) :: FilledFrom(text, start, h, node) == FilledFrom(text, i, heap, node)
  }

  lemma FilledSoOn(text: seq<nat>, start: nat, h: Heap, node: Id, i: nat, heap: Heap)
    requires start <= |text| && i <= |text| && FilledSo(text, start, h, node, i, heap)
    ensures var j, r := GapEnd(text, i), FilledFrom(text, start, h, node);
            if j >= |text| then r == None
            else if text[j] == CLOSE_BRACE then r == Some((heap, j + 1))
            else
              match EntryDone(text, j, heap, node)
              case None => r == None
              case Some((b, e)) =>
                match CommaEnd(text, GapEnd(text, e), CLOSE_BRACE)
                case None => r == None
                case Some(k) => FilledSo(text, start, h, node, k, b)
  {
    hide GapEnd, CommaEnd, EntryFrom, BuildEntry;
    assert Folded(0);
    var j := GapEnd(text, i);
    if j < |text| && text[j] != CLOSE_BRACE && EntryFrom(text, j).Some? {
      var (entry, e) := EntryFrom(text, j).value;
      var comma := CommaEnd(text, GapEnd(text, e), CLOSE_BRACE);
      if comma.Some? && EntriesFrom(text, comma.value).Some? {
        var rest := EntriesFrom(text, comma.value).value.0;
        assert ([entry] + rest)[1..] == rest;
      }
    }
  }

  ghost predicate DoneSo(text: seq<nat>, i: nat, st: State)
    requires i <= |text|
  {
    forall n: nat | Folded(n) :: DoneFrom(text, 0, START) == DoneFrom(text, i, st)
  }

  /** The statement at a place, if one is there. */
  function StatementFrom(text: seq<nat>, i: nat): (r: Option<(Statement, nat)>)
    requires i < |text|
    ensures r.Some? ==> i < r.value.1 <= |text| && r.value.0.keys != [] && r.value.0.line == LineAt(text, i)
  {
    if text[i] == OPEN_BRACKET then HeaderFrom(text, i) else PairFrom(text, i)
  }

  lemma DoneSoOn(text: seq<nat>, i: nat, st: State)
    requires i <= |text| && DoneSo(text, i, st)
    ensures var j, r := GapEnd(text, i), DoneFrom(text, 0, START);
            if j >= |text| then r == Some(st)
            else
              match StatementFrom(text, j)
              case None => r == None
              case Some((s, e)) =>
                match Do(st, s)
                case None => r == None
                case Some(t) => DoneSo(text, e, t)
  {
    hide GapEnd, HeaderFrom, PairFrom, Do;
    assert Folded(0);
    var j := GapEnd(text, i);
    if j < |text| && StatementFrom(text, j).Some? {
      var (s, e) := StatementFrom(text, j).value;
      if StatementsFrom(text, e).Some? {
        var rest := StatementsFrom(text, e).value;
        assert ([s] + rest)[1..] == rest;
      }
    }
  }

  /** A header's walk so far, and what is left of it. */
  ghost predicate OpenSo(h: Heap, keys: seq<Name>, twice: bool, line: nat, j: nat, heap: Heap, at: Id,
                         steps: seq<TreeStep>)
    requires j < |keys|
  {
    forall n: nat | Folded(n) ::
      OpenIn(h, ROOT, keys, twice, line) == StepsOnto(steps, OpenIn(heap, at, keys[j..], twice, line))
  }

  function StepsOnto(steps: seq<TreeStep>, rest: Option<Place>): Option<Place> {
    match rest
    case None => None
    case Some(p) => Some(Place(p.heap, p.at, steps + p.steps))
  }

  lemma OpenSoStart(h: Heap, keys: seq<Name>, twice: bool, line: nat)
    requires keys != []
    ensures OpenSo(h, keys, twice, line, 0, h, ROOT, [])
  {
    hide OpenIn;
    assert keys[0..] == keys;
    var rest := OpenIn(h, ROOT, keys, twice, line);
    if rest.Some? {
      assert [] + rest.value.steps == rest.value.steps;
    }
  }

  lemma OpenSoOn(h: Heap, keys: seq<Name>, twice: bool, line: nat, j: nat, heap: Heap, at: Id, steps: seq<TreeStep>)
    requires j < |keys| && OpenSo(h, keys, twice, line, j, heap, at, steps)
    ensures j + 1 < |keys| ==>
              match DownIn(heap, at, keys[j], line)
              case None => OpenIn(h, ROOT, keys, twice, line) == None
              case Some(p) => OpenSo(h, keys, twice, line, j + 1, p.heap, p.at, steps + p.steps)
    ensures j + 1 == |keys| ==>
              OpenIn(h, ROOT, keys, twice, line)
              == StepsOnto(steps, if twice then ItemIn(heap, at, keys[j], line) else LastIn(heap, at, keys[j], line))
  {
    hide DownIn, ItemIn, LastIn;
    assert Folded(0);
    if j + 1 < |keys| && DownIn(heap, at, keys[j], line).Some? {
      var p := DownIn(heap, at, keys[j], line).value;
      assert keys[j..][1..] == keys[j + 1..];
      var rest := OpenIn(p.heap, p.at, keys[j + 1..], twice, line);
      if rest.Some? {
        assert steps + (p.steps + rest.value.steps) == steps + p.steps + rest.value.steps;
      }
    }
  }

  // ---- The reader ----

  /** A turn of a loop over items: one more, the closer, or neither. */
  datatype ItemTurn = Item(id: Id) | Over | Refused

  class Reader {
    const cursor: Cursor
    var heap: Heap
    var current: Id
    ghost var way: seq<TreeStep>

    constructor (text: seq<nat>)
      ensures fresh(cursor) && cursor.text == text && cursor.i == 0 && cursor.Here() && Now() == START
    {
      cursor := new Cursor(text);
      heap := [Table(1, map[], true, false)];
      current, way := ROOT, [];
    }

    /** What the reader has made so far. */
    ghost function Now(): State
      reads this
    {
      State(heap, current, way)
    }

    method Make(node: Node) returns (id: Id)
      modifies `heap
      ensures heap == old(heap) + [node] && id == |old(heap)|
    {
      id := |heap|;
      heap := heap + [node];
    }

    method NewTable(at: Id, name: Name, line: nat, defined: bool) returns (id: Id)
      modifies `heap
      ensures heap == MadeTable(old(heap), at, name, line, defined) && id == |old(heap)|
    {
      id := Make(Table(line, map[], defined, false));
      heap := Bound(heap, at, name, id);
    }

    /** assign: walk down the parts, creating tables on the way, and set the last one to a node. */
    method Assign(from: Id, parts: seq<Name>, id: Id, line: nat) returns (ok: bool)
      requires parts != []
      modifies `heap
      ensures match AssignIn(old(heap), from, parts, id, line)
              case None => !ok
              case Some(b) => ok && heap == b
    {
      var at := from;
      var j := 0;
      assert parts[0..] == parts;
      while j < |parts| - 1
        invariant j < |parts|
        invariant AssignIn(old(heap), from, parts, id, line) == AssignIn(heap, at, parts[j..], id, line)
      {
        assert parts[j..][1..] == parts[j + 1..];
        var entries := EntriesOf(NodeAt(heap, at));
        if parts[j] !in entries {
          at := NewTable(at, parts[j], line, true);
        } else if IsOpen(NodeAt(heap, entries[parts[j]])) {
          at := entries[parts[j]];
        } else {
          return false;
        }
        j := j + 1;
      }
      if parts[j] in EntriesOf(NodeAt(heap, at)) {
        return false;
      }
      heap := Bound(heap, at, parts[j], id);
      ok := true;
    }

    /** value. */
    method ReadValue() returns (id: Option<Id>)
      requires cursor.Here()
      modifies `heap, cursor
      ensures match NodeFrom(cursor.text, old(cursor.i), old(heap))
              case None => id == None
              case Some((b, n, e)) => id == Some(n) && heap == b && cursor.Here() && cursor.i == e
      decreases |cursor.text| - cursor.i, 1
    {
      hide StringFrom, ScalarFrom, ItemsFrom, EntriesFrom, BuildAll, BuildEntries, LineAt;
      var start := cursor.line;
      if cursor.At(QUOTE) || cursor.At(APOSTROPHE) {
        var v := cursor.ReadString();
        if v == None {
          return None;
        }
        var made := Make(Text(start, v.value));
        return Some(made);
      }
      if cursor.At(OPEN_BRACKET) {
        id := ReadArray();
        return;
      }
      if cursor.At(OPEN_BRACE) {
        id := ReadInline();
        return;
      }
      id := ReadPlain();
    }

    /** A scalar that is no string. */
    method ReadPlain() returns (id: Option<Id>)
      requires cursor.Here()
      modifies `heap, cursor
      ensures match ScalarFrom(cursor.text, old(cursor.i))
              case None => id == None
              case Some((raw, e)) =>
                && id == Some(|old(heap)|) && Build(old(heap), Scalar(old(cursor.line), raw)) == Some((heap, id.value))
                && cursor.Here() && cursor.i == e
    {
      hide ScalarFrom;
      var start := cursor.line;
      var raw := cursor.ReadScalar();
      if raw == None {
        return None;
      }
      var made := Make(if raw.value == TRUE then Flag(start, true)
                       else if raw.value == FALSE then Flag(start, false)
                       else Other(start, raw.value));
      id := Some(made);
    }

    method ReadArray() returns (id: Option<Id>)
      requires cursor.Here() && cursor.At(OPEN_BRACKET)
      modifies `heap, cursor
      ensures match NodesFrom(cursor.text, old(cursor.i) + 1, old(heap))
              case None => id == None
              case Some((b, ids, e)) =>
                id == Some(|b|) && heap == b + [Array(old(cursor.line), ids)] && cursor.Here() && cursor.i == e
      decreases |cursor.text| - cursor.i, 0
    {
      var start := cursor.line;
      cursor.i := cursor.i + 1;
      ghost var from: nat, h := cursor.i, heap;
      var items: seq<Id> := [];
      ItemsSoStart(cursor.text, from, h);
      while true
        invariant cursor.Here() && from <= cursor.i && ItemsSo(cursor.text, from, h, cursor.i, heap, items)
        decreases |cursor.text| - cursor.i
      {
        var turn := ArrayTurn(from, h, items);
        if turn.Refused? {
          return None;
        }
        if turn.Over? {
          var made := Make(Array(start, items));
          return Some(made);
        }
        items := items + [turn.id];
      }
    }

    /** One turn of an array's loop: an item, or the bracket. */
    method ArrayTurn(ghost from: nat, ghost h: Heap, ghost items: seq<Id>) returns (turn: ItemTurn)
      requires cursor.Here() && from <= cursor.i && ItemsSo(cursor.text, from, h, cursor.i, heap, items)
      modifies `heap, cursor
      ensures turn.Refused? ==> NodesFrom(cursor.text, from, h) == None
      ensures turn.Over? ==> cursor.Here() && NodesFrom(cursor.text, from, h) == Some((heap, items, cursor.i))
      ensures turn.Item? ==> && cursor.Here() && old(cursor.i) < cursor.i
                             && ItemsSo(cursor.text, from, h, cursor.i, heap, items + [turn.id])
      decreases |cursor.text| - cursor.i, 2
    {
      hide GapEnd, CommaEnd, NodeFrom, NodesFrom, ItemsSo;
      ItemsSoOn(cursor.text, from, h, cursor.i, heap, items);
      cursor.Gap();
      if cursor.i >= |cursor.text| {
        return Refused;
      }
      if cursor.At(CLOSE_BRACKET) {
        cursor.i := cursor.i + 1;
        return Over;
      }
      var item := ReadValue();
      if item == None {
        return Refused;
      }
      var ok := Comma(CLOSE_BRACKET);
      turn := if ok then Item(item.value) else Refused;
    }

    /** What separates two items. */
    method Comma(closer: nat) returns (ok: bool)
      requires cursor.Here()
      modifies cursor
      ensures match CommaEnd(cursor.text, GapEnd(cursor.text, old(cursor.i)), closer)
              case None => !ok
              case Some(k) => ok && cursor.Here() && cursor.i == k
    {
      cursor.Gap();
      if cursor.At(',' as nat) {
        cursor.i := cursor.i + 1;
      } else if cursor.i < |cursor.text| && !cursor.At(closer) {
        return false;
      }
      ok := true;
    }

    method ReadInline() returns (id: Option<Id>)
      requires cursor.Here() && cursor.At(OPEN_BRACE)
      modifies `heap, cursor
      ensures var node := Table(old(cursor.line), map[], true, true);
              match FilledFrom(cursor.text, old(cursor.i) + 1, old(heap) + [node], |old(heap)|)
              case None => id == None
              case Some((b, e)) => id == Some(|old(heap)|) && heap == b && cursor.Here() && cursor.i == e
      decreases |cursor.text| - cursor.i, 0
    {
      var start := cursor.line;
      cursor.i := cursor.i + 1;
      var node := Make(Table(start, map[], true, true));
      ghost var from: nat, h := cursor.i, heap;
      assert FilledSo(cursor.text, from, h, node, cursor.i, heap);
      while true
        invariant cursor.Here() && from <= cursor.i && FilledSo(cursor.text, from, h, node, cursor.i, heap)
        decreases |cursor.text| - cursor.i
      {
        var turn := InlineTurn(from, h, node);
        if turn.Refused? {
          return None;
        }
        if turn.Over? {
          return Some(node);
        }
      }
    }

    /** One turn of an inline table's loop: an entry, or the brace. */
    method InlineTurn(ghost from: nat, ghost h: Heap, node: Id) returns (turn: ItemTurn)
      requires cursor.Here() && from <= cursor.i && FilledSo(cursor.text, from, h, node, cursor.i, heap)
      modifies `heap, cursor
      ensures turn.Refused? ==> FilledFrom(cursor.text, from, h, node) == None
      ensures turn.Over? ==> cursor.Here() && FilledFrom(cursor.text, from, h, node) == Some((heap, cursor.i))
      ensures turn.Item? ==> && cursor.Here() && old(cursor.i) < cursor.i
                             && FilledSo(cursor.text, from, h, node, cursor.i, heap)
      decreases |cursor.text| - cursor.i, 3
    {
      hide GapEnd, CommaEnd, EntryDone, FilledFrom, FilledSo;
      FilledSoOn(cursor.text, from, h, node, cursor.i, heap);
      cursor.Gap();
      if cursor.i >= |cursor.text| {
        return Refused;
      }
      if cursor.At(CLOSE_BRACE) {
        cursor.i := cursor.i + 1;
        return Over;
      }
      var ok := ReadInlineEntry(node);
      if ok {
        ok := Comma(CLOSE_BRACE);
      }
      turn := if ok then Item(node) else Refused;
    }

    /** A key and its value in an inline table. */
    method ReadInlineEntry(node: Id) returns (ok: bool)
      requires cursor.Here()
      modifies `heap, cursor
      ensures match EntryDone(cursor.text, old(cursor.i), old(heap), node)
              case None => !ok
              case Some((b, e)) => ok && heap == b && cursor.Here() && cursor.i == e
      decreases |cursor.text| - cursor.i, 2
    {
      hide ValueFrom, KeyFrom, Build, AssignIn;
      ghost var h := heap;
      var parts := cursor.ReadKey();
      if parts == None || !cursor.At(EQUALS) {
        return false;
      }
      cursor.i := cursor.i + 1;
      cursor.Blank();
      ghost var at := cursor.i;
      var v := ReadValue();
      if v == None {
        return false;
      }
      BuiltLine(h, ValueFrom(cursor.text, at).value.0);
      ok := Assign(node, parts.value, v.value, NodeAt(heap, v.value).line);
    }

    // ---- Headers ----

    /** One part on a header's way. */
    method Down(at: Id, name: Name, line: nat) returns (next: Option<Id>, ghost steps: seq<TreeStep>)
      modifies `heap
      ensures match DownIn(old(heap), at, name, line)
              case None => next == None
              case Some(p) => next == Some(p.at) && heap == p.heap && steps == p.steps
    {
      var entries := EntriesOf(NodeAt(heap, at));
      steps := [ByKey(name)];
      if name !in entries {
        var made := NewTable(at, name, line, false);
        return Some(made), steps;
      }
      var id := entries[name];
      if NodeAt(heap, id).TableArray? && NodeAt(heap, id).items != [] {
        var items := NodeAt(heap, id).items;
        id, steps := items[|items| - 1], [ByKey(name), ByItem(|items| - 1)];
      }
      next := if IsOpen(NodeAt(heap, id)) then Some(id) else None;
    }

    /** The table a header is about. */
    method Last(at: Id, name: Name, twice: bool, line: nat) returns (table: Option<Id>, ghost steps: seq<TreeStep>)
      modifies `heap
      ensures match (if twice then ItemIn(old(heap), at, name, line) else LastIn(old(heap), at, name, line))
              case None => table == None
              case Some(p) => table == Some(p.at) && heap == p.heap && steps == p.steps
    {
      var entries := EntriesOf(NodeAt(heap, at));
      steps := [ByKey(name)];
      if twice {
        table, steps := LastItem(at, name, line);
      } else if name !in entries {
        var made := NewTable(at, name, line, true);
        table := Some(made);
      } else if NodeAt(heap, entries[name]).Table? && !NodeAt(heap, entries[name]).defined {
        var seen := entries[name];
        heap := heap[seen := heap[seen].(defined := true)];
        table := Some(seen);
      } else {
        table := None;
      }
    }

    method LastItem(at: Id, name: Name, line: nat) returns (table: Option<Id>, ghost steps: seq<TreeStep>)
      modifies `heap
      ensures match ItemIn(old(heap), at, name, line)
              case None => table == None
              case Some(p) => table == Some(p.at) && heap == p.heap && steps == p.steps
    {
      var entries := EntriesOf(NodeAt(heap, at));
      steps := [];
      if name !in entries {
        var item := Make(Table(line, map[], true, false));
        var list := Make(TableArray(line, [item]));
        heap := Bound(heap, at, name, list);
        table, steps := Some(item), [ByKey(name), ByItem(0)];
      } else if NodeAt(heap, entries[name]).TableArray? {
        var list, item := entries[name], |heap|;
        var items := heap[list].items;
        heap := heap[list := heap[list].(items := items + [item])] + [Table(line, map[], true, false)];
        table, steps := Some(item), [ByKey(name), ByItem(|items|)];
      } else {
        table := None;
      }
    }

    /** header, once its keys are read: walk to the table it is about and make it the current one. */
    method Open(keys: seq<Name>, twice: bool, line: nat) returns (ok: bool)
      requires keys != []
      modifies `heap, `current, `way
      ensures match OpenIn(old(heap), ROOT, keys, twice, line)
              case None => !ok
              case Some(p) => ok && Now() == State(p.heap, p.at, p.steps)
    {
      var at: Id, j: nat := ROOT, 0;
      ghost var h, steps: seq<TreeStep> := heap, [];
      OpenSoStart(h, keys, twice, line);
      while j < |keys| - 1
        invariant j < |keys| && OpenSo(h, keys, twice, line, j, heap, at, steps)
      {
        OpenSoOn(h, keys, twice, line, j, heap, at, steps);
        var next, more := Down(at, keys[j], line);
        if next == None {
          return false;
        }
        at, steps := next.value, steps + more;
        j := j + 1;
      }
      OpenSoOn(h, keys, twice, line, j, heap, at, steps);
      var table, more := Last(at, keys[j], twice, line);
      if table == None {
        return false;
      }
      current, way := table.value, steps + more;
      ok := true;
    }

    // ---- Statements ----

    /** Past one bracket, or two, if they are there. */
    method Brackets(bracket: nat, twice: bool) returns (ok: bool)
      requires cursor.Here() && bracket != StringLiteral.LF
      modifies cursor`i
      ensures ok == BracketsAt(cursor.text, old(cursor.i), bracket, twice)
      ensures ok ==> cursor.Here() && cursor.i == old(cursor.i) + if twice then 2 else 1
    {
      ok := BracketsAt(cursor.text, cursor.i, bracket, twice);
      if ok {
        var n := if twice then 2 else 1;
        NoLineFeeds(cursor.text, cursor.i, cursor.i + n);
        cursor.i := cursor.i + n;
      }
    }

    /** header. */
    method ReadHeader() returns (ok: bool)
      requires cursor.Here() && cursor.At(OPEN_BRACKET)
      modifies this, cursor
      ensures match HeaderFrom(cursor.text, old(cursor.i))
              case None => !ok
              case Some((s, e)) =>
                match Do(old(Now()), s)
                case None => !ok
                case Some(t) => ok && Now() == t && cursor.Here() && cursor.i == e
    {
      hide KeyFrom, LineEndFrom, OpenIn;
      var start := cursor.line;
      var twice := BracketsAt(cursor.text, cursor.i, OPEN_BRACKET, true);
      var there := Brackets(OPEN_BRACKET, twice);
      var keys := cursor.ReadKey();
      if keys == None {
        return false;
      }
      there := Brackets(CLOSE_BRACKET, twice);
      if !there {
        return false;
      }
      there := cursor.EndOfLine();
      if !there {
        return false;
      }
      ok := Open(keys.value, twice, start);
    }

    /** A key/value statement. */
    method ReadPair() returns (ok: bool)
      requires cursor.Here()
      modifies this, cursor
      ensures match PairFrom(cursor.text, old(cursor.i))
              case None => !ok
              case Some((s, e)) =>
                match Do(old(Now()), s)
                case None => !ok
                case Some(t) => ok && Now() == t && cursor.Here() && cursor.i == e
    {
      hide KeyFrom, ValueFrom, LineEndFrom, Build, AssignIn;
      ghost var h, i0 := heap, cursor.i;
      var start := cursor.line;
      var keys := cursor.ReadKey();
      if keys == None || !cursor.At(EQUALS) {
        return false;
      }
      cursor.i := cursor.i + 1;
      cursor.Blank();
      ghost var at := cursor.i;
      var val := ReadValue();
      if val == None {
        return false;
      }
      ValueOnLine(cursor.text, i0);
      BuiltLine(h, ValueFrom(cursor.text, at).value.0);
      heap := heap[val.value := heap[val.value].(line := start)];
      ok := Assign(current, keys.value, val.value, start);
      if ok {
        ok := cursor.EndOfLine();
      }
    }

    /**
      parseToml: the text is accepted exactly when its statements are, and then the tree is theirs, each pair
      of the text found in it at its keys below its header, with its value, and no other value.
     */
    method Parse() returns (ok: bool)
      requires cursor.Here() && cursor.i == 0 && Now() == START
      modifies this, cursor
      ensures match ParseToml(cursor.text)
              case None => !ok
              case Some(st) => ok && Now() == st && cursor.Here() && cursor.i == |cursor.text|
      ensures ok ==> var ss := StatementsFrom(cursor.text, 0).value; HoldsPairs(heap, ss) && HoldsExactly(heap, ss)
    {
      while true
        invariant cursor.Here() && DoneSo(cursor.text, cursor.i, Now())
        decreases |cursor.text| - cursor.i
      {
        DoneSoOn(cursor.text, cursor.i, Now());
        cursor.Gap();
        if cursor.i >= |cursor.text| {
          AllStayBound(StatementsFrom(cursor.text, 0).value);
          AllIsText(StatementsFrom(cursor.text, 0).value);
          return true;
        }
        if cursor.At(OPEN_BRACKET) {
          ok := ReadHeader();
        } else {
          ok := ReadPair();
        }
        if !ok {
          return;
        }
      }
    }
  }

  /** The node of a value stands on the value's line, and marking it so again is nothing. */
  lemma BuiltLine(h: Heap, v: Value)
    requires Build(h, v).Some?
    ensures var (b, id) := Build(h, v).value; id < |b| && b[id].line == v.line && b[id := b[id].(line := v.line)] == b
  {
    BuildBuilds(h, v);
  }
}
