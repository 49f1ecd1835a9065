/**
  Which statements the TOML reader refuses (tools/port-deps.cjs), said of the tree that they find and not of
  the walk that finds it out.
 */
module TomlRefusals {
  import opened Wrappers
  import opened TomlSyntax
  import opened TomlTree
  import opened TomlBuild
  import opened TomlRun
  import TomlOnly

  // ---- Pairs ----

  ghost predicate IsFillable(node: Node) {
    match node
    case Table(_, _, _, inline) => !inline
    case _ => false
  }

  /** The keys lead nowhere, and wherever a part of the way leads there is a table, and no inline one. */
  ghost predicate MayAssign(h: Heap, at: Id, keys: seq<Name>) {
    && Follow(h, at, KeySteps(keys)) == None
    && forall k | 0 < k < |keys| ::
         var there := Follow(h, at, KeySteps(keys[..k])); there.Some? ==> IsFillable(NodeAt(h, there.value))
  }

  lemma FollowFront(h: Heap, at: Id, keys: seq<Name>)
    requires keys != []
    ensures Follow(h, at, KeySteps(keys))
            == match StepTo(NodeAt(h, at), ByKey(keys[0])) case None => None
               case Some(next) => Follow(h, next, KeySteps(keys[1..]))
  {
    StepNames(keys);
    FollowCons(h, at, ByKey(keys[0]), KeySteps(keys[1..]));
  }

  lemma NoFollow(h: Heap, at: Id)
    ensures Follow(h, at, KeySteps([])) == Some(at)
  {
  }

  /** The way to a key goes by the next one. */
  lemma {:induction false} AssignFront(h: Heap, at: Id, keys: seq<Name>, next: Id)
    requires |keys| > 1 && StepTo(NodeAt(h, at), ByKey(keys[0])) == Some(next)
    ensures MayAssign(h, at, keys) <==> IsFillable(NodeAt(h, next)) && MayAssign(h, next, keys[1..])
  {
    hide Follow, KeySteps, IsFillable, StepTo;
    var rest := keys[1..];
    FollowFront(h, at, keys);
    forall k | 0 < k <= |rest|
      ensures Follow(h, at, KeySteps(keys[..k])) == Follow(h, next, KeySteps(rest[..k - 1]))
    {
      FollowFront(h, at, keys[..k]);
      assert keys[..k][1..] == rest[..k - 1];
    }
    NoFollow(h, next);
    assert rest[..0] == [];
    if MayAssign(h, at, keys) {
      assert Follow(h, at, KeySteps(keys[..1])) == Follow(h, next, KeySteps(rest[..0]));
      forall k | 0 < k < |rest|
        ensures var there := Follow(h, next, KeySteps(rest[..k])); there.Some? ==> IsFillable(NodeAt(h, there.value))
      {
        assert Follow(h, at, KeySteps(keys[..k + 1])) == Follow(h, next, KeySteps(rest[..k]));
      }
    }
    if IsFillable(NodeAt(h, next)) && MayAssign(h, next, rest) {
      forall k | 0 < k < |keys|
        ensures var there := Follow(h, at, KeySteps(keys[..k])); there.Some? ==> IsFillable(NodeAt(h, there.value))
      {
        assert Follow(h, at, KeySteps(keys[..k])) == Follow(h, next, KeySteps(rest[..k - 1]));
      }
    }
  }

  lemma {:induction false} AssignNowhere(h: Heap, at: Id, keys: seq<Name>)
    requires keys != [] && StepTo(NodeAt(h, at), ByKey(keys[0])) == None
    ensures MayAssign(h, at, keys)
  {
    hide Follow, KeySteps, IsFillable, StepTo;
    FollowFront(h, at, keys);
    forall k | 0 < k < |keys| ensures Follow(h, at, KeySteps(keys[..k])) == None {
      FollowFront(h, at, keys[..k]);
    }
  }

  /** assign refuses a key that is set, and a way through anything but a table that may be filled. */
  lemma {:induction false} AssignAccepts(h: Heap, at: Id, keys: seq<Name>, id: Id, line: nat)
    requires keys != [] && at < |h| && h[at].Table?
    ensures AssignIn(h, at, keys, id, line).Some? <==> MayAssign(h, at, keys)
    decreases |keys|
  {
    hide Follow, MayAssign;
    var entries, name, rest := h[at].entries, keys[0], keys[1..];
    if name !in entries {
      AssignNowhere(h, at, keys);
      if |keys| > 1 {
        MadeBinds(h, at, name, line, true);
        AssignEmpty(MadeTable(h, at, name, line, true), |h|, rest, id, line);
      }
    } else if |keys| == 1 {
      AssignTaken(h, at, keys);
    } else {
      AssignFront(h, at, keys, entries[name]);
      if IsOpen(NodeAt(h, entries[name])) {
        AssignAccepts(h, entries[name], rest, id, line);
      }
    }
  }

  lemma AssignTaken(h: Heap, at: Id, keys: seq<Name>)
    requires |keys| == 1 && StepTo(NodeAt(h, at), ByKey(keys[0])).Some?
    ensures !MayAssign(h, at, keys)
  {
    hide Follow, StepTo;
    FollowFront(h, at, keys);
    NoFollow(h, StepTo(NodeAt(h, at), ByKey(keys[0])).value);
    assert keys[1..] == [];
  }

  // ---- Headers ----

  /** Where keys lead a header: an array of tables stands for its last one. */
  function Resolve(h: Heap, at: Id, keys: seq<Name>): Option<Id>
    decreases |keys|
  {
    if keys == [] then Some(at)
    else
      match StepTo(NodeAt(h, at), ByKey(keys[0]))
      case None => None
      case Some(next) => Resolve(h, Inside(h, next), keys[1..])
  }

  function Inside(h: Heap, id: Id): Id {
    match NodeAt(h, id)
    case TableArray(_, items) => if items == [] then id else items[|items| - 1]
    case _ => id
  }

  /** What may already stand where a header's last key leads: an array of tables, or a table no header has opened. */
  ghost predicate MayReopen(node: Node, twice: bool) {
    match node
    case Table(_, _, defined, _) => !twice && !defined
    case TableArray(_, _) => twice
    case _ => false
  }

  ghost predicate MayOpen(h: Heap, at: Id, keys: seq<Name>, twice: bool)
    requires keys != []
  {
    && (forall k | 0 < k < |keys| ::
          var there := Resolve(h, at, keys[..k]); there.Some? ==> IsFillable(NodeAt(h, there.value)))
    && var n := |keys| - 1;
       var table := Resolve(h, at, keys[..n]);
       table.Some? ==>
         var seen := StepTo(NodeAt(h, table.value), ByKey(keys[n]));
         seen.Some? ==> MayReopen(NodeAt(h, seen.value), twice)
  }

  /** Where nothing is yet, a header makes what it needs. */
  lemma {:induction false} OpenEmpty(h: Heap, at: Id, keys: seq<Name>, twice: bool, line: nat)
    requires keys != [] && at < |h| && h[at].Table? && h[at].entries == map[]
    ensures OpenIn(h, at, keys, twice, line).Some?
    decreases |keys|
  {
    if |keys| > 1 {
      MadeBinds(h, at, keys[0], line, false);
      OpenEmpty(MadeTable(h, at, keys[0], line, false), |h|, keys[1..], twice, line);
    }
  }

  lemma ResolveFront(h: Heap, at: Id, keys: seq<Name>, k: nat)
    requires 0 < k <= |keys|
    ensures Resolve(h, at, keys[..k])
            == match StepTo(NodeAt(h, at), ByKey(keys[0])) case None => None
               case Some(next) => Resolve(h, Inside(h, next), keys[1..][..k - 1])
  {
    assert keys[..k][1..] == keys[1..][..k - 1];
  }

  lemma {:induction false} OpenNowhere(h: Heap, at: Id, keys: seq<Name>, twice: bool)
    requires keys != [] && StepTo(NodeAt(h, at), ByKey(keys[0])) == None
    ensures MayOpen(h, at, keys, twice)
  {
    hide Resolve, IsFillable, StepTo, MayReopen;
    forall k | 0 < k < |keys| ensures Resolve(h, at, keys[..k]) == None {
      ResolveFront(h, at, keys, k);
    }
    if |keys| == 1 {
      ResolveNothing(h, at, keys[..0]);
    }
  }

  lemma ResolveNothing(h: Heap, at: Id, keys: seq<Name>)
    requires keys == []
    ensures Resolve(h, at, keys) == Some(at)
  {
  }

  lemma {:induction false} OpenFront(h: Heap, at: Id, keys: seq<Name>, twice: bool, next: Id)
    requires |keys| > 1 && StepTo(NodeAt(h, at), ByKey(keys[0])) == Some(next)
    ensures var inside := Inside(h, next);
            MayOpen(h, at, keys, twice) <==> IsFillable(NodeAt(h, inside)) && MayOpen(h, inside, keys[1..], twice)
  {
    hide Resolve, IsFillable, StepTo, MayReopen, Inside;
    var inside, rest := Inside(h, next), keys[1..];
    forall k | 0 < k <= |keys| ensures Resolve(h, at, keys[..k]) == Resolve(h, inside, rest[..k - 1]) {
      ResolveFront(h, at, keys, k);
    }
    ResolveNothing(h, inside, rest[..0]);
    if MayOpen(h, at, keys, twice) {
      assert Resolve(h, at, keys[..1]) == Resolve(h, inside, rest[..0]);
      forall k | 0 < k < |rest|
        ensures var there := Resolve(h, inside, rest[..k]); there.Some? ==> IsFillable(NodeAt(h, there.value))
      {
        assert Resolve(h, at, keys[..k + 1]) == Resolve(h, inside, rest[..k]);
      }
    }
    if IsFillable(NodeAt(h, inside)) && MayOpen(h, inside, rest, twice) {
      forall k | 0 < k < |keys|
        ensures var there := Resolve(h, at, keys[..k]); there.Some? ==> IsFillable(NodeAt(h, there.value))
      {
        assert Resolve(h, at, keys[..k]) == Resolve(h, inside, rest[..k - 1]);
      }
    }
  }

  /**
    A header is refused exactly when its way goes through anything but a table that may be filled, or its last
    key is taken: by anything but an array of tables for double brackets, and for single ones by anything but
    a table that was made on the way to another.
   */
  lemma {:induction false} OpenAccepts(h: Heap, at: Id, keys: seq<Name>, twice: bool, line: nat)
    requires keys != [] && Since(h, 0) && at < |h| && IsOpen(h[at])
    ensures OpenIn(h, at, keys, twice, line).Some? <==> MayOpen(h, at, keys, twice)
    decreases |keys|
  {
    hide MayOpen, Since, IsStep, ItemIn, LastIn;
    var entries, name, rest := h[at].entries, keys[0], keys[1..];
    if |keys| == 1 {
      OneOpens(h, at, name, twice, line);
      assert keys == [name];
    } else if name !in entries {
      OpenNowhere(h, at, keys, twice);
      MadeBinds(h, at, name, line, false);
      OpenEmpty(MadeTable(h, at, name, line, false), |h|, rest, twice, line);
    } else {
      var next := entries[name];
      OpenFront(h, at, keys, twice, next);
      NextInside(h, at, name, next);
      DownGoes(h, at, name, next, line);
      if IsFillable(NodeAt(h, Inside(h, next))) {
        OpenAccepts(h, Inside(h, next), rest, twice, line);
      }
    }
  }

  lemma OneOpens(h: Heap, at: Id, name: Name, twice: bool, line: nat)
    requires Since(h, 0) && at < |h| && IsOpen(h[at])
    ensures (if twice then ItemIn(h, at, name, line) else LastIn(h, at, name, line)).Some?
            <==> MayOpen(h, at, [name], twice)
  {
    ResolveNothing(h, at, [name][..0]);
    if name in h[at].entries {
      NextInside(h, at, name, h[at].entries[name]);
    }
  }

  lemma NextInside(h: Heap, at: Id, name: Name, next: Id)
    requires Since(h, 0) && at < |h| && StepTo(h[at], ByKey(name)) == Some(next)
    ensures next < |h| && Inside(h, next) < |h|
  {
    assert Fits(h[at], 0, |h|);
    if h[next].TableArray? && h[next].items != [] {
      ItemFits(h, next, |h[next].items| - 1);
    }
  }

  /** Down a part that is there. */
  lemma DownGoes(h: Heap, at: Id, name: Name, next: Id, line: nat)
    requires at < |h| && h[at].Table? && StepTo(h[at], ByKey(name)) == Some(next) && next < |h|
    ensures DownIn(h, at, name, line).Some? <==> IsFillable(NodeAt(h, Inside(h, next)))
    ensures DownIn(h, at, name, line).Some? ==>
              DownIn(h, at, name, line).value.heap == h && DownIn(h, at, name, line).value.at == Inside(h, next)
  {
  }

  // ---- Statements ----

  /** A statement may be done: a header by the tree from the root, and a pair by the table it fills. */
  ghost predicate MayDo(st: State, s: Statement)
    requires s.keys != []
  {
    match s
    case Header(_, keys, twice) => MayOpen(st.heap, ROOT, keys, twice)
    case Pair(_, keys, value) => MayAssign(st.heap, st.current, keys) && Build(st.heap, value).Some?
  }

  /** A value's nodes are new, and what keys lead to among those that were there stays. */
  lemma BuildLeaves(h: Heap, v: Value, at: Id, keys: seq<Name>)
    requires Since(h, 0) && at < |h| && Build(h, v).Some?
    ensures at < |Build(h, v).value.0| && Build(h, v).value.0[at] == h[at]
    ensures MayAssign(Build(h, v).value.0, at, keys) <==> MayAssign(h, at, keys)
  {
    hide Follow, Build, Since, IsFillable;
    var b := Build(h, v).value.0;
    TomlOnly.BuildSince(h, v);
    assert forall k | 0 <= k < |h| :: b[k] == b[..|h|][k];
    TomlOnly.SameBelow(h, b, at, KeySteps(keys));
    forall k | 0 < k < |keys|
      ensures var there, now := Follow(h, at, KeySteps(keys[..k])), Follow(b, at, KeySteps(keys[..k]));
              now == there && (there.Some? ==> NodeAt(b, there.value) == NodeAt(h, there.value))
    {
      TomlOnly.SameBelow(h, b, at, KeySteps(keys[..k]));
    }
  }

  /** So a statement is done exactly if it may be. */
  lemma DoAccepts(st: State, s: Statement)
    requires Valid(st) && s.keys != []
    ensures Do(st, s).Some? <==> MayDo(st, s)
  {
    hide MayAssign, MayOpen, Build, OpenIn, AssignIn, Follow, Since;
    match s {
      case Header(line, keys, twice) => OpenAccepts(st.heap, ROOT, keys, twice, line);
      case Pair(line, keys, value) =>
        if Build(st.heap, value).Some? {
          var (b, id) := Build(st.heap, value).value;
          BuildLeaves(st.heap, value, st.current, keys);
          AssignAccepts(b, st.current, keys, id, line);
        }
    }
  }
}
