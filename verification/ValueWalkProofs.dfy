/** What the reason of a value walk means in the graph: the paths that lead to trouble, and the first of them. */
module ValueWalkProofs {
  import opened Ordering
  import opened ValueMeaning
  import opened ValueWalk

  // ---- Paths ----

  /** A way down the graph: each value leads to the one after it. */
  ghost predicate IsPath(heap: Heap, p: seq<Value>) {
    p != [] && forall i | 0 <= i < |p| - 1 :: Leads(heap, p[i], p[i + 1])
  }

  /** A container that leads back to itself. */
  ghost predicate Repeats(p: seq<Value>) {
    exists i, j :: 0 <= i < j < |p| && p[i].Ref? && p[i] == p[j]
  }

  /** No path from the value ends at text that is no UTF-8 or at a big number, and none meets a container again. */
  ghost predicate IsSound(heap: Heap, v: Value) {
    forall p: seq<Value> | IsPath(heap, p) && p[0] == v :: !HasTrouble(p[|p| - 1]) && !Repeats(p)
  }

  lemma {:induction false} FirstClean(heap: Heap, above: set<PathKey>, vs: seq<Value>, v: Value)
    requires First(heap, above, vs) == Clean && v in vs
    ensures Why(heap, above, v) == Clean
    decreases |vs|
  {
    if v != vs[0] {
      assert v in vs[1..];
      FirstClean(heap, above, vs[1..], v);
    }
  }

  lemma {:induction false} FirstIndex(heap: Heap, above: set<PathKey>, vs: seq<Value>) returns (i: nat)
    requires First(heap, above, vs) != Clean
    ensures i < |vs| && Why(heap, above, vs[i]) == First(heap, above, vs)
    ensures forall j | 0 <= j < i :: Why(heap, above, vs[j]) == Clean
    decreases |vs|
  {
    if Why(heap, above, vs[0]) != Clean {
      i := 0;
    } else {
      var k := FirstIndex(heap, above, vs[1..]);
      i := k + 1;
      forall j | 0 <= j < i ensures Why(heap, above, vs[j]) == Clean {
        if j > 0 {
          assert vs[j] == vs[1..][j - 1];
        }
      }
    }
  }

  /** The containers above the parts of a value. */
  function Below(above: set<PathKey>, v: Value): set<PathKey> {
    if v.Ref? then above + {v.key} else above
  }

  /** Whether a value is walked into: it is no trouble itself, and not a container met again. */
  ghost predicate Enters(heap: Heap, above: set<PathKey>, v: Value) {
    Verdict(v) == Clean && (v.Ref? ==> OnThePath(Load(heap, v.key)) && v.key !in above)
  }

  lemma WhyEntered(heap: Heap, above: set<PathKey>, v: Value)
    requires Enters(heap, above, v)
    ensures Why(heap, above, v) == First(heap, Below(above, v), Parts(heap, v))
  {
  }

  lemma CleanEnters(heap: Heap, above: set<PathKey>, v: Value)
    requires Why(heap, above, v) == Clean && Parts(heap, v) != []
    ensures Enters(heap, above, v)
  {
  }

  /** Below a clean value every path is sound, and keeps off the containers above. */
  lemma {:induction false} CleanPaths(heap: Heap, above: set<PathKey>, p: seq<Value>)
    requires IsPath(heap, p) && Why(heap, above, p[0]) == Clean
    ensures Verdict(p[|p| - 1]) == Clean && !Repeats(p)
    ensures forall i | 0 <= i < |p| && p[i].Ref? && OnThePath(Load(heap, p[i].key)) :: p[i].key !in above
    decreases |p|
  {
    if |p| > 1 {
      var v, rest := p[0], p[1..];
      assert Leads(heap, v, rest[0]);
      LeadsToParts(heap, v, rest[0]);
      CleanEnters(heap, above, v);
      WhyEntered(heap, above, v);
      FirstClean(heap, Below(above, v), Parts(heap, v), rest[0]);
      PathTail(heap, p);
      CleanPaths(heap, Below(above, v), rest);
      hide Why, Load, Parts, Leads, IsPath;
      assert forall i | 1 <= i < |p| :: p[i] == rest[i - 1];
      if Repeats(p) {
        var i, j :| 0 <= i < j < |p| && p[i].Ref? && p[i] == p[j];
        if i > 0 {
          RepeatsTail(p, i, j);
        }
      }
    }
  }

  lemma RepeatsTail(p: seq<Value>, i: nat, j: nat)
    requires 0 < i < j < |p| && p[i].Ref? && p[i] == p[j]
    ensures Repeats(p[1..])
  {
    var rest := p[1..];
    assert rest[i - 1].Ref? && rest[i - 1] == rest[j - 1];
  }

  lemma PathTail(heap: Heap, p: seq<Value>)
    requires IsPath(heap, p) && |p| > 1
    ensures IsPath(heap, p[1..])
  {
    hide Leads;
    var rest := p[1..];
    forall i | 0 <= i < |rest| - 1 ensures Leads(heap, rest[i], rest[i + 1]) {
      assert Leads(heap, p[i + 1], p[i + 2]);
    }
  }

  /** A reason has a path to what it is about: bad text, a big number, or a container met again. */
  ghost predicate Shows(heap: Heap, above: set<PathKey>, v: Value, why: Reason, p: seq<Value>) {
    && IsPath(heap, p) && p[0] == v
    && var last := p[|p| - 1];
       if why == Cycle then last.Ref? && (last.key in above || Repeats(p)) else Verdict(last) == why
  }

  lemma {:induction false} Witness(heap: Heap, above: set<PathKey>, v: Value) returns (p: seq<Value>)
    requires Why(heap, above, v) != Clean
    ensures Shows(heap, above, v, Why(heap, above, v), p)
    decreases |heap.Keys - above|, Weight(v)
  {
    if Enters(heap, above, v) {
      WhyEntered(heap, above, v);
      var i := FirstIndex(heap, Below(above, v), Parts(heap, v));
      var part := Parts(heap, v)[i];
      if v.Ref? {
        Shrinks(heap, above, v.key);
      } else {
        WithinWeight(v);
        PartWeight(Within(v), i);
      }
      var rest := Witness(heap, Below(above, v), part);
      p := [v] + rest;
      Prepended(heap, above, v, Why(heap, above, v), rest);
    } else {
      p := [v];
    }
  }

  lemma {:induction false} PartWeight(vs: seq<Value>, i: nat)
    requires i < |vs|
    ensures Weight(vs[i]) <= WeightAll(vs)
  {
    if i > 0 {
      PartWeight(vs[1..], i - 1);
    }
  }

  lemma Prepended(heap: Heap, above: set<PathKey>, v: Value, why: Reason, rest: seq<Value>)
    requires rest != [] && rest[0] in Parts(heap, v) && Shows(heap, Below(above, v), rest[0], why, rest)
    ensures Shows(heap, above, v, why, [v] + rest)
  {
    hide Parts, Verdict, Leads;
    var p, n := [v] + rest, |rest|;
    assert p[n] == rest[n - 1];
    LeadsToParts(heap, v, rest[0]);
    forall i | 0 <= i < n ensures Leads(heap, p[i], p[i + 1]) {
      if i > 0 {
        assert Leads(heap, rest[i - 1], rest[i - 1 + 1]);
      }
    }
    if why == Cycle && rest[n - 1].key !in above {
      if Repeats(rest) {
        var i, j :| 0 <= i < j < |rest| && rest[i].Ref? && rest[i] == rest[j];
        assert p[i + 1].Ref? && p[i + 1] == p[j + 1];
      } else {
        assert p[0].Ref? && p[0] == p[n];
      }
    }
  }

  /**
    The walk gives no reason exactly when nothing written is bad text or a big number and no container is
    reached from itself. Sharing without a cycle is no trouble.
   */
  lemma CleanIffSound(heap: Heap, v: Value)
    ensures Why(heap, {}, v) == Clean <==> IsSound(heap, v)
  {
    hide Verdict, Leads, HasTrouble;
    if Why(heap, {}, v) == Clean {
      forall p: seq<Value> | IsPath(heap, p) && p[0] == v ensures !HasTrouble(p[|p| - 1]) && !Repeats(p) {
        CleanPaths(heap, {}, p);
        TroubleIs(p[|p| - 1]);
      }
    } else {
      var p := Witness(heap, {}, v);
      hide Why;
      TroubleIs(p[|p| - 1]);
      assert IsPath(heap, p) && p[0] == v;
    }
  }

  /** And a reason is about something that is there: a container met again, bad text, or a big number. */
  lemma ReasonIsThere(heap: Heap, v: Value)
    requires Why(heap, {}, v) != Clean
    ensures exists p: seq<Value> :: IsPath(heap, p) && p[0] == v
              && (if Why(heap, {}, v) == Cycle then Repeats(p) else IsTrouble(p[|p| - 1], Why(heap, {}, v)))
  {
    var p := Witness(heap, {}, v);
    hide Why, Verdict, IsTrouble;
    TroubleIs(p[|p| - 1]);
    assert IsPath(heap, p) && p[0] == v;
  }

  // ---- The first trouble in the order of emission ----

  /** The trouble at a place, given as the index of the part taken at each step down from a value. */
  ghost function TroubleAt(heap: Heap, above: set<PathKey>, v: Value, place: seq<nat>): Reason
    decreases |place|
  {
    if place == [] then
      if v.Ref? && OnThePath(Load(heap, v.key)) && v.key in above then Cycle else Verdict(v)
    else if !Enters(heap, above, v) || place[0] >= |Parts(heap, v)| then Clean
    else TroubleAt(heap, Below(above, v), Parts(heap, v)[place[0]], place[1..])
  }

  lemma {:induction false} NoTrouble(heap: Heap, above: set<PathKey>, v: Value, place: seq<nat>)
    requires Why(heap, above, v) == Clean
    ensures TroubleAt(heap, above, v, place) == Clean
    decreases |place|
  {
    if place != [] && Enters(heap, above, v) && place[0] < |Parts(heap, v)| {
      WhyEntered(heap, above, v);
      FirstClean(heap, Below(above, v), Parts(heap, v), Parts(heap, v)[place[0]]);
      NoTrouble(heap, Below(above, v), Parts(heap, v)[place[0]], place[1..]);
    }
  }

  /** The place a walk's reason is about, and nothing before it in the order of emission is trouble. */
  lemma {:induction false} FirstTrouble(heap: Heap, above: set<PathKey>, v: Value) returns (place: seq<nat>)
    requires Why(heap, above, v) != Clean
    ensures TroubleAt(heap, above, v, place) == Why(heap, above, v)
    ensures forall other: seq<nat> | Before(other, place) :: TroubleAt(heap, above, v, other) == Clean
    decreases |heap.Keys - above|, Weight(v)
  {
    if Enters(heap, above, v) {
      WhyEntered(heap, above, v);
      var below, parts := Below(above, v), Parts(heap, v);
      var i := FirstIndex(heap, below, parts);
      if v.Ref? {
        Shrinks(heap, above, v.key);
      } else {
        WithinWeight(v);
        PartWeight(parts, i);
      }
      var rest := FirstTrouble(heap, below, parts[i]);
      place := [i] + rest;
      assert place[1..] == rest;
      hide Why, Verdict, Parts, Load;
      forall other: seq<nat> | Before(other, place) ensures TroubleAt(heap, above, v, other) == Clean {
        if other != [] {
          if other[0] < i {
            NoTrouble(heap, below, parts[other[0]], other[1..]);
          }
        }
      }
    } else {
      place := [];
    }
  }

  /** A place with a reason, and no trouble before it. */
  ghost predicate IsFirstAt(heap: Heap, v: Value, why: Reason, place: seq<nat>) {
    && TroubleAt(heap, {}, v, place) == why
    && forall other: seq<nat> | Before(other, place) :: TroubleAt(heap, {}, v, other) == Clean
  }

  /** jsonUnsafe gives the reason of the first trouble in the order encoding/json emits the value. */
  lemma WalkFindsFirst(heap: Heap, v: Value, why: Reason)
    ensures why == Why(heap, {}, v) <==>
              if why == Clean then forall place: seq<nat> :: TroubleAt(heap, {}, v, place) == Clean
              else exists place: seq<nat> :: IsFirstAt(heap, v, why, place)
  {
    var found := Why(heap, {}, v);
    if found == Clean {
      forall place: seq<nat> ensures TroubleAt(heap, {}, v, place) == Clean {
        NoTrouble(heap, {}, v, place);
      }
    } else {
      var at := FirstTrouble(heap, {}, v);
      hide Why, TroubleAt, Before;
      assert IsFirstAt(heap, v, found, at);
      forall place: seq<nat> | IsFirstAt(heap, v, why, place) && why != Clean ensures why == found {
        BeforeTotal(place, at);
      }
    }
  }

  /**
    jsonUnsafe: a walk from the root. It gives no reason exactly when the value is sound, and otherwise the
    reason of the first trouble in the order of emission.
   */
  method JsonUnsafe(heap: Heap, root: Value) returns (why: Reason)
    ensures why == Clean <==> IsSound(heap, root)
    ensures why != Clean ==> exists place: seq<nat> :: IsFirstAt(heap, root, why, place)
    ensures why == Why(heap, {}, root)
  {
    var w := new UnsafeWalk(heap);
    why := w.Walk(root);
    CleanIffSound(heap, root);
    WalkFindsFirst(heap, root, why);
  }

  // ---- Map order ----

  /** Two heaps whose containers emit the same, one by one. */
  ghost predicate EmitAlike(a: Heap, b: Heap) {
    forall k: PathKey :: Contents(Load(a, k)) == Contents(Load(b, k)) && OnThePath(Load(a, k)) == OnThePath(Load(b, k))
  }

  lemma {:induction false} AlikeWhy(a: Heap, b: Heap, above: set<PathKey>, v: Value)
    requires EmitAlike(a, b)
    ensures Why(a, above, v) == Why(b, above, v)
    decreases |a.Keys - above|, Weight(v), 0
  {
    if v.Ref? && OnThePath(Load(a, v.key)) && v.key !in above {
      assert OnThePath(Load(b, v.key));
      Shrinks(a, above, v.key);
      AlikeFirst(a, b, above + {v.key}, Contents(Load(a, v.key)));
    } else if !v.Ref? {
      WithinWeight(v);
      AlikeFirst(a, b, above, Within(v));
    } else {
      assert OnThePath(Load(a, v.key)) == OnThePath(Load(b, v.key));
    }
  }

  lemma {:induction false} AlikeFirst(a: Heap, b: Heap, above: set<PathKey>, vs: seq<Value>)
    requires EmitAlike(a, b)
    ensures First(a, above, vs) == First(b, above, vs)
    decreases |a.Keys - above|, WeightAll(vs), 1
  {
    if vs != [] {
      AlikeWhy(a, b, above, vs[0]);
      PositiveWeight(vs[0]);
      AlikeFirst(a, b, above, vs[1..]);
    }
  }

  lemma PositiveWeight(v: Value)
    ensures Weight(v) > 0
  {
  }

  /** The same node, but for the order in which a map gives its string keys. */
  ghost predicate SameButOrder(a: Node, b: Node) {
    if a.StringMap? && b.StringMap? then
      a.table == b.table && multiset(a.order) == multiset(b.order) && DistinctBy(a.order, Itself)
    else a == b
  }

  /** The reason never depends on the order in which a map gives its string keys. */
  lemma StringMapOrderIsNothing(a: Heap, b: Heap, v: Value)
    requires a.Keys == b.Keys && forall k <- a.Keys :: SameButOrder(a[k], b[k])
    ensures Why(a, {}, v) == Why(b, {}, v)
  {
    forall k: PathKey
      ensures Contents(Load(a, k)) == Contents(Load(b, k)) && OnThePath(Load(a, k)) == OnThePath(Load(b, k))
    {
      if k in a.Keys {
        SameContents(a[k], b[k]);
      }
    }
    AlikeWhy(a, b, {}, v);
  }

  lemma SameContents(a: Node, b: Node)
    requires SameButOrder(a, b)
    ensures Contents(a) == Contents(b)
  {
    if a.StringMap? && b.StringMap? {
      SortsAgree(a.order, b.order, Itself);
    }
  }

  /** Heaps that differ in containers above the walk alone. */
  ghost predicate ApartAbove(a: Heap, b: Heap, above: set<PathKey>) {
    && a.Keys == b.Keys
    && forall k: PathKey :: OnThePath(Load(a, k)) == OnThePath(Load(b, k))
                            && (k !in above ==> Contents(Load(a, k)) == Contents(Load(b, k)))
  }

  lemma {:induction false} ApartWhy(a: Heap, b: Heap, above: set<PathKey>, v: Value)
    requires ApartAbove(a, b, above)
    ensures Why(a, above, v) == Why(b, above, v)
    decreases |a.Keys - above|, Weight(v), 0
  {
    if v.Ref? {
      assert OnThePath(Load(a, v.key)) == OnThePath(Load(b, v.key));
      if OnThePath(Load(a, v.key)) && v.key !in above {
        Shrinks(a, above, v.key);
        ApartFirst(a, b, above + {v.key}, Contents(Load(a, v.key)));
      }
    } else {
      WithinWeight(v);
      ApartFirst(a, b, above, Within(v));
    }
  }

  lemma {:induction false} ApartFirst(a: Heap, b: Heap, above: set<PathKey>, vs: seq<Value>)
    requires ApartAbove(a, b, above)
    ensures First(a, above, vs) == First(b, above, vs)
    decreases |a.Keys - above|, WeightAll(vs), 1
  {
    if vs != [] {
      ApartWhy(a, b, above, vs[0]);
      PositiveWeight(vs[0]);
      ApartFirst(a, b, above, vs[1..]);
    }
  }

  /** All the values that have a reason have the same one. */
  ghost predicate OneReason(heap: Heap, above: set<PathKey>, vs: seq<Value>) {
    forall x, y | x in vs && y in vs && Why(heap, above, x) != Clean && Why(heap, above, y) != Clean ::
      Why(heap, above, x) == Why(heap, above, y)
  }

  lemma {:induction false} FirstIsAReason(heap: Heap, above: set<PathKey>, vs: seq<Value>)
    ensures First(heap, above, vs) == Clean <==> forall v | v in vs :: Why(heap, above, v) == Clean
    ensures First(heap, above, vs) != Clean ==> exists v :: v in vs && Why(heap, above, v) == First(heap, above, vs)
    decreases |vs|
  {
    if First(heap, above, vs) == Clean {
      forall v | v in vs ensures Why(heap, above, v) == Clean {
        FirstClean(heap, above, vs, v);
      }
    } else {
      var i := FirstIndex(heap, above, vs);
      assert vs[i] in vs;
    }
  }

  /** The same values in another order, with the one of place i first. */
  lemma PutFirst(vs: seq<Value>, i: nat)
    requires i < |vs|
    ensures multiset([vs[i]] + vs[..i] + vs[i + 1..]) == multiset(vs)
  {
    assert vs == vs[..i] + [vs[i]] + vs[i + 1..];
  }

  ghost predicate SameInAnyOrder(heap: Heap, above: set<PathKey>, vs: seq<Value>) {
    forall ws: seq<Value> | multiset(ws) == multiset(vs) :: First(heap, above, ws) == First(heap, above, vs)
  }

  /** The order of some values never matters exactly when those with a reason have the same one. */
  lemma OrderMattersUnlessOneReason(heap: Heap, above: set<PathKey>, vs: seq<Value>)
    ensures OneReason(heap, above, vs) <==> SameInAnyOrder(heap, above, vs)
  {
    hide Why, First;
    if OneReason(heap, above, vs) {
      forall ws: seq<Value> | multiset(ws) == multiset(vs) ensures First(heap, above, ws) == First(heap, above, vs) {
        SameMembers(vs, ws);
        FirstIsAReason(heap, above, vs);
        FirstIsAReason(heap, above, ws);
      }
    } else {
      var x, y :| x in vs && y in vs && Why(heap, above, x) != Clean && Why(heap, above, y) != Clean
                  && Why(heap, above, x) != Why(heap, above, y);
      var z := if Why(heap, above, x) == First(heap, above, vs) then y else x;
      var i :| 0 <= i < |vs| && vs[i] == z;
      OtherFirst(heap, above, vs, i);
    }
  }

  /** A value with another reason, put first, gives that reason. */
  lemma OtherFirst(heap: Heap, above: set<PathKey>, vs: seq<Value>, i: nat)
    requires i < |vs| && Why(heap, above, vs[i]) != Clean && Why(heap, above, vs[i]) != First(heap, above, vs)
    ensures !SameInAnyOrder(heap, above, vs)
  {
    hide Why, First;
    PutFirst(vs, i);
    var ws := [vs[i]] + vs[..i] + vs[i + 1..];
    assert ws[0] == vs[i];
    HeadDecides(heap, above, ws);
    assert multiset(ws) == multiset(vs);
  }

  lemma HeadDecides(heap: Heap, above: set<PathKey>, vs: seq<Value>)
    requires vs != [] && Why(heap, above, vs[0]) != Clean
    ensures First(heap, above, vs) == Why(heap, above, vs[0])
  {
    hide Why;
  }

  lemma SameMembers(a: seq<Value>, b: seq<Value>)
    requires multiset(a) == multiset(b)
    ensures forall v :: v in a <==> v in b
  {
    forall v ensures v in a <==> v in b {
      assert v in a <==> v in multiset(a);
      assert v in b <==> v in multiset(b);
    }
  }

  /**
    For a map with other keys the order in which it gives its values never matters exactly when all its values
    that have a reason below the map have the same one.
   */
  lemma OtherMapOrderMatters(heap: Heap, above: set<PathKey>, k: PathKey, values: seq<Value>)
    requires k in heap && heap[k] == OtherMap(values) && k !in above
    ensures OneReason(heap, above + {k}, values)
            <==> forall ws: seq<Value> | multiset(ws) == multiset(values) ::
                   Why(heap[k := OtherMap(ws)], above, Ref(k)) == Why(heap, above, Ref(k))
  {
    hide Why, First;
    OrderMattersUnlessOneReason(heap, above + {k}, values);
    forall ws: seq<Value> ensures Why(heap[k := OtherMap(ws)], above, Ref(k)) == First(heap, above + {k}, ws) {
      MapGives(heap, above, k, ws);
    }
    assert heap[k := OtherMap(values)] == heap;
    assert First(heap, above + {k}, values) == Why(heap, above, Ref(k));
    if SameInAnyOrder(heap, above + {k}, values) {
      forall ws: seq<Value> | multiset(ws) == multiset(values)
        ensures Why(heap[k := OtherMap(ws)], above, Ref(k)) == Why(heap, above, Ref(k))
      {
        assert First(heap, above + {k}, ws) == First(heap, above + {k}, values);
      }
    } else {
      var ws: seq<Value> :| multiset(ws) == multiset(values)
                            && First(heap, above + {k}, ws) != First(heap, above + {k}, values);
      assert Why(heap[k := OtherMap(ws)], above, Ref(k)) != Why(heap, above, Ref(k));
    }
  }

  lemma MapGives(heap: Heap, above: set<PathKey>, k: PathKey, ws: seq<Value>)
    requires k in heap && heap[k].OtherMap? && k !in above
    ensures Why(heap[k := OtherMap(ws)], above, Ref(k)) == First(heap, above + {k}, ws)
  {
    var other := heap[k := OtherMap(ws)];
    assert other.Keys == heap.Keys;
    ApartFirst(other, heap, above + {k}, ws);
  }

  /** Two maps that are one but for the order in which they give what they hold, by whether their keys are strings. */
  ghost predicate Reordered(strings: bool, a: Node, b: Node) {
    if strings then SameButOrder(a, b)
    else a == b || (a.OtherMap? && b.OtherMap? && multiset(a.values) == multiset(b.values))
  }

  ghost predicate HeapsReordered(strings: bool, a: Heap, b: Heap) {
    a.Keys == b.Keys && forall k <- a.Keys :: Reordered(strings, a[k], b[k])
  }

  /** A kind of key makes the reason free of order, whatever the maps hold, exactly when it is the strings. */
  lemma KeyKindDecides(strings: bool)
    ensures strings
            <==> forall a: Heap, b: Heap, v: Value | HeapsReordered(strings, a, b) :: Why(a, {}, v) == Why(b, {}, v)
  {
    if strings {
      forall a: Heap, b: Heap, v: Value | HeapsReordered(strings, a, b) ensures Why(a, {}, v) == Why(b, {}, v) {
        StringMapOrderIsNothing(a, b, v);
      }
    } else {
      var k := PathKey(0, 0, 0);
      TwoReasons(k);
      var big, bad := Big, Text([0xFF]);
      var a, b := map[k := OtherMap([big, bad])], map[k := OtherMap([bad, big])];
      assert multiset([big, bad]) == multiset([bad, big]);
      assert HeapsReordered(strings, a, b);
    }
  }

  /** A failing map: a big number and bad text, whichever is given first. */
  lemma TwoReasons(k: PathKey)
    ensures var big, bad := Big, Text([0xFF]);
            && Why(map[k := OtherMap([big, bad])], {}, Ref(k)) == BigNumber
            && Why(map[k := OtherMap([bad, big])], {}, Ref(k)) == NotUtf8
  {
    var big, bad := Big, Text([0xFF]);
    var a, b := map[k := OtherMap([big, bad])], map[k := OtherMap([bad, big])];
    assert Utf8Front([0xFF]) == 0;
    assert Why(a, {k}, big) == BigNumber;
    assert Why(b, {k}, bad) == NotUtf8;
    assert {} + {k} == {k};
  }

  /** Whether a reason is given does not depend on any order: the values emitted are the same ones. */
  lemma NoOrderHidesTrouble(a: Heap, b: Heap, v: Value)
    requires forall k: PathKey, x: Value :: x in Contents(Load(a, k)) <==> x in Contents(Load(b, k))
    ensures Why(a, {}, v) == Clean <==> Why(b, {}, v) == Clean
  {
    CleanIffSound(a, v);
    CleanIffSound(b, v);
    hide Why, HasTrouble, Contents, Load, Within, Leads, Repeats;
    forall p: seq<Value> ensures IsPath(a, p) <==> IsPath(b, p) {
      SamePath(a, b, p);
    }
  }

  lemma SamePath(a: Heap, b: Heap, p: seq<Value>)
    requires forall k: PathKey, x: Value :: x in Contents(Load(a, k)) <==> x in Contents(Load(b, k))
    ensures IsPath(a, p) <==> IsPath(b, p)
  {
    hide Contents, Load, Within, Leads;
    forall i | 0 <= i < |p| - 1 ensures Leads(a, p[i], p[i + 1]) <==> Leads(b, p[i], p[i + 1]) {
      LeadsToParts(a, p[i], p[i + 1]);
      LeadsToParts(b, p[i], p[i + 1]);
    }
  }
}
