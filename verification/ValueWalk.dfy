/**
  The value walk of the C library (go/clib/core.go): a depth-first walk over a parse result, a graph in
  the heap, that gives the reason why JSON encoding would corrupt the result, or none.
 */
module ValueWalk {
  import opened Ordering

  type Bytes = seq<nat>

  /** A container's identity on the path: its address, its length if it is a slice, and its type. */
  datatype PathKey = PathKey(addr: nat, n: nat, ty: nat)

  /** A struct's field, with what decides whether encoding/json emits it. */
  datatype Field = Field(dashed: bool, exported: bool, anonymous: bool, ofStruct: bool, value: Value)

  /**
    A reflected value. `Scalar` is any kind that is neither text nor a container; `Big` is a big integer or
    float, or a pointer to one; `NilRef` is a nil pointer, map or slice. Other pointers, maps and slices
    are references into the heap, and interfaces, arrays and structs hold their parts themselves.
   */
  datatype Value =
    | Nil
    | Scalar
    | Text(bytes: Bytes)
    | Raw(bytes: Bytes)
    | Big
    | Iface(inner: Value)
    | Array(items: seq<Value>)
    | Struct(fields: seq<Field>)
    | NilRef
    | Ref(key: PathKey)

  /**
    What a reference leads to. `order` is the order in which a map gives its string keys, and the values of
    a map with other keys stand in the order it gives those. The object node lists its keys itself, and a
    key it has no value for stands for a nil interface.
   */
  datatype Node =
    | Slice(elems: seq<Value>, ofBytes: bool)
    | Pointee(target: Value)
    | Ordered(keys: seq<Bytes>, vals: map<Bytes, Value>)
    | StringMap(order: seq<Bytes>, table: map<Bytes, Value>)
    | OtherMap(values: seq<Value>)

  type Heap = map<PathKey, Node>

  /** Memory is never dangling; what is not in the model's heap is nothing to walk. */
  function Load(heap: Heap, k: PathKey): Node {
    if k in heap then heap[k] else Slice([], false)
  }

  datatype Reason = Clean | NotUtf8 | BigNumber | Cycle

  // ---- UTF-8 validity ----

  predicate IsTrail(b: nat) {
    0x80 <= b <= 0xBF
  }

  /** The length of the well-formed UTF-8 sequence at the front, or 0: table 3-7 of the Unicode Standard. */
  function Utf8Front(b: Bytes): (n: nat)
    requires b != []
    ensures n <= |b|
  {
    var trail := (k: nat) => k < |b| && IsTrail(b[k]);
    if b[0] < 0x80 then 1
    else if 0xC2 <= b[0] <= 0xDF && trail(1) then 2
    else if 0xE0 <= b[0] <= 0xEF && trail(1) && trail(2)
            && (b[0] == 0xE0 ==> b[1] >= 0xA0) && (b[0] == 0xED ==> b[1] < 0xA0) then 3
    else if 0xF0 <= b[0] <= 0xF4 && trail(1) && trail(2) && trail(3)
            && (b[0] == 0xF0 ==> b[1] >= 0x90) && (b[0] == 0xF4 ==> b[1] < 0x90) then 4
    else 0
  }

  /** utf8.Valid. */
  predicate ValidUtf8(b: Bytes) {
    b == [] || (Utf8Front(b) > 0 && ValidUtf8(b[Utf8Front(b)..]))
  }

  // ---- What is emitted ----

  /** A value that is itself the trouble. */
  function Verdict(v: Value): Reason {
    match v
    case Text(bytes) => if ValidUtf8(bytes) then Clean else NotUtf8
    case Raw(bytes) => if ValidUtf8(bytes) then Clean else NotUtf8
    case Big => BigNumber
    case _ => Clean
  }

  predicate IsEmitted(f: Field) {
    !f.dashed && (f.exported || (f.anonymous && f.ofStruct))
  }

  function EmittedFields(fields: seq<Field>): seq<Value> {
    if fields == [] then []
    else (if IsEmitted(fields[0]) then [fields[0].value] else []) + EmittedFields(fields[1..])
  }

  /** Keys, each with its value after it. */
  function Pairs(keys: seq<Bytes>, vals: map<Bytes, Value>): seq<Value> {
    if keys == [] then []
    else [Text(keys[0]), if keys[0] in vals then vals[keys[0]] else Nil] + Pairs(keys[1..], vals)
  }

  function Itself(k: Bytes): Bytes {
    k
  }

  /** What a container emits, in order. Byte slices encode as base64, and string keys are emitted sorted. */
  function Contents(node: Node): seq<Value> {
    match node
    case Slice(elems, ofBytes) => if ofBytes then [] else elems
    case Pointee(target) => [target]
    case Ordered(keys, vals) => Pairs(keys, vals)
    case StringMap(order, table) => Pairs(SortBy(order, Itself), table)
    case OtherMap(values) => values
  }

  /** What a value that is no reference emits. */
  function Within(v: Value): seq<Value> {
    match v
    case Iface(inner) => [inner]
    case Array(items) => items
    case Struct(fields) => EmittedFields(fields)
    case _ => []
  }

  function Parts(heap: Heap, v: Value): seq<Value> {
    if v.Ref? then Contents(Load(heap, v.key)) else Within(v)
  }

  /** A container that is put on the path: not an empty slice, and not one of bytes. */
  predicate OnThePath(node: Node) {
    node.Slice? ==> node.elems != [] && !node.ofBytes
  }

  // ---- The walk's answer ----

  function Weight(v: Value): nat {
    match v
    case Iface(inner) => 1 + Weight(inner)
    case Array(items) => 1 + WeightAll(items)
    case Struct(fields) => 1 + FieldsWeight(fields)
    case _ => 1
  }

  function WeightAll(vs: seq<Value>): nat {
    if vs == [] then 0 else Weight(vs[0]) + WeightAll(vs[1..])
  }

  function FieldsWeight(fields: seq<Field>): nat {
    if fields == [] then 0 else FieldWeight(fields[0]) + FieldsWeight(fields[1..])
  }

  function FieldWeight(f: Field): nat {
    Weight(f.value)
  }

  lemma {:induction false} EmittedWeight(fields: seq<Field>)
    ensures WeightAll(EmittedFields(fields)) <= FieldsWeight(fields)
  {
    if fields != [] {
      EmittedWeight(fields[1..]);
      var rest := EmittedFields(fields[1..]);
      assert [] + rest == rest;
      assert ([fields[0].value] + rest)[1..] == rest;
    }
  }

  lemma WithinWeight(v: Value)
    ensures WeightAll(Within(v)) < Weight(v)
  {
    if v.Iface? {
      assert [v.inner][1..] == [];
    }
    if v.Struct? {
      EmittedWeight(v.fields);
    }
  }

  /** The reason for a value below the containers of a path: its own, or that of the first part with one. */
  ghost function Why(heap: Heap, above: set<PathKey>, v: Value): Reason
    decreases |heap.Keys - above|, Weight(v), 0
  {
    if Verdict(v) != Clean then Verdict(v)
    else if v.Ref? then
      if !OnThePath(Load(heap, v.key)) then Clean
      else if v.key in above then Cycle
      else
        Shrinks(heap, above, v.key);
        First(heap, above + {v.key}, Contents(Load(heap, v.key)))
    else
      WithinWeight(v);
      First(heap, above, Within(v))
  }

  ghost function First(heap: Heap, above: set<PathKey>, vs: seq<Value>): Reason
    decreases |heap.Keys - above|, WeightAll(vs), 1
  {
    if vs == [] then Clean
    else
      var why := Why(heap, above, vs[0]);
      if why != Clean then why else First(heap, above, vs[1..])
  }

  lemma Shrinks(heap: Heap, above: set<PathKey>, k: PathKey)
    requires k in heap && k !in above
    ensures |heap.Keys - (above + {k})| < |heap.Keys - above|
  {
    assert heap.Keys - above == (heap.Keys - (above + {k})) + {k};
  }

  // ---- The walk itself ----

  /** A walk: the heap, and the containers between the root and the value being walked. */
  class UnsafeWalk {
    const heap: Heap
    var onPath: set<PathKey>

    constructor (heap: Heap)
      ensures this.heap == heap && onPath == {}
    {
      this.heap := heap;
      onPath := {};
    }

    method Walk(v: Value) returns (why: Reason)
      modifies this
      ensures onPath == old(onPath) && why == Why(heap, old(onPath), v)
      decreases |heap.Keys - onPath|, Weight(v), 0
    {
      WithinWeight(v);
      match v {
        case Raw(bytes) =>
          if !ValidUtf8(bytes) {
            return NotUtf8;
          }
          why := Clean;
        case Big =>
          why := BigNumber;
        case Text(bytes) =>
          if !ValidUtf8(bytes) {
            return NotUtf8;
          }
          why := Clean;
        case Iface(inner) =>
          FirstOfOne(heap, onPath, inner);
          why := Walk(inner);
        case NilRef =>
          why := Clean;
        case Ref(key) =>
          why := Container(key);
        case Array(items) =>
          why := Elems(items);
        case Struct(fields) =>
          EmittedWeight(fields);
          why := Fields(fields);
        case _ =>
          why := Clean;
      }
    }

    /** Walk a pointer, map or slice that is not nil, unless it is already on the path. */
    method Container(key: PathKey) returns (why: Reason)
      modifies this
      ensures onPath == old(onPath) && why == Why(heap, old(onPath), Ref(key))
      decreases |heap.Keys - onPath|, 0, 0
    {
      var node := Load(heap, key);
      if node.Slice? {
        if node.elems == [] || node.ofBytes {
          return Clean;
        }
      }
      if key in onPath {
        return Cycle;
      }
      Shrinks(heap, onPath, key);
      ghost var above := onPath;
      onPath := onPath + {key};
      match node {
        case StringMap(order, table) =>
          why := Entries(order, table);
        case OtherMap(values) =>
          why := Elems(values);
        case Slice(elems, _) =>
          why := Elems(elems);
        case Ordered(keys, vals) =>
          why := OrderedNode(keys, vals);
        case Pointee(target) =>
          FirstOfOne(heap, onPath, target);
          why := Walk(target);
      }
      onPath := onPath - {key};
      assert onPath == above;
    }

    /** The object node as it is emitted: each key, and then that key's value. */
    method OrderedNode(keys: seq<Bytes>, vals: map<Bytes, Value>) returns (why: Reason)
      modifies this
      ensures onPath == old(onPath) && why == First(heap, old(onPath), Pairs(keys, vals))
      decreases |heap.Keys - onPath|, WeightAll(Pairs(keys, vals)), 1
    {
      var i := 0;
      assert keys[0..] == keys;
      while i < |keys|
        invariant i <= |keys| && onPath == old(onPath)
        invariant First(heap, onPath, Pairs(keys[i..], vals)) == First(heap, onPath, Pairs(keys, vals))
        invariant WeightAll(Pairs(keys[i..], vals)) <= WeightAll(Pairs(keys, vals))
      {
        var k := keys[i];
        var v := if k in vals then vals[k] else Nil;
        PairFirst(heap, onPath, keys, vals, i);
        if !ValidUtf8(k) {
          return NotUtf8;
        }
        var reason := Walk(v);
        if reason != Clean {
          return reason;
        }
        i := i + 1;
      }
      why := Clean;
    }

    /** A map's string keys, sorted, and its values. */
    method Entries(order: seq<Bytes>, table: map<Bytes, Value>) returns (why: Reason)
      modifies this
      ensures onPath == old(onPath) && why == First(heap, old(onPath), Pairs(SortBy(order, Itself), table))
      decreases |heap.Keys - onPath|, WeightAll(Pairs(SortBy(order, Itself), table)), 2
    {
      var keys := SortBy(order, Itself);
      why := OrderedNode(keys, table);
    }

    method Elems(items: seq<Value>) returns (why: Reason)
      modifies this
      ensures onPath == old(onPath) && why == First(heap, old(onPath), items)
      decreases |heap.Keys - onPath|, WeightAll(items), 1
    {
      var i := 0;
      assert items[0..] == items;
      while i < |items|
        invariant i <= |items| && onPath == old(onPath)
        invariant First(heap, onPath, items[i..]) == First(heap, onPath, items)
        invariant WeightAll(items[i..]) <= WeightAll(items)
      {
        assert items[i..][1..] == items[i + 1..];
        var reason := Walk(items[i]);
        if reason != Clean {
          return reason;
        }
        i := i + 1;
      }
      why := Clean;
    }

    /** The fields encoding/json emits: the exported ones, and embedded structs. */
    method Fields(fields: seq<Field>) returns (why: Reason)
      modifies this
      ensures onPath == old(onPath) && why == First(heap, old(onPath), EmittedFields(fields))
      decreases |heap.Keys - onPath|, FieldsWeight(fields), 1
    {
      var i := 0;
      assert fields[0..] == fields;
      while i < |fields|
        invariant i <= |fields| && onPath == old(onPath)
        invariant First(heap, onPath, EmittedFields(fields[i..])) == First(heap, onPath, EmittedFields(fields))
        invariant FieldsWeight(fields[i..]) <= FieldsWeight(fields)
      {
        var f := fields[i];
        FieldFirst(heap, onPath, fields, i);
        if f.dashed {
          i := i + 1;
          continue;
        }
        if !f.exported {
          if !f.anonymous || !f.ofStruct {
            i := i + 1;
            continue;
          }
        }
        var reason := Walk(f.value);
        if reason != Clean {
          return reason;
        }
        i := i + 1;
      }
      why := Clean;
    }
  }

  lemma FirstOfOne(heap: Heap, above: set<PathKey>, v: Value)
    ensures First(heap, above, [v]) == Why(heap, above, v)
    ensures WeightAll([v]) == Weight(v)
  {
    assert [v][1..] == [];
    assert First(heap, above, []) == Clean;
  }

  lemma PairFirst(heap: Heap, above: set<PathKey>, keys: seq<Bytes>, vals: map<Bytes, Value>, i: nat)
    requires i < |keys|
    ensures var v, rest := if keys[i] in vals then vals[keys[i]] else Nil, Pairs(keys[i + 1..], vals);
            && First(heap, above, Pairs(keys[i..], vals))
               == (if !ValidUtf8(keys[i]) then NotUtf8
                   else if Why(heap, above, v) != Clean then Why(heap, above, v) else First(heap, above, rest))
            && WeightAll(Pairs(keys[i..], vals)) == 1 + Weight(v) + WeightAll(rest)
  {
    hide ValidUtf8;
    var v, rest := if keys[i] in vals then vals[keys[i]] else Nil, Pairs(keys[i + 1..], vals);
    assert keys[i..][1..] == keys[i + 1..];
    var both := Pairs(keys[i..], vals);
    assert both == [Text(keys[i]), v] + rest;
    assert both[1..] == [v] + rest && both[1..][1..] == rest;
    assert First(heap, above, both[1..]) == if Why(heap, above, v) != Clean then Why(heap, above,
        v) else First(heap, above, rest);
    assert Why(heap, above, Text(keys[i])) == Verdict(Text(keys[i]));
  }

  lemma FieldFirst(heap: Heap, above: set<PathKey>, fields: seq<Field>, i: nat)
    requires i < |fields|
    ensures var f, rest := fields[i], EmittedFields(fields[i + 1..]);
            && First(heap, above, EmittedFields(fields[i..]))
               == (if !IsEmitted(f) then First(heap, above, rest)
                   else if Why(heap, above, f.value) != Clean then Why(heap, above, f.value) else First(heap,
                       above, rest))
            && FieldsWeight(fields[i..]) == Weight(f.value) + FieldsWeight(fields[i + 1..])
  {
    var f, rest := fields[i], EmittedFields(fields[i + 1..]);
    assert fields[i..][1..] == fields[i + 1..];
    assert [] + rest == rest;
    assert ([f.value] + rest)[1..] == rest;
  }
}
