/**
  What the value walk's parts mean: its byte table accepts the encodings of texts and nothing else, and
  what a value leads to and what is trouble are stated here kind by kind, apart from the walk's functions.
 */
module ValueMeaning {
  import opened Ordering
  import opened Utf
  import opened ValueWalk

  /** The bytes of a text. */
  ghost predicate IsTextOf(b: Bytes, s: seq<nat>) {
    Scalars(s) && Utf8(s) == b
  }

  ghost predicate IsUtf8(b: Bytes) {
    exists s: seq<nat> :: IsTextOf(b, s)
  }

  /** The bytes of a character are a sequence of the table, whatever follows. */
  lemma FrontOfOne(c: nat, rest: Bytes)
    requires IsScalar(c)
    ensures Utf8Front(Utf8One(c) + rest) == |Utf8One(c)|
  {
    var b := Utf8One(c) + rest;
    assert b[0] == Utf8One(c)[0];
    if c >= 0x80 {
      assert b[1] == Utf8One(c)[1];
      if c >= 0x800 {
        assert b[2] == Utf8One(c)[2];
        if c >= 0x10000 {
          assert b[3] == Utf8One(c)[3];
          assert c / 64 / 64 == c / 4096 && c / 4096 / 64 == c / 262144;
        } else {
          assert c / 64 / 64 == c / 4096;
        }
      }
    }
  }

  /** And a sequence of the table is the bytes of a character. */
  lemma OneOfFront(b: Bytes) returns (c: nat)
    requires b != [] && Utf8Front(b) > 0
    ensures IsScalar(c) && Utf8One(c) == b[..Utf8Front(b)]
  {
    var n := Utf8Front(b);
    if n == 1 {
      c := b[0];
    } else if n == 2 {
      c := (b[0] - 0xC0) * 64 + (b[1] - 0x80);
    } else if n == 3 {
      c := ThreeBytes(b[0] - 0xE0, b[1] - 0x80, b[2] - 0x80);
    } else {
      c := FourBytes(b[0] - 0xF0, b[1] - 0x80, b[2] - 0x80, b[3] - 0x80);
    }
  }

  lemma ThreeBytes(x: nat, y: nat, z: nat) returns (c: nat)
    requires x < 16 && y < 64 && z < 64
    ensures c == x * 4096 + y * 64 + z && c / 4096 == x && c / 64 % 64 == y && c % 64 == z
  {
    c := x * 4096 + y * 64 + z;
    assert c / 64 == x * 64 + y;
  }

  lemma FourBytes(w: nat, x: nat, y: nat, z: nat) returns (c: nat)
    requires w < 8 && x < 64 && y < 64 && z < 64
    ensures c == w * 262144 + x * 4096 + y * 64 + z
    ensures c / 262144 == w && c / 4096 % 64 == x && c / 64 % 64 == y && c % 64 == z
  {
    c := w * 262144 + x * 4096 + y * 64 + z;
    assert c / 64 == w * 4096 + x * 64 + y;
    assert c / 4096 == w * 64 + x;
  }

  lemma {:induction false} TextIsValid(s: seq<nat>)
    requires Scalars(s)
    ensures ValidUtf8(Utf8(s))
  {
    hide Utf8One, Utf8Front;
    if s != [] {
      var code, rest := Utf8One(s[0]), Utf8(s[1..]);
      FrontOfOne(s[0], rest);
      assert (code + rest)[|code|..] == rest;
      TextIsValid(s[1..]);
    }
  }

  lemma {:induction false} ValidIsText(b: Bytes) returns (s: seq<nat>)
    requires ValidUtf8(b)
    ensures IsTextOf(b, s)
    decreases |b|
  {
    hide Utf8One, Utf8Front;
    if b == [] {
      s := [];
    } else {
      var n := Utf8Front(b);
      var c := OneOfFront(b);
      var rest := ValidIsText(b[n..]);
      s := [c] + rest;
      assert s[1..] == rest;
      assert b == b[..n] + b[n..];
    }
  }

  /** utf8.Valid answers yes exactly on the encodings of texts. */
  lemma ValidExactly(b: Bytes)
    ensures ValidUtf8(b) <==> IsUtf8(b)
  {
    hide ValidUtf8, Utf8;
    if ValidUtf8(b) {
      var s := ValidIsText(b);
    }
    if s: seq<nat> :| IsTextOf(b, s) {
      TextIsValid(s);
    }
  }

  // ---- What a value leads to, and what is trouble, kind by kind ----

  /** The field is written: it has no `-` tag, and it is exported, or an embedded struct. */
  predicate IsWrittenField(f: Field) {
    match f
    case Field(dashed, exported, anonymous, ofStruct, _) =>
      if dashed then false else if exported then true else if anonymous then ofStruct else false
  }

  ghost predicate IsFieldValue(fields: seq<Field>, x: Value) {
    exists i :: 0 <= i < |fields| && IsWrittenField(fields[i]) && x == fields[i].value
  }

  /** A missing value stands for nil. */
  function ValueOf(vals: map<Bytes, Value>, key: Bytes): Value {
    if key in vals then vals[key] else Nil
  }

  ghost predicate IsKeyOrValue(keys: seq<Bytes>, vals: map<Bytes, Value>, x: Value) {
    exists i :: 0 <= i < |keys| && (x == Text(keys[i]) || x == ValueOf(vals, keys[i]))
  }

  ghost predicate LeadsIn(node: Node, x: Value) {
    match node
    case Slice(elems, ofBytes) => !ofBytes && x in elems
    case Pointee(target) => x == target
    case Ordered(keys, vals) => IsKeyOrValue(keys, vals, x)
    case StringMap(order, table) => IsKeyOrValue(order, table, x)
    case OtherMap(values) => x in values
  }

  /** A value that is written with another: what it points at, its elements, keys, values and written fields. */
  ghost predicate Leads(heap: Heap, v: Value, x: Value) {
    match v
    case Iface(inner) => x == inner
    case Array(items) => x in items
    case Struct(fields) => IsFieldValue(fields, x)
    case Ref(k) => k in heap && LeadsIn(heap[k], x)
    case _ => false
  }

  /** Text, or raw JSON, that is no UTF-8; or a big number. */
  ghost predicate IsTrouble(v: Value, why: Reason) {
    match why
    case NotUtf8 => (v.Text? || v.Raw?) && !IsUtf8(v.bytes)
    case BigNumber => v.Big?
    case _ => false
  }

  ghost predicate HasTrouble(v: Value) {
    IsTrouble(v, NotUtf8) || IsTrouble(v, BigNumber)
  }

  /** The verdict on a value alone is its trouble. */
  lemma TroubleIs(v: Value)
    ensures forall why: Reason | why != Clean :: Verdict(v) == why <==> IsTrouble(v, why)
    ensures Verdict(v) == Clean <==> !HasTrouble(v)
  {
    hide ValidUtf8, IsUtf8;
    if v.Text? || v.Raw? {
      ValidExactly(v.bytes);
    }
  }

  /** A field alone is emitted exactly if it is written. */
  lemma FieldAlone(f: Field)
    ensures EmittedFields([f]) == if IsWrittenField(f) then [f.value] else []
  {
    assert [f][1..] == [];
    assert EmittedFields([]) == [];
  }

  lemma FieldFront(fields: seq<Field>)
    requires fields != []
    ensures EmittedFields(fields)
            == (if IsWrittenField(fields[0]) then [fields[0].value] else []) + EmittedFields(fields[1..])
  {
  }

  /** And written fields keep their order. */
  lemma {:induction false} FieldsInOrder(a: seq<Field>, b: seq<Field>)
    ensures EmittedFields(a + b) == EmittedFields(a) + EmittedFields(b)
  {
    if a == [] {
      assert a + b == b;
      assert EmittedFields(a) == [];
    } else {
      hide EmittedFields, IsWrittenField;
      assert (a + b)[1..] == a[1..] + b;
      FieldFront(a);
      FieldFront(a + b);
      FieldsInOrder(a[1..], b);
      Regroup(if IsWrittenField(a[0]) then [a[0].value] else [], EmittedFields(a[1..]), EmittedFields(b));
    }
  }

  lemma Regroup(x: seq<Value>, y: seq<Value>, z: seq<Value>)
    ensures x + (y + z) == x + y + z
  {
  }

  lemma {:induction false} FieldsAre(fields: seq<Field>, x: Value)
    ensures x in EmittedFields(fields) <==> IsFieldValue(fields, x)
  {
    if fields != [] {
      var rest := fields[1..];
      FieldsAre(rest, x);
      assert forall i | 0 < i < |fields| :: fields[i] == rest[i - 1];
      if IsFieldValue(rest, x) {
        var i :| 0 <= i < |rest| && IsWrittenField(rest[i]) && x == rest[i].value;
        assert fields[i + 1] == rest[i];
      }
    }
  }

  /** A key is written before its value, and the keys in their order. */
  lemma {:induction false} PairsInOrder(keys: seq<Bytes>, vals: map<Bytes, Value>, i: nat)
    requires i < |keys|
    ensures var pairs := Pairs(keys, vals);
            && |pairs| == 2 * |keys| && pairs[2 * i] == Text(keys[i]) && pairs[2 * i + 1] == ValueOf(vals, keys[i])
    decreases i
  {
    PairsLength(keys, vals);
    if i > 0 {
      PairsInOrder(keys[1..], vals, i - 1);
    }
  }

  lemma {:induction false} PairsLength(keys: seq<Bytes>, vals: map<Bytes, Value>)
    ensures |Pairs(keys, vals)| == 2 * |keys|
  {
    if keys != [] {
      PairsLength(keys[1..], vals);
    }
  }

  lemma PairsAre(keys: seq<Bytes>, vals: map<Bytes, Value>, x: Value)
    ensures x in Pairs(keys, vals) <==> IsKeyOrValue(keys, vals, x)
  {
    hide Pairs;
    var pairs := Pairs(keys, vals);
    PairsLength(keys, vals);
    if x in pairs {
      var k :| 0 <= k < |pairs| && pairs[k] == x;
      PairsInOrder(keys, vals, k / 2);
    }
    if i :| 0 <= i < |keys| && (x == Text(keys[i]) || x == ValueOf(vals, keys[i])) {
      PairsInOrder(keys, vals, i);
    }
  }

  lemma SortedPairsAre(order: seq<Bytes>, vals: map<Bytes, Value>, x: Value)
    ensures x in Pairs(SortBy(order, Itself), vals) <==> IsKeyOrValue(order, vals, x)
  {
    hide Pairs, SortBy;
    var sorted := SortBy(order, Itself);
    PairsAre(sorted, vals, x);
    SortSorts(order, Itself);
    if IsKeyOrValue(order, vals, x) {
      SameKeys(order, sorted, vals, x);
    }
    if IsKeyOrValue(sorted, vals, x) {
      SameKeys(sorted, order, vals, x);
    }
  }

  lemma SameKeys(a: seq<Bytes>, b: seq<Bytes>, vals: map<Bytes, Value>, x: Value)
    requires multiset(a) == multiset(b) && IsKeyOrValue(a, vals, x)
    ensures IsKeyOrValue(b, vals, x)
  {
    var i :| 0 <= i < |a| && (x == Text(a[i]) || x == ValueOf(vals, a[i]));
    assert a[i] in multiset(b);
    var j :| 0 <= j < |b| && b[j] == a[i];
  }

  /** A value leads to exactly the parts it emits. */
  lemma LeadsToParts(heap: Heap, v: Value, x: Value)
    ensures x in Parts(heap, v) <==> Leads(heap, v, x)
  {
    hide EmittedFields, Pairs, SortBy, IsFieldValue, IsKeyOrValue;
    match v {
      case Struct(fields) => FieldsAre(fields, x);
      case Ref(k) =>
        match Load(heap, k) {
          case Ordered(keys, vals) => PairsAre(keys, vals, x);
          case StringMap(order, table) => SortedPairsAre(order, table, x);
          case _ =>
        }
      case _ =>
    }
  }
}
