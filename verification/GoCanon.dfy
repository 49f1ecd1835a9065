/** The Go and Rust copies of the canonical form, whose strings are of characters and whose entries are sorted whole. */
module GoCanon {
  import opened Numerals
  import opened Wrappers
  import opened Ordering
  import opened Utf
  import opened Canon
  import CanonDecoder
  import CanonTheorems

  type Scalar = c: nat | IsScalar(c)

  /**
    A parsed value. `vals` holds an object's values in the order in which its map gives them, and `order` is
    the key list of an ordered map; without one, the map's own keys are visited.
   */
  datatype Value =
    | Nil
    | Flag(b: bool)
    | Float(bits: nat)
    | Str(text: seq<Scalar>)
    | List(items: seq<Value>)
    | Dict(vals: seq<Pair>, order: Option<seq<seq<Scalar>>>)

  datatype Pair = Pair(key: seq<Scalar>, value: Value)

  /** utf16.Encode and encode_utf16. */
  function Encode(text: seq<Scalar>): (units: seq<Unit>)
    ensures units == Utf16(text)
  {
    if text == [] then [] else EncodeOne(text[0]) + Encode(text[1..])
  }

  function EncodeOne(c: Scalar): (units: seq<Unit>)
    ensures units == Utf16One(c)
  {
    if c < 0x10000 then [c]
    else
      assert IsScalar(c);
      HalfBound(c);
      [0xD800 + (c - 0x10000) / 1024, 0xDC00 + (c - 0x10000) % 1024]
  }

  lemma HalfBound(c: nat)
    requires 0x10000 <= c < 0x110000
    ensures 0 <= (c - 0x10000) / 1024 < 1024
  {
  }

  /** canonQuote and canon_quote: the loop of `quote` over code units, not characters. */
  method CanonQuote(s: seq<Scalar>) returns (out: string)
    ensures out == Quoted(Encode(s))
  {
    out := Quote(Encode(s));
  }

  // ---- What the copies compute ----

  function KeysOf(vals: seq<Pair>): (r: seq<seq<Scalar>>)
    ensures |r| == |vals| && forall i | 0 <= i < |vals| :: r[i] == vals[i].key
  {
    if vals == [] then [] else [vals[0].key] + KeysOf(vals[1..])
  }

  /** A map's lookup. */
  function IndexOf(vals: seq<Pair>, k: seq<Scalar>): (r: Option<nat>)
    ensures r.Some? ==> r.value < |vals| && vals[r.value].key == k
    ensures r.None? ==> forall i | 0 <= i < |vals| :: vals[i].key != k
  {
    if vals == [] then None
    else if vals[0].key == k then Some(0)
    else
      match IndexOf(vals[1..], k)
      case None => None
      case Some(i) => Some(i + 1)
  }

  /** The parts of the keys that are there, in the order of the keys. */
  function Pick(vals: seq<Pair>, parts: seq<string>, keys: seq<seq<Scalar>>): seq<string>
    requires |parts| == |vals|
  {
    if keys == [] then []
    else
      var before := Pick(vals, parts, keys[..|keys| - 1]);
      match IndexOf(vals, keys[|keys| - 1])
      case None => before
      case Some(i) => before + [parts[i]]
  }

  function KeyList(v: Value): seq<seq<Scalar>>
    requires v.Dict?
  {
    if v.order.Some? then v.order.value else KeysOf(v.vals)
  }

  /** canon. */
  function CanonString(v: Value): string {
    match v
    case Nil => "null"
    case Flag(b) => if b then "true" else "false"
    case Float(bits) => NumberText(bits)
    case Str(text) => Quoted(Encode(text))
    case List(items) => "[" + Joined(CanonStrings(items)) + "]"
    case Dict(vals, order) => "{" + Joined(SortBy(Pick(vals, Parts(vals), KeyList(v)), Codes)) + "}"
  }

  function CanonStrings(items: seq<Value>): (r: seq<string>)
    ensures |r| == |items| && forall i | 0 <= i < |items| :: r[i] == CanonString(items[i])
  {
    if items == [] then [] else [CanonString(items[0])] + CanonStrings(items[1..])
  }

  function PartOf(p: Pair): string {
    Quoted(Encode(p.key)) + ":" + CanonString(p.value)
  }

  function Parts(vals: seq<Pair>): (r: seq<string>)
    ensures |r| == |vals| && forall i | 0 <= i < |vals| :: r[i] == PartOf(vals[i])
  {
    if vals == [] then [] else [PartOf(vals[0])] + Parts(vals[1..])
  }

  // ---- The Go copy ----

  /** canon. */
  method CanonValue(v: Value) returns (text: string)
    ensures text == CanonString(v)
    decreases v, 2
  {
    match v {
      case Nil =>
        text := "null";
      case Flag(b) =>
        text := if b then "true" else "false";
      case Float(bits) =>
        text := NumberText(bits);
      case Str(s) =>
        text := CanonQuote(s);
      case List(items) =>
        var parts := CanonItems(v);
        text := "[" + Joined(parts) + "]";
      case Dict(vals, order) =>
        text := CanonPairs(v);
    }
  }

  /** canonPairs: a key the map has no value for is passed over, and the finished entries are sorted. */
  method CanonPairs(v: Value) returns (text: string)
    requires v.Dict?
    ensures text == CanonString(v)
    decreases v, 1
  {
    var keys := if v.order.Some? then v.order.value else KeysOf(v.vals);
    var parts: seq<string> := [];
    for i := 0 to |keys|
      invariant PickedUpTo(v, keys, i, parts)
    {
      parts := AppendPart(v, keys, i, parts);
    }
    hide Pick, Joined, Codes;
    assert Folded(0);
    assert keys[..|keys|] == keys;
    text := "{" + Joined(SortBy(parts, Codes)) + "}";
  }

  /** The parts of the first i keys, folded away from the loop. */
  ghost predicate PickedUpTo(v: Value, keys: seq<seq<Scalar>>, i: nat, parts: seq<string>)
    requires v.Dict? && i <= |keys|
  {
    forall n: nat | Folded(n) :: parts == Pick(v.vals, Parts(v.vals), keys[..i])
  }

  /** The forms of a list's items, in order. */
  method CanonItems(v: Value) returns (parts: seq<string>)
    requires v.List?
    ensures parts == CanonStrings(v.items)
    decreases v, 0
  {
    parts := [];
    for i := 0 to |v.items|
      invariant |parts| == i && forall k | 0 <= k < i :: parts[k] == CanonString(v.items[k])
    {
      var s := CanonValue(v.items[i]);
      parts := parts + [s];
    }
  }

  /** One turn of its loop. */
  method AppendPart(v: Value, keys: seq<seq<Scalar>>, i: nat, parts: seq<string>) returns (parts': seq<string>)
    requires v.Dict? && i < |keys| && PickedUpTo(v, keys, i, parts)
    ensures PickedUpTo(v, keys, i + 1, parts')
    decreases v, 0
  {
    hide CanonString, Quoted;
    assert Folded(0);
    assert keys[..i + 1][..i] == keys[..i];
    var at := IndexOf(v.vals, keys[i]);
    if at == None {
      return parts;
    }
    var pair := v.vals[at.value];
    var s := CanonValue(pair.value);
    var quoted := CanonQuote(keys[i]);
    assert quoted + ":" + s == PartOf(pair) == Parts(v.vals)[at.value];
    parts' := parts + [quoted + ":" + s];
  }

  // ---- The copies agree with the generator ----

  function MembersOf(vals: seq<Pair>): (r: seq<Member>)
    ensures |r| == |vals| && forall i | 0 <= i < |vals| :: r[i] == MemberOf(vals[i])
  {
    if vals == [] then [] else [MemberOf(vals[0])] + MembersOf(vals[1..])
  }

  function MemberOf(p: Pair): Member {
    Member(Encode(p.key), JsonOf(p.value))
  }

  /** The value the oracle has for it. */
  function JsonOf(v: Value): Json {
    match v
    case Nil => Null
    case Flag(b) => Bool(b)
    case Float(bits) => Number(bits)
    case Str(text) => Text(Encode(text))
    case List(items) => Array(JsonsOf(items))
    case Dict(vals, _) => Object(MembersOf(vals))
  }

  function JsonsOf(items: seq<Value>): (r: seq<Json>)
    ensures |r| == |items| && forall i | 0 <= i < |items| :: r[i] == JsonOf(items[i])
  {
    if items == [] then [] else [JsonOf(items[0])] + JsonsOf(items[1..])
  }

  /** A map's keys are distinct, and an ordered map lists each of its keys once. */
  ghost predicate IsMap(v: Value) {
    match v
    case List(items) => forall i | 0 <= i < |items| :: IsMap(items[i])
    case Dict(vals, order) =>
      && (forall i | 0 <= i < |vals| :: IsMap(vals[i].value))
      && DistinctPairs(vals)
      && (order.Some? ==> ListsAll(order.value, vals))
    case _ => true
  }

  ghost predicate DistinctPairs(vals: seq<Pair>) {
    forall i, j | 0 <= i < j < |vals| :: vals[i].key != vals[j].key
  }

  ghost predicate ListsAll(keys: seq<seq<Scalar>>, vals: seq<Pair>) {
    && (forall i, j | 0 <= i < j < |keys| :: keys[i] != keys[j])
    && (forall i | 0 <= i < |vals| :: vals[i].key in keys)
  }

  lemma EncodeInjective(a: seq<Scalar>, b: seq<Scalar>)
    requires Encode(a) == Encode(b)
    ensures a == b
  {
    DecodeEncoded(a);
    DecodeEncoded(b);
  }

  lemma PartsDistinct(vals: seq<Pair>)
    requires DistinctPairs(vals)
    ensures DistinctBy(Parts(vals), Codes)
  {
    hide PartOf, Codes;
    forall i, j | 0 <= i < j < |vals| ensures Codes(Parts(vals)[i]) != Codes(Parts(vals)[j]) {
      if Codes(PartOf(vals[i])) == Codes(PartOf(vals[j])) {
        CanonTheorems.CodesInjective(PartOf(vals[i]), PartOf(vals[j]));
        SamePartSameKey(vals[i], vals[j]);
      }
    }
  }

  lemma SamePartSameKey(a: Pair, b: Pair)
    requires PartOf(a) == PartOf(b)
    ensures a.key == b.key
  {
    hide Quoted, CanonString, Encode;
    var x, y := ":" + CanonString(a.value), ":" + CanonString(b.value);
    assert PartOf(a) == Quoted(Encode(a.key)) + x && PartOf(b) == Quoted(Encode(b.key)) + y;
    CanonDecoder.QuotedIsPrefixFree(Encode(a.key), x, Encode(b.key), y);
    EncodeInjective(a.key, b.key);
  }

  /** The part picked for a key, if there is one. */
  lemma {:induction false} PickedFrom(vals: seq<Pair>, parts: seq<string>, keys: seq<seq<Scalar>>)
    requires |parts| == |vals| && DistinctPairs(vals)
    ensures forall x :: x in Pick(vals, parts, keys) <==>
              exists i :: 0 <= i < |vals| && vals[i].key in keys && parts[i] == x
  {
    if keys != [] {
      var n := |keys| - 1;
      assert keys == keys[..n] + [keys[n]];
      PickedFrom(vals, parts, keys[..n]);
    }
  }

  lemma {:induction false} PickDistinct(vals: seq<Pair>, parts: seq<string>, keys: seq<seq<Scalar>>)
    requires |parts| == |vals| && DistinctPairs(vals) && DistinctBy(parts, Codes)
    requires forall i, j | 0 <= i < j < |keys| :: keys[i] != keys[j]
    ensures DistinctBy(Pick(vals, parts, keys), Codes)
  {
    if keys != [] {
      var n := |keys| - 1;
      var before := Pick(vals, parts, keys[..n]);
      PickDistinct(vals, parts, keys[..n]);
      PickedFrom(vals, parts, keys[..n]);
      var at := IndexOf(vals, keys[n]);
      if at.Some? {
        hide Pick, Codes;
        forall k | 0 <= k < |before| ensures Codes(before[k]) != Codes(parts[at.value]) {
          assert before[k] in before;
          var i :| 0 <= i < |vals| && vals[i].key in keys[..n] && parts[i] == before[k];
          assert keys[n] !in keys[..n];
          assert i != at.value;
          if i < at.value {
            assert Codes(parts[i]) != Codes(parts[at.value]);
          } else {
            assert Codes(parts[at.value]) != Codes(parts[i]);
          }
        }
      }
    }
  }

  /** Whatever order the keys are visited in, the sorted parts are the same. */
  lemma {:induction false} PickedSorted(v: Value)
    requires v.Dict? && IsMap(v)
    ensures SortBy(Pick(v.vals, Parts(v.vals), KeyList(v)), Codes) == SortBy(Parts(v.vals), Codes)
  {
    var parts, keys := Parts(v.vals), KeyList(v);
    PartsDistinct(v.vals);
    hide IsMap, PartOf, Codes, SortBy;
    PickedFrom(v.vals, parts, keys);
    PickDistinct(v.vals, parts, keys);
    forall x ensures x in Pick(v.vals, parts, keys) <==> x in parts {
      if x in parts {
        var i :| 0 <= i < |parts| && parts[i] == x;
        KeyListed(v, i);
      }
    }
    SameSetSameMultiset(Pick(v.vals, parts, keys), parts, Codes);
    SortsAgree(Pick(v.vals, parts, keys), parts, Codes);
  }

  lemma KeyListed(v: Value, i: nat)
    requires v.Dict? && DistinctPairs(v.vals) && (v.order.Some? ==> ListsAll(v.order.value, v.vals)) && i < |v.vals|
    ensures v.vals[i].key in KeyList(v)
  {
    if v.order.None? {
      assert KeysOf(v.vals)[i] == v.vals[i].key;
    }
  }

  /** The Go and Rust copies give the generator's form for the value the oracle has. */
  lemma {:induction false} CopiesAgree(v: Value)
    requires IsMap(v)
    ensures CanonString(v) == CanonText(JsonOf(v))
    decreases v
  {
    match v {
      case Nil =>
      case Flag(_) =>
      case Float(_) =>
      case Str(_) =>
      case List(items) =>
        forall i | 0 <= i < |items| ensures CanonString(items[i]) == CanonText(JsonOf(items[i])) {
          CopiesAgree(items[i]);
        }
        assert CanonStrings(items) == CanonAll(JsonsOf(items));
      case Dict(vals, order) =>
        forall p | p in vals ensures CanonString(p.value) == CanonText(JsonOf(p.value)) {
          CopiesAgree(p.value);
        }
        DictAgrees(v);
    }
  }

  lemma DictAgrees(v: Value)
    requires v.Dict? && IsMap(v)
    requires forall p | p in v.vals :: CanonString(p.value) == CanonText(JsonOf(p.value))
    ensures CanonString(v) == CanonText(JsonOf(v))
  {
    PickedSorted(v);
    MembersDistinct(v.vals);
    PartsAreWholes(v.vals);
    DictText(v);
    ObjectText(MembersOf(v.vals));
    hide Pick, SortBy, PartOf, EntryKey, Whole, Codes, EntryOf, CanonString, CanonText;
    CanonTheorems.WholeSortAgrees(MembersOf(v.vals));
  }

  lemma DictText(v: Value)
    requires v.Dict?
    ensures CanonString(v) == "{" + Joined(SortBy(Pick(v.vals, Parts(v.vals), KeyList(v)), Codes)) + "}"
    ensures JsonOf(v) == Object(MembersOf(v.vals))
  {
  }

  lemma ObjectText(members: seq<Member>)
    ensures CanonText(Object(members)) == "{" + Joined(Mapped(SortBy(EntriesOf(members), EntryKey), Whole)) + "}"
  {
  }

  lemma MembersDistinct(vals: seq<Pair>)
    requires DistinctPairs(vals)
    ensures DistinctKeys(MembersOf(vals))
  {
    hide Encode;
    var members := MembersOf(vals);
    forall i, j | 0 <= i < j < |members| ensures members[i].key != members[j].key {
      if members[i].key == members[j].key {
        EncodeInjective(vals[i].key, vals[j].key);
      }
    }
  }

  lemma {:induction false} PartsAreWholes(vals: seq<Pair>)
    requires forall p | p in vals :: CanonString(p.value) == CanonText(JsonOf(p.value))
    ensures Parts(vals) == Mapped(EntriesOf(MembersOf(vals)), Whole)
  {
    hide PartOf, Whole, EntryOf, MemberOf, CanonString, CanonText, JsonOf;
    if vals != [] {
      var p, members := vals[0], MembersOf(vals);
      PartIsWhole(p);
      PartsAreWholes(vals[1..]);
      assert members == [MemberOf(p)] + MembersOf(vals[1..]) && members[1..] == MembersOf(vals[1..]);
      assert EntriesOf(members) == [EntryOf(MemberOf(p))] + EntriesOf(members[1..]);
      assert EntriesOf(members)[1..] == EntriesOf(members[1..]);
    }
  }

  lemma PartIsWhole(p: Pair)
    requires CanonString(p.value) == CanonText(JsonOf(p.value))
    ensures PartOf(p) == Whole(EntryOf(MemberOf(p)))
  {
    hide Quoted, CanonString, CanonText, JsonOf, Encode;
  }

  /** So two parsed values have one form exactly when the oracle's values are one tree. */
  lemma CopiesNameTree(v: Value, w: Value)
    requires IsMap(v) && IsMap(w) && WellFormed(JsonOf(v)) && WellFormed(JsonOf(w))
    ensures CanonString(v) == CanonString(w) <==> TreeOf(JsonOf(v)) == TreeOf(JsonOf(w))
  {
    CopiesAgree(v);
    CopiesAgree(w);
    CanonTheorems.CanonNamesTree(JsonOf(v), JsonOf(w));
  }
}
