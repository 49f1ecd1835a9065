/** The canonical form names a value up to the order of members, and sorting entries whole changes nothing. */
module CanonTheorems {
  import opened Numerals
  import opened Wrappers
  import opened Ordering
  import opened Canon
  import opened CanonDecoder

  // ---- The round trip ----

  function MemberKey(m: Member): seq<nat> {
    EntryKey(EntryOf(m))
  }

  /** The entries in order are those of the members in order. */
  lemma SortedEntries(members: seq<Member>)
    ensures SortBy(EntriesOf(members), EntryKey) == EntriesOf(SortBy(members, MemberKey))
  {
    hide EntryKey, EntryOf, SortBy, Before;
    assert OrderAlike(members, MemberKey, EntryOf, EntryKey);
    SortMapped(members, MemberKey, EntryOf, EntryKey);
    assert Mapped(members, EntryOf) == EntriesOf(members);
    assert Mapped(SortBy(members, MemberKey), EntryOf) == EntriesOf(SortBy(members, MemberKey));
  }

  lemma {:induction false} MapAt(members: seq<Member>)
    requires DistinctKeys(members)
    ensures forall k :: k in MapOf(members) <==> exists i :: 0 <= i < |members| && members[i].key == k
    ensures forall i | 0 <= i < |members| ::
              members[i].key in MapOf(members) && MapOf(members)[members[i].key] == MemberTree(members[i])
    decreases |members|
  {
    hide MemberTree;
    if members != [] {
      var rest := members[1..];
      assert forall i | 0 <= i < |rest| :: rest[i] == members[i + 1];
      MapAt(rest);
      assert MapOf(members) == MapOf(rest)[members[0].key := MemberTree(members[0])];
      forall k ensures k in MapOf(members) <==> exists i :: 0 <= i < |members| && members[i].key == k {
        if k in MapOf(rest) {
          var i :| 0 <= i < |rest| && rest[i].key == k;
          assert members[i + 1].key == k;
        }
        if i :| 0 <= i < |members| && members[i].key == k && i > 0 {
          assert rest[i - 1].key == k;
        }
      }
    }
  }

  /** The order of members is not in their map. */
  lemma PermutedMap(a: seq<Member>, b: seq<Member>)
    requires DistinctKeys(a) && DistinctKeys(b) && forall m :: m in a <==> m in b
    ensures MapOf(a) == MapOf(b)
  {
    MapAt(a);
    MapAt(b);
    hide MapOf, MemberTree;
    forall k ensures k in MapOf(a) <==> k in MapOf(b) {
      if i :| 0 <= i < |a| && a[i].key == k {
        assert a[i] in b;
        assert exists j :: 0 <= j < |b| && b[j].key == k;
      }
      if i :| 0 <= i < |b| && b[i].key == k {
        assert b[i] in a;
        assert exists j :: 0 <= j < |a| && a[j].key == k;
      }
    }
    forall k | k in MapOf(a) ensures MapOf(a)[k] == MapOf(b)[k] {
      var i :| 0 <= i < |a| && a[i].key == k;
      assert a[i] in b;
      var j :| 0 <= j < |b| && b[j] == a[i];
    }
  }

  lemma CodesInjective(s: string, t: string)
    requires Codes(s) == Codes(t)
    ensures s == t
  {
    assert forall i | 0 <= i < |s| :: s[i] as nat == Codes(s)[i] == Codes(t)[i] == t[i] as nat;
  }

  /** Distinct keys are distinct quoted, too. */
  lemma DistinctQuoted(members: seq<Member>)
    requires DistinctKeys(members)
    ensures DistinctBy(EntriesOf(members), EntryKey) && DistinctBy(members, MemberKey)
  {
    hide Quoted, CanonText, Codes;
    forall i, j | 0 <= i < j < |members| ensures MemberKey(members[i]) != MemberKey(members[j]) {
      if MemberKey(members[i]) == MemberKey(members[j]) {
        CodesInjective(Quoted(members[i].key), Quoted(members[j].key));
        assert Quoted(members[i].key) + "" == Quoted(members[j].key) + "";
        QuotedIsPrefixFree(members[i].key, "", members[j].key, "");
      }
    }
  }

  /** The members in the order of their quoted keys are the same members. */
  lemma SortedMembers(members: seq<Member>)
    requires DistinctKeys(members)
    ensures var sorted := SortBy(members, MemberKey);
            && |sorted| == |members| && DistinctKeys(sorted) && (forall m :: m in sorted <==> m in members)
            && MapOf(sorted) == MapOf(members)
  {
    hide EntryKey, EntryOf, MapOf, SortBy, Before;
    var sorted := SortBy(members, MemberKey);
    DistinctQuoted(members);
    SortSorts(members, MemberKey);
    SortKeepsDistinct(members, MemberKey);
    assert |multiset(sorted)| == |multiset(members)|;
    forall m ensures m in sorted <==> m in members {
      assert m in sorted <==> m in multiset(sorted);
    }
    forall i, j | 0 <= i < j < |sorted| ensures sorted[i].key != sorted[j].key {
      assert MemberKey(sorted[i]) != MemberKey(sorted[j]);
      SameKeySameMemberKey(sorted[i], sorted[j]);
    }
    PermutedMap(sorted, members);
  }

  lemma SameKeySameMemberKey(a: Member, b: Member)
    ensures a.key == b.key ==> MemberKey(a) == MemberKey(b)
  {
  }

  /** No value's form begins with a closing bracket. */
  lemma NoClosingFirst(s: string)
    requires ReadValue(s).Some?
    ensures s != "" && s[0] != ']' && s[0] != '}'
  {
  }

  /** A value's canonical form, whatever follows it, is read back as the value's tree. */
  lemma {:induction false} RoundTrip(v: Json)
    requires WellFormed(v)
    ensures ReadsBack(v)
    decreases v
  {
    match v {
      case Null => forall rest: string { WordBack(v, rest); }
      case Bool(_) => forall rest: string { WordBack(v, rest); }
      case Number(bits) => forall rest: string { NumberBack(bits, rest); }
      case Text(units) => forall rest: string { TextBack(units, rest); }
      case Array(items) =>
        forall i | 0 <= i < |items| ensures ReadsBack(items[i]) {
          RoundTrip(items[i]);
        }
        forall rest: string { ArrayBack(items, rest); }
      case Object(members) =>
        forall m | m in members ensures ReadsBack(m.value) {
          RoundTrip(m.value);
        }
        forall rest: string { ObjectBack(members, rest); }
    }
  }

  lemma {:induction false} ArrayBack(items: seq<Json>, rest: string)
    requires forall i | 0 <= i < |items| :: ReadsBack(items[i])
    ensures ReadValue(CanonText(Array(items)) + rest) == Some((TreeOf(Array(items)), rest))
  {
    var tail := Joined(CanonAll(items)) + ("]" + rest);
    assert CanonText(Array(items)) + rest == "[" + tail;
    assert ("[" + tail)[1..] == tail;
    if items == [] {
      assert tail == "]" + rest;
      EmptyBack("[" + tail, ']', rest);
    } else {
      ItemsBack(items, rest);
      assert ReadValue(tail).Some?;
      NoClosingFirst(tail);
      BracketRead("[" + tail, items, rest);
    }
  }

  lemma EmptyBack(s: string, close: char, rest: string)
    requires s == (if close == ']' then "[" else "{") + ([close] + rest) && (close == ']' || close == '}')
    ensures ReadValue(s) == Some((if close == ']' then ArrayTree([]) else ObjectTree(map[]), rest))
  {
    hide ReadItems, ReadMembers, ReadUnits, ReadWord;
    assert s[1..] == [close] + rest && s[1..][..1] == [close] && s[2..] == rest;
  }

  lemma BracketRead(s: string, items: seq<Json>, rest: string)
    requires s != "" && s[0] == '[' && s[1..] != "" && s[1..][0] != ']'
    requires ReadItems(s[1..]) == Some((TreesOf(items), rest))
    ensures ReadValue(s) == Some((TreeOf(Array(items)), rest))
  {
    hide ReadItems, ReadMembers, ReadUnits, ReadWord;
  }

  lemma BraceRead(s: string, members: map<seq<Unit>, Tree>, rest: string)
    requires s != "" && s[0] == '{' && s[1..] != "" && s[1..][0] == '"'
    requires ReadMembers(s[1..]) == Some((members, rest))
    ensures ReadValue(s) == Some((ObjectTree(members), rest))
  {
    hide ReadItems, ReadMembers, ReadUnits, ReadWord;
  }

  lemma ObjectBack(members: seq<Member>, rest: string)
    requires DistinctKeys(members) && forall m | m in members :: ReadsBack(m.value)
    ensures ReadValue(CanonText(Object(members)) + rest) == Some((TreeOf(Object(members)), rest))
  {
    hide ReadValue, ReadsBack, EntryKey, EntryOf, MapOf, Whole, SortBy;
    var sorted := SortBy(members, MemberKey);
    SortedEntries(members);
    SortedMembers(members);
    var tail := Joined(Mapped(EntriesOf(sorted), Whole)) + ("}" + rest);
    assert CanonText(Object(members)) + rest == "{" + tail;
    assert ("{" + tail)[1..] == tail;
    if members == [] {
      assert tail == "}" + rest;
      EmptyBack("{" + tail, '}', rest);
      NoMembers();
    } else {
      assert forall i | 0 <= i < |sorted| :: sorted[i] in members;
      MembersBack(sorted, rest);
      MembersStart(tail);
      BraceRead("{" + tail, MapOf(members), rest);
    }
  }

  lemma NoMembers()
    ensures MapOf([]) == map[]
  {
  }

  lemma MembersStart(s: string)
    requires ReadMembers(s).Some?
    ensures s != "" && s[0] == '"'
  {
    hide ReadValue, ReadUnits;
    assert s[..1] == "\"";
  }

  // ---- Injective up to the order of members ----

  lemma SameNumberText(a: nat, b: nat)
    requires NumberTreeOf(a) == NumberTreeOf(b)
    ensures NumberText(a) == NumberText(b)
  {
    hide HexText, IsNaN;
    NaNByFields(a);
    NaNByFields(b);
  }

  lemma {:induction false} SameTreeSameText(v: Json, w: Json)
    requires WellFormed(v) && WellFormed(w) && TreeOf(v) == TreeOf(w)
    ensures CanonText(v) == CanonText(w)
    decreases v
  {
    match v {
      case Null =>
      case Bool(_) =>
      case Number(_) =>
        SameNumberText(v.bits, w.bits);
      case Text(_) =>
      case Array(items) =>
        forall i | 0 <= i < |items| ensures CanonText(items[i]) == CanonText(w.items[i]) {
          assert TreesOf(items)[i] == TreesOf(w.items)[i];
          SameTreeSameText(items[i], w.items[i]);
        }
        assert CanonAll(items) == CanonAll(w.items);
      case Object(members) =>
        forall m, n | m in members && n in w.members && m.key == n.key && TreeOf(m.value) == TreeOf(n.value)
          ensures EntryOf(m) == EntryOf(n)
        {
          SameTreeSameText(m.value, n.value);
        }
        SameEntries(members, w.members);
    }
  }

  lemma SameEntries(a: seq<Member>, b: seq<Member>)
    requires DistinctKeys(a) && DistinctKeys(b) && MapOf(a) == MapOf(b)
    requires forall m, n | m in a && n in b && m.key == n.key
        && TreeOf(m.value) == TreeOf(n.value) :: EntryOf(m) == EntryOf(n)
    ensures SortBy(EntriesOf(a), EntryKey) == SortBy(EntriesOf(b), EntryKey)
  {
    hide EntryKey, EntryOf, MapOf, SortBy, TreeOf;
    EntriesWithin(a, b);
    EntriesWithin(b, a);
    DistinctQuoted(a);
    DistinctQuoted(b);
    SameSetSameMultiset(EntriesOf(a), EntriesOf(b), EntryKey);
    SortsAgree(EntriesOf(a), EntriesOf(b), EntryKey);
  }

  lemma EntriesWithin(a: seq<Member>, b: seq<Member>)
    requires DistinctKeys(a) && DistinctKeys(b) && MapOf(a) == MapOf(b)
    requires forall m, n | m in a && n in b && m.key == n.key
        && TreeOf(m.value) == TreeOf(n.value) :: EntryOf(m) == EntryOf(n)
    ensures forall e | e in EntriesOf(a) :: e in EntriesOf(b)
  {
    hide EntryOf, MapOf, TreeOf, DistinctKeys;
    forall e | e in EntriesOf(a) ensures e in EntriesOf(b) {
      var i :| 0 <= i < |a| && EntriesOf(a)[i] == e;
      var j := Counterpart(a, b, i);
      assert a[i] in a && b[j] in b;
      assert EntriesOf(b)[j] == EntryOf(b[j]);
    }
  }

  /** The member with the same key. */
  lemma Counterpart(a: seq<Member>, b: seq<Member>, i: nat) returns (j: nat)
    requires DistinctKeys(a) && DistinctKeys(b) && MapOf(a) == MapOf(b) && i < |a|
    ensures j < |b| && b[j].key == a[i].key && TreeOf(b[j].value) == TreeOf(a[i].value)
  {
    MapAt(a);
    MapAt(b);
    hide MapOf, TreeOf;
    assert a[i].key in MapOf(b);
    j :| 0 <= j < |b| && b[j].key == a[i].key;
    assert MemberTree(a[i]) == MemberTree(b[j]);
  }

  /** Two values have one canonical form exactly when they are one tree with unordered members and one NaN. */
  lemma CanonNamesTree(v: Json, w: Json)
    requires WellFormed(v) && WellFormed(w)
    ensures CanonText(v) == CanonText(w) <==> TreeOf(v) == TreeOf(w)
  {
    if CanonText(v) == CanonText(w) {
      RoundTrip(v);
      RoundTrip(w);
      assert ReadValue(CanonText(v) + "") == ReadValue(CanonText(w) + "");
    }
    if TreeOf(v) == TreeOf(w) {
      SameTreeSameText(v, w);
    }
  }

  // ---- Sorting entries whole ----

  lemma RestOf(s: string, t: string)
    requires |s| <= |t| && t[..|s|] == s
    ensures exists x: string :: s + x == t
  {
    assert s + t[|s|..] == t;
  }

  lemma FirstDifference(s: string, t: string) returns (k: nat)
    requires forall x: string :: s + x != t && t + x != s
    ensures k < |s| && k < |t| && s[..k] == t[..k] && s[k] != t[k]
  {
    k := 0;
    while k < |s| && k < |t| && s[k] == t[k]
      invariant k <= |s| && k <= |t| && s[..k] == t[..k]
    {
      assert s[..k + 1] == s[..k] + [s[k]] == t[..k + 1];
      k := k + 1;
    }
    if k == |s| {
      RestOf(s, t);
      assert false;
    } else if k == |t| {
      RestOf(t, s);
      assert false;
    }
  }

  /** Entries with different keys are ordered as their quoted keys are, whatever their values. */
  lemma WholeOrder(a: Member, b: Member)
    ensures a.key == b.key ==> EntryKey(EntryOf(a)) == EntryKey(EntryOf(b))
    ensures a.key != b.key ==>
              Before(EntryKey(EntryOf(a)), EntryKey(EntryOf(b)))
              == Before(Codes(Whole(EntryOf(a))), Codes(Whole(EntryOf(b))))
  {
    hide Quoted, CanonText, Before;
    if a.key != b.key {
      var s, t := Quoted(a.key), Quoted(b.key);
      forall x: string ensures s + x != t && t + x != s {
        assert s + "" == s && t + "" == t;
        if s + x == t {
          QuotedIsPrefixFree(a.key, x, b.key, "");
        }
        if t + x == s {
          QuotedIsPrefixFree(b.key, x, a.key, "");
        }
      }
      var k := FirstDifference(s, t);
      var s', t' := Whole(EntryOf(a)), Whole(EntryOf(b));
      DecidedAt(s, t, k);
      assert s'[..k] == s[..k] && t'[..k] == t[..k];
      DecidedAt(s', t', k);
    }
  }

  lemma DecidedAt(s: string, t: string, k: nat)
    requires k < |s| && k < |t| && s[..k] == t[..k] && s[k] != t[k]
    ensures Before(Codes(s), Codes(t)) <==> s[k] < t[k]
  {
    assert forall i | 0 <= i < k :: s[i] == s[..k][i] == t[..k][i] == t[i];
    assert Codes(s)[..k] == Codes(t)[..k];
    FirstDifferenceDecides(Codes(s), Codes(t), k);
  }

  /**
    Sorting whole `key:value` entries, as the Go and Rust copies do, gives what sorting by quoted key
    gives, for every object: no quoted form is a proper prefix of another.
   */
  lemma WholeSortAgrees(members: seq<Member>)
    requires DistinctKeys(members)
    ensures SortBy(Mapped(EntriesOf(members), Whole), Codes) == Mapped(SortBy(EntriesOf(members), EntryKey), Whole)
  {
    hide EntryOf, EntryKey, Whole, Codes, Before, SortBy;
    var entries := EntriesOf(members);
    forall x, y | x in entries && y in entries
      ensures Before(EntryKey(x), EntryKey(y)) <==> Before(Codes(Whole(x)), Codes(Whole(y)))
    {
      var i :| 0 <= i < |entries| && entries[i] == x;
      var j :| 0 <= j < |entries| && entries[j] == y;
      WholeOrder(members[i], members[j]);
      if i == j {
        BeforeTotal(EntryKey(x), EntryKey(x));
        BeforeTotal(Codes(Whole(x)), Codes(Whole(x)));
      }
    }
    SortMapped(entries, EntryKey, Whole, Codes);
  }
}
