/** Lexicographic order, and sorting by a key: what the ports' library sorts promise. */
module Ordering {

  /** The strict order of the language's string comparison, unit by unit. */
  predicate Before(a: seq<nat>, b: seq<nat>) {
    if b == [] then false
    else if a == [] then true
    else a[0] < b[0] || (a[0] == b[0] && Before(a[1..], b[1..]))
  }

  lemma {:induction false} BeforeTotal(a: seq<nat>, b: seq<nat>)
    ensures Before(a, b) || Before(b, a) || a == b
    ensures !(Before(a, b) && Before(b, a)) && !Before(a, a)
  {
    if a != [] && b != [] {
      BeforeTotal(a[1..], b[1..]);
      assert a == [a[0]] + a[1..] && b == [b[0]] + b[1..];
    }
    if a != [] {
      BeforeTotal(a[1..], a[1..]);
    }
  }

  lemma {:induction false} BeforeTransitive(a: seq<nat>, b: seq<nat>, c: seq<nat>)
    requires !Before(b, a) && !Before(c, b)
    ensures !Before(c, a)
  {
    if a != [] && b != [] && c != [] {
      if a[0] == b[0] == c[0] {
        BeforeTransitive(a[1..], b[1..], c[1..]);
      }
    }
  }

  /** A first difference decides, whatever follows it. */
  lemma {:induction false} FirstDifferenceDecides(a: seq<nat>, b: seq<nat>, k: nat)
    requires k < |a| && k < |b| && a[..k] == b[..k] && a[k] != b[k]
    ensures Before(a, b) <==> a[k] < b[k]
  {
    if k > 0 {
      assert a[0] == a[..k][0] == b[..k][0] == b[0];
      assert a[1..][..k - 1] == a[..k][1..] == b[..k][1..] == b[1..][..k - 1];
      FirstDifferenceDecides(a[1..], b[1..], k - 1);
    }
  }

  /** And what goes on comes after what it goes on from. */
  lemma {:induction false} PrefixIsBefore(a: seq<nat>, b: seq<nat>)
    requires b != []
    ensures Before(a, a + b)
  {
    if a != [] {
      assert (a + b)[1..] == a[1..] + b;
      PrefixIsBefore(a[1..], b);
    }
  }

  // ---- Sorting ----

  function InsertBy<T>(x: T, s: seq<T>, key: T -> seq<nat>): seq<T> {
    if s == [] || !Before(key(s[0]), key(x)) then [x] + s
    else [s[0]] + InsertBy(x, s[1..], key)
  }

  function SortBy<T>(s: seq<T>, key: T -> seq<nat>): seq<T> {
    if s == [] then [] else InsertBy(s[0], SortBy(s[1..], key), key)
  }

  ghost predicate SortedBy<T>(s: seq<T>, key: T -> seq<nat>) {
    forall i, j | 0 <= i < j < |s| :: !Before(key(s[j]), key(s[i]))
  }

  lemma {:induction false} InsertSorted<T>(x: T, s: seq<T>, key: T -> seq<nat>)
    requires SortedBy(s, key)
    ensures SortedBy(InsertBy(x, s, key), key)
    ensures multiset(InsertBy(x, s, key)) == multiset(s) + multiset{x}
    decreases |s|
  {
    var r := InsertBy(x, s, key);
    if s == [] {
    } else if !Before(key(s[0]), key(x)) {
      forall j | 0 <= j < |s| ensures !Before(key(s[j]), key(x)) {
        if j > 0 {
          BeforeTransitive(key(x), key(s[0]), key(s[j]));
        }
      }
    } else {
      assert s == [s[0]] + s[1..];
      InsertSorted(x, s[1..], key);
      BeforeTotal(key(s[0]), key(x));
      forall j | 1 <= j < |r| ensures !Before(key(r[j]), key(s[0])) {
        assert r[j] in multiset(r[1..]);
        assert r[1..] == InsertBy(x, s[1..], key);
        if r[j] != x {
          assert r[j] in multiset(s[1..]);
          assert exists k | 1 <= k < |s| :: s[k] == r[j];
        }
      }
    }
  }

  /** A sort gives the same elements in order. */
  lemma {:induction false} SortSorts<T>(s: seq<T>, key: T -> seq<nat>)
    ensures SortedBy(SortBy(s, key), key) && multiset(SortBy(s, key)) == multiset(s)
    decreases |s|
  {
    if s != [] {
      SortSorts(s[1..], key);
      InsertSorted(s[0], SortBy(s[1..], key), key);
      assert s == [s[0]] + s[1..];
    }
  }

  ghost predicate DistinctBy<T>(s: seq<T>, key: T -> seq<nat>) {
    forall i, j | 0 <= i < j < |s| :: key(s[i]) != key(s[j])
  }

  /** With distinct keys there is one sorted order of the same elements. */
  lemma {:induction false} SortedUnique<T>(s: seq<T>, t: seq<T>, key: T -> seq<nat>)
    requires SortedBy(s, key) && SortedBy(t, key) && multiset(s) == multiset(t) && DistinctBy(s, key)
    ensures s == t
    decreases |s|
  {
    hide SortedBy, DistinctBy;
    if s == [] {
      assert |multiset(s)| == |s| && |multiset(t)| == |t|;
    } else {
      SameFirst(s, t, key);
      SameTails(s, t, key);
      SortedUnique(s[1..], t[1..], key);
      assert s == [s[0]] + s[1..] && t == [t[0]] + t[1..];
    }
  }

  lemma SameTails<T>(s: seq<T>, t: seq<T>, key: T -> seq<nat>)
    requires SortedBy(s, key) && SortedBy(t, key) && multiset(s) == multiset(t) && DistinctBy(s, key)
    requires s != [] && t != [] && s[0] == t[0]
    ensures SortedBy(s[1..], key) && SortedBy(t[1..], key) && DistinctBy(s[1..], key)
    ensures multiset(s[1..]) == multiset(t[1..])
  {
    hide Before;
    TailElements(s);
    TailElements(t);
  }

  lemma TailElements<T>(s: seq<T>)
    requires s != []
    ensures multiset(s[1..]) == multiset(s) - multiset{s[0]}
  {
    assert s == [s[0]] + s[1..];
  }

  lemma SameFirst<T>(s: seq<T>, t: seq<T>, key: T -> seq<nat>)
    requires SortedBy(s, key) && SortedBy(t, key) && multiset(s) == multiset(t) && DistinctBy(s, key) && s != []
    ensures t != [] && s[0] == t[0]
  {
    assert s[0] in multiset(t);
    assert t[0] in multiset(s);
    var i :| 0 <= i < |t| && t[i] == s[0];
    var j :| 0 <= j < |s| && s[j] == t[0];
    if j > 0 {
      BeforeTotal(key(s[0]), key(s[j]));
    }
  }

  // ---- Sorting what a function makes of the elements ----

  function Mapped<T, U>(s: seq<T>, f: T -> U): (r: seq<U>)
    ensures |r| == |s| && forall i | 0 <= i < |s| :: r[i] == f(s[i])
  {
    if s == [] then [] else [f(s[0])] + Mapped(s[1..], f)
  }

  /** Two keys that order the elements of a sequence alike, the second one after a function. */
  ghost predicate OrderAlike<T, U>(s: seq<T>, key: T -> seq<nat>, f: T -> U, key': U -> seq<nat>) {
    forall x, y | x in s && y in s :: Before(key(x), key(y)) <==> Before(key'(f(x)), key'(f(y)))
  }

  lemma {:induction false} InsertMapped<T, U>(x: T, s: seq<T>, key: T -> seq<nat>, f: T -> U, key': U -> seq<nat>)
    requires OrderAlike([x] + s, key, f, key')
    ensures InsertBy(f(x), Mapped(s, f), key') == Mapped(InsertBy(x, s, key), f)
    decreases |s|
  {
    if s != [] {
      assert s[0] in [x] + s && x in [x] + s;
      if Before(key(s[0]), key(x)) {
        assert forall y | y in [x] + s[1..] :: y in [x] + s;
        InsertMapped(x, s[1..], key, f, key');
        assert Mapped(s, f)[1..] == Mapped(s[1..], f);
        assert ([s[0]] + InsertBy(x, s[1..], key))[1..] == InsertBy(x, s[1..], key);
      } else {
        assert ([x] + s)[1..] == s;
      }
    }
  }

  /** Sorting and then mapping is mapping and then sorting, when the keys order alike. */
  lemma {:induction false} SortMapped<T, U>(s: seq<T>, key: T -> seq<nat>, f: T -> U, key': U -> seq<nat>)
    requires OrderAlike(s, key, f, key')
    ensures SortBy(Mapped(s, f), key') == Mapped(SortBy(s, key), f)
    decreases |s|
  {
    if s != [] {
      hide OrderAlike, InsertBy, SortBy, SortedBy;
      var rest := s[1..];
      RestIsPart(s);
      AlikePart(rest, s, key, f, key');
      SortMapped(rest, key, f, key');
      SortedIsPart(s, key);
      AlikePart([s[0]] + SortBy(rest, key), s, key, f, key');
      InsertMapped(s[0], SortBy(rest, key), key, f, key');
      SortUnfolds(s, key);
      SortUnfolds(Mapped(s, f), key');
      assert Mapped(s, f)[1..] == Mapped(rest, f);
    }
  }

  lemma SortUnfolds<T>(s: seq<T>, key: T -> seq<nat>)
    requires s != []
    ensures SortBy(s, key) == InsertBy(s[0], SortBy(s[1..], key), key)
  {
  }

  lemma RestIsPart<T>(s: seq<T>)
    requires s != []
    ensures forall x | x in s[1..] :: x in s
  {
  }

  lemma SortedIsPart<T>(s: seq<T>, key: T -> seq<nat>)
    requires s != []
    ensures forall x | x in [s[0]] + SortBy(s[1..], key) :: x in s
  {
    SortSorts(s[1..], key);
    forall x | x in SortBy(s[1..], key) ensures x in s {
      assert x in multiset(s[1..]);
      assert x in s[1..];
    }
  }

  lemma AlikePart<T, U>(part: seq<T>, s: seq<T>, key: T -> seq<nat>, f: T -> U, key': U -> seq<nat>)
    requires OrderAlike(s, key, f, key') && forall x | x in part :: x in s
    ensures OrderAlike(part, key, f, key')
  {
  }

  /** With distinct keys the same elements are the same multiset. */
  lemma {:induction false} SameSetSameMultiset<T>(a: seq<T>, b: seq<T>, key: T -> seq<nat>)
    requires DistinctBy(a, key) && DistinctBy(b, key) && forall x :: x in a <==> x in b
    ensures multiset(a) == multiset(b)
  {
    forall x ensures multiset(a)[x] == multiset(b)[x] {
      CountOnce(a, x, key);
      CountOnce(b, x, key);
    }
  }

  lemma {:induction false} CountOnce<T>(s: seq<T>, x: T, key: T -> seq<nat>)
    requires DistinctBy(s, key)
    ensures multiset(s)[x] == if x in s then 1 else 0
    decreases |s|
  {
    if s != [] {
      assert s == [s[0]] + s[1..];
      DistinctTail(s, key);
      CountOnce(s[1..], x, key);
      FirstNotInRest(s, key);
    }
  }

  lemma FirstNotInRest<T>(s: seq<T>, key: T -> seq<nat>)
    requires DistinctBy(s, key) && s != []
    ensures s[0] !in s[1..]
  {
    assert forall j | 0 <= j < |s[1..]| :: s[1..][j] == s[j + 1] && key(s[0]) != key(s[j + 1]);
  }

  lemma DistinctTail<T>(s: seq<T>, key: T -> seq<nat>)
    requires DistinctBy(s, key) && s != []
    ensures DistinctBy(s[1..], key)
  {
    forall i, j | 0 <= i < j < |s[1..]| ensures key(s[1..][i]) != key(s[1..][j]) {
      assert key(s[i + 1]) != key(s[j + 1]);
    }
  }

  /** A sort keeps keys distinct. */
  lemma SortKeepsDistinct<T>(s: seq<T>, key: T -> seq<nat>)
    requires DistinctBy(s, key)
    ensures DistinctBy(SortBy(s, key), key)
  {
    SortSorts(s, key);
    var sorted := SortBy(s, key);
    forall i, j | 0 <= i < j < |sorted| ensures key(sorted[i]) != key(sorted[j]) {
      if key(sorted[i]) == key(sorted[j]) {
        assert sorted[i] in multiset(s) && sorted[j] in multiset(s);
        KeyDecides(s, sorted[i], sorted[j], key);
        TwiceCounts(sorted, i, j);
        CountOnce(s, sorted[i], key);
      }
    }
  }

  lemma KeyDecides<T>(s: seq<T>, x: T, y: T, key: T -> seq<nat>)
    requires DistinctBy(s, key) && x in s && y in s && key(x) == key(y)
    ensures x == y
  {
    var i :| 0 <= i < |s| && s[i] == x;
    var j :| 0 <= j < |s| && s[j] == y;
  }

  lemma TwiceCounts<T>(s: seq<T>, i: nat, j: nat)
    requires i < j < |s| && s[i] == s[j]
    ensures multiset(s)[s[i]] >= 2
  {
    assert s == s[..j] + s[j..];
    assert s[i] in s[..j] && s[j] in s[j..];
    assert multiset(s) == multiset(s[..j]) + multiset(s[j..]);
  }

  /** Two sorts of the same elements with distinct keys are one. */
  lemma SortsAgree<T>(a: seq<T>, b: seq<T>, key: T -> seq<nat>)
    requires DistinctBy(a, key) && multiset(a) == multiset(b)
    ensures SortBy(a, key) == SortBy(b, key)
  {
    SortSorts(a, key);
    SortSorts(b, key);
    SortKeepsDistinct(a, key);
    SortedUnique(SortBy(a, key), SortBy(b, key), key);
  }
}
