/** Python's `sorted`: a stable insertion sort by a comparison, and when its result does not
    depend on the order of the input. */
module Sorting {

  function Insert<T>(le: (T, T) -> bool, x: T, s: seq<T>): seq<T> {
    if s == [] || le(x, s[0]) then [x] + s else [s[0]] + Insert(le, x, s[1..])
  }

  function SortBy<T>(le: (T, T) -> bool, s: seq<T>): seq<T> {
    if s == [] then [] else Insert(le, s[0], SortBy(le, s[1..]))
  }

  ghost predicate SortedBy<T>(le: (T, T) -> bool, s: seq<T>) {
    forall i, j :: 0 <= i < j < |s| ==> le(s[i], s[j])
  }

  /** The comparison is total and transitive. */
  ghost predicate Ranks<T(!new)>(le: (T, T) -> bool) {
    (forall x, y :: le(x, y) || le(y, x))
    && (forall x, y, z :: le(x, y) && le(y, z) ==> le(x, z))
  }

  /** No two different elements of `s` tie. */
  ghost predicate NoTies<T(!new)>(le: (T, T) -> bool, s: seq<T>) {
    forall x, y :: x in s && y in s && le(x, y) && le(y, x) ==> x == y
  }

  lemma Cons<T>(x: T, s: seq<T>)
    ensures ([x] + s)[1..] == s && multiset([x] + s) == multiset{x} + multiset(s)
    ensures forall y :: y in [x] + s <==> y == x || y in s
  {
  }

  lemma SortedCons<T>(le: (T, T) -> bool, x: T, s: seq<T>)
    ensures SortedBy(le, [x] + s) <==> SortedBy(le, s) && forall y :: y in s ==> le(x, y)
  {
    var all := [x] + s;
    assert forall i :: 0 <= i < |s| ==> all[i + 1] == s[i];
    assert forall i :: 1 <= i < |all| ==> all[i] == s[i - 1];
    if SortedBy(le, all) {
      forall i, j | 0 <= i < j < |s| ensures le(s[i], s[j]) {
        assert le(all[i + 1], all[j + 1]);
      }
      forall y | y in s ensures le(x, y) {
        var i :| 0 <= i < |s| && s[i] == y;
        assert le(all[0], all[i + 1]);
      }
    }
  }

  lemma {:induction false} InsertSorts<T(!new)>(le: (T, T) -> bool, x: T, s: seq<T>)
    requires SortedBy(le, s) && Ranks(le)
    ensures SortedBy(le, Insert(le, x, s)) && multiset(Insert(le, x, s)) == multiset{x} + multiset(s)
    ensures forall y :: y in Insert(le, x, s) <==> y == x || y in s
    decreases |s|
  {
    hide SortedBy;
    Cons(x, s);
    SortedCons(le, x, s);
    if s != [] {
      var h, t := s[0], s[1..];
      assert s == [h] + t;
      Cons(h, t);
      SortedCons(le, h, t);
      if !le(x, h) {
        InsertSorts(le, x, t);
        Cons(h, Insert(le, x, t));
        SortedCons(le, h, Insert(le, x, t));
      }
    }
  }

  lemma {:induction false} SortSorts<T(!new)>(le: (T, T) -> bool, s: seq<T>)
    requires Ranks(le)
    ensures SortedBy(le, SortBy(le, s)) && multiset(SortBy(le, s)) == multiset(s)
    ensures forall y :: y in SortBy(le, s) <==> y in s
    decreases |s|
  {
    hide SortedBy, Ranks;
    if s == [] {
      assert SortedBy(le, SortBy(le, s)) by { NoneSorted(le); }
    } else {
      assert s == [s[0]] + s[1..];
      Cons(s[0], s[1..]);
      SortSorts(le, s[1..]);
      InsertSorts(le, s[0], SortBy(le, s[1..]));
    }
  }

  lemma NoneSorted<T>(le: (T, T) -> bool)
    ensures SortedBy(le, [])
  {
  }

  lemma HeadsEqual<T(!new)>(le: (T, T) -> bool, a: seq<T>, b: seq<T>)
    requires SortedBy(le, a) && SortedBy(le, b) && multiset(a) == multiset(b)
    requires NoTies(le, a) && a != [] && b != []
    ensures a[0] == b[0]
  {
    assert a[0] in multiset(b) && b[0] in multiset(a);
    var i :| 0 <= i < |b| && b[i] == a[0];
    var j :| 0 <= j < |a| && a[j] == b[0];
    assert i == 0 || le(b[0], b[i]);
    assert j == 0 || le(a[0], a[j]);
  }

  lemma FewerTies<T(!new)>(le: (T, T) -> bool, x: T, s: seq<T>)
    requires NoTies(le, [x] + s)
    ensures NoTies(le, s)
  {
    Cons(x, s);
  }

  lemma RestEqual<T>(x: T, s: seq<T>, t: seq<T>)
    requires multiset([x] + s) == multiset([x] + t)
    ensures multiset(s) == multiset(t)
  {
    assert multiset(s) == multiset([x] + s) - multiset{x};
    assert multiset(t) == multiset([x] + t) - multiset{x};
  }

  /** Without ties there is only one sorted arrangement. */
  lemma {:induction false} SortedIsUnique<T(!new)>(le: (T, T) -> bool, a: seq<T>, b: seq<T>)
    requires SortedBy(le, a) && SortedBy(le, b) && multiset(a) == multiset(b)
    requires NoTies(le, a)
    ensures a == b
    decreases |a|
  {
    hide SortedBy, NoTies;
    assert |a| == |multiset(a)| == |multiset(b)| == |b|;
    if a != [] {
      HeadsEqual(le, a, b);
      var x, s, t := a[0], a[1..], b[1..];
      assert a == [x] + s && b == [x] + t;
      Cons(x, s);
      Cons(x, t);
      SortedCons(le, x, s);
      SortedCons(le, x, t);
      RestEqual(x, s, t);
      FewerTies(le, x, s);
      SortedIsUnique(le, s, t);
    }
  }

  /** Sorting permutations of the same elements gives the same list. */
  lemma SortIgnoresOrder<T(!new)>(le: (T, T) -> bool, a: seq<T>, b: seq<T>)
    requires multiset(a) == multiset(b) && Ranks(le) && NoTies(le, a)
    ensures SortBy(le, a) == SortBy(le, b)
  {
    hide SortedBy, Ranks;
    SortSorts(le, a);
    SortSorts(le, b);
    SortedIsUnique(le, SortBy(le, a), SortBy(le, b));
  }

  /** Sorting what is sorted changes nothing, ties or not: the sort is stable. */
  lemma {:induction false} SortOfSorted<T(!new)>(le: (T, T) -> bool, s: seq<T>)
    requires SortedBy(le, s)
    ensures SortBy(le, s) == s
    decreases |s|
  {
    if s != [] {
      SortOfSorted(le, s[1..]);
      assert |s| > 1 ==> le(s[0], s[1]);
    }
  }
}
