/** Texts in code-point order, as Python's `sorted` compares them. */
module Texts {
  import opened Sorting

  predicate TextLe(a: string, b: string) {
    a == "" || (b != "" && (a[0] < b[0] || (a[0] == b[0] && TextLe(a[1..], b[1..]))))
  }

  lemma {:induction false} TextTotal(a: string, b: string)
    ensures TextLe(a, b) || TextLe(b, a)
    ensures TextLe(a, b) && TextLe(b, a) ==> a == b
    decreases |a|
  {
    if a != "" && b != "" && a[0] == b[0] {
      TextTotal(a[1..], b[1..]);
      assert a == [a[0]] + a[1..] && b == [b[0]] + b[1..];
    }
  }

  lemma {:induction false} TextTransitive(a: string, b: string, c: string)
    requires TextLe(a, b) && TextLe(b, c)
    ensures TextLe(a, c)
    decreases |a|
  {
    if a != "" && a[0] == b[0] && b[0] == c[0] {
      TextTransitive(a[1..], b[1..], c[1..]);
    }
  }

  /** `a` comes before `b` in a dictionary: it is a proper beginning of `b`, or has the smaller
      character where they first differ. */
  ghost predicate ComesFirst(a: string, b: string) {
    a < b || exists k :: 0 <= k < |a| && k < |b| && a[..k] == b[..k] && a[k] < b[k]
  }

  lemma ComesFirstCons(x: char, a: string, b: string)
    ensures ComesFirst([x] + a, [x] + b) <==> ComesFirst(a, b)
  {
    var s, t := [x] + a, [x] + b;
    assert s[1..] == a && t[1..] == b;
    assert s < t <==> a < b;
    if k :| 0 <= k < |a| && k < |b| && a[..k] == b[..k] && a[k] < b[k] {
      assert s[..k + 1] == [x] + a[..k] && t[..k + 1] == [x] + b[..k] && s[k + 1] < t[k + 1];
    }
    if k :| 0 <= k < |s| && k < |t| && s[..k] == t[..k] && s[k] < t[k] {
      assert a[..k - 1] == s[..k][1..] && b[..k - 1] == t[..k][1..] && a[k - 1] < b[k - 1];
    }
  }

  lemma FirstsDiffer(a: string, b: string)
    requires a != "" && b != "" && a[0] != b[0]
    ensures ComesFirst(a, b) <==> a[0] < b[0]
  {
    assert a[..0] == b[..0];
    assert forall k :: 0 < k < |a| && k < |b| ==> a[..k][0] != b[..k][0];
  }

  /** The comparison is that of a dictionary. */
  lemma {:induction false} TextOrder(a: string, b: string)
    ensures TextLe(a, b) <==> a == b || ComesFirst(a, b)
    decreases |a|
  {
    if a != "" && b != "" {
      assert a == [a[0]] + a[1..] && b == [b[0]] + b[1..];
      if a[0] == b[0] {
        TextOrder(a[1..], b[1..]);
        ComesFirstCons(a[0], a[1..], b[1..]);
      } else {
        FirstsDiffer(a, b);
      }
    }
  }

  lemma TextRanks()
    ensures Ranks(TextLe)
  {
    forall x, y ensures TextLe(x, y) || TextLe(y, x) {
      TextTotal(x, y);
    }
    forall x, y, z | TextLe(x, y) && TextLe(y, z) ensures TextLe(x, z) {
      TextTransitive(x, y, z);
    }
  }

  lemma TextNoTies(s: seq<string>)
    ensures NoTies(TextLe, s)
  {
    forall x, y | x in s && y in s && TextLe(x, y) && TextLe(y, x) ensures x == y {
      TextTotal(x, y);
    }
  }

  function SortTexts(s: seq<string>): seq<string> {
    SortBy(TextLe, s)
  }

  /** Sorted texts depend only on what is sorted, not on its order; sorting twice is sorting once. */
  lemma SortedTexts(s: seq<string>)
    ensures SortTexts(SortTexts(s)) == SortTexts(s) && multiset(SortTexts(s)) == multiset(s)
    ensures forall t :: multiset(t) == multiset(s) ==> SortTexts(t) == SortTexts(s)
  {
    TextRanks();
    TextNoTies(s);
    SortSorts(TextLe, s);
    SortOfSorted(TextLe, SortTexts(s));
    forall t | multiset(t) == multiset(s) ensures SortTexts(t) == SortTexts(s) {
      SortIgnoresOrder(TextLe, s, t);
    }
  }

  /** Sequences are the same if they begin alike and go on alike. */
  lemma FirstsAndRests<T>(a: T, s: seq<T>, b: T, t: seq<T>)
    ensures [a] + s == [b] + t <==> a == b && s == t
  {
    if [a] + s == [b] + t {
      assert ([a] + s)[0] == a && ([b] + t)[0] == b;
      assert ([a] + s)[1..] == s && ([b] + t)[1..] == t;
    }
  }

  /** Nothing occurs twice. */
  predicate Distinct<T(==)>(s: seq<T>) {
    forall i, j :: 0 <= i < j < |s| ==> s[i] != s[j]
  }

  lemma DistinctCons<T>(x: T, t: seq<T>)
    ensures Distinct([x] + t) <==> Distinct(t) && x !in t
  {
    var s := [x] + t;
    assert forall i :: 0 <= i < |t| ==> t[i] == s[i + 1];
    if Distinct(s) {
      forall i, j | 0 <= i < j < |t| ensures t[i] != t[j] {
        assert s[i + 1] != s[j + 1];
      }
      forall i | 0 <= i < |t| ensures t[i] != x {
        assert s[0] != s[i + 1];
      }
    }
  }

  lemma {:induction false} DistinctCounts<T>(s: seq<T>)
    ensures Distinct(s) <==> forall x :: multiset(s)[x] <= 1
    decreases |s|
  {
    hide Distinct;
    if s == [] {
      assert Distinct(s) by { NoneDistinct<T>(); }
    } else {
      var x, t := s[0], s[1..];
      assert s == [x] + t;
      assert multiset(s) == multiset{x} + multiset(t);
      DistinctCons(x, t);
      DistinctCounts(t);
      assert x in multiset(t) <==> x in t;
      assert multiset(s)[x] == 1 + multiset(t)[x];
      assert forall y :: multiset(t)[y] <= multiset(s)[y];
    }
  }

  /** Reordering keeps elements distinct. */
  lemma DistinctPermutes<T>(s: seq<T>, t: seq<T>)
    requires multiset(s) == multiset(t)
    ensures Distinct(s) == Distinct(t)
  {
    DistinctCounts(s);
    DistinctCounts(t);
  }

  /** Distinct elements are those as many as their set. */
  lemma {:induction false} DistinctSize<T>(s: seq<T>)
    ensures |set x | x in s| <= |s|
    ensures |set x | x in s| == |s| <==> Distinct(s)
    decreases |s|
  {
    hide Distinct;
    if s == [] {
      assert Distinct(s) by { NoneDistinct<T>(); }
    } else {
      var x, t := s[0], s[1..];
      assert s == [x] + t;
      DistinctCons(x, t);
      DistinctSize(t);
      assert (set y | y in s) == {x} + set y | y in t;
    }
  }

  lemma NoneDistinct<T>()
    ensures Distinct<T>([])
  {
  }

  function Map<T, U>(f: T -> U, s: seq<T>): (r: seq<U>)
    ensures |r| == |s| && forall i :: 0 <= i < |s| ==> r[i] == f(s[i])
    ensures forall x :: x in s ==> f(x) in r
  {
    var r := seq(|s|, i requires 0 <= i < |s| => f(s[i]));
    assert forall i :: 0 <= i < |s| ==> r[i] == f(s[i]);
    r
  }

  lemma MapConcat<T, U>(f: T -> U, a: seq<T>, b: seq<T>)
    ensures Map(f, a + b) == Map(f, a) + Map(f, b)
  {
    hide Map;
    var whole, parts := Map(f, a + b), Map(f, a) + Map(f, b);
    forall i | 0 <= i < |whole| ensures whole[i] == parts[i] {
      assert i < |a| ==> (a + b)[i] == a[i];
      assert i >= |a| ==> (a + b)[i] == b[i - |a|];
    }
  }

  lemma MapSplits<T, U>(f: T -> U, a: seq<T>, x: T, b: seq<T>)
    ensures multiset(Map(f, a + [x] + b)) == multiset{f(x)} + multiset(Map(f, a + b))
  {
    hide Map;
    assert Map(f, [x]) == [f(x)];
    MapConcat(f, a + [x], b);
    MapConcat(f, a, [x]);
    MapConcat(f, a, b);
  }

  lemma WithoutOne<T>(a: seq<T>, x: T, b: seq<T>)
    ensures multiset(a + b) == multiset(a + [x] + b) - multiset{x}
  {
  }

  /** Reordering before or after mapping is the same. */
  lemma {:induction false} MapPermutes<T, U>(f: T -> U, s: seq<T>, t: seq<T>)
    requires multiset(s) == multiset(t)
    ensures multiset(Map(f, s)) == multiset(Map(f, t))
    decreases |s|
  {
    hide Map;
    if s == [] {
      assert |t| == |multiset(t)| == 0;
    } else {
      var x := s[0];
      assert x in multiset(t);
      var j :| 0 <= j < |t| && t[j] == x;
      assert s == [] + [x] + s[1..] && s[1..] == [] + s[1..];
      assert t == t[..j] + [x] + t[j + 1..];
      WithoutOne([], x, s[1..]);
      WithoutOne(t[..j], x, t[j + 1..]);
      MapPermutes(f, s[1..], t[..j] + t[j + 1..]);
      MapSplits(f, [], x, s[1..]);
      MapSplits(f, t[..j], x, t[j + 1..]);
    }
  }

  predicate SameMembers<T(==)>(s: seq<T>, t: seq<T>) {
    (forall x :: x in s ==> x in t) && (forall x :: x in t ==> x in s)
  }

  /** Two arrangements of the same elements. */
  lemma Arrangements<T>(s: seq<T>, t: seq<T>)
    requires multiset(s) == multiset(t)
    ensures |s| == |t| && SameMembers(s, t) && Distinct(s) == Distinct(t)
  {
    DistinctPermutes(s, t);
    assert |s| == |multiset(s)| == |multiset(t)| == |t|;
    forall x | x in s ensures x in t {
      assert x in multiset(s);
    }
    forall x | x in t ensures x in s {
      assert x in multiset(t);
    }
  }

  /** Two arrangements, mapped. */
  lemma MappedArrangements<T, U>(f: T -> U, s: seq<T>, t: seq<T>)
    requires multiset(s) == multiset(t)
    ensures multiset(Map(f, s)) == multiset(Map(f, t))
    ensures SameMembers(Map(f, s), Map(f, t)) && Distinct(Map(f, s)) == Distinct(Map(f, t))
  {
    hide Map, Distinct, SameMembers;
    MapPermutes(f, s, t);
    Arrangements(Map(f, s), Map(f, t));
  }

  function Members<T(==)>(s: seq<T>): set<T> {
    set x | x in s
  }

  /** The order in which sets of texts are iterated. */
  type Order = set<string> -> seq<string>

  /** Every set is iterated completely and without repetition. */
  ghost predicate Enumerates(order: Order) {
    forall s :: multiset(order(s)) == multiset(s)
  }
}
