/** The retention rule in numbers and texts: what the reason of every row of a plan says of the
    versions, the marks and the paths of all the files. */
module PlanRules {
  import opened ByteStrings
  import opened Sorting
  import opened Texts
  import opened Inventory
  import opened Retention
  import opened RetentionLaws
  import opened VersionTies

  // -------------------------------------------------------------- versions

  function Power(n: nat): nat {
    if n == 0 then 1 else 10 * Power(n - 1)
  }

  predicate AreDigits(digit: Digits, t: string) {
    forall k :: 0 <= k < |t| ==> digit(t[k]).Some?
  }

  /** The digits of a number by their places. */
  function ValueOf(digit: Digits, t: string): nat
    requires AreDigits(digit, t)
  {
    if t == "" then 0 else digit(t[0]).value * Power(|t| - 1) + ValueOf(digit, t[1..])
  }

  lemma {:induction false} ValueWithLast(digit: Digits, t: string, ch: char)
    requires AreDigits(digit, t) && digit(ch).Some?
    ensures AreDigits(digit, t + [ch]) && ValueOf(digit, t + [ch]) == 10 * ValueOf(digit, t) + digit(ch).value
    decreases |t|
  {
    var s := t + [ch];
    if t == "" {
      assert s[1..] == "" && Power(0) == 1;
    } else {
      assert s[1..] == t[1..] + [ch];
      ValueWithLast(digit, t[1..], ch);
      TimesTen(digit(t[0]).value, Power(|t| - 1));
    }
  }

  lemma TimesTen(d: nat, p: nat)
    ensures d * (10 * p) == 10 * (d * p)
  {
  }

  /** A text is a number exactly if it is digits, at least one, and then that of its places. */
  lemma {:induction false} NumberIs(digit: Digits, t: string)
    ensures Number(digit, t) == if t != "" && AreDigits(digit, t) then Some(ValueOf(digit, t)) else None
    decreases |t|
  {
    if t != "" {
      var front, ch := t[..|t| - 1], t[|t| - 1];
      assert t == front + [ch];
      if AreDigits(digit, front) && digit(ch).Some? {
        ValueWithLast(digit, front, ch);
      }
      if AreDigits(digit, t) {
        assert AreDigits(digit, front);
      }
      NumberIs(digit, front);
      assert front == "" ==> t == [ch];
    }
  }

  /** The text consists of three numbers with dots between them. */
  ghost predicate ReadsAs(digit: Digits, t: string, x: string, y: string, z: string) {
    t == x + "." + y + "." + z && x != "" && y != "" && z != ""
    && AreDigits(digit, x) && AreDigits(digit, y) && AreDigits(digit, z)
  }

  lemma DotIs(t: string, i: nat, x: string, rest: string)
    requires i <= |t| && t[i..] == x + "." + rest && '.' !in x
    ensures Dot(t, i) == i + |x|
    decreases |t| - i
  {
    assert t[i] == t[i..][0];
    if x != "" {
      assert t[i + 1..] == t[i..][1..] == x[1..] + "." + rest;
      DotIs(t, i + 1, x[1..], rest);
    }
  }

  /** What a version text is read as. */
  lemma VersionRead(digit: Digits, t: string, x: string, y: string, z: string)
    requires digit('.').None? && ReadsAs(digit, t, x, y, z)
    ensures TripleOf(digit, t) == Some(Triple(ValueOf(digit, x), ValueOf(digit, y), ValueOf(digit, z)))
  {
    hide Number, Dot, ValueOf;
    var i, j := |x|, |x| + 1 + |y|;
    assert t[0..] == t == x + "." + (y + "." + z);
    DotIs(t, 0, x, y + "." + z);
    assert t[i + 1..] == y + "." + z;
    DotIs(t, i + 1, y, z);
    assert t[..i] == x && t[i + 1..j] == y && t[j + 1..] == z;
    NumberIs(digit, x);
    NumberIs(digit, y);
    NumberIs(digit, z);
  }

  lemma VersionParts(digit: Digits, t: string) returns (x: string, y: string, z: string)
    requires TripleOf(digit, t).Some?
    ensures ReadsAs(digit, t, x, y, z)
  {
    hide Number, Dot, ValueOf;
    var i := Dot(t, 0);
    var j := Dot(t, i + 1);
    x, y, z := t[..i], t[i + 1..j], t[j + 1..];
    NumberIs(digit, x);
    NumberIs(digit, y);
    NumberIs(digit, z);
    assert t == x + [t[i]] + y + [t[j]] + z;
  }

  /** A version is read exactly if it is three numbers with dots between them. */
  lemma VersionIsRead(digit: Digits, t: string)
    requires digit('.').None?
    ensures TripleOf(digit, t).Some? <==> exists x, y, z :: ReadsAs(digit, t, x, y, z)
  {
    hide TripleOf, ReadsAs;
    if TripleOf(digit, t).Some? {
      var x, y, z := VersionParts(digit, t);
    }
    if x, y, z :| ReadsAs(digit, t, x, y, z) {
      VersionRead(digit, t, x, y, z);
    }
  }

  // ------------------------------------------------------------ the words

  /** A newer version: a greater major number, or then minor, or then patch. */
  predicate IsNewer(a: Triple, b: Triple) {
    b.major < a.major
    || (a.major == b.major && (b.minor < a.minor || (a.minor == b.minor && b.patch < a.patch)))
  }

  function NumbersOf(digit: Digits, e: Entry): Triple
    requires Known(digit, e)
  {
    TripleOf(digit, e.version.value).value
  }

  /** The known versions newer than that of a file. */
  ghost function NewerThan(digit: Digits, files: seq<Entry>, e: Entry): set<string>
    requires Known(digit, e)
  {
    set f | f in files && Known(digit, f) && IsNewer(NumbersOf(digit, f), NumbersOf(digit, e)) :: f.version.value
  }

  /** The other known versions that are not older than that of a file. */
  ghost function NotOlderThan(digit: Digits, files: seq<Entry>, e: Entry): set<string>
    requires Known(digit, e)
  {
    set f | f in files && Known(digit, f) && f.version != e.version && !IsNewer(NumbersOf(digit, e), NumbersOf(digit, f))
      :: f.version.value
  }

  /** Copies of one artifact: the same in everything but path, inode, times and mark. */
  predicate AreCopies(a: Entry, b: Entry) {
    a.kind == b.kind && a.target == b.target && a.profile == b.profile && a.features == b.features
    && a.version == b.version && a.source == b.source && a.sha256 == b.sha256
  }

  /** Of two copies the one marked canonical is preferred, or else the one whose path comes first. */
  ghost predicate IsPreferred(a: Entry, b: Entry) {
    if (a.role == Some("canonical")) == (b.role == Some("canonical")) then ComesFirst(a.path, b.path)
    else a.role == Some("canonical")
  }

  /** A copy that some other copy is preferred to. */
  ghost predicate HasBetterCopy(digit: Digits, files: seq<Entry>, e: Entry) {
    exists f :: f in files && Known(digit, f) && AreCopies(f, e) && IsPreferred(f, e)
  }

  // --------------------------------------------------------------- ranking

  lemma KnownParts(digit: Digits, e: Entry)
    ensures Known(digit, e) <==>
            e.version.Some? && TripleOf(digit, e.version.value).Some?
            && (e.kind == Some("main") || e.kind == Some("library") || e.kind == Some("representative")
                || e.kind == Some("test") || e.kind == Some("metadata") || e.kind == Some("auxiliary"))
            && e.target.Some? && e.target.value != "" && e.target.value != "unknown"
            && e.profile.Some? && e.profile.value != "" && e.profile.value != "unknown"
            && e.source.Some? && e.source.value != "" && e.source.value != "unknown"
  {
    hide TripleOf;
  }

  lemma AtMostIs(digit: Digits, a: Entry, b: Entry)
    requires Known(digit, a) && Known(digit, b)
    ensures AtMost(digit, a.version.value, b.version.value) <==> !IsNewer(NumbersOf(digit, a), NumbersOf(digit, b))
  {
    hide TripleOf;
  }

  lemma SomeFileHas(digit: Digits, files: seq<Entry>, v: string) returns (f: Entry)
    requires v in KnownVersions(digit, files)
    ensures f in files && Known(digit, f) && f.version == Some(v)
  {
    hide TripleOf;
    f :| f in files && Known(digit, f) && f.version.value == v;
  }

  /** How many versions a ranking lists behind that of file `e`. */
  ghost predicate IsRank(r: seq<string>, v: string, p: nat) {
    p < |r| && r[|r| - 1 - p] == v
  }

  /** A version stands in a ranking behind all the newer ones, and only behind some that are not older. */
  lemma RankBounds(digit: Digits, files: seq<Entry>, r: seq<string>, e: Entry, p: nat)
    requires e in files && Known(digit, e) && IsRanking(digit, KnownVersions(digit, files), r) && IsRank(r, e.version.value, p)
    ensures |NewerThan(digit, files, e)| <= p <= |NotOlderThan(digit, files, e)|
  {
    hide Known, TripleOf, AtMost, Distinct, IsRanking, NumbersOf, IsNewer;
    RankingParts(digit, KnownVersions(digit, files), r);
    var k := |r| - 1 - p;
    var behind := r[k + 1..];
    var newer, others := NewerThan(digit, files, e), NotOlderThan(digit, files, e);
    forall v | v in newer ensures v in behind {
      NewerIsBehind(digit, files, r, e, k, v);
    }
    forall v | v in behind ensures v in others {
      BehindIsNotOlder(digit, files, r, e, k, v);
    }
    DistinctTail(r, k + 1);
    DistinctSize(behind);
    Fewer(newer, Members(behind));
    Fewer(Members(behind), others);
  }

  lemma Fewer<T>(a: set<T>, b: set<T>)
    requires a <= b
    ensures |a| <= |b|
  {
    assert b == a + (b - a);
    assert |b| == |a| + |b - a|;
  }

  lemma DistinctTail<T>(r: seq<T>, k: nat)
    requires Distinct(r) && k <= |r|
    ensures Distinct(r[k..])
  {
  }

  lemma NewerIsBehind(digit: Digits, files: seq<Entry>, r: seq<string>, e: Entry, k: nat, v: string)
    requires e in files && Known(digit, e) && k < |r| && r[k] == e.version.value && v in NewerThan(digit, files, e)
    requires forall w :: w in KnownVersions(digit, files) <==> w in r
    requires forall i, j :: 0 <= i <= j < |r| ==> AtMost(digit, r[i], r[j])
    ensures v in r[k + 1..]
  {
    hide TripleOf, AtMost, NumbersOf, IsNewer;
    var f :| f in files && Known(digit, f) && IsNewer(NumbersOf(digit, f), NumbersOf(digit, e)) && f.version.value == v;
    VersionIn(digit, files, f);
    var j :| 0 <= j < |r| && r[j] == v;
    AtMostIs(digit, f, e);
    assert j > k;
    assert r[k + 1..][j - k - 1] == v;
  }

  lemma VersionIn(digit: Digits, files: seq<Entry>, f: Entry)
    requires f in files && Known(digit, f)
    ensures f.version.Some? && f.version.value in KnownVersions(digit, files)
  {
    hide TripleOf;
  }

  lemma BehindIsNotOlder(digit: Digits, files: seq<Entry>, r: seq<string>, e: Entry, k: nat, v: string)
    requires e in files && Known(digit, e) && k < |r| && r[k] == e.version.value && v in r[k + 1..] && Distinct(r)
    requires forall w :: w in KnownVersions(digit, files) <==> w in r
    requires forall i, j :: 0 <= i <= j < |r| ==> AtMost(digit, r[i], r[j])
    ensures v in NotOlderThan(digit, files, e)
  {
    hide Known, TripleOf, AtMost, NumbersOf, IsNewer, KnownVersions;
    var m :| 0 <= m < |r[k + 1..]| && r[k + 1..][m] == v;
    var j := k + 1 + m;
    assert r[j] == v && r[j] in r;
    var f := SomeFileHas(digit, files, v);
    AtMostIs(digit, e, f);
    assert AtMost(digit, r[k], r[j]) && r[k] != r[j];
  }

  // ---------------------------------------------------------------- copies

  lemma BeforeIs(a: Entry, b: Entry)
    ensures Before(a, b) <==> (a.path == b.path && IsMarked(a) == IsMarked(b)) || IsPreferred(a, b)
    ensures IsPreferred(a, b) <==> Before(a, b) && !(a.path == b.path && IsMarked(a) == IsMarked(b))
  {
    hide TextLe, ComesFirst;
    TextOrder(a.path, b.path);
    NotBeforeItself(a.path);
  }

  lemma NotBeforeItself(t: string)
    ensures !ComesFirst(t, t)
  {
  }

  lemma CopiesAreGroups(digit: Digits, a: Entry, b: Entry)
    ensures InGroup(digit, KeyOf(a), b) <==> Known(digit, b) && AreCopies(b, a)
  {
    hide Known;
  }

  lemma SamePathSameFile(files: seq<Entry>, i: nat, j: nat)
    requires Distinct(Map(PathOf, files)) && i < |files| && j < |files| && files[i].path == files[j].path
    ensures i == j
  {
    hide Distinct;
    assert Map(PathOf, files)[i] == Map(PathOf, files)[j];
    DistinctAt(Map(PathOf, files), i, j);
  }

  /** The representative of its group is the known copy that no other is preferred to. */
  lemma RepresentsIs(digit: Digits, files: seq<Entry>, i: nat, c: nat)
    requires Distinct(Map(PathOf, files)) && i < |files| && c < |files|
    ensures Represents(digit, files, KeyOf(files[i]), c)
       <==> Known(digit, files[c]) && AreCopies(files[c], files[i]) && !HasBetterCopy(digit, files, files[c])
  {
    hide Known, Before, IsPreferred, KeyOf, InGroup, Distinct, Map;
    forall j | 0 <= j < |files|
      ensures InGroup(digit, KeyOf(files[i]), files[j]) <==> Known(digit, files[j]) && AreCopies(files[j], files[i])
      ensures IsPreferred(files[j], files[c]) <==> !Before(files[c], files[j])
    {
      CopiesAreGroups(digit, files[i], files[j]);
      PreferredIs(files, j, c);
    }
    if HasBetterCopy(digit, files, files[c]) {
      var f :| f in files && Known(digit, f) && AreCopies(f, files[c]) && IsPreferred(f, files[c]);
      var j :| 0 <= j < |files| && files[j] == f;
    }
  }

  lemma PreferredIs(files: seq<Entry>, j: nat, c: nat)
    requires Distinct(Map(PathOf, files)) && j < |files| && c < |files|
    ensures IsPreferred(files[j], files[c]) <==> !Before(files[c], files[j])
  {
    hide Distinct, IsPreferred, Before;
    BeforeIs(files[j], files[c]);
    BeforeIs(files[c], files[j]);
    BeforeIsTotal(files[j], files[c]);
    if files[j].path == files[c].path {
      SamePathSameFile(files, j, c);
    }
  }

  // ----------------------------------------------------------------- rows

  /** The reason of a file whose version has `p` versions behind it in the ranking. */
  function ReasonAt(kind: string, p: nat): Reason {
    if p == 0 then LatestVersion
    else if p == 1 && (kind == "main" || kind == "library" || kind == "representative") then PreviousRepresentative
    else if kind == "main" then OlderMain
    else OlderRebuildable
  }

  /** The rule of a row, in the words above. */
  ghost predicate ObeysRule(digit: Digits, pins: seq<string>, files: seq<Entry>, row: Planned) {
    var e := row.entry;
    if !Known(digit, e) then row.keep && row.reason == UnknownProvenance
    else if e.nlink != 1 then row.keep && row.reason == MultipleLinks
    else if HasBetterCopy(digit, files, e) then
      !row.keep && row.reason.DuplicateOf?
      && exists f :: f in files && Known(digit, f) && AreCopies(f, e) && !HasBetterCopy(digit, files, f) && row.reason.path == f.path
    else if e.source.value in pins then row.keep && row.reason == PinnedSource
    else
      row.keep == (row.reason != OlderRebuildable)
      && exists p :: |NewerThan(digit, files, e)| <= p <= |NotOlderThan(digit, files, e)| && row.reason == ReasonAt(e.kind.value, p)
  }

  lemma RankOfFile(digit: Digits, files: seq<Entry>, r: seq<string>, e: Entry) returns (p: nat)
    requires e in files && Known(digit, e) && IsRanking(digit, KnownVersions(digit, files), r)
    ensures IsRank(r, e.version.value, p)
    ensures IsLatest(r, e.version.value) <==> p == 0
    ensures IsPrevious(r, e.version.value) <==> p == 1
  {
    hide Known, AtMost, IsRanking, KnownVersions;
    RankingParts(digit, KnownVersions(digit, files), r);
    VersionIn(digit, files, e);
    var k :| 0 <= k < |r| && r[k] == e.version.value;
    p := |r| - 1 - k;
  }

  lemma UndividedRow(digit: Digits, pins: seq<string>, files: seq<Entry>, r: seq<string>, e: Entry)
    requires e in files && Known(digit, e) && IsRanking(digit, KnownVersions(digit, files), r)
    requires e.nlink == 1 && e.source.value !in pins
    ensures exists p :: |NewerThan(digit, files, e)| <= p <= |NotOlderThan(digit, files, e)|
                        && Tier(digit, pins, r, e) == ReasonAt(e.kind.value, p)
  {
    hide Known, IsRanking, KnownVersions, IsLatest, IsPrevious, IsRank, NewerThan, NotOlderThan;
    Given(digit, e);
    var p := RankOfFile(digit, files, r, e);
    RankBounds(digit, files, r, e, p);
    assert Tier(digit, pins, r, e) == ReasonAt(e.kind.value, p);
  }

  /** Every decision obeys the rule, however tied versions are ranked. */
  lemma DecisionObeys(digit: Digits, pins: seq<string>, files: seq<Entry>, r: seq<string>, i: nat)
    requires i < |files| && Distinct(Map(PathOf, files)) && IsRanking(digit, KnownVersions(digit, files), r)
    ensures ObeysRule(digit, pins, files, Decision(digit, pins, r, files, i))
  {
    hide Known, Distinct, Least, KeyOf, IsLatest, IsPrevious, Represents, HasBetterCopy, KnownVersions, IsRanking,
         NewerThan, NotOlderThan, ReasonAt, AreCopies;
    var e := files[i];
    var row := Decision(digit, pins, r, files, i);
    if Known(digit, e) && e.nlink == 1 {
      OneRepresentative(digit, files, KeyOf(e), i);
      CopyOfItself(e);
      RepresentsIs(digit, files, i, i);
      var c := Least(digit, files, KeyOf(e), |files|).value;
      RepresentsIs(digit, files, i, c);
      Given(digit, e);
      if e.source.value !in pins {
        UndividedRow(digit, pins, files, r, e);
        TierOfVersion(digit, pins, r, e);
      }
      assert files[c] in files;
    }
  }

  lemma CopyOfItself(e: Entry)
    ensures AreCopies(e, e)
  {
  }

  lemma TierOfVersion(digit: Digits, pins: seq<string>, r: seq<string>, e: Entry)
    requires Known(digit, e) && e.nlink == 1
    ensures !Tier(digit, pins, r, e).DuplicateOf?
  {
    hide Known, IsLatest, IsPrevious;
  }

  lemma PinsOfPlan(repo: Pathname, digit: Digits, order: Order, inventory: Inventory, plan: Plan)
    requires PlanOf(repo, digit, order, inventory) == Some(plan)
    ensures forall p :: p in plan.pins <==> p in inventory.pins
  {
    hide AreRoots, AreEntries, Distinct, Canonical, SortTexts, SortBy, SizesAgree, Decisions, IsNamed;
    NamesOnce(inventory.pins);
  }

  /** Every row of every plan obeys the rule: a known single-link file without a preferred copy
      and without a pin is latest, previous or older by the number of versions newer than its
      own, compared as numbers; versions tied with its own may count or not. */
  lemma RowsObeyRule(repo: Pathname, digit: Digits, order: Order, inventory: Inventory, plan: Plan, i: nat)
    requires Enumerates(order) && PlanOf(repo, digit, order, inventory) == Some(plan) && i < |plan.entries|
    ensures ObeysRule(digit, inventory.pins, Files(plan), plan.entries[i])
  {
    hide PlanOf, Ranked, Decision, Distinct, ObeysRule, IsRanking, Enumerates, KnownVersions, SizesAgree, Normalized;
    PlanParts(repo, digit, order, inventory, plan);
    RankedIsRanking(digit, order, Files(plan));
    DecisionObeys(digit, plan.pins, Files(plan), Ranked(digit, order, Files(plan)), i);
    PinsOfPlan(repo, digit, order, inventory, plan);
    SamePins(digit, plan.pins, inventory.pins, Files(plan), plan.entries[i]);
  }

  lemma SamePins(digit: Digits, pins: seq<string>, again: seq<string>, files: seq<Entry>, row: Planned)
    requires ObeysRule(digit, pins, files, row) && forall p :: p in pins <==> p in again
    ensures ObeysRule(digit, again, files, row)
  {
    hide Known, HasBetterCopy, NewerThan, NotOlderThan, ReasonAt, AreCopies;
  }

  /** An inventory that passes the schema has no plan exactly if two copies differ in size. */
  lemma SizesDecide(repo: Pathname, digit: Digits, order: Order, inventory: Inventory)
    requires Normalized(repo, inventory).Some?
    ensures
      var files := Normalized(repo, inventory).value.entries;
      PlanOf(repo, digit, order, inventory).None? <==>
      exists a, b :: a in files && b in files && Known(digit, a) && Known(digit, b) && AreCopies(a, b) && a.size != b.size
  {
    hide Known, Normalized, Decisions, KeyOf;
    var files := Normalized(repo, inventory).value.entries;
    forall a: Entry, b: Entry ensures SameGroup(digit, a, b) <==> Known(digit, a) && Known(digit, b) && AreCopies(b, a) {
      CopiesAreGroups(digit, a, b);
    }
    if a, b :| a in files && b in files && Known(digit, a) && Known(digit, b) && AreCopies(a, b) && a.size != b.size {
      var i :| 0 <= i < |files| && files[i] == a;
      var j :| 0 <= j < |files| && files[j] == b;
      assert SameGroup(digit, files[j], files[i]);
    }
  }
}
