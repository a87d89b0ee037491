/** When the plan depends on the order in which a set of versions happens to be iterated:
    different version texts with one triple tie in the sort. */
module VersionTies {
  import opened ByteStrings
  import opened Sorting
  import opened Texts
  import opened Inventory
  import opened Retention

  predicate AtMost(digit: Digits, a: string, b: string) {
    TripleLe(RankOf(digit, a), RankOf(digit, b))
  }

  predicate HasRival(digit: Digits, versions: set<string>, v: string) {
    exists w :: w in versions && w != v && RankOf(digit, w) == RankOf(digit, v)
  }

  /** No version is newer than `v`, and another text has its triple. */
  predicate TopTied(digit: Digits, versions: set<string>, v: string) {
    HasRival(digit, versions, v) && forall u :: u in versions ==> AtMost(digit, u, v)
  }

  /** Exactly one version is newer than `v`, and another text has its triple. */
  predicate SecondTied(digit: Digits, versions: set<string>, v: string) {
    HasRival(digit, versions, v)
    && exists t :: t in versions && !AtMost(digit, t, v) && forall u :: u in versions && u != t ==> AtMost(digit, u, v)
  }

  /** A file whose tier a tie leaves open: nothing earlier decides it, and its version is tied
      for the latest, or for the previous one where that matters. */
  predicate IsUndecided(digit: Digits, pins: seq<string>, files: seq<Entry>, i: nat)
    requires i < |files|
  {
    var e, versions := files[i], KnownVersions(digit, files);
    Known(digit, e) && e.nlink == 1 && e.source.value !in pins && Represents(digit, files, KeyOf(e), i)
    && (TopTied(digit, versions, e.version.value)
        || (e.kind.value in REPRESENTATIVE_KINDS && SecondTied(digit, versions, e.version.value)))
  }

  predicate IsAmbiguous(digit: Digits, inventory: Inventory) {
    exists i | 0 <= i < |inventory.entries| :: IsUndecided(digit, inventory.pins, inventory.entries, i)
  }

  // ------------------------------------------------------------- rankings

  /** One of the ways to list the versions from oldest to newest. */
  ghost predicate IsRanking(digit: Digits, versions: set<string>, r: seq<string>) {
    SortedBy(VersionLe(digit), r) && multiset(r) == multiset(versions)
  }

  lemma VersionsRank(digit: Digits)
    ensures Ranks(VersionLe(digit))
  {
  }

  lemma RankedIsRanking(digit: Digits, order: Order, files: seq<Entry>)
    requires Enumerates(order)
    ensures IsRanking(digit, KnownVersions(digit, files), Ranked(digit, order, files))
  {
    hide KnownVersions, RankOf, SortedBy;
    var le, versions := VersionLe(digit), KnownVersions(digit, files);
    VersionsRank(digit);
    SortSorts(le, order(versions));
  }

  lemma RankingParts(digit: Digits, versions: set<string>, r: seq<string>)
    requires IsRanking(digit, versions, r)
    ensures |r| == |versions| && Distinct(r)
    ensures forall v :: v in versions <==> v in r
    ensures forall i, j :: 0 <= i <= j < |r| ==> AtMost(digit, r[i], r[j])
  {
    hide RankOf;
    assert |multiset(r)| == |multiset(versions)|;
    DistinctCounts(r);
    forall v ensures v in versions <==> v in r {
      assert v in multiset(r) <==> v in multiset(versions);
    }
    forall i, j | 0 <= i <= j < |r| ensures AtMost(digit, r[i], r[j]) {
      assert i < j ==> VersionLe(digit)(r[i], r[j]);
    }
  }

  lemma EqualRanks(digit: Digits, v: string, w: string)
    requires AtMost(digit, v, w) && AtMost(digit, w, v)
    ensures RankOf(digit, v) == RankOf(digit, w)
  {
  }

  /** Two rankings that do not end alike have a tie at the end. */
  lemma LatestDiffers(digit: Digits, versions: set<string>, r: seq<string>, s: seq<string>, v: string)
    requires IsRanking(digit, versions, r) && IsRanking(digit, versions, s)
    requires IsLatest(r, v) && !IsLatest(s, v)
    ensures TopTied(digit, versions, v)
  {
    hide RankOf, IsRanking, AtMost, Distinct;
    RankingParts(digit, versions, r);
    RankingParts(digit, versions, s);
    var n := |r| - 1;
    assert v in r;
    var j :| 0 <= j < |s| && s[j] == v;
    assert s[n] in versions;
    var i :| 0 <= i < |r| && r[i] == s[n];
    assert AtMost(digit, r[i], r[n]) && AtMost(digit, s[j], s[n]);
    EqualRanks(digit, v, s[n]);
    forall u | u in versions ensures AtMost(digit, u, v) {
      var k :| 0 <= k < |r| && r[k] == u;
      assert AtMost(digit, r[k], r[n]);
    }
  }

  lemma LastTwoDiffer(r: seq<string>)
    requires Distinct(r) && |r| >= 2
    ensures r[|r| - 2] != r[|r| - 1]
  {
  }

  /** Two rankings that do not have the same next-to-last version have a tie there. */
  lemma PreviousDiffers(digit: Digits, versions: set<string>, r: seq<string>, s: seq<string>, v: string)
    requires IsRanking(digit, versions, r) && IsRanking(digit, versions, s)
    requires IsPrevious(r, v) && !IsPrevious(s, v)
    ensures TopTied(digit, versions, v) || SecondTied(digit, versions, v)
  {
    hide RankOf, IsRanking, AtMost, Distinct;
    RankingParts(digit, versions, r);
    RankingParts(digit, versions, s);
    var n := |r| - 1;
    var t := r[n];
    LastTwoDiffer(r);
    assert v in r && t in r;
    forall u | u in versions && u != t ensures AtMost(digit, u, v) {
      var k :| 0 <= k < |r| && r[k] == u;
      assert AtMost(digit, r[k], r[n - 1]);
    }
    assert AtMost(digit, v, v) by {
      assert AtMost(digit, r[n - 1], r[n - 1]);
    }
    var j :| 0 <= j < |s| && s[j] == v;
    if AtMost(digit, t, v) {
      assert AtMost(digit, r[n - 1], r[n]);
      EqualRanks(digit, v, t);
    } else {
      var m :| 0 <= m < |s| && s[m] == t;
      assert AtMost(digit, s[m], s[n]);
      assert s[n] in versions;
      assert s[n] == t by {
        if s[n] != t {
          NotBetween(digit, t, s[n], v);
          assert false;
        }
      }
      var w := s[n - 1];
      LastTwoDiffer(s);
      assert w in versions;
      assert AtMost(digit, s[j], s[n - 1]);
      EqualRanks(digit, v, w);
    }
  }

  lemma NotBetween(digit: Digits, a: string, b: string, c: string)
    requires AtMost(digit, a, b) && AtMost(digit, b, c)
    ensures AtMost(digit, a, c)
  {
  }

  /** Without an undecided file every ranking gives the same decisions. */
  lemma DecidedRow(digit: Digits, pins: seq<string>, files: seq<Entry>, i: nat, r: seq<string>, s: seq<string>)
    requires i < |files| && Distinct(Map(PathOf, files)) && !IsUndecided(digit, pins, files, i)
    requires IsRanking(digit, KnownVersions(digit, files), r) && IsRanking(digit, KnownVersions(digit, files), s)
    ensures Decision(digit, pins, r, files, i) == Decision(digit, pins, s, files, i)
  {
    hide Known, RankOf, IsRanking, Distinct, Least, Represents, KeyOf, IsLatest, IsPrevious, TopTied, SecondTied;
    var e, versions := files[i], KnownVersions(digit, files);
    if Known(digit, e) && e.nlink == 1 {
      OneRepresentative(digit, files, KeyOf(e), i);
      Given(digit, e);
      var v := e.version.value;
      if IsLatest(r, v) != IsLatest(s, v) {
        if IsLatest(r, v) { LatestDiffers(digit, versions, r, s, v); } else { LatestDiffers(digit, versions, s, r, v); }
      }
      if IsPrevious(r, v) != IsPrevious(s, v) {
        if IsPrevious(r, v) { PreviousDiffers(digit, versions, r, s, v); } else { PreviousDiffers(digit, versions, s, r, v); }
      }
    }
  }

  lemma Given(digit: Digits, e: Entry)
    requires Known(digit, e)
    ensures e.version.Some? && e.kind.Some? && e.source.Some?
  {
  }

  // --------------------------------------------------------------- orders

  /** Some listing of a set. */
  ghost function Listing(s: set<string>): (r: seq<string>)
    ensures multiset(r) == multiset(s)
  {
    if s == {} then []
    else
      var x :| x in s;
      assert multiset(s) == multiset{x} + multiset(s - {x});
      [x] + Listing(s - {x})
  }

  ghost function OrderWith(versions: set<string>, listing: seq<string>): Order {
    s => if s == versions then listing else Listing(s)
  }

  lemma OrderWithEnumerates(versions: set<string>, listing: seq<string>)
    requires multiset(listing) == multiset(versions)
    ensures Enumerates(OrderWith(versions, listing))
  {
  }

  lemma {:induction false} InsertBeforeLast(digit: Digits, x: string, s: seq<string>, v: string)
    requires AtMost(digit, x, v)
    ensures Insert(VersionLe(digit), x, s + [v]) == Insert(VersionLe(digit), x, s) + [v]
    decreases |s|
  {
    hide RankOf;
    if s == [] {
      assert s + [v] == [v];
    } else {
      assert (s + [v])[1..] == s[1..] + [v];
      InsertBeforeLast(digit, x, s[1..], v);
    }
  }

  lemma SortedAlone(digit: Digits, v: string)
    ensures SortBy(VersionLe(digit), [v]) == [v]
  {
    assert [v][1..] == [];
  }

  /** A newest version listed last stays last. */
  lemma {:induction false} NewestStaysLast(digit: Digits, s: seq<string>, v: string)
    requires forall u :: u in s ==> AtMost(digit, u, v)
    ensures SortBy(VersionLe(digit), s + [v]) == SortBy(VersionLe(digit), s) + [v]
    decreases |s|
  {
    hide AtMost, Insert;
    if s == [] {
      assert s + [v] == [v];
      SortedAlone(digit, v);
    } else {
      assert (s + [v])[1..] == s[1..] + [v];
      NewestStaysLast(digit, s[1..], v);
      InsertBeforeLast(digit, s[0], SortBy(VersionLe(digit), s[1..]), v);
    }
  }

  /** A version no other exceeds can be made the latest. */
  lemma CanBeLatest(digit: Digits, files: seq<Entry>, v: string) returns (order: Order)
    requires v in KnownVersions(digit, files) && forall u :: u in KnownVersions(digit, files) ==> AtMost(digit, u, v)
    ensures Enumerates(order) && IsLatest(Ranked(digit, order, files), v)
  {
    hide KnownVersions, AtMost;
    var versions := KnownVersions(digit, files);
    var front := Listing(versions - {v});
    assert multiset(versions) == multiset(versions - {v}) + multiset{v};
    order := OrderWith(versions, front + [v]);
    OrderWithEnumerates(versions, front + [v]);
    assert forall u :: u in front ==> u in multiset(versions - {v});
    NewestStaysLast(digit, front, v);
  }

  /** A listing of the versions that ends in the two given ones. */
  lemma ListedLast(versions: set<string>, v: string, t: string) returns (front: seq<string>)
    requires v in versions && t in versions && v != t
    ensures multiset(front + [v] + [t]) == multiset(versions)
    ensures forall u :: u in front ==> u in versions && u != t
  {
    front := Listing(versions - {v} - {t});
    assert multiset(versions) == multiset(versions - {v} - {t}) + multiset{v} + multiset{t};
    assert forall u :: u in front ==> u in multiset(versions - {v} - {t});
  }

  /** A version that only `t` may exceed can be made the previous one, before `t`. */
  lemma CanBePrevious(digit: Digits, files: seq<Entry>, v: string, t: string) returns (order: Order)
    requires v in KnownVersions(digit, files) && t in KnownVersions(digit, files) && v != t && AtMost(digit, v, t)
    requires forall u :: u in KnownVersions(digit, files) && u != t ==> AtMost(digit, u, v)
    ensures Enumerates(order) && IsLatest(Ranked(digit, order, files), t) && IsPrevious(Ranked(digit, order, files), v)
  {
    hide KnownVersions, AtMost, Enumerates;
    var versions := KnownVersions(digit, files);
    var front := ListedLast(versions, v, t);
    order := OrderWith(versions, front + [v] + [t]);
    OrderWithEnumerates(versions, front + [v] + [t]);
    NewestStaysLast(digit, front, v);
    forall u | u in front + [v] ensures AtMost(digit, u, t) {
      if u in front {
        NotBetween(digit, u, v, t);
      }
    }
    NewestStaysLast(digit, front + [v], t);
  }

  lemma NewerIsAbove(digit: Digits, v: string, t: string)
    requires !AtMost(digit, t, v)
    ensures AtMost(digit, v, t) && v != t
  {
    hide RankOf;
  }

  lemma SameRank(digit: Digits, v: string, w: string)
    requires RankOf(digit, v) == RankOf(digit, w)
    ensures forall u :: AtMost(digit, u, v) == AtMost(digit, u, w)
  {
  }

  lemma VersionIsKnown(digit: Digits, files: seq<Entry>, i: nat)
    requires i < |files| && Known(digit, files[i])
    ensures files[i].version.value in KnownVersions(digit, files)
  {
  }

  lemma {:induction false} RepresentativeIsLeast(digit: Digits, files: seq<Entry>, i: nat)
    requires i < |files| && Distinct(Map(PathOf, files)) && Represents(digit, files, KeyOf(files[i]), i)
    ensures Least(digit, files, KeyOf(files[i]), |files|) == Some(i)
  {
    hide Known, KeyOf, Before, Least, Distinct;
    OneRepresentative(digit, files, KeyOf(files[i]), i);
  }

  /** Two orders of iteration that treat an undecided file differently. */
  lemma UndecidedDiffers(digit: Digits, pins: seq<string>, files: seq<Entry>, i: nat) returns (a: Order, b: Order)
    requires i < |files| && Distinct(Map(PathOf, files)) && IsUndecided(digit, pins, files, i)
    ensures Enumerates(a) && Enumerates(b)
    ensures Decision(digit, pins, Ranked(digit, a, files), files, i) != Decision(digit, pins, Ranked(digit, b, files), files, i)
  {
    hide Known, RankOf, Distinct, Least, Represents, KeyOf, KnownVersions, Enumerates, Ranked, AtMost;
    var e, versions := files[i], KnownVersions(digit, files);
    RepresentativeIsLeast(digit, files, i);
    Given(digit, e);
    var v := e.version.value;
    VersionIsKnown(digit, files, i);
    var w :| w in versions && w != v && RankOf(digit, w) == RankOf(digit, v);
    if TopTied(digit, versions, v) {
      SameRank(digit, v, w);
      a := CanBeLatest(digit, files, v);
      b := CanBeLatest(digit, files, w);
    } else {
      var t :| t in versions && !AtMost(digit, t, v) && forall u :: u in versions && u != t ==> AtMost(digit, u, v);
      SameRank(digit, v, w);
      NewerIsAbove(digit, v, t);
      NewerIsAbove(digit, w, t);
      a := CanBePrevious(digit, files, v, t);
      b := CanBePrevious(digit, files, w, t);
    }
  }

  // ------------------------------------------------------------- theorems

  /** The plan is the same however the set of versions is iterated, exactly if no file is left
      undecided by a tie. */
  lemma PlanIsDetermined(repo: Pathname, digit: Digits, inventory: Inventory)
    ensures
      (forall a: Order, b: Order :: Enumerates(a) && Enumerates(b) ==>
         PlanOf(repo, digit, a, inventory) == PlanOf(repo, digit, b, inventory))
      <==> (Normalized(repo, inventory).Some? && SizesAgree(digit, Normalized(repo, inventory).value.entries) ==>
              !IsAmbiguous(digit, Normalized(repo, inventory).value))
  {
    hide Normalized, SizesAgree, IsUndecided, Decisions, Decision, Ranked, Enumerates, Distinct;
    if Normalized(repo, inventory).Some? && SizesAgree(digit, Normalized(repo, inventory).value.entries) {
      var normal := Normalized(repo, inventory).value;
      NormalPathsDistinct(repo, inventory);
      if IsAmbiguous(digit, normal) {
        var i :| 0 <= i < |normal.entries| && IsUndecided(digit, normal.pins, normal.entries, i);
        var a, b := UndecidedDiffers(digit, normal.pins, normal.entries, i);
        assert PlanOf(repo, digit, a, inventory).value.entries[i] != PlanOf(repo, digit, b, inventory).value.entries[i];
      } else {
        forall a: Order, b: Order | Enumerates(a) && Enumerates(b)
          ensures PlanOf(repo, digit, a, inventory) == PlanOf(repo, digit, b, inventory)
        {
          RankedIsRanking(digit, a, normal.entries);
          RankedIsRanking(digit, b, normal.entries);
          forall i | 0 <= i < |normal.entries|
            ensures Decision(digit, normal.pins, Ranked(digit, a, normal.entries), normal.entries, i)
                    == Decision(digit, normal.pins, Ranked(digit, b, normal.entries), normal.entries, i)
          {
            DecidedRow(digit, normal.pins, normal.entries, i, Ranked(digit, a, normal.entries), Ranked(digit, b, normal.entries));
          }
          assert Decisions(digit, normal.pins, Ranked(digit, a, normal.entries), normal.entries)
              == Decisions(digit, normal.pins, Ranked(digit, b, normal.entries), normal.entries);
        }
      }
    }
  }

  /** Different known versions with different triples leave nothing open. */
  lemma DistinctTriplesDecide(digit: Digits, inventory: Inventory)
    requires
      var versions := KnownVersions(digit, inventory.entries);
      forall v, w :: v in versions && w in versions && v != w ==> RankOf(digit, v) != RankOf(digit, w)
    ensures !IsAmbiguous(digit, inventory)
  {
    hide RankOf, Represents, Known;
    forall i | 0 <= i < |inventory.entries| ensures !IsUndecided(digit, inventory.pins, inventory.entries, i) {
      var e := inventory.entries[i];
      if Known(digit, e) {
        Given(digit, e);
        assert e.version.value in KnownVersions(digit, inventory.entries);
      }
    }
  }
}
