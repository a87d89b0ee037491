/** Plans made in one run of the tool and used in another: the runs may iterate sets in
    different orders, and tied versions then decide what can be promised. */
module PlanRuns {
  import opened Texts
  import opened Inventory
  import opened Retention
  import opened RetentionLaws
  import opened VersionTies

  /** The inventory has a plan. */
  predicate IsPlannable(repo: Pathname, digit: Digits, inventory: Inventory) {
    Normalized(repo, inventory).Some? && SizesAgree(digit, Normalized(repo, inventory).value.entries)
  }

  /** Ties do not matter for the plan. */
  predicate IsDecided(repo: Pathname, digit: Digits, inventory: Inventory) {
    IsPlannable(repo, digit, inventory) ==> !IsAmbiguous(digit, Normalized(repo, inventory).value)
  }

  // --------------------------------------------------------- validation

  /** Every plan is accepted in every other run exactly if ties do not matter for it. */
  lemma PlansAreAccepted(repo: Pathname, digit: Digits, inventory: Inventory)
    ensures
      (forall a: Order, b: Order :: Enumerates(a) && Enumerates(b) && PlanOf(repo, digit, a, inventory).Some? ==>
         IsValid(repo, digit, b, PlanOf(repo, digit, a, inventory).value))
      <==> IsDecided(repo, digit, inventory)
  {
    hide Normalized, SizesAgree, IsAmbiguous, Decisions, Ranked, Enumerates, IsValid;
    PlanIsDetermined(repo, digit, inventory);
    forall a: Order, b: Order | PlanOf(repo, digit, a, inventory).Some?
      ensures IsValid(repo, digit, b, PlanOf(repo, digit, a, inventory).value)
              <==> PlanOf(repo, digit, b, inventory) == PlanOf(repo, digit, a, inventory)
    {
      ReplanningIsPlanning(repo, digit, a, b, inventory, PlanOf(repo, digit, a, inventory).value);
    }
  }

  // --------------------------------------------------------- reordering

  /** Reordered inventories have the same plan in all runs exactly if ties do not matter. */
  lemma PlanIgnoresOrder(repo: Pathname, digit: Digits, a: Inventory, b: Inventory, files: seq<Entry>)
    requires Reordered(a, b, files)
    ensures
      (forall x: Order, y: Order :: Enumerates(x) && Enumerates(y) ==>
         PlanOf(repo, digit, x, a) == PlanOf(repo, digit, y, b))
      <==> IsDecided(repo, digit, a)
  {
    hide Normalized, SizesAgree, IsAmbiguous, PlanOf, Enumerates, Reordered;
    PlanIsDetermined(repo, digit, a);
    forall y: Order ensures PlanOf(repo, digit, y, a) == PlanOf(repo, digit, y, b) {
      SameInventorySamePlan(repo, digit, y, a, b, files);
    }
  }

  // --------------------------------------------------------------- keeping

  /** Two other texts have the triple of `v`. */
  predicate HasTwoRivals(digit: Digits, versions: set<string>, v: string) {
    exists u, w :: u in versions && w in versions && u != w && u != v && w != v
                   && RankOf(digit, u) == RankOf(digit, v) && RankOf(digit, w) == RankOf(digit, v)
  }

  /** A file that a tie keeps or deletes: nothing earlier decides it, it is no `main`, and its
      version can be or not be one that its kind is kept for. */
  predicate IsUnsettled(digit: Digits, pins: seq<string>, files: seq<Entry>, i: nat)
    requires i < |files|
  {
    var e, versions := files[i], KnownVersions(digit, files);
    Known(digit, e) && e.nlink == 1 && e.source.value !in pins && Represents(digit, files, KeyOf(e), i)
    && e.kind.value != "main"
    && if e.kind.value in REPRESENTATIVE_KINDS
       then SecondTied(digit, versions, e.version.value)
            || (TopTied(digit, versions, e.version.value) && HasTwoRivals(digit, versions, e.version.value))
       else TopTied(digit, versions, e.version.value)
  }

  /** Ties do not matter for what is kept. */
  predicate IsSettled(repo: Pathname, digit: Digits, inventory: Inventory) {
    IsPlannable(repo, digit, inventory) ==>
      var normal := Normalized(repo, inventory).value;
      forall i :: 0 <= i < |normal.entries| ==> !IsUnsettled(digit, normal.pins, normal.entries, i)
  }

  /** A version tied for the latest that is neither the last nor the next to last of a ranking
      has two rivals there. */
  lemma NotAmongLastTwo(digit: Digits, versions: set<string>, s: seq<string>, v: string)
    requires IsRanking(digit, versions, s) && v in versions && TopTied(digit, versions, v)
    requires !IsLatest(s, v) && !IsPrevious(s, v)
    ensures HasTwoRivals(digit, versions, v)
  {
    hide RankOf, IsRanking, AtMost, Distinct, TopTied;
    RankingParts(digit, versions, s);
    var j :| 0 <= j < |s| && s[j] == v;
    var u, w := s[|s| - 2], s[|s| - 1];
    LastTwoDiffer(s);
    assert AtMost(digit, s[j], u) && AtMost(digit, s[j], w) && u in s && w in s;
    TopIsTop(digit, versions, v, u);
    TopIsTop(digit, versions, v, w);
    EqualRanks(digit, u, v);
    EqualRanks(digit, w, v);
  }

  lemma TopIsTop(digit: Digits, versions: set<string>, v: string, u: string)
    requires TopTied(digit, versions, v) && u in versions
    ensures AtMost(digit, u, v)
  {
  }

  /** Without an unsettled file every ranking keeps the same files. */
  lemma SettledRow(digit: Digits, pins: seq<string>, files: seq<Entry>, i: nat, r: seq<string>, s: seq<string>)
    requires i < |files| && Distinct(Map(PathOf, files)) && !IsUnsettled(digit, pins, files, i)
    requires IsRanking(digit, KnownVersions(digit, files), r) && IsRanking(digit, KnownVersions(digit, files), s)
    requires Decision(digit, pins, r, files, i).keep
    ensures Decision(digit, pins, s, files, i).keep
  {
    hide Known, RankOf, IsRanking, Distinct, Least, Represents, KeyOf, IsLatest, IsPrevious, TopTied, SecondTied,
         HasTwoRivals, KnownVersions;
    var e, versions := files[i], KnownVersions(digit, files);
    if Known(digit, e) && e.nlink == 1 {
      OneRepresentative(digit, files, KeyOf(e), i);
      Given(digit, e);
      VersionIsKnown(digit, files, i);
      var v := e.version.value;
      if IsLatest(r, v) && !IsLatest(s, v) {
        LatestDiffers(digit, versions, r, s, v);
      }
      if IsPrevious(r, v) && !IsPrevious(s, v) {
        PreviousDiffers(digit, versions, r, s, v);
      }
      if TopTied(digit, versions, v) && !IsLatest(s, v) && !IsPrevious(s, v) {
        NotAmongLastTwo(digit, versions, s, v);
      }
    }
  }

  /** Two orders of iteration of which only the first keeps an unsettled file. */
  lemma UnsettledDiffers(digit: Digits, pins: seq<string>, files: seq<Entry>, i: nat) returns (a: Order, b: Order)
    requires i < |files| && Distinct(Map(PathOf, files)) && IsUnsettled(digit, pins, files, i)
    ensures Enumerates(a) && Enumerates(b)
    ensures Decision(digit, pins, Ranked(digit, a, files), files, i).keep
    ensures !Decision(digit, pins, Ranked(digit, b, files), files, i).keep
  {
    hide Known, RankOf, Distinct, Least, Represents, KeyOf, KnownVersions, Enumerates, Ranked, AtMost;
    var e, versions := files[i], KnownVersions(digit, files);
    RepresentativeIsLeast(digit, files, i);
    Given(digit, e);
    var v := e.version.value;
    VersionIsKnown(digit, files, i);
    if e.kind.value !in REPRESENTATIVE_KINDS {
      var w :| w in versions && w != v && RankOf(digit, w) == RankOf(digit, v);
      SameRank(digit, v, w);
      a := CanBeLatest(digit, files, v);
      b := CanBeLatest(digit, files, w);
    } else if SecondTied(digit, versions, v) {
      var w :| w in versions && w != v && RankOf(digit, w) == RankOf(digit, v);
      var t :| t in versions && !AtMost(digit, t, v) && forall u :: u in versions && u != t ==> AtMost(digit, u, v);
      SameRank(digit, v, w);
      NewerIsAbove(digit, v, t);
      NewerIsAbove(digit, w, t);
      a := CanBePrevious(digit, files, v, t);
      b := CanBePrevious(digit, files, w, t);
    } else {
      var u, w :| u in versions && w in versions && u != w && u != v && w != v
                  && RankOf(digit, u) == RankOf(digit, v) && RankOf(digit, w) == RankOf(digit, v);
      SameRank(digit, v, u);
      SameRank(digit, v, w);
      a := CanBeLatest(digit, files, v);
      b := CanBePrevious(digit, files, u, w);
    }
  }

  // ------------------------------------------------------------------ pins

  /** A plan with more pins than the inventory keeps what a plan of the inventory keeps. */
  predicate Protects(repo: Pathname, digit: Digits, x: Order, y: Order, inventory: Inventory, more: seq<string>) {
    var before, after := PlanOf(repo, digit, x, inventory), PlanOf(repo, digit, y, inventory.(pins := more));
    before.Some? ==>
      after.Some? && Files(after.value) == Files(before.value)
      && forall i :: 0 <= i < |before.value.entries| && before.value.entries[i].keep ==> after.value.entries[i].keep
  }

  predicate IsExtended(pins: seq<string>, more: seq<string>) {
    IsNamed(more) && forall p :: p in pins ==> p in more
  }

  /** What one run keeps another keeps, if ties do not matter for it. */
  lemma KeptInAllRuns(repo: Pathname, digit: Digits, x: Order, y: Order, inventory: Inventory)
    requires Enumerates(x) && Enumerates(y) && IsSettled(repo, digit, inventory)
    ensures Protects(repo, digit, x, y, inventory, inventory.pins)
  {
    hide Normalized, SizesAgree, IsUnsettled, Decision, Ranked, Enumerates, Distinct, KnownVersions, IsRanking;
    assert inventory.(pins := inventory.pins) == inventory;
    if PlanOf(repo, digit, x, inventory).Some? {
      var normal := Normalized(repo, inventory).value;
      PlanParts(repo, digit, x, inventory, PlanOf(repo, digit, x, inventory).value);
      PlanParts(repo, digit, y, inventory, PlanOf(repo, digit, y, inventory).value);
      RankedIsRanking(digit, x, normal.entries);
      RankedIsRanking(digit, y, normal.entries);
      forall i | 0 <= i < |normal.entries| && Decision(digit, normal.pins, Ranked(digit, x, normal.entries), normal.entries, i).keep
        ensures Decision(digit, normal.pins, Ranked(digit, y, normal.entries), normal.entries, i).keep
      {
        SettledRow(digit, normal.pins, normal.entries, i, Ranked(digit, x, normal.entries), Ranked(digit, y, normal.entries));
      }
    }
  }

  /** Adding pins never deletes a file that another run kept, exactly if ties do not matter for
      what the inventory keeps. */
  lemma PinsOnlyProtect(repo: Pathname, digit: Digits, inventory: Inventory)
    ensures
      (forall x: Order, y: Order, more: seq<string> :: Enumerates(x) && Enumerates(y) && IsExtended(inventory.pins, more) ==>
         Protects(repo, digit, x, y, inventory, more))
      <==> IsSettled(repo, digit, inventory)
  {
    hide PlanOf, Enumerates, IsSettled, IsExtended;
    if IsSettled(repo, digit, inventory) {
      forall x: Order, y: Order, more: seq<string> | Enumerates(x) && Enumerates(y) && IsExtended(inventory.pins, more)
        ensures Protects(repo, digit, x, y, inventory, more)
      {
        KeptInAllRuns(repo, digit, x, y, inventory);
        MorePinsInOneOrder(repo, digit, y, inventory, more);
      }
    } else {
      var x, y := TiesDelete(repo, digit, inventory);
      assert !Protects(repo, digit, x, y, inventory, inventory.pins);
    }
  }

  lemma MorePinsInOneOrder(repo: Pathname, digit: Digits, order: Order, inventory: Inventory, more: seq<string>)
    requires IsExtended(inventory.pins, more)
    ensures Protects(repo, digit, order, order, inventory, more)
  {
    hide PlanOf;
    if PlanOf(repo, digit, order, inventory).Some? {
      PinsProtectInOneOrder(repo, digit, order, inventory, more, PlanOf(repo, digit, order, inventory).value);
    }
  }

  lemma NormalizedHasPins(repo: Pathname, inventory: Inventory)
    requires Normalized(repo, inventory).Some?
    ensures IsNamed(inventory.pins)
  {
    hide AreRoots, AreEntries, Distinct, Canonical;
  }

  /** Two runs of which the second deletes what the first kept. */
  lemma TiesDelete(repo: Pathname, digit: Digits, inventory: Inventory) returns (x: Order, y: Order)
    requires !IsSettled(repo, digit, inventory)
    ensures Enumerates(x) && Enumerates(y) && IsExtended(inventory.pins, inventory.pins)
    ensures !Protects(repo, digit, x, y, inventory, inventory.pins)
  {
    hide Normalized, SizesAgree, IsUnsettled, Decision, Ranked, Enumerates, Distinct;
    NormalizedHasPins(repo, inventory);
    var normal := Normalized(repo, inventory).value;
    NormalPathsDistinct(repo, inventory);
    var i :| 0 <= i < |normal.entries| && IsUnsettled(digit, normal.pins, normal.entries, i);
    x, y := UnsettledDiffers(digit, normal.pins, normal.entries, i);
    assert inventory.(pins := inventory.pins) == inventory;
    assert PlanOf(repo, digit, x, inventory).value.entries[i].keep && !PlanOf(repo, digit, y, inventory).value.entries[i].keep;
  }
}
