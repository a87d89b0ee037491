/** What a retention plan promises: the rule behind its loops, and what holds as long as every
    set is iterated in the same order. */
module RetentionLaws {
  import opened ByteStrings
  import opened Sorting
  import opened Texts
  import opened Inventory
  import opened Retention

  /** The canonical entries a plan is about. */
  function Files(plan: Plan): seq<Entry> {
    Map(EntryOf, plan.entries)
  }

  lemma DecisionsKeepEntries(digit: Digits, pins: seq<string>, ranked: seq<string>, entries: seq<Entry>)
    ensures Map(EntryOf, Decisions(digit, pins, ranked, entries)) == entries
  {
  }

  /** A plan lists the canonical entries, each with its decision. */
  lemma PlanParts(repo: Pathname, digit: Digits, order: Order, inventory: Inventory, plan: Plan)
    requires PlanOf(repo, digit, order, inventory) == Some(plan)
    ensures Normalized(repo, inventory) == Some(Stripped(plan)) && SizesAgree(digit, Files(plan))
    ensures plan.entries == Decisions(digit, plan.pins, Ranked(digit, order, Files(plan)), Files(plan))
    ensures Distinct(Map(PathOf, Files(plan)))
  {
    hide Normalized, SizesAgree, Ranked, Decision, Distinct;
    var entries := Normalized(repo, inventory).value.entries;
    NormalPathsDistinct(repo, inventory);
    DecisionsKeepEntries(digit, plan.pins, Ranked(digit, order, entries), entries);
    assert Files(plan) == entries;
  }

  // ------------------------------------------------------------- the rule

  /** A known single-link copy that does not represent its group. */
  predicate IsSpare(digit: Digits, files: seq<Entry>, i: nat)
    requires i < |files|
  {
    Known(digit, files[i]) && files[i].nlink == 1 && !Represents(digit, files, KeyOf(files[i]), i)
  }

  /** A file goes exactly if it is spare, or known with one link and an older rebuildable one;
      `duplicate-of` names the representative of a spare file's group. */
  predicate FollowsRule(digit: Digits, tier: Reason, files: seq<Entry>, i: nat, row: Planned)
    requires i < |files|
  {
    row.entry == files[i]
    && row.keep == !(IsSpare(digit, files, i)
                     || (tier == OlderRebuildable && Known(digit, files[i]) && files[i].nlink == 1))
    && row.reason.DuplicateOf? == IsSpare(digit, files, i)
    && (if row.reason.DuplicateOf?
        then exists c | 0 <= c < |files| :: Represents(digit, files, KeyOf(files[i]), c) && row.reason.path == files[c].path
        else row.reason == tier)
  }

  /** The rule behind the tier loop and the duplicate loop, for files with distinct paths. */
  lemma DeleteRule(digit: Digits, pins: seq<string>, ranked: seq<string>, files: seq<Entry>, i: nat)
    requires Distinct(Map(PathOf, files)) && i < |files|
    ensures FollowsRule(digit, Tier(digit, pins, ranked, files[i]), files, i, Decision(digit, pins, ranked, files, i))
  {
    hide Known, Distinct, Before, Least, KeyOf, IsLatest, IsPrevious, Represents;
    var key := KeyOf(files[i]);
    if Known(digit, files[i]) {
      OneRepresentative(digit, files, key, i);
    }
  }

  // ----------------------------------------------------------------- pins

  /** Adding pins never deletes a file that was kept, if sets are iterated as before. */
  lemma PinsProtectInOneOrder(repo: Pathname, digit: Digits, order: Order, inventory: Inventory, more: seq<string>,
                        plan: Plan)
    requires PlanOf(repo, digit, order, inventory) == Some(plan)
    requires IsNamed(more) && forall p :: p in inventory.pins ==> p in more
    ensures
      var after := PlanOf(repo, digit, order, inventory.(pins := more));
      after.Some? && Files(after.value) == Files(plan)
      && forall i :: 0 <= i < |plan.entries| ==> (plan.entries[i].keep ==> after.value.entries[i].keep)
  {
    hide Ranked, Known, Distinct, Least, KeyOf, IsLatest, IsPrevious, AreRoots, AreEntries, SortBy, SortTexts,
         SizesAgree, Canonical;
    PlanParts(repo, digit, order, inventory, plan);
    NamesOnce(inventory.pins);
    NamesOnce(more);
    assert forall p :: p in plan.pins ==> p in SortTexts(more);
    var after := PlanOf(repo, digit, order, inventory.(pins := more)).value;
    PlanParts(repo, digit, order, inventory.(pins := more), after);
  }

  // --------------------------------------------------------- planning again

  /** Planning a plan's own entries is planning its inventory again, in whatever order. */
  lemma ReplanningIsPlanning(repo: Pathname, digit: Digits, order: Order, again: Order, inventory: Inventory, plan: Plan)
    requires PlanOf(repo, digit, order, inventory) == Some(plan)
    ensures IsValid(repo, digit, again, plan) <==> PlanOf(repo, digit, again, inventory) == Some(plan)
  {
    hide Normalized, SizesAgree, Ranked, Decisions;
    PlanParts(repo, digit, order, inventory, plan);
    NormalizedOnce(repo, inventory);
  }

  /** In one order the accepted plans are exactly those that planning makes. */
  lemma ValidPlansAreMade(repo: Pathname, digit: Digits, order: Order, plan: Plan)
    ensures IsValid(repo, digit, order, plan) <==> exists inventory :: PlanOf(repo, digit, order, inventory) == Some(plan)
  {
    hide PlanOf, Stripped;
    if inventory :| PlanOf(repo, digit, order, inventory) == Some(plan) {
      ReplanningIsPlanning(repo, digit, order, order, inventory, plan);
    }
  }

  /** A plan does not depend on how its inventory was ordered, if sets are iterated alike. */
  lemma SameInventorySamePlan(repo: Pathname, digit: Digits, order: Order, a: Inventory, b: Inventory, files: seq<Entry>)
    requires Reordered(a, b, files)
    ensures PlanOf(repo, digit, order, a) == PlanOf(repo, digit, order, b)
  {
    hide Normalized, SizesAgree, Ranked, Decisions, Reordered;
    NormalizedIgnoresOrder(repo, a, b, files);
  }
}
