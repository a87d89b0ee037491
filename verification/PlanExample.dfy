/** Two artifacts in two versions: the plan keeps the newer one and deletes the older. */
module PlanExample {
  import opened ByteStrings
  import opened Texts
  import opened Inventory
  import opened Retention
  import opened RetentionLaws
  import opened TieExample
  import opened VersionTies
  import opened PlanRules

  /** The usual reading of the characters of the example. */
  predicate ReadsVersions(digit: Digits) {
    digit('0') == Some(0) && digit('1') == Some(1) && digit('2') == Some(2) && digit('.') == None
  }

  lemma VersionsRead(digit: Digits)
    requires ReadsVersions(digit)
    ensures TripleOf(digit, "1.0.0") == Some(Triple(1, 0, 0)) && TripleOf(digit, "2.0.0") == Some(Triple(2, 0, 0))
    ensures TripleOf(digit, "10.2.0") == Some(Triple(10, 2, 0))
  {
    hide TripleOf;
    assert "1.0.0" == "1" + "." + "0" + "." + "0" && "2.0.0" == "2" + "." + "0" + "." + "0";
    VersionRead(digit, "1.0.0", "1", "0", "0");
    VersionRead(digit, "2.0.0", "2", "0", "0");
    assert "10.2.0" == "10" + "." + "2" + "." + "0" && "10"[1..] == "0";
    VersionRead(digit, "10.2.0", "10", "2", "0");
  }

  lemma PairIsKnown(digit: Digits, v: string, w: string)
    requires TripleOf(digit, v).Some? && TripleOf(digit, w).Some?
    ensures Known(digit, Artifact("a", v)) && Known(digit, Artifact("b", w))
    ensures Artifact("a", v).source == Some("s") && Artifact("a", v).kind == Some("test")
    ensures Artifact("b", w).source == Some("s") && Artifact("b", w).kind == Some("test")
  {
    hide TripleOf, PathText;
  }

  /** What the plan says of the newer of two artifacts, and of the older. */
  lemma NewerIsKept(digit: Digits, files: seq<Entry>, row: Planned, other: Entry)
    requires ObeysRule(digit, [], files, row) && (files == [row.entry, other] || files == [other, row.entry])
    requires Known(digit, row.entry) && Known(digit, other) && row.entry.nlink == 1 && row.entry.kind == Some("test")
    requires row.entry.version != other.version
    ensures IsNewer(NumbersOf(digit, row.entry), NumbersOf(digit, other)) ==> row == Planned(row.entry, true, LatestVersion)
    ensures IsNewer(NumbersOf(digit, other), NumbersOf(digit, row.entry)) ==> row == Planned(row.entry, false, OlderRebuildable)
  {
    hide Known, NumbersOf, IsPreferred;
    var e := row.entry;
    Given(digit, e);
    Given(digit, other);
    assert !HasBetterCopy(digit, files, e);
    if IsNewer(NumbersOf(digit, e), NumbersOf(digit, other)) {
      assert NotOlderThan(digit, files, e) == {};
    }
    if IsNewer(NumbersOf(digit, other), NumbersOf(digit, e)) {
      assert other.version.value in NewerThan(digit, files, e);
      assert NewerThan(digit, files, e) != {};
    }
  }

  lemma PairHasPlan(repo: Pathname, digit: Digits, order: Order, v: string, w: string)
    requires TripleOf(digit, v).Some? && TripleOf(digit, w).Some? && v != w
    ensures PlanOf(repo, digit, order, Pair(v, w)).Some?
    ensures Files(PlanOf(repo, digit, order, Pair(v, w)).value) == [Artifact("a", v), Artifact("b", w)]
  {
    hide TripleOf, Normalized, Decisions, Artifact, SizesAgree, Known;
    PairIsCanonical(repo, v, w);
    PairIsKnown(digit, v, w);
    SizesDecide(repo, digit, order, Pair(v, w));
    SameSize(v, w);
    var plan := PlanOf(repo, digit, order, Pair(v, w)).value;
    PlanParts(repo, digit, order, Pair(v, w), plan);
  }

  lemma SameSize(v: string, w: string)
    ensures Artifact("a", v).size == Artifact("b", w).size == 1
    ensures Artifact("a", v).nlink == Artifact("b", w).nlink == 1
    ensures Artifact("a", v).version == Some(v) && Artifact("b", w).version == Some(w)
  {
    hide PathText;
  }

  /** Of two test artifacts the one with the greater numbers is kept as the latest version, and
      the other goes, whatever their names, and in whatever order the versions are iterated. */
  lemma NewerOfTwo(repo: Pathname, digit: Digits, order: Order, v: string, w: string)
    requires Enumerates(order) && TripleOf(digit, v).Some? && TripleOf(digit, w).Some?
    requires IsNewer(TripleOf(digit, v).value, TripleOf(digit, w).value)
    ensures
      PlanOf(repo, digit, order, Pair(v, w))
      == Some(Plan([PathText(ROOT)], [], [Planned(Artifact("a", v), true, LatestVersion),
                                          Planned(Artifact("b", w), false, OlderRebuildable)]))
    ensures
      PlanOf(repo, digit, order, Pair(w, v))
      == Some(Plan([PathText(ROOT)], [], [Planned(Artifact("a", w), false, OlderRebuildable),
                                          Planned(Artifact("b", v), true, LatestVersion)]))
  {
    hide TripleOf, PlanOf, Artifact, Known, ObeysRule, Enumerates;
    RowsOfTwo(repo, digit, order, v, w);
    RowsOfTwo(repo, digit, order, w, v);
  }

  lemma RowsOfTwo(repo: Pathname, digit: Digits, order: Order, v: string, w: string)
    requires Enumerates(order) && TripleOf(digit, v).Some? && TripleOf(digit, w).Some?
    requires IsNewer(TripleOf(digit, v).value, TripleOf(digit, w).value) || IsNewer(TripleOf(digit, w).value, TripleOf(digit, v).value)
    ensures
      var plan := PlanOf(repo, digit, order, Pair(v, w));
      var first := IsNewer(TripleOf(digit, v).value, TripleOf(digit, w).value);
      plan == Some(Plan([PathText(ROOT)], [],
                        [Planned(Artifact("a", v), first, if first then LatestVersion else OlderRebuildable),
                         Planned(Artifact("b", w), !first, if first then OlderRebuildable else LatestVersion)]))
  {
    hide TripleOf, PlanOf, Artifact, Known, ObeysRule, Enumerates, PathText;
    var a, b := Artifact("a", v), Artifact("b", w);
    PairHasPlan(repo, digit, order, v, w);
    PairIsKnown(digit, v, w);
    SameSize(v, w);
    var plan := PlanOf(repo, digit, order, Pair(v, w)).value;
    assert Files(plan)[0] == plan.entries[0].entry && Files(plan)[1] == plan.entries[1].entry;
    PairPlanHead(repo, digit, order, v, w, plan);
    RowsObeyRule(repo, digit, order, Pair(v, w), plan, 0);
    RowsObeyRule(repo, digit, order, Pair(v, w), plan, 1);
    NewerIsKept(digit, Files(plan), plan.entries[0], b);
    NewerIsKept(digit, Files(plan), plan.entries[1], a);
    assert plan == Plan(plan.roots, plan.pins, [plan.entries[0], plan.entries[1]]);
  }

  lemma PairPlanHead(repo: Pathname, digit: Digits, order: Order, v: string, w: string, plan: Plan)
    requires PlanOf(repo, digit, order, Pair(v, w)) == Some(plan)
    ensures plan.roots == [PathText(ROOT)] && plan.pins == []
  {
    hide Normalized, Decisions, Artifact, SizesAgree, PathText;
    PairIsCanonical(repo, v, w);
  }

  /** So `2.0.0` is kept and `1.0.0` deleted; and `10.2.0` is newer than `2.0.0`, although its
      text comes first. */
  lemma TwoVersionPlans(repo: Pathname, digit: Digits, order: Order)
    requires Enumerates(order) && ReadsVersions(digit)
    ensures
      PlanOf(repo, digit, order, Pair("1.0.0", "2.0.0"))
      == Some(Plan([PathText(ROOT)], [], [Planned(Artifact("a", "1.0.0"), false, OlderRebuildable),
                                          Planned(Artifact("b", "2.0.0"), true, LatestVersion)]))
    ensures
      PlanOf(repo, digit, order, Pair("10.2.0", "2.0.0"))
      == Some(Plan([PathText(ROOT)], [], [Planned(Artifact("a", "10.2.0"), true, LatestVersion),
                                          Planned(Artifact("b", "2.0.0"), false, OlderRebuildable)]))
  {
    hide TripleOf, PlanOf, Artifact, PathText;
    VersionsRead(digit);
    NewerOfTwo(repo, digit, order, "2.0.0", "1.0.0");
    NewerOfTwo(repo, digit, order, "10.2.0", "2.0.0");
  }
}
