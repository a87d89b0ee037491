/** The planner's own loops: tiers assigned in place, entries grouped in a dictionary, and
    duplicates marked group by group. */
module Planner {
  import opened ByteStrings
  import opened Texts
  import opened Inventory
  import opened Retention
  import opened RetentionLaws

  /** The first loop: every row gets its tier, in place. */
  method AssignTiers(digit: Digits, pins: seq<string>, ranked: seq<string>, rows: array<Planned>)
    modifies rows
    ensures forall i :: 0 <= i < rows.Length ==> rows[i] == Tiered(digit, pins, ranked, old(rows[i].entry))
  {
    hide Known, IsLatest, IsPrevious;
    for k := 0 to rows.Length
      invariant forall i :: 0 <= i < k ==> rows[i] == Tiered(digit, pins, ranked, old(rows[i].entry))
      invariant forall i :: k <= i < rows.Length ==> rows[i] == old(rows[i])
    {
      var e := rows[k].entry;
      var keep, reason := true, UnknownProvenance;
      if Known(digit, e) {
        KnownFields(digit, e);
        if e.nlink != 1 {
          reason := MultipleLinks;
        } else if e.source.value in pins {
          reason := PinnedSource;
        } else if IsLatest(ranked, e.version.value) {
          reason := LatestVersion;
        } else if IsPrevious(ranked, e.version.value) && e.kind.value in REPRESENTATIVE_KINDS {
          reason := PreviousRepresentative;
        } else if e.kind.value == "main" {
          reason := OlderMain;
        } else {
          keep, reason := false, OlderRebuildable;
        }
      }
      rows[k] := Planned(e, keep, reason);
    }
  }

  lemma KnownFields(digit: Digits, e: Entry)
    requires Known(digit, e)
    ensures e.source.Some? && e.version.Some? && e.kind.Some?
  {
  }

  /** `group` lists the members of the group among the first `n` entries. */
  ghost predicate Lists(digit: Digits, entries: seq<Entry>, key: Key, group: seq<nat>, n: nat)
    requires n <= |entries|
  {
    (forall a :: 0 <= a < |group| ==> group[a] < n && InGroup(digit, key, entries[group[a]]))
    && (forall j: nat :: j < n && InGroup(digit, key, entries[j]) ==> j in group)
  }

  /** What is known of the dictionary after the first `n` entries. */
  ghost predicate Grouped(digit: Digits, entries: seq<Entry>, groups: map<Key, seq<nat>>, keys: seq<Key>, n: nat)
    requires n <= |entries|
  {
    (forall key :: key in groups <==> key in keys)
    && (forall key :: key in groups ==> groups[key] != [] && Lists(digit, entries, key, groups[key], n))
    && (forall j :: 0 <= j < n && Known(digit, entries[j]) ==> KeyOf(entries[j]) in groups)
  }

  /** The second loop: the known entries by identity, the groups in order of first member. */
  method GroupEntries(digit: Digits, entries: seq<Entry>) returns (groups: map<Key, seq<nat>>, keys: seq<Key>)
    ensures Grouped(digit, entries, groups, keys, |entries|)
  {
    hide Known, KeyOf, Lists;
    groups, keys := map[], [];
    for k := 0 to |entries|
      invariant Grouped(digit, entries, groups, keys, k)
    {
      var e := entries[k];
      if Known(digit, e) {
        var key := KeyOf(e);
        var group := if key in groups then groups[key] else [];
        GroupedNext(digit, entries, groups, keys, k);
        keys := if key in groups then keys else keys + [key];
        groups := groups[key := group + [k]];
      } else {
        GroupedSkips(digit, entries, groups, keys, k);
      }
    }
  }

  lemma ListsNext(digit: Digits, entries: seq<Entry>, key: Key, group: seq<nat>, k: nat)
    requires k < |entries| && Lists(digit, entries, key, group, k)
    ensures InGroup(digit, key, entries[k]) ==> Lists(digit, entries, key, group + [k], k + 1)
    ensures !InGroup(digit, key, entries[k]) ==> Lists(digit, entries, key, group, k + 1)
  {
    hide InGroup;
  }

  lemma GroupedSkips(digit: Digits, entries: seq<Entry>, groups: map<Key, seq<nat>>, keys: seq<Key>, k: nat)
    requires k < |entries| && Grouped(digit, entries, groups, keys, k) && !Known(digit, entries[k])
    ensures Grouped(digit, entries, groups, keys, k + 1)
  {
    hide Known, KeyOf, Lists;
    forall key | key in groups ensures Lists(digit, entries, key, groups[key], k + 1) {
      ListsNext(digit, entries, key, groups[key], k);
    }
  }

  lemma GroupedNext(digit: Digits, entries: seq<Entry>, groups: map<Key, seq<nat>>, keys: seq<Key>, k: nat)
    requires k < |entries| && Grouped(digit, entries, groups, keys, k) && Known(digit, entries[k])
    ensures
      var key := KeyOf(entries[k]);
      var group := if key in groups then groups[key] else [];
      Grouped(digit, entries, groups[key := group + [k]], if key in groups then keys else keys + [key], k + 1)
  {
    hide Known, KeyOf, Lists;
    var key := KeyOf(entries[k]);
    var group := if key in groups then groups[key] else [];
    var next, nextKeys := groups[key := group + [k]], if key in groups then keys else keys + [key];
    NewGroup(digit, entries, groups, key, k);
    forall other | other in next ensures next[other] != [] && Lists(digit, entries, other, next[other], k + 1) {
      if other == key {
        ListsNext(digit, entries, key, group, k);
      } else {
        ListsNext(digit, entries, other, groups[other], k);
      }
    }
    assert forall other :: other in next <==> other in groups || other == key;
    assert forall other :: other in nextKeys <==> other in keys || other == key;
    assert forall j :: 0 <= j < k + 1 && Known(digit, entries[j]) ==> KeyOf(entries[j]) in next;
  }

  lemma NewGroup(digit: Digits, entries: seq<Entry>, groups: map<Key, seq<nat>>, key: Key, k: nat)
    requires k <= |entries|
    requires forall j :: 0 <= j < k && Known(digit, entries[j]) ==> KeyOf(entries[j]) in groups
    requires key in groups ==> Lists(digit, entries, key, groups[key], k)
    ensures Lists(digit, entries, key, if key in groups then groups[key] else [], k)
  {
    hide Known, KeyOf;
  }

  /** `min` over a group. */
  method ChooseCanonical(ghost digit: Digits, entries: seq<Entry>, ghost key: Key, group: seq<nat>) returns (c: nat)
    requires group != [] && Lists(digit, entries, key, group, |entries|)
    ensures Represents(digit, entries, key, c)
  {
    hide Before, InGroup;
    c := group[0];
    BeforeIsTotal(entries[c], entries[c]);
    for k := 1 to |group|
      invariant c in group && c < |entries| && InGroup(digit, key, entries[c])
      invariant forall i :: 0 <= i < k ==> Before(entries[c], entries[group[i]])
    {
      BeforeIsTotal(entries[c], entries[group[k]]);
      BeforeIsTotal(entries[group[k]], entries[group[k]]);
      if !Before(entries[c], entries[group[k]]) {
        forall i | 0 <= i < k ensures Before(entries[group[k]], entries[group[i]]) {
          BeforeIsTransitive(entries[group[k]], entries[c], entries[group[i]]);
        }
        c := group[k];
      }
    }
  }

  /** The single-link members of a group other than its representative go. */
  method MarkDuplicates(entries: seq<Entry>, group: seq<nat>, c: nat, rows: array<Planned>)
    requires rows.Length == |entries| && c < |entries|
    requires forall a :: 0 <= a < |group| ==> group[a] < |entries|
    modifies rows
    ensures forall i :: 0 <= i < rows.Length ==>
              rows[i] == if i in group && i != c && entries[i].nlink == 1
                         then Planned(entries[i], false, DuplicateOf(entries[c].path)) else old(rows[i])
  {
    for k := 0 to |group|
      invariant forall i :: 0 <= i < rows.Length ==>
                  rows[i] == if i in group[..k] && i != c && entries[i].nlink == 1
                             then Planned(entries[i], false, DuplicateOf(entries[c].path)) else old(rows[i])
    {
      var i := group[k];
      assert group[..k + 1] == group[..k] + [i];
      if i != c && entries[i].nlink == 1 {
        rows[i] := Planned(entries[i], false, DuplicateOf(entries[c].path));
      }
    }
    assert group[..|group|] == group;
  }

  /** Row `i` once the groups in `done` have been dealt with. */
  ghost function Settled(digit: Digits, pins: seq<string>, ranked: seq<string>, entries: seq<Entry>,
                         done: seq<Key>, i: nat): Planned
    requires i < |entries|
  {
    if Known(digit, entries[i]) && KeyOf(entries[i]) in done then Decision(digit, pins, ranked, entries, i)
    else Tiered(digit, pins, ranked, entries[i])
  }

  ghost predicate SizesSettled(digit: Digits, entries: seq<Entry>, done: seq<Key>) {
    forall i, j :: 0 <= i < |entries| && 0 <= j < |entries| && KeyOf(entries[i]) in done ==>
                     SameSize(digit, entries[i], entries[j])
  }

  predicate SameSize(digit: Digits, a: Entry, b: Entry) {
    SameGroup(digit, a, b) ==> a.size == b.size
  }

  /** One more group dealt with. */
  lemma GroupSettled(digit: Digits, pins: seq<string>, ranked: seq<string>, entries: seq<Entry>,
                     done: seq<Key>, key: Key, c: nat, i: nat)
    requires Distinct(Map(PathOf, entries)) && Represents(digit, entries, key, c) && i < |entries|
    ensures
      Settled(digit, pins, ranked, entries, done + [key], i)
      == if InGroup(digit, key, entries[i]) && i != c && entries[i].nlink == 1
         then Planned(entries[i], false, DuplicateOf(entries[c].path))
         else Settled(digit, pins, ranked, entries, done, i)
  {
    hide Known, Tiered, Before, Distinct, Least;
    OneRepresentative(digit, entries, key, c);
    assert KeyOf(entries[i]) in done + [key] <==> KeyOf(entries[i]) in done || KeyOf(entries[i]) == key;
  }

  lemma SizesSettledNext(digit: Digits, entries: seq<Entry>, done: seq<Key>, key: Key, group: seq<nat>, size: int)
    requires Lists(digit, entries, key, group, |entries|)
    requires forall a :: 0 <= a < |group| ==> entries[group[a]].size == size
    requires SizesSettled(digit, entries, done)
    ensures SizesSettled(digit, entries, done + [key])
  {
    hide Known, KeyOf;
    forall i, j | 0 <= i < |entries| && 0 <= j < |entries| && KeyOf(entries[i]) in done + [key]
      ensures SameSize(digit, entries[i], entries[j])
    {
      if KeyOf(entries[i]) == key {
        assert InGroup(digit, key, entries[j]) ==> entries[j].size == size;
        assert InGroup(digit, key, entries[i]) ==> entries[i].size == size;
      }
    }
  }

  lemma SizesDiffer(digit: Digits, entries: seq<Entry>, key: Key, group: seq<nat>, c: nat, a: nat)
    requires Lists(digit, entries, key, group, |entries|) && c < |entries| && InGroup(digit, key, entries[c])
    requires a < |group| && entries[group[a]].size != entries[c].size
    ensures !SizesAgree(digit, entries)
  {
    hide Known, KeyOf;
    assert SameGroup(digit, entries[c], entries[group[a]]);
  }

  /** With every group dealt with, the sizes agree and every row is decided. */
  lemma AllSettled(digit: Digits, pins: seq<string>, ranked: seq<string>, entries: seq<Entry>,
                   groups: map<Key, seq<nat>>, keys: seq<Key>)
    requires Grouped(digit, entries, groups, keys, |entries|) && SizesSettled(digit, entries, keys)
    ensures SizesAgree(digit, entries)
    ensures forall i :: 0 <= i < |entries| ==>
              Settled(digit, pins, ranked, entries, keys, i) == Decision(digit, pins, ranked, entries, i)
  {
    hide Known, Tiered, KeyOf, Least, Lists;
    forall i, j | 0 <= i < |entries| && 0 <= j < |entries| && SameGroup(digit, entries[i], entries[j])
      ensures entries[i].size == entries[j].size
    {
      assert SameSize(digit, entries[i], entries[j]);
    }
  }

  /** The third loop: the duplicates in every group, unless a group disagrees about its size. */
  method SettleGroups(ghost digit: Digits, ghost pins: seq<string>, ghost ranked: seq<string>, entries: seq<Entry>,
                      groups: map<Key, seq<nat>>, keys: seq<Key>, rows: array<Planned>) returns (ok: bool)
    requires Distinct(Map(PathOf, entries)) && rows.Length == |entries|
    requires Grouped(digit, entries, groups, keys, |entries|)
    requires forall i :: 0 <= i < |entries| ==> rows[i] == Tiered(digit, pins, ranked, entries[i])
    modifies rows
    ensures ok == SizesAgree(digit, entries)
    ensures ok ==> rows[..] == Decisions(digit, pins, ranked, entries)
  {
    hide Known, Tiered, Before, Distinct, Settled, SizesSettled, KeyOf, SizesAgree, Lists, Decision, Represents;
    NothingSettled(digit, pins, ranked, entries);
    for k := 0 to |keys|
      invariant forall i :: 0 <= i < |entries| ==> rows[i] == Settled(digit, pins, ranked, entries, keys[..k], i)
      invariant SizesSettled(digit, entries, keys[..k])
    {
      ok := SettleGroup(digit, pins, ranked, entries, keys[..k], keys[k], groups[keys[k]], rows);
      if !ok {
        return;
      }
      assert keys[..k + 1] == keys[..k] + [keys[k]];
    }
    assert keys[..|keys|] == keys;
    AllSettled(digit, pins, ranked, entries, groups, keys);
    ok := true;
  }

  lemma NothingSettled(digit: Digits, pins: seq<string>, ranked: seq<string>, entries: seq<Entry>)
    ensures SizesSettled(digit, entries, [])
    ensures forall i :: 0 <= i < |entries| ==>
              Settled(digit, pins, ranked, entries, [], i) == Tiered(digit, pins, ranked, entries[i])
  {
  }

  /** One round of the third loop. */
  method SettleGroup(ghost digit: Digits, ghost pins: seq<string>, ghost ranked: seq<string>, entries: seq<Entry>,
                     ghost done: seq<Key>, ghost key: Key, group: seq<nat>, rows: array<Planned>) returns (ok: bool)
    requires Distinct(Map(PathOf, entries)) && rows.Length == |entries|
    requires group != [] && Lists(digit, entries, key, group, |entries|) && SizesSettled(digit, entries, done)
    requires forall i :: 0 <= i < |entries| ==> rows[i] == Settled(digit, pins, ranked, entries, done, i)
    modifies rows
    ensures !ok ==> !SizesAgree(digit, entries)
    ensures ok ==> SizesSettled(digit, entries, done + [key])
    ensures ok ==> forall i :: 0 <= i < |entries| ==> rows[i] == Settled(digit, pins, ranked, entries, done + [key], i)
  {
    hide Known, Tiered, Before, Distinct, Settled, SizesSettled, KeyOf, SizesAgree, InGroup;
    var c := ChooseCanonical(digit, entries, key, group);
    for k := 0 to |group|
      invariant forall a :: 0 <= a < k ==> entries[group[a]].size == entries[c].size
      invariant forall i :: 0 <= i < |entries| ==> rows[i] == Settled(digit, pins, ranked, entries, done, i)
    {
      if entries[group[k]].size != entries[c].size {
        SizesDiffer(digit, entries, key, group, c, k);
        return false;
      }
    }
    SizesSettledNext(digit, entries, done, key, group, entries[c].size);
    forall i | 0 <= i < |entries|
      ensures Settled(digit, pins, ranked, entries, done + [key], i)
              == if i in group && i != c && entries[i].nlink == 1
                 then Planned(entries[i], false, DuplicateOf(entries[c].path))
                 else Settled(digit, pins, ranked, entries, done, i)
    {
      GroupSettled(digit, pins, ranked, entries, done, key, c, i);
      assert InGroup(digit, key, entries[i]) <==> i in group;
    }
    MarkDuplicates(entries, group, c, rows);
    ok := true;
  }

  /** The planner: the checks, the tiers, the groups and the duplicates, in that order. */
  method MakePlan(repo: Pathname, digit: Digits, order: Order, inventory: Inventory) returns (plan: Option<Plan>)
    ensures plan == PlanOf(repo, digit, order, inventory)
  {
    hide Normalized, Ranked, Distinct, Tiered, Decision, SizesAgree, Grouped, Decisions;
    var normal := Normalize(repo, inventory);
    if normal.None? {
      return None;
    }
    var pins, entries := normal.value.pins, normal.value.entries;
    NormalPathsDistinct(repo, inventory);
    var ranked := Ranked(digit, order, entries);
    var rows := new Planned[|entries|](i requires 0 <= i < |entries| => Planned(entries[i], true, UnknownProvenance));
    AssignTiers(digit, pins, ranked, rows);
    var groups, keys := GroupEntries(digit, entries);
    var ok := SettleGroups(digit, pins, ranked, entries, groups, keys, rows);
    plan := if ok then Some(Plan(normal.value.roots, pins, rows[..])) else None;
  }

  /** A plan is accepted if planning its own entries again gives the same plan: if some
      inventory is planned like that. */
  method ValidatePlan(repo: Pathname, digit: Digits, order: Order, plan: Plan) returns (ok: bool)
    ensures ok == IsValid(repo, digit, order, plan)
    ensures ok <==> exists inventory :: PlanOf(repo, digit, order, inventory) == Some(plan)
  {
    hide PlanOf, Stripped;
    ValidPlansAreMade(repo, digit, order, plan);
    var again := MakePlan(repo, digit, order, Stripped(plan));
    ok := again == Some(plan);
  }
}
