/** Groups of copies under a retention plan: removing duplicates never removes the last copy
    worth keeping. */
module RetentionGroups {
  import opened Texts
  import opened Inventory
  import opened Retention

  /** Two single-link copies of one artifact have the same tier. */
  lemma CopiesShareTier(digit: Digits, pins: seq<string>, ranked: seq<string>, a: Entry, b: Entry)
    requires SameGroup(digit, a, b) && a.nlink == 1 && b.nlink == 1
    ensures Tier(digit, pins, ranked, a) == Tier(digit, pins, ranked, b)
  {
  }

  /** A member of the group of file `i` has a tier that keeps it. */
  predicate WorthKeeping(digit: Digits, pins: seq<string>, ranked: seq<string>, files: seq<Entry>, i: nat)
    requires i < |files|
  {
    exists j | 0 <= j < |files| :: SameGroup(digit, files[i], files[j]) && Tier(digit, pins, ranked, files[j]) != OlderRebuildable
  }

  /** The plan keeps a member of the group of file `i`. */
  predicate HasSurvivor(digit: Digits, rows: seq<Planned>, i: nat)
    requires i < |rows|
  {
    exists j | 0 <= j < |rows| :: SameGroup(digit, rows[i].entry, rows[j].entry) && rows[j].keep
  }

  /** A group keeps a member exactly if some member has a tier that keeps it: removing
      duplicates never removes the last copy worth keeping. */
  lemma GroupsSurvive(digit: Digits, pins: seq<string>, ranked: seq<string>, files: seq<Entry>, i: nat)
    requires Distinct(Map(PathOf, files)) && i < |files|
    ensures WorthKeeping(digit, pins, ranked, files, i) <==> HasSurvivor(digit, Decisions(digit, pins, ranked, files), i)
  {
    hide Known, Distinct, KeyOf, Tier, Decision, Map;
    var rows := Decisions(digit, pins, ranked, files);
    RowsAreFiles(digit, pins, ranked, files);
    if WorthKeeping(digit, pins, ranked, files, i) {
      var j :| 0 <= j < |files| && SameGroup(digit, files[i], files[j]) && Tier(digit, pins, ranked, files[j]) != OlderRebuildable;
      var c := GroupKeeps(digit, pins, ranked, files, KeyOf(files[i]), j);
      assert SameGroup(digit, rows[i].entry, rows[c].entry) && rows[c].keep;
    }
    if HasSurvivor(digit, rows, i) {
      var j :| 0 <= j < |rows| && SameGroup(digit, rows[i].entry, rows[j].entry) && rows[j].keep;
      KeptByTier(digit, pins, ranked, files, j);
      assert SameGroup(digit, files[i], files[j]);
    }
  }

  lemma RowsAreFiles(digit: Digits, pins: seq<string>, ranked: seq<string>, files: seq<Entry>)
    ensures forall j :: 0 <= j < |files| ==> Decisions(digit, pins, ranked, files)[j].entry == files[j]
  {
  }

  lemma KeptByTier(digit: Digits, pins: seq<string>, ranked: seq<string>, files: seq<Entry>, j: nat)
    requires j < |files| && Decision(digit, pins, ranked, files, j).keep
    ensures Tier(digit, pins, ranked, files[j]) != OlderRebuildable
  {
    hide Tier, Known, Least;
  }

  /** If the tier of one member keeps it, some member is kept: the representative, unless the
      member has several links. */
  lemma GroupKeeps(digit: Digits, pins: seq<string>, ranked: seq<string>, files: seq<Entry>, key: Key,
                   j: nat) returns (c: nat)
    requires j < |files| && InGroup(digit, key, files[j]) && Distinct(Map(PathOf, files))
    requires Tier(digit, pins, ranked, files[j]) != OlderRebuildable
    ensures c < |files| && InGroup(digit, key, files[c]) && Decision(digit, pins, ranked, files, c).keep
  {
    hide Known, Distinct, Before, Least, Represents, Tier, KeyOf;
    if files[j].nlink != 1 {
      c := j;
    } else {
      OneRepresentative(digit, files, key, j);
      c := Least(digit, files, key, |files|).value;
      if files[c].nlink == 1 {
        CopiesShareTier(digit, pins, ranked, files[j], files[c]);
      } else {
        LinkedStays(digit, pins, ranked, files[c]);
      }
    }
  }

  lemma LinkedStays(digit: Digits, pins: seq<string>, ranked: seq<string>, e: Entry)
    requires e.nlink != 1
    ensures Tier(digit, pins, ranked, e) != OlderRebuildable
  {
  }
}
