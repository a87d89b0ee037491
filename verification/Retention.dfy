/** The retention plan: which recorded artifacts stay, which go, and why. */
module Retention {
  import opened ByteStrings
  import opened Sorting
  import opened Texts
  import opened Inventory

  /** The value of a decimal digit character: `None` for every other character. */
  type Digits = char -> Option<nat>

  // ------------------------------------------------------------- versions

  datatype Triple = Triple(major: nat, minor: nat, patch: nat)

  function Number(digit: Digits, t: string): Option<nat>
    decreases |t|
  {
    if t == "" then None
    else
      var last := digit(t[|t| - 1]);
      if last.None? || |t| == 1 then last
      else
        var front := Number(digit, t[..|t| - 1]);
        if front.None? then None else Some(10 * front.value + last.value)
  }

  /** The first dot from index `i` on, or the length. */
  function Dot(t: string, i: nat): (k: nat)
    requires i <= |t|
    ensures i <= k <= |t|
    ensures k < |t| ==> t[k] == '.'
    decreases |t| - i
  {
    if i == |t| || t[i] == '.' then i else Dot(t, i + 1)
  }

  /** Three decimal numbers separated by dots. */
  function TripleOf(digit: Digits, t: string): Option<Triple> {
    var i := Dot(t, 0);
    if i == |t| then None
    else
      var j := Dot(t, i + 1);
      if j == |t| then None
      else
        var major, minor, patch := Number(digit, t[..i]), Number(digit, t[i + 1..j]), Number(digit, t[j + 1..]);
        if major.None? || minor.None? || patch.None? then None
        else Some(Triple(major.value, minor.value, patch.value))
  }

  predicate TripleLe(a: Triple, b: Triple) {
    a.major < b.major
    || (a.major == b.major && (a.minor < b.minor || (a.minor == b.minor && a.patch <= b.patch)))
  }

  function RankOf(digit: Digits, t: string): Triple {
    match TripleOf(digit, t)
    case Some(triple) => triple
    case None => Triple(0, 0, 0)
  }

  function VersionLe(digit: Digits): (string, string) -> bool {
    (a, b) => TripleLe(RankOf(digit, a), RankOf(digit, b))
  }

  // ----------------------------------------------------------- provenance

  const KINDS := {"main", "library", "representative", "test", "metadata", "auxiliary"}
  const REPRESENTATIVE_KINDS := {"main", "library", "representative"}

  predicate IsGiven(field: Option<string>) {
    field.Some? && field.value != "" && field.value != "unknown"
  }

  predicate Known(digit: Digits, e: Entry) {
    e.version.Some? && TripleOf(digit, e.version.value).Some?
    && e.kind.Some? && e.kind.value in KINDS
    && IsGiven(e.target) && IsGiven(e.profile) && IsGiven(e.source)
  }

  function KnownVersions(digit: Digits, entries: seq<Entry>): set<string> {
    set e | e in entries && Known(digit, e) :: e.version.value
  }

  /** The known versions, oldest first: a stable sort of however the set is iterated. */
  function Ranked(digit: Digits, order: Order, entries: seq<Entry>): seq<string> {
    SortBy(VersionLe(digit), order(KnownVersions(digit, entries)))
  }

  // ---------------------------------------------------------------- tiers

  datatype Reason =
    | UnknownProvenance | MultipleLinks | PinnedSource | LatestVersion | PreviousRepresentative
    | OlderMain | OlderRebuildable | DuplicateOf(path: string)

  datatype Planned = Planned(entry: Entry, keep: bool, reason: Reason)

  predicate IsLatest(ranked: seq<string>, version: string) {
    |ranked| >= 1 && version == ranked[|ranked| - 1]
  }

  predicate IsPrevious(ranked: seq<string>, version: string) {
    |ranked| >= 2 && version == ranked[|ranked| - 2]
  }

  /** The tier of one entry on its own. */
  function Tier(digit: Digits, pins: seq<string>, ranked: seq<string>, e: Entry): Reason {
    if !Known(digit, e) then UnknownProvenance
    else if e.nlink != 1 then MultipleLinks
    else if e.source.value in pins then PinnedSource
    else if IsLatest(ranked, e.version.value) then LatestVersion
    else if IsPrevious(ranked, e.version.value) && e.kind.value in REPRESENTATIVE_KINDS then PreviousRepresentative
    else if e.kind.value == "main" then OlderMain
    else OlderRebuildable
  }

  function Tiered(digit: Digits, pins: seq<string>, ranked: seq<string>, e: Entry): Planned {
    var reason := Tier(digit, pins, ranked, e);
    Planned(e, reason != OlderRebuildable, reason)
  }

  // --------------------------------------------------------------- groups

  /** What makes two known artifacts copies of each other. */
  datatype Key = Key(kind: Option<string>, target: Option<string>, profile: Option<string>, features: seq<string>,
                     version: Option<string>, source: Option<string>, sha256: string)

  function KeyOf(e: Entry): Key {
    Key(e.kind, e.target, e.profile, e.features, e.version, e.source, e.sha256)
  }

  predicate InGroup(digit: Digits, key: Key, e: Entry) {
    Known(digit, e) && KeyOf(e) == key
  }

  predicate SameGroup(digit: Digits, a: Entry, b: Entry) {
    Known(digit, a) && InGroup(digit, KeyOf(a), b)
  }

  predicate IsMarked(e: Entry) {
    e.role == Some("canonical")
  }

  /** The order in which a group chooses its representative: marked copies first, then by path. */
  predicate Before(a: Entry, b: Entry) {
    (IsMarked(a) && !IsMarked(b)) || (IsMarked(a) == IsMarked(b) && TextLe(a.path, b.path))
  }

  lemma BeforeIsTotal(a: Entry, b: Entry)
    ensures Before(a, b) || Before(b, a)
    ensures Before(a, b) && Before(b, a) ==> a.path == b.path
  {
    TextTotal(a.path, b.path);
  }

  lemma BeforeIsTransitive(a: Entry, b: Entry, c: Entry)
    requires Before(a, b) && Before(b, c)
    ensures Before(a, c)
  {
    if TextLe(a.path, b.path) && TextLe(b.path, c.path) {
      TextTransitive(a.path, b.path, c.path);
    }
  }

  /** The representative of a group: the member that comes before every member. */
  predicate Represents(digit: Digits, entries: seq<Entry>, key: Key, c: nat) {
    c < |entries| && InGroup(digit, key, entries[c])
    && forall j :: 0 <= j < |entries| && InGroup(digit, key, entries[j]) ==> Before(entries[c], entries[j])
  }

  /** The first of the first `n` entries that represents its group among them. */
  function Least(digit: Digits, entries: seq<Entry>, key: Key, n: nat): (c: Option<nat>)
    requires n <= |entries|
    ensures c.Some? ==> c.value < n && InGroup(digit, key, entries[c.value])
    ensures c.None? ==> forall j :: 0 <= j < n ==> !InGroup(digit, key, entries[j])
  {
    if n == 0 then None
    else
      var c := Least(digit, entries, key, n - 1);
      if !InGroup(digit, key, entries[n - 1]) then c
      else if c.Some? && Before(entries[c.value], entries[n - 1]) then c
      else Some(n - 1)
  }

  lemma {:induction false} LeastIsBefore(digit: Digits, entries: seq<Entry>, key: Key, n: nat, j: nat)
    requires j < n <= |entries| && InGroup(digit, key, entries[j])
    ensures Least(digit, entries, key, n).Some? && Before(entries[Least(digit, entries, key, n).value], entries[j])
  {
    hide InGroup, Before;
    var c := Least(digit, entries, key, n - 1);
    var e := entries[n - 1];
    BeforeIsTotal(e, e);
    if j < n - 1 {
      LeastIsBefore(digit, entries, key, n - 1, j);
      BeforeIsTotal(entries[c.value], e);
      if Before(e, entries[c.value]) {
        BeforeIsTransitive(e, entries[c.value], entries[j]);
      }
    }
  }

  /** A group of entries with distinct paths has exactly one representative. */
  lemma OneRepresentative(digit: Digits, entries: seq<Entry>, key: Key, c: nat)
    requires Distinct(Map(PathOf, entries))
    requires c < |entries| && InGroup(digit, key, entries[c])
    ensures Least(digit, entries, key, |entries|).Some?
    ensures Represents(digit, entries, key, Least(digit, entries, key, |entries|).value)
    ensures Represents(digit, entries, key, c) ==> Least(digit, entries, key, |entries|).value == c
  {
    hide InGroup, Before, Distinct, Least;
    LeastIsBefore(digit, entries, key, |entries|, c);
    var l := Least(digit, entries, key, |entries|).value;
    forall j | 0 <= j < |entries| && InGroup(digit, key, entries[j]) ensures Before(entries[l], entries[j]) {
      LeastIsBefore(digit, entries, key, |entries|, j);
    }
    if Represents(digit, entries, key, c) {
      BeforeIsTotal(entries[c], entries[l]);
      assert Map(PathOf, entries)[c] == Map(PathOf, entries)[l];
      DistinctAt(Map(PathOf, entries), c, l);
    }
  }

  lemma DistinctAt(s: seq<string>, i: nat, j: nat)
    requires Distinct(s) && i < |s| && j < |s| && s[i] == s[j]
    ensures i == j
  {
  }

  // ----------------------------------------------------------------- plan

  /** What the plan says of entry `i`: a known single-link copy that does not represent its
      group goes, and every other entry follows its tier. */
  function Decision(digit: Digits, pins: seq<string>, ranked: seq<string>, entries: seq<Entry>, i: nat): Planned
    requires i < |entries|
  {
    var e := entries[i];
    var c := Least(digit, entries, KeyOf(e), |entries|);
    if Known(digit, e) && e.nlink == 1 && c.Some? && c.value != i
    then Planned(e, false, DuplicateOf(entries[c.value].path))
    else Tiered(digit, pins, ranked, e)
  }

  function Decisions(digit: Digits, pins: seq<string>, ranked: seq<string>, entries: seq<Entry>): (r: seq<Planned>)
    ensures |r| == |entries| && forall i :: 0 <= i < |r| ==> r[i] == Decision(digit, pins, ranked, entries, i)
  {
    seq(|entries|, i requires 0 <= i < |entries| => Decision(digit, pins, ranked, entries, i))
  }

  predicate SizesAgree(digit: Digits, entries: seq<Entry>) {
    forall i, j :: 0 <= i < |entries| && 0 <= j < |entries| && SameGroup(digit, entries[i], entries[j]) ==>
                     entries[i].size == entries[j].size
  }

  datatype Plan = Plan(roots: seq<string>, pins: seq<string>, entries: seq<Planned>)

  /** The plan of an inventory, if it passes the checks. */
  function PlanOf(repo: Pathname, digit: Digits, order: Order, inventory: Inventory): Option<Plan> {
    match Normalized(repo, inventory)
    case None => None
    case Some(normal) =>
      if !SizesAgree(digit, normal.entries) then None
      else Some(Plan(normal.roots, normal.pins,
                     Decisions(digit, normal.pins, Ranked(digit, order, normal.entries), normal.entries)))
  }

  function EntryOf(row: Planned): Entry {
    row.entry
  }

  /** A plan without its actions and reasons. */
  function Stripped(plan: Plan): Inventory {
    Inventory(plan.roots, plan.pins, Map(EntryOf, plan.entries))
  }

  predicate IsValid(repo: Pathname, digit: Digits, order: Order, plan: Plan) {
    PlanOf(repo, digit, order, Stripped(plan)) == Some(plan)
  }

  lemma NormalPathsDistinct(repo: Pathname, inventory: Inventory)
    requires Normalized(repo, inventory).Some?
    ensures Distinct(Map(PathOf, Normalized(repo, inventory).value.entries))
  {
    hide AreRoots, IsEntry, Distinct, SortTexts, SortBy, Canonical;
    var forms := Map(Canonical, inventory.entries);
    PathLeRanks(forms);
    SortSorts(PathLe, forms);
    MappedArrangements(PathOf, SortBy(PathLe, forms), forms);
  }
}
