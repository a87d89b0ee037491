/** The inventory of the artifact retention tool: its schema checks and its canonical form. */
module Inventory {
  import opened ByteStrings
  import opened Sorting
  import opened Texts

  // ---------------------------------------------------------------- paths

  /** An absolute path: whether its root is the doubled slash, and its components. */
  datatype Pathname = Pathname(doubled: bool, parts: seq<string>)

  function Piece(piece: string): seq<string> {
    if piece == "" || piece == "." then [] else [piece]
  }

  /** The components of `piece + s`, where `piece` holds no slash. */
  function Pieces(s: string, piece: string): seq<string>
    decreases |s|
  {
    if s == "" then Piece(piece)
    else if s[0] == '/' then Piece(piece) + Pieces(s[1..], "")
    else Pieces(s[1..], piece + [s[0]])
  }

  /** Exactly two leading slashes are a root of their own. */
  predicate IsDoubled(value: string) {
    |value| >= 2 && value[..2] == "//" && (|value| == 2 || value[2] != '/')
  }

  /** An absolute path without `..`, with empty components and `.` removed. */
  function Absolute(value: string): Option<Pathname> {
    if value == "" || 0 as char in value || value[0] != '/' || ".." in Pieces(value, "") then None
    else Some(Pathname(IsDoubled(value), Pieces(value, "")))
  }

  function Joined(parts: seq<string>): string {
    if parts == [] then ""
    else if |parts| == 1 then parts[0]
    else parts[0] + "/" + Joined(parts[1..])
  }

  function PathText(p: Pathname): string {
    (if p.doubled then "//" else "/") + Joined(p.parts)
  }

  predicate IsPiece(t: string) {
    t != "" && t != "." && '/' !in t
  }

  lemma {:induction false} PiecesArePieces(s: string, piece: string)
    requires '/' !in piece
    ensures forall t :: t in Pieces(s, piece) ==> IsPiece(t) && forall ch :: ch in t ==> ch in s || ch in piece
    decreases |s|
  {
    if s != "" {
      PiecesArePieces(s[1..], if s[0] == '/' then "" else piece + [s[0]]);
    }
  }

  lemma {:induction false} PieceRead(t: string, s: string, piece: string)
    requires '/' !in t && (s == "" || s[0] == '/')
    ensures Pieces(t + s, piece) == Piece(piece + t) + (if s == "" then [] else Pieces(s[1..], ""))
    decreases |t|
  {
    if t == "" {
      assert t + s == s && piece + t == piece;
    } else {
      assert (t + s)[1..] == t[1..] + s;
      assert piece + [t[0]] + t[1..] == piece + t;
      PieceRead(t[1..], s, piece + [t[0]]);
    }
  }

  lemma NoPieces()
    ensures Pieces("", "") == []
  {
  }

  lemma {:induction false} JoinedRead(parts: seq<string>)
    requires forall t :: t in parts ==> IsPiece(t)
    ensures Pieces(Joined(parts), "") == parts
    decreases |parts|
  {
    hide Pieces;
    assert parts != [] ==> parts[0] in parts;
    if parts == [] {
      NoPieces();
    } else if |parts| == 1 {
      PieceRead(parts[0], "", "");
      assert parts[0] + "" == parts[0] == "" + parts[0];
    } else {
      JoinedRead(parts[1..]);
      PieceRead(parts[0], "/" + Joined(parts[1..]), "");
      assert parts[0] + "/" + Joined(parts[1..]) == parts[0] + ("/" + Joined(parts[1..]));
      assert ("/" + Joined(parts[1..]))[1..] == Joined(parts[1..]);
      assert "" + parts[0] == parts[0];
    }
  }

  lemma {:induction false} JoinedCharacters(parts: seq<string>, ch: char)
    requires ch in Joined(parts) && ch != '/'
    ensures exists t :: t in parts && ch in t
    decreases |parts|
  {
    if |parts| > 1 && ch !in parts[0] {
      JoinedCharacters(parts[1..], ch);
    } else {
      assert parts[0] in parts;
    }
  }

  lemma RootSkipped(p: Pathname)
    ensures Pieces(PathText(p), "") == Pieces(Joined(p.parts), "")
  {
    var t := Joined(p.parts);
    assert ("/" + t)[1..] == t && ("//" + t)[1..] == "/" + t;
  }

  /** The text of a path is read back as that path. */
  lemma PathReadBack(value: string)
    requires Absolute(value).Some?
    ensures Absolute(PathText(Absolute(value).value)) == Absolute(value)
  {
    var p := Absolute(value).value;
    var t := PathText(p);
    PiecesArePieces(value, "");
    JoinedRead(p.parts);
    RootSkipped(p);
    assert 0 as char !in t by {
      if 0 as char in Joined(p.parts) {
        JoinedCharacters(p.parts, 0 as char);
        assert false;
      }
    }
    assert p.parts != [] ==> p.parts[0] in p.parts && IsPiece(p.parts[0]);
    assert p.parts != [] ==> Joined(p.parts)[0] == p.parts[0][0];
    assert IsDoubled(t) == p.doubled;
  }

  // -------------------------------------------------------------- entries

  /** A mode as written in an inventory: text of octal digits, or a number. */
  datatype Mode = Octal(digits: string) | Value(number: int)

  /** One recorded file. `role` is `None` when the field is absent. */
  datatype Entry = Entry(
    path: string, version: Option<string>, kind: Option<string>, target: Option<string>,
    profile: Option<string>, source: Option<string>, features: seq<string>,
    size: int, sha256: string, dev: int, ino: int, mode: Mode, mtime: int, nlink: int,
    role: Option<string>, extras: map<string, string>)

  datatype Inventory = Inventory(roots: seq<string>, pins: seq<string>, entries: seq<Entry>)

  const MAX_ENTRIES := 100000

  function OctalDigit(n: int): char
    requires 0 <= n < 8
  {
    (n + 48) as char
  }

  /** A number from 0 to 0o7777 as four octal digits. */
  function OctalText(n: int): (t: string)
    requires 0 <= n <= 4095
    ensures |t| == 4 && forall k :: 0 <= k < 4 ==> '0' <= t[k] <= '7'
  {
    [OctalDigit(n / 8 / 8 / 8), OctalDigit(n / 8 / 8 % 8), OctalDigit(n / 8 % 8), OctalDigit(n % 8)]
  }

  /** The value of four octal digits: `None` for any other text. */
  function OctalValue(t: string): (n: Option<int>)
    ensures n.Some? ==> 0 <= n.value <= 4095
  {
    if |t| == 4 && forall k :: 0 <= k < 4 ==> '0' <= t[k] <= '7'
    then Some(512 * (t[0] as int - 48) + 64 * (t[1] as int - 48) + 8 * (t[2] as int - 48) + (t[3] as int - 48))
    else None
  }

  lemma DigitsOf(a: int, b: int, c: int, d: int)
    requires 0 <= a < 8 && 0 <= b < 8 && 0 <= c < 8 && 0 <= d < 8
    ensures
      var n := 512 * a + 64 * b + 8 * c + d;
      n / 8 / 8 / 8 == a && n / 8 / 8 % 8 == b && n / 8 % 8 == c && n % 8 == d
  {
    var n := 512 * a + 64 * b + 8 * c + d;
    assert n / 8 == 64 * a + 8 * b + c;
    assert n / 8 / 8 == 8 * a + b;
  }

  lemma OctalReadBack(t: string)
    requires OctalValue(t).Some?
    ensures OctalText(OctalValue(t).value) == t
  {
    DigitsOf(t[0] as int - 48, t[1] as int - 48, t[2] as int - 48, t[3] as int - 48);
  }

  function ModeValue(m: Mode): Option<int> {
    match m
    case Octal(digits) => OctalValue(digits)
    case Value(n) => if 0 <= n <= 4095 then Some(n) else None
  }

  predicate IsHash(t: string) {
    |t| == 64 && forall k :: 0 <= k < 64 ==> '0' <= t[k] <= '9' || 'a' <= t[k] <= 'f'
  }

  function RoleOf(e: Entry): string {
    if e.role.Some? then e.role.value else "copy"
  }

  /** The file lies strictly below one of the roots. */
  predicate Under(roots: seq<Pathname>, p: Pathname) {
    exists r :: r in roots && r.doubled == p.doubled && r.parts < p.parts
  }

  predicate IsNamed(s: seq<string>) {
    Distinct(s) && "" !in s
  }

  predicate IsEntry(roots: seq<Pathname>, e: Entry) {
    e.extras.Keys <= {"mapping_proof", "archive_format"}
    && Absolute(e.path).Some? && Under(roots, Absolute(e.path).value)
    && IsNamed(e.features)
    && e.size >= 0 && e.dev >= 0 && e.ino > 0 && e.mtime >= 0 && e.nlink > 0
    && ModeValue(e.mode).Some? && IsHash(e.sha256) && RoleOf(e) in {"canonical", "copy"}
  }

  function CanonicalPath(t: string): string {
    match Absolute(t)
    case Some(p) => PathText(p)
    case None => t
  }

  function CanonicalMode(m: Mode): Mode {
    match ModeValue(m)
    case Some(n) => Octal(OctalText(n))
    case None => m
  }

  /** An entry in canonical form. */
  function Canonical(e: Entry): Entry {
    e.(path := CanonicalPath(e.path), features := SortTexts(e.features), mode := CanonicalMode(e.mode),
       role := Some(RoleOf(e)))
  }

  // ------------------------------------------------------------ inventory

  predicate IsTaskCharacter(ch: char) {
    'A' <= ch <= 'Z' || 'a' <= ch <= 'z' || '0' <= ch <= '9'
  }

  predicate IsTaskName(t: string) {
    8 <= |t| <= 135 && t[..7] == "suzaku-" && IsTaskCharacter(t[7])
    && forall k :: 8 <= k < |t| ==> IsTaskCharacter(t[k]) || t[k] in {'.', '_', '-'}
  }

  /** The roots a checkout at `repo` allows: its two dependency directories, and the task
      directories right under `/tmp`. */
  predicate RootAllowed(repo: Pathname, p: Pathname) {
    p == repo.(parts := repo.parts + ["target", "debug", "deps"])
    || p == repo.(parts := repo.parts + ["target", "release", "deps"])
    || (!p.doubled && |p.parts| == 2 && p.parts[0] == "tmp" && IsTaskName(p.parts[1]))
  }

  function PathnameOf(t: string): Pathname {
    match Absolute(t)
    case Some(p) => p
    case None => Pathname(false, [])
  }

  predicate AreRoots(repo: Pathname, roots: seq<string>) {
    roots != [] && (forall t :: t in roots ==> Absolute(t).Some? && RootAllowed(repo, PathnameOf(t)))
    && Distinct(Map(PathnameOf, roots))
  }

  function PathOf(e: Entry): string {
    e.path
  }

  predicate PathLe(a: Entry, b: Entry) {
    TextLe(a.path, b.path)
  }

  predicate AreEntries(roots: seq<Pathname>, entries: seq<Entry>) {
    forall e :: e in entries ==> IsEntry(roots, e)
  }

  predicate IsInventory(repo: Pathname, inventory: Inventory) {
    AreRoots(repo, inventory.roots) && IsNamed(inventory.pins) && |inventory.entries| <= MAX_ENTRIES
    && AreEntries(Map(PathnameOf, inventory.roots), inventory.entries)
    && Distinct(Map(PathOf, Map(Canonical, inventory.entries)))
  }

  /** The canonical form of an inventory that passes the checks: roots, pins and entries sorted. */
  function Normalized(repo: Pathname, inventory: Inventory): Option<Inventory> {
    if !IsInventory(repo, inventory) then None
    else Some(Inventory(SortTexts(Map(CanonicalPath, inventory.roots)), SortTexts(inventory.pins),
                        SortBy(PathLe, Map(Canonical, inventory.entries))))
  }

  /** The schema checks as the tool makes them: entry by entry, stopping at the first bad one. */
  method Normalize(repo: Pathname, inventory: Inventory) returns (normal: Option<Inventory>)
    ensures normal == Normalized(repo, inventory)
  {
    hide AreRoots, IsEntry, IsNamed, SortTexts, SortBy, Distinct, Canonical;
    if !AreRoots(repo, inventory.roots) || !IsNamed(inventory.pins) || |inventory.entries| > MAX_ENTRIES {
      return None;
    }
    var roots := Map(PathnameOf, inventory.roots);
    var entries := [];
    for k := 0 to |inventory.entries|
      invariant |entries| == k && forall i :: 0 <= i < k ==> entries[i] == Canonical(inventory.entries[i])
      invariant forall i :: 0 <= i < k ==> IsEntry(roots, inventory.entries[i])
    {
      if !IsEntry(roots, inventory.entries[k]) {
        return None;
      }
      entries := entries + [Canonical(inventory.entries[k])];
    }
    assert entries == Map(Canonical, inventory.entries);
    var paths := Map(PathOf, entries);
    DistinctSize(paths);
    if |paths| != |set p | p in paths| {
      return None;
    }
    normal := Some(Inventory(SortTexts(Map(CanonicalPath, inventory.roots)), SortTexts(inventory.pins), SortBy(PathLe, entries)));
  }

  // ------------------------------------------------------------------ laws

  lemma PathLeRanks(s: seq<Entry>)
    ensures Ranks(PathLe)
    ensures Distinct(Map(PathOf, s)) ==> NoTies(PathLe, s)
  {
    forall x: Entry, y: Entry ensures PathLe(x, y) || PathLe(y, x) {
      TextTotal(x.path, y.path);
    }
    forall x, y, z | PathLe(x, y) && PathLe(y, z) ensures PathLe(x, z) {
      TextTransitive(x.path, y.path, z.path);
    }
    forall x, y | Distinct(Map(PathOf, s)) && x in s && y in s && PathLe(x, y) && PathLe(y, x) ensures x == y {
      TextTotal(x.path, y.path);
      var i :| 0 <= i < |s| && s[i] == x;
      var j :| 0 <= j < |s| && s[j] == y;
      assert Map(PathOf, s)[i] == Map(PathOf, s)[j];
    }
  }

  lemma CanonicalOnce(t: string)
    requires Absolute(t).Some?
    ensures Absolute(CanonicalPath(t)) == Absolute(t) && PathnameOf(CanonicalPath(t)) == PathnameOf(t)
    ensures CanonicalPath(CanonicalPath(t)) == CanonicalPath(t)
  {
    hide Absolute, PathText;
    PathReadBack(t);
  }

  /** A canonical entry is good and canonical, under any roots with the same members. */
  lemma EntryOnce(roots: seq<Pathname>, again: seq<Pathname>, e: Entry)
    requires IsEntry(roots, e) && SameMembers(roots, again)
    ensures IsEntry(again, Canonical(e)) && Canonical(Canonical(e)) == Canonical(e)
  {
    hide Absolute, PathText, OctalText, OctalValue, SortTexts, Distinct;
    CanonicalOnce(e.path);
    SortedTexts(e.features);
    Arrangements(e.features, SortTexts(e.features));
    OctalReadBack(OctalText(ModeValue(e.mode).value)) by {
      TextOfOctal(ModeValue(e.mode).value);
    }
    TextOfOctal(ModeValue(e.mode).value);
  }

  lemma TextOfOctal(n: int)
    requires 0 <= n <= 4095
    ensures OctalValue(OctalText(n)) == Some(n)
  {
    var m, l := n / 8, n / 8 / 8;
    assert n == 8 * m + n % 8 && m == 8 * l + m % 8 && l == 8 * (l / 8) + l % 8;
  }

  /** Roots in canonical form are roots again, the same ones. */
  lemma RootsOnce(repo: Pathname, roots: seq<string>)
    requires AreRoots(repo, roots)
    ensures
      var sorted := SortTexts(Map(CanonicalPath, roots));
      AreRoots(repo, sorted) && SortTexts(Map(CanonicalPath, sorted)) == sorted
      && SameMembers(Map(PathnameOf, roots), Map(PathnameOf, sorted))
  {
    hide Absolute, PathText, RootAllowed, SortTexts, CanonicalPath, PathnameOf, Distinct, SameMembers, AreRoots;
    var texts := Map(CanonicalPath, roots);
    CanonicalRoots(repo, roots);
    SortedTexts(texts);
    RootsReordered(repo, texts, SortTexts(texts));
    MapPermutes(CanonicalPath, texts, SortTexts(texts));
    SortedTexts(Map(CanonicalPath, texts));
  }

  lemma CanonicalRoots(repo: Pathname, roots: seq<string>)
    requires AreRoots(repo, roots)
    ensures
      var texts := Map(CanonicalPath, roots);
      AreRoots(repo, texts) && Map(CanonicalPath, texts) == texts && Map(PathnameOf, texts) == Map(PathnameOf, roots)
  {
    hide Absolute, PathText, RootAllowed, CanonicalPath, PathnameOf, Distinct;
    var texts := Map(CanonicalPath, roots);
    forall t | t in roots
      ensures PathnameOf(CanonicalPath(t)) == PathnameOf(t) && Absolute(CanonicalPath(t)).Some?
              && CanonicalPath(CanonicalPath(t)) == CanonicalPath(t)
    {
      CanonicalOnce(t);
    }
    assert Map(PathnameOf, texts) == Map(PathnameOf, roots);
    assert Map(CanonicalPath, texts) == texts;
  }

  lemma RootsReordered(repo: Pathname, a: seq<string>, b: seq<string>)
    requires multiset(a) == multiset(b)
    ensures AreRoots(repo, a) == AreRoots(repo, b)
    ensures SortTexts(Map(CanonicalPath, a)) == SortTexts(Map(CanonicalPath, b))
    ensures SameMembers(Map(PathnameOf, a), Map(PathnameOf, b))
  {
    hide SortTexts, CanonicalPath, PathnameOf, Distinct, Map, AreRoots, SameMembers;
    Arrangements(a, b);
    MappedArrangements(PathnameOf, a, b);
    MapPermutes(CanonicalPath, a, b);
    SortedTexts(Map(CanonicalPath, a));
    SameAreRoots(repo, a, b);
  }

  lemma SameAreRoots(repo: Pathname, a: seq<string>, b: seq<string>)
    requires |a| == |b| && SameMembers(a, b) && Distinct(Map(PathnameOf, a)) == Distinct(Map(PathnameOf, b))
    ensures AreRoots(repo, a) == AreRoots(repo, b)
  {
    hide Absolute, RootAllowed, PathnameOf, Distinct, Map;
  }

  lemma EntriesOnce(roots: seq<Pathname>, again: seq<Pathname>, entries: seq<Entry>)
    requires AreEntries(roots, entries)
    requires SameMembers(roots, again)
    requires Distinct(Map(PathOf, Map(Canonical, entries)))
    ensures
      var sorted := SortBy(PathLe, Map(Canonical, entries));
      AreEntries(again, sorted) && Distinct(Map(PathOf, Map(Canonical, sorted)))
      && SortBy(PathLe, Map(Canonical, sorted)) == sorted && |sorted| == |entries|
  {
    hide IsEntry, Canonical, Distinct, SameMembers, SortBy, AreEntries, Map, Ranks, NoTies, SortedBy;
    var forms := Map(Canonical, entries);
    var sorted := SortBy(PathLe, forms);
    PathLeRanks(forms);
    SortSorts(PathLe, forms);
    Arrangements(sorted, forms);
    FormsAreForms(roots, again, entries, sorted);
    MappedArrangements(PathOf, sorted, forms);
    SortOfSorted(PathLe, sorted);
  }

  /** Canonical entries, in any arrangement, are good and canonical. */
  lemma FormsAreForms(roots: seq<Pathname>, again: seq<Pathname>, entries: seq<Entry>, forms: seq<Entry>)
    requires AreEntries(roots, entries) && SameMembers(roots, again) && SameMembers(forms, Map(Canonical, entries))
    ensures AreEntries(again, forms) && Map(Canonical, forms) == forms
  {
    hide IsEntry, Canonical;
    forall k | 0 <= k < |forms| ensures IsEntry(again, forms[k]) && Canonical(forms[k]) == forms[k] {
      assert forms[k] in Map(Canonical, entries);
      var j :| 0 <= j < |entries| && Map(Canonical, entries)[j] == forms[k];
      EntryOnce(roots, again, entries[j]);
    }
  }

  /** The canonical form of an inventory is an inventory in canonical form. */
  lemma NormalizedOnce(repo: Pathname, inventory: Inventory)
    requires Normalized(repo, inventory).Some?
    ensures Normalized(repo, Normalized(repo, inventory).value) == Normalized(repo, inventory)
  {
    hide AreRoots, IsEntry, Distinct, SortTexts, SortBy, Canonical;
    var roots, again := Map(PathnameOf, inventory.roots), Normalized(repo, inventory).value;
    RootsOnce(repo, inventory.roots);
    NamesOnce(inventory.pins);
    EntriesOnce(roots, Map(PathnameOf, again.roots), inventory.entries);
  }

  lemma NamesOnce(pins: seq<string>)
    requires IsNamed(pins)
    ensures IsNamed(SortTexts(pins)) && SortTexts(SortTexts(pins)) == SortTexts(pins)
    ensures SameMembers(SortTexts(pins), pins)
  {
    hide SortTexts, Distinct;
    SortedTexts(pins);
    Arrangements(pins, SortTexts(pins));
  }

  /** The same file, its features listed in another order. */
  ghost predicate SameFile(a: Entry, b: Entry) {
    b == a.(features := b.features) && multiset(a.features) == multiset(b.features)
  }

  /** The same inventory, with roots, pins, entries and feature lists in any order. */
  ghost predicate Reordered(a: Inventory, b: Inventory, files: seq<Entry>) {
    multiset(a.roots) == multiset(b.roots) && multiset(a.pins) == multiset(b.pins)
    && |files| == |a.entries| && multiset(files) == multiset(b.entries)
    && forall i :: 0 <= i < |files| ==> SameFile(a.entries[i], files[i])
  }

  lemma SameFileSame(roots: seq<Pathname>, again: seq<Pathname>, a: Entry, b: Entry)
    requires SameFile(a, b) && SameMembers(roots, again)
    ensures Canonical(a) == Canonical(b) && IsEntry(roots, a) == IsEntry(again, b)
  {
    hide Absolute, PathText, SortTexts, Distinct, IsHash;
    SortedTexts(a.features);
    Arrangements(a.features, b.features);
  }

  /** The canonical form does not depend on any order of the inventory. */
  lemma NormalizedIgnoresOrder(repo: Pathname, a: Inventory, b: Inventory, files: seq<Entry>)
    requires Reordered(a, b, files)
    ensures Normalized(repo, a) == Normalized(repo, b)
  {
    hide AreRoots, IsEntry, Distinct, SortTexts, SortBy, Canonical, SameFile;
    RootsReordered(repo, a.roots, b.roots);
    SortedTexts(a.pins);
    Arrangements(a.pins, b.pins);
    EntriesReordered(Map(PathnameOf, a.roots), Map(PathnameOf, b.roots), a.entries, files, b.entries);
  }

  lemma EntriesReordered(roots: seq<Pathname>, again: seq<Pathname>, a: seq<Entry>, files: seq<Entry>, b: seq<Entry>)
    requires SameMembers(roots, again)
    requires |files| == |a| && multiset(files) == multiset(b)
    requires forall i :: 0 <= i < |files| ==> SameFile(a[i], files[i])
    ensures |a| == |b|
    ensures AreEntries(roots, a) == AreEntries(again, b)
    ensures Distinct(Map(PathOf, Map(Canonical, a))) == Distinct(Map(PathOf, Map(Canonical, b)))
    ensures Distinct(Map(PathOf, Map(Canonical, a))) ==>
              SortBy(PathLe, Map(Canonical, a)) == SortBy(PathLe, Map(Canonical, b))
  {
    hide IsEntry, Distinct, SortTexts, SortBy, Canonical, SameFile, AreEntries, SameMembers;
    forall i | 0 <= i < |a| ensures Canonical(a[i]) == Canonical(files[i]) && IsEntry(roots, a[i]) == IsEntry(again, files[i]) {
      SameFileSame(roots, again, a[i], files[i]);
    }
    assert Map(Canonical, a) == Map(Canonical, files);
    Arrangements(files, b);
    SameAreEntries(again, files, b);
    assert AreEntries(roots, a) == AreEntries(again, files) by {
      PairedEntries(roots, again, a, files);
    }
    FormsReordered(files, b);
  }

  lemma SameAreEntries(roots: seq<Pathname>, a: seq<Entry>, b: seq<Entry>)
    requires SameMembers(a, b)
    ensures AreEntries(roots, a) == AreEntries(roots, b)
  {
    hide IsEntry;
  }

  lemma PairedEntries(roots: seq<Pathname>, again: seq<Pathname>, a: seq<Entry>, b: seq<Entry>)
    requires |a| == |b| && forall i :: 0 <= i < |a| ==> IsEntry(roots, a[i]) == IsEntry(again, b[i])
    ensures AreEntries(roots, a) == AreEntries(again, b)
  {
    hide IsEntry;
  }

  lemma FormsReordered(a: seq<Entry>, b: seq<Entry>)
    requires multiset(a) == multiset(b)
    ensures Distinct(Map(PathOf, Map(Canonical, a))) == Distinct(Map(PathOf, Map(Canonical, b)))
    ensures Distinct(Map(PathOf, Map(Canonical, a))) ==>
              SortBy(PathLe, Map(Canonical, a)) == SortBy(PathLe, Map(Canonical, b))
  {
    hide Distinct, SortBy, Canonical, Map;
    MapPermutes(Canonical, a, b);
    MappedArrangements(PathOf, Map(Canonical, a), Map(Canonical, b));
    PathLeRanks(Map(Canonical, a));
    if Distinct(Map(PathOf, Map(Canonical, a))) {
      SortIgnoresOrder(PathLe, Map(Canonical, a), Map(Canonical, b));
    }
  }
}
