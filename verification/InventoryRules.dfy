/** The inventories that are accepted, and their canonical form, on their texts. */
module InventoryRules {
  import opened ByteStrings
  import opened Sorting
  import opened Texts
  import opened Inventory
  import opened AllowedPlaces

  /** An absolute path text: no zero character, no component `..`. */
  predicate IsAbsoluteText(t: string) {
    t != "" && t[0] == '/' && 0 as char !in t && forall k :: 0 <= k < |t| ==> !UpAt(t, k)
  }

  predicate StartsUp(t: string) {
    |t| >= 2 && t[..2] == ".." && (|t| == 2 || t[2] == '/')
  }

  lemma {:induction false} UpWasThere(t: string, piece: string)
    requires '/' !in piece && ".." in Pieces(t, piece)
    ensures StartsUp(piece + t) || exists k :: 0 <= k < |t| && UpAt(t, k)
    decreases |t|
  {
    if t == "" {
      assert piece + t == piece == "..";
    } else if t[0] == '/' {
      if ".." in Pieces(t[1..], "") {
        UpWasThere(t[1..], "");
        UpBehindSlash(t);
      }
    } else {
      UpWasThere(t[1..], piece + [t[0]]);
      assert piece + [t[0]] + t[1..] == piece + t;
      if k :| 0 <= k < |t| - 1 && UpAt(t[1..], k) {
        UpFurther(t, k);
      }
    }
  }

  lemma UpBehindSlash(t: string)
    requires t != "" && t[0] == '/'
    requires StartsUp("" + t[1..]) || exists k :: 0 <= k < |t[1..]| && UpAt(t[1..], k)
    ensures exists k :: 0 <= k < |t| && UpAt(t, k)
  {
    var rest := t[1..];
    assert "" + rest == rest;
    if k :| 0 <= k < |rest| && UpAt(rest, k) {
      UpFurther(t, k);
    } else {
      assert t[0..3] == "/" + rest[..2];
      assert UpAt(t, 0);
    }
  }

  lemma UpFurther(t: string, k: nat)
    requires t != "" && UpAt(t[1..], k)
    ensures UpAt(t, k + 1)
  {
    var rest := t[1..];
    assert t[k + 1..k + 1 + 3] == rest[k..k + 3];
    assert k + 3 < |rest| ==> t[k + 4] == rest[k + 3];
  }

  /** The path texts that are taken. */
  lemma AbsoluteIs(t: string)
    ensures Absolute(t).Some? <==> IsAbsoluteText(t)
  {
    hide Pieces;
    if ".." in Pieces(t, "") {
      UpWasThere(t, "");
      assert "" + t == t;
    }
    if k :| 0 <= k < |t| && UpAt(t, k) {
      UpIsComponent(t, k);
    }
  }

  predicate IsProperRepo(repo: Pathname) {
    forall t :: t in repo.parts ==> IsPiece(t)
  }

  /** The file lies strictly below the root: its path begins with that of the root and a slash. */
  predicate LiesIn(root: string, path: string) {
    root + "/" < path
  }

  /** The file lies below one of the roots. */
  predicate IsInside(roots: seq<string>, path: string) {
    exists r :: r in roots && LiesIn(r, path)
  }

  /** A root that may be given. */
  ghost predicate MayBeRoot(repo: Pathname, r: string) {
    IsAbsoluteText(r) && IsAllowedRoot(repo, CanonicalPath(r))
  }

  lemma RootsAre(repo: Pathname, roots: seq<string>)
    requires IsProperRepo(repo)
    ensures AreRoots(repo, roots) <==>
            roots != [] && (forall r :: r in roots ==> MayBeRoot(repo, r)) && Distinct(Map(CanonicalPath, roots))
  {
    hide Absolute, RootAllowed, IsAllowedRoot, Distinct, IsAbsoluteText, PathnameOf, CanonicalPath;
    forall r | r in roots ensures Absolute(r).Some? && RootAllowed(repo, PathnameOf(r)) <==> MayBeRoot(repo, r) {
      AbsoluteIs(r);
      if Absolute(r).Some? {
        AllowedRootIs(repo, r);
      }
    }
    if forall r :: r in roots ==> Absolute(r).Some? && RootAllowed(repo, PathnameOf(r)) {
      forall i, j | 0 <= i < |roots| && 0 <= j < |roots|
        ensures PathnameOf(roots[i]) == PathnameOf(roots[j]) <==> CanonicalPath(roots[i]) == CanonicalPath(roots[j])
      {
        SameRoots(repo, roots[i], roots[j]);
      }
      DistinctAlike(Map(PathnameOf, roots), Map(CanonicalPath, roots));
    }
  }

  lemma SameRoots(repo: Pathname, a: string, b: string)
    requires Absolute(a).Some? && RootAllowed(repo, PathnameOf(a)) && Absolute(b).Some? && RootAllowed(repo, PathnameOf(b))
    ensures PathnameOf(a) == PathnameOf(b) <==> CanonicalPath(a) == CanonicalPath(b)
  {
    hide Absolute, RootAllowed, PathText;
    AllowedHasParts(repo, a);
    AllowedHasParts(repo, b);
    if CanonicalPath(a) == CanonicalPath(b) {
      SameTextSamePath(PathnameOf(a), PathnameOf(b));
    }
  }

  lemma DistinctAlike<T, U>(s: seq<T>, t: seq<U>)
    requires |s| == |t| && forall i, j :: 0 <= i < |s| && 0 <= j < |s| ==> (s[i] == s[j] <==> t[i] == t[j])
    ensures Distinct(s) == Distinct(t)
  {
  }

  lemma UnderIs(repo: Pathname, roots: seq<string>, t: string)
    requires AreRoots(repo, roots) && Absolute(t).Some?
    ensures Under(Map(PathnameOf, roots), PathnameOf(t)) <==> IsInside(Map(CanonicalPath, roots), CanonicalPath(t))
  {
    hide Absolute, RootAllowed, PathnameOf, CanonicalPath, Distinct, LiesIn, IsAbove, Under;
    var paths, texts := Map(PathnameOf, roots), Map(CanonicalPath, roots);
    UnderSome(paths, PathnameOf(t));
    forall i | 0 <= i < |roots| ensures IsAbove(paths[i], PathnameOf(t)) <==> LiesIn(texts[i], CanonicalPath(t)) {
      assert roots[i] in roots;
      LiesBelow(repo, roots[i], t);
    }
    InsideSome(texts, CanonicalPath(t));
  }

  lemma InsideSome(roots: seq<string>, t: string)
    ensures IsInside(roots, t) <==> exists i :: 0 <= i < |roots| && LiesIn(roots[i], t)
  {
    hide LiesIn;
  }

  lemma LiesBelow(repo: Pathname, root: string, t: string)
    requires Absolute(root).Some? && RootAllowed(repo, PathnameOf(root)) && Absolute(t).Some?
    ensures IsAbove(PathnameOf(root), PathnameOf(t)) <==> LiesIn(CanonicalPath(root), CanonicalPath(t))
  {
    hide Absolute, RootAllowed, CanonicalPath, PathnameOf, IsAbove;
    BelowIsLonger(repo, root, t);
  }

  // --------------------------------------------------------------- entries

  predicate AreOctal(t: string) {
    |t| == 4 && forall k :: 0 <= k < 4 ==> t[k] == '0' || t[k] == '1' || t[k] == '2' || t[k] == '3' || t[k] == '4'
                                           || t[k] == '5' || t[k] == '6' || t[k] == '7'
  }

  predicate AreHex(t: string) {
    |t| == 64 && forall k :: 0 <= k < 64 ==> t[k] in "0123456789abcdef"
  }

  /** The fields of an entry besides its path. */
  predicate HasGoodFields(e: Entry) {
    (forall k :: k in e.extras ==> k == "mapping_proof" || k == "archive_format")
    && (forall i :: 0 <= i < |e.features| ==> e.features[i] != "" && e.features[i] !in e.features[..i])
    && 0 <= e.size && 0 <= e.dev && 1 <= e.ino && 0 <= e.mtime && 1 <= e.nlink
    && (match e.mode case Octal(t) => AreOctal(t) case Value(n) => 0 <= n < 8 * 8 * 8 * 8)
    && AreHex(e.sha256)
    && (e.role == None || e.role == Some("copy") || e.role == Some("canonical"))
  }

  lemma NamedIs(s: seq<string>)
    ensures IsNamed(s) <==> forall i :: 0 <= i < |s| ==> s[i] != "" && s[i] !in s[..i]
  {
    if IsNamed(s) {
      forall i | 0 <= i < |s| ensures s[i] != "" && s[i] !in s[..i] {
        assert s[i] in s;
      }
    }
    if forall i :: 0 <= i < |s| ==> s[i] != "" && s[i] !in s[..i] {
      forall i, j | 0 <= i < j < |s| ensures s[i] != s[j] {
        assert s[..j][i] == s[i];
      }
    }
  }

  lemma HexIs(t: string)
    ensures IsHash(t) <==> AreHex(t)
  {
    forall ch: char ensures ch in "0123456789abcdef" <==> '0' <= ch <= '9' || 'a' <= ch <= 'f' {
      HexCharacter(ch);
    }
  }

  lemma HexCharacter(ch: char)
    ensures ch in "0123456789abcdef" <==> '0' <= ch <= '9' || 'a' <= ch <= 'f'
  {
    var digits := "0123456789abcdef";
    if '0' <= ch <= '9' {
      assert digits[ch as int - '0' as int] == ch;
    }
    if 'a' <= ch <= 'f' {
      assert digits[ch as int - 'a' as int + 10] == ch;
    }
  }

  lemma ModeIs(m: Mode)
    ensures ModeValue(m).Some? <==> match m case Octal(t) => AreOctal(t) case Value(n) => 0 <= n < 8 * 8 * 8 * 8
  {
  }

  lemma ExtrasAre(e: Entry)
    ensures e.extras.Keys <= {"mapping_proof", "archive_format"} <==>
            forall k :: k in e.extras ==> k == "mapping_proof" || k == "archive_format"
  {
    if e.extras.Keys <= {"mapping_proof", "archive_format"} {
      forall k | k in e.extras ensures k == "mapping_proof" || k == "archive_format" {
        assert k in e.extras.Keys;
      }
    }
  }

  lemma EntryIs(repo: Pathname, roots: seq<string>, e: Entry)
    requires AreRoots(repo, roots)
    ensures IsEntry(Map(PathnameOf, roots), e) <==>
            HasGoodFields(e) && IsAbsoluteText(e.path) && IsInside(Map(CanonicalPath, roots), CanonicalPath(e.path))
  {
    hide Absolute, IsAbsoluteText, Under, IsInside, IsNamed, IsHash, AreHex, AreOctal, OctalValue, CanonicalPath, AreRoots;
    AbsoluteIs(e.path);
    NamedIs(e.features);
    HexIs(e.sha256);
    ModeIs(e.mode);
    ExtrasAre(e);
    if Absolute(e.path).Some? {
      UnderIs(repo, roots, e.path);
    }
  }

  // ------------------------------------------------------------ inventories

  /** The entry is well-formed, and lies below one of the roots. */
  predicate IsPlaced(roots: seq<string>, e: Entry) {
    HasGoodFields(e) && IsAbsoluteText(e.path) && IsInside(Map(CanonicalPath, roots), CanonicalPath(e.path))
  }

  function CanonicalPathOf(e: Entry): string {
    CanonicalPath(e.path)
  }

  /** An inventory is accepted if and only if its roots are different allowed ones, its pins
      different and not empty, and its entries, not too many, well-formed files with different
      paths, each strictly below one of the roots. */
  lemma AcceptedIff(repo: Pathname, inventory: Inventory)
    requires IsProperRepo(repo)
    ensures Normalized(repo, inventory).Some? <==>
            inventory.roots != [] && (forall r :: r in inventory.roots ==> MayBeRoot(repo, r))
            && Distinct(Map(CanonicalPath, inventory.roots))
            && Distinct(inventory.pins) && "" !in inventory.pins
            && |inventory.entries| <= 100000
            && (forall e :: e in inventory.entries ==> IsPlaced(inventory.roots, e))
            && Distinct(Map(CanonicalPathOf, inventory.entries))
  {
    hide AreRoots, MayBeRoot, IsEntry, Distinct, IsPlaced, Canonical, CanonicalPath, SortTexts, SortBy;
    var roots, entries := inventory.roots, inventory.entries;
    RootsAre(repo, roots);
    if AreRoots(repo, roots) {
      forall e | e in entries ensures IsEntry(Map(PathnameOf, roots), e) <==> IsPlaced(roots, e) {
        PlacedIs(repo, roots, e);
      }
    }
    PathsOfForms(entries);
  }

  lemma PlacedIs(repo: Pathname, roots: seq<string>, e: Entry)
    requires AreRoots(repo, roots)
    ensures IsEntry(Map(PathnameOf, roots), e) <==> IsPlaced(roots, e)
  {
    hide AreRoots, IsEntry, HasGoodFields, IsAbsoluteText, IsInside;
    EntryIs(repo, roots, e);
  }

  lemma PathsOfForms(entries: seq<Entry>)
    ensures Map(PathOf, Map(Canonical, entries)) == Map(CanonicalPathOf, entries)
  {
    hide CanonicalPath, SortTexts, CanonicalMode;
  }

  /** Every file of an accepted inventory, in its canonical form, begins with the text of an
      allowed root and a slash, goes on behind that, and has no component `..`. */
  lemma AcceptedFilesAreInside(repo: Pathname, inventory: Inventory)
    requires IsProperRepo(repo) && Normalized(repo, inventory).Some?
    ensures
      var normal := Normalized(repo, inventory).value;
      (forall r :: r in normal.roots ==> IsAllowedRoot(repo, r))
      && forall e :: e in normal.entries ==> IsAbsoluteText(e.path) && exists r :: r in normal.roots && r + "/" < e.path
  {
    hide Normalized, IsAllowedRoot, HasGoodFields, IsAbsoluteText, Distinct, CanonicalPath;
    var normal := Normalized(repo, inventory).value;
    NormalizedOnce(repo, inventory);
    AcceptedIff(repo, normal);
    CanonicalTexts(repo, inventory);
    forall e | e in normal.entries ensures IsAbsoluteText(e.path) && exists r :: r in normal.roots && r + "/" < e.path {
      assert IsPlaced(normal.roots, e);
      assert CanonicalPath(e.path) == e.path;
      var r :| r in Map(CanonicalPath, normal.roots) && LiesIn(r, CanonicalPath(e.path));
      assert r in normal.roots;
    }
    forall r | r in normal.roots ensures IsAllowedRoot(repo, r) {
      assert MayBeRoot(repo, r);
      var i :| 0 <= i < |normal.roots| && normal.roots[i] == r;
    }
  }

  /** The texts of a canonical form are canonical. */
  lemma CanonicalTexts(repo: Pathname, inventory: Inventory)
    requires Normalized(repo, inventory).Some?
    ensures
      var normal := Normalized(repo, inventory).value;
      Map(CanonicalPath, normal.roots) == normal.roots
      && forall e :: e in normal.entries ==> CanonicalPath(e.path) == e.path
  {
    hide AreRoots, Distinct, CanonicalPath, SortTexts, SortBy, Canonical, IsEntry;
    CanonicalRoots(repo, inventory.roots);
    SortedTexts(Map(CanonicalPath, inventory.roots));
    StillCanonical(Map(CanonicalPath, inventory.roots), SortTexts(Map(CanonicalPath, inventory.roots)));
    var forms := Map(Canonical, inventory.entries);
    PathLeRanks(forms);
    SortSorts(PathLe, forms);
    forall e | e in SortBy(PathLe, forms) ensures CanonicalPath(e.path) == e.path {
      var i :| 0 <= i < |forms| && forms[i] == e;
      FormIsCanonical(Map(PathnameOf, inventory.roots), inventory.entries[i]);
    }
  }

  lemma FormIsCanonical(roots: seq<Pathname>, e: Entry)
    requires IsEntry(roots, e)
    ensures CanonicalPath(Canonical(e).path) == Canonical(e).path
  {
    hide Absolute, CanonicalPath, CanonicalMode, SortTexts;
    CanonicalOnce(e.path);
  }

  lemma StillCanonical(a: seq<string>, b: seq<string>)
    requires Map(CanonicalPath, a) == a && multiset(a) == multiset(b)
    ensures Map(CanonicalPath, b) == b
  {
    hide CanonicalPath, Distinct;
    Arrangements(a, b);
    forall i | 0 <= i < |b| ensures CanonicalPath(b[i]) == b[i] {
      assert b[i] in a;
      var j :| 0 <= j < |a| && a[j] == b[i];
      assert Map(CanonicalPath, a)[j] == a[j];
    }
  }

  // --------------------------------------------------------- canonical form

  /** The canonical form of one entry: the same file, its path canonical, its features in
      order, its mode as four octal digits, and its role given. */
  ghost predicate IsFormOf(c: Entry, e: Entry) {
    c == e.(path := CanonicalPath(e.path), features := c.features, mode := c.mode, role := c.role)
    && multiset(c.features) == multiset(e.features)
    && (forall i, j :: 0 <= i < j < |c.features| ==> ComesFirst(c.features[i], c.features[j]))
    && c.role == Some(if e.role == None then "copy" else e.role.value)
    && c.mode.Octal? && AreOctal(c.mode.digits)
    && match e.mode
       case Octal(t) => c.mode.digits == t
       case Value(n) =>
         var t := c.mode.digits;
         n == (((t[0] - '0') as int * 8 + (t[1] - '0') as int) * 8 + (t[2] - '0') as int) * 8 + (t[3] - '0') as int
  }

  lemma StrictlyOrdered(s: seq<string>)
    requires Distinct(s)
    ensures
      var t := SortTexts(s);
      multiset(t) == multiset(s) && forall i, j :: 0 <= i < j < |t| ==> ComesFirst(t[i], t[j])
  {
    hide TextLe, ComesFirst, Distinct, SortBy;
    var t := SortTexts(s);
    TextRanks();
    SortSorts(TextLe, s);
    Arrangements(t, s);
    forall i, j | 0 <= i < j < |t| ensures ComesFirst(t[i], t[j]) {
      TextOrder(t[i], t[j]);
      DifferentAt(t, i, j);
    }
  }

  lemma OctalIs(t: string)
    requires AreOctal(t)
    ensures OctalValue(t) == Some((((t[0] - '0') as int * 8 + (t[1] - '0') as int) * 8 + (t[2] - '0') as int) * 8 + (t[3] - '0') as int)
  {
    assert (t[0] - '0') as int == t[0] as int - 48 && (t[1] - '0') as int == t[1] as int - 48;
    assert (t[2] - '0') as int == t[2] as int - 48 && (t[3] - '0') as int == t[3] as int - 48;
  }

  lemma FormIs(e: Entry)
    requires HasGoodFields(e)
    ensures IsFormOf(Canonical(e), e)
  {
    hide CanonicalPath, OctalText, OctalValue, SortTexts, ComesFirst, AreHex, AreOctal;
    NamedIs(e.features);
    StrictlyOrdered(e.features);
    ModeIs(e.mode);
    var n := ModeValue(e.mode).value;
    OctalOfNumber(n);
    if e.mode.Octal? {
      OctalReadBack(e.mode.digits);
    }
    OctalIs(OctalText(n));
  }

  lemma OctalOfNumber(n: int)
    requires 0 <= n <= 4095
    ensures AreOctal(OctalText(n)) && OctalValue(OctalText(n)) == Some(n)
  {
    hide OctalValue;
    TextOfOctal(n);
    var t := OctalText(n);
    assert forall k :: 0 <= k < 4 ==> '0' <= t[k] <= '7';
  }

  /** The canonical form lists the same roots, pins and files, roots and files by their
      canonical paths, pins by their texts, all in order; and it says of every file what the
      inventory says. */
  lemma CanonicalFormIs(repo: Pathname, inventory: Inventory)
    requires IsProperRepo(repo) && Normalized(repo, inventory).Some?
    ensures
      var normal := Normalized(repo, inventory).value;
      multiset(normal.roots) == multiset(Map(CanonicalPath, inventory.roots)) && multiset(normal.pins) == multiset(inventory.pins)
      && |normal.entries| == |inventory.entries|
      && (forall i, j :: 0 <= i < j < |normal.roots| ==> ComesFirst(normal.roots[i], normal.roots[j]))
      && (forall i, j :: 0 <= i < j < |normal.pins| ==> ComesFirst(normal.pins[i], normal.pins[j]))
      && (forall i, j :: 0 <= i < j < |normal.entries| ==> ComesFirst(normal.entries[i].path, normal.entries[j].path))
      && (forall e :: e in inventory.entries ==> exists c :: c in normal.entries && IsFormOf(c, e))
      && forall c :: c in normal.entries ==> exists e :: e in inventory.entries && IsFormOf(c, e)
  {
    hide IsAllowedRoot, MayBeRoot, AreRoots, AreEntries, CanonicalPath, Canonical, SortTexts, SortBy, Distinct,
         ComesFirst, IsFormOf, HasGoodFields, IsInside;
    AcceptedIff(repo, inventory);
    StrictlyOrdered(Map(CanonicalPath, inventory.roots));
    StrictlyOrdered(inventory.pins);
    var entries, forms := inventory.entries, Map(Canonical, inventory.entries);
    FilesInOrder(forms);
    forall e | e in entries ensures exists c :: c in SortBy(PathLe, forms) && IsFormOf(c, e) {
      assert IsPlaced(inventory.roots, e);
      FormIs(e);
      assert Canonical(e) in forms;
    }
    forall c | c in SortBy(PathLe, forms) ensures exists e :: e in entries && IsFormOf(c, e) {
      var i :| 0 <= i < |forms| && forms[i] == c;
      assert IsPlaced(inventory.roots, entries[i]);
      FormIs(entries[i]);
    }
  }

  lemma FilesInOrder(forms: seq<Entry>)
    requires Distinct(Map(PathOf, forms))
    ensures
      var sorted := SortBy(PathLe, forms);
      |sorted| == |forms| && (forall c :: c in sorted <==> c in forms)
      && forall i, j :: 0 <= i < j < |sorted| ==> ComesFirst(sorted[i].path, sorted[j].path)
  {
    hide SortBy, Distinct, TextLe, ComesFirst;
    var sorted := SortBy(PathLe, forms);
    PathLeRanks(forms);
    SortSorts(PathLe, forms);
    Arrangements(sorted, forms);
    MappedArrangements(PathOf, sorted, forms);
    forall i, j | 0 <= i < j < |sorted| ensures ComesFirst(sorted[i].path, sorted[j].path) {
      TextOrder(sorted[i].path, sorted[j].path);
      assert Map(PathOf, sorted)[i] == sorted[i].path && Map(PathOf, sorted)[j] == sorted[j].path;
      DifferentAt(Map(PathOf, sorted), i, j);
    }
  }

  lemma DifferentAt<T>(s: seq<T>, i: nat, j: nat)
    requires Distinct(s) && i < j < |s|
    ensures s[i] != s[j]
  {
  }
}
