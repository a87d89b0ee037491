/** What a package has to contain, for the tar and the Debian layout, and why a staged tree
    verifies under both. */
module PackageContents {
  import opened ByteStrings
  import opened PackageTree
  import opened GuideCopies
  import opened GuideExamples
  import L = PackageLinks
  import P = Paths

  datatype Target = Tar | Deb

  /** The rewriting of a guide for a prefix and a source base. */
  type Relocate = (Bytes, Bytes, Bytes) -> Bytes

  /** The rewriting the tool uses. */
  const COPY: Relocate := (raw: Bytes, prefix: Bytes, base: Bytes) => GuideCopy(raw, prefix, base)

  const BASE: Name := ["share", "doc", "suzaku"]
  const BASE_TEXT := Ascii("share/doc/suzaku")
  const DOCS_TEXT := Ascii("docs")
  const ROOT_DOCUMENTS := ["README.md", "SECURITY.md", "CONTRIBUTING.md", "DEVELOPMENT.md"]
  const LEXICONS: Name := ["data", "lexicons", "README.md"]
  const FLAT_GUIDES := ["linux-packaging-data.md", "model-providers.md", "ibus-candidates.md",
                        "translation.md", "interface-languages.md"]
  const COMPANION_GUIDES: seq<(Name, Bytes)> :=
    [(["data", "offline-packs", "README.md"], Ascii("../../../../suzaku/offline-packs")),
     (["sdk", "offline-packs", "README.md"], Ascii("../../../../suzaku/offline-pack-sdk"))]

  // ---------------------------------------------------------- dictionaries

  /** A dictionary assignment: the value replaced in place, or a new entry at the end. */
  function Put(items: seq<Item>, name: Name, data: Bytes): seq<Item> {
    if items == [] then [Item(name, data)]
    else if items[0].name == name then [Item(name, data)] + items[1..]
    else [items[0]] + Put(items[1..], name, data)
  }

  function Lookup(items: seq<Item>, name: Name): Option<Bytes> {
    if items == [] then None
    else if items[0].name == name then Some(items[0].data)
    else Lookup(items[1..], name)
  }

  predicate DistinctNames(items: seq<Item>) {
    items == [] || (Lookup(items[1..], items[0].name).None? && DistinctNames(items[1..]))
  }

  lemma {:induction false} PutLookup(items: seq<Item>, name: Name, data: Bytes, other: Name)
    ensures Lookup(Put(items, name, data), other) == if other == name then Some(data) else Lookup(items, other)
    decreases |items|
  {
    if items != [] && items[0].name != name {
      PutLookup(items[1..], name, data, other);
    }
  }

  lemma {:induction false} PutDistinct(items: seq<Item>, name: Name, data: Bytes)
    requires DistinctNames(items)
    ensures DistinctNames(Put(items, name, data))
    decreases |items|
  {
    if items == [] {
      assert [Item(name, data)][1..] == [];
    } else if items[0].name == name {
      assert ([Item(name, data)] + items[1..])[1..] == items[1..];
    } else {
      var put := Put(items[1..], name, data);
      assert ([items[0]] + put)[1..] == put;
      PutDistinct(items[1..], name, data);
      PutLookup(items[1..], name, data, items[0].name);
    }
  }

  lemma {:induction false} LookupHere(items: seq<Item>, i: nat)
    requires i < |items|
    ensures Lookup(items, items[i].name).Some?
    decreases i
  {
    if i > 0 {
      LookupHere(items[1..], i - 1);
    }
  }

  lemma {:induction false} LookupAt(items: seq<Item>, i: nat)
    requires DistinctNames(items) && i < |items|
    ensures Lookup(items, items[i].name) == Some(items[i].data)
    decreases i
  {
    if i > 0 {
      LookupHere(items[1..], i - 1);
      LookupAt(items[1..], i - 1);
    }
  }

  lemma {:induction false} LookupFinds(items: seq<Item>, name: Name) returns (i: nat)
    requires Lookup(items, name).Some?
    ensures i < |items| && items[i] == Item(name, Lookup(items, name).value)
    decreases |items|
  {
    if items[0].name == name {
      i := 0;
    } else {
      var j := LookupFinds(items[1..], name);
      i := j + 1;
    }
  }

  lemma {:induction false} DistinctIndexes(items: seq<Item>, i: nat, j: nat)
    requires DistinctNames(items) && i < j < |items|
    ensures items[i].name != items[j].name
    decreases i
  {
    if i == 0 {
      LookupHere(items[1..], j - 1);
    } else {
      DistinctIndexes(items[1..], i - 1, j - 1);
    }
  }

  // ------------------------------------------------------------- contents

  function Content(selected: seq<Item>, name: Name): Bytes {
    match Lookup(selected, name)
    case Some(data) => data
    case None => []
  }

  function Sources(selected: seq<Item>, n: nat): seq<Item>
    requires n <= |selected|
  {
    if n == 0 then [] else Put(Sources(selected, n - 1), BASE + selected[n - 1].name, selected[n - 1].data)
  }

  function Companions(selected: seq<Item>, relocate: Relocate, n: nat): seq<Item>
    requires n <= |COMPANION_GUIDES|
  {
    if n == 0 then Sources(selected, |selected|)
    else
      var (name, prefix) := COMPANION_GUIDES[n - 1];
      Put(Companions(selected, relocate, n - 1), BASE + name, relocate(Content(selected, name), prefix, []))
  }

  function RootName(guide: string): string {
    if guide == "linux-packaging-data.md" then "README.md" else guide
  }

  /** The packaging guide is the read-me of the unpacked tar; the other guides keep their name. */
  function Guides(selected: seq<Item>, relocate: Relocate, target: Target, n: nat): seq<Item>
    requires n <= |FLAT_GUIDES|
  {
    if n == 0 then Companions(selected, relocate, |COMPANION_GUIDES|)
    else
      var guide := FLAT_GUIDES[n - 1];
      var text := Content(selected, ["docs", guide]);
      var flat := Put(Guides(selected, relocate, target, n - 1), BASE + [guide], relocate(text, [], DOCS_TEXT));
      if target.Tar? then Put(flat, [RootName(guide)], relocate(text, BASE_TEXT, DOCS_TEXT)) else flat
  }

  function Expected(selected: seq<Item>, relocate: Relocate, target: Target): seq<Item> {
    Guides(selected, relocate, target, |FLAT_GUIDES|)
  }

  /** The dictionary of expected files, filled in the order of the source. */
  method ExpectedFiles(selected: seq<Item>, target: Target) returns (expected: seq<Item>)
    ensures expected == Expected(selected, COPY, target)
  {
    hide Put, Content, GuideCopy, RootName;
    expected := [];
    for n := 0 to |selected|
      invariant expected == Sources(selected, n)
    {
      expected := Put(expected, BASE + selected[n].name, selected[n].data);
    }
    for n := 0 to |COMPANION_GUIDES|
      invariant expected == Companions(selected, COPY, n)
    {
      var (name, prefix) := COMPANION_GUIDES[n];
      var copy := CopyGuide(Content(selected, name), prefix, []);
      expected := Put(expected, BASE + name, copy);
    }
    for n := 0 to |FLAT_GUIDES|
      invariant expected == Guides(selected, COPY, target, n)
    {
      var guide := FLAT_GUIDES[n];
      var text := Content(selected, ["docs", guide]);
      var copy := CopyGuide(text, [], DOCS_TEXT);
      expected := Put(expected, BASE + [guide], copy);
      if target.Tar? {
        var rootCopy := CopyGuide(text, BASE_TEXT, DOCS_TEXT);
        expected := Put(expected, [RootName(guide)], rootCopy);
      }
    }
  }

  // -------------------------------------------------------------- the names

  /** What the selection of source documents guarantees: files of a tree, at the places the
      policy names. */
  ghost predicate IsSelection(selected: seq<Item>) {
    PrefixFree(selected)
    && (forall i :: 0 <= i < |selected| ==> IsSource(selected[i].name) && |selected[i].data| <= MAX_FILE_BYTES)
    && (forall n :: 0 <= n < |COMPANION_GUIDES| ==> Lookup(selected, COMPANION_GUIDES[n].0).Some?)
    && (forall n :: 0 <= n < |FLAT_GUIDES| ==> Lookup(selected, ["docs", FLAT_GUIDES[n]]).Some?)
    && (forall d :: d in ROOT_DOCUMENTS ==> Lookup(selected, [d]).Some?) && Lookup(selected, LEXICONS).Some?
  }

  predicate IsSource(name: Name) {
    |name| >= 1 && (if |name| == 1 then name[0] in ROOT_DOCUMENTS else name[0] in {"docs", "data", "sdk"})
  }

  /** The names a package can expect. */
  predicate IsPackaged(selected: seq<Item>, target: Target, name: Name) {
    (|name| > 3 && name[..3] == BASE && Lookup(selected, name[3..]).Some?)
    || (|name| == 4 && name[..3] == BASE && name[3] in FLAT_GUIDES)
    || (target.Tar? && |name| == 1 && (name[0] == "README.md" || name[0] in FLAT_GUIDES))
  }

  lemma {:induction false} SourceNames(selected: seq<Item>, n: nat, name: Name)
    requires n <= |selected| && IsSelection(selected)
    ensures DistinctNames(Sources(selected, n))
    ensures Lookup(Sources(selected, n), name).Some? ==>
              |name| > 3 && name[..3] == BASE && Lookup(selected, name[3..]).Some?
    decreases n
  {
    hide Lookup, Put, DistinctNames, PrefixFree;
    if n == 0 {
      Nothing(name);
    } else {
      SourceNames(selected, n - 1, name);
      var s := selected[n - 1];
      PutDistinct(Sources(selected, n - 1), BASE + s.name, s.data);
      PutLookup(Sources(selected, n - 1), BASE + s.name, s.data, name);
      LookupHere(selected, n - 1);
      assert IsSource(s.name);
      assert (BASE + s.name)[..3] == BASE && (BASE + s.name)[3..] == s.name;
    }
  }

  lemma Nothing(name: Name)
    ensures DistinctNames([]) && Lookup([], name).None?
  {
  }

  lemma {:induction false} CompanionNames(selected: seq<Item>, relocate: Relocate, n: nat, name: Name)
    requires n <= |COMPANION_GUIDES| && IsSelection(selected)
    ensures DistinctNames(Companions(selected, relocate, n))
    ensures Lookup(Companions(selected, relocate, n), name).Some? ==>
              |name| > 3 && name[..3] == BASE && Lookup(selected, name[3..]).Some?
    decreases n
  {
    hide Lookup, Put, DistinctNames, PrefixFree, Sources, Content;
    if n == 0 {
      SourceNames(selected, |selected|, name);
    } else {
      CompanionNames(selected, relocate, n - 1, name);
      var (path, prefix) := COMPANION_GUIDES[n - 1];
      assert Lookup(selected, COMPANION_GUIDES[n - 1].0).Some?;
      var was, data := Companions(selected, relocate, n - 1), relocate(Content(selected, path), prefix, []);
      PutDistinct(was, BASE + path, data);
      PutLookup(was, BASE + path, data, name);
      assert (BASE + path)[..3] == BASE && (BASE + path)[3..] == path;
    }
  }

  /** The keys of the dictionary occur once and are packaged names; both layouts agree on
      everything except the guides in the root of the tar. */
  lemma {:induction false} GuideNames(selected: seq<Item>, relocate: Relocate, n: nat, name: Name, target: Target)
    requires n <= |FLAT_GUIDES| && IsSelection(selected)
    ensures DistinctNames(Guides(selected, relocate, target, n))
    ensures Lookup(Guides(selected, relocate, target, n), name).Some? ==> IsPackaged(selected, target, name)
    ensures |name| != 1 ==> Lookup(Guides(selected, relocate, Tar, n), name) == Lookup(Guides(selected, relocate, Deb, n), name)
    decreases n
  {
    hide Lookup, Put, DistinctNames, PrefixFree, Companions, Content, IsSelection;
    if n == 0 {
      CompanionNames(selected, relocate, |COMPANION_GUIDES|, name);
    } else {
      GuideNames(selected, relocate, n - 1, name, target);
      GuideStep(selected, relocate, n, name, target);
      GuideStep(selected, relocate, n, name, Tar);
      GuideStep(selected, relocate, n, name, Deb);
    }
  }

  lemma GuideStep(selected: seq<Item>, relocate: Relocate, n: nat, name: Name, target: Target)
    requires 1 <= n <= |FLAT_GUIDES|
    ensures
      var guide := FLAT_GUIDES[n - 1];
      var text := Content(selected, ["docs", guide]);
      var was, now := Guides(selected, relocate, target, n - 1), Guides(selected, relocate, target, n);
      (DistinctNames(was) ==> DistinctNames(now))
      && Lookup(now, name) == if target.Tar? && name == [RootName(guide)] then Some(relocate(text, BASE_TEXT, DOCS_TEXT))
                              else if name == BASE + [guide] then Some(relocate(text, [], DOCS_TEXT)) else Lookup(was, name)
  {
    hide Lookup, Put, DistinctNames, Content;
    var guide := FLAT_GUIDES[n - 1];
    var text := Content(selected, ["docs", guide]);
    var was := Guides(selected, relocate, target, n - 1);
    var flat := Put(was, BASE + [guide], relocate(text, [], DOCS_TEXT));
    PutLookup(was, BASE + [guide], relocate(text, [], DOCS_TEXT), name);
    PutLookup(flat, [RootName(guide)], relocate(text, BASE_TEXT, DOCS_TEXT), name);
    if DistinctNames(was) {
      PutDistinct(was, BASE + [guide], relocate(text, [], DOCS_TEXT));
      PutDistinct(flat, [RootName(guide)], relocate(text, BASE_TEXT, DOCS_TEXT));
    }
  }

  /** No packaged name lies on the way to another. */
  lemma PackagedApart(selected: seq<Item>, target: Target, a: Name, b: Name)
    requires IsSelection(selected) && IsPackaged(selected, target, a) && IsPackaged(selected, target, b) && a != b
    ensures !(a <= b)
  {
    hide IsSelection, PrefixFree, Lookup;
    if |a| == 1 {
      assert |b| > 1 ==> b[0] == b[..3][0];
      assert "share" != "README.md" && "share" !in FLAT_GUIDES;
    } else if |b| > |a| {
      var x, y := a[3..], b[3..];
      SourcesApart(selected, x, y);
      assert a <= b ==> x <= y;
    }
  }

  lemma {:induction false} SourcesApart(selected: seq<Item>, a: Name, b: Name)
    requires IsSelection(selected) && Lookup(selected, b).Some? && a != b && a != []
    requires Lookup(selected, a).Some? || (|a| == 1 && a[0] in FLAT_GUIDES)
    ensures !(a <= b)
  {
    var j := LookupFinds(selected, b);
    assert IsSource(selected[j].name);
    if Lookup(selected, a).Some? {
      var i := LookupFinds(selected, a);
      assert !(selected[i].name <= selected[j].name);
    } else {
      assert forall n :: 0 <= n < |FLAT_GUIDES| ==> FLAT_GUIDES[n] !in {"docs", "data", "sdk"};
      assert b[0] != a[0];
    }
  }

  // ---------------------------------------------------------------- theorem

  lemma PackagedIsNamed(selected: seq<Item>, target: Target)
    ensures !IsPackaged(selected, target, [])
  {
  }

  /** No expected file is, or lies on the way to, another. */
  lemma ExpectedIsPrefixFree(selected: seq<Item>, relocate: Relocate, target: Target)
    requires IsSelection(selected)
    ensures PrefixFree(Expected(selected, relocate, target)) && DistinctNames(Expected(selected, relocate, target))
    ensures forall i :: 0 <= i < |Expected(selected, relocate, target)| ==> Expected(selected, relocate, target)[i].name != []
  {
    hide Lookup, DistinctNames, Guides, IsSelection, Below, IsPackaged;
    var items := Expected(selected, relocate, target);
    GuideNames(selected, relocate, |FLAT_GUIDES|, [], target);
    forall i | 0 <= i < |items| ensures IsPackaged(selected, target, items[i].name) {
      GuideNames(selected, relocate, |FLAT_GUIDES|, items[i].name, target);
      LookupHere(items, i);
    }
    PackagedIsNamed(selected, target);
    forall i, j | 0 <= i < |items| && 0 <= j < |items| && i != j ensures !(items[i].name <= items[j].name) {
      if i < j { DistinctIndexes(items, i, j); } else { DistinctIndexes(items, j, i); }
      PackagedApart(selected, target, items[i].name, items[j].name);
    }
  }

  /** Only directories below the documentation tree: no packaged docs yet. */
  predicate NoDocs(t: Nodes) {
    forall p :: p in t.Keys && Below(DOCS, p) ==> t[p].Dir?
  }

  predicate AllSmall(items: seq<Item>) {
    forall i :: 0 <= i < |items| ==> |items[i].data| <= MAX_FILE_BYTES
  }

  lemma ExpectedHas(selected: seq<Item>, relocate: Relocate, target: Target, p: Name)
    ensures IsExpected(Expected(selected, relocate, target), p) <==> Lookup(Expected(selected, relocate, target), p).Some?
  {
    hide Guides;
    var items := Expected(selected, relocate, target);
    if IsExpected(items, p) {
      var i :| 0 <= i < |items| && items[i].name == p;
      LookupHere(items, i);
    }
    if Lookup(items, p).Some? {
      var i := LookupFinds(items, p);
    }
  }

  /** What a layout expects, the tar expects, too. */
  lemma SameItem(selected: seq<Item>, relocate: Relocate, target: Target, i: nat) returns (m: nat)
    requires IsSelection(selected) && i < |Expected(selected, relocate, target)|
    ensures m < |Expected(selected, relocate, Tar)| && Expected(selected, relocate, Tar)[m] == Expected(selected, relocate, target)[i]
  {
    hide Lookup, DistinctNames, Guides, IsSelection, PrefixFree;
    var items, expected := Expected(selected, relocate, Tar), Expected(selected, relocate, target);
    if target.Tar? {
      m := i;
    } else {
      var name := expected[i].name;
      GuideNames(selected, relocate, |FLAT_GUIDES|, name, target);
      LookupAt(expected, i);
      m := LookupFinds(items, name);
    }
  }

  /** Below the documentation tree all layouts expect the same. */
  lemma SameDocs(selected: seq<Item>, relocate: Relocate, target: Target, p: Name)
    requires IsSelection(selected) && Below(DOCS, p)
    ensures IsExpected(Expected(selected, relocate, target), p) == IsExpected(Expected(selected, relocate, Tar), p)
  {
    hide Lookup, DistinctNames, Guides, IsSelection, PrefixFree, IsExpected;
    ExpectedHas(selected, relocate, target, p);
    ExpectedHas(selected, relocate, Tar, p);
    GuideNames(selected, relocate, |FLAT_GUIDES|, p, target);
  }

  /** A staged item is where it should be, and can be reached. */
  lemma ItemStaged(t: Nodes, items: seq<Item>, m: nat, now: Nodes)
    requires IsTree(now) && PrefixFree(items) && Holds(t, items, |items|, now) && m < |items|
    ensures Reaches(now, items[m].name) && At(now, items[m].name) == Some(File(items[m].data))
  {
    hide Staged;
    var name := items[m].name;
    StagedFacts(t, items, |items|, name);
    assert At(now, name) == Staged(t, items, |items|, name);
    assert forall k :: 0 <= k < |name| ==> Below(name[..k], name);
  }

  lemma FreshIsFree(t: Nodes, items: seq<Item>, i: nat)
    requires AllFresh(t, items) && i < |items|
    ensures items[i].name !in t
  {
    assert CanCreate(t, items[i].name);
  }

  /** A tree into which the tar layout has been staged verifies, for the tar and for the Debian
      layout, exactly if no expected file is over the size limit and the tree had no packaged
      docs before. */
  lemma StagedTreeVerifies(t: Nodes, now: Nodes, selected: seq<Item>, relocate: Relocate, target: Target)
    requires IsSelection(selected) && IsTree(t) && AllFresh(t, Expected(selected, relocate, Tar))
    requires
      var items := Expected(selected, relocate, Tar);
      Holds(t, items, |items|, now)
    ensures
      var expected := Expected(selected, relocate, target);
      IsExact(now, expected) <==> AllSmall(expected) && NoDocs(t)
  {
    hide Lookup, DistinctNames, Guides, IsSelection, Below, IsPackaged, Staged, PrefixFree, CanCreate, IsTree, DOCS;
    var items, expected := Expected(selected, relocate, Tar), Expected(selected, relocate, target);
    ExpectedIsPrefixFree(selected, relocate, Tar);
    ExpectedIsPrefixFree(selected, relocate, target);
    StagedIsTree(t, items, now);
    forall i | 0 <= i < |expected|
      ensures Reaches(now, expected[i].name) && At(now, expected[i].name) == Some(File(expected[i].data))
    {
      var m := SameItem(selected, relocate, target, i);
      ItemStaged(t, items, m, now);
    }
    forall p | Below(DOCS, p)
      ensures IsExpected(expected, p) == IsExpected(items, p)
      ensures !IsExpected(items, p) ==> p in t ==> At(now, p) == Some(t[p])
      ensures IsExpected(items, p) ==> p !in t
      ensures !IsExpected(items, p) && p !in t && p in now ==> now[p].Dir?
    {
      SameDocs(selected, relocate, target, p);
      StagedFacts(t, items, |items|, p);
      assert At(now, p) == Staged(t, items, |items|, p);
      if IsExpected(items, p) {
        var i :| 0 <= i < |items| && items[i].name == p;
        FreshIsFree(t, items, i);
      }
    }
  }

  // ------------------------------------------------------- guides that grow

  const MAX_FILES := 4096
  const MAX_TOTAL_BYTES := 128 * 1024 * 1024

  function TotalBytes(items: seq<Item>): nat {
    if items == [] then 0 else |items[0].data| + TotalBytes(items[1..])
  }

  /** The limits on the whole selection. */
  predicate InLimits(selected: seq<Item>) {
    |selected| <= MAX_FILES && TotalBytes(selected) <= MAX_TOTAL_BYTES
  }

  lemma {:induction false} PutInPlace(items: seq<Item>, name: Name, data: Bytes)
    requires Lookup(items, name).Some?
    ensures
      var now := Put(items, name, data);
      |now| == |items| && TotalBytes(now) <= TotalBytes(items) + |data|
      && forall i :: 0 <= i < |items| ==>
           now[i].name == items[i].name && (now[i].data == items[i].data || now[i].data == data)
    decreases |items|
  {
    if items[0].name == name {
      assert ([Item(name, data)] + items[1..])[1..] == items[1..];
    } else {
      PutInPlace(items[1..], name, data);
      var put := Put(items[1..], name, data);
      assert ([items[0]] + put)[1..] == put;
    }
  }

  /** Other text for a document leaves the selection one. */
  lemma SelectionKept(selected: seq<Item>, name: Name, data: Bytes)
    requires IsSelection(selected) && Lookup(selected, name).Some? && |data| <= MAX_FILE_BYTES
    ensures IsSelection(Put(selected, name, data))
  {
    hide Put, Lookup, IsSource;
    var now := Put(selected, name, data);
    PutInPlace(selected, name, data);
    forall other: Name | Lookup(selected, other).Some? ensures Lookup(now, other).Some? {
      PutLookup(selected, name, data, other);
    }
  }

  /** The read-me of the data directory's offline lexicons. */
  const COMPANION: Name := ["data", "offline-packs", "README.md"]

  /** What is expected in place of that guide. */
  lemma CompanionExpected(selected: seq<Item>, relocate: Relocate, target: Target)
    ensures Lookup(Expected(selected, relocate, target), BASE + COMPANION)
         == Some(relocate(Content(selected, COMPANION), COMPANION_GUIDES[0].1, []))
  {
    hide Lookup, Put, Content, Companions, Guides;
    var name := BASE + COMPANION;
    NamesApart();
    CompanionStep(selected, relocate, 1, name);
    CompanionStep(selected, relocate, 2, name);
    LongNamesKept(selected, relocate, target, |FLAT_GUIDES|, name);
  }

  lemma CompanionStep(selected: seq<Item>, relocate: Relocate, n: nat, other: Name)
    requires 1 <= n <= |COMPANION_GUIDES|
    ensures
      var (name, prefix) := COMPANION_GUIDES[n - 1];
      Lookup(Companions(selected, relocate, n), other)
      == if other == BASE + name then Some(relocate(Content(selected, name), prefix, []))
         else Lookup(Companions(selected, relocate, n - 1), other)
  {
    hide Lookup, Put, Content;
    var (name, prefix) := COMPANION_GUIDES[n - 1];
    PutLookup(Companions(selected, relocate, n - 1), BASE + name, relocate(Content(selected, name), prefix, []), other);
  }

  lemma NamesApart()
    ensures BASE + COMPANION_GUIDES[1].0 != BASE + COMPANION && COMPANION_GUIDES[0].0 == COMPANION
  {
    assert (BASE + COMPANION)[3] == "data" && (BASE + COMPANION_GUIDES[1].0)[3] == "sdk";
  }

  lemma {:induction false} LongNamesKept(selected: seq<Item>, relocate: Relocate, target: Target, n: nat, name: Name)
    requires n <= |FLAT_GUIDES| && |name| > 4
    ensures Lookup(Guides(selected, relocate, target, n), name) == Lookup(Companions(selected, relocate, 2), name)
    decreases n
  {
    hide Lookup, Companions, Content, DistinctNames;
    if n > 0 {
      hide Guides;
      LongNamesKept(selected, relocate, target, n - 1, name);
      GuideStep(selected, relocate, n, name, target);
    }
  }

  /** A companion guide of this many links `[](a)`, 6 bytes each, has lines of 39 bytes in its
      mirror. */
  const LINKS := 500000

  lemma LinkListOutgrows()
    ensures |LinkList(LINKS)| == 3000000
    ensures |GuideCopy(LinkList(LINKS), COMPANION_GUIDES[0].1, [])| == 19500000
  {
    hide LinkList, ReadText, Moved, Ascii, P.Unsplit;
    var f := MoverOf(COMPANION_GUIDES[0].1, []);
    PrefixText();
    CompanionLinkLength();
    LinkListIsText(LINKS);
    LinkListGrows(LINKS, f);
  }

  /** The prefix of the companion guide is that of its layout. */
  lemma PrefixText()
    ensures COMPANION_GUIDES[0].1 == P.Unsplit(L.DATA_GUIDE.prefix)
  {
    hide Ascii, P.Unsplit;
    WayText(L.SUZAKU, L.PACKS);
    JoinedTexts();
    PathText();
    UpsText();
  }

  lemma JoinedTexts()
    ensures Ascii("../../../../suzaku/offline-packs") == Ascii("../../../../") + Ascii("suzaku/offline-packs")
  {
    hide Ascii;
    AsciiConcat("../../../../", "suzaku/offline-packs");
    assert "../../../../" + "suzaku/offline-packs" == "../../../../suzaku/offline-packs";
  }

  lemma PathText()
    ensures Ascii("suzaku/offline-packs") == L.SUZAKU + ([SLASH] + L.PACKS)
  {
    hide Ascii;
    AsciiConcat("suzaku", "/offline-packs");
    AsciiConcat("/", "offline-packs");
    SlashText();
    assert "suzaku" + "/offline-packs" == "suzaku/offline-packs";
    assert "/" + "offline-packs" == "/offline-packs";
  }

  lemma SdkPrefixText()
    ensures COMPANION_GUIDES[1].1 == P.Unsplit(L.SDK_GUIDE.prefix)
  {
    hide Ascii, P.Unsplit;
    WayText(L.SUZAKU, L.PACK_SDK);
    JoinedSdkTexts();
    SdkPathText();
    UpsText();
  }

  lemma JoinedSdkTexts()
    ensures Ascii("../../../../suzaku/offline-pack-sdk") == Ascii("../../../../") + Ascii("suzaku/offline-pack-sdk")
  {
    hide Ascii;
    AsciiConcat("../../../../", "suzaku/offline-pack-sdk");
    assert "../../../../" + "suzaku/offline-pack-sdk" == "../../../../suzaku/offline-pack-sdk";
  }

  lemma SdkPathText()
    ensures Ascii("suzaku/offline-pack-sdk") == L.SUZAKU + ([SLASH] + L.PACK_SDK)
  {
    hide Ascii;
    AsciiConcat("suzaku", "/offline-pack-sdk");
    AsciiConcat("/", "offline-pack-sdk");
    SlashText();
    SdkPathParts();
  }

  lemma SdkPathParts()
    ensures "suzaku" + "/offline-pack-sdk" == "suzaku/offline-pack-sdk" && "/" + "offline-pack-sdk" == "/offline-pack-sdk"
  {
  }

  lemma BaseText()
    ensures BASE_TEXT == P.Unsplit(L.BASE)
  {
    hide Ascii, P.Unsplit;
    SlashText();
    P.OnePartText(L.SUZAKU);
    P.PartsBehind(L.DOC, [L.SUZAKU]);
    P.PartsBehind(L.SHARE, [L.DOC] + [L.SUZAKU]);
    assert L.BASE == [L.SHARE] + ([L.DOC] + [L.SUZAKU]);
    BaseTexts();
  }

  lemma BaseTexts()
    ensures BASE_TEXT == L.SHARE + [SLASH] + (L.DOC + [SLASH] + L.SUZAKU)
  {
    hide Ascii;
    SlashText();
    AsciiConcat("share", "/doc/suzaku");
    AsciiConcat("/", "doc/suzaku");
    AsciiConcat("doc", "/suzaku");
    AsciiConcat("/", "suzaku");
    assert "share" + "/doc/suzaku" == "share/doc/suzaku" && "/" + "doc/suzaku" == "/doc/suzaku";
    assert "doc" + "/suzaku" == "doc/suzaku" && "/" + "suzaku" == "/suzaku";
  }

  /** The prefixes and bases of the copies are those of the layouts for which links are proved to
      keep their meaning. */
  lemma CopiesAreLayouts()
    ensures COMPANION_GUIDES[0].1 == P.Unsplit(L.DATA_GUIDE.prefix) && [] == P.Unsplit(L.DATA_GUIDE.base)
    ensures COMPANION_GUIDES[1].1 == P.Unsplit(L.SDK_GUIDE.prefix) && [] == P.Unsplit(L.SDK_GUIDE.base)
    ensures [] == P.Unsplit(L.FLAT.prefix) && DOCS_TEXT == P.Unsplit(L.FLAT.base)
    ensures BASE_TEXT == P.Unsplit(L.TAR_ROOT.prefix) && DOCS_TEXT == P.Unsplit(L.TAR_ROOT.base)
  {
    hide Ascii, P.Unsplit;
    PrefixText();
    SdkPrefixText();
    BaseText();
    NoPartsText();
    P.OnePartText(DOCS_TEXT);
  }

  const UPS_TEXT: Bytes := [DOT, DOT, SLASH, DOT, DOT, SLASH, DOT, DOT, SLASH, DOT, DOT, SLASH]

  lemma UpsText()
    ensures Ascii("../../../../") == UPS_TEXT
  {
  }

  lemma WayText(a: Bytes, b: Bytes)
    ensures P.Unsplit(P.Ups(4) + [a, b]) == UPS_TEXT + (a + ([SLASH] + b))
  {
    hide P.Unsplit;
    var down := [a] + [b];
    P.OnePartText(b);
    P.PartsBehind(a, [b]);
    P.PartsBehind(P.DOTS, down);
    P.PartsBehind(P.DOTS, [P.DOTS] + down);
    P.PartsBehind(P.DOTS, [P.DOTS] + ([P.DOTS] + down));
    P.PartsBehind(P.DOTS, [P.DOTS] + ([P.DOTS] + ([P.DOTS] + down)));
    assert P.Ups(4) + [a, b] == [P.DOTS] + ([P.DOTS] + ([P.DOTS] + ([P.DOTS] + down)));
  }

  /** For every selection with some room left there is a text of a companion guide, within the
      limits, whose mirror is over the limit. */
  lemma GuideCanOutgrow(selected: seq<Item>, target: Target)
    requires IsSelection(selected) && InLimits(selected) && TotalBytes(selected) + LINKS * 6 <= MAX_TOTAL_BYTES
    ensures
      var grown := Put(selected, COMPANION, LinkList(LINKS));
      IsSelection(grown) && InLimits(grown) && !AllSmall(Expected(grown, COPY, target))
  {
    hide Put, Lookup, Expected, IsSelection, LinkList, GuideCopy, TotalBytes, Ascii;
    var grown := Put(selected, COMPANION, LinkList(LINKS));
    LinkListOutgrows();
    CompanionSelected(selected);
    PutInPlace(selected, COMPANION, LinkList(LINKS));
    SelectionKept(selected, COMPANION, LinkList(LINKS));
    PutLookup(selected, COMPANION, LinkList(LINKS), COMPANION);
    CompanionExpected(grown, COPY, target);
    var i := LookupFinds(Expected(grown, COPY, target), BASE + COMPANION);
    assert |Expected(grown, COPY, target)[i].data| == 19500000;
  }

  lemma CompanionSelected(selected: seq<Item>)
    requires IsSelection(selected)
    ensures Lookup(selected, COMPANION).Some?
  {
    hide Lookup;
    NamesApart();
    assert Lookup(selected, COMPANION_GUIDES[0].0).Some?;
  }

  /** The documents that a selection must have, all of them empty. */
  const EMPTY_GUIDES: seq<Item> :=
    [Item(["docs", FLAT_GUIDES[0]], []), Item(["docs", FLAT_GUIDES[1]], []), Item(["docs", FLAT_GUIDES[2]], []),
     Item(["docs", FLAT_GUIDES[3]], []), Item(["docs", FLAT_GUIDES[4]], []),
     Item(["README.md"], []), Item(["SECURITY.md"], []), Item(["CONTRIBUTING.md"], []), Item(["DEVELOPMENT.md"], []),
     Item(COMPANION_GUIDES[1].0, []), Item(COMPANION_GUIDES[0].0, []), Item(LEXICONS, [])]

  lemma GuidesDiffer(i: nat, j: nat)
    requires i < 5 && j < 5 && i != j
    ensures |FLAT_GUIDES| == 5 && FLAT_GUIDES[i] != FLAT_GUIDES[j]
  {
    assert |FLAT_GUIDES[0]| == 23 && |FLAT_GUIDES[1]| == 18 && |FLAT_GUIDES[2]| == 18 && |FLAT_GUIDES[3]| == 14;
    assert |FLAT_GUIDES[4]| == 22 && FLAT_GUIDES[1][0] == 'm' && FLAT_GUIDES[2][0] == 'i';
  }

  lemma ApartAtStart(a: Name, b: Name)
    requires a != [] && b != [] && a[0] != b[0]
    ensures !(a <= b)
  {
  }

  lemma ApartInside(a: Name, b: Name)
    requires |a| > 1 && |b| > 1 && a[1] != b[1]
    ensures !(a <= b)
  {
  }

  /** What the names of these documents begin with. */
  function FirstName(i: nat): string {
    if i < 5 then "docs" else if i == 5 then "README.md" else if i == 6 then "SECURITY.md"
    else if i == 7 then "CONTRIBUTING.md" else if i == 8 then "DEVELOPMENT.md" else if i == 9 then "sdk" else "data"
  }

  lemma FirstNames(i: nat)
    requires i < |EMPTY_GUIDES|
    ensures EMPTY_GUIDES[i].name != [] && EMPTY_GUIDES[i].name[0] == FirstName(i)
  {
    hide FLAT_GUIDES;
  }

  lemma FirstNamesDiffer(i: nat, j: nat)
    requires i < j && j >= 5 && i < 10
    ensures FirstName(i) != FirstName(j)
  {
    assert "docs"[1] != "data"[1];
  }

  lemma EmptyGuidesApart(i: nat, j: nat)
    requires i < |EMPTY_GUIDES| && j < |EMPTY_GUIDES| && i != j
    ensures !(EMPTY_GUIDES[i].name <= EMPTY_GUIDES[j].name)
  {
    hide FLAT_GUIDES, FirstName;
    var a, b := EMPTY_GUIDES[i].name, EMPTY_GUIDES[j].name;
    if i < 5 && j < 5 {
      GuidesDiffer(i, j);
      assert a[1] == FLAT_GUIDES[i] && b[1] == FLAT_GUIDES[j];
      ApartInside(a, b);
    } else if i >= 10 && j >= 10 {
      assert "offline-packs" != "lexicons";
      ApartInside(a, b);
    } else {
      FirstNames(i);
      FirstNames(j);
      if i < j { FirstNamesDiffer(i, j); } else { FirstNamesDiffer(j, i); }
      ApartAtStart(a, b);
    }
  }

  lemma EmptyGuidesFound(i: nat)
    requires i < |EMPTY_GUIDES|
    ensures Lookup(EMPTY_GUIDES, EMPTY_GUIDES[i].name).Some? && IsSource(EMPTY_GUIDES[i].name)
  {
    hide Lookup, FLAT_GUIDES;
    LookupHere(EMPTY_GUIDES, i);
  }

  lemma EmptyGuidesNames()
    ensures forall n :: 0 <= n < |FLAT_GUIDES| ==> n < |EMPTY_GUIDES| && EMPTY_GUIDES[n].name == ["docs", FLAT_GUIDES[n]]
    ensures |EMPTY_GUIDES| == 12 && forall i :: 0 <= i < 12 ==> EMPTY_GUIDES[i].data == []
    ensures EMPTY_GUIDES[9].name == COMPANION_GUIDES[1].0 && EMPTY_GUIDES[10].name == COMPANION_GUIDES[0].0
    ensures EMPTY_GUIDES[11].name == LEXICONS
    ensures EMPTY_GUIDES[5].name == ["README.md"] && EMPTY_GUIDES[6].name == ["SECURITY.md"]
    ensures EMPTY_GUIDES[7].name == ["CONTRIBUTING.md"] && EMPTY_GUIDES[8].name == ["DEVELOPMENT.md"]
  {
  }

  lemma EmptyGuidesPrefixFree()
    ensures PrefixFree(EMPTY_GUIDES)
  {
    hide EMPTY_GUIDES;
    forall i, j | 0 <= i < |EMPTY_GUIDES| && 0 <= j < |EMPTY_GUIDES| && i != j
      ensures !(EMPTY_GUIDES[i].name <= EMPTY_GUIDES[j].name)
    {
      EmptyGuidesApart(i, j);
    }
  }

  lemma EmptyGuidesSelected()
    ensures IsSelection(EMPTY_GUIDES)
  {
    hide Lookup, IsSource, PrefixFree, EMPTY_GUIDES, FLAT_GUIDES, LEXICONS;
    EmptyGuidesPrefixFree();
    EmptyGuidesNames();
    forall i | 0 <= i < |EMPTY_GUIDES|
      ensures Lookup(EMPTY_GUIDES, EMPTY_GUIDES[i].name).Some? && IsSource(EMPTY_GUIDES[i].name)
    {
      EmptyGuidesFound(i);
    }
  }

  lemma {:induction false} NoBytes(items: seq<Item>)
    requires forall i :: 0 <= i < |items| ==> items[i].data == []
    ensures TotalBytes(items) == 0
    decreases |items|
  {
    if items != [] {
      NoBytes(items[1..]);
    }
  }

  /** So there is a selection that the tool accepts, stages and refuses. */
  lemma OutgrownSelection(target: Target)
    ensures
      var grown := Put(EMPTY_GUIDES, COMPANION, LinkList(LINKS));
      IsSelection(grown) && InLimits(grown) && !AllSmall(Expected(grown, COPY, target))
  {
    hide IsSelection, Expected, Put, LinkList;
    EmptyGuidesSelected();
    NoBytes(EMPTY_GUIDES);
    GuideCanOutgrow(EMPTY_GUIDES, target);
  }

  /** Such a tree is staged, and then does not verify, for neither layout. */
  lemma OutgrownTreeFails(t: Nodes, now: Nodes, selected: seq<Item>, target: Target)
    requires IsSelection(selected) && InLimits(selected) && TotalBytes(selected) + LINKS * 6 <= MAX_TOTAL_BYTES
    requires IsTree(t) && AllFresh(t, Expected(Put(selected, COMPANION, LinkList(LINKS)), COPY, Tar))
    requires
      var items := Expected(Put(selected, COMPANION, LinkList(LINKS)), COPY, Tar);
      Holds(t, items, |items|, now)
    ensures !IsExact(now, Expected(Put(selected, COMPANION, LinkList(LINKS)), COPY, target))
  {
    hide Expected, IsSelection, LinkList, IsTree, AllFresh, Holds, IsExact, Put;
    GuideCanOutgrow(selected, target);
    StagedTreeVerifies(t, now, Put(selected, COMPANION, LinkList(LINKS)), COPY, target);
  }
}
