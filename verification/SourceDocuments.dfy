/** The choice of the documents that go into a package: a walk over the documentation tree, and
    the documents that are always there. */
module SourceDocuments {
  import opened Texts
  import opened PackageTree
  import opened PackageContents

  const DOCS_TREE: Name := ["docs"]
  const STATIC_SUFFIXES := {".md", ".mmd", ".json"}

  /** The documents outside the documentation tree, and the directories they have to be in. */
  const ALWAYS: seq<Name> :=
    [["README.md"], ["SECURITY.md"], ["CONTRIBUTING.md"], ["DEVELOPMENT.md"], LEXICONS, COMPANION_GUIDES[0].0,
     COMPANION_GUIDES[1].0]
  const PARENTS: seq<Name> :=
    [["data"], ["data", "lexicons"], ["data", "offline-packs"], ["sdk"], ["sdk", "offline-packs"]]

  // ------------------------------------------------------------------ names

  /** The index of the last dot, or the length when there is none. */
  function LastDot(s: string): (k: nat)
    ensures k <= |s| && (k < |s| ==> s[k] == '.')
    ensures forall j :: k < j < |s| ==> s[j] != '.'
    ensures k == |s| ==> '.' !in s
  {
    if s == "" then 0
    else if s[|s| - 1] == '.' then |s| - 1
    else
      var k := LastDot(s[..|s| - 1]);
      if k == |s| - 1 then |s| else k
  }

  /** The suffix of a file name: what its last dot begins, unless that is its first or last
      character. */
  function Suffix(name: string): string {
    var k := LastDot(name);
    if 0 < k < |name| - 1 then name[k..] else ""
  }

  predicate IsStatic(p: Name) {
    p != [] && Suffix(p[|p| - 1]) in STATIC_SUFFIXES
  }

  /** The last dot is the one that begins a tail without further dots. */
  lemma LastDotIs(s: string, i: nat)
    requires i < |s| && s[i] == '.' && '.' !in s[i + 1..]
    ensures LastDot(s) == i
  {
    hide LastDot;
    assert s[i] in s;
    forall j | i < j < |s| ensures s[j] != '.' {
      assert s[j] == s[i + 1..][j - i - 1];
    }
  }

  /** The name is something before the suffix. */
  ghost predicate HasSuffix(name: string, suffix: string) {
    exists stem: string :: stem != "" && name == stem + suffix
  }

  lemma SuffixIs(name: string, rest: string)
    requires '.' !in rest && rest != ""
    ensures Suffix(name) == "." + rest <==> HasSuffix(name, "." + rest)
  {
    hide LastDot;
    var suffix := "." + rest;
    if Suffix(name) == suffix {
      assert name == name[..LastDot(name)] + suffix;
    }
    if stem: string :| stem != "" && name == stem + suffix {
      SuffixBehind(name, stem, suffix);
    }
  }

  lemma SuffixBehind(name: string, stem: string, suffix: string)
    requires |suffix| >= 2 && suffix[0] == '.' && '.' !in suffix[1..] && stem != "" && name == stem + suffix
    ensures Suffix(name) == suffix
  {
    hide LastDot;
    assert name[|stem| + 1..] == suffix[1..];
    LastDotIs(name, |stem|);
    assert name[|stem|..] == suffix;
  }

  /** The documents of the policy have something before one of the three suffixes. */
  lemma StaticIs(p: Name)
    ensures IsStatic(p) <==>
            p != [] && (HasSuffix(p[|p| - 1], ".md") || HasSuffix(p[|p| - 1], ".mmd") || HasSuffix(p[|p| - 1], ".json"))
  {
    hide Suffix, HasSuffix;
    if p != [] {
      SuffixTexts();
      SuffixIs(p[|p| - 1], "md");
      SuffixIs(p[|p| - 1], "mmd");
      SuffixIs(p[|p| - 1], "json");
    }
  }

  lemma SuffixTexts()
    ensures "." + "md" == ".md" && "." + "mmd" == ".mmd" && "." + "json" == ".json"
  {
  }

  // ------------------------------------------------------------- the policy

  predicate IsDir(t: Nodes, p: Name) {
    p in t && t[p].Dir?
  }

  /** Below the directory there are only directories and static documents. */
  predicate IsTidy(t: Nodes, dir: Name) {
    forall p :: p in t.Keys && Below(dir, p) ==> t[p].Dir? || (t[p].File? && IsStatic(p))
  }

  /** The repository has the documents that the policy asks for, and nothing else among them. */
  predicate IsOrderly(t: Nodes) {
    IsDir(t, DOCS_TREE) && IsTidy(t, DOCS_TREE)
    && (forall i :: 0 <= i < |PARENTS| ==> IsDir(t, PARENTS[i]))
    && (forall i :: 0 <= i < |ALWAYS| ==> IsRegular(t, ALWAYS[i]))
    && (forall p :: p in t.Keys && Below(DOCS_TREE, p) && t[p].File? ==> IsRegular(t, p))
    && forall i :: 0 <= i < |FLAT_GUIDES| ==> ["docs", FLAT_GUIDES[i]] in t && t[["docs", FLAT_GUIDES[i]]].File?
  }

  /** The items are the files with these names, each once. */
  ghost predicate AreFiles(t: Nodes, items: seq<Item>) {
    (forall i :: 0 <= i < |items| ==> items[i].name in t && t[items[i].name] == File(items[i].data))
    && forall i, j :: 0 <= i < j < |items| ==> items[i].name != items[j].name
  }

  predicate HasName(items: seq<Item>, p: Name) {
    exists i | 0 <= i < |items| :: items[i].name == p
  }

  /** The items are all the files below the directory. */
  ghost predicate AreBelow(t: Nodes, items: seq<Item>, dir: Name) {
    AreFiles(t, items) && forall p :: HasName(items, p) <==> p in t && Below(dir, p) && t[p].File?
  }

  // --------------------------------------------------------------- the walk

  function Inside(t: Nodes, dir: Name): set<Name> {
    set p | p in t.Keys && Below(dir, p)
  }

  /** The names in a directory, sorted. */
  method List(t: Nodes, dir: Name) returns (names: seq<string>)
    ensures Distinct(names)
    ensures forall c :: c in names <==> dir + [c] in t
  {
    var left := set p | p in t.Keys && |p| == |dir| + 1 && dir < p :: p[|dir|];
    InDirectory(t, dir, left);
    names := [];
    while left != {}
      invariant Distinct(names) && forall c :: c in left ==> c !in names
      invariant forall c :: c in names || c in left <==> dir + [c] in t
      decreases left
    {
      var c :| c in left;
      left := left - {c};
      DistinctCons(c, names);
      names := [c] + names;
    }
    SortedTexts(names);
    DistinctPermutes(names, SortTexts(names));
    SameMembers(names, SortTexts(names));
    names := SortTexts(names);
  }

  lemma SameMembers(a: seq<string>, b: seq<string>)
    requires multiset(a) == multiset(b)
    ensures forall c :: c in a <==> c in b
  {
    assert forall c :: c in a <==> c in multiset(a);
    assert forall c :: c in b <==> c in multiset(b);
  }

  lemma InDirectory(t: Nodes, dir: Name, names: set<string>)
    requires names == set p | p in t.Keys && |p| == |dir| + 1 && dir < p :: p[|dir|]
    ensures forall c :: c in names <==> dir + [c] in t
  {
    forall c ensures c in names <==> dir + [c] in t {
      if c in names {
        var p :| p in t.Keys && |p| == |dir| + 1 && dir < p && p[|dir|] == c;
        assert p == dir + [c];
      }
      if dir + [c] in t {
        assert (dir + [c])[|dir|] == c && dir < dir + [c];
      }
    }
  }

  /** An entry the walk accepts: a tidy directory, or a static document. */
  predicate IsTidyEntry(t: Nodes, p: Name) {
    p in t && ((t[p].Dir? && IsTidy(t, p)) || (t[p].File? && IsStatic(p)))
  }

  /** What lies below a directory lies in one of its entries. */
  lemma EntryOf(t: Nodes, dir: Name, p: Name)
    requires IsTree(t) && p in t && Below(dir, p)
    ensures dir + [p[|dir|]] in t && dir + [p[|dir|]] <= p
    ensures p != dir + [p[|dir|]] ==> Below(dir + [p[|dir|]], p) && t[dir + [p[|dir|]]].Dir?
  {
    var q := dir + [p[|dir|]];
    assert q == p[..|dir| + 1];
    if p != q {
      assert Below(q, p);
    }
  }

  lemma TidyEntries(t: Nodes, dir: Name, names: seq<string>)
    requires IsTree(t) && forall c :: c in names <==> dir + [c] in t
    ensures IsTidy(t, dir) <==> forall n :: 0 <= n < |names| ==> IsTidyEntry(t, dir + [names[n]])
  {
    if IsTidy(t, dir) {
      forall n | 0 <= n < |names| ensures IsTidyEntry(t, dir + [names[n]]) {
        var q := dir + [names[n]];
        assert names[n] in names && Below(dir, q);
        assert forall p :: Below(q, p) ==> Below(dir, p);
      }
    }
    if forall n :: 0 <= n < |names| ==> IsTidyEntry(t, dir + [names[n]]) {
      forall p | p in t.Keys && Below(dir, p) ensures t[p].Dir? || (t[p].File? && IsStatic(p)) {
        EntryOf(t, dir, p);
        assert p[|dir|] in names;
        var n :| 0 <= n < |names| && names[n] == p[|dir|];
        assert IsTidyEntry(t, dir + [names[n]]);
      }
    }
  }

  lemma EntryInside(t: Nodes, dir: Name, c: string)
    requires dir + [c] in t
    ensures |Inside(t, dir + [c])| < |Inside(t, dir)|
  {
    var q := dir + [c];
    assert forall p :: Below(q, p) ==> Below(dir, p);
    assert q in Inside(t, dir) && q !in Inside(t, q);
    Smaller(Inside(t, q), Inside(t, dir));
  }

  lemma Smaller(a: set<Name>, b: set<Name>)
    requires a < b
    ensures |a| < |b|
  {
    assert b == a + (b - a);
    assert |b| == |a| + |b - a|;
  }

  /** The items are the files in the first `n` entries. */
  ghost predicate AreIn(t: Nodes, items: seq<Item>, dir: Name, names: seq<string>, n: nat)
    requires n <= |names|
  {
    AreFiles(t, items)
    && forall p :: HasName(items, p) <==> p in t && t[p].File? && IsInEntry(dir, names, n, p)
  }

  predicate IsInEntry(dir: Name, names: seq<string>, n: nat, p: Name)
    requires n <= |names|
  {
    exists i | 0 <= i < n :: dir + [names[i]] <= p
  }

  lemma MoreFiles(t: Nodes, items: seq<Item>, dir: Name, names: seq<string>, n: nat, more: seq<Item>)
    requires n < |names| && Distinct(names) && AreIn(t, items, dir, names, n) && AreFiles(t, more)
    requires forall p :: HasName(more, p) <==> p in t && t[p].File? && dir + [names[n]] <= p
    ensures AreIn(t, items + more, dir, names, n + 1)
  {
    var all := items + more;
    forall p ensures HasName(all, p) <==> HasName(items, p) || HasName(more, p) {
      NamesOfBoth(items, more, p);
    }
    forall i, j | 0 <= i < j < |all| ensures all[i].name != all[j].name {
      if i < |items| && j >= |items| {
        var a, b := all[i].name, all[j].name;
        assert HasName(items, a) && more[j - |items|].name == b && HasName(more, b);
        var k :| 0 <= k < n && dir + [names[k]] <= a;
        assert (dir + [names[k]])[|dir|] == a[|dir|] && (dir + [names[n]])[|dir|] == b[|dir|];
      }
    }
    forall p ensures IsInEntry(dir, names, n + 1, p) <==> IsInEntry(dir, names, n, p) || dir + [names[n]] <= p {
      NextEntry(dir, names, n, p);
    }
  }

  lemma NextEntry(dir: Name, names: seq<string>, n: nat, p: Name)
    requires n < |names|
    ensures IsInEntry(dir, names, n + 1, p) <==> IsInEntry(dir, names, n, p) || dir + [names[n]] <= p
  {
    if dir + [names[n]] <= p {
      assert IsInEntry(dir, names, n + 1, p);
    }
  }

  lemma NamesOfBoth(a: seq<Item>, b: seq<Item>, p: Name)
    ensures HasName(a + b, p) <==> HasName(a, p) || HasName(b, p)
  {
    var all := a + b;
    if i :| 0 <= i < |a| && a[i].name == p {
      assert all[i].name == p;
    }
    if i :| 0 <= i < |b| && b[i].name == p {
      assert all[|a| + i].name == p;
    }
  }

  lemma OneFile(t: Nodes, p: Name)
    requires IsTree(t) && p in t && t[p].File?
    ensures AreFiles(t, [Item(p, t[p].data)])
    ensures forall q :: HasName([Item(p, t[p].data)], q) <==> q in t && t[q].File? && p <= q
  {
    var one := [Item(p, t[p].data)];
    assert one[0].name == p;
    forall q | q in t && t[q].File? && p <= q ensures q == p {
      assert p != q ==> Below(p, q);
    }
  }

  lemma AllEntries(t: Nodes, items: seq<Item>, dir: Name, names: seq<string>)
    requires IsTree(t) && (forall c :: c in names <==> dir + [c] in t) && AreIn(t, items, dir, names, |names|)
    ensures AreBelow(t, items, dir)
  {
    forall p ensures HasName(items, p) <==> p in t && Below(dir, p) && t[p].File? {
      if p in t && Below(dir, p) {
        EntryOf(t, dir, p);
        assert p[|dir|] in names;
      }
    }
  }

  /** The walk over a directory: its entries in order, directories entered, files taken. */
  method Visit(t: Nodes, dir: Name) returns (ok: bool, found: seq<Item>)
    requires IsTree(t)
    ensures ok == IsTidy(t, dir)
    ensures ok ==> AreBelow(t, found, dir)
    decreases |Inside(t, dir)|
  {
    hide IsTree, IsTidy, AreFiles, HasName, AreIn, IsStatic;
    found := [];
    var names := List(t, dir);
    TidyEntries(t, dir, names);
    NothingYet(t, dir, names);
    for n := 0 to |names|
      invariant AreIn(t, found, dir, names, n)
      invariant forall i :: 0 <= i < n ==> IsTidyEntry(t, dir + [names[i]])
    {
      var entry := dir + [names[n]];
      assert names[n] in names;
      if t[entry].Dir? {
        EntryInside(t, dir, names[n]);
        var fine, more := Visit(t, entry);
        if !fine {
          return false, [];
        }
        BelowOrAt(t, more, entry);
        MoreFiles(t, found, dir, names, n, more);
        found := found + more;
      } else if t[entry].File? && IsStatic(entry) {
        OneFile(t, entry);
        MoreFiles(t, found, dir, names, n, [Item(entry, t[entry].data)]);
        found := found + [Item(entry, t[entry].data)];
      } else {
        return false, [];
      }
    }
    AllEntries(t, found, dir, names);
    ok := true;
  }

  lemma NothingYet(t: Nodes, dir: Name, names: seq<string>)
    ensures AreIn(t, [], dir, names, 0)
  {
  }

  /** No file is its own directory. */
  lemma BelowOrAt(t: Nodes, items: seq<Item>, dir: Name)
    requires dir in t && t[dir].Dir? && AreBelow(t, items, dir)
    ensures AreFiles(t, items) && forall p :: HasName(items, p) <==> p in t && t[p].File? && dir <= p
  {
    hide AreFiles, HasName;
    assert forall p :: Below(dir, p) || p == dir <==> dir <= p;
  }

  // ---------------------------------------------------------- the selection

  /** The selection: the files of the documentation tree, and the documents that are always
      there. */
  ghost predicate IsChosen(t: Nodes, items: seq<Item>) {
    AreFiles(t, items)
    && forall p :: HasName(items, p) <==> p in ALWAYS || (p in t && Below(DOCS_TREE, p) && t[p].File?)
  }

  /** The documents found by the walk, and the first `n` of the others. */
  ghost predicate AreGathered(t: Nodes, items: seq<Item>, n: nat)
    requires n <= |ALWAYS|
  {
    AreFiles(t, items)
    && forall p :: HasName(items, p) <==> p in ALWAYS[..n] || (p in t && Below(DOCS_TREE, p) && t[p].File?)
  }

  lemma AlwaysDistinct(i: nat)
    requires i < |ALWAYS|
    ensures ALWAYS[i] !in ALWAYS[..i] && !Below(DOCS_TREE, ALWAYS[i]) && ALWAYS[..i + 1] == ALWAYS[..i] + [ALWAYS[i]]
  {
    AlwaysDiffer(i);
    assert forall j :: 0 <= j < |ALWAYS| ==> ALWAYS[j] != [] && ALWAYS[j][0] != "docs";
  }

  lemma AlwaysDiffer(i: nat)
    requires i < |ALWAYS|
    ensures forall j :: 0 <= j < i ==> ALWAYS[j] != ALWAYS[i]
  {
    assert |"README.md"| == 9 && |"SECURITY.md"| == 11 && |"CONTRIBUTING.md"| == 15 && |"DEVELOPMENT.md"| == 14;
    assert LEXICONS[1] != COMPANION_GUIDES[0].0[1] && COMPANION_GUIDES[0].0[0] != COMPANION_GUIDES[1].0[0];
    assert LEXICONS[0] != COMPANION_GUIDES[1].0[0];
    assert forall j :: 0 <= j < 4 ==> |ALWAYS[j]| == 1;
    assert forall j :: 0 <= j < 4 ==> |ALWAYS[j][0]| == [9, 11, 15, 14][j];
  }

  lemma OneMoreDocument(t: Nodes, items: seq<Item>, n: nat)
    requires n < |ALWAYS| && AreGathered(t, items, n) && IsRegular(t, ALWAYS[n])
    ensures AreGathered(t, items + [Item(ALWAYS[n], t[ALWAYS[n]].data)], n + 1)
  {
    hide ALWAYS, DOCS_TREE;
    var p := ALWAYS[n];
    var one := [Item(p, t[p].data)];
    var all := items + one;
    AlwaysDistinct(n);
    assert one[0].name == p;
    assert !HasName(items, p);
    forall q ensures HasName(all, q) <==> HasName(items, q) || q == p {
      NamesOfBoth(items, one, q);
    }
    assert forall i :: 0 <= i < |items| ==> HasName(items, items[i].name);
  }

  lemma NoneGathered(t: Nodes, items: seq<Item>)
    requires AreBelow(t, items, DOCS_TREE)
    ensures AreGathered(t, items, 0)
  {
  }

  lemma AllGathered(t: Nodes, items: seq<Item>)
    requires AreGathered(t, items, |ALWAYS|)
    ensures IsChosen(t, items)
  {
    assert ALWAYS[..|ALWAYS|] == ALWAYS;
  }

  /** The documents are all regular, if those below the documentation tree are. */
  lemma RegularFiles(t: Nodes, items: seq<Item>)
    requires AreBelow(t, items, DOCS_TREE)
    ensures (forall i :: 0 <= i < |items| ==> IsRegular(t, items[i].name))
       <==> forall p :: p in t.Keys && Below(DOCS_TREE, p) && t[p].File? ==> IsRegular(t, p)
  {
    forall p | p in t.Keys && Below(DOCS_TREE, p) && t[p].File? ensures HasName(items, p) {
    }
    assert forall i :: 0 <= i < |items| ==> HasName(items, items[i].name);
  }

  lemma GuideFound(t: Nodes, items: seq<Item>, guide: string)
    requires IsChosen(t, items)
    ensures HasName(items, ["docs", guide]) <==> ["docs", guide] in t && t[["docs", guide]].File?
  {
    hide HasName, AreFiles;
    assert Below(DOCS_TREE, ["docs", guide]);
    assert forall j :: 0 <= j < |ALWAYS| ==> ALWAYS[j][0] != "docs";
    assert ["docs", guide][0] == "docs";
  }

  /** The choice of the documents: exactly orderly repositories are accepted, if their documents
      keep to the limits. */
  method Choose(t: Nodes) returns (accepted: bool, selected: seq<Item>)
    requires IsTree(t)
    ensures accepted <==> IsOrderly(t) && InLimits(selected)
    ensures IsOrderly(t) ==> IsChosen(t, selected)
  {
    hide IsTree, IsTidy, AreFiles, HasName, AreGathered, IsChosen, AreBelow, InLimits, FLAT_GUIDES, ALWAYS, PARENTS, DOCS_TREE;
    selected := [];
    if !IsDir(t, DOCS_TREE) {
      return false, [];
    }
    var ok, found := Visit(t, DOCS_TREE);
    if !ok {
      return false, [];
    }
    for i := 0 to |PARENTS|
      invariant forall j :: 0 <= j < i ==> IsDir(t, PARENTS[j])
    {
      if !IsDir(t, PARENTS[i]) {
        return false, [];
      }
    }
    RegularFiles(t, found);
    for i := 0 to |found|
      invariant forall j :: 0 <= j < i ==> IsRegular(t, found[j].name)
    {
      if !IsRegular(t, found[i].name) {
        return false, [];
      }
    }
    selected := found;
    NoneGathered(t, found);
    for i := 0 to |ALWAYS|
      invariant forall j :: 0 <= j < i ==> IsRegular(t, ALWAYS[j])
      invariant AreGathered(t, selected, i)
    {
      if !IsRegular(t, ALWAYS[i]) {
        return false, [];
      }
      OneMoreDocument(t, selected, i);
      selected := selected + [Item(ALWAYS[i], t[ALWAYS[i]].data)];
    }
    AllGathered(t, selected);
    for i := 0 to |FLAT_GUIDES|
      invariant forall j :: 0 <= j < i ==> ["docs", FLAT_GUIDES[j]] in t && t[["docs", FLAT_GUIDES[j]]].File?
    {
      GuideFound(t, selected, FLAT_GUIDES[i]);
      if !HasName(selected, ["docs", FLAT_GUIDES[i]]) {
        return false, [];
      }
    }
    accepted := InLimits(selected);
  }

  // ------------------------------------------------------------ what follows

  /** What is chosen from an orderly repository is a selection. */
  lemma ChosenIsSelection(t: Nodes, items: seq<Item>)
    requires IsTree(t) && IsOrderly(t) && IsChosen(t, items)
    ensures IsSelection(items)
  {
    hide Lookup, IsOrderly;
    forall i, j | 0 <= i < |items| && 0 <= j < |items| && i != j ensures !(items[i].name <= items[j].name) {
      assert items[i].name != items[j].name;
      assert items[i].name <= items[j].name ==> Below(items[i].name, items[j].name);
    }
    forall i | 0 <= i < |items| ensures IsSource(items[i].name) && |items[i].data| <= MAX_FILE_BYTES {
      assert HasName(items, items[i].name);
      ChosenIsSource(t, items, i);
    }
    forall p | HasName(items, p) ensures Lookup(items, p).Some? {
      var i :| 0 <= i < |items| && items[i].name == p;
      LookupHere(items, i);
    }
    ChosenHasAll(t, items);
  }

  lemma ChosenIsSource(t: Nodes, items: seq<Item>, i: nat)
    requires IsOrderly(t) && IsChosen(t, items) && i < |items|
    ensures IsSource(items[i].name) && |items[i].data| <= MAX_FILE_BYTES
  {
    hide FLAT_GUIDES;
    var p := items[i].name;
    assert HasName(items, p);
    if p !in ALWAYS {
      assert |p| > 1 && p[0] == "docs";
      assert IsRegular(t, p);
    } else {
      var k :| 0 <= k < |ALWAYS| && ALWAYS[k] == p;
      assert IsRegular(t, ALWAYS[k]);
    }
  }

  lemma ChosenHasAll(t: Nodes, items: seq<Item>)
    requires IsOrderly(t) && IsChosen(t, items)
    ensures forall n :: 0 <= n < |COMPANION_GUIDES| ==> HasName(items, COMPANION_GUIDES[n].0)
    ensures forall n :: 0 <= n < |FLAT_GUIDES| ==> HasName(items, ["docs", FLAT_GUIDES[n]])
    ensures forall d :: d in ROOT_DOCUMENTS ==> HasName(items, [d])
    ensures HasName(items, LEXICONS)
  {
    hide HasName, AreFiles, FLAT_GUIDES, ALWAYS, LEXICONS;
    forall n | 0 <= n < |FLAT_GUIDES| ensures HasName(items, ["docs", FLAT_GUIDES[n]]) {
      GuideFound(t, items, FLAT_GUIDES[n]);
    }
    AlwaysThere();
  }

  lemma AlwaysThere()
    ensures forall n :: 0 <= n < |COMPANION_GUIDES| ==> COMPANION_GUIDES[n].0 in ALWAYS
    ensures forall d :: d in ROOT_DOCUMENTS ==> [d] in ALWAYS
    ensures LEXICONS in ALWAYS
  {
    assert ALWAYS[0] == ["README.md"] && ALWAYS[1] == ["SECURITY.md"] && ALWAYS[2] == ["CONTRIBUTING.md"];
    assert ALWAYS[3] == ["DEVELOPMENT.md"] && ALWAYS[4] == LEXICONS;
    assert ALWAYS[5] == COMPANION_GUIDES[0].0 && ALWAYS[6] == COMPANION_GUIDES[1].0;
  }

  lemma SelectedIfOrderly(t: Nodes, items: seq<Item>)
    requires IsTree(t)
    ensures IsOrderly(t) && IsChosen(t, items) ==> IsSelection(items)
  {
    hide IsTree, IsOrderly, IsChosen, IsSelection;
    if IsOrderly(t) && IsChosen(t, items) {
      ChosenIsSelection(t, items);
    }
  }

  /** The expected files of a repository: its documents, chosen, and their copies. */
  method PackageDocuments(t: Nodes, target: Target) returns (accepted: bool, selected: seq<Item>, expected: seq<Item>)
    requires IsTree(t)
    ensures accepted <==> IsOrderly(t) && InLimits(selected)
    ensures IsOrderly(t) ==> IsChosen(t, selected) && IsSelection(selected)
    ensures accepted ==> expected == Expected(selected, COPY, target)
  {
    hide IsTree, IsOrderly, IsChosen, IsSelection, InLimits, Expected;
    accepted, selected := Choose(t);
    expected := [];
    SelectedIfOrderly(t, selected);
    if accepted {
      expected := ExpectedFiles(selected, target);
    }
  }
}
