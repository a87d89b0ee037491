/** Which file of a package has which content. */
module PackageRules {
  import opened ByteStrings
  import opened PackageTree
  import opened PackageContents

  function GuideText(selected: seq<Item>, i: nat): Bytes
    requires i < |FLAT_GUIDES|
  {
    Content(selected, ["docs", FLAT_GUIDES[i]])
  }

  lemma GuidesDiffer(i: nat, j: nat)
    requires i < j < |FLAT_GUIDES|
    ensures FLAT_GUIDES[i] != FLAT_GUIDES[j]
  {
    assert |"linux-packaging-data.md"| == 23 && |"model-providers.md"| == 18 && |"ibus-candidates.md"| == 18;
    assert |"translation.md"| == 14 && |"interface-languages.md"| == 22;
    assert "model-providers.md"[0] != "ibus-candidates.md"[0];
  }

  /** The name of a guide in the root of the tar. */
  function InRoot(i: nat): string
    requires i < |FLAT_GUIDES|
  {
    if i == 0 then "README.md" else FLAT_GUIDES[i]
  }

  lemma RootNameIs(i: nat)
    requires i < |FLAT_GUIDES|
    ensures RootName(FLAT_GUIDES[i]) == InRoot(i)
  {
    if i > 0 {
      GuidesDiffer(0, i);
    }
  }

  lemma RootNamesDiffer(i: nat, j: nat)
    requires i < j < |FLAT_GUIDES|
    ensures InRoot(i) != InRoot(j)
  {
    GuidesDiffer(i, j);
    assert |"README.md"| == 9 && forall k :: 0 <= k < |FLAT_GUIDES| ==> |FLAT_GUIDES[k]| > 9;
  }

  /** After its step a guide's copies stay. */
  lemma {:induction false} CopyStays(selected: seq<Item>, relocate: Relocate, target: Target, i: nat, n: nat)
    requires i < n <= |FLAT_GUIDES|
    ensures Lookup(Guides(selected, relocate, target, n), BASE + [FLAT_GUIDES[i]]) == Some(relocate(GuideText(selected, i), [], DOCS_TEXT))
    ensures target.Tar? ==>
              Lookup(Guides(selected, relocate, target, n), [InRoot(i)]) == Some(relocate(GuideText(selected, i), BASE_TEXT, DOCS_TEXT))
    decreases n
  {
    hide Lookup, Guides, Content, RootName, FLAT_GUIDES, DOCS_TEXT, BASE_TEXT;
    GuideStep(selected, relocate, n, BASE + [FLAT_GUIDES[i]], target);
    GuideStep(selected, relocate, n, [InRoot(i)], target);
    RootNameIs(n - 1);
    if i < n - 1 {
      GuidesDiffer(i, n - 1);
      RootNamesDiffer(i, n - 1);
      CopyStays(selected, relocate, target, i, n - 1);
    }
    Apart(FLAT_GUIDES[i], FLAT_GUIDES[n - 1], InRoot(i), InRoot(n - 1));
  }

  lemma Apart(a: string, b: string, c: string, d: string)
    ensures BASE + [a] != [d] && [c] != BASE + [b]
    ensures BASE + [a] == BASE + [b] ==> a == b
    ensures [c] == [d] ==> c == d
  {
    assert |BASE| == 3;
    assert (BASE + [a])[3] == a && (BASE + [b])[3] == b;
    assert [c][0] == c && [d][0] == d;
  }

  lemma BaseParts(a: Name, b: Name)
    ensures |BASE| == 3
    ensures BASE + a == BASE + b <==> a == b
    ensures (BASE + a)[..3] == BASE && (BASE + a)[3..] == a
  {
    assert (BASE + a)[3..] == a && (BASE + b)[3..] == b;
  }

  /** The guide steps leave other names as they are. */
  lemma {:induction false} OtherStays(selected: seq<Item>, relocate: Relocate, target: Target, name: Name, n: nat)
    requires n <= |FLAT_GUIDES| && name != [] && (|name| == 1 ==> name[0] in ROOT_DOCUMENTS)
    ensures Lookup(Guides(selected, relocate, target, n), BASE + name)
         == Lookup(Companions(selected, relocate, |COMPANION_GUIDES|), BASE + name)
    decreases n
  {
    hide Lookup, Companions, Content, FLAT_GUIDES, DOCS_TEXT, BASE_TEXT, COMPANION_GUIDES, ROOT_DOCUMENTS;
    if n > 0 {
      GuideStep(selected, relocate, n, BASE + name, target);
      OtherStays(selected, relocate, target, name, n - 1);
      BaseParts(name, [FLAT_GUIDES[n - 1]]);
      GuideIsNoRoot(n - 1);
      assert |BASE + name| > |[RootName(FLAT_GUIDES[n - 1])]|;
    }
  }

  lemma GuideIsNoRoot(i: nat)
    requires i < |FLAT_GUIDES|
    ensures FLAT_GUIDES[i] !in ROOT_DOCUMENTS
  {
    assert |"README.md"| == 9 && |"SECURITY.md"| == 11 && |"CONTRIBUTING.md"| == 15 && |"DEVELOPMENT.md"| == 14;
    assert |"linux-packaging-data.md"| == 23 && |"model-providers.md"| == 18 && |"ibus-candidates.md"| == 18;
    assert |"translation.md"| == 14 && |"interface-languages.md"| == 22;
    assert "translation.md"[0] != "DEVELOPMENT.md"[0];
  }

  /** A selected document is there with its content. */
  lemma {:induction false} SourceIsThere(selected: seq<Item>, n: nat, i: nat)
    requires PrefixFree(selected) && i < n <= |selected|
    ensures Lookup(Sources(selected, n), BASE + selected[i].name) == Some(selected[i].data)
    decreases n
  {
    hide Lookup, Put, BASE;
    var s := selected[n - 1];
    PutLookup(Sources(selected, n - 1), BASE + s.name, s.data, BASE + selected[i].name);
    BaseParts(selected[i].name, s.name);
    if i < n - 1 {
      SourceIsThere(selected, n - 1, i);
      assert !(selected[i].name <= s.name);
    }
  }

  lemma CompanionNamesDiffer()
    ensures COMPANION_GUIDES[0].0 != COMPANION_GUIDES[1].0
    ensures forall k :: 0 <= k < |COMPANION_GUIDES| ==> |COMPANION_GUIDES[k].0| == 3
  {
    assert "data"[0] != "sdk"[0];
    assert COMPANION_GUIDES[0].0[0] == "data" && COMPANION_GUIDES[1].0[0] == "sdk";
  }

  /** The copies of the flat guides, beside the documentation and in the root of the tar, where
      the packaging guide is the read-me. */
  lemma GuideCopiesAre(selected: seq<Item>, relocate: Relocate, target: Target, i: nat)
    requires i < |FLAT_GUIDES|
    ensures Lookup(Expected(selected, relocate, target), BASE + [FLAT_GUIDES[i]]) == Some(relocate(GuideText(selected, i), [], DOCS_TEXT))
    ensures Lookup(Expected(selected, relocate, Tar), [if i == 0 then "README.md" else FLAT_GUIDES[i]])
         == Some(relocate(GuideText(selected, i), BASE_TEXT, DOCS_TEXT))
  {
    hide Lookup, Guides, Content, FLAT_GUIDES, DOCS_TEXT, BASE_TEXT;
    CopyStays(selected, relocate, target, i, |FLAT_GUIDES|);
    CopyStays(selected, relocate, Tar, i, |FLAT_GUIDES|);
  }

  lemma CompanionStep(selected: seq<Item>, relocate: Relocate, n: nat, name: Name)
    requires 1 <= n <= |COMPANION_GUIDES|
    ensures
      var (path, prefix) := COMPANION_GUIDES[n - 1];
      Lookup(Companions(selected, relocate, n), BASE + name)
      == if name == path then Some(relocate(Content(selected, path), prefix, []))
         else Lookup(Companions(selected, relocate, n - 1), BASE + name)
  {
    hide Lookup, Put, Content, Sources, COMPANION_GUIDES;
    var (path, prefix) := COMPANION_GUIDES[n - 1];
    PutLookup(Companions(selected, relocate, n - 1), BASE + path, relocate(Content(selected, path), prefix, []), BASE + name);
    BaseParts(name, path);
  }

  /** The read-mes of the two companion trees are the mirrored guides, relocated. */
  lemma CompanionsAre(selected: seq<Item>, relocate: Relocate, target: Target, k: nat)
    requires k < |COMPANION_GUIDES|
    ensures
      var (path, prefix) := COMPANION_GUIDES[k];
      Lookup(Expected(selected, relocate, target), BASE + path) == Some(relocate(Content(selected, path), prefix, []))
  {
    hide Lookup, Guides, Companions, Content, BASE, ROOT_DOCUMENTS, COMPANION_GUIDES;
    CompanionNamesDiffer();
    var (path, prefix) := COMPANION_GUIDES[k];
    OtherStays(selected, relocate, target, path, |FLAT_GUIDES|);
    TwoCompanions();
    CompanionStep(selected, relocate, 2, path);
    CompanionStep(selected, relocate, 1, path);
  }

  lemma TwoCompanions()
    ensures |COMPANION_GUIDES| == 2
  {
  }

  /** Every other selected document is there as it is. */
  lemma SourcesAre(selected: seq<Item>, relocate: Relocate, target: Target, i: nat)
    requires IsSelection(selected) && i < |selected|
    requires selected[i].name != COMPANION_GUIDES[0].0 && selected[i].name != COMPANION_GUIDES[1].0
    ensures Lookup(Expected(selected, relocate, target), BASE + selected[i].name) == Some(selected[i].data)
  {
    hide Lookup, Guides, Companions, Sources, Content, BASE, ROOT_DOCUMENTS, COMPANION_GUIDES, PrefixFree;
    var name := selected[i].name;
    assert IsSource(name);
    OtherStays(selected, relocate, target, name, |FLAT_GUIDES|);
    TwoCompanions();
    CompanionStep(selected, relocate, 2, name);
    CompanionStep(selected, relocate, 1, name);
    NoCompanions(selected, relocate);
    SourceIsThere(selected, |selected|, i);
  }

  lemma NoCompanions(selected: seq<Item>, relocate: Relocate)
    ensures Companions(selected, relocate, 0) == Sources(selected, |selected|)
  {
  }

  // ----------------------------------------------------------- the tree

  /** A file or directory below `share/doc/suzaku/docs`. */
  predicate IsInDocs(p: Name) {
    |p| > 4 && p[0] == "share" && p[1] == "doc" && p[2] == "suzaku" && p[3] == "docs"
  }

  /** An item's file is there, behind directories, in the size limit and with its bytes. */
  predicate IsFound(t: Nodes, item: Item) {
    item.name in t && t[item.name] == File(item.data) && |item.data| <= 16777216
    && forall k :: 0 <= k < |item.name| && item.name[..k] in t ==> t[item.name[..k]] == Dir
  }

  /** A tree is exact if and only if every item is found, and what else lies below
      `share/doc/suzaku/docs` are directories; other places are not looked at. */
  lemma ExactIs(t: Nodes, items: seq<Item>)
    ensures IsExact(t, items) <==>
            (forall i :: 0 <= i < |items| ==> IsFound(t, items[i]))
            && forall p :: p in t.Keys && IsInDocs(p) ==> t[p].Dir? || (t[p].File? && exists i :: 0 <= i < |items| && items[i].name == p)
  {
    hide IsFound, IsThere;
    forall i | 0 <= i < |items| ensures IsThere(t, items[i]) <==> IsFound(t, items[i]) {
      FoundIs(t, items[i]);
    }
    forall p: Name ensures Below(DOCS, p) <==> IsInDocs(p) {
      InDocs(p);
    }
  }

  lemma FoundIs(t: Nodes, item: Item)
    ensures IsThere(t, item) <==> IsFound(t, item)
  {
  }

  lemma InDocs(p: Name)
    ensures Below(DOCS, p) <==> IsInDocs(p)
  {
    if IsInDocs(p) {
      assert p[..4] == DOCS;
    }
  }

  // ----------------------------------------------------------------- limits

  /** The sizes of selected documents are added up. */
  lemma {:induction false} TotalIsSum(a: seq<Item>, item: Item, b: seq<Item>)
    ensures TotalBytes(a + [item] + b) == |item.data| + TotalBytes(a + b)
    decreases |a|
  {
    var all, others := a + [item] + b, a + b;
    if a == [] {
      assert all[1..] == b == others;
    } else {
      assert all[1..] == a[1..] + [item] + b && others[1..] == a[1..] + b;
      TotalIsSum(a[1..], item, b);
    }
  }

  /** 16 MiB for a file, 128 MiB and 4096 files for a selection. */
  lemma LimitsAre(t: Nodes, p: Name, items: seq<Item>)
    ensures IsRegular(t, p) <==> p in t && t[p].File? && |t[p].data| <= 16777216
    ensures InLimits(items) <==> |items| <= 4096 && TotalBytes(items) <= 134217728
  {
  }
}
