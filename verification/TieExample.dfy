/** An inventory whose plan depends on the order in which a set is iterated: two versions that
    differ only in a leading zero. */
module TieExample {
  import opened ByteStrings
  import opened Sorting
  import opened Texts
  import opened Inventory
  import opened Retention
  import opened RetentionLaws
  import opened VersionTies

  const ROOT := Pathname(false, ["tmp", "suzaku-a"])

  function FileAt(name: string): Pathname {
    Pathname(false, ["tmp", "suzaku-a", name])
  }

  function Hash(): (h: string)
    ensures IsHash(h)
  {
    seq(64, i => '0')
  }

  function Artifact(name: string, version: string): Entry {
    Entry(PathText(FileAt(name)), Some(version), Some("test"), Some("t"), Some("p"), Some("s"), [],
          1, Hash(), 1, 1, Octal("0644"), 1, 1, Some("copy"), map[])
  }

  /** Two artifacts that differ in their version. */
  function Pair(v: string, w: string): Inventory {
    Inventory([PathText(ROOT)], [], [Artifact("a", v), Artifact("b", w)])
  }

  function TwoVersions(): Inventory {
    Pair("01.0.0", "1.0.0")
  }

  /** The usual reading of the characters the example uses. */
  predicate ReadsDecimals(digit: Digits) {
    digit('0') == Some(0) && digit('1') == Some(1)
  }

  lemma TriplesTie(digit: Digits)
    requires ReadsDecimals(digit)
    ensures TripleOf(digit, "1.0.0") == TripleOf(digit, "01.0.0") == Some(Triple(1, 0, 0))
  {
    var v, w := "1.0.0", "01.0.0";
    assert Dot(v, 0) == 1 && Dot(v, 2) == 3 && Dot(w, 0) == 2 && Dot(w, 3) == 4;
    assert v[..1] == "1" && v[2..3] == "0" && v[4..] == "0";
    assert w[..2] == "01" && w[3..4] == "0" && w[5..] == "0";
    assert "01"[..1] == "0";
    assert Number(digit, "01") == Some(1);
  }

  lemma PathRead(p: Pathname)
    requires !p.doubled && p.parts != [] && forall t :: t in p.parts ==> IsPiece(t) && t != ".." && 0 as char !in t
    ensures Absolute(PathText(p)) == Some(p) && CanonicalPath(PathText(p)) == PathText(p)
  {
    var t := PathText(p);
    JoinedRead(p.parts);
    RootSkipped(p);
    if 0 as char in Joined(p.parts) {
      JoinedCharacters(p.parts, 0 as char);
    }
    assert p.parts[0] in p.parts && Joined(p.parts)[0] == p.parts[0][0];
  }

  lemma ArtifactIsGood(name: string, version: string)
    requires IsPiece(name) && name != ".." && 0 as char !in name
    ensures IsEntry(Map(PathnameOf, [PathText(ROOT)]), Artifact(name, version))
    ensures Canonical(Artifact(name, version)) == Artifact(name, version)
  {
    hide Absolute, PathText, IsHash;
    PathRead(FileAt(name));
    PathRead(ROOT);
    assert FileAt(name).parts[..2] == ROOT.parts;
    assert Map(PathnameOf, [PathText(ROOT)]) == [ROOT];
    OctalReadBack("0644");
  }

  lemma RootIsGood(repo: Pathname)
    ensures AreRoots(repo, [PathText(ROOT)]) && SortTexts(Map(CanonicalPath, [PathText(ROOT)])) == [PathText(ROOT)]
  {
    hide Absolute, PathText;
    PathRead(ROOT);
    assert IsTaskName("suzaku-a");
    assert Map(CanonicalPath, [PathText(ROOT)]) == [PathText(ROOT)];
    SortOne([PathText(ROOT)]);
  }

  lemma PairIsCanonical(repo: Pathname, v: string, w: string)
    ensures Normalized(repo, Pair(v, w)) == Some(Pair(v, w))
  {
    hide Absolute, PathText, IsEntry, Artifact, Canonical, SortTexts, PathnameOf, CanonicalPath, AreRoots, TextLe;
    var i := Pair(v, w);
    var a, b := i.entries[0], i.entries[1];
    RootIsGood(repo);
    ArtifactIsGood("a", v);
    ArtifactIsGood("b", w);
    assert Map(Canonical, i.entries) == i.entries;
    SortNone();
    PathsOrdered(v, w);
    assert Map(PathOf, i.entries) == [a.path, b.path];
    assert SortedBy(PathLe, i.entries);
    SortOfSorted(PathLe, i.entries);
  }

  lemma SortNone()
    ensures SortTexts([]) == []
  {
  }

  lemma SortOne(s: seq<string>)
    requires |s| == 1
    ensures SortTexts(s) == s
  {
    assert SortTexts(s[1..]) == [];
  }

  lemma LettersOrdered()
    ensures TextLe("a", "b")
  {
  }

  lemma PathsOrdered(v: string, w: string)
    ensures
      var a, b := Artifact("a", v), Artifact("b", w);
      TextLe(a.path, b.path) && a.path != b.path
  {
    hide PathText, TextLe;
    NamedPath("a");
    NamedPath("b");
    CommonPrefix(PREFIX, "a", "b");
    LettersOrdered();
    assert (PREFIX + "a")[|PREFIX|] != (PREFIX + "b")[|PREFIX|];
  }

  const PREFIX := "/" + ("tmp" + ("/" + ("suzaku-a" + "/")))

  lemma NamedPath(name: string)
    ensures PathText(FileAt(name)) == PREFIX + name
  {
    hide Joined;
    var a, b := "tmp", "suzaku-a";
    JoinedPair(a, [b, name]);
    JoinedPair(b, [name]);
    JoinedOne(name);
    assert [b] + [name] == [b, name] && [a] + [b, name] == [a, b, name];
  }

  lemma JoinedOne(name: string)
    ensures Joined([name]) == name
  {
  }

  lemma JoinedPair(head: string, tail: seq<string>)
    requires tail != []
    ensures Joined([head] + tail) == head + "/" + Joined(tail)
  {
    assert ([head] + tail)[1..] == tail;
  }

  lemma {:induction false} CommonPrefix(p: string, a: string, b: string)
    ensures TextLe(p + a, p + b) == TextLe(a, b)
    decreases |p|
  {
    if p == "" {
      assert p + a == a && p + b == b;
    } else {
      assert (p + a)[1..] == p[1..] + a && (p + b)[1..] == p[1..] + b;
      CommonPrefix(p[1..], a, b);
    }
  }

  /** Two ways to iterate the set of versions give different plans for the example. */
  lemma PlansDiffer(repo: Pathname, digit: Digits) returns (a: Order, b: Order)
    requires ReadsDecimals(digit)
    ensures Enumerates(a) && Enumerates(b)
    ensures PlanOf(repo, digit, a, TwoVersions()).Some? && PlanOf(repo, digit, b, TwoVersions()).Some?
    ensures PlanOf(repo, digit, a, TwoVersions()) != PlanOf(repo, digit, b, TwoVersions())
  {
    hide Normalized, Absolute, PathText, Ranked, Decision, Enumerates, TripleOf, Distinct, Least, Represents;
    var i := TwoVersions();
    var files := i.entries;
    PairIsCanonical(repo, "01.0.0", "1.0.0");
    NormalPathsDistinct(repo, i);
    TriplesTie(digit);
    OneOfTwo(digit);
    a, b := UndecidedDiffers(digit, [], files, 0);
    assert PlanOf(repo, digit, a, i).value.entries[0] != PlanOf(repo, digit, b, i).value.entries[0];
  }

  /** A plan made in one run of the tool is refused in another. */
  lemma PlanRefused(repo: Pathname, digit: Digits) returns (a: Order, b: Order)
    requires ReadsDecimals(digit)
    ensures Enumerates(a) && Enumerates(b)
    ensures PlanOf(repo, digit, a, TwoVersions()).Some?
    ensures !IsValid(repo, digit, b, PlanOf(repo, digit, a, TwoVersions()).value)
  {
    hide PlanOf, TwoVersions, Enumerates, IsValid;
    a, b := PlansDiffer(repo, digit);
    ReplanningIsPlanning(repo, digit, a, b, TwoVersions(), PlanOf(repo, digit, a, TwoVersions()).value);
  }

  lemma OneOfTwo(digit: Digits)
    requires ReadsDecimals(digit)
    ensures IsUndecided(digit, [], TwoVersions().entries, 0) && SizesAgree(digit, TwoVersions().entries)
  {
    hide TripleOf, PathText, KnownVersions;
    TriplesTie(digit);
    var files := TwoVersions().entries;
    BeforeIsTotal(files[0], files[0]);
    assert "1.0.0"[0] != "01.0.0"[0];
    BothKnown(digit);
    assert KeyOf(files[0]) != KeyOf(files[1]);
  }

  lemma BothKnown(digit: Digits)
    requires TripleOf(digit, "1.0.0").Some? && TripleOf(digit, "01.0.0").Some?
    ensures KnownVersions(digit, TwoVersions().entries) == {"01.0.0", "1.0.0"}
  {
    hide TripleOf, PathText;
    var files := TwoVersions().entries;
    assert files[0] in files && files[1] in files;
  }
}
