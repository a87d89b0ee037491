/** A document that moved together with the page that links to it. */
module LinkExample {
  import opened ByteStrings
  import opened Paths
  import opened Links
  import opened LinkRules
  import opened Rescan
  import opened Relocation

  /** A name in a directory. */
  predicate IsFileName(name: Bytes) {
    name != [] && name != HERE && name != DOTS && SLASH !in name
  }

  lemma NameBehind(dir: Bytes, name: Bytes, rooted: bool)
    requires IsFileName(name)
    ensures Run(Split(dir + [SLASH] + name), [], rooted) == Run(Split(dir), [], rooted) + [name]
  {
    hide Split;
    SplitConcat(dir, name);
    SplitPiece(name);
    RunConcat(Split(dir), [name], [], rooted);
    OneName(name, Run(Split(dir), [], rooted), rooted);
  }

  lemma OneName(name: Bytes, stack: seq<Bytes>, rooted: bool)
    requires IsFileName(name)
    ensures Run([name], stack, rooted) == stack + [name]
  {
    assert [name][1..] == [];
  }

  lemma PlainName(name: Bytes)
    requires IsFileName(name)
    ensures Components(name) == [name] && NormPath(name) == name
  {
    hide Split;
    SplitPiece(name);
    OneName(name, [], false);
    assert [] + [name] == [name];
    RelativeNormal(name);
  }

  /** From a directory to a file in it there is only its name. */
  lemma WayToName(cwd: Bytes, dir: Bytes, name: Bytes)
    requires !IsRelative(cwd) && dir != [] && IsRelative(dir) && Plain(Components(dir)) && IsFileName(name)
    ensures RelPath(cwd, dir + [SLASH] + name, dir) == name
  {
    hide Split, Run, NonEmpty, NormPath, PathJoin, Common;
    var path := dir + [SLASH] + name;
    NameBehind(dir, name, false);
    assert Plain(Components(path));
    AbsPieces(cwd, dir);
    AbsPieces(cwd, path);
    var base := Components(cwd) + Components(dir);
    assert Components(cwd) + (Components(dir) + [name]) == base + [name];
    assert base + [] == base;
    WayBehind(base, [], [name]);
    assert Way([], [name]) == [name];
  }

  /** A page moves to `dir`, and a document its link names moves there as `name`: the link
      becomes that name. */
  lemma MovedTogether(c: Context, target: Bytes, dir: Bytes, page: Bytes, name: Bytes)
    requires !IsRelative(c.cwd) && IsRelative(dir) && Plain(Components(dir)) && dir != [] && dir[|dir| - 1] != SLASH
    requires SLASH !in c.source && c.destination == dir + [SLASH] + page && SLASH !in page
    requires IsFileName(target) && UrlSplit(target) == Url([], [], target, [], []) && !IsAngled(target) && PERCENT !in target
    requires target in c.mapping && c.mapping[target] == dir + [SLASH] + name && IsFileName(name) && Quote(name) == name
    ensures Replacement(c, target) == name
  {
    hide UrlSplit, Components, Dirname, Quote, NormPath, RelPath;
    DirectoryOfName(c.source);
    DirectoryOfFile(dir, page);
    PlainName(target);
    assert PathJoin([], target) == target by { assert [] + [] + target == target; }
    NotUp(target);
    WayToName(c.cwd, dir, name);
    assert UrlUnsplit(name, [], []) == name;
  }

  lemma DirectoryOfName(name: Bytes)
    requires SLASH !in name
    ensures Dirname(name) == []
  {
    DirnameIs([], 0, name);
    assert [] + Root(0) + name == name;
  }

  lemma DirectoryOfFile(dir: Bytes, name: Bytes)
    requires SLASH !in name && dir != [] && dir[|dir| - 1] != SLASH
    ensures Dirname(dir + [SLASH] + name) == dir
  {
    DirnameIs(dir, 1, name);
    assert Root(1) == [SLASH];
  }

  lemma NotUp(name: Bytes)
    requires IsFileName(name)
    ensures !Escapes(name)
  {
  }

  // ------------------------------------------------- the archived read-me

  /** The parts of `docs/history/2026-10/pre-reorganization`. */
  const PARTS := [Ascii("docs"), Ascii("history"), Ascii("2026-10"), Ascii("pre-reorganization")]
  const ARCHIVE := Unsplit(PARTS)
  const DEVELOPMENT := Ascii("DEVELOPMENT.md")
  const PAGE := Ascii("development.md")
  const README := Ascii("README.md")
  const PROJECT_README := Ascii("project-readme.md")

  /** The move of `DEVELOPMENT.md`, with what the mapping says of the read-me. */
  function Move(cwd: Bytes): Context {
    Context(map[README := ARCHIVE + [SLASH] + PROJECT_README], cwd, DEVELOPMENT, ARCHIVE + [SLASH] + PAGE,
            (t: Bytes) => true, (s: Bytes) => s)
  }

  /** Letters, digits, dashes and dots. */
  predicate IsWordText(s: string) {
    |s| >= 3 && forall k :: 0 <= k < |s| ==> 'a' <= s[k] <= 'z' || 'A' <= s[k] <= 'Z' || '0' <= s[k] <= '9' || s[k] == '-' || s[k] == '.'
  }

  lemma WordText(s: string)
    requires IsWordText(s)
    ensures
      var t := Ascii(s);
      IsFileName(t) && PERCENT !in t && !IsAngled(t) && QUESTION !in t && HASH !in t && IsClean(t) && t[0] > SPACE && COLON !in t
      && (forall k :: 0 <= k < |t| ==> IsKept(t[k]))
  {
    var t := Ascii(s);
    assert forall k :: 0 <= k < |t| ==> t[k] == s[k] as int;
  }

  lemma {:induction false} KeptQuoted(t: Bytes)
    requires forall k :: 0 <= k < |t| ==> IsKept(t[k])
    ensures Quote(t) == t
    decreases |t|
  {
    if t != [] {
      KeptQuoted(t[1..]);
      assert t == [t[0]] + t[1..];
    }
  }

  lemma WordSplit(t: Bytes)
    requires t != [] && t[0] > SPACE && t[0] != SLASH && IsClean(t) && QUESTION !in t && HASH !in t && COLON !in t
    ensures UrlSplit(t) == Url([], [], t, [], [])
  {
    hide UrlSplit, IndexOf;
    assert UrlUnsplit(t, [], []) == t;
    UrlRoundTrip(t, [], []);
  }

  lemma {:induction false} PartsEnd(parts: seq<Bytes>)
    requires parts != [] && forall k :: 0 <= k < |parts| ==> IsFileName(parts[k])
    ensures Unsplit(parts) != [] && Unsplit(parts)[0] != SLASH && Unsplit(parts)[|Unsplit(parts)| - 1] != SLASH
    decreases |parts|
  {
    assert IsFileName(parts[0]);
    if |parts| > 1 {
      PartsEnd(parts[1..]);
    }
  }

  lemma PartsArePlain(parts: seq<Bytes>)
    requires parts != [] && forall k :: 0 <= k < |parts| ==> IsFileName(parts[k])
    ensures Plain(Components(Unsplit(parts)))
  {
    hide Split, Run;
    SplitUnsplit(parts);
    PlainPushes(parts, [], !IsRelative(Unsplit(parts)));
    assert [] + parts == parts;
  }

  lemma ArchiveIsPlain()
    ensures IsRelative(ARCHIVE) && Plain(Components(ARCHIVE)) && ARCHIVE != [] && ARCHIVE[|ARCHIVE| - 1] != SLASH
  {
    hide Unsplit, Split, IsFileName, Ascii, Components;
    WordText("docs");
    WordText("history");
    WordText("2026-10");
    WordText("pre-reorganization");
    PartsEnd(PARTS);
    PartsArePlain(PARTS);
  }

  /** What the example asks of its names. */
  predicate AreNames(target: Bytes, name: Bytes, source: Bytes, page: Bytes) {
    IsFileName(target) && IsFileName(name) && SLASH !in source && SLASH !in page && PERCENT !in target && !IsAngled(target)
    && UrlSplit(target) == Url([], [], target, [], []) && Quote(name) == name
  }

  lemma NamesOfExample()
    ensures AreNames(README, PROJECT_README, DEVELOPMENT, PAGE)
  {
    hide Ascii, UrlSplit, Quote, IsAngled;
    WordText("README.md");
    WordText("project-readme.md");
    WordText("DEVELOPMENT.md");
    WordText("development.md");
    KeptQuoted(PROJECT_README);
    WordSplit(README);
  }

  /** The link `README.md` of `DEVELOPMENT.md` becomes `project-readme.md`, the name the read-me
      has in the archive. */
  lemma ReadmeLink(cwd: Bytes)
    requires !IsRelative(cwd)
    ensures Replacement(Move(cwd), README) == PROJECT_README
  {
    hide Replacement, UrlSplit, Components, IsFileName, IsAngled, Quote, README, PROJECT_README, DEVELOPMENT, PAGE, ARCHIVE;
    NamesOfExample();
    ArchiveIsPlain();
    MovedTogether(Move(cwd), README, ARCHIVE, PAGE, PROJECT_README);
  }
}
