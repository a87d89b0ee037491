/** Where the files of an inventory lie: on their texts, strictly below a root that is allowed. */
module AllowedPlaces {
  import opened Inventory

  // ------------------------------------------------------------ path texts

  /** A component `..` at index `k` of an absolute path text, behind its slash. */
  predicate UpAt(t: string, k: nat) {
    k + 3 <= |t| && t[k..k + 3] == "/.." && (k + 3 == |t| || t[k + 3] == '/')
  }

  /** Pieces of two texts with a slash between them. */
  lemma {:induction false} PiecesConcat(a: string, b: string, piece: string)
    ensures Pieces(a + "/" + b, piece) == Pieces(a, piece) + Pieces(b, "")
    decreases |a|
  {
    var t := a + "/" + b;
    if a == "" {
      assert t[1..] == b;
    } else {
      assert t[0] == a[0] && t[1..] == a[1..] + "/" + b;
      if a[0] == '/' {
        PiecesConcat(a[1..], b, "");
        assert Piece(piece) + (Pieces(a[1..], "") + Pieces(b, "")) == Piece(piece) + Pieces(a[1..], "") + Pieces(b, "");
      } else {
        PiecesConcat(a[1..], b, piece + [a[0]]);
      }
    }
  }

  lemma {:induction false} OnePiece(t: string, piece: string)
    requires '/' !in t
    ensures Pieces(t, piece) == Piece(piece + t)
    decreases |t|
  {
    if t == "" {
      assert piece + t == piece;
    } else {
      assert piece + [t[0]] + t[1..] == piece + t;
      OnePiece(t[1..], piece + [t[0]]);
    }
  }

  /** The components of a path: the pieces between its slashes except the empty ones and `.`. */
  lemma {:induction false} ComponentsAre(pieces: seq<string>)
    requires forall t :: t in pieces ==> '/' !in t
    ensures pieces != [] ==> Pieces(Joined(pieces), "") == Counted(pieces)
    decreases |pieces|
  {
    hide Pieces;
    if pieces != [] {
      assert pieces[0] in pieces;
      OnePiece(pieces[0], "");
      assert "" + pieces[0] == pieces[0];
      if |pieces| == 1 {
        CountedOne(pieces[0]);
        assert pieces == [pieces[0]];
      } else {
        ComponentsAre(pieces[1..]);
        PiecesConcat(pieces[0], Joined(pieces[1..]), "");
      }
    }
  }

  /** Neither empty pieces nor `.` count. */
  function Counted(pieces: seq<string>): seq<string> {
    if pieces == [] then [] else (if pieces[0] == "" || pieces[0] == "." then [] else [pieces[0]]) + Counted(pieces[1..])
  }

  lemma CountedOne(t: string)
    ensures Counted([t]) == Piece(t)
  {
    assert [t][1..] == [];
  }

  function LeadingSlashes(n: nat): (t: string)
    ensures |t| == n && forall k :: 0 <= k < n ==> t[k] == '/'
  {
    if n == 0 then "" else "/" + LeadingSlashes(n - 1)
  }

  lemma {:induction false} SlashesSkipped(n: nat, t: string)
    ensures Pieces(LeadingSlashes(n) + t, "") == Pieces(t, "")
    decreases n
  {
    hide Pieces;
    if n == 0 {
      assert LeadingSlashes(0) + t == t;
    } else {
      var rest := LeadingSlashes(n - 1) + t;
      SlashesSkipped(n - 1, t);
      assert LeadingSlashes(n) + t == "" + "/" + rest;
      PiecesConcat("", rest, "");
      NoPieces();
    }
  }

  lemma StartOfPieces(pieces: seq<string>)
    requires pieces != [] && (pieces == [""] || pieces[0] != "") && forall t :: t in pieces ==> '/' !in t
    ensures Joined(pieces) != "" ==> Joined(pieces)[0] != '/'
  {
    assert pieces[0] in pieces;
  }

  lemma ExactlyTwo(n: nat, t: string)
    requires t != "" ==> t[0] != '/'
    ensures IsDoubled(LeadingSlashes(n) + t) <==> n == 2
  {
    var all := LeadingSlashes(n) + t;
    assert n < |all| ==> all[n] == t[0];
    assert n >= 2 ==> all[..2] == "//";
  }

  /** The canonical text of an absolute path: its slashes at the start become one, unless they
      are exactly two, and then come the components with slashes between them. */
  lemma CanonicalTextIs(n: nat, pieces: seq<string>)
    requires n >= 1 && pieces != [] && (pieces == [""] || pieces[0] != "") && ".." !in pieces
    requires forall t :: t in pieces ==> '/' !in t && 0 as char !in t
    ensures CanonicalPath(LeadingSlashes(n) + Joined(pieces)) == (if n == 2 then "//" else "/") + Joined(Counted(pieces))
  {
    hide Pieces, Joined, Counted;
    var t := LeadingSlashes(n) + Joined(pieces);
    StartOfPieces(pieces);
    SlashesSkipped(n, Joined(pieces));
    ComponentsAre(pieces);
    ExactlyTwo(n, Joined(pieces));
    CountedOf(pieces);
    if 0 as char in Joined(pieces) {
      JoinedCharacters(pieces, 0 as char);
    }
    assert t[0] == '/';
  }

  lemma {:induction false} CountedOf(pieces: seq<string>)
    ensures forall t :: t in Counted(pieces) ==> t in pieces
    decreases |pieces|
  {
    if pieces != [] {
      CountedOf(pieces[1..]);
    }
  }

  /** A path text without a component `..` does not go up. */
  lemma UpIsComponent(t: string, k: nat)
    requires UpAt(t, k)
    ensures ".." in Pieces(t, "")
  {
    hide Pieces, Piece;
    var a := t[..k];
    if k + 3 == |t| {
      assert t == a + "/" + "..";
      PiecesConcat(a, "..", "");
      OnePiece("..", "");
    } else {
      var b := t[k + 4..];
      assert t == (a + "/" + "..") + "/" + b;
      PiecesConcat(a + "/" + "..", b, "");
      PiecesConcat(a, "..", "");
      OnePiece("..", "");
    }
    UpIsPiece();
  }

  lemma UpIsPiece()
    ensures Piece("" + "..") == [".."]
  {
    assert "" + ".." == "..";
  }

  // ------------------------------------------------------------------ below

  /** A path with proper components. */
  predicate IsProper(p: Pathname) {
    p.parts != [] && forall t :: t in p.parts ==> IsPiece(t)
  }

  lemma {:induction false} JoinedConcat(a: seq<string>, b: seq<string>)
    requires a != [] && b != []
    ensures Joined(a + b) == Joined(a) + "/" + Joined(b)
    decreases |a|
  {
    var all := a + b;
    if |a| == 1 {
      assert all[1..] == b;
    } else {
      assert all[0] == a[0] && all[1..] == a[1..] + b;
      JoinedConcat(a[1..], b);
      assert a[0] + "/" + (Joined(a[1..]) + "/" + Joined(b)) == (a[0] + "/" + Joined(a[1..])) + "/" + Joined(b);
    }
  }

  lemma JoinedStart(parts: seq<string>)
    requires parts != [] && forall t :: t in parts ==> IsPiece(t)
    ensures Joined(parts) != "" && Joined(parts)[0] != '/'
  {
    assert parts[0] in parts && IsPiece(parts[0]);
  }

  /** More components make a text that goes on behind a slash. */
  lemma LongerText(r: Pathname, p: Pathname)
    requires IsProper(r) && IsProper(p) && r.doubled == p.doubled && r.parts < p.parts
    ensures PathText(r) + "/" < PathText(p)
  {
    hide Joined;
    var more := p.parts[|r.parts|..];
    assert p.parts == r.parts + more;
    JoinedConcat(r.parts, more);
    assert more[0] in p.parts;
    JoinedStart(more);
    var slashes := if p.doubled then "//" else "/";
    assert slashes + (Joined(r.parts) + "/" + Joined(more)) == slashes + Joined(r.parts) + "/" + Joined(more);
  }

  lemma TextRead(p: Pathname)
    requires IsProper(p)
    ensures Pieces(PathText(p), "") == p.parts
  {
    JoinedRead(p.parts);
    RootSkipped(p);
  }

  /** A text that goes on behind a slash has more components. */
  lemma LongerPath(r: Pathname, p: Pathname)
    requires IsProper(r) && IsProper(p) && PathText(r) + "/" < PathText(p)
    ensures r.doubled == p.doubled && r.parts < p.parts
  {
    hide Joined, Pieces, IsPiece;
    var rest := PathText(p)[|PathText(r)| + 1..];
    assert PathText(p) == PathText(r) + "/" + rest;
    PiecesConcat(PathText(r), rest, "");
    TextRead(r);
    TextRead(p);
    JoinedStart(r.parts);
    JoinedStart(p.parts);
    SameRoot(r, p);
    assert r.parts <= p.parts;
    assert r.parts == p.parts ==> r == p;
  }

  lemma SameRoot(r: Pathname, p: Pathname)
    requires Joined(r.parts) != "" && Joined(r.parts)[0] != '/' && Joined(p.parts) != "" && Joined(p.parts)[0] != '/'
    requires PathText(r) <= PathText(p)
    ensures r.doubled == p.doubled
  {
    hide Joined;
    var a, b := PathText(r), PathText(p);
    assert |a| >= 2 && a[1] == b[1];
    assert (a[1] == '/') == r.doubled && (b[1] == '/') == p.doubled;
  }

  lemma AbsoluteIsProper(t: string)
    requires Absolute(t).Some?
    ensures forall q :: q in Absolute(t).value.parts ==> IsPiece(q)
  {
    PiecesArePieces(t, "");
  }

  lemma AllowedHasParts(repo: Pathname, t: string)
    requires Absolute(t).Some? && RootAllowed(repo, PathnameOf(t))
    ensures IsProper(PathnameOf(t))
  {
    hide Absolute, IsTaskName;
    AbsoluteIsProper(t);
  }

  /** The path has all the components of the root and more. */
  predicate IsAbove(r: Pathname, p: Pathname) {
    r.doubled == p.doubled && r.parts < p.parts
  }

  lemma UnderSome(roots: seq<Pathname>, p: Pathname)
    ensures Under(roots, p) <==> exists i :: 0 <= i < |roots| && IsAbove(roots[i], p)
  {
  }

  /** A path lies below an allowed root exactly if its canonical text goes on behind that of the
      root and a slash. */
  lemma BelowIsLonger(repo: Pathname, root: string, t: string)
    requires Absolute(root).Some? && RootAllowed(repo, PathnameOf(root)) && Absolute(t).Some?
    ensures IsAbove(PathnameOf(root), PathnameOf(t)) <==> CanonicalPath(root) + "/" < CanonicalPath(t)
  {
    hide Absolute, RootAllowed, PathText;
    var r, p := PathnameOf(root), PathnameOf(t);
    AllowedHasParts(repo, root);
    AbsoluteIsProper(t);
    if IsAbove(r, p) {
      LongerText(r, p);
    }
    if PathText(r) + "/" < PathText(p) {
      TextIsLong(r);
      if p.parts == [] {
        TextIsShort(p);
      } else {
        LongerPath(r, p);
      }
    }
  }

  lemma TextIsLong(p: Pathname)
    requires IsProper(p)
    ensures |PathText(p)| >= 2
  {
    JoinedStart(p.parts);
  }

  lemma TextIsShort(p: Pathname)
    requires p.parts == []
    ensures |PathText(p)| <= 2
  {
  }

  // ------------------------------------------------------------------ roots

  /** The text of a dependency directory of the checkout. */
  function InRepo(repo: Pathname, profile: string): string {
    PathText(repo) + (if repo.parts == [] then "" else "/") + ("target/" + profile + "/deps")
  }

  predicate IsTaskLetter(ch: char) {
    'a' <= ch <= 'z' || 'A' <= ch <= 'Z' || '0' <= ch <= '9'
  }

  /** 1 to 128 letters, digits and other characters of task names, the first a letter or digit. */
  predicate IsTaskEnd(name: string) {
    1 <= |name| <= 128 && IsTaskLetter(name[0])
    && forall k :: 1 <= k < |name| ==> IsTaskLetter(name[k]) || name[k] == '.' || name[k] == '_' || name[k] == '-'
  }

  /** A task directory right under `/tmp`. */
  ghost predicate IsTaskRoot(t: string) {
    exists name: string :: t == "/tmp/suzaku-" + name && IsTaskEnd(name)
  }

  /** One of the places whose files may be deleted. */
  ghost predicate IsAllowedRoot(repo: Pathname, t: string) {
    t == InRepo(repo, "debug") || t == InRepo(repo, "release") || IsTaskRoot(t)
  }

  lemma {:induction false} SameTextSamePath(a: Pathname, b: Pathname)
    requires (forall t :: t in a.parts ==> IsPiece(t)) && forall t :: t in b.parts ==> IsPiece(t)
    requires a.parts != [] && b.parts != [] && PathText(a) == PathText(b)
    ensures a == b
  {
    hide Joined, Pieces;
    JoinedStart(a.parts);
    JoinedStart(b.parts);
    TextRead(a);
    TextRead(b);
    SameRoot(a, b);
  }

  lemma DepsText(repo: Pathname, profile: string)
    requires repo.parts != [] ==> Joined(repo.parts) != ""
    ensures PathText(repo.(parts := repo.parts + ["target", profile, "deps"])) == InRepo(repo, profile)
  {
    hide Joined;
    var tail := ["target", profile, "deps"];
    var slashes := if repo.doubled then "//" else "/";
    JoinedDeps(profile);
    if repo.parts == [] {
      NothingJoined();
      assert repo.parts + tail == tail;
      assert slashes + "" + "" + ("target/" + profile + "/deps") == slashes + ("target/" + profile + "/deps");
    } else {
      JoinedConcat(repo.parts, tail);
      assert slashes + (Joined(repo.parts) + "/" + ("target/" + profile + "/deps"))
          == slashes + Joined(repo.parts) + "/" + ("target/" + profile + "/deps");
    }
  }

  lemma NothingJoined()
    ensures Joined([]) == ""
  {
  }

  lemma JoinedDeps(profile: string)
    ensures Joined(["target", profile, "deps"]) == "target/" + profile + "/deps"
  {
    hide Joined;
    var a, c := "target", "deps";
    JoinedLast(c);
    JoinedFirst(profile, [c]);
    JoinedFirst(a, [profile, c]);
    assert [profile] + [c] == [profile, c] && [a] + [profile, c] == [a, profile, c];
    DepsLiterals();
    assert a + "/" + (profile + "/" + c) == (a + "/") + profile + ("/" + c);
  }

  lemma DepsLiterals()
    ensures "target" + "/" == "target/" && "/" + "deps" == "/deps"
  {
  }

  lemma JoinedLast(t: string)
    ensures Joined([t]) == t
  {
  }

  lemma JoinedFirst(t: string, rest: seq<string>)
    requires rest != []
    ensures Joined([t] + rest) == t + "/" + Joined(rest)
  {
    assert ([t] + rest)[1..] == rest;
  }

  lemma TaskText(name: string)
    ensures PathText(Pathname(false, ["tmp", "suzaku-" + name])) == "/tmp/suzaku-" + name
  {
    hide Joined;
    var t := "suzaku-" + name;
    JoinedLast(t);
    JoinedFirst("tmp", [t]);
    assert ["tmp"] + [t] == ["tmp", t];
    assert "/" + ("tmp" + "/" + ("suzaku-" + name)) == ("/" + "tmp" + "/" + "suzaku-") + name;
    TaskLiterals();
  }

  lemma TaskLiterals()
    ensures "/" + "tmp" + "/" + "suzaku-" == "/tmp/suzaku-"
  {
  }

  lemma TaskNameIs(t: string)
    ensures IsTaskName(t) <==> exists name: string :: t == "suzaku-" + name && IsTaskEnd(name)
  {
    if IsTaskName(t) {
      var name := t[7..];
      assert t == t[..7] + name;
      assert forall k :: 1 <= k < |name| ==> name[k] == t[k + 7];
    }
    if name: string :| t == "suzaku-" + name && IsTaskEnd(name) {
      assert t[7] == name[0] && t[..7] == "suzaku-";
      assert forall k :: 8 <= k < |t| ==> t[k] == name[k - 7];
    }
  }

  /** The roots that are allowed, on their canonical texts. */
  lemma AllowedRootIs(repo: Pathname, root: string)
    requires Absolute(root).Some? && forall t :: t in repo.parts ==> IsPiece(t)
    ensures RootAllowed(repo, PathnameOf(root)) <==> IsAllowedRoot(repo, CanonicalPath(root))
  {
    hide Absolute, PathText, IsTaskName, Joined, IsPiece, InRepo, IsTaskRoot;
    var p := PathnameOf(root);
    AbsoluteIsProper(root);
    if repo.parts != [] {
      JoinedStart(repo.parts);
    }
    DepsArePieces();
    DepsAllowed(repo, p, "debug");
    DepsAllowed(repo, p, "release");
    TaskAllowed(p);
  }

  lemma DepsAllowed(repo: Pathname, p: Pathname, profile: string)
    requires (forall t :: t in repo.parts ==> IsPiece(t)) && (forall t :: t in p.parts ==> IsPiece(t)) && IsPiece(profile)
    ensures p == repo.(parts := repo.parts + ["target", profile, "deps"]) <==> PathText(p) == InRepo(repo, profile)
  {
    hide PathText, Joined, InRepo, IsPiece;
    var q := repo.(parts := repo.parts + ["target", profile, "deps"]);
    if repo.parts != [] {
      JoinedStart(repo.parts);
    }
    DepsText(repo, profile);
    DepsArePieces();
    if PathText(p) == PathText(q) {
      LongTextHasParts(p, q);
      SameTextSamePath(p, q);
    }
  }

  lemma DepsArePieces()
    ensures IsPiece("target") && IsPiece("debug") && IsPiece("release") && IsPiece("deps") && IsPiece("tmp")
  {
  }

  lemma LongTextHasParts(p: Pathname, q: Pathname)
    requires IsProper(q) && PathText(p) == PathText(q)
    ensures p.parts != []
  {
    JoinedStart(q.parts);
    assert Joined([]) == "";
    assert |PathText(q)| >= (if q.doubled then 3 else 2) && (!q.doubled ==> PathText(q)[1] != '/');
  }

  lemma TaskIsPiece(name: string)
    requires IsTaskEnd(name)
    ensures IsPiece("suzaku-" + name)
  {
    var t := "suzaku-" + name;
    assert forall k :: 7 <= k < |t| ==> t[k] == name[k - 7];
    assert t[0] == 's';
  }

  lemma TaskAllowed(p: Pathname)
    requires forall t :: t in p.parts ==> IsPiece(t)
    ensures (!p.doubled && |p.parts| == 2 && p.parts[0] == "tmp" && IsTaskName(p.parts[1])) <==> IsTaskRoot(PathText(p))
  {
    hide PathText, IsTaskName, IsTaskEnd, IsPiece;
    DepsArePieces();
    if !p.doubled && |p.parts| == 2 && p.parts[0] == "tmp" && IsTaskName(p.parts[1]) {
      TaskNameIs(p.parts[1]);
      var name :| p.parts[1] == "suzaku-" + name && IsTaskEnd(name);
      TaskText(name);
      assert p == Pathname(false, ["tmp", "suzaku-" + name]);
    }
    if name: string :| PathText(p) == "/tmp/suzaku-" + name && IsTaskEnd(name) {
      var q := Pathname(false, ["tmp", "suzaku-" + name]);
      TaskText(name);
      TaskIsPiece(name);
      TaskNameIs("suzaku-" + name);
      LongTextHasParts(p, q);
      SameTextSamePath(p, q);
    }
  }
}
