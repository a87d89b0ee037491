/** POSIX path text: splitting and joining, `join`, `normpath`, `dirname` and `relpath`. */
module Paths {
  import opened ByteStrings

  const DOTS: Bytes := [DOT, DOT]
  const HERE: Bytes := [DOT]

  predicate IsRelative(p: Bytes) {
    p == [] || p[0] != SLASH
  }

  // ------------------------------------------------------ split and join

  /** The pieces of `p` between slashes; always at least one. */
  function Split(p: Bytes): (parts: seq<Bytes>)
    ensures parts != []
    ensures forall k :: 0 <= k < |parts| ==> SLASH !in parts[k]
    decreases |p|
  {
    if p == [] then [[]]
    else
      var rest := Split(p[1..]);
      if p[0] == SLASH then [[]] + rest else [[p[0]] + rest[0]] + rest[1..]
  }

  /** The pieces with slashes between them. */
  function Unsplit(parts: seq<Bytes>): Bytes {
    if parts == [] then []
    else if |parts| == 1 then parts[0]
    else parts[0] + [SLASH] + Unsplit(parts[1..])
  }

  lemma OnePartText(c: Bytes)
    ensures Unsplit([c]) == c
  {
  }

  lemma PartsBehind(c: Bytes, parts: seq<Bytes>)
    requires parts != []
    ensures Unsplit([c] + parts) == c + [SLASH] + Unsplit(parts)
  {
    assert ([c] + parts)[1..] == parts;
  }

  lemma {:induction false} SplitPiece(a: Bytes)
    requires SLASH !in a
    ensures Split(a) == [a]
    decreases |a|
  {
    if a != [] {
      SplitPiece(a[1..]);
      assert a == [a[0]] + a[1..];
    }
  }

  lemma {:induction false} SplitConcat(a: Bytes, b: Bytes)
    ensures Split(a + [SLASH] + b) == Split(a) + Split(b)
    decreases |a|
  {
    var p := a + [SLASH] + b;
    if a == [] {
      assert p[1..] == b;
    } else {
      assert p[0] == a[0] && p[1..] == a[1..] + [SLASH] + b;
      SplitConcat(a[1..], b);
    }
  }

  lemma {:induction false} SplitUnsplit(parts: seq<Bytes>)
    requires parts != [] && forall k :: 0 <= k < |parts| ==> SLASH !in parts[k]
    ensures Split(Unsplit(parts)) == parts
    decreases |parts|
  {
    SplitPiece(parts[0]);
    if |parts| > 1 {
      SplitUnsplit(parts[1..]);
      SplitConcat(parts[0], Unsplit(parts[1..]));
      assert parts == [parts[0]] + parts[1..];
    }
  }

  /** The slash that `join` puts behind `a`, if any. */
  function Separator(a: Bytes): Bytes {
    if a == [] || a[|a| - 1] == SLASH then [] else [SLASH]
  }

  /** `posixpath.join` of two paths. */
  function PathJoin(a: Bytes, b: Bytes): Bytes {
    if IsRelative(b) then a + Separator(a) + b else b
  }

  lemma PathJoinAssociates(a: Bytes, b: Bytes, c: Bytes)
    requires IsRelative(b) && IsRelative(c)
    ensures PathJoin(a, PathJoin(b, c)) == PathJoin(PathJoin(a, b), c)
  {
    var outer := a + Separator(a) + b;
    if b == [] {
      assert outer == a + Separator(a) && Separator(outer) == [];
      assert b + [] + c == c;
    } else {
      assert outer[|outer| - 1] == b[|b| - 1];
      assert IsRelative(b + Separator(b) + c);
      Regrouped(a + Separator(a), b, Separator(b), c);
    }
  }

  lemma Regrouped(a: Bytes, b: Bytes, c: Bytes, d: Bytes)
    ensures a + (b + c + d) == (a + b) + c + d
  {
  }

  // ------------------------------------------------------------ normpath

  /** What one path component does to the components so far. */
  function Apply(stack: seq<Bytes>, c: Bytes, rooted: bool): seq<Bytes> {
    if c == [] || c == HERE then stack
    else if c != DOTS || (!rooted && stack == []) || (stack != [] && stack[|stack| - 1] == DOTS) then stack + [c]
    else if stack != [] then stack[..|stack| - 1]
    else stack
  }

  function Run(parts: seq<Bytes>, stack: seq<Bytes>, rooted: bool): seq<Bytes>
    decreases |parts|
  {
    if parts == [] then stack else Run(parts[1..], Apply(stack, parts[0], rooted), rooted)
  }

  /** How many leading slashes POSIX keeps: exactly two stay two, more count as one. */
  function Slashes(p: Bytes): nat {
    if IsRelative(p) then 0
    else if |p| >= 2 && p[1] == SLASH && !(|p| >= 3 && p[2] == SLASH) then 2
    else 1
  }

  function Components(p: Bytes): seq<Bytes> {
    Run(Split(p), [], !IsRelative(p))
  }

  function Root(slashes: nat): Bytes {
    if slashes == 0 then [] else [SLASH] + Root(slashes - 1)
  }

  function Render(slashes: nat, comps: seq<Bytes>): Bytes {
    var text := Root(slashes) + Unsplit(comps);
    if text == [] then HERE else text
  }

  /** `posixpath.normpath`. */
  function NormPath(p: Bytes): Bytes {
    if p == [] then HERE else Render(Slashes(p), Components(p))
  }

  /** `posixpath.dirname`: what comes before the last slash, without trailing slashes
      unless it is nothing but slashes. */
  function Dirname(p: Bytes): Bytes {
    var head := UpToLastSlash(p);
    if RStrip(head) == [] then head else RStrip(head)
  }

  function UpToLastSlash(p: Bytes): Bytes {
    if p == [] || p[|p| - 1] == SLASH then p else UpToLastSlash(p[..|p| - 1])
  }

  function RStrip(p: Bytes): Bytes {
    if p == [] || p[|p| - 1] != SLASH then p else RStrip(p[..|p| - 1])
  }

  // ------------------------------------------------- laws of the machine

  /** Components a path can consist of: not empty, not `.`, no slash. */
  predicate Proper(comps: seq<Bytes>) {
    forall k :: 0 <= k < |comps| ==> comps[k] != [] && comps[k] != HERE && SLASH !in comps[k]
  }

  /** Components without `..`. */
  predicate Plain(comps: seq<Bytes>) {
    Proper(comps) && forall k :: 0 <= k < |comps| ==> comps[k] != DOTS
  }

  lemma {:induction false} RunConcat(a: seq<Bytes>, b: seq<Bytes>, stack: seq<Bytes>, rooted: bool)
    ensures Run(a + b, stack, rooted) == Run(b, Run(a, stack, rooted), rooted)
    decreases |a|
  {
    if a == [] {
      assert a + b == b;
    } else {
      assert (a + b)[1..] == a[1..] + b;
      RunConcat(a[1..], b, Apply(stack, a[0], rooted), rooted);
    }
  }

  lemma {:induction false} RunProper(parts: seq<Bytes>, stack: seq<Bytes>, rooted: bool)
    requires Proper(stack) && forall k :: 0 <= k < |parts| ==> SLASH !in parts[k]
    ensures Proper(Run(parts, stack, rooted))
    decreases |parts|
  {
    if parts != [] {
      RunProper(parts[1..], Apply(stack, parts[0], rooted), rooted);
    }
  }

  /** From a root there is no way up. */
  lemma {:induction false} RootedIsPlain(parts: seq<Bytes>, stack: seq<Bytes>)
    requires Plain(stack) && forall k :: 0 <= k < |parts| ==> SLASH !in parts[k]
    ensures Plain(Run(parts, stack, true))
    decreases |parts|
  {
    if parts != [] {
      RootedIsPlain(parts[1..], Apply(stack, parts[0], true));
    }
  }

  /** One more component, applied before or after a run from another stack. */
  lemma ApplyThenRun(n: seq<Bytes>, c: Bytes, stack: seq<Bytes>, rooted: bool)
    requires Proper(n)
    ensures Run(Apply(n, c, false), stack, rooted) == Apply(Run(n, stack, rooted), c, rooted)
  {
    if c == [] || c == HERE {
    } else if Apply(n, c, false) == n + [c] {
      RunConcat(n, [c], stack, rooted);
    } else {
      var init, last := n[..|n| - 1], n[|n| - 1];
      assert n == init + [last];
      RunConcat(init, [last], stack, rooted);
      var below := Run(init, stack, rooted);
      assert Run([last], below, rooted) == Apply(below, last, rooted) == below + [last];
      assert (below + [last])[..|below|] == below;
    }
  }

  /** Running a relative path from a stack is running its normal form from there. */
  lemma {:induction false} RunNormalForm(parts: seq<Bytes>, n: seq<Bytes>, stack: seq<Bytes>, rooted: bool)
    requires Proper(n) && forall k :: 0 <= k < |parts| ==> SLASH !in parts[k]
    ensures Run(Run(parts, n, false), stack, rooted) == Run(parts, Run(n, stack, rooted), rooted)
    decreases |parts|
  {
    if parts != [] {
      ApplyThenRun(n, parts[0], stack, rooted);
      RunNormalForm(parts[1..], Apply(n, parts[0], false), stack, rooted);
    }
  }

  lemma {:induction false} PlainPushes(comps: seq<Bytes>, stack: seq<Bytes>, rooted: bool)
    requires Plain(comps)
    ensures Run(comps, stack, rooted) == stack + comps
    decreases |comps|
  {
    if comps != [] {
      PlainPushes(comps[1..], stack + [comps[0]], rooted);
    }
  }

  // ---------------------------------------------------- the law of normpath

  lemma {:induction false} TrailingSlash(a: Bytes)
    requires a != [] && a[|a| - 1] == SLASH
    ensures Split(a) == Split(a[..|a| - 1]) + [[]]
  {
    hide Split;
    var head := a[..|a| - 1];
    assert head + [SLASH] + [] == a;
    SplitConcat(head, []);
    SplitPiece([]);
  }

  /** The components of a joined path: run the second from where the first leads. */
  lemma JoinRuns(a: Bytes, b: Bytes, rooted: bool)
    requires IsRelative(b)
    ensures Run(Split(PathJoin(a, b)), [], rooted) == Run(Split(b), Run(Split(a), [], rooted), rooted)
  {
    hide Split;
    if a == [] {
      assert a + [] + b == b;
      SplitPiece([]);
    } else if a[|a| - 1] == SLASH {
      var head := a[..|a| - 1];
      TrailingSlash(a);
      assert a + [] + b == head + [SLASH] + b;
      SplitConcat(head, b);
      RunConcat(Split(head), Split(b), [], rooted);
      RunConcat(Split(head), [[]], [], rooted);
      assert Run([[]], Run(Split(head), [], rooted), rooted) == Run(Split(head), [], rooted);
    } else {
      SplitConcat(a, b);
      RunConcat(Split(a), Split(b), [], rooted);
    }
  }

  lemma JoinRoot(a: Bytes, b: Bytes)
    requires IsRelative(b)
    ensures a != [] ==> PathJoin(a, b) != [] && Slashes(PathJoin(a, b)) == Slashes(a)
    ensures a == [] ==> PathJoin(a, b) == b
    ensures IsRelative(PathJoin(a, b)) == IsRelative(a)
  {
    if a == [] {
      assert a + [] + b == b;
    } else {
      var p := PathJoin(a, b);
      assert p[..|a|] == a;
      assert |p| > |a| ==> p[|a|] == if a[|a| - 1] == SLASH then b[0] else SLASH;
      assert forall k :: 0 <= k < |a| ==> p[k] == a[k];
    }
  }

  /** What the normal form of a relative path splits into. */
  lemma RelativeNormal(b: Bytes)
    requires IsRelative(b)
    ensures Proper(Components(b)) && NormPath(b) != [] && IsRelative(NormPath(b))
    ensures Components(b) != [] ==> NormPath(b) == Unsplit(Components(b)) && Split(NormPath(b)) == Components(b)
    ensures Components(b) == [] ==> NormPath(b) == HERE && Split(NormPath(b)) == [HERE]
  {
    var comps := Components(b);
    RunProper(Split(b), [], false);
    SplitPiece([]);
    SplitPiece(HERE);
    assert b == [] ==> comps == [];
    assert Root(0) + Unsplit(comps) == Unsplit(comps);
    if comps != [] {
      SplitUnsplit(comps);
      UnsplitStart(comps);
    }
  }

  lemma UnsplitStart(comps: seq<Bytes>)
    requires comps != [] && Proper(comps)
    ensures Unsplit(comps) != [] && Unsplit(comps)[0] == comps[0][0] && Unsplit(comps)[0] != SLASH
  {
  }

  /** Running a relative path or its normal form comes to the same. */
  lemma RunOfNormal(b: Bytes, stack: seq<Bytes>, rooted: bool)
    requires IsRelative(b)
    ensures Run(Split(NormPath(b)), stack, rooted) == Run(Split(b), stack, rooted)
  {
    RelativeNormal(b);
    RunNormalForm(Split(b), [], stack, rooted);
    if Components(b) == [] {
      assert Run([HERE], stack, rooted) == stack;
    }
  }

  /** Normalising the second part first does not change where a joined path leads. */
  lemma NormJoinNorm(a: Bytes, b: Bytes)
    requires IsRelative(b)
    ensures NormPath(PathJoin(a, NormPath(b))) == NormPath(PathJoin(a, b))
  {
    var n := NormPath(b);
    RelativeNormal(b);
    var rooted := !IsRelative(a);
    JoinRuns(a, b, rooted);
    JoinRuns(a, n, rooted);
    RunOfNormal(b, Run(Split(a), [], rooted), rooted);
    JoinRoot(a, b);
    JoinRoot(a, n);
    NormIsRender(PathJoin(a, b));
    NormIsRender(PathJoin(a, n));
    SplitPiece([]);
  }

  lemma NormIsRender(p: Bytes)
    ensures NormPath(p) == Render(Slashes(p), Components(p))
  {
    SplitPiece([]);
    assert p == [] ==> Components(p) == [] && Render(0, []) == HERE;
  }

  // ------------------------------------------------------------- relpath

  /** `posixpath.abspath` in the directory `cwd`. */
  function AbsPath(cwd: Bytes, p: Bytes): Bytes {
    NormPath(PathJoin(cwd, p))
  }

  function NonEmpty(parts: seq<Bytes>): seq<Bytes> {
    if parts == [] then []
    else (if parts[0] == [] then [] else [parts[0]]) + NonEmpty(parts[1..])
  }

  /** How many components two paths share from the start. */
  function Common(a: seq<Bytes>, b: seq<Bytes>): (k: nat)
    ensures k <= |a| && k <= |b|
    ensures forall j :: 0 <= j < k ==> a[j] == b[j]
    ensures k < |a| && k < |b| ==> a[k] != b[k]
  {
    if a == [] || b == [] || a[0] != b[0] then 0 else 1 + Common(a[1..], b[1..])
  }

  function Ups(n: nat): (ups: seq<Bytes>)
    ensures |ups| == n && forall k :: 0 <= k < n ==> ups[k] == DOTS
  {
    if n == 0 then [] else [DOTS] + Ups(n - 1)
  }

  /** The way from one list of components to another. */
  function Way(from: seq<Bytes>, to: seq<Bytes>): seq<Bytes> {
    Ups(|from| - Common(from, to)) + to[Common(from, to)..]
  }

  /** `posixpath.relpath` in the directory `cwd`. */
  function RelPath(cwd: Bytes, path: Bytes, start: Bytes): Bytes {
    var way := Way(NonEmpty(Split(AbsPath(cwd, start))), NonEmpty(Split(AbsPath(cwd, path))));
    if way == [] then HERE else Unsplit(way)
  }

  lemma {:induction false} NonEmptyProper(comps: seq<Bytes>)
    requires Proper(comps)
    ensures NonEmpty(comps) == comps
    decreases |comps|
  {
    if comps != [] {
      NonEmptyProper(comps[1..]);
      assert comps == [comps[0]] + comps[1..];
    }
  }

  lemma {:induction false} NonEmptyConcat(a: seq<Bytes>, b: seq<Bytes>)
    ensures NonEmpty(a + b) == NonEmpty(a) + NonEmpty(b)
    decreases |a|
  {
    if a == [] {
      assert a + b == b;
    } else {
      assert (a + b)[1..] == a[1..] + b;
      NonEmptyConcat(a[1..], b);
    }
  }

  lemma RootText(tail: Bytes)
    ensures Root(1) + tail == [SLASH] + tail && Root(2) + tail == [SLASH] + ([SLASH] + tail)
  {
    assert Root(1) == [SLASH] && Root(2) == [SLASH] + [SLASH];
  }

  /** The nonempty pieces of a rendered absolute path are its components. */
  lemma RootedPieces(slashes: nat, comps: seq<Bytes>)
    requires 1 <= slashes <= 2 && Proper(comps)
    ensures NonEmpty(Split(Render(slashes, comps))) == comps
  {
    hide Split, NonEmpty, Unsplit, Proper;
    var tail := Unsplit(comps);
    PiecesOfComponents(comps);
    SlashBefore(tail);
    SlashBefore([SLASH] + tail);
    RootText(tail);
  }

  lemma PiecesOfComponents(comps: seq<Bytes>)
    requires Proper(comps)
    ensures NonEmpty(Split(Unsplit(comps))) == comps
  {
    hide Split, NonEmpty;
    if comps == [] {
      SplitPiece([]);
      NoPieces();
    } else {
      SplitUnsplit(comps);
      NonEmptyProper(comps);
    }
  }

  lemma NoPieces()
    ensures NonEmpty([[]]) == []
  {
  }

  lemma SlashBefore(tail: Bytes)
    ensures NonEmpty(Split([SLASH] + tail)) == NonEmpty(Split(tail))
  {
    hide Split, NonEmpty;
    SplitPiece([]);
    assert [] + [SLASH] + tail == [SLASH] + tail;
    SplitConcat([], tail);
    NonEmptyConcat([[]], Split(tail));
    NoPieces();
  }

  /** The pieces of the absolute form of a relative path without `..` in its normal form. */
  lemma AbsPieces(cwd: Bytes, p: Bytes)
    requires !IsRelative(cwd) && IsRelative(p) && Plain(Components(p))
    ensures NonEmpty(Split(AbsPath(cwd, p))) == Components(cwd) + Components(p)
  {
    JoinRuns(cwd, p, true);
    JoinRoot(cwd, p);
    RunNormalForm(Split(p), [], Components(cwd), true);
    PlainPushes(Components(p), Components(cwd), true);
    RootedIsPlain(Split(PathJoin(cwd, p)), []);
    RootedPieces(Slashes(PathJoin(cwd, p)), Components(PathJoin(cwd, p)));
  }

  lemma {:induction false} CommonBehind(c: seq<Bytes>, a: seq<Bytes>, b: seq<Bytes>)
    ensures Common(c + a, c + b) == |c| + Common(a, b)
    decreases |c|
  {
    if c == [] {
      assert c + a == a && c + b == b;
    } else {
      assert (c + a)[1..] == c[1..] + a && (c + b)[1..] == c[1..] + b;
      CommonBehind(c[1..], a, b);
    }
  }

  /** What two paths share does not matter for the way between them. */
  lemma WayBehind(c: seq<Bytes>, from: seq<Bytes>, to: seq<Bytes>)
    ensures Way(c + from, c + to) == Way(from, to)
  {
    CommonBehind(c, from, to);
    var k := Common(from, to);
    assert (c + to)[|c| + k..] == to[k..];
  }

  lemma {:induction false} UpsPop(stack: seq<Bytes>, n: nat, rooted: bool)
    requires n <= |stack| && Plain(stack)
    ensures Run(Ups(n), stack, rooted) == stack[..|stack| - n]
    decreases n
  {
    if n > 0 {
      UpsPop(stack[..|stack| - 1], n - 1, rooted);
      assert Ups(n)[1..] == Ups(n - 1);
    } else {
      assert stack[..|stack|] == stack;
    }
  }

  /** The way from one place to another leads there. */
  lemma WayLeads(from: seq<Bytes>, to: seq<Bytes>, rooted: bool)
    requires Plain(from) && Plain(to)
    ensures Run(Way(from, to), from, rooted) == to
  {
    hide Run, Ups, Common;
    var k := Common(from, to);
    RunConcat(Ups(|from| - k), to[k..], from, rooted);
    UpsPop(from, |from| - k, rooted);
    PlainPushes(to[k..], from[..k], rooted);
    assert from[..k] + to[k..] == to;
  }

  /** The text of `relpath`: what it splits into, and how it begins. */
  lemma RelPathText(way: seq<Bytes>)
    requires Proper(way)
    ensures
      var text := if way == [] then HERE else Unsplit(way);
      text != [] && IsRelative(text) && Split(text) == if way == [] then [HERE] else way
  {
    SplitPiece(HERE);
    if way != [] {
      SplitUnsplit(way);
      UnsplitStart(way);
    }
  }

  lemma WayProper(from: seq<Bytes>, to: seq<Bytes>)
    requires Proper(to)
    ensures Proper(Way(from, to))
  {
  }

  lemma StayingHere(stack: seq<Bytes>, rooted: bool)
    ensures Run([HERE], stack, rooted) == stack
  {
  }

  lemma NothingToDo(stack: seq<Bytes>, rooted: bool)
    ensures Run([], stack, rooted) == stack
  {
  }

  lemma PlainIsProper(comps: seq<Bytes>)
    requires Plain(comps)
    ensures Proper(comps)
  {
  }

  /** From the start directory, `relpath` leads to the path, whatever the working directory. */
  lemma RelPathLeads(cwd: Bytes, path: Bytes, start: Bytes)
    requires !IsRelative(cwd) && IsRelative(path) && IsRelative(start)
    requires Plain(Components(path)) && Plain(Components(start))
    ensures
      var rel := RelPath(cwd, path, start);
      rel != [] && IsRelative(rel) && NormPath(PathJoin(start, rel)) == NormPath(path)
  {
    hide Split, Run, Way, NonEmpty, PathJoin, Unsplit, AbsPath, Plain, Render;
    var from, to := Components(start), Components(path);
    AbsPieces(cwd, path);
    AbsPieces(cwd, start);
    PlainIsProper(to);
    WayBehind(Components(cwd), from, to);
    WayProper(from, to);
    RelPathText(Way(from, to));
    WayLeads(from, to, false);
    var rel := RelPath(cwd, path, start);
    JoinRuns(start, rel, false);
    JoinRoot(start, rel);
    StayingHere(from, false);
    NothingToDo(from, false);
    NormIsRender(PathJoin(start, rel));
    NormIsRender(path);
  }

  /** The pieces of the absolute form of a path. */
  lemma AbsoluteComponents(cwd: Bytes, p: Bytes)
    requires !IsRelative(cwd)
    ensures
      var comps := Components(PathJoin(cwd, p));
      !IsRelative(PathJoin(cwd, p)) && Plain(comps) && NonEmpty(Split(AbsPath(cwd, p))) == comps
  {
    hide Split, Run, NonEmpty;
    var abs := PathJoin(cwd, p);
    if IsRelative(p) {
      JoinRoot(cwd, p);
    }
    RootedIsPlain(Split(abs), []);
    RootedPieces(Slashes(abs), Components(abs));
  }

  lemma JoinAfter(cwd: Bytes, start: Bytes, rel: Bytes)
    requires IsRelative(rel)
    ensures PathJoin(cwd, PathJoin(start, rel)) == PathJoin(PathJoin(cwd, start), rel)
  {
    if IsRelative(start) {
      PathJoinAssociates(cwd, start, rel);
    } else {
      JoinRoot(start, rel);
    }
  }

  /** From the start directory `relpath` leads to the path, from the root on, wherever the two
      are and whether they are relative or not. */
  lemma RelPathArrives(cwd: Bytes, path: Bytes, start: Bytes)
    requires !IsRelative(cwd)
    ensures
      var rel := RelPath(cwd, path, start);
      rel != [] && IsRelative(rel)
      && Components(PathJoin(cwd, PathJoin(start, rel))) == Components(PathJoin(cwd, path))
  {
    hide Split, Run, Way, NonEmpty, PathJoin, Unsplit;
    var there := PathJoin(cwd, start);
    var from, to, rel := Components(there), Components(PathJoin(cwd, path)), RelPath(cwd, path, start);
    AbsoluteComponents(cwd, start);
    AbsoluteComponents(cwd, path);
    WayProper(from, to);
    RelPathText(Way(from, to));
    WayLeads(from, to, true);
    JoinAfter(cwd, start, rel);
    JoinRuns(there, rel, true);
    JoinRoot(there, rel);
    StayingHere(from, true);
    NothingToDo(from, true);
  }

  /** `relpath` always gives some relative text. */
  lemma RelPathRelative(cwd: Bytes, path: Bytes, start: Bytes)
    ensures RelPath(cwd, path, start) != []
  {
    var way := Way(NonEmpty(Split(AbsPath(cwd, start))), NonEmpty(Split(AbsPath(cwd, path))));
    NoEmptyPieces(Split(AbsPath(cwd, path)));
    if way != [] {
      assert way[0] != [];
    }
  }

  lemma NoEmptyPieces(parts: seq<Bytes>)
    ensures forall k :: 0 <= k < |NonEmpty(parts)| ==> NonEmpty(parts)[k] != []
  {
  }

  // --------------------------------------------- normal forms that stay inside

  /** A way up is only ever at the start. */
  predicate UpsFirst(comps: seq<Bytes>) {
    forall j, k :: 0 <= j < k < |comps| && comps[k] == DOTS ==> comps[j] == DOTS
  }

  lemma {:induction false} RunUpsFirst(parts: seq<Bytes>, stack: seq<Bytes>, rooted: bool)
    requires UpsFirst(stack)
    ensures UpsFirst(Run(parts, stack, rooted))
    decreases |parts|
  {
    if parts != [] {
      RunUpsFirst(parts[1..], Apply(stack, parts[0], rooted), rooted);
    }
  }

  /** Whether a normal path leads out of the directory it starts from. */
  predicate Escapes(path: Bytes) {
    path == DOTS || (|path| >= 3 && path[0] == DOT && path[1] == DOT && path[2] == SLASH)
  }

  /** A normal form that does not begin by going up never goes up, and stays as it is. */
  lemma InsideIsPlain(p: Bytes)
    requires IsRelative(p) && !Escapes(NormPath(p))
    ensures
      var n := NormPath(p);
      IsRelative(n) && Plain(Components(n)) && NormPath(n) == n
  {
    hide Split, Run, NormPath, Escapes, PathJoin;
    RelativeNormal(p);
    RunOfNormal(p, [], false);
    NormTwice(p);
    NeverUp(p);
  }

  lemma NormTwice(p: Bytes)
    requires IsRelative(p)
    ensures NormPath(NormPath(p)) == NormPath(p)
  {
    hide NormPath;
    RelativeNormal(p);
    NormJoinNorm([], p);
    assert [] + [] + p == p && [] + [] + NormPath(p) == NormPath(p);
  }

  lemma NeverUp(p: Bytes)
    requires IsRelative(p) && !Escapes(NormPath(p))
    ensures Plain(Components(p))
  {
    hide Split, Run, NormPath, Escapes;
    var comps := Components(p);
    RelativeNormal(p);
    RunUpsFirst(Split(p), [], false);
    if comps != [] && comps[0] == DOTS {
      EscapingText(comps);
    }
    assert forall k :: 0 <= k < |comps| && comps[k] == DOTS ==> comps[0] == DOTS;
  }

  lemma EscapingText(comps: seq<Bytes>)
    requires comps != [] && comps[0] == DOTS
    ensures Escapes(Unsplit(comps))
  {
    if |comps| > 1 {
      assert Unsplit(comps) == DOTS + [SLASH] + Unsplit(comps[1..]);
    }
  }
}
