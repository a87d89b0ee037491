/** Moving a guide between the places it has in a package: its links still lead to the same
    documents. */
module PackageLinks {
  import opened ByteStrings
  import opened Paths
  import opened Links

  /** The path text of a link of a guide in `base`, for a copy that finds the mirrored tree at
      `prefix`. */
  function RelocatedPath(path: Bytes, prefix: Bytes, base: Bytes): Bytes {
    NormPath(PathJoin(prefix, NormPath(PathJoin(base, path))))
  }

  function RelocateTarget(target: Bytes, prefix: Bytes, base: Bytes): Bytes {
    var uri := UrlSplit(target);
    if !IsLocal(uri) then target else UrlUnsplit(RelocatedPath(uri.path, prefix, base), uri.query, uri.fragment)
  }

  // ----------------------------------------------------- where paths lead

  /** Normalising the first part first does not change where a joined path leads, either. */
  lemma NormJoinNormFirst(a: Bytes, b: Bytes)
    requires IsRelative(a) && IsRelative(b)
    ensures NormPath(PathJoin(NormPath(a), b)) == NormPath(PathJoin(a, b))
  {
    hide Split, Run;
    RelativeNormal(a);
    JoinRuns(a, b, false);
    JoinRuns(NormPath(a), b, false);
    RunOfNormal(a, [], false);
    JoinRoot(a, b);
    JoinRoot(NormPath(a), b);
    NormIsRender(PathJoin(a, b));
    NormIsRender(PathJoin(NormPath(a), b));
  }

  /** From any directory, a relocated path leads where the old one leads from the base of the
      tree at the prefix. */
  lemma RelocatedPathLeads(path: Bytes, prefix: Bytes, base: Bytes, dir: Bytes)
    requires IsRelative(path) && IsRelative(prefix) && IsRelative(base)
    ensures NormPath(PathJoin(dir, RelocatedPath(path, prefix, base)))
         == NormPath(PathJoin(PathJoin(PathJoin(dir, prefix), base), path))
    ensures RelocatedPath(path, prefix, base) != [] && IsRelative(RelocatedPath(path, prefix, base))
  {
    hide NormPath, PathJoin;
    var inner := PathJoin(base, path);
    JoinRoot(base, path);
    RelativeNormal(inner);
    JoinRoot(prefix, inner);
    JoinRoot(prefix, NormPath(inner));
    NormJoinNorm(prefix, inner);
    NormJoinNorm(dir, PathJoin(prefix, inner));
    RelativeNormal(PathJoin(prefix, inner));
    PathJoinAssociates(prefix, base, path);
    JoinRoot(prefix, base);
    PathJoinAssociates(dir, PathJoin(prefix, base), path);
    PathJoinAssociates(dir, prefix, base);
  }

  // ------------------------------------------------------------- the bytes

  lemma {:induction false} SplitBytes(p: Bytes)
    ensures forall k, b :: 0 <= k < |Split(p)| && b in Split(p)[k] ==> b in p
    decreases |p|
  {
    if p != [] {
      SplitBytes(p[1..]);
      var rest := Split(p[1..]);
      assert forall b :: b in p[1..] ==> b in p;
      forall k, b | 0 <= k < |Split(p)| && b in Split(p)[k] ensures b in p {
        if p[0] == SLASH {
          assert k > 0 ==> Split(p)[k] == rest[k - 1];
        } else {
          assert k > 0 ==> Split(p)[k] == rest[k];
          assert k == 0 ==> Split(p)[k] == [p[0]] + rest[0];
        }
      }
    }
  }

  lemma {:induction false} RunPieces(parts: seq<Bytes>, stack: seq<Bytes>, rooted: bool)
    ensures forall k :: 0 <= k < |Run(parts, stack, rooted)| ==>
              Run(parts, stack, rooted)[k] in parts || Run(parts, stack, rooted)[k] in stack
    decreases |parts|
  {
    if parts != [] {
      RunPieces(parts[1..], Apply(stack, parts[0], rooted), rooted);
    }
  }

  lemma {:induction false} UnsplitBytes(parts: seq<Bytes>, b: byte)
    requires b in Unsplit(parts) && b != SLASH
    ensures exists k :: 0 <= k < |parts| && b in parts[k]
    decreases |parts|
  {
    if b !in parts[0] {
      assert b in Unsplit(parts[1..]);
      UnsplitBytes(parts[1..], b);
      var k :| 0 <= k < |parts[1..]| && b in parts[1..][k];
      assert b in parts[k + 1];
    }
  }

  /** A normal form has no bytes but those of the path, dots and slashes. */
  lemma NormPathBytes(p: Bytes, b: byte)
    requires IsRelative(p) && b in NormPath(p)
    ensures b in p || b == DOT || b == SLASH
  {
    hide Split, Run, Components, NormPath, Unsplit, Proper;
    RelativeNormal(p);
    var comps := Components(p);
    if comps != [] && b != SLASH {
      UnsplitBytes(comps, b);
      var k :| 0 <= k < |comps| && b in comps[k];
      ComponentBytes(p, k, b);
    }
  }

  lemma ComponentBytes(p: Bytes, k: nat, b: byte)
    requires IsRelative(p) && k < |Components(p)| && b in Components(p)[k]
    ensures b in p
  {
    hide Split, Run;
    RunPieces(Split(p), [], false);
    SplitBytes(p);
    var j :| 0 <= j < |Split(p)| && Split(p)[j] == Components(p)[k];
  }

  lemma JoinBytes(a: Bytes, b: Bytes, x: byte)
    requires x in PathJoin(a, b)
    ensures x in a || x in b || x == SLASH
  {
  }

  /** Bytes that directories of a package may have in their names. */
  predicate IsPlainName(p: Bytes) {
    IsRelative(p) && IsClean(p) && QUESTION !in p && HASH !in p
  }

  /** A relocated path has no bytes but those of path, prefix and base, dots and slashes. */
  lemma RelocatedFrom(path: Bytes, prefix: Bytes, base: Bytes, x: byte)
    requires IsRelative(path) && IsRelative(prefix) && IsRelative(base) && x in RelocatedPath(path, prefix, base)
    ensures x in path || x in prefix || x in base || x == DOT || x == SLASH
  {
    hide NormPath, PathJoin;
    var inner := PathJoin(base, path);
    JoinRoot(base, path);
    RelativeNormal(inner);
    JoinRoot(prefix, NormPath(inner));
    NormPathBytes(PathJoin(prefix, NormPath(inner)), x);
    if x in PathJoin(prefix, NormPath(inner)) {
      JoinBytes(prefix, NormPath(inner), x);
      if x in NormPath(inner) {
        NormPathBytes(inner, x);
        if x in inner {
          JoinBytes(base, path, x);
        }
      }
    }
  }

  lemma RelocatedBytes(path: Bytes, prefix: Bytes, base: Bytes)
    requires IsPlainName(path) && IsPlainName(prefix) && IsPlainName(base)
    ensures IsPlainName(RelocatedPath(path, prefix, base))
  {
    hide RelocatedPath;
    RelocatedPathLeads(path, prefix, base, []);
    forall x | x in RelocatedPath(path, prefix, base) ensures !IsUnsafe(x) && x != QUESTION && x != HASH {
      RelocatedFrom(path, prefix, base, x);
    }
  }

  // ------------------------------------------------ how a moved path begins

  /** How many directories a normal form climbs before it goes down. */
  function Climb(comps: seq<Bytes>): (n: nat)
    ensures n <= |comps| && (n < |comps| ==> comps[n] != DOTS)
    ensures forall k :: 0 <= k < n ==> comps[k] == DOTS
  {
    if comps == [] || comps[0] != DOTS then 0 else 1 + Climb(comps[1..])
  }

  /** What a path begins with that is followed from `place`: the first part of the place, unless
      the path climbs out of it; then what it lands on, or a way up. */
  function FirstPart(place: seq<Bytes>, comps: seq<Bytes>): Bytes {
    if place != [] && (place[0] == DOTS || Climb(comps) < |place|) then place[0]
    else if Climb(comps) == |place| < |comps| then comps[|place|]
    else HERE
  }

  /** Text at whose start `urlsplit` finds something else than a path. */
  predicate IsMistaken(text: Bytes) {
    text != [] && (text[0] <= SPACE || HasScheme(text))
  }

  lemma {:induction false} LeadingUpStays(parts: seq<Bytes>, stack: seq<Bytes>)
    requires stack != [] && stack[0] == DOTS
    ensures Run(parts, stack, false) != [] && Run(parts, stack, false)[0] == DOTS
    decreases |parts|
  {
    if parts != [] {
      LeadingUpStays(parts[1..], Apply(stack, parts[0], false));
    }
  }

  lemma {:induction false} UpsStay(n: nat, m: nat)
    ensures Run(Ups(n), Ups(m), false) == Ups(m + n)
    decreases n
  {
    hide Ups;
    if n > 0 {
      assert Ups(n)[0] == DOTS && Ups(n)[1..] == Ups(n - 1);
      assert Ups(m) + [DOTS] == Ups(m + 1);
      UpsStay(n - 1, m + 1);
    } else {
      assert Ups(m + n) == Ups(m) && Ups(n) == [];
    }
  }

  /** A normal form goes up, then down. */
  lemma UpThenDown(comps: seq<Bytes>)
    requires Proper(comps) && UpsFirst(comps)
    ensures comps == Ups(Climb(comps)) + comps[Climb(comps)..] && Plain(comps[Climb(comps)..])
  {
    hide Climb, Ups;
    var n := Climb(comps);
    assert comps[..n] == Ups(n);
    assert n < |comps| ==> comps[n] != DOTS;
  }

  /** Following a normal form from a place that does not begin by going up. */
  lemma RunFrom(place: seq<Bytes>, comps: seq<Bytes>)
    requires Plain(place) && Proper(comps) && UpsFirst(comps)
    ensures
      var n := Climb(comps);
      Run(comps, place, false)
      == (if n <= |place| then place[..|place| - n] else Ups(n - |place|)) + comps[n..]
  {
    hide Run, Ups, Climb, Plain, Proper, UpsFirst;
    var n := Climb(comps);
    UpThenDown(comps);
    RunConcat(Ups(n), comps[n..], place, false);
    if n <= |place| {
      UpsPop(place, n, false);
      PlainPushes(comps[n..], place[..|place| - n], false);
    } else {
      UpsAdd(|place|, n - |place|);
      RunConcat(Ups(|place|), Ups(n - |place|), place, false);
      UpsPop(place, |place|, false);
      assert place[..|place| - |place|] == [] == Ups(0) by { assert |Ups(0)| == 0; }
      UpsStay(n - |place|, 0);
      PlainPushes(comps[n..], Ups(n - |place|), false);
    }
  }

  lemma UpsAdd(m: nat, n: nat)
    ensures Ups(m) + Ups(n) == Ups(m + n)
  {
  }

  /** Where a path followed from a place begins. */
  lemma RunBegins(place: seq<Bytes>, comps: seq<Bytes>)
    requires Proper(place) && UpsFirst(place) && Proper(comps) && UpsFirst(comps)
    ensures
      var run := Run(comps, place, false);
      if run == [] then !IsMistaken(FirstPart(place, comps))
      else run[0] == FirstPart(place, comps) || (run[0] == DOTS && FirstPart(place, comps) == HERE)
  {
    hide Run;
    NoMistake();
    if place != [] && place[0] == DOTS {
      LeadingUpStays(comps, place);
    } else {
      assert Plain(place);
      RunFrom(place, comps);
    }
  }

  lemma NoMistake()
    ensures !IsMistaken(HERE) && !IsMistaken(DOTS)
  {
    hide IndexOf;
  }

  /** Only the first part of a path can be mistaken for something else. */
  lemma MistakenAtFirst(comps: seq<Bytes>)
    requires Proper(comps) && comps != []
    ensures IsMistaken(Unsplit(comps)) == IsMistaken(comps[0])
  {
    hide IndexOf;
    var first, text := comps[0], Unsplit(comps);
    if |comps| > 1 {
      assert text == first + [SLASH] + Unsplit(comps[1..]);
      assert text[|first|] == SLASH;
      assert forall k :: 0 <= k < |first| ==> text[k] == first[k];
      SchemeBeforeSlash(first, text);
    }
  }

  lemma SchemeBeforeSlash(first: Bytes, text: Bytes)
    requires first != [] && |first| < |text| && text[..|first|] == first && text[|first|] == SLASH
    ensures HasScheme(text) == HasScheme(first)
  {
    hide IndexOf;
    var i, j := IndexOf(text, 0, COLON), IndexOf(first, 0, COLON);
    assert forall k :: 0 <= k < |first| ==> text[k] == first[k];
    if j < |first| {
      assert i == j;
    } else {
      assert i > |first|;
    }
  }

  /** The components of a relocated path: those of the path, followed from the place that prefix
      and base lead to. */
  lemma RelocatedComponents(path: Bytes, prefix: Bytes, base: Bytes)
    requires IsRelative(path) && IsRelative(prefix) && IsRelative(base)
    ensures RelocatedPath(path, prefix, base) == Render(0, Run(Components(path), Components(PathJoin(prefix, base)), false))
  {
    hide NormPath, PathJoin, Split, Run, Render;
    var inner, place := PathJoin(base, path), PathJoin(prefix, base);
    JoinRoot(base, path);
    NormJoinNorm(prefix, inner);
    PathJoinAssociates(prefix, base, path);
    JoinRoot(prefix, base);
    JoinRoot(place, path);
    NormIsRender(PathJoin(place, path));
    JoinRuns(place, path, false);
    FollowNormal(path, Components(place));
  }

  lemma FollowNormal(path: Bytes, stack: seq<Bytes>)
    requires IsRelative(path)
    ensures Run(Split(path), stack, false) == Run(Components(path), stack, false)
  {
    hide Split;
    RunNormalForm(Split(path), [], stack, false);
  }

  lemma NormalForm(p: Bytes)
    requires IsRelative(p)
    ensures Proper(Components(p)) && UpsFirst(Components(p))
  {
    RunProper(Split(p), [], false);
    RunUpsFirst(Split(p), [], false);
  }

  /** Whether a relocated path is mistaken depends on the part it begins with. */
  lemma RelocatedBegins(path: Bytes, prefix: Bytes, base: Bytes)
    requires IsRelative(path) && IsRelative(prefix) && IsRelative(base)
    ensures IsMistaken(RelocatedPath(path, prefix, base))
         == IsMistaken(FirstPart(Components(PathJoin(prefix, base)), Components(path)))
  {
    hide RelocatedPath, PathJoin, Components, Run, IsMistaken, FirstPart, UpsFirst, Proper, Unsplit;
    var place, comps := Components(PathJoin(prefix, base)), Components(path);
    JoinRoot(prefix, base);
    NormalForm(PathJoin(prefix, base));
    NormalForm(path);
    RelocatedComponents(path, prefix, base);
    RunBegins(place, comps);
    var run := Run(comps, place, false);
    RunStaysProper(comps, place);
    NoMistake();
    RenderedText(run);
    if run != [] {
      MistakenAtFirst(run);
    }
  }

  lemma RunStaysProper(comps: seq<Bytes>, place: seq<Bytes>)
    requires Proper(comps) && Proper(place)
    ensures Proper(Run(comps, place, false))
  {
    RunProper(comps, place, false);
  }

  lemma RenderedText(comps: seq<Bytes>)
    requires Proper(comps)
    ensures Render(0, comps) == if comps == [] then HERE else Unsplit(comps)
  {
    assert Root(0) + Unsplit(comps) == Unsplit(comps);
    if comps != [] {
      UnsplitStart(comps);
    }
  }

  // ---------------------------------------------------------------- theorems

  /** A relocated link is read back with its path, query and fragment, exactly if the part of
      place or path that the new path begins with does not begin with a stripped byte or look
      like a scheme. */
  lemma RelocatedReadBack(target: Bytes, prefix: Bytes, base: Bytes)
    requires IsLocal(UrlSplit(target)) && IsPlainName(prefix) && IsPlainName(base)
    ensures
      var uri := UrlSplit(target);
      UrlSplit(RelocateTarget(target, prefix, base))
      == Url([], [], RelocatedPath(uri.path, prefix, base), uri.query, uri.fragment)
      <==> !IsMistaken(FirstPart(Components(PathJoin(prefix, base)), Components(uri.path)))
  {
    hide UrlSplit, UrlUnsplit, RelocatedPath, HasScheme, NormPath, PathJoin, FirstPart, Components;
    var uri := UrlSplit(target);
    PartsOf(target);
    RelocatedPathLeads(uri.path, prefix, base, []);
    RelocatedBytes(uri.path, prefix, base);
    RelocatedBegins(uri.path, prefix, base);
    UrlRoundTrip(RelocatedPath(uri.path, prefix, base), uri.query, uri.fragment);
  }

  /** Link meaning survives the move: from the copy's directory a relocated link leads where the
      link led from `home`, whenever the prefix and the base lead from that directory to `home`;
      its query and fragment are kept, and links with a scheme, an authority or an absolute or
      empty path are untouched. */
  lemma RepackagedLinkLeads(target: Bytes, prefix: Bytes, base: Bytes, dir: Bytes, home: Bytes)
    requires IsPlainName(prefix) && IsPlainName(base) && IsRelative(dir) && IsRelative(home)
    requires NormPath(PathJoin(PathJoin(dir, prefix), base)) == NormPath(home)
    ensures
      var uri := UrlSplit(target);
      var now := UrlSplit(RelocateTarget(target, prefix, base));
      if !IsLocal(uri) then RelocateTarget(target, prefix, base) == target
      else
        var path := RelocatedPath(uri.path, prefix, base);
        NormPath(PathJoin(dir, path)) == NormPath(PathJoin(home, uri.path))
        && (now == Url([], [], path, uri.query, uri.fragment)
            <==> !IsMistaken(FirstPart(Components(PathJoin(prefix, base)), Components(uri.path))))
  {
    hide UrlSplit, UrlUnsplit, RelocatedPath, HasScheme, NormPath, PathJoin, FirstPart, Components;
    var uri := UrlSplit(target);
    if !IsLocal(uri) {
      Untouched(target, prefix, base);
    } else {
      RelocatedReadBack(target, prefix, base);
      RelocatedPathLeads(uri.path, prefix, base, dir);
      var there := PathJoin(PathJoin(dir, prefix), base);
      JoinRoot(dir, prefix);
      JoinRoot(PathJoin(dir, prefix), base);
      NormJoinNormFirst(there, uri.path);
      NormJoinNormFirst(home, uri.path);
    }
  }

  lemma Untouched(target: Bytes, prefix: Bytes, base: Bytes)
    requires !IsLocal(UrlSplit(target))
    ensures RelocateTarget(target, prefix, base) == target
  {
  }

  // ----------------------------------------------------------- the layouts

  const SHARE := Ascii("share")
  const DOC := Ascii("doc")
  const SUZAKU := Ascii("suzaku")
  const DOCS := Ascii("docs")
  const DATA := Ascii("data")
  const SDK := Ascii("sdk")
  const PACKS := Ascii("offline-packs")
  const PACK_SDK := Ascii("offline-pack-sdk")

  /** `share/doc/suzaku`. */
  const BASE := [SHARE, DOC, SUZAKU]

  /** Where a copy of a guide lies, the prefix and base of its relocation, and the directory
      whose links it repeats. */
  datatype Layout = Layout(dir: seq<Bytes>, prefix: seq<Bytes>, base: seq<Bytes>, home: seq<Bytes>)

  const FLAT := Layout(BASE, [], [DOCS], BASE + [DOCS])
  const TAR_ROOT := Layout([], BASE, [DOCS], BASE + [DOCS])
  const DATA_GUIDE := Companion(DATA, PACKS)
  const SDK_GUIDE := Companion(SDK, PACK_SDK)

  /** The mirror of a guide that ships with its payload: its links point to the payload. */
  function Companion(part: Bytes, payload: Bytes): Layout {
    Layout(BASE + [part, PACKS], Ups(4) + [SUZAKU, payload], [], [SHARE, SUZAKU, payload])
  }

  predicate IsLayout(l: Layout) {
    l == FLAT || l == TAR_ROOT || l == DATA_GUIDE || l == SDK_GUIDE
  }

  /** A component as directories of a package have it. */
  predicate IsPlainPart(c: Bytes) {
    c != [] && c != HERE && SLASH !in c && IsClean(c) && QUESTION !in c && HASH !in c
  }

  predicate PlainParts(parts: seq<Bytes>) {
    forall k :: 0 <= k < |parts| ==> IsPlainPart(parts[k])
  }

  lemma SplitRun(parts: seq<Bytes>, stack: seq<Bytes>)
    requires PlainParts(parts)
    ensures Run(Split(Unsplit(parts)), stack, false) == Run(parts, stack, false)
  {
    hide Split, IsClean;
    if parts == [] {
      SplitPiece([]);
    } else {
      SplitUnsplit(parts);
    }
  }

  lemma {:induction false} UnsplitPlain(parts: seq<Bytes>)
    requires PlainParts(parts)
    ensures IsPlainName(Unsplit(parts))
    decreases |parts|
  {
    if |parts| > 1 {
      UnsplitPlain(parts[1..]);
      assert IsPlainPart(parts[0]);
    } else if parts != [] {
      assert IsPlainPart(parts[0]);
    }
  }

  /** From the directory, prefix and base lead home. */
  lemma LeadsHome(l: Layout)
    requires PlainParts(l.dir) && PlainParts(l.prefix) && PlainParts(l.base) && PlainParts(l.home)
    requires Run(l.base, Run(l.prefix, Run(l.dir, [], false), false), false) == Run(l.home, [], false)
    ensures NormPath(PathJoin(PathJoin(Unsplit(l.dir), Unsplit(l.prefix)), Unsplit(l.base))) == NormPath(Unsplit(l.home))
  {
    hide Split, Run, PathJoin, PlainParts, Unsplit;
    var dir, prefix, base, home := Unsplit(l.dir), Unsplit(l.prefix), Unsplit(l.base), Unsplit(l.home);
    UnsplitPlain(l.dir);
    UnsplitPlain(l.prefix);
    UnsplitPlain(l.base);
    UnsplitPlain(l.home);
    JoinRuns(dir, prefix, false);
    JoinRoot(dir, prefix);
    JoinRuns(PathJoin(dir, prefix), base, false);
    JoinRoot(PathJoin(dir, prefix), base);
    SplitRun(l.dir, []);
    SplitRun(l.prefix, Run(l.dir, [], false));
    SplitRun(l.base, Run(l.prefix, Run(l.dir, [], false), false));
    SplitRun(l.home, []);
    NormIsRender(PathJoin(PathJoin(dir, prefix), base));
    NormIsRender(home);
  }

  predicate IsWord(s: string) {
    |s| >= 3 && forall k :: 0 <= k < |s| ==> 'a' <= s[k] <= 'z' || s[k] == '-'
  }

  lemma WordIsPlain(s: string)
    requires IsWord(s)
    ensures IsPlainPart(Ascii(s)) && Ascii(s) != DOTS
  {
    var t := Ascii(s);
    assert forall k :: 0 <= k < |t| ==> t[k] == s[k] as int;
  }

  lemma WayUpIsPlain()
    ensures IsPlainPart(DOTS)
  {
  }

  lemma LayoutNames()
    ensures forall c :: c in {SHARE, DOC, SUZAKU, DOCS, DATA, SDK, PACKS, PACK_SDK} ==> IsPlainPart(c) && c != DOTS
    ensures IsPlainPart(DOTS)
  {
    hide IsPlainPart, Ascii;
    WayUpIsPlain();
    WordIsPlain("share");
    WordIsPlain("doc");
    WordIsPlain("suzaku");
    WordIsPlain("docs");
    WordIsPlain("data");
    WordIsPlain("sdk");
    WordIsPlain("offline-packs");
    WordIsPlain("offline-pack-sdk");
  }

  /** Plain components, none of them a way up. */
  predicate Down(parts: seq<Bytes>) {
    forall k :: 0 <= k < |parts| ==> IsPlainPart(parts[k]) && parts[k] != DOTS
  }

  lemma DownPushes(parts: seq<Bytes>, stack: seq<Bytes>)
    requires Down(parts)
    ensures Run(parts, stack, false) == stack + parts && PlainParts(parts) && Plain(parts)
  {
    hide IsClean, Run;
    PlainPushes(parts, stack, false);
  }

  lemma TreeLeadsHome(l: Layout)
    requires l == FLAT || l == TAR_ROOT
    ensures PlainParts(l.dir) && PlainParts(l.prefix) && PlainParts(l.base) && PlainParts(l.home)
    ensures Run(l.base, Run(l.prefix, Run(l.dir, [], false), false), false) == Run(l.home, [], false)
  {
    hide IsPlainPart, Run, Ascii, PlainParts, Plain;
    LayoutNames();
    DownPushes(l.dir, []);
    DownPushes(l.prefix, l.dir);
    DownPushes(l.base, BASE);
    DownPushes(l.home, []);
    assert [] + l.dir == l.dir && l.dir + l.prefix == BASE && [] + l.home == l.home;
  }

  lemma CompanionLeadsHome(part: Bytes, payload: Bytes)
    requires Down([part, payload])
    ensures
      var l := Companion(part, payload);
      PlainParts(l.dir) && PlainParts(l.prefix) && PlainParts(l.base) && PlainParts(l.home)
      && Run(l.base, Run(l.prefix, Run(l.dir, [], false), false), false) == Run(l.home, [], false)
  {
    hide Run, Ascii, Plain, IsPlainPart;
    LayoutNames();
    assert [part, payload][0] == part && [part, payload][1] == payload;
    var l, down := Companion(part, payload), [SUZAKU, payload];
    DownPushes(l.dir, []);
    DownPushes(down, [SHARE]);
    DownPushes(l.base, l.home);
    DownPushes(l.home, []);
    RunConcat(Ups(4), down, l.dir, false);
    UpsPop(l.dir, 4, false);
    assert l.dir[..1] == [SHARE] && [SHARE] + down == l.home;
    assert [] + l.dir == l.dir && [] + l.home == l.home && l.home + [] == l.home;
  }

  lemma LayoutsLeadHome(l: Layout)
    requires IsLayout(l)
    ensures PlainParts(l.dir) && PlainParts(l.prefix) && PlainParts(l.base) && PlainParts(l.home)
    ensures Run(l.base, Run(l.prefix, Run(l.dir, [], false), false), false) == Run(l.home, [], false)
  {
    hide IsPlainPart, Run, Ascii, PlainParts;
    LayoutNames();
    if l == FLAT || l == TAR_ROOT {
      TreeLeadsHome(l);
    } else if l == DATA_GUIDE {
      CompanionLeadsHome(DATA, PACKS);
    } else {
      CompanionLeadsHome(SDK, PACK_SDK);
    }
  }

  /** Where prefix and base of a layout lead. */
  lemma PlaceOf(l: Layout)
    requires PlainParts(l.prefix) && PlainParts(l.base)
    ensures Components(PathJoin(Unsplit(l.prefix), Unsplit(l.base))) == Run(l.base, Run(l.prefix, [], false), false)
  {
    hide Split, Run, PathJoin, PlainParts, Unsplit;
    UnsplitPlain(l.prefix);
    UnsplitPlain(l.base);
    JoinRuns(Unsplit(l.prefix), Unsplit(l.base), false);
    JoinRoot(Unsplit(l.prefix), Unsplit(l.base));
    SplitRun(l.prefix, []);
    SplitRun(l.base, Run(l.prefix, [], false));
  }

  lemma WordIsNoScheme(s: string)
    requires IsWord(s)
    ensures !IsMistaken(Ascii(s))
  {
    hide IndexOf;
    var t := Ascii(s);
    assert forall k :: 0 <= k < |t| ==> t[k] == s[k] as int;
    assert COLON !in t;
  }

  /** The flat copies and the root of the tar have only names above them; a companion goes up. */
  lemma PlaceBegins(l: Layout)
    requires IsLayout(l)
    ensures
      var place := Run(l.base, Run(l.prefix, [], false), false);
      place != [] && !IsMistaken(place[0])
      && (place[0] != DOTS <==> IsTreeCopy(l)) && (IsTreeCopy(l) ==> |place| == |l.prefix| + |l.base|)
  {
    hide IsPlainPart, Run, Ascii, PlainParts, Plain, IsMistaken;
    LayoutNames();
    NoMistake();
    WordIsNoScheme("share");
    WordIsNoScheme("docs");
    if IsTreeCopy(l) {
      DownPushes(l.prefix, []);
      DownPushes(l.base, l.prefix);
      assert [] + l.prefix == l.prefix;
    } else {
      assert l.prefix == Ups(4) + l.prefix[4..];
      FromTheStart(l.prefix);
      NothingRuns(Run(l.prefix, [], false));
    }
  }

  lemma FromTheStart(parts: seq<Bytes>)
    requires parts != [] && parts[0] == DOTS
    ensures Run(parts, [], false) != [] && Run(parts, [], false)[0] == DOTS
  {
    assert Apply([], parts[0], false) == [DOTS];
    LeadingUpStays(parts[1..], [DOTS]);
  }

  lemma NothingRuns(stack: seq<Bytes>)
    ensures Run([], stack, false) == stack
  {
  }

  /** A copy that has the directories of the mirrored tree above its links. */
  predicate IsTreeCopy(l: Layout) {
    l == FLAT || l == TAR_ROOT
  }

  /** A path that climbs exactly out of the directories above it and lands on a name that is
      mistaken. */
  predicate LandsOnMistake(path: Bytes, depth: nat) {
    var comps := Components(path);
    Climb(comps) == depth < |comps| && IsMistaken(comps[depth])
  }

  /** In each layout of the package every local link of a guide's copy leads, from the copy's
      directory, where it led in the guide's own place in the mirrored tree. It is read back with
      its new path, its query and its fragment: always in the companion guides, and in the others
      unless it climbs out of the tree and lands on a mistaken name. */
  lemma LayoutsKeepLinks(l: Layout, target: Bytes)
    requires IsLayout(l)
    ensures
      var uri := UrlSplit(target);
      var moved := RelocateTarget(target, Unsplit(l.prefix), Unsplit(l.base));
      if !IsLocal(uri) then moved == target
      else
        var path := RelocatedPath(uri.path, Unsplit(l.prefix), Unsplit(l.base));
        NormPath(PathJoin(Unsplit(l.dir), path)) == NormPath(PathJoin(Unsplit(l.home), uri.path))
        && (UrlSplit(moved) == Url([], [], path, uri.query, uri.fragment)
            <==> !(IsTreeCopy(l) && LandsOnMistake(uri.path, |l.prefix| + |l.base|)))
  {
    hide UrlSplit, UrlUnsplit, RelocatedPath, RelocateTarget, HasScheme, NormPath, PathJoin, IsLayout,
         PlainParts, Run, Unsplit, Components, IsMistaken, Climb;
    LayoutsLeadHome(l);
    LeadsHome(l);
    UnsplitPlain(l.dir);
    UnsplitPlain(l.prefix);
    UnsplitPlain(l.base);
    UnsplitPlain(l.home);
    PlaceOf(l);
    PlaceBegins(l);
    NoMistake();
    RepackagedLinkLeads(target, Unsplit(l.prefix), Unsplit(l.base), Unsplit(l.dir), Unsplit(l.home));
  }

  /** `../a:b` and `a:b`. */
  const UP_COLON: Bytes := [DOT, DOT, SLASH, 97, COLON, 98]
  const COLON_NAME: Bytes := [97, COLON, 98]

  /** A link to a file with a colon in its name, one directory up: the flat copy's link is
      taken for a URL with a scheme. */
  lemma ColonExample()
    ensures UrlSplit(UP_COLON) == Url([], [], UP_COLON, [], [])
    ensures RelocateTarget(UP_COLON, [], DOCS) == COLON_NAME
    ensures UrlSplit(COLON_NAME) == Url([97], [], [98], [], [])
  {
    hide UrlSplit, RelocatedPath;
    SplitUpColon();
    SplitColonName();
    ColonPath();
  }

  lemma SplitUpColon()
    ensures UrlSplit(UP_COLON) == Url([], [], UP_COLON, [], [])
  {
    hide IndexOf;
    CleanKept(UP_COLON);
    assert IndexOf(UP_COLON, 0, HASH) == |UP_COLON| && UP_COLON[..|UP_COLON|] == UP_COLON;
    assert IndexOf(UP_COLON, 0, QUESTION) == |UP_COLON|;
  }

  lemma SplitColonName()
    ensures UrlSplit(COLON_NAME) == Url([97], [], [98], [], [])
  {
    hide IndexOf;
    CleanKept(COLON_NAME);
    var rest: Bytes := [98];
    assert IndexOf(COLON_NAME, 0, COLON) == 1;
    assert Before(COLON_NAME, COLON) == [97] && After(COLON_NAME, COLON) == rest;
    assert IndexOf(rest, 0, HASH) == 1 && IndexOf(rest, 0, QUESTION) == 1 && rest[..1] == rest;
  }

  lemma ColonPath()
    ensures RelocatedPath(UP_COLON, [], DOCS) == COLON_NAME
  {
    hide RelocatedPath;
    assert UP_COLON == DOTS + [SLASH] + COLON_NAME;
    LandsOn(COLON_NAME);
  }

  /** In the flat copy, one directory up from the guides is next to the copy. */
  lemma LandsOn(name: Bytes)
    requires IsPlainPart(name) && name != DOTS
    ensures RelocatedPath(DOTS + [SLASH] + name, [], DOCS) == name
  {
    hide Split, Run, Ascii, IsClean;
    var up := DOTS + [SLASH] + name;
    LayoutNames();
    SplitPiece(DOTS);
    SplitPiece(name);
    SplitConcat(DOTS, name);
    SplitPiece(DOCS);
    DownPushes([DOCS], []);
    DownPushes([name], []);
    JoinRuns(DOCS, up, false);
    RunConcat([DOTS], [name], [DOCS], false);
    UpsPop([DOCS], 1, false);
    assert Ups(1) == [DOTS] && [DOTS] + [name] == Split(up);
    assert [] + [DOCS] == [DOCS] && [DOCS][..0] == [] && [] + [name] == [name];
    JoinRoot(DOCS, up);
    NormIsRender(PathJoin(DOCS, up));
    assert Root(0) + Unsplit([name]) == name;
    assert [] + [] + name == name;
    NormIsRender(name);
  }
}
