/** Where the links of a copy land, and what follows from that for reading the copy: conditions on
    the guide alone. */
module GuideLandings {
  import opened ByteStrings
  import opened Texts
  import opened MarkdownScan
  import opened Paths
  import opened Links
  import opened PackageLinks
  import opened GuideRewriting
  import opened GuideLaws
  import opened GuideDefinitions
  import opened GuideCopies

  // -------------------------------------------------------- the way down

  /** What a link goes down to once it has stopped climbing, with query and fragment; links that
      are not local stay as they are. */
  function Descent(t: Bytes): Bytes {
    var uri := UrlSplit(t);
    if IsLocal(uri) then UrlUnsplit(Unsplit(Downward(uri.path)), uri.query, uri.fragment) else t
  }

  function Downward(path: Bytes): seq<Bytes> {
    Components(path)[Climb(Components(path))..]
  }

  /** A local link that climbs exactly out of the directories above the copy and goes down from
      there. */
  predicate LandsOutside(l: Layout, t: Bytes) {
    var uri := UrlSplit(t);
    IsTreeCopy(l) && IsLocal(uri) && Climb(Components(uri.path)) == |l.prefix| + |l.base| && Downward(uri.path) != []
  }

  /** A destination that does not begin with a bracket, and lands on one. */
  predicate IsLanding(l: Layout, t: Bytes) {
    t != [] && t[0] != LESS && LandsOutside(l, t) && Descent(t) != [] && Descent(t)[0] == LESS
  }

  /** Where prefix and base of a layout lead. */
  function PlaceIn(l: Layout): seq<Bytes> {
    Run(l.base, Run(l.prefix, [], false), false)
  }

  lemma TreePlace(l: Layout)
    requires IsTreeCopy(l)
    ensures PlaceIn(l) == l.prefix + l.base && Plain(PlaceIn(l))
  {
    hide IsPlainPart, Run, Ascii, PlainParts, Plain;
    LayoutNames();
    DownPushes(l.prefix, []);
    DownPushes(l.base, l.prefix);
    assert [] + l.prefix == l.prefix;
    DownPushes(l.prefix + l.base, []);
  }

  lemma PlaceNames(l: Layout)
    requires IsLayout(l)
    ensures NameParts(PlaceIn(l)) && Proper(PlaceIn(l))
  {
    hide IsLayout, Run, IsNameByte, IsPlainPart, PlainParts;
    LayoutParts(l);
    LayoutsLeadHome(l);
    RunPieces(l.prefix, [], false);
    RunPieces(l.base, Run(l.prefix, [], false), false);
    PlaceIsProper(l);
  }

  /** Following a path from the place: some directory names, then what the path goes down to. */
  lemma Approach(l: Layout, comps: seq<Bytes>) returns (x: seq<Bytes>)
    requires IsLayout(l) && Proper(comps) && UpsFirst(comps)
    ensures Run(comps, PlaceIn(l), false) == x + comps[Climb(comps)..] && NameParts(x) && Proper(x)
    ensures x == [] <==> IsTreeCopy(l) && Climb(comps) == |l.prefix| + |l.base|
    ensures Plain(comps[Climb(comps)..])
  {
    hide IsLayout, Run, Climb, IsNameByte, Plain, Proper, UpsFirst, Ups, IsPlainPart, NameParts, PlaceIn, IsTreeCopy;
    var n, place := Climb(comps), PlaceIn(l);
    PlaceNames(l);
    UpThenDown(comps);
    DownToPlace(l, n);
    x := Run(Ups(n), place, false);
    RunConcat(Ups(n), comps[n..], place, false);
    PlainPushes(comps[n..], x, false);
  }

  /** Where climbing from the place leads. */
  lemma DownToPlace(l: Layout, n: nat)
    requires IsLayout(l)
    ensures
      var x := Run(Ups(n), PlaceIn(l), false);
      NameParts(x) && Proper(x) && (x == [] <==> IsTreeCopy(l) && n == |l.prefix| + |l.base|)
  {
    hide IsLayout, Run, IsNameByte, Ups, IsPlainPart, PlaceIn, IsTreeCopy;
    var place := PlaceIn(l);
    PlaceNames(l);
    RunPieces(Ups(n), place, false);
    DotsAreNames();
    RunProper(Ups(n), place, false);
    if IsTreeCopy(l) {
      TreePlace(l);
      ClimbFrom(place, n);
    } else {
      PlaceBegins(l);
      PlaceIsRun(l);
      LeadingUpStays(Ups(n), place);
    }
  }

  lemma PlaceIsRun(l: Layout)
    ensures PlaceIn(l) == Run(l.base, Run(l.prefix, [], false), false)
  {
  }

  lemma DotsAreNames()
    ensures forall b :: b in DOTS ==> IsNameByte(b)
    ensures SLASH !in DOTS && DOTS != [] && DOTS != HERE
  {
  }

  lemma ClimbFrom(place: seq<Bytes>, n: nat)
    requires Plain(place)
    ensures Run(Ups(n), place, false) == [] <==> n == |place|
  {
    hide Run, Ups, Plain;
    if n <= |place| {
      UpsPop(place, n, false);
    } else {
      UpsAdd(|place|, n - |place|);
      RunConcat(Ups(|place|), Ups(n - |place|), place, false);
      UpsPop(place, |place|, false);
      NoUps();
      assert place[..|place| - |place|] == [] == Ups(0);
      UpsStay(n - |place|, 0);
    }
  }

  // ----------------------------------------------------- the moved destination

  /** Text without a byte that closes brackets or ends a line. */
  predicate IsNeutral(x: Bytes) {
    GREATER !in x && NEWLINE !in x
  }

  lemma {:induction false} NamesAreNeutral(x: seq<Bytes>)
    requires NameParts(x)
    ensures IsNeutral(Unsplit(x)) && LESS !in Unsplit(x)
    decreases |x|
  {
    if |x| == 1 {
      assert forall b :: b in x[0] ==> IsNameByte(b);
    } else if |x| > 1 {
      assert forall b :: b in x[0] ==> IsNameByte(b);
      assert NameParts(x[1..]);
      NamesAreNeutral(x[1..]);
    }
  }

  lemma {:induction false} UnsplitJoin(x: seq<Bytes>, y: seq<Bytes>)
    ensures Unsplit(x + y) == (if x == [] then [] else if y == [] then Unsplit(x) else Unsplit(x) + [SLASH]) + Unsplit(y)
    decreases |x|
  {
    if x == [] {
      assert x + y == y;
      assert [] + Unsplit(y) == Unsplit(y);
    } else if y == [] {
      assert x + y == x;
      assert Unsplit(x) + [] == Unsplit(x);
    } else {
      assert (x + y)[1..] == x[1..] + y;
      UnsplitJoin(x[1..], y);
      if |x| > 1 {
        Associates(x[0] + [SLASH], Unsplit(x[1..]) + [SLASH], Unsplit(y));
        Associates(x[0] + [SLASH], Unsplit(x[1..]), [SLASH]);
      } else {
        assert x[1..] == [];
      }
    }
  }

  /** A moved path: neutral text, and what the link goes down to; nothing comes before that
      exactly if the link lands outside. */
  lemma MovedPath(l: Layout, path: Bytes) returns (head: Bytes)
    requires IsLayout(l) && IsRelative(path)
    ensures RelocatedPath(path, Unsplit(l.prefix), Unsplit(l.base)) == head + Unsplit(Downward(path)) && IsNeutral(head) && LESS !in head
    ensures head == [] <==> IsTreeCopy(l) && Climb(Components(path)) == |l.prefix| + |l.base| && Downward(path) != []
  {
    hide IsLayout, Run, Components, Climb, Unsplit, Split, PathJoin, RelocatedPath, Render, PlainParts, NameParts, IsTreeCopy,
         IsPlainPart;
    var comps := Components(path);
    LayoutsLeadHome(l);
    UnsplitPlain(l.prefix);
    UnsplitPlain(l.base);
    PlaceOf(l);
    NormalForm(path);
    RelocatedComponents(path, Unsplit(l.prefix), Unsplit(l.base));
    var x := Approach(l, comps);
    var down := Downward(path);
    ProperJoin(x, down);
    RenderedText(x + down);
    UnsplitJoin(x, down);
    NamesAreNeutral(x);
    NoPartsText();
    if x + down == [] {
      head := HERE;
    } else if x == [] {
      head := [];
    } else if down == [] {
      head := Unsplit(x);
      UnsplitStart(x);
    } else {
      head := Unsplit(x) + [SLASH];
    }
    Joined(head, Unsplit(down));
  }

  lemma ProperJoin(x: seq<Bytes>, y: seq<Bytes>)
    requires Proper(x) && Plain(y)
    ensures Proper(x + y)
  {
  }

  lemma MovedDescent(l: Layout, t: Bytes) returns (head: Bytes)
    requires IsLayout(l)
    ensures RelocateTarget(t, Unsplit(l.prefix), Unsplit(l.base)) == head + Descent(t) && IsNeutral(head) && LESS !in head
    ensures head == [] <==> !IsLocal(UrlSplit(t)) || LandsOutside(l, t)
  {
    hide IsLayout, UrlSplit, RelocatedPath, Unsplit, Downward, Climb, Components, IsTreeCopy, IsNeutral;
    var uri := UrlSplit(t);
    if IsLocal(uri) {
      head := MovedPath(l, uri.path);
      var down := Unsplit(Downward(uri.path));
      Associates(head, down, Marked(QUESTION, uri.query));
      Associates(head, down + Marked(QUESTION, uri.query), Marked(HASH, uri.fragment));
    } else {
      head := [];
      Joined([], t);
      NothingIsNeutral();
    }
  }

  lemma NothingIsNeutral()
    ensures IsNeutral([])
  {
  }

  // ------------------------------------------------------ closing brackets

  /** Whether the moved destination has a `>`. */
  predicate HoldsCloser(t: Bytes) {
    t != [] && (t[0] == LESS || GREATER in Descent(t))
  }

  /** Whether its first `>` is its last byte. */
  predicate ClosesAtEnd(t: Bytes) {
    if t != [] && t[0] == LESS then GREATER !in Descent(Handed(t)) else IndexOf(Descent(t), 0, GREATER) == |Descent(t)| - 1
  }

  lemma NeutralBefore(head: Bytes, x: Bytes)
    requires IsNeutral(head)
    ensures GREATER in head + x <==> GREATER in x
    ensures NEWLINE in head + x <==> NEWLINE in x
    ensures IndexOf(head + x, 0, GREATER) == |head| + IndexOf(x, 0, GREATER)
  {
    hide IndexOf;
    var k, text := IndexOf(x, 0, GREATER), head + x;
    assert forall j :: 0 <= j < |head| ==> text[j] == head[j];
    assert forall j :: |head| <= j < |text| ==> text[j] == x[j - |head|];
    assert forall j :: 0 <= j < |head| + k ==> text[j] != GREATER;
    assert k < |x| ==> text[|head| + k] == GREATER;
  }

  /** The `>` of a moved destination, told from the destination. */
  lemma ImageCloser(l: Layout, t: Bytes)
    requires IsLayout(l) && t != []
    ensures
      var r := LayoutMover(l)(t);
      (GREATER in r <==> HoldsCloser(t)) && (HoldsCloser(t) ==> (IndexOf(r, 0, GREATER) == |r| - 1 <==> ClosesAtEnd(t)))
  {
    hide IsLayout, Unsplit, Descent, RelocateTarget, IndexOf, IsNeutral;
    var h := Handed(t);
    var head := MovedDescent(l, h);
    NeutralBefore(head, Descent(h));
    if t[0] == LESS {
      var r := RelocateTarget(h, Unsplit(l.prefix), Unsplit(l.base));
      BracketsCloser(r);
    }
  }

  lemma BracketsCloser(x: Bytes)
    ensures
      var r := [LESS] + x + [GREATER];
      GREATER in r && (IndexOf(r, 0, GREATER) == |r| - 1 <==> GREATER !in x)
  {
    hide IndexOf;
    var r := [LESS] + x + [GREATER];
    assert r[|r| - 1] == GREATER;
    assert forall j :: 1 <= j < |r| - 1 ==> r[j] == x[j - 1];
    if GREATER in x {
      var j :| 0 <= j < |x| && x[j] == GREATER;
      assert r[j + 1] == GREATER;
    }
  }

  /** Whether a bracket before `s` will be closed in it when its destinations have been moved,
      with a byte behind it that stops a destination. */
  predicate WillClose(s: Bytes)
    decreases |s|
  {
    s != []
    && match Opening(s)
       case None => if s[0] == GREATER then StopsAt(s, 1) else WillClose(s[1..])
       case Some(o) =>
         var t := s[o.start..o.end];
         if HoldsCloser(t) then ClosesAtEnd(t) else WillClose(s[o.end..])
  }

  lemma ClosesBehind(x: Bytes, y: Bytes)
    requires IsNeutral(x)
    ensures Closes(x + y) <==> Closes(y)
  {
    hide CloserAt;
    var c, s := CloserAt(y, 0), x + y;
    assert forall j :: 0 <= j < |x| ==> s[j] == x[j];
    assert forall j :: |x| <= j < |s| ==> s[j] == y[j - |x|];
    assert forall j :: 0 <= j < |x| + c ==> s[j] != GREATER && s[j] != NEWLINE;
    assert c < |y| ==> s[|x| + c] == y[c];
    assert CloserAt(s, 0) == |x| + c;
  }

  lemma ClosesWithin(x: Bytes, y: Bytes)
    requires GREATER in x && NEWLINE !in x && StopsAt(y, 0)
    requires Bracketed(x) || forall k :: 0 <= k < |x| ==> !Stops(x[k], true)
    ensures Closes(x + y) <==> IndexOf(x, 0, GREATER) == |x| - 1
  {
    hide CloserAt, IndexOf;
    var k, s := IndexOf(x, 0, GREATER), x + y;
    assert forall j :: 0 <= j < |x| ==> s[j] == x[j];
    assert s[|x|] == y[0];
    assert CloserAt(s, 0) == k;
  }

  lemma OpeningIsNeutral(s: Bytes, o: Span)
    requires IsLine(s) && Opening(s) == Some(o)
    ensures IsNeutral(s[..o.start]) && NEWLINE !in s[o.start..o.end] && IsLine(s[o.end..])
  {
    hide LinkEnd;
    NewlineEnds();
    var head, t := s[..o.start], s[o.start..o.end];
    assert forall j :: 0 <= j < |head| ==> head[j] == s[j];
    assert forall j :: 0 <= j < |t| ==> t[j] == s[o.start + j];
  }

  lemma ImageKeepsLine(l: Layout, t: Bytes)
    requires IsLayout(l) && t != [] && NEWLINE !in t
    requires Bracketed(t) || forall k :: 0 <= k < |t| ==> !Stops(t[k], true)
    ensures
      var r := LayoutMover(l)(t);
      r != [] && NEWLINE !in r && (Bracketed(r) || forall k :: 0 <= k < |r| ==> !Stops(r[k], true))
  {
    hide IsLayout, LayoutMover, Fits;
    LayoutMoverIsCareful(l);
    IsFit(LayoutMover(l), t);
    FitBytes(t, LayoutMover(l)(t));
    NoNewline(t, LayoutMover(l)(t));
  }

  lemma NoNewline(t: Bytes, r: Bytes)
    requires Fits(t, r) && NEWLINE !in t
    ensures NEWLINE !in r
  {
  }

  /** The brackets that close in the moved text, told from the text. */
  lemma {:induction false} WillCloseIff(l: Layout, s: Bytes)
    requires IsLayout(l) && (s == [] || IsLine(s))
    ensures Closes(InlineMoved(s, LayoutMover(l))) <==> WillClose(s)
    decreases |s|
  {
    hide IsLayout, LayoutMover, Opening, InlineMoved, Closes, HoldsCloser, ClosesAtEnd, Bracketed, IsNeutral;
    var f := LayoutMover(l);
    if s == [] {
      NothingMoved(f);
      NothingCloses();
    } else {
      InlineHere(s, f);
      match Opening(s) {
        case None =>
          WillCloseIff(l, s[1..]);
          ByteCloses(s, f);
        case Some(o) =>
          OpeningIsNeutral(s, o);
          WillCloseIff(l, s[o.end..]);
          OpeningCloses(l, s, o);
      }
    }
  }

  lemma OpeningCloses(l: Layout, s: Bytes, o: Span)
    requires IsLayout(l) && IsLine(s) && Opening(s) == Some(o)
    ensures
      var f, t := LayoutMover(l), s[o.start..o.end];
      var rest := InlineMoved(s[o.end..], f);
      Closes(s[..o.start] + f(t) + rest) <==> if HoldsCloser(t) then ClosesAtEnd(t) else Closes(rest)
  {
    hide IsLayout, LayoutMover, Opening, InlineMoved, Closes, HoldsCloser, ClosesAtEnd, Bracketed, IsNeutral, Stops;
    var f, t := LayoutMover(l), s[o.start..o.end];
    var rest := InlineMoved(s[o.end..], f);
    OpeningIsNeutral(s, o);
    OpenedText(s);
    StopKept(s, f, o);
    ImageKeepsLine(l, t);
    ImageCloser(l, t);
    Associates(s[..o.start], f(t), rest);
    ClosesBehind(s[..o.start], f(t) + rest);
    if GREATER in f(t) {
      ClosesWithin(f(t), rest);
    } else {
      BothNeutral(f(t));
      ClosesBehind(f(t), rest);
    }
  }

  lemma NothingCloses()
    ensures !Closes([])
  {
  }

  lemma BothNeutral(x: Bytes)
    requires GREATER !in x && NEWLINE !in x
    ensures IsNeutral(x)
  {
  }

  /** A byte that opens nothing. */
  lemma ByteCloses(s: Bytes, f: Mover)
    requires IsLine(s)
    ensures
      var rest := InlineMoved(s[1..], f);
      Closes([s[0]] + rest) <==> if s[0] == GREATER then StopsAt(s, 1) else Closes(rest)
  {
    hide InlineMoved, CloserAt;
    var rest := InlineMoved(s[1..], f);
    var now := [s[0]] + rest;
    FirstKept(s[1..], f);
    NewlineEnds();
    assert now[0] == s[0];
    assert |now| > 1 ==> now[1] == rest[0] == s[1];
    if s[0] == GREATER {
      assert CloserAt(now, 0) == 0;
    } else if s[0] == NEWLINE {
      assert |s| == 1;
      assert CloserAt(now, 0) == 0;
    } else {
      ClosesBehind([s[0]], rest);
    }
  }

  // ---------------------------------------------------- what is caught

  /** An inline destination is caught exactly if it lands on a bracket, what it goes down to does
      not close that, and the rest of the line will. */
  lemma CaughtIff(l: Layout, t: Bytes, rest: Bytes)
    requires IsLayout(l) && t != [] && (rest == [] || IsLine(rest))
    ensures Caught(LayoutMover(l)(t), InlineMoved(rest, LayoutMover(l)))
       <==> IsLanding(l, t) && GREATER !in Descent(t) && WillClose(rest)
  {
    hide IsLayout, Unsplit, Descent, RelocateTarget, InlineMoved, WillClose, Closes, LandsOutside, UrlSplit;
    WillCloseIff(l, rest);
    ImageCloser(l, t);
    if t[0] != LESS {
      StartsAs(l, t);
    }
  }

  /** A moved word begins with a bracket only if it lands on one. */
  lemma StartsAs(l: Layout, t: Bytes)
    requires IsLayout(l) && t != [] && t[0] != LESS
    ensures
      var r := LayoutMover(l)(t);
      r != [] && (r[0] == LESS <==> IsLanding(l, t))
  {
    hide IsLayout, Unsplit, RelocateTarget, UrlSplit, UrlUnsplit, Downward, Climb, Components, IsTreeCopy;
    var head := MovedDescent(l, t);
    LayoutMoverIsCareful(l);
    IsFit(LayoutMover(l), t);
    Joined([], Descent(t));
    var r := LayoutMover(l)(t);
    assert r == head + Descent(t);
    assert head != [] ==> (head + Descent(t))[0] == head[0];
  }

  /** Some inline destination of the line is caught, told from the line. */
  predicate NoneFallsIn(l: Layout, s: Bytes)
    decreases |s|
  {
    s == []
    || match Opening(s)
       case None => NoneFallsIn(l, s[1..])
       case Some(o) =>
         var t := s[o.start..o.end];
         !(IsLanding(l, t) && GREATER !in Descent(t) && WillClose(s[o.end..])) && NoneFallsIn(l, s[o.end..])
  }

  lemma {:induction false} NoneCaughtIff(l: Layout, s: Bytes)
    requires IsLayout(l) && (s == [] || IsLine(s))
    ensures NoneCaught(s, LayoutMover(l)) <==> NoneFallsIn(l, s)
    decreases |s|
  {
    hide IsLayout, LayoutMover, Opening, InlineMoved, Caught, IsLanding, Descent, WillClose;
    if s != [] {
      match Opening(s) {
        case None =>
          NoneCaughtIff(l, s[1..]);
        case Some(o) =>
          OpeningIsNeutral(s, o);
          CaughtIff(l, s[o.start..o.end], s[o.end..]);
          NoneCaughtIff(l, s[o.end..]);
      }
    }
  }

  /** In a companion guide nothing is ever caught. */
  lemma {:induction false} CompanionsCatchNothing(l: Layout, s: Bytes)
    requires !IsTreeCopy(l)
    ensures NoneFallsIn(l, s)
    decreases |s|
  {
    hide IsTreeCopy, Opening, Descent, WillClose;
    if s != [] {
      match Opening(s) {
        case None => CompanionsCatchNothing(l, s[1..]);
        case Some(o) => CompanionsCatchNothing(l, s[o.end..]);
      }
    }
  }

  // ----------------------------------------------------- what is cut wrongly

  /** Whether there will be a `>` when the destinations have been moved. */
  predicate WillHaveCloser(s: Bytes)
    decreases |s|
  {
    s != []
    && match Opening(s)
       case None => s[0] == GREATER || WillHaveCloser(s[1..])
       case Some(o) => HoldsCloser(s[o.start..o.end]) || WillHaveCloser(s[o.end..])
  }

  /** Whether there will be one behind the first `k` bytes, if the destinations in those are left
      alone. */
  predicate WillHaveCloserBehind(s: Bytes, k: nat)
    requires k <= |s|
    decreases |s|
  {
    if k == 0 then WillHaveCloser(s)
    else
      match Opening(s)
      case None => WillHaveCloserBehind(s[1..], k - 1)
      case Some(o) =>
        if o.end <= k then WillHaveCloserBehind(s[o.end..], k - o.end)
        else o.start < k || HoldsCloser(s[o.start..o.end]) || WillHaveCloser(s[o.end..])
  }

  lemma {:induction false} HasCloserIff(l: Layout, s: Bytes)
    requires IsLayout(l) && (s == [] || IsLine(s))
    ensures GREATER in InlineMoved(s, LayoutMover(l)) <==> WillHaveCloser(s)
    decreases |s|
  {
    hide IsLayout, LayoutMover, Opening, InlineMoved, HoldsCloser;
    var f := LayoutMover(l);
    if s == [] {
      NothingMoved(f);
    } else {
      InlineHere(s, f);
      match Opening(s) {
        case None =>
          HasCloserIff(l, s[1..]);
        case Some(o) =>
          OpeningIsNeutral(s, o);
          HasCloserIff(l, s[o.end..]);
          ImageCloser(l, s[o.start..o.end]);
      }
    }
  }

  lemma AloneStep(s: Bytes, f: Mover, k: nat)
    requires 0 < k <= |s| && LeftAlone(s, f, k, false)
    ensures
      match Opening(s)
      case None => LeftAlone(s[1..], f, k - 1, false)
      case Some(o) =>
        var t := s[o.start..o.end];
        if o.end <= k then f(t) == t && LeftAlone(s[o.end..], f, k - o.end, false)
        else o.start < k ==> StartKept(t, f(t), k - o.start, false)
  {
    hide Opening, StartKept;
  }

  lemma BehindStep(s: Bytes, k: nat)
    requires 0 < k <= |s|
    ensures
      WillHaveCloserBehind(s, k)
      <==> match Opening(s)
           case None => WillHaveCloserBehind(s[1..], k - 1)
           case Some(o) =>
             if o.end <= k then WillHaveCloserBehind(s[o.end..], k - o.end)
             else o.start < k || HoldsCloser(s[o.start..o.end]) || WillHaveCloser(s[o.end..])
  {
    hide Opening, HoldsCloser, WillHaveCloser;
  }

  lemma {:induction false} HasCloserBehindIff(l: Layout, s: Bytes, k: nat)
    requires IsLayout(l) && (s == [] || IsLine(s)) && k <= |s| && IsHead(s, k, false)
    requires LeftAlone(s, LayoutMover(l), k, false)
    ensures
      var now := InlineMoved(s, LayoutMover(l));
      k <= |now| && (GREATER in now[k..] <==> WillHaveCloserBehind(s, k))
    decreases |s|
  {
    hide IsLayout, LayoutMover, Opening, InlineMoved, HoldsCloser, IsHead, SameHead, StartKept, WillHaveCloser, LeftAlone,
         WillHaveCloserBehind, IsLine, IsNeutral, Careful;
    var f := LayoutMover(l);
    var now := InlineMoved(s, f);
    LayoutMoverIsCareful(l);
    HeadStays(s, f, k, false);
    HeadFits(now, s, k);
    if k == 0 {
      HasCloserIff(l, s);
      assert now[0..] == now;
      NothingBefore(s);
    } else {
      AloneStep(s, f, k);
      BehindStep(s, k);
      InlineHere(s, f);
      match Opening(s) {
        case None =>
          HeadTail(s, 1, k, false);
          LineTail(s);
          HasCloserBehindIff(l, s[1..], k - 1);
          SliceBehind([s[0]], InlineMoved(s[1..], f), k);
        case Some(o) =>
          OpeningIsNeutral(s, o);
          if o.end <= k {
            HeadTail(s, o.end, k, false);
            HasCloserBehindIff(l, s[o.end..], k - o.end);
            assert s[..o.start] + s[o.start..o.end] == s[..o.end];
            SliceBehind(s[..o.end], InlineMoved(s[o.end..], f), k);
          } else {
            HasCloserIff(l, s[o.end..]);
            OpeningHasCloser(l, s, k, o);
          }
      }
    }
  }

  lemma NothingBefore(s: Bytes)
    ensures WillHaveCloserBehind(s, 0) <==> WillHaveCloser(s)
  {
  }

  lemma SliceBehind(a: Bytes, x: Bytes, k: nat)
    requires |a| <= k <= |a + x|
    ensures (a + x)[k..] == x[k - |a|..]
  {
  }

  lemma HeadFits(now: Bytes, s: Bytes, k: nat)
    requires k <= |s| && SameHead(now, s, k, false)
    ensures k <= |now|
  {
  }

  lemma LineTail(s: Bytes)
    requires IsLine(s)
    ensures s[1..] == [] || IsLine(s[1..])
  {
  }

  /** A destination behind the head, or across its end. */
  lemma OpeningHasCloser(l: Layout, s: Bytes, k: nat, o: Span)
    requires IsLayout(l) && IsLine(s) && 0 < k <= |s| && IsHead(s, k, false) && Opening(s) == Some(o) && o.end > k
    requires o.start < k ==> StartKept(s[o.start..o.end], LayoutMover(l)(s[o.start..o.end]), k - o.start, false)
    ensures
      var t, rest := s[o.start..o.end], InlineMoved(s[o.end..], LayoutMover(l));
      var now := s[..o.start] + LayoutMover(l)(t) + rest;
      k <= |now| ==> (GREATER in now[k..] <==> o.start < k || HoldsCloser(t) || GREATER in rest)
  {
    hide IsLayout, LayoutMover, Opening, InlineMoved, HoldsCloser, Bracketed, Stops, IsNeutral;
    var t, rest := s[o.start..o.end], InlineMoved(s[o.end..], LayoutMover(l));
    var head, r := s[..o.start], LayoutMover(l)(t);
    OpeningIsNeutral(s, o);
    ImageCloser(l, t);
    if o.start < k {
      OpenedText(s);
      BlankInside(s, o, k);
      ImageKeepsLine(l, t);
      CloserAcross(l, t, k - o.start);
      assert (head + r + rest)[k..] == r[k - o.start..] + rest;
    } else {
      assert (head + r + rest)[k..] == head[k..] + r + rest;
      NeutralTail(head, k);
    }
  }

  lemma NeutralTail(head: Bytes, k: nat)
    requires IsNeutral(head) && k <= |head|
    ensures GREATER !in head[k..]
  {
  }

  /** A destination across a blank is in brackets. */
  lemma BlankInside(s: Bytes, o: Span, k: nat)
    requires o.start < k < o.end <= |s| && IsHead(s, k, false)
    requires Bracketed(s[o.start..o.end]) || forall j :: 0 <= j < o.end - o.start ==> !Stops(s[o.start..o.end][j], true)
    ensures Bracketed(s[o.start..o.end])
  {
    hide Bracketed;
    assert s[o.start..o.end][k - o.start] == s[k];
  }

  lemma CloserAcross(l: Layout, t: Bytes, k: nat)
    requires IsLayout(l) && Bracketed(t) && k < |LayoutMover(l)(t)|
    ensures GREATER in LayoutMover(l)(t)[k..]
  {
    hide IsLayout, LayoutMover, Fits;
    LayoutMoverIsCareful(l);
    IsFit(LayoutMover(l), t);
    FitBracketed(t, LayoutMover(l)(t));
    var r := LayoutMover(l)(t);
    assert r[k..][|r| - k - 1] == r[|r| - 1];
  }

  /** The definition of the line, moved, has its destination cut in the wrong place, told from the
      line. */
  predicate IsMiscut(l: Layout, s: Bytes)
    requires DefinitionAt(s).Some?
  {
    var m := DefinitionAt(s).value;
    var e := LinkEnd(s, m, false);
    var u := s[m..e];
    if s[m] == LESS then
      var h := Handed(u);
      GREATER in Descent(h)
      && !(Descent(h)[0] == GREATER && (!IsLocal(UrlSplit(h)) || LandsOutside(l, h)))
    else
      IsLanding(l, u)
      && if GREATER in Descent(u) then 2 <= IndexOf(Descent(u), 0, GREATER) < |Descent(u)| - 1
         else WillHaveCloserBehind(s[m..], e - m)
  }

  /** A destination that began with a bracket is cut where its first `>` is, unless that is right
      behind the bracket. */
  lemma CutInBrackets(x: Bytes, rest: Bytes)
    requires NEWLINE !in x
    ensures Miscut([LESS] + x + [GREATER], rest) <==> GREATER in x && x[0] != GREATER
  {
    hide CloserAt;
    var t := [LESS] + x + [GREATER];
    var s := t + rest;
    assert s[0] == LESS && forall j :: 1 <= j <= |x| ==> s[j] == x[j - 1];
    assert s[|x| + 1] == GREATER;
    var c := CloserAt(s, 1);
    assert forall j :: 0 <= j < |x| ==> s[j + 1] == x[j];
    assert c <= |x| + 1;
  }

  lemma CutInWord(x: Bytes, rest: Bytes)
    requires x != [] && NEWLINE !in x && (rest != [] ==> IsBlank(rest[0]))
    ensures GREATER in x ==>
              (Miscut(x, rest) <==> x[0] == LESS && 2 <= IndexOf(x, 0, GREATER) < |x| - 1)
    ensures GREATER !in x ==>
              (Miscut(x, rest) <==> x[0] == LESS && CloserAt(rest, 0) < |rest| && rest[CloserAt(rest, 0)] == GREATER)
  {
    hide CloserAt, IndexOf;
    var s, k, d := x + rest, IndexOf(x, 0, GREATER), CloserAt(rest, 0);
    assert forall j :: 0 <= j < |x| ==> s[j] == x[j];
    assert forall j :: |x| <= j < |s| ==> s[j] == rest[j - |x|];
    if GREATER in x {
      assert k > 0 ==> CloserAt(s, 1) == k;
    } else {
      assert forall j :: |x| <= j < |x| + d ==> s[j] != GREATER && s[j] != NEWLINE;
      assert d < |rest| ==> s[|x| + d] == rest[d];
      assert CloserAt(s, 1) == |x| + d;
      assert d < |rest| && rest[d] == GREATER ==> d > 0;
    }
  }

  lemma CloserOnLine(rest: Bytes)
    requires rest == [] || IsLine(rest)
    ensures CloserAt(rest, 0) < |rest| && rest[CloserAt(rest, 0)] == GREATER <==> GREATER in rest
  {
    hide CloserAt;
    NewlineEnds();
  }

  lemma LineFrom(s: Bytes, k: nat)
    requires IsLine(s) && k <= |s|
    ensures s[k..] == [] || IsLine(s[k..])
  {
  }

  /** The destination of a definition does not go over the end of the line. */
  lemma DefinitionHasNoNewline(s: Bytes, m: nat)
    requires IsLine(s) && m < |s| && !IsBlank(s[m])
    ensures NEWLINE !in s[m..LinkEnd(s, m, false)]
  {
    hide LinkEnd;
    DefinitionEnds(s, m);
    PartsOfLine(s, m, LinkEnd(s, m, false));
    NewlineEnds();
  }

  lemma MiscutIff(l: Layout, s: Bytes)
    requires IsLayout(l) && IsLine(s) && DefinitionAt(s).Some? && Untangled(s, LayoutMover(l))
    ensures
      var f, m := LayoutMover(l), DefinitionAt(s).value;
      var e := LinkEnd(s, m, false);
      e <= |InlineMoved(s, f)| && (Miscut(f(s[m..e]), InlineMoved(s, f)[e..]) <==> IsMiscut(l, s))
  {
    hide IsLayout, LinkEnd, DefinitionAt, InlineMoved, LineMoved, Untangled, Miscut, IsLine, LayoutMover, Descent, Handed,
         WillHaveCloserBehind, IndexOf, IsLanding, LandsOutside, AngleAt;
    var f, m := LayoutMover(l), DefinitionAt(s).value;
    var e, now := LinkEnd(s, m, false), InlineMoved(s, f);
    LayoutMoverIsCareful(l);
    DefinitionLineBecomes(s, f);
    DefinitionEnds(s, m);
    DefinitionHasNoNewline(s, m);
    assert s[m..e][0] == s[m];
    InlineLine(s, f);
    LineFrom(now, e);
    if s[m] == LESS {
      BracketCut(l, s[m..e], now[e..]);
    } else {
      NotAngled(s, m);
      WordCut(l, s[m..e], now[e..]);
      CloserOnLine(now[e..]);
      RestCloses(l, s);
    }
  }

  lemma NotAngled(s: Bytes, m: nat)
    requires m < |s| && s[m] != LESS
    ensures !AngleAt(s, m)
  {
  }

  /** What closes behind the definition, told from the line. */
  lemma RestCloses(l: Layout, s: Bytes)
    requires IsLayout(l) && IsLine(s) && DefinitionAt(s).Some? && Untangled(s, LayoutMover(l))
    requires !AngleAt(s, DefinitionAt(s).value)
    ensures
      var f, m := LayoutMover(l), DefinitionAt(s).value;
      var e := LinkEnd(s, m, false);
      m < e <= |InlineMoved(s, f)| && (GREATER in InlineMoved(s, f)[e..] <==> WillHaveCloserBehind(s[m..], e - m))
  {
    hide IsLayout, LinkEnd, DefinitionAt, InlineMoved, LayoutMover, WillHaveCloserBehind, AngleAt, LeftAlone, IsHead, IsLine,
         NewlyClosed;
    var f, m := LayoutMover(l), DefinitionAt(s).value;
    var e := LinkEnd(s, m, false);
    HeadOfDefinition(s);
    MovedBehind(s, f);
    LineFrom(s, m);
    HasCloserBehindIff(l, s[m..], e - m);
    assert InlineMoved(s, f)[e..] == InlineMoved(s[m..], f)[e - m..];
  }

  lemma BracketCut(l: Layout, u: Bytes, rest: Bytes)
    requires IsLayout(l) && u != [] && u[0] == LESS && NEWLINE !in u
    ensures
      var h := Handed(u);
      Miscut(LayoutMover(l)(u), rest)
      <==> GREATER in Descent(h)
           && !(Descent(h)[0] == GREATER && (!IsLocal(UrlSplit(h)) || LandsOutside(l, h)))
  {
    hide IsLayout, Unsplit, Descent, Handed, RelocateTarget, Miscut, IsNeutral, LandsOutside, UrlSplit;
    var h := Handed(u);
    var head := MovedDescent(l, h);
    var x := RelocateTarget(h, Unsplit(l.prefix), Unsplit(l.base));
    LayoutMoverIsCareful(l);
    IsFit(LayoutMover(l), u);
    NoNewline(u, LayoutMover(l)(u));
    assert LayoutMover(l)(u) == [LESS] + x + [GREATER];
    assert NEWLINE !in x by {
      assert forall j :: 0 <= j < |x| ==> x[j] == ([LESS] + x + [GREATER])[j + 1];
    }
    CutInBrackets(x, rest);
    NeutralBefore(head, Descent(h));
    if Descent(h) != [] {
      FirstOf(head, Descent(h));
    }
  }

  lemma FirstOf(head: Bytes, x: Bytes)
    requires IsNeutral(head) && x != []
    ensures (head + x)[0] == GREATER <==> head == [] && x[0] == GREATER
  {
  }

  lemma WordCut(l: Layout, u: Bytes, rest: Bytes)
    requires IsLayout(l) && u != [] && u[0] != LESS && NEWLINE !in u && (rest != [] ==> IsBlank(rest[0]))
    ensures
      var c := CloserAt(rest, 0);
      Miscut(LayoutMover(l)(u), rest)
      <==> IsLanding(l, u)
           && if GREATER in Descent(u) then 2 <= IndexOf(Descent(u), 0, GREATER) < |Descent(u)| - 1
              else c < |rest| && rest[c] == GREATER
  {
    hide IsLayout, Unsplit, Descent, RelocateTarget, Miscut, IsNeutral, LandsOutside, UrlSplit, IndexOf, CloserAt, Fits;
    var f := LayoutMover(l);
    var head := MovedDescent(l, u);
    LayoutMoverIsCareful(l);
    IsFit(f, u);
    NoNewline(u, f(u));
    StartsAs(l, u);
    assert f(u) == head + Descent(u);
    Joined([], Descent(u));
    CutInWord(f(u), rest);
  }

  // -------------------------------------------------------------- theorem

  /** How a line outside examples is read again when it has been moved. */
  predicate ReadsBack(l: Layout, was: Bytes, now: Bytes) {
    var f := LayoutMover(l);
    match DefinitionAt(was)
    case None => InlineTargets(now) == Map(f, InlineTargets(was)) <==> NoneFallsIn(l, was)
    case Some(m) =>
      (DefinitionTarget(InlineMoved(was, f)) == DefinitionTarget(was) <==> Untangled(was, f))
      && (Untangled(was, f) ==>
            (DefinitionTarget(now) == Some(f(was[m..LinkEnd(was, m, false)])) <==> !IsMiscut(l, was)))
  }

  /** Every copy of a guide has the lines of the guide under the same fences, its examples
      unchanged. A line without definition has the moved destinations exactly if none of them falls
      into brackets that the line closes, which in the companions none ever does. A definition is
      found exactly if its line is not tangled, and then it has the moved destination exactly if
      that is not cut. */
  lemma CopyReadsBack(l: Layout, raw: Bytes)
    requires IsLayout(l)
    ensures
      var was, now := Lines(ReadText(raw)), Lines(GuideCopy(raw, Unsplit(l.prefix), Unsplit(l.base)));
      var states := States(was, NoFence);
      States(now, NoFence) == states && OnlyMoved(was, now, states, LayoutMover(l))
      && forall k :: 0 <= k < |was| && !IsExample(was[k], states[k]) ==> ReadsBack(l, was[k], now[k])
  {
    hide IsLayout, Lines, States, OnlyMoved, IsExample, Careful, ReadText, GuideMoved, ReadsBack, AreLines, LineMoved;
    var f, text := LayoutMover(l), ReadText(raw);
    LayoutMoverIsCareful(l);
    GuideKeepsLines(text, f);
    LinesOfText(text);
    var was, now, states := Lines(text), Lines(GuideMoved(text, f)), States(Lines(text), NoFence);
    forall k | 0 <= k < |was| && !IsExample(was[k], states[k]) ensures ReadsBack(l, was[k], now[k]) {
      LineOf(was, k);
      MovedLine(was, now, states, f, k);
      LineReadsBack(l, was[k]);
    }
  }

  lemma LineOf(lines: seq<Bytes>, k: nat)
    requires AreLines(lines) && k < |lines|
    ensures IsLine(lines[k])
  {
    hide IsLine, IsEnded;
  }

  lemma MovedLine(was: seq<Bytes>, now: seq<Bytes>, states: seq<Fence>, f: Mover, k: nat)
    requires OnlyMoved(was, now, states, f) && k < |was| && !IsExample(was[k], states[k])
    ensures now[k] == LineMoved(was[k], f)
  {
    hide IsExample, LineMoved;
  }

  lemma LineReadsBack(l: Layout, s: Bytes)
    requires IsLayout(l) && IsLine(s)
    ensures ReadsBack(l, s, LineMoved(s, LayoutMover(l)))
  {
    hide IsLayout, LayoutMover, InlineMoved, InlineTargets, DefinitionAt, DefinitionTarget, Untangled, IsMiscut, Miscut,
         NoneFallsIn, NoneCaught, IsLine, Careful, LinkEnd, Map;
    var f := LayoutMover(l);
    LayoutMoverIsCareful(l);
    if DefinitionAt(s).None? {
      StillNoDefinition(s, f);
      InlineTargetsMoved(s, f);
      NoneCaughtIff(l, s);
    } else {
      DefinitionFound(s, f);
      if Untangled(s, f) {
        hide LineMoved;
        DefinitionTargetMoved(s, f);
        MiscutIff(l, s);
      }
    }
  }
}
