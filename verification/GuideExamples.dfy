/** Guides that show where a copy is not what one would expect: a bracket that does not close, a
    destination caught by a bracket, and a guide that outgrows the size limit. */
module GuideExamples {
  import opened ByteStrings
  import opened MarkdownScan
  import opened Paths
  import opened Links
  import opened PackageLinks
  import opened Texts
  import opened GuideRewriting
  import opened GuideLaws
  import opened GuideCopies

  // --------------------------------------------------------- plain targets

  lemma NoUrlParts(text: Bytes)
    requires text != [] && IsPlainName(text) && !IsMistaken(text)
    ensures UrlSplit(text) == Url([], [], text, [], [])
  {
    hide UrlSplit, HasScheme;
    UrlRoundTrip(text, [], []);
    assert text + [] + [] == text;
  }

  /** Names going down are moved behind the place that prefix and base lead to. */
  lemma PlainTargetMoves(parts: seq<Bytes>, l: Layout)
    requires Down(parts) && parts != [] && !IsMistaken(parts[0])
    requires PlainParts(l.prefix) && PlainParts(l.base)
    ensures RelocateTarget(Unsplit(parts), Unsplit(l.prefix), Unsplit(l.base))
         == Unsplit(Run(l.base, Run(l.prefix, [], false), false) + parts)
  {
    hide UrlSplit, Run, Split, Unsplit, PlainParts, PathJoin, Render, RelocatedPath, IsMistaken, Plain, IsPlainPart, Components;
    var text, place := Unsplit(parts), Run(l.base, Run(l.prefix, [], false), false);
    DownPushes(parts, []);
    DownPushes(parts, place);
    UnsplitPlain(parts);
    UnsplitPlain(l.prefix);
    UnsplitPlain(l.base);
    DownStarts(parts);
    MistakenAtFirst(parts);
    NoUrlParts(text);
    RelocatedComponents(text, Unsplit(l.prefix), Unsplit(l.base));
    PlaceOf(l);
    DownComponents(parts);
    assert [] + parts == parts;
    PlaceIsProper(l);
    BehindPlace(place, parts);
    RenderedText(place + parts);
    assert RelocatedPath(text, Unsplit(l.prefix), Unsplit(l.base)) + [] + [] == RelocatedPath(text, Unsplit(l.prefix), Unsplit(l.base));
  }

  lemma DownStarts(parts: seq<Bytes>)
    requires Down(parts) && parts != []
    ensures Proper(parts) && Unsplit(parts) != [] && IsRelative(Unsplit(parts)) && Unsplit(parts)[0] != SLASH
  {
    hide IsClean;
    assert IsPlainPart(parts[0]);
    UnsplitStart(parts);
  }

  lemma DownComponents(parts: seq<Bytes>)
    requires Down(parts) && parts != []
    ensures Components(Unsplit(parts)) == parts
  {
    hide Split, Run, Unsplit, IsPlainPart;
    DownStarts(parts);
    DownPushes(parts, []);
    SplitRun(parts, []);
    assert [] + parts == parts;
  }

  lemma BehindPlace(place: seq<Bytes>, parts: seq<Bytes>)
    requires Proper(place) && Proper(parts)
    ensures Proper(place + parts)
  {
  }

  // -------------------------------------------------------------- examples

  /** `a`, and the line `[](a)`. */
  const NAME_A: Bytes := [97]
  const LINK_LINE: Bytes := [LBRACKET, RBRACKET, LPAREN, 97, RPAREN, NEWLINE]

  lemma NameA()
    ensures Down([NAME_A]) && !IsMistaken(NAME_A) && Unsplit([NAME_A]) == NAME_A
  {
    hide IndexOf;
  }

  lemma LinkLineMoved(f: Mover)
    requires f(NAME_A) != []
    ensures Marker(LINK_LINE) == NoFence && IsLine(LINK_LINE) && IsEnded(LINK_LINE)
    ensures |LineMoved(LINK_LINE, f)| == |f(NAME_A)| + 5
  {
    hide InlineMoved, RunEnd;
    var line := LINK_LINE;
    var tail: Bytes := [RPAREN, NEWLINE];
    assert line[1..][3..] == tail && line[1..][2..3] == NAME_A;
    NoBracket(tail, f);
    assert SkipBlank(line[1..], 2) == 2 && WordEnd(line[1..], 2, true) == 3;
    assert Opening(line[1..]) == Some(Span(2, 3));
    InlineHere(line[1..], f);
    InlineHere(line, f);
    NoLabel(InlineMoved(line, f), f);
  }

  lemma NoLabel(s: Bytes, f: Mover)
    requires |s| >= 2 && s[0] == LBRACKET && s[1] == RBRACKET
    ensures DefinitionMoved(s, f) == s
  {
  }

  /** The flat copies have their links behind `docs`. */
  const FLAT_MOVER: Mover := MoverOf([], DOCS)

  lemma FlatMoves(parts: seq<Bytes>)
    requires Down(parts) && parts != [] && !IsMistaken(parts[0])
    ensures RelocateTarget(Unsplit(parts), [], DOCS) == DOCS + [SLASH] + Unsplit(parts)
  {
    hide Run, RelocateTarget, Ascii, IsPlainPart, IsMistaken, Unsplit;
    LayoutNames();
    LayoutsLeadHome(FLAT);
    PlainTargetMoves(parts, FLAT);
    DownPushes([DOCS], []);
    NothingRuns([]);
    NoPartsText();
    OnePartText(DOCS);
    assert [] + [DOCS] == [DOCS];
    PartsBehind(DOCS, parts);
  }

  /** `[x](<ab)`, and the destination in it. */
  const UNCLOSED_LINE: Bytes := [LBRACKET, 120, RBRACKET, LPAREN, LESS, 97, 98, RPAREN, NEWLINE]
  const UNCLOSED: Bytes := [LESS, 97, 98]

  /** A bracket that does not close costs the destination its last byte: `[x](<ab)` becomes
      `[x](<docs/a>)`. */
  lemma UnclosedExample()
    ensures InlineTargets(UNCLOSED_LINE) == [UNCLOSED]
    ensures LineMoved(UNCLOSED_LINE, FLAT_MOVER)
         == [LBRACKET, 120, RBRACKET, LPAREN, LESS] + (DOCS + [SLASH, 97]) + [GREATER, RPAREN, NEWLINE]
  {
    hide InlineMoved, RelocateTarget, Ascii, InlineTargets, DefinitionMoved, Moved;
    var tail: Bytes := [RPAREN, NEWLINE];
    var open: Bytes := [RBRACKET, LPAREN] + UNCLOSED + tail;
    UnclosedMoves();
    UnclosedInline(open, tail);
    CommonStart(UNCLOSED_LINE, FLAT_MOVER, 2);
    TargetsBefore(UNCLOSED_LINE, 2);
    assert UNCLOSED_LINE[2..] == open && UNCLOSED_LINE[..2] == [LBRACKET, 120];
    var now := InlineMoved(UNCLOSED_LINE, FLAT_MOVER);
    assert now[0] == LBRACKET && now[1] == 120 && now[2] == RBRACKET && now[3] == LPAREN;
    NoColon(now, FLAT_MOVER);
  }

  lemma UnclosedInline(open: Bytes, tail: Bytes)
    requires open == [RBRACKET, LPAREN] + UNCLOSED + tail && tail == [RPAREN, NEWLINE]
    ensures InlineMoved(open, FLAT_MOVER) == [RBRACKET, LPAREN] + FLAT_MOVER(UNCLOSED) + tail
    ensures InlineTargets(open) == [UNCLOSED]
  {
    hide InlineMoved, InlineTargets, Opening, Moved;
    NoBracket(tail, FLAT_MOVER);
    UnclosedOpening(open);
    assert open[2..5] == UNCLOSED && open[5..] == tail && open[..2] == [RBRACKET, LPAREN];
    InlineHere(open, FLAT_MOVER);
    TargetHere(open, Span(2, 5));
    TailTargets(tail);
  }

  lemma UnclosedMoves()
    ensures FLAT_MOVER(UNCLOSED) == [LESS] + (DOCS + [SLASH] + NAME_A) + [GREATER]
  {
    hide RelocateTarget, Unsplit, IsMistaken, Ascii, Down;
    NameA();
    FlatMoves([NAME_A]);
    assert UNCLOSED[1..|UNCLOSED| - 1] == NAME_A;
  }

  lemma UnclosedOpening(open: Bytes)
    requires open == [RBRACKET, LPAREN] + UNCLOSED + [RPAREN, NEWLINE]
    ensures Opening(open) == Some(Span(2, 5))
  {
    hide CloserAt, WordEnd;
    assert open[5] == RPAREN && open[6] == NEWLINE;
    assert SkipBlank(open, 2) == 2;
    assert WordEnd(open, 2, true) == 5;
    assert CloserAt(open, 3) == 6;
  }

  lemma NoColon(s: Bytes, f: Mover)
    requires |s| >= 4 && s[0] == LBRACKET && s[1] != RBRACKET && s[1] != NEWLINE && s[2] == RBRACKET && s[3] != COLON
    ensures DefinitionMoved(s, f) == s
  {
    hide LabelEnd;
    assert LabelEnd(s, 1) == 2;
  }

  /** `](../<a b>)`, its destination `../<a`, and the name in it. */
  const CAUGHT_LINE: Bytes := [RBRACKET, LPAREN] + CAUGHT + CAUGHT_REST
  const CAUGHT: Bytes := DOTS + [SLASH] + BRACKET_A
  const BRACKET_A: Bytes := [LESS, 97]
  const CAUGHT_REST: Bytes := [SPACE, 98, GREATER, RPAREN]

  /** A destination that lands on a bracket: `](../<a b>)` becomes `](<a b>)`, which has another
      destination. */
  lemma CaughtExample()
    ensures InlineTargets(CAUGHT_LINE) == [CAUGHT]
    ensures FLAT_MOVER(CAUGHT) == BRACKET_A
    ensures InlineTargets(InlineMoved(CAUGHT_LINE, FLAT_MOVER)) != [BRACKET_A]
  {
    hide InlineMoved, InlineTargets, Moved, NoneCaught, Caught, Opening, Map, Careful, IsLayout;
    FlatIsLayout();
    LayoutMoverIsCareful(FLAT);
    CaughtMoves();
    CaughtOpening();
    TargetHere(CAUGHT_LINE, Span(2, 7));
    assert CAUGHT_LINE[2..7] == CAUGHT && CAUGHT_LINE[7..] == CAUGHT_REST;
    TailTargets(CAUGHT_REST);
    NoBracket(CAUGHT_REST, FLAT_MOVER);
    CaughtHere(CAUGHT_LINE, FLAT_MOVER, Span(2, 7));
    IsCaught();
    InlineTargetsMoved(CAUGHT_LINE, FLAT_MOVER);
    MapHere(FLAT_MOVER, CAUGHT, []);
    assert [CAUGHT] + [] == [CAUGHT];
    MapNothing(FLAT_MOVER);
  }

  lemma MapNothing(f: Mover)
    ensures Map(f, []) == []
  {
  }

  lemma FlatIsLayout()
    ensures IsLayout(FLAT) && LayoutMover(FLAT) == FLAT_MOVER
  {
    NoPartsText();
    OnePartText(DOCS);
  }

  lemma IsCaught()
    ensures Caught(BRACKET_A, CAUGHT_REST)
  {
    hide CloserAt;
    assert CAUGHT_REST[2] == GREATER && CAUGHT_REST[3] == RPAREN && CAUGHT_REST[0] == SPACE && CAUGHT_REST[1] == 98;
    assert CloserAt(CAUGHT_REST, 0) == 2;
  }

  lemma CaughtOpening()
    ensures Opening(CAUGHT_LINE) == Some(Span(2, 7))
  {
    hide WordEnd, CloserAt;
    var s := CAUGHT_LINE;
    assert s[2] == DOT && s[3] == DOT && s[4] == SLASH && s[5] == LESS && s[6] == 97 && s[7] == SPACE;
    assert SkipBlank(s, 2) == 2 && WordEnd(s, 2, true) == 7;
  }

  lemma CaughtMoves()
    ensures FLAT_MOVER(CAUGHT) == BRACKET_A
  {
    hide UrlSplit, RelocatedPath, IsMistaken;
    BracketPart();
    NoUrlParts(CAUGHT);
    LandsOn(BRACKET_A);
    assert BRACKET_A + [] + [] == BRACKET_A;
  }

  lemma BracketPart()
    ensures IsPlainPart(BRACKET_A) && BRACKET_A != DOTS && IsPlainName(CAUGHT) && !IsMistaken(CAUGHT)
  {
    hide IndexOf;
    var u: Bytes := CAUGHT;
    assert |u| == 5 && u[0] == DOT && u[1] == DOT && u[2] == SLASH && u[3] == LESS && u[4] == 97;
  }

  function Copies(line: Bytes, n: nat): (lines: seq<Bytes>)
    ensures |lines| == n && forall k :: 0 <= k < n ==> lines[k] == line
  {
    if n == 0 then [] else [line] + Copies(line, n - 1)
  }

  lemma {:induction false} CopiesMoved(line: Bytes, n: nat, f: Mover)
    requires Marker(line) == NoFence
    ensures LinesMoved(Copies(line, n), NoFence, f) == Copies(LineMoved(line, f), n)
    decreases n
  {
    hide Marker, LineMoved;
    if n > 0 {
      CopiesMoved(line, n - 1, f);
      assert Copies(line, n)[1..] == Copies(line, n - 1);
    }
  }

  lemma {:induction false} CopiesLength(line: Bytes, n: nat)
    ensures |Join(Copies(line, n))| == n * |line|
    decreases n
  {
    if n > 0 {
      CopiesLength(line, n - 1);
      assert Copies(line, n)[1..] == Copies(line, n - 1);
      OneMore(n, |line|);
    }
  }

  lemma OneMore(n: nat, m: nat)
    requires n > 0
    ensures m + (n - 1) * m == n * m
  {
  }

  /** A guide of nothing but links `[](a)`. */
  function LinkList(n: nat): Bytes {
    Join(Copies(LINK_LINE, n))
  }

  /** Every line of such a guide grows as its link does. */
  lemma LinkListGrows(n: nat, f: Mover)
    requires f(NAME_A) != []
    ensures |LinkList(n)| == n * 6 && |GuideMoved(LinkList(n), f)| == n * (|f(NAME_A)| + 5)
  {
    hide LineMoved, Lines, Join, LinesMoved, Copies, Marker;
    LinkLineMoved(f);
    CopiesAreLines(LINK_LINE, n);
    LinesOfJoin(Copies(LINK_LINE, n));
    CopiesMoved(LINK_LINE, n, f);
    CopiesLength(LINK_LINE, n);
    CopiesLength(LineMoved(LINK_LINE, f), n);
  }

  lemma CopiesAreLines(line: Bytes, n: nat)
    requires IsLine(line) && IsEnded(line)
    ensures AreLines(Copies(line, n))
  {
  }

  lemma {:induction false} LinkListIsText(n: nat)
    ensures ReadText(LinkList(n)) == LinkList(n)
    decreases n
  {
    if n > 0 {
      LinkListIsText(n - 1);
      assert Copies(LINK_LINE, n)[1..] == Copies(LINK_LINE, n - 1);
      LinkLineRead(LinkList(n - 1));
    } else {
      assert LinkList(0) == [];
    }
  }

  lemma {:induction false} PlainRead(line: Bytes, rest: Bytes)
    requires RETURN !in line
    ensures ReadText(line + rest) == line + ReadText(rest)
    decreases |line|
  {
    if line == [] {
      assert line + rest == rest;
    } else {
      assert (line + rest)[1..] == line[1..] + rest;
      PlainRead(line[1..], rest);
      assert line == [line[0]] + line[1..];
    }
  }

  lemma LinkLineRead(rest: Bytes)
    ensures ReadText(LINK_LINE + rest) == LINK_LINE + ReadText(rest)
  {
    PlainRead(LINK_LINE, rest);
  }

  /** In the mirror of a companion guide the link `a` is 34 bytes long. */
  lemma CompanionLinkLength()
    ensures |Moved(NAME_A, Unsplit(DATA_GUIDE.prefix), [])| == 34
  {
    hide Run, Unsplit, RelocateTarget, Ascii, IsPlainPart, IsMistaken;
    var l := DATA_GUIDE;
    LayoutNames();
    NameA();
    LayoutsLeadHome(l);
    PlainTargetMoves([NAME_A], l);
    NoPartsText();
    var place := Run(l.base, Run(l.prefix, [], false), false);
    CompanionPlace();
    LongWay();
    assert place + [NAME_A] == Ups(4) + [SUZAKU, PACKS, NAME_A];
  }

  lemma CompanionPlace()
    ensures Run([], Run(Ups(4) + [SUZAKU, PACKS], [], false), false) == Ups(4) + [SUZAKU, PACKS]
  {
    hide Run, Ascii, IsPlainPart;
    LayoutNames();
    RunConcat(Ups(4), [SUZAKU, PACKS], [], false);
    NothingRuns(Ups(4) + [SUZAKU, PACKS]);
    NoUps();
    UpsStay(4, 0);
    DownPushes([SUZAKU, PACKS], Ups(4));
  }

  lemma LongerBy(c: Bytes, rest: seq<Bytes>)
    requires rest != []
    ensures |Unsplit([c] + rest)| == |c| + 1 + |Unsplit(rest)|
  {
    assert ([c] + rest)[1..] == rest;
  }

  lemma LongWay()
    ensures |Unsplit(Ups(4) + [SUZAKU, PACKS, NAME_A])| == 34
  {
    hide Unsplit, Ascii;
    var down := [SUZAKU] + ([PACKS] + [NAME_A]);
    NameA();
    LongerBy(PACKS, [NAME_A]);
    LongerBy(SUZAKU, [PACKS] + [NAME_A]);
    LongerBy(DOTS, down);
    LongerBy(DOTS, [DOTS] + down);
    LongerBy(DOTS, [DOTS] + ([DOTS] + down));
    LongerBy(DOTS, [DOTS] + ([DOTS] + ([DOTS] + down)));
    assert Ups(4) + [SUZAKU, PACKS, NAME_A] == [DOTS] + ([DOTS] + ([DOTS] + ([DOTS] + down)));
  }
}
