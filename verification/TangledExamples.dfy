/** Definitions whose line has inline destinations, or a destination that lands on a bracket: where
    the copy of such a line goes wrong. */
module TangledExamples {
  import opened ByteStrings
  import opened MarkdownScan
  import opened Paths
  import opened Links
  import opened PackageLinks
  import opened GuideRewriting
  import opened GuideLaws
  import opened GuideDefinitions
  import opened GuideCopies
  import opened GuideExamples

  /** `[a]: x](y)`, its destination `x](y)`, and the names in it. */
  const TANGLED_LINE: Bytes := HEAD + TANGLED
  const HEAD: Bytes := [LBRACKET, 97, RBRACKET, COLON, SPACE]
  const TANGLED: Bytes := [120, RBRACKET, LPAREN, 121, RPAREN]
  const NAME_Y: Bytes := [121]
  const HEAD_X: Bytes := [120, RBRACKET, LPAREN]

  /** An inline destination inside that of a definition is moved twice: `[a]: x](y)` becomes
      `[a]: docs/x](docs/y)`, although `x](y)` alone would become `docs/x](y)`. */
  lemma TangledExample()
    ensures DefinitionTarget(TANGLED_LINE) == Some(TANGLED)
    ensures DefinitionTarget(LineMoved(TANGLED_LINE, FLAT_MOVER))
         == Some(DOCS + [SLASH] + (HEAD_X + (DOCS + [SLASH] + NAME_Y) + [RPAREN]))
    ensures FLAT_MOVER(TANGLED) == DOCS + [SLASH] + TANGLED
  {
    hide InlineMoved, Moved, Ascii, DefinitionTarget, DefinitionMoved, IsBlank;
    var inner: Bytes := HEAD_X + (DOCS + [SLASH] + NAME_Y) + [RPAREN];
    TangledInline();
    TangledMoves();
    TangledWords();
    DefinitionHere(TANGLED, FLAT_MOVER);
    DefinitionHere(inner, FLAT_MOVER);
    DefinitionHere(DOCS + [SLASH] + inner, FLAT_MOVER);
  }

  lemma TangledWords()
    ensures
      var inner := HEAD_X + (DOCS + [SLASH] + NAME_Y) + [RPAREN];
      TANGLED != [] && TANGLED[0] != LESS && (forall k :: 0 <= k < |TANGLED| ==> !IsBlank(TANGLED[k])) && (forall k :: 0 <= k < |inner| ==> !IsBlank(inner[k]))
      && inner != [] && inner[0] != LESS
      && var twice := DOCS + [SLASH] + inner;
         twice != [] && twice[0] != LESS && forall k :: 0 <= k < |twice| ==> !IsBlank(twice[k])
  {
    hide Ascii;
    WordBytes("docs");
    assert |DOCS| == 4 && DOCS[0] in DOCS;
    var inner := HEAD_X + (DOCS + [SLASH] + NAME_Y) + [RPAREN];
    assert forall b :: b in inner ==> !IsBlank(b);
    assert forall b :: b in DOCS + [SLASH] + inner ==> !IsBlank(b);
  }

  lemma HeadDefines(u: Bytes)
    requires u != [] && !IsBlank(u[0])
    ensures DefinitionAt(HEAD + u) == Some(5)
  {
    hide LabelEnd, SkipBlank;
    var s := HEAD + u;
    assert s[0] == LBRACKET && s[1] == 97 && s[2] == RBRACKET && s[3] == COLON && s[4] == SPACE && s[5] == u[0];
    assert SkipBlank(s, 0) == 0 && LabelEnd(s, 1) == 2 && SkipBlank(s, 4) == 5;
  }

  lemma WordToTheEnd(u: Bytes)
    requires u != [] && u[0] != LESS && forall k :: 0 <= k < |u| ==> !IsBlank(u[k])
    ensures LinkEnd(HEAD + u, 5, false) == |HEAD + u|
  {
    hide WordEnd, CloserAt;
    var s := HEAD + u;
    assert forall k :: 5 <= k < |s| ==> s[k] == u[k - 5];
    assert WordEnd(s, 5, false) == |s|;
  }

  /** A definition whose destination is a word. */
  lemma DefinitionHere(u: Bytes, f: Mover)
    requires u != [] && u[0] != LESS && forall k :: 0 <= k < |u| ==> !IsBlank(u[k])
    ensures DefinitionTarget(HEAD + u) == Some(u) && DefinitionMoved(HEAD + u, f) == HEAD + f(u)
  {
    hide DefinitionAt, LinkEnd;
    var s := HEAD + u;
    HeadDefines(u);
    WordToTheEnd(u);
    assert s[..5] == HEAD && s[5..|s|] == u && s[|s|..] == [];
    assert HEAD + f(u) + [] == HEAD + f(u);
  }

  lemma TangledMoves()
    ensures FLAT_MOVER(TANGLED) == DOCS + [SLASH] + TANGLED
    ensures FLAT_MOVER(NAME_Y) == DOCS + [SLASH] + NAME_Y
    ensures
      var inner := HEAD_X + (DOCS + [SLASH] + NAME_Y) + [RPAREN];
      FLAT_MOVER(inner) == DOCS + [SLASH] + inner
  {
    hide RelocateTarget, Ascii, Unsplit, IsMistaken;
    var a, b := HEAD_X + DOCS, NAME_Y + [RPAREN];
    TangledNames();
    FlatMoves([TANGLED]);
    FlatMoves([NAME_Y]);
    FlatMoves([a, b]);
    OnePartText(TANGLED);
    OnePartText(NAME_Y);
    OnePartText(b);
    PartsBehind(a, [b]);
    assert [a] + [b] == [a, b];
    assert a + [SLASH] + b == HEAD_X + (DOCS + [SLASH] + NAME_Y) + [RPAREN];
  }

  lemma TangledNames()
    ensures Down([TANGLED]) && Down([NAME_Y]) && Down([HEAD_X + DOCS, NAME_Y + [RPAREN]])
    ensures !IsMistaken(TANGLED) && !IsMistaken(NAME_Y) && !IsMistaken(HEAD_X + DOCS)
  {
    hide IsPlainPart, IsMistaken, Ascii;
    LayoutNames();
    WordBytes("docs");
    NamePart(TANGLED);
    NamePart(NAME_Y);
    NamePart(NAME_Y + [RPAREN]);
    NamePart(HEAD_X + DOCS);
  }

  lemma NamePart(c: Bytes)
    requires c != [] && IsLetter(c[0])
    requires forall b :: b in c ==> IsLetter(b) || b == DASH || b == RBRACKET || b == LPAREN || b == RPAREN
    ensures IsPlainPart(c) && c != DOTS && !IsMistaken(c)
  {
    hide IndexOf;
    assert COLON !in c && SLASH !in c && QUESTION !in c && HASH !in c;
    forall k | 0 <= k < |c| ensures !IsUnsafe(c[k]) {
      assert c[k] in c;
    }
  }

  lemma OpeningY()
    ensures Opening([RBRACKET, LPAREN, 121, RPAREN]) == Some(Span(2, 3))
  {
    hide WordEnd;
    var open: Bytes := [RBRACKET, LPAREN, 121, RPAREN];
    assert open[2] == 121 && open[3] == RPAREN;
    assert SkipBlank(open, 2) == 2 && WordEnd(open, 2, true) == 3;
  }

  lemma TangledInline()
    ensures InlineMoved(TANGLED_LINE, FLAT_MOVER) == HEAD + (HEAD_X + (DOCS + [SLASH] + NAME_Y) + [RPAREN])
  {
    hide InlineMoved, Moved, Ascii, Opening;
    var f := FLAT_MOVER;
    var open: Bytes := [RBRACKET, LPAREN, 121, RPAREN];
    TangledMoves();
    OpeningY();
    NoBracket([RPAREN], f);
    InlineHere(open, f);
    assert open[2..3] == NAME_Y && open[3..] == [RPAREN] && open[..2] == [RBRACKET, LPAREN];
    var words: Bytes := [120];
    BehindLabel(words, open, f);
    assert TANGLED_LINE == HEAD + words + open;
    var y: Bytes := DOCS + [SLASH] + NAME_Y;
    assert HEAD_X == [120] + [RBRACKET, LPAREN];
    OneLine(HEAD, [120], [RBRACKET, LPAREN], y, [RPAREN]);
  }

  lemma OneLine(a: Bytes, b: Bytes, c: Bytes, d: Bytes, e: Bytes)
    ensures a + b + (c + d + e) == a + ((b + c) + d + e)
  {
  }

  /** Behind the label and words without `]` the line is moved on its own. */
  lemma BehindLabel(words: Bytes, open: Bytes, f: Mover)
    requires RBRACKET !in words
    ensures InlineMoved(HEAD + words + open, f) == HEAD + words + InlineMoved(open, f)
    ensures InlineTargets(HEAD + words + open) == InlineTargets(open)
  {
    hide InlineMoved, InlineTargets;
    var a, b: Bytes := [LBRACKET, 97], [COLON, SPACE] + words;
    LabelSkipped(a, b, open, f);
    LabelParts(words, open);
    LabelParts(words, InlineMoved(open, f));
  }

  lemma LabelParts(words: Bytes, rest: Bytes)
    ensures [LBRACKET, 97] + ([RBRACKET] + (([COLON, SPACE] + words) + rest)) == HEAD + words + rest
  {
  }

  /** A definition whose destination is in brackets. */
  lemma AngledDefinition(x: Bytes, y: Bytes)
    requires |x| >= 2 && x[0] == LESS && GREATER !in x && NEWLINE !in x
    ensures DefinitionTarget(HEAD + ((x + [GREATER]) + y)) == Some(x + [GREATER])
  {
    hide DefinitionAt, CloserAt, WordEnd;
    var u := (x + [GREATER]) + y;
    var s := HEAD + u;
    HeadDefines(u);
    assert forall k :: 0 <= k < |x| ==> s[5 + k] == x[k];
    assert forall k :: 5 <= k < 5 + |x| ==> s[k] == x[k - 5];
    assert s[5 + |x|] == GREATER;
    assert CloserAt(s, 6) == 5 + |x|;
    assert s[5..5 + |x| + 1] == x + [GREATER];
  }

  /** A definition whose destination is a word, with a blank behind it and no bracket that closes. */
  lemma WordDefinition(x: Bytes, y: Bytes)
    requires x != [] && (forall k :: 0 <= k < |x| ==> !IsBlank(x[k])) && y != [] && IsBlank(y[0])
    requires x[0] == LESS ==> GREATER !in x + y
    ensures DefinitionTarget(HEAD + (x + y)) == Some(x) && LinkEnd(HEAD + (x + y), 5, false) == 5 + |x|
  {
    hide DefinitionAt, CloserAt, WordEnd;
    var u := x + y;
    var s := HEAD + u;
    HeadDefines(u);
    assert forall k :: 5 <= k < 5 + |x| ==> s[k] == x[k - 5];
    assert s[5 + |x|] == y[0];
    assert WordEnd(s, 5, false) == 5 + |x|;
    assert forall k :: 5 <= k < |s| ==> s[k] == u[k - 5];
    assert s[5] == x[0];
    assert s[5..5 + |x|] == x;
  }

  /** `[a]: <x [t](<ab)`: the words before the inline destination. */
  const LATE_LINE: Bytes := HEAD + LATE_WORDS + LATE_OPEN
  const LATE_WORDS: Bytes := [LESS, 120, SPACE, LBRACKET, 116]
  const LATE_OPEN: Bytes := [RBRACKET, LPAREN] + UNCLOSED + [RPAREN, NEWLINE]

  /** Nothing overlaps here. But the inline destination gets the `>` that closes the bracket before
      it, so that the definition then has the destination `<x [t](<docs/a>`. */
  lemma ClosedLateExample()
    ensures DefinitionTarget(LATE_LINE) == Some([LESS, 120]) && InlineTargets(LATE_LINE) == [UNCLOSED]
    ensures DefinitionTarget(InlineMoved(LATE_LINE, FLAT_MOVER))
         == Some(LATE_WORDS + [RBRACKET, LPAREN, LESS] + (DOCS + [SLASH, 97]) + [GREATER])
  {
    hide InlineMoved, InlineTargets, Moved, Ascii, DefinitionTarget;
    var tail: Bytes := [RPAREN, NEWLINE];
    BehindLabel(LATE_WORDS, LATE_OPEN, FLAT_MOVER);
    UnclosedInline(LATE_OPEN, tail);
    UnclosedMoves();
    var x: Bytes := LATE_WORDS + [RBRACKET, LPAREN, LESS] + (DOCS + [SLASH, 97]);
    LateText(x, tail);
    AngledDefinition(x, tail);
    var word, rest: Bytes := [LESS, 120], [SPACE, LBRACKET, 116] + LATE_OPEN;
    assert LATE_LINE == HEAD + (word + rest);
    WordDefinition(word, rest);
  }

  lemma LateText(x: Bytes, tail: Bytes)
    requires x == LATE_WORDS + [RBRACKET, LPAREN, LESS] + (DOCS + [SLASH, 97])
    ensures HEAD + LATE_WORDS + ([RBRACKET, LPAREN] + ([LESS] + (DOCS + [SLASH] + NAME_A) + [GREATER]) + tail)
         == HEAD + ((x + [GREATER]) + tail)
    ensures x[0] == LESS && GREATER !in x && NEWLINE !in x
  {
    hide Ascii;
    WordBytes("docs");
    assert DOCS + [SLASH] + NAME_A == DOCS + [SLASH, 97];
  }

  /** `[a]: ../<b c>` in the flat copy. */
  const CUT_LINE: Bytes := HEAD + (CUT_UP + CUT_REST)
  const CUT_UP: Bytes := DOTS + [SLASH] + CUT_NAME
  const CUT_NAME: Bytes := [LESS, 98]
  const CUT_REST: Bytes := [SPACE, 99, GREATER]

  /** The destination `../<b` lands on a bracket that the rest of the line closes: the moved
      definition has the destination `<b c>`. */
  lemma CutExample()
    ensures DefinitionTarget(CUT_LINE) == Some(CUT_UP) && InlineTargets(CUT_LINE) == []
    ensures FLAT_MOVER(CUT_UP) == CUT_NAME
    ensures DefinitionTarget(LineMoved(CUT_LINE, FLAT_MOVER)) == Some(CUT_NAME + CUT_REST)
  {
    hide InlineMoved, InlineTargets, Moved, DefinitionTarget, LinkEnd, DefinitionAt;
    WordDefinition(CUT_UP, CUT_REST);
    HeadDefines(CUT_UP + CUT_REST);
    CutMoves();
    var words := CUT_UP + CUT_REST;
    BehindLabel(words, [], FLAT_MOVER);
    assert HEAD + words + [] == CUT_LINE;
    NothingMoved(FLAT_MOVER);
    TailTargets([]);
    assert CUT_LINE[..5] == HEAD && CUT_LINE[5..5 + |CUT_UP|] == CUT_UP && CUT_LINE[5 + |CUT_UP|..] == CUT_REST;
    assert LineMoved(CUT_LINE, FLAT_MOVER) == HEAD + CUT_NAME + CUT_REST;
    var x: Bytes := CUT_NAME + [SPACE, 99];
    assert HEAD + CUT_NAME + CUT_REST == HEAD + ((x + [GREATER]) + []);
    assert x + [GREATER] == CUT_NAME + CUT_REST;
    AngledDefinition(x, []);
  }

  lemma CutMoves()
    ensures FLAT_MOVER(CUT_UP) == CUT_NAME
  {
    hide UrlSplit, RelocatedPath, IsMistaken;
    CutParts();
    NoUrlParts(CUT_UP);
    LandsOn(CUT_NAME);
    assert CUT_NAME + [] + [] == CUT_NAME;
  }

  lemma CutParts()
    ensures IsPlainPart(CUT_NAME) && CUT_NAME != DOTS && IsPlainName(CUT_UP) && !IsMistaken(CUT_UP)
  {
    hide IndexOf;
    var u: Bytes := CUT_UP;
    assert |u| == 5 && u[0] == DOT && u[1] == DOT && u[2] == SLASH && u[3] == LESS && u[4] == 98;
  }

  /** `[a]: <q](docs/x>/../../x>/z)`: the inline destination goes on behind the bracket. */
  const ACROSS_LINE: Bytes := HEAD + ACROSS_WORDS + ([RBRACKET, LPAREN] + ACROSS + [RPAREN])
  const ACROSS_WORDS: Bytes := [LESS, 113]
  const ACROSS: Bytes := Unsplit([DOCS] + ([NAME_X] + [DOTS, DOTS, NAME_X, NAME_Z]))
  const NAME_X: Bytes := [120, GREATER]
  const NAME_Z: Bytes := [122]

  /** The inline destination starts inside the definition's, and it is moved. But it is the same up
      to the `>`: the definition is found as it was. */
  lemma AcrossExample()
    ensures InlineTargets(ACROSS_LINE) == [ACROSS]
    ensures FLAT_MOVER(ACROSS) != ACROSS
    ensures DefinitionTarget(ACROSS_LINE) == Some(ACROSS_WORDS + [RBRACKET, LPAREN] + (DOCS + [SLASH] + NAME_X))
    ensures DefinitionTarget(InlineMoved(ACROSS_LINE, FLAT_MOVER)) == DefinitionTarget(ACROSS_LINE)
  {
    hide InlineMoved, InlineTargets, Moved, Ascii, DefinitionTarget, Unsplit, Opening;
    var later, now: Bytes := [SLASH] + Unsplit([DOTS, DOTS, NAME_X, NAME_Z]), [SLASH] + NAME_Z;
    var start: Bytes := DOCS + [SLASH] + NAME_X;
    AcrossMoves();
    AcrossParts();
    AcrossOpening();
    var open: Bytes := [RBRACKET, LPAREN] + ACROSS + [RPAREN];
    var o := Span(2, 2 + |ACROSS|);
    BehindLabel(ACROSS_WORDS, open, FLAT_MOVER);
    assert open[2..2 + |ACROSS|] == ACROSS && open[2 + |ACROSS|..] == [RPAREN] && open[..2] == [RBRACKET, LPAREN];
    InlineHere(open, FLAT_MOVER);
    TargetHere(open, o);
    TailTargets([RPAREN]);
    NoBracket([RPAREN], FLAT_MOVER);
    AcrossText(start, later);
    AcrossText(start, now);
  }

  /** The line with some text behind the `>` of the inline destination. */
  lemma AcrossText(start: Bytes, y: Bytes)
    requires start == DOCS + [SLASH] + NAME_X
    ensures DefinitionTarget(HEAD + ACROSS_WORDS + ([RBRACKET, LPAREN] + (start + y) + [RPAREN]))
         == Some(ACROSS_WORDS + [RBRACKET, LPAREN] + start)
  {
    hide Ascii, DefinitionTarget;
    var x: Bytes := ACROSS_WORDS + [RBRACKET, LPAREN] + (DOCS + [SLASH, 120]);
    WordBytes("docs");
    assert x + [GREATER] == ACROSS_WORDS + [RBRACKET, LPAREN] + start;
    assert HEAD + ACROSS_WORDS + ([RBRACKET, LPAREN] + (start + y) + [RPAREN]) == HEAD + ((x + [GREATER]) + (y + [RPAREN]));
    AngledDefinition(x, y + [RPAREN]);
  }

  lemma AcrossParts()
    ensures ACROSS == (DOCS + [SLASH] + NAME_X) + ([SLASH] + Unsplit([DOTS, DOTS, NAME_X, NAME_Z]))
    ensures Unsplit([DOCS, NAME_X, NAME_Z]) == (DOCS + [SLASH] + NAME_X) + ([SLASH] + NAME_Z)
  {
    hide Ascii, Unsplit;
    PartsBehind(DOCS, [NAME_X] + [DOTS, DOTS, NAME_X, NAME_Z]);
    PartsBehind(NAME_X, [DOTS, DOTS, NAME_X, NAME_Z]);
    PartsBehind(DOCS, [NAME_X] + [NAME_Z]);
    PartsBehind(NAME_X, [NAME_Z]);
    OnePartText(NAME_Z);
    assert [DOCS, NAME_X, NAME_Z] == [DOCS] + ([NAME_X] + [NAME_Z]);
  }

  lemma AcrossBytes()
    ensures forall b :: b in ACROSS ==> IsLetter(b) || b == DASH || b == SLASH || b == DOT || b == GREATER
    ensures ACROSS != [] && IsLetter(ACROSS[0])
  {
    hide Ascii, Unsplit;
    WordBytes("docs");
    var parts := [DOCS] + ([NAME_X] + [DOTS, DOTS, NAME_X, NAME_Z]);
    forall b | b in ACROSS ensures IsLetter(b) || b == DASH || b == SLASH || b == DOT || b == GREATER {
      if b != SLASH {
        UnsplitBytes(parts, b);
      }
    }
    AcrossParts();
    assert ACROSS[0] == DOCS[0] && DOCS[0] in DOCS;
  }

  lemma AcrossOpening()
    ensures Opening([RBRACKET, LPAREN] + ACROSS + [RPAREN]) == Some(Span(2, 2 + |ACROSS|))
  {
    hide Ascii, Unsplit, WordEnd, CloserAt, ACROSS;
    var open: Bytes := [RBRACKET, LPAREN] + ACROSS + [RPAREN];
    AcrossBytes();
    assert open[2] == ACROSS[0];
    assert SkipBlank(open, 2) == 2;
    assert forall k :: 2 <= k < 2 + |ACROSS| ==> open[k] == ACROSS[k - 2] && ACROSS[k - 2] in ACROSS;
    assert open[2 + |ACROSS|] == RPAREN;
    assert WordEnd(open, 2, true) == 2 + |ACROSS|;
  }

  lemma AcrossMoves()
    ensures FLAT_MOVER(ACROSS) == (DOCS + [SLASH] + NAME_X) + ([SLASH] + NAME_Z) && FLAT_MOVER(ACROSS) != ACROSS
  {
    hide Ascii, Unsplit, Run, UrlSplit, RelocatedPath, Split, IsMistaken, IsPlainPart, Components;
    AcrossParts();
    AcrossBytes();
    AcrossIsPlain();
    NoUrlParts(ACROSS);
    AcrossPath();
    assert Unsplit([DOCS, NAME_X, NAME_Z]) + [] + [] == Unsplit([DOCS, NAME_X, NAME_Z]);
    NotTheSame();
  }

  lemma NotTheSame()
    ensures (DOCS + [SLASH] + NAME_X) + ([SLASH] + NAME_Z) != ACROSS
  {
    hide Ascii, Unsplit;
    AcrossParts();
    PartsBehind(DOTS, [DOTS, NAME_X, NAME_Z]);
    assert [DOTS] + [DOTS, NAME_X, NAME_Z] == [DOTS, DOTS, NAME_X, NAME_Z];
    var start: Bytes := DOCS + [SLASH] + NAME_X;
    assert ACROSS[|start| + 1] == DOT && (start + ([SLASH] + NAME_Z))[|start| + 1] == 122;
  }

  lemma AcrossIsPlain()
    ensures IsPlainName(ACROSS) && !IsMistaken(ACROSS)
  {
    hide Unsplit, IndexOf, ACROSS;
    AcrossBytes();
    assert COLON !in ACROSS && QUESTION !in ACROSS && HASH !in ACROSS;
    forall k | 0 <= k < |ACROSS| ensures !IsUnsafe(ACROSS[k]) {
      assert ACROSS[k] in ACROSS;
    }
  }

  lemma PlainX()
    ensures Down([NAME_X, NAME_Z]) && IsPlainPart(DOTS)
  {
  }

  lemma AcrossPath()
    ensures RelocatedPath(ACROSS, [], DOCS) == Unsplit([DOCS, NAME_X, NAME_Z])
  {
    hide Ascii, Unsplit, Run, Split, IsPlainPart, PathJoin, Render, RelocatedPath;
    var down, parts := [NAME_X, NAME_Z], [DOCS] + ([NAME_X] + [DOTS, DOTS, NAME_X, NAME_Z]);
    LayoutNames();
    PlainX();
    assert down[0] == NAME_X && down[1] == NAME_Z;
    AcrossBytes();
    AcrossComponents(parts, down);
    RelocatedComponents(ACROSS, [], DOCS);
    NoPartsText();
    OnePartText(DOCS);
    LayoutsLeadHome(FLAT);
    PlaceOf(FLAT);
    NothingRuns([]);
    DownPushes([DOCS], []);
    DownPushes(down, [DOCS]);
    assert [] + [DOCS] == [DOCS] && [DOCS] + down == [DOCS, NAME_X, NAME_Z];
    DownPushes([DOCS, NAME_X, NAME_Z], []);
    RenderedText([DOCS, NAME_X, NAME_Z]);
  }

  lemma AcrossComponents(parts: seq<Bytes>, down: seq<Bytes>)
    requires parts == [DOCS] + ([NAME_X] + [DOTS, DOTS, NAME_X, NAME_Z]) && down == [NAME_X, NAME_Z]
    requires Down([DOCS, NAME_X]) && Down(down) && IsPlainPart(DOTS) && IsRelative(Unsplit(parts))
    ensures Components(Unsplit(parts)) == down
  {
    hide Ascii, Unsplit, Run, Split, IsPlainPart;
    var front := [DOCS, NAME_X];
    assert front[0] == DOCS && front[1] == NAME_X && down[1] == NAME_Z;
    assert parts == front + (Ups(2) + down);
    SplitRun(parts, []);
    RunConcat(front, Ups(2) + down, [], false);
    DownPushes(front, []);
    assert [] + front == front;
    RunConcat(Ups(2), down, front, false);
    UpsPop(front, 2, false);
    assert front[..0] == [];
    DownPushes(down, []);
    assert [] + down == down;
  }
}
