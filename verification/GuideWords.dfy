/** The rewriting of a guide told from its bytes: its lines, its code fences, its links. */
module GuideWords {
  import opened ByteStrings
  import opened MarkdownScan
  import opened GuideRewriting
  import D = Destinations

  /** White space of a text: the space, tab to carriage return, and the four separators. */
  predicate IsWhite(b: byte) {
    D.IsWhite(b) || b == 28 || b == 29 || b == 30 || b == 31
  }

  /** The bytes behind which a line ends. */
  predicate IsLineEnd(b: byte) {
    b == 10 || b == 11 || b == 12 || b == 28 || b == 29 || b == 30
  }

  predicate EndsWord(b: byte, inline: bool) {
    IsWhite(b) || (inline && b == 41)
  }

  lemma ClassesAre()
    ensures forall b: byte :: IsWhite(b) == IsBlank(b)
    ensures forall b: byte :: IsLineEnd(b) == EndsLine(b)
    ensures forall b: byte, inline: bool :: EndsWord(b, inline) == Stops(b, inline)
  {
  }

  /** The first line goes up to its line end, or is all there is. */
  predicate IsFirstLine(s: Bytes, n: nat) {
    0 < n <= |s| && (n < |s| ==> IsLineEnd(s[n - 1])) && forall j :: 0 <= j < n - 1 ==> !IsLineEnd(s[j])
  }

  lemma FirstLineIs(s: Bytes, n: nat)
    requires s != []
    ensures IsFirstLine(s, n) <==> n == LineLength(s)
  {
    hide LineLength;
    ClassesAre();
    var m := LineLength(s);
    assert IsFirstLine(s, m);
  }

  // ------------------------------------------------------------------ links

  /** A link that `](` at the start opens: white space, and from `m` to `e` its destination,
      brackets that close with white space or a parenthesis behind them, or else a word with one
      of these behind it. */
  ghost predicate IsLink(s: Bytes, m: nat, e: nat) {
    2 <= m < e < |s| && s[0] == 93 && s[1] == 40 && (forall j :: 2 <= j < m ==> IsWhite(s[j])) && !IsWhite(s[m])
    && EndsWord(s[e], true)
    && if InBrackets(s, m) then D.IsBracketed(s, m, e - 1) else forall j :: m <= j < e ==> !EndsWord(s[j], true)
  }

  lemma WordIs(s: Bytes, m: nat, e: nat, inline: bool)
    requires m < |s|
    ensures (m < e <= |s| && (forall j :: m <= j < e ==> !EndsWord(s[j], inline)) && (e < |s| ==> EndsWord(s[e], inline)))
       <==> !EndsWord(s[m], inline) && e == WordEnd(s, m, inline)
  {
    hide WordEnd;
    ClassesAre();
    var t := WordEnd(s, m, inline);
  }

  /** Brackets at `m` that close, with white space or a parenthesis behind them. */
  ghost predicate InBrackets(s: Bytes, m: nat) {
    exists k :: 0 <= k < |s| - 1 && D.IsBracketed(s, m, k) && EndsWord(s[k + 1], true)
  }

  lemma BracketsAre(s: Bytes, m: nat)
    requires m < |s|
    ensures InBrackets(s, m) <==> AngleAt(s, m) && StopsAt(s, CloserAt(s, m + 1) + 1)
    ensures forall k :: 0 <= k < |s| ==> (D.IsBracketed(s, m, k) <==> AngleAt(s, m) && k == CloserAt(s, m + 1))
  {
    hide CloserAt, D.IsBracketed;
    ClassesAre();
    forall k | 0 <= k < |s| ensures D.IsBracketed(s, m, k) <==> AngleAt(s, m) && k == CloserAt(s, m + 1) {
      D.BracketIs(s, m, k);
    }
    if AngleAt(s, m) && StopsAt(s, CloserAt(s, m + 1) + 1) {
      assert D.IsBracketed(s, m, CloserAt(s, m + 1));
    }
  }

  lemma LinkEndIs(s: Bytes, m: nat, e: nat)
    requires m < |s|
    ensures m < e < |s| && EndsWord(s[e], true)
            && (if InBrackets(s, m) then D.IsBracketed(s, m, e - 1) else forall j :: m <= j < e ==> !EndsWord(s[j], true))
       <==> m != e && e == LinkEnd(s, m, true)
  {
    hide WordEnd, CloserAt, D.IsBracketed, InBrackets;
    ClassesAre();
    BracketsAre(s, m);
    if !InBrackets(s, m) {
      WordIs(s, m, e, true);
    }
  }

  lemma OpeningIs(s: Bytes, m: nat, e: nat)
    ensures IsLink(s, m, e) <==> Opening(s) == Some(Span(m, e))
  {
    hide LinkEnd, SkipBlank;
    ClassesAre();
    if 2 <= m < |s| && !IsWhite(s[m]) {
      LinkEndIs(s, m, e);
    }
  }

  /** The definition at the start of a line whose destination begins at `m`: at most three of
      white space up to `[` at `k`, and a label up to `]:` at `l`. */
  predicate IsHead(line: Bytes, k: nat, l: nat, m: nat) {
    k <= 3 && k + 1 < l && l + 2 <= m < |line|
    && (forall j :: 0 <= j < k ==> IsWhite(line[j])) && line[k] == 91
    && (forall j :: k < j < l ==> line[j] != 93 && line[j] != 10) && line[l] == 93 && line[l + 1] == 58
    && (forall j :: l + 2 <= j < m ==> IsWhite(line[j])) && !IsWhite(line[m])
  }

  ghost predicate Defines(line: Bytes, m: nat) {
    exists k: nat, l: nat :: IsHead(line, k, l, m)
  }

  lemma HeadIs(line: Bytes, k: nat, l: nat, m: nat)
    requires IsHead(line, k, l, m)
    ensures DefinitionAt(line) == Some(m)
  {
    hide SkipBlank, LabelEnd;
    ClassesAre();
    assert SkipBlank(line, 0) == k;
    assert LabelEnd(line, k + 1) == l;
    assert SkipBlank(line, l + 2) == m;
  }

  lemma DefinesIs(line: Bytes, m: nat)
    ensures Defines(line, m) <==> DefinitionAt(line) == Some(m)
  {
    hide SkipBlank, LabelEnd;
    ClassesAre();
    if k: nat, l: nat :| IsHead(line, k, l, m) {
      HeadIs(line, k, l, m);
    }
    if DefinitionAt(line) == Some(m) {
      var k := SkipBlank(line, 0);
      var l := LabelEnd(line, k + 1);
      assert IsHead(line, k, l, m);
    }
  }

  /** The destination of a definition: brackets that close, or else a word. */
  ghost predicate IsDefined(line: Bytes, m: nat, e: nat) {
    m < e <= |line|
    && if exists k :: 0 <= k < |line| && D.IsBracketed(line, m, k) then D.IsBracketed(line, m, e - 1)
       else (forall j :: m <= j < e ==> !EndsWord(line[j], false)) && (e < |line| ==> EndsWord(line[e], false))
  }

  lemma DefinedIs(line: Bytes, m: nat, e: nat)
    requires m < |line| && !IsWhite(line[m])
    ensures IsDefined(line, m, e) <==> e == LinkEnd(line, m, false)
  {
    hide WordEnd, CloserAt, D.IsBracketed;
    ClassesAre();
    BracketsAre(line, m);
    if !AngleAt(line, m) {
      WordIs(line, m, e, false);
    } else {
      assert D.IsBracketed(line, m, CloserAt(line, m + 1));
    }
  }

  // ---------------------------------------------------------------- one line

  /** No link begins at any of the first `k` bytes. */
  ghost predicate NoLinkBefore(s: Bytes, k: nat)
    requires k <= |s|
  {
    forall j, m, e :: 0 <= j < k ==> !IsLink(s[j..], m, e)
  }

  lemma NotOpened(s: Bytes)
    requires forall m, e :: !IsLink(s, m, e)
    ensures Opening(s) == None
  {
    hide Opening, IsLink;
    if Opening(s).Some? {
      OpeningIs(s, Opening(s).value.start, Opening(s).value.end);
    }
  }

  lemma NoLinkInTail(s: Bytes, k: nat)
    requires 0 < k <= |s| && NoLinkBefore(s, k)
    ensures NoLinkBefore(s[1..], k - 1) && forall m, e :: !IsLink(s, m, e)
  {
    hide IsLink;
    assert s[0..] == s;
    forall j, m, e | 0 <= j < k - 1 ensures !IsLink(s[1..][j..], m, e) {
      assert s[1..][j..] == s[j + 1..];
    }
  }

  /** What comes before the first link stays. */
  lemma {:induction false} UpToLink(s: Bytes, k: nat, f: Mover)
    requires k <= |s| && NoLinkBefore(s, k)
    ensures InlineMoved(s, f) == s[..k] + InlineMoved(s[k..], f)
    decreases k
  {
    hide Opening, IsLink, NoLinkBefore;
    if k == 0 {
      assert s[..0] + InlineMoved(s[0..], f) == InlineMoved(s, f) by { assert s[0..] == s; }
    } else {
      NoLinkInTail(s, k);
      NotOpened(s);
      UpToLink(s[1..], k - 1, f);
      InlineHere(s, f);
      assert s[1..][k - 1..] == s[k..];
      assert [s[0]] + s[1..][..k - 1] == s[..k];
      Associates([s[0]], s[1..][..k - 1], InlineMoved(s[k..], f));
    }
  }

  /** The first link of a line has its destination moved, what comes before it stays, and the
      rest is moved from the end of the destination on. */
  lemma FirstLinkMoved(s: Bytes, k: nat, m: nat, e: nat, f: Mover)
    requires k < |s| && NoLinkBefore(s, k) && IsLink(s[k..], m, e)
    ensures InlineMoved(s, f) == s[..k + m] + f(s[k + m..k + e]) + InlineMoved(s[k + e..], f)
  {
    hide Opening, IsLink, NoLinkBefore, InlineMoved;
    var t := s[k..];
    UpToLink(s, k, f);
    OpeningIs(t, m, e);
    InlineHere(t, f);
    assert t[..m] == s[k..k + m] && t[m..e] == s[k + m..k + e] && t[e..] == s[k + e..];
    assert s[..k] + s[k..k + m] == s[..k + m];
    assert s[..k] + (s[k..k + m] + f(s[k + m..k + e]) + InlineMoved(s[k + e..], f))
        == s[..k] + s[k..k + m] + f(s[k + m..k + e]) + InlineMoved(s[k + e..], f);
  }

  /** A line without links stays, as far as inline destinations go. */
  lemma NoLinkKept(s: Bytes, f: Mover)
    requires NoLinkBefore(s, |s|)
    ensures InlineMoved(s, f) == s
  {
    hide IsLink, NoLinkBefore, InlineMoved;
    UpToLink(s, |s|, f);
    NothingMoved(f);
    assert s[..|s|] + [] == s && s[|s|..] == [];
  }

  /** Then the definition that the line has now has its destination moved. */
  lemma DefinitionIsMoved(line: Bytes, f: Mover, m: nat, e: nat)
    requires Defines(InlineMoved(line, f), m) && IsDefined(InlineMoved(line, f), m, e)
    ensures
      var s := InlineMoved(line, f);
      LineMoved(line, f) == s[..m] + f(s[m..e]) + s[e..]
  {
    hide InlineMoved, LinkEnd, DefinitionAt;
    var s := InlineMoved(line, f);
    DefinesIs(s, m);
    DefinedIs(s, m, e);
  }

  /** Without one, the line stays as it is now. */
  lemma NoDefinitionKept(line: Bytes, f: Mover)
    requires forall m: nat :: !Defines(InlineMoved(line, f), m)
    ensures LineMoved(line, f) == InlineMoved(line, f)
  {
    hide InlineMoved, Defines, LinkEnd, DefinitionAt;
    var s := InlineMoved(line, f);
    if DefinitionAt(s).Some? {
      DefinesIs(s, DefinitionAt(s).value);
    }
  }

  // ------------------------------------------------------------ whole guides

  /** The text begins, behind white space of its first line, with a run of exactly `n` of `b`,
      three or more backticks or tildes. */
  ghost predicate BeginsRun(s: Bytes, b: byte, n: nat) {
    exists j :: 0 <= j <= |s| && IsRun(s, j, b, n)
  }

  predicate IsRun(s: Bytes, j: nat, b: byte, n: nat) {
    (b == 96 || b == 126) && 3 <= n && j + n <= |s|
    && (forall k :: 0 <= k < j ==> IsWhite(s[k]) && !IsLineEnd(s[k]))
    && (forall k :: j <= k < j + n ==> s[k] == b) && (j + n < |s| ==> s[j + n] != b)
  }

  function FirstLine(s: Bytes): Bytes
    requires s != []
  {
    s[..LineLength(s)]
  }

  lemma RunIsMarker(s: Bytes, j: nat, b: byte, n: nat)
    requires s != [] && IsRun(s, j, b, n)
    ensures Marker(FirstLine(s)) == Fence(b, n)
  {
    hide SkipBlank, RunEnd, LineLength;
    ClassesAre();
    var line := FirstLine(s);
    assert |line| >= j + n by {
      assert forall k :: 0 <= k < j + n ==> !EndsLine(s[k]);
    }
    assert line[j] == b && SkipBlank(line, 0) == j;
    assert RunEnd(line, j, b) == j + n;
  }

  lemma MarkerIsRun(s: Bytes)
    requires s != [] && Marker(FirstLine(s)).Fence?
    ensures IsRun(s, SkipBlank(FirstLine(s), 0), Marker(FirstLine(s)).mark, Marker(FirstLine(s)).length)
  {
    hide SkipBlank, RunEnd, LineLength;
    ClassesAre();
    var line := FirstLine(s);
    var j := SkipBlank(line, 0);
    var n := Marker(line).length;
    assert forall k :: 0 <= k < |line| ==> line[k] == s[k];
    assert |line| < |s| ==> EndsLine(line[|line| - 1]);
  }

  lemma MarkerIs(s: Bytes, b: byte, n: nat)
    requires s != []
    ensures Marker(FirstLine(s)) == Fence(b, n) <==> BeginsRun(s, b, n)
  {
    hide Marker, IsRun, FirstLine;
    if Marker(FirstLine(s)) == Fence(b, n) {
      MarkerIsRun(s);
      assert SkipBlank(FirstLine(s), 0) <= |s| by { ShortLine(s); }
    }
    if j :| 0 <= j <= |s| && IsRun(s, j, b, n) {
      RunIsMarker(s, j, b, n);
    }
  }

  lemma ShortLine(s: Bytes)
    requires s != []
    ensures |FirstLine(s)| <= |s|
  {
  }

  lemma PlainIs(s: Bytes)
    requires s != []
    ensures Marker(FirstLine(s)).NoFence? <==> forall b: byte, n: nat :: !BeginsRun(s, b, n)
  {
    hide Marker, BeginsRun, FirstLine;
    var marker := Marker(FirstLine(s));
    forall b: byte, n: nat ensures marker == Fence(b, n) <==> BeginsRun(s, b, n) {
      MarkerIs(s, b, n);
    }
    assert marker.Fence? ==> marker == Fence(marker.mark, marker.length);
  }

  ghost predicate Closes(s: Bytes, b: byte, n: nat) {
    exists m :: n <= m && BeginsRun(s, b, m)
  }

  /** How far a block goes on that `n` of `b` opened: up to the first line that begins with at
      least as many, and with it. */
  ghost function BlockLength(s: Bytes, b: byte, n: nat): (a: nat)
    ensures a <= |s|
    decreases |s|
  {
    if s == [] then 0
    else if Closes(s, b, n) then LineLength(s)
    else LineLength(s) + BlockLength(s[LineLength(s)..], b, n)
  }

  /** What becomes of a text in a fence state. */
  function MovedFrom(s: Bytes, fence: Fence, f: Mover): Bytes {
    Join(LinesMoved(Lines(s), fence, f))
  }

  lemma FirstLineStep(s: Bytes, fence: Fence, f: Mover)
    requires s != []
    ensures
      var marker := Marker(FirstLine(s));
      MovedFrom(s, fence, f)
      == (if marker.NoFence? && fence.NoFence? then LineMoved(FirstLine(s), f) else FirstLine(s))
         + MovedFrom(s[LineLength(s)..], Turn(fence, marker), f)
  {
    hide LineMoved, Marker, Turn, Lines, LinesMoved, Join, LineLength;
    GuideStep([], s, fence, f);
    assert [] + MovedFrom(s, fence, f) == MovedFrom(s, fence, f);
    var now := if Marker(FirstLine(s)).NoFence? && fence.NoFence? then LineMoved(FirstLine(s), f) else FirstLine(s);
    assert [] + now == now;
  }

  /** A line in a block stays, and may end it. */
  lemma LineInBlock(s: Bytes, b: byte, n: nat, f: Mover)
    requires s != []
    ensures MovedFrom(s, Fence(b, n), f)
         == s[..LineLength(s)] + MovedFrom(s[LineLength(s)..], if Closes(s, b, n) then NoFence else Fence(b, n), f)
  {
    hide Marker, BeginsRun, MovedFrom, FirstLine, LineLength;
    var marker := Marker(FirstLine(s));
    FirstLineStep(s, Fence(b, n), f);
    FirstLineText(s);
    if marker.Fence? {
      MarkerIs(s, marker.mark, marker.length);
    }
    forall m | BeginsRun(s, b, m) ensures marker == Fence(b, m) {
      MarkerIs(s, b, m);
    }
  }

  /** In a block everything stays up to its end. */
  lemma {:induction false} BlockStays(s: Bytes, b: byte, n: nat, f: Mover)
    ensures
      var a := BlockLength(s, b, n);
      MovedFrom(s, Fence(b, n), f) == s[..a] + MovedFrom(s[a..], NoFence, f)
    decreases |s|
  {
    hide Closes, MovedFrom, LineLength;
    if s == [] {
      NothingFrom(Fence(b, n), f);
      NothingFrom(NoFence, f);
    } else {
      LineInBlock(s, b, n, f);
      if !Closes(s, b, n) {
        var rest := s[LineLength(s)..];
        BlockStays(rest, b, n, f);
        Further(s, LineLength(s), BlockLength(rest, b, n), f);
      }
    }
  }

  lemma Further(s: Bytes, l: nat, a: nat, f: Mover)
    requires l + a <= |s|
    ensures s[..l] + (s[l..][..a] + MovedFrom(s[l..][a..], NoFence, f)) == s[..l + a] + MovedFrom(s[l + a..], NoFence, f)
  {
    hide MovedFrom;
    assert s[..l] + s[l..][..a] == s[..l + a] && s[l..][a..] == s[l + a..];
    Associates(s[..l], s[l..][..a], MovedFrom(s[l + a..], NoFence, f));
  }

  lemma FirstLineText(s: Bytes)
    requires s != []
    ensures FirstLine(s) == s[..LineLength(s)]
  {
  }

  lemma NothingFrom(fence: Fence, f: Mover)
    ensures MovedFrom([], fence, f) == []
  {
    NoLines(fence, f);
  }

  /** A guide that begins with a fence keeps everything from there up to the first later line
      that begins with at least as many of the same byte, and that line; then it goes on outside. */
  lemma FencedBlockStays(s: Bytes, b: byte, n: nat, f: Mover)
    requires s != [] && BeginsRun(s, b, n)
    ensures
      var a := LineLength(s) + BlockLength(s[LineLength(s)..], b, n);
      GuideMoved(s, f) == s[..a] + GuideMoved(s[a..], f)
  {
    hide Marker, BeginsRun, Lines, LinesMoved, Join, FirstLine, LineLength, BlockLength;
    var l := LineLength(s);
    var rest := s[l..];
    MarkerIs(s, b, n);
    FirstLineStep(s, NoFence, f);
    FirstLineText(s);
    BlockStays(rest, b, n, f);
    Further(s, l, BlockLength(rest, b, n), f);
  }

  /** A guide that begins with any other line has its links moved, and goes on outside. */
  lemma PlainLineIsMoved(s: Bytes, f: Mover)
    requires s != [] && forall b: byte, n: nat :: !BeginsRun(s, b, n)
    ensures GuideMoved(s, f) == LineMoved(s[..LineLength(s)], f) + GuideMoved(s[LineLength(s)..], f)
  {
    hide Marker, BeginsRun, Lines, LinesMoved, Join, FirstLine, LineLength, LineMoved;
    PlainIs(s);
    FirstLineStep(s, NoFence, f);
    FirstLineText(s);
  }

  lemma NothingToMove(f: Mover)
    ensures GuideMoved([], f) == []
  {
    NoLines(NoFence, f);
  }

  // ---------------------------------------------------------------- example

  /** A link between two lines of three fence bytes, alone. */
  function FencedGuide(b: byte): Bytes {
    [b, b, b, 10, 91, 97, 93, 40, 98, 41, 10, b, b, b, 10]
  }

  /** In a block of either kind the link stays as it is. */
  lemma FencedGuideStays(b: byte, f: Mover)
    requires b == 96 || b == 126
    ensures GuideMoved(FencedGuide(b), f) == FencedGuide(b)
  {
    hide GuideMoved, LineLength, IsLineEnd;
    var s := FencedGuide(b);
    FencedGuideLines(b);
    FencedBlockStays(s, b, 3, f);
    NothingToMove(f);
    assert s[..15] + [] == s && s[15..] == [];
  }

  lemma FencedGuideLines(b: byte)
    requires b == 96 || b == 126
    ensures
      var s := FencedGuide(b);
      BeginsRun(s, b, 3) && LineLength(s) == 4 && BlockLength(s[4..], b, 3) == 11
  {
    hide LineLength, FencedGuide, BeginsRun;
    var s := FencedGuide(b);
    FencedGuideEnds(b);
    FencedGuideRuns(b);
    assert !Closes(s[4..], b, 3) && Closes(s[11..], b, 3);
    assert s[4..][7..] == s[11..];
  }

  lemma FencedGuideEnds(b: byte)
    requires b == 96 || b == 126
    ensures
      var s := FencedGuide(b);
      |s| == 15 && LineLength(s) == 4 && LineLength(s[4..]) == 7 && LineLength(s[11..]) == 4
  {
    hide LineLength, IsLineEnd;
    var s := FencedGuide(b);
    NoLineEnds(b);
    LineOf(s, 0, 4);
    LineOf(s, 4, 7);
    LineOf(s, 11, 4);
    assert s[0..] == s;
  }

  lemma NoLineEnds(b: byte)
    requires b == 96 || b == 126
    ensures IsLineEnd(10) && !IsLineEnd(b) && forall c: byte :: c in {91, 97, 93, 40, 98, 41} ==> !IsLineEnd(c)
  {
  }

  /** A line in the middle of a text. */
  lemma LineOf(s: Bytes, i: nat, n: nat)
    requires n > 0 && i + n <= |s| && IsLineEnd(s[i + n - 1]) && forall j :: i <= j < i + n - 1 ==> !IsLineEnd(s[j])
    ensures LineLength(s[i..]) == n
  {
    hide LineLength, IsLineEnd;
    var t := s[i..];
    assert forall j :: 0 <= j < n ==> t[j] == s[i + j];
    FirstLineIs(t, n);
  }

  lemma FencedGuideRuns(b: byte)
    requires b == 96 || b == 126
    ensures
      var s := FencedGuide(b);
      |s| == 15 && BeginsRun(s, b, 3) && (forall m :: !BeginsRun(s[4..], b, m)) && BeginsRun(s[11..], b, 3)
  {
    var s := FencedGuide(b);
    assert IsRun(s, 0, b, 3) && IsRun(s[11..], 0, b, 3);
    assert s[4..][0] == 91;
  }
}
