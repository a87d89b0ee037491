/** What readers of a relocated guide find: the same lines under the same fences, and the moved
    destinations. */
module GuideLaws {
  import opened ByteStrings
  import opened MarkdownScan
  import opened Texts
  import opened GuideRewriting

  // ------------------------------------------------------- careful moving

  predicate IsNameByte(b: byte) {
    IsLetter(b) || IsDigit(b) || b == DASH || b == DOT || b == SLASH || b == UNDERSCORE
  }

  /** A destination in brackets, with something inside. */
  predicate Bracketed(t: Bytes) {
    |t| >= 3 && t[0] == LESS && t[|t| - 1] == GREATER
    && forall k :: 0 <= k < |t| - 1 ==> t[k] != GREATER && t[k] != NEWLINE
  }

  /** What may become of a destination: something, made of its own bytes and those of directory
      names, in brackets if it was, and with new brackets only if it began with one. */
  ghost predicate Fits(t: Bytes, r: Bytes) {
    r != [] && (Bracketed(t) ==> Bracketed(r))
    && forall k :: 0 <= k < |r| ==>
         r[k] in t || IsNameByte(r[k]) || (t != [] && t[0] == LESS && (r[k] == LESS || r[k] == GREATER))
  }

  ghost predicate Careful(f: Mover) {
    forall t :: t != [] ==> Fits(t, f(t))
  }

  lemma FitKeeps(t: Bytes, r: Bytes)
    requires Fits(t, r)
    ensures (forall k :: 0 <= k < |t| ==> !EndsLine(t[k])) ==> forall k :: 0 <= k < |r| ==> !EndsLine(r[k])
    ensures (forall k :: 0 <= k < |t| ==> !Stops(t[k], true)) ==> forall k :: 0 <= k < |r| ==> !Stops(r[k], true)
  {
  }

  // ------------------------------------------------------------- one line

  /** Up to its first `]` a line stays as it is, and what follows is moved on its own. */
  lemma {:induction false} CommonStart(s: Bytes, f: Mover, p: nat)
    requires p <= |s| && forall k :: 0 <= k < p ==> s[k] != RBRACKET
    ensures InlineMoved(s, f) == s[..p] + InlineMoved(s[p..], f)
    decreases p
  {
    if p == 0 {
      assert s[..0] == [] && s[0..] == s;
      Joined([], InlineMoved(s, f));
    } else {
      CommonStart(s[1..], f, p - 1);
      assert s[1..][p - 1..] == s[p..];
      assert s[..p] == [s[0]] + s[1..][..p - 1];
      Associates([s[0]], s[1..][..p - 1], InlineMoved(s[p..], f));
    }
  }

  lemma CommonFront(a: Bytes, b: Bytes, f: Mover)
    requires RBRACKET !in a
    ensures InlineMoved(a + b, f) == a + InlineMoved(b, f)
  {
    hide InlineMoved;
    CommonStart(a + b, f, |a|);
    assert (a + b)[..|a|] == a && (a + b)[|a|..] == b;
  }

  lemma FirstKept(s: Bytes, f: Mover)
    ensures s == [] ==> InlineMoved(s, f) == []
    ensures s != [] ==> InlineMoved(s, f) != [] && InlineMoved(s, f)[0] == s[0]
  {
    hide Opening;
  }

  lemma SameUpTo(s: Bytes, f: Mover, p: nat)
    requires p <= |s| && forall k :: 0 <= k < p ==> s[k] != RBRACKET
    ensures
      var now := InlineMoved(s, f);
      now == s[..p] + InlineMoved(s[p..], f) && p <= |now| && (|now| == p <==> |s| == p)
      && (forall k :: 0 <= k < p ==> now[k] == s[k]) && (p < |s| ==> now[p] == s[p])
  {
    hide InlineMoved;
    CommonStart(s, f, p);
    FirstKept(s[p..], f);
    assert forall k :: 0 <= k < p ==> (s[..p] + InlineMoved(s[p..], f))[k] == s[k];
  }

  /** The fence marker of a line is not changed by moving its inline destinations. */
  lemma InlineMarker(s: Bytes, f: Mover)
    ensures Marker(InlineMoved(s, f)) == Marker(s)
  {
    hide InlineMoved, SkipBlank, RunEnd;
    var k := SkipBlank(s, 0);
    SameUpTo(s, f, k);
    assert SkipBlank(InlineMoved(s, f), 0) == k;
    if k < |s| && s[k] != RBRACKET {
      var e := RunEnd(s, k, s[k]);
      SameUpTo(s, f, e);
      assert RunEnd(InlineMoved(s, f), k, s[k]) == e;
    }
  }

  lemma DefinitionMarker(s: Bytes, f: Mover)
    ensures Marker(DefinitionMoved(s, f)) == Marker(s)
  {
    hide LinkEnd;
    match DefinitionAt(s) {
      case None =>
      case Some(m) =>
        var k, now := SkipBlank(s, 0), DefinitionMoved(s, f);
        assert forall j :: 0 <= j <= k ==> now[j] == s[j];
        assert s[k] == LBRACKET && SkipBlank(now, 0) == k;
    }
  }

  lemma MarkerKept(s: Bytes, f: Mover)
    ensures Marker(LineMoved(s, f)) == Marker(s)
  {
    hide Marker, InlineMoved, DefinitionMoved;
    InlineMarker(s, f);
    DefinitionMarker(InlineMoved(s, f), f);
  }

  /** Only the last byte of a line can end it. */
  predicate IsLine(s: Bytes) {
    s != [] && forall j :: 0 <= j < |s| - 1 ==> !EndsLine(s[j])
  }

  predicate IsEnded(s: Bytes) {
    s != [] && EndsLine(s[|s| - 1])
  }

  lemma {:induction false} InlineLine(s: Bytes, f: Mover)
    requires IsLine(s) && Careful(f)
    ensures IsLine(InlineMoved(s, f)) && IsEnded(InlineMoved(s, f)) == IsEnded(s)
    decreases |s|
  {
    hide Opening, InlineMoved, Fits, EndsLine;
    InlineHere(s, f);
    match Opening(s) {
      case None =>
        if |s| > 1 {
          InlineLine(s[1..], f);
          Joined([s[0]], []);
          Spliced([s[0]], [], InlineMoved(s[1..], f));
        } else {
          assert s[1..] == [] && [s[0]] == s;
          NothingMoved(f);
        }
      case Some(o) =>
        InlineLine(s[o.end..], f);
        var t := s[o.start..o.end];
        FitKeeps(t, f(t));
        Spliced(s[..o.start], f(t), InlineMoved(s[o.end..], f));
    }
  }

  lemma Spliced(a: Bytes, b: Bytes, c: Bytes)
    requires forall j :: 0 <= j < |a| ==> !EndsLine(a[j])
    requires forall j :: 0 <= j < |b| ==> !EndsLine(b[j])
    ensures IsLine(c) ==> IsLine(a + b + c) && IsEnded(a + b + c) == IsEnded(c)
    ensures c == [] && a + b != [] ==> IsLine(a + b + c) && !IsEnded(a + b + c)
  {
    hide EndsLine;
    var s := a + b + c;
    assert forall j :: 0 <= j < |a| ==> s[j] == a[j];
    assert forall j :: 0 <= j < |b| ==> s[|a| + j] == b[j];
    assert forall j :: 0 <= j < |c| ==> s[|a| + |b| + j] == c[j];
  }

  lemma DefinitionLine(s: Bytes, f: Mover)
    requires IsLine(s) && Careful(f)
    ensures IsLine(DefinitionMoved(s, f)) && IsEnded(DefinitionMoved(s, f)) == IsEnded(s)
  {
    hide Fits, LinkEnd, DefinitionAt, IsLine, IsEnded, EndsLine;
    match DefinitionAt(s) {
      case None =>
      case Some(m) =>
        var e := LinkEnd(s, m, false);
        DefinitionEnds(s, m);
        PartsOfLine(s, m, e);
        var t := s[m..e];
        FitKeeps(t, f(t));
        Spliced(s[..m], f(t), s[e..]);
    }
  }

  lemma PartsOfLine(s: Bytes, m: nat, e: nat)
    requires IsLine(s) && m < e <= |s| && !EndsLine(s[e - 1])
    ensures forall j :: 0 <= j < m ==> !EndsLine(s[..m][j])
    ensures forall j :: 0 <= j < e - m ==> !EndsLine(s[m..e][j])
    ensures if e == |s| then !IsEnded(s) && s[e..] == [] else IsLine(s[e..]) && IsEnded(s[e..]) == IsEnded(s)
  {
    hide EndsLine;
  }

  /** A definition's destination is not empty and does not end the line. */
  lemma DefinitionEnds(s: Bytes, m: nat)
    requires m < |s| && !IsBlank(s[m])
    ensures LinkEnd(s, m, false) > m && !EndsLine(s[LinkEnd(s, m, false) - 1])
  {
  }

  lemma LineKept(s: Bytes, f: Mover)
    requires IsLine(s) && Careful(f)
    ensures IsLine(LineMoved(s, f)) && IsEnded(LineMoved(s, f)) == IsEnded(s)
  {
    hide IsLine, Careful, InlineMoved, DefinitionMoved;
    InlineLine(s, f);
    DefinitionLine(InlineMoved(s, f), f);
  }

  // ------------------------------------------------------------ all lines

  /** Lines as a text has them: all but the last are ended. */
  predicate AreLines(lines: seq<Bytes>) {
    forall k :: 0 <= k < |lines| ==> IsLine(lines[k]) && (k + 1 < |lines| ==> IsEnded(lines[k]))
  }

  lemma {:induction false} LinesOfText(text: Bytes)
    ensures AreLines(Lines(text)) && Join(Lines(text)) == text
    decreases |text|
  {
    hide AreLines, LineLength, IsLine, IsEnded;
    if text == [] {
      NoLinesYet();
    } else {
      var n := LineLength(text);
      LinesOfText(text[n..]);
      CutLine(text);
      assert text == text[..n] + text[n..];
      assert Lines(text)[0] == text[..n] && Lines(text)[1..] == Lines(text[n..]);
      LineBefore(text[..n], Lines(text[n..]));
    }
  }

  lemma CutLine(text: Bytes)
    requires text != []
    ensures IsLine(text[..LineLength(text)])
    ensures text[LineLength(text)..] != [] ==> IsEnded(text[..LineLength(text)])
  {
    hide LineLength, EndsLine;
  }

  lemma NoLinesYet()
    ensures AreLines([])
  {
  }

  lemma LineBefore(line: Bytes, lines: seq<Bytes>)
    requires AreLines(lines) && IsLine(line) && (lines != [] ==> IsEnded(line))
    ensures AreLines([line] + lines)
  {
    hide IsLine, IsEnded;
  }

  lemma LineEnds(line: Bytes, rest: Bytes)
    requires IsLine(line) && (rest != [] ==> IsEnded(line))
    ensures LineLength(line + rest) == |line|
  {
    hide LineLength;
    var text := line + rest;
    assert forall j :: 0 <= j < |line| ==> text[j] == line[j];
  }

  lemma {:induction false} LinesOfJoin(lines: seq<Bytes>)
    requires AreLines(lines)
    ensures Lines(Join(lines)) == lines
    decreases |lines|
  {
    hide AreLines, IsLine, IsEnded, LineLength;
    if lines != [] {
      var line, rest := lines[0], Join(lines[1..]);
      FirstLine(lines);
      LinesOfJoin(lines[1..]);
      assert rest != [] ==> |lines| > 1;
      LineEnds(line, rest);
      assert line != [] by { LineIsText(line); }
      assert (line + rest)[..|line|] == line && (line + rest)[|line|..] == rest;
    }
  }

  lemma LineIsText(line: Bytes)
    requires IsLine(line)
    ensures line != []
  {
  }

  /** The fence states before the lines. */
  function States(lines: seq<Bytes>, fence: Fence): (states: seq<Fence>)
    ensures |states| == |lines|
  {
    if lines == [] then [] else [fence] + States(lines[1..], Turn(fence, Marker(lines[0])))
  }

  /** Whether a line is part of an example: fenced, or a marker. */
  predicate IsExample(line: Bytes, state: Fence) {
    state.Fence? || Marker(line).Fence?
  }

  /** Lines outside examples are moved, the others kept. */
  predicate OnlyMoved(was: seq<Bytes>, now: seq<Bytes>, states: seq<Fence>, f: Mover) {
    |now| == |was| == |states|
    && forall k :: 0 <= k < |was| ==> now[k] == if IsExample(was[k], states[k]) then was[k] else LineMoved(was[k], f)
  }

  lemma MovedBefore(line: Bytes, was: seq<Bytes>, now: seq<Bytes>, state: Fence, states: seq<Fence>, f: Mover)
    requires OnlyMoved(was, now, states, f)
    ensures OnlyMoved([line] + was, [if IsExample(line, state) then line else LineMoved(line, f)] + now, [state] + states, f)
  {
    hide IsExample, LineMoved;
  }

  lemma {:induction false} MovedLines(lines: seq<Bytes>, fence: Fence, f: Mover)
    requires AreLines(lines) && Careful(f)
    ensures
      var now := LinesMoved(lines, fence, f);
      AreLines(now) && States(now, fence) == States(lines, fence)
      && OnlyMoved(lines, now, States(lines, fence), f)
    decreases |lines|
  {
    hide AreLines, IsLine, IsEnded, LineMoved, Marker, Careful, Turn, OnlyMoved;
    if lines == [] {
      NoneMoved(f);
    } else {
      var line, rest, after := lines[0], lines[1..], Turn(fence, Marker(lines[0]));
      FirstLine(lines);
      MovedLines(rest, after, f);
      LineKept(line, f);
      MarkerKept(line, f);
      var moved := if IsExample(line, fence) then line else LineMoved(line, f);
      var now := LinesMoved(rest, after, f);
      assert lines == [line] + rest && LinesMoved(lines, fence, f) == [moved] + now;
      assert ([moved] + now)[0] == moved && ([moved] + now)[1..] == now;
      LineBefore(moved, now);
      MovedBefore(line, rest, now, fence, States(rest, after), f);
    }
  }

  lemma NoneMoved(f: Mover)
    ensures OnlyMoved([], [], [], f) && AreLines([])
  {
  }

  lemma FirstLine(lines: seq<Bytes>)
    requires AreLines(lines) && lines != []
    ensures IsLine(lines[0]) && AreLines(lines[1..]) && (lines[1..] != [] ==> IsEnded(lines[0]))
  {
    hide IsLine, IsEnded;
    assert forall k :: 0 <= k < |lines[1..]| ==> lines[1..][k] == lines[k + 1];
  }

  /** A relocated guide has as many lines, with the same fence states; fenced lines and markers
      are as they were, and every other line has its destinations moved. */
  lemma GuideKeepsLines(text: Bytes, f: Mover)
    requires Careful(f)
    ensures
      var was, now := Lines(text), Lines(GuideMoved(text, f));
      States(now, NoFence) == States(was, NoFence) && OnlyMoved(was, now, States(was, NoFence), f)
  {
    hide AreLines, LinesMoved, Lines, Join, States, Careful, OnlyMoved;
    LinesOfText(text);
    MovedLines(Lines(text), NoFence, f);
    LinesOfJoin(LinesMoved(Lines(text), NoFence, f));
  }

  // ------------------------------------------------ destinations found again

  /** The inline destinations of a line, as the rewriting finds them. */
  function InlineTargets(s: Bytes): seq<Bytes>
    decreases |s|
  {
    if s == [] then []
    else
      match Opening(s)
      case None => InlineTargets(s[1..])
      case Some(o) => [s[o.start..o.end]] + InlineTargets(s[o.end..])
  }

  /** A bracket before `rest` is closed in it, with a byte behind it that stops a destination. */
  predicate Closes(rest: Bytes) {
    var c := CloserAt(rest, 0);
    c < |rest| && rest[c] == GREATER && StopsAt(rest, c + 1)
  }

  /** A moved destination that opens a bracket without closing it, where the rest of the line
      does. */
  predicate Caught(t: Bytes, rest: Bytes) {
    t != [] && t[0] == LESS && GREATER !in t && Closes(rest)
  }

  /** No moved destination of the line is caught. */
  predicate NoneCaught(s: Bytes, f: Mover)
    decreases |s|
  {
    s == []
    || match Opening(s)
       case None => NoneCaught(s[1..], f)
       case Some(o) => !Caught(f(s[o.start..o.end]), InlineMoved(s[o.end..], f)) && NoneCaught(s[o.end..], f)
  }

  /** Nothing opens in text without a byte that stops a destination. */
  lemma {:induction false} NothingOpens(s: Bytes, f: Mover)
    requires forall k :: 0 <= k < |s| ==> !Stops(s[k], true)
    ensures InlineMoved(s, f) == s
    decreases |s|
  {
    if s != [] {
      assert Opening(s).None?;
      NothingOpens(s[1..], f);
      assert s == [s[0]] + s[1..];
    }
  }

  /** Where nothing opened, nothing opens when the rest of the line is moved. */
  lemma StillShut(s: Bytes, f: Mover)
    requires s != [] && Opening(s).None?
    ensures Opening([s[0]] + InlineMoved(s[1..], f)).None?
  {
    hide InlineMoved;
    var now := [s[0]] + InlineMoved(s[1..], f);
    FirstKept(s[1..], f);
    if |s| >= 2 && s[0] == RBRACKET && s[1] == LPAREN {
      var m := SkipBlank(s, 2);
      CommonStart(s[1..], f, m - 1);
      FirstKept(s[m..], f);
      assert s[1..][m - 1..] == s[m..] && s[1..][..m - 1] == s[1..m];
      assert now == s[..m] + InlineMoved(s[m..], f);
      SameBlanks(s, now, m);
      if m < |s| && s[m] != RPAREN {
        NothingOpens(s[m..], f);
        assert now == s;
      } else {
        ShutAt(now, m);
      }
    }
  }

  lemma SameBlanks(s: Bytes, now: Bytes, m: nat)
    requires 2 <= m <= |s| && SkipBlank(s, 2) == m && m <= |now| && now[..m] == s[..m]
    requires if m == |s| then |now| == m else m < |now| && now[m] == s[m]
    ensures SkipBlank(now, 2) == m
  {
    hide SkipBlank;
    assert forall k :: 0 <= k < m ==> now[k] == now[..m][k] == s[k];
  }

  lemma ShutAt(s: Bytes, m: nat)
    requires 2 <= m <= |s| && SkipBlank(s, 2) == m
    requires m < |s| ==> s[m] == RPAREN
    ensures Opening(s).None?
  {
  }

  /** An opening destination that has been moved is found again, unless it is caught; then more
      is found. */
  lemma OpensAgain(s: Bytes, t: Bytes, rest: Bytes, m: nat)
    requires 2 <= m == |s| && s[0] == RBRACKET && s[1] == LPAREN && SkipBlank(s, 2) == m
    requires StopsAt(rest, 0) && t != [] && !IsBlank(t[0])
    requires Bracketed(t) || forall k :: 0 <= k < |t| ==> !Stops(t[k], true)
    ensures
      var o := Opening(s + t + rest);
      o.Some? && o.value.start == m && o.value.end >= m + |t| && (o.value.end == m + |t| <==> !Caught(t, rest))
  {
    hide SkipBlank, LinkEnd, Caught, Bracketed;
    var now := s + t + rest;
    assert now[..m] == s && now[m..m + |t|] == t && now[m + |t|..] == rest;
    assert now[0] == now[..m][0] && now[1] == now[..m][1];
    BlanksBefore(s, now, m);
    LinkAgain(t, rest, now, m);
  }

  lemma BlanksBefore(s: Bytes, now: Bytes, m: nat)
    requires 2 <= m == |s| < |now| && now[..m] == s && SkipBlank(s, 2) == m && !IsBlank(now[m])
    ensures SkipBlank(now, 2) == m
  {
    hide SkipBlank;
    assert forall k :: 0 <= k < m ==> now[k] == now[..m][k] == s[k];
  }

  lemma LinkAgain(t: Bytes, rest: Bytes, now: Bytes, m: nat)
    requires t != [] && StopsAt(rest, 0) && m + |t| <= |now| && now[m..m + |t|] == t && now[m + |t|..] == rest
    requires Bracketed(t) || forall k :: 0 <= k < |t| ==> !Stops(t[k], true)
    ensures
      var e := LinkEnd(now, m, true);
      e >= m + |t| && (e == m + |t| <==> !Caught(t, rest))
  {
    hide CloserAt, WordEnd;
    var e := m + |t|;
    assert now[e] == now[e..][0];
    if Bracketed(t) {
      BracketsClose(t, now, m);
    } else {
      assert forall j :: m <= j < e ==> now[j] == now[m..e][j - m];
      assert WordEnd(now, m, true) == e;
      if GREATER in t {
        ClosesInside(t, now, m);
      } else {
        ClosesBehind(t, rest, now, m);
      }
    }
  }

  lemma BracketsClose(t: Bytes, now: Bytes, m: nat)
    requires Bracketed(t) && m + |t| <= |now| && now[m..m + |t|] == t
    ensures CloserAt(now, m + 1) == m + |t| - 1 && AngleAt(now, m) && GREATER in t
  {
    hide CloserAt;
    var e := m + |t|;
    assert forall j :: m <= j < e ==> now[j] == now[m..e][j - m];
    assert t[|t| - 1] == GREATER;
  }

  /** Brackets that close inside a word are followed by more of the word, or its end. */
  lemma ClosesInside(t: Bytes, now: Bytes, m: nat)
    requires GREATER in t && m + |t| <= |now| && now[m..m + |t|] == t
    requires forall k :: 0 <= k < |t| ==> !Stops(t[k], true)
    ensures AngleAt(now, m) && StopsAt(now, CloserAt(now, m + 1) + 1) ==> CloserAt(now, m + 1) + 1 == m + |t|
  {
    hide CloserAt;
    var c, e := CloserAt(now, m + 1), m + |t|;
    var k :| 0 <= k < |t| && t[k] == GREATER;
    assert now[m + k] == now[m..e][k];
    if AngleAt(now, m) {
      assert k > 0;
      assert c <= m + k;
      assert c + 1 < e ==> now[c + 1] == now[m..e][c + 1 - m];
    }
  }

  lemma ClosesBehind(t: Bytes, rest: Bytes, now: Bytes, m: nat)
    requires t != [] && StopsAt(rest, 0) && m + |t| <= |now| && now[m..m + |t|] == t && now[m + |t|..] == rest
    requires GREATER !in t && forall k :: 0 <= k < |t| ==> !Stops(t[k], true)
    ensures
      var c := CloserAt(now, m + 1);
      c >= m + |t| && (AngleAt(now, m) && StopsAt(now, c + 1) <==> Caught(t, rest))
  {
    hide CloserAt;
    var c, d, e := CloserAt(now, m + 1), CloserAt(rest, 0), m + |t|;
    NewlineStops(t);
    assert forall j :: m <= j < e ==> now[j] == now[m..e][j - m];
    assert forall j :: e <= j < |now| ==> now[j] == now[e..][j - e];
    assert |now| == e + |rest|;
    assert forall j :: e <= j < e + d ==> now[j] != GREATER && now[j] != NEWLINE;
    assert d < |rest| ==> now[e + d] == rest[d];
    assert c == e + d;
    assert rest[0] != GREATER;
    assert d + 1 < |rest| ==> now[e + d + 1] == rest[d + 1];
    assert now[m] == t[0];
  }

  lemma NewlineStops(t: Bytes)
    requires forall k :: 0 <= k < |t| ==> !Stops(t[k], true)
    ensures NEWLINE !in t
  {
  }

  /** Read again, a line whose inline destinations were moved has exactly the moved
      destinations, if and only if none of them is caught. */
  lemma {:induction false} InlineTargetsMoved(s: Bytes, f: Mover)
    requires Careful(f)
    ensures InlineTargets(InlineMoved(s, f)) == Map(f, InlineTargets(s)) <==> NoneCaught(s, f)
    decreases |s|
  {
    hide Opening, Fits, Caught;
    if s != [] {
      match Opening(s) {
        case None =>
          InlineTargetsMoved(s[1..], f);
          StillShut(s, f);
          var now := InlineMoved(s, f);
          assert now[1..] == InlineMoved(s[1..], f);
        case Some(o) =>
          InlineTargetsMoved(s[o.end..], f);
          MovedOpening(s, f);
          FoundAgain(s, f, o);
      }
    }
  }

  lemma MovedOpening(s: Bytes, f: Mover)
    requires Careful(f) && Opening(s).Some?
    ensures
      var o := Opening(s).value;
      var t, rest := f(s[o.start..o.end]), InlineMoved(s[o.end..], f);
      var again := Opening(s[..o.start] + t + rest);
      again.Some? && again.value.start == o.start && again.value.end >= o.start + |t|
      && (again.value.end == o.start + |t| <==> !Caught(t, rest))
  {
    hide InlineMoved, Caught, Fits;
    var o := Opening(s).value;
    var t, rest := s[o.start..o.end], InlineMoved(s[o.end..], f);
    OpenedText(s);
    FirstKept(s[o.end..], f);
    FitOpens(t, f(t));
    assert SkipBlank(s[..o.start], 2) == o.start;
    OpensAgain(s[..o.start], f(t), rest, o.start);
  }

  /** An inline destination is in brackets, or a word; a byte that stops it follows. */
  lemma OpenedText(s: Bytes)
    requires Opening(s).Some?
    ensures
      var o := Opening(s).value;
      var t := s[o.start..o.end];
      SkipBlank(s, 2) == o.start && s[1] == LPAREN && StopsAt(s, o.end) && !IsBlank(t[0])
      && (Bracketed(t) || forall k :: 0 <= k < |t| ==> !Stops(t[k], true))
  {
    hide LinkEnd, SkipBlank;
    var o := Opening(s).value;
    LinkedText(s, o.start);
  }

  lemma LinkedText(s: Bytes, m: nat)
    requires m < |s| && m < LinkEnd(s, m, true) && !IsBlank(s[m])
    ensures
      var e := LinkEnd(s, m, true);
      var t := s[m..e];
      StopsAt(s, e) && !IsBlank(t[0]) && (Bracketed(t) || forall k :: 0 <= k < |t| ==> !Stops(t[k], true))
  {
    hide CloserAt, WordEnd;
  }

  lemma FitOpens(t: Bytes, r: Bytes)
    requires Fits(t, r) && t != []
    requires Bracketed(t) || forall k :: 0 <= k < |t| ==> !Stops(t[k], true)
    ensures r != [] && !IsBlank(r[0])
    ensures Bracketed(r) || forall k :: 0 <= k < |r| ==> !Stops(r[k], true)
  {
  }

  lemma FoundAgain(s: Bytes, f: Mover, o: Span)
    requires Opening(s) == Some(o)
    requires
      var t, rest := f(s[o.start..o.end]), InlineMoved(s[o.end..], f);
      var again := Opening(s[..o.start] + t + rest);
      again.Some? && again.value.start == o.start && again.value.end >= o.start + |t|
      && (again.value.end == o.start + |t| <==> !Caught(t, rest))
    requires InlineTargets(InlineMoved(s[o.end..], f)) == Map(f, InlineTargets(s[o.end..])) <==> NoneCaught(s[o.end..], f)
    ensures InlineTargets(InlineMoved(s, f)) == Map(f, InlineTargets(s)) <==> NoneCaught(s, f)
  {
    hide Opening, Caught, InlineMoved, InlineTargets, NoneCaught, Map;
    var head, t, rest := s[..o.start], f(s[o.start..o.end]), InlineMoved(s[o.end..], f);
    var now := head + t + rest;
    var e := Opening(now).value.end;
    InlineHere(s, f);
    TargetHere(s, o);
    TargetHere(now, Span(o.start, e));
    CaughtHere(s, f, o);
    MapHere(f, s[o.start..o.end], InlineTargets(s[o.end..]));
    FirstsAndRests(now[o.start..e], InlineTargets(now[e..]), t, Map(f, InlineTargets(s[o.end..])));
    if e == o.start + |t| {
      assert now[o.start..e] == t && now[e..] == rest;
    } else {
      assert |now[o.start..e]| > |t|;
    }
  }

  lemma TargetHere(s: Bytes, o: Span)
    requires Opening(s) == Some(o)
    ensures InlineTargets(s) == [s[o.start..o.end]] + InlineTargets(s[o.end..])
  {
    hide Opening;
  }

  lemma CaughtHere(s: Bytes, f: Mover, o: Span)
    requires Opening(s) == Some(o)
    ensures NoneCaught(s, f) <==>
            !Caught(f(s[o.start..o.end]), InlineMoved(s[o.end..], f)) && NoneCaught(s[o.end..], f)
  {
    hide Opening, Caught, InlineMoved;
  }

  lemma MapHere(f: Mover, t: Bytes, rest: seq<Bytes>)
    ensures Map(f, [t] + rest) == [f(t)] + Map(f, rest)
  {
  }

  lemma TailTargets(tail: Bytes)
    requires RBRACKET !in tail
    ensures InlineTargets(tail) == []
    decreases |tail|
  {
    if tail != [] {
      TailTargets(tail[1..]);
    }
  }

  lemma {:induction false} TargetsBefore(s: Bytes, p: nat)
    requires p <= |s| && forall k :: 0 <= k < p ==> s[k] != RBRACKET
    ensures InlineTargets(s) == InlineTargets(s[p..])
    decreases p
  {
    if p > 0 {
      TargetsBefore(s[1..], p - 1);
      assert s[1..][p - 1..] == s[p..];
    } else {
      assert s[0..] == s;
    }
  }

  // ------------------------------------------------ lines and definitions

  /** Moving inline destinations makes no line a definition. */
  lemma StillNoDefinition(s: Bytes, f: Mover)
    requires DefinitionAt(s).None?
    ensures DefinitionAt(InlineMoved(s, f)).None?
  {
    hide InlineMoved, SkipBlank, LabelEnd;
    var now, k := InlineMoved(s, f), SkipBlank(s, 0);
    BlanksKept(s, f);
    if k <= 3 && k < |s| && s[k] == LBRACKET {
      var l := LabelEnd(s, k + 1);
      LabelKept(s, f, k);
      if l + 1 < |s| && s[l] == RBRACKET && s[l + 1] == COLON && l > k + 1 {
        NothingBehindColon(s, f, l);
      }
    }
  }

  lemma BlanksKept(s: Bytes, f: Mover)
    ensures
      var now, k := InlineMoved(s, f), SkipBlank(s, 0);
      SkipBlank(now, 0) == k && (k < |s| <==> k < |now|) && (k < |s| ==> now[k] == s[k])
  {
    hide InlineMoved, SkipBlank;
    SameUpTo(s, f, SkipBlank(s, 0));
  }

  /** The label of a definition, and what follows it, are kept. */
  lemma LabelKept(s: Bytes, f: Mover, k: nat)
    requires k < |s| && s[k] == LBRACKET && forall j :: 0 <= j < k ==> s[j] != RBRACKET
    ensures
      var now, l := InlineMoved(s, f), LabelEnd(s, k + 1);
      k < |now| && LabelEnd(now, k + 1) == l && (l < |s| <==> l < |now|) && (l < |s| ==> now[l] == s[l])
      && (l < |s| && s[l] == RBRACKET ==> (l + 1 < |s| <==> l + 1 < |now|) && (l + 1 < |s| ==> now[l + 1] == s[l + 1]))
  {
    hide InlineMoved, LabelEnd;
    var l := LabelEnd(s, k + 1);
    SameUpTo(s, f, l);
    NextKept(s[l..], f);
  }

  /** The byte behind the first one stays, too. */
  lemma NextKept(s: Bytes, f: Mover)
    ensures |InlineMoved(s, f)| == 1 <==> |s| == 1
    ensures |s| > 1 ==> |InlineMoved(s, f)| > 1 && InlineMoved(s, f)[1] == s[1]
  {
    hide InlineMoved, Opening;
    if s == [] {
      NothingMoved(f);
    } else {
      InlineHere(s, f);
      FirstKept(s[1..], f);
    }
  }

  lemma NothingBehindColon(s: Bytes, f: Mover, l: nat)
    requires l + 1 < |s| && s[l] == RBRACKET && s[l + 1] == COLON && SkipBlank(s, l + 2) == |s|
    requires forall k :: 0 <= k < l ==> s[k] != RBRACKET
    ensures InlineMoved(s, f) == s
  {
    hide InlineMoved, SkipBlank, Opening;
    var rest := s[l + 1..];
    CommonStart(s, f, l);
    assert s[l..] == [RBRACKET] + rest && rest[0] == COLON;
    BracketShut(rest);
    InlineHere([RBRACKET] + rest, f);
    assert ([RBRACKET] + rest)[1..] == rest;
    forall k | 0 <= k < |rest| ensures rest[k] != RBRACKET {
      assert rest[k] == s[l + 1 + k];
    }
    NoBracket(rest, f);
    assert s[..l] + s[l..] == s;
  }

  lemma BracketShut(rest: Bytes)
    requires rest != [] && rest[0] != LPAREN
    ensures Opening([RBRACKET] + rest).None?
  {
  }

  lemma NoBracket(s: Bytes, f: Mover)
    requires forall k :: 0 <= k < |s| ==> s[k] != RBRACKET
    ensures InlineMoved(s, f) == s
  {
    hide InlineMoved;
    CommonStart(s, f, |s|);
    assert s[|s|..] == [] && s[..|s|] == s;
    NothingMoved(f);
    Joined(s, []);
  }
}
