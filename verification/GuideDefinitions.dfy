/** Lines that begin a reference definition: when the definition is found after the inline
    destinations of its line have been moved, what the line becomes, and what is read there
    again. */
module GuideDefinitions {
  import opened ByteStrings
  import opened MarkdownScan
  import opened Texts
  import opened GuideRewriting
  import opened GuideLaws

  /** The destination of a definition. */
  function DefinitionTarget(line: Bytes): Option<Bytes> {
    match DefinitionAt(line)
    case None => None
    case Some(m) => Some(line[m..LinkEnd(line, m, false)])
  }

  /** A moved destination whose opening bracket closes somewhere else than at its end. */
  predicate Miscut(t: Bytes, rest: Bytes) {
    AngleAt(t + rest, 0) && CloserAt(t + rest, 1) + 1 != |t|
  }

  // ------------------------------------------- the line up to the definition's end

  /** The first `k` bytes of a destination are kept; where a word must end there, it does. */
  predicate StartKept(t: Bytes, r: Bytes, k: nat, closed: bool)
    requires k <= |t|
  {
    k <= |r| && r[..k] == t[..k] && (closed || (k < |r| && IsBlank(r[k])))
  }

  /** Every inline destination that starts among the first `e` bytes is left alone, one that goes
      on behind them as far as they reach. */
  predicate LeftAlone(s: Bytes, f: Mover, e: nat, closed: bool)
    requires e <= |s|
    decreases |s|
  {
    e == 0
    || match Opening(s)
       case None => LeftAlone(s[1..], f, e - 1, closed)
       case Some(o) =>
         var t := s[o.start..o.end];
         o.start >= e
         || if o.end < e || (!closed && o.end == e) then f(t) == t && LeftAlone(s[o.end..], f, e - o.end, closed)
            else StartKept(t, f(t), e - o.start, closed)
  }

  /** Text that brackets close, or a word with a blank or nothing behind it. */
  predicate IsHead(s: Bytes, e: nat, closed: bool)
    requires e <= |s|
  {
    if closed then (e > 0 ==> s[e - 1] == GREATER) && forall k :: 0 <= k < e - 1 ==> s[k] != GREATER
    else (e < |s| ==> IsBlank(s[e])) && forall k :: 0 <= k < e ==> !IsBlank(s[k])
  }

  predicate SameHead(now: Bytes, s: Bytes, e: nat, closed: bool)
    requires e <= |s|
  {
    e <= |now| && now[..e] == s[..e] && (closed || e == |now| || IsBlank(now[e]))
  }

  /** The same word, if it is found in front of a stop again. */
  lemma WordAgain(t: Bytes, r: Bytes, y: Bytes)
    requires forall k :: 0 <= k < |t| ==> !Stops(t[k], true)
    requires forall k :: 0 <= k < |r| ==> !Stops(r[k], true)
    requires StopsAt(y, 0) && |r + y| >= |t| && (r + y)[..|t|] == t && (|r + y| > |t| ==> Stops((r + y)[|t|], true))
    ensures r == t
  {
    Pointwise(t, r, y);
    var now := r + y;
    assert now[|r|] == y[0];
    assert now[..|r|] == r;
  }

  lemma Pointwise(t: Bytes, r: Bytes, y: Bytes)
    requires |r + y| >= |t| && (r + y)[..|t|] == t
    ensures forall k :: 0 <= k < |t| ==> (r + y)[k] == t[k]
    ensures forall k :: 0 <= k < |t| && k < |r| ==> r[k] == t[k]
    ensures forall k :: 0 <= k < |r| ==> (r + y)[k] == r[k]
  {
    assert forall k :: 0 <= k < |t| ==> (r + y)[k] == (r + y)[..|t|][k];
  }

  lemma BracketsAgain(t: Bytes, r: Bytes, y: Bytes)
    requires Bracketed(t) && Bracketed(r) && |r + y| >= |t| && (r + y)[..|t|] == t
    ensures r == t
  {
    Pointwise(t, r, y);
    assert (r + y)[..|r|] == r;
  }

  /** A destination inside the head: the head stays only if the destination does. */
  lemma InsideHead(head: Bytes, t: Bytes, r: Bytes, x: Bytes, y: Bytes, e: nat, closed: bool)
    requires Fits(t, r) && t != [] && StopsAt(x, 0) && StopsAt(y, 0)
    requires Bracketed(t) || forall k :: 0 <= k < |t| ==> !Stops(t[k], true)
    requires |head + t| <= e <= |head + t + x| && IsHead(head + t + x, e, closed)
    requires closed ==> |head + t| < e
    ensures SameHead(head + r + y, head + t + x, e, closed)
       <==> r == t && SameHead(y, x, e - |head + t|, closed)
  {
    hide Fits, IsHead;
    if SameHead(head + r + y, head + t + x, e, closed) {
      InsideStays(head, t, r, x, y, e, closed);
    }
    if r == t {
      InsideKept(head + t, x, y, e, closed);
    }
  }

  lemma InsideKept(a: Bytes, x: Bytes, y: Bytes, e: nat, closed: bool)
    requires |a| <= e <= |a + x|
    ensures SameHead(a + y, a + x, e, closed) <==> SameHead(y, x, e - |a|, closed)
  {
    SamePrefixes(a, y, x, e - |a|);
  }

  lemma InsideStays(head: Bytes, t: Bytes, r: Bytes, x: Bytes, y: Bytes, e: nat, closed: bool)
    requires Fits(t, r) && t != [] && StopsAt(x, 0) && StopsAt(y, 0)
    requires Bracketed(t) || forall k :: 0 <= k < |t| ==> !Stops(t[k], true)
    requires |head + t| <= e <= |head + t + x| && (closed ==> |head + t| < e)
    requires SameHead(head + r + y, head + t + x, e, closed)
    ensures r == t
  {
    hide Fits, Bracketed, Stops;
    var s, now, p := head + t + x, head + r + y, |head + t|;
    assert forall k :: 0 <= k < e ==> now[k] == now[..e][k] == s[k];
    assert now == head + (r + y) && s == head + (t + x);
    assert |r + y| >= |t| && (r + y)[..|t|] == t by {
      assert forall k :: 0 <= k < |t| ==> (r + y)[k] == now[|head| + k] == s[|head| + k] == t[k];
    }
    FitBytes(t, r);
    if Bracketed(t) {
      BracketsAgain(t, r, y);
    } else {
      BlankStops();
      assert p < e ==> now[p] == s[p] == x[0];
      assert p < |now| ==> now[p] == (r + y)[|t|];
      WordAgain(t, r, y);
    }
  }

  lemma BlankStops()
    ensures forall b :: IsBlank(b) ==> Stops(b, true)
  {
  }

  lemma FitBracketed(t: Bytes, r: Bytes)
    requires Fits(t, r) && Bracketed(t)
    ensures Bracketed(r)
  {
  }

  lemma SamePrefixes(a: Bytes, y: Bytes, x: Bytes, k: nat)
    requires k <= |x|
    ensures |a| + k <= |a + y| && (a + y)[..|a| + k] == (a + x)[..|a| + k] <==> k <= |y| && y[..k] == x[..k]
    ensures k < |y| ==> (a + y)[|a| + k] == y[k]
  {
    var now, s := a + y, a + x;
    if k <= |y| {
      assert now[..|a| + k] == a + y[..k] && s[..|a| + k] == a + x[..k];
      if now[..|a| + k] == s[..|a| + k] {
        assert now[..|a| + k][|a|..] == y[..k] && s[..|a| + k][|a|..] == x[..k];
      }
    }
  }

  /** A destination across the end of the head: the head stays if and only if the start of the
      destination does. */
  lemma AcrossHead(head: Bytes, t: Bytes, r: Bytes, x: Bytes, y: Bytes, e: nat, closed: bool)
    requires Fits(t, r) && t != [] && StopsAt(x, 0) && StopsAt(y, 0)
    requires Bracketed(t) || forall k :: 0 <= k < |t| ==> !Stops(t[k], true)
    requires |head| < e <= |head + t| && IsHead(head + t + x, e, closed)
    requires !closed ==> e < |head + t|
    ensures SameHead(head + r + y, head + t + x, e, closed) <==> StartKept(t, r, e - |head|, closed)
  {
    hide Fits;
    var s, now, k := head + t + x, head + r + y, e - |head|;
    assert s == head + (t + x) && now == head + (r + y);
    SamePrefixes(head, r + y, t + x, k);
    assert (t + x)[..k] == t[..k] && s[e - 1] == t[k - 1];
    assert !closed ==> s[e] == t[k];
    FitBytes(t, r);
    if |r| < k || (!closed && |r| == k) {
      ShortImage(t, r, y, k);
    } else {
      assert (r + y)[..k] == r[..k];
      assert k < |r| ==> (r + y)[k] == r[k];
    }
  }

  lemma FitBytes(t: Bytes, r: Bytes)
    requires Fits(t, r) && t != []
    requires Bracketed(t) || forall k :: 0 <= k < |t| ==> !Stops(t[k], true)
    ensures r != []
    ensures if Bracketed(t) then Bracketed(r) else forall k :: 0 <= k < |r| ==> !Stops(r[k], true)
  {
    FitKeeps(t, r);
  }

  /** An image too short to reach the end of the head ends where the destination goes on. */
  lemma ShortImage(t: Bytes, r: Bytes, y: Bytes, k: nat)
    requires r != [] && |r| <= k <= |t| && StopsAt(y, 0)
    requires if Bracketed(t) then Bracketed(r) else forall k :: 0 <= k < |t| ==> !Stops(t[k], true)
    requires Bracketed(t) ==> |r| < |t|
    requires !Bracketed(t) ==> |r| < k
    ensures !(k <= |r + y| && (r + y)[..k] == t[..k])
  {
    var now := r + y;
    assert k <= |now| && now[..k] == t[..k] ==> forall j :: 0 <= j < k ==> now[j] == now[..k][j] == t[j];
    assert now[|r| - 1] == r[|r| - 1] && now[|r|] == y[0];
  }

  lemma HeadTail(s: Bytes, n: nat, e: nat, closed: bool)
    requires n <= e <= |s| && IsHead(s, e, closed)
    ensures IsHead(s[n..], e - n, closed)
  {
  }

  lemma NoHead(s: Bytes, f: Mover, closed: bool)
    requires IsHead(s, 0, closed)
    ensures SameHead(InlineMoved(s, f), s, 0, closed)
  {
    hide InlineMoved;
    FirstKept(s, f);
  }

  /** A destination behind the head does not matter. */
  lemma BehindHead(head: Bytes, t: Bytes, r: Bytes, x: Bytes, y: Bytes, e: nat, closed: bool)
    requires t != [] && !IsBlank(t[0]) && e <= |head| && IsHead(head + t + x, e, closed)
    ensures SameHead(head + r + y, head + t + x, e, closed)
  {
    var s, now := head + t + x, head + r + y;
    assert s[|head|] == t[0];
    assert now[..e] == head[..e] == s[..e];
    assert e < |head| ==> now[e] == head[e] == s[e];
  }

  /** The text up to the end of the head is the same after the inline destinations have been
      moved, if and only if those in it are left alone. */
  lemma {:induction false} HeadStays(s: Bytes, f: Mover, e: nat, closed: bool)
    requires Careful(f) && e <= |s| && IsHead(s, e, closed)
    ensures SameHead(InlineMoved(s, f), s, e, closed) <==> LeftAlone(s, f, e, closed)
    decreases |s|
  {
    hide Opening, InlineMoved, IsHead, SameHead, Fits, StartKept, Bracketed, Stops, IsBlank;
    if e == 0 {
      NoHead(s, f, closed);
    } else {
      InlineHere(s, f);
      match Opening(s) {
        case None =>
          HeadTail(s, 1, e, closed);
          HeadStays(s[1..], f, e - 1, closed);
          assert s == [s[0]] + s[1..];
          InsideKept([s[0]], s[1..], InlineMoved(s[1..], f), e, closed);
        case Some(o) =>
          OpeningStays(s, f, o, e, closed);
          if o.end <= e {
            HeadTail(s, o.end, e, closed);
            HeadStays(s[o.end..], f, e - o.end, closed);
          }
      }
    }
  }

  lemma OpeningStays(s: Bytes, f: Mover, o: Span, e: nat, closed: bool)
    requires Careful(f) && Opening(s) == Some(o) && 0 < e <= |s| && IsHead(s, e, closed)
    ensures
      var t, rest := s[o.start..o.end], InlineMoved(s[o.end..], f);
      SameHead(InlineMoved(s, f), s, e, closed)
      <==> o.start >= e
           || if o.end < e || (!closed && o.end == e) then f(t) == t && SameHead(rest, s[o.end..], e - o.end, closed)
              else StartKept(t, f(t), e - o.start, closed)
  {
    hide Opening, InlineMoved, IsHead, SameHead, Fits, StartKept, Bracketed, Stops, IsBlank;
    var head, t, x, rest := s[..o.start], s[o.start..o.end], s[o.end..], InlineMoved(s[o.end..], f);
    InlineHere(s, f);
    OpenedText(s);
    StopKept(s, f, o);
    assert s == head + t + x;
    assert Fits(t, f(t));
    if o.start >= e {
      BehindHead(head, t, f(t), x, rest, e, closed);
    } else if o.end < e || (!closed && o.end == e) {
      InsideHead(head, t, f(t), x, rest, e, closed);
    } else {
      AcrossHead(head, t, f(t), x, rest, e, closed);
    }
  }

  lemma StopKept(s: Bytes, f: Mover, o: Span)
    requires Opening(s) == Some(o) && StopsAt(s, o.end)
    ensures StopsAt(s[o.end..], 0) && StopsAt(InlineMoved(s[o.end..], f), 0)
  {
    hide InlineMoved, Opening;
    FirstKept(s[o.end..], f);
  }

  // ---------------------------------------------------- the definition found

  /** Some destination has a `>` when it has been moved. */
  predicate SomeCloses(targets: seq<Bytes>, f: Mover) {
    exists t | t in targets :: GREATER in f(t)
  }

  /** The definition's destination begins with a bracket that nothing on the line closes before
      the inline destinations are moved, and one of those does afterwards. */
  predicate NewlyClosed(s: Bytes, f: Mover, m: nat)
    requires m < |s|
  {
    s[m] == LESS && GREATER !in s[m..] && SomeCloses(InlineTargets(s[m..]), f)
  }

  /** The inline destinations of a definition's line do not interfere with its own. */
  predicate Untangled(s: Bytes, f: Mover) {
    match DefinitionAt(s)
    case None => true
    case Some(m) =>
      LeftAlone(s[m..], f, LinkEnd(s, m, false) - m, AngleAt(s, m)) && !NewlyClosed(s, f, m)
  }

  lemma {:induction false} CloserArises(s: Bytes, f: Mover)
    requires GREATER !in s
    ensures GREATER in InlineMoved(s, f) <==> SomeCloses(InlineTargets(s), f)
    decreases |s|
  {
    hide Opening, InlineMoved, InlineTargets;
    if s == [] {
      NothingMoved(f);
      NoTargetsYet();
    } else {
      InlineHere(s, f);
      match Opening(s) {
        case None =>
          NoTargetHere(s);
          CloserArises(s[1..], f);
        case Some(o) =>
          TargetHere(s, o);
          CloserArises(s[o.end..], f);
          var t, rest := s[o.start..o.end], InlineTargets(s[o.end..]);
          assert forall x :: x in [t] + rest <==> x == t || x in rest;
      }
    }
  }

  lemma NoTargetsYet()
    ensures InlineTargets([]) == []
  {
  }

  lemma NoTargetHere(s: Bytes)
    requires s != [] && Opening(s).None?
    ensures InlineTargets(s) == InlineTargets(s[1..])
  {
    hide Opening;
  }

  /** Nothing opens in a label and the colon behind it. */
  lemma LabelSkipped(a: Bytes, b: Bytes, c: Bytes, f: Mover)
    requires RBRACKET !in a && RBRACKET !in b && b != [] && b[0] == COLON
    ensures InlineMoved(a + ([RBRACKET] + (b + c)), f) == a + ([RBRACKET] + (b + InlineMoved(c, f)))
    ensures InlineTargets(a + ([RBRACKET] + (b + c))) == InlineTargets(c)
  {
    hide InlineMoved, InlineTargets, Opening;
    var bc := b + c;
    CommonFront(a, [RBRACKET] + bc, f);
    BracketShut(bc);
    InlineHere([RBRACKET] + bc, f);
    NoTargetHere([RBRACKET] + bc);
    assert ([RBRACKET] + bc)[1..] == bc;
    CommonFront(b, c, f);
    TargetsBehind(a, [RBRACKET] + bc);
    TargetsBehind(b, c);
  }

  lemma TargetsBehind(a: Bytes, b: Bytes)
    requires RBRACKET !in a
    ensures InlineTargets(a + b) == InlineTargets(b)
  {
    hide InlineTargets;
    TargetsBefore(a + b, |a|);
    assert (a + b)[|a|..] == b;
  }

  /** Nothing opens before the destination of a definition. */
  lemma MovedBehind(s: Bytes, f: Mover)
    requires DefinitionAt(s).Some?
    ensures
      var m := DefinitionAt(s).value;
      InlineMoved(s, f) == s[..m] + InlineMoved(s[m..], f) && DefinitionAt(InlineMoved(s, f)) == Some(m)
      && InlineMoved(s, f)[m] == s[m] && InlineTargets(s) == InlineTargets(s[m..])
  {
    hide InlineMoved, InlineTargets, DefinitionAt;
    var m := DefinitionAt(s).value;
    var l := LabelOf(s);
    var a, b, c := s[..l], s[l + 1..m], s[m..];
    assert s == a + ([RBRACKET] + (b + c)) && s[..m] == a + ([RBRACKET] + b);
    LabelSkipped(a, b, c, f);
    var now := InlineMoved(s, f);
    LabelJoins(a, b, InlineMoved(c, f));
    assert now == s[..m] + InlineMoved(c, f);
    FirstKept(c, f);
    assert now[..m] == s[..m] && now[m] == InlineMoved(c, f)[0];
    HeadKept(s, now, m);
  }

  lemma LabelJoins(a: Bytes, b: Bytes, c: Bytes)
    ensures a + ([RBRACKET] + (b + c)) == (a + ([RBRACKET] + b)) + c
  {
  }

  /** Where the label of a definition ends. */
  lemma LabelOf(s: Bytes) returns (l: nat)
    requires DefinitionAt(s).Some?
    ensures l + 1 < DefinitionAt(s).value < |s| && s[l] == RBRACKET && s[l + 1] == COLON
    ensures forall k :: 0 <= k < l ==> s[k] != RBRACKET
    ensures forall k :: l + 1 < k < DefinitionAt(s).value ==> IsBlank(s[k])
  {
    hide SkipBlank, LabelEnd;
    l := LabelEnd(s, SkipBlank(s, 0) + 1);
    assert forall k :: 0 <= k < SkipBlank(s, 0) ==> IsBlank(s[k]);
  }

  lemma HeadOfDefinition(s: Bytes)
    requires DefinitionAt(s).Some?
    ensures
      var m := DefinitionAt(s).value;
      var e := LinkEnd(s, m, false);
      m < e && IsHead(s[m..], e - m, AngleAt(s, m))
  {
    hide CloserAt, WordEnd, DefinitionAt;
    var m := DefinitionAt(s).value;
    var e := LinkEnd(s, m, false);
    assert forall k :: 0 <= k < |s| - m ==> s[m..][k] == s[m + k];
  }

  /** With its head the same, a destination is found in `now` as in `s`, unless brackets close
      there that did not close before. */
  lemma FoundInHead(s: Bytes, now: Bytes, m: nat)
    requires m < |s| && m < |now| && now[..m] == s[..m] && now[m] == s[m] && !IsBlank(s[m])
    ensures
      var e, a := LinkEnd(s, m, false), LinkEnd(now, m, false);
      now[m..a] == s[m..e]
      <==> SameHead(now[m..], s[m..], e - m, AngleAt(s, m)) && (AngleAt(now, m) ==> AngleAt(s, m))
  {
    hide LinkEnd, SameHead, AngleAt;
    var e, a := LinkEnd(s, m, false), LinkEnd(now, m, false);
    if now[m..a] == s[m..e] {
      assert |now[m..a]| == a - m && |s[m..e]| == e - m;
      FoundSame(s, now, m);
    }
    if SameHead(now[m..], s[m..], e - m, AngleAt(s, m)) && (AngleAt(now, m) ==> AngleAt(s, m)) {
      SameFound(s, now, m);
    }
  }

  lemma FoundSame(s: Bytes, now: Bytes, m: nat)
    requires m < |s| && m < |now| && !IsBlank(s[m])
    requires LinkEnd(now, m, false) == LinkEnd(s, m, false) && now[m..LinkEnd(s, m, false)] == s[m..LinkEnd(s, m, false)]
    ensures
      var e := LinkEnd(s, m, false);
      SameHead(now[m..], s[m..], e - m, AngleAt(s, m)) && (AngleAt(now, m) ==> AngleAt(s, m))
  {
    hide CloserAt, WordEnd;
    var e := LinkEnd(s, m, false);
    assert now[m..][..e - m] == now[m..e] && s[m..][..e - m] == s[m..e];
    assert e < |now| ==> now[m..][e - m] == now[e];
    if AngleAt(now, m) {
      assert forall k :: m <= k < e ==> now[k] == now[m..e][k - m] == s[m..e][k - m] == s[k];
      assert CloserAt(s, m + 1) == e - 1;
    }
  }

  lemma SameFound(s: Bytes, now: Bytes, m: nat)
    requires m < |s| && m < |now| && !IsBlank(s[m])
    requires SameHead(now[m..], s[m..], LinkEnd(s, m, false) - m, AngleAt(s, m)) && (AngleAt(now, m) ==> AngleAt(s, m))
    ensures LinkEnd(now, m, false) == LinkEnd(s, m, false) && now[m..LinkEnd(s, m, false)] == s[m..LinkEnd(s, m, false)]
  {
    hide CloserAt, WordEnd;
    var e := LinkEnd(s, m, false);
    assert now[m..][..e - m] == now[m..e] && s[m..][..e - m] == s[m..e];
    assert forall k :: m <= k < e ==> now[k] == now[m..e][k - m] == s[m..e][k - m] == s[k];
    assert e < |now| ==> now[m..][e - m] == now[e];
    if AngleAt(s, m) {
      assert CloserAt(now, m + 1) == e - 1;
    } else {
      assert WordEnd(now, m, false) == e;
    }
  }

  /** On a line every `>` behind `m` closes a bracket at `m`, if there is something inside. */
  lemma ClosedOnLine(s: Bytes, m: nat)
    requires IsLine(s) && m < |s|
    ensures AngleAt(s, m) <==> s[m] == LESS && GREATER in s[m + 1..] && s[m + 1] != GREATER
  {
    hide CloserAt;
    var c := CloserAt(s, m + 1);
    NewlineEnds();
    assert forall j :: m + 1 <= j < |s| ==> s[j] == s[m + 1..][j - m - 1];
    assert c < |s| && s[c] == NEWLINE ==> c == |s| - 1;
    assert c < |s| ==> s[m + 1..][c - m - 1] == s[c];
  }

  lemma NewlineEnds()
    ensures EndsLine(NEWLINE)
  {
  }

  /** Brackets that did not close on the line close on the moved one if and only if a moved
      destination brings the `>`. */
  lemma BracketNow(s: Bytes, f: Mover, m: nat)
    requires Careful(f) && IsLine(s) && DefinitionAt(s) == Some(m) && !AngleAt(s, m) && m < |InlineMoved(s, f)|
    requires SameHead(InlineMoved(s, f)[m..], s[m..], LinkEnd(s, m, false) - m, false)
    ensures AngleAt(InlineMoved(s, f), m) <==> NewlyClosed(s, f, m)
  {
    hide InlineMoved, DefinitionAt, AngleAt, LinkEnd, SameHead, IsLine, Careful, SomeCloses, InlineTargets;
    var now := InlineMoved(s, f);
    InlineLine(s, f);
    MovedBehind(s, f);
    ClosedOnLine(s, m);
    ClosedOnLine(now, m);
    assert now[m..] == InlineMoved(s[m..], f);
    SecondByte(s, now, m);
    assert s[m..] == [s[m]] + s[m + 1..] && now[m..] == [now[m]] + now[m + 1..];
    if GREATER !in s[m..] {
      CloserArises(s[m..], f);
    }
  }

  /** The byte behind the first of a word is kept, or it is a blank. */
  lemma SecondByte(s: Bytes, now: Bytes, m: nat)
    requires m < |s| && m < |now| && now[m] == s[m] && !IsBlank(s[m]) && !AngleAt(s, m)
    requires SameHead(now[m..], s[m..], LinkEnd(s, m, false) - m, false)
    ensures m + 1 < |s| && s[m + 1] == GREATER <==> m + 1 < |now| && now[m + 1] == GREATER
  {
    hide CloserAt;
    var e := LinkEnd(s, m, false);
    assert m + 1 < e ==> now[m..][..e - m][1] == s[m..][..e - m][1];
    assert m + 1 < e ==> now[m + 1] == now[m..][..e - m][1] && s[m + 1] == s[m..][..e - m][1];
    assert e < |now| ==> now[m..][e - m] == now[e];
  }

  /** After the inline destinations of its line have been moved, the same destination of the
      definition is found, if and only if those do not interfere with it. */
  lemma DefinitionFound(s: Bytes, f: Mover)
    requires Careful(f) && IsLine(s) && DefinitionAt(s).Some?
    ensures DefinitionTarget(InlineMoved(s, f)) == DefinitionTarget(s) <==> Untangled(s, f)
  {
    hide InlineMoved, DefinitionAt, AngleAt, LinkEnd, SameHead, IsLine, Careful, NewlyClosed, LeftAlone, IsHead;
    var m, now := DefinitionAt(s).value, InlineMoved(s, f);
    MovedBehind(s, f);
    HeadOfDefinition(s);
    HeadStays(s[m..], f, LinkEnd(s, m, false) - m, AngleAt(s, m));
    assert now[..m] == s[..m] && now[m..] == InlineMoved(s[m..], f);
    FoundInHead(s, now, m);
    if AngleAt(s, m) {
      ClosedIsNotNew(s, f, m);
    } else if SameHead(now[m..], s[m..], LinkEnd(s, m, false) - m, false) {
      BracketNow(s, f, m);
    }
  }

  lemma ClosedIsNotNew(s: Bytes, f: Mover, m: nat)
    requires m < |s| && AngleAt(s, m)
    ensures !NewlyClosed(s, f, m)
  {
    hide SomeCloses, InlineTargets;
    var c := CloserAt(s, m + 1);
    assert s[m..][c - m] == GREATER;
  }

  /** Then the line becomes what comes before the destination, the moved destination, and what
      moving the inline destinations has made of the rest. */
  lemma DefinitionLineBecomes(s: Bytes, f: Mover)
    requires Careful(f) && IsLine(s) && DefinitionAt(s).Some? && Untangled(s, f)
    ensures
      var m := DefinitionAt(s).value;
      var e := LinkEnd(s, m, false);
      var now := InlineMoved(s, f);
      e <= |now| && now[..e] == s[..e] && (!AngleAt(s, m) ==> e == |now| || IsBlank(now[e]))
      && LineMoved(s, f) == s[..m] + f(s[m..e]) + now[e..]
  {
    hide InlineMoved, DefinitionAt, AngleAt, LinkEnd, IsLine, Careful, NewlyClosed, LeftAlone, IsHead;
    var m, now := DefinitionAt(s).value, InlineMoved(s, f);
    var e := LinkEnd(s, m, false);
    MovedBehind(s, f);
    HeadOfDefinition(s);
    HeadStays(s[m..], f, e - m, AngleAt(s, m));
    assert now[..m] == s[..m] && now[m..] == InlineMoved(s[m..], f);
    DefinitionFound(s, f);
    var a := LinkEnd(now, m, false);
    assert now[m..a] == s[m..e] && |now[m..a]| == a - m && |s[m..e]| == e - m;
    assert now[..e] == now[..m] + now[m..][..e - m] && s[..e] == s[..m] + s[m..][..e - m];
    assert e < |now| ==> now[m..][e - m] == now[e];
  }

  /** Read again, a definition whose line is not tangled has the moved destination, if and only
      if the brackets it may begin with do not close elsewhere. */
  lemma DefinitionTargetMoved(s: Bytes, f: Mover)
    requires Careful(f) && IsLine(s) && DefinitionAt(s).Some? && Untangled(s, f)
    ensures
      var m := DefinitionAt(s).value;
      var e := LinkEnd(s, m, false);
      e <= |InlineMoved(s, f)|
      && (DefinitionTarget(LineMoved(s, f)) == Some(f(s[m..e])) <==> !Miscut(f(s[m..e]), InlineMoved(s, f)[e..]))
  {
    hide Fits, LinkEnd, DefinitionAt, Miscut, InlineMoved, LineMoved, Untangled, IsLine, AngleAt;
    var m := DefinitionAt(s).value;
    var e := LinkEnd(s, m, false);
    DefinitionLineBecomes(s, f);
    DefinitionEnds(s, m);
    var t, rest := f(s[m..e]), InlineMoved(s, f)[e..];
    DefinedText(s, m);
    assert s[m..e] != [];
    FitDefines(s[m..e], t);
    var now := s[..m] + t + rest;
    assert now[..m] == s[..m] && now[m..m + |t|] == t && now[m + |t|..] == rest;
    assert now[m] == t[0];
    HeadKept(s, now, m);
    if AngleAt(s, m) {
      AngledIsBracketed(s, m);
    }
    EndsAgain(t, rest, now, m);
    var a := LinkEnd(now, m, false);
    assert |now[m..a]| == a - m;
  }

  lemma AngledIsBracketed(s: Bytes, m: nat)
    requires m < |s| && AngleAt(s, m)
    ensures Bracketed(s[m..LinkEnd(s, m, false)])
  {
  }

  /** A definition's destination is in brackets, or a word with a blank or nothing behind it. */
  lemma DefinedText(s: Bytes, m: nat)
    requires m < |s| && !IsBlank(s[m])
    ensures
      var e := LinkEnd(s, m, false);
      var t := s[m..e];
      (Bracketed(t) || ((forall k :: 0 <= k < |t| ==> !IsBlank(t[k])) && (e < |s| ==> IsBlank(s[e])))) && !IsBlank(t[0])
  {
    hide CloserAt, WordEnd;
  }

  lemma FitDefines(t: Bytes, r: Bytes)
    requires Fits(t, r) && t != [] && !IsBlank(t[0])
    requires Bracketed(t) || forall k :: 0 <= k < |t| ==> !IsBlank(t[k])
    ensures r != [] && !IsBlank(r[0]) && (Bracketed(t) ==> Bracketed(r))
    ensures Bracketed(r) || forall k :: 0 <= k < |r| ==> !IsBlank(r[k])
  {
  }

  lemma HeadKept(s: Bytes, now: Bytes, m: nat)
    requires DefinitionAt(s) == Some(m) && m < |now| && now[..m] == s[..m] && !IsBlank(now[m])
    ensures DefinitionAt(now) == Some(m)
  {
    hide SkipBlank, LabelEnd;
    assert forall k :: 0 <= k < m ==> now[k] == now[..m][k] == s[k];
    var k := SkipBlank(s, 0);
    assert SkipBlank(now, 0) == k;
    var l := LabelEnd(s, k + 1);
    assert LabelEnd(now, k + 1) == l;
    assert SkipBlank(now, l + 2) == m;
  }

  lemma EndsAgain(t: Bytes, rest: Bytes, now: Bytes, m: nat)
    requires t != [] && m + |t| <= |now| && now[m..m + |t|] == t && now[m + |t|..] == rest
    requires Bracketed(t) || ((forall k :: 0 <= k < |t| ==> !IsBlank(t[k])) && (rest != [] ==> IsBlank(rest[0])))
    ensures LinkEnd(now, m, false) == m + |t| <==> !Miscut(t, rest)
  {
    hide CloserAt, WordEnd;
    var both := t + rest;
    assert forall j :: m <= j < |now| ==> now[j] == both[j - m] by {
      assert now[m..] == both;
      assert forall j :: m <= j < |now| ==> now[j] == now[m..][j - m];
    }
    CloserBehind(now, both, m);
    if Bracketed(t) {
      BracketsClose(t, both, 0);
    } else {
      assert forall k :: 0 <= k < |t| ==> both[k] == t[k];
      assert WordEnd(now, m, false) == m + |t|;
    }
  }

  lemma CloserBehind(now: Bytes, both: Bytes, m: nat)
    requires m < |now| && |both| == |now| - m && forall j :: m <= j < |now| ==> now[j] == both[j - m]
    ensures CloserAt(now, m + 1) == m + CloserAt(both, 1) && AngleAt(now, m) == AngleAt(both, 0)
  {
    hide CloserAt;
    var c := CloserAt(both, 1);
    assert forall j :: 1 <= j < c ==> now[m + j] == both[j];
    assert c < |both| ==> now[m + c] == both[c];
    assert forall j :: m + 1 <= j < m + c ==> now[j] == both[j - m];
  }

  // ------------------------------------- inline destinations behind a definition

  /** Nowhere `](`. */
  predicate NoPair(x: Bytes) {
    forall j :: 0 <= j < |x| - 1 ==> !(x[j] == RBRACKET && x[j + 1] == LPAREN)
  }

  /** Nothing opens in text without `](`. */
  lemma {:induction false} PairFree(a: Bytes, b: Bytes, f: Mover)
    requires NoPair(a) && (a != [] && a[|a| - 1] == RBRACKET && b != [] ==> b[0] != LPAREN)
    ensures InlineMoved(a + b, f) == a + InlineMoved(b, f) && InlineTargets(a + b) == InlineTargets(b)
    decreases |a|
  {
    hide InlineMoved, InlineTargets;
    if a == [] {
      assert a + b == b;
      Joined([], InlineMoved(b, f));
    } else {
      var s, rest := a + b, a[1..] + b;
      assert s[1..] == rest;
      PairFree(a[1..], b, f);
      assert |s| >= 2 && s[0] == RBRACKET ==> s[1] != LPAREN by {
        assert |a| >= 2 ==> !(a[0] == RBRACKET && a[1] == LPAREN);
      }
      NoPairShut(s);
      InlineHere(s, f);
      NoTargetHere(s);
      Associates([a[0]], a[1..], InlineMoved(b, f));
      assert [a[0]] + a[1..] == a;
    }
  }

  lemma NoPairShut(s: Bytes)
    requires |s| >= 2 && s[0] == RBRACKET ==> s[1] != LPAREN
    ensures Opening(s).None?
  {
  }

  /** If neither the destination of a definition nor what it becomes has `](`, reading the line
      again finds exactly the moved inline destinations, if and only if none of them is caught. */
  lemma DefinitionInlineMoved(s: Bytes, f: Mover)
    requires Careful(f) && IsLine(s) && DefinitionAt(s).Some? && Untangled(s, f)
    requires
      var m := DefinitionAt(s).value;
      var u := s[m..LinkEnd(s, m, false)];
      NoPair(u) && NoPair(f(u))
    ensures
      var rest := s[LinkEnd(s, DefinitionAt(s).value, false)..];
      InlineTargets(s) == InlineTargets(rest)
      && (InlineTargets(LineMoved(s, f)) == Map(f, InlineTargets(s)) <==> NoneCaught(rest, f))
  {
    hide LinkEnd, DefinitionAt, InlineMoved, InlineTargets, LineMoved, Untangled, IsLine, NoneCaught, Careful, NoPair, Fits,
         Map, Bracketed, AngleAt;
    var m := DefinitionAt(s).value;
    var e := LinkEnd(s, m, false);
    var u, rest := s[m..e], s[e..];
    DefinitionEnds(s, m);
    DefinedText(s, m);
    DefinitionLineBecomes(s, f);
    MovedBehind(s, f);
    assert s[m..] == u + rest;
    EndOfHead(u, rest);
    PairFree(u, rest, f);
    var later := InlineMoved(rest, f);
    var now := s[..m] + f(u) + later;
    assert InlineMoved(s, f) == s[..m] + (u + later);
    assert InlineMoved(s, f)[e..] == later;
    FirstKept(rest, f);
    assert Fits(u, f(u)) by { IsFit(f, u); }
    FitDefines(u, f(u));
    EndOfHead(f(u), later);
    PairFree(f(u), later, f);
    assert now[..m] == s[..m] && now[m] == f(u)[0] && now[m..] == f(u) + later;
    HeadKept(s, now, m);
    MovedBehind(now, f);
    InlineTargetsMoved(rest, f);
  }

  lemma IsFit(f: Mover, t: Bytes)
    requires Careful(f) && t != []
    ensures Fits(t, f(t))
  {
  }

  lemma EndOfHead(u: Bytes, rest: Bytes)
    requires u != [] && (Bracketed(u) || (rest != [] ==> IsBlank(rest[0])))
    ensures u[|u| - 1] == RBRACKET && rest != [] ==> rest[0] != LPAREN
  {
  }
}
