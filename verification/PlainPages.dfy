/** A class of pages that anyone can check, and for which the archived page always shows the
    same destinations: no tab, and no empty brackets. */
module PlainPages {
  import opened ByteStrings
  import opened Links
  import opened MarkdownScan
  import opened Splicing
  import opened Rescan
  import opened PageRescan
  import opened Relocation
  import opened ArchiveRecords
  import opened Survival

  /** No tab, and nowhere `<>`. */
  predicate IsPlainText(s: Bytes) {
    TAB !in s && forall j :: 0 <= j < |s| - 1 ==> !(s[j] == LESS && s[j + 1] == GREATER)
  }

  // ------------------------------------------------------------ brackets

  lemma NoBracketCarried(line: Bytes, o: nat, e: nat, inline: bool)
    requires o < e <= |line| && DestinationEnd(line, o, inline) == e && IsPlainText(line)
    ensures !CarriesBracket(line[o..e])
  {
    hide UrlSplit;
    var t := line[o..e];
    DestinationBytes(line, o, e, inline);
    PartsOf(Inner(t));
    var k := CloserAt(line, o + 1);
    assert t[0] == line[o] && t[|t| - 1] == line[e - 1];
    assert IsAngled(t) ==> k <= e - 1;
    assert k <= e - 1 ==> line[k] == t[k - o];
    assert IsAngled(t) ==> AngleAt(line, o);
  }

  // ------------------------------------------------------------ openings

  lemma OpeningBehind(a: Bytes, b: Bytes, p: int)
    requires OpensAt(b, p)
    ensures OpensAt(a + b, |a| + p)
  {
  }

  /** An opening in the text taken over from `u` is one in `u` itself. */
  lemma OpeningTakenOver(u: Bytes, closer: Bytes, j: int)
    requires closer == [] || closer == [GREATER]
    requires
      var uri := SplitTail([], [], u);
      OpensAt(Marked(QUESTION, uri.query) + Marked(HASH, uri.fragment) + closer, j)
    ensures !Quiet(u + closer)
  {
    hide IndexOf, IsStop;
    var h := IndexOf(u, 0, HASH);
    var v := u[..h];
    var q := IndexOf(v, 0, QUESTION);
    var first, second := Marked(QUESTION, After(v, QUESTION)), Marked(HASH, After(u, HASH));
    assert first == [] || first == u[q..h];
    assert second == [] || second == u[h..];
    HashGoesOn();
    if j < |first| {
      OpeningInQuery(u, first, second, closer, q, h, j);
    } else {
      assert |first + second + closer| - |first| == |second + closer|;
      OpeningInFragment(u, first, second, closer, h, j);
    }
  }

  lemma OpeningInQuery(u: Bytes, first: Bytes, second: Bytes, closer: Bytes, q: nat, h: nat, j: int)
    requires q <= h <= |u| && first == u[q..h] && (second == [] || second == u[h..]) && (closer == [] || closer == [GREATER])
    requires (h < |u| ==> u[h] == HASH) && !IsStop(HASH, true)
    requires j < |first| && OpensAt(first + second + closer, j)
    ensures !Quiet(u + closer)
  {
    var k, w := first + second + closer, u + closer;
    assert k[j] == w[q + j];
    assert k[j + 1] == w[q + j + 1];
    assert j + 2 < |first| ==> w[q + j + 2] == k[j + 2];
    assert j + 2 == |first| && h < |u| ==> w[q + j + 2] == HASH;
    assert j + 2 == |first| && h == |u| ==> w[q + j + 2] == GREATER == k[j + 2];
    assert OpensAt(w, q + j);
  }

  lemma OpeningInFragment(u: Bytes, first: Bytes, second: Bytes, closer: Bytes, h: nat, j: int)
    requires h <= |u| && (second == [] || second == u[h..]) && (closer == [] || closer == [GREATER])
    requires j >= |first| && OpensAt(first + second + closer, j)
    ensures !Quiet(u + closer)
  {
    var k, w, p := first + second + closer, u + closer, h + (j - |first|);
    assert k[j] == w[p] && k[j + 1] == w[p + 1] && k[j + 2] == w[p + 2];
    assert OpensAt(w, p);
  }

  lemma HashGoesOn()
    ensures !IsStop(HASH, true)
  {
  }

  /** The parts of a local link come from its cleaned text. */
  lemma LocalTail(text: Bytes)
    requires IsLocal(UrlSplit(text))
    ensures UrlSplit(text) == SplitTail([], [], RemoveUnsafe(StripFront(text)))
  {
    hide RemoveUnsafe, StripFront, IndexOf;
    var u := RemoveUnsafe(StripFront(text));
    if |u| >= 2 && u[0] == SLASH && u[1] == SLASH {
      NoAuthority(u);
    }
  }

  lemma NoAuthority(u: Bytes)
    requires |u| >= 2 && u[0] == SLASH && u[1] == SLASH
    ensures !IsLocal(SplitTail([], u[2..AuthorityEnd(u, 2)], u[AuthorityEnd(u, 2)..]))
  {
    var e := AuthorityEnd(u, 2);
    var rest := u[e..];
    if e == 2 {
      assert rest == [] || rest[0] == SLASH || rest[0] == QUESTION || rest[0] == HASH;
      var v := Before(rest, HASH);
      assert v != [] ==> v[0] == rest[0];
    }
  }

  lemma {:induction false} StrippedSuffix(s: Bytes)
    ensures |StripFront(s)| <= |s| && StripFront(s) == s[|s| - |StripFront(s)|..]
    decreases |s|
  {
    if s != [] && s[0] <= SPACE {
      StrippedSuffix(s[1..]);
    }
  }

  /** Without tabs and line breaks a quiet destination takes over quiet text. */
  lemma NoOpeningCarried(t: Bytes)
    requires Quiet(t) && IsClean(t) && IsLocal(UrlSplit(Inner(t)))
    ensures !CarriesOpening(t)
  {
    hide UrlSplit, StripFront, RemoveUnsafe, SplitTail, OpensAt;
    var inner, closer := Inner(t), Closer(t);
    var u := StripFront(inner);
    LocalTail(inner);
    StrippedSuffix(inner);
    assert IsClean(u) by {
      assert forall k :: 0 <= k < |inner| ==> inner[k] == if IsAngled(t) then t[k + 1] else t[k];
      assert forall k :: 0 <= k < |inner| ==> inner[k] in t;
    }
    CleanKept(u);
    if j :| 0 <= j < |Kept(t) + closer| && OpensAt(Kept(t) + closer, j) {
      OpeningTakenOver(u, closer, j);
      var p :| 0 <= p < |u + closer| && OpensAt(u + closer, p);
      var front := t[..|t| - |u + closer|];
      assert t == front + (u + closer);
      OpeningBehind(front, u + closer, p);
    }
  }

  // ---------------------------------------------------------------- lines

  lemma PlainLine(raw: Bytes, i: nat)
    requires i < |raw| && IsPlainText(raw)
    ensures IsPlainText(LineAt(raw, i))
  {
    hide LineEnd;
    var line := LineAt(raw, i);
    assert forall j :: 0 <= j < |line| ==> line[j] == raw[i + j];
  }

  lemma {:induction false} LinesArePlain(raw: Bytes, i: nat, fence: Fence)
    requires i <= |raw| && IsPlainText(raw) && Ordered(PageSpans(raw, i, fence), i, |raw|)
    ensures forall k :: 0 <= k < |PageLines(raw, i, fence)| ==>
              var l := PageLines(raw, i, fence)[k];
              IsPlainText(l.line) && LineLike(l.line) && (IsScanned(l) ==> Ordered(LineSpans(l.line), 0, |l.line|))
    decreases |raw| - i
  {
    hide Ordered, PageSpans, LineSpans, LineLike, FenceAfter, LineAt, IsPlainText, Shift;
    if i < |raw| {
      var line := LineAt(raw, i);
      CutOrdered(raw, i, fence);
      LineAtIsLineLike(raw, i);
      PlainLine(raw, i);
      LinesArePlain(raw, i + |line|, FenceAfter(fence, line));
      var lines, rest := PageLines(raw, i, fence), PageLines(raw, i + |line|, FenceAfter(fence, line));
      assert lines == [FencedLine(line, fence)] + rest;
    }
  }

  lemma PlainInline(c: Context, line: Bytes)
    requires IsPlainText(line)
    ensures forall k :: 0 <= k < |InlineSpans(line, 0)| ==>
              var s := InlineSpans(line, 0)[k];
              s.start <= s.end <= |line| && KeepsOutBrackets(c, line[s.start..s.end])
  {
    hide DestinationEnd, Replacement, IsPlainText, InlineSpans, CarriesBracket;
    var inline := InlineSpans(line, 0);
    InlineOrdered(line, 0);
    forall k | 0 <= k < |inline| ensures !CarriesBracket(line[inline[k].start..inline[k].end]) {
      NoBracketCarried(line, inline[k].start, inline[k].end, true);
    }
  }

  lemma PlainDefinition(c: Context, line: Bytes, m: nat, e: nat)
    requires IsPlainText(line) && LineLike(line) && Ordered(LineSpans(line), 0, |line|)
    requires ReferenceHead(line) == Some(m) && DestinationEnd(line, m, false) == e
    ensures m < e <= |line| && KeepsOutBrackets(c, line[m..e]) && KeepsOutOpenings(c, line[m..e])
  {
    hide DestinationEnd, ReferenceHead, Replacement, IsPlainText, LineLike, InlineSpans, CarriesBracket, CarriesOpening,
         LineSpans, Ordered, UrlSplit;
    InlineAfterReference(line, m, e);
    NoBracketCarried(line, m, e, false);
    OldIsQuiet(line, m);
    TargetIsClean(line, m, e);
    if IsLocal(UrlSplit(Inner(line[m..e]))) {
      NoOpeningCarried(line[m..e]);
    }
    NotLocalStays(c, line[m..e]);
  }

  lemma PlainLineKeeps(c: Context, line: Bytes)
    requires IsPlainText(line) && LineLike(line) && Ordered(LineSpans(line), 0, |line|)
    ensures LineKeeps(c, line)
  {
    hide DestinationEnd, ReferenceHead, IsPlainText, LineLike, InlineSpans, KeepsOutBrackets, KeepsOutOpenings, Ordered;
    PlainInline(c, line);
    if ReferenceHead(line).Some? {
      var m := ReferenceHead(line).value;
      PlainDefinition(c, line, m, DestinationEnd(line, m, false));
    }
    var spans, inline := LineSpans(line), InlineSpans(line, 0);
    assert forall k :: 0 <= k < |spans| ==> (spans[k] in ReferenceSpans(line) || spans[k] in inline);
  }

  lemma NotLocalStays(c: Context, t: Bytes)
    ensures !IsLocal(UrlSplit(Inner(t))) ==> Replacement(c, t) == t
  {
  }

  lemma TargetIsClean(line: Bytes, m: nat, e: nat)
    requires m < e <= |line| && DestinationEnd(line, m, false) == e
    requires IsPlainText(line) && LineLike(line)
    ensures IsClean(line[m..e])
  {
    var t := line[m..e];
    DestinationsBeforeBreak(line, m, false);
    assert forall j :: 0 <= j < |t| ==> t[j] == line[m + j] && line[m + j] in line;
  }

  /** A page without tabs and empty brackets is scanned to the same destinations once it is
      archived: as many, in the same order, the k-th being the replacement of the k-th. */
  lemma PlainPagesSurvive(c: Context, raw: Bytes)
    requires Relocated(c, raw).Some? && IsPlainText(raw)
    ensures Targets(Relocated(c, raw).value.page) == Moved(RewriterOf(c), raw, Targets(raw), 0, 0)
  {
    hide Build, Moved, PageSpans, PageLines, LineKeeps, IsPlainText, LineLike, LineSpans, IsScanned, RewriterOf;
    LinesArePlain(raw, 0, NoFence);
    var lines := PageLines(raw, 0, NoFence);
    forall k | 0 <= k < |lines| && IsScanned(lines[k]) ensures LineKeeps(c, lines[k].line) {
      PlainLineKeeps(c, lines[k].line);
    }
    RescanExactly(c, raw);
  }
}
