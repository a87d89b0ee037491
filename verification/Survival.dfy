/** When an archived page shows the same destinations as the page: the exact condition, told
    from the text of the page. */
module Survival {
  import opened ByteStrings
  import opened Paths
  import opened Links
  import opened MarkdownScan
  import opened Splicing
  import opened Rescan
  import opened PageRescan
  import opened Relocation
  import opened ArchiveRecords

  /** The query and the fragment of a destination with their marks: what is taken over. */
  function Kept(target: Bytes): Bytes {
    var uri := UrlSplit(Inner(target));
    Marked(QUESTION, uri.query) + Marked(HASH, uri.fragment)
  }

  function Closer(target: Bytes): Bytes {
    if IsAngled(target) then [GREATER] else []
  }

  /** The text taken over closes the brackets it is put in. */
  predicate CarriesBracket(target: Bytes) {
    IsAngled(target) && GREATER in Kept(target)
  }

  /** The text taken over opens an inline destination. */
  predicate CarriesOpening(target: Bytes) {
    !Quiet(Kept(target) + Closer(target))
  }

  predicate KeepsOutBrackets(c: Context, target: Bytes) {
    IsRewritten(c, target) ==> !CarriesBracket(target)
  }

  predicate KeepsOutOpenings(c: Context, target: Bytes) {
    IsRewritten(c, target) ==> !CarriesOpening(target)
  }

  /** The condition for one line, on its own destinations. */
  predicate LineKeeps(c: Context, line: Bytes) {
    (forall k :: 0 <= k < |LineSpans(line)| && LineSpans(line)[k].start <= LineSpans(line)[k].end <= |line| ==>
       KeepsOutBrackets(c, line[LineSpans(line)[k].start..LineSpans(line)[k].end]))
    && (ReferenceHead(line).Some? ==>
          KeepsOutOpenings(c, line[ReferenceHead(line).value..DestinationEnd(line, ReferenceHead(line).value, false)]))
  }

  predicate IsScanned(l: FencedLine) {
    FenceMarker(l.line).NoFence? && l.fence.NoFence?
  }

  /** The condition for a page: no rewritten destination outside fences carries a closing
      bracket into its brackets, and none of a reference definition carries an opening. */
  predicate PageKeeps(c: Context, raw: Bytes) {
    LinesKeep(c, PageLines(raw, 0, NoFence))
  }

  predicate LinesKeep(c: Context, lines: seq<FencedLine>) {
    forall k :: 0 <= k < |lines| && IsScanned(lines[k]) ==> LineKeeps(c, lines[k].line)
  }

  // ------------------------------------------- the two forms are the same

  lemma QuietSuffix(a: Bytes, b: Bytes)
    requires RBRACKET !in a
    ensures Quiet(a + b) <==> Quiet(b)
  {
    assert forall k :: 0 <= k < |a| ==> (a + b)[k] == a[k];
    forall j | 0 <= j < |b| ensures OpensAt(b, j) == OpensAt(a + b, |a| + j) {
    }
    if Quiet(b) {
      forall j | 0 <= j < |a + b| ensures !OpensAt(a + b, j) {
        if j >= |a| {
          assert !OpensAt(b, j - |a|);
        }
      }
    }
  }

  lemma ReplacementParts(c: Context, target: Bytes)
    requires IsRewritten(c, target)
    ensures
      var path := Quote(NewPath(c, target));
      RBRACKET !in path && GREATER !in path
      && Inner(Replacement(c, target)) == path + Kept(target)
      && Replacement(c, target) == (if IsAngled(target) then [LESS] else []) + path + (Kept(target) + Closer(target))
  {
    hide UrlSplit, NewPath, Quote, IsRewritten, Shape, Marked;
    ReplacementShape(c, target);
    QuoteIsSafe(NewPath(c, target));
    var path := Quote(NewPath(c, target));
    assert forall k :: 0 <= k < |path| ==> IsSafe(path[k]);
    var uri := UrlSplit(Inner(target));
    Associates(path, Marked(QUESTION, uri.query), Marked(HASH, uri.fragment));
    assert NewText(c, target) == path + Kept(target);
    Grouped(path, Kept(target));
  }

  lemma Grouped(path: Bytes, kept: Bytes)
    ensures [LESS] + (path + kept) + [GREATER] == [LESS] + path + (kept + [GREATER])
    ensures path + kept == [] + path + (kept + [])
  {
  }

  lemma RewrittenKeeps(c: Context, target: Bytes)
    requires IsRewritten(c, target)
    ensures Replacement(c, target) != target ==>
              (KeepsBrackets(target, Replacement(c, target)) <==> !CarriesBracket(target))
    ensures Quiet(Replacement(c, target)) <==> !CarriesOpening(target)
  {
    hide Replacement, Quiet, Kept, IsRewritten;
    ReplacementParts(c, target);
    var path := Quote(NewPath(c, target));
    QuietSuffix((if IsAngled(target) then [LESS] else []) + path, Kept(target) + Closer(target));
  }

  /** A destination that rewriting happens to leave as it is has no `>` in its brackets. */
  lemma UnchangedIsClosed(c: Context, line: Bytes, o: nat, e: nat, inline: bool)
    requires o < e <= |line| && DestinationEnd(line, o, inline) == e
    requires IsRewritten(c, line[o..e]) && Replacement(c, line[o..e]) == line[o..e]
    ensures !CarriesBracket(line[o..e])
  {
    hide UrlSplit, Replacement, IsRewritten, NewPath, Quote, CloserAt, TokenEnd, Marked;
    var t := line[o..e];
    if IsAngled(t) {
      var path := Quote(NewPath(c, t));
      ReplacementParts(c, t);
      ReplacementShape(c, t);
      UnchangedStart(c, t);
      DestinationBytes(line, o, e, inline);
      assert Inner(t)[0] == t[1] == line[o + 1] && t[|t| - 1] == line[e - 1];
      var k := CloserAt(line, o + 1);
      assert k < e ==> line[k] == t[k - o];
      assert AngleAt(line, o);
      KeptBytes(t);
    }
  }

  /** What is taken over is made of bytes of the destination. */
  lemma KeptBytes(t: Bytes)
    ensures forall b :: b in Kept(t) ==> b in Inner(t)
  {
    hide UrlSplit;
    PartsOf(Inner(t));
  }

  lemma TextStartsSafe(c: Context, target: Bytes)
    ensures NewText(c, target) != [] && IsSafe(NewText(c, target)[0])
  {
    hide UrlSplit, RelPath, Quote;
    var uri := UrlSplit(Inner(target));
    RelPathRelative(c.cwd, Image(c, Resolved(c, uri.path)), Dirname(c.destination));
    QuoteIsSafe(NewPath(c, target));
    var path := Quote(NewPath(c, target));
    assert NewText(c, target)[0] == path[0];
  }

  lemma UnchangedStart(c: Context, t: Bytes)
    requires IsRewritten(c, t) && Replacement(c, t) == t
    ensures Inner(t) != [] && Inner(t)[0] != GREATER
  {
    hide Replacement, IsRewritten, NewText;
    ReplacementShape(c, t);
    TextStartsSafe(c, t);
  }

  /** A destination of a reference definition that is left alone is quiet. */
  lemma {:induction false} OldIsQuiet(line: Bytes, m: nat)
    requires ReferenceHead(line) == Some(m) && Ordered(LineSpans(line), 0, |line|)
    ensures Quiet(line[m..DestinationEnd(line, m, false)])
  {
    hide ReferenceHead, DestinationEnd;
    var e := DestinationEnd(line, m, false);
    InlineAfterReference(line, m, e);
    var t := line[m..e];
    assert forall j :: 0 <= j < |t| ==> t[j] == line[m + j];
    forall j | 0 <= j < |t| ensures !OpensAt(t, j) {
      assert !OpensAt(line, m + j);
    }
  }

  lemma TargetForms(c: Context, target: Bytes)
    requires IsRewritten(c, target) && Replacement(c, target) == target ==> !CarriesBracket(target)
    ensures KeepsBrackets(target, RewriterOf(c)(target)) <==> KeepsOutBrackets(c, target)
    ensures Quiet(RewriterOf(c)(target)) ==> KeepsOutOpenings(c, target)
    ensures Quiet(target) && KeepsOutOpenings(c, target) ==> Quiet(RewriterOf(c)(target))
  {
    hide Replacement, Quiet, CarriesBracket, CarriesOpening, IsRewritten;
    if IsRewritten(c, target) {
      RewrittenKeeps(c, target);
    } else {
      LeftAlone(c, target);
    }
  }

  lemma LeftAlone(c: Context, target: Bytes)
    requires !IsRewritten(c, target)
    ensures Replacement(c, target) == target
  {
  }

  /** The two forms for one destination of a line. */
  lemma DestinationForms(c: Context, line: Bytes, o: nat, e: nat, inline: bool)
    requires o < e <= |line| && DestinationEnd(line, o, inline) == e
    ensures
      var target := line[o..e];
      (KeepsBrackets(target, RewriterOf(c)(target)) <==> KeepsOutBrackets(c, target))
      && (Quiet(RewriterOf(c)(target)) ==> KeepsOutOpenings(c, target))
      && (Quiet(target) && KeepsOutOpenings(c, target) ==> Quiet(RewriterOf(c)(target)))
  {
    hide Replacement, Quiet, CarriesBracket, CarriesOpening, IsRewritten, KeepsBrackets, KeepsOutBrackets,
         KeepsOutOpenings, RewriterOf, DestinationEnd;
    if IsRewritten(c, line[o..e]) && Replacement(c, line[o..e]) == line[o..e] {
      UnchangedIsClosed(c, line, o, e, inline);
    }
    TargetForms(c, line[o..e]);
  }

  lemma LineForms(c: Context, line: Bytes)
    requires Ordered(LineSpans(line), 0, |line|)
    ensures LineSurvives(RewriterOf(c), line) <==> LineKeeps(c, line)
  {
    hide RewriterOf, LineSpans, ReferenceHead, DestinationEnd, Quiet, KeepsOutBrackets, KeepsOutOpenings,
         KeepsBrackets, Ordered;
    var spans := LineSpans(line);
    forall k | 0 <= k < |spans| && spans[k].start <= spans[k].end <= |line|
      ensures
        var target := line[spans[k].start..spans[k].end];
        KeepsBrackets(target, RewriterOf(c)(target)) <==> KeepsOutBrackets(c, target)
    {
      var inline := SpanIsDestination(line, k);
      DestinationForms(c, line, spans[k].start, spans[k].end, inline);
    }
    if ReferenceHead(line).Some? {
      var m := ReferenceHead(line).value;
      OldIsQuiet(line, m);
      DefinitionIsDestination(line, m);
      DestinationForms(c, line, m, DestinationEnd(line, m, false), false);
    }
  }

  lemma DefinitionIsDestination(line: Bytes, m: nat)
    requires ReferenceHead(line) == Some(m)
    ensures m < DestinationEnd(line, m, false) <= |line|
  {
    hide ReferenceHead, DestinationEnd;
  }

  lemma SpanIsDestination(line: Bytes, k: nat) returns (inline: bool)
    requires k < |LineSpans(line)|
    ensures
      var s := LineSpans(line)[k];
      s.start < s.end <= |line| && DestinationEnd(line, s.start, inline) == s.end
  {
    hide ReferenceHead, DestinationEnd, InlineSpans;
    InlineOrdered(line, 0);
    var reference, all := ReferenceSpans(line), InlineSpans(line, 0);
    inline := k >= |reference|;
    if inline {
      assert LineSpans(line)[k] == all[k - |reference|];
    } else {
      DefinitionIsDestination(line, ReferenceHead(line).value);
    }
  }

  lemma {:induction false} PageForms(c: Context, raw: Bytes, i: nat, fence: Fence)
    requires i <= |raw| && Ordered(PageSpans(raw, i, fence), i, |raw|)
    ensures PageSurvives(RewriterOf(c), raw, i, fence) <==> LinesKeep(c, PageLines(raw, i, fence))
    decreases |raw| - i
  {
    hide Ordered, LineSurvives, LineKeeps, FenceAfter, LineAt, FenceMarker, PageSpans, LineSpans, RewriterOf, LinesKeep;
    if i == |raw| {
      NoLines(c);
    } else {
      var line := LineAt(raw, i);
      var after := FenceAfter(fence, line);
      CutOrdered(raw, i, fence);
      if IsScanned(FencedLine(line, fence)) {
        LineForms(c, line);
      }
      PageForms(c, raw, i + |line|, after);
      var lines, rest := PageLines(raw, i, fence), PageLines(raw, i + |line|, after);
      assert lines == [FencedLine(line, fence)] + rest;
      assert PageSurvives(RewriterOf(c), raw, i, fence)
        <==> (IsScanned(lines[0]) ==> LineKeeps(c, lines[0].line)) && PageSurvives(RewriterOf(c), raw, i + |line|, after);
      FirstAndRest(c, lines[0], rest);
    }
  }

  lemma NoLines(c: Context)
    ensures LinesKeep(c, [])
  {
  }

  lemma FirstAndRest(c: Context, first: FencedLine, rest: seq<FencedLine>)
    ensures LinesKeep(c, [first] + rest) <==> (IsScanned(first) ==> LineKeeps(c, first.line)) && LinesKeep(c, rest)
  {
    hide LineKeeps, IsScanned;
    var all := [first] + rest;
    assert all[0] == first && forall k :: 0 <= k < |rest| ==> rest[k] == all[k + 1];
  }

  /** Scanning the archived page gives the replaced destinations in their places, as many and
      in the same order, if and only if the page keeps brackets and openings out of the text
      it takes over. */
  lemma RescanExactly(c: Context, raw: Bytes)
    requires Relocated(c, raw).Some?
    ensures Targets(Relocated(c, raw).value.page) == Moved(RewriterOf(c), raw, Targets(raw), 0, 0)
       <==> PageKeeps(c, raw)
  {
    hide Build, Moved, PageSurvives, Replacement, PageSpans;
    ArchiveRescan(c, raw);
    PageForms(c, raw, 0, NoFence);
  }
}
