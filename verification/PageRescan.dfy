/** The scanner on a whole rewritten page: the same lines, the same fences, and exactly when
    the same destinations. */
module PageRescan {
  import opened ByteStrings
  import opened MarkdownScan
  import opened Splicing
  import opened Rescan

  /** A line of a page with the fence state before it. */
  datatype FencedLine = FencedLine(line: Bytes, fence: Fence)

  function PageLines(raw: Bytes, i: nat, fence: Fence): seq<FencedLine>
    requires i <= |raw|
    decreases |raw| - i
  {
    if i == |raw| then []
    else
      var line := LineAt(raw, i);
      [FencedLine(line, fence)] + PageLines(raw, i + |line|, FenceAfter(fence, line))
  }

  // ------------------------------------------------------- spans of a line

  lemma LineAtIsLineLike(raw: Bytes, i: nat)
    requires i < |raw|
    ensures
      var line := LineAt(raw, i);
      LineLike(line) && BreakAt(line, 0) == BreakAt(raw, i) - i
      && (BreakAt(line, 0) == |line| ==> i + |line| == |raw|)
  {
    var line, b := LineAt(raw, i), BreakAt(raw, i);
    assert forall j :: 0 <= j < |line| ==> line[j] == raw[i + j];
    assert BreakAt(line, 0) == b - i;
  }

  /** Destinations lie before the line break. */
  lemma DestinationsBeforeBreak(line: Bytes, o: nat, inline: bool)
    requires o < |line| && !IsStop(line[o], inline) && LineLike(line)
    ensures DestinationEnd(line, o, inline) <= BreakAt(line, 0)
  {
  }

  /** Spans that are not empty, do not start at the start, and end in time. */
  predicate InText(spans: seq<Span>, limit: nat) {
    forall k :: 0 <= k < |spans| ==> 2 <= spans[k].start < spans[k].end <= limit
  }

  /** The spans of a line: nonempty, inside its text, and the first not at its start. */
  lemma SpansInText(line: Bytes, fence: Fence)
    requires LineLike(line)
    ensures InText(SpansOfLine(line, fence), BreakAt(line, 0))
  {
    hide DestinationEnd, ReferenceHead, InlineSpans;
    InlineSpansInText(line);
    if ReferenceHead(line).Some? {
      DestinationsBeforeBreak(line, ReferenceHead(line).value, false);
    }
  }

  lemma InlineSpansInText(line: Bytes)
    requires LineLike(line)
    ensures InText(InlineSpans(line, 0), BreakAt(line, 0))
  {
    hide DestinationEnd, InlineSpans, LineLike;
    var inline := InlineSpans(line, 0);
    InlineOrdered(line, 0);
    InlineStarts(line, 0);
    forall k | 0 <= k < |inline| ensures 2 <= inline[k].start < inline[k].end <= BreakAt(line, 0) {
      DestinationsBeforeBreak(line, inline[k].start, true);
    }
  }

  lemma {:induction false} InlineStarts(line: Bytes, i: nat)
    requires i <= |line|
    ensures forall k :: 0 <= k < |InlineSpans(line, i)| ==>
              i + 2 <= InlineSpans(line, i)[k].start < |line| && !IsStop(line[InlineSpans(line, i)[k].start], true)
    decreases |line| - i
  {
    if i < |line| {
      InlineStarts(line, if OpensAt(line, i) then DestinationEnd(line, i + 2, true) else i + 1);
    }
  }

  lemma {:induction false} PageSpansStart(raw: Bytes, i: nat, fence: Fence)
    requires i <= |raw|
    ensures forall k :: 0 <= k < |PageSpans(raw, i, fence)| ==>
              i + 2 <= PageSpans(raw, i, fence)[k].start < PageSpans(raw, i, fence)[k].end
    decreases |raw| - i
  {
    hide SpansOfLine, LineAt;
    if i < |raw| {
      var line := LineAt(raw, i);
      LineAtIsLineLike(raw, i);
      SpansInText(line, fence);
      PageSpansStart(raw, i + |line|, FenceAfter(fence, line));
    }
  }

  /** Destinations are nonempty and lie on the page. */
  lemma {:induction false} SpansOnPage(raw: Bytes, i: nat, fence: Fence)
    requires i <= |raw|
    ensures forall k :: 0 <= k < |PageSpans(raw, i, fence)| ==>
              PageSpans(raw, i, fence)[k].start < PageSpans(raw, i, fence)[k].end <= |raw|
    decreases |raw| - i
  {
    hide SpansOfLine, LineAt, FenceAfter, LineLike;
    if i < |raw| {
      var line := LineAt(raw, i);
      LineAtIsLineLike(raw, i);
      SpansInText(line, fence);
      SpansOnPage(raw, i + |line|, FenceAfter(fence, line));
    }
  }

  // --------------------------------------------------- a page in two parts

  /** One step of `Moved` and of `Splice`. */
  lemma Unfold(f: Rewriter, raw: Bytes, spans: seq<Span>, c: nat, at: nat)
    requires spans != [] && Ordered(spans, c, |raw|)
    ensures
      var s := spans[0];
      var start := at + (s.start - c);
      var end := start + |f(raw[s.start..s.end])|;
      c <= s.start <= s.end <= |raw| && Ordered(spans[1..], s.end, |raw|)
      && Moved(f, raw, spans, c, at) == [Span(start, end)] + Moved(f, raw, spans[1..], s.end, end)
      && Splice(f, raw, spans, c) == raw[c..s.start] + f(raw[s.start..s.end]) + Splice(f, raw, spans[1..], s.end)
      && at + |Splice(f, raw, spans, c)| == end + |Splice(f, raw, spans[1..], s.end)|
  {
  }

  /** The spans of a suffix, shifted, are spans of the whole. */
  lemma {:induction false} ShiftedSplice(f: Rewriter, w: Bytes, i: nat, spans: seq<Span>, c: nat)
    requires i <= |w| && Ordered(spans, c, |w| - i)
    ensures Ordered(Shift(spans, i), i + c, |w|)
    ensures Splice(f, w, Shift(spans, i), i + c) == Splice(f, w[i..], spans, c)
    decreases |spans|
  {
    hide Splice, Shift, Moved;
    if spans == [] {
      NoneSpliced(f, w, i, spans, c);
    } else {
      var s, later := spans[0], spans[1..];
      ShiftTail(spans, i);
      ShiftedSplice(f, w, i, later, s.end);
      SuffixOf(w, i, c, s.start);
      SuffixOf(w, i, s.start, s.end);
      Unfold(f, w[i..], spans, c, 0);
      Unfold(f, w, Shift(spans, i), i + c, 0);
    }
  }

  lemma NoneSpliced(f: Rewriter, w: Bytes, i: nat, spans: seq<Span>, c: nat)
    requires spans == [] && i <= |w| && c <= |w| - i
    ensures Ordered(Shift(spans, i), i + c, |w|)
    ensures Splice(f, w, Shift(spans, i), i + c) == Splice(f, w[i..], spans, c)
  {
  }

  lemma SuffixOf(w: Bytes, i: nat, a: nat, b: nat)
    requires a <= b && i + b <= |w|
    ensures w[i..][a..b] == w[i + a..i + b]
  {
  }

  lemma {:induction false} ShiftedMoved(f: Rewriter, w: Bytes, i: nat, spans: seq<Span>, c: nat, base: nat, at: nat)
    requires i <= |w| && Ordered(spans, c, |w| - i) && Ordered(Shift(spans, i), i + c, |w|)
    ensures Moved(f, w, Shift(spans, i), i + c, base + at) == Shift(Moved(f, w[i..], spans, c, at), base)
    decreases |spans|
  {
    hide Moved, Splice, Shift, Ordered;
    if spans == [] {
      NoneMoved(f, w, i, spans, c, base, at);
    } else {
      var s, later := spans[0], spans[1..];
      Unfold(f, w[i..], spans, c, at);
      UnfoldShifted(f, w, i, spans, c, base, at);
      var start := at + (s.start - c);
      var end := start + |f(w[i..][s.start..s.end])|;
      ShiftedMoved(f, w, i, later, s.end, base, end);
      ShiftCons(Span(start, end), Moved(f, w[i..], later, s.end, end), base);
    }
  }

  lemma NoneMoved(f: Rewriter, w: Bytes, i: nat, spans: seq<Span>, c: nat, base: nat, at: nat)
    requires spans == [] && i <= |w| && Ordered(spans, c, |w| - i) && Ordered(Shift(spans, i), i + c, |w|)
    ensures Moved(f, w, Shift(spans, i), i + c, base + at) == Shift(Moved(f, w[i..], spans, c, at), base)
  {
  }

  lemma UnfoldShifted(f: Rewriter, w: Bytes, i: nat, spans: seq<Span>, c: nat, base: nat, at: nat)
    requires spans != []
    requires i <= |w| && Ordered(spans, c, |w| - i) && Ordered(Shift(spans, i), i + c, |w|)
    ensures
      var s, later := spans[0], spans[1..];
      c <= s.start <= s.end <= |w| - i
      && (var start := at + (s.start - c);
          var end := start + |f(w[i..][s.start..s.end])|;
          Ordered(later, s.end, |w| - i) && Ordered(Shift(later, i), i + s.end, |w|)
          && Moved(f, w, Shift(spans, i), i + c, base + at)
             == [Span(base + start, base + end)] + Moved(f, w, Shift(later, i), i + s.end, base + end))
  {
    hide Moved, Splice, Shift;
    var s, later := spans[0], spans[1..];
    ShiftTail(spans, i);
    Unfold(f, w, Shift(spans, i), i + c, base + at);
    SuffixOf(w, i, s.start, s.end);
    var start := at + (s.start - c);
    assert (base + at) + ((i + s.start) - (i + c)) == base + start;
  }

  lemma ShiftCons(s: Span, later: seq<Span>, i: nat)
    ensures Shift([s] + later, i) == [Span(i + s.start, i + s.end)] + Shift(later, i)
  {
    assert ([s] + later)[1..] == later;
    ShiftTail([s] + later, i);
  }

  lemma ShiftTail(spans: seq<Span>, i: nat)
    requires spans != []
    ensures Shift(spans, i)[0] == Span(i + spans[0].start, i + spans[0].end)
    ensures Shift(spans, i)[1..] == Shift(spans[1..], i)
    ensures Shift(spans, i) == [Span(i + spans[0].start, i + spans[0].end)] + Shift(spans[1..], i)
  {
  }

  /** Splicing a page is splicing a prefix of it, then the rest. */
  lemma {:induction false} SpliceInParts(f: Rewriter, raw: Bytes, n: nat, spans: seq<Span>, rest: seq<Span>, c: nat)
    requires n <= |raw| && Ordered(spans, c, n) && Ordered(rest, n, |raw|)
    ensures Ordered(spans + rest, c, |raw|)
    ensures Splice(f, raw, spans + rest, c) == Splice(f, raw[..n], spans, c) + Splice(f, raw, rest, n)
    decreases |spans|
  {
    hide Splice, Moved;
    if spans == [] {
      assert [] + rest == rest;
      OrderedEarlier(rest, c, n, |raw|);
      SpliceOverGap(f, raw, n, rest, c);
    } else {
      var s, later := spans[0], spans[1..];
      assert (spans + rest)[1..] == later + rest && (spans + rest)[0] == s;
      SpliceInParts(f, raw, n, later, rest, s.end);
      Unfold(f, raw, spans + rest, c, 0);
      Unfold(f, raw[..n], spans, c, 0);
      assert raw[..n][c..s.start] == raw[c..s.start] && raw[..n][s.start..s.end] == raw[s.start..s.end];
      RegroupTail(raw[c..s.start], f(raw[s.start..s.end]), Splice(f, raw[..n], later, s.end), Splice(f, raw, rest, n));
    }
  }

  lemma RegroupTail(a: Bytes, b: Bytes, c: Bytes, d: Bytes)
    ensures a + b + (c + d) == (a + b + c) + d
  {
  }

  lemma SpliceOverGap(f: Rewriter, raw: Bytes, n: nat, rest: seq<Span>, c: nat)
    requires c <= n <= |raw| && Ordered(rest, n, |raw|) && Ordered(rest, c, |raw|)
    ensures Splice(f, raw, rest, c) == Splice(f, raw[..n], [], c) + Splice(f, raw, rest, n)
  {
    if rest == [] {
      assert raw[c..] == raw[..n][c..] + raw[n..];
    } else {
      var s := rest[0];
      assert raw[c..s.start] == raw[..n][c..] + raw[n..s.start];
      RegroupHead(raw[..n][c..], raw[n..s.start], f(raw[s.start..s.end]), Splice(f, raw, rest[1..], s.end));
    }
  }

  lemma SliceOfPrefix(raw: Bytes, n: nat, i: nat, j: nat)
    requires i <= j <= n <= |raw|
    ensures raw[..n][i..j] == raw[i..j]
  {
  }

  lemma RegroupHead(a: Bytes, b: Bytes, c: Bytes, d: Bytes)
    ensures (a + b) + c + d == a + (b + c + d)
  {
  }

  lemma {:induction false} MovedInParts(f: Rewriter, raw: Bytes, n: nat, spans: seq<Span>, rest: seq<Span>,
                                        c: nat, at: nat)
    requires n <= |raw| && Ordered(spans, c, n) && Ordered(rest, n, |raw|) && Ordered(spans + rest, c, |raw|)
    ensures Moved(f, raw, spans + rest, c, at)
         == Moved(f, raw[..n], spans, c, at) + Moved(f, raw, rest, n, at + |Splice(f, raw[..n], spans, c)|)
    decreases |spans|
  {
    hide Moved, Splice;
    if spans == [] {
      assert [] + rest == rest;
      MovedOverGap(f, raw, n, rest, c, at);
    } else {
      var s, later := spans[0], spans[1..];
      assert (spans + rest)[1..] == later + rest && (spans + rest)[0] == s;
      Unfold(f, raw[..n], spans, c, at);
      Unfold(f, raw, spans + rest, c, at);
      SliceOfPrefix(raw, n, s.start, s.end);
      var start := at + (s.start - c);
      var end := start + |f(raw[s.start..s.end])|;
      MovedInParts(f, raw, n, later, rest, s.end, end);
      RegroupSpans([Span(start, end)], Moved(f, raw[..n], later, s.end, end),
                   Moved(f, raw, rest, n, end + |Splice(f, raw[..n], later, s.end)|));
    }
  }

  lemma RegroupSpans(a: seq<Span>, b: seq<Span>, c: seq<Span>)
    ensures a + (b + c) == (a + b) + c
  {
  }

  lemma MovedOverGap(f: Rewriter, raw: Bytes, n: nat, rest: seq<Span>, c: nat, at: nat)
    requires c <= n <= |raw| && Ordered(rest, n, |raw|) && Ordered(rest, c, |raw|)
    ensures Moved(f, raw, rest, c, at)
         == Moved(f, raw[..n], [], c, at) + Moved(f, raw, rest, n, at + |Splice(f, raw[..n], [], c)|)
  {
  }

  // ----------------------------------------------------- one line of a page

  lemma {:induction false} OrderedSplit(a: seq<Span>, b: seq<Span>, c: nat, n: nat, limit: nat)
    requires Ordered(a + b, c, limit) && c <= n <= limit
    requires forall k :: 0 <= k < |a| ==> a[k].end <= n
    requires b != [] ==> b[0].start >= n
    ensures Ordered(a, c, n) && Ordered(b, n, limit)
    decreases |a|
  {
    if a == [] {
      assert a + b == b;
    } else {
      assert (a + b)[1..] == a[1..] + b && (a + b)[0] == a[0];
      OrderedSplit(a[1..], b, a[0].end, n, limit);
    }
  }

  lemma {:induction false} OrderedUnshift(spans: seq<Span>, i: nat, c: nat, n: nat)
    requires Ordered(Shift(spans, i), i + c, i + n)
    ensures Ordered(spans, c, n)
    decreases |spans|
  {
    if spans != [] {
      ShiftTail(spans, i);
      OrderedUnshift(spans[1..], i, spans[0].end, n);
    }
  }

  lemma OrderedLineThenRest(spans: seq<Span>, rest: seq<Span>, i: nat, n: nat, limit: nat)
    requires i <= n <= limit && Ordered(Shift(spans, i) + rest, i, limit)
    requires forall k :: 0 <= k < |spans| ==> i + spans[k].end <= n
    requires rest != [] ==> rest[0].start >= n
    ensures Ordered(spans, 0, n - i) && Ordered(Shift(spans, i), i, n) && Ordered(rest, n, limit)
  {
    OrderedSplit(Shift(spans, i), rest, i, n, limit);
    OrderedUnshift(spans, i, 0, n - i);
  }

  lemma {:induction false} ShiftedLine(f: Rewriter, line: Bytes, w: Bytes, i: nat, spans: seq<Span>, at: nat)
    requires i <= |w| && line == w[i..] && Ordered(spans, 0, |line|) && Ordered(Shift(spans, i), i, |w|)
    ensures Splice(f, w, Shift(spans, i), i) == Splice(f, line, spans, 0)
    ensures Moved(f, w, Shift(spans, i), i, at) == Shift(Moved(f, line, spans, 0, 0), at)
  {
    hide Splice, Moved, Shift, Ordered;
    assert i + 0 == i && at + 0 == at;
    ShiftedSplice(f, w, i, spans, 0);
    ShiftedMoved(f, w, i, spans, 0, at, 0);
  }

  /** The splice and the moved spans of a page: those of a line of it, then of the rest. */
  lemma {:induction false} LineThenRest(f: Rewriter, raw: Bytes, i: nat, line: Bytes, spans: seq<Span>,
                                        rest: seq<Span>, at: nat)
    requires i + |line| <= |raw| && line == raw[..i + |line|][i..]
    requires Ordered(spans, 0, |line|) && Ordered(Shift(spans, i), i, i + |line|) && Ordered(rest, i + |line|, |raw|)
    requires Ordered(Shift(spans, i) + rest, i, |raw|)
    ensures Splice(f, raw, Shift(spans, i) + rest, i) == Splice(f, line, spans, 0) + Splice(f, raw, rest, i + |line|)
    ensures Moved(f, raw, Shift(spans, i) + rest, i, at)
         == Shift(Moved(f, line, spans, 0, 0), at) + Moved(f, raw, rest, i + |line|, at + |Splice(f, line, spans, 0)|)
  {
    hide Splice, Moved, Shift, Ordered;
    SpliceInParts(f, raw, i + |line|, Shift(spans, i), rest, i);
    MovedInParts(f, raw, i + |line|, Shift(spans, i), rest, i, at);
    ShiftedLine(f, line, raw[..i + |line|], i, spans, at);
  }

  lemma LineIsSlice(raw: Bytes, i: nat)
    requires i < |raw|
    ensures LineAt(raw, i) == raw[..i + |LineAt(raw, i)|][i..]
  {
  }

  /** A fence marker depends only on what comes before the first byte that cannot be part of it. */
  lemma MarkerKept(line: Bytes, z: nat, page: Bytes)
    requires z < |line| && HeldAt(page, 0, line[..z + 1])
    requires !IsSpace(line[z]) && line[z] != BACKTICK && line[z] != TILDE
    ensures FenceMarker(page) == FenceMarker(line)
  {
    assert forall j :: 0 <= j <= z ==> page[j] == line[..z + 1][j] == line[j];
    assert forall j :: 0 <= j <= z ==> line[j] == page[j];
    var k := SkipSpace(line, 0);
    assert k <= z && SkipSpace(page, 0) == k;
    assert RunEnd(line, k, line[k]) <= z || line[k] == line[z];
    if line[k] == BACKTICK || line[k] == TILDE {
      assert RunEnd(page, k, page[k]) == RunEnd(line, k, line[k]);
    }
  }

  /** The byte before the first destination of a line that keeps it from being a marker. */
  lemma BracketBefore(line: Bytes)
    requires LineSpans(line) != []
    ensures exists z :: 0 <= z < LineSpans(line)[0].start && z < |line| && (line[z] == LBRACKET || line[z] == RBRACKET)
  {
    match ReferenceHead(line)
    case Some(m) =>
      assert line[RunEnd(line, 0, SPACE)] == LBRACKET;
    case None =>
      InlineAtNext(line, 0);
      assert line[NextOpening(line, 0)] == RBRACKET;
  }

  /** The rewritten line: unbroken text, then the line's own terminator. */
  lemma {:induction false} NewBody(f: Rewriter, line: Bytes, spans: seq<Span>)
    requires LineLike(line) && Tame(f) && Ordered(spans, 0, |line|)
    requires forall k :: 0 <= k < |spans| ==> spans[k].end <= BreakAt(line, 0)
    ensures
      var b := BreakAt(line, 0);
      Ordered(spans, 0, b)
      && (var text := Splice(f, line[..b], spans, 0);
          Splice(f, line, spans, 0) == text + line[b..] && forall j :: 0 <= j < |text| ==> !IsBreak(text[j]))
  {
    hide Splice, Ordered;
    var b := BreakAt(line, 0);
    assert spans + [] == spans;
    OrderedSplit(spans, [], 0, b, |line|);
    NoneOrdered(b, |line|);
    SpliceInParts(f, line, b, spans, [], 0);
    Unbroken(f, line[..b], spans);
    NothingLeft(f, line, b);
  }

  lemma NoneOrdered(c: nat, limit: nat)
    requires c <= limit
    ensures Ordered([], c, limit)
  {
  }

  lemma NothingLeft(f: Rewriter, line: Bytes, b: nat)
    requires b <= |line|
    ensures Ordered([], b, |line|) && Splice(f, line, [], b) == line[b..]
  {
  }

  lemma Unbroken(f: Rewriter, text: Bytes, spans: seq<Span>)
    requires Tame(f) && Ordered(spans, 0, |text|)
    requires forall j :: 0 <= j < |text| ==> !IsBreak(text[j])
    ensures forall j :: 0 <= j < |Splice(f, text, spans, 0)| ==> !IsBreak(Splice(f, text, spans, 0)[j])
  {
    hide Splice, Ordered, Tame;
    var new_ := Splice(f, text, spans, 0);
    SpliceBytes(f, text, spans, 0, NEWLINE);
    SpliceBytes(f, text, spans, 0, RETURN);
    assert text[0..] == text;
    forall j | 0 <= j < |new_| ensures !IsBreak(new_[j]) {
      assert new_[j] in new_;
    }
  }

  /** The rewritten line is a marker of the same fence, or none, as before. */
  lemma {:induction false} NewMarker(f: Rewriter, line: Bytes, fence: Fence)
    requires Ordered(SpansOfLine(line, fence), 0, |line|)
    ensures FenceMarker(Splice(f, line, SpansOfLine(line, fence), 0)) == FenceMarker(line)
  {
    hide FenceMarker, LineSpans;
    if SpansOfLine(line, fence) != [] {
      BracketBefore(line);
      var z :| 0 <= z < LineSpans(line)[0].start && z < |line| && (line[z] == LBRACKET || line[z] == RBRACKET);
      StartKept(f, line, LineSpans(line), z);
      MarkerKept(line, z, Splice(f, line, LineSpans(line), 0));
    } else {
      assert line[0..] == line;
    }
  }

  /** Up to the first destination nothing changes. */
  lemma StartKept(f: Rewriter, line: Bytes, spans: seq<Span>, z: nat)
    requires spans != [] && Ordered(spans, 0, |line|) && z < spans[0].start
    ensures HeldAt(Splice(f, line, spans, 0), 0, line[..z + 1])
  {
    assert line[0..spans[0].start] == line[..spans[0].start];
  }

  // ------------------------------------------------------------- the page

  /** `term` ends a line that `next` follows. */
  ghost predicate EndsLine(term: Bytes, next: Bytes) {
    (|term| == 0 && next == [])
    || (|term| == 1 && term[0] == NEWLINE)
    || (|term| == 1 && term[0] == RETURN && (next == [] || next[0] != NEWLINE))
    || (|term| == 2 && term[0] == RETURN && term[1] == NEWLINE)
  }

  lemma TerminatorEnds(raw: Bytes, i: nat)
    requires i < |raw|
    ensures
      var line := LineAt(raw, i);
      EndsLine(line[BreakAt(line, 0)..], raw[i + |line|..])
  {
    hide BreakAt, EndsLine, LineLike;
    var b, n := BreakAt(raw, i), LineEnd(raw, i);
    LineAtIsLineLike(raw, i);
    assert LineAt(raw, i)[b - i..] == raw[b..n];
    TerminatorAt(raw, b, n);
  }

  lemma TerminatorAt(raw: Bytes, b: nat, n: nat)
    requires b <= n <= |raw| && (b < |raw| ==> IsBreak(raw[b]))
    requires n == if b == |raw| then b
                  else if raw[b] == RETURN && b + 1 < |raw| && raw[b + 1] == NEWLINE then b + 2 else b + 1
    ensures EndsLine(raw[b..n], raw[n..])
  {
  }

  /** Unbroken text with a terminator is a line of any page it stands in. */
  lemma TextIsLine(out: Bytes, text: Bytes, term: Bytes, next: Bytes)
    requires text + term != [] && EndsLine(term, next)
    requires forall j :: 0 <= j < |text| ==> !IsBreak(text[j])
    ensures LineAt(out + text + term + next, |out|) == text + term
  {
    var page := out + text + term + next;
    assert forall j :: |out| <= j < |out + text| ==> page[j] == text[j - |out|];
    if term != [] {
      assert page[|out + text|] == term[0];
    }
    assert BreakAt(page, |out|) == |out + text|;
    if |term| == 2 {
      assert page[|out + text| + 1] == term[1];
    } else if next != [] {
      assert page[|out + text| + 1] == next[0];
    }
    assert LineEnd(page, |out|) == |out + text + term|;
    assert page[|out|..|out + text + term|] == text + term;
  }

  lemma EndsLineAlike(term: Bytes, next: Bytes, other: Bytes)
    requires EndsLine(term, next) && (other == [] <==> next == []) && (next != [] ==> other[0] == next[0])
    ensures EndsLine(term, other)
  {
  }

  /** The line of a rewritten page that stands for the line at `i`, whatever follows it. */
  lemma NewLine(f: Rewriter, raw: Bytes, i: nat, fence: Fence, out: Bytes, tail: Bytes)
    requires i < |raw| && Tame(f)
    requires
      var line := LineAt(raw, i);
      Ordered(SpansOfLine(line, fence), 0, |line|)
      && (tail == [] <==> i + |line| == |raw|) && (tail != [] ==> tail[0] == raw[i + |line|])
    ensures
      var line := LineAt(raw, i);
      var new_ := Splice(f, line, SpansOfLine(line, fence), 0);
      new_ != [] && LineAt(out + new_ + tail, |out|) == new_ && FenceMarker(new_) == FenceMarker(line)
  {
    hide SpansOfLine, Splice, LineAt, FenceMarker, EndsLine, LineLike, Ordered;
    var line := LineAt(raw, i);
    var spans, b := SpansOfLine(line, fence), BreakAt(line, 0);
    LineAtIsLineLike(raw, i);
    SpansInText(line, fence);
    NewBody(f, line, spans);
    NewMarker(f, line, fence);
    TerminatorEnds(raw, i);
    EndsLineAlike(line[b..], raw[i + |line|..], tail);
    var text := Splice(f, line[..b], spans, 0);
    NotEmptied(f, line, spans, b);
    TextIsLine(out, text, line[b..], tail);
    assert out + (text + line[b..]) == out + text + line[b..];
  }

  lemma NotEmptied(f: Rewriter, line: Bytes, spans: seq<Span>, b: nat)
    requires line != [] && b <= |line| && Ordered(spans, 0, b)
    requires spans != [] ==> spans[0].start > 0
    ensures Splice(f, line[..b], spans, 0) + line[b..] != []
  {
    SpliceHead(f, line[..b], spans, 0);
  }

  /** Concatenations that are cut at the same place are equal only part by part. */
  lemma EqualInParts(a: seq<Span>, b: seq<Span>, a': seq<Span>, b': seq<Span>, d: nat, m: nat)
    requires forall k :: 0 <= k < |a| ==> a[k].start < m
    requires forall k :: 0 <= k < |a'| ==> a'[k].start < m
    requires (b != [] ==> b[0].start >= d + m) && (b' != [] ==> b'[0].start >= d + m)
    ensures Shift(a, d) + b == Shift(a', d) + b' <==> a == a' && b == b'
  {
    var s, s' := Shift(a, d), Shift(a', d);
    if s + b == s' + b' {
      assert forall k :: 0 <= k < |a| ==> (s + b)[k].start < d + m;
      assert forall k :: 0 <= k < |a'| ==> (s' + b')[k].start < d + m;
      assert |a| < |s + b| ==> (s + b)[|a|].start >= d + m;
      assert |a'| < |s' + b'| ==> (s' + b')[|a'|].start >= d + m;
      assert |a| == |a'|;
      assert s == (s + b)[..|a|] == s' && b == (s + b)[|a|..] == b';
      assert forall k :: 0 <= k < |a| ==> s[k] == s'[k];
      assert forall k :: 0 <= k < |a| ==> a[k].start == a'[k].start && a[k].end == a'[k].end;
    }
  }

  /** The exact condition for a page: every line outside fences survives. */
  ghost predicate PageSurvives(f: Rewriter, raw: Bytes, i: nat, fence: Fence)
    requires i <= |raw|
    decreases |raw| - i
  {
    i == |raw|
    || (var line := LineAt(raw, i);
        (FenceMarker(line).NoFence? && fence.NoFence? ==> LineSurvives(f, line))
        && PageSurvives(f, raw, i + |line|, FenceAfter(fence, line)))
  }

  /** One line of the rewritten page: the destinations found in it are the images in their
      places exactly if the line survives. */
  lemma LineOfPage(f: Rewriter, line: Bytes, fence: Fence)
    requires LineLike(line) && Tame(f) && Ordered(SpansOfLine(line, fence), 0, |line|)
    requires FenceMarker(Splice(f, line, SpansOfLine(line, fence), 0)) == FenceMarker(line)
    ensures SpansOfLine(Splice(f, line, SpansOfLine(line, fence), 0), fence)
            == Moved(f, line, SpansOfLine(line, fence), 0, 0)
       <==> (FenceMarker(line).NoFence? && fence.NoFence? ==> LineSurvives(f, line))
    ensures forall k :: 0 <= k < |SpansOfLine(line, fence)| ==>
              Moved(f, line, SpansOfLine(line, fence), 0, 0)[k].start < |Splice(f, line, SpansOfLine(line, fence), 0)|
  {
    hide LineSurvives, Splice, FenceMarker, LineSpans, LineLike;
    var spans := SpansOfLine(line, fence);
    var new_, moved := Splice(f, line, spans, 0), Moved(f, line, spans, 0, 0);
    if FenceMarker(line).NoFence? && fence.NoFence? {
      LineRescan(f, line);
    }
    SpansInText(line, fence);
    forall k | 0 <= k < |spans| ensures moved[k].start < |new_| {
      MovedHoldsImages(f, line, spans, 0, [], k);
      assert [] + new_ == new_;
      NotEmptyImage(f, line[spans[k].start..spans[k].end]);
    }
  }

  lemma NotEmptyImage(f: Rewriter, t: Bytes)
    requires Tame(f) && t != []
    ensures f(t) != []
  {
    assert Shape(t, f(t));
  }

  /** What a rewritten line has to do with the line it stands for. */
  ghost predicate Rewritten(f: Rewriter, was: FencedLine, now: FencedLine) {
    now.fence == was.fence
    && Ordered(SpansOfLine(was.line, was.fence), 0, |was.line|)
    && now.line == Splice(f, was.line, SpansOfLine(was.line, was.fence), 0)
  }

  /** The facts of one step through a rewritten page. */
  ghost predicate Step(f: Rewriter, raw: Bytes, i: nat, fence: Fence, out: Bytes, line: Bytes,
                       spans: seq<Span>, rest: seq<Span>, new_: Bytes, page: Bytes)
    requires i < |raw|
  {
    line == LineAt(raw, i) && i + |line| <= |raw| && spans == SpansOfLine(line, fence)
    && rest == PageSpans(raw, i + |line|, FenceAfter(fence, line))
    && PageSpans(raw, i, fence) == Shift(spans, i) + rest
    && Ordered(spans, 0, |line|) && new_ == Splice(f, line, spans, 0)
    && Ordered(rest, i + |line|, |raw|) && page == out + new_ + Splice(f, raw, rest, i + |line|)
    && Ordered(Shift(spans, i) + rest, i, |raw|) && page == out + Splice(f, raw, Shift(spans, i) + rest, i)
    && Moved(f, raw, Shift(spans, i) + rest, i, |out|)
       == Shift(Moved(f, line, spans, 0, 0), |out|) + Moved(f, raw, rest, i + |line|, |out| + |new_|)
    && |out| < |page| && LineAt(page, |out|) == new_ && FenceMarker(new_) == FenceMarker(line)
  }

  lemma StepHolds(f: Rewriter, raw: Bytes, i: nat, fence: Fence, out: Bytes)
      returns (line: Bytes, spans: seq<Span>, rest: seq<Span>, new_: Bytes, page: Bytes)
    requires i < |raw| && Tame(f) && Ordered(PageSpans(raw, i, fence), i, |raw|)
    ensures page == out + Splice(f, raw, PageSpans(raw, i, fence), i)
    ensures Step(f, raw, i, fence, out, line, spans, rest, new_, page)
  {
    hide Splice, Moved, SpansOfLine, LineAt, FenceMarker, Ordered, Shift, FenceAfter, Tame, PageSpans;
    line := LineAt(raw, i);
    spans, rest := SpansOfLine(line, fence), PageSpans(raw, i + |line|, FenceAfter(fence, line));
    CutOrdered(raw, i, fence);
    LineThenRest(f, raw, i, line, spans, rest, |out|);
    new_ := Splice(f, line, spans, 0);
    var tail := Splice(f, raw, rest, i + |line|);
    SpliceHead(f, raw, rest, i + |line|);
    NewLine(f, raw, i, fence, out, tail);
    assert out + (new_ + tail) == out + new_ + tail;
    page := out + new_ + tail;
  }

  lemma FirstLineSpans(raw: Bytes, i: nat, fence: Fence)
    requires i < |raw|
    ensures
      var line := LineAt(raw, i);
      PageSpans(raw, i, fence) == Shift(SpansOfLine(line, fence), i) + PageSpans(raw, i + |line|, FenceAfter(fence, line))
  {
    hide SpansOfLine, LineAt, FenceAfter;
  }

  lemma SpansInLine(line: Bytes, fence: Fence)
    requires LineLike(line)
    ensures forall k :: 0 <= k < |SpansOfLine(line, fence)| ==>
              SpansOfLine(line, fence)[k].start < SpansOfLine(line, fence)[k].end <= |line|
  {
    hide SpansOfLine, LineLike, BreakAt;
    SpansInText(line, fence);
  }

  /** A page whose spans are in order, cut at the end of its line. */
  lemma CutOrdered(raw: Bytes, i: nat, fence: Fence)
    requires i < |raw| && Ordered(PageSpans(raw, i, fence), i, |raw|)
    ensures
      var line := LineAt(raw, i);
      var spans, n := SpansOfLine(line, fence), i + |line|;
      var rest := PageSpans(raw, n, FenceAfter(fence, line));
      line == raw[..n][i..] && PageSpans(raw, i, fence) == Shift(spans, i) + rest
      && Ordered(spans, 0, |line|) && Ordered(Shift(spans, i), i, n) && Ordered(rest, n, |raw|)
      && (rest != [] ==> rest[0].start > n)
  {
    hide SpansOfLine, LineAt, Ordered, FenceAfter, LineLike, PageSpans, Shift, InText, BreakAt;
    var line := LineAt(raw, i);
    var n, after := i + |line|, FenceAfter(fence, line);
    LineAtIsLineLike(raw, i);
    LineIsSlice(raw, i);
    FirstLineSpans(raw, i, fence);
    SpansInLine(line, fence);
    PageSpansStart(raw, n, after);
    OrderedLineThenRest(SpansOfLine(line, fence), PageSpans(raw, n, after), i, n, |raw|);
  }

  /** Finding `moved` on a line and `later` behind it is finding both on the page. */
  lemma FoundInParts(page: Bytes, p: nat, fence: Fence, line: Bytes, moved: seq<Span>, later: seq<Span>)
    requires p < |page| && FenceMarker(LineAt(page, p)) == FenceMarker(line)
    requires forall k :: 0 <= k < |moved| ==> moved[k].start < |LineAt(page, p)|
    requires later != [] ==> later[0].start >= p + |LineAt(page, p)|
    ensures PageSpans(page, p, fence) == Shift(moved, p) + later
       <==> SpansOfLine(LineAt(page, p), fence) == moved
            && PageSpans(page, p + |LineAt(page, p)|, FenceAfter(fence, line)) == later
  {
    hide SpansOfLine, LineAt, FenceMarker, Shift, PageSpans, FenceAfter;
    var new_ := LineAt(page, p);
    FenceAfterAlike(fence, line, new_);
    PageCut(page, p, fence);
    EqualInParts(SpansOfLine(new_, fence), PageSpans(page, p + |new_|, FenceAfter(fence, new_)), moved, later, p, |new_|);
  }

  lemma FenceAfterAlike(fence: Fence, line: Bytes, other: Bytes)
    requires FenceMarker(line) == FenceMarker(other)
    ensures FenceAfter(fence, line) == FenceAfter(fence, other)
  {
  }

  /** The spans of a page are cut at the end of its line. */
  lemma PageCut(page: Bytes, p: nat, fence: Fence)
    requires p < |page|
    ensures
      var line := LineAt(page, p);
      var spans, rest := SpansOfLine(line, fence), PageSpans(page, p + |line|, FenceAfter(fence, line));
      PageSpans(page, p, fence) == Shift(spans, p) + rest
      && (forall k :: 0 <= k < |spans| ==> spans[k].start < |line|)
      && (rest != [] ==> rest[0].start >= p + |line|)
  {
    hide SpansOfLine, LineAt, FenceAfter, Shift, LineLike;
    var line := LineAt(page, p);
    LineAtIsLineLike(page, p);
    SpansInText(line, fence);
    PageSpansStart(page, p + |line|, FenceAfter(fence, line));
  }

  /** The scanner finds exactly the images in their places if and only if the page survives. */
  lemma {:induction false} PageRescanFrom(f: Rewriter, raw: Bytes, i: nat, fence: Fence, out: Bytes)
    requires i <= |raw| && Tame(f) && Ordered(PageSpans(raw, i, fence), i, |raw|)
    ensures PageSpans(out + Splice(f, raw, PageSpans(raw, i, fence), i), |out|, fence)
            == Moved(f, raw, PageSpans(raw, i, fence), i, |out|)
       <==> PageSurvives(f, raw, i, fence)
    decreases |raw| - i
  {
    hide Splice, Moved, SpansOfLine, LineAt, FenceMarker, LineSurvives, Ordered, Shift, PageSpans, FenceAfter;
    if i == |raw| {
      EndOfPage(f, raw, fence, out);
    } else {
      var line, spans, rest, new_, page := StepHolds(f, raw, i, fence, out);
      assert |out + new_| == |out| + |new_|;
      LineAtIsLineLike(raw, i);
      LineOfPage(f, line, fence);
      MovedStarts(f, raw, rest, i + |line|, |out| + |new_|);
      FoundInParts(page, |out|, fence, line, Moved(f, line, spans, 0, 0), Moved(f, raw, rest, i + |line|, |out| + |new_|));
      PageRescanFrom(f, raw, i + |line|, FenceAfter(fence, line), out + new_);
    }
  }

  /** The lines of the rewritten page are the rewritten lines, under the same fences: always. */
  lemma {:induction false} LinesRewritten(f: Rewriter, raw: Bytes, i: nat, fence: Fence, out: Bytes)
    requires i <= |raw| && Tame(f) && Ordered(PageSpans(raw, i, fence), i, |raw|)
    ensures
      var was := PageLines(raw, i, fence);
      var now := PageLines(out + Splice(f, raw, PageSpans(raw, i, fence), i), |out|, fence);
      |now| == |was| && forall k :: 0 <= k < |was| ==> Rewritten(f, was[k], now[k])
    decreases |raw| - i
  {
    hide Splice, Moved, SpansOfLine, LineAt, FenceMarker, Ordered, Shift, PageSpans;
    if i == |raw| {
      EndOfPage(f, raw, fence, out);
    } else {
      var line, spans, rest, new_, page := StepHolds(f, raw, i, fence, out);
      assert |out + new_| == |out| + |new_|;
      LinesRewritten(f, raw, i + |line|, FenceAfter(fence, line), out + new_);
      assert FenceAfter(fence, new_) == FenceAfter(fence, line);
      assert Rewritten(f, FencedLine(line, fence), FencedLine(new_, fence));
    }
  }

  lemma EndOfPage(f: Rewriter, raw: Bytes, fence: Fence, out: Bytes)
    ensures PageSpans(raw, |raw|, fence) == [] && Ordered(PageSpans(raw, |raw|, fence), |raw|, |raw|)
    ensures
      var page := out + Splice(f, raw, PageSpans(raw, |raw|, fence), |raw|);
      page == out && PageSpans(page, |out|, fence) == []
      && Moved(f, raw, PageSpans(raw, |raw|, fence), |raw|, |out|) == []
  {
  }

  /** A line without destinations, such as any fenced one, is kept as it is. */
  lemma UnscannedLineKept(f: Rewriter, was: FencedLine, now: FencedLine)
    requires Rewritten(f, was, now) && SpansOfLine(was.line, was.fence) == []
    ensures now == was
  {
    assert was.line[0..] == was.line;
  }
}
