/** Sorting the spans the scanner yields: the order of the page, whatever order it found them in. */
module SpanOrder {
  import opened ByteStrings
  import opened Sorting
  import opened MarkdownScan
  import opened Rescan
  import opened PageRescan

  /** The order of Python's tuples: by start, then by end. */
  predicate Le(a: Span, b: Span) {
    a.start < b.start || (a.start == b.start && a.end <= b.end)
  }

  ghost predicate Sorted(spans: seq<Span>) {
    SortedBy(Le, spans)
  }

  function SortSpans(spans: seq<Span>): seq<Span> {
    SortBy(Le, spans)
  }

  lemma {:induction false} InlineSorted(line: Bytes, i: nat)
    requires i <= |line|
    ensures Sorted(InlineSpans(line, i))
    decreases |line| - i
  {
    if i < |line| {
      if OpensAt(line, i) {
        var e := DestinationEnd(line, i + 2, true);
        InlineSorted(line, e);
        InlineStarts(line, e);
      } else {
        InlineSorted(line, i + 1);
      }
    }
  }

  lemma ReferenceComesFirst(line: Bytes, m: nat)
    requires ReferenceHead(line) == Some(m)
    ensures forall j :: 0 <= j < |InlineSpans(line, 0)| ==> InlineSpans(line, 0)[j].start > m
  {
    hide ReferenceHead, DestinationEnd;
    HeadIsQuiet(line, m);
    InlineSkips(line, 0, m);
    InlineStarts(line, m);
  }

  lemma ShiftConcat(s: seq<Span>, t: seq<Span>, d: nat)
    ensures Shift(s + t, d) == Shift(s, d) + Shift(t, d)
  {
  }

  /** The spans of a line are sorted, and the scanner yields exactly those. */
  lemma LineSorted(line: Bytes, fence: Fence, d: nat)
    ensures Sorted(SpansOfLine(line, fence))
    ensures multiset(Shift(SpansOfLine(line, fence), d)) == multiset(Shift(YieldOfLine(line, fence), d))
  {
    hide ReferenceHead, DestinationEnd, InlineSpans, Shift;
    var inline, reference := InlineSpans(line, 0), ReferenceSpans(line);
    InlineSorted(line, 0);
    if ReferenceHead(line).Some? {
      ReferenceComesFirst(line, ReferenceHead(line).value);
    }
    ShiftConcat(reference, inline, d);
    ShiftConcat(inline, reference, d);
  }

  /** Spans of a line that starts at `i`, before the spans behind the line. */
  lemma SortedBehind(here: seq<Span>, rest: seq<Span>, i: nat, length: nat)
    requires Sorted(here) && InText(here, length) && Sorted(rest)
    requires forall k :: 0 <= k < |rest| ==> rest[k].start > i + length
    ensures Sorted(Shift(here, i) + rest)
  {
  }

  lemma InLine(line: Bytes, fence: Fence)
    requires LineLike(line)
    ensures InText(SpansOfLine(line, fence), |line|)
  {
    hide SpansOfLine, LineLike, BreakAt;
    SpansInText(line, fence);
  }

  lemma FirstLineYield(raw: Bytes, i: nat, fence: Fence)
    requires i < |raw|
    ensures
      var line := LineAt(raw, i);
      PageYield(raw, i, fence) == Shift(YieldOfLine(line, fence), i) + PageYield(raw, i + |line|, FenceAfter(fence, line))
  {
    hide YieldOfLine, LineAt, FenceAfter, Shift;
  }

  lemma SameCounts(a: seq<Span>, b: seq<Span>, c: seq<Span>, d: seq<Span>)
    requires multiset(a) == multiset(b) && multiset(c) == multiset(d)
    ensures multiset(a + c) == multiset(b + d)
  {
  }

  lemma {:induction false} PageSorted(raw: Bytes, i: nat, fence: Fence)
    requires i <= |raw|
    ensures Sorted(PageSpans(raw, i, fence))
    ensures multiset(PageSpans(raw, i, fence)) == multiset(PageYield(raw, i, fence))
    decreases |raw| - i
  {
    hide SpansOfLine, YieldOfLine, LineAt, FenceAfter, LineLike, PageSpans, PageYield, Shift, Sorted, InText;
    if i < |raw| {
      var line := LineAt(raw, i);
      var n, after := i + |line|, FenceAfter(fence, line);
      PageSorted(raw, n, after);
      PageSpansStart(raw, n, after);
      LineSorted(line, fence, i);
      LineAtIsLineLike(raw, i);
      InLine(line, fence);
      FirstLineSpans(raw, i, fence);
      FirstLineYield(raw, i, fence);
      SortedBehind(SpansOfLine(line, fence), PageSpans(raw, n, after), i, |line|);
      SameCounts(Shift(SpansOfLine(line, fence), i), Shift(YieldOfLine(line, fence), i),
                 PageSpans(raw, n, after), PageYield(raw, n, after));
    } else {
      NothingSorted(raw, i, fence);
    }
  }

  lemma NothingSorted(raw: Bytes, i: nat, fence: Fence)
    requires i == |raw|
    ensures Sorted(PageSpans(raw, i, fence)) && PageSpans(raw, i, fence) == PageYield(raw, i, fence)
  {
  }

  /** Sorting what the scanner yields gives the spans of the page in order. */
  lemma SortedYield(raw: Bytes)
    ensures SortSpans(PageYield(raw, 0, NoFence)) == PageSpans(raw, 0, NoFence)
  {
    hide PageSpans, PageYield, SortedBy;
    PageSorted(raw, 0, NoFence);
    SortSorts(Le, PageYield(raw, 0, NoFence));
    SortedIsUnique(Le, SortSpans(PageYield(raw, 0, NoFence)), PageSpans(raw, 0, NoFence));
  }
}
