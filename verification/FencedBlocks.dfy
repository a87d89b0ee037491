/** Code fences told from the bytes of a page: which destinations the scanner yields, and which
    are examples. */
module FencedBlocks {
  import opened ByteStrings
  import opened MarkdownScan
  import opened Rescan
  import opened PageRescan
  import opened SpanOrder
  import opened Destinations

  // ------------------------------------------------------------------ lines

  /** A line starts at `i`: after a line feed, or a carriage return that none follows. */
  predicate StartsLine(raw: Bytes, i: nat) {
    i < |raw| && (i == 0 || raw[i - 1] == 10 || (raw[i - 1] == 13 && raw[i] != 10))
  }

  /** The line at `i` ends where the next one starts, or with the page. */
  lemma LineEndIs(raw: Bytes, i: nat)
    requires i < |raw|
    ensures
      var e := LineEnd(raw, i);
      i < e <= |raw| && (e < |raw| ==> StartsLine(raw, e)) && forall k :: i < k < e ==> !StartsLine(raw, k)
  {
    hide BreakAt;
  }

  // ---------------------------------------------------------------- markers

  /** The line that starts at `i` begins, behind white space, with a run of exactly `n` of `b`,
      three or more backticks or tildes. */
  ghost predicate RunAt(raw: Bytes, i: nat, b: byte, n: nat) {
    exists j :: i <= j && IsRun(raw, i, j, b, n)
  }

  predicate IsRun(raw: Bytes, i: nat, j: nat, b: byte, n: nat) {
    (b == 96 || b == 126) && 3 <= n && i <= j && j + n <= |raw|
    && (forall k :: i <= k < j ==> IsWhite(raw[k]) && raw[k] != 10 && raw[k] != 13)
    && (forall k :: j <= k < j + n ==> raw[k] == b) && (j + n < |raw| ==> raw[j + n] != b)
  }

  /** A line that has no such run at its beginning. */
  ghost predicate IsPlain(raw: Bytes, i: nat) {
    forall b: byte, n: nat :: !RunAt(raw, i, b, n)
  }

  /** A line goes on at least up to its first break. */
  lemma LineReaches(raw: Bytes, i: nat, x: nat)
    requires i < x <= |raw| && forall k :: i <= k < x ==> !IsBreak(raw[k])
    ensures x - i <= |LineAt(raw, i)| && forall k :: 0 <= k < x - i ==> LineAt(raw, i)[k] == raw[i + k]
    ensures x - i < |LineAt(raw, i)| ==> x < |raw| && LineAt(raw, i)[x - i] == raw[x]
    ensures x - i == |LineAt(raw, i)| ==> x == |raw|
  {
    hide BreakAt;
    assert BreakAt(raw, i) >= x;
  }

  lemma RunIsMarker(raw: Bytes, i: nat, j: nat, b: byte, n: nat)
    requires i < |raw| && IsRun(raw, i, j, b, n)
    ensures FenceMarker(LineAt(raw, i)) == Fence(b, n)
  {
    hide SkipSpace, RunEnd, LineAt;
    var line := LineAt(raw, i);
    LineReaches(raw, i, j + n);
    MarkerOfLine(line, j - i, b, n);
  }

  lemma MarkerOfLine(line: Bytes, k: nat, b: byte, n: nat)
    requires 3 <= n && k + n <= |line| && (b == 96 || b == 126)
    requires forall x :: 0 <= x < k ==> IsWhite(line[x])
    requires forall x :: k <= x < k + n ==> line[x] == b
    requires k + n < |line| ==> line[k + n] != b
    ensures FenceMarker(line) == Fence(b, n)
  {
    hide SkipSpace, RunEnd;
    assert forall x :: 0 <= x < k ==> IsSpace(line[x]);
    assert line[k] == b && SkipSpace(line, 0) == k;
    assert RunEnd(line, k, b) == k + n;
  }

  lemma MarkerIsRun(raw: Bytes, i: nat)
    requires i < |raw| && FenceMarker(LineAt(raw, i)).Fence?
    ensures
      var line := LineAt(raw, i);
      IsRun(raw, i, i + SkipSpace(line, 0), FenceMarker(line).mark, FenceMarker(line).length)
  {
    hide SkipSpace, RunEnd, LineLike, BreakAt;
    var line := LineAt(raw, i);
    var k := SkipSpace(line, 0);
    LineAtIsLineLike(raw, i);
    assert forall x :: 0 <= x < |line| ==> line[x] == raw[i + x];
    TextBeforeBreak(line, k);
  }

  /** Before a byte that is not white there is no line break in a line. */
  lemma TextBeforeBreak(line: Bytes, k: nat)
    requires LineLike(line) && k < |line| && !IsSpace(line[k])
    ensures k < BreakAt(line, 0)
  {
  }

  /** The marker of a line is its run. */
  lemma MarkerIs(raw: Bytes, i: nat, b: byte, n: nat)
    requires i < |raw|
    ensures FenceMarker(LineAt(raw, i)) == Fence(b, n) <==> RunAt(raw, i, b, n)
  {
    hide FenceMarker, IsRun;
    if FenceMarker(LineAt(raw, i)) == Fence(b, n) {
      MarkerIsRun(raw, i);
    }
    if j :| i <= j && IsRun(raw, i, j, b, n) {
      RunIsMarker(raw, i, j, b, n);
    }
  }

  lemma PlainIs(raw: Bytes, i: nat)
    requires i < |raw|
    ensures FenceMarker(LineAt(raw, i)).NoFence? <==> IsPlain(raw, i)
  {
    hide FenceMarker, RunAt;
    forall b: byte, n: nat ensures FenceMarker(LineAt(raw, i)) == Fence(b, n) <==> RunAt(raw, i, b, n) {
      MarkerIs(raw, i, b, n);
    }
    var marker := FenceMarker(LineAt(raw, i));
    assert marker.Fence? ==> marker == Fence(marker.mark, marker.length);
  }

  // ----------------------------------------------------------------- blocks

  /** The line at `i` ends a block that `n` of `b` opened. */
  ghost predicate Closes(raw: Bytes, i: nat, b: byte, n: nat) {
    exists m :: n <= m && RunAt(raw, i, b, m)
  }

  /** The first line from the one at `i` on that ends the block, or the end of the page. */
  ghost function ClosedAt(raw: Bytes, i: nat, b: byte, n: nat): (c: nat)
    requires i <= |raw|
    ensures i <= c <= |raw|
    decreases |raw| - i
  {
    if i == |raw| || Closes(raw, i, b, n) then i else ClosedAt(raw, LineEnd(raw, i), b, n)
  }

  /** No line before that ends the block. */
  lemma {:induction false} ClosedFirst(raw: Bytes, i: nat, b: byte, n: nat)
    requires i <= |raw|
    ensures
      var c := ClosedAt(raw, i, b, n);
      (c < |raw| ==> Closes(raw, c, b, n)) && forall k :: i <= k < c && (k == i || StartsLine(raw, k)) ==> !Closes(raw, k, b, n)
    decreases |raw| - i
  {
    hide LineEnd, Closes, StartsLine;
    if i < |raw| && !Closes(raw, i, b, n) {
      LineEndIs(raw, i);
      ClosedFirst(raw, LineEnd(raw, i), b, n);
    }
  }

  /** Behind the line that ends the block. */
  ghost function AfterBlock(raw: Bytes, i: nat, b: byte, n: nat): (a: nat)
    requires i <= |raw|
    ensures i <= a <= |raw|
  {
    var c := ClosedAt(raw, i, b, n);
    if c == |raw| then c else LineEnd(raw, c)
  }

  /** A line start outside all blocks, when the line start `from` is: one comes to it line by
      line, and over whole blocks. */
  ghost predicate IsOutside(raw: Bytes, from: nat, i: nat)
    requires from <= |raw|
    decreases |raw| - from
  {
    from == i
    || (from < |raw|
        && if IsPlain(raw, from) then IsOutside(raw, LineEnd(raw, from), i)
           else exists b: byte, n: nat :: RunAt(raw, from, b, n) && IsOutside(raw, AfterBlock(raw, LineEnd(raw, from), b, n), i))
  }

  lemma LineLength(raw: Bytes, i: nat)
    requires i < |raw|
    ensures i + |LineAt(raw, i)| == LineEnd(raw, i)
  {
    hide LineEnd;
  }

  /** Inside a block nothing is found. */
  lemma {:induction false} BlockSkipped(raw: Bytes, i: nat, b: byte, n: nat)
    requires i <= |raw|
    ensures PageSpans(raw, i, Fence(b, n)) == PageSpans(raw, AfterBlock(raw, i, b, n), NoFence)
    decreases |raw| - i
  {
    hide FenceMarker, LineAt, LineEnd, RunAt, PageSpans;
    if i < |raw| {
      var line := LineAt(raw, i);
      LineLength(raw, i);
      InsideStep(raw, i, b, n);
      if !Closes(raw, i, b, n) {
        BlockSkipped(raw, LineEnd(raw, i), b, n);
      }
    } else {
      NothingLeft(raw, Fence(b, n));
      NothingLeft(raw, NoFence);
    }
  }

  lemma NothingLeft(raw: Bytes, fence: Fence)
    ensures PageSpans(raw, |raw|, fence) == []
  {
  }

  /** A line in a block, or one that opens it, has no destinations. */
  lemma SilentStep(raw: Bytes, i: nat, fence: Fence)
    requires i < |raw| && (fence.Fence? || FenceMarker(LineAt(raw, i)).Fence?)
    ensures PageSpans(raw, i, fence) == PageSpans(raw, LineEnd(raw, i), Turn(fence, FenceMarker(LineAt(raw, i))))
  {
    hide FenceMarker, LineAt, LineEnd, PageSpans, Turn;
    var line := LineAt(raw, i);
    LineLength(raw, i);
    FirstLineSpans(raw, i, fence);
    var rest := PageSpans(raw, i + |line|, FenceAfter(fence, line));
    assert Shift([], i) == [];
    assert [] + rest == rest;
  }

  lemma InsideStep(raw: Bytes, i: nat, b: byte, n: nat)
    requires i < |raw|
    ensures PageSpans(raw, i, Fence(b, n)) == PageSpans(raw, LineEnd(raw, i), if Closes(raw, i, b, n) then NoFence else Fence(b, n))
  {
    hide FenceMarker, LineAt, LineEnd, RunAt, PageSpans;
    var marker := FenceMarker(LineAt(raw, i));
    SilentStep(raw, i, Fence(b, n));
    if marker.Fence? {
      MarkerIs(raw, i, marker.mark, marker.length);
    }
    forall m | RunAt(raw, i, b, m) ensures marker == Fence(b, m) {
      MarkerIs(raw, i, b, m);
    }
  }

  /** A line that opens a block: nothing is found up to the end of the block. */
  lemma BlockStep(raw: Bytes, i: nat, b: byte, n: nat)
    requires i < |raw| && RunAt(raw, i, b, n)
    ensures PageSpans(raw, i, NoFence) == PageSpans(raw, AfterBlock(raw, LineEnd(raw, i), b, n), NoFence)
  {
    hide FenceMarker, LineAt, LineEnd, RunAt, AfterBlock, PageSpans;
    MarkerIs(raw, i, b, n);
    SilentStep(raw, i, NoFence);
    BlockSkipped(raw, LineEnd(raw, i), b, n);
  }

  /** Any other line: its destinations, and then those of the rest. */
  lemma PlainStep(raw: Bytes, i: nat)
    requires i < |raw| && IsPlain(raw, i)
    ensures PageSpans(raw, i, NoFence) == Shift(LineSpans(LineAt(raw, i)), i) + PageSpans(raw, LineEnd(raw, i), NoFence)
  {
    hide FenceMarker, LineAt, LineEnd, IsPlain, LineSpans;
    LineLength(raw, i);
    PlainIs(raw, i);
  }

  // --------------------------------------------------------------- theorems

  lemma {:induction false} OutsideThen(raw: Bytes, from: nat, i: nat, next: nat)
    requires from <= |raw| && i <= |raw| && IsOutside(raw, from, i) && IsOutside(raw, i, next)
    ensures IsOutside(raw, from, next)
    decreases |raw| - from
  {
    hide RunAt, IsPlain, LineEnd, AfterBlock;
    if from != i {
      if IsPlain(raw, from) {
        OutsideThen(raw, LineEnd(raw, from), i, next);
      } else {
        var b: byte, n: nat :| RunAt(raw, from, b, n) && IsOutside(raw, AfterBlock(raw, LineEnd(raw, from), b, n), i);
        OutsideThen(raw, AfterBlock(raw, LineEnd(raw, from), b, n), i, next);
      }
    }
  }

  lemma OutsideItself(raw: Bytes, i: nat)
    requires i <= |raw|
    ensures IsOutside(raw, i, i)
  {
  }

  lemma BehindPlain(raw: Bytes, i: nat)
    requires i < |raw| && IsPlain(raw, i)
    ensures IsOutside(raw, i, LineEnd(raw, i))
  {
    hide RunAt, IsPlain, LineEnd, AfterBlock;
    OutsideItself(raw, LineEnd(raw, i));
  }

  lemma BehindBlock(raw: Bytes, i: nat, b: byte, n: nat)
    requires i < |raw| && RunAt(raw, i, b, n)
    ensures IsOutside(raw, i, AfterBlock(raw, LineEnd(raw, i), b, n))
  {
    hide RunAt, LineEnd, AfterBlock;
    OutsideItself(raw, AfterBlock(raw, LineEnd(raw, i), b, n));
    assert !IsPlain(raw, i);
  }

  /** What is found before a line start outside the blocks, and what from there on. */
  lemma {:induction false} FoundBefore(raw: Bytes, from: nat, i: nat) returns (before: seq<Span>)
    requires from <= |raw| && i <= |raw| && IsOutside(raw, from, i)
    ensures PageSpans(raw, from, NoFence) == before + PageSpans(raw, i, NoFence)
    ensures from <= i && forall s :: s in before ==> s.end <= i
    decreases |raw| - from
  {
    hide RunAt, IsPlain, LineEnd, AfterBlock, PageSpans, LineSpans, LineAt;
    if from == i {
      before := [];
    } else if IsPlain(raw, from) {
      PlainStep(raw, from);
      PlainSpansEnd(raw, from);
      var more := FoundBefore(raw, LineEnd(raw, from), i);
      before := Shift(LineSpans(LineAt(raw, from)), from) + more;
      assert Shift(LineSpans(LineAt(raw, from)), from) + (more + PageSpans(raw, i, NoFence)) == before + PageSpans(raw, i, NoFence);
    } else {
      var b: byte, n: nat :| RunAt(raw, from, b, n) && IsOutside(raw, AfterBlock(raw, LineEnd(raw, from), b, n), i);
      BlockStep(raw, from, b, n);
      before := FoundBefore(raw, AfterBlock(raw, LineEnd(raw, from), b, n), i);
    }
  }

  /** The destinations of a line lie in it. */
  lemma PlainSpansEnd(raw: Bytes, i: nat)
    requires i < |raw| && IsPlain(raw, i)
    ensures forall s :: s in Shift(LineSpans(LineAt(raw, i)), i) ==> i <= s.start && s.end <= LineEnd(raw, i)
    ensures forall s :: s in LineSpans(LineAt(raw, i)) ==> s.start < s.end <= |LineAt(raw, i)|
  {
    hide FenceMarker, IsPlain, LineSpans, LineAt, LineEnd, LineLike;
    PlainIs(raw, i);
    LineLength(raw, i);
    LineAtIsLineLike(raw, i);
    InLine(LineAt(raw, i), NoFence);
  }

  /** The scanner yields the spans of the page. */
  lemma YieldedAre(raw: Bytes, s: Span)
    ensures s in PageYield(raw, 0, NoFence) <==> s in PageSpans(raw, 0, NoFence)
  {
    hide PageYield, PageSpans, Sorted;
    PageSorted(raw, 0, NoFence);
    assert s in PageYield(raw, 0, NoFence) <==> s in multiset(PageYield(raw, 0, NoFence));
    assert s in PageSpans(raw, 0, NoFence) <==> s in multiset(PageSpans(raw, 0, NoFence));
  }

  lemma FromHere(raw: Bytes, i: nat, s: Span)
    requires i <= |raw| && s in PageSpans(raw, i, NoFence)
    ensures i < s.start < s.end
  {
    hide PageSpans;
    PageSpansStart(raw, i, NoFence);
  }

  /** A line outside the blocks that begins with a run of three or more backticks or tildes opens
      one: no destination is yielded from there up to the first later line that begins with at
      least as many of the same, and that line ends the block. */
  lemma FencedBlockIsSilent(raw: Bytes, i: nat, b: byte, n: nat, s: Span)
    requires i < |raw| && IsOutside(raw, 0, i) && RunAt(raw, i, b, n) && s in PageYield(raw, 0, NoFence)
    ensures s.end <= i || AfterBlock(raw, LineEnd(raw, i), b, n) < s.start
    ensures IsOutside(raw, 0, AfterBlock(raw, LineEnd(raw, i), b, n))
  {
    hide RunAt, LineEnd, AfterBlock, PageSpans, IsOutside, PageYield;
    var a := AfterBlock(raw, LineEnd(raw, i), b, n);
    BehindBlock(raw, i, b, n);
    OutsideThen(raw, 0, i, a);
    YieldedAre(raw, s);
    var before := FoundBefore(raw, 0, i);
    BlockStep(raw, i, b, n);
    if s !in before {
      FromHere(raw, a, s);
    }
  }

  lemma SpansOfPlainLine(line: Bytes, s: Span)
    ensures s in LineSpans(line) <==>
            s in InlineSpans(line, 0) || (Defines(line, s.start) && IsDestination(line, s.start, s.end, false))
  {
    hide Defines, IsDestination, ReferenceHead, DestinationEnd, InlineSpans;
    DefinesIs(line, s.start);
    if s.start < |line| {
      DestinationIs(line, s.start, s.end, false);
    }
    WhiteIsSpace();
    var reference := ReferenceSpans(line);
    assert s in LineSpans(line) <==> s in reference || s in InlineSpans(line, 0);
  }

  lemma WhiteIsSpace()
    ensures forall b: byte :: EndsWord(b, false) == IsSpace(b)
  {
  }

  /** Whether a span is found on a line that is not the first. */
  lemma FoundOnLine(raw: Bytes, i: nat, before: seq<Span>, here: seq<Span>, rest: seq<Span>, length: nat, s: Span)
    requires PageSpans(raw, 0, NoFence) == before + (Shift(here, i) + rest) && s.start < length
    requires forall t :: t in before ==> t.end <= i
    requires forall t :: t in rest ==> i + length < t.start
    ensures Span(i + s.start, i + s.end) in PageSpans(raw, 0, NoFence) <==> s in here
  {
    hide PageSpans, Shift;
    var t := Span(i + s.start, i + s.end);
    if t in PageSpans(raw, 0, NoFence) {
      FromHere(raw, 0, t);
      assert t in Shift(here, i);
      var k :| 0 <= k < |here| && Shift(here, i)[k] == t;
      assert here[k] == s;
    }
    if s in here {
      var k :| 0 <= k < |here| && here[k] == s;
      assert Shift(here, i)[k] == t;
      assert t in Shift(here, i);
    }
  }

  lemma LineYields(raw: Bytes, i: nat, s: Span)
    requires i < |raw| && IsOutside(raw, 0, i) && IsPlain(raw, i) && s.start < |LineAt(raw, i)|
    ensures Span(i + s.start, i + s.end) in PageYield(raw, 0, NoFence)
       <==> s in InlineSpans(LineAt(raw, i), 0)
            || (Defines(LineAt(raw, i), s.start) && IsDestination(LineAt(raw, i), s.start, s.end, false))
  {
    hide IsPlain, LineEnd, PageSpans, IsOutside, PageYield, LineAt, Defines, IsDestination, LineSpans, InlineSpans;
    var line := LineAt(raw, i);
    var before := FoundBefore(raw, 0, i);
    PlainStep(raw, i);
    LineLength(raw, i);
    forall t | t in PageSpans(raw, LineEnd(raw, i), NoFence) ensures i + |line| < t.start {
      FromHere(raw, LineEnd(raw, i), t);
    }
    YieldedAre(raw, Span(i + s.start, i + s.end));
    FoundOnLine(raw, i, before, LineSpans(line), PageSpans(raw, LineEnd(raw, i), NoFence), |line|, s);
    SpansOfPlainLine(line, s);
  }

  /** Of any other line outside the blocks exactly its inline destinations and that of its
      definition are yielded, and the next line is outside, too. */
  lemma PlainLineIsScanned(raw: Bytes, i: nat) returns (inline: seq<Span>)
    requires i < |raw| && IsOutside(raw, 0, i) && IsPlain(raw, i)
    ensures AreInline(LineAt(raw, i), 0, inline)
    ensures forall s: Span :: s.start < |LineAt(raw, i)| ==>
              (Span(i + s.start, i + s.end) in PageYield(raw, 0, NoFence)
               <==> s in inline || (Defines(LineAt(raw, i), s.start) && IsDestination(LineAt(raw, i), s.start, s.end, false)))
    ensures IsOutside(raw, 0, LineEnd(raw, i))
  {
    hide IsPlain, LineEnd, IsOutside, PageYield, LineAt, Defines, IsDestination, AreInline, InlineSpans;
    var line := LineAt(raw, i);
    inline := InlineSpans(line, 0);
    InlineAre(line, 0);
    BehindPlain(raw, i);
    OutsideThen(raw, 0, i, LineEnd(raw, i));
    forall s: Span | s.start < |line|
      ensures Span(i + s.start, i + s.end) in PageYield(raw, 0, NoFence)
              <==> s in inline || (Defines(line, s.start) && IsDestination(line, s.start, s.end, false))
    {
      LineYields(raw, i, s);
    }
  }

  /** Every line is outside the blocks or inside one of them. */
  lemma {:induction false} InOrOut(raw: Bytes, from: nat, i: nat)
    requires from <= i <= |raw| && (i < |raw| ==> StartsLine(raw, i))
    ensures
      IsOutside(raw, from, i)
      || exists o: nat, b: byte, n: nat ::
           o < i && IsOutside(raw, from, o) && RunAt(raw, o, b, n) && i < AfterBlock(raw, LineEnd(raw, o), b, n)
    decreases |raw| - from
  {
    hide RunAt, LineEnd, AfterBlock, StartsLine;
    if from < i {
      LineEndIs(raw, from);
      if IsPlain(raw, from) {
        BehindPlain(raw, from);
        StepOut(raw, from, LineEnd(raw, from), i);
      } else {
        var b: byte, n: nat :| RunAt(raw, from, b, n);
        BehindBlock(raw, from, b, n);
        if i < AfterBlock(raw, LineEnd(raw, from), b, n) {
          OutsideItself(raw, from);
        } else {
          StepOut(raw, from, AfterBlock(raw, LineEnd(raw, from), b, n), i);
        }
      }
    }
  }

  lemma {:induction false} StepOut(raw: Bytes, from: nat, next: nat, i: nat)
    requires from < next <= i <= |raw| && (i < |raw| ==> StartsLine(raw, i)) && IsOutside(raw, from, next)
    ensures
      IsOutside(raw, from, i)
      || exists o: nat, b: byte, n: nat ::
           o < i && IsOutside(raw, from, o) && RunAt(raw, o, b, n) && i < AfterBlock(raw, LineEnd(raw, o), b, n)
    decreases |raw| - from, 0
  {
    hide RunAt, IsPlain, LineEnd, AfterBlock, StartsLine, IsOutside;
    InOrOut(raw, next, i);
    if IsOutside(raw, next, i) {
      OutsideThen(raw, from, next, i);
    } else {
      var o: nat, b: byte, n: nat :|
        o < i && IsOutside(raw, next, o) && RunAt(raw, o, b, n) && i < AfterBlock(raw, LineEnd(raw, o), b, n);
      OutsideThen(raw, from, next, o);
    }
  }

  // --------------------------------------------------------------- examples

  /** A link between two lines of three fence bytes. */
  function FencedPage(b: byte): Bytes {
    [b, b, b, 10, 91, 97, 93, 40, 98, 41, 10, b, b, b, 10]
  }

  /** The link `[a](b)` alone. */
  const PLAIN_PAGE: Bytes := [91, 97, 93, 40, 98, 41, 10]

  lemma LineEndAt(raw: Bytes, i: nat, e: nat)
    requires i < e <= |raw| && (e < |raw| ==> StartsLine(raw, e)) && forall k :: i < k < e ==> !StartsLine(raw, k)
    ensures LineEnd(raw, i) == e
  {
    hide LineEnd, StartsLine;
    LineEndIs(raw, i);
  }

  lemma FencedPageLines(b: byte)
    requires b == 96 || b == 126
    ensures
      var raw := FencedPage(b);
      LineEnd(raw, 0) == 4 && LineEnd(raw, 4) == 11 && LineEnd(raw, 11) == 15
      && RunAt(raw, 0, b, 3) && RunAt(raw, 11, b, 3) && IsPlain(raw, 4)
  {
    hide LineEnd;
    var raw := FencedPage(b);
    LineEndAt(raw, 0, 4);
    LineEndAt(raw, 4, 11);
    LineEndAt(raw, 11, 15);
    assert IsRun(raw, 0, 0, b, 3) && IsRun(raw, 11, 11, b, 3);
    forall c: byte, n: nat, j: nat ensures !IsRun(raw, 4, j, c, n) {
      assert raw[4] == 91;
    }
  }

  /** In a block of either kind the link is an example, and nothing is yielded. */
  lemma FencedExample(b: byte)
    requires b == 96 || b == 126
    ensures PageYield(FencedPage(b), 0, NoFence) == []
  {
    hide LineEnd, RunAt, PageYield, PageSpans;
    var raw := FencedPage(b);
    FencedPageLines(b);
    assert Closes(raw, 11, b, 3);
    assert forall m :: !RunAt(raw, 4, b, m);
    assert ClosedAt(raw, 4, b, 3) == ClosedAt(raw, 11, b, 3) == 11;
    OutsideItself(raw, 0);
    forall s | s in PageYield(raw, 0, NoFence) ensures false {
      FencedBlockIsSilent(raw, 0, b, 3, s);
      YieldedOnPage(raw, s);
    }
    SomethingIn(PageYield(raw, 0, NoFence));
  }

  lemma SomethingIn(spans: seq<Span>)
    ensures spans != [] ==> exists s :: s in spans
  {
    if spans != [] {
      assert spans[0] in spans;
    }
  }

  lemma YieldedOnPage(raw: Bytes, s: Span)
    requires s in PageYield(raw, 0, NoFence)
    ensures 0 < s.start < s.end <= |raw|
  {
    hide PageYield, PageSpans, IsOutside;
    YieldedAre(raw, s);
    SpansOnPage(raw, 0, NoFence);
    FromHere(raw, 0, s);
  }

  /** What is yielded on a page of one plain line. */
  lemma OneLineYield(raw: Bytes) returns (inline: seq<Span>)
    requires raw != [] && IsPlain(raw, 0) && LineAt(raw, 0) == raw
    ensures AreInline(raw, 0, inline)
    ensures forall s: Span :: s in PageYield(raw, 0, NoFence) ==> s.start < |raw|
    ensures forall s: Span :: s.start < |raw| ==>
              (s in PageYield(raw, 0, NoFence) <==> s in inline || (Defines(raw, s.start) && IsDestination(raw, s.start, s.end, false)))
  {
    hide PageYield, IsPlain, AreInline, Defines, IsDestination, IsOutside, LineAt, InlineSpans;
    OutsideItself(raw, 0);
    inline := InlineSpans(raw, 0);
    InlineAre(raw, 0);
    forall s: Span | s in PageYield(raw, 0, NoFence) ensures s.start < |raw| {
      YieldedOnPage(raw, s);
    }
    forall s: Span | s.start < |raw|
      ensures s in PageYield(raw, 0, NoFence) <==> s in inline || (Defines(raw, s.start) && IsDestination(raw, s.start, s.end, false))
    {
      LineYields(raw, 0, s);
      FromZero(s);
    }
  }

  lemma FromZero(s: Span)
    ensures Span(0 + s.start, 0 + s.end) == s
  {
  }

  /** Without fences the link is found. */
  lemma PlainExample()
    ensures forall s :: s in PageYield(PLAIN_PAGE, 0, NoFence) <==> s == Span(4, 5)
  {
    hide PageYield, IsPlain, AreInline, Defines, IsDestination, LineAt, PLAIN_PAGE;
    var raw := PLAIN_PAGE;
    PlainPageLine();
    var inline := OneLineYield(raw);
    forall s: Span ensures s in PageYield(raw, 0, NoFence) <==> s == Span(4, 5) {
      PlainPageSpan(raw, inline, s);
    }
  }

  lemma PlainPageLine()
    ensures |PLAIN_PAGE| == 7 && IsPlain(PLAIN_PAGE, 0) && LineAt(PLAIN_PAGE, 0) == PLAIN_PAGE
  {
    hide LineEnd;
    var raw := PLAIN_PAGE;
    LineEndAt(raw, 0, 7);
    forall c: byte, n: nat, j: nat ensures !IsRun(raw, 0, j, c, n) {
      assert raw[0] == 91;
    }
  }

  lemma PlainPageSpan(raw: Bytes, inline: seq<Span>, s: Span)
    requires raw == PLAIN_PAGE && AreInline(raw, 0, inline)
    ensures s in inline || (Defines(raw, s.start) && IsDestination(raw, s.start, s.end, false)) <==> s == Span(4, 5)
  {
    hide IsDestination;
    assert forall k: nat, l: nat, m: nat :: !IsHead(raw, k, l, m);
    assert forall j: nat :: Opens(raw, j) <==> j == 2;
    assert forall t :: t in inline ==> t.start - 2 == 2;
    assert !IsTaken(inline, 2);
    PlainPageDestination(raw, s.end);
  }

  lemma PlainPageDestination(raw: Bytes, e: nat)
    requires raw == PLAIN_PAGE
    ensures IsDestination(raw, 4, e, true) <==> e == 5
  {
    assert forall k: nat :: !IsBracketed(raw, 4, k);
    assert EndsWord(raw[5], true) && !EndsWord(raw[4], true);
  }
}
