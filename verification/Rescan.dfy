/** What the scanner finds on a page whose destinations have been rewritten. */
module Rescan {
  import opened ByteStrings
  import opened MarkdownScan
  import opened Splicing
  import opened Links
  import Texts

  predicate IsAngled(t: Bytes) {
    |t| >= 2 && t[0] == LESS && t[|t| - 1] == GREATER
  }

  /** The bytes between the brackets of an angled destination; all of any other. */
  function Inner(t: Bytes): Bytes {
    if IsAngled(t) then t[1..|t| - 1] else t
  }

  /** What a rewriter may make of `t`: nothing new, or text that begins with a safe byte and
      otherwise uses safe bytes and bytes of `t`, in brackets exactly if `t` was. */
  ghost predicate Shape(t: Bytes, r: Bytes) {
    r == t
    || (|r| >= 1 && IsAngled(r) == IsAngled(t) && Inner(r) != [] && IsSafe(Inner(r)[0])
        && forall i :: 0 <= i < |Inner(r)| ==> IsSafe(Inner(r)[i]) || Inner(r)[i] in Inner(t))
  }

  ghost predicate Tame(f: Rewriter) {
    forall t :: Shape(t, f(t))
  }

  /** No `>` was put between the brackets of a rewritten destination. */
  predicate KeepsBrackets(t: Bytes, r: Bytes) {
    r != t && IsAngled(t) ==> GREATER !in Inner(r)
  }

  /** No inline destination can be found inside `r`. */
  predicate Quiet(r: Bytes) {
    forall j :: 0 <= j < |r| ==> !OpensAt(r, j)
  }

  // ------------------------------------------------------------- the line

  /** Only the end of the line breaks it. */
  ghost predicate LineLike(line: Bytes) {
    forall j :: BreakAt(line, 0) <= j < |line| ==> IsBreak(line[j])
  }

  /** The first place from `i` on where an inline destination opens, or the length. */
  function NextOpening(line: Bytes, i: nat): (k: nat)
    requires i <= |line|
    ensures i <= k <= |line|
    ensures forall j :: i <= j < k ==> !OpensAt(line, j)
    ensures k < |line| ==> OpensAt(line, k)
    decreases |line| - i
  {
    if i == |line| || OpensAt(line, i) then i else NextOpening(line, i + 1)
  }

  lemma {:induction false} InlineSkips(line: Bytes, i: nat, k: nat)
    requires i <= k <= |line|
    requires forall j :: i <= j < k ==> !OpensAt(line, j)
    ensures InlineSpans(line, i) == InlineSpans(line, k)
    decreases k - i
  {
    if i < k {
      InlineSkips(line, i + 1, k);
    }
  }

  /** `r` stands at index `p` of the page. */
  ghost predicate HeldAt(page: Bytes, p: nat, r: Bytes) {
    p + |r| <= |page| && forall j :: p <= j < p + |r| ==> page[j] == r[j - p]
  }

  /** Brackets close on the page only if they closed on the line: the page has no new `>`. */
  lemma NotNewlyClosed(line: Bytes, o: nat, e: nat, page: Bytes, p: nat)
    requires o < e <= |line| && LineLike(line) && (e < |line| ==> line[e] != GREATER)
    requires HeldAt(page, p, line[o..e])
    requires forall j :: o <= j < e ==> !IsBreak(line[j])
    requires forall j :: p + (e - o) <= j < |page| && page[j] == GREATER ==> GREATER in line[e..]
    ensures AngleAt(page, p) ==> AngleAt(line, o)
  {
    assert forall j :: o <= j < e ==> line[j] == line[o..e][j - o] == page[p + j - o];
    assert o + 1 < e ==> page[p + 1] == line[o + 1];
    if AngleAt(page, p) {
      var k, l := CloserAt(page, p + 1), CloserAt(line, o + 1);
      assert line[o] == LESS;
      if k < p + (e - o) {
        assert line[o + k - p] == GREATER;
        assert l == o + k - p;
      } else {
        assert GREATER in line[e..];
        var j :| e <= j < |line| && line[j] == GREATER;
        assert l <= j && !IsBreak(line[j]);
        assert line[l] == GREATER;
      }
    }
  }

  lemma BracketsFound(page: Bytes, p: nat, r: Bytes, inline: bool)
    requires HeldAt(page, p, r) && IsAngled(r) && |r| >= 3
    requires forall i :: 1 <= i < |r| - 1 ==> r[i] != GREATER && r[i] != NEWLINE
    ensures DestinationEnd(page, p, inline) == p + |r|
  {
    assert page[p + |r| - 1] == GREATER;
    assert CloserAt(page, p + 1) == p + |r| - 1;
  }

  lemma TokenFound(page: Bytes, p: nat, r: Bytes, inline: bool)
    requires HeldAt(page, p, r) && !AngleAt(page, p)
    requires forall i :: 0 <= i < |r| ==> !IsStop(r[i], inline)
    requires p + |r| < |page| ==> IsStop(page[p + |r|], inline)
    ensures DestinationEnd(page, p, inline) == p + |r|
  {
    assert TokenEnd(page, p, inline) == p + |r|;
  }

  /** The bytes of a rewritten destination are safe or taken over. */
  lemma ImageBytes(t: Bytes, r: Bytes)
    requires Shape(t, r)
    ensures forall i :: 0 <= i < |r| ==> IsSafe(r[i]) || r[i] in t
    ensures r != t && IsAngled(t) ==> IsAngled(r) && forall i :: 1 <= i < |r| - 1 ==> r[i] in Inner(r) && (IsSafe(r[i]) || r[i] in t)
    ensures r != t && !IsAngled(t) ==> IsSafe(r[0])
  {
    if r != t {
      assert forall b :: b in Inner(t) ==> b in t;
      if IsAngled(t) {
        forall i | 1 <= i < |r| - 1 ensures r[i] in Inner(r) && (IsSafe(r[i]) || r[i] in t) {
          assert r[i] == Inner(r)[i - 1];
        }
        assert r[0] == LESS == t[0] && r[|r| - 1] == GREATER == t[|t| - 1];
      }
    }
  }

  /** What a destination can look like. */
  lemma DestinationBytes(line: Bytes, o: nat, e: nat, inline: bool)
    requires o < e <= |line| && DestinationEnd(line, o, inline) == e
    ensures
      var t := line[o..e];
      NEWLINE !in t
      && (AngleAt(line, o) ==> IsAngled(t) && |t| >= 3 && GREATER !in Inner(t))
      && (!AngleAt(line, o) ==> forall i :: 0 <= i < |t| ==> !IsStop(t[i], inline))
  {
    var t := line[o..e];
    assert forall i :: 0 <= i < |t| ==> t[i] == line[o + i];
    if AngleAt(line, o) {
      assert forall i :: 0 <= i < |Inner(t)| ==> Inner(t)[i] == line[o + i + 1];
    }
  }

  /** The same of its image. */
  lemma ImageLooks(t: Bytes, r: Bytes, inline: bool)
    requires t != [] && NEWLINE !in t && Shape(t, r) && KeepsBrackets(t, r)
    ensures NEWLINE !in r && r != []
    ensures IsAngled(t) && (r != t || GREATER !in Inner(t)) ==>
              IsAngled(r) && (r == t || |r| >= 3) && forall i :: 1 <= i < |r| - 1 ==> r[i] != GREATER && r[i] != NEWLINE
    ensures (forall i :: 0 <= i < |t| ==> !IsStop(t[i], inline)) ==> forall i :: 0 <= i < |r| ==> !IsStop(r[i], inline)
    ensures r != t && !IsAngled(t) ==> r[0] != LESS
  {
    ImageBytes(t, r);
    forall i | 0 <= i < |r| && r[i] in t
      ensures r[i] != NEWLINE
      ensures (forall k :: 0 <= k < |t| ==> !IsStop(t[k], inline)) ==> !IsStop(r[i], inline)
    {
      var k :| 0 <= k < |t| && t[k] == r[i];
    }
    forall i | 1 <= i < |r| - 1 && IsAngled(r)
      ensures r[i] in Inner(r)
    {
      assert r[i] == Inner(r)[i - 1];
    }
  }

  /** A destination that is replaced by its image is found again as a whole, when what
      follows it stops it as before. */
  lemma ImageFound(line: Bytes, o: nat, e: nat, inline: bool, page: Bytes, p: nat, r: Bytes)
    requires o < e <= |line| && DestinationEnd(line, o, inline) == e && LineLike(line)
    requires HeldAt(page, p, r)
    requires Shape(line[o..e], r) && KeepsBrackets(line[o..e], r)
    requires if e == |line| then p + |r| == |page| else p + |r| < |page| && page[p + |r|] == line[e]
    requires forall j :: p + |r| <= j < |page| && page[j] == GREATER ==> GREATER in line[e..]
    ensures DestinationEnd(page, p, inline) == p + |r|
  {
    var t := line[o..e];
    DestinationBytes(line, o, e, inline);
    ImageLooks(t, r, inline);
    if AngleAt(line, o) || (r != t && IsAngled(t)) {
      BracketsFound(page, p, r, inline);
    } else {
      if r == t {
        assert forall j :: o <= j < e ==> line[j] == t[j - o];
        NotNewlyClosed(line, o, e, page, p);
      }
      TokenFound(page, p, r, inline);
    }
  }

  // ---------------------------------------------------- inline destinations

  lemma {:induction false} InlineOrdered(line: Bytes, i: nat)
    requires i <= |line|
    ensures Ordered(InlineSpans(line, i), i, |line|)
    ensures InlineSpans(line, i) != [] ==> InlineSpans(line, i)[0].start >= i + 2
    ensures forall k :: 0 <= k < |InlineSpans(line, i)| ==>
              InlineSpans(line, i)[k].start < InlineSpans(line, i)[k].end <= |line|
              && InlineSpans(line, i)[k].end == DestinationEnd(line, InlineSpans(line, i)[k].start, true)
    decreases |line| - i
  {
    if i < |line| {
      if OpensAt(line, i) {
        InlineOrdered(line, DestinationEnd(line, i + 2, true));
      } else {
        InlineOrdered(line, i + 1);
        OrderedEarlier(InlineSpans(line, i + 1), i, i + 1, |line|);
      }
    }
  }

  lemma OrderedEarlier(spans: seq<Span>, a: nat, b: nat, limit: nat)
    requires Ordered(spans, b, limit) && a <= b
    ensures Ordered(spans, a, limit)
  {
  }

  lemma InlineAtNext(line: Bytes, i: nat)
    requires i <= |line|
    ensures
      var k := NextOpening(line, i);
      if k == |line| then InlineSpans(line, i) == []
      else
        var e := DestinationEnd(line, k + 2, true);
        k + 2 < e && InlineSpans(line, i) == [Span(k + 2, e)] + InlineSpans(line, e)
  {
    InlineSkips(line, i, NextOpening(line, i));
  }

  /** A splice that replaces nothing at its cursor begins with the byte that was there. */
  lemma SpliceHead(f: Rewriter, raw: Bytes, spans: seq<Span>, cursor: nat)
    requires Ordered(spans, cursor, |raw|) && (spans != [] ==> spans[0].start > cursor)
    ensures Splice(f, raw, spans, cursor) == [] <==> cursor == |raw|
    ensures cursor < |raw| ==> Splice(f, raw, spans, cursor)[0] == raw[cursor]
  {
  }

  /** A byte that encoding cannot produce is in the splice only if it was on the line. */
  lemma {:induction false} SpliceBytes(f: Rewriter, raw: Bytes, spans: seq<Span>, cursor: nat, b: byte)
    requires Ordered(spans, cursor, |raw|) && Tame(f) && !IsSafe(b)
    ensures b in Splice(f, raw, spans, cursor) ==> b in raw[cursor..]
    decreases |spans|
  {
    if spans != [] {
      hide IsAngled;
      var s := spans[0];
      ImageByte(f, raw[s.start..s.end], b);
      SpliceBytes(f, raw, spans[1..], s.end, b);
      assert raw[cursor..] == raw[cursor..s.start] + raw[s.start..s.end] + raw[s.end..];
    }
  }

  lemma ImageByte(f: Rewriter, t: Bytes, b: byte)
    requires Tame(f) && !IsSafe(b)
    ensures b in f(t) ==> b in t
  {
    hide IsSafe, IsAngled;
    assert Shape(t, f(t));
    ImageBytes(t, f(t));
  }

  ghost predicate AllKeepBrackets(f: Rewriter, raw: Bytes, spans: seq<Span>) {
    forall k :: 0 <= k < |spans| && spans[k].start <= spans[k].end <= |raw| ==>
      KeepsBrackets(raw[spans[k].start..spans[k].end], f(raw[spans[k].start..spans[k].end]))
  }

  /** After output that stands for the line up to index `i`, the scanner finds the images of
      the line's remaining inline destinations and nothing else. */
  lemma {:induction false} InlineRescan(f: Rewriter, line: Bytes, i: nat, out: Bytes)
    requires i <= |line| && LineLike(line) && Tame(f)
    requires Ordered(InlineSpans(line, i), i, |line|)
    requires AllKeepBrackets(f, line, InlineSpans(line, i))
    ensures InlineSpans(out + Splice(f, line, InlineSpans(line, i), i), |out|)
         == Moved(f, line, InlineSpans(line, i), i, |out|)
    decreases |line| - i
  {
    hide Splice, InlineSpans, NextOpening, DestinationEnd, AllKeepBrackets, Tame, LineLike;
    var k := NextOpening(line, i);
    if k == |line| {
      NoneCopied(f, line, i, out);
    } else {
      var e := DestinationEnd(line, k + 2, true);
      InlineShape(f, line, i, k, out);
      InlineStep(f, line, i, k, out);
      InlineRescan(f, line, e, Through(f, line, i, k + 2, e, out));
    }
  }

  /** The output after one more destination. */
  function Through(f: Rewriter, line: Bytes, i: nat, o: nat, e: nat, out: Bytes): Bytes
    requires i <= o <= e <= |line|
  {
    out + line[i..o] + f(line[o..e])
  }

  /** The destinations from `i` on: the first of them, and the rest. */
  lemma InlineShape(f: Rewriter, line: Bytes, i: nat, k: nat, out: Bytes)
    requires i <= k < |line| && k == NextOpening(line, i)
    requires Ordered(InlineSpans(line, i), i, |line|)
    ensures
      var e := DestinationEnd(line, k + 2, true);
      k + 2 < e && InlineSpans(line, i) == [Span(k + 2, e)] + InlineSpans(line, e)
      && Ordered(InlineSpans(line, e), e, |line|)
      && out + Splice(f, line, InlineSpans(line, i), i)
         == Through(f, line, i, k + 2, e, out) + Splice(f, line, InlineSpans(line, e), e)
    ensures AllKeepBrackets(f, line, InlineSpans(line, i)) ==>
              var e := DestinationEnd(line, k + 2, true);
              KeepsBrackets(line[k + 2..e], f(line[k + 2..e])) && AllKeepBrackets(f, line, InlineSpans(line, e))
  {
    hide DestinationEnd, IsStop;
    var spans, e := InlineSpans(line, i), DestinationEnd(line, k + 2, true);
    InlineAtNext(line, i);
    InlineOrdered(line, e);
    var rest := InlineSpans(line, e);
    assert spans[0] == Span(k + 2, e) && spans[1..] == rest;
    assert forall n :: 0 <= n < |rest| ==> rest[n] == spans[n + 1];
    Regroup(out, line[i..k + 2], f(line[k + 2..e]), Splice(f, line, rest, e));
  }

  /** The first inline destination after `out`. */
  lemma InlineStep(f: Rewriter, line: Bytes, i: nat, k: nat, out: Bytes)
    requires i <= k < |line| && k == NextOpening(line, i) && LineLike(line) && Tame(f)
    requires
      var e := DestinationEnd(line, k + 2, true);
      k + 2 < e && KeepsBrackets(line[k + 2..e], f(line[k + 2..e])) && Ordered(InlineSpans(line, e), e, |line|)
    ensures
      var e := DestinationEnd(line, k + 2, true);
      var next := Through(f, line, i, k + 2, e, out);
      var page := next + Splice(f, line, InlineSpans(line, e), e);
      InlineSpans(page, |out|) == [Span(|out| + (k + 2 - i), |next|)] + InlineSpans(page, |next|)
  {
    hide DestinationEnd, OpensAt, IsStop, NextOpening, InlineSpans, Splice, LineLike;
    var e := DestinationEnd(line, k + 2, true);
    var r, rest := f(line[k + 2..e]), InlineSpans(line, e);
    var tail := Splice(f, line, rest, e);
    assert Shape(line[k + 2..e], r);
    InlineOrdered(line, e);
    SpliceHead(f, line, rest, e);
    SpliceBytes(f, line, rest, e, GREATER);
    Layout(out, line[i..k + 2], r, tail);
    InlineFirst(line, i, k, out + line[i..k + 2] + r + tail, |out|, r);
  }

  /** A copied rest of a line without openings has none on the page. */
  lemma {:induction false} NoneCopied(f: Rewriter, line: Bytes, i: nat, out: Bytes)
    requires i <= |line| && NextOpening(line, i) == |line|
    ensures InlineSpans(line, i) == []
    ensures InlineSpans(out + Splice(f, line, [], i), |out|) == []
  {
    InlineSkips(line, i, |line|);
    var page := out + line[i..];
    forall j | |out| <= j < |page| ensures !OpensAt(page, j) {
      assert !OpensAt(line, i + j - |out|);
    }
    InlineSkips(page, |out|, |page|);
  }

  lemma Layout(out: Bytes, gap: Bytes, r: Bytes, tail: Bytes)
    ensures
      var next, page := out + gap + r, out + gap + r + tail;
      HeldAt(page, |out|, gap) && HeldAt(page, |out + gap|, r)
      && (tail != [] ==> |next| < |page| && page[|next|] == tail[0])
      && forall j :: |next| <= j < |page| ==> page[j] in tail
  {
    var next, page := out + gap + r, out + gap + r + tail;
    assert forall j :: |next| <= j < |page| ==> page[j] == tail[j - |next|];
  }

  /** The first inline destination from index `p` of the page on. */
  lemma InlineFirst(line: Bytes, i: nat, k: nat, page: Bytes, p: nat, r: Bytes)
    requires i <= k < |line| && k == NextOpening(line, i) && LineLike(line)
    requires HeldAt(page, p, line[i..k + 2]) && HeldAt(page, p + (k + 2 - i), r)
    requires
      var e, q := DestinationEnd(line, k + 2, true), p + (k + 2 - i) + |r|;
      Shape(line[k + 2..e], r) && KeepsBrackets(line[k + 2..e], r)
      && (if e == |line| then q == |page| else q < |page| && page[q] == line[e])
      && (forall j :: q <= j < |page| && page[j] == GREATER ==> GREATER in line[e..])
    ensures
      var q := p + (k + 2 - i);
      InlineSpans(page, p) == [Span(q, q + |r|)] + InlineSpans(page, q + |r|)
  {
    hide AngleAt, LineLike, DestinationEnd;
    var o, e, q := k + 2, DestinationEnd(line, k + 2, true), p + (k + 2 - i);
    ImageFound(line, o, e, true, page, q, r);
    FirstNotStop(line[o..e], r, true);
    OpeningCopied(line, i, k, page, p, r[0]);
  }

  /** A copied gap opens a destination where it did before and nowhere earlier. */
  lemma OpeningCopied(line: Bytes, i: nat, k: nat, page: Bytes, p: nat, b: byte)
    requires i <= k < |line| && k == NextOpening(line, i)
    requires HeldAt(page, p, line[i..k + 2]) && !IsStop(b, true)
    requires p + (k + 2 - i) < |page| && page[p + (k + 2 - i)] == b
    ensures OpensAt(page, p + (k - i)) && InlineSpans(page, p) == InlineSpans(page, p + (k - i))
  {
    forall j | p <= j < p + (k + 2 - i) ensures page[j] == line[i + j - p] {
      assert page[j] == line[i..k + 2][j - p];
    }
    assert page[p + (k - i)] == line[k] && page[p + (k + 1 - i)] == line[k + 1];
    forall j | p <= j < p + (k - i) ensures !OpensAt(page, j) {
      assert !OpensAt(line, i + j - p);
    }
    InlineSkips(page, p, p + (k - i));
  }

  /** The first byte of an image does not stop a destination if that of its source does not. */
  lemma FirstNotStop(t: Bytes, r: Bytes, inline: bool)
    requires t != [] && !IsStop(t[0], inline) && Shape(t, r)
    ensures r != [] && !IsStop(r[0], inline)
  {
  }

  // -------------------------------------------------- reference definitions

  /** Before the destination of a reference definition nothing opens an inline one. */
  lemma HeadIsQuiet(line: Bytes, m: nat)
    requires ReferenceHead(line) == Some(m)
    ensures line[m - 1] == COLON || IsSpace(line[m - 1])
    ensures forall j :: 0 <= j < m ==> !OpensAt(line, j)
  {
    var k := RunEnd(line, 0, SPACE);
    var l := LabelEnd(line, k + 1);
    assert m == SkipSpace(line, l + 2);
    forall j | 0 <= j < m ensures !OpensAt(line, j) {
      if j > l + 1 {
        assert IsSpace(line[j]);
      }
    }
  }

  /** The head of a reference definition depends on nothing after it. */
  lemma HeadKept(line: Bytes, m: nat, page: Bytes)
    requires ReferenceHead(line) == Some(m)
    requires m < |page| && HeldAt(page, 0, line[..m]) && !IsSpace(page[m])
    ensures ReferenceHead(page) == Some(m)
  {
    hide RunEnd, LabelEnd, SkipSpace;
    var k := RunEnd(line, 0, SPACE);
    var l := LabelEnd(line, k + 1);
    assert forall j :: 0 <= j < m ==> page[j] == line[..m][j] == line[j];
    assert forall j :: 0 <= j < m ==> line[j] == page[j];
    assert RunEnd(page, 0, SPACE) == k;
    assert LabelEnd(page, k + 1) == l;
    assert SkipSpace(page, l + 2) == m;
  }

  /** A line that is no reference definition does not become one after its first `](`. */
  lemma NoNewHead(line: Bytes, o: nat, page: Bytes)
    requires ReferenceHead(line) == None
    requires 2 <= o <= |line| && line[o - 2] == RBRACKET && line[o - 1] == LPAREN
    requires HeldAt(page, 0, line[..o])
    ensures ReferenceHead(page) == None
  {
    hide RunEnd, LabelEnd, SkipSpace;
    assert forall j :: 0 <= j < o ==> page[j] == line[..o][j] == line[j];
    assert forall j :: 0 <= j < o ==> line[j] == page[j];
    var k := RunEnd(line, 0, SPACE);
    assert k <= o - 2;
    assert RunEnd(page, 0, SPACE) == k;
    if k <= 3 && line[k] == LBRACKET {
      var l := LabelEnd(line, k + 1);
      assert l <= o - 2;
      assert LabelEnd(page, k + 1) == l;
      if l + 2 <= o - 2 {
        assert SkipSpace(line, l + 2) <= o - 2;
      }
    }
  }

  /** Nothing opens across the end of a reference destination. */
  lemma NothingStraddles(line: Bytes, m: nat, e: nat)
    requires m < e <= |line| && DestinationEnd(line, m, false) == e
    ensures !OpensAt(line, e - 2) && !OpensAt(line, e - 1)
  {
  }

  /** On a line whose destinations do not overlap, inline ones open only after the
      reference destination. */
  lemma InlineAfterReference(line: Bytes, m: nat, e: nat)
    requires ReferenceHead(line) == Some(m) && e == DestinationEnd(line, m, false)
    requires Ordered(LineSpans(line), 0, |line|)
    ensures m < e && InlineSpans(line, 0) == InlineSpans(line, e) && Ordered(InlineSpans(line, e), e, |line|)
    ensures forall j :: 0 <= j < e ==> !OpensAt(line, j)
  {
    HeadIsQuiet(line, m);
    NothingStraddles(line, m, e);
    assert LineSpans(line)[1..] == InlineSpans(line, 0);
    InlineAtNext(line, 0);
    assert NextOpening(line, 0) >= e;
    InlineSkips(line, 0, e);
  }

  /** After a quiet image of the reference destination the scanner looks for inline ones
      only behind it. */
  lemma QuietImage(page: Bytes, m: nat, r: Bytes)
    requires ReferenceHead(page) == Some(m) && HeldAt(page, m, r) && r != []
    requires DestinationEnd(page, m, false) == m + |r|
    ensures Quiet(r) ==> InlineSpans(page, 0) == InlineSpans(page, m + |r|)
    ensures !Quiet(r) ==> InlineSpans(page, 0) != [] && InlineSpans(page, 0)[0].start < m + |r|
  {
    HeadIsQuiet(page, m);
    NothingStraddles(page, m, m + |r|);
    forall j | m <= j < m + |r| - 2 ensures OpensAt(page, j) == OpensAt(r, j - m) {
      assert page[j] == r[j - m] && page[j + 1] == r[j + 1 - m] && page[j + 2] == r[j + 2 - m];
    }
    if Quiet(r) {
      InlineSkips(page, 0, m + |r|);
    } else {
      var j :| 0 <= j < |r| && OpensAt(r, j);
      assert OpensAt(page, m + j);
      InlineAtNext(page, 0);
    }
  }

  /** If the scanner finds an angled image as a whole, nothing inside it closes it early. */
  lemma FoundKeepsBrackets(t: Bytes, r: Bytes, page: Bytes, p: nat, inline: bool)
    requires Shape(t, r) && t != [] && HeldAt(page, p, r) && p <= |page|
    requires DestinationEnd(page, p, inline) == p + |r|
    ensures KeepsBrackets(t, r)
  {
    if r != t && IsAngled(t) {
      assert page[p] == LESS && page[p + 1] == r[1] == Inner(r)[0];
      forall i | 0 <= i < |Inner(r)| ensures Inner(r)[i] != GREATER {
        assert Inner(r)[i] == r[i + 1] == page[p + i + 1];
      }
    }
  }

  /** If the scanner finds exactly the images, then no bracketed one closes early. */
  lemma FoundAllKeepBrackets(f: Rewriter, line: Bytes, spans: seq<Span>, cursor: nat, out: Bytes)
    requires Ordered(spans, cursor, |line|) && Tame(f)
    requires forall k :: 0 <= k < |spans| ==> spans[k].start < spans[k].end
    requires InlineSpans(out + Splice(f, line, spans, cursor), |out|) == Moved(f, line, spans, cursor, |out|)
    ensures AllKeepBrackets(f, line, spans)
  {
    hide Splice, Moved, InlineSpans, DestinationEnd, Shape, KeepsBrackets;
    var page := out + Splice(f, line, spans, cursor);
    InlineOrdered(page, |out|);
    forall k | 0 <= k < |spans| && spans[k].start <= spans[k].end <= |line|
      ensures KeepsBrackets(line[spans[k].start..spans[k].end], f(line[spans[k].start..spans[k].end]))
    {
      MovedHoldsImages(f, line, spans, cursor, out, k);
      var found, t := InlineSpans(page, |out|)[k], line[spans[k].start..spans[k].end];
      var r := page[found.start..found.end];
      assert Shape(t, f(t));
      FoundKeepsBrackets(t, r, page, found.start, true);
    }
  }

  // ------------------------------------------------------------- the line

  /** The exact condition under which the rewritten line shows the same destinations: nothing
      put between brackets closes them, and the image of a reference destination opens no
      inline one. */
  ghost predicate LineSurvives(f: Rewriter, line: Bytes) {
    AllKeepBrackets(f, line, LineSpans(line))
    && (ReferenceHead(line).Some? ==>
          var m := ReferenceHead(line).value;
          Quiet(f(line[m..DestinationEnd(line, m, false)])))
  }

  /** Without a reference definition. */
  lemma InlineLineRescan(f: Rewriter, line: Bytes)
    requires LineLike(line) && Tame(f) && ReferenceHead(line) == None
    requires Ordered(LineSpans(line), 0, |line|)
    ensures LineSpans(Splice(f, line, LineSpans(line), 0)) == Moved(f, line, LineSpans(line), 0, 0)
       <==> LineSurvives(f, line)
  {
    hide ReferenceHead, DestinationEnd, InlineSpans, Shape, Quiet, Splice, Moved, LineLike;
    var spans := InlineSpans(line, 0);
    assert LineSpans(line) == spans;
    var page := Splice(f, line, spans, 0);
    assert [] + page == page;
    HeadlessPage(f, line);
    InlineOrdered(line, 0);
    if AllKeepBrackets(f, line, spans) {
      InlineRescan(f, line, 0, []);
    }
    if InlineSpans(page, 0) == Moved(f, line, spans, 0, 0) {
      FoundAllKeepBrackets(f, line, spans, 0, []);
    }
  }

  lemma {:induction false} HeadlessPage(f: Rewriter, line: Bytes)
    requires ReferenceHead(line) == None && Ordered(InlineSpans(line, 0), 0, |line|)
    ensures ReferenceHead(Splice(f, line, InlineSpans(line, 0), 0)) == None
  {
    hide ReferenceHead, DestinationEnd;
    var spans := InlineSpans(line, 0);
    InlineAtNext(line, 0);
    if spans == [] {
      assert line[0..] == line;
    } else {
      NoNewHead(line, spans[0].start, Splice(f, line, spans, 0));
    }
  }

  /** The page made of a line that is a reference definition: the head, the image of its
      destination, and the rest. */
  lemma ReferencePage(f: Rewriter, line: Bytes, m: nat)
    requires ReferenceHead(line) == Some(m) && Ordered(LineSpans(line), 0, |line|)
    ensures
      var e := DestinationEnd(line, m, false);
      var rest := InlineSpans(line, e);
      m < e && Ordered(rest, e, |line|) && LineSpans(line) == [Span(m, e)] + rest
      && (var out := line[..m] + f(line[m..e]);
          Splice(f, line, LineSpans(line), 0) == out + Splice(f, line, rest, e)
          && Moved(f, line, LineSpans(line), 0, 0)
             == [Span(m, |out|)] + Moved(f, line, rest, e, |out|))
  {
    hide ReferenceHead, DestinationEnd, InlineSpans;
    var e := DestinationEnd(line, m, false);
    InlineAfterReference(line, m, e);
    var rest := InlineSpans(line, e);
    assert LineSpans(line)[0] == Span(m, e) && LineSpans(line)[1..] == rest;
    assert line[0..m] == line[..m];
  }

  /** On that page the definition is found again, and its destination as a whole exactly if
      its brackets are kept. */
  lemma ReferenceFound(f: Rewriter, line: Bytes, m: nat)
    requires LineLike(line) && Tame(f)
    requires ReferenceHead(line) == Some(m) && Ordered(LineSpans(line), 0, |line|)
    ensures
      var e := DestinationEnd(line, m, false);
      var r, page := f(line[m..e]), Splice(f, line, LineSpans(line), 0);
      m < e && r != [] && HeldAt(page, m, r) && ReferenceHead(page) == Some(m)
      && (KeepsBrackets(line[m..e], r) <==> DestinationEnd(page, m, false) == m + |r|)
  {
    hide ReferenceHead, DestinationEnd, InlineSpans, LineLike, KeepsBrackets, Splice, LineSpans, Moved;
    ReferencePage(f, line, m);
    var e := DestinationEnd(line, m, false);
    var t, rest := line[m..e], InlineSpans(line, e);
    var r, tail := f(t), Splice(f, line, rest, e);
    var page := line[..m] + r + tail;
    assert Shape(t, r);
    FirstNotStop(t, r, false);
    Layout([], line[..m], r, tail);
    assert [] + line[..m] == line[..m];
    HeadKept(line, m, page);
    InlineOrdered(line, e);
    SpliceHead(f, line, rest, e);
    SpliceBytes(f, line, rest, e, GREATER);
    if KeepsBrackets(t, r) {
      ImageFound(line, m, e, false, page, m, r);
    }
    if DestinationEnd(page, m, false) == m + |r| {
      FoundKeepsBrackets(t, r, page, m, false);
    }
  }

  /** With one. */
  lemma ReferenceLineRescan(f: Rewriter, line: Bytes, m: nat)
    requires LineLike(line) && Tame(f) && ReferenceHead(line) == Some(m)
    requires Ordered(LineSpans(line), 0, |line|)
    ensures LineSpans(Splice(f, line, LineSpans(line), 0)) == Moved(f, line, LineSpans(line), 0, 0)
       <==> LineSurvives(f, line)
  {
    hide DestinationEnd, InlineSpans, Shape, Quiet, Splice, Moved, LineLike, ReferenceHead, LineSpans, Tame,
         KeepsBrackets, AllKeepBrackets;
    ReferencePage(f, line, m);
    ReferenceFound(f, line, m);
    var e := DestinationEnd(line, m, false);
    var rest, r, out := InlineSpans(line, e), f(line[m..e]), line[..m] + f(line[m..e]);
    var page := Splice(f, line, LineSpans(line), 0);
    SpansOfReference(page, m);
    Texts.FirstsAndRests(Span(m, DestinationEnd(page, m, false)), InlineSpans(page, 0), Span(m, |out|), Moved(f, line, rest, e, |out|));
    HeadAndRest(f, line, Span(m, e), rest);
    InlineOrdered(line, e);
    if LineSurvives(f, line) {
      QuietImage(page, m, r);
      InlineRescan(f, line, e, out);
    }
    if LineSpans(page) == Moved(f, line, LineSpans(line), 0, 0) {
      MovedStarts(f, line, rest, e, |out|);
      QuietImage(page, m, r);
      FoundAllKeepBrackets(f, line, rest, e, out);
    }
  }

  lemma SpansOfReference(line: Bytes, m: nat)
    requires ReferenceHead(line) == Some(m)
    ensures LineSpans(line) == [Span(m, DestinationEnd(line, m, false))] + InlineSpans(line, 0)
  {
    hide ReferenceHead, DestinationEnd, InlineSpans;
  }

  lemma HeadAndRest(f: Rewriter, line: Bytes, s: Span, rest: seq<Span>)
    requires s.start <= s.end <= |line|
    ensures AllKeepBrackets(f, line, [s] + rest)
       <==> KeepsBrackets(line[s.start..s.end], f(line[s.start..s.end])) && AllKeepBrackets(f, line, rest)
  {
    hide KeepsBrackets;
    var all := [s] + rest;
    assert all[0] == s;
    assert forall k :: 0 <= k < |rest| ==> rest[k] == all[k + 1];
  }

  lemma MovedStarts(f: Rewriter, line: Bytes, spans: seq<Span>, cursor: nat, at: nat)
    requires Ordered(spans, cursor, |line|)
    ensures spans != [] ==> Moved(f, line, spans, cursor, at)[0].start >= at
  {
  }

  /** The line's exact condition. */
  lemma LineRescan(f: Rewriter, line: Bytes)
    requires LineLike(line) && Tame(f) && Ordered(LineSpans(line), 0, |line|)
    ensures LineSpans(Splice(f, line, LineSpans(line), 0)) == Moved(f, line, LineSpans(line), 0, 0)
       <==> LineSurvives(f, line)
  {
    match ReferenceHead(line)
    case None => InlineLineRescan(f, line);
    case Some(m) => ReferenceLineRescan(f, line, m);
  }
}
