/** The link-target scanner of the documentation checker: lines, code fences, inline
    and reference destinations, and the byte spans it reports. */
module MarkdownScan {
  import opened ByteStrings

  /** A half-open byte range of the page that holds one link destination. */
  datatype Span = Span(start: nat, end: nat)

  /** The opening marker of the fenced block the scanner is in, if any. */
  datatype Fence = NoFence | Fence(mark: byte, length: nat)

  function Shift(spans: seq<Span>, d: nat): (r: seq<Span>)
    ensures |r| == |spans|
    ensures forall i :: 0 <= i < |r| ==> r[i] == Span(d + spans[i].start, d + spans[i].end)
  {
    seq(|spans|, i requires 0 <= i < |spans| => Span(d + spans[i].start, d + spans[i].end))
  }

  // ---------------------------------------------------------------- lines

  /** The index of the first line-break byte from `i` on, or the length. */
  function BreakAt(s: Bytes, i: nat): (k: nat)
    requires i <= |s|
    ensures i <= k <= |s|
    ensures forall j :: i <= j < k ==> !IsBreak(s[j])
    ensures k < |s| ==> IsBreak(s[k])
    decreases |s| - i
  {
    if i == |s| || IsBreak(s[i]) then i else BreakAt(s, i + 1)
  }

  /** The end of the line that starts at `i`, its terminator (CR, LF or CR LF) included. */
  function LineEnd(s: Bytes, i: nat): (n: nat)
    requires i < |s|
    ensures i < n <= |s|
  {
    var k := BreakAt(s, i);
    if k == |s| then k
    else if s[k] == RETURN && k + 1 < |s| && s[k + 1] == NEWLINE then k + 2
    else k + 1
  }

  // --------------------------------------------------------------- fences

  /** A line that begins with three or more backticks or tildes, after white space. */
  function FenceMarker(line: Bytes): Fence {
    var k := SkipSpace(line, 0);
    if k < |line| && (line[k] == BACKTICK || line[k] == TILDE) && RunEnd(line, k, line[k]) >= k + 3
    then Fence(line[k], RunEnd(line, k, line[k]) - k)
    else NoFence
  }

  /** The fence state after a line with the given marker: a marker opens a block, and a marker
      of the same byte that is at least as long closes it. */
  function Turn(fence: Fence, marker: Fence): Fence {
    if marker.NoFence? then fence
    else if fence.NoFence? then marker
    else if marker.mark == fence.mark && marker.length >= fence.length then NoFence
    else fence
  }

  /** The fence state after `line`. */
  function FenceAfter(fence: Fence, line: Bytes): Fence {
    Turn(fence, FenceMarker(line))
  }

  // --------------------------------------------------------- destinations

  /** The bytes that end an unbracketed destination. */
  predicate IsStop(b: byte, inline: bool) {
    IsSpace(b) || (inline && b == RPAREN)
  }

  /** The end of the run of destination bytes that starts at `i`. */
  function TokenEnd(s: Bytes, i: nat, inline: bool): (k: nat)
    requires i <= |s|
    ensures i <= k <= |s|
    ensures forall j :: i <= j < k ==> !IsStop(s[j], inline)
    ensures k < |s| ==> IsStop(s[k], inline)
    decreases |s| - i
  {
    if i == |s| || IsStop(s[i], inline) then i else TokenEnd(s, i + 1, inline)
  }

  /** The first `>` or line feed of `s` from index `i` on, or the length. */
  function CloserAt(s: Bytes, i: nat): (k: nat)
    requires i <= |s|
    ensures i <= k <= |s|
    ensures forall j :: i <= j < k ==> s[j] != GREATER && s[j] != NEWLINE
    ensures k < |s| ==> s[k] == GREATER || s[k] == NEWLINE
    decreases |s| - i
  {
    if i == |s| || s[i] == GREATER || s[i] == NEWLINE then i else CloserAt(s, i + 1)
  }

  /** Whether `<...>` with at least one byte inside starts at `i`. */
  predicate AngleAt(s: Bytes, i: nat) {
    i < |s| && s[i] == LESS
    && var k := CloserAt(s, i + 1); i + 2 <= k < |s| && s[k] == GREATER
  }

  /** The end of the destination that starts at `i`: angle brackets if they close, and
      otherwise a run of bytes that do not stop it; `i` itself when there is none. */
  function DestinationEnd(s: Bytes, i: nat, inline: bool): (k: nat)
    requires i <= |s|
    ensures i <= k <= |s|
    ensures k > i <==> i < |s| && !IsStop(s[i], inline)
  {
    if AngleAt(s, i) then CloserAt(s, i + 1) + 1 else TokenEnd(s, i, inline)
  }

  /** `](` followed by a byte that can start an inline destination. */
  predicate OpensAt(line: Bytes, j: int) {
    0 <= j && j + 2 < |line| && line[j] == RBRACKET && line[j + 1] == LPAREN && !IsStop(line[j + 2], true)
  }

  /** The inline destinations from index `i` on, leftmost first and not overlapping. */
  function InlineSpans(line: Bytes, i: nat): (spans: seq<Span>)
    requires i <= |line|
    decreases |line| - i
  {
    if i == |line| then []
    else if OpensAt(line, i) then
      var end := DestinationEnd(line, i + 2, true);
      [Span(i + 2, end)] + InlineSpans(line, end)
    else InlineSpans(line, i + 1)
  }

  /** Where the destination of a reference definition starts, if `line` begins one: at most
      three spaces, a nonempty bracketed label, a colon, optional white space. */
  function ReferenceHead(line: Bytes): (m: Option<nat>)
    ensures m.Some? ==> 4 <= m.value < |line| && !IsSpace(line[m.value])
  {
    var k := RunEnd(line, 0, SPACE);
    if k > 3 || k == |line| || line[k] != LBRACKET then None
    else
      var l := LabelEnd(line, k + 1);
      if l == k + 1 || l + 1 >= |line| || line[l] != RBRACKET || line[l + 1] != COLON then None
      else
        var m := SkipSpace(line, l + 2);
        if m == |line| then None else Some(m)
  }

  /** The first `]` or line feed of `s` from index `i` on, or the length. */
  function LabelEnd(s: Bytes, i: nat): (k: nat)
    requires i <= |s|
    ensures i <= k <= |s|
    ensures forall j :: i <= j < k ==> s[j] != RBRACKET && s[j] != NEWLINE
    ensures k < |s| ==> s[k] == RBRACKET || s[k] == NEWLINE
    decreases |s| - i
  {
    if i == |s| || s[i] == RBRACKET || s[i] == NEWLINE then i else LabelEnd(s, i + 1)
  }

  function ReferenceSpans(line: Bytes): seq<Span> {
    match ReferenceHead(line)
    case None => []
    case Some(m) => [Span(m, DestinationEnd(line, m, false))]
  }

  /** The spans of an unfenced line by position: a reference definition comes first. */
  function LineSpans(line: Bytes): seq<Span> {
    ReferenceSpans(line) + InlineSpans(line, 0)
  }

  /** The spans of a line in the fence state before it. */
  function SpansOfLine(line: Bytes, fence: Fence): seq<Span> {
    if FenceMarker(line).NoFence? && fence.NoFence? then LineSpans(line) else []
  }

  /** The line of a page that starts at `offset`. */
  function LineAt(raw: Bytes, i: nat): (line: Bytes)
    requires i < |raw|
    ensures 0 < |line| <= |raw| - i
  {
    raw[i..LineEnd(raw, i)]
  }

  /** All the spans from the line at `offset` on, by position. */
  function PageSpans(raw: Bytes, offset: nat, fence: Fence): seq<Span>
    requires offset <= |raw|
    decreases |raw| - offset
  {
    if offset == |raw| then []
    else
      var line := LineAt(raw, offset);
      Shift(SpansOfLine(line, fence), offset) + PageSpans(raw, offset + |line|, FenceAfter(fence, line))
  }

  // ----------------------------------------------- the scanner's own loops

  /** The spans of a line in the order the scanner yields them: inline ones first. */
  function YieldOfLine(line: Bytes, fence: Fence): seq<Span> {
    if FenceMarker(line).NoFence? && fence.NoFence? then InlineSpans(line, 0) + ReferenceSpans(line) else []
  }

  function PageYield(raw: Bytes, offset: nat, fence: Fence): seq<Span>
    requires offset <= |raw|
    decreases |raw| - offset
  {
    if offset == |raw| then []
    else
      var line := LineAt(raw, offset);
      Shift(YieldOfLine(line, fence), offset) + PageYield(raw, offset + |line|, FenceAfter(fence, line))
  }

  /** The successive matches of the inline pattern on one line. */
  method FindInline(line: Bytes) returns (spans: seq<Span>)
    ensures spans == InlineSpans(line, 0)
  {
    spans := [];
    var i := 0;
    while i < |line|
      invariant 0 <= i <= |line|
      invariant InlineSpans(line, 0) == spans + InlineSpans(line, i)
    {
      if OpensAt(line, i) {
        var end := DestinationEnd(line, i + 2, true);
        spans := spans + [Span(i + 2, end)];
        i := end;
      } else {
        i := i + 1;
      }
    }
  }

  /** The scanner's work on one line: its destinations, and the fence state it leaves. */
  method ScanLine(line: Bytes, fence: Fence) returns (spans: seq<Span>, after: Fence)
    ensures spans == YieldOfLine(line, fence)
    ensures after == FenceAfter(fence, line)
  {
    spans, after := [], fence;
    var marker := FenceMarker(line);
    if marker.Fence? {
      if fence.NoFence? {
        after := marker;
      } else if marker.mark == fence.mark && marker.length >= fence.length {
        after := NoFence;
      }
    } else if fence.NoFence? {
      spans := FindInline(line);
      spans := spans + ReferenceSpans(line);
    }
  }

  /** The scanner: one pass over the lines with a byte offset and a fence state. */
  method MarkdownTargets(raw: Bytes) returns (spans: seq<Span>)
    ensures spans == PageYield(raw, 0, NoFence)
  {
    hide FenceAfter, YieldOfLine, LineAt;
    spans := [];
    var offset, fence := 0, NoFence;
    while offset < |raw|
      invariant 0 <= offset <= |raw|
      invariant Rest(raw, 0, NoFence, []) == Rest(raw, offset, fence, spans)
    {
      var line := LineAt(raw, offset);
      var found, after := ScanLine(line, fence);
      spans := spans + Shift(found, offset);
      fence := after;
      offset := offset + |line|;
    }
    RestIsYield(raw, 0, NoFence, []);
  }

  /** The scanner's loop with what it has found so far. */
  ghost function Rest(raw: Bytes, i: nat, fence: Fence, found: seq<Span>): seq<Span>
    requires i <= |raw|
    decreases |raw| - i
  {
    if i == |raw| then found
    else
      var line := LineAt(raw, i);
      Rest(raw, i + |line|, FenceAfter(fence, line), found + Shift(YieldOfLine(line, fence), i))
  }

  lemma {:induction false} RestIsYield(raw: Bytes, i: nat, fence: Fence, found: seq<Span>)
    requires i <= |raw|
    ensures Rest(raw, i, fence, found) == found + PageYield(raw, i, fence)
    decreases |raw| - i
  {
    hide FenceAfter, YieldOfLine, LineAt;
    if i < |raw| {
      var line := LineAt(raw, i);
      RestIsYield(raw, i + |line|, FenceAfter(fence, line), found + Shift(YieldOfLine(line, fence), i));
    }
  }
}
