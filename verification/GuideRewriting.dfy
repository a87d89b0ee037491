/** Rewriting the links of a guide for a copy elsewhere: line by line, code fences left alone. */
module GuideRewriting {
  import opened ByteStrings
  import opened MarkdownScan

  /** What the rewriting does with one destination. */
  type Mover = Bytes -> Bytes

  // ------------------------------------------------------------ characters

  /** The class `\s` of a text pattern. */
  predicate IsBlank(b: byte) {
    9 <= b <= 13 || 28 <= b <= SPACE
  }

  /** Where `splitlines` ends a line; carriage returns are line feeds once a text is read. */
  predicate EndsLine(b: byte) {
    10 <= b <= 12 || 28 <= b <= 30
  }

  predicate Stops(b: byte, inline: bool) {
    IsBlank(b) || (inline && b == RPAREN)
  }

  function SkipBlank(s: Bytes, i: nat): (k: nat)
    requires i <= |s|
    ensures i <= k <= |s|
    ensures forall j :: i <= j < k ==> IsBlank(s[j])
    ensures k < |s| ==> !IsBlank(s[k])
    decreases |s| - i
  {
    if i == |s| || !IsBlank(s[i]) then i else SkipBlank(s, i + 1)
  }

  /** The end of the run that starts at `i` of bytes that do not stop a destination. */
  function WordEnd(s: Bytes, i: nat, inline: bool): (k: nat)
    requires i <= |s|
    ensures i <= k <= |s|
    ensures forall j :: i <= j < k ==> !Stops(s[j], inline)
    ensures k < |s| ==> Stops(s[k], inline)
    decreases |s| - i
  {
    if i == |s| || Stops(s[i], inline) then i else WordEnd(s, i + 1, inline)
  }

  // ----------------------------------------------------------- one line

  predicate StopsAt(s: Bytes, k: nat) {
    k < |s| && Stops(s[k], true)
  }

  /** The end of the destination at `m`, or `m` when there is none: brackets if they close, and
      otherwise a word; an inline destination has a blank or a parenthesis behind it. */
  function LinkEnd(s: Bytes, m: nat, inline: bool): (e: nat)
    requires m <= |s|
    ensures m <= e <= |s|
  {
    if AngleAt(s, m) && (!inline || StopsAt(s, CloserAt(s, m + 1) + 1)) then CloserAt(s, m + 1) + 1
    else if inline && WordEnd(s, m, inline) == |s| then m
    else WordEnd(s, m, inline)
  }

  /** The inline destination that `](` at the start of `s` opens, if any. */
  function Opening(s: Bytes): (o: Option<Span>)
    ensures o.Some? ==> 2 <= o.value.start < o.value.end < |s| && s[0] == RBRACKET
  {
    if |s| < 2 || s[0] != RBRACKET || s[1] != LPAREN then None
    else
      var m := SkipBlank(s, 2);
      var e := LinkEnd(s, m, true);
      if e == m then None else Some(Span(m, e))
  }

  /** The line with every inline destination moved. */
  function InlineMoved(s: Bytes, f: Mover): Bytes
    decreases |s|
  {
    if s == [] then []
    else
      match Opening(s)
      case None => [s[0]] + InlineMoved(s[1..], f)
      case Some(o) => s[..o.start] + f(s[o.start..o.end]) + InlineMoved(s[o.end..], f)
  }

  /** Where the destination of a reference definition starts, if the line begins one. */
  function DefinitionAt(line: Bytes): (m: Option<nat>)
    ensures m.Some? ==> 4 <= m.value < |line| && !IsBlank(line[m.value])
  {
    var k := SkipBlank(line, 0);
    if k > 3 || k == |line| || line[k] != LBRACKET then None
    else
      var l := LabelEnd(line, k + 1);
      if l == k + 1 || l + 1 >= |line| || line[l] != RBRACKET || line[l + 1] != COLON then None
      else
        var m := SkipBlank(line, l + 2);
        if m == |line| then None else Some(m)
  }

  function DefinitionMoved(line: Bytes, f: Mover): Bytes {
    match DefinitionAt(line)
    case None => line
    case Some(m) =>
      var e := LinkEnd(line, m, false);
      line[..m] + f(line[m..e]) + line[e..]
  }

  function LineMoved(line: Bytes, f: Mover): Bytes {
    DefinitionMoved(InlineMoved(line, f), f)
  }

  /** The successive matches of the inline pattern on one line, replaced. */
  method MoveInline(line: Bytes, f: Mover) returns (moved: Bytes)
    ensures moved == InlineMoved(line, f)
  {
    hide Opening, InlineMoved;
    moved := [];
    var rest := line;
    Joined([], InlineMoved(line, f));
    while rest != []
      invariant InlineMoved(line, f) == moved + InlineMoved(rest, f)
      decreases |rest|
    {
      InlineStep(moved, rest, f);
      match Opening(rest) {
        case None =>
          moved := moved + [rest[0]];
          rest := rest[1..];
        case Some(o) =>
          moved := moved + (rest[..o.start] + f(rest[o.start..o.end]));
          rest := rest[o.end..];
      }
    }
    NothingMoved(f);
    Joined(moved, []);
  }

  lemma Joined(a: Bytes, b: Bytes)
    ensures [] + b == b && a + [] == a
  {
  }

  lemma NothingMoved(f: Mover)
    ensures InlineMoved([], f) == []
  {
  }

  lemma InlineHere(s: Bytes, f: Mover)
    requires s != []
    ensures
      InlineMoved(s, f)
      == match Opening(s)
         case None => [s[0]] + InlineMoved(s[1..], f)
         case Some(o) => s[..o.start] + f(s[o.start..o.end]) + InlineMoved(s[o.end..], f)
  {
    hide Opening;
  }

  lemma InlineStep(done: Bytes, s: Bytes, f: Mover)
    requires s != []
    ensures
      done + InlineMoved(s, f)
      == match Opening(s)
         case None => (done + [s[0]]) + InlineMoved(s[1..], f)
         case Some(o) => (done + (s[..o.start] + f(s[o.start..o.end]))) + InlineMoved(s[o.end..], f)
  {
    hide Opening, InlineMoved;
    InlineHere(s, f);
    match Opening(s) {
      case None => Associates(done, [s[0]], InlineMoved(s[1..], f));
      case Some(o) =>
        Associates(done, s[..o.start] + f(s[o.start..o.end]), InlineMoved(s[o.end..], f));
    }
  }

  // ----------------------------------------------------------- the guide

  function LineLength(s: Bytes): (n: nat)
    requires s != []
    ensures 0 < n <= |s|
    ensures forall j :: 0 <= j < n - 1 ==> !EndsLine(s[j])
    ensures n < |s| ==> EndsLine(s[n - 1])
    decreases |s|
  {
    if EndsLine(s[0]) || |s| == 1 then 1 else 1 + LineLength(s[1..])
  }

  function Lines(text: Bytes): seq<Bytes>
    decreases |text|
  {
    if text == [] then [] else [text[..LineLength(text)]] + Lines(text[LineLength(text)..])
  }

  function Join(lines: seq<Bytes>): Bytes {
    if lines == [] then [] else lines[0] + Join(lines[1..])
  }

  /** A line that begins, after blanks, with three or more backticks or tildes. */
  function Marker(line: Bytes): Fence {
    var k := SkipBlank(line, 0);
    if k < |line| && (line[k] == BACKTICK || line[k] == TILDE) && RunEnd(line, k, line[k]) >= k + 3
    then Fence(line[k], RunEnd(line, k, line[k]) - k)
    else NoFence
  }

  /** The lines of a guide that begins in the given fence state, outside fences with their
      destinations moved. */
  function LinesMoved(lines: seq<Bytes>, fence: Fence, f: Mover): (moved: seq<Bytes>)
    ensures |moved| == |lines|
  {
    if lines == [] then []
    else
      var marker := Marker(lines[0]);
      [if marker.NoFence? && fence.NoFence? then LineMoved(lines[0], f) else lines[0]]
      + LinesMoved(lines[1..], Turn(fence, marker), f)
  }

  function GuideMoved(text: Bytes, f: Mover): Bytes {
    Join(LinesMoved(Lines(text), NoFence, f))
  }

  /** The rewriting of a guide: a pass over its lines with a fence state. */
  method RelocateGuide(text: Bytes, f: Mover) returns (moved: Bytes)
    requires RETURN !in text
    ensures moved == GuideMoved(text, f)
  {
    hide Lines, LinesMoved, LineMoved, Marker, Join;
    moved := [];
    var rest, fence := text, NoFence;
    Joined([], GuideMoved(text, f));
    while rest != []
      invariant GuideMoved(text, f) == moved + Join(LinesMoved(Lines(rest), fence, f))
      decreases |rest|
    {
      GuideStep(moved, rest, fence, f);
      var line := rest[..LineLength(rest)];
      var marker := Marker(line);
      if marker.Fence? {
        moved := moved + line;
        if fence.NoFence? {
          fence := marker;
        } else if marker.mark == fence.mark && marker.length >= fence.length {
          fence := NoFence;
        }
      } else if fence.NoFence? {
        var inline := MoveInline(line, f);
        assert LineMoved(line, f) == DefinitionMoved(inline, f) by { MovedInOrder(line, f); }
        moved := moved + DefinitionMoved(inline, f);
      } else {
        moved := moved + line;
      }
      rest := rest[|line|..];
    }
    NoLines(fence, f);
    Joined(moved, []);
  }

  lemma MovedInOrder(line: Bytes, f: Mover)
    ensures LineMoved(line, f) == DefinitionMoved(InlineMoved(line, f), f)
  {
  }

  lemma NoLines(fence: Fence, f: Mover)
    ensures Join(LinesMoved(Lines([]), fence, f)) == []
  {
  }

  lemma GuideStep(done: Bytes, text: Bytes, fence: Fence, f: Mover)
    requires text != []
    ensures
      var line := text[..LineLength(text)];
      var marker := Marker(line);
      var now := if marker.NoFence? && fence.NoFence? then LineMoved(line, f) else line;
      done + Join(LinesMoved(Lines(text), fence, f))
      == (done + now) + Join(LinesMoved(Lines(text[|line|..]), Turn(fence, marker), f))
  {
    hide LineMoved, Marker, Turn;
    var line := text[..LineLength(text)];
    var lines, rest := Lines(text), Lines(text[|line|..]);
    assert lines[0] == line && lines[1..] == rest;
    var moved := LinesMoved(lines, fence, f);
    assert moved[1..] == LinesMoved(rest, Turn(fence, Marker(line)), f);
    Associates(done, moved[0], Join(moved[1..]));
  }
}
