/** The link destinations of one line, told from its bytes. */
module Destinations {
  import opened ByteStrings
  import opened MarkdownScan

  /** White space: the space, and the bytes from tab to carriage return. */
  predicate IsWhite(b: byte) {
    b == 32 || b == 9 || b == 10 || b == 11 || b == 12 || b == 13
  }

  /** A byte that a destination does not contain unless it is in brackets. */
  predicate EndsWord(b: byte, inline: bool) {
    IsWhite(b) || (inline && b == 41)
  }

  /** From `<` at `m` to the next `>`, at `k`, with something but no line feed between them. */
  predicate IsBracketed(line: Bytes, m: nat, k: nat) {
    m + 1 < k < |line| && line[m] == 60 && line[k] == 62 && forall j :: m < j < k ==> line[j] != 62 && line[j] != 10
  }

  /** The destination from `m` to `e`: in brackets if they close, and otherwise all up to the
      first byte that ends it. */
  ghost predicate IsDestination(line: Bytes, m: nat, e: nat, inline: bool) {
    m < e <= |line|
    && if exists k :: 0 <= k < |line| && IsBracketed(line, m, k) then IsBracketed(line, m, e - 1)
       else (forall j :: m <= j < e ==> !EndsWord(line[j], inline)) && (e < |line| ==> EndsWord(line[e], inline))
  }

  lemma BracketIs(line: Bytes, m: nat, k: nat)
    requires m < |line|
    ensures IsBracketed(line, m, k) <==> AngleAt(line, m) && k == CloserAt(line, m + 1)
  {
    if IsBracketed(line, m, k) {
      var c := CloserAt(line, m + 1);
      assert c >= k;
    }
  }

  lemma DestinationIs(line: Bytes, m: nat, e: nat, inline: bool)
    requires m < |line|
    ensures IsDestination(line, m, e, inline) <==> !EndsWord(line[m], inline) && e == DestinationEnd(line, m, inline)
  {
    if AngleAt(line, m) {
      var k := CloserAt(line, m + 1);
      BracketIs(line, m, k);
      if e > 0 {
        BracketIs(line, m, e - 1);
      }
    } else {
      forall k | 0 <= k < |line| ensures !IsBracketed(line, m, k) {
        BracketIs(line, m, k);
      }
      WordIs(line, m, e, inline);
    }
  }

  lemma WordIs(line: Bytes, m: nat, e: nat, inline: bool)
    requires m < |line|
    ensures (m < e <= |line| && (forall j :: m <= j < e ==> !EndsWord(line[j], inline)) && (e < |line| ==> EndsWord(line[e], inline)))
       <==> !EndsWord(line[m], inline) && e == TokenEnd(line, m, inline)
  {
    var t := TokenEnd(line, m, inline);
    assert forall b: byte :: EndsWord(b, inline) == IsStop(b, inline);
  }

  // ----------------------------------------------------------------- inline

  /** `](` at `j`, and behind it a byte that can begin a destination. */
  predicate Opens(line: Bytes, j: nat) {
    j + 2 < |line| && line[j] == 93 && line[j + 1] == 40 && !EndsWord(line[j + 2], true)
  }

  predicate IsTaken(spans: seq<Span>, j: nat) {
    exists s :: s in spans && s.start <= j < s.end
  }

  /** The inline destinations of a line, from `i` on. */
  ghost predicate AreInline(line: Bytes, i: nat, spans: seq<Span>) {
    forall s :: s in spans <==>
                i + 2 <= s.start && Opens(line, s.start - 2) && IsDestination(line, s.start, s.end, true) && !IsTaken(spans, s.start - 2)
  }

  lemma OpensIs(line: Bytes, j: nat)
    ensures Opens(line, j) <==> OpensAt(line, j)
  {
  }

  lemma {:induction false} InlinePlaces(line: Bytes, i: nat)
    requires i <= |line|
    ensures forall s :: s in InlineSpans(line, i) ==> i + 2 <= s.start < s.end <= |line|
    decreases |line| - i
  {
    hide DestinationEnd;
    if i < |line| {
      if OpensAt(line, i) {
        InlinePlaces(line, DestinationEnd(line, i + 2, true));
      } else {
        InlinePlaces(line, i + 1);
      }
    }
  }

  lemma TakenOneMore(first: Span, rest: seq<Span>, j: nat)
    ensures IsTaken([first] + rest, j) <==> first.start <= j < first.end || IsTaken(rest, j)
  {
    var all := [first] + rest;
    assert all[0] == first;
    assert forall s :: s in all <==> s == first || s in rest;
  }

  /** What the place of a destination asks of the first of them and of the others. */
  lemma FirstOrLater(line: Bytes, i: nat, rest: seq<Span>, s: Span)
    requires OpensAt(line, i)
    requires forall t :: t in rest ==> DestinationEnd(line, i + 2, true) + 2 <= t.start
    ensures
      var e := DestinationEnd(line, i + 2, true);
      var all := [Span(i + 2, e)] + rest;
      i + 2 <= s.start && Opens(line, s.start - 2) && IsDestination(line, s.start, s.end, true) && !IsTaken(all, s.start - 2)
      <==> s == Span(i + 2, e)
           || (e + 2 <= s.start && Opens(line, s.start - 2) && IsDestination(line, s.start, s.end, true) && !IsTaken(rest, s.start - 2))
  {
    hide DestinationEnd, IsDestination;
    var e := DestinationEnd(line, i + 2, true);
    DestinationIs(line, i + 2, e, true);
    DestinationIs(line, i + 2, s.end, true);
    OpensIs(line, i);
    if s.start >= 2 {
      TakenOneMore(Span(i + 2, e), rest, s.start - 2);
    }
    TakenOneMore(Span(i + 2, e), rest, i);
    assert !Opens(line, i + 1);
  }

  /** Exactly every `](` with a destination behind it, unless it is inside an earlier one. */
  lemma {:induction false} InlineAre(line: Bytes, i: nat)
    requires i <= |line|
    ensures AreInline(line, i, InlineSpans(line, i))
    decreases |line| - i
  {
    hide DestinationEnd, IsDestination, IsTaken, Opens;
    if i == |line| {
      NoneOpen(line);
    } else if OpensAt(line, i) {
      var e := DestinationEnd(line, i + 2, true);
      var rest := InlineSpans(line, e);
      InlineAre(line, e);
      InlinePlaces(line, e);
      forall s ensures s in [Span(i + 2, e)] + rest <==>
          i + 2 <= s.start && Opens(line, s.start - 2) && IsDestination(line, s.start, s.end, true)
          && !IsTaken([Span(i + 2, e)] + rest, s.start - 2)
      {
        FirstOrLater(line, i, rest, s);
      }
    } else {
      OpensIs(line, i);
      InlineAre(line, i + 1);
    }
  }

  lemma NoneOpen(line: Bytes)
    ensures forall j :: |line| <= j ==> !Opens(line, j)
  {
  }

  /** There is only one such collection. */
  lemma {:induction false} InlineAreUnique(line: Bytes, i: nat, a: seq<Span>, b: seq<Span>, s: Span)
    requires AreInline(line, i, a) && AreInline(line, i, b)
    ensures s in a <==> s in b
    decreases s.start
  {
    hide IsDestination, Opens;
    if s.start >= 2 {
      forall t: Span | t.start <= s.start - 2 ensures t in a <==> t in b {
        InlineAreUnique(line, i, a, b, t);
      }
      assert IsTaken(a, s.start - 2) <==> IsTaken(b, s.start - 2);
    }
  }

  // -------------------------------------------------------------- reference

  /** At most three spaces up to `[` at `k`, a label up to `]:` at `l` with something but no line
      feed in it, and white space up to `m`. */
  predicate IsHead(line: Bytes, k: nat, l: nat, m: nat) {
    k <= 3 && k + 1 < l && l + 2 <= m < |line|
    && (forall j :: 0 <= j < k ==> line[j] == 32) && line[k] == 91
    && (forall j :: k < j < l ==> line[j] != 93 && line[j] != 10) && line[l] == 93 && line[l + 1] == 58
    && (forall j :: l + 2 <= j < m ==> IsWhite(line[j])) && !IsWhite(line[m])
  }

  /** A definition whose destination begins at `m`. */
  ghost predicate Defines(line: Bytes, m: nat) {
    exists k: nat, l: nat :: IsHead(line, k, l, m)
  }

  lemma HeadIs(line: Bytes, k: nat, l: nat, m: nat)
    requires IsHead(line, k, l, m)
    ensures ReferenceHead(line) == Some(m)
  {
    hide RunEnd, LabelEnd, SkipSpace;
    assert RunEnd(line, 0, SPACE) == k;
    assert LabelEnd(line, k + 1) == l;
    assert SkipSpace(line, l + 2) == m;
  }

  lemma DefinesIs(line: Bytes, m: nat)
    ensures Defines(line, m) <==> ReferenceHead(line) == Some(m)
  {
    hide RunEnd, LabelEnd, SkipSpace;
    if k: nat, l: nat :| IsHead(line, k, l, m) {
      HeadIs(line, k, l, m);
    }
    if ReferenceHead(line) == Some(m) {
      var k := RunEnd(line, 0, SPACE);
      var l := LabelEnd(line, k + 1);
      assert IsHead(line, k, l, m);
    }
  }
}
