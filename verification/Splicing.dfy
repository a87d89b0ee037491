/** Replacing spans of a page by their images under a rewriter, the ledger of offsets that
    records it, and the right-to-left undo of that ledger. */
module Splicing {
  import opened ByteStrings
  import opened MarkdownScan

  /** What a rewriter does with one destination. */
  type Rewriter = Bytes -> Bytes

  /** One ledger row: at offset `at` of the archived page, `before` became `after`. */
  datatype Edit = Edit(at: nat, before: Bytes, after: Bytes)

  /** The spans follow each other from `cursor` on without overlap, inside `limit`. */
  predicate Ordered(spans: seq<Span>, cursor: nat, limit: nat) {
    if spans == [] then cursor <= limit
    else cursor <= spans[0].start <= spans[0].end <= limit && Ordered(spans[1..], spans[0].end, limit)
  }

  /** The rest of the page from `cursor` on, with each span replaced by its image. */
  function Splice(f: Rewriter, raw: Bytes, spans: seq<Span>, cursor: nat): Bytes
    requires Ordered(spans, cursor, |raw|)
  {
    if spans == [] then raw[cursor..]
    else
      var s := spans[0];
      raw[cursor..s.start] + f(raw[s.start..s.end]) + Splice(f, raw, spans[1..], s.end)
  }

  /** The ledger row of one replacement: none when nothing changed. */
  function Row(at: nat, target: Bytes, image: Bytes): seq<Edit> {
    if image != target then [Edit(at, target, image)] else []
  }

  /** An archived page with the ledger that records how it was made. */
  datatype Archive = Archive(page: Bytes, ledger: seq<Edit>)

  /** The page and the ledger that come of replacing the remaining spans, after `out` and
      `ledger` so far. */
  function Build(f: Rewriter, raw: Bytes, spans: seq<Span>, cursor: nat, out: Bytes, ledger: seq<Edit>): Archive
    requires Ordered(spans, cursor, |raw|)
  {
    if spans == [] then Archive(out + raw[cursor..], ledger)
    else
      var s := spans[0];
      var target, copied := raw[s.start..s.end], out + raw[cursor..s.start];
      Build(f, raw, spans[1..], s.end, copied + f(target), ledger + Row(|copied|, target, f(target)))
  }

  lemma {:induction false} BuildIsSplice(f: Rewriter, raw: Bytes, spans: seq<Span>, cursor: nat, out: Bytes,
                                         ledger: seq<Edit>)
    requires Ordered(spans, cursor, |raw|)
    ensures Build(f, raw, spans, cursor, out, ledger).page == out + Splice(f, raw, spans, cursor)
    decreases |spans|
  {
    if spans != [] {
      var s := spans[0];
      var target, copied := raw[s.start..s.end], out + raw[cursor..s.start];
      BuildIsSplice(f, raw, spans[1..], s.end, copied + f(target), ledger + Row(|copied|, target, f(target)));
      Regroup(out, raw[cursor..s.start], f(target), Splice(f, raw, spans[1..], s.end));
    }
  }

  lemma Regroup(a: Bytes, b: Bytes, c: Bytes, d: Bytes)
    ensures a + (b + c + d) == (a + b) + c + d
  {
  }

  /** Where each replaced span lies in the output. */
  function Moved(f: Rewriter, raw: Bytes, spans: seq<Span>, cursor: nat, at: nat): (moved: seq<Span>)
    requires Ordered(spans, cursor, |raw|)
    ensures |moved| == |spans|
  {
    if spans == [] then []
    else
      var s := spans[0];
      var start := at + (s.start - cursor);
      var end := start + |f(raw[s.start..s.end])|;
      [Span(start, end)] + Moved(f, raw, spans[1..], s.end, end)
  }

  /** The k-th moved span of the output holds the image of the k-th span of the page. */
  lemma {:induction false} MovedHoldsImages(f: Rewriter, raw: Bytes, spans: seq<Span>, cursor: nat, out: Bytes, k: nat)
    requires Ordered(spans, cursor, |raw|) && k < |spans|
    ensures
      var moved := Moved(f, raw, spans, cursor, |out|)[k];
      var page := out + Splice(f, raw, spans, cursor);
      moved.start <= moved.end <= |page|
      && spans[k].start <= spans[k].end <= |raw|
      && page[moved.start..moved.end] == f(raw[spans[k].start..spans[k].end])
    decreases k
  {
    var s := spans[0];
    var gap, image, rest := raw[cursor..s.start], f(raw[s.start..s.end]), Splice(f, raw, spans[1..], s.end);
    Regroup(out, gap, image, rest);
    if k > 0 {
      MovedHoldsImages(f, raw, spans[1..], s.end, out + gap + image, k - 1);
    }
  }

  // ---------------------------------------------------------------- undo

  /** Python's `s[:n]` and `s[n:]`, which clip. */
  function Take(s: Bytes, n: nat): Bytes {
    if n <= |s| then s[..n] else s
  }

  function Drop(s: Bytes, n: nat): Bytes {
    if n <= |s| then s[n..] else []
  }

  /** One row undone. */
  function Restore(s: Bytes, e: Edit): Bytes {
    Take(s, e.at) + e.before + Drop(s, e.at + |e.after|)
  }

  /** The whole ledger undone, last row first. */
  function Undo(ledger: seq<Edit>, s: Bytes): Bytes {
    if ledger == [] then s
    else Undo(ledger[..|ledger| - 1], Restore(s, ledger[|ledger| - 1]))
  }

  /** Every row ends where the next begins at the latest, and the last one inside `limit`. */
  predicate Chained(ledger: seq<Edit>, limit: nat) {
    ledger == []
    || (var last := ledger[|ledger| - 1];
        last.at + |last.after| <= limit && Chained(ledger[..|ledger| - 1], last.at))
  }

  lemma ChainedWider(ledger: seq<Edit>, a: nat, b: nat)
    requires Chained(ledger, a) && a <= b
    ensures Chained(ledger, b)
  {
  }

  /** Undoing rows that lie inside a prefix leaves the rest of the page alone. */
  lemma {:induction false} UndoIsLocal(ledger: seq<Edit>, s: Bytes, tail: Bytes)
    requires Chained(ledger, |s|)
    ensures Undo(ledger, s + tail) == Undo(ledger, s) + tail
    decreases |ledger|
  {
    if ledger != [] {
      var last, init := ledger[|ledger| - 1], ledger[..|ledger| - 1];
      assert Restore(s + tail, last) == Restore(s, last) + tail;
      ChainedWider(init, last.at, |Restore(s, last)|);
      UndoIsLocal(init, Restore(s, last), tail);
    }
  }

  /** A ledger that takes `out` back to `was` takes it back after more output, too: a gap
      copied as it is, then a destination replaced by its image, with its row if it changed. */
  lemma UndoAppended(ledger: seq<Edit>, out: Bytes, was: Bytes, gap: Bytes, target: Bytes, image: Bytes)
    requires Chained(ledger, |out|) && Undo(ledger, out) == was
    ensures
      var all := ledger + Row(|out + gap|, target, image);
      Chained(all, |out + gap + image|) && Undo(all, out + gap + image) == was + gap + target
  {
    UndoIsLocal(ledger, out, gap);
    ChainedWider(ledger, |out|, |out + gap|);
    if image != target {
      var edit := Edit(|out + gap|, target, image);
      assert (ledger + [edit])[..|ledger|] == ledger;
      assert Restore(out + gap + image, edit) == out + gap + target;
      UndoIsLocal(ledger, out + gap, target);
    } else {
      assert ledger + [] == ledger;
      ChainedWider(ledger, |out + gap|, |out + gap + image|);
      UndoIsLocal(ledger, out + gap, image);
    }
  }

  /** The undo restores the page, although every earlier replacement has shifted the
      offsets of the later ones. */
  lemma {:induction false} UndoRestores(f: Rewriter, raw: Bytes, spans: seq<Span>, cursor: nat, out: Bytes,
                                        ledger: seq<Edit>)
    requires Ordered(spans, cursor, |raw|)
    requires cursor <= |raw| && Chained(ledger, |out|) && Undo(ledger, out) == raw[..cursor]
    ensures
      var archive := Build(f, raw, spans, cursor, out, ledger);
      Undo(archive.ledger, archive.page) == raw
    decreases |spans|
  {
    if spans == [] {
      UndoIsLocal(ledger, out, raw[cursor..]);
      assert raw[..cursor] + raw[cursor..] == raw;
    } else {
      var s := spans[0];
      var gap, target := raw[cursor..s.start], raw[s.start..s.end];
      UndoAppended(ledger, out, raw[..cursor], gap, target, f(target));
      assert raw[..cursor] + gap + target == raw[..s.end];
      UndoRestores(f, raw, spans[1..], s.end, out + gap + f(target), ledger + Row(|out + gap|, target, f(target)));
    }
  }

  // ------------------------------------------------------- forward check

  /** Where the k-th row ends in the archived page; 0 before the first. */
  function EndOfRow(ledger: seq<Edit>, k: nat): nat
    requires k <= |ledger|
  {
    if k == 0 then 0 else ledger[k - 1].at + |ledger[k - 1].after|
  }

  /** Row `k` starts no earlier than its predecessor ends, is not empty, and is found there. */
  predicate RowHolds(ledger: seq<Edit>, page: Bytes, k: nat)
    requires k < |ledger|
  {
    var e := ledger[k];
    EndOfRow(ledger, k) <= e.at && e.after != []
    && e.at + |e.after| <= |page| && page[e.at..e.at + |e.after|] == e.after
  }

  /** The check made before undoing. */
  predicate Forward(ledger: seq<Edit>, page: Bytes) {
    forall k :: 0 <= k < |ledger| ==> RowHolds(ledger, page, k)
  }

  /** A ledger that passes the check can be undone from right to left without clipping. */
  lemma {:induction false} ForwardIsChained(ledger: seq<Edit>, page: Bytes)
    requires Forward(ledger, page)
    ensures Chained(ledger, EndOfRow(ledger, |ledger|))
    decreases |ledger|
  {
    if ledger != [] {
      var init := ledger[..|ledger| - 1];
      assert forall k :: 0 <= k < |init| ==> RowHolds(ledger, page, k) ==> RowHolds(init, page, k);
      ForwardIsChained(init, page);
      assert RowHolds(ledger, page, |init|);
      ChainedWider(init, EndOfRow(init, |init|), ledger[|init|].at);
    }
  }

  lemma ForwardAppended(ledger: seq<Edit>, out: Bytes, gap: Bytes, target: Bytes, image: Bytes)
    requires Forward(ledger, out) && EndOfRow(ledger, |ledger|) <= |out| && image != []
    ensures
      var all := ledger + Row(|out + gap|, target, image);
      Forward(all, out + gap + image) && EndOfRow(all, |all|) <= |out + gap + image|
  {
    var all, page := ledger + Row(|out + gap|, target, image), out + gap + image;
    forall k | 0 <= k < |all| ensures RowHolds(all, page, k) {
      if k < |ledger| {
        assert RowHolds(ledger, out, k);
        var e := ledger[k];
        assert page[e.at..e.at + |e.after|] == out[e.at..e.at + |e.after|];
      } else {
        assert page[|out + gap|..] == image;
      }
    }
  }

  /** The ledger of a splice whose images are not empty passes the check. */
  lemma {:induction false} LedgerPassesForward(f: Rewriter, raw: Bytes, spans: seq<Span>, cursor: nat,
                                               out: Bytes, ledger: seq<Edit>)
    requires Ordered(spans, cursor, |raw|)
    requires forall k :: 0 <= k < |spans| ==> spans[k].start < spans[k].end
    requires forall t :: t != [] ==> f(t) != []
    requires Forward(ledger, out) && EndOfRow(ledger, |ledger|) <= |out|
    ensures
      var archive := Build(f, raw, spans, cursor, out, ledger);
      Forward(archive.ledger, archive.page)
    decreases |spans|
  {
    if spans == [] {
      var tail := raw[cursor..];
      forall k | 0 <= k < |ledger| ensures RowHolds(ledger, out + tail, k) {
        assert RowHolds(ledger, out, k);
        var e := ledger[k];
        assert (out + tail)[e.at..e.at + |e.after|] == out[e.at..e.at + |e.after|];
      }
    } else {
      var s := spans[0];
      var gap, target := raw[cursor..s.start], raw[s.start..s.end];
      ForwardAppended(ledger, out, gap, target, f(target));
      LedgerPassesForward(f, raw, spans[1..], s.end, out + gap + f(target), ledger + Row(|out + gap|, target, f(target)));
    }
  }
}
