/** The relocated page with its ledger, and the check that a stored record is genuine. */
module ArchiveRecords {
  import opened ByteStrings
  import opened MarkdownScan
  import opened Splicing
  import opened Rescan
  import opened PageRescan
  import opened SpanOrder
  import opened Relocation

  // ------------------------------------------------------------- relocate

  function Targets(raw: Bytes): seq<Span> {
    PageSpans(raw, 0, NoFence)
  }

  /** Every destination is text that the URL splitter takes. */
  predicate AllAccepted(c: Context, raw: Bytes, spans: seq<Span>) {
    forall k :: 0 <= k < |spans| && spans[k].start <= spans[k].end <= |raw| ==>
      c.accepts(raw[spans[k].start..spans[k].end])
  }

  predicate IsAccepted(c: Context, raw: Bytes) {
    Ordered(Targets(raw), 0, |raw|) && AllAccepted(c, raw, Targets(raw))
  }

  /** What the relocation of a page is, when it does not fail. */
  function Relocated(c: Context, raw: Bytes): Option<Archive> {
    if IsAccepted(c, raw) then Some(Build(RewriterOf(c), raw, Targets(raw), 0, [], [])) else None
  }

  lemma AcceptedTail(c: Context, raw: Bytes, s: Span, tail: seq<Span>)
    requires s.start <= s.end <= |raw|
    ensures AllAccepted(c, raw, [s] + tail) <==> c.accepts(raw[s.start..s.end]) && AllAccepted(c, raw, tail)
  {
    var all := [s] + tail;
    assert all[0] == s && forall k :: 0 <= k < |tail| ==> tail[k] == all[k + 1];
  }

  /** The relocation loop: a growing page, a ledger and a cursor. */
  method Relocate(c: Context, raw: Bytes) returns (archive: Option<Archive>)
    ensures archive == Relocated(c, raw)
  {
    hide PageSpans, Replacement, PageYield;
    var yielded := MarkdownTargets(raw);
    var spans := SortSpans(yielded);
    SortedYield(raw);
    SpansOnPage(raw, 0, NoFence);
    var result, ledger, cursor := [], [], 0;
    var rest := spans;
    while rest != []
      invariant 0 <= cursor <= |raw|
      invariant forall k :: 0 <= k < |rest| ==> rest[k].start < rest[k].end <= |raw|
      invariant IsAccepted(c, raw) <==> Ordered(rest, cursor, |raw|) && AllAccepted(c, raw, rest)
      invariant IsAccepted(c, raw) ==>
          Build(RewriterOf(c), raw, spans, 0, [], []) == Build(RewriterOf(c), raw, rest, cursor, result, ledger)
      decreases |rest|
    {
      var s := rest[0];
      var target := raw[s.start..s.end];
      assert rest == [s] + rest[1..];
      AcceptedTail(c, raw, s, rest[1..]);
      if s.start < cursor || !c.accepts(target) {
        return None;
      }
      var replacement := Replacement(c, target);
      result := result + raw[cursor..s.start];
      if replacement != target {
        ledger := ledger + [Edit(|result|, target, replacement)];
      } else {
        assert ledger + [] == ledger;
      }
      result := result + replacement;
      cursor := s.end;
      rest := rest[1..];
    }
    result := result + raw[cursor..];
    archive := Some(Archive(result, ledger));
  }

  // --------------------------------------------------- undoing a relocation

  lemma ImagesNotEmpty(c: Context)
    ensures forall t :: t != [] ==> RewriterOf(c)(t) != []
  {
    forall t: Bytes | t != [] ensures RewriterOf(c)(t) != [] {
      ReplacementShape(c, t);
    }
  }

  /** Every relocation passes the forward offset check, and undoing its ledger from right to
      left restores the page. */
  lemma RelocationIsReversible(c: Context, raw: Bytes)
    requires Relocated(c, raw).Some?
    ensures
      var archive := Relocated(c, raw).value;
      Forward(archive.ledger, archive.page) && Undo(archive.ledger, archive.page) == raw
  {
    hide PageSpans, Replacement, Build, Undo;
    SpansOnPage(raw, 0, NoFence);
    ImagesNotEmpty(c);
    StartOfUndo(raw);
    UndoRestores(RewriterOf(c), raw, Targets(raw), 0, [], []);
    LedgerPassesForward(RewriterOf(c), raw, Targets(raw), 0, [], []);
  }

  lemma StartOfUndo(raw: Bytes)
    ensures Chained([], 0) && Undo([], []) == raw[..0]
  {
  }

  /** Hence the archived page and its ledger determine the page. */
  lemma RelocationIsInjective(c: Context, a: Bytes, b: Bytes)
    requires Relocated(c, a).Some? && Relocated(c, a) == Relocated(c, b)
    ensures a == b
  {
    RelocationIsReversible(c, a);
    RelocationIsReversible(c, b);
  }

  // -------------------------------------------------------- verify_record

  const MAX_REWRITES := 5000

  /** A row of the archive manifest. */
  datatype Record = Record(
    originalPath: Bytes, archivePath: Bytes,
    sourceBytes: int, sourceDigest: Bytes, archiveBytes: int, archiveDigest: Bytes, ledger: seq<Edit>)

  const MD: Bytes := [DOT, 109, 100]

  predicate EndsWith(s: Bytes, suffix: Bytes) {
    |suffix| <= |s| && s[|s| - |suffix|..] == suffix
  }

  /** The context of the record: its paths are those of the page. */
  function ContextOf(c: Context, row: Record): Context {
    c.(source := row.originalPath, destination := row.archivePath)
  }

  /** What a source of the record's kind is archived as: only Markdown is rewritten. */
  function Derived(c: Context, row: Record, raw: Bytes): Option<Archive> {
    if EndsWith(row.originalPath, MD) then Relocated(ContextOf(c, row), raw) else Some(Archive(raw, []))
  }

  /** A path that ends in `.md` names a page whose links are relocated, from its old place to its
      new one; any other file is archived as it is. */
  lemma OnlyPagesAreRewritten(c: Context, row: Record, raw: Bytes)
    ensures
      var isPage := exists stem: Bytes :: row.originalPath == stem + Ascii(".md");
      Derived(c, row, raw)
      == if isPage then Relocated(c.(source := row.originalPath, destination := row.archivePath), raw) else Some(Archive(raw, []))
  {
    hide Relocated;
    var path := row.originalPath;
    assert Ascii(".md") == MD;
    if EndsWith(path, MD) {
      assert path == path[..|path| - 3] + MD;
    }
    if stem: Bytes :| path == stem + MD {
      assert path[|stem|..] == MD;
    }
  }

  /** `raw` is the source the record speaks of. */
  predicate IsSourceOf(digest: Bytes -> Bytes, c: Context, row: Record, archived: Bytes, raw: Bytes) {
    |raw| == row.sourceBytes && digest(raw) == row.sourceDigest
    && Derived(c, row, raw) == Some(Archive(archived, row.ledger))
  }

  lemma SourceIsRestored(digest: Bytes -> Bytes, c: Context, row: Record, archived: Bytes, raw: Bytes)
    requires IsSourceOf(digest, c, row, archived, raw)
    ensures Forward(row.ledger, archived) && Undo(row.ledger, archived) == raw
  {
    if EndsWith(row.originalPath, MD) {
      RelocationIsReversible(ContextOf(c, row), raw);
    }
  }

  lemma UndoLast(init: seq<Edit>, last: Edit, s: Bytes)
    ensures Undo(init + [last], s) == Undo(init, Restore(s, last))
  {
    assert (init + [last])[..|init|] == init;
  }

  /** The undo loop over the reversed ledger. */
  method UndoLedger(ledger: seq<Edit>, archived: Bytes) returns (restored: Bytes)
    ensures restored == Undo(ledger, archived)
  {
    hide Take, Drop;
    restored := archived;
    var k := |ledger|;
    assert ledger[..k] == ledger;
    while k > 0
      invariant 0 <= k <= |ledger|
      invariant Undo(ledger, archived) == Undo(ledger[..k], restored)
    {
      k := k - 1;
      UndoLast(ledger[..k], ledger[k], restored);
      assert ledger[..k + 1] == ledger[..k] + [ledger[k]];
      restored := Take(restored, ledger[k].at) + ledger[k].before + Drop(restored, ledger[k].at + |ledger[k].after|);
    }
  }

  /** The offset check over the ledger. */
  method CheckOffsets(ledger: seq<Edit>, archived: Bytes) returns (ok: bool)
    ensures ok <==> Forward(ledger, archived)
  {
    var end, k := 0, 0;
    while k < |ledger|
      invariant 0 <= k <= |ledger|
      invariant end == EndOfRow(ledger, k)
      invariant forall j :: 0 <= j < k ==> RowHolds(ledger, archived, j)
    {
      var e := ledger[k];
      if !(e.at >= end && e.after != [] && Take(Drop(archived, e.at), |e.after|) == e.after) {
        SliceFound(archived, e.at, e.after);
        assert !RowHolds(ledger, archived, k);
        return false;
      }
      SliceFound(archived, e.at, e.after);
      end := e.at + |e.after|;
      k := k + 1;
    }
    ok := true;
  }

  /** Python's clipping slice finds nonempty text exactly where it stands. */
  lemma SliceFound(s: Bytes, at: nat, text: Bytes)
    ensures text != [] ==>
              (Take(Drop(s, at), |text|) == text <==> at + |text| <= |s| && s[at..at + |text|] == text)
  {
    if at <= |s| {
      assert Drop(s, at) == s[at..];
      if at + |text| <= |s| {
        assert s[at..][..|text|] == s[at..at + |text|];
      }
    }
  }

  /** The check of a stored record accepts exactly the genuine ones: those whose archived
      bytes and ledger come of relocating some page of the recorded size and digest; and it
      returns that page. */
  method VerifyRecord(digest: Bytes -> Bytes, c: Context, row: Record, archived: Bytes) returns (source: Option<Bytes>)
    ensures source.Some? <==>
            |archived| == row.archiveBytes && digest(archived) == row.archiveDigest
            && |row.ledger| <= 5000
            && exists raw :: IsSourceOf(digest, c, row, archived, raw)
    ensures source.Some? ==> IsSourceOf(digest, c, row, archived, source.value)
    ensures forall raw :: source.Some? && IsSourceOf(digest, c, row, archived, raw) ==> raw == source.value
  {
    hide Relocated, Undo, Forward;
    forall raw | IsSourceOf(digest, c, row, archived, raw)
      ensures Forward(row.ledger, archived) && raw == Undo(row.ledger, archived)
    {
      SourceIsRestored(digest, c, row, archived, raw);
    }
    if |archived| != row.archiveBytes || digest(archived) != row.archiveDigest || |row.ledger| > MAX_REWRITES {
      return None;
    }
    var ok := CheckOffsets(row.ledger, archived);
    if !ok {
      return None;
    }
    var restored := UndoLedger(row.ledger, archived);
    if |restored| != row.sourceBytes || digest(restored) != row.sourceDigest {
      return None;
    }
    var expected := Some(Archive(restored, []));
    if EndsWith(row.originalPath, MD) {
      expected := Relocate(ContextOf(c, row), restored);
    }
    if expected != Some(Archive(archived, row.ledger)) {
      return None;
    }
    assert IsSourceOf(digest, c, row, archived, restored);
    source := Some(restored);
  }

  // ------------------------------------------------- scanning it once more

  /** The archived page has the lines of the page, under the same fences: fenced lines and
      markers are identical, the others are rewritten in place. */
  lemma FencesKept(c: Context, raw: Bytes)
    requires Relocated(c, raw).Some?
    ensures
      var was, now := PageLines(raw, 0, NoFence), PageLines(Relocated(c, raw).value.page, 0, NoFence);
      |now| == |was|
      && forall k :: 0 <= k < |was| ==>
           now[k].fence == was[k].fence
           && (was[k].fence.Fence? || FenceMarker(was[k].line).Fence? ==> now[k].line == was[k].line)
  {
    hide PageSpans, Replacement, Build, Splice, Tame, Ordered, LineSpans, PageLines, FenceMarker;
    var f := RewriterOf(c);
    RewriterIsTame(c);
    BuildIsSplice(f, raw, Targets(raw), 0, [], []);
    LinesRewritten(f, raw, 0, NoFence, []);
    var was, now := PageLines(raw, 0, NoFence), PageLines(Relocated(c, raw).value.page, 0, NoFence);
    assert [] + Splice(f, raw, Targets(raw), 0) == Relocated(c, raw).value.page;
    forall k | 0 <= k < |was|
      ensures now[k].fence == was[k].fence
      ensures was[k].fence.Fence? || FenceMarker(was[k].line).Fence? ==> now[k].line == was[k].line
    {
      assert Rewritten(f, was[k], now[k]);
      if SpansOfLine(was[k].line, was[k].fence) == [] {
        UnscannedLineKept(f, was[k], now[k]);
      }
    }
  }

  /** The archived page is scanned to the same destinations in the same order, the k-th being
      the replacement of the k-th, exactly if every line outside fences survives. */
  lemma ArchiveRescan(c: Context, raw: Bytes)
    requires Relocated(c, raw).Some?
    ensures
      var page, moved := Relocated(c, raw).value.page, Moved(RewriterOf(c), raw, Targets(raw), 0, 0);
      (Targets(page) == moved <==> PageSurvives(RewriterOf(c), raw, 0, NoFence))
      && forall k :: 0 <= k < |Targets(raw)| ==>
           moved[k].start <= moved[k].end <= |page|
           && Targets(raw)[k].start <= Targets(raw)[k].end <= |raw|
           && page[moved[k].start..moved[k].end]
              == Replacement(c, raw[Targets(raw)[k].start..Targets(raw)[k].end])
  {
    hide PageSpans, Replacement, Build, Splice, Tame, Ordered, Moved, PageSurvives;
    var f := RewriterOf(c);
    RewriterIsTame(c);
    BuildIsSplice(f, raw, Targets(raw), 0, [], []);
    PageRescanFrom(f, raw, 0, NoFence, []);
    assert [] + Splice(f, raw, Targets(raw), 0) == Relocated(c, raw).value.page;
    forall k | 0 <= k < |Targets(raw)|
      ensures
        var page, moved := Relocated(c, raw).value.page, Moved(f, raw, Targets(raw), 0, 0);
        moved[k].start <= moved[k].end <= |page|
        && Targets(raw)[k].start <= Targets(raw)[k].end <= |raw|
        && page[moved[k].start..moved[k].end] == f(raw[Targets(raw)[k].start..Targets(raw)[k].end])
    {
      MovedHoldsImages(f, raw, Targets(raw), 0, [], k);
    }
  }
}
