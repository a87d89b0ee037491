/** Two short pages whose archived form shows other destinations than the page. */
module SurvivalExamples {
  import opened ByteStrings
  import opened Paths
  import opened Links
  import opened MarkdownScan
  import opened Splicing
  import opened Rescan
  import opened PageRescan
  import opened Relocation
  import opened ArchiveRecords
  import opened Survival

  /** The document `R` moves to `d/R`; every destination is text. */
  function Sample(): Context {
    Context(map[], [SLASH], [82], [100, SLASH, 82], (t: Bytes) => true, (s: Bytes) => s)
  }

  /** A page that is one unfenced line without break and has one destination. */
  lemma {:induction false} OneDestination(raw: Bytes, s: Span)
    requires raw != [] && forall j :: 0 <= j < |raw| ==> !IsBreak(raw[j])
    requires FenceMarker(raw).NoFence? && LineSpans(raw) == [s] && s.start <= s.end <= |raw|
    ensures Targets(raw) == [s] && PageLines(raw, 0, NoFence) == [FencedLine(raw, NoFence)]
    ensures IsAccepted(Sample(), raw)
    ensures LineKeeps(Sample(), raw) ==> KeepsOutBrackets(Sample(), raw[s.start..s.end])
  {
    hide LineSpans, FenceMarker, KeepsOutBrackets;
    assert LineAt(raw, 0) == raw;
    assert Shift([s], 0) == [s];
    assert [s] + [] == [s];
    assert PageSpans(raw, |raw|, FenceAfter(NoFence, raw)) == [];
    assert PageLines(raw, |raw|, FenceAfter(NoFence, raw)) == [];
    assert LineSpans(raw)[0] == s;
    assert Targets(raw) == [s];
    assert [s][1..] == [] && Ordered([s], 0, |raw|);
    assert Sample().accepts(raw[s.start..s.end]);
  }

  /** A plain name in the directory of the document is rewritten. */
  lemma NameIsRewritten(target: Bytes, name: Bytes, query: Bytes, fragment: Bytes)
    requires UrlSplit(Inner(target)) == Url([], [], name, query, fragment)
    requires |name| >= 1 && SLASH !in name && PERCENT !in name && name[0] != DOT
    ensures IsRewritten(Sample(), target)
  {
    assert Dirname([82]) == [] by {
      assert [82][..0] == [];
      assert UpToLastSlash([82]) == UpToLastSlash([]) == [];
    }
    assert PathJoin([], name) == name;
    SplitPiece(name);
    RelativeNormal(name);
    assert Run([name], [], false) == Run([], [name], false) == [name];
    assert Components(name) == [name];
    assert NormPath(name) == name;
  }

  // ----------------------------------------------------- `[z](<>a?b>c>)`

  const BRACKET_PAGE: Bytes := [91, 122, 93, 40, 60, 62, 97, 63, 98, 62, 99, 62, 41]
  const BRACKET_TARGET: Bytes := [60, 62, 97, 63, 98, 62, 99, 62]

  lemma BracketScan(raw: Bytes)
    requires raw == BRACKET_PAGE
    ensures (forall j :: 0 <= j < |raw| ==> !IsBreak(raw[j]))
    ensures FenceMarker(raw).NoFence? && LineSpans(raw) == [Span(4, 12)]
  {
    hide SkipSpace, RunEnd, LabelEnd, TokenEnd, CloserAt, NextOpening, InlineSpans;
    assert |raw| == 13 && raw[0] == 91 && raw[2] == 93 && raw[3] == 40 && raw[4] == 60 && raw[5] == 62 && raw[12] == 41;
    assert SkipSpace(raw, 0) == 0 && RunEnd(raw, 0, SPACE) == 0;
    assert LabelEnd(raw, 1) == 2;
    assert ReferenceHead(raw) == None;
    assert OpensAt(raw, 2);
    assert NextOpening(raw, 0) == 2;
    InlineAtNext(raw, 0);
    assert CloserAt(raw, 5) == 5;
    assert TokenEnd(raw, 4, true) == 12;
    assert NextOpening(raw, 12) == 13;
    InlineAtNext(raw, 12);
  }

  lemma BracketUrl(inner: Bytes)
    requires inner == [62, 97, 63, 98, 62, 99]
    ensures UrlSplit(inner) == Url([], [], [62, 97], [98, 62, 99], [])
  {
    hide UrlSplit, IndexOf;
    var name: Bytes, query: Bytes := [62, 97], [98, 62, 99];
    assert UrlUnsplit(name, query, []) == inner;
    UrlRoundTrip(name, query, []);
  }

  lemma BracketTarget(target: Bytes)
    requires target == BRACKET_TARGET
    ensures CarriesBracket(target) && IsRewritten(Sample(), target)
  {
    hide UrlSplit, IsRewritten, Sample;
    var inner: Bytes := [62, 97, 63, 98, 62, 99];
    assert Inner(target) == inner;
    BracketUrl(inner);
    NameIsRewritten(target, [62, 97], [98, 62, 99], []);
    assert Kept(target)[2] == GREATER;
  }

  /** Brackets that do not close are taken for a plain destination; once it is rewritten, the
      `>` of its query closes them. */
  lemma BracketFails()
    ensures Relocated(Sample(), BRACKET_PAGE).Some?
    ensures Targets(Relocated(Sample(), BRACKET_PAGE).value.page)
         != Moved(RewriterOf(Sample()), BRACKET_PAGE, Targets(BRACKET_PAGE), 0, 0)
  {
    hide IsRewritten, Replacement, IsAccepted, Moved, PageSpans, LineKeeps, PageLines, RewriterOf, Build, Sample, CarriesBracket,
         Ordered, LineSpans, DestinationEnd, ReferenceHead, FenceMarker;
    var raw := BRACKET_PAGE;
    BracketScan(raw);
    OneDestination(raw, Span(4, 12));
    assert raw[4..12] == BRACKET_TARGET;
    BracketTarget(BRACKET_TARGET);
    assert PageLines(raw, 0, NoFence)[0] == FencedLine(raw, NoFence);
    RescanExactly(Sample(), raw);
  }

  // --------------------------------------------------- `[x]: <a#]TAB(y>`

  const OPENING_PAGE: Bytes := [91, 120, 93, 58, 32, 60, 97, 35, 93, 9, 40, 121, 62]
  const OPENING_TARGET: Bytes := [60, 97, 35, 93, 9, 40, 121, 62]

  lemma OpeningScan(raw: Bytes)
    requires raw == OPENING_PAGE
    ensures (forall j :: 0 <= j < |raw| ==> !IsBreak(raw[j]))
    ensures FenceMarker(raw).NoFence? && LineSpans(raw) == [Span(5, 13)]
    ensures ReferenceHead(raw) == Some(5) && DestinationEnd(raw, 5, false) == 13
  {
    hide SkipSpace, RunEnd, LabelEnd, TokenEnd, CloserAt, NextOpening, InlineSpans;
    assert |raw| == 13 && raw[0] == 91 && raw[2] == 93 && raw[3] == 58 && raw[4] == 32 && raw[5] == 60 && raw[12] == 62;
    assert SkipSpace(raw, 0) == 0 && RunEnd(raw, 0, SPACE) == 0;
    assert LabelEnd(raw, 1) == 2;
    assert SkipSpace(raw, 4) == 5;
    assert CloserAt(raw, 6) == 12;
    assert NextOpening(raw, 0) == 13;
    InlineAtNext(raw, 0);
  }

  lemma Removed(b: byte, rest: Bytes)
    ensures RemoveUnsafe([b] + rest) == (if IsUnsafe(b) then [] else [b]) + RemoveUnsafe(rest)
  {
    assert ([b] + rest)[1..] == rest;
  }

  lemma TabRemoved(inner: Bytes)
    requires inner == [97, 35, 93, 9, 40, 121]
    ensures RemoveUnsafe(inner) == [97, 35, 93, 40, 121]
  {
    hide RemoveUnsafe;
    var tail: Bytes := [40, 121];
    CleanKept(tail);
    Removed(9, tail);
    Removed(93, [9] + tail);
    Removed(35, [93] + ([9] + tail));
    Removed(97, [35] + ([93] + ([9] + tail)));
    assert inner == [97] + ([35] + ([93] + ([9] + tail)));
  }

  lemma OpeningUrl(inner: Bytes)
    requires inner == [97, 35, 93, 9, 40, 121]
    ensures UrlSplit(inner) == Url([], [], [97], [], [93, 40, 121])
  {
    hide RemoveUnsafe, SplitRest, IndexOf;
    assert !HasScheme([97]);
    var name: Bytes, fragment: Bytes := [97], [93, 40, 121];
    var text := UrlUnsplit(name, [], fragment);
    TabRemoved(inner);
    assert text == [97, 35, 93, 40, 121];
    UrlRoundTrip(name, [], fragment);
    CleanKept(text);
    assert StripFront(text) == text && StripFront(inner) == inner;
  }

  lemma OpeningTarget(target: Bytes)
    requires target == OPENING_TARGET
    ensures CarriesOpening(target) && IsRewritten(Sample(), target)
  {
    hide UrlSplit, IsRewritten, Sample;
    var inner: Bytes := [97, 35, 93, 9, 40, 121];
    assert Inner(target) == inner;
    OpeningUrl(inner);
    NameIsRewritten(target, [97], [], [93, 40, 121]);
    assert OpensAt(Kept(target) + Closer(target), 1);
  }

  lemma OpeningNotKept()
    ensures !LineKeeps(Sample(), OPENING_PAGE)
  {
    hide IsRewritten, LineSpans, ReferenceHead, DestinationEnd, CarriesOpening, CarriesBracket, Sample;
    OpeningScan(OPENING_PAGE);
    assert OPENING_PAGE[5..13] == OPENING_TARGET;
    OpeningTarget(OPENING_TARGET);
  }

  /** The URL splitter removes the tab, and the text taken over opens an inline destination. */
  lemma OpeningFails()
    ensures Relocated(Sample(), OPENING_PAGE).Some?
    ensures Targets(Relocated(Sample(), OPENING_PAGE).value.page)
         != Moved(RewriterOf(Sample()), OPENING_PAGE, Targets(OPENING_PAGE), 0, 0)
  {
    hide IsRewritten, Replacement, IsAccepted, Moved, PageSpans, PageLines, RewriterOf, Build, Sample, LineKeeps, Ordered, LineSpans,
         DestinationEnd, ReferenceHead, FenceMarker, KeepsOutBrackets;
    var raw := OPENING_PAGE;
    OpeningScan(raw);
    OneDestination(raw, Span(5, 13));
    assert raw[5..13] == OPENING_TARGET;
    OpeningNotKept();
    assert PageLines(raw, 0, NoFence)[0] == FencedLine(raw, NoFence);
    RescanExactly(Sample(), raw);
  }
}
