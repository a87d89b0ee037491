/** What becomes of one link of a relocated documentation page, and where it leads. */
module Relocation {
  import opened ByteStrings
  import opened Paths
  import opened Links
  import opened Splicing
  import opened Rescan

  /** What a relocation depends on besides the page: the moved documents, the working
      directory, the page's old and new place, which destinations are text that the URL
      splitter takes, and what decoding makes of bytes that are not text. */
  datatype Context = Context(
    mapping: map<Bytes, Bytes>, cwd: Bytes, source: Bytes, destination: Bytes,
    accepts: Bytes -> bool, repair: Bytes -> Bytes)

  // ------------------------------------------------------------ one link

  function Unquote(c: Context, s: Bytes): Bytes {
    if PERCENT in s then c.repair(Decode(s)) else s
  }

  /** Where a document is now. */
  function Image(c: Context, path: Bytes): Bytes {
    if path in c.mapping then c.mapping[path] else path
  }

  /** The path a link's path text leads to from the page's old directory. */
  function Resolved(c: Context, text: Bytes): Bytes {
    NormPath(PathJoin(Dirname(c.source), Unquote(c, text)))
  }

  /** Whether the destination is rewritten: a local link that stays inside the repository. */
  predicate IsRewritten(c: Context, target: Bytes) {
    IsLocal(UrlSplit(Inner(target))) && !Escapes(Resolved(c, UrlSplit(Inner(target)).path))
  }

  /** The path text put in place of the old one. */
  function NewPath(c: Context, target: Bytes): Bytes {
    RelPath(c.cwd, Image(c, Resolved(c, UrlSplit(Inner(target)).path)), Dirname(c.destination))
  }

  function NewText(c: Context, target: Bytes): Bytes {
    var uri := UrlSplit(Inner(target));
    UrlUnsplit(Quote(NewPath(c, target)), uri.query, uri.fragment)
  }

  function Replacement(c: Context, target: Bytes): Bytes {
    if !IsRewritten(c, target) then target
    else if IsAngled(target) then [LESS] + NewText(c, target) + [GREATER]
    else NewText(c, target)
  }

  function RewriterOf(c: Context): Rewriter {
    (target: Bytes) => Replacement(c, target)
  }

  /** A rewritten destination has the shape the scanner needs. */
  lemma ReplacementShape(c: Context, target: Bytes)
    ensures Shape(target, Replacement(c, target))
    ensures IsRewritten(c, target) ==> Inner(Replacement(c, target)) == NewText(c, target)
  {
    hide UrlSplit, RelPath, Quote, Escapes, Resolved, Image;
    if IsRewritten(c, target) {
      var uri, text := UrlSplit(Inner(target)), NewText(c, target);
      PartsOf(Inner(target));
      RelPathRelative(c.cwd, Image(c, Resolved(c, uri.path)), Dirname(c.destination));
      QuoteIsSafe(NewPath(c, target));
      TextBytes(Quote(NewPath(c, target)), uri.query, uri.fragment, Inner(target));
      if IsAngled(target) {
        assert Inner([LESS] + text + [GREATER]) == text;
      } else {
        assert text[0] == Quote(NewPath(c, target))[0];
      }
    }
  }

  lemma TextBytes(path: Bytes, query: Bytes, fragment: Bytes, inner: Bytes)
    requires forall b :: b in query || b in fragment ==> b in inner
    requires (query != [] ==> QUESTION in inner) && (fragment != [] ==> HASH in inner)
    requires forall k :: 0 <= k < |path| ==> IsSafe(path[k])
    ensures
      var text := UrlUnsplit(path, query, fragment);
      forall k :: 0 <= k < |text| ==> IsSafe(text[k]) || text[k] in inner
    ensures path != [] ==> UrlUnsplit(path, query, fragment)[0] == path[0]
  {
    var text := UrlUnsplit(path, query, fragment);
    forall k | 0 <= k < |text| ensures IsSafe(text[k]) || text[k] in inner {
      assert text[k] in path || text[k] in Marked(QUESTION, query) || text[k] in Marked(HASH, fragment);
    }
  }

  lemma RewriterIsTame(c: Context)
    ensures Tame(RewriterOf(c))
  {
    forall t: Bytes ensures Shape(t, RewriterOf(c)(t)) {
      ReplacementShape(c, t);
    }
  }

  // -------------------------------------------------------- link meaning

  /** Relative, normal, and inside the repository. */
  predicate Inside(path: Bytes) {
    IsRelative(path) && Plain(Components(path)) && NormPath(path) == path
  }

  /** The documents lie inside the repository, and the working directory is absolute. */
  ghost predicate WellPlaced(c: Context) {
    !IsRelative(c.cwd) && IsRelative(Dirname(c.source))
    && IsRelative(Dirname(c.destination)) && Plain(Components(Dirname(c.destination)))
    && forall k :: k in c.mapping ==> Inside(c.mapping[k])
  }

  lemma ResolvedInside(c: Context, text: Bytes)
    requires WellPlaced(c) && IsRelative(Unquote(c, text)) && !Escapes(Resolved(c, text))
    ensures Inside(Image(c, Resolved(c, text)))
  {
    JoinRoot(Dirname(c.source), Unquote(c, text));
    InsideIsPlain(PathJoin(Dirname(c.source), Unquote(c, text)));
  }

  /** Encoded path text is read back by the URL splitter and by decoding. */
  lemma EncodedReadBack(c: Context, rel: Bytes, query: Bytes, fragment: Bytes)
    requires rel != [] && IsRelative(rel) && c.repair(rel) == rel
    requires HASH !in query && IsClean(query) && IsClean(fragment)
    ensures UrlSplit(UrlUnsplit(Quote(rel), query, fragment)) == Url([], [], Quote(rel), query, fragment)
    ensures Unquote(c, Quote(rel)) == rel
  {
    hide UrlSplit, UrlUnsplit, Decode, IndexOf;
    QuoteIsSafe(rel);
    DecodeQuote(rel);
    var path := Quote(rel);
    assert forall k :: 0 <= k < |path| ==> path[k] != COLON && path[k] > SPACE;
    assert path[0] == QuoteByte(rel[0])[0];
    UrlRoundTrip(path, query, fragment);
  }

  lemma LeadsInside(c: Context, target: Bytes)
    requires WellPlaced(c) && IsRewritten(c, target) && IsRelative(Unquote(c, UrlSplit(Inner(target)).path))
    ensures NormPath(PathJoin(Dirname(c.destination), NewPath(c, target)))
         == Image(c, Resolved(c, UrlSplit(Inner(target)).path))
  {
    hide UrlSplit, RelPath, Resolved, Image, Unquote;
    var image := Image(c, Resolved(c, UrlSplit(Inner(target)).path));
    ResolvedInside(c, UrlSplit(Inner(target)).path);
    RelPathLeads(c.cwd, image, Dirname(c.destination));
  }

  /** A link with a relative path, no scheme and no authority, whose document lies in the
      repository, leads from the archive directory, after percent-decoding, to where that
      document is now: its place in the mapping, or else its old place. That is so wherever link,
      document and directory are; query and fragment text are kept. Inside the repository the
      path it leads to is the very path of that place. */
  lemma LinkMeaningKept(c: Context, target: Bytes)
    requires !IsRelative(c.cwd)
    requires
      var was := UrlSplit(Inner(target));
      var p := NormPath(PathJoin(Dirname(c.source), Unquote(c, was.path)));
      var m := if p in c.mapping then c.mapping[p] else p;
      was.scheme == [] && was.netloc == [] && was.path != [] && was.path[0] != SLASH
      && p != [DOT, DOT] && !([DOT, DOT, SLASH] <= p)
      && c.repair(RelPath(c.cwd, m, Dirname(c.destination))) == RelPath(c.cwd, m, Dirname(c.destination))
    ensures
      var was, now := UrlSplit(Inner(target)), UrlSplit(Inner(Replacement(c, target)));
      var p := NormPath(PathJoin(Dirname(c.source), Unquote(c, was.path)));
      var m := if p in c.mapping then c.mapping[p] else p;
      var there := PathJoin(Dirname(c.destination), Unquote(c, now.path));
      now.scheme == [] && now.netloc == [] && now.query == was.query && now.fragment == was.fragment
      && Components(PathJoin(c.cwd, there)) == Components(PathJoin(c.cwd, m))
      && (WellPlaced(c) && IsRelative(Unquote(c, was.path)) ==> NormPath(there) == m)
  {
    hide UrlSplit, RelPath, Quote, Unquote, Components, PathJoin, WellPlaced, NormPath, Dirname;
    var was := UrlSplit(Inner(target));
    ReplacementShape(c, target);
    RelPathArrives(c.cwd, Image(c, Resolved(c, was.path)), Dirname(c.destination));
    PartsOf(Inner(target));
    EncodedReadBack(c, NewPath(c, target), was.query, was.fragment);
    if WellPlaced(c) && IsRelative(Unquote(c, was.path)) {
      LeadsInside(c, target);
    }
  }

  /** Every other link stays as it is. */
  lemma OtherLinksStay(c: Context, target: Bytes)
    requires
      var was := UrlSplit(Inner(target));
      var p := NormPath(PathJoin(Dirname(c.source), Unquote(c, was.path)));
      was.scheme != [] || was.netloc != [] || was.path == [] || was.path[0] == SLASH || p == [DOT, DOT] || [DOT, DOT, SLASH] <= p
    ensures Replacement(c, target) == target
  {
    hide UrlSplit, Unquote, PathJoin, NormPath, Dirname;
  }
}
