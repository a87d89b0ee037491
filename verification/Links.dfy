/** Link text: percent-encoding (section 2.1 of RFC 3986) and the parts of a URL reference. */
module Links {
  import opened ByteStrings

  // ---------------------------------------------------- percent-encoding

  /** The bytes `quote(..., safe="/.-_~")` leaves alone. */
  predicate IsKept(b: byte) {
    IsLetter(b) || IsDigit(b) || b == DASH || b == DOT || b == SLASH || b == UNDERSCORE || b == TILDE
  }

  /** The bytes encoded text consists of. */
  predicate IsSafe(b: byte) {
    IsKept(b) || b == PERCENT
  }

  function HexDigit(n: nat): byte
    requires n < 16
  {
    if n < 10 then 48 + n else 55 + n
  }

  /** The value of a hexadecimal digit of either case. */
  function HexValue(b: byte): Option<nat> {
    if IsDigit(b) then Some(b - 48)
    else if 65 <= b <= 70 then Some(b - 55)
    else if 97 <= b <= 102 then Some(b - 87)
    else None
  }

  function QuoteByte(b: byte): Bytes {
    if IsKept(b) then [b] else [PERCENT, HexDigit(b / 16), HexDigit(b % 16)]
  }

  function Quote(s: Bytes): Bytes {
    if s == [] then [] else QuoteByte(s[0]) + Quote(s[1..])
  }

  /** Percent-decoding: a percent sign without two hexadecimal digits stands for itself. */
  function Decode(s: Bytes): Bytes {
    if s == [] then []
    else if s[0] == PERCENT && |s| >= 3 && HexValue(s[1]).Some? && HexValue(s[2]).Some?
    then [HexValue(s[1]).value * 16 + HexValue(s[2]).value] + Decode(s[3..])
    else [s[0]] + Decode(s[1..])
  }

  lemma HexRoundTrip(n: nat)
    requires n < 16
    ensures HexValue(HexDigit(n)) == Some(n)
  {
  }

  lemma {:induction false} DecodeQuote(s: Bytes)
    ensures Decode(Quote(s)) == s
    decreases |s|
  {
    if s != [] {
      DecodeQuote(s[1..]);
      DecodeQuotedByte(s[0], Quote(s[1..]));
      assert s == [s[0]] + s[1..];
    }
  }

  lemma DecodeQuotedByte(b: byte, rest: Bytes)
    ensures Decode(QuoteByte(b) + rest) == [b] + Decode(rest)
  {
    var text := QuoteByte(b) + rest;
    if IsKept(b) {
      assert text[1..] == rest;
    } else {
      HexRoundTrip(b / 16);
      HexRoundTrip(b % 16);
      assert text[3..] == rest;
    }
  }

  lemma {:induction false} QuoteIsSafe(s: Bytes)
    ensures forall k :: 0 <= k < |Quote(s)| ==> IsSafe(Quote(s)[k])
    ensures Quote(s) == [] <==> s == []
    ensures PERCENT !in Quote(s) ==> Quote(s) == s
    decreases |s|
  {
    if s != [] {
      QuoteIsSafe(s[1..]);
      var head, tail := QuoteByte(s[0]), Quote(s[1..]);
      assert forall k :: 0 <= k < |head| ==> IsSafe(head[k]);
      assert !IsKept(s[0]) ==> (head + tail)[0] == PERCENT;
      if PERCENT !in head + tail {
        assert forall k :: 0 <= k < |tail| ==> tail[k] == (head + tail)[|head| + k];
        assert s == [s[0]] + s[1..];
      }
    }
  }

  // ----------------------------------------------------- URL references

  /** What `urlsplit` returns. */
  datatype Url = Url(scheme: Bytes, netloc: Bytes, path: Bytes, query: Bytes, fragment: Bytes)

  /** The bytes `urlsplit` strips from the front: controls and the space. */
  function StripFront(u: Bytes): Bytes {
    if u != [] && u[0] <= SPACE then StripFront(u[1..]) else u
  }

  predicate IsUnsafe(b: byte) {
    b == TAB || IsBreak(b)
  }

  /** The bytes `urlsplit` removes anywhere. */
  function RemoveUnsafe(u: Bytes): Bytes {
    if u == [] then [] else (if IsUnsafe(u[0]) then [] else [u[0]]) + RemoveUnsafe(u[1..])
  }

  predicate IsSchemeByte(b: byte) {
    IsLetter(b) || IsDigit(b) || b == PLUS || b == DASH || b == DOT
  }

  /** A letter, then scheme bytes, then a colon. */
  predicate HasScheme(u: Bytes) {
    var i := IndexOf(u, 0, COLON);
    0 < i < |u| && IsLetter(u[0]) && forall k :: 0 <= k < i ==> IsSchemeByte(u[k])
  }

  /** The end of the authority that starts at index 2. */
  function AuthorityEnd(u: Bytes, i: nat): (k: nat)
    requires i <= |u|
    ensures i <= k <= |u|
    decreases |u| - i
  {
    if i == |u| || u[i] == SLASH || u[i] == QUESTION || u[i] == HASH then i else AuthorityEnd(u, i + 1)
  }

  /** What comes before the first `b`, and what comes after it. */
  function Before(u: Bytes, b: byte): Bytes {
    u[..IndexOf(u, 0, b)]
  }

  function After(u: Bytes, b: byte): Bytes {
    var k := IndexOf(u, 0, b);
    if k == |u| then [] else u[k + 1..]
  }

  /** Path, query and fragment of a reference without scheme and authority. */
  function SplitTail(scheme: Bytes, netloc: Bytes, u: Bytes): Url {
    var v := Before(u, HASH);
    Url(scheme, netloc, Before(v, QUESTION), After(v, QUESTION), After(u, HASH))
  }

  /** The parts after the scheme: an authority if two slashes announce one, then the tail. */
  function SplitRest(scheme: Bytes, rest: Bytes): Url {
    if |rest| >= 2 && rest[0] == SLASH && rest[1] == SLASH then
      var e := AuthorityEnd(rest, 2);
      SplitTail(scheme, rest[2..e], rest[e..])
    else
      SplitTail(scheme, [], rest)
  }

  /** `urlsplit`; the case of the scheme is not changed here. */
  function UrlSplit(text: Bytes): Url {
    var u := RemoveUnsafe(StripFront(text));
    if HasScheme(u) then SplitRest(Before(u, COLON), After(u, COLON)) else SplitRest([], u)
  }

  /** `urlunsplit` without scheme and authority, of a path that does not begin with two
      slashes: empty parts are left out. */
  function UrlUnsplit(path: Bytes, query: Bytes, fragment: Bytes): Bytes {
    path + Marked(QUESTION, query) + Marked(HASH, fragment)
  }

  function Marked(mark: byte, part: Bytes): Bytes {
    if part == [] then [] else [mark] + part
  }

  /** A local link: a relative path, no scheme and no authority. */
  predicate IsLocal(uri: Url) {
    uri.scheme == [] && uri.netloc == [] && uri.path != [] && uri.path[0] != SLASH
  }

  /** Text that `urlsplit` does not clean. */
  predicate IsClean(u: Bytes) {
    forall k :: 0 <= k < |u| ==> !IsUnsafe(u[k])
  }

  lemma {:induction false} CleanKept(u: Bytes)
    requires IsClean(u)
    ensures RemoveUnsafe(u) == u
    decreases |u|
  {
    if u != [] {
      CleanKept(u[1..]);
      assert u == [u[0]] + u[1..];
    }
  }

  lemma {:induction false} Cleaned(u: Bytes)
    ensures IsClean(RemoveUnsafe(u))
    ensures forall k :: 0 <= k < |RemoveUnsafe(u)| ==> RemoveUnsafe(u)[k] in u
    decreases |u|
  {
    if u != [] {
      Cleaned(u[1..]);
    }
  }

  lemma {:induction false} Stripped(u: Bytes)
    ensures StripFront(u) != [] ==> StripFront(u)[0] > SPACE
    ensures forall k :: 0 <= k < |StripFront(u)| ==> StripFront(u)[k] in u
    ensures |StripFront(u)| == |u| <==> StripFront(u) == u
    ensures |StripFront(u)| <= |u|
    decreases |u|
  {
    if u != [] && u[0] <= SPACE {
      Stripped(u[1..]);
    }
  }

  /** The parts are made of bytes of the text, clean, and free of their own delimiters. */
  lemma PartsOf(text: Bytes)
    ensures
      var uri := UrlSplit(text);
      IsClean(uri.path) && IsClean(uri.query) && IsClean(uri.fragment)
      && QUESTION !in uri.path && HASH !in uri.path && HASH !in uri.query
      && (forall b :: b in uri.path || b in uri.query || b in uri.fragment ==> b in text)
      && (uri.query != [] ==> QUESTION in text) && (uri.fragment != [] ==> HASH in text)
  {
    hide SplitRest, RemoveUnsafe, StripFront, HasScheme, IndexOf;
    var stripped, u := StripFront(text), RemoveUnsafe(StripFront(text));
    Stripped(text);
    Cleaned(stripped);
    assert forall b :: b in u ==> b in text;
    PartsOfRest(Before(u, COLON), After(u, COLON));
    PartsOfRest([], u);
  }

  lemma PartsOfRest(scheme: Bytes, rest: Bytes)
    ensures
      var uri := SplitRest(scheme, rest);
      (IsClean(rest) ==> IsClean(uri.path) && IsClean(uri.query) && IsClean(uri.fragment))
      && QUESTION !in uri.path && HASH !in uri.path && HASH !in uri.query
      && (forall b :: b in uri.path || b in uri.query || b in uri.fragment ==> b in rest)
      && (uri.query != [] ==> QUESTION in rest) && (uri.fragment != [] ==> HASH in rest)
  {
    hide SplitTail, AuthorityEnd;
    PartsOfTail(scheme, [], rest);
    if |rest| >= 2 && rest[0] == SLASH && rest[1] == SLASH {
      var e := AuthorityEnd(rest, 2);
      PartsOfTail(scheme, rest[2..e], rest[e..]);
    }
  }

  lemma PartsOfTail(scheme: Bytes, netloc: Bytes, u: Bytes)
    ensures
      var uri := SplitTail(scheme, netloc, u);
      (IsClean(u) ==> IsClean(uri.path) && IsClean(uri.query) && IsClean(uri.fragment))
      && QUESTION !in uri.path && HASH !in uri.path && HASH !in uri.query
      && (forall b :: b in uri.path || b in uri.query || b in uri.fragment ==> b in u)
      && (uri.query != [] ==> QUESTION in u) && (uri.fragment != [] ==> HASH in u)
  {
    hide IndexOf;
  }

  /** Splitting text put together from parts. */
  lemma SplitTailUnsplit(scheme: Bytes, netloc: Bytes, path: Bytes, query: Bytes, fragment: Bytes)
    requires QUESTION !in path && HASH !in path && HASH !in query
    ensures SplitTail(scheme, netloc, UrlUnsplit(path, query, fragment)) == Url(scheme, netloc, path, query, fragment)
  {
    hide IndexOf;
    var front := path + Marked(QUESTION, query);
    CutAt(front, HASH, fragment);
    CutAt(path, QUESTION, query);
  }

  lemma CutAt(front: Bytes, mark: byte, part: Bytes)
    requires mark !in front
    ensures Before(front + Marked(mark, part), mark) == front && After(front + Marked(mark, part), mark) == part
  {
    hide IndexOf;
    if part == [] {
      assert front + [] == front;
      assert IndexOf(front, 0, mark) == |front|;
      assert front[..|front|] == front;
    } else {
      CutHere(front, mark, part);
    }
  }

  lemma CutHere(front: Bytes, mark: byte, part: Bytes)
    requires mark !in front
    ensures
      var text := front + ([mark] + part);
      IndexOf(text, 0, mark) == |front| && text[..|front|] == front && text[|front| + 1..] == part
  {
    hide IndexOf;
    var text := front + ([mark] + part);
    assert forall k :: 0 <= k < |front| ==> text[k] == front[k];
    assert text[|front|] == mark;
  }

  /** Splitting a relative reference gives its parts back if and only if its path neither
      begins with a stripped byte nor looks like a scheme. */
  lemma UrlRoundTrip(path: Bytes, query: Bytes, fragment: Bytes)
    requires path != [] && path[0] != SLASH
    requires QUESTION !in path && HASH !in path && HASH !in query
    requires IsClean(path) && IsClean(query) && IsClean(fragment)
    ensures UrlSplit(UrlUnsplit(path, query, fragment)) == Url([], [], path, query, fragment)
       <==> path[0] > SPACE && !HasScheme(path)
  {
    var text := UrlUnsplit(path, query, fragment);
    assert text[0] == path[0];
    TextIsClean(path, query, fragment);
    if path[0] > SPACE {
      assert StripFront(text) == text;
      CleanKept(text);
      SchemeOfText(path, query, fragment);
      SplitTailUnsplit([], [], path, query, fragment);
    } else {
      StrippedPath(path, query, fragment);
    }
  }

  lemma TextIsClean(path: Bytes, query: Bytes, fragment: Bytes)
    requires IsClean(path) && IsClean(query) && IsClean(fragment)
    ensures IsClean(UrlUnsplit(path, query, fragment))
  {
  }

  /** Only the path can make the text look as if it had a scheme. */
  lemma SchemeOfText(path: Bytes, query: Bytes, fragment: Bytes)
    requires path != []
    ensures HasScheme(UrlUnsplit(path, query, fragment)) == HasScheme(path)
  {
    hide IndexOf;
    var text := UrlUnsplit(path, query, fragment);
    var i, j := IndexOf(text, 0, COLON), IndexOf(path, 0, COLON);
    assert forall k :: 0 <= k < |path| ==> text[k] == path[k];
    assert |path| < |text| ==> text[|path|] == QUESTION || text[|path|] == HASH;
    if j < |path| {
      assert i == j;
    } else {
      assert i >= |path|;
    }
  }

  /** A path that loses its first byte does not come back. */
  lemma StrippedPath(path: Bytes, query: Bytes, fragment: Bytes)
    requires path != [] && path[0] <= SPACE
    ensures UrlSplit(UrlUnsplit(path, query, fragment)) != Url([], [], path, query, fragment)
  {
    var text := UrlUnsplit(path, query, fragment);
    PathStart(text);
  }

  /** The path of a split URL does not begin with a stripped byte, unless a scheme or an
      authority came before it. */
  lemma PathStart(text: Bytes)
    ensures
      var uri := UrlSplit(text);
      uri.path != [] && uri.scheme == [] && uri.netloc == [] ==> uri.path[0] > SPACE
  {
    Stripped(text);
    var s := StripFront(text);
    assert s != [] ==> RemoveUnsafe(s)[0] == s[0];
  }
}
