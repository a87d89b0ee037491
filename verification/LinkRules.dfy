/** What the words about links and paths mean, byte by byte: escapes, local links, directories. */
module LinkRules {
  import opened ByteStrings
  import opened Paths
  import opened Links

  // ---------------------------------------------------------------- escapes

  /** The characters of hexadecimal digits, by their values. */
  const UPPER: Bytes := [48, 49, 50, 51, 52, 53, 54, 55, 56, 57, 65, 66, 67, 68, 69, 70]
  const LOWER: Bytes := [48, 49, 50, 51, 52, 53, 54, 55, 56, 57, 97, 98, 99, 100, 101, 102]

  predicate IsHexOf(b: byte, v: nat) {
    v < 16 && (b == UPPER[v] || b == LOWER[v])
  }

  lemma HexIs(b: byte, v: nat)
    requires v < 16
    ensures HexValue(b) == Some(v) <==> IsHexOf(b, v)
  {
  }

  /** A percent sign with two hexadecimal digits, in either case, stands for their byte. */
  lemma EscapeRead(hi: byte, lo: byte, h: nat, l: nat, rest: Bytes)
    requires IsHexOf(hi, h) && IsHexOf(lo, l)
    ensures Decode([PERCENT, hi, lo] + rest) == [16 * h + l] + Decode(rest)
  {
    HexIs(hi, h);
    HexIs(lo, l);
    assert ([PERCENT, hi, lo] + rest)[3..] == rest;
  }

  predicate IsHexDigit(b: byte) {
    b in UPPER || b in LOWER
  }

  lemma HexDigitsAre(b: byte)
    ensures HexValue(b).Some? <==> IsHexDigit(b)
  {
    if HexValue(b).Some? {
      HexIs(b, HexValue(b).value);
    }
    if i :| 0 <= i < 16 && UPPER[i] == b {
      HexIs(b, i);
    }
    if i :| 0 <= i < 16 && LOWER[i] == b {
      HexIs(b, i);
    }
  }

  /** Any other byte stands for itself, also a percent sign without two digits behind it. */
  lemma OtherRead(b: byte, rest: Bytes)
    requires b == PERCENT && |rest| >= 2 ==> !IsHexDigit(rest[0]) || !IsHexDigit(rest[1])
    ensures Decode([b] + rest) == [b] + Decode(rest)
  {
    hide HexValue, IsHexDigit;
    var s := [b] + rest;
    assert s[1..] == rest;
    if |rest| >= 2 {
      assert s[1] == rest[0] && s[2] == rest[1];
      HexDigitsAre(rest[0]);
      HexDigitsAre(rest[1]);
    }
  }

  /** Encoding leaves letters, digits and `/.-_~`, and writes every other byte as its escape. */
  lemma QuoteIs(b: byte, rest: Bytes)
    ensures Quote([b] + rest)
         == (if IsLetter(b) || IsDigit(b) || b == SLASH || b == DOT || b == DASH || b == UNDERSCORE || b == TILDE then [b]
             else [PERCENT, UPPER[b / 16], UPPER[b % 16]]) + Quote(rest)
  {
    assert ([b] + rest)[1..] == rest;
    UpperDigit(b / 16);
    UpperDigit(b % 16);
  }

  lemma UpperDigit(n: nat)
    requires n < 16
    ensures HexDigit(n) == UPPER[n]
  {
  }

  // ------------------------------------------------------------- local links

  /** A scheme and its colon at the start: a letter, then letters, digits, `+`, `-` or `.`. */
  predicate BeginsWithScheme(u: Bytes) {
    exists i | 0 < i < |u| ::
      u[i] == COLON && IsLetter(u[0])
      && forall k :: 0 < k < i ==> IsLetter(u[k]) || IsDigit(u[k]) || u[k] == PLUS || u[k] == DASH || u[k] == DOT
  }

  lemma SchemeIs(u: Bytes)
    ensures HasScheme(u) <==> BeginsWithScheme(u)
  {
    hide IndexOf;
    var i := IndexOf(u, 0, COLON);
    if HasScheme(u) {
      assert u[i] == COLON;
    }
    if BeginsWithScheme(u) {
      var j :| 0 < j < |u| && u[j] == COLON && IsLetter(u[0])
               && forall k :: 0 < k < j ==> IsLetter(u[k]) || IsDigit(u[k]) || u[k] == PLUS || u[k] == DASH || u[k] == DOT;
      assert i == j;
    }
  }

  /** A clean text is a local link exactly if it begins with neither a scheme, nor a slash, nor
      the mark of a query or fragment; and a scheme or two slashes and an authority make it other. */
  lemma LocalIs(text: Bytes)
    requires text != [] && text[0] > SPACE && IsClean(text)
    ensures IsLocal(UrlSplit(text)) <==>
            text[0] != SLASH && text[0] != QUESTION && text[0] != HASH && !BeginsWithScheme(text)
  {
    hide IndexOf;
    SchemeIs(text);
    CleanKept(text);
    assert StripFront(text) == text;
    if HasScheme(text) {
      SchemeStays(text);
    } else if text[0] == SLASH {
      SlashStays(text);
    } else {
      TailStart(text);
    }
  }

  lemma SchemeStays(u: Bytes)
    requires HasScheme(u)
    ensures SplitRest(Before(u, COLON), After(u, COLON)).scheme != []
  {
    hide IndexOf, SplitTail;
    SplitKeepsScheme(Before(u, COLON), After(u, COLON));
  }

  lemma SplitKeepsScheme(scheme: Bytes, rest: Bytes)
    ensures SplitRest(scheme, rest).scheme == scheme
  {
    hide IndexOf;
  }

  lemma SlashStays(u: Bytes)
    requires u != [] && u[0] == SLASH
    ensures !IsLocal(SplitRest([], u))
  {
    hide IndexOf;
    if |u| >= 2 && u[1] == SLASH {
      var e := AuthorityEnd(u, 2);
      AuthorityStops(u, 2);
      if e == 2 {
        TailStart(u[e..]);
      }
    } else {
      TailStart(u);
    }
  }

  lemma AuthorityStops(u: Bytes, i: nat)
    requires i <= |u|
    ensures
      var k := AuthorityEnd(u, i);
      k < |u| ==> u[k] == SLASH || u[k] == QUESTION || u[k] == HASH
    decreases |u| - i
  {
  }

  /** Where the path of a tail begins, if it has one. */
  lemma TailStart(u: Bytes)
    ensures
      var uri := SplitTail([], [], u);
      uri.path == [] <==> u == [] || u[0] == QUESTION || u[0] == HASH
    ensures
      var uri := SplitTail([], [], u);
      uri.path != [] ==> uri.path[0] == u[0]
  {
    hide IndexOf;
  }

  lemma {:induction false} AuthorityUpTo(u: Bytes, i: nat, e: nat)
    requires i <= e <= |u| && (forall k :: i <= k < e ==> u[k] != SLASH && u[k] != QUESTION && u[k] != HASH)
    requires e < |u| ==> u[e] == SLASH || u[e] == QUESTION || u[e] == HASH
    ensures AuthorityEnd(u, i) == e
    decreases e - i
  {
    if i < e {
      AuthorityUpTo(u, i + 1, e);
    }
  }

  /** Two slashes announce an authority, which goes up to a slash or the mark of a query or
      fragment. */
  lemma AuthorityIs(host: Bytes, rest: Bytes)
    requires IsClean(host) && IsClean(rest) && SLASH !in host && QUESTION !in host && HASH !in host
    requires rest == [] || rest[0] == SLASH || rest[0] == QUESTION || rest[0] == HASH
    ensures
      var uri := UrlSplit([SLASH, SLASH] + host + rest);
      uri.netloc == host && uri.scheme == []
  {
    hide IndexOf, SplitTail, AuthorityEnd;
    var u := [SLASH, SLASH] + host + rest;
    CleanKept(u);
    assert StripFront(u) == u && !HasScheme(u);
    assert forall k :: 2 <= k < 2 + |host| ==> u[k] == host[k - 2];
    assert 2 + |host| < |u| ==> u[2 + |host|] == rest[0];
    AuthorityUpTo(u, 2, 2 + |host|);
    assert u[2..2 + |host|] == host;
    TailHas([], host, u[2 + |host|..]);
  }

  lemma TailHas(scheme: Bytes, netloc: Bytes, u: Bytes)
    ensures SplitTail(scheme, netloc, u).scheme == scheme && SplitTail(scheme, netloc, u).netloc == netloc
  {
    hide IndexOf;
  }

  // ------------------------------------------------------------ directories

  lemma {:induction false} UpToSlash(d: Bytes, name: Bytes)
    requires SLASH !in name && (d == [] || d[|d| - 1] == SLASH)
    ensures UpToLastSlash(d + name) == d
    decreases |name|
  {
    var p := d + name;
    if name == [] {
      assert p == d;
    } else {
      var front := name[..|name| - 1];
      assert p[..|p| - 1] == d + front;
      assert p[|p| - 1] == name[|name| - 1];
      UpToSlash(d, front);
    }
  }

  lemma {:induction false} Unslashed(d: Bytes, n: nat)
    requires d == [] || d[|d| - 1] != SLASH
    ensures RStrip(d + Root(n)) == d
    decreases n
  {
    var p := d + Root(n);
    if n == 0 {
      assert p == d;
    } else {
      RootEnds(n);
      assert p[..|p| - 1] == d + Root(n - 1);
      Unslashed(d, n - 1);
    }
  }

  lemma {:induction false} RootEnds(n: nat)
    ensures |Root(n)| == n && forall k :: 0 <= k < n ==> Root(n)[k] == SLASH
    ensures n > 0 ==> Root(n)[..n - 1] == Root(n - 1)
    decreases n
  {
    if n > 0 {
      RootEnds(n - 1);
    }
  }

  /** The directory of a path is what comes before the slashes in front of its name: those
      slashes themselves if nothing comes before them, and nothing if there are none. */
  lemma DirnameIs(d: Bytes, n: nat, name: Bytes)
    requires SLASH !in name && if n == 0 then d == [] else d == [] || d[|d| - 1] != SLASH
    ensures Dirname(d + Root(n) + name) == if d == [] then Root(n) else d
  {
    var head := d + Root(n);
    RootEnds(n);
    assert head != [] ==> head[|head| - 1] == SLASH;
    UpToSlash(head, name);
    Unslashed(d, n);
    assert d == [] ==> head == Root(n);
  }

  // ------------------------------------------------------------ joined paths

  /** Joining puts one slash between a directory and a relative path; an absolute path is taken
      alone. */
  lemma JoinIs(a: Bytes, b: Bytes)
    ensures b != [] && b[0] == SLASH ==> PathJoin(a, b) == b
    ensures (b == [] || b[0] != SLASH) && a == [] ==> PathJoin(a, b) == b
    ensures (b == [] || b[0] != SLASH) && a != [] && a[|a| - 1] != SLASH ==> PathJoin(a, b) == a + [SLASH] + b
    ensures (b == [] || b[0] != SLASH) && a != [] && a[|a| - 1] == SLASH ==> PathJoin(a, b) == a + b
  {
    assert a + [] == a && [] + b == b;
  }

  /** A normal path begins with as many slashes as before, but with one for three or more. */
  lemma SlashesAre(n: nat, rest: Bytes)
    requires rest == [] || rest[0] != SLASH
    ensures Slashes(Root(n) + rest) == if n <= 2 then n else 1
  {
    var p := Root(n) + rest;
    RootEnds(n);
    assert forall k :: 0 <= k < n ==> p[k] == SLASH;
    assert n < |p| ==> p[n] == rest[0];
  }

  /** `name/..` in a path comes to nothing, `.` and empty components do, too. */
  lemma BackAgain(a: Bytes, name: Bytes, b: Bytes)
    requires name != [] && name != HERE && name != DOTS && SLASH !in name
    ensures Components(a + [SLASH] + (name + [SLASH] + (DOTS + [SLASH] + b))) == Components(a + [SLASH] + b)
    ensures Components(a + [SLASH] + (HERE + [SLASH] + b)) == Components(a + [SLASH] + b)
    ensures Components(a + [SLASH] + ([SLASH] + b)) == Components(a + [SLASH] + b)
  {
    hide Split;
    var back := name + [SLASH] + (DOTS + [SLASH] + b);
    SplitConcat(a, back);
    SplitConcat(name, DOTS + [SLASH] + b);
    SplitConcat(DOTS, b);
    SplitConcat(a, b);
    SplitConcat(a, HERE + [SLASH] + b);
    SplitConcat(HERE, b);
    SplitConcat(a, [SLASH] + b);
    SplitConcat([], b);
    assert [] + [SLASH] + b == [SLASH] + b;
    SplitPiece(name);
    SplitPiece(DOTS);
    SplitPiece(HERE);
    SplitPiece([]);
    SameStart(a, back, b);
    SameStart(a, HERE + [SLASH] + b, b);
    SameStart(a, [SLASH] + b, b);
    var rooted := !IsRelative(a + [SLASH] + b);
    RunsToNothing(name, Split(a), Split(b), rooted);
  }

  lemma SameStart(a: Bytes, x: Bytes, y: Bytes)
    ensures IsRelative(a + [SLASH] + x) == IsRelative(a + [SLASH] + y)
  {
  }

  lemma RunsToNothing(name: Bytes, before: seq<Bytes>, after: seq<Bytes>, rooted: bool)
    requires name != [] && name != HERE && name != DOTS
    ensures Run(before + ([name] + ([DOTS] + after)), [], rooted) == Run(before + after, [], rooted)
    ensures Run(before + ([HERE] + after), [], rooted) == Run(before + after, [], rooted)
    ensures Run(before + ([[]] + after), [], rooted) == Run(before + after, [], rooted)
  {
    hide Run;
    RunConcat(before, [name] + ([DOTS] + after), [], rooted);
    RunConcat(before, after, [], rooted);
    RunConcat(before, [HERE] + after, [], rooted);
    RunConcat(before, [[]] + after, [], rooted);
    var stack := Run(before, [], rooted);
    RunFirst(name, [DOTS] + after, stack, rooted);
    RunFirst(DOTS, after, stack + [name], rooted);
    RunFirst(HERE, after, stack, rooted);
    RunFirst([], after, stack, rooted);
    assert (stack + [name])[..|stack|] == stack;
  }

  lemma RunFirst(c: Bytes, rest: seq<Bytes>, stack: seq<Bytes>, rooted: bool)
    ensures Run([c] + rest, stack, rooted) == Run(rest, Apply(stack, c, rooted), rooted)
  {
    assert ([c] + rest)[1..] == rest;
  }
}
