/** The byte stream behind the source digest: sorted file names, each with a zero byte and the
    64 hexadecimal digits of its content's digest. */
module DigestFrame {
  import opened ByteStrings
  import opened Texts

  /** The files an implementation cites. */
  datatype Implementation = Implementation(paths: seq<string>, tests: seq<string>)

  /** The encoding of names, and the digest of each file's content. */
  datatype Files = Files(encode: string -> Bytes, hash: string -> Bytes)

  /** Different names have different encodings, none with a zero byte; digests have 64 digits. */
  ghost predicate IsFraming(files: Files, names: set<string>) {
    (forall n :: n in names ==> NUL !in files.encode(n) && |files.hash(n)| == 64)
    && forall m, n :: m in names && n in names && files.encode(m) == files.encode(n) ==> m == n
  }

  // --------------------------------------------------------------- writing

  /** The names cited by the first `n` implementations. */
  function Cited(implementations: seq<Implementation>, n: nat): set<string>
    requires n <= |implementations|
  {
    if n == 0 then {}
    else
      var i := implementations[n - 1];
      Cited(implementations, n - 1) + (set name | name in i.paths) + (set name | name in i.tests)
  }

  function AllCited(implementations: seq<Implementation>): set<string> {
    Cited(implementations, |implementations|)
  }

  function Frame(files: Files, name: string): Bytes {
    files.encode(name) + [NUL] + files.hash(name)
  }

  function Stream(files: Files, names: seq<string>): Bytes {
    if names == [] then [] else Stream(files, names[..|names| - 1]) + Frame(files, names[|names| - 1])
  }

  /** The stream as it is fed to the hash: the names collected into a set, sorted however the
      set is iterated, and framed one after the other. */
  method FeedDigest(implementations: seq<Implementation>, files: Files, iterate: Order)
    returns (stream: Bytes)
    ensures stream == Stream(files, SortTexts(iterate(AllCited(implementations))))
  {
    hide SortTexts;
    var cited := {};
    for k := 0 to |implementations|
      invariant cited == Cited(implementations, k)
    {
      cited := cited + (set name | name in implementations[k].paths);
      cited := cited + (set name | name in implementations[k].tests);
    }
    var names := SortTexts(iterate(cited));
    stream := [];
    for k := 0 to |names|
      invariant stream == Stream(files, names[..k])
    {
      assert names[..k + 1][..k] == names[..k];
      stream := stream + files.encode(names[k]);
      stream := stream + [NUL];
      stream := stream + files.hash(names[k]);
      assert Stream(files, names[..k]) + files.encode(names[k]) + [NUL] + files.hash(names[k])
          == Stream(files, names[..k]) + Frame(files, names[k]);
    }
    assert names[..|names|] == names;
  }

  // --------------------------------------------------------------- reading

  /** The frames of a stream: encoded names with their digests. */
  function Read(s: Bytes): Option<seq<(Bytes, Bytes)>>
    decreases |s|
  {
    if s == [] then Some([])
    else
      var k := IndexOf(s, 0, NUL);
      if k + 65 > |s| then None
      else
        var others := Read(s[k + 65..]);
        if others.None? then None else Some([(s[..k], s[k + 1..k + 65])] + others.value)
  }

  function Frames(files: Files, names: seq<string>): (r: seq<(Bytes, Bytes)>)
    ensures |r| == |names| && forall i :: 0 <= i < |r| ==> r[i] == (files.encode(names[i]), files.hash(names[i]))
  {
    if names == [] then [] else [(files.encode(names[0]), files.hash(names[0]))] + Frames(files, names[1..])
  }

  lemma {:induction false} StreamConcat(files: Files, a: seq<string>, b: seq<string>)
    ensures Stream(files, a + b) == Stream(files, a) + Stream(files, b)
    decreases |b|
  {
    if b == [] {
      assert a + b == a;
    } else {
      var n := |b| - 1;
      assert (a + b)[..|a + b| - 1] == a + b[..n];
      StreamConcat(files, a, b[..n]);
    }
  }

  lemma FrameParts(e: Bytes, h: Bytes, tail: Bytes)
    requires NUL !in e && |h| == 64
    ensures
      var s := e + [NUL] + h + tail;
      IndexOf(s, 0, NUL) == |e| && |s| >= |e| + 65
      && s[..|e|] == e && s[|e| + 1..|e| + 65] == h && s[|e| + 65..] == tail
  {
    hide IndexOf;
    var s := e + [NUL] + h + tail;
    assert forall i :: 0 <= i < |e| ==> s[i] == e[i];
    assert s[|e|] == NUL;
  }

  lemma {:induction false} ReadFrame(files: Files, name: string, tail: Bytes)
    requires NUL !in files.encode(name) && |files.hash(name)| == 64 && Read(tail).Some?
    ensures Read(Frame(files, name) + tail) == Some([(files.encode(name), files.hash(name))] + Read(tail).value)
  {
    hide IndexOf;
    FrameParts(files.encode(name), files.hash(name), tail);
  }

  lemma OneFrame(files: Files, name: string)
    ensures Stream(files, [name]) == Frame(files, name)
  {
    assert [name][..0] == [];
    assert [] + Frame(files, name) == Frame(files, name);
  }

  lemma NoFrames(files: Files)
    ensures Stream(files, []) == [] && Read([]) == Some([])
  {
  }

  /** The stream is read back as its frames. */
  lemma {:induction false} StreamReadBack(files: Files, names: seq<string>)
    requires forall n :: n in names ==> NUL !in files.encode(n) && |files.hash(n)| == 64
    ensures Read(Stream(files, names)) == Some(Frames(files, names))
    decreases |names|
  {
    hide Read, Frame, Stream;
    if names == [] {
      NoFrames(files);
    } else {
      var head, tail := [names[0]], names[1..];
      assert names == head + tail;
      StreamReadBack(files, tail);
      StreamConcat(files, head, tail);
      OneFrame(files, names[0]);
      ReadFrame(files, names[0], Stream(files, tail));
    }
  }

  // --------------------------------------------------------------- theorems

  lemma SortedListing(iterate: Order, s: set<string>)
    requires Enumerates(iterate)
    ensures forall n :: n in SortTexts(iterate(s)) <==> n in s
  {
    hide SortTexts;
    var sorted := SortTexts(iterate(s));
    SortedTexts(iterate(s));
    forall n ensures n in sorted <==> n in s {
      assert n in multiset(sorted) <==> n in multiset(s);
    }
  }

  /** The stream depends only on which files are cited and on their contents, not on order or
      repetition, and it determines both: two streams are equal if and only if the same names
      are cited and every one of them has the same content digest. */
  lemma StreamDeterminesFiles(a: seq<Implementation>, b: seq<Implementation>, encode: string -> Bytes,
                              hashA: string -> Bytes, hashB: string -> Bytes,
                              iterateA: Order, iterateB: Order)
    requires Enumerates(iterateA) && Enumerates(iterateB)
    requires IsFraming(Files(encode, hashA), AllCited(a) + AllCited(b)) && IsFraming(Files(encode, hashB), AllCited(a) + AllCited(b))
    ensures
      Stream(Files(encode, hashA), SortTexts(iterateA(AllCited(a)))) == Stream(Files(encode, hashB), SortTexts(iterateB(AllCited(b))))
      <==> AllCited(a) == AllCited(b) && forall n :: n in AllCited(a) ==> hashA(n) == hashB(n)
  {
    hide SortTexts, Stream, AllCited, Enumerates;
    var s, t := SortTexts(iterateA(AllCited(a))), SortTexts(iterateB(AllCited(b)));
    SortedListing(iterateA, AllCited(a));
    SortedListing(iterateB, AllCited(b));
    StreamReadBack(Files(encode, hashA), s);
    StreamReadBack(Files(encode, hashB), t);
    if AllCited(a) == AllCited(b) && forall n :: n in AllCited(a) ==> hashA(n) == hashB(n) {
      SameListing(iterateA, iterateB, AllCited(a));
      SameStream(Files(encode, hashA), Files(encode, hashB), s);
    }
    if Frames(Files(encode, hashA), s) == Frames(Files(encode, hashB), t) {
      var f, g := Frames(Files(encode, hashA), s), Frames(Files(encode, hashB), t);
      forall i | 0 <= i < |s| ensures s[i] == t[i] && hashA(s[i]) == hashB(s[i]) {
        assert f[i] == g[i];
        assert s[i] in AllCited(a) && t[i] in AllCited(b);
      }
      assert s == t;
      assert forall n :: n in AllCited(a) <==> n in AllCited(b);
    }
  }

  lemma SameListing(iterateA: Order, iterateB: Order, s: set<string>)
    requires Enumerates(iterateA) && Enumerates(iterateB)
    ensures SortTexts(iterateA(s)) == SortTexts(iterateB(s))
  {
    hide SortTexts;
    SortedTexts(iterateA(s));
    assert multiset(iterateA(s)) == multiset(s) == multiset(iterateB(s));
  }

  lemma {:induction false} SameStream(a: Files, b: Files, names: seq<string>)
    requires a.encode == b.encode && forall n :: n in names ==> a.hash(n) == b.hash(n)
    ensures Stream(a, names) == Stream(b, names)
    decreases |names|
  {
    if names != [] {
      SameStream(a, b, names[..|names| - 1]);
      assert names[|names| - 1] in names;
    }
  }
}
