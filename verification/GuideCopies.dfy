/** The copies of guides in a package: their text, and what one rewriting does to it. */
module GuideCopies {
  import opened ByteStrings
  import opened Rescan
  import opened Paths
  import opened Links
  import opened PackageLinks
  import opened GuideRewriting
  import opened GuideLaws

  // ------------------------------------------------------------- the copy

  /** The text of a destination that is handed on to be relocated: what comes after a bracket it
      begins with, without its last byte. */
  function Handed(t: Bytes): Bytes {
    if t == [] || t[0] != LESS then t else if |t| < 2 then [] else t[1..|t| - 1]
  }

  /** A text in brackets if the destination began with one. */
  function Wrapped(t: Bytes, text: Bytes): Bytes {
    if t == [] || t[0] != LESS then text else [LESS] + text + [GREATER]
  }

  function Moved(t: Bytes, prefix: Bytes, base: Bytes): Bytes {
    Wrapped(t, RelocateTarget(Handed(t), prefix, base))
  }

  function MoverOf(prefix: Bytes, base: Bytes): Mover {
    (t: Bytes) => Moved(t, prefix, base)
  }

  /** A file read as text: every line break a line feed. */
  function ReadText(raw: Bytes): (text: Bytes)
    ensures RETURN !in text
    decreases |raw|
  {
    if raw == [] then []
    else if raw[0] == RETURN then [NEWLINE] + ReadText(if |raw| >= 2 && raw[1] == NEWLINE then raw[2..] else raw[1..])
    else [raw[0]] + ReadText(raw[1..])
  }

  /** Without carriage returns a file is its text. */
  lemma {:induction false} TextIsRead(raw: Bytes)
    requires RETURN !in raw
    ensures ReadText(raw) == raw
    decreases |raw|
  {
    if raw != [] {
      TextIsRead(raw[1..]);
      assert raw == [raw[0]] + raw[1..];
    }
  }

  /** A carriage return, with the line feed behind it if there is one, is read as a line feed. */
  lemma {:induction false} BreakIsRead(line: Bytes, rest: Bytes)
    requires RETURN !in line
    ensures ReadText(line + [RETURN, NEWLINE] + rest) == line + [NEWLINE] + ReadText(rest)
    ensures (rest == [] || rest[0] != NEWLINE) ==> ReadText(line + [RETURN] + rest) == line + [NEWLINE] + ReadText(rest)
    decreases |line|
  {
    var two, one := line + [RETURN, NEWLINE] + rest, line + [RETURN] + rest;
    if line == [] {
      assert two[2..] == rest && one[1..] == rest;
      assert [] + [NEWLINE] == [NEWLINE];
    } else {
      assert two[1..] == line[1..] + [RETURN, NEWLINE] + rest && one[1..] == line[1..] + [RETURN] + rest;
      BreakIsRead(line[1..], rest);
      assert [line[0]] + (line[1..] + [NEWLINE] + ReadText(rest)) == line + [NEWLINE] + ReadText(rest);
    }
  }

  /** The copy of a guide for a place where the mirrored tree is at the prefix. */
  function GuideCopy(raw: Bytes, prefix: Bytes, base: Bytes): Bytes {
    GuideMoved(ReadText(raw), MoverOf(prefix, base))
  }

  method CopyGuide(raw: Bytes, prefix: Bytes, base: Bytes) returns (copy: Bytes)
    ensures copy == GuideCopy(raw, prefix, base)
  {
    copy := RelocateGuide(ReadText(raw), MoverOf(prefix, base));
  }

  // ----------------------------------------------------- careful relocation

  /** A relative path of directory names. */
  predicate IsNamePath(p: Bytes) {
    IsRelative(p) && forall k :: 0 <= k < |p| ==> IsNameByte(p[k])
  }

  /** A relocated target is some text of the target's bytes and of directory names. */
  lemma TargetBytes(u: Bytes, prefix: Bytes, base: Bytes)
    requires IsNamePath(prefix) && IsNamePath(base)
    ensures u != [] ==> RelocateTarget(u, prefix, base) != []
    ensures forall b :: b in RelocateTarget(u, prefix, base) ==> b in u || IsNameByte(b)
  {
    hide UrlSplit, RelocatedPath;
    var uri := UrlSplit(u);
    if IsLocal(uri) {
      PartsOf(u);
      RelocatedPathLeads(uri.path, prefix, base, []);
      forall b | b in RelocateTarget(u, prefix, base) ensures b in u || IsNameByte(b) {
        UnsplitFrom(RelocatedPath(uri.path, prefix, base), uri.query, uri.fragment, b);
        if b in RelocatedPath(uri.path, prefix, base) {
          RelocatedFrom(uri.path, prefix, base, b);
        }
      }
    }
  }

  lemma UnsplitFrom(path: Bytes, query: Bytes, fragment: Bytes, b: byte)
    requires b in UrlUnsplit(path, query, fragment)
    ensures b in path || b in query || b in fragment || (query != [] && b == QUESTION) || (fragment != [] && b == HASH)
  {
    assert b in path || b in Marked(QUESTION, query) || b in Marked(HASH, fragment);
  }

  lemma HandedBytes(t: Bytes)
    ensures forall b :: b in Handed(t) ==> b in t
    ensures Bracketed(t) ==> Handed(t) != [] && GREATER !in Handed(t) && NEWLINE !in Handed(t)
    ensures t != [] && t[0] != LESS ==> Handed(t) == t
  {
  }

  lemma WrappedFits(t: Bytes, text: Bytes)
    requires t != [] && (t[0] != LESS || Bracketed(t) ==> text != [])
    requires forall b :: b in text ==> b in t || IsNameByte(b)
    requires Bracketed(t) ==> forall b :: b in text ==> b != GREATER && b != NEWLINE
    ensures Fits(t, Wrapped(t, text))
  {
    var r := Wrapped(t, text);
    if t[0] == LESS {
      assert forall k :: 1 <= k < |r| - 1 ==> r[k] == text[k - 1] && text[k - 1] in text;
    }
  }

  /** Relocation with plain prefix and base is careful. */
  lemma MoverIsCareful(prefix: Bytes, base: Bytes)
    requires IsNamePath(prefix) && IsNamePath(base)
    ensures Careful(MoverOf(prefix, base))
  {
    hide RelocateTarget, Handed, Wrapped, Fits, Bracketed;
    forall t: Bytes | t != [] ensures Fits(t, MoverOf(prefix, base)(t)) {
      HandedBytes(t);
      TargetBytes(Handed(t), prefix, base);
      WrappedFits(t, RelocateTarget(Handed(t), prefix, base));
    }
  }

  /** A destination is handed on whole, without its brackets, unless it begins with a bracket
      that does not close at its end. */
  lemma HandedWhole(t: Bytes)
    ensures Wrapped(t, Handed(t)) == t <==> (t != [] && t[0] == LESS ==> IsAngled(t))
  {
    var r := Wrapped(t, Handed(t));
    if t != [] && t[0] == LESS {
      assert r[|r| - 1] == GREATER;
      if IsAngled(t) {
        assert t == [t[0]] + t[1..|t| - 1] + [t[|t| - 1]];
      }
    }
  }

  // ------------------------------------------------------ copies in layouts

  /** The mover of the copies in a layout. */
  function LayoutMover(l: Layout): Mover {
    MoverOf(Unsplit(l.prefix), Unsplit(l.base))
  }

  predicate NameParts(parts: seq<Bytes>) {
    forall k, b :: 0 <= k < |parts| && b in parts[k] ==> IsNameByte(b)
  }

  lemma {:induction false} NamePartsText(parts: seq<Bytes>)
    requires NameParts(parts) && PlainParts(parts)
    ensures IsNamePath(Unsplit(parts))
  {
    hide IsPlainPart;
    UnsplitPlain(parts);
    forall k | 0 <= k < |Unsplit(parts)| ensures IsNameByte(Unsplit(parts)[k]) {
      var b := Unsplit(parts)[k];
      if b != SLASH {
        UnsplitBytes(parts, b);
      }
    }
  }

  lemma WordBytes(s: string)
    requires IsWord(s)
    ensures forall b :: b in Ascii(s) ==> IsLetter(b) || b == DASH
  {
    var t := Ascii(s);
    assert forall k :: 0 <= k < |t| ==> t[k] == s[k] as int;
  }

  lemma LayoutParts(l: Layout)
    requires IsLayout(l)
    ensures NameParts(l.prefix) && NameParts(l.base)
  {
    hide Ascii, IsNameByte;
    LayoutBytes();
    assert forall c, b :: c in {SHARE, DOC, SUZAKU, DOCS, DATA, SDK, PACKS, PACK_SDK, DOTS} && b in c ==> IsNameByte(b);
  }

  lemma LayoutBytes()
    ensures forall c, b :: c in {SHARE, DOC, SUZAKU, DOCS, DATA, SDK, PACKS, PACK_SDK, DOTS} && b in c ==> IsNameByte(b)
  {
    hide Ascii;
    WordBytes("share");
    WordBytes("doc");
    WordBytes("suzaku");
    WordBytes("docs");
    WordBytes("data");
    WordBytes("sdk");
    WordBytes("offline-packs");
    WordBytes("offline-pack-sdk");
  }

  lemma LayoutMoverIsCareful(l: Layout)
    requires IsLayout(l)
    ensures Careful(LayoutMover(l))
  {
    hide IsLayout, NameParts, PlainParts, Careful, IsNamePath, Unsplit, Run;
    LayoutParts(l);
    LayoutsLeadHome(l);
    NamePartsText(l.prefix);
    NamePartsText(l.base);
    MoverIsCareful(Unsplit(l.prefix), Unsplit(l.base));
  }

  lemma PlaceIsProper(l: Layout)
    requires PlainParts(l.prefix) && PlainParts(l.base)
    ensures Proper(Run(l.base, Run(l.prefix, [], false), false))
  {
    hide IsClean;
    RunProper(l.prefix, [], false);
    RunProper(l.base, Run(l.prefix, [], false), false);
  }

  lemma NoPartsText()
    ensures Unsplit([]) == []
  {
  }

  lemma NoUps()
    ensures Ups(0) == []
  {
  }
}
