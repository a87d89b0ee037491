/** Byte strings, the byte classes the scanners use, and the few sequence helpers
    that more than one component needs. */
module ByteStrings {

  type byte = b: int | 0 <= b < 256

  type Bytes = seq<byte>

  datatype Option<+T> = None | Some(value: T)

  const NUL: byte := 0
  const TAB: byte := 9
  const NEWLINE: byte := 10
  const RETURN: byte := 13
  const SPACE: byte := 32
  const HASH: byte := 35
  const PERCENT: byte := 37
  const LPAREN: byte := 40
  const RPAREN: byte := 41
  const PLUS: byte := 43
  const DASH: byte := 45
  const DOT: byte := 46
  const SLASH: byte := 47
  const COLON: byte := 58
  const LESS: byte := 60
  const GREATER: byte := 62
  const QUESTION: byte := 63
  const LBRACKET: byte := 91
  const RBRACKET: byte := 93
  const UNDERSCORE: byte := 95
  const BACKTICK: byte := 96
  const TILDE: byte := 126

  /** The class `\s` of a bytes pattern. */
  predicate IsSpace(b: byte) {
    9 <= b <= 13 || b == SPACE
  }

  predicate IsBreak(b: byte) {
    b == NEWLINE || b == RETURN
  }

  predicate IsDigit(b: byte) {
    48 <= b <= 57
  }

  predicate IsLetter(b: byte) {
    65 <= b <= 90 || 97 <= b <= 122
  }

  /** The index of the first `b` in `s` from `i` on, or `|s|` when there is none. */
  function IndexOf(s: Bytes, i: nat, b: byte): (k: nat)
    requires i <= |s|
    ensures i <= k <= |s|
    ensures forall j :: i <= j < k ==> s[j] != b
    ensures k < |s| ==> s[k] == b
    decreases |s| - i
  {
    if i == |s| || s[i] == b then i else IndexOf(s, i + 1, b)
  }

  /** The end of the white space that starts at index `i` of `s`. */
  function SkipSpace(s: Bytes, i: nat): (k: nat)
    requires i <= |s|
    ensures i <= k <= |s|
    ensures forall j :: i <= j < k ==> IsSpace(s[j])
    ensures k < |s| ==> !IsSpace(s[k])
    decreases |s| - i
  {
    if i == |s| || !IsSpace(s[i]) then i else SkipSpace(s, i + 1)
  }

  /** The end of the run of `b` that starts at index `i` of `s`. */
  function RunEnd(s: Bytes, i: nat, b: byte): (k: nat)
    requires i <= |s|
    ensures i <= k <= |s|
    ensures forall j :: i <= j < k ==> s[j] == b
    ensures k < |s| ==> s[k] != b
    decreases |s| - i
  {
    if i == |s| || s[i] != b then i else RunEnd(s, i + 1, b)
  }

  lemma Associates(a: Bytes, b: Bytes, c: Bytes)
    ensures (a + b) + c == a + (b + c)
  {
  }

  /** The bytes of a text of plain characters. */
  function Ascii(s: string): (t: Bytes)
    requires forall k :: 0 <= k < |s| ==> s[k] as int < 128
    ensures |t| == |s| && forall k :: 0 <= k < |s| ==> t[k] == s[k] as int
  {
    seq(|s|, k requires 0 <= k < |s| => s[k] as int)
  }

  lemma AsciiConcat(a: string, b: string)
    requires (forall k :: 0 <= k < |a| ==> a[k] as int < 128) && (forall k :: 0 <= k < |b| ==> b[k] as int < 128)
    ensures forall k :: 0 <= k < |a + b| ==> (a + b)[k] as int < 128
    ensures Ascii(a + b) == Ascii(a) + Ascii(b)
  {
  }

  lemma SlashText()
    ensures Ascii("/") == [SLASH]
  {
  }
}
