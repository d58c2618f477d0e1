/** Characters as the C sources see them: unsigned bytes, with ASCII case folding. */
module Bytes {
  type byte = b: int | 0 <= b < 256

  const NUL: byte := 0
  const NEWLINE: byte := 10

  function ToLower(c: byte): byte { if 65 <= c <= 90 then c + 32 else c }

  function ToUpper(c: byte): byte { if 97 <= c <= 122 then c - 32 else c }

  /** The 26 letters are folded into one another, and nothing else is changed. */
  lemma CaseFolds(k: nat)
    requires k < 26
    ensures ToLower('A' as int + k) == 'a' as int + k && ToUpper('a' as int + k) == 'A' as int + k
    ensures forall c: byte :: !('A' as int <= c <= 'Z' as int) ==> ToLower(c) == c
    ensures forall c: byte :: !('a' as int <= c <= 'z' as int) ==> ToUpper(c) == c
  {
  }

  /** The same character, or the same letter in its other case. */
  predicate SameLetter(x: byte, y: byte) {
    || x == y
    || ('A' as int <= x <= 'Z' as int && y == x + 32)
    || ('A' as int <= y <= 'Z' as int && x == y + 32)
  }

  /** Texts that differ at most in the case of their letters. */
  predicate SameLetters(s: seq<byte>, t: seq<byte>) {
    |s| == |t| && forall i :: 0 <= i < |s| ==> SameLetter(s[i], t[i])
  }

  lemma LowerIsSame(x: byte, y: byte)
    ensures ToLower(x) == ToLower(y) <==> SameLetter(x, y)
  {
  }

  function Min(a: int, b: int): (m: int)
    ensures m <= a && m <= b && m in {a, b}
  {
    if a < b then a else b
  }

  function Max(a: int, b: int): (m: int)
    ensures a <= m && b <= m && m in {a, b}
  {
    if a < b then b else a
  }

  lemma Assoc(a: seq<byte>, b: seq<byte>, c: seq<byte>)
    ensures (a + b) + c == a + (b + c)
  {
  }
}
