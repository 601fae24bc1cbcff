/** UTF-8 sizes of Unicode text. */
module Text {

  function CharBytes(c: char): (n: nat)
    ensures 1 <= n <= 4
  {
    var v := c as int;
    if v < 0x80 then 1 else if v < 0x800 then 2 else if v < 0x1_0000 then 3 else 4
  }

  /** `new TextEncoder().encode(text).length`, and Rust's `str::len`. */
  function ByteLength(s: string): (n: nat)
    ensures n >= |s|
  {
    if s == "" then 0 else ByteLength(s[..|s| - 1]) + CharBytes(s[|s| - 1])
  }

  lemma {:induction false} ByteLengthConcat(a: string, b: string)
    ensures ByteLength(a + b) == ByteLength(a) + ByteLength(b)
  {
    if b == "" {
      assert a + b == a;
    } else {
      assert (a + b)[..|a + b| - 1] == a + b[..|b| - 1];
      ByteLengthConcat(a, b[..|b| - 1]);
    }
  }

  /** A text has at most one prefix of a given byte length. */
  lemma PrefixByBytes(s: string, i: nat, j: nat)
    requires i <= j <= |s| && ByteLength(s[..i]) == ByteLength(s[..j])
    ensures i == j
  {
    assert s[..j] == s[..i] + s[i..j];
    ByteLengthConcat(s[..i], s[i..j]);
  }

  /** Unicode White_Space, which `str::trim` removes. */
  predicate IsWhiteSpace(c: char) {
    || '\t' <= c <= '\r' || c == ' ' || c == '\U{85}' || c == '\U{a0}' || c == '\U{1680}'
    || '\U{2000}' <= c <= '\U{200a}' || c == '\U{2028}' || c == '\U{2029}'
    || c == '\U{202f}' || c == '\U{205f}' || c == '\U{3000}'
  }
}
