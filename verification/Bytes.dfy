/** Byte strings: the `char` of the C++ sources, written as Dafny characters below 256. */
module Bytes {
  type byte = c: char | c as int < 256
  type bytes = seq<byte>

  /** The numeric value of a byte (`static_cast<unsigned char>`). */
  function Code(b: byte): (n: int)
    ensures 0 <= n < 256
  {
    b as int
  }

  function Chr(n: int): (b: byte)
    requires 0 <= n < 256
    ensures Code(b) == n
  {
    n as char
  }

  predicate IsDigit(b: byte) {
    '0' <= b <= '9'
  }

  /** The text `w` stands at index `i` of `doc`. */
  ghost predicate At(doc: bytes, i: nat, w: bytes) {
    i + |w| <= |doc| && doc[i..i + |w|] == w
  }

  lemma AtByte(doc: bytes, i: nat, w: bytes, k: nat)
    requires At(doc, i, w) && k < |w|
    ensures doc[i + k] == w[k]
  {
    assert doc[i..i + |w|][k] == w[k];
  }

  lemma AtSplit(doc: bytes, i: nat, a: bytes, b: bytes)
    requires At(doc, i, a + b)
    ensures At(doc, i, a) && At(doc, i + |a|, b)
  {
    var w := doc[i..i + |a + b|];
    assert w == a + b;
    assert w[..|a|] == a && w[|a|..] == b;
    assert doc[i..i + |a|] == w[..|a|];
    assert doc[i + |a|..i + |a| + |b|] == w[|a|..];
  }

  lemma AtWhole(w: bytes)
    ensures At(w, 0, w)
  {
    assert w[0..|w|] == w;
  }
}
