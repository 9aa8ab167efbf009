/** UTF-8 (RFC 3629) as both libraries encode it, and the set of well-formed byte strings. */
module Utf8 {
  import opened Bytes

  /** A Unicode scalar value: a code point that is not a surrogate. */
  type scalar = cp: int | 0 <= cp < 0xD800 || 0xE000 <= cp <= 0x10FFFF

  /** The bytes written for a code point below 0x200000; the shifts and masks of the sources are
      written as division and remainder. */
  function Encode(cp: nat): (r: bytes)
    requires cp < 0x200000
    ensures 1 <= |r| <= 4
  {
    if cp < 0x80 then
      [Chr(cp)]
    else if cp < 0x800 then
      [Chr(0xC0 + cp / 0x40), Chr(0x80 + cp % 0x40)]
    else if cp < 0x10000 then
      [Chr(0xE0 + cp / 0x1000), Chr(0x80 + cp / 0x40 % 0x40), Chr(0x80 + cp % 0x40)]
    else
      [Chr(0xF0 + cp / 0x40000), Chr(0x80 + cp / 0x1000 % 0x40), Chr(0x80 + cp / 0x40 % 0x40), Chr(0x80 + cp % 0x40)]
  }

  predicate IsTail(b: byte) {
    0x80 <= Code(b) <= 0xBF
  }

  /** The table of section 3 of RFC 3629: the first byte tells how many there are and holds the high bits, every other
      byte holds six more. */
  predicate IsRow(cp: nat, r: bytes) {
    || (|r| == 1 && cp <= 0x7F && Code(r[0]) == cp)
    || (|r| == 2 && 0x80 <= cp <= 0x7FF && 0xC0 <= Code(r[0]) <= 0xDF && IsTail(r[1])
        && cp == (Code(r[0]) - 0xC0) * 0x40 + (Code(r[1]) - 0x80))
    || (|r| == 3 && 0x800 <= cp <= 0xFFFF && 0xE0 <= Code(r[0]) <= 0xEF && IsTail(r[1]) && IsTail(r[2])
        && cp == (Code(r[0]) - 0xE0) * 0x1000 + (Code(r[1]) - 0x80) * 0x40 + (Code(r[2]) - 0x80))
    || (|r| == 4 && 0x1_0000 <= cp <= 0x1F_FFFF && 0xF0 <= Code(r[0]) <= 0xF7 && IsTail(r[1]) && IsTail(r[2])
      && IsTail(r[3])
        && cp == (Code(r[0]) - 0xF0) * 0x4_0000 + (Code(r[1]) - 0x80) * 0x1000 + (Code(r[2]) - 0x80) * 0x40
                 + (Code(r[3]) - 0x80))
  }

  /** The encoding is the row of the table, and the only one. */
  lemma EncodeIsRow(cp: nat, r: bytes)
    requires cp < 0x200000
    ensures r == Encode(cp) <==> IsRow(cp, r)
  {
    RowOfEncoding(cp);
    if IsRow(cp, r) { RowIsUnique(cp, r, Encode(cp)); }
  }

  lemma RowOfEncoding(cp: nat)
    requires cp < 0x200000
    ensures IsRow(cp, Encode(cp))
  {
    hide Encode, IsRow;
    if cp < 0x800 { LowRow(cp); } else if cp < 0x10000 { MiddleRow(cp); } else { HighRow(cp); }
  }

  lemma LowRow(cp: nat)
    requires cp < 0x800
    ensures IsRow(cp, Encode(cp))
  {
  }

  lemma MiddleRow(cp: nat)
    requires 0x800 <= cp < 0x10000
    ensures IsRow(cp, Encode(cp))
  {
  }

  lemma SixBits(cp: nat)
    ensures cp / 0x40000 * 0x40000 + cp / 0x1000 % 0x40 * 0x1000 + cp / 0x40 % 0x40 * 0x40 + cp % 0x40 == cp
  {
    assert cp / 0x1000 == cp / 0x40000 * 0x40 + cp / 0x1000 % 0x40;
    assert cp / 0x40 == cp / 0x1000 * 0x40 + cp / 0x40 % 0x40;
  }

  lemma HighRow(cp: nat)
    requires 0x10000 <= cp < 0x200000
    ensures IsRow(cp, Encode(cp))
  {
    var a, b, c, d := cp / 0x40000, cp / 0x1000 % 0x40, cp / 0x40 % 0x40, cp % 0x40;
    SixBits(cp);
    assert a < 8 && b < 0x40 && c < 0x40 && d < 0x40;
    assert Encode(cp) == [Chr(0xF0 + a), Chr(0x80 + b), Chr(0x80 + c), Chr(0x80 + d)];
    hide Encode;
    FourBytesRow(cp, a, b, c, d);
  }

  lemma FourBytesRow(cp: nat, a: nat, b: nat, c: nat, d: nat)
    requires 0x10000 <= cp < 0x200000 && a < 8 && b < 0x40 && c < 0x40 && d < 0x40
    requires cp == a * 0x40000 + b * 0x1000 + c * 0x40 + d
    ensures IsRow(cp, [Chr(0xF0 + a), Chr(0x80 + b), Chr(0x80 + c), Chr(0x80 + d)])
  {
  }

  lemma RowIsUnique(cp: nat, r: bytes, s: bytes)
    requires IsRow(cp, r) && IsRow(cp, s)
    ensures r == s
  {
    assert forall k :: 0 <= k < |r| ==> Code(r[k]) == Code(s[k]) ==> r[k] == s[k];
  }

  function EncodeAll(cps: seq<scalar>): (r: bytes) {
    if cps == [] then [] else Encode(cps[0]) + EncodeAll(cps[1..])
  }

  /** Section 4 of RFC 3629: the byte string is the encoding of some scalar values. */
  ghost predicate WellFormed(s: bytes) {
    exists cps: seq<scalar> :: EncodeAll(cps) == s
  }

  lemma EmptyWellFormed()
    ensures WellFormed([])
  {
    assert EncodeAll([]) == [];
  }

  lemma PrependWellFormed(cp: scalar, s: bytes)
    requires WellFormed(s)
    ensures WellFormed(Encode(cp) + s)
  {
    var cps: seq<scalar> :| EncodeAll(cps) == s;
    assert ([cp] + cps)[1..] == cps;
    assert EncodeAll([cp] + cps) == Encode(cp) + s;
  }

  /** A non-empty well-formed string starts with the encoding of one scalar value. */
  lemma SplitWellFormed(s: bytes) returns (cp: scalar)
    requires WellFormed(s) && s != []
    ensures |Encode(cp)| <= |s| && s[..|Encode(cp)|] == Encode(cp)
    ensures WellFormed(s[|Encode(cp)|..])
  {
    var cps: seq<scalar> :| EncodeAll(cps) == s;
    cp := cps[0];
    var rest := EncodeAll(cps[1..]);
    assert s == Encode(cp) + rest;
    assert s[|Encode(cp)|..] == rest;
  }
}
