/** Output encodings of pugixml: the UTF-8 decoder that drops malformed bytes, and the UTF-16, UTF-32 and Latin-1
    writers behind it. The machine is little-endian. */
module XmlTranscode {
  import opened Bytes
  import opened Utf8

  datatype Encoding = Native | Utf16(big: bool) | Utf32(big: bool) | Latin1

  /** A call of `Traits::high` (from a four-byte sequence) or of `Traits::low`. */
  datatype Point = Point(high: bool, ch: nat)

  predicate Continuation(b: byte) {
    Code(b) / 0x40 == 2
  }

  /** The sequence at the head of `data`: its point, if it is not malformed, and the bytes it takes. */
  function Head(data: bytes): (r: (seq<Point>, nat))
    requires data != []
    ensures 1 <= r.1 <= 4 && r.1 <= |data|
    ensures |r.0| <= 1 && forall p :: p in r.0 ==> p.ch < 0x200000 && (!p.high ==> p.ch < 0x10000)
  {
    var lead := Code(data[0]);
    if lead < 0x80 then
      ([Point(false, lead)], 1)
    else if 0xC0 <= lead < 0xE0 && |data| >= 2 && Continuation(data[1]) then
      ([Point(false, lead % 0x20 * 0x40 + Code(data[1]) % 0x40)], 2)
    else if 0xE0 <= lead < 0xF0 && |data| >= 3 && Continuation(data[1]) && Continuation(data[2]) then
      ([Point(false, lead % 0x10 * 0x1000 + Code(data[1]) % 0x40 * 0x40 + Code(data[2]) % 0x40)], 3)
    else if 0xF0 <= lead < 0xF8 && |data| >= 4 && Continuation(data[1]) && Continuation(data[2])
      && Continuation(data[3]) then
      ([Point(true, lead % 8 * 0x40000 + Code(data[1]) % 0x40 * 0x1000 + Code(data[2]) % 0x40 * 0x40
        + Code(data[3]) % 0x40)], 4)
    else
      ([], 1)
  }

  function Width(e: Encoding): nat {
    match e
    case Native => 1
    case Utf16(_) => 2
    case Utf32(_) => 4
    case Latin1 => 1
  }

  /** The code units a writer stores for one point, before any change of byte order. */
  function Units(e: Encoding, p: Point): (r: seq<nat>)
    requires p.ch < 0x200000 && (!p.high ==> p.ch < 0x10000)
    ensures |r| <= 2 && (|r| == 2 ==> e.Utf16? && p.high)
    ensures !e.Native?
      ==> forall u :: u in r ==> u < (match Width(e) case 1 => 0x100 case 2 => 0x10000 case _ => 0x1_0000_0000)
  {
    match e
    case Native => []
    case Utf16(_) =>
      if !p.high then [p.ch] else
      var x := (p.ch - 0x10000) % 0x1_0000_0000;
      [(0xD800 + x / 0x400) % 0x10000, 0xDC00 + x % 0x400]
    case Utf32(_) => [p.ch]
    case Latin1 => if p.high || p.ch > 255 then [0x3F] else [p.ch]
  }

  /** The bytes of one unit in memory, least significant first. */
  function Little(u: nat, width: nat): (r: bytes)
    requires width == 1 || width == 2 || width == 4
    ensures |r| == width
  {
    var a, b, c, d := u % 0x100, u / 0x100 % 0x100, u / 0x10000 % 0x100, u / 0x1000000 % 0x100;
    if width == 1 then [Chr(a)] else if width == 2 then [Chr(a), Chr(b)] else [Chr(a), Chr(b), Chr(c), Chr(d)]
  }

  function Big(u: nat, width: nat): (r: bytes)
    requires width == 1 || width == 2 || width == 4
    ensures |r| == width
  {
    var a, b, c, d := u % 0x100, u / 0x100 % 0x100, u / 0x10000 % 0x100, u / 0x1000000 % 0x100;
    if width == 1 then [Chr(a)] else if width == 2 then [Chr(b), Chr(a)] else [Chr(d), Chr(c), Chr(b), Chr(a)]
  }

  function UnitBytes(e: Encoding, u: nat): (r: bytes)
    ensures |r| == Width(e)
  {
    if (e.Utf16? || e.Utf32?) && e.big then Big(u, Width(e)) else Little(u, Width(e))
  }

  function Layout(e: Encoding, units: seq<nat>): (r: bytes)
    ensures |r| == |units| * Width(e)
  {
    if units == [] then [] else UnitBytes(e, units[0]) + Layout(e, units[1..])
  }

  /** What a converted chunk is, point by point; the native encoding is not converted. */
  function Transcode(e: Encoding, data: bytes): (r: bytes)
    ensures |r| <= 4 * |data|
  {
    if e.Native? then data
    else if data == [] then []
    else
      var (points, n) := Head(data);
      (if points == [] then [] else Layout(e, Units(e, points[0]))) + Transcode(e, data[n..])
  }

  // ----- splitting a conversion -----

  lemma HeadOfTwo(cp: nat, data: bytes)
    requires 0x80 <= cp < 0x800 && |data| >= 2
    requires Code(data[0]) == 0xC0 + cp / 0x40 && Code(data[1]) == 0x80 + cp % 0x40
    ensures Head(data) == ([Point(false, cp)], 2)
  {
  }

  lemma HeadOfThree(cp: nat, data: bytes)
    requires 0x800 <= cp < 0x10000 && |data| >= 3
    requires Code(data[0]) == 0xE0 + cp / 0x1000 && Code(data[1]) == 0x80 + cp / 0x40 % 0x40
    requires Code(data[2]) == 0x80 + cp % 0x40
    ensures Head(data) == ([Point(false, cp)], 3)
  {
    assert cp / 0x1000 * 0x1000 + cp / 0x40 % 0x40 * 0x40 + cp % 0x40 == cp;
  }

  lemma HeadOfFour(cp: nat, data: bytes)
    requires 0x10000 <= cp < 0x200000 && |data| >= 4
    requires Code(data[0]) == 0xF0 + cp / 0x40000 && Code(data[1]) == 0x80 + cp / 0x1000 % 0x40
    requires Code(data[2]) == 0x80 + cp / 0x40 % 0x40 && Code(data[3]) == 0x80 + cp % 0x40
    ensures Head(data) == ([Point(true, cp)], 4)
  {
    SixBits(cp);
    assert Code(data[0]) % 8 == cp / 0x40000 && Continuation(data[1]) && Continuation(data[2]) && Continuation(data[3]);
  }

  /** The decoder reads back what the encoder wrote, whatever follows. */
  lemma HeadOfEncoded(cp: scalar, rest: bytes)
    ensures Head(Encode(cp) + rest) == ([Point(cp >= 0x10000, cp)], |Encode(cp)|)
    ensures (Encode(cp) + rest)[|Encode(cp)|..] == rest
  {
    hide Head;
    var data := Encode(cp) + rest;
    assert data[|Encode(cp)|..] == rest;
    assert forall k :: 0 <= k < |Encode(cp)| ==> data[k] == Encode(cp)[k];
    if cp < 0x80 {
      assert Head(data) == ([Point(false, cp)], 1) by {
        HeadOfOne(cp, data);
      }
    } else if cp < 0x800 {
      HeadOfTwo(cp, data);
    } else if cp < 0x10000 {
      HeadOfThree(cp, data);
    } else {
      HeadOfFour(cp, data);
    }
  }

  lemma HeadOfOne(cp: nat, data: bytes)
    requires cp < 0x80 && data != [] && Code(data[0]) == cp
    ensures Head(data) == ([Point(false, cp)], 1)
  {
  }

  /** Only the first byte of a code point is not a continuation byte. */
  lemma EncodedStarts(cp: scalar)
    ensures !Continuation(Encode(cp)[0]) && forall k :: 1 <= k < |Encode(cp)| ==> Continuation(Encode(cp)[k])
  {
  }

  /** Cutting after a well-formed part changes nothing: the chunks of a text are converted independently. */
  lemma {:induction false} TranscodeSplits(e: Encoding, a: bytes, b: bytes)
    requires e.Native? || WellFormed(a)
    ensures Transcode(e, a + b) == Transcode(e, a) + Transcode(e, b)
    decreases |a|
  {
    hide Head, Layout, Units, Encode, WellFormed;
    if a == [] {
      assert a + b == b;
    } else if !e.Native? {
      var cp := SplitWellFormed(a);
      var n := |Encode(cp)|;
      HeadOfEncoded(cp, a[n..]);
      HeadOfEncoded(cp, a[n..] + b);
      assert a == Encode(cp) + a[n..];
      assert a + b == Encode(cp) + (a[n..] + b);
      TranscodeSplits(e, a[n..], b);
    }
  }

  /** One scalar value in an encoding of RFC 2781, UTF-32 or Latin-1. */
  function EncodeIn(e: Encoding, cp: scalar): bytes {
    if e.Native? then Encode(cp) else
    Layout(e,
      match e
      case Utf16(_) => if cp < 0x10000 then [cp] else [0xD800 + (cp - 0x10000) / 0x400, 0xDC00 + (cp - 0x10000) % 0x400]
      case Latin1 => if cp < 0x100 then [cp] else ['?' as nat]
      case _ => [cp])
  }

  /** Two or four bytes as a number, most significant first or last */
  function Number16(big: bool, r: bytes, k: nat): nat
    requires k + 2 <= |r|
  {
    if big then Code(r[k]) * 0x100 + Code(r[k + 1]) else Code(r[k + 1]) * 0x100 + Code(r[k])
  }

  function Number32(big: bool, r: bytes): nat
    requires |r| == 4
  {
    if big then Number16(big, r, 0) * 0x10000 + Number16(big, r, 2)
      else Number16(big, r, 2) * 0x10000 + Number16(big, r, 0)
  }

  /** The forms of section 2 of RFC 2781, of UTF-32 and of Latin-1, read from the bytes: one unit in the byte order of
      the encoding, a surrogate pair for what does not fit sixteen bits, a question mark for what does not fit eight. */
  lemma EncodingIsStandard(e: Encoding, cp: scalar)
    ensures var r := EncodeIn(e, cp);
      match e
      case Native => IsRow(cp, r)
      case Utf16(big) =>
        if cp < 0x10000 then |r| == 2 && Number16(big, r, 0) == cp
        else
          && |r| == 4
          && 0xD800 <= Number16(big, r, 0) <= 0xDBFF && 0xDC00 <= Number16(big, r, 2) <= 0xDFFF
          && cp == 0x10000 + (Number16(big, r, 0) - 0xD800) * 0x400 + (Number16(big, r, 2) - 0xDC00)
      case Utf32(big) => |r| == 4 && Number32(big, r) == cp
      case Latin1 => |r| == 1 && Code(r[0]) == if cp <= 0xFF then cp else 0x3F
  {
    hide Encode, IsRow, Layout, Number16, Number32, UnitBytes;
    match e
    case Native => EncodeIsRow(cp, Encode(cp));
    case Utf16(big) =>
      if cp < 0x10000 {
        OneUnit(e, cp);
        Bytes16(big, cp, cp);
      } else {
        var a, b := 0xD800 + (cp - 0x10000) / 0x400, 0xDC00 + (cp - 0x10000) % 0x400;
        TwoUnits(e, a, b);
        Bytes16(big, a, b);
      }
    case Utf32(big) =>
      OneUnit(e, cp);
      Bytes32(big, cp);
    case Latin1 =>
      OneUnit(e, if cp < 0x100 then cp else 0x3F);
      OneByte(if cp < 0x100 then cp else 0x3F);
  }

  lemma OneUnit(e: Encoding, a: nat)
    ensures Layout(e, [a]) == UnitBytes(e, a)
  {
    assert UnitBytes(e, a) + [] == UnitBytes(e, a);
  }

  lemma OneByte(a: nat)
    requires a < 0x100
    ensures Code(UnitBytes(Latin1, a)[0]) == a
  {
  }

  lemma Bytes16(big: bool, a: nat, b: nat)
    requires a < 0x10000 && b < 0x10000
    ensures |UnitBytes(Utf16(big), a)| == 2 && |UnitBytes(Utf16(big), b)| == 2
    ensures Number16(big, UnitBytes(Utf16(big), a), 0) == a
    ensures var r := UnitBytes(Utf16(big), a) + UnitBytes(Utf16(big), b);
      Number16(big, r, 0) == a && Number16(big, r, 2) == b
  {
  }

  lemma Bytes32(big: bool, a: nat)
    requires a < 0x1_0000_0000
    ensures |UnitBytes(Utf32(big), a)| == 4 && Number32(big, UnitBytes(Utf32(big), a)) == a
  {
    hide Big, Little, Number16;
    FourBytes(a);
    if big { HighFirst(a); } else { LowFirst(a); }
  }

  lemma FourBytes(u: nat)
    requires u < 0x1_0000_0000
    ensures u % 0x100 + u / 0x100 % 0x100 * 0x100 + (u / 0x10000 % 0x100 + u / 0x1000000 % 0x100 * 0x100) * 0x10000 == u
  {
    assert u % 0x10000 == u % 0x100 + u / 0x100 % 0x100 * 0x100;
    assert u / 0x10000 == u / 0x10000 % 0x100 + u / 0x1000000 % 0x100 * 0x100;
  }

  lemma HighFirst(u: nat)
    requires u < 0x1_0000_0000
    ensures var r := Big(u, 4);
      && Number16(true, r, 0) == u / 0x1000000 % 0x100 * 0x100 + u / 0x10000 % 0x100
      && Number16(true, r, 2) == u / 0x100 % 0x100 * 0x100 + u % 0x100
  {
  }

  lemma LowFirst(u: nat)
    requires u < 0x1_0000_0000
    ensures var r := Little(u, 4);
      && Number16(false, r, 0) == u / 0x100 % 0x100 * 0x100 + u % 0x100
      && Number16(false, r, 2) == u / 0x1000000 % 0x100 * 0x100 + u / 0x10000 % 0x100
  {
  }

  lemma TwoUnits(e: Encoding, a: nat, b: nat)
    ensures Layout(e, [a, b]) == UnitBytes(e, a) + UnitBytes(e, b)
  {
    assert [a, b][1..] == [b] && [b][1..] == [];
    assert UnitBytes(e, b) + [] == UnitBytes(e, b);
  }

  function EncodeAllIn(e: Encoding, cps: seq<scalar>): bytes {
    if cps == [] then [] else EncodeIn(e, cps[0]) + EncodeAllIn(e, cps[1..])
  }

  lemma EncodedPoint(e: Encoding, cp: scalar)
    requires !e.Native?
    ensures Layout(e, Units(e, Point(cp >= 0x10000, cp))) == EncodeIn(e, cp)
  {
    hide Layout;
  }

  /** The converted text is the same text in the other encoding. */
  lemma {:induction false} TranscodeIsExact(e: Encoding, cps: seq<scalar>)
    ensures Transcode(e, EncodeAll(cps)) == EncodeAllIn(e, cps)
    decreases |cps|
  {
    hide Head, Layout, Encode;
    if cps != [] && !e.Native? {
      TranscodeIsExact(e, cps[1..]);
      HeadOfEncoded(cps[0], EncodeAll(cps[1..]));
      EncodedPoint(e, cps[0]);
    } else if cps != [] {
      TranscodeIsExact(e, cps[1..]);
    }
  }

  // ----- well-formed parts of a text -----

  lemma {:induction false} JoinWellFormed(a: bytes, b: bytes)
    requires WellFormed(a) && WellFormed(b)
    ensures WellFormed(a + b)
    decreases |a|
  {
    hide WellFormed, Encode;
    if a == [] {
      assert a + b == b;
    } else {
      var cp := SplitWellFormed(a);
      var n := |Encode(cp)|;
      JoinWellFormed(a[n..], b);
      PrependWellFormed(cp, a[n..] + b);
      assert a + b == Encode(cp) + (a[n..] + b);
    }
  }

  lemma InsideContinues(s: bytes, cp: scalar, p: nat)
    requires 0 < p < |Encode(cp)| <= |s| && s[..|Encode(cp)|] == Encode(cp)
    ensures Continuation(s[p])
  {
    hide Encode;
    EncodedStarts(cp);
    assert s[p] == s[..|Encode(cp)|][p];
  }

  /** A well-formed text may be cut before any byte that is not a continuation byte. */
  lemma {:induction false} CutWellFormed(s: bytes, p: nat)
    requires WellFormed(s) && p <= |s| && (p < |s| ==> !Continuation(s[p]))
    ensures WellFormed(s[..p]) && WellFormed(s[p..])
    decreases |s|
  {
    hide WellFormed, Encode;
    if p == 0 {
      EmptyWellFormed();
      assert s[..0] == [] && s[0..] == s;
    } else {
      var cp := SplitWellFormed(s);
      var n := |Encode(cp)|;
      if p < n {
        InsideContinues(s, cp, p);
      }
      CutWellFormed(s[n..], p - n);
      assert s[n..][..p - n] == s[n..p] && s[n..][p - n..] == s[p..];
      PrependWellFormed(cp, s[n..p]);
      assert s[..p] == s[..n] + s[n..p];
    }
  }

  /** Four bytes in a row hold the start of a code point. */
  lemma {:induction false} StartWithinFour(s: bytes, p: nat) returns (k: nat)
    requires WellFormed(s) && p + 4 <= |s|
    ensures p <= k < p + 4 && !Continuation(s[k])
    decreases |s|
  {
    hide WellFormed;
    var cp := SplitWellFormed(s);
    var n := |Encode(cp)|;
    EncodedStarts(cp);
    hide Encode, Continuation;
    if p == 0 {
      k := 0;
      assert s[0] == s[..n][0] == Encode(cp)[0];
    } else if p >= n {
      var j := StartWithinFour(s[n..], p - n);
      k := n + j;
      assert s[n..][j] == s[k];
    } else {
      k := n;
      var next := SplitWellFormed(s[n..]);
      EncodedStarts(next);
      assert s[n] == s[n..][..|Encode(next)|][0] == Encode(next)[0];
    }
  }

  lemma AsciiWellFormed(d: bytes)
    requires forall k :: 0 <= k < |d| ==> Code(d[k]) < 0x80
    ensures WellFormed(d)
  {
    if d == [] {
      EmptyWellFormed();
    } else {
      AsciiWellFormed(d[1..]);
      PrependWellFormed(Code(d[0]), d[1..]);
      assert d == Encode(Code(d[0])) + d[1..];
    }
  }

  // ----- the conversion as it runs -----

  /** `get_valid_length`: how much of a chunk ends before the start of its last code point. */
  method GetValidLength(data: bytes, length: nat) returns (n: nat)
    requires length <= |data|
    ensures n <= length && (length < 5 ==> n == 0)
    ensures WellFormed(data) ==> WellFormed(data[..n]) && WellFormed(data[n..])
    ensures WellFormed(data) && length >= 5 ==> length - 4 <= n
  {
    hide WellFormed, Continuation;
    if length < 5 {
      EmptyWellFormed();
      assert data[..0] == [] && data[0..] == data;
      return 0;
    }
    for i := 1 to 5
      invariant forall k :: length - i < k < length ==> Continuation(data[k])
    {
      var ch := data[length - i];
      if !Continuation(ch) {
        if WellFormed(data) {
          CutWellFormed(data, length - i);
        }
        return length - i;
      }
    }
    if WellFormed(data) {
      var k := StartWithinFour(data, length - 4);
      assert false;
    }
    return length;
  }

  function EndianSwap(u: nat, width: nat): nat
    requires width == 2 || width == 4
  {
    if width == 2 then u % 0x100 * 0x100 + u / 0x100 % 0x100
    else u % 0x100 * 0x1000000 + u / 0x100 % 0x100 * 0x10000 + u / 0x10000 % 0x100 * 0x100 + u / 0x1000000 % 0x100
  }

  lemma SwapReverses(u: nat, width: nat)
    requires width == 2 || width == 4
    ensures Little(EndianSwap(u, width), width) == Big(u, width)
  {
    var a, b, c, d := u % 0x100, u / 0x100 % 0x100, u / 0x10000 % 0x100, u / 0x1000000 % 0x100;
    BytesOf(d, c, b, a);
    BytesOf(b, a, 0, 0);
  }

  lemma BytesOf(a: nat, b: nat, c: nat, d: nat)
    requires a < 0x100 && b < 0x100 && c < 0x100 && d < 0x100
    ensures var v := d * 0x1000000 + c * 0x10000 + b * 0x100 + a;
      v % 0x100 == a && v / 0x100 % 0x100 == b && v / 0x10000 % 0x100 == c && v / 0x1000000 % 0x100 == d
  {
    var v1, v2 := d * 0x100 + c, d * 0x10000 + c * 0x100 + b;
    assert v2 == v1 * 0x100 + b && v1 / 0x100 == d && v2 / 0x100 == v1;
  }

  function InMachineOrder(e: Encoding): Encoding {
    match e
    case Utf16(_) => Utf16(false)
    case Utf32(_) => Utf32(false)
    case _ => e
  }

  lemma {:induction false} LayoutAppends(e: Encoding, a: seq<nat>, b: seq<nat>)
    ensures Layout(e, a + b) == Layout(e, a) + Layout(e, b)
    decreases |a|
  {
    hide UnitBytes;
    if a == [] {
      assert a + b == b;
    } else {
      LayoutAppends(e, a[1..], b);
      assert (a + b)[1..] == a[1..] + b;
    }
  }

  lemma {:induction false} LayoutSwapped(e: Encoding, units: seq<nat>, swapped: seq<nat>)
    requires (e.Utf16? || e.Utf32?) && e.big && |swapped| == |units|
    requires forall k :: 0 <= k < |units| ==> swapped[k] == EndianSwap(units[k], Width(e))
    ensures Layout(InMachineOrder(e), swapped) == Layout(e, units)
    decreases |units|
  {
    hide Little, Big, EndianSwap;
    if units != [] {
      SwapReverses(units[0], Width(e));
      LayoutSwapped(e, units[1..], swapped[1..]);
    }
  }

  /** The units written so far and the conversion of the rest make up the whole. */
  ghost predicate Converting(e: Encoding, data: bytes, i: nat, units: seq<nat>) {
    !e.Native? && i <= |data| && Layout(e, units) + Transcode(e, data[i..]) == Transcode(e, data)
  }

  lemma TranscodeStep(e: Encoding, data: bytes)
    requires !e.Native? && data != []
    ensures var (points, n) := Head(data);
      Transcode(e, data) == Layout(e, if points == [] then [] else Units(e, points[0])) + Transcode(e, data[n..])
  {
    hide Head, Units;
  }

  lemma ConvertStep(e: Encoding, data: bytes, i: nat, units: seq<nat>)
    requires Converting(e, data, i, units) && i < |data|
    ensures var (points, n) := Head(data[i..]);
      Converting(e, data, i + n, units + if points == [] then [] else Units(e, points[0]))
  {
    hide Head, Units, Layout, Transcode;
    var (points, n) := Head(data[i..]);
    TranscodeStep(e, data[i..]);
    var more := if points == [] then [] else Units(e, points[0]);
    LayoutAppends(e, units, more);
    assert data[i..][n..] == data[i + n..];
  }

  /** `utf8_decoder::process` with a writer: blocks of four ASCII bytes are taken at once where the address is
      aligned. */
  method Process(data: bytes, address: nat, e: Encoding) returns (units: seq<nat>)
    requires !e.Native?
    ensures Layout(e, units) == Transcode(e, data)
  {
    hide Transcode, Layout, Units;
    units := [];
    var i := 0;
    Starts(e, data);
    while i < |data|
      invariant Converting(e, data, i, units)
    {
      var lead := Code(data[i]);
      ConvertStep(e, data, i, units);
      var (points, n) := Head(data[i..]);
      units := units + if points == [] then [] else Units(e, points[0]);
      i := i + n;
      if lead < 0x80 && (address + i) % 4 == 0 {
        while |data| - i >= 4 && Code(data[i]) < 0x80 && Code(data[i + 1]) < 0x80 && Code(data[i + 2]) < 0x80
          && Code(data[i + 3]) < 0x80
          invariant Converting(e, data, i, units)
          decreases |data| - i
        {
          ghost var start, before := i, units;
          for k := 0 to 4
            invariant i == start + k <= start + 4 <= |data|
            invariant Converting(e, data, i, units)
            invariant forall m :: start <= m < start + 4 ==> Code(data[m]) < 0x80
          {
            ConvertStep(e, data, i, units);
            assert data[i..][0] == data[i];
            units := units + Units(e, Point(false, Code(data[i])));
            i := i + 1;
          }
        }
      }
    }
    Finishes(e, data, units);
  }

  lemma Starts(e: Encoding, data: bytes)
    requires !e.Native?
    ensures Converting(e, data, 0, [])
  {
    assert data[0..] == data;
  }

  lemma Finishes(e: Encoding, data: bytes, units: seq<nat>)
    requires Converting(e, data, |data|, units)
    ensures Layout(e, units) == Transcode(e, data)
  {
  }

  /** `convert_buffer_output`: units in the byte order of the machine, swapped afterwards where the encoding asks for
      it. */
  method ConvertBufferOutput(data: bytes, address: nat, e: Encoding) returns (scratch: bytes)
    requires !e.Native?
    ensures scratch == Transcode(e, data) && |scratch| <= 4 * |data|
  {
    var units := Process(data, address, e);
    if (e.Utf16? || e.Utf32?) && e.big {
      ghost var before := units;
      for i := 0 to |units|
        invariant |units| == |before|
        invariant forall k :: 0 <= k < i ==> units[k] == EndianSwap(before[k], Width(e))
        invariant forall k :: i <= k < |units| ==> units[k] == before[k]
      {
        units := units[i := EndianSwap(units[i], Width(e))];
      }
      LayoutSwapped(e, before, units);
    } else {
      SameLayout(e, units);
    }
    scratch := Layout(InMachineOrder(e), units);
  }

  lemma {:induction false} SameLayout(e: Encoding, units: seq<nat>)
    requires !((e.Utf16? || e.Utf32?) && e.big)
    ensures Layout(InMachineOrder(e), units) == Layout(e, units)
  {
    assert InMachineOrder(e) == e;
  }
}
