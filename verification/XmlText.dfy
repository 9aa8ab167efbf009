/** Character data of pugixml, read from left to right without a buffer: references, line ends, white space and
    terminators of comments, CDATA sections, PCDATA and attribute values. */
module XmlText {
  import opened Bytes
  import opened Utf8
  import opened XmlChars

  /** The parse buffer ends with a NUL. */
  predicate Terminated(src: bytes) {
    src != [] && src[|src| - 1] == '\0'
  }

  predicate IsSpace(c: byte) {
    c in ['\r', '\n', ' ', '\t']
  }

  // ----- references -----

  /** `utf8_writer::any` on an unsigned 32-bit value; the lead byte is truncated to eight bits. */
  function Utf8Any(ch: nat): (r: bytes)
    requires ch < 0x1_0000_0000
    ensures 1 <= |r| <= 4
  {
    if ch < 0x200000 then Encode(ch) else
    [Chr(0xF0 + ch / 0x40000 % 0x10), Chr(0x80 + ch / 0x1000 % 0x40), Chr(0x80 + ch / 0x40 % 0x40),
     Chr(0x80 + ch % 0x40)]
  }

  function HexDigit(c: byte): int {
    if '0' <= c <= '9' then c as int - '0' as int
    else if 'a' <= c <= 'f' then c as int - 'a' as int + 10
    else if 'A' <= c <= 'F' then c as int - 'A' as int + 10
    else -1
  }

  function DecDigit(c: byte): int {
    if '0' <= c <= '9' then c as int - '0' as int else -1
  }

  function DigitIn(c: byte, base: int): int {
    if base == 16 then HexDigit(c) else DecDigit(c)
  }

  /** The digit loop: the value modulo 2^32, where it stopped, and whether a semicolon stopped it. */
  function Digits(src: bytes, i: nat, base: int, ucsc: nat): (r: (bool, nat, nat))
    requires Terminated(src) && i < |src| && ucsc < 0x1_0000_0000
    ensures i <= r.1 < |src| && r.2 < 0x1_0000_0000
    ensures r.0 ==> r.1 + 1 < |src|
    decreases |src| - i
  {
    var d := DigitIn(src[i], base);
    if d >= 0 then Digits(src, i + 1, base, (ucsc * (if base == 16 then 16 else 10) + d) % 0x1_0000_0000)
    else (src[i] == ';', i, ucsc)
  }

  /** Compare `rest` from `i`: whether all of it matched, and where the comparison stopped. */
  function Walk(src: bytes, i: nat, rest: bytes): (r: (bool, nat))
    requires Terminated(src) && i < |src| && '\0' !in rest
    ensures i <= r.1 < |src|
    ensures r.0 ==> r.1 == i + |rest|
    decreases |rest|
  {
    if rest == [] then (true, i)
    else if src[i] == rest[0] then Walk(src, i + 1, rest[1..])
    else (false, i)
  }

  /** What stands for the input up to `next`. */
  datatype Piece = Piece(out: bytes, next: nat)

  function Named(src: bytes, i: nat, w: (bool, nat), c: byte): Piece
    requires i <= w.1 <= |src|
  {
    if w.0 then Piece([c], w.1) else Piece(src[i..w.1], w.1)
  }

  function Numeric(src: bytes, i: nat, j: nat, base: int): (r: Piece)
    requires Terminated(src) && i + 2 <= j < |src|
    ensures j <= r.next < |src| && |r.out| <= r.next - i
  {
    if src[j] == ';' then Piece(src[i..j], j) else
    var (ok, p, ucsc) := Digits(src, j, base, 0);
    if ok then assert p > j; Piece(Utf8Any(ucsc), p + 1) else Piece(src[i..p], p)
  }

  /** `strconv_escape` at an ampersand: a reference that is not well formed stays as it is, up to the byte
      where the match failed. */
  function Reference(src: bytes, i: nat): (r: Piece)
    requires Terminated(src) && i < |src| && src[i] == '&'
    ensures i < r.next < |src| && |r.out| <= r.next - i
  {
    match src[i + 1]
    case '#' =>
      if src[i + 2] == 'x' then Numeric(src, i, i + 3, 16) else Numeric(src, i, i + 2, 10)
    case 'a' =>
      if src[i + 2] == 'm' then Named(src, i, Walk(src, i + 3, "p;"), '&')
      else if src[i + 2] == 'p' then Named(src, i, Walk(src, i + 3, "os;"), '\'')
      else Piece(src[i..i + 2], i + 2)
    case 'g' => Named(src, i, Walk(src, i + 2, "t;"), '>')
    case 'l' => Named(src, i, Walk(src, i + 2, "t;"), '<')
    case 'q' => Named(src, i, Walk(src, i + 2, "uot;"), '\"')
    case _ => Piece(src[i..i + 1], i + 1)
  }

  // ----- the decoders -----

  datatype Kind =
    | Comment | Cdata
    | Pcdata(eol: bool, escape: bool)
    | AttributeSimple(escape: bool)
    | AttributeEol(escape: bool)
    | AttributeWconv(escape: bool)
    | AttributeWnorm(escape: bool)
  {
    predicate Attribute() {
      AttributeSimple? || AttributeEol? || AttributeWconv? || AttributeWnorm?
    }
  }

  datatype Step = Stop(next: nat) | Reject | Emit(piece: Piece)

  function SkipSpace(src: bytes, i: nat): (r: nat)
    requires Terminated(src) && i < |src|
    ensures i <= r < |src| && !IsSpace(src[r])
    decreases |src| - i
  {
    if IsSpace(src[i]) then SkipSpace(src, i + 1) else i
  }

  /** A carriage return, alone or with a line feed, becomes one `c`. */
  function Newline(src: bytes, i: nat, c: byte): Step
    requires i + 1 < |src|
  {
    Emit(Piece([c], if src[i + 1] == '\n' then i + 2 else i + 1))
  }

  /** `PUGI__ENDSWITH(c, '>')` */
  predicate EndsWith(c: byte, endch: byte) {
    c == '>' || (c == '\0' && endch == '>')
  }

  /** One decision of a decoder at `i`. `endch` is the character the parser cut off the end of its buffer, or the
      closing quote of an attribute. */
  function StepAt(kind: Kind, src: bytes, i: nat, endch: byte): (r: Step)
    requires Terminated(src) && i < |src|
    requires kind.Attribute() ==> endch == '\"' || endch == '\''
    ensures r.Emit? ==> i < r.piece.next < |src| && |r.piece.out| <= r.piece.next - i
    ensures r.Stop? ==> i <= r.next <= |src|
  {
    var c := src[i];
    var plain := Emit(Piece([c], i + 1));
    match kind
    case Comment =>
      if c == '\r' then Newline(src, i, '\n')
      else if c == '-' && src[i + 1] == '-' && EndsWith(src[i + 2], endch) then
        Stop(if src[i + 2] == '>' then i + 3 else i + 2)
      else if c == '\0' then Reject
      else plain
    case Cdata =>
      if c == '\r' then Newline(src, i, '\n')
      else if c == ']' && src[i + 1] == ']' && EndsWith(src[i + 2], endch) then Stop(i + 1)
      else if c == '\0' then Reject
      else plain
    case Pcdata(eol, escape) =>
      if c == '<' then Stop(i + 1)
      else if eol && c == '\r' then Newline(src, i, '\n')
      else if escape && c == '&' then Emit(Reference(src, i))
      else if c == '\0' then Stop(i)
      else plain
    case AttributeSimple(escape) =>
      if c == endch then Stop(i + 1)
      else if escape && c == '&' then Emit(Reference(src, i))
      else if c == '\0' then Reject
      else plain
    case AttributeEol(escape) =>
      if c == endch then Stop(i + 1)
      else if c == '\r' then Newline(src, i, '\n')
      else if escape && c == '&' then Emit(Reference(src, i))
      else if c == '\0' then Reject
      else plain
    case AttributeWconv(escape) =>
      if c == endch then Stop(i + 1)
      else if c == '\r' then Newline(src, i, ' ')
      else if IsSpace(c) then Emit(Piece(" ", i + 1))
      else if escape && c == '&' then Emit(Reference(src, i))
      else if c == '\0' then Reject
      else plain
    case AttributeWnorm(escape) =>
      if c == endch then Stop(i + 1)
      else if IsSpace(c) then Emit(Piece(" ", SkipSpace(src, i + 1)))
      else if escape && c == '&' then Emit(Reference(src, i))
      else if c == '\0' then Reject
      else plain
  }

  /** The decoded text and the index at which parsing goes on, or a missing terminator. */
  datatype Decoded = Rejected | Text(out: bytes, next: nat)

  function Prepend(a: bytes, d: Decoded): Decoded {
    if d.Rejected? then d else Text(a + d.out, d.next)
  }

  function Decode(kind: Kind, src: bytes, i: nat, endch: byte): (r: Decoded)
    requires Terminated(src) && i < |src|
    requires kind.Attribute() ==> endch == '\"' || endch == '\''
    ensures r.Text? ==> i <= r.next <= |src|
    decreases |src| - i
  {
    match StepAt(kind, src, i, endch)
    case Stop(next) => Text([], next)
    case Reject => Rejected
    case Emit(piece) => Prepend(piece.out, Decode(kind, src, piece.next, endch))
  }

  function TrimEnd(t: bytes): (r: bytes) {
    if t != [] && IsSpace(t[|t| - 1]) then TrimEnd(t[..|t| - 1]) else t
  }

  lemma PrependNothing(d: Decoded)
    ensures Prepend([], d) == d
  {
    if d.Text? {
      assert [] + d.out == d.out;
    }
  }

  lemma PrependTwice(a: bytes, b: bytes, d: Decoded)
    ensures Prepend(a, Prepend(b, d)) == Prepend(a + b, d)
  {
    if d.Text? {
      assert a + (b + d.out) == (a + b) + d.out;
    }
  }

  // ----- stretches of ordinary bytes -----

  /** The class a decoder scans for. */
  function StopClass(kind: Kind): CharType {
    match kind
    case Comment => ParseComment
    case Cdata => ParseCdata
    case Pcdata(_, _) => ParsePcdata
    case AttributeSimple(_) => ParseAttr
    case AttributeEol(_) => ParseAttr
    case AttributeWconv(_) => ParseAttrWs
    case AttributeWnorm(_) => ParseAttrWs
  }

  /** Bytes outside the scanned class are taken as they are, except the spaces that normalization also stops at. */
  lemma OrdinaryByte(kind: Kind, src: bytes, i: nat, endch: byte)
    requires Terminated(src) && i < |src| && !InClass(src[i], StopClass(kind))
    requires kind.Attribute() ==> endch == '\"' || endch == '\''
    requires kind.AttributeWnorm? ==> !IsSpace(src[i])
    ensures i + 1 < |src| && StepAt(kind, src, i, endch) == Emit(Piece([src[i]], i + 1))
  {
  }

  lemma {:induction false} OrdinaryStretch(kind: Kind, src: bytes, i: nat, j: nat, endch: byte)
    requires Terminated(src) && i <= j < |src|
    requires forall k :: i <= k < j ==> !InClass(src[k], StopClass(kind))
    requires kind.Attribute() ==> endch == '\"' || endch == '\''
    requires kind.AttributeWnorm? ==> forall k :: i <= k < j ==> !IsSpace(src[k])
    ensures Decode(kind, src, i, endch) == Prepend(src[i..j], Decode(kind, src, j, endch))
    decreases j - i
  {
    if i == j {
      PrependNothing(Decode(kind, src, j, endch));
    } else {
      OrdinaryByte(kind, src, i, endch);
      OrdinaryStretch(kind, src, i + 1, j, endch);
      PrependTwice([src[i]], src[i + 1..j], Decode(kind, src, j, endch));
      assert src[i..j] == [src[i]] + src[i + 1..j];
    }
  }
}
