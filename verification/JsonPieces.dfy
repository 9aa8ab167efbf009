/** The strings of section 7 of RFC 8259, piece by piece, and what the reader makes of every one of them. */
module JsonPieces {
  import opened Bytes
  import opened Utf8
  import opened Places
  import opened JsonStrings

  /** A byte taken as it is, a two-character escape, or `\u` with four hexadecimal digits. */
  datatype Piece = Plain(c: byte) | Short(letter: byte) | Unicode(digits: bytes)

  /** The letters of the two-character escapes, and what they stand for. */
  const LETTERS: bytes := "\"\\/bfnrt"
  const ESCAPED: bytes := "\"\\/\U{8}\U{c}\n\r\t"

  /** The pieces the reader knows. It takes control characters as they are, which the standard does not. */
  predicate Valid(p: Piece) {
    match p
    case Plain(c) => c != '\"' && c != '\\'
    case Short(letter) => letter in LETTERS
    case Unicode(digits) => |digits| == 4 && AllDigitsOf(digits, 16)
  }

  predicate AllValid(ps: seq<Piece>) {
    forall k :: 0 <= k < |ps| ==> Valid(ps[k])
  }

  /** The pieces of the standard. */
  predicate Standard(ps: seq<Piece>) {
    AllValid(ps) && forall k :: 0 <= k < |ps| ==> ps[k].Plain? ==> Code(ps[k].c) >= 0x20
  }

  function Written(p: Piece): (t: bytes)
    ensures t != []
  {
    match p
    case Plain(c) => [c]
    case Short(letter) => ['\\', letter]
    case Unicode(digits) => "\\u" + digits
  }

  function Body(ps: seq<Piece>): bytes {
    if ps == [] then [] else Written(ps[0]) + Body(ps[1..])
  }

  function Quoted(ps: seq<Piece>): bytes {
    "\"" + Body(ps) + "\""
  }

  predicate IsLead(u: nat) {
    0xD800 <= u <= 0xDBFF
  }

  /** The code point of a surrogate pair (section 3 of RFC 2781); of the trail only the low ten bits count. */
  function Joined(lead: nat, trail: nat): (cp: nat)
    requires IsLead(lead)
    ensures 0x10000 <= cp <= 0x10FFFF
  {
    0x10000 + (lead - 0xD800) * 0x400 + trail % 0x400
  }

  /** What valid pieces denote. A lead surrogate takes the `\u` piece behind it, and without one there is nothing. */
  function Denoted(ps: seq<Piece>): Option<bytes>
    decreases |ps|
  {
    if ps == [] then Some([]) else
    if !Valid(ps[0]) then None else
    match ps[0]
    case Plain(c) => Prepend([c], Denoted(ps[1..]))
    case Short(letter) => Prepend([ESCAPED[Place(LETTERS, letter)]], Denoted(ps[1..]))
    case Unicode(digits) =>
      var u := Positional(digits, 16);
      FourDigits(digits);
      if !IsLead(u) then Prepend(Encode(u), Denoted(ps[1..]))
      else if |ps| > 1 && ps[1].Unicode? then
        Prepend(Encode(Joined(u, Positional(ps[1].digits, 16))), Denoted(ps[2..]))
      else None
  }

  lemma FourDigits(t: bytes)
    requires |t| == 4 && AllDigitsOf(t, 16)
    ensures Positional(t, 16) < 0x10000
    ensures Positional(t, 16) == ValueOf(t[0], 16) * 0x1000 + ValueOf(t[1], 16) * 0x100 + ValueOf(t[2], 16) * 0x10
      + ValueOf(t[3], 16)
  {
    hide IsDigitOf, ValueOf;
    ValueBelowBase(t[0], 16);
    ValueBelowBase(t[1], 16);
    ValueBelowBase(t[2], 16);
    ValueBelowBase(t[3], 16);
    assert t[..3][..2] == t[..2] && t[..2][..1] == t[..1] && t[..1][..0] == [];
    assert Positional(t[..1], 16) == ValueOf(t[0], 16);
    assert Positional(t[..2], 16) == ValueOf(t[0], 16) * 0x10 + ValueOf(t[1], 16);
    assert Positional(t[..3], 16) == Positional(t[..2], 16) * 0x10 + ValueOf(t[2], 16);
  }

  // ----- digits and escapes -----

  lemma HexValueIsPlace(c: byte)
    ensures HexValue(c) == if IsDigitOf(c, 16) then Some(ValueOf(c, 16)) else None
  {
    hide IsDigitOf, ValueOf;
    HexPlace(c);
  }

  lemma EscapeIsPlace(c: byte)
    ensures SimpleEscape(c) == if c in LETTERS then Some(ESCAPED[Place(LETTERS, c)]) else None
    ensures 'u' !in LETTERS
  {
    if c in LETTERS {
      var k := Place(LETTERS, c);
      assert SimpleEscape(LETTERS[k]) == Some(ESCAPED[k]) by { EscapeAt(k); }
    }
  }

  lemma EscapeAt(k: nat)
    requires k < 8
    ensures SimpleEscape(LETTERS[k]) == Some(ESCAPED[k])
  {
    match k
    case 0 => case 1 => case 2 => case 3 => case 4 => case 5 => case 6 => case 7 =>
  }

  /** Four digits of either case give their positional value, and anything else gives nothing. */
  lemma FourDigitsRead(doc: bytes, i: nat, end: nat)
    requires i + 4 <= end <= |doc|
    ensures DecodeHex4(doc, i, end)
      == if AllDigitsOf(doc[i..i + 4], 16) then Some(Positional(doc[i..i + 4], 16)) else None
  {
    hide IsDigitOf, ValueOf, HexValue;
    var t := doc[i..i + 4];
    HexValueIsPlace(t[0]);
    HexValueIsPlace(t[1]);
    HexValueIsPlace(t[2]);
    HexValueIsPlace(t[3]);
    HexFour(doc, i);
    if AllDigitsOf(t, 16) {
      FourDigits(t);
    }
  }

  lemma HexFour(doc: bytes, i: nat)
    requires i + 4 <= |doc|
    ensures var a, b, c, d := HexValue(doc[i]), HexValue(doc[i + 1]), HexValue(doc[i + 2]), HexValue(doc[i + 3]);
      HexDigits(doc, i, 4)
      == if a.None? || b.None? || c.None? || d.None? then None
         else Some(a.value * 0x1000 + b.value * 0x100 + c.value * 0x10 + d.value)
  {
    hide HexValue;
    HexOne(doc, i, 0);
    HexOne(doc, i, 1);
    HexOne(doc, i, 2);
    HexOne(doc, i, 3);
    hide HexDigits;
  }

  lemma HexOne(doc: bytes, i: nat, n: nat)
    requires i + n + 1 <= |doc|
    ensures HexDigits(doc, i, n + 1)
      == var (high, low) := (HexDigits(doc, i, n), HexValue(doc[i + n]));
         if high.None? || low.None? then None else Some(high.value * 16 + low.value)
    ensures HexDigits(doc, i, 0) == Some(0)
  {
    hide HexValue;
  }

  // ----- the scan and the decoder -----

  /** The scan steps over a piece. */
  lemma PieceScanned(p: Piece, doc: bytes, i: nat)
    requires Valid(p) && At(doc, i, Written(p))
    ensures i + |Written(p)| <= |doc| && ScanString(doc, i) == ScanString(doc, i + |Written(p)|)
  {
    var t := Written(p);
    AtByte(doc, i, t, 0);
    match p
    case Plain(c) =>
    case Short(letter) =>
    case Unicode(digits) => UnicodeScanned(digits, doc, i);
  }

  lemma UnicodeScanned(d: bytes, doc: bytes, i: nat)
    requires Valid(Unicode(d)) && At(doc, i, "\\u" + d)
    ensures i + 6 <= |doc| && ScanString(doc, i) == ScanString(doc, i + 6)
  {
    hide IsDigitOf;
    UnicodeAt(d, doc, i);
    DigitScanned(d, doc, i + 2, 0);
    DigitScanned(d, doc, i + 2, 1);
    DigitScanned(d, doc, i + 2, 2);
    DigitScanned(d, doc, i + 2, 3);
    assert ScanString(doc, i) == ScanString(doc, i + 2);
  }

  lemma DigitScanned(d: bytes, doc: bytes, i: nat, k: nat)
    requires AllDigitsOf(d, 16) && k < |d| && i + |d| <= |doc| && doc[i..i + |d|] == d
    ensures ScanString(doc, i + k) == ScanString(doc, i + k + 1)
  {
    hide IsDigitOf;
    HexPlace(d[k]);
    assert doc[i + k] == d[k];
  }

  lemma PlainDecoded(c: byte, doc: bytes, i: nat, end: nat)
    requires Valid(Plain(c)) && At(doc, i, [c]) && i + 1 <= end <= |doc|
    ensures DecodeBody(doc, i, end) == Prepend([c], DecodeBody(doc, i + 1, end))
  {
    AtByte(doc, i, [c], 0);
  }

  lemma ShortDecoded(letter: byte, doc: bytes, i: nat, end: nat)
    requires Valid(Short(letter)) && At(doc, i, ['\\', letter]) && i + 2 <= end <= |doc|
    ensures DecodeBody(doc, i, end) == Prepend([ESCAPED[Place(LETTERS, letter)]], DecodeBody(doc, i + 2, end))
  {
    hide SimpleEscape, DecodeCodePoint;
    AtByte(doc, i, ['\\', letter], 0);
    AtByte(doc, i, ['\\', letter], 1);
    EscapeIsPlace(letter);
  }

  lemma UnicodeDecoded(d: bytes, doc: bytes, i: nat, end: nat)
    requires Valid(Unicode(d)) && At(doc, i, "\\u" + d) && i + 6 <= end <= |doc|
    requires !IsLead(Positional(d, 16))
    ensures Positional(d, 16) < 0x10000
    ensures DecodeBody(doc, i, end) == Prepend(Encode(Positional(d, 16)), DecodeBody(doc, i + 6, end))
  {
    hide IsDigitOf, ValueOf, Positional, DecodeHex4, Encode;
    UnicodeAt(d, doc, i);
    FourDigits(d);
    FourDigitsRead(doc, i + 2, end);
  }

  lemma UnicodeAt(d: bytes, doc: bytes, i: nat)
    requires |d| == 4 && At(doc, i, "\\u" + d)
    ensures i + 6 <= |doc| && doc[i] == '\\' && doc[i + 1] == 'u' && doc[i + 2..i + 6] == d
  {
    AtSplit(doc, i, "\\u", d);
    AtByte(doc, i, "\\u", 0);
    AtByte(doc, i, "\\u", 1);
  }

  lemma PairDecoded(d: bytes, e: bytes, doc: bytes, i: nat, end: nat)
    requires Valid(Unicode(d)) && Valid(Unicode(e)) && At(doc, i, "\\u" + d) && At(doc, i + 6, "\\u" + e)
    requires i + 12 <= end <= |doc| && IsLead(Positional(d, 16))
    ensures DecodeBody(doc, i, end)
      == Prepend(Encode(Joined(Positional(d, 16), Positional(e, 16))), DecodeBody(doc, i + 12, end))
  {
    hide IsDigitOf, ValueOf, Positional, DecodeHex4, Encode;
    UnicodeAt(d, doc, i);
    UnicodeAt(e, doc, i + 6);
    FourDigits(d);
    FourDigits(e);
    FourDigitsRead(doc, i + 2, end);
    FourDigitsRead(doc, i + 8, end);
    LeadBits(Positional(d, 16));
  }

  lemma LeadBits(u: nat)
    requires IsLead(u)
    ensures u % 0x400 == u - 0xD800
  {
  }

  /** A lead surrogate without a `\u` piece behind it. */
  lemma LoneLeadFails(d: bytes, rest: seq<Piece>, doc: bytes, i: nat, end: nat)
    requires Valid(Unicode(d)) && AllValid(rest) && IsLead(Positional(d, 16)) && (rest == [] || !rest[0].Unicode?)
    requires At(doc, i, "\\u" + d) && At(doc, i + 6, Body(rest)) && end == i + 6 + |Body(rest)|
    ensures end <= |doc| && DecodeBody(doc, i, end) == None
  {
    hide IsDigitOf, ValueOf, Positional, DecodeHex4, Encode;
    UnicodeAt(d, doc, i);
    FourDigits(d);
    FourDigitsRead(doc, i + 2, end);
    if rest != [] {
      NoUnicodeNext(rest, doc, i + 6);
    }
  }

  lemma NoUnicodeNext(ps: seq<Piece>, doc: bytes, i: nat)
    requires ps != [] && AllValid(ps) && !ps[0].Unicode? && At(doc, i, Body(ps))
    ensures i < |doc| && (doc[i] == '\\' ==> i + 1 < |doc| && doc[i + 1] != 'u')
  {
    var t := Written(ps[0]);
    AtSplit(doc, i, t, Body(ps[1..]));
    AtByte(doc, i, t, 0);
    if ps[0].Short? {
      AtByte(doc, i, t, 1);
      EscapeIsPlace(ps[0].letter);
    }
  }

  lemma BodySplit(ps: seq<Piece>)
    requires ps != []
    ensures Body(ps) == Written(ps[0]) + Body(ps[1..])
    ensures |ps| > 1 ==> Body(ps[1..]) == Written(ps[1]) + Body(ps[2..])
  {
    if |ps| > 1 {
      assert ps[1..][1..] == ps[2..];
    }
  }

  lemma PartsValid(ps: seq<Piece>, k: nat)
    requires AllValid(ps) && k <= |ps|
    ensures AllValid(ps[k..]) && (k > 0 ==> Valid(ps[k - 1]))
  {
  }

  lemma {:induction false} PiecesScanned(ps: seq<Piece>, doc: bytes, i: nat)
    requires AllValid(ps) && At(doc, i, Body(ps) + "\"")
    ensures ScanString(doc, i) == Some(i + |Body(ps)| + 1)
    decreases |ps|
  {
    hide Valid, Written;
    if ps == [] {
      AtByte(doc, i, "\"", 0);
    } else {
      var t, rest := Written(ps[0]), Body(ps[1..]);
      assert Body(ps) + "\"" == t + (rest + "\"");
      AtSplit(doc, i, t, rest + "\"");
      PieceScanned(ps[0], doc, i);
      PiecesScanned(ps[1..], doc, i + |t|);
    }
  }

  lemma {:induction false} PiecesDecoded(ps: seq<Piece>, doc: bytes, i: nat, end: nat)
    requires AllValid(ps) && At(doc, i, Body(ps)) && end == i + |Body(ps)|
    ensures end <= |doc| && DecodeBody(doc, i, end) == Denoted(ps)
    decreases |ps|
  {
    hide Valid, Positional, Place, DecodeBody, Encode, Joined;
    if ps == [] {
      NothingDecoded(doc, i);
    } else {
      BodySplit(ps);
      PartsValid(ps, 1);
      var t := Written(ps[0]);
      AtSplit(doc, i, t, Body(ps[1..]));
      match ps[0]
      case Plain(c) =>
        PlainDecoded(c, doc, i, end);
        PiecesDecoded(ps[1..], doc, i + 1, end);
      case Short(letter) =>
        ShortDecoded(letter, doc, i, end);
        PiecesDecoded(ps[1..], doc, i + 2, end);
      case Unicode(d) =>
        FourLong(d);
        if !IsLead(Positional(d, 16)) {
          PiecesDecoded(ps[1..], doc, i + 6, end);
        } else if |ps| > 1 && ps[1].Unicode? {
          PartsValid(ps, 2);
          FourLong(ps[1].digits);
          AtSplit(doc, i + 6, Written(ps[1]), Body(ps[2..]));
          PiecesDecoded(ps[2..], doc, i + 12, end);
        }
        FirstIsUnicode(ps, doc, i, end);
    }
  }

  /** The decoder at a `\u` piece, what follows being decoded already. */
  lemma FirstIsUnicode(ps: seq<Piece>, doc: bytes, i: nat, end: nat)
    requires AllValid(ps) && At(doc, i, Body(ps)) && end == i + |Body(ps)| <= |doc| && ps != [] && ps[0].Unicode?
    requires i + 6 <= end && At(doc, i, Written(ps[0])) && At(doc, i + 6, Body(ps[1..]))
    requires !IsLead(Positional(ps[0].digits, 16)) ==> DecodeBody(doc, i + 6, end) == Denoted(ps[1..])
    requires IsLead(Positional(ps[0].digits, 16)) && |ps| > 1 && ps[1].Unicode? ==>
      i + 12 <= end && At(doc, i + 6, Written(ps[1])) && DecodeBody(doc, i + 12, end) == Denoted(ps[2..])
    ensures DecodeBody(doc, i, end) == Denoted(ps)
  {
    hide IsDigitOf, Positional, DecodeBody, Encode, Joined;
    var d := ps[0].digits;
    BodySplit(ps);
    FourDigits(d);
    if !IsLead(Positional(d, 16)) {
      UnicodeDecoded(d, doc, i, end);
    } else if |ps| > 1 && ps[1].Unicode? {
      PairDecoded(d, ps[1].digits, doc, i, end);
    } else {
      LoneLeadFails(d, ps[1..], doc, i, end);
    }
  }

  lemma NothingDecoded(doc: bytes, i: nat)
    requires i <= |doc|
    ensures DecodeBody(doc, i, i) == Some([])
  {
  }

  lemma FourLong(d: bytes)
    requires Valid(Unicode(d))
    ensures |d| == 4
  {
  }

  /** Every string of pieces between quotes is found whole and decoded to what its pieces denote. */
  lemma StringIsRead(ps: seq<Piece>, doc: bytes, i: nat)
    requires AllValid(ps) && At(doc, i, Quoted(ps))
    ensures i < i + |Quoted(ps)| <= |doc| && doc[i] == '\"'
    ensures ScanString(doc, i + 1) == Some(i + |Quoted(ps)|)
    ensures DecodeBody(doc, i + 1, i + |Quoted(ps)| - 1) == Denoted(ps)
  {
    hide AllValid, Body, Denoted, DecodeBody, ScanString;
    var body := Body(ps);
    assert Quoted(ps) == "\"" + (body + "\"");
    AtSplit(doc, i, "\"", body + "\"");
    AtByte(doc, i, "\"", 0);
    PiecesScanned(ps, doc, i + 1);
    AtSplit(doc, i + 1, body, "\"");
    PiecesDecoded(ps, doc, i + 1, i + 1 + |body|);
  }

  // ----- what the writer writes -----

  /** The pieces of the character at `i`. */
  function PiecesAt(s: bytes, i: nat): seq<Piece>
    requires i < |s|
  {
    match s[i]
    case '\"' => [Short('\"')]
    case '\\' => [Short('\\')]
    case '\U{8}' => [Short('b')]
    case '\U{c}' => [Short('f')]
    case '\n' => [Short('n')]
    case '\r' => [Short('r')]
    case '\t' => [Short('t')]
    case _ =>
      var cp := ToCodepoint(s, i).0;
      if 0x20 <= cp <= 0x7F then [Plain(Chr(cp))]
      else if cp < 0x10000 then [Unicode(Hex16(cp))]
      else SurrogateArithmetic(cp); [Unicode(Hex16(High(cp))), Unicode(Hex16(Low(cp)))]
  }

  function PiecesOf(s: bytes, i: nat): seq<Piece>
    requires i <= |s|
    decreases |s| - i
  {
    if i == |s| then [] else PiecesAt(s, i) + PiecesOf(s, i + QuoteStep(s, i).1)
  }

  lemma {:induction false} BodyJoins(a: seq<Piece>, b: seq<Piece>)
    ensures Body(a + b) == Body(a) + Body(b)
    decreases |a|
  {
    hide Written;
    if a == [] {
      assert a + b == b;
    } else {
      BodyJoins(a[1..], b);
      assert (a + b)[1..] == a[1..] + b;
      assert Written(a[0]) + (Body(a[1..]) + Body(b)) == Written(a[0]) + Body(a[1..]) + Body(b);
    }
  }

  lemma HexDigitsAreDigits(x: int)
    requires 0 <= x < 0x10000
    ensures AllDigitsOf(Hex16(x), 16)
  {
    hide IsDigitOf, HexDigit;
    HexDigitIsDigit(x / 0x1000);
    HexDigitIsDigit(x / 0x100 % 0x10);
    HexDigitIsDigit(x / 0x10 % 0x10);
    HexDigitIsDigit(x % 0x10);
  }

  lemma HexDigitIsDigit(n: int)
    requires 0 <= n < 16
    ensures IsDigitOf(HexDigit(n), 16)
  {
    hide IsDigitOf;
    HexPlace(HexDigit(n));
  }

  lemma StepIsPieces(s: bytes, i: nat)
    requires i < |s|
    ensures Body(PiecesAt(s, i)) == QuoteStep(s, i).0 && Standard(PiecesAt(s, i))
  {
    hide IsDigitOf, Hex16, ToCodepoint, High, Low;
    var ps := PiecesAt(s, i);
    var cp := ToCodepoint(s, i).0;
    BodyOfFew(ps);
    if !HasShortEscape(s[i]) {
      if 0x20 <= cp <= 0x7F {
        CodepointIsAscii(s, i);
      } else if cp < 0x10000 {
        HexDigitsAreDigits(cp);
      } else {
        SurrogateArithmetic(cp);
        HexDigitsAreDigits(High(cp));
        HexDigitsAreDigits(Low(cp));
      }
    }
  }

  lemma BodyOfFew(ps: seq<Piece>)
    ensures |ps| == 1 ==> Body(ps) == Written(ps[0])
    ensures |ps| == 2 ==> Body(ps) == Written(ps[0]) + Written(ps[1])
  {
    hide Written;
    if |ps| == 2 {
      assert ps[1..] == [ps[1]] && ps[1..][1..] == [];
    }
  }

  lemma {:induction false} QuoteBodyIsPieces(s: bytes, i: nat)
    requires i <= |s|
    ensures QuoteBody(s, i) == Body(PiecesOf(s, i)) && Standard(PiecesOf(s, i))
    decreases |s| - i
  {
    hide QuoteStep, PiecesAt, Valid;
    if i < |s| {
      var n := QuoteStep(s, i).1;
      StepIsPieces(s, i);
      QuoteBodyIsPieces(s, i + n);
      BodyJoins(PiecesAt(s, i), PiecesOf(s, i + n));
    }
  }

  /** A quoted string is a string of the standard, and its pieces denote the string if it is well-formed UTF-8. */
  lemma QuoteIsPieces(s: bytes)
    ensures Quote(s) == Quoted(PiecesOf(s, 0)) && Standard(PiecesOf(s, 0))
    ensures WellFormed(s) ==> Denoted(PiecesOf(s, 0)) == Some(s)
  {
    hide QuoteBody, PiecesOf, Standard, Denoted, WellFormed, Body, AllValid;
    var ps, doc := PiecesOf(s, 0), Quote(s);
    QuoteBodyIsPieces(s, 0);
    StandardIsValid(ps);
    AtWhole(doc);
    StringIsRead(ps, doc, 0);
    StringSurvivesIffWellFormed(s, doc, 0);
  }

  lemma StandardIsValid(ps: seq<Piece>)
    requires Standard(ps)
    ensures AllValid(ps)
  {
  }
}
