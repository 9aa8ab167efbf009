/** JSON string text: how jsoncpp quotes a byte string (`valueToQuotedStringN`), how its reader finds
    the end of the token (`readString`) and decodes it (`decodeString`). */
module JsonStrings {
  import opened Bytes
  import opened Utf8

  const REPLACEMENT := 0xFFFD

  datatype Option<+T> = None | Some(value: T)

  // ----- writing -----

  /** `utf8ToCodepoint` on the bytes from `i`: the code point and how many bytes it stands for.
      Continuation bytes are not checked, only lengths, overlong forms and surrogates are. */
  function ToCodepoint(s: bytes, i: nat): (r: (nat, nat))
    requires i < |s|
    ensures r.0 < 0x200000 && 1 <= r.1 <= 4 && i + r.1 <= |s|
    ensures !(0xD800 <= r.0 <= 0xDFFF)
  {
    var first, left := Code(s[i]), |s| - i;
    if first < 0x80 then
      (first, 1)
    else if first < 0xE0 then
      if left < 2 then (REPLACEMENT, 1) else
      var cp := first % 0x20 * 0x40 + Code(s[i + 1]) % 0x40;
      (if cp < 0x80 then REPLACEMENT else cp, 2)
    else if first < 0xF0 then
      if left < 3 then (REPLACEMENT, 1) else
      var cp := first % 0x10 * 0x1000 + Code(s[i + 1]) % 0x40 * 0x40 + Code(s[i + 2]) % 0x40;
      (if 0xD800 <= cp <= 0xDFFF || cp < 0x800 then REPLACEMENT else cp, 3)
    else if first < 0xF8 then
      if left < 4 then (REPLACEMENT, 1) else
      var cp := first % 8 * 0x40000 + Code(s[i + 1]) % 0x40 * 0x1000 + Code(s[i + 2]) % 0x40 * 0x40
        + Code(s[i + 3]) % 0x40;
      (if cp < 0x10000 then REPLACEMENT else cp, 4)
    else
      (REPLACEMENT, 1)
  }

  /** One lower-case digit of the `hex2` table. */
  function HexDigit(n: int): byte
    requires 0 <= n < 16
  {
    if n < 10 then Chr('0' as int + n) else Chr('a' as int + n - 10)
  }

  function Hex16(x: int): (r: bytes)
    requires 0 <= x < 0x10000
    ensures |r| == 4
  {
    [HexDigit(x / 0x1000), HexDigit(x / 0x100 % 0x10), HexDigit(x / 0x10 % 0x10), HexDigit(x % 0x10)]
  }

  function High(cp: nat): int { (cp - 0x10000) / 0x400 + 0xD800 }

  function Low(cp: nat): int { (cp - 0x10000) % 0x400 + 0xDC00 }

  function EscapeCodepoint(cp: nat): bytes
    requires cp < 0x200000
  {
    if 0x20 <= cp <= 0x7F then [Chr(cp)]
    else if cp < 0x10000 then "\\u" + Hex16(cp)
    else "\\u" + Hex16(High(cp)) + "\\u" + Hex16(Low(cp))
  }

  /** What the writer emits for the character at `i`, and how many bytes it consumes. */
  function QuoteStep(s: bytes, i: nat): (r: (bytes, nat))
    requires i < |s|
    ensures 1 <= r.1 && i + r.1 <= |s|
  {
    match s[i]
    case '\"' => ("\\\"", 1)
    case '\\' => ("\\\\", 1)
    case '\U{8}' => ("\\b", 1)
    case '\U{c}' => ("\\f", 1)
    case '\n' => ("\\n", 1)
    case '\r' => ("\\r", 1)
    case '\t' => ("\\t", 1)
    case _ =>
      var (cp, n) := ToCodepoint(s, i);
      (EscapeCodepoint(cp), n)
  }

  function QuoteBody(s: bytes, i: nat): bytes
    requires i <= |s|
    decreases |s| - i
  {
    if i == |s| then [] else
    var (text, n) := QuoteStep(s, i);
    text + QuoteBody(s, i + n)
  }

  /** The quoted string. The shortcut of the source for text without special characters gives the
      same result, see `PlainNeedsNoQuoting`. */
  function Quote(s: bytes): (r: bytes) {
    "\"" + QuoteBody(s, 0) + "\""
  }

  predicate RequiresQuoting(c: byte) {
    c == '\\' || c == '\"' || c < ' ' || Code(c) >= 0x80
  }

  lemma {:induction false} PlainBody(s: bytes, i: nat)
    requires i <= |s|
    requires forall k :: 0 <= k < |s| ==> !RequiresQuoting(s[k])
    ensures QuoteBody(s, i) == s[i..]
    decreases |s| - i
  {
    if i < |s| {
      PlainBody(s, i + 1);
      assert !RequiresQuoting(s[i]);
      assert QuoteStep(s, i) == ([s[i]], 1);
      assert s[i..] == [s[i]] + s[i + 1..];
    }
  }

  /** The shortcut of `valueToQuotedStringN`: a string without special characters is written between quotes
      unchanged. */
  lemma PlainNeedsNoQuoting(s: bytes)
    requires forall k :: 0 <= k < |s| ==> !RequiresQuoting(s[k])
    ensures Quote(s) == "\"" + s + "\""
  {
    PlainBody(s, 0);
    assert s[0..] == s;
  }

  // ----- reading -----

  /** `readString` after the opening quote: the index just past the closing quote. */
  function ScanString(doc: bytes, i: nat): (r: Option<nat>)
    requires i <= |doc|
    ensures r.Some? ==> i < r.value <= |doc|
    decreases |doc| - i
  {
    if i == |doc| then None
    else if doc[i] == '\\' then (if i + 1 == |doc| then None else ScanString(doc, i + 2))
    else if doc[i] == '\"' then Some(i + 1)
    else ScanString(doc, i + 1)
  }

  function HexValue(c: byte): (r: Option<int>)
    ensures r.Some? ==> 0 <= r.value < 16
  {
    if '0' <= c <= '9' then Some(c as int - '0' as int)
    else if 'a' <= c <= 'f' then Some(c as int - 'a' as int + 10)
    else if 'A' <= c <= 'F' then Some(c as int - 'A' as int + 10)
    else None
  }

  /** The value of the `n` hexadecimal digits from `i`. */
  function HexDigits(doc: bytes, i: nat, n: nat): (r: Option<nat>)
    requires i + n <= |doc|
    ensures r.Some? && n <= 4 ==> r.value < [1, 0x10, 0x100, 0x1000, 0x10000][n]
  {
    if n == 0 then Some(0) else
    var (high, low) := (HexDigits(doc, i, n - 1), HexValue(doc[i + n - 1]));
    if high.None? || low.None? then None else Some(high.value * 16 + low.value)
  }

  /** `decodeUnicodeEscapeSequence`: four hexadecimal digits between `i` and `end`. */
  function DecodeHex4(doc: bytes, i: nat, end: nat): (r: Option<nat>)
    requires i <= end <= |doc|
    ensures r.Some? ==> i + 4 <= end && r.value < 0x10000
  {
    if end - i < 4 then None else
    HexDigits(doc, i, 4)
  }

  /** `decodeUnicodeCodePoint`: a lead surrogate takes the next escape with it, whatever that is. */
  function DecodeCodePoint(doc: bytes, i: nat, end: nat): (r: Option<(nat, nat)>)
    requires i <= end <= |doc|
    ensures r.Some? ==> i < r.value.1 <= end && r.value.0 <= 0x10FFFF
  {
    var u := DecodeHex4(doc, i, end);
    if u.None? then None
    else if 0xD800 <= u.value <= 0xDBFF then
      if end - (i + 4) < 6 then None
      else if doc[i + 4] == '\\' && doc[i + 5] == 'u' then
        var v := DecodeHex4(doc, i + 6, end);
        if v.None? then None else Some((0x10000 + u.value % 0x400 * 0x400 + v.value % 0x400, i + 10))
      else None
    else Some((u.value, i + 4))
  }

  function SimpleEscape(c: byte): Option<byte> {
    match c
    case '\"' => Some('\"')
    case '/' => Some('/')
    case '\\' => Some('\\')
    case 'b' => Some('\U{8}')
    case 'f' => Some('\U{c}')
    case 'n' => Some('\n')
    case 'r' => Some('\r')
    case 't' => Some('\t')
    case _ => None
  }

  function Prepend(a: bytes, r: Option<bytes>): Option<bytes> {
    if r.None? then None else Some(a + r.value)
  }

  /** The loop of `decodeString` from `i` to `end` (both between the quotes). */
  function DecodeBody(doc: bytes, i: nat, end: nat): (r: Option<bytes>)
    requires i <= end <= |doc|
    decreases end - i
  {
    if i == end || doc[i] == '\"' then Some([])
    else if doc[i] != '\\' then Prepend([doc[i]], DecodeBody(doc, i + 1, end))
    else if i + 1 == end then None
    else if doc[i + 1] == 'u' then
      var u := DecodeCodePoint(doc, i + 2, end);
      if u.None? then None else Prepend(Encode(u.value.0), DecodeBody(doc, u.value.1, end))
    else
      var c := SimpleEscape(doc[i + 1]);
      if c.None? then None else Prepend([c.value], DecodeBody(doc, i + 2, end))
  }

  // ----- reading back what was written -----

  /** The bytes the reader recovers for one written character. */
  function Recovered(cp: nat): bytes
    requires cp < 0x200000
  {
    if cp <= 0x10FFFF then Encode(cp) else Encode(High(cp)) + Encode(Low(cp))
  }

  function RecoveredBody(s: bytes, i: nat): bytes
    requires i <= |s|
    decreases |s| - i
  {
    if i == |s| then [] else
    var (cp, n) := ToCodepoint(s, i);
    Recovered(cp) + RecoveredBody(s, i + n)
  }

  lemma HexDigitValue(n: int)
    requires 0 <= n < 16
    ensures HexValue(HexDigit(n)) == Some(n) && HexDigit(n) != '\"' && HexDigit(n) != '\\'
  {
  }

  lemma Base16(x: int)
    requires 0 <= x < 0x10000
    ensures x / 0x100 == x / 0x1000 * 16 + x / 0x100 % 16
    ensures x / 0x10 == x / 0x100 * 16 + x / 0x10 % 16
    ensures x == x / 0x10 * 16 + x % 16
  {
  }

  lemma HexRoundTrip(doc: bytes, i: nat, end: nat, x: int)
    requires 0 <= x < 0x10000 && i + 4 <= end <= |doc| && At(doc, i, Hex16(x))
    ensures DecodeHex4(doc, i, end) == Some(x)
    ensures forall k :: i <= k < i + 4 ==> doc[k] != '\"' && doc[k] != '\\'
  {
    hide HexDigit, HexValue;
    var h := Hex16(x);
    AtByte(doc, i, h, 0);
    AtByte(doc, i, h, 1);
    AtByte(doc, i, h, 2);
    AtByte(doc, i, h, 3);
    HexDigitValue(x / 0x1000);
    HexDigitValue(x / 0x100 % 16);
    HexDigitValue(x / 0x10 % 16);
    HexDigitValue(x % 16);
    Base16(x);
    assert HexDigits(doc, i, 1) == Some(x / 0x1000);
    assert HexDigits(doc, i, 2) == Some(x / 0x100);
    assert HexDigits(doc, i, 3) == Some(x / 0x10);
  }

  /** A `\uXXXX` escape is skipped as one piece by the scan. */
  lemma ScanUnicode(doc: bytes, i: nat, x: int)
    requires 0 <= x < 0x10000 && At(doc, i, "\\u" + Hex16(x))
    ensures ScanString(doc, i) == ScanString(doc, i + 6)
  {
    AtSplit(doc, i, "\\u", Hex16(x));
    AtByte(doc, i, "\\u", 0);
    HexRoundTrip(doc, i + 2, i + 6, x);
    assert ScanString(doc, i) == ScanString(doc, i + 2) == ScanString(doc, i + 3) == ScanString(doc, i + 4);
    assert ScanString(doc, i + 4) == ScanString(doc, i + 5) == ScanString(doc, i + 6);
  }

  lemma DecodeUnicode(doc: bytes, i: nat, end: nat, x: int)
    requires 0 <= x < 0x10000 && !(0xD800 <= x <= 0xDBFF)
    requires i + 6 <= end <= |doc| && At(doc, i, "\\u" + Hex16(x))
    ensures DecodeBody(doc, i, end) == Prepend(Encode(x), DecodeBody(doc, i + 6, end))
  {
    AtSplit(doc, i, "\\u", Hex16(x));
    AtByte(doc, i, "\\u", 0);
    AtByte(doc, i, "\\u", 1);
    HexRoundTrip(doc, i + 2, end, x);
  }

  lemma SurrogateArithmetic(cp: nat)
    requires 0x10000 <= cp < 0x200000
    ensures 0xD800 <= High(cp) <= 0xDFBF && 0xDC00 <= Low(cp) <= 0xDFFF
    ensures cp <= 0x10FFFF ==> High(cp) <= 0xDBFF && cp == 0x10000 + High(cp) % 0x400 * 0x400 + Low(cp) % 0x400
    ensures cp > 0x10FFFF ==> High(cp) >= 0xDC00
  {
  }

  lemma DecodePair(doc: bytes, i: nat, end: nat, cp: nat)
    requires 0x10000 <= cp <= 0x10FFFF
    requires i + 12 <= end <= |doc|
    requires At(doc, i, "\\u" + Hex16(High(cp))) && At(doc, i + 6, "\\u" + Hex16(Low(cp)))
    ensures DecodeBody(doc, i, end) == Prepend(Encode(cp), DecodeBody(doc, i + 12, end))
  {
    hide Encode, Hex16, DecodeHex4, High, Low;
    SurrogateArithmetic(cp);
    AtSplit(doc, i, "\\u", Hex16(High(cp)));
    AtSplit(doc, i + 6, "\\u", Hex16(Low(cp)));
    AtByte(doc, i, "\\u", 0);
    AtByte(doc, i, "\\u", 1);
    AtByte(doc, i + 6, "\\u", 0);
    AtByte(doc, i + 6, "\\u", 1);
    HexRoundTrip(doc, i + 2, end, High(cp));
    HexRoundTrip(doc, i + 8, end, Low(cp));
    assert DecodeCodePoint(doc, i + 2, end) == Some((cp, i + 12));
  }

  /** A code point above the last Unicode one is written as two lone trail surrogates. */
  lemma DecodeOutOfRange(doc: bytes, i: nat, end: nat, cp: nat)
    requires 0x10FFFF < cp < 0x200000
    requires i + 12 <= end <= |doc|
    requires At(doc, i, "\\u" + Hex16(High(cp))) && At(doc, i + 6, "\\u" + Hex16(Low(cp)))
    ensures DecodeBody(doc, i, end) == Prepend(Recovered(cp), DecodeBody(doc, i + 12, end))
  {
    hide Encode, Hex16, DecodeBody, High, Low;
    SurrogateArithmetic(cp);
    DecodeUnicode(doc, i, end, High(cp));
    DecodeUnicode(doc, i + 6, end, Low(cp));
    var rest := DecodeBody(doc, i + 12, end);
    if rest.Some? {
      assert Encode(High(cp)) + (Encode(Low(cp)) + rest.value) == Recovered(cp) + rest.value;
    }
  }

  predicate HasShortEscape(c: byte) {
    c in ['\"', '\\', '\U{8}', '\U{c}', '\n', '\r', '\t']
  }

  lemma ShortStepReadsBack(s: bytes, k: nat, doc: bytes, i: nat, end: nat)
    requires k < |s| && HasShortEscape(s[k])
    requires At(doc, i, QuoteStep(s, k).0) && i + |QuoteStep(s, k).0| <= end <= |doc|
    ensures ToCodepoint(s, k) == (Code(s[k]), 1) && QuoteStep(s, k).1 == 1
    ensures ScanString(doc, i) == ScanString(doc, i + |QuoteStep(s, k).0|)
    ensures DecodeBody(doc, i, end) == Prepend([s[k]], DecodeBody(doc, i + |QuoteStep(s, k).0|, end))
  {
    hide Encode;
    var text := QuoteStep(s, k).0;
    assert |text| == 2 && text[0] == '\\';
    AtByte(doc, i, text, 0);
    AtByte(doc, i, text, 1);
    assert SimpleEscape(text[1]) == Some(s[k]);
  }

  lemma CodepointIsAscii(s: bytes, k: nat)
    requires k < |s| && ToCodepoint(s, k).0 < 0x80
    ensures ToCodepoint(s, k) == (Code(s[k]), 1)
  {
  }

  /** One written character: the scan steps over it and the decoder recovers its bytes. */
  lemma StepReadsBack(s: bytes, k: nat, doc: bytes, i: nat, end: nat)
    requires k < |s|
    requires At(doc, i, QuoteStep(s, k).0) && i + |QuoteStep(s, k).0| <= end <= |doc|
    ensures ToCodepoint(s, k).1 == QuoteStep(s, k).1
    ensures ScanString(doc, i) == ScanString(doc, i + |QuoteStep(s, k).0|)
    ensures DecodeBody(doc, i, end)
         == Prepend(Recovered(ToCodepoint(s, k).0), DecodeBody(doc, i + |QuoteStep(s, k).0|, end))
  {
    hide Hex16, DecodeHex4, DecodeCodePoint, ToCodepoint, High, Low;
    var text := QuoteStep(s, k).0;
    var cp := ToCodepoint(s, k).0;
    if HasShortEscape(s[k]) {
      ShortStepReadsBack(s, k, doc, i, end);
    } else if 0x20 <= cp <= 0x7F {
      CodepointIsAscii(s, k);
      AtByte(doc, i, text, 0);
    } else if cp < 0x10000 {
      if cp < 0x80 { CodepointIsAscii(s, k); }
      ScanUnicode(doc, i, cp);
      DecodeUnicode(doc, i, end, cp);
    } else {
      SurrogateArithmetic(cp);
      AtSplit(doc, i, "\\u" + Hex16(High(cp)), "\\u" + Hex16(Low(cp)));
      assert text == ("\\u" + Hex16(High(cp))) + ("\\u" + Hex16(Low(cp)));
      ScanUnicode(doc, i, High(cp));
      ScanUnicode(doc, i + 6, Low(cp));
      if cp <= 0x10FFFF {
        DecodePair(doc, i, end, cp);
      } else {
        DecodeOutOfRange(doc, i, end, cp);
      }
    }
  }

  lemma {:induction false} BodyReadsBack(s: bytes, k: nat, doc: bytes, i: nat)
    requires k <= |s| && At(doc, i, QuoteBody(s, k) + "\"")
    ensures ScanString(doc, i) == Some(i + |QuoteBody(s, k)| + 1)
    ensures DecodeBody(doc, i, i + |QuoteBody(s, k)|) == Some(RecoveredBody(s, k))
    decreases |s| - k
  {
    hide Encode, Recovered, ToCodepoint, QuoteStep, DecodeCodePoint, SimpleEscape;
    if k == |s| {
      AtByte(doc, i, "\"", 0);
    } else {
      var (text, n) := QuoteStep(s, k);
      var rest := QuoteBody(s, k + n);
      assert QuoteBody(s, k) + "\"" == text + (rest + "\"");
      AtSplit(doc, i, text, rest + "\"");
      BodyReadsBack(s, k + n, doc, i + |text|);
      StepReadsBack(s, k, doc, i, i + |text| + |rest|);
    }
  }

  /** The reader finds exactly the quoted string and decodes it to `RecoveredBody`. */
  lemma QuotedReadsBack(s: bytes, doc: bytes, i: nat)
    requires At(doc, i, Quote(s))
    ensures i < |doc| && doc[i] == '\"'
    ensures ScanString(doc, i + 1) == Some(i + |Quote(s)|)
    ensures DecodeBody(doc, i + 1, i + |Quote(s)| - 1) == Some(RecoveredBody(s, 0))
  {
    hide QuoteStep, QuoteBody, RecoveredBody, DecodeBody, ScanString;
    var body := QuoteBody(s, 0);
    assert Quote(s) == "\"" + (body + "\"");
    AtSplit(doc, i, "\"", body + "\"");
    AtByte(doc, i, "\"", 0);
    BodyReadsBack(s, 0, doc, i + 1);
  }

  // ----- exactly the well-formed strings survive -----

  lemma TwoBytes(a: int, b: int)
    requires 2 <= a < 0x20 && 0 <= b < 0x40
    ensures ToCodepoint([Chr(0xC0 + a), Chr(0x80 + b)], 0) == (a * 0x40 + b, 2)
  {
    assert (0xC0 + a) % 0x20 == a && (0x80 + b) % 0x40 == b;
  }

  lemma ThreeBytes(a: int, b: int, c: int)
    requires 0 <= a < 0x10 && 0 <= b < 0x40 && 0 <= c < 0x40
    requires var cp := a * 0x1000 + b * 0x40 + c; cp >= 0x800 && !(0xD800 <= cp <= 0xDFFF)
    ensures ToCodepoint([Chr(0xE0 + a), Chr(0x80 + b), Chr(0x80 + c)], 0) == (a * 0x1000 + b * 0x40 + c, 3)
  {
    assert (0xE0 + a) % 0x10 == a && (0x80 + b) % 0x40 == b && (0x80 + c) % 0x40 == c;
  }

  lemma FourBytes(a: int, b: int, c: int, d: int)
    requires 0 <= a < 8 && 0 <= b < 0x40 && 0 <= c < 0x40 && 0 <= d < 0x40
    requires a * 0x40000 + b * 0x1000 + c * 0x40 + d >= 0x10000
    ensures ToCodepoint([Chr(0xF0 + a), Chr(0x80 + b), Chr(0x80 + c), Chr(0x80 + d)], 0)
         == (a * 0x40000 + b * 0x1000 + c * 0x40 + d, 4)
  {
    LowBits(a, b);
    LowBits(a, c);
    LowBits(a, d);
  }

  lemma LowBits(a: int, b: int)
    requires 0 <= a < 8 && 0 <= b < 0x40
    ensures (0xF0 + a) % 8 == a && (0x80 + b) % 0x40 == b
  {
  }

  lemma Base64Digits(n: nat)
    ensures n == n / 0x40 * 0x40 + n % 0x40
    ensures n == n / 0x1000 * 0x1000 + n / 0x40 % 0x40 * 0x40 + n % 0x40
    ensures n == n / 0x40000 * 0x40000 + n / 0x1000 % 0x40 * 0x1000 + n / 0x40 % 0x40 * 0x40 + n % 0x40
  {
    assert n / 0x1000 == n / 0x40 / 0x40;
    assert n / 0x40000 == n / 0x1000 / 0x40;
  }

  predicate Complete(w: bytes) {
    w != []
    && |w| == (if w[0] as int < 0x80 then 1 else if w[0] as int < 0xE0 then 2 else if w[0] as int < 0xF0 then 3 else 4)
  }

  lemma CodepointOfOne(cp: scalar)
    ensures Complete(Encode(cp))
    ensures ToCodepoint(Encode(cp), 0) == (cp, |Encode(cp)|)
  {
    Base64Digits(cp);
    if cp >= 0x80 {
      hide ToCodepoint;
      if cp < 0x800 {
        TwoBytes(cp / 0x40, cp % 0x40);
      } else if cp < 0x10000 {
        ThreeBytes(cp / 0x1000, cp / 0x40 % 0x40, cp % 0x40);
      } else {
        FourBytes(cp / 0x40000, cp / 0x1000 % 0x40, cp / 0x40 % 0x40, cp % 0x40);
      }
    }
  }

  /** `utf8ToCodepoint` looks no further than the bytes it consumes. */
  lemma CodepointIsLocal(s: bytes, i: nat, w: bytes)
    requires At(s, i, w) && Complete(w)
    ensures ToCodepoint(s, i) == ToCodepoint(w, 0)
  {
    AtByte(s, i, w, 0);
    if |w| > 1 { AtByte(s, i, w, 1); }
    if |w| > 2 { AtByte(s, i, w, 2); }
    if |w| > 3 { AtByte(s, i, w, 3); }
  }

  lemma CodepointOfEncoded(s: bytes, i: nat, cp: scalar)
    requires At(s, i, Encode(cp))
    ensures i < |s| && ToCodepoint(s, i) == (cp, |Encode(cp)|)
  {
    hide Encode, ToCodepoint;
    CodepointOfOne(cp);
    CodepointIsLocal(s, i, Encode(cp));
  }

  lemma OutOfRangeLead(s: bytes, i: nat)
    requires i < |s| && ToCodepoint(s, i).0 > 0x10FFFF
    ensures s[i] != Recovered(ToCodepoint(s, i).0)[0]
  {
    var cp := ToCodepoint(s, i).0;
    assert Code(s[i]) >= 0xF0;
    assert Encode(High(cp))[0] == Chr(0xED);
  }

  lemma {:induction false} WellFormedSurvives(s: bytes, i: nat)
    requires i <= |s| && WellFormed(s[i..])
    ensures RecoveredBody(s, i) == s[i..]
    decreases |s| - i
  {
    hide Encode, ToCodepoint;
    if i < |s| {
      var cp := SplitWellFormed(s[i..]);
      var n := |Encode(cp)|;
      assert s[i..][..n] == s[i..i + n];
      assert s[i..][n..] == s[i + n..];
      CodepointOfEncoded(s, i, cp);
      WellFormedSurvives(s, i + n);
      assert s[i..] == s[i..i + n] + s[i + n..];
    }
  }

  lemma SurvivingStep(s: bytes, i: nat)
    requires i < |s| && At(s, i, Recovered(ToCodepoint(s, i).0))
    ensures ToCodepoint(s, i).0 <= 0x10FFFF
    ensures ToCodepoint(s, i).1 == |Encode(ToCodepoint(s, i).0)|
  {
    hide Encode, ToCodepoint;
    var cp := ToCodepoint(s, i).0;
    AtByte(s, i, Recovered(cp), 0);
    if cp > 0x10FFFF { OutOfRangeLead(s, i); }
    CodepointOfEncoded(s, i, cp);
  }

  lemma {:induction false} SurvivorWellFormed(s: bytes, i: nat)
    requires i <= |s| && RecoveredBody(s, i) == s[i..]
    ensures WellFormed(s[i..])
    decreases |s| - i
  {
    hide Encode, ToCodepoint, WellFormed, Recovered, RecoveredBody, At;
    RecoveredStep(s, i);
    if i == |s| {
      EmptyWellFormed();
    } else {
      var (cp, n) := ToCodepoint(s, i);
      SplitAt(s, i, Recovered(cp), RecoveredBody(s, i + n));
      SurvivingStep(s, i);
      SurvivorEncoded(cp);
      SurvivorWellFormed(s, i + n);
      PrependWellFormed(cp, s[i + n..]);
    }
  }

  lemma RecoveredStep(s: bytes, i: nat)
    requires i <= |s|
    ensures RecoveredBody(s, i)
      == if i == |s| then [] else Recovered(ToCodepoint(s, i).0) + RecoveredBody(s, i + ToCodepoint(s, i).1)
  {
    hide ToCodepoint, Recovered;
  }

  lemma SurvivorEncoded(cp: nat)
    requires cp <= 0x10FFFF
    ensures Recovered(cp) == Encode(cp)
  {
  }

  lemma SplitAt(s: bytes, i: nat, a: bytes, b: bytes)
    requires i <= |s| && s[i..] == a + b
    ensures At(s, i, a) && s[i + |a|..] == b && s[i..] == a + s[i + |a|..]
  {
    assert s[i..i + |a|] == s[i..][..|a|] == a;
    assert s[i + |a|..] == s[i..][|a|..] == b;
  }

  /** A written string is found whole by the reader, and decodes to itself if and only if it is
      well-formed UTF-8. */
  lemma StringSurvivesIffWellFormed(s: bytes, doc: bytes, i: nat)
    requires At(doc, i, Quote(s))
    ensures i + 1 < i + |Quote(s)| <= |doc|
    ensures ScanString(doc, i + 1) == Some(i + |Quote(s)|)
    ensures DecodeBody(doc, i + 1, i + |Quote(s)| - 1) == Some(s) <==> WellFormed(s)
  {
    QuotedReadsBack(s, doc, i);
    assert s[0..] == s;
    if WellFormed(s) {
      WellFormedSurvives(s, 0);
    } else if RecoveredBody(s, 0) == s {
      SurvivorWellFormed(s, 0);
    }
  }

  /** What no scalar value is encoded as (section 3 of RFC 3629) becomes U+FFFD: a sequence that is cut off, or begins
      with a byte that begins none, takes one byte, and an overlong form or a surrogate is replaced as a whole. */
  lemma MalformedIsReplaced(s: bytes, i: nat)
    requires i < |s| && Code(s[i]) >= 0x80
    ensures var first, left := Code(s[i]), |s| - i;
      var n := if first < 0xE0 then 2 else if first < 0xF0 then 3 else if first < 0xF8 then 4 else 5;
      && (n == 5 || left < n ==> QuoteStep(s, i) == ("\\ufffd", 1))
      && (first in {0xC0, 0xC1} && left >= 2 ==> QuoteStep(s, i) == ("\\ufffd", 2))
      && (first == 0xE0 && left >= 3 && 0x80 <= Code(s[i + 1]) < 0xA0 ==> QuoteStep(s, i) == ("\\ufffd", 3))
      && (first == 0xED && left >= 3 && 0xA0 <= Code(s[i + 1]) < 0xC0 ==> QuoteStep(s, i) == ("\\ufffd", 3))
      && (first == 0xF0 && left >= 4 && 0x80 <= Code(s[i + 1]) < 0x90 ==> QuoteStep(s, i) == ("\\ufffd", 4))
  {
    hide ToCodepoint, QuoteStep;
    MalformedIsUnknown(s, i);
    if ToCodepoint(s, i).0 == 0xFFFD { UnknownIsWritten(s, i); }
  }

  lemma MalformedIsUnknown(s: bytes, i: nat)
    requires i < |s| && Code(s[i]) >= 0x80
    ensures var first, left := Code(s[i]), |s| - i;
      var n := if first < 0xE0 then 2 else if first < 0xF0 then 3 else if first < 0xF8 then 4 else 5;
      && (n == 5 || left < n ==> ToCodepoint(s, i) == (0xFFFD, 1))
      && (first in {0xC0, 0xC1} && left >= 2 ==> ToCodepoint(s, i) == (0xFFFD, 2))
      && (first == 0xE0 && left >= 3 && 0x80 <= Code(s[i + 1]) < 0xA0 ==> ToCodepoint(s, i) == (0xFFFD, 3))
      && (first == 0xED && left >= 3 && 0xA0 <= Code(s[i + 1]) < 0xC0 ==> ToCodepoint(s, i) == (0xFFFD, 3))
      && (first == 0xF0 && left >= 4 && 0x80 <= Code(s[i + 1]) < 0x90 ==> ToCodepoint(s, i) == (0xFFFD, 4))
  {
  }

  lemma UnknownIsWritten(s: bytes, i: nat)
    requires i < |s| && Code(s[i]) >= 0x80 && ToCodepoint(s, i).0 == 0xFFFD
    ensures QuoteStep(s, i) == ("\\ufffd", ToCodepoint(s, i).1)
  {
    hide ToCodepoint;
    assert Hex16(0xFFFD) == "fffd";
    assert "\\u" + "fffd" == "\\ufffd";
  }
}
