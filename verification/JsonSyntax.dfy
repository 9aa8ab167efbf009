/** The texts of RFC 8259, with white space wherever it may stand, and what `OurReader` makes of every one of them for
    every setting. The extensions that the settings are about are texts as well: a value that is left out, and a comma
    behind the last member. */
module JsonSyntax {
  import opened Bytes
  import opened Places
  import opened JsonValue
  import opened JsonStrings
  import opened JsonPieces
  import opened Decimal
  import opened JsonNumbers
  import opened JsonText

  // ----- texts -----

  const WHITE: bytes := " \t\n\r"

  predicate AllWhite(ws: bytes) {
    forall k :: 0 <= k < |ws| ==> ws[k] in WHITE
  }

  /** A number: the fraction and the exponent may be missing. */
  datatype Number = Number(sign: bytes, digits: bytes, fraction: Option<bytes>, exponent: Option<Exponent>)

  datatype Exponent = Exponent(letter: byte, sign: bytes, digits: bytes)

  datatype Json =
    | NullWord | TrueWord | FalseWord
    | Num(number: Number)
    | Str(pieces: seq<Piece>)
    | List(items: seq<Item>, inside: bytes)
    | Record(fields: seq<Field>, comma: bool, inside: bytes)
    | Absent

  datatype Item = Item(before: bytes, value: Json, after: bytes)

  datatype Field = Field(before: bytes, key: seq<Piece>, gap: bytes, middle: bytes, value: Json, after: bytes)

  function FractionText(n: Number): bytes {
    if n.fraction.None? then [] else "." + n.fraction.value
  }

  function ExponentText(n: Number): bytes {
    if n.exponent.None? then [] else [n.exponent.value.letter] + n.exponent.value.sign + n.exponent.value.digits
  }

  function NumberText(n: Number): bytes {
    n.sign + (n.digits + (FractionText(n) + ExponentText(n)))
  }

  predicate IsSign(s: bytes) {
    s == "" || s == "+" || s == "-"
  }

  /** The numbers that the reader takes for one token: a plus sign, leading zeros, and no digits behind a sign, a point
      or an exponent are allowed. */
  predicate ValidNumber(n: Number) {
    && IsSign(n.sign) && AllDigitsOf(n.digits, 10) && (n.digits == [] ==> n.sign != "")
    && (n.fraction.Some? ==> AllDigitsOf(n.fraction.value, 10))
    && (n.exponent.Some? ==>
          && (n.exponent.value.letter == 'e' || n.exponent.value.letter == 'E')
          && IsSign(n.exponent.value.sign) && AllDigitsOf(n.exponent.value.digits, 10))
  }

  /** The numbers of section 6 of RFC 8259. */
  predicate StandardNumber(n: Number) {
    && ValidNumber(n)
    && n.sign != "+" && n.digits != [] && (n.digits[0] == '0' ==> n.digits == "0")
    && (n.fraction.Some? ==> n.fraction.value != []) && (n.exponent.Some? ==> n.exponent.value.digits != [])
  }

  function Render(j: Json): bytes {
    match j
    case NullWord => "null"
    case TrueWord => "true"
    case FalseWord => "false"
    case Num(n) => NumberText(n)
    case Str(ps) => Quoted(ps)
    case List(items, inside) => "[" + (RenderItems(items) + inside + "]")
    case Record(fields, comma, inside) => "{" + (RenderFields(fields) + Tail(comma, inside))
    case Absent => ""
  }

  /** What follows the members of an object. */
  function Tail(comma: bool, inside: bytes): bytes {
    if comma then "," + (inside + "}") else inside + "}"
  }

  function RenderItem(m: Item): bytes {
    m.before + Render(m.value) + m.after
  }

  function RenderItems(items: seq<Item>): bytes {
    if items == [] then []
    else if |items| == 1 then RenderItem(items[0])
    else RenderItem(items[0]) + ("," + RenderItems(items[1..]))
  }

  function RenderField(m: Field): bytes {
    m.before + (Quoted(m.key) + (m.gap + (":" + (m.middle + (Render(m.value) + m.after)))))
  }

  function RenderFields(fields: seq<Field>): bytes {
    if fields == [] then []
    else if |fields| == 1 then RenderField(fields[0])
    else RenderField(fields[0]) + ("," + RenderFields(fields[1..]))
  }

  /** White space stands where the grammar has it: inside empty brackets, around values, keys and colons, and behind a
      comma at the end of an object. */
  predicate ValidText(j: Json) {
    match j
    case Num(n) => ValidNumber(n)
    case Str(ps) => AllValid(ps)
    case List(items, inside) =>
      AllWhite(inside) && (items != [] ==> inside == "") && forall k :: 0 <= k < |items| ==> ValidItem(items[k])
    case Record(fields, comma, inside) =>
      && AllWhite(inside) && (fields != [] && !comma ==> inside == "") && (comma ==> fields != [])
      && forall k :: 0 <= k < |fields| ==> ValidField(fields[k])
    case _ => true
  }

  /** The texts of RFC 8259: nothing is left out, and numbers and strings are those of the standard. */
  predicate StandardText(j: Json) {
    match j
    case Absent => false
    case Num(n) => StandardNumber(n)
    case Str(ps) => Standard(ps)
    case List(items, _) => forall k :: 0 <= k < |items| ==> StandardText(items[k].value)
    case Record(fields, comma, _) =>
      !comma && forall k :: 0 <= k < |fields| ==> Standard(fields[k].key) && StandardText(fields[k].value)
    case _ => true
  }

  predicate ValidItem(m: Item) {
    ValidText(m.value) && AllWhite(m.before) && AllWhite(m.after) && (m.value.Absent? ==> m.after == "")
  }

  predicate ValidField(m: Field) {
    && ValidText(m.value) && AllValid(m.key) && AllWhite(m.before) && AllWhite(m.gap) && AllWhite(m.middle)
    && AllWhite(m.after) && (m.value.Absent? ==> m.after == "")
  }

  // ----- what is expected -----

  datatype Expected = Throws | Fails | Gives(value: Value)

  /** An integer that fits 64 bits, signed or unsigned, is that integer; every other number is a real if it is accepted.
      A minus sign alone is zero, and nothing with a plus sign is an integer. */
  function ExpectNumber(f: Features, n: Number): Expected {
    var m := Positional(n.digits, 10);
    if n.fraction.None? && n.exponent.None? && n.sign != "+"
       && m <= (if n.sign == "-" then 0x8000_0000_0000_0000 else 0xFFFF_FFFF_FFFF_FFFF)
    then
      Gives(if n.sign == "-" then Int(0 - m) else if m < 0x8000_0000_0000_0000 then Int(m) else UInt(m))
    else if f.acceptsDouble(NumberText(n)) then Gives(Real(NumberText(n)))
    else Fails
  }

  /** What reading makes of a text, said of the text alone. */
  function Expect(f: Features, j: Json, depth: nat): Expected
    decreases j
  {
    if depth > f.stackLimit then Throws else
    match j
    case NullWord => Gives(Null)
    case TrueWord => Gives(Bool(true))
    case FalseWord => Gives(Bool(false))
    case Num(n) => ExpectNumber(f, n)
    case Str(ps) => if Denoted(ps).Some? then Gives(String(Denoted(ps).value)) else Fails
    case List(items, _) => ExpectItems(f, items, depth, [])
    case Record(fields, comma, _) => ExpectFields(f, fields, comma, depth, [], [])
    case Absent => if f.allowDroppedNullPlaceholders then Gives(Null) else Fails
  }

  /** The items in turn, `done` being those read so far. A value left out is not seen between the brackets `[]`, nor
      behind the last comma by a reader of trailing commas. */
  function ExpectItems(f: Features, items: seq<Item>, depth: nat, done: seq<Value>): Expected
    decreases items
  {
    if items == [] || (|items| == 1 && items[0].value.Absent? && Unseen(f, done)) then Gives(Array(done)) else
    var r := Expect(f, items[0].value, depth + 1);
    if !r.Gives? then r else ExpectItems(f, items[1..], depth, done + [r.value])
  }

  /** A value left out behind `done` leaves no trace. */
  predicate Unseen(f: Features, done: seq<Value>) {
    done == [] || (f.allowTrailingCommas && !f.allowDroppedNullPlaceholders)
  }

  /** The members in turn, `name` being the key read last. Behind a last comma the object may end if trailing commas are
      allowed, or if that key was empty. */
  function ExpectFields(f: Features, fields: seq<Field>, comma: bool, depth: nat, done: seq<Member>,
                        name: bytes): Expected
    decreases fields
  {
    if fields == [] then (if name == [] || f.allowTrailingCommas then Gives(Object(done)) else Fails) else
    var key := Denoted(fields[0].key);
    if key.None? then Fails
    else if |key.value| >= 0x4000_0000 then Throws
    else if f.rejectDupKeys && HasMember(done, key.value) then Fails
    else
      var r := Expect(f, fields[0].value, depth + 1);
      if !r.Gives? then r else
      var read := Insert(done, key.value, r.value);
      if |fields| == 1 && !comma then Gives(Object(read))
      else ExpectFields(f, fields[1..], comma, depth, read, key.value)
  }

  /** What `OurReader` should return for an expectation about a text that ends at `end` */
  function AsRead(r: Expected, end: nat): JsonText.Outcome {
    match r
    case Throws => Thrown
    case Fails => Failed
    case Gives(v) => Parsed(v, end)
  }

  // ----- white space and punctuation -----

  lemma WhiteIsSpace(c: byte)
    ensures c in WHITE <==> IsSpace(c)
  {
  }

  lemma {:induction false} WhiteSkipped(doc: bytes, i: nat, ws: bytes)
    requires AllWhite(ws) && At(doc, i, ws)
    ensures i + |ws| <= |doc| && SkipSpaces(doc, i) == SkipSpaces(doc, i + |ws|)
    decreases |ws|
  {
    if ws != [] {
      AtByte(doc, i, ws, 0);
      WhiteIsSpace(ws[0]);
      assert ws == [ws[0]] + ws[1..];
      AtSplit(doc, i, [ws[0]], ws[1..]);
      WhiteSkipped(doc, i + 1, ws[1..]);
    }
  }

  lemma TokenSkipsWhite(doc: bytes, i: nat, ws: bytes)
    requires AllWhite(ws) && At(doc, i, ws)
    ensures i + |ws| <= |doc| && ReadToken(doc, i) == ReadToken(doc, i + |ws|)
  {
    hide ScanString, ScanNumber, Literal, OneByte;
    WhiteSkipped(doc, i, ws);
  }

  lemma ValueSkipsWhite(f: Features, doc: bytes, i: nat, depth: nat, ws: bytes)
    requires AllWhite(ws) && At(doc, i, ws)
    ensures i + |ws| <= |doc| && ReadValue(f, doc, i, depth) == ReadValue(f, doc, i + |ws|, depth)
  {
    hide ReadToken, ReadItems, ReadMembers;
    TokenSkipsWhite(doc, i, ws);
  }

  lemma PunctuationToken(doc: bytes, i: nat, c: byte)
    requires At(doc, i, [c]) && c in ['{', '}', '[', ']', ',', ':']
    ensures ReadToken(doc, i) == Token(OneByte(c), i, i + 1)
    ensures SkipSpaces(doc, i) == i
  {
    AtByte(doc, i, [c], 0);
  }

  lemma LiteralToken(doc: bytes, i: nat, c: byte, rest: bytes, kind: TokenType)
    requires At(doc, i, [c] + rest)
    requires (c == 'n' && rest == "ull" && kind == NullToken) || (c == 't' && rest == "rue" && kind == TrueToken)
      || (c == 'f' && rest == "alse" && kind == FalseToken)
    ensures ReadToken(doc, i) == Token(kind, i, i + 1 + |rest|)
  {
    hide ScanString, ScanNumber;
    AtSplit(doc, i, [c], rest);
    AtByte(doc, i, [c], 0);
  }

  lemma AtBounds(doc: bytes, i: nat, text: bytes)
    requires At(doc, i, text)
    ensures i + |text| <= |doc|
  {
  }

  // ----- numbers -----

  lemma DigitsAreDigits(t: bytes)
    ensures AllDigitsOf(t, 10) <==> AllDigits(t)
  {
    hide IsDigitOf;
    forall k | 0 <= k < |t| ensures IsDigitOf(t[k], 10) <==> IsDigit(t[k]) {
      DecimalPlace(t[k]);
    }
  }

  lemma {:induction false} MeaningIsPositional(t: bytes)
    requires AllDigits(t)
    ensures Meaning(t) == Positional(t, 10)
    decreases |t|
  {
    hide IsDigitOf, ValueOf;
    if t != [] {
      DecimalPlace(t[|t| - 1]);
      MeaningIsPositional(t[..|t| - 1]);
    }
  }

  lemma FractionScanned(n: Number, doc: bytes, i: nat)
    requires ValidNumber(n) && At(doc, i, FractionText(n))
    requires var e := i + |FractionText(n)|; e == |doc| || (e < |doc| && !IsDigit(doc[e]) && doc[e] != '.')
    ensures i + |FractionText(n)| <= |doc| && SkipFraction(doc, i) == i + |FractionText(n)|
  {
    hide IsDigitOf;
    if n.fraction.Some? {
      var d := n.fraction.value;
      DigitsAreDigits(d);
      AtSplit(doc, i, ".", d);
      AtByte(doc, i, ".", 0);
      SkipAllDigits(doc, i + 1, d);
    }
  }

  lemma ExponentScanned(n: Number, doc: bytes, i: nat)
    requires ValidNumber(n) && At(doc, i, ExponentText(n)) && NumberEnds(doc, i + |ExponentText(n)|)
    ensures i + |ExponentText(n)| <= |doc| && SkipExponent(doc, i) == i + |ExponentText(n)|
  {
    hide IsDigitOf;
    if n.exponent.Some? {
      var x := n.exponent.value;
      var head := [x.letter] + x.sign;
      DigitsAreDigits(x.digits);
      AtSplit(doc, i, head, x.digits);
      AtByte(doc, i, head, 0);
      if x.sign != "" { AtByte(doc, i, head, 1); }
      SkipAllDigits(doc, i + |head|, x.digits);
      if x.sign == "" && x.digits != [] { AtByte(doc, i + 1, x.digits, 0); }
    }
  }

  lemma ExponentStarts(n: Number, doc: bytes, i: nat)
    requires ValidNumber(n) && At(doc, i, ExponentText(n)) && NumberEnds(doc, i + |ExponentText(n)|)
    ensures i == |doc| || (i < |doc| && !IsDigit(doc[i]) && doc[i] != '.')
  {
    if n.exponent.Some? {
      AtByte(doc, i, ExponentText(n), 0);
    }
  }

  lemma FractionStarts(n: Number, doc: bytes, i: nat)
    requires ValidNumber(n) && At(doc, i, FractionText(n) + ExponentText(n))
    requires NumberEnds(doc, i + |FractionText(n) + ExponentText(n)|)
    ensures i == |doc| || (i < |doc| && !IsDigit(doc[i]))
  {
    AtSplit(doc, i, FractionText(n), ExponentText(n));
    if n.fraction.Some? {
      AtByte(doc, i, FractionText(n), 0);
    } else {
      ExponentStarts(n, doc, i);
    }
  }

  /** From behind the sign or the first digit on, the scan passes the whole number. */
  lemma RestScanned(n: Number, digits: bytes, doc: bytes, i: nat)
    requires ValidNumber(n) && AllDigits(digits) && At(doc, i, digits + (FractionText(n) + ExponentText(n)))
    requires NumberEnds(doc, i + |digits + (FractionText(n) + ExponentText(n))|)
    ensures i + |digits + (FractionText(n) + ExponentText(n))| <= |doc|
    ensures ScanNumber(doc, i) == i + |digits + (FractionText(n) + ExponentText(n))|
  {
    hide ValidNumber, NumberEnds, FractionText, ExponentText, SkipFraction, SkipExponent, SkipDigits, At, AllDigits;
    var fraction, exponent := FractionText(n), ExponentText(n);
    var j := i + |digits|;
    var k := j + |fraction|;
    AtSplit(doc, i, digits, fraction + exponent);
    AtSplit(doc, j, fraction, exponent);
    AtBounds(doc, k, exponent);
    FractionStarts(n, doc, j);
    SkipAllDigits(doc, i, digits);
    ExponentStarts(n, doc, k);
    FractionScanned(n, doc, j);
    ExponentScanned(n, doc, k);
  }

  /** The text behind a sign does not begin like `Infinity`. */
  lemma NoInfinity(n: Number, doc: bytes, i: nat)
    requires ValidNumber(n) && At(doc, i, n.digits + (FractionText(n) + ExponentText(n)))
    requires NumberEnds(doc, i + |n.digits + (FractionText(n) + ExponentText(n))|)
    ensures i < |doc| ==> doc[i] != 'I'
  {
    hide IsDigitOf;
    var text := n.digits + (FractionText(n) + ExponentText(n));
    if text != [] {
      AtByte(doc, i, text, 0);
      DigitsAreDigits(n.digits);
      assert n.digits == [] && n.fraction.None? ==> text[0] == n.exponent.value.letter;
    }
  }

  /** A number is one token. */
  lemma NumberIsToken(n: Number, doc: bytes, i: nat)
    requires ValidNumber(n) && At(doc, i, NumberText(n)) && NumberEnds(doc, i + |NumberText(n)|)
    ensures i < i + |NumberText(n)| <= |doc| && (doc[i] == '-' || doc[i] == '+' || IsDigit(doc[i]))
    ensures ReadToken(doc, i) == Token(NumberToken, i, i + |NumberText(n)|)
  {
    hide NumberEnds, FractionText, ExponentText, ScanNumber, ScanString, IsDigitOf, ReadToken, At;
    var rest := FractionText(n) + ExponentText(n);
    DigitsAreDigits(n.digits);
    if n.sign != "" {
      AtSplit(doc, i, n.sign, n.digits + rest);
      AtByte(doc, i, n.sign, 0);
      NoInfinity(n, doc, i + 1);
      RestScanned(n, n.digits, doc, i + 1);
    } else {
      assert NumberText(n) == n.digits + rest;
      AtByte(doc, i, n.digits + rest, 0);
      var more := n.digits[1..];
      assert n.digits + rest == [n.digits[0]] + (more + rest);
      AtSplit(doc, i, [n.digits[0]], more + rest);
      RestScanned(n, more, doc, i + 1);
    }
    AtBounds(doc, i, NumberText(n));
    NumberOpens(doc, i);
  }

  lemma NumberOpens(doc: bytes, i: nat)
    requires i < |doc|
    requires IsDigit(doc[i]) || ((doc[i] == '-' || doc[i] == '+') && (i + 1 < |doc| ==> doc[i + 1] != 'I'))
    ensures ReadToken(doc, i) == Token(NumberToken, i, ScanNumber(doc, i + 1))
  {
    hide ScanNumber, ScanString;
  }

  /** What the token is decoded to. */
  lemma NumberIsDecoded(f: Features, n: Number)
    requires ValidNumber(n)
    ensures NumberText(n) != []
    ensures DecodeNumberToken(f, NumberText(n)) == if ExpectNumber(f, n).Gives? then Some(ExpectNumber(f, n).value)
      else None
    ensures !ExpectNumber(f, n).Throws?
  {
    hide IsDigitOf, Positional, DecodeNumber;
    DigitsAreDigits(n.digits);
    MeaningIsPositional(n.digits);
    if n.fraction.None? && n.exponent.None? && n.sign != "+" {
      assert NumberText(n) == n.sign + n.digits by { assert n.digits + ([] + []) == n.digits; }
      assert n.sign == "" ==> n.sign + n.digits == n.digits;
      DecodeNumberIsExact(n.digits, n.sign == "-");
    } else {
      NotAnInteger(n);
    }
  }

  lemma NotAnInteger(n: Number)
    requires ValidNumber(n) && (n.fraction.Some? || n.exponent.Some? || n.sign == "+")
    ensures NumberText(n) != [] && DecodeNumber(NumberText(n)) == Real(NumberText(n))
  {
    hide IsDigitOf;
    var t, d := NumberText(n), if n.sign == "-" then 1 else 0;
    if n.sign == "+" {
      assert t[0] == '+' && t[0..][0] == t[0];
    } else {
      var k := d + |n.digits|;
      assert t[k] == if n.fraction.Some? then '.' else n.exponent.value.letter;
      assert t[d..][k - d] == t[k];
      if n.sign == "" { DecimalPlace(n.digits[0]); }
      assert t[0] == if n.sign == "-" then '-' else n.digits[0];
    }
    NotDigitsToDouble(t, d, 0, n.sign == "-");
  }

  // ----- values -----

  lemma NumberBegins(n: Number)
    requires ValidNumber(n)
    ensures NumberText(n) != [] && (IsDigit(NumberText(n)[0]) || NumberText(n)[0] == '+' || NumberText(n)[0] == '-')
  {
    hide IsDigitOf;
    DigitsAreDigits(n.digits);
    assert NumberText(n)[0] == if n.sign != "" then n.sign[0] else n.digits[0];
  }

  /** A text starts with a byte that opens a value token. */
  lemma FirstByte(j: Json)
    requires ValidText(j) && !j.Absent?
    ensures Render(j) != [] && !IsSpace(Render(j)[0]) && Render(j)[0] !in [']', '}', ',']
  {
    hide RenderItems, RenderFields, NumberText, ValidNumber, Body;
    match j
    case Num(n) => NumberBegins(n);
    case Str(ps) => assert Quoted(ps)[0] == '\"';
    case _ =>
  }

  lemma ScalarReads(f: Features, j: Json, doc: bytes, i: nat, depth: nat)
    requires ValidText(j) && !j.List? && !j.Record? && !j.Absent? && depth <= f.stackLimit
    requires At(doc, i, Render(j)) && (j.Num? ==> NumberEnds(doc, i + |Render(j)|))
    ensures i <= |doc| && ReadValue(f, doc, i, depth) == AsRead(Expect(f, j, depth), i + |Render(j)|)
  {
    hide ReadToken, ReadItems, ReadMembers, Denoted, DecodeBody, ExpectNumber, DecodeNumberToken, NumberText, Quoted,
      NumberEnds, ValidNumber, AllValid;
    AtBounds(doc, i, Render(j));
    match j
    case NullWord => LiteralToken(doc, i, 'n', "ull", NullToken);
    case TrueWord => LiteralToken(doc, i, 't', "rue", TrueToken);
    case FalseWord => LiteralToken(doc, i, 'f', "alse", FalseToken);
    case Num(n) =>
      NumberIsToken(n, doc, i);
      NumberIsDecoded(f, n);
    case Str(ps) => StringIsToken(ps, doc, i);
  }

  lemma StringIsToken(ps: seq<Piece>, doc: bytes, i: nat)
    requires AllValid(ps) && At(doc, i, Quoted(ps))
    ensures i + |Quoted(ps)| <= |doc| && |Quoted(ps)| >= 2
    ensures ReadToken(doc, i) == Token(StringToken, i, i + |Quoted(ps)|)
    ensures DecodeToken(doc, ReadToken(doc, i)) == Denoted(ps)
  {
    hide AllValid, Body, Denoted, DecodeBody, ScanString;
    StringIsRead(ps, doc, i);
  }

  /** Where a value has been left out the reader sees the next separator or closing bracket. */
  lemma AbsentReads(f: Features, doc: bytes, i: nat, depth: nat)
    requires i < |doc| && doc[i] in [',', ']', '}']
    ensures ReadValue(f, doc, i, depth) == AsRead(Expect(f, Absent, depth), i)
  {
    hide ReadItems, ReadMembers, ScanString, ScanNumber, DecodeToken, ReadToken;
    assert At(doc, i, [doc[i]]);
    PunctuationToken(doc, i, doc[i]);
  }

  lemma Containers(f: Features, doc: bytes, i: nat, depth: nat)
    requires i <= |doc| && depth <= f.stackLimit
    ensures var t := ReadToken(doc, i);
      && (t.kind == ArrayBegin ==> ReadValue(f, doc, i, depth) == ReadItems(f, doc, t.end, depth, []))
      && (t.kind == ObjectBegin ==> ReadValue(f, doc, i, depth) == ReadMembers(f, doc, t.end, depth, [], []))
  {
    hide ReadToken, ReadItems, ReadMembers;
  }

  lemma {:induction false} ValueReads(f: Features, j: Json, doc: bytes, i: nat, depth: nat)
    requires ValidText(j) && !j.Absent?
    requires At(doc, i, Render(j)) && (j.Num? ==> NumberEnds(doc, i + |Render(j)|))
    ensures i <= |doc| && ReadValue(f, doc, i, depth) == AsRead(Expect(f, j, depth), i + |Render(j)|)
    decreases j, 2
  {
    hide At, NumberEnds, ReadToken, ReadItems, ReadMembers, Render;
    AtBounds(doc, i, Render(j));
    TooDeepThrows(f, doc, i, depth);
    if depth <= f.stackLimit {
      if j.List? {
        ListReads(f, j, doc, i, depth);
      } else if j.Record? {
        RecordReads(f, j, doc, i, depth);
      } else {
        ScalarReads(f, j, doc, i, depth);
      }
    }
  }

  lemma TooDeepThrows(f: Features, doc: bytes, i: nat, depth: nat)
    requires i <= |doc|
    ensures depth > f.stackLimit ==> ReadValue(f, doc, i, depth) == Thrown
  {
    hide ReadItems, ReadMembers, ReadToken;
  }

  /** An array, wherever it stands, is read as expected of its items. */
  lemma ListReads(f: Features, j: Json, doc: bytes, i: nat, depth: nat)
    requires ValidText(j) && j.List? && depth <= f.stackLimit && At(doc, i, Render(j))
    ensures i <= |doc| && ReadValue(f, doc, i, depth) == AsRead(Expect(f, j, depth), i + |Render(j)|)
    decreases j, 1
  {
    hide ReadToken, ReadValue, ReadItems, ExpectItems, RenderItems, ValidItem;
    var rest := RenderItems(j.items) + j.inside + "]";
    AtSplit(doc, i, "[", rest);
    PunctuationToken(doc, i, '[');
    Containers(f, doc, i, depth);
    if j.items == [] {
      NoItems(f, depth, []);
      assert rest == j.inside + "]";
      AtSplit(doc, i + 1, j.inside, "]");
      ItemsEnd(f, doc, i + 1, depth, [], j.inside);
    } else {
      assert rest == RenderItems(j.items) + "]";
      ItemsRead(f, j.items, doc, i + 1, depth, []);
    }
  }

  lemma NoItems(f: Features, depth: nat, done: seq<Value>)
    ensures ExpectItems(f, [], depth, done) == Gives(Array(done)) && RenderItems([]) == []
  {
  }

  /** An object, wherever it stands, is read as expected of its members. */
  lemma RecordReads(f: Features, j: Json, doc: bytes, i: nat, depth: nat)
    requires ValidText(j) && j.Record? && depth <= f.stackLimit && At(doc, i, Render(j))
    ensures i <= |doc| && ReadValue(f, doc, i, depth) == AsRead(Expect(f, j, depth), i + |Render(j)|)
    decreases j, 1
  {
    hide ReadToken, ReadValue, ReadMembers, ExpectFields, RenderFields, ValidField;
    AtSplit(doc, i, "{", RenderFields(j.fields) + Tail(j.comma, j.inside));
    PunctuationToken(doc, i, '{');
    Containers(f, doc, i, depth);
    FieldsRead(f, j.fields, j.comma, j.inside, doc, i + 1, depth, [], []);
  }

  // ----- the items of an array -----

  /** One turn of the `readArray` loop, at white space before an item that is not taken for the end. */
  lemma ItemStep(f: Features, doc: bytes, i: nat, depth: nat, done: seq<Value>, ws: bytes)
    requires AllWhite(ws) && At(doc, i, ws) && i + |ws| < |doc| && !IsSpace(doc[i + |ws|])
    requires doc[i + |ws|] == ']' ==> done != [] && (f.allowTrailingCommas ==> f.allowDroppedNullPlaceholders)
    ensures var r := ReadValue(f, doc, i + |ws|, depth + 1);
      ReadItems(f, doc, i, depth, done)
      == if !r.Parsed? then r
         else
           var t := ReadToken(doc, r.pos);
           if t.kind == ArrayEnd then Parsed(Array(done + [r.value]), t.end)
           else if t.kind == ArraySeparator then ReadItems(f, doc, t.end, depth, done + [r.value])
           else Failed
  {
    hide ReadValue, ReadToken;
    WhiteSkipped(doc, i, ws);
  }

  /** The loop ends at a closing bracket, behind a comma if trailing commas are allowed. */
  lemma ItemsEnd(f: Features, doc: bytes, i: nat, depth: nat, done: seq<Value>, ws: bytes)
    requires AllWhite(ws) && At(doc, i, ws) && At(doc, i + |ws|, "]") && Unseen(f, done)
    ensures i <= |doc| && ReadItems(f, doc, i, depth, done) == Parsed(Array(done), i + |ws| + 1)
  {
    hide ReadItem;
    AtByte(doc, i + |ws|, "]", 0);
    WhiteSkipped(doc, i, ws);
  }

  /** A value, or nothing, and white space, followed by a separator or a closing bracket. */
  lemma DelimitedReads(f: Features, j: Json, ws: bytes, c: byte, doc: bytes, i: nat, depth: nat)
    requires ValidText(j) && AllWhite(ws) && c in [',', ']', '}'] && (j.Absent? ==> ws == "")
    requires At(doc, i, Render(j)) && At(doc, i + |Render(j)|, ws) && At(doc, i + |Render(j)| + |ws|, [c])
    ensures i < |doc| && !IsSpace(doc[i]) && (if j.Absent? then doc[i] == c else doc[i] != ']')
    ensures ReadValue(f, doc, i, depth) == AsRead(Expect(f, j, depth), i + |Render(j)|)
    ensures var e := i + |Render(j)| + |ws|; ReadToken(doc, i + |Render(j)|) == Token(OneByte(c), e, e + 1)
    decreases j, 3
  {
    hide ValidText, ReadValue, ReadToken, Expect, Render, At, IsSpace, OneByte, AllWhite;
    var e := i + |Render(j)|;
    PunctuationToken(doc, e + |ws|, c);
    SeparatorHere(doc, e + |ws|, c);
    TokenSkipsWhite(doc, e, ws);
    if j.Absent? {
      NothingRendered();
      AbsentReads(f, doc, i, depth);
    } else {
      FirstByte(j);
      AtByte(doc, i, Render(j), 0);
      WhiteEndsNumber(doc, e, ws, c);
      ValueReads(f, j, doc, i, depth);
    }
  }

  lemma SeparatorHere(doc: bytes, i: nat, c: byte)
    requires At(doc, i, [c]) && c in [',', ']', '}']
    ensures i < |doc| && doc[i] == c && !IsSpace(doc[i])
  {
    AtByte(doc, i, [c], 0);
  }

  lemma WhiteEndsNumber(doc: bytes, i: nat, ws: bytes, c: byte)
    requires AllWhite(ws) && At(doc, i, ws) && At(doc, i + |ws|, [c]) && c in [',', ']', '}']
    ensures NumberEnds(doc, i)
  {
    AtByte(doc, i + |ws|, [c], 0);
    if ws != [] { AtByte(doc, i, ws, 0); }
  }

  lemma ItemsSplit(items: seq<Item>)
    requires items != []
    ensures |items| == 1 ==> RenderItems(items) == RenderItem(items[0])
    ensures |items| > 1 ==> RenderItems(items) == RenderItem(items[0]) + ("," + RenderItems(items[1..]))
  {
    hide RenderItem;
  }

  lemma ExpectNextItem(f: Features, items: seq<Item>, depth: nat, done: seq<Value>)
    requires items != []
    ensures |items| == 1 && items[0].value.Absent? && Unseen(f, done) ==>
      ExpectItems(f, items, depth, done) == Gives(Array(done))
    ensures !(|items| == 1 && items[0].value.Absent? && Unseen(f, done)) ==>
      var r := Expect(f, items[0].value, depth + 1);
      ExpectItems(f, items, depth, done) == if r.Gives? then ExpectItems(f, items[1..], depth, done + [r.value]) else r
  {
    hide Expect;
  }

  lemma AtJoin(doc: bytes, i: nat, a: bytes, b: bytes)
    requires At(doc, i, a) && At(doc, i + |a|, b)
    ensures At(doc, i, a + b)
  {
    assert doc[i..i + |a + b|] == doc[i..i + |a|] + doc[i + |a|..i + |a| + |b|];
  }

  lemma ItemParts(m: Item, tail: bytes, doc: bytes, i: nat)
    requires ValidItem(m) && At(doc, i, RenderItem(m) + tail)
    ensures var j := i + |m.before|; var k := j + |Render(m.value)|; var e := k + |m.after|;
      && e == i + |RenderItem(m)|
      && At(doc, i, m.before) && At(doc, j, Render(m.value)) && At(doc, k, m.after) && At(doc, e, tail)
    ensures ValidText(m.value) && AllWhite(m.before) && AllWhite(m.after) && (m.value.Absent? ==> m.after == "")
  {
    hide Render;
    AtSplit(doc, i, m.before + Render(m.value) + m.after, tail);
    AtSplit(doc, i, m.before + Render(m.value), m.after);
    AtSplit(doc, i, m.before, Render(m.value));
  }

  /** The loop, entered before any item with the earlier ones already read, finishes the array as expected. */
  lemma {:induction false} ItemsRead(f: Features, items: seq<Item>, doc: bytes, i: nat, depth: nat, done: seq<Value>)
    requires items != [] && (forall k :: 0 <= k < |items| ==> ValidItem(items[k])) && depth <= f.stackLimit
    requires At(doc, i, RenderItems(items) + "]")
    ensures i <= |doc|
    ensures ReadItems(f, doc, i, depth, done)
      == AsRead(ExpectItems(f, items, depth, done), i + |RenderItems(items)| + 1)
    decreases items, 6
  {
    hide At, ReadItems, ReadValue, ReadToken, ValidItem, RenderItem, RenderItems, Expect, ExpectItems, Unseen;
    ItemsSplit(items);
    if |items| == 1 {
      LastItem(f, items, doc, i, depth, done);
    } else {
      var e := i + |RenderItem(items[0])|;
      var rest := RenderItems(items[1..]) + "]";
      assert RenderItems(items) + "]" == RenderItem(items[0]) + ("," + rest);
      AtSplit(doc, i, RenderItem(items[0]), "," + rest);
      AtSplit(doc, e, ",", rest);
      AtJoin(doc, i, RenderItem(items[0]), ",");
      var r := Expect(f, items[0].value, depth + 1);
      if r.Gives? {
        ItemsRead(f, items[1..], doc, e + 1, depth, done + [r.value]);
      }
      MoreItems(f, items, doc, i, depth, done);
    }
  }

  /** One turn of the loop: an item and the byte behind it. */
  lemma ItemTurn(f: Features, m: Item, c: byte, doc: bytes, i: nat, depth: nat, done: seq<Value>)
    requires ValidItem(m) && c in [',', ']'] && At(doc, i, RenderItem(m) + [c])
    requires m.value.Absent? && c == ']' ==> done != [] && (f.allowTrailingCommas ==> f.allowDroppedNullPlaceholders)
    ensures i + |RenderItem(m)| + 1 <= |doc|
    ensures var r, e := Expect(f, m.value, depth + 1), i + |RenderItem(m)| + 1;
      ReadItems(f, doc, i, depth, done)
      == if !r.Gives? then AsRead(r, e)
         else if c == ']' then Parsed(Array(done + [r.value]), e)
         else ReadItems(f, doc, e, depth, done + [r.value])
    decreases m, 4
  {
    hide At, ReadItems, ReadValue, ReadToken, ValidItem, RenderItem, Render, Expect;
    ItemParts(m, [c], doc, i);
    AtBounds(doc, i, RenderItem(m) + [c]);
    DelimitedReads(f, m.value, m.after, c, doc, i + |m.before|, depth + 1);
    ItemStep(f, doc, i, depth, done, m.before);
  }

  lemma LastItem(f: Features, items: seq<Item>, doc: bytes, i: nat, depth: nat, done: seq<Value>)
    requires |items| == 1 && ValidItem(items[0]) && At(doc, i, RenderItem(items[0]) + "]")
    ensures i <= |doc|
    ensures ReadItems(f, doc, i, depth, done)
      == AsRead(ExpectItems(f, items, depth, done), i + |RenderItem(items[0])| + 1)
    decreases items[0], 5
  {
    hide At, ReadItems, ValidItem, RenderItem, Render, Expect, ExpectItems, Unseen;
    var m := items[0];
    ExpectNextItem(f, items, depth, done);
    if m.value.Absent? && Unseen(f, done) {
      ItemParts(m, "]", doc, i);
      NothingRendered();
      ItemsEnd(f, doc, i, depth, done, m.before);
    } else {
      SeenItem(f, m.value, done);
      ItemTurn(f, m, ']', doc, i, depth, done);
      assert items[1..] == [];
      var r := Expect(f, m.value, depth + 1);
      if r.Gives? {
        NoItems(f, depth, done + [r.value]);
      }
    }
  }

  lemma MoreItems(f: Features, items: seq<Item>, doc: bytes, i: nat, depth: nat, done: seq<Value>)
    requires |items| > 1 && ValidItem(items[0]) && At(doc, i, RenderItem(items[0]) + ",")
    requires var r, e := Expect(f, items[0].value, depth + 1), i + |RenderItem(items[0])| + 1;
      r.Gives? ==>
        && e <= |doc|
        && ReadItems(f, doc, e, depth, done + [r.value])
           == AsRead(ExpectItems(f, items[1..], depth, done + [r.value]), e + |RenderItems(items[1..])| + 1)
    ensures i <= |doc|
    ensures ReadItems(f, doc, i, depth, done)
      == AsRead(ExpectItems(f, items, depth, done), i + |RenderItem(items[0])| + 1 + |RenderItems(items[1..])| + 1)
    decreases items[0], 5
  {
    hide At, ReadItems, ValidItem, RenderItem, RenderItems, Render, Expect, ExpectItems, Unseen;
    ExpectNextItem(f, items, depth, done);
    ItemTurn(f, items[0], ',', doc, i, depth, done);
  }

  lemma NothingRendered()
    ensures Render(Absent) == ""
  {
  }

  lemma SeenItem(f: Features, j: Json, done: seq<Value>)
    requires !(j.Absent? && Unseen(f, done))
    ensures j.Absent? ==> done != [] && (f.allowTrailingCommas ==> f.allowDroppedNullPlaceholders)
  {
  }

  // ----- the members of an object -----

  /** One turn of the `readObject` loop, at a key. */
  lemma FieldStep(f: Features, doc: bytes, i: nat, depth: nat, done: seq<Member>, name: bytes)
    requires i <= |doc| && ReadToken(doc, i).kind == StringToken
    requires ReadToken(doc, ReadToken(doc, i).end).kind == MemberSeparator
    ensures var t, key := ReadToken(doc, i), DecodeToken(doc, ReadToken(doc, i));
      var r := ReadValue(f, doc, ReadToken(doc, t.end).end, depth + 1);
      ReadMembers(f, doc, i, depth, done, name)
      == if key.None? then Failed
         else if |key.value| >= 0x4000_0000 then Thrown
         else if f.rejectDupKeys && HasMember(done, key.value) then Failed
         else if !r.Parsed? then r
         else
           var comma, read := ReadToken(doc, r.pos), Insert(done, key.value, r.value);
           if comma.kind == ObjectEnd then Parsed(Object(read), comma.end)
           else if comma.kind == ArraySeparator then ReadMembers(f, doc, comma.end, depth, read, key.value)
           else Failed
  {
    hide ReadValue, ReadToken, DecodeToken, HasMember, Insert;
  }

  lemma FieldParts(m: Field, tail: bytes, doc: bytes, i: nat)
    requires At(doc, i, RenderField(m) + tail)
    ensures var j := i + |m.before|; var k := j + |Quoted(m.key)|; var colon := k + |m.gap|;
      var v := colon + 1 + |m.middle|; var w := v + |Render(m.value)|; var e := w + |m.after|;
      && e == i + |RenderField(m)|
      && At(doc, i, m.before) && At(doc, j, Quoted(m.key)) && At(doc, k, m.gap) && At(doc, colon, ":")
      && At(doc, colon + 1, m.middle) && At(doc, v, Render(m.value)) && At(doc, w, m.after) && At(doc, e, tail)
  {
    hide Render, Quoted, At;
    var b := m.middle + (Render(m.value) + m.after);
    FourParts(m.before, Quoted(m.key), m.gap, ":" + b, tail, doc, i);
    var colon := i + |m.before| + |Quoted(m.key)| + |m.gap|;
    AtSplit(doc, colon, ":", b);
    AtSplit(doc, colon + 1, m.middle, Render(m.value) + m.after);
    AtSplit(doc, colon + 1 + |m.middle|, Render(m.value), m.after);
  }

  lemma FourParts(a: bytes, b: bytes, c: bytes, d: bytes, tail: bytes, doc: bytes, i: nat)
    requires At(doc, i, a + (b + (c + d)) + tail)
    ensures At(doc, i, a) && At(doc, i + |a|, b) && At(doc, i + |a| + |b|, c) && At(doc, i + |a| + |b| + |c|, d)
    ensures At(doc, i + |a| + |b| + |c| + |d|, tail)
  {
    hide At;
    AtSplit(doc, i, a + (b + (c + d)), tail);
    AtSplit(doc, i, a, b + (c + d));
    AtSplit(doc, i + |a|, b, c + d);
    AtSplit(doc, i + |a| + |b|, c, d);
  }

  lemma ValidFieldParts(m: Field)
    requires ValidField(m)
    ensures ValidText(m.value) && AllValid(m.key) && AllWhite(m.before) && AllWhite(m.gap) && AllWhite(m.middle)
    ensures AllWhite(m.after) && (m.value.Absent? ==> m.after == "")
  {
  }

  /** The key and the colon of a member. */
  lemma KeyReads(f: Features, m: Field, tail: bytes, doc: bytes, i: nat, depth: nat)
    requires ValidField(m) && At(doc, i, RenderField(m) + tail)
    ensures i <= |doc| && ReadToken(doc, i).kind == StringToken && DecodeToken(doc, ReadToken(doc, i)) == Denoted(m.key)
    ensures var colon := ReadToken(doc, ReadToken(doc, i).end);
      var v := i + |m.before| + |Quoted(m.key)| + |m.gap| + 1 + |m.middle|;
      && colon.kind == MemberSeparator
      && v <= |doc| && ReadValue(f, doc, colon.end, depth) == ReadValue(f, doc, v, depth)
  {
    hide At, ReadToken, ReadValue, DecodeToken, Denoted, Quoted, Render, RenderField, ValidField;
    ValidFieldParts(m);
    FieldParts(m, tail, doc, i);
    AtBounds(doc, i, RenderField(m) + tail);
    var j, k := i + |m.before|, i + |m.before| + |Quoted(m.key)|;
    TokenSkipsWhite(doc, i, m.before);
    StringIsToken(m.key, doc, j);
    TokenSkipsWhite(doc, k, m.gap);
    PunctuationToken(doc, k + |m.gap|, ':');
    ValueSkipsWhite(f, doc, k + |m.gap| + 1, depth, m.middle);
  }

  /** One turn of the loop: a member and the byte behind it. */
  lemma FieldTurn(f: Features, m: Field, c: byte, doc: bytes, i: nat, depth: nat, done: seq<Member>, name: bytes)
    requires ValidField(m) && c in [',', '}'] && At(doc, i, RenderField(m) + [c])
    ensures i + |RenderField(m)| + 1 <= |doc|
    ensures var key, r, e := Denoted(m.key), Expect(f, m.value, depth + 1), i + |RenderField(m)| + 1;
      ReadMembers(f, doc, i, depth, done, name)
      == if key.None? then Failed
         else if |key.value| >= 0x4000_0000 then Thrown
         else if f.rejectDupKeys && HasMember(done, key.value) then Failed
         else if !r.Gives? then AsRead(r, e)
         else if c == '}' then Parsed(Object(Insert(done, key.value, r.value)), e)
         else ReadMembers(f, doc, e, depth, Insert(done, key.value, r.value), key.value)
    decreases m, 4
  {
    hide At, ReadMembers, ReadValue, ReadToken, DecodeToken, Denoted, Quoted, ValidField, RenderField, Render, Expect,
      HasMember, Insert;
    ValidFieldParts(m);
    FieldParts(m, [c], doc, i);
    AtBounds(doc, i, RenderField(m) + [c]);
    KeyReads(f, m, [c], doc, i, depth + 1);
    DelimitedReads(f, m.value, m.after, c, doc, i + |m.before| + |Quoted(m.key)| + |m.gap| + 1 + |m.middle|, depth + 1);
    FieldStep(f, doc, i, depth, done, name);
  }

  lemma FieldsSplit(fields: seq<Field>)
    requires fields != []
    ensures |fields| == 1 ==> RenderFields(fields) == RenderField(fields[0])
    ensures |fields| > 1 ==> RenderFields(fields) == RenderField(fields[0]) + ("," + RenderFields(fields[1..]))
  {
    hide RenderField;
  }

  lemma ExpectNextField(f: Features, fields: seq<Field>, comma: bool, depth: nat, done: seq<Member>, name: bytes)
    ensures fields == [] ==>
      ExpectFields(f, fields, comma, depth, done, name)
      == if name == [] || f.allowTrailingCommas then Gives(Object(done)) else Fails
    ensures fields != [] ==>
      var key, r := Denoted(fields[0].key), Expect(f, fields[0].value, depth + 1);
      ExpectFields(f, fields, comma, depth, done, name)
      == if key.None? then Fails
         else if |key.value| >= 0x4000_0000 then Throws
         else if f.rejectDupKeys && HasMember(done, key.value) then Fails
         else if !r.Gives? then r
         else if |fields| == 1 && !comma then Gives(Object(Insert(done, key.value, r.value)))
         else ExpectFields(f, fields[1..], comma, depth, Insert(done, key.value, r.value), key.value)
  {
    hide Expect, Denoted, Insert, HasMember;
  }

  /** The closing bracket, at the start or behind a comma. */
  lemma FieldsEnd(f: Features, doc: bytes, i: nat, depth: nat, done: seq<Member>, name: bytes, inside: bytes)
    requires AllWhite(inside) && At(doc, i, inside + "}")
    ensures i <= |doc|
    ensures ReadMembers(f, doc, i, depth, done, name)
      == if name == [] || f.allowTrailingCommas then Parsed(Object(done), i + |inside| + 1) else Failed
  {
    hide ReadToken, DecodeToken, ReadMemberValue;
    AtSplit(doc, i, inside, "}");
    TokenSkipsWhite(doc, i, inside);
    PunctuationToken(doc, i + |inside|, '}');
  }

  /** The loop, entered before any member with the earlier ones already read, finishes the object as expected. */
  lemma {:induction false} FieldsRead(f: Features, fields: seq<Field>, comma: bool, inside: bytes, doc: bytes, i: nat,
                                      depth: nat, done: seq<Member>, name: bytes)
    requires forall k :: 0 <= k < |fields| ==> ValidField(fields[k])
    requires AllWhite(inside) && (fields != [] && !comma ==> inside == "") && (comma ==> fields != [])
    requires At(doc, i, RenderFields(fields) + Tail(comma, inside))
    ensures i <= |doc|
    ensures ReadMembers(f, doc, i, depth, done, name)
      == AsRead(ExpectFields(f, fields, comma, depth, done, name), i + |RenderFields(fields)| + |Tail(comma, inside)|)
    decreases fields, 6
  {
    hide At, ReadMembers, ValidField, RenderField, RenderFields, Expect, ExpectFields, Denoted, Insert, HasMember, Tail;
    TailParts(comma, inside);
    if fields == [] {
      ExpectNextField(f, fields, comma, depth, done, name);
      NoFields();
      assert RenderFields(fields) + Tail(comma, inside) == inside + "}";
      FieldsEnd(f, doc, i, depth, done, name, inside);
    } else {
      FieldsShape(fields, comma, inside, doc, i);
      if |fields| == 1 && !comma {
        LastField(f, fields, doc, i, depth, done, name);
      } else if |fields| == 1 {
        CommaField(f, fields, inside, doc, i, depth, done, name);
      } else {
        var m, e := fields[0], i + |RenderField(fields[0])| + 1;
        var key, r := Denoted(m.key), Expect(f, m.value, depth + 1);
        if key.Some? && r.Gives? {
          FieldsRead(f, fields[1..], comma, inside, doc, e, depth, Insert(done, key.value, r.value), key.value);
        }
        MoreFields(f, fields, comma, inside, doc, i, depth, done, name);
      }
    }
  }

  /** The first member and what is behind it. */
  lemma FieldsShape(fields: seq<Field>, comma: bool, inside: bytes, doc: bytes, i: nat)
    requires fields != [] && (!comma ==> inside == "") && At(doc, i, RenderFields(fields) + Tail(comma, inside))
    ensures var m, n := RenderField(fields[0]), |RenderFields(fields)| + |Tail(comma, inside)|;
      && (|fields| == 1 && !comma ==> At(doc, i, m + "}") && n == |m| + 1)
      && (|fields| == 1 && comma ==> At(doc, i, m + ("," + (inside + "}"))) && n == |m| + 1 + |inside| + 1)
      && (|fields| > 1 ==>
            && At(doc, i, m + ",") && At(doc, i + |m| + 1, RenderFields(fields[1..]) + Tail(comma, inside))
            && n == |m| + 1 + |RenderFields(fields[1..])| + |Tail(comma, inside)|)
  {
    hide At, RenderField, RenderFields, Tail;
    FieldsSplit(fields);
    TailParts(comma, inside);
    if |fields| > 1 {
      var m, rest := RenderField(fields[0]), RenderFields(fields[1..]) + Tail(comma, inside);
      assert RenderFields(fields) + Tail(comma, inside) == m + ("," + rest);
      AtSplit(doc, i, m, "," + rest);
      AtSplit(doc, i + |m|, ",", rest);
      AtJoin(doc, i, m, ",");
    }
  }

  lemma LastField(f: Features, fields: seq<Field>, doc: bytes, i: nat, depth: nat, done: seq<Member>, name: bytes)
    requires |fields| == 1 && ValidField(fields[0]) && At(doc, i, RenderField(fields[0]) + "}")
    ensures i <= |doc|
    ensures ReadMembers(f, doc, i, depth, done, name)
      == AsRead(ExpectFields(f, fields, false, depth, done, name), i + |RenderField(fields[0])| + 1)
    decreases fields[0], 5
  {
    hide At, ReadMembers, ValidField, RenderField, Expect, ExpectFields, Denoted, Insert, HasMember;
    ExpectNextField(f, fields, false, depth, done, name);
    FieldTurn(f, fields[0], '}', doc, i, depth, done, name);
  }

  lemma CommaField(f: Features, fields: seq<Field>, inside: bytes, doc: bytes, i: nat, depth: nat, done: seq<Member>,
                   name: bytes)
    requires |fields| == 1 && ValidField(fields[0]) && AllWhite(inside)
    requires At(doc, i, RenderField(fields[0]) + ("," + (inside + "}")))
    ensures i <= |doc|
    ensures ReadMembers(f, doc, i, depth, done, name)
      == AsRead(ExpectFields(f, fields, true, depth, done, name), i + |RenderField(fields[0])| + 1 + |inside| + 1)
    decreases fields[0], 5
  {
    hide At, ReadMembers, ValidField, RenderField, Expect, ExpectFields, Denoted, Insert, HasMember;
    var m, e := fields[0], i + |RenderField(fields[0])|;
    AtSplit(doc, i, RenderField(m), "," + (inside + "}"));
    AtSplit(doc, e, ",", inside + "}");
    AtJoin(doc, i, RenderField(m), ",");
    ExpectNextField(f, fields, true, depth, done, name);
    FieldTurn(f, m, ',', doc, i, depth, done, name);
    var key, r := Denoted(m.key), Expect(f, m.value, depth + 1);
    if key.Some? && r.Gives? {
      var read := Insert(done, key.value, r.value);
      assert fields[1..] == [];
      ExpectNextField(f, [], true, depth, read, key.value);
      FieldsEnd(f, doc, e + 1, depth, read, key.value, inside);
    }
  }

  lemma MoreFields(f: Features, fields: seq<Field>, comma: bool, inside: bytes, doc: bytes, i: nat, depth: nat,
                   done: seq<Member>, name: bytes)
    requires |fields| > 1 && ValidField(fields[0]) && At(doc, i, RenderField(fields[0]) + ",")
    requires var m, e := fields[0], i + |RenderField(fields[0])| + 1;
      var key, r := Denoted(m.key), Expect(f, m.value, depth + 1);
      key.Some? && r.Gives? ==>
        var read := Insert(done, key.value, r.value);
        && e <= |doc|
        && ReadMembers(f, doc, e, depth, read, key.value)
           == AsRead(ExpectFields(f, fields[1..], comma, depth, read, key.value),
                      e + |RenderFields(fields[1..])| + |Tail(comma, inside)|)
    ensures i <= |doc|
    ensures ReadMembers(f, doc, i, depth, done, name)
      == AsRead(ExpectFields(f, fields, comma, depth, done, name),
                 i + |RenderField(fields[0])| + 1 + |RenderFields(fields[1..])| + |Tail(comma, inside)|)
    decreases fields[0], 5
  {
    hide At, ReadMembers, ValidField, RenderField, RenderFields, Expect, ExpectFields, Denoted, Insert, HasMember, Tail;
    ExpectNextField(f, fields, comma, depth, done, name);
    FieldTurn(f, fields[0], ',', doc, i, depth, done, name);
  }

  lemma TailParts(comma: bool, inside: bytes)
    ensures Tail(comma, inside) == if comma then "," + (inside + "}") else inside + "}"
    ensures inside == "" && !comma ==> Tail(comma, inside) == "}"
  {
  }

  lemma NoFields()
    ensures RenderFields([]) == []
  {
  }

  // ----- documents -----

  /** White space in front, and something behind the value that does not belong to it: whatever it is, a reader that
      refuses extra text refuses it, unless it begins with a NUL, which is taken for the end. */
  lemma DocumentReads(f: Features, before: bytes, j: Json, after: bytes, extra: bytes)
    requires ValidText(j) && !j.Absent? && AllWhite(before) && AllWhite(after)
    requires extra == [] || (extra[0] !in WHITE && (j.Num? && after == [] ==> NumberEnds(extra, 0)))
    ensures Parse(f, before + Render(j) + after + extra)
      == var r := Expect(f, j, 1);
         if !r.Gives? then AsRead(r, 0)
         else if f.failIfExtra && extra != [] && extra[0] != '\0' then Failed
         else if f.strictRoot && !j.List? && !j.Record? then Failed
         else Parsed(r.value, |before + Render(j)|)
  {
    hide At, ReadValue, ReadToken, Render, Expect, ValidText, AllWhite, NumberEnds;
    var doc, i := before + Render(j) + after + extra, |before|;
    var e := i + |Render(j)|;
    DocumentParts(before, Render(j), after, extra);
    ValueSkipsWhite(f, doc, 0, 1, before);
    AfterValue(doc, e, after, extra, j.Num?);
    ValueReads(f, j, doc, i, 1);
    KindRead(f, j, 1);
  }

  lemma DocumentParts(before: bytes, text: bytes, after: bytes, extra: bytes)
    ensures var doc := before + text + after + extra;
      && At(doc, 0, before) && At(doc, |before|, text) && At(doc, |before| + |text|, after)
      && At(doc, |before| + |text| + |after|, extra) && |doc| == |before| + |text| + |after| + |extra|
  {
    hide At;
    var doc := before + text + after + extra;
    AtWhole(doc);
    AtSplit(doc, 0, before + text + after, extra);
    AtSplit(doc, 0, before + text, after);
    AtSplit(doc, 0, before, text);
  }

  lemma AfterValue(doc: bytes, e: nat, after: bytes, extra: bytes, number: bool)
    requires AllWhite(after) && At(doc, e, after) && At(doc, e + |after|, extra) && |doc| == e + |after| + |extra|
    requires extra == [] || (extra[0] !in WHITE && (number && after == [] ==> NumberEnds(extra, 0)))
    ensures number ==> NumberEnds(doc, e)
    ensures e <= |doc| && (ReadToken(doc, e).kind == EndOfStream <==> extra == [] || extra[0] == '\0')
  {
    hide ReadToken;
    TokenSkipsWhite(doc, e, after);
    if after != [] { AtByte(doc, e, after, 0); }
    if extra != [] {
      AtByte(doc, e + |after|, extra, 0);
      WhiteIsSpace(extra[0]);
      SomeToken(doc, e + |after|);
    } else {
      NoToken(doc, e + |after|);
    }
  }

  lemma SomeToken(doc: bytes, i: nat)
    requires i < |doc| && !IsSpace(doc[i])
    ensures ReadToken(doc, i).kind == EndOfStream <==> doc[i] == '\0'
  {
    hide ScanString, ScanNumber;
  }

  lemma NoToken(doc: bytes, i: nat)
    requires i == |doc|
    ensures ReadToken(doc, i).kind == EndOfStream
  {
  }

  /** Arrays are read as arrays, objects as objects, and nothing else is. */
  lemma KindRead(f: Features, j: Json, depth: nat)
    requires !j.Absent?
    ensures var r := Expect(f, j, depth); r.Gives? ==> r.value.Array? == j.List? && r.value.Object? == j.Record?
  {
    hide Denoted, Positional;
    if j.List? {
      ItemsKind(f, j.items, depth, []);
    } else if j.Record? {
      FieldsKind(f, j.fields, j.comma, depth, [], []);
    }
  }

  /** The array read begins with what has been read before. */
  lemma {:induction false} ItemsKind(f: Features, items: seq<Item>, depth: nat, done: seq<Value>)
    ensures var r := ExpectItems(f, items, depth, done); r.Gives? ==> r.value.Array? && done <= r.value.items
    decreases |items|
  {
    hide Expect, Unseen;
    if items != [] {
      ExpectNextItem(f, items, depth, done);
      var r := Expect(f, items[0].value, depth + 1);
      if r.Gives? {
        ItemsKind(f, items[1..], depth, done + [r.value]);
      }
    }
  }

  lemma {:induction false} FieldsKind(f: Features, fields: seq<Field>, comma: bool, depth: nat, done: seq<Member>,
                                      name: bytes)
    ensures var r := ExpectFields(f, fields, comma, depth, done, name); r.Gives? ==> r.value.Object?
    decreases |fields|
  {
    hide Expect, Denoted, Insert, HasMember;
    if fields != [] {
      ExpectNextField(f, fields, comma, depth, done, name);
      var key, r := Denoted(fields[0].key), Expect(f, fields[0].value, depth + 1);
      if key.Some? && r.Gives? {
        FieldsKind(f, fields[1..], comma, depth, Insert(done, key.value, r.value), key.value);
      }
    }
  }
}
