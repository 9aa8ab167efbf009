/** What `OurReader` accepts is a text: from every document that parses the text can be read off, and it stands for the
    value that the parse gives. */
module JsonExact {
  import opened Bytes
  import opened Utf8
  import opened Places
  import opened JsonValue
  import opened JsonStrings
  import opened JsonPieces
  import opened Decimal
  import opened JsonNumbers
  import opened JsonText
  import opened JsonSyntax

  lemma AtIs(doc: bytes, i: nat, j: nat)
    requires i <= j <= |doc|
    ensures At(doc, i, doc[i..j])
  {
  }

  lemma SlicesJoin(doc: bytes, i: nat, j: nat, k: nat)
    requires i <= j <= k <= |doc|
    ensures doc[i..k] == doc[i..j] + doc[j..k]
  {
  }

  lemma {:induction false} WhiteHere(doc: bytes, i: nat)
    requires i <= |doc|
    ensures AllWhite(doc[i..SkipSpaces(doc, i)])
    decreases |doc| - i
  {
    if i < |doc| && IsSpace(doc[i]) {
      WhiteIsSpace(doc[i]);
      WhiteHere(doc, i + 1);
      SlicesJoin(doc, i, i + 1, SkipSpaces(doc, i + 1));
    }
  }

  // ----- numbers -----

  lemma {:induction false} DigitsHere(doc: bytes, i: nat)
    requires i <= |doc|
    ensures AllDigitsOf(doc[i..SkipDigits(doc, i)], 10)
    decreases |doc| - i
  {
    hide IsDigitOf;
    if i < |doc| && IsDigit(doc[i]) {
      DecimalPlace(doc[i]);
      DigitsHere(doc, i + 1);
      SlicesJoin(doc, i, i + 1, SkipDigits(doc, i + 1));
    }
  }

  lemma FractionHere(doc: bytes, i: nat) returns (fraction: Option<bytes>)
    requires i <= |doc|
    ensures fraction.Some? ==> AllDigitsOf(fraction.value, 10)
    ensures (if fraction.None? then [] else "." + fraction.value) == doc[i..SkipFraction(doc, i)]
  {
    hide AllDigitsOf;
    if i < |doc| && doc[i] == '.' {
      DigitsHere(doc, i + 1);
      fraction := Some(doc[i + 1..SkipDigits(doc, i + 1)]);
      SlicesJoin(doc, i, i + 1, SkipDigits(doc, i + 1));
    } else {
      fraction := None;
    }
  }

  predicate ValidExponent(x: Option<Exponent>) {
    x.Some? ==>
      && (x.value.letter == 'e' || x.value.letter == 'E') && IsSign(x.value.sign) && AllDigitsOf(x.value.digits, 10)
  }

  lemma ExponentHere(doc: bytes, i: nat) returns (exponent: Option<Exponent>)
    requires i <= |doc|
    ensures ValidExponent(exponent)
    ensures (if exponent.None? then [] else [exponent.value.letter] + exponent.value.sign + exponent.value.digits)
      == doc[i..SkipExponent(doc, i)]
  {
    hide AllDigitsOf;
    if i < |doc| && (doc[i] == 'e' || doc[i] == 'E') {
      var j := if i + 1 < |doc| && (doc[i + 1] == '+' || doc[i + 1] == '-') then i + 2 else i + 1;
      DigitsHere(doc, j);
      var sign := doc[i + 1..j];
      assert IsSign(sign) by { assert j == i + 2 ==> sign == [doc[i + 1]]; }
      exponent := Some(Exponent(doc[i], sign, doc[j..SkipDigits(doc, j)]));
      SlicesJoin(doc, i, j, SkipDigits(doc, j));
      SlicesJoin(doc, i, i + 1, j);
    } else {
      exponent := None;
    }
  }

  /** Fraction and exponent behind the digits that end at `j`. */
  lemma NumberHere(doc: bytes, start: nat, i: nat) returns (n: Number)
    requires start <= i <= |doc| && IsSign(doc[start..i]) && (start == i ==> i < |doc| && IsDigit(doc[i]))
    ensures ValidNumber(n) && NumberText(n) == doc[start..ScanNumber(doc, i)]
  {
    hide AllDigitsOf, SkipDigits, SkipFraction, SkipExponent, IsSign;
    var j := SkipDigits(doc, i);
    var k := SkipFraction(doc, j);
    DigitsHere(doc, i);
    var fraction := FractionHere(doc, j);
    var exponent := ExponentHere(doc, k);
    n := JsonSyntax.Number(doc[start..i], doc[i..j], fraction, exponent);
    SomeDigits(doc, start, i);
    SlicesJoin(doc, i, j, SkipExponent(doc, k));
    SlicesJoin(doc, j, k, SkipExponent(doc, k));
    SlicesJoin(doc, start, i, SkipExponent(doc, k));
  }

  lemma SomeDigits(doc: bytes, start: nat, i: nat)
    requires start <= i <= |doc| && (start == i ==> i < |doc| && IsDigit(doc[i]))
    ensures doc[i..SkipDigits(doc, i)] == [] ==> doc[start..i] != ""
  {
  }

  /** A number token is a number. */
  lemma NumberOf(doc: bytes, i: nat) returns (n: Number)
    requires i <= |doc| && ReadToken(doc, i).kind == NumberToken
    ensures var t := ReadToken(doc, i); ValidNumber(n) && NumberText(n) == doc[t.start..t.end]
  {
    hide ScanNumber, ValidNumber, NumberText, ScanString;
    var start := SkipSpaces(doc, i);
    if IsDigit(doc[start]) {
      assert ScanNumber(doc, start + 1) == ScanNumber(doc, start) by { OneMoreDigit(doc, start); }
      n := NumberHere(doc, start, start);
    } else {
      assert doc[start..start + 1] == [doc[start]];
      n := NumberHere(doc, start, start + 1);
    }
  }

  lemma OneMoreDigit(doc: bytes, i: nat)
    requires i < |doc| && IsDigit(doc[i])
    ensures ScanNumber(doc, i + 1) == ScanNumber(doc, i)
  {
  }

  // ----- strings -----

  /** A piece that stands in front of others. */
  lemma PieceBefore(p: Piece, ps: seq<Piece>, doc: bytes, i: nat, end: nat)
    requires Valid(p) && AllValid(ps) && i + |Written(p)| <= end <= |doc|
    requires doc[i..i + |Written(p)|] == Written(p) && Body(ps) == doc[i + |Written(p)|..end]
    ensures AllValid([p] + ps) && Body([p] + ps) == doc[i..end]
  {
    hide Valid, Written;
    assert ([p] + ps)[1..] == ps;
    SlicesJoin(doc, i, i + |Written(p)|, end);
  }

  lemma UnicodeHere(doc: bytes, i: nat, end: nat)
    requires i + 2 <= end <= |doc| && doc[i] == '\\' && doc[i + 1] == 'u' && DecodeHex4(doc, i + 2, end).Some?
    ensures i + 6 <= end && Valid(Unicode(doc[i + 2..i + 6])) && doc[i..i + 6] == "\\u" + doc[i + 2..i + 6]
    ensures ScanString(doc, i) == ScanString(doc, i + 6)
  {
    hide HexValue, IsDigitOf, Positional, HexDigits, ScanString;
    FourDigitsRead(doc, i + 2, end);
    SlicesJoin(doc, i, i + 2, i + 6);
    UnicodeScanned(doc[i + 2..i + 6], doc, i);
  }

  /** A string that is decoded is a string of valid pieces. */
  lemma {:induction false} PiecesHere(doc: bytes, i: nat, end: nat) returns (ps: seq<Piece>)
    requires i <= end < |doc| && ScanString(doc, i) == Some(end + 1) && DecodeBody(doc, i, end).Some?
    ensures AllValid(ps) && Body(ps) == doc[i..end]
    decreases end - i
  {
    hide DecodeHex4, SimpleEscape, Encode, Valid, AllValid, Body;
    if i == end {
      ps := [];
      NoPieces();
    } else if doc[i] != '\\' {
      ps := PiecesHere(doc, i + 1, end);
      PlainIsValid(doc[i]);
      PieceBefore(Plain(doc[i]), ps, doc, i, end);
      ps := [Plain(doc[i])] + ps;
    } else if doc[i + 1] != 'u' {
      var letter := doc[i + 1];
      EscapeIsPlace(letter);
      ShortIsValid(letter);
      ps := PiecesHere(doc, i + 2, end);
      assert doc[i..i + 2] == ['\\', letter];
      PieceBefore(Short(letter), ps, doc, i, end);
      ps := [Short(letter)] + ps;
    } else {
      ps := UnicodePiecesHere(doc, i, end);
    }
  }

  lemma {:induction false} UnicodePiecesHere(doc: bytes, i: nat, end: nat) returns (ps: seq<Piece>)
    requires i + 2 <= end < |doc| && ScanString(doc, i) == Some(end + 1) && DecodeBody(doc, i, end).Some?
    requires doc[i] == '\\' && doc[i + 1] == 'u'
    ensures AllValid(ps) && Body(ps) == doc[i..end]
    decreases end - i, 0
  {
    hide DecodeHex4, SimpleEscape, Encode, Valid, AllValid, Body, ScanString;
    UnicodeHere(doc, i, end);
    var u, first := DecodeHex4(doc, i + 2, end).value, Unicode(doc[i + 2..i + 6]);
    if !IsLead(u) {
      ps := PiecesHere(doc, i + 6, end);
    } else {
      UnicodeHere(doc, i + 6, end);
      var second := Unicode(doc[i + 8..i + 12]);
      ps := PiecesHere(doc, i + 12, end);
      PieceBefore(second, ps, doc, i + 6, end);
      ps := [second] + ps;
    }
    PieceBefore(first, ps, doc, i, end);
    ps := [first] + ps;
  }

  lemma NoPieces()
    ensures AllValid([]) && Body([]) == []
  {
  }

  lemma PlainIsValid(c: byte)
    requires c != '\"' && c != '\\'
    ensures Valid(Plain(c))
  {
  }

  lemma ShortIsValid(letter: byte)
    requires letter in LETTERS
    ensures Valid(Short(letter))
  {
  }

  /** A string token that is decoded is a string of valid pieces between quotes. */
  lemma StringOf(doc: bytes, i: nat) returns (ps: seq<Piece>)
    requires i <= |doc| && ReadToken(doc, i).kind == StringToken && DecodeToken(doc, ReadToken(doc, i)).Some?
    ensures var t := ReadToken(doc, i); AllValid(ps) && Quoted(ps) == doc[t.start..t.end]
  {
    hide ScanString, ScanNumber, DecodeBody, AllValid, Body;
    var start := SkipSpaces(doc, i);
    var end := ScanString(doc, start + 1).value;
    ps := PiecesHere(doc, start + 1, end - 1);
    QuoteCloses(doc, start + 1);
    SlicesJoin(doc, start, start + 1, end - 1);
    SlicesJoin(doc, start, end - 1, end);
  }

  lemma {:induction false} QuoteCloses(doc: bytes, i: nat)
    requires i <= |doc| && ScanString(doc, i).Some?
    ensures doc[ScanString(doc, i).value - 1] == '\"'
    decreases |doc| - i
  {
    if doc[i] == '\\' {
      QuoteCloses(doc, i + 2);
    } else if doc[i] != '\"' {
      QuoteCloses(doc, i + 1);
    }
  }

  // ----- values -----

  /** The text `j` stands at `i` with white space in front, up to `end`. */
  ghost predicate Stands(doc: bytes, i: nat, before: bytes, j: Json, end: nat) {
    && AllWhite(before) && ValidText(j) && At(doc, i, before + Render(j)) && end == i + |before + Render(j)|
  }

  /** What a token spans. */
  lemma TokenHere(doc: bytes, i: nat)
    requires i <= |doc|
    ensures var t := ReadToken(doc, i);
      i <= t.start <= t.end <= |doc| && AllWhite(doc[i..t.start])
    ensures var t := ReadToken(doc, i);
      && (t.kind == NullToken ==> doc[t.start..t.end] == "null")
      && (t.kind == TrueToken ==> doc[t.start..t.end] == "true")
      && (t.kind == FalseToken ==> doc[t.start..t.end] == "false")
      && (t.kind in {ObjectBegin, ObjectEnd, ArrayBegin, ArrayEnd, ArraySeparator, MemberSeparator} ==>
            t.end == t.start + 1 && OneByte(doc[t.start]) == t.kind)
  {
    hide ScanString, ScanNumber, AllWhite, Match;
    WhiteHere(doc, i);
    var start := SkipSpaces(doc, i);
    if start < |doc| {
      WordHere(doc, start, "rue");
      WordHere(doc, start, "alse");
      WordHere(doc, start, "ull");
    }
  }

  lemma WordHere(doc: bytes, start: nat, rest: bytes)
    requires start < |doc|
    ensures Match(doc, start + 1, rest) ==> doc[start..start + 1 + |rest|] == [doc[start]] + rest
  {
    if start + 1 + |rest| <= |doc| { SlicesJoin(doc, start, start + 1, start + 1 + |rest|); }
  }

  lemma StandsIf(doc: bytes, i: nat, s: nat, e: nat, j: Json)
    requires i <= s <= e <= |doc| && AllWhite(doc[i..s]) && ValidText(j) && doc[s..e] == Render(j)
    ensures Stands(doc, i, doc[i..s], j, e)
  {
    hide AllWhite, ValidText, Render;
    SlicesJoin(doc, i, s, e);
    AtIs(doc, i, e);
  }

  lemma StandsSlice(doc: bytes, i: nat, before: bytes, j: Json, end: nat)
    requires Stands(doc, i, before, j, end)
    ensures i <= end <= |doc| && doc[i..end] == before + Render(j) && AllWhite(before) && ValidText(j)
  {
    hide AllWhite, ValidText, Render;
  }

  /** The value that the reader finds is written there, or has been left out in front of a separator or a bracket. */
  lemma {:induction false} ValueHere(f: Features, doc: bytes, i: nat, depth: nat) returns (before: bytes, j: Json)
    requires i <= |doc| && ReadValue(f, doc, i, depth).Parsed?
    ensures var r := ReadValue(f, doc, i, depth);
      Stands(doc, i, before, j, r.pos) && (j.Absent? ==> SkipSpaces(doc, r.pos) == r.pos)
    decreases |doc| - i, 1
  {
    hide ReadToken, ReadItems, ReadMembers, DecodeToken, DecodeNumberToken, AllWhite, ValidNumber, NumberText, Stands,
      SkipSpaces, AllValid, Quoted;
    var t := ReadToken(doc, i);
    TokenHere(doc, i);
    before := doc[i..t.start];
    var end := ReadValue(f, doc, i, depth).pos;
    assert t.kind != EndOfStream;
    NextIsHere(doc, i);
    NothingBetween(doc, t.start);
    match t.kind {
      case ObjectBegin =>
        j := RecordHere(f, doc, t.start, depth);
      case ArrayBegin =>
        j := ListHere(f, doc, t.start, depth);
      case NumberToken =>
        var n := NumberOf(doc, i);
        j := Num(n);
      case StringToken =>
        var ps := StringOf(doc, i);
        j := Str(ps);
      case TrueToken => j := TrueWord;
      case FalseToken => j := FalseWord;
      case NullToken => j := NullWord;
      case _ => j := Absent;
    }
    StandsIf(doc, i, t.start, end, j);
  }

  lemma NothingBetween(doc: bytes, i: nat)
    requires i <= |doc|
    ensures doc[i..i] == ""
  {
  }

  lemma NextIsHere(doc: bytes, i: nat)
    requires i <= |doc| && ReadToken(doc, i).kind != EndOfStream
    ensures var t := ReadToken(doc, i); t.start < t.end && SkipSpaces(doc, t.start) == t.start
  {
    hide ScanString, ScanNumber;
  }

  lemma {:induction false} ListHere(f: Features, doc: bytes, start: nat, depth: nat) returns (j: Json)
    requires start < |doc| && doc[start] == '[' && ReadItems(f, doc, start + 1, depth, []).Parsed?
    ensures j.List? && ValidText(j) && doc[start..ReadItems(f, doc, start + 1, depth, []).pos] == Render(j)
    decreases |doc| - start, 0
  {
    hide ReadItems, ValidItem, RenderItems, AllWhite;
    var items, inside := ItemsHere(f, doc, start + 1, depth, []);
    j := List(items, inside);
    SlicesJoin(doc, start, start + 1, ReadItems(f, doc, start + 1, depth, []).pos);
  }

  lemma {:induction false} RecordHere(f: Features, doc: bytes, start: nat, depth: nat) returns (j: Json)
    requires start < |doc| && doc[start] == '{' && ReadMembers(f, doc, start + 1, depth, [], []).Parsed?
    ensures j.Record? && ValidText(j) && doc[start..ReadMembers(f, doc, start + 1, depth, [], []).pos] == Render(j)
    decreases |doc| - start, 0
  {
    hide ReadMembers, ValidField, RenderFields, AllWhite;
    var fields, comma, inside := FieldsHere(f, doc, start + 1, depth, [], []);
    j := Record(fields, comma, inside);
    assert RenderFields(fields) + Tail(comma, inside) == FieldsText(fields, comma, inside);
    SlicesJoin(doc, start, start + 1, ReadMembers(f, doc, start + 1, depth, [], []).pos);
  }

  // ----- items -----

  predicate ValidItems(items: seq<Item>) {
    forall k :: 0 <= k < |items| ==> ValidItem(items[k])
  }

  /** An item and the token behind it */
  lemma {:induction false} ItemHere(f: Features, doc: bytes, i: nat, depth: nat) returns (m: Item)
    requires i <= |doc| && ReadValue(f, doc, SkipSpaces(doc, i), depth).Parsed?
    requires ReadToken(doc, ReadValue(f, doc, SkipSpaces(doc, i), depth).pos).kind in {ArrayEnd, ArraySeparator}
    ensures var t := ReadToken(doc, ReadValue(f, doc, SkipSpaces(doc, i), depth).pos);
      && i <= t.start && t.end == t.start + 1 && ValidItem(m) && doc[i..t.start] == RenderItem(m)
      && doc[t.start] == if t.kind == ArrayEnd then ']' else ','
    decreases |doc| - i, 2
  {
    hide ReadToken, ReadValue, AllWhite, ValidText, Render, Stands, SkipSpaces;
    var s := SkipSpaces(doc, i);
    var before, j := ValueHere(f, doc, s, depth);
    var e := ReadValue(f, doc, s, depth).pos;
    var t := ReadToken(doc, e);
    StandsSlice(doc, s, before, j, e);
    WhiteHere(doc, i);
    TokenHere(doc, e);
    SeparatorIs(doc[t.start]);
    TokenStart(doc, e);
    m := Item(doc[i..s] + before, j, doc[e..t.start]);
    WhiteJoins(doc[i..s], before);
    SlicesJoin(doc, i, s, e);
    SlicesJoin(doc, i, e, t.start);
    assert doc[i..s] + (before + Render(j)) == doc[i..s] + before + Render(j);
  }

  lemma TokenStart(doc: bytes, e: nat)
    requires e <= |doc|
    ensures ReadToken(doc, e).start == SkipSpaces(doc, e)
  {
    hide ScanString, ScanNumber;
  }

  lemma SeparatorIs(c: byte)
    ensures OneByte(c) == ArrayEnd <==> c == ']'
    ensures OneByte(c) == ArraySeparator <==> c == ','
    ensures OneByte(c) == ObjectEnd <==> c == '}'
    ensures OneByte(c) == MemberSeparator <==> c == ':'
  {
  }

  lemma WhiteJoins(a: bytes, b: bytes)
    requires AllWhite(a) && AllWhite(b)
    ensures AllWhite(a + b)
  {
  }

  lemma {:induction false} ItemsHere(f: Features, doc: bytes, i: nat, depth: nat, done: seq<Value>)
    returns (items: seq<Item>, inside: bytes)
    requires i <= |doc| && ReadItems(f, doc, i, depth, done).Parsed?
    ensures AllWhite(inside) && (items != [] ==> inside == "") && ValidItems(items) && (done != [] ==> items != [])
    ensures doc[i..ReadItems(f, doc, i, depth, done).pos] == RenderItems(items) + (inside + "]")
    decreases |doc| - i, 3
  {
    hide ReadToken, ReadValue, AllWhite, ValidItem, RenderItem, RenderItems, SkipSpaces, ReadItems;
    var s := SkipSpaces(doc, i);
    ItemsUnfold(f, doc, i, depth, done);
    if s < |doc| && doc[s] == ']' && Unseen(f, done) {
      WhiteHere(doc, i);
      assert doc[s..s + 1] == "]";
      SlicesJoin(doc, i, s, s + 1);
      items, inside := NothingHere(doc[i..s], done);
    } else {
      var r := ReadValue(f, doc, s, depth + 1);
      var t := ReadToken(doc, r.pos);
      var m := ItemHere(f, doc, i, depth + 1);
      if t.kind == ArrayEnd {
        items, inside := [m], "";
        NothingWhite();
        assert doc[t.start..t.end] == "]";
        SlicesJoin(doc, i, t.start, t.end);
        ItemsSplit(items);
      } else {
        var rest;
        rest, inside := ItemsHere(f, doc, t.end, depth, done + [r.value]);
        items := [m] + rest;
        ItemsSplit(items);
        assert doc[t.start..t.end] == ",";
        var e := ReadItems(f, doc, t.end, depth, done + [r.value]).pos;
        SlicesJoin(doc, i, t.start, t.end);
        SlicesJoin(doc, i, t.end, e);
        Regrouped(RenderItem(m), RenderItems(rest), inside + "]");
      }
    }
  }

  lemma NothingWhite()
    ensures AllWhite("")
  {
  }

  lemma Regrouped(a: bytes, b: bytes, c: bytes)
    ensures a + "," + (b + c) == a + ("," + b) + c
  {
  }

  /** The bracket behind nothing, or behind the last comma. */
  lemma NothingHere(ws: bytes, done: seq<Value>) returns (items: seq<Item>, inside: bytes)
    requires AllWhite(ws)
    ensures AllWhite(inside) && (items != [] ==> inside == "") && ValidItems(items) && (done != [] ==> items != [])
    ensures ws + "]" == RenderItems(items) + (inside + "]")
  {
    if done == [] {
      items, inside := [], ws;
      assert RenderItems([]) + (ws + "]") == ws + "]";
    } else {
      items, inside := [Item(ws, Absent, "")], "";
      assert RenderItem(Item(ws, Absent, "")) == ws;
    }
  }

  lemma ItemsUnfold(f: Features, doc: bytes, i: nat, depth: nat, done: seq<Value>)
    requires i <= |doc|
    ensures var s := SkipSpaces(doc, i);
      var r := ReadValue(f, doc, s, depth + 1);
      ReadItems(f, doc, i, depth, done)
      == if s < |doc| && doc[s] == ']' && Unseen(f, done) then Parsed(Array(done), s + 1)
         else if !r.Parsed? then r
         else
           var t := ReadToken(doc, r.pos);
           if t.kind == ArrayEnd then Parsed(Array(done + [r.value]), t.end)
           else if t.kind == ArraySeparator then ReadItems(f, doc, t.end, depth, done + [r.value])
           else Failed
  {
    hide ReadValue, ReadToken;
  }

  // ----- members -----

  predicate ValidFields(fields: seq<Field>) {
    forall k :: 0 <= k < |fields| ==> ValidField(fields[k])
  }

  /** What the loop of `readObject` has passed: a key, a colon and a value, up to the token behind them. */
  ghost predicate FieldRead(f: Features, doc: bytes, i: nat, depth: nat) {
    && i <= |doc|
    && var t := ReadToken(doc, i);
       var colon := ReadToken(doc, t.end);
       var r := ReadValue(f, doc, colon.end, depth);
       && t.kind == StringToken && DecodeToken(doc, t).Some? && colon.kind == MemberSeparator
       && r.Parsed? && ReadToken(doc, r.pos).kind in {ObjectEnd, ArraySeparator}
  }

  ghost function FieldValue(f: Features, doc: bytes, i: nat, depth: nat): (r: Outcome)
    requires FieldRead(f, doc, i, depth)
    ensures r.Parsed? && i < r.pos <= |doc|
  {
    NextIsHere(doc, i);
    ReadValue(f, doc, ReadToken(doc, ReadToken(doc, i).end).end, depth)
  }

  lemma FieldSlices(m: Field, doc: bytes, i: nat, k: nat, l: nat, colon: nat, e: nat, end: nat)
    requires i <= k <= l <= colon < colon + 1 <= e <= end <= |doc|
    requires m.before == doc[i..k] && Quoted(m.key) == doc[k..l] && m.gap == doc[l..colon]
      && doc[colon..colon + 1] == ":"
    requires m.middle + Render(m.value) == doc[colon + 1..e] && m.after == doc[e..end]
    ensures doc[i..end] == RenderField(m)
  {
    hide Render, Quoted;
    SlicesJoin(doc, i, k, end);
    SlicesJoin(doc, k, l, end);
    SlicesJoin(doc, l, colon, end);
    SlicesJoin(doc, colon, colon + 1, end);
    SlicesJoin(doc, colon + 1, e, end);
    assert m.middle + Render(m.value) + m.after == m.middle + (Render(m.value) + m.after);
  }

  lemma {:induction false} FieldHere(f: Features, doc: bytes, i: nat, depth: nat) returns (m: Field)
    requires FieldRead(f, doc, i, depth)
    ensures var t := ReadToken(doc, FieldValue(f, doc, i, depth).pos);
      && i < t.start && t.end == t.start + 1 && ValidField(m) && doc[i..t.start] == RenderField(m)
      && doc[t.start] == if t.kind == ObjectEnd then '}' else ','
    decreases |doc| - i, 2
  {
    hide ReadToken, ReadValue, AllWhite, ValidText, Render, RenderField, Stands, SkipSpaces, DecodeToken, AllValid,
      Quoted;
    var t := ReadToken(doc, i);
    TokenHere(doc, i);
    NextIsHere(doc, i);
    var ps := StringOf(doc, i);
    var colon := ReadToken(doc, t.end);
    TokenHere(doc, t.end);
    SeparatorIs(doc[colon.start]);
    var middle, j := ValueHere(f, doc, colon.end, depth);
    var e := ReadValue(f, doc, colon.end, depth).pos;
    StandsSlice(doc, colon.end, middle, j, e);
    var u := ReadToken(doc, e);
    TokenHere(doc, e);
    TokenStart(doc, e);
    SeparatorIs(doc[u.start]);
    m := Field(doc[i..t.start], ps, doc[t.end..colon.start], middle, j, doc[e..u.start]);
    assert doc[colon.start..colon.end] == ":";
    FieldSlices(m, doc, i, t.start, t.end, colon.start, e, u.start);
  }

  /** The loop of `readObject` ends at a bracket, or passes a member and goes on or ends behind it. */
  lemma FieldsUnfold(f: Features, doc: bytes, i: nat, depth: nat, done: seq<Member>, name: bytes)
    returns (read: seq<Member>, key: bytes)
    requires i <= |doc| && ReadMembers(f, doc, i, depth, done, name).Parsed?
    ensures var t := ReadToken(doc, i);
      var r := ReadMembers(f, doc, i, depth, done, name);
      || (t.kind == ObjectEnd && r.pos == t.end)
      || (&& FieldRead(f, doc, i, depth + 1)
          && var u := ReadToken(doc, FieldValue(f, doc, i, depth + 1).pos);
             if u.kind == ObjectEnd then r.pos == u.end
             else r == ReadMembers(f, doc, u.end, depth, read, key))
  {
    hide ReadValue, ReadToken, DecodeToken, HasMember, Insert;
    var t := ReadToken(doc, i);
    read, key := done, name;
    if t.kind == StringToken {
      key := DecodeToken(doc, t).value;
      var r := ReadMemberValue(f, doc, t.end, depth, done, key);
      assert ReadMembers(f, doc, i, depth, done, name) == r;
      var v := ReadValue(f, doc, ReadToken(doc, t.end).end, depth + 1);
      read := Insert(done, key, v.value);
    }
  }

  ghost predicate GoodFields(fields: seq<Field>, comma: bool, inside: bytes) {
    AllWhite(inside) && (fields != [] && !comma ==> inside == "") && (comma ==> fields != []) && ValidFields(fields)
  }

  function FieldsText(fields: seq<Field>, comma: bool, inside: bytes): bytes {
    RenderFields(fields) + Tail(comma, inside)
  }

  /** A member in front of others, or of the end behind a comma. */
  lemma FieldBefore(m: Field, rest: seq<Field>, last: bool, inside: bytes)
    requires ValidField(m) && GoodFields(rest, last, inside)
    ensures GoodFields([m] + rest, last || rest == [], inside)
    ensures FieldsText([m] + rest, last || rest == [], inside) == RenderField(m) + "," + FieldsText(rest, last, inside)
  {
    hide ValidField, RenderField, RenderFields, AllWhite;
    var fields := [m] + rest;
    FieldsSplit(fields);
    assert fields[1..] == rest;
    if rest == [] {
      NoFields();
      assert [] + (inside + "}") == inside + "}";
    } else {
      Regrouped(RenderField(m), RenderFields(rest), Tail(last, inside));
    }
  }

  lemma OneField(m: Field)
    requires ValidField(m)
    ensures GoodFields([m], false, "") && FieldsText([m], false, "") == RenderField(m) + "}"
  {
    hide ValidField, RenderField;
    NothingWhite();
  }

  lemma NoField(inside: bytes)
    requires AllWhite(inside)
    ensures GoodFields([], false, inside) && FieldsText([], false, inside) == inside + "}"
  {
    NoFields();
    assert [] + (inside + "}") == inside + "}";
  }

  lemma {:induction false} FieldsHere(f: Features, doc: bytes, i: nat, depth: nat, done: seq<Member>, name: bytes)
    returns (fields: seq<Field>, comma: bool, inside: bytes)
    requires i <= |doc| && ReadMembers(f, doc, i, depth, done, name).Parsed?
    ensures GoodFields(fields, comma, inside)
    ensures doc[i..ReadMembers(f, doc, i, depth, done, name).pos] == FieldsText(fields, comma, inside)
    decreases |doc| - i, 3
  {
    hide ReadToken, AllWhite, ValidField, RenderField, FieldRead, FieldValue, ReadMembers, FieldsText, GoodFields;
    var read, key := FieldsUnfold(f, doc, i, depth, done, name);
    var t, end := ReadToken(doc, i), ReadMembers(f, doc, i, depth, done, name).pos;
    if t.kind == ObjectEnd && end == t.end {
      TokenHere(doc, i);
      SeparatorIs(doc[t.start]);
      fields, comma, inside := [], false, doc[i..t.start];
      SlicesJoin(doc, i, t.start, t.end);
      assert doc[t.start..t.start + 1] == [doc[t.start]];
      NoField(inside);
    } else {
      var m := FieldHere(f, doc, i, depth + 1);
      var u := ReadToken(doc, FieldValue(f, doc, i, depth + 1).pos);
      SlicesJoin(doc, i, u.start, u.end);
      assert doc[u.start..u.start + 1] == [doc[u.start]];
      if u.kind == ObjectEnd {
        fields, comma, inside := [m], false, "";
        OneField(m);
      } else {
        fields, comma, inside := FieldsHere(f, doc, u.end, depth, read, key);
        SlicesJoin(doc, i, u.end, end);
        FieldBefore(m, fields, comma, inside);
        fields, comma := [m] + fields, comma || fields == [];
      }
    }
  }

  // ----- documents -----

  /** Only white space is left from `i` on, up to the end of the document or a NUL. */
  ghost predicate OnlyWhite(doc: bytes, i: nat) {
    i <= |doc| && exists after, extra ::
      doc[..i] + after + extra == doc && AllWhite(after) && (extra == [] || extra[0] == '\0')
  }

  lemma NothingMore(doc: bytes, i: nat)
    requires i <= |doc| && ReadToken(doc, i).kind == EndOfStream
    ensures OnlyWhite(doc, i)
  {
    hide ScanString, ScanNumber, AllWhite;
    WhiteHere(doc, i);
    var k := SkipSpaces(doc, i);
    SlicesJoin(doc, 0, i, k);
    SlicesJoin(doc, 0, k, |doc|);
    assert doc[..i] + doc[i..k] + doc[k..] == doc;
  }

  /** Whatever parses is the text of the value, with white space in front, and with nothing else behind it where that is
      refused; under strict roots it is an array or an object. */
  lemma ParsedIsText(f: Features, doc: bytes) returns (before: bytes, j: Json)
    requires Parse(f, doc).Parsed?
    ensures AllWhite(before) && ValidText(j)
    ensures f.failIfExtra ==> OnlyWhite(doc, Parse(f, doc).pos)
    ensures f.strictRoot ==> j.List? || j.Record?
    ensures var r := Parse(f, doc);
      r.pos == |before + Render(j)| && r.pos <= |doc| && doc[..r.pos] == before + Render(j)
      && Expect(f, j, 1) == Gives(r.value)
  {
    hide AllWhite, ValidText, Render, Expect, ReadValue, ReadToken, OnlyWhite;
    before, j := ValueHere(f, doc, 0, 1);
    StandsSlice(doc, 0, before, j, ReadValue(f, doc, 0, 1).pos);
    assert doc[0..ReadValue(f, doc, 0, 1).pos] == doc[..ReadValue(f, doc, 0, 1).pos];
    ReadAsExpected(f, doc, 0, 1, before, j);
    if j.Absent? {
      NullExpected(f);
    } else {
      KindRead(f, j, 1);
    }
    if f.failIfExtra {
      NothingMore(doc, Parse(f, doc).pos);
    }
  }

  lemma NullExpected(f: Features)
    ensures Expect(f, Absent, 1).Gives? ==> Expect(f, Absent, 1).value == Null
  {
  }

  /** The value is the one that the text stands for. */
  lemma ReadAsExpected(f: Features, doc: bytes, i: nat, depth: nat, before: bytes, j: Json)
    requires i <= |doc| && ReadValue(f, doc, i, depth).Parsed?
    requires Stands(doc, i, before, j, ReadValue(f, doc, i, depth).pos)
    ensures Expect(f, j, depth) == Gives(ReadValue(f, doc, i, depth).value)
  {
    hide At, AllWhite, ValidText, Render, Expect, ReadValue;
    AtSplit(doc, i, before, Render(j));
    ValueSkipsWhite(f, doc, i, depth, before);
    if j.Absent? {
      AbsentExpected(f, doc, i + |before|, depth);
    } else if j.Num? {
      NumberExpected(f, doc, i + |before|, depth, j.number);
    } else {
      ValueReads(f, j, doc, i + |before|, depth);
    }
  }

  lemma AbsentExpected(f: Features, doc: bytes, i: nat, depth: nat)
    requires i <= |doc| && ReadValue(f, doc, i, depth).Parsed?
      && ReadValue(f, doc, i, depth).pos == i + |Render(Absent)|
    ensures Expect(f, Absent, depth) == Gives(ReadValue(f, doc, i, depth).value)
  {
    hide ReadToken, ReadItems, ReadMembers, DecodeToken, DecodeNumberToken;
    assert ReadToken(doc, i).kind != EndOfStream;
    NextIsHere(doc, i);
  }

  lemma NumberExpected(f: Features, doc: bytes, i: nat, depth: nat, n: Number)
    requires ValidText(Num(n)) && At(doc, i, Render(Num(n)))
    requires i <= |doc| && ReadValue(f, doc, i, depth).Parsed?
      && ReadValue(f, doc, i, depth).pos == i + |Render(Num(n))|
    ensures Expect(f, Num(n), depth) == Gives(ReadValue(f, doc, i, depth).value)
  {
    hide ReadToken, ReadItems, ReadMembers, DecodeToken, DecodeNumberToken, NumberText, ValidNumber, ExpectNumber;
    NumberStarts(doc, i, n);
    NumberIsDecoded(f, n);
  }

  /** Where a number is written the token is a number, or nothing that can be read. */
  lemma NumberStarts(doc: bytes, i: nat, n: Number)
    requires ValidNumber(n) && At(doc, i, NumberText(n))
    ensures i < |doc| && ReadToken(doc, i).start == i && ReadToken(doc, i).kind in {NumberToken, ErrorToken}
  {
    hide ScanString, ScanNumber, NumberText, ValidNumber;
    FirstByte(Num(n));
    NumberBegins(n);
    AtByte(doc, i, NumberText(n), 0);
  }
}
