/** `Json::OurReader`: the cursor and the stack of open values are fields, and every method is proved against
    the position-by-position functions of `JsonText`. A reference into a parent value is modelled by the top of
    `nodes_`; popping stores the child back into its parent. */
module JsonReader {
  import opened Bytes
  import opened Utf8
  import opened JsonValue
  import opened JsonStrings
  import opened Decimal
  import opened JsonNumbers
  import JsonText
  import JsonRoundTrip

  /** A method either returns its bool or throws the runtime error of the source. */
  datatype Status = Returned(ok: bool) | Raised

  class OurReader {
    const features_: JsonText.Features
    var document_: bytes
    var current_: nat
    var nodes_: seq<Value>

    constructor (features: JsonText.Features)
      ensures features_ == features && Valid() && nodes_ == []
    {
      features_, document_, current_, nodes_ := features, [], 0, [];
    }

    predicate Valid()
      reads this
    {
      current_ <= |document_|
    }

    // ----- tokens -----

    method GetNextChar() returns (c: byte)
      requires Valid()
      modifies this`current_
      ensures Valid()
      ensures if old(current_) == |document_| then c == '\0' && current_ == old(current_)
              else c == document_[old(current_)] && current_ == old(current_) + 1
    {
      if current_ == |document_| {
        return '\0';
      }
      c := document_[current_];
      current_ := current_ + 1;
    }

    method SkipSpaces()
      requires Valid()
      modifies this`current_
      ensures Valid() && current_ == JsonText.SkipSpaces(document_, old(current_))
    {
      while current_ != |document_|
        invariant Valid()
        invariant JsonText.SkipSpaces(document_, current_) == JsonText.SkipSpaces(document_, old(current_))
        decreases |document_| - current_
      {
        var c := document_[current_];
        if c == ' ' || c == '\t' || c == '\r' || c == '\n' {
          current_ := current_ + 1;
        } else {
          break;
        }
      }
    }

    /** The pattern is compared from its last character. */
    method Match(pattern: bytes) returns (ok: bool)
      requires Valid()
      modifies this`current_
      ensures Valid() && ok == JsonText.Match(document_, old(current_), pattern)
      ensures current_ == old(current_) + if ok then |pattern| else 0
    {
      if |document_| - current_ < |pattern| {
        return false;
      }
      var index := |pattern|;
      while index != 0
        invariant 0 <= index <= |pattern|
        invariant forall k :: index <= k < |pattern| ==> document_[current_ + k] == pattern[k]
      {
        index := index - 1;
        if document_[current_ + index] != pattern[index] {
          assert document_[current_..current_ + |pattern|][index] != pattern[index];
          return false;
        }
      }
      assert document_[current_..current_ + |pattern|] == pattern;
      current_ := current_ + |pattern|;
      ok := true;
    }

    /** One of the digit loops of `readNumber`: `c` is the byte at `current_`, or NUL at the end. */
    method ScanDigits()
      requires Valid()
      modifies this`current_
      ensures Valid() && current_ == SkipDigits(document_, old(current_))
    {
      while current_ < |document_| && IsDigit(document_[current_])
        invariant Valid()
        invariant SkipDigits(document_, current_) == SkipDigits(document_, old(current_))
      {
        current_ := current_ + 1;
      }
    }

    method ReadNumber(checkInf: bool) returns (number: bool)
      requires Valid()
      modifies this`current_
      ensures Valid()
      ensures number <==> !(checkInf && old(current_) < |document_| && document_[old(current_)] == 'I')
      ensures current_ == if number then ScanNumber(document_, old(current_)) else old(current_) + 1
    {
      if checkInf && current_ != |document_| && document_[current_] == 'I' {
        current_ := current_ + 1;
        return false;
      }
      ScanDigits();
      if current_ < |document_| && document_[current_] == '.' {
        current_ := current_ + 1;
        ScanDigits();
      }
      ScanExponent();
      number := true;
    }

    method ScanExponent()
      requires Valid()
      modifies this`current_
      ensures Valid() && current_ == SkipExponent(document_, old(current_))
    {
      if current_ < |document_| && (document_[current_] == 'e' || document_[current_] == 'E') {
        current_ := current_ + 1;
        if current_ < |document_| && (document_[current_] == '+' || document_[current_] == '-') {
          current_ := current_ + 1;
        }
        ScanDigits();
      }
    }

    method ReadString() returns (ok: bool)
      requires Valid()
      modifies this`current_
      ensures Valid() && ok == ScanString(document_, old(current_)).Some?
      ensures current_ == if ok then ScanString(document_, old(current_)).value else |document_|
    {
      var c: byte := '\0';
      while current_ != |document_|
        invariant Valid() && c != '\"'
        invariant ScanString(document_, current_) == ScanString(document_, old(current_))
        decreases |document_| - current_
      {
        c := GetNextChar();
        if c == '\\' {
          var _ := GetNextChar();
        } else if c == '\"' {
          break;
        }
      }
      ok := c == '\"';
    }

    method ReadToken() returns (token: JsonText.Token)
      requires Valid()
      modifies this`current_
      ensures Valid()
      ensures token == JsonText.ReadToken(document_, old(current_)) && current_ == token.end
    {
      hide ScanString, ScanNumber, JsonText.Match, JsonText.SkipSpaces;
      SkipSpaces();
      var start := current_;
      var c := GetNextChar();
      if start == current_ {
        return JsonText.Token(JsonText.EndOfStream, start, start);
      }
      var kind, ok := JsonText.OneByte(c), true;
      if c == '\"' {
        kind := JsonText.StringToken;
        ok := ReadString();
      } else if IsDigit(c) {
        kind := JsonText.NumberToken;
        var _ := ReadNumber(false);
      } else if c == '-' || c == '+' {
        kind := JsonText.NumberToken;
        ok := ReadNumber(true);
      } else if c == 't' {
        kind := JsonText.TrueToken;
        ok := Match("rue");
      } else if c == 'f' {
        kind := JsonText.FalseToken;
        ok := Match("alse");
      } else if c == 'n' {
        kind := JsonText.NullToken;
        ok := Match("ull");
      }
      token := JsonText.Token(if ok then kind else JsonText.ErrorToken, start, current_);
    }

    // ----- scalars -----

    /** `decodeNumber`: the accumulator never leaves the unsigned 64-bit range. */
    method DecodeNumberToken(token: JsonText.Token) returns (decoded: Option<Value>)
      requires token.start < token.end <= |document_|
      ensures decoded == JsonText.DecodeNumberToken(features_, document_[token.start..token.end])
    {
      var text := document_[token.start..token.end];
      var isNegative := text[0] == '-';
      var current := if isNegative then 1 else 0;
      var threshold, maxLastDigit := Threshold(isNegative), MaxLastDigit(isNegative);
      var value: nat := 0;
      while current < |text|
        invariant 0 <= current <= |text| && value <= Limit(isNegative) <= MAX_UINT
        invariant Accumulate(text, current, value, isNegative)
               == Accumulate(text, if isNegative then 1 else 0, 0, isNegative)
      {
        var c := text[current];
        current := current + 1;
        if !IsDigit(c) {
          decoded := DecodeDouble(text);
          return;
        }
        var digit := DigitValue(c);
        if value >= threshold {
          if value > threshold || current != |text| || digit > maxLastDigit {
            decoded := DecodeDouble(text);
            return;
          }
        }
        assert value * 10 + digit <= MAX_UINT;
        value := value * 10 + digit;
      }
      if isNegative {
        var lastDigit := value % 10;
        assert MIN_INT <= -(value / 10) * 10 - lastDigit;
        decoded := Some(Int(-(value / 10) * 10 - lastDigit));
      } else if value <= MAX_INT {
        decoded := Some(Int(value));
      } else {
        decoded := Some(UInt(value));
      }
    }

    /** `decodeDouble` */
    method DecodeDouble(text: bytes) returns (decoded: Option<Value>)
      ensures decoded == if features_.acceptsDouble(text) then Some(Real(text)) else None
    {
      decoded := if features_.acceptsDouble(text) then Some(Real(text)) else None;
    }

    /** `decodeUnicodeEscapeSequence`: four digits, most significant first. */
    method DecodeUnicodeEscapeSequence(current: nat, end: nat) returns (unicode: Option<nat>)
      requires current <= end <= |document_|
      ensures unicode == DecodeHex4(document_, current, end)
    {
      if end - current < 4 {
        return None;
      }
      var value: nat := 0;
      for index := 0 to 4
        invariant HexDigits(document_, current, index) == Some(value)
      {
        var digit := HexValue(document_[current + index]);
        if digit.None? {
          BadDigit(document_, current, index);
          return None;
        }
        value := value * 16 + digit.value;
      }
      unicode := Some(value);
    }

    method DecodeUnicodeCodePoint(current: nat, end: nat) returns (r: Option<(nat, nat)>)
      requires current <= end <= |document_|
      ensures r == DecodeCodePoint(document_, current, end)
    {
      var unicode := DecodeUnicodeEscapeSequence(current, end);
      if unicode.None? {
        return None;
      }
      if 0xD800 <= unicode.value <= 0xDBFF {
        if end - (current + 4) < 6 || document_[current + 4] != '\\' || document_[current + 5] != 'u' {
          return None;
        }
        var surrogatePair := DecodeUnicodeEscapeSequence(current + 6, end);
        if surrogatePair.None? {
          return None;
        }
        return Some((0x10000 + unicode.value % 0x400 * 0x400 + surrogatePair.value % 0x400, current + 10));
      }
      r := Some((unicode.value, current + 4));
    }

    method DecodeString(token: JsonText.Token) returns (r: Option<bytes>)
      requires token.start + 2 <= token.end <= |document_|
      ensures r == JsonText.DecodeToken(document_, token)
    {
      hide Encode;
      var current, end := token.start + 1, token.end - 1;
      var decoded: bytes := [];
      PrependNothing(DecodeBody(document_, current, end));
      while current != end
        invariant token.start + 1 <= current <= end
        invariant Prepend(decoded, DecodeBody(document_, current, end)) == JsonText.DecodeToken(document_, token)
        decreases end - current
      {
        var c := document_[current];
        current := current + 1;
        if c == '\"' {
          break;
        }
        ghost var before := decoded;
        if c == '\\' {
          if current == end {
            return None;
          }
          var escape := document_[current];
          current := current + 1;
          if escape == 'u' {
            var unicode := DecodeUnicodeCodePoint(current, end);
            if unicode.None? {
              return None;
            }
            decoded := decoded + Encode(unicode.value.0);
            current := unicode.value.1;
            PrependTwice(before, Encode(unicode.value.0), DecodeBody(document_, current, end));
          } else {
            var simple := SimpleEscape(escape);
            if simple.None? {
              return None;
            }
            decoded := decoded + [simple.value];
            PrependTwice(before, [simple.value], DecodeBody(document_, current, end));
          }
        } else {
          decoded := decoded + [c];
          PrependTwice(before, [c], DecodeBody(document_, current, end));
        }
      }
      assert decoded + [] == decoded;
      r := Some(decoded);
    }

    // ----- values -----

    /** What a call on the innermost open value leaves behind, given the functional outcome. */
    twostate predicate Delivers(outcome: JsonText.Outcome, status: Status)
      reads this
    {
      && Valid() && document_ == old(document_)
      && match outcome
         case Thrown => status == Raised
         case Failed =>
           && status == Returned(false)
           && |nodes_| == |old(nodes_)| >= 1 && nodes_[..|nodes_| - 1] == old(nodes_)[..|nodes_| - 1]
         case Parsed(v, pos) =>
           && status == Returned(true) && current_ == pos
           && |old(nodes_)| >= 1 && nodes_ == old(nodes_)[..|old(nodes_)| - 1] + [v]
    }

    /** `currentValue().swapPayload(v)` */
    method SetCurrent(v: Value)
      requires |nodes_| >= 1
      modifies this`nodes_
      ensures nodes_ == old(nodes_)[..|old(nodes_)| - 1] + [v]
    {
      nodes_ := nodes_[..|nodes_| - 1] + [v];
    }

    method ReadValue() returns (status: Status)
      requires Valid() && |nodes_| >= 1
      modifies this`current_, this`nodes_
      ensures Delivers(JsonText.ReadValue(features_, document_, old(current_), |old(nodes_)|), status)
      decreases |document_| - current_, 1
    {
      hide JsonText.ReadToken, JsonText.ReadItems, JsonText.ReadMembers, JsonText.DecodeToken,
        JsonText.DecodeNumberToken;
      if |nodes_| > features_.stackLimit {
        return Raised;
      }
      var token := ReadToken();
      if token.kind == JsonText.ObjectBegin {
        status := ReadObject();
      } else if token.kind == JsonText.ArrayBegin {
        status := ReadArray();
      } else if token.kind == JsonText.NumberToken {
        var v := DecodeNumberToken(token);
        if v.None? {
          return Returned(false);
        }
        SetCurrent(v.value);
        status := Returned(true);
      } else if token.kind == JsonText.StringToken {
        var s := DecodeString(token);
        if s.None? {
          return Returned(false);
        }
        SetCurrent(String(s.value));
        status := Returned(true);
      } else if token.kind in [JsonText.TrueToken, JsonText.FalseToken] {
        SetCurrent(Bool(token.kind == JsonText.TrueToken));
        status := Returned(true);
      } else if token.kind == JsonText.NullToken {
        SetCurrent(Null);
        status := Returned(true);
      } else if token.kind in [JsonText.ArraySeparator, JsonText.ObjectEnd, JsonText.ArrayEnd]
                && features_.allowDroppedNullPlaceholders {
        current_ := current_ - 1;
        SetCurrent(Null);
        status := Returned(true);
      } else {
        status := Returned(false);
      }
    }

    /** `nodes_.push(&value); readValue(); nodes_.pop();` on a new child of the current value. */
    method ReadChild() returns (status: Status, value: Value)
      requires Valid() && |nodes_| >= 1
      modifies this`current_, this`nodes_
      ensures Valid()
      ensures match JsonText.ReadValue(features_, document_, old(current_), |old(nodes_)| + 1)
              case Thrown => status == Raised
              case Failed => status == Returned(false) && nodes_ == old(nodes_)
              case Parsed(v, pos) =>
                status == Returned(true) && value == v && current_ == pos && nodes_ == old(nodes_)
      decreases |document_| - current_, 2
    {
      hide JsonText.ReadValue;
      nodes_ := nodes_ + [Null];
      status := ReadValue();
      value := Null;
      if status != Raised {
        value := nodes_[|nodes_| - 1];
        nodes_ := nodes_[..|nodes_| - 1];
      }
    }

    method ReadArray() returns (status: Status)
      requires Valid() && |nodes_| >= 1
      modifies this`current_, this`nodes_
      ensures Delivers(JsonText.ReadItems(features_, document_, old(current_), |old(nodes_)|, []), status)
      decreases |document_| - current_, 5
    {
      SetCurrent(Array([]));
      status := ReadItems([]);
    }

    /** The loop of `readArray` with the items read so far in the current value. */
    method ReadItems(items: seq<Value>) returns (status: Status)
      requires Valid() && |nodes_| >= 1 && nodes_[|nodes_| - 1] == Array(items)
      modifies this`current_, this`nodes_
      ensures Delivers(JsonText.ReadItems(features_, document_, old(current_), |old(nodes_)|, items), status)
      decreases |document_| - current_, 4
    {
      hide JsonText.ReadItem, JsonText.SkipSpaces;
      SkipSpaces();
      if current_ != |document_| && document_[current_] == ']'
         && (|items| == 0 || (features_.allowTrailingCommas && !features_.allowDroppedNullPlaceholders)) {
        current_ := current_ + 1;
        return Returned(true);
      }
      status := ReadItem(items);
    }

    /** The rest of the loop body, from the next value on. */
    method ReadItem(items: seq<Value>) returns (status: Status)
      requires Valid() && |nodes_| >= 1 && nodes_[|nodes_| - 1] == Array(items)
      modifies this`current_, this`nodes_
      ensures Delivers(JsonText.ReadItem(features_, document_, old(current_), |old(nodes_)|, items), status)
      decreases |document_| - current_, 3
    {
      hide JsonText.ReadToken, JsonText.ReadValue, JsonText.ReadItems;
      SetCurrent(Array(items + [Null]));
      var value;
      status, value := ReadChild();
      if status != Returned(true) {
        return;
      }
      SetCurrent(Array(items + [value]));
      var currentToken := ReadToken();
      if currentToken.kind == JsonText.ArrayEnd {
        return Returned(true);
      }
      if currentToken.kind != JsonText.ArraySeparator {
        return Returned(false);
      }
      status := ReadItems(items + [value]);
    }

    method ReadObject() returns (status: Status)
      requires Valid() && |nodes_| >= 1
      modifies this`current_, this`nodes_
      ensures Delivers(JsonText.ReadMembers(features_, document_, old(current_), |old(nodes_)|, [], []), status)
      decreases |document_| - current_, 4
    {
      SetCurrent(Object([]));
      status := ReadMembers([], []);
    }

    /** The loop of `readObject`: the members read so far are in the current value, `name` is the key read last. */
    method ReadMembers(members: seq<Member>, name: bytes) returns (status: Status)
      requires Valid() && |nodes_| >= 1 && nodes_[|nodes_| - 1] == Object(members)
      modifies this`current_, this`nodes_
      ensures Delivers(JsonText.ReadMembers(features_, document_, old(current_), |old(nodes_)|, members, name), status)
      decreases |document_| - current_, 3
    {
      hide JsonText.ReadToken, JsonText.ReadMemberValue, JsonText.DecodeToken, JsonText.ReadItems, HasMember;
      var tokenName := ReadToken();
      if tokenName.kind == JsonText.ObjectEnd && (|name| == 0 || features_.allowTrailingCommas) {
        return Returned(true);
      }
      if tokenName.kind != JsonText.StringToken {
        return Returned(false);
      }
      var key := DecodeString(tokenName);
      if key.None? {
        return Returned(false);
      }
      if |key.value| >= MAX_KEY_LENGTH {
        return Raised;
      }
      if features_.rejectDupKeys && HasMember(members, key.value) {
        return Returned(false);
      }
      status := ReadMemberValue(members, key.value);
    }

    /** The rest of the loop body, from the colon on. */
    method ReadMemberValue(members: seq<Member>, name: bytes) returns (status: Status)
      requires Valid() && |nodes_| >= 1 && nodes_[|nodes_| - 1] == Object(members)
      modifies this`current_, this`nodes_
      ensures Delivers(JsonText.ReadMemberValue(features_, document_, old(current_), |old(nodes_)|, members, name),
                       status)
      decreases |document_| - current_, 4
    {
      hide JsonText.ReadToken, JsonText.ReadValue, JsonText.ReadMembers, Insert;
      var colon := ReadToken();
      if colon.kind != JsonText.MemberSeparator {
        return Returned(false);
      }
      var value;
      status, value := ReadChild();
      if status != Returned(true) {
        return;
      }
      var read := Insert(members, name, value);
      SetCurrent(Object(read));
      var comma := ReadToken();
      if comma.kind == JsonText.ObjectEnd {
        return Returned(true);
      }
      if comma.kind != JsonText.ArraySeparator {
        return Returned(false);
      }
      status := ReadMembers(read, name);
    }

    method Parse(document: bytes) returns (status: Status, root: Value)
      modifies this
      ensures match JsonText.Parse(features_, document)
              case Thrown => status == Raised
              case Failed => status == Returned(false)
              case Parsed(v, _) => status == Returned(true) && root == v
    {
      hide JsonText.ReadToken, JsonText.ReadValue;
      document_, current_, nodes_ := document, 0, [Null];
      status := ReadValue();
      if status == Raised {
        return status, Null;
      }
      root := nodes_[0];
      if status == Returned(false) {
        return;
      }
      var token := ReadToken();
      if features_.failIfExtra && token.kind != JsonText.EndOfStream {
        return Returned(false), root;
      }
      if features_.strictRoot && !root.Array? && !root.Object? {
        return Returned(false), root;
      }
    }
  }

  lemma BadDigit(doc: bytes, i: nat, k: nat)
    requires k < 4 && i + 4 <= |doc| && HexValue(doc[i + k]).None?
    ensures HexDigits(doc, i, 4).None?
  {
    assert HexDigits(doc, i, k + 1).None?;
    assert k + 2 <= 4 ==> HexDigits(doc, i, k + 2).None?;
    assert k + 3 <= 4 ==> HexDigits(doc, i, k + 3).None?;
  }

  lemma PrependNothing(r: Option<bytes>)
    ensures Prepend([], r) == r
  {
    if r.Some? {
      assert [] + r.value == r.value;
    }
  }

  lemma PrependTwice(a: bytes, b: bytes, r: Option<bytes>)
    ensures Prepend(a, Prepend(b, r)) == Prepend(a + b, r)
  {
    if r.Some? {
      assert a + (b + r.value) == (a + b) + r.value;
    }
  }
}
