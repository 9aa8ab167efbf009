/** JSON integers: `uintToString`, `valueToString`, `readNumber` and `decodeNumber`. */
module JsonNumbers {
  import opened Bytes
  import opened Decimal
  import opened JsonValue

  // ----- reading -----

  function SkipDigits(doc: bytes, i: nat): (r: nat)
    requires i <= |doc|
    ensures i <= r <= |doc|
    decreases |doc| - i
  {
    if i < |doc| && IsDigit(doc[i]) then SkipDigits(doc, i + 1) else i
  }

  function SkipFraction(doc: bytes, i: nat): (r: nat)
    requires i <= |doc|
    ensures i <= r <= |doc|
  {
    if i < |doc| && doc[i] == '.' then SkipDigits(doc, i + 1) else i
  }

  function SkipExponent(doc: bytes, i: nat): (r: nat)
    requires i <= |doc|
    ensures i <= r <= |doc|
  {
    if i < |doc| && (doc[i] == 'e' || doc[i] == 'E') then
      SkipDigits(doc, if i + 1 < |doc| && (doc[i + 1] == '+' || doc[i + 1] == '-') then i + 2 else i + 1)
    else i
  }

  /** `readNumber` from the byte after the one that opened the token. */
  function ScanNumber(doc: bytes, i: nat): (r: nat)
    requires i <= |doc|
    ensures i <= r <= |doc|
  {
    SkipExponent(doc, SkipFraction(doc, SkipDigits(doc, i)))
  }

  function Threshold(negative: bool): int {
    if negative then 922337203685477580 else 1844674407370955161
  }

  function MaxLastDigit(negative: bool): int {
    if negative then 8 else 5
  }

  datatype Accumulated = Exact(value: nat) | ToDouble

  /** The loop of `decodeNumber` over the digits `t[i..]`, with `value` accumulated so far. */
  function Accumulate(t: bytes, i: nat, value: nat, negative: bool): Accumulated
    requires i <= |t|
    decreases |t| - i
  {
    if i == |t| then Exact(value)
    else if !IsDigit(t[i]) then ToDouble
    else
      var digit := DigitValue(t[i]);
      if value >= Threshold(negative)
         && (value > Threshold(negative) || i + 1 != |t| || digit > MaxLastDigit(negative))
      then ToDouble
      else Accumulate(t, i + 1, value * 10 + digit, negative)
  }

  /** `decodeNumber` on the text of a number token. */
  function DecodeNumber(t: bytes): Value
    requires t != []
  {
    var negative := t[0] == '-';
    var r := Accumulate(t, if negative then 1 else 0, 0, negative);
    if r.ToDouble? then Real(t)
    else if negative then Int(0 - r.value)
    else if r.value <= MAX_INT then Int(r.value)
    else UInt(r.value)
  }

  function Limit(negative: bool): int {
    if negative then -MIN_INT else MAX_UINT
  }

  lemma {:induction false} MeaningGrows(t: bytes, i: nat)
    requires i <= |t| && AllDigits(t)
    ensures Meaning(t[..i]) <= Meaning(t)
    ensures i < |t| ==> Meaning(t[..i]) * 10 <= Meaning(t)
    decreases |t| - i
  {
    if i == |t| {
      assert t[..i] == t;
    } else {
      MeaningGrows(t, i + 1);
      assert t[..i + 1][..i] == t[..i];
    }
  }

  lemma {:induction false} AccumulateExactly(t: bytes, d: nat, i: nat, negative: bool)
    requires d <= i <= |t| && AllDigits(t[d..])
    requires Meaning(t[d..i]) <= Limit(negative)
    ensures AllDigits(t[d..i])
    ensures Accumulate(t, i, Meaning(t[d..i]), negative)
         == if Meaning(t[d..]) <= Limit(negative) then Exact(Meaning(t[d..])) else ToDouble
    decreases |t| - i
  {
    if i == |t| {
      assert t[d..i] == t[d..];
    } else {
      assert t[d..][i - d] == t[i];
      assert t[d..i + 1][..i - d] == t[d..i] == t[d..][..i - d];
      assert t[d..i + 1] == t[d..][..i + 1 - d];
      var next := Meaning(t[d..i]) * 10 + DigitValue(t[i]);
      assert Meaning(t[d..i + 1]) == next;
      MeaningGrows(t[d..], i + 1 - d);
      if next <= Limit(negative) {
        AccumulateExactly(t, d, i + 1, negative);
      }
    }
  }

  /** Range detection is exact: an optionally signed digit string becomes an integer exactly when it fits
      the 64-bit types, and then it is the number it denotes; otherwise it is left to `decodeDouble`. */
  lemma DecodeNumberIsExact(t: bytes, negative: bool)
    requires AllDigits(t) && (t != [] || negative)
    ensures DecodeNumber(if negative then "-" + t else t)
         == if Meaning(t) > Limit(negative) then Real(if negative then "-" + t else t)
            else if negative then Int(0 - Meaning(t))
            else if Meaning(t) <= MAX_INT then Int(Meaning(t))
            else UInt(Meaning(t))
  {
    var text, d := if negative then "-" + t else t, if negative then 1 else 0;
    assert text[d..] == t && text[d..d] == [];
    AccumulateExactly(text, d, d, negative);
  }

  /** Text that is not an optionally signed digit string never becomes an integer. */
  lemma {:induction false} NotDigitsToDouble(t: bytes, i: nat, value: nat, negative: bool)
    requires i <= |t| && !AllDigits(t[i..])
    ensures Accumulate(t, i, value, negative) == ToDouble
    decreases |t| - i
  {
    if IsDigit(t[i]) {
      assert t[i..] == [t[i]] + t[i + 1..];
      var digit := DigitValue(t[i]);
      if !(value >= Threshold(negative)
           && (value > Threshold(negative) || i + 1 != |t| || digit > MaxLastDigit(negative))) {
        NotDigitsToDouble(t, i + 1, value * 10 + digit, negative);
      }
    }
  }

  // ----- reading back what was written -----

  /** Nothing stands at `i` that could belong to a number before it. */
  predicate NumberEnds(doc: bytes, i: nat) {
    i == |doc| || (i < |doc| && !IsDigit(doc[i]) && doc[i] !in ['.', 'e', 'E', '+', '-', 'I'])
  }

  lemma {:induction false} SkipAllDigits(doc: bytes, i: nat, t: bytes)
    requires At(doc, i, t) && AllDigits(t)
    requires i + |t| == |doc| || !IsDigit(doc[i + |t|])
    ensures SkipDigits(doc, i) == i + |t|
    decreases |t|
  {
    if t != [] {
      AtByte(doc, i, t, 0);
      assert t == [t[0]] + t[1..];
      AtSplit(doc, i, [t[0]], t[1..]);
      SkipAllDigits(doc, i + 1, t[1..]);
    }
  }

  lemma DigitsScanned(doc: bytes, i: nat, t: bytes)
    requires At(doc, i, t) && AllDigits(t) && NumberEnds(doc, i + |t|)
    ensures ScanNumber(doc, i) == i + |t|
    ensures t != [] ==> ScanNumber(doc, i + 1) == i + |t| && IsDigit(doc[i])
  {
    SkipAllDigits(doc, i, t);
    if t != [] {
      AtByte(doc, i, t, 0);
      assert SkipDigits(doc, i) == SkipDigits(doc, i + 1);
    }
  }

  lemma NumeralIsDigits(n: nat)
    ensures AllDigits(Numeral(n)) && Numeral(n) != []
  {
    NumeralMeaning(n);
  }

  /** The numeral of a 64-bit integer is scanned whole and decoded to the value it was written from. */
  lemma NumberReadsBack(n: int, doc: bytes, i: nat)
    requires MIN_INT <= n <= MAX_UINT
    requires At(doc, i, SignedNumeral(n)) && NumberEnds(doc, i + |SignedNumeral(n)|)
    ensures i < |doc| && (if n < 0 then doc[i] == '-' else IsDigit(doc[i]))
    ensures ScanNumber(doc, i + 1) == i + |SignedNumeral(n)|
    ensures DecodeNumber(SignedNumeral(n)) == if n <= MAX_INT then Int(n) else UInt(n)
  {
    hide ScanNumber, Numeral, DecodeNumber, NumberEnds, Meaning;
    if n < 0 {
      var t := Numeral(-n);
      NumeralIsDigits(-n);
      AtSplit(doc, i, "-", t);
      AtByte(doc, i, "-", 0);
      DigitsScanned(doc, i + 1, t);
    } else {
      NumeralIsDigits(n);
      DigitsScanned(doc, i, Numeral(n));
    }
    NumeralDecodes(n);
  }

  lemma NumeralDecodes(n: int)
    requires MIN_INT <= n <= MAX_UINT
    ensures SignedNumeral(n) != []
    ensures DecodeNumber(SignedNumeral(n)) == if n <= MAX_INT then Int(n) else UInt(n)
  {
    hide DecodeNumber, Numeral;
    NumeralMeaning(if n < 0 then -n else n);
    DecodeNumberIsExact(Numeral(if n < 0 then -n else n), n < 0);
  }
}
