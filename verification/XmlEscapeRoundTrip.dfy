/** Escaping is undone by decoding: every NUL-free string survives as an attribute value, and as character data up to
    the line ends that the parser was asked to normalize. */
module XmlEscapeRoundTrip {
  import opened Bytes
  import opened Utf8
  import opened XmlChars
  import opened XmlText
  import opened XmlEscape
  import opened Places
  import opened XmlSyntax

  // ----- what is escaped -----

  /** Ampersands and `<` are always escaped, `>` in character data only, and in attributes the quote in use. Control
      characters, in character data other than tabs and line ends, become a decimal reference of two digits or nothing.
      Everything else is written as it is. */
  lemma EscapedIs(c: byte, t: CharTypeX, flags: Flags)
    requires c != '\0'
    ensures var text := EscapedByte(c, t, flags);
      if c == '&' then text == "&amp;"
      else if c == '<' then text == "&lt;"
      else if c == '>' && t == SpecialPcdata then text == "&gt;"
      else if c == '\"' && t == SpecialAttr && !flags.singleQuote then text == "&quot;"
      else if c == '\'' && t == SpecialAttr && flags.singleQuote then text == "&apos;"
      else if Code(c) < 0x20 && !(t == SpecialPcdata && c in "\t\r\n") then
        if flags.skipControl then text == "" else IsReferenceTo(c, text)
      else text == [c]
  {
    hide Positional, AllDigitsOf;
    if Code(c) < 0x20 {
      ControlNumber(c);
    }
  }

  ghost predicate IsReferenceTo(c: byte, text: bytes) {
    exists digits :: |digits| == 2 && AllDigitsOf(digits, 10) && Positional(digits, 10) == Code(c)
                     && text == CodeText(false, digits)
  }

  lemma ControlNumber(c: byte)
    requires Code(c) < 0x20
    ensures IsReferenceTo(c, ControlReference(c))
  {
    hide IsDigitOf, ValueOf;
    var a, b := Chr(48 + Code(c) / 10), Chr(48 + Code(c) % 10);
    var digits := [a, b];
    DecimalPlace(a);
    DecimalPlace(b);
    assert digits[..1] == [a] && [a][..0] == [];
    assert Positional([a], 10) == Code(c) / 10;
    assert ControlReference(c) == CodeText(false, digits);
  }

  // ----- single references -----

  /** The five named references read back as their characters. */
  lemma NamedReadsBack(src: bytes, i: nat, w: bytes, c: byte)
    requires Terminated(src) && At(src, i, w) && i + |w| < |src|
    requires (w, c) in [("&amp;", '&'), ("&lt;", '<'), ("&gt;", '>'), ("&quot;", '\"'), ("&apos;", '\'')]
    ensures src[i] == '&' && Reference(src, i) == Piece([c], i + |w|)
  {
    hide At, Reference;
    if w == "&amp;" { NamedReference(src, i, 0); }
    if w == "&lt;" { NamedReference(src, i, 1); }
    if w == "&gt;" { NamedReference(src, i, 2); }
    if w == "&apos;" { NamedReference(src, i, 3); }
    if w == "&quot;" { NamedReference(src, i, 4); }
  }

  /** Two decimal digits and a semicolon. */
  lemma TwoDigits(src: bytes, i: nat, a: nat, b: nat)
    requires Terminated(src) && i + 2 < |src| && a < 10 && b < 10
    requires src[i] == Chr(48 + a) && src[i + 1] == Chr(48 + b) && src[i + 2] == ';'
    ensures Digits(src, i, 10, 0) == (true, i + 2, 10 * a + b)
  {
    assert DigitIn(src[i], 10) == a && DigitIn(src[i + 1], 10) == b && DigitIn(src[i + 2], 10) == -1;
    assert Digits(src, i + 2, 10, 10 * a + b) == (true, i + 2, 10 * a + b);
    assert Digits(src, i + 1, 10, a) == Digits(src, i + 2, 10, 10 * a + b);
    assert Digits(src, i, 10, 0) == Digits(src, i + 1, 10, a);
  }

  lemma ControlReadsBack(src: bytes, i: nat, c: byte)
    requires Terminated(src) && Code(c) < 32 && At(src, i, ControlReference(c)) && i + 5 < |src|
    ensures src[i] == '&' && Reference(src, i) == Piece([c], i + 5)
  {
    var w, n := ControlReference(c), Code(c);
    AtByte(src, i, w, 0);
    AtByte(src, i, w, 1);
    AtByte(src, i, w, 2);
    AtByte(src, i, w, 3);
    AtByte(src, i, w, 4);
    hide At;
    TwoDigits(src, i + 2, n / 10, n % 10);
    assert Utf8Any(n) == [Chr(n)] == [c];
    hide Digits, Utf8Any;
    assert Numeric(src, i, i + 2, 10) == Piece([c], i + 5);
  }

  // ----- attribute values -----

  predicate KeepsText(kind: Kind) {
    (kind.AttributeSimple? || kind.AttributeEol? || kind.AttributeWconv?) && kind.escape
  }

  function Quote(flags: Flags): byte {
    if flags.singleQuote then '\'' else '\"'
  }

  /** An escaped byte is read back in one step. */
  lemma AttributeByte(kind: Kind, src: bytes, i: nat, c: byte, flags: Flags)
    requires KeepsText(kind) && Terminated(src) && c != '\0' && !flags.skipControl
    requires var w := EscapedByte(c, SpecialAttr, flags); At(src, i, w) && i + |w| < |src|
    ensures StepAt(kind, src, i, Quote(flags)) == Emit(Piece([c], i + |EscapedByte(c, SpecialAttr, flags)|))
  {
    var w := EscapedByte(c, SpecialAttr, flags);
    AtByte(src, i, w, 0);
    hide Reference, At;
    if !InClassX(c, SpecialAttr) || w == [c] {
      assert src[i] == c;
    } else if c == '&' {
      NamedReadsBack(src, i, "&amp;", c);
    } else if c == '<' {
      NamedReadsBack(src, i, "&lt;", c);
    } else if c == '\"' {
      NamedReadsBack(src, i, "&quot;", c);
    } else if c == '\'' {
      NamedReadsBack(src, i, "&apos;", c);
    } else {
      ControlReadsBack(src, i, c);
    }
  }

  /** Escaping in attribute mode and decoding up to the closing quote is the identity. */
  lemma {:induction false} AttributeRoundTrip(kind: Kind, src: bytes, i: nat, s: bytes, flags: Flags)
    requires KeepsText(kind) && Terminated(src) && '\0' !in s && !flags.skipControl
    requires At(src, i, Escaped(s, SpecialAttr, flags) + [Quote(flags)])
    ensures Decode(kind, src, i, Quote(flags)) == Text(s, i + |Escaped(s, SpecialAttr, flags)| + 1)
    decreases |s|
  {
    hide StepAt, EscapedByte, InClassX, At;
    var e, quote := Escaped(s, SpecialAttr, flags), Quote(flags);
    AtSplit(src, i, e, [quote]);
    AtByte(src, i + |e|, [quote], 0);
    InBounds(src, i + |e|, [quote]);
    if s == [] {
      assert e == [];
      QuoteStops(kind, src, i, flags);
    } else {
      var w, rest := EscapedByte(s[0], SpecialAttr, flags), Escaped(s[1..], SpecialAttr, flags);
      Regroup(w, rest, [quote]);
      AtSplit(src, i, w, rest + [quote]);
      AttributeByte(kind, src, i, s[0], flags);
      AttributeRoundTrip(kind, src, i + |w|, s[1..], flags);
      assert s == [s[0]] + s[1..];
    }
  }

  lemma InBounds(src: bytes, i: nat, w: bytes)
    requires At(src, i, w)
    ensures i + |w| <= |src|
  {
  }

  lemma QuoteStops(kind: Kind, src: bytes, i: nat, flags: Flags)
    requires KeepsText(kind) && Terminated(src) && i < |src| && src[i] == Quote(flags)
    ensures StepAt(kind, src, i, Quote(flags)) == Stop(i + 1)
  {
  }

  // ----- character data -----

  /** Section 2.11 of XML 1.0: a carriage return, alone or before a line feed, becomes a line feed. */
  function NormalizeEol(s: bytes): (r: bytes)
    ensures '\r' !in r
    decreases |s|
  {
    if s == [] then []
    else if s[0] == '\r' then ['\n' as byte] + NormalizeEol(s[if |s| > 1 && s[1] == '\n' then 2 else 1..])
    else [s[0]] + NormalizeEol(s[1..])
  }

  /** Normalization is the identity exactly on the strings without carriage returns. */
  lemma {:induction false} NormalizeEolIdentity(s: bytes)
    ensures NormalizeEol(s) == s <==> '\r' !in s
    decreases |s|
  {
    if s != [] && s[0] != '\r' {
      NormalizeEolIdentity(s[1..]);
      assert s == [s[0]] + s[1..];
    } else if s != [] {
      assert '\r' in s;
    }
  }

  lemma PcdataByte(eol: bool, src: bytes, i: nat, c: byte, flags: Flags, endch: byte)
    requires Terminated(src) && c != '\0' && !flags.skipControl && (eol ==> c != '\r')
    requires var w := EscapedByte(c, SpecialPcdata, flags); At(src, i, w) && i + |w| < |src|
    ensures StepAt(Pcdata(eol, true), src, i, endch) == Emit(Piece([c], i + |EscapedByte(c, SpecialPcdata, flags)|))
  {
    var w := EscapedByte(c, SpecialPcdata, flags);
    AtByte(src, i, w, 0);
    hide Reference, At;
    if !InClassX(c, SpecialPcdata) {
      assert src[i] == c;
    } else if c == '&' {
      NamedReadsBack(src, i, "&amp;", c);
    } else if c == '<' {
      NamedReadsBack(src, i, "&lt;", c);
    } else if c == '>' {
      NamedReadsBack(src, i, "&gt;", c);
    } else {
      ControlReadsBack(src, i, c);
    }
  }

  /** Only a line feed is written as text that starts with a line feed. */
  lemma StartsWithLineFeed(c: byte, flags: Flags)
    requires c != '\0' && !flags.skipControl
    ensures var w := EscapedByte(c, SpecialPcdata, flags); w != [] && (w[0] == '\n' <==> c == '\n')
    ensures c == '\n' || c == '\r' ==> EscapedByte(c, SpecialPcdata, flags) == [c]
  {
  }

  /** The byte after an escaped string of character data. */
  predicate EndsText(src: bytes, i: nat) {
    i < |src| && (src[i] == '<' || src[i] == '\0')
  }

  lemma TextEnds(eol: bool, src: bytes, i: nat, endch: byte)
    requires Terminated(src) && EndsText(src, i)
    ensures StepAt(Pcdata(eol, true), src, i, endch) == Stop(if src[i] == '<' then i + 1 else i)
  {
  }

  lemma CarriageReturn(src: bytes, i: nat, endch: byte)
    requires Terminated(src) && i + 1 < |src| && src[i] == '\r'
    ensures StepAt(Pcdata(true, true), src, i, endch)
      == Emit(Piece(['\n' as byte], if src[i + 1] == '\n' then i + 2 else i + 1))
  {
  }

  lemma Emits(kind: Kind, src: bytes, i: nat, endch: byte, out: bytes, next: nat)
    requires kind.Attribute() ==> endch == '\"' || endch == '\''
    requires Terminated(src) && i < |src| && StepAt(kind, src, i, endch) == Emit(Piece(out, next))
    ensures next < |src| && Decode(kind, src, i, endch) == Prepend(out, Decode(kind, src, next, endch))
  {
    hide StepAt;
  }

  /** The bytes of a raw line end: one or two of the string, one of the text. */
  lemma PcdataLineEnd(src: bytes, i: nat, s: bytes, flags: Flags, endch: byte) returns (n: nat)
    requires Terminated(src) && '\0' !in s && !flags.skipControl && s != [] && s[0] == '\r'
    requires var e := Escaped(s, SpecialPcdata, flags); At(src, i, e) && EndsText(src, i + |e|)
    ensures n == (if |s| > 1 && s[1] == '\n' then 2 else 1)
    ensures At(src, i + n, Escaped(s[n..], SpecialPcdata, flags))
    ensures |Escaped(s, SpecialPcdata, flags)| == n + |Escaped(s[n..], SpecialPcdata, flags)|
    ensures StepAt(Pcdata(true, true), src, i, endch) == Emit(Piece(['\n' as byte], i + n))
  {
    hide EscapedByte, InClassX, At, Escaped, StepAt;
    var rest := s[1..];
    var e := Escaped(rest, SpecialPcdata, flags);
    n := if |s| > 1 && s[1] == '\n' then 2 else 1;
    StartsWithLineFeed(s[0], flags);
    EscapedStep(s, SpecialPcdata, flags);
    AtSplit(src, i, [s[0]], e);
    AtByte(src, i, [s[0]], 0);
    InBounds(src, i + 1, e);
    if rest != [] {
      StartsWithLineFeed(rest[0], flags);
      EscapedStep(rest, SpecialPcdata, flags);
      AtByte(src, i + 1, e, 0);
      if rest[0] == '\n' {
        AtSplit(src, i + 1, [rest[0]], Escaped(rest[1..], SpecialPcdata, flags));
        assert rest[1..] == s[2..];
      }
    } else {
      assert e == [] by {
        EscapedNothing(flags);
      }
    }
    CarriageReturn(src, i, endch);
  }

  /** The text that is left of `s`. */
  function Kept(eol: bool, s: bytes): bytes {
    if eol then NormalizeEol(s) else s
  }

  lemma KeptStep(eol: bool, s: bytes)
    requires s != []
    ensures eol && s[0] == '\r' ==>
      Kept(eol, s) == ['\n' as byte] + Kept(eol, s[if |s| > 1 && s[1] == '\n' then 2 else 1..])
    ensures !(eol && s[0] == '\r') ==> Kept(eol, s) == [s[0]] + Kept(eol, s[1..])
  {
    assert s == [s[0]] + s[1..];
  }

  lemma EscapedNothing(flags: Flags)
    ensures Escaped([], SpecialPcdata, flags) == []
  {
  }

  /** Where parsing goes on after the text that ends at `end`. */
  function After(src: bytes, end: nat): nat
    requires end < |src|
  {
    if src[end] == '<' then end + 1 else end
  }

  /** One step of the decoder takes `n` bytes of the string, written as `w` bytes, to the text `out`. */
  lemma PcdataStep(eol: bool, src: bytes, i: nat, s: bytes, flags: Flags, endch: byte)
    returns (n: nat, w: nat, out: bytes)
    requires Terminated(src) && '\0' !in s && !flags.skipControl && s != []
    requires var e := Escaped(s, SpecialPcdata, flags); At(src, i, e) && EndsText(src, i + |e|)
    ensures 1 <= n <= |s| && i + w < |src| && At(src, i + w, Escaped(s[n..], SpecialPcdata, flags))
    ensures |Escaped(s, SpecialPcdata, flags)| == w + |Escaped(s[n..], SpecialPcdata, flags)|
    ensures Decode(Pcdata(eol, true), src, i, endch) == Prepend(out, Decode(Pcdata(eol, true), src, i + w, endch))
    ensures Kept(eol, s) == out + Kept(eol, s[n..])
  {
    hide StepAt, EscapedByte, InClassX, At, Escaped, Decode, Kept, NormalizeEol;
    KeptStep(eol, s);
    if eol && s[0] == '\r' {
      n := PcdataLineEnd(src, i, s, flags, endch);
      w, out := n, ['\n'];
    } else {
      var e, rest := EscapedByte(s[0], SpecialPcdata, flags), Escaped(s[1..], SpecialPcdata, flags);
      EscapedStep(s, SpecialPcdata, flags);
      AtSplit(src, i, e, rest);
      InBounds(src, i + |e|, rest);
      PcdataByte(eol, src, i, s[0], flags, endch);
      n, w, out := 1, |e|, [s[0]];
    }
    Emits(Pcdata(eol, true), src, i, endch, out, i + w);
  }

  /** Escaping in character data mode and decoding up to the next tag, or the end, normalizes line ends if asked to and
      changes nothing else. */
  lemma {:induction false} PcdataRoundTrip(eol: bool, src: bytes, i: nat, s: bytes, flags: Flags, endch: byte)
    requires Terminated(src) && '\0' !in s && !flags.skipControl
    requires var e := Escaped(s, SpecialPcdata, flags); At(src, i, e) && EndsText(src, i + |e|)
    ensures Decode(Pcdata(eol, true), src, i, endch)
      == Text(Kept(eol, s), After(src, i + |Escaped(s, SpecialPcdata, flags)|))
    decreases |s|
  {
    hide StepAt, At, Escaped;
    if s == [] {
      EscapedNothing(flags);
      TextEnds(eol, src, i, endch);
    } else {
      hide Decode, Kept, After;
      var n, w, out := PcdataStep(eol, src, i, s, flags, endch);
      PcdataRoundTrip(eol, src, i + w, s[n..], flags, endch);
    }
  }

  /** The string comes back exactly when line ends are left alone or it has no carriage return. */
  lemma CharacterDataSurvivesIff(eol: bool, src: bytes, i: nat, s: bytes, flags: Flags, endch: byte)
    requires Terminated(src) && '\0' !in s && !flags.skipControl
    requires var e := Escaped(s, SpecialPcdata, flags); At(src, i, e) && EndsText(src, i + |e|)
    ensures var next := After(src, i + |Escaped(s, SpecialPcdata, flags)|);
      Decode(Pcdata(eol, true), src, i, endch) == Text(s, next) <==> !eol || '\r' !in s
  {
    hide Decode, Escaped, At, EndsText, After;
    PcdataRoundTrip(eol, src, i, s, flags, endch);
    NormalizeEolIdentity(s);
  }

  // ----- skipped control characters -----

  predicate Skipped(c: byte, t: CharTypeX) {
    InClassX(c, t) && Code(c) < 32
  }

  function Without(s: bytes, t: CharTypeX): (r: bytes)
    ensures forall c :: c in r ==> c in s && !Skipped(c, t)
  {
    if s == [] then [] else (if Skipped(s[0], t) then [] else [s[0]]) + Without(s[1..], t)
  }

  /** With `format_skip_control_chars` the text is the one without those characters, escaped. */
  lemma {:induction false} SkippingIsFiltering(s: bytes, t: CharTypeX, singleQuote: bool)
    requires '\0' !in s
    ensures Escaped(s, t, Flags(singleQuote, true)) == Escaped(Without(s, t), t, Flags(singleQuote, false))
    decreases |s|
  {
    if s != [] {
      SkippingIsFiltering(s[1..], t, singleQuote);
      SkippedByte(s[0], t, singleQuote);
      hide EscapedByte, Skipped;
      if !Skipped(s[0], t) {
        assert Without(s, t)[1..] == Without(s[1..], t);
      } else {
        assert Without(s, t) == Without(s[1..], t);
      }
    }
  }

  lemma SkippedByte(c: byte, t: CharTypeX, singleQuote: bool)
    requires c != '\0'
    ensures EscapedByte(c, t, Flags(singleQuote, true))
      == if Skipped(c, t) then [] else EscapedByte(c, t, Flags(singleQuote, false))
  {
  }
}
