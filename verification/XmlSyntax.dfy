/** The text that the decoders read, unit by unit: ordinary bytes, line ends, white space and references. Every text is
    a sequence of units, and every decoder delivers what the units stand for. */
module XmlSyntax {
  import opened Bytes
  import opened Utf8
  import opened Places
  import opened Arithmetic
  import opened XmlChars
  import opened XmlText

  const SPACES: bytes := " \t\r\n"

  /** The references of section 4.6 of XML 1.0, and what they stand for. */
  const NAMES: seq<bytes> := ["&amp;", "&lt;", "&gt;", "&apos;", "&quot;"]
  const MEANT: bytes := "&<>'\""

  datatype Unit =
    | Plain(c: byte)
    | Break(ends: bytes)
    | White(c: byte)
    | Spaces(run: bytes)
    | Entity(k: nat)
    | Coded(hex: bool, digits: bytes)

  predicate AllSpaces(ws: bytes) {
    forall k :: 0 <= k < |ws| ==> ws[k] in SPACES
  }

  function Base(hex: bool): nat {
    if hex then 16 else 10
  }

  function Written(u: Unit): bytes {
    match u
    case Plain(c) => [c]
    case Break(ends) => ends
    case White(c) => [c]
    case Spaces(run) => run
    case Entity(k) => if k < 5 then NAMES[k] else []
    case Coded(hex, digits) => CodeText(hex, digits)
  }

  function CodeText(hex: bool, digits: bytes): bytes {
    (if hex then "&#x" else "&#") + (digits + ";")
  }

  predicate Starts(t: bytes, w: bytes) {
    |w| <= |t| && t[..|w|] == w
  }

  /** A reference stands at the front. */
  ghost predicate StartsReference(t: bytes) {
    || (exists k :: 0 <= k < 5 && Starts(t, NAMES[k]))
    || (exists hex, digits :: digits != [] && AllDigitsOf(digits, Base(hex)) && Starts(t, CodeText(hex, digits)))
  }

  // ----- what a decoder looks for -----

  predicate TakesBreaks(kind: Kind) {
    match kind
    case Comment | Cdata | AttributeEol(_) | AttributeWconv(_) => true
    case Pcdata(eol, _) => eol
    case AttributeSimple(_) | AttributeWnorm(_) => false
  }

  predicate TakesReferences(kind: Kind) {
    match kind
    case Comment | Cdata => false
    case Pcdata(_, escape) => escape
    case AttributeSimple(escape) => escape
    case AttributeEol(escape) => escape
    case AttributeWconv(escape) => escape
    case AttributeWnorm(escape) => escape
  }

  predicate TakesSpaces(kind: Kind) {
    kind.AttributeWconv? || kind.AttributeWnorm?
  }

  /** The end of the text stands at the front. The parser cuts off the last byte of its buffer and passes it as `endch`;
      an attribute gets its closing quote there. */
  predicate Ends(kind: Kind, t: bytes, endch: byte) {
    match kind
    case Comment => Starts(t, "-->") || (endch == '>' && Starts(t, "--\0"))
    case Cdata => Starts(t, "]]>") || (endch == '>' && Starts(t, "]]\0"))
    case Pcdata(_, _) => Starts(t, "<")
    case _ => Starts(t, [endch])
  }

  /** How far parsing goes on: behind a comment, at the last two bytes of a CDATA section, behind `<` or the quote. */
  function Passed(kind: Kind, t: bytes): nat {
    match kind
    case Comment => if Starts(t, "-->") then 3 else 2
    case _ => 1
  }

  /** The unit may stand in front of `rest` in a text for this decoder. */
  ghost predicate Fits(kind: Kind, u: Unit, rest: bytes, endch: byte) {
    match u
    case Plain(c) =>
      && c != '\0' && !Ends(kind, [c] + rest, endch)
      && !(TakesBreaks(kind) && c == '\r') && !(TakesSpaces(kind) && c in SPACES)
      && !(TakesReferences(kind) && StartsReference([c] + rest))
    case Break(ends) => TakesBreaks(kind) && (ends == "\r\n" || (ends == "\r" && !Starts(rest, "\n")))
    case White(c) => kind.AttributeWconv? && c in " \t\n"
    case Spaces(run) =>
      kind.AttributeWnorm? && run != [] && AllSpaces(run) && (rest == [] || rest[0] !in SPACES)
    case Entity(k) => TakesReferences(kind) && k < 5
    case Coded(hex, digits) => TakesReferences(kind) && digits != [] && AllDigitsOf(digits, Base(hex))
  }

  /** What a unit stands for: a line end is one line feed, white space in an attribute is one space where it is
      converted or normalized, and a numeric reference is the UTF-8 of its number, kept in 32 bits. */
  function Denoted(kind: Kind, u: Unit): bytes {
    match u
    case Plain(c) => [c]
    case Break(_) => if kind.AttributeWconv? then " " else "\n"
    case White(_) | Spaces(_) => " "
    case Entity(k) => if k < 5 then [MEANT[k]] else []
    case Coded(hex, digits) => Utf8Any(Positional(digits, Base(hex)) % 0x1_0000_0000)
  }

  function Body(us: seq<Unit>): bytes {
    if us == [] then [] else Written(us[0]) + Body(us[1..])
  }

  function Meaning(kind: Kind, us: seq<Unit>): bytes {
    if us == [] then [] else Denoted(kind, us[0]) + Meaning(kind, us[1..])
  }

  ghost predicate AllFit(kind: Kind, us: seq<Unit>, rest: bytes, endch: byte) {
    us == [] || (Fits(kind, us[0], Body(us[1..]) + rest, endch) && AllFit(kind, us[1..], rest, endch))
  }

  // ----- digits -----

  lemma DigitIsPlace(c: byte, base: nat)
    requires base == 10 || base == 16
    ensures DigitIn(c, base) == if IsDigitOf(c, base) then ValueOf(c, base) else -1
  {
    hide IsDigitOf, ValueOf;
    if base == 16 { HexPlace(c); } else { DecimalPlace(c); }
  }

  lemma StepModulo(n: nat, base: nat, d: nat)
    ensures (n % 0x1_0000_0000 * base + d) % 0x1_0000_0000 == (n * base + d) % 0x1_0000_0000
  {
    ModStep(n, base, d, 0x1_0000_0000);
  }

  /** The digit loop, entered behind the first `k` digits. */
  lemma {:induction false} DigitsRead(src: bytes, j: nat, t: bytes, base: nat, k: nat)
    requires Terminated(src) && (base == 10 || base == 16) && AllDigitsOf(t, base) && At(src, j, t + ";")
    requires k <= |t|
    ensures j + |t| + 1 <= |src|
    ensures Digits(src, j + k, base, Positional(t[..k], base) % 0x1_0000_0000)
      == (true, j + |t|, Positional(t, base) % 0x1_0000_0000)
    decreases |t| - k
  {
    hide IsDigitOf, ValueOf, DigitIn, Digits;
    AtByte(src, j, t + ";", k);
    if k == |t| {
      assert t[..k] == t;
      SemicolonIsNoDigit(base);
    } else {
      assert t[..k + 1][..k] == t[..k];
      DigitIsPlace(t[k], base);
      StepModulo(Positional(t[..k], base), base, ValueOf(t[k], base));
      DigitsRead(src, j, t, base, k + 1);
    }
    DigitsStep(src, j + k, base, Positional(t[..k], base) % 0x1_0000_0000);
  }

  lemma DigitsStep(src: bytes, i: nat, base: nat, u: nat)
    requires Terminated(src) && i < |src| && (base == 10 || base == 16) && u < 0x1_0000_0000
    ensures var d := DigitIn(src[i], base);
      && (d < 0 ==> Digits(src, i, base, u) == (src[i] == ';', i, u))
      && (d >= 0 ==> i + 1 < |src|)
      && (d >= 0 ==> Digits(src, i, base, u) == Digits(src, i + 1, base, (u * base + d) % 0x1_0000_0000))
  {
  }

  lemma SemicolonIsNoDigit(base: nat)
    requires base == 10 || base == 16
    ensures DigitIn(';', base) == -1
  {
  }

  /** What the loop has passed is digits. */
  lemma {:induction false} DigitsPassed(src: bytes, j: nat, base: nat, u: nat)
    requires Terminated(src) && j < |src| && (base == 10 || base == 16) && u < 0x1_0000_0000
    ensures var r := Digits(src, j, base, u); AllDigitsOf(src[j..r.1], base) && (r.0 ==> src[r.1] == ';')
    decreases |src| - j
  {
    hide IsDigitOf, ValueOf, DigitIn;
    DigitIsPlace(src[j], base);
    var d := DigitIn(src[j], base);
    if d >= 0 {
      NoMark(src[j], base);
      var v := (u * (if base == 16 then 16 else 10) + d) % 0x1_0000_0000;
      DigitsPassed(src, j + 1, base, v);
      var r := Digits(src, j + 1, base, v);
      assert src[j..r.1] == [src[j]] + src[j + 1..r.1];
    }
  }

  // ----- references -----

  /** Up to U+1FFFFF the bytes are the row of RFC 3629; beyond that four bytes hold the low 22 bits. */
  lemma NumberInUtf8(ch: nat)
    requires ch < 0x1_0000_0000
    ensures var r := Utf8Any(ch);
      if ch < 0x200000 then IsRow(ch, r)
      else
        && |r| == 4 && 0xF0 <= Code(r[0]) && IsTail(r[1]) && IsTail(r[2]) && IsTail(r[3])
        && (Code(r[0]) - 0xF0) * 0x4_0000 + (Code(r[1]) - 0x80) * 0x1000 + (Code(r[2]) - 0x80) * 0x40
          + (Code(r[3]) - 0x80)
           == ch % 0x40_0000
  {
    hide IsRow;
    if ch < 0x200000 {
      EncodeIsRow(ch, Encode(ch));
    } else {
      SixBits(ch % 0x40_0000);
      LowBits(ch);
    }
  }

  lemma LowBits(ch: nat)
    ensures var low := ch % 0x40_0000;
      && low / 0x40000 == ch / 0x40000 % 0x10 && low / 0x1000 % 0x40 == ch / 0x1000 % 0x40
      && low / 0x40 % 0x40 == ch / 0x40 % 0x40 && low % 0x40 == ch % 0x40
  {
    var q, low := ch / 0x40_0000, ch % 0x40_0000;
    assert ch == q * 0x40_0000 + low;
    Below(q, low, 0x40000, 0x10);
    Below(q * 0x10, low, 0x1000, 0x40);
    Below(q * 0x400, low, 0x40, 0x40);
    Below(q * 0x1000, low, 1, 0x40);
  }

  /** Bits that are added above the digit `/ n % m` leave it alone. */
  lemma Below(q: nat, low: nat, n: nat, m: nat)
    requires n > 0 && m > 0
    ensures (q * (n * m) + low) / n % m == low / n % m
  {
    assert q * (n * m) == n * (m * q) by {
      Associates(n, m, q);
      Associates(n * m, q, 1);
    }
    HighPart(m * q, low, n);
    HighPart(q, low / n, m);
  }

  lemma HighPart(x: nat, low: nat, n: nat)
    requires n > 0
    ensures (n * x + low) / n == x + low / n && (n * x + low) % n == low % n
  {
    var y, z := low / n, low % n;
    assert n * (x + y) == n * x + n * y;
    DivUnique(n * x + low, n, x + y, z);
  }

  /** Digits with a semicolon behind them deliver the UTF-8 of their positional value modulo 2^32. */
  lemma NumericReference(src: bytes, i: nat, hex: bool, digits: bytes)
    requires Terminated(src) && digits != [] && AllDigitsOf(digits, Base(hex)) && At(src, i, CodeText(hex, digits))
    ensures i + |CodeText(hex, digits)| < |src| && src[i] == '&'
    ensures Reference(src, i)
      == Piece(Utf8Any(Positional(digits, Base(hex)) % 0x1_0000_0000), i + |CodeText(hex, digits)|)
  {
    hide At, AllDigitsOf, Positional, Utf8Any, Digits;
    var j := i + if hex then 3 else 2;
    CodeBytes(src, i, hex, digits);
    NoDigits();
    DigitsRead(src, j, digits, Base(hex), 0);
    assert digits[..0] == [];
  }

  /** The bytes that are looked at before the digit loop. */
  lemma CodeBytes(src: bytes, i: nat, hex: bool, digits: bytes)
    requires Terminated(src) && digits != [] && AllDigitsOf(digits, Base(hex)) && At(src, i, CodeText(hex, digits))
    ensures var j := i + if hex then 3 else 2;
      && i + |CodeText(hex, digits)| == j + |digits| + 1 < |src|
      && src[i] == '&' && src[i + 1] == '#' && (src[i + 2] == 'x' <==> hex) && src[j] != ';' && At(src, j, digits + ";")
  {
    hide IsDigitOf;
    var front := if hex then "&#x" else "&#";
    AtSplit(src, i, front, digits + ";");
    AtByte(src, i, front, 0);
    AtByte(src, i, front, 1);
    if hex { AtByte(src, i, front, 2); }
    var j := i + |front|;
    AtByte(src, j, digits + ";", 0);
    AtByte(src, j, digits + ";", |digits|);
    NoMark(src[j], Base(hex));
  }

  lemma NoDigits()
    ensures Positional([], 10) == 0 && Positional([], 16) == 0
  {
  }

  /** A digit is neither of the bytes that are looked at before the loop. */
  lemma NoMark(c: byte, base: nat)
    requires (base == 10 || base == 16) && IsDigitOf(c, base)
    ensures c != 'x' && c != ';' && c != '\0'
  {
    hide IsDigitOf;
    if base == 16 { HexPlace(c); } else { DecimalPlace(c); }
  }

  /** Letters count the same in either case. */
  lemma CaseOfDigitsIsIgnored(src: bytes, i: nat, digits: bytes, other: bytes, j: nat)
    requires Terminated(src) && Terminated(other) && digits != [] && AllDigitsOf(digits, 16)
    requires At(src, i, CodeText(true, digits)) && At(other, j, CodeText(true, Capitals(digits)))
    ensures i + 1 < |src| && j + 1 < |other| && src[i] == '&' && other[j] == '&'
    ensures Reference(src, i).out == Reference(other, j).out
  {
    hide IsDigitOf, Positional, Utf8Any, Reference;
    CapitalsDenoteTheSame(digits);
    NumericReference(src, i, true, digits);
    NumericReference(other, j, true, Capitals(digits));
  }

  /** The five names. */
  lemma NamedReference(src: bytes, i: nat, k: nat)
    requires Terminated(src) && k < 5 && At(src, i, NAMES[k])
    ensures i + |NAMES[k]| < |src| && src[i] == '&'
    ensures Reference(src, i) == Piece([MEANT[k]], i + |NAMES[k]|)
  {
    hide Reference, At;
    match k
    case 0 => NameAmp(src, i);
    case 1 => NameLt(src, i);
    case 2 => NameGt(src, i);
    case 3 => NameApos(src, i);
    case 4 => NameQuot(src, i);
  }

  lemma NameAmp(src: bytes, i: nat)
    requires Terminated(src) && At(src, i, "&amp;")
    ensures i + 5 < |src| && src[i] == '&' && Reference(src, i) == Piece(['&'], i + 5)
  {
    hide Walk;
    AtByte(src, i, "&amp;", 0);
    AtByte(src, i, "&amp;", 1);
    AtByte(src, i, "&amp;", 2);
    AtByte(src, i, "&amp;", 3);
    AtByte(src, i, "&amp;", 4);
    Walked(src, i + 3, "p;");
  }

  lemma NameLt(src: bytes, i: nat)
    requires Terminated(src) && At(src, i, "&lt;")
    ensures i + 4 < |src| && src[i] == '&' && Reference(src, i) == Piece(['<'], i + 4)
  {
    hide Walk;
    AtByte(src, i, "&lt;", 0);
    AtByte(src, i, "&lt;", 1);
    AtByte(src, i, "&lt;", 2);
    AtByte(src, i, "&lt;", 3);
    Walked(src, i + 2, "t;");
  }

  lemma NameGt(src: bytes, i: nat)
    requires Terminated(src) && At(src, i, "&gt;")
    ensures i + 4 < |src| && src[i] == '&' && Reference(src, i) == Piece(['>'], i + 4)
  {
    hide Walk;
    AtByte(src, i, "&gt;", 0);
    AtByte(src, i, "&gt;", 1);
    AtByte(src, i, "&gt;", 2);
    AtByte(src, i, "&gt;", 3);
    Walked(src, i + 2, "t;");
  }

  lemma NameApos(src: bytes, i: nat)
    requires Terminated(src) && At(src, i, "&apos;")
    ensures i + 6 < |src| && src[i] == '&' && Reference(src, i) == Piece(['\''], i + 6)
  {
    hide Walk;
    AtByte(src, i, "&apos;", 0);
    AtByte(src, i, "&apos;", 1);
    AtByte(src, i, "&apos;", 2);
    AtByte(src, i, "&apos;", 3);
    AtByte(src, i, "&apos;", 4);
    AtByte(src, i, "&apos;", 5);
    Walked(src, i + 3, "os;");
  }

  lemma NameQuot(src: bytes, i: nat)
    requires Terminated(src) && At(src, i, "&quot;")
    ensures i + 6 < |src| && src[i] == '&' && Reference(src, i) == Piece(['\"'], i + 6)
  {
    hide Walk;
    AtByte(src, i, "&quot;", 0);
    AtByte(src, i, "&quot;", 1);
    AtByte(src, i, "&quot;", 2);
    AtByte(src, i, "&quot;", 3);
    AtByte(src, i, "&quot;", 4);
    AtByte(src, i, "&quot;", 5);
    Walked(src, i + 2, "uot;");
  }

  lemma {:induction false} Walked(src: bytes, i: nat, rest: bytes)
    requires Terminated(src) && i + |rest| < |src| && '\0' !in rest
    requires forall k :: 0 <= k < |rest| ==> src[i + k] == rest[k]
    ensures Walk(src, i, rest) == (true, i + |rest|)
    decreases |rest|
  {
    if rest != [] {
      Walked(src, i + 1, rest[1..]);
    }
  }

  // ----- ampersands that start no reference -----

  /** The bytes a comparison passes before it fails. */
  lemma {:induction false} WalkPassed(src: bytes, i: nat, rest: bytes)
    requires Terminated(src) && i < |src| && '\0' !in rest
    ensures var r := Walk(src, i, rest); r.1 - i <= |rest| && src[i..r.1] == rest[..r.1 - i]
    ensures Walk(src, i, rest).0 ==> At(src, i, rest)
    decreases |rest|
  {
    if rest != [] && src[i] == rest[0] {
      WalkPassed(src, i + 1, rest[1..]);
      var r := Walk(src, i + 1, rest[1..]);
      assert src[i..r.1] == [src[i]] + src[i + 1..r.1];
      assert rest == [rest[0]] + rest[1..];
    }
  }

  /** The bytes of references are ordinary bytes for every decoder that reads references. */
  predicate Mark(c: byte) {
    c in "#;xampostlguq" || IsDigitOf(c, 16)
  }

  lemma MarkIsOrdinary(kind: Kind, c: byte)
    requires TakesReferences(kind) && Mark(c)
    ensures !InClass(c, StopClass(kind)) && !IsSpace(c)
  {
    hide IsDigitOf;
    HexPlace(c);
  }

  predicate AllMarks(t: bytes) {
    forall k :: 0 <= k < |t| ==> Mark(t[k])
  }

  /** Where no reference stands the bytes looked at stay as they are. */
  ghost predicate Unchanged(src: bytes, i: nat) {
    && Terminated(src) && i < |src| && src[i] == '&'
    && var p := Reference(src, i); p.out == src[i..p.next] && AllMarks(src[i + 1..p.next])
  }

  lemma StartsAt(src: bytes, i: nat, w: bytes)
    requires i <= |src|
    ensures At(src, i, w) <==> Starts(src[i..], w)
  {
    if |w| <= |src| - i {
      assert src[i..][..|w|] == src[i..i + |w|];
    }
  }

  /** A comparison with `w`, of which the first `k` bytes have been seen, passes a part of it. */
  lemma Compared(src: bytes, i: nat, w: bytes, k: nat)
    requires Terminated(src) && 0 < k < |w| && At(src, i, w[..k]) && i + k < |src| && '\0' !in w[k..]
    ensures var r := Walk(src, i + k, w[k..]);
      (r.0 ==> At(src, i, w)) && r.1 - i <= |w| && src[i + 1..r.1] == w[1..r.1 - i]
  {
    hide Walk, At;
    WalkPassed(src, i + k, w[k..]);
    var r := Walk(src, i + k, w[k..]);
    assert w == w[..k] + w[k..];
    if r.0 { AtJoined(src, i, w[..k], w[k..]); }
    SliceIs(src, i, w, k);
    assert src[i + 1..r.1] == src[i + 1..i + k] + src[i + k..r.1];
    assert w[1..r.1 - i] == w[1..k] + w[k..][..r.1 - i - k];
  }

  lemma SliceIs(src: bytes, i: nat, w: bytes, k: nat)
    requires 0 < k < |w| && At(src, i, w[..k])
    ensures i + k <= |src| && src[i + 1..i + k] == w[1..k]
  {
    assert src[i + 1..i + k] == src[i..i + k][1..] && w[1..k] == w[..k][1..];
  }

  lemma NameCompared(src: bytes, i: nat, name: nat, k: nat)
    requires Terminated(src) && name < 5 && 0 < k < |NAMES[name]| && At(src, i, NAMES[name][..k]) && i + k < |src|
    requires !StartsReference(src[i..])
    ensures '\0' !in NAMES[name][k..]
    ensures var r := Walk(src, i + k, NAMES[name][k..]); !r.0 && AllMarks(src[i + 1..r.1])
  {
    hide Walk, At, StartsReference, Mark;
    var w := NAMES[name];
    NameMarks(name, k);
    Compared(src, i, w, k);
    StartsAt(src, i, w);
    if Starts(src[i..], w) { NameStarts(src[i..], name); }
  }

  lemma NameStarts(t: bytes, name: nat)
    requires name < 5 && Starts(t, NAMES[name])
    ensures StartsReference(t)
  {
  }

  lemma AtJoined(src: bytes, i: nat, a: bytes, b: bytes)
    requires At(src, i, a) && At(src, i + |a|, b)
    ensures At(src, i, a + b)
  {
    assert src[i..i + |a + b|] == src[i..i + |a|] + src[i + |a|..i + |a| + |b|];
  }

  lemma NameMarks(name: nat, k: nat)
    requires name < 5 && 0 < k < |NAMES[name]|
    ensures '\0' !in NAMES[name][k..] && forall j :: 1 <= j <= |NAMES[name]| ==> AllMarks(NAMES[name][1..j])
  {
    match name
    case 0 => case 1 => case 2 => case 3 => case 4 =>
  }

  lemma DigitMark(c: byte, base: nat)
    requires (base == 10 || base == 16) && IsDigitOf(c, base)
    ensures Mark(c)
  {
    hide IsDigitOf;
    if base == 10 { DecimalPlace(c); HexPlace(c); }
  }

  lemma CodeStarts(src: bytes, i: nat, hex: bool, p: nat)
    requires var front := if hex then "&#x" else "&#";
      At(src, i, front) && i + |front| < p < |src| && AllDigitsOf(src[i + |front|..p], Base(hex)) && src[p] == ';'
    ensures StartsReference(src[i..])
  {
    hide At, AllDigitsOf;
    var front := if hex then "&#x" else "&#";
    var j := i + |front|;
    var digits := src[j..p];
    assert At(src, j, digits) && At(src, p, ";") by {
      AtIs(src, j, p);
      AtIs(src, p, p + 1);
      assert src[p..p + 1] == ";";
    }
    AtJoined(src, j, digits, ";");
    AtJoined(src, i, front, digits + ";");
    StartsAt(src, i, CodeText(hex, digits));
  }

  lemma AtIs(src: bytes, i: nat, j: nat)
    requires i <= j <= |src|
    ensures At(src, i, src[i..j])
  {
  }

  lemma NumericStray(src: bytes, i: nat, hex: bool)
    requires Terminated(src) && At(src, i, if hex then "&#x" else "&#") && !StartsReference(src[i..])
    ensures var j := i + if hex then 3 else 2;
      && j < |src|
      && var p := Numeric(src, i, j, Base(hex)); p.out == src[i..p.next] && AllMarks(src[i + 1..p.next])
  {
    hide At, Digits, Mark, StartsReference, AllDigitsOf;
    FrontPassed(src, i, hex);
    var j := i + if hex then 3 else 2;
    if src[j] != ';' {
      var r := Digits(src, j, Base(hex), 0);
      DigitsPassed(src, j, Base(hex), 0);
      if r.0 { CodeStarts(src, i, hex, r.1); }
      DigitMarks(src[j..r.1], Base(hex));
      assert src[i + 1..r.1] == src[i + 1..j] + src[j..r.1];
    }
  }

  lemma FrontPassed(src: bytes, i: nat, hex: bool)
    requires Terminated(src) && At(src, i, if hex then "&#x" else "&#")
    ensures i + (if hex then 3 else 2) < |src| && AllMarks(src[i + 1..i + if hex then 3 else 2])
  {
    hide AllMarks;
    var front := if hex then "&#x" else "&#";
    var j := i + |front|;
    AtByte(src, i, front, |front| - 1);
    assert src[i + 1..j] == src[i..j][1..] == front[1..];
    FrontMarks();
  }

  lemma DigitMarks(t: bytes, base: nat)
    requires (base == 10 || base == 16) && AllDigitsOf(t, base)
    ensures AllMarks(t)
  {
    hide IsDigitOf, Mark;
    forall k | 0 <= k < |t| ensures Mark(t[k]) {
      DigitMark(t[k], base);
    }
  }

  lemma FrontMarks()
    ensures AllMarks("&#"[1..]) && AllMarks("&#x"[1..])
  {
    hide IsDigitOf;
  }

  /** An ampersand that starts no reference stays as it is, with the bytes that were compared. */
  lemma StrayIsUnchanged(src: bytes, i: nat)
    requires Terminated(src) && i < |src| && src[i] == '&' && !StartsReference(src[i..])
    ensures Unchanged(src, i)
  {
    hide StartsReference, Reference, Mark, Unchanged;
    match src[i + 1]
    case '#' => StrayNumber(src, i);
    case 'a' => StrayA(src, i);
    case 'g' => StrayName(src, i, 2);
    case 'l' => StrayName(src, i, 1);
    case 'q' => StrayName(src, i, 4);
    case _ => StrayAlone(src, i);
  }

  lemma StrayAlone(src: bytes, i: nat)
    requires Terminated(src) && i < |src| && src[i] == '&' && src[i + 1] !in "#aglq"
    ensures Unchanged(src, i)
  {
  }

  lemma StrayNumber(src: bytes, i: nat)
    requires Terminated(src) && i < |src| && src[i] == '&' && src[i + 1] == '#' && !StartsReference(src[i..])
    ensures Unchanged(src, i)
  {
    hide StartsReference, Mark, Numeric;
    AtIs(src, i, i + 2);
    if src[i + 2] == 'x' { AtIs(src, i, i + 3); }
    NumericStray(src, i, src[i + 2] == 'x');
  }

  lemma StrayA(src: bytes, i: nat)
    requires Terminated(src) && i < |src| && src[i] == '&' && src[i + 1] == 'a' && !StartsReference(src[i..])
    ensures Unchanged(src, i)
  {
    hide StartsReference, Walk, Mark;
    if src[i + 2] == 'm' {
      NameStray(src, i, 0, 3);
    } else if src[i + 2] == 'p' {
      NameStray(src, i, 3, 3);
    } else {
      LetterMarks();
    }
  }

  /** The names that differ from all others in their first letter. */
  lemma StrayName(src: bytes, i: nat, name: nat)
    requires Terminated(src) && i < |src| && src[i] == '&' && !StartsReference(src[i..])
    requires name in {1, 2, 4} && src[i + 1] == NAMES[name][1]
    ensures Unchanged(src, i)
  {
    hide StartsReference, Walk, Mark;
    NameStray(src, i, name, 2);
  }

  lemma LetterMarks()
    ensures Mark('a')
  {
  }

  lemma NameStray(src: bytes, i: nat, name: nat, k: nat)
    requires Terminated(src) && name < 5 && 0 < k < |NAMES[name]| && i + k < |src| && !StartsReference(src[i..])
    requires forall j :: 0 <= j < k ==> src[i + j] == NAMES[name][j]
    ensures '\0' !in NAMES[name][k..]
    ensures var r := Walk(src, i + k, NAMES[name][k..]); !r.0 && AllMarks(src[i + 1..r.1])
  {
    hide StartsReference, Walk, Mark;
    assert src[i..i + k] == NAMES[name][..k];
    NameCompared(src, i, name, k);
  }

  /** An ampersand that starts no reference is an ordinary byte. */
  lemma StrayIsOrdinary(kind: Kind, src: bytes, i: nat, endch: byte)
    requires Terminated(src) && i < |src| && src[i] == '&' && !StartsReference(src[i..]) && TakesReferences(kind)
    requires kind.Attribute() ==> endch == '\"' || endch == '\''
    ensures i + 1 < |src|
    ensures Decode(kind, src, i, endch) == Prepend("&", Decode(kind, src, i + 1, endch))
  {
    hide StartsReference, Reference, Mark, InClass, Decode;
    StrayIsUnchanged(src, i);
    var p := Reference(src, i);
    forall k | i + 1 <= k < p.next ensures !InClass(src[k], StopClass(kind)) && !IsSpace(src[k]) {
      assert src[i + 1..p.next][k - i - 1] == src[k];
      MarkIsOrdinary(kind, src[k]);
    }
    OrdinaryStretch(kind, src, i + 1, p.next, endch);
    StepIsReference(kind, src, i, endch);
    assert src[i..p.next] == "&" + src[i + 1..p.next];
    PrependTwice("&", src[i + 1..p.next], Decode(kind, src, p.next, endch));
  }

  lemma StepIsReference(kind: Kind, src: bytes, i: nat, endch: byte)
    requires Terminated(src) && i < |src| && src[i] == '&' && TakesReferences(kind)
    requires kind.Attribute() ==> endch == '\"' || endch == '\''
    ensures var p := Reference(src, i); Decode(kind, src, i, endch) == Prepend(p.out, Decode(kind, src, p.next, endch))
  {
    hide Reference;
  }

  // ----- ends -----

  lemma StartsTwo(src: bytes, i: nat, a: byte, b: byte, c: byte)
    requires Terminated(src) && i < |src| && a != '\0' && b != '\0'
    ensures Starts(src[i..], [a, b, c]) <==> src[i] == a && src[i + 1] == b && src[i + 2] == c
  {
    var t := src[i..];
    if Starts(t, [a, b, c]) {
      assert t[..3][0] == t[0] == src[i] && t[..3][1] == t[1] == src[i + 1] && t[..3][2] == t[2] == src[i + 2];
    }
    if src[i] == a && src[i + 1] == b && src[i + 2] == c {
      assert t[..3] == [a, b, c];
    }
  }

  lemma StartsByte(src: bytes, i: nat, a: byte)
    requires i < |src|
    ensures Starts(src[i..], [a]) <==> src[i] == a
  {
    assert src[i..][..1] == [src[i]];
  }

  /** The decoder stops at the end of its text and nowhere else; without an end it is refused, except character data. */
  lemma EndIsExact(kind: Kind, src: bytes, i: nat, endch: byte)
    requires Terminated(src) && i < |src| && (kind.Attribute() ==> endch == '\"' || endch == '\'')
    ensures Ends(kind, src[i..], endch) ==> Decode(kind, src, i, endch) == Text([], i + Passed(kind, src[i..]))
    ensures !Ends(kind, src[i..], endch) && src[i] == '\0' ==>
      Decode(kind, src, i, endch) == if kind.Pcdata? then Text([], i) else Rejected
    ensures !Ends(kind, src[i..], endch) && src[i] != '\0' ==> StepAt(kind, src, i, endch).Emit?
  {
    hide Starts, Reference, SkipSpace;
    match kind
    case Comment =>
      StartsTwo(src, i, '-', '-', '>');
      StartsTwo(src, i, '-', '-', '\0');
    case Cdata =>
      StartsTwo(src, i, ']', ']', '>');
      StartsTwo(src, i, ']', ']', '\0');
    case Pcdata(_, _) => StartsByte(src, i, '<');
    case _ => StartsByte(src, i, endch);
  }

  // ----- units -----

  /** The text from `i` on is `t`. */
  predicate From(src: bytes, i: nat, t: bytes) {
    i <= |src| && src[i..] == t
  }

  lemma FromParts(src: bytes, i: nat, a: bytes, b: bytes)
    requires From(src, i, a + b)
    ensures i + |a| <= |src| && From(src, i + |a|, b) && At(src, i, a)
    ensures a != [] ==> i < |src| && src[i] == a[0]
    ensures b != [] ==> i + |a| < |src| && src[i + |a|] == b[0]
  {
    assert src[i..][|a|..] == b;
    assert src[i..i + |a|] == src[i..][..|a|] == a;
    if a != [] { assert src[i] == src[i..][0]; }
    if b != [] { assert src[i + |a|] == src[i + |a|..][0]; }
  }

  lemma MoreFollows(src: bytes, i: nat)
    requires Terminated(src) && 0 < i <= |src| && src[i - 1] != '\0'
    ensures i < |src|
  {
  }

  /** What one unit contributes. */
  ghost predicate Contributes(kind: Kind, src: bytes, i: nat, n: nat, out: bytes, endch: byte)
    requires kind.Attribute() ==> endch == '\"' || endch == '\''
  {
    && Terminated(src) && n > 0 && i + n < |src|
    && Decode(kind, src, i, endch) == Prepend(out, Decode(kind, src, i + n, endch))
  }

  lemma PlainRead(kind: Kind, c: byte, rest: bytes, src: bytes, i: nat, endch: byte)
    requires Terminated(src) && (kind.Attribute() ==> endch == '\"' || endch == '\'')
    requires From(src, i, [c] + rest) && Fits(kind, Plain(c), rest, endch)
    ensures Contributes(kind, src, i, 1, [c], endch)
  {
    hide Ends, Passed, StartsReference, Reference, Decode;
    FromParts(src, i, [c], rest);
    MoreFollows(src, i + 1);
    EndIsExact(kind, src, i, endch);
    if c == '&' && TakesReferences(kind) {
      StrayIsOrdinary(kind, src, i, endch);
    } else {
      PlainStep(kind, src, i, endch);
    }
  }

  lemma PlainStep(kind: Kind, src: bytes, i: nat, endch: byte)
    requires Terminated(src) && i < |src| && (kind.Attribute() ==> endch == '\"' || endch == '\'')
    requires StepAt(kind, src, i, endch).Emit? && !(src[i] == '&' && TakesReferences(kind))
    requires !(TakesBreaks(kind) && src[i] == '\r') && !(TakesSpaces(kind) && src[i] in SPACES)
    ensures i + 1 < |src| && Decode(kind, src, i, endch) == Prepend([src[i]], Decode(kind, src, i + 1, endch))
  {
  }

  lemma BreakRead(kind: Kind, ends: bytes, rest: bytes, src: bytes, i: nat, endch: byte)
    requires Terminated(src) && (kind.Attribute() ==> endch == '\"' || endch == '\'')
    requires From(src, i, ends + rest) && Fits(kind, Break(ends), rest, endch)
    ensures Contributes(kind, src, i, |ends|, Denoted(kind, Break(ends)), endch)
  {
    hide Reference, Decode;
    FromParts(src, i, ends, rest);
    MoreFollows(src, i + 1);
    if ends == "\r\n" {
      AtByte(src, i, ends, 1);
      MoreFollows(src, i + 2);
    } else {
      StartsByte(src, i + 1, '\n');
    }
    BreakStep(kind, src, i, endch);
  }

  lemma BreakStep(kind: Kind, src: bytes, i: nat, endch: byte)
    requires Terminated(src) && i + 1 < |src| && (kind.Attribute() ==> endch == '\"' || endch == '\'')
    requires src[i] == '\r' && TakesBreaks(kind)
    ensures var n := if src[i + 1] == '\n' then 2 else 1;
      && i + n < |src|
      && Decode(kind, src, i, endch)
         == Prepend(if kind.AttributeWconv? then " " else "\n", Decode(kind, src, i + n, endch))
  {
  }

  lemma WhiteRead(kind: Kind, c: byte, rest: bytes, src: bytes, i: nat, endch: byte)
    requires Terminated(src) && kind.AttributeWconv? && (endch == '\"' || endch == '\'')
    requires From(src, i, [c] + rest) && c in " \t\n"
    ensures Contributes(kind, src, i, 1, " ", endch)
  {
    FromParts(src, i, [c], rest);
    MoreFollows(src, i + 1);
  }

  lemma {:induction false} SpacesSkipped(src: bytes, i: nat, run: bytes, rest: bytes)
    requires Terminated(src) && From(src, i, run + rest) && AllSpaces(run) && rest != [] && rest[0] !in SPACES
    ensures i + |run| < |src| && i < |src| && SkipSpace(src, i) == i + |run|
    decreases |run|
  {
    FromParts(src, i, run, rest);
    if run == [] {
      assert run + rest == rest;
    } else {
      assert run + rest == [run[0]] + (run[1..] + rest);
      FromParts(src, i, [run[0]], run[1..] + rest);
      SpacesSkipped(src, i + 1, run[1..], rest);
    }
  }

  lemma SpacesRead(kind: Kind, run: bytes, rest: bytes, src: bytes, i: nat, endch: byte)
    requires Terminated(src) && kind.AttributeWnorm? && (endch == '\"' || endch == '\'')
    requires From(src, i, run + rest) && run != [] && AllSpaces(run) && (rest == [] || rest[0] !in SPACES)
    ensures Contributes(kind, src, i, |run|, " ", endch)
  {
    hide SkipSpace, Decode;
    assert run + rest == [run[0]] + (run[1..] + rest);
    FromParts(src, i, [run[0]], run[1..] + rest);
    FromParts(src, i, run, rest);
    AtByte(src, i, run, |run| - 1);
    MoreFollows(src, i + |run|);
    SpacesSkipped(src, i + 1, run[1..], rest);
    SpacesStep(kind, src, i, endch);
  }

  lemma SpacesStep(kind: Kind, src: bytes, i: nat, endch: byte)
    requires Terminated(src) && i + 1 < |src| && kind.AttributeWnorm? && src[i] in SPACES
    requires endch == '\"' || endch == '\''
    ensures Decode(kind, src, i, endch) == Prepend(" ", Decode(kind, src, SkipSpace(src, i + 1), endch))
  {
    hide SkipSpace, Reference;
  }

  lemma ReferenceRead(kind: Kind, src: bytes, i: nat, n: nat, out: bytes, endch: byte)
    requires Terminated(src) && i + n < |src| && n > 0 && src[i] == '&' && TakesReferences(kind)
    requires kind.Attribute() ==> endch == '\"' || endch == '\''
    requires Reference(src, i) == Piece(out, i + n)
    ensures Contributes(kind, src, i, n, out, endch)
  {
    hide Reference, Decode;
    StepIsReference(kind, src, i, endch);
  }

  /** Every unit contributes what it stands for. */
  lemma UnitRead(kind: Kind, u: Unit, rest: bytes, src: bytes, i: nat, endch: byte)
    requires Terminated(src) && (kind.Attribute() ==> endch == '\"' || endch == '\'')
    requires From(src, i, Written(u) + rest) && Fits(kind, u, rest, endch)
    ensures Contributes(kind, src, i, |Written(u)|, Denoted(kind, u), endch) && From(src, i + |Written(u)|, rest)
  {
    hide From, Reference, Ends, StartsReference, Contributes, IsDigitOf, Positional, Utf8Any, CodeText;
    FromParts(src, i, Written(u), rest);
    match u
    case Plain(c) => PlainRead(kind, c, rest, src, i, endch);
    case Break(ends) => BreakRead(kind, ends, rest, src, i, endch);
    case White(c) => WhiteRead(kind, c, rest, src, i, endch);
    case Spaces(run) => SpacesRead(kind, run, rest, src, i, endch);
    case Entity(k) =>
      NamedReference(src, i, k);
      ReferenceRead(kind, src, i, |Written(u)|, Denoted(kind, u), endch);
    case Coded(hex, digits) =>
      NumericReference(src, i, hex, digits);
      ReferenceRead(kind, src, i, |Written(u)|, Denoted(kind, u), endch);
  }

  /** A text of units, read up to what is behind it. */
  lemma {:induction false} UnitsRead(kind: Kind, us: seq<Unit>, rest: bytes, src: bytes, i: nat, endch: byte)
    requires Terminated(src) && (kind.Attribute() ==> endch == '\"' || endch == '\'')
    requires From(src, i, Body(us) + rest) && AllFit(kind, us, rest, endch) && i < |src|
    ensures i + |Body(us)| < |src| && From(src, i + |Body(us)|, rest)
    ensures Decode(kind, src, i, endch) == Prepend(Meaning(kind, us), Decode(kind, src, i + |Body(us)|, endch))
    decreases |us|
  {
    hide From, Fits, Written, Denoted, Decode;
    if us == [] {
      assert Body(us) + rest == rest;
      PrependNothing(Decode(kind, src, i, endch));
    } else {
      var u, more := us[0], Body(us[1..]) + rest;
      assert Body(us) + rest == Written(u) + more;
      UnitRead(kind, u, more, src, i, endch);
      UnitsRead(kind, us[1..], rest, src, i + |Written(u)|, endch);
      PrependTwice(Denoted(kind, u), Meaning(kind, us[1..]), Decode(kind, src, i + |Body(us)|, endch));
    }
  }

  /** Any text of units with an end behind it delivers what the units stand for. */
  lemma TextRead(kind: Kind, us: seq<Unit>, rest: bytes, src: bytes, i: nat, endch: byte)
    requires Terminated(src) && (kind.Attribute() ==> endch == '\"' || endch == '\'')
    requires From(src, i, Body(us) + rest) && AllFit(kind, us, rest, endch) && i < |src| && rest != []
    ensures Ends(kind, rest, endch) ==>
      Decode(kind, src, i, endch) == Text(Meaning(kind, us), i + |Body(us)| + Passed(kind, rest))
    ensures !Ends(kind, rest, endch) && rest[0] == '\0' ==>
      Decode(kind, src, i, endch) == if kind.Pcdata? then Text(Meaning(kind, us), i + |Body(us)|) else Rejected
  {
    hide Decode, AllFit, Body, Meaning, Ends, Passed, StepAt;
    UnitsRead(kind, us, rest, src, i, endch);
    var j := i + |Body(us)|;
    assert src[j] == src[j..][0];
    EndIsExact(kind, src, j, endch);
    assert Meaning(kind, us) + [] == Meaning(kind, us);
  }

  // ----- every text is a text of units -----

  /** The unit is the next one of the buffer. */
  ghost predicate Next(kind: Kind, src: bytes, i: nat, u: Unit, endch: byte) {
    var n := |Written(u)|;
    0 < n && i + n < |src| && From(src, i, Written(u) + src[i + n..]) && Fits(kind, u, src[i + n..], endch)
  }

  lemma NextIf(kind: Kind, src: bytes, i: nat, u: Unit, endch: byte)
    requires var n := |Written(u)|;
      0 < n && i + n < |src| && At(src, i, Written(u)) && Fits(kind, u, src[i + n..], endch)
    ensures Next(kind, src, i, u, endch)
  {
    hide Fits, Written;
    var n := |Written(u)|;
    assert src[i..] == src[i..i + n] + src[i + n..];
  }

  lemma RunAt(src: bytes, i: nat)
    requires Terminated(src) && i < |src|
    ensures var j := SkipSpace(src, i); AllSpaces(src[i..j]) && src[j] !in SPACES
    decreases |src| - i
  {
    if IsSpace(src[i]) {
      RunAt(src, i + 1);
      var j := SkipSpace(src, i + 1);
      assert src[i..j] == [src[i]] + src[i + 1..j];
    }
  }

  lemma ReferenceAt(kind: Kind, src: bytes, i: nat, endch: byte) returns (u: Unit)
    requires Terminated(src) && i < |src| && TakesReferences(kind) && StartsReference(src[i..])
    ensures Next(kind, src, i, u, endch)
  {
    hide IsDigitOf, Positional, Utf8Any, Reference, Next, CodeText, Starts;
    if k :| 0 <= k < 5 && Starts(src[i..], NAMES[k]) {
      u := Entity(k);
      StartsAt(src, i, NAMES[k]);
      NamedReference(src, i, k);
    } else {
      var hex, digits :| digits != [] && AllDigitsOf(digits, Base(hex)) && Starts(src[i..], CodeText(hex, digits));
      u := Coded(hex, digits);
      StartsAt(src, i, CodeText(hex, digits));
      NumericReference(src, i, hex, digits);
      CodeIsLong(hex, digits);
    }
    NextIf(kind, src, i, u, endch);
  }

  lemma CodeIsLong(hex: bool, digits: bytes)
    ensures |CodeText(hex, digits)| > 0
  {
  }

  lemma BreakAt(kind: Kind, src: bytes, i: nat, endch: byte) returns (u: Unit)
    requires Terminated(src) && i + 1 < |src| && TakesBreaks(kind) && src[i] == '\r'
    ensures Next(kind, src, i, u, endch)
  {
    hide Next;
    StartsByte(src, i + 1, '\n');
    u := Break(if src[i + 1] == '\n' then "\r\n" else "\r");
    NextIf(kind, src, i, u, endch);
  }

  lemma SpacesAt(kind: Kind, src: bytes, i: nat, endch: byte) returns (u: Unit)
    requires Terminated(src) && i < |src| && kind.AttributeWnorm? && src[i] in SPACES
    ensures Next(kind, src, i, u, endch)
  {
    hide Next, SkipSpace;
    RunAt(src, i);
    SpaceHere(src, i);
    u := Spaces(src[i..SkipSpace(src, i)]);
    AtIs(src, i, SkipSpace(src, i));
    NextIf(kind, src, i, u, endch);
  }

  lemma ByteAt(kind: Kind, src: bytes, i: nat, u: Unit, endch: byte)
    requires i + 1 < |src| && (u == Plain(src[i]) || u == White(src[i])) && Fits(kind, u, src[i + 1..], endch)
    ensures Next(kind, src, i, u, endch)
  {
    hide Next, Fits;
    AtIs(src, i, i + 1);
    NextIf(kind, src, i, u, endch);
  }

  lemma UnitAt(kind: Kind, src: bytes, i: nat, endch: byte) returns (u: Unit)
    requires Terminated(src) && i < |src| && !Ends(kind, src[i..], endch) && src[i] != '\0'
    ensures Next(kind, src, i, u, endch)
  {
    hide StartsReference, Ends, Next, SkipSpace;
    MoreFollows(src, i + 1);
    assert src[i..] == [src[i]] + src[i + 1..];
    if TakesReferences(kind) && StartsReference(src[i..]) {
      u := ReferenceAt(kind, src, i, endch);
    } else if TakesBreaks(kind) && src[i] == '\r' {
      u := BreakAt(kind, src, i, endch);
    } else if kind.AttributeWnorm? && src[i] in SPACES {
      u := SpacesAt(kind, src, i, endch);
    } else {
      u := if kind.AttributeWconv? && src[i] in SPACES then White(src[i]) else Plain(src[i]);
      ByteAt(kind, src, i, u, endch);
    }
  }

  lemma SpaceHere(src: bytes, i: nat)
    requires Terminated(src) && i < |src| && src[i] in SPACES
    ensures SkipSpace(src, i) > i
  {
  }

  /** What stands in the buffer is a text of units, up to an end or the end of the buffer. */
  lemma {:induction false} EveryTextIsUnits(kind: Kind, src: bytes, i: nat, endch: byte)
    returns (us: seq<Unit>, rest: bytes)
    requires Terminated(src) && i < |src|
    ensures From(src, i, Body(us) + rest) && AllFit(kind, us, rest, endch)
    ensures rest != [] && (Ends(kind, rest, endch) || rest[0] == '\0')
    decreases |src| - i
  {
    hide Fits, Ends, Written;
    if Ends(kind, src[i..], endch) || src[i] == '\0' {
      us, rest := [], src[i..];
      assert Body(us) + rest == rest;
    } else {
      var u := UnitAt(kind, src, i, endch);
      var n := |Written(u)|;
      us, rest := EveryTextIsUnits(kind, src, i + n, endch);
      assert Written(u) + (Body(us) + rest) == Written(u) + Body(us) + rest;
      us := [u] + us;
    }
  }

  // ----- trimming and normalizing -----

  /** Trimming takes away the white space at the end, all of it and nothing else. */
  lemma {:induction false} TrimmedIs(t: bytes, ws: bytes)
    requires AllSpaces(ws) && (t != [] ==> t[|t| - 1] !in SPACES)
    ensures TrimEnd(t + ws) == t
    decreases |ws|
  {
    if ws != [] {
      TrimmedIs(t, ws[..|ws| - 1]);
      assert (t + ws)[..|t + ws| - 1] == t + ws[..|ws| - 1];
    } else {
      assert t + ws == t;
    }
  }

  /** Words and the white space in front of each */
  function Spaced(gaps: seq<bytes>, words: seq<bytes>): bytes
    requires |gaps| == |words|
  {
    if words == [] then [] else gaps[0] + (words[0] + Spaced(gaps[1..], words[1..]))
  }

  /** Words with one space in front of each */
  function Single(words: seq<bytes>): bytes {
    if words == [] then [] else " " + (words[0] + Single(words[1..]))
  }

  /** The words of an attribute, one space between them */
  function Joined(words: seq<bytes>): bytes {
    if words == [] then [] else words[0] + Single(words[1..])
  }

  /** A word without white space, references and the closing quote. */
  predicate Word(w: bytes, escape: bool, quote: byte) {
    w != [] && forall k :: 0 <= k < |w| ==> w[k] !in SPACES && w[k] != '\0' && w[k] != quote && (escape ==> w[k] != '&')
  }

  predicate Words(words: seq<bytes>, escape: bool, quote: byte) {
    forall k :: 0 <= k < |words| ==> Word(words[k], escape, quote)
  }

  predicate Gaps(gaps: seq<bytes>) {
    forall k :: 0 <= k < |gaps| ==> AllSpaces(gaps[k]) && gaps[k] != []
  }

  lemma {:induction false} WordRead(w: bytes, rest: bytes, src: bytes, i: nat, escape: bool, quote: byte)
    requires Terminated(src) && (quote == '\"' || quote == '\'') && i < |src|
    requires From(src, i, w + rest) && (w != [] ==> Word(w, escape, quote))
    ensures i + |w| < |src| && From(src, i + |w|, rest)
    ensures var kind := AttributeWnorm(escape);
      Decode(kind, src, i, quote) == Prepend(w, Decode(kind, src, i + |w|, quote))
    decreases |w|
  {
    hide Decode, From;
    var kind := AttributeWnorm(escape);
    if w == [] {
      assert w + rest == rest;
      PrependNothing(Decode(kind, src, i, quote));
    } else {
      var c := w[0];
      assert w + rest == [c] + (w[1..] + rest);
      FromParts(src, i, [c], w[1..] + rest);
      LetterFits(c, w[1..] + rest, escape, quote);
      PlainRead(kind, c, w[1..] + rest, src, i, quote);
      WordRead(w[1..], rest, src, i + 1, escape, quote);
      PrependTwice([c], w[1..], Decode(kind, src, i + |w|, quote));
      assert [c] + w[1..] == w;
    }
  }

  lemma LetterFits(c: byte, rest: bytes, escape: bool, quote: byte)
    requires c !in SPACES && c != '\0' && c != quote && (escape ==> c != '&')
    ensures Fits(AttributeWnorm(escape), Plain(c), rest, quote)
  {
    hide IsDigitOf;
    var t := [c] + rest;
    assert t[..1] == [c];
    if escape && StartsReference(t) {
      ReferenceStarts(t);
    }
  }

  lemma ReferenceStarts(t: bytes)
    requires StartsReference(t)
    ensures t != [] && t[0] == '&'
  {
    hide IsDigitOf;
    if k :| 0 <= k < 5 && Starts(t, NAMES[k]) {
      assert t[..|NAMES[k]|][0] == '&';
    } else {
      var hex, digits :| digits != [] && AllDigitsOf(digits, Base(hex)) && Starts(t, CodeText(hex, digits));
      assert t[..|CodeText(hex, digits)|][0] == CodeText(hex, digits)[0] == '&';
    }
  }

  /** The words behind the first one, and the white space at the end */
  lemma {:induction false} MoreWordsRead(gaps: seq<bytes>, words: seq<bytes>, last: bytes, more: bytes, src: bytes,
                                         i: nat, escape: bool, quote: byte)
    requires Terminated(src) && (quote == '\"' || quote == '\'') && |gaps| == |words|
    requires Gaps(gaps) && Words(words, escape, quote) && AllSpaces(last)
    requires From(src, i, Spaced(gaps, words) + (last + ([quote] + more))) && i < |src|
    ensures Decode(AttributeWnorm(escape), src, i, quote)
      == Text(Single(words) + (if last == [] then "" else " "), i + |Spaced(gaps, words)| + |last| + 1)
    decreases |words|
  {
    hide Decode, From, Word, AllSpaces, Contributes, Passed, Single, Spaced;
    SpacedParts(gaps, words);
    var kind, end := AttributeWnorm(escape), last + ([quote] + more);
    QuoteIsNoSpace(quote);
    if words == [] {
      assert Spaced(gaps, words) + end == end;
      LastRead(last, more, src, i, escape, quote);
    } else {
      var word, rest := words[0], Spaced(gaps[1..], words[1..]) + end;
      assert Spaced(gaps, words) + end == gaps[0] + (word + rest);
      WordIsNoSpace(word, escape, quote);
      FromParts(src, i, gaps[0], word + rest);
      SpacesRead(kind, gaps[0], word + rest, src, i, quote);
      var j := i + |gaps[0]|;
      WordRead(word, rest, src, j, escape, quote);
      MoreWordsRead(gaps[1..], words[1..], last, more, src, j + |word|, escape, quote);
      ContributesWord(kind, src, i, |gaps[0]|, word, quote);
      SingleGrouped(word, Single(words[1..]), if last == [] then "" else " ");
    }
  }

  lemma SpacedParts(gaps: seq<bytes>, words: seq<bytes>)
    requires |gaps| == |words|
    ensures words == [] ==> Spaced(gaps, words) == [] && Single(words) == []
    ensures words != [] ==> Spaced(gaps, words) == gaps[0] + (words[0] + Spaced(gaps[1..], words[1..]))
    ensures words != [] ==> Single(words) == " " + (words[0] + Single(words[1..]))
  {
  }

  lemma SingleGrouped(word: bytes, rest: bytes, tail: bytes)
    ensures " " + (word + (rest + tail)) == " " + (word + rest) + tail
  {
  }

  lemma ContributesWord(kind: Kind, src: bytes, i: nat, n: nat, word: bytes, quote: byte)
    requires kind.Attribute() ==> quote == '\"' || quote == '\''
    requires Contributes(kind, src, i, n, " ", quote) && i + n + |word| < |src|
    requires Decode(kind, src, i + n, quote) == Prepend(word, Decode(kind, src, i + n + |word|, quote))
    ensures Decode(kind, src, i, quote) == Prepend(" ", Prepend(word, Decode(kind, src, i + n + |word|, quote)))
  {
    hide Decode, Prepend;
  }

  lemma QuoteIsNoSpace(quote: byte)
    requires quote == '\"' || quote == '\''
    ensures quote !in SPACES
  {
  }

  lemma WordIsNoSpace(w: bytes, escape: bool, quote: byte)
    requires Word(w, escape, quote)
    ensures w != [] && w[0] !in SPACES && w[|w| - 1] !in SPACES
  {
  }

  lemma LastRead(last: bytes, more: bytes, src: bytes, i: nat, escape: bool, quote: byte)
    requires Terminated(src) && (quote == '\"' || quote == '\'') && AllSpaces(last)
    requires From(src, i, last + ([quote] + more)) && i < |src|
    ensures Decode(AttributeWnorm(escape), src, i, quote) == Text(if last == [] then "" else " ", i + |last| + 1)
  {
    hide Decode, SkipSpace;
    var kind := AttributeWnorm(escape);
    QuoteIsNoSpace(quote);
    FromParts(src, i, last, [quote] + more);
    StartsByte(src, i + |last|, quote);
    EndIsExact(kind, src, i + |last|, quote);
    if last != [] {
      SpacesRead(kind, last, [quote] + more, src, i, quote);
    }
  }

  /** The words from the first one on */
  lemma WordsRead(words: seq<bytes>, gaps: seq<bytes>, last: bytes, more: bytes, src: bytes, i: nat, escape: bool,
                  quote: byte)
    requires Terminated(src) && (quote == '\"' || quote == '\'') && words != [] && |gaps| == |words| - 1
    requires Gaps(gaps) && Words(words, escape, quote) && AllSpaces(last) && i < |src|
    requires From(src, i, words[0] + (Spaced(gaps, words[1..]) + (last + ([quote] + more))))
    ensures Decode(AttributeWnorm(escape), src, i, quote)
      == Text(Joined(words) + (if last == [] then "" else " "),
              i + |words[0]| + |Spaced(gaps, words[1..])| + |last| + 1)
  {
    hide Decode, From, Word, AllSpaces, Spaced, Single;
    var end := Spaced(gaps, words[1..]) + (last + ([quote] + more));
    WordRead(words[0], end, src, i, escape, quote);
    MoreWordsRead(gaps, words[1..], last, more, src, i + |words[0]|, escape, quote);
    var tail := if last == [] then "" else " ";
    assert words[0] + (Single(words[1..]) + tail) == Joined(words) + tail;
  }

  /** A normalized attribute is its words, one space between them and none around them. */
  lemma NormalizedIs(first: bytes, words: seq<bytes>, gaps: seq<bytes>, last: bytes, more: bytes, src: bytes, i: nat,
                     escape: bool, quote: byte)
    requires Terminated(src) && (quote == '\"' || quote == '\'') && words != [] && |gaps| == |words| - 1
    requires AllSpaces(first) && Gaps(gaps) && Words(words, escape, quote) && AllSpaces(last)
    requires From(src, i, first + (words[0] + (Spaced(gaps, words[1..]) + (last + ([quote] + more))))) && i < |src|
    ensures var d := Decode(AttributeWnorm(escape), src, SkipSpace(src, i), quote);
      && d.Text? && TrimEnd(d.out) == Joined(words)
      && d.next == i + |first| + |words[0]| + |Spaced(gaps, words[1..])| + |last| + 1
  {
    hide *;
    var end := Spaced(gaps, words[1..]) + (last + ([quote] + more));
    FirstIsWord(words, escape, quote);
    SpacesSkipped(src, i, first, words[0] + end);
    FromParts(src, i, first, words[0] + end);
    WordsRead(words, gaps, last, more, src, i + |first|, escape, quote);
    JoinedEnds(words, escape, quote);
    OneSpace(if last == [] then "" else " ");
    TrimmedIs(Joined(words), if last == [] then "" else " ");
  }

  lemma FirstIsWord(words: seq<bytes>, escape: bool, quote: byte)
    requires words != [] && Words(words, escape, quote)
    ensures words[0] != [] && words[0][0] !in SPACES
  {
  }

  lemma OneSpace(tail: bytes)
    requires tail == "" || tail == " "
    ensures AllSpaces(tail)
  {
  }

  /** The text ends with the last byte of the last word. */
  lemma {:induction false} JoinedEnds(words: seq<bytes>, escape: bool, quote: byte)
    requires words != [] && Words(words, escape, quote)
    ensures Joined(words) != [] && Joined(words)[|Joined(words)| - 1] !in SPACES
    decreases |words|
  {
    hide Word;
    WordIsNoSpace(words[0], escape, quote);
    if |words| > 1 {
      JoinedEnds(words[1..], escape, quote);
      assert Joined(words) == words[0] + " " + Joined(words[1..]);
      assert Joined(words)[|Joined(words)| - 1] == Joined(words[1..])[|Joined(words[1..])| - 1];
    } else {
      assert Joined(words) == words[0];
    }
  }
}
