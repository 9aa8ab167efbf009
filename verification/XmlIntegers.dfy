/** `string_to_integer` and `integer_to_string` of pugixml: conversions in wrapping arithmetic that clamp exactly. */
module XmlIntegers {
  import opened Bytes
  import opened Arithmetic
  import opened Decimal
  import opened Places
  import opened XmlChars
  import opened XmlText
  import opened XmlSyntax

  /** The width of the unsigned type, in bits. */
  type width = w: nat | w == 16 || w == 32 || w == 64 witness 16

  /** The unsigned type holds the numbers below this. */
  function Modulus(w: width): (m: nat)
    ensures m > 1
  {
    match w
    case 16 => 0x1_0000
    case 32 => 0x1_0000_0000
    case _ => 0x1_0000_0000_0000_0000
  }

  /** The signed number with the same bits. */
  function AsSigned(u: nat, w: width): int {
    if u >= Modulus(w) / 2 then u - Modulus(w) else u
  }

  function Clamp(n: int, lo: int, hi: int): int {
    if n < lo then lo else if n > hi then hi else n
  }

  // ----- what the text denotes -----

  predicate Digits(t: bytes, base: nat) {
    forall k :: 0 <= k < |t| ==> DigitIn(t[k], base) >= 0
  }

  function Number(t: bytes, base: nat): (n: nat)
    requires Digits(t, base) && (base == 10 || base == 16)
  {
    if t == [] then 0 else Number(t[..|t| - 1], base) * base + DigitIn(t[|t| - 1], base)
  }

  /** The first byte from `i` on that is not a digit. */
  function EndOfDigits(src: bytes, i: nat, base: nat): (j: nat)
    requires Terminated(src) && i < |src| && (base == 10 || base == 16)
    ensures i <= j < |src| && DigitIn(src[j], base) < 0 && Digits(src[i..j], base)
    decreases |src| - i
  {
    if DigitIn(src[i], base) < 0 then i else
    var j := EndOfDigits(src, i + 1, base);
    assert src[i..j] == [src[i]] + src[i + 1..j];
    j
  }

  /** White space, a sign, a prefix and digits: the sign, the base and where the digits stand. */
  function Locate(src: bytes): (r: (bool, nat, nat))
    requires Terminated(src)
    ensures r.1 == 10 || r.1 == 16
    ensures r.2 < |src|
  {
    var i := SkipSpace(src, 0);
    var j := if src[i] == '+' || src[i] == '-' then i + 1 else i;
    if src[j] == '0' && (src[j + 1] == 'x' || src[j + 1] == 'X') then (src[i] == '-', 16, j + 2)
      else (src[i] == '-', 10, j)
  }

  /** The number a text stands for, of any size. */
  function Denoted(src: bytes): int
    requires Terminated(src)
  {
    var (negative, base, first) := Locate(src);
    var n := Number(src[first..EndOfDigits(src, first, base)], base);
    Signed(negative, n)
  }

  function Signed(negative: bool, n: int): int {
    if negative then -n else n
  }

  // ----- texts as they are written -----

  lemma {:induction false} NumberIsPositional(t: bytes, base: nat)
    requires base == 10 || base == 16
    ensures Digits(t, base) <==> AllDigitsOf(t, base)
    ensures Digits(t, base) ==> Number(t, base) == Positional(t, base)
    decreases |t|
  {
    hide DigitIn, IsDigitOf, ValueOf;
    forall k | 0 <= k < |t| ensures DigitIn(t[k], base) == if IsDigitOf(t[k], base) then ValueOf(t[k], base) else -1 {
      DigitIsPlace(t[k], base);
    }
    if t != [] {
      NumberIsPositional(t[..|t| - 1], base);
    }
  }

  lemma {:induction false} DigitsEnd(src: bytes, i: nat, digits: bytes, rest: bytes, base: nat)
    requires Terminated(src) && (base == 10 || base == 16) && From(src, i, digits + rest) && AllDigitsOf(digits, base)
    requires rest != [] && !IsDigitOf(rest[0], base)
    ensures i + |digits| < |src| && EndOfDigits(src, i, base) == i + |digits| && src[i..i + |digits|] == digits
  {
    hide DigitIn, IsDigitOf, From, EndOfDigits;
    FromParts(src, i, digits, rest);
    NumberIsPositional(digits, base);
    DigitIsPlace(rest[0], base);
    EndIs(src, i, i + |digits|, base);
  }

  /** The bytes behind the white space decide the sign and the base. */
  lemma LocatedAt(src: bytes, i: nat, j: nat, negative: bool, hex: bool)
    requires Terminated(src) && SkipSpace(src, 0) == i && i <= j < |src| && (src[j] == '0' ==> j + 1 < |src|)
    requires j == if src[i] == '+' || src[i] == '-' then i + 1 else i
    requires negative <==> src[i] == '-'
    requires hex <==> src[j] == '0' && (src[j + 1] == 'x' || src[j + 1] == 'X')
    ensures Locate(src) == (negative, Base(hex), if hex then j + 2 else j)
  {
    hide SkipSpace;
  }

  predicate IsSign(sign: bytes) {
    sign == "" || sign == "+" || sign == "-"
  }

  /** `0x` and `0X` announce a hexadecimal number. */
  function Prefix(hex: bool, x: byte): bytes {
    if hex then ['0', x] else []
  }

  lemma Bytes2(src: bytes, i: nat, t: bytes)
    requires From(src, i, t)
    ensures t != [] ==> i < |src| && src[i] == t[0]
    ensures |t| > 1 ==> i + 1 < |src| && src[i + 1] == t[1]
  {
    if t != [] { assert src[i] == src[i..][0]; }
    if |t| > 1 { assert src[i + 1] == src[i..][1]; }
  }

  lemma Located(src: bytes, ws: bytes, sign: bytes, hex: bool, x: byte, digits: bytes, rest: bytes)
    requires Terminated(src) && AllSpaces(ws) && IsSign(sign) && (x == 'x' || x == 'X')
    requires digits != [] && AllDigitsOf(digits, Base(hex)) && rest != [] && !IsDigitOf(rest[0], Base(hex))
    requires !hex && digits == "0" ==> rest[0] != 'x' && rest[0] != 'X'
    requires src == ws + (sign + (Prefix(hex, x) + (digits + rest)))
    ensures var k := |ws| + |sign| + |Prefix(hex, x)|;
      Locate(src) == (sign == "-", Base(hex), k) && From(src, k, digits + rest)
  {
    hide *;
    var t := Prefix(hex, x) + (digits + rest);
    SignAndPrefix(sign, hex, x, digits, rest);
    FromIf(src, ws + (sign + t));
    FromParts(src, 0, ws, sign + t);
    SpacesSkipped(src, 0, ws, sign + t);
    LocatedBehind(src, |ws|, sign, t, hex);
    FromParts(src, |ws|, sign, t);
    FromParts(src, |ws| + |sign|, Prefix(hex, x), digits + rest);
  }

  lemma LocatedBehind(src: bytes, i: nat, sign: bytes, t: bytes, hex: bool)
    requires Terminated(src) && From(src, i, sign + t) && i < |src| && SkipSpace(src, 0) == i && |t| > 1
    requires var first := (sign + t)[0];
      (first == '+' || first == '-' <==> sign != "") && (first == '-' <==> sign == "-")
    requires |sign| == (if sign == "" then 0 else 1)
    requires t[0] == '0' && (t[1] == 'x' || t[1] == 'X') <==> hex
    ensures Locate(src) == (sign == "-", Base(hex), i + |sign| + (if hex then 2 else 0))
  {
    hide *;
    FromParts(src, i, sign, t);
    Bytes2(src, i, sign + t);
    Bytes2(src, i + |sign|, t);
    LocatedAt(src, i, i + |sign|, sign == "-", hex);
  }

  /** White space, a sign or none, `0x` or not, and digits: a plus sign changes nothing, a minus sign negates the
      positional value, and what follows the digits does not matter. */
  lemma DenotedIs(src: bytes, ws: bytes, sign: bytes, hex: bool, x: byte, digits: bytes, rest: bytes)
    requires Terminated(src) && AllSpaces(ws) && IsSign(sign) && (x == 'x' || x == 'X')
    requires digits != [] && AllDigitsOf(digits, Base(hex)) && rest != [] && !IsDigitOf(rest[0], Base(hex))
    requires !hex && digits == "0" ==> rest[0] != 'x' && rest[0] != 'X'
    requires src == ws + (sign + (Prefix(hex, x) + (digits + rest)))
    ensures var n: int := Positional(digits, Base(hex)); Denoted(src) == if sign == "-" then -n else n
  {
    hide IsDigitOf, Positional, Locate, EndOfDigits, Number, From, AllDigitsOf, Prefix, IsSign, AllSpaces;
    Located(src, ws, sign, hex, x, digits, rest);
    DigitsEnd(src, |ws| + |sign| + |Prefix(hex, x)|, digits, rest, Base(hex));
    NumberIsPositional(digits, Base(hex));
  }

  lemma FromIf(src: bytes, t: bytes)
    requires src == t
    ensures From(src, 0, t)
  {
  }

  /** The first bytes of a number tell whether there is a sign and a prefix. */
  lemma SignAndPrefix(sign: bytes, hex: bool, x: byte, digits: bytes, rest: bytes)
    requires IsSign(sign) && (x == 'x' || x == 'X')
    requires digits != [] && AllDigitsOf(digits, Base(hex)) && rest != []
    requires !hex && digits == "0" ==> rest[0] != 'x' && rest[0] != 'X'
    ensures var t := Prefix(hex, x) + (digits + rest); var more := sign + t;
      && |t| > 1 && more[0] !in SPACES
      && (more[0] == '+' || more[0] == '-' <==> sign != "") && (more[0] == '-' <==> sign == "-")
      && (t[0] == '0' && (t[1] == 'x' || t[1] == 'X') <==> hex)
    ensures |sign| == (if sign == "" then 0 else 1) && |Prefix(hex, x)| == (if hex then 2 else 0)
  {
    hide IsDigitOf;
    DigitStarts(digits[0], Base(hex));
    if |digits| > 1 { DigitStarts(digits[1], Base(hex)); }
    var t := Prefix(hex, x) + (digits + rest);
    if hex {
      assert t[0] == '0' && t[1] == x;
    } else {
      assert t[0] == digits[0] && t[1] == if |digits| > 1 then digits[1] else rest[0];
      if |digits| == 1 && digits[0] == '0' { assert digits == "0"; }
    }
    assert (sign + t)[0] == if sign == "" then t[0] else sign[0];
  }

  lemma DigitStarts(c: byte, base: nat)
    requires (base == 10 || base == 16) && IsDigitOf(c, base)
    ensures c !in SPACES && c != '+' && c != '-' && c != 'x' && c != 'X'
  {
    hide IsDigitOf;
    if base == 16 { HexPlace(c); } else { DecimalPlace(c); }
  }

  // ----- sizes of numbers -----

  function Pow(base: nat, k: nat): nat {
    if k == 0 then 1 else base * Pow(base, k - 1)
  }

  lemma {:induction false} PowGrows(base: nat, j: nat, k: nat)
    requires base >= 1 && j <= k
    ensures 1 <= Pow(base, j) <= Pow(base, k)
    decreases k
  {
    if j < k {
      PowGrows(base, j, k - 1);
      MulGrows(1, base, Pow(base, k - 1));
    } else if k > 0 {
      PowGrows(base, 0, k - 1);
      MulGrows(1, base, Pow(base, k - 1));
    }
  }

  /** The leading digit and the number of digits enclose a number. */
  lemma {:induction false} NumberBounds(t: bytes, base: nat)
    requires t != [] && (base == 10 || base == 16) && Digits(t, base)
    ensures var p := Pow(base, |t| - 1); var lead := DigitIn(t[0], base);
      lead * p <= Number(t, base) < (lead + 1) * p
    decreases |t|
  {
    var front, lead := t[..|t| - 1], DigitIn(t[0], base);
    if |t| == 1 {
      assert front == [];
    } else {
      NumberBounds(front, base);
      assert front[0] == t[0];
      Enclose(lead, Pow(base, |t| - 2), Number(front, base), base, DigitIn(t[|t| - 1], base));
    }
  }

  lemma Enclose(lead: nat, p: nat, n: nat, base: nat, d: nat)
    requires lead * p <= n < (lead + 1) * p && d < base
    ensures lead * (base * p) <= n * base + d < (lead + 1) * (base * p)
  {
    assert lead * (base * p) == lead * p * base && (lead + 1) * (base * p) == (lead + 1) * p * base by {
      Associates(lead, base, p);
      Associates(lead, p, base);
      Associates(lead + 1, base, p);
      Associates(lead + 1, p, base);
      Associates(base, p, 1);
    }
    MulGrows(lead * p, n, base);
    MulGrows(n + 1, (lead + 1) * p, base);
    assert (n + 1) * base == n * base + base;
  }

  lemma {:induction false} SkipZero(t: bytes, base: nat)
    requires t != [] && t[0] == '0' && (base == 10 || base == 16) && Digits(t, base)
    ensures Number(t, base) == Number(t[1..], base)
    decreases |t|
  {
    if |t| == 1 {
      assert t[..0] == [];
    } else {
      var front := t[..|t| - 1];
      SkipZero(front, base);
      assert front[1..] == t[1..][..|t| - 2];
    }
  }

  // ----- overflow -----

  /** The test of the decimal branch on `t`, the digits without leading zeros, and the accumulated remainder. */
  predicate DecimalOverflow(w: width, digits: nat, lead: nat, result: nat) {
    var maxDigits := if w == 64 then 20 else if w == 32 then 10 else 5;
    var maxLead := if w == 64 then 1 else if w == 32 then 4 else 6;
    digits >= maxDigits
    && !(digits == maxDigits && (lead < maxLead || (lead == maxLead && result >= Modulus(w) / 2)))
  }

  lemma PowersOfTen()
    ensures Pow(10, 4) == 1_0000 && Pow(10, 5) == 10_0000
    ensures Pow(10, 9) == 10_0000_0000 && Pow(10, 10) == 100_0000_0000
    ensures Pow(10, 19) == 1000_0000_0000_0000_0000 && Pow(10, 20) == 1_0000_0000_0000_0000_0000
  {
    assert Pow(10, 4) == 1_0000;
    assert Pow(10, 8) == 1_0000 * 1_0000;
    assert Pow(10, 12) == 1_0000 * Pow(10, 8);
    assert Pow(10, 16) == 1_0000 * Pow(10, 12);
    assert Pow(10, 20) == 1_0000 * Pow(10, 16);
  }

  lemma PowersOfSixteen()
    ensures Pow(16, 4) == 0x1_0000 && Pow(16, 8) == 0x1_0000_0000 && Pow(16, 16) == 0x1_0000_0000_0000_0000
  {
    assert Pow(16, 4) == 0x1_0000;
    assert Pow(16, 8) == 0x1_0000 * 0x1_0000;
    assert Pow(16, 12) == 0x1_0000 * Pow(16, 8);
    assert Pow(16, 16) == 0x1_0000 * Pow(16, 12);
  }

  /** The digit count, the leading digit and the top bit of the wrapped result tell exactly whether the number fits. */
  lemma DecimalOverflowIsExact(w: width, t: bytes)
    requires Digits(t, 10) && (t != [] ==> t[0] != '0')
    ensures DecimalOverflow(w, |t|, if t == [] then 0 else DigitIn(t[0], 10), Number(t, 10) % Modulus(w))
      <==> Number(t, 10) >= Modulus(w)
  {
    PowersOfTen();
    if t != [] {
      var d, lead, n := |t|, DigitIn(t[0], 10), Number(t, 10);
      NumberBounds(t, 10);
      var maxDigits := if w == 64 then 20 else if w == 32 then 10 else 5;
      hide Number, Pow;
      if d < maxDigits {
        TooFew(w, d, lead, n);
      } else if d > maxDigits {
        TooMany(w, d, lead, n);
      } else {
        JustFits(w, lead, n);
      }
    }
  }

  lemma TooFew(w: width, d: nat, lead: nat, n: nat)
    requires 0 < d && lead < 10 && n < (lead + 1) * Pow(10, d - 1)
      && d < (if w == 64 then 20 else if w == 32 then 10 else 5)
    ensures n < Modulus(w)
  {
    MulGrows(lead + 1, 10, Pow(10, d - 1));
    FewDigits(w, d, n);
  }

  lemma TooMany(w: width, d: nat, lead: nat, n: nat)
    requires (if w == 64 then 20 else if w == 32 then 10 else 5) < d && 1 <= lead && lead * Pow(10, d - 1) <= n
    ensures n >= Modulus(w)
  {
    PowersOfTen();
    PowGrows(10, if w == 64 then 20 else if w == 32 then 10 else 5, d - 1);
    MulGrows(1, lead, Pow(10, d - 1));
  }

  lemma FewDigits(w: width, d: nat, n: nat)
    requires d > 0 && n < Pow(10, d) && d < (if w == 64 then 20 else if w == 32 then 10 else 5)
    ensures n < Modulus(w)
  {
    PowersOfTen();
    PowGrows(10, d, (if w == 64 then 20 else if w == 32 then 10 else 5) - 1);
  }

  /** With the greatest number of digits the leading digit decides, or the top bit of the remainder. */
  lemma JustFits(w: width, lead: nat, n: nat)
    requires 1 <= lead <= 9
    requires var p := Pow(10, (if w == 64 then 20 else if w == 32 then 10 else 5) - 1); lead * p <= n < (lead + 1) * p
    ensures (lead < (if w == 64 then 1 else if w == 32 then 4 else 6)
      || (lead == (if w == 64 then 1 else if w == 32 then 4 else 6) && n % Modulus(w) >= Modulus(w) / 2))
        <==> n < Modulus(w)
  {
    PowersOfTen();
    var m := Modulus(w);
    if n < m {
      DivUnique(n, m, 0, n);
    } else if n < 2 * m {
      DivUnique(n, m, 1, n - m);
    }
  }

  lemma HexOverflowIsExact(w: width, t: bytes)
    requires Digits(t, 16) && (t != [] ==> t[0] != '0')
    ensures |t| > w / 4 <==> Number(t, 16) >= Modulus(w)
  {
    if t != [] {
      NumberBounds(t, 16);
      HexBounds(w, |t|, DigitIn(t[0], 16), Number(t, 16));
    }
  }

  /** A number of `d` hexadecimal digits, the first of which is not zero */
  lemma HexBounds(w: width, d: nat, lead: nat, n: nat)
    requires d > 0 && 1 <= lead < 16 && lead * Pow(16, d - 1) <= n < (lead + 1) * Pow(16, d - 1)
    ensures d > w / 4 <==> n >= Modulus(w)
  {
    hide Pow;
    PowersOfSixteen();
    if d > w / 4 {
      PowGrows(16, w / 4, d - 1);
      MulGrows(1, lead, Pow(16, d - 1));
    } else {
      MulGrows(lead + 1, 16, Pow(16, d - 1));
      PowStep(16, d);
      PowGrows(16, d, w / 4);
    }
  }

  lemma PowStep(b: nat, d: nat)
    requires d > 0
    ensures Pow(b, d) == b * Pow(b, d - 1)
  {
  }

  // ----- string_to_integer -----

  lemma DigitsStep(src: bytes, first: nat, s: nat, base: nat)
    requires first <= s < |src| && (base == 10 || base == 16) && Digits(src[first..s], base)
    requires DigitIn(src[s], base) >= 0
    ensures Digits(src[first..s + 1], base)
    ensures Number(src[first..s + 1], base) == Number(src[first..s], base) * base + DigitIn(src[s], base)
  {
    assert src[first..s + 1] == src[first..s] + [src[s]];
    assert src[first..s + 1][..s - first] == src[first..s];
  }

  lemma EndIs(src: bytes, first: nat, s: nat, base: nat)
    requires Terminated(src) && first <= s < |src| && (base == 10 || base == 16)
    requires Digits(src[first..s], base) && DigitIn(src[s], base) < 0
    ensures EndOfDigits(src, first, base) == s
    decreases s - first
  {
    if first < s {
      assert src[first] == src[first..s][0];
      assert src[first + 1..s] == src[first..s][1..];
      EndIs(src, first + 1, s, base);
    }
  }

  /** Skip the leading zeros: the number stays the same. */
  method SkipZeros(src: bytes, first: nat, base: nat) returns (start: nat)
    requires Terminated(src) && first < |src| && (base == 10 || base == 16)
    ensures first <= start < |src| && src[start] != '0'
    ensures var end := EndOfDigits(src, first, base);
      && start <= end && end == EndOfDigits(src, start, base)
      && Number(src[first..end], base) == Number(src[start..end], base)
  {
    start := first;
    ghost var end := EndOfDigits(src, first, base);
    while src[start] == '0'
      invariant first <= start <= end && EndOfDigits(src, start, base) == end
      invariant Number(src[first..end], base) == Number(src[start..end], base)
      decreases |src| - start
    {
      SkipZero(src[start..end], base);
      assert src[start..end][1..] == src[start + 1..end];
      start := start + 1;
    }
  }

  /** The digit loop, in the wrapping arithmetic of the type. */
  method Accumulate(src: bytes, start: nat, base: nat, w: width) returns (result: nat, s: nat)
    requires Terminated(src) && start < |src| && (base == 10 || base == 16)
    ensures s == EndOfDigits(src, start, base)
    ensures result == Number(src[start..s], base) % Modulus(w)
  {
    var m := Modulus(w);
    result, s := 0, start;
    assert src[start..start] == [];
    while DigitIn(src[s], base) >= 0
      invariant start <= s < |src| && Digits(src[start..s], base)
      invariant result == Number(src[start..s], base) % m
      decreases |src| - s
    {
      DigitsStep(src, start, s, base);
      ModStep(Number(src[start..s], base), base, DigitIn(src[s], base), m);
      result := (result * base + DigitIn(src[s], base)) % m;
      s := s + 1;
    }
    EndIs(src, start, s, base);
  }

  /** The limits of the type: 0 to its maximum, or those of the signed type of the same width. */
  predicate Limits(w: width, minv: nat, maxv: nat) {
    (minv == 0 && maxv == Modulus(w) - 1) || (minv == Modulus(w) / 2 && maxv == Modulus(w) / 2 - 1)
  }

  /** What the caller takes the result for. */
  function Taken(u: nat, w: width, minv: nat): int {
    if minv == 0 then u else AsSigned(u, w)
  }

  /** `0 - minv`. A 16-bit operand is promoted to `int`, so that the difference is negative there; the wider types
      wrap. */
  function ZeroMinus(minv: nat, w: width): int {
    if w == 16 then 0 - minv else (Modulus(w) - minv) % Modulus(w)
  }

  /** The texts that promotion spoils: the type has 16 bits, the limits are signed, there is a minus sign, and the
      number is above the lower limit. */
  predicate Promoted(src: bytes, w: width, minv: nat)
    requires Terminated(src)
  {
    w == 16 && minv != 0 && Locate(src).0 && Denoted(src) > AsSigned(minv, w)
  }

  /** `string_to_integer`: the denoted number, clamped to the limits, exactly if promotion does not spoil it; then it is
      the lower limit. */
  method StringToInteger(src: bytes, w: width, minv: nat, maxv: nat) returns (r: nat)
    requires Terminated(src) && Limits(w, minv, maxv)
    ensures r < Modulus(w)
    ensures var clamped := Clamp(Denoted(src), Taken(minv, w, minv), Taken(maxv, w, minv));
      && (Taken(r, w, minv) == clamped <==> !Promoted(src, w, minv))
      && (Promoted(src, w, minv) ==> r == minv)
  {
    hide Number, EndOfDigits, SkipSpace, DigitIn, IsChartype, Promoted, Clamp, Taken;
    var m := Modulus(w);
    var s := SkipSpaces(src);
    var negative := src[s] == '-';
    if src[s] == '+' || src[s] == '-' {
      s := s + 1;
    }
    var overflow: bool;
    var result: nat;
    ghost var n: nat;
    if src[s] == '0' && (src[s + 1] == 'x' || src[s + 1] == 'X') {
      s := s + 2;
      result, overflow, n := Magnitude(src, s, 16, w);
    } else {
      result, overflow, n := Magnitude(src, s, 10, w);
    }
    assert Denoted(src) == Signed(negative, n) && Locate(src).0 == negative;
    if negative {
      r := if overflow || result > ZeroMinus(minv, w) then minv else (m - result) % m;
    } else {
      r := if overflow || result > maxv then maxv else result;
    }
    Clamps(src, w, minv, maxv, negative, n, overflow, result, r);
  }

  lemma Clamps(src: bytes, w: width, minv: nat, maxv: nat, negative: bool, n: nat, overflow: bool, result: nat, r: nat)
    requires Terminated(src) && Limits(w, minv, maxv) && Denoted(src) == Signed(negative, n)
      && Locate(src).0 == negative
    requires (overflow <==> n >= Modulus(w)) && result < Modulus(w) && (!overflow ==> result == n)
    requires r == if negative
      then (if overflow || result > ZeroMinus(minv, w) then minv else (Modulus(w) - result) % Modulus(w))
      else (if overflow || result > maxv then maxv else result)
    ensures r < Modulus(w)
    ensures var clamped := Clamp(Denoted(src), Taken(minv, w, minv), Taken(maxv, w, minv));
      && (Taken(r, w, minv) == clamped <==> !Promoted(src, w, minv))
      && (Promoted(src, w, minv) ==> r == minv)
  {
    hide Denoted, Locate, Clamp;
    if negative {
      ClampsBelow(w, minv, maxv, n, overflow, result, r);
    } else {
      ClampsAbove(w, minv, maxv, n, overflow, result, r);
    }
  }

  lemma Complement(m: nat, x: nat)
    requires x < m
    ensures (m - x) % m == if x == 0 then 0 else m - x
  {
  }

  lemma ClampsBelow(w: width, minv: nat, maxv: nat, n: nat, overflow: bool, result: nat, r: nat)
    requires Limits(w, minv, maxv) && (overflow <==> n >= Modulus(w)) && result < Modulus(w)
      && (!overflow ==> result == n)
    requires r == if overflow || result > ZeroMinus(minv, w) then minv else (Modulus(w) - result) % Modulus(w)
    ensures r < Modulus(w)
    ensures if w == 16 && minv != 0 && 0 - n > AsSigned(minv, w)
      then r == minv && AsSigned(minv, w) != Clamp(0 - n, AsSigned(minv, w), AsSigned(maxv, w))
      else Taken(r, w, minv) == Clamp(0 - n, Taken(minv, w, minv), Taken(maxv, w, minv))
  {
    Complement(Modulus(w), result);
    Complement(Modulus(w), minv);
    match w
    case 16 =>
    case 32 =>
    case _ =>
  }

  lemma ClampsAbove(w: width, minv: nat, maxv: nat, n: nat, overflow: bool, result: nat, r: nat)
    requires Limits(w, minv, maxv) && (overflow <==> n >= Modulus(w)) && result < Modulus(w)
      && (!overflow ==> result == n)
    requires r == if overflow || result > maxv then maxv else result
    ensures r < Modulus(w) && Taken(r, w, minv) == Clamp(n, Taken(minv, w, minv), Taken(maxv, w, minv))
  {
    match w
    case 16 =>
    case 32 =>
    case _ =>
  }

  method SkipSpaces(src: bytes) returns (s: nat)
    requires Terminated(src)
    ensures s == SkipSpace(src, 0)
  {
    hide IsChartype;
    s := 0;
    ClassIsExact(src[s], Space);
    while IsChartype(src[s], Space)
      invariant s < |src| && SkipSpace(src, s) == SkipSpace(src, 0)
      invariant IsChartype(src[s], Space) <==> IsSpace(src[s])
      decreases |src| - s
    {
      s := s + 1;
      ClassIsExact(src[s], Space);
    }
  }

  /** One branch: the wrapped magnitude, and whether the number is too large for the type. */
  method Magnitude(src: bytes, first: nat, base: nat, w: width) returns (result: nat, overflow: bool, ghost n: nat)
    requires Terminated(src) && first < |src| && (base == 10 || base == 16)
    ensures n == Number(src[first..EndOfDigits(src, first, base)], base)
    ensures result == n % Modulus(w) && (overflow <==> n >= Modulus(w))
    ensures result < Modulus(w) && (!overflow ==> result == n)
  {
    hide Number, EndOfDigits, DigitIn;
    var start := SkipZeros(src, first, base);
    var s;
    result, s := Accumulate(src, start, base, w);
    ghost var t := src[start..s];
    n := Number(t, base);
    assert t != [] ==> t[0] == src[start];
    if base == 16 {
      HexOverflowIsExact(w, t);
      overflow := s - start > w / 4;
    } else {
      DecimalOverflowIsExact(w, t);
      var lead := if s == start then 0 else DigitIn(src[start], 10);
      overflow := DecimalOverflow(w, s - start, lead, result);
    }
    if !overflow {
      DivUnique(n, Modulus(w), 0, n);
    }
  }

  // ----- integer_to_string -----

  lemma {:induction false} NumeralSize(n: nat, k: nat)
    requires n < Pow(10, k) && k > 0
    ensures |Numeral(n)| <= k
    decreases k
  {
    if n >= 10 {
      assert Pow(10, 1) == 10;
      NumeralSize(n / 10, k - 1);
    }
  }

  /** The digits of `n` below those of `rest` stand in the buffer from `from` on, and there is room for the sign. */
  predicate Tail(b: bytes, from: nat, n: nat, rest: nat) {
    0 < from <= |b| && |b| >= 21 && |Numeral(n)| <= 20
    && Numeral(n) == (if rest == 0 then [] else Numeral(rest)) + b[from..]
  }

  lemma FirstDigit(b: bytes, n: nat)
    requires |b| >= 21 && |Numeral(n)| <= 20
    ensures Tail(b[|b| - 1 := Digit(n % 10)], |b| - 1, n, n / 10)
  {
    hide Numeral;
    NumeralUnfolds(n);
    assert b[|b| - 1 := Digit(n % 10)][|b| - 1..] == [Digit(n % 10)];
  }

  lemma NextDigit(b: bytes, from: nat, n: nat, rest: nat)
    requires Tail(b, from, n, rest) && rest != 0
    ensures Tail(b[from - 1 := Digit(rest % 10)], from - 1, n, rest / 10)
  {
    hide Numeral;
    NumeralUnfolds(rest);
    var c := b[from - 1 := Digit(rest % 10)];
    assert c[from - 1..] == [Digit(rest % 10)] + b[from..];
    assert |Numeral(n)| == |Numeral(rest)| + (|b| - from);
  }

  lemma TailRoom(b: bytes, from: nat, n: nat, rest: nat)
    requires Tail(b, from, n, rest)
    ensures 0 < from
  {
  }

  lemma TailWhole(b: bytes, from: nat, n: nat)
    requires Tail(b, from, n, 0)
    ensures b[from..] == Numeral(n)
  {
    assert [] + b[from..] == b[from..];
  }

  lemma SignBefore(b: bytes, c: bytes, from: nat)
    requires 0 < from <= |b| && c == b[from - 1 := '-' as byte]
    ensures c[from..] == b[from..] && c[from - 1..] == "-" + b[from..]
  {
  }

  /** `integer_to_string`: the digits are written backwards from `end`; the sign is always written and counted or
      not. */
  method IntegerToString(buf: array<byte>, w: width, value: nat, negative: bool) returns (begin: nat)
    requires value < Modulus(w) && buf.Length >= 21
    modifies buf
    ensures begin <= buf.Length
    ensures buf[begin..] == (if negative then "-" else "")
      + Numeral(if negative then (Modulus(w) - value) % Modulus(w) else value)
  {
    hide Numeral, Tail;
    var rest: nat := if negative then (Modulus(w) - value) % Modulus(w) else value;
    ghost var n := rest;
    PowersOfTen();
    NumeralSize(n, 20);
    var result := buf.Length - 1;
    FirstDigit(buf[..], n);
    ghost var b := buf[..];
    buf[result] := Digit(rest % 10);
    assert buf[..] == b[result := Digit(rest % 10)];
    rest := rest / 10;
    while rest != 0
      invariant 0 < result < buf.Length && Tail(buf[..], result, n, rest)
    {
      b := buf[..];
      NextDigit(b, result, n, rest);
      TailRoom(b[result - 1 := Digit(rest % 10)], result - 1, n, rest / 10);
      result := result - 1;
      buf[result] := Digit(rest % 10);
      assert buf[..] == b[result := Digit(rest % 10)];
      rest := rest / 10;
    }
    b := buf[..];
    TailWhole(b, result, n);
    buf[result - 1] := '-';
    SignBefore(b, buf[..], result);
    assert buf[result - 1..] == buf[..][result - 1..] && buf[result..] == buf[..][result..];
    begin := if negative then result - 1 else result;
  }

  lemma NumeralUnfolds(n: nat)
    ensures Numeral(n) == (if n / 10 == 0 then [] else Numeral(n / 10)) + [Digit(n % 10)]
    ensures Numeral(n) != []
  {
  }

  // ----- round trip -----

  lemma {:induction false} NumeralNumber(n: nat)
    ensures Digits(Numeral(n), 10) && Number(Numeral(n), 10) == n
    ensures Numeral(n)[0] == '0' ==> n == 0
    ensures forall c :: c in Numeral(n) ==> IsDigit(c)
    decreases n
  {
    var t := Numeral(n);
    if n >= 10 {
      NumeralNumber(n / 10);
      assert t[..|t| - 1] == Numeral(n / 10);
    } else {
      assert t[..0] == [];
    }
  }

  /** Reading a written number gives the number, whatever its size. */
  lemma WrittenIsDenoted(n: int)
    ensures var src := SignedNumeral(n) + ['\0' as byte]; Denoted(src) == n && (Locate(src).0 <==> n < 0)
  {
    hide Numeral, Number, EndOfDigits;
    var a := if n < 0 then -n else n;
    var t, src := Numeral(a), SignedNumeral(n) + ['\0' as byte];
    var first := if n < 0 then 1 else 0;
    NumeralNumber(a);
    NumeralUnfolds(a);
    assert src[first..first + |t|] == t;
    assert t[0] in t;
    assert src[0] == if n < 0 then '-' else t[0];
    assert src[first] == t[0];
    assert src[first + 1] == if |t| > 1 then t[1] else '\0';
    assert |t| > 1 ==> t[1] in t;
    assert IsDigit(src[first]) && src[first + 1] != 'x' && src[first + 1] != 'X';
    assert SkipSpace(src, 0) == 0;
    assert (src[0] == '+' || src[0] == '-') <==> n < 0;
    assert Locate(src) == (n < 0, 10, first);
    EndIs(src, first, first + |t|, 10);
  }

  /** The text `-5` is among them: its number is within the limits, and the result is -32768. */
  lemma MinusFiveIsPromoted()
    ensures Promoted("-5\0", 16, 0x8000)
  {
    hide Numeral, Denoted, Locate;
    NumeralUnfolds(5);
    assert Numeral(5) == "5" by {
      assert 5 / 10 == 0 && Digit(5) == '5';
    }
    assert SignedNumeral(-5) + ['\0' as byte] == "-5\0";
    WrittenIsDenoted(-5);
  }

  /** `string_to_integer` undoes `integer_to_string` at the limits of the type, the most negative number included,
      except that with 16 bits every other negative number comes back as the most negative one. */
  method RoundTrip(w: width, x: int, signed: bool) returns (y: int)
    requires if signed then -(Modulus(w) / 2) <= x < Modulus(w) / 2 else 0 <= x < Modulus(w)
    ensures y == if w == 16 && x < 0 then -0x8000 else x
  {
    hide Numeral, Denoted, Locate;
    var m := Modulus(w);
    var buf := new byte[64];
    var pattern := if x < 0 then m + x else x;
    var begin := IntegerToString(buf, w, pattern, x < 0);
    DivUnique(if x < 0 then -x else x, m, 0, if x < 0 then -x else x);
    assert buf[begin..] == SignedNumeral(x);
    WrittenIsDenoted(x);
    var r := StringToInteger(buf[begin..] + ['\0' as byte], w, if signed then m / 2 else 0, if signed then m / 2 - 1
      else m - 1);
    y := Taken(r, w, if signed then m / 2 else 0);
  }
}
