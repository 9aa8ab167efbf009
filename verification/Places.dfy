/** Digits by their place in an alphabet, and positional numbers over them. */
module Places {
  import opened Bytes

  const DECIMAL: bytes := "0123456789"
  const LOWER: bytes := "0123456789abcdef"
  const UPPER: bytes := "0123456789ABCDEF"

  /** The first place of `c`. */
  function Place(s: bytes, c: byte): (k: nat)
    requires c in s
    ensures k < |s| && s[k] == c && forall j :: 0 <= j < k ==> s[j] != c
  {
    if s[0] == c then 0 else 1 + Place(s[1..], c)
  }

  predicate IsDigitOf(c: byte, base: nat) {
    if base == 16 then c in LOWER || c in UPPER else c in DECIMAL
  }

  predicate AllDigitsOf(t: bytes, base: nat) {
    forall k :: 0 <= k < |t| ==> IsDigitOf(t[k], base)
  }

  /** What a digit counts; other bytes count nothing. */
  function ValueOf(c: byte, base: nat): nat {
    if !IsDigitOf(c, base) then 0
    else if base != 16 then Place(DECIMAL, c)
    else if c in LOWER then Place(LOWER, c)
    else Place(UPPER, c)
  }

  /** The number that a string of digits denotes, most significant digit first. */
  function Positional(t: bytes, base: nat): nat {
    if t == [] then 0 else Positional(t[..|t| - 1], base) * base + ValueOf(t[|t| - 1], base)
  }

  // ----- the alphabets -----

  lemma AtPlace(s: bytes, c: byte, k: nat)
    requires k < |s| && s[k] == c && forall i, j :: 0 <= i < j < |s| ==> s[i] != s[j]
    ensures c in s && Place(s, c) == k
  {
  }

  lemma DecimalPlace(c: byte)
    ensures IsDigitOf(c, 10) <==> IsDigit(c)
    ensures IsDigit(c) ==> ValueOf(c, 10) == c as int - '0' as int
  {
    if IsDigit(c) {
      assert c == DECIMAL[c as int - '0' as int] by { DecimalAt(c); }
      AtPlace(DECIMAL, c, c as int - '0' as int);
    }
  }

  lemma DecimalAt(c: byte)
    requires IsDigit(c)
    ensures DECIMAL[c as int - '0' as int] == c
  {
    match c
    case '0' => case '1' => case '2' => case '3' => case '4' =>
    case '5' => case '6' => case '7' => case '8' => case '9' =>
  }

  /** The hexadecimal digits are the decimal ones and the letters from `a` to `f` in either case. */
  lemma HexPlace(c: byte)
    ensures IsDigitOf(c, 16) <==> IsDigit(c) || 'a' <= c <= 'f' || 'A' <= c <= 'F'
    ensures IsDigit(c) ==> ValueOf(c, 16) == c as int - '0' as int
    ensures 'a' <= c <= 'f' ==> ValueOf(c, 16) == c as int - 'a' as int + 10
    ensures 'A' <= c <= 'F' ==> ValueOf(c, 16) == c as int - 'A' as int + 10
  {
    hide Place;
    InLower(c);
    InUpper(c);
  }

  lemma InLower(c: byte)
    ensures c in LOWER <==> IsDigit(c) || 'a' <= c <= 'f'
    ensures c in LOWER ==> Place(LOWER, c) == c as int - if IsDigit(c) then '0' as int else 'a' as int - 10
  {
    if IsDigit(c) || 'a' <= c <= 'f' {
      var k := c as int - if IsDigit(c) then '0' as int else 'a' as int - 10;
      LowerAt(c, k);
      AtPlace(LOWER, c, k);
    }
  }

  lemma InUpper(c: byte)
    ensures c in UPPER <==> IsDigit(c) || 'A' <= c <= 'F'
    ensures 'A' <= c <= 'F' ==> Place(UPPER, c) == c as int - 'A' as int + 10
  {
    if IsDigit(c) {
      DecimalAt(c);
      assert UPPER[..10] == DECIMAL;
      assert UPPER[c as int - '0' as int] == UPPER[..10][c as int - '0' as int];
    } else if 'A' <= c <= 'F' {
      UpperAt(c, c as int - 'A' as int + 10);
      AtPlace(UPPER, c, c as int - 'A' as int + 10);
    }
  }

  lemma LowerAt(c: byte, k: int)
    requires IsDigit(c) || 'a' <= c <= 'f'
    requires k == c as int - if IsDigit(c) then '0' as int else 'a' as int - 10
    ensures 0 <= k < 16 && LOWER[k] == c
  {
    if IsDigit(c) {
      DecimalAt(c);
      assert LOWER[..10] == DECIMAL;
      assert LOWER[k] == LOWER[..10][k];
    } else {
      match c
      case 'a' => case 'b' => case 'c' => case 'd' => case 'e' => case 'f' =>
    }
  }

  lemma UpperAt(c: byte, k: int)
    requires 'A' <= c <= 'F' && k == c as int - 'A' as int + 10
    ensures 0 <= k < 16 && UPPER[k] == c
  {
    match c
    case 'A' => case 'B' => case 'C' => case 'D' => case 'E' => case 'F' =>
  }

  lemma ValueBelowBase(c: byte, base: nat)
    requires (base == 10 || base == 16) && IsDigitOf(c, base)
    ensures ValueOf(c, base) < base
  {
    hide IsDigitOf, ValueOf;
    if base == 16 { HexPlace(c); } else { DecimalPlace(c); }
  }

  /** A letter denotes the same digit in either case. */
  function Capital(c: byte): byte {
    if 'a' <= c <= 'f' then Chr(c as int - 'a' as int + 'A' as int) else c
  }

  lemma CaseDoesNotMatter(c: byte)
    ensures IsDigitOf(Capital(c), 16) <==> IsDigitOf(c, 16)
    ensures IsDigitOf(c, 16) ==> ValueOf(Capital(c), 16) == ValueOf(c, 16)
  {
    hide IsDigitOf, ValueOf;
    HexPlace(c);
    HexPlace(Capital(c));
  }

  function Capitals(t: bytes): (u: bytes)
    ensures |u| == |t| && forall k :: 0 <= k < |t| ==> u[k] == Capital(t[k])
  {
    seq(|t|, k requires 0 <= k < |t| => Capital(t[k]))
  }

  lemma {:induction false} CapitalsDenoteTheSame(t: bytes)
    requires AllDigitsOf(t, 16)
    ensures AllDigitsOf(Capitals(t), 16) && Positional(Capitals(t), 16) == Positional(t, 16)
    decreases |t|
  {
    hide IsDigitOf, ValueOf, Capital;
    forall k | 0 <= k < |t| ensures IsDigitOf(Capital(t[k]), 16) && ValueOf(Capital(t[k]), 16) == ValueOf(t[k], 16) {
      CaseDoesNotMatter(t[k]);
    }
    if t != [] {
      CapitalsDenoteTheSame(t[..|t| - 1]);
      assert Capitals(t)[..|t| - 1] == Capitals(t[..|t| - 1]);
    }
  }
}
