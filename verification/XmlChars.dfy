/** The character classes of pugixml: the two 256-entry tables, and the sets of bytes they stand for. */
module XmlChars {
  import opened Bytes

  /** `chartype_table` below 128, sixteen entries a row; every byte from 128 on has the entry 192. */
  const CHARTYPE_TABLE: seq<seq<int>> := [
    [55, 0, 0, 0, 0, 0, 0, 0, 0, 12, 12, 0, 0, 63, 0, 0],
    [0, 0, 0, 0, 0, 0, 0, 0, 0, 0, 0, 0, 0, 0, 0, 0],
    [8, 0, 6, 0, 0, 0, 7, 6, 0, 0, 0, 0, 0, 96, 64, 0],
    [64, 64, 64, 64, 64, 64, 64, 64, 64, 64, 192, 0, 1, 0, 48, 0],
    [0, 192, 192, 192, 192, 192, 192, 192, 192, 192, 192, 192, 192, 192, 192, 192],
    [192, 192, 192, 192, 192, 192, 192, 192, 192, 192, 192, 0, 0, 16, 0, 192],
    [0, 192, 192, 192, 192, 192, 192, 192, 192, 192, 192, 192, 192, 192, 192, 192],
    [192, 192, 192, 192, 192, 192, 192, 192, 192, 192, 192, 0, 0, 0, 0, 0]]

  /** `chartypex_table` below 128; every byte from 128 on has the entry 20. */
  const CHARTYPEX_TABLE: seq<seq<int>> := [
    [3, 3, 3, 3, 3, 3, 3, 3, 3, 2, 2, 3, 3, 2, 3, 3],
    [3, 3, 3, 3, 3, 3, 3, 3, 3, 3, 3, 3, 3, 3, 3, 3],
    [0, 0, 2, 0, 0, 0, 3, 2, 0, 0, 0, 0, 0, 16, 16, 0],
    [24, 24, 24, 24, 24, 24, 24, 24, 24, 24, 0, 0, 3, 0, 1, 0],
    [0, 20, 20, 20, 20, 20, 20, 20, 20, 20, 20, 20, 20, 20, 20, 20],
    [20, 20, 20, 20, 20, 20, 20, 20, 20, 20, 20, 0, 0, 0, 0, 20],
    [0, 20, 20, 20, 20, 20, 20, 20, 20, 20, 20, 20, 20, 20, 20, 20],
    [20, 20, 20, 20, 20, 20, 20, 20, 20, 20, 20, 0, 0, 0, 0, 0]]

  datatype CharType = ParsePcdata | ParseAttr | ParseAttrWs | Space | ParseCdata | ParseComment

  datatype CharTypeX = SpecialPcdata | SpecialAttr

  function Mask(t: CharType): int {
    match t
    case ParsePcdata => 1
    case ParseAttr => 2
    case ParseAttrWs => 4
    case Space => 8
    case ParseCdata => 16
    case ParseComment => 32
  }

  function MaskX(t: CharTypeX): int {
    match t
    case SpecialPcdata => 1
    case SpecialAttr => 2
  }

  function Entry(n: int): int
    requires 0 <= n < 256
  {
    if n < 128 then CHARTYPE_TABLE[n / 16][n % 16] else 192
  }

  function EntryX(n: int): int
    requires 0 <= n < 256
  {
    if n < 128 then CHARTYPEX_TABLE[n / 16][n % 16] else 20
  }

  /** `PUGI__IS_CHARTYPE(c, t)` */
  predicate IsChartype(c: byte, t: CharType) {
    Entry(Code(c)) / Mask(t) % 2 != 0
  }

  /** `PUGI__IS_CHARTYPEX(c, t)` */
  predicate IsChartypeX(c: byte, t: CharTypeX) {
    EntryX(Code(c)) / MaskX(t) % 2 != 0
  }

  // ----- the sets of bytes -----

  predicate InClass(c: byte, t: CharType) {
    match t
    case ParsePcdata => c == '\0' || c == '&' || c == '\r' || c == '<'
    case ParseAttr => c == '\0' || c == '&' || c == '\r' || c == '\'' || c == '\"'
    case ParseAttrWs => c == '\0' || c == '&' || c == '\r' || c == '\'' || c == '\"' || c == '\n' || c == '\t'
    case Space => c == '\r' || c == '\n' || c == ' ' || c == '\t'
    case ParseCdata => c == '\0' || c == ']' || c == '>' || c == '\r'
    case ParseComment => c == '\0' || c == '-' || c == '>' || c == '\r'
  }

  predicate InClassX(c: byte, t: CharTypeX) {
    match t
    case SpecialPcdata => (Code(c) < 32 && c != '\t' && c != '\r' && c != '\n') || c == '&' || c == '<' || c == '>'
    case SpecialAttr => Code(c) < 32 || c == '&' || c == '<' || c == '\"' || c == '\''
  }

  predicate RowOk(n: int)
    requires 0 <= n < 128
  {
    var c := Chr(n);
    && (Entry(n) % 2 != 0) == InClass(c, ParsePcdata)
    && (Entry(n) / 2 % 2 != 0) == InClass(c, ParseAttr)
    && (Entry(n) / 4 % 2 != 0) == InClass(c, ParseAttrWs)
    && (Entry(n) / 8 % 2 != 0) == InClass(c, Space)
    && (Entry(n) / 16 % 2 != 0) == InClass(c, ParseCdata)
    && (Entry(n) / 32 % 2 != 0) == InClass(c, ParseComment)
  }

  predicate RowXOk(n: int)
    requires 0 <= n < 128
  {
    var c := Chr(n);
    && (EntryX(n) % 2 != 0) == InClassX(c, SpecialPcdata)
    && (EntryX(n) / 2 % 2 != 0) == InClassX(c, SpecialAttr)
  }

  lemma Rows0(n: int)
    requires 0 <= n < 16
    ensures RowOk(n)
  {
    match n
    case 0 => case 1 => case 2 => case 3 => case 4 => case 5 => case 6 => case 7 =>
    case 8 => case 9 => case 10 => case 11 => case 12 => case 13 => case 14 => case 15 =>
  }

  lemma Rows16(n: int)
    requires 16 <= n < 32
    ensures RowOk(n)
  {
    match n
    case 16 => case 17 => case 18 => case 19 => case 20 => case 21 => case 22 => case 23 =>
    case 24 => case 25 => case 26 => case 27 => case 28 => case 29 => case 30 => case 31 =>
  }

  lemma Rows32(n: int)
    requires 32 <= n < 48
    ensures RowOk(n)
  {
    match n
    case 32 => case 33 => case 34 => case 35 => case 36 => case 37 => case 38 => case 39 =>
    case 40 => case 41 => case 42 => case 43 => case 44 => case 45 => case 46 => case 47 =>
  }

  lemma Rows48(n: int)
    requires 48 <= n < 64
    ensures RowOk(n)
  {
    match n
    case 48 => case 49 => case 50 => case 51 => case 52 => case 53 => case 54 => case 55 =>
    case 56 => case 57 => case 58 => case 59 => case 60 => case 61 => case 62 => case 63 =>
  }

  lemma Rows64(n: int)
    requires 64 <= n < 80
    ensures RowOk(n)
  {
    match n
    case 64 => case 65 => case 66 => case 67 => case 68 => case 69 => case 70 => case 71 =>
    case 72 => case 73 => case 74 => case 75 => case 76 => case 77 => case 78 => case 79 =>
  }

  lemma Rows80(n: int)
    requires 80 <= n < 96
    ensures RowOk(n)
  {
    match n
    case 80 => case 81 => case 82 => case 83 => case 84 => case 85 => case 86 => case 87 =>
    case 88 => case 89 => case 90 => case 91 => case 92 => case 93 => case 94 => case 95 =>
  }

  lemma Rows96(n: int)
    requires 96 <= n < 112
    ensures RowOk(n)
  {
    match n
    case 96 => case 97 => case 98 => case 99 => case 100 => case 101 => case 102 => case 103 =>
    case 104 => case 105 => case 106 => case 107 => case 108 => case 109 => case 110 => case 111 =>
  }

  lemma Rows112(n: int)
    requires 112 <= n < 128
    ensures RowOk(n)
  {
    match n
    case 112 => case 113 => case 114 => case 115 => case 116 => case 117 => case 118 => case 119 =>
    case 120 => case 121 => case 122 => case 123 => case 124 => case 125 => case 126 => case 127 =>
  }

  lemma RowsX0(n: int)
    requires 0 <= n < 64
    ensures RowXOk(n)
  {
    match n
    case 0 => case 1 => case 2 => case 3 => case 4 => case 5 => case 6 => case 7 =>
    case 8 => case 9 => case 10 => case 11 => case 12 => case 13 => case 14 => case 15 =>
    case 16 => case 17 => case 18 => case 19 => case 20 => case 21 => case 22 => case 23 =>
    case 24 => case 25 => case 26 => case 27 => case 28 => case 29 => case 30 => case 31 =>
    case 32 => case 33 => case 34 => case 35 => case 36 => case 37 => case 38 => case 39 =>
    case 40 => case 41 => case 42 => case 43 => case 44 => case 45 => case 46 => case 47 =>
    case 48 => case 49 => case 50 => case 51 => case 52 => case 53 => case 54 => case 55 =>
    case 56 => case 57 => case 58 => case 59 => case 60 => case 61 => case 62 => case 63 =>
  }

  lemma RowsX64(n: int)
    requires 64 <= n < 128
    ensures RowXOk(n)
  {
    match n
    case 64 => case 65 => case 66 => case 67 => case 68 => case 69 => case 70 => case 71 =>
    case 72 => case 73 => case 74 => case 75 => case 76 => case 77 => case 78 => case 79 =>
    case 80 => case 81 => case 82 => case 83 => case 84 => case 85 => case 86 => case 87 =>
    case 88 => case 89 => case 90 => case 91 => case 92 => case 93 => case 94 => case 95 =>
    case 96 => case 97 => case 98 => case 99 => case 100 => case 101 => case 102 => case 103 =>
    case 104 => case 105 => case 106 => case 107 => case 108 => case 109 => case 110 => case 111 =>
    case 112 => case 113 => case 114 => case 115 => case 116 => case 117 => case 118 => case 119 =>
    case 120 => case 121 => case 122 => case 123 => case 124 => case 125 => case 126 => case 127 =>
  }

  /** The table and the comments beside its bits agree on every byte. */
  lemma ClassIsExact(c: byte, t: CharType)
    ensures IsChartype(c, t) <==> InClass(c, t)
  {
    hide RowOk;
    var n := Code(c);
    if n < 128 {
      if n < 16 { Rows0(n); } else if n < 32 { Rows16(n); } else if n < 48 { Rows32(n); } else if n < 64 { Rows48(n); }
        else if n < 80 { Rows64(n); } else if n < 96 { Rows80(n); } else if n < 112 { Rows96(n); } else { Rows112(n); }
      ClassFromRow(c, t);
    }
  }

  lemma ClassFromRow(c: byte, t: CharType)
    requires Code(c) < 128 && RowOk(Code(c))
    ensures IsChartype(c, t) <==> InClass(c, t)
  {
    hide Entry;
    assert Chr(Code(c)) == c;
  }

  lemma ClassXIsExact(c: byte, t: CharTypeX)
    ensures IsChartypeX(c, t) <==> InClassX(c, t)
  {
    hide RowXOk;
    var n := Code(c);
    if n < 128 {
      if n < 64 { RowsX0(n); } else { RowsX64(n); }
      ClassXFromRow(c, t);
    }
  }

  lemma ClassXFromRow(c: byte, t: CharTypeX)
    requires Code(c) < 128 && RowXOk(Code(c))
    ensures IsChartypeX(c, t) <==> InClassX(c, t)
  {
    hide EntryX;
    assert Chr(Code(c)) == c;
  }
}
