/** `NPD::NPDBASE::CRC32`: the table-driven register against division of polynomials over GF(2). */
module Crc32 {
  // `crc32_tab`, eight entries a row as in the source
  const ROW0: seq<bv32> :=
    [0x00000000, 0x04C11DB7, 0x09823B6E, 0x0D4326D9, 0x130476DC, 0x17C56B6B, 0x1A864DB2, 0x1E475005]
  const ROW1: seq<bv32> :=
    [0x2608EDB8, 0x22C9F00F, 0x2F8AD6D6, 0x2B4BCB61, 0x350C9B64, 0x31CD86D3, 0x3C8EA00A, 0x384FBDBD]
  const ROW2: seq<bv32> :=
    [0x4C11DB70, 0x48D0C6C7, 0x4593E01E, 0x4152FDA9, 0x5F15ADAC, 0x5BD4B01B, 0x569796C2, 0x52568B75]
  const ROW3: seq<bv32> :=
    [0x6A1936C8, 0x6ED82B7F, 0x639B0DA6, 0x675A1011, 0x791D4014, 0x7DDC5DA3, 0x709F7B7A, 0x745E66CD]
  const ROW4: seq<bv32> :=
    [0x9823B6E0, 0x9CE2AB57, 0x91A18D8E, 0x95609039, 0x8B27C03C, 0x8FE6DD8B, 0x82A5FB52, 0x8664E6E5]
  const ROW5: seq<bv32> :=
    [0xBE2B5B58, 0xBAEA46EF, 0xB7A96036, 0xB3687D81, 0xAD2F2D84, 0xA9EE3033, 0xA4AD16EA, 0xA06C0B5D]
  const ROW6: seq<bv32> :=
    [0xD4326D90, 0xD0F37027, 0xDDB056FE, 0xD9714B49, 0xC7361B4C, 0xC3F706FB, 0xCEB42022, 0xCA753D95]
  const ROW7: seq<bv32> :=
    [0xF23A8028, 0xF6FB9D9F, 0xFBB8BB46, 0xFF79A6F1, 0xE13EF6F4, 0xE5FFEB43, 0xE8BCCD9A, 0xEC7DD02D]
  const ROW8: seq<bv32> :=
    [0x34867077, 0x30476DC0, 0x3D044B19, 0x39C556AE, 0x278206AB, 0x23431B1C, 0x2E003DC5, 0x2AC12072]
  const ROW9: seq<bv32> :=
    [0x128E9DCF, 0x164F8078, 0x1B0CA6A1, 0x1FCDBB16, 0x018AEB13, 0x054BF6A4, 0x0808D07D, 0x0CC9CDCA]
  const ROW10: seq<bv32> :=
    [0x7897AB07, 0x7C56B6B0, 0x71159069, 0x75D48DDE, 0x6B93DDDB, 0x6F52C06C, 0x6211E6B5, 0x66D0FB02]
  const ROW11: seq<bv32> :=
    [0x5E9F46BF, 0x5A5E5B08, 0x571D7DD1, 0x53DC6066, 0x4D9B3063, 0x495A2DD4, 0x44190B0D, 0x40D816BA]
  const ROW12: seq<bv32> :=
    [0xACA5C697, 0xA864DB20, 0xA527FDF9, 0xA1E6E04E, 0xBFA1B04B, 0xBB60ADFC, 0xB6238B25, 0xB2E29692]
  const ROW13: seq<bv32> :=
    [0x8AAD2B2F, 0x8E6C3698, 0x832F1041, 0x87EE0DF6, 0x99A95DF3, 0x9D684044, 0x902B669D, 0x94EA7B2A]
  const ROW14: seq<bv32> :=
    [0xE0B41DE7, 0xE4750050, 0xE9362689, 0xEDF73B3E, 0xF3B06B3B, 0xF771768C, 0xFA325055, 0xFEF34DE2]
  const ROW15: seq<bv32> :=
    [0xC6BCF05F, 0xC27DEDE8, 0xCF3ECB31, 0xCBFFD686, 0xD5B88683, 0xD1799B34, 0xDC3ABDED, 0xD8FBA05A]
  const ROW16: seq<bv32> :=
    [0x690CE0EE, 0x6DCDFD59, 0x608EDB80, 0x644FC637, 0x7A089632, 0x7EC98B85, 0x738AAD5C, 0x774BB0EB]
  const ROW17: seq<bv32> :=
    [0x4F040D56, 0x4BC510E1, 0x46863638, 0x42472B8F, 0x5C007B8A, 0x58C1663D, 0x558240E4, 0x51435D53]
  const ROW18: seq<bv32> :=
    [0x251D3B9E, 0x21DC2629, 0x2C9F00F0, 0x285E1D47, 0x36194D42, 0x32D850F5, 0x3F9B762C, 0x3B5A6B9B]
  const ROW19: seq<bv32> :=
    [0x0315D626, 0x07D4CB91, 0x0A97ED48, 0x0E56F0FF, 0x1011A0FA, 0x14D0BD4D, 0x19939B94, 0x1D528623]
  const ROW20: seq<bv32> :=
    [0xF12F560E, 0xF5EE4BB9, 0xF8AD6D60, 0xFC6C70D7, 0xE22B20D2, 0xE6EA3D65, 0xEBA91BBC, 0xEF68060B]
  const ROW21: seq<bv32> :=
    [0xD727BBB6, 0xD3E6A601, 0xDEA580D8, 0xDA649D6F, 0xC423CD6A, 0xC0E2D0DD, 0xCDA1F604, 0xC960EBB3]
  const ROW22: seq<bv32> :=
    [0xBD3E8D7E, 0xB9FF90C9, 0xB4BCB610, 0xB07DABA7, 0xAE3AFBA2, 0xAAFBE615, 0xA7B8C0CC, 0xA379DD7B]
  const ROW23: seq<bv32> :=
    [0x9B3660C6, 0x9FF77D71, 0x92B45BA8, 0x9675461F, 0x8832161A, 0x8CF30BAD, 0x81B02D74, 0x857130C3]
  const ROW24: seq<bv32> :=
    [0x5D8A9099, 0x594B8D2E, 0x5408ABF7, 0x50C9B640, 0x4E8EE645, 0x4A4FFBF2, 0x470CDD2B, 0x43CDC09C]
  const ROW25: seq<bv32> :=
    [0x7B827D21, 0x7F436096, 0x7200464F, 0x76C15BF8, 0x68860BFD, 0x6C47164A, 0x61043093, 0x65C52D24]
  const ROW26: seq<bv32> :=
    [0x119B4BE9, 0x155A565E, 0x18197087, 0x1CD86D30, 0x029F3D35, 0x065E2082, 0x0B1D065B, 0x0FDC1BEC]
  const ROW27: seq<bv32> :=
    [0x3793A651, 0x3352BBE6, 0x3E119D3F, 0x3AD08088, 0x2497D08D, 0x2056CD3A, 0x2D15EBE3, 0x29D4F654]
  const ROW28: seq<bv32> :=
    [0xC5A92679, 0xC1683BCE, 0xCC2B1D17, 0xC8EA00A0, 0xD6AD50A5, 0xD26C4D12, 0xDF2F6BCB, 0xDBEE767C]
  const ROW29: seq<bv32> :=
    [0xE3A1CBC1, 0xE760D676, 0xEA23F0AF, 0xEEE2ED18, 0xF0A5BD1D, 0xF464A0AA, 0xF9278673, 0xFDE69BC4]
  const ROW30: seq<bv32> :=
    [0x89B8FD09, 0x8D79E0BE, 0x803AC667, 0x84FBDBD0, 0x9ABC8BD5, 0x9E7D9662, 0x933EB0BB, 0x97FFAD0C]
  const ROW31: seq<bv32> :=
    [0xAFB010B1, 0xAB710D06, 0xA6322BDF, 0xA2F33668, 0xBCB4666D, 0xB8757BDA, 0xB5365D03, 0xB1F740B4]

  const CRC32_TAB: seq<seq<bv32>> := [
    ROW0, ROW1, ROW2, ROW3, ROW4, ROW5, ROW6, ROW7,
    ROW8, ROW9, ROW10, ROW11, ROW12, ROW13, ROW14, ROW15,
    ROW16, ROW17, ROW18, ROW19, ROW20, ROW21, ROW22, ROW23,
    ROW24, ROW25, ROW26, ROW27, ROW28, ROW29, ROW30, ROW31]

  /** The generator without its x^32 term (clause 3.2.9 of IEEE 802.3). */
  const GENERATOR: bv32 := 0x04C11DB7

  // ----- the register, one bit at a time -----

  predicate Top(r: bv32) {
    (r >> 31) & 1 != 0
  }

  function Bit(b: bool): (c: bv32)
    ensures c < 2
  {
    if b then 1 else 0
  }

  /** Take in one message bit; a one that falls out at the top is folded back through the generator. */
  function Step(r: bv32, b: bool): bv32 {
    if Top(r) then ((r << 1) | Bit(b)) ^ GENERATOR else (r << 1) | Bit(b)
  }

  function Run(r: bv32, bits: seq<bool>): bv32 {
    if bits == [] then r else Step(Run(r, bits[..|bits| - 1]), bits[|bits| - 1])
  }

  // ----- the source: one byte at a time -----

  function Lookup(i: bv8): bv32 {
    CRC32_TAB[i as int / 8][i as int % 8]
  }

  /** `crc32_tab[(crc_result >> 24) & 0xFF]` */
  function TableAt(r: bv32): bv32 {
    Lookup((r >> 24) as bv8)
  }

  function ByteStep(r: bv32, d: bv8): bv32 {
    ((r << 8) | d as bv32) ^ TableAt(r)
  }

  /** The register after the bytes of `data` have been shifted in. */
  function Absorb(r: bv32, data: seq<bv8>): bv32 {
    if data == [] then r else ByteStep(Absorb(r, data[..|data| - 1]), data[|data| - 1])
  }

  const FLUSH: seq<bv8> := [0, 0, 0, 0]

  /** The register value `CRC32` returns. */
  function Crc(data: seq<bv8>): bv32 {
    Absorb(Absorb(0, data), FLUSH)
  }

  /** `CRC32` as written: the data bytes, then four rounds without input. */
  method CRC32(data: seq<bv8>) returns (crc_result: bv32)
    ensures crc_result == Crc(data)
  {
    hide TableAt;
    crc_result := 0;
    var size, next := |data|, 0;
    while size != 0
      invariant 0 <= next && 0 <= size && next + size == |data| && crc_result == Absorb(0, data[..next])
    {
      assert data[..next + 1][..next] == data[..next];
      size := size - 1;
      crc_result := ((crc_result << 8) | data[next] as bv32) ^ TableAt(crc_result);
      next := next + 1;
    }
    assert data[..next] == data;
    for i := 0 to 4
      invariant crc_result == Absorb(Absorb(0, data), FLUSH[..i])
    {
      assert FLUSH[..i + 1][..i] == FLUSH[..i] && FLUSH[i] == 0;
      NoInput(crc_result);
      crc_result := (crc_result << 8) ^ TableAt(crc_result);
    }
    assert FLUSH[..4] == FLUSH;
  }

  lemma NoInput(r: bv32)
    ensures (r << 8) | (0 as bv8) as bv32 == r << 8
  {
  }

  // ----- the table -----

  function EightZeroSteps(r: bv32): bv32 {
    var z := false;
    Step(Step(Step(Step(Step(Step(Step(Step(r, z), z), z), z), z), z), z), z)
  }

  predicate EntryOk(t: bv8) {
    Lookup(t) == EightZeroSteps(t as bv32 << 24)
  }

  lemma Entries0(t: bv8)
    requires t < 8
    ensures EntryOk(t)
  {
    match t
    case 0 => case 1 => case 2 => case 3 => case 4 => case 5 => case 6 => case _ =>
  }

  lemma Entries8(t: bv8)
    requires 8 <= t < 16
    ensures EntryOk(t)
  {
    match t
    case 8 => case 9 => case 10 => case 11 => case 12 => case 13 => case 14 => case _ =>
  }

  lemma Entries16(t: bv8)
    requires 16 <= t < 24
    ensures EntryOk(t)
  {
    match t
    case 16 => case 17 => case 18 => case 19 => case 20 => case 21 => case 22 => case _ =>
  }

  lemma Entries24(t: bv8)
    requires 24 <= t < 32
    ensures EntryOk(t)
  {
    match t
    case 24 => case 25 => case 26 => case 27 => case 28 => case 29 => case 30 => case _ =>
  }

  lemma Entries32(t: bv8)
    requires 32 <= t < 40
    ensures EntryOk(t)
  {
    match t
    case 32 => case 33 => case 34 => case 35 => case 36 => case 37 => case 38 => case _ =>
  }

  lemma Entries40(t: bv8)
    requires 40 <= t < 48
    ensures EntryOk(t)
  {
    match t
    case 40 => case 41 => case 42 => case 43 => case 44 => case 45 => case 46 => case _ =>
  }

  lemma Entries48(t: bv8)
    requires 48 <= t < 56
    ensures EntryOk(t)
  {
    match t
    case 48 => case 49 => case 50 => case 51 => case 52 => case 53 => case 54 => case _ =>
  }

  lemma Entries56(t: bv8)
    requires 56 <= t < 64
    ensures EntryOk(t)
  {
    match t
    case 56 => case 57 => case 58 => case 59 => case 60 => case 61 => case 62 => case _ =>
  }

  lemma Entries64(t: bv8)
    requires 64 <= t < 72
    ensures EntryOk(t)
  {
    match t
    case 64 => case 65 => case 66 => case 67 => case 68 => case 69 => case 70 => case _ =>
  }

  lemma Entries72(t: bv8)
    requires 72 <= t < 80
    ensures EntryOk(t)
  {
    match t
    case 72 => case 73 => case 74 => case 75 => case 76 => case 77 => case 78 => case _ =>
  }

  lemma Entries80(t: bv8)
    requires 80 <= t < 88
    ensures EntryOk(t)
  {
    match t
    case 80 => case 81 => case 82 => case 83 => case 84 => case 85 => case 86 => case _ =>
  }

  lemma Entries88(t: bv8)
    requires 88 <= t < 96
    ensures EntryOk(t)
  {
    match t
    case 88 => case 89 => case 90 => case 91 => case 92 => case 93 => case 94 => case _ =>
  }

  lemma Entries96(t: bv8)
    requires 96 <= t < 104
    ensures EntryOk(t)
  {
    match t
    case 96 => case 97 => case 98 => case 99 => case 100 => case 101 => case 102 => case _ =>
  }

  lemma Entries104(t: bv8)
    requires 104 <= t < 112
    ensures EntryOk(t)
  {
    match t
    case 104 => case 105 => case 106 => case 107 => case 108 => case 109 => case 110 => case _ =>
  }

  lemma Entries112(t: bv8)
    requires 112 <= t < 120
    ensures EntryOk(t)
  {
    match t
    case 112 => case 113 => case 114 => case 115 => case 116 => case 117 => case 118 => case _ =>
  }

  lemma Entries120(t: bv8)
    requires 120 <= t < 128
    ensures EntryOk(t)
  {
    match t
    case 120 => case 121 => case 122 => case 123 => case 124 => case 125 => case 126 => case _ =>
  }

  lemma Entries128(t: bv8)
    requires 128 <= t < 136
    ensures EntryOk(t)
  {
    match t
    case 128 => case 129 => case 130 => case 131 => case 132 => case 133 => case 134 => case _ =>
  }

  lemma Entries136(t: bv8)
    requires 136 <= t < 144
    ensures EntryOk(t)
  {
    match t
    case 136 => case 137 => case 138 => case 139 => case 140 => case 141 => case 142 => case _ =>
  }

  lemma Entries144(t: bv8)
    requires 144 <= t < 152
    ensures EntryOk(t)
  {
    match t
    case 144 => case 145 => case 146 => case 147 => case 148 => case 149 => case 150 => case _ =>
  }

  lemma Entries152(t: bv8)
    requires 152 <= t < 160
    ensures EntryOk(t)
  {
    match t
    case 152 => case 153 => case 154 => case 155 => case 156 => case 157 => case 158 => case _ =>
  }

  lemma Entries160(t: bv8)
    requires 160 <= t < 168
    ensures EntryOk(t)
  {
    match t
    case 160 => case 161 => case 162 => case 163 => case 164 => case 165 => case 166 => case _ =>
  }

  lemma Entries168(t: bv8)
    requires 168 <= t < 176
    ensures EntryOk(t)
  {
    match t
    case 168 => case 169 => case 170 => case 171 => case 172 => case 173 => case 174 => case _ =>
  }

  lemma Entries176(t: bv8)
    requires 176 <= t < 184
    ensures EntryOk(t)
  {
    match t
    case 176 => case 177 => case 178 => case 179 => case 180 => case 181 => case 182 => case _ =>
  }

  lemma Entries184(t: bv8)
    requires 184 <= t < 192
    ensures EntryOk(t)
  {
    match t
    case 184 => case 185 => case 186 => case 187 => case 188 => case 189 => case 190 => case _ =>
  }

  lemma Entries192(t: bv8)
    requires 192 <= t < 200
    ensures EntryOk(t)
  {
    match t
    case 192 => case 193 => case 194 => case 195 => case 196 => case 197 => case 198 => case _ =>
  }

  lemma Entries200(t: bv8)
    requires 200 <= t < 208
    ensures EntryOk(t)
  {
    match t
    case 200 => case 201 => case 202 => case 203 => case 204 => case 205 => case 206 => case _ =>
  }

  lemma Entries208(t: bv8)
    requires 208 <= t < 216
    ensures EntryOk(t)
  {
    match t
    case 208 => case 209 => case 210 => case 211 => case 212 => case 213 => case 214 => case _ =>
  }

  lemma Entries216(t: bv8)
    requires 216 <= t < 224
    ensures EntryOk(t)
  {
    match t
    case 216 => case 217 => case 218 => case 219 => case 220 => case 221 => case 222 => case _ =>
  }

  lemma Entries224(t: bv8)
    requires 224 <= t < 232
    ensures EntryOk(t)
  {
    match t
    case 224 => case 225 => case 226 => case 227 => case 228 => case 229 => case 230 => case _ =>
  }

  lemma Entries232(t: bv8)
    requires 232 <= t < 240
    ensures EntryOk(t)
  {
    match t
    case 232 => case 233 => case 234 => case 235 => case 236 => case 237 => case 238 => case _ =>
  }

  lemma Entries240(t: bv8)
    requires 240 <= t < 248
    ensures EntryOk(t)
  {
    match t
    case 240 => case 241 => case 242 => case 243 => case 244 => case 245 => case 246 => case _ =>
  }

  lemma Entries248(t: bv8)
    requires 248 <= t
    ensures EntryOk(t)
  {
    match t
    case 248 => case 249 => case 250 => case 251 => case 252 => case 253 => case 254 => case _ =>
  }

  /** Each of the 256 entries is its index, shifted eight bits through the generator. */
  lemma TableIsExact(t: bv8)
    ensures EntryOk(t)
  {
    hide EntryOk;
    if t < 8 { Entries0(t); }
    else if t < 16 { Entries8(t); }
    else if t < 24 { Entries16(t); }
    else if t < 32 { Entries24(t); }
    else if t < 40 { Entries32(t); }
    else if t < 48 { Entries40(t); }
    else if t < 56 { Entries48(t); }
    else if t < 64 { Entries56(t); }
    else if t < 72 { Entries64(t); }
    else if t < 80 { Entries72(t); }
    else if t < 88 { Entries80(t); }
    else if t < 96 { Entries88(t); }
    else if t < 104 { Entries96(t); }
    else if t < 112 { Entries104(t); }
    else if t < 120 { Entries112(t); }
    else if t < 128 { Entries120(t); }
    else if t < 136 { Entries128(t); }
    else if t < 144 { Entries136(t); }
    else if t < 152 { Entries144(t); }
    else if t < 160 { Entries152(t); }
    else if t < 168 { Entries160(t); }
    else if t < 176 { Entries168(t); }
    else if t < 184 { Entries176(t); }
    else if t < 192 { Entries184(t); }
    else if t < 200 { Entries192(t); }
    else if t < 208 { Entries200(t); }
    else if t < 216 { Entries208(t); }
    else if t < 224 { Entries216(t); }
    else if t < 232 { Entries224(t); }
    else if t < 240 { Entries232(t); }
    else if t < 248 { Entries240(t); }
    else { Entries248(t); }
  }

  // ----- single bits -----

  predicate BitAt(r: bv32, e: nat)
    requires e < 32
  {
    (r >> e) & 1 != 0
  }

  lemma RawXorBit(r: bv32, s: bv32, e: nat)
    requires e < 32
    ensures (((r ^ s) >> e) & 1 != 0) == (((r >> e) & 1 != 0) != ((s >> e) & 1 != 0))
  {
  }

  lemma XorBit(r: bv32, s: bv32, e: nat)
    requires e < 32
    ensures BitAt(r ^ s, e) == (BitAt(r, e) != BitAt(s, e))
  {
    RawXorBit(r, s, e);
  }

  lemma RawShiftBit(r: bv32, c: bv32, e: nat)
    requires e < 32 && c < 2
    ensures ((((r << 1) | c) >> e) & 1 != 0) == if e == 0 then c == 1 else (r >> (e - 1)) & 1 != 0
  {
    match e
    case 0 => case 1 => case 2 => case 3 => case 4 => case 5 => case 6 => case 7 =>
    case 8 => case 9 => case 10 => case 11 => case 12 => case 13 => case 14 => case 15 =>
    case 16 => case 17 => case 18 => case 19 => case 20 => case 21 => case 22 => case 23 =>
    case 24 => case 25 => case 26 => case 27 => case 28 => case 29 => case 30 => case 31 =>
  }

  lemma RawShiftByte(r: bv32, d: bv8, e: nat)
    requires e < 32
    ensures ((((r << 8) | d as bv32) >> e) & 1 != 0) == if e < 8 then (d >> e) & 1 != 0 else (r >> (e - 8)) & 1 != 0
  {
    match e
    case 0 => case 1 => case 2 => case 3 => case 4 => case 5 => case 6 => case 7 =>
    case 8 => case 9 => case 10 => case 11 => case 12 => case 13 => case 14 => case 15 =>
    case 16 => case 17 => case 18 => case 19 => case 20 => case 21 => case 22 => case 23 =>
    case 24 => case 25 => case 26 => case 27 => case 28 => case 29 => case 30 => case 31 =>
  }

  lemma RawTopByte(r: bv32, e: nat)
    requires e < 32
    ensures (((((r >> 24) as bv8) as bv32 << 24) >> e) & 1 != 0) == (e >= 24 && (r >> e) & 1 != 0)
  {
    match e
    case 0 => case 1 => case 2 => case 3 => case 4 => case 5 => case 6 => case 7 =>
    case 8 => case 9 => case 10 => case 11 => case 12 => case 13 => case 14 => case 15 =>
    case 16 => case 17 => case 18 => case 19 => case 20 => case 21 => case 22 => case 23 =>
    case 24 => case 25 => case 26 => case 27 => case 28 => case 29 => case 30 => case 31 =>
  }

  /** The exponents of the generator below 32. */
  function Exponents(): set<nat> {
    {0, 1, 2, 4, 5, 7, 8, 10, 11, 12, 16, 22, 23, 26}
  }

  lemma GeneratorBit(e: nat)
    requires e < 32
    ensures BitAt(GENERATOR, e) == (e in Exponents())
  {
    match e
    case 0 => case 1 => case 2 => case 3 => case 4 => case 5 => case 6 => case 7 =>
    case 8 => case 9 => case 10 => case 11 => case 12 => case 13 => case 14 => case 15 =>
    case 16 => case 17 => case 18 => case 19 => case 20 => case 21 => case 22 => case 23 =>
    case 24 => case 25 => case 26 => case 27 => case 28 => case 29 => case 30 => case 31 =>
  }

  lemma SameOctet0(r: bv32, s: bv32)
    requires forall e: nat :: e < 32 ==> BitAt(r, e) == BitAt(s, e)
    ensures r & 0xFF == s & 0xFF
  {
    assert BitAt(r, 0) == BitAt(s, 0) && BitAt(r, 1) == BitAt(s, 1) && BitAt(r, 2) == BitAt(s, 2)
      && BitAt(r, 3) == BitAt(s, 3);
    assert BitAt(r, 4) == BitAt(s, 4) && BitAt(r, 5) == BitAt(s, 5) && BitAt(r, 6) == BitAt(s, 6)
      && BitAt(r, 7) == BitAt(s, 7);
  }

  lemma SameOctet8(r: bv32, s: bv32)
    requires forall e: nat :: e < 32 ==> BitAt(r, e) == BitAt(s, e)
    ensures r & 0xFF00 == s & 0xFF00
  {
    assert BitAt(r, 8) == BitAt(s, 8) && BitAt(r, 9) == BitAt(s, 9) && BitAt(r, 10) == BitAt(s, 10)
      && BitAt(r, 11) == BitAt(s, 11);
    assert BitAt(r, 12) == BitAt(s, 12) && BitAt(r, 13) == BitAt(s, 13) && BitAt(r, 14) == BitAt(s, 14)
      && BitAt(r, 15) == BitAt(s, 15);
  }

  lemma SameOctet16(r: bv32, s: bv32)
    requires forall e: nat :: e < 32 ==> BitAt(r, e) == BitAt(s, e)
    ensures r & 0xFF0000 == s & 0xFF0000
  {
    assert BitAt(r, 16) == BitAt(s, 16) && BitAt(r, 17) == BitAt(s, 17) && BitAt(r, 18) == BitAt(s, 18)
      && BitAt(r, 19) == BitAt(s, 19);
    assert BitAt(r, 20) == BitAt(s, 20) && BitAt(r, 21) == BitAt(s, 21) && BitAt(r, 22) == BitAt(s, 22)
      && BitAt(r, 23) == BitAt(s, 23);
  }

  lemma SameOctet24(r: bv32, s: bv32)
    requires forall e: nat :: e < 32 ==> BitAt(r, e) == BitAt(s, e)
    ensures r & 0xFF000000 == s & 0xFF000000
  {
    assert BitAt(r, 24) == BitAt(s, 24) && BitAt(r, 25) == BitAt(s, 25) && BitAt(r, 26) == BitAt(s, 26)
      && BitAt(r, 27) == BitAt(s, 27);
    assert BitAt(r, 28) == BitAt(s, 28) && BitAt(r, 29) == BitAt(s, 29) && BitAt(r, 30) == BitAt(s, 30)
      && BitAt(r, 31) == BitAt(s, 31);
  }

  lemma BitsDetermine(r: bv32, s: bv32)
    requires forall e: nat :: e < 32 ==> BitAt(r, e) == BitAt(s, e)
    ensures r == s
  {
    SameOctet0(r, s);
    SameOctet8(r, s);
    SameOctet16(r, s);
    SameOctet24(r, s);
    assert r == (r & 0xFF) | (r & 0xFF00) | (r & 0xFF0000) | (r & 0xFF000000);
  }
}
