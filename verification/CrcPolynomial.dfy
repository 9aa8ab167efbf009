/** What `CRC32` computes: the remainder of M(x) * x^32 modulo the generator, over GF(2). */
module CrcPolynomial {
  import opened Crc32

  // ----- polynomials as sets of exponents -----

  type poly = set<nat>

  const ONE: poly := {0}

  /** The generator, with its x^32 term (clause 3.2.9 of IEEE 802.3). */
  function G(): (g: poly)
    ensures 0 in g && 32 in g && forall k :: k in g ==> k <= 32
    ensures forall k: nat :: k < 32 ==> (k in g <==> k in Exponents())
  {
    Exponents() + {32}
  }

  function Add(a: poly, b: poly): (r: poly)
    ensures forall k: nat :: k in r <==> (k in a) != (k in b)
  {
    (a - b) + (b - a)
  }

  /** Multiplication by x^n. */
  function Up(a: poly, n: nat): (r: poly)
    ensures forall k: nat :: k in r <==> k >= n && k - n in a
  {
    var r := set e | e in a :: e + n;
    assert forall k: nat :: k >= n && k - n in a ==> k in r by {
      forall k: nat | k >= n && k - n in a ensures k in r {
        assert (k - n) + n in r;
      }
    }
    r
  }

  /** The product of the polynomial with coefficients `q`, highest first, and `g` (Horner's scheme). */
  function Times(q: seq<bool>, g: poly): poly {
    if q == [] then {} else
    Add(Up(Times(q[..|q| - 1], g), 1), if q[|q| - 1] then g else {})
  }

  /** The message polynomial: the first bit has the highest power. */
  function Poly(bits: seq<bool>): poly {
    Times(bits, ONE)
  }

  function RegPoly(r: bv32): (p: poly)
    ensures forall k: nat :: k in p <==> k < 32 && BitAt(r, k)
  {
    set e: nat | e < 32 && BitAt(r, e)
  }

  lemma RegPolyInjective(r: bv32, s: bv32)
    requires RegPoly(r) == RegPoly(s)
    ensures r == s
  {
    forall e: nat | e < 32 ensures BitAt(r, e) == BitAt(s, e) {
      assert e in RegPoly(r) <==> e in RegPoly(s);
    }
    BitsDetermine(r, s);
  }

  /** `r` is a remainder of `m` modulo the generator. */
  ghost predicate IsRemainder(m: poly, r: poly) {
    && (forall k :: k in r ==> k < 32)
    && exists q: seq<bool> :: m == Add(Times(q, G()), r)
  }

  // ----- the register divides -----

  lemma ShiftBit(r: bv32, b: bool, e: nat)
    requires e < 32
    ensures BitAt((r << 1) | Bit(b), e) == if e == 0 then b else BitAt(r, e - 1)
  {
    RawShiftBit(r, Bit(b), e);
  }

  lemma StepBit(r: bv32, b: bool, e: nat)
    requires e < 32
    ensures BitAt(Step(r, b), e) == ((if e == 0 then b else BitAt(r, e - 1)) != (BitAt(r, 31) && e in Exponents()))
  {
    hide BitAt;
    assert Top(r) == BitAt(r, 31) by { TopIsLastBit(r); }
    ShiftBit(r, b, e);
    GeneratorBit(e);
    XorBit((r << 1) | Bit(b), GENERATOR, e);
  }

  lemma TopIsLastBit(r: bv32)
    ensures Top(r) == BitAt(r, 31)
  {
  }

  /** One step multiplies by x, adds the new bit and subtracts the generator if x^32 appeared. */
  lemma StepPoly(r: bv32, b: bool)
    ensures RegPoly(Step(r, b))
         == Add(Add(Up(RegPoly(r), 1), if b then ONE else {}), if BitAt(r, 31) then G() else {})
  {
    hide BitAt, Step, G, Exponents;
    var p := Add(Add(Up(RegPoly(r), 1), if b then ONE else {}), if BitAt(r, 31) then G() else {});
    forall k: nat ensures k in RegPoly(Step(r, b)) <==> k in p {
      StepTerm(r, b, k);
    }
  }

  lemma StepTerm(r: bv32, b: bool, k: nat)
    ensures k in RegPoly(Step(r, b))
       <==> k in Add(Add(Up(RegPoly(r), 1), if b then ONE else {}), if BitAt(r, 31) then G() else {})
  {
    hide BitAt, Step, G, Exponents;
    if k < 32 {
      StepBit(r, b, k);
    }
  }

  lemma UpAdd(a: poly, b: poly, n: nat)
    ensures Up(Add(a, b), n) == Add(Up(a, n), Up(b, n))
  {
  }

  lemma Cancel(x: poly, y: poly, c: poly, t: poly)
    ensures Add(Add(x, y), c) == Add(Add(x, t), Add(Add(y, c), t))
  {
  }

  /** The bits that fall out of the register while `bits` are shifted in. */
  function Quotient(bits: seq<bool>): seq<bool> {
    if bits == [] then [] else
    var before := bits[..|bits| - 1];
    Quotient(before) + [BitAt(Run(0, before), 31)]
  }

  lemma ZeroRegister()
    ensures RegPoly(0) == {}
  {
    forall e: nat | e < 32 ensures !BitAt(0, e) {
      ZeroBit(e);
    }
  }

  lemma ZeroBit(e: nat)
    requires e < 32
    ensures !BitAt(0, e)
  {
  }

  lemma {:induction false} RunDivides(bits: seq<bool>)
    ensures Poly(bits) == Add(Times(Quotient(bits), G()), RegPoly(Run(0, bits)))
  {
    if bits == [] {
      ZeroRegister();
    } else {
      hide Step, BitAt, G, Add, Up, RegPoly;
      var before, b := bits[..|bits| - 1], bits[|bits| - 1];
      var r, q := Run(0, before), Quotient(before);
      RunDivides(before);
      StepPoly(r, b);
      assert Quotient(bits)[..|q|] == q && Quotient(bits)[|q|] == BitAt(r, 31);
      UpAdd(Times(q, G()), RegPoly(r), 1);
      Cancel(Up(Times(q, G()), 1), Up(RegPoly(r), 1), if b then ONE else {}, if BitAt(r, 31) then G() else {});
    }
  }

  // ----- uniqueness of the remainder -----

  function BitXor(a: seq<bool>, b: seq<bool>): (r: seq<bool>)
    requires |a| == |b|
    ensures |r| == |a| && forall i :: 0 <= i < |a| ==> r[i] == (a[i] != b[i])
  {
    seq(|a|, i requires 0 <= i < |a| => a[i] != b[i])
  }

  lemma {:induction false} TimesXor(a: seq<bool>, b: seq<bool>, g: poly)
    requires |a| == |b|
    ensures Times(BitXor(a, b), g) == Add(Times(a, g), Times(b, g))
  {
    if a != [] {
      var n := |a| - 1;
      assert BitXor(a, b)[..n] == BitXor(a[..n], b[..n]);
      TimesXor(a[..n], b[..n], g);
    }
  }

  lemma {:induction false} TimesZeros(n: nat, g: poly)
    ensures Times(Zeros(n), g) == {}
  {
    if n > 0 {
      assert Zeros(n)[..n - 1] == Zeros(n - 1);
      TimesZeros(n - 1, g);
    }
  }

  lemma {:induction false} TimesPadded(n: nat, q: seq<bool>, g: poly)
    ensures Times(Zeros(n) + q, g) == Times(q, g)
  {
    if q == [] {
      assert Zeros(n) + q == Zeros(n);
      TimesZeros(n, g);
    } else {
      var before := q[..|q| - 1];
      assert (Zeros(n) + q)[..n + |q| - 1] == Zeros(n) + before;
      TimesPadded(n, before, g);
    }
  }

  /** A nonzero multiple of the generator has a term of degree 32 or more. */
  lemma {:induction false} LeadingTerm(q: seq<bool>)
    requires q != [] && q[0]
    ensures 31 + |q| in Times(q, G())
    ensures forall k :: k in Times(q, G()) ==> k <= 31 + |q|
  {
    hide G;
    if |q| == 1 {
      assert q[..0] == [];
      assert Times(q[..0], G()) == {};
      assert Times(q, G()) == G();
    } else {
      LeadingTerm(q[..|q| - 1]);
    }
  }

  lemma {:induction false} MultipleIsHigh(q: seq<bool>)
    requires forall k :: k in Times(q, G()) ==> k < 32
    ensures Times(q, G()) == {}
    decreases |q|
  {
    if q != [] {
      if q[0] {
        LeadingTerm(q);
        assert false;
      } else {
        assert q == Zeros(1) + q[1..];
        TimesPadded(1, q[1..], G());
        MultipleIsHigh(q[1..]);
      }
    }
  }

  lemma RemainderUnique(m: poly, r: poly, s: poly)
    requires IsRemainder(m, r) && IsRemainder(m, s)
    ensures r == s
  {
    var a: seq<bool> :| m == Add(Times(a, G()), r);
    var b: seq<bool> :| m == Add(Times(b, G()), s);
    var x, y := Zeros(|b|) + a, Zeros(|a|) + b;
    TimesPadded(|b|, a, G());
    TimesPadded(|a|, b, G());
    TimesXor(x, y, G());
    var d := Times(BitXor(x, y), G());
    forall k | k in d ensures k < 32 {
      assert (k in m) == ((k in Times(a, G())) != (k in r)) == ((k in Times(b, G())) != (k in s));
    }
    MultipleIsHigh(BitXor(x, y));
    forall k: nat ensures k in r <==> k in s {
      assert k !in d;
      assert (k in m) == ((k in Times(a, G())) != (k in r)) == ((k in Times(b, G())) != (k in s));
    }
  }

  // ----- linearity of the register -----

  function Xor(r: bv32, s: bv32): bv32 {
    r ^ s
  }

  lemma XorBits(r: bv32, s: bv32, e: nat)
    requires e < 32
    ensures BitAt(Xor(r, s), e) == (BitAt(r, e) != BitAt(s, e))
  {
    XorBit(r, s, e);
  }

  lemma StepXorBit(r: bv32, s: bv32, b: bool, c: bool, e: nat)
    requires e < 32
    ensures BitAt(Step(Xor(r, s), b != c), e) == (BitAt(Step(r, b), e) != BitAt(Step(s, c), e))
  {
    hide BitAt, Step, Exponents, Xor;
    StepBit(Xor(r, s), b != c, e);
    StepBit(r, b, e);
    StepBit(s, c, e);
    XorBits(r, s, 31);
    if e > 0 { XorBits(r, s, e - 1); }
  }

  lemma StepXor(r: bv32, s: bv32, b: bool, c: bool)
    ensures Step(Xor(r, s), b != c) == Xor(Step(r, b), Step(s, c))
  {
    hide BitAt, Step, Xor;
    var x, y := Step(Xor(r, s), b != c), Xor(Step(r, b), Step(s, c));
    forall e: nat | e < 32 ensures BitAt(x, e) == BitAt(y, e) {
      StepXorBit(r, s, b, c, e);
      XorBits(Step(r, b), Step(s, c), e);
    }
    BitsDetermine(x, y);
  }

  lemma RunLast(r: bv32, a: seq<bool>)
    requires a != []
    ensures Run(r, a) == Step(Run(r, a[..|a| - 1]), a[|a| - 1])
  {
    hide Step;
  }

  lemma RunNothing(r: bv32)
    ensures Run(r, []) == r
  {
  }

  lemma {:induction false} RunXor(r: bv32, s: bv32, a: seq<bool>, b: seq<bool>)
    requires |a| == |b|
    ensures Run(Xor(r, s), BitXor(a, b)) == Xor(Run(r, a), Run(s, b))
  {
    hide Step, Run, Xor;
    var c := BitXor(a, b);
    if a == [] {
      assert b == [] && c == [];
      RunNothing(r);
      RunNothing(s);
      RunNothing(Xor(r, s));
    } else {
      var n := |a| - 1;
      assert c[..n] == BitXor(a[..n], b[..n]);
      RunXor(r, s, a[..n], b[..n]);
      RunLast(r, a);
      RunLast(s, b);
      RunLast(Xor(r, s), c);
      StepXor(Run(r, a[..n]), Run(s, b[..n]), a[n], b[n]);
    }
  }

  lemma {:induction false} RunAppend(r: bv32, a: seq<bool>, b: seq<bool>)
    ensures Run(r, a + b) == Run(Run(r, a), b)
  {
    if b == [] {
      assert a + b == a;
    } else {
      hide Step;
      RunAppend(r, a, b[..|b| - 1]);
      assert (a + b)[..|a + b| - 1] == a + b[..|b| - 1];
    }
  }

  /** While nothing falls out, the register just collects the bits. */
  lemma {:induction false} RunCollects(r: bv32, bits: seq<bool>, e: nat)
    requires |bits| <= 32 && e < 32
    requires forall k: nat :: 32 - |bits| <= k < 32 ==> !BitAt(r, k)
    ensures BitAt(Run(r, bits), e) == if e < |bits| then bits[|bits| - 1 - e] else BitAt(r, e - |bits|)
  {
    if bits != [] {
      hide Step, BitAt;
      var before := bits[..|bits| - 1];
      RunCollects(r, before, 31);
      StepBit(Run(r, before), bits[|bits| - 1], e);
      if e > 0 { RunCollects(r, before, e - 1); }
    }
  }

  // ----- bytes -----

  function Zeros(n: nat): (r: seq<bool>)
    ensures |r| == n && forall i :: 0 <= i < n ==> !r[i]
  {
    seq(n, _ => false)
  }

  /** The bits of a byte, most significant first. */
  function ByteBits(d: bv8): (r: seq<bool>)
    ensures |r| == 8
  {
    seq(8, i requires 0 <= i < 8 => ByteBit(d, 7 - i))
  }

  predicate ByteBit(d: bv8, e: nat)
    requires e < 8
  {
    (d >> e) & 1 != 0
  }

  function Bits(data: seq<bv8>): (r: seq<bool>)
    ensures |r| == 8 * |data|
  {
    if data == [] then [] else Bits(data[..|data| - 1]) + ByteBits(data[|data| - 1])
  }

  lemma RunEight(r: bv32)
    ensures Run(r, Zeros(8)) == EightZeroSteps(r)
  {
    hide Step;
    forall n: nat ensures Zeros(n + 1)[..n] == Zeros(n) {}
    assert Run(r, Zeros(1)) == Step(r, false);
    assert Run(r, Zeros(2)) == Step(Step(r, false), false);
    assert Run(r, Zeros(3)) == Step(Run(r, Zeros(2)), false);
    assert Run(r, Zeros(4)) == Step(Run(r, Zeros(3)), false);
    assert Run(r, Zeros(5)) == Step(Run(r, Zeros(4)), false);
    assert Run(r, Zeros(6)) == Step(Run(r, Zeros(5)), false);
    assert Run(r, Zeros(7)) == Step(Run(r, Zeros(6)), false);
    assert Run(r, Zeros(8)) == Step(Run(r, Zeros(7)), false);
  }

  function TopByte(r: bv32): bv32 {
    (r >> 24) as bv8 as bv32 << 24
  }

  lemma TopByteBit(r: bv32, e: nat)
    requires e < 32
    ensures BitAt(TopByte(r), e) == (e >= 24 && BitAt(r, e))
  {
    RawTopByte(r, e);
  }

  function ShiftByte(r: bv32, d: bv8): bv32 {
    (r << 8) | d as bv32
  }

  lemma ShiftByteLow(r: bv32, d: bv8, e: nat)
    requires e < 8
    ensures BitAt(ShiftByte(r, d), e) == ByteBit(d, e)
  {
    RawShiftByte(r, d, e);
  }

  lemma ShiftByteHigh(r: bv32, d: bv8, e: nat)
    requires 8 <= e < 32
    ensures BitAt(ShiftByte(r, d), e) == BitAt(r, e - 8)
  {
    match e
    case 8 => case 9 => case 10 => case 11 => case 12 => case 13 => case 14 => case 15 =>
    case 16 => case 17 => case 18 => case 19 => case 20 => case 21 => case 22 => case 23 =>
    case 24 => case 25 => case 26 => case 27 => case 28 => case 29 => case 30 => case 31 =>
  }

  lemma ShiftByteBit(r: bv32, d: bv8, e: nat)
    requires e < 32
    ensures BitAt(ShiftByte(r, d), e) == if e < 8 then ByteBits(d)[7 - e] else BitAt(r, e - 8)
  {
    hide BitAt, ByteBit, ShiftByte;
    if e < 8 { ShiftByteLow(r, d, e); } else { ShiftByteHigh(r, d, e); }
  }

  lemma XorSelf(r: bv32, s: bv32)
    ensures Xor(r, Xor(r, s)) == s
  {
  }

  lemma XorZero(r: bv32)
    ensures Xor(r, r) == 0 && Xor(r, 0) == r && Xor(0, r) == r
  {
  }

  lemma LowBits(r: bv32, k: nat)
    requires k < 32
    ensures BitAt(Xor(TopByte(r), r), k) == (k < 24 && BitAt(r, k))
  {
    hide BitAt, TopByte, Xor;
    XorBits(TopByte(r), r, k);
    TopByteBit(r, k);
  }

  /** The low three bytes move up and the new byte comes in; nothing is folded back. */
  lemma LowBytesCollect(r: bv32, d: bv8)
    ensures Run(Xor(TopByte(r), r), ByteBits(d)) == ShiftByte(r, d)
  {
    hide BitAt, Step, Run, ByteBits, TopByte, Xor, ShiftByte;
    var lo := Xor(TopByte(r), r);
    forall k: nat | k < 32 ensures BitAt(lo, k) == (k < 24 && BitAt(r, k)) {
      LowBits(r, k);
    }
    var x, y := Run(lo, ByteBits(d)), ShiftByte(r, d);
    forall e: nat | e < 32 ensures BitAt(x, e) == BitAt(y, e) {
      RunCollects(lo, ByteBits(d), e);
      ShiftByteBit(r, d, e);
    }
    BitsDetermine(x, y);
  }

  /** The two steps of the byte loop: one table look-up does the work of eight bit steps. */
  lemma ByteStepIsEightSteps(r: bv32, d: bv8)
    ensures ByteStep(r, d) == Run(r, ByteBits(d))
  {
    hide Run, ByteBits, TopByte, Xor, TableAt, EightZeroSteps, ShiftByte;
    var hi := TopByte(r);
    XorSelf(hi, r);
    assert BitXor(Zeros(8), ByteBits(d)) == ByteBits(d);
    RunXor(hi, Xor(hi, r), Zeros(8), ByteBits(d));
    RunEight(hi);
    TableEntry(r);
    LowBytesCollect(r, d);
    ByteStepShape(r, d);
  }

  lemma ByteStepShape(r: bv32, d: bv8)
    ensures ByteStep(r, d) == Xor(TableAt(r), ShiftByte(r, d))
  {
    hide TableAt;
    XorCommutes(TableAt(r), ShiftByte(r, d));
  }

  lemma XorCommutes(r: bv32, s: bv32)
    ensures Xor(r, s) == s ^ r
  {
  }

  lemma TableEntry(r: bv32)
    ensures TableAt(r) == EightZeroSteps(TopByte(r))
  {
    hide Lookup, EightZeroSteps;
    TableIsExact((r >> 24) as bv8);
  }

  lemma {:induction false} AbsorbIsRun(r: bv32, data: seq<bv8>)
    ensures Absorb(r, data) == Run(r, Bits(data))
  {
    if data != [] {
      hide ByteStep, Step, ByteBits, Run;
      var before, d := data[..|data| - 1], data[|data| - 1];
      AbsorbIsRun(r, before);
      ByteStepIsEightSteps(Run(r, Bits(before)), d);
      RunAppend(r, Bits(before), ByteBits(d));
    } else {
      assert Run(r, []) == r;
    }
  }

  lemma FlushBits()
    ensures Bits(FLUSH) == Zeros(32)
  {
    ZeroByte();
    assert FLUSH[..3] == [0, 0, 0] && FLUSH[..3][..2] == [0, 0] && [0 as bv8, 0][..1] == [0];
    assert Bits([0]) == Bits([]) + Zeros(8);
  }

  lemma ZeroByte()
    ensures ByteBits(0) == Zeros(8)
  {
  }

  lemma CrcIsRun(data: seq<bv8>)
    ensures Crc(data) == Run(0, Bits(data) + Zeros(32))
  {
    hide Run, Absorb, Bits;
    AbsorbIsRun(0, data);
    AbsorbIsRun(Absorb(0, data), FLUSH);
    FlushBits();
    RunAppend(0, Bits(data), Zeros(32));
  }

  // ----- the theorems -----

  lemma {:induction false} PolyOfZeros(bits: seq<bool>, n: nat)
    ensures Poly(bits + Zeros(n)) == Up(Poly(bits), n)
  {
    if n == 0 {
      assert bits + Zeros(0) == bits;
    } else {
      PolyOfZeros(bits, n - 1);
      assert (bits + Zeros(n))[..|bits| + n - 1] == bits + Zeros(n - 1);
    }
  }

  /** CRC32 is the remainder of M(x) * x^32 modulo the generator, and nothing else is. */
  lemma CrcIsTheRemainder(data: seq<bv8>, c: bv32)
    ensures IsRemainder(Up(Poly(Bits(data)), 32), RegPoly(c)) <==> c == Crc(data)
  {
    hide Run, Bits, Times, BitAt, Crc;
    var bits := Bits(data) + Zeros(32);
    PolyOfZeros(Bits(data), 32);
    RunDivides(bits);
    CrcIsRun(data);
    assert IsRemainder(Poly(bits), RegPoly(Crc(data)));
    if IsRemainder(Poly(bits), RegPoly(c)) {
      RemainderUnique(Poly(bits), RegPoly(c), RegPoly(Crc(data)));
      RegPolyInjective(c, Crc(data));
    }
  }

  function BytesXor(a: seq<bv8>, b: seq<bv8>): (r: seq<bv8>)
    requires |a| == |b|
    ensures |r| == |a| && forall i :: 0 <= i < |a| ==> r[i] == a[i] ^ b[i]
  {
    seq(|a|, i requires 0 <= i < |a| => a[i] ^ b[i])
  }

  lemma ByteBitsXor(a: bv8, b: bv8)
    ensures ByteBits(a ^ b) == BitXor(ByteBits(a), ByteBits(b))
  {
    hide ByteBit;
    forall i | 0 <= i < 8 ensures ByteBits(a ^ b)[i] == (ByteBits(a)[i] != ByteBits(b)[i]) {
      ByteBitXor(a, b, 7 - i);
    }
  }

  lemma ByteBitXor(a: bv8, b: bv8, e: nat)
    requires e < 8
    ensures ByteBit(a ^ b, e) == (ByteBit(a, e) != ByteBit(b, e))
  {
    RawByteXor(a, b, e);
  }

  lemma RawByteXor(a: bv8, b: bv8, e: nat)
    requires e < 8
    ensures (((a ^ b) >> e) & 1 != 0) == (((a >> e) & 1 != 0) != ((b >> e) & 1 != 0))
  {
  }

  lemma BitXorAppend(a: seq<bool>, b: seq<bool>, c: seq<bool>, d: seq<bool>)
    requires |a| == |b| && |c| == |d|
    ensures BitXor(a + c, b + d) == BitXor(a, b) + BitXor(c, d)
  {
  }

  lemma {:induction false} BitsXor(a: seq<bv8>, b: seq<bv8>)
    requires |a| == |b|
    ensures Bits(BytesXor(a, b)) == BitXor(Bits(a), Bits(b))
  {
    if a != [] {
      hide ByteBits;
      var n := |a| - 1;
      BitsXor(a[..n], b[..n]);
      ByteBitsXor(a[n], b[n]);
      assert BytesXor(a, b)[..n] == BytesXor(a[..n], b[..n]);
      BitXorAppend(Bits(a[..n]), Bits(b[..n]), ByteBits(a[n]), ByteBits(b[n]));
    }
  }

  /** CRC32 is linear: the checksum of an xor is the xor of the checksums. */
  lemma CrcIsLinear(a: seq<bv8>, b: seq<bv8>)
    requires |a| == |b|
    ensures Crc(BytesXor(a, b)) == Crc(a) ^ Crc(b)
  {
    hide Run, Bits, Crc;
    CrcIsRun(a);
    CrcIsRun(b);
    CrcIsRun(BytesXor(a, b));
    BitsXor(a, b);
    var x, y := Bits(a) + Zeros(32), Bits(b) + Zeros(32);
    assert BitXor(x, y) == Bits(BytesXor(a, b)) + Zeros(32);
    RunXor(0, 0, x, y);
    XorZero(0);
  }

  function BigEndian(c: bv32): (w: seq<bv8>)
    ensures |w| == 4
  {
    [(c >> 24) as bv8, ((c >> 16) & 0xFF) as bv8, ((c >> 8) & 0xFF) as bv8, (c & 0xFF) as bv8]
  }

  lemma RawByte24(c: bv32, e: nat)
    requires e < 8
    ensures ((((c >> 24) as bv8) >> e) & 1 != 0) == ((c >> (24 + e)) & 1 != 0)
  {
    match e
    case 0 => case 1 => case 2 => case 3 => case 4 => case 5 => case 6 => case 7 =>
  }

  lemma RawByte16(c: bv32, e: nat)
    requires e < 8
    ensures (((((c >> 16) & 0xFF) as bv8) >> e) & 1 != 0) == ((c >> (16 + e)) & 1 != 0)
  {
    match e
    case 0 => case 1 => case 2 => case 3 => case 4 => case 5 => case 6 => case 7 =>
  }

  lemma RawByte8(c: bv32, e: nat)
    requires e < 8
    ensures (((((c >> 8) & 0xFF) as bv8) >> e) & 1 != 0) == ((c >> (8 + e)) & 1 != 0)
  {
    match e
    case 0 => case 1 => case 2 => case 3 => case 4 => case 5 => case 6 => case 7 =>
  }

  lemma RawByte0(c: bv32, e: nat)
    requires e < 8
    ensures ((((c & 0xFF) as bv8) >> e) & 1 != 0) == ((c >> (0 + e)) & 1 != 0)
  {
    match e
    case 0 => case 1 => case 2 => case 3 => case 4 => case 5 => case 6 => case 7 =>
  }

  lemma FourBytes(w: seq<bv8>)
    requires |w| == 4
    ensures Bits(w) == ((ByteBits(w[0]) + ByteBits(w[1])) + ByteBits(w[2])) + ByteBits(w[3])
  {
    hide ByteBits;
    assert w[..3][..2] == w[..2] && w[..2][..1] == w[..1] && w[..1][..0] == [];
    assert Bits(w[..1]) == Bits([]) + ByteBits(w[0]) == ByteBits(w[0]);
    assert Bits(w[..2]) == Bits(w[..1]) + ByteBits(w[1]);
    assert Bits(w[..3]) == Bits(w[..2]) + ByteBits(w[2]);
  }

  lemma Byte0(c: bv32, e: nat)
    requires e < 8
    ensures ByteBit(BigEndian(c)[0], e) == BitAt(c, 24 + e)
  {
    RawByte24(c, e);
  }

  lemma Byte1(c: bv32, e: nat)
    requires e < 8
    ensures ByteBit(BigEndian(c)[1], e) == BitAt(c, 16 + e)
  {
    RawByte16(c, e);
  }

  lemma Byte2(c: bv32, e: nat)
    requires e < 8
    ensures ByteBit(BigEndian(c)[2], e) == BitAt(c, 8 + e)
  {
    RawByte8(c, e);
  }

  lemma Byte3(c: bv32, e: nat)
    requires e < 8
    ensures ByteBit(BigEndian(c)[3], e) == BitAt(c, 0 + e)
  {
    RawByte0(c, e);
  }

  lemma BigEndianBits(c: bv32, i: nat)
    requires i < 32
    ensures |Bits(BigEndian(c))| == 32 && Bits(BigEndian(c))[i] == BitAt(c, 31 - i)
  {
    hide Bits, BigEndian, BitAt, ByteBit;
    FourBytes(BigEndian(c));
    if i < 8 { Byte0(c, 7 - i); }
    else if i < 16 { Byte1(c, 15 - i); }
    else if i < 24 { Byte2(c, 23 - i); }
    else { Byte3(c, 31 - i); }
  }

  lemma CollectsWord(c: bv32)
    ensures Run(0, Bits(BigEndian(c))) == c
  {
    hide Run, Bits, BigEndian, BitAt;
    BigEndianBits(c, 0);
    forall e: nat | e < 32 ensures BitAt(Run(0, Bits(BigEndian(c))), e) == BitAt(c, e) {
      forall k: nat | k < 32 ensures !BitAt(0, k) { ZeroBit(k); }
      RunCollects(0, Bits(BigEndian(c)), e);
      BigEndianBits(c, 31 - e);
    }
    BitsDetermine(Run(0, Bits(BigEndian(c))), c);
  }

  lemma {:induction false} BitsAppend(a: seq<bv8>, b: seq<bv8>)
    ensures Bits(a + b) == Bits(a) + Bits(b)
  {
    hide ByteBits;
    if b == [] {
      assert a + b == a;
    } else {
      var front, last := b[..|b| - 1], b[|b| - 1];
      BitsAppend(a, front);
      assert (a + b)[..|a + b| - 1] == a + front && (a + b)[|a + b| - 1] == last;
      assert Bits(a) + Bits(front) + ByteBits(last) == Bits(a) + (Bits(front) + ByteBits(last));
    }
  }

  lemma {:induction false} RunZeroZeros(n: nat)
    ensures Run(0, Zeros(n)) == 0
  {
    if n > 0 {
      RunZeroZeros(n - 1);
      assert Zeros(n)[..n - 1] == Zeros(n - 1);
      ZeroStep();
    }
  }

  lemma ZeroStep()
    ensures Step(0, false) == 0
  {
  }

  /** A message followed by its own checksum, most significant byte first, has checksum 0. */
  lemma CrcOfCodeword(data: seq<bv8>)
    ensures Crc(data + BigEndian(Crc(data))) == 0
  {
    hide Run, Bits, Crc, BigEndian, Absorb, Xor;
    var c := Crc(data);
    var w := Bits(BigEndian(c));
    var r := Run(0, Bits(data));
    BigEndianBits(c, 0);
    CrcIsRun(data);
    RunAppend(0, Bits(data), Zeros(32));
    assert c == Run(r, Zeros(32));
    assert BitXor(Zeros(32), w) == w;
    RunXor(r, 0, Zeros(32), w);
    XorZero(r);
    CollectsWord(c);
    XorZero(c);
    assert Run(r, w) == 0;
    CrcIsRun(data + BigEndian(c));
    BitsAppend(data, BigEndian(c));
    RunAppend(0, Bits(data) + w, Zeros(32));
    RunAppend(0, Bits(data), w);
    RunZeroZeros(32);
  }

  lemma StepIsInjective(r: bv32)
    requires Step(r, false) == 0
    ensures r == 0
  {
  }

  lemma {:induction false} ZerosKeepErrors(r: bv32, n: nat)
    requires r != 0
    ensures Run(r, Zeros(n)) != 0
  {
    if n > 0 {
      ZerosKeepErrors(r, n - 1);
      assert Zeros(n)[..n - 1] == Zeros(n - 1);
      if Run(r, Zeros(n)) == 0 {
        StepIsInjective(Run(r, Zeros(n - 1)));
      }
    }
  }

  /** An error pattern of at most 32 bits leaves a nonzero register. */
  lemma BurstIsSeen(w: seq<bool>, k: nat)
    requires k < |w| <= 32 && w[k]
    ensures Run(0, w) != 0
  {
    hide Run, BitAt;
    forall e: nat | e < 32 ensures !BitAt(0, e) { ZeroBit(e); }
    RunCollects(0, w, |w| - 1 - k);
  }

  lemma {:induction false} BurstLeavesError(e: seq<bool>, first: nat, last: nat, k: nat)
    requires first <= k < last <= |e| && last - first <= 32 && e[k]
    requires forall i :: 0 <= i < first || last <= i < |e| ==> !e[i]
    ensures Run(0, e) != 0
  {
    hide Run;
    var w, n := e[first..last], |e| - last;
    assert e == (Zeros(first) + w) + Zeros(n);
    RunAppend(0, Zeros(first) + w, Zeros(n));
    RunAppend(0, Zeros(first), w);
    RunZeroZeros(first);
    BurstIsSeen(w, k - first);
    ZerosKeepErrors(Run(0, w), n);
  }

  /** Two messages of the same length that differ only within 32 consecutive bits have different checksums. */
  lemma BurstIsDetected(a: seq<bv8>, b: seq<bv8>, first: nat, last: nat, k: nat)
    requires |a| == |b| && first <= k < last <= 8 * |a| && last - first <= 32
    requires forall i :: 0 <= i < first || last <= i < 8 * |a| ==> Bits(a)[i] == Bits(b)[i]
    requires Bits(a)[k] != Bits(b)[k]
    ensures Crc(a) != Crc(b)
  {
    hide Run, Bits, Crc, Xor;
    CrcIsRun(a);
    CrcIsRun(b);
    var x, y := Bits(a) + Zeros(32), Bits(b) + Zeros(32);
    RunXor(0, 0, x, y);
    XorZero(0);
    BurstLeavesError(BitXor(x, y), first, last, k);
    XorZero(Crc(a));
  }
}
