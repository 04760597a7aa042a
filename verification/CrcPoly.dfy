/** What the CRC-32 register computes: the remainder of a polynomial division over GF(2). */
module CrcPoly {
  import opened Bytes
  import opened Crc
  import opened Hec

  /** The generator x^32 + x^26 + x^23 + ... + x^2 + x + 1, by its exponents. */
  const GENERATOR: seq<nat> := [32, 26, 23, 22, 16, 12, 11, 10, 8, 7, 5, 4, 2, 1, 0]

  /** The generators of the two hashes, x^12 + x^11 + x^3 + x^2 + x + 1 and x^16 + x^15 + x^2 + 1, reflected:
      the highest exponent is left out and the next one is the lowest bit. */
  lemma HashGenerators()
    ensures CRC12_POLY == (1 << (11 - 11)) | (1 << (11 - 3)) | (1 << (11 - 2)) | (1 << (11 - 1)) | (1 << (11 - 0))
    ensures CRC16_POLY == (1 << (15 - 15)) | (1 << (15 - 2)) | (1 << (15 - 0))
  {}

  // ---------- Products ----------

  /** The product of a polynomial with the sum of some powers of x. */
  function Times(q: Poly, es: seq<nat>): Poly {
    if es == [] then {} else Add(MulX(q, es[0]), Times(q, es[1..]))
  }

  lemma {:induction false} TimesMulX(q: Poly, es: seq<nat>, i: nat)
    ensures i in Times(MulX(q, 1), es) <==> i > 0 && i - 1 in Times(q, es)
  {
    if es != [] {
      TimesMulX(q, es[1..], i);
    }
  }

  lemma {:induction false} TimesAdd(p: Poly, q: Poly, es: seq<nat>, i: nat)
    ensures i in Times(Add(p, q), es) <==> ((i in Times(p, es)) != (i in Times(q, es)))
  {
    if es != [] {
      TimesAdd(p, q, es[1..], i);
      AddMulX(p, q, es[0], i);
    }
  }

  /** The sum itself, if no power occurs twice. */
  lemma {:induction false} TimesOne(es: seq<nat>, i: nat)
    requires forall a, b :: 0 <= a < b < |es| ==> es[a] != es[b]
    ensures i in Times({0}, es) <==> i in es
  {
    if es != [] {
      TimesOne(es[1..], i);
      assert i in es <==> i == es[0] || i in es[1..];
      assert i in MulX({0}, es[0]) <==> i == es[0];
    }
  }

  lemma {:induction false} TimesNone(es: seq<nat>)
    ensures Times({}, es) == {}
  {
    if es != [] {
      TimesNone(es[1..]);
      assert MulX({}, es[0]) == {};
    }
  }

  lemma GeneratorDistinct()
    ensures forall a, b :: 0 <= a < b < |GENERATOR| ==> GENERATOR[a] != GENERATOR[b]
  {}

  // ---------- The register as a polynomial ----------

  function ShiftRight(r: bv32, n: nat): bv32
    decreases n
  {
    if n == 0 then r else ShiftRight(r >> 1, n - 1)
  }

  /** The coefficient of x^i: the register is reflected, its lowest bit belongs to x^31. */
  predicate Coefficient(r: bv32, i: nat) {
    i < 32 && ShiftRight(r, 31 - i) & 1 == 1
  }

  function RegPoly(r: bv32): (p: Poly)
    ensures forall i :: i in p <==> Coefficient(r, i)
  {
    set i: nat | i < 32 && Coefficient(r, i)
  }

  lemma {:induction false} ShiftXor(a: bv32, b: bv32, n: nat)
    ensures (ShiftRight(Xor32(a, b), n) & 1 == 1) == ((ShiftRight(a, n) & 1 == 1) != (ShiftRight(b, n) & 1 == 1))
    decreases n
  {
    hide Xor32;
    if n == 0 {
      XorLowBit32(a, b);
    } else {
      XorShift32(a, b);
      ShiftXor(a >> 1, b >> 1, n - 1);
    }
  }

  lemma XorCoefficient(a: bv32, b: bv32, i: nat)
    ensures Coefficient(Xor32(a, b), i) == (Coefficient(a, i) != Coefficient(b, i))
  {
    hide Xor32, ShiftRight;
    if i < 32 {
      ShiftXor(a, b, 31 - i);
    }
  }

  lemma {:induction false} ShiftAdd(r: bv32, m: nat, n: nat)
    ensures ShiftRight(ShiftRight(r, m), n) == ShiftRight(r, m + n)
    decreases m
  {
    if m > 0 {
      ShiftAdd(r >> 1, m - 1, n);
    }
  }

  lemma ShiftOne(r: bv32)
    ensures ShiftRight(r, 0) == r && ShiftRight(r, 1) == r >> 1
  {}

  lemma ShiftTwo(r: bv32)
    ensures ShiftRight(r, 2) == r >> 2
  {
    ShiftOne(r >> 1);
    assert ShiftRight(r, 2) == ShiftRight(r >> 1, 1);
    hide ShiftRight;
    assert r >> 1 >> 1 == r >> 2;
  }

  lemma ShiftThree(r: bv32)
    ensures ShiftRight(r, 3) == r >> 3
  {
    ShiftTwo(r >> 1);
    assert ShiftRight(r, 3) == ShiftRight(r >> 1, 2);
    hide ShiftRight;
    assert r >> 1 >> 2 == r >> 3;
  }

  lemma ShiftFour(r: bv32)
    ensures ShiftRight(r, 4) == r >> 4
  {
    ShiftThree(r >> 1);
    assert ShiftRight(r, 4) == ShiftRight(r >> 1, 3);
    hide ShiftRight;
    assert r >> 1 >> 3 == r >> 4;
  }

  /** Nothing is left after 32 shifts. */
  lemma ShiftedAway(r: bv32)
    ensures ShiftRight(r, 32) == 0
  {
    var a := r >> 4 >> 4 >> 4 >> 4;
    assert a >> 4 >> 4 >> 4 >> 4 == 0;
    ShiftSixteen(r);
    ShiftSixteen(a);
    hide ShiftRight;
    ShiftAdd(r, 16, 16);
  }

  lemma ShiftSixteen(r: bv32)
    ensures ShiftRight(r, 16) == r >> 4 >> 4 >> 4 >> 4
  {
    ShiftFour(r);
    ShiftFour(r >> 4);
    ShiftFour(r >> 4 >> 4);
    ShiftFour(r >> 4 >> 4 >> 4);
    hide ShiftRight;
    ShiftAdd(r, 4, 4);
    ShiftAdd(r, 8, 4);
    ShiftAdd(r, 12, 4);
  }

  /** Shifting the register is multiplying by x, but for the coefficient of x^31 that is lost. */
  lemma ShiftCoefficient(r: bv32, i: nat)
    ensures Coefficient(r >> 1, i) <==> 0 < i < 32 && Coefficient(r, i - 1)
  {
    if i == 0 {
      ShiftedAway(r);
      assert ShiftRight(r >> 1, 31) == ShiftRight(r, 32);
    } else if i < 32 {
      assert ShiftRight(r >> 1, 31 - i) == ShiftRight(r, 32 - i);
    }
  }

  lemma LowCoefficient(r: bv32)
    ensures Coefficient(r, 31) <==> r & 1 == 1
  {}

  /** The bit pattern of the code stands for the generator without x^32. */
  lemma PatternCoefficient(i: nat)
    ensures Coefficient(CRC32_POLY, i) <==> i < 32 && i in GENERATOR
  {
    if i < 32 {
      var k, j := (31 - i) / 4, (31 - i) % 4;
      PatternShift(k);
      ShiftAdd(CRC32_POLY, 4 * k, j);
      PatternNibble(k, j);
      assert i in GENERATOR <==> GeneratorHas(i);
    }
  }

  predicate GeneratorHas(i: nat) {
    || i == 32 || i == 26 || i == 23 || i == 22 || i == 16 || i == 12 || i == 11 || i == 10
    || i == 8 || i == 7 || i == 5 || i == 4 || i == 2 || i == 1 || i == 0
  }

  function Pattern(k: nat): bv32
    requires k < 8
  {
    if k == 0 then CRC32_POLY else if k == 1 then CRC32_POLY >> 4 else if k == 2 then CRC32_POLY >> 8
    else if k == 3 then CRC32_POLY >> 12 else if k == 4 then CRC32_POLY >> 16 else if k == 5 then CRC32_POLY >> 20
    else if k == 6 then CRC32_POLY >> 24 else CRC32_POLY >> 28
  }

  lemma {:induction false} PatternShift(k: nat)
    requires k < 8
    ensures ShiftRight(CRC32_POLY, 4 * k) == Pattern(k)
    decreases k
  {
    if k > 0 {
      PatternShift(k - 1);
      ShiftFour(Pattern(k - 1));
      ShiftAdd(CRC32_POLY, 4 * (k - 1), 4);
    }
  }

  lemma PatternNibble(k: nat, j: nat)
    requires k < 8 && j < 4
    ensures ShiftRight(Pattern(k), j) & 1 == 1 <==> GeneratorHas(31 - 4 * k - j)
  {
    ShiftOne(Pattern(k));
    ShiftTwo(Pattern(k));
    ShiftThree(Pattern(k));
    hide ShiftRight;
    if k == 0 {} else if k == 1 {} else if k == 2 {} else if k == 3 {}
    else if k == 4 {} else if k == 5 {} else if k == 6 {} else {}
  }

  // ---------- The division ----------

  /** `p` is a multiple of the generator plus the polynomial of the register. */
  ghost predicate Leaves(p: Poly, q: Poly, r: bv32) {
    p == Add(Times(q, GENERATOR), RegPoly(r))
  }

  /** The next message bit comes in at x^32. */
  function NextBit(p: Poly, bit: bool): Poly {
    Add(MulX(p, 1), if bit then {32} else {})
  }

  lemma OneCoefficient(i: nat)
    ensures Coefficient(1, i) <==> i == 31
  {
    ZeroCoefficient(0, 0);
    if i < 31 {
      assert ShiftRight(1, 31 - i) == ShiftRight(0, 30 - i) by { assert (1 as bv32) >> 1 == 0; }
      ZeroCoefficient(0, 30 - i);
    }
  }

  lemma {:induction false} ZeroCoefficient(r: bv32, n: nat)
    requires r == 0
    ensures ShiftRight(r, n) == 0
    decreases n
  {
    if n > 0 {
      assert r >> 1 == 0;
      ZeroCoefficient(r >> 1, n - 1);
    }
  }

  /** The register after a bit, coefficient by coefficient. */
  lemma FedCoefficient(r: bv32, bit: bool, i: nat)
    ensures var top := Coefficient(r, 31) != bit;
            Coefficient(FeedBit32(r, bit), i) <==>
            i < 32 && ((i > 0 && Coefficient(r, i - 1)) != (top && i in GENERATOR))
  {
    var r1 := if bit then Xor32(r, 1) else r;
    hide Xor32, Coefficient;
    LowCoefficient(r1);
    ShiftCoefficient(r1, i);
    PatternCoefficient(i);
    XorCoefficient(CRC32_POLY, r1 >> 1, i);
    XorCoefficient(r, 1, 31);
    OneCoefficient(31);
    if i > 0 {
      XorCoefficient(r, 1, i - 1);
      OneCoefficient(i - 1);
    }
    InRegister(r1 >> 1, i);
  }

  lemma InRegister(r: bv32, i: nat)
    ensures Coefficient(r, i) ==> i < 32
  {}

  /** The quotient times the generator, after a step that does or does not take the generator once more. */
  lemma QuotientAt(q: Poly, once: bool, i: nat)
    ensures i in Times(Add(MulX(q, 1), if once then {0} else {}), GENERATOR) <==>
            ((i > 0 && i - 1 in Times(q, GENERATOR)) != (once && i in GENERATOR))
  {
    hide Times;
    GeneratorDistinct();
    TimesAdd(MulX(q, 1), if once then {0} else {}, GENERATOR, i);
    TimesMulX(q, GENERATOR, i);
    TimesOne(GENERATOR, i);
    TimesNone(GENERATOR);
  }

  /** One bit is one step of the long division. */
  lemma LeavesBit(p: Poly, q: Poly, r: bv32, bit: bool) returns (q': Poly)
    requires Leaves(p, q, r)
    ensures Leaves(NextBit(p, bit), q', FeedBit32(r, bit))
  {
    var top := Coefficient(r, 31) != bit;
    q' := Add(MulX(q, 1), if top then {0} else {});
    hide Coefficient, FeedBit32, Times, GENERATOR;
    var left, right := NextBit(p, bit), Add(Times(q', GENERATOR), RegPoly(FeedBit32(r, bit)));
    forall i: nat
      ensures i in left <==> i in right
    {
      FedCoefficient(r, bit, i);
      QuotientAt(q, top, i);
      AtThirtyTwo(i);
      assert i in left <==> ((i > 0 && i - 1 in p) != (bit && i == 32));
      if i > 0 {
        InRegister(r, i - 1);
        assert i - 1 in p <==> ((i - 1 in Times(q, GENERATOR)) != Coefficient(r, i - 1));
      }
    }
  }

  lemma AtThirtyTwo(i: nat)
    ensures i in GENERATOR && i >= 32 <==> i == 32
  {
    assert GENERATOR[0] == 32;
  }

  // ---------- Whole messages ----------

  /** The bits of a message in the order they are sent: of each byte the lowest first. */
  function MessageBits(data: seq<byte>): seq<bool> {
    if data == [] then [] else LowBits(data[0], 8) + MessageBits(data[1..])
  }

  /** The polynomial of a bit string, first bit highest. */
  function BitsPoly(bits: seq<bool>): Poly {
    if bits == [] then {}
    else Add(MulX(BitsPoly(bits[..|bits| - 1]), 1), if bits[|bits| - 1] then {0} else {})
  }

  /** What a message is divided as: the initial register in front of it, and the whole times x^32. */
  function Dividend(r: bv32, bits: seq<bool>): Poly {
    Add(MulX(RegPoly(r), |bits|), MulX(BitsPoly(bits), 32))
  }

  lemma {:induction false} FeedConcat(r: bv32, a: seq<bool>, b: seq<bool>)
    ensures FeedBits32(r, a + b) == FeedBits32(FeedBits32(r, a), b)
    decreases |a|
  {
    hide FeedBit32;
    if a == [] {
      assert a + b == b;
    } else {
      assert (a + b)[0] == a[0] && (a + b)[1..] == a[1..] + b;
      FeedConcat(FeedBit32(r, a[0]), a[1..], b);
    }
  }

  lemma FeedLast(r: bv32, bits: seq<bool>)
    requires bits != []
    ensures FeedBits32(r, bits) == FeedBit32(FeedBits32(r, bits[..|bits| - 1]), bits[|bits| - 1])
  {
    hide FeedBit32;
    var a, x := bits[..|bits| - 1], bits[|bits| - 1];
    assert bits == a + [x];
    FeedConcat(r, a, [x]);
    assert [x][1..] == [];
    assert FeedBits32(FeedBits32(r, a), [x]) == FeedBits32(FeedBit32(FeedBits32(r, a), x), []);
  }

  lemma {:induction false} SerialBits(r: bv32, data: seq<byte>)
    ensures Serial32(r, data) == FeedBits32(r, MessageBits(data))
    decreases |data|
  {
    hide FeedBits32, LowBits;
    if data == [] {
      NoBits(r);
    } else {
      FeedConcat(r, LowBits(data[0], 8), MessageBits(data[1..]));
      SerialBits(FeedByte32(r, data[0]), data[1..]);
    }
  }

  lemma NoBits(r: bv32)
    ensures FeedBits32(r, []) == r
  {}

  lemma ShiftedSum(p: Poly, b: Poly, n: nat, x: bool, i: nat)
    ensures var t, u := if x then {0} else {}, if x then {32} else {};
            i in Add(MulX(p, n + 1), MulX(Add(MulX(b, 1), t), 32)) <==>
            i in Add(MulX(Add(MulX(p, n), MulX(b, 32)), 1), u)
  {
    var t := if x then {0} else {};
    AddMulX(MulX(b, 1), t, 32, i);
    AddMulX(MulX(p, n), MulX(b, 32), 1, i);
    assert i in MulX(t, 32) <==> x && i == 32;
    assert i in MulX(MulX(b, 1), 32) <==> i > 0 && i - 1 in MulX(b, 32);
    assert i in MulX(p, n + 1) <==> i > 0 && i - 1 in MulX(p, n);
  }

  lemma DividendLast(r: bv32, bits: seq<bool>)
    requires bits != []
    ensures Dividend(r, bits) == NextBit(Dividend(r, bits[..|bits| - 1]), bits[|bits| - 1])
  {
    var a, x := bits[..|bits| - 1], bits[|bits| - 1];
    BitsLast(bits);
    hide RegPoly, BitsPoly, MulX, Add;
    var left, right := Dividend(r, bits), NextBit(Dividend(r, a), x);
    forall i: nat
      ensures i in left <==> i in right
    {
      ShiftedSum(RegPoly(r), BitsPoly(a), |a|, x, i);
    }
  }

  lemma BitsLast(bits: seq<bool>)
    requires bits != []
    ensures BitsPoly(bits) == Add(MulX(BitsPoly(bits[..|bits| - 1]), 1), if bits[|bits| - 1] then {0} else {})
  {}

  lemma NothingFed(r: bv32)
    ensures Leaves(Dividend(r, []), {}, r)
  {
    TimesNone(GENERATOR);
    SumOfNone(RegPoly(r));
    hide RegPoly, MulX, Add, Times, GENERATOR;
  }

  lemma SumOfNone(p: Poly)
    ensures Add(MulX(p, 0), MulX({}, 32)) == p == Add({}, p)
  {
    assert forall i: nat :: i in Add(MulX(p, 0), MulX({}, 32)) <==> i in p;
    assert forall i: nat :: i in Add({}, p) <==> i in p;
  }

  lemma {:induction false} FedLeaves(r: bv32, bits: seq<bool>) returns (q: Poly)
    ensures Leaves(Dividend(r, bits), q, FeedBits32(r, bits))
    decreases |bits|
  {
    hide Leaves, Dividend, FeedBit32, FeedBits32;
    if bits == [] {
      NothingFed(r);
      NoBits(r);
      q := {};
    } else {
      var a := bits[..|bits| - 1];
      var q1 := FedLeaves(r, a);
      FeedLast(r, bits);
      DividendLast(r, bits);
      q := LeavesBit(Dividend(r, a), q1, FeedBits32(r, a), bits[|bits| - 1]);
    }
  }

  // ---------- One remainder ----------

  lemma SameTop(a: bv32, b: bv32)
    requires a >> 1 == b >> 1 && (a & 1 == 1) == (b & 1 == 1)
    ensures a == b
  {}

  predicate SameBit(a: bv32, b: bv32, j: nat) {
    (ShiftRight(a, j) & 1 == 1) == (ShiftRight(b, j) & 1 == 1)
  }

  lemma SameShifted(a: bv32, b: bv32, j: nat)
    ensures SameBit(a >> 1, b >> 1, j) == SameBit(a, b, j + 1)
  {}

  lemma SameFirst(a: bv32, b: bv32)
    ensures SameBit(a, b, 0) <==> (a & 1 == 1) == (b & 1 == 1)
  {}

  lemma {:induction false} ShiftsDetermine(a: bv32, b: bv32, n: nat)
    requires ShiftRight(a, n) == ShiftRight(b, n) && forall j :: 0 <= j < n ==> SameBit(a, b, j)
    ensures a == b
    decreases n
  {
    if n > 0 {
      ShiftedOnce(a, b, n);
      SameFirst(a, b);
      assert SameBit(a, b, 0);
      hide ShiftRight, SameBit;
      var a1, b1 := a >> 1, b >> 1;
      forall j | 0 <= j < n - 1
        ensures SameBit(a1, b1, j)
      {
        SameShifted(a, b, j);
      }
      ShiftsDetermine(a1, b1, n - 1);
      SameTop(a, b);
    }
  }

  lemma ShiftedOnce(a: bv32, b: bv32, n: nat)
    requires n > 0
    ensures ShiftRight(a, n) == ShiftRight(a >> 1, n - 1) && ShiftRight(b, n) == ShiftRight(b >> 1, n - 1)
  {}

  lemma PolyDetermines(a: bv32, b: bv32)
    requires RegPoly(a) == RegPoly(b)
    ensures a == b
  {
    ShiftedAway(a);
    ShiftedAway(b);
    hide ShiftRight;
    forall j | 0 <= j < 32
      ensures SameBit(a, b, j)
    {
      assert 31 - j in RegPoly(a) <==> 31 - j in RegPoly(b);
      assert Coefficient(a, 31 - j) <==> Coefficient(b, 31 - j);
    }
    ShiftsDetermine(a, b, 32);
  }

  /** A non-zero multiple of the generator has degree at least 32. */
  lemma HighMultiple32(d: Poly) returns (m: nat)
    requires d != {}
    ensures m >= 32 && m in Times(d, GENERATOR)
  {
    var h := Highest(d);
    m := h + 32;
    assert GENERATOR[0] == 32 && forall e :: e in GENERATOR[1..] ==> e < 32;
    NotSoHigh(d, GENERATOR[1..], m, h);
    assert m in MulX(d, 32);
  }

  lemma {:induction false} NotSoHigh(d: Poly, es: seq<nat>, m: nat, h: nat)
    requires (forall i :: i in d ==> i <= h) && m == h + 32 && forall e :: e in es ==> e < 32
    ensures m !in Times(d, es)
  {
    if es != [] {
      assert es[0] in es && forall e :: e in es[1..] ==> e in es;
      NotSoHigh(d, es[1..], m, h);
      assert m !in MulX(d, es[0]);
    }
  }

  lemma OneRemainder(p: Poly, q: Poly, r: bv32, q': Poly, r': bv32)
    requires Leaves(p, q, r) && Leaves(p, q', r')
    ensures r == r'
  {
    hide Coefficient, Times;
    var d := Add(q, q');
    forall i: nat
      ensures (i in Times(d, GENERATOR)) == ((i in RegPoly(r)) != (i in RegPoly(r')))
    {
      TimesAdd(q, q', GENERATOR, i);
      assert (i in p) == ((i in Times(q, GENERATOR)) != (i in RegPoly(r)));
      assert (i in p) == ((i in Times(q', GENERATOR)) != (i in RegPoly(r')));
    }
    if d != {} {
      var m := HighMultiple32(d);
      InRegister(r, m);
      InRegister(r', m);
      assert false;
    }
    TimesNone(GENERATOR);
    PolyDetermines(r, r');
  }

  /** A value is the CRC-32 register after a message exactly when it is the remainder of the message, with the
      initial register in front and times x^32, by the generator. */
  lemma CrcIsRemainder(start: bv32, data: seq<byte>, r: bv32)
    ensures r == Serial32(start, data) <==> exists q :: Leaves(Dividend(start, MessageBits(data)), q, r)
  {
    hide Leaves, Dividend, FeedBits32, Serial32;
    SerialBits(start, data);
    var p := Dividend(start, MessageBits(data));
    var q := FedLeaves(start, MessageBits(data));
    if q' :| Leaves(p, q', r) {
      OneRemainder(p, q, Serial32(start, data), q', r);
    }
  }
}
