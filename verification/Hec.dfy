/** The HEC byte that protects an ATM cell header (section 4.3.2 of ITU-T I.432.1). */
module Hec {
  import opened Bytes

  const HDR_SIZE := 5
  const COSET_LEADER: byte := 0x55

  // ---------- The HEC: remainder of the header modulo x^8 + x^2 + x + 1 ----------

  function Xor8(a: byte, b: byte): byte { a ^ b }

  function HecStep(s: byte): byte {
    if s & 0x80 != 0 then Xor8(s << 1, 0x07) else s << 1
  }

  function HecSteps(s: byte, n: nat): byte
    decreases n
  {
    if n == 0 then s else HecSteps(HecStep(s), n - 1)
  }

  /** The syndrome table entry of a byte. */
  function HecEntry(s: byte): byte {
    HecSteps(s, 8)
  }

  function HecAccum(accum: byte, data: seq<byte>): byte
    decreases |data|
  {
    if data == [] then accum else HecAccum(HecEntry(Xor8(accum, data[0])), data[1..])
  }

  /** The fifth header byte that goes with the first four. */
  function HecByte(header: seq<byte>): byte
    requires |header| >= 4
  {
    Xor8(HecAccum(0, header[..4]), COSET_LEADER)
  }

  /** Zero exactly when the fifth header byte is the HEC of the first four. */
  function Syndrome(header: seq<byte>): byte
    requires |header| == HDR_SIZE
  {
    Xor8(HecByte(header), header[4])
  }

  predicate HecValid(c: seq<byte>)
    requires |c| >= HDR_SIZE
  {
    c[4] == HecByte(c)
  }

  lemma XorAssoc8(a: byte, b: byte, c: byte)
    ensures Xor8(Xor8(a, b), c) == Xor8(a, Xor8(b, c))
  {}

  lemma XorComm8(a: byte, b: byte)
    ensures Xor8(a, b) == Xor8(b, a)
  {}

  lemma XorZero8(a: byte, b: byte)
    ensures Xor8(a, 0) == a && Xor8(0, a) == a
    ensures Xor8(a, b) == 0 <==> a == b
  {}

  lemma XorCancel8(a: byte, b: byte)
    ensures Xor8(a, Xor8(a, b)) == b
  {}

  lemma XorShift8(a: byte, b: byte)
    ensures Xor8(a, b) << 1 == Xor8(a << 1, b << 1)
  {}

  lemma XorTopBit8(a: byte, b: byte)
    ensures (Xor8(a, b) & 0x80 != 0) == ((a & 0x80 != 0) != (b & 0x80 != 0))
  {}

  lemma HecStepLinear(a: byte, b: byte)
    ensures HecStep(Xor8(a, b)) == Xor8(HecStep(a), HecStep(b))
  {
    hide Xor8;
    var a1, b1 := a << 1, b << 1;
    XorShift8(a, b);
    XorTopBit8(a, b);
    XorAssoc8(a1, b1, 0x07);
    XorAssoc8(a1, 0x07, b1);
    XorComm8(0x07, b1);
    XorAssoc8(a1, 0x07, Xor8(b1, 0x07));
    XorCancel8(0x07, b1);
  }

  lemma {:induction false} HecStepsLinear(a: byte, b: byte, n: nat)
    ensures HecSteps(Xor8(a, b), n) == Xor8(HecSteps(a, n), HecSteps(b, n))
    decreases n
  {
    hide HecStep, Xor8;
    if n > 0 {
      HecStepLinear(a, b);
      HecStepsLinear(HecStep(a), HecStep(b), n - 1);
    }
  }

  lemma {:induction false} HecStepsAdd(s: byte, m: nat, n: nat)
    ensures HecSteps(s, m + n) == HecSteps(HecSteps(s, m), n)
    decreases m
  {
    hide HecStep;
    if m > 0 {
      HecStepsAdd(HecStep(s), m - 1, n);
    }
  }

  lemma HecStepInjective(a: byte, b: byte)
    requires HecStep(a) == HecStep(b)
    ensures a == b
  {}

  // Parity, by folding a byte onto its lowest bit.
  function Fold4(s: byte): byte { Xor8(s, s >> 4) }
  function Fold2(s: byte): byte { s ^ (s >> 2) }
  function Fold1(s: byte): byte { (s ^ (s >> 1)) & 1 }

  function Parity(s: byte): byte {
    Fold1(Fold2(Fold4(s)))
  }

  lemma HecStepParity(s: byte)
    ensures Parity(HecStep(s)) == Parity(s)
  {}

  lemma Fold4Xor(a: byte, b: byte)
    ensures Fold4(Xor8(a, b)) == Xor8(Fold4(a), Fold4(b))
  {
    assert Xor8(a, b) >> 4 == Xor8(a >> 4, b >> 4);
    hide Xor8;
    var a1, b1 := a >> 4, b >> 4;
    XorAssoc8(a, b, Xor8(a1, b1));
    XorAssoc8(b, a1, b1);
    XorComm8(b, a1);
    XorAssoc8(a1, b, b1);
    XorAssoc8(a, a1, Xor8(b, b1));
  }

  lemma Fold2Xor(a: byte, b: byte)
    ensures Fold2(Xor8(a, b)) == Xor8(Fold2(a), Fold2(b))
  {}

  lemma Fold1Xor(a: byte, b: byte)
    ensures Fold1(Xor8(a, b)) == Xor8(Fold1(a), Fold1(b))
  {}

  lemma ParityXor(a: byte, b: byte)
    ensures Parity(Xor8(a, b)) == Xor8(Parity(a), Parity(b))
  {
    hide Fold4, Fold2, Fold1, Xor8;
    Fold4Xor(a, b);
    Fold2Xor(Fold4(a), Fold4(b));
    Fold1Xor(Fold2(Fold4(a)), Fold2(Fold4(b)));
  }

  // ---------- Reference: polynomials over GF(2), as sets of exponents ----------

  type Poly = set<nat>

  function Add(p: Poly, q: Poly): (r: Poly)
    ensures forall i :: i in r <==> ((i in p) != (i in q))
  {
    (p - q) + (q - p)
  }

  function MulX(p: Poly, n: nat): (r: Poly)
    ensures forall i :: i in r <==> i >= n && i - n in p
  {
    set i | i in p :: i + n
  }

  /** The product with the generator x^8 + x^2 + x + 1. */
  function MulG(q: Poly): Poly {
    Add(Add(MulX(q, 8), MulX(q, 2)), Add(MulX(q, 1), q))
  }

  predicate Has(s: byte, mask: byte) { s & mask != 0 }

  function Mask(i: nat): (m: byte)
    requires i < 8
  {
    if i == 0 then 0x01 else if i == 1 then 0x02 else if i == 2 then 0x04 else if i == 3 then 0x08
    else if i == 4 then 0x10 else if i == 5 then 0x20 else if i == 6 then 0x40 else 0x80
  }

  predicate Bit(s: byte, i: nat) {
    i < 8 && Has(s, Mask(i))
  }

  function PolyOf(s: byte): (p: Poly)
    ensures forall i :: i in p <==> Bit(s, i)
  {
    set i: nat | i < 8 && Bit(s, i)
  }

  /** The polynomial of a byte string, first byte highest. */
  function PolyBytes(p: Poly, data: seq<byte>): Poly
    decreases |data|
  {
    if data == [] then p else PolyBytes(Add(MulX(p, 8), PolyOf(data[0])), data[1..])
  }

  ghost predicate DivBy(p: Poly, q: Poly, r: byte) {
    p == Add(MulG(q), PolyOf(r))
  }

  lemma BitHecStep(s: byte, i: nat)
    ensures (i > 0 && Bit(s, i - 1)) == (Bit(HecStep(s), i) != (Has(s, 0x80) && i in {0, 1, 2, 8}))
  {
    if i == 0 {} else if i == 1 {} else if i == 2 {} else if i == 3 {} else if i == 4 {}
    else if i == 5 {} else if i == 6 {} else if i == 7 {} else {}
  }

  lemma XorHas(a: byte, b: byte, i: nat)
    requires i < 8
    ensures Has(Xor8(a, b), Mask(i)) == (Has(a, Mask(i)) != Has(b, Mask(i)))
  {
    if i == 0 {} else if i == 1 {} else if i == 2 {} else if i == 3 {} else if i == 4 {}
    else if i == 5 {} else if i == 6 {} else {}
  }

  lemma BitXor(a: byte, b: byte, i: nat)
    ensures Bit(Xor8(a, b), i) == (Bit(a, i) != Bit(b, i))
  {
    hide Xor8, Has, Mask;
    if i < 8 {
      XorHas(a, b, i);
    }
  }

  lemma BitsDetermine(a: byte, b: byte)
    requires PolyOf(a) == PolyOf(b)
    ensures a == b
  {
    assert forall i: nat :: i in PolyOf(a) <==> i in PolyOf(b);
    assert forall i: nat :: Bit(a, i) == Bit(b, i);
    assert Bit(a, 0) == Bit(b, 0) && Bit(a, 1) == Bit(b, 1) && Bit(a, 2) == Bit(b, 2) && Bit(a, 3) == Bit(b, 3);
    assert Bit(a, 4) == Bit(b, 4) && Bit(a, 5) == Bit(b, 5) && Bit(a, 6) == Bit(b, 6) && Bit(a, 7) == Bit(b, 7);
  }

  /** One table-building step is one step of the long division. */
  lemma DivStep(p: Poly, q: Poly, s: byte) returns (q': Poly)
    requires DivBy(p, q, s)
    ensures DivBy(MulX(p, 1), q', HecStep(s))
  {
    hide HecStep, Bit, Has, MulG;
    q' := Add(MulX(q, 1), if Has(s, 0x80) then {0} else {});
    var l, r := MulX(p, 1), Add(MulG(q'), PolyOf(HecStep(s)));
    forall i: nat
      ensures i in l <==> i in r
    {
      BitHecStep(s, i);
      assert i in l <==> i > 0 && ((i - 1 in MulG(q)) != Bit(s, i - 1));
      NextMulG(q, Has(s, 0x80), i);
    }
  }

  /** The quotient times the generator, after a step that does or does not take the generator once more. */
  lemma NextMulG(q: Poly, once: bool, i: nat)
    ensures var t := if once then {0} else {};
            i in MulG(Add(MulX(q, 1), t)) <==> ((i > 0 && i - 1 in MulG(q)) != (once && i in {0, 1, 2, 8}))
  {
    var t := if once then {0} else {};
    assert i in MulX(t, 8) <==> once && i == 8;
    assert i in MulX(t, 2) <==> once && i == 2;
    assert i in MulX(t, 1) <==> once && i == 1;
    StepMulG(q, i);
    AddMulG(MulX(q, 1), t, i);
  }

  lemma StepMulG(q: Poly, i: nat)
    ensures i in MulG(MulX(q, 1)) <==> i > 0 && i - 1 in MulG(q)
  {
    assert i in MulX(MulX(q, 1), 8) <==> i > 0 && i - 1 in MulX(q, 8);
    assert i in MulX(MulX(q, 1), 2) <==> i > 0 && i - 1 in MulX(q, 2);
    assert i in MulX(MulX(q, 1), 1) <==> i > 0 && i - 1 in MulX(q, 1);
  }

  lemma AddMulX(p: Poly, q: Poly, n: nat, i: nat)
    ensures i in MulX(Add(p, q), n) <==> ((i in MulX(p, n)) != (i in MulX(q, n)))
  {}

  lemma AddMulG(p: Poly, q: Poly, i: nat)
    ensures i in MulG(Add(p, q)) <==> ((i in MulG(p)) != (i in MulG(q)))
  {
    hide MulX;
    AddMulX(p, q, 8, i);
    AddMulX(p, q, 2, i);
    AddMulX(p, q, 1, i);
  }

  lemma {:induction false} DivSteps(p: Poly, q: Poly, s: byte, n: nat) returns (q': Poly)
    requires DivBy(p, q, s)
    ensures DivBy(MulX(p, n), q', HecSteps(s, n))
    decreases n
  {
    MulXMulX(p, n);
    hide HecStep, MulX, DivBy;
    if n == 0 {
      q' := q;
    } else {
      var q1 := DivStep(p, q, s);
      q' := DivSteps(MulX(p, 1), q1, HecStep(s), n - 1);
    }
  }

  lemma MulXMulX(p: Poly, n: nat)
    ensures MulX(p, 0) == p
    ensures n > 0 ==> MulX(MulX(p, 1), n - 1) == MulX(p, n)
  {
    if n > 0 {
      forall i: nat
        ensures i in MulX(MulX(p, 1), n - 1) <==> i in MulX(p, n)
      {}
    }
  }

  lemma AddByte(p: Poly, q: Poly, s: byte, b: byte)
    requires DivBy(p, q, s)
    ensures DivBy(Add(p, PolyOf(b)), q, Xor8(s, b))
  {
    hide Xor8, Bit;
    var l, r := Add(p, PolyOf(b)), Add(MulG(q), PolyOf(Xor8(s, b)));
    forall i: nat
      ensures i in l <==> i in r
    {
      BitXor(s, b, i);
    }
  }

  lemma {:induction false} DivBytes(p: Poly, q: Poly, s: byte, data: seq<byte>) returns (q': Poly)
    requires DivBy(MulX(p, 8), q, s)
    ensures DivBy(MulX(PolyBytes(p, data), 8), q', HecAccum(s, data))
    decreases |data|
  {
    if data == [] {
      q' := q;
    } else {
      hide HecSteps, Xor8, Bit;
      AddByte(MulX(p, 8), q, s, data[0]);
      var p1 := Add(MulX(p, 8), PolyOf(data[0]));
      var q1 := DivSteps(p1, q, Xor8(s, data[0]), 8);
      q' := DivBytes(p1, q1, HecEntry(Xor8(s, data[0])), data[1..]);
    }
  }

  lemma {:induction false} Highest(d: Poly) returns (m: nat)
    requires d != {}
    ensures m in d && forall i :: i in d ==> i <= m
    decreases d
  {
    m :| m in d;
    var rest := d - {m};
    assert forall i :: i in d ==> i == m || i in rest;
    if rest != {} {
      var m' := Highest(rest);
      m := if m < m' then m' else m;
    }
  }

  /** A non-zero multiple of the generator has degree at least 8. */
  lemma HighMultiple(d: Poly) returns (m: nat)
    requires d != {}
    ensures m >= 8 && m in MulG(d)
  {
    var h := Highest(d);
    m := h + 8;
    assert m in MulX(d, 8) && m !in MulX(d, 2) && m !in MulX(d, 1) && m !in d;
  }

  /** A division has one remainder. */
  lemma RemainderUnique(p: Poly, q: Poly, r: byte, q': Poly, r': byte)
    requires DivBy(p, q, r) && DivBy(p, q', r')
    ensures r == r'
  {
    hide Bit;
    var d := Add(q, q');
    forall i: nat
      ensures (i in MulG(d)) == ((i in PolyOf(r)) != (i in PolyOf(r')))
    {
      AddMulG(q, q', i);
      assert (i in p) == ((i in MulG(q)) != (i in PolyOf(r)));
      assert (i in p) == ((i in MulG(q')) != (i in PolyOf(r')));
    }
    if d != {} {
      var m := HighMultiple(d);
      HighBits(r, m);
      HighBits(r', m);
      assert false;
    }
    assert MulG({}) == {};
    BitsDetermine(r, r');
  }

  lemma HighBits(r: byte, m: nat)
    requires m >= 8
    ensures m !in PolyOf(r)
  {}

  /** The header of an idle cell, as section 4.4 of ITU-T I.432.1 gives it. */
  lemma IdleCell()
    ensures HecByte([0x00, 0x00, 0x00, 0x01]) == 0x52
  {
    var h: seq<byte> := [0x00, 0x00, 0x00, 0x01];
    assert h[..4] == h;
    IdleSteps();
    hide HecEntry, Xor8;
    assert h[1..] == [0x00, 0x00, 0x01] && [0x00, 0x00, 0x01][1..] == [0x00, 0x01 as byte];
    assert [0x00, 0x01 as byte][1..] == [0x01] && [0x01 as byte][1..] == [];
    assert HecAccum(0, h) == HecAccum(0, [0x00, 0x00, 0x01]) == HecAccum(0, [0x00, 0x01]) == HecAccum(0, [0x01]);
    assert HecAccum(0, [0x01]) == HecAccum(0x07, []) == 0x07;
  }

  lemma IdleSteps()
    ensures HecEntry(Xor8(0, 0)) == 0 && HecEntry(Xor8(0, 0x01)) == 0x07 && Xor8(0x07, COSET_LEADER) == 0x52
  {
    assert HecSteps(0, 8) == HecSteps(0, 6) == HecSteps(0, 4) == HecSteps(0, 2) == 0;
    assert HecSteps(0x01, 8) == HecSteps(0x04, 6) == HecSteps(0x10, 4) == HecSteps(0x40, 2) == 0x07;
  }

  /** The HEC, coset leader removed, is the remainder of the four header bytes times x^8. */
  lemma HecIsRemainder(header: seq<byte>, r: byte)
    requires |header| >= 4
    ensures r == Xor8(HecByte(header), COSET_LEADER) <==>
            exists q :: DivBy(MulX(PolyBytes({}, header[..4]), 8), q, r)
  {
    var accum := HecAccum(0, header[..4]);
    assert Xor8(Xor8(accum, COSET_LEADER), COSET_LEADER) == accum by {
      XorComm8(accum, COSET_LEADER);
      XorComm8(Xor8(COSET_LEADER, accum), COSET_LEADER);
      XorCancel8(COSET_LEADER, accum);
    }
    assert DivBy(MulX({}, 8), {}, 0) by {
      assert forall i: nat :: !Bit(0, i);
    }
    hide Xor8, Bit, HecAccum, PolyBytes, DivBy;
    var p := MulX(PolyBytes({}, header[..4]), 8);
    var q := DivBytes({}, {}, 0, header[..4]);
    assert DivBy(p, q, accum);
    if q1 :| DivBy(p, q1, r) {
      RemainderUnique(p, q, accum, q1, r);
    }
  }

  // ---------- What the HEC detects ----------

  /** x^n modulo the generator: what flipping header bit `n`, counted from the last, does to the syndrome. */
  function Power(n: nat): byte {
    if n == 0 then 1 else HecStep(Power(n - 1))
  }

  /** The header with bit `n` flipped, bit 0 being the lowest bit of the fifth byte. */
  function Flip(header: seq<byte>, n: nat): (h: seq<byte>)
    requires |header| == HDR_SIZE && n < 40
    ensures |h| == HDR_SIZE
  {
    header[4 - n / 8 := Xor8(header[4 - n / 8], Mask(n % 8))]
  }

  function FlipAll(header: seq<byte>, ns: seq<nat>): (h: seq<byte>)
    requires |header| == HDR_SIZE && forall k :: 0 <= k < |ns| ==> ns[k] < 40
    ensures |h| == HDR_SIZE
    decreases |ns|
  {
    if ns == [] then header else FlipAll(Flip(header, ns[0]), ns[1..])
  }

  lemma {:induction false} PowerSteps(n: nat, k: nat)
    ensures HecSteps(Power(n), k) == Power(n + k)
    decreases k
  {
    hide HecStep;
    if k > 0 {
      PowerSteps(n + 1, k - 1);
    }
  }

  lemma HecEntryLinear(a: byte, n: nat)
    ensures HecEntry(Xor8(a, Power(n))) == Xor8(HecEntry(a), Power(n + 8))
  {
    hide Xor8, HecSteps, Power;
    HecStepsLinear(a, Power(n), 8);
    PowerSteps(n, 8);
  }

  lemma PowerTable()
    ensures forall n :: 0 < n < 40 ==> Power(n) != 1
    ensures forall n: nat :: n < 8 ==> Power(n) == Mask(n)
  {
    assert HecStep(0x01) == 0x02 && HecStep(0x02) == 0x04 && HecStep(0x04) == 0x08 && HecStep(0x08) == 0x10 &&
           HecStep(0x10) == 0x20;
    assert HecStep(0x20) == 0x40 && HecStep(0x40) == 0x80 && HecStep(0x80) == 0x07 && HecStep(0x07) == 0x0e &&
           HecStep(0x0e) == 0x1c;
    assert HecStep(0x1c) == 0x38 && HecStep(0x38) == 0x70 && HecStep(0x70) == 0xe0 && HecStep(0xe0) == 0xc7 &&
           HecStep(0xc7) == 0x89;
    assert HecStep(0x89) == 0x15 && HecStep(0x15) == 0x2a && HecStep(0x2a) == 0x54 && HecStep(0x54) == 0xa8 &&
           HecStep(0xa8) == 0x57;
    assert HecStep(0x57) == 0xae && HecStep(0xae) == 0x5b && HecStep(0x5b) == 0xb6 && HecStep(0xb6) == 0x6b &&
           HecStep(0x6b) == 0xd6;
    assert HecStep(0xd6) == 0xab && HecStep(0xab) == 0x51 && HecStep(0x51) == 0xa2 && HecStep(0xa2) == 0x43 &&
           HecStep(0x43) == 0x86;
    assert HecStep(0x86) == 0x0b && HecStep(0x0b) == 0x16 && HecStep(0x16) == 0x2c && HecStep(0x2c) == 0x58 &&
           HecStep(0x58) == 0xb0;
    assert HecStep(0xb0) == 0x67 && HecStep(0x67) == 0xce && HecStep(0xce) == 0x9b && HecStep(0x9b) == 0x31;
    hide HecStep;
    assert Power(1) == 0x02 && Power(2) == 0x04 && Power(3) == 0x08 && Power(4) == 0x10 && Power(5) == 0x20 &&
           Power(6) == 0x40 && Power(7) == 0x80 && Power(8) == 0x07 && Power(9) == 0x0e && Power(10) == 0x1c;
    assert Power(11) == 0x38 && Power(12) == 0x70 && Power(13) == 0xe0 && Power(14) == 0xc7 && Power(15) == 0x89 &&
           Power(16) == 0x15 && Power(17) == 0x2a && Power(18) == 0x54 && Power(19) == 0xa8 && Power(20) == 0x57;
    assert Power(21) == 0xae && Power(22) == 0x5b && Power(23) == 0xb6 && Power(24) == 0x6b && Power(25) == 0xd6 &&
           Power(26) == 0xab && Power(27) == 0x51 && Power(28) == 0xa2 && Power(29) == 0x43 && Power(30) == 0x86;
    assert Power(31) == 0x0b && Power(32) == 0x16 && Power(33) == 0x2c && Power(34) == 0x58 && Power(35) == 0xb0 &&
           Power(36) == 0x67 && Power(37) == 0xce && Power(38) == 0x9b && Power(39) == 0x31;
  }

  lemma {:induction false} HecAccumLinear(accum: byte, n: nat, s: seq<byte>)
    ensures HecAccum(Xor8(accum, Power(n)), s) == Xor8(HecAccum(accum, s), Power(n + 8 * |s|))
    decreases |s|
  {
    hide Xor8, HecEntry, Power;
    if s != [] {
      XorSwap8(accum, Power(n), s[0]);
      HecEntryLinear(Xor8(accum, s[0]), n);
      HecAccumLinear(HecEntry(Xor8(accum, s[0])), n + 8, s[1..]);
    }
  }

  lemma {:induction false} HecAccumFlip(accum: byte, s: seq<byte>, j: nat, k: nat)
    requires j < |s|
    ensures HecAccum(accum, s[j := Xor8(s[j], Power(k))]) == Xor8(HecAccum(accum, s), Power(k + 8 * (|s| - j)))
    decreases |s|
  {
    hide Xor8, HecEntry, Power;
    var s' := s[j := Xor8(s[j], Power(k))];
    if j == 0 {
      assert s'[1..] == s[1..];
      XorAssoc8(accum, s[0], Power(k));
      HecEntryLinear(Xor8(accum, s[0]), k);
      HecAccumLinear(HecEntry(Xor8(accum, s[0])), k + 8, s[1..]);
    } else {
      assert s'[1..] == s[1..][j - 1 := Xor8(s[j], Power(k))];
      HecAccumFlip(HecEntry(Xor8(accum, s[0])), s[1..], j - 1, k);
    }
  }

  /** Flipping bit `n` of a header adds x^n to its syndrome. */
  lemma FlipSyndrome(h: seq<byte>, n: nat)
    requires |h| == HDR_SIZE && n < 40
    ensures Syndrome(Flip(h, n)) == Xor8(Syndrome(h), Power(n))
  {
    PowerTable();
    hide Xor8, Power, Mask, HecAccum;
    var accum, j, k := HecAccum(0, h[..4]), 4 - n / 8, n % 8;
    if j == 4 {
      assert Flip(h, n)[..4] == h[..4];
      XorAssoc8(Xor8(accum, COSET_LEADER), h[4], Power(n));
    } else {
      HecAccumFlip(0, h[..4], j, k);
      assert Flip(h, n)[..4] == h[..4][j := Xor8(h[j], Power(k))];
      assert k + 8 * (4 - j) == n;
      XorSwap8(accum, Power(n), COSET_LEADER);
      XorSwap8(Xor8(accum, COSET_LEADER), Power(n), h[4]);
    }
  }

  lemma XorSwap8(a: byte, p: byte, b: byte)
    ensures Xor8(Xor8(a, p), b) == Xor8(Xor8(a, b), p)
  {}

  lemma PowerParity(n: nat)
    ensures Parity(Power(n)) == 1
  {
    hide HecStep, Parity;
    if n == 0 {
      ParityOfOne();
    } else {
      PowerParity(n - 1);
      HecStepParity(Power(n - 1));
    }
  }

  lemma ParityOfOne()
    ensures Parity(1) == 1 && Parity(0) == 0
  {}

  lemma {:induction false} PowersDistinct(a: nat, b: nat)
    requires a < b < 40
    ensures Power(a) != Power(b)
  {
    if a == 0 {
      PowerTable();
    } else {
      hide HecStep;
      PowersDistinct(a - 1, b - 1);
      if Power(a) == Power(b) {
        HecStepInjective(Power(a - 1), Power(b - 1));
      }
    }
  }

  lemma {:induction false} FlipAllParity(h: seq<byte>, ns: seq<nat>)
    requires |h| == HDR_SIZE && forall k :: 0 <= k < |ns| ==> ns[k] < 40
    ensures Parity(Syndrome(FlipAll(h, ns))) ==
            if |ns| % 2 == 0 then Parity(Syndrome(h)) else Xor8(Parity(Syndrome(h)), 1)
    decreases |ns|
  {
    XorOneTwice(Parity(Syndrome(h)));
    hide Parity, Syndrome, Xor8, Power;
    if ns != [] {
      FlipSyndrome(h, ns[0]);
      ParityXor(Syndrome(h), Power(ns[0]));
      PowerParity(ns[0]);
      FlipAllParity(Flip(h, ns[0]), ns[1..]);
    }
  }

  lemma XorOneTwice(a: byte)
    ensures Xor8(Xor8(a, 1), 1) == a && Xor8(0, 1) == 1
  {}

  /** One flipped bit, two flipped bits, or any odd number of flips, always break a valid header. */
  lemma HecDetects(h: seq<byte>, ns: seq<nat>)
    requires |h| == HDR_SIZE && HecValid(h)
    requires forall k :: 0 <= k < |ns| ==> ns[k] < 40
    requires |ns| % 2 == 1 || (|ns| == 2 && ns[0] != ns[1])
    ensures !HecValid(FlipAll(h, ns))
  {
    XorZero8(HecByte(h), h[4]);
    XorZero8(HecByte(FlipAll(h, ns)), FlipAll(h, ns)[4]);
    ParityOfOne();
    XorOneTwice(0);
    hide Xor8, Parity, Power, HecByte;
    if |ns| % 2 == 1 {
      FlipAllParity(h, ns);
    } else {
      FlipSyndrome(h, ns[0]);
      FlipSyndrome(Flip(h, ns[0]), ns[1]);
      assert FlipAll(h, ns) == FlipAll(Flip(h, ns[0]), ns[1..]);
      assert ns[1..][1..] == [];
      XorZero8(Power(ns[0]), Power(ns[1]));
      PowersDistinct(if ns[0] < ns[1] then ns[0] else ns[1], if ns[0] < ns[1] then ns[1] else ns[0]);
    }
  }

  // ---------- The table and the code that uses it ----------

  ghost predicate SyndromeTable(t: seq<byte>) {
    |t| == 256 && forall i :: 0 <= i < 256 ==> t[i] == HecEntry(ByteOf(i))
  }

  /** The int loop variable of the table construction stays within a byte. */
  lemma IntHecStep(r: byte, s: bv32)
    requires s == r as bv32
    ensures (if s & 0x80 != 0 then (s << 1) ^ 0x107 else s << 1) == HecStep(r) as bv32
  {}

  class HecTable {
    const hecSyndromeTable: array<byte>

    ghost predicate Valid()
      reads this, hecSyndromeTable
    {
      SyndromeTable(hecSyndromeTable[..])
    }

    constructor ()
      ensures Valid() && fresh(hecSyndromeTable)
    {
      hecSyndromeTable := new byte[256];
      new;
      hide HecEntry, ByteOf;
      for i := 0 to 256
        invariant forall k :: 0 <= k < i ==> hecSyndromeTable[k] == HecEntry(ByteOf(k))
      {
        hecSyndromeTable[i] := TableEntry(ByteOf(i));
      }
    }

    static method TableEntry(i: byte) returns (entry: byte)
      ensures entry == HecEntry(i)
    {
      var syndrome := i as bv32;
      ghost var r := i;
      for j := 0 to 8
        invariant syndrome == r as bv32
        invariant HecSteps(r, 8 - j) == HecEntry(i)
      {
        IntHecStep(r, syndrome);
        hide HecStep;
        if syndrome & 0x80 != 0 {
          syndrome := (syndrome << 1) ^ 0x107;
        } else {
          syndrome := syndrome << 1;
        }
        r := HecStep(r);
      }
      entry := (syndrome & 0xff) as byte;
    }

    method ComputeHec(header: seq<byte>) returns (hec: byte)
      requires Valid() && |header| >= 4
      ensures hec == HecByte(header)
    {
      hide Xor8, HecEntry, ByteOf, Index;
      var accum: byte := 0;
      for i := 0 to 4
        invariant HecAccum(accum, header[i..4]) == HecAccum(0, header[..4])
      {
        ByteOfIndex(Xor8(accum, header[i]));
        assert header[i..4][1..] == header[i + 1..4];
        accum := hecSyndromeTable[Index(Xor8(accum, header[i]))];
      }
      hec := Xor8(accum, COSET_LEADER);
    }

    method InsertHec(cell: array<byte>)
      requires Valid() && cell.Length >= HDR_SIZE && cell != hecSyndromeTable
      modifies cell
      ensures cell[..] == old(cell[..])[4 := HecByte(old(cell[..]))]
      ensures Valid()
    {
      var hec := ComputeHec(cell[..]);
      cell[4] := hec;
    }
  }
}
