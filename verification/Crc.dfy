/** The CRC-12, CRC-16 and CRC-32 tables and the loops that read them. */
module Crc {
  import opened Bytes

  const CRC12_POLY: bv16 := 0x0f01
  const CRC16_POLY: bv16 := 0xa001
  const CRC32_POLY: bv32 := 0xedb8_8320

  // Named operators keep bit-vector terms apart from the recursions over them.
  function Xor32(a: bv32, b: bv32): bv32 { a ^ b }
  function Xor16(a: bv16, b: bv16): bv16 { a ^ b }
  function Not32(a: bv32): bv32 { !a }

  // ---------- Reference: registers that take one message bit per step ----------

  function Step32(r: bv32): bv32 {
    if r & 1 == 1 then Xor32(CRC32_POLY, r >> 1) else r >> 1
  }

  function FeedBit32(r: bv32, bit: bool): bv32 {
    Step32(if bit then Xor32(r, 1) else r)
  }

  function FeedBits32(r: bv32, bits: seq<bool>): bv32
    decreases |bits|
  {
    if bits == [] then r else FeedBits32(FeedBit32(r, bits[0]), bits[1..])
  }

  function Step16(poly: bv16, r: bv16): bv16 {
    if r & 1 == 1 then Xor16(poly, r >> 1) else r >> 1
  }

  function FeedBit16(poly: bv16, r: bv16, bit: bool): bv16 {
    Step16(poly, if bit then Xor16(r, 1) else r)
  }

  function FeedBits16(poly: bv16, r: bv16, bits: seq<bool>): bv16
    decreases |bits|
  {
    if bits == [] then r else FeedBits16(poly, FeedBit16(poly, r, bits[0]), bits[1..])
  }

  /** The lowest `n` bits of a byte, lowest first: the order the reflected registers take them. */
  function LowBits(b: byte, n: nat): seq<bool>
    decreases n
  {
    if n == 0 then [] else [b & 1 == 1] + LowBits(b >> 1, n - 1)
  }

  function FeedByte32(r: bv32, b: byte): bv32 {
    FeedBits32(r, LowBits(b, 8))
  }

  function FeedByte16(poly: bv16, r: bv16, b: byte): bv16 {
    FeedBits16(poly, r, LowBits(b, 8))
  }

  /** The CRC-32 register after a whole message has been shifted in bit by bit. */
  function Serial32(r: bv32, data: seq<byte>): bv32
    decreases |data|
  {
    if data == [] then r else Serial32(FeedByte32(r, data[0]), data[1..])
  }

  function Serial16(poly: bv16, r: bv16, data: seq<byte>): bv16
    decreases |data|
  {
    if data == [] then r else Serial16(poly, FeedByte16(poly, r, data[0]), data[1..])
  }

  /** Feeding a message in two parts is feeding it whole. */
  lemma {:induction false} Serial32Concat(r: bv32, a: seq<byte>, b: seq<byte>)
    ensures Serial32(r, a + b) == Serial32(Serial32(r, a), b)
    decreases |a|
  {
    hide FeedByte32;
    if a == [] {
      assert a + b == b;
    } else {
      assert (a + b)[0] == a[0];
      Serial32Concat(FeedByte32(r, a[0]), a[1..], b);
      assert (a + b)[1..] == a[1..] + b;
    }
  }

  lemma {:induction false} Serial16Concat(poly: bv16, r: bv16, a: seq<byte>, b: seq<byte>)
    ensures Serial16(poly, r, a + b) == Serial16(poly, Serial16(poly, r, a), b)
    decreases |a|
  {
    hide FeedByte16;
    if a == [] {
      assert a + b == b;
    } else {
      assert (a + b)[0] == a[0];
      Serial16Concat(poly, FeedByte16(poly, r, a[0]), a[1..], b);
      assert (a + b)[1..] == a[1..] + b;
    }
  }

  // ---------- Table entries: eight steps at once ----------

  function Steps32(r: bv32, n: nat): bv32
    decreases n
  {
    if n == 0 then r else Steps32(Step32(r), n - 1)
  }

  function Steps16(poly: bv16, r: bv16, n: nat): bv16
    decreases n
  {
    if n == 0 then r else Steps16(poly, Step16(poly, r), n - 1)
  }

  function LowByte32(x: bv32): byte { (x & 0xff) as byte }
  function Widen(x: bv16): bv32 { x as bv32 }
  function HighPart32(x: bv32): bv32 { x & !0xff }
  function LowByte16(x: bv16): byte { (x & 0xff) as byte }
  function HighPart16(x: bv16): bv16 { x & !0xff }
  function Entry32(b: byte): bv32 { Steps32(b as bv32, 8) }
  function Entry16(poly: bv16, b: byte): bv16 { Steps16(poly, b as bv16, 8) }

  lemma OneStep32(c: bv32, n: nat)
    requires n > 0
    ensures Steps32(c, n) == Steps32(if c & 1 == 1 then Xor32(CRC32_POLY, c >> 1) else c >> 1, n - 1)
  {}

  lemma NoSteps32(c: bv32)
    ensures Steps32(c, 0) == c
  {}

  lemma XorAssoc32(a: bv32, b: bv32, c: bv32)
    ensures Xor32(Xor32(a, b), c) == Xor32(a, Xor32(b, c))
  {}

  lemma XorComm32(a: bv32, b: bv32)
    ensures Xor32(a, b) == Xor32(b, a)
  {}

  lemma XorCancel32(a: bv32, b: bv32)
    ensures Xor32(a, Xor32(a, b)) == b
  {}

  lemma ShiftRaw32(a: bv32, b: bv32, x: bv32, y: bv32)
    requires x == a ^ b && y == (a >> 1) ^ (b >> 1)
    ensures x >> 1 == y
  {}

  lemma XorShift32(a: bv32, b: bv32)
    ensures Xor32(a, b) >> 1 == Xor32(a >> 1, b >> 1)
  {
    ShiftRaw32(a, b, Xor32(a, b), Xor32(a >> 1, b >> 1));
  }

  lemma XorLowBit32(a: bv32, b: bv32)
    ensures (Xor32(a, b) & 1 == 1) == ((a & 1 == 1) != (b & 1 == 1))
  {}

  lemma XorAssoc16(a: bv16, b: bv16, c: bv16)
    ensures Xor16(Xor16(a, b), c) == Xor16(a, Xor16(b, c))
  {}

  lemma XorComm16(a: bv16, b: bv16)
    ensures Xor16(a, b) == Xor16(b, a)
  {}

  lemma XorCancel16(a: bv16, b: bv16)
    ensures Xor16(a, Xor16(a, b)) == b
  {}

  lemma ShiftRaw16(a: bv16, b: bv16, x: bv16, y: bv16)
    requires x == a ^ b && y == (a >> 1) ^ (b >> 1)
    ensures x >> 1 == y
  {}

  lemma XorShift16(a: bv16, b: bv16)
    ensures Xor16(a, b) >> 1 == Xor16(a >> 1, b >> 1)
  {
    ShiftRaw16(a, b, Xor16(a, b), Xor16(a >> 1, b >> 1));
  }

  lemma XorLowBit16(a: bv16, b: bv16)
    ensures (Xor16(a, b) & 1 == 1) == ((a & 1 == 1) != (b & 1 == 1))
  {}

  lemma StepLinear32(a: bv32, b: bv32)
    ensures Step32(Xor32(a, b)) == Xor32(Step32(a), Step32(b))
  {
    hide Xor32;
    var a1, b1 := a >> 1, b >> 1;
    XorShift32(a, b);
    XorLowBit32(a, b);
    XorAssoc32(CRC32_POLY, a1, b1);
    XorAssoc32(a1, CRC32_POLY, b1);
    XorComm32(a1, CRC32_POLY);
    XorAssoc32(CRC32_POLY, a1, Xor32(CRC32_POLY, b1));
    XorCancel32(CRC32_POLY, Xor32(a1, b1));
  }

  lemma StepLinear16(poly: bv16, a: bv16, b: bv16)
    ensures Step16(poly, Xor16(a, b)) == Xor16(Step16(poly, a), Step16(poly, b))
  {
    hide Xor16;
    var a1, b1 := a >> 1, b >> 1;
    XorShift16(a, b);
    XorLowBit16(a, b);
    XorAssoc16(poly, a1, b1);
    XorAssoc16(a1, poly, b1);
    XorComm16(a1, poly);
    XorAssoc16(poly, a1, Xor16(poly, b1));
    XorCancel16(poly, Xor16(a1, b1));
  }

  /** The register step is linear over exclusive-or, any number of steps at a time. */
  lemma {:induction false} StepsLinear32(a: bv32, b: bv32, n: nat)
    ensures Steps32(Xor32(a, b), n) == Xor32(Steps32(a, n), Steps32(b, n))
    decreases n
  {
    hide Step32, Xor32;
    if n > 0 {
      StepLinear32(a, b);
      StepsLinear32(Step32(a), Step32(b), n - 1);
    }
  }

  lemma {:induction false} StepsLinear16(poly: bv16, a: bv16, b: bv16, n: nat)
    ensures Steps16(poly, Xor16(a, b), n) == Xor16(Steps16(poly, a, n), Steps16(poly, b, n))
    decreases n
  {
    hide Step16, Xor16;
    if n > 0 {
      StepLinear16(poly, a, b);
      StepsLinear16(poly, Step16(poly, a), Step16(poly, b), n - 1);
    }
  }

  function Shifted(b: byte, n: nat): byte
    decreases n
  {
    if n == 0 then b else Shifted(b >> 1, n - 1)
  }

  /** The bits of a byte are fed lowest first. */
  lemma {:induction false} LowBitsAt(b: byte, n: nat, i: nat)
    requires i < n
    ensures |LowBits(b, n)| == n && LowBits(b, n)[i] == (Shifted(b, i) & 1 == 1)
    decreases n
  {
    if n > 1 {
      LowBitsAt(b >> 1, n - 1, if i > 0 then i - 1 else 0);
    }
  }

  lemma ShiftedOut(b: byte)
    ensures Shifted(b, 8) == 0
  {
    assert Shifted(b, 8) == Shifted(b >> 1 >> 1, 6) == Shifted(b >> 1 >> 1 >> 1 >> 1, 4);
    assert Shifted(b, 8) == Shifted(b >> 1 >> 1 >> 1 >> 1 >> 1 >> 1, 2);
  }

  /** One step over a register with a message byte folded in takes the byte's lowest bit. */
  lemma FoldedBit32(r: bv32, b: byte)
    ensures Step32(Xor32(r, b as bv32)) == Xor32(FeedBit32(r, b & 1 == 1), (b >> 1) as bv32)
  {
    var even := (b & 0xfe) as bv32;
    assert Step32(even) == (b >> 1) as bv32;
    if b & 1 == 1 {
      assert b as bv32 == Xor32(1, even);
      XorAssoc32(r, 1, even);
      StepLinear32(Xor32(r, 1), even);
    } else {
      assert b as bv32 == even;
      StepLinear32(r, even);
    }
  }

  lemma FoldedBit16(poly: bv16, r: bv16, b: byte)
    ensures Step16(poly, Xor16(r, b as bv16)) == Xor16(FeedBit16(poly, r, b & 1 == 1), (b >> 1) as bv16)
  {
    var even := (b & 0xfe) as bv16;
    assert Step16(poly, even) == (b >> 1) as bv16;
    if b & 1 == 1 {
      assert b as bv16 == Xor16(1, even);
      XorAssoc16(r, 1, even);
      StepLinear16(poly, Xor16(r, 1), even);
    } else {
      assert b as bv16 == even;
      StepLinear16(poly, r, even);
    }
  }

  lemma {:induction false} FoldedBits32(r: bv32, b: byte, n: nat)
    ensures Steps32(Xor32(r, b as bv32), n) == Xor32(FeedBits32(r, LowBits(b, n)), Shifted(b, n) as bv32)
    decreases n
  {
    hide FeedBit32, Step32, Xor32;
    if n > 0 {
      FoldedBit32(r, b);
      FoldedBits32(FeedBit32(r, b & 1 == 1), b >> 1, n - 1);
      assert LowBits(b, n)[1..] == LowBits(b >> 1, n - 1);
    }
  }

  lemma {:induction false} FoldedBits16(poly: bv16, r: bv16, b: byte, n: nat)
    ensures Steps16(poly, Xor16(r, b as bv16), n) ==
            Xor16(FeedBits16(poly, r, LowBits(b, n)), Shifted(b, n) as bv16)
    decreases n
  {
    hide FeedBit16, Step16, Xor16;
    if n > 0 {
      FoldedBit16(poly, r, b);
      FoldedBits16(poly, FeedBit16(poly, r, b & 1 == 1), b >> 1, n - 1);
      assert LowBits(b, n)[1..] == LowBits(b >> 1, n - 1);
    }
  }

  lemma Unfold32(x: bv32)
    ensures Steps32(x, 8) == Steps32(Step32(Step32(Step32(Step32(x)))), 4)
    ensures Steps32(x, 4) == Step32(Step32(Step32(Step32(x))))
  {
    hide Step32, Xor32;
    var y := Step32(Step32(x));
    assert Steps32(x, 8) == Steps32(y, 6);
    assert Steps32(x, 4) == Steps32(y, 2);
  }

  lemma EvenSteps32(x: bv32)
    requires x & 0xf == 0
    ensures Step32(Step32(Step32(Step32(x)))) == x >> 4
  {}

  /** Eight steps over a register whose low byte is zero only shift it. */
  lemma HighByteSteps32(x: bv32)
    requires x & 0xff == 0
    ensures Steps32(x, 8) == x >> 8
  {
    assert x & 0xf == 0 && (x >> 4) & 0xf == 0 && (x >> 4) >> 4 == x >> 8;
    hide Step32;
    EvenSteps32(x);
    EvenSteps32(x >> 4);
    Unfold32(x);
    Unfold32(x >> 4);
  }

  lemma HighPartShifts32(c: bv32, b: byte, x: bv32)
    requires x == c ^ b as bv32
    ensures HighPart32(x) >> 8 == c >> 8
    ensures HighPart32(x) & 0xff == 0
  {}

  lemma SplitLowByte32(x: bv32)
    ensures x == Xor32(LowByte32(x) as bv32, HighPart32(x))
  {}

  lemma TableByteAt32(c: bv32, b: byte, low: bv32, high: bv32)
    requires Xor32(c, b as bv32) == Xor32(low, high) && high & 0xff == 0
    ensures Xor32(Steps32(low, 8), high >> 8) == FeedByte32(c, b)
  {
    hide Xor32, Step32, Steps32, FeedBits32, LowBits, Shifted;
    StepsLinear32(low, high, 8);
    HighByteSteps32(high);
    FoldedBits32(c, b, 8);
    ShiftedOut(b);
    XorZero32(FeedByte32(c, b));
  }

  /** The table-driven byte step is eight bit-serial steps, for every register and byte. */
  lemma TableByte32(c: bv32, b: byte)
    ensures Xor32(Entry32(LowByte32(Xor32(c, b as bv32))), c >> 8) == FeedByte32(c, b)
  {
    hide Step32, Steps32, FeedByte32, LowByte32, HighPart32;
    var x := Xor32(c, b as bv32);
    HighPartShifts32(c, b, x);
    hide Xor32;
    SplitLowByte32(x);
    TableByteAt32(c, b, LowByte32(x) as bv32, HighPart32(x));
  }

  lemma XorZero32(a: bv32)
    ensures Xor32(a, 0) == a
  {}

  lemma Unfold16(poly: bv16, x: bv16)
    ensures Steps16(poly, x, 8) == Steps16(poly, Step16(poly, Step16(poly, Step16(poly, Step16(poly, x)))), 4)
    ensures Steps16(poly, x, 4) == Step16(poly, Step16(poly, Step16(poly, Step16(poly, x))))
  {
    hide Step16, Xor16;
    var y := Step16(poly, Step16(poly, x));
    assert Steps16(poly, x, 8) == Steps16(poly, y, 6);
    assert Steps16(poly, x, 4) == Steps16(poly, y, 2);
  }

  lemma EvenSteps16(poly: bv16, x: bv16)
    requires x & 0xf == 0
    ensures Step16(poly, Step16(poly, Step16(poly, Step16(poly, x)))) == x >> 4
  {}

  /** Eight steps over a register whose low byte is zero only shift it. */
  lemma HighByteSteps16(poly: bv16, x: bv16)
    requires x & 0xff == 0
    ensures Steps16(poly, x, 8) == x >> 8
  {
    assert x & 0xf == 0 && (x >> 4) & 0xf == 0 && (x >> 4) >> 4 == x >> 8;
    hide Step16;
    EvenSteps16(poly, x);
    EvenSteps16(poly, x >> 4);
    Unfold16(poly, x);
    Unfold16(poly, x >> 4);
  }

  lemma HighPartShifts16(c: bv16, b: byte, x: bv16)
    requires x == c ^ b as bv16
    ensures HighPart16(x) >> 8 == c >> 8
    ensures HighPart16(x) & 0xff == 0
  {}

  lemma SplitLowByte16(x: bv16)
    ensures x == Xor16(LowByte16(x) as bv16, HighPart16(x))
  {}

  lemma TableByteAt16(poly: bv16, c: bv16, b: byte, low: bv16, high: bv16)
    requires Xor16(c, b as bv16) == Xor16(low, high) && high & 0xff == 0
    ensures Xor16(Steps16(poly, low, 8), high >> 8) == FeedByte16(poly, c, b)
  {
    hide Xor16, Step16, Steps16, FeedBits16, LowBits, Shifted;
    StepsLinear16(poly, low, high, 8);
    HighByteSteps16(poly, high);
    FoldedBits16(poly, c, b, 8);
    ShiftedOut(b);
    XorZero16(FeedByte16(poly, c, b));
  }

  /** The table-driven byte step is eight bit-serial steps, for every register and byte. */
  lemma TableByte16(poly: bv16, c: bv16, b: byte)
    ensures Xor16(Entry16(poly, LowByte16(Xor16(c, b as bv16))), c >> 8) == FeedByte16(poly, c, b)
  {
    hide Step16, Steps16, FeedByte16, LowByte16, HighPart16;
    var x := Xor16(c, b as bv16);
    HighPartShifts16(c, b, x);
    hide Xor16;
    SplitLowByte16(x);
    TableByteAt16(poly, c, b, LowByte16(x) as bv16, HighPart16(x));
  }

  lemma XorZero16(a: bv16)
    ensures Xor16(a, 0) == a
  {}

  // ---------- What callers rely on ----------

  /** The value `crc32_compute` returns: the complemented register. */
  function Crc32(accum: bv32, data: seq<byte>): bv32 {
    Not32(Serial32(accum, data))
  }

  lemma NotNot32(a: bv32)
    ensures Not32(Not32(a)) == a
  {}

  /** Passing the complement of one result on to the next call continues the same message. */
  lemma Crc32Chained(accum: bv32, a: seq<byte>, b: seq<byte>)
    ensures Crc32(Not32(Crc32(accum, a)), b) == Crc32(accum, a + b)
  {
    hide Serial32, Not32;
    NotNot32(Serial32(accum, a));
    Serial32Concat(accum, a, b);
  }

  /** The lowest `n` bytes of a word, lowest first, as the hash loops shift them out. */
  function WordBytes(val: bv32, n: nat): (s: seq<byte>)
    ensures |s| == n
    decreases n
  {
    if n == 0 then [] else [LowByte32(val)] + WordBytes(val >> 8, n - 1)
  }

  /** The hash of a word: its bit-serial CRC from a zero register. */
  function HashU32(poly: bv16, val: bv32): bv32 {
    Widen(Serial16(poly, 0, WordBytes(val, 4)))
  }

  // ---------- The tables and the code that uses them ----------

  ghost predicate Table32(t: seq<bv32>) {
    |t| == 256 && forall i :: 0 <= i < 256 ==> t[i] == Entry32(ByteOf(i))
  }

  ghost predicate Table16(poly: bv16, t: seq<bv16>) {
    |t| == 256 && forall i :: 0 <= i < 256 ==> t[i] == Entry16(poly, ByteOf(i))
  }

  lemma Lookup32(t: seq<bv32>, c: bv32, b: byte)
    requires Table32(t)
    ensures Xor32(t[Index(LowByte32(Xor32(c, b as bv32)))], c >> 8) == FeedByte32(c, b)
  {
    hide Xor32, LowByte32, ByteOf, Index, Entry32, FeedByte32;
    ByteOfIndex(LowByte32(Xor32(c, b as bv32)));
    TableByte32(c, b);
  }

  lemma Lookup16(poly: bv16, t: seq<bv16>, c: bv16, b: byte)
    requires Table16(poly, t)
    ensures Xor16(t[Index(LowByte16(Xor16(c, b as bv16)))], c >> 8) == FeedByte16(poly, c, b)
  {
    hide Xor16, LowByte16, ByteOf, Index, Entry16, FeedByte16;
    ByteOfIndex(LowByte16(Xor16(c, b as bv16)));
    TableByte16(poly, c, b);
  }

  /** Shifting register and message byte side by side is shifting their exclusive-or. */
  lemma PairedStep16(poly: bv16, crc: bv16, c: bv16)
    ensures Step16(poly, Xor16(crc, c)) ==
            Xor16(if Xor16(crc, c) & 1 == 1 then Xor16(crc >> 1, poly) else crc >> 1, c >> 1)
  {
    XorShift16(crc, c);
    XorAssoc16(poly, crc >> 1, c >> 1);
    XorComm16(poly, crc >> 1);
    hide Xor16;
  }

  class CrcTables {
    const crc12Array: array<bv16>
    const crc16Array: array<bv16>
    const crc32Array: array<bv32>

    ghost predicate Valid()
      reads this, crc12Array, crc16Array, crc32Array
    {
      && Table16(CRC12_POLY, crc12Array[..])
      && Table16(CRC16_POLY, crc16Array[..])
      && Table32(crc32Array[..])
    }

    constructor ()
      ensures Valid()
      ensures fresh(crc12Array) && fresh(crc16Array) && fresh(crc32Array)
    {
      crc12Array := new bv16[256];
      crc16Array := new bv16[256];
      crc32Array := new bv32[256];
      new;
      InitReflected16(crc12Array, CRC12_POLY);
      InitReflected16(crc16Array, CRC16_POLY);
      Init32(crc32Array);
    }

    /** Fills a 16-bit table: the message byte and the register are shifted side by side. */
    static method InitReflected16(table: array<bv16>, poly: bv16)
      requires table.Length == 256
      modifies table
      ensures Table16(poly, table[..])
    {
      hide Xor16, ByteOf;
      for i := 0 to 256
        invariant forall k :: 0 <= k < i ==> table[k] == Entry16(poly, ByteOf(k))
      {
        var crc: bv16 := 0;
        var c := ByteOf(i) as bv16;
        XorZero16(c);
        XorComm16(crc, c);
        ghost var rest := ByteOf(i);
        for j := 0 to 8
          invariant Steps16(poly, Xor16(crc, c), 8 - j) == Entry16(poly, ByteOf(i))
          invariant forall k :: 0 <= k < i ==> table[k] == Entry16(poly, ByteOf(k))
          invariant c == rest as bv16 && Shifted(rest, 8 - j) == Shifted(ByteOf(i), 8)
        {
          PairedStep16(poly, crc, c);
          if Xor16(crc, c) & 1 == 1 {
            crc := Xor16(crc >> 1, poly);
          } else {
            crc := crc >> 1;
          }
          c := c >> 1;
          rest := rest >> 1;
        }
        ShiftedOut(ByteOf(i));
        XorZero16(crc);
        assert c == 0;
        table[i] := crc;
      }
    }

    static method Init32(table: array<bv32>)
      requires table.Length == 256
      modifies table
      ensures Table32(table[..])
    {
      for n := 0 to 256
        invariant forall k :: 0 <= k < n ==> table[k] == Entry32(ByteOf(k))
      {
        hide Xor32, ByteOf, Step32, Steps32;
        var c := ByteOf(n) as bv32;
        for k := 0 to 8
          invariant Steps32(c, 8 - k) == Entry32(ByteOf(n))
          invariant forall k :: 0 <= k < n ==> table[k] == Entry32(ByteOf(k))
        {
          OneStep32(c, 8 - k);
          if c & 1 == 1 {
            c := Xor32(CRC32_POLY, c >> 1);
          } else {
            c := c >> 1;
          }
        }
        NoSteps32(c);
        table[n] := c;
      }
    }

    method Compute32(accum: bv32, data: seq<byte>) returns (crc: bv32)
      requires Valid()
      ensures crc == Crc32(accum, data)
    {
      hide Xor32, LowByte32, FeedByte32, Index, Entry32;
      var c := accum;
      for n := 0 to |data|
        invariant Serial32(accum, data) == Serial32(c, data[n..])
      {
        Lookup32(crc32Array[..], c, data[n]);
        c := Xor32(crc32Array[Index(LowByte32(Xor32(c, data[n] as bv32)))], c >> 8);
        assert data[n..][1..] == data[n + 1..];
      }
      crc := Not32(c);
    }

    method HashU32Crc12(val: bv32) returns (crc: bv32)
      requires Valid()
      ensures crc == HashU32(CRC12_POLY, val)
    {
      crc := HashLoop(crc12Array, CRC12_POLY, val);
    }

    method HashU32Crc16(val: bv32) returns (crc: bv32)
      requires Valid()
      ensures crc == HashU32(CRC16_POLY, val)
    {
      crc := HashLoop(crc16Array, CRC16_POLY, val);
    }

    /** The loop the two hashes share; the accumulator is 32 bits wide, the table 16. */
    static method HashLoop(table: array<bv16>, ghost poly: bv16, value: bv32) returns (crc: bv32)
      requires Table16(poly, table[..])
      ensures crc == HashU32(poly, value)
    {
      assert Widen(0) == 0;
      hide Widen, Xor32, LowByte32, FeedByte16, Index, Serial16, WordBytes, Table16, HashU32;
      crc := 0;
      var val := value;
      ghost var reg: bv16 := 0;
      HashStart(poly, value);
      for i := 0 to 4
        invariant crc == Widen(reg)
        invariant HashU32(poly, value) == Widen(Serial16(poly, reg, WordBytes(val, 4 - i)))
      {
        HashStep(table[..], poly, reg, val, 4 - i);
        crc := Xor32(Widen(table[Index(LowByte32(Xor32(crc, val)))]), crc >> 8);
        reg := FeedByte16(poly, reg, LowByte32(val));
        val := val >> 8;
      }
      NoBytes(poly, reg, val);
    }
  }

  lemma HashStart(poly: bv16, value: bv32)
    ensures HashU32(poly, value) == Widen(Serial16(poly, 0, WordBytes(value, 4)))
  {
    hide Widen, Serial16, WordBytes;
  }

  lemma NoBytes(poly: bv16, reg: bv16, val: bv32)
    ensures Serial16(poly, reg, WordBytes(val, 0)) == reg
  {}

  lemma WordBytesStep(poly: bv16, reg: bv16, val: bv32, n: nat)
    requires n > 0
    ensures Serial16(poly, reg, WordBytes(val, n)) ==
            Serial16(poly, FeedByte16(poly, reg, LowByte32(val)), WordBytes(val >> 8, n - 1))
  {
    hide FeedByte16, LowByte32;
    assert WordBytes(val, n)[1..] == WordBytes(val >> 8, n - 1);
  }

  lemma HashStep(t: seq<bv16>, poly: bv16, reg: bv16, val: bv32, n: nat)
    requires Table16(poly, t) && n > 0
    ensures Xor32(Widen(t[Index(LowByte32(Xor32(Widen(reg), val)))]), Widen(reg) >> 8) ==
            Widen(FeedByte16(poly, reg, LowByte32(val)))
    ensures Serial16(poly, reg, WordBytes(val, n)) ==
            Serial16(poly, FeedByte16(poly, reg, LowByte32(val)), WordBytes(val >> 8, n - 1))
  {
    hide Widen, Xor32, Xor16, LowByte32, LowByte16, FeedByte16, Index, Serial16, WordBytes, Entry16;
    HashIndex(reg, val);
    Lookup16(poly, t, reg, LowByte32(val));
    WidenXor(t[Index(LowByte32(Xor32(Widen(reg), val)))], reg);
    WordBytesStep(poly, reg, val, n);
  }

  lemma HashIndex(reg: bv16, val: bv32)
    ensures LowByte32(Xor32(Widen(reg), val)) == LowByte16(Xor16(reg, LowByte32(val) as bv16))
  {}

  lemma WidenXor(entry: bv16, reg: bv16)
    ensures Xor32(Widen(entry), Widen(reg) >> 8) == Widen(Xor16(entry, reg >> 8))
  {}
}
