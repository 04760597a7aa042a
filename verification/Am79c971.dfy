/** The Am79c971 Ethernet controller: registers, reception and transmission over the descriptor rings. */
module Am79c971 {
  import opened Bytes
  import opened PhysMem
  import opened DescRing
  import opened RxRing
  import opened ChipRegs
  import opened ChipRuns
  import RxScatter
  import TxRing

  const TXRING_PASS_COUNT := 16

  /** `Low8` of BCR20 selects the descriptor format. */
  function Low8(w: bv32): bv32 { w & 0xff }

  function Joined(high: bv32, low: bv32): bv32 { (high << 16) | low }
  function ByteAt(w: bv32, n: bv6): byte
    requires n <= 32
  {
    ((w >> n) & 0xff) as byte
  }

  /** The station address in words 1 and 2 of the initialization block, least significant byte first. */
  function MacOf(w1: bv32, w2: bv32): (m: seq<byte>)
    ensures |m| == 6
  {
    [ByteAt(w1, 0), ByteAt(w1, 8), ByteAt(w1, 16), ByteAt(w1, 24), ByteAt(w2, 0), ByteAt(w2, 8)]
  }

  /** The station address of the initialization block at `addr`. */
  function BlockMac(ram: seq<byte>, addr: nat): (m: seq<byte>)
    ensures |m| == 6
  {
    MacOf(InitWord(ram, addr, 1), InitWord(ram, addr, 2))
  }

  /** The address as a guest stores it, with anything above it in word 2, reads back byte for byte. */
  lemma MacReadsBack(a: byte, b: byte, c: byte, d: byte, e: byte, f: byte, rest: bv32)
    ensures MacOf(((d as bv32) << 24) | ((c as bv32) << 16) | ((b as bv32) << 8) | (a as bv32),
                  (rest << 16) | ((f as bv32) << 8) | (e as bv32)) == [a, b, c, d, e, f]
  {}

  /** The first word of an initialization block: mode, receive ring size, transmit ring size. */
  function ModeWord(mode: bv32, rxSize: bv32, txSize: bv32): bv32 { mode | (rxSize << 20) | (txSize << 28) }

  /** A block as a guest lays it out: mode and sizes, station address, address filter, receive ring, transmit
      ring. */
  function BlockBytes(mode: bv32, rxSize: bv32, txSize: bv32, mac: seq<byte>, filter: seq<byte>, rx: bv32, tx: bv32)
    : (b: seq<byte>)
    requires |mac| == 6 && |filter| == 8
    ensures |b| == 28
  {
    Be32(ModeWord(mode, rxSize, txSize)) + [mac[3], mac[2], mac[1], mac[0], 0, 0, mac[5], mac[4]] + filter +
    Be32(rx) + Be32(tx)
  }

  lemma ModeWordFields(mode: bv32, rxSize: bv32, txSize: bv32)
    requires mode < 0x1_0000 && rxSize < 16 && txSize < 16
    ensures Low16(ModeWord(mode, rxSize, txSize)) == mode
    ensures Shifted(ModeWord(mode, rxSize, txSize), 20) & 0xf == rxSize
    ensures Shifted(ModeWord(mode, rxSize, txSize), 28) & 0xf == txSize
  {}

  lemma NibbleIs(w: bv32, size: bv32)
    requires w & 0xf == size
    ensures Nibble(w) == size as nat
  {}

  lemma MacWords(m: seq<byte>)
    requires |m| == 6
    ensures MacOf(GetBe32([m[3], m[2], m[1], m[0]]), GetBe32([0, 0, m[5], m[4]])) == m
  {
    var t := MacOf(GetBe32([m[3], m[2], m[1], m[0]]), GetBe32([0, 0, m[5], m[4]]));
    assert t[0] == m[0] && t[1] == m[1] && t[2] == m[2] && t[3] == m[3] && t[4] == m[4] && t[5] == m[5];
  }

  lemma BlockWords(ram: seq<byte>, addr: nat, b: seq<byte>)
    requires |b| == 28 && Load(ram, addr, 28) == b
    ensures forall i :: 0 <= i < 7 ==> InitWord(ram, addr, i) == GetBe32(b[4 * i..4 * i + 4])
  {
    hide GetBe32;
    forall i | 0 <= i < 7
      ensures InitWord(ram, addr, i) == GetBe32(b[4 * i..4 * i + 4])
    {
      assert Load(ram, addr + 4 * i, 4) == b[4 * i..4 * i + 4];
    }
  }

  /** A block that a guest has laid out in memory is read field by field as it was meant. */
  lemma BlockReadsBack(ram: seq<byte>, addr: nat, mode: bv32, rxSize: bv32, txSize: bv32,
                       mac: seq<byte>, filter: seq<byte>, rx: bv32, tx: bv32)
    requires mode < 0x1_0000 && rxSize < 16 && txSize < 16 && |mac| == 6 && |filter| == 8
    requires Load(ram, addr, 28) == BlockBytes(mode, rxSize, txSize, mac, filter, rx, tx)
    ensures ReadInitBlock(ram, addr) ==
            InitBlock(mode, RingLen(rxSize as nat), RingLen(txSize as nat), rx, tx)
    ensures BlockMac(ram, addr) == mac
  {
    hide Load, GetBe32, Be32, InitWord, Low16, Shifted, Nibble, RingLen, MacOf, ModeWord;
    var b, w := BlockBytes(mode, rxSize, txSize, mac, filter, rx, tx), ModeWord(mode, rxSize, txSize);
    BlockWords(ram, addr, b);
    assert b[0..4] == Be32(w) && b[20..24] == Be32(rx) && b[24..28] == Be32(tx);
    assert b[4..8] == [mac[3], mac[2], mac[1], mac[0]] && b[8..12] == [0, 0, mac[5], mac[4]];
    assert InitWord(ram, addr, 0) == GetBe32(b[0..4]) && InitWord(ram, addr, 1) == GetBe32(b[4..8]);
    assert InitWord(ram, addr, 2) == GetBe32(b[8..12]);
    assert InitWord(ram, addr, 5) == GetBe32(b[20..24]) && InitWord(ram, addr, 6) == GetBe32(b[24..28]);
    WordOfBe32(w);
    WordOfBe32(rx);
    WordOfBe32(tx);
    ModeWordFields(mode, rxSize, txSize);
    NibbleIs(Shifted(w, 20), rxSize);
    NibbleIs(Shifted(w, 28), txSize);
    MacWords(mac);
  }

  lemma Halves(a: bv32)
    ensures Joined(a >> 16, a & 0xffff) == a
  {}

  /** The size fields of CSR6. */
  function Sizes(tx: bv32, rx: bv32): bv32 { (tx << 12) | (rx << 8) }
  function Nibble32(w: bv32): bv32 { w & 0xf }

  /** The two sizes written to CSR6 read back from it. */
  lemma SizesReadBack(v: bv32)
    ensures Sizes(Nibble32(Shifted(v, 12)), Nibble32(Shifted(v, 8))) == v & 0xff00
  {}

  lemma NibbleTwice(w: bv32)
    ensures Nibble(Nibble32(w)) == Nibble(w)
  {}

  lemma GroupBit(b: byte)
    ensures b & 1 != 0 <==> b % 2 == 1
    ensures b == 0xff ==> b % 2 == 1
  {}

  lemma Low8Below(w: bv32)
    ensures Address(Low8(w)) < 256
  {}

  /** The emulated parts, with the identifier that CSR88 gives for each. */
  datatype Interface = BaseTx | BaseT | OtherKind

  function ChipId(kind: Interface): bv32 {
    if kind == BaseTx then 0x0262_3003 else if kind == BaseT then 0x0262_1003 else 0
  }

  /** What goes on the wire for a gathered frame: nothing if it is empty, else the frame after the ISL rewrite. */
  function Wire(rewrite: seq<byte> -> seq<byte>, frame: seq<byte>): seq<seq<byte>> {
    if frame == [] then [] else [rewrite(frame)]
  }

  function WireAll(rewrite: seq<byte> -> seq<byte>, frames: seq<seq<byte>>): seq<seq<byte>> {
    if frames == [] then []
    else WireAll(rewrite, frames[..|frames| - 1]) + Wire(rewrite, frames[|frames| - 1])
  }

  /** The packet for a chain: the ISL rewrite of the bytes found in its buffers. */
  function PacketOf(rewrite: seq<byte> -> seq<byte>, m: seq<byte>, s: Span): seq<byte> {
    rewrite(Collected(m, s.ds, Room(s.ds, |s.ds|), |s.ds|))
  }

  /** One packet for each of the first `n` chains, in order. */
  ghost predicate Carries(rewrite: seq<byte> -> seq<byte>, m: seq<byte>, q: seq<Span>, n: nat, pkts: seq<seq<byte>>)
    requires n <= |q|
  {
    |pkts| == n && forall i :: 0 <= i < n ==> pkts[i] == PacketOf(rewrite, m, q[i])
  }

  /** A frame goes on the wire whole, and an empty one not at all. */
  lemma WireCarries(rewrite: seq<byte> -> seq<byte>, m: seq<byte>, s: Span)
    ensures var k := |s.ds|;
            Wire(rewrite, TxRing.Gather(m, s.ds, k)) == if Room(s.ds, k) == 0 then [] else [PacketOf(rewrite, m, s)]
  {
    hide Room, Len;
    TxRing.GatherIsCollected(m, s.ds, Room(s.ds, |s.ds|), |s.ds|);
  }

  ghost predicate NoneEmpty(q: seq<Span>, n: nat)
    requires n <= |q|
  {
    forall i :: 0 <= i < n ==> Room(q[i].ds, |q[i].ds|) > 0
  }

  lemma {:induction false} WireAllCarries(rewrite: seq<byte> -> seq<byte>, m: seq<byte>, q: seq<Span>, n: nat)
    requires n <= |q| && NoneEmpty(q, n)
    ensures Carries(rewrite, m, q, n, WireAll(rewrite, TxRing.Frames(m, q, n)))
  {
    hide Room, PacketOf, TxRing.Gather, Wire;
    if n > 0 {
      WireAllCarries(rewrite, m, q, n - 1);
      var f, last := TxRing.Frames(m, q, n - 1), TxRing.Gather(m, q[n - 1].ds, |q[n - 1].ds|);
      assert (f + [last])[..n - 1] == f;
      WireCarries(rewrite, m, q[n - 1]);
    }
  }

  /** Loopback over the wire: what a chip without ISL rewriting sends for a chain, received by another chip,
      is in that chip's buffers what it was in the sender's. */
  lemma WireLoopback(rewrite: seq<byte> -> seq<byte>, r: Ring, m: seq<byte>, s: Span,
                     r': Ring, m': seq<byte>, start: nat, k: nat)
    requires forall x :: rewrite(x) == x
    requires TxRing.Chain(r, m, s, true) && Room(s.ds, |s.ds|) > 0
    requires start < r'.len && 1 <= k <= r'.len && RxScatter.Layout(r', m', SpanOf(r', m', start, k))
    requires RxScatter.Fits(SpanOf(r', m', start, k), Room(s.ds, |s.ds|))
    ensures Owned(W1(m', r', start))
    ensures var pkts, n := Wire(rewrite, TxRing.Gather(m, s.ds, |s.ds|)), Room(s.ds, |s.ds|);
            && |pkts| == 1 && |pkts[0]| == n
            && var e := Reception(r', m', start, pkts[0]);
               Collected(ApplyAll(m', e.writes), SpanOf(r', m', start, k).ds, n, k) == Collected(m, s.ds, n, |s.ds|)
  {
    hide TxRing.Chain, RxScatter.Layout, RxScatter.Fits, SpanOf, Room, Collected, Reception, ApplyAll, Owned, W1;
    WireCarries(rewrite, m, s);
    TxRing.GatherIsCollected(m, s.ds, Room(s.ds, |s.ds|), |s.ds|);
    TxRing.Loopback(r, m, s, r', m', start, k);
  }

  /** How one more chain extends what has been sent. */
  lemma SendStep(rewrite: seq<byte> -> seq<byte>, g: Regs, r: Ring, m: seq<byte>, q: seq<Span>, n: nat)
    requires n < |q| && TxRing.Shaped(q)
    ensures WireAll(rewrite, TxRing.Frames(m, q, n + 1)) ==
            WireAll(rewrite, TxRing.Frames(m, q, n)) + Wire(rewrite, TxRing.Gather(m, q[n].ds, |q[n].ds|))
    ensures Run(g, Departures(r, q, n + 1)) ==
            Step(Run(g, Departures(r, q, n)), Transmit(Next(r, TxRing.Last(q[n]))))
  {
    hide Step, Next, TxRing.Gather, Wire;
    var f := TxRing.Frames(m, q, n);
    assert (f + [TxRing.Gather(m, q[n].ds, |q[n].ds|)])[..|f|] == f;
    RunSnoc(g, Departures(r, q, n), Transmit(Next(r, TxRing.Last(q[n]))));
  }

  /** Where a pass over the transmit ring is. */
  datatype Passing = Passing(ring: Ring, ram: seq<byte>, pos: nat, sent: seq<seq<byte>>, control: Regs)

  /** `p` is `start` after the first `n` chains of the queue. */
  ghost predicate Passed(rewrite: seq<byte> -> seq<byte>, start: Passing, p: Passing,
                         q: seq<Span>, t: seq<Span>, n: nat)
    requires n <= |q|
  {
    && TxRing.Shaped(q) && TxRing.Shaped(t) && p.ring == start.ring
    && TxRing.QueueLeft(p.ring, p.ram, start.ram, p.pos, q, t, n)
    && p.ram == TxRing.SentMemory(p.ring, start.ram, q, n)
    && p.sent == start.sent + WireAll(rewrite, TxRing.Frames(start.ram, q, n))
    && p.control == Run(start.control, Departures(p.ring, q, n))
  }

  lemma PassedNone(rewrite: seq<byte> -> seq<byte>, start: Passing, q: seq<Span>, t: seq<Span>)
    requires TxRing.Queue(start.ring, start.ram, start.pos, q, t)
    ensures Passed(rewrite, start, start, q, t, 0)
  {
    hide TxRing.Queue;
    TxRing.QueueShaped(start.ring, start.ram, start.pos, q, t);
    assert q[0..] == q;
  }

  lemma PassedGives(rewrite: seq<byte> -> seq<byte>, start: Passing, p: Passing, q: seq<Span>, t: seq<Span>, n: nat)
    requires n <= |q| && Passed(rewrite, start, p, q, t, n)
    ensures TxRing.Shaped(q) && TxRing.Shaped(t) && p.ring == start.ring
    ensures TxRing.Queue(p.ring, p.ram, p.pos, q[n..], t) && p.ram == TxRing.SentMemory(p.ring, start.ram, q, n)
    ensures p.sent == start.sent + WireAll(rewrite, TxRing.Frames(start.ram, q, n))
    ensures p.control == Run(start.control, Departures(p.ring, q, n))
  {
    hide TxRing.Queue, TxRing.SentMemory, TxRing.Frames, WireAll, Run, Departures;
  }

  lemma PassedNext(rewrite: seq<byte> -> seq<byte>, start: Passing, p: Passing, q: seq<Span>, t: seq<Span>, n: nat)
    requires n < |q| && Passed(rewrite, start, p, q, t, n)
    ensures |q[n].ps| > 0 && q[n].ps[0] == p.pos && TxRing.Chain(p.ring, p.ram, q[n], true)
    ensures Owned(W1(p.ram, p.ring, p.pos)) && |q[n].ds| == |q[n].ps|
    ensures var after := Next(p.ring, TxRing.Last(q[n]));
            Passed(rewrite, start,
                   Passing(p.ring, ApplyAll(p.ram, TxRing.TxWrites(p.ring, q[n], true)), after,
                           p.sent + Wire(rewrite, TxRing.Gather(p.ram, q[n].ds, |q[n].ds|)),
                           Step(p.control, Transmit(after))), q, t, n + 1)
  {
    hide Owned, W1, Next, TxRing.Chain, ApplyAll, TxRing.TxWrites, TxRing.Gather;
    hide Wire, WireAll, Run, Step, TxRing.Frames, TxRing.QueueLeft;
    TxRing.QueueLeftStep(p.ring, p.ram, start.ram, p.pos, q, t, n);
    SendStep(rewrite, start.control, p.ring, start.ram, q, n);
    TxRing.ChainAt(p.ring, p.ram, q[n], true, 0);
    TxRing.Word1Of(p.ram, p.ring, p.pos);
  }

  lemma PassedAll(rewrite: seq<byte> -> seq<byte>, start: Passing, p: Passing, q: seq<Span>, t: seq<Span>)
    requires Passed(rewrite, start, p, q, t, |q|)
    ensures TxRing.Shaped(t) && (t == [] ==> !Owned(W1(p.ram, p.ring, p.pos)))
    ensures t != [] ==>
              TxRing.Chain(p.ring, p.ram, t[0], false) && t[0].ps[0] == p.pos && Owned(W1(p.ram, p.ring, p.pos))
  {
    hide Owned, W1, TxRing.QueueLeft, TxRing.Chain;
    TxRing.QueueDone(p.ring, p.ram, start.ram, p.pos, q, t);
    if t != [] {
      TxRing.ChainAt(p.ring, p.ram, t[0], false, 0);
      TxRing.Word1Of(p.ram, p.ring, p.pos);
    }
  }

  /** The pass after it has run into a chain that is not finished. */
  ghost function AfterCut(p: Passing, t: seq<Span>): Passing
    requires TxRing.Shaped(t) && t != []
  {
    var s := t[0];
    var after := Next(p.ring, TxRing.Last(s));
    Passing(p.ring, ApplyAll(p.ram, TxRing.TxWrites(p.ring, s, false)), after, p.sent,
            Step(p.control, Event.Underflow(after)))
  }

  lemma ClearOwnTwice(w: bv32)
    ensures ClearOwn(ClearOwn(w)) == ClearOwn(w)
  {}

  /** The writes of the last turn of the receive loop. */
  lemma LastVisit(r: Ring, m: seq<byte>, p: nat, d: Desc, pkt: seq<byte>, total: nat, i: nat) returns (ws: seq<Write>)
    requires AtDesc(r, m, p, d, i) && pkt[Copied(d, pkt)..] == []
    ensures var w := SetEnp(Visited(d, i));
            var (a, b) := (WordWrite(W1Addr(r, p), w), WordWrite(W2Addr(r, p), WithCount(d.w2, StoredCount(total))));
            && ws == [DataWrite(d, pkt)] + [a, b]
            && ApplyAll(m, ws) == Store(Store(Store(m, DataWrite(d, pkt)), a), b)
            && RxLoop(r, m, p, d, pkt, total, i) == RxEnd(ws, Next(r, p), i + 1, w)
  {
    hide Store, SetEnp, WithCount, WordWrite, DataWrite, RxLoop, ApplyAll, AtDesc, Copied, Visited;
    RxScatter.RxLoopLast(r, m, p, d, pkt, total, i);
    var a, b := WordWrite(W1Addr(r, p), SetEnp(Visited(d, i))), WordWrite(W2Addr(r, p), WithCount(d.w2, StoredCount(total)));
    ApplyThree(m, DataWrite(d, pkt), a, b);
    ws := [DataWrite(d, pkt), a, b];
  }

  /** The writes of a turn after which the loop goes on, or stops for want of a descriptor. */
  lemma NextVisit(r: Ring, m: seq<byte>, p: nat, d: Desc, pkt: seq<byte>, total: nat, i: nat, more: bool)
    returns (ws: seq<Write>)
    requires AtDesc(r, m, p, d, i) && pkt[Copied(d, pkt)..] != []
    requires more == Owned(W1(Store(m, DataWrite(d, pkt)), r, Next(r, p)))
    ensures var w := if more then Visited(d, i) else SetError(Visited(d, i));
            var put, a := DataWrite(d, pkt), WordWrite(W1Addr(r, p), w);
            var m2 := Store(Store(m, put), a);
            && ws == [put] + [a] && ApplyAll(m, ws) == m2
            && (more ==> AtDesc(r, m2, Next(r, p), ReadDesc(m2, r, Next(r, p)), i + 1))
            && var e := RxLoop(r, m, p, d, pkt, total, i);
               if more then
                 var e' := RxLoop(r, m2, Next(r, p), ReadDesc(m2, r, Next(r, p)), pkt[Copied(d, pkt)..], total, i + 1);
                 e == RxEnd(ws + e'.writes, e'.pos, e'.visits, if i == 0 then w else e'.first)
               else e == RxEnd(ws, Next(r, p), i + 1, w)
  {
    hide Store, SetError, WordWrite, DataWrite, RxLoop, ApplyAll, AtDesc, Copied, Visited, Owned, W1, ReadDesc;
    var put, a := DataWrite(d, pkt), WordWrite(W1Addr(r, p), if more then Visited(d, i) else SetError(Visited(d, i)));
    ApplyTwo(m, put, a);
    ws := [put, a];
    if more {
      var m2 := Store(Store(m, put), a);
      RxScatter.RxLoopMiddle(r, m, p, d, pkt, total, i, m2, ReadDesc(m2, r, Next(r, p)));
    } else {
      RxScatter.RxLoopError(r, m, p, d, pkt, total, i);
    }
  }

  lemma InitWordsAt(ram: seq<byte>, addr: nat)
    ensures InitWord(ram, addr, 0) == Word(ram, addr)
    ensures InitWord(ram, addr, 5) == Word(ram, addr + 20) && InitWord(ram, addr, 6) == Word(ram, addr + 24)
  {}

  class Chip {
    var csr: array<bv32>
    var bcr: array<bv32>
    var rap: nat
    var rxStart: bv32
    var txStart: bv32
    var rxL2len: bv32
    var txL2len: bv32
    var rxLen: nat
    var txLen: nat
    var rxPos: nat
    var txPos: nat
    var rxTxClearCount: int
    var mac: seq<byte>
    var irq: bool
    const kind: Interface
    const mem: Memory
    const nio: Nio
    const rewrite: seq<byte> -> seq<byte>

    ghost predicate Valid()
      reads this`csr, this`bcr, this`mac, this`rap
    {
      csr.Length == 256 && bcr.Length == 256 && csr != bcr && |mac| == 6 && rap < 256
    }

    /** The control state that the register rules speak about. */
    ghost function Control(): Regs
      requires Valid()
      reads this, csr
    {
      Regs(csr[0], csr[3], csr[15], irq, rxTxClearCount,
           RingReg(rxStart, rxLen, rxPos), RingReg(txStart, txLen, txPos))
    }

    /** A call of the chip as it stands, with its memory and software style. */
    ghost function Called(call: Call): Turn
      requires Valid()
      reads this`csr, this`bcr, this`mac, this`rap, bcr, mem
    {
      Turn(mem.ram, Low8(bcr[20]) == 3, call)
    }

    function InitAddr(): bv32
      requires Valid()
      reads this, csr
    {
      Joined(csr[2], csr[1])
    }

    constructor (part: Interface, memory: Memory, sink: Nio, islRewrite: seq<byte> -> seq<byte>)
      ensures Valid() && Control() == POWER_ON && Consistent(Control()) && InRange(Control())
      ensures kind == part && mem == memory && nio == sink && rewrite == islRewrite && fresh(csr) && fresh(bcr)
    {
      csr, bcr := new bv32[256](_ => 0), new bv32[256](_ => 0);
      rap, rxStart, txStart, rxL2len, txL2len := 0, 0, 0, 0, 0;
      rxLen, txLen, rxPos, txPos, rxTxClearCount := 0, 0, 0, 0, 0;
      mac, irq := Zeros(6), false;
      kind, mem, nio, rewrite := part, memory, sink, islRewrite;
      new;
      PowerOnConsistent();
    }

    /** Recomputes the interrupt flag and drives the interrupt line. */
    method UpdateIrqStatus()
      requires Valid()
      modifies this`irq, csr
      ensures Valid() && csr == old(csr) && bcr == old(bcr) && Control() == Settle(old(Control()))
      ensures forall i :: 0 < i < 256 ==> csr[i] == old(csr[i])
    {
      hide Bit, Unmasked, SetIntr, ClearIntr, LineUp;
      if Bit(csr[0], Unmasked(csr[3])) {
        csr[0] := SetIntr(csr[0]);
      } else {
        csr[0] := ClearIntr(csr[0]);
      }
      irq := LineUp(csr[0]);
    }

    /** Recomputes the ring lengths from their size fields. */
    method UpdateRxTxLen()
      modifies this`rxLen, this`txLen
      ensures rxLen == RingLen(Nibble(rxL2len)) && txLen == RingLen(Nibble(txL2len))
    {
      rxLen := Pow2(Nibble(rxL2len));
      txLen := Pow2(Nibble(txL2len));
      if rxLen > 512 {
        rxLen := 512;
      }
      if txLen > 512 {
        txLen := 512;
      }
    }

    /** Stores the two size fields and recomputes the ring lengths. */
    method SetSizes(rx: bv32, tx: bv32)
      modifies this`rxL2len, this`txL2len, this`rxLen, this`txLen
      ensures rxLen == RingLen(Nibble(rx)) && txLen == RingLen(Nibble(tx))
      ensures rxL2len == Nibble32(rx) && txL2len == Nibble32(tx)
    {
      hide Nibble, Nibble32, RingLen;
      rxL2len, txL2len := Nibble32(rx), Nibble32(tx);
      NibbleTwice(rx);
      NibbleTwice(tx);
      UpdateRxTxLen();
    }

    /** Recomputes the receiver and transmitter flags. */
    method UpdateRxTxOnBits()
      requires Valid()
      modifies csr
      ensures Valid() && Control() == TurnOn(old(Control()))
      ensures forall i :: 0 < i < 256 ==> csr[i] == old(csr[i])
    {
      hide Bit, AllOff, SetRxOn, SetTxOn;
      csr[0] := AllOff(csr[0]);
      if Bit(csr[0], STRT) {
        if !Bit(csr[15], DRX) {
          csr[0] := SetRxOn(csr[0]);
        }
        if !Bit(csr[15], DTX) {
          csr[0] := SetTxOn(csr[0]);
        }
      }
    }

    method LoadRings(base: nat)
      requires Valid()
      modifies this`rxStart, this`txStart, this`rxL2len, this`txL2len, this`rxLen, this`txLen, csr
      ensures Valid()
      ensures var b := ReadInitBlock(mem.ram, base); var g := old(Control());
              Control() == g.(csr15 := b.mode, rx := g.rx.(start := b.rxStart, len := b.rxLen),
                              tx := g.tx.(start := b.txStart, len := b.txLen))
      ensures forall i :: 0 <= i < 256 && i != 15 ==> csr[i] == old(csr[i])
    {
      hide Low16, Nibble, Word, RingLen, Shifted, Nibble32, InitWord;
      InitWordsAt(mem.ram, base);
      rxStart := mem.CopyU32FromVm(base + 20);
      txStart := mem.CopyU32FromVm(base + 24);
      var w := mem.CopyU32FromVm(base);
      SetSizes(Shifted(w, 20), Shifted(w, 28));
      csr[15] := Low16(w);
    }

    method LoadMac(base: nat)
      requires Valid()
      modifies this`mac, csr
      ensures Valid() && mac == BlockMac(mem.ram, base)
      ensures forall i :: 0 <= i < 256 && !(12 <= i <= 14) ==> csr[i] == old(csr[i])
      ensures csr[12] == Low16(InitWord(mem.ram, base, 1)) && csr[14] == Low16(InitWord(mem.ram, base, 2))
      ensures csr[13] == Shifted(InitWord(mem.ram, base, 1), 16)
    {
      hide Low16, Word, Shifted, ByteAt;
      var w := mem.CopyU32FromVm(base + 4);
      var w' := mem.CopyU32FromVm(base + 8);
      csr[12], csr[13], csr[14] := Low16(w), Shifted(w, 16), Low16(w');
      mac := MacOf(w, w');
    }

    /** Takes mode, rings and station address from the initialization block; does nothing at address 0. */
    method FetchInitBlock() returns (ok: bool)
      requires Valid()
      modifies this, csr
      ensures Valid() && csr == old(csr) && bcr == old(bcr) && rap == old(rap)
      ensures ok <==> old(InitAddr()) != 0
      ensures Control() == if ok then Initialize(old(Control()), ReadInitBlock(mem.ram, Address(old(InitAddr()))))
                           else old(Control())
      ensures mac == if ok then BlockMac(mem.ram, Address(old(InitAddr()))) else old(mac)
      ensures forall i :: 0 < i < 256 && !(12 <= i <= 15) ==> csr[i] == old(csr[i])
    {
      hide Initialized, Low16, Joined, Word, Address, WithOn, Shifted, ReadInitBlock, BlockMac;
      var addr := InitAddr();
      if addr == 0 {
        return false;
      }
      LoadRings(Address(addr));
      LoadMac(Address(addr));
      csr[0] := Initialized(csr[0]);
      UpdateRxTxOnBits();
      return true;
    }

    /** The part of a CSR0 write that clears and enables interrupts. */
    method Acknowledge(v: bv32)
      requires Valid()
      modifies this`rxTxClearCount, csr
      ensures Valid() && Control() == AfterAck(old(Control()), v)
      ensures forall i :: 0 < i < 256 ==> csr[i] == old(csr[i])
    {
      hide ClearBits, EnableBits;
      var mask := WRITE_CLEARS;
      rxTxClearCount := rxTxClearCount + 1;
      if rxTxClearCount == 3 {
        mask := mask | RING_CLEARS;
        rxTxClearCount := 0;
      }
      csr[0] := ClearBits(csr[0], v, mask);
      csr[0] := EnableBits(csr[0], v);
    }

    method Halt()
      requires Valid()
      modifies this, csr
      ensures Valid() && csr == old(csr) && bcr == old(bcr) && rap == old(rap)
      ensures var g := old(Control());
              Control() == Settle(g.(csr0 := STOP, rx := g.rx.(pos := 0), tx := g.tx.(pos := 0)))
      ensures mac == old(mac)
      ensures forall i :: 0 < i < 256 ==> csr[i] == old(csr[i])
    {
      hide Settle;
      csr[0] := STOP;
      txPos, rxPos := 0, 0;
      UpdateIrqStatus();
    }

    method InitIfAsked(v: bv32)
      requires Valid()
      modifies this, csr
      ensures Valid() && csr == old(csr) && bcr == old(bcr) && rap == old(rap)
      ensures var a := old(InitAddr());
              && Control() == AfterInit(old(Control()), v, ReadInitBlock(mem.ram, Address(a)), a != 0)
              && mac == if Bit(v, INIT) && a != 0 then BlockMac(mem.ram, Address(a)) else old(mac)
      ensures forall i :: 0 < i < 256 && !(12 <= i <= 15) ==> csr[i] == old(csr[i])
    {
      hide Bit, Initializing, ReadInitBlock, Address, Initialize, BlockMac, Joined;
      if Bit(v, INIT) {
        csr[0] := Initializing(csr[0]);
        var ok := FetchInitBlock();
      }
    }

    method StartIfAsked(v: bv32)
      requires Valid()
      modifies csr
      ensures Valid() && Control() == AfterStart(old(Control()), v)
      ensures forall i :: 0 < i < 256 ==> csr[i] == old(csr[i])
    {
      hide Bit, Starting, TurnOn;
      if Bit(v, STRT) {
        csr[0] := Starting(csr[0]);
        UpdateRxTxOnBits();
      }
    }

    /** A write to CSR0. */
    method WriteCsr0(v: bv32)
      requires Valid()
      modifies this, csr
      ensures Valid() && csr == old(csr) && bcr == old(bcr) && rap == old(rap)
      ensures var a := old(InitAddr());
              && Control() == AfterCsr0(old(Control()), v, ReadInitBlock(mem.ram, Address(a)), a != 0)
              && mac == if !Bit(v, STOP) && Bit(v, INIT) && a != 0 then BlockMac(mem.ram, Address(a)) else old(mac)
      ensures forall i :: 0 < i < 256 && !(12 <= i <= 15) ==> csr[i] == old(csr[i])
    {
      hide Bit, Settle, AfterAck, AfterInit, AfterStart, ReadInitBlock, Address, Joined, BlockMac, Chip.Control;
      if Bit(v, STOP) {
        Halt();
      } else {
        Acknowledge(v);
        InitIfAsked(v);
        StartIfAsked(v);
        UpdateIrqStatus();
      }
    }

    /** What the guest reads from a control register. */
    function ReadCsr(n: nat): bv32
      requires Valid() && n < 256
      reads this, csr
    {
      if n == 6 then Sizes(txL2len, rxL2len) else if n == 88 then ChipId(kind) else csr[n]
    }

    /** A write to a selected register other than CSR0. */
    method WriteOther(v: bv32)
      requires Valid() && rap != 0
      modifies this`rxL2len, this`txL2len, this`rxLen, this`txLen, csr
      ensures Valid() && Control() == Step(old(Control()), WriteEvent(rap, v, mem.ram, old(InitAddr())))
      ensures ReadCsr(rap) == if rap == 6 then v & 0xff00 else if rap == 88 then ChipId(kind) else v
      ensures forall n :: 0 < n < 256 && n != rap ==> ReadCsr(n) == old(ReadCsr(n))
    {
      hide Bit, TurnOn, RingLen, Nibble, Joined, Shifted, Nibble32, Sizes;
      if rap == 6 {
        SizesReadBack(v);
        SetSizes(Shifted(v, 8), Shifted(v, 12));
      } else if rap == 15 {
        csr[15] := v;
        UpdateRxTxOnBits();
      } else if rap != 88 {
        csr[rap] := v;
      }
    }

    /** A write to the register that RAP selects. */
    method RdpWrite(v: bv32)
      requires Valid()
      modifies this, csr
      ensures Valid() && csr == old(csr) && bcr == old(bcr) && rap == old(rap)
      ensures Control() == Step(old(Control()), WriteEvent(rap, v, mem.ram, old(InitAddr())))
      ensures Control() == After(old(Control()), old(Called(WriteReg(rap, v, InitAddr()))))
      ensures mac == if rap == 0 && !Bit(v, STOP) && Bit(v, INIT) && old(InitAddr()) != 0 then
                       BlockMac(mem.ram, Address(old(InitAddr()))) else old(mac)
      ensures rap != 0 ==> ReadCsr(rap) == if rap == 6 then v & 0xff00 else if rap == 88 then ChipId(kind) else v
      ensures forall n :: 0 < n < 256 && n != rap && !(rap == 0 && n in {6, 12, 13, 14, 15}) ==>
                ReadCsr(n) == old(ReadCsr(n))
    {
      hide Bit, AfterCsr0, ReadInitBlock, Address, Joined, After, Low8, Sizes, BlockMac, TurnOn, RingLen;
      AfterWrite(Control(), Called(WriteReg(rap, v, InitAddr())));
      if rap == 0 {
        WriteCsr0(v);
      } else {
        WriteOther(v);
      }
    }

    /** A read of the register that RAP selects. */
    method RdpRead() returns (v: bv32)
      requires Valid()
      ensures v == ReadCsr(rap)
      ensures rap == 88 ==> v & 0xfff == (if kind == OtherKind then 0 else 0x003) &&
                            v >> 12 == match kind { case BaseTx => 0x2623 case BaseT => 0x2621 case OtherKind => 0 }
    {
      hide Sizes;
      match rap {
        case 6 => v := Sizes(txL2len, rxL2len);
        case 88 =>
          match kind {
            case BaseTx => v := 0x0262_3003;
            case BaseT => v := 0x0262_1003;
            case OtherKind => v := 0;
          }
        case _ => v := csr[rap];
      }
    }

    /** Selects the register that the data ports work on. */
    method RapWrite(v: bv32)
      requires Valid()
      modifies this`rap
      ensures Valid() && rap == (v & 0xff) as nat && Control() == old(Control())
      ensures forall n :: 0 <= n < 256 ==> ReadCsr(n) == old(ReadCsr(n))
    {
      Low8Below(v);
      rap := Address(Low8(v));
    }

    /** A write to the bus configuration register that RAP selects; two of them ignore it. */
    method BdpWrite(v: bv32)
      requires Valid()
      modifies bcr
      ensures Valid() && bcr[rap] == if rap in {9, 34} then old(bcr[rap]) else v
      ensures forall i :: 0 <= i < 256 && i != rap ==> bcr[i] == old(bcr[i])
    {
      if rap != 9 && rap != 34 {
        bcr[rap] := v;
      }
    }

    // ---------- Reception ----------

    ghost function RxDescs(): Ring
      requires Valid()
      reads this`csr, this`bcr, this`mac, this`rap, this`rxStart, this`rxLen, bcr
    {
      Ring(Address(rxStart), rxLen, Low8(bcr[20]) == 3)
    }

    /** Software style 2 or 3, and a ring within the 32-bit address space with its position inside it. */
    ghost predicate RxUsable()
      requires Valid()
      reads this`csr, this`bcr, this`mac, this`rap, this`rxStart, this`rxLen, this`rxPos, bcr
    {
      Low8(bcr[20]) in {2, 3} && rxPos < rxLen && Address(rxStart) + DESC_SIZE * rxLen <= 0x1_0000_0000
    }

    function DescRead(addr: nat): Desc
      requires Valid()
      reads this, bcr, mem
    {
      var w0, w1, w2 := mem.CopyU32FromVm(addr), mem.CopyU32FromVm(addr + 4), mem.CopyU32FromVm(addr + 8);
      if Low8(bcr[20]) == 2 then Desc(Address(w0), w1, w2) else Desc(Address(w2), w1, w0)
    }

    /** What a guest writes for a descriptor is what the chip reads, with words 0 and 2 exchanged in style 3. */
    lemma DescriptorReads(addr: nat, buf: bv32, w1: bv32, w2: bv32, rest: seq<byte>)
      requires Valid() && |rest| == 4 && bcr[20] & 0xff in {2, 3}
      requires Load(mem.ram, addr, 16) ==
               if bcr[20] & 0xff == 2 then Be32(buf) + Be32(w1) + Be32(w2) + rest else Be32(w2) + Be32(w1) + Be32(buf) + rest
      ensures DescRead(addr) == Desc(Address(buf), w1, w2)
    {
      if bcr[20] & 0xff == 2 {
        WordsAt(mem.ram, addr, buf, w1, w2, rest);
      } else {
        WordsAt(mem.ram, addr, w2, w1, buf, rest);
      }
      hide Word, Load, Be32, Address;
    }

    /** The address of the initialization block has its low half in CSR1 and its high half in CSR2. */
    lemma BlockAddress(a: bv32)
      requires Valid() && csr[1] == a & 0xffff && csr[2] == a >> 16
      ensures InitAddr() == a
    {
      Halves(a);
    }

    lemma DescReadIs(p: nat)
      requires Valid() && RxUsable()
      ensures DescRead(RxDescs().base + DESC_SIZE * p) == ReadDesc(mem.ram, RxDescs(), p)
    {
      hide Word, Address, Low8;
    }

    method RxDescSetNext()
      requires rxPos < rxLen
      modifies this`rxPos
      ensures rxPos < rxLen && rxPos == if old(rxPos) + 1 == rxLen then 0 else old(rxPos) + 1
    {
      rxPos := rxPos + 1;
      if rxPos == rxLen {
        rxPos := 0;
      }
    }

    function RxDescCurrent(): nat
      reads this
    {
      (Address(rxStart) + DESC_SIZE * rxPos) % 0x1_0000_0000
    }

    lemma RxCurrentIs()
      requires Valid() && RxUsable()
      ensures RxDescCurrent() == RxDescs().base + DESC_SIZE * rxPos
    {
      hide Address, Low8;
      var a := Address(rxStart) + DESC_SIZE * rxPos;
      assert a < 0x1_0000_0000;
    }

    /** Copies what fits into the buffer of a descriptor; returns what is left. */
    method RxDescPutPkt(d: Desc, pkt: seq<byte>) returns (rest: seq<byte>)
      modifies mem
      ensures mem.ram == Store(old(mem.ram), DataWrite(d, pkt)) && mem.log == old(mem.log) + [DataWrite(d, pkt)]
      ensures rest == pkt[Copied(d, pkt)..]
    {
      hide Store, BufLen;
      var n := Min(BufLen(d.w1), |pkt|);
      mem.CopyToVm(d.buf, pkt[..n]);
      rest := pkt[n..];
    }

    /** Ends a packet: writes the second word, then the byte count. */
    method FinishPkt(current: nat, d: Desc, total: nat)
      requires Valid() && Low8(bcr[20]) in {2, 3}
      modifies mem
      ensures var w1 := WordWrite(current + 4, d.w1);
              var w2 := WordWrite(current + if Low8(bcr[20]) == 3 then 0 else 8, WithCount(d.w2, StoredCount(total)));
              mem.ram == Store(Store(old(mem.ram), w1), w2) && mem.log == old(mem.log) + [w1, w2]
    {
      hide Store, WithCount, Low8, WordWrite;
      mem.CopyU32ToVm(current + 4, d.w1);
      var w2 := WithCount(d.w2, Min(total, MAX_PKT_SIZE) + 4);
      if Low8(bcr[20]) == 2 {
        mem.CopyU32ToVm(current + 8, w2);
      } else {
        mem.CopyU32ToVm(current, w2);
      }
    }

    /** Gives back the current descriptor, with the error bits if the next one is not owned. */
    method AcquireNext(current: nat, d: Desc) returns (more: bool, after: Desc, next: nat)
      requires Valid() && RxUsable()
      modifies mem
      ensures next == RxDescs().base + DESC_SIZE * rxPos && more == Owned(W1(old(mem.ram), RxDescs(), rxPos))
      ensures var w := WordWrite(current + 4, if more then d.w1 else SetError(d.w1));
              mem.ram == Store(old(mem.ram), w) && mem.log == old(mem.log) + [w]
      ensures after == if more then ReadDesc(mem.ram, RxDescs(), rxPos) else d.(w1 := SetError(d.w1))
    {
      hide Store, Owned, Word, SetError, Address, Low8, ReadDesc, WordWrite;
      after := d;
      next := RxDescCurrent();
      RxCurrentIs();
      var word := mem.CopyU32FromVm(next + 4);
      more := Owned(word);
      if !more {
        after := after.(w1 := SetError(after.w1));
        mem.CopyU32ToVm(current + 4, after.w1);
      } else {
        mem.CopyU32ToVm(current + 4, after.w1);
        after := DescRead(next);
        DescReadIs(rxPos);
      }
    }

    /** Copies what fits and advances; every descriptor but the first is given back by its next write. */
    method RxPut(cur: Desc, pkt: seq<byte>, i: nat) returns (rest: seq<byte>, after: Desc)
      requires Valid() && RxUsable()
      modifies this`rxPos, mem
      ensures Valid() && RxUsable() && RxDescs() == old(RxDescs()) && rxPos == Next(RxDescs(), old(rxPos))
      ensures mem.ram == Store(old(mem.ram), DataWrite(cur, pkt)) && mem.log == old(mem.log) + [DataWrite(cur, pkt)]
      ensures rest == pkt[Copied(cur, pkt)..] && after == cur.(w1 := Visited(cur, i))
    {
      hide Store, ClearOwn, Copied, Address, Low8, DataWrite;
      rest := RxDescPutPkt(cur, pkt);
      RxDescSetNext();
      after := cur;
      if i != 0 {
        after := after.(w1 := ClearOwn(after.w1));
      }
    }

    /** One turn of the receive loop; `more` says that the next descriptor has been acquired. */
    method RxVisit(current: nat, cur: Desc, pkt: seq<byte>, total: nat, i: nat)
      returns (more: bool, after: Desc, next: nat, rest: seq<byte>, ghost ws: seq<Write>)
      requires Valid() && RxUsable() && current == RxDescs().base + DESC_SIZE * rxPos
      requires AtDesc(RxDescs(), mem.ram, rxPos, cur, i)
      modifies this`rxPos, mem
      ensures Valid() && RxUsable() && RxDescs() == old(RxDescs())
      ensures mem.ram == ApplyAll(old(mem.ram), ws) && mem.log == old(mem.log) + ws
      ensures more ==> next == RxDescs().base + DESC_SIZE * rxPos && AtDesc(RxDescs(), mem.ram, rxPos, after, i + 1)
      ensures var e := RxLoop(RxDescs(), old(mem.ram), old(rxPos), cur, pkt, total, i);
              if more then
                var e' := RxLoop(RxDescs(), mem.ram, rxPos, after, rest, total, i + 1);
                e.writes == ws + e'.writes && e.pos == e'.pos && e.visits == e'.visits && (i == 0 ==> e.first == cur.w1)
              else e == RxEnd(ws, rxPos, i + 1, after.w1)
    {
      hide Store, Owned, W1, SetEnp, SetError, ClearOwn, WithCount, RxLoop, Copied;
      hide Address, Low8, ReadDesc, ApplyAll, BufLen, WordWrite, DataWrite, AtDesc;
      assert i == 0 ==> Visited(cur, i) == cur.w1;
      hide Visited;
      ghost var r, m, p := RxDescs(), mem.ram, rxPos;
      next := current;
      rest, after := RxPut(cur, pkt, i);
      if rest == [] {
        after := after.(w1 := SetEnp(after.w1));
        FinishPkt(current, after, total);
        ws := LastVisit(r, m, p, cur, pkt, total, i);
        more := false;
      } else {
        more, after, next := AcquireNext(current, after);
        ws := NextVisit(r, m, p, cur, pkt, total, i, more);
      }
    }

    /** The receive loop, from an owned descriptor at the ring position; returns the word that the first
        descriptor has in the chip at the end. */
    method FillRing(start: nat, d: Desc, pkt: seq<byte>) returns (first: bv32)
      requires Valid() && RxUsable() && start == RxDescs().base + DESC_SIZE * rxPos
      requires AtDesc(RxDescs(), mem.ram, rxPos, d, 0)
      modifies this`rxPos, mem
      ensures Valid() && RxUsable() && RxDescs() == old(RxDescs())
      ensures var e := RxLoop(old(RxDescs()), old(mem.ram), old(rxPos), d, pkt, |pkt|, 0);
              && rxPos == e.pos && first == e.first
              && mem.ram == ApplyAll(old(mem.ram), e.writes) && mem.log == old(mem.log) + e.writes
    {
      hide RxLoop, ApplyAll, AtDesc, Chip.RxUsable, Chip.RxDescs, Chip.Valid;
      ghost var r, m := RxDescs(), mem.ram;
      ghost var whole := RxLoop(r, m, rxPos, d, pkt, |pkt|, 0);
      ghost var e, done: seq<Write> := whole, [];
      TxRing.NothingApplied(m);
      var current, cur, rest, i, more := start, d, pkt, 0, true;
      first := d.w1;
      while more
        modifies this`rxPos, mem
        invariant Valid() && RxUsable() && RxDescs() == r
        invariant mem.ram == ApplyAll(m, done) && mem.log == old(mem.log) + done
        invariant i == 0 ==> more && cur == d
        invariant more ==> current == r.base + DESC_SIZE * rxPos && AtDesc(r, mem.ram, rxPos, cur, i)
        invariant more ==> e == RxLoop(r, mem.ram, rxPos, cur, rest, |pkt|, i)
        invariant more ==> whole.writes == done + e.writes && whole.pos == e.pos && whole.visits == e.visits
        invariant !more ==> whole.writes == done && whole.pos == rxPos
        invariant if i == 0 then first == d.w1 && e.first == whole.first else first == whole.first
        decreases more, whole.visits - i
      {
        ghost var ws: seq<Write>;
        ghost var before := done;
        more, cur, current, rest, ws := RxVisit(current, cur, rest, |pkt|, i);
        ApplyConcat(m, before, ws);
        done := before + ws;
        if more {
          e := RxLoop(r, mem.ram, rxPos, cur, rest, |pkt|, i + 1);
        } else if i == 0 {
          first := cur.w1;
        }
        i := i + 1;
      }
    }

    /** Puts a packet in the receive ring, if the chip owns the descriptor at the ring position. */
    method ReceivePkt(pkt: seq<byte>) returns (ok: bool)
      requires Valid() && RxUsable()
      modifies this`rxPos, this`irq, csr, mem
      ensures Valid() && csr == old(csr) && bcr == old(bcr)
      ensures RxUsable() && RxDescs() == old(RxDescs())
      ensures ok == Owned(W1(old(mem.ram), old(RxDescs()), old(rxPos)))
      ensures ok ==>
                var e := Reception(old(RxDescs()), old(mem.ram), old(rxPos), pkt);
                && Control() == Step(old(Control()), Receive(e.pos))
                && Bit(csr[0], RINT) && (Bit(csr[0], IENA) && !Bit(csr[3], RINT) ==> irq)
                && mem.ram == ApplyAll(old(mem.ram), e.writes) && mem.log == old(mem.log) + e.writes
      ensures !ok ==> Control() == old(Control()) && mem.ram == old(mem.ram) && mem.log == old(mem.log)
      ensures forall i :: 0 < i < 256 ==> csr[i] == old(csr[i])
    {
      hide Store, Owned, Word, SetStp, ClearOwn, RxLoop, Address, Low8, ApplyAll, WordWrite, Settle, PacketIn;
      hide Bit, Rest;
      ghost var r, m, p := RxDescs(), mem.ram, rxPos;
      var start := RxDescCurrent();
      RxCurrentIs();
      var first := DescRead(start);
      DescReadIs(p);
      ok := Owned(first.w1);
      if ok {
        var w := FillRing(start, first, pkt);
        ghost var e := RxLoop(r, m, p, first, pkt, |pkt|, 0);
        TxRing.ApplyOne(m, e.writes, WordWrite(W1Addr(r, p), SetStp(ClearOwn(w))));
        FinishReception(start, SetStp(ClearOwn(w)));
      }
    }

    /** Hands the first descriptor over and raises the receive interrupt. */
    method FinishReception(start: nat, word: bv32)
      requires Valid()
      modifies this`irq, csr, mem
      ensures Valid() && csr == old(csr) && Control() == Step(old(Control()), Receive(rxPos))
      ensures mem.ram == Store(old(mem.ram), WordWrite(start + 4, word))
      ensures mem.log == old(mem.log) + [WordWrite(start + 4, word)]
      ensures Bit(csr[0], RINT) && (Bit(csr[0], IENA) && !Bit(csr[3], RINT) ==> irq)
      ensures forall i :: 0 < i < 256 ==> csr[i] == old(csr[i])
    {
      hide Store, WordWrite, Settle, PacketIn, Bit, Rest;
      PacketCause(Control(), rxPos);
      PacketEnables(Control(), rxPos);
      mem.CopyU32ToVm(start + 4, word);
      csr[0] := PacketIn(csr[0]);
      UpdateIrqStatus();
    }

    /** Promiscuous mode, multicast, or the station's own address. */
    predicate Accepts(pkt: seq<byte>)
      requires Valid() && |pkt| >= 6
      reads this, csr
    {
      Bit(csr[15], PROM) || pkt[0] & 1 != 0 || pkt[..6] == mac
    }

    /** Without promiscuous mode: a group address, its first byte odd, broadcast among them, or the station's own. */
    lemma AcceptsExactly(pkt: seq<byte>)
      requires Valid() && |pkt| >= 6
      ensures Accepts(pkt) <==> (csr[15] >> 15) & 1 == 1 || pkt[0] % 2 == 1 || pkt[..6] == mac
      ensures pkt[..6] == [0xff, 0xff, 0xff, 0xff, 0xff, 0xff] ==> Accepts(pkt)
    {
      FlagPlaces(csr[15]);
      GroupBit(pkt[0]);
      hide Bit;
      assert pkt[0] == pkt[..6][0];
    }

    /** A frame from the network, of at least a destination address. */
    method HandleRxRing(pkt: seq<byte>) returns (handled: bool)
      requires Valid() && |pkt| >= 6 && (Bit(csr[0], RXON) && rxStart != 0 ==> RxUsable())
      modifies this`rxPos, this`irq, csr, mem
      ensures Valid() && csr == old(csr) && bcr == old(bcr)
      ensures handled == old(rxStart != 0 && Bit(csr[0], RXON)) && RxDescs() == old(RxDescs())
      ensures handled ==> RxUsable()
      ensures if handled && old(Accepts(pkt)) && Owned(W1(old(mem.ram), old(RxDescs()), old(rxPos))) then
                var e := Reception(old(RxDescs()), old(mem.ram), old(rxPos), pkt);
                && Control() == Step(old(Control()), Receive(e.pos))
                && mem.ram == ApplyAll(old(mem.ram), e.writes) && mem.log == old(mem.log) + e.writes
              else Control() == old(Control()) && mem.ram == old(mem.ram) && mem.log == old(mem.log)
      ensures Control() == After(old(Control()), old(Called(Frame(pkt, Accepts(pkt)))))
      ensures handled && (pkt[0] % 2 == 1 || pkt[..6] == mac) && Owned(W1(old(mem.ram), old(RxDescs()), old(rxPos))) ==>
                Bit(csr[0], RINT) && (Bit(csr[0], IENA) && !Bit(csr[3], RINT) ==> irq)
    {
      AcceptsExactly(pkt);
      hide Bit, Owned, Reception, Step, W1, ApplyAll, After, Low8, Address;
      AfterFrame(Control(), Called(Frame(pkt, Accepts(pkt))));
      if rxStart == 0 || !Bit(csr[0], RXON) {
        return false;
      }
      if Accepts(pkt) {
        var ok := ReceivePkt(pkt);
      }
      handled := true;
    }

    // ---------- Transmission ----------

    ghost function TxDescs(): Ring
      requires Valid()
      reads this`csr, this`bcr, this`mac, this`rap, this`txStart, this`txLen, bcr
    {
      Ring(Address(txStart), txLen, Low8(bcr[20]) == 3)
    }

    ghost predicate TxReady()
      requires Valid()
      reads this`csr, this`bcr, this`mac, this`rap, this`txStart, this`txLen, this`txPos, bcr
    {
      Low8(bcr[20]) in {2, 3} && txPos < txLen && Address(txStart) + DESC_SIZE * txLen <= 0x1_0000_0000
    }

    lemma TxDescReadIs(p: nat)
      requires Valid() && TxReady()
      ensures DescRead(TxDescs().base + DESC_SIZE * p) == ReadDesc(mem.ram, TxDescs(), p)
    {
      hide Word, Address, Low8;
    }

    method TxDescSetNext()
      requires txPos < txLen
      modifies this`txPos
      ensures txPos < txLen && txPos == if old(txPos) + 1 == txLen then 0 else old(txPos) + 1
    {
      txPos := txPos + 1;
      if txPos == txLen {
        txPos := 0;
      }
    }

    function TxDescCurrent(): nat
      reads this
    {
      (Address(txStart) + DESC_SIZE * txPos) % 0x1_0000_0000
    }

    lemma TxCurrentIs()
      requires Valid() && TxReady()
      ensures TxDescCurrent() == TxDescs().base + DESC_SIZE * txPos
    {
      hide Address, Low8;
      var a := Address(txStart) + DESC_SIZE * txPos;
      assert a < 0x1_0000_0000;
    }

    /** One turn of the transmit loop: copies a buffer, and gives its descriptor back unless it has STP. */
    method TxVisit(current: nat, d: Desc, pkt: seq<byte>) returns (after: Desc, pkt': seq<byte>)
      requires Valid() && TxReady() && current == TxDescs().base + DESC_SIZE * txPos
      modifies this`txPos, mem
      ensures Valid() && TxReady() && TxDescs() == old(TxDescs()) && txPos == Next(TxDescs(), old(txPos))
      ensures pkt' == pkt + Load(old(mem.ram), d.buf, Len(d))
      ensures if IsStp(d.w1) then after == d && mem.ram == old(mem.ram) && mem.log == old(mem.log)
              else
                var w := WordWrite(W1Addr(TxDescs(), old(txPos)), ClearOwn(d.w1));
                && after == d.(w1 := ClearOwn(d.w1))
                && mem.ram == Store(old(mem.ram), w) && mem.log == old(mem.log) + [w]
    {
      hide Load, Store, IsStp, ClearOwn, BufLen, WordWrite, Address, Low8;
      pkt' := pkt + mem.CopyFromVm(d.buf, BufLen(d.w1));
      after := d;
      if !IsStp(d.w1) {
        after := after.(w1 := ClearOwn(d.w1));
        mem.CopyU32ToVm(current + 4, after.w1);
      }
      TxDescSetNext();
    }

    /** `m` was the memory and `log` the writes before the chain; its first `j` descriptors have been visited. */
    ghost predicate Gathered(m: seq<byte>, log: seq<Write>, s: Span, j: nat, pkt: seq<byte>)
      requires Valid() && j <= |s.ds| == |s.ps|
      reads this, bcr, mem
    {
      && pkt == TxRing.Gather(m, s.ds, j) && |pkt| <= MAX_PKT_SIZE
      && mem.ram == ApplyAll(m, TxRing.Cleared(TxDescs(), s, j))
      && mem.log == log + TxRing.Cleared(TxDescs(), s, j)
    }

    method VisitChain(current: nat, d: Desc, pkt: seq<byte>, ghost m: seq<byte>, ghost log: seq<Write>,
                      ghost s: Span, ghost complete: bool, ghost j: nat)
      returns (after: Desc, pkt': seq<byte>)
      requires Valid() && TxReady() && current == TxDescs().base + DESC_SIZE * txPos
      requires TxRing.Chain(TxDescs(), m, s, complete) && j < |s.ds| && d == s.ds[j] && txPos == s.ps[j]
      requires Gathered(m, log, s, j, pkt)
      modifies this`txPos, mem
      ensures Valid() && TxReady() && TxDescs() == old(TxDescs()) && txPos == Next(TxDescs(), s.ps[j])
      ensures Gathered(m, log, s, j + 1, pkt') && after.w1 == if IsStp(d.w1) then d.w1 else ClearOwn(d.w1)
    {
      hide Load, Store, IsStp, ClearOwn, Len, WordWrite, Next;
      hide TxRing.Chain, ApplyAll, W1Addr, Chip.TxReady, Chip.TxDescs, TxRing.Gather;
      TxRing.ChainAt(TxDescs(), m, s, complete, j);
      TxRing.ChainBuffer(TxDescs(), m, s, complete, j);
      TxRing.ClearedStep(TxDescs(), m, s, j);
      after, pkt' := TxVisit(current, d, pkt);
    }

    /** One turn of the transmit loop: `more` says that the chain goes on, `ended` that ENP was seen. */
    method TxTurn(current: nat, d: Desc, pkt: seq<byte>, ghost m: seq<byte>, ghost log: seq<Write>,
                  ghost s: Span, ghost complete: bool, ghost j: nat)
      returns (more: bool, ended: bool, next: nat, after: Desc, pkt': seq<byte>, word: bv32)
      requires Valid() && TxReady() && current == TxDescs().base + DESC_SIZE * txPos
      requires TxRing.Chain(TxDescs(), m, s, complete) && j < |s.ds| && d == s.ds[j] && txPos == s.ps[j]
      requires Gathered(m, log, s, j, pkt)
      modifies this`txPos, mem
      ensures Valid() && TxReady() && TxDescs() == old(TxDescs()) && txPos == Next(TxDescs(), s.ps[j])
      ensures Gathered(m, log, s, j + 1, pkt') && word == if IsStp(d.w1) then d.w1 else ClearOwn(d.w1)
      ensures (more <==> j < |s.ds| - 1) && (ended <==> j == |s.ds| - 1 && complete)
      ensures more ==> txPos == s.ps[j + 1] && after == s.ds[j + 1] && next == TxDescs().base + DESC_SIZE * txPos
    {
      hide IsStp, IsEnp, Owned, ClearOwn, Next, TxRing.Chain;
      hide ApplyAll, Chip.TxReady, Chip.TxDescs, Chip.Gathered, ReadDesc;
      TxRing.ChainAt(TxDescs(), m, s, complete, j);
      ChainBitsKept(d.w1);
      after, pkt' := VisitChain(current, d, pkt, m, log, s, complete, j);
      word := after.w1;
      next, more, ended := current, false, IsEnp(word);
      if !ended {
        next := TxDescCurrent();
        TxCurrentIs();
        after := DescRead(next);
        ReadAhead(m, log, s, complete, j, pkt');
        more := Owned(after.w1);
      }
    }

    /** The transmit loop over a chain that starts at the ring position. */
    method GatherChain(start: nat, d: Desc, ghost s: Span, ghost complete: bool)
      returns (ok: bool, pkt: seq<byte>, first: bv32)
      requires Valid() && TxReady() && start == TxDescs().base + DESC_SIZE * txPos
      requires TxRing.Chain(TxDescs(), mem.ram, s, complete) && s.ps[0] == txPos && d == s.ds[0]
      modifies this`txPos, mem
      ensures Valid() && TxReady() && TxDescs() == old(TxDescs())
      ensures ok == complete && txPos == Next(TxDescs(), TxRing.Last(s))
      ensures Gathered(old(mem.ram), old(mem.log), s, |s.ds|, pkt)
      ensures first == if IsStp(d.w1) then d.w1 else ClearOwn(d.w1)
    {
      hide IsStp, IsEnp, Owned, ClearOwn, Next, TxRing.Chain;
      hide ApplyAll, Chip.TxReady, Chip.TxDescs, Chip.Gathered, ReadDesc, TxRing.Cleared;
      ghost var r, m, k := TxDescs(), mem.ram, |s.ds|;
      TxRing.ChainShape(r, m, s, complete);
      TxRing.ChainAt(r, m, s, complete, 0);
      NothingGathered(s);
      var current, cur, i := start, d, 0;
      pkt, first, ok := [], d.w1, false;
      var more := true;
      while more
        modifies this`txPos, mem
        invariant Valid() && TxReady() && TxDescs() == r
        invariant i <= k && (more ==> i < k && !ok)
        invariant Gathered(m, old(mem.log), s, i, pkt)
        invariant more ==> txPos == s.ps[i] && cur == s.ds[i] && current == r.base + DESC_SIZE * txPos
        invariant !more ==> i == k && txPos == Next(r, s.ps[k - 1]) && ok == complete
        invariant first == if i == 0 || IsStp(d.w1) then d.w1 else ClearOwn(d.w1)
        decreases more, k - i
      {
        var word: bv32;
        more, ok, current, cur, pkt, word := TxTurn(current, cur, pkt, m, old(mem.log), s, complete, i);
        if i == 0 {
          first := word;
        }
        i := i + 1;
      }
    }

    lemma NothingGathered(s: Span)
      requires Valid() && |s.ds| == |s.ps|
      ensures Gathered(mem.ram, mem.log, s, 0, [])
    {
      TxRing.NothingVisited(TxDescs(), mem.ram, s);
      hide ApplyAll;
    }

    /** What the chip reads from the ring after visiting a descriptor without ENP. */
    lemma ReadAhead(m: seq<byte>, log: seq<Write>, s: Span, complete: bool, j: nat, pkt: seq<byte>)
      requires Valid() && TxReady() && TxRing.Chain(TxDescs(), m, s, complete)
      requires j < |s.ds| && !(j == |s.ds| - 1 && complete)
      requires Gathered(m, log, s, j + 1, pkt) && txPos == Next(TxDescs(), s.ps[j])
      ensures var d := DescRead(TxDescs().base + DESC_SIZE * txPos);
              && (Owned(d.w1) <==> j < |s.ds| - 1)
              && (j < |s.ds| - 1 ==> d == s.ds[j + 1] && txPos == s.ps[j + 1])
    {
      hide Owned, Next, TxRing.Chain, ApplyAll, Chip.TxReady, Chip.TxDescs, ReadDesc, TxRing.Cleared, TxRing.Gather;
      TxRing.ChainAt(TxDescs(), m, s, complete, j);
      TxRing.ChainGoesOn(TxDescs(), m, s, complete, j);
      TxDescReadIs(txPos);
      if j < |s.ds| - 1 {
        TxRing.ChainAt(TxDescs(), m, s, complete, j + 1);
      }
    }

    predicate Transmits()
      requires Valid()
      reads this, csr
    {
      txStart != 0 && Bit(csr[0], TXON)
    }

    /** Sends the chain at the ring position, if the chip owns its first descriptor; a chain cut short is an
        underflow that leaves the position at the descriptor that is missing. */
    method HandleTxRingSingle(can: bool, ghost s: Span, ghost complete: bool) returns (ok: bool)
      requires Valid()
      requires Transmits() ==> TxReady()
      requires Transmits() && can && Owned(W1(mem.ram, TxDescs(), txPos)) ==>
                 TxRing.Chain(TxDescs(), mem.ram, s, complete) && s.ps[0] == txPos
      modifies this`txPos, this`irq, csr, mem, nio
      ensures Valid() && csr == old(csr) && bcr == old(bcr) && TxDescs() == old(TxDescs())
      ensures old(Transmits()) ==> TxReady()
      ensures var r, m := old(TxDescs()), old(mem.ram);
              if old(Transmits()) && can && Owned(W1(m, r, old(txPos))) then
                var after := Next(r, TxRing.Last(s));
                && mem.ram == ApplyAll(m, TxRing.TxWrites(r, s, complete))
                && mem.log == old(mem.log) + TxRing.TxWrites(r, s, complete)
                && ok == complete
                && Control() == Step(old(Control()), if complete then Transmit(after) else Event.Underflow(after))
                && (complete ==> Bit(csr[0], TINT) && (Bit(csr[0], IENA) && !Bit(csr[3], TINT) ==> irq))
                && (!complete ==> csr[0] == old(csr[0]) && irq == old(irq))
                && nio.sent == old(nio.sent) +
                     if complete && Room(s.ds, |s.ds|) > 0 then [PacketOf(rewrite, m, s)] else []
              else
                !ok && Control() == old(Control()) && mem.ram == m && mem.log == old(mem.log) && nio.sent == old(nio.sent)
    {
      hide Bit, Owned, Word, Next, TxRing.Chain, ApplyAll, Address, Low8, TxRing.Gather, TxRing.TxWrites, Step;
      if txStart == 0 || !Bit(csr[0], TXON) || !can {
        return false;
      }
      var start := TxDescCurrent();
      TxCurrentIs();
      var first := DescRead(start);
      TxDescReadIs(txPos);
      if !Owned(first.w1) {
        return false;
      }
      TxRing.ChainShape(TxDescs(), mem.ram, s, complete);
      TxRing.ChainAt(TxDescs(), mem.ram, s, complete, 0);
      ok := TransmitChain(start, first, s, complete);
    }

    /** Gathers the chain at the ring position, and sends it if it is complete. */
    method TransmitChain(start: nat, first: Desc, ghost s: Span, ghost complete: bool) returns (ok: bool)
      requires Valid() && TxReady() && start == TxDescs().base + DESC_SIZE * txPos
      requires TxRing.Chain(TxDescs(), mem.ram, s, complete) && s.ps[0] == txPos && first == s.ds[0]
      modifies this`txPos, this`irq, csr, mem, nio
      ensures Valid() && csr == old(csr) && bcr == old(bcr) && TxDescs() == old(TxDescs()) && TxReady()
      ensures |s.ds| == |s.ps| > 0 && ok == complete
      ensures mem.ram == ApplyAll(old(mem.ram), TxRing.TxWrites(TxDescs(), s, complete))
      ensures mem.log == old(mem.log) + TxRing.TxWrites(TxDescs(), s, complete)
      ensures var after := Next(TxDescs(), TxRing.Last(s));
              Control() == Step(old(Control()), if complete then Transmit(after) else Event.Underflow(after))
      ensures nio.sent == old(nio.sent) +
                if complete && Room(s.ds, |s.ds|) > 0 then [PacketOf(rewrite, old(mem.ram), s)] else []
      ensures complete ==> Bit(csr[0], TINT) && (Bit(csr[0], IENA) && !Bit(csr[3], TINT) ==> irq)
      ensures !complete ==> csr[0] == old(csr[0]) && irq == old(irq)
    {
      hide Bit, IsStp, Owned, ClearOwn, Word, Next, TxRing.Chain, ApplyAll, Chip.TxDescs, Chip.TxReady;
      hide Address, Low8, TxRing.Cleared, TxRing.Gather, TxRing.TxWrites, Settle, PacketOut, WordWrite, Wire, Store;
      hide Room, PacketOf;
      ghost var r, m := TxDescs(), mem.ram;
      TxRing.ChainShape(r, m, s, complete);
      TxRing.AllWritten(r, m, s, complete);
      ClearOwnTwice(first.w1);
      WireCarries(rewrite, m, s);
      var pkt, word;
      ok, pkt, word := GatherChain(start, first, s, complete);
      if ok {
        SendGathered(start, pkt, word);
      }
    }

    /** Puts a frame on the wire, gives its first descriptor back and raises the transmit interrupt. */
    method SendGathered(start: nat, pkt: seq<byte>, word: bv32)
      requires Valid()
      modifies this`irq, csr, mem, nio
      ensures Valid() && nio.sent == old(nio.sent) + Wire(rewrite, pkt)
      ensures mem.ram == Store(old(mem.ram), WordWrite(start + 4, ClearOwn(word)))
      ensures mem.log == old(mem.log) + [WordWrite(start + 4, ClearOwn(word))]
      ensures Control() == Step(old(Control()), Transmit(txPos)) && csr == old(csr)
      ensures Bit(csr[0], TINT) && (Bit(csr[0], IENA) && !Bit(csr[3], TINT) ==> irq)
    {
      hide Store, ClearOwn, WordWrite, Settle, PacketOut, Bit, Rest;
      PacketCause(Control(), txPos);
      PacketEnables(Control(), txPos);
      if |pkt| != 0 {
        nio.Send(rewrite(pkt));
      }
      mem.CopyU32ToVm(start + 4, ClearOwn(word));
      csr[0] := PacketOut(csr[0]);
      UpdateIrqStatus();
    }

    /** What the pass has done so far, as a value. */
    ghost function Now(): Passing
      requires Valid()
      reads this, csr, bcr, mem, nio
    {
      Passing(TxDescs(), mem.ram, txPos, nio.sent, Control())
    }

    method SendNext(can: bool, ghost start: Passing, ghost q: seq<Span>, ghost t: seq<Span>, ghost n: nat)
      returns (ok: bool)
      requires Valid() && Transmits() && TxReady() && n <= |q| && Passed(rewrite, start, Now(), q, t, n)
      modifies this`txPos, this`irq, csr, mem, nio
      ensures Valid() && csr == old(csr) && bcr == old(bcr) && TxDescs() == old(TxDescs()) && TxReady()
      ensures ok <==> can && n < |q|
      ensures ok ==> Transmits() && Passed(rewrite, start, Now(), q, t, n + 1)
      ensures !ok ==>
                if can && n == |q| && t != [] then TxRing.Shaped(t) && Now() == AfterCut(old(Now()), t)
                else Now() == old(Now())
    {
      hide Owned, W1, Next, TxRing.Chain, ApplyAll, TxRing.TxWrites, TxRing.Gather, Bit;
      hide Wire, Low8, Address, Passed, TxRing.Shaped, Room, PacketOf;
      ghost var cut := n == |q| && t != [];
      ghost var s := if n < |q| then q[n] else if cut then t[0] else Span([], []);
      if n < |q| {
        PassedNext(rewrite, start, Now(), q, t, n);
        TransmitKeepsOn(Control(), Next(TxDescs(), TxRing.Last(s)));
        WireCarries(rewrite, mem.ram, s);
      } else {
        PassedAll(rewrite, start, Now(), q, t);
        if cut {
          TxRing.ChainShape(TxDescs(), mem.ram, s, false);
        }
      }
      ok := HandleTxRingSingle(can, s, !cut);
    }

    lemma PassOf(can: seq<bool>, q: seq<Span>, t: seq<Span>)
      requires Valid() && (Transmits() ==> TxReady() && TxRing.Shaped(q) && TxRing.Shaped(t))
      ensures After(Control(), Called(Pass(can, q, t))) ==
              if Transmits() then
                var g := Run(Control(), Departures(TxDescs(), q, TxRing.Leading(can, |q|)));
                if RunsInto(can, q, t) then Step(g, Event.Underflow(Next(TxDescs(), TxRing.Last(t[0])))) else g
              else Control()
    {
      hide Bit, Step, Departures, After, Address, Low8;
      AfterPass(Control(), Called(Pass(can, q, t)));
    }

    /** One pass over the transmit ring: the queued frames leave in order, at most sixteen, for as long as the
        network takes them; a chain `t` at the end that is not finished stops the pass; what is left of the
        queue otherwise stays as the guest made it. */
    method HandleTxRing(can: seq<bool>, ghost q: seq<Span>, ghost t: seq<Span>)
      requires Valid() && |can| == 16
      requires Transmits() ==> TxReady() && TxRing.Queue(TxDescs(), mem.ram, txPos, q, t)
      modifies this`txPos, this`irq, csr, mem, nio
      ensures Valid() && csr == old(csr) && bcr == old(bcr) && TxDescs() == old(TxDescs())
      ensures !old(Transmits()) ==> nio.sent == old(nio.sent) && mem.ram == old(mem.ram) && Control() == old(Control())
      ensures old(Transmits()) ==> TxReady()
      ensures old(Transmits()) ==>
                var n, r, m := TxRing.Leading(can, |q|), TxDescs(), old(mem.ram);
                && TxRing.Shaped(q) && TxRing.Shaped(t)
                && nio.sent == old(nio.sent) + WireAll(rewrite, TxRing.Frames(m, q, n))
                && (NoneEmpty(q, n) ==>
                      && |nio.sent| == |old(nio.sent)| + n && nio.sent[..|old(nio.sent)|] == old(nio.sent)
                      && Carries(rewrite, m, q, n, nio.sent[|old(nio.sent)|..]))
                && var (ram, control) := (TxRing.SentMemory(r, m, q, n), Run(old(Control()), Departures(r, q, n)));
                   if n == |q| && n < |can| && can[n] && t != [] then
                     && mem.ram == ApplyAll(ram, TxRing.TxWrites(r, t[0], false))
                     && Control() == Step(control, Event.Underflow(Next(r, TxRing.Last(t[0]))))
                   else mem.ram == ram && Control() == control && TxRing.Queue(r, mem.ram, txPos, q[n..], t)
      ensures Control() == After(old(Control()), old(Called(Pass(can, q, t))))
    {
      hide TxRing.Chain, TxRing.Queue, Step, Bit, Wire, WireAll, ApplyAll, TxRing.TxWrites, Next, TxRing.Last;
      hide Run, TxRing.Frames, TxRing.SentMemory, Departures, Passed, After, Chip.Called;
      hide Chip.TxDescs, TxRing.Shaped, Chip.TxReady, Chip.Transmits, Chip.Control, Chip.Valid;
      ghost var r, start := TxDescs(), Now();
      ghost var n := TxRing.Leading(can, |q|);
      if Transmits() {
        TxRing.QueueShaped(r, mem.ram, txPos, q, t);
      }
      PassOf(can, q, t);
      if !Transmits() {
        var sentNone := HandleTxRingSingle(can[0], Span([], []), false);
        return;
      }
      PassedNone(rewrite, start, q, t);
      var i, ok := 0, true;
      ghost var before := start;
      while i < TXRING_PASS_COUNT && ok
        invariant Valid() && csr == old(csr) && bcr == old(bcr) && TxReady() && TxDescs() == r
        invariant i <= TXRING_PASS_COUNT && (ok ==> i <= n && Transmits() && before == Now()) && (!ok ==> i == n + 1)
        invariant Passed(rewrite, start, before, q, t, if ok then i else n)
        invariant !ok ==>
                    if can[n] && n == |q| && t != [] then TxRing.Shaped(t) && Now() == AfterCut(before, t)
                    else Now() == before
      {
        ok := SendNext(can[i], start, q, t, i);
        i := i + 1;
        if ok {
          before := Now();
        }
      }
      PassedGives(rewrite, start, before, q, t, n);
      if NoneEmpty(q, n) {
        WireAllCarries(rewrite, start.ram, q, n);
      }
    }
  }
}
