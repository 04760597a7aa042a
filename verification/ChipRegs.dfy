/** Control registers of the Am79c971: interrupt, start/stop and ring size rules, over any run of events. */
module ChipRegs {
  import opened Bytes
  import opened PhysMem
  import opened DescRing

  // CSR0, Controller Status and Control.
  const BABL: bv32 := 0x4000
  const CERR: bv32 := 0x2000
  const MISS: bv32 := 0x1000
  const MERR: bv32 := 0x0800
  const RINT: bv32 := 0x0400
  const TINT: bv32 := 0x0200
  const IDON: bv32 := 0x0100
  const INTR: bv32 := 0x0080
  const IENA: bv32 := 0x0040
  const RXON: bv32 := 0x0020
  const TXON: bv32 := 0x0010
  const STOP: bv32 := 0x0004
  const STRT: bv32 := 0x0002
  const INIT: bv32 := 0x0001

  // CSR3, interrupt masks; CSR15, mode.
  const CAUSES: bv32 := 0x7f00
  const PROM: bv32 := 0x8000
  const DTX: bv32 := 0x0002
  const DRX: bv32 := 0x0001

  predicate Bit(w: bv32, f: bv32) { w & f != 0 }

  function SetIntr(c: bv32): bv32 { c | INTR }
  function ClearIntr(c: bv32): bv32 { c & !INTR }
  function AllOff(c: bv32): bv32 { c & !(RXON | TXON) }
  function SetRxOn(c: bv32): bv32 { c | RXON }
  function SetTxOn(c: bv32): bv32 { c | TXON }

  /** The causes that CSR3 lets through: a bit set there disables its interrupt. */
  function Unmasked(csr3: bv32): bv32 { CAUSES & !(csr3 & CAUSES) }

  /** CSR0 with the interrupt flag recomputed. */
  function WithIntr(csr0: bv32, csr3: bv32): bv32 {
    if Bit(csr0, Unmasked(csr3)) then SetIntr(csr0) else ClearIntr(csr0)
  }

  predicate LineUp(csr0: bv32) {
    csr0 & (INTR | IENA) == INTR | IENA
  }

  /** CSR0 with the receiver and transmitter flags recomputed. */
  function WithOn(csr0: bv32, csr15: bv32): bv32 {
    var c := AllOff(csr0);
    if !Bit(c, STRT) then c
    else
      var d := if Bit(csr15, DRX) then c else SetRxOn(c);
      if Bit(csr15, DTX) then d else SetTxOn(d)
  }

  /** Bits that a CSR0 write of ones clears, and those it clears only every third time. */
  const WRITE_CLEARS: bv32 := 0x7900
  const RING_CLEARS: bv32 := 0x0600

  function ClearMask(clears: int): bv32 {
    if clears + 1 == 3 then WRITE_CLEARS | RING_CLEARS else WRITE_CLEARS
  }

  function ClearBits(csr0: bv32, v: bv32, mask: bv32): bv32 { csr0 & !(v & mask) }
  function EnableBits(csr0: bv32, v: bv32): bv32 { csr0 | (v & IENA) }

  function Acknowledged(csr0: bv32, v: bv32, clears: int): bv32 {
    EnableBits(ClearBits(csr0, v, ClearMask(clears)), v)
  }

  function Initializing(csr0: bv32): bv32 { (csr0 | INIT) & !STOP }
  function Starting(csr0: bv32): bv32 { (csr0 | STRT) & !STOP }
  function Initialized(csr0: bv32): bv32 { csr0 | IDON }
  function PacketIn(csr0: bv32): bv32 { csr0 | RINT }
  function PacketOut(csr0: bv32): bv32 { csr0 | TINT }

  // ---------- Ring sizes ----------

  function Pow2(n: nat): (p: nat)
    ensures p >= 1
  {
    if n == 0 then 1 else 2 * Pow2(n - 1)
  }

  /** Descriptors of a ring whose size field is `l2`. */
  function RingLen(l2: nat): (n: nat)
    ensures n >= 1
  {
    Min(Pow2(l2), 512)
  }

  lemma {:induction false} Pow2Above(n: nat)
    requires n >= 9
    ensures Pow2(n) >= 512
  {
    if n == 9 {
      assert Pow2(4) == 16;
      assert Pow2(8) == 256;
    } else {
      Pow2Above(n - 1);
    }
  }

  /** Ring lengths are powers of two, at most 512. */
  lemma RingLenIsPow2(l2: nat)
    ensures RingLen(l2) == Pow2(Min(l2, 9)) <= 512
  {
    assert Pow2(4) == 16;
    assert Pow2(8) == 256;
    if l2 >= 9 {
      Pow2Above(l2);
    } else {
      PowBelow(l2);
    }
  }

  lemma {:induction false} PowBelow(n: nat)
    requires n <= 9
    ensures Pow2(n) <= 512
    decreases 9 - n
  {
    if n == 9 {
      assert Pow2(4) == 16;
      assert Pow2(8) == 256;
    } else {
      PowBelow(n + 1);
    }
  }

  function Nibble(w: bv32): (n: nat)
    ensures n < 16
  {
    (w & 0xf) as bv4 as nat
  }

  function Shifted(w: bv32, n: bv6): bv32
    requires n <= 32
  {
    w >> n
  }

  function Low16(w: bv32): bv32 { w & 0xffff }

  /** The two sizes that a write to CSR6 sets, receive in bits 8 to 11 and transmit in bits 12 to 15. */
  lemma SizeFields(v: bv32, rx: bv32, tx: bv32)
    requires rx < 16 && tx < 16 && v & 0xff00 == tx * 0x1000 + rx * 0x100
    ensures Nibble(Shifted(v, 8)) == rx as nat && Nibble(Shifted(v, 12)) == tx as nat
  {
    assert (v >> 8) & 0xf == rx && (v >> 12) & 0xf == tx;
  }

  // ---------- The control state ----------

  datatype RingReg = RingReg(start: bv32, len: nat, pos: nat)

  datatype Regs = Regs(csr0: bv32, csr3: bv32, csr15: bv32, irq: bool, clears: int, rx: RingReg, tx: RingReg)

  const POWER_ON := Regs(0, 0, 0, false, 0, RingReg(0, 0, 0), RingReg(0, 0, 0))

  /** What an initialization block says about mode and rings. */
  datatype InitBlock = InitBlock(mode: bv32, rxLen: nat, txLen: nat, rxStart: bv32, txStart: bv32)

  function InitWord(ram: seq<byte>, addr: nat, i: nat): bv32 {
    Word(ram, addr + 4 * i)
  }

  function ReadInitBlock(ram: seq<byte>, addr: nat): (b: InitBlock)
    ensures b.rxLen >= 1 && b.txLen >= 1
  {
    var w := InitWord(ram, addr, 0);
    InitBlock(Low16(w), RingLen(Nibble(Shifted(w, 20))), RingLen(Nibble(Shifted(w, 28))),
              InitWord(ram, addr, 5), InitWord(ram, addr, 6))
  }

  /** What happens to the chip: register writes by the guest, receptions and transmissions that move a ring
      position. A CSR0 write carries the block at the initialization address, if that is not zero. */
  datatype Event =
    | Csr0(v: bv32, block: InitBlock, hasBlock: bool)
    | Csr6(v: bv32)
    | Csr15(v: bv32)
    | OtherCsr(n: nat, v: bv32)
    | Receive(pos: nat)
    | Transmit(pos: nat)
    | Underflow(pos: nat)

  function Settle(g: Regs): (g': Regs) {
    var c := WithIntr(g.csr0, g.csr3);
    g.(csr0 := c, irq := LineUp(c))
  }

  function TurnOn(g: Regs): Regs {
    g.(csr0 := WithOn(g.csr0, g.csr15))
  }

  function Initialize(g: Regs, b: InitBlock): Regs {
    TurnOn(g.(csr0 := Initialized(g.csr0), csr15 := b.mode,
              rx := g.rx.(start := b.rxStart, len := b.rxLen),
              tx := g.tx.(start := b.txStart, len := b.txLen)))
  }

  function AfterInit(g: Regs, v: bv32, b: InitBlock, hasBlock: bool): Regs {
    if !Bit(v, INIT) then g
    else
      var g1 := g.(csr0 := Initializing(g.csr0));
      if hasBlock then Initialize(g1, b) else g1
  }

  function AfterStart(g: Regs, v: bv32): Regs {
    if Bit(v, STRT) then TurnOn(g.(csr0 := Starting(g.csr0))) else g
  }

  function AfterAck(g: Regs, v: bv32): Regs {
    g.(csr0 := Acknowledged(g.csr0, v, g.clears), clears := if g.clears + 1 == 3 then 0 else g.clears + 1)
  }

  function AfterCsr0(g: Regs, v: bv32, b: InitBlock, hasBlock: bool): Regs {
    if Bit(v, STOP) then
      Settle(g.(csr0 := STOP, rx := g.rx.(pos := 0), tx := g.tx.(pos := 0)))
    else
      Settle(AfterStart(AfterInit(AfterAck(g, v), v, b, hasBlock), v))
  }

  function Step(g: Regs, e: Event): Regs {
    match e
    case Csr0(v, b, h) => AfterCsr0(g, v, b, h)
    case Csr6(v) =>
      g.(rx := g.rx.(len := RingLen(Nibble(Shifted(v, 8)))), tx := g.tx.(len := RingLen(Nibble(Shifted(v, 12)))))
    case Csr15(v) => TurnOn(g.(csr15 := v))
    case OtherCsr(n, v) => if n == 3 then g.(csr3 := v) else g
    case Receive(p) => Settle(g.(csr0 := PacketIn(g.csr0), rx := g.rx.(pos := p)))
    case Transmit(p) => Settle(g.(csr0 := PacketOut(g.csr0), tx := g.tx.(pos := p)))
    case Underflow(p) => g.(tx := g.tx.(pos := p))
  }

  /** Receptions and transmissions happen only when turned on, and move the position within the ring. */
  predicate Possible(g: Regs, e: Event) {
    match e
    case Csr0(_, b, _) => b.rxLen >= 1 && b.txLen >= 1
    case Receive(p) => Bit(g.csr0, RXON) && g.rx.start != 0 && (g.rx.pos < g.rx.len ==> p < g.rx.len)
    case Transmit(p) => Bit(g.csr0, TXON) && g.tx.start != 0 && (g.tx.pos < g.tx.len ==> p < g.tx.len)
    case Underflow(p) => Bit(g.csr0, TXON) && g.tx.start != 0 && (g.tx.pos < g.tx.len ==> p < g.tx.len)
    case _ => true
  }

  function Run(g: Regs, es: seq<Event>): Regs
    decreases |es|
  {
    if es == [] then g else Run(Step(g, es[0]), es[1..])
  }

  predicate AllPossible(g: Regs, es: seq<Event>)
    decreases |es|
  {
    es == [] || (Possible(g, es[0]) && AllPossible(Step(g, es[0]), es[1..]))
  }

  // ---------- What every reachable state keeps ----------

  /** The receiver is on exactly when started and not disabled, likewise the transmitter; the chip is never
      both stopped and started. */
  predicate OnBits(csr0: bv32, csr15: bv32) {
    && (Bit(csr0, RXON) <==> Bit(csr0, STRT) && !Bit(csr15, DRX))
    && (Bit(csr0, TXON) <==> Bit(csr0, STRT) && !Bit(csr15, DTX))
    && !(Bit(csr0, STOP) && Bit(csr0, STRT))
  }

  /** Also, the line is up exactly when the interrupt flag and the enable bit are both set. */
  predicate Consistent(g: Regs) {
    OnBits(g.csr0, g.csr15) && (g.irq <==> Bit(g.csr0, INTR) && Bit(g.csr0, IENA))
  }

  /** The interrupt is due: enabled, with a cause that CSR3 does not mask. */
  predicate Due(g: Regs) {
    Bit(g.csr0, IENA) && Bit(g.csr0, CAUSES & !g.csr3)
  }

  lemma IntrKeepsOn(csr0: bv32, csr3: bv32, csr15: bv32)
    requires OnBits(csr0, csr15)
    ensures OnBits(WithIntr(csr0, csr3), csr15)
  {}

  lemma LineIsBits(c: bv32)
    ensures LineUp(c) <==> Bit(c, INTR) && Bit(c, IENA)
  {}

  lemma IntrDue(csr0: bv32, csr3: bv32)
    ensures Bit(WithIntr(csr0, csr3), INTR) <==> Bit(csr0, CAUSES & !csr3)
    ensures Bit(WithIntr(csr0, csr3), CAUSES & !csr3) <==> Bit(csr0, CAUSES & !csr3)
  {}

  lemma OnAgrees(csr0: bv32, csr15: bv32)
    requires !(Bit(csr0, STOP) && Bit(csr0, STRT))
    ensures OnBits(WithOn(csr0, csr15), csr15)
  {}

  lemma OnKeeps(csr0: bv32, csr15: bv32)
    ensures Bit(WithOn(csr0, csr15), INTR) == Bit(csr0, INTR)
    ensures Bit(WithOn(csr0, csr15), IENA) == Bit(csr0, IENA)
    ensures Bit(WithOn(csr0, csr15), STRT) == Bit(csr0, STRT)
  {}

  lemma AckKeepsOn(csr0: bv32, v: bv32, clears: int, csr15: bv32)
    requires OnBits(csr0, csr15)
    ensures OnBits(Acknowledged(csr0, v, clears), csr15)
    ensures Bit(Acknowledged(csr0, v, clears), STRT) == Bit(csr0, STRT)
  {}

  lemma Started(csr0: bv32)
    ensures !Bit(Starting(csr0), STOP) && Bit(Starting(csr0), STRT)
  {}

  lemma InitKeepsOn(csr0: bv32, csr15: bv32)
    requires OnBits(csr0, csr15)
    ensures OnBits(Initializing(csr0), csr15)
    ensures Bit(Initializing(csr0), STRT) == Bit(csr0, STRT)
  {}

  lemma IdonKeeps(csr0: bv32)
    ensures Bit(Initialized(csr0), STOP) == Bit(csr0, STOP) && Bit(Initialized(csr0), STRT) == Bit(csr0, STRT)
  {}

  lemma CauseKeepsOn(csr0: bv32, csr15: bv32)
    requires OnBits(csr0, csr15)
    ensures OnBits(PacketIn(csr0), csr15) && Bit(PacketIn(csr0), STRT) == Bit(csr0, STRT)
    ensures OnBits(PacketOut(csr0), csr15) && Bit(PacketOut(csr0), STRT) == Bit(csr0, STRT)
  {}

  lemma StopIsOff(csr15: bv32)
    ensures OnBits(STOP, csr15) && !Bit(STOP, STRT)
  {}

  lemma IntrKeepsStart(csr0: bv32, csr3: bv32)
    ensures Bit(WithIntr(csr0, csr3), STRT) == Bit(csr0, STRT)
    ensures Bit(WithIntr(csr0, csr3), IENA) == Bit(csr0, IENA)
  {}

  /** What a write to CSR0 does to the flags of the guest: ones clear causes, the ring causes only every third
      time, and the enable bit is never cleared by it. */
  lemma AcknowledgeBits(csr0: bv32, v: bv32, clears: int)
    ensures var c := Acknowledged(csr0, v, clears);
            && (Bit(c, IENA) <==> Bit(csr0, IENA) || Bit(v, IENA))
            && (Bit(c, IDON) <==> Bit(csr0, IDON) && !Bit(v, IDON))
            && (Bit(c, MISS) <==> Bit(csr0, MISS) && !Bit(v, MISS))
            && (Bit(c, RINT) <==> Bit(csr0, RINT) && !(clears == 2 && Bit(v, RINT)))
            && (Bit(c, TINT) <==> Bit(csr0, TINT) && !(clears == 2 && Bit(v, TINT)))
  {}

  /** The error causes are cleared by ones every time. */
  lemma AcknowledgeErrors(csr0: bv32, v: bv32, clears: int)
    ensures var c := Acknowledged(csr0, v, clears);
            && (Bit(c, MERR) <==> Bit(csr0, MERR) && !Bit(v, MERR))
            && (Bit(c, BABL) <==> Bit(csr0, BABL) && !Bit(v, BABL))
            && (Bit(c, CERR) <==> Bit(csr0, CERR) && !Bit(v, CERR))
  {}

  /** Where the flags are in CSR0: the causes in bits 8 to 14, the rest from bit 7 down. */
  lemma FlagPlaces(c: bv32)
    ensures (Bit(c, BABL) <==> (c >> 14) & 1 == 1) && (Bit(c, CERR) <==> (c >> 13) & 1 == 1)
    ensures (Bit(c, MISS) <==> (c >> 12) & 1 == 1) && (Bit(c, MERR) <==> (c >> 11) & 1 == 1)
    ensures (Bit(c, RINT) <==> (c >> 10) & 1 == 1) && (Bit(c, TINT) <==> (c >> 9) & 1 == 1)
    ensures (Bit(c, IDON) <==> (c >> 8) & 1 == 1) && (Bit(c, INTR) <==> (c >> 7) & 1 == 1)
    ensures (Bit(c, IENA) <==> (c >> 6) & 1 == 1) && (Bit(c, RXON) <==> (c >> 5) & 1 == 1)
    ensures (Bit(c, TXON) <==> (c >> 4) & 1 == 1) && (Bit(c, STOP) <==> (c >> 2) & 1 == 1)
    ensures (Bit(c, STRT) <==> (c >> 1) & 1 == 1) && (Bit(c, INIT) <==> c & 1 == 1)
    ensures (Bit(c, PROM) <==> (c >> 15) & 1 == 1) && (Bit(c, DTX) <==> (c >> 1) & 1 == 1) && (Bit(c, DRX) <==> c & 1 == 1)
  {}

  /** CSR0 without a flag and the interrupt flag. */
  function Rest(c: bv32, flag: bv32): bv32 { c & !(flag | INTR) }

  lemma SetIntrBit(c: bv32, flag: bv32)
    requires flag & INTR == 0
    ensures Bit(SetIntr(c), flag) == Bit(c, flag)
  {
    assert SetIntr(c) & flag == c & flag;
  }

  lemma SetIntrRest(c: bv32, flag: bv32)
    ensures Rest(SetIntr(c), flag) == Rest(c, flag)
  {}

  lemma ClearIntrBit(c: bv32, flag: bv32)
    requires flag & INTR == 0
    ensures Bit(ClearIntr(c), flag) == Bit(c, flag)
  {
    assert ClearIntr(c) & flag == c & flag;
  }

  lemma ClearIntrRest(c: bv32, flag: bv32)
    ensures Rest(ClearIntr(c), flag) == Rest(c, flag)
  {}

  lemma IntrOnly(c: bv32, csr3: bv32, flag: bv32)
    requires flag & INTR == 0
    ensures Rest(WithIntr(c, csr3), flag) == Rest(c, flag) && Bit(WithIntr(c, csr3), flag) == Bit(c, flag)
  {
    hide Bit, Rest, SetIntr, ClearIntr, Unmasked;
    SetIntrBit(c, flag);
    SetIntrRest(c, flag);
    ClearIntrBit(c, flag);
    ClearIntrRest(c, flag);
  }

  lemma ReceivedOnly(c: bv32)
    ensures Bit(PacketIn(c), RINT) && Rest(PacketIn(c), RINT) == Rest(c, RINT)
  {
    assert (c | RINT) & 0xffff_fb7f == c & 0xffff_fb7f;
    assert (c | RINT) & RINT == RINT;
  }

  lemma SentOnly(c: bv32)
    ensures Bit(PacketOut(c), TINT) && Rest(PacketOut(c), TINT) == Rest(c, TINT)
  {
    assert (c | TINT) & 0xffff_fd7f == c & 0xffff_fd7f;
    assert (c | TINT) & TINT == TINT;
  }

  /** A reception sets RINT and a transmission TINT; of the rest of CSR0 only INTR is recomputed. */
  lemma PacketCause(g: Regs, p: nat)
    ensures var c := Step(g, Receive(p)).csr0; Bit(c, RINT) && Rest(c, RINT) == Rest(g.csr0, RINT)
    ensures var c := Step(g, Transmit(p)).csr0; Bit(c, TINT) && Rest(c, TINT) == Rest(g.csr0, TINT)
  {
    ReceivedOnly(g.csr0);
    SentOnly(g.csr0);
    IntrOnly(PacketIn(g.csr0), g.csr3, RINT);
    IntrOnly(PacketOut(g.csr0), g.csr3, TINT);
    hide Bit, Rest, WithIntr, LineUp, PacketIn, PacketOut;
  }

  lemma CauseInterrupts(c: bv32, csr3: bv32, cause: bv32)
    requires cause in {RINT, TINT} && Bit(c, cause) && !Bit(csr3, cause) && Bit(c, IENA)
    ensures LineUp(WithIntr(c, csr3))
  {}

  lemma CauseSet(c: bv32)
    ensures Bit(PacketIn(c), RINT) && Bit(PacketIn(c), IENA) == Bit(c, IENA)
    ensures Bit(PacketOut(c), TINT) && Bit(PacketOut(c), IENA) == Bit(c, IENA)
  {}

  /** With interrupts enabled the line goes up for it, unless CSR3 masks that very cause. */
  lemma PacketInterrupts(g: Regs, p: nat)
    requires Bit(g.csr0, IENA)
    ensures !Bit(g.csr3, RINT) ==> Step(g, Receive(p)).irq
    ensures !Bit(g.csr3, TINT) ==> Step(g, Transmit(p)).irq
  {
    hide Bit, WithIntr, LineUp, PacketIn, PacketOut;
    CauseSet(g.csr0);
    if !Bit(g.csr3, RINT) {
      CauseInterrupts(PacketIn(g.csr0), g.csr3, RINT);
    }
    if !Bit(g.csr3, TINT) {
      CauseInterrupts(PacketOut(g.csr0), g.csr3, TINT);
    }
  }

  /** Recomputing the interrupt makes the line agree with the causes, and keeps the rest. */
  lemma Settles(g: Regs)
    requires OnBits(g.csr0, g.csr15)
    ensures Consistent(Settle(g)) && (Settle(g).irq <==> Due(Settle(g)))
    ensures Bit(Settle(g).csr0, STRT) == Bit(g.csr0, STRT)
  {
    hide Bit, WithIntr, LineUp, OnBits;
    IntrKeepsOn(g.csr0, g.csr3, g.csr15);
    IntrKeepsStart(g.csr0, g.csr3);
    LineIsBits(WithIntr(g.csr0, g.csr3));
    IntrDue(g.csr0, g.csr3);
  }

  lemma InitStep(g: Regs, v: bv32, b: InitBlock, h: bool)
    requires OnBits(g.csr0, g.csr15)
    ensures var g' := AfterInit(g, v, b, h);
            && OnBits(g'.csr0, g'.csr15) && Bit(g'.csr0, STRT) == Bit(g.csr0, STRT)
            && g'.rx.pos == g.rx.pos && g'.tx.pos == g.tx.pos
            && (if Bit(v, INIT) && h then g'.rx.len == b.rxLen && g'.tx.len == b.txLen
                else g'.rx == g.rx && g'.tx == g.tx)
  {
    hide Bit, WithOn, OnBits, Initializing, Initialized;
    InitKeepsOn(g.csr0, g.csr15);
    var c := Initializing(g.csr0);
    IdonKeeps(c);
    NotBoth(c, g.csr15);
    OnAgrees(Initialized(c), b.mode);
    OnKeeps(Initialized(c), b.mode);
  }

  lemma PacketEnables(g: Regs, p: nat)
    ensures var g' := Step(g, Receive(p)); Bit(g'.csr0, IENA) && !Bit(g.csr3, RINT) ==> g'.irq
    ensures var g' := Step(g, Transmit(p)); Bit(g'.csr0, IENA) && !Bit(g.csr3, TINT) ==> g'.irq
  {
    CauseSet(g.csr0);
    IntrKeepsStart(PacketIn(g.csr0), g.csr3);
    IntrKeepsStart(PacketOut(g.csr0), g.csr3);
    hide Bit, WithIntr, LineUp, PacketIn, PacketOut;
    if Bit(g.csr0, IENA) {
      PacketInterrupts(g, p);
    }
  }

  lemma InitFlags(c: bv32)
    ensures Bit(Initializing(c), INIT) && !Bit(Initializing(c), STOP)
    ensures Bit(Initializing(c), IDON) == Bit(c, IDON) && Bit(Initializing(c), IENA) == Bit(c, IENA)
  {}

  lemma InitializedFlags(c: bv32)
    ensures Bit(Initialized(c), IDON) && Bit(Initialized(c), IENA) == Bit(c, IENA)
    ensures Bit(Initialized(c), INIT) == Bit(c, INIT) && Bit(Initialized(c), STOP) == Bit(c, STOP)
  {}

  lemma OnFlags(c: bv32, csr15: bv32)
    ensures Bit(WithOn(c, csr15), INIT) == Bit(c, INIT) && Bit(WithOn(c, csr15), IDON) == Bit(c, IDON)
    ensures Bit(WithOn(c, csr15), STOP) == Bit(c, STOP) && Bit(WithOn(c, csr15), IENA) == Bit(c, IENA)
  {}

  lemma StartFlags(c: bv32)
    ensures !Bit(Starting(c), STOP) && Bit(Starting(c), INIT) == Bit(c, INIT)
    ensures Bit(Starting(c), IDON) == Bit(c, IDON) && Bit(Starting(c), IENA) == Bit(c, IENA)
  {}

  lemma AfterInitFlags(g: Regs, v: bv32, b: InitBlock, h: bool)
    ensures var c, c' := g.csr0, AfterInit(g, v, b, h).csr0;
            && (Bit(c', INIT) <==> Bit(c, INIT) || Bit(v, INIT))
            && (Bit(c', STOP) <==> Bit(c, STOP) && !Bit(v, INIT))
            && (Bit(c', IDON) <==> Bit(c, IDON) || (Bit(v, INIT) && h))
            && Bit(c', IENA) == Bit(c, IENA)
  {
    hide Bit, Initializing, Initialized, WithOn;
    InitFlags(g.csr0);
    InitializedFlags(Initializing(g.csr0));
    OnFlags(Initialized(Initializing(g.csr0)), b.mode);
  }

  lemma AfterStartFlags(g: Regs, v: bv32)
    ensures var c, c' := g.csr0, AfterStart(g, v).csr0;
            && Bit(c', INIT) == Bit(c, INIT) && (Bit(c', STOP) <==> Bit(c, STOP) && !Bit(v, STRT))
            && Bit(c', IDON) == Bit(c, IDON) && Bit(c', IENA) == Bit(c, IENA)
  {
    hide Bit, Starting, WithOn;
    StartFlags(g.csr0);
    OnFlags(Starting(g.csr0), g.csr15);
  }

  lemma AckKeepsFlags(c: bv32, v: bv32, clears: int)
    ensures Bit(Acknowledged(c, v, clears), INIT) == Bit(c, INIT)
    ensures Bit(Acknowledged(c, v, clears), STOP) == Bit(c, STOP)
  {}

  /** A CSR0 write without STOP, flag by flag: INIT and STRT leave the stopped state, a block that is fetched sets
      IDON, and IENA is set by a write and kept. */
  lemma WriteFlags(g: Regs, v: bv32, b: InitBlock, h: bool)
    requires !Bit(v, STOP)
    ensures var c, c' := g.csr0, AfterCsr0(g, v, b, h).csr0;
            && (Bit(c', INIT) <==> Bit(c, INIT) || Bit(v, INIT))
            && (Bit(c', STOP) <==> Bit(c, STOP) && !Bit(v, INIT) && !Bit(v, STRT))
            && (Bit(c', IDON) <==> (Bit(c, IDON) && !Bit(v, IDON)) || (Bit(v, INIT) && h))
            && (Bit(c', IENA) <==> Bit(c, IENA) || Bit(v, IENA))
  {
    hide Bit, Acknowledged, AfterInit, AfterStart, WithIntr, LineUp, Rest;
    AcknowledgeBits(g.csr0, v, g.clears);
    AckKeepsFlags(g.csr0, v, g.clears);
    var g1 := AfterAck(g, v);
    AfterInitFlags(g1, v, b, h);
    var g2 := AfterInit(g1, v, b, h);
    AfterStartFlags(g2, v);
    var g3 := AfterStart(g2, v);
    IntrOnly(g3.csr0, g3.csr3, INIT);
    IntrOnly(g3.csr0, g3.csr3, STOP);
    IntrOnly(g3.csr0, g3.csr3, IDON);
    IntrOnly(g3.csr0, g3.csr3, IENA);
  }

  /** With STOP everything else goes, pending causes and the interrupt included, and both rings start over. */
  lemma StopClears(g: Regs, v: bv32, b: InitBlock, h: bool)
    requires Bit(v, STOP)
    ensures AfterCsr0(g, v, b, h) == g.(csr0 := 0x0004, irq := false, rx := g.rx.(pos := 0), tx := g.tx.(pos := 0))
  {
    NoCause(g.csr3);
    hide Bit, WithIntr, LineUp;
  }

  lemma NoCause(csr3: bv32)
    ensures WithIntr(STOP, csr3) == 0x0004 && !LineUp(0x0004)
  {}

  lemma NotBoth(csr0: bv32, csr15: bv32)
    requires OnBits(csr0, csr15)
    ensures !(Bit(csr0, STOP) && Bit(csr0, STRT))
    ensures Bit(csr0, RXON) || Bit(csr0, TXON) ==> Bit(csr0, STRT)
  {}

  lemma StartStep(g: Regs, v: bv32)
    requires OnBits(g.csr0, g.csr15)
    ensures var g' := AfterStart(g, v);
            && OnBits(g'.csr0, g'.csr15) && g'.rx == g.rx && g'.tx == g.tx
            && Bit(g'.csr0, STRT) == (Bit(g.csr0, STRT) || Bit(v, STRT))
  {
    hide Bit, WithOn, OnBits, Starting;
    var c := Starting(g.csr0);
    Started(g.csr0);
    OnAgrees(c, g.csr15);
    OnKeeps(c, g.csr15);
  }

  /** A write to CSR0 that does not stop the chip. */
  lemma WriteStep(g: Regs, v: bv32, b: InitBlock, h: bool)
    requires OnBits(g.csr0, g.csr15) && !Bit(v, STOP)
    ensures var g' := AfterCsr0(g, v, b, h);
            && Consistent(g') && (g'.irq <==> Due(g'))
            && Bit(g'.csr0, STRT) == (Bit(g.csr0, STRT) || Bit(v, STRT))
            && g'.rx.pos == g.rx.pos && g'.tx.pos == g.tx.pos
            && (if Bit(v, INIT) && h then g'.rx.len == b.rxLen && g'.tx.len == b.txLen
                else g'.rx == g.rx && g'.tx == g.tx)
  {
    hide Bit, Acknowledged, OnBits, AfterInit, AfterStart, Settle, Due, Consistent;
    AckKeepsOn(g.csr0, v, g.clears, g.csr15);
    var g1 := AfterAck(g, v);
    InitStep(g1, v, b, h);
    var g2 := AfterInit(g1, v, b, h);
    StartStep(g2, v);
    var g3 := AfterStart(g2, v);
    Settles(g3);
    SettleKeepsRings(g3);
  }

  lemma SettleKeepsRings(g: Regs)
    ensures Settle(g).rx == g.rx && Settle(g).tx == g.tx
  {}

  lemma StopStep(g: Regs, v: bv32, b: InitBlock, h: bool)
    requires Bit(v, STOP)
    ensures var g' := AfterCsr0(g, v, b, h);
            && Consistent(g') && (g'.irq <==> Due(g')) && !Bit(g'.csr0, STRT)
            && g'.rx == g.rx.(pos := 0) && g'.tx == g.tx.(pos := 0)
  {
    StopIsOff(g.csr15);
    hide Bit, OnBits, Settle, Due, Consistent;
    var g1 := g.(csr0 := STOP, rx := g.rx.(pos := 0), tx := g.tx.(pos := 0));
    Settles(g1);
    SettleKeepsRings(g1);
  }

  /** An event that recomputes the interrupt. */
  predicate Settling(e: Event) {
    e.Csr0? || e.Receive? || e.Transmit?
  }

  lemma ModeStep(g: Regs, v: bv32)
    requires Consistent(g)
    ensures var g' := Step(g, Csr15(v));
            Consistent(g') && g'.rx == g.rx && g'.tx == g.tx && Bit(g'.csr0, STRT) == Bit(g.csr0, STRT)
  {
    hide Bit, OnBits, WithOn;
    NotBoth(g.csr0, g.csr15);
    OnAgrees(g.csr0, v);
    OnKeeps(g.csr0, v);
  }

  lemma PacketStep(g: Regs, e: Event)
    requires Consistent(g) && (e.Receive? || e.Transmit?)
    ensures var g' := Step(g, e);
            && Consistent(g') && (g'.irq <==> Due(g')) && Bit(g'.csr0, STRT) == Bit(g.csr0, STRT)
            && g'.rx == (if e.Receive? then g.rx.(pos := e.pos) else g.rx)
            && g'.tx == (if e.Transmit? then g.tx.(pos := e.pos) else g.tx)
  {
    hide Bit, OnBits, Settle, Due, Consistent, PacketIn, PacketOut;
    ConsistentOn(g);
    CauseKeepsOn(g.csr0, g.csr15);
    var g1 := if e.Receive? then g.(csr0 := PacketIn(g.csr0), rx := g.rx.(pos := e.pos))
              else g.(csr0 := PacketOut(g.csr0), tx := g.tx.(pos := e.pos));
    Settles(g1);
    SettleKeepsRings(g1);
  }

  lemma StepConsistent(g: Regs, e: Event)
    requires Consistent(g)
    ensures Consistent(Step(g, e))
    ensures Settling(e) ==> (Step(g, e).irq <==> Due(Step(g, e)))
  {
    hide Bit, AfterCsr0, OnBits, Due, TurnOn, Settle, RingLen, Nibble, PacketIn, PacketOut;
    match e
    case Csr0(v, b, h) =>
      ConsistentOn(g);
      if Bit(v, STOP) { StopStep(g, v, b, h); } else { WriteStep(g, v, b, h); }
    case Csr15(v) => ModeStep(g, v);
    case Receive(_) => PacketStep(g, e);
    case Transmit(_) => PacketStep(g, e);
    case _ =>
  }

  lemma ConsistentOn(g: Regs)
    requires Consistent(g)
    ensures OnBits(g.csr0, g.csr15)
  {}

  lemma PowerOnConsistent()
    ensures Consistent(POWER_ON) && InRange(POWER_ON)
  {}

  /** In every reachable state the control bits and the interrupt line agree. */
  lemma {:induction false} AlwaysConsistent(g: Regs, es: seq<Event>)
    requires Consistent(g)
    ensures Consistent(Run(g, es))
    ensures es != [] && Settling(es[|es| - 1]) ==> (Run(g, es).irq <==> Due(Run(g, es)))
    decreases |es|
  {
    hide Consistent, Step, Due;
    if es != [] {
      StepConsistent(g, es[0]);
      AlwaysConsistent(Step(g, es[0]), es[1..]);
      if |es| == 1 {
        assert es[1..] == [];
      } else {
        assert es[1..][|es| - 2] == es[|es| - 1];
      }
    }
  }

  /** A transmission leaves the transmitter on. */
  lemma TransmitKeepsOn(g: Regs, p: nat)
    ensures Bit(Step(g, Transmit(p)).csr0, TXON) == Bit(g.csr0, TXON)
  {}

  lemma {:induction false} RunSnoc(g: Regs, es: seq<Event>, e: Event)
    ensures Run(g, es + [e]) == Step(Run(g, es), e)
    decreases |es|
  {
    hide Step;
    if es == [] {
      assert [] + [e] == [e] && [e][1..] == [];
      assert Run(Step(g, e), []) == Step(g, e);
    } else {
      assert (es + [e])[1..] == es[1..] + [e];
      RunSnoc(Step(g, es[0]), es[1..], e);
    }
  }

  // ---------- Ring positions ----------

  predicate RingInRange(r: RingReg, started: bool) {
    && (r.pos < r.len || (r.len == 0 && r.pos == 0 && r.start == 0))
    && (!started ==> r.pos == 0)
  }

  predicate InRange(g: Regs) {
    RingInRange(g.rx, Bit(g.csr0, STRT)) && RingInRange(g.tx, Bit(g.csr0, STRT))
  }

  /** Whether the event leaves both ring positions below the ring lengths it sets, if it sets any. */
  predicate RoomFor(g: Regs, e: Event) {
    match e
    case Csr0(v, b, h) => (!Bit(v, STOP) && Bit(v, INIT) && h) ==> (g.rx.pos < b.rxLen && g.tx.pos < b.txLen)
    case Csr6(v) => g.rx.pos < RingLen(Nibble(Shifted(v, 8))) && g.tx.pos < RingLen(Nibble(Shifted(v, 12)))
    case _ => true
  }

  predicate Resizes(e: Event) {
    e.Csr6? || (e.Csr0? && !Bit(e.v, STOP) && Bit(e.v, INIT) && e.hasBlock)
  }

  /** A step keeps the ring positions in range exactly when the sizes it sets leave room for them. */
  lemma StepInRange(g: Regs, e: Event)
    requires Consistent(g) && InRange(g) && Possible(g, e)
    ensures InRange(Step(g, e)) <==> RoomFor(g, e)
  {
    hide Bit, AfterCsr0, OnBits, Due, TurnOn, Settle, RingLen, Nibble, PacketIn, PacketOut, Consistent;
    ConsistentOn(g);
    NotBoth(g.csr0, g.csr15);
    match e
    case Csr0(v, b, h) =>
      if Bit(v, STOP) { StopStep(g, v, b, h); } else { WriteStep(g, v, b, h); }
    case Csr15(v) => ModeStep(g, v);
    case Receive(_) => PacketStep(g, e);
    case Transmit(_) => PacketStep(g, e);
    case _ =>
  }

  predicate AllRoom(g: Regs, es: seq<Event>)
    decreases |es|
  {
    es == [] || (RoomFor(g, es[0]) && AllRoom(Step(g, es[0]), es[1..]))
  }

  /** Sizes change only while the chip is not started. */
  predicate ResizedOff(g: Regs, es: seq<Event>)
    decreases |es|
  {
    es == [] || ((Resizes(es[0]) ==> !Bit(g.csr0, STRT)) && ResizedOff(Step(g, es[0]), es[1..]))
  }

  /** Over any run, ring positions stay below ring lengths at every step exactly when every change of the
      sizes leaves room for them. */
  lemma {:induction false} AlwaysInRange(g: Regs, es: seq<Event>)
    requires Consistent(g) && InRange(g) && AllPossible(g, es)
    ensures AllRoom(g, es) <==> forall n :: 0 <= n <= |es| ==> InRange(Run(g, es[..n]))
    decreases |es|
  {
    hide Consistent, InRange, Step, RoomFor, Possible;
    if es == [] {
      assert es[..0] == [];
    } else {
      var g', rest := Step(g, es[0]), es[1..];
      StepConsistent(g, es[0]);
      StepInRange(g, es[0]);
      forall n | 0 < n <= |es|
        ensures Run(g, es[..n]) == Run(g', rest[..n - 1])
      {
        assert es[..n][0] == es[0] && es[..n][1..] == rest[..n - 1];
      }
      assert Run(g, es[..0]) == g;
      if InRange(g') {
        AlwaysInRange(g', rest);
        forall n | 0 <= n <= |rest| && forall k :: 0 <= k <= |es| ==> InRange(Run(g, es[..k]))
          ensures InRange(Run(g', rest[..n]))
        {
          assert Run(g, es[..n + 1]) == Run(g', rest[..n]);
        }
      } else {
        assert rest[..0] == [];
        assert Run(g, es[..1]) == g';
      }
    }
  }

  /** So they do if sizes change only while the chip is not started. */
  lemma {:induction false} ResizedOffInRange(g: Regs, es: seq<Event>)
    requires Consistent(g) && InRange(g) && AllPossible(g, es) && ResizedOff(g, es)
    ensures AllRoom(g, es)
    decreases |es|
  {
    hide Consistent, Step;
    if es != [] {
      OffHasRoom(g, es[0]);
      StepConsistent(g, es[0]);
      StepInRange(g, es[0]);
      ResizedOffInRange(Step(g, es[0]), es[1..]);
    }
  }

  lemma OffHasRoom(g: Regs, e: Event)
    requires InRange(g) && Possible(g, e) && (Resizes(e) ==> !Bit(g.csr0, STRT))
    ensures RoomFor(g, e)
  {}

  /** Without that rule they need not: one packet into a ring of two, then a smaller ring. */
  lemma ResizeWhileStarted()
    ensures var b := InitBlock(0, 2, 1, 16, 0);
            var es := [Csr0(INIT | STRT, b, true), Receive(1), Csr6(0)];
            AllPossible(POWER_ON, es) && !InRange(Run(POWER_ON, es))
  {
    var b := InitBlock(0, 2, 1, 16, 0);
    var e0, e1, e2 := Csr0(INIT | STRT, b, true), Receive(1), Csr6(0);
    var g1 := Step(POWER_ON, e0);
    assert g1.csr0 == 0x01b3 && g1.rx == RingReg(16, 2, 0);
    var g2 := Step(g1, e1);
    assert g2.rx == RingReg(16, 2, 1);
    var g3 := Step(g2, e2);
    assert Nibble(0) == 0;
    assert g3.rx == RingReg(16, 1, 1);
    var es := [e0, e1, e2];
    assert es[1..] == [e1, e2] && [e1, e2][1..] == [e2] && [e2][1..] == [];
    assert Possible(POWER_ON, e0) && Possible(g1, e1) && Possible(g2, e2);
    hide Step, Possible;
    assert AllPossible(g3, []);
    assert AllPossible(g2, [e2]);
    assert AllPossible(g1, [e1, e2]);
    assert Run(POWER_ON, es) == Run(g1, [e1, e2]) == Run(g2, [e2]) == g3;
  }
}
