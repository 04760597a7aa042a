/** Runs of the whole controller: register writes, frames from the network and passes over the transmit ring,
    with a guest that changes its memory in between as it likes. */
module ChipRuns {
  import opened Bytes
  import opened PhysMem
  import opened DescRing
  import opened RxRing
  import opened ChipRegs
  import TxRing

  /** The event that a write of `v` to control register `n` is. */
  function WriteEvent(n: nat, v: bv32, ram: seq<byte>, addr: bv32): (e: Event)
    ensures e.Csr0? ==> e.block.rxLen >= 1 && e.block.txLen >= 1
  {
    if n == 0 then Csr0(v, ReadInitBlock(ram, Address(addr)), addr != 0)
    else if n == 6 then Csr6(v)
    else if n == 15 then Csr15(v)
    else OtherCsr(n, v)
  }

  /** Transmissions of the first `n` chains, as events on the control registers. */
  ghost function Departures(r: Ring, q: seq<Span>, n: nat): seq<Event>
    requires n <= |q| && TxRing.Shaped(q)
  {
    if n == 0 then [] else Departures(r, q, n - 1) + [Transmit(Next(r, TxRing.Last(q[n - 1])))]
  }

  /** What the chip is called for: a register write with the initialization address, a frame with the verdict of
      the address filter, or a pass over the transmit ring, with what the network takes and the guest has queued. */
  datatype Call =
    | WriteReg(n: nat, v: bv32, addr: bv32)
    | Frame(pkt: seq<byte>, accepted: bool)
    | Pass(can: seq<bool>, q: seq<Span>, t: seq<Span>)

  /** A call, with the guest memory at that time and whether descriptors are swapped. */
  datatype Turn = Turn(ram: seq<byte>, swapped: bool, call: Call)

  function RingOf(g: RingReg, swapped: bool): Ring {
    Ring(Address(g.start), g.len, swapped)
  }

  predicate Receiving(g: Regs) {
    g.rx.start != 0 && Bit(g.csr0, RXON) && g.rx.pos < g.rx.len
  }

  predicate Sending(g: Regs) {
    g.tx.start != 0 && Bit(g.csr0, TXON) && g.tx.pos < g.tx.len
  }

  /** Whether a pass runs into the chain that the guest has not finished. */
  predicate RunsInto(can: seq<bool>, q: seq<Span>, t: seq<Span>) {
    var n := TxRing.Leading(can, |q|);
    n == |q| && n < |can| && can[n] && t != []
  }

  /** The events of a call, with the ring positions that the receive and transmit loops arrive at. */
  ghost function EventsOf(g: Regs, x: Turn): seq<Event> {
    match x.call
    case WriteReg(n, v, addr) => [WriteEvent(n, v, x.ram, addr)]
    case Frame(pkt, accepted) =>
      var r := RingOf(g.rx, x.swapped);
      if accepted && Receiving(g) && Owned(W1(x.ram, r, g.rx.pos)) then
        [Receive(Reception(r, x.ram, g.rx.pos, pkt).pos)]
      else []
    case Pass(can, q, t) =>
      if Sending(g) && TxRing.Shaped(q) && TxRing.Shaped(t) then PassEvents(RingOf(g.tx, x.swapped), can, q, t)
      else []
  }

  ghost function PassEvents(r: Ring, can: seq<bool>, q: seq<Span>, t: seq<Span>): seq<Event>
    requires TxRing.Shaped(q) && TxRing.Shaped(t)
  {
    Departures(r, q, TxRing.Leading(can, |q|)) +
    if RunsInto(can, q, t) then [Event.Underflow(Next(r, TxRing.Last(t[0])))] else []
  }

  ghost function After(g: Regs, x: Turn): Regs {
    Run(g, EventsOf(g, x))
  }

  /** For a pass: `q` and `t` are what the transmit ring holds. */
  ghost predicate Laid(g: Regs, x: Turn) {
    x.call.Pass? && Sending(g) ==>
      TxRing.Queue(RingOf(g.tx, x.swapped), x.ram, g.tx.pos, x.call.q, x.call.t)
  }

  /** For a register write: the sizes it sets, if any, leave room for the ring positions. */
  predicate Fits(g: Regs, x: Turn) {
    x.call.WriteReg? ==> RoomFor(g, WriteEvent(x.call.n, x.call.v, x.ram, x.call.addr))
  }

  ghost function RunTurns(g: Regs, xs: seq<Turn>): Regs
    decreases |xs|
  {
    if xs == [] then g else RunTurns(After(g, xs[0]), xs[1..])
  }

  ghost function AllEvents(g: Regs, xs: seq<Turn>): seq<Event>
    decreases |xs|
  {
    if xs == [] then [] else EventsOf(g, xs[0]) + AllEvents(After(g, xs[0]), xs[1..])
  }

  ghost predicate AllLaid(g: Regs, xs: seq<Turn>)
    decreases |xs|
  {
    xs == [] || (Laid(g, xs[0]) && AllLaid(After(g, xs[0]), xs[1..]))
  }

  ghost predicate AllFit(g: Regs, xs: seq<Turn>)
    decreases |xs|
  {
    xs == [] || (Fits(g, xs[0]) && AllFit(After(g, xs[0]), xs[1..]))
  }

  // ---------- Runs of events ----------

  lemma {:induction false} RunAppend(g: Regs, es: seq<Event>, fs: seq<Event>)
    ensures Run(g, es + fs) == Run(Run(g, es), fs)
    ensures AllPossible(g, es + fs) <==> AllPossible(g, es) && AllPossible(Run(g, es), fs)
    decreases |es|
  {
    hide Step, Possible;
    if es == [] {
      assert [] + fs == fs;
    } else {
      assert (es + fs)[1..] == es[1..] + fs;
      RunAppend(Step(g, es[0]), es[1..], fs);
    }
  }

  lemma OneEvent(g: Regs, e: Event)
    ensures Run(g, [e]) == Step(g, e) && (AllPossible(g, [e]) <==> Possible(g, e))
  {
    hide Step, Possible;
    assert [e][1..] == [];
  }

  lemma NoEvents(g: Regs)
    ensures Run(g, []) == g && AllPossible(g, [])
  {}

  // ---------- Every call is possible ----------

  /** What a pass keeps from one chain to the next. */
  ghost predicate Held(g: Regs, g': Regs) {
    Consistent(g') && InRange(g') && Sending(g') && g'.tx.len == g.tx.len
  }

  lemma DepartureStep(g: Regs, g': Regs, p: nat)
    requires Held(g, g') && p < g.tx.len
    ensures Possible(g', Transmit(p)) && Held(g, Step(g', Transmit(p)))
  {
    hide Bit, Consistent, InRange, OnBits, Settle, PacketOut, Due;
    StepConsistent(g', Transmit(p));
    StepInRange(g', Transmit(p));
    TransmitKeepsOn(g', p);
    PacketStep(g', Transmit(p));
  }

  lemma {:induction false} DeparturesHeld(g: Regs, r: Ring, q: seq<Span>, n: nat)
    requires Held(g, g) && r.len == g.tx.len && n <= |q| && TxRing.Shaped(q)
    requires forall i :: 0 <= i < |q| ==> TxRing.Last(q[i]) < r.len
    ensures AllPossible(g, Departures(r, q, n)) && Held(g, Run(g, Departures(r, q, n)))
  {
    hide Held, Step, Possible;
    if n == 0 {
      NoEvents(g);
    } else {
      DeparturesHeld(g, r, q, n - 1);
      var es, e := Departures(r, q, n - 1), Transmit(Next(r, TxRing.Last(q[n - 1])));
      assert Departures(r, q, n) == es + [e];
      RunAppend(g, es, [e]);
      OneEvent(Run(g, es), e);
      DepartureStep(g, Run(g, es), e.pos);
    }
  }

  lemma PassPossible(g: Regs, x: Turn)
    requires Consistent(g) && InRange(g) && Laid(g, x) && x.call.Pass? && Sending(g)
    ensures AllPossible(g, EventsOf(g, x)) && Consistent(After(g, x)) && InRange(After(g, x))
  {
    hide Consistent, InRange, Step, Departures, Bit, TxRing.Queue;
    var r, q, t := RingOf(g.tx, x.swapped), x.call.q, x.call.t;
    TxRing.QueueShaped(r, x.ram, g.tx.pos, q, t);
    TxRing.QueueInRing(r, x.ram, g.tx.pos, q, t);
    var es := Departures(r, q, TxRing.Leading(x.call.can, |q|));
    DeparturesHeld(g, r, q, TxRing.Leading(x.call.can, |q|));
    if RunsInto(x.call.can, q, t) {
      var e, g' := Event.Underflow(Next(r, TxRing.Last(t[0]))), Run(g, es);
      RunAppend(g, es, [e]);
      OneEvent(g', e);
      StepConsistent(g', e);
      StepInRange(g', e);
    } else {
      assert es + [] == es;
    }
  }

  lemma WritePossible(g: Regs, n: nat, v: bv32, ram: seq<byte>, addr: bv32)
    ensures Possible(g, WriteEvent(n, v, ram, addr))
  {
    hide ReadInitBlock, Address;
  }

  /** Every call does only what is possible, keeps control bits and interrupt line in agreement, and keeps the
      ring positions in range exactly if it is not a write of sizes that leave them no room. */
  lemma TurnKeeps(g: Regs, x: Turn)
    requires Consistent(g) && InRange(g) && Laid(g, x)
    ensures AllPossible(g, EventsOf(g, x)) && Consistent(After(g, x))
    ensures InRange(After(g, x)) <==> Fits(g, x)
  {
    hide Consistent, InRange, Step, Bit, Owned, Reception, PassEvents, WriteEvent;
    match x.call
    case WriteReg(n, v, addr) =>
      var e := WriteEvent(n, v, x.ram, addr);
      WritePossible(g, n, v, x.ram, addr);
      OneEvent(g, e);
      StepConsistent(g, e);
      StepInRange(g, e);
    case Frame(pkt, accepted) =>
      var r := RingOf(g.rx, x.swapped);
      if accepted && Receiving(g) && Owned(W1(x.ram, r, g.rx.pos)) {
        ReceptionInRing(r, x.ram, g.rx.pos, pkt);
        var e := Receive(Reception(r, x.ram, g.rx.pos, pkt).pos);
        OneEvent(g, e);
        StepConsistent(g, e);
        StepInRange(g, e);
      } else {
        NoEvents(g);
      }
    case Pass(can, q, t) =>
      if Sending(g) {
        PassPossible(g, x);
      } else {
        NoEvents(g);
      }
  }

  // ---------- One call ----------

  lemma AfterWrite(g: Regs, x: Turn)
    requires x.call.WriteReg?
    ensures After(g, x) == Step(g, WriteEvent(x.call.n, x.call.v, x.ram, x.call.addr))
  {
    hide WriteEvent;
    OneEvent(g, WriteEvent(x.call.n, x.call.v, x.ram, x.call.addr));
  }

  lemma AfterFrame(g: Regs, x: Turn)
    requires x.call.Frame?
    ensures var r := RingOf(g.rx, x.swapped);
            After(g, x) ==
            if x.call.accepted && Receiving(g) && Owned(W1(x.ram, r, g.rx.pos)) then
              Step(g, Receive(Reception(r, x.ram, g.rx.pos, x.call.pkt).pos))
            else g
  {
    hide Owned, Reception, Bit, Step;
    var r := RingOf(g.rx, x.swapped);
    if x.call.accepted && Receiving(g) && Owned(W1(x.ram, r, g.rx.pos)) {
      OneEvent(g, Receive(Reception(r, x.ram, g.rx.pos, x.call.pkt).pos));
    }
  }

  lemma AfterPass(g: Regs, x: Turn)
    requires x.call.Pass?
    ensures var (r, can, q, t) := (RingOf(g.tx, x.swapped), x.call.can, x.call.q, x.call.t);
            After(g, x) ==
            if Sending(g) && TxRing.Shaped(q) && TxRing.Shaped(t) then
              var g' := Run(g, Departures(r, q, TxRing.Leading(can, |q|)));
              if RunsInto(can, q, t) then Step(g', Event.Underflow(Next(r, TxRing.Last(t[0])))) else g'
            else g
  {
    hide Bit, Step, Departures;
    var (r, can, q, t) := (RingOf(g.tx, x.swapped), x.call.can, x.call.q, x.call.t);
    if Sending(g) && TxRing.Shaped(q) && TxRing.Shaped(t) {
      var es := Departures(r, q, TxRing.Leading(can, |q|));
      if RunsInto(can, q, t) {
        RunAppend(g, es, [Event.Underflow(Next(r, TxRing.Last(t[0])))]);
        OneEvent(Run(g, es), Event.Underflow(Next(r, TxRing.Last(t[0]))));
      } else {
        assert es + [] == es;
      }
    }
  }

  // ---------- Whole runs ----------

  /** Over any run of calls, the ring positions are in range after every call exactly when every write of sizes
      leaves room for them. */
  lemma {:induction false} DeviceInRange(g: Regs, xs: seq<Turn>)
    requires Consistent(g) && InRange(g) && AllLaid(g, xs)
    ensures AllFit(g, xs) <==> forall n :: 0 <= n <= |xs| ==> InRange(RunTurns(g, xs[..n]))
    decreases |xs|
  {
    hide Consistent, InRange, After, Laid, Fits;
    if xs == [] {
      assert xs[..0] == [];
    } else {
      var g', rest := After(g, xs[0]), xs[1..];
      TurnKeeps(g, xs[0]);
      forall n | 0 < n <= |xs|
        ensures RunTurns(g, xs[..n]) == RunTurns(g', rest[..n - 1])
      {
        assert xs[..n][0] == xs[0] && xs[..n][1..] == rest[..n - 1];
      }
      assert RunTurns(g, xs[..0]) == g;
      if InRange(g') {
        DeviceInRange(g', rest);
        forall n | 0 <= n <= |rest| && forall k :: 0 <= k <= |xs| ==> InRange(RunTurns(g, xs[..k]))
          ensures InRange(RunTurns(g', rest[..n]))
        {
          assert RunTurns(g, xs[..n + 1]) == RunTurns(g', rest[..n]);
        }
      } else {
        assert rest[..0] == [];
        assert RunTurns(g, xs[..1]) == g';
      }
    }
  }

  /** The events of such a run are a possible run of the control registers, so what is true of every possible
      run is true of the device. */
  lemma {:induction false} DeviceRunsPossible(g: Regs, xs: seq<Turn>)
    requires Consistent(g) && InRange(g) && AllLaid(g, xs) && AllFit(g, xs)
    ensures AllPossible(g, AllEvents(g, xs)) && RunTurns(g, xs) == Run(g, AllEvents(g, xs))
    ensures Consistent(RunTurns(g, xs)) && InRange(RunTurns(g, xs))
    decreases |xs|
  {
    hide Consistent, InRange, EventsOf, Laid, Fits, Run, AllPossible;
    if xs == [] {
      NoEvents(g);
    } else {
      TurnKeeps(g, xs[0]);
      DeviceRunsPossible(After(g, xs[0]), xs[1..]);
      RunAppend(g, EventsOf(g, xs[0]), AllEvents(After(g, xs[0]), xs[1..]));
    }
  }

  /** The guest writes sizes only while the chip is not started. */
  ghost predicate SizedOff(g: Regs, xs: seq<Turn>)
    decreases |xs|
  {
    xs == [] || (
      && (xs[0].call.WriteReg? && Resizes(WriteEvent(xs[0].call.n, xs[0].call.v, xs[0].ram, xs[0].call.addr)) ==>
            !Bit(g.csr0, STRT))
      && SizedOff(After(g, xs[0]), xs[1..]))
  }

  /** With such a guest the ring positions never leave the rings. */
  lemma {:induction false} DeviceSizedOff(g: Regs, xs: seq<Turn>)
    requires Consistent(g) && InRange(g) && AllLaid(g, xs) && SizedOff(g, xs)
    ensures AllFit(g, xs) && InRange(RunTurns(g, xs)) && Consistent(RunTurns(g, xs))
    decreases |xs|
  {
    hide Consistent, InRange, After, Laid, WriteEvent, RoomFor, Resizes, Possible;
    if xs != [] {
      if xs[0].call.WriteReg? {
        var e := WriteEvent(xs[0].call.n, xs[0].call.v, xs[0].ram, xs[0].call.addr);
        WritePossible(g, xs[0].call.n, xs[0].call.v, xs[0].ram, xs[0].call.addr);
        OffHasRoom(g, e);
      }
      TurnKeeps(g, xs[0]);
      DeviceSizedOff(After(g, xs[0]), xs[1..]);
    }
  }
}
