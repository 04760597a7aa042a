/** Chains of switches between two bridges, as a network of links with cells in flight. */
module AtmChain {
  import opened Bytes
  import opened Hec
  import opened Atm
  import opened AtmVsar
  import opened AtmBridge
  import opened AtmSwitch
  import opened AtmNetwork

  // ---------- Headers ----------

  /** One hop of a chain: a switch state, the NIO the cell comes in on, the NIO wired to the next hop. */
  datatype Hop = Hop(s: State, input: string, output: string)

  /** The header a cell has after a chain of hops; None if some hop drops it or sends it elsewhere. */
  function Chain(hops: seq<Hop>, hdr: bv32): Option<bv32>
    decreases |hops|
  {
    if hops == [] then Some(hdr)
    else match Forward(hops[0].s, hops[0].input, hdr)
      case None => None
      case Some(r) => if r.output == hops[0].output then Chain(hops[1..], r.hdr) else None
  }

  lemma EopKeepsLabel(hdr: bv32)
    ensures VpiOf(WithEop(hdr)) == VpiOf(hdr) && VciOf(WithEop(hdr)) == VciOf(hdr)
  {}

  lemma HdrIsLabel(hdr: bv32)
    requires hdr & 0xf == 0
    ensures hdr == Label(VpiOf(hdr), VciOf(hdr)) && LabelFits(VpiOf(hdr), VciOf(hdr))
  {}

  /** A hop changes VPI and VCI only: PTI and the low header bit stay, and so does the choice of route when
      the end-of-packet bit is set. */
  lemma HopKeeps(s: State, input: string, hdr: bv32)
    ensures var r := Forward(s, input, hdr);
            && (r.Some? ==> r.value.hdr & 0xf == hdr & 0xf)
            && Forward(s, input, WithEop(hdr)) ==
               if r.Some? then Some(Route(r.value.output, WithEop(r.value.hdr))) else None
  {
    EopKeepsLabel(hdr);
    hide VpHdr, VcHdr, WithEop, VpiOf, VciOf;
    var vp, vc := VpKeyOf(input, hdr), VcKeyOf(input, hdr);
    if vp in s.vps {
      VpHdrKeeps(hdr, s.vps[vp].vpiOut);
    } else if vc in s.vcs {
      VcHdrKeeps(hdr, s.vcs[vc].vpiOut, s.vcs[vc].vciOut);
    }
  }

  lemma {:induction false} ChainKeeps(hops: seq<Hop>, hdr: bv32)
    ensures var h := Chain(hops, hdr);
            && (h.Some? ==> h.value & 0xf == hdr & 0xf)
            && Chain(hops, WithEop(hdr)) == if h.Some? then Some(WithEop(h.value)) else None
    decreases |hops|
  {
    hide WithEop, Forward;
    if hops != [] {
      HopKeeps(hops[0].s, hops[0].input, hdr);
      var r := Forward(hops[0].s, hops[0].input, hdr);
      if r.Some? && r.value.output == hops[0].output {
        ChainKeeps(hops[1..], r.value.hdr);
      }
    }
  }

  // ---------- Cells ----------

  /** What the next hop gets for a cell from `input`; None if the cell is dropped or goes elsewhere. */
  function HopCell(h: Hop, input: string, c: Cell): Option<Cell> {
    match Forward(h.s, input, HdrOf(c))
    case None => None
    case Some(r) => if r.output == h.output then Some(MakeCell(r.hdr, PayloadOf(c))) else None
  }

  /** A cell after a chain of switches, hop by hop. */
  function ChainCell(hops: seq<Hop>, c: Cell): Option<Cell>
    decreases |hops|
  {
    if hops == [] then Some(c)
    else match HopCell(hops[0], hops[0].input, c)
      case None => None
      case Some(c') => ChainCell(hops[1..], c')
  }

  /** It has its payload, the header that the chain gives, and a valid HEC for that header. */
  lemma {:induction false} ChainCellFields(hops: seq<Hop>, c: Cell)
    ensures ChainCell(hops, c) ==
            match Chain(hops, HdrOf(c))
            case None => None
            case Some(h) => Some(if hops == [] then c else MakeCell(h, PayloadOf(c)))
    decreases |hops|
  {
    hide Forward, HdrOf, PayloadOf, MakeCell, HecValid;
    if hops != [] {
      var r := Forward(hops[0].s, hops[0].input, HdrOf(c));
      if r.Some? && r.value.output == hops[0].output {
        MakeCellFields(r.value.hdr, PayloadOf(c));
        ChainCellFields(hops[1..], MakeCell(r.value.hdr, PayloadOf(c)));
        if |hops| == 1 {
          assert hops[1..] == [];
        }
      }
    }
  }

  /** Switched cells of a packet are exactly the cells a sender with the final label would have sent. */
  lemma ChainSegment(hops: seq<Hop>, hdr: bv32, data: seq<byte>, i: nat)
    requires i < CellCount(|data|) && Chain(hops, hdr).Some?
    ensures ChainCell(hops, Segment(hdr, data)[i]) == Some(Segment(Chain(hops, hdr).value, data)[i])
  {
    hide Segment, Chain, MakeCell, HdrOf, PayloadOf, WithEop, Pdu, HecValid, ChainCell;
    var h := Chain(hops, hdr).value;
    ChainCellFields(hops, Segment(hdr, data)[i]);
    ChainKeeps(hops, hdr);
    SegmentCell(hdr, data, i);
    SegmentAt(h, data, i);
    if hops == [] {
      NoHops(hdr);
    }
  }

  lemma NoHops(hdr: bv32)
    ensures Chain([], hdr) == Some(hdr)
  {}

  lemma SegmentAt(hdr: bv32, data: seq<byte>, i: nat)
    requires i < CellCount(|data|)
    ensures Segment(hdr, data)[i] ==
            MakeCell(if i == CellCount(|data|) - 1 then WithEop(hdr) else hdr, Chunk(Pdu(data), i))
  {
    hide MakeCell, WithEop, Pdu;
  }

  /** The cells of a stream that pass a chain, as they leave it. */
  function Through(hops: seq<Hop>, cells: seq<Cell>): seq<Cell> {
    if cells == [] then []
    else
      var rest := Through(hops, cells[1..]);
      match ChainCell(hops, cells[0])
      case None => rest
      case Some(c) => [c] + rest
  }

  lemma {:induction false} ThroughConcat(hops: seq<Hop>, a: seq<Cell>, b: seq<Cell>)
    ensures Through(hops, a + b) == Through(hops, a) + Through(hops, b)
  {
    hide ChainCell;
    if a == [] {
      assert a + b == b;
    } else {
      assert (a + b)[1..] == a[1..] + b;
      ThroughConcat(hops, a[1..], b);
    }
  }

  lemma ThroughOne(hops: seq<Hop>, c: Cell)
    ensures Through(hops, [c]) == match ChainCell(hops, c) case None => [] case Some(x) => [x]
  {
    hide ChainCell;
    assert [c][1..] == [];
    assert Through(hops, []) == [];
  }

  lemma {:induction false} ThroughSegment(hops: seq<Hop>, hdr: bv32, data: seq<byte>, i: nat)
    requires i <= CellCount(|data|) && Chain(hops, hdr).Some?
    ensures Through(hops, Segment(hdr, data)[i..]) == Segment(Chain(hops, hdr).value, data)[i..]
    decreases CellCount(|data|) - i
  {
    hide Segment, Chain, ChainCell;
    var cells, cells' := Segment(hdr, data), Segment(Chain(hops, hdr).value, data);
    SegmentSize(hdr, data);
    SegmentSize(Chain(hops, hdr).value, data);
    if i < CellCount(|data|) {
      ThroughSegment(hops, hdr, data, i + 1);
      ChainSegment(hops, hdr, data, i);
      assert cells[i..][1..] == cells[i + 1..] && cells'[i..] == [cells'[i]] + cells'[i + 1..];
    }
  }

  lemma SegmentSize(hdr: bv32, data: seq<byte>)
    ensures |Segment(hdr, data)| == CellCount(|data|)
  {}

  /** What a bridge sends comes out as what a bridge at the final label would have sent. */
  lemma {:induction false} ThroughFrames(hops: seq<Hop>, t: Circuit, t': Circuit, frames: seq<seq<byte>>)
    requires Chain(hops, Label(t.vpi, t.vci)) == Some(Label(t'.vpi, t'.vci))
    ensures Through(hops, SendAll(t, frames)) == SendAll(t', frames)
  {
    hide ChainCell, Chain, Segment, Label, Wrapped;
    if frames != [] {
      ThroughFrames(hops, t, t', frames[1..]);
      ThroughConcat(hops, SendFrame(t, frames[0]), SendAll(t, frames[1..]));
      var a, b := SendFrame(t, frames[0]), SendFrame(t', frames[0]);
      assert a[0..] == a && b[0..] == b;
      ThroughSegment(hops, Label(t.vpi, t.vci), Wrapped(frames[0]), 0);
    }
  }

  // ---------- The network ----------

  /** A cell on a link; `ours` marks those that entered the chain at its first hop. */
  datatype Flit = Flit(c: Cell, ours: bool)

  /** A chain of switches with the link into each, and last the link out of the chain; links keep order. */
  datatype Net = Net(hops: seq<Hop>, links: seq<seq<Flit>>)

  /** A cell enters the chain, a switch handles the next cell of its link, or one from anywhere else. */
  datatype Happening = Enter(c: Cell) | Handle(k: nat) | Foreign(k: nat, input: string, c: Cell)

  /** Switch `k` has handled a cell: its counters, and the link to the next hop if the cell goes there. */
  function Switched(net: Net, k: nat, input: string, f: Flit): Net
    requires |net.links| == |net.hops| + 1 && k < |net.hops|
  {
    var h := net.hops[k];
    var hops := net.hops[k := h.(s := AfterCell(h.s, input, HdrOf(f.c)))];
    match HopCell(h, input, f.c)
    case None => net.(hops := hops)
    case Some(c) => Net(hops, net.links[k + 1 := net.links[k + 1] + [Flit(c, f.ours)]])
  }

  function Happens(net: Net, e: Happening): (net': Net)
    requires |net.links| == |net.hops| + 1
    ensures |net'.hops| == |net.hops| && |net'.links| == |net.links|
  {
    match e
    case Enter(c) => net.(links := net.links[0 := net.links[0] + [Flit(c, true)]])
    case Handle(k) =>
      if k < |net.hops| && net.links[k] != [] then
        Switched(net.(links := net.links[k := net.links[k][1..]]), k, net.hops[k].input, net.links[k][0])
      else net
    case Foreign(k, input, c) =>
      if k < |net.hops| then Switched(net, k, input, Flit(c, false)) else net
  }

  function RunNet(net: Net, es: seq<Happening>): (net': Net)
    requires |net.links| == |net.hops| + 1
    ensures |net'.hops| == |net.hops| && |net'.links| == |net.links|
    decreases |es|
  {
    if es == [] then net else RunNet(Happens(net, es[0]), es[1..])
  }

  /** Our cells of a link. */
  function Ours(fs: seq<Flit>): seq<Cell> {
    if fs == [] then [] else (if fs[0].ours then [fs[0].c] else []) + Ours(fs[1..])
  }

  /** The cells that have entered. */
  function Entered(es: seq<Happening>): seq<Cell> {
    if es == [] then [] else (if es[0].Enter? then [es[0].c] else []) + Entered(es[1..])
  }

  /** Our cells that have left the chain and then those that will, from hop `k` on. */
  function Pending(hops: seq<Hop>, links: seq<seq<Flit>>, k: nat): seq<Cell>
    requires |links| == |hops| + 1 && k <= |hops|
    decreases |hops| - k
  {
    if k == |hops| then Ours(links[k])
    else Pending(hops, links, k + 1) + Through(hops[k..], Ours(links[k]))
  }

  // ---------- Counters do not matter ----------

  ghost predicate SameRoutes(s: State, s': State) {
    forall input, hdr :: Forward(s, input, hdr) == Forward(s', input, hdr)
  }

  ghost predicate SameHops(a: seq<Hop>, b: seq<Hop>) {
    |a| == |b| && forall k :: 0 <= k < |a| ==>
      a[k].input == b[k].input && a[k].output == b[k].output && SameRoutes(a[k].s, b[k].s)
  }

  lemma {:induction false} SameCell(a: seq<Hop>, b: seq<Hop>, c: Cell)
    requires SameHops(a, b)
    ensures ChainCell(a, c) == ChainCell(b, c)
    decreases |a|
  {
    hide Forward, HdrOf, PayloadOf, MakeCell;
    if a != [] {
      assert SameRoutes(a[0].s, b[0].s);
      var x := HopCell(a[0], a[0].input, c);
      assert x == HopCell(b[0], b[0].input, c);
      if x.Some? {
        SameCell(a[1..], b[1..], x.value);
      }
    }
  }

  lemma {:induction false} SameThrough(a: seq<Hop>, b: seq<Hop>, cells: seq<Cell>)
    requires SameHops(a, b)
    ensures Through(a, cells) == Through(b, cells)
  {
    hide SameHops, ChainCell;
    if cells != [] {
      SameCell(a, b, cells[0]);
      SameThrough(a, b, cells[1..]);
    }
  }

  lemma {:induction false} SamePending(a: seq<Hop>, b: seq<Hop>, links: seq<seq<Flit>>, links': seq<seq<Flit>>, k: nat)
    requires SameHops(a, b) && |links| == |links'| == |a| + 1 && k <= |a|
    requires forall j :: k <= j <= |a| ==> Ours(links[j]) == Ours(links'[j])
    ensures Pending(a, links, k) == Pending(b, links', k)
    decreases |a| - k
  {
    hide Through, Ours, SameRoutes;
    if k < |a| {
      SamePending(a, b, links, links', k + 1);
      SameThrough(a[k..], b[k..], Ours(links[k]));
    }
  }

  lemma CountedHop(hops: seq<Hop>, k: nat, input: string, hdr: bv32)
    requires k < |hops|
    ensures SameHops(hops, hops[k := hops[k].(s := AfterCell(hops[k].s, input, hdr))])
  {
    hide Forward, AfterCell;
    forall input', hdr'
      ensures Forward(hops[k].s, input', hdr') == Forward(AfterCell(hops[k].s, input, hdr), input', hdr')
    {
      ForwardStable(hops[k].s, input, hdr, input', hdr');
    }
  }

  lemma SameTransitive(a: seq<Hop>, b: seq<Hop>, c: seq<Hop>)
    requires SameHops(a, b) && SameHops(b, c)
    ensures SameHops(a, c)
  {
    hide Forward;
    forall k | 0 <= k < |a|
      ensures SameRoutes(a[k].s, c[k].s)
    {
      assert SameRoutes(a[k].s, b[k].s) && SameRoutes(b[k].s, c[k].s);
    }
  }

  // ---------- Conservation ----------

  lemma {:induction false} OursConcat(a: seq<Flit>, b: seq<Flit>)
    ensures Ours(a + b) == Ours(a) + Ours(b)
  {
    if a == [] {
      assert a + b == b;
    } else {
      assert (a + b)[1..] == a[1..] + b;
      OursConcat(a[1..], b);
    }
  }

  lemma OursOne(f: Flit)
    ensures Ours([f]) == if f.ours then [f.c] else []
  {
    assert [f][1..] == [];
  }

  lemma ThroughPut(hops: seq<Hop>, fs: seq<Flit>, f: Flit)
    ensures Through(hops, Ours(fs + [f])) == Through(hops, Ours(fs)) + if f.ours then Through(hops, [f.c]) else []
  {
    hide Through, Ours;
    OursConcat(fs, [f]);
    OursOne(f);
    if f.ours {
      ThroughConcat(hops, Ours(fs), [f.c]);
    } else {
      assert Ours(fs) + [] == Ours(fs);
    }
  }

  /** A cell put on the link into hop `k` will come out last. */
  lemma PutPending(hops: seq<Hop>, links: seq<seq<Flit>>, k: nat, f: Flit)
    requires |links| == |hops| + 1 && k <= |hops|
    ensures Pending(hops, links[k := links[k] + [f]], k) ==
            Pending(hops, links, k) + if f.ours then Through(hops[k..], [f.c]) else []
  {
    hide Through, SameHops, Ours;
    var links', more := links[k := links[k] + [f]], if f.ours then Through(hops[k..], [f.c]) else [];
    if k < |hops| {
      SameItself(hops);
      SamePending(hops, hops, links, links', k + 1);
      ThroughPut(hops[k..], links[k], f);
      var p, x := Pending(hops, links, k + 1), Through(hops[k..], Ours(links[k]));
      assert (p + x) + more == p + (x + more);
    } else {
      OursConcat(links[k], [f]);
      OursOne(f);
      assert hops[k..] == [];
      ThroughOne([], f.c);
      assert ChainCell([], f.c) == Some(f.c);
    }
  }

  lemma SameItself(hops: seq<Hop>)
    ensures SameHops(hops, hops)
  {
    hide Forward;
  }

  /** What comes out is decided from hop `k` on if the links before it are as they were. */
  lemma {:induction false} LowerPending(hops: seq<Hop>, links: seq<seq<Flit>>, links': seq<seq<Flit>>, k: nat, j: nat)
    requires |links| == |links'| == |hops| + 1 && j <= k <= |hops|
    requires Pending(hops, links, k) == Pending(hops, links', k)
    requires forall i :: 0 <= i < k ==> links[i] == links'[i]
    ensures Pending(hops, links, j) == Pending(hops, links', j)
    decreases k - j
  {
    hide Through, Ours;
    if j < k {
      LowerPending(hops, links, links', k, j + 1);
    }
  }

  /** Handling a cell only moves it: what has come out and what will is the same as before. */
  lemma HandlePending(net: Net, k: nat)
    requires |net.links| == |net.hops| + 1 && k < |net.hops| && net.links[k] != []
    ensures Pending(net.hops, Happens(net, Handle(k)).links, k) == Pending(net.hops, net.links, k)
  {
    hide HopCell, Through, AfterCell, SameHops;
    var hops, links, f := net.hops, net.links, net.links[k][0];
    var rest := links[k := links[k][1..]];
    var net' := Happens(net, Handle(k));
    SameItself(hops);
    SamePending(hops, hops, links, rest, k + 1);
    assert links[k] == [f] + links[k][1..];
    OursConcat([f], links[k][1..]);
    OursOne(f);
    ThroughConcat(hops[k..], Ours([f]), Ours(links[k][1..]));
    var x := HopCell(hops[k], hops[k].input, f.c);
    if f.ours {
      ThroughHop(hops, k, f.c);
    } else {
      NothingThrough(hops[k..]);
    }
    if x.Some? {
      var f' := Flit(x.value, f.ours);
      assert net'.links == rest[k + 1 := rest[k + 1] + [f']];
      PutPending(hops, rest, k + 1, f');
      SamePending(hops, hops, rest[k + 1 := rest[k + 1] + [f']], net'.links, k + 1);
    } else {
      assert net'.links == rest;
    }
  }

  lemma NothingThrough(hops: seq<Hop>)
    ensures Through(hops, []) == []
  {}

  lemma ThroughHop(hops: seq<Hop>, k: nat, c: Cell)
    requires k < |hops|
    ensures Through(hops[k..], [c]) ==
            match HopCell(hops[k], hops[k].input, c) case None => [] case Some(x) => Through(hops[k + 1..], [x])
  {
    hide HopCell, Through;
    ThroughOne(hops[k..], c);
    assert hops[k..][1..] == hops[k + 1..];
    var x := HopCell(hops[k], hops[k].input, c);
    if x.Some? {
      ThroughOne(hops[k + 1..], x.value);
    }
  }

  /** One happening: only a cell that enters adds to what comes out. */
  lemma HappensPending(net: Net, e: Happening)
    requires |net.links| == |net.hops| + 1
    ensures var net' := Happens(net, e);
            && SameHops(net.hops, net'.hops)
            && Pending(net'.hops, net'.links, 0) ==
               Pending(net.hops, net.links, 0) + if e.Enter? then Through(net.hops, [e.c]) else []
  {
    hide Through, Pending, AfterCell, HopCell, SameHops, Ours;
    var net' := Happens(net, e);
    SameItself(net.hops);
    match e
    case Enter(c) =>
      assert net.hops[0..] == net.hops;
      PutPending(net.hops, net.links, 0, Flit(c, true));
    case Handle(k) =>
      if k < |net.hops| && net.links[k] != [] {
        CountedHop(net.hops, k, net.hops[k].input, HdrOf(net.links[k][0].c));
        HandlePending(net, k);
        LowerPending(net.hops, net.links, net'.links, k, 0);
        SamePending(net.hops, net'.hops, net'.links, net'.links, 0);
      }
    case Foreign(k, input, c) =>
      if k < |net.hops| {
        CountedHop(net.hops, k, input, HdrOf(c));
        ForeignLinks(net, k, input, c);
        SamePending(net.hops, net'.hops, net.links, net'.links, 0);
      }
  }

  lemma ForeignLinks(net: Net, k: nat, input: string, c: Cell)
    requires |net.links| == |net.hops| + 1 && k < |net.hops|
    ensures forall j :: 0 <= j < |net.links| ==>
              Ours(Happens(net, Foreign(k, input, c)).links[j]) == Ours(net.links[j])
  {
    hide HopCell, AfterCell, Ours;
    var x := HopCell(net.hops[k], input, c);
    if x.Some? {
      OursConcat(net.links[k + 1], [Flit(x.value, false)]);
      OursOne(Flit(x.value, false));
    }
  }

  /** What the rest of a run gives, with the happening before it. */
  lemma OneMore(net: Net, e: Happening, last: Net, rest: seq<Cell>)
    requires |net.links| == |net.hops| + 1 && |last.links| == |last.hops| + 1
    requires var net1 := Happens(net, e);
             && SameHops(net1.hops, last.hops)
             && Pending(last.hops, last.links, 0) == Pending(net1.hops, net1.links, 0) + Through(net1.hops, rest)
    ensures SameHops(net.hops, last.hops)
    ensures Pending(last.hops, last.links, 0) ==
            Pending(net.hops, net.links, 0) + Through(net.hops, (if e.Enter? then [e.c] else []) + rest)
  {
    hide Pending, Happens, Through, SameHops;
    var first, net1 := if e.Enter? then [e.c] else [], Happens(net, e);
    HappensPending(net, e);
    SameTransitive(net.hops, net1.hops, last.hops);
    SameThrough(net.hops, net1.hops, rest);
    NothingThrough(net.hops);
    ThroughConcat(net.hops, first, rest);
    var p, x, y := Pending(net.hops, net.links, 0), Through(net.hops, first), Through(net.hops, rest);
    assert (p + x) + y == p + (x + y);
  }

  /** Over any run, whatever the order in which switches work and whatever other cells they handle: our cells
      that have left the chain, and those on the way, are what entered, each once and in order. */
  lemma {:induction false} NetConserves(net: Net, es: seq<Happening>)
    requires |net.links| == |net.hops| + 1
    ensures var net' := RunNet(net, es);
            && SameHops(net.hops, net'.hops)
            && Pending(net'.hops, net'.links, 0) == Pending(net.hops, net.links, 0) + Through(net.hops, Entered(es))
    decreases |es|
  {
    hide Pending, Happens, Through, SameHops;
    if es == [] {
      SameItself(net.hops);
      NothingThrough(net.hops);
    } else {
      NetConserves(Happens(net, es[0]), es[1..]);
      OneMore(net, es[0], RunNet(net, es), Entered(es[1..]));
    }
  }

  /** None of our cells is on a link inside the chain. */
  ghost predicate Drained(net: Net)
    requires |net.links| == |net.hops| + 1
  {
    forall k :: 0 <= k < |net.hops| ==> Ours(net.links[k]) == []
  }

  function Idle(hops: seq<Hop>): (net: Net)
    ensures net.hops == hops && |net.links| == |hops| + 1
  {
    Net(hops, seq(|hops| + 1, _ => []))
  }

  lemma {:induction false} OutFirst(hops: seq<Hop>, links: seq<seq<Flit>>, k: nat)
    requires |links| == |hops| + 1 && k <= |hops|
    ensures Ours(links[|hops|]) <= Pending(hops, links, k)
    ensures (forall j :: k <= j < |hops| ==> Ours(links[j]) == []) ==> Ours(links[|hops|]) == Pending(hops, links, k)
    decreases |hops| - k
  {
    hide Ours, ChainCell;
    if k < |hops| {
      OutFirst(hops, links, k + 1);
    }
  }

  lemma {:induction false} IdlePending(hops: seq<Hop>, k: nat)
    requires k <= |hops|
    ensures Pending(hops, Idle(hops).links, k) == []
    decreases |hops| - k
  {
    hide ChainCell;
    if k < |hops| {
      IdlePending(hops, k + 1);
    }
  }

  /** At any time, our cells that have left an initially idle chain are the first of those that pass it, in
      order; all of them once the chain is drained. */
  lemma NetDelivers(hops: seq<Hop>, es: seq<Happening>)
    ensures var net := RunNet(Idle(hops), es);
            && Ours(net.links[|hops|]) <= Through(hops, Entered(es))
            && (Drained(net) ==> Ours(net.links[|hops|]) == Through(hops, Entered(es)))
  {
    hide Pending, Through, RunNet, Ours, SameHops;
    var net := RunNet(Idle(hops), es);
    IdlePending(hops, 0);
    NetConserves(Idle(hops), es);
    OutFirst(net.hops, net.links, 0);
  }

  // ---------- End to end ----------

  function CellsOf(fs: seq<Flit>): (cells: seq<Cell>)
    ensures |cells| == |fs|
  {
    seq(|fs|, i requires 0 <= i < |fs| => fs[i].c)
  }

  /** Cells of other traffic are not on the circuit. */
  ghost predicate NoClash(t: Circuit, fs: seq<Flit>) {
    forall i :: 0 <= i < |fs| && !fs[i].ours ==> !Relevant(t, fs[i].c)
  }

  lemma {:induction false} OursFiltered(t: Circuit, fs: seq<Flit>)
    requires NoClash(t, fs) && forall i :: 0 <= i < |Ours(fs)| ==> Relevant(t, Ours(fs)[i])
    ensures Filter(t, CellsOf(fs)) == Ours(fs)
  {
    hide Relevant;
    if fs != [] {
      var cells, ours := CellsOf(fs), Ours(fs);
      assert cells[1..] == CellsOf(fs[1..]);
      if fs[0].ours {
        assert ours[0] == fs[0].c && Ours(fs[1..]) == ours[1..];
        assert forall i :: 0 <= i < |ours| - 1 ==> ours[1..][i] == ours[i + 1];
      } else {
        assert ours == Ours(fs[1..]);
      }
      OursFiltered(t, fs[1..]);
    }
  }

  lemma {:induction false} FilterConcat(t: Circuit, a: seq<Cell>, b: seq<Cell>)
    ensures Filter(t, a + b) == Filter(t, a) + Filter(t, b)
  {
    hide Relevant;
    if a == [] {
      assert a + b == b;
    } else {
      assert (a + b)[1..] == a[1..] + b;
      FilterConcat(t, a[1..], b);
    }
  }

  lemma AllRelevant(t: Circuit, frames: seq<seq<byte>>)
    requires LabelFits(t.vpi, t.vci)
    ensures forall i :: 0 <= i < |SendAll(t, frames)| ==> Relevant(t, SendAll(t, frames)[i])
  {
    hide SendAll, Label, VpiOf, VciOf, HdrOf, IsNetwork, LabelFits;
    LabelFields(t.vpi, t.vci);
    forall i | 0 <= i < |SendAll(t, frames)|
      ensures Relevant(t, SendAll(t, frames)[i])
    {
      SendAllOnCircuit(t, frames, i);
    }
  }

  /** A bridge that has got the first of a sender's cells, among others, has emitted the first of its frames. */
  lemma FirstFrames(t: Circuit, frames: seq<seq<byte>>, fs: seq<Flit>)
    requires LabelFits(t.vpi, t.vci) && Sizeable(frames)
    requires NoClash(t, fs) && Ours(fs) <= SendAll(t, frames)
    ensures Run(t, [], CellsOf(fs)).frames <= Delivered(frames)
    ensures Ours(fs) == SendAll(t, frames) ==> Run(t, [], CellsOf(fs)) == Outcome([], Delivered(frames))
  {
    hide Relevant, Run, Filter, SendAll, Sizeable, LabelFits, Delivered, NoClash, CellsOf, Ours;
    AllRelevant(t, frames);
    OursFiltered(t, fs);
    var rest := SendAll(t, frames)[|Ours(fs)|..];
    FilterAll(t, rest);
    FilterConcat(t, CellsOf(fs), rest);
    assert Ours(fs) + rest == SendAll(t, frames);
    RunAll(t, frames, CellsOf(fs) + rest);
    RunConcat(t, [], CellsOf(fs), rest);
    if Ours(fs) == SendAll(t, frames) {
      RunAll(t, frames, CellsOf(fs));
    }
  }

  /** The circuit at the far end. */
  function FarEnd(hops: seq<Hop>, t: Circuit): Option<Circuit> {
    match Chain(hops, Label(t.vpi, t.vci))
    case None => None
    case Some(h) => Some(Circuit(VpiOf(h), VciOf(h)))
  }

  /** End to end: frames bridged into a chain of switches come out of a bridge at the far end in order and
      once each, whatever the order in which the switches work and whatever other traffic they carry; at any
      time the bridge has emitted the first of them, and all once the chain is drained. */
  lemma ChainTransparent(hops: seq<Hop>, t: Circuit, t': Circuit, frames: seq<seq<byte>>, es: seq<Happening>)
    requires LabelFits(t.vpi, t.vci) && Sizeable(frames) && FarEnd(hops, t) == Some(t')
    requires Entered(es) == SendAll(t, frames)
    requires NoClash(t', RunNet(Idle(hops), es).links[|hops|])
    ensures var net := RunNet(Idle(hops), es);
            var out := Run(t', [], CellsOf(net.links[|hops|]));
            out.frames <= Delivered(frames) && (Drained(net) ==> out == Outcome([], Delivered(frames)))
  {
    var h := Chain(hops, Label(t.vpi, t.vci)).value;
    LabelLowBits(t.vpi, t.vci);
    hide Label, LabelFits, VpiOf, VciOf, Chain, Run, SendAll, Sizeable, Delivered, Through, Ours, RunNet, Entered;
    hide CellsOf, NoClash, Drained;
    ChainKeeps(hops, Label(t.vpi, t.vci));
    HdrIsLabel(h);
    ThroughFrames(hops, t, t', frames);
    NetDelivers(hops, es);
    FirstFrames(t', frames, RunNet(Idle(hops), es).links[|hops|]);
  }

  lemma LabelLowBits(vpi: bv32, vci: bv32)
    ensures Label(vpi, vci) & 0xf == 0
  {}
}
