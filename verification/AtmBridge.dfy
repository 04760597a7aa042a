/** The RFC 1483 bridge: one virtual circuit carrying Ethernet frames as AAL5 packets. */
module AtmBridge {
  import opened Bytes
  import opened Crc
  import opened Hec
  import opened Atm
  import opened AtmVsar

  // ---------- The receiver as a state machine over cells ----------

  /** The reassembly context after a step, and the frames the step emitted. */
  datatype Outcome = Outcome(contents: seq<byte>, frames: seq<seq<byte>>)

  datatype Circuit = Circuit(vpi: bv32, vci: bv32)

  predicate OnCircuit(t: Circuit, c: Cell) {
    VpiOf(HdrOf(c)) == t.vpi && VciOf(HdrOf(c)) == t.vci
  }

  function RecvCell(t: Circuit, contents: seq<byte>, c: Cell): Outcome {
    if !OnCircuit(t, c) then
      Outcome(contents, [])
    else
      var r := Recv(contents, c);
      if r.status == 1 then
        Outcome([], Unwrap(r.contents, TrailerLength(c)))
      else if r.status < 0 then
        Outcome([], [])
      else
        Outcome(r.contents, [])
  }

  /** The frame inside a reassembled packet of `len` bytes, if it is bridged. */
  function Unwrap(pdu: seq<byte>, len: nat): seq<seq<byte>>
    requires len <= |pdu|
  {
    if len > |RFC1483B_HEADER| && pdu[..|RFC1483B_HEADER|] == RFC1483B_HEADER then
      [pdu[|RFC1483B_HEADER|..len]]
    else
      []
  }

  function Run(t: Circuit, contents: seq<byte>, cells: seq<Cell>): Outcome
    decreases |cells|
  {
    if cells == [] then
      Outcome(contents, [])
    else
      var first := RecvCell(t, contents, cells[0]);
      var rest := Run(t, first.contents, cells[1..]);
      Outcome(rest.contents, first.frames + rest.frames)
  }

  lemma PrefixSlices(s: seq<byte>, n: nat, a: nat, b: nat)
    requires b <= n <= |s|
    ensures a <= b ==> s[..n][..a] == s[..a] && s[..n][a..b] == s[a..b]
  {}

  // ---------- The bridge ----------

  class Bridge {
    const circuit: Circuit
    const arc: ReasContext
    const ethNio: Nio
    const atmNio: Nio
    const crcTables: CrcTables
    const hecTable: HecTable

    ghost predicate Valid()
      reads arc`bufPos, crcTables, crcTables.crc12Array, crcTables.crc16Array, crcTables.crc32Array
      reads hecTable, hecTable.hecSyndromeTable
    {
      && arc.Valid() && crcTables.Valid() && hecTable.Valid()
      && hecTable.hecSyndromeTable != arc.buffer && ethNio != atmNio
    }

    constructor (t: Circuit, ethNio: Nio, atmNio: Nio, crcTables: CrcTables, hecTable: HecTable)
      requires crcTables.Valid() && hecTable.Valid() && ethNio != atmNio
      ensures Valid() && arc.Contents() == [] && fresh(arc) && fresh(arc.buffer)
      ensures circuit == t && this.crcTables == crcTables && this.hecTable == hecTable
      ensures this.ethNio == ethNio && this.atmNio == atmNio
    {
      circuit := t;
      arc := new ReasContext();
      this.ethNio, this.atmNio := ethNio, atmNio;
      this.crcTables, this.hecTable := crcTables, hecTable;
    }

    method ReceiveCell(cell: seq<byte>) returns (res: int)
      requires Valid()
      modifies arc, arc.buffer, ethNio
      ensures Valid()
      ensures |cell| != CELL_SIZE ==> res == -1 && arc.Contents() == old(arc.Contents()) && ethNio.sent == old(ethNio.sent)
      ensures |cell| == CELL_SIZE ==>
                var step := RecvCell(circuit, old(arc.Contents()), cell);
                && arc.Contents() == step.contents
                && ethNio.sent == old(ethNio.sent) + step.frames
                && res == if OnCircuit(circuit, cell) && Recv(old(arc.Contents()), cell).status < 0 then -1 else 0
    {
      hide GetBe32, VpiOf, VciOf, CrcTables.Valid, HecTable.Valid;
      if |cell| != CELL_SIZE {
        return -1;
      }
      res := 0;
      var atmHdr := GetBe32(cell);
      if circuit.vpi != VpiOf(atmHdr) || circuit.vci != VciOf(atmHdr) {
        return;
      }
      var status := arc.Receive(cell);
      if status == 1 {
        PrefixSlices(arc.buffer[..], arc.bufPos, |RFC1483B_HEADER|, arc.len);
        if arc.len > |RFC1483B_HEADER| && arc.buffer[..|RFC1483B_HEADER|] == RFC1483B_HEADER {
          ethNio.Send(arc.buffer[|RFC1483B_HEADER|..arc.len]);
        }
        arc.Reset();
      } else if status < 0 {
        arc.Reset();
        res := -1;
      }
    }

    method ReceivePkt(pkt: seq<byte>)
      requires Valid()
      modifies atmNio
      ensures Valid()
      ensures atmNio.sent == old(atmNio.sent) + SendFrame(circuit, pkt)
    {
      hide CrcTables.Valid, HecTable.Valid, Segment;
      Aal5SendRfc1483b(atmNio, crcTables, hecTable, circuit.vpi, circuit.vci, pkt);
    }
  }

  // ---------- The protocol: frames into one bridge, out of its peer ----------

  function Wrapped(frame: seq<byte>): seq<byte> {
    RFC1483B_HEADER + frame
  }

  function SendFrame(t: Circuit, frame: seq<byte>): seq<Cell> {
    Segment(Label(t.vpi, t.vci), Wrapped(frame))
  }

  /** Every frame is sent behind LLC AA AA 03, OUI 00 80 C2 and PID 00 07, for bridged Ethernet without FCS, and
      two bytes of padding. */
  lemma Encapsulated(t: Circuit, frame: seq<byte>)
    ensures [0xaa, 0xaa, 0x03, 0x00, 0x80, 0xc2, 0x00, 0x07, 0x00, 0x00] + frame <= Payloads(SendFrame(t, frame))
  {
    hide Segment, PayloadOf, HdrOf, HecValid, Crc32, Be32, Length32, WithEop;
    CanonicalSegmentation(Label(t.vpi, t.vci), Wrapped(frame));
  }

  function SendAll(t: Circuit, frames: seq<seq<byte>>): seq<Cell> {
    if frames == [] then [] else SendFrame(t, frames[0]) + SendAll(t, frames[1..])
  }

  predicate Relevant(t: Circuit, c: Cell) {
    OnCircuit(t, c) && !IsNetwork(HdrOf(c))
  }

  /** The cells of a stream that are user traffic of the circuit. */
  function Filter(t: Circuit, cells: seq<Cell>): seq<Cell> {
    if cells == [] then []
    else if Relevant(t, cells[0]) then [cells[0]] + Filter(t, cells[1..])
    else Filter(t, cells[1..])
  }

  /** Longest frame whose cells fit the reassembly buffer: 341 cells less prefix and trailer. */
  const MAX_FRAME := 16350

  predicate Deliverable(frame: seq<byte>) {
    1 <= |frame| <= MAX_FRAME
  }

  function Delivered(frames: seq<seq<byte>>): seq<seq<byte>> {
    if frames == [] then []
    else if Deliverable(frames[0]) then [frames[0]] + Delivered(frames[1..])
    else Delivered(frames[1..])
  }

  /** The total length of frame and prefix fits the trailer's 16-bit length field. */
  predicate Sizeable(frames: seq<seq<byte>>) {
    forall i :: 0 <= i < |frames| ==> |Wrapped(frames[i])| < 0x1_0000
  }

  /** What the context may hold when `j` cells of a frame have come in. */
  ghost predicate InFrame(frame: seq<byte>, j: nat, contents: seq<byte>) {
    && j < CellCount(|Wrapped(frame)|)
    && if CellCount(|Wrapped(frame)|) <= 341 then
         contents == Pdu(Wrapped(frame))[..PAYLOAD_SIZE * j]
       else
         && |contents| % PAYLOAD_SIZE == 0 && |contents| <= PAYLOAD_SIZE * 341
         && (|contents| == PAYLOAD_SIZE * j || |contents| + PAYLOAD_SIZE * 341 <= PAYLOAD_SIZE * j)
  }

  lemma StepNoise(t: Circuit, frame: seq<byte>, j: nat, contents: seq<byte>, c: Cell)
    requires InFrame(frame, j, contents) && !Relevant(t, c)
    ensures InFrame(frame, j, RecvCell(t, contents, c).contents)
    ensures RecvCell(t, contents, c).frames == []
  {
    hide HdrOf, VpiOf, VciOf, IsNetwork, Pdu;
  }

  lemma StepMiddle(t: Circuit, frame: seq<byte>, j: nat, contents: seq<byte>)
    requires InFrame(frame, j, contents) && j + 1 < CellCount(|Wrapped(frame)|)
    requires OnCircuit(t, SendFrame(t, frame)[j])
    ensures InFrame(frame, j + 1, RecvCell(t, contents, SendFrame(t, frame)[j]).contents)
    ensures RecvCell(t, contents, SendFrame(t, frame)[j]).frames == []
  {
    hide HdrOf, PayloadOf, VpiOf, VciOf, IsNetwork, IsEop, Pdu, Segment, Wrapped, Label;
    SegmentCell(Label(t.vpi, t.vci), Wrapped(frame), j);
    LabelBits(t.vpi, t.vci);
    if CellCount(|Wrapped(frame)|) <= 341 {
      InSmallFrame(frame, j, contents);
    }
  }

  /** Any end-of-packet cell empties the context, whatever came before it. */
  lemma EopCell(t: Circuit, contents: seq<byte>, c: Cell)
    requires Relevant(t, c) && IsEop(HdrOf(c))
    ensures RecvCell(t, contents, c) ==
            Outcome([], if |contents| + PAYLOAD_SIZE <= REAS_MAX_SIZE && TrailerLength(c) <= |contents| + PAYLOAD_SIZE
                        then Unwrap(contents + PayloadOf(c), TrailerLength(c)) else [])
  {
    hide HdrOf, PayloadOf, TrailerLength, IsNetwork, IsEop, OnCircuit, Unwrap;
  }

  lemma FrameSizes(frame: seq<byte>)
    ensures CellCount(|Wrapped(frame)|) <= 341 <==> |frame| <= MAX_FRAME
    ensures |Wrapped(frame)| == |frame| + |RFC1483B_HEADER|
  {}

  lemma UnwrapPdu(frame: seq<byte>)
    requires |frame| <= MAX_FRAME
    ensures Unwrap(Pdu(Wrapped(frame)), |Wrapped(frame)|) == Delivered([frame])
  {
    hide Crc32, Be32, Length32;
    var data := Wrapped(frame);
    assert Pdu(data)[..|data|] == data;
    assert Pdu(data)[..|RFC1483B_HEADER|] == data[..|RFC1483B_HEADER|] == RFC1483B_HEADER;
    assert Pdu(data)[|RFC1483B_HEADER|..|data|] == data[|RFC1483B_HEADER|..] == frame;
    assert Delivered([frame]) == if Deliverable(frame) then [frame] + Delivered([]) else Delivered([]);
  }

  lemma NotDelivered(frame: seq<byte>)
    requires !Deliverable(frame)
    ensures Delivered([frame]) == []
  {
    assert [frame][1..] == [];
  }

  lemma LastCellSmall(t: Circuit, frame: seq<byte>, contents: seq<byte>, c: Cell)
    requires |frame| <= MAX_FRAME && Relevant(t, c) && IsEop(HdrOf(c))
    requires TrailerLength(c) == |Wrapped(frame)|
    requires contents + PayloadOf(c) == Pdu(Wrapped(frame))
    requires |contents| + PAYLOAD_SIZE <= REAS_MAX_SIZE
    ensures RecvCell(t, contents, c) == Outcome([], Delivered([frame]))
  {
    hide HdrOf, PayloadOf, TrailerLength, IsEop, Unwrap, Relevant, RecvCell, Delivered, Pdu, Wrapped;
    EopCell(t, contents, c);
    UnwrapPdu(frame);
  }

  lemma LastCellLarge(t: Circuit, frame: seq<byte>, contents: seq<byte>, c: Cell)
    requires |frame| > MAX_FRAME && Relevant(t, c) && IsEop(HdrOf(c))
    requires TrailerLength(c) == |Wrapped(frame)|
    requires InFrame(frame, CellCount(|Wrapped(frame)|) - 1, contents)
    ensures RecvCell(t, contents, c) == Outcome([], Delivered([frame]))
  {
    FrameSizes(frame);
    hide HdrOf, PayloadOf, TrailerLength, IsEop, Unwrap, Relevant, RecvCell, Delivered, Pdu, Wrapped;
    EopCell(t, contents, c);
    NotDelivered(frame);
  }

  lemma StepLast(t: Circuit, frame: seq<byte>, contents: seq<byte>)
    requires |Wrapped(frame)| < 0x1_0000
    requires InFrame(frame, CellCount(|Wrapped(frame)|) - 1, contents)
    requires OnCircuit(t, SendFrame(t, frame)[CellCount(|Wrapped(frame)|) - 1])
    ensures RecvCell(t, contents, SendFrame(t, frame)[CellCount(|Wrapped(frame)|) - 1]) ==
            Outcome([], Delivered([frame]))
  {
    hide *;
    var n := CellCount(|Wrapped(frame)|);
    SendFrameLength(t, frame, n - 1, contents);
    var c := SendFrame(t, frame)[n - 1];
    FrameSizes(frame);
    LastLength(t, frame);
    LastCell(t, frame, c);
    if n <= 341 {
      InSmallFrame(frame, n - 1, contents);
      LastCellSmall(t, frame, contents, c);
    } else {
      LastCellLarge(t, frame, contents, c);
    }
  }

  lemma LastCell(t: Circuit, frame: seq<byte>, c: Cell)
    requires OnCircuit(t, c) && c == SendFrame(t, frame)[CellCount(|Wrapped(frame)|) - 1]
    ensures Relevant(t, c) && IsEop(HdrOf(c))
    ensures PayloadOf(c) == Chunk(Pdu(Wrapped(frame)), CellCount(|Wrapped(frame)|) - 1)
  {
    hide HdrOf, PayloadOf, IsNetwork, IsEop, Pdu, Wrapped, Segment, Label, WithEop, HecValid, OnCircuit;
    SegmentCell(Label(t.vpi, t.vci), Wrapped(frame), CellCount(|Wrapped(frame)|) - 1);
    LabelBits(t.vpi, t.vci);
  }

  lemma InSmallFrame(frame: seq<byte>, j: nat, contents: seq<byte>)
    requires InFrame(frame, j, contents) && CellCount(|Wrapped(frame)|) <= 341
    ensures |contents| + PAYLOAD_SIZE <= REAS_MAX_SIZE
    ensures contents + Chunk(Pdu(Wrapped(frame)), j) == Pdu(Wrapped(frame))[..PAYLOAD_SIZE * (j + 1)]
    ensures Pdu(Wrapped(frame))[..PAYLOAD_SIZE * CellCount(|Wrapped(frame)|)] == Pdu(Wrapped(frame))
  {
    hide Pdu, Wrapped, CellCount;
  }

  lemma LastLength(t: Circuit, frame: seq<byte>)
    requires |Wrapped(frame)| < 0x1_0000
    ensures TrailerLength(SendFrame(t, frame)[CellCount(|Wrapped(frame)|) - 1]) == |Wrapped(frame)|
  {
    var data := Wrapped(frame);
    var n := CellCount(|data|);
    var c := SendFrame(t, frame)[n - 1];
    SegmentCell(Label(t.vpi, t.vci), data, n - 1);
    ShortLength(|data|);
    hide HdrOf, Segment, Label, Crc32, Be32, Length32, Index, HecValid, Wrapped, SendFrame;
    assert Pdu(data)[|Pdu(data)| - 8..|Pdu(data)| - 4] == Length32(|data|);
    assert c[47] == PayloadOf(c)[42] == Pdu(data)[|Pdu(data)| - 6] == Length32(|data|)[2];
    assert c[48] == PayloadOf(c)[43] == Pdu(data)[|Pdu(data)| - 5] == Length32(|data|)[3];
  }

  lemma FilterStep(t: Circuit, cells: seq<Cell>, sent: seq<Cell>)
    requires cells != [] && Filter(t, cells) == sent
    ensures !Relevant(t, cells[0]) ==> Filter(t, cells[1..]) == sent
    ensures Relevant(t, cells[0]) ==> sent != [] && cells[0] == sent[0] && Filter(t, cells[1..]) == sent[1..]
  {
    hide Relevant;
  }

  /** The simulation: from `j` cells into the first frame, through the rest of the stream. */
  lemma {:induction false} RunFrom(t: Circuit, frames: seq<seq<byte>>, j: nat, contents: seq<byte>, cells: seq<Cell>)
    requires LabelFits(t.vpi, t.vci) && Sizeable(frames) && frames != []
    requires InFrame(frames[0], j, contents)
    requires Filter(t, cells) == SendFrame(t, frames[0])[j..] + SendAll(t, frames[1..])
    ensures Run(t, contents, cells) == Outcome([], Delivered(frames))
    decreases |cells|, 0
  {
    hide Relevant, InFrame, RecvCell, SendFrame, LabelFits, Wrapped, CellCount;
    var frame := frames[0];
    var n := CellCount(|Wrapped(frame)|);
    SendFrameLength(t, frame, j, contents);
    if cells == [] {
      assert false;
    }
    var c := cells[0];
    var step := RecvCell(t, contents, c);
    var sent := SendFrame(t, frame)[j..] + SendAll(t, frames[1..]);
    FilterStep(t, cells, sent);
    if !Relevant(t, c) {
      StepNoise(t, frame, j, contents, c);
      RunFrom(t, frames, j, step.contents, cells[1..]);
    } else {
      assert sent[0] == SendFrame(t, frame)[j];
      assert sent[1..] == SendFrame(t, frame)[j + 1..] + SendAll(t, frames[1..]);
      RelevantOnCircuit(t, c);
      if j + 1 < n {
        StepMiddle(t, frame, j, contents);
        RunFrom(t, frames, j + 1, step.contents, cells[1..]);
      } else {
        StepLast(t, frame, contents);
        assert SendFrame(t, frame)[n..] == [];
        assert sent[1..] == SendAll(t, frames[1..]);
        DeliveredStep(frames);
        RunAll(t, frames[1..], cells[1..]);
      }
    }
  }

  lemma SendFrameLength(t: Circuit, frame: seq<byte>, j: nat, contents: seq<byte>)
    requires InFrame(frame, j, contents)
    ensures j < |SendFrame(t, frame)| == CellCount(|Wrapped(frame)|)
  {}

  lemma RelevantOnCircuit(t: Circuit, c: Cell)
    requires Relevant(t, c)
    ensures OnCircuit(t, c)
  {}

  lemma DeliveredStep(frames: seq<seq<byte>>)
    requires frames != []
    ensures Delivered(frames) == Delivered([frames[0]]) + Delivered(frames[1..])
  {
    assert [frames[0]][1..] == [];
    assert Delivered([frames[0]]) == if Deliverable(frames[0]) then [frames[0]] + Delivered([]) else Delivered([]);
  }

  lemma FrameStart(frame: seq<byte>)
    ensures InFrame(frame, 0, [])
  {
    hide Wrapped, Pdu;
    assert Pdu(Wrapped(frame))[..0] == [];
  }

  /** Bridging over any run: whatever else is on the link, exactly the deliverable frames come out, in order,
      and the context is empty at every frame boundary. */
  lemma {:induction false} RunAll(t: Circuit, frames: seq<seq<byte>>, cells: seq<Cell>)
    requires LabelFits(t.vpi, t.vci) && Sizeable(frames)
    requires Filter(t, cells) == SendAll(t, frames)
    ensures Run(t, [], cells) == Outcome([], Delivered(frames))
    decreases |cells|, 1
  {
    hide Relevant, InFrame, RecvCell, SendFrame, LabelFits, Deliverable, Wrapped;
    if frames != [] {
      FrameStart(frames[0]);
      assert SendFrame(t, frames[0])[0..] == SendFrame(t, frames[0]);
      RunFrom(t, frames, 0, [], cells);
    } else {
      NoiseOnly(t, cells);
    }
  }

  lemma {:induction false} NoiseOnly(t: Circuit, cells: seq<Cell>)
    requires Filter(t, cells) == []
    ensures Run(t, [], cells) == Outcome([], [])
    decreases |cells|
  {
    hide HdrOf, VpiOf, VciOf, IsNetwork, IsEop;
    if cells != [] {
      FilterStep(t, cells, []);
      NoiseOnly(t, cells[1..]);
    }
  }

  lemma {:induction false} SendAllOnCircuit(t: Circuit, frames: seq<seq<byte>>, i: nat)
    requires i < |SendAll(t, frames)|
    ensures VpiOf(HdrOf(SendAll(t, frames)[i])) == VpiOf(Label(t.vpi, t.vci))
    ensures VciOf(HdrOf(SendAll(t, frames)[i])) == VciOf(Label(t.vpi, t.vci))
    ensures !IsNetwork(HdrOf(SendAll(t, frames)[i]))
  {
    hide HdrOf, PayloadOf, IsNetwork, Segment, Wrapped, Label, VpiOf, VciOf, HecValid, WithEop, Pdu;
    var first := SendFrame(t, frames[0]);
    if i < |first| {
      SegmentCell(Label(t.vpi, t.vci), Wrapped(frames[0]), i);
      LabelBits(t.vpi, t.vci);
      LabelFields(t.vpi, t.vci);
      assert SendAll(t, frames)[i] == first[i];
    } else {
      assert SendAll(t, frames)[i] == SendAll(t, frames[1..])[i - |first|];
      SendAllOnCircuit(t, frames[1..], i - |first|);
    }
  }

  lemma {:induction false} FilterAll(t: Circuit, cells: seq<Cell>)
    requires forall i :: 0 <= i < |cells| ==> Relevant(t, cells[i])
    ensures Filter(t, cells) == cells
  {
    hide Relevant;
    if cells != [] {
      FilterAll(t, cells[1..]);
    }
  }

  lemma {:induction false} OffCircuit(t: Circuit, cells: seq<Cell>)
    requires forall i :: 0 <= i < |cells| ==> !OnCircuit(t, cells[i])
    ensures Run(t, [], cells) == Outcome([], [])
  {
    hide OnCircuit;
    if cells != [] {
      OffCircuit(t, cells[1..]);
    }
  }

  /** What a peer with the same configuration emits for a sequence of frames, whatever their sizes
      and whatever VPI and VCI were configured. */
  lemma PeerOutput(t: Circuit, frames: seq<seq<byte>>)
    requires Sizeable(frames)
    ensures Run(t, [], SendAll(t, frames)) == Outcome([], if LabelFits(t.vpi, t.vci) then Delivered(frames) else [])
  {
    var cells := SendAll(t, frames);
    LabelFields(t.vpi, t.vci);
    forall i | 0 <= i < |cells|
      ensures OnCircuit(t, cells[i]) <==> LabelFits(t.vpi, t.vci)
      ensures !IsNetwork(HdrOf(cells[i]))
    {
      SendAllOnCircuit(t, frames, i);
    }
    hide HdrOf, OnCircuit, SendAll, IsNetwork, LabelFits, Sizeable;
    if LabelFits(t.vpi, t.vci) {
      FilterAll(t, cells);
      RunAll(t, frames, cells);
    } else {
      OffCircuit(t, cells);
    }
  }

  lemma {:induction false} DeliveredIdentity(frames: seq<seq<byte>>)
    ensures |Delivered(frames)| <= |frames|
    ensures Delivered(frames) == frames <==> forall i :: 0 <= i < |frames| ==> Deliverable(frames[i])
  {
    hide Deliverable;
    if frames != [] {
      DeliveredIdentity(frames[1..]);
      if Deliverable(frames[0]) {
        assert Delivered(frames)[1..] == Delivered(frames[1..]);
        assert frames == [frames[0]] + frames[1..];
      }
    }
  }

  /** The bridge is transparent exactly when VPI and VCI fit the header and every frame has 1 to 16350 bytes. */
  lemma BridgeTransparent(t: Circuit, frames: seq<seq<byte>>)
    requires Sizeable(frames) && frames != []
    ensures Run(t, [], SendAll(t, frames)).frames == frames <==>
            LabelFits(t.vpi, t.vci) && forall i :: 0 <= i < |frames| ==> 1 <= |frames[i]| <= MAX_FRAME
  {
    hide SendAll, LabelFits, Run, Sizeable;
    PeerOutput(t, frames);
    DeliveredIdentity(frames);
  }

  lemma {:induction false} RunConcat(t: Circuit, contents: seq<byte>, a: seq<Cell>, b: seq<Cell>)
    ensures Run(t, contents, a + b) ==
            var first := Run(t, contents, a);
            var rest := Run(t, first.contents, b);
            Outcome(rest.contents, first.frames + rest.frames)
    decreases |a|
  {
    hide RecvCell;
    if a == [] {
      assert a + b == b;
      assert [] + Run(t, contents, b).frames == Run(t, contents, b).frames;
    } else {
      var step := RecvCell(t, contents, a[0]);
      RunConcat(t, step.contents, a[1..], b);
      assert (a + b)[1..] == a[1..] + b && (a + b)[0] == a[0];
      var first := Run(t, step.contents, a[1..]);
      var rest := Run(t, first.contents, b);
      assert step.frames + (first.frames + rest.frames) == (step.frames + first.frames) + rest.frames;
    }
  }

  /** Resynchronisation: whatever the context held and whatever was lost or inserted before an
      end-of-packet cell, the frames after it are delivered exactly. */
  lemma Resynchronises(t: Circuit, contents: seq<byte>, junk: seq<Cell>, eop: Cell, frames: seq<seq<byte>>, cells: seq<Cell>)
    requires LabelFits(t.vpi, t.vci) && Sizeable(frames)
    requires Relevant(t, eop) && IsEop(HdrOf(eop))
    requires Filter(t, cells) == SendAll(t, frames)
    ensures Run(t, contents, junk + [eop]).contents == []
    ensures Run(t, contents, junk + [eop] + cells) ==
            Outcome([], Run(t, contents, junk + [eop]).frames + Delivered(frames))
  {
    hide Relevant, IsEop, HdrOf, LabelFits, SendAll, Filter, RecvCell, Sizeable;
    var before := Run(t, contents, junk);
    RunConcat(t, contents, junk, [eop]);
    EopCell(t, before.contents, eop);
    assert Run(t, before.contents, [eop]).contents == RecvCell(t, before.contents, eop).contents;
    RunConcat(t, contents, junk + [eop], cells);
    RunAll(t, frames, cells);
  }

  lemma {:induction false} FilterAppend(t: Circuit, a: seq<Cell>, c: Cell)
    ensures Filter(t, a + [c]) == Filter(t, a) + if Relevant(t, c) then [c] else []
  {
    hide Relevant;
    if a == [] {
      assert a + [c] == [c] && [c][1..] == [];
    } else {
      FilterAppend(t, a[1..], c);
      assert (a + [c])[1..] == a[1..] + [c] && (a + [c])[0] == a[0];
    }
  }

  /** What the context holds was carried by the circuit's cells since some point of the run: no byte is
      invented, lost in the middle, or kept across a reset. */
  lemma {:induction false} Provenance(t: Circuit, cells: seq<Cell>) returns (since: nat)
    ensures since <= |cells|
    ensures Run(t, [], cells).contents == Payloads(Filter(t, cells[since..]))
    ensures |Run(t, [], cells).contents| <= 16368 && |Run(t, [], cells).contents| % PAYLOAD_SIZE == 0
    decreases |cells|
  {
    hide OnCircuit, PayloadOf, IsNetwork, HdrOf, IsEop, TrailerLength, Unwrap;
    if cells == [] {
      since := 0;
    } else {
      var init, c := cells[..|cells| - 1], cells[|cells| - 1];
      since := Provenance(t, init);
      var before := Run(t, [], init).contents;
      RunConcat(t, [], init, [c]);
      assert cells == init + [c];
      assert Run(t, [], cells).contents == RecvCell(t, before, c).contents;
      assert cells[since..] == init[since..] + [c];
      FilterAppend(t, init[since..], c);
      PayloadsLength(Filter(t, init[since..]));
      var after := RecvCell(t, before, c).contents;
      if after == [] {
        since := |cells|;
        assert cells[since..] == [] && Payloads(Filter(t, [])) == [];
      } else if Relevant(t, c) {
        PayloadsAppend(Filter(t, init[since..]), c);
        assert after == before + PayloadOf(c);
      } else {
        assert Filter(t, init[since..]) + [] == Filter(t, init[since..]);
        assert after == before;
      }
    }
  }

  /** A delivered frame is the middle of a packet carried by the circuit's cells since a reset. */
  lemma FrameProvenance(t: Circuit, cells: seq<Cell>, c: Cell) returns (since: nat)
    requires RecvCell(t, Run(t, [], cells).contents, c).frames != []
    ensures since <= |cells|
    ensures var pdu := Payloads(Filter(t, cells[since..] + [c]));
            && |RFC1483B_HEADER| < TrailerLength(c) <= |pdu|
            && pdu[..|RFC1483B_HEADER|] == RFC1483B_HEADER
            && RecvCell(t, Run(t, [], cells).contents, c).frames == [pdu[|RFC1483B_HEADER|..TrailerLength(c)]]
  {
    hide OnCircuit, PayloadOf, IsNetwork, HdrOf, IsEop, TrailerLength, Run, Payloads, Filter;
    since := Provenance(t, cells);
    FilterAppend(t, cells[since..], c);
    PayloadsAppend(Filter(t, cells[since..]), c);
  }
}
