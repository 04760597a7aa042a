/** AAL5 segmentation and reassembly (section 3 of RFC 1483). */
module AtmVsar {
  import opened Bytes
  import opened Crc
  import opened Hec
  import opened Atm

  const TRAILER_SIZE := 8
  const TRAILER_POS := 45
  const REAS_MAX_SIZE := 16384

  // ---------- The AAL5 PDU, independent of how it is produced ----------

  /** Padding that makes data, padding and trailer fill whole cells. */
  function PadLen(n: nat): (p: nat)
    ensures p < PAYLOAD_SIZE && (n + p + TRAILER_SIZE) % PAYLOAD_SIZE == 0
  {
    (PAYLOAD_SIZE - (n + TRAILER_SIZE) % PAYLOAD_SIZE) % PAYLOAD_SIZE
  }

  lemma PadLenUnique(n: nat, p: nat, k: nat)
    requires p < PAYLOAD_SIZE && n + p + TRAILER_SIZE == PAYLOAD_SIZE * (k + 1)
    ensures p == PadLen(n)
  {}

  /** What the CRC covers: data, zero padding, and the 32-bit control and length word. */
  function Covered(data: seq<byte>): (s: seq<byte>)
    ensures |s| == |data| + PadLen(|data|) + 4
  {
    data + Zeros(PadLen(|data|)) + Length32(|data|)
  }

  function Pdu(data: seq<byte>): (s: seq<byte>)
    ensures |s| == |data| + PadLen(|data|) + TRAILER_SIZE
  {
    Covered(data) + Be32(Crc32(0xffff_ffff, Covered(data)))
  }

  function CellCount(n: nat): (k: nat)
    ensures k > 0 && PAYLOAD_SIZE * k == n + PadLen(n) + TRAILER_SIZE
  {
    (n + PadLen(n) + TRAILER_SIZE) / PAYLOAD_SIZE
  }

  /** The 48 bytes a cell carries. */
  function Chunk(s: seq<byte>, i: nat): (c: seq<byte>)
    requires PAYLOAD_SIZE * i + PAYLOAD_SIZE <= |s|
    ensures |c| == PAYLOAD_SIZE
  {
    s[PAYLOAD_SIZE * i..PAYLOAD_SIZE * i + PAYLOAD_SIZE]
  }

  function CellAt(hdr: bv32, data: seq<byte>, i: nat): Cell
    requires i < CellCount(|data|)
  {
    MakeCell(if i == CellCount(|data|) - 1 then WithEop(hdr) else hdr, Chunk(Pdu(data), i))
  }

  /** The cells of a packet: only the last one carries the end-of-packet bit. */
  function Segment(hdr: bv32, data: seq<byte>): (cells: seq<Cell>)
    ensures |cells| == CellCount(|data|)
  {
    seq(CellCount(|data|), i requires 0 <= i < CellCount(|data|) => CellAt(hdr, data, i))
  }

  /** The first `k` full cells of a byte stream, none of them the last of a packet. */
  function FullCells(hdr: bv32, s: seq<byte>, k: nat): (cells: seq<Cell>)
    requires PAYLOAD_SIZE * k <= |s|
    ensures |cells| == k
  {
    seq(k, i requires 0 <= i < k => MakeCell(hdr, Chunk(s, i)))
  }

  /** Bytes gathered from an I/O vector. */
  function Gather(iov: seq<seq<byte>>): seq<byte> {
    if iov == [] then [] else iov[0] + Gather(iov[1..])
  }

  lemma {:induction false} GatherConcat(a: seq<seq<byte>>, b: seq<seq<byte>>)
    ensures Gather(a + b) == Gather(a) + Gather(b)
  {
    if a == [] {
      assert a + b == b;
    } else {
      GatherConcat(a[1..], b);
      assert (a + b)[1..] == a[1..] + b;
      assert (a + b)[0] == a[0];
    }
  }

  lemma FullCellsExtend(hdr: bv32, s: seq<byte>, t: seq<byte>, k: nat)
    requires PAYLOAD_SIZE * k <= |s|
    ensures FullCells(hdr, s + t, k) == FullCells(hdr, s, k)
  {
    hide MakeCell;
    forall i | 0 <= i < k
      ensures Chunk(s + t, i) == Chunk(s, i)
    {}
  }

  // ---------- Segmentation ----------

  class SegContext {
    const nio: Nio
    const crcTables: CrcTables
    const hecTable: HecTable
    const txfifoCell: array<byte>
    var txfifoPos: nat
    var txfifoAvail: nat
    var aal5Len: nat
    var aal5Crc: bv32
    var atmHdr: bv32
    // The pointer and length of the data still to be copied.
    var buffer: seq<byte>

    // What has gone into the FIFO since the start, how much of it has been sent, and where to.
    ghost var loaded: seq<byte>
    ghost var cells: nat
    ghost const base: seq<seq<byte>>
    ghost const firstHdr: bv32

    ghost predicate Tables()
      reads crcTables, crcTables.crc12Array, crcTables.crc16Array, crcTables.crc32Array
      reads hecTable, hecTable.hecSyndromeTable
    {
      && crcTables.Valid() && hecTable.Valid()
      && hecTable.hecSyndromeTable != txfifoCell
      && txfifoCell.Length == CELL_SIZE
    }

    ghost predicate Valid()
      reads this`txfifoPos, this`txfifoAvail, this`aal5Crc, this`loaded, this`cells
      reads nio, txfifoCell, crcTables, crcTables.crc12Array, crcTables.crc16Array, crcTables.crc32Array
      reads hecTable, hecTable.hecSyndromeTable
      ensures Valid() ==> HDR_SIZE <= txfifoPos && txfifoPos + txfifoAvail == CELL_SIZE && Tables()
      ensures Valid() ==> |loaded| == PAYLOAD_SIZE * cells + (txfifoPos - HDR_SIZE)
      ensures Valid() ==> nio.sent == base + FullCells(firstHdr, loaded, cells)
    {
      && Tables()
      && HDR_SIZE <= txfifoPos && txfifoPos + txfifoAvail == CELL_SIZE
      && |loaded| == PAYLOAD_SIZE * cells + (txfifoPos - HDR_SIZE)
      && txfifoCell[HDR_SIZE..txfifoPos] == loaded[PAYLOAD_SIZE * cells..]
      && nio.sent == base + FullCells(firstHdr, loaded, cells)
      && aal5Crc == Crc32(0xffff_ffff, loaded[..PAYLOAD_SIZE * cells])
    }

    constructor (nio: Nio, crcTables: CrcTables, hecTable: HecTable, vpi: bv32, vci: bv32)
      requires crcTables.Valid() && hecTable.Valid()
      ensures Valid() && fresh(txfifoCell)
      ensures this.nio == nio && this.crcTables == crcTables && this.hecTable == hecTable
      ensures base == nio.sent && firstHdr == Label(vpi, vci) == atmHdr
      ensures loaded == [] && aal5Len == 0 && txfifoAvail > 0
    {
      this.nio, this.crcTables, this.hecTable := nio, crcTables, hecTable;
      txfifoCell := new byte[CELL_SIZE];
      aal5Len := 0;
      aal5Crc := 0;
      atmHdr := Label(vpi, vci);
      firstHdr := Label(vpi, vci);
      buffer := [];
      loaded := [];
      cells := 0;
      base := nio.sent;
      new;
      ClearTxFifo();
      assert Crc32(0xffff_ffff, []) == 0;
    }

    method SendCell()
      requires Tables()
      modifies txfifoCell, nio
      ensures Tables()
      ensures nio.sent == old(nio.sent) + [MakeCell(atmHdr, old(txfifoCell[HDR_SIZE..]))]
    {
      hide HecAccum, Be32, SyndromeTable, Table16, Table32;
      ghost var payload := txfifoCell[HDR_SIZE..];
      StoreBe32(txfifoCell, 0, atmHdr);
      assert txfifoCell[..4] == Be32(atmHdr);
      hecTable.InsertHec(txfifoCell);
      assert txfifoCell[..] == MakeCell(atmHdr, payload) by {
        assert Be32(atmHdr)[..4] == Be32(atmHdr);
      }
      nio.Send(txfifoCell[..]);
    }

    method ClearTxFifo()
      requires txfifoCell.Length == CELL_SIZE
      modifies this`txfifoAvail, this`txfifoPos, txfifoCell
      ensures txfifoAvail == PAYLOAD_SIZE && txfifoPos == HDR_SIZE
      ensures txfifoCell[..] == Zeros(CELL_SIZE)
    {
      txfifoAvail := PAYLOAD_SIZE;
      txfifoPos := HDR_SIZE;
      forall i | 0 <= i < CELL_SIZE {
        txfifoCell[i] := 0;
      }
    }

    method AddTxPadding(size: nat)
      requires Valid()
      modifies this`txfifoAvail, this`txfifoPos, this`loaded, txfifoCell
      ensures Valid()
      ensures loaded == old(loaded) + Zeros(if size > old(txfifoAvail) then old(txfifoAvail) else size)
    {
      hide Crc32, MakeCell, SyndromeTable, Table16, Table32;
      var len := if size > txfifoAvail then txfifoAvail else size;
      FullCellsExtend(firstHdr, loaded, Zeros(len), cells);
      forall i | txfifoPos <= i < txfifoPos + len {
        txfifoCell[i] := 0;
      }
      txfifoPos := txfifoPos + len;
      txfifoAvail := txfifoAvail - len;
      loaded := loaded + Zeros(len);
      assert txfifoCell[HDR_SIZE..txfifoPos] == old(txfifoCell[HDR_SIZE..txfifoPos]) + Zeros(len);
      assert loaded[..PAYLOAD_SIZE * cells] == old(loaded[..PAYLOAD_SIZE * cells]);
    }

    method SendFifo()
      requires Valid() && atmHdr == firstHdr
      modifies this`aal5Crc, this`txfifoAvail, this`txfifoPos, this`cells, txfifoCell, nio
      ensures Valid() && txfifoAvail > 0
      ensures old(txfifoAvail) > 0 ==> txfifoAvail == old(txfifoAvail) && cells == old(cells)
      ensures old(txfifoAvail) == 0 ==> cells == old(cells) + 1
    {
      hide Crc32, MakeCell, SyndromeTable, Table16, Table32, Not32;
      if txfifoAvail == 0 {
        ghost var sent := loaded[..PAYLOAD_SIZE * cells];
        assert txfifoCell[HDR_SIZE..] == txfifoCell[HDR_SIZE..txfifoPos] == Chunk(loaded, cells);
        aal5Crc := crcTables.Compute32(Not32(aal5Crc), txfifoCell[HDR_SIZE..]);
        Crc32Chained(0xffff_ffff, sent, Chunk(loaded, cells));
        assert sent + Chunk(loaded, cells) == loaded[..PAYLOAD_SIZE * (cells + 1)];
        SendCell();
        FullCellsNext(firstHdr, loaded, cells);
        ClearTxFifo();
        cells := cells + 1;
        assert txfifoCell[HDR_SIZE..txfifoPos] == loaded[PAYLOAD_SIZE * cells..];
      }
    }

    /** Copies bytes that fit into the FIFO. */
    method LoadFifo(tail: seq<byte>)
      requires Valid() && |tail| <= txfifoAvail
      modifies this`txfifoAvail, this`txfifoPos, this`loaded, txfifoCell
      ensures Valid() && loaded == old(loaded) + tail && txfifoAvail == old(txfifoAvail) - |tail|
    {
      hide Crc32, MakeCell, SyndromeTable, Table16, Table32;
      StoreBytes(txfifoCell, txfifoPos, tail);
      FullCellsExtend(firstHdr, loaded, tail, cells);
      txfifoPos := txfifoPos + |tail|;
      txfifoAvail := txfifoAvail - |tail|;
      loaded := loaded + tail;
      assert loaded[..PAYLOAD_SIZE * cells] == old(loaded[..PAYLOAD_SIZE * cells]);
      assert txfifoCell[HDR_SIZE..txfifoPos] == old(txfifoCell[HDR_SIZE..txfifoPos]) + tail;
      assert loaded[PAYLOAD_SIZE * cells..] == old(loaded[PAYLOAD_SIZE * cells..]) + tail;
    }

    method StoreFifo() returns (sent: bool)
      requires Valid() && atmHdr == firstHdr && txfifoAvail > 0
      modifies this`aal5Crc, this`txfifoAvail, this`txfifoPos, this`buffer, this`cells, this`loaded, txfifoCell, nio
      ensures Valid() && txfifoAvail > 0
      ensures var len := if |old(buffer)| < old(txfifoAvail) then |old(buffer)| else old(txfifoAvail);
              && loaded == old(loaded) + old(buffer)[..len]
              && buffer == old(buffer)[len..]
              && sent == (len == old(txfifoAvail))
    {
      hide MakeCell, Valid, FullCells;
      var len := if |buffer| < txfifoAvail then |buffer| else txfifoAvail;
      LoadFifo(buffer[..len]);
      buffer := buffer[len..];
      sent := txfifoAvail == 0;
      if sent {
        SendFifo();
      }
    }

    /** Completes the last cell: length word, then the CRC of everything before it. */
    method AddTrailer()
      requires Valid() && txfifoPos == TRAILER_POS
      modifies this`aal5Crc, this`txfifoAvail, txfifoCell
      ensures Tables() && txfifoAvail == 0 && txfifoCell.Length == CELL_SIZE
      ensures txfifoCell[HDR_SIZE..] == loaded[PAYLOAD_SIZE * cells..] + Length32(aal5Len) +
                                        Be32(Crc32(0xffff_ffff, loaded + Length32(aal5Len)))
    {
      hide Crc32, MakeCell, SyndromeTable, Table16, Table32, Not32, Length32, Be32;
      ghost var sent, tail := loaded[..PAYLOAD_SIZE * cells], loaded[PAYLOAD_SIZE * cells..];
      StoreBytes(txfifoCell, TRAILER_POS, Length32(aal5Len));
      assert txfifoCell[HDR_SIZE..CELL_SIZE - 4] == tail + Length32(aal5Len);
      aal5Crc := crcTables.Compute32(Not32(aal5Crc), txfifoCell[HDR_SIZE..CELL_SIZE - 4]);
      Crc32Chained(0xffff_ffff, sent, tail + Length32(aal5Len));
      assert sent + (tail + Length32(aal5Len)) == loaded + Length32(aal5Len);
      StoreBe32(txfifoCell, TRAILER_POS + 4, aal5Crc);
      txfifoAvail := 0;
    }

    /** The copying loop: moves the whole buffer through the FIFO. */
    method StoreBuffer()
      requires Valid() && atmHdr == firstHdr && txfifoAvail > 0
      modifies this`aal5Crc, this`txfifoAvail, this`txfifoPos, this`buffer, this`cells, this`loaded, txfifoCell, nio
      ensures Valid() && txfifoAvail > 0
      ensures loaded == old(loaded) + old(buffer) && buffer == []
    {
      hide MakeCell, Valid, FullCells;
      while |buffer| > 0
        invariant Valid() && txfifoAvail > 0
        invariant loaded + buffer == old(loaded) + old(buffer)
        decreases |buffer|
      {
        var _ := StoreFifo();
      }
    }

    /** Adds the trailer, in a new cell if this one has no room for it, and sends the last cell. */
    method Complete()
      requires Valid() && atmHdr == firstHdr && txfifoAvail > 0 && aal5Len == |loaded|
      modifies this, txfifoCell, nio
      ensures nio.sent == base + Segment(firstHdr, old(loaded))
    {
      hide MakeCell, Valid, FullCells, Segment, Length32, Be32, Crc32, WithEop, Tables, PadLen;
      ghost var data := loaded;
      if txfifoAvail < TRAILER_SIZE {
        AddTxPadding(txfifoAvail);
        SendFifo();
      }
      atmHdr := WithEop(atmHdr);
      AddTxPadding(txfifoAvail - TRAILER_SIZE);
      PadLenUnique(|data|, |loaded| - |data|, cells);
      assert loaded == data + Zeros(PadLen(|data|));
      AddTrailer();
      ghost var last := txfifoCell[HDR_SIZE..];
      SendCell();
      CompletedCells(firstHdr, data, cells, last);
    }
  }

  lemma FullCellsNext(hdr: bv32, s: seq<byte>, k: nat)
    requires PAYLOAD_SIZE * k + PAYLOAD_SIZE <= |s|
    ensures FullCells(hdr, s, k + 1) == FullCells(hdr, s, k) + [MakeCell(hdr, Chunk(s, k))]
  {
    hide MakeCell;
  }

  /** Full cells followed by the completed last one are the canonical segmentation. */
  lemma CompletedCells(hdr: bv32, data: seq<byte>, k: nat, last: seq<byte>)
    requires PAYLOAD_SIZE * k + 40 == |data| + PadLen(|data|)
    requires var padded := data + Zeros(PadLen(|data|));
             last == padded[PAYLOAD_SIZE * k..] + Length32(|data|) +
                     Be32(Crc32(0xffff_ffff, padded + Length32(|data|)))
    ensures FullCells(hdr, data + Zeros(PadLen(|data|)), k) + [MakeCell(WithEop(hdr), last)] == Segment(hdr, data)
  {
    hide MakeCell, Length32, Crc32, Be32, WithEop;
    var padded := data + Zeros(PadLen(|data|));
    assert k + 1 == CellCount(|data|);
    assert Pdu(data) == padded + (Length32(|data|) + Be32(Crc32(0xffff_ffff, Covered(data))));
    assert last == Chunk(Pdu(data), k);
    forall i | 0 <= i < k
      ensures Chunk(padded, i) == Chunk(Pdu(data), i)
    {}
  }

  /** Sends one packet; the cells depend only on the bytes gathered from the vector. */
  method Aal5Send(nio: Nio, crcTables: CrcTables, hecTable: HecTable, vpi: bv32, vci: bv32, iov: seq<seq<byte>>)
    requires crcTables.Valid() && hecTable.Valid()
    modifies nio
    ensures nio.sent == old(nio.sent) + Segment(Label(vpi, vci), Gather(iov))
  {
    hide MakeCell, Label, Segment, FullCells, CrcTables.Valid, HecTable.Valid, SegContext.Valid;
    var asc := new SegContext(nio, crcTables, hecTable, vpi, vci);
    for i := 0 to |iov|
      invariant asc.Valid() && fresh(asc) && fresh(asc.txfifoCell)
      invariant asc.nio == nio && asc.base == old(nio.sent)
      invariant asc.firstHdr == asc.atmHdr == Label(vpi, vci) && asc.txfifoAvail > 0
      invariant asc.aal5Len == |asc.loaded|
      invariant Gather(iov) == asc.loaded + Gather(iov[i..])
    {
      asc.buffer := iov[i];
      asc.aal5Len := asc.aal5Len + |iov[i]|;
      asc.StoreBuffer();
      assert iov[i..][1..] == iov[i + 1..];
    }
    assert asc.loaded == Gather(iov);
    asc.Complete();
  }

  /** Sends a bridged frame: the RFC 1483 prefix, then the frame. */
  method Aal5SendRfc1483b(nio: Nio, crcTables: CrcTables, hecTable: HecTable, vpi: bv32, vci: bv32, pkt: seq<byte>)
    requires crcTables.Valid() && hecTable.Valid()
    modifies nio
    ensures nio.sent == old(nio.sent) + Segment(Label(vpi, vci), RFC1483B_HEADER + pkt)
  {
    var vec := [RFC1483B_HEADER, pkt];
    assert Gather(vec) == RFC1483B_HEADER + Gather([pkt]);
    assert vec[1..] == [pkt];
    assert Gather([pkt]) == pkt + Gather([]);
    assert Gather(vec) == RFC1483B_HEADER + pkt;
    hide Segment, Gather;
    Aal5Send(nio, crcTables, hecTable, vpi, vci, vec);
  }

  // ---------- What the cells of a packet carry ----------

  function Payloads(cells: seq<Cell>): seq<byte> {
    if cells == [] then [] else PayloadOf(cells[0]) + Payloads(cells[1..])
  }

  lemma {:induction false} PayloadsAppend(a: seq<Cell>, c: Cell)
    ensures Payloads(a + [c]) == Payloads(a) + PayloadOf(c)
  {
    hide PayloadOf;
    if a == [] {
      assert a + [c] == [c];
      assert Payloads([c]) == PayloadOf(c) + Payloads([]);
    } else {
      PayloadsAppend(a[1..], c);
      assert (a + [c])[1..] == a[1..] + [c];
      assert (a + [c])[0] == a[0];
    }
  }

  lemma {:induction false} PayloadsLength(a: seq<Cell>)
    ensures |Payloads(a)| == PAYLOAD_SIZE * |a|
  {
    hide PayloadOf;
    if a != [] {
      PayloadsLength(a[1..]);
    }
  }

  lemma SegmentCell(hdr: bv32, data: seq<byte>, i: nat)
    requires i < CellCount(|data|)
    ensures HdrOf(Segment(hdr, data)[i]) == if i == CellCount(|data|) - 1 then WithEop(hdr) else hdr
    ensures PayloadOf(Segment(hdr, data)[i]) == Chunk(Pdu(data), i)
    ensures HecValid(Segment(hdr, data)[i])
  {
    hide HdrOf, PayloadOf, MakeCell, WithEop, Pdu, HecValid;
    MakeCellFields(if i == CellCount(|data|) - 1 then WithEop(hdr) else hdr, Chunk(Pdu(data), i));
  }

  lemma {:induction false} SegmentPayloads(hdr: bv32, data: seq<byte>, k: nat)
    requires k <= CellCount(|data|)
    ensures Payloads(Segment(hdr, data)[..k]) == Pdu(data)[..PAYLOAD_SIZE * k]
  {
    hide Segment, PayloadOf, Pdu, HdrOf, HecValid;
    if k > 0 {
      var cells := Segment(hdr, data);
      SegmentPayloads(hdr, data, k - 1);
      SegmentCell(hdr, data, k - 1);
      assert cells[..k] == cells[..k - 1] + [cells[k - 1]];
      PayloadsAppend(cells[..k - 1], cells[k - 1]);
    }
  }

  /** The payloads of a packet's cells are data, zero padding, length word and CRC, in the fewest cells. */
  lemma CanonicalSegmentation(hdr: bv32, data: seq<byte>)
    ensures var pad, body := Zeros(PadLen(|data|)), data + Zeros(PadLen(|data|)) + Length32(|data|);
            Payloads(Segment(hdr, data)) == data + pad + Length32(|data|) + Be32(Crc32(0xffff_ffff, body))
    ensures |data| < 0x1_0000 ==> Length32(|data|)[..2] == [0, 0] && GetBe16(Length32(|data|)[2..]) == |data|
    ensures forall k: nat :: |data| + TRAILER_SIZE <= PAYLOAD_SIZE * k <==> |Segment(hdr, data)| <= k
    ensures forall i :: 0 <= i < |Segment(hdr, data)| ==>
              HdrOf(Segment(hdr, data)[i]) == if i == |Segment(hdr, data)| - 1 then WithEop(hdr) else hdr
    ensures forall i :: 0 <= i < |Segment(hdr, data)| ==> HecValid(Segment(hdr, data)[i])
  {
    hide Segment, PayloadOf, HdrOf, HecValid, Crc32, Be32, Length32, WithEop;
    var cells := Segment(hdr, data);
    SegmentPayloads(hdr, data, |cells|);
    assert cells[..|cells|] == cells;
    assert Pdu(data)[..PAYLOAD_SIZE * |cells|] == Pdu(data);
    if |data| < 0x1_0000 {
      ShortLength(|data|);
      assert Zeros(2) == [0, 0];
    }
    forall i | 0 <= i < |cells|
      ensures HdrOf(cells[i]) == (if i == |cells| - 1 then WithEop(hdr) else hdr) && HecValid(cells[i])
    {
      SegmentCell(hdr, data, i);
    }
  }

  // ---------- Reassembly ----------

  /** Status of `atm_aal5_recv` and the bytes left in the context. */
  datatype RecvResult = RecvResult(status: int, contents: seq<byte>)

  /** The length field of the trailer in a cell. */
  function TrailerLength(c: Cell): nat {
    GetBe16(c[TRAILER_POS + 2..])
  }

  function Recv(contents: seq<byte>, c: Cell): RecvResult {
    if |contents| + PAYLOAD_SIZE > REAS_MAX_SIZE then
      RecvResult(-1, [])
    else if IsNetwork(HdrOf(c)) then
      RecvResult(2, contents)
    else
      var more := contents + PayloadOf(c);
      if IsEop(HdrOf(c)) then
        RecvResult(if TrailerLength(c) <= |more| then 1 else -2, more)
      else
        RecvResult(0, more)
  }

  class ReasContext {
    const buffer: array<byte>
    var bufPos: nat
    var len: nat

    ghost predicate Valid()
      reads this`bufPos
    {
      buffer.Length == REAS_MAX_SIZE && bufPos <= REAS_MAX_SIZE
    }

    function Contents(): seq<byte>
      requires Valid()
      reads this`bufPos, buffer
    {
      buffer[..bufPos]
    }

    constructor ()
      ensures Valid() && fresh(buffer) && Contents() == []
    {
      buffer := new byte[REAS_MAX_SIZE];
      bufPos := 0;
      len := 0;
    }

    method Reset()
      requires Valid()
      modifies this
      ensures Valid() && Contents() == [] && len == 0
    {
      bufPos := 0;
      len := 0;
    }

    method Receive(cell: Cell) returns (status: int)
      requires Valid()
      modifies this, buffer
      ensures Valid()
      ensures RecvResult(status, Contents()) == Recv(old(Contents()), cell)
      ensures |old(Contents())| + 48 > 16384 ==> status == -1 && Contents() == []
      ensures |old(Contents())| + 48 <= 16384 ==>
                if IsNetwork(HdrOf(cell)) then status == 2 && Contents() == old(Contents())
                else
                  && Contents() == old(Contents()) + cell[5..]
                  && status == if !IsEop(HdrOf(cell)) then 0 else if len <= |Contents()| then 1 else -2
      ensures status == 1 || status == -2 ==> len == TrailerLength(cell)
      ensures status == 0 || status == 2 ==> len == old(len)
    {
      hide GetBe32, IsNetwork, IsEop;
      if bufPos + PAYLOAD_SIZE > REAS_MAX_SIZE {
        Reset();
        return -1;
      }
      var atmHdr := GetBe32(cell);
      if IsNetwork(atmHdr) {
        return 2;
      }
      StoreBytes(buffer, bufPos, cell[HDR_SIZE..]);
      bufPos := bufPos + PAYLOAD_SIZE;
      if IsEop(atmHdr) {
        len := GetBe16(cell[TRAILER_POS + 2..]);
        return if len <= bufPos then 1 else -2;
      }
      return 0;
    }
  }
}
