/** ATM cells: sizes, header fields, and the bridged-frame prefix. */
module Atm {
  import opened Bytes
  import opened Hec

  const PAYLOAD_SIZE := 48
  const CELL_SIZE := 53

  const PTI_EOP: bv32 := 0x2
  const PTI_NETWORK: bv32 := 0x8

  /** The 10-byte prefix of a bridged frame (section 4.2 of RFC 1483). */
  const RFC1483B_HEADER: seq<byte> := [0xaa, 0xaa, 0x03, 0x00, 0x80, 0xc2, 0x00, 0x07, 0x00, 0x00]

  type Cell = c: seq<byte> | |c| == CELL_SIZE witness seq(CELL_SIZE, _ => 0)

  function VpiOf(hdr: bv32): bv32 { (hdr & 0xfff0_0000) >> 20 }
  function VciOf(hdr: bv32): bv32 { (hdr & 0x000f_fff0) >> 4 }
  predicate IsEop(hdr: bv32) { hdr & PTI_EOP != 0 }
  predicate IsNetwork(hdr: bv32) { hdr & PTI_NETWORK != 0 }

  /** The header the segmentation engine builds; shifts drop what does not fit in 32 bits. */
  function Label(vpi: bv32, vci: bv32): bv32 { (vpi << 20) | (vci << 4) }
  function WithEop(hdr: bv32): bv32 { hdr | PTI_EOP }

  /** VPI and VCI fit the header fields. */
  predicate LabelFits(vpi: bv32, vci: bv32) { vpi < 0x1000 && vci < 0x1_0000 }

  function HdrOf(c: Cell): bv32 { GetBe32(c) }
  function PayloadOf(c: Cell): (p: seq<byte>) ensures |p| == PAYLOAD_SIZE { c[HDR_SIZE..] }

  /** The cell with a given header word and payload, HEC included. */
  function MakeCell(hdr: bv32, payload: seq<byte>): Cell
    requires |payload| == PAYLOAD_SIZE
  {
    Be32(hdr) + [HecByte(Be32(hdr))] + payload
  }

  lemma MakeCellFields(hdr: bv32, payload: seq<byte>)
    requires |payload| == PAYLOAD_SIZE
    ensures HdrOf(MakeCell(hdr, payload)) == hdr
    ensures PayloadOf(MakeCell(hdr, payload)) == payload
    ensures HecValid(MakeCell(hdr, payload))
  {
    var c := MakeCell(hdr, payload);
    assert c == Be32(hdr) + ([HecByte(Be32(hdr))] + payload);
    GetPutBe32(hdr, [HecByte(Be32(hdr))] + payload);
    hide Be32, GetBe32, HecAccum, Xor8;
    assert c[..4] == Be32(hdr) == Be32(hdr)[..4];
  }

  /** A header is VPI, VCI, payload type and loss priority, from the top down; of the payload type the low bit says
      end of packet and the high bit network cell. */
  lemma HeaderLayout(hdr: bv32)
    ensures hdr == VpiOf(hdr) * 0x10_0000 + VciOf(hdr) * 0x10 + hdr % 0x10
    ensures VpiOf(hdr) < 0x1000 && VciOf(hdr) < 0x1_0000
    ensures IsEop(hdr) <==> (hdr / 2) % 2 == 1
    ensures IsNetwork(hdr) <==> (hdr / 8) % 2 == 1
  {}

  lemma LabelFields(vpi: bv32, vci: bv32)
    ensures VpiOf(Label(vpi, vci)) == vpi && VciOf(Label(vpi, vci)) == vci <==> LabelFits(vpi, vci)
    ensures VpiOf(WithEop(Label(vpi, vci))) == VpiOf(Label(vpi, vci))
    ensures VciOf(WithEop(Label(vpi, vci))) == VciOf(Label(vpi, vci))
  {}

  lemma LabelBits(vpi: bv32, vci: bv32)
    ensures !IsEop(Label(vpi, vci)) && IsEop(WithEop(Label(vpi, vci)))
    ensures !IsNetwork(Label(vpi, vci)) && !IsNetwork(WithEop(Label(vpi, vci)))
  {}

  /** `m_hton32` into an array. */
  method StoreBe32(a: array<byte>, pos: nat, w: bv32)
    requires pos + 4 <= a.Length
    modifies a
    ensures a[..] == old(a[..pos]) + Be32(w) + old(a[pos + 4..])
  {
    hide Be32;
    var b := Be32(w);
    a[pos], a[pos + 1], a[pos + 2], a[pos + 3] := b[0], b[1], b[2], b[3];
  }

  /** `memcpy` of a byte string into an array. */
  method StoreBytes(a: array<byte>, pos: nat, data: seq<byte>)
    requires pos + |data| <= a.Length
    modifies a
    ensures a[..] == old(a[..pos]) + data + old(a[pos + |data|..])
  {
    for i := 0 to |data|
      invariant a[..] == old(a[..pos]) + data[..i] + old(a[pos + i..])
    {
      a[pos + i] := data[i];
    }
  }
}
