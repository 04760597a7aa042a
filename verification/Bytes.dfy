/** Bytes, big-endian words and the network descriptors that carry them. */
module Bytes {

  type byte = bv8

  function Zeros(n: nat): (s: seq<byte>)
    ensures |s| == n
    ensures forall i :: 0 <= i < n ==> s[i] == 0
  {
    seq(n, _ => 0)
  }

  /** The four bytes `m_hton32` stores for a 32-bit word. */
  function Be32(w: bv32): (s: seq<byte>)
    ensures |s| == 4
  {
    [((w >> 24) & 0xff) as byte, ((w >> 16) & 0xff) as byte, ((w >> 8) & 0xff) as byte, (w & 0xff) as byte]
  }

  /** The word `m_ntoh32` reads from the first four bytes. */
  function GetBe32(s: seq<byte>): bv32
    requires |s| >= 4
  {
    (s[0] as bv32 << 24) | (s[1] as bv32 << 16) | (s[2] as bv32 << 8) | (s[3] as bv32)
  }

  lemma GetPutBe32(w: bv32, rest: seq<byte>)
    ensures GetBe32(Be32(w) + rest) == w
  {
    var s := Be32(w) + rest;
    assert s[0] == Be32(w)[0] && s[1] == Be32(w)[1] && s[2] == Be32(w)[2] && s[3] == Be32(w)[3];
  }

  /** The first byte counts most: the word is its bytes as digits of base 256. */
  lemma BigEndian32(s: seq<byte>)
    requires |s| >= 4
    ensures GetBe32(s) ==
            (((s[0] as bv32) * 0x100 + (s[1] as bv32)) * 0x100 + (s[2] as bv32)) * 0x100 + (s[3] as bv32)
  {}

  /** The table index or numeric value a byte stands for. */
  function Index(b: byte): (i: nat)
    ensures i < 256
  {
    b as nat
  }

  function ByteOf(n: nat): byte
    requires n < 256
  {
    n as byte
  }

  lemma {:induction false} SomeByte(n: nat)
    requires n < 256
    ensures exists b: byte :: Index(b) == n
  {
    if n == 0 {
      assert Index(0) == 0;
    } else {
      SomeByte(n - 1);
      var b: byte :| Index(b) == n - 1;
      assert b < 255;
      assert Index(b + 1) == n;
    }
  }

  lemma IndexIsByte(b: byte, n: nat)
    requires n < 256 && Index(b) == n
    ensures ByteOf(n) == b
  {}

  lemma IndexByteOf(n: nat)
    requires n < 256
    ensures Index(ByteOf(n)) == n
  {
    SomeByte(n);
    var b: byte :| Index(b) == n;
    hide Index, ByteOf;
    IndexIsByte(b, n);
  }

  lemma ByteOfIndex(b: byte)
    ensures ByteOf(Index(b)) == b
  {}

  /** The four bytes `m_hton32` stores for a length: the conversion to 32 bits drops the rest. */
  function Length32(n: nat): (s: seq<byte>)
    ensures |s| == 4
  {
    [ByteOf(n / 0x100_0000 % 256), ByteOf(n / 0x1_0000 % 256), ByteOf(n / 0x100 % 256), ByteOf(n % 256)]
  }

  /** The 16-bit value `m_ntoh16` reads from the first two bytes. */
  function GetBe16(s: seq<byte>): (n: nat)
    requires |s| >= 2
    ensures n < 0x1_0000
  {
    Index(s[0]) * 256 + Index(s[1])
  }

  /** A length below 2^16 is written as two zero bytes and a 16-bit value that reads back. */
  lemma ShortLength(n: nat)
    requires n < 0x1_0000
    ensures Length32(n)[..2] == Zeros(2)
    ensures GetBe16(Length32(n)[2..]) == n
    ensures Index(Length32(n)[2]) == n / 256 && Index(Length32(n)[3]) == n % 256
  {
    assert ByteOf(0) == 0;
    IndexByteOf(n / 0x100);
    IndexByteOf(n % 256);
    hide Index, ByteOf;
  }

  /** What a packet sink has been given so far; `netio_send` appends to it. */
  class Nio {
    var sent: seq<seq<byte>>

    constructor ()
      ensures sent == []
    {
      sent := [];
    }

    method Send(pkt: seq<byte>)
      modifies this
      ensures sent == old(sent) + [pkt]
    {
      sent := sent + [pkt];
    }
  }
}
