/** Descriptor rings of the Am79c971 in guest memory: geometry, ownership bits and buffer lengths. */
module DescRing {
  import opened Bytes
  import opened PhysMem

  const DESC_SIZE := 16
  const MAX_PKT_SIZE := 2048

  // Bits of the second descriptor word, the same for receive and transmit.
  const OWN: bv32 := 0x8000_0000
  const ERR: bv32 := 0x4000_0000
  const BUFF: bv32 := 0x0800_0000
  const STP: bv32 := 0x0200_0000
  const ENP: bv32 := 0x0100_0000

  predicate Owned(w: bv32) { w & OWN != 0 }
  predicate IsStp(w: bv32) { w & STP != 0 }
  predicate IsEnp(w: bv32) { w & ENP != 0 }
  function ClearOwn(w: bv32): bv32 { w & !OWN }
  function SetStp(w: bv32): bv32 { w | STP }
  function SetEnp(w: bv32): bv32 { w | ENP }
  function SetError(w: bv32): bv32 { w | ERR | BUFF | ENP }

  /** The length of a buffer, stored as a 12-bit two's complement. */
  function BufLen(w: bv32): (n: nat)
    ensures n < 4096
  {
    ((!((w & 0xfff) - 1)) & 0xfff) as bv12 as nat
  }

  /** The field is the negated length: the two add up to a multiple of 4096. */
  lemma LengthIsNegated(w: bv32)
    ensures (((!((w & 0xfff) - 1)) & 0xfff) + (w & 0xfff)) & 0xfff == 0
  {}

  /** A buffer of 1 to 4095 bytes has 4096 less its length in the field; length zero is all zeros. */
  lemma BufLenReadsBack(w: bv32, n: bv32)
    requires n < 0x1000 && w & 0xfff == (0x1000 - n) & 0xfff
    ensures BufLen(w) == n as nat
  {
    assert (!((w & 0xfff) - 1)) & 0xfff == n;
  }

  lemma OwnerBit(w: bv32)
    ensures Owned(w) <==> (w >> 31) & 1 == 1
  {}

  lemma StartBit(w: bv32)
    ensures IsStp(w) <==> (w >> 25) & 1 == 1
  {}

  lemma EndBit(w: bv32)
    ensures IsEnp(w) <==> (w >> 24) & 1 == 1
  {}

  /** Where the flags of the second word are: OWN in bit 31, STP in bit 25, ENP in bit 24. */
  lemma FlagBits(w: bv32)
    ensures (Owned(w) <==> (w >> 31) & 1 == 1) && (IsStp(w) <==> (w >> 25) & 1 == 1) && (IsEnp(w) <==> (w >> 24) & 1 == 1)
  {
    OwnerBit(w);
    StartBit(w);
    EndBit(w);
    hide Owned, IsStp, IsEnp;
  }

  lemma ClearsOwner(w: bv32)
    ensures ClearOwn(w) == w & 0x7fff_ffff
  {}

  lemma SetsFlags(w: bv32)
    ensures SetStp(w) == w | 0x0200_0000 && SetEnp(w) == w | 0x0100_0000
  {}

  lemma SetsErrors(w: bv32)
    ensures SetError(w) == w | 0x4900_0000
  {}

  /** Setting and clearing flags touches nothing else: the buffer length stays. The error flags are bits 30 and 27,
      with the end of the packet. */
  lemma FlagWrites(w: bv32)
    ensures ClearOwn(w) == w & 0x7fff_ffff
    ensures SetStp(w) == w | 0x0200_0000 && SetEnp(w) == w | 0x0100_0000
    ensures SetError(w) == w | 0x4900_0000
  {
    ClearsOwner(w);
    SetsFlags(w);
    SetsErrors(w);
    hide ClearOwn, SetStp, SetEnp, SetError;
  }

  lemma OwnCleared(w: bv32)
    ensures !Owned(ClearOwn(w))
  {}

  lemma OwnKept(w: bv32)
    ensures Owned(SetEnp(w)) == Owned(w)
    ensures Owned(SetError(w)) == Owned(w)
  {}

  lemma ChainBitsKept(w: bv32)
    ensures IsStp(ClearOwn(w)) == IsStp(w)
    ensures IsEnp(ClearOwn(w)) == IsEnp(w)
  {}

  lemma BufLenLowBits(w: bv32, v: bv32)
    requires w & 0xfff == v & 0xfff
    ensures BufLen(w) == BufLen(v)
  {}

  /** A ring: base address, number of descriptors, and whether software style 3 swaps words 0 and 2. */
  datatype Ring = Ring(base: nat, len: nat, swapped: bool)

  /** A descriptor as read from memory. */
  datatype Desc = Desc(buf: nat, w1: bv32, w2: bv32)

  function W1Addr(r: Ring, p: nat): nat { r.base + DESC_SIZE * p + 4 }
  function W2Addr(r: Ring, p: nat): nat { r.base + DESC_SIZE * p + if r.swapped then 0 else 8 }
  function BufAddr(r: Ring, p: nat): nat { r.base + DESC_SIZE * p + if r.swapped then 8 else 0 }

  function W1(mem: seq<byte>, r: Ring, p: nat): bv32 { Word(mem, W1Addr(r, p)) }

  function Address(w: bv32): nat { w as nat }

  function ReadDesc(mem: seq<byte>, r: Ring, p: nat): Desc {
    Desc(Address(Word(mem, BufAddr(r, p))), W1(mem, r, p), Word(mem, W2Addr(r, p)))
  }

  lemma WordsAt(mem: seq<byte>, addr: nat, a: bv32, b: bv32, c: bv32, rest: seq<byte>)
    requires |rest| == 4 && Load(mem, addr, 16) == Be32(a) + Be32(b) + Be32(c) + rest
    ensures Word(mem, addr) == a && Word(mem, addr + 4) == b && Word(mem, addr + 8) == c
  {
    hide Be32, GetBe32;
    WordOfBe32(a);
    WordOfBe32(b);
    WordOfBe32(c);
    var d := Load(mem, addr, 16);
    assert Load(mem, addr, 4) == d[0..4] == Be32(a);
    assert Load(mem, addr + 4, 4) == d[4..8] == Be32(b);
    assert Load(mem, addr + 8, 4) == d[8..12] == Be32(c);
  }

  /** A descriptor of 16 bytes as a guest lays it out: buffer address, flags and length, count; in a swapped ring
      count, flags and length, buffer address. */
  lemma LaidOut(mem: seq<byte>, r: Ring, p: nat, buf: bv32, w1: bv32, w2: bv32, rest: seq<byte>)
    requires |rest| == 4
    requires Load(mem, r.base + 16 * p, 16) ==
             if r.swapped then Be32(w2) + Be32(w1) + Be32(buf) + rest else Be32(buf) + Be32(w1) + Be32(w2) + rest
    ensures ReadDesc(mem, r, p) == Desc(Address(buf), w1, w2)
  {
    if r.swapped {
      WordsAt(mem, r.base + 16 * p, w2, w1, buf, rest);
    } else {
      WordsAt(mem, r.base + 16 * p, buf, w1, w2, rest);
    }
    hide Word, Load, Be32, Address;
  }

  function Next(r: Ring, p: nat): nat {
    if p + 1 == r.len then 0 else p + 1
  }

  /** The position `j` descriptors after `p`, at most once around. */
  function Ahead(r: Ring, p: nat, j: nat): (q: nat)
    requires p < r.len && j <= r.len
    ensures q < r.len
  {
    if p + j < r.len then p + j else p + j - r.len
  }

  lemma AheadIsMod(r: Ring, p: nat, j: nat)
    requires p < r.len && j <= r.len
    ensures Ahead(r, p, j) == (p + j) % r.len
  {
    ModOnce(p + j, r.len);
  }

  lemma ModOnce(x: nat, n: nat)
    requires 0 < n && x < 2 * n
    ensures x % n == if x < n then x else x - n
  {}

  lemma AheadNext(r: Ring, p: nat, j: nat)
    requires p < r.len && j < r.len
    ensures Ahead(r, p, 0) == p && Ahead(r, p, j + 1) == Next(r, Ahead(r, p, j))
  {}

  /** Descriptors that the chip owns among the first `n` of a ring. */
  function OwnCount(mem: seq<byte>, r: Ring, n: nat): (c: nat)
    ensures c <= n
  {
    if n == 0 then 0 else OwnCount(mem, r, n - 1) + if Owned(W1(mem, r, n - 1)) then 1 else 0
  }

  lemma {:induction false} OwnCountSame(mem: seq<byte>, mem': seq<byte>, r: Ring, n: nat)
    requires forall q :: 0 <= q < n ==> Owned(W1(mem', r, q)) == Owned(W1(mem, r, q))
    ensures OwnCount(mem', r, n) == OwnCount(mem, r, n)
  {
    hide W1, Owned;
    if n > 0 {
      OwnCountSame(mem, mem', r, n - 1);
    }
  }

  lemma {:induction false} OwnCountDrops(mem: seq<byte>, mem': seq<byte>, r: Ring, n: nat, p: nat)
    requires p < n && Owned(W1(mem, r, p)) && !Owned(W1(mem', r, p))
    requires forall q :: 0 <= q < n && q != p ==> Owned(W1(mem', r, q)) == Owned(W1(mem, r, q))
    ensures OwnCount(mem', r, n) == OwnCount(mem, r, n) - 1
  {
    hide W1, Owned;
    if p == n - 1 {
      OwnCountSame(mem, mem', r, n - 1);
    } else {
      OwnCountDrops(mem, mem', r, n - 1, p);
    }
  }

  /** Ownership is the top bit of one byte, so a partial word still decides it. */
  lemma OwnedByte(mem: seq<byte>, a: nat)
    ensures Owned(Word(mem, a)) <==> a < |mem| && mem[a] & 0x80 != 0
  {
    var d := Load(mem, a, 4);
    OwnedOfBytes(d[0], d[1], d[2], d[3]);
  }

  lemma OwnedOfBytes(a: byte, b: byte, c: byte, d: byte)
    ensures (((a as bv32 << 24) | (b as bv32 << 16) | (c as bv32 << 8) | (d as bv32)) & OWN != 0) == (a & 0x80 != 0)
  {}

  lemma OwnedOfWord(w: bv32)
    ensures Owned(w) <==> Be32(w)[0] & 0x80 != 0
  {}

  /** Writing the second word of one descriptor decides who owns it and leaves the others alone. */
  lemma WriteW1(mem: seq<byte>, r: Ring, p: nat, w: bv32)
    ensures var m := Store(mem, WordWrite(W1Addr(r, p), w));
            && (forall q: nat :: q != p ==> W1(m, r, q) == W1(mem, r, q))
            && (Owned(W1(m, r, p)) <==> Owned(w) && W1Addr(r, p) < |mem|)
  {
    hide Be32, GetBe32, Owned, Load, Store;
    var m := Store(mem, WordWrite(W1Addr(r, p), w));
    forall q: nat | q != p
      ensures W1(m, r, q) == W1(mem, r, q)
    {
      StoreKeeps(mem, WordWrite(W1Addr(r, p), w), W1Addr(r, q), 4);
    }
    OwnedByte(m, W1Addr(r, p));
    OwnedOfWord(w);
    FirstByte(mem, W1Addr(r, p), Be32(w));
  }

  lemma FirstByte(mem: seq<byte>, a: nat, d: seq<byte>)
    requires |d| == 4
    ensures a < |mem| ==> Store(mem, Write(a, d))[a] == d[0]
  {}

  // ---------- Spans of consecutive descriptors ----------

  function Min(a: nat, b: nat): nat { if a < b then a else b }

  /** Consecutive descriptors of a ring: their positions and what they hold before the reception. */
  datatype Span = Span(ps: seq<nat>, ds: seq<Desc>)

  /** The span of `k` descriptors from a ring position. */
  function SpanOf(r: Ring, m: seq<byte>, start: nat, k: nat): (s: Span)
    requires start < r.len && k <= r.len
    ensures |s.ps| == |s.ds| == k
    ensures forall j :: 0 <= j < k ==> s.ps[j] == Ahead(r, start, j) && s.ds[j] == ReadDesc(m, r, s.ps[j])
  {
    var ps := seq(k, j requires 0 <= j < k => Ahead(r, start, j));
    Span(ps, seq(k, j requires 0 <= j < k => ReadDesc(m, r, ps[j])))
  }

  function Len(d: Desc): nat { BufLen(d.w1) }

  /** Room in the first `j` buffers. */
  function Room(ds: seq<Desc>, j: nat): nat
    requires j <= |ds|
  {
    if j == 0 then 0 else Room(ds, j - 1) + Len(ds[j - 1])
  }

  lemma {:induction false} RoomMonotone(ds: seq<Desc>, i: nat, j: nat)
    requires i <= j <= |ds|
    ensures Room(ds, i) <= Room(ds, j)
    decreases j
  {
    hide Len;
    if i < j {
      RoomMonotone(ds, i, j - 1);
    }
  }

  lemma NoRoom(ds: seq<Desc>)
    ensures Room(ds, 0) == 0
  {}

  lemma SpanEnds(r: Ring, m: seq<byte>, start: nat, k: nat)
    requires start < r.len && 1 <= k <= r.len
    ensures var s := SpanOf(r, m, start, k); s.ps[0] == start && Next(r, s.ps[k - 1]) == (start + k) % r.len
  {
    AheadIsMod(r, start, k);
    AheadNext(r, start, k - 1);
    AheadNext(r, start, 0);
  }

  /** The first `n` bytes found in the buffers of the first `j` descriptors. */
  function Collected(m: seq<byte>, ds: seq<Desc>, n: nat, j: nat): seq<byte>
    requires j <= |ds|
  {
    if j == 0 then []
    else Collected(m, ds, n, j - 1) +
         Load(m, ds[j - 1].buf, Min(Room(ds, j), n) - Min(Room(ds, j - 1), n))
  }
}
