/** Receive scatter: how a packet is put into the buffers of the receive ring. */
module RxRing {
  import opened Bytes
  import opened PhysMem
  import opened DescRing

  /** The received byte count in the third word of a descriptor. */
  function WithCount(w2: bv32, n: nat): bv32
    requires n < 4096
  {
    (w2 & !0xfff) | (Bits12(n) as bv32)
  }

  function Bits12(n: nat): bv12
    requires n < 4096
  {
    n as bv12
  }

  function CountOf(w2: bv32): nat { Value12((w2 & 0xfff) as bv12) }
  function Value12(b: bv12): nat { b as nat }

  lemma {:induction false} SomeBits12(n: nat) returns (b: bv12)
    requires n < 4096
    ensures Value12(b) == n
  {
    if n == 0 {
      b := 0;
    } else {
      var c := SomeBits12(n - 1);
      assert c < 4095;
      b := c + 1;
    }
  }

  lemma ValueIsBits12(b: bv12, n: nat)
    requires n < 4096 && Value12(b) == n
    ensures Bits12(n) == b
  {}

  lemma LowBits12(w2: bv32, b: bv12)
    ensures (((w2 & !0xfff) | (b as bv32)) & 0xfff) as bv12 == b
    ensures ((w2 & !0xfff) | (b as bv32)) & !0xfff == w2 & !0xfff
  {}

  lemma CountReadsBack(w2: bv32, n: nat)
    requires n < 4096
    ensures CountOf(WithCount(w2, n)) == n && WithCount(w2, n) & !0xfff == w2 & !0xfff
  {
    LowBits12(w2, Bits12(n));
    hide Value12, Bits12;
    var b := SomeBits12(n);
    ValueIsBits12(b, n);
  }

  // ---------- The receive loop ----------

  /** What a run of the loop does: its writes in order, where the ring position ends, how many descriptors
      it visits, and the word of the first descriptor as the loop leaves it in the chip. */
  datatype RxEnd = RxEnd(writes: seq<Write>, pos: nat, visits: nat, first: bv32)

  function Copied(d: Desc, data: seq<byte>): (n: nat)
    ensures n <= |data|
  {
    Min(BufLen(d.w1), |data|)
  }

  function DataWrite(d: Desc, data: seq<byte>): Write {
    Write(d.buf, data[..Copied(d, data)])
  }

  /** The word the chip holds for a descriptor after visiting it: OWN is cleared except on the first. */
  function Visited(d: Desc, i: nat): bv32 {
    if i != 0 then ClearOwn(d.w1) else d.w1
  }

  /** The byte count stored for a packet: cut at the largest packet, plus the FCS. */
  function StoredCount(total: nat): (n: nat)
    ensures n <= MAX_PKT_SIZE + 4
  {
    Min(total, MAX_PKT_SIZE) + 4
  }

  ghost predicate AtDesc(r: Ring, m: seq<byte>, p: nat, d: Desc, i: nat) {
    && p < r.len && d == ReadDesc(m, r, p)
    && (Owned(d.w1) || (r.len == 1 && i > 1))
  }

  function RxLoop(r: Ring, m: seq<byte>, p: nat, d: Desc, data: seq<byte>, total: nat, i: nat): (e: RxEnd)
    requires AtDesc(r, m, p, d, i)
    ensures e.visits > i
    decreases |data|, OwnCount(m, r, r.len) + if i == 0 then 1 else 0
  {
    var p' := Next(r, p);
    var rest := data[Copied(d, data)..];
    var w := Visited(d, i);
    var put := DataWrite(d, data);
    var m1 := Store(m, put);
    if rest == [] then
      RxEnd([put, WordWrite(W1Addr(r, p), SetEnp(w)),
             WordWrite(W2Addr(r, p), WithCount(d.w2, StoredCount(total)))], p', i + 1, SetEnp(w))
    else if !Owned(W1(m1, r, p')) then
      RxEnd([put, WordWrite(W1Addr(r, p), SetError(w))], p', i + 1, SetError(w))
    else
      RxProgress(r, m, p, d, data, i);
      var m2 := Store(m1, WordWrite(W1Addr(r, p), w));
      var e := RxLoop(r, m2, p', ReadDesc(m2, r, p'), rest, total, i + 1);
      RxEnd([put, WordWrite(W1Addr(r, p), w)] + e.writes, e.pos, e.visits, if i == 0 then w else e.first)
  }

  lemma StoreNothing(m: seq<byte>, a: nat)
    ensures Store(m, Write(a, [])) == m
  {}

  /** Either data was copied or a descriptor was given back, whatever the descriptors hold. */
  lemma RxProgress(r: Ring, m: seq<byte>, p: nat, d: Desc, data: seq<byte>, i: nat)
    requires AtDesc(r, m, p, d, i) && data[Copied(d, data)..] != []
    requires Owned(W1(Store(m, DataWrite(d, data)), r, Next(r, p)))
    ensures var m2 := Store(Store(m, DataWrite(d, data)), WordWrite(W1Addr(r, p), Visited(d, i)));
            && AtDesc(r, m2, Next(r, p), ReadDesc(m2, r, Next(r, p)), i + 1)
            && (Copied(d, data) > 0 ||
                (if i == 0 then OwnCount(m2, r, r.len) == OwnCount(m, r, r.len)
                 else OwnCount(m2, r, r.len) < OwnCount(m, r, r.len)))
  {
    hide Store, Load, Owned, ClearOwn, BufLen, GetBe32, Be32, Word;
    var m1 := Store(m, DataWrite(d, data));
    var w := Visited(d, i);
    var m2 := Store(m1, WordWrite(W1Addr(r, p), w));
    WriteW1(m1, r, p, w);
    OwnCleared(d.w1);
    OwnedAddress(m, r, p);
    OwnedAddress(m1, r, Next(r, p));
    if Copied(d, data) == 0 {
      StoreNothing(m, d.buf);
      assert DataWrite(d, data) == Write(d.buf, []);
      if i == 0 {
        OwnCountSame(m, m2, r, r.len);
      } else {
        OwnCountDrops(m, m2, r, r.len, p);
      }
    }
  }

  lemma OwnedAddress(m: seq<byte>, r: Ring, p: nat)
    ensures Owned(W1(m, r, p)) ==> W1Addr(r, p) < |m|
  {
    OwnedByte(m, W1Addr(r, p));
  }

  // ---------- Reception of one packet ----------

  /** All writes of a reception: the loop's, then the first descriptor, handed over last. */
  function Reception(r: Ring, m: seq<byte>, start: nat, data: seq<byte>): (e: RxEnd)
    requires start < r.len && Owned(W1(m, r, start))
  {
    var e := RxLoop(r, m, start, ReadDesc(m, r, start), data, |data|, 0);
    e.(writes := e.writes + [WordWrite(W1Addr(r, start), SetStp(ClearOwn(e.first)))])
  }

  /** The loop leaves the ring position inside the ring, whatever the descriptors hold. */
  lemma {:induction false} RxLoopInRing(r: Ring, m: seq<byte>, p: nat, d: Desc, data: seq<byte>, total: nat, i: nat)
    requires AtDesc(r, m, p, d, i)
    ensures RxLoop(r, m, p, d, data, total, i).pos < r.len
    decreases |data|, OwnCount(m, r, r.len) + if i == 0 then 1 else 0
  {
    hide Store, Load, GetBe32, Be32, ClearOwn, Owned, BufLen, W1, ReadDesc, AtDesc, WordWrite, DataWrite, Copied;
    RxAt(r, m, p, d, i);
    var rest := data[Copied(d, data)..];
    var m1 := Store(m, DataWrite(d, data));
    if rest != [] && Owned(W1(m1, r, Next(r, p))) {
      var m2 := Store(m1, WordWrite(W1Addr(r, p), Visited(d, i)));
      RxProgress(r, m, p, d, data, i);
      RxLoopInRing(r, m2, Next(r, p), ReadDesc(m2, r, Next(r, p)), rest, total, i + 1);
    }
  }

  lemma ReceptionInRing(r: Ring, m: seq<byte>, start: nat, data: seq<byte>)
    requires start < r.len && Owned(W1(m, r, start))
    ensures Reception(r, m, start, data).pos < r.len
  {
    hide RxLoop;
    RxLoopInRing(r, m, start, ReadDesc(m, r, start), data, |data|, 0);
  }

  // ---------- Termination, whatever the descriptors hold ----------

  /** No buffer overlaps the descriptors. */
  ghost predicate BuffersOff(r: Ring, m: seq<byte>) {
    forall q :: 0 <= q < r.len ==>
      var d := ReadDesc(m, r, q); Apart(d.buf, BufLen(d.w1), r.base, DESC_SIZE * r.len)
  }

  lemma BuffersStayOff(r: Ring, m: seq<byte>, p: nat, d: Desc, data: seq<byte>, i: nat)
    requires BuffersOff(r, m) && p < r.len && d == ReadDesc(m, r, p)
    ensures var m1 := Store(m, DataWrite(d, data));
            var m2 := Store(m1, WordWrite(W1Addr(r, p), Visited(d, i)));
            && (forall q: nat :: q < r.len ==> W1(m1, r, q) == W1(m, r, q))
            && BuffersOff(r, m2)
  {
    hide Store, Load, GetBe32, Be32, ClearOwn, Owned, BufLen;
    var put := DataWrite(d, data);
    var m1 := Store(m, put);
    var upd := WordWrite(W1Addr(r, p), Visited(d, i));
    var m2 := Store(m1, upd);
    forall q: nat | q < r.len
      ensures W1(m1, r, q) == W1(m, r, q)
      ensures var d2 := ReadDesc(m2, r, q); Apart(d2.buf, BufLen(d2.w1), r.base, DESC_SIZE * r.len)
    {
      StoreKeeps(m, put, W1Addr(r, q), 4);
      StoreKeeps(m, put, BufAddr(r, q), 4);
      StoreKeeps(m1, upd, BufAddr(r, q), 4);
      assert ReadDesc(m2, r, q).buf == ReadDesc(m, r, q).buf;
      if q == p {
        SetWord(m1, W1Addr(r, p), Visited(d, i), d.w1);
      } else {
        StoreKeeps(m1, upd, W1Addr(r, q), 4);
      }
    }
  }

  /** Writing a word with an unchanged length field, even at the end of memory, leaves the length there. */
  lemma SetWord(m: seq<byte>, a: nat, w: bv32, v: bv32)
    requires v == Word(m, a) && (w == v || w == ClearOwn(v))
    ensures BufLen(Word(Store(m, WordWrite(a, w)), a)) == BufLen(v)
  {
    hide GetBe32, Be32, ClearOwn, BufLen;
    var m' := Store(m, WordWrite(a, w));
    var b, c := Load(m, a, 4), Load(m', a, 4);
    assert c[2] == if a + 2 < |m| then Be32(w)[2] else 0;
    assert c[3] == if a + 3 < |m| then Be32(w)[3] else 0;
    LowBytes(b, c, w);
    BufLenLowBits(Word(m', a), v);
  }

  lemma LowBytes(b: seq<byte>, c: seq<byte>, w: bv32)
    requires |b| == |c| == 4 && (w == GetBe32(b) || w == ClearOwn(GetBe32(b)))
    requires c[2] == Be32(w)[2] || (c[2] == 0 && b[2] == 0)
    requires c[3] == Be32(w)[3] || (c[3] == 0 && b[3] == 0)
    ensures GetBe32(c) & 0xfff == GetBe32(b) & 0xfff
  {
    LowOf(b);
    LowOf(c);
    hide Be32, GetBe32, ClearOwn;
    LowKept(b);
  }

  /** The low twelve bits are in the last two bytes. */
  lemma LowOf(b: seq<byte>)
    requires |b| == 4
    ensures GetBe32(b) & 0xfff == (((b[2] as bv32) << 8) | (b[3] as bv32)) & 0xfff
  {}

  lemma LowKept(b: seq<byte>)
    requires |b| == 4
    ensures Be32(GetBe32(b))[2] == b[2] && Be32(ClearOwn(GetBe32(b)))[2] == b[2]
    ensures Be32(GetBe32(b))[3] == b[3] && Be32(ClearOwn(GetBe32(b)))[3] == b[3]
  {}

  /** The loop visits no more descriptors than the chip owns, plus one, plus the first. */
  lemma {:induction false} RxVisits(r: Ring, m: seq<byte>, p: nat, d: Desc, data: seq<byte>, total: nat, i: nat)
    requires AtDesc(r, m, p, d, i) && BuffersOff(r, m)
    ensures RxLoop(r, m, p, d, data, total, i).visits <= i + 1 + OwnCount(m, r, r.len) + if i == 0 then 1 else 0
    decreases |data|, OwnCount(m, r, r.len) + if i == 0 then 1 else 0
  {
    hide Store, Load, GetBe32, Be32, ClearOwn, Owned, BufLen, W1, BuffersOff, ReadDesc, AtDesc;
    RxAt(r, m, p, d, i);
    var rest := data[Copied(d, data)..];
    var m1 := Store(m, DataWrite(d, data));
    if rest != [] && Owned(W1(m1, r, Next(r, p))) {
      var m2 := Store(m1, WordWrite(W1Addr(r, p), Visited(d, i)));
      RxProgress(r, m, p, d, data, i);
      BuffersStayOff(r, m, p, d, data, i);
      RxCount(r, m, p, d, data, i);
      RxVisits(r, m2, Next(r, p), ReadDesc(m2, r, Next(r, p)), rest, total, i + 1);
    }
  }

  lemma RxAt(r: Ring, m: seq<byte>, p: nat, d: Desc, i: nat)
    requires AtDesc(r, m, p, d, i)
    ensures p < r.len && d == ReadDesc(m, r, p)
  {}

  lemma RxCount(r: Ring, m: seq<byte>, p: nat, d: Desc, data: seq<byte>, i: nat)
    requires AtDesc(r, m, p, d, i) && BuffersOff(r, m)
    requires Owned(W1(Store(m, DataWrite(d, data)), r, Next(r, p)))
    ensures var m2 := Store(Store(m, DataWrite(d, data)), WordWrite(W1Addr(r, p), Visited(d, i)));
            if i == 0 then OwnCount(m2, r, r.len) == OwnCount(m, r, r.len)
            else OwnCount(m2, r, r.len) < OwnCount(m, r, r.len)
  {
    hide Store, Load, GetBe32, Be32, ClearOwn, Owned, BufLen, BuffersOff, Word;
    var m1 := Store(m, DataWrite(d, data));
    var m2 := Store(m1, WordWrite(W1Addr(r, p), Visited(d, i)));
    BuffersStayOff(r, m, p, d, data, i);
    WriteW1(m1, r, p, Visited(d, i));
    OwnCleared(d.w1);
    OwnedAddress(m, r, p);
    OwnedAddress(m1, r, Next(r, p));
    if i == 0 {
      OwnCountSame(m, m2, r, r.len);
    } else {
      OwnCountDrops(m, m2, r, r.len, p);
    }
  }

  /** Zero-length buffers and fully owned rings included, a reception visits at most ring length plus two
      descriptors. */
  lemma ReceptionTerminates(r: Ring, m: seq<byte>, start: nat, data: seq<byte>)
    requires start < r.len && Owned(W1(m, r, start)) && BuffersOff(r, m)
    ensures Reception(r, m, start, data).visits <= r.len + 2
  {
    hide RxLoop, BuffersOff;
    RxVisits(r, m, start, ReadDesc(m, r, start), data, |data|, 0);
  }

  /** For buffers anywhere, over the ring included, every byte of the packet may set one OWN bit again. */
  lemma {:induction false} RxVisitsAnywhere(r: Ring, m: seq<byte>, p: nat, d: Desc, data: seq<byte>, total: nat, i: nat)
    requires AtDesc(r, m, p, d, i)
    ensures RxLoop(r, m, p, d, data, total, i).visits <=
            i + 1 + OwnCount(m, r, r.len) + |data| * (r.len + 1) + if i == 0 then 1 else 0
    decreases |data|, OwnCount(m, r, r.len) + if i == 0 then 1 else 0
  {
    hide Store, Load, GetBe32, Be32, ClearOwn, Owned, BufLen, W1, ReadDesc, AtDesc, WordWrite, DataWrite, Copied;
    RxAt(r, m, p, d, i);
    var n := Copied(d, data);
    var rest := data[n..];
    var m1 := Store(m, DataWrite(d, data));
    RoomForMore(|data|, n, r.len + 1);
    if rest != [] && Owned(W1(m1, r, Next(r, p))) {
      var m2 := Store(m1, WordWrite(W1Addr(r, p), Visited(d, i)));
      RxProgress(r, m, p, d, data, i);
      RxVisitsAnywhere(r, m2, Next(r, p), ReadDesc(m2, r, Next(r, p)), rest, total, i + 1);
    }
  }

  lemma RoomForMore(a: nat, n: nat, b: nat)
    requires n <= a
    ensures 0 <= (a - n) * b && (if n == 0 then (a - n) * b == a * b else (a - n) * b + b <= a * b)
  {
    if n > 0 {
      assert a * b == (a - n) * b + n * b && n * b >= b;
    }
  }

  /** So a reception ends for every memory, after a number of descriptors that ring and packet bound. */
  lemma ReceptionEnds(r: Ring, m: seq<byte>, start: nat, data: seq<byte>)
    requires start < r.len && Owned(W1(m, r, start))
    ensures Reception(r, m, start, data).visits <= 2 + r.len + |data| * (r.len + 1)
  {
    hide RxLoop;
    RxVisitsAnywhere(r, m, start, ReadDesc(m, r, start), data, |data|, 0);
  }

  // ---------- Buffers over the ring: the smaller bound fails ----------

  /** An owned descriptor word with a buffer of four bytes. */
  const LIVE: bv32 := 0x8000_0ffc

  /** A ring of two descriptors, each with its buffer over the other's second word. */
  function Tangle(a: bv32, b: bv32): seq<byte> {
    (Be32(20) + Be32(a) + Zeros(8)) + (Be32(4) + Be32(b) + Zeros(8))
  }

  /** A packet of `n` words, each of which makes a descriptor owned. */
  function LiveWords(n: nat): (d: seq<byte>)
    ensures |d| == 4 * n
  {
    if n == 0 then [] else Be32(LIVE) + LiveWords(n - 1)
  }

  const TANGLED := Ring(0, 2, false)

  lemma TangleReads(a: bv32, b: bv32)
    ensures ReadDesc(Tangle(a, b), TANGLED, 0) == Desc(20, a, 0) && ReadDesc(Tangle(a, b), TANGLED, 1) == Desc(4, b, 0)
  {
    hide Be32, GetBe32;
    var m := Tangle(a, b);
    assert Load(m, 0, 4) == Be32(20) && Load(m, 4, 4) == Be32(a) && Load(m, 8, 4) == Zeros(4);
    assert Load(m, 16, 4) == Be32(4) && Load(m, 20, 4) == Be32(b) && Load(m, 24, 4) == Zeros(4);
    WordOfBe32(20);
    WordOfBe32(4);
    WordOfBe32(a);
    WordOfBe32(b);
    ZeroWord();
    SmallAddresses();
  }

  lemma ZeroWord()
    ensures GetBe32(Zeros(4)) == 0
  {}

  lemma SmallAddresses()
    ensures Address(20) == 20 && Address(4) == 4
  {}

  lemma TangleWrites(a: bv32, b: bv32, w: bv32)
    ensures Store(Tangle(a, b), WordWrite(4, w)) == Tangle(w, b)
    ensures Store(Tangle(a, b), WordWrite(20, w)) == Tangle(a, w)
  {
    hide Be32;
  }

  lemma LiveWord()
    ensures Owned(LIVE) && BufLen(LIVE) == 4
  {}

  lemma LivePut(d: Desc, n: nat)
    requires d.w1 == LIVE && n > 0
    ensures Copied(d, LiveWords(n)) == 4 && LiveWords(n)[4..] == LiveWords(n - 1)
    ensures DataWrite(d, LiveWords(n)) == WordWrite(d.buf, LIVE)
  {
    hide Be32, BufLen;
    LiveWord();
    assert LiveWords(n)[..4] == Be32(LIVE);
  }

  /** From a live descriptor, the loop visits one descriptor for every word of the packet. */
  lemma {:induction false} TangleVisits(p: nat, other: bv32, n: nat, total: nat, i: nat)
    requires p < 2 && n > 0
    ensures var m := if p == 0 then Tangle(LIVE, other) else Tangle(other, LIVE);
            var d := ReadDesc(m, TANGLED, p);
            AtDesc(TANGLED, m, p, d, i) && RxLoop(TANGLED, m, p, d, LiveWords(n), total, i).visits == i + n
    decreases n
  {
    hide Store, Tangle, Owned, BufLen, ClearOwn, WordWrite, Be32, Load, GetBe32;
    hide DataWrite, Copied, LiveWords, Visited, Word;
    var m := if p == 0 then Tangle(LIVE, other) else Tangle(other, LIVE);
    var d := ReadDesc(m, TANGLED, p);
    LiveWord();
    var (a, b) := if p == 0 then (LIVE, other) else (other, LIVE);
    TangleReads(a, b);
    var data := LiveWords(n);
    var m1 := Tangle(LIVE, LIVE);
    TangleWrites(a, b, LIVE);
    TangleReads(LIVE, LIVE);
    LivePut(d, n);
    if n > 1 {
      var w := Visited(d, i);
      TangleWrites(LIVE, LIVE, w);
      RxProgress(TANGLED, m, p, d, data, i);
      TangleVisits(1 - p, w, n - 1, total, i + 1);
    }
  }

  /** With buffers over the ring no bound in the ring length alone holds: here each word of the packet makes
      the chip visit one descriptor more. */
  lemma BuffersOverRing(n: nat)
    requires n > 0
    ensures var m := Tangle(LIVE, LIVE);
            && !BuffersOff(TANGLED, m) && Owned(W1(m, TANGLED, 0))
            && Reception(TANGLED, m, 0, LiveWords(n)).visits == n
            && (n == 5 ==> Reception(TANGLED, m, 0, LiveWords(n)).visits > TANGLED.len + 2)
  {
    var m := Tangle(LIVE, LIVE);
    TangleReads(LIVE, LIVE);
    LiveWord();
    TangleVisits(0, LIVE, n, |LiveWords(n)|, 0);
    hide Tangle, RxLoop, Owned, BufLen;
    var d := ReadDesc(m, TANGLED, 0);
    assert !Apart(d.buf, BufLen(d.w1), TANGLED.base, DESC_SIZE * TANGLED.len);
  }
}
