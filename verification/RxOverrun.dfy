/** A packet that overruns a ring the chip owns entirely: when the handover of the first descriptor fails. */
module RxOverrun {
  import opened Bytes
  import opened PhysMem
  import opened DescRing
  import opened RxRing
  import opened RxScatter

  // ---------- Once around the ring ----------

  /** As long as only middle visits have been made, the chip owns the first descriptor. */
  lemma FirstStaysOwned(r: Ring, m: seq<byte>, s: Span, data: seq<byte>, j: nat)
    requires Layout(r, m, s) && j <= |s.ds|
    ensures Owned(W1(StateAt(r, m, s, data, j), r, s.ps[0]))
  {
    hide ReadDesc, Load, ApplyAll, Be32, GetBe32, Len, Owned, WordWrite, PieceWrite, GiveBack, Visits, Next;
    var ws, a := Visits(r, s, data, j), W1Addr(r, s.ps[0]);
    SpanOwned(r, m, s, 0);
    FirstGiveBack(r, m, s);
    forall y | 0 <= y < |ws|
      ensures Apart(a, 4, ws[y].addr, |ws[y].data|) || exists w :: ws[y] == WordWrite(a, w) && Owned(w)
    {
      VisitsAt(r, s, data, j, y / 2);
      if y % 2 == 0 {
        assert Usable(r, |m|, s.ds[y / 2]);
      }
    }
    WritesKeepOwned(m, ws, a);
  }

  lemma FirstGiveBack(r: Ring, m: seq<byte>, s: Span)
    requires Layout(r, m, s)
    ensures GiveBack(r, s, 0) == WordWrite(W1Addr(r, s.ps[0]), s.ds[0].w1) && Owned(s.ds[0].w1)
  {
    assert Usable(r, |m|, s.ds[0]);
  }

  /** The loop from the `j`-th visit on does the middle visits up to the last descriptor of the span, and then
      what it does from there. */
  lemma {:induction false} ToLast(r: Ring, m: seq<byte>, s: Span, data: seq<byte>, j: nat)
    returns (e: RxEnd, last: RxEnd)
    requires Layout(r, m, s) && j < |s.ds| && Room(s.ds, |s.ds| - 1) < |data|
    ensures var n := |s.ds| - 1;
            && Room(s.ds, j) <= |data| && Room(s.ds, n) <= |data|
            && AtDesc(r, StateAt(r, m, s, data, j), s.ps[j], s.ds[j], j)
            && AtDesc(r, StateAt(r, m, s, data, n), s.ps[n], s.ds[n], n)
            && e == RxLoop(r, StateAt(r, m, s, data, j), s.ps[j], s.ds[j], data[Room(s.ds, j)..], |data|, j)
            && last == RxLoop(r, StateAt(r, m, s, data, n), s.ps[n], s.ds[n], data[Room(s.ds, n)..], |data|, n)
            && Visits(r, s, data, j) + e.writes == Visits(r, s, data, n) + last.writes
    decreases |s.ds| - j
  {
    hide Layout, StateAt, RxLoop, AtDesc, Room, Visits;
    LayoutSizes(r, m, s);
    RoomMonotone(s.ds, j, |s.ds| - 1);
    if j == |s.ds| - 1 {
      AtVisit(r, m, s, data, j);
      e := RxLoop(r, StateAt(r, m, s, data, j), s.ps[j], s.ds[j], data[Room(s.ds, j)..], |data|, j);
      last := e;
    } else {
      RoomMonotone(s.ds, j + 1, |s.ds| - 1);
      var e1, e2 := Middle(r, m, s, data, j);
      var e3;
      e3, last := ToLast(r, m, s, data, j + 1);
      e := e1;
    }
  }

  lemma LayoutSizes(r: Ring, m: seq<byte>, s: Span)
    requires Layout(r, m, s)
    ensures |s.ds| == |s.ps| > 0
  {}

  /** Every later visit gives its descriptor back, with its second write. */
  lemma SecondWrite(r: Ring, m: seq<byte>, p: nat, d: Desc, data: seq<byte>, total: nat, i: nat) returns (w: bv32)
    requires AtDesc(r, m, p, d, i) && i > 0
    ensures var ws := RxLoop(r, m, p, d, data, total, i).writes;
            |ws| >= 2 && ws[0] == DataWrite(d, data) && ws[1] == WordWrite(W1Addr(r, p), w) && !Owned(w)
  {
    hide Store, ReadDesc, W1, WordWrite, DataWrite, Copied, ClearOwn, Owned, AtDesc;
    hide SetEnp, SetError, WithCount, RxLoop;
    FlagsNotOwned(d.w1);
    var m1 := Store(m, DataWrite(d, data));
    if data[Copied(d, data)..] == [] {
      w := SetEnp(Visited(d, i));
      RxLoopLast(r, m, p, d, data, total, i);
    } else if !Owned(W1(m1, r, Next(r, p))) {
      w := SetError(Visited(d, i));
      RxLoopError(r, m, p, d, data, total, i);
    } else {
      w := Visited(d, i);
      var m2 := Store(m1, WordWrite(W1Addr(r, p), w));
      RxLoopMiddle(r, m, p, d, data, total, i, m2, ReadDesc(m2, r, Next(r, p)));
    }
  }

  /** After a whole turn the loop is back at the first descriptor, with data left. */
  lemma BackAtFirst(r: Ring, m: seq<byte>, s: Span, data: seq<byte>, last: RxEnd) returns (again: RxEnd)
    requires Layout(r, m, s) && |s.ds| == r.len && Room(s.ds, r.len) < |data| && Next(r, s.ps[r.len - 1]) == s.ps[0]
    requires var n := r.len - 1;
             && Room(s.ds, n) <= |data| && AtDesc(r, StateAt(r, m, s, data, n), s.ps[n], s.ds[n], n)
             && last == RxLoop(r, StateAt(r, m, s, data, n), s.ps[n], s.ds[n], data[Room(s.ds, n)..], |data|, n)
    ensures var mn := StateAt(r, m, s, data, r.len);
            && AtDesc(r, mn, s.ps[0], ReadDesc(mn, r, s.ps[0]), r.len)
            && again == RxLoop(r, mn, s.ps[0], ReadDesc(mn, r, s.ps[0]), data[Room(s.ds, r.len)..], |data|, r.len)
    ensures Visits(r, s, data, r.len - 1) + last.writes == Visits(r, s, data, r.len) + again.writes
  {
    hide Store, Len, Owned, ReadDesc, W1, RxLoop, AtDesc, Copied, WordWrite, W1Addr, Room, Visits, StateAt, Usable;
    var n := r.len - 1;
    var mj, rest := StateAt(r, m, s, data, n), data[Room(s.ds, n)..];
    CopiedIsPiece(s, data, n);
    FirstStaysOwned(r, m, s, data, n);
    assert Usable(r, |m|, s.ds[n]);
    PieceKeepsWord(r, m, mj, s, data, n);
    StateStep(r, m, s, data, n);
    var mn := StateAt(r, m, s, data, r.len);
    var d := ReadDesc(mn, r, s.ps[0]);
    RxLoopMiddle(r, mj, s.ps[n], s.ds[n], rest, |data|, n, mn, d);
    again := RxLoop(r, mn, s.ps[0], d, data[Room(s.ds, r.len)..], |data|, r.len);
    assert last.writes == [PieceWrite(s, data, n), GiveBack(r, s, n)] + again.writes;
    assert Visits(r, s, data, r.len) == Visits(r, s, data, n) + [PieceWrite(s, data, n), GiveBack(r, s, n)] by {
      VisitsNext(r, s, data, n);
    }
  }

  lemma VisitsNext(r: Ring, s: Span, data: seq<byte>, j: nat)
    requires j < |s.ds| == |s.ps|
    ensures Visits(r, s, data, j + 1) == Visits(r, s, data, j) + [PieceWrite(s, data, j), GiveBack(r, s, j)]
  {}

  lemma StateStep(r: Ring, m: seq<byte>, s: Span, data: seq<byte>, j: nat)
    requires j < |s.ds| == |s.ps|
    ensures StateAt(r, m, s, data, j + 1) ==
            Store(Store(StateAt(r, m, s, data, j), PieceWrite(s, data, j)),
                  WordWrite(W1Addr(r, s.ps[j]), Visited(s.ds[j], j)))
  {
    VisitsStep(r, m, s, data, j);
  }

  lemma PieceKeepsWord(r: Ring, m: seq<byte>, mj: seq<byte>, s: Span, data: seq<byte>, j: nat)
    requires j < |s.ds| && |s.ps| > 0 && s.ps[0] < r.len && Usable(r, |m|, s.ds[j])
    ensures W1(Store(mj, PieceWrite(s, data, j)), r, s.ps[0]) == W1(mj, r, s.ps[0])
  {
    hide Load, Store, Len, GetBe32, Owned, PieceWrite;
    StoreKeeps(mj, PieceWrite(s, data, j), W1Addr(r, s.ps[0]), 4);
  }

  // ---------- The handover fails exactly then ----------

  /** The first writes of the loop: a visit to each descriptor, then one more to the first, which gives it
      back. */
  lemma OnceAround(r: Ring, m: seq<byte>, s: Span, data: seq<byte>) returns (e: RxEnd, put: Write, w: bv32)
    requires Layout(r, m, s) && |s.ds| == r.len && Room(s.ds, r.len) < |data| && Next(r, s.ps[r.len - 1]) == s.ps[0]
    ensures AtDesc(r, m, s.ps[0], s.ds[0], 0) && e == RxLoop(r, m, s.ps[0], s.ds[0], data, |data|, 0)
    ensures !Owned(w) && 2 * r.len + 2 <= |e.writes|
    ensures e.writes[..2 * r.len + 2] == Visits(r, s, data, r.len) + [put, WordWrite(W1Addr(r, s.ps[0]), w)]
  {
    LayoutSizes(r, m, s);
    StartOfVisits(r, m, s, data);
    RoomMonotone(s.ds, r.len - 1, r.len);
    NoRoom(s.ds);
    hide Layout, Owned, ReadDesc, RxLoop, AtDesc, Room, Visits, WordWrite, DataWrite, StateAt, W1Addr, Next;
    assert data[0..] == data;
    var last;
    e, last := ToLast(r, m, s, data, 0);
    var again := BackAtFirst(r, m, s, data, last);
    var mn := StateAt(r, m, s, data, r.len);
    var d, left := ReadDesc(mn, r, s.ps[0]), data[Room(s.ds, r.len)..];
    put := DataWrite(d, left);
    w := SecondWrite(r, mn, s.ps[0], d, left, |data|, r.len);
    Prefix(e.writes, Visits(r, s, data, r.len), again.writes);
  }

  lemma Prefix(ws: seq<Write>, a: seq<Write>, b: seq<Write>)
    requires [] + ws == a + b && |b| >= 2
    ensures ws[..|a| + 2] == a + [b[0], b[1]]
  {
    assert [] + ws == ws;
  }

  /** If the packet needs more than the whole ring, the first descriptor is given back before the last write,
      while the chip is still at work on the packet. */
  lemma HandoverLost(r: Ring, m: seq<byte>, start: nat, data: seq<byte>)
    requires start < r.len && Layout(r, m, SpanOf(r, m, start, r.len))
    requires Room(SpanOf(r, m, start, r.len).ds, r.len) < |data|
    ensures Owned(W1(m, r, start))
    ensures var ws := Reception(r, m, start, data).writes;
            2 * r.len + 2 < |ws| && !Owned(W1(ApplyAll(m, ws[..2 * r.len + 2]), r, start))
  {
    hide SpanOf, Layout, Owned, W1, ReadDesc, RxLoop, AtDesc, Room, Visits;
    hide ApplyAll, WordWrite, W1Addr, Next, Reception;
    var s := SpanOf(r, m, start, r.len);
    WholeRing(r, m, start);
    var e, put, w := OnceAround(r, m, s, data);
    ReceptionLoop(r, m, start, data);
    var ws := Reception(r, m, start, data).writes;
    assert ws[..2 * r.len + 2] == e.writes[..2 * r.len + 2];
    GivenBack(r, m, s, data, start, put, w);
  }

  lemma WholeRing(r: Ring, m: seq<byte>, start: nat)
    requires start < r.len && Layout(r, m, SpanOf(r, m, start, r.len))
    ensures var s := SpanOf(r, m, start, r.len);
            && |s.ds| == |s.ps| == r.len && s.ps[0] == start && Next(r, s.ps[r.len - 1]) == start
            && s.ds[0] == ReadDesc(m, r, start) && Owned(W1(m, r, start)) && r.base + DESC_SIZE * r.len <= |m|
  {
    hide ReadDesc, Owned, W1, Next;
    SpanEnds(r, m, start, r.len);
    ModOnce(start + r.len, r.len);
    SpanOwned(r, m, SpanOf(r, m, start, r.len), 0);
  }

  lemma ReceptionLoop(r: Ring, m: seq<byte>, start: nat, data: seq<byte>)
    requires start < r.len && Owned(W1(m, r, start))
    ensures var d := ReadDesc(m, r, start);
            && AtDesc(r, m, start, d, 0)
            && var ws := RxLoop(r, m, start, d, data, |data|, 0).writes;
               var all := Reception(r, m, start, data).writes; |all| == |ws| + 1 && all[..|ws|] == ws
  {
    hide RxLoop, WordWrite, Owned;
  }

  /** The first visit starts from the memory and the packet as they are. */
  lemma StartOfVisits(r: Ring, m: seq<byte>, s: Span, data: seq<byte>)
    requires Layout(r, m, s)
    ensures StateAt(r, m, s, data, 0) == m && Visits(r, s, data, 0) == [] && s.ds[0] == ReadDesc(m, r, s.ps[0])
    ensures r.base + DESC_SIZE * r.len <= |m|
  {}

  lemma GivenBack(r: Ring, m: seq<byte>, s: Span, data: seq<byte>, p: nat, put: Write, w: bv32)
    requires |s.ds| == |s.ps| == r.len && p < r.len && r.base + DESC_SIZE * r.len <= |m| && !Owned(w)
    ensures !Owned(W1(ApplyAll(m, Visits(r, s, data, r.len) + [put, WordWrite(W1Addr(r, p), w)]), r, p))
  {
    hide Visits, ApplyAll, Store, Owned, WordWrite, Load, Be32, GetBe32;
    var ws := Visits(r, s, data, r.len);
    var mn, b := ApplyAll(m, ws), WordWrite(W1Addr(r, p), w);
    ApplyConcat(m, ws, [put, b]);
    ApplyTwo(mn, put, b);
    StoreHolds(Store(mn, put), b);
    WordOfBe32(w);
    WordBytes(W1Addr(r, p), w);
  }

  lemma WordBytes(a: nat, w: bv32)
    ensures WordWrite(a, w).data == Be32(w)
  {}

  /** A shorter span of a laid-out one is laid out, with the same room. */
  lemma ShorterSpan(r: Ring, m: seq<byte>, start: nat, k: nat)
    requires start < r.len && 1 < k <= r.len && Layout(r, m, SpanOf(r, m, start, k))
    ensures Layout(r, m, SpanOf(r, m, start, k - 1))
    ensures Room(SpanOf(r, m, start, k - 1).ds, k - 1) == Room(SpanOf(r, m, start, k).ds, k - 1)
  {
    hide ReadDesc, Next, Usable, Len, Ahead;
    var s, t := SpanOf(r, m, start, k), SpanOf(r, m, start, k - 1);
    assert t.ps == s.ps[..k - 1] && t.ds == s.ds[..k - 1];
    RoomOfPrefix(s.ds, k - 1, k - 1);
  }

  lemma {:induction false} RoomOfPrefix(ds: seq<Desc>, k: nat, j: nat)
    requires j <= k <= |ds|
    ensures Room(ds[..k], j) == Room(ds, j)
    decreases j
  {
    hide Len;
    if j > 0 {
      RoomOfPrefix(ds, k, j - 1);
    }
  }

  /** A packet that `k` buffers can hold fills exactly some of the first `k`. */
  lemma {:induction false} SomeFit(r: Ring, m: seq<byte>, start: nat, k: nat, n: nat) returns (k': nat)
    requires start < r.len && 1 <= k <= r.len && Layout(r, m, SpanOf(r, m, start, k))
    requires n <= Room(SpanOf(r, m, start, k).ds, k)
    ensures 1 <= k' <= k && Layout(r, m, SpanOf(r, m, start, k')) && Fits(SpanOf(r, m, start, k'), n)
    decreases k
  {
    hide Layout, SpanOf, Room;
    if k == 1 || Room(SpanOf(r, m, start, k).ds, k - 1) < n {
      k' := k;
    } else {
      ShorterSpan(r, m, start, k);
      k' := SomeFit(r, m, start, k - 1, n);
    }
  }

  /** The chip owns the first descriptor until the very last write of the reception. */
  ghost predicate HandedOverLast(r: Ring, m: seq<byte>, start: nat, data: seq<byte>)
    requires start < r.len && Owned(W1(m, r, start))
  {
    var ws := Reception(r, m, start, data).writes;
    forall x :: 0 <= x < |ws| ==> Owned(W1(ApplyAll(m, ws[..x]), r, start))
  }

  lemma KeptWhenFits(r: Ring, m: seq<byte>, start: nat, k: nat, data: seq<byte>)
    requires start < r.len && 1 <= k <= r.len && Layout(r, m, SpanOf(r, m, start, k))
    requires |data| <= Room(SpanOf(r, m, start, k).ds, k)
    ensures Owned(W1(m, r, start)) && HandedOverLast(r, m, start, data)
  {
    hide Layout, Owned, W1, ReadDesc, Room, HandedOverLast, Fits, Short, SpanOf;
    var k' := SomeFit(r, m, start, k, |data|);
    IsLast(r, m, start, k', data);
  }

  lemma LostWhenOverrun(r: Ring, m: seq<byte>, start: nat, data: seq<byte>)
    requires start < r.len && Layout(r, m, SpanOf(r, m, start, r.len))
    requires Room(SpanOf(r, m, start, r.len).ds, r.len) < |data|
    ensures Owned(W1(m, r, start)) && !HandedOverLast(r, m, start, data)
  {
    hide Layout, Owned, W1, ReadDesc, Room, HandedOverLast, SpanOf, Reception, ApplyAll;
    HandoverLost(r, m, start, data);
    NotLast(r, m, start, data, 2 * r.len + 2);
  }

  /** For a packet of any size, with `k` descriptors owned from the ring position on: the first is handed over
      last if and only if the packet fits or the chip does not own the whole ring. */
  lemma HandoverExactly(r: Ring, m: seq<byte>, start: nat, k: nat, data: seq<byte>)
    requires start < r.len && 1 <= k <= r.len && Layout(r, m, SpanOf(r, m, start, k))
    requires k < r.len ==> !Owned(W1(m, r, Ahead(r, start, k)))
    ensures Owned(W1(m, r, start))
    ensures HandedOverLast(r, m, start, data) <==> k < r.len || |data| <= Room(SpanOf(r, m, start, k).ds, k)
  {
    hide Layout, Owned, W1, ReadDesc, Room, HandedOverLast, Fits, Short, SpanOf, Ahead;
    if |data| <= Room(SpanOf(r, m, start, k).ds, k) {
      KeptWhenFits(r, m, start, k, data);
    } else if k < r.len {
      IsShort(r, m, start, k, |data|);
      IsLast(r, m, start, k, data);
    } else {
      LostWhenOverrun(r, m, start, data);
    }
  }

  lemma NotLast(r: Ring, m: seq<byte>, start: nat, data: seq<byte>, x: nat)
    requires start < r.len && Owned(W1(m, r, start)) && x < |Reception(r, m, start, data).writes|
    requires !Owned(W1(ApplyAll(m, Reception(r, m, start, data).writes[..x]), r, start))
    ensures !HandedOverLast(r, m, start, data)
  {
    hide Owned, W1, ApplyAll, Reception;
  }

  lemma IsLast(r: Ring, m: seq<byte>, start: nat, k: nat, data: seq<byte>)
    requires start < r.len && 1 <= k <= r.len && Layout(r, m, SpanOf(r, m, start, k))
    requires Fits(SpanOf(r, m, start, k), |data|) || Short(r, m, SpanOf(r, m, start, k), |data|)
    ensures Owned(W1(m, r, start)) && HandedOverLast(r, m, start, data)
  {
    hide Owned, W1, ApplyAll, Reception, Layout, Fits, Short, SpanOf, Ahead;
    ReceptionHandover(r, m, start, k, data);
  }

  lemma IsShort(r: Ring, m: seq<byte>, start: nat, k: nat, n: nat)
    requires start < r.len && 1 <= k < r.len && !Owned(W1(m, r, Ahead(r, start, k)))
    requires Room(SpanOf(r, m, start, k).ds, k) < n
    ensures Short(r, m, SpanOf(r, m, start, k), n)
  {
    hide Owned, W1, Room, Ahead, ReadDesc, Next;
    NextOutside(r, m, start, k);
  }

  lemma NextOutside(r: Ring, m: seq<byte>, start: nat, k: nat)
    requires start < r.len && 1 <= k < r.len
    ensures var s, q := SpanOf(r, m, start, k), Ahead(r, start, k);
            q == Next(r, s.ps[k - 1]) && q < r.len && forall i :: 0 <= i < k ==> s.ps[i] != q
  {
    AheadNext(r, start, k - 1);
  }
}
