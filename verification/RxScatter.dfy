/** Receive scatter and handover: where a packet ends up, and when the guest may see it. */
module RxScatter {
  import opened Bytes
  import opened PhysMem
  import opened DescRing
  import opened RxRing

  /** Owned descriptors with in-range buffers that overlap neither each other nor the ring. */
  ghost predicate Usable(r: Ring, size: nat, d: Desc) {
    && Owned(d.w1) && d.buf + Len(d) <= size
    && Apart(d.buf, Len(d), r.base, DESC_SIZE * r.len)
  }

  ghost predicate Layout(r: Ring, m: seq<byte>, s: Span) {
    && 1 <= |s.ps| == |s.ds| <= r.len && r.base + DESC_SIZE * r.len <= |m|
    && (forall j :: 0 <= j < |s.ps| ==> s.ps[j] < r.len && s.ds[j] == ReadDesc(m, r, s.ps[j]))
    && (forall j :: 0 <= j < |s.ps| - 1 ==> s.ps[j + 1] == Next(r, s.ps[j]))
    && (forall i, j :: 0 <= i < |s.ps| && 0 <= j < |s.ps| && i != j ==> s.ps[i] != s.ps[j])
    && (forall j :: 0 <= j < |s.ds| ==> Usable(r, |m|, s.ds[j]))
    && (forall i, j :: 0 <= i < |s.ds| && 0 <= j < |s.ds| && i != j ==>
          Apart(s.ds[i].buf, Len(s.ds[i]), s.ds[j].buf, Len(s.ds[j])))
  }

  // ---------- The writes of the loop, spelled out ----------

  /** The part of the packet that goes into the `j`-th buffer. */
  function Piece(s: Span, data: seq<byte>, j: nat): (d: seq<byte>)
    requires j < |s.ds|
    ensures |d| <= Len(s.ds[j])
  {
    data[Min(Room(s.ds, j), |data|)..Min(Room(s.ds, j + 1), |data|)]
  }

  function PieceWrite(s: Span, data: seq<byte>, j: nat): (w: Write)
    requires j < |s.ds|
    ensures w.addr == s.ds[j].buf && |w.data| <= Len(s.ds[j])
  {
    Write(s.ds[j].buf, Piece(s, data, j))
  }

  function GiveBack(r: Ring, s: Span, j: nat): (w: Write)
    requires j < |s.ds| == |s.ps|
    ensures w.addr == W1Addr(r, s.ps[j]) && |w.data| == 4
  {
    WordWrite(W1Addr(r, s.ps[j]), Visited(s.ds[j], j))
  }

  /** The writes of the first `j` visits, none of them the last. */
  function Visits(r: Ring, s: Span, data: seq<byte>, j: nat): (ws: seq<Write>)
    requires j <= |s.ds| == |s.ps|
    ensures |ws| == 2 * j
  {
    if j == 0 then [] else Visits(r, s, data, j - 1) + [PieceWrite(s, data, j - 1), GiveBack(r, s, j - 1)]
  }

  lemma {:induction false} VisitsAt(r: Ring, s: Span, data: seq<byte>, j: nat, i: nat)
    requires i < j <= |s.ds| == |s.ps|
    ensures Visits(r, s, data, j)[2 * i] == PieceWrite(s, data, i)
    ensures Visits(r, s, data, j)[2 * i + 1] == GiveBack(r, s, i)
    decreases j
  {
    hide PieceWrite, GiveBack;
    if i < j - 1 {
      VisitsAt(r, s, data, j - 1, i);
    }
  }

  lemma VisitsStep(r: Ring, m: seq<byte>, s: Span, data: seq<byte>, j: nat)
    requires j < |s.ds| == |s.ps|
    ensures ApplyAll(m, Visits(r, s, data, j + 1)) ==
            Store(Store(ApplyAll(m, Visits(r, s, data, j)), PieceWrite(s, data, j)), GiveBack(r, s, j))
  {
    hide Store, PieceWrite, GiveBack;
    var a, b := PieceWrite(s, data, j), GiveBack(r, s, j);
    ApplyConcat(m, Visits(r, s, data, j), [a, b]);
    var mj := ApplyAll(m, Visits(r, s, data, j));
    assert [a, b][1..] == [b] && [b][1..] == [];
    assert ApplyAll(Store(mj, a), [b]) == Store(Store(mj, a), b);
  }

  lemma NoVisits(r: Ring, m: seq<byte>, s: Span, data: seq<byte>)
    requires |s.ds| == |s.ps|
    ensures ApplyAll(m, Visits(r, s, data, 0)) == m
  {}

  /** A range apart from what the first visits write is untouched by them. */
  lemma {:induction false} VisitsKeep(r: Ring, m: seq<byte>, s: Span, data: seq<byte>, j: nat, a: nat, n: nat)
    requires j <= |s.ds| == |s.ps|
    requires forall i :: 0 <= i < j ==> Apart(a, n, s.ds[i].buf, Len(s.ds[i])) && Apart(a, n, W1Addr(r, s.ps[i]), 4)
    ensures Load(ApplyAll(m, Visits(r, s, data, j)), a, n) == Load(m, a, n)
    decreases j
  {
    hide Load, Store, Len, Visited, W1Addr, PieceWrite, GiveBack, Visits, ApplyAll;
    NoVisits(r, m, s, data);
    if j > 0 {
      VisitsKeep(r, m, s, data, j - 1, a, n);
      VisitsStep(r, m, s, data, j - 1);
      var mj := ApplyAll(m, Visits(r, s, data, j - 1));
      StoreKeeps(mj, PieceWrite(s, data, j - 1), a, n);
      StoreKeeps(Store(mj, PieceWrite(s, data, j - 1)), GiveBack(r, s, j - 1), a, n);
    }
  }

  /** A descriptor whose position is not among the first `j` still reads as before. */
  lemma LaterDesc(r: Ring, m: seq<byte>, s: Span, data: seq<byte>, j: nat, p: nat)
    requires Layout(r, m, s) && j <= |s.ds|
    requires p < r.len && forall i :: 0 <= i < j ==> s.ps[i] != p
    ensures ReadDesc(ApplyAll(m, Visits(r, s, data, j)), r, p) == ReadDesc(m, r, p)
  {
    hide Len, Load, GetBe32, Owned, Room, Visits, ApplyAll;
    forall i | 0 <= i < j
      ensures Apart(W1Addr(r, p), 4, W1Addr(r, s.ps[i]), 4) && Apart(BufAddr(r, p), 4, W1Addr(r, s.ps[i]), 4)
      ensures Apart(W2Addr(r, p), 4, W1Addr(r, s.ps[i]), 4)
      ensures Usable(r, |m|, s.ds[i])
    {}
    VisitsKeep(r, m, s, data, j, W1Addr(r, p), 4);
    VisitsKeep(r, m, s, data, j, BufAddr(r, p), 4);
    VisitsKeep(r, m, s, data, j, W2Addr(r, p), 4);
  }

  /** The writes of the last visit when the packet fits. */
  function LastVisit(r: Ring, s: Span, data: seq<byte>, j: nat): (ws: seq<Write>)
    requires j < |s.ds| == |s.ps|
    ensures |ws| == 3
  {
    [PieceWrite(s, data, j), WordWrite(W1Addr(r, s.ps[j]), SetEnp(Visited(s.ds[j], j))),
     WordWrite(W2Addr(r, s.ps[j]), WithCount(s.ds[j].w2, StoredCount(|data|)))]
  }

  /** The writes of the last visit when the next descriptor is not owned. */
  function ErrorVisit(r: Ring, s: Span, data: seq<byte>, j: nat): (ws: seq<Write>)
    requires j < |s.ds| == |s.ps|
    ensures |ws| == 2
  {
    [PieceWrite(s, data, j), WordWrite(W1Addr(r, s.ps[j]), SetError(Visited(s.ds[j], j)))]
  }

  lemma CopiedIsPiece(s: Span, data: seq<byte>, j: nat)
    requires j < |s.ds| && Room(s.ds, j) <= |data|
    ensures DataWrite(s.ds[j], data[Room(s.ds, j)..]) == PieceWrite(s, data, j)
    ensures data[Room(s.ds, j)..][Copied(s.ds[j], data[Room(s.ds, j)..])..] == data[Min(Room(s.ds, j + 1), |data|)..]
  {
    hide BufLen;
    var rest := data[Room(s.ds, j)..];
    assert rest[..Copied(s.ds[j], rest)] == Piece(s, data, j);
  }

  /** The packet fills exactly the buffers of the span, the last one perhaps partly. */
  ghost predicate Fits(s: Span, n: nat) {
    |s.ds| > 0 && n <= Room(s.ds, |s.ds|) && (|s.ds| == 1 || Room(s.ds, |s.ds| - 1) < n)
  }

  /** The packet needs more room, and the descriptor after the span is not owned. */
  ghost predicate Short(r: Ring, m: seq<byte>, s: Span, n: nat) {
    && |s.ds| == |s.ps| > 0 && Room(s.ds, |s.ds|) < n
    && var q := Next(r, s.ps[|s.ps| - 1]);
    q < r.len && (forall i :: 0 <= i < |s.ps| ==> s.ps[i] != q) && !Owned(W1(m, r, q))
  }

  ghost function EndWrites(r: Ring, s: Span, data: seq<byte>, fits: bool): (ws: seq<Write>)
    requires |s.ds| == |s.ps| > 0
  {
    if fits then LastVisit(r, s, data, |s.ds| - 1) else ErrorVisit(r, s, data, |s.ds| - 1)
  }

  ghost function EndWord(s: Span, fits: bool): bv32
    requires |s.ds| > 0
  {
    var w := Visited(s.ds[|s.ds| - 1], |s.ds| - 1);
    if fits then SetEnp(w) else SetError(w)
  }

  ghost function StateAt(r: Ring, m: seq<byte>, s: Span, data: seq<byte>, j: nat): seq<byte>
    requires j <= |s.ds| == |s.ps|
  {
    ApplyAll(m, Visits(r, s, data, j))
  }

  lemma AtVisit(r: Ring, m: seq<byte>, s: Span, data: seq<byte>, j: nat)
    requires Layout(r, m, s) && j < |s.ds|
    ensures AtDesc(r, StateAt(r, m, s, data, j), s.ps[j], s.ds[j], j)
  {
    hide Owned, Room, Visits, ApplyAll, Len, ReadDesc;
    LaterDesc(r, m, s, data, j, s.ps[j]);
    assert Usable(r, |m|, s.ds[j]);
  }

  /** Ownership of the next descriptor, read between storing data and giving the current one back. */
  lemma NextWord(r: Ring, m: seq<byte>, s: Span, data: seq<byte>, j: nat, q: nat)
    requires Layout(r, m, s) && j < |s.ds|
    requires q < r.len && forall i :: 0 <= i <= j ==> s.ps[i] != q
    ensures W1(Store(StateAt(r, m, s, data, j), PieceWrite(s, data, j)), r, q) == W1(m, r, q)
  {
    hide Load, Store, Len, GetBe32, Owned, Room, Visits, ApplyAll;
    LaterDesc(r, m, s, data, j, q);
    assert Usable(r, |m|, s.ds[j]);
    StoreKeeps(StateAt(r, m, s, data, j), PieceWrite(s, data, j), W1Addr(r, q), 4);
  }

  lemma RxLoopLast(r: Ring, m: seq<byte>, p: nat, d: Desc, data: seq<byte>, total: nat, i: nat)
    requires AtDesc(r, m, p, d, i) && data[Copied(d, data)..] == []
    ensures RxLoop(r, m, p, d, data, total, i) ==
            RxEnd([DataWrite(d, data), WordWrite(W1Addr(r, p), SetEnp(Visited(d, i))),
                   WordWrite(W2Addr(r, p), WithCount(d.w2, StoredCount(total)))], Next(r, p), i + 1, SetEnp(Visited(d, i)))
  {}

  lemma RxLoopError(r: Ring, m: seq<byte>, p: nat, d: Desc, data: seq<byte>, total: nat, i: nat)
    requires AtDesc(r, m, p, d, i) && data[Copied(d, data)..] != []
    requires !Owned(W1(Store(m, DataWrite(d, data)), r, Next(r, p)))
    ensures RxLoop(r, m, p, d, data, total, i) ==
            RxEnd([DataWrite(d, data), WordWrite(W1Addr(r, p), SetError(Visited(d, i)))], Next(r, p), i + 1,
                  SetError(Visited(d, i)))
  {}

  lemma RxLoopMiddle(r: Ring, m: seq<byte>, p: nat, d: Desc, data: seq<byte>, total: nat, i: nat, m2: seq<byte>, d2: Desc)
    requires AtDesc(r, m, p, d, i) && data[Copied(d, data)..] != []
    requires Owned(W1(Store(m, DataWrite(d, data)), r, Next(r, p)))
    requires m2 == Store(Store(m, DataWrite(d, data)), WordWrite(W1Addr(r, p), Visited(d, i)))
    requires d2 == ReadDesc(m2, r, Next(r, p))
    ensures AtDesc(r, m2, Next(r, p), d2, i + 1)
    ensures var e := RxLoop(r, m2, Next(r, p), d2, data[Copied(d, data)..], total, i + 1);
            RxLoop(r, m, p, d, data, total, i) ==
            RxEnd([DataWrite(d, data), WordWrite(W1Addr(r, p), Visited(d, i))] + e.writes, e.pos, e.visits,
                  if i == 0 then Visited(d, i) else e.first)
  {
    RxProgress(r, m, p, d, data, i);
  }

  ghost predicate Ready(r: Ring, m: seq<byte>, s: Span, data: seq<byte>, fits: bool) {
    Layout(r, m, s) && if fits then Fits(s, |data|) else Short(r, m, s, |data|)
  }

  /** What the loop does from the `j`-th visit on. */
  ghost predicate Follows(r: Ring, s: Span, data: seq<byte>, fits: bool, j: nat, e: RxEnd) {
    && j < |s.ds| == |s.ps|
    && Visits(r, s, data, j) + e.writes == Visits(r, s, data, |s.ds| - 1) + EndWrites(r, s, data, fits)
    && e.pos == Next(r, s.ps[|s.ps| - 1]) && e.visits == |s.ds|
    && (j == 0 ==> e.first == if |s.ds| == 1 then EndWord(s, fits) else s.ds[0].w1)
  }

  lemma RoomLeft(r: Ring, m: seq<byte>, s: Span, data: seq<byte>, fits: bool, j: nat)
    requires Ready(r, m, s, data, fits) && j < |s.ds|
    ensures Room(s.ds, j) <= |data|
    ensures j + 1 < |s.ds| ==> Room(s.ds, j + 1) < |data|
  {
    hide Len, Next, Owned, W1, Layout;
    RoomMonotone(s.ds, j, |s.ds| - 1);
    RoomMonotone(s.ds, |s.ds| - 1, |s.ds|);
    if j < |s.ds| - 1 {
      RoomMonotone(s.ds, j + 1, |s.ds| - 1);
    }
  }

  lemma LastFrom(r: Ring, m: seq<byte>, s: Span, data: seq<byte>, fits: bool)
    requires Ready(r, m, s, data, fits) && Room(s.ds, |s.ds| - 1) <= |data|
    ensures var j := |s.ds| - 1;
            && AtDesc(r, StateAt(r, m, s, data, j), s.ps[j], s.ds[j], j)
            && Follows(r, s, data, fits, j,
                       RxLoop(r, StateAt(r, m, s, data, j), s.ps[j], s.ds[j], data[Room(s.ds, j)..], |data|, j))
  {
    hide Store, Len, Owned, ReadDesc, W1, SetEnp, SetError, WithCount;
    hide RxLoop, AtDesc, Copied, WordWrite, W1Addr, Visits, StateAt;
    var j := |s.ds| - 1;
    var mj, rest := StateAt(r, m, s, data, j), data[Room(s.ds, j)..];
    AtVisit(r, m, s, data, j);
    CopiedIsPiece(s, data, j);
    if fits {
      RxLoopLast(r, mj, s.ps[j], s.ds[j], rest, |data|, j);
    } else {
      NextWord(r, m, s, data, j, Next(r, s.ps[j]));
      RxLoopError(r, mj, s.ps[j], s.ds[j], rest, |data|, j);
    }
  }

  /** One visit that is followed by another, of the next descriptor of the span. */
  lemma Middle(r: Ring, m: seq<byte>, s: Span, data: seq<byte>, j: nat) returns (e: RxEnd, e': RxEnd)
    requires Layout(r, m, s) && j + 1 < |s.ds| && Room(s.ds, j) <= |data| && Room(s.ds, j + 1) < |data|
    ensures AtDesc(r, StateAt(r, m, s, data, j), s.ps[j], s.ds[j], j)
    ensures e == RxLoop(r, StateAt(r, m, s, data, j), s.ps[j], s.ds[j], data[Room(s.ds, j)..], |data|, j)
    ensures AtDesc(r, StateAt(r, m, s, data, j + 1), s.ps[j + 1], s.ds[j + 1], j + 1)
    ensures e' == RxLoop(r, StateAt(r, m, s, data, j + 1), s.ps[j + 1], s.ds[j + 1],
                         data[Room(s.ds, j + 1)..], |data|, j + 1)
    ensures Visits(r, s, data, j) + e.writes == Visits(r, s, data, j + 1) + e'.writes
    ensures e.pos == e'.pos && e.visits == e'.visits && (j == 0 ==> e.first == s.ds[0].w1)
  {
    hide Store, Len, Owned, ReadDesc, W1, RxLoop, AtDesc, Copied, WordWrite, W1Addr, Room;
    AtVisit(r, m, s, data, j);
    AtVisit(r, m, s, data, j + 1);
    CopiedIsPiece(s, data, j);
    NextWord(r, m, s, data, j, s.ps[j + 1]);
    SpanOwned(r, m, s, j + 1);
    VisitsStep(r, m, s, data, j);
    LaterDesc(r, m, s, data, j + 1, s.ps[j + 1]);
    var mj, rest := StateAt(r, m, s, data, j), data[Room(s.ds, j)..];
    RxLoopMiddle(r, mj, s.ps[j], s.ds[j], rest, |data|, j, StateAt(r, m, s, data, j + 1), s.ds[j + 1]);
    e := RxLoop(r, mj, s.ps[j], s.ds[j], rest, |data|, j);
    e' := RxLoop(r, StateAt(r, m, s, data, j + 1), s.ps[j + 1], s.ds[j + 1], data[Room(s.ds, j + 1)..], |data|, j + 1);
    assert e.writes == [PieceWrite(s, data, j), GiveBack(r, s, j)] + e'.writes;
    assert Visits(r, s, data, j) + e.writes == Visits(r, s, data, j + 1) + e'.writes;
  }

  /** From the `j`-th visit on, the loop does what the layout of the first moment says. */
  lemma {:induction false} LoopFrom(r: Ring, m: seq<byte>, s: Span, data: seq<byte>, fits: bool, j: nat)
    requires Ready(r, m, s, data, fits) && j < |s.ds|
    ensures Room(s.ds, j) <= |data| && AtDesc(r, StateAt(r, m, s, data, j), s.ps[j], s.ds[j], j)
    ensures Follows(r, s, data, fits, j,
                    RxLoop(r, StateAt(r, m, s, data, j), s.ps[j], s.ds[j], data[Room(s.ds, j)..], |data|, j))
    decreases |s.ds| - j
  {
    hide Ready, StateAt, RxLoop, AtDesc, Room, Layout, Visits, EndWrites, EndWord;
    RoomLeft(r, m, s, data, fits, j);
    if j == |s.ds| - 1 {
      LastFrom(r, m, s, data, fits);
    } else {
      SameLengths(r, m, s, data, fits);
      LoopFrom(r, m, s, data, fits, j + 1);
      var e, e' := Middle(r, m, s, data, j);
    }
  }

  lemma SameLengths(r: Ring, m: seq<byte>, s: Span, data: seq<byte>, fits: bool)
    requires Ready(r, m, s, data, fits)
    ensures |s.ds| == |s.ps| && Layout(r, m, s)
  {}

  lemma SpanOwned(r: Ring, m: seq<byte>, s: Span, j: nat)
    requires Layout(r, m, s) && j < |s.ds|
    ensures Owned(W1(m, r, s.ps[j]))
  {
    assert Usable(r, |m|, s.ds[j]);
  }

  // ---------- The memory after the reception ----------

  ghost function FirstWord(s: Span, fits: bool): bv32
    requires |s.ds| > 0
  {
    SetStp(ClearOwn(if |s.ds| == 1 then EndWord(s, fits) else s.ds[0].w1))
  }

  /** Every write of a reception, in order; the first descriptor's word comes last. */
  ghost function AllWrites(r: Ring, s: Span, data: seq<byte>, fits: bool): (ws: seq<Write>)
    requires |s.ds| == |s.ps| > 0
    ensures |ws| == 2 * |s.ds| + if fits then 2 else 1
  {
    Visits(r, s, data, |s.ds| - 1) + EndWrites(r, s, data, fits) + [WordWrite(W1Addr(r, s.ps[0]), FirstWord(s, fits))]
  }

  lemma ReceptionWrites(r: Ring, m: seq<byte>, s: Span, data: seq<byte>, fits: bool)
    requires Ready(r, m, s, data, fits)
    ensures s.ps[0] < r.len && Owned(W1(m, r, s.ps[0]))
    ensures var e := Reception(r, m, s.ps[0], data);
            && e.writes == AllWrites(r, s, data, fits)
            && e.pos == Next(r, s.ps[|s.ps| - 1]) && e.visits == |s.ds|
  {
    hide RxLoop, EndWrites, EndWord, Owned, Store, Load, Fits, Short, Room, GetBe32;
    SpanOwned(r, m, s, 0);
    LoopFrom(r, m, s, data, fits, 0);
    assert data[Room(s.ds, 0)..] == data by { NoRoom(s.ds); }
    assert StateAt(r, m, s, data, 0) == m;
  }

  /** The word a descriptor ends up with: OWN cleared, STP on the first, ENP or the error bits on the last. */
  function FinalWord(s: Span, fits: bool, j: nat): bv32
    requires j < |s.ds|
  {
    var w := ClearOwn(s.ds[j].w1);
    var e := if j < |s.ds| - 1 then w else if fits then SetEnp(w) else SetError(w);
    if j == 0 then SetStp(e) else e
  }

  lemma FlagOrder(w: bv32)
    ensures ClearOwn(SetEnp(w)) == SetEnp(ClearOwn(w)) && ClearOwn(SetError(w)) == SetError(ClearOwn(w))
  {}

  /** The writes one by one: buffer and word of each descriptor, then the byte count, then the first word. */
  lemma WriteAt(r: Ring, s: Span, data: seq<byte>, fits: bool, x: nat)
    requires |s.ds| == |s.ps| > 0 && x < |AllWrites(r, s, data, fits)|
    ensures var k, w := |s.ds|, AllWrites(r, s, data, fits)[x];
            if x == 2 * k + (if fits then 1 else 0) then
              w == WordWrite(W1Addr(r, s.ps[0]), FinalWord(s, fits, 0))
            else if x == 2 * k then
              w == WordWrite(W2Addr(r, s.ps[k - 1]), WithCount(s.ds[k - 1].w2, StoredCount(|data|)))
            else if x % 2 == 0 then
              w == PieceWrite(s, data, x / 2)
            else
              w.addr == W1Addr(r, s.ps[x / 2]) && |w.data| == 4 &&
              (x > 1 ==> w == WordWrite(w.addr, FinalWord(s, fits, x / 2))) &&
              (x == 1 ==> w == WordWrite(w.addr, if k == 1 then EndWord(s, fits) else s.ds[0].w1))
  {
    hide SetEnp, SetError, SetStp, ClearOwn, WithCount, PieceWrite, W1Addr, W2Addr, WordWrite;
    var k := |s.ds|;
    FlagOrder(s.ds[0].w1);
    if x < 2 * (k - 1) {
      VisitsAt(r, s, data, k - 1, x / 2);
      assert AllWrites(r, s, data, fits)[x] == Visits(r, s, data, k - 1)[x];
    }
  }

  /** Where a write may land. */
  lemma WriteLands(r: Ring, m: seq<byte>, s: Span, data: seq<byte>, fits: bool, x: nat)
    requires Layout(r, m, s) && x < |AllWrites(r, s, data, fits)|
    ensures var w := AllWrites(r, s, data, fits)[x];
            if x % 2 == 0 && x < 2 * |s.ds| then
              w.addr == s.ds[x / 2].buf && |w.data| <= Len(s.ds[x / 2])
            else
              |w.data| == 4 && r.base <= w.addr && w.addr + 4 <= r.base + DESC_SIZE * r.len
  {
    hide Owned, ReadDesc, Len, WithCount, AllWrites, FinalWord, EndWord, Next, Be32;
    WriteAt(r, s, data, fits, x);
    assert s.ps[|s.ps| - 1] < r.len && s.ps[0] < r.len;
  }

  lemma BufferHolds(r: Ring, m: seq<byte>, s: Span, data: seq<byte>, fits: bool, j: nat)
    requires Layout(r, m, s) && j < |s.ds|
    ensures Load(ApplyAll(m, AllWrites(r, s, data, fits)), s.ds[j].buf, |Piece(s, data, j)|) == Piece(s, data, j)
  {
    hide Owned, ReadDesc, Len, Load, AllWrites, Piece, Next, Be32, ApplyAll;
    var ws := AllWrites(r, s, data, fits);
    WriteAt(r, s, data, fits, 2 * j);
    assert Usable(r, |m|, s.ds[j]);
    forall x | 2 * j < x < |ws|
      ensures Apart(s.ds[j].buf, |Piece(s, data, j)|, ws[x].addr, |ws[x].data|)
    {
      WriteLands(r, m, s, data, fits, x);
      if x % 2 == 0 && x < 2 * |s.ds| {
        assert Apart(s.ds[j].buf, Len(s.ds[j]), s.ds[x / 2].buf, Len(s.ds[x / 2]));
      }
    }
    ApplyHolds(m, ws, 2 * j);
  }

  lemma WordEnds(r: Ring, m: seq<byte>, s: Span, data: seq<byte>, fits: bool, j: nat)
    requires Layout(r, m, s) && j < |s.ds|
    ensures W1(ApplyAll(m, AllWrites(r, s, data, fits)), r, s.ps[j]) == FinalWord(s, fits, j)
  {
    hide Owned, ReadDesc, Len, Load, AllWrites, Next, Be32, ApplyAll, FinalWord, EndWord, WithCount, StoredCount;
    var ws := AllWrites(r, s, data, fits);
    var at := if j == 0 then |ws| - 1 else 2 * j + 1;
    WriteAt(r, s, data, fits, at);
    var a := W1Addr(r, s.ps[j]);
    forall x | at < x < |ws|
      ensures Apart(a, 4, ws[x].addr, |ws[x].data|)
    {
      WriteAt(r, s, data, fits, x);
      WriteLands(r, m, s, data, fits, x);
      if x % 2 == 0 && x < 2 * |s.ds| {
        assert Usable(r, |m|, s.ds[x / 2]);
      }
    }
    WordHolds(m, ws, at, a, FinalWord(s, fits, j));
  }

  lemma CountEnds(r: Ring, m: seq<byte>, s: Span, data: seq<byte>)
    requires Layout(r, m, s)
    ensures var d, p := s.ds[|s.ds| - 1], s.ps[|s.ps| - 1];
            Word(ApplyAll(m, AllWrites(r, s, data, true)), W2Addr(r, p)) == WithCount(d.w2, StoredCount(|data|))
  {
    hide Owned, ReadDesc, Len, Load, AllWrites, Next, Be32, ApplyAll, FinalWord, EndWord, WithCount, StoredCount;
    var ws, x := AllWrites(r, s, data, true), 2 * |s.ds|;
    WriteAt(r, s, data, true, x);
    WriteAt(r, s, data, true, x + 1);
    WordHolds(m, ws, x, W2Addr(r, s.ps[|s.ps| - 1]), WithCount(s.ds[|s.ds| - 1].w2, StoredCount(|data|)));
  }

  /** Nothing else changes. */
  lemma ElseUnchanged(r: Ring, m: seq<byte>, s: Span, data: seq<byte>, fits: bool, a: nat, n: nat)
    requires Layout(r, m, s)
    requires forall j :: 0 <= j < |s.ds| ==>
               Apart(a, n, s.ds[j].buf, Len(s.ds[j])) && Apart(a, n, W1Addr(r, s.ps[j]), 4)
    requires Apart(a, n, W2Addr(r, s.ps[|s.ps| - 1]), 4)
    ensures Load(ApplyAll(m, AllWrites(r, s, data, fits)), a, n) == Load(m, a, n)
  {
    hide Owned, ReadDesc, Len, Load, AllWrites, Next, Be32;
    hide ApplyAll, FinalWord, EndWord, WithCount, StoredCount, W1Addr, W2Addr;
    var ws := AllWrites(r, s, data, fits);
    forall x | 0 <= x < |ws|
      ensures Apart(a, n, ws[x].addr, |ws[x].data|)
    {
      WriteAt(r, s, data, fits, x);
      WriteLands(r, m, s, data, fits, x);
    }
    ApplyKeeps(m, ws, a, n);
  }

  /** Every buffer holds its part of the packet, every descriptor its final word. */
  ghost predicate Settled(r: Ring, m: seq<byte>, s: Span, data: seq<byte>, fits: bool) {
    && |s.ds| == |s.ps|
    && (forall i :: 0 <= i < |s.ds| ==> Load(m, s.ds[i].buf, |Piece(s, data, i)|) == Piece(s, data, i))
    && (forall i :: 0 <= i < |s.ds| ==> W1(m, r, s.ps[i]) == FinalWord(s, fits, i))
  }

  lemma EndsSettled(r: Ring, m: seq<byte>, s: Span, data: seq<byte>, fits: bool)
    requires Layout(r, m, s)
    ensures Settled(r, ApplyAll(m, AllWrites(r, s, data, fits)), s, data, fits)
  {
    hide Owned, ReadDesc, Len, Load, AllWrites, Next, ApplyAll, FinalWord, W1, Piece, Usable;
    var m' := ApplyAll(m, AllWrites(r, s, data, fits));
    forall j | 0 <= j < |s.ds|
      ensures Load(m', s.ds[j].buf, |Piece(s, data, j)|) == Piece(s, data, j) && W1(m', r, s.ps[j]) == FinalWord(s, fits, j)
    {
      BufferHolds(r, m, s, data, fits, j);
      WordEnds(r, m, s, data, fits, j);
    }
  }

  lemma {:induction false} CollectedPieces(r: Ring, m: seq<byte>, s: Span, data: seq<byte>, fits: bool, j: nat)
    requires j <= |s.ds| && Settled(r, m, s, data, fits)
    ensures Collected(m, s.ds, |data|, j) == data[..Min(Room(s.ds, j), |data|)]
  {
    hide Load, Len, Room;
    NoRoom(s.ds);
    if j > 0 {
      CollectedPieces(r, m, s, data, fits, j - 1);
      RoomMonotone(s.ds, j - 1, j);
      assert Load(m, s.ds[j - 1].buf, |Piece(s, data, j - 1)|) == Piece(s, data, j - 1);
    }
  }

  /** The buffers hold the packet, in order; the words and the byte count are as the guest expects them. */
  ghost predicate Received(r: Ring, m': seq<byte>, s: Span, data: seq<byte>) {
    && 1 <= |s.ps| == |s.ds|
    && Collected(m', s.ds, |data|, |s.ds|) == data
    && (forall j :: 0 <= j < |s.ds| ==> W1(m', r, s.ps[j]) == FinalWord(s, true, j))
    && CountOf(Word(m', W2Addr(r, s.ps[|s.ps| - 1]))) == Min(|data|, 2048) + 4
  }

  /** A range that the reception has no business with: no buffer, no second word, not the byte count. */
  ghost predicate Elsewhere(r: Ring, s: Span, a: nat, n: nat) {
    && 1 <= |s.ps| == |s.ds|
    && (forall j :: 0 <= j < |s.ds| ==> Apart(a, n, s.ds[j].buf, Len(s.ds[j])) && Apart(a, n, W1Addr(r, s.ps[j]), 4))
    && Apart(a, n, W2Addr(r, s.ps[|s.ps| - 1]), 4)
  }

  lemma ReceivedAll(r: Ring, m: seq<byte>, s: Span, data: seq<byte>)
    requires Ready(r, m, s, data, true)
    ensures Received(r, ApplyAll(m, AllWrites(r, s, data, true)), s, data)
  {
    CountReadsBack(s.ds[|s.ds| - 1].w2, StoredCount(|data|));
    hide Owned, ReadDesc, Len, Load, AllWrites, Next, ApplyAll, FinalWord;
    hide WithCount, CountOf, W1, W2Addr, Room, Piece, Usable;
    var m' := ApplyAll(m, AllWrites(r, s, data, true));
    EndsSettled(r, m, s, data, true);
    CollectedPieces(r, m', s, data, true, |s.ds|);
    assert data[..|data|] == data;
    CountEnds(r, m, s, data);
  }

  /** Receive scatter: a packet that fills exactly `k` owned descriptors ends up in their buffers, the ring
      position advances by `k`, and nothing else changes. */
  lemma ScatterComplete(r: Ring, m: seq<byte>, start: nat, k: nat, data: seq<byte>)
    requires start < r.len && 1 <= k <= r.len
    requires Layout(r, m, SpanOf(r, m, start, k)) && Fits(SpanOf(r, m, start, k), |data|)
    ensures Owned(W1(m, r, start))
    ensures var s, e := SpanOf(r, m, start, k), Reception(r, m, start, data);
            && e.pos == (start + k) % r.len && e.visits == k
            && Received(r, ApplyAll(m, e.writes), s, data)
            && (forall a, n :: Elsewhere(r, s, a, n) ==> Load(ApplyAll(m, e.writes), a, n) == Load(m, a, n))
  {
    var s := SpanOf(r, m, start, k);
    SpanEnds(r, m, start, k);
    hide SpanOf, Owned, Load, AllWrites, Next, ApplyAll, Reception, W1, Received, Layout, Fits, ReadDesc;
    ReceptionWrites(r, m, s, data, true);
    ReceivedAll(r, m, s, data);
    forall a, n | Elsewhere(r, s, a, n)
      ensures Load(ApplyAll(m, AllWrites(r, s, data, true)), a, n) == Load(m, a, n)
    {
      ElseUnchanged(r, m, s, data, true, a, n);
    }
  }

  /** Without enough owned descriptors, the last one is flagged as an error and the packet is cut. */
  lemma ScatterShort(r: Ring, m: seq<byte>, start: nat, k: nat, data: seq<byte>)
    requires start < r.len && 1 <= k <= r.len
    requires Layout(r, m, SpanOf(r, m, start, k)) && Short(r, m, SpanOf(r, m, start, k), |data|)
    ensures Owned(W1(m, r, start))
    ensures var s, e := SpanOf(r, m, start, k), Reception(r, m, start, data);
            && e.pos == (start + k) % r.len && e.visits == k
            && Collected(ApplyAll(m, e.writes), s.ds, |data|, k) == data[..Room(s.ds, k)]
            && (forall j :: 0 <= j < k ==> W1(ApplyAll(m, e.writes), r, s.ps[j]) == FinalWord(s, false, j))
  {
    var s := SpanOf(r, m, start, k);
    SpanEnds(r, m, start, k);
    hide SpanOf, Owned, Load, AllWrites, Next, ApplyAll, Reception;
    hide W1, Layout, ReadDesc, Collected, FinalWord, Room, Piece;
    ReceptionWrites(r, m, s, data, false);
    EndsSettled(r, m, s, data, false);
    CollectedPieces(r, ApplyAll(m, AllWrites(r, s, data, false)), s, data, false, k);
  }

  // ---------- Handover ----------

  lemma {:induction false} WritesKeepOwned(m: seq<byte>, ws: seq<Write>, a: nat)
    requires a + 4 <= |m| && Owned(Word(m, a))
    requires forall x :: 0 <= x < |ws| ==>
               Apart(a, 4, ws[x].addr, |ws[x].data|) || exists w :: ws[x] == WordWrite(a, w) && Owned(w)
    ensures Owned(Word(ApplyAll(m, ws), a))
    decreases |ws|
  {
    hide Owned, Store, Load, GetBe32, Be32;
    if ws != [] {
      var m1 := Store(m, ws[0]);
      if Apart(a, 4, ws[0].addr, |ws[0].data|) {
        StoreKeeps(m, ws[0], a, 4);
      } else {
        var w :| ws[0] == WordWrite(a, w) && Owned(w);
        StoreHolds(m, ws[0]);
        WordOfBe32(w);
      }
      WritesKeepOwned(m1, ws[1..], a);
    }
  }

  /** Handover: until the very last write of a reception the chip still owns the first descriptor in memory,
      and with that write every descriptor of the packet belongs to the guest. */
  lemma Handover(r: Ring, m: seq<byte>, s: Span, data: seq<byte>, fits: bool, x: nat)
    requires Ready(r, m, s, data, fits) && x < |AllWrites(r, s, data, fits)|
    ensures Owned(W1(ApplyAll(m, AllWrites(r, s, data, fits)[..x]), r, s.ps[0]))
    ensures forall j :: 0 <= j < |s.ds| ==> !Owned(W1(ApplyAll(m, AllWrites(r, s, data, fits)), r, s.ps[j]))
  {
    hide ReadDesc, Load, AllWrites, Next, ApplyAll, Be32, GetBe32, Fits, Short, Len, WithCount, Owned, WordWrite;
    var ws := AllWrites(r, s, data, fits);
    var a := W1Addr(r, s.ps[0]);
    SpanOwned(r, m, s, 0);
    OwnKept(s.ds[0].w1);
    forall y | 0 <= y < x
      ensures Apart(a, 4, ws[y].addr, |ws[y].data|) || exists w :: ws[y] == WordWrite(a, w) && Owned(w)
    {
      WriteAt(r, s, data, fits, y);
      WriteLands(r, m, s, data, fits, y);
      if y % 2 == 0 && y < 2 * |s.ds| {
        assert Usable(r, |m|, s.ds[y / 2]);
      } else if y == 1 {
        assert ws[y] == WordWrite(a, if |s.ds| == 1 then EndWord(s, fits) else s.ds[0].w1);
      }
    }
    WritesKeepOwned(m, ws[..x], a);
    forall j | 0 <= j < |s.ds|
      ensures !Owned(W1(ApplyAll(m, ws), r, s.ps[j]))
    {
      WordEnds(r, m, s, data, fits, j);
      FinalNotOwned(s, fits, j);
    }
  }

  /** The same, on the receptions that the ring position starts. */
  lemma ReceptionHandover(r: Ring, m: seq<byte>, start: nat, k: nat, data: seq<byte>)
    requires start < r.len && 1 <= k <= r.len && Layout(r, m, SpanOf(r, m, start, k))
    requires Fits(SpanOf(r, m, start, k), |data|) || Short(r, m, SpanOf(r, m, start, k), |data|)
    ensures Owned(W1(m, r, start))
    ensures var ws := Reception(r, m, start, data).writes;
            && (forall x :: 0 <= x < |ws| ==> Owned(W1(ApplyAll(m, ws[..x]), r, start)))
            && (forall j :: 0 <= j < k ==> !Owned(W1(ApplyAll(m, ws), r, Ahead(r, start, j))))
  {
    hide Owned, Load, AllWrites, Next, ApplyAll, Reception, W1, Layout, Fits, Short, ReadDesc, SpanOf;
    var s := SpanOf(r, m, start, k);
    SpanEnds(r, m, start, k);
    var fits := Fits(s, |data|);
    ReceptionWrites(r, m, s, data, fits);
    var ws := AllWrites(r, s, data, fits);
    forall x | 0 <= x < |ws|
      ensures Owned(W1(ApplyAll(m, ws[..x]), r, start))
    {
      Handover(r, m, s, data, fits, x);
    }
    Handover(r, m, s, data, fits, 0);
    assert forall j :: 0 <= j < k ==> s.ps[j] == Ahead(r, start, j);
  }

  lemma FinalNotOwned(s: Span, fits: bool, j: nat)
    requires j < |s.ds|
    ensures !Owned(FinalWord(s, fits, j))
  {
    FlagsNotOwned(s.ds[j].w1);
  }

  lemma FlagsNotOwned(w: bv32)
    ensures !Owned(ClearOwn(w)) && !Owned(SetEnp(ClearOwn(w))) && !Owned(SetError(ClearOwn(w)))
    ensures !Owned(SetStp(ClearOwn(w))) && !Owned(SetStp(SetEnp(ClearOwn(w)))) && !Owned(SetStp(SetError(ClearOwn(w))))
  {}
}
