/** Transmit gather: how a chain of transmit descriptors becomes a frame. */
module TxRing {
  import opened Bytes
  import opened PhysMem
  import opened DescRing
  import opened RxRing
  import opened RxScatter

  /** Consecutive descriptors that the chip owns, none of them but perhaps the last with ENP. */
  ghost predicate Links(r: Ring, m: seq<byte>, s: Span) {
    && 1 <= |s.ps| == |s.ds| <= r.len && r.base + DESC_SIZE * r.len <= |m|
    && (forall j :: 0 <= j < |s.ps| ==> s.ps[j] < r.len && s.ds[j] == ReadDesc(m, r, s.ps[j]))
    && (forall j :: 0 <= j < |s.ps| - 1 ==> s.ps[j + 1] == Next(r, s.ps[j]))
    && (forall i, j :: 0 <= i < |s.ps| && 0 <= j < |s.ps| && i != j ==> s.ps[i] != s.ps[j])
    && (forall j :: 0 <= j < |s.ds| ==> TxUsable(r, s.ds[j]))
    && (forall j :: 0 <= j < |s.ds| - 1 ==> !IsEnp(s.ds[j].w1))
    && Room(s.ds, |s.ds|) <= MAX_PKT_SIZE
  }

  /** A chain with ENP on the last descriptor, or one cut short by a descriptor the chip does not own. */
  ghost predicate Chain(r: Ring, m: seq<byte>, s: Span, complete: bool) {
    Links(r, m, s) && if complete then IsEnp(s.ds[|s.ds| - 1].w1) else Underflow(r, m, s)
  }

  ghost predicate TxUsable(r: Ring, d: Desc) {
    Owned(d.w1) && Apart(d.buf, Len(d), r.base, DESC_SIZE * r.len)
  }

  ghost predicate Underflow(r: Ring, m: seq<byte>, s: Span)
    requires |s.ps| == |s.ds| > 0
  {
    && !IsEnp(s.ds[|s.ds| - 1].w1)
    && var q := Next(r, s.ps[|s.ps| - 1]);
    && q < r.len && (forall i :: 0 <= i < |s.ps| ==> s.ps[i] != q) && !Owned(W1(m, r, q))
  }

  /** The writes after `j` descriptors: every one without STP is given back at once. */
  function Cleared(r: Ring, s: Span, j: nat): seq<Write>
    requires j <= |s.ds| == |s.ps|
  {
    if j == 0 then []
    else Cleared(r, s, j - 1) +
         if IsStp(s.ds[j - 1].w1) then [] else [WordWrite(W1Addr(r, s.ps[j - 1]), ClearOwn(s.ds[j - 1].w1))]
  }

  /** All writes of a transmission; the first descriptor is given back last. */
  function TxWrites(r: Ring, s: Span, complete: bool): seq<Write>
    requires |s.ds| == |s.ps| > 0
  {
    Cleared(r, s, |s.ds|) + if complete then [WordWrite(W1Addr(r, s.ps[0]), ClearOwn(s.ds[0].w1))] else []
  }

  /** The bytes of the buffers, in order. */
  function Gather(m: seq<byte>, ds: seq<Desc>, j: nat): (d: seq<byte>)
    requires j <= |ds|
    ensures |d| == Room(ds, j)
  {
    if j == 0 then [] else Gather(m, ds, j - 1) + Load(m, ds[j - 1].buf, Len(ds[j - 1]))
  }

  lemma {:induction false} ClearedKeeps(r: Ring, m: seq<byte>, s: Span, j: nat, a: nat, n: nat)
    requires j <= |s.ds| == |s.ps|
    requires forall i :: 0 <= i < j ==> Apart(a, n, W1Addr(r, s.ps[i]), 4)
    ensures Load(ApplyAll(m, Cleared(r, s, j)), a, n) == Load(m, a, n)
  {
    hide Load, Store, ApplyAll, W1Addr, IsStp, ClearOwn, Be32;
    if j == 0 {
      NothingApplied(m);
    } else {
      ClearedKeeps(r, m, s, j - 1, a, n);
      var mj := ApplyAll(m, Cleared(r, s, j - 1));
      if IsStp(s.ds[j - 1].w1) {
        assert Cleared(r, s, j) == Cleared(r, s, j - 1);
      } else {
        ClearedStep(r, m, s, j - 1);
        StoreKeeps(mj, WordWrite(W1Addr(r, s.ps[j - 1]), ClearOwn(s.ds[j - 1].w1)), a, n);
      }
    }
  }

  lemma NothingApplied(m: seq<byte>)
    ensures ApplyAll(m, []) == m
  {}

  lemma ApplyOne(m: seq<byte>, ws: seq<Write>, w: Write)
    ensures ApplyAll(m, ws + [w]) == Store(ApplyAll(m, ws), w)
  {
    hide Store;
    ApplyConcat(m, ws, [w]);
    assert [w][1..] == [];
  }

  lemma ClearedStep(r: Ring, m: seq<byte>, s: Span, j: nat)
    requires j < |s.ds| == |s.ps|
    ensures ApplyAll(m, Cleared(r, s, j + 1)) ==
            if IsStp(s.ds[j].w1) then ApplyAll(m, Cleared(r, s, j))
            else Store(ApplyAll(m, Cleared(r, s, j)), WordWrite(W1Addr(r, s.ps[j]), ClearOwn(s.ds[j].w1)))
  {
    hide Store, ApplyAll, IsStp, ClearOwn, WordWrite;
    if IsStp(s.ds[j].w1) {
      assert Cleared(r, s, j + 1) == Cleared(r, s, j);
    } else {
      ApplyOne(m, Cleared(r, s, j), WordWrite(W1Addr(r, s.ps[j]), ClearOwn(s.ds[j].w1)));
    }
  }

  /** A position not among the first `j` still reads as before. */
  lemma UnvisitedDesc(r: Ring, m: seq<byte>, s: Span, j: nat, p: nat)
    requires j <= |s.ds| == |s.ps| && forall i :: 0 <= i < j ==> s.ps[i] != p
    ensures ReadDesc(ApplyAll(m, Cleared(r, s, j)), r, p) == ReadDesc(m, r, p)
  {
    hide Load, GetBe32, ApplyAll, Cleared;
    ClearedKeeps(r, m, s, j, W1Addr(r, p), 4);
    ClearedKeeps(r, m, s, j, BufAddr(r, p), 4);
    ClearedKeeps(r, m, s, j, W2Addr(r, p), 4);
  }

  /** A buffer off the ring still reads as before. */
  lemma UnvisitedBuffer(r: Ring, m: seq<byte>, s: Span, j: nat, d: Desc)
    requires j <= |s.ds| == |s.ps| && (forall i :: 0 <= i < j ==> s.ps[i] < r.len)
    requires Apart(d.buf, Len(d), r.base, DESC_SIZE * r.len)
    ensures Load(ApplyAll(m, Cleared(r, s, j)), d.buf, Len(d)) == Load(m, d.buf, Len(d))
  {
    hide Load, ApplyAll, Cleared, Len;
    ClearedKeeps(r, m, s, j, d.buf, Len(d));
  }

  lemma ChainShape(r: Ring, m: seq<byte>, s: Span, complete: bool)
    requires Chain(r, m, s, complete)
    ensures |s.ps| == |s.ds| > 0
  {}

  lemma NothingVisited(r: Ring, m: seq<byte>, s: Span)
    requires |s.ds| == |s.ps|
    ensures Gather(m, s.ds, 0) == [] && Cleared(r, s, 0) == [] && ApplyAll(m, []) == m
  {}

  /** The writes of a transmission are those of its visits, and if it is complete the one that gives the first
      descriptor back. */
  lemma AllWritten(r: Ring, m: seq<byte>, s: Span, complete: bool)
    requires |s.ds| == |s.ps| > 0
    ensures var (ws, w) := (Cleared(r, s, |s.ds|), WordWrite(W1Addr(r, s.ps[0]), ClearOwn(s.ds[0].w1)));
            && TxWrites(r, s, complete) == (if complete then ws + [w] else ws)
            && ApplyAll(m, TxWrites(r, s, complete)) == if complete then Store(ApplyAll(m, ws), w) else ApplyAll(m, ws)
  {
    hide Cleared, ApplyAll, Store, WordWrite, ClearOwn;
    ApplyOne(m, Cleared(r, s, |s.ds|), WordWrite(W1Addr(r, s.ps[0]), ClearOwn(s.ds[0].w1)));
  }

  /** What a chain says about its `j`-th descriptor, and how the chain goes on after it. */
  lemma ChainAt(r: Ring, m: seq<byte>, s: Span, complete: bool, j: nat)
    requires Chain(r, m, s, complete) && j < |s.ds|
    ensures |s.ds| == |s.ps| <= r.len && s.ps[j] < r.len && Owned(s.ds[j].w1) && s.ds[j] == ReadDesc(m, r, s.ps[j])
    ensures IsEnp(s.ds[j].w1) <==> j == |s.ds| - 1 && complete
    ensures j < |s.ds| - 1 ==> s.ps[j + 1] == Next(r, s.ps[j])
  {
    hide Owned, IsEnp, ReadDesc, Next, Room, Apart;
    assert TxUsable(r, s.ds[j]);
  }

  /** After `j + 1` visits the descriptor that follows is still as the guest left it: the next one of the
      chain, or after a chain cut short one the chip does not own. */
  lemma ChainGoesOn(r: Ring, m: seq<byte>, s: Span, complete: bool, j: nat)
    requires Chain(r, m, s, complete) && j < |s.ds| && !(j == |s.ds| - 1 && complete)
    ensures var d := ReadDesc(ApplyAll(m, Cleared(r, s, j + 1)), r, Next(r, s.ps[j]));
            if j < |s.ds| - 1 then d == s.ds[j + 1] else !Owned(d.w1)
  {
    hide Owned, IsEnp, Load, GetBe32, Next, Room, Apart, Cleared, ApplyAll, ReadDesc;
    var q := Next(r, s.ps[j]);
    if j < |s.ds| - 1 {
      assert s.ps[j + 1] == q;
      UnvisitedDesc(r, m, s, j + 1, q);
    } else {
      assert Underflow(r, m, s);
      UnvisitedDesc(r, m, s, j + 1, q);
      Word1Of(m, r, q);
    }
  }

  /** The bytes of the `j`-th buffer are still the guest's when it is visited. */
  lemma ChainBuffer(r: Ring, m: seq<byte>, s: Span, complete: bool, j: nat)
    requires Chain(r, m, s, complete) && j < |s.ds|
    ensures Gather(m, s.ds, j) + Load(ApplyAll(m, Cleared(r, s, j)), s.ds[j].buf, Len(s.ds[j])) == Gather(m, s.ds, j + 1)
    ensures |Gather(m, s.ds, j + 1)| <= MAX_PKT_SIZE
  {
    hide Owned, IsEnp, Load, ReadDesc, Next, Cleared, ApplyAll, Len;
    assert TxUsable(r, s.ds[j]);
    UnvisitedBuffer(r, m, s, j, s.ds[j]);
    RoomMonotone(s.ds, j + 1, |s.ds|);
  }

  // ---------- The memory after a transmission ----------

  /** The word of the `j`-th descriptor after the first `n` have been visited. */
  lemma {:induction false} ClearedWord(r: Ring, m: seq<byte>, s: Span, n: nat, j: nat)
    requires |s.ds| == |s.ps| && j < |s.ps| && n <= |s.ps| && r.base + DESC_SIZE * r.len <= |m|
    requires forall i :: 0 <= i < |s.ps| ==> s.ps[i] < r.len && s.ds[i] == ReadDesc(m, r, s.ps[i])
    requires forall i, i' :: 0 <= i < |s.ps| && 0 <= i' < |s.ps| && i != i' ==> s.ps[i] != s.ps[i']
    ensures W1(ApplyAll(m, Cleared(r, s, n)), r, s.ps[j]) ==
            if j < n && !IsStp(s.ds[j].w1) then ClearOwn(s.ds[j].w1) else s.ds[j].w1
    decreases n
  {
    hide Load, Store, GetBe32, Be32, ApplyAll, IsStp, ClearOwn, Cleared;
    if n <= j {
      UnvisitedDesc(r, m, s, n, s.ps[j]);
    } else {
      ClearedStep(r, m, s, n - 1);
      ClearedWord(r, m, s, n - 1, j);
      var mj := ApplyAll(m, Cleared(r, s, n - 1));
      var w := ClearOwn(s.ds[n - 1].w1);
      if !IsStp(s.ds[n - 1].w1) {
        if j == n - 1 {
          StoreHolds(mj, WordWrite(W1Addr(r, s.ps[j]), w));
          WordOfBe32(w);
        } else {
          StoreKeeps(mj, WordWrite(W1Addr(r, s.ps[n - 1]), w), W1Addr(r, s.ps[j]), 4);
        }
      }
    }
  }

  function SentWord(s: Span, j: nat): bv32
    requires j < |s.ds|
  {
    if j == 0 || !IsStp(s.ds[j].w1) then ClearOwn(s.ds[j].w1) else s.ds[j].w1
  }

  /** After a complete transmission every descriptor without STP, and the first, is given back unchanged but
      for OWN; nothing outside the second words changes. */
  lemma TransmissionMemory(r: Ring, m: seq<byte>, s: Span)
    requires Chain(r, m, s, true)
    ensures var m' := ApplyAll(m, TxWrites(r, s, true));
            && (forall j :: 0 <= j < |s.ds| ==> W1(m', r, s.ps[j]) == SentWord(s, j))
            && (forall a, n :: (forall j :: 0 <= j < |s.ps| ==> Apart(a, n, W1Addr(r, s.ps[j]), 4)) ==>
                  Load(m', a, n) == Load(m, a, n))
  {
    hide Load, Store, GetBe32, Be32, ApplyAll, IsStp, ClearOwn, Cleared, Owned, IsEnp, Room, ReadDesc;
    var k := |s.ds|;
    var mk := ApplyAll(m, Cleared(r, s, k));
    var w := ClearOwn(s.ds[0].w1);
    ApplyOne(m, Cleared(r, s, k), WordWrite(W1Addr(r, s.ps[0]), w));
    var m' := Store(mk, WordWrite(W1Addr(r, s.ps[0]), w));
    forall j | 0 <= j < k
      ensures W1(m', r, s.ps[j]) == SentWord(s, j)
    {
      ClearedWord(r, m, s, k, j);
      if j == 0 {
        StoreHolds(mk, WordWrite(W1Addr(r, s.ps[0]), w));
        WordOfBe32(w);
      } else {
        StoreKeeps(mk, WordWrite(W1Addr(r, s.ps[0]), w), W1Addr(r, s.ps[j]), 4);
      }
    }
    forall a, n | forall j :: 0 <= j < |s.ps| ==> Apart(a, n, W1Addr(r, s.ps[j]), 4)
      ensures Load(m', a, n) == Load(m, a, n)
    {
      ClearedKeeps(r, m, s, k, a, n);
      StoreKeeps(mk, WordWrite(W1Addr(r, s.ps[0]), w), a, n);
    }
  }

  /** With STP on the first descriptor only, the chip keeps the first until its very last write and gives
      back every descriptor. */
  lemma TransmissionHandover(r: Ring, m: seq<byte>, s: Span, x: nat)
    requires Chain(r, m, s, true)
    requires forall j :: 0 <= j < |s.ds| ==> (IsStp(s.ds[j].w1) <==> j == 0)
    requires x < |TxWrites(r, s, true)|
    ensures Owned(W1(ApplyAll(m, TxWrites(r, s, true)[..x]), r, s.ps[0]))
    ensures forall j :: 0 <= j < |s.ds| ==> !Owned(W1(ApplyAll(m, TxWrites(r, s, true)), r, s.ps[j]))
  {
    hide Load, Store, GetBe32, Be32, ApplyAll, IsStp, ClearOwn, Owned, IsEnp, Room, ReadDesc, Len, Cleared;
    var ws := TxWrites(r, s, true);
    var a := W1Addr(r, s.ps[0]);
    assert TxUsable(r, s.ds[0]) && s.ds[0] == ReadDesc(m, r, s.ps[0]);
    Word1Of(m, r, s.ps[0]);
    forall y | 0 <= y < x
      ensures Apart(a, 4, ws[y].addr, |ws[y].data|) || exists w :: ws[y] == WordWrite(a, w) && Owned(w)
    {
      var j := ClearedFrom(r, s, |s.ds|, y);
    }
    WritesKeepOwned(m, ws[..x], a);
    TransmissionMemory(r, m, s);
    forall j | 0 <= j < |s.ds|
      ensures !Owned(W1(ApplyAll(m, ws), r, s.ps[j]))
    {
      OwnCleared(s.ds[j].w1);
    }
  }

  lemma Word1Of(m: seq<byte>, r: Ring, p: nat)
    ensures ReadDesc(m, r, p).w1 == W1(m, r, p) == Word(m, W1Addr(r, p))
  {}

  /** Which descriptor a write of `Cleared` gives back. */
  lemma {:induction false} ClearedFrom(r: Ring, s: Span, n: nat, y: nat) returns (j: nat)
    requires n <= |s.ds| == |s.ps| && y < |Cleared(r, s, n)|
    ensures j < n && !IsStp(s.ds[j].w1) && Cleared(r, s, n)[y] == WordWrite(W1Addr(r, s.ps[j]), ClearOwn(s.ds[j].w1))
  {
    hide IsStp, ClearOwn, WordWrite;
    if y < |Cleared(r, s, n - 1)| {
      j := ClearedFrom(r, s, n - 1, y);
    } else {
      j := n - 1;
    }
  }

  lemma {:induction false} GatherIsCollected(m: seq<byte>, ds: seq<Desc>, n: nat, j: nat)
    requires j <= |ds| && Room(ds, j) <= n
    ensures Collected(m, ds, n, j) == Gather(m, ds, j)
  {
    hide Load, Len;
    if j > 0 {
      GatherIsCollected(m, ds, n, j - 1);
    }
  }

  /** Loopback: a frame gathered from one ring and received into another reads the same there. */
  lemma Loopback(r: Ring, m: seq<byte>, s: Span, r': Ring, m': seq<byte>, start: nat, k: nat)
    requires Chain(r, m, s, true)
    requires start < r'.len && 1 <= k <= r'.len && Layout(r', m', SpanOf(r', m', start, k))
    requires Fits(SpanOf(r', m', start, k), Room(s.ds, |s.ds|))
    ensures var frame := Gather(m, s.ds, |s.ds|);
            && Owned(W1(m', r', start))
            && Collected(ApplyAll(m', Reception(r', m', start, frame).writes), SpanOf(r', m', start, k).ds, |frame|, k) ==
               Collected(m, s.ds, |frame|, |s.ds|)
  {
    var frame := Gather(m, s.ds, |s.ds|);
    hide Load, ApplyAll, Reception, Owned, ReadDesc, Layout, Fits, Len, Gather, Collected, SpanOf, Chain, W1;
    ScatterComplete(r', m', start, k, frame);
    GatherIsCollected(m, s.ds, |frame|, |s.ds|);
  }

  // ---------- A queue of chains ----------

  function Last(s: Span): nat
    requires |s.ps| > 0
  {
    s.ps[|s.ps| - 1]
  }

  function QueueEnd(r: Ring, pos: nat, q: seq<Span>): nat
    requires forall i :: 0 <= i < |q| ==> |q[i].ps| > 0
  {
    if q == [] then pos else Next(r, Last(q[|q| - 1]))
  }

  /** Complete chains one after the other from the ring position. */
  ghost predicate Line(r: Ring, m: seq<byte>, pos: nat, q: seq<Span>) {
    && (forall i :: 0 <= i < |q| ==> Chain(r, m, q[i], true))
    && (q == [] || q[0].ps[0] == pos)
    && (forall i :: 0 < i < |q| ==> q[i].ps[0] == Next(r, Last(q[i - 1])))
    && (forall i, i', j, j' :: 0 <= i < i' < |q| && 0 <= j < |q[i].ps| && 0 <= j' < |q[i'].ps| ==>
          q[i].ps[j] != q[i'].ps[j'])
  }

  ghost predicate Outside(q: seq<Span>, p: nat) {
    forall i, j :: 0 <= i < |q| && 0 <= j < |q[i].ps| ==> q[i].ps[j] != p
  }

  /** The descriptor that stops the chip: not owned, or the first of the line, given back by then. */
  ghost predicate Stop(r: Ring, m: seq<byte>, pos: nat, q: seq<Span>, e: nat) {
    (q != [] && e == pos) || (!Owned(W1(m, r, e)) && Outside(q, e))
  }

  /** A chain after the line, without ENP. */
  ghost predicate Cut(r: Ring, m: seq<byte>, e: nat, q: seq<Span>, s: Span) {
    && Links(r, m, s) && !IsEnp(s.ds[|s.ds| - 1].w1) && s.ps[0] == e
    && (forall j :: 0 <= j < |s.ps| ==> Outside(q, s.ps[j]))
    && Next(r, Last(s)) < r.len && forall j :: 0 <= j < |s.ps| ==> s.ps[j] != Next(r, Last(s))
  }

  /** What the guest has queued: complete chains `q`, then perhaps one that it has not finished yet. */
  ghost predicate Queue(r: Ring, m: seq<byte>, pos: nat, q: seq<Span>, t: seq<Span>) {
    && Line(r, m, pos, q) && |t| <= 1
    && (forall i :: 0 <= i < |q| ==> |q[i].ps| > 0)
    && (t != [] ==> Cut(r, m, QueueEnd(r, pos, q), q, t[0]))
    && Stop(r, m, pos, q, if t == [] then QueueEnd(r, pos, q) else Next(r, Last(t[0])))
  }

  lemma SentDesc(r: Ring, m: seq<byte>, s: Span, p: nat)
    requires Chain(r, m, s, true) && forall j :: 0 <= j < |s.ps| ==> s.ps[j] != p
    ensures ReadDesc(ApplyAll(m, TxWrites(r, s, true)), r, p) == ReadDesc(m, r, p)
  {
    hide Load, GetBe32, ApplyAll, TxWrites, Owned, IsEnp, Room, Len;
    TransmissionMemory(r, m, s);
    var m' := ApplyAll(m, TxWrites(r, s, true));
    assert Load(m', W1Addr(r, p), 4) == Load(m, W1Addr(r, p), 4);
    assert Load(m', W2Addr(r, p), 4) == Load(m, W2Addr(r, p), 4);
    assert Load(m', BufAddr(r, p), 4) == Load(m, BufAddr(r, p), 4);
  }

  lemma {:induction false} SentGather(r: Ring, m: seq<byte>, s: Span, s': Span, j: nat)
    requires Chain(r, m, s, true) && Chain(r, m, s', true) && j <= |s'.ds|
    ensures Gather(ApplyAll(m, TxWrites(r, s, true)), s'.ds, j) == Gather(m, s'.ds, j)
  {
    hide Load, GetBe32, ApplyAll, TxWrites, Owned, IsEnp, Room, Len, ReadDesc;
    if j > 0 {
      SentGather(r, m, s, s', j - 1);
      assert TxUsable(r, s'.ds[j - 1]);
      TransmissionMemory(r, m, s);
      var m' := ApplyAll(m, TxWrites(r, s, true));
      assert forall i :: 0 <= i < |s.ps| ==> Apart(s'.ds[j - 1].buf, Len(s'.ds[j - 1]), W1Addr(r, s.ps[i]), 4);
    }
  }

  lemma SentLinks(r: Ring, m: seq<byte>, s: Span, s': Span)
    requires Chain(r, m, s, true) && Links(r, m, s')
    requires forall j, j' :: 0 <= j < |s.ps| && 0 <= j' < |s'.ps| ==> s.ps[j] != s'.ps[j']
    ensures Links(r, ApplyAll(m, TxWrites(r, s, true)), s')
  {
    hide Load, GetBe32, TxWrites, Owned, IsEnp, Room, Len, ReadDesc;
    forall j | 0 <= j < |s'.ps|
      ensures ReadDesc(ApplyAll(m, TxWrites(r, s, true)), r, s'.ps[j]) == s'.ds[j]
    {
      SentDesc(r, m, s, s'.ps[j]);
    }
  }

  lemma LineStep(r: Ring, m: seq<byte>, pos: nat, q: seq<Span>)
    requires Line(r, m, pos, q) && q != []
    ensures Shaped(q) && q[0].ps[0] == pos
    ensures Line(r, ApplyAll(m, TxWrites(r, q[0], true)), Next(r, Last(q[0])), q[1..])
    ensures QueueEnd(r, Next(r, Last(q[0])), q[1..]) == QueueEnd(r, pos, q)
  {
    hide Load, GetBe32, TxWrites, Owned, IsEnp, Room, Len, ReadDesc, Links, ApplyAll, W1, Next;
    forall i | 0 <= i < |q|
      ensures |q[i].ps| == |q[i].ds| > 0
    {
      ChainShape(r, m, q[i], true);
    }
    var m' := ApplyAll(m, TxWrites(r, q[0], true));
    var rest := q[1..];
    assert forall i :: 0 <= i < |rest| ==> rest[i] == q[i + 1];
    forall i | 0 <= i < |rest|
      ensures Chain(r, m', rest[i], true)
    {
      SentLinks(r, m, q[0], rest[i]);
    }
    forall i | 0 < i < |rest|
      ensures rest[i].ps[0] == Next(r, Last(rest[i - 1]))
    {
      assert q[i + 1].ps[0] == Next(r, Last(q[i]));
    }
  }

  lemma OutsideTail(q: seq<Span>, p: nat)
    requires q != [] && Outside(q, p)
    ensures Outside(q[1..], p) && forall j :: 0 <= j < |q[0].ps| ==> q[0].ps[j] != p
  {
    assert forall i :: 0 <= i < |q[1..]| ==> q[1..][i] == q[i + 1];
  }

  lemma StopStep(r: Ring, m: seq<byte>, pos: nat, q: seq<Span>, e: nat)
    requires Line(r, m, pos, q) && q != [] && Stop(r, m, pos, q, e)
    ensures |q[0].ps| > 0
    ensures Stop(r, ApplyAll(m, TxWrites(r, q[0], true)), Next(r, Last(q[0])), q[1..], e)
  {
    hide Load, GetBe32, TxWrites, Owned, IsEnp, Room, Len, ReadDesc, Links, ApplyAll, W1, Next;
    ChainShape(r, m, q[0], true);
    var m' := ApplyAll(m, TxWrites(r, q[0], true));
    if e == pos {
      SentFirst(r, m, q[0]);
      var rest := q[1..];
      forall i, j | 0 <= i < |rest| && 0 <= j < |rest[i].ps|
        ensures rest[i].ps[j] != e
      {
        assert q[i + 1].ps[j] != q[0].ps[0];
      }
    } else {
      OutsideTail(q, e);
      SentDesc(r, m, q[0], e);
      W1OfDesc(m, m', r, e);
    }
  }

  lemma CutStep(r: Ring, m: seq<byte>, pos: nat, q: seq<Span>, e: nat, s: Span)
    requires Line(r, m, pos, q) && q != [] && Cut(r, m, e, q, s)
    ensures Cut(r, ApplyAll(m, TxWrites(r, q[0], true)), e, q[1..], s)
  {
    hide Load, GetBe32, TxWrites, Owned, IsEnp, Room, Len, ReadDesc, Links, ApplyAll, W1, Next, Outside;
    CutShape(r, m, s);
    ChainShape(r, m, q[0], true);
    forall j | 0 <= j < |s.ps|
      ensures Outside(q[1..], s.ps[j]) && forall i :: 0 <= i < |q[0].ps| ==> q[0].ps[i] != s.ps[j]
    {
      OutsideTail(q, s.ps[j]);
    }
    SentLinks(r, m, q[0], s);
  }

  lemma CutShape(r: Ring, m: seq<byte>, s: Span)
    requires Links(r, m, s)
    ensures |s.ps| == |s.ds| > 0
  {}

  /** Sending the first chain leaves a queue of the others, the unfinished one included. */
  lemma QueueStep(r: Ring, m: seq<byte>, pos: nat, q: seq<Span>, t: seq<Span>)
    requires Queue(r, m, pos, q, t) && q != []
    ensures Queue(r, ApplyAll(m, TxWrites(r, q[0], true)), Next(r, Last(q[0])), q[1..], t)
  {
    hide TxWrites, ApplyAll, Next, Line, Cut, Stop;
    QueueShaped(r, m, pos, q, t);
    LineStep(r, m, pos, q);
    StopStep(r, m, pos, q, if t == [] then QueueEnd(r, pos, q) else Next(r, Last(t[0])));
    if t != [] {
      CutStep(r, m, pos, q, QueueEnd(r, pos, q), t[0]);
    }
  }

  lemma W1OfDesc(m: seq<byte>, m': seq<byte>, r: Ring, p: nat)
    requires ReadDesc(m', r, p) == ReadDesc(m, r, p)
    ensures W1(m', r, p) == W1(m, r, p)
  {}

  lemma SentFirst(r: Ring, m: seq<byte>, s: Span)
    requires Chain(r, m, s, true)
    ensures !Owned(W1(ApplyAll(m, TxWrites(r, s, true)), r, s.ps[0]))
  {
    hide Load, GetBe32, TxWrites, IsEnp, Room, Len, ReadDesc, ApplyAll, W1, Owned, ClearOwn;
    TransmissionMemory(r, m, s);
    OwnCleared(s.ds[0].w1);
  }

  /** The frames of the first `n` chains, as the guest laid them out. */
  function Frames(m: seq<byte>, q: seq<Span>, n: nat): (fs: seq<seq<byte>>)
    requires n <= |q|
    ensures |fs| == n
  {
    if n == 0 then [] else Frames(m, q, n - 1) + [Gather(m, q[n - 1].ds, |q[n - 1].ds|)]
  }

  /** How many frames one pass sends: one for each chain, as long as the network takes them. */
  function Leading(can: seq<bool>, limit: nat): (n: nat)
    ensures n <= |can| && n <= limit
    ensures n < |can| && n < limit ==> !can[n]
    ensures forall i :: 0 <= i < n ==> can[i]
  {
    if can == [] || limit == 0 || !can[0] then 0 else 1 + Leading(can[1..], limit - 1)
  }

  ghost predicate Shaped(q: seq<Span>) {
    forall i :: 0 <= i < |q| ==> |q[i].ds| == |q[i].ps| > 0
  }

  lemma QueueShaped(r: Ring, m: seq<byte>, pos: nat, q: seq<Span>, t: seq<Span>)
    requires Queue(r, m, pos, q, t)
    ensures Shaped(q) && Shaped(t)
  {
    hide Chain, Owned, W1, Stop, Links;
    if t != [] {
      CutShape(r, m, t[0]);
    }
    forall i | 0 <= i < |q|
      ensures |q[i].ds| == |q[i].ps| > 0
    {
      ChainShape(r, m, q[i], true);
    }
  }

  /** The chip's position after any chain of a queue is inside the ring. */
  lemma QueueInRing(r: Ring, m: seq<byte>, pos: nat, q: seq<Span>, t: seq<Span>)
    requires Queue(r, m, pos, q, t)
    ensures Shaped(q) && Shaped(t) && (t != [] ==> Next(r, Last(t[0])) < r.len)
    ensures forall i :: 0 <= i < |q| ==> Last(q[i]) < r.len
  {
    hide Owned, W1, Stop, Links;
    QueueShaped(r, m, pos, q, t);
    forall i | 0 <= i < |q|
      ensures Last(q[i]) < r.len
    {
      assert Chain(r, m, q[i], true);
      ChainAt(r, m, q[i], true, |q[i].ds| - 1);
    }
  }

  /** Memory after the first `n` chains have been sent. */
  ghost function SentMemory(r: Ring, m: seq<byte>, q: seq<Span>, n: nat): seq<byte>
    requires n <= |q| && Shaped(q)
  {
    if n == 0 then m else ApplyAll(SentMemory(r, m, q, n - 1), TxWrites(r, q[n - 1], true))
  }

  /** The queue that is left after `n` chains, and the frames in it as they were at the start. */
  ghost predicate QueueLeft(r: Ring, m: seq<byte>, m0: seq<byte>, pos: nat, q: seq<Span>, t: seq<Span>, n: nat)
    requires n <= |q|
  {
    && Queue(r, m, pos, q[n..], t)
    && forall i :: n <= i < |q| ==> Gather(m, q[i].ds, |q[i].ds|) == Gather(m0, q[i].ds, |q[i].ds|)
  }

  lemma QueueLeftStep(r: Ring, m: seq<byte>, m0: seq<byte>, pos: nat, q: seq<Span>, t: seq<Span>, n: nat)
    requires n < |q| && QueueLeft(r, m, m0, pos, q, t, n)
    ensures Chain(r, m, q[n], true) && q[n].ps[0] == pos
    ensures Gather(m, q[n].ds, |q[n].ds|) == Gather(m0, q[n].ds, |q[n].ds|)
    ensures QueueLeft(r, ApplyAll(m, TxWrites(r, q[n], true)), m0, Next(r, Last(q[n])), q, t, n + 1)
  {
    hide TxWrites, Chain, ApplyAll, W1, Next, Owned, Gather, Cut, Stop;
    var rest := q[n..];
    assert rest[0] == q[n] && rest[1..] == q[n + 1..];
    ChainShape(r, m, q[n], true);
    QueueStep(r, m, pos, rest, t);
    forall i | n + 1 <= i < |q|
      ensures Gather(ApplyAll(m, TxWrites(r, q[n], true)), q[i].ds, |q[i].ds|) == Gather(m0, q[i].ds, |q[i].ds|)
    {
      assert q[i] == rest[i - n];
      SentGather(r, m, q[n], q[i], |q[i].ds|);
    }
  }

  /** No complete chain left: the descriptor at the ring position is not the chip's, or starts the unfinished
      one. */
  lemma QueueDone(r: Ring, m: seq<byte>, m0: seq<byte>, pos: nat, q: seq<Span>, t: seq<Span>)
    requires QueueLeft(r, m, m0, pos, q, t, |q|)
    ensures t == [] ==> !Owned(W1(m, r, pos))
    ensures t != [] ==> |t| == 1 && Chain(r, m, t[0], false) && t[0].ps[0] == pos
  {
    hide Owned, W1, Links;
    assert q[|q|..] == [];
    if t != [] {
      CutShape(r, m, t[0]);
    }
  }
}
