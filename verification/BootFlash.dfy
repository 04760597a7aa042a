/** The flash set: up to four chips whose cells are interleaved over one shared array. */
module BootFlash {
  import opened Bytes
  import opened FlashChip

  /** Where the `k`-th cell of the chip at position `pos` starts in the shared array. */
  function Place(g: Geometry, pos: nat, k: nat): nat {
    g.width * (k * g.count + pos)
  }

  /** The shared array of a set. */
  predicate HostOk(g: Geometry, size: nat) {
    GeometryOk(g) && size == g.width * g.count * g.cells
  }

  lemma PlaceInside(g: Geometry, size: nat, pos: nat, k: nat)
    requires HostOk(g, size) && pos < g.count && k < g.cells
    ensures Place(g, pos, k) + g.width <= size
  {
    if g.count == 1 { } else if g.count == 2 { } else { }
  }

  /** The cells of different chips, and different cells of one, do not overlap. */
  lemma PlacesApart(g: Geometry, pos: nat, k: nat, pos': nat, k': nat)
    requires GeometryOk(g) && pos < g.count && pos' < g.count && (pos != pos' || k != k')
    ensures var a, b := Place(g, pos, k), Place(g, pos', k'); a + g.width <= b || b + g.width <= a
  {
    if g.count == 1 { } else if g.count == 2 { } else { }
  }

  /** A byte address belongs to one chip and one cell. */
  lemma PlaceOf(g: Geometry, x: nat)
    requires GeometryOk(g) && g.count > 0 && (g.width == 2 ==> x % 2 == 0)
    ensures x % g.count < g.count && Place(g, x % g.count, x / g.count / g.width) == x
  {
    if g.count == 1 { } else if g.count == 2 { } else { }
  }

  /** The cells of one chip, taken out of the shared array. */
  function View(g: Geometry, host: seq<byte>, pos: nat): (v: seq<seq<byte>>)
    requires HostOk(g, |host|) && pos < g.count
    ensures |v| == g.cells
  {
    seq(g.cells, k requires 0 <= k < g.cells =>
      PlaceInside(g, |host|, pos, k);
      host[Place(g, pos, k)..Place(g, pos, k) + g.width])
  }

  /** Overwriting the bytes of one cell changes that cell of that chip and nothing else. */
  lemma WriteCell(g: Geometry, host: seq<byte>, host': seq<byte>, pos: nat, k: nat, cell: seq<byte>, pos': nat)
    requires HostOk(g, |host|) && |host'| == |host| && pos < g.count && k < g.cells && |cell| == g.width
    requires pos' < g.count
    requires forall i :: 0 <= i < |host| ==>
               host'[i] == if Place(g, pos, k) <= i < Place(g, pos, k) + g.width then cell[i - Place(g, pos, k)] else host[i]
    ensures View(g, host', pos') == if pos' == pos then Fill(View(g, host, pos), k, [cell]) else View(g, host, pos')
  {
    hide Place, HostOk, GeometryOk;
    var v := View(g, host', pos');
    var w := if pos' == pos then Fill(View(g, host, pos), k, [cell]) else View(g, host, pos');
    forall k' | 0 <= k' < g.cells
      ensures v[k'] == w[k']
    {
      PlaceInside(g, |host|, pos', k');
      PlaceInside(g, |host|, pos, k);
      HostGeometry(g, |host|);
      if pos' != pos || k' != k {
        PlacesApart(g, pos, k, pos', k');
      }
    }
  }

  lemma HostGeometry(g: Geometry, size: nat)
    requires HostOk(g, size)
    ensures GeometryOk(g)
  {}

  // ---------- The set as independent chips ----------

  predicate SetOk(g: Geometry, chips: seq<Chip>) {
    GeometryOk(g) && |chips| == g.count && forall p :: 0 <= p < g.count ==> ChipOk(g, chips[p])
  }

  /** The chip and the cell that a byte address selects. */
  function Selected(g: Geometry, x: nat): (p: nat)
    requires GeometryOk(g)
    ensures p < g.count
  {
    x % g.count
  }

  function CellOf(g: Geometry, x: nat): nat
    requires GeometryOk(g)
  {
    x / g.count / g.width
  }

  /** One access by byte address. */
  function StepSet(g: Geometry, chips: seq<Chip>, x: At): (r: seq<Chip>)
    requires SetOk(g, chips)
    ensures SetOk(g, r)
  {
    var p := Selected(g, x.offset);
    AccessOk(g, chips[p], CellOf(g, x.offset), x.op);
    chips[p := Access(g, chips[p], CellOf(g, x.offset), x.op)]
  }

  function RunSet(g: Geometry, chips: seq<Chip>, xs: seq<At>): (r: seq<Chip>)
    requires SetOk(g, chips)
    ensures SetOk(g, r)
    decreases |xs|
  {
    if xs == [] then chips else RunSet(g, StepSet(g, chips, xs[0]), xs[1..])
  }

  /** Every access touches cells of the chip it selects. */
  predicate AllInside(g: Geometry, chips: seq<Chip>, xs: seq<At>)
    requires SetOk(g, chips)
    decreases |xs|
  {
    xs == [] ||
    (InChip(g, chips[Selected(g, xs[0].offset)], CellOf(g, xs[0].offset), xs[0].op) &&
     AllInside(g, StepSet(g, chips, xs[0]), xs[1..]))
  }

  /** The accesses that one chip sees. */
  function Addressed(g: Geometry, xs: seq<At>, p: nat): seq<At>
    requires GeometryOk(g)
  {
    if xs == [] then []
    else
      (if Selected(g, xs[0].offset) == p then [At(CellOf(g, xs[0].offset), xs[0].op)] else []) +
      Addressed(g, xs[1..], p)
  }

  /** Over any run, each chip is where its own accesses alone take it: chips never affect each other. */
  lemma {:induction false} ChipsAreIndependent(g: Geometry, chips: seq<Chip>, xs: seq<At>, p: nat)
    requires SetOk(g, chips) && p < g.count
    ensures RunSet(g, chips, xs)[p] == RunChip(g, chips[p], Addressed(g, xs, p))
    decreases |xs|
  {
    hide Access, ChipOk, Selected, CellOf;
    if xs != [] {
      ChipsAreIndependent(g, StepSet(g, chips, xs[0]), xs[1..], p);
      var rest := Addressed(g, xs[1..], p);
      if Selected(g, xs[0].offset) == p {
        var y := At(CellOf(g, xs[0].offset), xs[0].op);
        assert Addressed(g, xs, p) == [y] + rest;
        assert ([y] + rest)[1..] == rest;
      } else {
        assert Addressed(g, xs, p) == rest;
      }
    }
  }

  lemma {:induction false} RunSetSnoc(g: Geometry, chips: seq<Chip>, xs: seq<At>, x: At)
    requires SetOk(g, chips)
    ensures RunSet(g, chips, xs + [x]) == StepSet(g, RunSet(g, chips, xs), x)
    ensures AllInside(g, chips, xs + [x]) <==>
              (AllInside(g, chips, xs) &&
               InChip(g, RunSet(g, chips, xs)[Selected(g, x.offset)], CellOf(g, x.offset), x.op))
    decreases |xs|
  {
    hide StepSet, SetOk, InChip, Selected, CellOf;
    if xs == [] {
      assert [] + [x] == [x] && [x][1..] == [];
    } else {
      assert (xs + [x])[1..] == xs[1..] + [x];
      RunSetSnoc(g, StepSet(g, chips, xs[0]), xs[1..], x);
    }
  }

  lemma FillOne(v: seq<seq<byte>>, at: nat, put: seq<seq<byte>>, cell: seq<byte>)
    ensures Fill(Fill(v, at, put), at + |put|, [cell]) == Fill(v, at, put + [cell])
    ensures Fill(v, at, []) == v
  {}

  /** One chip of the set, as the source keeps it. */
  class Flash {
    const g: Geometry
    const pos: nat
    const host: array<byte>
    var state: State
    var wbOffset: nat
    var wbCount: nat
    var wbRemain: nat
    const wbuf: array<bv32>
    var statusReg: bv32

    ghost predicate Shape() {
      HostOk(g, host.Length) && pos < g.count && wbuf.Length == BUF_SIZE
    }

    ghost function Model(): Chip
      requires Shape()
      reads this, host, wbuf
    {
      Chip(state, wbOffset, wbCount, wbRemain, wbuf[..], statusReg, View(g, host[..], pos))
    }

    ghost predicate Valid()
      reads this, host, wbuf
    {
      Shape() && ChipOk(g, Model())
    }

    constructor (g: Geometry, pos: nat, host: array<byte>)
      requires HostOk(g, host.Length) && pos < g.count
      ensures Valid() && this.g == g && this.pos == pos && this.host == host && fresh(wbuf) && state == ReadArray
    {
      this.g, this.pos, this.host := g, pos, host;
      state, wbOffset, wbCount, wbRemain, statusReg := ReadArray, 0, 0, 0, 0;
      wbuf := new bv32[BUF_SIZE](_ => 0);
    }

    function FlashRead(offset: nat): (data: bv32)
      requires Shape() && offset < g.cells
      reads host
      ensures data == Get(View(g, host[..], pos)[offset])
    {
      PlaceInside(g, host.Length, pos, offset);
      var at := Place(g, pos, offset);
      Get(host[at..at + g.width])
    }

    method FlashWrite(offset: nat, data: bv32)
      requires Shape() && offset < g.cells
      modifies host
      ensures View(g, host[..], pos) == Fill(old(View(g, host[..], pos)), offset, [Put(g.width, data)])
      ensures forall p :: 0 <= p < g.count && p != pos ==> View(g, host[..], p) == old(View(g, host[..], p))
    {
      hide View, Place, Low;
      PlaceInside(g, host.Length, pos, offset);
      ghost var before := host[..];
      var at := Place(g, pos, offset);
      if g.width == 1 {
        host[at] := Low(data);
      } else {
        host[at] := Low(data >> 8);
        host[at + 1] := Low(data);
      }
      forall p | 0 <= p < g.count
        ensures View(g, host[..], p) ==
                if p == pos then Fill(View(g, before, pos), offset, [Put(g.width, data)]) else View(g, before, p)
      {
        WriteCell(g, before, host[..], pos, offset, Put(g.width, data), p);
      }
    }

    method FlashCmd(offset: nat, data: bv32)
      requires Valid()
      modifies this
      ensures Valid() && Model() == AfterCommand(old(Model()), offset, data)
    {
      hide View, Command;
      match Command(data)
      case 0x40 => state := Program;
      case 0x10 => state := Program;
      case 0xe8 =>
        state := WriteBufCount;
        wbOffset := offset;
        wbCount, wbRemain := 0, 0;
      case 0x70 => state := ReadStatus;
      case 0x50 =>
        statusReg := 0;
        state := ReadArray;
      case 0x90 => state := ReadId;
      case 0x20 => state := BlockErase;
      case 0xff => state := ReadArray;
      case _ =>
    }

    /** Stores the write buffer. */
    method StoreBuffer()
      requires Valid() && wbOffset + wbCount <= g.cells
      modifies host
      ensures View(g, host[..], pos) ==
              Fill(old(View(g, host[..], pos)), wbOffset, Buffered(g.width, wbuf[..], wbCount))
      ensures forall p :: 0 <= p < g.count && p != pos ==> View(g, host[..], p) == old(View(g, host[..], p))
    {
      hide View, Put, Fill, Buffered;
      FillOne(View(g, host[..], pos), wbOffset, [], []);
      for i := 0 to wbCount
        invariant View(g, host[..], pos) ==
                  Fill(old(View(g, host[..], pos)), wbOffset, Buffered(g.width, wbuf[..], i))
        invariant forall p :: 0 <= p < g.count && p != pos ==> View(g, host[..], p) == old(View(g, host[..], p))
      {
        FillOne(old(View(g, host[..], pos)), wbOffset, Buffered(g.width, wbuf[..], i), Put(g.width, wbuf[i]));
        assert Buffered(g.width, wbuf[..], i + 1) == Buffered(g.width, wbuf[..], i) + [Put(g.width, wbuf[i])];
        FlashWrite(wbOffset + i, wbuf[i]);
      }
    }

    /** Erases a block. */
    method EraseBlock(offset: nat)
      requires Valid() && offset + g.block <= g.cells
      modifies host
      ensures View(g, host[..], pos) == Fill(old(View(g, host[..], pos)), offset, Erased(g.width, g.block))
      ensures forall p :: 0 <= p < g.count && p != pos ==> View(g, host[..], p) == old(View(g, host[..], p))
    {
      hide View, Put, Fill, Erased;
      FillOne(View(g, host[..], pos), offset, [], []);
      for i := 0 to g.block
        invariant View(g, host[..], pos) == Fill(old(View(g, host[..], pos)), offset, Erased(g.width, i))
        invariant forall p :: 0 <= p < g.count && p != pos ==> View(g, host[..], p) == old(View(g, host[..], p))
      {
        FillOne(old(View(g, host[..], pos)), offset, Erased(g.width, i), Put(g.width, 0xffff));
        assert Erased(g.width, i + 1) == Erased(g.width, i) + [Put(g.width, 0xffff)];
        FlashWrite(offset + i, 0xffff);
      }
    }

    /** A write access, by cell offset. */
    method Written(offset: nat, data: bv32)
      requires Valid() && InChip(g, Model(), offset, Write(data))
      modifies this, wbuf, host
      ensures Valid() && Model() == AfterWrite(g, old(Model()), offset, data)
      ensures forall p :: 0 <= p < g.count && p != pos ==> View(g, host[..], p) == old(View(g, host[..], p))
    {
      hide View, Put, Fill, Buffered, Erased, Command, CountField, AfterCommand;
      AccessOk(g, Model(), offset, Write(data));
      match state
      case ReadStatus =>
        state := ReadArray;
      case Program =>
        FlashWrite(offset, data);
        state := ProgramDone;
      case WriteBufCount =>
        wbCount, wbRemain := CountField(data) + 1, CountField(data) + 1;
        state := WriteBufData;
      case WriteBufData =>
        if wbOffset <= offset < wbOffset + wbCount {
          wbuf[offset - wbOffset] := data;
          wbRemain := wbRemain - 1;
          if wbRemain == 0 {
            state := WriteBufConfirm;
          }
        }
      case WriteBufConfirm =>
        if Confirms(data) {
          StoreBuffer();
        }
        state := ReadArray;
      case BlockErase =>
        if Confirms(data) {
          EraseBlock(offset);
          state := BlockEraseDone;
        }
      case _ =>
        FlashCmd(offset, data);
    }

    /** A read access, by cell offset. */
    method ReadFrom(offset: nat) returns (data: bv32)
      requires Valid() && InChip(g, Model(), offset, Read)
      modifies this
      ensures Valid() && Model() == Access(g, old(Model()), offset, Read) && data == Answer(g, old(Model()), offset)
    {
      hide View, Get;
      match state
      case ReadArray => data := FlashRead(offset);
      case ReadId => data := if offset == 0 then g.maker else if offset == 1 then g.device else 0;
      case Program => data := 0;
      case ReadStatus =>
        data := 0x80;
        state := ReadArray;
      case _ => data := 0x80;
    }
  }

  // ---------- The bus ----------

  /** `x << 8 * n` and `x >> 8 * n`. */
  function Shl8(x: bv64, n: nat): bv64
    decreases n
  {
    if n == 0 then x else Shl8(Up8(x), n - 1)
  }

  function Shr8(x: bv64, n: nat): bv64
    decreases n
  {
    if n == 0 then x else Shr8(x >> 8, n - 1)
  }

  function Up8(x: bv64): bv64 { x << 8 }
  function Or64(x: bv64, y: bv64): bv64 { x | y }
  function Wide(v: bv32): bv64 { v as bv64 }
  function Narrow(x: bv64): bv32 { (x & 0xffff_ffff) as bv32 }

  lemma UpOr(x: bv64, y: bv64)
    ensures Up8(Or64(x, y)) == Or64(Up8(x), Up8(y))
  {}

  lemma UpZero()
    ensures Up8(0) == 0
  {}

  lemma {:induction false} ShlOr(x: bv64, y: bv64, n: nat)
    ensures Shl8(Or64(x, y), n) == Or64(Shl8(x, n), Shl8(y, n)) && Shl8(0, n) == 0
    decreases n
  {
    hide Up8, Or64;
    if n > 0 {
      UpOr(x, y);
      UpZero();
      ShlOr(Up8(x), Up8(y), n - 1);
    }
  }

  lemma {:induction false} ShlAdd(x: bv64, a: nat, b: nat)
    ensures Shl8(Shl8(x, a), b) == Shl8(x, a + b)
    decreases a
  {
    hide Up8;
    if a > 0 {
      ShlAdd(Up8(x), a - 1, b);
    }
  }

  /** Lane values put together, the first one highest. */
  function Bus(vs: seq<bv32>, width: nat): bv64 {
    if vs == [] then 0
    else Or64(Shl8(Bus(vs[..|vs| - 1], width), width), Wide(vs[|vs| - 1]))
  }

  lemma MulLe(a: nat, b: nat, w: nat)
    requires a <= b
    ensures a * w <= b * w && (a + 1) * w == a * w + w
  {}

  /** How many lanes an access of `size` bytes has. */
  function Lanes(width: nat, size: nat): (n: nat)
    requires width > 0 && size % width == 0
    ensures n * width == size
  {
    size / width
  }

  /** The `j`-th lane of a write, counted from the highest byte of the value down. */
  function WriteLane(width: nat, offset: nat, size: nat, data: bv64, j: nat): At
    requires (j + 1) * width <= size
  {
    At(offset + j * width, Write(Narrow(Shr8(data, size - (j + 1) * width))))
  }

  function WriteLanes(width: nat, offset: nat, size: nat, data: bv64, n: nat): (xs: seq<At>)
    requires n * width <= size
    ensures |xs| == n
  {
    seq(n, j requires 0 <= j < n => MulLe(j + 1, n, width); WriteLane(width, offset, size, data, j))
  }

  function ReadLanes(width: nat, offset: nat, n: nat): (xs: seq<At>)
    ensures |xs| == n
  {
    seq(n, j requires 0 <= j < n => At(offset + j * width, Read))
  }

  lemma {:induction false} InsidePrefix(g: Geometry, chips: seq<Chip>, xs: seq<At>, n: nat)
    requires SetOk(g, chips) && n <= |xs| && AllInside(g, chips, xs)
    ensures AllInside(g, chips, xs[..n])
    decreases n
  {
    hide StepSet, SetOk, InChip, Selected, CellOf;
    if n > 0 {
      assert xs[..n][1..] == xs[1..][..n - 1];
      InsidePrefix(g, StepSet(g, chips, xs[0]), xs[1..], n - 1);
    }
  }

  /** What the first `n` lanes of a read answer, each chip in the state that the lanes before left it in. */
  function Answers(g: Geometry, chips: seq<Chip>, offset: nat, n: nat): (vs: seq<bv32>)
    requires SetOk(g, chips) && AllInside(g, chips, ReadLanes(g.width, offset, n))
    ensures |vs| == n
  {
    if n == 0 then []
    else
      var x := offset + (n - 1) * g.width;
      assert ReadLanes(g.width, offset, n) == ReadLanes(g.width, offset, n - 1) + [At(x, Read)];
      RunSetSnoc(g, chips, ReadLanes(g.width, offset, n - 1), At(x, Read));
      var c := RunSet(g, chips, ReadLanes(g.width, offset, n - 1))[Selected(g, x)];
      Answers(g, chips, offset, n - 1) + [Answer(g, c, CellOf(g, x))]
  }

  /** The set of chips over their array. */
  class FlashSet {
    const g: Geometry
    const host: array<byte>
    const flash: seq<Flash>

    ghost function Buffers(): set<object> {
      set f | f in flash :: f.wbuf
    }

    ghost predicate Shape() {
      && HostOk(g, host.Length) && |flash| == g.count
      && (forall i :: 0 <= i < |flash| ==>
            flash[i].g == g && flash[i].pos == i && flash[i].host == host && flash[i].wbuf.Length == BUF_SIZE)
      && (forall i, j :: 0 <= i < j < |flash| ==> flash[i] != flash[j] && flash[i].wbuf != flash[j].wbuf)
    }

    ghost predicate Valid()
      reads flash, Buffers(), host
    {
      Shape() && forall i :: 0 <= i < |flash| ==> flash[i].Valid()
    }

    /** The set as independent chips. */
    ghost function Chips(): (chips: seq<Chip>)
      requires Valid()
      reads flash, Buffers(), host
      ensures SetOk(g, chips)
    {
      seq(|flash|, i requires 0 <= i < |flash| && Valid() reads flash, Buffers(), host => flash[i].Model())
    }

    constructor (g: Geometry, host: array<byte>)
      requires HostOk(g, host.Length)
      ensures Valid() && this.g == g && this.host == host && fresh(flash) && fresh(Buffers())
      ensures forall i :: 0 <= i < |flash| ==> flash[i].state == ReadArray
    {
      this.g, this.host := g, host;
      var fs: seq<Flash> := [];
      for i := 0 to g.count
        invariant |fs| == i && fresh(fs)
        invariant forall j :: 0 <= j < i ==>
                    && fs[j].Valid() && fs[j].g == g && fs[j].pos == j && fs[j].host == host
                    && fresh(fs[j].wbuf) && fs[j].state == ReadArray
        invariant forall j, k :: 0 <= j < k < i ==> fs[j] != fs[k] && fs[j].wbuf != fs[k].wbuf
      {
        var f := new Flash(g, i, host);
        fs := fs + [f];
      }
      flash := fs;
    }

    /** A write access to one byte address: one chip changes, as if it were alone. */
    method WriteAt(x: nat, data: bv32)
      requires Valid() && InChip(g, Chips()[Selected(g, x)], CellOf(g, x), Write(data))
      modifies flash, Buffers(), host
      ensures Valid() && Chips() == StepSet(g, old(Chips()), At(x, Write(data)))
    {
      hide AfterWrite, View, InChip, ChipOk, CellOf;
      ghost var before := Chips();
      var p := Selected(g, x);
      flash[p].Written(CellOf(g, x), data);
      forall i | 0 <= i < |flash| && i != p
        ensures flash[i].Model() == before[i]
      {}
    }

    method ReadAt(x: nat) returns (data: bv32)
      requires Valid() && InChip(g, Chips()[Selected(g, x)], CellOf(g, x), Read)
      modifies flash
      ensures Valid() && Chips() == StepSet(g, old(Chips()), At(x, Read))
      ensures data == Answer(g, old(Chips())[Selected(g, x)], CellOf(g, x))
    {
      hide Access, View, InChip, ChipOk, Answer, CellOf;
      ghost var before := Chips();
      var p := Selected(g, x);
      data := flash[p].ReadFrom(CellOf(g, x));
      forall i | 0 <= i < |flash| && i != p
        ensures flash[i].Model() == before[i]
      {}
    }

    /** A write of `size` bytes, lane by lane. */
    method DevWrite(offset: nat, size: nat, data: bv64)
      requires Valid() && g.width > 0 && size % g.width == 0
      requires AllInside(g, Chips(), WriteLanes(g.width, offset, size, data, Lanes(g.width, size)))
      modifies flash, Buffers(), host
      ensures Valid() && Chips() == RunSet(g, old(Chips()), WriteLanes(g.width, offset, size, data, Lanes(g.width, size)))
    {
      hide AllInside, StepSet, InChip, Narrow, Shr8, Selected, CellOf, SetOk;
      ghost var n, xs := Lanes(g.width, size), WriteLanes(g.width, offset, size, data, Lanes(g.width, size));
      ghost var before := Chips();
      ghost var j := 0;
      var i := 0;
      assert xs[..0] == [];
      while i < size
        invariant Valid() && i == j * g.width && j <= n && Chips() == RunSet(g, before, xs[..j])
        decreases size - i
      {
        LaneLeft(g.width, size, n, j);
        InsidePrefix(g, before, xs, j + 1);
        RunSetSnoc(g, before, xs[..j], xs[j]);
        assert xs[..j + 1] == xs[..j] + [xs[j]];
        WriteAt(offset + i, Narrow(Shr8(data, size - i - g.width)));
        i := i + g.width;
        j := j + 1;
      }
      LaneLeft(g.width, size, n, j);
      assert xs[..n] == xs;
    }

    /** A read of `size` bytes, lane by lane. */
    method DevRead(offset: nat, size: nat) returns (data: bv64)
      requires Valid() && g.width > 0 && size % g.width == 0
      requires AllInside(g, Chips(), ReadLanes(g.width, offset, Lanes(g.width, size)))
      modifies flash
      ensures Valid() && Chips() == RunSet(g, old(Chips()), ReadLanes(g.width, offset, Lanes(g.width, size)))
      ensures data == Bus(Answers(g, old(Chips()), offset, Lanes(g.width, size)), g.width)
    {
      hide AllInside, StepSet, InChip, Wide, Selected, CellOf, SetOk, Or64, Shl8, Bus, Answers, Answer;
      ghost var n := Lanes(g.width, size);
      ghost var before := Chips();
      ghost var j := 0;
      var i := 0;
      data := 0;
      NothingRead(g, before, offset, size);
      while i < size
        invariant Valid() && i == j * g.width && i <= size && j <= n
        invariant Chips() == RunSet(g, before, ReadLanes(g.width, offset, j))
        invariant AllInside(g, before, ReadLanes(g.width, offset, j))
        invariant data == Shl8(Bus(Answers(g, before, offset, j), g.width), size - i)
        decreases size - i
      {
        LaneLeft(g.width, size, n, j);
        LanePrefix(g, before, offset, n, j);
        var v := ReadAt(offset + i);
        AnswersStep(g, before, offset, j, size - i - g.width, v);
        data := Or64(data, Shl8(Wide(v), size - i - g.width));
        i := i + g.width;
        j := j + 1;
      }
      LaneLeft(g.width, size, n, j);
      NoShift(Bus(Answers(g, before, offset, n), g.width));
    }
  }

  lemma NothingRead(g: Geometry, chips: seq<Chip>, offset: nat, size: nat)
    requires SetOk(g, chips)
    ensures RunSet(g, chips, ReadLanes(g.width, offset, 0)) == chips && AllInside(g, chips, ReadLanes(g.width, offset, 0))
    ensures Shl8(Bus(Answers(g, chips, offset, 0), g.width), size) == 0
  {
    ShlOr(0, 0, size);
  }

  lemma NoShift(x: bv64)
    ensures Shl8(x, 0) == x
  {}

  /** The first lanes of a read, and the next one. */
  lemma LanePrefix(g: Geometry, chips: seq<Chip>, offset: nat, n: nat, j: nat)
    requires SetOk(g, chips) && j < n && AllInside(g, chips, ReadLanes(g.width, offset, n))
    ensures var xs, x := ReadLanes(g.width, offset, j), At(offset + j * g.width, Read);
            && AllInside(g, chips, ReadLanes(g.width, offset, j + 1))
            && RunSet(g, chips, ReadLanes(g.width, offset, j + 1)) == StepSet(g, RunSet(g, chips, xs), x)
            && InChip(g, RunSet(g, chips, xs)[Selected(g, x.offset)], CellOf(g, x.offset), Read)
  {
    hide AllInside, RunSet, StepSet, SetOk, InChip, Selected, CellOf;
    var xs, x := ReadLanes(g.width, offset, j), At(offset + j * g.width, Read);
    InsidePrefix(g, chips, ReadLanes(g.width, offset, n), j + 1);
    assert ReadLanes(g.width, offset, n)[..j + 1] == xs + [x] == ReadLanes(g.width, offset, j + 1);
    RunSetSnoc(g, chips, xs, x);
  }

  lemma AnswersStep(g: Geometry, chips: seq<Chip>, offset: nat, j: nat, left: nat, v: bv32)
    requires SetOk(g, chips) && AllInside(g, chips, ReadLanes(g.width, offset, j + 1))
    requires AllInside(g, chips, ReadLanes(g.width, offset, j))
    requires var x := offset + j * g.width; var c := RunSet(g, chips, ReadLanes(g.width, offset, j))[Selected(g, x)];
             InChip(g, c, CellOf(g, x), Read) && v == Answer(g, c, CellOf(g, x))
    ensures Shl8(Bus(Answers(g, chips, offset, j + 1), g.width), left) ==
            Or64(Shl8(Bus(Answers(g, chips, offset, j), g.width), g.width + left), Shl8(Wide(v), left))
  {
    hide AllInside, RunSet, SetOk, InChip, Selected, CellOf, Answer, Or64, Shl8, Wide;
    var vs := Answers(g, chips, offset, j);
    assert Answers(g, chips, offset, j + 1) == vs + [v];
    assert (vs + [v])[..j] == vs;
    ShlOr(Shl8(Bus(vs, g.width), g.width), Wide(v), left);
    ShlAdd(Bus(vs, g.width), g.width, left);
  }

  lemma LaneLeft(width: nat, size: nat, n: nat, j: nat)
    requires n * width == size && j <= n
    ensures j * width < size ==> j < n && (j + 1) * width == j * width + width <= size
    ensures width > 0 && j * width >= size ==> j == n
  {
    MulLe(if j < n then j + 1 else n, n, width);
    MulLe(j, n, width);
  }

  // ---------- The shared array ----------

  /** A byte of the array lies in one cell of one chip. */
  lemma ByteInView(g: Geometry, host: seq<byte>, x: nat)
    requires HostOk(g, |host|) && x < |host|
    ensures var y := x - x % g.width; var p, k := Selected(g, y), CellOf(g, y);
            && k < g.cells && Place(g, p, k) == y && host[x] == View(g, host, p)[k][x % g.width]
  {
    var y := x - x % g.width;
    hide HostOk, Selected, CellOf, Place;
    CellStart(g, |host|, x);
    CellBytes(g, host, Selected(g, y), CellOf(g, y));
  }

  /** The cell that a byte lies in. */
  lemma CellStart(g: Geometry, size: nat, x: nat)
    requires HostOk(g, size) && x < size
    ensures g.width in {1, 2} && g.count > 0
    ensures var y := x - x % g.width; var p, k := Selected(g, y), CellOf(g, y);
            p < g.count && k < g.cells && Place(g, p, k) == y
  {
    var y := x - x % g.width;
    assert g.width == 2 ==> y % 2 == 0;
    PlaceOf(g, y);
    hide Selected, CellOf;
    if g.count == 1 { } else if g.count == 2 { } else { }
  }

  /** The chips' cells are the whole array: no byte is shared or left over. */
  lemma ViewsDetermineHost(g: Geometry, host: seq<byte>, host': seq<byte>)
    requires HostOk(g, |host|) && |host'| == |host|
    requires forall p :: 0 <= p < g.count ==> View(g, host, p) == View(g, host', p)
    ensures host == host'
  {
    hide HostOk, View, Place, Selected, CellOf;
    forall x | 0 <= x < |host|
      ensures host[x] == host'[x]
    {
      ByteInView(g, host, x);
      ByteInView(g, host', x);
    }
  }

  /** The array changes only where a program, a confirmed write buffer or a confirmed erase stores. */
  lemma HostChanges(g: Geometry, chips: seq<Chip>, host: seq<byte>, host': seq<byte>, a: At, x: nat)
    requires HostOk(g, |host|) && |host'| == |host| && x < |host| && SetOk(g, chips)
    requires InChip(g, chips[Selected(g, a.offset)], CellOf(g, a.offset), a.op)
    requires forall p :: 0 <= p < g.count ==> chips[p].cells == View(g, host, p)
    requires forall p :: 0 <= p < g.count ==> StepSet(g, chips, a)[p].cells == View(g, host', p)
    ensures var c := chips[Selected(g, a.offset)];
            var (at, n) := Range(g, c, CellOf(g, a.offset), a.op);
            host'[x] != host[x] ==>
              Stores(c, a.op) && exists k: nat {:trigger Place(g, Selected(g, a.offset), k)} ::
                at <= k < at + n && Place(g, Selected(g, a.offset), k) <= x < Place(g, Selected(g, a.offset), k) + g.width
  {
    hide HostOk, View, Place, Selected, CellOf, Access, InChip, ChipOk, Range, Stores;
    ByteInView(g, host, x);
    ByteInView(g, host', x);
    var y := x - x % g.width;
    var p, k := Selected(g, y), CellOf(g, y);
    var q := Selected(g, a.offset);
    if host'[x] != host[x] {
      assert p == q;
      CellsChange(g, chips[q], CellOf(g, a.offset), a.op, k);
      NoRange(g, chips[q], CellOf(g, a.offset), a.op);
      assert Place(g, q, k) == y;
    }
  }

  lemma NoRange(g: Geometry, c: Chip, offset: nat, op: Op)
    ensures !Stores(c, op) ==> Range(g, c, offset, op).1 == 0
  {}

  ghost predicate ArrayMode(g: Geometry, chips: seq<Chip>, host: seq<byte>)
    requires HostOk(g, |host|) && SetOk(g, chips)
  {
    forall p :: 0 <= p < g.count ==> chips[p].cells == View(g, host, p) && chips[p].state == ReadArray
  }

  /** All chips in array mode read like plain memory: each lane answers the bytes at its address. */
  lemma {:induction false} ArrayRead(g: Geometry, chips: seq<Chip>, host: seq<byte>, offset: nat, n: nat)
    requires HostOk(g, |host|) && SetOk(g, chips) && ArrayMode(g, chips, host)
    requires g.width > 0 && offset % g.width == 0 && offset + n * g.width <= |host|
    ensures AllInside(g, chips, ReadLanes(g.width, offset, n)) && RunSet(g, chips, ReadLanes(g.width, offset, n)) == chips
    ensures forall j :: 0 <= j < n ==> Answers(g, chips, offset, n)[j] == LaneBytes(g, host, offset, j)
    decreases n
  {
    hide AllInside, SetOk, View, Get, Selected, CellOf, HostOk;
    hide Place, LaneBytes, ArrayMode, StepSet, InChip, Answer, RunSet;
    if n == 0 {
      NothingRead(g, chips, offset, 0);
    } else {
      var xs, y := ReadLanes(g.width, offset, n - 1), offset + (n - 1) * g.width;
      MulLe(n - 1, n, g.width);
      ArrayRead(g, chips, host, offset, n - 1);
      ArrayLane(g, chips, host, offset, n - 1);
      assert ReadLanes(g.width, offset, n) == xs + [At(y, Read)];
      RunSetSnoc(g, chips, xs, At(y, Read));
    }
  }

  /** The value of the bytes at the address of a lane. */
  function LaneBytes(g: Geometry, host: seq<byte>, offset: nat, j: nat): bv32 {
    var y := offset + j * g.width;
    if y + g.width <= |host| then Get(host[y..y + g.width]) else 0
  }

  lemma ArrayLane(g: Geometry, chips: seq<Chip>, host: seq<byte>, offset: nat, j: nat)
    requires HostOk(g, |host|) && SetOk(g, chips) && ArrayMode(g, chips, host)
    requires g.width > 0 && offset % g.width == 0 && offset + (j + 1) * g.width <= |host|
    ensures var y := offset + j * g.width; var c := chips[Selected(g, y)];
            && InChip(g, c, CellOf(g, y), Read) && StepSet(g, chips, At(y, Read)) == chips
            && Answer(g, c, CellOf(g, y)) == LaneBytes(g, host, offset, j)
  {
    hide Get, Selected, CellOf, View, Place;
    var y := offset + j * g.width;
    assert y % g.width == 0 && y + g.width <= |host| by { LaneAligned(g.width, offset, j); }
    ByteInView(g, host, y);
    CellBytes(g, host, Selected(g, y), CellOf(g, y));
    var c := chips[Selected(g, y)];
    assert chips[Selected(g, y) := c] == chips;
  }

  lemma LaneAligned(w: nat, offset: nat, j: nat)
    requires w in {1, 2} && offset % w == 0
    ensures (offset + j * w) % w == 0 && (j + 1) * w == j * w + w
  {}

  lemma CellBytes(g: Geometry, host: seq<byte>, p: nat, k: nat)
    requires HostOk(g, |host|) && p < g.count && k < g.cells
    ensures Place(g, p, k) + g.width <= |host| && View(g, host, p)[k] == host[Place(g, p, k)..Place(g, p, k) + g.width]
  {
    PlaceInside(g, |host|, p, k);
  }

  /** The bytes of a value as digits of base 256, the first one highest. */
  function BigEndian64(s: seq<byte>): bv64 {
    if s == [] then 0 else Or64(Up8(BigEndian64(s[..|s| - 1])), s[|s| - 1] as bv64)
  }

  lemma ByteDigit(x: bv64, b: byte)
    ensures Or64(Shl8(x, 1), Wide(Get([b]))) == Or64(Up8(x), b as bv64)
  {
    assert Shl8(x, 1) == Shl8(Up8(x), 0) == Up8(x);
    assert Wide(Get([b])) == b as bv64;
  }

  lemma TwoDigits(y: bv64, a: byte, b: byte)
    ensures Up8(Or64(y, a as bv64)) == Or64(Up8(y), (a as bv64) << 8)
    ensures Wide(Get([a, b])) == ((a as bv64) << 8) | (b as bv64)
  {}

  lemma OrAssoc(x: bv64, y: bv64, z: bv64)
    ensures Or64(Or64(x, y), z) == Or64(x, Or64(y, z))
  {}

  lemma WordDigits(x: bv64, a: byte, b: byte)
    ensures Or64(Shl8(x, 2), Wide(Get([a, b]))) == Or64(Up8(Or64(Up8(x), a as bv64)), b as bv64)
  {
    assert Shl8(x, 2) == Shl8(Up8(x), 1) == Shl8(Up8(Up8(x)), 0) == Up8(Up8(x));
    TwoDigits(Up8(x), a, b);
    OrAssoc(Up8(Up8(x)), (a as bv64) << 8, b as bv64);
    assert Or64((a as bv64) << 8, b as bv64) == ((a as bv64) << 8) | (b as bv64);
  }

  lemma LastDigits(g: Geometry, host: seq<byte>, x: nat, y: nat, v: bv32)
    requires g.width in {1, 2} && x <= y && y + g.width <= |host| && v == Get(host[y..y + g.width])
    ensures Or64(Shl8(BigEndian64(host[x..y]), g.width), Wide(v)) == BigEndian64(host[x..y + g.width])
  {
    hide Or64, Up8, Wide, Get, Shl8;
    var before := host[x..y];
    if g.width == 1 {
      assert host[y..y + 1] == [host[y]] && host[x..y + 1] == before + [host[y]];
      assert (before + [host[y]])[..|before|] == before;
      ByteDigit(BigEndian64(before), host[y]);
    } else {
      var one := before + [host[y]];
      assert host[y..y + 2] == [host[y], host[y + 1]] && host[x..y + 2] == one + [host[y + 1]];
      assert (one + [host[y + 1]])[..|one|] == one && one[..|before|] == before;
      WordDigits(BigEndian64(before), host[y], host[y + 1]);
    }
  }

  lemma LaneIs(g: Geometry, host: seq<byte>, offset: nat, n: nat)
    requires g.width in {1, 2} && offset + (n + 1) * g.width <= |host|
    ensures var y := offset + n * g.width;
            && y + g.width == offset + (n + 1) * g.width
            && LaneBytes(g, host, offset, n) == Get(host[y..y + g.width])
  {
    hide Get;
    MulLe(n, n + 1, g.width);
  }

  lemma {:induction false} ArrayValue(g: Geometry, host: seq<byte>, offset: nat, n: nat, vs: seq<bv32>, end: nat)
    requires g.width in {1, 2} && |vs| == n && end == offset + n * g.width <= |host|
    requires forall j :: 0 <= j < n ==> vs[j] == LaneBytes(g, host, offset, j)
    ensures Bus(vs, g.width) == BigEndian64(host[offset..end])
    decreases n
  {
    if n == 0 {
      assert host[offset..end] == [];
    } else {
      hide Or64, Wide, Get, Shl8, LaneBytes, BigEndian64;
      var k, y := n - 1, end - g.width;
      LaneIs(g, host, offset, k);
      assert y == offset + k * g.width && vs[k] == Get(host[y..end]);
      ArrayValue(g, host, offset, k, vs[..k], y);
      LastDigits(g, host, offset, y, vs[k]);
    }
  }

  /** In array mode a bus read gives the bytes at its address, the first one highest. */
  lemma ArrayBus(g: Geometry, chips: seq<Chip>, host: seq<byte>, offset: nat, n: nat, end: nat)
    requires HostOk(g, |host|) && SetOk(g, chips) && ArrayMode(g, chips, host)
    requires g.width > 0 && offset % g.width == 0 && end == offset + n * g.width <= |host|
    ensures AllInside(g, chips, ReadLanes(g.width, offset, n))
    ensures Bus(Answers(g, chips, offset, n), g.width) == BigEndian64(host[offset..end])
  {
    HostWidth(g, |host|);
    hide *;
    ArrayRead(g, chips, host, offset, n);
    ArrayValue(g, host, offset, n, Answers(g, chips, offset, n), end);
  }

  lemma HostWidth(g: Geometry, size: nat)
    requires HostOk(g, size)
    ensures g.width in {1, 2}
  {}

  // ---------- What a write puts on the lanes, a read puts together again ----------

  /** What the first `n` cells answer after the lanes of a write have been stored in them. */
  function StoredLanes(width: nat, offset: nat, size: nat, data: bv64, n: nat): (vs: seq<bv32>)
    requires n * width <= size
    ensures |vs| == n
  {
    seq(n, j requires 0 <= j < n =>
      MulLe(j + 1, n, width);
      Get(Put(width, WriteLane(width, offset, size, data, j).op.data)))
  }

  lemma {:induction false} ShrAdd(x: bv64, a: nat, b: nat)
    ensures Shr8(x, a + b) == Shr8(Shr8(x, a), b)
    decreases a
  {
    if a > 0 {
      ShrAdd(x >> 8, a - 1, b);
    }
  }

  lemma ByteLane(y: bv64)
    ensures Or64(Up8(y >> 8), Wide(Get([Low(Narrow(y))]))) == y
  {}

  lemma WordLane(y: bv64)
    ensures Or64(Up8(Up8((y >> 8) >> 8)), Wide(Get([Low(Narrow(y) >> 8), Low(Narrow(y))]))) == y
  {}

  lemma OneLane(width: nat, y: bv64)
    requires width in {1, 2}
    ensures Or64(Shl8(Shr8(y, width), width), Wide(Get(Put(width, Narrow(y))))) == y
  {
    hide Or64, Up8, Wide, Narrow, Low, Get;
    ByteLane(y);
    WordLane(y);
    assert Shl8(Up8((y >> 8) >> 8), 1) == Shl8(Up8(Up8((y >> 8) >> 8)), 0);
    assert Shr8(y, 2) == Shr8(y >> 8, 1) == Shr8((y >> 8) >> 8, 0);
  }

  /** A value that fits the access is what a read of the stored lanes gives. */
  lemma {:induction false} LanesReadBack(width: nat, offset: nat, size: nat, data: bv64, n: nat)
    requires width in {1, 2} && n * width <= size && Shr8(data, size) == 0
    ensures Bus(StoredLanes(width, offset, size, data, n), width) == Shr8(data, size - n * width)
    decreases n
  {
    hide Shr8, Shl8, Or64, Wide, Narrow, Put, Get;
    if n > 0 {
      MulLe(n - 1, n, width);
      LanesReadBack(width, offset, size, data, n - 1);
      var vs := StoredLanes(width, offset, size, data, n);
      assert vs[..n - 1] == StoredLanes(width, offset, size, data, n - 1);
      var k := size - n * width;
      ShrAdd(data, k, width);
      OneLane(width, Shr8(data, k));
    }
  }
}
