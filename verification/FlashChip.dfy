/** One Intel flash chip: its command state machine over its own cells, and what whole command sequences do. */
module FlashChip {
  import opened Bytes

  const BUF_SIZE := 32

  datatype State =
    | ReadArray | ReadId | ReadStatus
    | WriteBufCount | WriteBufData | WriteBufConfirm
    | Program | ProgramDone
    | BlockErase | BlockEraseDone

  datatype Op = Read | Write(data: bv32)

  /** Width of a cell in bytes, chips in the set, cells of one chip, cells of a block, identifier codes. */
  datatype Geometry = Geometry(width: nat, count: nat, cells: nat, block: nat, maker: bv32, device: bv32)

  /** Byte mode with up to four chips, or word mode with one. */
  predicate GeometryOk(g: Geometry) {
    (g.width == 1 && g.count in {1, 2, 4}) || (g.width == 2 && g.count == 1)
  }

  /** The bytes of a value written to a cell, and the value of the bytes of a cell. */
  function Put(width: nat, data: bv32): seq<byte> {
    if width == 1 then [Low(data)] else [Low(data >> 8), Low(data)]
  }

  function Low(data: bv32): byte { (data & 0xff) as byte }

  function Get(cell: seq<byte>): bv32 {
    if |cell| == 1 then cell[0] as bv32
    else if |cell| == 2 then ((cell[0] as bv32) << 8) | (cell[1] as bv32)
    else 0
  }

  lemma GetPut(data: bv32)
    ensures Get(Put(1, data)) == data & 0xff && Get(Put(2, data)) == data & 0xffff
  {}

  datatype Chip = Chip(state: State, wbOffset: nat, wbCount: nat, wbRemain: nat, wbuf: seq<bv32>, status: bv32,
                       cells: seq<seq<byte>>)

  predicate ChipOk(g: Geometry, c: Chip) {
    |c.wbuf| == BUF_SIZE && |c.cells| == g.cells && BufferOk(c)
  }

  /** The write buffer never holds more than it has room for; while it is being filled something is missing. */
  predicate BufferOk(c: Chip) {
    && c.wbRemain <= c.wbCount <= BUF_SIZE
    && (c.state == WriteBufData ==> c.wbRemain > 0)
  }

  function Command(data: bv32): bv32 { data & 0xff }
  function CountField(data: bv32): (n: nat)
    ensures n < 32
  {
    (data & 0x1f) as bv5 as nat
  }

  /** The state a command leads to; the write buffer restarts at `offset`. */
  function AfterCommand(c: Chip, offset: nat, data: bv32): Chip {
    match Command(data)
    case 0x40 => c.(state := Program)
    case 0x10 => c.(state := Program)
    case 0xe8 => c.(state := WriteBufCount, wbOffset := offset, wbCount := 0, wbRemain := 0)
    case 0x70 => c.(state := ReadStatus)
    case 0x50 => c.(status := 0, state := ReadArray)
    case 0x90 => c.(state := ReadId)
    case 0x20 => c.(state := BlockErase)
    case 0xff => c.(state := ReadArray)
    case _ => c
  }

  predicate Confirms(data: bv32) { Command(data) == 0xd0 }

  /** A command is the low byte of what is written. */
  lemma LowByte(data: bv32)
    ensures Command(data) == data & 0xff && (Confirms(data) <==> data & 0xff == 0xd0)
  {}

  /** A count word gives the number of places less one in its low five bits. */
  lemma LowCount(data: bv32, n: nat)
    requires (data & 0x1f) as nat == n
    ensures CountField(data) == n
  {}

  /** The cells, with `put` in place of those from `at` on. */
  function Fill(cells: seq<seq<byte>>, at: nat, put: seq<seq<byte>>): (r: seq<seq<byte>>)
    ensures |r| == |cells|
    ensures forall k :: 0 <= k < |cells| ==> r[k] == if at <= k < at + |put| then put[k - at] else cells[k]
  {
    seq(|cells|, k requires 0 <= k < |cells| => if at <= k < at + |put| then put[k - at] else cells[k])
  }

  function Buffered(width: nat, wbuf: seq<bv32>, n: nat): (r: seq<seq<byte>>)
    requires n <= |wbuf|
    ensures |r| == n && forall i :: 0 <= i < n ==> r[i] == Put(width, wbuf[i])
  {
    seq(n, i requires 0 <= i < n => Put(width, wbuf[i]))
  }

  function Erased(width: nat, n: nat): (r: seq<seq<byte>>)
    ensures |r| == n && forall i :: 0 <= i < n ==> r[i] == Put(width, 0xffff)
  {
    seq(n, _ => Put(width, 0xffff))
  }

  /** The accesses that store something: a program, a confirmed write buffer, a confirmed erase. */
  predicate Stores(c: Chip, op: Op) {
    op.Write? && (c.state == Program || (c.state in {WriteBufConfirm, BlockErase} && Confirms(op.data)))
  }

  /** The cells that an access stores to, by first cell and number. */
  function Range(g: Geometry, c: Chip, offset: nat, op: Op): (nat, nat) {
    if !Stores(c, op) then (0, 0)
    else if c.state == Program then (offset, 1)
    else if c.state == WriteBufConfirm then (c.wbOffset, c.wbCount)
    else (offset, g.block)
  }

  /** Every cell that the access touches is a cell of the chip. */
  predicate InChip(g: Geometry, c: Chip, offset: nat, op: Op) {
    var (at, n) := Range(g, c, offset, op);
    at + n <= g.cells && (c.state == ReadArray && op.Read? ==> offset < g.cells)
  }

  /** The chip after a value is written at a cell offset. */
  function AfterWrite(g: Geometry, c: Chip, offset: nat, data: bv32): Chip
    requires ChipOk(g, c)
  {
    match c.state
    case ReadStatus => c.(state := ReadArray)
    case Program => c.(state := ProgramDone, cells := Fill(c.cells, offset, [Put(g.width, data)]))
    case WriteBufCount =>
      c.(state := WriteBufData, wbCount := CountField(data) + 1, wbRemain := CountField(data) + 1)
    case WriteBufData =>
      if c.wbOffset <= offset < c.wbOffset + c.wbCount then
        c.(wbuf := c.wbuf[offset - c.wbOffset := data], wbRemain := c.wbRemain - 1,
           state := if c.wbRemain == 1 then WriteBufConfirm else WriteBufData)
      else c
    case WriteBufConfirm =>
      c.(state := ReadArray,
         cells := if Confirms(data) then Fill(c.cells, c.wbOffset, Buffered(g.width, c.wbuf, c.wbCount)) else c.cells)
    case BlockErase =>
      if Confirms(data) then
        c.(state := BlockEraseDone, cells := Fill(c.cells, offset, Erased(g.width, g.block)))
      else c
    case _ => AfterCommand(c, offset, data)
  }

  /** The chip after an access; a read changes nothing but ends the status state. */
  function Access(g: Geometry, c: Chip, offset: nat, op: Op): Chip
    requires ChipOk(g, c)
  {
    match op
    case Read => if c.state == ReadStatus then c.(state := ReadArray) else c
    case Write(data) => AfterWrite(g, c, offset, data)
  }

  /** What a read returns. */
  function Answer(g: Geometry, c: Chip, offset: nat): bv32
    requires InChip(g, c, offset, Read) && |c.cells| == g.cells
  {
    match c.state
    case ReadArray => Get(c.cells[offset])
    case ReadId => if offset == 0 then g.maker else if offset == 1 then g.device else 0
    case Program => 0
    case _ => 0x80
  }

  /** The write buffer is never indexed out of range, in any state that accesses lead to. */
  lemma AccessOk(g: Geometry, c: Chip, offset: nat, op: Op)
    requires ChipOk(g, c)
    ensures ChipOk(g, Access(g, c, offset, op))
    ensures c.state == WriteBufData && c.wbOffset <= offset < c.wbOffset + c.wbCount ==> offset - c.wbOffset < BUF_SIZE
  {
    hide Command, Low, CountField, Confirms;
  }

  /** An access that does not store leaves the cells as they are. */
  lemma NoStore(g: Geometry, c: Chip, offset: nat, op: Op)
    requires ChipOk(g, c) && !Stores(c, op)
    ensures Access(g, c, offset, op).cells == c.cells
  {
    hide Command, Low, CountField, Put, Fill, Buffered, Erased;
  }

  /** One that stores puts its values in its range. */
  lemma StoreFills(g: Geometry, c: Chip, offset: nat, op: Op)
    requires ChipOk(g, c) && Stores(c, op)
    ensures Access(g, c, offset, op).cells ==
            if c.state == Program then Fill(c.cells, offset, [Put(g.width, op.data)])
            else if c.state == WriteBufConfirm then Fill(c.cells, c.wbOffset, Buffered(g.width, c.wbuf, c.wbCount))
            else Fill(c.cells, offset, Erased(g.width, g.block))
  {
    hide Command, Low, CountField, Put, Fill, Buffered, Erased, AfterCommand;
  }

  /** Cells change only by a program, a confirmed write buffer or a confirmed erase, and only in their range. */
  lemma CellsChange(g: Geometry, c: Chip, offset: nat, op: Op, k: nat)
    requires ChipOk(g, c) && InChip(g, c, offset, op) && k < g.cells
    ensures var (at, n) := Range(g, c, offset, op); var c' := Access(g, c, offset, op);
            c'.cells[k] ==
              if !(at <= k < at + n) then c.cells[k]
              else if c.state == Program then Put(g.width, op.data)
              else if c.state == WriteBufConfirm then Put(g.width, c.wbuf[k - c.wbOffset])
              else Put(g.width, 0xffff)
  {
    hide Access, Put, Confirms, Fill, Buffered, Erased;
    AccessOk(g, c, offset, op);
    if Stores(c, op) {
      StoreFills(g, c, offset, op);
    } else {
      NoStore(g, c, offset, op);
    }
  }

  // ---------- Command sequences ----------

  datatype At = At(offset: nat, op: Op)

  function RunChip(g: Geometry, c: Chip, xs: seq<At>): (c': Chip)
    requires ChipOk(g, c)
    ensures ChipOk(g, c')
    decreases |xs|
  {
    AccessOk(g, c, 0, Read);
    if xs == [] then c
    else
      AccessOk(g, c, xs[0].offset, xs[0].op);
      RunChip(g, Access(g, c, xs[0].offset, xs[0].op), xs[1..])
  }

  lemma {:induction false} RunChipConcat(g: Geometry, c: Chip, xs: seq<At>, ys: seq<At>)
    requires ChipOk(g, c)
    ensures RunChip(g, c, xs + ys) == RunChip(g, RunChip(g, c, xs), ys)
    decreases |xs|
  {
    hide Access, ChipOk;
    if xs == [] {
      assert xs + ys == ys;
    } else {
      AccessOk(g, c, xs[0].offset, xs[0].op);
      assert (xs + ys)[1..] == xs[1..] + ys;
      RunChipConcat(g, Access(g, c, xs[0].offset, xs[0].op), xs[1..], ys);
    }
  }

  /** The chip takes the next write as a command. */
  predicate TakesCommand(c: Chip) {
    c.state in {ReadArray, ReadId, ProgramDone, BlockEraseDone}
  }

  /** Programming one cell: the command, then the value at its place. */
  lemma ProgramCell(g: Geometry, c: Chip, p: nat, start: bv32, at: nat, data: bv32)
    requires ChipOk(g, c) && TakesCommand(c) && start & 0xff in {0x10, 0x40}
    ensures RunChip(g, c, [At(p, Write(start)), At(at, Write(data))]) ==
            c.(state := ProgramDone, cells := Fill(c.cells, at, [Put(g.width, data)]))
  {
    hide RunChip, Fill, Put, Command;
    LowByte(start);
    RunTwo(g, c, At(p, Write(start)), At(at, Write(data)));
    var c1 := c.(state := Program);
    assert Access(g, c, p, Write(start)) == c1;
  }

  /** Erasing a block: the command, then the confirmation at its first cell; anything else leaves it waiting. */
  lemma EraseCells(g: Geometry, c: Chip, p: nat, start: bv32, at: nat, data: bv32)
    requires ChipOk(g, c) && TakesCommand(c) && start & 0xff == 0x20
    ensures RunChip(g, c, [At(p, Write(start)), At(at, Write(data))]) ==
            if data & 0xff == 0xd0 then
              c.(state := BlockEraseDone, cells := Fill(c.cells, at, Erased(g.width, g.block)))
            else c.(state := BlockErase)
  {
    hide RunChip, Fill, Erased, Command, Confirms;
    LowByte(start);
    LowByte(data);
    RunTwo(g, c, At(p, Write(start)), At(at, Write(data)));
    var c1 := c.(state := BlockErase);
    assert Access(g, c, p, Write(start)) == c1;
  }

  /** Every bit of an erased cell is one. */
  lemma ErasedOnes(width: nat, n: nat, k: nat)
    requires width in {1, 2} && k < n
    ensures Erased(width, n)[k] == if width == 1 then [0xff] else [0xff, 0xff]
  {}

  /** The identifier codes are read at the first two cells until another command; the status is read once. */
  lemma Identify(g: Geometry, c: Chip, p: nat, start: bv32, at: nat)
    requires ChipOk(g, c) && TakesCommand(c) && start & 0xff in {0x90, 0x70}
    ensures var c1 := Access(g, c, p, Write(start));
            && ChipOk(g, c1) && c1.cells == c.cells
            && Answer(g, c1, at) == (if start & 0xff == 0x70 then 0x80
                                     else if at == 0 then g.maker else if at == 1 then g.device else 0)
            && Access(g, c1, at, Read) == if start & 0xff == 0x70 then c.(state := ReadArray) else c1
  {
    AccessOk(g, c, p, Write(start));
    LowByte(start);
    hide Command;
  }

  /** From the first command of a program, erase or buffered program on, a read gives the ready status; between
      the command and the value of a program it gives zero. */
  lemma ReadyWhileBusy(g: Geometry, c: Chip, at: nat)
    requires InChip(g, c, at, Read) && |c.cells| == g.cells && c.state !in {ReadArray, ReadId}
    ensures Answer(g, c, at) == if c.state == Program then 0 else 0x80
  {}

  // ---------- Back to array mode ----------

  /** The read array and clear status commands, whatever the higher bits. */
  predicate Resets(data: bv32) { data & 0xff in {0xff, 0x50} }

  /** Whether writing such a command to cell `p` again and again ever leads to array mode: not from an erase
      that waits for its confirmation, nor from a write buffer that `p` is outside of. */
  predicate Resettable(c: Chip, p: nat, data: bv32) {
    match c.state
    case BlockErase => false
    case WriteBufCount => c.wbOffset <= p < c.wbOffset + CountField(data) + 1
    case WriteBufData => c.wbOffset <= p < c.wbOffset + c.wbCount
    case _ => true
  }

  /** How many such writes it takes: in a write buffer each fills one place more, whatever it held. */
  function ResetTime(c: Chip, data: bv32): nat {
    match c.state
    case ReadArray => 0
    case Program => 2
    case WriteBufCount => CountField(data) + 3
    case WriteBufData => c.wbRemain + 1
    case _ => 1
  }

  lemma NoConfirm(data: bv32)
    requires Resets(data)
    ensures !Confirms(data)
  {}

  lemma ResetStep(g: Geometry, c: Chip, p: nat, data: bv32)
    requires ChipOk(g, c) && Resets(data)
    ensures var c' := Access(g, c, p, Write(data));
            && ChipOk(g, c') && Resettable(c', p, data) == Resettable(c, p, data)
            && (Resettable(c, p, data) ==>
                  ResetTime(c', data) == if c.state == ReadArray then 0 else ResetTime(c, data) - 1)
            && c'.state != Program
            && c'.cells == if c.state == Program then Fill(c.cells, p, [Put(g.width, data)]) else c.cells
  {
    NoConfirm(data);
    AccessOk(g, c, p, Write(data));
    hide CountField, Fill, Put, Erased, Buffered;
  }

  function Again(x: At, n: nat): (xs: seq<At>)
    ensures |xs| == n
  {
    if n == 0 then [] else [x] + Again(x, n - 1)
  }

  lemma ResetState(c: Chip, p: nat, data: bv32)
    ensures c.state == ReadArray <==> ResetTime(c, data) == 0
    ensures c.state == ReadArray ==> Resettable(c, p, data)
  {}

  /** After `n` writes of such a command to one cell the chip is in array mode if and only if it can be reset
      there and `n` is enough; nothing is stored but what a program command before was waiting for. */
  lemma {:induction false} ResetExactly(g: Geometry, c: Chip, p: nat, data: bv32, n: nat)
    requires ChipOk(g, c) && Resets(data)
    ensures var c' := RunChip(g, c, Again(At(p, Write(data)), n));
            && (c'.state == ReadArray <==> Resettable(c, p, data) && ResetTime(c, data) <= n)
            && c'.cells == if c.state == Program && n > 0 then Fill(c.cells, p, [Put(g.width, data)]) else c.cells
    decreases n
  {
    hide Access, Resettable, ResetTime, Fill, Put, ChipOk, Resets;
    var x := At(p, Write(data));
    ResetState(c, p, data);
    if n > 0 {
      ResetStep(g, c, p, data);
      assert Again(x, n)[0] == x && Again(x, n)[1..] == Again(x, n - 1);
      ResetExactly(g, Access(g, c, p, x.op), p, data, n - 1);
    }
  }

  /** A write to the `k`-th place of a write buffer that starts at `b`. */
  predicate Hit(x: At, b: nat, k: nat) {
    x.op.Write? && x.offset == b + k
  }

  predicate InWindow(x: At, b: nat, n: nat) {
    x.op.Write? && b <= x.offset < b + n
  }

  /** Every place in `todo` is hit, every access that lands in the window hits such a place, no two the same
      one, and the last access is one of them. */
  ghost predicate EachOnce(xs: seq<At>, b: nat, n: nat, todo: set<nat>) {
    && (forall k :: k in todo ==> k < n && IsHit(xs, b, k))
    && OnlyTodo(xs, b, n, todo)
    && OnceEach(xs, b, n)
    && (xs == [] || InWindow(xs[|xs| - 1], b, n))
  }

  ghost predicate IsHit(xs: seq<At>, b: nat, k: nat) {
    exists j :: 0 <= j < |xs| && Hit(xs[j], b, k)
  }

  ghost predicate OnlyTodo(xs: seq<At>, b: nat, n: nat, todo: set<nat>) {
    forall j :: 0 <= j < |xs| && InWindow(xs[j], b, n) ==> xs[j].offset - b in todo
  }

  ghost predicate OnceEach(xs: seq<At>, b: nat, n: nat) {
    forall i, j :: 0 <= i < j < |xs| && InWindow(xs[i], b, n) && InWindow(xs[j], b, n) ==> xs[i].offset != xs[j].offset
  }

  /** The value that the first write to an offset carries. */
  function ValueFor(xs: seq<At>, offset: nat): bv32 {
    if xs == [] then 0
    else if xs[0].op.Write? && xs[0].offset == offset then xs[0].op.data
    else ValueFor(xs[1..], offset)
  }

  function Places(n: nat): (s: set<nat>)
    ensures |s| == n && forall k :: k in s <==> 0 <= k < n
  {
    if n == 0 then {} else Places(n - 1) + {n - 1}
  }

  lemma EachOnceTail(xs: seq<At>, b: nat, n: nat, todo: set<nat>)
    requires EachOnce(xs, b, n, todo) && xs != []
    ensures todo != {}
    ensures EachOnce(xs[1..], b, n, if InWindow(xs[0], b, n) then todo - {xs[0].offset - b} else todo)
  {
    hide OnlyTodo, OnceEach, IsHit;
    var rest := xs[1..];
    var left := if InWindow(xs[0], b, n) then todo - {xs[0].offset - b} else todo;
    TodoTail(xs, b, n, todo);
    forall k | k in left
      ensures IsHit(rest, b, k)
    {
      HitTail(xs, b, k);
    }
  }

  lemma HitTail(xs: seq<At>, b: nat, k: nat)
    requires IsHit(xs, b, k) && xs != [] && !Hit(xs[0], b, k)
    ensures IsHit(xs[1..], b, k)
  {
    var j :| 0 <= j < |xs| && Hit(xs[j], b, k);
    assert xs[1..][j - 1] == xs[j];
  }

  lemma TodoTail(xs: seq<At>, b: nat, n: nat, todo: set<nat>)
    requires OnlyTodo(xs, b, n, todo) && OnceEach(xs, b, n) && xs != [] && InWindow(xs[|xs| - 1], b, n)
    ensures todo != {} && OnceEach(xs[1..], b, n)
    ensures OnlyTodo(xs[1..], b, n, if InWindow(xs[0], b, n) then todo - {xs[0].offset - b} else todo)
  {
    hide InWindow;
    assert xs[|xs| - 1].offset - b in todo;
    assert forall j :: 0 <= j < |xs[1..]| ==> xs[1..][j] == xs[j + 1];
    forall i, j | 0 <= i < j < |xs[1..]| && InWindow(xs[1..][i], b, n) && InWindow(xs[1..][j], b, n)
      ensures xs[1..][i].offset != xs[1..][j].offset
    {
      assert xs[1..][i] == xs[i + 1] && xs[1..][j] == xs[j + 1];
    }
  }

  /** While a write buffer is filled. */
  ghost predicate Filling(g: Geometry, c: Chip, b: nat, n: nat, todo: set<nat>) {
    && ChipOk(g, c) && c.wbOffset == b && c.wbCount == n && c.wbRemain == |todo|
    && c.state == if todo == {} then WriteBufConfirm else WriteBufData
  }

  lemma FillStep(g: Geometry, c: Chip, b: nat, n: nat, todo: set<nat>, x: At)
    requires Filling(g, c, b, n, todo) && todo != {} && n <= BUF_SIZE
    requires InWindow(x, b, n) ==> x.offset - b in todo
    ensures var left := if InWindow(x, b, n) then todo - {x.offset - b} else todo;
            var c' := Access(g, c, x.offset, x.op);
            && Filling(g, c', b, n, left) && c'.cells == c.cells && c'.status == c.status
            && (forall k :: 0 <= k < BUF_SIZE ==>
                  c'.wbuf[k] == if InWindow(x, b, n) && x.offset == b + k then x.op.data else c.wbuf[k])
  {
    hide Put, AfterCommand, CountField, Confirms;
    if InWindow(x, b, n) {
      var left := todo - {x.offset - b};
      assert todo == left + {x.offset - b};
    }
  }

  /** Filling the buffer, in any order and with anything else in between, leaves in each place its value. */
  lemma {:induction false} FillRun(g: Geometry, c: Chip, b: nat, n: nat, todo: set<nat>, xs: seq<At>)
    requires Filling(g, c, b, n, todo) && n <= BUF_SIZE && EachOnce(xs, b, n, todo)
    ensures var c' := RunChip(g, c, xs);
            && Filling(g, c', b, n, {}) && c'.cells == c.cells && c'.status == c.status
            && (forall k: nat :: k < n ==> c'.wbuf[k] == if k in todo then ValueFor(xs, b + k) else c.wbuf[k])
    decreases |xs|
  {
    hide Access, EachOnce;
    if xs == [] {
      NothingToDo(b, n, todo);
    } else {
      EachOnceTail(xs, b, n, todo);
      EachOnceHead(xs, b, n, todo);
      FillStep(g, c, b, n, todo, xs[0]);
      var left := if InWindow(xs[0], b, n) then todo - {xs[0].offset - b} else todo;
      FillRun(g, Access(g, c, xs[0].offset, xs[0].op), b, n, left, xs[1..]);
    }
  }

  lemma NothingToDo(b: nat, n: nat, todo: set<nat>)
    requires EachOnce([], b, n, todo)
    ensures todo == {}
  {
    if k :| k in todo {
      assert false;
    }
  }

  lemma EachOnceHead(xs: seq<At>, b: nat, n: nat, todo: set<nat>)
    requires EachOnce(xs, b, n, todo) && xs != []
    ensures InWindow(xs[0], b, n) ==> xs[0].offset - b in todo
    ensures forall k :: k in todo ==> k < n
  {
    hide OnceEach, IsHit, InWindow;
  }

  /** A write buffer of 1 to 32 places: the command, a count word with the number of places less one in its low
      five bits, each place written exactly once, in any order, then a write with low byte 0xD0 stores exactly
      those values and nothing else; any other write there stores nothing. */
  lemma BufferedProgram(g: Geometry, c: Chip, b: nat, start: bv32, p: nat, count: bv32, n: nat, xs: seq<At>,
                        confirm: At)
    requires ChipOk(g, c) && TakesCommand(c) && start & 0xff == 0xe8
    requires 1 <= n <= 32 && (count & 0x1f) as nat == n - 1 && EachOnce(xs, b, n, Places(n)) && confirm.op.Write?
    ensures var c' := RunChip(g, c, [At(b, Write(start)), At(p, Write(count))] + xs + [confirm]);
            && c'.state == ReadArray && c'.status == c.status
            && forall k :: 0 <= k < g.cells ==>
                 c'.cells[k] ==
                 if confirm.op.data & 0xff == 0xd0 && b <= k < b + n then Put(g.width, ValueFor(xs, k)) else c.cells[k]
  {
    hide Access, EachOnce, ValueFor, CountField, Command, RunChip, Confirms, Put, Places, TakesCommand;
    LowByte(start);
    LowByte(confirm.op.data);
    LowCount(count, n - 1);
    var open := [At(b, Write(start)), At(p, Write(count))];
    var c1 := AfterOpen(g, c, b, start, p, count);
    FillRun(g, c1, b, n, Places(n), xs);
    var c2 := RunChip(g, c1, xs);
    RunChipConcat(g, c, open, xs);
    RunChipConcat(g, c, open + xs, [confirm]);
    ConfirmStep(g, c2, confirm);
  }

  lemma RunTwo(g: Geometry, c: Chip, x: At, y: At)
    requires ChipOk(g, c)
    ensures ChipOk(g, Access(g, c, x.offset, x.op))
    ensures RunChip(g, c, [x, y]) == Access(g, Access(g, c, x.offset, x.op), y.offset, y.op)
  {
    hide Access, ChipOk;
    AccessOk(g, c, x.offset, x.op);
    var c1 := Access(g, c, x.offset, x.op);
    AccessOk(g, c1, y.offset, y.op);
    assert [x, y][1..] == [y] && [y][1..] == [];
    assert RunChip(g, c1, [y]) == Access(g, c1, y.offset, y.op);
  }

  lemma AfterOpen(g: Geometry, c: Chip, b: nat, start: bv32, p: nat, count: bv32) returns (c': Chip)
    requires ChipOk(g, c) && TakesCommand(c) && Command(start) == 0xe8
    ensures c' == RunChip(g, c, [At(b, Write(start)), At(p, Write(count))])
    ensures var n := CountField(count) + 1;
            && ChipOk(g, c') && c'.wbOffset == b && c'.wbCount == n && c'.wbRemain == n && c'.state == WriteBufData
            && c'.cells == c.cells && c'.status == c.status
  {
    hide Access, RunChip, CountField, Command, ChipOk, TakesCommand;
    RunTwo(g, c, At(b, Write(start)), At(p, Write(count)));
    OpenStep(g, c, b, start);
    var c1 := Access(g, c, b, Write(start));
    AccessOk(g, c1, p, Write(count));
    CountStep(g, c1, p, count);
    c' := Access(g, c1, p, Write(count));
  }

  lemma OpenStep(g: Geometry, c: Chip, b: nat, start: bv32)
    requires ChipOk(g, c) && TakesCommand(c) && Command(start) == 0xe8
    ensures Access(g, c, b, Write(start)) == c.(state := WriteBufCount, wbOffset := b, wbCount := 0, wbRemain := 0)
  {
    hide Command;
  }

  lemma CountStep(g: Geometry, c: Chip, p: nat, count: bv32)
    requires ChipOk(g, c) && c.state == WriteBufCount
    ensures var n := CountField(count) + 1;
            Access(g, c, p, Write(count)) == c.(state := WriteBufData, wbCount := n, wbRemain := n)
  {
    hide CountField;
  }

  lemma ConfirmStep(g: Geometry, c: Chip, confirm: At)
    requires ChipOk(g, c) && c.state == WriteBufConfirm && confirm.op.Write?
    ensures var c' := Access(g, c, confirm.offset, confirm.op);
            && RunChip(g, c, [confirm]) == c' && c'.state == ReadArray && c'.status == c.status
            && forall k :: 0 <= k < g.cells ==>
                 c'.cells[k] == if Confirms(confirm.op.data) && c.wbOffset <= k < c.wbOffset + c.wbCount then
                                  Put(g.width, c.wbuf[k - c.wbOffset])
                                else c.cells[k]
  {
    hide Put, Confirms;
    assert [confirm][1..] == [];
    AccessOk(g, c, confirm.offset, confirm.op);
  }
}
