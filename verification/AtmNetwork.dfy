/** Runs of commands and cells on a switch, and saved configurations. */
module AtmNetwork {
  import opened Bytes
  import opened Hec
  import opened Atm
  import opened AtmVsar
  import opened AtmBridge
  import opened AtmSwitch

  // ---------- Runs of commands ----------

  function RunCommands(nios: set<string>, s: State, ops: seq<Command>): State
    decreases |ops|
  {
    if ops == [] then s else RunCommands(nios, Execute(nios, s, ops[0]), ops[1..])
  }

  const EMPTY := State(map[], map[])

  ghost predicate GoodConn(nios: set<string>, k: Key, c: Conn) {
    && c.key == k && k.input in nios && c.output in nios
    && (k.VpKey? ==> c.vciOut == 0)
  }

  /** What every state reached by commands satisfies. */
  ghost predicate Good(nios: set<string>, s: State) {
    && (forall k :: k in s.vps ==> k.VpKey? && GoodConn(nios, k, s.vps[k]))
    && (forall k :: k in s.vcs ==> k.VcKey? && GoodConn(nios, k, s.vcs[k]))
  }

  lemma {:induction false} RunsStayGood(nios: set<string>, s: State, ops: seq<Command>)
    requires Good(nios, s) && forall i :: 0 <= i < |ops| ==> WellFormed(ops[i])
    ensures Good(nios, RunCommands(nios, s, ops))
    decreases |ops|
  {
    if ops != [] {
      RunsStayGood(nios, Execute(nios, s, ops[0]), ops[1..]);
    }
  }

  /** Creating and then deleting the same VPC restores the whole state, hence every VC it hid, unless the
      creation was refused and the deletion removed an identical connection that was there before. */
  lemma CreateThenDeleteVpc(nios: set<string>, s: State, key: Key, output: string, vpiOut: bv32)
    requires key.VpKey?
    ensures var s' := RunCommands(nios, s, [Create(key, output, vpiOut, 0), Delete(key, output, vpiOut, 0)]);
            s' == s <==> !Accepts(nios, s, Delete(key, output, vpiOut, 0))
  {
    var create, delete := Create(key, output, vpiOut, 0), Delete(key, output, vpiOut, 0);
    var s1 := Execute(nios, s, create);
    assert [create, delete][1..] == [delete] && [delete][1..] == [];
    assert RunCommands(nios, s1, [delete]) == RunCommands(nios, Execute(nios, s1, delete), []);
    assert RunCommands(nios, s, [create, delete]) == Execute(nios, s1, delete);
    if Accepts(nios, s, create) {
      assert s1.vps - {key} == s.vps;
    }
    if Accepts(nios, s, delete) {
      assert key in s.vps && key !in Execute(nios, s1, delete).vps;
    }
  }

  // ---------- Commands and cells ----------

  /** What a switch is asked to do: a command, or a cell to handle. */
  datatype Request = Command(op: Command) | Cell(input: string, hdr: bv32)

  function Handled(nios: set<string>, s: State, q: Request): State {
    match q
    case Command(op) => Execute(nios, s, op)
    case Cell(input, hdr) => AfterCell(s, input, hdr)
  }

  function RunSwitch(nios: set<string>, s: State, qs: seq<Request>): State
    decreases |qs|
  {
    if qs == [] then s else RunSwitch(nios, Handled(nios, s, qs[0]), qs[1..])
  }

  /** The commands of a run. */
  function CommandsOf(qs: seq<Request>): seq<Command> {
    if qs == [] then []
    else (if qs[0].Command? then [qs[0].op] else []) + CommandsOf(qs[1..])
  }

  predicate AllWellFormed(ops: seq<Command>) {
    forall i :: 0 <= i < |ops| ==> WellFormed(ops[i])
  }

  lemma CellKeepsGood(nios: set<string>, s: State, input: string, hdr: bv32)
    requires Good(nios, s)
    ensures Good(nios, AfterCell(s, input, hdr))
  {}

  /** Whatever cells and commands come, in any order, the maps stay good. */
  lemma {:induction false} SwitchStaysGood(nios: set<string>, s: State, qs: seq<Request>)
    requires Good(nios, s) && AllWellFormed(CommandsOf(qs))
    ensures Good(nios, RunSwitch(nios, s, qs))
    decreases |qs|
  {
    if qs != [] {
      var q := qs[0];
      var ops, rest := CommandsOf(qs), CommandsOf(qs[1..]);
      if q.Cell? {
        assert ops == rest;
        CellKeepsGood(nios, s, q.input, q.hdr);
      } else {
        assert ops[0] == q.op && rest == ops[1..];
        OneStaysGood(nios, s, q.op);
      }
      SwitchStaysGood(nios, Handled(nios, s, q), qs[1..]);
    }
  }

  lemma OneStaysGood(nios: set<string>, s: State, op: Command)
    requires Good(nios, s) && WellFormed(op)
    ensures Good(nios, Execute(nios, s, op))
  {}

  /** A connection with its counter started again. */
  function Reset(c: Conn): Conn {
    c.(cellCnt := 0)
  }

  /** The same connections, whatever their counters. */
  ghost predicate Alike(a: map<Key, Conn>, b: map<Key, Conn>) {
    a.Keys == b.Keys && forall k :: k in a ==> Reset(a[k]) == Reset(b[k])
  }

  ghost predicate AlikeStates(s: State, s': State) {
    Alike(s.vps, s'.vps) && Alike(s.vcs, s'.vcs)
  }

  lemma AlikeMaps(a: map<Key, Conn>, b: map<Key, Conn>, k: Key, c: Conn)
    requires Alike(a, b)
    ensures Alike(a[k := c], b[k := c]) && Alike(a - {k}, b - {k})
    ensures (k in a <==> k in b) && (k in a ==> Reset(a[k]) == Reset(b[k]))
  {
    assert (a - {k}).Keys == (b - {k}).Keys;
  }

  /** Whether a command is accepted, and what it does, depends on the connections and not on their counters. */
  lemma AlikeCommands(nios: set<string>, s: State, s': State, op: Command)
    requires AlikeStates(s, s')
    ensures Accepts(nios, s, op) == Accepts(nios, s', op)
    ensures AlikeStates(Execute(nios, s, op), Execute(nios, s', op))
  {
    hide Alike;
    var c := Conn(op.key, op.output, op.vpiOut, op.vciOut, 0);
    AlikeMaps(s.vps, s'.vps, op.key, c);
    AlikeMaps(s.vcs, s'.vcs, op.key, c);
    AlikeMaps(s.vps, s'.vps, VpKey(op.key.input, op.key.vpi), c);
  }

  lemma AlikeCell(s: State, s': State, input: string, hdr: bv32)
    requires AlikeStates(s, s')
    ensures AlikeStates(AfterCell(s, input, hdr), s')
  {
    hide VpiOf, VciOf;
  }

  lemma AlikeForward(s: State, s': State, input: string, hdr: bv32)
    requires AlikeStates(s, s')
    ensures Forward(s, input, hdr) == Forward(s', input, hdr)
  {
    hide VpiOf, VciOf, VpHdr, VcHdr;
    var vp, vc := VpKeyOf(input, hdr), VcKeyOf(input, hdr);
    assert vp in s.vps ==> Reset(s.vps[vp]) == Reset(s'.vps[vp]);
    assert vc in s.vcs ==> Reset(s.vcs[vc]) == Reset(s'.vcs[vc]);
  }

  /** Cells in between change nothing but counters: every command is answered, and every cell forwarded, as if
      the commands alone had been given. */
  lemma {:induction false} CellsDoNotMatter(nios: set<string>, s: State, s': State, qs: seq<Request>)
    requires AlikeStates(s, s')
    ensures AlikeStates(RunSwitch(nios, s, qs), RunCommands(nios, s', CommandsOf(qs)))
    ensures forall input, hdr :: Forward(RunSwitch(nios, s, qs), input, hdr) ==
                                 Forward(RunCommands(nios, s', CommandsOf(qs)), input, hdr)
    decreases |qs|
  {
    hide AlikeStates, Execute, AfterCell, Forward;
    if qs != [] {
      var q := qs[0];
      var ops, rest := CommandsOf(qs), CommandsOf(qs[1..]);
      if q.Cell? {
        assert ops == rest;
        AlikeCell(s, s', q.input, q.hdr);
        CellsDoNotMatter(nios, Handled(nios, s, q), s', qs[1..]);
      } else {
        assert ops[0] == q.op && ops[1..] == rest;
        AlikeCommands(nios, s, s', q.op);
        CellsDoNotMatter(nios, Handled(nios, s, q), Execute(nios, s', q.op), qs[1..]);
      }
    }
    forall input, hdr
      ensures Forward(RunSwitch(nios, s, qs), input, hdr) ==
              Forward(RunCommands(nios, s', CommandsOf(qs)), input, hdr)
    {
      AlikeForward(RunSwitch(nios, s, qs), RunCommands(nios, s', CommandsOf(qs)), input, hdr);
    }
  }

  // ---------- What a created connection does ----------

  predicate IsCommand(qs: seq<Request>, op: Command) {
    exists j :: 0 <= j < |qs| && qs[j] == Request.Command(op)
  }

  predicate KeyCreated(qs: seq<Request>, k: Key) {
    exists j :: 0 <= j < |qs| && qs[j].Command? && qs[j].op.Create? && qs[j].op.key == k
  }

  /** The connection of a VP key, its counter aside. */
  ghost predicate HasVp(s: State, k: Key, output: string, vpiOut: bv32) {
    k in s.vps && Matches(s.vps[k], output, vpiOut, 0)
  }

  ghost predicate HasVc(s: State, k: Key, output: string, vpiOut: bv32, vciOut: bv32) {
    k in s.vcs && Matches(s.vcs[k], output, vpiOut, vciOut)
  }

  /** Whether a request is a cell for a VP or VC key. */
  predicate ForKey(q: Request, k: Key) {
    q.Cell? && k in {VpKeyOf(q.input, q.hdr), VcKeyOf(q.input, q.hdr)}
  }

  function Plus64(a: bv64, b: bv64): bv64 { a + b }

  /** How many cells of a run are for a key, on the 64 bits of a counter. */
  function CellsFor(qs: seq<Request>, k: Key): bv64 {
    if qs == [] then 0 else Plus64(if ForKey(qs[0], k) then 1 else 0, CellsFor(qs[1..], k))
  }

  lemma PlusLaws(a: bv64, b: bv64, c: bv64)
    ensures Plus64(Plus64(a, b), c) == Plus64(a, Plus64(b, c)) && Plus64(a, 0) == a
  {}

  lemma CountedOnce(c: Conn)
    ensures Counted(c) == c.(cellCnt := Plus64(c.cellCnt, 1))
  {}

  lemma VpStays(nios: set<string>, s: State, q: Request, k: Key, output: string, vpiOut: bv32)
    requires HasVp(s, k, output, vpiOut) && k.VpKey? && q != Request.Command(Delete(k, output, vpiOut, 0))
    ensures var s' := Handled(nios, s, q);
            k in s'.vps && s'.vps[k] == if ForKey(q, k) then Counted(s.vps[k]) else s.vps[k]
  {
    hide VpiOf, VciOf, Counted;
  }

  lemma VcStays(nios: set<string>, s: State, q: Request, k: Key, output: string, vpiOut: bv32, vciOut: bv32)
    requires HasVc(s, k, output, vpiOut, vciOut) && k.VcKey? && VpKey(k.input, k.vpi) !in s.vps
    requires q != Request.Command(Delete(k, output, vpiOut, vciOut))
    requires !(q.Command? && q.op.Create? && q.op.key == VpKey(k.input, k.vpi))
    ensures var s' := Handled(nios, s, q);
            && VpKey(k.input, k.vpi) !in s'.vps
            && k in s'.vcs && s'.vcs[k] == if ForKey(q, k) then Counted(s.vcs[k]) else s.vcs[k]
  {
    hide VpiOf, VciOf, Counted;
  }

  lemma Ticked(c: Conn, q: Request, qs: seq<Request>, k: Key)
    requires qs != [] && qs[0] == q
    ensures var c' := if ForKey(q, k) then Counted(c) else c;
            && c' == c.(cellCnt := c'.cellCnt)
            && Plus64(c'.cellCnt, CellsFor(qs[1..], k)) == Plus64(c.cellCnt, CellsFor(qs, k))
  {
    hide Plus64, ForKey, Counted;
    CountedOnce(c);
    PlusLaws(c.cellCnt, 1, CellsFor(qs[1..], k));
    PlusLaws(c.cellCnt, 0, CellsFor(qs[1..], k));
  }

  lemma NoTick(c: Conn)
    ensures c.(cellCnt := Plus64(c.cellCnt, 0)) == c
  {
    PlusLaws(c.cellCnt, 0, 0);
  }

  /** A VPC stays until it is deleted, and its counter counts exactly the cells of its VPI from its input. */
  lemma {:induction false} VpSurvives(nios: set<string>, s: State, qs: seq<Request>, k: Key, output: string, vpiOut: bv32)
    requires HasVp(s, k, output, vpiOut) && k.VpKey? && !IsCommand(qs, Delete(k, output, vpiOut, 0))
    ensures var s' := RunSwitch(nios, s, qs);
            k in s'.vps && s'.vps[k] == s.vps[k].(cellCnt := Plus64(s.vps[k].cellCnt, CellsFor(qs, k)))
    decreases |qs|
  {
    hide Handled, ForKey, Plus64, Counted;
    NoTick(s.vps[k]);
    if qs != [] {
      assert qs[0] != Request.Command(Delete(k, output, vpiOut, 0));
      assert forall j :: 0 <= j < |qs[1..]| ==> qs[1..][j] == qs[j + 1];
      VpStays(nios, s, qs[0], k, output, vpiOut);
      Ticked(s.vps[k], qs[0], qs, k);
      VpSurvives(nios, Handled(nios, s, qs[0]), qs[1..], k, output, vpiOut);
    }
  }

  /** A VCC that no VPC is created over stays until it is deleted, and counts the cells of its VPI and VCI. */
  lemma {:induction false} VcSurvives(nios: set<string>, s: State, qs: seq<Request>, k: Key,
                                      output: string, vpiOut: bv32, vciOut: bv32)
    requires HasVc(s, k, output, vpiOut, vciOut) && k.VcKey? && VpKey(k.input, k.vpi) !in s.vps
    requires !IsCommand(qs, Delete(k, output, vpiOut, vciOut)) && !KeyCreated(qs, VpKey(k.input, k.vpi))
    ensures var s' := RunSwitch(nios, s, qs);
            && VpKey(k.input, k.vpi) !in s'.vps
            && k in s'.vcs && s'.vcs[k] == s.vcs[k].(cellCnt := Plus64(s.vcs[k].cellCnt, CellsFor(qs, k)))
    decreases |qs|
  {
    hide Handled, ForKey, Plus64, Counted;
    NoTick(s.vcs[k]);
    if qs != [] {
      assert qs[0] != Request.Command(Delete(k, output, vpiOut, vciOut));
      assert forall j :: 0 <= j < |qs[1..]| ==> qs[1..][j] == qs[j + 1];
      VcStays(nios, s, qs[0], k, output, vpiOut, vciOut);
      Ticked(s.vcs[k], qs[0], qs, k);
      VcSurvives(nios, Handled(nios, s, qs[0]), qs[1..], k, output, vpiOut, vciOut);
    }
  }

  /** A cell as it leaves the switch for the cell `c` from `input`: where to, and that payload and low header
      bits are those of `c` and the HEC is valid. */
  ghost predicate SentTo(s: State, input: string, c: Cell, c': Cell, output: string) {
    && OutputOf(Forward(s, input, HdrOf(c))) == Some(output)
    && PayloadOf(c') == PayloadOf(c) && HdrOf(c') & 0xf == HdrOf(c) & 0xf && HecValid(c')
  }

  lemma VpHdrKeeps(hdr: bv32, vpiOut: bv32)
    ensures VpHdr(hdr, vpiOut) & 0xf == hdr & 0xf && VciOf(VpHdr(hdr, vpiOut)) == VciOf(hdr)
    ensures VpiOf(VpHdr(hdr, vpiOut)) == vpiOut & 0xfff
    ensures VpHdr(WithEop(hdr), vpiOut) == WithEop(VpHdr(hdr, vpiOut))
  {}

  lemma VcHdrKeeps(hdr: bv32, vpiOut: bv32, vciOut: bv32)
    ensures VcHdr(hdr, vpiOut, vciOut) & 0xf == hdr & 0xf
    ensures VcHdr(WithEop(hdr), vpiOut, vciOut) == WithEop(VcHdr(hdr, vpiOut, vciOut))
  {}

  /** A VC connection writes the labels it was given exactly when they fit the header. */
  lemma VcHdrLabel(hdr: bv32, vpiOut: bv32, vciOut: bv32)
    ensures VpiOf(VcHdr(hdr, vpiOut, vciOut)) == vpiOut && VciOf(VcHdr(hdr, vpiOut, vciOut)) == vciOut <==>
            LabelFits(vpiOut, vciOut)
  {}

  /** Once a VPC has been created, every cell of its VPI from its input goes to its output, with its new VPI and
      everything else as it was, until the same VPC is deleted: whatever commands and cells come in between. */
  lemma CreatedVpcCarries(nios: set<string>, s: State, input: string, vpi: bv32, output: string, vpiOut: bv32,
                          qs: seq<Request>, c: Cell, c': Cell)
    requires Accepts(nios, s, Create(VpKey(input, vpi), output, vpiOut, 0))
    requires !IsCommand(qs, Delete(VpKey(input, vpi), output, vpiOut, 0)) && VpiOf(HdrOf(c)) == vpi
    requires var s' := RunSwitch(nios, Execute(nios, s, Create(VpKey(input, vpi), output, vpiOut, 0)), qs);
             Relabelled(Forward(s', input, HdrOf(c)), c, c')
    ensures var s' := RunSwitch(nios, Execute(nios, s, Create(VpKey(input, vpi), output, vpiOut, 0)), qs);
            SentTo(s', input, c, c', output)
    ensures VpiOf(HdrOf(c')) == vpiOut & 0xfff && VciOf(HdrOf(c')) == VciOf(HdrOf(c))
  {
    hide VpiOf, VciOf, VpHdr, VcHdr, HdrOf, PayloadOf, MakeCell, HecValid, WithEop;
    var k, s1 := VpKey(input, vpi), Execute(nios, s, Create(VpKey(input, vpi), output, vpiOut, 0));
    VpSurvives(nios, s1, qs, k, output, vpiOut);
    VpHdrKeeps(HdrOf(c), vpiOut);
    MakeCellFields(VpHdr(HdrOf(c), vpiOut), PayloadOf(c));
  }

  /** The same for a VCC, as long as no VPC is created over it. */
  lemma CreatedVccCarries(nios: set<string>, s: State, input: string, vpi: bv32, vci: bv32,
                          output: string, vpiOut: bv32, vciOut: bv32, qs: seq<Request>, c: Cell, c': Cell)
    requires Accepts(nios, s, Create(VcKey(input, vpi, vci), output, vpiOut, vciOut))
    requires !IsCommand(qs, Delete(VcKey(input, vpi, vci), output, vpiOut, vciOut))
    requires !KeyCreated(qs, VpKey(input, vpi)) && VpiOf(HdrOf(c)) == vpi && VciOf(HdrOf(c)) == vci
    requires var s' := RunSwitch(nios, Execute(nios, s, Create(VcKey(input, vpi, vci), output, vpiOut, vciOut)), qs);
             Relabelled(Forward(s', input, HdrOf(c)), c, c')
    ensures var s' := RunSwitch(nios, Execute(nios, s, Create(VcKey(input, vpi, vci), output, vpiOut, vciOut)), qs);
            SentTo(s', input, c, c', output)
    ensures VpiOf(HdrOf(c')) == vpiOut && VciOf(HdrOf(c')) == vciOut <==> LabelFits(vpiOut, vciOut)
  {
    hide VpiOf, VciOf, VpHdr, VcHdr, HdrOf, PayloadOf, MakeCell, HecValid, LabelFits, WithEop;
    var k, s1 := VcKey(input, vpi, vci), Execute(nios, s, Create(VcKey(input, vpi, vci), output, vpiOut, vciOut));
    VcSurvives(nios, s1, qs, k, output, vpiOut, vciOut);
    VcHdrKeeps(HdrOf(c), vpiOut, vciOut);
    VcHdrLabel(HdrOf(c), vpiOut, vciOut);
    MakeCellFields(VcHdr(HdrOf(c), vpiOut, vciOut), PayloadOf(c));
  }

  lemma {:induction false} OnlyCreated(nios: set<string>, s: State, qs: seq<Request>, k: Key)
    requires k !in s.vps && k !in s.vcs && !KeyCreated(qs, k)
    ensures k !in RunSwitch(nios, s, qs).vps && k !in RunSwitch(nios, s, qs).vcs
    decreases |qs|
  {
    hide VpiOf, VciOf, Accepts;
    if qs != [] {
      assert forall j :: 0 <= j < |qs[1..]| ==> qs[1..][j] == qs[j + 1];
      assert !(qs[0].Command? && qs[0].op.Create? && qs[0].op.key == k);
      OnlyCreated(nios, Handled(nios, s, qs[0]), qs[1..], k);
    }
  }

  /** A cell for which neither a VPC nor a VCC has ever been created is dropped, as it is. */
  lemma NeverCreatedDrops(nios: set<string>, qs: seq<Request>, input: string, c: Cell, c': Cell)
    requires !KeyCreated(qs, VpKey(input, VpiOf(HdrOf(c))))
    requires !KeyCreated(qs, VcKey(input, VpiOf(HdrOf(c)), VciOf(HdrOf(c))))
    requires Relabelled(Forward(RunSwitch(nios, EMPTY, qs), input, HdrOf(c)), c, c')
    ensures OutputOf(Forward(RunSwitch(nios, EMPTY, qs), input, HdrOf(c))) == None && c' == c
  {
    hide VpiOf, VciOf, HdrOf;
    OnlyCreated(nios, EMPTY, qs, VpKey(input, VpiOf(HdrOf(c))));
    OnlyCreated(nios, EMPTY, qs, VcKey(input, VpiOf(HdrOf(c)), VciOf(HdrOf(c))));
  }

  /** Deleting a connection removes it: creating it and deleting it drops its cells again. */
  lemma DeletedDrops(nios: set<string>, s: State, op: Command, input: string, hdr: bv32)
    requires op.Create? && WellFormed(op) && Accepts(nios, s, op) && Forward(s, input, hdr) == None
    ensures var s1 := Execute(nios, s, op);
            Forward(Execute(nios, s1, Delete(op.key, op.output, op.vpiOut, op.vciOut)), input, hdr) == None
  {
    hide VpiOf, VciOf, VpHdr, VcHdr;
  }

  // ---------- Counters do not steer cells ----------

  lemma ForwardStable(s: State, input: string, hdr: bv32, input': string, hdr': bv32)
    ensures Forward(AfterCell(s, input, hdr), input', hdr') == Forward(s, input', hdr')
  {
    hide VpiOf, VciOf, VpHdr, VcHdr;
  }

  // ---------- Save and replay ----------

  /** A listing of a map's connections: each once, in any order. */
  ghost predicate Lists(flat: seq<Conn>, m: map<Key, Conn>) {
    && (forall i :: 0 <= i < |flat| ==> flat[i].key in m && m[flat[i].key] == flat[i])
    && (forall i, j :: 0 <= i < j < |flat| ==> flat[i].key != flat[j].key)
    && (forall k :: k in m ==> m[k] in flat && m[k].key == k)
  }

  lemma {:induction false} FlattenContains(buckets: seq<seq<Conn>>, b: nat, c: Conn)
    requires b < |buckets| && c in buckets[b]
    ensures c in Flatten(buckets)
  {
    if b > 0 {
      FlattenContains(buckets[1..], b - 1, c);
    }
  }

  /** Where an element of the flattened table came from. */
  lemma {:induction false} FlattenFrom(buckets: seq<seq<Conn>>, i: nat) returns (b: nat, p: nat)
    requires i < |Flatten(buckets)|
    ensures b < |buckets| && p < |buckets[b]| && Flatten(buckets)[i] == buckets[b][p]
    ensures |Flatten(buckets[..b])| + p == i
  {
    if i < |buckets[0]| {
      b, p := 0, i;
    } else {
      b, p := FlattenFrom(buckets[1..], i - |buckets[0]|);
      b := b + 1;
      assert buckets[..b][1..] == buckets[1..][..b - 1];
    }
  }

  lemma TableLists(t: ConnTable)
    requires t.Valid()
    ensures Lists(Flatten(t.buckets[..]), t.conns)
  {
    hide Hash, Flatten;
    var buckets := t.buckets[..];
    var flat := Flatten(buckets);
    forall i | 0 <= i < |flat|
      ensures flat[i].key in t.conns && t.conns[flat[i].key] == flat[i]
    {
      var b, p := FlattenFrom(buckets, i);
      assert Sits(buckets[b][p], b, t.conns, t.forVp);
    }
    forall i, j | 0 <= i < j < |flat|
      ensures flat[i].key != flat[j].key
    {
      var b, p := FlattenFrom(buckets, i);
      var b', p' := FlattenFrom(buckets, j);
      assert Sits(buckets[b][p], b, t.conns, t.forVp) && Sits(buckets[b'][p'], b', t.conns, t.forVp);
      if b == b' {
        assert p < p';
      }
    }
    forall k | k in t.conns
      ensures t.conns[k] in flat
    {
      FlattenContains(buckets, Hash(k), t.conns[k]);
    }
  }

  ghost predicate SameConn(a: map<Key, Conn>, b: map<Key, Conn>, k: Key) {
    k in a && k in b && a[k] == Reset(b[k])
  }

  predicate Hidden(vps: map<Key, Conn>, k: Key) {
    VpKey(k.input, k.vpi) in vps
  }

  /** The first `i` listed VP connections have been created. */
  ghost predicate VpProgress(flat: seq<Conn>, m: map<Key, Conn>, s: State, i: nat) {
    && i <= |flat|
    && (forall j :: 0 <= j < |flat| ==> (flat[j].key in s.vps <==> j < i))
    && (forall k :: k in s.vps ==> SameConn(s.vps, m, k))
  }

  /** The first `i` listed VC connections have been created, except those a VPC hides. */
  ghost predicate VcProgress(flat: seq<Conn>, m: map<Key, Conn>, s: State, i: nat) {
    && i <= |flat|
    && (forall j :: 0 <= j < |flat| ==> (flat[j].key in s.vcs <==> j < i && !Hidden(s.vps, flat[j].key)))
    && (forall k :: k in s.vcs ==> SameConn(s.vcs, m, k))
  }

  lemma VpStep(nios: set<string>, flat: seq<Conn>, m: map<Key, Conn>, s: State, i: nat)
    requires Lists(flat, m) && VpProgress(flat, m, s, i) && i < |flat|
    requires forall k :: k in m ==> k.VpKey? && GoodConn(nios, k, m[k])
    ensures var s1 := Execute(nios, s, AsCreate(flat[i])); VpProgress(flat, m, s1, i + 1) && s1.vcs == s.vcs
  {
    var key := flat[i].key;
    assert key in m && key !in s.vps;
    var s1 := Execute(nios, s, AsCreate(flat[i]));
    assert s1.vps == s.vps[key := Reset(flat[i])];
    forall k | k in s1.vps
      ensures SameConn(s1.vps, m, k)
    {
      if k != key {
        assert SameConn(s.vps, m, k);
      }
    }
  }

  lemma VcStep(nios: set<string>, flat: seq<Conn>, m: map<Key, Conn>, s: State, i: nat)
    requires Lists(flat, m) && VcProgress(flat, m, s, i) && i < |flat|
    requires forall k :: k in m ==> k.VcKey? && GoodConn(nios, k, m[k])
    ensures var s1 := Execute(nios, s, AsCreate(flat[i])); VcProgress(flat, m, s1, i + 1) && s1.vps == s.vps
  {
    var key := flat[i].key;
    assert key in m && key !in s.vcs;
    var s1 := Execute(nios, s, AsCreate(flat[i]));
    assert s1.vcs == if Hidden(s.vps, key) then s.vcs else s.vcs[key := Reset(flat[i])];
    forall k | k in s1.vcs
      ensures SameConn(s1.vcs, m, k)
    {
      if k != key {
        assert SameConn(s.vcs, m, k);
      }
    }
  }

  lemma VpsDone(flat: seq<Conn>, m: map<Key, Conn>, s: State)
    requires Lists(flat, m) && VpProgress(flat, m, s, |flat|)
    ensures s.vps.Keys == m.Keys && forall k :: k in m ==> SameConn(s.vps, m, k)
  {
    forall k | k in m
      ensures k in s.vps
    {
      var j :| 0 <= j < |flat| && flat[j] == m[k];
      assert flat[j].key in s.vps;
    }
  }

  lemma VcsDone(flat: seq<Conn>, m: map<Key, Conn>, s: State)
    requires Lists(flat, m) && VcProgress(flat, m, s, |flat|)
    ensures forall k :: k in m ==> (k in s.vcs <==> !Hidden(s.vps, k))
    ensures forall k :: k in s.vcs ==> SameConn(s.vcs, m, k)
  {
    hide Hidden;
    forall k | k in m
      ensures k in s.vcs <==> !Hidden(s.vps, k)
    {
      var j :| 0 <= j < |flat| && flat[j] == m[k];
      assert flat[j].key in s.vcs <==> !Hidden(s.vps, flat[j].key);
    }
  }

  lemma {:induction false} ReplayVps(nios: set<string>, flat: seq<Conn>, m: map<Key, Conn>, s: State, i: nat)
    returns (s': State)
    requires i <= |flat| && Lists(flat, m) && VpProgress(flat, m, s, i)
    requires forall k :: k in m ==> k.VpKey? && GoodConn(nios, k, m[k])
    ensures s' == RunCommands(nios, s, AsCreates(flat[i..])) && s'.vcs == s.vcs
    ensures s'.vps.Keys == m.Keys && forall k :: k in m ==> SameConn(s'.vps, m, k)
    decreases |flat| - i
  {
    hide Execute, Lists, VpProgress, GoodConn, SameConn;
    if i == |flat| {
      s' := s;
      VpsDone(flat, m, s);
    } else {
      var ops := AsCreates(flat[i..]);
      assert ops[0] == AsCreate(flat[i]) && ops[1..] == AsCreates(flat[i + 1..]);
      VpStep(nios, flat, m, s, i);
      s' := ReplayVps(nios, flat, m, Execute(nios, s, ops[0]), i + 1);
    }
  }

  lemma {:induction false} ReplayVcs(nios: set<string>, flat: seq<Conn>, m: map<Key, Conn>, s: State, i: nat)
    returns (s': State)
    requires i <= |flat| && Lists(flat, m) && VcProgress(flat, m, s, i)
    requires forall k :: k in m ==> k.VcKey? && GoodConn(nios, k, m[k])
    ensures s' == RunCommands(nios, s, AsCreates(flat[i..])) && s'.vps == s.vps
    ensures forall k :: k in m ==> (k in s'.vcs <==> !Hidden(s.vps, k))
    ensures forall k :: k in s'.vcs ==> SameConn(s'.vcs, m, k)
    decreases |flat| - i
  {
    hide Execute, Hidden, Lists, VcProgress, GoodConn, SameConn;
    if i == |flat| {
      s' := s;
      VcsDone(flat, m, s);
    } else {
      var ops := AsCreates(flat[i..]);
      assert ops[0] == AsCreate(flat[i]) && ops[1..] == AsCreates(flat[i + 1..]);
      VcStep(nios, flat, m, s, i);
      s' := ReplayVcs(nios, flat, m, Execute(nios, s, ops[0]), i + 1);
    }
  }

  lemma {:induction false} RunCommandsConcat(nios: set<string>, s: State, a: seq<Command>, b: seq<Command>)
    ensures RunCommands(nios, s, a + b) == RunCommands(nios, RunCommands(nios, s, a), b)
    decreases |a|
  {
    hide Execute;
    if a == [] {
      assert a + b == b;
    } else {
      RunCommandsConcat(nios, Execute(nios, s, a[0]), a[1..], b);
      assert (a + b)[1..] == a[1..] + b && (a + b)[0] == a[0];
    }
  }

  /** Replaying a saved configuration on an empty switch forwards every cell as the saved switch did,
      although VCCs hidden by a VPC are refused on replay. */
  lemma ReplayForwardsAlike(nios: set<string>, s: State, vpFlat: seq<Conn>, vcFlat: seq<Conn>)
    requires Good(nios, s) && Lists(vpFlat, s.vps) && Lists(vcFlat, s.vcs)
    ensures var s' := RunCommands(nios, EMPTY, AsCreates(vpFlat) + AsCreates(vcFlat));
            && (forall input, hdr :: Forward(s', input, hdr) == Forward(s, input, hdr))
            && (forall k :: k in s.vcs ==> (k in s'.vcs <==> !Hidden(s.vps, k)))
  {
    var s1 := ReplayVps(nios, vpFlat, s.vps, EMPTY, 0);
    var s2 := ReplayVcs(nios, vcFlat, s.vcs, s1, 0);
    assert vpFlat[0..] == vpFlat && vcFlat[0..] == vcFlat;
    RunCommandsConcat(nios, EMPTY, AsCreates(vpFlat), AsCreates(vcFlat));
    forall input, hdr
      ensures Forward(s2, input, hdr) == Forward(s, input, hdr)
    {
      ForwardAlike(s2, s, input, hdr);
    }
  }

  lemma ForwardAlike(s': State, s: State, input: string, hdr: bv32)
    requires s'.vps.Keys == s.vps.Keys && forall k :: k in s.vps ==> SameConn(s'.vps, s.vps, k)
    requires forall k :: k in s.vcs ==> (k in s'.vcs <==> !Hidden(s.vps, k))
    requires forall k :: k in s'.vcs ==> SameConn(s'.vcs, s.vcs, k)
    ensures Forward(s', input, hdr) == Forward(s, input, hdr)
  {
    hide VpiOf, VciOf, VpHdr, VcHdr;
    var vp, vc := VpKeyOf(input, hdr), VcKeyOf(input, hdr);
    assert vp in s'.vps <==> vp in s.vps;
    if vp in s.vps {
      assert SameConn(s'.vps, s.vps, vp);
    } else if vc in s.vcs {
      assert SameConn(s'.vcs, s.vcs, vc);
    }
  }

  /** The same, for what `SaveConfig` writes for a switch in any good state. */
  lemma SavedSwitchReplays(w: Switch, commands: seq<Command>)
    requires w.Valid() && Good(w.nios, w.Abstract())
    requires commands == AsCreates(Flatten(w.vpTable.buckets[..])) + AsCreates(Flatten(w.vcTable.buckets[..]))
    ensures forall input, hdr ::
              Forward(RunCommands(w.nios, EMPTY, commands), input, hdr) == Forward(w.Abstract(), input, hdr)
  {
    hide Flatten, Forward, ConnTable.Valid;
    TableLists(w.vpTable);
    TableLists(w.vcTable);
    ReplayForwardsAlike(w.nios, w.Abstract(), Flatten(w.vpTable.buckets[..]), Flatten(w.vcTable.buckets[..]));
  }

  /** So it is for a switch that has served any run of commands and cells. */
  lemma ServingSwitchReplays(w: Switch, qs: seq<Request>, commands: seq<Command>)
    requires w.Valid() && AllWellFormed(CommandsOf(qs)) && w.Abstract() == RunSwitch(w.nios, EMPTY, qs)
    requires commands == AsCreates(Flatten(w.vpTable.buckets[..])) + AsCreates(Flatten(w.vcTable.buckets[..]))
    ensures forall input, hdr :: Forward(RunCommands(w.nios, EMPTY, commands), input, hdr) ==
                                 Forward(RunCommands(w.nios, EMPTY, CommandsOf(qs)), input, hdr)
  {
    hide Flatten, Forward, ConnTable.Valid, Execute, AfterCell;
    SwitchStaysGood(w.nios, EMPTY, qs);
    SavedSwitchReplays(w, commands);
    CellsDoNotMatter(w.nios, EMPTY, EMPTY, qs);
  }
}
