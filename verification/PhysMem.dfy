/** Guest physical memory, and sequences of writes to it. */
module PhysMem {
  import opened Bytes

  /** One write, as the guest could observe it. */
  datatype Write = Write(addr: nat, data: seq<byte>)

  /** Bytes outside the memory read as zero. */
  function Load(mem: seq<byte>, addr: nat, n: nat): (d: seq<byte>)
    ensures |d| == n
    ensures forall i :: 0 <= i < n ==> d[i] == if addr + i < |mem| then mem[addr + i] else 0
  {
    seq(n, i requires 0 <= i < n => if addr + i < |mem| then mem[addr + i] else 0)
  }

  /** Bytes outside the memory are not written. */
  function Store(mem: seq<byte>, w: Write): (m: seq<byte>)
    ensures |m| == |mem|
    ensures forall i :: 0 <= i < |mem| ==> m[i] == if w.addr <= i < w.addr + |w.data| then w.data[i - w.addr] else mem[i]
  {
    seq(|mem|, i requires 0 <= i < |mem| => if w.addr <= i < w.addr + |w.data| then w.data[i - w.addr] else mem[i])
  }

  function Word(mem: seq<byte>, addr: nat): bv32 {
    GetBe32(Load(mem, addr, 4))
  }

  function WordWrite(addr: nat, w: bv32): (r: Write)
    ensures r.addr == addr && |r.data| == 4
  {
    Write(addr, Be32(w))
  }

  function ApplyAll(mem: seq<byte>, ws: seq<Write>): (m: seq<byte>)
    ensures |m| == |mem|
    decreases |ws|
  {
    if ws == [] then mem else ApplyAll(Store(mem, ws[0]), ws[1..])
  }

  predicate Apart(a: nat, n: nat, b: nat, k: nat) {
    a + n <= b || b + k <= a
  }

  lemma StoreKeeps(mem: seq<byte>, w: Write, a: nat, n: nat)
    requires Apart(a, n, w.addr, |w.data|)
    ensures Load(Store(mem, w), a, n) == Load(mem, a, n)
  {}

  lemma StoreHolds(mem: seq<byte>, w: Write)
    requires w.addr + |w.data| <= |mem|
    ensures Load(Store(mem, w), w.addr, |w.data|) == w.data
  {}

  lemma {:induction false} ApplyConcat(mem: seq<byte>, a: seq<Write>, b: seq<Write>)
    ensures ApplyAll(mem, a + b) == ApplyAll(ApplyAll(mem, a), b)
    decreases |a|
  {
    hide Store;
    if a == [] {
      assert a + b == b;
    } else {
      ApplyConcat(Store(mem, a[0]), a[1..], b);
      assert (a + b)[1..] == a[1..] + b && (a + b)[0] == a[0];
    }
  }

  /** Writes apart from a range leave it as it was. */
  lemma {:induction false} ApplyKeeps(mem: seq<byte>, ws: seq<Write>, a: nat, n: nat)
    requires forall i :: 0 <= i < |ws| ==> Apart(a, n, ws[i].addr, |ws[i].data|)
    ensures Load(ApplyAll(mem, ws), a, n) == Load(mem, a, n)
    decreases |ws|
  {
    hide Store, Load, Apart;
    if ws != [] {
      StoreKeeps(mem, ws[0], a, n);
      ApplyKeeps(Store(mem, ws[0]), ws[1..], a, n);
    }
  }

  /** A write is still there at the end if no later write touches it. */
  lemma ApplyHolds(mem: seq<byte>, ws: seq<Write>, i: nat)
    requires i < |ws| && ws[i].addr + |ws[i].data| <= |mem|
    requires forall j :: i < j < |ws| ==> Apart(ws[i].addr, |ws[i].data|, ws[j].addr, |ws[j].data|)
    ensures Load(ApplyAll(mem, ws), ws[i].addr, |ws[i].data|) == ws[i].data
  {
    hide Store, Load, Apart;
    var w := ws[i];
    assert ws == ws[..i] + ([w] + ws[i + 1..]);
    ApplyConcat(mem, ws[..i], [w] + ws[i + 1..]);
    var m := ApplyAll(mem, ws[..i]);
    assert ([w] + ws[i + 1..])[1..] == ws[i + 1..];
    assert ApplyAll(m, [w] + ws[i + 1..]) == ApplyAll(Store(m, w), ws[i + 1..]);
    StoreHolds(m, w);
    ApplyKeeps(Store(m, w), ws[i + 1..], w.addr, |w.data|);
  }

  lemma ApplyTwo(m: seq<byte>, a: Write, b: Write)
    ensures ApplyAll(m, [a, b]) == Store(Store(m, a), b)
  {
    hide Store;
    assert [a, b][1..] == [b] && [b][1..] == [];
    assert ApplyAll(Store(m, a), [b]) == Store(Store(m, a), b);
  }

  lemma ApplyThree(m: seq<byte>, a: Write, b: Write, c: Write)
    ensures ApplyAll(m, [a, b, c]) == Store(Store(Store(m, a), b), c)
  {
    hide Store;
    assert [a, b, c][1..] == [b, c];
    ApplyTwo(Store(m, a), b, c);
  }

  lemma WordOfBe32(w: bv32)
    ensures GetBe32(Be32(w)) == w
  {
    GetPutBe32(w, []);
    assert Be32(w) + [] == Be32(w);
  }

  /** A word written and not touched later reads back. */
  lemma WordHolds(mem: seq<byte>, ws: seq<Write>, i: nat, addr: nat, v: bv32)
    requires i < |ws| && ws[i] == WordWrite(addr, v) && addr + 4 <= |mem|
    requires forall j :: i < j < |ws| ==> Apart(addr, 4, ws[j].addr, |ws[j].data|)
    ensures Word(ApplyAll(mem, ws), addr) == v
  {
    hide Be32, GetBe32, Load, ApplyAll;
    ApplyHolds(mem, ws, i);
    WordOfBe32(v);
  }

  /** Memory, with the sequence of writes made to it. */
  class Memory {
    var ram: seq<byte>
    ghost var log: seq<Write>

    constructor (size: nat)
      ensures log == [] && |ram| == size
    {
      ram := Zeros(size);
      log := [];
    }

    function CopyFromVm(addr: nat, n: nat): seq<byte>
      reads this
    {
      Load(ram, addr, n)
    }

    function CopyU32FromVm(addr: nat): bv32
      reads this
    {
      Word(ram, addr)
    }

    method CopyToVm(addr: nat, data: seq<byte>)
      modifies this
      ensures ram == Store(old(ram), Write(addr, data)) && log == old(log) + [Write(addr, data)]
    {
      ram := Store(ram, Write(addr, data));
      log := log + [Write(addr, data)];
    }

    method CopyU32ToVm(addr: nat, w: bv32)
      modifies this
      ensures ram == Store(old(ram), WordWrite(addr, w)) && log == old(log) + [WordWrite(addr, w)]
    {
      CopyToVm(addr, Be32(w));
    }
  }
}
