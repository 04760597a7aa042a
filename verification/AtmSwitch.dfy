/** The virtual ATM switch: hash tables of VP and VC connections, and the cells they relabel. */
module AtmSwitch {
  import opened Bytes
  import opened Hec
  import opened Atm

  const VP_HASH_SIZE := 256
  const VC_HASH_SIZE := 1024

  datatype Key =
    | VpKey(input: string, vpi: bv32)
    | VcKey(input: string, vpi: bv32, vci: bv32)

  /** A connection; `vciOut` means nothing for a VP connection. */
  datatype Conn = Conn(key: Key, output: string, vpiOut: bv32, vciOut: bv32, cellCnt: bv64)

  function Hash(k: Key): (h: nat)
    ensures k.VpKey? ==> h < VP_HASH_SIZE
    ensures k.VcKey? ==> h < VC_HASH_SIZE
  {
    match k
    case VpKey(_, vpi) => ((vpi ^ (vpi >> 8)) & 0xff) as bv8 as nat
    case VcKey(_, vpi, vci) => ((vpi ^ vci) & 0x3ff) as bv10 as nat
  }

  function Counted(c: Conn): Conn {
    c.(cellCnt := c.cellCnt + 1)
  }

  /** An entry sits in the bucket of its hash and is what the map has under its key. */
  ghost predicate Sits(c: Conn, b: int, m: map<Key, Conn>, forVp: bool) {
    c.key.VpKey? == forVp && Hash(c.key) == b && c.key in m && m[c.key] == c
  }

  /** Buckets and map agree, and no key is in a bucket twice. */
  ghost predicate Sound(bs: seq<seq<Conn>>, m: map<Key, Conn>, forVp: bool) {
    && (forall b, i :: 0 <= b < |bs| && 0 <= i < |bs[b]| ==> Sits(bs[b][i], b, m, forVp))
    && (forall b, i, j :: 0 <= b < |bs| && 0 <= i < j < |bs[b]| ==> bs[b][i].key != bs[b][j].key)
    && (forall k :: k in m ==> k.VpKey? == forVp && m[k].key == k && Hash(k) < |bs| && m[k] in bs[Hash(k)])
  }

  lemma SoundInserted(bs: seq<seq<Conn>>, m: map<Key, Conn>, forVp: bool, c: Conn)
    requires Sound(bs, m, forVp) && c.key.VpKey? == forVp && Hash(c.key) < |bs| && c.key !in m
    ensures var h := Hash(c.key); Sound(bs[h := [c] + bs[h]], m[c.key := c], forVp)
  {
    hide Hash;
    var h := Hash(c.key);
    var bs', m' := bs[h := [c] + bs[h]], m[c.key := c];
    assert bs'[h][0] == c;
    forall b, i | 0 <= b < |bs'| && 0 <= i < |bs'[b]|
      ensures Sits(bs'[b][i], b, m', forVp) && (b == h && i > 0 ==> bs'[b][i].key != c.key)
    {
      if b != h {
        assert Sits(bs[b][i], b, m, forVp);
      } else if i > 0 {
        assert Sits(bs[h][i - 1], h, m, forVp);
      }
    }
  }

  /** Taking one entry out keeps the others, in order. */
  lemma RestOf(s: seq<Conn>, i: nat)
    requires i < |s| && forall j, j' :: 0 <= j < j' < |s| ==> s[j].key != s[j'].key
    ensures var rest := s[..i] + s[i + 1..];
            && (forall j, j' :: 0 <= j < j' < |rest| ==> rest[j].key != rest[j'].key)
            && (forall j :: 0 <= j < |rest| ==> rest[j] in s && rest[j].key != s[i].key)
            && (forall x :: x in s && x != s[i] ==> x in rest)
  {
    var rest := s[..i] + s[i + 1..];
    assert forall j :: 0 <= j < |rest| ==> rest[j] == s[if j < i then j else j + 1];
    forall x | x in s && x != s[i]
      ensures x in rest
    {
      var j :| 0 <= j < |s| && s[j] == x;
      assert rest[if j < i then j else j - 1] == x;
    }
  }

  lemma SoundUnlinked(bs: seq<seq<Conn>>, m: map<Key, Conn>, forVp: bool, h: nat, i: nat)
    requires Sound(bs, m, forVp) && h < |bs| && i < |bs[h]|
    ensures Sound(bs[h := bs[h][..i] + bs[h][i + 1..]], m - {bs[h][i].key}, forVp)
  {
    hide Hash;
    var c, rest := bs[h][i], bs[h][..i] + bs[h][i + 1..];
    var bs', m' := bs[h := rest], m - {c.key};
    RestOf(bs[h], i);
    assert Sits(c, h, m, forVp);
    forall b, j | 0 <= b < |bs'| && 0 <= j < |bs'[b]|
      ensures Sits(bs'[b][j], b, m', forVp)
    {
      var k :| 0 <= k < |bs[b]| && bs[b][k] == bs'[b][j];
      assert Sits(bs[b][k], b, m, forVp);
    }
  }

  lemma SoundCounted(bs: seq<seq<Conn>>, m: map<Key, Conn>, forVp: bool, h: nat, pos: nat, k: Key)
    requires Sound(bs, m, forVp) && h < |bs| && pos < |bs[h]| && k in m && bs[h][pos] == m[k]
    ensures Sound(bs[h := bs[h][pos := Counted(m[k])]], m[k := Counted(m[k])], forVp)
  {
    hide Hash, Counted;
    CountedKey(m[k]);
    var c := Counted(m[k]);
    var bs', m' := bs[h := bs[h][pos := c]], m[k := c];
    assert bs'[h][pos] == c;
    forall b, i | 0 <= b < |bs'| && 0 <= i < |bs'[b]|
      ensures Sits(bs'[b][i], b, m', forVp)
    {
      assert Sits(bs[b][i], b, m, forVp) && Sits(bs[h][pos], h, m, forVp);
    }
    forall x | x in m' && x != k
      ensures m'[x] in bs'[Hash(x)]
    {
      StillIn(bs[h], pos, c, m[x]);
    }
  }

  lemma CountedKey(c: Conn)
    ensures Counted(c).key == c.key
  {}

  lemma StillIn(s: seq<Conn>, pos: nat, c: Conn, x: Conn)
    requires pos < |s|
    ensures x in s && x != s[pos] ==> x in s[pos := c]
  {
    if x in s && x != s[pos] {
      var j :| 0 <= j < |s| && s[j] == x;
      assert s[pos := c][j] == x;
    }
  }

  /** Buckets of connections, each a list that grows at its head. */
  class ConnTable {
    const buckets: array<seq<Conn>>
    const forVp: bool
    ghost var conns: map<Key, Conn>

    predicate Fits(k: Key) {
      k.VpKey? == forVp
    }

    ghost predicate Shape() {
      buckets.Length == if forVp then VP_HASH_SIZE else VC_HASH_SIZE
    }

    /** The buckets hold what the map has. */
    ghost predicate Valid()
      reads this, buckets
    {
      Shape() && Sound(buckets[..], conns, forVp)
    }

    constructor (forVp: bool)
      ensures Valid() && fresh(buckets) && conns == map[] && this.forVp == forVp
    {
      this.forVp := forVp;
      buckets := new seq<Conn>[if forVp then VP_HASH_SIZE else VC_HASH_SIZE](_ => []);
      conns := map[];
    }

    /** Position of a key in its bucket, or -1. */
    method Lookup(k: Key) returns (pos: int)
      requires Valid() && Fits(k)
      ensures pos == -1 <==> k !in conns
      ensures pos != -1 ==> 0 <= pos < |buckets[Hash(k)]| && buckets[Hash(k)][pos] == conns[k] && conns[k].key == k
    {
      hide Hash;
      HashInTable(k);
      var bucket := buckets[Hash(k)];
      assert bucket == buckets[..][Hash(k)];
      ghost var at :| k in conns ==> 0 <= at < |bucket| && bucket[at] == conns[k];
      for i := 0 to |bucket|
        invariant forall j :: 0 <= j < i ==> bucket[j].key != k
      {
        assert Sits(bucket[i], Hash(k), conns, forVp);
        if bucket[i].key == k {
          return i;
        }
      }
      return -1;
    }

    /** Links a new connection at the head of its bucket. */
    method Insert(c: Conn)
      requires Valid() && Fits(c.key) && c.key !in conns
      modifies this, buckets
      ensures Valid() && conns == old(conns)[c.key := c]
    {
      hide Hash, Sound;
      ghost var bs := buckets[..];
      var h := Hash(c.key);
      HashInTable(c.key);
      SoundInserted(bs, conns, forVp, c);
      buckets[h] := [c] + buckets[h];
      conns := conns[c.key := c];
      assert buckets[..] == bs[h := [c] + bs[h]];
    }

    lemma HashInTable(k: Key)
      requires Shape() && Fits(k)
      ensures Hash(k) < buckets.Length
    {}

    method Unlink(h: nat, i: nat)
      requires Valid() && h < buckets.Length && i < |buckets[h]|
      modifies this`conns, buckets
      ensures Valid() && conns == old(conns) - {old(buckets[h][i].key)}
    {
      hide Hash, Sound;
      ghost var bs := buckets[..];
      var bucket := buckets[h];
      SoundUnlinked(bs, conns, forVp, h, i);
      buckets[h] := bucket[..i] + bucket[i + 1..];
      conns := conns - {bucket[i].key};
      assert buckets[..] == bs[h := bs[h][..i] + bs[h][i + 1..]];
    }

    /** Unlinks the connection that matches in every field, if there is one. */
    method Remove(k: Key, output: string, vpiOut: bv32, vciOut: bv32) returns (found: bool)
      requires Valid() && Fits(k)
      modifies this, buckets
      ensures Valid()
      ensures found == (k in old(conns) && Matches(old(conns)[k], output, vpiOut, vciOut))
      ensures conns == if found then old(conns) - {k} else old(conns)
    {
      hide Hash, Matches;
      var h := Hash(k);
      HashInTable(k);
      var bucket := buckets[h];
      assert bucket == buckets[..][h];
      for i := 0 to |bucket|
        invariant forall j :: 0 <= j < i ==> !(bucket[j].key == k && Matches(bucket[j], output, vpiOut, vciOut))
      {
        assert Sits(bucket[i], h, conns, forVp);
        if bucket[i].key == k && Matches(bucket[i], output, vpiOut, vciOut) {
          Unlink(h, i);
          return true;
        }
      }
      assert k in conns ==> conns[k] in bucket;
      return false;
    }

    /** The creation commands of the entries, bucket by bucket. */
    method Save() returns (commands: seq<Command>)
      requires Valid()
      ensures commands == AsCreates(Flatten(buckets[..]))
    {
      hide Flatten, AsCreates, Sound, ConnTable.Shape;
      ghost var bs := buckets[..];
      SavedNone(bs);
      commands := [];
      for b := 0 to buckets.Length
        invariant commands + AsCreates(Flatten(bs[b..])) == AsCreates(Flatten(bs))
      {
        ghost var before := commands;
        var bucket := buckets[b];
        SavedBucket(bs, b);
        for i := 0 to |bucket|
          invariant commands == before + AsCreates(bucket[..i])
        {
          SavedEntry(bucket, i);
          commands := commands + [AsCreate(bucket[i])];
        }
        assert bucket[..|bucket|] == bucket == bs[b];
      }
    }

    /** Counts one more cell on the connection at a position. */
    method Count(k: Key, pos: nat)
      requires Valid() && k in conns && pos < |buckets[Hash(k)]| && buckets[Hash(k)][pos] == conns[k]
      modifies this, buckets
      ensures Valid() && conns == old(conns)[k := Counted(old(conns)[k])]
    {
      hide Hash, Counted, Sound;
      ghost var bs := buckets[..];
      var h := Hash(k);
      KeyInTable(k);
      var c := Counted(buckets[h][pos]);
      SoundCounted(bs, conns, forVp, h, pos, k);
      buckets[h] := buckets[h][pos := c];
      conns := conns[k := c];
      assert buckets[..] == bs[h := bs[h][pos := c]];
    }

    lemma KeyInTable(k: Key)
      requires Valid() && k in conns
      ensures Hash(k) < buckets.Length && Shape()
    {
      hide Hash;
      HashInTable(k);
    }
  }

  lemma SavedNone(bs: seq<seq<Conn>>)
    ensures bs[0..] == bs && Flatten(bs[|bs|..]) == [] && AsCreates([]) == []
  {}

  lemma SavedBucket(bs: seq<seq<Conn>>, b: nat)
    requires b < |bs|
    ensures AsCreates(Flatten(bs[b..])) == AsCreates(bs[b]) + AsCreates(Flatten(bs[b + 1..]))
    ensures AsCreates(bs[b][..0]) == []
  {
    assert bs[b..][0] == bs[b] && bs[b..][1..] == bs[b + 1..];
  }

  lemma SavedEntry(bucket: seq<Conn>, i: nat)
    requires i < |bucket|
    ensures AsCreates(bucket[..i + 1]) == AsCreates(bucket[..i]) + [AsCreate(bucket[i])]
  {}

  predicate Matches(c: Conn, output: string, vpiOut: bv32, vciOut: bv32) {
    c.output == output && c.vpiOut == vpiOut && c.vciOut == vciOut
  }

  // ---------- Forwarding, on the maps the tables stand for ----------

  datatype State = State(vps: map<Key, Conn>, vcs: map<Key, Conn>)

  function VpHdr(hdr: bv32, vpiOut: bv32): bv32 {
    (hdr & 0x000f_ffff) | (vpiOut << 20)
  }

  function VcHdr(hdr: bv32, vpiOut: bv32, vciOut: bv32): bv32 {
    (hdr & 0xf) | (vpiOut << 20) | (vciOut << 4)
  }

  function VpKeyOf(input: string, hdr: bv32): Key { VpKey(input, VpiOf(hdr)) }
  function VcKeyOf(input: string, hdr: bv32): Key { VcKey(input, VpiOf(hdr), VciOf(hdr)) }

  datatype Option<+T> = None | Some(value: T)

  datatype Route = Route(output: string, hdr: bv32)

  /** Where a cell with a given header goes and the header it leaves with: VP map first, then VC map. */
  function Forward(s: State, input: string, hdr: bv32): Option<Route> {
    var vp, vc := VpKeyOf(input, hdr), VcKeyOf(input, hdr);
    if vp in s.vps then
      Some(Route(s.vps[vp].output, VpHdr(hdr, s.vps[vp].vpiOut)))
    else if vc in s.vcs then
      Some(Route(s.vcs[vc].output, VcHdr(hdr, s.vcs[vc].vpiOut, s.vcs[vc].vciOut)))
    else
      None
  }

  function OutputOf(route: Option<Route>): Option<string> {
    if route.Some? then Some(route.value.output) else None
  }

  /** A routed cell has the header of its route, its payload and the HEC of that header; others stay. */
  predicate Relabelled(route: Option<Route>, before: Cell, after: Cell) {
    after == if route.Some? then MakeCell(route.value.hdr, PayloadOf(before)) else before
  }

  /** The state after a cell: one more on the counter of the connection that took it. */
  function AfterCell(s: State, input: string, hdr: bv32): State {
    var vp, vc := VpKeyOf(input, hdr), VcKeyOf(input, hdr);
    if vp in s.vps then
      s.(vps := s.vps[vp := Counted(s.vps[vp])])
    else if vc in s.vcs then
      s.(vcs := s.vcs[vc := Counted(s.vcs[vc])])
    else
      s
  }

  /** A connection command; a VP command has a VP key and no output VCI. */
  datatype Command =
    | Create(key: Key, output: string, vpiOut: bv32, vciOut: bv32)
    | Delete(key: Key, output: string, vpiOut: bv32, vciOut: bv32)

  predicate WellFormed(op: Command) {
    op.key.VpKey? ==> op.vciOut == 0
  }

  predicate Accepts(nios: set<string>, s: State, op: Command) {
    match op
    case Create(key, output, _, _) =>
      && key.input in nios && output in nios
      && VpKey(key.input, key.vpi) !in s.vps
      && (key.VcKey? ==> key !in s.vcs)
    case Delete(key, output, vpiOut, vciOut) =>
      if key.VpKey? then
        key.input in nios && output in nios && key in s.vps && Matches(s.vps[key], output, vpiOut, vciOut)
      else
        key in s.vcs && Matches(s.vcs[key], output, vpiOut, vciOut)
  }

  /** The state after a command; a refused command changes nothing. */
  function Execute(nios: set<string>, s: State, op: Command): State {
    if !Accepts(nios, s, op) then s
    else match op
      case Create(key, output, vpiOut, vciOut) =>
        var c := Conn(key, output, vpiOut, vciOut, 0);
        if key.VpKey? then s.(vps := s.vps[key := c]) else s.(vcs := s.vcs[key := c])
      case Delete(key, _, _, _) =>
        if key.VpKey? then s.(vps := s.vps - {key}) else s.(vcs := s.vcs - {key})
  }

  // ---------- The switch ----------

  class Switch {
    const nios: set<string>
    const vpTable: ConnTable
    const vcTable: ConnTable
    const hecTable: HecTable
    var cellDrop: bv64
    var sent: seq<(string, seq<byte>)>

    ghost predicate Valid()
      reads vpTable, vpTable.buckets, vcTable, vcTable.buckets, hecTable, hecTable.hecSyndromeTable
    {
      && vpTable.Valid() && vcTable.Valid() && hecTable.Valid()
      && vpTable.forVp && !vcTable.forVp && vpTable.buckets != vcTable.buckets
      && hecTable.hecSyndromeTable as object != vpTable.buckets as object
      && hecTable.hecSyndromeTable as object != vcTable.buckets as object
    }

    ghost function Abstract(): State
      reads vpTable, vcTable
    {
      State(vpTable.conns, vcTable.conns)
    }

    constructor (nios: set<string>, hecTable: HecTable)
      requires hecTable.Valid()
      ensures Valid() && Abstract() == State(map[], map[]) && this.nios == nios && this.hecTable == hecTable
      ensures cellDrop == 0 && sent == []
      ensures fresh(vpTable) && fresh(vpTable.buckets) && fresh(vcTable) && fresh(vcTable.buckets)
    {
      this.nios, this.hecTable := nios, hecTable;
      vpTable := new ConnTable(true);
      vcTable := new ConnTable(false);
      cellDrop, sent := 0, [];
    }

    /** Replaces the header word of a cell and recomputes its HEC. */
    method Rewrite(cell: array<byte>, hdr: bv32)
      requires hecTable.Valid() && cell.Length == CELL_SIZE && cell != hecTable.hecSyndromeTable
      modifies cell
      ensures hecTable.Valid()
      ensures cell[..] == MakeCell(hdr, PayloadOf(old(cell[..]))) && HecValid(cell[..])
    {
      hide Be32, HecAccum, SyndromeTable, HecValid;
      ghost var payload := PayloadOf(cell[..]);
      StoreBe32(cell, 0, hdr);
      assert cell[..4] == Be32(hdr) == Be32(hdr)[..4];
      hecTable.InsertHec(cell);
      assert cell[..] == MakeCell(hdr, payload);
      MakeCellFields(hdr, payload);
    }

    /** VP switching: new VPI, new HEC, one more cell on the connection. */
    method VpSwitch(key: Key, pos: nat, cell: array<byte>) returns (output: string)
      requires Valid() && key in vpTable.conns && pos < |vpTable.buckets[Hash(key)]|
      requires vpTable.buckets[Hash(key)][pos] == vpTable.conns[key]
      requires cell.Length == CELL_SIZE && Separate(cell)
      modifies vpTable, vpTable.buckets, cell
      ensures Valid() && vpTable.conns == old(vpTable.conns)[key := Counted(old(vpTable.conns)[key])]
      ensures cell[..] == MakeCell(VpHdr(HdrOf(old(cell[..])), old(vpTable.conns)[key].vpiOut), PayloadOf(old(cell[..])))
      ensures output == old(vpTable.conns)[key].output
    {
      hide GetBe32, VpHdr, MakeCell, Sound, HecTable.Valid, Hash;
      vpTable.KeyInTable(key);
      var vpc := vpTable.buckets[Hash(key)][pos];
      Rewrite(cell, VpHdr(GetBe32(cell[..]), vpc.vpiOut));
      vpTable.Count(key, pos);
      return vpc.output;
    }

    /** VC switching: new VPI and VCI, new HEC, one more cell on the connection. */
    method VcSwitch(key: Key, pos: nat, cell: array<byte>) returns (output: string)
      requires Valid() && key in vcTable.conns && pos < |vcTable.buckets[Hash(key)]|
      requires vcTable.buckets[Hash(key)][pos] == vcTable.conns[key]
      requires cell.Length == CELL_SIZE && Separate(cell)
      modifies vcTable, vcTable.buckets, cell
      ensures Valid() && vcTable.conns == old(vcTable.conns)[key := Counted(old(vcTable.conns)[key])]
      ensures var c := old(vcTable.conns)[key];
              cell[..] == MakeCell(VcHdr(HdrOf(old(cell[..])), c.vpiOut, c.vciOut), PayloadOf(old(cell[..])))
      ensures output == old(vcTable.conns)[key].output
    {
      hide GetBe32, VcHdr, MakeCell, Sound, HecTable.Valid, Hash;
      vcTable.KeyInTable(key);
      var vcc := vcTable.buckets[Hash(key)][pos];
      Rewrite(cell, VcHdr(GetBe32(cell[..]), vcc.vpiOut, vcc.vciOut));
      vcTable.Count(key, pos);
      return vcc.output;
    }

    /** The cell buffer is not one of the switch's own arrays. */
    ghost predicate Separate(cell: array<byte>) {
      && cell != hecTable.hecSyndromeTable
      && cell as object != vpTable.buckets as object
      && cell as object != vcTable.buckets as object
    }

    /** Finds the connection for a cell and relabels the cell; None if there is no connection. */
    method Relabel(input: string, cell: array<byte>) returns (output: Option<string>)
      requires Valid() && cell.Length == CELL_SIZE && Separate(cell)
      modifies vpTable, vpTable.buckets, vcTable, vcTable.buckets, cell
      ensures Valid()
      ensures Abstract() == AfterCell(old(Abstract()), input, HdrOf(old(cell[..])))
      ensures var route := Forward(old(Abstract()), input, HdrOf(old(cell[..])));
              output == OutputOf(route) && Relabelled(route, old(cell[..]), cell[..])
    {
      hide HdrOf, PayloadOf, VpKeyOf, VcKeyOf, VpHdr, VcHdr;
      hide MakeCell, Counted, Valid, ConnTable.Valid, HecTable.Valid, Hash;
      var hdr := HdrOf(cell[..]);
      var vp, vc := VpKeyOf(input, hdr), VcKeyOf(input, hdr);
      KeysFit(input, hdr);
      TablesValid();
      var pos := vpTable.Lookup(vp);
      if pos != -1 {
        var o := VpSwitch(vp, pos, cell);
        return Some(o);
      }
      pos := vcTable.Lookup(vc);
      if pos != -1 {
        var o := VcSwitch(vc, pos, cell);
        return Some(o);
      }
      return None;
    }

    /** Handles one cell; `linkUp` says whether the output NIO takes the whole cell. */
    method HandleCell(input: string, cell: array<byte>, linkUp: bool) returns (res: int)
      requires Valid() && cell.Length == CELL_SIZE && Separate(cell)
      modifies this, vpTable, vpTable.buckets, vcTable, vcTable.buckets, cell
      ensures Valid()
      ensures Abstract() == AfterCell(old(Abstract()), input, HdrOf(old(cell[..])))
      ensures var route := Forward(old(Abstract()), input, HdrOf(old(cell[..])));
              && Relabelled(route, old(cell[..]), cell[..])
              && if OutputOf(route).Some? && linkUp then
                   res == 0 && cellDrop == old(cellDrop) && sent == old(sent) + [(OutputOf(route).value, cell[..])]
                 else
                   res == -1 && cellDrop == old(cellDrop) + 1 && sent == old(sent)
    {
      hide *;
      var output := Relabel(input, cell);
      if output.None? || !linkUp {
        cellDrop := cellDrop + 1;
        return -1;
      }
      sent := sent + [(output.value, cell[..])];
      return 0;
    }

    lemma KeysFit(input: string, hdr: bv32)
      ensures VpKeyOf(input, hdr).VpKey? && VcKeyOf(input, hdr).VcKey?
    {}

    lemma TablesValid()
      requires Valid()
      ensures vpTable.Valid() && vcTable.Valid() && hecTable.Valid()
      ensures vpTable.forVp && !vcTable.forVp && vpTable != vcTable
    {}

    /** `listening` is whether a listener on the input NIO can be added, asked for only when all else is well. */
    method CreateVpc(input: string, vpiIn: bv32, output: string, vpiOut: bv32, listening: bool) returns (res: int)
      requires Valid()
      modifies this, vpTable, vpTable.buckets
      ensures Valid()
      ensures var op := Create(VpKey(input, vpiIn), output, vpiOut, 0);
              && Abstract() == (if listening then Execute(nios, old(Abstract()), op) else old(Abstract()))
              && res == (if listening && Accepts(nios, old(Abstract()), op) then 0 else -1)
      ensures vcTable.conns == old(vcTable.conns)
      ensures var (k, vps) := (VpKey(input, vpiIn), old(vpTable.conns));
              && (res == 0 <==> listening && input in nios && output in nios && k !in vps)
              && vpTable.conns == if res == 0 then vps[k := Conn(k, output, vpiOut, 0, 0)] else vps
      ensures sent == old(sent) && cellDrop == old(cellDrop)
    {
      hide Sound, HecTable.Valid, Hash;
      var k := VpKey(input, vpiIn);
      if input !in nios || output !in nios {
        return -1;
      }
      var pos := vpTable.Lookup(k);
      if pos != -1 || !listening {
        return -1;
      }
      vpTable.Insert(Conn(k, output, vpiOut, 0, 0));
      return 0;
    }

    method DeleteVpc(input: string, vpiIn: bv32, output: string, vpiOut: bv32) returns (res: int)
      requires Valid()
      modifies this, vpTable, vpTable.buckets
      ensures Valid()
      ensures var op := Delete(VpKey(input, vpiIn), output, vpiOut, 0);
              && Abstract() == Execute(nios, old(Abstract()), op)
              && res == (if Accepts(nios, old(Abstract()), op) then 0 else -1)
      ensures vcTable.conns == old(vcTable.conns)
      ensures var (k, vps) := (VpKey(input, vpiIn), old(vpTable.conns));
              && (res == 0 <==> input in nios && output in nios && k in vps &&
                                vps[k].output == output && vps[k].vpiOut == vpiOut && vps[k].vciOut == 0)
              && vpTable.conns == if res == 0 then vps - {k} else vps
      ensures sent == old(sent) && cellDrop == old(cellDrop)
    {
      hide Sound, HecTable.Valid, Hash;
      if input !in nios || output !in nios {
        return -1;
      }
      var found := vpTable.Remove(VpKey(input, vpiIn), output, vpiOut, 0);
      return if found then 0 else -1;
    }

    method CreateVcc(input: string, vpiIn: bv32, vciIn: bv32, output: string, vpiOut: bv32, vciOut: bv32,
                     listening: bool) returns (res: int)
      requires Valid()
      modifies this, vcTable, vcTable.buckets
      ensures Valid()
      ensures var op := Create(VcKey(input, vpiIn, vciIn), output, vpiOut, vciOut);
              && Abstract() == (if listening then Execute(nios, old(Abstract()), op) else old(Abstract()))
              && res == (if listening && Accepts(nios, old(Abstract()), op) then 0 else -1)
      ensures vpTable.conns == old(vpTable.conns)
      ensures var (k, vcs) := (VcKey(input, vpiIn, vciIn), old(vcTable.conns));
              && (res == 0 <==> listening && input in nios && output in nios && k !in vcs &&
                                VpKey(input, vpiIn) !in vpTable.conns)
              && vcTable.conns == if res == 0 then vcs[k := Conn(k, output, vpiOut, vciOut, 0)] else vcs
      ensures sent == old(sent) && cellDrop == old(cellDrop)
    {
      hide Sound, HecTable.Valid, Hash;
      var k := VcKey(input, vpiIn, vciIn);
      var pos := vpTable.Lookup(VpKey(input, vpiIn));
      if pos != -1 {
        return -1;
      }
      if input !in nios || output !in nios {
        return -1;
      }
      pos := vcTable.Lookup(k);
      if pos != -1 || !listening {
        return -1;
      }
      vcTable.Insert(Conn(k, output, vpiOut, vciOut, 0));
      return 0;
    }

    method DeleteVcc(input: string, vpiIn: bv32, vciIn: bv32, output: string, vpiOut: bv32, vciOut: bv32) returns (res: int)
      requires Valid()
      modifies this, vcTable, vcTable.buckets
      ensures Valid()
      ensures var op := Delete(VcKey(input, vpiIn, vciIn), output, vpiOut, vciOut);
              && Abstract() == Execute(nios, old(Abstract()), op)
              && res == (if Accepts(nios, old(Abstract()), op) then 0 else -1)
      ensures vpTable.conns == old(vpTable.conns)
      ensures var (k, vcs) := (VcKey(input, vpiIn, vciIn), old(vcTable.conns));
              && (res == 0 <==> k in vcs && vcs[k].output == output && vcs[k].vpiOut == vpiOut && vcs[k].vciOut == vciOut)
              && vcTable.conns == if res == 0 then vcs - {k} else vcs
      ensures sent == old(sent) && cellDrop == old(cellDrop)
    {
      hide Sound, HecTable.Valid, Hash;
      var found := vcTable.Remove(VcKey(input, vpiIn, vciIn), output, vpiOut, vciOut);
      return if found then 0 else -1;
    }

    /** The creation commands of every connection, VP connections first, bucket by bucket. */
    method SaveConfig() returns (commands: seq<Command>)
      requires Valid()
      ensures commands == AsCreates(Flatten(vpTable.buckets[..])) + AsCreates(Flatten(vcTable.buckets[..]))
    {
      var vps := vpTable.Save();
      var vcs := vcTable.Save();
      commands := vps + vcs;
    }
  }

  function AsCreate(c: Conn): Command {
    Create(c.key, c.output, c.vpiOut, c.vciOut)
  }

  function AsCreates(cs: seq<Conn>): (ops: seq<Command>)
    ensures |ops| == |cs|
    ensures forall i :: 0 <= i < |cs| ==> ops[i] == AsCreate(cs[i])
  {
    seq(|cs|, i requires 0 <= i < |cs| => AsCreate(cs[i]))
  }

  function Flatten(buckets: seq<seq<Conn>>): seq<Conn> {
    if buckets == [] then [] else buckets[0] + Flatten(buckets[1..])
  }
}
