/** Cisco EEPROMs: bytes packed in 16-bit words, and the type-length-value fields of format version 4. */
module CiscoEeprom {
  import opened Bytes

  function HighByte(w: bv16): byte { ((w >> 8) & 0xff) as byte }
  function LowByte(w: bv16): byte { (w & 0xff) as byte }
  function WithHigh(w: bv16, b: byte): bv16 { (w & 0x00ff) | ((b as bv16) << 8) }
  function WithLow(w: bv16, b: byte): bv16 { (w & 0xff00) | (b as bv16) }

  lemma PackedBytes(w: bv16, b: byte)
    ensures HighByte(WithHigh(w, b)) == b && LowByte(WithHigh(w, b)) == LowByte(w)
    ensures LowByte(WithLow(w, b)) == b && HighByte(WithLow(w, b)) == HighByte(w)
  {}

  /** The bytes of an EEPROM, high byte of each word first. */
  function Unpacked(words: seq<bv16>): (s: seq<byte>)
    ensures |s| == 2 * |words|
  {
    seq(2 * |words|, i requires 0 <= i < 2 * |words| => if i % 2 == 0 then HighByte(words[i / 2]) else LowByte(words[i / 2]))
  }

  /** Each word is its two bytes, the first one its high half. */
  lemma WordOrder(words: seq<bv16>, k: nat)
    requires k < |words|
    ensures ((Unpacked(words)[2 * k] as bv16) << 8) | (Unpacked(words)[2 * k + 1] as bv16) == words[k]
  {
    assert Unpacked(words)[2 * k] == HighByte(words[k]) && Unpacked(words)[2 * k + 1] == LowByte(words[k]);
  }

  /** `s` with as much of `put` as fits from `at` on. */
  function Overwritten(s: seq<byte>, at: nat, put: seq<byte>): (r: seq<byte>)
    ensures |r| == |s|
    ensures forall i :: 0 <= i < |s| ==> r[i] == if at <= i < at + |put| then put[i - at] else s[i]
  {
    seq(|s|, i requires 0 <= i < |s| => if at <= i < at + |put| then put[i - at] else s[i])
  }

  // ---------- Fields ----------

  /** What reading a field at an offset gives: an error, the end mark, or a type, a payload and its length. */
  datatype FieldRead = Bad | End | Field(kind: byte, payload: nat, len: nat)

  function LengthCode(kind: byte): byte { (kind >> 6) & 0x03 }

  /** A fixed length from its code, or a variable one from the byte after the type. */
  function FixedLen(kind: byte): (n: nat)
    ensures 1 <= n <= 4
  {
    if LengthCode(kind) == 0 then 1 else if LengthCode(kind) == 1 then 2 else 4
  }

  function VariableLen(b: byte): (n: nat)
    ensures n < 16
  {
    (b & 0x0f) as bv4 as nat
  }

  function FieldAt(s: seq<byte>, at: nat): (f: FieldRead)
    ensures f.Field? ==> at < f.payload <= |s|
  {
    if at >= |s| then Bad
    else if s[at] == 0xff then End
    else if LengthCode(s[at]) != 0x03 then Field(s[at], at + 1, FixedLen(s[at]))
    else if at + 1 >= |s| then Bad
    else Field(s[at], at + 2, VariableLen(s[at + 1]))
  }

  /** The fields from an offset on, up to the end mark, an error or the end of the data. */
  function Fields(s: seq<byte>, at: nat): (fs: seq<FieldRead>)
    ensures forall i :: 0 <= i < |fs| ==> fs[i].Field? && at < fs[i].payload <= |s|
    decreases if at < |s| then |s| - at else 0
  {
    var f := FieldAt(s, at);
    if !f.Field? then []
    else [f] + if f.payload + f.len < |s| then Fields(s, f.payload + f.len) else []
  }

  const FIRST := 2

  /** The payload offset of the first field of a type, or -1. */
  function Find(fs: seq<FieldRead>, kind: byte): int
    requires forall i :: 0 <= i < |fs| ==> fs[i].Field?
  {
    if fs == [] then -1 else if fs[0].kind == kind then fs[0].payload else Find(fs[1..], kind)
  }

  lemma {:induction false} FindIsFirst(fs: seq<FieldRead>, kind: byte)
    requires forall i :: 0 <= i < |fs| ==> fs[i].Field?
    ensures Find(fs, kind) == -1 <==> forall i :: 0 <= i < |fs| ==> fs[i].kind != kind
    ensures Find(fs, kind) != -1 ==>
              exists i :: 0 <= i < |fs| && fs[i].kind == kind && Find(fs, kind) == fs[i].payload &&
                          forall j :: 0 <= j < i ==> fs[j].kind != kind
  {
    if fs != [] && fs[0].kind != kind {
      FindIsFirst(fs[1..], kind);
      if Find(fs[1..], kind) != -1 {
        var i :| 0 <= i < |fs[1..]| && fs[1..][i].kind == kind && Find(fs[1..], kind) == fs[1..][i].payload &&
                 forall j :: 0 <= j < i ==> fs[1..][j].kind != kind;
        assert fs[i + 1] == fs[1..][i];
        assert forall j :: 0 < j < i + 1 ==> fs[j] == fs[1..][j - 1];
      } else {
        assert forall j :: 0 < j < |fs| ==> fs[j] == fs[1..][j - 1];
      }
    }
  }

  /** Fields do not overlap: each starts where the one before it ends or later. */
  lemma {:induction false} FieldsOrdered(s: seq<byte>, at: nat, i: nat)
    requires i < |Fields(s, at)|
    ensures i > 0 ==> Fields(s, at)[0].payload + Fields(s, at)[0].len < Fields(s, at)[i].payload
  {
    var f := FieldAt(s, at);
    if i > 0 {
      assert Fields(s, at)[i] == Fields(s, f.payload + f.len)[i - 1];
    }
  }

  lemma FieldsStep(s: seq<byte>, at: nat)
    ensures var f := FieldAt(s, at);
            Fields(s, at) ==
              if !f.Field? then []
              else if f.payload + f.len < |s| then [f] + Fields(s, f.payload + f.len)
              else [f]
  {
    hide FieldAt;
  }

  /** A field reads the same from contents that agree on its header. */
  lemma SameHeader(s: seq<byte>, s': seq<byte>, at: nat)
    requires |s'| == |s|
    requires var f := FieldAt(s, at);
             forall k :: at <= k < |s| && (f.Field? ==> k < f.payload) ==> s'[k] == s[k]
    ensures FieldAt(s', at) == FieldAt(s, at)
  {
    hide LengthCode, FixedLen, VariableLen;
  }

  /** Two contents that agree outside the payload of one field have the same fields. */
  lemma {:induction false} FieldsStable(s: seq<byte>, s': seq<byte>, at: nat, i: nat)
    requires |s'| == |s| && i < |Fields(s, at)|
    requires var f := Fields(s, at)[i];
             forall k :: 0 <= k < |s| && !(f.payload <= k < f.payload + f.len) ==> s'[k] == s[k]
    ensures Fields(s', at) == Fields(s, at)
    decreases if at < |s| then |s| - at else 0
  {
    hide Fields, FieldAt;
    var f := FieldAt(s, at);
    FieldsStep(s, at);
    FieldsStep(s', at);
    FieldsOrdered(s, at, i);
    SameHeader(s, s', at);
    if i > 0 {
      FieldsStable(s, s', f.payload + f.len, i - 1);
    } else if f.payload + f.len < |s| {
      SameFields(s, s', f.payload + f.len);
    }
  }

  lemma {:induction false} SameFields(s: seq<byte>, s': seq<byte>, at: nat)
    requires |s'| == |s| && forall k :: at <= k < |s| ==> s'[k] == s[k]
    ensures Fields(s', at) == Fields(s, at)
    decreases if at < |s| then |s| - at else 0
  {
    hide Fields, FieldAt;
    var f := FieldAt(s, at);
    FieldsStep(s, at);
    FieldsStep(s', at);
    SameHeader(s, s', at);
    if f.Field? && f.payload + f.len < |s| {
      SameFields(s, s', f.payload + f.len);
    }
  }

  /** Writing any bytes inside the payload of one field leaves every search as it was, reads back exactly and
      changes no other byte. */
  lemma PayloadWrite(s: seq<byte>, i: nat, at: nat, put: seq<byte>, kind: byte)
    requires i < |Fields(s, FIRST)|
    requires var f := Fields(s, FIRST)[i]; f.payload <= at && at + |put| <= f.payload + f.len && at + |put| <= |s|
    ensures var s' := Overwritten(s, at, put);
            && Fields(s', FIRST) == Fields(s, FIRST)
            && Find(Fields(s', FIRST), kind) == Find(Fields(s, FIRST), kind)
            && s'[at..at + |put|] == put
            && s'[..at] == s[..at] && s'[at + |put|..] == s[at + |put|..]
  {
    hide Fields, Find, Overwritten;
    OverwrittenParts(s, at, put);
    FieldsStable(s, Overwritten(s, at, put), FIRST, i);
  }

  lemma OverwrittenParts(s: seq<byte>, at: nat, put: seq<byte>)
    requires at + |put| <= |s|
    ensures var s' := Overwritten(s, at, put);
            s'[at..at + |put|] == put && s'[..at] == s[..at] && s'[at + |put|..] == s[at + |put|..]
  {}

  lemma OverwriteNothing(s: seq<byte>, at: nat, put: seq<byte>)
    requires put == []
    ensures Overwritten(s, at, put) == s
  {}

  /** One more byte: written if it is in range; if not, nothing that follows would be either. */
  lemma OverwriteNext(s: seq<byte>, at: nat, put: seq<byte>, b: byte, all: seq<byte>)
    requires put + [b] <= all
    ensures at + |put| < |s| ==> Overwritten(s, at, put)[at + |put| := b] == Overwritten(s, at, put + [b])
    ensures at + |put| >= |s| ==> Overwritten(s, at, put) == Overwritten(s, at, all)
  {}

  // ---------- What an encoder writes is what is found ----------

  datatype Entry = Entry(kind: byte, payload: seq<byte>)

  /** Types below 0xC0 have payloads of 1, 2 or 4 bytes, by their quarter of the range; those from 0xC0 on have up
      to 15, and 0xFF is no type. */
  predicate Encodable(e: Entry) {
    if e.kind < 0x40 then |e.payload| == 1
    else if e.kind < 0x80 then |e.payload| == 2
    else if e.kind < 0xc0 then |e.payload| == 4
    else e.kind != 0xff && |e.payload| < 16
  }

  /** An entry in the EEPROM: its type, its length if the type does not say it, its payload. */
  function EntryBytes(e: Entry): (b: seq<byte>)
    requires Encodable(e)
  {
    if e.kind < 0xc0 then [e.kind] + e.payload else [e.kind, ByteOf(|e.payload|)] + e.payload
  }

  function AllBytes(es: seq<Entry>): seq<byte>
    requires forall i :: 0 <= i < |es| ==> Encodable(es[i])
  {
    if es == [] then [] else EntryBytes(es[0]) + AllBytes(es[1..])
  }

  lemma CodeOf(kind: byte)
    ensures kind < 0x40 ==> LengthCode(kind) != 0x03 && FixedLen(kind) == 1
    ensures 0x40 <= kind < 0x80 ==> LengthCode(kind) != 0x03 && FixedLen(kind) == 2
    ensures 0x80 <= kind < 0xc0 ==> LengthCode(kind) != 0x03 && FixedLen(kind) == 4
    ensures kind >= 0xc0 ==> LengthCode(kind) == 0x03
  {}

  lemma ShortByte(b: byte, n: nat)
    requires n < 16 && b == n as byte
    ensures VariableLen(b) == n
  {}

  lemma VariableBack(n: nat)
    requires n < 16
    ensures VariableLen(ByteOf(n)) == n
  {
    ShortByte(ByteOf(n), n);
  }

  /** The payload of the `i`-th entry is in the data where the `i`-th field says, and their types agree. */
  ghost predicate Holds(s: seq<byte>, f: FieldRead, e: Entry) {
    && f.Field? && f.kind == e.kind && f.len == |e.payload| && f.payload + f.len <= |s|
    && s[f.payload..f.payload + f.len] == e.payload
  }

  lemma EntryRead(s: seq<byte>, at: nat, e: Entry)
    requires Encodable(e) && at + |EntryBytes(e)| <= |s| && s[at..at + |EntryBytes(e)|] == EntryBytes(e)
    ensures var f := FieldAt(s, at); Holds(s, f, e) && f.payload + f.len == at + |EntryBytes(e)|
  {
    CodeOf(e.kind);
    var b := EntryBytes(e);
    assert s[at] == b[0];
    if e.kind >= 0xc0 {
      VariableBack(|e.payload|);
      assert s[at + 1] == b[1];
      assert s[at + 2..at + |b|] == b[2..];
    } else {
      assert s[at + 1..at + |b|] == b[1..];
    }
    hide LengthCode, FixedLen, VariableLen, ByteOf;
  }

  /** Entries written one after the other and ended by the end mark are exactly the fields found, payload by
      payload, whatever follows. */
  lemma {:induction false} EntriesFound(s: seq<byte>, at: nat, es: seq<Entry>)
    requires forall i :: 0 <= i < |es| ==> Encodable(es[i])
    requires at + |AllBytes(es)| < |s| && s[at..at + |AllBytes(es)|] == AllBytes(es) && s[at + |AllBytes(es)|] == 0xff
    ensures |Fields(s, at)| == |es|
    ensures forall i :: 0 <= i < |es| ==> Holds(s, Fields(s, at)[i], es[i])
    decreases |es|
  {
    hide FieldAt, Holds, EntryBytes, Encodable, Fields;
    FieldsStep(s, at);
    if es == [] {
      EndMark(s, at);
    } else {
      var b, rest := EntryBytes(es[0]), AllBytes(es[1..]);
      var after := at + |b|;
      TwoParts(s, at, b, rest);
      EntryRead(s, at, es[0]);
      FieldIs(s, at, es[0]);
      EntriesFound(s, after, es[1..]);
      forall i | 0 < i < |es|
        ensures Holds(s, Fields(s, at)[i], es[i])
      {
        assert Fields(s, at)[i] == Fields(s, after)[i - 1] && es[i] == es[1..][i - 1];
      }
    }
  }

  lemma TwoParts(s: seq<byte>, at: nat, a: seq<byte>, b: seq<byte>)
    requires at + |a + b| <= |s| && s[at..at + |a + b|] == a + b
    ensures s[at..at + |a|] == a && s[at + |a|..at + |a| + |b|] == b
  {
    assert s[at..at + |a + b|][..|a|] == a && s[at..at + |a + b|][|a|..] == b;
  }

  lemma EndMark(s: seq<byte>, at: nat)
    requires at < |s| && s[at] == 0xff
    ensures FieldAt(s, at) == End
  {}

  lemma FieldIs(s: seq<byte>, at: nat, e: Entry)
    requires Holds(s, FieldAt(s, at), e)
    ensures FieldAt(s, at).Field?
  {
    hide FieldAt;
  }

  /** So a search finds the payload of the first entry of a type, and fails if there is none. */
  lemma {:induction false} SearchFinds(s: seq<byte>, fs: seq<FieldRead>, es: seq<Entry>, kind: byte)
    requires |fs| == |es| && forall i :: 0 <= i < |es| ==> Holds(s, fs[i], es[i])
    ensures forall i :: 0 <= i < |fs| ==> fs[i].Field?
    ensures Find(fs, kind) == -1 <==> forall i :: 0 <= i < |es| ==> es[i].kind != kind
    ensures forall i :: 0 <= i < |es| && es[i].kind == kind && (forall j :: 0 <= j < i ==> es[j].kind != kind) ==>
              var p := Find(fs, kind); 0 <= p <= p + |es[i].payload| <= |s| && s[p..p + |es[i].payload|] == es[i].payload
  {
    FindIsFirst(fs, kind);
  }

  // ---------- The EEPROM ----------

  class Eeprom {
    var data: array<bv16>

    ghost function Contents(): seq<byte>
      reads this, data
    {
      Unpacked(data[..])
    }

    constructor (words: array<bv16>)
      ensures data == words
    {
      data := words;
    }

    method GetByte(offset: nat) returns (ok: bool, val: byte)
      ensures ok <==> offset < |Contents()|
      ensures val == if ok then Contents()[offset] else 0xff
    {
      hide HighByte, LowByte;
      if offset >= 2 * data.Length {
        return false, 0xff;
      }
      var tmp := data[offset / 2];
      val := if offset % 2 == 0 then HighByte(tmp) else LowByte(tmp);
      ok := true;
    }

    method SetByte(offset: nat, val: byte) returns (ok: bool)
      modifies data
      ensures ok <==> offset < |old(Contents())|
      ensures Contents() == if ok then old(Contents())[offset := val] else old(Contents())
    {
      hide HighByte, LowByte, WithHigh, WithLow;
      if offset >= 2 * data.Length {
        return false;
      }
      var tmp := data[offset / 2];
      PackedBytes(tmp, val);
      data[offset / 2] := if offset % 2 == 1 then WithLow(tmp, val) else WithHigh(tmp, val);
      assert Contents() == old(Contents())[offset := val];
      ok := true;
    }

    /** Reads a region; stops at the first byte out of range, having stored 0xff for it. */
    method GetRegion(offset: nat, dst: array<byte>, n: nat) returns (ok: bool)
      requires n <= dst.Length && dst != (data as object)
      modifies dst
      ensures data == old(data) && data[..] == old(data[..])
      ensures ok <==> n == 0 || offset + n <= |Contents()|
      ensures ok ==> dst[..n] == (if n == 0 then [] else Contents()[offset..offset + n])
      ensures !ok ==>
                var k := if offset < |Contents()| then |Contents()| - offset else 0;
                && k < n && dst[k] == 0xff && dst[k + 1..] == old(dst[k + 1..])
                && forall i :: 0 <= i < k ==> dst[i] == Contents()[offset + i]
      ensures dst[n..] == old(dst[n..])
    {
      for i := 0 to n
        invariant data[..] == old(data[..]) && (i > 0 ==> offset + i <= |Contents()|)
        invariant forall k :: 0 <= k < i ==> dst[k] == Contents()[offset + k]
        invariant dst[i..] == old(dst[i..])
      {
        var got, val := GetByte(offset + i);
        dst[i] := val;
        if !got {
          return false;
        }
      }
      ok := true;
    }

    /** Writes a region; what is in range is written even when the end is reached. */
    method SetRegion(offset: nat, src: array<byte>, n: nat) returns (ok: bool)
      requires n <= src.Length && src != (data as object)
      modifies data
      ensures ok <==> n == 0 || offset + n <= |old(Contents())|
      ensures Contents() == Overwritten(old(Contents()), offset, src[..n])
      ensures src[..] == old(src[..])
    {
      OverwriteNothing(Contents(), offset, src[..0]);
      hide Unpacked, Overwritten;
      for i := 0 to n
        invariant i > 0 ==> offset + i <= |Contents()|
        invariant Contents() == Overwritten(old(Contents()), offset, src[..i])
      {
        OverwriteNext(old(Contents()), offset, src[..i], src[i], src[..n]);
        var done := SetByte(offset + i, src[i]);
        if !done {
          return false;
        }
      }
      ok := true;
    }

    /** Reads the field at an offset: 1 for a field, 0 for the end mark, -1 for an error. */
    method GetField(offset: nat) returns (rc: int, kind: byte, len: nat, after: nat)
      ensures match FieldAt(Contents(), offset)
              case Bad => rc == -1
              case End => rc == 0 && kind == 0xff
              case Field(k, p, l) => rc == 1 && kind == k && after == p && len == l
    {
      hide LengthCode, FixedLen, VariableLen;
      var ok, tmp;
      len, after := 0, offset;
      ok, kind := GetByte(after);
      after := after + 1;
      if !ok {
        return -1, kind, len, after;
      }
      if kind == 0xff {
        return 0, kind, len, after;
      }
      if LengthCode(kind) == 0x03 {
        ok, tmp := GetByte(after);
        after := after + 1;
        if !ok {
          return -1, kind, len, after;
        }
        len := VariableLen(tmp);
      } else {
        len := FixedLen(kind);
      }
      rc := 1;
    }

    /** The payload offset of the first field of a type. */
    method FindField(kind: byte) returns (ok: bool, offset: nat)
      ensures ok <==> Find(Fields(Contents(), 2), kind) != -1
      ensures ok ==> offset == Find(Fields(Contents(), 2), kind)
    {
      hide FieldAt;
      var at, more := FIRST, true;
      ok, offset := false, 0;
      while more
        invariant !ok
        invariant if more then Find(Fields(Contents(), FIRST), kind) == Find(Fields(Contents(), at), kind)
                  else Find(Fields(Contents(), FIRST), kind) == -1
        decreases more, if at < |Contents()| then |Contents()| - at else 0
      {
        var rc, k, len, after := GetField(at);
        if rc < 1 {
          more := false;
        } else if k == kind {
          return true, after;
        } else {
          ghost var fs := Fields(Contents(), at);
          assert fs[0].kind != kind && Find(fs, kind) == Find(fs[1..], kind);
          at := after + len;
          more := at < 2 * data.Length;
        }
      }
    }
  }
}
