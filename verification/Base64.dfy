/** Base64 (section 6.8 of RFC 2045): the encoder, the decoder, and the round trips between them. */
module Base64 {
  import opened Bytes

  const PAD: byte := 0x3d
  const NUL: byte := 0
  const CR: byte := 0x0d

  /** The digit of a 6-bit value: A-Z, a-z, 0-9, plus, slash. */
  function Digit(v: byte): byte {
    if v < 26 then v + 0x41
    else if v < 52 then v - 26 + 0x61
    else if v < 62 then v - 52 + 0x30
    else if v == 62 then 0x2b else 0x2f
  }

  predicate IsDigit(c: byte) {
    (0x41 <= c <= 0x5a) || (0x61 <= c <= 0x7a) || (0x30 <= c <= 0x39) || c == 0x2b || c == 0x2f
  }

  /** The 6-bit value of a digit. */
  function Value(c: byte): byte {
    if 0x41 <= c <= 0x5a then c - 0x41
    else if 0x61 <= c <= 0x7a then c - 0x61 + 26
    else if 0x30 <= c <= 0x39 then c - 0x30 + 52
    else if c == 0x2b then 62 else 63
  }

  /** The digits are the capitals, the small letters and the figures, each in order, then plus and slash. */
  lemma DigitOrder(v: byte)
    requires v < 63
    ensures Digit(v + 1) == match v
                            case 25 => 'a' as byte
                            case 51 => '0' as byte
                            case 61 => '+' as byte
                            case 62 => '/' as byte
                            case _ => Digit(v) + 1
    ensures Digit(0) == 'A' as byte && Digit(25) == 'Z' as byte && Digit(51) == 'z' as byte && Digit(61) == '9' as byte
  {}

  lemma DigitValue(v: byte)
    requires v < 64
    ensures IsDigit(Digit(v)) && Value(Digit(v)) == v && Digit(v) != PAD && Digit(v) != NUL && Digit(v) != CR
  {}

  lemma ValueDigit(c: byte)
    requires IsDigit(c)
    ensures Value(c) < 64 && Digit(Value(c)) == c && c != PAD && c != NUL && c != CR
  {}

  // The four 6-bit values of three bytes, and the bytes back.
  function Six1(a: byte): byte { a >> 2 }
  function Six2(a: byte, b: byte): byte { ((a << 4) & 0x30) | (b >> 4) }
  function Six3(b: byte, c: byte): byte { ((b << 2) & 0x3c) | (c >> 6) }
  function Six4(c: byte): byte { c & 0x3f }
  function Byte1(v: byte, w: byte): byte { (v << 2) | (w >> 4) }
  function Byte2(w: byte, x: byte): byte { ((w << 4) & 0xf0) | (x >> 2) }
  function Byte3(x: byte, y: byte): byte { ((x << 6) & 0xc0) | y }

  lemma BytesBack(a: byte, b: byte, c: byte)
    ensures Six1(a) < 64 && Six2(a, b) < 64 && Six3(b, c) < 64 && Six4(c) < 64
    ensures Byte1(Six1(a), Six2(a, b)) == a && Byte2(Six2(a, b), Six3(b, c)) == b && Byte3(Six3(b, c), Six4(c)) == c
  {}

  /** Three bytes and their four 6-bit values are the same 24-bit number, highest digit first. */
  lemma SameNumber(a: byte, b: byte, c: byte)
    ensures (a as bv32) * 0x1_0000 + (b as bv32) * 0x100 + (c as bv32) ==
            (Six1(a) as bv32) * 0x4_0000 + (Six2(a, b) as bv32) * 0x1000 + (Six3(b, c) as bv32) * 0x40 + (Six4(c) as bv32)
  {}

  lemma SixesBack(v: byte, w: byte, x: byte, y: byte)
    requires v < 64 && w < 64 && x < 64 && y < 64
    ensures var a, b, c := Byte1(v, w), Byte2(w, x), Byte3(x, y);
            && Six1(a) == v && Six2(a, b) == w && Six3(b, c) == x && Six4(c) == y
            && (Six3(b, 0) == x <==> x & 3 == 0) && (Six2(a, 0) == w <==> w & 15 == 0)
  {}

  lemma SpareBits(a: byte, b: byte)
    ensures Six2(a, 0) & 15 == 0 && Six3(b, 0) & 3 == 0
  {}

  function Quad(a: byte, b: byte, c: byte): seq<byte> {
    [Digit(Six1(a)), Digit(Six2(a, b)), Digit(Six3(b, c)), Digit(Six4(c))]
  }

  /** The base64 text of some bytes. */
  function Encoded(s: seq<byte>): (t: seq<byte>)
    ensures |t| == 4 * ((|s| + 2) / 3)
  {
    if |s| == 0 then []
    else if |s| == 1 then [Digit(Six1(s[0])), Digit(Six2(s[0], 0)), PAD, PAD]
    else if |s| == 2 then [Digit(Six1(s[0])), Digit(Six2(s[0], s[1])), Digit(Six3(s[1], 0)), PAD]
    else Quad(s[0], s[1], s[2]) + Encoded(s[3..])
  }

  /** What a decoding returns and what it has written by then. */
  datatype Decoding = Decoding(ret: int, out: seq<byte>)

  /** `len` bytes are within the limit, if there is one. */
  predicate Fits(len: nat, maxlen: int) {
    maxlen == 0 || len <= maxlen
  }

  /** Four characters that make a group. */
  predicate Readable(t: seq<byte>) {
    |t| >= 4 && IsDigit(t[0]) && IsDigit(t[1]) && (t[2] == PAD || IsDigit(t[2])) && (t[3] == PAD || IsDigit(t[3]))
  }

  lemma NulAfterGroup(t: seq<byte>)
    requires NUL in t && Readable(t)
    ensures NUL in t[4..]
  {
    var i :| 0 <= i < |t| && t[i] == NUL;
    assert t[4..][i - 4] == NUL;
  }

  /** The decoder from the start of a group, with `out` already written; the text ends with a NUL. */
  function DecodeFrom(t: seq<byte>, maxlen: int, out: seq<byte>): (d: Decoding)
    requires NUL in t
    decreases |t|, 1
  {
    if !Readable(t) then Decoding(-1, out)
    else
      NulAfterGroup(t);
      Group(t, maxlen, out)
  }

  function Group(t: seq<byte>, maxlen: int, out: seq<byte>): (d: Decoding)
    requires |t| >= 4 && NUL in t[4..]
    decreases |t|, 0
  {
    var v, w := Value(t[0]), Value(t[1]);
    var out1 := out + [Byte1(v, w)];
    if !Fits(|out1|, maxlen) then Decoding(-1, out)
    else if t[2] == PAD then After(t[3], t[4..], maxlen, out1)
    else
      var x := Value(t[2]);
      var out2 := out1 + [Byte2(w, x)];
      if !Fits(|out2|, maxlen) then Decoding(-1, out1)
      else if t[3] == PAD then After(t[3], t[4..], maxlen, out2)
      else
        var out3 := out2 + [Byte3(x, Value(t[3]))];
        if !Fits(|out3|, maxlen) then Decoding(-1, out2) else After(t[3], t[4..], maxlen, out3)
  }

  /** Goes on with the next group, unless the text or the last group has ended. */
  function After(last: byte, t: seq<byte>, maxlen: int, out: seq<byte>): (d: Decoding)
    requires NUL in t
    decreases |t|, 2
  {
    if t[0] == NUL || t[0] == CR || last == PAD then Decoding(|out|, out) else DecodeFrom(t, maxlen, out)
  }

  lemma NulLater(t: seq<byte>)
    requires NUL in t && t[0] != NUL
    ensures |t| > 1 && NUL in t[1..]
  {
    var i :| 0 <= i < |t| && t[i] == NUL;
    assert t[1..][i - 1] == NUL;
  }

  /** The whole decoder: a plus and a space are skipped, a text that starts with a carriage return is empty. */
  function Decoded(t: seq<byte>, maxlen: int): (d: Decoding)
    requires NUL in t
  {
    var t' := Skipped(t);
    if t'[0] == CR then Decoding(0, []) else DecodeFrom(t', maxlen, [])
  }

  function Skipped(t: seq<byte>): (t': seq<byte>)
    requires NUL in t
    ensures NUL in t'
  {
    if t[0] == 0x2b then
      NulLater(t);
      if t[1] == 0x20 then
        NulLater(t[1..]);
        t[2..]
      else t
    else t
  }

  // ---------- Round trips ----------

  /** What may follow an encoding: a NUL or a carriage return, or after padding anything up to a NUL. */
  predicate Stops(s: seq<byte>, rest: seq<byte>) {
    NUL in rest && (rest[0] == 0x00 || rest[0] == 0x0d || |s| % 3 != 0)
  }

  lemma NulIn(t: seq<byte>, rest: seq<byte>)
    requires NUL in rest
    ensures NUL in t + rest
  {
    var i :| 0 <= i < |rest| && rest[i] == NUL;
    assert (t + rest)[|t| + i] == NUL;
  }

  /** One full group: three bytes more, or an error if they do not fit. */
  lemma FullGroup(a: byte, b: byte, c: byte, rest: seq<byte>, maxlen: int, out: seq<byte>)
    requires NUL in rest
    ensures Readable(Quad(a, b, c) + rest) && NUL in Quad(a, b, c) + rest
    ensures var d := DecodeFrom(Quad(a, b, c) + rest, maxlen, out);
            if Fits(|out| + 3, maxlen) && Fits(|out|, maxlen) then d == After(Digit(Six4(c)), rest, maxlen, out + [a, b, c])
            else Fits(|out|, maxlen) ==> d.ret == -1
    ensures Digit(Six4(c)) != PAD
  {
    BytesBack(a, b, c);
    DigitValue(Six1(a));
    DigitValue(Six2(a, b));
    DigitValue(Six3(b, c));
    DigitValue(Six4(c));
    hide Digit, IsDigit, Value, Six1, Six2, Six3, Six4, Byte1, Byte2, Byte3, After;
    NulIn(Quad(a, b, c), rest);
    var t := Quad(a, b, c) + rest;
    assert t[4..] == rest;
    assert DecodeFrom(t, maxlen, out) == Group(t, maxlen, out);
    assert out + [a] + [b] + [c] == out + [a, b, c];
  }

  /** The last group, of one or two bytes. */
  lemma LastGroup(s: seq<byte>, rest: seq<byte>, maxlen: int, out: seq<byte>)
    requires 1 <= |s| <= 2 && Stops(s, rest) && Fits(|out|, maxlen)
    ensures NUL in Encoded(s) + rest
    ensures var d := DecodeFrom(Encoded(s) + rest, maxlen, out);
            if Fits(|out| + |s|, maxlen) then d == Decoding(|out| + |s|, out + s) else d.ret == -1
  {
    var a, b := s[0], if |s| > 1 then s[1] else 0;
    BytesBack(a, b, 0);
    DigitValue(Six1(a));
    DigitValue(Six2(a, b));
    DigitValue(Six3(b, 0));
    hide Digit, IsDigit, Value, Six1, Six2, Six3, Six4, Byte1, Byte2, Byte3;
    NulIn(Encoded(s), rest);
    var t := Encoded(s) + rest;
    assert t[4..] == rest;
    assert t[0] == Digit(Six1(a)) && t[1] == Digit(Six2(a, b)) && t[3] == PAD;
    assert t[2] == if |s| == 1 then PAD else Digit(Six3(b, 0));
    assert DecodeFrom(t, maxlen, out) == Group(t, maxlen, out);
    assert After(PAD, rest, maxlen, out + s) == Decoding(|out + s|, out + s);
    assert out + s == if |s| == 1 then out + [a] else out + [a] + [b];
  }

  /** Decoding an encoding gives the bytes back when they fit, and an error exactly when they do not. */
  lemma {:induction false} DecodeEncoded(s: seq<byte>, rest: seq<byte>, maxlen: int, out: seq<byte>)
    requires s != [] && Stops(s, rest) && Fits(|out|, maxlen)
    ensures NUL in Encoded(s) + rest
    ensures var d := DecodeFrom(Encoded(s) + rest, maxlen, out);
            if Fits(|out| + |s|, maxlen) then d == Decoding(|out| + |s|, out + s) else d.ret == -1
    decreases |s|
  {
    hide Digit, IsDigit, Six1, Six2, Six3, Six4, DecodeFrom, Quad, Readable;
    NulIn(Encoded(s), rest);
    if |s| <= 2 {
      LastGroup(s, rest, maxlen, out);
    } else {
      var more := Encoded(s[3..]) + rest;
      NulIn(Encoded(s[3..]), rest);
      assert Encoded(s) + rest == Quad(s[0], s[1], s[2]) + more;
      FullGroup(s[0], s[1], s[2], more, maxlen, out);
      assert out + s == out + [s[0], s[1], s[2]] + s[3..];
      if |s| == 3 {
        assert Encoded(s[3..]) == [] && more == rest;
      } else if Fits(|out| + 3, maxlen) {
        DecodeEncoded(s[3..], rest, maxlen, out + [s[0], s[1], s[2]]);
        EncodedStarts(s[3..]);
      }
    }
  }

  lemma EncodedStarts(s: seq<byte>)
    requires s != []
    ensures IsDigit(Encoded(s)[0]) && IsDigit(Encoded(s)[1]) && Encoded(s)[0] != NUL && Encoded(s)[0] != CR
    ensures Encoded(s)[1] != 0x20
  {
    hide Digit, IsDigit, Six1, Six2, Six3, Six4;
    var b := if |s| > 1 then s[1] else 0;
    BytesBack(s[0], b, 0);
    DigitValue(Six1(s[0]));
    DigitValue(Six2(s[0], b));
    DigitNotSpace(Encoded(s)[1]);
  }

  lemma DigitNotSpace(c: byte)
    requires IsDigit(c)
    ensures c != 0x20
  {}

  /** Round trip: decoding the encoding of a non-empty string of bytes returns it, if the limit allows it, whatever
      ends the text, and with or without a plus and a space before it. */
  lemma RoundTripBytes(prefix: seq<byte>, s: seq<byte>, rest: seq<byte>, maxlen: int)
    requires s != [] && Stops(s, rest) && (prefix == [] || prefix == [0x2b, 0x20])
    ensures NUL in prefix + (Encoded(s) + rest)
    ensures var d := Decoded(prefix + (Encoded(s) + rest), maxlen);
            if Fits(|s|, maxlen) then d == Decoding(|s|, s) else d.ret == -1
  {
    hide DecodeFrom, Encoded, Decoded;
    NulIn(Encoded(s), rest);
    NulIn(prefix, Encoded(s) + rest);
    PrefixSkipped(prefix, s, rest, maxlen);
    var t := Encoded(s) + rest;
    if Fits(0, maxlen) {
      DecodeEncoded(s, rest, maxlen, []);
      assert [] + s == s;
    } else {
      NothingFits(t, maxlen);
    }
  }

  lemma PrefixSkipped(prefix: seq<byte>, s: seq<byte>, rest: seq<byte>, maxlen: int)
    requires s != [] && NUL in Encoded(s) + rest && (prefix == [] || prefix == [0x2b, 0x20])
    requires NUL in prefix + (Encoded(s) + rest)
    ensures Decoded(prefix + (Encoded(s) + rest), maxlen) == DecodeFrom(Encoded(s) + rest, maxlen, [])
  {
    hide Encoded, IsDigit, DecodeFrom;
    EncodedStarts(s);
    var t := Encoded(s) + rest;
    if prefix == [] {
      assert prefix + t == t && Skipped(t) == t;
    } else {
      assert (prefix + t)[0] == 0x2b && (prefix + t)[1] == 0x20 && (prefix + t)[2..] == t;
    }
  }

  /** A text that starts with a carriage return decodes to nothing, without an error. */
  lemma EmptyLine(t: seq<byte>, maxlen: int)
    requires t != [] && t[0] == 0x0d && NUL in t
    ensures Decoded(t, maxlen) == Decoding(0, [])
  {}

  /** With a negative limit nothing fits. */
  lemma NothingFits(t: seq<byte>, maxlen: int)
    requires NUL in t && maxlen < 0
    ensures DecodeFrom(t, maxlen, []).ret == -1
  {}

  /** A canonical text: whole groups of digits, padding only at the end, with its spare bits zero. */
  predicate Canonical(t: seq<byte>) {
    |t| % 4 == 0 && (forall i :: 0 <= i < |t| - 2 ==> IsDigit(t[i])) && (t != [] ==> CanonicalEnd(t))
  }

  predicate CanonicalEnd(t: seq<byte>)
    requires |t| >= 4
  {
    var x, y, z := t[|t| - 3], t[|t| - 2], t[|t| - 1];
    (IsDigit(y) && IsDigit(z)) || (IsDigit(y) && Value(y) & 3 == 0 && z == PAD) ||
    (Value(x) & 15 == 0 && y == PAD && z == PAD)
  }

  lemma QuadDigits(a: byte, b: byte, c: byte)
    ensures forall d :: d in Quad(a, b, c) ==> IsDigit(d)
  {
    hide Digit, IsDigit, Value, Six1, Six2, Six3, Six4;
    BytesBack(a, b, c);
    DigitValue(Six1(a));
    DigitValue(Six2(a, b));
    DigitValue(Six3(b, c));
    DigitValue(Six4(c));
  }

  lemma LastCanonical(s: seq<byte>)
    requires 1 <= |s| <= 2
    ensures Canonical(Encoded(s))
  {
    hide Digit, IsDigit, Value, Six1, Six2, Six3;
    var a, b := s[0], if |s| > 1 then s[1] else 0;
    BytesBack(a, b, 0);
    DigitValue(Six1(a));
    DigitValue(Six2(a, b));
    DigitValue(Six3(b, 0));
    SpareBits(a, b);
  }

  /** A full group before a canonical text. */
  lemma GroupCanonical(q: seq<byte>, r: seq<byte>)
    requires |q| == 4 && (forall d :: d in q ==> IsDigit(d)) && Canonical(r)
    ensures Canonical(q + r)
  {
    hide IsDigit, Value;
    assert forall i :: 0 <= i < 4 ==> q[i] in q;
    if r != [] {
      hide Canonical;
      CanonicalParts(r);
      hide CanonicalEnd;
      LastThree(q, r);
      MakeCanonical(q + r);
    }
  }

  lemma CanonicalParts(t: seq<byte>)
    requires Canonical(t) && t != []
    ensures |t| % 4 == 0 && |t| >= 4 && (forall i :: 0 <= i < |t| - 2 ==> IsDigit(t[i])) && CanonicalEnd(t)
  {}

  lemma LastThree(q: seq<byte>, r: seq<byte>)
    requires |r| >= 4
    ensures CanonicalEnd(q + r) == CanonicalEnd(r)
  {}

  lemma MakeCanonical(t: seq<byte>)
    requires |t| % 4 == 0 && |t| >= 4 && (forall i :: 0 <= i < |t| - 2 ==> IsDigit(t[i])) && CanonicalEnd(t)
    ensures Canonical(t)
  {}

  lemma {:induction false} EncodedCanonical(s: seq<byte>)
    ensures Canonical(Encoded(s))
    decreases |s|
  {
    hide IsDigit, Value, Quad, CanonicalEnd;
    if 1 <= |s| <= 2 {
      LastCanonical(s);
    } else if s != [] {
      hide Canonical;
      QuadDigits(s[0], s[1], s[2]);
      QuadLength(s[0], s[1], s[2]);
      EncodedCanonical(s[3..]);
      GroupCanonical(Quad(s[0], s[1], s[2]), Encoded(s[3..]));
    }
  }

  lemma QuadLength(a: byte, b: byte, c: byte)
    ensures |Quad(a, b, c)| == 4
  {}

  /** Four digits are the encoding of three bytes. */
  lemma QuadOf(d1: byte, d2: byte, d3: byte, d4: byte) returns (a: byte, b: byte, c: byte)
    requires IsDigit(d1) && IsDigit(d2) && IsDigit(d3) && IsDigit(d4)
    ensures Quad(a, b, c) == [d1, d2, d3, d4]
  {
    hide Digit, IsDigit, Value, Six1, Six2, Six3, Six4, Byte1, Byte2, Byte3;
    var v, w, x, y := Value(d1), Value(d2), Value(d3), Value(d4);
    ValueDigit(d1);
    ValueDigit(d2);
    ValueDigit(d3);
    ValueDigit(d4);
    SixesBack(v, w, x, y);
    a, b, c := Byte1(v, w), Byte2(w, x), Byte3(x, y);
  }

  /** A padded group is the encoding of one or two bytes. */
  lemma PaddedOf(t: seq<byte>) returns (s: seq<byte>)
    requires |t| == 4 && Canonical(t) && !IsDigit(t[3])
    ensures Encoded(s) == t
  {
    hide Digit, IsDigit, Value, Six1, Six2, Six3, Six4, Byte1, Byte2, Byte3;
    var v, w, x := Value(t[0]), Value(t[1]), if IsDigit(t[2]) then Value(t[2]) else 0;
    ValueDigit(t[0]);
    ValueDigit(t[1]);
    if IsDigit(t[2]) {
      ValueDigit(t[2]);
    }
    SixesBack(v, w, x, 0);
    s := if t[2] == PAD then [Byte1(v, w)] else [Byte1(v, w), Byte2(w, x)];
  }

  /** Every canonical text is the encoding of some bytes. */
  lemma {:induction false} CanonicalIsEncoded(t: seq<byte>) returns (s: seq<byte>)
    requires Canonical(t)
    ensures Encoded(s) == t
    decreases |t|
  {
    hide IsDigit, Value, Quad;
    if t == [] {
      s := [];
    } else if |t| == 4 && !IsDigit(t[3]) {
      s := PaddedOf(t);
    } else {
      CanonicalTail(t);
      var a, b, c := QuadOf(t[0], t[1], t[2], t[3]);
      var rest := CanonicalIsEncoded(t[4..]);
      s := [a, b, c] + rest;
      assert s[3..] == rest;
      assert t == [t[0], t[1], t[2], t[3]] + t[4..];
    }
  }

  lemma CanonicalTail(t: seq<byte>)
    requires Canonical(t) && t != [] && (|t| == 4 ==> IsDigit(t[3]))
    ensures |t| >= 4 && Canonical(t[4..]) && IsDigit(t[0]) && IsDigit(t[1]) && IsDigit(t[2]) && IsDigit(t[3])
  {
    PadIsNoDigit();
    hide IsDigit, Value;
    var r := t[4..];
    assert forall i :: 0 <= i < |r| ==> r[i] == t[i + 4];
  }

  lemma PadIsNoDigit()
    ensures !IsDigit(PAD)
  {}

  /** Round trip: a non-empty text is canonical exactly when it is an encoding, and then decoding it and
      encoding the result gives it back. */
  lemma RoundTripText(t: seq<byte>)
    requires t != []
    ensures NUL in t + [NUL]
    ensures Canonical(t) <==> exists s :: Encoded(s) == t
    ensures Canonical(t) ==> var d := Decoded(t + [NUL], 0); d.ret == |d.out| > 0 && Encoded(d.out) == t
  {
    hide Canonical, Encoded, Decoded;
    NulIn(t, [NUL]);
    if Canonical(t) {
      var s := CanonicalIsEncoded(t);
      EncodedEmpty();
      RoundTripBytes([], s, [NUL], 0);
      assert [] + (Encoded(s) + [NUL]) == Encoded(s) + [NUL];
    }
    if s :| Encoded(s) == t {
      EncodedCanonical(s);
    }
  }

  lemma EncodedEmpty()
    ensures Encoded([]) == []
  {}

  /** What a decoder that has written `out`, and has `left` characters before it, may end with. */
  predicate Bounded(d: Decoding, maxlen: int, out: seq<byte>, left: nat) {
    && out <= d.out && (d.ret == -1 || d.ret == |d.out|)
    && (Fits(|out|, maxlen) ==> Fits(|d.out|, maxlen)) && |d.out| <= |out| + left
  }

  /** The decoder never writes more than a positive limit, writes in order, and returns what it has written. */
  lemma {:induction false} DecodeBounded(t: seq<byte>, maxlen: int, out: seq<byte>)
    requires NUL in t
    ensures Bounded(DecodeFrom(t, maxlen, out), maxlen, out, |t|)
    decreases |t|, 1
  {
    hide Readable, Group;
    if Readable(t) {
      NulAfterGroup(t);
      assert |t| >= 4 by { ReadableLength(t); }
      GroupBounded(t, maxlen, out);
    }
  }

  lemma ReadableLength(t: seq<byte>)
    requires Readable(t)
    ensures |t| >= 4
  {}

  lemma {:induction false} GroupBounded(t: seq<byte>, maxlen: int, out: seq<byte>)
    requires |t| >= 4 && NUL in t[4..]
    ensures Bounded(Group(t, maxlen, out), maxlen, out, |t|)
    decreases |t|, 0
  {
    hide Value, Byte1, Byte2, Byte3, After;
    var v, w, x, y := Value(t[0]), Value(t[1]), Value(t[2]), Value(t[3]);
    AfterBounded(t[3], t[4..], maxlen, out + [Byte1(v, w)]);
    AfterBounded(t[3], t[4..], maxlen, out + [Byte1(v, w)] + [Byte2(w, x)]);
    AfterBounded(t[3], t[4..], maxlen, out + [Byte1(v, w)] + [Byte2(w, x)] + [Byte3(x, y)]);
  }

  lemma {:induction false} AfterBounded(last: byte, t: seq<byte>, maxlen: int, out: seq<byte>)
    requires NUL in t
    ensures Bounded(After(last, t, maxlen, out), maxlen, out, |t|)
    decreases |t|, 2
  {
    DecodeBounded(t, maxlen, out);
  }

  // ---------- The routines ----------

  /** Appends to what has been written. */
  method PutBytes(out: array<byte>, at: nat, s: seq<byte>)
    requires at + |s| <= out.Length
    modifies out
    ensures out[..at + |s|] == old(out[..at]) + s
    ensures forall i :: at + |s| <= i < out.Length ==> out[i] == old(out[i])
  {
    forall i | 0 <= i < |s| {
      out[at + i] := s[i];
    }
  }

  /** The loop over whole groups; what is left to encode has fewer than three bytes. */
  method EncodeGroups(out: array<byte>, input: seq<byte>, n: nat) returns (p: nat, q: nat)
    requires n <= |input| && |Encoded(input[..n])| <= out.Length
    modifies out
    ensures p <= n < p + 3 && q <= out.Length
    ensures out[..q] + Encoded(input[p..n]) == Encoded(input[..n])
    ensures forall i :: q <= i < out.Length ==> out[i] == old(out[i])
  {
    hide Digit, Six1, Six2, Six3, Six4, Encoded;
    ghost var s := input[..n];
    var left := n;
    p, q := 0, 0;
    assert s[0..] == s && out[..0] == [];
    while left >= 3
      invariant p <= n && left == n - p
      invariant q <= out.Length && out[..q] + Encoded(s[p..]) == Encoded(s)
      invariant forall i :: q <= i < out.Length ==> out[i] == old(out[i])
      decreases left
    {
      var a, b, c := input[p], input[p + 1], input[p + 2];
      EncodedQuad(s, p);
      ghost var before := out[..q];
      assert before + (Quad(a, b, c) + Encoded(s[p + 3..])) == before + Quad(a, b, c) + Encoded(s[p + 3..]);
      PutBytes(out, q, [Digit(Six1(a)), Digit(Six2(a, b)), Digit(Six3(b, c)), Digit(Six4(c))]);
      p, q, left := p + 3, q + 4, left - 3;
    }
    assert s[p..] == input[p..n];
  }

  /** Encodes `inlen` bytes, and ends the text with a NUL. */
  method Encode(out: array<byte>, input: seq<byte>, inlen: int)
    requires inlen <= |input|
    requires |Encoded(input[..if inlen > 0 then inlen else 0])| < out.Length
    modifies out
    ensures var t := Encoded(input[..if inlen > 0 then inlen else 0]);
            out[..|t| + 1] == t + [NUL] && forall i :: |t| < i < out.Length ==> out[i] == old(out[i])
  {
    hide Digit, Six1, Six2, Six3, Six4, Encoded;
    var n: nat := if inlen > 0 then inlen else 0;
    var p, q := EncodeGroups(out, input, n);
    var rest := EncodeTail(input, p, n);
    PutBytes(out, q, rest + [NUL]);
  }

  /** The last group, of one or two bytes, padded. */
  method EncodeTail(input: seq<byte>, p: nat, n: nat) returns (rest: seq<byte>)
    requires p <= n < p + 3 && n <= |input|
    ensures rest == Encoded(input[p..n])
  {
    hide Digit, Six1, Six2, Six3, Six4, Encoded;
    ghost var tail := input[p..n];
    EncodedTail(tail);
    rest := [];
    if n > p {
      var fragment := Six2(input[p], if n - p > 1 then input[p + 1] else 0);
      rest := [Digit(Six1(input[p])), Digit(fragment), if n - p < 2 then PAD else Digit(Six3(input[p + 1], 0)), PAD];
    }
  }

  lemma EncodedTail(s: seq<byte>)
    requires |s| < 3
    ensures Encoded(s) ==
            if |s| == 0 then []
            else [Digit(Six1(s[0])), Digit(Six2(s[0], if |s| > 1 then s[1] else 0)),
                  if |s| < 2 then PAD else Digit(Six3(s[1], 0)), PAD]
  {}

  lemma EncodedQuad(s: seq<byte>, p: nat)
    requires p + 3 <= |s|
    ensures Encoded(s[p..]) == Quad(s[p], s[p + 1], s[p + 2]) + Encoded(s[p + 3..])
  {
    hide Digit, Six1, Six2, Six3, Six4;
    assert s[p..][3..] == s[p + 3..];
    if |s| == p + 3 {
      assert Encoded(s[p..]) == Quad(s[p], s[p + 1], s[p + 2]) + Encoded(s[p..][3..]);
    }
  }

  /** Reads the four characters of a group, none of them past a NUL. */
  method ReadGroup(t: seq<byte>, p: nat) returns (ok: bool)
    requires p <= |t| && NUL in t[p..]
    ensures ok <==> Readable(t[p..])
    ensures ok ==> p + 4 <= |t| && t[p..][4..] == t[p + 4..] && NUL in t[p + 4..]
  {
    hide IsDigit;
    ghost var rest := t[p..];
    DigitIsNotNul(rest[0]);
    if !IsDigit(t[p]) {
      return false;
    }
    NulLater(rest);
    DigitIsNotNul(rest[1]);
    if !IsDigit(t[p + 1]) {
      return false;
    }
    NulLater(rest[1..]);
    DigitIsNotNul(rest[2]);
    if t[p + 2] != PAD && !IsDigit(t[p + 2]) {
      return false;
    }
    NulLater(rest[2..]);
    if t[p + 3] != PAD && !IsDigit(t[p + 3]) {
      return false;
    }
    NulAfterGroup(rest);
    ok := true;
  }

  /** Writes the bytes of a group, as far as the limit allows. */
  method WriteGroup(out: array<byte>, d1: byte, d2: byte, d3: byte, d4: byte, len: nat, maxlen: int, ghost t: seq<byte>)
    returns (ok: bool, len': nat)
    requires len <= out.Length && |t| >= 4 && NUL in t[4..] && t[..4] == [d1, d2, d3, d4]
    requires |Group(t, maxlen, out[..len]).out| <= out.Length
    modifies out
    ensures len <= len' <= out.Length && forall i :: len' <= i < out.Length ==> out[i] == old(out[i])
    ensures Group(t, maxlen, old(out[..len])) ==
            if ok then After(d4, t[4..], maxlen, out[..len']) else Decoding(-1, out[..len'])
  {
    hide Value, Byte1, Byte2, Byte3, After;
    GroupFits(t, maxlen, out[..len]);
    assert t[0] == t[..4][0] && t[1] == t[..4][1] && t[2] == t[..4][2] && t[3] == t[..4][3];
    ok, len' := false, len;
    if maxlen != 0 && len' + 1 > maxlen {
      return;
    }
    PutBytes(out, len', [Byte1(Value(d1), Value(d2))]);
    len' := len' + 1;
    if d3 != PAD {
      if maxlen != 0 && len' + 1 > maxlen {
        return;
      }
      PutBytes(out, len', [Byte2(Value(d2), Value(d3))]);
      len' := len' + 1;
      if d4 != PAD {
        if maxlen != 0 && len' + 1 > maxlen {
          return;
        }
        PutBytes(out, len', [Byte3(Value(d3), Value(d4))]);
        len' := len' + 1;
      }
    }
    ok := true;
  }

  lemma DigitIsNotNul(c: byte)
    ensures c == NUL ==> !IsDigit(c) && c != PAD
  {}

  /** Each byte that a group writes is one that its decoding writes. */
  lemma GroupFits(t: seq<byte>, maxlen: int, out: seq<byte>)
    requires |t| >= 4 && NUL in t[4..]
    ensures var d := Group(t, maxlen, out);
            && |d.out| >= |out|
            && (Fits(|out| + 1, maxlen) ==>
                && |d.out| >= |out| + 1
                && (t[2] != PAD && Fits(|out| + 2, maxlen) ==>
                    && |d.out| >= |out| + 2
                    && (t[3] != PAD && Fits(|out| + 3, maxlen) ==> |d.out| >= |out| + 3)))
  {
    hide Value, Byte1, Byte2, Byte3, After;
    var v, w, x, y := Value(t[0]), Value(t[1]), Value(t[2]), Value(t[3]);
    AfterBounded(t[3], t[4..], maxlen, out + [Byte1(v, w)]);
    AfterBounded(t[3], t[4..], maxlen, out + [Byte1(v, w)] + [Byte2(w, x)]);
    AfterBounded(t[3], t[4..], maxlen, out + [Byte1(v, w)] + [Byte2(w, x)] + [Byte3(x, y)]);
  }

  /** Skips a plus and a space at the start. */
  method SkipPrefix(t: seq<byte>) returns (p: nat)
    requires NUL in t
    ensures p <= |t| && t[p..] == Skipped(t)
  {
    SkipStep(t);
    p := if t[0] == 0x2b && t[1] == 0x20 then 2 else 0;
  }

  /** Decodes a text that ends with a NUL, reading nothing past the NUL; the output has room for the result. */
  method Decode(out: array<byte>, t: seq<byte>, maxlen: int) returns (ret: int)
    requires NUL in t && |Decoded(t, maxlen).out| <= out.Length
    modifies out
    ensures var d := Decoded(t, maxlen);
            ret == d.ret && out[..|d.out|] == d.out && forall i :: |d.out| <= i < out.Length ==> out[i] == old(out[i])
  {
    hide DecodeFrom, Group, Readable, After, Skipped;
    var p := SkipPrefix(t);
    var len := 0;
    if t[p] == CR {
      return 0;
    }
    assert out[..0] == [];
    var more := true;
    while more
      invariant p <= |t| && len <= out.Length && (more ==> NUL in t[p..])
      invariant var d := Decoded(t, maxlen);
                if more then d == DecodeFrom(t[p..], maxlen, out[..len]) else d == Decoding(len, out[..len])
      invariant forall i :: len <= i < out.Length ==> out[i] == old(out[i])
      decreases more, |t| - p
    {
      DecodeStep(t[p..], maxlen, out[..len]);
      var ok := ReadGroup(t, p);
      if !ok {
        return -1;
      }
      ok, len := WriteGroup(out, t[p], t[p + 1], t[p + 2], t[p + 3], len, maxlen, t[p..]);
      if !ok {
        return -1;
      }
      var last := t[p + 3];
      p := p + 4;
      AfterStep(last, t[p..], maxlen, out[..len]);
      more := t[p] != NUL && t[p] != CR && last != PAD;
    }
    ret := len;
  }

  lemma DecodeStep(t: seq<byte>, maxlen: int, out: seq<byte>)
    requires NUL in t
    ensures Readable(t) ==> NUL in t[4..]
    ensures DecodeFrom(t, maxlen, out) == if Readable(t) then Group(t, maxlen, out) else Decoding(-1, out)
  {
    if Readable(t) {
      NulAfterGroup(t);
    }
  }

  lemma AfterStep(last: byte, t: seq<byte>, maxlen: int, out: seq<byte>)
    requires NUL in t
    ensures After(last, t, maxlen, out) ==
            if t[0] == NUL || t[0] == CR || last == PAD then Decoding(|out|, out) else DecodeFrom(t, maxlen, out)
  {}

  lemma SkipStep(t: seq<byte>)
    requires NUL in t
    ensures t[0] == 0x2b ==> |t| > 1 && (t[1] == 0x20 ==> |t| > 2)
  {
    if t[0] == 0x2b {
      NulLater(t);
      if t[1] == 0x20 {
        NulLater(t[1..]);
      }
    }
  }

  /** A positive limit is room enough. */
  lemma LimitIsRoom(t: seq<byte>, maxlen: int)
    requires NUL in t && maxlen > 0
    ensures |Decoded(t, maxlen).out| <= maxlen
  {
    hide DecodeFrom, Skipped;
    DecodeBounded(Skipped(t), maxlen, []);
  }
}
