/** The wire package's variable-length integer ("CompactSize") and
    length-prefixed byte-string codecs that the leaf codec calls.  A value below
    0xfd is one byte; otherwise a discriminant byte 0xfd, 0xfe or 0xff is
    followed by the value as 2, 4 or 8 little-endian bytes.  Decoding refuses
    a value that a shorter form could have held. */
module VarInt {
  import opened GoInts
  import opened Streams

  function Pow256(k: nat): (p: nat)
    ensures p >= 1
  {
    if k == 0 then 1 else 256 * Pow256(k - 1)
  }

  /** The low `k` bytes of `v`, least significant first. */
  function LittleEndian(v: nat, k: nat): (s: seq<byte>)
    ensures |s| == k
  {
    if k == 0 then [] else [v % 256] + LittleEndian(v / 256, k - 1)
  }

  /** The number whose little-endian bytes are `s`. */
  function FromLittleEndian(s: seq<byte>): (v: nat)
    ensures v < Pow256(|s|)
  {
    if |s| == 0 then 0
    else
      var rest := FromLittleEndian(s[1..]);
      assert rest <= Pow256(|s| - 1) - 1;
      assert 256 * rest <= 256 * Pow256(|s| - 1) - 256;
      s[0] + 256 * rest
  }

  lemma {:induction false} FromLittleEndianOfLittleEndian(v: nat, k: nat)
    requires v < Pow256(k)
    ensures FromLittleEndian(LittleEndian(v, k)) == v
  {
    if k > 0 {
      var s := LittleEndian(v, k);
      assert s[1..] == LittleEndian(v / 256, k - 1);
      assert v / 256 < Pow256(k - 1);
      FromLittleEndianOfLittleEndian(v / 256, k - 1);
    }
  }

  lemma {:induction false} LittleEndianOfFromLittleEndian(s: seq<byte>)
    ensures LittleEndian(FromLittleEndian(s), |s|) == s
  {
    if |s| > 0 {
      var v := FromLittleEndian(s);
      var rest := FromLittleEndian(s[1..]);
      assert v == s[0] + 256 * rest;
      assert v % 256 == s[0] && v / 256 == rest;
      LittleEndianOfFromLittleEndian(s[1..]);
    }
  }

  lemma Pow256Widths()
    ensures Pow256(2) == 0x1_0000 && Pow256(4) == 0x1_0000_0000
    ensures Pow256(8) == 0x1_0000_0000_0000_0000
  {
  }

  /** The canonical encoding of `v`, as `WriteVarInt` writes it. */
  function EncodeVarInt(v: uint64): seq<byte>
  {
    if v < 0xfd then [v]
    else if v <= 0xffff then [0xfd] + LittleEndian(v, 2)
    else if v <= 0xffff_ffff then [0xfe] + LittleEndian(v, 4)
    else [0xff] + LittleEndian(v, 8)
  }

  /** `VarIntSerializeSize`: the number of bytes `WriteVarInt` writes for `v`. */
  function VarIntSerializeSize(v: uint64): (n: nat)
    ensures n == |EncodeVarInt(v)|
  {
    if v < 0xfd then 1
    else if v <= 0xffff then 3
    else if v <= 0xffff_ffff then 5
    else 9
  }

  /** After the discriminant: reads a `width`-byte little-endian value and
      refuses it when it is below `min`, the least value that needs this width. */
  function DecodePayload(s: seq<byte>, width: nat, discriminant: byte, min: uint64): (r: Read<uint64>)
    requires width in {2, 4, 8}
    ensures |r.rest| <= |s|
    ensures r.res.Ok? ==> |s| == width + |r.rest| && min <= r.res.value < Pow256(width)
  {
    var p := ReadFullAt(s, width);
    if p.err.Some? then Read(Err(p.err.value), p.rest)
    else
      Pow256Widths();
      var rv := FromLittleEndian(p.buf);
      if rv < min then Read(Err(NonCanonicalVarInt(rv, discriminant, min)), p.rest)
      else Read(Ok(rv), p.rest)
  }

  /** `ReadVarInt` on a source whose unread bytes are `s`.  A successful read
      consumes exactly the canonical encoding's length; an empty source gives
      `EOF`. */
  function DecodeVarInt(s: seq<byte>): (r: Read<uint64>)
    ensures |r.rest| <= |s|
    ensures r.res.Ok? ==> |s| == VarIntSerializeSize(r.res.value) + |r.rest|
    ensures s == [] ==> r == Read(Err(EOF), [])
  {
    var d := ReadFullAt(s, 1);
    if d.err.Some? then Read(Err(d.err.value), d.rest)
    else
      var discriminant := d.buf[0];
      Pow256Widths();
      if discriminant == 0xff then DecodePayload(d.rest, 8, discriminant, 0x1_0000_0000)
      else if discriminant == 0xfe then DecodePayload(d.rest, 4, discriminant, 0x1_0000)
      else if discriminant == 0xfd then DecodePayload(d.rest, 2, discriminant, 0xfd)
      else Read(Ok(discriminant), d.rest)
  }

  /** Decoding the canonical encoding of `v` gives `v` back and leaves
      whatever follows it. */
  lemma DecodeEncodeVarInt(v: uint64, tail: seq<byte>)
    ensures DecodeVarInt(EncodeVarInt(v) + tail) == Read(Ok(v), tail)
  {
    var e := EncodeVarInt(v);
    Pow256Widths();
    if v >= 0xfd {
      var k := |e| - 1;
      var payload := LittleEndian(v, k);
      assert e == [e[0]] + payload;
      AppendTwo([e[0]], payload, tail);
      ReadFullPrefix([e[0]], payload + tail);
      ReadFullPrefix(payload, tail);
      FromLittleEndianOfLittleEndian(v, k);
    } else {
      ReadFullPrefix(e, tail);
    }
  }

  /** Conversely, whatever `ReadVarInt` accepts is the canonical encoding of
      the value it returns, followed by what it leaves: every value has
      exactly one accepted encoding. */
  lemma EncodeDecodeVarInt(s: seq<byte>)
    requires DecodeVarInt(s).res.Ok?
    ensures s == EncodeVarInt(DecodeVarInt(s).res.value) + DecodeVarInt(s).rest
  {
    var r := DecodeVarInt(s);
    var v := r.res.value;
    ReadFullAtSplits(s, 1);
    Pow256Widths();
    if s[0] == 0xff {
      EncodeDecodePayload(s[1..], 8, s[0], 0x1_0000_0000);
      AppendTwo([s[0]], LittleEndian(v, 8), r.rest);
    } else if s[0] == 0xfe {
      EncodeDecodePayload(s[1..], 4, s[0], 0x1_0000);
      AppendTwo([s[0]], LittleEndian(v, 4), r.rest);
    } else if s[0] == 0xfd {
      EncodeDecodePayload(s[1..], 2, s[0], 0xfd);
      AppendTwo([s[0]], LittleEndian(v, 2), r.rest);
    }
  }

  /** An accepted payload is the little-endian form of the value read. */
  lemma EncodeDecodePayload(t: seq<byte>, width: nat, discriminant: byte, min: uint64)
    requires width in {2, 4, 8} && DecodePayload(t, width, discriminant, min).res.Ok?
    ensures t == LittleEndian(DecodePayload(t, width, discriminant, min).res.value, width)
                 + DecodePayload(t, width, discriminant, min).rest
  {
    ReadFullAtSplits(t, width);
    LittleEndianOfFromLittleEndian(t[..width]);
  }

  /** `WriteVarInt`: the discriminant byte, then the little-endian payload. */
  method WriteVarInt(w: Writer, v: uint64)
    modifies w
    ensures w.bytes == old(w.bytes) + EncodeVarInt(v)
  {
    ghost var b0 := w.bytes;
    if v < 0xfd {
      w.Write([v]);
    } else if v <= 0xffff {
      w.Write([0xfd]);
      w.Write(LittleEndian(v, 2));
      AppendTwo(b0, [0xfd], LittleEndian(v, 2));
    } else if v <= 0xffff_ffff {
      w.Write([0xfe]);
      w.Write(LittleEndian(v, 4));
      AppendTwo(b0, [0xfe], LittleEndian(v, 4));
    } else {
      w.Write([0xff]);
      w.Write(LittleEndian(v, 8));
      AppendTwo(b0, [0xff], LittleEndian(v, 8));
    }
  }

  /** `ReadVarInt`: the discriminant, then the payload it announces. */
  method ReadVarInt(r: Reader) returns (res: Result<uint64>)
    modifies r
    ensures Read(res, r.rest) == DecodeVarInt(old(r.rest))
  {
    var d, err := r.ReadFull(1);
    if err.Some? {
      return Err(err.value);
    }
    var discriminant := d[0];
    var width, min;
    if discriminant == 0xff {
      width, min := 8, 0x1_0000_0000;
    } else if discriminant == 0xfe {
      width, min := 4, 0x1_0000;
    } else if discriminant == 0xfd {
      width, min := 2, 0xfd;
    } else {
      return Ok(discriminant);
    }
    var payload;
    payload, err := r.ReadFull(width);
    if err.Some? {
      return Err(err.value);
    }
    Pow256Widths();
    var rv: uint64 := FromLittleEndian(payload);
    if rv < min {
      return Err(NonCanonicalVarInt(rv, discriminant, min));
    }
    return Ok(rv);
  }

  /** `WriteVarBytes`: the length as a VarInt, then the bytes. */
  function EncodeVarBytes(b: GoBytes): seq<byte>
  {
    EncodeVarInt(|b|) + b
  }

  /** `ReadVarBytes(r, pver, maxAllowed, fieldName)`: a VarInt count, a
      refusal when it exceeds `maxAllowed`, then exactly that many bytes. */
  function DecodeVarBytes(s: seq<byte>, maxAllowed: uint32, fieldName: string): (r: Read<seq<byte>>)
    ensures |r.rest| <= |s|
    ensures r.res.Ok? ==> |r.res.value| <= maxAllowed
    ensures r.res.Ok? ==> |s| == |EncodeVarBytes(r.res.value)| + |r.rest|
  {
    var c := DecodeVarInt(s);
    if c.res.Err? then Read(Err(c.res.error), c.rest)
    else if c.res.value > maxAllowed then Read(Err(LargerThanMax(fieldName, c.res.value, maxAllowed)), c.rest)
    else
      var b := ReadFullAt(c.rest, c.res.value);
      if b.err.Some? then Read(Err(b.err.value), b.rest) else Read(Ok(b.buf), b.rest)
  }

  /** A byte string no longer than the bound decodes back from its encoding,
      leaving whatever follows it. */
  lemma DecodeEncodeVarBytes(b: GoBytes, maxAllowed: uint32, fieldName: string, tail: seq<byte>)
    requires |b| <= maxAllowed
    ensures var s: seq<byte> := b;
            DecodeVarBytes(EncodeVarBytes(b) + tail, maxAllowed, fieldName) == Read(Ok(s), tail)
  {
    AppendTwo(EncodeVarInt(|b|), b, tail);
    DecodeEncodeVarInt(|b|, b + tail);
    ReadFullPrefix(b, tail);
  }

  /** Conversely, whatever `ReadVarBytes` accepts is the encoding of the bytes
      it returns, followed by what it leaves. */
  lemma EncodeDecodeVarBytes(s: seq<byte>, maxAllowed: uint32, fieldName: string)
    requires DecodeVarBytes(s, maxAllowed, fieldName).res.Ok?
    ensures |DecodeVarBytes(s, maxAllowed, fieldName).res.value| < TwoPow63
    ensures s == EncodeVarBytes(DecodeVarBytes(s, maxAllowed, fieldName).res.value)
                 + DecodeVarBytes(s, maxAllowed, fieldName).rest
  {
    var c := DecodeVarInt(s);
    EncodeDecodeVarInt(s);
    ReadFullAtSplits(c.rest, c.res.value);
    var b: GoBytes := c.rest[..c.res.value];
    AppendTwo(EncodeVarInt(|b|), b, c.rest[c.res.value..]);
  }

  /** A count above the bound is refused right after the count is read,
      before any of the bytes it announces. */
  lemma DecodeVarBytesRefusesLong(count: uint64, maxAllowed: uint32, fieldName: string, tail: seq<byte>)
    requires count > maxAllowed
    ensures DecodeVarBytes(EncodeVarInt(count) + tail, maxAllowed, fieldName)
         == Read(Err(LargerThanMax(fieldName, count, maxAllowed)), tail)
  {
    DecodeEncodeVarInt(count, tail);
  }

  /** `WriteVarBytes`. */
  method WriteVarBytes(w: Writer, b: GoBytes)
    modifies w
    ensures w.bytes == old(w.bytes) + EncodeVarBytes(b)
  {
    ghost var b0 := w.bytes;
    WriteVarInt(w, |b|);
    w.Write(b);
    AppendTwo(b0, EncodeVarInt(|b|), b);
  }

  /** `ReadVarBytes`. */
  method ReadVarBytes(r: Reader, maxAllowed: uint32, fieldName: string) returns (res: Result<seq<byte>>)
    modifies r
    ensures Read(res, r.rest) == DecodeVarBytes(old(r.rest), maxAllowed, fieldName)
  {
    var count := ReadVarInt(r);
    if count.Err? {
      return Err(count.error);
    }
    if count.value > maxAllowed {
      return Err(LargerThanMax(fieldName, count.value, maxAllowed));
    }
    var b, err := r.ReadFull(count.value);
    if err.Some? {
      return Err(err.value);
    }
    return Ok(b);
  }
}
