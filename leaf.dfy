/** The utreexo accumulator's leaf record (`LeafData`): its full and compact
    serialisations, their sizes, and the leaf hash committed to in the
    accumulator.

    Full format:    tx hash (32 bytes) · index (VarInt) · header code (VarInt)
                    · amount (VarInt) · pkScript (VarBytes)
    Compact format: header code (VarInt) · amount (VarInt) · pkScript (VarBytes)

    The header code packs the coinbase flag into bit 0 and the height into the
    bits above it.  The block hash is part of the record but neither format
    writes or reads it. */
module Leaf {
  import opened GoInts
  import opened Streams
  import opened VarInt

  /** The longest pkScript either format accepts, on encode and on decode. */
  const MaxScriptSize: uint32 := 10000

  /** The width of a chainhash.Hash. */
  const HashSize: nat := 32

  const ZeroHash: seq<byte> := [0, 0, 0, 0, 0, 0, 0, 0, 0, 0, 0, 0, 0, 0, 0, 0, 0, 0, 0, 0, 0, 0, 0, 0, 0, 0, 0, 0, 0, 0, 0, 0]

  type Hash = s: seq<byte> | |s| == 32 witness [0, 0, 0, 0, 0, 0, 0, 0, 0, 0, 0, 0, 0, 0, 0, 0, 0, 0, 0, 0, 0, 0, 0, 0, 0, 0, 0, 0, 0, 0, 0, 0]

  /** The previously unspent output the leaf stands for. */
  datatype OutPoint = OutPoint(hash: Hash, index: uint32)

  /** The contents of a LeafData record. */
  datatype LeafValue = LeafValue(
    blockHash: Hash,
    outPoint: OutPoint,
    height: int32,
    isCoinBase: bool,
    amount: int64,
    pkScript: GoBytes)

  /** What `NewLeafData` returns: a zero block hash, a zero outpoint and
      every other field zero or empty. */
  const ZeroLeaf: LeafValue := LeafValue(ZeroHash, OutPoint(ZeroHash, 0), 0, false, 0, [])

  /** `Serialize` panics on a record whose outpoint hash is all zero. */
  predicate Serializable(l: LeafValue)
  {
    l.outPoint.hash != ZeroHash
  }

  // ---------------------------------------------------------------------------
  // Header code

  /** `hcb := height << 1; if isCoinBase { hcb |= 1 }`, in int32 arithmetic. */
  function HeaderCode(height: int32, isCoinBase: bool): int32
  {
    var hcb := ShiftLeft1Int32(height);
    if isCoinBase then OrOneInt32(hcb) else hcb
  }

  /** The heights whose doubling fits in an int32. */
  predicate HeightFits(height: int)
  {
    -TwoPow30 <= height < TwoPow30
  }

  /** What decoding does with a header code read as a uint64:
      `Height = int32(code)`, the coinbase flag is SET when bit 0 is one (and
      otherwise left as it was), then `Height >>= 1`. */
  function DecodeHeader(l: LeafValue, code: uint64): (r: LeafValue)
    ensures r == l.(height := r.height, isCoinBase := r.isCoinBase)
    ensures l.isCoinBase ==> r.isCoinBase
  {
    var h := Int32OfUint64(code);
    l.(height := h / 2, isCoinBase := if h % 2 == 1 then true else l.isCoinBase)
  }

  /** The coinbase flag always survives the header code; the height survives
      it exactly when it fits, that is when `height << 1` does not overflow. */
  lemma HeaderCodeRoundTrip(height: int32, isCoinBase: bool)
    ensures var code := Int32OfUint64(Uint64OfInt32(HeaderCode(height, isCoinBase)));
            (code % 2 == 1 <==> isCoinBase) && (code / 2 == height <==> HeightFits(height))
  {
    var code := HeaderCode(height, isCoinBase);
    Int32CastRoundTrip(code);
    var s := ShiftLeft1Int32(height);
    if HeightFits(height) {
      assert s == 2 * height;
    } else if height >= TwoPow30 {
      assert (2 * height - TwoPow32 + TwoPow31) % TwoPow32 == 2 * height - TwoPow32 + TwoPow31;
      assert s == 2 * height - TwoPow32;
    } else {
      assert (2 * height + TwoPow32 + TwoPow31) % TwoPow32 == 2 * height + TwoPow32 + TwoPow31;
      assert s == 2 * height + TwoPow32;
    }
  }

  /** For a non-negative height that fits, the header code is the plain
      `2 * height + bit`. */
  lemma HeaderCodeOfNonNegativeHeight(height: int32, isCoinBase: bool)
    requires 0 <= height < TwoPow30
    ensures HeaderCode(height, isCoinBase) == 2 * height + (if isCoinBase then 1 else 0)
    ensures Uint64OfInt32(HeaderCode(height, isCoinBase)) == 2 * height + (if isCoinBase then 1 else 0)
  {
  }

  /** Two header codes worked out by hand: a coinbase at height 0 is 1, a
      non-coinbase at height 5 is 10. */
  lemma HeaderCodeExamples()
    ensures HeaderCode(0, true) == 1 && HeaderCode(5, false) == 10
  {
  }

  /** Decoding keeps only the low 32 bits of the header code, so header codes
      that differ by a multiple of 2^32 decode to the same height and flag. */
  lemma DecodeHeaderIgnoresHighBits(l: LeafValue, code: uint64, k: nat)
    requires code + k * TwoPow32 < TwoPow64
    ensures DecodeHeader(l, code + k * TwoPow32) == DecodeHeader(l, code)
  {
    Int32OfUint64LowBits(code, k);
  }

  // ---------------------------------------------------------------------------
  // Serialisation

  /** All bytes written to the writer, and the error returned. */
  datatype Written = Written(bytes: seq<byte>, err: Option<Error>)

  /** The header code and the amount, as both formats write them. */
  function HeaderAndAmountBytes(l: LeafValue): seq<byte>
  {
    EncodeVarInt(Uint64OfInt32(HeaderCode(l.height, l.isCoinBase))) + EncodeVarInt(Uint64OfInt64(l.amount))
  }

  /** The guard both writers apply before writing the script, as intended:
      the script is longer than MaxScriptSize. */
  predicate ScriptTooLong(pkScript: GoBytes)
  {
    |pkScript| > MaxScriptSize
  }

  /** The guard as the source writes it, `uint32(len(l.PkScript)) > MaxScriptSize`:
      the length is truncated to 32 bits before the comparison. */
  predicate ScriptGuardAsWritten(pkScript: GoBytes)
  {
    Uint32OfUint64(|pkScript|) > MaxScriptSize
  }

  /** The truncating guard lets through a script of 2^32 + 1 bytes, which is
      far longer than MaxScriptSize: its length truncates to 1. */
  lemma ScriptGuardAsWrittenAdmitsLongScript(pkScript: GoBytes)
    requires |pkScript| == TwoPow32 + 1
    ensures ScriptTooLong(pkScript) && !ScriptGuardAsWritten(pkScript)
  {
  }

  /** Below 2^32 bytes the truncating guard and the intended one agree. */
  lemma ScriptGuardAsWrittenAgreesBelow4GiB(pkScript: GoBytes)
    requires |pkScript| < TwoPow32
    ensures ScriptGuardAsWritten(pkScript) <==> ScriptTooLong(pkScript)
  {
  }

  /** What `Serialize` writes and returns (for a record it does not panic on):
      tx hash, index, header code and amount, then either the error for an
      overlong script or the length-prefixed script. */
  function SerializeWrites(l: LeafValue): Written
  {
    var head := l.outPoint.hash + EncodeVarInt(l.outPoint.index) + HeaderAndAmountBytes(l);
    if ScriptTooLong(l.pkScript) then Written(head, Some(MessageError("LeafData.Serialize", "pkScript too long")))
    else Written(head + EncodeVarBytes(l.pkScript), None)
  }

  /** What `SerializeCompact` writes and returns. */
  function SerializeCompactWrites(l: LeafValue): Written
  {
    var head := HeaderAndAmountBytes(l);
    if ScriptTooLong(l.pkScript) then Written(head, Some(MessageError("LeafData.SerializeCompact", "pkScript too long")))
    else Written(head + EncodeVarBytes(l.pkScript), None)
  }

  /** `Serialize` fails exactly on an overlong script; when it does, the tx
      hash, index, header code and amount are already written and no byte of
      the script length or the script is. */
  lemma SerializeScriptBound(l: LeafValue)
    ensures SerializeWrites(l).err.Some? <==> |l.pkScript| > MaxScriptSize
    ensures SerializeWrites(l).err.Some? ==>
              SerializeWrites(l).err == Some(MessageError("LeafData.Serialize", "pkScript too long")) &&
              |SerializeWrites(l).bytes| == HashSize + VarIntSerializeSize(l.outPoint.index)
                + VarIntSerializeSize(Uint64OfInt32(HeaderCode(l.height, l.isCoinBase)))
                + VarIntSerializeSize(Uint64OfInt64(l.amount))
    ensures SerializeWrites(l).err.None? ==>
              |SerializeWrites(l).bytes| == ExactSerializeSize(l) &&
              SerializeWrites(l).bytes[|SerializeWrites(l).bytes| - |l.pkScript|..] == l.pkScript
  {
  }

  /** `SerializeCompact` fails exactly on an overlong script, having written
      the header code and the amount and nothing of the script. */
  lemma SerializeCompactScriptBound(l: LeafValue)
    ensures SerializeCompactWrites(l).err.Some? <==> |l.pkScript| > MaxScriptSize
    ensures SerializeCompactWrites(l).err.Some? ==>
              SerializeCompactWrites(l).err == Some(MessageError("LeafData.SerializeCompact", "pkScript too long")) &&
              |SerializeCompactWrites(l).bytes| ==
                VarIntSerializeSize(Uint64OfInt32(HeaderCode(l.height, l.isCoinBase)))
                + VarIntSerializeSize(Uint64OfInt64(l.amount))
    ensures SerializeCompactWrites(l).err.None? ==>
              SerializeCompactWrites(l).bytes[|SerializeCompactWrites(l).bytes| - |l.pkScript|..] == l.pkScript
  {
  }

  /** The compact bytes are the full bytes without the outpoint. */
  lemma CompactIsFullWithoutOutPoint(l: LeafValue)
    ensures SerializeWrites(l).err == None <==> SerializeCompactWrites(l).err == None
    ensures SerializeWrites(l).bytes
         == l.outPoint.hash + EncodeVarInt(l.outPoint.index) + SerializeCompactWrites(l).bytes
  {
  }

  // ---------------------------------------------------------------------------
  // Sizes

  /** `SerializeSize` as the source computes it: two hash widths, the VarInt
      size of the raw height (not of the header code) and the sizes of the
      other fields.  It is not the number of bytes `Serialize` writes: the
      source writes one hash, not two, and writes the header code. */
  function SerializeSize(l: LeafValue): (n: int)
    ensures !ScriptTooLong(l.pkScript) ==>
              n == |SerializeWrites(l).bytes| + HashSize
                   + VarIntSerializeSize(Uint64OfInt32(l.height))
                   - VarIntSerializeSize(Uint64OfInt32(HeaderCode(l.height, l.isCoinBase)))
  {
    var size := VarIntSerializeSize(l.outPoint.index)
              + VarIntSerializeSize(Uint64OfInt32(l.height))
              + VarIntSerializeSize(Uint64OfInt64(l.amount))
              + VarIntSerializeSize(|l.pkScript|);
    HashSize + HashSize + |l.pkScript| + size
  }

  /** For a script within bounds `SerializeSize` overstates what `Serialize`
      writes by at least 24 and at most 40 bytes, so it is never exact. */
  lemma SerializeSizeOverstates(l: LeafValue)
    requires !ScriptTooLong(l.pkScript)
    ensures |SerializeWrites(l).bytes| + 24 <= SerializeSize(l) <= |SerializeWrites(l).bytes| + 40
  {
  }

  /** For a script over MaxScriptSize bytes `Serialize` stops after the
      amount, so `SerializeSize` overstates by more than MaxScriptSize. */
  lemma SerializeSizeOverstatesLongScript(l: LeafValue)
    requires ScriptTooLong(l.pkScript)
    ensures SerializeSize(l) > |SerializeWrites(l).bytes| + MaxScriptSize
  {
  }

  /** A record of height 127 that is not a coinbase: its height takes one
      VarInt byte, its header code 254 takes three. */
  lemma SerializeSizeExample(l: LeafValue)
    requires l.height == 127 && !l.isCoinBase && !ScriptTooLong(l.pkScript)
    ensures SerializeSize(l) == |SerializeWrites(l).bytes| + 30
  {
  }

  /** The size `Serialize` actually writes for a script within bounds. */
  function ExactSerializeSize(l: LeafValue): (n: nat)
    ensures !ScriptTooLong(l.pkScript) ==> n == |SerializeWrites(l).bytes|
  {
    HashSize + VarIntSerializeSize(l.outPoint.index) + SerializeSizeCompact(l)
  }

  /** `SerializeSizeCompact`: exactly what `SerializeCompact` writes when it
      succeeds. */
  function SerializeSizeCompact(l: LeafValue): (n: nat)
    ensures !ScriptTooLong(l.pkScript) ==> n == |SerializeCompactWrites(l).bytes|
  {
    var size := VarIntSerializeSize(Uint64OfInt32(HeaderCode(l.height, l.isCoinBase)))
              + VarIntSerializeSize(Uint64OfInt64(l.amount))
              + VarIntSerializeSize(|l.pkScript|);
    size + |l.pkScript|
  }

  // ---------------------------------------------------------------------------
  // Deserialisation

  /** The field names the two decoders give `ReadVarBytes` for the script
      (spelled differently in the two of them). */
  const FullScriptField: string := "pkscript size"
  const CompactScriptField: string := "pkScript size"

  /** The record after a decode, the error returned, and the input left unread. */
  datatype Decoded = Decoded(leaf: LeafValue, err: Option<Error>, rest: seq<byte>)

  /** What `Deserialize` does to record `l` reading from a source whose unread
      bytes are `s`.  The outpoint is replaced first (a failed hash read leaves
      the bytes that were there, then zeros); each later field is overwritten
      as it is read; a failed script read leaves the script empty. */
  function DeserializeSpec(l: LeafValue, s: seq<byte>): (d: Decoded)
    ensures |d.rest| <= |s|
    ensures d.leaf.blockHash == l.blockHash
    ensures l.isCoinBase ==> d.leaf.isCoinBase
    ensures d.err == None ==> |d.leaf.pkScript| <= MaxScriptSize
  {
    var th := ReadFullAt(s, HashSize);
    var l0 := l.(outPoint := OutPoint(th.buf, 0));
    if th.err.Some? then Decoded(l0, th.err, th.rest)
    else
      var index := DecodeVarInt(th.rest);
      if index.res.Err? then Decoded(l0, Some(index.res.error), index.rest)
      else
        var l1 := l0.(outPoint := OutPoint(th.buf, Uint32OfUint64(index.res.value)));
        DecodeStxo(l1, index.rest, FullScriptField)
  }

  /** `DeserializeCompact`: the header code, amount and script only. */
  function DeserializeCompactSpec(l: LeafValue, s: seq<byte>): (d: Decoded)
    ensures |d.rest| <= |s|
    ensures d.leaf.blockHash == l.blockHash && d.leaf.outPoint == l.outPoint
    ensures l.isCoinBase ==> d.leaf.isCoinBase
    ensures d.err == None ==> |d.leaf.pkScript| <= MaxScriptSize
  {
    DecodeStxo(l, s, CompactScriptField)
  }

  /** The part both decoders share: header code, amount, script. */
  function DecodeStxo(l: LeafValue, s: seq<byte>, scriptField: string): (d: Decoded)
    ensures |d.rest| <= |s|
    ensures d.leaf.blockHash == l.blockHash && d.leaf.outPoint == l.outPoint
    ensures l.isCoinBase ==> d.leaf.isCoinBase
    ensures d.err == None ==> |d.leaf.pkScript| <= MaxScriptSize
  {
    var code := DecodeVarInt(s);
    if code.res.Err? then Decoded(l, Some(code.res.error), code.rest)
    else
      var l2 := DecodeHeader(l, code.res.value);
      var amount := DecodeVarInt(code.rest);
      if amount.res.Err? then Decoded(l2, Some(amount.res.error), amount.rest)
      else
        var l3 := l2.(amount := Int64OfUint64(amount.res.value));
        var script := DecodeVarBytes(amount.rest, MaxScriptSize, scriptField);
        if script.res.Err? then Decoded(l3.(pkScript := []), Some(script.res.error), script.rest)
        else Decoded(l3.(pkScript := script.res.value), None, script.rest)
  }

  /** The records both formats carry faithfully: the outpoint hash is not
      zero (for the full format), the height fits and the script is within
      bounds. */
  predicate RoundTrips(l: LeafValue)
  {
    Serializable(l) && HeightFits(l.height) && !ScriptTooLong(l.pkScript)
  }

  /** Decoding the stxo bytes of `l` into `p` sets the height, amount and
      script of `l`, ORs in its coinbase flag and leaves what follows. */
  lemma DecodeStxoRoundTrip(l: LeafValue, p: LeafValue, tail: seq<byte>, scriptField: string)
    requires HeightFits(l.height) && !ScriptTooLong(l.pkScript)
    ensures DecodeStxo(p, SerializeCompactWrites(l).bytes + tail, scriptField)
         == Decoded(p.(height := l.height, isCoinBase := l.isCoinBase || p.isCoinBase,
                       amount := l.amount, pkScript := l.pkScript),
                    None, tail)
  {
    var code := Uint64OfInt32(HeaderCode(l.height, l.isCoinBase));
    var amount := Uint64OfInt64(l.amount);
    var e1, e2, e3 := EncodeVarInt(code), EncodeVarInt(amount), EncodeVarBytes(l.pkScript);
    AppendTwo(e1 + e2, e3, tail);
    AppendTwo(e1, e2, e3 + tail);
    DecodeEncodeVarInt(code, e2 + (e3 + tail));
    DecodeEncodeVarInt(amount, e3 + tail);
    DecodeEncodeVarBytes(l.pkScript, MaxScriptSize, scriptField, tail);
    assert DecodeHeader(p, code) == p.(height := l.height, isCoinBase := l.isCoinBase || p.isCoinBase) by {
      HeaderCodeRoundTrip(l.height, l.isCoinBase);
    }
    Int64CastBijection(l.amount, 0);
  }

  /** Once the tx hash and the index of `op` have been read, `Deserialize`
      goes on exactly as the stxo decoder does on a record holding `op`. */
  lemma DeserializeAfterOutPoint(op: OutPoint, p: LeafValue, rest: seq<byte>)
    ensures DeserializeSpec(p, op.hash + EncodeVarInt(op.index) + rest)
         == DecodeStxo(p.(outPoint := op), rest, FullScriptField)
  {
    var ei := EncodeVarInt(op.index);
    AppendTwo(op.hash, ei, rest);
    ReadFullPrefix(op.hash, ei + rest);
    DecodeEncodeVarInt(op.index, rest);
    Uint32CastRoundTrip(op.index);
  }

  /** Full round trip: deserialising what `Serialize` wrote for `l`, into any
      record `p`, recovers the outpoint, height, amount and script of `l`,
      ORs in its coinbase flag, keeps `p`'s block hash and leaves exactly what
      followed the written bytes. */
  lemma DeserializeRoundTrip(l: LeafValue, p: LeafValue, tail: seq<byte>)
    requires RoundTrips(l)
    ensures SerializeWrites(l).err == None
    ensures DeserializeSpec(p, SerializeWrites(l).bytes + tail)
         == Decoded(l.(blockHash := p.blockHash, isCoinBase := l.isCoinBase || p.isCoinBase), None, tail)
  {
    var head := l.outPoint.hash + EncodeVarInt(l.outPoint.index);
    var rest := SerializeCompactWrites(l).bytes;
    CompactIsFullWithoutOutPoint(l);
    AppendTwo(head, rest, tail);
    DeserializeAfterOutPoint(l.outPoint, p, rest + tail);
    DecodeStxoRoundTrip(l, p.(outPoint := l.outPoint), tail, FullScriptField);
  }

  /** Into a fresh `NewLeafData()` record the full round trip is exact, up to
      the block hash, which is never written. */
  lemma DeserializeRoundTripFresh(l: LeafValue)
    requires RoundTrips(l)
    ensures DeserializeSpec(ZeroLeaf, SerializeWrites(l).bytes) == Decoded(l.(blockHash := ZeroHash), None, [])
  {
    DeserializeRoundTrip(l, ZeroLeaf, []);
    assert SerializeWrites(l).bytes + [] == SerializeWrites(l).bytes;
  }

  /** Compact round trip: the header code, amount and script come back; the
      outpoint and block hash of the target are left as they were. */
  lemma DeserializeCompactRoundTrip(l: LeafValue, p: LeafValue, tail: seq<byte>)
    requires HeightFits(l.height) && !ScriptTooLong(l.pkScript)
    ensures SerializeCompactWrites(l).err == None
    ensures DeserializeCompactSpec(p, SerializeCompactWrites(l).bytes + tail)
         == Decoded(p.(height := l.height, isCoinBase := l.isCoinBase || p.isCoinBase,
                       amount := l.amount, pkScript := l.pkScript),
                    None, tail)
  {
    DecodeStxoRoundTrip(l, p, tail, CompactScriptField);
  }

  /** A source with fewer than 32 bytes left fails at the tx hash: with `EOF`
      when it is empty and `UnexpectedEOF` otherwise, after consuming all of
      it; the outpoint hash then holds what was there, padded with zeros. */
  lemma DeserializeShortSource(p: LeafValue, s: seq<byte>)
    requires |s| < HashSize
    ensures DeserializeSpec(p, s)
         == Decoded(p.(outPoint := OutPoint(ZeroPad(s, HashSize), 0)),
                    Some(if |s| == 0 then EOF else UnexpectedEOF), [])
  {
    ReadFullAtShort(s, HashSize);
  }

  /** The stxo decoder refuses a script length above MaxScriptSize right
      after reading it, having set the height, flag and amount, and before
      reading any byte of the script. */
  lemma DecodeStxoRefusesLongScript(l: LeafValue, p: LeafValue, count: uint64, tail: seq<byte>, scriptField: string)
    requires HeightFits(l.height) && count > MaxScriptSize
    ensures DecodeStxo(p, HeaderAndAmountBytes(l) + EncodeVarInt(count) + tail, scriptField)
         == Decoded(p.(height := l.height, isCoinBase := l.isCoinBase || p.isCoinBase,
                       amount := l.amount, pkScript := []),
                    Some(LargerThanMax(scriptField, count, MaxScriptSize)), tail)
  {
    var code := Uint64OfInt32(HeaderCode(l.height, l.isCoinBase));
    var amount := Uint64OfInt64(l.amount);
    var e1, e2, ec := EncodeVarInt(code), EncodeVarInt(amount), EncodeVarInt(count);
    AppendTwo(e1 + e2, ec, tail);
    AppendTwo(e1, e2, ec + tail);
    DecodeEncodeVarInt(code, e2 + (ec + tail));
    DecodeEncodeVarInt(amount, ec + tail);
    DecodeVarBytesRefusesLong(count, MaxScriptSize, scriptField, tail);
    assert DecodeHeader(p, code) == p.(height := l.height, isCoinBase := l.isCoinBase || p.isCoinBase) by {
      HeaderCodeRoundTrip(l.height, l.isCoinBase);
    }
    Int64CastBijection(l.amount, 0);
  }

  /** Decoding full bytes whose script length exceeds MaxScriptSize fails with
      the length-bound error once the length is read, keeping every field read
      before it and leaving the script empty and the script bytes unread. */
  lemma DeserializeRefusesLongScript(l: LeafValue, p: LeafValue, count: uint64, tail: seq<byte>)
    requires HeightFits(l.height) && count > MaxScriptSize
    ensures DeserializeSpec(p, l.outPoint.hash + EncodeVarInt(l.outPoint.index)
                               + HeaderAndAmountBytes(l) + EncodeVarInt(count) + tail)
         == Decoded(l.(blockHash := p.blockHash, isCoinBase := l.isCoinBase || p.isCoinBase, pkScript := []),
                    Some(LargerThanMax(FullScriptField, count, MaxScriptSize)), tail)
  {
    var head := l.outPoint.hash + EncodeVarInt(l.outPoint.index);
    var hab, ec := HeaderAndAmountBytes(l), EncodeVarInt(count);
    AppendTwo(head + hab, ec, tail);
    AppendTwo(head, hab, ec + tail);
    AppendTwo(hab, ec, tail);
    DeserializeAfterOutPoint(l.outPoint, p, (hab + ec) + tail);
    DecodeStxoRefusesLongScript(l, p.(outPoint := l.outPoint), count, tail, FullScriptField);
  }

  /** The script-length read of the stxo decoder on `s`: present when the
      header code and the amount before it both decode. */
  function ScriptLengthRead(s: seq<byte>): Option<Read<uint64>>
  {
    var code := DecodeVarInt(s);
    if code.res.Err? then None
    else
      var amount := DecodeVarInt(code.rest);
      if amount.res.Err? then None else Some(DecodeVarInt(amount.rest))
  }

  /** On any input, not only on bytes a writer produced: once the header code
      and the amount have been read, a script length above MaxScriptSize is
      refused with the length error, the script is left empty and nothing
      after the length is consumed. */
  lemma DecodeStxoRefusesAnyLongScript(p: LeafValue, s: seq<byte>, scriptField: string)
    requires var c := ScriptLengthRead(s);
             c.Some? && c.value.res.Ok? && c.value.res.value > MaxScriptSize
    ensures var c := ScriptLengthRead(s).value;
            var d := DecodeStxo(p, s, scriptField);
            d.err == Some(LargerThanMax(scriptField, c.res.value, MaxScriptSize))
            && d.leaf.pkScript == [] && d.rest == c.rest
  {
  }

  /** `Deserialize` on any input: after the tx hash and a well-formed index,
      a script length above MaxScriptSize is refused in the same way, with
      the tx hash taken from the first 32 bytes. */
  lemma DeserializeRefusesAnyLongScript(p: LeafValue, s: seq<byte>)
    requires HashSize <= |s| && DecodeVarInt(s[HashSize..]).res.Ok?
    requires var c := ScriptLengthRead(DecodeVarInt(s[HashSize..]).rest);
             c.Some? && c.value.res.Ok? && c.value.res.value > MaxScriptSize
    ensures var c := ScriptLengthRead(DecodeVarInt(s[HashSize..]).rest).value;
            var d := DeserializeSpec(p, s);
            d.err == Some(LargerThanMax(FullScriptField, c.res.value, MaxScriptSize))
            && d.leaf.outPoint.hash == s[..HashSize]
            && d.leaf.pkScript == [] && d.rest == c.rest
  {
    var index := DecodeVarInt(s[HashSize..]);
    var l1 := p.(outPoint := OutPoint(s[..HashSize], Uint32OfUint64(index.res.value)));
    DecodeStxoRefusesAnyLongScript(l1, index.rest, FullScriptField);
  }

  /** `DeserializeCompact` on any input refuses a script length above
      MaxScriptSize once the header code and amount have been read. */
  lemma DeserializeCompactRefusesAnyLongScript(p: LeafValue, s: seq<byte>)
    requires var c := ScriptLengthRead(s);
             c.Some? && c.value.res.Ok? && c.value.res.value > MaxScriptSize
    ensures var c := ScriptLengthRead(s).value;
            var d := DeserializeCompactSpec(p, s);
            d.err == Some(LargerThanMax(CompactScriptField, c.res.value, MaxScriptSize))
            && d.leaf.outPoint == p.outPoint && d.leaf.pkScript == [] && d.rest == c.rest
  {
    DecodeStxoRefusesAnyLongScript(p, s, CompactScriptField);
  }

  /** `DeserializeCompact` refuses a script length above MaxScriptSize. */
  lemma DeserializeCompactRefusesLongScript(l: LeafValue, p: LeafValue, count: uint64, tail: seq<byte>)
    requires HeightFits(l.height) && count > MaxScriptSize
    ensures DeserializeCompactSpec(p, HeaderAndAmountBytes(l) + EncodeVarInt(count) + tail)
         == Decoded(p.(height := l.height, isCoinBase := l.isCoinBase || p.isCoinBase,
                       amount := l.amount, pkScript := []),
                    Some(LargerThanMax(CompactScriptField, count, MaxScriptSize)), tail)
  {
    DecodeStxoRefusesLongScript(l, p, count, tail, CompactScriptField);
  }

  /** Two records that round-trip and serialise to the same bytes agree in
      every field but the block hash. */
  lemma SerializeInjective(l1: LeafValue, l2: LeafValue)
    requires RoundTrips(l1) && RoundTrips(l2)
    requires SerializeWrites(l1).bytes == SerializeWrites(l2).bytes
    ensures l1.(blockHash := l2.blockHash) == l2
  {
    var p := ZeroLeaf.(blockHash := l2.blockHash);
    DeserializeRoundTrip(l1, p, []);
    DeserializeRoundTrip(l2, p, []);
  }

  // ---------------------------------------------------------------------------
  // Leaf hash

  /** `LeafHash`: the digest of the bytes `Serialize` writes; the digest
      function (SHA-512/256 in the source) is a parameter.  The error
      `Serialize` returns is ignored. */
  function LeafHashOf(l: LeafValue, digest: seq<byte> -> Hash): Hash
    requires Serializable(l)
  {
    digest(SerializeWrites(l).bytes)
  }

  /** The hash sees nothing but the serialisation; in particular the block
      hash, which is not serialised, never changes it. */
  lemma LeafHashIgnoresBlockHash(l: LeafValue, blockHash: Hash, digest: seq<byte> -> Hash)
    requires Serializable(l)
    ensures LeafHashOf(l.(blockHash := blockHash), digest) == LeafHashOf(l, digest)
  {
  }

  /** Records that serialise to the same bytes hash equally. */
  lemma LeafHashOfSameBytes(l1: LeafValue, l2: LeafValue, digest: seq<byte> -> Hash)
    requires Serializable(l1) && Serializable(l2)
    requires SerializeWrites(l1).bytes == SerializeWrites(l2).bytes
    ensures LeafHashOf(l1, digest) == LeafHashOf(l2, digest)
  {
  }

  /** Because `LeafHash` ignores the error, a record with an overlong script
      hashes like the same record with any other overlong script. */
  lemma LeafHashIgnoresOverlongScript(l: LeafValue, pkScript: GoBytes, digest: seq<byte> -> Hash)
    requires Serializable(l) && ScriptTooLong(l.pkScript) && ScriptTooLong(pkScript)
    ensures LeafHashOf(l.(pkScript := pkScript), digest) == LeafHashOf(l, digest)
  {
  }

  /** The leaf hash binds every serialised field: `SerializeInjective`
      restated for hashes.  Two round-tripping records that differ in anything
      but the block hash and still hash equally have different serialisations,
      so they are a collision of the digest itself. */
  lemma LeafHashBindsFields(l1: LeafValue, l2: LeafValue, digest: seq<byte> -> Hash)
    requires RoundTrips(l1) && RoundTrips(l2)
    requires l1.(blockHash := l2.blockHash) != l2
    requires LeafHashOf(l1, digest) == LeafHashOf(l2, digest)
    ensures SerializeWrites(l1).bytes != SerializeWrites(l2).bytes
  {
    if SerializeWrites(l1).bytes == SerializeWrites(l2).bytes {
      SerializeInjective(l1, l2);
    }
  }

  // ---------------------------------------------------------------------------
  // The record as the source manipulates it

  /** `LeafData`: a record whose fields `Deserialize` and `DeserializeCompact`
      overwrite in place. */
  class LeafData {
    var blockHash: Hash
    var outPoint: OutPoint
    var height: int32
    var isCoinBase: bool
    var amount: int64
    var pkScript: GoBytes

    function Value(): LeafValue
      reads this
    {
      LeafValue(blockHash, outPoint, height, isCoinBase, amount, pkScript)
    }

    /** `NewLeafData`: every field zero.  Such a record cannot be serialised. */
    constructor NewLeafData()
      ensures Value() == ZeroLeaf && !Serializable(Value())
    {
      blockHash, outPoint := ZeroHash, OutPoint(ZeroHash, 0);
      height, isCoinBase, amount, pkScript := 0, false, 0, [];
    }

    /** `Serialize`, for a record whose outpoint hash is not zero (on which
        it would panic): writes field by field, and stops with an error before
        the script when it is too long. */
    method Serialize(w: Writer) returns (err: Option<Error>)
      requires Serializable(Value())
      modifies w
      ensures w.bytes == old(w.bytes) + SerializeWrites(Value()).bytes
      ensures err == SerializeWrites(Value()).err
    {
      var hcb := ShiftLeft1Int32(height);
      if isCoinBase {
        hcb := OrOneInt32(hcb);
      }
      ghost var b0, v := w.bytes, Value();
      ghost var h, ei := outPoint.hash, EncodeVarInt(outPoint.index);
      ghost var e1, e2 := EncodeVarInt(Uint64OfInt32(hcb)), EncodeVarInt(Uint64OfInt64(amount));
      w.Write(outPoint.hash);
      WriteVarInt(w, outPoint.index);
      WriteVarInt(w, Uint64OfInt32(hcb));
      WriteVarInt(w, Uint64OfInt64(amount));
      AppendFour(b0, h, ei, e1, e2);
      ghost var head := (h + ei) + (e1 + e2);
      if |pkScript| > MaxScriptSize {
        return Some(MessageError("LeafData.Serialize", "pkScript too long"));
      }
      WriteVarBytes(w, pkScript);
      AppendTwo(b0, head, EncodeVarBytes(pkScript));
      return None;
    }

    /** `SerializeCompact`. */
    method SerializeCompact(w: Writer) returns (err: Option<Error>)
      modifies w
      ensures w.bytes == old(w.bytes) + SerializeCompactWrites(Value()).bytes
      ensures err == SerializeCompactWrites(Value()).err
    {
      var hcb := ShiftLeft1Int32(height);
      if isCoinBase {
        hcb := OrOneInt32(hcb);
      }
      ghost var b0, v := w.bytes, Value();
      ghost var e1, e2 := EncodeVarInt(Uint64OfInt32(hcb)), EncodeVarInt(Uint64OfInt64(amount));
      WriteVarInt(w, Uint64OfInt32(hcb));
      WriteVarInt(w, Uint64OfInt64(amount));
      AppendTwo(b0, e1, e2);
      if |pkScript| > MaxScriptSize {
        return Some(MessageError("LeafData.SerializeCompact", "pkScript too long"));
      }
      WriteVarBytes(w, pkScript);
      AppendTwo(b0, e1 + e2, EncodeVarBytes(pkScript));
      return None;
    }

    /** `LeafHash`: streams `Serialize` into a fresh digest writer, ignoring
        its error, and digests what was written. */
    method LeafHash(digest: seq<byte> -> Hash) returns (h: Hash)
      requires Serializable(Value())
      ensures h == LeafHashOf(Value(), digest)
    {
      var w := new Writer();
      var _ := Serialize(w);
      assert w.bytes == SerializeWrites(Value()).bytes;
      h := digest(w.bytes);
    }

    /** `Deserialize`. */
    method Deserialize(r: Reader) returns (err: Option<Error>)
      modifies this, r
      ensures var d := DeserializeSpec(old(Value()), old(r.rest));
              Value() == d.leaf && err == d.err && r.rest == d.rest
    {
      var hash, e := r.ReadFull(HashSize);
      outPoint := OutPoint(hash, 0);
      if e.Some? {
        return e;
      }
      var index := ReadVarInt(r);
      if index.Err? {
        return Some(index.error);
      }
      outPoint := outPoint.(index := Uint32OfUint64(index.value));
      err := ReadStxo(r, FullScriptField);
    }

    /** `DeserializeCompact`. */
    method DeserializeCompact(r: Reader) returns (err: Option<Error>)
      modifies this, r
      ensures var d := DeserializeCompactSpec(old(Value()), old(r.rest));
              Value() == d.leaf && err == d.err && r.rest == d.rest
    {
      err := ReadStxo(r, CompactScriptField);
    }

    /** The reads both decoders share: header code, amount and script. */
    method ReadStxo(r: Reader, scriptField: string) returns (err: Option<Error>)
      modifies this, r
      ensures var d := DecodeStxo(old(Value()), old(r.rest), scriptField);
              Value() == d.leaf && err == d.err && r.rest == d.rest
    {
      var code := ReadVarInt(r);
      if code.Err? {
        return Some(code.error);
      }
      height := Int32OfUint64(code.value);
      if height % 2 == 1 {
        isCoinBase := true;
      }
      height := height / 2;
      var amt := ReadVarInt(r);
      if amt.Err? {
        return Some(amt.error);
      }
      amount := Int64OfUint64(amt.value);
      var script := ReadVarBytes(r, MaxScriptSize, scriptField);
      if script.Err? {
        pkScript := [];
        return Some(script.error);
      }
      pkScript := script.value;
      return None;
    }
  }
}
