# utreexod `LeafData` codec in Dafny

This project models `wire/leaf.go` of utreexod. That file holds the leaf record of the utreexo accumulator: for each unspent output, the block hash, the outpoint, the height, the coinbase flag, the amount and the pkScript. It also holds the record's two serialisations and the leaf hash that commits to it.

- **Full format**: the 32-byte outpoint tx hash, then the index, the header code and the amount as CompactSize VarInts, then the length-prefixed pkScript.
- **Compact format**: the same from the header code on.
- **Header code**: `height << 1`, with bit 0 set for a coinbase, computed in int32 arithmetic.
- **Leaf hash**: the digest of the full serialisation.

Files:

- `go_ints.dfy` (module `GoInts`): Go's int32/int64/uint32/uint64 and the conversions `leaf.go` uses. Integers are unbounded in Dafny, so the wrap-around of `<<`, sign extension and truncation are written out.
- `streams.dfy` (module `Streams`):
  - The error values.
  - `io.ReadFull` (`ReadFullAt`).
  - The `Writer` class, an append-only byte buffer standing for the `io.Writer`.
  - The `Reader` class, standing for the `io.Reader`. It holds the bytes not yet consumed, so the reader's position is how much of the original input is gone.
- `var_int.dfy` (module `VarInt`): the wire package's `WriteVarInt`, `ReadVarInt`, `VarIntSerializeSize`, `WriteVarBytes` and `ReadVarBytes`, which `leaf.go` calls. They follow the Bitcoin CompactSize layout: values below `0xfd` take one byte; otherwise `0xfd`, `0xfe` or `0xff` is followed by 2, 4 or 8 little-endian bytes. Decoding refuses a non-canonical encoding, and `ReadVarBytes` refuses a count above its bound. The file that defines these helpers (wire/common.go) is not part of this model, so they are written from that layout.
- `leaf.dfy` (module `Leaf`):
  - The record as a value, `LeafValue`.
  - The specification functions: `SerializeWrites`, `SerializeCompactWrites`, `SerializeSize`, `SerializeSizeCompact`, `DeserializeSpec`, `DeserializeCompactSpec` and `LeafHashOf`.
  - The lemmas about them.
  - The class `LeafData`. Its methods `Serialize`, `SerializeCompact`, `Deserialize`, `DeserializeCompact` and `LeafHash` do what the Go methods do, step by step. Each is proved to agree with its specification function. The two decoders overwrite the fields of the record in place.

The main results:

- **Round trips.** Decoding what either writer wrote leaves the bytes that followed untouched and recovers the height, amount and script, plus the outpoint for the full format (`DeserializeRoundTrip`, `DeserializeCompactRoundTrip`). This holds whenever the height fits in 31 bits and the script is at most 10000 bytes; the full format also needs a non-zero outpoint hash, since `Serialize` panics on a zero one. The decoder only ever sets the coinbase flag, so the target's flag is ORed with the written one. Decoding into a record whose flag is clear, such as `NewLeafData()`, gives every written field back exactly (`DeserializeRoundTripFresh`).
- **Exact height range.** The height comes back exactly when `-2^30 <= height < 2^30` (`HeaderCodeRoundTrip`). This range is wider than the non-negative heights the format was designed for.
- **Canonical encodings.** VarInt and VarBytes encodings are canonical in both directions: decode of encode, and encode of every accepted decode.
- **Refusals.** On any input, once the header code and amount have been read (and, in the full format, the tx hash and index), a script length above 10000 is refused with the length error, leaving the script empty and consuming no byte after the length (`DecodeStxoRefusesAnyLongScript`, `DeserializeRefusesAnyLongScript`, `DeserializeCompactRefusesAnyLongScript`). Short sources are refused at the tx hash. For bytes a writer produced, the exact state the record is left in is stated too.
- **Sizes.** `SerializeSizeCompact` is exact. `SerializeSize` is not: for a script of at most MaxScriptSize (10000) bytes it overstates by 24 to 40 bytes. For a longer script, `Serialize` stops after the amount, so it overstates by more than 10000 bytes.
- **Leaf hash.** The hash depends only on the bytes written: never on the block hash, and, for an overlong script, not on the script either.

Where the comments in `leaf.go` and its code disagree, the model follows the code:

- The format comment lists a block hash first, but neither writer writes one and neither reader reads one.
- The comment calls the integer fields "VLQ", but they are written with `WriteVarInt`, that is CompactSize.

## Model

| member | source | states |
|---|---|---|
| GoInts.WrapInt32 | wire/leaf.go:119 | the int32 result differs from the exact value by a multiple of 2^32, and equals it when it is in int32 range |
| GoInts.OrOneInt32 | wire/leaf.go:120-122 | setting bit 0 of the header code makes it odd: an even code gains one, an odd one is unchanged |
| GoInts.Int32CastRoundTrip | wire/leaf.go:183 | the header code written as `uint64(hcb)` and read back as `int32(height)` is the original int32 |
| GoInts.Int64CastBijection | wire/leaf.go:194 | `uint64(Amount)` on write and `int64(amt)` on read are inverse bijections, so every int64 amount survives |
| GoInts.Uint32CastRoundTrip | wire/leaf.go:176 | the index written as `uint64(Index)` and read back as `uint32(index)` is unchanged |
| GoInts.Int32OfUint64LowBits | wire/leaf.go:183 | `int32(height)` depends only on the low 32 bits of the VarInt read |
| Streams.ReadFullAt | wire/leaf.go:167 | `io.ReadFull` returns an n-byte buffer and succeeds exactly when n bytes are left; on failure it consumes the whole source |
| Streams.ReadFullAtShort | wire/leaf.go:166-170 | a read past the end leaves the available bytes, then zeros, in the buffer, with `EOF` exactly when nothing was left and `UnexpectedEOF` otherwise |
| Streams.ReadFullAtSplits | wire/leaf.go:167 | a successful read splits the input into the buffer and what is left |
| Streams.ReadFullPrefix | wire/leaf.go:167 | reading as many bytes as `b` holds from `b` followed by `tail` returns `b` and leaves `tail` |
| Streams.Writer.Write | wire/leaf.go:133 | `w.Write` appends its argument to what was written before |
| Streams.Reader.ReadFull | wire/leaf.go:167 | the reader's `io.ReadFull` returns buffer and error as `ReadFullAt` does, and leaves the source as it says |
| VarInt.VarIntSerializeSize | wire/leaf.go:108-111 | the size counted is exactly the length of the encoding `WriteVarInt` writes |
| VarInt.WriteVarInt | wire/leaf.go:137 | `WriteVarInt` appends the canonical CompactSize encoding of the value |
| VarInt.DecodeVarInt | wire/leaf.go:172-175 | `ReadVarInt` consumes exactly the size of the value it returns and gives `EOF` on an empty source |
| VarInt.DecodeEncodeVarInt | wire/leaf.go:172-175 | reading the encoding of any uint64 followed by any bytes returns the value and leaves those bytes |
| VarInt.EncodeDecodeVarInt | wire/leaf.go:179-182 | every input `ReadVarInt` accepts starts with the canonical encoding of the value returned, so encodings are unique |
| VarInt.ReadVarInt | wire/leaf.go:172 | the reader-based `ReadVarInt` returns and consumes what `DecodeVarInt` says |
| VarInt.DecodeVarBytes | wire/leaf.go:196 | `ReadVarBytes` returns at most `maxAllowed` bytes and consumes exactly their encoding |
| VarInt.DecodeEncodeVarBytes | wire/leaf.go:196 | a byte string within the bound is read back from its encoding, leaving what follows |
| VarInt.EncodeDecodeVarBytes | wire/leaf.go:196 | every input `ReadVarBytes` accepts starts with the encoding of the bytes returned |
| VarInt.DecodeVarBytesRefusesLong | wire/leaf.go:196 | a count above the bound is refused with the length error right after the count, before any byte it announces |
| VarInt.WriteVarBytes | wire/leaf.go:153 | `WriteVarBytes` appends the length VarInt and then the bytes |
| VarInt.ReadVarBytes | wire/leaf.go:196 | the reader-based `ReadVarBytes` returns and consumes what `DecodeVarBytes` says |
| Leaf.DecodeHeader | wire/leaf.go:183-188 | decoding the header code changes only the height and the coinbase flag, and never clears a flag that was set |
| Leaf.HeaderCodeRoundTrip | wire/leaf.go:179-188 | the coinbase flag always comes back from the header code; the height comes back exactly when `-2^30 <= height < 2^30` |
| Leaf.HeaderCodeOfNonNegativeHeight | wire/leaf.go:119-122 | for `0 <= height < 2^30` the code is `2 * height + bit`, also after the cast to uint64 |
| Leaf.HeaderCodeExamples | wire/leaf.go:119-122 | a coinbase at height 0 has code 1; a non-coinbase at height 5 has code 10 |
| Leaf.DecodeHeaderIgnoresHighBits | wire/leaf.go:183 | header codes that differ by a multiple of 2^32 decode to the same height and flag |
| Leaf.ScriptGuardAsWrittenAdmitsLongScript | wire/leaf.go:149 | the guard as written lets a script of 2^32 + 1 bytes through |
| Leaf.ScriptGuardAsWrittenAgreesBelow4GiB | wire/leaf.go:149 | below 2^32 bytes the guard as written and the intended guard agree |
| Leaf.SerializeScriptBound | wire/leaf.go:145-153 | `Serialize` fails exactly when the script exceeds 10000 bytes, with the `LeafData.Serialize` message error, after writing hash, index, header code and amount and no script byte; otherwise it writes `ExactSerializeSize` bytes ending in the script |
| Leaf.SerializeCompactScriptBound | wire/leaf.go:260-268 | `SerializeCompact` fails exactly on an overlong script, with the `LeafData.SerializeCompact` error, after writing only header code and amount; otherwise its bytes end in the script |
| Leaf.CompactIsFullWithoutOutPoint | wire/leaf.go:248-268 | both writers fail on the same records, and the full bytes are the tx hash and index VarInt followed by the compact bytes |
| Leaf.SerializeSize | wire/leaf.go:106-115 | for a script within bounds, the size as computed equals the bytes written plus 32, plus the VarInt size of the raw height, minus the VarInt size of the header code |
| Leaf.SerializeSizeOverstates | wire/leaf.go:106-115 | for a script of at most MaxScriptSize bytes, the size as computed exceeds the bytes written by at least 24 and at most 40, so it is never exact |
| Leaf.SerializeSizeOverstatesLongScript | wire/leaf.go:106-115 | for a script over MaxScriptSize bytes, which `Serialize` refuses after writing the amount, the size as computed exceeds the bytes written by more than MaxScriptSize |
| Leaf.SerializeSizeExample | wire/leaf.go:109 | a non-coinbase record at height 127 is overstated by exactly 30 bytes |
| Leaf.ExactSerializeSize | wire/leaf.go:118-153 | the size that equals the number of bytes `Serialize` writes for a script within bounds |
| Leaf.SerializeSizeCompact | wire/leaf.go:234-245 | `SerializeSizeCompact` equals the number of bytes `SerializeCompact` writes when it succeeds |
| Leaf.DeserializeSpec | wire/leaf.go:157-202 | `Deserialize` never consumes more than the source holds and never changes the block hash; it never clears the coinbase flag; on success the script is at most 10000 bytes |
| Leaf.DeserializeCompactSpec | wire/leaf.go:272-296 | `DeserializeCompact` leaves the outpoint and block hash, never clears the coinbase flag, and bounds the script on success |
| Leaf.DecodeStxo | wire/leaf.go:179-199 | the shared header-code/amount/script reads leave outpoint and block hash alone and bound the script on success |
| Leaf.DecodeStxoRoundTrip | wire/leaf.go:179-199 | reading the compact bytes of a record sets its height, amount and script, ORs in its flag and leaves the bytes after them |
| Leaf.DeserializeAfterOutPoint | wire/leaf.go:166-176 | after the tx hash and index of an outpoint are read, `Deserialize` continues as the stxo reads on a record holding that outpoint |
| Leaf.DeserializeRoundTrip | wire/leaf.go:157-202 | `Deserialize` of what `Serialize` wrote for a round-tripping record, into any record, yields the written record's outpoint, height, amount and script, ORs in the flag, keeps the target's block hash, returns no error and leaves the bytes after them |
| Leaf.DeserializeRoundTripFresh | wire/leaf.go:299-304 | into `NewLeafData()` the full round trip is exact up to the block hash, which stays zero |
| Leaf.DeserializeCompactRoundTrip | wire/leaf.go:272-296 | `DeserializeCompact` of what `SerializeCompact` wrote recovers height, amount and script, ORs in the flag and leaves the outpoint and block hash of the target |
| Leaf.DeserializeShortSource | wire/leaf.go:166-170 | a source under 32 bytes fails at the tx hash with `EOF` or `UnexpectedEOF`, consumes everything and leaves the bytes read, zero-padded, as the outpoint hash with index 0 |
| Leaf.DecodeStxoRefusesLongScript | wire/leaf.go:196 | a script length above 10000 is refused with the length error once read, after height, flag and amount are set, leaving the script empty |
| Leaf.DeserializeRefusesLongScript | wire/leaf.go:196 | `Deserialize` refuses a script length above 10000 with the `pkscript size` length error, keeping the outpoint, height, flag and amount read, emptying the script and reading no script byte |
| Leaf.DeserializeCompactRefusesLongScript | wire/leaf.go:290 | `DeserializeCompact` refuses a script length above 10000 with the `pkScript size` length error in the same way |
| Leaf.DecodeStxoRefusesAnyLongScript | wire/leaf.go:179-199 | on any input whose header code and amount decode, a script length above 10000 is refused with the length error carrying that length, the script is left empty and nothing after the length is consumed |
| Leaf.DeserializeRefusesAnyLongScript | wire/leaf.go:166-199 | on any input with a 32-byte tx hash and a well-formed index, header code and amount, `Deserialize` refuses a script length above 10000 with the `pkscript size` error, keeps the tx hash read, empties the script and consumes nothing after the length |
| Leaf.DeserializeCompactRefusesAnyLongScript | wire/leaf.go:273-295 | on any input whose header code and amount decode, `DeserializeCompact` refuses a script length above 10000 with the `pkScript size` error, leaves the outpoint, empties the script and consumes nothing after the length |
| Leaf.SerializeInjective | wire/leaf.go:133-153 | two round-tripping records with the same serialisation agree in every field but the block hash |
| Leaf.LeafHashIgnoresBlockHash | wire/leaf.go:42-51 | changing the block hash never changes the leaf hash |
| Leaf.LeafHashOfSameBytes | wire/leaf.go:42-51 | records that serialise to the same bytes have the same leaf hash |
| Leaf.LeafHashIgnoresOverlongScript | wire/leaf.go:44 | the error of `Serialize` is ignored, so two overlong scripts give the same leaf hash |
| Leaf.LeafHashBindsFields | wire/leaf.go:42-51 | `SerializeInjective` restated for hashes: two round-tripping records that differ outside the block hash but hash equally have different serialisations, so they are a collision of the digest |
| Leaf.LeafData.NewLeafData | wire/leaf.go:299-304 | `NewLeafData` returns the all-zero record, which `Serialize` does not accept |
| Leaf.LeafData.Serialize | wire/leaf.go:118-154 | `Serialize` appends exactly the bytes of `SerializeWrites` and returns its error |
| Leaf.LeafData.SerializeCompact | wire/leaf.go:248-269 | `SerializeCompact` appends exactly the bytes of `SerializeCompactWrites` and returns its error |
| Leaf.LeafData.LeafHash | wire/leaf.go:42-51 | `LeafHash` is the digest of the bytes `Serialize` writes into a fresh writer |
| Leaf.LeafData.Deserialize | wire/leaf.go:157-202 | `Deserialize` leaves the record, the error and the unread input as `DeserializeSpec` says |
| Leaf.LeafData.DeserializeCompact | wire/leaf.go:272-296 | `DeserializeCompact` leaves the record, the error and the unread input as `DeserializeCompactSpec` says |
| Leaf.LeafData.ReadStxo | wire/leaf.go:179-199 | the shared reads leave the record, the error and the unread input as `DecodeStxo` says |

## Left out

- The SHA-512/256 digest that `LeafHash` feeds is a parameter `digest: seq<byte> -> Hash`. Its internals are a library call.
- Write errors: the writer is modelled as an infallible append-only buffer. `Serialize` and `SerializeCompact` accept any `io.Writer`; a failing one, and the early returns after each write at wire/leaf.go:134-147 and 256-262, are not modelled.
- Read errors other than running out of input are left out.
- `ToString` is logging only.
- The commented-out block hash reads and writes are not modelled.
- Nil `BlockHash` and `OutPoint` pointers: a `LeafValue` always has both.
- The panic on an all-zero outpoint hash is a `requires Serializable(...)` on `Serialize` and `LeafHash`. It is not an executable failure.
- The protocol-version argument `pver` is unused by these calls and is not modelled.
- Errors are structured values; the formatted text of btcd's message errors is not modelled.
- Leaf.LeafData.Serialize: uses the intended script guard `len(PkScript) > MaxScriptSize` instead of the truncating `uint32(len(PkScript)) > MaxScriptSize`. The two differ only for scripts of 2^32 bytes and more (see Findings).
- Leaf.LeafData.SerializeCompact: uses the intended script guard, for the same reason.
- The converse of the full and compact round trips: no lemma says that re-serialising a record that was decoded from arbitrary accepted bytes gives those bytes back. In general it does not: `DecodeHeaderIgnoresHighBits` and the never-cleared coinbase flag are why.

## Findings

| source | as written | input that shows it | evidently intended | confidence | as-written member | corrected member |
|---|---|---|---|---|---|---|
| wire/leaf.go:106-115 | `SerializeSize` adds two 32-byte hashes and sizes the VarInt of `uint64(Height)` | any record within bounds; a non-coinbase record at height 127 is overstated by 30 bytes | the number of bytes `Serialize` writes, as its doc comment says | high; not executed | Leaf.SerializeSizeOverstates | Leaf.ExactSerializeSize |
| wire/leaf.go:149 | `uint32(len(l.PkScript)) > MaxScriptSize` truncates the length before comparing (also at line 264) | a pkScript of 2^32 + 1 bytes: its length truncates to 1, so the guard passes and the whole script is written | `len(l.PkScript) > MaxScriptSize` | medium; not executed | Leaf.ScriptGuardAsWrittenAdmitsLongScript | Leaf.SerializeScriptBound |
