# STV save editor engine — a verified model

This project models, in Dafny, the engine of the STV save editor
(`stvoy-save-editor`) and its Python prototype. A save file is a 16-byte header followed by a bit-packed
stream. Bits are numbered LSB-first within each byte, so bit `pos` is bit
`pos & 7` of byte `pos >> 3`. The stream is a skeleton of nested chunks that
starts at bit 128. The engine has five parts, and the model follows them one
module each:

- **BitWriter** (`bit_writer.dfy`): stateless single-bit and multi-bit reads
  and writes, and copies, over a byte array. `bit_math.dfy` holds the LSB-first
  arithmetic and the 32-bit two's-complement conversions that C# performs
  implicitly.
- **StreamFormat** and **Reader** (`stream_format.dfy`, `bit_reader.dfy`):
  - `StreamFormat` holds every field encoding as a pure decoder over the bit
    stream: debug-id skip, packed u32/i32/u64, wrapped bools, strings, raw float
    bits, chunk and sub-chunk headers. Each decoder returns `None` where the
    C# code faults.
  - `Reader.BitReader` is the cursor class. Each read method is proved to
    return what the matching decoder returns at the old cursor, and to leave the
    cursor where that decoder stops.
- **PackedEncoding** (`packed_encoding.dfy`): the encoders. They are proved to
  be the canonical inverse of the packed readers.
- **Navigator**, **ResourceTable**, **HullIntegrity**, **ResourcePatch** and
  **SpliceWriter** (`chunk_navigator.dfy`, `resource_table.dfy`,
  `hull_integrity.dfy`, `resource_patch.dfy`, `splice_writer.dfy`):
  - the walk over the chunk skeleton to `cser` and `tsnc`;
  - the resource table;
  - the scan for the `shct` marker and the hull-integrity field after it;
  - `ModifyResources`. It re-encodes quantities, splices the new encodings into
    a freshly sized buffer, moves the four chunk size fields by the total
    change in length, and stamps the new byte length into bytes 0–3.
- **Crc** (`crc32.dfy`): the table-driven checksum. It uses the reflected
  polynomial 0xEDB88320 (the IEEE 802.3 frame check sequence polynomial, clause
  3.2.9), the seed 0x61635263, and no final inversion.
- **Toolkit** (`toolkit.dfy`): the Python prototype `stvoy_toolkit.py`. Its bit
  primitives, navigation and checksum do what the engine's do. Its splice
  applies its patch list as the engine applies its own, but the lists agree
  only where every quantity involved is an `int` other than `int.MinValue`.
  Its readers work on Python's unbounded integers: `read_i32_packed`,
  `read_u64_packed`, `read_string` and `read_resources` are defined on their
  own, and each is tied to the engine's reader by a lemma that says exactly
  where the two agree (up to the wrap to a C# `int` or `long`, and names
  shorter than 2^31 characters). So are `encode_i32_packed`, the patch list
  and the size arithmetic of `modify_resources`.

`ReadResources` records `QuantityBitPos` as the cursor before the quantity's
debug bit. The patch therefore starts one bit later, at the
presence bit, which is also the first bit the encoder emits.

Conventions used throughout:

- A buffer is viewed as `Bits(data)`, a sequence of 0/1 of length `8 * |data|`.
- Faults (an index out of range) are `None` in the decoders and preconditions
  on the methods.
- Failures the callers can trigger are `Result` failures:
  - `NegativeCapacity`: a negative resource count is passed to
    `new List<ResourceEntry>(count)`;
  - `ShctNotFound`: the `InvalidDataException` of a missing hull marker;
  - `AbsOverflow`: `Math.Abs(int.MinValue)` in `EncodeI32`.
- C# `int` behaviour is written out:
  - `ToInt32` is the unchecked cast of a 32-bit pattern;
  - `Wrap32` is unchecked `int` arithmetic;
  - `Pattern32` is the two's-complement pattern that `value >> i` exposes.

## Model

| member | source | states |
|---|---|---|
| BitWriter.ReadBitsAt | STVSaveEditor/STVSaveEditor.Engine/BitWriter.cs:10-16 | returns the `count` bits at `pos` OR-ed into a C# `int` with the shift count taken modulo 32 (`IntAcc` of that window of `Bits(data)`); up to 32 bits that is the window read as an `int` (`Int32Of`); reads but never writes the buffer |
| BitWriter.GetBit | STVSaveEditor/STVSaveEditor.Engine/BitWriter.cs:5-8 | the bit at `pos` is bit `pos % 8` of byte `pos / 8`, counted from the lowest (`(data[pos >> 3] >> (pos & 7)) & 1`), always 0 or 1 |
| BitWriter.SetBit | STVSaveEditor/STVSaveEditor.Engine/BitWriter.cs:18-26 | bit `pos` of the buffer becomes 1 if `val != 0` and 0 otherwise; every other bit keeps its value |
| BitWriter.UpdateInStream | STVSaveEditor/STVSaveEditor.Engine/BitWriter.cs:18-26 | setting or clearing bit `pos & 7` of byte `pos >> 3` changes exactly bit `pos` of the bit stream |
| BitWriter.WriteBits | STVSaveEditor/STVSaveEditor.Engine/BitWriter.cs:28-32 | the window `[pos, pos+count)` becomes bits `i % 32` of the value's two's-complement pattern (`value >> i` on an `int`); all other bits are unchanged |
| BitWriter.WriteBitsUnsigned | STVSaveEditor/STVSaveEditor.Engine/BitWriter.cs:34-38 | the `uint` overload: the window becomes the value's bits, and nothing else changes |
| BitWriter.CopyBits | STVSaveEditor/STVSaveEditor.Engine/BitWriter.cs:40-44 | for distinct arrays: `dst`'s window at `dstPos` becomes `src`'s window at `srcPos`; `src` is untouched, and `dst` bits outside the window are unchanged |
| BitWriter.WriteThenRead | STVSaveEditor/STVSaveEditor.Engine/BitWriter.cs:10-38 | after a write, the `count` bits read back are the low `count` bits of the pattern (LSB first), and their value is the pattern when it fits in `count` bits |
| BitMath.ToInt32 | STVSaveEditor/STVSaveEditor.Engine/ChunkNavigator.cs:58 | the unchecked `(int)` cast of a `uint` is a C# `int` |
| BitMath.IntAccPattern | STVSaveEditor/STVSaveEditor.Engine/BitReader.cs:23-37 | the `int` loop of `ReadBits` and the `uint` loop of `ReadBitsU` build the same 32-bit pattern for any number of bits |
| BitMath.UIntAccValue | STVSaveEditor/STVSaveEditor.Engine/BitReader.cs:31-37 | for at most 32 bits, OR-ing each `(uint)bit << i` into `v` accumulates exactly the unsigned value of the bits, first bit lowest |
| BitMath.IntAccIsInt32Of | STVSaveEditor/STVSaveEditor.Engine/BitReader.cs:23-29 | for at most 32 bits, OR-ing each `bit << i` into an `int` yields the value of the bits, minus 2^32 when bit 31 is set |
| BitMath.WithBitSpec | STVSaveEditor/STVSaveEditor.Engine/BitWriter.cs:22-25 | `b \| (1<<k)` and `b & ~(1<<k)` change bit `k` to the given value and keep every other bit |
| BitMath.ValueOfLowBits | STVSaveEditor/STVSaveEditor.Engine/PackedEncoding.cs:25-26 | writing the low `n` bits of `v < 2^n` and reading them back gives `v` |
| BitMath.LowBitsOfValue | STVSaveEditor/STVSaveEditor.Engine/BitReader.cs:31-37 | re-writing the value read from a bit window gives back the same window |
| Reader.BitReader.constructor | STVSaveEditor/STVSaveEditor.Engine/BitReader.cs:10-14 | the reader reads the given buffer from the given position |
| Reader.BitReader.ReadBool | STVSaveEditor/STVSaveEditor.Engine/BitReader.cs:16-21 | returns the bit at `Pos`, and `Pos` moves on by one |
| Reader.BitReader.ReadBits | STVSaveEditor/STVSaveEditor.Engine/BitReader.cs:23-29 | `Pos` moves on by `count`; the result is the `int` accumulation of the bits read (`IntAcc`, shift counts modulo 32), and for `count <= 32` it is `IntBitsAt` at the old `Pos` |
| Reader.BitReader.ReadBitsU | STVSaveEditor/STVSaveEditor.Engine/BitReader.cs:31-37 | `Pos` moves on by `count`; the result is below 2^32 and is the `uint` accumulation of the bits read (`UIntAcc`: bit `i` lands on bit `i % 32`), and for `count <= 32` it is `BitsAt` at the old `Pos` (the unsigned value) |
| Reader.BitReader.DebugSkip | STVSaveEditor/STVSaveEditor.Engine/BitReader.cs:39-44 | `Pos` moves on exactly as `DebugSkipAt` does (1 bit, or 33 for a real id) |
| Reader.BitReader.ReadU32Packed | STVSaveEditor/STVSaveEditor.Engine/BitReader.cs:46-53 | returns `U32PackedAt` at the old `Pos`, and `Pos` ends where it stops |
| Reader.BitReader.ReadI32Packed | STVSaveEditor/STVSaveEditor.Engine/BitReader.cs:55-64 | returns `I32PackedAt` at the old `Pos` (negation wraps), and `Pos` ends where it stops |
| Reader.BitReader.ReadU64Packed | STVSaveEditor/STVSaveEditor.Engine/BitReader.cs:66-72 | returns `U64PackedAt` at the old `Pos` (`(hi << 32) \| lo` as a `long`) |
| Reader.BitReader.ReadBoolWrapped | STVSaveEditor/STVSaveEditor.Engine/BitReader.cs:74-78 | returns `BoolWrappedAt` at the old `Pos` |
| Reader.BitReader.ReadString | STVSaveEditor/STVSaveEditor.Engine/BitReader.cs:80-91 | returns `StringAt` at the old `Pos` (width, base and `length` characters), and `Pos` ends where it stops |
| Reader.BitReader.ReadFloat | STVSaveEditor/STVSaveEditor.Engine/BitReader.cs:93-98 | returns the raw 32-bit pattern `FloatBitsAt` reads |
| Reader.BitReader.ReadChunkHeader | STVSaveEditor/STVSaveEditor.Engine/BitReader.cs:100-113 | returns `ChunkHeaderAt` at the old `Pos`; `SizePos` is where the 32-bit size starts, `DataStart == SizePos + 32 == Pos`, and `Size` is the `int` read there |
| Reader.BitReader.SkipChunk | STVSaveEditor/STVSaveEditor.Engine/BitReader.cs:115-120 | `Pos` ends where `SkipChunkAt` says, computed from `DataEnd` |
| Reader.BitReader.ReadChunkStart | STVSaveEditor/STVSaveEditor.Engine/BitReader.cs:122-135 | returns `ChunkStartAt` at the old `Pos`; `DataStart == Pos`, right after the 32-bit size |
| StreamFormat.BitsAt | STVSaveEditor/STVSaveEditor.Engine/BitReader.cs:31-37 | an unsigned read of `n` bits is below `2^n` and ends `n` bits later |
| StreamFormat.IntBitsAt | STVSaveEditor/STVSaveEditor.Engine/BitReader.cs:23-29 | an `int` read of `n <= 32` bits is a C# `int`, is non-negative and below `2^n` when `n < 32`, and ends `n` bits later |
| StreamFormat.IntBitsLayout | STVSaveEditor/STVSaveEditor.Engine/BitReader.cs:23-29 | the cursor read of `n` bits equals `ReadBitsAt` over the same window |
| StreamFormat.U32PackedAt | STVSaveEditor/STVSaveEditor.Engine/BitReader.cs:46-53 | a packed unsigned value is below `2^32` |
| StreamFormat.I32PackedAt | STVSaveEditor/STVSaveEditor.Engine/BitReader.cs:55-64 | a packed signed value is a C# `int` |
| StreamFormat.DebugSkipLayout | STVSaveEditor/STVSaveEditor.Engine/BitReader.cs:39-44 | the debug skip consumes 1 bit when `oid == -1` and 33 otherwise, whatever the bits are, and fails only past the end |
| StreamFormat.U32PackedLayout | STVSaveEditor/STVSaveEditor.Engine/BitReader.cs:46-53 | a 0 presence bit gives 0 after exactly 2 bits; otherwise `2 + 5 + (32 - lzc)` bits are consumed and the value is below `2^(32-lzc)` |
| StreamFormat.I32PackedLayout | STVSaveEditor/STVSaveEditor.Engine/BitReader.cs:55-64 | a 0 presence bit gives 0 with no sign bit; otherwise the sign bit follows the presence bit, then 5 bits of `lzc` and `32 - lzc` magnitude bits, and a set sign negates the magnitude (wrapping) |
| StreamFormat.U64PackedFrom | STVSaveEditor/STVSaveEditor.Engine/BitReader.cs:66-72 | one debug skip, then two packed u32 reads, and the result is `hi * 2^32 + lo` read as a `long` |
| StreamFormat.StringLayout | STVSaveEditor/STVSaveEditor.Engine/BitReader.cs:80-91 | length 0 gives "" and nothing is read after the length; otherwise the string has exactly `length` characters and ends `length * w` bits after the base |
| StreamFormat.CharsElement | STVSaveEditor/STVSaveEditor.Engine/BitReader.cs:88-89 | character `i` is the `w`-bit value at `i * w` bits into the run plus the base |
| StreamFormat.CharsAt | STVSaveEditor/STVSaveEditor.Engine/BitReader.cs:88-89 | the character run has exactly the requested number of characters |
| StreamFormat.SkipChunkLayout | STVSaveEditor/STVSaveEditor.Engine/BitReader.cs:115-120 | skipping a chunk ends at `DataEnd + 1` when the bit at `DataEnd` is 0, and at `DataEnd + 33` otherwise |
| StreamFormat.Repeat | STVSaveEditor/STVSaveEditor.Engine/ChunkNavigator.cs:56-71 | reading `n` items one after the other yields exactly `n` items |
| StreamFormat.RepeatSpans | STVSaveEditor/STVSaveEditor.Engine/ChunkNavigator.cs:56-71 | when each item holds a window strictly inside itself, the windows of `n` items read in a row are inside the run and in order, without overlap |
| StreamFormat.I32PackedFrame | STVSaveEditor/STVSaveEditor.Engine/BitReader.cs:55-64 | a signed packed read that ends by `lo` reads the same in any stream with the same bits before `lo` |
| StreamFormat.ChunkHeaderFrame | STVSaveEditor/STVSaveEditor.Engine/BitReader.cs:100-113 | a chunk header that ends by `lo` reads the same in any stream with the same bits before `lo` |
| StreamFormat.SkipChunkFrame | STVSaveEditor/STVSaveEditor.Engine/BitReader.cs:115-120 | a chunk skip that ends by `lo` lands at the same place in any stream with the same bits before `lo` |
| PackedEncoding.CountLeadingZeros | STVSaveEditor/STVSaveEditor.Engine/PackedEncoding.cs:16-21 | the loop counts the true leading zeros of a nonzero 32-bit value: `lzc < 32` and `lzc == 32 - bitlength` |
| PackedEncoding.EncodeU32 | STVSaveEditor/STVSaveEditor.Engine/PackedEncoding.cs:30-51 | the list the loops build is the canonical encoding `U32Bits(value)` |
| PackedEncoding.EncodeI32 | STVSaveEditor/STVSaveEditor.Engine/PackedEncoding.cs:5-28 | `int.MinValue` fails with the `Math.Abs` overflow; every other value gives `I32Bits(value)` |
| PackedEncoding.EncodeZero | STVSaveEditor/STVSaveEditor.Engine/PackedEncoding.cs:8-12 | both encoders turn 0 into the single bit `[0]` |
| PackedEncoding.U32Layout | STVSaveEditor/STVSaveEditor.Engine/PackedEncoding.cs:38-50 | a nonzero value is `[1]`, then the 5 bits of `32 - bitlength`, then `bitlength` value bits: length `6 + bitlength`, all bits 0 or 1 |
| PackedEncoding.I32Layout | STVSaveEditor/STVSaveEditor.Engine/PackedEncoding.cs:13-27 | a nonzero value is `[1, sign]`, then 5 bits of `lzc`, then `32 - lzc` magnitude bits: length `7 + bitlength(\|v\|)` |
| PackedEncoding.U32Canonical | STVSaveEditor/STVSaveEditor.Engine/PackedEncoding.cs:39-49 | the encoded `lzc` is at most 31, and the last value bit is 1 |
| PackedEncoding.I32Canonical | STVSaveEditor/STVSaveEditor.Engine/PackedEncoding.cs:16-26 | the encoded `lzc` is at most 31, and the last magnitude bit is 1 |
| PackedEncoding.NegationFlipsSign | STVSaveEditor/STVSaveEditor.Engine/PackedEncoding.cs:14-26 | the encodings of `v` and `-v` have the same length and differ only in the sign bit at index 1 |
| PackedEncoding.ZeroField | STVSaveEditor/STVSaveEditor.Engine/BitReader.cs:46-64 | a zero presence bit after the debug bit reads as 0, two bits on, for both packed readers |
| PackedEncoding.U32RoundTrip | STVSaveEditor/STVSaveEditor.Engine/PackedEncoding.cs:30-51 | a debug bit followed by `EncodeU32(v)` decodes with `ReadU32Packed(-1)` to `v`, ending right after the encoding |
| PackedEncoding.I32RoundTrip | STVSaveEditor/STVSaveEditor.Engine/PackedEncoding.cs:5-28 | a debug bit followed by `EncodeI32(v)` (any `int` but `int.MinValue`) decodes with `ReadI32Packed(-1)` to `v`, ending right after the encoding |
| PackedEncoding.I32WidthWithin | STVSaveEditor/STVSaveEditor.Engine/PackedEncoding.cs:5-28 | a value read from any packed encoding occupied at least as many bits as its canonical re-encoding |
| Navigator.NavigateToCser | STVSaveEditor/STVSaveEditor.Engine/ChunkNavigator.cs:9-19 | the reader is on the given buffer; the returned header is the fifth header of the walk from bit 128 (read parw, read daeh, skip it, read emag, trts, cser), and the cursor is where that walk ends |
| Navigator.NavigateToTsnc | STVSaveEditor/STVSaveEditor.Engine/ChunkNavigator.cs:21-37 | the returned header is the eighth header of the longer walk that also skips cser, psjv and tces, and the cursor is where that walk ends |
| Navigator.GetChunkSizePositions | STVSaveEditor/STVSaveEditor.Engine/ChunkNavigator.cs:39-49 | exactly four positions: the `SizePos` of parw, emag, trts and cser, in walk order, each holding a readable 32-bit size |
| Navigator.TsncPassesCser | STVSaveEditor/STVSaveEditor.Engine/ChunkNavigator.cs:21-37 | the walk to `tsnc` first goes through the walk to `cser`; its first five headers are that walk's headers |
| Navigator.WalkHeaders | STVSaveEditor/STVSaveEditor.Engine/ChunkNavigator.cs:9-37 | a longer walk extends a shorter one: the earlier headers are a prefix of the later ones |
| Navigator.RoutesAgree | STVSaveEditor/STVSaveEditor.Engine/ChunkNavigator.cs:9-37 | the two routes make the same first six moves |
| Navigator.TsncWalkEnd | STVSaveEditor/STVSaveEditor.Engine/ChunkNavigator.cs:21-37 | the walk to `tsnc` reads eight headers and stops at the start of `tsnc`'s data |
| Navigator.WalkFrame | STVSaveEditor/STVSaveEditor.Engine/ChunkNavigator.cs:9-37 | a walk all of whose moves stop by `lo` walks the same way in any stream with the same bits before `lo` |
| ResourceTable.ReadResources | STVSaveEditor/STVSaveEditor.Engine/ChunkNavigator.cs:51-73 | returns `ResourcesAt`: a negative `rict` count fails at the list capacity; otherwise there are `count` entries read one after the other |
| ResourceTable.ReadEntry | STVSaveEditor/STVSaveEditor.Engine/ChunkNavigator.cs:58-70 | one entry: the unsigned index cast to `int`, the `rinm` name, the quantity and `IsItem == (flag != 0)`; `QuantityBitPos` is the cursor before the quantity's debug bit |
| ResourceTable.ResourceCount | STVSaveEditor/STVSaveEditor.Engine/ChunkNavigator.cs:54-72 | a successful read holds exactly `count` entries, and the count is not negative |
| ResourceTable.NegativeCount | STVSaveEditor/STVSaveEditor.Engine/ChunkNavigator.cs:54-55 | the read fails with the capacity error exactly when the count is negative |
| ResourceTable.EntryQuantity | STVSaveEditor/STVSaveEditor.Engine/ChunkNavigator.cs:60-62 | the quantity decodes at `QuantityBitPos`, which lies strictly inside the entry, before the flag |
| ResourceTable.TableLayout | STVSaveEditor/STVSaveEditor.Engine/ChunkNavigator.cs:56-71 | in a decoded table, every quantity decodes at its recorded position; the quantities lie inside the table, in order, without overlap |
| HullIntegrity.FindShctPosition | STVSaveEditor/STVSaveEditor.Engine/ChunkNavigator.cs:75-91 | the scan loop returns `ScanFrom` over `[DataStart, DataEnd - 33)`: where the first marker's tagged packed value ends, or nothing |
| HullIntegrity.ScanFinds | STVSaveEditor/STVSaveEditor.Engine/ChunkNavigator.cs:77-87 | a found position belongs to the first marker in range (a set bit followed by `shct`, none before it), and is the end of the tagged packed value read there |
| HullIntegrity.ScanMisses | STVSaveEditor/STVSaveEditor.Engine/ChunkNavigator.cs:77-90 | when nothing is found, no position in range holds a marker |
| HullIntegrity.ReadHullIntegrity | STVSaveEditor/STVSaveEditor.Engine/ChunkNavigator.cs:93-104 | returns `HullAt`: failure when the marker is missing; otherwise the raw 32 bits 8 bits after the marker's value, and their position |
| HullIntegrity.SetHullIntegrity | STVSaveEditor/STVSaveEditor.Engine/ChunkNavigator.cs:106-111 | finds the field as `ReadHullIntegrity` does; on failure writes nothing; otherwise overwrites exactly those 32 bits with the new pattern, and the length is unchanged; when every position of the walk to `tsnc` lies at or before its data start, reading the hull again gives the new pattern at the same position |
| HullIntegrity.HullWriteRead | STVSaveEditor/STVSaveEditor.Engine/ChunkNavigator.cs:101-110 | after the write, the 32 bits at the field read back as the new pattern, and every other bit is as before |
| HullIntegrity.ScanFrame | STVSaveEditor/STVSaveEditor.Engine/ChunkNavigator.cs:75-91 | a scan whose result ends by `lo` finds the same in any stream with the same bits before `lo` |
| HullIntegrity.HullRewrite | STVSaveEditor/STVSaveEditor.Engine.Tests/IntegrationTests.cs:63-79 | after `SetHullIntegrity` writes a new pattern, `ReadHullIntegrity` succeeds, at the same bit position, with the new pattern, provided every position the walk to `tsnc` passes through lies at or before `tsnc`'s data start |
| ResourcePatch.BuildPatches | STVSaveEditor/STVSaveEditor.Engine/ChunkNavigator.cs:118-127 | the loop builds `PatchesFor`: one patch per entry whose name is a key, at `QuantityBitPos + 1`, replacing as many bits as the old quantity's encoding by the new value's encoding |
| ResourcePatch.PlanPatches | STVSaveEditor/STVSaveEditor.Engine/ChunkNavigator.cs:113-127 | reads the table and the size positions, and returns `PlanAt`: the table's failure, the encoder's failure, or the patches with the four size positions |
| ResourcePatch.PatchStep | STVSaveEditor/STVSaveEditor.Engine/ChunkNavigator.cs:119-126 | one round of the loop: a name that is not a key adds nothing; an unencodable one fails; otherwise one patch is appended |
| ResourcePatch.PatchesFail | STVSaveEditor/STVSaveEditor.Engine/ChunkNavigator.cs:123-124 | building fails exactly when some entry to modify has `int.MinValue` as its old or new quantity, and then with the `Math.Abs` overflow |
| ResourcePatch.FailureSticks | STVSaveEditor/STVSaveEditor.Engine/ChunkNavigator.cs:119-127 | once building has failed, later entries do not change the failure |
| ResourcePatch.NoMatchNoPatch | STVSaveEditor/STVSaveEditor.Engine/ChunkNavigator.cs:119-129 | there are no patches exactly when no entry's name is a key; other keys are ignored |
| ResourcePatch.PatchSource | STVSaveEditor/STVSaveEditor.Engine/ChunkNavigator.cs:119-126 | every patch comes from an entry whose name is a key |
| ResourcePatch.EntryPatched | STVSaveEditor/STVSaveEditor.Engine/ChunkNavigator.cs:119-126 | every entry whose name is a key has a patch, at the index given by the number of patches before it |
| ResourcePatch.PatchesPrefix | STVSaveEditor/STVSaveEditor.Engine/ChunkNavigator.cs:119-126 | the patches of a prefix of the table are a prefix of the patches |
| ResourcePatch.ResourcesSpaced | STVSaveEditor/STVSaveEditor.Engine/ChunkNavigator.cs:51-73 | the quantities of a read table lie inside the stream, in increasing order, each followed by at least its canonical width |
| ResourcePatch.QuantityWindow | STVSaveEditor/STVSaveEditor.Engine/ChunkNavigator.cs:123-125 | the replaced window `[QuantityBitPos + 1, + oldLen)` lies inside the quantity's own encoding |
| ResourcePatch.PlanChained | STVSaveEditor/STVSaveEditor.Engine/ChunkNavigator.cs:131 | a plan's patches lie inside the stream, each starting at or after the end of the one before, so their positions strictly increase; no two compare equal, and sorting by position, stable or not, leaves them as they are |
| ResourcePatch.OldLenPositive | STVSaveEditor/STVSaveEditor.Engine/ChunkNavigator.cs:123-125 | every patch replaces at least one bit, the width of a canonical encoding |
| ResourcePatch.PatchesChainedUpTo | STVSaveEditor/STVSaveEditor.Engine/ChunkNavigator.cs:119-127 | the patches built from well-spaced entries are in order and do not overlap |
| ResourcePatch.SplicedLength | STVSaveEditor/STVSaveEditor.Engine/ChunkNavigator.cs:133-151 | the spliced stream is `8 * len + totalDelta` bits long |
| ResourcePatch.ProducedLength | STVSaveEditor/STVSaveEditor.Engine/ChunkNavigator.cs:138-149 | after `k` rounds, `dstPos == srcPos + the delta of the first k patches` |
| ResourcePatch.ProducedGrows | STVSaveEditor/STVSaveEditor.Engine/ChunkNavigator.cs:138-149 | later rounds only append to what the earlier rounds produced |
| ResourcePatch.PatchLands | STVSaveEditor/STVSaveEditor.Engine/ChunkNavigator.cs:139-149 | in the spliced stream, the gap before patch `k` is the source's gap, shifted by the running delta, and the patch's new bits follow it |
| ResourcePatch.TailLands | STVSaveEditor/STVSaveEditor.Engine/ChunkNavigator.cs:151 | the spliced stream ends with the source after the last patch |
| ResourcePatch.SplicePrefix | STVSaveEditor/STVSaveEditor.Engine/ChunkNavigator.cs:138-143 | the spliced stream starts with the source's bits before the first patch |
| SpliceWriter.WriteNewBits | STVSaveEditor/STVSaveEditor.Engine/ChunkNavigator.cs:145-146 | the `SetBit` loop overwrites exactly the window at `dstPos` with the new bits |
| SpliceWriter.SplicePatch | STVSaveEditor/STVSaveEditor.Engine/ChunkNavigator.cs:139-149 | one round of the copy loop: `srcPos` and `dstPos` advance past patch `k`, and the buffer holds the first `k + 1` rounds' output followed by zeros |
| SpliceWriter.SplicePatches | STVSaveEditor/STVSaveEditor.Engine/ChunkNavigator.cs:138-149 | the copy loop and the tail copy leave the zeroed buffer holding the spliced stream, followed by zero padding |
| SpliceWriter.SpliceTail | STVSaveEditor/STVSaveEditor.Engine/ChunkNavigator.cs:151 | the tail copy completes the spliced stream |
| SpliceWriter.ZeroBytes | STVSaveEditor/STVSaveEditor.Engine/ChunkNavigator.cs:136 | a fresh byte array is all zero bits |
| SpliceWriter.FixSizeFields | STVSaveEditor/STVSaveEditor.Engine/ChunkNavigator.cs:153-158 | the size loop leaves the buffer as `FixSizes`: each field overwritten with the old stream's value there plus the delta, in unchecked `int` arithmetic |
| SpliceWriter.FixSizesWrites | STVSaveEditor/STVSaveEditor.Engine/ChunkNavigator.cs:153-158 | for disjoint fields, field `i` holds the pattern of its moved size after the whole loop |
| SpliceWriter.FixedFieldReads | STVSaveEditor/STVSaveEditor.Engine/ChunkNavigator.cs:155-157 | each fixed field reads back as the old size plus the delta, wrapped to an `int` |
| SpliceWriter.FixSizesKeeps | STVSaveEditor/STVSaveEditor.Engine/ChunkNavigator.cs:153-158 | a bit outside every size field is not touched by the size loop |
| SpliceWriter.PatternReadsBack | STVSaveEditor/STVSaveEditor.Engine/ChunkNavigator.cs:155-157 | writing an `int`'s 32-bit pattern and reading it as an `int` gives it back |
| SpliceWriter.StampReadsBack | STVSaveEditor/STVSaveEditor.Engine/ChunkNavigator.cs:160 | the four little-endian bytes of the stamp read back as the length modulo 2^32 |
| SpliceWriter.StampLength | STVSaveEditor/STVSaveEditor.Engine/ChunkNavigator.cs:160 | bytes 0–3 become the array's length as a little-endian `uint`; the rest is unchanged |
| SpliceWriter.BodyIs | STVSaveEditor/STVSaveEditor.Engine/ChunkNavigator.cs:133-158 | the new buffer before the stamp is the spliced stream, zero-padded to `(8 * len + delta + 7) / 8` bytes, with its size fields fixed |
| SpliceWriter.WriteBody | STVSaveEditor/STVSaveEditor.Engine/ChunkNavigator.cs:133-158 | allocates `(8 * len + delta + 7) / 8` bytes and fills them with `Body` |
| SpliceWriter.StampKeeps | STVSaveEditor/STVSaveEditor.Engine/ChunkNavigator.cs:160 | the stamp changes only the first 32 bits |
| SpliceWriter.ApplyPlan | STVSaveEditor/STVSaveEditor.Engine/ChunkNavigator.cs:133-162 | a fresh array of the new length, whose first four bytes hold that length and whose bits from 32 on are `Body` |
| SpliceWriter.ModifyResources | STVSaveEditor/STVSaveEditor.Engine/ChunkNavigator.cs:113-163 | a failure where the source throws; the input array itself when no name matches; otherwise a fresh array of the new length, stamped with it, whose bits from 32 on are `Modified` |
| SpliceWriter.SizeFieldMoved | STVSaveEditor/STVSaveEditor.Engine/ChunkNavigator.cs:153-158 | in the output, each size field reads as its old value plus the total delta (wrapped to an `int`) |
| SpliceWriter.PrefixKept | STVSaveEditor/STVSaveEditor.Engine/ChunkNavigator.cs:138-143 | every output bit before the first patch, outside the size fields, is the input's bit |
| SpliceWriter.BodyFrom | STVSaveEditor/STVSaveEditor.Engine/ChunkNavigator.cs:151-158 | past the last size field, the output is the spliced stream |
| SpliceWriter.BodyAgrees | STVSaveEditor/STVSaveEditor.Engine/ChunkNavigator.cs:138-158 | when the size fields precede the first patch, the output agrees with the spliced stream from the first patch on |
| SpliceWriter.PatchInOutput | STVSaveEditor/STVSaveEditor.Engine/ChunkNavigator.cs:145-147 | in the output, patch `k`'s new bits start at its position shifted by the delta of the patches before it |
| SpliceWriter.GapInOutput | STVSaveEditor/STVSaveEditor.Engine/ChunkNavigator.cs:141-143 | in the output, the bits between two patches are the input's, shifted by the running delta |
| SpliceWriter.TailInOutput | STVSaveEditor/STVSaveEditor.Engine/ChunkNavigator.cs:151 | in the output, the input after the last patch follows, shifted by the total delta |
| SpliceWriter.PatchIn | STVSaveEditor/STVSaveEditor.Engine/ChunkNavigator.cs:139-149 | in any stream that agrees with the spliced stream from the first patch on, patch `k`'s new bits sit at its shifted position |
| SpliceWriter.GapIn | STVSaveEditor/STVSaveEditor.Engine/ChunkNavigator.cs:141-143 | in such a stream, the gap before patch `k` is the source's gap, shifted |
| SpliceWriter.TailIn | STVSaveEditor/STVSaveEditor.Engine/ChunkNavigator.cs:151 | in such a stream, the source's tail follows, shifted by the total delta |
| SpliceWriter.NewQuantityIn | STVSaveEditor/STVSaveEditor.Engine/ChunkNavigator.cs:123-125 | in any stream that agrees with the spliced stream from the first patch on, the quantity of every modified resource decodes to the requested value at its old presence bit shifted by the delta of the patches for the entries before it |
| SpliceWriter.WindowDecodes | STVSaveEditor/STVSaveEditor.Engine/PackedEncoding.cs:5-28 | an encoding placed after any debug bit decodes to its value |
| SpliceWriter.ModifiedQuantity | STVSaveEditor/STVSaveEditor.Engine.Tests/IntegrationTests.cs:34-61 | in `Modified`, the quantity of every modified resource decodes to the requested value, at its old presence bit shifted by the delta of the patches for the entries before it |
| Crc.BuildTable | STVSaveEditor/STVSaveEditor.Engine/Crc32.cs:10-21 | a 256-entry table whose entry `i` is 8 reflected shift/xor rounds of `i` with 0xEDB88320 |
| Crc.Compute | STVSaveEditor/STVSaveEditor.Engine/Crc32.cs:23-31 | folds the bytes through the table from the seed 0x61635263, with no final inversion, and leaves the input unchanged |
| Crc.TableFold | STVSaveEditor/STVSaveEditor.Engine/Crc32.cs:23-31 | the table-driven fold equals the fold by direct rounds (`Checksum`) |
| Crc.StepByTable | STVSaveEditor/STVSaveEditor.Engine/Crc32.cs:28 | one table lookup step equals one direct step |
| Crc.FoldAppend | STVSaveEditor/STVSaveEditor.Engine/Crc32.cs:26-29 | the checksum of `s + [b]` is `(c >> 8) ^ Table[(c ^ b) & 0xFF]` where `c` is the checksum of `s` |
| Crc.FoldConcat | STVSaveEditor/STVSaveEditor.Engine/Crc32.cs:26-29 | folding over `a + b` is folding over `b` from the state after `a` |
| Crc.EmptyChecksum | STVSaveEditor/STVSaveEditor.Engine/Crc32.cs:25-30 | the checksum of no bytes is the seed 0x61635263 |
| Crc.KnownEntries | STVSaveEditor/STVSaveEditor.Engine/Crc32.cs:10-21 | `Table[0] == 0` and `Table[1] == 0x77073096` |
| Crc.FourBytes | STVSaveEditor/STVSaveEditor.Engine/Crc32.cs:23-31 | the checksum of `[0, 1, 2, 3]` is 0x98339296, which is neither 0 nor the seed |
| Toolkit.PyEncodeAgrees | stvoy_toolkit.py:181-200 | `encode_i32_packed` equals `EncodeI32` on every value the engine accepts; on `-2**31` Python gives a 39-bit encoding where the engine fails |
| Toolkit.PyMinValueReads | stvoy_toolkit.py:181-200 | the engine reads Python's encoding of `-2**31` back as `int.MinValue`, because the negation wraps |
| Toolkit.PyReadWraps | stvoy_toolkit.py:110-118 | `read_i32_packed` and `ReadI32Packed` fail on the same streams and stop at the same place; the engine's value is Python's value wrapped to an `int` |
| Toolkit.PyCountWraps | stvoy_toolkit.py:315-316 | Python's `rict` count is strictly between -2^32 and 2^32, and the engine's count is it wrapped to an `int`; both fail on the same streams |
| Toolkit.PyU64Agrees | stvoy_toolkit.py:120-124 | `read_u64_packed` and `ReadU64Packed` fail on the same streams and stop at the same place; Python's value is below 2^64 and the engine's is it read as a signed `long` |
| Toolkit.PyStringAgrees | stvoy_toolkit.py:130-137 | where `read_string` fails the engine faults too; otherwise the engine reads the same string when it is shorter than 2^31 characters and faults when it is not |
| Toolkit.PyEntryAgrees | stvoy_toolkit.py:318-329 | one entry: where Python fails the engine faults; otherwise the engine reads the entry with the index cast to `int` and the quantity wrapped, unless the name is too long |
| Toolkit.PyEntriesAgree | stvoy_toolkit.py:317-330 | `n` entries: where Python fails the engine faults; otherwise the engine reads the engine views of all of Python's entries exactly when every name fits, and faults otherwise |
| Toolkit.NegateMinValue | STVSaveEditor/STVSaveEditor.Engine/BitReader.cs:63 | `-int.MinValue` wraps to `int.MinValue` |
| Toolkit.PyResourcesAgree | stvoy_toolkit.py:313-331 | both read the same count up to the wrap to an `int`; where the count fits, a negative one gives Python `[]` and the engine its capacity failure, and otherwise the engine returns the engine views of Python's entries, faulting exactly where Python faults or a name is 2^31 characters or longer; a count of 2^31 or more fails in the engine, and one below -2^31 is empty for Python but positive for the engine |
| Toolkit.PyPatchesAgree | stvoy_toolkit.py:386-401 | when every modified entry's quantity and new value are `int`s other than `int.MinValue`, Python's patch list (built from the quantities it read, unwrapped) equals the engine's `PatchesFor` over the engine's view of the same table |
| Toolkit.PyPatchesDiverge | stvoy_toolkit.py:386-401 | outside that domain the lists differ: a stored magnitude of 2^32 - 1 with a clear sign is 4294967295 to Python, whose patch replaces 39 bits, and -1 to the engine, whose patch replaces 8 |
| Toolkit.PyEncodeWide | stvoy_toolkit.py:181-200 | a new value whose magnitude is a nonzero multiple of 2^32 is encoded with a leading-zero count of 32, whose five written bits read as 0, and no magnitude bits |
| Toolkit.PySizeAgrees | stvoy_toolkit.py:441-445 | Python's unbounded `old_size + total_delta`, written as 32 bits, is the same bit pattern the engine's wrapped `int` sum writes |

## Left out

- File I/O, the backup copy, base64, save-folder discovery, the WPF user
  interface and the Python command line. They are outside the engine's
  bit-level logic, and `SaveFile` is not part of this model.
- Floating point. The hull value and float fields are kept as their raw 32-bit
  patterns (`HullData.raw`, `ReadFloat`'s result). The conversions
  `Int32BitsToSingle` and `SingleToInt32Bits` are not modelled, and neither is
  Python's `struct.pack('<f')`. `SetHullIntegrity` takes the new float as its
  raw pattern.
- Chunk tags and parents are kept as their raw 32-bit values. The ASCII
  decoding into strings is not modelled.
- `ReadString` builds each character as a UTF-16 code unit. The model requires
  the value to be below 0xD800, which a 4-bit width and an 8-bit base always
  meet.
- Bit positions are unbounded integers. The source keeps them in C# `int`s
  (`Pos`, `pos + i`, `data.Length * 8` in the readers), which overflow for
  buffers of 2^28 bytes or more; the model reads such buffers as if the
  positions did not wrap.
- Index faults are not values. A read past the buffer is `None` in the decoders
  and a precondition on the methods and loops, so the model says nothing about
  which exception the source throws.
- The `List.Sort` call in `ModifyResources` is not performed. `List.Sort` is
  not a stable sort, but `ResourcePatch.PlanChained` proves the patch positions
  are already strictly increasing (`ResourcePatch.OldLenPositive`: every patch
  replaces at least one bit), so no two patches compare equal and any sort by
  position leaves the list as it is.
- SpliceWriter.ModifyResources: the `int` overflow of `data.Length * 8` and of
  the LINQ `Sum` is excluded by a precondition (`Fits`), and so are size fields
  that do not fit in the new buffer. The output is stated as `Modified`, not
  decoded again as a whole.
- SpliceWriter.SizeFieldMoved, PrefixKept, PatchInOutput, GapInOutput and
  TailInOutput are stated about the new buffer at the bit level.
  `SizesBefore` (every size field ends before the first patch) and disjoint size
  fields are preconditions, not derived from the chunk layout. The Python
  source's own comment relies on the same fact.
- SpliceWriter.ModifiedQuantity re-reads a modified quantity from `Modified`
  (the output from bit 32 on) only when every size field ends before the first
  patch (`SizesBefore`), the same precondition as `SpliceWriter.BodyAgrees`.
- "Other resources' quantities are unchanged" is proved at the bit level only.
  The gaps between patches are the input's bits, shifted. No separate lemma
  re-reads the unmodified entries from the new buffer.
- HullIntegrity.HullRewrite (and the matching clause of
  `HullIntegrity.SetHullIntegrity`) proves that `ReadHullIntegrity` on the
  written buffer finds the same field and reads the new pattern only when every
  position the walk to `tsnc` passes through lies at or before the start of
  `tsnc`'s data (`WalkWithin`). Under that condition every bit the walk, the
  scan and the marker's value read lies before the field. A chunk skip moves to
  `DataEnd`, computed from a stored size, so the condition does not follow from
  where the walk ends, and a save that breaks it is not covered.
- The patch replaces `|EncodeI32(old quantity)|` bits, the canonical width. A
  stored quantity with a non-canonical (longer) encoding would leave its extra
  bits in place. This is modelled exactly as written;
  `PackedEncoding.I32WidthWithin` shows the replaced window always lies inside
  the stored encoding.
- The Python prototype is not modelled function by function where it does
  what the engine does: bit primitives, navigation, the checksum and the
  splice. `custom_crc`'s final mask is the identity, because the accumulator
  never exceeds 32 bits. `find_shct_position` uses only where
  `read_i32_packed` stops, which `Toolkit.PyReadWraps` shows is where the
  engine stops. Where Python's patch list differs from the engine's
  (`Toolkit.PyPatchesDiverge`, `Toolkit.PyEncodeWide`), the corrupt output its
  splice then produces is not followed further. Two divergences are not
  modelled:
  - `read_bits` returns unsigned values, so chunk sizes and the scan bound
    `data_end - 33` are not wrapped;
  - `struct.pack_into('<I')` raises on lengths of 2^32 or more, where C#
    truncates.
