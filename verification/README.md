# Delve `.debug_frame` parser and architecture descriptors, in Dafny

This project models two pieces of the Delve debugger and proves properties about them.

- **The `.debug_frame` parser** (`dwarf/frame/parser.go`). It is a state machine over a byte cursor. Each step reads an 8-byte header: a little-endian length, then a 4-byte id. An id of `ff ff ff ff` makes the record a Common Information Entry (CIE); any other id makes it a Frame Description Entry (FDE). The next step then consumes the body.
  - A CIE body holds a version byte, a NUL-terminated augmentation, three LEB128 numbers and the initial instructions.
  - An FDE body holds two words in the section's byte order (the address range), then the instructions.
  - Each FDE carries the CIE decoded most recently before it. The CIE pointer inside the FDE is never followed.
  - The parse yields the FDEs in stream order.
  - The CIE step reads the version byte a second time, as the first augmentation byte, exactly as the code does (see Findings).
- **The architecture descriptors** (`proc/arch.go`) for AMD64 and ARM. Each records:
  - the pointer size, the breakpoint instruction and its length;
  - the offset of the goroutine structure from the thread-local base;
  - four hardware breakpoint slots;
  - a little-endian pointer codec.

Go panics (slicing past the end, indexing a missing slot, a truncated field) are modelled as `None`. Go's `uint32` and `uint64` arithmetic is written out explicitly where it wraps.

Modules, one per file:

- `Options`: the `Option` type.
- `Arith`: natural powers.
- `Endian`: fixed-width little- and big-endian integers, i.e. Go's `binary.ByteOrder`.
- `DwarfUtil`: the ULEB128, SLEB128 and NUL-terminated string decoders of DWARF 4 section 7.6. Each reads from a position in a byte sequence and returns the position after the field, as Go's `bytes.Buffer` cursor does.
- `Frame`: the parser itself. The parse context, the three step functions, the run loop and `Parse`. The CIE step decodes the body as `parseCIE` is written; the decoder it was evidently meant to be is defined beside it (see Findings).
- `FrameEncoding`: a reference view of a section as a list of records, encoders that lay records out as bytes, and the theorems that connect the byte-level parser to that view. It also states how the CIE decoder as written differs from the corrected one.
- `Proc`: the architecture descriptors.

## Model

| member | source | states |
|---|---|---|
| Frame.Next | dwarf/frame/parser.go:89 | `bytes.Buffer.Next`: takes `min(n, remaining)` bytes off the front; the two parts concatenate back to the buffer |
| Frame.ParseLength | dwarf/frame/parser.go:45-57 | Fails exactly when fewer than 4 bytes remain. Consumes up to 8 bytes. The stored length is the declared little-endian length minus 4, modulo 2^32. The next step is the CIE step when bytes 4..8 are `ff ff ff ff`, and the FDE step otherwise. A CIE header installs a fresh CIE as current; an FDE header starts an FDE that carries the current CIE |
| Frame.CieEntry | dwarf/frame/parser.go:41-43 | True exactly for an id of four bytes, all `0xff`; any other length or content is not the CIE sentinel |
| Frame.DecodeFdeBody | dwarf/frame/parser.go:62-78 | For pointer size 4 or 8: fails exactly when the body is shorter than two words; otherwise `begin` and `end` are the two words in the section's byte order (each below 256^ptrSize) and the instructions are the rest. Any other pointer size leaves the FDE untouched |
| Frame.ParseFDE | dwarf/frame/parser.go:59-86 | Takes `min(length, remaining)` bytes and fails exactly when the body decoder does. Otherwise it appends the decoded FDE, keeps the current CIE, resets the length and returns to the header step |
| Frame.DecodeCieTail | dwarf/frame/parser.go:100-105 | The SLEB128 data alignment factor then the ULEB128 return address register; consumes at least two bytes and stays within the input |
| Frame.DecodeCieNumbers | dwarf/frame/parser.go:97-105 | The three LEB128 fields in DWARF order; consumes at least three bytes and stays within the input |
| Frame.DecodeCieFields | dwarf/frame/parser.go:94-111 | Keeps the CIE's length and version. Augmentation, NUL, at least three bytes of numbers and the initial instructions fit in the input. The initial instructions are a suffix of the input |
| Frame.CieFieldsShape | dwarf/frame/parser.go:94-95 | With no NUL after the start position, decoding fails. The decoded augmentation is the NUL-free run of bytes at the start position, ended by a NUL |
| Frame.DecodeCieBody | dwarf/frame/parser.go:88-111 | The corrected decoder (the intended half of the Finding; the parser does not call it). The version is the first byte and the length is kept. The body holds at least the version, the augmentation and its NUL, three numbers, and the initial instructions |
| Frame.DecodeCieBodyAsWritten | dwarf/frame/parser.go:88-111 | The decoder the parser runs. It fails on an empty body, where `data[0]` panics. The version is the first byte and the length is kept. The remaining fields are read from that same first byte on, so augmentation, NUL, three numbers and initial instructions fit in the body |
| Frame.ParseCIE | dwarf/frame/parser.go:88-115 | Takes `min(length, remaining)` bytes and fails exactly when no CIE header preceded it or the as-written decoder fails on the body. Otherwise the CIE that decoder gives becomes current and nothing else changes except the cursor and the length |
| Frame.Run | dwarf/frame/parser.go:34-36 | The loop runs until the buffer is empty. It only appends entries, and every appended FDE paid for an 8-byte header |
| Frame.Parse | dwarf/frame/parser.go:28-39 | An empty section gives no FDEs; a section of `n` bytes gives at most `n / 8` FDEs |
| DwarfUtil.DecodeULEB128 | dwarf/frame/parser.go:97-98 | Consumes at least one byte and never reads past the input |
| DwarfUtil.ULEB128Extent | dwarf/frame/parser.go:97-98 | Fails exactly when every remaining byte has its high bit set. Otherwise it stops right after the first byte whose high bit is clear |
| DwarfUtil.ULEB128Bound | dwarf/frame/parser.go:97-98 | A value read from n bytes is below 128^n |
| DwarfUtil.ULEB128RoundTrip | dwarf/frame/parser.go:97-98 | Decoding an encoded value at any position gives it back and stops right after the encoding, whatever follows |
| DwarfUtil.DecodeSLEB128 | dwarf/frame/parser.go:100-101 | Consumes at least one byte and never reads past the input |
| DwarfUtil.SLEB128Bound | dwarf/frame/parser.go:100-101 | A value read from n bytes lies in the 7n-bit two's-complement range |
| DwarfUtil.SLEB128SignExtendsULEB128 | dwarf/frame/parser.go:100-101 | The signed decoder succeeds exactly when the unsigned one does, over the same bytes. Its value is the unsigned value minus 128^n exactly when bit 6 of the last byte is set |
| DwarfUtil.SLEB128RoundTrip | dwarf/frame/parser.go:100-101 | Decoding an encoded value, negative ones included, gives it back and stops right after the encoding |
| DwarfUtil.ParseString | dwarf/frame/parser.go:94-95 | Consumes the string and its NUL and no more |
| DwarfUtil.ParseStringExtent | dwarf/frame/parser.go:94-95 | Fails exactly when no NUL follows the position. Otherwise it returns the NUL-free bytes before the first NUL |
| DwarfUtil.ParseStringRoundTrip | dwarf/frame/parser.go:94-95 | A NUL-free string followed by a NUL parses back to itself, whatever follows |
| Endian.UintRoundTrip | dwarf/frame/parser.go:62-72 | Reading back an `n`-byte word written in either byte order gives the value, for values below 256^n |
| Endian.LeBytesOfUint | proc/arch.go:57-63 | Writing back a little-endian word just read restores the bytes |
| FrameEncoding.FdeBodyRoundTrip | dwarf/frame/parser.go:62-78 | For 4- and 8-byte pointers, an encoded FDE body decodes to its address range and instructions |
| FrameEncoding.CieTailRoundTrip | dwarf/frame/parser.go:100-105 | The encoded data alignment factor and return register decode to their values and end right after their encodings |
| FrameEncoding.CieNumbersRoundTrip | dwarf/frame/parser.go:97-105 | The three encoded numeric fields decode to their values and end right after their encodings |
| FrameEncoding.CieBodyRoundTrip | dwarf/frame/parser.go:88-111 | An encoded CIE body with a NUL-free augmentation decodes to every field it was built from, for any values of its LEB128 fields in their shortest encodings |
| FrameEncoding.LatestCiePrepend | dwarf/frame/parser.go:50-55 | The CIE current after a section depends on its first record only through the CIE that record installs |
| FrameEncoding.ExpectedAppendFde | dwarf/frame/parser.go:55-82 | Appending an FDE record adds exactly one FDE at the end, and it carries the CIE of the latest CIE record before it |
| FrameEncoding.ExpectedAppendCie | dwarf/frame/parser.go:50-53 | Appending a CIE record adds no FDE |
| FrameEncoding.HeaderStep | dwarf/frame/parser.go:45-57 | On an encoded record, the header step recovers the body length and picks the CIE or FDE step by the record's kind |
| FrameEncoding.CieRecordDecodes | dwarf/frame/parser.go:88-111 | The as-written decoder turns a well-formed CIE record's body into the record's fields, with the version byte in front of the augmentation |
| FrameEncoding.CieBodyStep | dwarf/frame/parser.go:88-115 | The CIE step on a span the as-written decoder accepts consumes exactly that span and installs that decoder's CIE |
| FrameEncoding.FdeBodyStep | dwarf/frame/parser.go:59-86 | The FDE step on an encoded FDE record consumes exactly its body and appends the FDE the record stands for |
| FrameEncoding.OneRecord | dwarf/frame/parser.go:34-36 | A header step followed by a body step consumes exactly one encoded record |
| FrameEncoding.RunRecords | dwarf/frame/parser.go:34-36 | Running over well-formed records, followed by nothing or by a lone 4-to-8-byte header, succeeds and appends exactly the reference FDEs |
| FrameEncoding.RunRecordsShortTail | dwarf/frame/parser.go:45-50 | Well-formed records followed by 1 to 3 stray bytes make the run fail |
| FrameEncoding.ParseSection | dwarf/frame/parser.go:28-39 | Parsing an encoded well-formed section gives one FDE per FDE record, in stream order. Each carries its range, its instructions and the CIE of the latest CIE record before it, or none. That CIE is read as the code is written, with the version byte in front of the augmentation |
| FrameEncoding.TrailingHeaderIgnored | dwarf/frame/parser.go:34-36 | A final header of 4 to 8 bytes ends the loop before its body step runs, so that record is dropped |
| FrameEncoding.TrailingFragmentFails | dwarf/frame/parser.go:46-50 | 1 to 3 bytes where a header should start make the parse fail |
| FrameEncoding.ExpectedIgnoresPointers | dwarf/frame/parser.go:55 | Records that differ only in their FDEs' CIE pointers stand for the same FDEs |
| FrameEncoding.ParseIgnoresCiePointer | dwarf/frame/parser.go:55 | The parse result does not depend on the FDEs' CIE pointers |
| FrameEncoding.SampleParse | dwarf/frame/parser.go:28-39 | A concrete 40-byte section (one version-1 CIE with an empty augmentation, one FDE covering 0x1000..0x1050) parses to the expected FDE. Its CIE has augmentation `[1]`, as the code reads it |
| FrameEncoding.AsWrittenPrependsVersion | dwarf/frame/parser.go:90-95 | With a non-zero version byte, the as-written decoder succeeds exactly when the corrected one does. Its augmentation is then the version byte followed by the true augmentation |
| FrameEncoding.AsWrittenRoundTrip | dwarf/frame/parser.go:90-95 | An encoded CIE with a non-zero version comes back with that version byte at the head of its augmentation |
| FrameEncoding.AugmentationCounterexample | dwarf/frame/parser.go:90-95 | For the body `01 00 01 7c 10`, the corrected decoder reads augmentation "" and the as-written one reads `[1]` |
| FrameEncoding.AsWrittenVersionZero | dwarf/frame/parser.go:90-95 | With version byte 0, the as-written decoder reads an empty augmentation. It succeeds exactly when three numbers decode from byte 1 on, and those numbers and the bytes after them are the CIE's fields |
| Proc.AMD64Arch | proc/arch.go:33-43 | Pointer size 8, breakpoint `[0xCC]` with recorded length 1, four free hardware slots, little-endian, offset 0 |
| Proc.ARMArch | proc/arch.go:99-110 | Pointer size 4, breakpoint `[0xFE, 0xDE, 0xFF, 0xE7]` with recorded length 4, four free hardware slots, little-endian, offset 0 |
| Proc.BreakpointSize | proc/arch.go:73-75 | On a descriptor either constructor built, this is the length of the breakpoint instruction (1 on AMD64, 4 on ARM) |
| Proc.DecodePtr | proc/arch.go:57-59 | Fails exactly when the buffer is shorter than the pointer width (8 on AMD64, 4 on ARM). The value fits that width and is the little-endian reading of the first width bytes: written back little-endian it gives exactly those bytes |
| Proc.EncodePtr | proc/arch.go:61-63 | Fails exactly when the buffer is shorter than the width. The first width bytes are the pointer, truncated to the width, written little-endian. The buffer keeps its length and the bytes past the width are untouched |
| Proc.PtrRoundTrip | proc/arch.go:124-130 | Decoding an encoded pointer gives it back truncated to the architecture's width |
| Proc.PtrRoundTripAMD64 | proc/arch.go:57-63 | On AMD64 every 64-bit pointer survives the round trip |
| Proc.PtrRoundTripARM | proc/arch.go:124-130 | On ARM the round trip gives `p mod 2^32`, so exactly the pointers below 2^32 survive |
| Proc.EncodeDecodedPtr | proc/arch.go:124-130 | Writing back the pointer just read leaves the buffer unchanged |
| Proc.SetHardwareBreakpointUsage | proc/arch.go:85-87 | Fails exactly when `reg` is outside the slot table. Otherwise slot `reg` takes the new value and every other slot and field is unchanged |
| Proc.HardwareBreakpointLastWins | proc/arch.go:152-154 | A second write to a slot overrides the first; writing back the old value restores the descriptor |
| Proc.SetGStructOffset | proc/arch.go:45-55 | darwin: 0x8a0. linux: 0xfffffffffffffff8 (-8) when linking externally or when the runtime is Go 1.5 or later or a development build, else 0xfffffffffffffff0 (-16). Any other OS: no change. Only the offset ever changes |
| Proc.SetGStructOffsetOverwrites | proc/arch.go:112-121 | On darwin and linux the new offset does not depend on the descriptor or its previous offset |
| Proc.SetGStructOffsetIdempotent | proc/arch.go:112-121 | Setting the offset twice with the same inputs is setting it once |

## Left out

- Process control, ptrace and the register files (`proc/registers*.go`) are not part of this model.
- `GoVersion` is not part of this model. `SetGStructOffset` takes a boolean `newRuntime` standing for `ver.AfterOrEqual(GoVersion{1, 5, -1, 2, 0}) || ver.IsDevel()`.
- `runtime.GOOS` becomes the `goos` parameter of `SetGStructOffset`.
- The getters `PtrSize`, `BreakpointInstruction`, `GStructOffset` and `HardwareBreakpointUsage` are fields of the `Arch` datatype. The embedded `binary.ByteOrder` is the `byteOrder` field, always little-endian.
- `uintptr` is taken to be 64 bits wide (a 64-bit host). The pointer codec's input is a `uint64`, and ARM's `uint32(p)` is written as `p mod 2^32`.
- The `dwarf/util` package is not part of this model. Its decoders are modelled from DWARF 4 section 7.6, and a field cut short by the end of the record makes the decode fail.
- DwarfUtil.DecodeULEB128: values are unbounded naturals, not `uint64`. A value of 2^64 or more is kept exactly, where a 64-bit decoder would lose the high bits. A ten-byte encoding can already reach that range, because its tenth group lands at bits 63-69.
- DwarfUtil.DecodeSLEB128: values are unbounded integers, not `int64`. A value outside the `int64` range is kept exactly, where a 64-bit decoder would lose the high bits.
- Frame.DecodeCieFields: the return address register is kept as a natural rather than converted to `uintptr`.
- `NewFrameIndex` and the `FrameDescriptionEntries` type are a plain sequence. Sorting and lookup by PC are not in the parser and are not modelled.
- Call frame instructions (CIE initial instructions, FDE instructions) are kept as bytes and not interpreted.
- FrameEncoding.ParseSection: covers sections whose CIE records have a non-zero version, as DWARF's CIE versions 1, 3 and 4 are. A version-0 body makes the as-written decoder read the true augmentation as the numeric fields; `FrameEncoding.AsWrittenVersionZero` states what it returns then.
- Malformed sections are not rejected. The code, and the model, behave as follows:
  - A header with 4 to 7 bytes left is accepted as an FDE header, and the loop then stops.
  - A declared length beyond the remaining bytes is cut short by `bytes.Buffer.Next` rather than rejected.
  - A declared length below 4 wraps around modulo 2^32.
  - A pointer size other than 4 or 8 leaves the FDE's range empty instead of failing.

## Findings

| source | as written | input that shows it | evidently intended | confidence | as-written member | corrected member |
|---|---|---|---|---|---|---|
| dwarf/frame/parser.go:90-95 | `parseCIE` takes the version from `data[0]` but parses the augmentation from `bytes.NewBuffer(data)`, whose cursor is still at `data[0]`. The version byte is read again as the first augmentation byte | CIE body `01 00 01 7c 10` (version 1, empty augmentation, code alignment 1, data alignment -4, return register 16) gives augmentation `[1]` instead of `""` | Skip the version byte before reading the augmentation, so the augmentation is `""` and the fields after it are read from their own positions | not executed | FrameEncoding.AugmentationCounterexample | FrameEncoding.CieBodyRoundTrip |
