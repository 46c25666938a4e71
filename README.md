# bsdiff4 patch reading and application, modelled in Dafny

This project models the core of a small Rust library (`src/lib.rs`) that reads
and applies patches in the bsdiff4 format (`BSDIFF40`). A patch is a 32-byte
header followed by three bzip2 blocks:

- the magic tag;
- three little-endian 64-bit lengths: `len_control`, `len_diff` and `new_size`;
- a control block of `len_control` compressed bytes;
- a diff block of `len_diff` compressed bytes;
- an extra block that runs to the end of the input.

After decompression, the control block is a sequence of 24-byte records
`(diff_amount, extra_amount, seek)`. Applying the patch replays these
records in order against the original. For each record:

1. copy `diff_amount` bytes of the original;
2. add as many diff bytes to them, modulo 256;
3. append `extra_amount` extra bytes;
4. move the original's cursor by `seek`.

The project has one module per part of the source:

| file | module | models |
|---|---|---|
| `types.dfy` | `Types` | bytes, `Option`, `Result` and the error kinds the source can raise |
| `integers.dfy` | `Integers` | `read_i64::<LE>`, `u64::try_from`, `ones_complement_i64`, `u8::wrapping_add` |
| `streams.dfy` | `Streams` | `std::io::Cursor` as a class; `read_exact`, `copy_exact`, the field readers, the two bzip2 block readers |
| `control.dfy` | `ControlBlock` | `Control` and `read_control_block` |
| `container.dfy` | `Container` | the `Bsdiff4` struct and `Bsdiff4::read` |
| `applier.dfy` | `Applier` | `Bsdiff4::apply` and `Bsdiff4::apply_to_slice` |
| `scenarios.dfy` | `Scenarios` | concrete cases: wrap-around, "hello world", seek decoding, a negative length |

Nearly every operation has two forms.

- The imperative one (`Read`, `DecodeControlBlock`, `Apply`, …) works as the
  source does: a `Cursor` object with a mutable position, and loops.
- The functional one (`Parse`, `DecodeControls`, `ReplayFrom`, `Step`)
  specifies it.

Each method's postcondition ties it to its function. The lemmas then prove
what the format promises about the functions:
- round trips: the integer fields, the control block and the whole container;
- exactly when application fails, and why;
- what each control writes into the output, byte by byte;
- that the seek conversion is its own inverse, and the single bit pattern on
  which it departs from sign-magnitude decoding.

### Where the model follows the code rather than the format's usual reading

- **Negative zero.** A seek field with the sign bit set and a magnitude of 0
  decodes to `i64::MIN` (`ones_complement_i64` at `src/lib.rs:147-149`), not
  to 0; sign-magnitude decoding would give 0.
  - `Integers.OnesComplementIsSignMagnitude` proves that this is the only field
    where the two decodings differ.
  - `Scenarios.NegativeZeroSeekFails` shows the consequence: from any original position
    below 2^63, such a control fails with `InvalidSeek` where a zero seek
    succeeds.
- **`new_size` is not checked.** It is read and kept, but `apply_to_slice` uses
  it only as the output's initial capacity (`src/lib.rs:78`). The output length
  is never compared with it (`Applier.NewSizeIgnored`).
- **Leftover bytes are not checked.** Nothing checks that the diff and extra
  streams are used up at the end of a replay (`Applier.ReplayIgnoresLeftover`).

## Model

| member | source | states |
|---|---|---|
| Integers.LeI64 | src/lib.rs:134 | 8 bytes as a two's-complement `i64`: negative exactly when the top bit of byte 7 is set, and the unsigned little-endian value minus 2^64 if so |
| Integers.LeI64OfEncode | src/lib.rs:134 | decoding the 8 bytes that encode x gives x back, for every `i64` |
| Integers.EncodeOfLeI64 | src/lib.rs:134 | encoding the decoded value gives the same 8 bytes back: the field codec is a bijection |
| Integers.PositiveLeI64 | src/lib.rs:140-145 | a length field is accepted exactly when its sign bit is clear; the length is then its unsigned little-endian value, at most `i64::MAX` |
| Integers.OnesComplement | src/lib.rs:147-149 | the sign bit of y or-ed with `y.wrapping_abs()`: non-negative y unchanged, negative y mapped to minus its low 63 bits, `i64::MIN` to itself; the sign is kept |
| Integers.OnesComplementInvolution | src/lib.rs:147-149 | the seek conversion is its own inverse on all of `i64` |
| Integers.MagnitudeSplit | src/lib.rs:147-149 | a field's unsigned value is its 63-bit magnitude plus 2^63 when the sign bit is set |
| Integers.OnesComplementIsSignMagnitude | src/lib.rs:133-138 | the seek decoding equals sign-magnitude decoding on every 8-byte field except negative zero, which decodes to `i64::MIN` |
| Integers.WrappingAdd | src/lib.rs:64 | `u8::wrapping_add`: the plain sum when below 256, otherwise the sum minus 256 |
| Streams.Cursor.constructor | src/lib.rs:53-54 | a new cursor over a buffer starts at position 0 |
| Streams.Cursor.ReadUpTo | src/lib.rs:178-184 | `take(n)` drained by `io::copy`: yields the next min(n, remaining) bytes and moves the position past exactly those |
| Streams.Cursor.Seek | src/lib.rs:71 | `SeekFrom::Current(offset)` succeeds exactly when the new position is between 0 and `u64::MAX`, and moves only then |
| Streams.ReadExact | src/lib.rs:21-24 | `read_exact` yields the next n bytes, or `UnexpectedEof` when fewer remain |
| Streams.CopyExact | src/lib.rs:151-191 | writes the next min(amount, remaining) bytes and succeeds exactly when that is amount bytes; the reader moves past what was written |
| Streams.ReadI64Le | src/lib.rs:134 | reads the next 8 bytes as `LeI64`, or fails with `UnexpectedEof` |
| Streams.ReadPositiveLeI64 | src/lib.rs:140-145 | the next 8 bytes through `PositiveLeI64`, or `UnexpectedEof` |
| Streams.ReadOnesComplementLeI64 | src/lib.rs:133-138 | the next 8 bytes through the seek conversion, or `UnexpectedEof` |
| Streams.ReadBzipBlock | src/lib.rs:119-124 | decodes the next `len` bytes (fewer if the input ends first) and leaves the reader just past them |
| Streams.ReadBzipToEnd | src/lib.rs:126-131 | decodes everything left in the reader and leaves it empty |
| ControlBlock.DecodeRecord | src/lib.rs:100-104 | a 24-byte record decodes exactly when neither amount has its sign bit set; the amounts are the unsigned values of bytes 0-7 and 8-15, the seek is the conversion of bytes 16-23 |
| ControlBlock.DecodeRecordsCorrect | src/lib.rs:94-107 | a block of whole records decodes exactly when every record does; it then yields len/24 controls, control i decoded from bytes [24 i, 24 i + 24), in stream order |
| ControlBlock.DecodeControlsCorrect | src/lib.rs:86-110 | the control block is accepted exactly when its length is a multiple of 24 and no record has a negative amount; control i comes from record i |
| ControlBlock.DecodeRecordOfEncode | src/lib.rs:100-104 | a record written by a bsdiff4 encoder decodes to the same control |
| ControlBlock.DecodeControlsOfEncode | src/lib.rs:86-110 | an encoded control sequence decodes to the same controls in the same order |
| ControlBlock.ReadControl | src/lib.rs:100-104 | the three successive field reads on the block's cursor yield `DecodeRecord` of the next 24 bytes and, on success, move past them |
| ControlBlock.DecodeControlBlock | src/lib.rs:90-109 | the size check and the record loop over a cursor yield exactly `DecodeControls` of the block |
| ControlBlock.ReadControlBlock | src/lib.rs:86-110 | decompresses the next `len` bytes and decodes them as control records; the reader moves past the compressed bytes |
| Container.Parse | src/lib.rs:19-48 | inputs shorter than 8 bytes are `UnexpectedEof`; a wrong tag is `BadMagic`; then `len_control`, `len_diff` and `new_size` are read in that order, each failing with `UnexpectedEof` when its 8 bytes are missing and with `NegativeLength` when its sign bit is set, before the next is looked at; a parsed patch has a valid header and carries `new_size` as read |
| Container.Read | src/lib.rs:19-48 | reading a patch from a cursor yields exactly `Parse` of the cursor's remaining bytes |
| Container.PositiveOfEncode | src/lib.rs:140-145 | every non-negative length written as an 8-byte field reads back |
| Container.ParseOfSerialize | src/lib.rs:19-48 | given a decoder that inverts the compressor, parsing a serialized patch gives the same patch |
| Applier.AddBytesAt | src/lib.rs:63-65 | byte k of the added chunk is original byte k plus diff byte k, modulo 256 |
| Applier.Step | src/lib.rs:56-72 | one control succeeds exactly when the original, diff and extra streams hold enough bytes and the seek stays in range. Each failure has its own error, checked in the source's order. On success it writes `diff_amount + extra_amount` bytes and moves the cursors by the amounts and the seek |
| Applier.StepOutput | src/lib.rs:60-69 | the bytes of one step: `diff_amount` original bytes each plus the matching diff byte modulo 256, then `extra_amount` extra bytes verbatim |
| Applier.ReplayTotals | src/lib.rs:56-72 | a successful replay writes the sum of all `diff_amount + extra_amount`; the cursors end moved by the sums of the amounts and seeks |
| Applier.ReplayStepAt | src/lib.rs:56-72 | in a successful replay, control i runs from the closed-form cursors after controls 0..i-1, and its bytes are output positions [OutputAt(i), OutputAt(i+1)) |
| Applier.ReplayOfSteps | src/lib.rs:56-72 | if every control succeeds from its closed-form cursors, the replay succeeds |
| Applier.ReplayOkIff | src/lib.rs:56-72 | `apply` succeeds if and only if every control, run from its closed-form cursors, succeeds |
| Applier.ReplayErr | src/lib.rs:56-72 | a failed `apply` returns the error of its first failing control: some control i fails from its closed-form cursors with exactly that error, and every control before i succeeds from its own |
| Applier.ReplayPiece | src/lib.rs:56-72 | the output bytes of control i are its original bytes (from the closed-form position) plus the diff bytes after those earlier controls used, then the extra bytes after those earlier controls used |
| Applier.StepIgnoresLeftover | src/lib.rs:60-69 | a successful step reads nothing after the diff and extra bytes it takes |
| Applier.ReplayIgnoresLeftover | src/lib.rs:56-74 | appending bytes to the diff and extra streams does not change a successful replay: they are never checked for leftovers |
| Applier.NewSizeIgnored | src/lib.rs:77-83 | the result of `apply_to_slice` does not depend on `new_size` |
| Applier.IdentityPatch | src/lib.rs:77-83 | one control copying the whole original, with an all-zero diff and no extra bytes, gives back the original |
| Applier.AddDiffInPlace | src/lib.rs:63-65 | the in-place loop adds diff byte k to chunk byte k modulo 256 for k below the shorter length, and leaves the rest |
| Applier.AddDiff | src/lib.rs:63-65 | the chunk after the loop is `AddBytes` of the two equal-length chunks |
| Applier.ApplyControl | src/lib.rs:57-71 | one loop iteration on the three cursors behaves as `Step` from their positions: the same error, or the same bytes and the new positions |
| Applier.Apply | src/lib.rs:50-75 | `apply` from the original's current position yields the replay's output, and leaves the original's cursor where the replay ends. On failure it returns the replay's error |
| Applier.ApplyToSlice | src/lib.rs:77-83 | `apply_to_slice` yields `Reconstruct` of the patch and the original |
| Scenarios.WrapAround | src/lib.rs:63-65 | a copied byte plus a diff byte past 0xFF wraps (0xFF + 0x02 is 0x01) instead of failing |
| Scenarios.HelloWorld | src/lib.rs:77-83 | "hello world" through an 11-byte identity patch comes back unchanged |
| Scenarios.SeekBackFive | src/lib.rs:147-149 | a seek field of magnitude 5 with the sign bit set decodes to -5 |
| Scenarios.NegativeZero | src/lib.rs:147-149 | the negative-zero seek field decodes to `i64::MIN` |
| Scenarios.NegativeZeroSeekFails | src/lib.rs:71 | from any original position below 2^63, a control with that seek fails with `InvalidSeek` where a zero seek succeeds |
| Scenarios.NegativeTargetLength | src/lib.rs:31 | a header whose `new_size` has its sign bit set is refused with `NegativeLength`, whatever follows |

## Left out

- bzip2 itself. The decoder is a parameter, a function from compressed bytes to decoded bytes or failure; the `bzip2` crate is not part of this model.
- Streams.ReadBzipBlock: assumes the decoder consumes every one of the `len` bytes it is given; a decoder that stops early inside `take(len)` is not modelled.
- Streams.ReadBzipToEnd: assumes the decoder consumes the whole rest of the input.
- The generic `Read`, `Write` and `Seek` parameters. The original and the patch are read through an in-memory `Cursor`, and the output is a value. I/O errors of other readers or writers are not modelled.
- Applier.Apply: on failure it gives only the error. The bytes the source has already written to `new` before the failing control are not modelled, since the result is all-or-error.
- Applier.Apply: after a failure, the position of the original's cursor is left unspecified.
- Applier.ApplyControl: on failure the cursors' positions are left unspecified; the source leaves them partly advanced.
- ControlBlock.ReadControl: the cursor position after a failing field read is left unspecified.
- Error messages and `anyhow` context strings. Errors are kinds only.
- The `dbg!` and `eprintln!` diagnostics (`src/lib.rs:34`, `src/lib.rs:40`). They print and change nothing.
- `usize::try_from(new_size)` (`src/lib.rs:32`). It cannot fail on a 64-bit target, which the model assumes; every `u64` length is also a valid `usize`.
- `Vec::with_capacity` and allocation failure. The input can trigger this: `read_bzip_block` reserves `len` bytes (`src/lib.rs:120`) and `apply_to_slice` reserves `new_size` bytes (`src/lib.rs:78`), each before the block or the output is decoded. A 32-byte header announcing a length near 2^62 therefore aborts the process in the source, where `Parse` and `Reconstruct` return a value.
- src/checksum.rs (content hashing) is not part of this model.
