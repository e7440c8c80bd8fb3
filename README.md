# vhdtool in Dafny

This project models the core of `vhdtool.c`. The tool creates Virtual Hard Disk images, fixed or
dynamic, and converts a raw or fixed image into a new one. The model covers:

- the on-disk records: the 512-byte hard disk footer and the 1024-byte dynamic disk header, both
  with big-endian fields and the one's-complement byte-sum checksum;
- the CHS geometry routine `vhd_chs`, including the `COMPAT_SIZE` retry that grows the disk;
- `vhd_footer_make`, `vhd_dyn_make` and `vhd_create`, which write to a file through the cursor of
  `vhd_read`/`vhd_write`;
- the raw accessor (`op_raw_read`/`op_raw_write`) with its bounds test;
- `vhd_verify` and the `OPEN_RAW_OK` fallback of `vhd_open`;
- the chunked copy `vhd_copy`;
- `parse_size_arg` and the default disk type of the two commands;
- the `create` and `convert` commands, with the exclusive creation of the destination and its
  removal on failure.

Modules:

- `Ints`: machine widths, the `off64_t`/`uint64_t` casts, `round_up`, `min_nz`.
- `Bytes`: big-endian fields and the checksum.
- `DiskGeometry`: CHS geometry.
- `VhdFooter`: the footer.
- `DynHeader`: the dynamic header, its block-size checks and the table entries.
- `Disk`: a file as a byte string written at positions.
- `Image`: `class Vhd`, which is `struct vhd`. Its methods change its fields in place the way the
  C functions do.
- `ImageFacts`: what the created files look like when they are opened again.
- `SizeArg`: size arguments.
- `Commands`: the two commands.

How things are represented:

- A file is a `seq<Byte>`. A medium capacity bounds it: a write that would pass the capacity comes
  up short and fails.
- The current time, the 16-byte disk identifier and the outcome of the sparse-file request are
  parameters.
- Each `read`/`write` function pointer is an `Accessor`: either NULL or the raw pair.
- `Status.Fault` is a crash of the process. It is raised by a division by zero or a call through
  a NULL accessor.

The code and the format's design disagree in places. The model follows the code:

- **Dynamic convert.** The dynamic branch of `vhd_create` (vhdtool.c:407-416) never assigns the
  accessors. Converting a non-empty source into a dynamic destination therefore crashes in
  `vhd_copy` (vhdtool.c:426) instead of copying. The file written so far is not removed.
- **One accessor.** A verified fixed image gets the same raw accessor as a raw file
  (vhdtool.c:228); there is no separate footer-relative accessor.
- **Size retry.** The retry moves to `round_up(size + 1, 512 * min_nz(min_nz(C, H), S))`. This
  is the next multiple of 512 times the smallest non-zero of C, H and S.
- **Zero block size.** A block size whose low 32 bits are zero passes the sector test at
  vhdtool.c:363 and then divides by zero at vhdtool.c:366.
- **Wide block sizes.** A block size of 4 GiB or more is truncated to 32 bits for the header. The
  table is still sized with the full 64-bit value (vhdtool.c:410-412).
- **Table entry count.** The header keeps only the low 32 bits of the entry count
  (vhdtool.c:371).
- **Time stamp.** The time stamp is the one exception: see "## Findings".

## Model

| member | source | states |
|---|---|---|
| Ints.Signed64 | vhdtool.c:209 | the `(off64_t)` cast: congruent to its argument mod 2^64, the identity on the signed range, and 2^64 less on the upper half |
| Ints.Unsigned64 | vhdtool.c:346-347 | the `(uint64_t)` cast of an `off64_t`: undone by `Signed64`, the identity on non-negative values, non-zero for non-zero values |
| Ints.RoundUpIsLeastMultiple | vhdtool.c:68 | `round_up(what, on)` is a multiple of `on`, at least `what` and below `what + on` |
| Ints.MinNz | vhdtool.c:285-288 | `min_nz` returns one of its arguments; with `b` non-zero the result is non-zero and at most `b`, and at most `a` when `a` is non-zero; with `b` zero it is zero |
| Ints.RoundUp | vhdtool.c:68 | `round_up` as the macro computes it; `RoundUpIsLeastMultiple` states it is the least multiple of `on` at or above `what` |
| Bytes.FromToBE | vhdtool.c:28-33 | decoding `w` big-endian bytes of `n` gives `n mod 256^w` |
| Bytes.ToFromBE | vhdtool.c:28-33 | encoding a decoded byte string gives the same bytes back |
| Bytes.Be16RoundTrip | vhdtool.c:28 | `be16toh(htobe16(x)) == x` for every 16-bit value |
| Bytes.Be32RoundTrip | vhdtool.c:29 | `be32toh(htobe32(x)) == x` for every 32-bit value |
| Bytes.Be64RoundTrip | vhdtool.c:30 | `be64toh(htobe64(x)) == x` for every 64-bit value |
| Bytes.Be16Inverse | vhdtool.c:31 | every 2 bytes are the big-endian encoding of the value they decode to |
| Bytes.Be32Inverse | vhdtool.c:32 | every 4 bytes are the big-endian encoding of the value they decode to |
| Bytes.Be64Inverse | vhdtool.c:33 | every 8 bytes are the big-endian encoding of the value they decode to |
| Bytes.ByteSumAppend | vhdtool.c:282 | the byte sum of a concatenation is the sum of the byte sums |
| Bytes.Checksum | vhdtool.c:280-283 | the one's complement of the byte sum in 32 bits; `ComputeChecksum` computes it with the source's loop, and `SealedChecks` and `SealedDynChecks` show that the stored value passes the test |
| Bytes.ComputeChecksum | vhdtool.c:280-283 | the wrapping 32-bit accumulator loop returns the complement of the byte sum mod 2^32; for records up to 16 MiB it never wraps and returns `0xFFFFFFFF - sum` |
| Bytes.SealedRecordChecks | vhdtool.c:350-352 | storing the checksum of a record whose checksum field is zero makes the checksum test hold for the stored record |
| DiskGeometry.Sectors | vhdtool.c:294-295 | the sector count is clamped at 65535*16*255; a non-negative size up to the clamp gives exactly `size / 512`, and a count below the clamp comes only from such a size |
| DiskGeometry.CascadeShape | vhdtool.c:296-303 | S is 17, 31, 63 or 255; H is 16 unless S is 17, and 4..16 when it is; `cyl_x_heads` is `sectors / S`; for S of 17 or 31 it is below `H * 1024`; S = 63 only below the 255 breakpoint; this holds even when the `uint8_t` cast of H wraps |
| DiskGeometry.Cascade | vhdtool.c:296-303 | the breakpoint cascade choosing S and H and `cyl_x_heads`; its shape is stated by `CascadeShape` |
| DiskGeometry.Geometry | vhdtool.c:304-307 | the stored C/H/S triple with C cast to 16 bits; stated by `GeometryBounds`, `GeometryCylinders`, `GeometryIsCascade` and `GeometryBelowSize` |
| DiskGeometry.CylindersFit | vhdtool.c:304 | `cyl_x_heads / H` fits 16 bits, and stays below 1024 when S is below 63 |
| DiskGeometry.GeometryBounds | vhdtool.c:296-307 | the stored triple: S is 17/31/63/255; H is 16 unless S is 17, and 4..16 when it is; C is below 1024 unless S is 63 or 255 |
| DiskGeometry.GeometryCylinders | vhdtool.c:304 | C is exactly `(sectors / S) / H`: the 16-bit cast loses nothing |
| DiskGeometry.GeometryIsCascade | vhdtool.c:304-307 | the stored H and S are the cascade's, and C is its `cyl_x_heads / H` |
| DiskGeometry.GeometryBelowSize | vhdtool.c:310 | C*H*S never exceeds the sector count the triple was chosen for |
| DiskGeometry.RetryGrows | vhdtool.c:320-323 | each retry moves to a strictly larger whole number of sectors, below the clamp plus one step, so the clamped count rises and the `goto again` loop ends |
| DiskGeometry.RetrySize | vhdtool.c:320-323 | the next candidate size `round_up(size + 1, 512 * min_nz(min_nz(C, H), S))`; `RetryGrows` states it grows |
| DiskGeometry.Retries | vhdtool.c:309-322 | the `goto again` condition: COMPAT_SIZE set, below the clamp, and C*H*S not the size; `ChsSizeSpec` states where the loop ends |
| DiskGeometry.ChsSize | vhdtool.c:309-324 | the settled size is never below the requested one |
| DiskGeometry.ChsSizeSpec | vhdtool.c:309-326 | without COMPAT_SIZE the size is unchanged; a whole number of sectors stays one; with COMPAT_SIZE the loop ends at an exact C*H*S or at the clamp |
| DiskGeometry.ExactSizeIsKept | vhdtool.c:309-311 | a size whose triple is already exact is kept as it is |
| VhdFooter.EncodeSlices | vhdtool.c:81-98 | every footer field sits at its packed offset (cookie 0, features 8, version 12, data offset 16, time stamp 24, creator 28/32/36, sizes 40/48, C/H/S 56..59, type 60, checksum 64, id 68, saved state 84, reserved 85..511), big-endian |
| VhdFooter.Encode | vhdtool.c:81-98 | the packed 512-byte footer; its length is 512, its offsets are stated by `EncodeSlices`, and `Decode` undoes it (`DecodeEncode`) |
| VhdFooter.Decode | vhdtool.c:81-98 | reading the packed fields back; the inverse of `Encode` in both directions (`DecodeEncode`, `EncodeDecode`) |
| VhdFooter.HeadSlices | vhdtool.c:81-93 | the fields up to the disk type sit at their packed offsets in the first 64 bytes |
| VhdFooter.DecodeEncode | vhdtool.c:81-98 | reading a written footer back gives every field back |
| VhdFooter.EncodeDecode | vhdtool.c:81-98 | every 512-byte block is the encoding of the footer it reads as |
| VhdFooter.HeadOfDecoded | vhdtool.c:81-93 | the first 64 bytes of any block re-encode to themselves |
| VhdFooter.Seal | vhdtool.c:350-352 | sealing changes the checksum field and nothing else |
| VhdFooter.SealedChecks | vhdtool.c:350-352 | a sealed footer passes the checksum test: its stored big-endian checksum is the checksum of its bytes with the field zeroed |
| VhdFooter.TimeStamp | vhdtool.c:342 | corrected stamp: for instants from 2000-01-01 within 2^32 seconds it is the seconds since 2000-01-01 |
| VhdFooter.TimeStampAsWritten | vhdtool.c:342 | the stamp as the code computes it, `(uint32_t)(time + 946684800)`; the as-written half of the Findings row, exhibited by `TimeStampAtEpoch2000` and `TimeStampSkew` |
| VhdFooter.TimeStampAtEpoch2000 | vhdtool.c:342 | at 2000-01-01 00:00:00 UTC the format's stamp is 0 but the stamp as written is 1893369600 |
| VhdFooter.TimeStampSkew | vhdtool.c:342 | the stamp as written is the format's stamp plus 2 * 946684800, mod 2^32, at every instant |
| VhdFooter.BuildFooter | vhdtool.c:338-352 | the built footer has the "conectix" cookie, "vhdt" and "Win " creator tags, creator version 1, features 2, version 1.0, both sizes the settled size as `uint64_t`, the given data offset, type and id, the geometry of the settled size, and the previous saved state and reserved bytes |
| VhdFooter.BuiltFooterChecks | vhdtool.c:350-352 | the footer `vhd_footer_make` builds passes the checksum test |
| VhdFooter.FixedFooterDecoded | vhdtool.c:225-227 | the byte test for a fixed footer holds exactly when the decoded cookie is "conectix" and the decoded type is 2 |
| VhdFooter.IsFixedFooter | vhdtool.c:225-227 | the byte test `vhd_verify` applies to the last sector; `FixedFooterDecoded` states it is the decoded cookie-and-type test |
| VhdFooter.BuiltFooterVerifies | vhdtool.c:225-227 | a built footer passes `vhd_verify` if and only if its type is fixed |
| DynHeader.EncodeDyn | vhdtool.c:100-114 | the packed 1024-byte `struct vhd_dyn`; `EncodeDynSlices` states where each field sits |
| DynHeader.EncodeDynSlices | vhdtool.c:100-114 | cookie at 0..8, data offset 8..16, table offset 16..24, version 24..28, entry count 28..32, block size 32..36, checksum 36..40, all big-endian, then the 984-byte parent block |
| DynHeader.SealDyn | vhdtool.c:372-374 | sealing the header changes the checksum field and nothing else |
| DynHeader.SealedDynChecks | vhdtool.c:372-374 | a sealed header passes the checksum test over its 1024 bytes |
| DynHeader.CheckBlockSize | vhdtool.c:363-370 | each verdict as an if-and-only-if in unsigned terms: not a sector multiple; zero (the crash: it divides by zero); larger than the size; not dividing the size; accepted. On acceptance, entries times block size is the size |
| DynHeader.CheckBlockSizeSpec | vhdtool.c:366-368 | no entry exactly when the size is below the block size; with entries, the `off64_t` exactness test holds exactly when the block size divides the size |
| DynHeader.BuildDynHeader | vhdtool.c:358-374 | the accepted header has cookie "cxsparse", data offset all ones, table offset cursor + 1024 (when it does not wrap), version 1.0, the block size, the entry count in 32 bits, and the previous parent fields |
| DynHeader.Stamp | vhdtool.c:358-361 | the fields `vhd_dyn_make` stores before checking the block size; `StampTableOffset` states the table offset |
| DynHeader.BuiltDynHeaderChecks | vhdtool.c:372-374 | the accepted header passes the checksum test |
| DynHeader.StampTableOffset | vhdtool.c:360 | the table offset `Stamp` stores is cursor + 1024 whenever the cursor is non-negative and the sum stays below 2^64 |
| DynHeader.EmptyBat | vhdtool.c:412-413 | `n` empty entries are `4n` bytes, all 0xFF |
| DynHeader.EmptyBatStep | vhdtool.c:413 | one more empty entry appends the big-endian bytes of 0xFFFFFFFF |
| Disk.WriteBeyondEnd | vhdtool.c:404-405 | a write past the end of the file leaves a zero-filled hole before the data |
| Disk.WriteAt | vhdtool.c:194-205 | an `lseek` then a `write` of the data: every byte of the data at its position, the old bytes elsewhere, zeros in any hole, and the length the larger of the two ends |
| Disk.WriteAdjacent | vhdtool.c:424-427 | two writes at adjacent positions are one write of the concatenation |
| Disk.WriteOverZeros | vhdtool.c:424-427 | copying data into the zero region of a fixed image gives data, the remaining zeros, then the footer |
| Image.RawInBoundsExact | vhdtool.c:209 | while the sum stays below 2^63 the raw accessor's bounds test is exactly `off + n <= size` |
| Image.RawInBounds | vhdtool.c:209 | the raw accessors' test `(off64_t)(off + n) > size`, in 64-bit arithmetic; `RawInBoundsExact` states it is `off + n <= size` while the sum fits |
| Image.Detect | vhdtool.c:247-261 | a verified fixed file's logical size is the file less its footer; a raw image exists only with OPEN_RAW_OK and spans the whole file |
| Image.DataOffsetFor | vhdtool.c:381 | the data offset is all ones for a fixed disk and 512 otherwise |
| Image.TrailerOffset | vhdtool.c:414 | the second footer goes at the least sector boundary at or after the end of the table |
| Image.EffectiveBlockSize | vhdtool.c:380 | a missing block size becomes 2 MiB, a given one is kept, and the result is never zero |
| Image.TableEntries | vhdtool.c:412 | `(uint64_t)size / (uint64_t)block_size`, the count of table entries written |
| Image.DynamicLayout | vhdtool.c:407-415 | the whole dynamic file: footer, header, empty table, zero padding to a sector boundary, footer; `DynamicLayoutShape` states its shape |
| Image.ChunksOkExtend | vhdtool.c:424-427 | one more movable chunk extends the region known to be movable by 512 bytes |
| Image.ChunksOkDone | vhdtool.c:424 | when the loop passes the size, the chunks it checked are all the chunks of the region |
| Image.Vhd.Blank | vhdtool.c:235 | the cleared `struct vhd`: zero footer and header, zero size, cursor, type, and no accessor |
| Image.Vhd.Read | vhdtool.c:181-192 | succeeds exactly when the cursor is non-negative and `n` bytes remain; then it returns them and advances the cursor by `n`; otherwise the cursor stays |
| Image.Vhd.Write | vhdtool.c:194-205 | succeeds exactly when the cursor is non-negative and the medium takes `n` more bytes; then the data is at the cursor and the cursor moves by `n`; otherwise nothing changes |
| Image.Vhd.RawRead | vhdtool.c:207-213 | out of bounds is refused before the cursor moves; in bounds the cursor moves to `off`, and the read succeeds exactly when the bytes exist |
| Image.Vhd.RawWrite | vhdtool.c:215-221 | out of bounds is refused before the cursor moves and the file is unchanged; in bounds the write lands at `off` exactly when the medium takes it |
| Image.Vhd.Verify | vhdtool.c:223-231 | accepts exactly a "conectix" footer of type fixed; then it sets the raw accessor and a size of the file less 512; otherwise neither changes |
| Image.Vhd.Open | vhdtool.c:233-261 | fails exactly when the file is unopenable; otherwise a fresh handle on the same bytes with the raw accessor, the detected size, and the cursor at the end of the file |
| Image.Vhd.LoadFooter | vhdtool.c:250-254 | the last 512 bytes are read exactly when the file has them; then the footer is accepted exactly when those bytes are a fixed-disk footer |
| Image.Vhd.AdoptFooter | vhdtool.c:252-254 | the footer becomes the decoded bytes; they are accepted exactly when they pass the fixed-footer test |
| Image.Vhd.Chs | vhdtool.c:290-332 | the loop leaves the settled size `ChsSize` and the footer changed only in its geometry, which is that of the settled size |
| Image.Vhd.FooterMake | vhdtool.c:334-354 | fails, changing nothing, exactly when the size is not a whole number of sectors; otherwise the size is settled and the footer is `BuildFooter` of it |
| Image.Vhd.DynMake | vhdtool.c:356-376 | on acceptance, the header is `BuildDynHeader`; on each refusal, the stamped fields written before the check stay behind; a zero block size crashes |
| Image.Vhd.CreateImage | vhdtool.c:378-418 | a misaligned size fails and changes nothing, the cursor included; otherwise the footer is built for the settled size. Fixed: `FixedOutcome` and the raw accessor once the sparse hint is taken. Dynamic: `DynamicOutcome`, with no accessor |
| Image.Vhd.CreateFixed | vhdtool.c:378-406 | the fixed type: the footer as built, and `FixedOutcome` for it |
| Image.Vhd.CreateDynamic | vhdtool.c:378-417 | the dynamic type: the footer as built, and `DynamicOutcome` for the defaulted block size |
| Image.Vhd.WriteFixed | vhdtool.c:387-405 | succeeds exactly when the sparse hint is taken and the medium holds size + 512 bytes; then the file is `size` zero bytes and the footer; otherwise it is empty |
| Image.Vhd.WriteDynamic | vhdtool.c:407-416 | succeeds exactly when the block size is accepted and the medium holds the whole layout; crashes exactly on a zero block size; on success the file is footer, header, empty table, padding, footer; otherwise it is a prefix of that layout |
| Image.Vhd.WriteHeaders | vhdtool.c:408-411 | the footer at 0, then the accepted header at 512; on failure the file is empty or the footer alone |
| Image.Vhd.WriteDynHeader | vhdtool.c:410-411 | the header goes behind the footer exactly when the block size is accepted and the medium takes it; crashes exactly on a zero block size |
| Image.Vhd.WriteTable | vhdtool.c:412-415 | succeeds exactly when the medium holds the table and the second footer; then the file is the layout up to and including that footer; otherwise a prefix of it |
| Image.Vhd.WriteBat | vhdtool.c:412-413 | all entries are written exactly when the medium holds them; then the file grows by the empty table; otherwise it is a prefix of that |
| Image.BatPrefix | vhdtool.c:413 | a partly written table is a prefix of the finished layout |
| Image.Copy | vhdtool.c:420-429 | succeeds exactly when the region is empty, or both accessors exist and every 512-byte chunk is movable; then the destination holds the source's sector-rounded region at 0. A crash needs a missing accessor, and a missing destination accessor with a readable first chunk crashes. In every case the destination holds a prefix of the source at 0 |
| Image.CopyChunk | vhdtool.c:425-426 | one chunk moves exactly when both accessors exist and both transfers are in bounds and complete; a missing source accessor, or a missing destination accessor after a good read, crashes |
| Commands.CopyWithoutWriter | vhdtool.c:420-429 | `vhd_copy` into a destination with no write accessor: it succeeds exactly when the region is empty, and crashes once a first chunk has been read |
| Image.CopyStopped | vhdtool.c:424-426 | a chunk inside the region that cannot move means the region is not movable |
| Image.CopyFinished | vhdtool.c:424 | the loop stops at the size rounded up to whole sectors |
| ImageFacts.FixedImageReopens | vhdtool.c:223-231 | data, zeros and a fixed footer open again as a verified fixed disk of that size whose region starts with the data |
| ImageFacts.DynamicImageIsRaw | vhdtool.c:225-227 | a dynamic image is never verified: it opens as a raw image of the whole file with OPEN_RAW_OK, and not at all without |
| ImageFacts.DynamicLayoutShape | vhdtool.c:408-415 | footer at 0, header at 512, every table byte 0xFF from 1536, zero padding, and the second footer at a sector boundary that ends the file |
| ImageFacts.SixtyFourMiBDynamic | vhdtool.c:366-371 | 64 MiB with 4 MiB blocks: 16 entries, second footer at 2048 |
| SizeArg.SkipSpaces | vhdtool.c:467 | the first non-space position at or after `i` |
| SizeArg.DigitsEnd | vhdtool.c:467 | the end of the digit run starting at `i` |
| SizeArg.StrToU64 | vhdtool.c:467 | the conversion stops inside the string; with no digits it converts nothing and returns 0 |
| SizeArg.DecimalValue | vhdtool.c:467 | the decimal text of `v` reads as `v` |
| SizeArg.DigitsEndAt | vhdtool.c:467 | a digit run ends at the first non-digit |
| SizeArg.DecimalRoundTrip | vhdtool.c:467 | `_strtoui64` reads back the decimal text of any 64-bit value and stops right after it |
| SizeArg.ModifierOf | vhdtool.c:470-479 | each known modifier is a factor of 1, 2^9, 2^10, 2^20, 2^30 or 2^40 |
| SizeArg.ParseSizeArgSpec | vhdtool.c:465-482 | a number then T/G/M/K/S/B (either case) gives the value times 2^40/2^30/2^20/2^10/2^9/1, wrapped to `off64_t`, whatever follows the modifier; no suffix leaves the value; any other character after the digits is refused and named |
| SizeArg.ParseSizeArg | vhdtool.c:464-482 | `parse_size_arg`: the conversion, then the modifier; stated by `ParseSizeArgSpec` |
| SizeArg.Scale | vhdtool.c:468-481 | the multiplication by the modifier's factor, wrapped to `off64_t`, or the refusal of an unknown character; stated by `ParseSizeArgSpec` |
| SizeArg.TenGigabytes | vhdtool.c:464-468 | "10G" and "10GB" are both 10737418240 bytes |
| SizeArg.DefaultType | vhdtool.c:438 | the requested type when one is given; otherwise dynamic exactly when a block size is given, and fixed exactly when none is |
| Commands.FixedImageBlank | vhdtool.c:404-405 | a fixed image with no data is the zero region followed by the footer |
| Commands.NewImage | vhdtool.c:458-460 | a fresh destination: on success, the size was aligned, the settled size is kept, and the file is `CreatedImage`. Fixed: succeeds exactly when the hint is taken and the medium fits, never crashes, and gets the raw accessor. Other types: no accessor; a misaligned size fails with nothing written; an aligned one settles and gives `DynamicOutcome` (success exactly when the block size is accepted and the layout fits, a crash exactly on a zero 32-bit block size, a prefix of the layout otherwise) |
| Commands.Closed | vhdtool.c:264-278 | `vhd_close` of the created destination: kept after a success, unlinked after a failure, left as written after a crash |
| Commands.NewFixed | vhdtool.c:458-460 | `NewImage` for the fixed type: the iff above, no crash, the blank fixed image |
| Commands.NewDynamic | vhdtool.c:458-460 | `NewImage` for other types: no accessor; a misaligned size fails with nothing written; an aligned size settles and the outcome is `DynamicOutcome` for the defaulted block size and the command's footer; on success the file is `CreatedImage` |
| Commands.CreateCommand | vhdtool.c:450-462 | a zero size or an existing path fails and leaves the path as it was; a failure on a new path leaves no file; success leaves `CreatedImage` of the settled size; for a fixed disk, success exactly when the size is aligned, the hint is taken and the medium fits |
| Commands.ConvertCommand | vhdtool.c:431-448 | an unopenable source or an existing destination fails and leaves the path alone. A failure leaves no file. Fixed destination: succeeds exactly when the source size is aligned, the hint is taken and the medium fits, and the result is the source's region, zeros to the settled size, and the footer. Dynamic destination, non-empty source: never succeeds |
| Commands.ConvertToFixed | vhdtool.c:440-447 | the fixed half of `ConvertCommand`, for an opened source |
| Commands.ConvertToDynamic | vhdtool.c:440-447 | the dynamic half: a non-empty source never succeeds, and a failure leaves no file |
| Commands.ConvertedImageReopens | vhdtool.c:439-443 | a converted fixed image reopens as a verified fixed disk of the settled size, and its region starts with the copied bytes |
| Commands.TenGigabyteFixedFooter | vhdtool.c:457-460 | a 10 GiB fixed create: the file is 10 GiB + 512 bytes, and its last sector decodes to a fixed "conectix" footer with both sizes 10737418240 |
| Commands.FixedCopyFits | vhdtool.c:424-426 | every chunk of an aligned source region fits a fixed destination at least as large |
| Commands.FixedCopyResult | vhdtool.c:443 | copying the rounded region into the blank fixed image gives the data, the zeros, then the footer |

## Left out

- `getopt_ms`, `main` and the `-t` type names (vhdtool.c:139-161, 484-516): command-line plumbing. The commands take the parsed values. The usage checks are kept only as the zero-size refusal of `create`.
- `uuid_make` (vhdtool.c:164-179): the 16-byte id is a parameter, and the text form, used only for messages, is left out.
- `time(NULL)` (vhdtool.c:342): the current time is a parameter.
- `DeviceIoControl(FSCTL_SET_SPARSE)` (vhdtool.c:388-402): a Windows call. It is the flag `sparseOk`.
- The real `open`/`fstat`/`lseek`/`read`/`write` calls: a file is a byte string with a medium capacity.
  - A write past the capacity fails as a whole; the bytes a short write would leave are not modelled.
  - `fsync`, `close` and `unlink` in `vhd_close` always succeed.
  - `vhd_close` of the source (vhdtool.c:446) is not modelled. After a success it flushes and closes the source, and a failure of either turns the command's status into -1 although the destination is already kept. After a failure it does nothing, since the source was not created.
- All `printf`/`fprintf` messages and warnings: logging only.
- `COOKIE`/`COOKIE32` (vhdtool.c:55-56): the cookies are the ASCII bytes they put on disk.
- The `name`, `fd`, `uuid_str` and `flags` fields of `struct vhd`: `flags` is the `compat` field and the `rawOk` argument; the others only reach the OS or messages.
- `vhd_footer_make`'s "size is too small" branch (vhdtool.c:337): unreachable, since `vhd_chs` never fails.
- `size_t` is taken to be 64 bits wide, so the `(size_t)` cast of the table entry count at vhdtool.c:412 is exact.
- SizeArg.StrToU64: `errno` is not modelled, nor a locale other than C. Its contract states only the bounds of the conversion; what it reads is stated by `DecimalRoundTrip` for decimal text.
- Commands.CreateCommand: for a dynamic disk, the contract says only what a success leaves. It does not give the success condition as an if-and-only-if, which `Image.Vhd.WriteDynamic` states through `DynamicOutcome`.
- Commands.ConvertCommand: for a dynamic destination, it states only that a non-empty copy does not succeed. It does not state what a crash leaves on disk.
- Commands.ConvertToDynamic: weaker in the same way as `Commands.ConvertCommand`.

## Findings

| source | as written | input that shows it | evidently intended | confidence | as-written member | corrected member |
|---|---|---|---|---|---|---|
| vhdtool.c:342 | the time stamp is `time(NULL) + 946684800`, which adds the 1970-2000 offset | the instant 2000-01-01 00:00:00 UTC (`time(NULL)` = 946684800) gets the stamp 1893369600 instead of 0 | seconds since 2000-01-01, i.e. `time(NULL) - 946684800` | high; not executed | VhdFooter.TimeStampAsWritten (shown by VhdFooter.TimeStampAtEpoch2000, VhdFooter.TimeStampSkew) | VhdFooter.TimeStamp, used by `Image.Vhd.FooterMake` and `VhdFooter.BuildFooter` |
