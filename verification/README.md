# Verification of the super image worker

A Dafny 4.11 model of the Android `super` image editor: the extent allocator, the
metadata table editor, the on-disk metadata with its redundant slots, the sparse
image codec, the streaming reader, and the `add` and `make` commands end to end.
`dafny verify dfyconfig.toml` checks the whole project.

Code that changes things step by step is modelled as methods over classes, arrays
and loops, each proved against a specification function or a declarative property;
what the program promises is then proved about those specifications. Every module
corresponds to one part of the program:

| modules | part of the program |
|---|---|
| `Base`, `Arithmetic`, `Format` | machine integers, byte strings, record types, slot offsets |
| `Alignment`, `Allocator`, `Planner`, `PlannerGaps`, `PlacementLaws` | `align_up`, the free-space sweeps, the spanning planner, what it makes of the free space; placement and extents in bytes |
| `SparseImage`, `SparseFormat`, `SparseGrammar`, `SparseEncoder`, `SparseCount` | sparse reader, the chunk format as printer and expansion, exactly which files open, the encoder, how many chunks it writes |
| `ExtentStream` | the extent cursor, extraction, `read --skip --size` |
| `MetadataCodec`, `MetadataSlot`, `MetadataReader`, `ImageMetadata`, `FormatLaws`, `MetadataStore`, `MetadataIsolation` | records, slot rendering, slot loading and the geometry search from bytes and from images, exactly which bytes are read as what, slot updates and crashes, slots over runs of updates |
| `TableModel`, `TableLaws`, `TableEditor`, `TableDrain`, `TableResize`, `TableRuns`, `TableOutcome`, `CommandLaws`, `TableStreams` | the table commands, their meaning, runs of commands and their one outcome, their effects in terms of their arguments, the bytes behind them |
| `Payload`, `AddCommand` | payload writes, `add` end to end |
| `MakePlan`, `MakeDrafts`, `MakeImage`, `MakeReadBack`, `MakeCommand`, `MakeLaws`, `MakeExactness`, `MakeLoss` | `make` end to end, what it accepts and writes in terms of its arguments, what its image reads back as, and when exactly it loses payload |

## How the program is modelled

- **Integers.** `u8` to `u64` are subset types of `int`; every checked, saturating
  or truncating operation is written out. `usize` is taken to be 64 bits wide.
- **Files** are byte sequences. A `File` object is overwritten in place; a write
  past the end leaves zeros in the gap. Writes succeed, or stop after a prefix of
  their bytes (crashes).
- **Hash.** The checksum is a function parameter returning 32 bytes. All results
  hold for every such function; crash atomicity additionally needs that two
  particular pairs of strings do not collide.
- **Meaning of a table.** Partitions own windows of one shared extent vector.
  `Meaning` gives each partition its own extent list; every command is proved to be
  an edit of that list while the index arithmetic keeps the windows tiling the
  vector.
- **Meaning of an extent chain.** `Stream` is the concatenation of the extents'
  bytes, with `None` for a byte that cannot be read. Readers are proved to deliver
  exactly that stream, or to fail exactly when a byte of it is missing.
- **Meaning of free space.** `IsFit` (in phase, past the first logical sector, free,
  inside the device) is declarative and shared by the two independent sweeps, the
  planner, the commands and the well-formedness of tables.
- **Numbers of the format.** Code and specifications share named constants and small
  functions. The modules `PlacementLaws`, `SparseGrammar`, `FormatLaws`, `CommandLaws` and
  `MakeLaws` say what these amount to without them: byte offsets, magic numbers and limits
  as literals, and effects in terms of the arguments alone.

## Main results

1. First fit is exact, and the two allocator sweeps agree on every length. The greedy
   planner succeeds if and only if the request is at most the number of sectors that a
   run with an admissible start can contain; its plan is the only one its rule allows;
   and it uses every free sector if and only if every free gap starts in phase.
2. From any well-formed table, every run of `add`, `create`, `resize`, `remove`,
   group removal and `cow` keeps the windows tiling, the extents disjoint and inside
   their devices, names unique, group indices valid, and, without `--force`, every
   limited group within its size; a partition that no command names keeps its
   attributes, group and extents. The outcome is determined: two runs of one command
   list, from tables of one meaning, commit the same commands with the same effects.
3. Resizing yields exactly the requested sector count; on any disk the old stream is
   a prefix of the grown one, and the shrunk stream is a prefix of the old one.
4. Encoding a raw image to the sparse format and reading it back yields the raw bytes
   at every position. The number of chunks is a function of the raw image, and the
   file is accepted exactly if that number is within the reader's cap. Exactly the files
   of the format open: records of the four kinds, checksum chunks included, behind file
   headers from 28 and chunk headers from 12 to 1024 bytes. Random access agrees with a
   linear scan over the chunks.
5. For any sequence of buffer sizes the extent cursor delivers consecutive slices of
   the stream; extraction and ranged reads emit exactly the stream or its slice, as far
   as 64 bits count it.
6. Records, tables, slots and geometry round-trip, also through an image that is read
   piece by piece. The readers accept exactly the bytes of the format, so a damaged
   geometry is refused and its backup block stands in for it. An update touches nothing
   but the two copies of one slot; over any run of updates a slot loads what was last
   written to it; a torn update, at any point of such a run and of any pair of equal valid
   copies, leaves the old or the new tables.
7. `make` succeeds if and only if its arguments are valid, each partition is accepted
   next to the plan of those before it, and the tables can be rendered; the plan is
   determined by the arguments. Geometry and the slots that were asked for always read back
   from a finished image (names must be storable), other slots are not written, and without
   `--force` no group is given more sectors than its limit. Its partitions stream every
   payload of the planned lengths if and only if no target slot reaches the first sector
   payload may take, or device 0 stays empty.
8. After `add`, the new partition streams its payload padded with zeros to a sector,
   and all other partitions and slots are as before.

## Where the code differs from its documentation

Each of these is part of the model as the code has it, with a lemma that says exactly
what holds.

- The fill pattern of a sparse FILL chunk is indexed by the absolute image position,
  not by the position in the chunk. The two agree on every accepted file if and only
  if the block size is a multiple of four (`SparseFormat.FillPhaseExact`), and on one file
  if and only if each pattern survives the shift by its chunk's start
  (`SparseFormat.FillsRepeatExactly`).
- The encoder can write more chunks than the reader's cap of 1,000,000. Such a file is
  refused: `SparseCount.SparseRoundTrip` is an equivalence on the chunk count of the raw
  image, `SparseCount.TooManyChunks` an image of 1,000,001 alternating blocks.
- `write_metadata` announces a fallback for offsets loaded from a backup copy. It never
  applies: a backup base resolves to an index past the last slot, and the update is
  refused without a write (`MetadataStore.BackupOffsetRefused`). So a slot whose primary
  copy is invalid can be loaded but not updated (`MetadataStore.BackupLoadedIsStuck`).
- The planner is described as succeeding whenever the total free space suffices. Free
  sectors in front of the first in-phase sector of their gap do not help it:
  `PlannerGaps.PacksAllFree` is an equivalence on the gaps of the table,
  `PlannerGaps.PhaseLosesSectors` a device with seven free sectors that serves none.
- An extent whose end exceeds 64 bits makes `find_free_sectors` fail, while
  `is_range_free` saturates the same sum (`Allocator.OverflowHidesFit`).
- `make` rounds its byte reservation down to sectors, so the first sector it allocates can
  share bytes with the metadata area unless the sizes are whole sectors or the device
  alignment skips it (`MakeCommand.ClearExactly`, an equivalence on the arguments). First
  fit takes that sector as soon as device 0 is used at all
  (`MakeExactness.PlacementExactly`). Slots are written after the payload, so metadata
  always survives; payload is lost only where a copy of a target slot ends behind the start
  of that sector (`MakeExactness.StreamsExactly`, an equivalence over all payloads of the
  same lengths). If the last slot is a target that means whenever the reservation is not
  clear (`MakeReadBack.LastSlotSpares`), otherwise never for metadata sizes from 512 bytes
  on (`MakeReadBack.OtherSlotsSpare`). `MakeLoss.PayloadLost` is an accepted build whose
  only partition is given the byte one and reads as zero.
- A metadata header is accepted although it describes table bytes outside its own slot
  copy. Another slot's update then changes what such a slot loads
  (`MetadataIsolation.StrayingHeaderLeaks`); slots this program wrote are never of that
  kind (`MetadataIsolation.UpdateKeepsContained`).

## Model

| member | source | states |
|---|---|---|
| Alignment.AlignUpIsLeast | crates/super-image-worker-core/src/writer.rs:24-53 | `align_up` returns the least in-phase sector at or after its argument, on both branches; it cannot fail for a sector with a 64-bit byte offset |
| Alignment.PhaseIsCongruence | crates/super-image-worker-core/src/writer.rs:24-53 | being in phase, a byte-level law, is one congruence on sectors, so in-phase sectors repeat with a fixed period |
| Alignment.AlignUpMonotoneIdempotent | crates/super-image-worker-core/src/writer.rs:24-53 | `align_up` is monotone and idempotent |
| PlacementLaws.PhaseExactly | crates/super-image-worker-core/src/writer.rs:24-53 | a sector is in phase if and only if its byte offset differs from the alignment offset by a multiple of a whole-sector alignment; otherwise, if it is a multiple of the alignment rounded up to sectors |
| Allocator.CollectUsed | crates/super-image-worker-core/src/writer.rs:55-70 | lists exactly the sector ranges of the device's linear extents, sorted by start; fails exactly if one of their ends overflows |
| Allocator.FindFreeSectors | crates/super-image-worker-core/src/writer.rs:76-127 | returns the least admissible start, also for nested or overlapping used ranges; on a device of known size it succeeds if and only if no extent end overflows and some admissible start exists, on one of unknown size it misses only starts past 64-bit addresses |
| Allocator.OverflowHidesFit | crates/super-image-worker-core/src/writer.rs:55-70 | one overflowing extent hides a fit that exists |
| Allocator.LargestFreeRun | crates/super-image-worker-core/src/writer.rs:129-179 | returns the maximum length for which a fit exists: a length fits if and only if it does not exceed the result; on a device of unknown size the same for runs in front of a used range |
| Allocator.BestAcrossRange | crates/super-image-worker-core/src/writer.rs:144-168 | moving the second sweep past a used range accounts for every fit in front of it |
| Allocator.IsRangeFree | crates/super-image-worker-core/src/writer.rs:293-321 | true if and only if the range ends on the device and meets no linear extent; an error exactly for an unknown device or an overflowing range |
| Allocator.FindFreeSectorsAnyIn | crates/super-image-worker-core/src/writer.rs:200-229 | the first allowed device with a fit, and its least fit; an error means no allowed device has one |
| Allocator.FindFreeSectorsAny | crates/super-image-worker-core/src/writer.rs:183-194 | the same over all devices in table order |
| PlacementLaws.FitExactly | crates/super-image-worker-core/src/writer.rs:76-127 | a start is admissible if and only if it is in phase, past the first sector, the run ends within the device in bytes, and no linear extent of that device shares a sector with it |
| Planner.PlanSpanningAllocation | crates/super-image-worker-core/src/writer.rs:240-289 | terminates; succeeds if and only if the request is at most the reachable capacity; the runs add up to the request, each fits next to the extents and all earlier runs, there is just one exactly if some device has a fit, and the plan is the one `PlannedBy` allows |
| Planner.PlannedByUnique | crates/super-image-worker-core/src/writer.rs:232-289 | a request has one plan: its whole run on the least device with a fit, or runs taken device by device in table order, each the rest of the request or a longest run, at its first fit |
| PlannerGaps.FreeIsReachable | crates/super-image-worker-core/src/writer.rs:129-179 | every free sector of a device can be part of a run if and only if every free gap of it starts in phase |
| PlannerGaps.PacksAllFree | crates/super-image-worker-core/src/writer.rs:232-289 | every request up to the total of free sectors is within the capacity if and only if every free gap of every device starts in phase |
| PlannerGaps.PhaseLosesSectors | crates/super-image-worker-core/src/writer.rs:232-289 | a device with seven free sectors and no capacity |
| Planner.TakeLongest | crates/super-image-worker-core/src/writer.rs:262-279 | taking a longest free run removes exactly its own sectors from the reachable ones |
| Planner.RunsDoNotCross | crates/super-image-worker-core/src/writer.rs:262-279 | a run that does not end inside a longest run does not touch it |
| Planner.CapacityAfter | crates/super-image-worker-core/src/writer.rs:262-279 | one carve lowers the total capacity by its length |
| Planner.NoFitNoCapacity | crates/super-image-worker-core/src/writer.rs:281-286 | a pass without progress means that no capacity is left |
| Planner.FitWithinCapacity | crates/super-image-worker-core/src/writer.rs:252-254 | a single run that fits is within the capacity |
| MakePlan.PlanPlaced | crates/super-image-worker-core/src/writer.rs:240-289 | the extents of a plan together with the existing ones are pairwise disjoint per device, inside their device and past its first logical sector |
| SparseImage.ParseSparse | crates/super-image-worker-core/src/reader/source.rs:93-199 | the parse loop yields exactly the recursive chunk grammar, with the same refusals |
| SparseImage.OpenedIsValid | crates/super-image-worker-core/src/reader/source.rs:74-199 | every file that opens, sparse or raw, has chunks that chain without gap or overlap from zero to the image size, zero-length ones included |
| SparseImage.ScanIsUnique | crates/super-image-worker-core/src/reader/source.rs:215-231 | every position inside the image lies in exactly one chunk, the one a linear scan finds |
| SparseImage.FindChunk | crates/super-image-worker-core/src/reader/source.rs:215-231 | binary search returns a chunk that contains the position, the same one as the linear scan, and none only if there is none |
| SparseImage.ReadFromChunk | crates/super-image-worker-core/src/reader/source.rs:263-298 | one piece of a read: the chunk's bytes, failing exactly if a stored byte is missing; nothing else in the buffer changes |
| SparseImage.ReadAt | crates/super-image-worker-core/src/reader/source.rs:233-305 | succeeds if and only if the range is inside the image and all its bytes can be read, and then delivers the expanded bytes; nothing else in the buffer changes |
| SparseGrammar.ChunkExactly | crates/super-image-worker-core/src/reader/source.rs:112-190 | the chunk parser accepts exactly the records of the four kinds, RAW with all its bytes, FILL with four, DONT_CARE with none, CRC with none or four, under header sizes up to 1024 |
| SparseGrammar.ChunksExactly | crates/super-image-worker-core/src/reader/source.rs:112-190 | a chunk table is exactly a list of such records one behind the other |
| SparseGrammar.OpenedExactly | crates/super-image-worker-core/src/reader/source.rs:74-199 | opening succeeds exactly for files of at least four bytes without the sparse magic, and for sparse files of version 1 whose headers are long enough, whose chunk count is at most 1,000,000 and whose records add up to the announced blocks |
| SparseGrammar.OpenDressed | crates/super-image-worker-core/src/reader/source.rs:93-199 | a list of RAW, FILL, DONT_CARE and CRC pieces behind a file header of any size from 28 and chunk headers of any size from 12 to 1024, extra bytes skipped, opens if and only if its length is within the cap, and then holds the expansion; a CRC piece adds zeros of its length |
| SparseFormat.OpenPrinted | crates/super-image-worker-core/src/reader/source.rs:93-199 | a printed list of chunks of all four kinds is accepted if and only if its length is within the cap, and the opened image holds the expansion |
| SparseFormat.ParsePrinted | crates/super-image-worker-core/src/reader/source.rs:112-190 | parsing undoes printing, chunk by chunk, at any file position |
| SparseFormat.FillPhaseExact | crates/super-image-worker-core/src/reader/source.rs:278-290 | fill chunks read as a per-chunk repetition on every accepted file if and only if the block size is a multiple of four |
| SparseFormat.FillsRepeatExactly | crates/super-image-worker-core/src/reader/source.rs:278-290 | on one image, fill chunks read as a per-chunk repetition if and only if each pattern survives the shift by its chunk's start |
| SparseFormat.SkipThenFillOpens | crates/super-image-worker-core/src/reader/source.rs:278-290 | the accepted file that shows the difference for any other block size |
| SparseEncoder.RawToSparse | crates/super-image-worker-core/src/sparse.rs:37-174 | succeeds if and only if the block size is supported and the image is a non-empty whole number of at most 2^32 - 1 blocks; the file prints a list that expands to the image, stores no zero block, joins neighbouring runs and splits raw ones only where the buffer is full |
| SparseEncoder.Encoder.constructor | crates/super-image-worker-core/src/sparse.rs:57-79 | the initial state has seen nothing |
| SparseEncoder.Encoder.FlushRaw | crates/super-image-worker-core/src/sparse.rs:81-103 | appends exactly the pending raw run as one chunk; what was seen so far is unchanged |
| SparseEncoder.Encoder.FlushCare | crates/super-image-worker-core/src/sparse.rs:105-116 | appends exactly the pending zero run as one chunk; what was seen so far is unchanged |
| SparseEncoder.Encoder.Add | crates/super-image-worker-core/src/sparse.rs:127-159 | one block: at most one accumulator is non-empty, and what was seen grows by exactly that block |
| SparseEncoder.Encoder.AddWindow | crates/super-image-worker-core/src/sparse.rs:118-160 | one window: what was seen grows by exactly the window |
| SparseEncoder.Encoder.Finish | crates/super-image-worker-core/src/sparse.rs:161-173 | after the last flushes and the header patch, the file is the printed form of the chunk list |
| SparseGrammar.FileHeaderBytes | crates/super-image-worker-core/src/sparse.rs:57-79 | the file header that is written, byte by byte: version 1.0, header sizes 28 and 12, no image checksum |
| SparseGrammar.ChunkHeaderBytes | crates/super-image-worker-core/src/sparse.rs:81-116 | a chunk header that is written: kind, two reserved bytes of zero, block count, size with this header |
| SparseCount.EncodingCount | crates/super-image-worker-core/src/sparse.rs:118-160 | the number of chunks is a function of the raw image: one for each maximal run of zero blocks, and one for each 8 MiB of a run of others |
| SparseCount.DenseCount | crates/super-image-worker-core/src/sparse.rs:150-159 | an image without zero blocks is encoded to one chunk for each 8 MiB, rounded up to blocks |
| SparseCount.SparseRoundTrip | crates/super-image-worker-core/src/sparse.rs:37-174 | an encoded image is accepted if and only if the chunk count of the raw image is within the reader's cap, and every byte read from it is the raw byte |
| SparseCount.TooManyChunks | crates/super-image-worker-core/src/reader/source.rs:101-107 | an image of 1,000,001 alternating blocks that is encoded and then refused |
| ExtentStream.StreamAt | crates/super-image-worker-core/src/reader/extent_stream.rs:34-101 | a stream position inside an extent is that byte of that extent |
| ExtentStream.SeenIsStream | crates/super-image-worker-core/src/reader/extent_stream.rs:15-28 | with extent sizes and the total saturating at 64 bits, a reader sees exactly the stream as far as the total counts |
| ExtentStream.BackingReadAt | crates/super-image-worker-core/src/reader/multiblock.rs:49-60 | reads from the image or the file bound to the device; succeeds exactly if every byte of the range is there |
| ExtentStream.ExtentReader.constructor | crates/super-image-worker-core/src/reader/extent_stream.rs:15-28 | the cursor starts at zero; the saturating total is the stream length, or 2^64 - 1 |
| ExtentStream.ExtentReader.Step | crates/super-image-worker-core/src/reader/extent_stream.rs:40-98 | one loop turn delivers the next stretch or moves to the next extent, skipping empty ones |
| ExtentStream.ExtentReader.Read | crates/super-image-worker-core/src/reader/extent_stream.rs:34-101 | delivers exactly the next slice of the stream, as much as fits or is left, and nothing once the total is reached; fails if and only if one of those bytes cannot be read |
| ExtentStream.ExtractPartition | crates/super-image-worker-core/src/reader/extent_stream.rs:104-139 | emits the whole stream, as far as 64 bits count it, or a prefix of it with an error exactly if some byte of that cannot be read |
| ExtentStream.ReadRange | crates/super-image-worker-cli/src/commands/read.rs:148-280 | emits the slice that `--skip` and `--size` ask for, clamped to the end; succeeds exactly if everything up to its end can be read, and has otherwise emitted a prefix of the slice |
| ExtentStream.DeliverBytes | crates/super-image-worker-cli/src/commands/read.rs:237-280 | the output loop emits exactly the next bytes of the stream, or a prefix of them with an error exactly if one cannot be read |
| ExtentStream.SkipBytes | crates/super-image-worker-cli/src/commands/read.rs:213-235 | the skip loop leaves the cursor exactly `skip` bytes on |
| PlacementLaws.LinearExtents | crates/super-image-worker-core/src/reader/multiblock.rs:49-60 | a linear extent reads 512 bytes per sector from the one image, or from the image of device 0 and the file bound to its device; without a bound file it cannot be read |
| PlacementLaws.OtherExtents | crates/super-image-worker-core/src/reader/extent_stream.rs:70-88 | zero extents read as zeros, extents of any other type cannot be read |
| PlacementLaws.CountedExactly | crates/super-image-worker-core/src/reader/extent_stream.rs:15-28 | the total is 512 bytes for each sector of the chain, or 2^64 - 1 |
| Payload.ExtractsExactly | crates/super-image-worker-core/src/reader/extent_stream.rs:104-139 | a chain that holds known bytes is readable throughout, and a full extraction is those bytes |
| Payload.SingleIsSplit | crates/super-image-worker-core/src/reader/multiblock.rs:256-314 | with all extents on device 0, the split reader and the single-image reader see the same stream |
| MetadataCodec.SerializePartition | crates/super-image-worker-core/src/writer.rs:323-355 | fails exactly for a name over 36 bytes; otherwise the 52-byte record |
| MetadataCodec.PartitionRoundTrip | crates/super-image-worker-core/src/reader/parser.rs:399-420 | a partition record parses back to itself if and only if its name fits and has no NUL |
| MetadataCodec.SerializeExtent | crates/super-image-worker-core/src/writer.rs:357-364 | the 24-byte extent record |
| MetadataCodec.ExtentRoundTrip | crates/super-image-worker-core/src/reader/parser.rs:422-442 | every extent record parses back to itself |
| MetadataCodec.SerializeGroup | crates/super-image-worker-core/src/writer.rs:366-387 | fails exactly for a name over 36 bytes; otherwise the 48-byte record |
| MetadataCodec.GroupRoundTrip | crates/super-image-worker-core/src/reader/parser.rs:444-463 | a group record parses back to itself if and only if its name is storable |
| MetadataCodec.SerializeDevice | crates/super-image-worker-core/src/writer.rs:389-416 | fails exactly for a name over 36 bytes; otherwise the 64-byte record |
| MetadataCodec.DeviceRoundTrip | crates/super-image-worker-core/src/reader/parser.rs:465-486 | a block device record parses back to itself if and only if its name is storable |
| MetadataCodec.NameRoundTrip | crates/super-image-worker-core/src/reader/parser.rs:27-38 | a zero-padded name field reads back if and only if the name fits and has no NUL |
| FormatLaws.PartitionExactly | crates/super-image-worker-core/src/reader/parser.rs:399-420 | which bytes parse as a partition record, and as which: name field, attributes at byte 36, first extent at 40, extent count at 44, group at 48 |
| FormatLaws.ExtentExactly | crates/super-image-worker-core/src/reader/parser.rs:422-442 | which bytes parse as an extent record, and as which |
| FormatLaws.GroupExactly | crates/super-image-worker-core/src/reader/parser.rs:444-463 | which bytes parse as a group record, and as which |
| FormatLaws.DeviceExactly | crates/super-image-worker-core/src/reader/parser.rs:465-486 | which bytes parse as a block device record, and as which |
| FormatLaws.RecordsLaidOut | crates/super-image-worker-core/src/writer.rs:323-416 | the records of the writer have every field at its offset and no other bytes set |
| MetadataSlot.BuildTablesBlob | crates/super-image-worker-core/src/writer.rs:424-504 | the four tables back to back; fails exactly past the entry, device or name limits |
| MetadataSlot.SerializeHeader | crates/super-image-worker-core/src/writer.rs:506-545 | the header sealed with the checksum of itself with a zeroed checksum field; fails exactly for a header size out of range |
| MetadataSlot.RenderSlot | crates/super-image-worker-core/src/writer.rs:550-620 | succeeds if and only if tables, names and header fit the slot; the result is the sealed header, the tables, and zeros to the slot size |
| MetadataSlot.RenderGeometry | crates/super-image-worker-core/src/writer.rs:624-655 | succeeds if and only if the parameters are in the reader's range; the record is sealed with its checksum |
| MetadataSlot.GeometryRoundTrip | crates/super-image-worker-core/src/reader/parser.rs:102-146 | a rendered geometry, at any offset of any disk, validates and parses back |
| FormatLaws.GeometryExactly | crates/super-image-worker-core/src/reader/parser.rs:102-146 | a geometry is accepted if and only if its 52 bytes begin with the magic, bytes 8 to 40 are the checksum of the record with that field zeroed, and size, slot count and block size are in range and read from bytes 40 to 52 |
| FormatLaws.DamagedGeometryFails | crates/super-image-worker-core/src/reader/parser.rs:111-125 | a rendered geometry with other bytes outside its stored checksum is refused, short of a collision of the two hashed strings |
| FormatLaws.BackupStandsIn | crates/super-image-worker-core/src/reader/parser.rs:62-100 | with such a damaged primary block and an intact backup block, the search finds the backup |
| FormatLaws.RenderedGeometry | crates/super-image-worker-core/src/writer.rs:624-655 | the writer's geometry is such a record, with its own length at byte 4 |
| ImageMetadata.FetchGeometry | crates/super-image-worker-core/src/reader/parser.rs:102-146 | a geometry fetched from a raw or sparse image parses exactly as the bytes the image holds |
| ImageMetadata.FindGeometry | crates/super-image-worker-core/src/reader/parser.rs:62-100 | the primary block, the backup block, then the scan: the valid geometry at the least 4 KiB boundary in front of 64 KiB, and an error only if there is none, of the kind for a missing one exactly if the image is too short for the primary block |
| ImageMetadata.FirstGeometryIsOne | crates/super-image-worker-core/src/reader/parser.rs:62-100 | an image has at most one such geometry |
| ImageMetadata.ReadTable | crates/super-image-worker-core/src/reader/parser.rs:350-397 | the entry loop over a raw or sparse image yields exactly the recursive reading of consecutive entries of the bytes it holds, with the same refusals |
| ImageMetadata.FetchValidated | crates/super-image-worker-core/src/reader/parser.rs:243-348 | a copy fetched from a raw or sparse image validates exactly if the bytes the image holds do |
| ImageMetadata.FetchLoaded | crates/super-image-worker-core/src/reader/parser.rs:152-182 | a slot of a raw or sparse image loads exactly what the bytes it holds mean, with the fallback to the backup copy |
| MetadataReader.HeaderBack | crates/super-image-worker-core/src/reader/parser.rs:298-348 | a serialized header parses back field by field |
| MetadataReader.TablesRoundTrip | crates/super-image-worker-core/src/reader/parser.rs:399-486 | the four serialized tables read back as they were |
| MetadataReader.SlotRoundTrip | crates/super-image-worker-core/src/reader/parser.rs:243-296 | a rendered slot, at any offset of any disk, passes both checksums and loads the header and tables it was rendered from |
| FormatLaws.ValidatedExactly | crates/super-image-worker-core/src/reader/parser.rs:243-348 | a copy validates if and only if its header has magic, sizes and descriptors at their offsets, header and tables are no longer than the slot, and both checksums match |
| FormatLaws.TableExactly | crates/super-image-worker-core/src/reader/parser.rs:350-397 | a table is read exactly if its entry size is at most 1 MiB, its count at most 65,536, and every entry parses at its own place |
| FormatLaws.SlotExactly | crates/super-image-worker-core/src/reader/parser.rs:152-182 | a slot is its primary copy if that validates, else its backup copy, at multiples of the slot size behind byte 12288 |
| FormatLaws.RenderableExactly | crates/super-image-worker-core/src/writer.rs:424-620 | a slot can be rendered if and only if there are at most 65,536 partitions, extents and groups and 16 devices, names have at most 36 bytes, and header and tables fit the slot |
| FormatLaws.SlotLaidOut | crates/super-image-worker-core/src/writer.rs:550-620 | every byte of a rendered slot: header fields and checksums at their offsets, the tables behind the header, zeros behind them |
| Format.CopiesApart | crates/super-image-worker-core/src/format/mod.rs:25-39 | no two of the metadata copies overlap, for any slot count and size |
| Format.SlotRegions | crates/super-image-worker-core/src/format/mod.rs:25-39 | a slot's two copies lie past both geometry blocks, inside the metadata area and in order |
| Format.SlotsIsolated | crates/super-image-worker-core/src/format/mod.rs:25-39 | no copy of one slot overlaps a copy of another |
| Format.SlotOfCopy | crates/super-image-worker-core/src/format/mod.rs:41-50 | a primary base resolves to its slot, and a backup base to an index past the last slot |
| Base.OverwriteEffect | crates/super-image-worker-core/src/writer.rs:657-669 | a write at an offset changes exactly its range; the file grows to hold it, with zeros in a gap |
| MetadataStore.WriteMetadata | crates/super-image-worker-core/src/writer.rs:674-730 | succeeds if and only if the offset is a primary base of an existing slot and the tables can be rendered; on failure no byte changes, on success the two copies hold the rendered slot |
| MetadataStore.BackupOffsetRefused | crates/super-image-worker-core/src/writer.rs:693-709 | an offset loaded from a backup copy names no slot |
| MetadataStore.BackupLoadedIsStuck | crates/super-image-worker-core/src/writer.rs:688-709 | a slot whose primary copy does not validate loads with the offset of its backup, which no update accepts |
| MetadataStore.UpdateConfined | crates/super-image-worker-core/src/writer.rs:725-726 | whatever prefix of an update reached the disk, bytes outside the slot's two copies are unchanged |
| MetadataStore.CopyLocal | crates/super-image-worker-core/src/reader/parser.rs:243-296 | a contained copy validates and loads the same from any disk that holds the same copy |
| MetadataStore.SlotSame | crates/super-image-worker-core/src/reader/parser.rs:152-182 | a slot loads the same from any disk that holds the same copies and the same bytes where their headers describe tables |
| MetadataStore.SlotIsolation | crates/super-image-worker-core/src/writer.rs:688-729 | whatever prefix of an update reached the disk, every other slot loads identically whose headers describe nothing in the two rewritten copies |
| MetadataStore.TornHeader | crates/super-image-worker-core/src/reader/parser.rs:243-275 | a header mixed from a prefix of the new and the rest of the old one validates only if it is one of the two |
| MetadataStore.TornCopy | crates/super-image-worker-core/src/reader/parser.rs:243-296 | a torn copy that validates loads the old or the new tables |
| MetadataStore.CompletePrimaryLoads | crates/super-image-worker-core/src/reader/parser.rs:152-182 | once the primary copy is complete, the slot loads the new tables |
| MetadataStore.TornPrimaryLoads | crates/super-image-worker-core/src/reader/parser.rs:152-182 | while the primary copy is being written, the slot loads the old or the new tables, through the backup if need be |
| MetadataStore.CrashAtomic | crates/super-image-worker-core/src/writer.rs:674-730 | after any prefix of the bytes of an update, the slot loads exactly the old or the new tables: the old ones if nothing was written, the new ones from the complete primary on |
| MetadataStore.SecondCrashGoesBack | crates/super-image-worker-core/src/writer.rs:674-730 | with a backup that is not equal to the primary atomicity fails: after a second torn update the slot loads the tables from before the first one |
| MetadataIsolation.UpdateKeepsContained | crates/super-image-worker-core/src/writer.rs:674-730 | an update leaves every copy of every slot contained |
| MetadataIsolation.UnwrittenSlotKept | crates/super-image-worker-core/src/writer.rs:674-730 | over any sequence of updates, a slot that none of them names loads what it loaded at the start |
| MetadataIsolation.LastUpdateLoads | crates/super-image-worker-core/src/writer.rs:674-730 | over any sequence of updates, a slot loads what was last written to it |
| MetadataIsolation.WrittenSlotGood | crates/super-image-worker-core/src/writer.rs:725-726 | a complete update leaves two good copies of its slot, the premise of crash atomicity |
| MetadataIsolation.CrashAfterUpdates | crates/super-image-worker-core/src/writer.rs:674-730 | after any sequence of updates of any disk, a further update of a written slot may tear at any byte: the slot loads what its last complete update wrote, or the new tables |
| MetadataIsolation.StrayingHeaderLeaks | crates/super-image-worker-core/src/reader/parser.rs:350-397 | a disk with a header that is not contained, on which every update of slot 1 changes what slot 0 loads |
| TableModel.CutTiles | crates/super-image-worker-cli/src/commands/resize.rs:417-450 | cutting the tail of a window keeps the tiling and changes only that partition's extents |
| TableModel.SpliceTiles | crates/super-image-worker-cli/src/commands/resize.rs:318-346 | inserting an extent behind a window keeps the tiling and changes only that partition's extents |
| TableModel.FreshTiles | crates/super-image-worker-cli/src/commands/resize.rs:244-268 | an empty window may move to the end of the vector and take a new extent |
| TableModel.AppendTiles | crates/super-image-worker-cli/src/commands/add.rs:260-276 | a new partition with new extents at the end keeps the tiling and everybody else's extents |
| TableModel.UpdateInWindow | crates/super-image-worker-cli/src/commands/resize.rs:298-302 | changing one extent in place changes only its owner's extents |
| TableLaws.PlacedInsert | crates/super-image-worker-core/src/writer.rs:76-127 | an allocated extent, inserted anywhere in the vector, keeps extents disjoint and inside their devices |
| TableLaws.PlacedGrow | crates/super-image-worker-cli/src/commands/resize.rs:289-302 | so does growing an extent into sectors reported free behind it |
| TableLaws.TruncateExact | crates/super-image-worker-cli/src/commands/resize.rs:392-416 | the truncation to n sectors has exactly n sectors |
| TableEditor.SuperData.PartitionExtents | crates/super-image-worker-cli/src/commands/split_util.rs:56-74 | a partition's extent list is its meaning; an error exactly if a non-empty window leaves the vector |
| TableEditor.SuperData.PartitionSectors | crates/super-image-worker-core/src/reader/mod.rs:188-200 | the saturating sector total of the part of the window inside the vector |
| TableEditor.SuperData.GroupSectors | crates/super-image-worker-cli/src/commands/resize.rs:196-201 | the saturating load of a group, with one named partition left out |
| TableEditor.LoadExceptOne | crates/super-image-worker-cli/src/commands/resize.rs:196-201 | leaving out one partition subtracts exactly its own sectors from the group's load |
| TableEditor.SuperData.QuotaPermits | crates/super-image-worker-cli/src/commands/add.rs:174-192 | permits exactly what forced mode, an unlimited group, or the remaining size of the group allows, in spite of the saturating sums |
| TableEditor.SuperData.Allocate | crates/super-image-worker-cli/src/commands/add.rs:211-247 | the first offered device with a fit, and its least fit; an error means that no offered device has one |
| TableEditor.SuperData.Add | crates/super-image-worker-cli/src/commands/add.rs:174-276 | the table gains one partition with one extent from the first fit over the offered devices, and stays well-formed and within quota; an error leaves it unchanged and has one of four reasons |
| TableEditor.SuperData.Create | crates/super-image-worker-cli/src/commands/create.rs:147-255 | an extent-less or one-extent partition in the first group of that name; a group made on the fly is the last one and has the requested limit, otherwise no group changes; the extent is the first fit over all devices of a split table, else on device 0; an error has one of four reasons, told from the arguments |
| CommandLaws.NewGroupStored | crates/super-image-worker-cli/src/commands/create.rs:145-165 | the effect of `create` on the groups: one more with the given name and limit if none had the name and a size was given, otherwise none changes |
| CommandLaws.NewGroupLimit | crates/super-image-worker-cli/src/commands/create.rs:191-209 | an unforced `create` into a new group with a limit accepts a partition only if its size is within the whole sectors of the limit |
| TableEditor.SuperData.RemovePartition | crates/super-image-worker-cli/src/commands/remove.rs:270-293 | exactly that partition disappears; the others keep their extents |
| TableDrain.InsertKeepsOrder | crates/super-image-worker-cli/src/commands/remove.rs:199-205 | the drain order is sorted by descending window start and names every doomed partition once |
| TableDrain.DrainOne | crates/super-image-worker-cli/src/commands/remove.rs:207-224 | draining the next window in that order leaves the remaining windows valid and every other partition its extents |
| TableDrain.DrainAll | crates/super-image-worker-cli/src/commands/remove.rs:199-229 | descending drain equals filtering: the survivors, in order, each with its extents |
| TableDrain.RemoveGroup | crates/super-image-worker-cli/src/commands/remove.rs:196-248 | the group and its partitions disappear, the survivors keep extents and, renumbered, their group; refused if the group is in use and no cascade was asked for |
| TableDrain.ClearCow | crates/super-image-worker-cli/src/commands/cow.rs:140-176 | exactly the `*-cow` partitions of the group `cow` disappear |
| CommandLaws.CowCleared | crates/super-image-worker-cli/src/commands/cow.rs:140-176 | `cow` leaves, in order, exactly the partitions that are not both in a group named `cow` and named with the suffix `-cow`, byte by byte |
| CommandLaws.GroupDeleted | crates/super-image-worker-cli/src/commands/remove.rs:196-293 | `remove --group` leaves all groups but one and, in order, exactly the partitions outside it, each with its group one place further down if that was a later one |
| TableResize.PartitionSize | crates/super-image-worker-core/src/reader/mod.rs:174-186 | the saturating byte total of the part of the window inside the vector |
| TableResize.ResizePermits | crates/super-image-worker-cli/src/commands/resize.rs:195-209 | permits exactly if the others' load plus the new size is within the group, or the group is unlimited, or the mode forced |
| TableResize.Grow | crates/super-image-worker-cli/src/commands/resize.rs:231-351 | the partition gains exactly the extra sectors, in place, spliced or fresh, and its old sectors stay a prefix; nobody else's extents change; an error means that there is no room |
| TableResize.WalkPrefix | crates/super-image-worker-cli/src/commands/resize.rs:392-416 | the walk keeps exactly the truncation, cutting at most one extent |
| TableResize.Shrink | crates/super-image-worker-cli/src/commands/resize.rs:355-450 | the partition is left with exactly the truncation; nobody else's extents change |
| TableResize.Resize | crates/super-image-worker-cli/src/commands/resize.rs:168-453 | the present size changes nothing; any other request becomes the sector total exactly, grown or truncated, within quota; an error has one of three reasons and changes nothing |
| TableResize.ResizeTo | crates/super-image-worker-cli/src/commands/resize.rs:218-453 | the change itself: exactly the requested sectors, grown or truncated; it fails only if there is no room to grow |
| CommandLaws.ResizedBytes | crates/super-image-worker-cli/src/commands/resize.rs:168-453 | a resized partition has the least number of whole sectors that holds the new size, and nobody else changes |
| TableRuns.Apply | crates/super-image-worker-cli/src/commands/resize.rs:161-453 | each command either has its effect on the table (the size, first fit, chain, group and quota it asks for) or one of its reasons to refuse |
| TableRuns.Execute | crates/super-image-worker-cli/src/commands/add.rs:211-334 | a command works on a clone; it commits a step whose slot can be rendered, or declines for one of its reasons or because its effect cannot be rendered into the slot |
| TableRuns.StepKeepsQuota | crates/super-image-worker-cli/src/commands/add.rs:174-192 | an unforced step keeps every limited group within its size |
| TableRuns.StepKeepsBystander | crates/super-image-worker-cli/src/commands/remove.rs:196-293 | a step keeps attributes, group and extents of every partition it does not name |
| TableRuns.ExecuteAll | crates/super-image-worker-cli/src/commands/add.rs:211-334 | executing a command list is a run: every table is well-formed, and each command is committed, or declined with nothing changed |
| TableOutcome.EditIsOne | crates/super-image-worker-cli/src/commands/resize.rs:218-453 | a command has one effect on a table, whatever the layout of its extent vector |
| TableOutcome.EditNotRefused | crates/super-image-worker-cli/src/commands/resize.rs:168-351 | a command that has an effect has no reason to refuse |
| TableOutcome.RenderableAlike | crates/super-image-worker-core/src/writer.rs:550-580 | layouts of one table are rendered alike: both fit a slot, or neither |
| TableOutcome.RunDetermined | crates/super-image-worker-cli/src/commands/add.rs:211-334 | two runs of one command list, from tables of one meaning, agree on the meaning of every table they pass |
| TableRuns.RunWithinQuota | crates/super-image-worker-cli/src/commands/create.rs:191-209 | without force, every table of a run stays within the quota it started within |
| TableRuns.RunKeepsBystander | crates/super-image-worker-cli/src/commands/cow.rs:149-176 | a partition that no command of a run names has the same attributes, group and extents at the end |
| TableStreams.TruncateStream | crates/super-image-worker-cli/src/commands/resize.rs:392-416 | on any disk, a shrunk partition streams exactly the prefix of the requested sectors |
| TableStreams.GrownStream | crates/super-image-worker-cli/src/commands/resize.rs:231-351 | on any disk, the old stream is a prefix of the grown one |
| TableStreams.SparseOutputStreams | crates/super-image-worker-cli/src/commands/make.rs:841-850 | a sparse output, while the reader accepts it, streams every partition like the raw image |
| Payload.CopyPayloadSegment | crates/super-image-worker-core/src/writer.rs:766-793 | the chunked copy writes exactly the requested slice of the input; fails exactly if the input is too short |
| Payload.CopyPayloadStream | crates/super-image-worker-core/src/writer.rs:741-762 | the chunked copy writes the payload and zeros up to the sector end; it fails exactly if the input is shorter than announced |
| Payload.PayloadReads | crates/super-image-worker-core/src/writer.rs:741-762 | the extent a payload was written to reads back as the padded payload |
| Payload.PayloadElsewhere | crates/super-image-worker-core/src/writer.rs:741-762 | every extent that shares no sector with it keeps its bytes |
| AddCommand.Add | crates/super-image-worker-cli/src/commands/add.rs:211-334 | finds no room for one of four reasons and then writes nothing: no payload, name taken, group over its limit, or no fit on device 0 nor, in split mode, on any bound device; otherwise the extent is the first fit on the least of these devices with one, the command succeeds exactly if the slot can be rewritten, and the files then hold the payload in the extent and the new slot |
| AddCommand.AddStopped | crates/super-image-worker-cli/src/commands/add.rs:308-331 | an `add` that wrote its payload but not its metadata changed no partition's bytes and no slot |
| AddCommand.AddEndToEnd | crates/super-image-worker-cli/src/commands/add.rs:211-334 | after `add` the slot loads the new table, the new partition reads as the padded payload, every other partition reads as before, and every other slot loads as before |
| MakePlan.FirstSectorClears | crates/super-image-worker-cli/src/commands/make.rs:417-453 | a device's first allocatable sector lies past the metadata area if and only if the sector division loses nothing of it or the device alignment skips the lost sector |
| MakePlan.SectorMultiplesClear | crates/super-image-worker-cli/src/commands/make.rs:420-425 | a metadata size or default alignment of whole sectors loses nothing |
| MakeLoss.PayloadLost | crates/super-image-worker-cli/src/commands/make.rs:356-840 | an argument list that is accepted, one partition with the byte one as its payload, and the finished image in which that partition reads as zero |
| MakePlan.BuildDevices | crates/super-image-worker-cli/src/commands/make.rs:427-453 | succeeds exactly if every device is whole sectors and larger than the reservation; devices start at their first in-phase sector past it |
| MakePlan.PlanRuns | crates/super-image-worker-cli/src/commands/make.rs:506-538 | a pinned partition is planned if and only if its device has a fit, any other if and only if it is within the capacity; the runs add up and are the only ones that serve the request |
| MakePlan.PushRuns | crates/super-image-worker-cli/src/commands/make.rs:550-567 | one extent and one segment per run; segment bounds are the extents' bounds clamped to the payload |
| MakePlan.PlanPartition | crates/super-image-worker-cli/src/commands/make.rs:477-593 | a spec is planned if and only if its group exists and its payload fits the group's running total and the devices; the result is the one draft that continues the given one, served exactly, with everything planned before kept |
| MakePlan.PlannableByLoad | crates/super-image-worker-cli/src/commands/make.rs:486-506 | the running total of a group's name is the load of the group |
| MakePlan.PlanPartitions | crates/super-image-worker-cli/src/commands/make.rs:477-593 | all specs in turn: a well-formed table, every spec served with exactly the sectors its payload needs, segments matching extents, groups within their size unless forced; it stops only at a spec that is not accepted next to the plan of those before it |
| MakePlan.PlansToOne | crates/super-image-worker-cli/src/commands/make.rs:477-593 | a list of specs has at most one plan |
| MakePlan.StoppedHasNoPlan | crates/super-image-worker-cli/src/commands/make.rs:477-593 | where planning stops, no plan of the whole list exists |
| MakeDrafts.PlansToDrafted | crates/super-image-worker-cli/src/commands/make.rs:477-593 | every plan of a list of specs is well-formed and serves every spec |
| MakeDrafts.PlansToFromStart | crates/super-image-worker-cli/src/commands/make.rs:516-538 | a device that a plan uses at all is used from its first allocatable sector on |
| MakeDrafts.PlansToShape | crates/super-image-worker-cli/src/commands/make.rs:477-593 | specs with the same payload lengths are planned to the same table |
| MakeImage.ExtentLanded | crates/super-image-worker-cli/src/commands/make.rs:764-786 | after all segments, every byte of every extent is its segment's byte, or zero behind the segment |
| MakeImage.PayloadStaysBehind | crates/super-image-worker-cli/src/commands/make.rs:764-786 | no segment changes a byte in front of its device's first allocatable sector |
| MakeImage.SlotsConfined | crates/super-image-worker-cli/src/commands/make.rs:815-838 | writing the target slots changes their own copies alone |
| MakeImage.SlotsComplete | crates/super-image-worker-cli/src/commands/make.rs:815-838 | both copies of every target slot end up complete |
| MakeReadBack.OtherSlotLeftAlone | crates/super-image-worker-cli/src/commands/make.rs:815-838 | no byte of the copies of a slot that is no target is written; in front of payload they stay zero |
| MakeCommand.AskedSlotsWritten | crates/super-image-worker-cli/src/commands/make.rs:330-345 | of the slots of the image, slot 0 for `a`, slot 1 for `b`, every one for `all` loads the planned tables; no other slot is written |
| MakeReadBack.PartitionReadsBack | crates/super-image-worker-cli/src/commands/make.rs:550-567 | the chain of a planned partition, over one or several devices, streams its payload padded with zeros to a sector, if no target slot reaches payload or the chain does not use device 0's first sector |
| MakeReadBack.MetadataReadsBack | crates/super-image-worker-cli/src/commands/make.rs:788-838 | whatever the sizes, for storable names, the geometry of a finished image parses from both blocks and every target slot loads the planned tables |
| MakeReadBack.LastSlotSpares | crates/super-image-worker-cli/src/commands/make.rs:815-838 | if the last slot is a target, no target slot reaches payload if and only if the reservation is clear |
| MakeReadBack.OtherSlotsSpare | crates/super-image-worker-cli/src/commands/make.rs:815-838 | if it is not, no target slot reaches payload for metadata sizes of a sector or more |
| MakeReadBack.LostByte | crates/super-image-worker-cli/src/commands/make.rs:815-838 | where a target slot reaches the first sector of payload, the finished image holds the slot's byte, whatever the payload |
| MakeReadBack.MakeThenRead | crates/super-image-worker-cli/src/commands/make.rs:477-593 | metadata reads back always, and every partition that no target slot reaches; with a clear reservation that is every partition, and no segment lies in the metadata area |
| MakeExactness.PlacementExactly | crates/super-image-worker-cli/src/commands/make.rs:420-453 | no segment of a plan lies in the metadata area if and only if the reservation is clear or device 0 stays empty |
| MakeExactness.OneDeviceUsed | crates/super-image-worker-cli/src/commands/make.rs:477-593 | with a single device, it stays empty if and only if there is no payload |
| MakeExactness.StreamsExactly | crates/super-image-worker-cli/src/commands/make.rs:764-838 | the finished images of all arguments that differ in payload bytes alone stream every payload if and only if no target slot reaches payload or device 0 stays empty |
| MakeImage.WriteFiles | crates/super-image-worker-cli/src/commands/make.rs:730-840 | writes zeroed files, geometry, segments and slots; fails exactly if the tables cannot be rendered |
| MakeLaws.GeometryMade | crates/super-image-worker-cli/src/commands/make.rs:754-762 | the finished image holds the requested geometry at 4 KiB and at 8 KiB |
| MakeLaws.NewSlotHeader | crates/super-image-worker-cli/src/commands/make.rs:788-813 | the header of a new slot: version 10.2, 256 bytes, the four tables back to back |
| MakeLaws.RestIsZero | crates/super-image-worker-cli/src/commands/make.rs:730-840 | every file has the size of its device, and every byte of it is zero that is neither geometry nor a copy of a target slot nor payload |
| MakeLaws.StreamedBytes | crates/super-image-worker-cli/src/commands/make.rs:550-567 | a partition that reads back yields its payload byte by byte, then zeros up to a whole sector |
| MakeCommand.Validate | crates/super-image-worker-cli/src/commands/make.rs:356-438 | accepts exactly the argument lists that pass every check in front of planning, those of the spec parsers on names and sizes included |
| MakeLaws.ValidExactly | crates/super-image-worker-cli/src/commands/make.rs:356-438 | the accepted arguments in numbers: 1 to 8 slots of 1 byte to 16 MiB, blocks of 512 or 4096 bytes, two slots for `b`, names of 1 to 36 bytes, no doubles, further devices in retrofit mode only, devices of whole sectors with room for the reservation and one sector more |
| MakeLaws.ReserveExactly | crates/super-image-worker-cli/src/commands/make.rs:417-425 | the reservation is the least multiple of the default alignment, or of a sector if that is larger, that holds the geometry blocks and all copies |
| MakeLaws.DevicesStored | crates/super-image-worker-cli/src/commands/make.rs:440-454 | the devices of the new table are the requested ones, each allocatable from its first in-phase sector past the reservation |
| MakeLaws.PartitionsStored | crates/super-image-worker-cli/src/commands/make.rs:473-593 | the partitions are the requested ones, each in the group it names and with the whole sectors of its payload |
| MakeLaws.GroupsStored | crates/super-image-worker-cli/src/commands/make.rs:455-462 | the groups are the requested ones, with their limits |
| MakeLaws.UsedIsDemand | crates/super-image-worker-cli/src/commands/make.rs:486-506 | the running total of a group is the number of whole sectors that the payloads of its partitions so far need |
| MakeLaws.LimitsKept | crates/super-image-worker-cli/src/commands/make.rs:486-506 | an unforced build that is accepted asks of no limited group more than the whole sectors of its limit |
| MakeCommand.ClearExactly | crates/super-image-worker-cli/src/commands/make.rs:417-453 | the metadata area is clear of payload if and only if the reservation is exact in sectors or the first device's alignment skips the lost one |
| MakeCommand.PlanOfUnique | crates/super-image-worker-cli/src/commands/make.rs:417-593 | the devices, tables and segments of a build are determined by its arguments |
| MakeCommand.Make | crates/super-image-worker-cli/src/commands/make.rs:356-840 | succeeds if and only if the arguments are valid, every partition is accepted next to the plan of those before it, and the tables can be rendered; the plan is written out, the slots asked for load it and no other slot is written, and partitions read back as far as no target slot reaches payload |

## Left out

- MetadataStore.SlotIsolation: needs the headers of the other slot's copies to describe nothing in the two rewritten copies. `MetadataIsolation.StrayingHeaderLeaks` is a disk on which it fails without this; that it fails on all such disks is not claimed, since a described byte may be one that no table reader looks at. That the byte ranges of other slots are untouched holds without the premise (`MetadataStore.UpdateConfined`).
- MetadataStore.CrashAtomic: assumes that the strings hashed for a torn primary copy do not collide with those of the new copy, and that both copies were equal and valid before, without which it fails (`MetadataStore.SecondCrashGoesBack`).
- TableRuns.ExecuteAll: starts from a well-formed table, so tables whose windows overlap or leave extents unowned, extents that overlap on a device, and devices of unknown size are not covered. A run edits one slot that updates accept, with one header and size.
- AddCommand.AddEndToEnd: assumes that the bound files reach to the end of their devices and that extents lie past the metadata area, as `first_logical_sector` promises; claims are per slot, since slots may share sectors. All device files are raw: the program checks the format of the image file only, so a sparse file bound to a further device would be written as if it were raw.
- Payload.CopyPayloadStream: a payload file that changes while it is copied is not modelled.
- MakeCommand.Make: sizes, attributes and device, group and partition specs arrive parsed, with their names trimmed; output paths, block-device targets, `--dry-run`, the optional sparse conversion of the finished files and the reload at the end are not part of it.
- ImageMetadata.FetchLoaded: covers images all of whose bytes can be read; a truncated sparse file whose missing bytes lie outside the metadata is not covered.
- SHA-256 itself: the checksum is a function parameter.
- Real file handles, `SEEK_END` probing, block devices, I/O errors other than short reads and torn writes. The reader's comment about guarding against seeks past the end is not matched by a check; a truncated RAW chunk is noticed when its bytes are read, and the model has it so.
- UTF-8: names are byte strings; lossy decoding of foreign names is not modelled.
- Scans over all slots (`find_all_metadata`, `find_metadata`), slot and suffix resolution, group selection by name suffix, the matching of `--device` paths, `rename`: lookups whose results enter the model as parameters.
- Loop devices and device mapper (`connect.rs`, `map.rs`), snapshot status, output rendering, argument parsing, parallel extraction.
- Error messages. Errors keep their kind, but apart from `ImageMetadata.FindGeometry` contracts say when a call fails, not with which kind.
