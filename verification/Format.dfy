/**
 Record types and layout constants of the logical-partition metadata
 (AOSP liblp `metadata_format.h`), and the placement of the metadata slots.
 */
module Format {
  import opened Arithmetic
  import opened Base

  const SECTOR_SIZE: int := 512
  const GEOMETRY_MAGIC: u32 := 0x616c_4467
  const METADATA_MAGIC: u32 := 0x414c_5030
  const TARGET_LINEAR: u32 := 0
  const TARGET_ZERO: u32 := 1
  const GEOMETRY_PRIMARY_OFFSET: u64 := 0x1000
  const GEOMETRY_BACKUP_OFFSET: u64 := 0x2000
  const METADATA_BASE_OFFSET: u64 := 0x3000
  /** Length of a serialized geometry record. */
  const GEOMETRY_SIZE: int := 0x34

  datatype TableDescriptor = TableDescriptor(offset: u32, numEntries: u32, entrySize: u32)

  datatype Geometry = Geometry(metadataMaxSize: u32, metadataSlotCount: u32, logicalBlockSize: u32)

  datatype MetadataHeader = MetadataHeader(
    majorVersion: u16, minorVersion: u16, headerSize: u32, tablesSize: u32,
    partitions: TableDescriptor, extents: TableDescriptor,
    groups: TableDescriptor, blockDevices: TableDescriptor)

  /** Names are byte strings: the program stores them as UTF-8. */
  type Name = seq<byte>

  datatype Partition = Partition(
    name: Name, attributes: u32, firstExtentIndex: u32, numExtents: u32, groupIndex: u32)

  datatype Extent = Extent(numSectors: u64, targetType: u32, targetData: u64, targetSource: u32)

  datatype Group = Group(name: Name, flags: u32, maximumSize: u64)

  datatype BlockDevice = BlockDevice(
    firstLogicalSector: u64, alignment: u32, alignmentOffset: u32, size: u64, partitionName: Name)

  function PrimaryOffset(slot: u64, maxSize: u64): Option<u64> {
    MulMonotone(0, slot, maxSize);
    var o := slot * maxSize + METADATA_BASE_OFFSET;
    if o <= U64_MAX then Some(o) else None
  }

  function BackupOffset(slot: u64, slotCount: u64, maxSize: u64): Option<u64> {
    if slotCount + slot > U64_MAX then None else
    MulMonotone(0, slotCount + slot, maxSize);
    var o := (slotCount + slot) * maxSize + METADATA_BASE_OFFSET;
    if o <= U64_MAX then Some(o) else None
  }

  function SlotFromPrimaryOffset(offset: u64, maxSize: u64): Option<u64> {
    if maxSize == 0 || offset < METADATA_BASE_OFFSET then None else
    var base := offset - METADATA_BASE_OFFSET;
    if base % maxSize != 0 then None else
      QuotientBound(base, maxSize);
      Some(base / maxSize)
  }

  /** End of the geometry and slot area of a device image. */
  function MetadataEnd(slotCount: nat, maxSize: nat): nat {
    METADATA_BASE_OFFSET + 2 * slotCount * maxSize
  }

  /** The `i`-th of the `2 * slotCount` metadata copies: primaries, then backups. */
  function CopyBase(i: nat, maxSize: nat): nat {
    METADATA_BASE_OFFSET + i * maxSize
  }

  lemma CopyPastBase(i: nat, maxSize: nat)
    ensures METADATA_BASE_OFFSET <= CopyBase(i, maxSize)
  {
    MulMonotone(0, i, maxSize);
  }

  lemma CopyNext(i: nat, maxSize: nat)
    ensures CopyBase(i + 1, maxSize) == CopyBase(i, maxSize) + maxSize
  {
    MulSucc(i, maxSize);
  }

  lemma CopyOrder(i: nat, j: nat, maxSize: nat)
    requires i <= j
    ensures CopyBase(i, maxSize) <= CopyBase(j, maxSize)
  {
    MulMonotone(i, j, maxSize);
  }

  lemma AreaEnd(slotCount: nat, maxSize: nat)
    ensures MetadataEnd(slotCount, maxSize) == CopyBase(2 * slotCount, maxSize)
  {}

  lemma OffsetsAre(slot: u64, slotCount: u64, maxSize: u64)
    requires slotCount + slot <= U64_MAX
    ensures CopyBase(slot, maxSize) <= U64_MAX ==> PrimaryOffset(slot, maxSize) == Some(CopyBase(slot, maxSize))
    ensures CopyBase(slotCount + slot, maxSize) <= U64_MAX ==>
              BackupOffset(slot, slotCount, maxSize) == Some(CopyBase(slotCount + slot, maxSize))
  {}

  predicate Apart(a: nat, b: nat, size: nat) {
    a + size <= b || b + size <= a
  }

  /** Copies never overlap each other, whatever slots they belong to. */
  lemma CopiesApart(i: nat, j: nat, maxSize: nat)
    requires i != j
    ensures Apart(CopyBase(i, maxSize), CopyBase(j, maxSize), maxSize)
  {
    hide CopyBase;
    var lo, hi := Min(i, j), Max(i, j);
    CopyNext(lo, maxSize);
    CopyOrder(lo + 1, hi, maxSize);
  }

  /**
   Slot isolation by arithmetic: the two copies of a slot lie past both geometry
   blocks, inside the metadata area, and apart from each other.
   */
  lemma SlotRegions(slot: u64, slotCount: u64, maxSize: u64)
    requires slot < slotCount
    requires slotCount + slot <= U64_MAX && MetadataEnd(slotCount, maxSize) <= U64_MAX
    ensures PrimaryOffset(slot, maxSize) == Some(CopyBase(slot, maxSize))
    ensures BackupOffset(slot, slotCount, maxSize) == Some(CopyBase(slotCount + slot, maxSize))
    ensures GEOMETRY_BACKUP_OFFSET + GEOMETRY_SIZE <= CopyBase(slot, maxSize)
    ensures CopyBase(slot, maxSize) + maxSize <= CopyBase(slotCount + slot, maxSize)
    ensures CopyBase(slotCount + slot, maxSize) + maxSize <= MetadataEnd(slotCount, maxSize)
  {
    hide CopyBase, MetadataEnd, PrimaryOffset, BackupOffset;
    CopyPastBase(slot, maxSize);
    CopyNext(slot, maxSize);
    CopyOrder(slot + 1, slotCount + slot, maxSize);
    CopyNext(slotCount + slot, maxSize);
    CopyOrder(slotCount + slot + 1, 2 * slotCount, maxSize);
    AreaEnd(slotCount, maxSize);
    OffsetsAre(slot, slotCount, maxSize);
  }

  /** No copy of one slot overlaps a copy of another. */
  lemma SlotsIsolated(slot: nat, other: nat, slotCount: nat, maxSize: nat)
    requires slot < slotCount && other < slotCount && slot != other
    ensures Apart(CopyBase(slot, maxSize), CopyBase(other, maxSize), maxSize)
    ensures Apart(CopyBase(slot, maxSize), CopyBase(slotCount + other, maxSize), maxSize)
    ensures Apart(CopyBase(slotCount + slot, maxSize), CopyBase(other, maxSize), maxSize)
    ensures Apart(CopyBase(slotCount + slot, maxSize), CopyBase(slotCount + other, maxSize), maxSize)
  {
    CopiesApart(slot, other, maxSize);
    CopiesApart(slot, slotCount + other, maxSize);
    CopiesApart(slotCount + slot, other, maxSize);
    CopiesApart(slotCount + slot, slotCount + other, maxSize);
  }

  /** A primary base resolves to its slot, a backup base to an index past the last slot. */
  lemma SlotOfCopy(i: nat, maxSize: u64)
    requires 0 < maxSize && CopyBase(i, maxSize) <= U64_MAX
    ensures SlotFromPrimaryOffset(CopyBase(i, maxSize), maxSize) == Some(i)
  {
    DivModUnique(i * maxSize, i, maxSize, 0);
  }
}
