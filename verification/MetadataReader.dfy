/**
 Loading a metadata slot (`reader/parser.rs`): checksum validation, the
 primary-then-backup fallback and the table readers, against rendered copies.
 */
module MetadataReader {
  import opened Arithmetic
  import opened Base
  import opened Format
  import opened MetadataCodec
  import opened MetadataSlot
  import opened SparseImage

  function ParseDescriptor(data: seq<byte>, at: nat): TableDescriptor
    requires at + 12 <= |data|
  {
    TableDescriptor(U32Of(data[at..at + 4]), U32Of(data[at + 4..at + 8]), U32Of(data[at + 8..at + 12]))
  }

  /** `parse_metadata_header`: magic, sizes and descriptors of the first 0x80 bytes. */
  function ParseHeader(disk: seq<byte>, offset: nat): (r: Result<MetadataHeader>)
    ensures r.Ok? ==> MIN_HEADER <= r.value.headerSize <= MAX_HEADER
  {
    var data :- ReadExact(disk, offset, MIN_HEADER);
    if U32Of(data[0..4]) != METADATA_MAGIC then Err(Invalid) else
    var headerSize := U32Of(data[8..0x0C]);
    var tablesSize := U32Of(data[0x2C..0x30]);
    if !(MIN_HEADER <= headerSize <= MAX_HEADER) then Err(Invalid) else
    if tablesSize > MAX_TABLES then Err(Invalid) else
    Ok(MetadataHeader(U16Of(data[4..6]), U16Of(data[6..8]), headerSize, tablesSize,
                      ParseDescriptor(data, 0x50), ParseDescriptor(data, 0x5C),
                      ParseDescriptor(data, 0x68), ParseDescriptor(data, 0x74)))
  }

  /** A header with its checksum field zeroed, as it is hashed. */
  function Unsealed(header: seq<byte>): (b: seq<byte>)
    requires |header| >= MIN_HEADER
    ensures |b| == |header|
  {
    header[..0x0C] + Zeros(32) + header[0x2C..]
  }

  /** The header bytes validate against the checksum they carry. */
  predicate HeaderSealed(hash: Hash, header: seq<byte>)
    requires |header| >= MIN_HEADER
  {
    hash(Unsealed(header)) == header[0x0C..0x2C]
  }

  /** First half of `parse_metadata_validated`: the header and its checksum. */
  function ValidatedHeader(hash: Hash, disk: seq<byte>, offset: nat, maxSize: u32): (r: Result<MetadataHeader>)
    ensures r.Ok? ==> MIN_HEADER <= r.value.headerSize <= maxSize && offset + r.value.headerSize <= |disk|
    ensures r.Ok? ==> ParseHeader(disk, offset) == r
    ensures r.Ok? ==> HeaderSealed(hash, disk[offset..offset + r.value.headerSize])
  {
    var header :- ParseHeader(disk, offset);
    if header.headerSize > maxSize then Err(Invalid) else
    var raw :- ReadExact(disk, offset, header.headerSize);
    if HeaderSealed(hash, raw) then Ok(header) else Err(Invalid)
  }

  /** `parse_metadata_validated`: header checksum, then tables checksum. */
  function ParseValidated(hash: Hash, disk: seq<byte>, offset: nat, maxSize: u32): (r: Result<MetadataHeader>)
    ensures r.Ok? ==> ValidatedHeader(hash, disk, offset, maxSize) == r && r.value.tablesSize <= maxSize
    ensures r.Ok? ==> TablesSealed(hash, disk, offset, r.value)
  {
    var header :- ValidatedHeader(hash, disk, offset, maxSize);
    if header.tablesSize > maxSize then Err(Invalid) else
    if TablesSealed(hash, disk, offset, header) then Ok(header) else Err(Invalid)
  }

  /** The table bytes can be read and match the checksum stored in the header. */
  predicate TablesSealed(hash: Hash, disk: seq<byte>, offset: nat, header: MetadataHeader)
    requires header.headerSize >= MIN_HEADER && offset + header.headerSize <= |disk|
  {
    var at := offset + header.headerSize;
    (header.tablesSize == 0 || at + header.tablesSize <= |disk|) &&
    hash(if header.tablesSize == 0 then [] else disk[at..at + header.tablesSize]) == disk[offset + 0x30..offset + 0x50]
  }

  /** The `count` entries from `base` on. */
  function ReadEntries<T>(disk: seq<byte>, base: nat, entrySize: nat, count: nat,
                          parse: seq<byte> -> Result<T>): Result<seq<T>>
    decreases count
  {
    if count == 0 then Ok([]) else
    if base + entrySize > |disk| then Err(Invalid) else
    var first :- parse(disk[base..base + entrySize]);
    var rest :- ReadEntries(disk, base + entrySize, entrySize, count - 1, parse);
    Ok([first] + rest)
  }

  function TableOf<T>(disk: seq<byte>, desc: TableDescriptor, offset: nat, headerSize: u32,
                      parse: seq<byte> -> Result<T>): Result<seq<T>> {
    if desc.entrySize == 0 then if desc.numEntries == 0 then Ok([]) else Err(Invalid)
    else if desc.entrySize > MAX_HEADER || desc.numEntries > MAX_ENTRIES then Err(Invalid)
    else if offset + headerSize + desc.offset > U64_MAX then Err(Invalid)
    else ReadEntries(disk, offset + headerSize + desc.offset, desc.entrySize, desc.numEntries, parse)
  }

  /** The four tables a header describes. */
  function ReadTables(disk: seq<byte>, header: MetadataHeader, offset: nat): Result<Tables> {
    var partitions :- TableOf(disk, header.partitions, offset, header.headerSize, ParsePartition);
    var extents :- TableOf(disk, header.extents, offset, header.headerSize, ParseExtent);
    var groups :- TableOf(disk, header.groups, offset, header.headerSize, ParseGroup);
    var devices :- TableOf(disk, header.blockDevices, offset, header.headerSize, ParseDevice);
    Ok(Tables(partitions, extents, groups, devices))
  }

  datatype Found = Found(header: MetadataHeader, offset: u64)

  /** `find_metadata_for_slot`: the primary copy of a slot, then its backup. */
  function FindSlot(hash: Hash, disk: seq<byte>, g: Geometry, slot: u64): Result<Found> {
    if slot >= g.metadataSlotCount then Err(NotFound) else
    var primary := PrimaryOffset(slot, g.metadataMaxSize);
    var first := TryCopy(hash, disk, primary, g.metadataMaxSize);
    if first.Ok? then first else
    var backup := BackupOffset(slot, g.metadataSlotCount, g.metadataMaxSize);
    var second := TryCopy(hash, disk, backup, g.metadataMaxSize);
    if second.Ok? then second else Err(NotFound)
  }

  function TryCopy(hash: Hash, disk: seq<byte>, offset: Option<u64>, maxSize: u32): Result<Found> {
    if offset.None? || SaturatingAdd(offset.value, MIN_HEADER) > |disk| then Err(NotFound) else
    var header :- ParseValidated(hash, disk, offset.value, maxSize);
    Ok(Found(header, offset.value))
  }

  /** Everything a command loads from one slot. */
  datatype Loaded = Loaded(header: MetadataHeader, offset: u64, tables: Tables)

  function LoadSlot(hash: Hash, disk: seq<byte>, g: Geometry, slot: u64): Result<Loaded> {
    var found :- FindSlot(hash, disk, g, slot);
    var tables :- ReadTables(disk, found.header, found.offset);
    Ok(Loaded(found.header, found.offset, tables))
  }

  // ----------------------------------------------------------- round trip

  lemma {:induction false} ReadRecords<T>(disk: seq<byte>, base: nat, xs: seq<T>, record: T -> seq<byte>, size: nat,
                                          parse: seq<byte> -> Result<T>)
    requires forall x :: |record(x)| == size
    requires forall i :: 0 <= i < |xs| ==> parse(record(xs[i])) == Ok(xs[i])
    requires At(disk, base, Records(xs, record))
    ensures ReadEntries(disk, base, size, |xs|, parse) == Ok(xs)
    decreases |xs|
  {
    if xs != [] {
      AtSplit(disk, base, record(xs[0]), Records(xs[1..], record));
      assert parse(record(xs[0])) == Ok(xs[0]);
      ReadRecords(disk, base + size, xs[1..], record, size, parse);
      assert xs == [xs[0]] + xs[1..];
    }
  }

  /** Every name of the tables survives its field. */
  ghost predicate StorableNames(t: Tables) {
    && (forall i :: 0 <= i < |t.partitions| ==> Storable(t.partitions[i].name))
    && (forall i :: 0 <= i < |t.groups| ==> Storable(t.groups[i].name))
    && (forall i :: 0 <= i < |t.devices| ==> Storable(t.devices[i].partitionName))
  }

  lemma OneTable<T>(disk: seq<byte>, desc: TableDescriptor, offset: nat, headerSize: u32, xs: seq<T>,
                    record: T -> seq<byte>, parse: seq<byte> -> Result<T>)
    requires desc.numEntries == |xs| <= MAX_ENTRIES && 0 < desc.entrySize <= MAX_HEADER && |disk| <= U64_MAX
    requires forall x :: |record(x)| == desc.entrySize
    requires forall i :: 0 <= i < |xs| ==> parse(record(xs[i])) == Ok(xs[i])
    requires At(disk, offset + headerSize + desc.offset, Records(xs, record))
    ensures TableOf(disk, desc, offset, headerSize, parse) == Ok(xs)
  {
    hide Records, ReadEntries;
    ReadRecords(disk, offset + headerSize + desc.offset, xs, record, desc.entrySize, parse);
  }

  lemma AllRecordsParse(t: Tables)
    requires StorableNames(t)
    ensures forall i :: 0 <= i < |t.partitions| ==>
            ParsePartition(PartitionRecord(t.partitions[i])) == Ok(t.partitions[i])
    ensures forall i :: 0 <= i < |t.extents| ==> ParseExtent(ExtentRecord(t.extents[i])) == Ok(t.extents[i])
    ensures forall i :: 0 <= i < |t.groups| ==> ParseGroup(GroupRecord(t.groups[i])) == Ok(t.groups[i])
    ensures forall i :: 0 <= i < |t.devices| ==> ParseDevice(DeviceRecord(t.devices[i])) == Ok(t.devices[i])
  {
    hide PartitionRecord, ExtentRecord, GroupRecord, DeviceRecord, ParsePartition, ParseExtent, ParseGroup, ParseDevice;
    forall i | 0 <= i < |t.partitions| ensures ParsePartition(PartitionRecord(t.partitions[i])) == Ok(t.partitions[i]) {
      PartitionRoundTrip(t.partitions[i]);
    }
    forall i | 0 <= i < |t.extents| ensures ParseExtent(ExtentRecord(t.extents[i])) == Ok(t.extents[i]) {
      ExtentRoundTrip(t.extents[i]);
    }
    forall i | 0 <= i < |t.groups| ensures ParseGroup(GroupRecord(t.groups[i])) == Ok(t.groups[i]) {
      GroupRoundTrip(t.groups[i]);
    }
    forall i | 0 <= i < |t.devices| ensures ParseDevice(DeviceRecord(t.devices[i])) == Ok(t.devices[i]) {
      DeviceRoundTrip(t.devices[i]);
    }
  }

  /** The tables behind a header are read back entry by entry. */
  lemma TablesRoundTrip(disk: seq<byte>, offset: nat, h: MetadataHeader, t: Tables)
    requires Serializable(t) && StorableNames(t) && |disk| <= U64_MAX
    requires At(disk, offset + h.headerSize, TablesBlob(t))
    ensures ReadTables(disk, HeaderFor(h, t), offset) == Ok(t)
  {
    hide PartitionRecord, ExtentRecord, GroupRecord, DeviceRecord, ParsePartition, ParseExtent, ParseGroup, ParseDevice;
    hide TableOf, TablesBlob, At;
    TablesAt(disk, offset + h.headerSize, t);
    AllRecordsParse(t);
    var h' := HeaderFor(h, t);
    OneTable(disk, h'.partitions, offset, h.headerSize, t.partitions, PartitionRecord, ParsePartition);
    OneTable(disk, h'.extents, offset, h.headerSize, t.extents, ExtentRecord, ParseExtent);
    OneTable(disk, h'.groups, offset, h.headerSize, t.groups, GroupRecord, ParseGroup);
    OneTable(disk, h'.blockDevices, offset, h.headerSize, t.devices, DeviceRecord, ParseDevice);
  }

  lemma TablesAt(disk: seq<byte>, base: nat, t: Tables)
    requires Serializable(t) && At(disk, base, TablesBlob(t))
    ensures var h := HeaderFor(MetadataHeader(0, 0, 0, 0, TableDescriptor(0, 0, 0), TableDescriptor(0, 0, 0),
                                              TableDescriptor(0, 0, 0), TableDescriptor(0, 0, 0)), t);
            && At(disk, base + h.partitions.offset, Records(t.partitions, PartitionRecord))
            && At(disk, base + h.extents.offset, Records(t.extents, ExtentRecord))
            && At(disk, base + h.groups.offset, Records(t.groups, GroupRecord))
            && At(disk, base + h.blockDevices.offset, Records(t.devices, DeviceRecord))
  {
    hide Records, PartitionRecord, ExtentRecord, GroupRecord, DeviceRecord;
    var p, e := Records(t.partitions, PartitionRecord), Records(t.extents, ExtentRecord);
    var g, d := Records(t.groups, GroupRecord), Records(t.devices, DeviceRecord);
    RecordsSize(t.partitions, PartitionRecord, PARTITION_ENTRY);
    RecordsSize(t.extents, ExtentRecord, EXTENT_ENTRY);
    RecordsSize(t.groups, GroupRecord, GROUP_ENTRY);
    AtSplit(disk, base, p, e + (g + d));
    AtSplit(disk, base + |p|, e, g + d);
    AtSplit(disk, base + |p| + |e|, g, d);
  }

  lemma DescriptorBack(d: TableDescriptor, data: seq<byte>, at: nat)
    requires at + 12 <= |data| && data[at..at + 12] == DescriptorBytes(d)
    ensures ParseDescriptor(data, at) == d
  {
    hide U32Bytes, U32Of;
    var b := data[at..at + 12];
    SliceOfSlice(data, at, at + 12, 0, 4); SliceOfSlice(data, at, at + 12, 4, 8); SliceOfSlice(data, at, at + 12, 8,
          12);
    assert data[at..at + 4] == b[0..4] == U32Bytes(d.offset);
    assert data[at + 4..at + 8] == b[4..8] == U32Bytes(d.numEntries);
    assert data[at + 8..at + 12] == b[8..12] == U32Bytes(d.entrySize);
    U32Back(d.offset); U32Back(d.numEntries); U32Back(d.entrySize);
  }

  lemma StartBack(h: MetadataHeader)
    ensures var b := HeaderStart(h);
            U32Of(b[0..4]) == METADATA_MAGIC && U16Of(b[4..6]) == h.majorVersion
            && U16Of(b[6..8]) == h.minorVersion && U32Of(b[8..0x0C]) == h.headerSize
  {
    hide U16Bytes, U16Of, U32Bytes, U32Of;
    var b := HeaderStart(h);
    assert b[0..4] == U32Bytes(METADATA_MAGIC) && b[4..6] == U16Bytes(h.majorVersion);
    assert b[6..8] == U16Bytes(h.minorVersion) && b[8..0x0C] == U32Bytes(h.headerSize);
    U32Back(METADATA_MAGIC); U16Back(h.majorVersion); U16Back(h.minorVersion); U32Back(h.headerSize);
  }

  lemma RestBack(h: MetadataHeader, tablesChecksum: Digest)
    requires h.headerSize >= MIN_HEADER
    ensures var b := HeaderRest(h, tablesChecksum);
            && U32Of(b[0..4]) == h.tablesSize && b[4..0x24] == tablesChecksum
            && b[0x24..0x30] == DescriptorBytes(h.partitions) && b[0x30..0x3C] == DescriptorBytes(h.extents)
            && b[0x3C..0x48] == DescriptorBytes(h.groups) && b[0x48..0x54] == DescriptorBytes(h.blockDevices)
  {
    hide U32Bytes, U32Of, DescriptorBytes;
    var b := HeaderRest(h, tablesChecksum);
    assert b[0..4] == U32Bytes(h.tablesSize);
    U32Back(h.tablesSize);
  }

  /** A header region that holds printed header bytes parses back to the header. */
  lemma HeaderBack(disk: seq<byte>, offset: nat, h: MetadataHeader, headerChecksum: Digest, tablesChecksum: Digest)
    requires MIN_HEADER <= h.headerSize <= MAX_HEADER && h.tablesSize <= MAX_TABLES
    requires At(disk, offset, HeaderBytes(h, headerChecksum, tablesChecksum))
    ensures ParseHeader(disk, offset) == Ok(h)
    ensures disk[offset + 0x0C..offset + 0x2C] == headerChecksum && disk[offset + 0x30..offset + 0x50] == tablesChecksum
  {
    hide U16Of, U32Of, HeaderStart, HeaderRest, DescriptorBytes, ParseDescriptor;
    var start, rest := HeaderStart(h), HeaderRest(h, tablesChecksum);
    StartBack(h);
    RestBack(h, tablesChecksum);
    AtSplit(disk, offset, start + headerChecksum, rest);
    AtSplit(disk, offset, start, headerChecksum);
    var data := disk[offset..offset + MIN_HEADER];
    SubSlices(disk, offset, start, rest, data);
    DescriptorBack(h.partitions, data, 0x50);
    DescriptorBack(h.extents, data, 0x5C);
    DescriptorBack(h.groups, data, 0x68);
    DescriptorBack(h.blockDevices, data, 0x74);
  }

  lemma SubSlices(disk: seq<byte>, offset: nat, start: seq<byte>, rest: seq<byte>, data: seq<byte>)
    requires |start| == 0x0C && |rest| >= 0x54 && At(disk, offset, start) && At(disk, offset + 0x2C, rest)
    requires data == disk[offset..offset + MIN_HEADER]
    ensures data[0..4] == start[0..4] && data[4..6] == start[4..6] && data[6..8] == start[6..8]
            && data[8..0x0C] == start[8..0x0C]
    ensures data[0x2C..0x30] == rest[0..4] && disk[offset + 0x30..offset + 0x50] == rest[4..0x24]
    ensures data[0x50..0x5C] == rest[0x24..0x30] && data[0x5C..0x68] == rest[0x30..0x3C]
    ensures data[0x68..0x74] == rest[0x3C..0x48] && data[0x74..0x80] == rest[0x48..0x54]
  {
    assert data[..0x0C] == start;
    assert data[0x2C..] == rest[..0x54];
    SliceOfSlice(disk, offset, offset + MIN_HEADER, 0x30, 0x50);
    assert data[0x30..0x50] == rest[..0x54][4..0x24];
  }

  /** The slot copy split into header and table bytes. */
  lemma SlotParts(hash: Hash, disk: seq<byte>, offset: nat, h: MetadataHeader, t: Tables, maxSize: u32)
    requires Renderable(h, t, maxSize) && At(disk, offset, SlotBytes(hash, h, t, maxSize))
    ensures At(disk, offset, SealedHeader(hash, HeaderFor(h, t), hash(TablesBlob(t))))
    ensures At(disk, offset + h.headerSize, TablesBlob(t))
  {
    hide SealedHeader, TablesBlob;
    TablesBlobSize(t);
    var header, blob := SealedHeader(hash, HeaderFor(h, t), hash(TablesBlob(t))), TablesBlob(t);
    AtSplit(disk, offset, header + blob, Zeros(maxSize - h.headerSize - TablesSize(t)));
    AtSplit(disk, offset, header, blob);
  }

  /** Sealing a header is what validation undoes. */
  lemma SealedValidates(hash: Hash, disk: seq<byte>, offset: nat, h: MetadataHeader, tablesChecksum: Digest,
                        maxSize: u32)
    requires MIN_HEADER <= h.headerSize <= MAX_HEADER && h.headerSize <= maxSize && h.tablesSize <= MAX_TABLES
    requires At(disk, offset, SealedHeader(hash, h, tablesChecksum))
    ensures ValidatedHeader(hash, disk, offset, maxSize) == Ok(h)
    ensures disk[offset + 0x30..offset + 0x50] == tablesChecksum
  {
    hide HeaderStart, HeaderRest, ParseHeader;
    var zeroed := HeaderBytes(h, Zeros(32), tablesChecksum);
    HeaderBack(disk, offset, h, hash(zeroed), tablesChecksum);
    var raw := disk[offset..offset + h.headerSize];
    assert Unsealed(raw) == zeroed;
  }

  /**
   Metadata round trip: a rendered copy, placed at any offset of any disk, passes
   both checksums and loads as the header and tables it was rendered from.
   */
  lemma SlotRoundTrip(hash: Hash, disk: seq<byte>, offset: nat, h: MetadataHeader, t: Tables, maxSize: u32)
    requires Renderable(h, t, maxSize) && StorableNames(t) && |disk| <= U64_MAX
    requires At(disk, offset, SlotBytes(hash, h, t, maxSize))
    ensures ParseValidated(hash, disk, offset, maxSize) == Ok(HeaderFor(h, t))
    ensures ReadTables(disk, HeaderFor(h, t), offset) == Ok(t)
  {
    hide SealedHeader, TablesBlob, SlotBytes, ReadTables, ValidatedHeader;
    SlotParts(hash, disk, offset, h, t, maxSize);
    TablesBlobSize(t);
    SealedValidates(hash, disk, offset, HeaderFor(h, t), hash(TablesBlob(t)), maxSize);
    TablesRoundTrip(disk, offset, h, t);
  }
}
