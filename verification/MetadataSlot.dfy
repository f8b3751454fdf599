/**
 One metadata copy: header and tables with their checksums, rendered
 (`render_slot`, `render_geometry`) and parsed (`parse_metadata_validated`,
 `read_table`, `parse_geometry_validated`).
 */
module MetadataSlot {
  import opened Base
  import opened Format
  import opened MetadataCodec
  import opened SparseImage

  // ------------------------------------------------------------ rendering

  /** The records of a table, one after the other. */
  function Records<T>(xs: seq<T>, record: T -> seq<byte>): seq<byte> {
    if xs == [] then [] else record(xs[0]) + Records(xs[1..], record)
  }

  function TablesBlob(t: Tables): seq<byte> {
    Records(t.partitions, PartitionRecord) + (Records(t.extents, ExtentRecord)
    + (Records(t.groups, GroupRecord) + Records(t.devices, DeviceRecord)))
  }

  /** Within the table caps and name lengths the writer accepts. */
  predicate Serializable(t: Tables) {
    && |t.partitions| <= MAX_ENTRIES && |t.extents| <= MAX_ENTRIES && |t.groups| <= MAX_ENTRIES
    && |t.devices| <= MAX_DEVICES
    && (forall i :: 0 <= i < |t.partitions| ==> |t.partitions[i].name| <= NAME_SIZE)
    && (forall i :: 0 <= i < |t.groups| ==> |t.groups[i].name| <= NAME_SIZE)
    && (forall i :: 0 <= i < |t.devices| ==> |t.devices[i].partitionName| <= NAME_SIZE)
  }

  function TablesSize(t: Tables): nat {
    |t.partitions| * PARTITION_ENTRY + |t.extents| * EXTENT_ENTRY + |t.groups| * GROUP_ENTRY
        + |t.devices| * DEVICE_ENTRY
  }

  lemma {:induction false} RecordsSize<T>(xs: seq<T>, record: T -> seq<byte>, size: nat)
    requires forall x :: |record(x)| == size
    ensures |Records(xs, record)| == |xs| * size
  {
    if xs != [] {
      RecordsSize(xs[1..], record, size);
      assert |xs| * size == size + (|xs| - 1) * size;
    }
  }

  lemma TablesBlobSize(t: Tables)
    ensures |TablesBlob(t)| == TablesSize(t)
  {
    RecordsSize(t.partitions, PartitionRecord, PARTITION_ENTRY);
    RecordsSize(t.extents, ExtentRecord, EXTENT_ENTRY);
    RecordsSize(t.groups, GroupRecord, GROUP_ENTRY);
    RecordsSize(t.devices, DeviceRecord, DEVICE_ENTRY);
  }

  lemma {:induction false} RecordsAppend<T>(xs: seq<T>, x: T, record: T -> seq<byte>)
    ensures Records(xs + [x], record) == Records(xs, record) + record(x)
  {
    if xs == [] {
      assert xs + [x] == [x] && [x][1..] == [];
    } else {
      RecordsAppend(xs[1..], x, record);
      assert (xs + [x])[1..] == xs[1..] + [x];
    }
  }

  /** The header the writer stores for a table set: caller's versions and size, fresh descriptors. */
  function HeaderFor(h: MetadataHeader, t: Tables): (r: MetadataHeader)
    requires Serializable(t)
    ensures r.headerSize == h.headerSize
  {
    var np, ne, ng, nd := |t.partitions|, |t.extents|, |t.groups|, |t.devices|;
    var e := np * PARTITION_ENTRY;
    var g := e + ne * EXTENT_ENTRY;
    var d := g + ng * GROUP_ENTRY;
    MetadataHeader(h.majorVersion, h.minorVersion, h.headerSize, TablesSize(t),
                   TableDescriptor(0, np, PARTITION_ENTRY), TableDescriptor(e, ne, EXTENT_ENTRY),
                   TableDescriptor(g, ng, GROUP_ENTRY), TableDescriptor(d, nd, DEVICE_ENTRY))
  }

  function DescriptorBytes(d: TableDescriptor): (b: seq<byte>)
    ensures |b| == 12
  {
    U32Bytes(d.offset) + U32Bytes(d.numEntries) + U32Bytes(d.entrySize)
  }

  /** The first 12 header bytes: magic, versions and header size. */
  function HeaderStart(h: MetadataHeader): (b: seq<byte>)
    ensures |b| == 0x0C
  {
    U32Bytes(METADATA_MAGIC) + U16Bytes(h.majorVersion) + U16Bytes(h.minorVersion) + U32Bytes(h.headerSize)
  }

  /** Everything behind the header checksum. */
  function HeaderRest(h: MetadataHeader, tablesChecksum: Digest): (b: seq<byte>)
    requires h.headerSize >= MIN_HEADER
    ensures |b| == h.headerSize - 0x2C
  {
    U32Bytes(h.tablesSize) + tablesChecksum
    + DescriptorBytes(h.partitions) + DescriptorBytes(h.extents) + DescriptorBytes(h.groups)
        + DescriptorBytes(h.blockDevices)
    + Zeros(h.headerSize - MIN_HEADER)
  }

  function HeaderBytes(h: MetadataHeader, headerChecksum: Digest, tablesChecksum: Digest): (b: seq<byte>)
    requires h.headerSize >= MIN_HEADER
    ensures |b| == h.headerSize
  {
    HeaderStart(h) + headerChecksum + HeaderRest(h, tablesChecksum)
  }

  function SealedHeader(hash: Hash, h: MetadataHeader, tablesChecksum: Digest): (b: seq<byte>)
    requires h.headerSize >= MIN_HEADER
    ensures |b| == h.headerSize
  {
    HeaderBytes(h, hash(HeaderBytes(h, Zeros(32), tablesChecksum)), tablesChecksum)
  }

  predicate Renderable(h: MetadataHeader, t: Tables, maxSize: u32) {
    && maxSize > 0 && Serializable(t)
    && h.headerSize + TablesSize(t) <= maxSize
    && MIN_HEADER <= h.headerSize <= MAX_HEADER
  }

  /** A rendered metadata copy of exactly `maxSize` bytes. */
  function SlotBytes(hash: Hash, h: MetadataHeader, t: Tables, maxSize: u32): (b: seq<byte>)
    requires Renderable(h, t, maxSize)
    ensures |b| == maxSize
  {
    TablesBlobSize(t);
    SealedHeader(hash, HeaderFor(h, t), hash(TablesBlob(t))) + TablesBlob(t)
        + Zeros(maxSize - h.headerSize - TablesSize(t))
  }

  method BuildTablesBlob(t: Tables) returns (r: Result<seq<byte>>)
    ensures r == if Serializable(t) then Ok(TablesBlob(t)) else Err(Invalid)
  {
    hide PartitionRecord, ExtentRecord, GroupRecord, DeviceRecord, TablesBlob;
    if |t.partitions| > MAX_ENTRIES || |t.extents| > MAX_ENTRIES || |t.groups| > MAX_ENTRIES
        || |t.devices| > MAX_DEVICES {
      return Err(Invalid);
    }
    var partitions := PartitionBlob(t.partitions);
    if partitions.Err? {
      return Err(Invalid);
    }
    var extents := ExtentBlob(t.extents);
    var groups := GroupBlob(t.groups);
    if groups.Err? {
      return Err(Invalid);
    }
    var devices := DeviceBlob(t.devices);
    if devices.Err? {
      return Err(Invalid);
    }
    var blob := partitions.value + (extents + (groups.value + devices.value));
    assert blob == TablesBlob(t) by { TablesBlobIs(t); }
    r := Ok(blob);
  }

  lemma TablesBlobIs(t: Tables)
    ensures TablesBlob(t) == Records(t.partitions, PartitionRecord) + (Records(t.extents, ExtentRecord)
                             + (Records(t.groups, GroupRecord) + Records(t.devices, DeviceRecord)))
  {}

  method PartitionBlob(ps: seq<Partition>) returns (r: Result<seq<byte>>)
    ensures r.Ok? <==> forall i :: 0 <= i < |ps| ==> |ps[i].name| <= NAME_SIZE
    ensures r.Ok? ==> r.value == Records(ps, PartitionRecord)
  {
    hide PartitionRecord;
    var blob: seq<byte> := [];
    for i := 0 to |ps|
      invariant blob == Records(ps[..i], PartitionRecord)
      invariant forall k :: 0 <= k < i ==> |ps[k].name| <= NAME_SIZE
    {
      var one := SerializePartition(ps[i]);
      if one.Err? {
        return Err(Invalid);
      }
      RecordsAppend(ps[..i], ps[i], PartitionRecord);
      assert ps[..i + 1] == ps[..i] + [ps[i]];
      blob := blob + one.value;
    }
    assert ps[..|ps|] == ps;
    r := Ok(blob);
  }

  method ExtentBlob(es: seq<Extent>) returns (r: seq<byte>)
    ensures r == Records(es, ExtentRecord)
  {
    hide ExtentRecord;
    r := [];
    for i := 0 to |es|
      invariant r == Records(es[..i], ExtentRecord)
    {
      var one := SerializeExtent(es[i]);
      RecordsAppend(es[..i], es[i], ExtentRecord);
      assert es[..i + 1] == es[..i] + [es[i]];
      r := r + one;
    }
    assert es[..|es|] == es;
  }

  method GroupBlob(gs: seq<Group>) returns (r: Result<seq<byte>>)
    ensures r.Ok? <==> forall i :: 0 <= i < |gs| ==> |gs[i].name| <= NAME_SIZE
    ensures r.Ok? ==> r.value == Records(gs, GroupRecord)
  {
    hide GroupRecord;
    var blob: seq<byte> := [];
    for i := 0 to |gs|
      invariant blob == Records(gs[..i], GroupRecord)
      invariant forall k :: 0 <= k < i ==> |gs[k].name| <= NAME_SIZE
    {
      var one := SerializeGroup(gs[i]);
      if one.Err? {
        return Err(Invalid);
      }
      RecordsAppend(gs[..i], gs[i], GroupRecord);
      assert gs[..i + 1] == gs[..i] + [gs[i]];
      blob := blob + one.value;
    }
    assert gs[..|gs|] == gs;
    r := Ok(blob);
  }

  method DeviceBlob(ds: seq<BlockDevice>) returns (r: Result<seq<byte>>)
    ensures r.Ok? <==> forall i :: 0 <= i < |ds| ==> |ds[i].partitionName| <= NAME_SIZE
    ensures r.Ok? ==> r.value == Records(ds, DeviceRecord)
  {
    hide DeviceRecord;
    var blob: seq<byte> := [];
    for i := 0 to |ds|
      invariant blob == Records(ds[..i], DeviceRecord)
      invariant forall k :: 0 <= k < i ==> |ds[k].partitionName| <= NAME_SIZE
    {
      var one := SerializeDevice(ds[i]);
      if one.Err? {
        return Err(Invalid);
      }
      RecordsAppend(ds[..i], ds[i], DeviceRecord);
      assert ds[..i + 1] == ds[..i] + [ds[i]];
      blob := blob + one.value;
    }
    assert ds[..|ds|] == ds;
    r := Ok(blob);
  }

  method PutDescriptor(buf: array<byte>, at: nat, d: TableDescriptor)
    requires at + 12 <= buf.Length && buf[at..] == Zeros(buf.Length - at)
    modifies buf
    ensures buf[..at + 12] == old(buf[..at]) + DescriptorBytes(d)
    ensures buf[at + 12..] == Zeros(buf.Length - at - 12)
  {
    hide U32Bytes;
    Put(buf, at, U32Bytes(d.offset));
    Put(buf, at + 4, U32Bytes(d.numEntries));
    Put(buf, at + 8, U32Bytes(d.entrySize));
  }

  /** Fills the header, hashes it with a zero checksum field, then patches the checksum in. */
  method SerializeHeader(hash: Hash, h: MetadataHeader, tablesChecksum: Digest) returns (r: Result<seq<byte>>)
    ensures r.Ok? <==> MIN_HEADER <= h.headerSize <= MAX_HEADER
    ensures r.Ok? ==> r.value == SealedHeader(hash, h, tablesChecksum)
  {
    hide U32Bytes, U16Bytes, DescriptorBytes, HeaderStart, HeaderRest;
    if h.headerSize < MIN_HEADER || h.headerSize > MAX_HEADER {
      return Err(Invalid);
    }
    var data := new byte[h.headerSize](_ => 0);
    assert data[0..] == Zeros(h.headerSize);
    PutStart(data, h);
    Skip(data, 0x0C, 32);
    PutRest(data, h, tablesChecksum);
    assert data[..] == HeaderBytes(h, Zeros(32), tablesChecksum);
    var headerHash := hash(data[..]);
    assert data[0x2C..] == HeaderRest(h, tablesChecksum);
    Store(data, 0x0C, headerHash);
    assert data[..] == data[..0x0C] + data[0x0C..0x2C] + data[0x2C..];
    r := Ok(data[..]);
  }

  method PutStart(data: array<byte>, h: MetadataHeader)
    requires data.Length >= MIN_HEADER && data[0..] == Zeros(data.Length)
    modifies data
    ensures data[..0x0C] == HeaderStart(h)
    ensures data[0x0C..] == Zeros(data.Length - 0x0C)
  {
    hide U32Bytes, U16Bytes;
    Put(data, 0x00, U32Bytes(METADATA_MAGIC));
    Put(data, 0x04, U16Bytes(h.majorVersion));
    Put(data, 0x06, U16Bytes(h.minorVersion));
    Put(data, 0x08, U32Bytes(h.headerSize));
  }

  method PutRest(data: array<byte>, h: MetadataHeader, tablesChecksum: Digest)
    requires data.Length == h.headerSize >= MIN_HEADER && data[0x2C..] == Zeros(data.Length - 0x2C)
    modifies data
    ensures data[..] == old(data[..0x2C]) + HeaderRest(h, tablesChecksum)
  {
    hide U32Bytes, DescriptorBytes;
    Put(data, 0x2C, U32Bytes(h.tablesSize));
    Put(data, 0x30, tablesChecksum);
    PutDescriptor(data, 0x50, h.partitions);
    PutDescriptor(data, 0x5C, h.extents);
    PutDescriptor(data, 0x68, h.groups);
    PutDescriptor(data, 0x74, h.blockDevices);
    assert data[..] == data[..MIN_HEADER] + data[MIN_HEADER..];
  }

  /**
   Renders a full metadata copy. It fails exactly when the tables, names, header
   size or slot size do not allow one.
   */
  method RenderSlot(hash: Hash, h: MetadataHeader, t: Tables, maxSize: u32) returns (r: Result<seq<byte>>)
    ensures r.Ok? <==> Renderable(h, t, maxSize)
    ensures r.Ok? ==> r.value == SlotBytes(hash, h, t, maxSize)
  {
    hide TablesBlob, SealedHeader, Serializable, TablesSize;
    if maxSize == 0 {
      return Err(Invalid);
    }
    var tables := BuildTablesBlob(t);
    if tables.Err? {
      return Err(Invalid);
    }
    TablesBlobSize(t);
    if h.headerSize + |tables.value| > maxSize {
      return Err(Invalid);
    }
    var newHeader := HeaderFor(h, t);
    var header := SerializeHeader(hash, newHeader, hash(tables.value));
    if header.Err? {
      return Err(Invalid);
    }
    var slotData := FillSlot(header.value, tables.value, maxSize);
    r := Ok(slotData);
  }

  /** A zero-padded slot buffer with header and tables. */
  method FillSlot(header: seq<byte>, tables: seq<byte>, maxSize: u32) returns (r: seq<byte>)
    requires |header| + |tables| <= maxSize
    ensures r == header + tables + Zeros(maxSize - |header| - |tables|)
  {
    var slotData := new byte[maxSize](_ => 0);
    assert slotData[0..] == Zeros(maxSize);
    Put(slotData, 0, header);
    Put(slotData, |header|, tables);
    assert slotData[..] == slotData[..|header| + |tables|] + slotData[|header| + |tables|..];
    r := slotData[..];
  }

  // ------------------------------------------------------------- geometry

  predicate GeometryInRange(g: Geometry) {
    && 0 < g.metadataMaxSize <= MAX_METADATA
    && 0 < g.metadataSlotCount <= MAX_SLOTS
    && (g.logicalBlockSize == 4096 || g.logicalBlockSize == 512)
  }

  function GeometryBytes(g: Geometry, checksum: Digest): (b: seq<byte>)
    ensures |b| == GEOMETRY_SIZE
  {
    U32Bytes(GEOMETRY_MAGIC) + U32Bytes(GEOMETRY_SIZE) + checksum + GeometryRest(g)
  }

  function GeometryRest(g: Geometry): (b: seq<byte>)
    ensures |b| == 12
  {
    U32Bytes(g.metadataMaxSize) + U32Bytes(g.metadataSlotCount) + U32Bytes(g.logicalBlockSize)
  }

  function SealedGeometry(hash: Hash, g: Geometry): (b: seq<byte>)
    ensures |b| == GEOMETRY_SIZE
  {
    GeometryBytes(g, hash(GeometryBytes(g, Zeros(32))))
  }

  method RenderGeometry(hash: Hash, maxSize: u32, slotCount: u32, blockSize: u32) returns (r: Result<seq<byte>>)
    ensures r.Ok? <==> GeometryInRange(Geometry(maxSize, slotCount, blockSize))
    ensures r.Ok? ==> r.value == SealedGeometry(hash, Geometry(maxSize, slotCount, blockSize))
  {
    hide U32Bytes, GeometryRest;
    if maxSize == 0 || maxSize > MAX_METADATA {
      return Err(Invalid);
    }
    if slotCount == 0 || slotCount > MAX_SLOTS {
      return Err(Invalid);
    }
    if blockSize != 4096 && blockSize != 512 {
      return Err(Invalid);
    }
    var data := new byte[GEOMETRY_SIZE](_ => 0);
    PutGeometry(data, Geometry(maxSize, slotCount, blockSize));
    var digest := hash(data[..]);
    ghost var before := data[..];
    Store(data, 0x08, digest);
    assert data[..] == before[..0x08] + digest + before[0x28..];
    r := Ok(data[..]);
  }

  method PutGeometry(data: array<byte>, g: Geometry)
    requires data.Length == GEOMETRY_SIZE && data[..] == Zeros(GEOMETRY_SIZE)
    modifies data
    ensures data[..] == GeometryBytes(g, Zeros(32))
  {
    hide U32Bytes;
    assert data[0..] == data[..];
    Put(data, 0x00, U32Bytes(GEOMETRY_MAGIC));
    Put(data, 0x04, U32Bytes(GEOMETRY_SIZE));
    Skip(data, 0x08, 32);
    Put(data, 0x28, U32Bytes(g.metadataMaxSize));
    Put(data, 0x2C, U32Bytes(g.metadataSlotCount));
    Put(data, 0x30, U32Bytes(g.logicalBlockSize));
    assert data[..] == data[..GEOMETRY_SIZE];
  }

  /** `parse_geometry_validated`. */
  function ParseGeometry(hash: Hash, disk: seq<byte>, offset: nat): Result<Geometry> {
    var data :- ReadExact(disk, offset, GEOMETRY_SIZE);
    var magic :- ReadU32(data, 0);
    if magic != GEOMETRY_MAGIC then Err(Invalid) else
    var zeroed := data[..8] + Zeros(32) + data[0x28..];
    if hash(zeroed) != data[8..0x28] then Err(Invalid) else
    var maxSize :- ReadU32(data, 0x28);
    var slotCount :- ReadU32(data, 0x2C);
    var blockSize :- ReadU32(data, 0x30);
    if GeometryInRange(Geometry(maxSize, slotCount, blockSize)) then Ok(Geometry(maxSize, slotCount, blockSize))
    else Err(Invalid)
  }

  /** Geometry round trip: a rendered geometry validates and parses back, wherever it is placed. */
  lemma GeometryRoundTrip(hash: Hash, disk: seq<byte>, offset: nat, g: Geometry)
    requires GeometryInRange(g) && At(disk, offset, SealedGeometry(hash, g))
    ensures ParseGeometry(hash, disk, offset) == Ok(g)
  {
    hide U32Bytes, U32Of;
    var checksum := hash(GeometryBytes(g, Zeros(32)));
    var b := SealedGeometry(hash, g);
    assert b[0..4] == U32Bytes(GEOMETRY_MAGIC);
    assert b[..8] + Zeros(32) + b[0x28..] == GeometryBytes(g, Zeros(32));
    assert b[8..0x28] == checksum;
    assert b[0x28..0x2C] == U32Bytes(g.metadataMaxSize);
    assert b[0x2C..0x30] == U32Bytes(g.metadataSlotCount);
    assert b[0x30..0x34] == U32Bytes(g.logicalBlockSize);
    U32Back(GEOMETRY_MAGIC); U32Back(g.metadataMaxSize); U32Back(g.metadataSlotCount); U32Back(g.logicalBlockSize);
  }
}
