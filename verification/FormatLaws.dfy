/**
 The metadata format in numbers (AOSP liblp `metadata_format.h`): which bytes the
 readers accept, exactly, and as what; and where the writers put every field.
 */
module FormatLaws {
  import opened Arithmetic
  import opened Base
  import opened Format
  import opened ImageMetadata
  import opened MetadataCodec
  import opened MetadataReader
  import opened MetadataSlot
  import opened SparseImage

  // ---------------------------------------------------------- integers

  /** Integers are little-endian. */
  lemma LittleEndian(b: seq<byte>)
    ensures |b| == 2 ==> U16Of(b) == b[0] as int + 0x100 * (b[1] as int)
    ensures |b| == 4 ==>
              U32Of(b) == b[0] as int + 0x100 * (b[1] as int) + 0x1_0000 * (b[2] as int) + 0x100_0000 * (b[3] as int)
    ensures |b| == 8 ==> U64Of(b) == U32Of(b[..4]) + 0x1_0000_0000 * U32Of(b[4..])
  {
    if |b| == 2 {
      ValueOfTwo(b);
    } else if |b| == 4 {
      ValueOfFour(b);
    } else if |b| == 8 {
      ValueOfFour(b[..4]);
      assert b[1..][1..] == b[2..] && b[2..][1..] == b[3..] && b[3..][1..] == b[4..];
      assert LeValue(b) == b[0] as int + 0x100 * (b[1] as int) + 0x1_0000 * (b[2] as int)
                           + 0x100_0000 * (b[3] as int) + 0x1_0000_0000 * LeValue(b[4..]) by {
        assert LeValue(b) == b[0] as int + 0x100 * LeValue(b[1..]);
        assert LeValue(b[1..]) == b[1] as int + 0x100 * LeValue(b[2..]);
        assert LeValue(b[2..]) == b[2] as int + 0x100 * LeValue(b[3..]);
        assert LeValue(b[3..]) == b[3] as int + 0x100 * LeValue(b[4..]);
      }
    }
  }

  lemma ValueOfTwo(b: seq<byte>)
    requires |b| == 2
    ensures LeValue(b) == b[0] as int + 0x100 * (b[1] as int)
  {
    assert LeValue(b) == b[0] as int + 0x100 * LeValue(b[1..]);
    assert LeValue(b[1..]) == b[1] as int + 0x100 * LeValue(b[1..][1..]);
  }

  lemma ValueOfFour(b: seq<byte>)
    requires |b| == 4
    ensures LeValue(b) == b[0] as int + 0x100 * (b[1] as int) + 0x1_0000 * (b[2] as int) + 0x100_0000 * (b[3] as int)
  {
    ValueOfTwo(b[2..]);
    assert b[1..][1..] == b[2..];
    assert LeValue(b) == b[0] as int + 0x100 * LeValue(b[1..]);
    assert LeValue(b[1..]) == b[1] as int + 0x100 * LeValue(b[2..]);
  }

  /** The writers' integers are the readers'. */
  lemma WrittenIntegers(a: u16, b: u32, c: u64)
    ensures |U16Bytes(a)| == 2 && U16Of(U16Bytes(a)) == a
    ensures |U32Bytes(b)| == 4 && U32Of(U32Bytes(b)) == b
    ensures |U64Bytes(c)| == 8 && U64Of(U64Bytes(c)) == c
  {}

  // ----------------------------------------------------------- records

  /** The name field of 36 bytes reads as what is in front of the first NUL. */
  ghost predicate IsName(field: seq<byte>, name: Name) {
    name <= field && 0 !in name && (name != field ==> field[|name|] == 0)
  }

  lemma {:induction false} NameExactly(field: seq<byte>, name: Name)
    ensures UpToNul(field) == name <==> IsName(field, name)
  {
    if field != [] && field[0] != 0 {
      if name != [] {
        NameExactly(field[1..], name[1..]);
        assert name == [name[0]] + name[1..] && field == [field[0]] + field[1..];
      }
    }
  }

  /** Partition entries: name, attributes at byte 36, first extent at 40, extent count at 44, group at 48. */
  lemma PartitionExactly(data: seq<byte>, p: Partition)
    ensures ParsePartition(data) == Ok(p)
            <==> |data| >= 52 && IsName(data[..36], p.name)
                 && p.attributes == U32Of(data[36..40]) && p.firstExtentIndex == U32Of(data[40..44])
                 && p.numExtents == U32Of(data[44..48]) && p.groupIndex == U32Of(data[48..52])
  {
    hide U32Of, UpToNul;
    if |data| >= 52 {
      NameExactly(data[..36], p.name);
      assert data[0..36] == data[..36];
    }
  }

  /** Extent entries: sectors, target type at byte 8, physical sector at 12, device at 20. */
  lemma ExtentExactly(data: seq<byte>, e: Extent)
    ensures ParseExtent(data) == Ok(e)
            <==> |data| >= 24 && e.numSectors == U64Of(data[0..8]) && e.targetType == U32Of(data[8..12])
                 && e.targetData == U64Of(data[12..20]) && e.targetSource == U32Of(data[20..24])
  {
    hide U32Of, U64Of;
  }

  /** Group entries: name, flags at byte 36, maximum size at 40. */
  lemma GroupExactly(data: seq<byte>, g: Group)
    ensures ParseGroup(data) == Ok(g)
            <==> |data| >= 48 && IsName(data[..36], g.name) && g.flags == U32Of(data[36..40])
                 && g.maximumSize == U64Of(data[40..48])
  {
    hide U32Of, U64Of, UpToNul;
    if |data| >= 48 {
      NameExactly(data[..36], g.name);
      assert data[0..36] == data[..36];
    }
  }

  /** Device entries: first sector, alignment at byte 8, its offset at 12, size at 16, name from 24 to 60. */
  lemma DeviceExactly(data: seq<byte>, d: BlockDevice)
    ensures ParseDevice(data) == Ok(d)
            <==> |data| >= 24 && d.firstLogicalSector == U64Of(data[0..8]) && d.alignment == U32Of(data[8..12])
                 && d.alignmentOffset == U32Of(data[12..16]) && d.size == U64Of(data[16..24])
                 && IsName(data[24..Min(60, |data|)], d.partitionName)
  {
    hide U32Of, U64Of, UpToNul;
    if |data| >= 24 {
      NameExactly(data[24..Min(60, |data|)], d.partitionName);
    }
  }

  /** The writers' records have their fields where the readers look, and no other bytes set. */
  lemma RecordsLaidOut(p: Partition, e: Extent, g: Group, d: BlockDevice)
    ensures |PartitionRecord(p)| == 52 && |ExtentRecord(e)| == 24 && |GroupRecord(g)| == 48 && |DeviceRecord(d)| == 64
    ensures var b := PartitionRecord(p);
            && U32Of(b[36..40]) == p.attributes && U32Of(b[40..44]) == p.firstExtentIndex
            && U32Of(b[44..48]) == p.numExtents && U32Of(b[48..52]) == p.groupIndex
    ensures var b := ExtentRecord(e);
            && U64Of(b[0..8]) == e.numSectors && U32Of(b[8..12]) == e.targetType
            && U64Of(b[12..20]) == e.targetData && U32Of(b[20..24]) == e.targetSource
    ensures var b := GroupRecord(g); U32Of(b[36..40]) == g.flags && U64Of(b[40..48]) == g.maximumSize
    ensures var b := DeviceRecord(d);
            && U64Of(b[0..8]) == d.firstLogicalSector && U32Of(b[8..12]) == d.alignment
            && U32Of(b[12..16]) == d.alignmentOffset && U64Of(b[16..24]) == d.size && b[60..64] == [0, 0, 0, 0]
    ensures |p.name| <= 36 ==> PartitionRecord(p)[..36] == p.name + Zeros(36 - |p.name|)
    ensures |g.name| <= 36 ==> GroupRecord(g)[..36] == g.name + Zeros(36 - |g.name|)
    ensures |d.partitionName| <= 36 ==> DeviceRecord(d)[24..60] == d.partitionName + Zeros(36 - |d.partitionName|)
  {
    hide U32Bytes, U64Bytes, U32Of, U64Of, PadName;
    PartitionFields(p);
    ExtentFields(e);
    GroupFields(g);
    DeviceFields(d);
  }

  lemma PaddedName(name: Name)
    ensures |name| <= 36 ==> PadName(name) == name + Zeros(36 - |name|)
  {}

  lemma PartitionFields(p: Partition)
    ensures var b := PartitionRecord(p);
            && |b| == 52 && U32Of(b[36..40]) == p.attributes && U32Of(b[40..44]) == p.firstExtentIndex
            && U32Of(b[44..48]) == p.numExtents && U32Of(b[48..52]) == p.groupIndex
    ensures |p.name| <= 36 ==> PartitionRecord(p)[..36] == p.name + Zeros(36 - |p.name|)
  {
    hide U32Bytes, U32Of, PadName;
    var b := PartitionRecord(p);
    assert b[36..40] == U32Bytes(p.attributes) && b[40..44] == U32Bytes(p.firstExtentIndex);
    assert b[44..48] == U32Bytes(p.numExtents) && b[48..52] == U32Bytes(p.groupIndex);
    assert b[..36] == PadName(p.name);
    U32Back(p.attributes); U32Back(p.firstExtentIndex); U32Back(p.numExtents); U32Back(p.groupIndex);
    PaddedName(p.name);
  }

  lemma ExtentFields(e: Extent)
    ensures var b := ExtentRecord(e);
            && |b| == 24 && U64Of(b[0..8]) == e.numSectors && U32Of(b[8..12]) == e.targetType
            && U64Of(b[12..20]) == e.targetData && U32Of(b[20..24]) == e.targetSource
  {
    hide U32Bytes, U64Bytes, U32Of, U64Of;
    var b := ExtentRecord(e);
    assert b[0..8] == U64Bytes(e.numSectors) && b[8..12] == U32Bytes(e.targetType);
    assert b[12..20] == U64Bytes(e.targetData) && b[20..24] == U32Bytes(e.targetSource);
    U64Back(e.numSectors); U32Back(e.targetType); U64Back(e.targetData); U32Back(e.targetSource);
  }

  lemma GroupFields(g: Group)
    ensures var b := GroupRecord(g); |b| == 48 && U32Of(b[36..40]) == g.flags && U64Of(b[40..48]) == g.maximumSize
    ensures |g.name| <= 36 ==> GroupRecord(g)[..36] == g.name + Zeros(36 - |g.name|)
  {
    hide U32Bytes, U64Bytes, U32Of, U64Of, PadName;
    var b := GroupRecord(g);
    assert b[36..40] == U32Bytes(g.flags) && b[40..48] == U64Bytes(g.maximumSize) && b[..36] == PadName(g.name);
    U32Back(g.flags); U64Back(g.maximumSize);
    PaddedName(g.name);
  }

  lemma DeviceFields(d: BlockDevice)
    ensures var b := DeviceRecord(d);
            && |b| == 64 && U64Of(b[0..8]) == d.firstLogicalSector && U32Of(b[8..12]) == d.alignment
            && U32Of(b[12..16]) == d.alignmentOffset && U64Of(b[16..24]) == d.size && b[60..64] == [0, 0, 0, 0]
    ensures |d.partitionName| <= 36 ==> DeviceRecord(d)[24..60] == d.partitionName + Zeros(36 - |d.partitionName|)
  {
    hide U32Bytes, U64Bytes, U32Of, U64Of, PadName;
    var b := DeviceRecord(d);
    assert b[0..8] == U64Bytes(d.firstLogicalSector) && b[8..12] == U32Bytes(d.alignment);
    assert b[12..16] == U32Bytes(d.alignmentOffset) && b[16..24] == U64Bytes(d.size);
    assert b[24..60] == PadName(d.partitionName) && b[60..64] == Zeros(4);
    U64Back(d.firstLogicalSector); U32Back(d.alignment); U32Back(d.alignmentOffset); U64Back(d.size);
    PaddedName(d.partitionName);
  }

  // ---------------------------------------------------------- geometry

  /** What a checksum of a geometry record covers: the record with a zero checksum. */
  function WithoutChecksum(b: seq<byte>): seq<byte>
    requires |b| >= 40
  {
    b[..8] + Zeros(32) + b[40..]
  }

  /** A geometry record: magic, checksum, and at byte 40 the slot size, the slot count and the block size. */
  ghost predicate IsGeometry(hash: Hash, b: seq<byte>, g: Geometry) {
    && |b| == 52 && b[0..4] == [0x67, 0x44, 0x6c, 0x61] && b[8..40] == hash(WithoutChecksum(b))
    && g.metadataMaxSize == U32Of(b[40..44]) && g.metadataSlotCount == U32Of(b[44..48])
    && g.logicalBlockSize == U32Of(b[48..52])
    && 1 <= g.metadataMaxSize <= 16777216 && 1 <= g.metadataSlotCount <= 8
    && (g.logicalBlockSize == 512 || g.logicalBlockSize == 4096)
  }

  lemma MagicBytes(b: seq<byte>)
    requires |b| == 4
    ensures U32Of(b) == 0x616c_4467 <==> b == [0x67, 0x44, 0x6c, 0x61]
    ensures U32Of(b) == 0x414c_5030 <==> b == [0x30, 0x50, 0x4c, 0x41]
  {
    ValueOfFour(b);
  }

  /** The geometry parser accepts exactly the geometry records. */
  lemma GeometryExactly(hash: Hash, disk: seq<byte>, offset: nat, g: Geometry)
    ensures ParseGeometry(hash, disk, offset) == Ok(g)
            <==> offset + 52 <= |disk| && IsGeometry(hash, disk[offset..offset + 52], g)
  {
    hide U32Of;
    if offset + 52 <= |disk| {
      var b := disk[offset..offset + 52];
      MagicBytes(b[0..4]);
      assert b[..8] + Zeros(32) + b[0x28..] == WithoutChecksum(b);
    }
  }

  /** A damaged record is refused: any byte outside the checksum may differ, short of a collision. */
  lemma DamagedGeometryFails(hash: Hash, g: Geometry, disk: seq<byte>, offset: nat, b: seq<byte>)
    requires |b| == 52 && At(disk, offset, b) && b[8..40] == SealedGeometry(hash, g)[8..40]
    requires WithoutChecksum(b) != WithoutChecksum(SealedGeometry(hash, g))
    requires hash(WithoutChecksum(b)) == hash(WithoutChecksum(SealedGeometry(hash, g)))
             ==> WithoutChecksum(b) == WithoutChecksum(SealedGeometry(hash, g))
    ensures ParseGeometry(hash, disk, offset).Err?
  {
    hide U32Of, U32Bytes;
    var sealed := SealedGeometry(hash, g);
    assert WithoutChecksum(sealed) == GeometryBytes(g, Zeros(32));
    assert sealed[8..40] == hash(GeometryBytes(g, Zeros(32)));
    var r := ParseGeometry(hash, disk, offset);
    if r.Ok? {
      GeometryExactly(hash, disk, offset, r.value);
    }
  }

  /** So the backup block stands in for a damaged primary one. */
  lemma BackupStandsIn(hash: Hash, g: Geometry, disk: seq<byte>, b: seq<byte>)
    requires |b| == 52 && At(disk, 4096, b) && b[8..40] == SealedGeometry(hash, g)[8..40]
    requires WithoutChecksum(b) != WithoutChecksum(SealedGeometry(hash, g))
    requires hash(WithoutChecksum(b)) == hash(WithoutChecksum(SealedGeometry(hash, g)))
             ==> WithoutChecksum(b) == WithoutChecksum(SealedGeometry(hash, g))
    requires GeometryInRange(g) && At(disk, 8192, SealedGeometry(hash, g))
    ensures FirstGeometry(hash, disk, g, 8192)
  {
    hide ParseGeometry, SealedGeometry;
    DamagedGeometryFails(hash, g, disk, 4096, b);
    GeometryRoundTrip(hash, disk, 8192, g);
    assert NoGeometryBefore(hash, disk, 8192) by {
      forall k: nat | 1 <= k && k * 4096 < 8192 ensures ParseGeometry(hash, disk, k * 4096).Err? {
        assert k == 1;
      }
    }
  }

  /** A rendered geometry is such a record, with its own length at byte 4. */
  lemma RenderedGeometry(hash: Hash, g: Geometry)
    requires GeometryInRange(g)
    ensures IsGeometry(hash, SealedGeometry(hash, g), g) && U32Of(SealedGeometry(hash, g)[4..8]) == 52
  {
    hide U32Of, U32Bytes;
    var b := SealedGeometry(hash, g);
    GeometryRoundTrip(hash, b, 0, g);
    GeometryExactly(hash, b, 0, g);
    assert b[0..52] == b;
    assert b[4..8] == U32Bytes(52);
    U32Back(52);
  }

  // ------------------------------------------------------------ header

  ghost predicate IsDescriptor(b: seq<byte>, d: TableDescriptor) {
    |b| == 12 && d == TableDescriptor(U32Of(b[0..4]), U32Of(b[4..8]), U32Of(b[8..12]))
  }

  /** The first 128 bytes of a metadata header. */
  ghost predicate IsHeader(b: seq<byte>, h: MetadataHeader) {
    && |b| == 128 && b[0..4] == [0x30, 0x50, 0x4c, 0x41]
    && h.majorVersion == U16Of(b[4..6]) && h.minorVersion == U16Of(b[6..8])
    && h.headerSize == U32Of(b[8..12]) && 128 <= h.headerSize <= 1048576
    && h.tablesSize == U32Of(b[44..48]) <= 67108864
    && IsDescriptor(b[80..92], h.partitions) && IsDescriptor(b[92..104], h.extents)
    && IsDescriptor(b[104..116], h.groups) && IsDescriptor(b[116..128], h.blockDevices)
  }

  lemma DescriptorExactly(b: seq<byte>, at: nat, d: TableDescriptor)
    requires at + 12 <= |b|
    ensures ParseDescriptor(b, at) == d <==> IsDescriptor(b[at..at + 12], d)
  {
    hide U32Of;
    SliceOfSlice(b, at, at + 12, 0, 4); SliceOfSlice(b, at, at + 12, 4, 8); SliceOfSlice(b, at, at + 12, 8, 12);
  }

  lemma HeaderExactly(disk: seq<byte>, offset: nat, h: MetadataHeader)
    ensures ParseHeader(disk, offset) == Ok(h)
            <==> offset + 128 <= |disk| && IsHeader(disk[offset..offset + 128], h)
  {
    hide U32Of, U16Of, ParseDescriptor, IsDescriptor;
    if offset + 128 <= |disk| {
      var b := disk[offset..offset + 128];
      MagicBytes(b[0..4]);
      DescriptorExactly(b, 80, h.partitions);
      DescriptorExactly(b, 92, h.extents);
      DescriptorExactly(b, 104, h.groups);
      DescriptorExactly(b, 116, h.blockDevices);
    }
  }

  /** The header checksum at bytes 12 to 44 covers the whole header with that field zeroed. */
  ghost predicate HeaderChecks(hash: Hash, b: seq<byte>) {
    |b| >= 128 && b[12..44] == hash(b[..12] + Zeros(32) + b[44..])
  }

  /** The tables behind a header match the checksum at its bytes 48 to 80. */
  ghost predicate TablesCheck(hash: Hash, disk: seq<byte>, offset: nat, h: MetadataHeader) {
    var at := offset + h.headerSize;
    && offset + 80 <= |disk| && at + h.tablesSize <= |disk|
    && disk[offset + 48..offset + 80] == hash(disk[at..at + h.tablesSize])
  }

  /** The validating parser accepts exactly the headers that fit the slot and match both checksums. */
  lemma ValidatedExactly(hash: Hash, disk: seq<byte>, offset: nat, maxSize: u32, h: MetadataHeader)
    ensures ParseValidated(hash, disk, offset, maxSize) == Ok(h)
            <==> && offset + 128 <= |disk| && IsHeader(disk[offset..offset + 128], h)
                 && h.headerSize <= maxSize && h.tablesSize <= maxSize && offset + h.headerSize <= |disk|
                 && HeaderChecks(hash, disk[offset..offset + h.headerSize]) && TablesCheck(hash, disk, offset, h)
  {
    hide ParseHeader, IsHeader;
    HeaderExactly(disk, offset, h);
    var parsed := ParseHeader(disk, offset);
    if parsed == Ok(h) && offset + h.headerSize <= |disk| {
      var b := disk[offset..offset + h.headerSize];
      assert Unsealed(b) == b[..12] + Zeros(32) + b[44..];
      var at := offset + h.headerSize;
      assert h.tablesSize == 0 ==> disk[at..at + h.tablesSize] == [];
    }
  }

  // ------------------------------------------------------------ tables

  /** The entry `i` of a table at `base` is the parse of its own stretch of bytes. */
  ghost predicate EntryIs<T>(disk: seq<byte>, base: nat, size: nat, i: nat, parse: seq<byte> -> Result<T>, x: T) {
    var at := base + i * size;
    at + size <= |disk| && parse(disk[at..at + size]) == Ok(x)
  }

  lemma {:induction false} EntriesExactly<T>(disk: seq<byte>, base: nat, size: nat, xs: seq<T>,
                                             parse: seq<byte> -> Result<T>)
    ensures ReadEntries(disk, base, size, |xs|, parse) == Ok(xs)
            <==> forall i :: 0 <= i < |xs| ==> EntryIs(disk, base, size, i, parse, xs[i])
    decreases |xs|
  {
    hide EntryIs;
    if xs != [] {
      var rest := xs[1..];
      assert xs == [xs[0]] + rest;
      EntriesExactly(disk, base + size, size, rest, parse);
      FirstEntry(disk, base, size, parse, xs[0]);
      forall i: nat ensures EntryIs(disk, base + size, size, i, parse, if i < |rest| then rest[i] else xs[0])
                            == EntryIs(disk, base, size, i + 1, parse, if i < |rest| then rest[i] else xs[0]) {
        NextEntry(disk, base, size, i, parse, if i < |rest| then rest[i] else xs[0]);
      }
      if forall i :: 0 <= i < |xs| ==> EntryIs(disk, base, size, i, parse, xs[i]) {
        assert EntryIs(disk, base, size, 0, parse, xs[0]);
        forall i | 0 <= i < |rest| ensures EntryIs(disk, base + size, size, i, parse, rest[i]) {
          assert EntryIs(disk, base, size, i + 1, parse, xs[i + 1]);
        }
      }
      if EntryIs(disk, base, size, 0, parse, xs[0])
         && (forall i :: 0 <= i < |rest| ==> EntryIs(disk, base + size, size, i, parse, rest[i])) {
        forall i | 0 <= i < |xs| ensures EntryIs(disk, base, size, i, parse, xs[i]) {
          if i > 0 {
            assert EntryIs(disk, base + size, size, i - 1, parse, rest[i - 1]);
          }
        }
      }
      EntriesLength(disk, base, size, |xs|, parse);
      EntriesLength(disk, base + size, size, |rest|, parse);
    }
  }

  lemma FirstEntry<T>(disk: seq<byte>, base: nat, size: nat, parse: seq<byte> -> Result<T>, x: T)
    ensures EntryIs(disk, base, size, 0, parse, x)
            <==> base + size <= |disk| && parse(disk[base..base + size]) == Ok(x)
  {
    assert base + 0 * size == base;
  }

  lemma NextEntry<T>(disk: seq<byte>, base: nat, size: nat, i: nat, parse: seq<byte> -> Result<T>, x: T)
    ensures EntryIs(disk, base + size, size, i, parse, x) == EntryIs(disk, base, size, i + 1, parse, x)
  {
    MulSucc(i, size);
  }

  lemma {:induction false} EntriesLength<T>(disk: seq<byte>, base: nat, size: nat, count: nat,
                                            parse: seq<byte> -> Result<T>)
    ensures var r := ReadEntries(disk, base, size, count, parse); r.Ok? ==> |r.value| == count
    decreases count
  {
    if count > 0 {
      EntriesLength(disk, base + size, size, count - 1, parse);
    }
  }

  /** A table is read exactly if its entry size and count are in range and every entry parses where it should be. */
  lemma TableExactly<T>(disk: seq<byte>, d: TableDescriptor, offset: nat, headerSize: u32,
                        parse: seq<byte> -> Result<T>, xs: seq<T>)
    ensures TableOf(disk, d, offset, headerSize, parse) == Ok(xs)
            <==> && |xs| == d.numEntries
                 && (d.entrySize == 0 ==> d.numEntries == 0)
                 && (d.entrySize > 0 ==>
                       && d.entrySize <= 1048576 && d.numEntries <= 65536
                       && offset + headerSize + d.offset <= 0xffff_ffff_ffff_ffff
                       && forall i :: 0 <= i < |xs| ==>
                            EntryIs(disk, offset + headerSize + d.offset, d.entrySize, i, parse, xs[i]))
  {
    hide EntryIs;
    EntriesLength(disk, offset + headerSize + d.offset, d.entrySize, d.numEntries, parse);
    if |xs| == d.numEntries {
      EntriesExactly(disk, offset + headerSize + d.offset, d.entrySize, xs, parse);
    }
  }

  // -------------------------------------------------------------- slots

  /** A copy validates at this offset as this header. */
  ghost predicate Validates(hash: Hash, disk: seq<byte>, offset: int, maxSize: u32, h: MetadataHeader) {
    offset >= 0 && ParseValidated(hash, disk, offset, maxSize) == Ok(h)
  }

  /** A slot is its primary copy if that validates, else its backup copy, at their places in the metadata area. */
  lemma SlotExactly(hash: Hash, disk: seq<byte>, g: Geometry, slot: u64, found: Found)
    requires GeometryInRange(g) && |disk| <= U64_MAX
    ensures var n, max := g.metadataSlotCount, g.metadataMaxSize;
            var primary, backup := 12288 + slot * max, 12288 + (n + slot) * max;
            FindSlot(hash, disk, g, slot) == Ok(found)
            <==> slot < n &&
                 if found.offset == primary && Validates(hash, disk, primary, max, found.header) then true
                 else found.offset == backup && Validates(hash, disk, backup, max, found.header)
                      && forall h :: !Validates(hash, disk, primary, max, h)
  {
    hide ParseValidated, ValidatedHeader, TablesSealed, HeaderSealed, ParseHeader, TryCopy, CopyBase, MetadataEnd,
      PrimaryOffset, BackupOffset;
    if slot < g.metadataSlotCount {
      OffsetsInRange(g);
      CopyIs(slot, g.metadataMaxSize);
      CopyIs(g.metadataSlotCount + slot, g.metadataMaxSize);
      SlotRegions(slot, g.metadataSlotCount, g.metadataMaxSize);
      var primary := CopyBase(slot, g.metadataMaxSize);
      var backup := CopyBase(g.metadataSlotCount + slot, g.metadataMaxSize);
      CopyExactly(hash, disk, primary, g.metadataMaxSize);
      CopyExactly(hash, disk, backup, g.metadataMaxSize);
      var v := ParseValidated(hash, disk, primary, g.metadataMaxSize);
      if v.Ok? {
        assert Validates(hash, disk, primary, g.metadataMaxSize, v.value);
      }
    }
  }

  /** Copies lie at multiples of the slot size behind byte 12288. */
  lemma CopyIs(i: nat, maxSize: nat)
    ensures CopyBase(i, maxSize) == 12288 + i * maxSize
  {}

  lemma OffsetsInRange(g: Geometry)
    requires GeometryInRange(g)
    ensures MetadataEnd(g.metadataSlotCount, g.metadataMaxSize) <= U64_MAX
  {
    MulMonotone(2 * g.metadataSlotCount, 2 * MAX_SLOTS, g.metadataMaxSize);
  }

  /** The size check in front of a copy refuses nothing that would validate. */
  lemma CopyExactly(hash: Hash, disk: seq<byte>, offset: u64, maxSize: u32)
    requires |disk| <= U64_MAX
    ensures var v := ParseValidated(hash, disk, offset, maxSize);
            TryCopy(hash, disk, Some(offset), maxSize).Ok? <==> v.Ok?
    ensures var v := ParseValidated(hash, disk, offset, maxSize);
            v.Ok? ==> TryCopy(hash, disk, Some(offset), maxSize) == Ok(Found(v.value, offset))
  {
    hide ValidatedHeader, TablesSealed, ParseHeader;
    var v := ParseValidated(hash, disk, offset, maxSize);
    if v.Ok? {
      assert offset + MIN_HEADER <= |disk|;
    }
  }

  /** What a slot holds is what its four descriptors describe, each table read by its own parser. */
  lemma LoadedExactly(disk: seq<byte>, h: MetadataHeader, offset: nat, t: Tables)
    ensures ReadTables(disk, h, offset) == Ok(t)
            <==> && TableOf(disk, h.partitions, offset, h.headerSize, ParsePartition) == Ok(t.partitions)
                 && TableOf(disk, h.extents, offset, h.headerSize, ParseExtent) == Ok(t.extents)
                 && TableOf(disk, h.groups, offset, h.headerSize, ParseGroup) == Ok(t.groups)
                 && TableOf(disk, h.blockDevices, offset, h.headerSize, ParseDevice) == Ok(t.devices)
  {
    hide TableOf;
  }

  // ---------------------------------------------------------- rendering

  /** The limits of the writer, in numbers. */
  lemma RenderableExactly(h: MetadataHeader, t: Tables, maxSize: u32)
    ensures Renderable(h, t, maxSize)
            <==> && |t.partitions| <= 65536 && |t.extents| <= 65536 && |t.groups| <= 65536 && |t.devices| <= 16
                 && (forall p :: p in t.partitions ==> |p.name| <= 36)
                 && (forall g :: g in t.groups ==> |g.name| <= 36)
                 && (forall d :: d in t.devices ==> |d.partitionName| <= 36)
                 && 128 <= h.headerSize <= 1048576
                 && h.headerSize + 52 * |t.partitions| + 24 * |t.extents| + 48 * |t.groups| + 64 * |t.devices|
                    <= maxSize
  {
    if Serializable(t) {
      forall p | p in t.partitions ensures |p.name| <= 36 {
        var i :| 0 <= i < |t.partitions| && t.partitions[i] == p;
      }
      forall g | g in t.groups ensures |g.name| <= 36 {
        var i :| 0 <= i < |t.groups| && t.groups[i] == g;
      }
      forall d | d in t.devices ensures |d.partitionName| <= 36 {
        var i :| 0 <= i < |t.devices| && t.devices[i] == d;
      }
    }
  }

  /** The table descriptors of a rendered header: the four tables back to back. */
  lemma DescriptorsWritten(h: MetadataHeader, t: Tables)
    requires Serializable(t)
    ensures var r := HeaderFor(h, t);
            var np, ne, ng, nd := |t.partitions|, |t.extents|, |t.groups|, |t.devices|;
            && r.majorVersion == h.majorVersion && r.minorVersion == h.minorVersion && r.headerSize == h.headerSize
            && r.tablesSize == 52 * np + 24 * ne + 48 * ng + 64 * nd
            && r.partitions == TableDescriptor(0, np, 52) && r.extents == TableDescriptor(52 * np, ne, 24)
            && r.groups == TableDescriptor(52 * np + 24 * ne, ng, 48)
            && r.blockDevices == TableDescriptor(52 * np + 24 * ne + 48 * ng, nd, 64)
  {}

  /**
   A rendered slot validates as that header, has the records where its descriptors say,
   and zeros behind them.
   */
  lemma SlotLaidOut(hash: Hash, h: MetadataHeader, t: Tables, maxSize: u32)
    requires Renderable(h, t, maxSize) && StorableNames(t)
    ensures var b, r := SlotBytes(hash, h, t, maxSize), HeaderFor(h, t);
            && |b| == maxSize && ParseValidated(hash, b, 0, maxSize) == Ok(r) && ReadTables(b, r, 0) == Ok(t)
            && forall i :: h.headerSize + r.tablesSize <= i < maxSize ==> b[i] == 0
  {
    hide SealedHeader, TablesBlob, ParseValidated, ReadTables;
    var b := SlotBytes(hash, h, t, maxSize);
    TablesBlobSize(t);
    assert b[0..|b|] == b;
    SlotRoundTrip(hash, b, 0, h, t, maxSize);
  }
}
