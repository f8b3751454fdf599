/**
 Byte layout of metadata: table records, the metadata header, a rendered slot and
 the geometry block (`writer.rs`), and their parsers (`reader/parser.rs`). The
 digest is a parameter: every result holds for an arbitrary hash function.
 */
module MetadataCodec {
  import opened Base
  import opened Format
  import opened SparseImage

  type Digest = d: seq<byte> | |d| == 32 witness Zeros(32)
  type Hash = seq<byte> -> Digest

  const NAME_SIZE: int := 36
  const MIN_HEADER: int := 0x80
  const MAX_HEADER: int := 1024 * 1024
  const MAX_TABLES: int := 64 * 1024 * 1024
  const MAX_ENTRIES: int := 65536
  const MAX_DEVICES: int := 16
  const MAX_METADATA: int := 16 * 1024 * 1024
  const MAX_SLOTS: int := 8

  const PARTITION_ENTRY: u32 := 52
  const EXTENT_ENTRY: u32 := 24
  const GROUP_ENTRY: u32 := 48
  const DEVICE_ENTRY: u32 := 64

  datatype Tables = Tables(
    partitions: seq<Partition>, extents: seq<Extent>, groups: seq<Group>, devices: seq<BlockDevice>)

  // ------------------------------------------------------------- records

  /** A name in its 36-byte field. */
  function PadName(name: Name): (b: seq<byte>)
    ensures |b| == NAME_SIZE
  {
    if |name| <= NAME_SIZE then name + Zeros(NAME_SIZE - |name|) else name[..NAME_SIZE]
  }

  function PartitionRecord(p: Partition): (b: seq<byte>)
    ensures |b| == PARTITION_ENTRY
  {
    PadName(p.name) + U32Bytes(p.attributes) + U32Bytes(p.firstExtentIndex) + U32Bytes(p.numExtents)
        + U32Bytes(p.groupIndex)
  }

  function ExtentRecord(e: Extent): (b: seq<byte>)
    ensures |b| == EXTENT_ENTRY
  {
    U64Bytes(e.numSectors) + U32Bytes(e.targetType) + U64Bytes(e.targetData) + U32Bytes(e.targetSource)
  }

  function GroupRecord(g: Group): (b: seq<byte>)
    ensures |b| == GROUP_ENTRY
  {
    PadName(g.name) + U32Bytes(g.flags) + U64Bytes(g.maximumSize)
  }

  function DeviceRecord(d: BlockDevice): (b: seq<byte>)
    ensures |b| == DEVICE_ENTRY
  {
    U64Bytes(d.firstLogicalSector) + U32Bytes(d.alignment) + U32Bytes(d.alignmentOffset) + U64Bytes(d.size)
    + PadName(d.partitionName) + Zeros(4)
  }

  function ReadU32(data: seq<byte>, offset: nat): Result<u32> {
    if offset + 4 <= |data| then Ok(U32Of(data[offset..offset + 4])) else Err(Invalid)
  }

  function ReadU64(data: seq<byte>, offset: nat): Result<u64> {
    if offset + 8 <= |data| then Ok(U64Of(data[offset..offset + 8])) else Err(Invalid)
  }

  /** The bytes before the first NUL. */
  function UpToNul(s: seq<byte>): seq<byte> {
    if s == [] || s[0] == 0 then [] else [s[0]] + UpToNul(s[1..])
  }

  function ReadString(data: seq<byte>, offset: nat, len: nat): Name {
    if offset > |data| then [] else UpToNul(data[offset..Min(offset + len, |data|)])
  }

  function ParsePartition(data: seq<byte>): Result<Partition> {
    var attributes :- ReadU32(data, 0x24);
    var firstExtentIndex :- ReadU32(data, 0x28);
    var numExtents :- ReadU32(data, 0x2C);
    var groupIndex :- ReadU32(data, 0x30);
    Ok(Partition(ReadString(data, 0, NAME_SIZE), attributes, firstExtentIndex, numExtents, groupIndex))
  }

  function ParseExtent(data: seq<byte>): Result<Extent> {
    var numSectors :- ReadU64(data, 0);
    var targetType :- ReadU32(data, 0x08);
    var targetData :- ReadU64(data, 0x0C);
    var targetSource :- ReadU32(data, 0x14);
    Ok(Extent(numSectors, targetType, targetData, targetSource))
  }

  function ParseGroup(data: seq<byte>): Result<Group> {
    var flags :- ReadU32(data, 0x24);
    var maximumSize :- ReadU64(data, 0x28);
    Ok(Group(ReadString(data, 0, NAME_SIZE), flags, maximumSize))
  }

  function ParseDevice(data: seq<byte>): Result<BlockDevice> {
    var firstLogicalSector :- ReadU64(data, 0);
    var alignment :- ReadU32(data, 0x08);
    var alignmentOffset :- ReadU32(data, 0x0C);
    var size :- ReadU64(data, 0x10);
    Ok(BlockDevice(firstLogicalSector, alignment, alignmentOffset, size, ReadString(data, 0x18, NAME_SIZE)))
  }

  /** A name survives its field exactly when it fits and has no NUL. */
  ghost predicate Storable(name: Name) {
    |name| <= NAME_SIZE && 0 !in name
  }

  lemma {:induction false} UpToNulFree(s: seq<byte>)
    ensures 0 !in UpToNul(s) && |UpToNul(s)| <= |s|
  {
    if s != [] && s[0] != 0 {
      UpToNulFree(s[1..]);
    }
  }

  lemma {:induction false} UpToNulPadded(name: Name, pad: seq<byte>)
    requires 0 !in name && (pad == [] || pad[0] == 0)
    ensures UpToNul(name + pad) == name
  {
    if name == [] {
      assert name + pad == pad;
    } else {
      assert (name + pad)[1..] == name[1..] + pad;
      UpToNulPadded(name[1..], pad);
    }
  }

  lemma NameRoundTrip(name: Name)
    ensures UpToNul(PadName(name)) == name <==> Storable(name)
  {
    UpToNulFree(PadName(name));
    if Storable(name) {
      UpToNulPadded(name, Zeros(NAME_SIZE - |name|));
    }
  }

  /** Partition records round-trip exactly for storable names. */
  lemma PartitionRoundTrip(p: Partition)
    ensures ParsePartition(PartitionRecord(p)) == Ok(p) <==> Storable(p.name)
  {
    hide U32Bytes, U32Of, PadName, UpToNul;
    var b := PartitionRecord(p);
    assert b[0..36] == PadName(p.name);
    assert b[0x24..0x28] == U32Bytes(p.attributes);
    assert b[0x28..0x2C] == U32Bytes(p.firstExtentIndex);
    assert b[0x2C..0x30] == U32Bytes(p.numExtents);
    assert b[0x30..0x34] == U32Bytes(p.groupIndex);
    U32Back(p.attributes); U32Back(p.firstExtentIndex); U32Back(p.numExtents); U32Back(p.groupIndex);
    NameRoundTrip(p.name);
  }

  lemma ExtentRoundTrip(e: Extent)
    ensures ParseExtent(ExtentRecord(e)) == Ok(e)
  {
    hide U32Bytes, U32Of, U64Bytes, U64Of;
    var b := ExtentRecord(e);
    assert b[0..8] == U64Bytes(e.numSectors);
    assert b[0x08..0x0C] == U32Bytes(e.targetType);
    assert b[0x0C..0x14] == U64Bytes(e.targetData);
    assert b[0x14..0x18] == U32Bytes(e.targetSource);
    U64Back(e.numSectors); U32Back(e.targetType); U64Back(e.targetData); U32Back(e.targetSource);
  }

  lemma GroupRoundTrip(g: Group)
    ensures ParseGroup(GroupRecord(g)) == Ok(g) <==> Storable(g.name)
  {
    hide U32Bytes, U32Of, U64Bytes, U64Of, PadName, UpToNul;
    var b := GroupRecord(g);
    assert b[0..36] == PadName(g.name);
    assert b[0x24..0x28] == U32Bytes(g.flags);
    assert b[0x28..0x30] == U64Bytes(g.maximumSize);
    U32Back(g.flags); U64Back(g.maximumSize);
    NameRoundTrip(g.name);
  }

  lemma DeviceRoundTrip(d: BlockDevice)
    ensures ParseDevice(DeviceRecord(d)) == Ok(d) <==> Storable(d.partitionName)
  {
    hide U32Bytes, U32Of, U64Bytes, U64Of, PadName, UpToNul;
    var b := DeviceRecord(d);
    assert b[0..8] == U64Bytes(d.firstLogicalSector);
    assert b[0x08..0x0C] == U32Bytes(d.alignment);
    assert b[0x0C..0x10] == U32Bytes(d.alignmentOffset);
    assert b[0x10..0x18] == U64Bytes(d.size);
    assert b[0x18..0x3C] == PadName(d.partitionName);
    U64Back(d.firstLogicalSector); U32Back(d.alignment); U32Back(d.alignmentOffset); U64Back(d.size);
    NameRoundTrip(d.partitionName);
  }

  lemma U16Back(v: u16)
    ensures U16Of(U16Bytes(v)) == v
  {}

  lemma U32Back(v: u32)
    ensures U32Of(U32Bytes(v)) == v
  {}

  lemma U64Back(v: u64)
    ensures U64Of(U64Bytes(v)) == v
  {}

  // -------------------------------------------------- writing into buffers

  /** Copies `data` into a zero-filled buffer right behind what is already there. */
  method Put(buf: array<byte>, at: nat, data: seq<byte>)
    requires at + |data| <= buf.Length && buf[at..] == Zeros(buf.Length - at)
    modifies buf
    ensures buf[..at + |data|] == old(buf[..at]) + data
    ensures buf[at + |data|..] == Zeros(buf.Length - at - |data|)
  {
    assert forall k :: at <= k < buf.Length ==> buf[k] == buf[at..][k - at];
    Store(buf, at, data);
  }

  /** Leaves a zero gap. */
  lemma Skip(buf: array<byte>, at: nat, gap: nat)
    requires at + gap <= buf.Length && buf[at..] == Zeros(buf.Length - at)
    ensures buf[..at + gap] == buf[..at] + Zeros(gap)
    ensures buf[at + gap..] == Zeros(buf.Length - at - gap)
  {
    assert buf[at..][..gap] == Zeros(gap);
    assert buf[at..][gap..] == Zeros(buf.Length - at - gap);
    assert buf[..at + gap] == buf[..at] + buf[at..][..gap];
  }

  /** Copies a name into its field; the rest of the field stays zero. */
  method PutName(buf: array<byte>, at: nat, name: Name)
    requires |name| <= NAME_SIZE && at + NAME_SIZE <= buf.Length && buf[at..] == Zeros(buf.Length - at)
    modifies buf
    ensures buf[..at + NAME_SIZE] == old(buf[..at]) + PadName(name)
    ensures buf[at + NAME_SIZE..] == Zeros(buf.Length - at - NAME_SIZE)
  {
    Put(buf, at, name);
    Skip(buf, at + |name|, NAME_SIZE - |name|);
  }

  method SerializePartition(p: Partition) returns (r: Result<seq<byte>>)
    ensures r == if |p.name| > NAME_SIZE then Err(Invalid) else Ok(PartitionRecord(p))
  {
    hide U32Bytes, PadName;
    if |p.name| > NAME_SIZE {
      return Err(Invalid);
    }
    var data := new byte[PARTITION_ENTRY](_ => 0);
    assert data[0..] == Zeros(PARTITION_ENTRY);
    PutName(data, 0, p.name);
    Put(data, 0x24, U32Bytes(p.attributes));
    Put(data, 0x28, U32Bytes(p.firstExtentIndex));
    Put(data, 0x2C, U32Bytes(p.numExtents));
    Put(data, 0x30, U32Bytes(p.groupIndex));
    assert data[..] == data[..PARTITION_ENTRY];
    assert data[..] == PartitionRecord(p);
    r := Ok(data[..]);
  }

  method SerializeExtent(e: Extent) returns (r: seq<byte>)
    ensures r == ExtentRecord(e)
  {
    hide U32Bytes, U64Bytes, PadName;
    var data := new byte[EXTENT_ENTRY](_ => 0);
    assert data[0..] == Zeros(EXTENT_ENTRY);
    Put(data, 0x00, U64Bytes(e.numSectors));
    Put(data, 0x08, U32Bytes(e.targetType));
    Put(data, 0x0C, U64Bytes(e.targetData));
    Put(data, 0x14, U32Bytes(e.targetSource));
    assert data[..] == data[..EXTENT_ENTRY];
    r := data[..];
  }

  method SerializeGroup(g: Group) returns (r: Result<seq<byte>>)
    ensures r == if |g.name| > NAME_SIZE then Err(Invalid) else Ok(GroupRecord(g))
  {
    hide U32Bytes, U64Bytes, PadName;
    if |g.name| > NAME_SIZE {
      return Err(Invalid);
    }
    var data := new byte[GROUP_ENTRY](_ => 0);
    assert data[0..] == Zeros(GROUP_ENTRY);
    PutName(data, 0, g.name);
    Put(data, 0x24, U32Bytes(g.flags));
    Put(data, 0x28, U64Bytes(g.maximumSize));
    assert data[..] == data[..GROUP_ENTRY];
    assert data[..] == GroupRecord(g);
    r := Ok(data[..]);
  }

  method SerializeDevice(d: BlockDevice) returns (r: Result<seq<byte>>)
    ensures r == if |d.partitionName| > NAME_SIZE then Err(Invalid) else Ok(DeviceRecord(d))
  {
    hide U32Bytes, U64Bytes, PadName;
    var data := new byte[DEVICE_ENTRY](_ => 0);
    assert data[0..] == Zeros(DEVICE_ENTRY);
    Put(data, 0x00, U64Bytes(d.firstLogicalSector));
    Put(data, 0x08, U32Bytes(d.alignment));
    Put(data, 0x0C, U32Bytes(d.alignmentOffset));
    Put(data, 0x10, U64Bytes(d.size));
    if |d.partitionName| > NAME_SIZE {
      return Err(Invalid);
    }
    PutName(data, 0x18, d.partitionName);
    Skip(data, 0x3C, 4);
    assert data[..] == data[..DEVICE_ENTRY];
    assert data[..] == DeviceRecord(d);
    r := Ok(data[..]);
  }
}
