/**
 Loading metadata from an opened image (`reader/parser.rs`): every piece is fetched
 by random access, so the image may be raw or sparse. For an image that holds some
 bytes, what is loaded is what those bytes mean.
 */
module ImageMetadata {
  import opened Base
  import opened Format
  import opened MetadataCodec
  import opened MetadataReader
  import opened MetadataSlot
  import opened SparseImage

  /** Both succeed with one value, or both fail. */
  ghost predicate Same<T>(a: Result<T>, b: Result<T>) {
    (a.Ok? <==> b.Ok?) && (a.Ok? ==> a.value == b.value)
  }

  /** A fresh buffer filled from the image. */
  method Fetch(img: Image, ghost disk: seq<byte>, offset: u64, len: nat) returns (r: Result<seq<byte>>)
    requires ValidImage(img) && Holds(img, disk) && len <= U64_MAX
    ensures Same(r, ReadExact(disk, offset, len))
  {
    var buffer := new byte[len](_ => 0);
    var read := ReadAt(img, offset, buffer, 0, len);
    if read.Err? {
      assert offset + len <= |disk| ==> Readable(img, offset, len);
      return Err(read.error);
    }
    forall k | 0 <= k < len ensures buffer[k] == disk[offset + k] {
      assert ByteAt(img, offset + (k - 0)) == Some(buffer[k]);
    }
    assert buffer[..] == disk[offset..offset + len];
    r := Ok(buffer[..]);
  }

  /** `parse_metadata_header`. */
  method FetchHeader(img: Image, ghost disk: seq<byte>, offset: u64) returns (r: Result<MetadataHeader>)
    requires ValidImage(img) && Holds(img, disk)
    ensures Same(r, ParseHeader(disk, offset))
  {
    hide U32Of, U16Of, ParseDescriptor, Holds, ValidImage;
    var fetched := Fetch(img, disk, offset, MIN_HEADER);
    if fetched.Err? {
      return Err(fetched.error);
    }
    var data := fetched.value;
    if U32Of(data[0..4]) != METADATA_MAGIC {
      return Err(Invalid);
    }
    var headerSize := U32Of(data[8..0x0C]);
    var tablesSize := U32Of(data[0x2C..0x30]);
    if !(MIN_HEADER <= headerSize <= MAX_HEADER) {
      return Err(Invalid);
    }
    if tablesSize > MAX_TABLES {
      return Err(Invalid);
    }
    r := Ok(MetadataHeader(U16Of(data[4..6]), U16Of(data[6..8]), headerSize, tablesSize,
                           ParseDescriptor(data, 0x50), ParseDescriptor(data, 0x5C),
                           ParseDescriptor(data, 0x68), ParseDescriptor(data, 0x74)));
  }

  /** `parse_metadata_validated`: both checksums, over what the image delivers. */
  method FetchValidated(hash: Hash, img: Image, ghost disk: seq<byte>, offset: u64, maxSize: u32)
    returns (r: Result<MetadataHeader>)
    requires ValidImage(img) && Holds(img, disk) && |disk| <= U64_MAX
    ensures Same(r, ParseValidated(hash, disk, offset, maxSize))
  {
    hide ParseHeader, Holds, ValidImage;
    var parsed := FetchHeader(img, disk, offset);
    if parsed.Err? {
      return Err(parsed.error);
    }
    var header := parsed.value;
    if header.headerSize > maxSize {
      return Err(Invalid);
    }
    var raw := Fetch(img, disk, offset, header.headerSize);
    if raw.Err? {
      return Err(raw.error);
    }
    if !HeaderSealed(hash, raw.value) {
      return Err(Invalid);
    }
    if header.tablesSize > maxSize {
      return Err(Invalid);
    }
    var tablesOffset := CheckedAdd(offset, header.headerSize);
    if tablesOffset.None? {
      return Err(Invalid);
    }
    var tables: seq<byte> := [];
    if header.tablesSize > 0 {
      var fetched := Fetch(img, disk, tablesOffset.value, header.tablesSize);
      if fetched.Err? {
        return Err(fetched.error);
      }
      tables := fetched.value;
    }
    SliceOfSlice(disk, offset, offset + header.headerSize, 0x30, 0x50);
    if hash(tables) != raw.value[0x30..0x50] {
      return Err(Invalid);
    }
    r := Ok(header);
  }

  /** `read_table`: the entry loop with its overflow and range checks. */
  method ReadTable<T>(img: Image, ghost disk: seq<byte>, desc: TableDescriptor, offset: u64, headerSize: u32,
                      parse: seq<byte> -> Result<T>)
    returns (r: Result<seq<T>>)
    requires ValidImage(img) && Holds(img, disk) && |disk| <= U64_MAX
    ensures Same(r, TableOf(disk, desc, offset, headerSize, parse))
  {
    hide ValidImage;
    if desc.entrySize == 0 {
      if desc.numEntries == 0 {
        return Ok([]);
      }
      return Err(Invalid);
    }
    if desc.entrySize > MAX_HEADER {
      return Err(Invalid);
    }
    if desc.numEntries > MAX_ENTRIES {
      return Err(Invalid);
    }
    var base := offset + headerSize + desc.offset;
    if base > U64_MAX {
      return Err(Invalid);
    }
    var result: seq<T> := [];
    ghost var whole := ReadEntries(disk, base, desc.entrySize, desc.numEntries, parse);
    assert whole.Ok? ==> [] + whole.value == whole.value;
    var entryOffset := base;
    for i := 0 to desc.numEntries
      invariant 0 <= entryOffset
      invariant var rest := ReadEntries(disk, entryOffset, desc.entrySize, desc.numEntries - i, parse);
                whole == if rest.Ok? then Ok(result + rest.value) else Err(rest.error)
    {
      var entryEnd := entryOffset + desc.entrySize;
      if entryEnd > U64_MAX || entryEnd > img.Size() {
        return Err(Invalid);
      }
      var data := Fetch(img, disk, entryOffset, desc.entrySize);
      if data.Err? {
        return Err(Io);
      }
      var one := parse(data.value);
      if one.Err? {
        return Err(one.error);
      }
      ghost var rest := ReadEntries(disk, entryEnd, desc.entrySize, desc.numEntries - i - 1, parse);
      if rest.Ok? {
        assert result + ([one.value] + rest.value) == result + [one.value] + rest.value;
      }
      result := result + [one.value];
      entryOffset := entryEnd;
    }
    assert result + [] == result;
    r := Ok(result);
  }

  /** The four tables a header describes. */
  method FetchTables(img: Image, ghost disk: seq<byte>, header: MetadataHeader, offset: u64) returns (r: Result<Tables>)
    requires ValidImage(img) && Holds(img, disk) && |disk| <= U64_MAX
    ensures Same(r, ReadTables(disk, header, offset))
  {
    hide TableOf, ValidImage, Holds;
    var partitions := ReadTable(img, disk, header.partitions, offset, header.headerSize, ParsePartition);
    if partitions.Err? {
      return Err(partitions.error);
    }
    var extents := ReadTable(img, disk, header.extents, offset, header.headerSize, ParseExtent);
    if extents.Err? {
      return Err(extents.error);
    }
    var groups := ReadTable(img, disk, header.groups, offset, header.headerSize, ParseGroup);
    if groups.Err? {
      return Err(groups.error);
    }
    var devices := ReadTable(img, disk, header.blockDevices, offset, header.headerSize, ParseDevice);
    if devices.Err? {
      return Err(devices.error);
    }
    r := Ok(Tables(partitions.value, extents.value, groups.value, devices.value));
  }

  /** One copy, if the image reaches to the end of a minimal header there. */
  method FetchCopy(hash: Hash, img: Image, ghost disk: seq<byte>, offset: Option<u64>, maxSize: u32)
    returns (r: Result<Found>)
    requires ValidImage(img) && Holds(img, disk) && |disk| <= U64_MAX
    ensures Same(r, TryCopy(hash, disk, offset, maxSize))
  {
    hide ParseValidated, ValidImage;
    if offset.None? || SaturatingAdd(offset.value, MIN_HEADER) > img.Size() {
      return Err(NotFound);
    }
    var header := FetchValidated(hash, img, disk, offset.value, maxSize);
    r := if header.Ok? then Ok(Found(header.value, offset.value)) else Err(header.error);
  }

  /** `find_metadata_for_slot`: the primary copy of a slot, then its backup. */
  method FetchSlot(hash: Hash, img: Image, ghost disk: seq<byte>, g: Geometry, slot: u64) returns (r: Result<Found>)
    requires ValidImage(img) && Holds(img, disk) && |disk| <= U64_MAX
    ensures Same(r, FindSlot(hash, disk, g, slot))
  {
    hide TryCopy, ValidImage, Holds;
    if slot >= g.metadataSlotCount {
      return Err(NotFound);
    }
    r := FetchCopy(hash, img, disk, PrimaryOffset(slot, g.metadataMaxSize), g.metadataMaxSize);
    if r.Err? {
      r := FetchCopy(hash, img, disk, BackupOffset(slot, g.metadataSlotCount, g.metadataMaxSize), g.metadataMaxSize);
    }
  }

  /** Everything a command loads from one slot of an image. */
  method FetchLoaded(hash: Hash, img: Image, ghost disk: seq<byte>, g: Geometry, slot: u64) returns (r: Result<Loaded>)
    requires ValidImage(img) && Holds(img, disk) && |disk| <= U64_MAX
    ensures Same(r, LoadSlot(hash, disk, g, slot))
  {
    hide FindSlot, ReadTables, ValidImage, Holds;
    var found := FetchSlot(hash, img, disk, g, slot);
    if found.Err? {
      return Err(found.error);
    }
    var tables := FetchTables(img, disk, found.value.header, found.value.offset);
    r := if tables.Ok? then Ok(Loaded(found.value.header, found.value.offset, tables.value)) else Err(tables.error);
  }

  // ---------------------------------------------------------------- geometry

  /** `parse_geometry_validated`. */
  method FetchGeometry(hash: Hash, img: Image, ghost disk: seq<byte>, offset: u64) returns (r: Result<Geometry>)
    requires ValidImage(img) && Holds(img, disk) && |disk| <= U64_MAX
    ensures Same(r, ParseGeometry(hash, disk, offset))
    ensures r.Err? && offset + 52 <= |disk| ==> r.error == Invalid
  {
    hide ValidImage, Holds, U32Of;
    var fetched := Fetch(img, disk, offset, GEOMETRY_SIZE);
    if fetched.Err? {
      return Err(fetched.error);
    }
    var data := fetched.value;
    if U32Of(data[0..4]) != GEOMETRY_MAGIC {
      return Err(Invalid);
    }
    if hash(data[..8] + Zeros(32) + data[0x28..]) != data[8..0x28] {
      return Err(Invalid);
    }
    var maxSize, slotCount, blockSize := U32Of(data[0x28..0x2C]), U32Of(data[0x2C..0x30]), U32Of(data[0x30..0x34]);
    if maxSize == 0 || maxSize > 16 * 1024 * 1024 {
      return Err(Invalid);
    }
    if slotCount == 0 || slotCount > 8 {
      return Err(Invalid);
    }
    if blockSize != 4096 && blockSize != 512 {
      return Err(Invalid);
    }
    r := Ok(Geometry(maxSize, slotCount, blockSize));
  }

  /** The magic at an offset, if it can be read. */
  method FetchMagic(img: Image, ghost disk: seq<byte>, offset: u64) returns (found: bool)
    requires ValidImage(img) && Holds(img, disk)
    ensures found <==> offset + 4 <= |disk| && U32Of(disk[offset..offset + 4]) == GEOMETRY_MAGIC
  {
    hide ValidImage, Holds, U32Of;
    var magic := Fetch(img, disk, offset, 4);
    found := magic.Ok? && U32Of(magic.value) == GEOMETRY_MAGIC;
  }

  lemma GeometryNeedsMagic(hash: Hash, disk: seq<byte>, offset: nat)
    requires ParseGeometry(hash, disk, offset).Ok?
    ensures offset + 52 <= |disk| && U32Of(disk[offset..offset + 4]) == GEOMETRY_MAGIC
  {
    hide U32Of;
    SliceOfSlice(disk, offset, offset + 52, 0, 4);
  }

  /** No valid geometry at a 4 KiB boundary in `[4096, end)`. */
  ghost predicate NoGeometryBefore(hash: Hash, disk: seq<byte>, end: nat) {
    forall k: nat :: 1 <= k && k * 4096 < end ==> ParseGeometry(hash, disk, k * 4096).Err?
  }

  lemma NoneHere(hash: Hash, disk: seq<byte>, offset: nat)
    requires NoGeometryBefore(hash, disk, offset) && offset % 4096 == 0 && ParseGeometry(hash, disk, offset).Err?
    ensures NoGeometryBefore(hash, disk, offset + 4096)
  {
    hide ParseGeometry;
    forall k: nat | 1 <= k && k * 4096 < offset + 4096 ensures ParseGeometry(hash, disk, k * 4096).Err? {
      assert k * 4096 < offset || k * 4096 == offset;
    }
  }

  lemma NonePastEnd(hash: Hash, disk: seq<byte>, offset: nat)
    requires NoGeometryBefore(hash, disk, offset) && |disk| <= offset + 51
    ensures NoGeometryBefore(hash, disk, 65536)
  {
    forall k: nat | 1 <= k && k * 4096 < 65536 ensures ParseGeometry(hash, disk, k * 4096).Err? {
      if k * 4096 >= offset {
        assert k * 4096 + 52 > |disk|;
      }
    }
  }

  /** The geometry at the least 4 KiB boundary in `[4096, 65536)` that holds a valid one. */
  ghost predicate FirstGeometry(hash: Hash, disk: seq<byte>, g: Geometry, at: nat) {
    && at % 4096 == 0 && 4096 <= at < 65536
    && ParseGeometry(hash, disk, at) == Ok(g) && NoGeometryBefore(hash, disk, at)
  }

  lemma FirstGeometryIsOne(hash: Hash, disk: seq<byte>, g: Geometry, at: nat, g': Geometry, at': nat)
    requires FirstGeometry(hash, disk, g, at) && FirstGeometry(hash, disk, g', at')
    ensures g == g' && at == at'
  {
    hide ParseGeometry;
    assert at == at / 4096 * 4096 && at' == at' / 4096 * 4096;
  }

  /**
   `find_geometry`: the primary block, the backup block, then a scan for relocated ones.
   It finds the valid geometry at the least 4 KiB boundary in front of 64 KiB, and
   fails only if there is none: with `NotFound` if the image ends in front of the end
   of the primary block.
   */
  method FindGeometry(hash: Hash, img: Image, ghost disk: seq<byte>) returns (r: Result<(Geometry, u64)>)
    requires ValidImage(img) && Holds(img, disk) && |disk| <= U64_MAX
    ensures r.Ok? ==> FirstGeometry(hash, disk, r.value.0, r.value.1)
    ensures r.Err? ==> NoGeometryBefore(hash, disk, 65536)
    ensures r.Err? ==> r.error == if |disk| < 4148 then NotFound else Invalid
  {
    hide ValidImage, Holds, U32Of, ParseGeometry, NoGeometryBefore;
    var lastErr: Option<Error> := None;
    var blocks := [GEOMETRY_PRIMARY_OFFSET, GEOMETRY_BACKUP_OFFSET];
    FirstBoundary(hash, disk);
    HeldSize(img, disk);
    for i := 0 to |blocks|
      invariant NoGeometryBefore(hash, disk, 4096 * (i + 1))
      invariant lastErr == if i == 0 || |disk| < 4148 then None else Some(Invalid)
    {
      var offset := blocks[i];
      var here := false;
      if offset + 0x34 <= img.Size() {
        here := FetchMagic(img, disk, offset);
      }
      if here {
        var parsed := FetchGeometry(hash, img, disk, offset);
        if parsed.Ok? {
          return Ok((parsed.value, offset));
        }
        lastErr := Some(parsed.error);
      } else {
        NoMagicNoGeometry(hash, disk, offset);
        lastErr := if offset + 0x34 <= img.Size() then Some(Invalid) else lastErr;
      }
      NoneHere(hash, disk, offset);
    }
    var searchLimit := Min(img.Size(), 0x10000);
    var offset := GEOMETRY_PRIMARY_OFFSET;
    while offset < searchLimit
      invariant offset % 4096 == 0 && 4096 <= offset
      invariant NoGeometryBefore(hash, disk, Max(offset, 3 * 4096))
    {
      if offset != GEOMETRY_PRIMARY_OFFSET && offset != GEOMETRY_BACKUP_OFFSET {
        var here := FetchMagic(img, disk, offset);
        if here {
          var parsed := FetchGeometry(hash, img, disk, offset);
          if parsed.Ok? {
            return Ok((parsed.value, offset));
          }
        } else {
          NoMagicNoGeometry(hash, disk, offset);
        }
        NoneHere(hash, disk, offset);
      }
      offset := offset + 0x1000;
    }
    ScanEnds(hash, img, disk, offset);
    r := Err(if lastErr.Some? then lastErr.value else NotFound);
  }

  lemma HeldSize(img: Image, disk: seq<byte>)
    requires Holds(img, disk)
    ensures img.Size() == |disk|
  {}

  lemma FirstBoundary(hash: Hash, disk: seq<byte>)
    ensures NoGeometryBefore(hash, disk, 4096)
  {}

  lemma NoMagicNoGeometry(hash: Hash, disk: seq<byte>, offset: nat)
    requires offset + 52 > |disk| || U32Of(disk[offset..offset + 4]) != GEOMETRY_MAGIC
    ensures ParseGeometry(hash, disk, offset).Err?
  {
    hide ParseGeometry, U32Of;
    if ParseGeometry(hash, disk, offset).Ok? {
      GeometryNeedsMagic(hash, disk, offset);
    }
  }

  lemma ScanEnds(hash: Hash, img: Image, disk: seq<byte>, offset: nat)
    requires Holds(img, disk) && Min(img.Size(), 0x10000) <= offset
    requires NoGeometryBefore(hash, disk, Max(offset, 3 * 4096))
    ensures NoGeometryBefore(hash, disk, 65536)
  {
    hide ParseGeometry;
    if img.Size() < 0x10000 {
      NonePastEnd(hash, disk, Max(offset, 3 * 4096));
    }
  }
}
