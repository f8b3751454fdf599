/**
 Updating a metadata slot on disk (`write_metadata`): which bytes change, what the
 other slots see, and what a torn update leaves behind.
 */
module MetadataStore {
  import opened Arithmetic
  import opened Base
  import opened Format
  import opened MetadataCodec
  import opened MetadataReader
  import opened MetadataSlot
  import opened SparseImage

  class File {
    var bytes: seq<byte>

    constructor (bytes: seq<byte>)
      ensures this.bytes == bytes
    {
      this.bytes := bytes;
    }

    /** Seek and write all. */
    method WriteAt(offset: u64, data: seq<byte>)
      modifies this
      ensures bytes == Overwrite(old(bytes), offset, data)
    {
      bytes := Overwrite(bytes, offset, data);
    }
  }

  /** The disk after the first `k` bytes of the two writes of an update. */
  function AfterBytes(disk: seq<byte>, primary: nat, backup: nat, blob: seq<byte>, k: nat): seq<byte>
    requires k <= 2 * |blob|
  {
    if k <= |blob| then Overwrite(disk, primary, blob[..k])
    else Overwrite(Overwrite(disk, primary, blob), backup, blob[..k - |blob|])
  }

  function SlotAfterBytes(disk: seq<byte>, g: Geometry, slot: nat, blob: seq<byte>, k: nat): seq<byte>
    requires k <= 2 * |blob|
  {
    AfterBytes(disk, CopyBase(slot, g.metadataMaxSize), CopyBase(g.metadataSlotCount + slot, g.metadataMaxSize), blob,
               k)
  }

  /** `offset` is the primary base of slot `slot`. */
  ghost predicate IsPrimaryOf(g: Geometry, offset: nat, slot: nat) {
    slot < g.metadataSlotCount && offset == CopyBase(slot, g.metadataMaxSize)
  }

  /** The slot an update addresses: a primary base names its slot, nothing else names one. */
  function TargetSlot(g: Geometry, offset: u64): (r: Option<nat>)
    ensures g.metadataMaxSize > 0 ==> forall s: nat :: r == Some(s) <==> IsPrimaryOf(g, offset, s)
  {
    var s := SlotFromPrimaryOffset(offset, g.metadataMaxSize);
    assert g.metadataMaxSize > 0 ==> forall s': nat :: IsPrimaryOf(g, offset, s') ==> s == Some(s') by {
      forall s': nat | g.metadataMaxSize > 0 && IsPrimaryOf(g, offset, s') ensures s == Some(s') {
        SlotOfCopy(s', g.metadataMaxSize);
      }
    }
    if s.Some? && s.value < g.metadataSlotCount then s else None
  }

  /** Loaded geometries keep every copy below 2^64. */
  lemma OffsetsFit(g: Geometry)
    requires GeometryInRange(g)
    ensures MetadataEnd(g.metadataSlotCount, g.metadataMaxSize) <= U64_MAX
  {
    MulMonotone(2 * g.metadataSlotCount, 2 * MAX_SLOTS, g.metadataMaxSize);
  }

  /**
   Rewrites both copies of the slot an offset names. It succeeds exactly for a
   primary base of an existing slot and renderable tables; on failure no byte
   changes, on success the two copies hold the rendered slot.
   */
  method WriteMetadata(hash: Hash, file: File, g: Geometry, metadataOffset: u64, h: MetadataHeader, t: Tables)
    returns (r: Result<()>)
    requires GeometryInRange(g)
    modifies file
    ensures r.Ok? <==> TargetSlot(g, metadataOffset).Some? && Renderable(h, t, g.metadataMaxSize)
    ensures r.Err? ==> file.bytes == old(file.bytes)
    ensures r.Ok? ==>
              var blob := SlotBytes(hash, h, t, g.metadataMaxSize);
              file.bytes == SlotAfterBytes(old(file.bytes), g, TargetSlot(g, metadataOffset).value, blob, 2 * |blob|)
  {
    hide SlotBytes, Renderable, CopyBase, MetadataEnd, SlotAfterBytes;
    if g.metadataMaxSize == 0 {
      return Err(Invalid);
    }
    var max: u64 := g.metadataMaxSize;
    var slotCount: u64 := g.metadataSlotCount;
    var slot := SlotFromPrimaryOffset(metadataOffset, max);
    if slot.None? {
      slot := SlotFromAnyCopy(metadataOffset, slotCount, max);
      if slot.None? {
        return Err(Invalid);
      }
    }
    if slot.value >= slotCount {
      return Err(Invalid);
    }
    OffsetsFit(g);
    SlotRegions(slot.value, slotCount, max);
    var primary := PrimaryOffset(slot.value, max);
    var backup := BackupOffset(slot.value, slotCount, max);
    if primary.None? || backup.None? {
      return Err(Invalid);
    }
    var slotData := RenderSlot(hash, h, t, g.metadataMaxSize);
    if slotData.Err? {
      return Err(Invalid);
    }
    file.WriteAt(primary.value, slotData.value);
    file.WriteAt(backup.value, slotData.value);
    BothWritten(old(file.bytes), g, slot.value, slotData.value);
    r := Ok(());
  }

  lemma BothWritten(disk: seq<byte>, g: Geometry, slot: nat, blob: seq<byte>)
    ensures var primary, backup := CopyBase(slot, g.metadataMaxSize),
            CopyBase(g.metadataSlotCount + slot, g.metadataMaxSize);
            SlotAfterBytes(disk, g, slot, blob, 2 * |blob|) == Overwrite(Overwrite(disk, primary, blob), backup, blob)
  {
    assert blob[..|blob|] == blob;
    assert blob == [] ==> blob[..0] == blob;
  }

  /** The fallback that maps backup bases to slots; it never applies, since every multiple resolves first. */
  function SlotFromAnyCopy(offset: u64, slotCount: u64, maxSize: u64): (r: Option<u64>)
    requires maxSize > 0
    ensures SlotFromPrimaryOffset(offset, maxSize).None? ==> r.None?
  {
    if offset < METADATA_BASE_OFFSET then None else
    var rel := offset - METADATA_BASE_OFFSET;
    if rel % maxSize != 0 then None else
    var index := rel / maxSize;
    if index >= slotCount then Some(index - slotCount) else Some(index)
  }

  /** An offset loaded from a backup copy names no slot, so such an update is refused. */
  lemma BackupOffsetRefused(g: Geometry, slot: nat)
    requires GeometryInRange(g) && slot < g.metadataSlotCount
    ensures CopyBase(g.metadataSlotCount + slot, g.metadataMaxSize) <= U64_MAX
    ensures TargetSlot(g, CopyBase(g.metadataSlotCount + slot, g.metadataMaxSize)) == None
  {
    OffsetsFit(g);
    SlotRegions(slot, g.metadataSlotCount, g.metadataMaxSize);
    SlotOfCopy(g.metadataSlotCount + slot, g.metadataMaxSize);
  }

  // ------------------------------------------------------------- locality

  /** Both disks hold the same bytes in `[from, from + len)`. */
  ghost predicate Agree(a: seq<byte>, b: seq<byte>, from: nat, len: nat) {
    from + len <= |a| && from + len <= |b| && a[from..from + len] == b[from..from + len]
  }

  lemma AgreeWithin(a: seq<byte>, b: seq<byte>, from: nat, len: nat, at: nat, part: nat)
    requires Agree(a, b, from, len) && from <= at && at + part <= from + len
    ensures at + part <= |a| && at + part <= |b| && a[at..at + part] == b[at..at + part]
  {
    SliceOfSlice(a, from, from + len, at - from, at - from + part);
    SliceOfSlice(b, from, from + len, at - from, at - from + part);
  }

  ghost predicate TableWithin(d: TableDescriptor, tablesSize: u32) {
    d.offset + d.numEntries * d.entrySize <= tablesSize
  }

  /** The header describes nothing outside its own copy. */
  ghost predicate Contained(h: MetadataHeader, maxSize: u32) {
    && h.headerSize + h.tablesSize <= maxSize
    && TableWithin(h.partitions, h.tablesSize) && TableWithin(h.extents, h.tablesSize)
    && TableWithin(h.groups, h.tablesSize) && TableWithin(h.blockDevices, h.tablesSize)
  }

  /** Rendered headers are contained. */
  lemma RenderedContained(h: MetadataHeader, t: Tables, maxSize: u32)
    requires Renderable(h, t, maxSize)
    ensures Contained(HeaderFor(h, t), maxSize)
  {}

  /** Header validation looks only at the copy. */
  lemma HeaderLocal(hash: Hash, a: seq<byte>, b: seq<byte>, offset: nat, maxSize: u32)
    requires Agree(a, b, offset, maxSize) && MIN_HEADER <= maxSize
    ensures ValidatedHeader(hash, a, offset, maxSize) == ValidatedHeader(hash, b, offset, maxSize)
  {
    hide U32Of, U16Of, ParseDescriptor, HeaderSealed;
    AgreeWithin(a, b, offset, maxSize, offset, MIN_HEADER);
    var header := ParseHeader(a, offset);
    if header.Ok? && header.value.headerSize <= maxSize {
      AgreeWithin(a, b, offset, maxSize, offset, header.value.headerSize);
    }
  }

  lemma {:induction false} EntriesLocal<T>(a: seq<byte>, b: seq<byte>, from: nat, len: nat, base: nat, size: nat,
                                           count: nat, parse: seq<byte> -> Result<T>)
    requires Agree(a, b, from, len) && from <= base && base + count * size <= from + len
    ensures ReadEntries(a, base, size, count, parse) == ReadEntries(b, base, size, count, parse)
    decreases count
  {
    if count > 0 {
      MulSucc(count - 1, size);
      MulMonotone(0, count - 1, size);
      AgreeWithin(a, b, from, len, base, size);
      EntriesLocal(a, b, from, len, base + size, size, count - 1, parse);
    }
  }

  lemma TableLocal<T>(a: seq<byte>, b: seq<byte>, offset: nat, h: MetadataHeader, d: TableDescriptor, maxSize: u32,
                      parse: seq<byte> -> Result<T>)
    requires Agree(a, b, offset, maxSize) && h.headerSize + h.tablesSize <= maxSize && TableWithin(d, h.tablesSize)
    ensures TableOf(a, d, offset, h.headerSize, parse) == TableOf(b, d, offset, h.headerSize, parse)
  {
    EntriesLocal(a, b, offset, maxSize, offset + h.headerSize + d.offset, d.entrySize, d.numEntries, parse);
  }

  lemma ContainedTables(a: seq<byte>, b: seq<byte>, offset: nat, h: MetadataHeader, maxSize: u32)
    requires Agree(a, b, offset, maxSize) && Contained(h, maxSize)
    ensures ReadTables(a, h, offset) == ReadTables(b, h, offset)
  {
    hide TableOf, Agree;
    TableLocal(a, b, offset, h, h.partitions, maxSize, ParsePartition);
    TableLocal(a, b, offset, h, h.extents, maxSize, ParseExtent);
    TableLocal(a, b, offset, h, h.groups, maxSize, ParseGroup);
    TableLocal(a, b, offset, h, h.blockDevices, maxSize, ParseDevice);
  }

  /** A contained copy loads the same from any disk that holds the same copy. */
  lemma CopyLocal(hash: Hash, a: seq<byte>, b: seq<byte>, offset: nat, maxSize: u32)
    requires Agree(a, b, offset, maxSize)
    requires var h := ValidatedHeader(hash, a, offset, maxSize); h.Ok? ==> Contained(h.value, maxSize)
    ensures var r, r' := ParseValidated(hash, a, offset, maxSize), ParseValidated(hash, b, offset, maxSize);
            (r.Ok? <==> r'.Ok?) && (r.Ok? ==>
                                    r == r' && ReadTables(a, r.value, offset) == ReadTables(b, r.value, offset))
  {
    hide ReadTables, ParseHeader, HeaderSealed, TableWithin;
    if maxSize >= MIN_HEADER {
      HeaderLocal(hash, a, b, offset, maxSize);
      var h := ValidatedHeader(hash, a, offset, maxSize);
      if h.Ok? {
        AgreeWithin(a, b, offset, maxSize, offset + h.value.headerSize, h.value.tablesSize);
        AgreeWithin(a, b, offset, maxSize, offset + 0x30, 0x20);
        ContainedTables(a, b, offset, h.value, maxSize);
      }
    }
  }

  // ------------------------------------------------------ slot isolation

  lemma OverwriteAgrees(disk: seq<byte>, at: nat, data: seq<byte>, from: nat, len: nat)
    requires from + len <= |disk| && (at + |data| <= from || from + len <= at)
    ensures Agree(disk, Overwrite(disk, at, data), from, len)
  {
    OverwriteEffect(disk, at, data);
  }

  /** Whatever part of an update reached the disk, only bytes of the slot's two copies differ. */
  lemma UpdateConfined(disk: seq<byte>, g: Geometry, slot: nat, blob: seq<byte>, k: nat, from: nat, len: nat)
    requires |blob| == g.metadataMaxSize && k <= 2 * |blob| && from + len <= |disk|
    requires forall i :: i in {slot, g.metadataSlotCount + slot} ==>
               from + len <= CopyBase(i, g.metadataMaxSize)
                   || CopyBase(i, g.metadataMaxSize) + g.metadataMaxSize <= from
    ensures Agree(disk, SlotAfterBytes(disk, g, slot, blob, k), from, len)
  {
    hide CopyBase, Overwrite;
    var primary, backup := CopyBase(slot, g.metadataMaxSize), CopyBase(g.metadataSlotCount + slot, g.metadataMaxSize);
    assert slot in {slot, g.metadataSlotCount + slot}
        && g.metadataSlotCount + slot in {slot, g.metadataSlotCount + slot};
    if k <= |blob| {
      OverwriteAgrees(disk, primary, blob[..k], from, len);
    } else {
      OverwriteAgrees(disk, primary, blob, from, len);
      OverwriteAgrees(Overwrite(disk, primary, blob), backup, blob[..k - |blob|], from, len);
    }
  }

  // A copy may describe bytes outside itself; these are the bytes it loads from.

  /** Disks of one length hold the same bytes in `[from, to)`. */
  ghost predicate SameOn(a: seq<byte>, b: seq<byte>, from: nat, to: nat)
    requires |a| == |b|
  {
    forall i :: from <= i < to && i < |a| ==> a[i] == b[i]
  }

  lemma SameSlice(a: seq<byte>, b: seq<byte>, from: nat, to: nat, lo: nat, hi: nat)
    requires |a| == |b| && SameOn(a, b, from, to) && from <= lo <= hi <= to && hi <= |a|
    ensures a[lo..hi] == b[lo..hi]
  {}

  lemma SameWithin(a: seq<byte>, b: seq<byte>, from: nat, to: nat, lo: nat, hi: nat)
    requires |a| == |b| && SameOn(a, b, from, to) && from <= lo && (hi <= to || |a| <= to)
    ensures SameOn(a, b, lo, hi)
  {}

  lemma {:induction false} EntriesSame<T>(a: seq<byte>, b: seq<byte>, base: nat, size: nat, count: nat,
                                          parse: seq<byte> -> Result<T>)
    requires |a| == |b| && SameOn(a, b, base, base + count * size)
    ensures ReadEntries(a, base, size, count, parse) == ReadEntries(b, base, size, count, parse)
    decreases count
  {
    hide SameOn;
    if count > 0 && base + size <= |a| {
      MulSucc(count - 1, size);
      MulMonotone(0, count - 1, size);
      SameSlice(a, b, base, base + count * size, base, base + size);
      SameWithin(a, b, base, base + count * size, base + size, base + size + (count - 1) * size);
      EntriesSame(a, b, base + size, size, count - 1, parse);
    }
  }

  function TableStart(h: MetadataHeader, offset: nat, d: TableDescriptor): nat {
    offset + h.headerSize + d.offset
  }

  function TableEnd(h: MetadataHeader, offset: nat, d: TableDescriptor): (r: nat)
    ensures TableStart(h, offset, d) <= r
  {
    MulMonotone(0, d.numEntries, d.entrySize);
    TableStart(h, offset, d) + d.numEntries * d.entrySize
  }

  /** The disks agree on the hashed table bytes and on the four tables a header describes. */
  ghost predicate SameTables(a: seq<byte>, b: seq<byte>, h: MetadataHeader, offset: nat)
    requires |a| == |b|
  {
    && SameOn(a, b, offset + h.headerSize, offset + h.headerSize + h.tablesSize)
    && forall d :: d in [h.partitions, h.extents, h.groups, h.blockDevices] ==>
         SameOn(a, b, TableStart(h, offset, d), TableEnd(h, offset, d))
  }

  lemma TableSame<T>(a: seq<byte>, b: seq<byte>, offset: nat, h: MetadataHeader, d: TableDescriptor,
                     parse: seq<byte> -> Result<T>)
    requires |a| == |b| && SameOn(a, b, TableStart(h, offset, d), TableEnd(h, offset, d))
    ensures TableOf(a, d, offset, h.headerSize, parse) == TableOf(b, d, offset, h.headerSize, parse)
  {
    hide SameOn;
    EntriesSame(a, b, offset + h.headerSize + d.offset, d.entrySize, d.numEntries, parse);
  }

  lemma TablesSame(a: seq<byte>, b: seq<byte>, h: MetadataHeader, offset: nat)
    requires |a| == |b| && SameTables(a, b, h, offset)
    ensures ReadTables(a, h, offset) == ReadTables(b, h, offset)
  {
    hide SameOn, TableOf;
    assert forall d :: d in [h.partitions, h.extents, h.groups, h.blockDevices] ==>
        SameOn(a, b, TableStart(h, offset, d), TableEnd(h, offset, d));
    TableSame(a, b, offset, h, h.partitions, ParsePartition);
    TableSame(a, b, offset, h, h.extents, ParseExtent);
    TableSame(a, b, offset, h, h.groups, ParseGroup);
    TableSame(a, b, offset, h, h.blockDevices, ParseDevice);
  }

  lemma HeaderSame(hash: Hash, a: seq<byte>, b: seq<byte>, offset: nat, maxSize: u32)
    requires |a| == |b| && SameOn(a, b, offset, offset + maxSize) && MIN_HEADER <= maxSize
    ensures ValidatedHeader(hash, a, offset, maxSize) == ValidatedHeader(hash, b, offset, maxSize)
  {
    hide U32Of, U16Of, ParseDescriptor, HeaderSealed, SameOn;
    if offset + MIN_HEADER <= |a| {
      SameSlice(a, b, offset, offset + maxSize, offset, offset + MIN_HEADER);
      var header := ParseHeader(a, offset);
      if header.Ok? && header.value.headerSize <= maxSize && offset + header.value.headerSize <= |a| {
        SameSlice(a, b, offset, offset + maxSize, offset, offset + header.value.headerSize);
      }
    }
  }

  /** A copy loads the same from disks that agree on the copy and on all that its header describes. */
  lemma CopySame(hash: Hash, a: seq<byte>, b: seq<byte>, offset: nat, maxSize: u32)
    requires |a| == |b| && SameOn(a, b, offset, offset + maxSize)
    requires var h := ValidatedHeader(hash, a, offset, maxSize); h.Ok? ==> SameTables(a, b, h.value, offset)
    ensures var r, r' := ParseValidated(hash, a, offset, maxSize), ParseValidated(hash, b, offset, maxSize);
            (r.Ok? <==> r'.Ok?) && (r.Ok? ==>
                                    r == r' && ReadTables(a, r.value, offset) == ReadTables(b, r.value, offset))
  {
    hide ReadTables, ParseHeader, HeaderSealed, SameOn;
    if maxSize >= MIN_HEADER {
      HeaderSame(hash, a, b, offset, maxSize);
      var h := ValidatedHeader(hash, a, offset, maxSize);
      if h.Ok? {
        TablesSame(a, b, h.value, offset);
        SameSlice(a, b, offset, offset + maxSize, offset + 0x30, offset + 0x50);
        var at := offset + h.value.headerSize;
        if at + h.value.tablesSize <= |a| {
          SameSlice(a, b, at, at + h.value.tablesSize, at, at + h.value.tablesSize);
        }
      }
    }
  }

  /** All that a copy describes lies behind its own base. */
  lemma CopyInTail(hash: Hash, a: seq<byte>, b: seq<byte>, offset: nat, maxSize: u32)
    requires |a| == |b| && SameOn(a, b, offset, |a|)
    ensures var r, r' := ParseValidated(hash, a, offset, maxSize), ParseValidated(hash, b, offset, maxSize);
            (r.Ok? <==> r'.Ok?) && (r.Ok? ==>
                                    r == r' && ReadTables(a, r.value, offset) == ReadTables(b, r.value, offset))
  {
    hide SameOn, ReadTables, ParseValidated, ValidatedHeader;
    SameWithin(a, b, offset, |a|, offset, offset + maxSize);
    var h := ValidatedHeader(hash, a, offset, maxSize);
    if h.Ok? {
      var at := offset + h.value.headerSize;
      SameWithin(a, b, offset, |a|, at, at + h.value.tablesSize);
      forall d | d in [h.value.partitions, h.value.extents, h.value.groups, h.value.blockDevices]
        ensures SameOn(a, b, TableStart(h.value, offset, d), TableEnd(h.value, offset, d))
      {
        SameWithin(a, b, offset, |a|, TableStart(h.value, offset, d), TableEnd(h.value, offset, d));
      }
    }
    CopySame(hash, a, b, offset, maxSize);
  }

  /** `[from, to)` meets neither copy of the slot. */
  ghost predicate MissesSlot(g: Geometry, slot: nat, from: nat, to: nat) {
    forall i :: i in {slot, g.metadataSlotCount + slot} ==>
      to <= CopyBase(i, g.metadataMaxSize) || CopyBase(i, g.metadataMaxSize) + g.metadataMaxSize <= from
  }

  /** Nothing a header describes lies in a copy of the slot. */
  ghost predicate DescribesNothingIn(h: MetadataHeader, offset: nat, g: Geometry, slot: nat) {
    && MissesSlot(g, slot, offset + h.headerSize, offset + h.headerSize + h.tablesSize)
    && forall d :: d in [h.partitions, h.extents, h.groups, h.blockDevices] ==>
         MissesSlot(g, slot, TableStart(h, offset, d), TableEnd(h, offset, d))
  }

  /** The `i`-th copy, if its header validates, describes nothing in a copy of the slot. */
  ghost predicate CopyMisses(hash: Hash, disk: seq<byte>, i: nat, g: Geometry, slot: nat) {
    var h := ValidatedHeader(hash, disk, CopyBase(i, g.metadataMaxSize), g.metadataMaxSize);
    h.Ok? ==> DescribesNothingIn(h.value, CopyBase(i, g.metadataMaxSize), g, slot)
  }

  /** Whatever part of an update reached the disk, bytes outside the slot's copies are the same. */
  lemma UpdateSame(disk: seq<byte>, g: Geometry, slot: nat, blob: seq<byte>, k: nat, from: nat, to: nat)
    requires GeometryInRange(g) && slot < g.metadataSlotCount && |blob| == g.metadataMaxSize && k <= 2 * |blob|
    requires MetadataEnd(g.metadataSlotCount, g.metadataMaxSize) <= |disk| && MissesSlot(g, slot, from, to)
    ensures var after := SlotAfterBytes(disk, g, slot, blob, k); |after| == |disk| && SameOn(disk, after, from, to)
  {
    hide CopyBase, Overwrite, MetadataEnd;
    var primary, backup := CopyBase(slot, g.metadataMaxSize), CopyBase(g.metadataSlotCount + slot, g.metadataMaxSize);
    OffsetsFit(g);
    SlotRegions(slot, g.metadataSlotCount, g.metadataMaxSize);
    assert slot in {slot, g.metadataSlotCount + slot}
        && g.metadataSlotCount + slot in {slot, g.metadataSlotCount + slot};
    if k <= |blob| {
      OverwriteEffect(disk, primary, blob[..k]);
    } else {
      OverwriteEffect(disk, primary, blob);
      OverwriteEffect(Overwrite(disk, primary, blob), backup, blob[..k - |blob|]);
    }
  }

  lemma CopyInArea(g: Geometry, i: nat)
    requires GeometryInRange(g) && i < 2 * g.metadataSlotCount
    ensures CopyBase(i, g.metadataMaxSize) + g.metadataMaxSize <= MetadataEnd(g.metadataSlotCount, g.metadataMaxSize)
  {
    OffsetsFit(g);
    if i < g.metadataSlotCount {
      SlotRegions(i, g.metadataSlotCount, g.metadataMaxSize);
    } else {
      SlotRegions(i - g.metadataSlotCount, g.metadataSlotCount, g.metadataMaxSize);
    }
  }

  ghost predicate CopyContained(hash: Hash, disk: seq<byte>, i: nat, maxSize: u32) {
    var h := ValidatedHeader(hash, disk, CopyBase(i, maxSize), maxSize);
    h.Ok? ==> Contained(h.value, maxSize)
  }

  /** Containment of a copy is a property of the copy. */
  lemma ContainedLocal(hash: Hash, a: seq<byte>, b: seq<byte>, i: nat, maxSize: u32)
    requires Agree(a, b, CopyBase(i, maxSize), maxSize) && CopyContained(hash, a, i, maxSize)
    ensures CopyContained(hash, b, i, maxSize)
  {
    hide CopyBase, Contained, HeaderSealed, ParseHeader, Agree;
    if maxSize >= MIN_HEADER {
      HeaderLocal(hash, a, b, CopyBase(i, maxSize), maxSize);
    }
  }

  lemma CopyTried(hash: Hash, a: seq<byte>, b: seq<byte>, offset: u64, maxSize: u32)
    requires |a| == |b| && SameOn(a, b, offset, offset + maxSize)
    requires var h := ValidatedHeader(hash, a, offset, maxSize); h.Ok? ==> SameTables(a, b, h.value, offset)
    ensures var r, r' := TryCopy(hash, a, Some(offset), maxSize), TryCopy(hash, b, Some(offset), maxSize);
            && (r.Ok? <==> r'.Ok?)
            && (r.Ok? ==>
                  r == r' && r.value.offset == offset
                  && ReadTables(a, r.value.header, offset) == ReadTables(b, r.value.header, offset))
  {
    hide ReadTables, SameOn, SameTables;
    CopySame(hash, a, b, offset, maxSize);
  }

  /** A copy of another slot, with its tables, is out of an update's reach. */
  lemma CopyOutOfReach(hash: Hash, disk: seq<byte>, g: Geometry, slot: nat, blob: seq<byte>, k: nat, i: nat)
    requires GeometryInRange(g) && MetadataEnd(g.metadataSlotCount, g.metadataMaxSize) <= |disk|
    requires slot < g.metadataSlotCount && |blob| == g.metadataMaxSize && k <= 2 * |blob|
    requires i != slot && i != g.metadataSlotCount + slot && CopyMisses(hash, disk, i, g, slot)
    ensures var after, base := SlotAfterBytes(disk, g, slot, blob, k), CopyBase(i, g.metadataMaxSize);
            && |after| == |disk| && SameOn(disk, after, base, base + g.metadataMaxSize)
            && var h := ValidatedHeader(hash, disk, base, g.metadataMaxSize); h.Ok? ==>
               SameTables(disk, after, h.value, base)
  {
    hide SlotAfterBytes, CopyBase, MetadataEnd, ValidatedHeader, SameOn;
    var base, max := CopyBase(i, g.metadataMaxSize), g.metadataMaxSize;
    CopiesApart(i, slot, max);
    CopiesApart(i, g.metadataSlotCount + slot, max);
    UpdateSame(disk, g, slot, blob, k, base, base + max);
    var h := ValidatedHeader(hash, disk, base, max);
    if h.Ok? {
      hide MissesSlot;
      var at := base + h.value.headerSize;
      UpdateSame(disk, g, slot, blob, k, at, at + h.value.tablesSize);
      forall d | d in [h.value.partitions, h.value.extents, h.value.groups, h.value.blockDevices]
        ensures SameOn(disk, SlotAfterBytes(disk, g, slot, blob, k), TableStart(h.value, base, d),
                       TableEnd(h.value, base, d))
      {
        UpdateSame(disk, g, slot, blob, k, TableStart(h.value, base, d), TableEnd(h.value, base, d));
      }
    }
  }

  /** A contained copy describes nothing in a copy of another slot. */
  lemma ContainedMisses(hash: Hash, disk: seq<byte>, g: Geometry, slot: nat, i: nat)
    requires i != slot && i != g.metadataSlotCount + slot && CopyContained(hash, disk, i, g.metadataMaxSize)
    ensures CopyMisses(hash, disk, i, g, slot)
  {
    hide CopyBase, ValidatedHeader;
    CopiesApart(i, slot, g.metadataMaxSize);
    CopiesApart(i, g.metadataSlotCount + slot, g.metadataMaxSize);
  }

  /** A slot loads from its copies and what they describe. */
  lemma SlotSame(hash: Hash, a: seq<byte>, b: seq<byte>, g: Geometry, slot: nat)
    requires GeometryInRange(g) && slot < g.metadataSlotCount && |a| == |b|
    requires forall i :: i in {slot, g.metadataSlotCount + slot} ==>
               var base := CopyBase(i, g.metadataMaxSize);
               && SameOn(a, b, base, base + g.metadataMaxSize)
               && var h := ValidatedHeader(hash, a, base, g.metadataMaxSize); h.Ok? ==> SameTables(a, b, h.value, base)
    ensures LoadSlot(hash, b, g, slot) == LoadSlot(hash, a, g, slot)
  {
    hide ReadTables, TryCopy, ValidatedHeader, SameOn, SameTables, CopyBase, MetadataEnd;
    OffsetsFit(g);
    SlotRegions(slot, g.metadataSlotCount, g.metadataMaxSize);
    assert slot in {slot, g.metadataSlotCount + slot}
        && g.metadataSlotCount + slot in {slot, g.metadataSlotCount + slot};
    CopyTried(hash, a, b, CopyBase(slot, g.metadataMaxSize), g.metadataMaxSize);
    CopyTried(hash, a, b, CopyBase(g.metadataSlotCount + slot, g.metadataMaxSize), g.metadataMaxSize);
  }

  /**
   Slot isolation: whatever part of an update of one slot reached the disk, every
   other slot loads exactly as before, as long as its headers describe nothing in the
   two copies being rewritten.
   */
  lemma SlotIsolation(hash: Hash, disk: seq<byte>, g: Geometry, slot: nat, other: nat, blob: seq<byte>, k: nat)
    requires GeometryInRange(g) && MetadataEnd(g.metadataSlotCount, g.metadataMaxSize) <= |disk|
    requires slot < g.metadataSlotCount && other < g.metadataSlotCount && slot != other
    requires |blob| == g.metadataMaxSize && k <= 2 * |blob|
    requires CopyMisses(hash, disk, other, g, slot) && CopyMisses(hash, disk, g.metadataSlotCount + other, g, slot)
    ensures LoadSlot(hash, SlotAfterBytes(disk, g, slot, blob, k), g, other) == LoadSlot(hash, disk, g, other)
  {
    hide LoadSlot, CopyMisses, SlotAfterBytes, CopyBase, MetadataEnd, SameOn, SameTables, ValidatedHeader;
    CopyOutOfReach(hash, disk, g, slot, blob, k, other);
    CopyOutOfReach(hash, disk, g, slot, blob, k, g.metadataSlotCount + other);
    SlotSame(hash, disk, SlotAfterBytes(disk, g, slot, blob, k), g, other);
  }

  // ------------------------------------------------------ crash atomicity

  /** No collision between two particular strings. */
  ghost predicate Distinct(hash: Hash, a: seq<byte>, b: seq<byte>) {
    hash(a) == hash(b) ==> a == b
  }

  /**
   The header bytes of a torn copy: the first `k` bytes of the new header, the rest
   of the old one. Both start with the same magic, versions and size. If the mix
   validates, it is the old header with nothing of the copy changed that matters,
   or the new header entirely.
   */
  lemma TornHeader(hash: Hash, oldHeader: seq<byte>, newHeader: seq<byte>, k: nat)
    requires |oldHeader| == |newHeader| >= MIN_HEADER && k <= |newHeader|
    requires oldHeader[..0x0C] == newHeader[..0x0C]
    requires HeaderSealed(hash, oldHeader) && HeaderSealed(hash, newHeader)
    requires var torn := newHeader[..k] + oldHeader[k..];
             HeaderSealed(hash, torn) && Distinct(hash, Unsealed(torn), Unsealed(newHeader))
    ensures newHeader[..k] + oldHeader[k..] == if k <= 0x2C then oldHeader else newHeader
  {
    var torn := newHeader[..k] + oldHeader[k..];
    if k <= 0x2C {
      assert torn[..0x0C] == oldHeader[..0x0C];
      assert torn[0x2C..] == oldHeader[0x2C..];
      assert Unsealed(torn) == Unsealed(oldHeader);
      Reassemble(torn);
      Reassemble(oldHeader);
    } else {
      assert torn[..0x2C] == newHeader[..0x2C];
      assert torn[0x0C..0x2C] == newHeader[0x0C..0x2C];
      assert Unsealed(torn) == Unsealed(newHeader);
      assert torn[0x2C..] == Unsealed(torn)[0x2C..] && newHeader[0x2C..] == Unsealed(newHeader)[0x2C..];
      Reassemble(torn);
      Reassemble(newHeader);
    }
  }

  lemma Reassemble(header: seq<byte>)
    requires |header| >= MIN_HEADER
    ensures header == header[..0x0C] + header[0x0C..0x2C] + header[0x2C..]
  {}

  /** Header bytes that parse to `h` start with exactly the bytes the writer puts there. */
  lemma StartIsDetermined(disk: seq<byte>, offset: nat, h: MetadataHeader)
    requires ParseHeader(disk, offset) == Ok(h)
    ensures offset + MIN_HEADER <= |disk| && disk[offset..offset + 0x0C] == HeaderStart(h)
  {
    hide ParseDescriptor;
    var data := disk[offset..offset + MIN_HEADER];
    LeInverse(data[0..4]); LeInverse(data[4..6]); LeInverse(data[6..8]); LeInverse(data[8..0x0C]);
    SliceOfSlice(disk, offset, offset + MIN_HEADER, 0, 0x0C);
    assert data[0..0x0C] == data[0..4] + data[4..6] + data[6..8] + data[8..0x0C];
  }

  /** The first 12 bytes fix the header size. */
  lemma SameStart(a: seq<byte>, b: seq<byte>, offset: nat)
    requires ParseHeader(a, offset).Ok? && ParseHeader(b, offset).Ok?
    requires a[offset..offset + 0x0C] == b[offset..offset + 0x0C]
    ensures ParseHeader(a, offset).value.headerSize == ParseHeader(b, offset).value.headerSize
  {
    hide ParseDescriptor, U32Of, U16Of;
    AgreeWithin(a, b, offset, 0x0C, offset + 8, 4);
    SliceOfSlice(a, offset, offset + MIN_HEADER, 8, 0x0C);
    SliceOfSlice(b, offset, offset + MIN_HEADER, 8, 0x0C);
  }

  lemma SealedIsSealed(hash: Hash, h: MetadataHeader, tablesChecksum: Digest)
    requires h.headerSize >= MIN_HEADER
    ensures HeaderSealed(hash, SealedHeader(hash, h, tablesChecksum))
    ensures SealedHeader(hash, h, tablesChecksum)[..0x0C] == HeaderStart(h)
  {
    hide HeaderStart, HeaderRest;
    var b := SealedHeader(hash, h, tablesChecksum);
    assert Unsealed(b) == HeaderBytes(h, Zeros(32), tablesChecksum);
  }

  /** Both copies of the slot are valid and load the same header and tables. */
  ghost predicate GoodSlot(hash: Hash, disk: seq<byte>, g: Geometry, slot: nat, h: MetadataHeader, t: Tables) {
    && slot < g.metadataSlotCount && MetadataEnd(g.metadataSlotCount, g.metadataMaxSize) <= |disk| <= U64_MAX
    && GoodCopy(hash, disk, CopyBase(slot, g.metadataMaxSize), g.metadataMaxSize, h, t)
    && GoodCopy(hash, disk, CopyBase(g.metadataSlotCount + slot, g.metadataMaxSize), g.metadataMaxSize, h, t)
  }

  ghost predicate GoodCopy(hash: Hash, disk: seq<byte>, offset: nat, maxSize: u32, h: MetadataHeader, t: Tables) {
    ParseValidated(hash, disk, offset, maxSize) == Ok(h) && ReadTables(disk, h, offset) == Ok(t)
  }

  /** The two strings a torn primary hashes do not collide with the two the new copy hashes. */
  ghost predicate NoCollision(hash: Hash, after: seq<byte>, offset: nat, h: MetadataHeader, t: Tables) {
    && Serializable(t) && MIN_HEADER <= h.headerSize && offset + h.headerSize + TablesSize(t) <= |after|
    && Distinct(hash, Unsealed(after[offset..offset + h.headerSize]),
                Unsealed(SealedHeader(hash, HeaderFor(h, t), hash(TablesBlob(t)))))
    && Distinct(hash, after[offset + h.headerSize..offset + h.headerSize + TablesSize(t)], TablesBlob(t))
  }

  lemma TornBytes(disk: seq<byte>, offset: nat, blob: seq<byte>, k: nat, len: nat)
    requires offset + |blob| <= |disk| && k <= |blob| && len <= |blob|
    ensures var after := Overwrite(disk, offset, blob[..k]);
            && |after| == |disk|
            && after[offset..offset + len] == blob[..len][..Min(k, len)] + disk[offset..offset + len][Min(k, len)..]
            && forall i :: offset + k <= i < |disk| ==> after[i] == disk[i]
  {
    hide Overwrite;
    OverwriteEffect(disk, offset, blob[..k]);
    var after := Overwrite(disk, offset, blob[..k]);
    var torn := blob[..len][..Min(k, len)] + disk[offset..offset + len][Min(k, len)..];
    assert |after[offset..offset + len]| == len == |torn|;
    forall i | 0 <= i < len ensures after[offset..offset + len][i] == torn[i] {
      assert after[offset + i] == if i < k then blob[i] else disk[offset + i];
    }
  }

  lemma RenderedSizes(h: MetadataHeader, t: Tables, maxSize: u32)
    requires Renderable(h, t, maxSize)
    ensures Serializable(t) && h.headerSize + TablesSize(t) <= maxSize
    ensures var h' := HeaderFor(h, t);
            h'.headerSize == h.headerSize && MIN_HEADER <= h.headerSize <= MAX_HEADER
                && h'.tablesSize == TablesSize(t) <= MAX_TABLES
  {}

  /** With the new header in place, valid tables are the new tables. */
  lemma NewHeaderNewTables(hash: Hash, after: seq<byte>, offset: nat, maxSize: u32, h: MetadataHeader, t: Tables)
    requires Renderable(h, t, maxSize) && StorableNames(t) && |after| <= U64_MAX && offset + maxSize <= |after|
    requires At(after, offset, SealedHeader(hash, HeaderFor(h, t), hash(TablesBlob(t))))
    requires Distinct(hash, after[offset + h.headerSize..offset + h.headerSize + TablesSize(t)], TablesBlob(t))
    ensures var r := ParseValidated(hash, after, offset, maxSize);
            r.Ok? ==> ReadTables(after, r.value, offset) == Ok(t)
  {
    hide ReadTables, TablesBlob, SealedHeader, ValidatedHeader, StorableNames, Serializable, TablesSize, HeaderFor;
    var h' := HeaderFor(h, t);
    RenderedSizes(h, t, maxSize);
    SealedValidates(hash, after, offset, h', hash(TablesBlob(t)), maxSize);
    TablesBlobSize(t);
    var r := ParseValidated(hash, after, offset, maxSize);
    if r.Ok? {
      var at := offset + h.headerSize;
      assert after[at..at + 0] == [];
      assert after[at..at + TablesSize(t)] == TablesBlob(t);
      TablesRoundTrip(after, offset, h, t);
    }
  }

  /** The torn header is the old or the new one. */
  lemma TornCopyHeader(hash: Hash, disk: seq<byte>, offset: nat, maxSize: u32, h: MetadataHeader, sealed: seq<byte>,
                       blob: seq<byte>, k: nat)
    requires offset + maxSize <= |disk| && |blob| == maxSize && k <= maxSize
    requires ValidatedHeader(hash, disk, offset, maxSize) == Ok(h)
    requires |sealed| == h.headerSize && blob[..h.headerSize] == sealed
    requires HeaderSealed(hash, sealed) && sealed[..0x0C] == HeaderStart(h)
    requires var after := Overwrite(disk, offset, blob[..k]);
             && offset + h.headerSize <= |after| && ValidatedHeader(hash, after, offset, maxSize).Ok?
             && Distinct(hash, Unsealed(after[offset..offset + h.headerSize]), Unsealed(sealed))
    ensures Overwrite(disk, offset, blob[..k])[offset..offset + h.headerSize]
            == if k <= 0x2C then disk[offset..offset + h.headerSize] else sealed
  {
    hide ParseHeader, HeaderSealed, Unsealed, HeaderStart, Overwrite;
    var after, hs := Overwrite(disk, offset, blob[..k]), h.headerSize;
    StartIsDetermined(disk, offset, h);
    TornBytes(disk, offset, blob, k, hs);
    TornBytes(disk, offset, blob, k, 0x0C);
    assert blob[..0x0C] == sealed[..0x0C];
    assert after[offset..offset + 0x0C] == disk[offset..offset + 0x0C];
    SameStart(disk, after, offset);
    SliceOfSlice(disk, offset, offset + hs, 0, 0x0C);
    TornHeader(hash, disk[offset..offset + hs], sealed, Min(k, hs));
  }

  /** A torn primary copy that still validates loads the old or the new tables. */
  lemma TornCopy(hash: Hash, disk: seq<byte>, offset: nat, maxSize: u32, h: MetadataHeader, tOld: Tables, tNew: Tables,
                 k: nat)
    requires offset + maxSize <= |disk| <= U64_MAX && k <= maxSize
    requires GoodCopy(hash, disk, offset, maxSize, h, tOld) && Renderable(h, tNew, maxSize) && StorableNames(tNew)
    requires var after := Overwrite(disk, offset, SlotBytes(hash, h, tNew, maxSize)[..k]);
             NoCollision(hash, after, offset, h, tNew)
    ensures var after := Overwrite(disk, offset, SlotBytes(hash, h, tNew, maxSize)[..k]);
            var r := ParseValidated(hash, after, offset, maxSize);
            r.Ok? ==> ReadTables(after, r.value, offset) in {Ok(tOld), Ok(tNew)}
  {
    hide ReadTables, HeaderSealed, Unsealed, TablesBlob, SealedHeader, HeaderStart, ValidatedHeader, TablesSealed,
      SlotBytes, TablesSize;
    hide Contained, StorableNames, Overwrite, HeaderFor, Serializable, ParseHeader;
    var blob, sealed := SlotBytes(hash, h, tNew, maxSize),
        SealedHeader(hash, HeaderFor(h, tNew), hash(TablesBlob(tNew)));
    var after := Overwrite(disk, offset, blob[..k]);
    if ParseValidated(hash, after, offset, maxSize).Ok? {
      var hs := h.headerSize;
      TornBytes(disk, offset, blob, k, hs);
      SealedFirst(hash, h, tNew, maxSize);
      SealedIsSealed(hash, HeaderFor(h, tNew), hash(TablesBlob(tNew)));
      StartKept(h, tNew);
      TornCopyHeader(hash, disk, offset, maxSize, h, sealed, blob, k);
      if k <= 0x2C {
        OldHeaderOldTables(hash, disk, after, offset, maxSize, h, tOld, k);
      } else {
        NewHeaderNewTables(hash, after, offset, maxSize, h, tNew);
      }
    }
  }

  /** With the old header and nothing behind it changed, the copy still loads the old tables. */
  lemma OldHeaderOldTables(hash: Hash, disk: seq<byte>, after: seq<byte>, offset: nat, maxSize: u32, h: MetadataHeader,
                           t: Tables, k: nat)
    requires GoodCopy(hash, disk, offset, maxSize, h, t)
    requires |after| == |disk| && offset + maxSize <= |disk| && k <= 0x2C
    requires forall i :: offset + k <= i < |disk| ==> after[i] == disk[i]
    requires after[offset..offset + h.headerSize] == disk[offset..offset + h.headerSize]
    ensures ParseValidated(hash, after, offset, maxSize) == Ok(h) && ReadTables(after, h, offset) == Ok(t)
  {
    hide ReadTables, ParseValidated;
    SameFromBase(disk, after, offset, h.headerSize, k);
    CopyInTail(hash, disk, after, offset, maxSize);
  }

  lemma SealedFirst(hash: Hash, h: MetadataHeader, t: Tables, maxSize: u32)
    requires Renderable(h, t, maxSize)
    ensures SlotBytes(hash, h, t, maxSize)[..h.headerSize] == SealedHeader(hash, HeaderFor(h, t), hash(TablesBlob(t)))
  {
    hide SealedHeader, TablesBlob;
    TablesBlobSize(t);
  }

  lemma StartKept(h: MetadataHeader, t: Tables)
    requires Serializable(t)
    ensures HeaderStart(HeaderFor(h, t)) == HeaderStart(h)
  {}

  /** Equal headers and equal bytes behind them. */
  lemma SameFromBase(disk: seq<byte>, after: seq<byte>, offset: nat, hs: nat, k: nat)
    requires |after| == |disk| && offset + hs <= |disk| && k <= hs
    requires forall i :: offset + k <= i < |disk| ==> after[i] == disk[i]
    requires after[offset..offset + hs] == disk[offset..offset + hs]
    ensures SameOn(disk, after, offset, |disk|)
  {
    forall i | offset <= i < |disk| ensures after[i] == disk[i] {
      if i < offset + hs {
        assert after[i] == after[offset..offset + hs][i - offset];
        assert disk[i] == disk[offset..offset + hs][i - offset];
      }
    }
  }

  lemma PrimaryComplete(disk: seq<byte>, g: Geometry, slot: nat, blob: seq<byte>, k: nat)
    requires GeometryInRange(g) && slot < g.metadataSlotCount && |blob| == g.metadataMaxSize <= k <= 2 * |blob|
    requires MetadataEnd(g.metadataSlotCount, g.metadataMaxSize) <= |disk|
    ensures var after := SlotAfterBytes(disk, g, slot, blob, k);
            |after| == |disk| && At(after, CopyBase(slot, g.metadataMaxSize), blob)
  {
    hide CopyBase;
    var primary, backup := CopyBase(slot, g.metadataMaxSize), CopyBase(g.metadataSlotCount + slot, g.metadataMaxSize);
    OffsetsFit(g);
    SlotRegions(slot, g.metadataSlotCount, g.metadataMaxSize);
    var full := Overwrite(disk, primary, blob);
    assert blob[..|blob|] == blob;
    OverwriteEffect(disk, primary, blob);
    assert At(full, primary, blob);
    if k > |blob| {
      OverwriteAgrees(full, backup, blob[..k - |blob|], primary, |blob|);
    }
  }

  lemma ValidatedFits(hash: Hash, disk: seq<byte>, offset: nat, maxSize: u32)
    requires ParseValidated(hash, disk, offset, maxSize).Ok?
    ensures offset + MIN_HEADER <= |disk|
  {}

  /** A write in front of a copy that does not reach it. */
  lemma BackupUntouched(disk: seq<byte>, at: nat, data: seq<byte>, base: nat)
    requires at + |data| <= base <= |disk|
    ensures |Overwrite(disk, at, data)| == |disk| && SameOn(disk, Overwrite(disk, at, data), base, |disk|)
  {
    OverwriteEffect(disk, at, data);
  }

  lemma BackupSurvives(hash: Hash, disk: seq<byte>, after: seq<byte>, offset: nat, maxSize: u32, h: MetadataHeader,
                       t: Tables)
    requires GoodCopy(hash, disk, offset, maxSize, h, t) && |disk| == |after| && SameOn(disk, after, offset, |disk|)
    ensures ParseValidated(hash, after, offset, maxSize) == Ok(h) && ReadTables(after, h, offset) == Ok(t)
    ensures offset + MIN_HEADER <= |after|
  {
    hide ReadTables, SameOn;
    CopyInTail(hash, disk, after, offset, maxSize);
  }

  /** Loading the slot yields exactly these tables. */
  ghost predicate LoadsAs(hash: Hash, disk: seq<byte>, g: Geometry, slot: nat, t: Tables) {
    slot <= U64_MAX && var r := LoadSlot(hash, disk, g, slot); r.Ok? && r.value.tables == t
  }

  /** The disk after `k` bytes of an update of `slot` to the tables `t`. */
  ghost function CrashDisk(hash: Hash, disk: seq<byte>, g: Geometry, slot: nat, h: MetadataHeader, t: Tables,
                           k: nat): seq<byte>
    requires Renderable(h, t, g.metadataMaxSize) && k <= 2 * g.metadataMaxSize
  {
    SlotAfterBytes(disk, g, slot, SlotBytes(hash, h, t, g.metadataMaxSize), k)
  }

  /** A validated primary copy is what the slot loads. */
  lemma PrimaryLoads(hash: Hash, disk: seq<byte>, g: Geometry, slot: nat, h: MetadataHeader, t: Tables)
    requires GeometryInRange(g) && slot < g.metadataSlotCount
    requires ParseValidated(hash, disk, CopyBase(slot, g.metadataMaxSize), g.metadataMaxSize) == Ok(h)
    requires ReadTables(disk, h, CopyBase(slot, g.metadataMaxSize)) == Ok(t)
    ensures LoadsAs(hash, disk, g, slot, t)
  {
    hide ReadTables, ParseValidated, CopyBase, MetadataEnd;
    OffsetsFit(g);
    SlotRegions(slot, g.metadataSlotCount, g.metadataMaxSize);
    ValidatedFits(hash, disk, CopyBase(slot, g.metadataMaxSize), g.metadataMaxSize);
  }

  /** Without a valid primary, a validated backup is what the slot loads. */
  lemma BackupLoads(hash: Hash, disk: seq<byte>, g: Geometry, slot: nat, h: MetadataHeader, t: Tables)
    requires GeometryInRange(g) && slot < g.metadataSlotCount
    requires ParseValidated(hash, disk, CopyBase(slot, g.metadataMaxSize), g.metadataMaxSize).Err?
    requires ParseValidated(hash, disk, CopyBase(g.metadataSlotCount + slot, g.metadataMaxSize), g.metadataMaxSize)
             == Ok(h)
    requires ReadTables(disk, h, CopyBase(g.metadataSlotCount + slot, g.metadataMaxSize)) == Ok(t)
    ensures LoadsAs(hash, disk, g, slot, t)
  {
    hide ReadTables, ParseValidated, CopyBase, MetadataEnd;
    OffsetsFit(g);
    SlotRegions(slot, g.metadataSlotCount, g.metadataMaxSize);
    ValidatedFits(hash, disk, CopyBase(g.metadataSlotCount + slot, g.metadataMaxSize), g.metadataMaxSize);
  }

  /**
   Such a slot can be loaded but not updated: what was loaded carries the backup's
   offset, which names no slot, so `WriteMetadata` refuses it until the primary is valid again.
   */
  lemma BackupLoadedIsStuck(hash: Hash, disk: seq<byte>, g: Geometry, slot: nat)
    requires GeometryInRange(g) && slot < g.metadataSlotCount
    requires ParseValidated(hash, disk, CopyBase(slot, g.metadataMaxSize), g.metadataMaxSize).Err?
    requires LoadSlot(hash, disk, g, slot).Ok?
    ensures var loaded := LoadSlot(hash, disk, g, slot).value;
            loaded.offset == CopyBase(g.metadataSlotCount + slot, g.metadataMaxSize)
                && TargetSlot(g, loaded.offset) == None
  {
    hide ReadTables, ParseValidated, CopyBase, MetadataEnd;
    OffsetsFit(g);
    SlotRegions(slot, g.metadataSlotCount, g.metadataMaxSize);
    BackupOffsetRefused(g, slot);
  }

  /** Once the primary is complete, the slot loads the new tables. */
  lemma CompletePrimaryLoads(hash: Hash, disk: seq<byte>, g: Geometry, slot: nat, h: MetadataHeader, t: Tables, k: nat)
    requires GeometryInRange(g) && slot < g.metadataSlotCount
    requires MetadataEnd(g.metadataSlotCount, g.metadataMaxSize) <= |disk| <= U64_MAX
    requires Renderable(h, t, g.metadataMaxSize) && StorableNames(t) && g.metadataMaxSize <= k <= 2 * g.metadataMaxSize
    ensures LoadsAs(hash, CrashDisk(hash, disk, g, slot, h, t, k), g, slot, t)
  {
    hide SlotBytes, SlotAfterBytes, LoadsAs, CopyBase, HeaderFor, MetadataEnd, ParseValidated, ReadTables,
      StorableNames;
    var blob, after := SlotBytes(hash, h, t, g.metadataMaxSize), CrashDisk(hash, disk, g, slot, h, t, k);
    PrimaryComplete(disk, g, slot, blob, k);
    SlotRoundTrip(hash, after, CopyBase(slot, g.metadataMaxSize), h, t, g.metadataMaxSize);
    PrimaryLoads(hash, after, g, slot, HeaderFor(h, t), t);
  }

  /** While the primary is being written, the slot loads the old or the new tables. */
  lemma TornPrimaryLoads(hash: Hash, disk: seq<byte>, g: Geometry, slot: nat, h: MetadataHeader, tOld: Tables,
                         tNew: Tables, k: nat)
    requires GeometryInRange(g) && GoodSlot(hash, disk, g, slot, h, tOld)
    requires Renderable(h, tNew, g.metadataMaxSize) && StorableNames(tNew) && k < g.metadataMaxSize
    requires NoCollision(hash, CrashDisk(hash, disk, g, slot, h, tNew, k), CopyBase(slot, g.metadataMaxSize), h, tNew)
    ensures var after := CrashDisk(hash, disk, g, slot, h, tNew, k);
            LoadsAs(hash, after, g, slot, tOld) || LoadsAs(hash, after, g, slot, tNew)
  {
    hide ReadTables, ParseValidated, SlotBytes, NoCollision, Renderable, CopyBase, LoadsAs, HeaderFor, MetadataEnd,
      StorableNames, Overwrite, GoodCopy, SameOn;
    var max, blob := g.metadataMaxSize, SlotBytes(hash, h, tNew, g.metadataMaxSize);
    var primary, backup := CopyBase(slot, max), CopyBase(g.metadataSlotCount + slot, max);
    OffsetsFit(g);
    SlotRegions(slot, g.metadataSlotCount, max);
    var after := CrashDisk(hash, disk, g, slot, h, tNew, k);
    assert after == Overwrite(disk, primary, blob[..k]);
    TornCopy(hash, disk, primary, max, h, tOld, tNew, k);
    var r := ParseValidated(hash, after, primary, max);
    if r.Ok? {
      var t := ReadTables(after, r.value, primary).value;
      PrimaryLoads(hash, after, g, slot, r.value, t);
    } else {
      BackupUntouched(disk, primary, blob[..k], backup);
      BackupSurvives(hash, disk, after, backup, max, h, tOld);
      BackupLoads(hash, after, g, slot, h, tOld);
    }
  }

  /**
   Crash atomicity. If both copies of a slot are valid and equal, then after any prefix of the
   bytes an update writes, torn anywhere, the slot loads exactly the old or the new
   tables: the old ones if nothing was written, the new ones once the primary is
   complete. The hash only has to be free of collisions on the torn strings.
   */
  lemma CrashAtomic(hash: Hash, disk: seq<byte>, g: Geometry, slot: nat, h: MetadataHeader, tOld: Tables, tNew: Tables,
                    k: nat)
    requires GeometryInRange(g) && GoodSlot(hash, disk, g, slot, h, tOld)
    requires Renderable(h, tNew, g.metadataMaxSize) && StorableNames(tNew) && k <= 2 * g.metadataMaxSize
    requires k < g.metadataMaxSize ==>
               NoCollision(hash, CrashDisk(hash, disk, g, slot, h, tNew, k), CopyBase(slot, g.metadataMaxSize), h, tNew)
    ensures var after := CrashDisk(hash, disk, g, slot, h, tNew, k);
            && (LoadsAs(hash, after, g, slot, tOld) || LoadsAs(hash, after, g, slot, tNew))
            && (k == 0 ==> LoadsAs(hash, after, g, slot, tOld))
            && (k >= g.metadataMaxSize ==> LoadsAs(hash, after, g, slot, tNew))
  {
    hide ParseValidated, ReadTables, SlotBytes, NoCollision, Renderable, Contained, CopyBase, LoadsAs;
    if k >= g.metadataMaxSize {
      CompletePrimaryLoads(hash, disk, g, slot, h, tNew, k);
    } else {
      TornPrimaryLoads(hash, disk, g, slot, h, tOld, tNew, k);
      if k == 0 {
        assert SlotBytes(hash, h, tNew, g.metadataMaxSize)[..0] == [];
        PrimaryLoads(hash, disk, g, slot, h, tOld);
      }
    }
  }

  // ---------------------------------------------------------- two crashes

  /** The new header over the old tables of the same size, whose checksums differ, does not validate. */
  lemma MixedCopyFails(hash: Hash, disk: seq<byte>, offset: nat, maxSize: u32, h: MetadataHeader, tOld: Tables,
                       tNew: Tables)
    requires Renderable(h, tNew, maxSize) && TablesSize(tOld) == TablesSize(tNew)
    requires hash(TablesBlob(tOld)) != hash(TablesBlob(tNew))
    requires At(disk, offset, SealedHeader(hash, HeaderFor(h, tNew), hash(TablesBlob(tNew))))
    requires At(disk, offset + h.headerSize, TablesBlob(tOld))
    ensures ParseValidated(hash, disk, offset, maxSize).Err?
  {
    hide SealedHeader, TablesBlob, Serializable, HeaderFor, ValidatedHeader, TablesSize;
    RenderedSizes(h, tNew, maxSize);
    TablesBlobSize(tOld);
    TablesBlobSize(tNew);
    SealedValidates(hash, disk, offset, HeaderFor(h, tNew), hash(TablesBlob(tNew)), maxSize);
  }

  /** A disk that holds one rendered copy, and the start of another over it. */
  lemma TornOverCopy(hash: Hash, disk: seq<byte>, offset: nat, maxSize: u32, h: MetadataHeader, tOld: Tables,
                     tNew: Tables)
    requires Renderable(h, tOld, maxSize) && Renderable(h, tNew, maxSize)
    requires At(disk, offset, SlotBytes(hash, h, tOld, maxSize))
    ensures h.headerSize <= |SlotBytes(hash, h, tNew, maxSize)|
    ensures var after := Overwrite(disk, offset, SlotBytes(hash, h, tNew, maxSize)[..h.headerSize]);
            && At(after, offset, SealedHeader(hash, HeaderFor(h, tNew), hash(TablesBlob(tNew))))
            && At(after, offset + h.headerSize, TablesBlob(tOld))
  {
    hide Overwrite, TablesBlob, Serializable, HeaderFor, TablesSize;
    RenderedSizes(h, tNew, maxSize);
    SlotParts(hash, disk, offset, h, tOld, maxSize);
    SlotStart(hash, h, tNew, maxSize);
    var part, n := SlotBytes(hash, h, tNew, maxSize)[..h.headerSize], |TablesBlob(tOld)|;
    OverwriteEffect(disk, offset, part);
    var after := Overwrite(disk, offset, part);
    assert after[offset..offset + h.headerSize] == part;
    assert after[offset + h.headerSize..offset + h.headerSize + n]
        == disk[offset + h.headerSize..offset + h.headerSize + n];
  }

  lemma SlotStart(hash: Hash, h: MetadataHeader, t: Tables, maxSize: u32)
    requires Renderable(h, t, maxSize)
    ensures var header := SealedHeader(hash, HeaderFor(h, t), hash(TablesBlob(t)));
            |header| == h.headerSize <= |SlotBytes(hash, h, t, maxSize)|
                && SlotBytes(hash, h, t, maxSize)[..h.headerSize] == header
  {
    hide SealedHeader, TablesBlob;
  }

  /**
   Crash atomicity needs both copies to be equal. Over a backup that still holds `t0`, an update to
   `t1` that stops behind the primary loads `t1`; a next one, to tables of the same size, that stops
   behind the header of the primary loads `t0` again, which is neither its old nor its new table.
   */
  lemma SecondCrashGoesBack(hash: Hash, disk: seq<byte>, g: Geometry, slot: nat, h0: MetadataHeader, t0: Tables,
                            h: MetadataHeader, t1: Tables, t2: Tables)
    requires GeometryInRange(g) && GoodSlot(hash, disk, g, slot, h0, t0)
    requires Renderable(h, t1, g.metadataMaxSize) && StorableNames(t1) && Renderable(h, t2, g.metadataMaxSize)
    requires TablesSize(t1) == TablesSize(t2) && hash(TablesBlob(t1)) != hash(TablesBlob(t2))
    ensures var once := CrashDisk(hash, disk, g, slot, h, t1, g.metadataMaxSize);
            var twice := CrashDisk(hash, once, g, slot, h, t2, h.headerSize);
            LoadsAs(hash, once, g, slot, t1) && LoadsAs(hash, twice, g, slot, t0)
  {
    hide SlotBytes, TablesBlob, LoadsAs, CopyBase, Serializable, TablesSize, MetadataEnd, StorableNames, SlotAfterBytes;
    var max := g.metadataMaxSize;
    var once := CrashDisk(hash, disk, g, slot, h, t1, max);
    CompletePrimaryLoads(hash, disk, g, slot, h, t1, max);
    PrimaryComplete(disk, g, slot, SlotBytes(hash, h, t1, max), max);
    FirstTearKeepsBackup(disk, g, slot, SlotBytes(hash, h, t1, max), max);
    SecondTear(hash, disk, once, g, slot, h0, t0, h, t1, t2);
  }

  /** While the primary is written, nothing from the backup on changes. */
  lemma FirstTearKeepsBackup(disk: seq<byte>, g: Geometry, slot: nat, blob: seq<byte>, k: nat)
    requires GeometryInRange(g) && slot < g.metadataSlotCount && k <= |blob| == g.metadataMaxSize
    requires MetadataEnd(g.metadataSlotCount, g.metadataMaxSize) <= |disk|
    ensures |SlotAfterBytes(disk, g, slot, blob, k)| == |disk|
    ensures SameOn(disk, SlotAfterBytes(disk, g, slot, blob, k),
                   CopyBase(g.metadataSlotCount + slot, g.metadataMaxSize), |disk|)
  {
    hide Overwrite, CopyBase, SameOn, MetadataEnd;
    OffsetsFit(g);
    SlotRegions(slot, g.metadataSlotCount, g.metadataMaxSize);
    BackupUntouched(disk, CopyBase(slot, g.metadataMaxSize), blob[..k],
                    CopyBase(g.metadataSlotCount + slot, g.metadataMaxSize));
  }

  lemma SecondTear(hash: Hash, disk: seq<byte>, once: seq<byte>, g: Geometry, slot: nat, h0: MetadataHeader, t0: Tables,
                   h: MetadataHeader, t1: Tables, t2: Tables)
    requires GeometryInRange(g) && GoodSlot(hash, disk, g, slot, h0, t0) && |once| == |disk|
    requires SameOn(disk, once, CopyBase(g.metadataSlotCount + slot, g.metadataMaxSize), |disk|)
    requires Renderable(h, t1, g.metadataMaxSize) && Renderable(h, t2, g.metadataMaxSize)
    requires At(once, CopyBase(slot, g.metadataMaxSize), SlotBytes(hash, h, t1, g.metadataMaxSize))
    requires TablesSize(t1) == TablesSize(t2) && hash(TablesBlob(t1)) != hash(TablesBlob(t2))
    ensures LoadsAs(hash, CrashDisk(hash, once, g, slot, h, t2, h.headerSize), g, slot, t0)
  {
    hide SlotBytes, TablesBlob, ParseValidated, GoodSlot, LoadsAs, CopyBase, HeaderFor, Overwrite, TablesSize,
      Serializable, MetadataEnd, At, SameOn;
    var max, backup := g.metadataMaxSize, CopyBase(g.metadataSlotCount + slot, g.metadataMaxSize);
    RenderedSizes(h, t2, max);
    GoodSlotFits(hash, disk, g, slot, h0, t0);
    var twice := CrashDisk(hash, once, g, slot, h, t2, h.headerSize);
    FirstTearKeepsBackup(once, g, slot, SlotBytes(hash, h, t2, max), h.headerSize);
    SameOnTrans(disk, once, twice, backup);
    SecondTearFails(hash, once, CopyBase(slot, max), max, h, t1, t2);
    TornBackupLoads(hash, disk, twice, g, slot, h0, t0);
  }

  lemma GoodSlotFits(hash: Hash, disk: seq<byte>, g: Geometry, slot: nat, h: MetadataHeader, t: Tables)
    requires GoodSlot(hash, disk, g, slot, h, t)
    ensures slot < g.metadataSlotCount && MetadataEnd(g.metadataSlotCount, g.metadataMaxSize) <= |disk| <= U64_MAX
  {
    hide GoodCopy;
  }

  /** An invalid primary in front of an unchanged backup: the slot loads what it held. */
  lemma TornBackupLoads(hash: Hash, disk: seq<byte>, after: seq<byte>, g: Geometry, slot: nat, h: MetadataHeader,
                        t: Tables)
    requires GeometryInRange(g) && GoodSlot(hash, disk, g, slot, h, t) && |disk| == |after|
    requires SameOn(disk, after, CopyBase(g.metadataSlotCount + slot, g.metadataMaxSize), |disk|)
    requires ParseValidated(hash, after, CopyBase(slot, g.metadataMaxSize), g.metadataMaxSize).Err?
    ensures LoadsAs(hash, after, g, slot, t)
  {
    hide ParseValidated, ValidatedHeader, TablesSealed, HeaderSealed, ParseHeader, ReadTables, LoadsAs, CopyBase,
      SameOn, MetadataEnd, GoodCopy;
    BackupSurvives(hash, disk, after, CopyBase(g.metadataSlotCount + slot, g.metadataMaxSize), g.metadataMaxSize, h, t);
    BackupLoads(hash, after, g, slot, h, t);
  }

  lemma SecondTearFails(hash: Hash, disk: seq<byte>, offset: nat, maxSize: u32, h: MetadataHeader, tOld: Tables,
                        tNew: Tables)
    requires Renderable(h, tOld, maxSize) && Renderable(h, tNew, maxSize)
             && At(disk, offset, SlotBytes(hash, h, tOld, maxSize))
    requires TablesSize(tOld) == TablesSize(tNew) && hash(TablesBlob(tOld)) != hash(TablesBlob(tNew))
    ensures h.headerSize <= |SlotBytes(hash, h, tNew, maxSize)|
    ensures ParseValidated(hash, Overwrite(disk, offset, SlotBytes(hash, h, tNew, maxSize)[..h.headerSize]), offset,
                           maxSize).Err?
  {
    hide SlotBytes, TablesBlob, SealedHeader, ParseValidated, Renderable, HeaderFor, Overwrite, TablesSize, At;
    TornOverCopy(hash, disk, offset, maxSize, h, tOld, tNew);
    var after := Overwrite(disk, offset, SlotBytes(hash, h, tNew, maxSize)[..h.headerSize]);
    MixedCopyFails(hash, after, offset, maxSize, h, tOld, tNew);
  }

  lemma SameOnTrans(a: seq<byte>, b: seq<byte>, c: seq<byte>, from: nat)
    requires |a| == |b| == |c| && SameOn(a, b, from, |a|) && SameOn(b, c, from, |b|)
    ensures SameOn(a, c, from, |a|)
  {}
}
