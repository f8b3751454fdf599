/**
 Slots over whole runs of updates: what each slot loads after any sequence of
 metadata writes, and why that needs headers that describe nothing outside their
 own copy.
 */
module MetadataIsolation {
  import opened Base
  import opened Format
  import opened MetadataCodec
  import opened MetadataReader
  import opened MetadataSlot
  import opened MetadataStore
  import opened SparseImage

  /** One successful metadata write. */
  datatype Update = Update(slot: u64, header: MetadataHeader, tables: Tables)

  ghost predicate CanWrite(u: Update, g: Geometry) {
    u.slot < g.metadataSlotCount && Renderable(u.header, u.tables, g.metadataMaxSize) && StorableNames(u.tables)
  }

  ghost function AfterUpdate(hash: Hash, disk: seq<byte>, g: Geometry, u: Update): seq<byte>
    requires CanWrite(u, g)
  {
    SlotAfterBytes(disk, g, u.slot, SlotBytes(hash, u.header, u.tables, g.metadataMaxSize), 2 * g.metadataMaxSize)
  }

  ghost function AfterUpdates(hash: Hash, disk: seq<byte>, g: Geometry, us: seq<Update>): seq<byte>
    requires forall i :: 0 <= i < |us| ==> CanWrite(us[i], g)
  {
    if us == [] then disk
    else
      var last := us[|us| - 1];
      assert CanWrite(last, g);
      AfterUpdate(hash, AfterUpdates(hash, disk, g, us[..|us| - 1]), g, last)
  }

  /** No copy of any slot describes bytes outside itself. */
  ghost predicate AllContained(hash: Hash, disk: seq<byte>, g: Geometry) {
    forall i: nat :: i < 2 * g.metadataSlotCount ==> CopyContained(hash, disk, i, g.metadataMaxSize)
  }

  /** A rendered copy is contained. */
  lemma WrittenContained(hash: Hash, disk: seq<byte>, i: nat, h: MetadataHeader, t: Tables, maxSize: u32)
    requires Renderable(h, t, maxSize) && StorableNames(t) && |disk| <= U64_MAX
    requires At(disk, CopyBase(i, maxSize), SlotBytes(hash, h, t, maxSize))
    ensures CopyContained(hash, disk, i, maxSize)
  {
    hide CopyBase, SlotBytes, ValidatedHeader, Renderable, StorableNames, Contained, ReadTables;
    SlotRoundTrip(hash, disk, CopyBase(i, maxSize), h, t, maxSize);
    RenderedContained(h, t, maxSize);
  }

  lemma BothCopiesWritten(disk: seq<byte>, g: Geometry, slot: nat, blob: seq<byte>)
    requires GeometryInRange(g) && slot < g.metadataSlotCount && |blob| == g.metadataMaxSize
    requires MetadataEnd(g.metadataSlotCount, g.metadataMaxSize) <= |disk|
    ensures var after := SlotAfterBytes(disk, g, slot, blob, 2 * |blob|);
            && |after| == |disk|
            && At(after, CopyBase(slot, g.metadataMaxSize), blob)
            && At(after, CopyBase(g.metadataSlotCount + slot, g.metadataMaxSize), blob)
  {
    hide CopyBase, Overwrite, MetadataEnd;
    PrimaryComplete(disk, g, slot, blob, 2 * |blob|);
    var primary, backup := CopyBase(slot, g.metadataMaxSize), CopyBase(g.metadataSlotCount + slot, g.metadataMaxSize);
    OffsetsFit(g);
    SlotRegions(slot, g.metadataSlotCount, g.metadataMaxSize);
    assert blob[..|blob|] == blob;
    OverwriteWhole(disk, primary, blob);
    OverwriteWhole(Overwrite(disk, primary, blob), backup, blob);
  }

  lemma OverwriteWhole(file: seq<byte>, at: nat, data: seq<byte>)
    requires at + |data| <= |file|
    ensures |Overwrite(file, at, data)| == |file| && At(Overwrite(file, at, data), at, data)
  {
    OverwriteEffect(file, at, data);
  }

  /** A metadata write leaves every copy of every slot contained. */
  lemma UpdateKeepsContained(hash: Hash, disk: seq<byte>, g: Geometry, u: Update)
    requires GeometryInRange(g) && MetadataEnd(g.metadataSlotCount, g.metadataMaxSize) <= |disk| <= U64_MAX
    requires CanWrite(u, g) && AllContained(hash, disk, g)
    ensures |AfterUpdate(hash, disk, g, u)| == |disk| && AllContained(hash, AfterUpdate(hash, disk, g, u), g)
  {
    hide CopyBase, SlotAfterBytes, SlotBytes, CopyContained, Renderable, StorableNames, MetadataEnd, Agree;
    var max, count, blob := g.metadataMaxSize, g.metadataSlotCount,
        SlotBytes(hash, u.header, u.tables, g.metadataMaxSize);
    var after := AfterUpdate(hash, disk, g, u);
    BothCopiesWritten(disk, g, u.slot, blob);
    forall i: nat | i < 2 * count ensures CopyContained(hash, after, i, max) {
      if i == u.slot || i == count + u.slot {
        WrittenContained(hash, after, i, u.header, u.tables, max);
      } else {
        CopiesApart(i, u.slot, max);
        CopiesApart(i, count + u.slot, max);
        CopyInArea(g, i);
        UpdateConfined(disk, g, u.slot, blob, 2 * |blob|, CopyBase(i, max), max);
        ContainedLocal(hash, disk, after, i, max);
      }
    }
  }

  lemma {:induction false} UpdatesKeepContained(hash: Hash, disk: seq<byte>, g: Geometry, us: seq<Update>)
    requires GeometryInRange(g) && MetadataEnd(g.metadataSlotCount, g.metadataMaxSize) <= |disk| <= U64_MAX
    requires AllContained(hash, disk, g) && forall i :: 0 <= i < |us| ==> CanWrite(us[i], g)
    ensures |AfterUpdates(hash, disk, g, us)| == |disk| && AllContained(hash, AfterUpdates(hash, disk, g, us), g)
  {
    hide AfterUpdate, AllContained, CanWrite, MetadataEnd;
    if us != [] {
      var n := |us| - 1;
      UpdatesKeepContained(hash, disk, g, us[..n]);
      UpdateKeepsContained(hash, AfterUpdates(hash, disk, g, us[..n]), g, us[n]);
    }
  }

  /** One update changes what its own slot loads, and nothing else. */
  lemma UpdateLoads(hash: Hash, disk: seq<byte>, g: Geometry, u: Update, slot: u64)
    requires GeometryInRange(g) && MetadataEnd(g.metadataSlotCount, g.metadataMaxSize) <= |disk| <= U64_MAX
    requires AllContained(hash, disk, g) && CanWrite(u, g) && slot < g.metadataSlotCount
    ensures u.slot == slot ==> LoadsAs(hash, AfterUpdate(hash, disk, g, u), g, slot, u.tables)
    ensures u.slot != slot ==> LoadSlot(hash, AfterUpdate(hash, disk, g, u), g, slot) == LoadSlot(hash, disk, g, slot)
  {
    hide CopyBase, SlotAfterBytes, SlotBytes, CopyContained, CopyMisses, Renderable, StorableNames, MetadataEnd,
      LoadSlot, LoadsAs;
    if u.slot == slot {
      CompletePrimaryLoads(hash, disk, g, slot, u.header, u.tables, 2 * g.metadataMaxSize);
    } else {
      ContainedMisses(hash, disk, g, u.slot, slot);
      ContainedMisses(hash, disk, g, u.slot, g.metadataSlotCount + slot);
      SlotIsolation(hash, disk, g, u.slot, slot, SlotBytes(hash, u.header, u.tables, g.metadataMaxSize),
                    2 * g.metadataMaxSize);
    }
  }

  /** A slot that no update of a sequence writes loads what it loaded at the start. */
  lemma {:induction false} UnwrittenSlotKept(hash: Hash, disk: seq<byte>, g: Geometry, us: seq<Update>, slot: u64)
    requires GeometryInRange(g) && MetadataEnd(g.metadataSlotCount, g.metadataMaxSize) <= |disk| <= U64_MAX
    requires AllContained(hash, disk, g) && slot < g.metadataSlotCount
    requires forall i :: 0 <= i < |us| ==> CanWrite(us[i], g)
    requires forall i :: 0 <= i < |us| ==> us[i].slot != slot
    ensures LoadSlot(hash, AfterUpdates(hash, disk, g, us), g, slot) == LoadSlot(hash, disk, g, slot)
  {
    hide AfterUpdate, AllContained, CanWrite, MetadataEnd, LoadSlot;
    if us != [] {
      var n := |us| - 1;
      UnwrittenSlotKept(hash, disk, g, us[..n], slot);
      UpdatesKeepContained(hash, disk, g, us[..n]);
      UpdateLoads(hash, AfterUpdates(hash, disk, g, us[..n]), g, us[n], slot);
    }
  }

  /** A slot loads what the last update that named it wrote, whatever was written elsewhere since. */
  lemma {:induction false} LastUpdateLoads(hash: Hash, disk: seq<byte>, g: Geometry, us: seq<Update>, k: nat)
    requires GeometryInRange(g) && MetadataEnd(g.metadataSlotCount, g.metadataMaxSize) <= |disk| <= U64_MAX
    requires AllContained(hash, disk, g) && k < |us|
    requires forall i :: 0 <= i < |us| ==> CanWrite(us[i], g)
    requires forall i :: k < i < |us| ==> us[i].slot != us[k].slot
    ensures LoadsAs(hash, AfterUpdates(hash, disk, g, us), g, us[k].slot, us[k].tables)
  {
    hide AfterUpdate, AllContained, MetadataEnd, LoadSlot, Renderable, StorableNames;
    var n := |us| - 1;
    assert CanWrite(us[k], g);
    UpdatesKeepContained(hash, disk, g, us[..n]);
    UpdateLoads(hash, AfterUpdates(hash, disk, g, us[..n]), g, us[n], us[k].slot);
    if k < n {
      LastUpdateLoads(hash, disk, g, us[..n], k);
    }
  }

  // -------------------------------------------------- crashes during runs

  lemma WrittenCopyGood(hash: Hash, disk: seq<byte>, offset: nat, h: MetadataHeader, t: Tables, maxSize: u32)
    requires Renderable(h, t, maxSize) && StorableNames(t) && |disk| <= U64_MAX
    requires At(disk, offset, SlotBytes(hash, h, t, maxSize))
    ensures GoodCopy(hash, disk, offset, maxSize, HeaderFor(h, t), t)
  {
    hide SlotBytes, StorableNames, ParseValidated, ReadTables, HeaderFor, Serializable, TablesSize;
    SlotRoundTrip(hash, disk, offset, h, t, maxSize);
  }

  /** A completed update leaves its slot with two good copies, the premise of crash atomicity. */
  lemma WrittenSlotGood(hash: Hash, disk: seq<byte>, g: Geometry, u: Update)
    requires GeometryInRange(g) && MetadataEnd(g.metadataSlotCount, g.metadataMaxSize) <= |disk| <= U64_MAX
             && CanWrite(u, g)
    ensures GoodSlot(hash, AfterUpdate(hash, disk, g, u), g, u.slot, HeaderFor(u.header, u.tables), u.tables)
  {
    hide CopyBase, SlotAfterBytes, SlotBytes, StorableNames, MetadataEnd, GoodCopy, HeaderFor, Serializable,
      TablesSize, At;
    var max, after, blob := g.metadataMaxSize, AfterUpdate(hash, disk, g, u),
        SlotBytes(hash, u.header, u.tables, g.metadataMaxSize);
    BothCopiesWritten(disk, g, u.slot, blob);
    WrittenCopyGood(hash, after, CopyBase(u.slot, max), u.header, u.tables, max);
    WrittenCopyGood(hash, after, CopyBase(g.metadataSlotCount + u.slot, max), u.header, u.tables, max);
  }

  lemma GoodCopyKept(hash: Hash, disk: seq<byte>, after: seq<byte>, offset: nat, maxSize: u32, h: MetadataHeader,
                     t: Tables)
    requires GoodCopy(hash, disk, offset, maxSize, h, t) && Contained(h, maxSize) && Agree(disk, after, offset, maxSize)
    ensures GoodCopy(hash, after, offset, maxSize, h, t)
  {
    hide ReadTables, Contained, Agree;
    CopyLocal(hash, disk, after, offset, maxSize);
  }

  /** An update of another slot keeps a good slot good. */
  lemma GoodSlotKept(hash: Hash, disk: seq<byte>, g: Geometry, u: Update, slot: nat, h: MetadataHeader, t: Tables)
    requires GeometryInRange(g) && CanWrite(u, g) && u.slot != slot
    requires GoodSlot(hash, disk, g, slot, h, t) && Contained(h, g.metadataMaxSize)
    ensures GoodSlot(hash, AfterUpdate(hash, disk, g, u), g, slot, h, t)
  {
    hide CopyBase, SlotAfterBytes, SlotBytes, MetadataEnd, GoodCopy, Contained, Renderable, StorableNames, Agree;
    var max, count, blob := g.metadataMaxSize, g.metadataSlotCount,
        SlotBytes(hash, u.header, u.tables, g.metadataMaxSize);
    var after := AfterUpdate(hash, disk, g, u);
    OffsetsFit(g);
    SlotRegions(slot, count, max);
    SlotsIsolated(slot, u.slot, count, max);
    BothCopiesWritten(disk, g, u.slot, blob);
    UpdateConfined(disk, g, u.slot, blob, 2 * |blob|, CopyBase(slot, max), max);
    UpdateConfined(disk, g, u.slot, blob, 2 * |blob|, CopyBase(count + slot, max), max);
    GoodCopyKept(hash, disk, after, CopyBase(slot, max), max, h, t);
    GoodCopyKept(hash, disk, after, CopyBase(count + slot, max), max, h, t);
  }

  lemma {:induction false} LastUpdateGood(hash: Hash, disk: seq<byte>, g: Geometry, us: seq<Update>, k: nat)
    requires GeometryInRange(g) && MetadataEnd(g.metadataSlotCount, g.metadataMaxSize) <= |disk| <= U64_MAX
    requires k < |us|
    requires forall i :: 0 <= i < |us| ==> CanWrite(us[i], g)
    requires forall i :: k < i < |us| ==> us[i].slot != us[k].slot
    ensures CanWrite(us[k], g) && |AfterUpdates(hash, disk, g, us)| == |disk|
    ensures GoodSlot(hash, AfterUpdates(hash, disk, g, us), g, us[k].slot, HeaderFor(us[k].header, us[k].tables),
                     us[k].tables)
  {
    hide AfterUpdate, MetadataEnd, GoodSlot, HeaderFor, StorableNames, Serializable, TablesSize, Contained;
    var n := |us| - 1;
    UpdatesKeepSize(hash, disk, g, us[..n]);
    UpdatesKeepSize(hash, disk, g, us);
    assert CanWrite(us[k], g) && CanWrite(us[n], g);
    if k == n {
      WrittenSlotGood(hash, AfterUpdates(hash, disk, g, us[..n]), g, us[n]);
    } else {
      LastUpdateGood(hash, disk, g, us[..n], k);
      RenderedContained(us[k].header, us[k].tables, g.metadataMaxSize);
      GoodSlotKept(hash, AfterUpdates(hash, disk, g, us[..n]), g, us[n], us[k].slot,
                   HeaderFor(us[k].header, us[k].tables), us[k].tables);
    }
  }

  lemma {:induction false} UpdatesKeepSize(hash: Hash, disk: seq<byte>, g: Geometry, us: seq<Update>)
    requires GeometryInRange(g) && MetadataEnd(g.metadataSlotCount, g.metadataMaxSize) <= |disk|
    requires forall i :: 0 <= i < |us| ==> CanWrite(us[i], g)
    ensures |AfterUpdates(hash, disk, g, us)| == |disk|
  {
    hide SlotAfterBytes, MetadataEnd, Renderable, StorableNames, SlotBytes;
    if us != [] {
      var n := |us| - 1;
      UpdatesKeepSize(hash, disk, g, us[..n]);
      BothCopiesWritten(AfterUpdates(hash, disk, g, us[..n]), g, us[n].slot,
                        SlotBytes(hash, us[n].header, us[n].tables, g.metadataMaxSize));
    }
  }

  /**
   Crash atomicity over runs. After any sequence of updates, whatever the disk held
   before, a further update of a slot that was written before may tear at any byte:
   the slot then loads what its last complete update wrote, or the new tables.
   */
  lemma CrashAfterUpdates(hash: Hash, disk: seq<byte>, g: Geometry, us: seq<Update>, k: nat, tNew: Tables, cut: nat)
    requires GeometryInRange(g) && MetadataEnd(g.metadataSlotCount, g.metadataMaxSize) <= |disk| <= U64_MAX
    requires k < |us|
    requires forall i :: 0 <= i < |us| ==> CanWrite(us[i], g)
    requires forall i :: k < i < |us| ==> us[i].slot != us[k].slot
    requires CanWrite(us[k], g) && CanWrite(Update(us[k].slot, HeaderFor(us[k].header, us[k].tables), tNew), g)
    requires cut <= 2 * g.metadataMaxSize
    requires cut < g.metadataMaxSize ==>
               NoCollision(hash, CrashDisk(hash, AfterUpdates(hash, disk, g, us), g, us[k].slot,
                                           HeaderFor(us[k].header, us[k].tables), tNew, cut),
                           CopyBase(us[k].slot, g.metadataMaxSize), HeaderFor(us[k].header, us[k].tables), tNew)
    ensures var after := CrashDisk(hash, AfterUpdates(hash, disk, g, us), g, us[k].slot,
                                   HeaderFor(us[k].header, us[k].tables), tNew, cut);
            || LoadsAs(hash, after, g, us[k].slot, us[k].tables)
            || LoadsAs(hash, after, g, us[k].slot, tNew)
  {
    hide AfterUpdates, MetadataEnd, GoodSlot, HeaderFor, NoCollision, LoadsAs, StorableNames, Serializable, TablesSize,
      CopyBase, CrashDisk;
    LastUpdateGood(hash, disk, g, us, k);
    CrashAtomic(hash, AfterUpdates(hash, disk, g, us), g, us[k].slot, HeaderFor(us[k].header, us[k].tables),
                us[k].tables, tNew, cut);
  }

  // ---------------------------------------------------------- the premise

  const SHARED: Geometry := Geometry(4096, 2, 4096)

  /** A header of slot 0 whose one partition entry lies where slot 1 begins. */
  const STRAYING: MetadataHeader :=
    MetadataHeader(10, 2, 256, 0, TableDescriptor(4096 - 256, 1, 52), TableDescriptor(0, 0, 0),
                   TableDescriptor(0, 0, 0), TableDescriptor(0, 0, 0))

  ghost function StrayingDisk(hash: Hash): (d: seq<byte>)
    ensures |d| == MetadataEnd(2, 4096)
  {
    Zeros(METADATA_BASE_OFFSET) + SealedHeader(hash, STRAYING, hash([])) + Zeros(4 * 4096 - 256)
  }

  /** What slot 0 of such a disk loads is decided by the bytes of slot 1. */
  lemma StrayingLoads(hash: Hash, disk: seq<byte>)
    requires |disk| == MetadataEnd(2, 4096) && At(disk, METADATA_BASE_OFFSET, SealedHeader(hash, STRAYING, hash([])))
    ensures var r := LoadSlot(hash, disk, SHARED, 0);
            r.Ok? && |r.value.tables.partitions| == 1
                && (r.value.tables.partitions[0].name == [] <==> disk[CopyBase(1, 4096)] == 0)
  {
    hide SealedHeader, HeaderSealed, U32Of, U64Of, ParseHeader;
    var offset := METADATA_BASE_OFFSET;
    SealedValidates(hash, disk, offset, STRAYING, hash([]), 4096);
    assert TablesSealed(hash, disk, offset, STRAYING);
    assert ParseValidated(hash, disk, offset, 4096) == Ok(STRAYING);
    var entry := disk[CopyBase(1, 4096)..CopyBase(1, 4096) + 52];
    assert ParsePartition(entry).Ok?;
    assert ReadEntries(disk, CopyBase(1, 4096) + 52, 52, 0, ParsePartition) == Ok([]);
    assert [ParsePartition(entry).value] + [] == [ParsePartition(entry).value];
    assert ReadEntries(disk, CopyBase(1, 4096), 52, 1, ParsePartition) == Ok([ParsePartition(entry).value]);
    assert entry[0..36][0] == disk[CopyBase(1, 4096)];
  }

  /**
   The premise of slot isolation is needed: on this disk slot 0 validates, and writing
   any table to slot 1 changes what slot 0 loads, although none of slot 0's bytes change.
   */
  lemma StrayingHeaderLeaks(hash: Hash, u: Update)
    requires CanWrite(u, SHARED) && u.slot == 1
    ensures LoadSlot(hash, StrayingDisk(hash), SHARED, 0).Ok?
    ensures LoadSlot(hash, AfterUpdate(hash, StrayingDisk(hash), SHARED, u), SHARED, 0)
            != LoadSlot(hash, StrayingDisk(hash), SHARED, 0)
  {
    hide SealedHeader, SlotBytes, SlotAfterBytes, LoadSlot, Renderable, StorableNames, HeaderFor;
    var disk, blob := StrayingDisk(hash), SlotBytes(hash, u.header, u.tables, 4096);
    var after := AfterUpdate(hash, disk, SHARED, u);
    assert At(disk, METADATA_BASE_OFFSET, SealedHeader(hash, STRAYING, hash([])));
    BothCopiesWritten(disk, SHARED, 1, blob);
    UpdateConfined(disk, SHARED, 1, blob, 2 * |blob|, METADATA_BASE_OFFSET, 256);
    StrayingLoads(hash, disk);
    StrayingLoads(hash, after);
    FirstByte(hash, u.header, u.tables, 4096);
    assert after[CopyBase(1, 4096)..CopyBase(1, 4096) + 4096][0] == blob[0];
  }

  /** Every rendered slot starts with the metadata magic. */
  lemma FirstByte(hash: Hash, h: MetadataHeader, t: Tables, maxSize: u32)
    requires Renderable(h, t, maxSize)
    ensures |SlotBytes(hash, h, t, maxSize)| == maxSize > 0 && SlotBytes(hash, h, t, maxSize)[0] == 0x30
  {
    hide SealedHeader, TablesBlob, HeaderFor;
    SealedFirst(hash, h, t, maxSize);
    SealedIsSealed(hash, HeaderFor(h, t), hash(TablesBlob(t)));
    var s := SealedHeader(hash, HeaderFor(h, t), hash(TablesBlob(t)));
    assert s[..0x0C][0] == U32Bytes(METADATA_MAGIC)[0];
  }
}
