/**
 `add` end to end: allocate, write the payload into the device's file, rewrite the
 metadata slot. What the new partition, its neighbours and the other slots read
 afterwards, whether the update went through or stopped before the metadata.
 */
module AddCommand {
  import opened Allocator
  import opened Base
  import opened ExtentStream
  import opened Format
  import opened MetadataCodec
  import opened MetadataReader
  import opened MetadataSlot
  import opened MetadataStore
  import opened Payload
  import opened SparseImage
  import opened TableEditor
  import opened TableLaws
  import opened TableModel

  /** A well-formed table on files that hold it, with all extents past the metadata area. */
  ghost predicate Sound(d: Disks, g: Geometry, t: Tables) {
    && GeometryInRange(g) && WellFormed(t) && FilesCover(d, t.devices)
    && MetadataEnd(g.metadataSlotCount, g.metadataMaxSize) <= |d.image| <= U64_MAX
    && (t.devices != [] ==>
          MetadataEnd(g.metadataSlotCount, g.metadataMaxSize) <= t.devices[0].firstLogicalSector * SECTOR_SIZE)
  }

  /** A new extent the allocator chose for a payload, on a bound device. */
  ghost predicate Allocated(d: Disks, t: Tables, e: Extent, payload: seq<byte>) {
    && Linear(e) && e.targetSource < |t.devices| && FileOf(d, e.targetSource).Some?
    && e.numSectors == DivCeil(|payload|, SECTOR_SIZE) > 0
    && IsFit(t.extents, t.devices[e.targetSource], e.targetSource, e.numSectors, e.targetData)
  }

  /** The files after a complete `add`. */
  ghost function AfterAdd(hash: Hash, d: Disks, g: Geometry, slot: nat, h: MetadataHeader, t': Tables, e: Extent,
                          payload: seq<byte>): Disks
    requires FileOf(d, e.targetSource).Some? && Renderable(h, t', g.metadataMaxSize)
  {
    var written := AfterPayload(d, e, payload);
    written.(image := SlotAfterBytes(written.image, g, slot, SlotBytes(hash, h, t', g.metadataMaxSize),
                                     2 * g.metadataMaxSize))
  }

  // ---------------------------------------------------- the payload write

  /** An extent of the table lies in its file. */
  lemma ExtentInFile(d: Disks, g: Geometry, t: Tables, o: Extent)
    requires Sound(d, g, t) && o in t.extents && Linear(o)
    ensures InDevice(o, t.devices)
    ensures FileOf(d, o.targetSource).Some? ==> End(o) * SECTOR_SIZE <= |FileOf(d, o.targetSource).value|
    ensures o.targetSource == 0 ==> MetadataEnd(g.metadataSlotCount, g.metadataMaxSize) <= o.targetData * SECTOR_SIZE
  {
    hide MetadataEnd;
    var i :| 0 <= i < |t.extents| && t.extents[i] == o;
    assert InDevice(t.extents[i], t.devices);
  }

  /** The payload write keeps the bytes of every extent of the table. */
  lemma PayloadKeepsExtent(d: Disks, g: Geometry, t: Tables, e: Extent, payload: seq<byte>, o: Extent)
    requires Sound(d, g, t) && Allocated(d, t, e, payload) && o in t.extents
    ensures SameBytes(d, AfterPayload(d, e, payload), o)
  {
    hide WellFormed, FilesCover, AfterPayload, MetadataEnd, IsFit, SameBytes;
    if Linear(o) {
      ExtentInFile(d, g, t, o);
    }
    if SameDevice(o, e) {
      SeparateFromFit(t, e, o);
    }
    PayloadElsewhere(d, e, payload, o);
  }

  lemma SeparateFromFit(t: Tables, e: Extent, o: Extent)
    requires WellFormed(t) && Linear(e) && e.targetSource < |t.devices| && o in t.extents && SameDevice(o, e)
    requires IsFit(t.extents, t.devices[e.targetSource], e.targetSource, e.numSectors, e.targetData)
    ensures Separate(o, e)
  {
    var i :| 0 <= i < |t.extents| && t.extents[i] == o;
    FitSeparates(t.extents, t.devices, e, i);
  }

  /** The payload write keeps the metadata area and the size of the image. */
  lemma PayloadKeepsMetadata(d: Disks, g: Geometry, t: Tables, e: Extent, payload: seq<byte>)
    requires Sound(d, g, t) && Allocated(d, t, e, payload)
    ensures var image := AfterPayload(d, e, payload).image;
            |image| == |d.image| && Agree(d.image, image, 0, MetadataEnd(g.metadataSlotCount, g.metadataMaxSize))
  {
    hide MetadataEnd, WellFormed, Padded, Overwrite;
    var end := MetadataEnd(g.metadataSlotCount, g.metadataMaxSize);
    if e.targetSource == 0 {
      FitInDevice(t, e);
      OverwriteEffect(d.image, e.targetData * SECTOR_SIZE, Padded(payload));
      OverwriteAgrees(d.image, e.targetData * SECTOR_SIZE, Padded(payload), 0, end);
    } else {
      AgreesWithItself(d.image, 0, end);
    }
  }

  lemma FitInDevice(t: Tables, e: Extent)
    requires WellFormed(t) && e.targetSource < |t.devices|
    requires IsFit(t.extents, t.devices[e.targetSource], e.targetSource, e.numSectors, e.targetData)
    ensures InDevice(e, t.devices)
  {
    assert Limit(t.devices[e.targetSource]) > 0;
  }

  // --------------------------------------------------- the metadata write

  /** Rewriting a slot keeps the bytes of every extent that lies past the metadata area. */
  lemma MetadataKeepsExtent(d: Disks, g: Geometry, slot: nat, blob: seq<byte>, o: Extent)
    requires GeometryInRange(g) && slot < g.metadataSlotCount && |blob| == g.metadataMaxSize
    requires Linear(o) && o.targetSource == 0 ==>
               MetadataEnd(g.metadataSlotCount, g.metadataMaxSize) <= o.targetData * SECTOR_SIZE
                   && End(o) * SECTOR_SIZE <= |d.image|
    requires Linear(o) && FileOf(d, o.targetSource).Some? ==> End(o) * SECTOR_SIZE <= |FileOf(d, o.targetSource).value|
    ensures SameBytes(d, d.(image := SlotAfterBytes(d.image, g, slot, blob, 2 * |blob|)), o)
  {
    hide Agree, SlotAfterBytes, CopyBase, MetadataEnd;
    if Linear(o) && o.numSectors > 0 && FileOf(d, o.targetSource).Some? {
      var from, len := o.targetData * SECTOR_SIZE, o.numSectors * SECTOR_SIZE;
      if o.targetSource == 0 {
        OffsetsFit(g);
        SlotRegions(slot, g.metadataSlotCount, g.metadataMaxSize);
        UpdateConfined(d.image, g, slot, blob, 2 * |blob|, from, len);
      } else {
        AgreesWithItself(FileOf(d, o.targetSource).value, from, len);
      }
    }
  }

  /** What a contained copy describes lies in the metadata area. */
  lemma ContainedInArea(hash: Hash, a: seq<byte>, b: seq<byte>, g: Geometry, i: nat)
    requires GeometryInRange(g) && i < 2 * g.metadataSlotCount && |a| == |b|
    requires SameOn(a, b, 0, MetadataEnd(g.metadataSlotCount, g.metadataMaxSize))
             && CopyContained(hash, a, i, g.metadataMaxSize)
    ensures var base := CopyBase(i, g.metadataMaxSize);
            && SameOn(a, b, base, base + g.metadataMaxSize)
            && var h := ValidatedHeader(hash, a, base, g.metadataMaxSize); h.Ok? ==> SameTables(a, b, h.value, base)
  {
    hide SameOn, CopyBase, MetadataEnd, ValidatedHeader;
    var end, base := MetadataEnd(g.metadataSlotCount, g.metadataMaxSize), CopyBase(i, g.metadataMaxSize);
    CopyInArea(g, i);
    SameWithin(a, b, 0, end, base, base + g.metadataMaxSize);
    var h := ValidatedHeader(hash, a, base, g.metadataMaxSize);
    if h.Ok? {
      var at := base + h.value.headerSize;
      SameWithin(a, b, 0, end, at, at + h.value.tablesSize);
      forall d | d in [h.value.partitions, h.value.extents, h.value.groups, h.value.blockDevices]
        ensures SameOn(a, b, TableStart(h.value, base, d), TableEnd(h.value, base, d))
      {
        SameWithin(a, b, 0, end, TableStart(h.value, base, d), TableEnd(h.value, base, d));
      }
    }
  }

  /** Slots load from the metadata area alone. */
  lemma SlotFromArea(hash: Hash, a: seq<byte>, b: seq<byte>, g: Geometry, slot: nat)
    requires GeometryInRange(g) && slot < g.metadataSlotCount && |a| == |b|
    requires Agree(a, b, 0, MetadataEnd(g.metadataSlotCount, g.metadataMaxSize))
    requires CopyContained(hash, a, slot, g.metadataMaxSize)
    requires CopyContained(hash, a, g.metadataSlotCount + slot, g.metadataMaxSize)
    ensures LoadSlot(hash, b, g, slot) == LoadSlot(hash, a, g, slot)
    ensures CopyContained(hash, b, slot, g.metadataMaxSize)
    ensures CopyContained(hash, b, g.metadataSlotCount + slot, g.metadataMaxSize)
  {
    hide LoadSlot, CopyContained, CopyBase, MetadataEnd, Agree, SameOn, SameTables, ValidatedHeader;
    var max, count := g.metadataMaxSize, g.metadataSlotCount;
    OffsetsFit(g);
    SlotRegions(slot, count, max);
    AgreeIsSame(a, b, MetadataEnd(count, max));
    ContainedInArea(hash, a, b, g, slot);
    ContainedInArea(hash, a, b, g, count + slot);
    SlotSame(hash, a, b, g, slot);
    AgreeInside(a, b, MetadataEnd(count, max), CopyBase(slot, max), max);
    AgreeInside(a, b, MetadataEnd(count, max), CopyBase(count + slot, max), max);
    ContainedLocal(hash, a, b, slot, max);
    ContainedLocal(hash, a, b, count + slot, max);
  }

  lemma AgreeIsSame(a: seq<byte>, b: seq<byte>, end: nat)
    requires |a| == |b| && Agree(a, b, 0, end)
    ensures SameOn(a, b, 0, end)
  {
    forall i | 0 <= i < end && i < |a| ensures a[i] == b[i] {
      assert a[0..end][i] == b[0..end][i];
    }
  }

  lemma AgreeInside(a: seq<byte>, b: seq<byte>, end: nat, from: nat, len: nat)
    requires Agree(a, b, 0, end) && from + len <= end
    ensures Agree(a, b, from, len)
  {
    AgreeWithin(a, b, 0, end, from, len);
  }

  // -------------------------------------------------------- the guarantees

  /** Every partition of the table reads the same bytes from both disks. */
  ghost predicate SameStreams(d: Disks, d': Disks, t: Tables) {
    forall m :: m in Meaning(t) ==> Stream(BackingOf(d'), m.extents) == Stream(BackingOf(d), m.extents)
  }

  /** A slot whose copies describe nothing outside themselves loads the same from both images. */
  ghost predicate SameSlot(hash: Hash, image: seq<byte>, image': seq<byte>, g: Geometry, slot: u64) {
    CopyContained(hash, image, slot, g.metadataMaxSize)
        && CopyContained(hash, image, g.metadataSlotCount + slot, g.metadataMaxSize) ==>
      LoadSlot(hash, image', g, slot) == LoadSlot(hash, image, g, slot)
  }

  /** One more partition, which reads as the padded payload; all others read as they did. */
  ghost predicate ReadsAdded(d: Disks, d': Disks, t: Tables, t': Tables, payload: seq<byte>) {
    var before, after, n := Meaning(t), Meaning(t'), |t.partitions|;
    && |after| == n + 1
    && Stream(BackingOf(d'), after[n].extents) == Somes(Padded(payload))
    && forall i :: 0 <= i < n ==>
         after[i].name == before[i].name
             && Stream(BackingOf(d'), after[i].extents) == Stream(BackingOf(d), before[i].extents)
  }

  lemma AddedReads(d: Disks, d': Disks, t: Tables, t': Tables, m: Logical, payload: seq<byte>)
    requires Appended(t, t', m) && SameStreams(d, d', t) && Stream(BackingOf(d'), m.extents) == Somes(Padded(payload))
    ensures ReadsAdded(d, d', t, t', payload)
  {
    hide Stream, BackingOf, Somes, Padded, WellFormed;
    var before, after, n := Meaning(t), Meaning(t'), |t.partitions|;
    assert after[..n] == before && after[n] == m;
    forall i | 0 <= i < n ensures after[i] == before[i] {
      assert after[..n][i] == after[i];
    }
    forall i | 0 <= i < n ensures Stream(BackingOf(d'), after[i].extents) == Stream(BackingOf(d), before[i].extents) {
      assert before[i] in before;
    }
  }

  /** Each extent of the table reads the same from both disks. */
  lemma BystandersRead(d: Disks, d': Disks, t: Tables)
    requires forall o :: o in t.extents ==> SameBytes(d, d', o)
    ensures SameStreams(d, d', t)
  {
    hide SameBytes, BackingOf;
    forall m | m in Meaning(t) ensures Stream(BackingOf(d'), m.extents) == Stream(BackingOf(d), m.extents) {
      SameStream(d, d', m.extents);
    }
  }

  /**
   `add` stopped behind the payload write: nothing happened as far as any slot or
   partition is concerned, since the payload went to free sectors.
   */
  lemma AddStopped(hash: Hash, d: Disks, g: Geometry, t: Tables, e: Extent, payload: seq<byte>, slot: nat)
    requires Sound(d, g, t) && Allocated(d, t, e, payload) && slot < g.metadataSlotCount
    ensures SameStreams(d, AfterPayload(d, e, payload), t)
    ensures SameSlot(hash, d.image, AfterPayload(d, e, payload).image, g, slot)
  {
    hide IsFit, WellFormed, FilesCover, AfterPayload, SameBytes, Meaning, BackingOf, LoadSlot, CopyContained,
      MetadataEnd, SameStreams;
    var d' := AfterPayload(d, e, payload);
    forall o | o in t.extents ensures SameBytes(d, d', o) {
      PayloadKeepsExtent(d, g, t, e, payload, o);
    }
    BystandersRead(d, d', t);
    PayloadKeepsMetadata(d, g, t, e, payload);
    if CopyContained(hash, d.image, slot, g.metadataMaxSize)
        && CopyContained(hash, d.image, g.metadataSlotCount + slot, g.metadataMaxSize) {
      SlotFromArea(hash, d.image, d'.image, g, slot);
    }
  }

  lemma AddKeepsExtent(hash: Hash, d: Disks, g: Geometry, slot: nat, h: MetadataHeader, t: Tables, t': Tables,
                       e: Extent, payload: seq<byte>, o: Extent)
    requires Sound(d, g, t) && Allocated(d, t, e, payload) && slot < g.metadataSlotCount && o in t.extents
    requires Renderable(h, t', g.metadataMaxSize)
    ensures SameBytes(d, AfterAdd(hash, d, g, slot, h, t', e, payload), o)
  {
    hide IsFit, AfterPayload, SlotAfterBytes, SlotBytes, Renderable, WellFormed, MetadataEnd, FilesCover, SameBytes;
    var written := AfterPayload(d, e, payload);
    PayloadKeepsExtent(d, g, t, e, payload, o);
    PayloadKeepsMetadata(d, g, t, e, payload);
    if Linear(o) {
      ExtentInFile(d, g, t, o);
      PayloadGrowsFiles(d, e, payload, o.targetSource);
    }
    MetadataKeepsExtent(written, g, slot, SlotBytes(hash, h, t', g.metadataMaxSize), o);
    SameBytesTrans(d, written, AfterAdd(hash, d, g, slot, h, t', e, payload), o);
  }

  lemma PayloadGrowsFiles(d: Disks, e: Extent, payload: seq<byte>, source: u32)
    requires FileOf(d, e.targetSource).Some?
    ensures FileOf(AfterPayload(d, e, payload), source).Some? <==> FileOf(d, source).Some?
    ensures FileOf(d, source).Some? ==> |FileOf(d, source).value| <= |FileOf(AfterPayload(d, e, payload), source).value|
  {
    hide Overwrite;
    OverwriteEffect(FileOf(d, e.targetSource).value, e.targetData * SECTOR_SIZE, Padded(payload));
  }

  /** A complete `add` leaves every other slot as it was. */
  lemma OtherSlotKept(hash: Hash, d: Disks, g: Geometry, slot: nat, h: MetadataHeader, t: Tables, t': Tables, e: Extent,
                      payload: seq<byte>, other: nat)
    requires Sound(d, g, t) && Allocated(d, t, e, payload) && Renderable(h, t', g.metadataMaxSize)
    requires slot < g.metadataSlotCount && other < g.metadataSlotCount && other != slot
    ensures SameSlot(hash, d.image, AfterAdd(hash, d, g, slot, h, t', e, payload).image, g, other)
  {
    hide IsFit, LoadSlot, CopyContained, MetadataEnd, SlotAfterBytes, SlotBytes, Renderable, AfterPayload, WellFormed,
      FilesCover;
    var written, blob := AfterPayload(d, e, payload), SlotBytes(hash, h, t', g.metadataMaxSize);
    PayloadKeepsMetadata(d, g, t, e, payload);
    if CopyContained(hash, d.image, other, g.metadataMaxSize)
        && CopyContained(hash, d.image, g.metadataSlotCount + other, g.metadataMaxSize) {
      SlotFromArea(hash, d.image, written.image, g, other);
      ContainedMisses(hash, written.image, g, slot, other);
      ContainedMisses(hash, written.image, g, slot, g.metadataSlotCount + other);
      SlotIsolation(hash, written.image, g, slot, other, blob, 2 * |blob|);
    }
  }

  /**
   A complete `add`: the slot loads the new table, the new partition reads back as
   the payload padded with zeros to a sector, every partition that was in the table
   reads the same bytes, and every other slot there is loads as before.
   */
  lemma AddEndToEnd(hash: Hash, d: Disks, g: Geometry, slot: nat, h: MetadataHeader, t: Tables, t': Tables, m: Logical,
                    e: Extent, payload: seq<byte>)
    requires Sound(d, g, t) && Allocated(d, t, e, payload) && Appended(t, t', m) && m.extents == [e]
    requires slot < g.metadataSlotCount && Renderable(h, t', g.metadataMaxSize) && StorableNames(t')
    ensures var d' := AfterAdd(hash, d, g, slot, h, t', e, payload);
            && LoadsAs(hash, d'.image, g, slot, t')
            && ReadsAdded(d, d', t, t', payload)
            && forall other: u64 :: other < g.metadataSlotCount && other != slot ==>
               SameSlot(hash, d.image, d'.image, g, other)
  {
    hide IsFit, SameBytes, SameStreams, SameSlot, BackingOf, LoadSlot, CopyContained, MetadataEnd, Stream, Somes,
      LoadsAs, SlotAfterBytes, SlotBytes, Renderable, StorableNames, AfterPayload, WellFormed, FilesCover, Appended,
      ReadsAdded;
    var written, d' := AfterPayload(d, e, payload), AfterAdd(hash, d, g, slot, h, t', e, payload);
    PayloadKeepsMetadata(d, g, t, e, payload);
    CompletePrimaryLoads(hash, written.image, g, slot, h, t', 2 * g.metadataMaxSize);
    NewPartitionReads(hash, d, g, slot, h, t, t', e, payload);
    forall o | o in t.extents ensures SameBytes(d, d', o) {
      AddKeepsExtent(hash, d, g, slot, h, t, t', e, payload, o);
    }
    BystandersRead(d, d', t);
    AddedReads(d, d', t, t', m, payload);
    forall other: u64 | other < g.metadataSlotCount && other != slot
        ensures SameSlot(hash, d.image, d'.image, g, other) {
      OtherSlotKept(hash, d, g, slot, h, t, t', e, payload, other);
    }
  }

  lemma NewPartitionReads(hash: Hash, d: Disks, g: Geometry, slot: nat, h: MetadataHeader, t: Tables, t': Tables,
                          e: Extent, payload: seq<byte>)
    requires Sound(d, g, t) && Allocated(d, t, e, payload) && slot < g.metadataSlotCount
    requires Renderable(h, t', g.metadataMaxSize)
    ensures Stream(BackingOf(AfterAdd(hash, d, g, slot, h, t', e, payload)), [e]) == Somes(Padded(payload))
  {
    hide IsFit, BackingOf, MetadataEnd, Somes, SlotAfterBytes, SlotBytes, Renderable, WellFormed, ExtentBytes;
    var written, blob := AfterPayload(d, e, payload), SlotBytes(hash, h, t', g.metadataMaxSize);
    FitInDevice(t, e);
    PayloadReads(d, e, payload);
    OverwriteEffect(FileOf(d, e.targetSource).value, e.targetData * SECTOR_SIZE, Padded(payload));
    MetadataKeepsExtent(written, g, slot, blob, e);
    SameExtentBytes(written, AfterAdd(hash, d, g, slot, h, t', e, payload), e);
    assert [e][1..] == [];
  }

  // ----------------------------------------------------------- the command

  /** Device files a command has opened: the image and the files bound to further devices. */
  ghost predicate DistinctFiles(image: File, bound: map<u32, File>) {
    && (forall k :: k in bound ==> k != 0 && bound[k] != image)
    && (forall j, k :: j in bound && k in bound && j != k ==> bound[j] != bound[k])
  }

  ghost function Now(image: File, bound: map<u32, File>): Disks
    reads image, bound.Values
  {
    Disks(image.bytes, map k | k in bound :: bound[k].bytes)
  }

  /** The sorted keys of the bindings, as the loop over the hash map collects them. */
  ghost predicate AllowedDevices(allowed: seq<u32>, bound: map<u32, File>) {
    forall k: u32 :: k in allowed <==> k == 0 || k in bound
  }

  /** The payload goes to the file behind the extent's device. */
  method WritePayload(image: File, bound: map<u32, File>, e: Extent, payload: seq<byte>)
    requires DistinctFiles(image, bound) && (e.targetSource == 0 || e.targetSource in bound)
    requires payload != [] && e.numSectors == DivCeil(|payload|, SECTOR_SIZE) && End(e) * SECTOR_SIZE <= U64_MAX
    modifies image, bound.Values
    ensures Now(image, bound) == AfterPayload(old(Now(image, bound)), e, payload)
  {
    hide Overwrite, Padded;
    var target := if e.targetSource == 0 then image else bound[e.targetSource];
    var copied := CopyPayloadStream(target, e.targetData * SECTOR_SIZE, payload, |payload|);
    assert payload[..|payload|] == payload;
  }

  /** The metadata always goes to the image. */
  method WriteTables(hash: Hash, image: File, bound: map<u32, File>, g: Geometry, loaded: Loaded, t: Tables)
    returns (r: Result<Tables>)
    requires DistinctFiles(image, bound) && GeometryInRange(g)
    modifies image
    ensures r.Ok? <==> TargetSlot(g, loaded.offset).Some? && Renderable(loaded.header, t, g.metadataMaxSize)
    ensures r.Err? ==> Now(image, bound) == old(Now(image, bound))
    ensures r.Ok? ==>
              var blob, before := SlotBytes(hash, loaded.header, t, g.metadataMaxSize), old(Now(image, bound));
              r.value == t
              && Now(image, bound) == before.(image := SlotAfterBytes(before.image, g,
                                                                      TargetSlot(g, loaded.offset).value, blob,
                                                                      2 * |blob|))
  {
    hide Renderable, SlotBytes, SlotAfterBytes, TargetSlot;
    var written := WriteMetadata(hash, image, g, loaded.offset, loaded.header, t);
    r := if written.Ok? then Ok(t) else Err(written.error);
  }

  /** How far a command came that found room: the extent, and the tables to be written. */
  datatype Attempt = Attempt(extent: Extent, tables: Tables)

  /** The table work of the command: the new partition with its allocated extent. */
  ghost predicate Attempted(loaded: Loaded, tried: Attempt, m: Logical, force: bool) {
    && m.extents == [tried.extent] && Appended(loaded.tables, tried.tables, m)
    && tried.tables.groups == loaded.tables.groups
    && QuotaAllows(Meaning(tried.tables), tried.tables.groups, m.group, force)
  }

  /** Which devices the list `[0] + keys` offers, or the absence of a list. */
  lemma OfferedKeys(t: Tables, keys: seq<u32>, split: bool, allowed: Option<seq<u32>>, needed: nat)
    requires allowed == if split then Some([0] + keys) else None
    ensures forall k: u32 :: Offered(allowed, k) <==> k == 0 || (split && k in keys)
    ensures NoneFits(t.extents, t.devices, allowed, needed) ==>
              forall k: u32 :: k < |t.devices| && (k == 0 || (split && k in keys)) ==>
                !HasFit(t.extents, t.devices[k], k, needed)
  {
    hide HasFit;
  }

  /**
   The command. `split` says that further devices exist or were bound; `bound` holds
   their files. It finds no room for one of four reasons, and then nothing is written.
   Otherwise it succeeds exactly if the slot can be rewritten, with the files of
   `AfterAdd`; if not, only the payload was written.
   */
  method Add(hash: Hash, image: File, bound: map<u32, File>, keys: seq<u32>, g: Geometry, loaded: Loaded,
             name: Name, attributes: u32, group: u32, payload: seq<byte>, split: bool, force: bool)
    returns (r: Result<Tables>, ghost tried: Option<Attempt>)
    requires DistinctFiles(image, bound) && AllowedDevices([0] + keys, bound)
    requires WellFormed(loaded.tables) && Capped(loaded.tables) && GeometryInRange(g) && group < |loaded.tables.groups|
    requires |payload| <= U64_MAX
    modifies image, bound.Values
    ensures tried.None? ==>
              var t, needed := loaded.tables, DivCeil(|payload|, SECTOR_SIZE);
              && r.Err? && Now(image, bound) == old(Now(image, bound))
              && (payload == [] || NameTaken(t.partitions, name)
                  || OverQuota(Meaning(t), t.groups, group, needed, force)
                  || forall k: u32 :: k < |t.devices| && (k == 0 || (split && k in keys)) ==>
                       !HasFit(t.extents, t.devices[k], k, needed))
    ensures tried.Some? ==>
              var t, e := loaded.tables, tried.value.extent;
              && Allocated(old(Now(image, bound)), t, e, payload)
              && (e.targetSource == 0 || (split && e.targetSource in keys))
              && IsFirstFit(t.extents, t.devices[e.targetSource], e.targetSource, e.numSectors, e.targetData)
              && forall k: u32 :: k < e.targetSource && (k == 0 || (split && k in keys)) ==>
                   !HasFit(t.extents, t.devices[k], k, e.numSectors)
    ensures tried.Some? ==>
              && Attempted(loaded, tried.value, Logical(name, attributes, group, [tried.value.extent]), force)
              && (r.Ok? <==>
                    TargetSlot(g, loaded.offset).Some?
                    && Renderable(loaded.header, tried.value.tables, g.metadataMaxSize))
              && (r.Err? ==> Now(image, bound) == AfterPayload(old(Now(image, bound)), tried.value.extent, payload))
    ensures r.Ok? ==>
              && tried.Some? && r.value == tried.value.tables
              && Now(image, bound) == AfterAdd(hash, old(Now(image, bound)), g, TargetSlot(g, loaded.offset).value,
                                               loaded.header, r.value, tried.value.extent, payload)
  {
    hide WellFormed, IsFit, HasFit, Meaning, Renderable, SlotBytes, SlotAfterBytes, Overwrite, Padded, QuotaAllows,
      TargetSlot, NameTaken, OverQuota, NoneFits, Offered;
    tried := None;
    if payload == [] {
      return Err(Invalid), tried;
    }
    var t := loaded.tables;
    var needed := DivCeil(|payload|, SECTOR_SIZE);
    var data := new SuperData(t);
    var allowed := if split then Some([0] + keys) else None;
    OfferedKeys(t, keys, split, allowed, needed);
    var added := data.Add(name, attributes, group, needed, allowed, force);
    if added.Err? {
      return Err(added.error), tried;
    }
    var e := added.value;
    FitInDevice(t, e);
    LimitBound(t.devices[e.targetSource]);
    if e.targetSource != 0 && e.targetSource !in bound {
      return Err(Invalid), tried;
    }
    tried := Some(Attempt(e, data.View()));
    WritePayload(image, bound, e, payload);
    r := WriteTables(hash, image, bound, g, loaded, data.View());
  }
}
