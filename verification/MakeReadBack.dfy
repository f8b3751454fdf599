/**
 What reading a finished image yields: its geometry and slots always, its payloads
 wherever no target slot's copy reaches them.
 */
module MakeReadBack {
  import opened Allocator
  import opened Arithmetic
  import opened Base
  import opened ExtentStream
  import opened Format
  import opened MakeImage
  import opened MakePlan
  import opened MetadataCodec
  import opened MetadataIsolation
  import opened MetadataReader
  import opened MetadataSlot
  import opened MetadataStore
  import opened Payload
  import opened SparseImage
  import opened TableEditor
  import opened TableLaws
  import opened TableModel
  import opened TableStreams

  /** The reservation leaves room for the whole metadata area. */
  predicate Clear(l: Layout)
    requires l.tables.devices != []
  {
    MetaEnd(l) <= PayloadStart(l)
  }

  function SlotEnd(l: Layout, s: u64): nat {
    CopyBase(l.geometry.metadataSlotCount + s, l.geometry.metadataMaxSize) + l.geometry.metadataMaxSize
  }

  /** No copy of a target slot reaches the first sector payload may take. */
  ghost predicate Spared(l: Layout)
    requires l.tables.devices != []
  {
    forall s: u64 :: s in l.slots ==> SlotEnd(l, s) <= PayloadStart(l)
  }

  /** One of the extents starts where device 0 may first be allocated. */
  ghost predicate TakesFirst(l: Layout, es: seq<Extent>)
    requires l.tables.devices != []
  {
    exists j :: 0 <= j < |es| && es[j].targetSource == 0 && es[j].targetData == l.tables.devices[0].firstLogicalSector
  }

  /** The last copy ends the metadata area; copies of other slots end at least a copy earlier. */
  lemma SlotEnds(l: Layout, s: u64)
    requires GeometryInRange(l.geometry) && s < l.geometry.metadataSlotCount
    ensures SlotEnd(l, s) <= MetaEnd(l)
    ensures s == l.geometry.metadataSlotCount - 1 ==> SlotEnd(l, s) == MetaEnd(l)
    ensures s < l.geometry.metadataSlotCount - 1 ==> SlotEnd(l, s) + l.geometry.metadataMaxSize <= MetaEnd(l)
  {
    var n, max := l.geometry.metadataSlotCount, l.geometry.metadataMaxSize;
    MulSucc(n + s, max);
    MulSucc(n + s + 1, max);
    MulMonotone(n + s + 1, 2 * n, max);
    if s < n - 1 {
      MulMonotone(n + s + 2, 2 * n, max);
    }
  }

  /** When the last slot is written, only a clear reservation spares the payload. */
  lemma LastSlotSpares(l: Layout)
    requires Laid(l) && l.geometry.metadataSlotCount - 1 in l.slots
    ensures Spared(l) <==> Clear(l)
  {
    hide MetadataEnd, SlotEnd, Placed, Follow;
    SlotEnds(l, l.geometry.metadataSlotCount - 1);
    forall s: u64 | s in l.slots ensures SlotEnd(l, s) <= MetaEnd(l) {
      SlotEnds(l, s);
    }
  }

  /** When it is not, metadata sizes of a sector or more always do. */
  lemma OtherSlotsSpare(l: Layout)
    requires Laid(l) && l.geometry.metadataSlotCount - 1 !in l.slots && SECTOR_SIZE <= l.geometry.metadataMaxSize
    ensures Spared(l)
  {
    hide MetadataEnd, SlotEnd, Placed, Follow;
    forall s: u64 | s in l.slots ensures SlotEnd(l, s) <= PayloadStart(l) {
      SlotEnds(l, s);
    }
  }

  lemma ClearSpares(l: Layout)
    requires Laid(l) && Clear(l)
    ensures Spared(l)
  {
    hide MetadataEnd, SlotEnd, Placed, Follow;
    forall s: u64 | s in l.slots ensures SlotEnd(l, s) <= PayloadStart(l) {
      SlotEnds(l, s);
    }
  }

  /** Payload never starts in front of the slots. */
  lemma PayloadPastGeometry(l: Layout)
    requires Laid(l)
    ensures METADATA_BASE_OFFSET <= PayloadStart(l)
  {
    assert METADATA_BASE_OFFSET == 24 * SECTOR_SIZE;
    MulMonotone(2, 2 * l.geometry.metadataSlotCount, l.geometry.metadataMaxSize);
  }

  /** Where payload is spared, and everywhere behind the first sector, no target slot is written. */
  lemma SparedByte(l: Layout, pos: nat)
    requires Laid(l) && PayloadStart(l) <= pos && (Spared(l) || PayloadStart(l) + SECTOR_SIZE <= pos)
    ensures !InTargetCopy(l.geometry, l.slots, pos)
  {
    hide MetadataEnd, CopyBase, Placed, Follow;
    var n, max := l.geometry.metadataSlotCount, l.geometry.metadataMaxSize;
    OffsetsFit(l.geometry);
    forall s: u64 | s in l.slots ensures !InCopy(l.geometry, s, pos) && !InCopy(l.geometry, n + s, pos) {
      SlotRegions(s, n, max);
      SlotEnds(l, s);
    }
  }

  /** A byte of an extent that no target slot is written over: its segment's byte, or zero behind the segment. */
  lemma FinalExtentByte(hash: Hash, l: Layout, i: nat, p: nat)
    requires Laid(l) && Renderable(NEW_HEADER, l.tables, l.geometry.metadataMaxSize)
    requires i < |l.tables.extents| && p < l.tables.extents[i].numSectors * SECTOR_SIZE
    requires var e := l.tables.extents[i];
             e.targetSource == 0 ==> !InTargetCopy(l.geometry, l.slots, e.targetData * SECTOR_SIZE + p)
    ensures var e, files := l.tables.extents[i], FinalFiles(hash, l);
            && e.targetSource < |files| && e.targetData * SECTOR_SIZE + p < |files[e.targetSource]|
            && files[e.targetSource][e.targetData * SECTOR_SIZE + p]
               == if p < l.jobs[i].length then l.jobs[i].payload[l.jobs[i].inputOffset + p] else 0
  {
    hide GeometryWritten, AfterJobs, AfterSlots, SlotBytes, Renderable, MetadataEnd, GeometryInRange, SlotsExist,
      JobFits, InTargetCopy;
    var files, e := GeometryWritten(hash, l), l.tables.extents[i];
    GeometryConfined(hash, l);
    assert InDevice(e, l.tables.devices);
    FollowersFit(files, l.tables.devices, l.tables.extents, l.jobs);
    PayloadPastGeometry(l);
    BlankWhereUsed(files, l);
    ExtentLanded(files, l.tables.devices, l.tables.extents, l.jobs, i, p);
    var filled := AfterJobs(files, l.jobs);
    SlotsConfined(filled[0], l.geometry, l.slots, SlotBytes(hash, NEW_HEADER, l.tables, l.geometry.metadataMaxSize));
  }

  lemma BlankWhereUsed(files: seq<seq<byte>>, l: Layout)
    requires l.tables.devices != [] && METADATA_BASE_OFFSET <= PayloadStart(l) && |files| == |l.tables.devices|
    requires forall k :: 0 <= k < |files| ==> |files[k]| == l.tables.devices[k].size
    requires forall k, p :: 0 <= k < |files| && 0 <= p < |files[k]| && (k > 0 || METADATA_BASE_OFFSET <= p) ==>
             files[k][p] == 0
    ensures Blank(files, l.tables.devices)
  {}

  // ------------------------------------------------------------ reading back

  function DisksOf(files: seq<seq<byte>>): Disks
    requires files != [] && |files| <= U32_MAX
  {
    Disks(files[0], map k: u32 | 0 < k < |files| :: files[k])
  }

  /** Byte `p` of the `j`-th extent is the byte of `whole` at the same stream position. */
  ghost predicate IsPiece(backing: Backing, es: seq<Extent>, whole: seq<byte>, j: nat, p: nat)
    requires j < |es|
  {
    StartOf(es, j) + p < |whole| && ExtentByte(backing, es[j], p) == Some(whole[StartOf(es, j) + p])
  }

  /** A chain whose extents hold consecutive pieces of `whole` streams `whole`. */
  lemma {:induction false} PiecesStream(backing: Backing, es: seq<Extent>, whole: seq<byte>)
    requires |whole| == TotalBytes(es)
    requires forall j: nat, p: nat :: j < |es| && p < es[j].numSectors * SECTOR_SIZE ==>
             IsPiece(backing, es, whole, j, p)
    ensures Stream(backing, es) == Somes(whole)
  {
    hide ExtentByte;
    var stream := Stream(backing, es);
    forall k | 0 <= k < |whole| ensures stream[k] == Some(whole[k]) {
      var j, p := PieceOf(es, k);
      assert IsPiece(backing, es, whole, j, p);
      StreamAt(backing, es, j, p);
    }
  }

  /** Every stream position lies in one extent. */
  lemma {:induction false} PieceOf(es: seq<Extent>, k: nat) returns (j: nat, p: nat)
    requires k < TotalBytes(es)
    ensures j < |es| && p < es[j].numSectors * SECTOR_SIZE && k == StartOf(es, j) + p
  {
    if k < es[0].numSectors * SECTOR_SIZE {
      j, p := 0, k;
    } else {
      var j', p' := PieceOf(es[1..], k - es[0].numSectors * SECTOR_SIZE);
      j, p := j' + 1, p';
    }
  }

  /** Segment `j`, padded to its extent, is the padded payload from the extent's start on. */
  lemma SegmentByte(payload: seq<byte>, es: seq<Extent>, j: nat, p: nat)
    requires |payload| <= U64_MAX && TotalBytes(es) == |Padded(payload)|
    requires j < |es| && p < es[j].numSectors * SECTOR_SIZE
    ensures StartOf(es, j) + p < |Padded(payload)|
    ensures var job := JobOf(payload, es, j);
            Padded(payload)[StartOf(es, j) + p] == if p < job.length then job.payload[job.inputOffset + p] else 0
  {
    StartNext(es, j);
  }

  /** The `k`-th partition reads back as its payload, padded with zeros to a sector. */
  ghost predicate Streams(l: Layout, specs: seq<PartitionSpec>, k: nat, files: seq<seq<byte>>)
    requires k < |specs| == |l.tables.partitions| && files != [] && |files| <= U32_MAX
  {
    Stream(BackingOf(DisksOf(files)), Meaning(l.tables)[k].extents) == Somes(Padded(PayloadOf(specs[k])))
  }

  /** It does if no target slot reaches payload, or it does not start where that could happen. */
  lemma PartitionReadsBack(hash: Hash, l: Layout, specs: seq<PartitionSpec>, k: nat)
    requires Laid(l) && Renderable(NEW_HEADER, l.tables, l.geometry.metadataMaxSize)
    requires PayloadsFit(specs) && |l.tables.groups| <= U32_MAX && |l.tables.devices| <= U32_MAX
    requires Planned(specs, l.tables, l.jobs) && k < |specs|
    requires Spared(l) || !TakesFirst(l, Meaning(l.tables)[k].extents)
    ensures Streams(l, specs, k, FinalFiles(hash, l))
  {
    hide FinalFiles, Renderable, Placed, Follow, Spared, TakesFirst, Stream, Somes, WellFormed, BackingOf, JobOf,
      StartOf;
    var files, m, payload := FinalFiles(hash, l), Meaning(l.tables)[k], PayloadOf(specs[k]);
    var d, es := DisksOf(files), m.extents;
    assert Serves(m, specs[k], l.tables);
    BytesAreSectors(es);
    forall j: nat, p: nat | j < |es| && p < es[j].numSectors * SECTOR_SIZE
      ensures IsPiece(BackingOf(d), es, Padded(payload), j, p)
    {
      WindowSpared(l, specs, k, j, p);
      WindowByte(hash, l, specs, k, j, p);
      SegmentByte(payload, es, j, p);
    }
    PiecesStream(BackingOf(d), es, Padded(payload));
  }

  /** No target slot is written over such a partition. */
  lemma WindowSpared(l: Layout, specs: seq<PartitionSpec>, k: nat, j: nat, p: nat)
    requires Laid(l) && PayloadsFit(specs) && |l.tables.groups| <= U32_MAX && |l.tables.devices| <= U32_MAX
    requires Planned(specs, l.tables, l.jobs) && k < |specs|
    requires var es := Meaning(l.tables)[k].extents; j < |es| && p < es[j].numSectors * SECTOR_SIZE
    requires Spared(l) || !TakesFirst(l, Meaning(l.tables)[k].extents)
    ensures WindowEnd(l.tables.partitions[k]) <= |l.tables.extents|
    ensures Meaning(l.tables)[k].extents[j] == l.tables.extents[l.tables.partitions[k].firstExtentIndex + j]
    ensures var e := Meaning(l.tables)[k].extents[j];
            e.targetSource == 0 ==> !InTargetCopy(l.geometry, l.slots, e.targetData * SECTOR_SIZE + p)
  {
    hide Spared, InTargetCopy, MetadataEnd, Follow, Segmented, DevicesUsable, GeometryInRange, SlotsExist, Covered,
      WindowsApart;
    var window := l.tables.partitions[k];
    assert WindowEnd(window) <= |l.tables.extents|;
    var e := Meaning(l.tables)[k].extents[j];
    assert e == l.tables.extents[window.firstExtentIndex + j];
    assert Serves(Meaning(l.tables)[k], specs[k], l.tables);
    if e.targetSource == 0 {
      assert InDevice(l.tables.extents[window.firstExtentIndex + j], l.tables.devices);
      SparedByte(l, e.targetData * SECTOR_SIZE + p);
    }
  }

  lemma WindowByte(hash: Hash, l: Layout, specs: seq<PartitionSpec>, k: nat, j: nat, p: nat)
    requires Laid(l) && Renderable(NEW_HEADER, l.tables, l.geometry.metadataMaxSize)
    requires PayloadsFit(specs) && |l.tables.groups| <= U32_MAX && |l.tables.devices| <= U32_MAX
    requires Planned(specs, l.tables, l.jobs) && k < |specs|
    requires var es := Meaning(l.tables)[k].extents; j < |es| && p < es[j].numSectors * SECTOR_SIZE
    requires var e := Meaning(l.tables)[k].extents[j];
             e.targetSource == 0 ==> !InTargetCopy(l.geometry, l.slots, e.targetData * SECTOR_SIZE + p)
    ensures var es := Meaning(l.tables)[k].extents;
            var job := JobOf(PayloadOf(specs[k]), es, j);
            ExtentByte(BackingOf(DisksOf(FinalFiles(hash, l))), es[j], p)
            == Some(if p < job.length then job.payload[job.inputOffset + p] else 0)
  {
    hide FinalFiles, Renderable, Placed, InTargetCopy, JobOf, DevicesUsable, BackingOf;
    var window := l.tables.partitions[k];
    var es, i := Meaning(l.tables)[k].extents, window.firstExtentIndex + j;
    assert Serves(Meaning(l.tables)[k], specs[k], l.tables);
    assert es[j] == l.tables.extents[i];
    assert l.jobs[i] == l.jobs[window.firstExtentIndex..WindowEnd(window)][j] == JobOf(PayloadOf(specs[k]), es, j);
    FinalExtentByte(hash, l, i, p);
    var files := FinalFiles(hash, l);
    BackingBytes(DisksOf(files), es[j].targetSource, es[j].targetData * SECTOR_SIZE + p);
  }

  /** A target slot loads the new tables. */
  lemma TargetSlotLoads(hash: Hash, l: Layout, s: u64)
    requires Laid(l) && Renderable(NEW_HEADER, l.tables, l.geometry.metadataMaxSize) && StorableNames(l.tables)
             && s in l.slots
    ensures LoadsAs(hash, FinalFiles(hash, l)[0], l.geometry, s, l.tables)
  {
    hide GeometryWritten, AfterJobs, AfterSlots, SlotBytes, CopyBase, LoadsAs, HeaderFor, MetadataEnd, StorableNames,
      ParseValidated, ReadTables, Placed, Follow;
    var files, g := GeometryWritten(hash, l), l.geometry;
    GeometryConfined(hash, l);
    FollowersFit(files, l.tables.devices, l.tables.extents, l.jobs);
    var filled, blob := AfterJobs(files, l.jobs)[0], SlotBytes(hash, NEW_HEADER, l.tables, g.metadataMaxSize);
    SlotsConfined(filled, g, l.slots, blob);
    SlotsComplete(filled, g, l.slots, blob, s);
    var after := AfterSlots(filled, g, l.slots, blob);
    SlotRoundTrip(hash, after, CopyBase(s, g.metadataMaxSize), NEW_HEADER, l.tables, g.metadataMaxSize);
    PrimaryLoads(hash, after, g, s, HeaderFor(NEW_HEADER, l.tables), l.tables);
  }

  /** The device files with geometry and payload, before any slot is written. */
  ghost function Filled(hash: Hash, l: Layout): (r: seq<seq<byte>>)
    requires Laid(l)
    ensures |r| == |l.tables.devices| && forall k :: 0 <= k < |r| ==> |r[k]| == l.tables.devices[k].size
  {
    GeometryConfined(hash, l);
    FollowersFit(GeometryWritten(hash, l), l.tables.devices, l.tables.extents, l.jobs);
    AfterJobs(GeometryWritten(hash, l), l.jobs)
  }

  /** The byte is what it was before the slots were written: zero in front of payload. */
  ghost predicate Unwritten(hash: Hash, l: Layout, disk: seq<byte>, p: int)
    requires Laid(l)
  {
    && 0 <= p < |disk| == |Filled(hash, l)[0]| && disk[p] == Filled(hash, l)[0][p]
    && (p < PayloadStart(l) ==> disk[p] == 0)
  }

  /** Neither copy of slot `s` is written. */
  ghost predicate LeftAlone(hash: Hash, l: Layout, s: u64, disk: seq<byte>)
    requires Laid(l)
  {
    forall p :: InCopy(l.geometry, s, p) || InCopy(l.geometry, l.geometry.metadataSlotCount + s, p) ==>
      Unwritten(hash, l, disk, p)
  }

  /** A slot that is no target is left alone. */
  lemma OtherSlotLeftAlone(hash: Hash, l: Layout, s: u64)
    requires Laid(l) && Renderable(NEW_HEADER, l.tables, l.geometry.metadataMaxSize)
    requires s < l.geometry.metadataSlotCount && s !in l.slots
    ensures LeftAlone(hash, l, s, FinalFiles(hash, l)[0])
  {
    hide FinalFiles, Renderable, Placed, Follow, InCopy, Unwritten, MetadataEnd;
    forall p | InCopy(l.geometry, s, p) || InCopy(l.geometry, l.geometry.metadataSlotCount + s, p)
      ensures Unwritten(hash, l, FinalFiles(hash, l)[0], p)
    {
      CopyByteInArea(l.geometry, s, p);
      NotInTarget(l, s, p);
      OtherByteUnwritten(hash, l, p);
    }
  }

  lemma OtherByteUnwritten(hash: Hash, l: Layout, p: nat)
    requires Laid(l) && Renderable(NEW_HEADER, l.tables, l.geometry.metadataMaxSize)
    requires METADATA_BASE_OFFSET <= p < MetaEnd(l) && !InTargetCopy(l.geometry, l.slots, p)
    ensures Unwritten(hash, l, FinalFiles(hash, l)[0], p)
  {
    hide GeometryWritten, AfterJobs, AfterSlots, SlotBytes, MetadataEnd, Renderable, Placed, Follow, JobFits,
      InTargetCopy, CopyBase;
    GeometryConfined(hash, l);
    FollowersFit(GeometryWritten(hash, l), l.tables.devices, l.tables.extents, l.jobs);
    SlotsConfined(Filled(hash, l)[0], l.geometry, l.slots,
                  SlotBytes(hash, NEW_HEADER, l.tables, l.geometry.metadataMaxSize));
    if p < PayloadStart(l) {
      PayloadStaysBehind(GeometryWritten(hash, l), l.tables.devices, l.tables.extents, l.jobs, 0, p);
    }
  }

  lemma CopyByteInArea(g: Geometry, s: u64, p: int)
    requires GeometryInRange(g) && s < g.metadataSlotCount
    requires InCopy(g, s, p) || InCopy(g, g.metadataSlotCount + s, p)
    ensures METADATA_BASE_OFFSET <= p < MetadataEnd(g.metadataSlotCount, g.metadataMaxSize)
  {
    CopiesInArea(g, [s], p);
  }

  lemma NotInTarget(l: Layout, s: u64, p: int)
    requires Laid(l) && s < l.geometry.metadataSlotCount && s !in l.slots
    requires InCopy(l.geometry, s, p) || InCopy(l.geometry, l.geometry.metadataSlotCount + s, p)
    ensures !InTargetCopy(l.geometry, l.slots, p)
  {
    hide MetadataEnd, CopyBase, Placed, Follow;
    forall o: u64 | o in l.slots
      ensures !InCopy(l.geometry, o, p) && !InCopy(l.geometry, l.geometry.metadataSlotCount + o, p)
    {
      SlotsIsolated(s, o, l.geometry.metadataSlotCount, l.geometry.metadataMaxSize);
    }
  }

  /** Both geometry blocks survive the payload and the slots. */
  lemma GeometryParses(hash: Hash, l: Layout)
    requires Laid(l) && Renderable(NEW_HEADER, l.tables, l.geometry.metadataMaxSize)
    ensures ParseGeometry(hash, FinalFiles(hash, l)[0], GEOMETRY_PRIMARY_OFFSET) == Ok(l.geometry)
    ensures ParseGeometry(hash, FinalFiles(hash, l)[0], GEOMETRY_BACKUP_OFFSET) == Ok(l.geometry)
  {
    hide GeometryWritten, AfterJobs, AfterSlots, SlotBytes, MetadataEnd, SealedGeometry, ParseGeometry, Renderable,
      Placed, Follow, JobFits, InTargetCopy;
    var files, final := GeometryWritten(hash, l), FinalFiles(hash, l);
    GeometryConfined(hash, l);
    FollowersFit(files, l.tables.devices, l.tables.extents, l.jobs);
    var filled := AfterJobs(files, l.jobs);
    PayloadPastGeometry(l);
    SlotsConfined(filled[0], l.geometry, l.slots, SlotBytes(hash, NEW_HEADER, l.tables, l.geometry.metadataMaxSize));
    forall p | 0 <= p < METADATA_BASE_OFFSET ensures final[0][p] == files[0][p] {
      PayloadStaysBehind(files, l.tables.devices, l.tables.extents, l.jobs, 0, p);
      if InTargetCopy(l.geometry, l.slots, p) {
        CopiesInArea(l.geometry, l.slots, p);
      }
    }
    SamePart(files[0], final[0], METADATA_BASE_OFFSET, GEOMETRY_PRIMARY_OFFSET, SealedGeometry(hash, l.geometry));
    SamePart(files[0], final[0], METADATA_BASE_OFFSET, GEOMETRY_BACKUP_OFFSET, SealedGeometry(hash, l.geometry));
    GeometryRoundTrip(hash, final[0], GEOMETRY_PRIMARY_OFFSET, l.geometry);
    GeometryRoundTrip(hash, final[0], GEOMETRY_BACKUP_OFFSET, l.geometry);
  }

  lemma SamePart(a: seq<byte>, b: seq<byte>, end: nat, at: nat, part: seq<byte>)
    requires |a| == |b| >= end && At(a, at, part) && at + |part| <= end
    requires forall p :: 0 <= p < end ==> b[p] == a[p]
    ensures At(b, at, part)
  {
    assert a[at..at + |part|] == b[at..at + |part|];
  }

  /** Both geometry blocks parse, and every target slot loads the planned tables. */
  ghost predicate LoadsBack(hash: Hash, l: Layout, files: seq<seq<byte>>)
    requires files != []
  {
    && ParseGeometry(hash, files[0], GEOMETRY_PRIMARY_OFFSET) == Ok(l.geometry)
    && ParseGeometry(hash, files[0], GEOMETRY_BACKUP_OFFSET) == Ok(l.geometry)
    && forall s :: s in l.slots ==> LoadsAs(hash, files[0], l.geometry, s, l.tables)
  }

  /** Whatever the sizes, the metadata of a finished image reads back. */
  lemma MetadataReadsBack(hash: Hash, l: Layout)
    requires Laid(l) && Renderable(NEW_HEADER, l.tables, l.geometry.metadataMaxSize) && StorableNames(l.tables)
    ensures LoadsBack(hash, l, FinalFiles(hash, l))
  {
    hide FinalFiles, Renderable, StorableNames, LoadsAs, ParseGeometry, MetadataEnd, Placed, Follow;
    GeometryParses(hash, l);
    forall s | s in l.slots ensures LoadsAs(hash, FinalFiles(hash, l)[0], l.geometry, s, l.tables) {
      TargetSlotLoads(hash, l, s);
    }
  }

  /** No segment lies in the metadata area. */
  ghost predicate SegmentsClear(l: Layout) {
    forall i :: 0 <= i < |l.jobs| && l.jobs[i].device == 0 ==> MetaEnd(l) <= l.jobs[i].sector * SECTOR_SIZE
  }

  /** What reading a finished image yields. */
  ghost predicate ReadsBack(hash: Hash, l: Layout, specs: seq<PartitionSpec>, files: seq<seq<byte>>)
    requires |specs| == |l.tables.partitions| && l.tables.devices != [] && files != [] && |files| <= U32_MAX
  {
    && (StorableNames(l.tables) ==> LoadsBack(hash, l, files))
    && (forall k :: 0 <= k < |specs| ==> Meaning(l.tables)[k].name == specs[k].name)
    && (forall k :: 0 <= k < |specs| && (Spared(l) || !TakesFirst(l, Meaning(l.tables)[k].extents)) ==>
          Streams(l, specs, k, files))
    && (Clear(l) ==> Spared(l) && SegmentsClear(l))
  }

  /**
   Make, then read: the geometry parses from both blocks and every target slot loads the
   planned tables; every partition that no target slot reaches streams its payload padded
   with zeros to a sector; and with a clear reservation that is all of them, and no segment
   was placed in the metadata area.
   */
  lemma MakeThenRead(hash: Hash, l: Layout, specs: seq<PartitionSpec>)
    requires Laid(l) && Renderable(NEW_HEADER, l.tables, l.geometry.metadataMaxSize)
    requires PayloadsFit(specs) && |l.tables.groups| <= U32_MAX && |l.tables.devices| <= U32_MAX
    requires Planned(specs, l.tables, l.jobs)
    ensures ReadsBack(hash, l, specs, FinalFiles(hash, l))
  {
    hide FinalFiles, Renderable, StorableNames, LoadsBack, Streams, Spared, TakesFirst, WellFormed, MetadataEnd,
      Segmented;
    if StorableNames(l.tables) {
      MetadataReadsBack(hash, l);
    }
    forall k | 0 <= k < |specs|
      ensures Meaning(l.tables)[k].name == specs[k].name
      ensures Spared(l) || !TakesFirst(l, Meaning(l.tables)[k].extents) ==> Streams(l, specs, k, FinalFiles(hash, l))
    {
      assert Serves(Meaning(l.tables)[k], specs[k], l.tables);
      if Spared(l) || !TakesFirst(l, Meaning(l.tables)[k].extents) {
        PartitionReadsBack(hash, l, specs, k);
      }
    }
    if Clear(l) {
      ClearSpares(l);
      forall i | 0 <= i < |l.jobs| && l.jobs[i].device == 0 ensures MetaEnd(l) <= l.jobs[i].sector * SECTOR_SIZE {
        assert InDevice(l.tables.extents[i], l.tables.devices);
      }
    }
  }

  // ------------------------------------------------- payload written over

  /** The first byte of payload sectors that a target slot is written over. */
  function LostAt(l: Layout, s: u64): nat
    requires l.tables.devices != []
  {
    Max(PayloadStart(l), CopyBase(l.geometry.metadataSlotCount + s, l.geometry.metadataMaxSize))
  }

  /** There the disk holds the slot: its first byte, unless payload starts inside it. */
  ghost predicate HoldsSlot(l: Layout, s: u64, blob: seq<byte>, disk: seq<byte>)
    requires l.tables.devices != []
  {
    var base, at := CopyBase(l.geometry.metadataSlotCount + s, l.geometry.metadataMaxSize), LostAt(l, s);
    at < |disk| && at < base + |blob| && disk[at] == blob[at - base]
  }

  /** The finished image does, whatever the payload. */
  lemma LostByte(hash: Hash, l: Layout, s: u64)
    requires Laid(l) && Renderable(NEW_HEADER, l.tables, l.geometry.metadataMaxSize)
    requires s in l.slots && PayloadStart(l) < SlotEnd(l, s)
    ensures LostAt(l, s) < PayloadStart(l) + SECTOR_SIZE
    ensures HoldsSlot(l, s, SlotBytes(hash, NEW_HEADER, l.tables, l.geometry.metadataMaxSize), FinalFiles(hash, l)[0])
  {
    hide GeometryWritten, AfterJobs, AfterSlots, SlotBytes, Renderable, MetadataEnd, CopyBase, Placed, Follow, JobFits,
      InTargetCopy;
    var files := GeometryWritten(hash, l);
    var blob := SlotBytes(hash, NEW_HEADER, l.tables, l.geometry.metadataMaxSize);
    GeometryConfined(hash, l);
    FollowersFit(files, l.tables.devices, l.tables.extents, l.jobs);
    SlotCovers(l, s, blob, AfterJobs(files, l.jobs)[0]);
  }

  lemma SlotCovers(l: Layout, s: u64, blob: seq<byte>, disk: seq<byte>)
    requires Laid(l) && s in l.slots && PayloadStart(l) < SlotEnd(l, s)
    requires |blob| == l.geometry.metadataMaxSize && MetaEnd(l) <= |disk|
    ensures LostAt(l, s) < PayloadStart(l) + SECTOR_SIZE
    ensures HoldsSlot(l, s, blob, AfterSlots(disk, l.geometry, l.slots, blob))
  {
    hide AfterSlots, MetadataEnd, CopyBase, Placed, Follow, InTargetCopy, At;
    SlotEnds(l, s);
    SlotsComplete(disk, l.geometry, l.slots, blob, s);
    ByteOfPart(AfterSlots(disk, l.geometry, l.slots, blob),
               CopyBase(l.geometry.metadataSlotCount + s, l.geometry.metadataMaxSize), blob, LostAt(l, s));
  }

  lemma ByteOfPart(disk: seq<byte>, base: nat, part: seq<byte>, at: nat)
    requires At(disk, base, part) && base <= at < base + |part|
    ensures at < |disk| && disk[at] == part[at - base]
  {
    assert disk[base..base + |part|][at - base] == disk[at];
  }
}
