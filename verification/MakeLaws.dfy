/**
 What `make` accepts and writes, in terms of its arguments and with the numbers of the
 format: the argument checks, the reservation, the groups and their limits.
 */
module MakeLaws {
  import opened Alignment
  import opened Arithmetic
  import opened Base
  import opened ExtentStream
  import opened Format
  import opened MakeCommand
  import opened MakeExactness
  import opened MakeImage
  import opened MakePlan
  import opened MakeReadBack
  import opened MetadataCodec
  import opened MetadataReader
  import opened MetadataSlot
  import opened Payload
  import opened SparseImage
  import opened TableEditor
  import opened TableLaws
  import opened TableModel

  // ------------------------------------------------------------- arguments

  /** The unit of the reservation: the default alignment, but at least a sector. */
  function Unit(alignment: u32): (u: nat)
    ensures u >= 512
  {
    if alignment < 512 then 512 else alignment
  }

  /** The metadata area: three blocks of 4 KiB, then two copies of every slot. */
  function Area(args: MakeArgs): nat {
    MulMonotone(0, args.metadataSlots, args.metadataSize);
    12288 + args.metadataSlots * args.metadataSize + args.metadataSlots * args.metadataSize
  }

  /** The reservation is the least multiple of its unit that holds the metadata area. */
  lemma ReserveExactly(args: MakeArgs, r: nat)
    ensures r == ReserveBytes(args.metadataSlots, args.metadataSize, args.alignment)
            <==> r % Unit(args.alignment) == 0 && Area(args) <= r < Area(args) + Unit(args.alignment)
  {
    hide Area, Unit, MetadataEnd;
    var u, k := Unit(args.alignment), DivCeil(Area(args), Unit(args.alignment));
    AreaIs(args);
    UnitIs(args.alignment);
    CeilCovers(Area(args), u);
    MultipleMod(k, u);
    if r % u == 0 && Area(args) <= r < Area(args) + u {
      assert r == r / u * u;
      OneMultiple(u, Area(args), r / u, k);
    }
  }

  lemma UnitIs(alignment: u32)
    ensures Unit(alignment) == Max(alignment, SECTOR_SIZE)
  {}

  lemma OneMultiple(u: nat, from: nat, p: int, q: int)
    requires from <= p * u < from + u && from <= q * u < from + u
    ensures p == q
  {
    assert (p - q) * u == p * u - q * u;
    SmallMultiple(p - q, u);
  }

  lemma AreaIs(args: MakeArgs)
    ensures Area(args) == MetadataEnd(args.metadataSlots, args.metadataSize)
  {
    assert 2 * args.metadataSlots * args.metadataSize
        == args.metadataSlots * args.metadataSize + args.metadataSlots * args.metadataSize;
  }

  ghost predicate GoodName(name: Name) {
    1 <= |name| <= 36
  }

  /** The checks on single values. */
  ghost predicate GoodValues(args: MakeArgs) {
    && 1 <= args.metadataSlots <= 8 && 1 <= args.metadataSize <= 16777216
    && (args.blockSize == 512 || args.blockSize == 4096)
    && (args.slot == SecondSlot ==> args.metadataSlots >= 2)
    && |args.devices| > 0 && (|args.devices| > 1 ==> args.retrofit)
  }

  ghost predicate GoodNames(args: MakeArgs) {
    && (forall d :: d in args.devices ==> GoodName(d.name))
    && (forall g :: g in args.groups ==> GoodName(g.name))
    && (forall p :: p in args.partitions ==> GoodName(p.name) && p.group != [])
    && (forall p :: p in args.partitions && p.pin.Some? ==> GoodName(p.pin.value))
  }

  ghost predicate NoDoubles(args: MakeArgs) {
    && (forall j, k :: 0 <= j < k < |args.devices| ==> args.devices[j].name != args.devices[k].name)
    && (forall j, k :: 0 <= j < k < |args.partitions| ==> args.partitions[j].name != args.partitions[k].name)
  }

  /** Every device is whole sectors and holds the reservation and one sector more. */
  ghost predicate RoomOnDevices(args: MakeArgs) {
    exists r: nat ::
      && r % Unit(args.alignment) == 0 && Area(args) <= r < Area(args) + Unit(args.alignment)
      && forall d :: d in args.devices ==> d.size % 512 == 0 && r + 512 <= d.size
  }

  /** What the checks in front of planning accept. */
  lemma ValidExactly(args: MakeArgs)
    ensures Valid(args) <==> GoodValues(args) && GoodNames(args) && NoDoubles(args) && RoomOnDevices(args)
  {
    hide ReserveBytes, GoodNames, SpecsValid, NoDoubles, DistinctDevices, DistinctPartitions, RoomOnDevices, Area, Unit;
    RoomExactly(args);
    NamesExactly(args);
    DoublesExactly(args);
    if Valid(args) {
      SizesPositive(args);
    }
  }

  lemma SizesPositive(args: MakeArgs)
    requires SpecsValid(args)
    ensures forall k :: 0 <= k < |args.devices| ==> args.devices[k].size > 0
  {}

  lemma NamesExactly(args: MakeArgs)
    ensures SpecsValid(args) <==>
              GoodNames(args) && forall k :: 0 <= k < |args.devices| ==> args.devices[k].size > 0
  {
    if SpecsValid(args) {
      forall d | d in args.devices ensures GoodName(d.name) {
        var k :| 0 <= k < |args.devices| && args.devices[k] == d;
      }
      forall g | g in args.groups ensures GoodName(g.name) {
        var k :| 0 <= k < |args.groups| && args.groups[k] == g;
      }
      forall p | p in args.partitions
        ensures GoodName(p.name) && p.group != [] && (p.pin.Some? ==> GoodName(p.pin.value))
      {
        var k :| 0 <= k < |args.partitions| && args.partitions[k] == p;
      }
    }
  }

  lemma DoublesExactly(args: MakeArgs)
    ensures NoDoubles(args) <==> DistinctDevices(args.devices) && DistinctPartitions(args.partitions)
  {
    if NoDoubles(args) {
      var d, p := args.devices, args.partitions;
      forall j, k | 0 <= j < |d| && 0 <= k < |d| && j != k ensures d[j].name != d[k].name {
        assert d[Min(j, k)].name != d[Max(j, k)].name;
      }
      forall j, k | 0 <= j < |p| && 0 <= k < |p| && j != k ensures p[j].name != p[k].name {
        assert p[Min(j, k)].name != p[Max(j, k)].name;
      }
    }
  }

  lemma RoomExactly(args: MakeArgs)
    ensures RoomOnDevices(args) <==>
              forall k :: 0 <= k < |args.devices| ==>
                args.devices[k].size % SECTOR_SIZE == 0
                && ReserveBytes(args.metadataSlots, args.metadataSize, args.alignment) + SECTOR_SIZE
                   <= args.devices[k].size
  {
    hide ReserveBytes, Area, Unit;
    var least := ReserveBytes(args.metadataSlots, args.metadataSize, args.alignment);
    ReserveExactly(args, least);
    if RoomOnDevices(args) {
      var r: nat :| r % Unit(args.alignment) == 0 && Area(args) <= r < Area(args) + Unit(args.alignment)
                    && forall d :: d in args.devices ==> d.size % 512 == 0 && r + 512 <= d.size;
      ReserveExactly(args, r);
    }
    if forall k :: 0 <= k < |args.devices| ==>
      args.devices[k].size % SECTOR_SIZE == 0 && least + SECTOR_SIZE <= args.devices[k].size
    {
      forall d | d in args.devices ensures d.size % 512 == 0 && least + 512 <= d.size {
        var k :| 0 <= k < |args.devices| && args.devices[k] == d;
      }
    }
  }

  // ---------------------------------------------------------------- groups

  /** The groups of the new table are the requested ones, with their limits. */
  lemma GroupsStored(args: MakeArgs, l: Layout)
    requires ArgsInRange(args) && PlanOf(args, l)
    ensures |l.tables.groups| == |args.groups|
    ensures forall k :: 0 <= k < |args.groups| ==>
              l.tables.groups[k] == Group(args.groups[k].name, 0, args.groups[k].maximumSize)
  {
    hide Valid, PlansTo, AllBuilt;
  }

  /** Whole sectors of a payload. */
  function WholeSectors(payload: seq<byte>): nat {
    (|payload| + 511) / 512
  }

  /** What the specs ask of a group, in sectors. */
  function Demand(specs: seq<PartitionSpec>, group: Name): nat {
    if specs == [] then 0
    else
      var last := specs[|specs| - 1];
      Demand(specs[..|specs| - 1], group)
      + (if last.group == group && last.payload.Some? then WholeSectors(last.payload.value) else 0)
  }

  /** The running total of a group is what the specs so far ask of it. */
  lemma {:induction false} UsedIsDemand(specs: seq<PartitionSpec>, groups: seq<Group>, devices: seq<BlockDevice>,
                                        force: bool, draft: Draft, name: Name)
    requires PayloadsFit(specs) && |groups| <= U32_MAX && |devices| <= U32_MAX
    requires PlansTo(specs, groups, devices, force, draft)
    ensures UsedBy(draft.used, name) == Min(Demand(specs, name), U64_MAX)
    decreases |specs|
  {
    hide Plannable, IsNext;
    if specs != [] {
      var n := |specs| - 1;
      var before :| PlansTo(specs[..n], groups, devices, force, before)
                    && Plannable(before, groups, devices, specs[n], force)
                    && IsNext(before, groups, devices, specs[n], draft);
      UsedIsDemand(specs[..n], groups, devices, force, before, name);
      UsedAfter(before, groups, devices, specs[n], draft, name);
    }
  }

  lemma UsedAfter(before: Draft, groups: seq<Group>, devices: seq<BlockDevice>, spec: PartitionSpec, after: Draft,
                  name: Name)
    requires |groups| <= U32_MAX && |devices| <= U32_MAX && |PayloadOf(spec)| <= U64_MAX
    requires IsNext(before, groups, devices, spec, after)
    ensures var more := if spec.group == name && spec.payload.Some? then WholeSectors(spec.payload.value) else 0;
            UsedBy(after.used, name) == Min(UsedBy(before.used, name) + more, U64_MAX)
  {
    hide RunsFor, FirstGroup;
  }

  /** Without force, what all specs ask of a limited group fits its whole sectors. */
  lemma {:induction false} DemandWithinLimit(specs: seq<PartitionSpec>, groups: seq<Group>, devices: seq<BlockDevice>,
                                             draft: Draft, g: nat)
    requires PayloadsFit(specs) && |groups| <= U32_MAX && |devices| <= U32_MAX
    requires PlansTo(specs, groups, devices, false, draft)
    requires g < |groups| && groups[g].maximumSize > 0 && forall k :: 0 <= k < g ==> groups[k].name != groups[g].name
    ensures Demand(specs, groups[g].name) <= groups[g].maximumSize / 512
    decreases |specs|
  {
    hide Servable, IsNext;
    if specs != [] {
      var n := |specs| - 1;
      var before :| PlansTo(specs[..n], groups, devices, false, before)
                    && Plannable(before, groups, devices, specs[n], false)
                    && IsNext(before, groups, devices, specs[n], draft);
      DemandWithinLimit(specs[..n], groups, devices, before, g);
      UsedIsDemand(specs[..n], groups, devices, false, before, groups[g].name);
      var found := FirstGroup(groups, specs[n].group);
      if specs[n].group == groups[g].name {
        assert found.Some? && found.value == g;
      }
    }
  }

  /** So an unforced build keeps every requested limit. */
  lemma LimitsKept(args: MakeArgs, l: Layout, g: nat)
    requires ArgsInRange(args) && PlanOf(args, l) && !args.force
    requires g < |args.groups| && args.groups[g].maximumSize > 0
    requires forall k :: 0 <= k < g ==> args.groups[k].name != args.groups[g].name
    ensures Demand(args.partitions, args.groups[g].name) <= args.groups[g].maximumSize / 512
  {
    hide Valid, PlansTo, DeviceBuilt;
    var groups, devices := NewGroups(args.groups), l.tables.devices;
    var draft :| PlansTo(args.partitions, groups, devices, args.force, draft);
    DemandWithinLimit(args.partitions, groups, devices, draft, g);
  }

  // ------------------------------------------------- devices and partitions

  /** The devices of the new table are the requested ones, each allocatable past the reservation. */
  lemma DevicesStored(args: MakeArgs, l: Layout, k: nat, reserve: nat)
    requires ArgsInRange(args) && PlanOf(args, l) && k < |args.devices|
    requires reserve % Unit(args.alignment) == 0 && Area(args) <= reserve < Area(args) + Unit(args.alignment)
    ensures |l.tables.devices| == |args.devices|
    ensures var d, spec := l.tables.devices[k], args.devices[k];
            && d.partitionName == spec.name && d.size == spec.size
            && d.alignment == spec.alignment && d.alignmentOffset == spec.alignmentOffset
            && reserve / 512 <= d.firstLogicalSector
            && InPhase(d.firstLogicalSector, spec.alignment, spec.alignmentOffset)
            && forall s: int :: reserve / 512 <= s && InPhase(s, spec.alignment, spec.alignmentOffset) ==>
                 d.firstLogicalSector <= s
  {
    hide Valid, PlansTo, ReserveBytes, InPhase, AlignUp, Area, Unit;
    ReserveExactly(args, reserve);
    assert DeviceBuilt(l.tables.devices[k], args.devices[k], args.metadataSlots, args.metadataSize, args.alignment);
  }

  /** The partitions are the requested ones, each in its group and with whole sectors for its payload. */
  lemma PartitionsStored(args: MakeArgs, l: Layout, k: nat)
    requires ArgsInRange(args) && PlanOf(args, l) && |l.tables.extents| <= 0xFFFF_FFFF && k < |args.partitions|
    ensures |Meaning(l.tables)| == |args.partitions|
    ensures var m, spec := Meaning(l.tables)[k], args.partitions[k];
            && m.name == spec.name && m.attributes == spec.attributes
            && m.group < |args.groups| && args.groups[m.group].name == spec.group
            && Sectors(m.extents) == (if spec.payload.Some? then WholeSectors(spec.payload.value) else 0)
            && forall e :: e in m.extents ==> e.targetType == 0 && e.numSectors > 0 && e.targetSource < |args.devices|
  {
    hide PlanOf, WellFormed, Segmented, DeviceBuilt, WithinQuota, FirstDevice, Laid, MeaningOf, ReserveBytes;
    PlanIsMade(args, l);
    GroupsOfPlan(args, l);
    var m := Meaning(l.tables)[k];
    assert Serves(m, args.partitions[k], l.tables);
    forall e | e in m.extents ensures e.targetType == 0 && e.numSectors > 0 && e.targetSource < |args.devices| {
      var j :| 0 <= j < |m.extents| && m.extents[j] == e;
      ExtentPlaced(l, k, j);
    }
  }

  lemma GroupsOfPlan(args: MakeArgs, l: Layout)
    requires ArgsInRange(args) && PlanOf(args, l)
    ensures |l.tables.groups| == |args.groups|
    ensures forall k :: 0 <= k < |args.groups| ==> l.tables.groups[k].name == args.groups[k].name
  {
    GroupsStored(args, l);
  }

  lemma ExtentPlaced(l: Layout, k: nat, j: nat)
    requires WellFormed(l.tables) && k < |l.tables.partitions| && j < |Meaning(l.tables)[k].extents|
    requires Linear(Meaning(l.tables)[k].extents[j]) && Meaning(l.tables)[k].extents[j].numSectors > 0
    ensures Meaning(l.tables)[k].extents[j].targetSource < |l.tables.devices|
  {
    hide Tiles, UniqueNames, GroupsValid, DevicesUsable;
    var p := l.tables.partitions[k];
    assert Meaning(l.tables)[k].extents[j] == l.tables.extents[p.firstExtentIndex + j];
    assert InDevice(l.tables.extents[p.firstExtentIndex + j], l.tables.devices);
  }

  /** Extent indices are cast to 32 bits: the remainder, not an error. */
  lemma IndexCast(n: nat)
    ensures AsU32(n) < 4294967296 && exists k: nat :: n == k * 4294967296 + AsU32(n)
  {
    assert n == n / 4294967296 * 4294967296 + AsU32(n);
  }

  // ---------------------------------------------------------- what is written

  /** The header of a new slot. */
  lemma NewSlotHeader(t: Tables)
    requires Renderable(NEW_HEADER, t, 16777216)
    ensures var p, e, g, d := |t.partitions|, |t.extents|, |t.groups|, |t.devices|;
            HeaderFor(NEW_HEADER, t)
            == MetadataHeader(10, 2, 256, 52 * p + 24 * e + 48 * g + 64 * d,
                              TableDescriptor(0, p, 52), TableDescriptor(52 * p, e, 24),
                              TableDescriptor(52 * p + 24 * e, g, 48),
                              TableDescriptor(52 * p + 24 * e + 48 * g, d, 64))
  {
    RenderableSizes(t);
  }

  lemma RenderableSizes(t: Tables)
    requires Renderable(NEW_HEADER, t, 16777216)
    ensures Serializable(t)
    ensures TablesSize(t) == 52 * |t.partitions| + 24 * |t.extents| + 48 * |t.groups| + 64 * |t.devices|
  {}

  /** The finished image holds the requested geometry at 4 KiB and at 8 KiB. */
  lemma GeometryMade(hash: Hash, args: MakeArgs, l: Layout, files: seq<seq<byte>>)
    requires ArgsInRange(args) && Made(hash, args, l, files) && files != []
    ensures ParseGeometry(hash, files[0], 4096) == Ok(Geometry(args.metadataSize, args.metadataSlots, args.blockSize))
    ensures ParseGeometry(hash, files[0], 8192) == Ok(Geometry(args.metadataSize, args.metadataSlots, args.blockSize))
  {
    hide ParseGeometry, Renderable, FinalFiles, ReadsBack, SlotsAsAsked, Planned, Laid;
    GeometryParses(hash, l);
  }

  /** Every file has the size of its device, and its bytes are zero wherever nothing was to be written. */
  lemma RestIsZero(hash: Hash, l: Layout, k: nat, p: nat)
    requires Laid(l) && Renderable(NEW_HEADER, l.tables, l.geometry.metadataMaxSize)
    requires k < |l.tables.devices| && p < l.tables.devices[k].size
    requires k == 0 ==> !(4096 <= p < 4148) && !(8192 <= p < 8244) && !InTargetCopy(l.geometry, l.slots, p)
    requires forall i :: 0 <= i < |l.jobs| ==> !MakeImage.Covers(l.jobs[i], k, p)
    ensures |FinalFiles(hash, l)| == |l.tables.devices| && |FinalFiles(hash, l)[k]| == l.tables.devices[k].size
    ensures FinalFiles(hash, l)[k][p] == 0
  {
    hide AfterJobs, AfterSlots, SlotBytes, MetadataEnd, Renderable, Placed, Follow, JobFits, InTargetCopy,
      GeometryWritten, InPhase;
    var files := GeometryWritten(hash, l);
    GeometryConfined(hash, l);
    FollowersFit(files, l.tables.devices, l.tables.extents, l.jobs);
    UncoveredByte(files, l.jobs, k, p);
    if k == 0 {
      SlotsConfined(AfterJobs(files, l.jobs)[0], l.geometry, l.slots,
                    SlotBytes(hash, NEW_HEADER, l.tables, l.geometry.metadataMaxSize));
      GeometryBlocksOnly(hash, l, p);
    }
  }

  lemma GeometryBlocksOnly(hash: Hash, l: Layout, p: nat)
    requires Laid(l) && p < l.tables.devices[0].size && !(4096 <= p < 4148) && !(8192 <= p < 8244)
    ensures |GeometryWritten(hash, l)[0]| == l.tables.devices[0].size && GeometryWritten(hash, l)[0][p] == 0
  {
    hide SealedGeometry, Overwrite, Placed, Follow, MetadataEnd;
    var blank, blob := BlankFiles(l.tables.devices), SealedGeometry(hash, l.geometry);
    var once := Overwrite(blank[0], GEOMETRY_PRIMARY_OFFSET, blob);
    OverwriteEffect(blank[0], GEOMETRY_PRIMARY_OFFSET, blob);
    OverwriteEffect(once, GEOMETRY_BACKUP_OFFSET, blob);
    GeometryConfined(hash, l);
  }

  /** The disks of an image are its files, in order. */
  lemma DisksExactly(files: seq<seq<byte>>, k: u32)
    requires files != [] && |files| <= U32_MAX
    ensures FileOf(DisksOf(files), k) == if k < |files| then Some(files[k]) else None
  {}

  /** A payload lies in its extents with zeros behind it. */
  lemma PaddedExactly(payload: seq<byte>, p: nat)
    ensures |Padded(payload)| == WholeSectors(payload) * 512
    ensures p < |Padded(payload)| ==> Padded(payload)[p] == if p < |payload| then payload[p] else 0
  {}

  /** What a partition that reads back as specified yields: its payload, then zeros up to a whole sector. */
  lemma StreamedBytes(l: Layout, specs: seq<PartitionSpec>, k: nat, files: seq<seq<byte>>, p: nat)
    requires k < |specs| == |l.tables.partitions| && files != [] && |files| <= U32_MAX && Streams(l, specs, k, files)
    ensures var payload, s := specs[k].payload, Stream(BackingOf(DisksOf(files)), Meaning(l.tables)[k].extents);
            if payload.None? then s == []
            else |s| == WholeSectors(payload.value) * 512
                 && (p < |s| ==> s[p] == Some(if p < |payload.value| then payload.value[p] else 0))
  {
    hide Stream, BackingOf, DisksOf, MeaningOf;
  }
}
