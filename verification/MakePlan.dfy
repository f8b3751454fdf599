/**
 Planning a new image (`make`): the metadata reservation, and the incremental
 allocation of every partition with its payload segments.
 */
module MakePlan {
  import opened Alignment
  import opened Allocator
  import opened Arithmetic
  import opened Base
  import opened ExtentStream
  import opened Format
  import opened MetadataCodec
  import opened Planner
  import opened TableEditor
  import opened TableLaws
  import opened TableModel

  datatype DeviceSpec = DeviceSpec(name: Name, size: u64, alignment: u32, alignmentOffset: u32)

  /** `pin` names the one device the partition must lie on. */
  datatype PartitionSpec = PartitionSpec(name: Name, attributes: u32, group: Name, pin: Option<Name>,
                                         payload: Option<seq<byte>>)

  /** One payload segment: `length` bytes of the input for the extent at `sector`. */
  datatype Job = Job(payload: seq<byte>, inputOffset: u64, length: u64, device: u32, sector: u64)

  /** A missing payload file is an empty one. */
  function PayloadOf(spec: PartitionSpec): seq<byte> {
    if spec.payload.Some? then spec.payload.value else []
  }

  // ---------------------------------------------------------- reservation

  /** The metadata area, rounded up to the default alignment. */
  function ReserveBytes(slotCount: nat, maxSize: nat, alignment: u32): (r: nat)
    ensures MetadataEnd(slotCount, maxSize) <= r
  {
    var align := Max(alignment, SECTOR_SIZE);
    var k := DivCeil(MetadataEnd(slotCount, maxSize), align);
    assert k * align >= MetadataEnd(slotCount, maxSize) by {
      CeilCovers(MetadataEnd(slotCount, maxSize), align);
    }
    k * align
  }

  /** In sectors, rounded down. */
  function ReserveSectors(slotCount: nat, maxSize: nat, alignment: u32): nat {
    ReserveBytes(slotCount, maxSize, alignment) / SECTOR_SIZE
  }

  /** What the sector division cuts off lies behind the metadata area. */
  predicate ReserveIsExact(slotCount: nat, maxSize: nat, alignment: u32) {
    ReserveBytes(slotCount, maxSize, alignment) % SECTOR_SIZE
    <= ReserveBytes(slotCount, maxSize, alignment) - MetadataEnd(slotCount, maxSize)
  }

  /**
   The first allocatable sector of a device lies past the metadata area exactly when
   the reservation loses nothing of it in whole sectors, or the device's own
   alignment skips the sector that was cut off.
   */
  lemma FirstSectorClears(slotCount: nat, maxSize: nat, alignment: u32, d: BlockDevice)
    requires ReserveSectors(slotCount, maxSize, alignment) <= U64_MAX
    requires AlignUp(ReserveSectors(slotCount, maxSize, alignment), d.alignment, d.alignmentOffset)
             == Some(d.firstLogicalSector)
    ensures MetadataEnd(slotCount, maxSize) <= d.firstLogicalSector * SECTOR_SIZE
            <==> ReserveIsExact(slotCount, maxSize, alignment)
                 || !InPhase(ReserveSectors(slotCount, maxSize, alignment), d.alignment, d.alignmentOffset)
  {
    hide ReserveBytes, MetadataEnd, InPhase;
    AlignUpIsLeast(ReserveSectors(slotCount, maxSize, alignment), d.alignment, d.alignmentOffset);
  }

  /** Whole-sector metadata sizes or alignments lose nothing. */
  lemma SectorMultiplesClear(slotCount: nat, maxSize: nat, alignment: u32)
    requires maxSize % SECTOR_SIZE == 0 || Max(alignment, SECTOR_SIZE) % SECTOR_SIZE == 0
    ensures ReserveIsExact(slotCount, maxSize, alignment)
  {
    var align, end := Max(alignment, SECTOR_SIZE), MetadataEnd(slotCount, maxSize);
    if align % SECTOR_SIZE == 0 {
      ProductMultiple(DivCeil(end, align), align, SECTOR_SIZE);
    } else {
      ProductMultiple(2 * slotCount, maxSize, SECTOR_SIZE);
      assert end % SECTOR_SIZE == 0;
    }
  }

  lemma ProductMultiple(a: nat, b: nat, m: nat)
    requires m > 0 && b % m == 0
    ensures a * b % m == 0
  {
    assert a * b == (a * (b / m)) * m + 0 by {
      assert b == (b / m) * m;
      assert a * ((b / m) * m) == (a * (b / m)) * m;
    }
    DivModUnique(a * b, a * (b / m), m, 0);
  }

  /** Other sizes can lose some: one slot of 1000 bytes, alignment 14300, a device aligned to 512. */
  lemma ReserveCanFallShort()
    ensures AlignUp(ReserveSectors(1, 1000, 14300), 512, 0) == Some(27)
    ensures 27 * SECTOR_SIZE < MetadataEnd(1, 1000) <= ReserveBytes(1, 1000, 14300)
  {
    assert MetadataEnd(1, 1000) == 14288;
    assert DivCeil(14288, 14300) == 1;
  }

  /** The block devices of the new image. */
  method BuildDevices(specs: seq<DeviceSpec>, slotCount: u32, maxSize: u32, alignment: u32)
    returns (r: Result<seq<BlockDevice>>)
    requires 0 < slotCount <= MAX_SLOTS && 0 < maxSize <= MAX_METADATA
    ensures r.Ok? <==>
              forall k :: 0 <= k < |specs| ==>
                specs[k].size % SECTOR_SIZE == 0
                    && ReserveBytes(slotCount, maxSize, alignment) + SECTOR_SIZE <= specs[k].size
    ensures r.Ok? ==> |r.value| == |specs| && forall k :: 0 <= k < |specs| ==>
            DeviceBuilt(r.value[k], specs[k], slotCount, maxSize, alignment)
  {
    hide ReserveBytes;
    ReserveBounded(slotCount, maxSize, alignment);
    var reserveBytes: u64 := ReserveBytes(slotCount, maxSize, alignment);
    var reserveSectors: u64 := reserveBytes / SECTOR_SIZE;
    for i := 0 to |specs|
      invariant forall k :: 0 <= k < i ==>
                specs[k].size % SECTOR_SIZE == 0 && reserveBytes + SECTOR_SIZE <= specs[k].size
    {
      if specs[i].size < SaturatingAdd(reserveBytes, SECTOR_SIZE) {
        return Err(Invalid);
      }
      if specs[i].size % SECTOR_SIZE != 0 {
        return Err(Invalid);
      }
    }
    var devices: seq<BlockDevice> := [];
    for i := 0 to |specs|
      invariant |devices| == i
      invariant forall k :: 0 <= k < i ==> DeviceBuilt(devices[k], specs[k], slotCount, maxSize, alignment)
    {
      AlignUpIsLeast(reserveSectors, specs[i].alignment, specs[i].alignmentOffset);
      var first := AlignUp(reserveSectors, specs[i].alignment, specs[i].alignmentOffset);
      if first.None? {
        return Err(Invalid);
      }
      AlignUpBounded(reserveSectors, specs[i].alignment, specs[i].alignmentOffset);
      devices := devices + [BlockDevice(first.value, specs[i].alignment, specs[i].alignmentOffset, specs[i].size,
                                        specs[i].name)];
    }
    r := Ok(devices);
  }

  /** A device as specified, allocatable from its first in-phase sector past the reservation. */
  ghost predicate DeviceBuilt(d: BlockDevice, spec: DeviceSpec, slotCount: u32, maxSize: u32, alignment: u32) {
    && d.partitionName == spec.name && d.size == spec.size && d.alignment == spec.alignment
    && d.alignmentOffset == spec.alignmentOffset
    && Limit(d) > 0 && d.firstLogicalSector < SECTOR_BOUND
    && ReserveSectors(slotCount, maxSize, alignment) <= U64_MAX
    && LeastInPhase(ReserveSectors(slotCount, maxSize, alignment), d.firstLogicalSector, d.alignment, d.alignmentOffset)
    && AlignUp(ReserveSectors(slotCount, maxSize, alignment), d.alignment, d.alignmentOffset)
       == Some(d.firstLogicalSector)
  }

  const RESERVE_BOUND: int := 0x2_0000_0000

  lemma ReserveBounded(slotCount: u32, maxSize: u32, alignment: u32)
    requires slotCount <= MAX_SLOTS && maxSize <= MAX_METADATA
    ensures ReserveBytes(slotCount, maxSize, alignment) < RESERVE_BOUND
  {
    MulMonotone(2 * slotCount, 2 * MAX_SLOTS, maxSize);
    CeilCovers(MetadataEnd(slotCount, maxSize), Max(alignment, SECTOR_SIZE));
  }

  lemma AlignUpBounded(v: u64, alignment: u32, alignmentOffset: u32)
    requires v < RESERVE_BOUND
    ensures AlignUp(v, alignment, alignmentOffset).Some? ==> AlignUp(v, alignment, alignmentOffset).value < SECTOR_BOUND
  {}

  // ------------------------------------------------------------ allocation

  function FirstDevice(devices: seq<BlockDevice>, name: Name): (r: Option<u32>)
    requires |devices| <= U32_MAX
    ensures r.Some? ==> r.value < |devices| && devices[r.value].partitionName == name
    ensures r.Some? ==> forall k :: 0 <= k < r.value ==> devices[k].partitionName != name
    ensures r.Some? <==> exists k :: 0 <= k < |devices| && devices[k].partitionName == name
  {
    if devices == [] then None
    else
      var earlier := FirstDevice(devices[..|devices| - 1], name);
      if earlier.Some? then earlier
      else if devices[|devices| - 1].partitionName == name then Some(|devices| - 1)
      else None
  }

  /** A pinned request needs a fit on its device, any other only enough capacity. */
  ghost predicate Servable(extents: seq<Extent>, devices: seq<BlockDevice>, pin: Option<Name>, needed: int)
    requires |devices| <= U32_MAX
  {
    if pin.Some? then
      var k := FirstDevice(devices, pin.value);
      k.Some? && HasFit(extents, devices[k.value], k.value, needed)
    else needed <= Capacity(extents, devices)
  }

  /** The runs that serve a request: one on the pinned device, at its first fit, or the planner's. */
  ghost predicate ServedBy(extents: seq<Extent>, devices: seq<BlockDevice>, pin: Option<Name>, needed: int,
                           plan: seq<Run>)
    requires |devices| <= U32_MAX
  {
    if pin.Some? then
      && |plan| == 1 && FirstDevice(devices, pin.value) == Some(plan[0].device) && plan[0].length == needed
      && IsFirstFit(extents, devices[plan[0].device], plan[0].device, needed, plan[0].sector)
    else PlannedBy(extents, devices, needed, plan)
  }

  lemma ServedByUnique(extents: seq<Extent>, devices: seq<BlockDevice>, pin: Option<Name>, needed: int, p: seq<Run>,
                       q: seq<Run>)
    requires |devices| <= U32_MAX
    requires ServedBy(extents, devices, pin, needed, p) && ServedBy(extents, devices, pin, needed, q)
    ensures p == q
  {
    hide FirstDevice, PlannedBy, IsFit;
    if pin.None? {
      PlannedByUnique(extents, devices, needed, p, q);
    }
  }

  /** The runs of one partition. */
  method PlanRuns(extents: seq<Extent>, devices: seq<BlockDevice>, pin: Option<Name>, needed: u64)
    returns (r: Result<seq<Run>>)
    requires |devices| <= U32_MAX && needed > 0
    ensures Regular(extents, devices) ==> (r.Ok? <==> Servable(extents, devices, pin, needed))
    ensures Regular(extents, devices) && r.Ok? ==> PlanFits(extents, devices, r.value) && TotalLength(r.value) == needed
    ensures Regular(extents, devices) && r.Ok? ==> ServedBy(extents, devices, pin, needed, r.value)
    ensures r.Ok? && pin.Some? ==> |r.value| == 1 && Some(r.value[0].device) == FirstDevice(devices, pin.value)
  {
    hide PlannedBy, IsFit, HasFit, EndsFit, Addressable;
    if pin.None? {
      r := PlanSpanningAllocation(extents, devices, needed);
      return;
    }
    var pinned := FirstDevice(devices, pin.value);
    if pinned.None? {
      return Err(Invalid);
    }
    var found := FindFreeSectors(extents, devices, pinned.value, needed);
    if Regular(extents, devices) {
      RegularEndsFit(extents, devices);
      assert Limit(devices[pinned.value]) > 0;
    }
    if found.Err? {
      return Err(found.error);
    }
    var run := Run(pinned.value, found.value, needed);
    if Regular(extents, devices) {
      assert extents + RunExtents([]) == extents;
      PlanExtend(extents, devices, [], run);
      assert [] + [run] == [run];
    }
    r := Ok([run]);
  }

  /** The segment of a payload for the `j`-th extent of its chain. */
  function JobOf(payload: seq<byte>, es: seq<Extent>, j: nat): (r: Job)
    requires j < |es| && |payload| <= U64_MAX
    ensures r.inputOffset + r.length <= |payload| && r.length <= es[j].numSectors * SECTOR_SIZE
  {
    StartNext(es, j);
    var from := Min(StartOf(es, j), |payload|);
    Job(payload, from, Min(StartOf(es, j + 1), |payload|) - from, es[j].targetSource, es[j].targetData)
  }

  function JobsFor(payload: seq<byte>, es: seq<Extent>): (r: seq<Job>)
    requires |payload| <= U64_MAX
    ensures |r| == |es|
  {
    seq(|es|, j requires 0 <= j < |es| => JobOf(payload, es, j))
  }

  /** Pushes one extent and one payload segment for every planned run. */
  method PushRuns(plan: seq<Run>, payload: seq<byte>, extents: seq<Extent>, jobs: seq<Job>)
    returns (extents': seq<Extent>, jobs': seq<Job>)
    requires |payload| <= U64_MAX
    ensures extents' == extents + RunExtents(plan)
    ensures jobs' == jobs + JobsFor(payload, RunExtents(plan))
  {
    extents', jobs' := extents, jobs;
    var inputOffset: u64 := 0;
    ghost var es := RunExtents(plan);
    for i := 0 to |plan|
      invariant extents' == extents + es[..i]
      invariant jobs' == jobs + JobsFor(payload, es)[..i]
      invariant inputOffset == Min(StartOf(es, i), |payload|)
    {
      StartNext(es, i);
      var run := plan[i];
      extents' := extents' + [Extent(run.length, TARGET_LINEAR, run.sector, run.device)];
      var length := Min(SaturatingMul(run.length, SECTOR_SIZE), Max(|payload| - inputOffset, 0));
      jobs' := jobs' + [Job(payload, inputOffset, length, run.device, run.sector)];
      inputOffset := SaturatingAdd(inputOffset, length);
      assert es[..i + 1] == es[..i] + [es[i]];
      assert JobsFor(payload, es)[..i + 1] == JobsFor(payload, es)[..i] + [JobOf(payload, es, i)];
    }
    assert es[..|plan|] == es;
    assert JobsFor(payload, es)[..|plan|] == JobsFor(payload, es);
  }

  // ---------------------------------------------------- the planning loop

  /** An index cast to 32 bits. */
  function AsU32(n: nat): u32 {
    n % (U32_MAX + 1)
  }

  /** As many extents as indices can name without wrapping. */
  ghost predicate Representable(extents: seq<Extent>) {
    |extents| <= U32_MAX
  }

  /** One segment for each extent, not longer than the extent. */
  ghost predicate Follow(jobs: seq<Job>, extents: seq<Extent>) {
    && |jobs| == |extents|
    && forall i :: 0 <= i < |jobs| ==>
         && Linear(extents[i]) && jobs[i].device == extents[i].targetSource && jobs[i].sector == extents[i].targetData
         && jobs[i].length <= extents[i].numSectors * SECTOR_SIZE
         && jobs[i].inputOffset + jobs[i].length <= |jobs[i].payload|
  }

  /** What the plan made of one spec: its group, and exactly the sectors its payload needs. */
  ghost predicate Serves(m: Logical, spec: PartitionSpec, t: Tables)
    requires |t.groups| <= U32_MAX && |t.devices| <= U32_MAX
  {
    && m.name == spec.name && m.attributes == spec.attributes && Some(m.group) == FirstGroup(t.groups, spec.group)
    && (forall j :: 0 <= j < |m.extents| ==> Linear(m.extents[j]) && m.extents[j].numSectors > 0)
    && Sectors(m.extents) == DivCeil(|PayloadOf(spec)|, SECTOR_SIZE)
    && (spec.pin.Some? && m.extents != [] ==>
        |m.extents| == 1 && Some(m.extents[0].targetSource) == FirstDevice(t.devices, spec.pin.value))
  }

  /** The segments follow the extents, window by window. */
  ghost predicate Segmented(specs: seq<PartitionSpec>, t: Tables, jobs: seq<Job>)
    requires forall k :: 0 <= k < |specs| ==> |PayloadOf(specs[k])| <= U64_MAX
  {
    && |jobs| == |t.extents| && |specs| == |t.partitions|
    && forall k :: 0 <= k < |specs| ==>
         WindowEnd(t.partitions[k]) <= |jobs|
         && jobs[t.partitions[k].firstExtentIndex..WindowEnd(t.partitions[k])]
            == JobsFor(PayloadOf(specs[k]), Meaning(t)[k].extents)
  }

  ghost predicate PayloadsFit(specs: seq<PartitionSpec>) {
    forall k :: 0 <= k < |specs| ==> |PayloadOf(specs[k])| <= U64_MAX
  }

  /** The tables and segments of the specs planned so far. */
  ghost predicate Planned(specs: seq<PartitionSpec>, t: Tables, jobs: seq<Job>)
    requires PayloadsFit(specs) && |t.groups| <= U32_MAX && |t.devices| <= U32_MAX
  {
    && WellFormed(t) && |t.partitions| == |specs| && Segmented(specs, t, jobs)
    && forall k :: 0 <= k < |specs| ==> Serves(Meaning(t)[k], specs[k], t)
  }

  /** The running totals of the groups, by name. */
  ghost predicate Tracks(used: map<Name, u64>, t: Tables)
    requires |t.groups| <= U32_MAX
  {
    forall name :: FirstGroup(t.groups, name).Some? ==>
      (if name in used then used[name] else 0) == Min(GroupLoad(Meaning(t), FirstGroup(t.groups, name).value), U64_MAX)
  }

  lemma {:induction false} PlanPlaced(extents: seq<Extent>, devices: seq<BlockDevice>, plan: seq<Run>)
    requires Placed(extents, devices) && DevicesUsable(devices) && PlanFits(extents, devices, plan)
    ensures Placed(extents + RunExtents(plan), devices)
    decreases |plan|
  {
    hide Placed, IsFit;
    if plan == [] {
      assert extents + RunExtents(plan) == extents;
    } else {
      var n := |plan| - 1;
      forall i | 0 <= i < n ensures plan[..n][..i] == plan[..i] {}
      PlanPlaced(extents, devices, plan[..n]);
      var before, e := extents + RunExtents(plan[..n]), RunExtent(plan[n]);
      PlacedInsert(before, devices, |before|, e);
      assert WithInserted(before, |before|, e) == extents + RunExtents(plan);
    }
  }

  lemma {:induction false} PlanSectors(plan: seq<Run>)
    ensures Sectors(RunExtents(plan)) == TotalLength(plan)
  {
    if plan != [] {
      var n := |plan| - 1;
      PlanSectors(plan[..n]);
      assert RunExtents(plan) == RunExtents(plan[..n]) + [RunExtent(plan[n])];
      SectorsConcat(RunExtents(plan[..n]), [RunExtent(plan[n])]);
      SectorsOne(RunExtent(plan[n]));
    }
  }

  /** A planned chain becomes a partition behind all windows. */
  lemma {:induction false} PlanAppends(t: Tables, plan: seq<Run>, p: Partition)
    requires WellFormed(t) && PlanFits(t.extents, t.devices, plan)
    requires forall i :: 0 <= i < |t.partitions| ==> t.partitions[i].name != p.name
    requires p.groupIndex < |t.groups| && p.firstExtentIndex == |t.extents| && p.numExtents == |plan|
    ensures Appended(t, t.(partitions := t.partitions + [p], extents := t.extents + RunExtents(plan)),
                     Logical(p.name, p.attributes, p.groupIndex, RunExtents(plan)))
  {
    hide Tiles, Placed, IsFit, PlanFits;
    AppendTiles(t.partitions, t.extents, RunExtents(plan), p);
    PlanPlaced(t.extents, t.devices, plan);
  }

  /** Segments of the earlier partitions stay in place; the new ones fill the new window. */
  lemma {:induction false} SegmentsAppend(specs: seq<PartitionSpec>, t: Tables, t': Tables, jobs: seq<Job>,
                                          spec: PartitionSpec, m: Logical, p: Partition)
    requires PayloadsFit(specs + [spec]) && PayloadsFit(specs) && Tiles(t.partitions, |t.extents|)
             && Segmented(specs, t, jobs)
    requires t'.partitions == t.partitions + [p] && t'.extents == t.extents + m.extents
    requires Meaning(t') == Meaning(t) + [m] && p.firstExtentIndex == |t.extents| && p.numExtents == |m.extents|
    requires |PayloadOf(spec)| <= U64_MAX
    ensures Segmented(specs + [spec], t', jobs + JobsFor(PayloadOf(spec), m.extents))
  {
    hide Tiles, JobsFor, MeaningOf;
    var all, jobs' := specs + [spec], jobs + JobsFor(PayloadOf(spec), m.extents);
    forall k | 0 <= k < |all|
      ensures WindowEnd(t'.partitions[k]) <= |jobs'|
      ensures jobs'[t'.partitions[k].firstExtentIndex..WindowEnd(t'.partitions[k])]
              == JobsFor(PayloadOf(all[k]), Meaning(t')[k].extents)
    {
      if k < |specs| {
        assert t'.partitions[k] == t.partitions[k] && all[k] == specs[k] && Meaning(t')[k] == Meaning(t)[k];
      }
    }
  }

  /** One more spec planned. */
  lemma {:induction false} PlannedAppend(specs: seq<PartitionSpec>, t: Tables, jobs: seq<Job>, spec: PartitionSpec,
                                         p: Partition, plan: seq<Run>)
    requires PayloadsFit(specs + [spec]) && PayloadsFit(specs) && |t.groups| <= U32_MAX && |t.devices| <= U32_MAX
    requires |PayloadOf(spec)| <= U64_MAX
    requires Planned(specs, t, jobs)
    requires forall k :: 0 <= k < |specs| ==> specs[k].name != spec.name
    requires PlanFits(t.extents, t.devices, plan) && TotalLength(plan) == DivCeil(|PayloadOf(spec)|, SECTOR_SIZE)
    requires Some(p.groupIndex) == FirstGroup(t.groups, spec.group) && p.name == spec.name
             && p.attributes == spec.attributes
    requires p.firstExtentIndex == |t.extents| && p.numExtents == |plan|
    requires spec.pin.Some? && plan != [] ==>
             |plan| == 1 && Some(plan[0].device) == FirstDevice(t.devices, spec.pin.value)
    ensures var t' := t.(partitions := t.partitions + [p], extents := t.extents + RunExtents(plan));
            && Planned(specs + [spec], t', jobs + JobsFor(PayloadOf(spec), RunExtents(plan)))
            && Meaning(t') == Meaning(t) + [Logical(p.name, p.attributes, p.groupIndex, RunExtents(plan))]
  {
    hide Tiles, Placed, IsFit, JobsFor, MeaningOf, DivCeil, DevicesUsable;
    var t' := t.(partitions := t.partitions + [p], extents := t.extents + RunExtents(plan));
    var m, all := Logical(p.name, p.attributes, p.groupIndex, RunExtents(plan)), specs + [spec];
    forall i | 0 <= i < |t.partitions| ensures t.partitions[i].name != p.name {
      SameName(t, i);
    }
    PlanAppends(t, plan, p);
    SegmentsAppend(specs, t, t', jobs, spec, m, p);
    PlanSectors(plan);
    forall k | 0 <= k < |all| ensures Serves(Meaning(t')[k], all[k], t') {
      if k < |specs| {
        assert Meaning(t')[k] == Meaning(t)[k] && all[k] == specs[k];
      } else {
        assert Meaning(t')[k] == m && all[k] == spec;
      }
    }
  }

  lemma SameName(t: Tables, i: nat)
    requires i < |t.partitions|
    ensures Meaning(t)[i].name == t.partitions[i].name
  {}

  /** The totals and the limits after one more partition. */
  lemma {:induction false} TracksAppend(used: map<Name, u64>, t: Tables, t': Tables, name: Name, m: Logical,
                                        needed: nat, force: bool)
    requires |t.groups| <= U32_MAX && t'.groups == t.groups && Tracks(used, t)
    requires Meaning(t') == Meaning(t) + [m] && Some(m.group) == FirstGroup(t.groups, name)
             && Sectors(m.extents) == needed
    requires !force ==> WithinQuota(Meaning(t), t.groups)
    requires var u := if name in used then used[name] else 0;
             !force && needed > 0 && t.groups[m.group].maximumSize > 0 ==>
               SaturatingAdd(u, Min(needed, U64_MAX)) <= t.groups[m.group].maximumSize / SECTOR_SIZE
    ensures needed == 0 ==> Tracks(used, t')
    ensures needed <= U64_MAX ==>
            Tracks(used[name := SaturatingAdd(if name in used then used[name] else 0, needed)], t')
    ensures !force && needed <= U64_MAX ==> WithinQuota(Meaning(t'), t'.groups)
  {
    hide FirstGroup, GroupLoad, Meaning;
    forall g: int ensures GroupLoad(Meaning(t'), g) == GroupLoad(Meaning(t), g) + (if m.group == g then needed else 0) {
      GroupLoadAppend(Meaning(t), m, g);
    }
    forall other | FirstGroup(t.groups, other).Some? && other != name
        ensures FirstGroup(t.groups, other).value != m.group {
      OneName(t.groups, other, name);
    }
  }

  lemma OneName(groups: seq<Group>, a: Name, b: Name)
    requires |groups| <= U32_MAX && a != b && FirstGroup(groups, a).Some? && FirstGroup(groups, b).Some?
    ensures FirstGroup(groups, a).value != FirstGroup(groups, b).value
  {}

  /** The vectors and totals that planning fills. */
  datatype Draft = Draft(partitions: seq<Partition>, extents: seq<Extent>, jobs: seq<Job>, used: map<Name, u64>)

  function TablesOf(draft: Draft, groups: seq<Group>, devices: seq<BlockDevice>): Tables {
    Tables(draft.partitions, draft.extents, groups, devices)
  }

  /** Everything planned so far is well-formed, served and within the limits. */
  ghost predicate Drafted(specs: seq<PartitionSpec>, draft: Draft, groups: seq<Group>, devices: seq<BlockDevice>,
                          force: bool)
    requires PayloadsFit(specs) && |groups| <= U32_MAX && |devices| <= U32_MAX
  {
    && Placed(draft.extents, devices) && Follow(draft.jobs, draft.extents)
    && (Representable(draft.extents) ==> DraftSound(specs, draft, TablesOf(draft, groups, devices), force))
  }

  ghost predicate DraftSound(specs: seq<PartitionSpec>, draft: Draft, t: Tables, force: bool)
    requires PayloadsFit(specs) && |t.groups| <= U32_MAX && |t.devices| <= U32_MAX
  {
    Planned(specs, t, draft.jobs) && Tracks(draft.used, t) && (!force ==> WithinQuota(Meaning(t), t.groups))
  }

  function UsedBy(used: map<Name, u64>, group: Name): u64 {
    if group in used then used[group] else 0
  }

  /** A spec is planned exactly if its group exists and its payload fits the group's running total and the devices. */
  ghost predicate Plannable(draft: Draft, groups: seq<Group>, devices: seq<BlockDevice>, spec: PartitionSpec,
                            force: bool)
    requires |groups| <= U32_MAX && |devices| <= U32_MAX && |PayloadOf(spec)| <= U64_MAX
  {
    var g, needed := FirstGroup(groups, spec.group), DivCeil(|PayloadOf(spec)|, SECTOR_SIZE);
    g.Some? &&
    (PayloadOf(spec) != [] ==>
       && (force || groups[g.value].maximumSize == 0
           || SaturatingAdd(UsedBy(draft.used, spec.group), needed) <= groups[g.value].maximumSize / SECTOR_SIZE)
       && Servable(draft.extents, devices, spec.pin, needed))
  }

  /** The draft with one more partition on the given runs. */
  function Extended(draft: Draft, spec: PartitionSpec, group: u32, plan: seq<Run>): Draft
    requires |PayloadOf(spec)| <= U64_MAX
  {
    Draft(draft.partitions + [Partition(spec.name, spec.attributes, AsU32(|draft.extents|), AsU32(|plan|), group)],
          draft.extents + RunExtents(plan),
          draft.jobs + JobsFor(PayloadOf(spec), RunExtents(plan)),
          if PayloadOf(spec) == [] then draft.used
          else draft.used[spec.group := SaturatingAdd(UsedBy(draft.used, spec.group),
                                                      DivCeil(|PayloadOf(spec)|, SECTOR_SIZE))])
  }

  /** The runs of a spec: none without payload, else those that serve its whole sectors. */
  ghost predicate RunsFor(extents: seq<Extent>, devices: seq<BlockDevice>, spec: PartitionSpec, plan: seq<Run>)
    requires |devices| <= U32_MAX
  {
    if PayloadOf(spec) == [] then plan == []
    else ServedBy(extents, devices, spec.pin, DivCeil(|PayloadOf(spec)|, SECTOR_SIZE), plan)
  }

  /** `after` is `before` with this spec planned. */
  ghost predicate IsNext(before: Draft, groups: seq<Group>, devices: seq<BlockDevice>, spec: PartitionSpec,
                         after: Draft)
    requires |groups| <= U32_MAX && |devices| <= U32_MAX && |PayloadOf(spec)| <= U64_MAX
  {
    var g := FirstGroup(groups, spec.group);
    g.Some? &&
    exists plan ::
      RunsFor(before.extents, devices, spec, plan) && after == Extended(before, spec, g.value, plan)
  }

  lemma NextIsOne(before: Draft, groups: seq<Group>, devices: seq<BlockDevice>, spec: PartitionSpec, a: Draft, b: Draft)
    requires |groups| <= U32_MAX && |devices| <= U32_MAX && |PayloadOf(spec)| <= U64_MAX
    requires IsNext(before, groups, devices, spec, a) && IsNext(before, groups, devices, spec, b)
    ensures a == b
  {
    hide FirstGroup, ServedBy, Extended;
    var g := FirstGroup(groups, spec.group).value;
    var p :| RunsFor(before.extents, devices, spec, p) && a == Extended(before, spec, g, p);
    var q :| RunsFor(before.extents, devices, spec, q) && b == Extended(before, spec, g, q);
    if PayloadOf(spec) != [] {
      ServedByUnique(before.extents, devices, spec.pin, DivCeil(|PayloadOf(spec)|, SECTOR_SIZE), p, q);
    }
  }

  /** Planning the specs in turn, each accepted next to those before it, ends with this draft. */
  ghost predicate PlansTo(specs: seq<PartitionSpec>, groups: seq<Group>, devices: seq<BlockDevice>, force: bool,
                          draft: Draft)
    requires PayloadsFit(specs) && |groups| <= U32_MAX && |devices| <= U32_MAX
    decreases |specs|
  {
    if specs == [] then draft == Draft([], [], [], map[])
    else
      var n := |specs| - 1;
      exists before :: PlansTo(specs[..n], groups, devices, force, before)
                       && Plannable(before, groups, devices, specs[n], force)
                       && IsNext(before, groups, devices, specs[n], draft)
  }

  /** A list of specs has at most one plan. */
  lemma {:induction false} PlansToOne(specs: seq<PartitionSpec>, groups: seq<Group>, devices: seq<BlockDevice>,
                                      force: bool, a: Draft, b: Draft)
    requires PayloadsFit(specs) && |groups| <= U32_MAX && |devices| <= U32_MAX
    requires PlansTo(specs, groups, devices, force, a) && PlansTo(specs, groups, devices, force, b)
    ensures a == b
    decreases |specs|
  {
    hide IsNext, Plannable;
    if specs != [] {
      var n := |specs| - 1;
      var p :| PlansTo(specs[..n], groups, devices, force, p) && Plannable(p, groups, devices, specs[n], force)
          && IsNext(p, groups, devices, specs[n], a);
      var q :| PlansTo(specs[..n], groups, devices, force, q) && Plannable(q, groups, devices, specs[n], force)
          && IsNext(q, groups, devices, specs[n], b);
      PlansToOne(specs[..n], groups, devices, force, p, q);
      NextIsOne(p, groups, devices, specs[n], a, b);
    }
  }

  /** A plan passes through a plan of every prefix, next to which the following spec was accepted. */
  lemma {:induction false} PlansPrefix(specs: seq<PartitionSpec>, groups: seq<Group>, devices: seq<BlockDevice>,
                                       force: bool, draft: Draft, at: nat)
    returns (before: Draft)
    requires PayloadsFit(specs) && |groups| <= U32_MAX && |devices| <= U32_MAX && at < |specs|
    requires PlansTo(specs, groups, devices, force, draft)
    ensures PlansTo(specs[..at], groups, devices, force, before) && Plannable(before, groups, devices, specs[at], force)
    decreases |specs|
  {
    hide IsNext, Plannable;
    var n := |specs| - 1;
    before :| PlansTo(specs[..n], groups, devices, force, before) && Plannable(before, groups, devices, specs[n], force)
        && IsNext(before, groups, devices, specs[n], draft);
    if at < n {
      before := PlansPrefix(specs[..n], groups, devices, force, before, at);
      assert specs[..n][..at] == specs[..at];
    }
  }

  /** Planning stops at a spec that is not accepted next to the plan of those before it. */
  ghost predicate StopsAt(specs: seq<PartitionSpec>, groups: seq<Group>, devices: seq<BlockDevice>, force: bool,
                          at: nat, before: Draft)
    requires PayloadsFit(specs) && |groups| <= U32_MAX && |devices| <= U32_MAX
  {
    at < |specs| && PlansTo(specs[..at], groups, devices, force, before)
        && !Plannable(before, groups, devices, specs[at], force)
  }

  /** Where planning stops there is no plan. */
  lemma StoppedHasNoPlan(specs: seq<PartitionSpec>, groups: seq<Group>, devices: seq<BlockDevice>, force: bool, at: nat,
                         before: Draft, draft: Draft)
    requires PayloadsFit(specs) && |groups| <= U32_MAX && |devices| <= U32_MAX
    requires StopsAt(specs, groups, devices, force, at, before)
    ensures !PlansTo(specs, groups, devices, force, draft)
  {
    hide PlansTo, Plannable;
    if PlansTo(specs, groups, devices, force, draft) {
      var b := PlansPrefix(specs, groups, devices, force, draft, at);
      PlansToOne(specs[..at], groups, devices, force, b, before);
    }
  }

  /** In terms of the table: its group exists and its payload fits next to the group's load and the extents. */
  ghost predicate Accepts(t: Tables, spec: PartitionSpec, force: bool)
    requires |t.groups| <= U32_MAX && |t.devices| <= U32_MAX
  {
    var g, needed := FirstGroup(t.groups, spec.group), DivCeil(|PayloadOf(spec)|, SECTOR_SIZE);
    g.Some? &&
    (PayloadOf(spec) != [] ==>
       && (force || t.groups[g.value].maximumSize == 0
           || GroupLoad(Meaning(t), g.value) + needed <= t.groups[g.value].maximumSize / SECTOR_SIZE)
       && Servable(t.extents, t.devices, spec.pin, needed))
  }

  /** The runs for a spec, with the group check; no runs for an empty payload. */
  method ServeSpec(groups: seq<Group>, devices: seq<BlockDevice>, draft: Draft, group: u32, spec: PartitionSpec,
                   force: bool)
    returns (r: Result<seq<Run>>)
    requires |groups| <= U32_MAX && |devices| <= U32_MAX && group < |groups| && 0 < |PayloadOf(spec)| <= U64_MAX
    ensures var needed := DivCeil(|PayloadOf(spec)|, SECTOR_SIZE);
            var used := UsedBy(draft.used, spec.group);
            var limited := !force && groups[group].maximumSize > 0
                && SaturatingAdd(used, needed) > groups[group].maximumSize / SECTOR_SIZE;
            && (limited ==> r.Err?)
            && (Regular(draft.extents, devices) ==>
                  && (r.Ok? <==> !limited && Servable(draft.extents, devices, spec.pin, needed))
                  && (r.Ok? ==> PlanFits(draft.extents, devices, r.value) && TotalLength(r.value) == needed)
                  && (r.Ok? ==> ServedBy(draft.extents, devices, spec.pin, needed, r.value)))
            && (r.Ok? && spec.pin.Some? ==>
                |r.value| == 1 && Some(r.value[0].device) == FirstDevice(devices, spec.pin.value))
  {
    hide Regular, Servable, ServedBy, PlanFits, FirstDevice;
    var needed: u64 := DivCeil(|PayloadOf(spec)|, SECTOR_SIZE);
    var used: u64 := UsedBy(draft.used, spec.group);
    var max := groups[group].maximumSize;
    if max > 0 && SaturatingAdd(used, needed) > max / SECTOR_SIZE && !force {
      return Err(Invalid);
    }
    r := PlanRuns(draft.extents, devices, spec.pin, needed);
  }

  /** One turn of the planning loop. */
  method PlanPartition(ghost specs: seq<PartitionSpec>, groups: seq<Group>, devices: seq<BlockDevice>, draft: Draft,
                       spec: PartitionSpec, force: bool) returns (r: Result<Draft>)
    requires PayloadsFit(specs) && |PayloadOf(spec)| <= U64_MAX && |groups| <= U32_MAX && |devices| <= U32_MAX
             && DevicesUsable(devices)
    requires Drafted(specs, draft, groups, devices, force)
    requires forall k :: 0 <= k < |specs| ==> specs[k].name != spec.name
    ensures PayloadsFit(specs + [spec])
    ensures r.Ok? <==> Plannable(draft, groups, devices, spec, force)
    ensures r.Ok? ==> IsNext(draft, groups, devices, spec, r.value)
    ensures r.Ok? ==> Drafted(specs + [spec], r.value, groups, devices, force)
  {
    hide Regular, Servable, ServedBy, PlanFits, FirstDevice, FirstGroup, DraftSound, Follow, Placed, DevicesUsable,
      GroupLoad, MeaningOf, JobsFor, Extended;
    var found := FirstGroup(groups, spec.group);
    if found.None? {
      return Err(Invalid);
    }
    var group: u32 := found.value;
    var plan: seq<Run> := [];
    var extents, jobs, used := draft.extents, draft.jobs, draft.used;
    PlacedIsRegular(draft.extents, devices);
    if |PayloadOf(spec)| > 0 {
      var served := ServeSpec(groups, devices, draft, group, spec, force);
      if served.Err? {
        return Err(served.error);
      }
      plan := served.value;
      extents, jobs := PushRuns(plan, PayloadOf(spec), extents, jobs);
      var needed: u64 := DivCeil(|PayloadOf(spec)|, SECTOR_SIZE);
      used := used[spec.group := SaturatingAdd(UsedBy(used, spec.group), needed)];
    } else {
      EmptyPlan(draft.extents, devices, draft.jobs, PayloadOf(spec));
    }
    var p := Partition(spec.name, spec.attributes, AsU32(|draft.extents|), AsU32(|plan|), group);
    r := Ok(Draft(draft.partitions + [p], extents, jobs, used));
    ExtendedIs(draft, spec, group, plan, r.value);
    ExtendedSound(specs, draft, groups, devices, spec, plan, force, r.value);
  }

  lemma ExtendedIs(draft: Draft, spec: PartitionSpec, group: u32, plan: seq<Run>, after: Draft)
    requires |PayloadOf(spec)| <= U64_MAX
    requires after.partitions
             == draft.partitions + [Partition(spec.name, spec.attributes, AsU32(|draft.extents|), AsU32(|plan|), group)]
    requires after.extents == draft.extents + RunExtents(plan)
             && after.jobs == draft.jobs + JobsFor(PayloadOf(spec), RunExtents(plan))
    requires after.used == (if PayloadOf(spec) == [] then draft.used
                            else draft.used[spec.group := SaturatingAdd(UsedBy(draft.used, spec.group),
                                  DivCeil(|PayloadOf(spec)|, SECTOR_SIZE))])
    ensures after == Extended(draft, spec, group, plan)
  {}

  /** Everything planned stays well-formed, served and within the limits with one more spec. */
  lemma {:induction false} ExtendedSound(specs: seq<PartitionSpec>, draft: Draft, groups: seq<Group>,
                                         devices: seq<BlockDevice>,
                                         spec: PartitionSpec, plan: seq<Run>, force: bool, after: Draft)
    requires PayloadsFit(specs) && |PayloadOf(spec)| <= U64_MAX && |groups| <= U32_MAX && |devices| <= U32_MAX
             && DevicesUsable(devices)
    requires Drafted(specs, draft, groups, devices, force) && Plannable(draft, groups, devices, spec, force)
    requires forall k :: 0 <= k < |specs| ==> specs[k].name != spec.name
    requires PlanFits(draft.extents, devices, plan) && TotalLength(plan) == DivCeil(|PayloadOf(spec)|, SECTOR_SIZE)
    requires spec.pin.Some? && plan != [] ==>
             |plan| == 1 && Some(plan[0].device) == FirstDevice(devices, spec.pin.value)
    requires after == Extended(draft, spec, FirstGroup(groups, spec.group).value, plan)
    ensures PayloadsFit(specs + [spec]) && Drafted(specs + [spec], after, groups, devices, force)
  {
    hide Servable, PlanFits, FirstDevice, FirstGroup, DraftSound, Follow, Placed, DevicesUsable, JobsFor, TotalLength;
    PlanPlaced(draft.extents, devices, plan);
    JobsFollow(draft.jobs, draft.extents, PayloadOf(spec), plan);
    if Representable(after.extents) {
      DraftStep(specs, draft, after, groups, devices, spec, after.partitions[|draft.partitions|], plan, force);
    }
  }

  lemma {:induction false} DraftStep(specs: seq<PartitionSpec>, draft: Draft, draft': Draft, groups: seq<Group>,
                                     devices: seq<BlockDevice>,
                                     spec: PartitionSpec, p: Partition, plan: seq<Run>, force: bool)
    requires PayloadsFit(specs) && PayloadsFit(specs + [spec]) && |PayloadOf(spec)| <= U64_MAX && |groups| <= U32_MAX
             && |devices| <= U32_MAX
    requires DraftSound(specs, draft, TablesOf(draft, groups, devices), force) && Representable(draft'.extents)
    requires forall k :: 0 <= k < |specs| ==> specs[k].name != spec.name
    requires PlanFits(draft.extents, devices, plan) && TotalLength(plan) == DivCeil(|PayloadOf(spec)|, SECTOR_SIZE)
    requires spec.pin.Some? && plan != [] ==>
             |plan| == 1 && Some(plan[0].device) == FirstDevice(devices, spec.pin.value)
    requires Some(p.groupIndex) == FirstGroup(groups, spec.group) && p.name == spec.name
             && p.attributes == spec.attributes
    requires p.firstExtentIndex == AsU32(|draft.extents|) && p.numExtents == AsU32(|plan|)
    requires draft'.partitions == draft.partitions + [p] && draft'.extents == draft.extents + RunExtents(plan)
    requires draft'.jobs == draft.jobs + JobsFor(PayloadOf(spec), RunExtents(plan))
    requires var needed, u := DivCeil(|PayloadOf(spec)|, SECTOR_SIZE), UsedBy(draft.used, spec.group);
             && needed <= U64_MAX
             && draft'.used == (if needed == 0 then draft.used else draft.used[spec.group := SaturatingAdd(u, needed)])
             && (!force && needed > 0 && groups[p.groupIndex].maximumSize > 0 ==>
                   SaturatingAdd(u, needed) <= groups[p.groupIndex].maximumSize / SECTOR_SIZE)
    ensures DraftSound(specs + [spec], draft', TablesOf(draft', groups, devices), force)
  {
    hide PlanFits, FirstDevice, FirstGroup, Planned, Tracks, WithinQuota, GroupLoad, MeaningOf, JobsFor, DivCeil;
    var t, t' := TablesOf(draft, groups, devices), TablesOf(draft', groups, devices);
    var m := Logical(p.name, p.attributes, p.groupIndex, RunExtents(plan));
    PlannedAppend(specs, t, draft.jobs, spec, p, plan);
    PlanSectors(plan);
    TracksAppend(draft.used, t, t', spec.group, m, DivCeil(|PayloadOf(spec)|, SECTOR_SIZE), force);
  }

  lemma JobsFollow(jobs: seq<Job>, extents: seq<Extent>, payload: seq<byte>, plan: seq<Run>)
    requires Follow(jobs, extents) && |payload| <= U64_MAX
    ensures Follow(jobs + JobsFor(payload, RunExtents(plan)), extents + RunExtents(plan))
  {
    hide StartOf;
  }

  lemma TracksGroup(specs: seq<PartitionSpec>, draft: Draft, t: Tables, force: bool, name: Name)
    requires PayloadsFit(specs) && |t.groups| <= U32_MAX && |t.devices| <= U32_MAX
    requires DraftSound(specs, draft, t, force) && FirstGroup(t.groups, name).Some?
    ensures UsedBy(draft.used, name) == Min(GroupLoad(Meaning(t), FirstGroup(t.groups, name).value), U64_MAX)
  {
    hide Planned, FirstGroup, GroupLoad, WithinQuota;
  }

  lemma EmptyPlan(extents: seq<Extent>, devices: seq<BlockDevice>, jobs: seq<Job>, payload: seq<byte>)
    requires |payload| <= U64_MAX
    ensures PlanFits(extents, devices, []) && TotalLength([]) == 0 && RunExtents([]) == []
    ensures extents + RunExtents([]) == extents && jobs + JobsFor(payload, RunExtents([])) == jobs
  {}

  /** While extents can be indexed, the running totals are the loads of the groups. */
  lemma PlannableByLoad(specs: seq<PartitionSpec>, draft: Draft, groups: seq<Group>, devices: seq<BlockDevice>,
                        spec: PartitionSpec, force: bool)
    requires PayloadsFit(specs) && |PayloadOf(spec)| <= U64_MAX && |groups| <= U32_MAX && |devices| <= U32_MAX
    requires Drafted(specs, draft, groups, devices, force) && Representable(draft.extents)
    ensures Plannable(draft, groups, devices, spec, force) <==> Accepts(TablesOf(draft, groups, devices), spec, force)
  {
    hide Servable, FirstGroup, DraftSound, GroupLoad, MeaningOf;
    if FirstGroup(groups, spec.group).Some? {
      TracksGroup(specs, draft, TablesOf(draft, groups, devices), force, spec.group);
    }
  }

  /** The planning loop: every spec in turn, against what was planned before it. */
  method PlanPartitions(groups: seq<Group>, devices: seq<BlockDevice>, specs: seq<PartitionSpec>, force: bool)
    returns (r: Result<Draft>, ghost at: nat, ghost before: Draft)
    requires PayloadsFit(specs) && |groups| <= U32_MAX && |devices| <= U32_MAX && DevicesUsable(devices)
    requires forall j, k :: 0 <= j < |specs| && 0 <= k < |specs| && j != k ==> specs[j].name != specs[k].name
    ensures r.Ok? ==> PlansTo(specs, groups, devices, force, r.value) && Drafted(specs, r.value, groups, devices, force)
    ensures r.Err? ==>
              StopsAt(specs, groups, devices, force, at, before) && Drafted(specs[..at], before, groups, devices, force)
  {
    hide Drafted, Plannable, IsNext;
    at := 0;
    before := Draft([], [], [], map[]);
    var draft := Draft([], [], [], map[]);
    NothingDrafted(groups, devices, force);
    for i := 0 to |specs|
      invariant PayloadsFit(specs[..i]) && Drafted(specs[..i], draft, groups, devices, force)
      invariant PlansTo(specs[..i], groups, devices, force, draft)
    {
      assert specs[..i + 1] == specs[..i] + [specs[i]];
      var next := PlanPartition(specs[..i], groups, devices, draft, specs[i], force);
      if next.Err? {
        return Err(next.error), i, draft;
      }
      assert specs[..i + 1][..i] == specs[..i];
      draft := next.value;
    }
    assert specs[..|specs|] == specs;
    r := Ok(draft);
  }

  lemma NothingDrafted(groups: seq<Group>, devices: seq<BlockDevice>, force: bool)
    requires |groups| <= U32_MAX && |devices| <= U32_MAX && DevicesUsable(devices)
    ensures PayloadsFit([]) && Drafted([], Draft([], [], [], map[]), groups, devices, force)
  {}
}
