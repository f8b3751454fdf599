/**
 A build that is accepted and loses its payload: one slot of 1000 bytes, a default
 alignment of 14300 bytes, and one partition that holds a single byte.
 */
module MakeLoss {
  import opened Alignment
  import opened Allocator
  import opened Base
  import opened ExtentStream
  import opened Format
  import opened MakeCommand
  import opened MakeExactness
  import opened MakeImage
  import opened MakePlan
  import opened MakeReadBack
  import opened MetadataCodec
  import opened MetadataSlot
  import opened Payload
  import opened Planner
  import opened TableEditor
  import opened TableLaws
  import opened TableModel

  const DEVICE := DeviceSpec([100], 0x10_0000, 512, 0)
  const SPEC := PartitionSpec([112], 0, [103], None, Some([1]))

  const LOSSY: MakeArgs :=
    MakeArgs([DEVICE], [GroupSpec([103], 0)], [SPEC], 1, 1000, 14300, 4096, FirstSlot, false, false)

  const BUILT := BlockDevice(27, 512, 0, 0x10_0000, [100])
  const RUN := Run(0, 27, 1)

  const PLANNED: Layout :=
    Layout(Geometry(1000, 1, 4096),
           Tables([Partition([112], 0, 0, 1, 0)], [Extent(1, TARGET_LINEAR, 27, 0)], [Group([103], 0, 0)], [BUILT]),
           [Job([1], 0, 1, 0, 27)], [0])

  lemma LossyDevice()
    ensures DeviceBuilt(BUILT, DEVICE, 1, 1000, 14300)
  {
    ReserveCanFallShort();
    AlignUpIsLeast(27, 512, 0);
  }

  lemma LossyValid()
    ensures ArgsInRange(LOSSY) && Valid(LOSSY)
  {
    assert MetadataEnd(1, 1000) == 14288 && DivCeil(14288, 14300) == 1;
  }

  /** The one run of the one partition. */
  lemma LossyRun()
    ensures PlannedBy([], [BUILT], 1, [RUN]) && 1 <= Capacity([], [BUILT])
  {
    assert IsFit([], BUILT, 0, 1, 27);
    assert [BUILT][0] == BUILT && HasFit([], [BUILT][0], 0, 1);
    FitWithinCapacity([], [BUILT], 0, 0, 1, 27);
  }

  lemma LossyDraft()
    ensures PayloadsFit([SPEC])
    ensures PlansTo([SPEC], [Group([103], 0, 0)], [BUILT], false,
                    Draft(PLANNED.tables.partitions, PLANNED.tables.extents, PLANNED.jobs, map[[103] := 1]))
  {
    hide PlannedBy, Capacity;
    LossyRun();
    var groups, devices := [Group([103], 0, 0)], [BUILT];
    var start, draft := Draft([], [], [], map[]),
        Draft(PLANNED.tables.partitions, PLANNED.tables.extents, PLANNED.jobs, map[[103] := 1]);
    assert [SPEC][..0] == [] && PlansTo([SPEC][..0], groups, devices, false, start);
    assert FirstGroup(groups, [103]) == Some(0);
    assert RunsFor([], devices, SPEC, [RUN]);
    assert RunExtents([RUN]) == PLANNED.tables.extents;
    assert JobsFor([1], PLANNED.tables.extents) == PLANNED.jobs by {
      assert StartOf(PLANNED.tables.extents, 1) == 512;
    }
    assert draft == Extended(start, SPEC, 0, [RUN]);
    assert IsNext(start, groups, devices, SPEC, draft);
    assert Plannable(start, groups, devices, SPEC, false);
  }

  /** The arguments are accepted. */
  lemma LossyPlan()
    ensures ArgsInRange(LOSSY) && PlanOf(LOSSY, PLANNED) && Renderable(NEW_HEADER, PLANNED.tables, 1000)
            && Makeable(LOSSY)
  {
    hide PlansTo, DeviceBuilt;
    LossyValid();
    LossyDevice();
    LossyDraft();
    assert NewGroups(LOSSY.groups) == PLANNED.tables.groups;
    assert TargetSlots(FirstSlot, 1) == Ok([0]);
    assert AllBuilt(PLANNED.tables.devices, LOSSY);
    MakeableBy(LOSSY, PLANNED);
  }

  /** The slot is zero where it reaches into the first sector of the device. */
  lemma LossyPlace(hash: Hash)
    requires Renderable(NEW_HEADER, PLANNED.tables, 1000)
    ensures LostAt(PLANNED, 0) == PayloadStart(PLANNED) == 13824 < SlotEnd(PLANNED, 0) == 14288
    ensures SlotBytes(hash, NEW_HEADER, PLANNED.tables, 1000)[536] == 0
  {
    TablesBlobSize(PLANNED.tables);
    assert CopyBase(1, 1000) == 13288;
  }

  ghost predicate StreamStarts(files: seq<seq<byte>>, es: seq<Extent>, b: byte)
    requires files != [] && |files| <= U32_MAX
  {
    [Some(b)] <= Stream(BackingOf(DisksOf(files)), es)
  }

  /** The `k`-th partition of the finished image starts with this byte. */
  ghost predicate FirstByteIs(hash: Hash, l: Layout, k: nat, b: byte) {
    && Laid(l) && Renderable(NEW_HEADER, l.tables, l.geometry.metadataMaxSize) && |l.tables.devices| <= U32_MAX
    && k < |l.tables.partitions|
    && StreamStarts(FinalFiles(hash, l), Meaning(l.tables)[k].extents, b)
  }

  /** The build succeeds, and its only partition, which was given the byte one, reads as zero. */
  lemma PayloadLost(hash: Hash)
    ensures ArgsInRange(LOSSY) && Makeable(LOSSY) && PlanOf(LOSSY, PLANNED)
    ensures |LOSSY.partitions| == 1 && PayloadOf(LOSSY.partitions[0]) == [1]
    ensures FirstByteIs(hash, PLANNED, 0, 0)
  {
    hide PlanOf, Makeable, Renderable, FinalFiles, SlotBytes, Placed, Follow, Stream, MetadataEnd, BackingOf;
    LossyPlan();
    PlanIsMade(LOSSY, PLANNED);
    LossyPlace(hash);
    LostByte(hash, PLANNED, 0);
    var files, es := FinalFiles(hash, PLANNED), Meaning(PLANNED.tables)[0].extents;
    assert es == PLANNED.tables.extents;
    LostStreamByte(PLANNED, files, es, 0, 0);
    assert StartOf(es, 0) == 0;
    assert Stream(BackingOf(DisksOf(files)), es)[0] == Some(0);
  }
}
