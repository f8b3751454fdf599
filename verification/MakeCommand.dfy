/**
 The `make` command: validation, planning, writing, for arguments that are already
 parsed; its guarantee for every accepted list of specs.
 */
module MakeCommand {
  import opened Alignment
  import opened Allocator
  import opened Base
  import opened Format
  import opened MakeImage
  import opened MakePlan
  import opened MakeReadBack
  import opened MetadataCodec
  import opened MetadataReader
  import opened MetadataSlot
  import opened MetadataStore
  import opened TableEditor
  import opened TableLaws
  import opened TableModel

  datatype GroupSpec = GroupSpec(name: Name, maximumSize: u64)

  datatype SlotChoice = FirstSlot | SecondSlot | AllSlots

  datatype MakeArgs = MakeArgs(
    devices: seq<DeviceSpec>, groups: seq<GroupSpec>, partitions: seq<PartitionSpec>,
    metadataSlots: u32, metadataSize: u32, alignment: u32, blockSize: u32,
    slot: SlotChoice, retrofit: bool, force: bool)

  /** List lengths fit 32-bit indices, payload lengths 64 bits. */
  ghost predicate ArgsInRange(args: MakeArgs) {
    |args.devices| <= U32_MAX && |args.groups| <= U32_MAX && PayloadsFit(args.partitions)
  }

  function TargetSlots(choice: SlotChoice, slotCount: u32): Result<seq<u64>> {
    match choice
    case FirstSlot => Ok([0])
    case SecondSlot => if slotCount < 2 then Err(Invalid) else Ok([1])
    case AllSlots => Ok(seq(slotCount, i requires 0 <= i < slotCount => i))
  }

  function NewGroups(groups: seq<GroupSpec>): (r: seq<Group>)
    ensures |r| == |groups|
  {
    seq(|groups|, i requires 0 <= i < |groups| => Group(groups[i].name, 0, groups[i].maximumSize))
  }

  ghost predicate DistinctDevices(specs: seq<DeviceSpec>) {
    forall j, k :: 0 <= j < |specs| && 0 <= k < |specs| && j != k ==> specs[j].name != specs[k].name
  }

  ghost predicate DistinctPartitions(specs: seq<PartitionSpec>) {
    forall j, k :: 0 <= j < |specs| && 0 <= k < |specs| && j != k ==> specs[j].name != specs[k].name
  }

  predicate NameFits(name: Name) {
    0 < |name| <= NAME_SIZE
  }

  /** What the spec parsers demand of names and sizes. */
  ghost predicate SpecsValid(args: MakeArgs) {
    && (forall k :: 0 <= k < |args.devices| ==> NameFits(args.devices[k].name) && args.devices[k].size > 0)
    && (forall k :: 0 <= k < |args.groups| ==> NameFits(args.groups[k].name))
    && (forall k :: 0 <= k < |args.partitions| ==>
          NameFits(args.partitions[k].name) && args.partitions[k].group != []
          && (args.partitions[k].pin.Some? ==> NameFits(args.partitions[k].pin.value)))
  }

  /** The checks in front of planning. */
  ghost predicate Valid(args: MakeArgs) {
    && SpecsValid(args)
    && args.devices != [] && GeometryInRange(Geometry(args.metadataSize, args.metadataSlots, args.blockSize))
    && TargetSlots(args.slot, args.metadataSlots).Ok?
    && DistinctDevices(args.devices) && DistinctPartitions(args.partitions)
    && (|args.devices| > 1 ==> args.retrofit)
    && forall k :: 0 <= k < |args.devices| ==>
         args.devices[k].size % SECTOR_SIZE == 0
         && ReserveBytes(args.metadataSlots, args.metadataSize, args.alignment) + SECTOR_SIZE <= args.devices[k].size
  }

  /** A layout made for these arguments. */
  ghost predicate MadeFor(l: Layout, args: MakeArgs)
    requires ArgsInRange(args)
  {
    && Laid(l) && l.geometry == Geometry(args.metadataSize, args.metadataSlots, args.blockSize)
    && TargetSlots(args.slot, args.metadataSlots) == Ok(l.slots) && l.tables.groups == NewGroups(args.groups)
    && |l.tables.devices| == |args.devices|
    && (forall k :: 0 <= k < |args.devices| ==>
          DeviceBuilt(l.tables.devices[k], args.devices[k], args.metadataSlots, args.metadataSize, args.alignment))
    && (Representable(l.tables.extents) ==>
          Planned(args.partitions, l.tables, l.jobs)
              && (!args.force ==> WithinQuota(Meaning(l.tables), l.tables.groups)))
  }

  /**
   The metadata area is clear of payload exactly when the reservation loses nothing in
   whole sectors or the first device's alignment skips the sector it cuts off.
   */
  lemma ClearExactly(l: Layout, args: MakeArgs)
    requires ArgsInRange(args) && MadeFor(l, args)
    ensures Clear(l)
            <==> ReserveIsExact(args.metadataSlots, args.metadataSize, args.alignment)
                 || !InPhase(ReserveSectors(args.metadataSlots, args.metadataSize, args.alignment),
                             args.devices[0].alignment, args.devices[0].alignmentOffset)
  {
    hide ReserveBytes, MetadataEnd, InPhase, Planned, WithinQuota, Placed, Follow;
    assert DeviceBuilt(l.tables.devices[0], args.devices[0], args.metadataSlots, args.metadataSize, args.alignment);
    FirstSectorClears(args.metadataSlots, args.metadataSize, args.alignment, l.tables.devices[0]);
  }

  /** The name and size checks of the spec parsers. */
  method CheckSpecs(args: MakeArgs) returns (ok: bool)
    ensures ok <==> SpecsValid(args)
  {
    for i := 0 to |args.devices|
      invariant forall k :: 0 <= k < i ==> NameFits(args.devices[k].name) && args.devices[k].size > 0
    {
      if args.devices[i].name == [] || |args.devices[i].name| > NAME_SIZE || args.devices[i].size == 0 {
        return false;
      }
    }
    for i := 0 to |args.groups|
      invariant forall k :: 0 <= k < i ==> NameFits(args.groups[k].name)
    {
      if args.groups[i].name == [] || |args.groups[i].name| > NAME_SIZE {
        return false;
      }
    }
    for i := 0 to |args.partitions|
      invariant forall k :: 0 <= k < i ==>
                  NameFits(args.partitions[k].name) && args.partitions[k].group != []
                  && (args.partitions[k].pin.Some? ==> NameFits(args.partitions[k].pin.value))
    {
      var p := args.partitions[i];
      if p.name == [] || p.group == [] || |p.name| > NAME_SIZE {
        return false;
      }
      if p.pin.Some? && (p.pin.value == [] || |p.pin.value| > NAME_SIZE) {
        return false;
      }
    }
    ok := true;
  }

  /** The checks in front of planning; devices are built on the way. */
  method Validate(args: MakeArgs) returns (r: Result<seq<BlockDevice>>)
    requires ArgsInRange(args)
    ensures r.Ok? <==> Valid(args)
    ensures r.Ok? ==> |r.value| == |args.devices| && forall k :: 0 <= k < |args.devices| ==>
              DeviceBuilt(r.value[k], args.devices[k], args.metadataSlots, args.metadataSize, args.alignment)
  {
    hide ReserveBytes, SpecsValid;
    if args.devices == [] {
      return Err(Invalid);
    }
    if !(1 <= args.metadataSlots <= 8) {
      return Err(Invalid);
    }
    if args.blockSize != 512 && args.blockSize != 4096 {
      return Err(Invalid);
    }
    if args.metadataSize == 0 || args.metadataSize > 16 * 1024 * 1024 {
      return Err(Invalid);
    }
    if TargetSlots(args.slot, args.metadataSlots).Err? {
      return Err(Invalid);
    }
    var specsOk := CheckSpecs(args);
    if !specsOk {
      return Err(Invalid);
    }
    var seenDevices: set<Name> := {};
    for i := 0 to |args.devices|
      invariant seenDevices == set k | 0 <= k < i :: args.devices[k].name
      invariant DistinctDevices(args.devices[..i])
    {
      if args.devices[i].name in seenDevices {
        var k :| 0 <= k < i && args.devices[k].name == args.devices[i].name;
        return Err(Invalid);
      }
      seenDevices := seenDevices + {args.devices[i].name};
    }
    assert args.devices[..|args.devices|] == args.devices;
    var seenPartitions: set<Name> := {};
    for i := 0 to |args.partitions|
      invariant seenPartitions == set k | 0 <= k < i :: args.partitions[k].name
      invariant DistinctPartitions(args.partitions[..i])
    {
      if args.partitions[i].name in seenPartitions {
        var k :| 0 <= k < i && args.partitions[k].name == args.partitions[i].name;
        return Err(Invalid);
      }
      seenPartitions := seenPartitions + {args.partitions[i].name};
    }
    assert args.partitions[..|args.partitions|] == args.partitions;
    if |args.devices| > 1 && !args.retrofit {
      return Err(Invalid);
    }
    r := BuildDevices(args.devices, args.metadataSlots, args.metadataSize, args.alignment);
  }

  ghost predicate AllBuilt(devices: seq<BlockDevice>, args: MakeArgs) {
    |devices| == |args.devices| && forall k :: 0 <= k < |args.devices| ==>
      DeviceBuilt(devices[k], args.devices[k], args.metadataSlots, args.metadataSize, args.alignment)
  }

  /** A device is determined by its spec and the reservation. */
  lemma BuiltIsOne(a: seq<BlockDevice>, b: seq<BlockDevice>, args: MakeArgs)
    requires AllBuilt(a, args) && AllBuilt(b, args)
    ensures a == b
  {
    hide ReserveSectors, LeastInPhase, AlignUp;
  }

  /** The layout that valid arguments are planned to. */
  ghost predicate PlanOf(args: MakeArgs, l: Layout)
    requires ArgsInRange(args)
  {
    && Valid(args) && l.geometry == Geometry(args.metadataSize, args.metadataSlots, args.blockSize)
    && TargetSlots(args.slot, args.metadataSlots) == Ok(l.slots) && AllBuilt(l.tables.devices, args)
    && exists draft :: PlansTo(args.partitions, NewGroups(args.groups), l.tables.devices, args.force, draft)
                       && l.tables == TablesOf(draft, NewGroups(args.groups), l.tables.devices) && l.jobs == draft.jobs
  }

  /** Arguments have at most one plan. */
  lemma PlanOfUnique(args: MakeArgs, l: Layout, l': Layout)
    requires ArgsInRange(args) && PlanOf(args, l) && PlanOf(args, l')
    ensures l == l'
  {
    hide Valid, PlansTo, DeviceBuilt;
    BuiltIsOne(l.tables.devices, l'.tables.devices, args);
    var groups, devices := NewGroups(args.groups), l.tables.devices;
    var a :| PlansTo(args.partitions, groups, devices, args.force, a) && l.tables == TablesOf(a, groups, devices)
        && l.jobs == a.jobs;
    var b :| PlansTo(args.partitions, groups, devices, args.force, b) && l'.tables == TablesOf(b, groups, devices)
        && l'.jobs == b.jobs;
    PlansToOne(args.partitions, groups, devices, args.force, a, b);
  }

  /** Some partition is not accepted next to the plan of those before it. */
  ghost predicate Unplannable(args: MakeArgs)
    requires ArgsInRange(args)
  {
    exists devices, at, before :: AllBuilt(devices, args)
        && StopsAt(args.partitions, NewGroups(args.groups), devices, args.force, at, before)
  }

  lemma UnplannableHasNoPlan(args: MakeArgs, l: Layout)
    requires ArgsInRange(args) && Unplannable(args)
    ensures !PlanOf(args, l)
  {
    hide Valid, PlansTo, DeviceBuilt, StopsAt;
    if PlanOf(args, l) {
      var devices, at, before :| AllBuilt(devices, args)
          && StopsAt(args.partitions, NewGroups(args.groups), devices, args.force, at, before);
      BuiltIsOne(l.tables.devices, devices, args);
      var draft :| PlansTo(args.partitions, NewGroups(args.groups), devices, args.force, draft);
      StoppedHasNoPlan(args.partitions, NewGroups(args.groups), devices, args.force, at, before, draft);
    }
  }

  /** The arguments have a plan that can be rendered. */
  ghost predicate Makeable(args: MakeArgs)
    requires ArgsInRange(args)
  {
    exists l :: PlanOf(args, l) && Renderable(NEW_HEADER, l.tables, args.metadataSize)
  }

  /** A plan that cannot be rendered is the only one there is. */
  lemma UnrenderableIsNotMakeable(args: MakeArgs, l: Layout)
    requires ArgsInRange(args) && PlanOf(args, l) && !Renderable(NEW_HEADER, l.tables, args.metadataSize)
    ensures !Makeable(args)
  {
    hide PlanOf, Renderable;
    if l' :| PlanOf(args, l') && Renderable(NEW_HEADER, l'.tables, args.metadataSize) {
      PlanOfUnique(args, l, l');
    }
  }

  /** The slots that were asked for load the planned tables; no other slot is written. */
  ghost predicate SlotsAsAsked(hash: Hash, args: MakeArgs, l: Layout, disk: seq<byte>)
    requires Laid(l)
  {
    forall s: u32 :: s < args.metadataSlots ==>
      if (args.slot == FirstSlot && s == 0) || (args.slot == SecondSlot && s == 1) || args.slot == AllSlots then
        s in l.slots && (StorableNames(l.tables) ==> LoadsAs(hash, disk, l.geometry, s, l.tables))
      else s !in l.slots && LeftAlone(hash, l, s, disk)
  }

  /** The layout of these arguments writes the slots they ask for. */
  lemma AskedSlotsWritten(hash: Hash, args: MakeArgs, l: Layout)
    requires Laid(l) && Renderable(NEW_HEADER, l.tables, l.geometry.metadataMaxSize)
    requires l.geometry.metadataSlotCount == args.metadataSlots
             && TargetSlots(args.slot, args.metadataSlots) == Ok(l.slots)
    ensures SlotsAsAsked(hash, args, l, FinalFiles(hash, l)[0])
  {
    hide Renderable, FinalFiles, LeftAlone, LoadsAs, StorableNames, Placed, Follow, MetadataEnd;
    forall s: u32 | s < args.metadataSlots
      ensures s in l.slots <==>
                (args.slot == FirstSlot && s == 0) || (args.slot == SecondSlot && s == 1) || args.slot == AllSlots
      ensures s in l.slots && StorableNames(l.tables) ==>
                LoadsAs(hash, FinalFiles(hash, l)[0], l.geometry, s, l.tables)
      ensures s !in l.slots ==> LeftAlone(hash, l, s, FinalFiles(hash, l)[0])
    {
      assert args.slot == AllSlots ==> l.slots[s] == s;
      if s !in l.slots {
        OtherSlotLeftAlone(hash, l, s);
      } else if StorableNames(l.tables) {
        TargetSlotLoads(hash, l, s);
      }
    }
  }

  /** The files of a layout that was planned as specified, and what they read back as. */
  ghost predicate Made(hash: Hash, args: MakeArgs, l: Layout, files: seq<seq<byte>>)
    requires ArgsInRange(args)
  {
    && MadeFor(l, args) && Planned(args.partitions, l.tables, l.jobs)
    && Renderable(NEW_HEADER, l.tables, args.metadataSize) && files == FinalFiles(hash, l)
    && ReadsBack(hash, l, args.partitions, files) && SlotsAsAsked(hash, args, l, files[0])
  }

  /**
   The command. It succeeds exactly for valid arguments whose specs are accepted in
   turn and whose tables can be rendered; the plan is the only one there is. Whatever
   it accepts is planned as specified, written out and reads back as `ReadsBack` says.
   */
  method Make(hash: Hash, args: MakeArgs) returns (r: Result<seq<seq<byte>>>, ghost l: Layout)
    requires ArgsInRange(args)
    ensures r.Ok? <==> Makeable(args)
    ensures r.Ok? ==> PlanOf(args, l) && Made(hash, args, l, r.value)
    ensures r.Err? ==>
              || !Valid(args) || Unplannable(args)
              || (PlanOf(args, l) && !Renderable(NEW_HEADER, l.tables, args.metadataSize))
  {
    hide Placed, Follow, Planned, StopsAt, PlansTo, DeviceBuilt, ReserveBytes, MetadataEnd, WithinQuota, FinalFiles,
      Clear, StorableNames, ReadsBack, SlotsAsAsked, DistinctDevices, SpecsValid, Tracks, TablesSize, Makeable;
    l := Layout(Geometry(0, 0, 0), Tables([], [], [], []), [], []);
    var devices := Validate(args);
    if devices.Err? {
      InvalidIsNotMakeable(args);
      return Err(devices.error), l;
    }
    DevicesBuilt(devices.value, args);
    var groups := NewGroups(args.groups);
    var draft, at, before := PlanPartitions(groups, devices.value, args.partitions, args.force);
    if draft.Err? {
      assert AllBuilt(devices.value, args);
      UnplannableIsNotMakeable(args);
      return Err(draft.error), l;
    }
    var layout := Layout(Geometry(args.metadataSize, args.metadataSlots, args.blockSize),
                         TablesOf(draft.value, groups, devices.value), draft.value.jobs,
                         TargetSlots(args.slot, args.metadataSlots).value);
    l := layout;
    assert PlanOf(args, l);
    r := WriteFiles(hash, layout);
    if r.Err? {
      UnrenderableIsNotMakeable(args, l);
    } else {
      MakeableBy(args, l);
      MakeThenRead(hash, l, args.partitions);
      AskedSlotsWritten(hash, args, l);
    }
  }

  lemma MakeableBy(args: MakeArgs, l: Layout)
    requires ArgsInRange(args) && PlanOf(args, l) && Renderable(NEW_HEADER, l.tables, args.metadataSize)
    ensures Makeable(args)
  {
    hide PlanOf, Renderable;
  }

  lemma InvalidIsNotMakeable(args: MakeArgs)
    requires ArgsInRange(args) && !Valid(args)
    ensures !Makeable(args)
  {
    hide Valid, Renderable, AllBuilt;
  }

  lemma UnplannableIsNotMakeable(args: MakeArgs)
    requires ArgsInRange(args) && Unplannable(args)
    ensures !Makeable(args)
  {
    hide PlanOf, Renderable, Unplannable;
    if l :| PlanOf(args, l) && Renderable(NEW_HEADER, l.tables, args.metadataSize) {
      UnplannableHasNoPlan(args, l);
    }
  }

  lemma DevicesBuilt(devices: seq<BlockDevice>, args: MakeArgs)
    requires ArgsInRange(args) && Valid(args) && |devices| == |args.devices|
    requires forall k :: 0 <= k < |args.devices| ==>
               DeviceBuilt(devices[k], args.devices[k], args.metadataSlots, args.metadataSize, args.alignment)
    ensures DevicesUsable(devices) && MetadataEnd(args.metadataSlots, args.metadataSize) <= devices[0].size
    ensures MetadataEnd(args.metadataSlots, args.metadataSize) < (devices[0].firstLogicalSector + 1) * SECTOR_SIZE
  {
    hide MetadataEnd, InPhase, SpecsValid;
    assert DeviceBuilt(devices[0], args.devices[0], args.metadataSlots, args.metadataSize, args.alignment);
    hide ReserveBytes;
  }
}
