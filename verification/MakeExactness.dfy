/**
 When exactly a build loses payload: the argument lists whose images stream every
 payload of the given lengths, and one that is accepted and loses its payload.
 */
module MakeExactness {
  import opened Alignment
  import opened Allocator
  import opened Arithmetic
  import opened Base
  import opened ExtentStream
  import opened Format
  import opened MakeCommand
  import opened MakeDrafts
  import opened MakeImage
  import opened MakePlan
  import opened MakeReadBack
  import opened MetadataCodec
  import opened MetadataIsolation
  import opened MetadataSlot
  import opened Payload
  import opened Planner
  import opened SparseImage
  import opened TableEditor
  import opened TableLaws
  import opened TableModel
  import opened TableStreams

  // ------------------------------------------------- what a plan promises

  /** A plan is a layout made for its arguments. */
  lemma PlanIsMade(args: MakeArgs, l: Layout)
    requires ArgsInRange(args) && PlanOf(args, l)
    ensures MadeFor(l, args) && |l.tables.devices| <= U32_MAX && |l.tables.groups| <= U32_MAX
  {
    hide PlansTo, Placed, Follow, DeviceBuilt, Planned, Tracks, WithinQuota, SpecsValid, DistinctDevices, MetadataEnd,
      ReserveBytes;
    var groups, devices := NewGroups(args.groups), l.tables.devices;
    DevicesBuilt(devices, args);
    var draft :| PlansTo(args.partitions, groups, devices, args.force, draft)
                 && l.tables == TablesOf(draft, groups, devices) && l.jobs == draft.jobs;
    PlansToDrafted(args.partitions, groups, devices, args.force, draft);
  }

  /** A plan fills its devices from their first allocatable sector. */
  lemma PlanFromStart(args: MakeArgs, l: Layout)
    requires ArgsInRange(args) && PlanOf(args, l)
    ensures FromStart(l.tables.extents, l.tables.devices)
  {
    hide PlansTo, Valid, FromStart, ReserveSectors, AlignUp;
    var groups, devices := NewGroups(args.groups), l.tables.devices;
    var draft :| PlansTo(args.partitions, groups, devices, args.force, draft)
                 && l.tables == TablesOf(draft, groups, devices) && l.jobs == draft.jobs;
    forall k | 0 <= k < |devices|
      ensures Limit(devices[k]) > 0
              && InPhase(devices[k].firstLogicalSector, devices[k].alignment, devices[k].alignmentOffset)
    {
      assert DeviceBuilt(devices[k], args.devices[k], args.metadataSlots, args.metadataSize, args.alignment);
    }
    PlansToFromStart(args.partitions, groups, devices, args.force, draft);
  }

  // ------------------------------------------------------------- placement

  /** No segment lies in the metadata area if and only if the reservation is clear or device 0 stays empty. */
  lemma PlacementExactly(args: MakeArgs, l: Layout)
    requires ArgsInRange(args) && PlanOf(args, l)
    ensures SegmentsClear(l) <==> Clear(l) || !Uses(l.tables.extents, 0)
  {
    hide PlanOf, Planned, WithinQuota, MetadataEnd, DeviceBuilt;
    PlanIsMade(args, l);
    PlanFromStart(args, l);
    var extents := l.tables.extents;
    if Uses(extents, 0) && !Clear(l) {
      assert StartsAt(extents, 0, l.tables.devices[0].firstLogicalSector);
      var i :| 0 <= i < |extents| && OnDevice(extents[i], 0)
          && extents[i].targetData == l.tables.devices[0].firstLogicalSector;
      assert l.jobs[i].device == 0;
    } else {
      forall i | 0 <= i < |l.jobs| && l.jobs[i].device == 0 ensures MetaEnd(l) <= l.jobs[i].sector * SECTOR_SIZE {
        assert OnDevice(extents[i], 0) && extents[i] in extents;
        assert InDevice(extents[i], l.tables.devices);
      }
    }
  }

  /** With one device, it stays empty exactly if there is no payload at all. */
  lemma OneDeviceUsed(args: MakeArgs, l: Layout)
    requires ArgsInRange(args) && PlanOf(args, l) && Representable(l.tables.extents) && |args.devices| == 1
    ensures Uses(l.tables.extents, 0) <==> exists k :: 0 <= k < |args.partitions| && PayloadOf(args.partitions[k]) != []
  {
    hide PlanOf, WithinQuota, MetadataEnd, DeviceBuilt, Segmented, Follow;
    PlanIsMade(args, l);
    var t := l.tables;
    if k :| 0 <= k < |args.partitions| && PayloadOf(args.partitions[k]) != [] {
      var es := Meaning(t)[k].extents;
      assert Serves(Meaning(t)[k], args.partitions[k], t) && es != [];
      assert es[0] == t.extents[t.partitions[k].firstExtentIndex];
      assert InDevice(es[0], t.devices) && es[0] in t.extents;
    }
    if Uses(t.extents, 0) {
      var i :| 0 <= i < |t.extents| && OnDevice(t.extents[i], 0);
      var k, j := OwnerOf(t, i);
      assert Serves(Meaning(t)[k], args.partitions[k], t);
      SomeSectors(Meaning(t)[k].extents, j);
    }
  }

  /** The partition an extent belongs to, and its place in the chain. */
  lemma OwnerOf(t: Tables, i: nat) returns (k: nat, j: nat)
    requires WellFormed(t) && i < |t.extents|
    ensures k < |t.partitions| && j < |Meaning(t)[k].extents| && Meaning(t)[k].extents[j] == t.extents[i]
  {
    hide Placed, UniqueNames, GroupsValid, WindowsApart;
    assert Covered(t.partitions, i);
    k :| 0 <= k < |t.partitions| && Owns(t.partitions[k], i);
    assert WindowEnd(t.partitions[k]) <= |t.extents|;
    j := i - t.partitions[k].firstExtentIndex;
  }

  lemma {:induction false} SomeSectors(es: seq<Extent>, j: nat)
    requires j < |es| && es[j].numSectors > 0
    ensures Sectors(es) > 0
  {
    if j == |es| - 1 {
      assert es == es[..j] + [es[j]];
      SectorsConcat(es[..j], [es[j]]);
      SectorsOne(es[j]);
    } else {
      SomeSectors(es[..|es| - 1], j);
      assert es == es[..|es| - 1] + [es[|es| - 1]];
      SectorsConcat(es[..|es| - 1], [es[|es| - 1]]);
    }
  }

  // --------------------------------------------------------------- streams

  /** The same arguments up to the bytes of the payloads. */
  ghost predicate SameShape(args: MakeArgs, args': MakeArgs) {
    args'.(partitions := args.partitions) == args && SameSpecs(args.partitions, args'.partitions)
  }

  /** Every partition of the finished image streams its payload. */
  ghost predicate Streamed(hash: Hash, l: Layout, specs: seq<PartitionSpec>) {
    && Laid(l) && Renderable(NEW_HEADER, l.tables, l.geometry.metadataMaxSize)
    && |l.tables.devices| <= U32_MAX && |specs| == |l.tables.partitions|
    && forall k :: 0 <= k < |specs| ==> Streams(l, specs, k, FinalFiles(hash, l))
  }

  /** Arguments of one shape are planned to the same tables. */
  lemma PlanShape(args: MakeArgs, args': MakeArgs, l: Layout) returns (l': Layout)
    requires ArgsInRange(args) && PlanOf(args, l) && SameShape(args, args')
    ensures ArgsInRange(args') && PlanOf(args', l') && l'.(jobs := l.jobs) == l
  {
    hide PlansTo, DeviceBuilt, ReserveBytes, SameSpec;
    var groups, devices := NewGroups(args.groups), l.tables.devices;
    var draft :| PlansTo(args.partitions, groups, devices, args.force, draft)
                 && l.tables == TablesOf(draft, groups, devices) && l.jobs == draft.jobs;
    var draft' := PlansToShape(args.partitions, args'.partitions, groups, devices, args.force, draft);
    l' := l.(jobs := draft'.jobs);
    ShapeValid(args, args');
  }

  lemma ShapeValid(args: MakeArgs, args': MakeArgs)
    requires Valid(args) && SameShape(args, args')
    ensures Valid(args')
  {
    hide ReserveBytes, DistinctDevices;
    forall k | 0 <= k < |args.partitions|
      ensures var a, b := args.partitions[k], args'.partitions[k];
              a.name == b.name && a.group == b.group && a.pin == b.pin
    {
      assert SameSpec(args.partitions[k], args'.partitions[k]);
    }
  }

  /** Where no target slot reaches, or device 0 is empty, all payloads stream. */
  lemma SparedStreams(hash: Hash, args: MakeArgs, l: Layout)
    requires ArgsInRange(args) && PlanOf(args, l) && Renderable(NEW_HEADER, l.tables, args.metadataSize)
    requires Spared(l) || !Uses(l.tables.extents, 0)
    ensures Streamed(hash, l, args.partitions)
  {
    hide PlanOf, WithinQuota, MetadataEnd, DeviceBuilt, Segmented, Follow, Placed, Spared, FinalFiles, Streams,
      TablesSize;
    PlanIsMade(args, l);
    forall k | 0 <= k < |args.partitions| ensures Streams(l, args.partitions, k, FinalFiles(hash, l)) {
      if !Spared(l) {
        NotFirst(l, args.partitions, k);
      }
      PartitionReadsBack(hash, l, args.partitions, k);
    }
  }

  lemma NotFirst(l: Layout, specs: seq<PartitionSpec>, k: nat)
    requires l.tables.devices != [] && PayloadsFit(specs) && |l.tables.groups| <= U32_MAX
             && |l.tables.devices| <= U32_MAX
    requires Planned(specs, l.tables, l.jobs) && k < |specs| && !Uses(l.tables.extents, 0)
    ensures !TakesFirst(l, Meaning(l.tables)[k].extents)
  {
    hide Segmented, Placed, Covered, WindowsApart;
    var t, es := l.tables, Meaning(l.tables)[k].extents;
    assert Serves(Meaning(t)[k], specs[k], t) && WindowEnd(t.partitions[k]) <= |t.extents|;
    forall j | 0 <= j < |es| ensures es[j].targetSource != 0 {
      assert es[j] == t.extents[t.partitions[k].firstExtentIndex + j];
      assert es[j] in t.extents;
    }
  }

  /** An extent at device 0's first sector streams the byte that the file holds there. */
  lemma LostStreamByte(l: Layout, files: seq<seq<byte>>, es: seq<Extent>, j: nat, s: u64)
    requires l.tables.devices != [] && files != [] && |files| <= U32_MAX && j < |es| && es[j].numSectors > 0
    requires OnDevice(es[j], 0) && es[j].targetData == l.tables.devices[0].firstLogicalSector
    requires LostAt(l, s) < PayloadStart(l) + SECTOR_SIZE && LostAt(l, s) < |files[0]|
    ensures var x := StartOf(es, j) + (LostAt(l, s) - PayloadStart(l));
            x < TotalBytes(es) && Stream(BackingOf(DisksOf(files)), es)[x] == Some(files[0][LostAt(l, s)])
  {
    hide Stream, StartOf, BackingOf;
    var d, p := DisksOf(files), LostAt(l, s) - PayloadStart(l);
    StreamAt(BackingOf(d), es, j, p);
    BackingBytes(d, 0, LostAt(l, s));
  }

  /** A payload of one repeated byte differs from `v` there. */
  lemma RepeatedDiffers(payload: seq<byte>, c: byte, es: seq<Extent>, j: nat, p: nat, v: byte)
    requires (forall x :: 0 <= x < |payload| ==> payload[x] == c) && c != v && (p > 0 ==> v != 0)
    requires TotalBytes(es) == |Padded(payload)| && j < |es| && es[j].numSectors > 0 && p < SECTOR_SIZE
    ensures StartOf(es, j) + p < |Padded(payload)| && Padded(payload)[StartOf(es, j) + p] != v
  {
    hide StartOf, TotalBytes;
    StartNext(es, j);
  }

  /** What the slot has at the place of the first lost byte. */
  function SlotByteAt(l: Layout, s: u64, blob: seq<byte>): byte
    requires l.tables.devices != []
  {
    var base := CopyBase(l.geometry.metadataSlotCount + s, l.geometry.metadataMaxSize);
    if LostAt(l, s) < base + |blob| then blob[LostAt(l, s) - base] else 0
  }

  /** A partition whose payload repeats another byte than the slot has there does not stream. */
  lemma RepeatedIsLost(hash: Hash, l: Layout, specs: seq<PartitionSpec>, k: nat, j: nat, s: u64, c: byte)
    requires Laid(l) && Renderable(NEW_HEADER, l.tables, l.geometry.metadataMaxSize) && |l.tables.devices| <= U32_MAX
    requires |l.tables.groups| <= U32_MAX && PayloadsFit(specs) && Planned(specs, l.tables, l.jobs)
    requires k < |specs| && j < |Meaning(l.tables)[k].extents|
    requires var e := Meaning(l.tables)[k].extents[j];
             OnDevice(e, 0) && e.targetData == l.tables.devices[0].firstLogicalSector
    requires s in l.slots && PayloadStart(l) < SlotEnd(l, s)
    requires forall x :: 0 <= x < |PayloadOf(specs[k])| ==> PayloadOf(specs[k])[x] == c
    requires c != SlotByteAt(l, s, SlotBytes(hash, NEW_HEADER, l.tables, l.geometry.metadataMaxSize))
    ensures !Streams(l, specs, k, FinalFiles(hash, l))
  {
    hide FinalFiles, Renderable, SlotBytes, Stream, StartOf, Placed, Follow, MetadataEnd, CopyBase, MeaningOf, Padded,
      TotalBytes, WellFormed, Segmented, BackingOf;
    var es, files, payload := Meaning(l.tables)[k].extents, FinalFiles(hash, l), PayloadOf(specs[k]);
    var v := SlotByteAt(l, s, SlotBytes(hash, NEW_HEADER, l.tables, l.geometry.metadataMaxSize));
    var p := LostAt(l, s) - PayloadStart(l);
    assert Serves(Meaning(l.tables)[k], specs[k], l.tables);
    LostByte(hash, l, s);
    FirstByte(hash, NEW_HEADER, l.tables, l.geometry.metadataMaxSize);
    LostStreamByte(l, files, es, j, s);
    BytesAreSectors(es);
    RepeatedDiffers(payload, c, es, j, p, v);
  }

  /** Where a target slot reaches payload, payload of the same lengths is lost. */
  lemma SomePayloadIsLost(hash: Hash, args: MakeArgs, l: Layout) returns (args': MakeArgs, l': Layout)
    requires ArgsInRange(args) && PlanOf(args, l) && Renderable(NEW_HEADER, l.tables, args.metadataSize)
    requires !Spared(l) && Uses(l.tables.extents, 0)
    ensures ArgsInRange(args') && SameShape(args, args') && PlanOf(args', l')
    ensures !Streamed(hash, l', args'.partitions)
  {
    hide PlanOf, WithinQuota, MetadataEnd, DeviceBuilt, Segmented, Follow, Placed, FinalFiles, Streams, TablesSize,
      SlotBytes, SlotEnd, SlotByteAt, PayloadStart;
    PlanIsMade(args, l);
    PlanFromStart(args, l);
    var t := l.tables;
    assert StartsAt(t.extents, 0, t.devices[0].firstLogicalSector);
    var i :| 0 <= i < |t.extents| && OnDevice(t.extents[i], 0)
        && t.extents[i].targetData == t.devices[0].firstLogicalSector;
    var k, j := OwnerOf(t, i);
    var s: u64 :| s in l.slots && PayloadStart(l) < SlotEnd(l, s);
    var v := SlotByteAt(l, s, SlotBytes(hash, NEW_HEADER, t, args.metadataSize));
    var c: byte := if v == 0 then 1 else 0;
    var spec := args.partitions[k];
    var payload := seq(|PayloadOf(spec)|, _ => c);
    args' := args.(partitions := args.partitions[k := spec.(payload := Some(payload))]);
    l' := PlanShape(args, args', l);
    PlanIsMade(args', l');
    if Streamed(hash, l', args'.partitions) {
      SameSlots(l, l', s);
      RepeatedIsLost(hash, l', args'.partitions, k, j, s, c);
    }
  }

  lemma SameSlots(l: Layout, l': Layout, s: u64)
    requires l.tables.devices != [] && l'.(jobs := l.jobs) == l
    ensures PayloadStart(l') == PayloadStart(l) && SlotEnd(l', s) == SlotEnd(l, s)
    ensures forall blob :: SlotByteAt(l', s, blob) == SlotByteAt(l, s, blob)
  {}

  /**
   An accepted build streams every payload of these lengths if and only if no copy of a
   target slot reaches the first sector of device 0, or device 0 stays empty.
   */
  lemma StreamsExactly(hash: Hash, args: MakeArgs, l: Layout)
    requires ArgsInRange(args) && PlanOf(args, l) && Renderable(NEW_HEADER, l.tables, args.metadataSize)
    ensures l.tables.devices != []
    ensures (forall args', l' :: ArgsInRange(args') && SameShape(args, args') && PlanOf(args', l') ==>
               Streamed(hash, l', args'.partitions))
            <==> Spared(l) || !Uses(l.tables.extents, 0)
  {
    hide PlanOf, Renderable, MadeFor, Streamed, SameShape, Spared, Uses;
    PlanIsMade(args, l);
    assert l.tables.devices != [] by {
      MadeHasDevices(args, l);
    }
    if Spared(l) || !Uses(l.tables.extents, 0) {
      forall args', l' | ArgsInRange(args') && SameShape(args, args') && PlanOf(args', l')
        ensures Streamed(hash, l', args'.partitions)
      {
        ShapeStreams(hash, args, l, args', l');
      }
    } else {
      var args', l' := SomePayloadIsLost(hash, args, l);
    }
  }

  lemma MadeHasDevices(args: MakeArgs, l: Layout)
    requires ArgsInRange(args) && MadeFor(l, args)
    ensures l.tables.devices != []
  {}

  lemma ShapeStreams(hash: Hash, args: MakeArgs, l: Layout, args': MakeArgs, l': Layout)
    requires ArgsInRange(args) && PlanOf(args, l) && Renderable(NEW_HEADER, l.tables, args.metadataSize)
             && l.tables.devices != []
    requires Spared(l) || !Uses(l.tables.extents, 0)
    requires ArgsInRange(args') && SameShape(args, args') && PlanOf(args', l')
    ensures Streamed(hash, l', args'.partitions)
  {
    hide PlanOf, Renderable, Streamed, SlotEnd, PayloadStart;
    var l'' := PlanShape(args, args', l);
    PlanOfUnique(args', l', l'');
    forall s: u64 | s in l.slots ensures PayloadStart(l') == PayloadStart(l) && SlotEnd(l', s) == SlotEnd(l, s) {
      SameSlots(l, l', s);
    }
    SparedStreams(hash, args', l');
  }
}
