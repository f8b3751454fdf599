/**
 Facts about every plan of a build: it is sound, it fills devices from their first
 sector, and it depends on payload lengths alone.
 */
module MakeDrafts {
  import opened Alignment
  import opened Allocator
  import opened Base
  import opened Format
  import opened MakePlan
  import opened MetadataCodec
  import opened Planner
  import opened TableEditor
  import opened TableLaws
  import opened TableModel

  // ------------------------------------------------------- plans are sound

  /** A plan fits and adds up. */
  lemma PlannedByFits(extents: seq<Extent>, devices: seq<BlockDevice>, needed: int, plan: seq<Run>)
    requires Regular(extents, devices) && needed > 0 && PlannedBy(extents, devices, needed, plan)
    ensures PlanFits(extents, devices, plan) && TotalLength(plan) == needed
  {
    hide Regular, IsFit, NextDevice;
    if SomeDeviceFits(extents, devices, needed) {
      SinglePlan(extents, devices, needed, plan[0]);
      assert plan == [plan[0]];
    } else {
      forall i | 0 <= i < |plan|
        ensures plan[i].length > 0 && plan[i].device < |devices|
        ensures IsFit(extents + RunExtents(plan[..i]), devices[plan[i].device], plan[i].device, plan[i].length,
                      plan[i].sector)
      {
        assert GreedyRun(extents + RunExtents(plan[..i]), devices, NextFrom(plan[..i]), needed - TotalLength(plan[..i]),
                         plan[i]);
      }
    }
  }

  lemma ServedByFits(extents: seq<Extent>, devices: seq<BlockDevice>, pin: Option<Name>, needed: int, plan: seq<Run>)
    requires |devices| <= U32_MAX && Regular(extents, devices) && needed > 0
             && ServedBy(extents, devices, pin, needed, plan)
    ensures PlanFits(extents, devices, plan) && TotalLength(plan) == needed
    ensures pin.Some? ==> |plan| == 1 && Some(plan[0].device) == FirstDevice(devices, pin.value)
  {
    hide Regular, IsFit, FirstDevice, PlannedBy, PlanFits, TotalLength, HasFit;
    if pin.None? {
      PlannedByFits(extents, devices, needed, plan);
    } else {
      OneRunPlan(extents, devices, plan[0]);
      assert plan == [plan[0]];
    }
  }

  lemma OneRunPlan(extents: seq<Extent>, devices: seq<BlockDevice>, run: Run)
    requires run.length > 0 && run.device < |devices|
    requires IsFit(extents, devices[run.device], run.device, run.length, run.sector)
    ensures PlanFits(extents, devices, [run]) && TotalLength([run]) == run.length
  {
    hide IsFit;
    assert extents + RunExtents([]) == extents;
    PlanExtend(extents, devices, [], run);
    assert [] + [run] == [run];
  }

  /** One more spec keeps a draft sound. */
  lemma NextDrafted(specs: seq<PartitionSpec>, before: Draft, groups: seq<Group>, devices: seq<BlockDevice>,
                    spec: PartitionSpec,
                    force: bool, after: Draft)
    requires PayloadsFit(specs) && |PayloadOf(spec)| <= U64_MAX
    requires |groups| <= U32_MAX && |devices| <= U32_MAX && DevicesUsable(devices)
    requires Drafted(specs, before, groups, devices, force) && Plannable(before, groups, devices, spec, force)
    requires forall k :: 0 <= k < |specs| ==> specs[k].name != spec.name
    requires IsNext(before, groups, devices, spec, after)
    ensures PayloadsFit(specs + [spec]) && Drafted(specs + [spec], after, groups, devices, force)
  {
    hide Servable, ServedBy, PlanFits, FirstDevice, FirstGroup, DraftSound, Follow, Placed, DevicesUsable, Regular,
      TotalLength, Extended;
    var g := FirstGroup(groups, spec.group).value;
    var plan :| RunsFor(before.extents, devices, spec, plan) && after == Extended(before, spec, g, plan);
    PlacedIsRegular(before.extents, devices);
    if PayloadOf(spec) == [] {
      EmptyPlan(before.extents, devices, before.jobs, PayloadOf(spec));
    } else {
      ServedByFits(before.extents, devices, spec.pin, DivCeil(|PayloadOf(spec)|, SECTOR_SIZE), plan);
    }
    ExtendedSound(specs, before, groups, devices, spec, plan, force, after);
  }

  /** Every plan of a list of specs is sound. */
  lemma {:induction false} PlansToDrafted(specs: seq<PartitionSpec>, groups: seq<Group>, devices: seq<BlockDevice>,
                                          force: bool, draft: Draft)
    requires PayloadsFit(specs) && |groups| <= U32_MAX && |devices| <= U32_MAX && DevicesUsable(devices)
    requires forall j, k :: 0 <= j < |specs| && 0 <= k < |specs| && j != k ==> specs[j].name != specs[k].name
    requires PlansTo(specs, groups, devices, force, draft)
    ensures Drafted(specs, draft, groups, devices, force)
    decreases |specs|
  {
    hide Drafted, Plannable, IsNext, DevicesUsable;
    if specs == [] {
      NothingDrafted(groups, devices, force);
    } else {
      var n := |specs| - 1;
      var before :| PlansTo(specs[..n], groups, devices, force, before)
                    && Plannable(before, groups, devices, specs[n], force)
                    && IsNext(before, groups, devices, specs[n], draft);
      PlansToDrafted(specs[..n], groups, devices, force, before);
      NextDrafted(specs[..n], before, groups, devices, specs[n], force, draft);
      assert specs[..n] + [specs[n]] == specs;
    }
  }

  // ---------------------------------------- devices fill from their start

  ghost predicate Uses(extents: seq<Extent>, k: int) {
    exists e :: e in extents && OnDevice(e, k)
  }

  ghost predicate StartsAt(extents: seq<Extent>, k: int, sector: int) {
    exists e :: e in extents && OnDevice(e, k) && e.targetData == sector
  }

  /** A device that is used at all is used from its first allocatable sector on. */
  ghost predicate FromStart(extents: seq<Extent>, devices: seq<BlockDevice>) {
    forall k :: 0 <= k < |devices| && Uses(extents, k) ==> StartsAt(extents, k, devices[k].firstLogicalSector)
  }

  /** Runs may start at every device's first allocatable sector. */
  ghost predicate StartsInPhase(devices: seq<BlockDevice>) {
    forall k :: 0 <= k < |devices| ==>
      Limit(devices[k]) > 0 && InPhase(devices[k].firstLogicalSector, devices[k].alignment, devices[k].alignmentOffset)
  }

  /** First fit puts the first extent of a device at its first allocatable sector. */
  lemma FirstOnDevice(w: seq<Extent>, d: BlockDevice, k: int, len: int, sector: int)
    requires Limit(d) > 0 && InPhase(d.firstLogicalSector, d.alignment, d.alignmentOffset)
    requires !Uses(w, k) && IsFirstFit(w, d, k, len, sector)
    ensures sector == d.firstLogicalSector
  {
    assert IsFit(w, d, k, len, d.firstLogicalSector);
  }

  lemma OneRunFromStart(w: seq<Extent>, devices: seq<BlockDevice>, run: Run)
    requires StartsInPhase(devices) && FromStart(w, devices) && run.device < |devices|
    requires IsFirstFit(w, devices[run.device], run.device, run.length, run.sector)
    ensures FromStart(w + [RunExtent(run)], devices)
  {
    hide IsFirstFit;
    var after, e := w + [RunExtent(run)], RunExtent(run);
    assert e in after && OnDevice(e, run.device);
    forall k | 0 <= k < |devices| && Uses(after, k) ensures StartsAt(after, k, devices[k].firstLogicalSector) {
      if Uses(w, k) {
        var o :| o in w && OnDevice(o, k) && o.targetData == devices[k].firstLogicalSector;
        assert o in after;
      } else {
        FirstOnDevice(w, devices[k], k, run.length, run.sector);
      }
    }
  }

  /** Every run starts at its first fit. */
  ghost predicate FirstFits(extents: seq<Extent>, devices: seq<BlockDevice>, plan: seq<Run>) {
    forall i :: 0 <= i < |plan| ==>
      && plan[i].device < |devices|
      && IsFirstFit(extents + RunExtents(plan[..i]), devices[plan[i].device], plan[i].device, plan[i].length,
                    plan[i].sector)
  }

  lemma ServedByFirstFits(extents: seq<Extent>, devices: seq<BlockDevice>, pin: Option<Name>, needed: int,
                          plan: seq<Run>)
    requires |devices| <= U32_MAX && ServedBy(extents, devices, pin, needed, plan)
    ensures FirstFits(extents, devices, plan)
  {
    hide IsFirstFit, NextDevice, FirstDevice;
    if pin.Some? || SomeDeviceFits(extents, devices, needed) {
      assert extents + RunExtents(plan[..0]) == extents;
    } else {
      forall i | 0 <= i < |plan|
        ensures plan[i].device < |devices|
        ensures IsFirstFit(extents + RunExtents(plan[..i]), devices[plan[i].device], plan[i].device, plan[i].length,
                           plan[i].sector)
      {
        assert GreedyRun(extents + RunExtents(plan[..i]), devices, NextFrom(plan[..i]), needed - TotalLength(plan[..i]),
                         plan[i]);
      }
    }
  }

  lemma {:induction false} RunsFromStart(extents: seq<Extent>, devices: seq<BlockDevice>, plan: seq<Run>)
    requires StartsInPhase(devices) && FromStart(extents, devices) && FirstFits(extents, devices, plan)
    ensures FromStart(extents + RunExtents(plan), devices)
    decreases |plan|
  {
    hide StartsInPhase, FromStart, IsFirstFit;
    if plan == [] {
      assert extents + RunExtents(plan) == extents;
    } else {
      var n := |plan| - 1;
      forall i | 0 <= i < n ensures plan[..n][..i] == plan[..i] {}
      RunsFromStart(extents, devices, plan[..n]);
      OneRunFromStart(extents + RunExtents(plan[..n]), devices, plan[n]);
      assert extents + RunExtents(plan) == extents + RunExtents(plan[..n]) + [RunExtent(plan[n])];
    }
  }

  /** Every plan of a list of specs fills its devices from the start. */
  lemma {:induction false} PlansToFromStart(specs: seq<PartitionSpec>, groups: seq<Group>, devices: seq<BlockDevice>,
                                            force: bool, draft: Draft)
    requires PayloadsFit(specs) && |groups| <= U32_MAX && |devices| <= U32_MAX && StartsInPhase(devices)
    requires PlansTo(specs, groups, devices, force, draft)
    ensures FromStart(draft.extents, devices)
    decreases |specs|
  {
    hide Plannable, StartsInPhase, FirstGroup, ServedBy;
    if specs != [] {
      var n := |specs| - 1;
      var before :| PlansTo(specs[..n], groups, devices, force, before)
                    && Plannable(before, groups, devices, specs[n], force)
                    && IsNext(before, groups, devices, specs[n], draft);
      PlansToFromStart(specs[..n], groups, devices, force, before);
      var plan :| RunsFor(before.extents, devices, specs[n], plan)
                  && draft == Extended(before, specs[n], FirstGroup(groups, specs[n].group).value, plan);
      if PayloadOf(specs[n]) != [] {
        ServedByFirstFits(before.extents, devices, specs[n].pin, DivCeil(|PayloadOf(specs[n])|, SECTOR_SIZE), plan);
      }
      RunsFromStart(before.extents, devices, plan);
    }
  }

  // ------------------------------------------ only payload lengths matter

  /** The same specs up to the bytes of their payloads. */
  ghost predicate SameSpec(a: PartitionSpec, b: PartitionSpec) {
    a.(payload := None) == b.(payload := None) && |PayloadOf(a)| == |PayloadOf(b)|
  }

  ghost predicate SameSpecs(a: seq<PartitionSpec>, b: seq<PartitionSpec>) {
    |a| == |b| && forall k :: 0 <= k < |a| ==> SameSpec(a[k], b[k])
  }

  /** The same draft up to the bytes of the segments. */
  ghost predicate SameDraft(a: Draft, b: Draft) {
    a.partitions == b.partitions && a.extents == b.extents && a.used == b.used
  }

  lemma NextShape(before: Draft, before': Draft, groups: seq<Group>, devices: seq<BlockDevice>, force: bool,
                  spec: PartitionSpec, spec': PartitionSpec, after: Draft) returns (after': Draft)
    requires |groups| <= U32_MAX && |devices| <= U32_MAX && |PayloadOf(spec)| <= U64_MAX
    requires SameDraft(before, before') && SameSpec(spec, spec')
    requires Plannable(before, groups, devices, spec, force) && IsNext(before, groups, devices, spec, after)
    ensures Plannable(before', groups, devices, spec', force) && IsNext(before', groups, devices, spec', after')
    ensures SameDraft(after, after')
  {
    hide FirstGroup, ServedBy, Servable;
    var g := FirstGroup(groups, spec.group).value;
    var plan :| RunsFor(before.extents, devices, spec, plan) && after == Extended(before, spec, g, plan);
    assert RunsFor(before'.extents, devices, spec', plan);
    after' := Extended(before', spec', g, plan);
  }

  /** Specs of the same payload lengths are planned to the same table. */
  lemma {:induction false} PlansToShape(specs: seq<PartitionSpec>, specs': seq<PartitionSpec>, groups: seq<Group>,
                                        devices: seq<BlockDevice>,
                                        force: bool, draft: Draft) returns (draft': Draft)
    requires PayloadsFit(specs) && |groups| <= U32_MAX && |devices| <= U32_MAX && SameSpecs(specs, specs')
    requires PlansTo(specs, groups, devices, force, draft)
    ensures PayloadsFit(specs') && PlansTo(specs', groups, devices, force, draft') && SameDraft(draft, draft')
    decreases |specs|
  {
    hide Plannable, IsNext, SameDraft;
    forall k | 0 <= k < |specs'| ensures |PayloadOf(specs'[k])| <= U64_MAX {
      assert SameSpec(specs[k], specs'[k]);
    }
    if specs == [] {
      draft' := draft;
      assert SameDraft(draft, draft) by {
        DraftItself(draft);
      }
    } else {
      var n := |specs| - 1;
      var before :| PlansTo(specs[..n], groups, devices, force, before)
                    && Plannable(before, groups, devices, specs[n], force)
                    && IsNext(before, groups, devices, specs[n], draft);
      var before' := PlansToShape(specs[..n], specs'[..n], groups, devices, force, before);
      draft' := NextShape(before, before', groups, devices, force, specs[n], specs'[n], draft);
    }
  }

  lemma DraftItself(draft: Draft)
    ensures SameDraft(draft, draft)
  {}
}
