/**
 The editing commands (`add`, `create`, `resize`, `remove`, `cow`) on a loaded
 metadata table. Every command is proved against an edit of the table's meaning;
 the windows, the placement and the names stay well-formed.
 */
module TableEditor {
  import opened Alignment
  import opened Allocator
  import opened Base
  import opened Format
  import opened MetadataCodec
  import opened TableLaws
  import opened TableModel

  ghost predicate UniqueNames(ps: seq<Partition>) {
    forall i, j :: 0 <= i < |ps| && 0 <= j < |ps| && i != j ==> ps[i].name != ps[j].name
  }

  ghost predicate GroupsValid(ps: seq<Partition>, groups: seq<Group>) {
    forall i :: 0 <= i < |ps| ==> ps[i].groupIndex < |groups|
  }

  ghost predicate WellFormed(t: Tables) {
    && Tiles(t.partitions, |t.extents|)
    && Placed(t.extents, t.devices) && DevicesUsable(t.devices)
    && UniqueNames(t.partitions) && GroupsValid(t.partitions, t.groups)
  }

  /** Tables within the caps of the loader and of the writer. */
  ghost predicate Capped(t: Tables) {
    |t.partitions| <= MAX_ENTRIES && |t.extents| <= MAX_ENTRIES && |t.groups| <= MAX_ENTRIES
  }

  /** The load check of a group, or permission to exceed it. */
  ghost predicate QuotaAllows(ms: seq<Logical>, groups: seq<Group>, g: int, force: bool) {
    !force && 0 <= g < |groups| && groups[g].maximumSize > 0 ==> GroupLoad(ms, g) <= groups[g].maximumSize / SECTOR_SIZE
  }

  /** The devices an allocation may use: the listed ones, or device 0 alone. */
  predicate Offered(allowed: Option<seq<u32>>, k: int) {
    if allowed.Some? then 0 <= k <= U32_MAX && k in allowed.value else k == 0
  }

  /** First fit over the offered devices: the least device with a fit, and its least fit. */
  ghost predicate IsAllocated(extents: seq<Extent>, devices: seq<BlockDevice>, allowed: Option<seq<u32>>, index: int,
                              needed: int, sector: int) {
    && 0 <= index < |devices| && Offered(allowed, index)
    && IsFirstFit(extents, devices[index], index, needed, sector)
    && forall k :: 0 <= k < index && Offered(allowed, k) ==> !HasFit(extents, devices[k], k, needed)
  }

  ghost predicate NoneFits(extents: seq<Extent>, devices: seq<BlockDevice>, allowed: Option<seq<u32>>, needed: int) {
    forall k :: 0 <= k < |devices| && Offered(allowed, k) ==> !HasFit(extents, devices[k], k, needed)
  }

  /** The group would exceed its size. */
  ghost predicate OverQuota(ms: seq<Logical>, groups: seq<Group>, g: int, needed: int, force: bool) {
    !force && 0 <= g < |groups| && groups[g].maximumSize > 0
        && GroupLoad(ms, g) + needed > groups[g].maximumSize / SECTOR_SIZE
  }

  ghost predicate NameTaken(ps: seq<Partition>, name: Name) {
    exists i :: 0 <= i < |ps| && ps[i].name == name
  }

  // ---------------------------------------------------- window index loops

  /** Indices at or past `over` move down, saturating at zero; `skip` is left alone. */
  function ShiftedDown(ps: seq<Partition>, skip: int, over: nat, amount: u32): (r: seq<Partition>)
    ensures |r| == |ps|
  {
    seq(|ps|, j requires 0 <= j < |ps| =>
      if j != skip && ps[j].firstExtentIndex >= over
      then ps[j].(firstExtentIndex := Max(ps[j].firstExtentIndex - amount, 0))
      else ps[j])
  }

  method ShiftDown(ps: seq<Partition>, skip: int, over: nat, amount: u32) returns (r: seq<Partition>)
    ensures r == ShiftedDown(ps, skip, over, amount)
  {
    r := ps;
    for j := 0 to |ps|
      invariant |r| == |ps|
      invariant forall k :: 0 <= k < j ==> r[k] == ShiftedDown(ps, skip, over, amount)[k]
      invariant forall k :: j <= k < |ps| ==> r[k] == ps[k]
    {
      if j != skip {
        if r[j].firstExtentIndex >= over {
          r := r[j := r[j].(firstExtentIndex := Max(r[j].firstExtentIndex - amount, 0))];
        }
      }
    }
  }

  /** Shifting everything past a window's start is cutting the window out. */
  lemma ShiftIsCut(ps: seq<Partition>, len: nat, i: nat, skip: int)
    requires Tiles(ps, len) && i < |ps| && (skip == i || skip < 0)
    ensures var f, n := ps[i].firstExtentIndex, ps[i].numExtents;
            ShiftedDown(ps, skip, f + 1, n) == CutAt(ps, i, 0)[i := ps[i]]
  {
    var f: nat, n := ps[i].firstExtentIndex, ps[i].numExtents;
    var r, c := ShiftedDown(ps, skip, f + 1, n), CutAt(ps, i, 0)[i := ps[i]];
    forall j | 0 <= j < |ps| ensures r[j] == c[j] {
      assert j != i ==> WindowsApart(ps[j], ps[i]);
    }
  }

  lemma ShiftTailIsCut(ps: seq<Partition>, i: nat, keep: nat)
    requires i < |ps| && keep <= ps[i].numExtents
    ensures ShiftedDown(ps[i := ps[i].(numExtents := keep)], i, WindowEnd(ps[i]), ps[i].numExtents - keep)
            == CutAt(ps, i, keep)
  {
  }

  // -------------------------------------------------------------- the table

  class SuperData {
    var partitions: seq<Partition>
    var extents: seq<Extent>
    var groups: seq<Group>
    const devices: seq<BlockDevice>

    function View(): Tables
      reads this
    {
      Tables(partitions, extents, groups, devices)
    }

    /** The clone of a loaded slot that a command works on. */
    constructor (t: Tables)
      ensures View() == t
    {
      partitions := t.partitions;
      extents := t.extents;
      groups := t.groups;
      devices := t.devices;
    }

    /** Sectors of one window, saturating. */
    method PartitionSectors(p: Partition) returns (total: u64)
      ensures total == Min(Sectors(WindowHead(extents, p)), U64_MAX)
    {
      total := 0;
      var idx: nat := p.firstExtentIndex;
      ghost var window := WindowHead(extents, p);
      assert |window| <= p.numExtents && window[..|window|] == window;
      hide WindowHead;
      for i := 0 to p.numExtents
        invariant idx == p.firstExtentIndex + i && i <= |window|
        invariant total == Min(Sectors(window[..i]), U64_MAX)
      {
        if idx >= |extents| {
          assert i == |window|;
          break;
        }
        assert window[..i + 1] == window[..i] + [extents[idx]];
        SectorsConcat(window[..i], [extents[idx]]);
        SectorsOne(extents[idx]);
        total := SaturatingAdd(total, extents[idx].numSectors);
        idx := idx + 1;
      }
    }

    /** The extents a partition's window names, or an error if the window leaves the vector. */
    method PartitionExtents(i: nat) returns (r: Result<seq<Extent>>)
      ensures r.Ok? <==> i < |partitions| && (partitions[i].numExtents == 0 || WindowEnd(partitions[i]) <= |extents|)
      ensures r.Ok? ==> r.value == Meaning(View())[i].extents
    {
      if i >= |partitions| {
        return Err(NotFound);
      }
      var p := partitions[i];
      var collected: seq<Extent> := [];
      var idx: nat := p.firstExtentIndex;
      for k := 0 to p.numExtents
        invariant idx == p.firstExtentIndex + k
        invariant k > 0 ==> idx <= |extents| && collected == extents[p.firstExtentIndex..idx]
        invariant k == 0 ==> collected == []
      {
        if idx >= |extents| {
          return Err(Invalid);
        }
        collected := collected + [extents[idx]];
        idx := idx + 1;
      }
      r := Ok(collected);
    }

    /** Sectors of a group's partitions, except one named one, saturating. */
    method GroupSectors(group: u32, except: Option<Name>) returns (used: u64)
      requires Tiles(partitions, |extents|)
      ensures used == Min(LoadExcept(Meaning(View()), group, except), U64_MAX)
    {
      used := 0;
      ghost var ms := Meaning(View());
      for i := 0 to |partitions|
        invariant used == Min(LoadExcept(ms[..i], group, except), U64_MAX)
      {
        var p := partitions[i];
        assert ms[..i + 1] == ms[..i] + [ms[i]];
        assert ms[..i + 1][..i] == ms[..i];
        if p.groupIndex == group && Some(p.name) != except {
          var one := PartitionSectors(p);
          used := SaturatingAdd(used, one);
        }
      }
      assert ms[..|partitions|] == ms;
    }

    /** Allocation for a new extent: device 0 alone, or first fit over several. */
    method Allocate(needed: u64, allowed: Option<seq<u32>>) returns (r: Result<(u32, u64)>)
      requires WellFormed(View()) && needed > 0
      ensures r.Ok? ==> IsAllocated(extents, devices, allowed, r.value.0, needed, r.value.1)
      ensures r.Err? ==> NoneFits(extents, devices, allowed, needed)
    {
      hide Tiles, Placed, UniqueNames, GroupsValid, IsFirstFit, HasFit, EndsFit;
      PlacedIsRegular(extents, devices);
      if allowed.Some? {
        r := FindFreeSectorsAnyIn(extents, devices, needed, allowed.value);
      } else {
        var found := FindFreeSectors(extents, devices, 0, needed);
        RegularEndsFit(extents, devices);
        r := if found.Ok? then Ok((0, found.value)) else Err(found.error);
      }
    }

    /** Allocation for `create`: first fit over all devices of a split table, else on device 0. */
    method AllocateNew(needed: u64, split: bool) returns (r: Result<(u32, u64)>)
      requires WellFormed(View()) && needed > 0
      ensures r.Ok? ==> FirstOffered(extents, devices, split, r.value.0, needed, r.value.1)
      ensures r.Err? ==> NoneOffered(extents, devices, split, needed)
    {
      hide Tiles, Placed, UniqueNames, GroupsValid, IsFirstFit, HasFit, Offered;
      var all: seq<u32> := seq(|devices|, k requires 0 <= k < |devices| => k);
      OffersAll(devices, all);
      r := Allocate(needed, if split then Some(all) else None);
    }

    /** The group limit check of `add` and `create`. */
    method QuotaPermits(group: u32, needed: u64, force: bool) returns (ok: bool)
      requires Tiles(partitions, |extents|) && group < |groups|
      ensures ok <==> !OverQuota(Meaning(View()), groups, group, needed, force)
    {
      hide Tiles, MeaningOf, GroupLoad;
      ok := true;
      if groups[group].maximumSize > 0 {
        var used := GroupSectors(group, None);
        LoadExceptNone(Meaning(View()), group);
        var maxSectors := groups[group].maximumSize / SECTOR_SIZE;
        if SaturatingAdd(used, needed) > maxSectors && !force {
          ok := false;
        }
      }
    }

    /** `add`: one new partition with one freshly allocated extent of `needed` sectors. */
    method Add(name: Name, attributes: u32, group: u32, needed: u64, allowed: Option<seq<u32>>, force: bool)
      returns (r: Result<Extent>)
      requires WellFormed(View()) && Capped(View()) && group < |groups|
      modifies this
      ensures groups == old(groups)
      ensures r.Err? ==> View() == old(View())
      ensures r.Ok? ==> Appended(old(View()), View(), Logical(name, attributes, group, [r.value]))
      ensures r.Ok? ==>
                && Linear(r.value) && r.value.numSectors == needed > 0
                && IsAllocated(old(extents), devices, allowed, r.value.targetSource, needed, r.value.targetData)
      ensures r.Ok? ==> QuotaAllows(Meaning(View()), groups, group, force)
      ensures r.Err? ==>
                || NameTaken(partitions, name) || needed == 0
                || OverQuota(Meaning(View()), groups, group, needed, force)
                || NoneFits(extents, devices, allowed, needed)
    {
      hide Tiles, Placed, IsFit, HasFit, MeaningOf, GroupLoad, DevicesUsable;
      if exists i :: 0 <= i < |partitions| && partitions[i].name == name {
        return Err(Invalid);
      }
      if needed == 0 {
        return Err(Invalid);
      }
      var permitted := QuotaPermits(group, needed, force);
      if !permitted {
        return Err(Invalid);
      }
      var found := Allocate(needed, allowed);
      if found.Err? {
        return Err(found.error);
      }
      var e := Extent(needed, TARGET_LINEAR, found.value.1, found.value.0);
      var p := Partition(name, attributes, |extents|, 1, group);
      NewPartition(View(), [e], p);
      QuotaAfterAppend(Meaning(View()), Logical(name, attributes, group, [e]));
      partitions := partitions + [p];
      extents := extents + [e];
      r := Ok(e);
    }

    /**
     `create`: one new partition, extent-less for size zero, in an existing group or
     in one created on the fly. Returns the new partition's meaning.
     */
    method Create(name: Name, groupName: Name, groupSize: Option<u64>, attributes: u32, size: u64, split: bool,
                  force: bool)
      returns (r: Result<Logical>)
      requires WellFormed(View()) && Capped(View())
      modifies this
      ensures r.Ok? ==>
                groups == if groupSize.Some? && !HasGroup(old(groups), groupName)
                          then old(groups) + [Group(groupName, 0, groupSize.value)] else old(groups)
      ensures r.Ok? ==>
                && Appended(old(View()).(groups := groups), View(), r.value)
                && r.value.name == name && r.value.attributes == attributes
                && IsFirstNamed(groups, groupName, r.value.group)
                && |r.value.extents| == (if size == 0 then 0 else 1)
                && Sectors(r.value.extents) == DivCeil(size, SECTOR_SIZE)
                && (size > 0 ==> QuotaAllows(Meaning(View()), groups, r.value.group, force))
      ensures r.Ok? && size > 0 ==>
                var e := r.value.extents[0];
                Linear(e) && FirstOffered(old(extents), devices, split, e.targetSource, e.numSectors, e.targetData)
      ensures r.Err? ==>
                var needed, before := DivCeil(size, SECTOR_SIZE), old(View());
                || NameTaken(before.partitions, name) || (groupSize.None? && !HasGroup(before.groups, groupName))
                || (size > 0 && LimitExceeded(Meaning(before), before.groups, groupName, groupSize, needed, force))
                || (size > 0 && NoneOffered(before.extents, devices, split, needed))
      ensures r.Err? ==> partitions == old(partitions) && extents == old(extents)
    {
      hide Tiles, Placed, IsFit, HasFit, MeaningOf, GroupLoad, DevicesUsable, LimitExceeded, NoneOffered, UniqueNames,
        OverQuota, QuotaAllows;
      if exists i :: 0 <= i < |partitions| && partitions[i].name == name {
        return Err(Invalid);
      }
      if groupSize.Some? {
        if FirstGroup(groups, groupName).None? {
          groups := groups + [Group(groupName, 0, groupSize.value)];
        }
      }
      var found := FirstGroup(groups, groupName);
      if found.None? {
        return Err(Invalid);
      }
      var group: u32 := found.value;
      var added: seq<Extent> := [];
      LimitOfGroup(old(View()), groups, groupName, groupSize, group, DivCeil(size, SECTOR_SIZE), force);
      if size > 0 {
        var needed := DivCeil(size, SECTOR_SIZE);
        var permitted := QuotaPermits(group, needed, force);
        if !permitted {
          return Err(Invalid);
        }
        var place := AllocateNew(needed, split);
        if place.Err? {
          return Err(place.error);
        }
        added := [Extent(needed, TARGET_LINEAR, place.value.1, place.value.0)];
        SectorsOne(added[0]);
        QuotaStays(Meaning(View()), groups, Logical(name, attributes, group, added), force);
      }
      var p := Partition(name, attributes, |extents|, |added|, group);
      NewPartition(View(), added, p);
      partitions := partitions + [p];
      extents := extents + added;
      r := Ok(Logical(name, attributes, group, added));
    }

    /** `remove` for one partition: its entry and its extents disappear. */
    method RemovePartition(i: nat) returns (r: Result<()>)
      requires WellFormed(View()) && Capped(View()) && i < |partitions|
      modifies this
      ensures r.Ok? && WellFormed(View()) && groups == old(groups)
      ensures Meaning(View()) == old(Meaning(View())[..i] + Meaning(View())[i + 1..])
    {
      hide Tiles, Placed, MeaningOf, DevicesUsable, CutAt, ShiftedDown, Window;
      ghost var t := View();
      CutTiles(partitions, extents, i, 0);
      ShiftIsCut(partitions, |extents|, i, -1);
      var removed := partitions[i];
      partitions := partitions[..i] + partitions[i + 1..];
      var first: nat, num: nat := removed.firstExtentIndex, removed.numExtents;
      if first + num > |extents| {
        return Err(Invalid);
      }
      for k := 0 to num
        invariant extents == WithoutRange(t.extents, first, first + k)
        invariant partitions == t.partitions[..i] + t.partitions[i + 1..] && groups == t.groups
      {
        if first >= |extents| {
          return Err(Invalid);
        }
        extents := extents[..first] + extents[first + 1..];
      }
      partitions := ShiftDown(partitions, -1, first + 1, num);
      RemovedIs(t, i);
      r := Ok(());
    }
  }

  /** `create` may allocate on all devices of a table over several files, else on device 0 alone. */
  ghost predicate FirstOffered(extents: seq<Extent>, devices: seq<BlockDevice>, split: bool, index: int, needed: int,
                               sector: int) {
    && 0 <= index < |devices| && (split || index == 0)
    && IsFirstFit(extents, devices[index], index, needed, sector)
    && forall k :: 0 <= k < index && (split || k == 0) ==> !HasFit(extents, devices[k], k, needed)
  }

  ghost predicate NoneOffered(extents: seq<Extent>, devices: seq<BlockDevice>, split: bool, needed: int) {
    forall k :: 0 <= k < |devices| && (split || k == 0) ==> !HasFit(extents, devices[k], k, needed)
  }

  lemma OffersAll(devices: seq<BlockDevice>, all: seq<u32>)
    requires |devices| <= U32_MAX && |all| == |devices| && forall k :: 0 <= k < |devices| ==> all[k] == k
    ensures forall k :: 0 <= k < |devices| ==> Offered(Some(all), k) && (Offered(None, k) <==> k == 0)
  {
    forall k | 0 <= k < |devices| ensures Offered(Some(all), k) {
      assert all[k] == k && all[k] in all;
    }
  }

  /** The limit of the group, existing or new, would be exceeded. */
  ghost predicate LimitExceeded(ms: seq<Logical>, groups: seq<Group>, name: Name, groupSize: Option<u64>, needed: int,
                                force: bool) {
    !force &&
    if HasGroup(groups, name) then
      exists g :: IsFirstNamed(groups, name, g) && groups[g].maximumSize > 0
                  && GroupLoad(ms, g) + needed > groups[g].maximumSize / SECTOR_SIZE
    else groupSize.Some? && groupSize.value > 0 && needed > groupSize.value / SECTOR_SIZE
  }

  /** What exceeding means for the group that `create` works with. */
  lemma LimitOfGroup(t: Tables, groups: seq<Group>, name: Name, groupSize: Option<u64>, g: u32, needed: nat,
                     force: bool)
    requires WellFormed(t) && IsFirstNamed(groups, name, g)
    requires groups == if groupSize.Some? && !HasGroup(t.groups, name) then t.groups + [Group(name, 0, groupSize.value)]
                       else t.groups
    ensures OverQuota(Meaning(t), groups, g, needed, force)
            <==> LimitExceeded(Meaning(t), t.groups, name, groupSize, needed, force)
  {
    hide Tiles, Placed, GroupLoad, DevicesUsable, UniqueNames;
    if HasGroup(t.groups, name) {
      assert forall k :: IsFirstNamed(groups, name, k) ==> k == g;
    } else {
      forall i | 0 <= i < |Meaning(t)| ensures Meaning(t)[i].group < |t.groups| {
        assert t.partitions[i].groupIndex < |t.groups|;
      }
      NoLoadOutside(Meaning(t), |t.groups|, |t.groups|);
    }
  }

  /** A partition group out of range carries no load. */
  lemma {:induction false} NoLoadOutside(ms: seq<Logical>, count: nat, g: int)
    requires forall i :: 0 <= i < |ms| ==> ms[i].group < count
    requires g >= count
    ensures GroupLoad(ms, g) == 0
  {
    if ms != [] {
      NoLoadOutside(ms[..|ms| - 1], count, g);
    }
  }

  ghost predicate HasGroup(groups: seq<Group>, name: Name) {
    exists g :: 0 <= g < |groups| && groups[g].name == name
  }

  ghost predicate IsFirstNamed(groups: seq<Group>, name: Name, g: int) {
    0 <= g < |groups| && groups[g].name == name && forall k :: 0 <= k < g ==> groups[k].name != name
  }

  /** The first group of a name, as a 32-bit index. */
  function FirstGroup(groups: seq<Group>, name: Name): (r: Option<u32>)
    requires |groups| <= U32_MAX
    ensures r.Some? ==> IsFirstNamed(groups, name, r.value)
    ensures r.Some? <==> HasGroup(groups, name)
  {
    if groups == [] then None
    else
      var earlier := FirstGroup(groups[..|groups| - 1], name);
      if earlier.Some? then earlier
      else if groups[|groups| - 1].name == name then Some(|groups| - 1)
      else None
  }

  /** What removing partition `i` leaves. */
  lemma RemovedIs(t: Tables, i: nat)
    requires WellFormed(t) && i < |t.partitions|
    ensures WindowEnd(t.partitions[i]) <= |t.extents|
    ensures var p := t.partitions[i];
            var ps := ShiftedDown(t.partitions[..i] + t.partitions[i + 1..], -1, p.firstExtentIndex + 1, p.numExtents);
            var t' := t.(partitions := ps, extents := WithoutRange(t.extents, p.firstExtentIndex, WindowEnd(p)));
            WellFormed(t') && Meaning(t') == Meaning(t)[..i] + Meaning(t)[i + 1..]
  {
    hide Tiles, Placed, DevicesUsable, Window, CutAt, ShiftedDown, WithoutRange, UniqueNames, GroupsValid;
    var p, ps := t.partitions[i], t.partitions;
    CutTiles(ps, t.extents, i, 0);
    var cut, extents' := CutAt(ps, i, 0), WithoutRange(t.extents, p.firstExtentIndex, WindowEnd(p));
    RemovedIndices(ps, |t.extents|, i);
    CutNames(ps, i, t.groups);
    DropEmptyTiles(cut, |extents'|, i);
    PlacedRemove(t.extents, t.devices, p.firstExtentIndex, WindowEnd(p));
    MeaningWithout(cut, extents', i);
  }

  lemma MeaningWithout(ps: seq<Partition>, extents: seq<Extent>, i: nat)
    requires i < |ps|
    ensures MeaningOf(ps[..i] + ps[i + 1..], extents) == MeaningOf(ps, extents)[..i] + MeaningOf(ps, extents)[i + 1..]
  {
    hide Window;
  }

  /** Removing the entry first and shifting then is cutting first and dropping then. */
  lemma RemovedIndices(ps: seq<Partition>, len: nat, i: nat)
    requires Tiles(ps, len) && i < |ps|
    ensures ShiftedDown(ps[..i] + ps[i + 1..], -1, ps[i].firstExtentIndex + 1, ps[i].numExtents)
            == CutAt(ps, i, 0)[..i] + CutAt(ps, i, 0)[i + 1..]
    ensures CutAt(ps, i, 0)[i].numExtents == 0
  {
    hide Tiles;
    ShiftIsCut(ps, len, i, -1);
    var all := ShiftedDown(ps, -1, ps[i].firstExtentIndex + 1, ps[i].numExtents);
    assert ShiftedDown(ps[..i] + ps[i + 1..], -1, ps[i].firstExtentIndex + 1, ps[i].numExtents)
        == all[..i] + all[i + 1..];
  }

  /** Index arithmetic leaves names and groups alone. */
  lemma CutNames(ps: seq<Partition>, i: nat, groups: seq<Group>)
    requires i < |ps| && UniqueNames(ps) && GroupsValid(ps, groups)
    ensures var r := CutAt(ps, i, 0)[..i] + CutAt(ps, i, 0)[i + 1..]; UniqueNames(r) && GroupsValid(r, groups)
  {
    var r := CutAt(ps, i, 0)[..i] + CutAt(ps, i, 0)[i + 1..];
    forall j | 0 <= j < |r|
      ensures var k := if j < i then j else j + 1; r[j].name == ps[k].name && r[j].groupIndex == ps[k].groupIndex {}
  }

  /** `after` is `before` with one more partition `m`, and still well-formed. */
  ghost predicate Appended(before: Tables, after: Tables, m: Logical) {
    && WellFormed(after) && after.devices == before.devices
    && Meaning(after) == Meaning(before) + [m]
    && after.extents == before.extents + m.extents
  }

  /** A partition the limit had room for. */
  lemma QuotaStays(ms: seq<Logical>, groups: seq<Group>, m: Logical, force: bool)
    requires |m.extents| == 1 && !OverQuota(ms, groups, m.group, m.extents[0].numSectors, force)
    ensures QuotaAllows(ms + [m], groups, m.group, force)
  {
    hide GroupLoad;
    QuotaAfterAppend(ms, m);
  }

  lemma QuotaAfterAppend(ms: seq<Logical>, m: Logical)
    requires |m.extents| == 1
    ensures GroupLoad(ms + [m], m.group) == GroupLoad(ms, m.group) + m.extents[0].numSectors
  {
    GroupLoadAppend(ms, m, m.group);
    SectorsOne(m.extents[0]);
    assert m.extents == [m.extents[0]];
  }

  /** A partition behind all windows, with no extent or one allocated extent. */
  lemma NewPartition(t: Tables, added: seq<Extent>, p: Partition)
    requires WellFormed(t)
    requires forall i :: 0 <= i < |t.partitions| ==> t.partitions[i].name != p.name
    requires p.groupIndex < |t.groups| && p.firstExtentIndex == |t.extents| && p.numExtents == |added| <= 1
    requires forall i :: 0 <= i < |added| ==>
               Linear(added[i]) && added[i].targetSource < |t.devices|
               && IsFit(t.extents, t.devices[added[i].targetSource], added[i].targetSource, added[i].numSectors,
                        added[i].targetData)
    ensures Appended(t, t.(partitions := t.partitions + [p], extents := t.extents + added),
                     Logical(p.name, p.attributes, p.groupIndex, added))
  {
    hide Tiles, Placed, IsFit;
    AppendTiles(t.partitions, t.extents, added, p);
    if |added| == 1 {
      PlacedInsert(t.extents, t.devices, |t.extents|, added[0]);
      assert WithInserted(t.extents, |t.extents|, added[0]) == t.extents + added;
    } else {
      assert t.extents + added == t.extents;
    }
  }

  lemma RegularEndsFit(extents: seq<Extent>, devices: seq<BlockDevice>)
    requires Regular(extents, devices)
    ensures forall k :: 0 <= k < |devices| ==> EndsFit(extents, k)
  {
    forall k | 0 <= k < |devices| ensures EndsFit(extents, k) {
      assert Addressable(extents, devices[k], k);
    }
  }

  function LoadExcept(ms: seq<Logical>, g: int, except: Option<Name>): nat {
    if ms == [] then 0
    else
      var m := ms[|ms| - 1];
      LoadExcept(ms[..|ms| - 1], g, except) + (if m.group == g && Some(m.name) != except then Sectors(m.extents) else 0)
  }

  lemma {:induction false} LoadExceptNone(ms: seq<Logical>, g: int)
    ensures LoadExcept(ms, g, None) == GroupLoad(ms, g)
  {
    if ms != [] {
      LoadExceptNone(ms[..|ms| - 1], g);
    }
  }

  /** Leaving out one partition of the group subtracts exactly its sectors. */
  lemma {:induction false} LoadExceptOne(ms: seq<Logical>, i: nat)
    requires i < |ms| && forall j :: 0 <= j < |ms| && j != i ==> ms[j].name != ms[i].name
    ensures LoadExcept(ms, ms[i].group, Some(ms[i].name)) + Sectors(ms[i].extents) == GroupLoad(ms, ms[i].group)
  {
    var n := |ms| - 1;
    if i < n {
      LoadExceptOne(ms[..n], i);
    } else {
      LoadExceptOthers(ms[..n], ms[i].group, ms[i].name);
    }
  }

  lemma {:induction false} LoadExceptOthers(ms: seq<Logical>, g: int, name: Name)
    requires forall j :: 0 <= j < |ms| ==> ms[j].name != name
    ensures LoadExcept(ms, g, Some(name)) == GroupLoad(ms, g)
  {
    if ms != [] {
      LoadExceptOthers(ms[..|ms| - 1], g, name);
    }
  }
}
