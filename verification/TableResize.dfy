/**
 `resize`: grow in place, by a spliced extent or by a fresh one; shrink to an exact
 prefix or to nothing.
 */
module TableResize {
  import opened Alignment
  import opened Allocator
  import opened Base
  import opened Format
  import opened MetadataCodec
  import opened TableEditor
  import opened TableLaws
  import opened TableModel

  datatype Outcome = Unchanged | Resized

  function LastOf(es: seq<Extent>): Extent
    requires es != []
  {
    es[|es| - 1]
  }

  /** The last extent lengthened by `extra` sectors. */
  function Lengthened(es: seq<Extent>, extra: nat): seq<Extent>
    requires es != [] && LastOf(es).numSectors + extra <= U64_MAX
  {
    es[|es| - 1 := LastOf(es).(numSectors := LastOf(es).numSectors + extra)]
  }

  /**
   The three ways to grow by `extra` sectors: a fresh extent where there was none,
   in place exactly when the sectors behind the last extent are free, and otherwise
   one more extent on the same device.
   */
  ghost predicate Grown(t: Tables, es: seq<Extent>, es': seq<Extent>, extra: nat) {
    if es == [] then
      exists e :: es' == [e] && IsNew(t, e, extra) && NoEarlierDevice(t, e)
    else
      var last := LastOf(es);
      && Linear(last) && last.targetSource < |t.devices|
      && if RangeFree(t.extents, t.devices[last.targetSource], last.targetSource, End(last), extra)
         then last.numSectors + extra <= U64_MAX && es' == Lengthened(es, extra)
         else exists e :: es' == es + [e] && IsNew(t, e, extra) && e.targetSource == last.targetSource
  }

  ghost predicate NoEarlierDevice(t: Tables, e: Extent) {
    e.targetSource < |t.devices| && forall k :: 0 <= k < e.targetSource ==>
        !HasFit(t.extents, t.devices[k], k, e.numSectors)
  }

  /**
   No room: no device can hold a first extent, or the last extent can neither be lengthened nor
   continued on its device.
   */
  ghost predicate CannotGrow(t: Tables, es: seq<Extent>, extra: nat) {
    if es == [] then forall k :: 0 <= k < |t.devices| ==> !HasFit(t.extents, t.devices[k], k, extra)
    else
      var last := LastOf(es);
      Linear(last) ==>
        && last.targetSource < |t.devices|
        && !RangeFree(t.extents, t.devices[last.targetSource], last.targetSource, End(last), extra)
        && !HasFit(t.extents, t.devices[last.targetSource], last.targetSource, extra)
  }

  ghost predicate IsNew(t: Tables, e: Extent, sectors: nat) {
    && Linear(e) && e.numSectors == sectors && e.targetSource < |t.devices|
    && IsFirstFit(t.extents, t.devices[e.targetSource], e.targetSource, sectors, e.targetData)
  }

  /** `after` is `before` with the extents of partition `i` replaced. */
  ghost predicate Replaced(before: Tables, after: Tables, i: nat, es: seq<Extent>) {
    && i < |before.partitions| && WellFormed(after)
    && after.groups == before.groups && after.devices == before.devices
    && Meaning(after) == Meaning(before)[i := Meaning(before)[i].(extents := es)]
    && |after.partitions| == |before.partitions|
  }

  lemma GrownSectors(t: Tables, es: seq<Extent>, es': seq<Extent>, extra: nat)
    requires Grown(t, es, es', extra)
    ensures Sectors(es') == Sectors(es) + extra
  {
    if es == [] {
      SectorsOne(es'[0]);
      assert es' == [es'[0]];
    } else if |es'| == |es| {
      SectorsUpdate(es, |es| - 1, es'[|es| - 1]);
    } else {
      SectorsConcat(es, [es'[|es|]]);
      SectorsOne(es'[|es|]);
    }
  }

  /** Replacing indices and extents consistently keeps names and groups. */
  lemma SameNames(ps: seq<Partition>, qs: seq<Partition>, groups: seq<Group>)
    requires |ps| == |qs| && UniqueNames(ps) && GroupsValid(ps, groups)
    requires forall j :: 0 <= j < |ps| ==> ps[j].name == qs[j].name && ps[j].groupIndex == qs[j].groupIndex
    ensures UniqueNames(qs) && GroupsValid(qs, groups)
  {}

  // --------------------------------------------------------------- growing

  /** An extent-less partition gets its first extent. */
  lemma GrowFresh(t: Tables, i: nat, e: Extent, sectors: nat)
    requires WellFormed(t) && Capped(t) && i < |t.partitions| && t.partitions[i].numExtents == 0 && IsNew(t, e, sectors)
             && NoEarlierDevice(t, e)
    ensures var p := t.partitions[i].(firstExtentIndex := |t.extents|, numExtents := 1);
            && Replaced(t, t.(partitions := t.partitions[i := p], extents := t.extents + [e]), i, [e])
            && Meaning(t)[i].extents == [] && Grown(t, [], [e], sectors)
  {
    hide Tiles, Placed, IsFit;
    var p := t.partitions[i].(firstExtentIndex := |t.extents|, numExtents := 1);
    FreshTiles(t.partitions, t.extents, i, e, p);
    PlacedInsert(t.extents, t.devices, |t.extents|, e);
    assert WithInserted(t.extents, |t.extents|, e) == t.extents + [e];
    SameNames(t.partitions, t.partitions[i := p], t.groups);
  }

  /** The window of a partition and its last extent. */
  lemma LastInWindow(t: Tables, i: nat)
    requires Tiles(t.partitions, |t.extents|) && i < |t.partitions| && t.partitions[i].numExtents > 0
    ensures var k := WindowEnd(t.partitions[i]) - 1; var es := Meaning(t)[i].extents;
            k < |t.extents| && Owns(t.partitions[i], k) && |es| == t.partitions[i].numExtents
                && LastOf(es) == t.extents[k]
  {
    assert WindowEnd(t.partitions[i]) <= |t.extents|;
  }

  ghost predicate LinearAt(t: Tables, k: int) {
    0 <= k < |t.extents| && Linear(t.extents[k]) && t.extents[k].targetSource < |t.devices|
  }

  /** The `extra` sectors behind extent `k` are free. */
  ghost predicate FreeBehind(t: Tables, k: int, extra: nat)
    requires LinearAt(t, k)
  {
    var e := t.extents[k];
    RangeFree(t.extents, t.devices[e.targetSource], e.targetSource, End(e), extra)
  }

  lemma GrowInPlace(t: Tables, i: nat, extra: nat)
    requires WellFormed(t) && i < |t.partitions| && t.partitions[i].numExtents > 0
    requires LinearAt(t, WindowEnd(t.partitions[i]) - 1) && FreeBehind(t, WindowEnd(t.partitions[i]) - 1, extra)
    ensures var k := WindowEnd(t.partitions[i]) - 1; var es := Meaning(t)[i].extents;
            && es != [] && LastOf(es) == t.extents[k] && t.extents[k].numSectors + extra <= U64_MAX
            && Replaced(t, t.(extents := t.extents[k := t.extents[k].(numSectors := t.extents[k].numSectors + extra)]),
                        i, Lengthened(es, extra))
            && Grown(t, es, Lengthened(es, extra), extra)
  {
    hide Tiles, Placed, RangeFree, IsFit;
    var k := WindowEnd(t.partitions[i]) - 1;
    LastInWindow(t, i);
    PlacedGrow(t.extents, t.devices, k, extra);
    UpdateInWindow(t.partitions, t.extents, i, k, t.extents[k].(numSectors := t.extents[k].numSectors + extra));
  }

  lemma GrowSpliced(t: Tables, i: nat, e: Extent, extra: nat)
    requires WellFormed(t) && Capped(t) && i < |t.partitions| && t.partitions[i].numExtents > 0 && IsNew(t, e, extra)
    requires LinearAt(t, WindowEnd(t.partitions[i]) - 1) && !FreeBehind(t, WindowEnd(t.partitions[i]) - 1, extra)
    requires e.targetSource == t.extents[WindowEnd(t.partitions[i]) - 1].targetSource
    ensures WindowEnd(t.partitions[i]) <= |t.extents| < U32_MAX
    ensures forall j :: 0 <= j < |t.partitions| ==>
            t.partitions[j].firstExtentIndex < U32_MAX && t.partitions[j].numExtents < U32_MAX
    ensures var es := Meaning(t)[i].extents;
            && Replaced(t, t.(partitions := SpliceAt(t.partitions, i),
                              extents := WithInserted(t.extents, WindowEnd(t.partitions[i]), e)), i, es + [e])
            && Grown(t, es, es + [e], extra)
  {
    hide Placed, RangeFree, IsFit;
    LastInWindow(t, i);
    SmallIndices(t.partitions, |t.extents|);
    hide Tiles;
    SpliceTiles(t.partitions, t.extents, i, e);
    PlacedInsert(t.extents, t.devices, WindowEnd(t.partitions[i]), e);
    SameNames(t.partitions, SpliceAt(t.partitions, i), t.groups);
  }

  lemma SmallIndices(ps: seq<Partition>, len: nat)
    requires Tiles(ps, len) && len <= MAX_ENTRIES
    ensures forall j :: 0 <= j < |ps| ==> ps[j].firstExtentIndex < U32_MAX && ps[j].numExtents < U32_MAX
  {
    forall j | 0 <= j < |ps| ensures ps[j].firstExtentIndex < U32_MAX && ps[j].numExtents < U32_MAX {
      assert WindowEnd(ps[j]) <= len;
    }
  }

  /** The index loop of a splice: one more extent for `i`, later windows one up. */
  method SpliceIndices(ps: seq<Partition>, i: nat, insertAt: nat) returns (r: seq<Partition>)
    requires i < |ps| && insertAt == WindowEnd(ps[i])
    requires forall j :: 0 <= j < |ps| ==> ps[j].firstExtentIndex < U32_MAX && ps[j].numExtents < U32_MAX
    ensures r == SpliceAt(ps, i)
  {
    r := ps;
    for j := 0 to |ps|
      invariant |r| == |ps|
      invariant forall k :: 0 <= k < j ==> r[k] == SpliceAt(ps, i)[k]
      invariant forall k :: j <= k < |ps| ==> r[k] == ps[k]
    {
      if j == i {
        r := r[j := r[j].(numExtents := Min(r[j].numExtents + 1, U32_MAX))];
      } else if r[j].firstExtentIndex >= insertAt {
        r := r[j := r[j].(firstExtentIndex := Min(r[j].firstExtentIndex + 1, U32_MAX))];
      }
    }
  }

  method Grow(data: SuperData, i: nat, newSectors: u64, currentSectors: u64)
    returns (r: Result<()>, ghost es: seq<Extent>)
    requires WellFormed(data.View()) && Capped(data.View()) && i < |data.partitions|
    requires newSectors > currentSectors == Sectors(Meaning(data.View())[i].extents)
    modifies data
    ensures r.Err? ==> data.View() == old(data.View())
    ensures r.Err? ==> CannotGrow(data.View(), Meaning(data.View())[i].extents, newSectors - currentSectors)
    ensures r.Ok? ==>
              && Replaced(old(data.View()), data.View(), i, es)
              && Grown(old(data.View()), old(Meaning(data.View())[i].extents), es, newSectors - currentSectors)
              && |data.extents| <= old(|data.extents|) + 1
  {
    hide Tiles, Placed, IsFit, RangeFree, MeaningOf, UniqueNames, GroupsValid, HasFit, EndsFit, Replaced;
    ghost var t := data.View();
    es := [];
    PlacedIsRegular(data.extents, data.devices);
    RegularEndsFit(data.extents, data.devices);
    var extra := newSectors - currentSectors;
    var first: nat, num: nat := data.partitions[i].firstExtentIndex, data.partitions[i].numExtents;
    if num == 0 {
      var found := FindFreeSectorsAny(data.extents, data.devices, newSectors);
      if found.Err? {
        return Err(found.error), es;
      }
      var e := Extent(newSectors, TARGET_LINEAR, found.value.1, found.value.0);
      GrowFresh(t, i, e, newSectors);
      data.partitions := data.partitions[i := data.partitions[i].(firstExtentIndex := |data.extents|, numExtents := 1)];
      data.extents := data.extents + [e];
      return Ok(()), [e];
    }
    var lastIdx := first + num - 1;
    LastInWindow(t, i);
    if lastIdx >= |data.extents| {
      return Err(Invalid), es;
    }
    var last := data.extents[lastIdx];
    if last.targetType != TARGET_LINEAR {
      return Err(Invalid), es;
    }
    LinearPlaced(data.extents, data.devices, lastIdx);
    var growStart := CheckedAdd(last.targetData, last.numSectors);
    if growStart.None? {
      return Err(Invalid), es;
    }
    var free := IsRangeFree(data.extents, data.devices, last.targetSource, growStart.value, extra);
    NotFreeIfTooLong(data.extents, data.devices[last.targetSource], last.targetSource, growStart.value, extra);
    if free.Ok? && free.value {
      GrowInPlace(t, i, extra);
      data.extents := data.extents[lastIdx := last.(numSectors := SaturatingAdd(last.numSectors, extra))];
      return Ok(()), Lengthened(Meaning(t)[i].extents, extra);
    }
    var phys := FindFreeSectors(data.extents, data.devices, last.targetSource, extra);
    if phys.Err? {
      return Err(phys.error), es;
    }
    var insertAt := first + num;
    var e := Extent(extra, TARGET_LINEAR, phys.value, last.targetSource);
    if insertAt > |data.extents| {
      return Err(Invalid), es;
    }
    GrowSpliced(t, i, e, extra);
    data.extents := data.extents[..insertAt] + [e] + data.extents[insertAt..];
    data.partitions := SpliceIndices(data.partitions, i, insertAt);
    r, es := Ok(()), Meaning(t)[i].extents + [e];
  }

  lemma LinearPlaced(extents: seq<Extent>, devices: seq<BlockDevice>, k: nat)
    requires Placed(extents, devices) && k < |extents| && Linear(extents[k])
    ensures extents[k].targetSource < |devices|
  {}

  /** A range that overflows 64 bits is not free on a device of known size. */
  lemma NotFreeIfTooLong(extents: seq<Extent>, d: BlockDevice, index: int, sector: nat, len: nat)
    requires Limit(d) > 0
    ensures sector + len > U64_MAX ==> !RangeFree(extents, d, index, sector, len)
  {
    LimitBound(d);
  }

  // ------------------------------------------------------------- shrinking

  /** The first `newNum` extents of the window, the last one possibly cut, are the truncation. */
  ghost predicate Walked(window: seq<Extent>, window': seq<Extent>, newNum: nat, n: nat) {
    newNum <= |window'| == |window| && window'[..newNum] == Truncate(window, n)
  }

  /** After `j` extents, `keep` sectors are still to be kept. */
  ghost predicate Walking(window: seq<Extent>, j: nat, keep: nat, n: nat) {
    j <= |window| && window[..j] + Truncate(window[j..], keep) == Truncate(window, n)
  }

  lemma WalkStarts(window: seq<Extent>, n: nat)
    ensures Walking(window, 0, n, n)
  {
    assert window[..0] == [] && window[0..] == window;
  }

  lemma WalkStep(window: seq<Extent>, j: nat, keep: nat, n: nat)
    requires j < |window| && keep > 0 && Walking(window, j, keep, n)
    ensures window[j].numSectors <= keep ==> Walking(window, j + 1, keep - window[j].numSectors, n)
    ensures window[j].numSectors > keep ==> Walked(window, window[j := window[j].(numSectors := keep)], j + 1, n)
  {
    hide Truncate;
    TruncateStep(window, j, keep);
  }

  lemma WalkEnds(window: seq<Extent>, j: nat, keep: nat, n: nat)
    requires Walking(window, j, keep, n) && (keep == 0 || j == |window|)
    ensures Walked(window, window, j, n)
  {
    assert Truncate(window[j..], keep) == [];
  }

  lemma TruncateStep(window: seq<Extent>, j: nat, keep: nat)
    requires j < |window| && keep > 0
    ensures window[j].numSectors <= keep ==>
              window[..j] + Truncate(window[j..], keep)
              == window[..j + 1] + Truncate(window[j + 1..], keep - window[j].numSectors)
    ensures window[j].numSectors > keep ==>
              window[..j] + Truncate(window[j..], keep) == window[j := window[j].(numSectors := keep)][..j + 1]
  {
    assert window[j..][1..] == window[j + 1..];
    assert window[..j + 1] == window[..j] + [window[j]];
  }

  /** Walks the window, keeping a prefix of exactly `newSectors` sectors; cuts the last kept extent in place. */
  method WalkPrefix(data: SuperData, i: nat, newSectors: u64) returns (newNum: nat, ghost window': seq<Extent>)
    requires WellFormed(data.View()) && i < |data.partitions|
    modifies data`extents
    ensures WellFormed(data.View()) && |data.extents| == old(|data.extents|) && newNum <= data.partitions[i].numExtents
    ensures Walked(old(Meaning(data.View())[i].extents), window', newNum, newSectors)
    ensures Meaning(data.View()) == old(Meaning(data.View()))[i := old(Meaning(data.View())[i]).(extents := window')]
  {
    hide Tiles, Placed, MeaningOf, UniqueNames, GroupsValid, DevicesUsable, Walking, Walked;
    ghost var t := data.View();
    WindowIs(t, i);
    ghost var window := Meaning(t)[i].extents;
    window' := window;
    WalkStarts(window, newSectors);
    var keep: u64 := newSectors;
    newNum := 0;
    var idx: nat := data.partitions[i].firstExtentIndex;
    var num: nat := data.partitions[i].numExtents;
    for j := 0 to num
      invariant data.extents == t.extents && newNum == j && idx == data.partitions[i].firstExtentIndex + j
      invariant Walking(window, j, keep, newSectors)
    {
      if idx >= |data.extents| {
        break;
      }
      if keep == 0 {
        break;
      }
      var e := data.extents[idx];
      WalkStep(window, j, keep, newSectors);
      if e.numSectors <= keep {
        keep := keep - e.numSectors;
        newNum := newNum + 1;
        idx := idx + 1;
      } else {
        CutInPlace(t, i, j, keep);
        data.extents := data.extents[idx := e.(numSectors := keep)];
        newNum := newNum + 1;
        window' := window[j := window[j].(numSectors := keep)];
        return;
      }
    }
    WalkEnds(window, newNum, keep, newSectors);
    assert Meaning(t) == Meaning(t)[i := Meaning(t)[i].(extents := window)];
  }

  lemma WindowIs(t: Tables, i: nat)
    requires Tiles(t.partitions, |t.extents|) && i < |t.partitions|
    ensures WindowEnd(t.partitions[i]) <= |t.extents|
    ensures Meaning(t)[i].extents == t.extents[t.partitions[i].firstExtentIndex..WindowEnd(t.partitions[i])]
    ensures |Meaning(t)[i].extents| == t.partitions[i].numExtents
  {}

  lemma CutInPlace(t: Tables, i: nat, j: nat, keep: u64)
    requires WellFormed(t) && i < |t.partitions| && j < t.partitions[i].numExtents
    requires var k := t.partitions[i].firstExtentIndex + j; k < |t.extents| && keep <= t.extents[k].numSectors
    ensures var k := t.partitions[i].firstExtentIndex + j;
            var t' := t.(extents := t.extents[k := t.extents[k].(numSectors := keep)]);
            var window := Meaning(t)[i].extents;
            && WellFormed(t') && j < |window| && window[j] == t.extents[k]
            && Meaning(t') == Meaning(t)[i := Meaning(t)[i].(extents := window[j := window[j].(numSectors := keep)])]
  {
    hide Tiles, Placed;
    WindowIs(t, i);
    var k := t.partitions[i].firstExtentIndex + j;
    PlacedShrink(t.extents, t.devices, k, keep);
    UpdateInWindow(t.partitions, t.extents, i, k, t.extents[k].(numSectors := keep));
  }

  /** Cutting the tail of a window off the table. */
  lemma CutReplaces(t: Tables, i: nat, keep: nat)
    requires WellFormed(t) && i < |t.partitions| && keep <= t.partitions[i].numExtents
    ensures WindowEnd(t.partitions[i]) <= |t.extents| && keep <= |Meaning(t)[i].extents|
    ensures Replaced(t, t.(partitions := CutAt(t.partitions, i, keep),
                           extents := WithoutRange(t.extents, t.partitions[i].firstExtentIndex + keep,
                                                   WindowEnd(t.partitions[i]))),
                     i, Meaning(t)[i].extents[..keep])
  {
    hide Tiles, Placed;
    WindowIs(t, i);
    CutTiles(t.partitions, t.extents, i, keep);
    PlacedRemove(t.extents, t.devices, t.partitions[i].firstExtentIndex + keep, WindowEnd(t.partitions[i]));
    SameNames(t.partitions, CutAt(t.partitions, i, keep), t.groups);
  }

  method Shrink(data: SuperData, i: nat, newSectors: u64) returns (r: Result<()>)
    requires WellFormed(data.View()) && i < |data.partitions|
    requires newSectors <= Sectors(Meaning(data.View())[i].extents)
    modifies data
    ensures r.Ok? && Replaced(old(data.View()), data.View(), i,
                              Truncate(old(Meaning(data.View())[i].extents), newSectors))
    ensures |data.extents| <= old(|data.extents|)
  {
    hide Tiles, Placed, MeaningOf, UniqueNames, GroupsValid, DevicesUsable, CutAt, ShiftedDown;
    ghost var t := data.View();
    WindowIs(t, i);
    var first: nat, num: nat := data.partitions[i].firstExtentIndex, data.partitions[i].numExtents;
    if newSectors == 0 {
      var rmStart, rmCount := first, num;
      if rmStart + rmCount > |data.extents| {
        return Err(Invalid);
      }
      data.extents := data.extents[..rmStart] + data.extents[rmStart + rmCount..];
      data.partitions := data.partitions[i := data.partitions[i].(firstExtentIndex := rmStart, numExtents := 0)];
      data.partitions := ShiftDown(data.partitions, i, rmStart + 1, rmCount);
      ZeroIndices(t.partitions, |t.extents|, i);
      CutReplaces(t, i, 0);
      assert Meaning(t)[i].extents[..0] == [];
      return Ok(());
    }
    if num == 0 {
      return Err(Invalid);
    }
    var newNum, window' := WalkPrefix(data, i, newSectors);
    ghost var walked := data.View();
    CutReplaces(walked, i, newNum);
    ShiftTailIsCut(walked.partitions, i, newNum);
    var surplus := num - newNum;
    if surplus > 0 {
      var rmStart, rmEnd := first + newNum, first + num;
      if rmEnd > |data.extents| || rmStart > rmEnd {
        return Err(Invalid);
      }
      data.extents := data.extents[..rmStart] + data.extents[rmEnd..];
      data.partitions := data.partitions[i := data.partitions[i].(numExtents := newNum)];
      data.partitions := ShiftDown(data.partitions, i, rmEnd, surplus);
    } else {
      NothingCut(walked, i);
      data.partitions := data.partitions[i := data.partitions[i].(numExtents := newNum)];
    }
    ReplacedTwice(t, walked, data.View(), i, window', window'[..newNum]);
    r := Ok(());
  }

  lemma ZeroIndices(ps: seq<Partition>, len: nat, i: nat)
    requires Tiles(ps, len) && i < |ps|
    ensures var f, n := ps[i].firstExtentIndex, ps[i].numExtents;
            ShiftedDown(ps[i := ps[i].(firstExtentIndex := f, numExtents := 0)], i, f + 1, n) == CutAt(ps, i, 0)
  {
    hide Tiles;
    ShiftIsCut(ps, len, i, i);
    var f: nat, n := ps[i].firstExtentIndex, ps[i].numExtents;
    var q := ps[i].(firstExtentIndex := f, numExtents := 0);
    assert ShiftedDown(ps[i := q], i, f + 1, n) == ShiftedDown(ps, i, f + 1, n)[i := q];
    assert CutAt(ps, i, 0)[i] == q;
  }

  lemma NothingCut(t: Tables, i: nat)
    requires Tiles(t.partitions, |t.extents|) && i < |t.partitions|
    ensures var n := t.partitions[i].numExtents;
            && CutAt(t.partitions, i, n) == t.partitions == t.partitions[i := t.partitions[i].(numExtents := n)]
            && WindowEnd(t.partitions[i]) <= |t.extents|
            && WithoutRange(t.extents, t.partitions[i].firstExtentIndex + n, WindowEnd(t.partitions[i])) == t.extents
  {}

  lemma ReplacedTwice(t: Tables, walked: Tables, after: Tables, i: nat, es: seq<Extent>, es': seq<Extent>)
    requires i < |t.partitions| && walked.partitions == t.partitions && walked.groups == t.groups
             && walked.devices == t.devices
    requires Meaning(walked) == Meaning(t)[i := Meaning(t)[i].(extents := es)]
    requires Replaced(walked, after, i, es')
    ensures Replaced(t, after, i, es')
  {}

  // ---------------------------------------------------------------- resize

  /** Bytes of one window, saturating. */
  method PartitionSize(data: SuperData, p: Partition) returns (total: u64)
    ensures total == Min(Sectors(WindowHead(data.extents, p)) * SECTOR_SIZE, U64_MAX)
  {
    total := 0;
    var idx: nat := p.firstExtentIndex;
    ghost var window := WindowHead(data.extents, p);
    assert |window| <= p.numExtents && window[..|window|] == window;
    hide WindowHead;
    for i := 0 to p.numExtents
      invariant idx == p.firstExtentIndex + i && i <= |window|
      invariant total == Min(Sectors(window[..i]) * SECTOR_SIZE, U64_MAX)
    {
      if idx >= |data.extents| {
        assert i == |window|;
        break;
      }
      assert window[..i + 1] == window[..i] + [data.extents[idx]];
      SectorsConcat(window[..i], [data.extents[idx]]);
      SectorsOne(data.extents[idx]);
      total := SaturatingAdd(total, SaturatingMul(data.extents[idx].numSectors, SECTOR_SIZE));
      idx := idx + 1;
    }
  }

  /** The group limit check of `resize`: the others' load plus the new size. */
  method ResizePermits(data: SuperData, i: nat, newSectors: u64, force: bool) returns (ok: bool)
    requires WellFormed(data.View()) && i < |data.partitions|
    ensures data.partitions[i].groupIndex < |data.groups|
    ensures ok <==> !OverQuota(Meaning(data.View()), data.groups, data.partitions[i].groupIndex,
                               newSectors - Sectors(Meaning(data.View())[i].extents), force)
  {
    hide Tiles, Placed, GroupLoad, DevicesUsable, Sectors, Window;
    ghost var ms := Meaning(data.View());
    var p := data.partitions[i];
    LoadExceptOne(ms, i);
    var groupMax := data.groups[p.groupIndex].maximumSize;
    ok := true;
    if !force && groupMax > 0 {
      var others := data.GroupSectors(p.groupIndex, Some(p.name));
      ok := SaturatingAdd(others, newSectors) <= groupMax / SECTOR_SIZE;
    }
  }

  lemma QuotaAfterResize(ms: seq<Logical>, ms': seq<Logical>, groups: seq<Group>, i: nat, es: seq<Extent>, force: bool)
    requires i < |ms| && ms' == ms[i := ms[i].(extents := es)] && ms[i].group < |groups|
    requires !OverQuota(ms, groups, ms[i].group, Sectors(es) - Sectors(ms[i].extents), force)
    ensures QuotaAllows(ms', groups, ms[i].group, force)
  {
    hide GroupLoad, Sectors;
    GroupLoadUpdate(ms, i, ms[i].(extents := es), ms[i].group);
  }

  lemma GroupInRange(t: Tables, i: nat)
    requires GroupsValid(t.partitions, t.groups) && i < |t.partitions|
    ensures t.partitions[i].groupIndex < |t.groups| && Meaning(t)[i].group == t.partitions[i].groupIndex
  {}

  /** `es` is the partition's chain brought to exactly `sectors`. */
  ghost predicate Resizes(t: Tables, was: seq<Extent>, es: seq<Extent>, sectors: nat) {
    && Sectors(es) == sectors
    && if sectors > Sectors(was) then Grown(t, was, es, sectors - Sectors(was)) else es == Truncate(was, sectors)
  }

  /** The change itself, once it is permitted. */
  method ResizeTo(data: SuperData, i: nat, newSectors: u64) returns (r: Result<()>, ghost es: seq<Extent>)
    requires WellFormed(data.View()) && Capped(data.View()) && i < |data.partitions|
    modifies data
    ensures r.Err? ==>
              && data.View() == old(data.View()) && newSectors > Sectors(Meaning(data.View())[i].extents)
              && CannotGrow(data.View(), Meaning(data.View())[i].extents,
                            newSectors - Sectors(Meaning(data.View())[i].extents))
    ensures r.Ok? ==>
              && Replaced(old(data.View()), data.View(), i, es)
              && Resizes(old(data.View()), old(Meaning(data.View())[i].extents), es, newSectors)
    ensures |data.extents| <= old(|data.extents|) + 1
  {
    hide Tiles, Placed, MeaningOf, GroupsValid, UniqueNames, DevicesUsable, Grown, CannotGrow, Truncate, Replaced;
    ghost var t := data.View();
    ghost var was := Meaning(t)[i].extents;
    WindowIs(t, i);
    var currentSectors := data.PartitionSectors(data.partitions[i]);
    if newSectors > currentSectors {
      r, es := Grow(data, i, newSectors, currentSectors);
      if r.Ok? {
        GrownSectors(t, was, es, newSectors - currentSectors);
      }
    } else {
      es := Truncate(was, newSectors);
      TruncateExact(was, newSectors);
      r := Shrink(data, i, newSectors);
    }
  }

  /** The byte size of an extent list, saturating. */
  function ByteSize(es: seq<Extent>): nat {
    Min(Sectors(es) * SECTOR_SIZE, U64_MAX)
  }

  /** A new size, and a shrink that was not allowed, a group that would exceed its size, or no room. */
  ghost predicate ResizeRefused(t: Tables, i: nat, newSize: nat, allowShrink: bool, force: bool)
    requires i < |t.partitions|
  {
    var m, sectors := Meaning(t)[i], DivCeil(newSize, SECTOR_SIZE);
    newSize != ByteSize(m.extents) &&
    (|| (newSize < ByteSize(m.extents) && !allowShrink)
     || OverQuota(Meaning(t), t.groups, m.group, sectors - Sectors(m.extents), force)
     || (sectors > Sectors(m.extents) && CannotGrow(t, m.extents, sectors - Sectors(m.extents))))
  }

  /**
   `resize`. The present size changes nothing. Any other request becomes the sector
   total exactly: growing keeps the old extents as a prefix of sectors, shrinking
   leaves the truncation, and nobody else's extents change. An error has one of three
   reasons and changes nothing.
   */
  method Resize(data: SuperData, i: nat, newSize: u64, allowShrink: bool, force: bool)
    returns (r: Result<Outcome>, ghost es: seq<Extent>)
    requires WellFormed(data.View()) && Capped(data.View()) && i < |data.partitions|
    modifies data
    ensures r.Err? || r == Ok(Unchanged) ==> data.View() == old(data.View())
    ensures r.Err? ==> ResizeRefused(data.View(), i, newSize, allowShrink, force)
    ensures r == Ok(Unchanged) <==> newSize == ByteSize(old(Meaning(data.View())[i].extents))
    ensures r == Ok(Resized) ==>
              var was := old(Meaning(data.View())[i]);
              && Replaced(old(data.View()), data.View(), i, es)
              && Resizes(old(data.View()), was.extents, es, DivCeil(newSize, SECTOR_SIZE))
              && (allowShrink || newSize > ByteSize(was.extents))
              && QuotaAllows(Meaning(data.View()), data.groups, was.group, force)
    ensures |data.extents| <= old(|data.extents|) + 1
  {
    hide Tiles, Placed, MeaningOf, GroupsValid, UniqueNames, DevicesUsable, Grown, CannotGrow, Truncate, GroupLoad,
      Sectors, OverQuota;
    ghost var t := data.View();
    ghost var ms := Meaning(t);
    es := [];
    WindowIs(t, i);
    GroupInRange(t, i);
    var p := data.partitions[i];
    var currentSize := PartitionSize(data, p);
    if newSize < currentSize && !allowShrink {
      return Err(Invalid), es;
    }
    if newSize == currentSize {
      return Ok(Unchanged), es;
    }
    if p.groupIndex >= |data.groups| {
      return Err(Invalid), es;
    }
    var newSectors := DivCeil(newSize, SECTOR_SIZE);
    var permitted := ResizePermits(data, i, newSectors, force);
    if !permitted {
      return Err(Invalid), es;
    }
    var changed;
    changed, es := ResizeTo(data, i, newSectors);
    if changed.Err? {
      return Err(changed.error), [];
    }
    QuotaAfterResize(ms, Meaning(data.View()), data.groups, i, es, force);
    r := Ok(Resized);
  }
}
