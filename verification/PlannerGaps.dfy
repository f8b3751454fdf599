/**
 The documented promise of the planner: a request packs as long as the total free
 space suffices. It holds exactly for tables whose free gaps all start in phase.
 */
module PlannerGaps {
  import opened Alignment
  import opened Allocator
  import opened Base
  import opened Format
  import opened Planner

  /** A sector an allocation may contain: past the device's start, on the device, and in no extent. */
  ghost predicate IsFree(extents: seq<Extent>, d: BlockDevice, index: int, t: int) {
    d.firstLogicalSector <= t && RangeFree(extents, d, index, t, 1)
  }

  ghost function FreeSectors(extents: seq<Extent>, d: BlockDevice, index: int): set<int> {
    set t: int | 0 <= t < Limit(d) && IsFree(extents, d, index, t)
  }

  ghost function FreeFrom(extents: seq<Extent>, devices: seq<BlockDevice>, from: nat): nat
    decreases |devices| - from
  {
    if from >= |devices| then 0
    else |FreeSectors(extents, devices[from], from)| + FreeFrom(extents, devices, from + 1)
  }

  /** The free sectors of all devices. */
  ghost function FreeTotal(extents: seq<Extent>, devices: seq<BlockDevice>): nat {
    FreeFrom(extents, devices, 0)
  }

  /** A free gap starts at `t`: it does not continue a gap from the sector in front. */
  ghost predicate GapStart(extents: seq<Extent>, d: BlockDevice, index: int, t: int) {
    && IsFree(extents, d, index, t)
    && (t == d.firstLogicalSector || !RangeFree(extents, d, index, t - 1, 2))
  }

  /** Every free gap of the device starts at a sector where a run may start. */
  ghost predicate GapsInPhase(extents: seq<Extent>, d: BlockDevice, index: int) {
    forall t :: GapStart(extents, d, index, t) ==> InPhase(t, d.alignment, d.alignmentOffset)
  }

  lemma ReachableIsFree(extents: seq<Extent>, d: BlockDevice, index: int)
    requires Limit(d) > 0
    ensures Reachable(extents, d, index) <= FreeSectors(extents, d, index)
  {
    forall t | t in Reachable(extents, d, index) ensures t in FreeSectors(extents, d, index) {
      var s :| RunEndsAt(extents, d, index, s, t);
    }
  }

  /** An extent in the way of a range is in the way of two neighbouring sectors of it. */
  lemma BlockedPair(extents: seq<Extent>, d: BlockDevice, index: int, s: int, len: int, e: Extent) returns (u: int)
    requires 0 <= s && len >= 2 && s + len <= U64_MAX && e in extents && OnDevice(e, index)
    requires s < Min(End(e), U64_MAX) && e.targetData < s + len
    ensures s <= u < s + len - 1 && !RangeFree(extents, d, index, u, 2)
  {
    u := if e.targetData <= s + 1 then s else e.targetData - 1;
  }

  /** Sectors that are free in pairs are free as a range. */
  lemma PairsJoin(extents: seq<Extent>, d: BlockDevice, index: int, s: int, len: int)
    requires 0 <= s && len >= 2 && Limit(d) > 0
    requires forall t :: s <= t < s + len - 1 ==> RangeFree(extents, d, index, t, 2)
    ensures RangeFree(extents, d, index, s, len)
  {
    assert RangeFree(extents, d, index, s + len - 2, 2);
    LimitBound(d);
    forall e | e in extents && OnDevice(e, index)
      ensures !(s < Min(End(e), U64_MAX) && e.targetData < s + len)
    {
      if s < Min(End(e), U64_MAX) && e.targetData < s + len {
        var u := BlockedPair(extents, d, index, s, len, e);
      }
    }
  }

  lemma PartOfRange(extents: seq<Extent>, d: BlockDevice, index: int, s: int, len: int, t: int, part: int)
    requires RangeFree(extents, d, index, s, len) && s <= t && t + part <= s + len
    ensures RangeFree(extents, d, index, t, part)
  {}

  /** The start of the gap around a free sector, and the range from there on. */
  lemma {:induction false} GapOf(extents: seq<Extent>, d: BlockDevice, index: int, t: int) returns (g: int)
    requires Limit(d) > 0 && IsFree(extents, d, index, t)
    ensures g <= t && GapStart(extents, d, index, g)
    ensures forall u :: g <= u < t ==> RangeFree(extents, d, index, u, 2)
    decreases t - d.firstLogicalSector
  {
    if GapStart(extents, d, index, t) {
      g := t;
    } else {
      assert RangeFree(extents, d, index, t - 1, 2);
      g := GapOf(extents, d, index, t - 1);
    }
  }

  /** On one device, every free sector is reachable exactly if every gap starts in phase. */
  lemma FreeIsReachable(extents: seq<Extent>, d: BlockDevice, index: int)
    requires Limit(d) > 0
    ensures FreeSectors(extents, d, index) == Reachable(extents, d, index) <==> GapsInPhase(extents, d, index)
  {
    ReachableIsFree(extents, d, index);
    if GapsInPhase(extents, d, index) {
      forall t | t in FreeSectors(extents, d, index) ensures t in Reachable(extents, d, index) {
        var g := GapOf(extents, d, index, t);
        if g < t {
          PairsJoin(extents, d, index, g, t + 1 - g);
        }
        assert RunEndsAt(extents, d, index, g, t);
      }
    }
    if FreeSectors(extents, d, index) == Reachable(extents, d, index) {
      forall t | GapStart(extents, d, index, t) ensures InPhase(t, d.alignment, d.alignmentOffset) {
        assert t in FreeSectors(extents, d, index);
        var s :| RunEndsAt(extents, d, index, s, t);
        StartsAtGap(extents, d, index, s, t);
      }
    }
  }

  /** A run that ends with the first sector of a gap starts there. */
  lemma StartsAtGap(extents: seq<Extent>, d: BlockDevice, index: int, s: int, t: int)
    requires RunEndsAt(extents, d, index, s, t) && GapStart(extents, d, index, t)
    ensures s == t
  {
    if s < t {
      PartOfRange(extents, d, index, s, t + 1 - s, t - 1, 2);
    }
  }

  /** What the planner can use is at most what is free, and all of it exactly if every gap starts in phase. */
  lemma {:induction false} CapacityIsFree(extents: seq<Extent>, devices: seq<BlockDevice>, from: nat)
    requires Regular(extents, devices)
    ensures CapacityFrom(extents, devices, from) <= FreeFrom(extents, devices, from)
    ensures CapacityFrom(extents, devices, from) == FreeFrom(extents, devices, from)
            <==> forall k :: from <= k < |devices| ==> GapsInPhase(extents, devices[k], k)
    decreases |devices| - from
  {
    hide GapsInPhase, Addressable;
    if from < |devices| {
      var d := devices[from];
      assert Limit(d) > 0;
      CapacityIsFree(extents, devices, from + 1);
      ReachableIsFree(extents, d, from);
      SubsetSize(Reachable(extents, d, from), FreeSectors(extents, d, from));
      FreeIsReachable(extents, d, from);
      if |Reachable(extents, d, from)| == |FreeSectors(extents, d, from)| {
        SameSize(Reachable(extents, d, from), FreeSectors(extents, d, from));
      }
    }
  }

  lemma SameSize(a: set<int>, b: set<int>)
    requires a <= b && |a| == |b|
    ensures a == b
  {
    assert b == a + (b - a);
  }

  /** The planner serves requests of this size: `PlanSpanningAllocation` succeeds up to the capacity. */
  ghost predicate Packs(extents: seq<Extent>, devices: seq<BlockDevice>, needed: nat) {
    needed <= Capacity(extents, devices)
  }

  /**
   Every request up to the free total is planned if and only if every free gap of
   every device starts in phase.
   */
  lemma PacksAllFree(extents: seq<Extent>, devices: seq<BlockDevice>)
    requires Regular(extents, devices)
    ensures (forall needed: nat :: needed <= FreeTotal(extents, devices) ==> Packs(extents, devices, needed))
            <==> forall k :: 0 <= k < |devices| ==> GapsInPhase(extents, devices[k], k)
  {
    hide GapsInPhase, Regular, FreeFrom, CapacityFrom;
    CapacityIsFree(extents, devices, 0);
    if forall needed: nat :: needed <= FreeTotal(extents, devices) ==> Packs(extents, devices, needed) {
      assert Packs(extents, devices, FreeTotal(extents, devices));
    }
  }

  /** A gap that starts out of phase: seven sectors are free, and a request for one of them is refused. */
  lemma PhaseLosesSectors()
    ensures var devices, extents := [BlockDevice(8, 4096, 0, 16 * SECTOR_SIZE, [])], [Extent(1, TARGET_LINEAR, 8, 0)];
            Regular(extents, devices) && FreeTotal(extents, devices) == 7 && Capacity(extents, devices) == 0
  {
    var d, e := BlockDevice(8, 4096, 0, 16 * SECTOR_SIZE, []), Extent(1, TARGET_LINEAR, 8, 0);
    var devices, extents := [d], [e];
    assert e in extents && Limit(d) == 16;
    forall t ensures 0 <= t < 16 && IsFree(extents, d, 0, t) <==> Within(9, t, 16) {}
    assert FreeSectors(extents, d, 0) == Interval(9, 16);
    IntervalSize(9, 16);
    assert FreeFrom(extents, devices, 1) == 0;
    forall s ensures !IsFit(extents, d, 0, 1, s) {
      if InPhase(s, 4096, 0) && 8 <= s < 16 {
        assert s == 8;
      }
    }
    NoFitNoCapacity(extents, devices, 0);
  }
}
