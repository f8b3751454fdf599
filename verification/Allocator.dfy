/**
 The extent allocator of `LpWriter`: one device at a time.

 `FindFreeSectors` and `LargestFreeRun` are two separate sweeps over the sorted
 used ranges of a device. Both are proved against the same declarative notion of
 a fit, which is phrased with the independent overlap test `IsRangeFree`.
 */
module Allocator {
  import opened Alignment
  import opened Base
  import opened Format

  predicate OnDevice(e: Extent, index: int) {
    e.targetType == TARGET_LINEAR && e.targetSource == index
  }

  function End(e: Extent): nat {
    e.targetData + e.numSectors
  }

  /** Device size in whole sectors; zero means the size is unknown. */
  function Limit(d: BlockDevice): nat {
    d.size / SECTOR_SIZE
  }

  // ------------------------------------------------------------ fits

  /** `[sector, sector + len)` meets no linear extent of the device and ends on it. */
  ghost predicate RangeFree(extents: seq<Extent>, d: BlockDevice, index: int, sector: int, len: int) {
    && (Limit(d) > 0 ==> sector + len <= Limit(d))
    && forall e :: e in extents && OnDevice(e, index) ==>
         !(sector < Min(End(e), U64_MAX) && e.targetData < sector + len)
  }

  /** An admissible start for a run of `len` sectors. */
  ghost predicate IsFit(extents: seq<Extent>, d: BlockDevice, index: int, len: int, sector: int) {
    && d.firstLogicalSector <= sector
    && InPhase(sector, d.alignment, d.alignmentOffset)
    && RangeFree(extents, d, index, sector, len)
  }

  ghost predicate HasFit(extents: seq<Extent>, d: BlockDevice, index: int, len: int) {
    exists s :: IsFit(extents, d, index, len, s)
  }

  ghost predicate IsFirstFit(extents: seq<Extent>, d: BlockDevice, index: int, len: int, sector: int) {
    && IsFit(extents, d, index, len, sector)
    && forall s :: IsFit(extents, d, index, len, s) ==> sector <= s
  }

  /** Every extent end on the device is a 64-bit number. */
  ghost predicate EndsFit(extents: seq<Extent>, index: int) {
    forall e :: e in extents && OnDevice(e, index) ==> End(e) <= U64_MAX
  }

  /** Every sector the sweeps align has a 64-bit byte offset. */
  ghost predicate Addressable(extents: seq<Extent>, d: BlockDevice, index: int) {
    && d.firstLogicalSector < SECTOR_BOUND
    && forall e :: e in extents && OnDevice(e, index) ==> End(e) < SECTOR_BOUND
  }

  lemma LimitBound(d: BlockDevice)
    ensures Limit(d) < SECTOR_BOUND
  {}

  /** A fit stays a fit for every shorter run. */
  lemma ShorterFits(extents: seq<Extent>, d: BlockDevice, index: int, len: int, shorter: int, s: int)
    requires IsFit(extents, d, index, len, s) && shorter <= len
    ensures IsFit(extents, d, index, shorter, s)
  {}

  // ------------------------------------------------------ used ranges

  datatype Range = Range(start: u64, end: u64)

  ghost predicate SortedByStart(used: seq<Range>) {
    forall i, j :: 0 <= i < j < |used| ==> used[i].start <= used[j].start
  }

  lemma SortedPrepend(x: Range, s: seq<Range>)
    requires SortedByStart(s) && forall y :: y in s ==> x.start <= y.start
    ensures SortedByStart([x] + s)
  {}

  function Insert(x: Range, sorted: seq<Range>): seq<Range> {
    if sorted == [] || x.start < sorted[0].start then [x] + sorted
    else [sorted[0]] + Insert(x, sorted[1..])
  }

  lemma {:induction false} InsertSorts(x: Range, sorted: seq<Range>)
    requires SortedByStart(sorted)
    ensures SortedByStart(Insert(x, sorted))
    ensures multiset(Insert(x, sorted)) == multiset{x} + multiset(sorted)
  {
    if sorted == [] || x.start < sorted[0].start {
      SortedPrepend(x, sorted);
    } else {
      var tail := sorted[1..];
      var rest := Insert(x, tail);
      InsertSorts(x, tail);
      forall y | y in rest ensures sorted[0].start <= y.start {
        assert y in multiset(rest);
        assert y == x || y in tail;
      }
      SortedPrepend(sorted[0], rest);
      assert sorted == [sorted[0]] + tail;
    }
  }

  /** The library's `sort_by_key` on the start sector. */
  function SortByStart(used: seq<Range>): (r: seq<Range>)
    ensures SortedByStart(r) && multiset(r) == multiset(used)
  {
    if used == [] then []
    else
      assert used == [used[0]] + used[1..];
      InsertSorts(used[0], SortByStart(used[1..]));
      Insert(used[0], SortByStart(used[1..]))
  }

  /** `used` lists exactly the sector ranges of the device's linear extents. */
  ghost predicate Covers(used: seq<Range>, extents: seq<Extent>, index: int) {
    && (forall e :: e in extents && OnDevice(e, index) ==>
          End(e) <= U64_MAX && Range(e.targetData, End(e)) in used)
    && (forall u :: u in used ==>
        exists e :: e in extents && OnDevice(e, index) && u.start == e.targetData && u.end == End(e))
  }

  method CollectUsed(extents: seq<Extent>, index: u32) returns (r: Result<seq<Range>>)
    ensures r.Ok? <==> EndsFit(extents, index)
    ensures r.Ok? ==> SortedByStart(r.value) && Covers(r.value, extents, index)
  {
    var used: seq<Range> := [];
    for i := 0 to |extents|
      invariant EndsFit(extents[..i], index)
      invariant Covers(used, extents[..i], index)
    {
      var e := extents[i];
      assert extents[..i + 1] == extents[..i] + [e];
      if OnDevice(e, index) {
        if End(e) > U64_MAX {
          return Err(Invalid);
        }
        used := used + [Range(e.targetData, End(e))];
      }
    }
    assert extents[..|extents|] == extents;
    var sorted := SortByStart(used);
    assert forall u :: u in sorted <==> u in multiset(sorted);
    r := Ok(sorted);
  }

  // ---------------------------------------------------------- the sweeps

  /** State of a sweep: ranges before `i` end by `candidate`. */
  ghost predicate Passed(used: seq<Range>, i: nat, d: BlockDevice, candidate: int) {
    && i <= |used|
    && d.firstLogicalSector <= candidate
    && InPhase(candidate, d.alignment, d.alignmentOffset)
    && forall k :: 0 <= k < i ==> used[k].end <= candidate
  }

  /** Stopping short of the next used range leaves the run free. */
  lemma GapIsFit(used: seq<Range>, extents: seq<Extent>, d: BlockDevice, index: int, i: nat, candidate: int, len: int)
    requires SortedByStart(used) && Covers(used, extents, index) && Passed(used, i, d, candidate)
    requires i < |used| ==> candidate + len <= used[i].start
    requires Limit(d) > 0 ==> candidate + len <= Limit(d)
    ensures IsFit(extents, d, index, len, candidate)
  {
    forall e | e in extents && OnDevice(e, index)
      ensures !(candidate < Min(End(e), U64_MAX) && e.targetData < candidate + len)
    {
      var k :| 0 <= k < |used| && used[k] == Range(e.targetData, End(e));
      if k >= i {
        assert k > i ==> used[i].start <= used[k].start;
      }
    }
  }

  /** A fit starting in `[candidate, AlignUp(end))` must end before the range `used[i]` starts. */
  lemma FitBeforeRange(used: seq<Range>, extents: seq<Extent>, d: BlockDevice, index: int, i: nat, len: int, s: int)
    requires Covers(used, extents, index) && i < |used|
    requires IsFit(extents, d, index, len, s)
    ensures s + len <= used[i].start || used[i].end <= s
  {
    assert used[i] in used;
    var e :| e in extents && OnDevice(e, index) && used[i].start == e.targetData && used[i].end == End(e);
  }

  /** A fit at or after `end` starts at or after its aligned successor, which exists on every known device. */
  lemma FitPastRange(extents: seq<Extent>, d: BlockDevice, index: int, end: u64, len: int, s: int)
    requires IsFit(extents, d, index, len, s) && end <= s && len >= 0
    ensures var next := AlignUp(end, d.alignment, d.alignmentOffset);
            if next.Some? then next.value <= s else SECTOR_BOUND <= s
    ensures Limit(d) > 0 ==> s < SECTOR_BOUND
  {
    AlignUpIsLeast(end, d.alignment, d.alignmentOffset);
  }

  /** A fit past the sectors that the search can address. */
  ghost predicate OutOfReach(len: int, s: int) {
    SECTOR_BOUND <= s || s + len > U64_MAX
  }

  /**
   First fit on one device: the least admissible start, also when used ranges nest or
   overlap. On a device of known size the search succeeds exactly when such a start
   exists, on one of unknown size unless all of them are out of reach. Only an extent
   whose end overflows 64 bits makes it fail regardless.
   */
  method FindFreeSectors(extents: seq<Extent>, devices: seq<BlockDevice>, index: u32, needed: u64)
    returns (r: Result<u64>)
    ensures r.Ok? ==> needed > 0 && index < |devices| && EndsFit(extents, index)
    ensures r.Ok? ==> IsFirstFit(extents, devices[index], index, needed, r.value)
    ensures needed > 0 && index < |devices| && Limit(devices[index]) > 0 ==>
              (r.Ok? <==> EndsFit(extents, index) && HasFit(extents, devices[index], index, needed))
    ensures r.Err? && needed > 0 && index < |devices| && EndsFit(extents, index) ==>
              forall s :: IsFit(extents, devices[index], index, needed, s) ==> OutOfReach(needed, s)
  {
    hide AlignUp, InPhase, Covers, SortedByStart;
    if needed == 0 {
      return Err(Invalid);
    }
    if index >= |devices| {
      return Err(Invalid);
    }
    var d := devices[index];
    var limit := d.size / SECTOR_SIZE;
    var collected := CollectUsed(extents, index);
    if collected.Err? {
      return Err(collected.error);
    }
    var used := collected.value;
    var first := AlignUp(d.firstLogicalSector, d.alignment, d.alignmentOffset);
    AlignUpIsLeast(d.firstLogicalSector, d.alignment, d.alignmentOffset);
    if first.None? {
      return Err(Invalid);
    }
    var candidate := first.value;
    for i := 0 to |used|
      invariant Passed(used, i, d, candidate)
      invariant forall s :: IsFit(extents, d, index, needed, s) ==> candidate <= s
    {
      var range := used[i];
      var allocEnd := CheckedAdd(candidate, needed);
      if allocEnd.None? {
        return Err(Invalid);
      }
      if allocEnd.value <= range.start {
        if limit > 0 && allocEnd.value > limit {
          return Err(Invalid);
        }
        GapIsFit(used, extents, d, index, i, candidate, needed);
        return Ok(candidate);
      }
      var next := AlignUp(range.end, d.alignment, d.alignmentOffset);
      forall s | IsFit(extents, d, index, needed, s)
        ensures range.end <= s && (if next.Some? then next.value <= s else OutOfReach(needed, s))
        ensures limit > 0 ==> next.Some?
      {
        FitBeforeRange(used, extents, d, index, i, needed, s);
        FitPastRange(extents, d, index, range.end, needed, s);
      }
      if range.end > candidate {
        AlignUpIsLeast(range.end, d.alignment, d.alignmentOffset);
        if next.None? {
          return Err(Invalid);
        }
        candidate := next.value;
      }
    }
    var allocEnd := CheckedAdd(candidate, needed);
    if allocEnd.None? {
      return Err(Invalid);
    }
    if limit > 0 && allocEnd.value > limit {
      return Err(Invalid);
    }
    GapIsFit(used, extents, d, index, |used|, candidate, needed);
    r := Ok(candidate);
  }

  /**
   The overflow error is not redundant: one extent whose end exceeds 64 bits,
   far past the device, makes the search fail although a fit exists.
   */
  lemma OverflowHidesFit()
    ensures var d := BlockDevice(8, 0, 0, 64 * SECTOR_SIZE, []);
            var far := Extent(2, TARGET_LINEAR, U64_MAX, 0);
            HasFit([far], d, 0, 4) && !EndsFit([far], 0)
  {
    var d := BlockDevice(8, 0, 0, 64 * SECTOR_SIZE, []);
    var far := Extent(2, TARGET_LINEAR, U64_MAX, 0);
    assert far in [far];
    assert IsFit([far], d, 0, 4, 8);
  }

  /** A run in front of a used range: all that can be measured on a device of unknown size. */
  ghost predicate HasGap(extents: seq<Extent>, d: BlockDevice, index: int, len: int) {
    exists s, e :: IsFit(extents, d, index, len, s) && e in extents && OnDevice(e, index) && s + len <= e.targetData
  }

  /** `best` bounds every fit starting before `candidate`, and is attained. */
  ghost predicate BestBefore(extents: seq<Extent>, d: BlockDevice, index: int, best: int, candidate: int) {
    && (forall s, n {:trigger IsFit(extents, d, index, n, s)} ::
          n >= 1 && IsFit(extents, d, index, n, s) && s < candidate ==> n <= best)
    && (best > 0 ==> HasFit(extents, d, index, best) && (Limit(d) == 0 ==> HasGap(extents, d, index, best)))
  }

  /** Nothing fits in front of the first in-phase sector. */
  lemma BestAtStart(extents: seq<Extent>, d: BlockDevice, index: int, candidate: int)
    requires LeastInPhase(d.firstLogicalSector, candidate, d.alignment, d.alignmentOffset)
    ensures BestBefore(extents, d, index, 0, candidate)
  {
    hide RangeFree;
  }

  /** Moving the sweep past `used[i]` accounts for the gap in front of it. */
  lemma BestAcrossRange(used: seq<Range>, extents: seq<Extent>, d: BlockDevice, index: int, i: nat,
                        best: int, candidate: int, best': int, next: int)
    requires SortedByStart(used) && Covers(used, extents, index) && Passed(used, i, d, candidate) && i < |used|
    requires 0 <= best && BestBefore(extents, d, index, best, candidate)
    requires var gap := (if Limit(d) > 0 then Min(used[i].start, Limit(d)) else used[i].start) - candidate;
             best' == if gap > 0 then Max(best, gap) else best
    requires candidate < used[i].end ==> AlignUp(used[i].end, d.alignment, d.alignmentOffset) == Some(next)
    requires candidate >= used[i].end ==> next == candidate
    ensures BestBefore(extents, d, index, best', next)
  {
    forall s, n {:trigger IsFit(extents, d, index, n, s)} | n >= 1 && IsFit(extents, d, index, n, s) && s < next
      ensures n <= best'
    {
      if candidate <= s {
        if used[i].end <= s {
          FitPastRange(extents, d, index, used[i].end, n, s);
        } else {
          FitBeforeRange(used, extents, d, index, i, n, s);
        }
      }
    }
    if best' > best {
      GapIsFit(used, extents, d, index, i, candidate, best');
      assert used[i] in used;
      var e :| e in extents && OnDevice(e, index) && used[i].start == e.targetData && used[i].end == End(e);
      assert IsFit(extents, d, index, best', candidate);
    }
  }

  /** On a device of unknown size, the sweep has seen every measurable run once it has passed all used ranges. */
  lemma BestOfGaps(used: seq<Range>, extents: seq<Extent>, d: BlockDevice, index: int, best: int, candidate: int)
    requires Covers(used, extents, index) && Passed(used, |used|, d, candidate) && Limit(d) == 0
    requires 0 <= best && BestBefore(extents, d, index, best, candidate)
    ensures forall n :: n >= 1 ==> (n <= best <==> HasGap(extents, d, index, n))
  {
    forall n | n >= 1 ensures n <= best <==> HasGap(extents, d, index, n) {
      if n <= best {
        var s, e :| IsFit(extents, d, index, best, s) && e in extents && OnDevice(e, index) && s + best <= e.targetData;
        ShorterFits(extents, d, index, best, n, s);
      }
      if HasGap(extents, d, index, n) {
        var s, e :| IsFit(extents, d, index, n, s) && e in extents && OnDevice(e, index) && s + n <= e.targetData;
        var k :| 0 <= k < |used| && used[k] == Range(e.targetData, End(e));
        assert s < candidate;
      }
    }
  }

  lemma BestAtTail(extents: seq<Extent>, d: BlockDevice, index: int, best: int, candidate: int, final: int)
    requires BestBefore(extents, d, index, best, candidate) && Limit(d) > 0 && best >= 0
    requires final == if candidate < Limit(d) then Max(best, Limit(d) - candidate) else best
    requires candidate < Limit(d) ==> IsFit(extents, d, index, Limit(d) - candidate, candidate)
    ensures forall n :: n >= 1 ==> (n <= final <==> HasFit(extents, d, index, n))
  {
    forall n | n >= 1
      ensures n <= final <==> HasFit(extents, d, index, n)
    {
      if n <= final {
        var s :| IsFit(extents, d, index, final, s);
        ShorterFits(extents, d, index, final, n, s);
      }
      if HasFit(extents, d, index, n) {
        var s :| IsFit(extents, d, index, n, s);
      }
    }
  }

  /**
   Largest free run of one device: exactly the maximum length for which a fit
   exists, so the two sweeps agree on every length. The `Addressable` premise is
   what keeps the alignment of every range end from overflowing.
   */
  method LargestFreeRun(extents: seq<Extent>, devices: seq<BlockDevice>, index: u32) returns (r: Result<u64>)
    ensures index < |devices| && Addressable(extents, devices[index], index) ==> r.Ok?
    ensures r.Ok? ==> index < |devices| && EndsFit(extents, index)
    ensures r.Ok? && Limit(devices[index]) > 0 ==>
              forall n :: n >= 1 ==> (n <= r.value <==> HasFit(extents, devices[index], index, n))
    ensures r.Ok? && Limit(devices[index]) == 0 ==>
              forall n :: n >= 1 ==> (n <= r.value <==> HasGap(extents, devices[index], index, n))
  {
    hide AlignUp, InPhase, IsFit, HasFit, HasGap, Covers, SortedByStart, BestBefore;
    if index >= |devices| {
      return Err(Invalid);
    }
    var d := devices[index];
    var collected := CollectUsed(extents, index);
    if collected.Err? {
      return Err(collected.error);
    }
    var used := collected.value;
    var limit := d.size / SECTOR_SIZE;
    var first := AlignUp(d.firstLogicalSector, d.alignment, d.alignmentOffset);
    AlignUpIsLeast(d.firstLogicalSector, d.alignment, d.alignmentOffset);
    if first.None? {
      return Err(Invalid);
    }
    var candidate := first.value;
    var best: u64 := 0;
    BestAtStart(extents, d, index, candidate);
    var i := 0;
    while i < |used|
      invariant Passed(used, i, d, candidate)
      invariant BestBefore(extents, d, index, best, candidate)
    {
      var range := used[i];
      ghost var best0 := best;
      if candidate < range.start {
        var gapEnd := if limit > 0 then Min(range.start, limit) else range.start;
        if gapEnd > candidate {
          best := Max(best, gapEnd - candidate);
        }
      }
      if range.end > candidate {
        AlignUpIsLeast(range.end, d.alignment, d.alignmentOffset);
        var next := AlignUp(range.end, d.alignment, d.alignmentOffset);
        if next.None? {
          return Err(Invalid);
        }
        BestAcrossRange(used, extents, d, index, i, best0, candidate, best, next.value);
        candidate := next.value;
        if limit > 0 && candidate >= limit {
          break;
        }
      } else {
        BestAcrossRange(used, extents, d, index, i, best0, candidate, best, candidate);
      }
      i := i + 1;
    }
    if limit == 0 {
      BestOfGaps(used, extents, d, index, best, candidate);
    } else {
      if candidate < limit {
        GapIsFit(used, extents, d, index, |used|, candidate, limit - candidate);
        BestAtTail(extents, d, index, best, candidate, Max(best, limit - candidate));
        best := Max(best, limit - candidate);
      } else {
        BestAtTail(extents, d, index, best, candidate, best);
      }
    }
    r := Ok(best);
  }

  /** The overlap test used before growing an extent in place. */
  method IsRangeFree(extents: seq<Extent>, devices: seq<BlockDevice>, index: u32, sector: u64, len: u64)
    returns (r: Result<bool>)
    ensures r.Ok? <==> index < |devices| && sector + len <= U64_MAX
    ensures r.Ok? ==> (r.value <==> RangeFree(extents, devices[index], index, sector, len))
  {
    if index >= |devices| {
      return Err(Invalid);
    }
    var d := devices[index];
    var limit := d.size / SECTOR_SIZE;
    var end := CheckedAdd(sector, len);
    if end.None? {
      return Err(Invalid);
    }
    if limit > 0 && end.value > limit {
      return Ok(false);
    }
    for i := 0 to |extents|
      invariant RangeFree(extents[..i], d, index, sector, len)
    {
      var e := extents[i];
      assert extents[..i + 1] == extents[..i] + [e];
      if OnDevice(e, index) {
        var extentEnd := SaturatingAdd(e.targetData, e.numSectors);
        if sector < extentEnd && e.targetData < end.value {
          return Ok(false);
        }
      }
    }
    assert extents[..|extents|] == extents;
    r := Ok(true);
  }

  // ------------------------------------------------------ several devices

  /** Every device has a known size and every allocation stays addressable. */
  ghost predicate Regular(extents: seq<Extent>, devices: seq<BlockDevice>) {
    forall k :: 0 <= k < |devices| ==> Limit(devices[k]) > 0 && Addressable(extents, devices[k], k)
  }

  /** First fit over the allowed devices, tried in table order. */
  method FindFreeSectorsAnyIn(extents: seq<Extent>, devices: seq<BlockDevice>, needed: u64, allowed: seq<u32>)
    returns (r: Result<(u32, u64)>)
    requires |devices| <= U32_MAX
    ensures r.Ok? ==> needed > 0 && r.value.0 < |devices| && r.value.0 in allowed
    ensures r.Ok? ==> IsFirstFit(extents, devices[r.value.0], r.value.0, needed, r.value.1)
    ensures r.Ok? && Regular(extents, devices) ==>
              forall k :: 0 <= k < r.value.0 && k in allowed ==> !HasFit(extents, devices[k], k, needed)
    ensures r.Err? && needed > 0 && Regular(extents, devices) ==>
              forall k :: 0 <= k < |devices| && k in allowed ==> !HasFit(extents, devices[k], k, needed)
  {
    if devices == [] {
      return Err(Invalid);
    }
    if allowed == [] {
      return Err(Invalid);
    }
    var lastErr: Option<Error> := None;
    for index := 0 to |devices|
      invariant needed > 0 && Regular(extents, devices) ==>
                  forall k :: 0 <= k < index && k in allowed ==> !HasFit(extents, devices[k], k, needed)
    {
      if index in allowed {
        var found := FindFreeSectors(extents, devices, index, needed);
        if found.Ok? {
          return Ok((index, found.value));
        }
        assert Regular(extents, devices) ==> Addressable(extents, devices[index], index);
        lastErr := Some(found.error);
      }
    }
    r := Err(if lastErr.Some? then lastErr.value else Invalid);
  }

  /** First fit over all devices: the least device with a fit, and its least fit. */
  method FindFreeSectorsAny(extents: seq<Extent>, devices: seq<BlockDevice>, needed: u64)
    returns (r: Result<(u32, u64)>)
    requires |devices| <= U32_MAX
    ensures r.Ok? ==> needed > 0 && r.value.0 < |devices|
    ensures r.Ok? ==> IsFirstFit(extents, devices[r.value.0], r.value.0, needed, r.value.1)
    ensures r.Ok? && Regular(extents, devices) ==>
              forall k :: 0 <= k < r.value.0 ==> !HasFit(extents, devices[k], k, needed)
    ensures r.Err? && needed > 0 && Regular(extents, devices) ==>
              forall k :: 0 <= k < |devices| ==> !HasFit(extents, devices[k], k, needed)
  {
    if devices == [] {
      return Err(Invalid);
    }
    var allowed: seq<u32> := seq(|devices|, k requires 0 <= k < |devices| => k);
    assert forall k {:trigger devices[k]} :: 0 <= k < |devices| ==> allowed[k] in allowed;
    r := FindFreeSectorsAnyIn(extents, devices, needed, allowed);
  }
}
