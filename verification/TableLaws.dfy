/**
 The invariants a table keeps besides its tiling: physical placement of the
 extents, and the load of every group.
 */
module TableLaws {
  import opened Alignment
  import opened Allocator
  import opened Base
  import opened Format
  import opened MetadataCodec
  import opened TableModel

  // ------------------------------------------------------------ placement

  predicate Linear(e: Extent) {
    e.targetType == TARGET_LINEAR
  }

  predicate SameDevice(a: Extent, b: Extent) {
    Linear(a) && Linear(b) && a.targetSource == b.targetSource
  }

  /** No sector in common. */
  predicate Separate(a: Extent, b: Extent) {
    End(a) <= b.targetData || End(b) <= a.targetData || a.numSectors == 0 || b.numSectors == 0
  }

  /** On its device, past the device's metadata area. */
  predicate InDevice(e: Extent, devices: seq<BlockDevice>) {
    && e.targetSource < |devices|
    && devices[e.targetSource].firstLogicalSector <= e.targetData
    && End(e) <= Limit(devices[e.targetSource])
  }

  ghost predicate Placed(extents: seq<Extent>, devices: seq<BlockDevice>) {
    && (forall i :: 0 <= i < |extents| && Linear(extents[i]) ==> InDevice(extents[i], devices))
    && (forall i, j :: 0 <= i < |extents| && 0 <= j < |extents| && i != j && SameDevice(extents[i], extents[j]) ==>
          Separate(extents[i], extents[j]))
  }

  /** Devices have a size and a 64-bit start offset. */
  predicate DevicesUsable(devices: seq<BlockDevice>) {
    |devices| <= U32_MAX && forall k :: 0 <= k < |devices| ==>
        Limit(devices[k]) > 0 && devices[k].firstLogicalSector < SECTOR_BOUND
  }

  lemma PlacedIsRegular(extents: seq<Extent>, devices: seq<BlockDevice>)
    requires Placed(extents, devices) && DevicesUsable(devices)
    ensures Regular(extents, devices)
  {
    forall k, e | 0 <= k < |devices| && e in extents && OnDevice(e, k) ensures End(e) < SECTOR_BOUND {
      var i :| 0 <= i < |extents| && extents[i] == e;
      LimitBound(devices[k]);
    }
  }

  /** An allocated extent may be inserted anywhere in the vector. */
  lemma PlacedInsert(extents: seq<Extent>, devices: seq<BlockDevice>, at: nat, e: Extent)
    requires Placed(extents, devices) && DevicesUsable(devices) && at <= |extents|
    requires Linear(e) && e.targetSource < |devices|
    requires IsFit(extents, devices[e.targetSource], e.targetSource, e.numSectors, e.targetData)
    ensures Placed(WithInserted(extents, at, e), devices)
  {
    var r := WithInserted(extents, at, e);
    forall i | 0 <= i < |extents| && SameDevice(extents[i], e)
      ensures Separate(extents[i], e) && Separate(e, extents[i])
    {
      FitSeparates(extents, devices, e, i);
    }
    forall i, j | 0 <= i < |r| && 0 <= j < |r| && i != j && SameDevice(r[i], r[j])
      ensures Separate(r[i], r[j])
    {
      assert i != at ==> r[i] == extents[if i < at then i else i - 1];
      assert j != at ==> r[j] == extents[if j < at then j else j - 1];
    }
  }

  lemma FitSeparates(extents: seq<Extent>, devices: seq<BlockDevice>, e: Extent, i: nat)
    requires Placed(extents, devices) && DevicesUsable(devices) && Linear(e) && e.targetSource < |devices|
    requires i < |extents| && SameDevice(extents[i], e)
    requires RangeFree(extents, devices[e.targetSource], e.targetSource, e.targetData, e.numSectors)
    ensures Separate(extents[i], e) && Separate(e, extents[i])
  {
    assert extents[i] in extents && OnDevice(extents[i], e.targetSource);
    LimitBound(devices[e.targetSource]);
  }

  lemma PlacedRemove(extents: seq<Extent>, devices: seq<BlockDevice>, from: nat, to: nat)
    requires Placed(extents, devices) && from <= to <= |extents|
    ensures Placed(WithoutRange(extents, from, to), devices)
  {
    hide InDevice, Separate, SameDevice;
    var r := WithoutRange(extents, from, to);
    RemovedAt(extents, from, to);
    hide WithoutRange;
    forall i, j | 0 <= i < |r| && 0 <= j < |r| && i != j && SameDevice(r[i], r[j])
      ensures Separate(r[i], r[j])
    {
      assert r[i] == extents[if i < from then i else i + (to - from)];
      assert r[j] == extents[if j < from then j else j + (to - from)];
    }
  }

  /** An extent may grow into sectors that are free behind it. */
  lemma PlacedGrow(extents: seq<Extent>, devices: seq<BlockDevice>, k: nat, extra: nat)
    requires Placed(extents, devices) && DevicesUsable(devices)
    requires k < |extents| && Linear(extents[k])
    requires var e := extents[k]; RangeFree(extents, devices[e.targetSource], e.targetSource, End(e), extra)
    ensures extents[k].numSectors + extra <= U64_MAX
    ensures Placed(extents[k := extents[k].(numSectors := extents[k].numSectors + extra)], devices)
  {
    var e := extents[k];
    LimitBound(devices[e.targetSource]);
    var grown := e.(numSectors := e.numSectors + extra);
    forall i | 0 <= i < |extents| && i != k && SameDevice(extents[i], e)
      ensures Separate(extents[i], grown) && Separate(grown, extents[i])
    {
      assert extents[i] in extents && OnDevice(extents[i], e.targetSource);
      assert Separate(extents[i], e);
    }
  }

  lemma PlacedShrink(extents: seq<Extent>, devices: seq<BlockDevice>, k: nat, n: u64)
    requires Placed(extents, devices) && k < |extents| && n <= extents[k].numSectors
    ensures Placed(extents[k := extents[k].(numSectors := n)], devices)
  {
    var small := extents[k].(numSectors := n);
    forall i | 0 <= i < |extents| && i != k && SameDevice(extents[i], small)
      ensures Separate(extents[i], small) && Separate(small, extents[i])
    {
      assert Separate(extents[i], extents[k]);
    }
  }

  // --------------------------------------------------------------- sizes

  function Sectors(es: seq<Extent>): nat {
    if es == [] then 0 else es[0].numSectors + Sectors(es[1..])
  }

  lemma {:induction false} SectorsConcat(a: seq<Extent>, b: seq<Extent>)
    ensures Sectors(a + b) == Sectors(a) + Sectors(b)
  {
    if a == [] {
      assert a + b == b;
    } else {
      SectorsConcat(a[1..], b);
      assert (a + b)[1..] == a[1..] + b;
    }
  }

  lemma SectorsOne(e: Extent)
    ensures Sectors([e]) == e.numSectors
  {
    assert [e][1..] == [];
  }

  lemma SectorsUpdate(es: seq<Extent>, k: nat, e: Extent)
    requires k < |es|
    ensures Sectors(es[k := e]) == Sectors(es) - es[k].numSectors + e.numSectors
  {
    assert es == es[..k] + [es[k]] + es[k + 1..];
    assert es[k := e] == es[..k] + [e] + es[k + 1..];
    SectorsConcat(es[..k] + [es[k]], es[k + 1..]);
    SectorsConcat(es[..k] + [e], es[k + 1..]);
    SectorsConcat(es[..k], [es[k]]);
    SectorsConcat(es[..k], [e]);
    SectorsOne(es[k]);
    SectorsOne(e);
  }

  /** The shortest prefix with `n` sectors; the last extent may be cut. */
  function Truncate(es: seq<Extent>, n: nat): seq<Extent> {
    if n == 0 || es == [] then []
    else if es[0].numSectors <= n then [es[0]] + Truncate(es[1..], n - es[0].numSectors)
    else [es[0].(numSectors := n)]
  }

  lemma {:induction false} TruncateExact(es: seq<Extent>, n: nat)
    requires n <= Sectors(es)
    ensures Sectors(Truncate(es, n)) == n
  {
    if n > 0 && es != [] {
      if es[0].numSectors <= n {
        TruncateExact(es[1..], n - es[0].numSectors);
        SectorsOne(es[0]);
        SectorsConcat([es[0]], Truncate(es[1..], n - es[0].numSectors));
      } else {
        SectorsOne(es[0].(numSectors := n));
      }
    }
  }

  // --------------------------------------------------------------- quota

  /** Sectors of all partitions of a group. */
  function GroupLoad(ms: seq<Logical>, g: int): nat {
    if ms == [] then 0
    else GroupLoad(ms[..|ms| - 1], g) + (if ms[|ms| - 1].group == g then Sectors(ms[|ms| - 1].extents) else 0)
  }

  /** Every limited group is within its size, in whole sectors. */
  ghost predicate WithinQuota(ms: seq<Logical>, groups: seq<Group>) {
    forall g :: 0 <= g < |groups| && groups[g].maximumSize > 0 ==>
        GroupLoad(ms, g) <= groups[g].maximumSize / SECTOR_SIZE
  }

  lemma {:induction false} GroupLoadUpdate(ms: seq<Logical>, i: nat, m: Logical, g: int)
    requires i < |ms| && m.group == ms[i].group
    ensures GroupLoad(ms[i := m], g)
            == GroupLoad(ms, g) + (if m.group == g then Sectors(m.extents) - Sectors(ms[i].extents) else 0)
  {
    var n := |ms| - 1;
    if i == n {
      assert ms[i := m][..n] == ms[..n];
    } else {
      GroupLoadUpdate(ms[..n], i, m, g);
      assert ms[i := m][..n] == ms[..n][i := m];
    }
  }

  lemma GroupLoadAppend(ms: seq<Logical>, m: Logical, g: int)
    ensures GroupLoad(ms + [m], g) == GroupLoad(ms, g) + (if m.group == g then Sectors(m.extents) else 0)
  {
    assert (ms + [m])[..|ms|] == ms;
  }

  lemma {:induction false} GroupLoadFilter(ms: seq<Logical>, keep: Logical -> bool, g: int)
    ensures GroupLoad(Filter(ms, keep), g) <= GroupLoad(ms, g)
  {
    if ms != [] {
      var n := |ms| - 1;
      GroupLoadFilter(ms[..n], keep, g);
      if keep(ms[n]) {
        GroupLoadAppend(Filter(ms[..n], keep), ms[n], g);
      }
    }
  }

  /** Deleting group `g` moves every later group index down by one. */
  function Renumbered(ms: seq<Logical>, g: nat): (r: seq<Logical>)
    ensures |r| == |ms|
  {
    seq(|ms|, i requires 0 <= i < |ms| => if ms[i].group > g then ms[i].(group := ms[i].group - 1) else ms[i])
  }

  function WithoutGroup(groups: seq<Group>, g: nat): seq<Group>
    requires g < |groups|
  {
    groups[..g] + groups[g + 1..]
  }

  lemma {:induction false} GroupLoadRenumbered(ms: seq<Logical>, g: nat, k: int)
    requires forall i :: 0 <= i < |ms| ==> ms[i].group != g
    ensures GroupLoad(Renumbered(ms, g), k) == GroupLoad(ms, if k < g then k else k + 1)
  {
    if ms != [] {
      var n := |ms| - 1;
      GroupLoadRenumbered(ms[..n], g, k);
      assert Renumbered(ms, g)[..n] == Renumbered(ms[..n], g);
    }
  }
}
