/**
 What a metadata table means: partitions own windows of one shared extent vector.
 The meaning gives every partition its own extent list; the index arithmetic of
 the editing commands is proved against edits of that list.
 */
module TableModel {
  import opened Allocator
  import opened Base
  import opened Format
  import opened MetadataCodec

  /** A partition with the extents its window names. */
  datatype Logical = Logical(name: Name, attributes: u32, group: u32, extents: seq<Extent>)

  function WindowEnd(p: Partition): nat {
    p.firstExtentIndex + p.numExtents
  }

  /** The extents of a window; nothing if it is out of range. */
  function Window(extents: seq<Extent>, p: Partition): seq<Extent> {
    if WindowEnd(p) <= |extents| then extents[p.firstExtentIndex..WindowEnd(p)] else []
  }

  /** The part of a window that lies inside the vector: all of it, for a window in range. */
  function WindowHead(extents: seq<Extent>, p: Partition): (w: seq<Extent>)
    ensures WindowEnd(p) <= |extents| ==> w == Window(extents, p)
  {
    if p.firstExtentIndex >= |extents| then [] else extents[p.firstExtentIndex..Min(WindowEnd(p), |extents|)]
  }

  function LogicalOf(extents: seq<Extent>, p: Partition): Logical {
    Logical(p.name, p.attributes, p.groupIndex, Window(extents, p))
  }

  function MeaningOf(partitions: seq<Partition>, extents: seq<Extent>): (ms: seq<Logical>)
    ensures |ms| == |partitions|
    ensures forall i :: 0 <= i < |ms| ==> ms[i] == LogicalOf(extents, partitions[i])
  {
    seq(|partitions|, i requires 0 <= i < |partitions| => LogicalOf(extents, partitions[i]))
  }

  function Meaning(t: Tables): seq<Logical> {
    MeaningOf(t.partitions, t.extents)
  }

  // ---------------------------------------------------------------- tiling

  predicate Owns(p: Partition, k: int) {
    p.firstExtentIndex <= k < WindowEnd(p)
  }

  predicate WindowsApart(p: Partition, q: Partition) {
    WindowEnd(p) <= q.firstExtentIndex || WindowEnd(q) <= p.firstExtentIndex
  }

  /** Windows are in range, never cut into each other, and together cover the extent vector. */
  ghost predicate Tiles(ps: seq<Partition>, len: nat) {
    && (forall i :: 0 <= i < |ps| ==> WindowEnd(ps[i]) <= len)
    && (forall i, j :: 0 <= i < |ps| && 0 <= j < |ps| && i != j ==> WindowsApart(ps[i], ps[j]))
    && (forall k :: 0 <= k < len ==> Covered(ps, k))
  }

  ghost predicate Covered(ps: seq<Partition>, k: int) {
    exists i :: 0 <= i < |ps| && Owns(ps[i], k)
  }

  /** Partition `i` keeps the first `keep` extents of its window; windows behind move down. */
  function CutAt(ps: seq<Partition>, i: nat, keep: nat): (r: seq<Partition>)
    requires i < |ps| && keep <= ps[i].numExtents
    ensures |r| == |ps|
  {
    var removed := ps[i].numExtents - keep;
    seq(|ps|, j requires 0 <= j < |ps| =>
      if j == i then ps[j].(numExtents := keep)
      else if ps[j].firstExtentIndex >= WindowEnd(ps[i])
      then ps[j].(firstExtentIndex := ps[j].firstExtentIndex - removed)
      else ps[j])
  }

  function WithoutRange(extents: seq<Extent>, from: nat, to: nat): seq<Extent>
    requires from <= to <= |extents|
  {
    extents[..from] + extents[to..]
  }

  lemma CutKeepsTiling(ps: seq<Partition>, len: nat, i: nat, keep: nat)
    requires Tiles(ps, len) && i < |ps| && keep <= ps[i].numExtents
    ensures Tiles(CutAt(ps, i, keep), len - (ps[i].numExtents - keep))
  {
    var r, a, removed := CutAt(ps, i, keep), ps[i].firstExtentIndex + keep, ps[i].numExtents - keep;
    assert WindowEnd(ps[i]) <= len;
    forall k | 0 <= k < len - removed ensures Covered(r, k) {
      var was := if k < a then k else k + removed;
      assert Covered(ps, was);
      var j :| 0 <= j < |ps| && Owns(ps[j], was);
      assert j != i ==> WindowsApart(ps[j], ps[i]);
      assert Owns(r[j], k);
    }
    forall j, j' | 0 <= j < |r| && 0 <= j' < |r| && j != j' ensures WindowsApart(r[j], r[j']) {
      assert WindowsApart(ps[j], ps[j']);
      assert j != i ==> WindowsApart(ps[j], ps[i]);
      assert j' != i ==> WindowsApart(ps[j'], ps[i]);
    }
    forall j | 0 <= j < |ps| ensures WindowEnd(r[j]) <= len - removed {
      assert j != i ==> WindowsApart(ps[j], ps[i]);
    }
  }

  lemma RemovedAt(extents: seq<Extent>, from: nat, to: nat)
    requires from <= to <= |extents|
    ensures |WithoutRange(extents, from, to)| == |extents| - (to - from)
    ensures forall k :: 0 <= k < |extents| - (to - from) ==>
              WithoutRange(extents, from, to)[k] == extents[if k < from then k else k + (to - from)]
  {}

  /** A slice on either side of the gap is a slice of the original. */
  lemma SliceWithout(extents: seq<Extent>, a: nat, b: nat, x: nat, y: nat)
    requires a <= b <= |extents| && x <= y
    ensures y <= a ==> WithoutRange(extents, a, b)[x..y] == extents[x..y]
    ensures a <= x && y + (b - a) <= |extents| ==>
            WithoutRange(extents, a, b)[x..y] == extents[x + (b - a)..y + (b - a)]
  {
    var r := WithoutRange(extents, a, b);
    RemovedAt(extents, a, b);
    hide WithoutRange;
    if y <= a {
      assert r[x..y] == extents[x..y];
    }
    if a <= x && y + (b - a) <= |extents| {
      assert r[x..y] == extents[x + (b - a)..y + (b - a)];
    }
  }

  /** Every other window lies in front of the gap, or behind it and moves down. */
  lemma CutMoves(ps: seq<Partition>, len: nat, i: nat, keep: nat, j: nat)
    requires Tiles(ps, len) && i < |ps| && keep <= ps[i].numExtents && j < |ps| && j != i
    ensures WindowEnd(ps[j]) <= len
    ensures var q, removed := CutAt(ps, i, keep)[j], ps[i].numExtents - keep;
            || (q == ps[j] && WindowEnd(ps[j]) <= ps[i].firstExtentIndex)
            || (WindowEnd(ps[i]) <= ps[j].firstExtentIndex == q.firstExtentIndex + removed
                && q.numExtents == ps[j].numExtents)
  {
    assert WindowsApart(ps[j], ps[i]);
  }

  lemma CutWindow(ps: seq<Partition>, extents: seq<Extent>, i: nat, keep: nat, j: nat)
    requires Tiles(ps, |extents|) && i < |ps| && keep <= ps[i].numExtents && j < |ps|
    ensures WindowEnd(ps[i]) <= |extents| && |Window(extents, ps[i])| == ps[i].numExtents
    ensures Window(WithoutRange(extents, ps[i].firstExtentIndex + keep, WindowEnd(ps[i])), CutAt(ps, i, keep)[j])
            == if j == i then Window(extents, ps[i])[..keep] else Window(extents, ps[j])
  {
    hide WithoutRange, WindowsApart, Covered;
    var a, b, q := ps[i].firstExtentIndex + keep, WindowEnd(ps[i]), CutAt(ps, i, keep)[j];
    RangeRemoved(extents, a, b);
    SliceWithout(extents, a, b, q.firstExtentIndex, WindowEnd(q));
    if j == i {
      SliceOfSlice(extents, ps[i].firstExtentIndex, b, 0, keep);
      assert Window(extents, ps[i])[..keep] == Window(extents, ps[i])[0..keep];
    } else {
      CutMoves(ps, |extents|, i, keep, j);
    }
  }

  /** Cutting a window keeps the tiling; only the cut partition's extents change. */
  lemma CutTiles(ps: seq<Partition>, extents: seq<Extent>, i: nat, keep: nat)
    requires Tiles(ps, |extents|) && i < |ps| && keep <= ps[i].numExtents
    ensures WindowEnd(ps[i]) <= |extents|
    ensures var extents' := WithoutRange(extents, ps[i].firstExtentIndex + keep, WindowEnd(ps[i]));
            var ms := MeaningOf(ps, extents);
            && Tiles(CutAt(ps, i, keep), |extents'|)
            && MeaningOf(CutAt(ps, i, keep), extents') == ms[i := ms[i].(extents := ms[i].extents[..keep])]
  {
    hide Tiles, Window, WithoutRange;
    CutKeepsTiling(ps, |extents|, i, keep);
    CutWindow(ps, extents, i, keep, i);
    forall j | 0 <= j < |ps|
      ensures Window(WithoutRange(extents, ps[i].firstExtentIndex + keep, WindowEnd(ps[i])), CutAt(ps, i, keep)[j])
              == if j == i then Window(extents, ps[i])[..keep] else Window(extents, ps[j])
    {
      CutWindow(ps, extents, i, keep, j);
    }
    RangeRemoved(extents, ps[i].firstExtentIndex + keep, WindowEnd(ps[i]));
    var ms := MeaningOf(ps, extents);
    assert MeaningOf(CutAt(ps, i, keep), WithoutRange(extents, ps[i].firstExtentIndex + keep, WindowEnd(ps[i])))
        == ms[i := ms[i].(extents := ms[i].extents[..keep])];
  }

  lemma RangeRemoved(extents: seq<Extent>, from: nat, to: nat)
    requires from <= to <= |extents|
    ensures |WithoutRange(extents, from, to)| == |extents| - (to - from)
  {}

  /** One more extent at the end of window `i`; windows behind move up. */
  function SpliceAt(ps: seq<Partition>, i: nat): (r: seq<Partition>)
    requires i < |ps| && forall j :: 0 <= j < |ps| ==> ps[j].firstExtentIndex < U32_MAX && ps[j].numExtents < U32_MAX
    ensures |r| == |ps|
  {
    seq(|ps|, j requires 0 <= j < |ps| =>
      if j == i then ps[j].(numExtents := ps[j].numExtents + 1)
      else if ps[j].firstExtentIndex >= WindowEnd(ps[i])
      then ps[j].(firstExtentIndex := ps[j].firstExtentIndex + 1)
      else ps[j])
  }

  function WithInserted(extents: seq<Extent>, at: nat, e: Extent): seq<Extent>
    requires at <= |extents|
  {
    extents[..at] + [e] + extents[at..]
  }

  lemma SpliceKeepsTiling(ps: seq<Partition>, len: nat, i: nat)
    requires Tiles(ps, len) && i < |ps| && ps[i].numExtents > 0 && len < U32_MAX
    requires forall j :: 0 <= j < |ps| ==> ps[j].firstExtentIndex < U32_MAX && ps[j].numExtents < U32_MAX
    ensures Tiles(SpliceAt(ps, i), len + 1)
  {
    var r, at := SpliceAt(ps, i), WindowEnd(ps[i]);
    forall k | 0 <= k < len + 1 ensures Covered(r, k) {
      if k == at {
        assert Owns(r[i], k);
      } else {
        var was := if k < at then k else k - 1;
        assert Covered(ps, was);
        var j :| 0 <= j < |ps| && Owns(ps[j], was);
        assert j != i ==> WindowsApart(ps[j], ps[i]);
        assert Owns(r[j], k);
      }
    }
    forall j, j' | 0 <= j < |r| && 0 <= j' < |r| && j != j' ensures WindowsApart(r[j], r[j']) {
      assert WindowsApart(ps[j], ps[j']);
      assert j != i ==> WindowsApart(ps[j], ps[i]);
      assert j' != i ==> WindowsApart(ps[j'], ps[i]);
    }
  }

  /** A slice on either side of the insertion is a slice of the original. */
  lemma SliceInserted(extents: seq<Extent>, at: nat, e: Extent, x: nat, y: nat)
    requires at <= |extents| && x <= y
    ensures |WithInserted(extents, at, e)| == |extents| + 1
    ensures y <= at ==> WithInserted(extents, at, e)[x..y] == extents[x..y]
    ensures x <= at < y == at + 1 ==> WithInserted(extents, at, e)[x..y] == extents[x..at] + [e]
    ensures at < x && y <= |extents| + 1 ==> WithInserted(extents, at, e)[x..y] == extents[x - 1..y - 1]
  {
    var r := WithInserted(extents, at, e);
    InsertedAt(extents, at, e);
    hide WithInserted;
    if y <= at {
      assert r[x..y] == extents[x..y];
    } else if x <= at {
      if y == at + 1 {
        assert r[x..y] == r[x..at] + [r[at]];
        assert r[x..at] == extents[x..at];
      }
    } else if y <= |extents| + 1 {
      assert r[x..y] == extents[x - 1..y - 1];
    }
  }

  lemma InsertedAt(extents: seq<Extent>, at: nat, e: Extent)
    requires at <= |extents|
    ensures |WithInserted(extents, at, e)| == |extents| + 1
    ensures forall k :: 0 <= k <= |extents| ==>
              WithInserted(extents, at, e)[k] == if k < at then extents[k] else if k == at then e else extents[k - 1]
  {}

  lemma SpliceMoves(ps: seq<Partition>, len: nat, i: nat, j: nat)
    requires Tiles(ps, len) && i < |ps| && ps[i].numExtents > 0 && j < |ps| && j != i
    requires forall j :: 0 <= j < |ps| ==> ps[j].firstExtentIndex < U32_MAX && ps[j].numExtents < U32_MAX
    ensures WindowEnd(ps[j]) <= len
    ensures var q := SpliceAt(ps, i)[j];
            || (q == ps[j] && WindowEnd(ps[j]) <= ps[i].firstExtentIndex)
            || (WindowEnd(ps[i]) <= ps[j].firstExtentIndex == q.firstExtentIndex - 1
                && q.numExtents == ps[j].numExtents)
  {
    assert WindowsApart(ps[j], ps[i]);
  }

  lemma SpliceWindow(ps: seq<Partition>, extents: seq<Extent>, i: nat, e: Extent, j: nat)
    requires Tiles(ps, |extents|) && i < |ps| && ps[i].numExtents > 0 && j < |ps| && |extents| < U32_MAX
    requires forall j :: 0 <= j < |ps| ==> ps[j].firstExtentIndex < U32_MAX && ps[j].numExtents < U32_MAX
    ensures WindowEnd(ps[i]) <= |extents|
    ensures Window(WithInserted(extents, WindowEnd(ps[i]), e), SpliceAt(ps, i)[j])
            == if j == i then Window(extents, ps[i]) + [e] else Window(extents, ps[j])
  {
    hide WithInserted, WindowsApart, Covered;
    var q := SpliceAt(ps, i)[j];
    SliceInserted(extents, WindowEnd(ps[i]), e, q.firstExtentIndex, WindowEnd(q));
    if j != i {
      SpliceMoves(ps, |extents|, i, j);
    }
  }

  /** Splicing one extent in behind window `i`: only that partition's list grows. */
  lemma SpliceTiles(ps: seq<Partition>, extents: seq<Extent>, i: nat, e: Extent)
    requires Tiles(ps, |extents|) && i < |ps| && ps[i].numExtents > 0 && |extents| < U32_MAX
    requires forall j :: 0 <= j < |ps| ==> ps[j].firstExtentIndex < U32_MAX && ps[j].numExtents < U32_MAX
    ensures WindowEnd(ps[i]) <= |extents|
    ensures var extents' := WithInserted(extents, WindowEnd(ps[i]), e);
            var ms := MeaningOf(ps, extents);
            && |extents'| == |extents| + 1 && Tiles(SpliceAt(ps, i), |extents'|)
            && MeaningOf(SpliceAt(ps, i), extents') == ms[i := ms[i].(extents := ms[i].extents + [e])]
  {
    hide Tiles, Window;
    SpliceKeepsTiling(ps, |extents|, i);
    forall j | 0 <= j < |ps|
      ensures WindowEnd(ps[i]) <= |extents|
      ensures Window(WithInserted(extents, WindowEnd(ps[i]), e), SpliceAt(ps, i)[j])
              == if j == i then Window(extents, ps[i]) + [e] else Window(extents, ps[j])
    {
      SpliceWindow(ps, extents, i, e, j);
    }
    SpliceWindow(ps, extents, i, e, i);
    var ms := MeaningOf(ps, extents);
    assert MeaningOf(SpliceAt(ps, i), WithInserted(extents, WindowEnd(ps[i]), e))
        == ms[i := ms[i].(extents := ms[i].extents + [e])];
  }

  /** An empty window moves to the end of the vector and takes a fresh extent. */
  lemma FreshTiles(ps: seq<Partition>, extents: seq<Extent>, i: nat, e: Extent, p: Partition)
    requires Tiles(ps, |extents|) && i < |ps| && ps[i].numExtents == 0
    requires p.firstExtentIndex == |extents| && p.numExtents == 1
    requires p.name == ps[i].name && p.attributes == ps[i].attributes && p.groupIndex == ps[i].groupIndex
    ensures Tiles(ps[i := p], |extents| + 1)
    ensures var ms := MeaningOf(ps, extents);
            MeaningOf(ps[i := p], extents + [e]) == ms[i := ms[i].(extents := [e])]
  {
    var r := ps[i := p];
    forall k | 0 <= k < |extents| + 1 ensures Covered(r, k) {
      if k == |extents| {
        assert Owns(r[i], k);
      } else {
        assert Covered(ps, k);
        var j :| 0 <= j < |ps| && Owns(ps[j], k);
        assert Owns(r[j], k);
      }
    }
    var ms := MeaningOf(ps, extents);
    forall j | 0 <= j < |ps| ensures Window(extents + [e], r[j]) == if j == i then [e] else Window(extents, ps[j]) {}
    assert MeaningOf(r, extents + [e]) == ms[i := ms[i].(extents := [e])];
  }

  /** A new partition at the end, with the given new extents. */
  lemma AppendTiles(ps: seq<Partition>, extents: seq<Extent>, added: seq<Extent>, p: Partition)
    requires Tiles(ps, |extents|)
    requires p.firstExtentIndex == |extents| && p.numExtents == |added|
    ensures Tiles(ps + [p], |extents| + |added|)
    ensures MeaningOf(ps + [p], extents + added)
            == MeaningOf(ps, extents) + [Logical(p.name, p.attributes, p.groupIndex, added)]
  {
    var r := ps + [p];
    forall k | 0 <= k < |extents| + |added| ensures Covered(r, k) {
      if k >= |extents| {
        assert Owns(r[|ps|], k);
      } else {
        assert Covered(ps, k);
        var j :| 0 <= j < |ps| && Owns(ps[j], k);
        assert Owns(r[j], k);
      }
    }
    forall j | 0 <= j < |ps| ensures Window(extents + added, ps[j]) == Window(extents, ps[j]) {}
    assert Window(extents + added, p) == added;
  }

  /** Changing one extent in place changes only its owner's window. */
  lemma UpdateInWindow(ps: seq<Partition>, extents: seq<Extent>, i: nat, k: nat, e: Extent)
    requires Tiles(ps, |extents|) && i < |ps| && Owns(ps[i], k)
    ensures k < |extents| && |Window(extents, ps[i])| == ps[i].numExtents
    ensures var ms := MeaningOf(ps, extents);
            MeaningOf(ps, extents[k := e]) == ms[i := ms[i].(extents := ms[i].extents[k - ps[i].firstExtentIndex := e])]
  {
    assert WindowEnd(ps[i]) <= |extents|;
    forall j | 0 <= j < |ps|
      ensures Window(extents[k := e], ps[j])
              == if j == i then Window(extents, ps[i])[k - ps[i].firstExtentIndex := e] else Window(extents, ps[j])
    {
      assert j != i ==> WindowsApart(ps[j], ps[i]);
    }
    var ms := MeaningOf(ps, extents);
    assert MeaningOf(ps, extents[k := e]) == ms[i := ms[i].(extents := ms[i].extents[k - ps[i].firstExtentIndex := e])];
  }

  /** Dropping a partition with an empty window. */
  lemma DropEmptyTiles(ps: seq<Partition>, len: nat, i: nat)
    requires Tiles(ps, len) && i < |ps| && ps[i].numExtents == 0
    ensures Tiles(ps[..i] + ps[i + 1..], len)
  {
    var r := ps[..i] + ps[i + 1..];
    forall k | 0 <= k < len ensures Covered(r, k) {
      assert Covered(ps, k);
      var j :| 0 <= j < |ps| && Owns(ps[j], k);
      assert Owns(r[if j < i then j else j - 1], k);
    }
    forall j, j' | 0 <= j < |r| && 0 <= j' < |r| && j != j' ensures WindowsApart(r[j], r[j']) {
      assert WindowsApart(ps[if j < i then j else j + 1], ps[if j' < i then j' else j' + 1]);
    }
  }

  // ------------------------------------------------------------- filtering

  function Filter<T>(xs: seq<T>, keep: T -> bool): seq<T> {
    if xs == [] then []
    else if keep(xs[|xs| - 1]) then Filter(xs[..|xs| - 1], keep) + [xs[|xs| - 1]]
    else Filter(xs[..|xs| - 1], keep)
  }

  lemma {:induction false} FilterAll<T>(xs: seq<T>, keep: T -> bool)
    requires forall i :: 0 <= i < |xs| ==> keep(xs[i])
    ensures Filter(xs, keep) == xs
  {
    if xs != [] {
      FilterAll(xs[..|xs| - 1], keep);
    }
  }

  lemma {:induction false} FilterRemove<T>(xs: seq<T>, keep: T -> bool, i: nat)
    requires i < |xs| && !keep(xs[i])
    ensures Filter(xs[..i] + xs[i + 1..], keep) == Filter(xs, keep)
    decreases |xs|
  {
    var n := |xs| - 1;
    var shorter := xs[..i] + xs[i + 1..];
    if i == n {
      assert shorter == xs[..n];
    } else {
      FilterRemove(xs[..n], keep, i);
      assert xs[..n][..i] + xs[..n][i + 1..] == shorter[..n - 1];
      assert shorter[n - 1] == xs[n];
    }
  }

  /** Dropping partitions whose windows are all empty keeps the tiling. */
  lemma {:induction false} FilterTiles(ps: seq<Partition>, len: nat, keep: Partition -> bool)
    requires Tiles(ps, len)
    requires forall i :: 0 <= i < |ps| && !keep(ps[i]) ==> ps[i].numExtents == 0
    ensures Tiles(Filter(ps, keep), len)
    decreases |ps|
  {
    if i :| 0 <= i < |ps| && !keep(ps[i]) {
      DropEmptyTiles(ps, len, i);
      FilterRemove(ps, keep, i);
      FilterTiles(ps[..i] + ps[i + 1..], len, keep);
    } else {
      FilterAll(ps, keep);
    }
  }

  /** Filtering commutes with an element-wise map that agrees on what is kept. */
  lemma {:induction false} FilterMeaning(ps: seq<Partition>, extents: seq<Extent>, keep: Partition -> bool,
                                         keepLogical: Logical -> bool)
    requires forall i :: 0 <= i < |ps| ==> keep(ps[i]) == keepLogical(LogicalOf(extents, ps[i]))
    ensures MeaningOf(Filter(ps, keep), extents) == Filter(MeaningOf(ps, extents), keepLogical)
  {
    if ps != [] {
      var n := |ps| - 1;
      FilterMeaning(ps[..n], extents, keep, keepLogical);
      assert MeaningOf(ps, extents)[..n] == MeaningOf(ps[..n], extents);
    }
  }

  /** Filters that agree on every element, on sequences that agree on what is kept. */
  lemma {:induction false} FilterAgree<T>(xs: seq<T>, ys: seq<T>, keep: T -> bool, keep': T -> bool)
    requires |xs| == |ys|
    requires forall i :: 0 <= i < |xs| ==> keep(xs[i]) == keep'(ys[i]) && (keep(xs[i]) ==> xs[i] == ys[i])
    ensures Filter(xs, keep) == Filter(ys, keep')
  {
    if xs != [] {
      var n := |xs| - 1;
      FilterAgree(xs[..n], ys[..n], keep, keep');
    }
  }

  lemma {:induction false} FilterMembers<T>(xs: seq<T>, keep: T -> bool)
    ensures forall x :: x in Filter(xs, keep) <==> x in xs && keep(x)
  {
    if xs != [] {
      FilterMembers(xs[..|xs| - 1], keep);
      assert xs == xs[..|xs| - 1] + [xs[|xs| - 1]];
    }
  }
}
