/**
 Deleting several partitions at once: windows are drained in descending order of
 their start, so that the remaining ranges stay valid, and the entries go last.
 */
module TableDrain {
  import opened Base
  import opened Format
  import opened MetadataCodec
  import opened TableEditor
  import opened TableLaws
  import opened TableModel

  /** Which partitions go, told by name and group. */
  type Doom = (Name, u32) -> bool

  function Kept(doomed: Doom): Partition -> bool {
    (p: Partition) => !doomed(p.name, p.groupIndex)
  }

  function KeptLogical(doomed: Doom): Logical -> bool {
    (m: Logical) => !doomed(m.name, m.group)
  }

  function Survivors(ms: seq<Logical>, doomed: Doom): seq<Logical> {
    Filter(ms, KeptLogical(doomed))
  }

  // ----------------------------------------------------------- drain order

  function InsertDescending(ps: seq<Partition>, order: seq<nat>, x: nat): seq<nat>
    requires x < |ps| && forall j :: 0 <= j < |order| ==> order[j] < |ps|
  {
    if order == [] || ps[order[0]].firstExtentIndex < ps[x].firstExtentIndex then [x] + order
    else [order[0]] + InsertDescending(ps, order[1..], x)
  }

  /** Distinct indices of partitions, by descending window start. */
  ghost predicate Descending(ps: seq<Partition>, order: seq<nat>) {
    && (forall j :: 0 <= j < |order| ==> order[j] < |ps|)
    && (forall a, b :: 0 <= a < b < |order| ==>
          order[a] != order[b] && ps[order[a]].firstExtentIndex >= ps[order[b]].firstExtentIndex)
  }

  lemma PrependDescending(ps: seq<Partition>, order: seq<nat>, x: nat)
    requires Descending(ps, order) && x < |ps|
    requires forall y :: y in order ==> y != x && ps[x].firstExtentIndex >= ps[y].firstExtentIndex
    ensures Descending(ps, [x] + order)
  {}

  lemma {:induction false} InsertKeepsOrder(ps: seq<Partition>, order: seq<nat>, x: nat)
    requires Descending(ps, order) && x < |ps| && x !in order
    ensures var r := InsertDescending(ps, order, x);
            Descending(ps, r) && forall y :: y in r <==> y == x || y in order
  {
    if order == [] || ps[order[0]].firstExtentIndex < ps[x].firstExtentIndex {
      PrependDescending(ps, order, x);
    } else {
      var tail := order[1..];
      InsertKeepsOrder(ps, tail, x);
      assert order == [order[0]] + tail;
      PrependDescending(ps, InsertDescending(ps, tail, x), order[0]);
    }
  }

  /** The doomed partitions, sorted by descending window start (a stable library sort). */
  function DrainOrder(ps: seq<Partition>, doomed: Doom, n: nat): (r: seq<nat>)
    requires n <= |ps|
    ensures IsDrainOrder(ps, doomed, n, r)
  {
    if n == 0 then []
    else
      var earlier := DrainOrder(ps, doomed, n - 1);
      InsertDoomed(ps, doomed, n, earlier);
      if doomed(ps[n - 1].name, ps[n - 1].groupIndex) then InsertDescending(ps, earlier, n - 1) else earlier
  }

  ghost predicate IsDrainOrder(ps: seq<Partition>, doomed: Doom, n: nat, order: seq<nat>)
    requires n <= |ps|
  {
    Descending(ps, order) && forall i :: i in order <==> 0 <= i < n && doomed(ps[i].name, ps[i].groupIndex)
  }

  lemma InsertDoomed(ps: seq<Partition>, doomed: Doom, n: nat, earlier: seq<nat>)
    requires 0 < n <= |ps| && IsDrainOrder(ps, doomed, n - 1, earlier)
    ensures IsDrainOrder(ps, doomed, n, if doomed(ps[n - 1].name, ps[n - 1].groupIndex)
                         then InsertDescending(ps, earlier, n - 1) else earlier)
  {
    hide InsertDescending;
    InsertKeepsOrder(ps, earlier, n - 1);
  }

  // ------------------------------------------------------------ drain loop

  /** Same name, attributes and group, index by index. */
  ghost predicate SameIdentity(ps: seq<Partition>, qs: seq<Partition>) {
    |ps| == |qs| && forall i :: 0 <= i < |ps| ==>
      ps[i].name == qs[i].name && ps[i].attributes == qs[i].attributes && ps[i].groupIndex == qs[i].groupIndex
  }

  /**
   State of the drain after the windows of `order[..j]` are gone: `model` is the
   table in which those windows are empty; the program's own entries agree with it
   except for the drained ones.
   */
  ghost predicate Draining(t: Tables, order: seq<nat>, j: nat, ps: seq<Partition>, extents: seq<Extent>,
                           model: seq<Partition>) {
    && j <= |order| && SameIdentity(t.partitions, ps) && SameIdentity(t.partitions, model)
    && Tiles(model, |extents|) && Placed(extents, t.devices)
    && Emptied(order[..j], model) && Untouched(t, order[..j], ps, extents, model) && Ahead(t, order[j..], model)
  }

  /** Drained windows are empty in the model. */
  ghost predicate Emptied(done: seq<nat>, model: seq<Partition>) {
    forall i :: 0 <= i < |model| && i in done ==> model[i].numExtents == 0
  }

  /** All others have their entry and their extents. */
  ghost predicate Untouched(t: Tables, done: seq<nat>, ps: seq<Partition>, extents: seq<Extent>, model: seq<Partition>)
    requires |ps| == |model| == |t.partitions|
  {
    forall i :: 0 <= i < |model| && i !in done ==>
      ps[i] == model[i] && Window(extents, model[i]) == Window(t.extents, t.partitions[i])
  }

  /** Windows still to be drained are where they were at the start. */
  ghost predicate Ahead(t: Tables, todo: seq<nat>, model: seq<Partition>)
    requires |model| == |t.partitions|
  {
    forall k :: 0 <= k < |todo| && todo[k] < |model| ==> model[todo[k]] == t.partitions[todo[k]]
  }

  /** Draining the next window leaves every remaining partition its extents. */
  lemma DrainKeepsWindows(t: Tables, order: seq<nat>, j: nat, ps: seq<Partition>, extents: seq<Extent>,
                          model: seq<Partition>, k: nat)
    requires Draining(t, order, j, ps, extents, model) && j < |order| && Descending(t.partitions, order)
    requires k < |model| && k !in order[..j] && k != order[j]
    ensures var i := order[j];
            var p := model[i];
            && WindowEnd(p) <= |extents|
            && ShiftedDown(ps, -1, p.firstExtentIndex + 1, p.numExtents)[k] == CutAt(model, i, 0)[k]
            && Window(WithoutRange(extents, p.firstExtentIndex, WindowEnd(p)), CutAt(model, i, 0)[k])
               == Window(t.extents, t.partitions[k])
  {
    hide Tiles, Placed, Window, WithoutRange, CutAt;
    var i := order[j];
    CutTiles(model, extents, i, 0);
    ShiftIsCut(model, |extents|, i, -1);
    var p := model[i];
    assert ShiftedDown(ps, -1, p.firstExtentIndex + 1, p.numExtents)[k]
        == ShiftedDown(model, -1, p.firstExtentIndex + 1, p.numExtents)[k];
    var ms := MeaningOf(model, extents);
    var ms' := MeaningOf(CutAt(model, i, 0), WithoutRange(extents, p.firstExtentIndex, WindowEnd(p)));
    assert ms'[k].extents == ms[k].extents;
  }

  /** Windows still to be drained start before the drained one, so they do not move. */
  lemma LaterUnmoved(t: Tables, order: seq<nat>, j: nat, ps: seq<Partition>, extents: seq<Extent>,
                     model: seq<Partition>, k: nat)
    requires Draining(t, order, j, ps, extents, model) && Descending(t.partitions, order) && j < k < |order|
    ensures CutAt(model, order[j], 0)[order[k]] == t.partitions[order[k]]
  {
    var i, l := order[j], order[k];
    assert order[j..][0] == i && order[j..][k - j] == l;
    assert model[i] == t.partitions[i] && model[l] == t.partitions[l];
    assert i != l && model[l].firstExtentIndex <= model[i].firstExtentIndex;
  }

  lemma IdentityKept(ps: seq<Partition>, qs: seq<Partition>, over: nat, amount: u32, i: nat)
    requires SameIdentity(ps, qs) && i < |qs|
    ensures SameIdentity(ps, ShiftedDown(qs, -1, over, amount)) && SameIdentity(ps, CutAt(qs, i, 0))
  {
    forall k | 0 <= k < |qs|
      ensures var r := ShiftedDown(qs, -1, over, amount)[k];
              r.name == qs[k].name && r.attributes == qs[k].attributes && r.groupIndex == qs[k].groupIndex
      ensures var r := CutAt(qs, i, 0)[k];
              r.name == qs[k].name && r.attributes == qs[k].attributes && r.groupIndex == qs[k].groupIndex
              && (qs[k].numExtents == 0 || k == i ==> r.numExtents == 0)
    {}
  }

  lemma EmptyStaysEmpty(ps: seq<Partition>, i: nat, k: nat)
    requires i < |ps| && k < |ps| && (k == i || ps[k].numExtents == 0)
    ensures CutAt(ps, i, 0)[k].numExtents == 0
  {}

  /** The model after the next window is drained: still empty, untouched and ahead where it was. */
  lemma DrainModel(t: Tables, order: seq<nat>, j: nat, ps: seq<Partition>, extents: seq<Extent>, model: seq<Partition>)
    requires Draining(t, order, j, ps, extents, model) && j < |order| && Descending(t.partitions, order)
    ensures order[j] < |model| && WindowEnd(model[order[j]]) <= |extents|
    ensures var i := order[j];
            var p := model[i];
            && Emptied(order[..j + 1], CutAt(model, i, 0))
            && Untouched(t, order[..j + 1], ShiftedDown(ps, -1, p.firstExtentIndex + 1, p.numExtents),
                         WithoutRange(extents, p.firstExtentIndex, WindowEnd(p)), CutAt(model, i, 0))
            && Ahead(t, order[j + 1..], CutAt(model, i, 0))
  {
    hide Placed, Window, WithoutRange, CutAt, ShiftedDown;
    var i, todo := order[j], order[j + 1..];
    var p := model[i];
    assert WindowEnd(p) <= |extents|;
    hide Tiles;
    assert order[..j + 1] == order[..j] + [i];
    forall k: nat | k < |model| && k in order[..j + 1] ensures CutAt(model, i, 0)[k].numExtents == 0 {
      EmptyStaysEmpty(model, i, k);
    }
    forall k: nat | k < |model| && k !in order[..j + 1]
      ensures ShiftedDown(ps, -1, p.firstExtentIndex + 1, p.numExtents)[k] == CutAt(model, i, 0)[k]
      ensures Window(WithoutRange(extents, p.firstExtentIndex, WindowEnd(p)), CutAt(model, i, 0)[k])
              == Window(t.extents, t.partitions[k])
    {
      DrainKeepsWindows(t, order, j, ps, extents, model, k);
    }
    forall k: nat | k < |todo| ensures CutAt(model, i, 0)[todo[k]] == t.partitions[todo[k]] {
      LaterUnmoved(t, order, j, ps, extents, model, j + 1 + k);
    }
  }

  /** One drained window. */
  lemma DrainOne(t: Tables, order: seq<nat>, j: nat, ps: seq<Partition>, extents: seq<Extent>, model: seq<Partition>)
    requires Draining(t, order, j, ps, extents, model) && j < |order| && Descending(t.partitions, order)
    ensures order[j] < |model|
    ensures var p := t.partitions[order[j]];
            && WindowEnd(p) <= |extents|
            && Draining(t, order, j + 1, ShiftedDown(ps, -1, p.firstExtentIndex + 1, p.numExtents),
                        WithoutRange(extents, p.firstExtentIndex, WindowEnd(p)), CutAt(model, order[j], 0))
  {
    hide Tiles, Placed, Window, WithoutRange, CutAt, ShiftedDown, Emptied, Untouched;
    var i := order[j];
    var p := t.partitions[i];
    assert order[j..][0] == i;
    DrainModel(t, order, j, ps, extents, model);
    CutTiles(model, extents, i, 0);
    PlacedRemove(extents, t.devices, p.firstExtentIndex, WindowEnd(p));
    IdentityKept(t.partitions, ps, p.firstExtentIndex + 1, p.numExtents, i);
    IdentityKept(t.partitions, model, p.firstExtentIndex + 1, p.numExtents, i);
  }

  /** What the survivors mean once every doomed window is empty. */
  lemma DrainedMeaning(t: Tables, order: seq<nat>, ps: seq<Partition>, extents: seq<Extent>, model: seq<Partition>,
                       doomed: Doom)
    requires Draining(t, order, |order|, ps, extents, model)
    requires forall i ::
               i in order <==> 0 <= i < |t.partitions| && doomed(t.partitions[i].name, t.partitions[i].groupIndex)
    ensures Tiles(Filter(ps, Kept(doomed)), |extents|)
    ensures MeaningOf(Filter(ps, Kept(doomed)), extents) == Survivors(Meaning(t), doomed)
  {
    hide Tiles, Placed, Window;
    assert order[..|order|] == order;
    forall i: nat | i < |model| && !Kept(doomed)(model[i]) ensures model[i].numExtents == 0 {
      assert i in order;
    }
    FilterAgree(ps, model, Kept(doomed), Kept(doomed));
    FilterTiles(model, |extents|, Kept(doomed));
    FilterMeaning(model, extents, Kept(doomed), KeptLogical(doomed));
    FilterAgree(MeaningOf(model, extents), Meaning(t), KeptLogical(doomed), KeptLogical(doomed));
  }

  lemma {:induction false} FilterUnique(ps: seq<Partition>, keep: Partition -> bool)
    requires UniqueNames(ps)
    ensures UniqueNames(Filter(ps, keep))
  {
    if ps != [] {
      var n := |ps| - 1;
      FilterUnique(ps[..n], keep);
      FilterMembers(ps[..n], keep);
      forall i | 0 <= i < |Filter(ps[..n], keep)| ensures Filter(ps[..n], keep)[i].name != ps[n].name {
        assert Filter(ps[..n], keep)[i] in ps[..n];
      }
    }
  }

  lemma NamesCarryOver(ps: seq<Partition>, qs: seq<Partition>)
    requires SameIdentity(ps, qs) && UniqueNames(ps)
    ensures UniqueNames(qs)
  {}

  /**
   Descending drain equals filtering: afterwards the table means exactly the
   surviving partitions, in order, each with the extents it had.
   */
  method DrainAll(data: SuperData, doomed: Doom) returns (r: Result<()>)
    requires WellFormed(data.View())
    modifies data
    ensures r.Ok? && data.groups == old(data.groups)
    ensures Tiles(data.partitions, |data.extents|) && Placed(data.extents, data.devices) && UniqueNames(data.partitions)
    ensures Meaning(data.View()) == Survivors(old(Meaning(data.View())), doomed)
    ensures |data.partitions| <= old(|data.partitions|) && |data.extents| <= old(|data.extents|)
  {
    hide Tiles, Placed, Draining, MeaningOf, Descending;
    ghost var t := data.View();
    var ranges := data.partitions;
    var order := DrainOrder(data.partitions, doomed, |data.partitions|);
    ghost var model := data.partitions;
    DrainStarts(t, order);
    for j := 0 to |order|
      invariant data.groups == t.groups && |data.extents| <= |t.extents|
      invariant Draining(t, order, j, data.partitions, data.extents, model)
    {
      OrderInRange(t.partitions, order, j);
      var first: nat, num := ranges[order[j]].firstExtentIndex, ranges[order[j]].numExtents;
      DrainOne(t, order, j, data.partitions, data.extents, model);
      if first + num > |data.extents| {
        return Err(Invalid);
      }
      data.extents := data.extents[..first] + data.extents[first + num..];
      data.partitions := ShiftDown(data.partitions, -1, first + 1, num);
      model := CutAt(model, order[j], 0);
    }
    DrainedMeaning(t, order, data.partitions, data.extents, model, doomed);
    DrainedRest(t, order, data.partitions, data.extents, model, doomed);
    data.partitions := Filter(data.partitions, Kept(doomed));
    r := Ok(());
  }

  lemma OrderInRange(ps: seq<Partition>, order: seq<nat>, j: nat)
    requires Descending(ps, order) && j < |order|
    ensures order[j] < |ps|
  {}

  lemma DrainStarts(t: Tables, order: seq<nat>)
    requires WellFormed(t) && Descending(t.partitions, order)
    ensures Draining(t, order, 0, t.partitions, t.extents, t.partitions)
  {}

  lemma DrainedRest(t: Tables, order: seq<nat>, ps: seq<Partition>, extents: seq<Extent>, model: seq<Partition>,
                    doomed: Doom)
    requires Draining(t, order, |order|, ps, extents, model) && UniqueNames(t.partitions)
    ensures Placed(extents, t.devices) && UniqueNames(Filter(ps, Kept(doomed)))
            && |Filter(ps, Kept(doomed))| <= |t.partitions|
  {
    hide Tiles, Placed, Window;
    NamesCarryOver(t.partitions, ps);
    FilterUnique(ps, Kept(doomed));
    FilterShrinks(ps, Kept(doomed));
  }

  lemma {:induction false} FilterShrinks<T>(xs: seq<T>, keep: T -> bool)
    ensures |Filter(xs, keep)| <= |xs|
  {
    if xs != [] {
      FilterShrinks(xs[..|xs| - 1], keep);
    }
  }

  // --------------------------------------------------------------- commands

  /** Membership in the deleted group. */
  function InGroup(g: u32): Doom {
    (name: Name, group: u32) => group == g
  }

  method RenumberGroups(ps: seq<Partition>, g: nat) returns (r: seq<Partition>)
    ensures |r| == |ps|
    ensures forall i :: 0 <= i < |ps| ==>
              r[i] == if ps[i].groupIndex > g then ps[i].(groupIndex := ps[i].groupIndex - 1) else ps[i]
  {
    r := ps;
    for i := 0 to |ps|
      invariant |r| == |ps|
      invariant forall k :: 0 <= k < i ==>
                  r[k] == if ps[k].groupIndex > g then ps[k].(groupIndex := ps[k].groupIndex - 1) else ps[k]
      invariant forall k :: i <= k < |ps| ==> r[k] == ps[k]
    {
      if r[i].groupIndex > g {
        r := r[i := r[i].(groupIndex := Max(r[i].groupIndex - 1, 0))];
      }
    }
  }

  /**
   `remove --group`: refused for a non-empty group unless forced; then the group's
   partitions go, the group goes, and every survivor keeps its extents and its group.
   */
  method RemoveGroup(data: SuperData, g: u32, force: bool) returns (r: Result<()>)
    requires WellFormed(data.View()) && Capped(data.View()) && g < |data.groups|
    modifies data
    ensures r.Err? ==>
              data.View() == old(data.View()) && !force &&
              exists i :: 0 <= i < |data.partitions| && data.partitions[i].groupIndex == g
    ensures r.Ok? && !force ==> forall i :: 0 <= i < |old(data.partitions)| ==> old(data.partitions)[i].groupIndex != g
    ensures r.Ok? ==>
              && WellFormed(data.View()) && data.groups == WithoutGroup(old(data.groups), g)
              && Meaning(data.View()) == Renumbered(Survivors(old(Meaning(data.View())), InGroup(g)), g)
              && |data.partitions| <= old(|data.partitions|) && |data.extents| <= old(|data.extents|)
  {
    hide Tiles, Placed, MeaningOf, UniqueNames, DevicesUsable;
    ghost var before := Meaning(data.View());
    var occupied := exists i :: 0 <= i < |data.partitions| && data.partitions[i].groupIndex == g;
    if occupied && !force {
      return Err(Invalid);
    }
    ghost var t := data.View();
    if force && occupied {
      var drained := DrainAll(data, InGroup(g));
    } else {
      NothingDoomed(before, g) by { MeaningGroups(t); }
    }
    SurvivorsLeave(before, data.View(), g) by { MeaningGroups(t); }
    data.groups := data.groups[..g] + data.groups[g + 1..];
    ghost var ps := data.partitions;
    data.partitions := RenumberGroups(data.partitions, g);
    RenumberedTable(ps, data.partitions, data.extents, g, |t.groups|);
    r := Ok(());
  }

  /** Group indices of a table and of its meaning. */
  lemma MeaningGroups(t: Tables)
    requires GroupsValid(t.partitions, t.groups)
    ensures forall m :: m in Meaning(t) ==> m.group < |t.groups|
    ensures forall i :: 0 <= i < |t.partitions| ==> Meaning(t)[i].group == t.partitions[i].groupIndex
  {}

  lemma NothingDoomed(ms: seq<Logical>, g: u32)
    requires forall i :: 0 <= i < |ms| ==> ms[i].group != g
    ensures Survivors(ms, InGroup(g)) == ms
  {
    FilterAll(ms, KeptLogical(InGroup(g)));
  }

  /** No survivor is in the deleted group, and all groups stay in range. */
  lemma SurvivorsLeave(ms: seq<Logical>, t: Tables, g: u32)
    requires Meaning(t) == Survivors(ms, InGroup(g)) && forall m :: m in ms ==> m.group < |t.groups|
    ensures forall i :: 0 <= i < |t.partitions| ==>
            t.partitions[i].groupIndex != g && t.partitions[i].groupIndex < |t.groups|
  {
    hide Window;
    FilterMembers(ms, KeptLogical(InGroup(g)));
    forall i | 0 <= i < |t.partitions|
      ensures t.partitions[i].groupIndex != g && t.partitions[i].groupIndex < |t.groups|
    {
      assert Meaning(t)[i] in Survivors(ms, InGroup(g));
    }
  }

  /** Same windows and names in the same order. */
  ghost predicate SameShape(ps: seq<Partition>, qs: seq<Partition>) {
    |qs| == |ps| && forall i :: 0 <= i < |ps| ==>
      qs[i].name == ps[i].name && qs[i].firstExtentIndex == ps[i].firstExtentIndex
          && qs[i].numExtents == ps[i].numExtents
  }

  lemma SameShapeTiles(ps: seq<Partition>, qs: seq<Partition>, len: nat)
    requires SameShape(ps, qs) && Tiles(ps, len) && UniqueNames(ps)
    ensures Tiles(qs, len) && UniqueNames(qs)
  {
    forall k | 0 <= k < len ensures Covered(qs, k) {
      assert Covered(ps, k);
      var i :| 0 <= i < |ps| && Owns(ps[i], k);
      assert Owns(qs[i], k);
    }
    forall i, j | 0 <= i < |qs| && 0 <= j < |qs| && i != j ensures WindowsApart(qs[i], qs[j]) {
      assert WindowsApart(ps[i], ps[j]);
    }
  }

  /** Renumbering touches nothing but group indices. */
  lemma RenumberedTable(ps: seq<Partition>, qs: seq<Partition>, extents: seq<Extent>, g: nat, groupCount: nat)
    requires |qs| == |ps| && Tiles(ps, |extents|) && UniqueNames(ps) && g < groupCount
    requires forall i :: 0 <= i < |ps| ==> ps[i].groupIndex != g && ps[i].groupIndex < groupCount
    requires forall i :: 0 <= i < |ps| ==>
               qs[i] == if ps[i].groupIndex > g then ps[i].(groupIndex := ps[i].groupIndex - 1) else ps[i]
    ensures Tiles(qs, |extents|) && UniqueNames(qs)
    ensures forall i :: 0 <= i < |qs| ==> qs[i].groupIndex < groupCount - 1
    ensures MeaningOf(qs, extents) == Renumbered(MeaningOf(ps, extents), g)
  {
    hide Tiles, UniqueNames;
    SameShapeTiles(ps, qs, |extents|);
    var ms := Renumbered(MeaningOf(ps, extents), g);
    forall i | 0 <= i < |qs| ensures MeaningOf(qs, extents)[i] == ms[i] {
      assert Window(extents, qs[i]) == Window(extents, ps[i]);
    }
  }

  const COW_GROUP: Name := [0x63, 0x6f, 0x77]
  const COW_SUFFIX: Name := [0x2d, 0x63, 0x6f, 0x77]

  predicate EndsWith(name: Name, suffix: Name) {
    |suffix| <= |name| && name[|name| - |suffix|..] == suffix
  }

  /** A snapshot leftover: in the group named `cow`, with a name ending in `-cow`. */
  predicate IsCow(groups: seq<Group>, name: Name, group: u32) {
    group < |groups| && groups[group].name == COW_GROUP && EndsWith(name, COW_SUFFIX)
  }

  function CowIn(groups: seq<Group>): Doom {
    (name: Name, group: u32) => IsCow(groups, name, group)
  }

  function Named(names: seq<Name>): Doom {
    (name: Name, group: u32) => name in names
  }

  /** `cow`: the partitions of the `cow` group named `*-cow` go; everything else stays as it was. */
  method ClearCow(data: SuperData) returns (r: Result<()>)
    requires WellFormed(data.View()) && Capped(data.View())
    modifies data
    ensures r.Ok? && WellFormed(data.View()) && data.groups == old(data.groups)
    ensures Meaning(data.View()) == Survivors(old(Meaning(data.View())), CowIn(data.groups))
    ensures |data.partitions| <= old(|data.partitions|) && |data.extents| <= old(|data.extents|)
  {
    hide Tiles, Placed, MeaningOf, DevicesUsable, UniqueNames;
    ghost var t := data.View();
    var names: seq<Name> := [];
    for i := 0 to |data.partitions|
      invariant forall n :: n in names <==>
                  exists k :: 0 <= k < i && data.partitions[k].name == n
                      && IsCow(data.groups, n, data.partitions[k].groupIndex)
    {
      if IsCow(data.groups, data.partitions[i].name, data.partitions[i].groupIndex) {
        names := names + [data.partitions[i].name];
      }
    }
    if names == [] {
      NoCow(t, names);
      return Ok(());
    }
    NoCow(t, names);
    r := DrainAll(data, Named(names));
    SurvivorGroups(Meaning(t), data.View(), Named(names)) by { MeaningGroups(t); }
  }

  /** Deleting by the collected names deletes exactly the cow partitions, since names are unique. */
  lemma NoCow(t: Tables, names: seq<Name>)
    requires UniqueNames(t.partitions)
    requires forall n :: n in names <==>
               exists k :: 0 <= k < |t.partitions| && t.partitions[k].name == n
                   && IsCow(t.groups, n, t.partitions[k].groupIndex)
    ensures Survivors(Meaning(t), Named(names)) == Survivors(Meaning(t), CowIn(t.groups))
    ensures names == [] ==> Survivors(Meaning(t), CowIn(t.groups)) == Meaning(t)
  {
    hide Window;
    var ms := Meaning(t);
    forall i | 0 <= i < |ms| ensures KeptLogical(Named(names))(ms[i]) == KeptLogical(CowIn(t.groups))(ms[i]) {
      if IsCow(t.groups, ms[i].name, ms[i].group) {
        assert t.partitions[i].name == ms[i].name;
      }
    }
    FilterAgree(ms, ms, KeptLogical(Named(names)), KeptLogical(CowIn(t.groups)));
    if names == [] {
      FilterAll(ms, KeptLogical(Named(names)));
    }
  }

  lemma SurvivorGroups(ms: seq<Logical>, t: Tables, doomed: Doom)
    requires Meaning(t) == Survivors(ms, doomed) && forall m :: m in ms ==> m.group < |t.groups|
    ensures GroupsValid(t.partitions, t.groups)
  {
    hide Window;
    FilterMembers(ms, KeptLogical(doomed));
    forall i | 0 <= i < |t.partitions| ensures t.partitions[i].groupIndex < |t.groups| {
      assert Meaning(t)[i] in Survivors(ms, doomed);
    }
  }
}
