/**
 What the editing commands do, in terms of their arguments and of the bytes of names:
 the limit of a group made on the fly, the partitions that `cow` and `remove --group`
 delete, the bytes of a resized partition.
 */
module CommandLaws {
  import opened Arithmetic
  import opened Base
  import opened Format
  import opened MetadataCodec
  import opened TableDrain
  import opened TableEditor
  import opened TableLaws
  import opened TableModel
  import opened TableResize
  import opened TableRuns

  // ---------------------------------------------------- groups made on the fly

  /** A group made on the fly is the last one, with the requested size; otherwise no group changes. */
  lemma NewGroupStored(c: Command, t: Tables, t': Tables)
    requires c.Create? && CreateStep(c, t, t')
    ensures var known := exists g :: 0 <= g < |t.groups| && t.groups[g].name == c.groupName;
            if c.groupSize.Some? && !known
            then |t'.groups| == |t.groups| + 1 && t'.groups[..|t.groups|] == t.groups
                 && t'.groups[|t.groups|] == Group(c.groupName, 0, c.groupSize.value)
            else t'.groups == t.groups
  {
    hide Appended, QuotaAllows, CreatedExtents, IsFirstNamed;
  }

  /** Without force, the first partition of a new limited group fits the whole sectors of the limit. */
  lemma NewGroupLimit(c: Command, t: Tables, t': Tables)
    requires c.Create? && CreateStep(c, t, t') && WellFormed(t) && !c.force && 0 < c.size
    requires c.groupSize.Some? && c.groupSize.value > 0
    requires forall g :: 0 <= g < |t.groups| ==> t.groups[g].name != c.groupName
    ensures c.size <= c.groupSize.value / 512 * 512
  {
    hide Appended, WellFormed, FirstOffered, GroupLoad, MeaningOf;
    NewGroupStored(c, t, t');
    var m :| Appended(t.(groups := t'.groups), t', m) && m.name == c.name && m.attributes == c.attributes
        && IsFirstNamed(t'.groups, c.groupName, m.group) && CreatedExtents(c, t, m.extents)
        && (c.size > 0 ==> QuotaAllows(Meaning(t'), t'.groups, m.group, c.force));
    var g, e := |t.groups|, m.extents[0];
    assert m.group == g;
    assert m.extents == [e];
    GroupsOfMeaning(t);
    NoLoadOutside(Meaning(t), g, g);
    AppendedMeaning(t.(groups := t'.groups), t', m);
    GroupLoadAppend(Meaning(t), m, g);
    SectorsOne(e);
    CeilCovers(c.size, 512);
  }

  lemma GroupsOfMeaning(t: Tables)
    requires WellFormed(t)
    ensures forall i :: 0 <= i < |Meaning(t)| ==> Meaning(t)[i].group < |t.groups|
  {
    hide Tiles, Placed, DevicesUsable, UniqueNames, Window;
    forall i | 0 <= i < |Meaning(t)| ensures Meaning(t)[i].group < |t.groups| {
      assert t.partitions[i].groupIndex < |t.groups|;
    }
  }

  lemma AppendedMeaning(t: Tables, t': Tables, m: Logical)
    requires Appended(t, t', m)
    ensures Meaning(t') == Meaning(t) + [m]
  {
    hide WellFormed, MeaningOf;
  }

  // -------------------------------------------------------- what deletion leaves

  /** Strictly ascending positions of a sequence of length `len`. */
  ghost predicate Ascending(at: seq<nat>, len: nat) {
    && (forall k :: 0 <= k < |at| ==> at[k] < len)
    && (forall j, k :: 0 <= j < k < |at| ==> at[j] < at[k])
  }

  /** `after` is `before` without the elements that go, in the old order. */
  ghost predicate LeftOf<T(!new)>(before: seq<T>, after: seq<T>, gone: T -> bool, at: seq<nat>) {
    && Ascending(at, |before|) && |after| == |at|
    && (forall k :: 0 <= k < |at| ==> after[k] == before[at[k]])
    && (forall i :: 0 <= i < |before| ==> (i in at <==> !gone(before[i])))
  }

  lemma {:induction false} FilterIsLeft<T(!new)>(xs: seq<T>, keep: T -> bool, gone: T -> bool) returns (at: seq<nat>)
    requires forall i :: 0 <= i < |xs| ==> (keep(xs[i]) <==> !gone(xs[i]))
    ensures LeftOf(xs, Filter(xs, keep), gone, at)
  {
    hide LeftOf;
    at := [];
    if xs == [] {
      NothingLeft(gone);
    } else {
      var n := |xs| - 1;
      at := FilterIsLeft(xs[..n], keep, gone);
      LeftNext(xs[..n], Filter(xs[..n], keep), gone, at, xs[n]);
      assert xs[..n] + [xs[n]] == xs;
      if keep(xs[n]) {
        at := at + [n];
      }
    }
  }

  lemma NothingLeft<T(!new)>(gone: T -> bool)
    ensures LeftOf([], [], gone, [])
  {}

  lemma LeftNext<T(!new)>(before: seq<T>, after: seq<T>, gone: T -> bool, at: seq<nat>, x: T)
    requires LeftOf(before, after, gone, at)
    ensures gone(x) ==> LeftOf(before + [x], after, gone, at)
    ensures !gone(x) ==> LeftOf(before + [x], after + [x], gone, at + [|before|])
  {
    var all, at' := before + [x], at + [|before|];
    forall i | 0 <= i < |before| ensures i in at' <==> i in at {
      assert i != |before|;
    }
    assert |before| in at';
    assert |before| !in at;
    assert forall i :: 0 <= i < |before| ==> all[i] == before[i];
  }

  /** Named `*-cow` and in a group named `cow`, byte by byte. */
  ghost predicate Leftover(groups: seq<Group>, m: Logical) {
    && m.group < |groups| && groups[m.group].name == [99, 111, 119]
    && exists stem :: m.name == stem + [45, 99, 111, 119]
  }

  /** `cow` deletes exactly those partitions. */
  lemma CowCleared(t: Tables, t': Tables) returns (at: seq<nat>)
    requires ClearCowStep(t, t')
    ensures t'.groups == t.groups
    ensures LeftOf(Meaning(t), Meaning(t'), m => Leftover(t.groups, m), at)
  {
    hide MeaningOf, Filter, LeftOf;
    var ms, keep := Meaning(t), KeptLogical(CowIn(t.groups));
    forall i | 0 <= i < |ms| ensures keep(ms[i]) <==> !Leftover(t.groups, ms[i]) {
      CowName(ms[i].name);
    }
    at := FilterIsLeft(ms, keep, m => Leftover(t.groups, m));
  }

  lemma CowName(name: Name)
    ensures EndsWith(name, COW_SUFFIX) <==> exists stem :: name == stem + [45, 99, 111, 119]
  {
    if EndsWith(name, COW_SUFFIX) {
      assert name == name[..|name| - 4] + [45, 99, 111, 119];
    }
    if stem :| name == stem + [45, 99, 111, 119] {
      assert name[|stem|..] == [45, 99, 111, 119];
    }
  }

  /** A partition of a later group follows its group one place down. */
  ghost predicate Follows(m: Logical, m': Logical, deleted: u32) {
    && m'.name == m.name && m'.attributes == m.attributes && m'.extents == m.extents
    && m'.group == (if m.group > deleted then m.group - 1 else m.group)
  }

  /** `remove --group` deletes the group and its partitions; the survivors stay with their groups. */
  lemma GroupDeleted(c: Command, t: Tables, t': Tables) returns (left: seq<Logical>, at: seq<nat>)
    requires c.RemoveGroup? && RemoveGroupStep(c, t, t')
    ensures |t'.groups| == |t.groups| - 1
    ensures forall k :: 0 <= k < |t'.groups| ==> t'.groups[k] == t.groups[if k < c.deleted then k else k + 1]
    ensures LeftOf(Meaning(t), left, (m: Logical) => m.group == c.deleted, at) && |Meaning(t')| == |left|
    ensures forall k :: 0 <= k < |left| ==> Follows(left[k], Meaning(t')[k], c.deleted)
    ensures (forall i :: 0 <= i < |t.partitions| ==> t.partitions[i].groupIndex != c.deleted) || c.cascade
  {
    hide MeaningOf, LeftOf, Filter;
    left := Survivors(Meaning(t), InGroup(c.deleted));
    at := FilterIsLeft(Meaning(t), KeptLogical(InGroup(c.deleted)), (m: Logical) => m.group == c.deleted);
  }

  // --------------------------------------------------------------- resizing

  /** A resized partition has the least number of whole sectors that holds the new size. */
  lemma ResizedBytes(c: Command, t: Tables, t': Tables)
    requires c.Resize? && ResizeStep(c, t, t') && t' != t
    ensures c.index < |Meaning(t)| == |Meaning(t')|
    ensures c.newSize <= Sectors(Meaning(t')[c.index].extents) * 512 < c.newSize + 512
    ensures forall i :: 0 <= i < |Meaning(t)| && i != c.index ==> Meaning(t')[i] == Meaning(t)[i]
    ensures !c.allowShrink ==> Sectors(Meaning(t)[c.index].extents) * 512 < c.newSize
  {
    hide WellFormed, Window, Truncate, CannotGrow, Grown, QuotaAllows;
    var es :| Replaced(t, t', c.index, es)
        && Resizes(t, Meaning(t)[c.index].extents, es, DivCeil(c.newSize, SECTOR_SIZE));
    CeilCovers(c.newSize, 512);
  }
}
