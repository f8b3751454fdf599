/**
 Runs of editing commands. A command works on a clone of the loaded table and is
 committed only if the slot can be rendered with the result; every reachable table stays
 well-formed and within quota, and partitions no command names keep their bytes.
 */
module TableRuns {
  import opened Base
  import opened Format
  import opened MetadataCodec
  import opened MetadataSlot
  import opened TableDrain
  import opened TableEditor
  import opened TableLaws
  import opened TableModel
  import opened TableResize

  datatype Command =
    | Add(name: Name, attributes: u32, group: u32, needed: u64, allowed: Option<seq<u32>>, force: bool)
    | Create(name: Name, groupName: Name, groupSize: Option<u64>, attributes: u32, size: u64, split: bool, force: bool)
    | Resize(index: nat, newSize: u64, allowShrink: bool, force: bool)
    | Remove(index: nat)
    | RemoveGroup(deleted: u32, cascade: bool)
    | ClearCow

  predicate Forced(c: Command) {
    match c
    case Add(_, _, _, _, _, force) => force
    case Create(_, _, _, _, _, _, force) => force
    case Resize(_, _, _, force) => force
    case _ => false
  }

  // -------------------------------------------------------- one command

  /** A new extent: first fit over the offered devices. */
  ghost predicate FirstFit(t: Tables, allowed: Option<seq<u32>>, needed: int, e: Extent) {
    Linear(e) && e.numSectors == needed
        && IsAllocated(t.extents, t.devices, allowed, e.targetSource, needed, e.targetData)
  }

  ghost predicate AddStep(c: Command, t: Tables, t': Tables)
    requires c.Add?
  {
    t'.groups == t.groups && c.group < |t.groups| && c.needed > 0 &&
    exists e :: FirstFit(t, c.allowed, c.needed, e)
                && Appended(t, t', Logical(c.name, c.attributes, c.group, [e]))
                && QuotaAllows(Meaning(t'), t'.groups, c.group, c.force)
  }

  /** The extents of a created partition: none for size zero, else one of the whole size. */
  ghost predicate CreatedExtents(c: Command, t: Tables, es: seq<Extent>)
    requires c.Create?
  {
    if c.size == 0 then es == []
    else
      && |es| == 1 && Linear(es[0]) && es[0].numSectors == DivCeil(c.size, SECTOR_SIZE)
      && FirstOffered(t.extents, t.devices, c.split, es[0].targetSource, es[0].numSectors, es[0].targetData)
  }

  /** An existing group stays as it is; a new one gets the requested limit. */
  ghost predicate GroupReady(c: Command, groups: seq<Group>, groups': seq<Group>)
    requires c.Create?
  {
    groups' == if c.groupSize.Some? && !HasGroup(groups, c.groupName)
               then groups + [Group(c.groupName, 0, c.groupSize.value)] else groups
  }

  ghost predicate CreateStep(c: Command, t: Tables, t': Tables)
    requires c.Create?
  {
    GroupReady(c, t.groups, t'.groups) &&
    exists m :: Appended(t.(groups := t'.groups), t', m) && m.name == c.name && m.attributes == c.attributes
                && IsFirstNamed(t'.groups, c.groupName, m.group) && CreatedExtents(c, t, m.extents)
                && (c.size > 0 ==> QuotaAllows(Meaning(t'), t'.groups, m.group, c.force))
  }

  ghost predicate ResizeStep(c: Command, t: Tables, t': Tables)
    requires c.Resize?
  {
    c.index < |t.partitions| &&
    var was := Meaning(t)[c.index];
    if c.newSize == ByteSize(was.extents) then t' == t
    else
      && (c.allowShrink || c.newSize > ByteSize(was.extents))
      && exists es :: Replaced(t, t', c.index, es) && Resizes(t, was.extents, es, DivCeil(c.newSize, SECTOR_SIZE))
                      && QuotaAllows(Meaning(t'), t'.groups, was.group, c.force)
  }

  ghost predicate RemoveStep(c: Command, t: Tables, t': Tables)
    requires c.Remove?
  {
    && c.index < |t.partitions| && t'.groups == t.groups
    && Meaning(t') == Meaning(t)[..c.index] + Meaning(t)[c.index + 1..]
  }

  ghost predicate RemoveGroupStep(c: Command, t: Tables, t': Tables)
    requires c.RemoveGroup?
  {
    && c.deleted < |t.groups| && t'.groups == WithoutGroup(t.groups, c.deleted)
    && Meaning(t') == Renumbered(Survivors(Meaning(t), InGroup(c.deleted)), c.deleted)
    && (c.cascade || forall i :: 0 <= i < |t.partitions| ==> t.partitions[i].groupIndex != c.deleted)
  }

  ghost predicate ClearCowStep(t: Tables, t': Tables) {
    t'.groups == t.groups && Meaning(t') == Survivors(Meaning(t), CowIn(t.groups))
  }

  /** The effect of a command on the table it works on. */
  ghost predicate Edit(c: Command, t: Tables, t': Tables) {
    && WellFormed(t') && t'.devices == t.devices
    && match c
       case Add(_, _, _, _, _, _) => AddStep(c, t, t')
       case Create(_, _, _, _, _, _, _) => CreateStep(c, t, t')
       case Resize(_, _, _, _) => ResizeStep(c, t, t')
       case Remove(_) => RemoveStep(c, t, t')
       case RemoveGroup(_, _) => RemoveGroupStep(c, t, t')
       case ClearCow => ClearCowStep(t, t')
  }

  /** The slot a run rewrites: its header and size. Rewriting keeps the header, up to the table descriptors. */
  datatype Room = Room(header: MetadataHeader, maxSize: u32)

  predicate Fits(w: Room, t: Tables) {
    Renderable(w.header, t, w.maxSize)
  }

  /** A committed command: the slot with its effect can be rendered. */
  ghost predicate Step(w: Room, c: Command, t: Tables, t': Tables) {
    Edit(c, t, t') && Fits(w, t')
  }

  /** The only reasons for a command to refuse. */
  ghost predicate Refuses(c: Command, t: Tables)
    requires WellFormed(t) && Capped(t)
  {
    match c
    case Add(name, _, group, needed, allowed, force) =>
      || group >= |t.groups| || NameTaken(t.partitions, name) || needed == 0
      || OverQuota(Meaning(t), t.groups, group, needed, force) || NoneFits(t.extents, t.devices, allowed, needed)
    case Create(name, groupName, groupSize, _, size, split, force) =>
      var needed := DivCeil(size, SECTOR_SIZE);
      || NameTaken(t.partitions, name) || (groupSize.None? && !HasGroup(t.groups, groupName))
      || (size > 0 && LimitExceeded(Meaning(t), t.groups, groupName, groupSize, needed, force))
      || (size > 0 && NoneOffered(t.extents, t.devices, split, needed))
    case Resize(index, newSize, allowShrink, force) => index >= |t.partitions|
        || ResizeRefused(t, index, newSize, allowShrink, force)
    case Remove(index) => index >= |t.partitions|
    case RemoveGroup(deleted, cascade) =>
      deleted >= |t.groups| ||
      (!cascade && exists i :: 0 <= i < |t.partitions| && t.partitions[i].groupIndex == deleted)
    case ClearCow => false
  }

  /** One command on the working copy: its effect, or one of its reasons to refuse. */
  method Apply(c: Command, data: SuperData) returns (r: Result<()>)
    requires WellFormed(data.View()) && Capped(data.View())
    modifies data
    ensures r.Ok? ==> Edit(c, old(data.View()), data.View())
    ensures r.Err? ==> Refuses(c, old(data.View()))
  {
    hide WellFormed, MeaningOf, Appended, Replaced, Survivors, Renumbered, QuotaAllows, NameTaken, OverQuota, NoneFits,
      IsAllocated, ResizeRefused, FirstOffered, NoneOffered, LimitExceeded, HasGroup, IsFirstNamed, Resizes;
    ghost var t := data.View();
    r := Err(Invalid);
    match c {
      case Add(name, attributes, group, needed, allowed, force) =>
        if group < |data.groups| {
          var added := data.Add(name, attributes, group, needed, allowed, force);
          if added.Ok? {
            r := Ok(());
            AppendedFacts(t, data.View(), Logical(name, attributes, group, [added.value]));
          }
        }
      case Create(name, groupName, groupSize, attributes, size, split, force) =>
        var created := data.Create(name, groupName, groupSize, attributes, size, split, force);
        if created.Ok? {
          r := Ok(());
          AppendedFacts(t.(groups := data.groups), data.View(), created.value);
        }
      case Resize(index, newSize, allowShrink, force) =>
        if index < |data.partitions| {
          var resized, es := TableResize.Resize(data, index, newSize, allowShrink, force);
          if resized.Ok? {
            r := Ok(());
            if resized.value == Resized {
              ReplacedFacts(t, data.View(), index, es);
            }
          }
        }
      case Remove(index) =>
        if index < |data.partitions| {
          r := data.RemovePartition(index);
        }
      case RemoveGroup(deleted, cascade) =>
        if deleted < |data.groups| {
          r := TableDrain.RemoveGroup(data, deleted, cascade);
        }
      case ClearCow =>
        r := TableDrain.ClearCow(data);
    }
  }

  /** Runs one command on a clone; commits exactly what is not refused and can be rendered into the slot. */
  method Execute(w: Room, c: Command, t: Tables) returns (r: Result<Tables>)
    requires WellFormed(t) && Capped(t)
    ensures r.Ok? ==> Step(w, c, t, r.value)
    ensures r.Err? ==> Declines(w, c, t)
  {
    hide WellFormed, AddStep, CreateStep, ResizeStep, RemoveStep, RemoveGroupStep, ClearCowStep, Refuses;
    var data := new SuperData(t);
    var done := Apply(c, data);
    if done.Err? {
      return Err(done.error);
    }
    if !Fits(w, data.View()) {
      return Err(Invalid);
    }
    r := Ok(data.View());
  }

  lemma AppendedFacts(t: Tables, t': Tables, m: Logical)
    requires Appended(t, t', m)
    ensures WellFormed(t') && t'.devices == t.devices
  {}

  lemma EditKeepsForm(c: Command, t: Tables, t': Tables)
    requires Edit(c, t, t')
    ensures WellFormed(t')
  {}

  lemma ReplacedFacts(t: Tables, t': Tables, i: nat, es: seq<Extent>)
    requires Replaced(t, t', i, es)
    ensures WellFormed(t') && t'.devices == t.devices && t'.groups == t.groups
  {}

  // -------------------------------------------------------------- quota

  /** One more partition, checked against the quota of its group. */
  lemma QuotaAppend(ms: seq<Logical>, groups: seq<Group>, m: Logical)
    requires WithinQuota(ms, groups)
    requires m.extents == [] || QuotaAllows(ms + [m], groups, m.group, false)
    ensures WithinQuota(ms + [m], groups)
  {
    forall g | 0 <= g < |groups| && groups[g].maximumSize > 0
      ensures GroupLoad(ms + [m], g) <= groups[g].maximumSize / SECTOR_SIZE
    {
      GroupLoadAppend(ms, m, g);
    }
  }

  lemma QuotaReplace(ms: seq<Logical>, groups: seq<Group>, i: nat, es: seq<Extent>)
    requires WithinQuota(ms, groups) && i < |ms|
    requires QuotaAllows(ms[i := ms[i].(extents := es)], groups, ms[i].group, false)
    ensures WithinQuota(ms[i := ms[i].(extents := es)], groups)
  {
    forall g | 0 <= g < |groups| && groups[g].maximumSize > 0
      ensures GroupLoad(ms[i := ms[i].(extents := es)], g) <= groups[g].maximumSize / SECTOR_SIZE
    {
      GroupLoadUpdate(ms, i, ms[i].(extents := es), g);
    }
  }

  lemma QuotaFilter(ms: seq<Logical>, groups: seq<Group>, keep: Logical -> bool)
    requires WithinQuota(ms, groups)
    ensures WithinQuota(Filter(ms, keep), groups)
  {
    forall g | 0 <= g < |groups| && groups[g].maximumSize > 0
      ensures GroupLoad(Filter(ms, keep), g) <= groups[g].maximumSize / SECTOR_SIZE
    {
      GroupLoadFilter(ms, keep, g);
    }
  }

  lemma {:induction false} LoadWithout(ms: seq<Logical>, i: nat, g: int)
    requires i < |ms|
    ensures GroupLoad(ms[..i] + ms[i + 1..], g) <= GroupLoad(ms, g)
  {
    hide Sectors;
    var n := |ms| - 1;
    var r := ms[..i] + ms[i + 1..];
    if i == n {
      assert r == ms[..n];
    } else {
      var rest := ms[..n][..i] + ms[..n][i + 1..];
      LoadWithout(ms[..n], i, g);
      assert r == rest + [ms[n]];
      GroupLoadAppend(rest, ms[n], g);
    }
  }

  lemma QuotaRenumber(ms: seq<Logical>, groups: seq<Group>, g: nat)
    requires WithinQuota(ms, groups) && g < |groups| && forall i :: 0 <= i < |ms| ==> ms[i].group != g
    ensures WithinQuota(Renumbered(ms, g), WithoutGroup(groups, g))
  {
    var left := WithoutGroup(groups, g);
    forall k | 0 <= k < |left| && left[k].maximumSize > 0
      ensures GroupLoad(Renumbered(ms, g), k) <= left[k].maximumSize / SECTOR_SIZE
    {
      GroupLoadRenumbered(ms, g, k);
      assert left[k] == groups[if k < g then k else k + 1];
    }
  }

  /** A new group starts empty. */
  lemma QuotaNewGroup(c: Command, t: Tables, groups: seq<Group>)
    requires c.Create? && WellFormed(t) && WithinQuota(Meaning(t), t.groups) && GroupReady(c, t.groups, groups)
    ensures WithinQuota(Meaning(t), groups)
  {
    hide Tiles, Placed, DevicesUsable, UniqueNames, MeaningOf, GroupLoad, HasGroup;
    var ms := Meaning(t);
    MeaningGroups(t);
    assert forall i :: 0 <= i < |ms| ==> ms[i] in ms;
    NoLoadOutside(ms, |t.groups|, |t.groups|);
    forall g | 0 <= g < |groups| && groups[g].maximumSize > 0
      ensures GroupLoad(ms, g) <= groups[g].maximumSize / SECTOR_SIZE
    {
      if g < |t.groups| {
        assert groups[g] == t.groups[g];
      }
    }
  }

  lemma AddKeepsQuota(c: Command, t: Tables, t': Tables)
    requires c.Add? && !c.force && WithinQuota(Meaning(t), t.groups) && AddStep(c, t, t')
    ensures WithinQuota(Meaning(t'), t'.groups)
  {
    hide WellFormed, WithinQuota, QuotaAllows, MeaningOf, FirstFit;
    var e :| Appended(t, t', Logical(c.name, c.attributes, c.group, [e]))
        && QuotaAllows(Meaning(t'), t'.groups, c.group, c.force);
    var m := Logical(c.name, c.attributes, c.group, [e]);
    assert Appended(t, t', m);
    QuotaAppend(Meaning(t), t.groups, m);
  }

  lemma CreateKeepsQuota(c: Command, t: Tables, t': Tables)
    requires c.Create? && !c.force && WellFormed(t) && WithinQuota(Meaning(t), t.groups) && CreateStep(c, t, t')
    ensures WithinQuota(Meaning(t'), t'.groups)
  {
    hide WellFormed, WithinQuota, QuotaAllows, MeaningOf, FirstOffered, GroupReady;
    QuotaNewGroup(c, t, t'.groups);
    var m :| Appended(t.(groups := t'.groups), t', m) && CreatedExtents(c, t, m.extents)
             && (c.size > 0 ==> QuotaAllows(Meaning(t'), t'.groups, m.group, c.force));
    QuotaAppend(Meaning(t), t'.groups, m);
  }

  lemma ResizeKeepsQuota(c: Command, t: Tables, t': Tables)
    requires c.Resize? && !c.force && WithinQuota(Meaning(t), t.groups) && ResizeStep(c, t, t')
    ensures WithinQuota(Meaning(t'), t'.groups)
  {
    hide WellFormed, WithinQuota, QuotaAllows, MeaningOf, Resizes, Sectors;
    if t' != t {
      var es :| Replaced(t, t', c.index, es) && QuotaAllows(Meaning(t'), t'.groups, Meaning(t)[c.index].group, c.force);
      QuotaReplace(Meaning(t), t.groups, c.index, es);
    }
  }

  /** Every command that is not forced keeps every group within its limit. */
  lemma StepKeepsQuota(c: Command, t: Tables, t': Tables)
    requires WellFormed(t) && WithinQuota(Meaning(t), t.groups) && Edit(c, t, t') && !Forced(c)
    ensures WithinQuota(Meaning(t'), t'.groups)
  {
    hide WellFormed, WithinQuota, MeaningOf, Capped, AddStep, CreateStep, ResizeStep;
    match c {
      case Add(_, _, _, _, _, _) => AddKeepsQuota(c, t, t');
      case Create(_, _, _, _, _, _, _) => CreateKeepsQuota(c, t, t');
      case Resize(_, _, _, _) => ResizeKeepsQuota(c, t, t');
      case Remove(index) => QuotaRemove(Meaning(t), t.groups, index);
      case RemoveGroup(deleted, _) => QuotaRemoveGroup(Meaning(t), t.groups, deleted);
      case ClearCow => QuotaFilter(Meaning(t), t.groups, KeptLogical(CowIn(t.groups)));
    }
  }

  lemma QuotaRemove(ms: seq<Logical>, groups: seq<Group>, i: nat)
    requires WithinQuota(ms, groups) && i < |ms|
    ensures WithinQuota(ms[..i] + ms[i + 1..], groups)
  {
    forall g | 0 <= g < |groups| && groups[g].maximumSize > 0
      ensures GroupLoad(ms[..i] + ms[i + 1..], g) <= groups[g].maximumSize / SECTOR_SIZE
    {
      LoadWithout(ms, i, g);
    }
  }

  lemma QuotaRemoveGroup(ms: seq<Logical>, groups: seq<Group>, g: u32)
    requires WithinQuota(ms, groups) && g < |groups|
    ensures WithinQuota(Renumbered(Survivors(ms, InGroup(g)), g), WithoutGroup(groups, g))
  {
    hide WithinQuota;
    QuotaFilter(ms, groups, KeptLogical(InGroup(g)));
    var left := Survivors(ms, InGroup(g));
    FilterMembers(ms, KeptLogical(InGroup(g)));
    forall i | 0 <= i < |left| ensures left[i].group != g {
      assert left[i] in left;
    }
    QuotaRenumber(left, groups, g);
  }

  // ---------------------------------------------------------- bystanders

  /** What a reader of one partition can observe: its attributes, group and extents. */
  datatype Identity = Identity(attributes: u32, group: Group, extents: seq<Extent>)

  function IdentityOf(m: Logical, groups: seq<Group>): Identity
    requires m.group < |groups|
  {
    Identity(m.attributes, groups[m.group], m.extents)
  }

  /** The table lists a partition of that name with that identity. */
  ghost predicate Lists(ms: seq<Logical>, groups: seq<Group>, name: Name, id: Identity) {
    exists m :: m in ms && m.name == name && m.group < |groups| && IdentityOf(m, groups) == id
  }

  /** The command names the partition, or deletes it with its group or as a snapshot leftover. */
  ghost predicate Touches(c: Command, t: Tables, name: Name) {
    match c
    case Add(n, _, _, _, _, _) => n == name
    case Create(n, _, _, _, _, _, _) => n == name
    case Resize(index, _, _, _) => index < |t.partitions| && t.partitions[index].name == name
    case Remove(index) => index < |t.partitions| && t.partitions[index].name == name
    case RemoveGroup(deleted, _) =>
      exists i :: 0 <= i < |t.partitions| && t.partitions[i].name == name && t.partitions[i].groupIndex == deleted
    case ClearCow =>
      exists i ::
        0 <= i < |t.partitions| && t.partitions[i].name == name && IsCow(t.groups, name, t.partitions[i].groupIndex)
  }

  lemma MeaningNames(t: Tables)
    ensures forall i :: 0 <= i < |t.partitions| ==>
              Meaning(t)[i].name == t.partitions[i].name && Meaning(t)[i].group == t.partitions[i].groupIndex
  {}

  lemma ListedBy(t: Tables, m: Logical, name: Name, id: Identity)
    requires m in Meaning(t) && m.name == name && m.group < |t.groups| && IdentityOf(m, t.groups) == id
    ensures Lists(Meaning(t), t.groups, name, id)
  {}

  /** `m` is what the table lists under that name with that identity. */
  ghost predicate IsListed(t: Tables, m: Logical, name: Name, id: Identity) {
    m in Meaning(t) && m.name == name && m.group < |t.groups| && IdentityOf(m, t.groups) == id
  }

  /** An appended partition, or a new group, moves nobody. */
  lemma AppendKeeps(t: Tables, t': Tables, new': Logical, m: Logical, name: Name, id: Identity)
    requires Appended(t.(groups := t'.groups), t', new') && t.groups <= t'.groups && IsListed(t, m, name, id)
    ensures Lists(Meaning(t'), t'.groups, name, id)
  {
    hide WellFormed, MeaningOf;
    assert m in Meaning(t');
    ListedBy(t', m, name, id);
  }

  lemma AddKeepsBystander(c: Command, t: Tables, t': Tables, m: Logical, name: Name, id: Identity)
    requires c.Add? && AddStep(c, t, t') && IsListed(t, m, name, id)
    ensures Lists(Meaning(t'), t'.groups, name, id)
  {
    hide WellFormed, QuotaAllows, FirstFit, Lists, MeaningOf, IsListed;
    var e :| Appended(t, t', Logical(c.name, c.attributes, c.group, [e]));
    assert t.(groups := t'.groups) == t;
    AppendKeeps(t, t', Logical(c.name, c.attributes, c.group, [e]), m, name, id);
  }

  lemma CreateKeepsBystander(c: Command, t: Tables, t': Tables, m: Logical, name: Name, id: Identity)
    requires c.Create? && CreateStep(c, t, t') && IsListed(t, m, name, id)
    ensures Lists(Meaning(t'), t'.groups, name, id)
  {
    hide WellFormed, QuotaAllows, CreatedExtents, Lists, MeaningOf, IsListed;
    var new' :| Appended(t.(groups := t'.groups), t', new');
    AppendKeeps(t, t', new', m, name, id);
  }

  lemma ResizeKeepsBystander(c: Command, t: Tables, t': Tables, m: Logical, name: Name, id: Identity)
    requires c.Resize? && ResizeStep(c, t, t') && !Touches(c, t, name) && IsListed(t, m, name, id)
    ensures Lists(Meaning(t'), t'.groups, name, id)
  {
    hide WellFormed, QuotaAllows, Resizes, Lists, MeaningOf, Sectors;
    MeaningNames(t);
    var k :| 0 <= k < |Meaning(t)| && Meaning(t)[k] == m;
    if t' != t {
      var es :| Replaced(t, t', c.index, es);
      assert Meaning(t')[k] == m;
    }
    ListedBy(t', m, name, id);
  }

  lemma RemoveKeepsBystander(c: Command, t: Tables, t': Tables, m: Logical, name: Name, id: Identity)
    requires c.Remove? && RemoveStep(c, t, t') && !Touches(c, t, name) && IsListed(t, m, name, id)
    ensures Lists(Meaning(t'), t'.groups, name, id)
  {
    hide Lists, MeaningOf;
    MeaningNames(t);
    var k :| 0 <= k < |Meaning(t)| && Meaning(t)[k] == m;
    assert Meaning(t')[if k < c.index then k else k - 1] == m;
    ListedBy(t', m, name, id);
  }

  lemma RemoveGroupKeepsBystander(c: Command, t: Tables, t': Tables, m: Logical, name: Name, id: Identity)
    requires c.RemoveGroup? && RemoveGroupStep(c, t, t') && !Touches(c, t, name) && IsListed(t, m, name, id)
    ensures Lists(Meaning(t'), t'.groups, name, id)
  {
    hide Lists, MeaningOf, Survivors, Renumbered, WithoutGroup;
    MeaningNames(t);
    GroupBystander(Meaning(t), t.groups, c.deleted, m);
  }

  lemma ClearCowKeepsBystander(c: Command, t: Tables, t': Tables, m: Logical, name: Name, id: Identity)
    requires c.ClearCow? && ClearCowStep(t, t') && !Touches(c, t, name) && IsListed(t, m, name, id)
    ensures Lists(Meaning(t'), t'.groups, name, id)
  {
    hide Lists, MeaningOf, Survivors, IsCow;
    MeaningNames(t);
    CowBystander(t, m);
    ListedBy(t', m, name, id);
  }

  /** A partition that a command does not touch keeps attributes, group and extents. */
  lemma StepKeepsBystander(c: Command, t: Tables, t': Tables, name: Name, id: Identity)
    requires Edit(c, t, t') && !Touches(c, t, name) && Lists(Meaning(t), t.groups, name, id)
    ensures Lists(Meaning(t'), t'.groups, name, id)
  {
    hide WellFormed, MeaningOf, Capped, Lists, Touches, AddStep, CreateStep, ResizeStep, RemoveStep, RemoveGroupStep,
      ClearCowStep;
    var m :| IsListed(t, m, name, id) by {
      ListedMember(t, name, id);
    }
    match c {
      case Add(_, _, _, _, _, _) => AddKeepsBystander(c, t, t', m, name, id);
      case Create(_, _, _, _, _, _, _) => CreateKeepsBystander(c, t, t', m, name, id);
      case Resize(_, _, _, _) => ResizeKeepsBystander(c, t, t', m, name, id);
      case Remove(_) => RemoveKeepsBystander(c, t, t', m, name, id);
      case RemoveGroup(_, _) => RemoveGroupKeepsBystander(c, t, t', m, name, id);
      case ClearCow => ClearCowKeepsBystander(c, t, t', m, name, id);
    }
  }

  lemma ListedMember(t: Tables, name: Name, id: Identity)
    requires Lists(Meaning(t), t.groups, name, id)
    ensures exists m :: IsListed(t, m, name, id)
  {
    var m :| m in Meaning(t) && m.name == name && m.group < |t.groups| && IdentityOf(m, t.groups) == id;
    assert IsListed(t, m, name, id);
  }

  lemma CowBystander(t: Tables, m: Logical)
    requires m in Meaning(t) && !IsCow(t.groups, m.name, m.group)
    ensures m in Survivors(Meaning(t), CowIn(t.groups))
  {
    FilterMembers(Meaning(t), KeptLogical(CowIn(t.groups)));
  }

  /** A survivor of a deleted group keeps its extents and, renumbered, its group. */
  lemma GroupBystander(ms: seq<Logical>, groups: seq<Group>, g: u32, m: Logical)
    requires m in ms && m.group != g && g < |groups| && m.group < |groups|
    ensures Lists(Renumbered(Survivors(ms, InGroup(g)), g), WithoutGroup(groups, g), m.name, IdentityOf(m, groups))
  {
    FilterMembers(ms, KeptLogical(InGroup(g)));
    var left := Survivors(ms, InGroup(g));
    var i :| 0 <= i < |left| && left[i] == m;
    var moved := Renumbered(left, g)[i];
    assert moved in Renumbered(left, g);
    assert IdentityOf(moved, WithoutGroup(groups, g)) == IdentityOf(m, groups);
  }

  // ---------------------------------------------------------------- runs

  /** The command finds no way, or a result that cannot be rendered into the slot. */
  ghost predicate Declines(w: Room, c: Command, t: Tables)
    requires WellFormed(t) && Capped(t)
  {
    Refuses(c, t) || exists t' :: Edit(c, t, t') && !Fits(w, t')
  }

  /** One command of a run: committed, or declined and nothing changes. */
  ghost predicate Turn(w: Room, c: Command, t: Tables, t': Tables) {
    && WellFormed(t) && Capped(t) && WellFormed(t') && Capped(t')
    && (Step(w, c, t, t') || (t' == t && Declines(w, c, t)))
  }

  ghost predicate Run(w: Room, commands: seq<Command>, tables: seq<Tables>) {
    && |tables| == |commands| + 1
    && forall k :: 0 <= k < |commands| ==> Turn(w, commands[k], tables[k], tables[k + 1])
  }

  /** Without force, every table of a run stays within the quota it started within. */
  lemma {:induction false} RunWithinQuota(w: Room, commands: seq<Command>, tables: seq<Tables>, k: nat)
    requires Run(w, commands, tables) && k < |tables|
    requires WithinQuota(Meaning(tables[0]), tables[0].groups)
    requires forall i :: 0 <= i < |commands| ==> !Forced(commands[i])
    ensures WithinQuota(Meaning(tables[k]), tables[k].groups)
  {
    hide WellFormed, WithinQuota, Edit, Declines;
    if k > 0 {
      RunWithinQuota(w, commands, tables, k - 1);
      assert Turn(w, commands[k - 1], tables[k - 1], tables[k]);
      if tables[k] != tables[k - 1] {
        StepKeepsQuota(commands[k - 1], tables[k - 1], tables[k]);
      }
    }
  }

  /** A partition that no command of a run touches has the same extents and group at the end. */
  lemma {:induction false} RunKeepsBystander(w: Room, commands: seq<Command>, tables: seq<Tables>, k: nat, name: Name,
                                             id: Identity)
    requires Run(w, commands, tables) && k < |tables|
    requires Lists(Meaning(tables[0]), tables[0].groups, name, id)
    requires forall i :: 0 <= i < |commands| ==> !Touches(commands[i], tables[i], name)
    ensures Lists(Meaning(tables[k]), tables[k].groups, name, id)
  {
    hide WellFormed, Lists, Edit, Declines, Touches;
    if k > 0 {
      RunKeepsBystander(w, commands, tables, k - 1, name, id);
      assert Turn(w, commands[k - 1], tables[k - 1], tables[k]);
      if tables[k] != tables[k - 1] {
        StepKeepsBystander(commands[k - 1], tables[k - 1], tables[k], name, id);
      }
    }
  }

  /** Executing a command list in order is a run: every table is well-formed, every command committed or declined. */
  method ExecuteAll(w: Room, commands: seq<Command>, t: Tables) returns (tables: seq<Tables>)
    requires WellFormed(t) && Capped(t)
    ensures Run(w, commands, tables) && tables[0] == t
  {
    hide WellFormed, Edit, Declines;
    tables := [t];
    for k := 0 to |commands|
      invariant |tables| == k + 1 && tables[0] == t
      invariant WellFormed(tables[k]) && Capped(tables[k])
      invariant forall i :: 0 <= i < k ==> Turn(w, commands[i], tables[i], tables[i + 1])
    {
      var next := Execute(w, commands[k], tables[k]);
      if next.Ok? {
        EditKeepsForm(commands[k], tables[k], next.value);
      }
      tables := tables + [if next.Ok? then next.value else tables[k]];
    }
  }
}
