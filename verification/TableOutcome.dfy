/**
 The outcome of a run of editing commands is determined: two runs of one command
 list, from tables of one meaning, commit the same commands and end with one
 meaning, however the extent vector is laid out.
 */
module TableOutcome {
  import opened Allocator
  import opened Base
  import opened Format
  import opened MetadataCodec
  import opened MetadataSlot
  import opened TableDrain
  import opened TableEditor
  import opened TableLaws
  import opened TableModel
  import opened TableResize
  import opened TableRuns

  /** Two layouts of one table. */
  ghost predicate Alike(t: Tables, u: Tables) {
    Meaning(t) == Meaning(u) && t.groups == u.groups && t.devices == u.devices
  }

  // ------------------------------------------------- what the meaning tells

  ghost predicate Names(ms: seq<Logical>, e: Extent) {
    exists i :: 0 <= i < |ms| && e in ms[i].extents
  }

  /** In a tiled table the extents are those of the partitions. */
  lemma ExtentsOwned(t: Tables, e: Extent)
    requires Tiles(t.partitions, |t.extents|)
    ensures e in t.extents <==> Names(Meaning(t), e)
  {
    hide WindowsApart, MeaningOf;
    var ps := t.partitions;
    if e in t.extents {
      var k :| 0 <= k < |t.extents| && t.extents[k] == e;
      assert Covered(ps, k);
      var i :| 0 <= i < |ps| && Owns(ps[i], k);
      assert WindowEnd(ps[i]) <= |t.extents|;
      assert Window(t.extents, ps[i])[k - ps[i].firstExtentIndex] == e;
      assert e in Meaning(t)[i].extents;
    }
  }

  ghost predicate SameMembers(a: seq<Extent>, b: seq<Extent>) {
    forall e :: e in a <==> e in b
  }

  lemma SameExtents(t: Tables, u: Tables)
    requires WellFormed(t) && WellFormed(u) && Alike(t, u)
    ensures SameMembers(t.extents, u.extents)
  {
    hide Names, Tiles, MeaningOf;
    forall e ensures e in t.extents <==> e in u.extents {
      ExtentsOwned(t, e);
      ExtentsOwned(u, e);
    }
  }

  function Total(ps: seq<Partition>): nat {
    if ps == [] then 0 else Total(ps[..|ps| - 1]) + ps[|ps| - 1].numExtents
  }

  lemma {:induction false} TotalSame(ps: seq<Partition>, qs: seq<Partition>)
    requires |ps| == |qs| && forall i :: 0 <= i < |ps| ==> ps[i].numExtents == qs[i].numExtents
    ensures Total(ps) == Total(qs)
  {
    if ps != [] {
      TotalSame(ps[..|ps| - 1], qs[..|qs| - 1]);
    }
  }

  /** The windows of a tiling add up to the vector. */
  lemma {:induction false} TilesTotal(ps: seq<Partition>, len: nat)
    requires Tiles(ps, len)
    ensures Total(ps) == len
    decreases |ps|
  {
    if ps == [] {
      assert len > 0 ==> Covered(ps, 0);
    } else {
      var n := |ps| - 1;
      assert WindowEnd(ps[n]) <= len;
      CutKeepsTiling(ps, len, n, 0);
      var cut, rest := CutAt(ps, n, 0), len - ps[n].numExtents;
      DropEmptyTiles(cut, rest, n);
      assert cut[..n] + cut[n + 1..] == cut[..n];
      TilesTotal(cut[..n], rest);
      TotalSame(cut[..n], ps[..n]);
    }
  }

  lemma SameLength(t: Tables, u: Tables)
    requires WellFormed(t) && WellFormed(u) && Alike(t, u)
    ensures |t.extents| == |u.extents|
  {
    TilesTotal(t.partitions, |t.extents|);
    TilesTotal(u.partitions, |u.extents|);
    forall i | 0 <= i < |t.partitions| ensures t.partitions[i].numExtents == u.partitions[i].numExtents {
      WindowLength(t, i);
      WindowLength(u, i);
    }
    TotalSame(t.partitions, u.partitions);
  }

  lemma WindowLength(t: Tables, i: nat)
    requires Tiles(t.partitions, |t.extents|) && i < |t.partitions|
    ensures |Meaning(t)[i].extents| == t.partitions[i].numExtents
  {
    assert WindowEnd(t.partitions[i]) <= |t.extents|;
  }

  /** Layouts of one table are rendered alike. */
  lemma RenderableAlike(w: Room, t: Tables, u: Tables)
    requires WellFormed(t) && WellFormed(u) && Alike(t, u) && Fits(w, t)
    ensures Fits(w, u)
  {
    hide Tiles, Placed, UniqueNames, GroupsValid;
    SameLength(t, u);
    MeaningNames(t);
    MeaningNames(u);
  }

  // ---------------------------------------------------- allocation is a function

  lemma SameFits(a: seq<Extent>, b: seq<Extent>, d: BlockDevice, index: int)
    requires SameMembers(a, b)
    ensures forall len, s :: RangeFree(a, d, index, s, len) <==> RangeFree(b, d, index, s, len)
    ensures forall len, s :: IsFit(a, d, index, len, s) <==> IsFit(b, d, index, len, s)
  {}

  lemma SameHasFit(a: seq<Extent>, b: seq<Extent>, d: BlockDevice, index: int, len: int)
    requires SameMembers(a, b) && HasFit(a, d, index, len)
    ensures HasFit(b, d, index, len)
  {
    hide IsFit;
    SameFits(a, b, d, index);
    var s :| IsFit(a, d, index, len, s);
    assert IsFit(b, d, index, len, s);
  }

  lemma SameFirst(a: seq<Extent>, b: seq<Extent>, d: BlockDevice, index: int, len: int, s: int, s': int)
    requires SameMembers(a, b) && IsFirstFit(a, d, index, len, s) && IsFirstFit(b, d, index, len, s')
    ensures s == s'
  {
    hide IsFit;
    SameFits(a, b, d, index);
    assert IsFit(a, d, index, len, s') && IsFit(b, d, index, len, s);
  }

  /** First fit chooses one extent. */
  lemma FirstFitIsOne(t: Tables, u: Tables, allowed: Option<seq<u32>>, needed: int, e: Extent, e': Extent)
    requires SameMembers(t.extents, u.extents) && t.devices == u.devices
    requires FirstFit(t, allowed, needed, e) && FirstFit(u, allowed, needed, e')
    ensures e == e'
  {
    hide SameMembers, Offered, IsFit;
    assert SameMembers(u.extents, t.extents) by {
      MembersFlip(t.extents, u.extents);
    }
    var k, k' := e.targetSource, e'.targetSource;
    assert HasFit(t.extents, t.devices[k], k, needed) && HasFit(u.extents, u.devices[k'], k', needed);
    if k < k' {
      SameHasFit(t.extents, u.extents, t.devices[k], k, needed);
    } else if k' < k {
      SameHasFit(u.extents, t.extents, t.devices[k'], k', needed);
    }
    SameFirst(t.extents, u.extents, t.devices[k], k, needed, e.targetData, e'.targetData);
  }

  lemma MembersFlip(a: seq<Extent>, b: seq<Extent>)
    requires SameMembers(a, b)
    ensures SameMembers(b, a)
  {}

  lemma NoFirstFit(t: Tables, u: Tables, allowed: Option<seq<u32>>, needed: int, e: Extent)
    requires SameMembers(t.extents, u.extents) && t.devices == u.devices && FirstFit(t, allowed, needed, e)
    ensures !NoneFits(u.extents, u.devices, allowed, needed)
  {
    hide SameMembers, IsFit;
    SameHasFit(t.extents, u.extents, t.devices[e.targetSource], e.targetSource, needed);
  }

  /** So does `create`, over the devices it offers. */
  lemma FirstOfferedIsOne(t: Tables, u: Tables, split: bool, e: Extent, f: Extent)
    requires SameMembers(t.extents, u.extents) && t.devices == u.devices && Linear(e) && Linear(f)
    requires e.numSectors == f.numSectors
    requires FirstOffered(t.extents, t.devices, split, e.targetSource, e.numSectors, e.targetData)
    requires FirstOffered(u.extents, u.devices, split, f.targetSource, f.numSectors, f.targetData)
    ensures e == f
  {
    hide SameMembers, IsFit;
    MembersFlip(t.extents, u.extents);
    var k, k', needed := e.targetSource, f.targetSource, e.numSectors;
    assert HasFit(t.extents, t.devices[k], k, needed) && HasFit(u.extents, u.devices[k'], k', needed);
    if k < k' {
      SameHasFit(t.extents, u.extents, t.devices[k], k, needed);
    } else if k' < k {
      SameHasFit(u.extents, t.extents, t.devices[k'], k', needed);
    }
    SameFirst(t.extents, u.extents, t.devices[k], k, needed, e.targetData, f.targetData);
  }

  lemma NoFirstOffered(t: Tables, u: Tables, split: bool, needed: int, e: Extent)
    requires SameMembers(t.extents, u.extents) && t.devices == u.devices
    requires FirstOffered(t.extents, t.devices, split, e.targetSource, needed, e.targetData)
    ensures !NoneOffered(u.extents, u.devices, split, needed)
  {
    hide SameMembers, IsFit;
    SameHasFit(t.extents, u.extents, t.devices[e.targetSource], e.targetSource, needed);
  }

  // --------------------------------------------------- one effect per command

  lemma AddIsOne(c: Command, t: Tables, u: Tables, t': Tables, u': Tables)
    requires c.Add? && WellFormed(t) && WellFormed(u) && Alike(t, u) && Edit(c, t, t') && Edit(c, u, u')
    ensures Alike(t', u')
  {
    hide WellFormed, MeaningOf, QuotaAllows, FirstFit, SameMembers;
    SameExtents(t, u);
    var e :| FirstFit(t, c.allowed, c.needed, e) && Appended(t, t', Logical(c.name, c.attributes, c.group, [e]));
    var f :| FirstFit(u, c.allowed, c.needed, f) && Appended(u, u', Logical(c.name, c.attributes, c.group, [f]));
    FirstFitIsOne(t, u, c.allowed, c.needed, e, f);
  }

  lemma CreateIsOne(c: Command, t: Tables, u: Tables, t': Tables, u': Tables)
    requires c.Create? && WellFormed(t) && WellFormed(u) && Alike(t, u) && Edit(c, t, t') && Edit(c, u, u')
    ensures Alike(t', u')
  {
    hide WellFormed, MeaningOf, QuotaAllows, FirstOffered, SameMembers;
    SameExtents(t, u);
    var m :| Appended(t.(groups := t'.groups), t', m) && m.name == c.name && m.attributes == c.attributes
             && IsFirstNamed(t'.groups, c.groupName, m.group) && CreatedExtents(c, t, m.extents);
    var n :| Appended(u.(groups := u'.groups), u', n) && n.name == c.name && n.attributes == c.attributes
             && IsFirstNamed(u'.groups, c.groupName, n.group) && CreatedExtents(c, u, n.extents);
    if c.size > 0 {
      FirstOfferedIsOne(t, u, c.split, m.extents[0], n.extents[0]);
      assert m.extents == [m.extents[0]] && n.extents == [n.extents[0]];
    }
    assert m == n;
  }

  lemma GrownIsOne(t: Tables, u: Tables, was: seq<Extent>, es: seq<Extent>, fs: seq<Extent>, extra: nat)
    requires SameMembers(t.extents, u.extents) && t.devices == u.devices && Grown(t, was, es, extra)
             && Grown(u, was, fs, extra)
    ensures es == fs
  {
    hide SameMembers, IsFit, RangeFree;
    if was == [] {
      FreshIsOne(t, u, es[0], fs[0], extra);
      assert es == [es[0]] && fs == [fs[0]];
    } else {
      var last := LastOf(was);
      SameFits(t.extents, u.extents, t.devices[last.targetSource], last.targetSource);
      if !RangeFree(t.extents, t.devices[last.targetSource], last.targetSource, End(last), extra) {
        var e :| es == was + [e] && IsNew(t, e, extra) && e.targetSource == last.targetSource;
        var f :| fs == was + [f] && IsNew(u, f, extra) && f.targetSource == last.targetSource;
        SameFirst(t.extents, u.extents, t.devices[e.targetSource], e.targetSource, extra, e.targetData, f.targetData);
      }
    }
  }

  lemma FreshIsOne(t: Tables, u: Tables, e: Extent, f: Extent, extra: nat)
    requires SameMembers(t.extents, u.extents) && t.devices == u.devices
    requires IsNew(t, e, extra) && NoEarlierDevice(t, e) && IsNew(u, f, extra) && NoEarlierDevice(u, f)
    ensures e == f
  {
    hide SameMembers, IsFit;
    MembersFlip(t.extents, u.extents);
    assert HasFit(t.extents, t.devices[e.targetSource], e.targetSource, extra)
        && HasFit(u.extents, u.devices[f.targetSource], f.targetSource, extra);
    if e.targetSource < f.targetSource {
      SameHasFit(t.extents, u.extents, t.devices[e.targetSource], e.targetSource, extra);
    } else if f.targetSource < e.targetSource {
      SameHasFit(u.extents, t.extents, t.devices[f.targetSource], f.targetSource, extra);
    }
    SameFirst(t.extents, u.extents, t.devices[e.targetSource], e.targetSource, extra, e.targetData, f.targetData);
  }

  lemma ResizeIsOne(c: Command, t: Tables, u: Tables, t': Tables, u': Tables)
    requires c.Resize? && WellFormed(t) && WellFormed(u) && Alike(t, u) && Edit(c, t, t') && Edit(c, u, u')
    ensures Alike(t', u')
  {
    hide WellFormed, MeaningOf, QuotaAllows, SameMembers, Grown, Sectors, Truncate;
    SameExtents(t, u);
    var was, sectors := Meaning(t)[c.index].extents, DivCeil(c.newSize, SECTOR_SIZE);
    if c.newSize != ByteSize(was) {
      var es :| Replaced(t, t', c.index, es) && Resizes(t, was, es, sectors);
      var fs :| Replaced(u, u', c.index, fs) && Resizes(u, was, fs, sectors);
      if sectors > Sectors(was) {
        GrownIsOne(t, u, was, es, fs, sectors - Sectors(was));
      }
      assert es == fs;
    }
  }

  /** A command has one effect on a table, whatever its layout. */
  lemma EditIsOne(c: Command, t: Tables, u: Tables, t': Tables, u': Tables)
    requires WellFormed(t) && WellFormed(u) && Alike(t, u) && Edit(c, t, t') && Edit(c, u, u')
    ensures Alike(t', u')
  {
    hide WellFormed, MeaningOf, AddStep, CreateStep, ResizeStep;
    match c {
      case Add(_, _, _, _, _, _) => AddIsOne(c, t, u, t', u');
      case Create(_, _, _, _, _, _, _) => CreateIsOne(c, t, u, t', u');
      case Resize(_, _, _, _) => ResizeIsOne(c, t, u, t', u');
      case _ =>
    }
  }

  // -------------------------------------------- no effect where it is refused

  lemma AddNotRefused(c: Command, t: Tables, u: Tables, t': Tables)
    requires c.Add? && WellFormed(t) && WellFormed(u) && Capped(u) && Alike(t, u) && Edit(c, t, t')
    ensures !Refuses(c, u)
  {
    hide MeaningOf, GroupLoad, FirstFit, SameMembers, NoneFits, Tiles, Placed, DevicesUsable;
    SameExtents(t, u);
    var e :| FirstFit(t, c.allowed, c.needed, e) && Appended(t, t', Logical(c.name, c.attributes, c.group, [e]))
             && QuotaAllows(Meaning(t'), t'.groups, c.group, c.force);
    var m := Logical(c.name, c.attributes, c.group, [e]);
    NoFirstFit(t, u, c.allowed, c.needed, e);
    assert e.numSectors == c.needed by {
      FirstFitLength(t, c.allowed, c.needed, e);
    }
    NewName(t, u, t', m);
    QuotaAfterAppend(Meaning(t), m);
  }

  lemma FirstFitLength(t: Tables, allowed: Option<seq<u32>>, needed: int, e: Extent)
    requires FirstFit(t, allowed, needed, e)
    ensures e.numSectors == needed
  {}

  /** An appended partition has a new name. */
  lemma NewName(t: Tables, u: Tables, t': Tables, m: Logical)
    requires WellFormed(t') && Meaning(t') == Meaning(t) + [m] && Meaning(t) == Meaning(u)
    ensures !NameTaken(u.partitions, m.name)
  {
    hide Tiles, Placed, DevicesUsable, GroupsValid;
    MeaningNames(t');
    MeaningNames(u);
    var n := |u.partitions|;
    assert |t'.partitions| == n + 1;
    forall i | 0 <= i < n ensures u.partitions[i].name != m.name {
      assert Meaning(t')[i] == Meaning(u)[i] && Meaning(t')[n] == m;
      assert t'.partitions[i].name != t'.partitions[n].name;
    }
  }

  lemma CreateNotRefused(c: Command, t: Tables, u: Tables, t': Tables)
    requires c.Create? && WellFormed(t) && WellFormed(u) && Capped(u) && Alike(t, u) && Edit(c, t, t')
    ensures !Refuses(c, u)
  {
    hide MeaningOf, GroupLoad, FirstOffered, SameMembers, NoneOffered, Tiles, Placed, DevicesUsable, UniqueNames,
      NameTaken, LimitExceeded;
    SameExtents(t, u);
    var m :| Appended(t.(groups := t'.groups), t', m) && m.name == c.name && m.attributes == c.attributes
             && IsFirstNamed(t'.groups, c.groupName, m.group) && CreatedExtents(c, t, m.extents)
             && (c.size > 0 ==> QuotaAllows(Meaning(t'), t'.groups, m.group, c.force));
    NewName(t, u, t', m);
    if c.size > 0 {
      var needed := DivCeil(c.size, SECTOR_SIZE);
      NoFirstOffered(t, u, c.split, needed, m.extents[0]);
      QuotaAfterAppend(Meaning(t), m);
      LimitOfGroup(t, t'.groups, c.groupName, c.groupSize, m.group, needed, c.force);
    }
  }

  lemma GrownHadRoom(t: Tables, u: Tables, was: seq<Extent>, es: seq<Extent>, extra: nat)
    requires SameMembers(t.extents, u.extents) && t.devices == u.devices && Grown(t, was, es, extra)
    ensures !CannotGrow(u, was, extra)
  {
    hide SameMembers, IsFit, RangeFree;
    if was == [] {
      var e :| es == [e] && IsNew(t, e, extra);
      SameHasFit(t.extents, u.extents, t.devices[e.targetSource], e.targetSource, extra);
    } else {
      var last := LastOf(was);
      SameFits(t.extents, u.extents, t.devices[last.targetSource], last.targetSource);
      if !RangeFree(t.extents, t.devices[last.targetSource], last.targetSource, End(last), extra) {
        var e :| es == was + [e] && IsNew(t, e, extra) && e.targetSource == last.targetSource;
        SameHasFit(t.extents, u.extents, t.devices[e.targetSource], e.targetSource, extra);
      }
    }
  }

  lemma ResizeNotRefused(c: Command, t: Tables, u: Tables, t': Tables)
    requires c.Resize? && WellFormed(t) && WellFormed(u) && Capped(u) && Alike(t, u) && Edit(c, t, t')
    ensures !Refuses(c, u)
  {
    hide WellFormed, MeaningOf, GroupLoad, SameMembers, Grown, CannotGrow, Sectors, Truncate;
    SameExtents(t, u);
    var m, sectors := Meaning(t)[c.index], DivCeil(c.newSize, SECTOR_SIZE);
    if c.newSize != ByteSize(m.extents) {
      var es :| Replaced(t, t', c.index, es) && Resizes(t, m.extents, es, sectors)
                && QuotaAllows(Meaning(t'), t'.groups, m.group, c.force);
      GroupLoadUpdate(Meaning(t), c.index, m.(extents := es), m.group);
      if sectors > Sectors(m.extents) {
        GrownHadRoom(t, u, m.extents, es, sectors - Sectors(m.extents));
      }
    }
  }

  /** A command that has an effect has no reason to refuse. */
  lemma EditNotRefused(c: Command, t: Tables, u: Tables, t': Tables)
    requires WellFormed(t) && WellFormed(u) && Capped(u) && Alike(t, u) && Edit(c, t, t')
    ensures !Refuses(c, u)
  {
    hide WellFormed, MeaningOf, AddStep, CreateStep, ResizeStep, NoneFits, OverQuota, NameTaken, ResizeRefused;
    MeaningNames(t);
    MeaningNames(u);
    match c {
      case Add(_, _, _, _, _, _) => AddNotRefused(c, t, u, t');
      case Create(_, _, _, _, _, _, _) => CreateNotRefused(c, t, u, t');
      case Resize(_, _, _, _) => ResizeNotRefused(c, t, u, t');
      case _ =>
    }
  }

  // ------------------------------------------------------------------- runs

  /** A command that can be committed is never declined, on any layout of the table. */
  lemma StepNotDeclined(w: Room, c: Command, t: Tables, u: Tables, t': Tables)
    requires WellFormed(t) && WellFormed(u) && Capped(u) && Alike(t, u) && Step(w, c, t, t')
    ensures !Declines(w, c, u)
  {
    hide WellFormed, Alike, Edit, Fits, Refuses;
    EditNotRefused(c, t, u, t');
    if u' :| Edit(c, u, u') && !Fits(w, u') {
      EditIsOne(c, t, u, t', u');
      EditKeepsForm(c, t, t');
      EditKeepsForm(c, u, u');
      RenderableAlike(w, t', u');
    }
  }

  /** Two runs of one command list from one table agree on every table they pass. */
  lemma {:induction false} RunDetermined(w: Room, commands: seq<Command>, tables: seq<Tables>, others: seq<Tables>,
                                         k: nat)
    requires Run(w, commands, tables) && Run(w, commands, others) && k < |tables| && Alike(tables[0], others[0])
    ensures Alike(tables[k], others[k])
  {
    hide WellFormed, Capped, Edit, Alike, Declines, Step;
    if k > 0 {
      RunDetermined(w, commands, tables, others, k - 1);
      assert Turn(w, commands[k - 1], tables[k - 1], tables[k]) && Turn(w, commands[k - 1], others[k - 1], others[k]);
      TurnDetermined(w, commands[k - 1], tables[k - 1], others[k - 1], tables[k], others[k]);
    }
  }

  lemma TurnDetermined(w: Room, c: Command, t: Tables, u: Tables, t': Tables, u': Tables)
    requires Alike(t, u) && Turn(w, c, t, t') && Turn(w, c, u, u')
    ensures Alike(t', u')
  {
    hide WellFormed, Capped, Edit, Fits, Declines, MeaningOf;
    if Step(w, c, t, t') {
      StepNotDeclined(w, c, t, u, t');
      EditIsOne(c, t, u, t', u');
    } else if Step(w, c, u, u') {
      StepNotDeclined(w, c, u, t, u');
    }
  }
}
