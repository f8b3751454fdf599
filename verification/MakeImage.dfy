/**
 Building a new image (`make`): zeroed device files, the geometry, the payload
 segments and the metadata slots; and what reading the result back yields.
 */
module MakeImage {
  import opened Alignment
  import opened Allocator
  import opened Arithmetic
  import opened Base
  import opened ExtentStream
  import opened Format
  import opened MakePlan
  import opened MetadataCodec
  import opened MetadataIsolation
  import opened MetadataReader
  import opened MetadataSlot
  import opened MetadataStore
  import opened Payload
  import opened SparseImage
  import opened TableEditor
  import opened TableLaws
  import opened TableModel
  import opened TableStreams

  // ------------------------------------------------------ payload segments

  /** The segment lies in its payload, and its place in its device file. */
  predicate JobFits(files: seq<seq<byte>>, j: Job) {
    && j.device < |files| && j.inputOffset + j.length <= |j.payload|
    && j.sector * SECTOR_SIZE + j.length <= |files[j.device]|
  }

  predicate SameSizes(files: seq<seq<byte>>, files': seq<seq<byte>>) {
    |files'| == |files| && forall k :: 0 <= k < |files| ==> |files'[k]| == |files[k]|
  }

  function AfterJob(files: seq<seq<byte>>, j: Job): (r: seq<seq<byte>>)
    requires JobFits(files, j)
    ensures SameSizes(files, r)
  {
    OverwriteEffect(files[j.device], j.sector * SECTOR_SIZE, j.payload[j.inputOffset..j.inputOffset + j.length]);
    files[j.device := Overwrite(files[j.device], j.sector * SECTOR_SIZE,
                                j.payload[j.inputOffset..j.inputOffset + j.length])]
  }

  function AfterJobs(files: seq<seq<byte>>, jobs: seq<Job>): (r: seq<seq<byte>>)
    requires forall i :: 0 <= i < |jobs| ==> JobFits(files, jobs[i])
    ensures SameSizes(files, r)
  {
    if jobs == [] then files
    else
      var last := jobs[|jobs| - 1];
      assert JobFits(files, last);
      AfterJob(AfterJobs(files, jobs[..|jobs| - 1]), last)
  }

  predicate Covers(j: Job, device: int, pos: int) {
    j.device == device && j.sector * SECTOR_SIZE <= pos < j.sector * SECTOR_SIZE + j.length
  }

  lemma JobByte(files: seq<seq<byte>>, j: Job, device: nat, pos: nat)
    requires JobFits(files, j) && device < |files| && pos < |files[device]|
    ensures AfterJob(files, j)[device][pos]
            == if Covers(j, device, pos) then j.payload[j.inputOffset + (pos - j.sector * SECTOR_SIZE)]
                else files[device][pos]
  {
    hide Overwrite;
    OverwriteEffect(files[j.device], j.sector * SECTOR_SIZE, j.payload[j.inputOffset..j.inputOffset + j.length]);
  }

  /** A byte no segment covers stays as it was. */
  lemma {:induction false} UncoveredByte(files: seq<seq<byte>>, jobs: seq<Job>, device: nat, pos: nat)
    requires forall i :: 0 <= i < |jobs| ==> JobFits(files, jobs[i])
    requires device < |files| && pos < |files[device]|
    requires forall i :: 0 <= i < |jobs| ==> !Covers(jobs[i], device, pos)
    ensures AfterJobs(files, jobs)[device][pos] == files[device][pos]
  {
    hide AfterJob, Covers;
    if jobs != [] {
      var n := |jobs| - 1;
      UncoveredByte(files, jobs[..n], device, pos);
      JobByte(AfterJobs(files, jobs[..n]), jobs[n], device, pos);
    }
  }

  /** A byte exactly one segment covers comes from that segment. */
  lemma {:induction false} CoveredByte(files: seq<seq<byte>>, jobs: seq<Job>, k: nat, pos: nat)
    requires forall i :: 0 <= i < |jobs| ==> JobFits(files, jobs[i])
    requires k < |jobs| && Covers(jobs[k], jobs[k].device, pos)
    requires forall i :: 0 <= i < |jobs| && i != k ==> !Covers(jobs[i], jobs[k].device, pos)
    ensures pos < |AfterJobs(files, jobs)[jobs[k].device]|
    ensures AfterJobs(files, jobs)[jobs[k].device][pos]
            == jobs[k].payload[jobs[k].inputOffset + (pos - jobs[k].sector * SECTOR_SIZE)]
  {
    hide AfterJob;
    var n := |jobs| - 1;
    JobByte(AfterJobs(files, jobs[..n]), jobs[n], jobs[k].device, pos);
    if k < n {
      CoveredByte(files, jobs[..n], k, pos);
    }
  }

  /** Device files of the declared sizes, zero wherever an extent may lie. */
  ghost predicate Blank(files: seq<seq<byte>>, devices: seq<BlockDevice>) {
    && |files| == |devices|
    && (forall k :: 0 <= k < |files| ==> |files[k]| == devices[k].size)
    && (forall k, p :: 0 <= k < |files| && devices[k].firstLogicalSector * SECTOR_SIZE <= p < |files[k]| ==>
        files[k][p] == 0)
  }

  /** Segments of placed extents fit their files. */
  lemma FollowersFit(files: seq<seq<byte>>, devices: seq<BlockDevice>, extents: seq<Extent>, jobs: seq<Job>)
    requires |files| == |devices| && forall k :: 0 <= k < |files| ==> |files[k]| == devices[k].size
    requires Placed(extents, devices) && Follow(jobs, extents)
    ensures forall i :: 0 <= i < |jobs| ==> JobFits(files, jobs[i])
  {
    forall i | 0 <= i < |jobs| ensures JobFits(files, jobs[i]) {
      assert InDevice(extents[i], devices);
    }
  }

  /** Every byte of every extent: its payload segment, then zeros. */
  lemma ExtentLanded(files: seq<seq<byte>>, devices: seq<BlockDevice>, extents: seq<Extent>, jobs: seq<Job>, i: nat,
                     p: nat)
    requires Blank(files, devices) && Placed(extents, devices) && Follow(jobs, extents)
    requires i < |extents| && p < extents[i].numSectors * SECTOR_SIZE
    ensures forall k :: 0 <= k < |jobs| ==> JobFits(files, jobs[k])
    ensures var e, after := extents[i], AfterJobs(files, jobs);
            && e.targetSource < |after| && e.targetData * SECTOR_SIZE + p < |after[e.targetSource]|
            && after[e.targetSource][e.targetData * SECTOR_SIZE + p]
               == if p < jobs[i].length then jobs[i].payload[jobs[i].inputOffset + p] else 0
  {
    hide AfterJobs, JobFits;
    FollowersFit(files, devices, extents, jobs);
    var e := extents[i];
    var pos := e.targetData * SECTOR_SIZE + p;
    assert InDevice(e, devices);
    forall k | 0 <= k < |jobs| && k != i ensures !Covers(jobs[k], e.targetSource, pos) {
      if jobs[k].device == e.targetSource {
        assert SameDevice(extents[k], e);
        assert Separate(extents[k], e);
      }
    }
    if p < jobs[i].length {
      CoveredByte(files, jobs, i, pos);
    } else {
      UncoveredByte(files, jobs, e.targetSource, pos);
    }
  }

  /** No payload byte lands in front of a device's first allocatable sector. */
  lemma PayloadStaysBehind(files: seq<seq<byte>>, devices: seq<BlockDevice>, extents: seq<Extent>, jobs: seq<Job>,
                           device: nat, pos: nat)
    requires |files| == |devices| && forall k :: 0 <= k < |files| ==> |files[k]| == devices[k].size
    requires Placed(extents, devices) && Follow(jobs, extents)
    requires device < |files| && pos < |files[device]| && pos < devices[device].firstLogicalSector * SECTOR_SIZE
    ensures forall k :: 0 <= k < |jobs| ==> JobFits(files, jobs[k])
    ensures AfterJobs(files, jobs)[device][pos] == files[device][pos]
  {
    FollowersFit(files, devices, extents, jobs);
    forall i | 0 <= i < |jobs| ensures !Covers(jobs[i], device, pos) {
      assert InDevice(extents[i], devices);
    }
    UncoveredByte(files, jobs, device, pos);
  }

  // -------------------------------------------------------- metadata slots

  function WithGeometry(disk: seq<byte>, blob: seq<byte>): seq<byte> {
    Overwrite(Overwrite(disk, GEOMETRY_PRIMARY_OFFSET, blob), GEOMETRY_BACKUP_OFFSET, blob)
  }

  /** Both copies of every target slot, one slot after the other. */
  function AfterSlots(disk: seq<byte>, g: Geometry, slots: seq<u64>, blob: seq<byte>): seq<byte> {
    if slots == [] then disk
    else SlotAfterBytes(AfterSlots(disk, g, slots[..|slots| - 1], blob), g, slots[|slots| - 1], blob, 2 * |blob|)
  }

  ghost predicate SlotsExist(g: Geometry, slots: seq<u64>) {
    forall i :: 0 <= i < |slots| ==> slots[i] < g.metadataSlotCount
  }

  predicate InSlotArea(g: Geometry, pos: int) {
    METADATA_BASE_OFFSET <= pos < MetadataEnd(g.metadataSlotCount, g.metadataMaxSize)
  }

  predicate InCopy(g: Geometry, i: nat, pos: int) {
    CopyBase(i, g.metadataMaxSize) <= pos < CopyBase(i, g.metadataMaxSize) + g.metadataMaxSize
  }

  /** A byte of one of the copies the target slots are written to. */
  ghost predicate InTargetCopy(g: Geometry, slots: seq<u64>, pos: int) {
    exists s: u64 :: s in slots && (InCopy(g, s, pos) || InCopy(g, g.metadataSlotCount + s, pos))
  }

  lemma SlotWrittenByte(disk: seq<byte>, g: Geometry, slot: nat, blob: seq<byte>, pos: nat)
    requires GeometryInRange(g) && slot < g.metadataSlotCount && |blob| == g.metadataMaxSize
    requires pos < |disk| && !InCopy(g, slot, pos) && !InCopy(g, g.metadataSlotCount + slot, pos)
    ensures var after := SlotAfterBytes(disk, g, slot, blob, 2 * |blob|); pos < |after| && after[pos] == disk[pos]
  {
    hide SlotAfterBytes, CopyBase;
    UpdateConfined(disk, g, slot, blob, 2 * |blob|, pos, 1);
    var after := SlotAfterBytes(disk, g, slot, blob, 2 * |blob|);
    assert disk[pos..pos + 1][0] == after[pos..pos + 1][0];
  }

  /** Writing the slots changes their copies alone. */
  lemma {:induction false} SlotsConfined(disk: seq<byte>, g: Geometry, slots: seq<u64>, blob: seq<byte>)
    requires GeometryInRange(g) && SlotsExist(g, slots) && |blob| == g.metadataMaxSize
    requires MetadataEnd(g.metadataSlotCount, g.metadataMaxSize) <= |disk|
    ensures |AfterSlots(disk, g, slots, blob)| == |disk|
    ensures forall p :: 0 <= p < |disk| && !InTargetCopy(g, slots, p) ==> AfterSlots(disk, g, slots, blob)[p] == disk[p]
  {
    hide SlotAfterBytes, InCopy, MetadataEnd;
    if slots != [] {
      var n := |slots| - 1;
      var before := AfterSlots(disk, g, slots[..n], blob);
      SlotsConfined(disk, g, slots[..n], blob);
      PrimaryComplete(before, g, slots[n], blob, 2 * |blob|);
      forall p | 0 <= p < |disk| && !InTargetCopy(g, slots, p) ensures AfterSlots(disk, g, slots, blob)[p] == disk[p] {
        assert slots[n] in slots && forall s :: s in slots[..n] ==> s in slots;
        SlotWrittenByte(before, g, slots[n], blob, p);
      }
    }
  }

  /** All copies lie in the slot area. */
  lemma CopiesInArea(g: Geometry, slots: seq<u64>, pos: int)
    requires GeometryInRange(g) && SlotsExist(g, slots) && InTargetCopy(g, slots, pos)
    ensures InSlotArea(g, pos)
  {
    hide CopyBase, MetadataEnd;
    var s: u64 :| s in slots && (InCopy(g, s, pos) || InCopy(g, g.metadataSlotCount + s, pos));
    var i := if InCopy(g, s, pos) then s else g.metadataSlotCount + s;
    assert InCopy(g, i, pos);
    CopyInArea(g, i);
    CopyPastBase(i, g.metadataMaxSize);
  }

  /** Writing one slot keeps the copies of another. */
  lemma CopySurvives(disk: seq<byte>, g: Geometry, last: u64, blob: seq<byte>, s: u64, i: nat)
    requires GeometryInRange(g) && last < g.metadataSlotCount && s < g.metadataSlotCount && s != last
    requires |blob| == g.metadataMaxSize && (i == s || i == g.metadataSlotCount + s)
    requires At(disk, CopyBase(i, g.metadataMaxSize), blob)
    ensures At(SlotAfterBytes(disk, g, last, blob, 2 * |blob|), CopyBase(i, g.metadataMaxSize), blob)
  {
    hide SlotAfterBytes, CopyBase;
    SlotsIsolated(s, last, g.metadataSlotCount, g.metadataMaxSize);
    UpdateConfined(disk, g, last, blob, 2 * |blob|, CopyBase(i, g.metadataMaxSize), g.metadataMaxSize);
  }

  /** Both copies of every target slot end up complete. */
  lemma {:induction false} SlotsComplete(disk: seq<byte>, g: Geometry, slots: seq<u64>, blob: seq<byte>, s: u64)
    requires GeometryInRange(g) && SlotsExist(g, slots) && |blob| == g.metadataMaxSize && s in slots
    requires MetadataEnd(g.metadataSlotCount, g.metadataMaxSize) <= |disk|
    ensures At(AfterSlots(disk, g, slots, blob), CopyBase(s, g.metadataMaxSize), blob)
    ensures At(AfterSlots(disk, g, slots, blob), CopyBase(g.metadataSlotCount + s, g.metadataMaxSize), blob)
  {
    hide SlotAfterBytes, CopyBase, MetadataEnd, At;
    var n := |slots| - 1;
    var before, last := AfterSlots(disk, g, slots[..n], blob), slots[n];
    SlotsConfined(disk, g, slots[..n], blob);
    if s == last {
      BothCopiesWritten(before, g, last, blob);
    } else {
      SlotsComplete(disk, g, slots[..n], blob, s);
      CopySurvives(before, g, last, blob, s, s);
      CopySurvives(before, g, last, blob, s, g.metadataSlotCount + s);
    }
  }

  // --------------------------------------------------------- the new image

  const NO_TABLE := TableDescriptor(0, 0, 0)

  /** The header of a new slot: version 10.2, 256 bytes; rendering fills in the tables. */
  const NEW_HEADER := MetadataHeader(10, 2, 256, 0, NO_TABLE, NO_TABLE, NO_TABLE, NO_TABLE)

  /** What a build has decided before it writes. */
  datatype Layout = Layout(geometry: Geometry, tables: Tables, jobs: seq<Job>, slots: seq<u64>)

  function MetaEnd(l: Layout): nat {
    MetadataEnd(l.geometry.metadataSlotCount, l.geometry.metadataMaxSize)
  }

  /** Where payload may first be placed on device 0. */
  function PayloadStart(l: Layout): nat
    requires l.tables.devices != []
  {
    l.tables.devices[0].firstLogicalSector * SECTOR_SIZE
  }

  /** Device 0 starts behind the metadata area, except for less than one sector of it. */
  ghost predicate Laid(l: Layout) {
    && GeometryInRange(l.geometry) && SlotsExist(l.geometry, l.slots)
    && l.tables.devices != [] && MetaEnd(l) <= l.tables.devices[0].size
    && MetaEnd(l) < PayloadStart(l) + SECTOR_SIZE
    && Placed(l.tables.extents, l.tables.devices) && Follow(l.jobs, l.tables.extents)
  }

  function BlankFiles(devices: seq<BlockDevice>): (r: seq<seq<byte>>)
    ensures |r| == |devices| && forall k :: 0 <= k < |r| ==> r[k] == Zeros(devices[k].size)
  {
    seq(|devices|, k requires 0 <= k < |devices| => Zeros(devices[k].size))
  }

  function GeometryWritten(hash: Hash, l: Layout): (r: seq<seq<byte>>)
    requires l.tables.devices != []
    ensures |r| == |l.tables.devices|
  {
    var blank := BlankFiles(l.tables.devices);
    blank[0 := WithGeometry(blank[0], SealedGeometry(hash, l.geometry))]
  }

  /** Geometry lies in front of the slots, inside the metadata area; everything else is still zero. */
  lemma GeometryConfined(hash: Hash, l: Layout)
    requires Laid(l)
    ensures var files := GeometryWritten(hash, l);
            && (forall k :: 0 <= k < |files| ==> |files[k]| == l.tables.devices[k].size)
            && (forall k, p :: 0 <= k < |files| && 0 <= p < |files[k]| && (k > 0 || METADATA_BASE_OFFSET <= p) ==>
                files[k][p] == 0)
            && At(files[0], GEOMETRY_PRIMARY_OFFSET, SealedGeometry(hash, l.geometry))
            && At(files[0], GEOMETRY_BACKUP_OFFSET, SealedGeometry(hash, l.geometry))
    ensures METADATA_BASE_OFFSET <= MetaEnd(l)
  {
    hide SealedGeometry, Overwrite, Placed, Follow;
    var blank, blob := BlankFiles(l.tables.devices), SealedGeometry(hash, l.geometry);
    OverwriteEffect(blank[0], GEOMETRY_PRIMARY_OFFSET, blob);
    OverwriteEffect(Overwrite(blank[0], GEOMETRY_PRIMARY_OFFSET, blob), GEOMETRY_BACKUP_OFFSET, blob);
  }

  /** The device files a build leaves behind. */
  ghost function FinalFiles(hash: Hash, l: Layout): (r: seq<seq<byte>>)
    requires Laid(l) && Renderable(NEW_HEADER, l.tables, l.geometry.metadataMaxSize)
    ensures |r| == |l.tables.devices|
  {
    var files := GeometryWritten(hash, l);
    GeometryConfined(hash, l);
    FollowersFit(files, l.tables.devices, l.tables.extents, l.jobs);
    var filled := AfterJobs(files, l.jobs);
    filled[0 := AfterSlots(filled[0], l.geometry, l.slots,
                           SlotBytes(hash, NEW_HEADER, l.tables, l.geometry.metadataMaxSize))]
  }

  // ------------------------------------------------------------ the command

  ghost predicate Hold(handles: seq<File>, files: seq<seq<byte>>)
    reads handles
  {
    && |handles| == |files|
    && (forall i :: 0 <= i < |handles| ==> handles[i].bytes == files[i])
    && (forall i, j :: 0 <= i < |handles| && 0 <= j < |handles| && i != j ==> handles[i] != handles[j])
  }

  /** Files of the device sizes, all zero. */
  method CreateFiles(devices: seq<BlockDevice>) returns (handles: seq<File>)
    ensures forall i :: 0 <= i < |handles| ==> fresh(handles[i])
    ensures Hold(handles, BlankFiles(devices))
  {
    handles := [];
    for i := 0 to |devices|
      invariant |handles| == i
      invariant forall k :: 0 <= k < i ==> fresh(handles[k]) && handles[k].bytes == Zeros(devices[k].size)
      invariant forall j, k :: 0 <= j < i && 0 <= k < i && j != k ==> handles[j] != handles[k]
    {
      var f := new File(Zeros(devices[i].size));
      handles := handles + [f];
    }
  }

  /** One payload segment. */
  method WriteJob(handles: seq<File>, j: Job, ghost files: seq<seq<byte>>) returns (r: Result<()>)
    requires Hold(handles, files) && JobFits(files, j) && forall k :: 0 <= k < |files| ==> |files[k]| <= U64_MAX
    modifies handles
    ensures r.Ok? && Hold(handles, AfterJob(files, j))
  {
    hide Overwrite;
    if j.device >= |handles| {
      return Err(Invalid);
    }
    var copied := CopyPayloadSegment(handles[j.device], SaturatingMul(j.sector, SECTOR_SIZE), j.payload, j.inputOffset,
                                     j.length);
    if copied.Err? {
      return Err(Io);
    }
    if j.length == 0 {
      OverwriteNothing(files[j.device], j.sector * SECTOR_SIZE, j.payload[j.inputOffset..j.inputOffset + j.length]);
    }
    r := Ok(());
  }

  /** The payload segments, in planning order. */
  method WriteJobs(handles: seq<File>, jobs: seq<Job>, ghost files: seq<seq<byte>>) returns (r: Result<()>)
    requires Hold(handles, files) && forall i :: 0 <= i < |jobs| ==> JobFits(files, jobs[i])
    requires forall k :: 0 <= k < |files| ==> |files[k]| <= U64_MAX
    modifies handles
    ensures r.Ok? && Hold(handles, AfterJobs(files, jobs))
  {
    hide AfterJob, Hold;
    for i := 0 to |jobs|
      invariant Hold(handles, AfterJobs(files, jobs[..i]))
    {
      assert jobs[..i + 1][..i] == jobs[..i];
      assert JobFits(files, jobs[i]);
      var written := WriteJob(handles, jobs[i], AfterJobs(files, jobs[..i]));
      if written.Err? {
        return Err(Io);
      }
    }
    assert jobs[..|jobs|] == jobs;
    r := Ok(());
  }

  /** The rendered slot goes to both copies of every target slot. */
  method WriteSlots(file: File, g: Geometry, slots: seq<u64>, blob: seq<byte>) returns (r: Result<()>)
    requires GeometryInRange(g) && SlotsExist(g, slots) && |blob| == g.metadataMaxSize
    modifies file
    ensures r.Ok? && file.bytes == AfterSlots(old(file.bytes), g, slots, blob)
  {
    hide CopyBase, MetadataEnd, Overwrite;
    for i := 0 to |slots|
      invariant file.bytes == AfterSlots(old(file.bytes), g, slots[..i], blob)
    {
      OffsetsFit(g);
      SlotRegions(slots[i], g.metadataSlotCount, g.metadataMaxSize);
      var primary := PrimaryOffset(slots[i], g.metadataMaxSize);
      var backup := BackupOffset(slots[i], g.metadataSlotCount, g.metadataMaxSize);
      if primary.None? || backup.None? {
        return Err(Invalid);
      }
      file.WriteAt(primary.value, blob);
      file.WriteAt(backup.value, blob);
      assert slots[..i + 1][..i] == slots[..i];
      assert blob[..|blob|] == blob;
    }
    assert slots[..|slots|] == slots;
    r := Ok(());
  }

  /** Writes everything the layout decided; only unrenderable tables stop it. */
  method WriteFiles(hash: Hash, l: Layout) returns (r: Result<seq<seq<byte>>>)
    requires Laid(l)
    ensures r.Ok? <==> Renderable(NEW_HEADER, l.tables, l.geometry.metadataMaxSize)
    ensures r.Ok? ==> r.value == FinalFiles(hash, l)
  {
    hide Overwrite, SealedGeometry, SlotBytes, Renderable, AfterSlots, AfterJobs, MetadataEnd, Placed, Follow, JobFits;
    var handles := CreateFiles(l.tables.devices);
    var g := l.geometry;
    var geometry := RenderGeometry(hash, g.metadataMaxSize, g.metadataSlotCount, g.logicalBlockSize);
    if geometry.Err? {
      return Err(Invalid);
    }
    handles[0].WriteAt(GEOMETRY_PRIMARY_OFFSET, geometry.value);
    handles[0].WriteAt(GEOMETRY_BACKUP_OFFSET, geometry.value);
    ghost var files := GeometryWritten(hash, l);
    GeometryConfined(hash, l);
    FollowersFit(files, l.tables.devices, l.tables.extents, l.jobs);
    var written := WriteJobs(handles, l.jobs, files);
    var blob := RenderSlot(hash, NEW_HEADER, l.tables, g.metadataMaxSize);
    if blob.Err? {
      return Err(blob.error);
    }
    var slots := WriteSlots(handles[0], g, l.slots, blob.value);
    r := Ok(seq(|handles|, i requires 0 <= i < |handles| reads handles => handles[i].bytes));
  }
}
