/**
 Payload bytes on the device files: streaming copies, and what a write into one
 extent means for the other extents of a table.
 */
module Payload {
  import opened Allocator
  import opened Base
  import opened ExtentStream
  import opened Format
  import opened MetadataCodec
  import opened MetadataStore
  import opened SparseImage
  import opened TableLaws

  const COPY_BUFFER: nat := 1024 * 1024

  /** Copies `len` bytes of `input` in 1 MiB pieces; the writes follow the file cursor. */
  method CopyPayloadSegment(file: File, physOffset: u64, input: seq<byte>, inputOffset: u64, len: u64)
    returns (r: Result<u64>)
    requires physOffset + len <= U64_MAX
    modifies file
    ensures r.Ok? <==> len == 0 || inputOffset + len <= |input|
    ensures r.Ok? && len > 0 ==>
            file.bytes == Overwrite(old(file.bytes), physOffset, input[inputOffset..inputOffset + len])
    ensures r.Ok? && len == 0 ==> file.bytes == old(file.bytes)
    ensures r.Ok? ==> r.value == len
  {
    hide Overwrite;
    var remaining: u64 := len;
    var written: u64 := 0;
    ghost var before := file.bytes;
    while remaining > 0
      invariant remaining + written == len
      invariant written > 0 ==> inputOffset + written <= |input|
      invariant written > 0 ==> file.bytes == Overwrite(before, physOffset, input[inputOffset..inputOffset + written])
      invariant written == 0 ==> file.bytes == before
      decreases remaining
    {
      var want := Min(remaining, COPY_BUFFER);
      var from := inputOffset + written;
      if from + want > |input| {
        return Err(Io);
      }
      var chunk := input[from..from + want];
      file.WriteAt(physOffset + written, chunk);
      if written > 0 {
        OverwriteJoin(before, physOffset, input[inputOffset..from], chunk);
        assert input[inputOffset..from] + chunk == input[inputOffset..from + want];
      }
      remaining := remaining - want;
      written := written + want;
    }
    r := Ok(written);
  }

  /** Bytes that fill the last sector. */
  function Padding(len: nat): (p: nat)
    ensures (len + p) % SECTOR_SIZE == 0 && p < SECTOR_SIZE
    ensures len + p == DivCeil(len, SECTOR_SIZE) * SECTOR_SIZE
  {
    (SECTOR_SIZE - len % SECTOR_SIZE) % SECTOR_SIZE
  }

  /** A payload as it lies in its extents: zero-padded to whole sectors. */
  function Padded(payload: seq<byte>): (b: seq<byte>)
    ensures |b| == DivCeil(|payload|, SECTOR_SIZE) * SECTOR_SIZE
  {
    payload + Zeros(Padding(|payload|))
  }

  /** Copies the first `len` bytes of the input and fills the last sector; fails exactly if the input is shorter. */
  method CopyPayloadStream(file: File, physOffset: u64, input: seq<byte>, len: u64) returns (r: Result<u64>)
    requires physOffset + DivCeil(len, SECTOR_SIZE) * SECTOR_SIZE <= U64_MAX
    modifies file
    ensures r.Ok? <==> len <= |input|
    ensures r.Ok? ==>
              && r.value == |Padded(input[..len])|
              && file.bytes == Overwrite(old(file.bytes), physOffset, Padded(input[..len]))
  {
    hide Overwrite;
    ghost var before := file.bytes;
    var copied := CopyPayloadSegment(file, physOffset, input, 0, len);
    if copied.Err? {
      return Err(copied.error);
    }
    assert input[0..len] == input[..len];
    var written := copied.value;
    var pad := (SECTOR_SIZE - written % SECTOR_SIZE) % SECTOR_SIZE;
    if pad > 0 {
      OverwriteJoin(before, physOffset, input[..len], Zeros(pad));
      file.WriteAt(physOffset + written, Zeros(pad));
      return Ok(written + pad);
    }
    assert input[..len] + Zeros(0) == input[..len];
    if len == 0 {
      OverwriteNothing(before, physOffset, input[..len]);
    }
    r := Ok(written);
  }

  lemma OverwriteNothing(file: seq<byte>, at: nat, data: seq<byte>)
    requires |data| == 0
    ensures Overwrite(file, at, data) == file
  {}

  // ----------------------------------------------------------- device files

  /** The image file of device 0 and the bound files of further devices. */
  datatype Disks = Disks(image: seq<byte>, extra: map<u32, seq<byte>>)

  function FileOf(d: Disks, source: u32): Option<seq<byte>> {
    if source == 0 then Some(d.image) else if source in d.extra then Some(d.extra[source]) else None
  }

  function WithFile(d: Disks, source: u32, bytes: seq<byte>): Disks {
    if source == 0 then d.(image := bytes) else d.(extra := d.extra[source := bytes])
  }

  function BackingOf(d: Disks): Backing {
    Split(Raw(d.image), map k | k in d.extra :: Raw(d.extra[k]))
  }

  lemma BackingBytes(d: Disks, source: u32, pos: int)
    ensures BackingByte(BackingOf(d), source, pos)
            == match FileOf(d, source) case None => None case Some(bytes) => ByteAt(Raw(bytes), pos)
  {}

  /** Bound files reach to the end of their devices. */
  ghost predicate FilesCover(d: Disks, devices: seq<BlockDevice>) {
    forall k :: 0 <= k < |devices| && k <= U32_MAX && FileOf(d, k).Some? ==>
      Limit(devices[k]) * SECTOR_SIZE <= |FileOf(d, k).value| <= U64_MAX
  }

  /** Both disks hold the same bytes where a linear extent lies. */
  ghost predicate SameBytes(d: Disks, d': Disks, e: Extent) {
    Linear(e) && e.numSectors > 0 ==>
      && (FileOf(d, e.targetSource).Some? <==> FileOf(d', e.targetSource).Some?)
      && (FileOf(d, e.targetSource).Some? ==>
            Agree(FileOf(d, e.targetSource).value, FileOf(d', e.targetSource).value,
                  e.targetData * SECTOR_SIZE, e.numSectors * SECTOR_SIZE))
  }

  lemma SameExtentBytes(d: Disks, d': Disks, e: Extent)
    requires SameBytes(d, d', e)
    ensures ExtentBytes(BackingOf(d), e) == ExtentBytes(BackingOf(d'), e)
  {
    forall i | 0 <= i < e.numSectors * SECTOR_SIZE
      ensures ExtentByte(BackingOf(d), e, i) == ExtentByte(BackingOf(d'), e, i)
    {
      if Linear(e) {
        var pos := e.targetData * SECTOR_SIZE + i;
        BackingBytes(d, e.targetSource, pos);
        BackingBytes(d', e.targetSource, pos);
        if FileOf(d, e.targetSource).Some? {
          var a, b := FileOf(d, e.targetSource).value, FileOf(d', e.targetSource).value;
          assert a[pos] == a[e.targetData * SECTOR_SIZE..][..e.numSectors * SECTOR_SIZE][i];
          AgreeWithin(a, b, e.targetData * SECTOR_SIZE, e.numSectors * SECTOR_SIZE, pos, 1);
          assert a[pos..pos + 1][0] == b[pos..pos + 1][0];
        }
      }
    }
  }

  /** Streams of unchanged extents are unchanged. */
  lemma {:induction false} SameStream(d: Disks, d': Disks, es: seq<Extent>)
    requires forall i :: 0 <= i < |es| ==> SameBytes(d, d', es[i])
    ensures Stream(BackingOf(d), es) == Stream(BackingOf(d'), es)
  {
    hide SameBytes, ExtentBytes, BackingOf;
    if es != [] {
      SameExtentBytes(d, d', es[0]);
      SameStream(d, d', es[1..]);
    }
  }

  // ------------------------------------------------------ one payload write

  function Somes(b: seq<byte>): seq<Option<byte>> {
    seq(|b|, i requires 0 <= i < |b| => Some(b[i]))
  }

  /** The files after a payload was written where the extent `e` lies. */
  function AfterPayload(d: Disks, e: Extent, payload: seq<byte>): Disks
    requires FileOf(d, e.targetSource).Some?
  {
    WithFile(d, e.targetSource, Overwrite(FileOf(d, e.targetSource).value, e.targetData * SECTOR_SIZE, Padded(payload)))
  }

  /** The extent reads back as the padded payload. */
  lemma PayloadReads(d: Disks, e: Extent, payload: seq<byte>)
    requires Linear(e) && e.numSectors == DivCeil(|payload|, SECTOR_SIZE) && FileOf(d, e.targetSource).Some?
    ensures ExtentBytes(BackingOf(AfterPayload(d, e, payload)), e) == Somes(Padded(payload))
  {
    hide Overwrite, Padded, BackingOf;
    var d' := AfterPayload(d, e, payload);
    OverwriteEffect(FileOf(d, e.targetSource).value, e.targetData * SECTOR_SIZE, Padded(payload));
    forall i | 0 <= i < e.numSectors * SECTOR_SIZE
      ensures ExtentByte(BackingOf(d'), e, i) == Some(Padded(payload)[i])
    {
      BackingBytes(d', e.targetSource, e.targetData * SECTOR_SIZE + i);
    }
  }

  /** Extents that share no sector with `e`, and lie in their file, keep their bytes. */
  lemma PayloadElsewhere(d: Disks, e: Extent, payload: seq<byte>, other: Extent)
    requires Linear(e) && e.numSectors == DivCeil(|payload|, SECTOR_SIZE) > 0 && FileOf(d, e.targetSource).Some?
    requires SameDevice(other, e) ==> Separate(other, e)
    requires Linear(other) && FileOf(d, other.targetSource).Some? ==>
               End(other) * SECTOR_SIZE <= |FileOf(d, other.targetSource).value|
    ensures SameBytes(d, AfterPayload(d, e, payload), other)
  {
    hide Overwrite, Padded, Agree;
    if SameDevice(other, e) && other.numSectors > 0 {
      OverwriteAgrees(FileOf(d, e.targetSource).value, e.targetData * SECTOR_SIZE, Padded(payload),
                      other.targetData * SECTOR_SIZE, other.numSectors * SECTOR_SIZE);
    } else if Linear(other) && FileOf(d, other.targetSource).Some? && other.numSectors > 0 {
      AgreesWithItself(FileOf(d, other.targetSource).value, other.targetData * SECTOR_SIZE,
                       other.numSectors * SECTOR_SIZE);
    }
  }

  lemma AgreesWithItself(a: seq<byte>, from: nat, len: nat)
    requires from + len <= |a|
    ensures Agree(a, a, from, len)
  {}

  lemma SameBytesTrans(a: Disks, b: Disks, c: Disks, e: Extent)
    requires SameBytes(a, b, e) && SameBytes(b, c, e)
    ensures SameBytes(a, c, e)
  {}

  /** With all extents on device 0, the image alone is read the same way as a set of files. */
  lemma {:induction false} SingleIsSplit(d: Disks, es: seq<Extent>)
    requires forall i :: 0 <= i < |es| && Linear(es[i]) ==> es[i].targetSource == 0
    ensures Stream(Single(Raw(d.image)), es) == Stream(BackingOf(d), es)
  {
    if es != [] {
      SingleIsSplit(d, es[1..]);
      assert ExtentBytes(Single(Raw(d.image)), es[0]) == ExtentBytes(BackingOf(d), es[0]);
    }
  }

  /** A stream of known bytes is readable throughout, and a full extraction of it is those bytes. */
  lemma ExtractsExactly(stream: seq<Option<byte>>, b: seq<byte>, out: seq<byte>)
    requires stream == Somes(b)
    ensures AllReadable(stream, 0, |b|)
    ensures IsSlice(stream, 0, out) && |out| == |stream| ==> out == b
  {
    if IsSlice(stream, 0, out) && |out| == |stream| {
      forall i | 0 <= i < |b| ensures out[i] == b[i] {
        assert stream[i] == Some(b[i]) && stream[i] == Some(out[i - 0]);
      }
    }
  }
}
