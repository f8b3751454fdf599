/**
 Streaming a partition (`reader/extent_stream.rs`, `reader/multiblock.rs`, the
 loops of `commands/read.rs`): a cursor over an extent chain, refilling buffers of
 any size, against the concatenation of the extents' bytes.
 */
module ExtentStream {
  import opened Base
  import opened Format
  import opened SparseImage

  /** The backing files: one image, or a primary image plus bound secondaries. */
  datatype Backing =
    | Single(image: Image)
    | Split(primary: Image, extra: map<u32, Image>)

  ghost predicate ValidBacking(backing: Backing) {
    match backing
    case Single(image) => ValidImage(image)
    case Split(primary, extra) => ValidImage(primary) && forall k :: k in extra ==> ValidImage(extra[k])
  }

  /** Byte `pos` of the file behind block device `source`; a single image serves every source. */
  function BackingByte(backing: Backing, source: u32, pos: int): Option<byte> {
    match backing
    case Single(image) => ByteAt(image, pos)
    case Split(primary, extra) =>
      if source == 0 then ByteAt(primary, pos)
      else if source in extra then ByteAt(extra[source], pos)
      else None
  }

  /** Byte `offset` of an extent: `None` when it cannot be read. */
  function ExtentByte(backing: Backing, e: Extent, offset: nat): Option<byte> {
    if e.targetType == TARGET_LINEAR then BackingByte(backing, e.targetSource, e.targetData * SECTOR_SIZE + offset)
    else if e.targetType == TARGET_ZERO then Some(0)
    else None
  }

  function ExtentBytes(backing: Backing, e: Extent): (s: seq<Option<byte>>)
    ensures |s| == e.numSectors * SECTOR_SIZE
  {
    seq(e.numSectors * SECTOR_SIZE, i requires 0 <= i => ExtentByte(backing, e, i))
  }

  /** The meaning of an extent chain: its extents' bytes, one after the other. */
  function Stream(backing: Backing, extents: seq<Extent>): (s: seq<Option<byte>>)
    ensures |s| == TotalBytes(extents)
  {
    if extents == [] then [] else ExtentBytes(backing, extents[0]) + Stream(backing, extents[1..])
  }

  function TotalBytes(extents: seq<Extent>): nat {
    if extents == [] then 0 else extents[0].numSectors * SECTOR_SIZE + TotalBytes(extents[1..])
  }

  /** Where the `k`-th extent starts in the stream. */
  function StartOf(extents: seq<Extent>, k: nat): nat
    requires k <= |extents|
  {
    if k == 0 then 0 else extents[0].numSectors * SECTOR_SIZE + StartOf(extents[1..], k - 1)
  }

  lemma {:induction false} StartNext(extents: seq<Extent>, k: nat)
    requires k < |extents|
    ensures StartOf(extents, k + 1) == StartOf(extents, k) + extents[k].numSectors * SECTOR_SIZE
    ensures StartOf(extents, k + 1) <= TotalBytes(extents)
  {
    if k == 0 {
      assert StartOf(extents[1..], 0) == 0;
    } else {
      StartNext(extents[1..], k - 1);
    }
  }

  lemma {:induction false} StartAtEnd(extents: seq<Extent>)
    ensures StartOf(extents, |extents|) == TotalBytes(extents)
  {
    if extents != [] {
      StartAtEnd(extents[1..]);
    }
  }

  /** A stream position inside an extent is that extent's byte. */
  lemma {:induction false} StreamAt(backing: Backing, extents: seq<Extent>, k: nat, offset: nat)
    requires k < |extents| && offset < extents[k].numSectors * SECTOR_SIZE
    ensures StartOf(extents, k) + offset < |Stream(backing, extents)|
    ensures Stream(backing, extents)[StartOf(extents, k) + offset] == ExtentByte(backing, extents[k], offset)
  {
    if k > 0 {
      StreamAt(backing, extents[1..], k - 1, offset);
    }
  }

  ghost predicate AllReadable(stream: seq<Option<byte>>, from: nat, to: nat) {
    to <= |stream| && forall k :: from <= k < to ==> stream[k].Some?
  }

  /** `out` is exactly the stretch of the stream that begins at `from`. */
  ghost predicate IsSlice(stream: seq<Option<byte>>, from: nat, out: seq<byte>) {
    from + |out| <= |stream| && forall k :: from <= k < from + |out| ==> stream[k] == Some(out[k - from])
  }

  lemma SliceJoin(stream: seq<Option<byte>>, from: nat, a: seq<byte>, b: seq<byte>)
    requires IsSlice(stream, from, a) && IsSlice(stream, from + |a|, b)
    ensures IsSlice(stream, from, a + b)
  {}

  lemma NothingYet(stream: seq<Option<byte>>, from: nat)
    requires from <= |stream|
    ensures AllReadable(stream, from, from) && IsSlice(stream, from, [])
  {}

  lemma ReadableJoin(stream: seq<Option<byte>>, from: nat, mid: nat, to: nat)
    requires AllReadable(stream, from, mid) && from <= mid <= to
    ensures AllReadable(stream, from, to) <==> AllReadable(stream, mid, to)
  {}

  lemma ReadableStops(stream: seq<Option<byte>>, from: nat, bad: nat, to: nat)
    requires !AllReadable(stream, from, bad) && from <= bad <= to && bad <= |stream|
    ensures !AllReadable(stream, from, to)
  {}

  method BackingReadAt(backing: Backing, source: u32, offset: u64, buffer: array<byte>, lo: nat, hi: nat)
    returns (r: Result<()>)
    requires ValidBacking(backing) && lo < hi <= buffer.Length <= U64_MAX
    modifies buffer
    ensures r.Ok? <==> forall k :: offset <= k < offset + (hi - lo) ==> BackingByte(backing, source, k).Some?
    ensures r.Ok? ==> forall k :: lo <= k < hi ==> BackingByte(backing, source, offset + (k - lo)) == Some(buffer[k])
    ensures forall k :: 0 <= k < buffer.Length && !(lo <= k < hi) ==> buffer[k] == old(buffer[k])
  {
    var img;
    match backing {
      case Single(image) => img := image;
      case Split(primary, extra) =>
        if source == 0 {
          img := primary;
        } else if source in extra {
          img := extra[source];
        } else {
          assert BackingByte(backing, source, offset).None?;
          return Err(NotFound);
        }
    }
    assert forall k :: BackingByte(backing, source, k) == ByteAt(img, k);
    BytesEndAtSize(img, offset + (hi - lo) - 1);
    r := ReadAt(img, offset, buffer, lo, hi);
    if r.Err? {
      assert !Readable(img, offset, hi - lo) || ByteAt(img, offset + (hi - lo) - 1).None?;
    }
  }

  lemma BytesEndAtSize(img: Image, pos: int)
    requires ValidImage(img)
    ensures ByteAt(img, pos).Some? ==> 0 <= pos < img.Size()
  {
    if img.Sparse? {
      ScanIsUnique(img.chunks, 0, img.size, pos);
    }
  }

  // ------------------------------------------------- what a reader counts

  /** The byte size of an extent, saturating. */
  function SizeOf(e: Extent): u64 {
    SaturatingMul(e.numSectors, SECTOR_SIZE)
  }

  /** The bytes a reader can deliver: the stream, except behind an extent whose byte size saturates. */
  function Seen(backing: Backing, extents: seq<Extent>): (s: seq<Option<byte>>)
    ensures |s| == SeenTotal(extents)
  {
    if extents == [] then [] else ExtentBytes(backing, extents[0])[..SizeOf(extents[0])] + Seen(backing, extents[1..])
  }

  function SeenTotal(extents: seq<Extent>): nat {
    if extents == [] then 0 else SizeOf(extents[0]) + SeenTotal(extents[1..])
  }

  function SeenStart(extents: seq<Extent>, k: nat): nat
    requires k <= |extents|
  {
    if k == 0 then 0 else SizeOf(extents[0]) + SeenStart(extents[1..], k - 1)
  }

  lemma {:induction false} SeenNext(extents: seq<Extent>, k: nat)
    requires k < |extents|
    ensures SeenStart(extents, k + 1) == SeenStart(extents, k) + SizeOf(extents[k])
    ensures SeenStart(extents, k + 1) <= SeenTotal(extents)
  {
    if k == 0 {
      assert SeenStart(extents[1..], 0) == 0;
    } else {
      SeenNext(extents[1..], k - 1);
    }
  }

  lemma {:induction false} SeenEnd(extents: seq<Extent>)
    ensures SeenStart(extents, |extents|) == SeenTotal(extents)
  {
    if extents != [] {
      SeenEnd(extents[1..]);
    }
  }

  lemma {:induction false} SeenAt(backing: Backing, extents: seq<Extent>, k: nat, offset: nat)
    requires k < |extents| && offset < SizeOf(extents[k])
    ensures SeenStart(extents, k) + offset < |Seen(backing, extents)|
    ensures Seen(backing, extents)[SeenStart(extents, k) + offset] == ExtentByte(backing, extents[k], offset)
  {
    hide ExtentByte;
    if k > 0 {
      SeenAt(backing, extents[1..], k - 1, offset);
    }
  }

  /** What a total of 64 bits can count of a stream. */
  function Counted(extents: seq<Extent>): u64 {
    Min(TotalBytes(extents), U64_MAX)
  }

  /** As far as 64 bits count, a reader sees the stream. */
  lemma {:induction false} SeenIsStream(backing: Backing, extents: seq<Extent>)
    ensures Min(SeenTotal(extents), U64_MAX) == Counted(extents)
    ensures forall k :: 0 <= k < Counted(extents) ==> Seen(backing, extents)[k] == Stream(backing, extents)[k]
  {
    if extents != [] {
      SeenIsStream(backing, extents[1..]);
      var head, n := ExtentBytes(backing, extents[0]), SizeOf(extents[0]);
      forall k | 0 <= k < Counted(extents) ensures Seen(backing, extents)[k] == Stream(backing, extents)[k] {
        if k < n {
          assert Seen(backing, extents)[k] == head[k] == Stream(backing, extents)[k];
        } else {
          assert Seen(backing, extents)[k] == Seen(backing, extents[1..])[k - n];
          assert Stream(backing, extents)[k] == Stream(backing, extents[1..])[k - n];
        }
      }
    }
  }

  /** So reading and delivering up to there is reading and delivering the stream. */
  lemma SeenSlices(backing: Backing, extents: seq<Extent>)
    ensures Counted(extents) <= SeenTotal(extents) && Counted(extents) <= TotalBytes(extents)
    ensures forall from: nat, to: nat :: to <= Counted(extents) ==>
              (AllReadable(Seen(backing, extents), from, to) <==> AllReadable(Stream(backing, extents), from, to))
    ensures forall from: nat, out: seq<byte> :: from + |out| <= Counted(extents) ==>
              (IsSlice(Seen(backing, extents), from, out) <==> IsSlice(Stream(backing, extents), from, out))
  {
    hide Seen, Stream, SeenTotal, TotalBytes;
    SeenIsStream(backing, extents);
  }

  /** One reader for both backings; the two reader types of the program differ in the store only. */
  class ExtentReader {
    const backing: Backing
    const extents: seq<Extent>
    var currentExtent: nat
    var currentOffset: u64
    const totalSize: u64
    var position: u64

    /** The stream position the cursor names; `position` counts it as far as 64 bits go. */
    ghost function Taken(): nat
      requires currentExtent <= |extents|
      reads this
    {
      SeenStart(extents, currentExtent) + currentOffset
    }

    ghost predicate Valid()
      reads this
    {
      && ValidBacking(backing)
      && totalSize == Counted(extents)
      && currentExtent <= |extents|
      && (if currentExtent < |extents| then currentOffset <= SizeOf(extents[currentExtent]) else currentOffset == 0)
      && position == Min(Taken(), U64_MAX)
    }

    constructor (backing: Backing, extents: seq<Extent>)
      requires ValidBacking(backing)
      ensures Valid() && currentExtent == 0 && Taken() == 0 && this.backing == backing && this.extents == extents
    {
      var total: u64 := 0;
      for i := 0 to |extents|
        invariant total == Min(SeenStart(extents, i), U64_MAX)
      {
        SeenNext(extents, i);
        total := SaturatingAdd(total, SaturatingMul(extents[i].numSectors, SECTOR_SIZE));
      }
      SeenEnd(extents);
      SeenIsStream(backing, extents);
      this.backing := backing;
      this.extents := extents;
      currentExtent, currentOffset, position := 0, 0, 0;
      totalSize := total;
    }

    /** The piece of the current extent that one loop step copies. */
    method ReadPiece(extent: Extent, count: nat, buf: array<byte>, written: nat) returns (r: Result<()>)
      requires Valid() && currentExtent < |extents| && extent == extents[currentExtent]
      requires count > 0 && currentOffset + count <= SizeOf(extent)
      requires written + count <= buf.Length <= U64_MAX
      modifies buf
      ensures r.Ok? <==> AllReadable(Seen(backing, extents), Taken(), Taken() + count)
      ensures r.Ok? ==> IsSlice(Seen(backing, extents), Taken(), buf[written..written + count])
      ensures forall k :: 0 <= k < buf.Length && !(written <= k < written + count) ==> buf[k] == old(buf[k])
    {
      hide Seen, SeenTotal, SeenStart, ValidBacking, BackingByte;
      ghost var stream, from := Seen(backing, extents), Taken();
      StretchOfExtent(count);
      if extent.targetType == TARGET_LINEAR {
        var physOffset := extent.targetData * SECTOR_SIZE + currentOffset;
        if physOffset > U64_MAX {
          NoByteThere(backing, extent.targetSource, physOffset);
          assert stream[from].None?;
          return Err(Invalid);
        }
        r := BackingReadAt(backing, extent.targetSource, physOffset, buf, written, written + count);
        assert forall k :: from <= k < from + count ==>
            stream[k] == BackingByte(backing, extent.targetSource, physOffset + (k - from));
        if r.Err? {
          var k :| physOffset <= k < physOffset + count && BackingByte(backing, extent.targetSource, k).None?;
          assert stream[from + (k - physOffset)].None?;
        }
      } else if extent.targetType == TARGET_ZERO {
        Store(buf, written, Zeros(count));
        r := Ok(());
      } else {
        assert stream[from].None?;
        return Err(Invalid);
      }
    }

    /** The next `count` stream bytes, while they stay inside the current extent. */
    lemma StretchOfExtent(count: nat)
      requires Valid() && currentExtent < |extents|
      requires currentOffset + count <= SizeOf(extents[currentExtent])
      ensures Taken() + count <= |Seen(backing, extents)|
      ensures forall k :: Taken() <= k < Taken() + count ==>
                Seen(backing, extents)[k] == ExtentByte(backing, extents[currentExtent], currentOffset + (k - Taken()))
    {
      hide Seen, SeenTotal, SeenStart, ValidBacking, ExtentByte, BackingByte;
      SeenNext(extents, currentExtent);
      forall k | Taken() <= k < Taken() + count
        ensures Seen(backing, extents)[k] == ExtentByte(backing, extents[currentExtent], currentOffset + (k - Taken()))
      {
        SeenAt(backing, extents, currentExtent, currentOffset + (k - Taken()));
      }
    }

    /** Moves past an exhausted or empty extent. */
    method NextExtent()
      requires Valid() && currentExtent < |extents|
      requires currentOffset == SizeOf(extents[currentExtent])
      modifies this
      ensures Valid() && Taken() == old(Taken()) && currentExtent == old(currentExtent) + 1
    {
      SeenNext(extents, currentExtent);
      currentExtent := currentExtent + 1;
      currentOffset := 0;
    }

    /** One step of the refill: the rest of the current extent, as far as the buffer holds. */
    method Step(buf: array<byte>, written: nat, len: nat) returns (r: Result<nat>)
      requires Valid() && currentExtent < |extents| && written < len <= buf.Length <= U64_MAX
      modifies this, buf
      ensures Valid() && old(currentExtent) <= currentExtent
      ensures r.Ok? ==> r.value <= len - written && Taken() == old(Taken()) + r.value
      ensures r.Ok? ==> r.value > 0 || currentExtent > old(currentExtent)
      ensures r.Ok? ==> AllReadable(Seen(backing, extents), old(Taken()), Taken())
      ensures r.Ok? ==> IsSlice(Seen(backing, extents), old(Taken()), buf[written..written + r.value])
      ensures r.Err? ==> exists to :: old(Taken()) <= to <= Min(old(Taken()) + len - written, SeenTotal(extents))
                                      && !AllReadable(Seen(backing, extents), old(Taken()), to)
      ensures forall k :: 0 <= k < buf.Length && !(written <= k < (if r.Ok? then written + r.value else len)) ==>
              buf[k] == old(buf[k])
    {
      hide Seen, SeenTotal, SeenStart, ValidBacking, AllReadable, IsSlice, Counted;
      var extent := extents[currentExtent];
      SeenNext(extents, currentExtent);
      NothingYet(Seen(backing, extents), Taken()) by { TakenBound(); }
      var extentSize := SaturatingMul(extent.numSectors, SECTOR_SIZE);
      var remainingInExtent := Max(extentSize - currentOffset, 0);
      if remainingInExtent == 0 {
        NextExtent();
        assert buf[written..written + 0] == [];
        return Ok(0);
      }
      var toRead := Min(remainingInExtent, len - written);
      var one := ReadPiece(extent, toRead, buf, written);
      if one.Err? {
        return Err(one.error);
      }
      currentOffset := currentOffset + toRead;
      position := SaturatingAdd(position, toRead);
      if currentOffset >= extentSize {
        NextExtent();
      }
      r := Ok(toRead);
    }

    /**
     One refill. It succeeds exactly when every byte it has to deliver can be read,
     and then delivers the next stretch of the stream: as much as the buffer holds
     or the stream has left, and nothing once the counted total is reached. So a
     non-empty buffer always makes progress before the end, and nothing else in the
     buffer changes.
     */
    method Read(buf: array<byte>, len: nat) returns (r: Result<nat>)
      requires Valid() && len <= buf.Length <= U64_MAX
      modifies this, buf
      ensures Valid()
      ensures var n := if old(position) >= totalSize then 0 else Min(len, SeenTotal(extents) - old(Taken()));
              && (r.Ok? <==> AllReadable(Seen(backing, extents), old(Taken()), old(Taken()) + n))
              && (r.Ok? ==> r.value == n && Taken() == old(Taken()) + n)
      ensures r.Ok? ==> IsSlice(Seen(backing, extents), old(Taken()), buf[..r.value])
      ensures forall k :: (if r.Ok? then r.value else len) <= k < buf.Length ==> buf[k] == old(buf[k])
    {
      hide Seen, SeenTotal, SeenStart, AllReadable, IsSlice, Counted, ValidBacking;
      ghost var stream, start := Seen(backing, extents), Taken();
      TakenBound();
      NothingYet(stream, start);
      assert buf[..0] == [];
      if len == 0 || position >= totalSize {
        return Ok(0);
      }
      hide Valid, Taken;
      var written := 0;
      while written < len && currentExtent < |extents|
        invariant Valid() && 0 <= written <= len && currentExtent <= |extents| && Taken() == start + written
        invariant AllReadable(stream, start, start + written)
        invariant IsSlice(stream, start, buf[..written])
        invariant forall k :: written <= k < buf.Length ==> buf[k] == old(buf[k])
        decreases |extents| - currentExtent, len - written
      {
        TakenBound();
        ghost var before, from := buf[..written], start + written;
        var one := Step(buf, written, len);
        TakenBound();
        if one.Err? {
          ghost var to :| from <= to <= Min(from + len - written, SeenTotal(extents)) && !AllReadable(stream, from, to);
          ReadableJoin(stream, start, from, to);
          ReadableStops(stream, start, to, start + Min(len, SeenTotal(extents) - start));
          return Err(one.error);
        }
        ReadableJoin(stream, start, from, from + one.value);
        SliceJoin(stream, start, before, buf[written..written + one.value]);
        assert buf[..written] == before;
        assert buf[..written + one.value] == buf[..written] + buf[written..written + one.value];
        written := written + one.value;
      }
      TakenBound();
      r := Ok(written);
    }

    lemma TakenBound()
      requires Valid()
      ensures currentExtent <= |extents| && Taken() <= SeenTotal(extents) == |Seen(backing, extents)|
      ensures currentExtent == |extents| ==> Taken() == SeenTotal(extents)
      ensures position == Min(Taken(), U64_MAX) && totalSize == Counted(extents)
    {
      if currentExtent < |extents| {
        SeenNext(extents, currentExtent);
      } else {
        SeenEnd(extents);
      }
    }
  }

  lemma NoByteThere(backing: Backing, source: u32, pos: int)
    requires ValidBacking(backing) && pos > U64_MAX
    ensures BackingByte(backing, source, pos).None?
  {
    match backing {
      case Single(image) => BytesEndAtSize(image, pos);
      case Split(primary, extra) =>
        BytesEndAtSize(primary, pos);
        if source in extra {
          BytesEndAtSize(extra[source], pos);
        }
    }
  }

  const STREAM_BUFFER: nat := 1024 * 1024
  const SKIP_BUFFER: nat := 65536

  /**
   Extraction emits the stream, as far as 64 bits count it, or stops with an error
   exactly when some byte of that cannot be read; what was emitted before is still a prefix.
   */
  method ExtractPartition(backing: Backing, extents: seq<Extent>) returns (r: Result<u64>, output: seq<byte>)
    requires ValidBacking(backing)
    ensures r.Ok? <==> AllReadable(Stream(backing, extents), 0, Counted(extents))
    ensures r.Ok? ==> r.value == |output| == Counted(extents)
    ensures IsSlice(Stream(backing, extents), 0, output)
  {
    hide Seen, Stream, SeenTotal, TotalBytes, AllReadable, IsSlice, Counted;
    var reader := new ExtentReader(backing, extents);
    var total := reader.totalSize;
    var buf := new byte[STREAM_BUFFER](_ => 0);
    var written: u64 := 0;
    output := [];
    ghost var stream := Seen(backing, extents);
    SeenSlices(backing, extents);
    NothingYet(stream, 0);
    while written < total
      invariant fresh(reader) && fresh(buf) && reader.Valid() && reader.backing == backing && reader.extents == extents
      invariant reader.totalSize == total == Counted(extents) && buf.Length == STREAM_BUFFER
      invariant reader.currentExtent <= |reader.extents| && written == |output| == reader.Taken() <= total
      invariant IsSlice(stream, 0, output) && AllReadable(stream, 0, written)
    {
      reader.TakenBound();
      var toRead := Min(total - written, buf.Length);
      var n := reader.Read(buf, toRead);
      ReadableJoin(stream, 0, written, written + toRead);
      if n.Err? {
        ReadableStops(stream, 0, written + toRead, total);
        return Err(n.error), output;
      }
      SliceJoin(stream, 0, output, buf[..n.value]);
      output := output + buf[..n.value];
      written := written + n.value;
    }
    r := Ok(written);
  }

  /**
   `read --skip --size`: the requested slice, clamped to the end of the partition as
   far as 64 bits count it. The skipped bytes are read too, so the command succeeds
   exactly when everything up to the end of the slice can be read; on an error it has
   emitted a prefix of the slice.
   */
  method ReadRange(backing: Backing, extents: seq<Extent>, skip: u64, size: Option<u64>)
    returns (r: Result<()>, output: seq<byte>)
    requires ValidBacking(backing)
    ensures var total := Counted(extents);
            var n := Min(if size.Some? then size.value else total, total - skip);
            if skip >= total then r.Ok? && output == []
            else
              && (r.Ok? <==> AllReadable(Stream(backing, extents), 0, skip + n))
              && (r.Ok? ==> |output| == n)
              && IsSlice(Stream(backing, extents), skip, output)
  {
    output := [];
    if extents == [] {
      return Ok(()), output;
    }
    hide Seen, Stream, SeenTotal, TotalBytes, Counted, AllReadable, IsSlice;
    var reader := new ExtentReader(backing, extents);
    var total := reader.totalSize;
    if skip >= total {
      return Ok(()), output;
    }
    var maxRead := Min(if size.Some? then size.value else total, total - skip);
    SeenSlices(backing, extents);
    NothingYet(Stream(backing, extents), skip);
    var skipped := SkipBytes(reader, skip, skip + maxRead);
    if skipped.Err? {
      return Err(skipped.error), output;
    }
    ReadableJoin(Seen(backing, extents), 0, skip, skip + maxRead);
    r, output := DeliverBytes(reader, skip, maxRead);
  }

  /** The output loop: the next `count` bytes, through the streaming buffer. */
  method DeliverBytes(reader: ExtentReader, ghost from: nat, count: u64) returns (r: Result<()>, output: seq<byte>)
    requires reader.Valid() && reader.Taken() == from && from + count <= reader.totalSize
    modifies reader
    ensures r.Ok? <==> AllReadable(Seen(reader.backing, reader.extents), from, from + count)
    ensures |output| <= count && (r.Ok? ==> |output| == count)
    ensures IsSlice(Seen(reader.backing, reader.extents), from, output)
  {
    hide Seen, Stream, SeenTotal, TotalBytes, AllReadable, IsSlice, Counted;
    ghost var stream := Seen(reader.backing, reader.extents);
    SeenSlices(reader.backing, reader.extents);
    reader.TakenBound();
    NothingYet(stream, from);
    output := [];
    var buf := new byte[STREAM_BUFFER](_ => 0);
    var written: u64 := 0;
    while written < count
      invariant fresh(buf) && buf.Length == STREAM_BUFFER && reader.Valid()
      invariant reader.currentExtent <= |reader.extents| && written == |output| <= count
                && reader.Taken() == from + written
      invariant IsSlice(stream, from, output) && AllReadable(stream, from, from + written)
    {
      reader.TakenBound();
      var toRead := Min(count - written, buf.Length);
      var n := reader.Read(buf, toRead);
      ReadableJoin(stream, from, from + written, from + written + toRead);
      if n.Err? {
        ReadableStops(stream, from, from + written + toRead, from + count);
        return Err(n.error), output;
      }
      SliceJoin(stream, from, output, buf[..n.value]);
      output := output + buf[..n.value];
      written := written + n.value;
    }
    r := Ok(());
  }

  /** The skip loop: advances a fresh reader by `skip` bytes, through a small buffer. */
  method SkipBytes(reader: ExtentReader, skip: u64, ghost end: nat) returns (r: Result<()>)
    requires reader.Valid() && reader.Taken() == 0 && skip <= end <= reader.totalSize
    modifies reader
    ensures reader.Valid()
    ensures r.Ok? ==> reader.Taken() == skip && AllReadable(Seen(reader.backing, reader.extents), 0, skip)
    ensures r.Err? ==> !AllReadable(Seen(reader.backing, reader.extents), 0, end)
  {
    hide Seen, Stream, AllReadable, IsSlice, Counted, SeenTotal, TotalBytes;
    ghost var stream := Seen(reader.backing, reader.extents);
    SeenSlices(reader.backing, reader.extents);
    NothingYet(stream, 0);
    if skip > 0 {
      var skipBuf := new byte[Min(skip, SKIP_BUFFER)](_ => 0);
      var remaining := skip;
      while remaining > 0
        invariant fresh(skipBuf) && skipBuf.Length == Min(skip, SKIP_BUFFER) && reader.Valid()
        invariant reader.currentExtent <= |reader.extents| && 0 <= remaining <= skip
                  && reader.Taken() == skip - remaining
        invariant AllReadable(stream, 0, reader.Taken())
      {
        reader.TakenBound();
        var toRead := Min(remaining, skipBuf.Length);
        ghost var from := reader.Taken();
        var n := reader.Read(skipBuf, toRead);
        ReadableJoin(stream, 0, from, from + toRead);
        if n.Err? {
          ReadableStops(stream, 0, from + toRead, end);
          return Err(n.error);
        }
        remaining := remaining - n.value;
      }
    }
    r := Ok(());
  }
}
