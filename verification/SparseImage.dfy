/**
 Images as byte sources (`reader/source.rs`): raw files and Android sparse files
 (AOSP libsparse `sparse_format.h`), opened once and read at random offsets.
 */
module SparseImage {
  import opened Arithmetic
  import opened Base

  const SPARSE_MAGIC: u32 := 0xed26_ff3a
  const CHUNK_RAW: u16 := 0xcac1
  const CHUNK_FILL: u16 := 0xcac2
  const CHUNK_DONT_CARE: u16 := 0xcac3
  const CHUNK_CRC: u16 := 0xcac4
  const MAX_CHUNKS: int := 1_000_000

  type FillValue = v: seq<byte> | |v| == 4 witness [0, 0, 0, 0]

  datatype Chunk = Chunk(kind: u16, logicalStart: u64, logicalLen: u64, fileOffset: u64, fillValue: FillValue)

  datatype Image =
    | Raw(bytes: seq<byte>)
    | Sparse(file: seq<byte>, blockSize: u64, size: u64, chunks: seq<Chunk>)
  {
    function Size(): nat {
      if Raw? then |bytes| else size
    }
  }

  // -------------------------------------------------------------- parsing

  /** `len` bytes at `pos`, or an I/O error past the end (`read_exact`). */
  function ReadExact(file: seq<byte>, pos: nat, len: nat): (r: Result<seq<byte>>)
    ensures r.Ok? ==> |r.value| == len
  {
    if pos + len <= |file| then Ok(file[pos..pos + len]) else Err(Io)
  }

  datatype ParsedChunk = ParsedChunk(chunk: Chunk, nextPos: nat)

  /**
   One chunk record at `pos`. Seeking past the data of a RAW chunk is not checked
   against the file end, so truncated data is only noticed when it is read.
   */
  function ParseChunk(file: seq<byte>, pos: nat, headerSize: u16, blockSize: u32,
                      logicalStart: u64): (r: Result<ParsedChunk>)
    requires 12 <= headerSize
    ensures r.Ok? ==>
              && r.value.chunk.logicalStart == logicalStart
              && logicalStart + r.value.chunk.logicalLen <= U64_MAX
              && r.value.chunk.kind in {CHUNK_RAW, CHUNK_FILL, CHUNK_DONT_CARE, CHUNK_CRC}
              && (blockSize > 0 ==> r.value.chunk.logicalLen % blockSize == 0)
  {
    if headerSize > 1024 then Err(Invalid) else
    var header :- ReadExact(file, pos, headerSize);
    var kind: u16 := U16Of(header[0..2]);
    var chunkBlocks: u32 := U32Of(header[4..8]);
    var totalSize: u32 := U32Of(header[8..12]);
    var logicalLen := chunkBlocks * blockSize;
    if logicalLen > U64_MAX then Err(Invalid) else
    if totalSize < headerSize then Err(Invalid) else
    var dataSize := totalSize - headerSize;
    var fileOffset := pos + headerSize;
    if fileOffset > U64_MAX then Err(Invalid) else
    if kind == CHUNK_FILL && dataSize != 4 then Err(Invalid) else
    var fillValue :- (if kind == CHUNK_FILL then ReadExact(file, fileOffset, 4) else Ok([0, 0, 0, 0]));
    if kind == CHUNK_RAW && dataSize != logicalLen then Err(Invalid) else
    if kind == CHUNK_DONT_CARE && dataSize != 0 then Err(Invalid) else
    if kind == CHUNK_CRC && dataSize != 0 && dataSize != 4 then Err(Invalid) else
    if kind !in {CHUNK_RAW, CHUNK_FILL, CHUNK_DONT_CARE, CHUNK_CRC} then Err(Invalid) else
    if logicalStart + logicalLen > U64_MAX then Err(Invalid) else
    MultipleMod(chunkBlocks, Max(blockSize, 1));
    Ok(ParsedChunk(Chunk(kind, logicalStart, logicalLen, fileOffset, fillValue), fileOffset + dataSize))
  }

  /** The `count` chunk records from `pos` on, and the logical end they reach. */
  function ParseChunks(file: seq<byte>, pos: nat, count: nat, headerSize: u16, blockSize: u32, logicalStart: u64)
    : (r: Result<(seq<Chunk>, u64)>)
    requires 12 <= headerSize
    decreases count
  {
    if count == 0 then Ok(([], logicalStart)) else
    var first :- ParseChunk(file, pos, headerSize, blockSize, logicalStart);
    var rest :- ParseChunks(file, first.nextPos, count - 1, headerSize, blockSize,
                            logicalStart + first.chunk.logicalLen);
    Ok(([first.chunk] + rest.0, rest.1))
  }

  /** A whole sparse file. */
  function ParsedSparse(file: seq<byte>): Result<Image> {
    if |file| < 28 then Err(Io) else
    var major: u16 := U16Of(file[4..6]);
    var fileHeaderSize: u16 := U16Of(file[8..10]);
    var headerSize: u16 := U16Of(file[10..12]);
    var blockSize: u32 := U32Of(file[12..16]);
    var totalBlocks: u32 := U32Of(file[16..20]);
    var totalChunks: u32 := U32Of(file[20..24]);
    if major != 1 || fileHeaderSize < 28 || headerSize < 12 || blockSize == 0 then Err(Invalid) else
    if totalChunks > MAX_CHUNKS then Err(Invalid) else
    var parsed :- ParseChunks(file, fileHeaderSize, totalChunks, headerSize, blockSize, 0);
    if totalBlocks * blockSize > U64_MAX then Err(Invalid) else
    if parsed.1 != totalBlocks * blockSize then Err(Invalid) else
    Ok(Sparse(file, blockSize, parsed.1, parsed.0))
  }

  /** The parse loop: one pass over the chunk records with a running file position. */
  method ParseSparse(file: seq<byte>) returns (r: Result<Image>)
    ensures r == ParsedSparse(file)
  {
    hide ParseChunk, U16Of, U32Of;
    if |file| < 28 {
      return Err(Io);
    }
    var major: u16 := U16Of(file[4..6]);
    var fileHeaderSize: u16 := U16Of(file[8..10]);
    var headerSize: u16 := U16Of(file[10..12]);
    var blockSize: u32 := U32Of(file[12..16]);
    var totalBlocks: u32 := U32Of(file[16..20]);
    var totalChunks: u32 := U32Of(file[20..24]);
    if major != 1 || fileHeaderSize < 28 || headerSize < 12 || blockSize == 0 {
      return Err(Invalid);
    }
    if totalChunks > MAX_CHUNKS {
      return Err(Invalid);
    }
    var chunks: seq<Chunk> := [];
    var pos: nat := fileHeaderSize;
    var logicalStart: u64 := 0;
    ghost var whole := ParseChunks(file, fileHeaderSize, totalChunks, headerSize, blockSize, 0);
    assert whole.Ok? ==> [] + whole.value.0 == whole.value.0;
    for index := 0 to totalChunks
      invariant var rest := ParseChunks(file, pos, totalChunks - index, headerSize, blockSize, logicalStart);
                whole == if rest.Ok? then Ok((chunks + rest.value.0, rest.value.1)) else Err(rest.error)
    {
      var one := ParseChunk(file, pos, headerSize, blockSize, logicalStart);
      if one.Err? {
        return Err(one.error);
      }
      ghost var rest := ParseChunks(file, one.value.nextPos, totalChunks - index - 1, headerSize, blockSize,
                                    logicalStart + one.value.chunk.logicalLen);
      if rest.Ok? {
        assert chunks + ([one.value.chunk] + rest.value.0) == chunks + [one.value.chunk] + rest.value.0;
      }
      chunks := chunks + [one.value.chunk];
      pos := one.value.nextPos;
      logicalStart := logicalStart + one.value.chunk.logicalLen;
    }
    assert chunks + [] == chunks;
    if totalBlocks * blockSize > U64_MAX {
      return Err(Invalid);
    }
    if logicalStart != totalBlocks * blockSize {
      return Err(Invalid);
    }
    r := Ok(Sparse(file, blockSize, logicalStart, chunks));
  }

  function Opened(file: seq<byte>): Result<Image> {
    if |file| < 4 then Err(Io)
    else if U32Of(file[0..4]) == SPARSE_MAGIC then ParsedSparse(file)
    else Ok(Raw(file))
  }

  method Open(file: seq<byte>) returns (r: Result<Image>)
    ensures r == Opened(file)
  {
    if |file| < 4 {
      return Err(Io);
    }
    if U32Of(file[0..4]) == SPARSE_MAGIC {
      r := ParseSparse(file);
    } else {
      r := Ok(Raw(file));
    }
  }

  // ---------------------------------------------------- the logical image

  function ChunkEnd(c: Chunk): nat {
    c.logicalStart + c.logicalLen
  }

  predicate Contains(c: Chunk, position: int) {
    c.logicalStart <= position < ChunkEnd(c)
  }

  /** The chunks follow each other without gaps from `start` to `end`. */
  ghost predicate Chained(chunks: seq<Chunk>, start: nat, end: nat) {
    if chunks == [] then start == end
    else chunks[0].logicalStart == start && Chained(chunks[1..], ChunkEnd(chunks[0]), end)
  }

  ghost predicate KnownKind(c: Chunk) {
    c.kind in {CHUNK_RAW, CHUNK_FILL, CHUNK_DONT_CARE, CHUNK_CRC}
  }

  /** What every opened image satisfies; file lengths are 64-bit. */
  ghost predicate ValidImage(img: Image) {
    match img
    case Raw(bytes) => |bytes| <= U64_MAX
    case Sparse(file, blockSize, size, chunks) =>
      && |file| <= U64_MAX
      && Chained(chunks, 0, size)
      && forall i :: 0 <= i < |chunks| ==> KnownKind(chunks[i]) && chunks[i].logicalStart % Max(blockSize, 1) == 0
  }

  lemma {:induction false} ParsedChunksChained(file: seq<byte>, pos: nat, count: nat, headerSize: u16, blockSize: u32,
                                               start: u64)
    requires 12 <= headerSize && blockSize > 0 && start % blockSize == 0
    ensures var r := ParseChunks(file, pos, count, headerSize, blockSize, start);
            r.Ok? ==>
              && |r.value.0| == count && Chained(r.value.0, start, r.value.1)
              && forall i :: 0 <= i < count ==> KnownKind(r.value.0[i]) && r.value.0[i].logicalStart % blockSize == 0
    decreases count
  {
    var r := ParseChunks(file, pos, count, headerSize, blockSize, start);
    if count > 0 && r.Ok? {
      var first := ParseChunk(file, pos, headerSize, blockSize, start).value;
      var next := start + first.chunk.logicalLen;
      AddMultiples(start, first.chunk.logicalLen, blockSize);
      ParsedChunksChained(file, first.nextPos, count - 1, headerSize, blockSize, next);
      assert r.value.0[1..] == ParseChunks(file, first.nextPos, count - 1, headerSize, blockSize, next).value.0;
    }
  }

  /** Everything `Image::open` accepts is a valid image. */
  lemma OpenedIsValid(file: seq<byte>)
    requires |file| <= U64_MAX
    ensures Opened(file).Ok? ==> ValidImage(Opened(file).value)
  {
    var r := ParsedSparse(file);
    if r.Ok? {
      ParsedChunksChained(file, U16Of(file[8..10]), U32Of(file[20..24]), U16Of(file[10..12]), U32Of(file[12..16]), 0);
    }
  }

  /** The first chunk holding a position, by linear scan. */
  function ScanChunk(chunks: seq<Chunk>, position: int): Option<Chunk> {
    if chunks == [] then None
    else if Contains(chunks[0], position) then Some(chunks[0])
    else ScanChunk(chunks[1..], position)
  }

  /** Byte of a chunk as the reader produces it: a fill value is indexed by the absolute position. */
  function ChunkByte(file: seq<byte>, c: Chunk, position: int): Option<byte>
    requires Contains(c, position)
  {
    if c.kind == CHUNK_RAW then
      var at := c.fileOffset + (position - c.logicalStart);
      if at < |file| then Some(file[at]) else None
    else if c.kind == CHUNK_FILL then Some(c.fillValue[position % 4])
    else Some(0)
  }

  /** The logical content of an image: `None` where no byte can be read. */
  function ByteAt(img: Image, position: int): Option<byte> {
    match img
    case Raw(bytes) => if 0 <= position < |bytes| then Some(bytes[position]) else None
    case Sparse(file, _, _, chunks) =>
      var c := ScanChunk(chunks, position);
      if c.Some? && Contains(c.value, position) then ChunkByte(file, c.value, position) else None
  }

  ghost predicate Readable(img: Image, offset: int, len: int) {
    forall k :: offset <= k < offset + len ==> ByteAt(img, k).Some?
  }

  /** The image's logical content is exactly `data`. */
  ghost predicate Holds(img: Image, data: seq<byte>) {
    img.Size() == |data| && forall k :: 0 <= k < |data| ==> ByteAt(img, k) == Some(data[k])
  }

  lemma {:induction false} ChainedBounds(chunks: seq<Chunk>, start: nat, end: nat)
    requires Chained(chunks, start, end)
    ensures start <= end
    ensures forall i :: 0 <= i < |chunks| ==> start <= chunks[i].logicalStart && ChunkEnd(chunks[i]) <= end
    ensures forall i, j :: 0 <= i < j < |chunks| ==> ChunkEnd(chunks[i]) <= chunks[j].logicalStart
  {
    if chunks != [] {
      var rest := chunks[1..];
      ChainedBounds(rest, ChunkEnd(chunks[0]), end);
      assert forall i :: 1 <= i < |chunks| ==> chunks[i] == rest[i - 1];
    }
  }

  /** Exactly the positions of the image are held by a chunk, each by one only. */
  lemma {:induction false} ScanIsUnique(chunks: seq<Chunk>, start: nat, end: nat, position: int)
    requires Chained(chunks, start, end)
    ensures ScanChunk(chunks, position).Some? <==> start <= position < end
    ensures forall i :: 0 <= i < |chunks| && Contains(chunks[i], position) ==>
            ScanChunk(chunks, position) == Some(chunks[i])
  {
    if chunks != [] {
      var rest := chunks[1..];
      ChainedBounds(chunks, start, end);
      ScanIsUnique(rest, ChunkEnd(chunks[0]), end, position);
      ChainedBounds(rest, ChunkEnd(chunks[0]), end);
      assert forall i :: 1 <= i < |chunks| ==> chunks[i] == rest[i - 1];
    }
  }

  // -------------------------------------------------------- random access

  /** Binary search over the chunk table; zero-length chunks are stepped over. */
  method FindChunk(chunks: seq<Chunk>, ghost end: nat, position: u64) returns (r: Option<nat>)
    requires Chained(chunks, 0, end) && end <= U64_MAX
    ensures r.Some? ==> r.value < |chunks| && ScanChunk(chunks, position) == Some(chunks[r.value])
    ensures r.Some? ==> Contains(chunks[r.value], position)
    ensures r.None? ==> ScanChunk(chunks, position) == None
  {
    ChainedBounds(chunks, 0, end);
    ScanIsUnique(chunks, 0, end, position);
    var lo, hi := 0, |chunks|;
    while lo < hi
      invariant 0 <= lo <= hi <= |chunks|
      invariant forall i :: 0 <= i < lo ==> ChunkEnd(chunks[i]) <= position
      invariant forall i :: hi <= i < |chunks| ==> position < chunks[i].logicalStart
    {
      var mid := lo + (hi - lo) / 2;
      var c := chunks[mid];
      var chunkEnd := SaturatingAdd(c.logicalStart, c.logicalLen);
      if position < c.logicalStart {
        hi := mid;
      } else if position >= chunkEnd {
        lo := mid + 1;
      } else {
        return Some(mid);
      }
    }
    NotScanned(chunks, position);
    r := None;
  }

  lemma {:induction false} NotScanned(chunks: seq<Chunk>, position: int)
    requires forall i :: 0 <= i < |chunks| ==> !Contains(chunks[i], position)
    ensures ScanChunk(chunks, position) == None
  {
    if chunks != [] {
      NotScanned(chunks[1..], position);
    }
  }

  method Store(buffer: array<byte>, at: nat, data: seq<byte>)
    requires at + |data| <= buffer.Length
    modifies buffer
    ensures forall k :: at <= k < at + |data| ==> buffer[k] == data[k - at]
    ensures forall k :: 0 <= k < buffer.Length && !(at <= k < at + |data|) ==> buffer[k] == old(buffer[k])
  {
    for i := 0 to |data|
      invariant forall k :: at <= k < at + i ==> buffer[k] == data[k - at]
      invariant forall k :: 0 <= k < buffer.Length && !(at <= k < at + i) ==> buffer[k] == old(buffer[k])
    {
      buffer[at + i] := data[i];
    }
  }

  /** The fill loop of `read_at`. */
  method StoreFill(buffer: array<byte>, at: nat, count: nat, position: u64, fillValue: FillValue)
    requires at + count <= buffer.Length
    modifies buffer
    ensures forall k :: at <= k < at + count ==> buffer[k] == fillValue[(position + (k - at)) % 4]
    ensures forall k :: 0 <= k < buffer.Length && !(at <= k < at + count) ==> buffer[k] == old(buffer[k])
  {
    for i := 0 to count
      invariant forall k :: at <= k < at + i ==> buffer[k] == fillValue[(position + (k - at)) % 4]
      invariant forall k :: 0 <= k < buffer.Length && !(at <= k < at + i) ==> buffer[k] == old(buffer[k])
    {
      buffer[at + i] := fillValue[(position + i) % 4];
    }
  }

  /** `count` bytes of one chunk, from `position` on, into the buffer. */
  method ReadFromChunk(file: seq<byte>, c: Chunk, position: u64, count: nat, buffer: array<byte>, at: nat)
    returns (r: Result<()>)
    requires KnownKind(c) && |file| <= U64_MAX && count > 0 && at + count <= buffer.Length
    requires c.logicalStart <= position && position + count <= ChunkEnd(c)
    modifies buffer
    ensures r.Ok? <==> forall k :: position <= k < position + count ==> ChunkByte(file, c, k).Some?
    ensures r.Ok? ==> forall k :: at <= k < at + count ==> ChunkByte(file, c, position + (k - at)) == Some(buffer[k])
    ensures forall k :: 0 <= k < buffer.Length && !(at <= k < at + count) ==> buffer[k] == old(buffer[k])
  {
    if c.kind == CHUNK_RAW {
      var filePos := CheckedAdd(c.fileOffset, position - c.logicalStart);
      if filePos.None? || filePos.value + count > |file| {
        assert ChunkByte(file, c, position + (count - 1)) == None;
        return Err(Io);
      }
      Store(buffer, at, file[filePos.value..filePos.value + count]);
    } else if c.kind == CHUNK_FILL {
      StoreFill(buffer, at, count, position, c.fillValue);
    } else {
      Store(buffer, at, Zeros(count));
    }
    r := Ok(());
  }

  /**
   Random access. The read succeeds exactly when the range is inside the image
   and every byte of it can be read, and then delivers exactly those bytes.
   Nothing outside the destination `[lo, hi)` changes.
   */
  method ReadAt(img: Image, offset: u64, buffer: array<byte>, lo: nat, hi: nat) returns (r: Result<()>)
    requires ValidImage(img) && lo <= hi <= buffer.Length <= U64_MAX
    modifies buffer
    ensures r.Ok? <==> offset + (hi - lo) <= img.Size() && Readable(img, offset, hi - lo)
    ensures r.Ok? ==> forall k :: lo <= k < hi ==> ByteAt(img, offset + (k - lo)) == Some(buffer[k])
    ensures forall k :: 0 <= k < buffer.Length && !(lo <= k < hi) ==> buffer[k] == old(buffer[k])
  {
    var end := CheckedAdd(offset, hi - lo);
    if end.None? {
      return Err(Invalid);
    }
    if end.value > img.Size() {
      return Err(Invalid);
    }
    match img {
      case Raw(bytes) =>
        Store(buffer, lo, bytes[offset..end.value]);
      case Sparse(file, blockSize, size, chunks) =>
        var position := offset;
        var written := 0;
        ChainedBounds(chunks, 0, size);
        while written < hi - lo
          invariant 0 <= written <= hi - lo && position == offset + written
          invariant Readable(img, offset, written)
          invariant forall k :: lo <= k < lo + written ==> ByteAt(img, offset + (k - lo)) == Some(buffer[k])
          invariant forall k :: 0 <= k < buffer.Length && !(lo <= k < hi) ==> buffer[k] == old(buffer[k])
        {
          var index := FindChunk(chunks, size, position);
          ScanIsUnique(chunks, 0, size, position);
          if index.None? {
            return Err(Invalid);
          }
          var c := chunks[index.value];
          var chunkEnd := SaturatingAdd(c.logicalStart, c.logicalLen);
          var available := Max(chunkEnd - position, 0);
          if available == 0 {
            return Err(Invalid);
          }
          var count := Min(available, hi - lo - written);
          forall k | position <= k < position + count
            ensures ByteAt(img, k) == ChunkByte(file, c, k)
          {
            ScanIsUnique(chunks, 0, size, k);
          }
          var one := ReadFromChunk(file, c, position, count, buffer, lo + written);
          if one.Err? {
            return Err(one.error);
          }
          position := position + count;
          written := written + count;
        }
    }
    r := Ok(());
  }
}
