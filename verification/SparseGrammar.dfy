/**
 What the sparse reader accepts, in the numbers of the format (AOSP libsparse
 `sparse_format.h`): exactly the chunk records described here, behind headers of
 any permitted size; and that every such file opens as what it stands for.
 */
module SparseGrammar {
  import opened Arithmetic
  import opened Base
  import opened SparseFormat
  import opened SparseImage

  // ------------------------------------------------------ acceptance, exactly

  /** The four kinds of chunk and the data each carries behind its header. */
  ghost predicate LegalData(file: seq<byte>, dataAt: nat, kind: int, dataSize: int, length: int, c: Chunk) {
    || (kind == 0xcac1 && dataSize == length && c.fillValue == [0, 0, 0, 0])
    || (kind == 0xcac2 && dataSize == 4 && dataAt + 4 <= |file| && c.fillValue == file[dataAt..dataAt + 4])
    || (kind == 0xcac3 && dataSize == 0 && c.fillValue == [0, 0, 0, 0])
    || (kind == 0xcac4 && (dataSize == 0 || dataSize == 4) && c.fillValue == [0, 0, 0, 0])
  }

  /** A chunk record at `pos`: kind, block count and total size at bytes 0, 4 and 8 of its header. */
  ghost predicate IsRecord(file: seq<byte>, pos: nat, headerSize: u16, blockSize: u32, start: u64, c: Chunk,
                           next: nat) {
    && headerSize <= 1024 && pos + headerSize <= |file| && 12 <= headerSize
    && var kind := U16Of(file[pos..pos + 2]);
       var length := U32Of(file[pos + 4..pos + 8]) * blockSize;
       var total := U32Of(file[pos + 8..pos + 12]);
       && headerSize <= total && next == pos + total
       && LegalData(file, pos + headerSize, kind, total - headerSize, length, c)
       && c.kind == kind && c.logicalStart == start && c.logicalLen == length && start + length <= U64_MAX
       && c.fileOffset == pos + headerSize
  }

  lemma HeaderSlices(file: seq<byte>, pos: nat, headerSize: nat)
    requires 12 <= headerSize && pos + headerSize <= |file|
    ensures var h := file[pos..pos + headerSize];
            && h[0..2] == file[pos..pos + 2] && h[4..8] == file[pos + 4..pos + 8]
            && h[8..12] == file[pos + 8..pos + 12]
  {
    SliceOfSlice(file, pos, pos + headerSize, 0, 2);
    SliceOfSlice(file, pos, pos + headerSize, 4, 8);
    SliceOfSlice(file, pos, pos + headerSize, 8, 12);
  }

  /** The chunk parser accepts exactly the records of the format. */
  lemma ChunkExactly(file: seq<byte>, pos: nat, headerSize: u16, blockSize: u32, start: u64, c: Chunk, next: nat)
    requires 12 <= headerSize && |file| <= U64_MAX
    ensures ParseChunk(file, pos, headerSize, blockSize, start) == Ok(ParsedChunk(c, next))
            <==> IsRecord(file, pos, headerSize, blockSize, start, c, next)
  {
    hide U16Of, U32Of;
    if headerSize <= 1024 && pos + headerSize <= |file| {
      HeaderSlices(file, pos, headerSize);
      ProductFits(U32Of(file[pos + 4..pos + 8]), blockSize);
    }
  }

  /** The records from `pos` on, one behind the other, that lead from `start` to `end`. */
  ghost predicate AreRecords(file: seq<byte>, pos: nat, chunks: seq<Chunk>, headerSize: u16, blockSize: u32, start: u64,
                             end: int)
    decreases |chunks|
  {
    if chunks == [] then start == end
    else exists next: nat ::
      IsRecord(file, pos, headerSize, blockSize, start, chunks[0], next)
      && AreRecords(file, next, chunks[1..], headerSize, blockSize, start + chunks[0].logicalLen, end)
  }

  lemma {:induction false} ChunksExactly(file: seq<byte>, pos: nat, chunks: seq<Chunk>, headerSize: u16, blockSize: u32,
                                         start: u64, end: u64)
    requires 12 <= headerSize && |file| <= U64_MAX
    ensures ParseChunks(file, pos, |chunks|, headerSize, blockSize, start) == Ok((chunks, end))
            <==> AreRecords(file, pos, chunks, headerSize, blockSize, start, end)
    decreases |chunks|
  {
    hide ParseChunk, IsRecord;
    if chunks != [] {
      var c, rest := chunks[0], chunks[1..];
      assert chunks == [c] + rest;
      forall next: nat
        ensures ParseChunk(file, pos, headerSize, blockSize, start) == Ok(ParsedChunk(c, next))
                <==> IsRecord(file, pos, headerSize, blockSize, start, c, next)
      {
        ChunkExactly(file, pos, headerSize, blockSize, start, c, next);
      }
      var first := ParseChunk(file, pos, headerSize, blockSize, start);
      if first.Ok? && first.value.chunk == c {
        ChunksExactly(file, first.value.nextPos, rest, headerSize, blockSize, start + c.logicalLen, end);
        OneRecord(file, pos, headerSize, blockSize, start, c, first.value.nextPos);
      }
    }
  }

  /** A record ends in one place, within 64 bits of the image. */
  lemma OneRecord(file: seq<byte>, pos: nat, headerSize: u16, blockSize: u32, start: u64, c: Chunk, next: nat)
    requires 12 <= headerSize && |file| <= U64_MAX
    requires ParseChunk(file, pos, headerSize, blockSize, start) == Ok(ParsedChunk(c, next))
    ensures forall n: nat :: IsRecord(file, pos, headerSize, blockSize, start, c, n) ==> n == next
  {
    ChunkExactly(file, pos, headerSize, blockSize, start, c, next);
  }

  /** A sparse file: the fields of its header at bytes 4 to 24, and its records from the end of the header on. */
  ghost predicate IsSparse(file: seq<byte>, img: Image) {
    && |file| >= 28 && img.Sparse? && img.file == file
    && var headerEnd := U16Of(file[8..10]);
       var chunkHeader := U16Of(file[10..12]);
       && U16Of(file[4..6]) == 1 && headerEnd >= 28 && chunkHeader >= 12
       && img.blockSize == U32Of(file[12..16]) > 0
       && img.size == U32Of(file[16..20]) * img.blockSize
       && |img.chunks| == U32Of(file[20..24]) <= 1_000_000
       && AreRecords(file, headerEnd, img.chunks, chunkHeader, img.blockSize, 0, img.size)
  }

  /** Opening succeeds exactly for files of four bytes that do not start with the sparse magic, and for sparse files. */
  lemma OpenedExactly(file: seq<byte>, img: Image)
    requires |file| <= U64_MAX
    ensures Opened(file) == Ok(img)
            <==> |file| >= 4 && if U32Of(file[0..4]) == 0xed26ff3a then IsSparse(file, img) else img == Raw(file)
  {
    hide U16Of, U32Of, ParseChunks, AreRecords;
    if |file| >= 28 && img.Sparse? && U16Of(file[10..12]) >= 12 && img.blockSize == U32Of(file[12..16]) {
      ProductFits(U32Of(file[16..20]), U32Of(file[12..16]));
      ChunksExactly(file, U16Of(file[8..10]), img.chunks, U16Of(file[10..12]), U32Of(file[12..16]), 0, img.size);
      ChunksCounted(file, U16Of(file[8..10]), U32Of(file[20..24]), U16Of(file[10..12]), U32Of(file[12..16]), 0);
    }
  }

  lemma {:induction false} ChunksCounted(file: seq<byte>, pos: nat, count: nat, headerSize: u16, blockSize: u32,
                                         start: u64)
    requires 12 <= headerSize
    ensures var r := ParseChunks(file, pos, count, headerSize, blockSize, start); r.Ok? ==> |r.value.0| == count
    decreases count
  {
    hide ParseChunk;
    var first := ParseChunk(file, pos, headerSize, blockSize, start);
    if count > 0 && first.Ok? {
      ChunksCounted(file, first.value.nextPos, count - 1, headerSize, blockSize, start + first.value.chunk.logicalLen);
    }
  }

  // ------------------------------------- pieces behind headers of any size

  /** A piece with what its chunk header holds besides: two reserved bytes, and bytes behind the fields. */
  datatype Dressed = Dressed(piece: Piece, reserved: seq<byte>, extra: seq<byte>)

  function KindOf(p: Piece): u16 {
    match p
    case RawPiece(_) => 0xcac1
    case FillPiece(_, _) => 0xcac2
    case SkipPiece(_) => 0xcac3
    case CrcPiece(_, _) => 0xcac4
  }

  function DataOf(p: Piece): seq<byte> {
    match p
    case RawPiece(data) => data
    case FillPiece(_, value) => value
    case SkipPiece(_) => []
    case CrcPiece(_, checksum) => checksum
  }

  function BlocksOf(p: Piece, blockSize: u32): nat {
    match p
    case RawPiece(data) => if blockSize == 0 then 0 else |data| / blockSize
    case FillPiece(blocks, _) => blocks
    case SkipPiece(blocks) => blocks
    case CrcPiece(blocks, _) => blocks
  }

  /** The piece is whole blocks, and its fields fit headers of this size. */
  ghost predicate WellDressed(d: Dressed, blockSize: u32, headerSize: u16) {
    && 12 <= headerSize <= 1024 && |d.reserved| == 2 && |d.extra| == headerSize - 12
    && headerSize + |DataOf(d.piece)| <= U32_MAX && BlocksOf(d.piece, blockSize) <= U32_MAX
    && PieceLength(d.piece, blockSize) == BlocksOf(d.piece, blockSize) * blockSize
    && (d.piece.CrcPiece? ==> |d.piece.checksum| == 0 || |d.piece.checksum| == 4)
  }

  ghost function PrintHeader(d: Dressed, blockSize: u32, headerSize: u16): (b: seq<byte>)
    requires WellDressed(d, blockSize, headerSize)
    ensures |b| == headerSize
  {
    U16Bytes(KindOf(d.piece)) + d.reserved + U32Bytes(BlocksOf(d.piece, blockSize))
    + U32Bytes(headerSize + |DataOf(d.piece)|) + d.extra
  }

  ghost predicate AllDressed(ds: seq<Dressed>, blockSize: u32, headerSize: u16) {
    forall i :: 0 <= i < |ds| ==> WellDressed(ds[i], blockSize, headerSize)
  }

  ghost function PrintAll(ds: seq<Dressed>, blockSize: u32, headerSize: u16): seq<byte>
    requires AllDressed(ds, blockSize, headerSize)
  {
    if ds == [] then []
    else PrintHeader(ds[0], blockSize, headerSize) + DataOf(ds[0].piece) + PrintAll(ds[1..], blockSize, headerSize)
  }

  function PiecesOf(ds: seq<Dressed>): (ps: seq<Piece>)
    ensures |ps| == |ds|
  {
    seq(|ds|, i requires 0 <= i < |ds| => ds[i].piece)
  }

  lemma HeaderFieldsBack(d: Dressed, blockSize: u32, headerSize: u16)
    requires WellDressed(d, blockSize, headerSize)
    ensures var h := PrintHeader(d, blockSize, headerSize);
            && U16Of(h[0..2]) == KindOf(d.piece) && U32Of(h[4..8]) == BlocksOf(d.piece, blockSize)
            && U32Of(h[8..12]) == headerSize + |DataOf(d.piece)|
  {
    hide U16Bytes, U32Bytes, BlocksOf, KindOf, DataOf, PieceLength;
    var h := PrintHeader(d, blockSize, headerSize);
    assert h[0..2] == U16Bytes(KindOf(d.piece));
    assert h[4..8] == U32Bytes(BlocksOf(d.piece, blockSize));
    assert h[8..12] == U32Bytes(headerSize + |DataOf(d.piece)|);
  }

  /** A printed piece is a record of the format. */
  lemma DressedRecord(file: seq<byte>, pos: nat, d: Dressed, blockSize: u32, headerSize: u16, start: u64)
    requires WellDressed(d, blockSize, headerSize) && |file| <= U64_MAX
    requires At(file, pos, PrintHeader(d, blockSize, headerSize) + DataOf(d.piece))
    requires start + PieceLength(d.piece, blockSize) <= U64_MAX
    ensures IsRecord(file, pos, headerSize, blockSize, start, ChunkOf(d.piece, blockSize, pos + headerSize - 12, start),
                     pos + headerSize + |DataOf(d.piece)|)
    ensures DataAt(file, pos + headerSize - 12, d.piece)
  {
    hide U16Bytes, U32Bytes, U16Of, U32Of, PrintHeader, At;
    var h, data := PrintHeader(d, blockSize, headerSize), DataOf(d.piece);
    HeaderFieldsBack(d, blockSize, headerSize);
    AtSplit(file, pos, h, data);
    PartIs(file, pos, h);
    PartIs(file, pos + headerSize, data);
    HeaderSlices(file, pos, headerSize);
  }

  lemma PartIs(file: seq<byte>, pos: nat, part: seq<byte>)
    requires At(file, pos, part)
    ensures pos + |part| <= |file| && file[pos..pos + |part|] == part
    ensures forall i :: 0 <= i < |part| ==> file[pos + i] == part[i]
  {
    forall i | 0 <= i < |part| ensures file[pos + i] == part[i] {
      assert file[pos..pos + |part|][i] == file[pos + i];
    }
  }

  /** The table delivers, from `start` on, the bytes that the pieces stand for. */
  ghost predicate TableFor(file: seq<byte>, pos: nat, ds: seq<Dressed>, blockSize: u32, headerSize: u16, start: u64,
                           chunks: seq<Chunk>) {
    var all := Expand(PiecesOf(ds), blockSize);
    && |chunks| == |ds| && AreRecords(file, pos, chunks, headerSize, blockSize, start, start + |all|)
    && DeliversAll(file, chunks, start, all)
  }

  lemma TableCons(file: seq<byte>, pos: nat, d: Dressed, rest: seq<Dressed>, blockSize: u32, headerSize: u16,
                  start: u64, next: nat, tail: seq<Chunk>)
    requires 12 <= headerSize && pos + headerSize <= U64_MAX
    requires start + PieceLength(d.piece, blockSize) + |Expand(PiecesOf(rest), blockSize)| <= U64_MAX
    requires d.piece.FillPiece? ==> start % 4 == 0
    requires var c := ChunkOf(d.piece, blockSize, pos + headerSize - 12, start);
             IsRecord(file, pos, headerSize, blockSize, start, c, next) && DataAt(file, pos + headerSize - 12, d.piece)
    requires TableFor(file, next, rest, blockSize, headerSize, start + PieceLength(d.piece, blockSize), tail)
    ensures TableFor(file, pos, [d] + rest, blockSize, headerSize, start,
                     [ChunkOf(d.piece, blockSize, pos + headerSize - 12, start)] + tail)
  {
    hide IsRecord, DataAt, ScanChunk, DeliversAll;
    var c := ChunkOf(d.piece, blockSize, pos + headerSize - 12, start);
    var data, others := ExpandPiece(d.piece, blockSize), Expand(PiecesOf(rest), blockSize);
    PieceHeld(file, pos + headerSize - 12, d.piece, blockSize, start);
    DeliversCons(file, c, data, tail, others, start);
    assert ([c] + tail)[1..] == tail && ([d] + rest)[1..] == rest;
    assert PiecesOf([d] + rest) == [d.piece] + PiecesOf(rest);
    assert PiecesOf([d] + rest)[1..] == PiecesOf(rest);
    assert IsRecord(file, pos, headerSize, blockSize, start, ([c] + tail)[0], next)
           && AreRecords(file, next, ([c] + tail)[1..], headerSize, blockSize, start + c.logicalLen,
                         start + |data| + |others|);
  }

  /** Printed pieces parse to a table of their own, wherever they are in the file. */
  lemma {:induction false} DressedTable(file: seq<byte>, pos: nat, ds: seq<Dressed>, blockSize: u32, headerSize: u16,
                                        start: u64) returns (chunks: seq<Chunk>)
    requires AllDressed(ds, blockSize, headerSize) && |file| <= U64_MAX && 12 <= headerSize
    requires At(file, pos, PrintAll(ds, blockSize, headerSize))
    requires start + |Expand(PiecesOf(ds), blockSize)| <= U64_MAX
    requires InFillPhase(PiecesOf(ds), blockSize) && (blockSize % 4 == 0 ==> start % 4 == 0)
    ensures TableFor(file, pos, ds, blockSize, headerSize, start, chunks)
    decreases |ds|
  {
    hide PrintHeader, IsRecord, TableFor, DataAt, WellDressed, ChunkOf, At, Understood;
    if ds == [] {
      chunks := [];
      EmptyTable(file, pos, blockSize, headerSize, start);
    } else {
      var d, rest := ds[0], ds[1..];
      assert ds == [d] + rest && PiecesOf(ds) == [d.piece] + PiecesOf(rest) && PiecesOf(ds)[1..] == PiecesOf(rest);
      var h, data := PrintHeader(d, blockSize, headerSize), DataOf(d.piece);
      var others := PrintAll(rest, blockSize, headerSize);
      AtSplit(file, pos, h + data, others);
      PartIs(file, pos, h + data);
      DressedRecord(file, pos, d, blockSize, headerSize, start);
      var next, after := pos + headerSize + |data|, start + PieceLength(d.piece, blockSize);
      if blockSize % 4 == 0 {
        DressedPhase(d, blockSize, headerSize, start);
      }
      var tail := DressedTable(file, next, rest, blockSize, headerSize, after);
      chunks := [ChunkOf(d.piece, blockSize, pos + headerSize - 12, start)] + tail;
      TableCons(file, pos, d, rest, blockSize, headerSize, start, next, tail);
    }
  }

  lemma EmptyTable(file: seq<byte>, pos: nat, blockSize: u32, headerSize: u16, start: u64)
    ensures TableFor(file, pos, [], blockSize, headerSize, start, [])
  {}

  lemma DressedPhase(d: Dressed, blockSize: u32, headerSize: u16, start: nat)
    requires WellDressed(d, blockSize, headerSize) && blockSize % 4 == 0 && start % 4 == 0
    ensures (start + PieceLength(d.piece, blockSize)) % 4 == 0
  {
    ProductOfFours(BlocksOf(d.piece, blockSize), blockSize);
    SumOfFours(start, PieceLength(d.piece, blockSize));
  }

  /** What a file header holds besides its fields: a minor version, a checksum, and bytes behind the fields. */
  datatype FileDress = FileDress(minor: u16, checksum: u32, extra: seq<byte>)

  ghost function DressedHeader(f: FileDress, headerSize: u16, blockSize: u32, totalBlocks: u32,
                               count: u32): (b: seq<byte>)
    requires 28 + |f.extra| <= 0xffff
    ensures |b| == 28 + |f.extra|
  {
    U32Bytes(0xed26ff3a) + U16Bytes(1) + U16Bytes(f.minor) + U16Bytes(28 + |f.extra|) + U16Bytes(headerSize)
    + U32Bytes(blockSize) + U32Bytes(totalBlocks) + U32Bytes(count) + U32Bytes(f.checksum) + f.extra
  }

  lemma DressedHeaderBack(f: FileDress, headerSize: u16, blockSize: u32, totalBlocks: u32, count: u32, file: seq<byte>)
    requires 28 + |f.extra| <= 0xffff && DressedHeader(f, headerSize, blockSize, totalBlocks, count) <= file
    ensures U32Of(file[0..4]) == 0xed26ff3a && U16Of(file[4..6]) == 1 && U16Of(file[8..10]) == 28 + |f.extra|
    ensures U16Of(file[10..12]) == headerSize && U32Of(file[12..16]) == blockSize
    ensures U32Of(file[16..20]) == totalBlocks && U32Of(file[20..24]) == count
  {
    hide U16Bytes, U32Bytes;
    var h := DressedHeader(f, headerSize, blockSize, totalBlocks, count);
    assert file[0..4] == h[0..4] == U32Bytes(0xed26ff3a);
    assert file[4..6] == h[4..6] == U16Bytes(1);
    assert file[8..10] == h[8..10] == U16Bytes(28 + |f.extra|);
    assert file[10..12] == h[10..12] == U16Bytes(headerSize);
    assert file[12..16] == h[12..16] == U32Bytes(blockSize);
    assert file[16..20] == h[16..20] == U32Bytes(totalBlocks);
    assert file[20..24] == h[20..24] == U32Bytes(count);
  }

  ghost function DressedFile(f: FileDress, ds: seq<Dressed>, headerSize: u16, blockSize: u32,
                             totalBlocks: u32): seq<byte>
    requires 28 + |f.extra| <= 0xffff && AllDressed(ds, blockSize, headerSize) && |ds| <= U32_MAX
  {
    DressedHeader(f, headerSize, blockSize, totalBlocks, |ds|) + PrintAll(ds, blockSize, headerSize)
  }

  /**
   Pieces of all four kinds, behind a file header of any size from 28 and chunk headers of
   any size from 12 to 1024: the file opens exactly within the cap, and as the expansion.
   */
  lemma OpenDressed(f: FileDress, ds: seq<Dressed>, headerSize: u16, blockSize: u32, totalBlocks: u32)
    requires 28 + |f.extra| <= 0xffff && AllDressed(ds, blockSize, headerSize) && |ds| <= U32_MAX
    requires 12 <= headerSize <= 1024 && blockSize > 0
    requires |Expand(PiecesOf(ds), blockSize)| == totalBlocks * blockSize && InFillPhase(PiecesOf(ds), blockSize)
    requires |DressedFile(f, ds, headerSize, blockSize, totalBlocks)| <= U64_MAX
    ensures var r := Opened(DressedFile(f, ds, headerSize, blockSize, totalBlocks));
            && (r.Ok? <==> |ds| <= 1_000_000)
            && (r.Ok? ==> r.value.Sparse? && Holds(r.value, Expand(PiecesOf(ds), blockSize)))
  {
    hide U16Of, U32Of, DressedHeader, PrintAll, Opened, Expand, DeliversAll, AreRecords, InFillPhase, AllDressed;
    var file, all := DressedFile(f, ds, headerSize, blockSize, totalBlocks), Expand(PiecesOf(ds), blockSize);
    DressedHeaderBack(f, headerSize, blockSize, totalBlocks, |ds|, file);
    ProductFits(totalBlocks, blockSize);
    var chunks := DressedTable(file, 28 + |f.extra|, ds, blockSize, headerSize, 0);
    var img := Sparse(file, blockSize, |all|, chunks);
    if |ds| <= 1_000_000 {
      OpenedExactly(file, img);
      DeliveredImage(img, all);
    } else if Opened(file).Ok? {
      OpenedExactly(file, Opened(file).value);
    }
  }

  lemma DeliveredImage(img: Image, all: seq<byte>)
    requires img.Sparse? && img.size == |all| && DeliversAll(img.file, img.chunks, 0, all)
    ensures Holds(img, all)
  {
    hide ChunkByte, ScanChunk;
    forall k | 0 <= k < |all| ensures ByteAt(img, k) == Some(all[k]) {
      assert Delivers(img.file, img.chunks, k, 0, all);
    }
  }

  /** What a position of a chunk reads as: a stored byte, the fill pattern, or zero. */
  lemma ChunkBytes(file: seq<byte>, c: Chunk, position: nat)
    requires Contains(c, position)
    ensures ChunkByte(file, c, position) ==
            if c.kind == 0xCAC1 then
              var at := c.fileOffset + position - c.logicalStart;
              if at < |file| then Some(file[at]) else None
            else if c.kind == 0xCAC2 then Some(c.fillValue[position % 4])
            else Some(0)
  {}

  /** What the encoder writes in front of the chunks: version 1.0, header sizes 28 and 12, no image checksum. */
  lemma FileHeaderBytes(blockSize: u32, totalBlocks: u32, totalChunks: u32)
    ensures FileHeader(blockSize, totalBlocks, totalChunks)
            == [0x3A, 0xFF, 0x26, 0xED, 1, 0, 0, 0, 28, 0, 12, 0]
               + U32Bytes(blockSize) + U32Bytes(totalBlocks) + U32Bytes(totalChunks) + [0, 0, 0, 0]
  {
    hide U32Bytes, U16Bytes;
    FourBytes(0xed26_ff3a, 0x3A, 0xFF, 0x26, 0xED);
    FourBytes(0, 0, 0, 0, 0);
    TwoBytes(1);
    TwoBytes(0);
    TwoBytes(28);
    TwoBytes(12);
    assert [0x3A, 0xFF, 0x26, 0xED] + [1, 0] + [0, 0] + [28, 0] + [12, 0]
        == [0x3A, 0xFF, 0x26, 0xED, 1, 0, 0, 0, 28, 0, 12, 0];
  }

  /** And in front of each: kind, two reserved bytes, block count, size with this header. */
  lemma ChunkHeaderBytes(kind: u16, blocks: u32, totalSize: u32)
    ensures ChunkHeader(kind, blocks, totalSize) == U16Bytes(kind) + [0, 0] + U32Bytes(blocks) + U32Bytes(totalSize)
  {
    hide U32Bytes, U16Bytes;
    TwoBytes(0);
  }

  lemma TwoBytes(v: byte)
    ensures U16Bytes(v) == [v, 0]
  {
    LowByte(0, 0, 0, 0);
    LowByte(v, v, 0, 1);
  }

  lemma FourBytes(v: u32, a: byte, b: byte, c: byte, d: byte)
    requires v == a + 0x100 * b + 0x1_0000 * c + 0x100_0000 * d
    ensures U32Bytes(v) == [a, b, c, d]
  {
    hide LeBytes;
    LowByte(d, d, 0, 0);
    LowByte(c + 0x100 * d, c, d, 1);
    LowByte(b + 0x100 * c + 0x1_0000 * d, b, c + 0x100 * d, 2);
    LowByte(v, a, b + 0x100 * c + 0x1_0000 * d, 3);
    assert LeBytes(0, 0) == [];
  }

  lemma LowByte(v: nat, low: byte, rest: nat, n: nat)
    requires v == low + 0x100 * rest
    ensures LeBytes(v, n + 1) == [low] + LeBytes(rest, n)
  {
    DivModUnique(v, rest, 256, low);
  }
}
