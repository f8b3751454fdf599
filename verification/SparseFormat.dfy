/**
 The sparse container as a list of pieces: how a piece list is printed, what it
 expands to, and what the reader makes of a printed file.
 */
module SparseFormat {
  import opened Arithmetic
  import opened Base
  import opened SparseImage

  const HEADER_SIZE: u16 := 28
  const CHUNK_HEADER_SIZE: u16 := 12

  datatype Piece =
    | RawPiece(data: seq<byte>)
    | FillPiece(fillBlocks: u32, value: FillValue)
    | SkipPiece(skipBlocks: u32)
    | CrcPiece(crcBlocks: u32, checksum: seq<byte>)

  function PieceLength(p: Piece, blockSize: u32): nat {
    match p
    case RawPiece(data) => |data|
    case FillPiece(blocks, _) => blocks * blockSize
    case SkipPiece(blocks) => blocks * blockSize
    case CrcPiece(blocks, _) => blocks * blockSize
  }

  /** The piece fits the 32-bit fields of its chunk header. */
  ghost predicate Printable(p: Piece, blockSize: u32) {
    && (p.RawPiece? ==>
          && blockSize > 0 && |p.data| % blockSize == 0
          && |p.data| / blockSize <= U32_MAX && |p.data| + CHUNK_HEADER_SIZE <= U32_MAX)
    && (p.CrcPiece? ==> |p.checksum| == 0 || |p.checksum| == 4)
  }

  function ChunkHeader(kind: u16, blocks: u32, totalSize: u32): (h: seq<byte>)
    ensures |h| == CHUNK_HEADER_SIZE
  {
    U16Bytes(kind) + U16Bytes(0) + U32Bytes(blocks) + U32Bytes(totalSize)
  }

  ghost function PrintPiece(p: Piece, blockSize: u32): (b: seq<byte>)
    requires Printable(p, blockSize)
    ensures |b| >= CHUNK_HEADER_SIZE
  {
    match p
    case RawPiece(data) => ChunkHeader(CHUNK_RAW, |data| / blockSize, |data| + CHUNK_HEADER_SIZE) + data
    case FillPiece(blocks, value) => ChunkHeader(CHUNK_FILL, blocks, CHUNK_HEADER_SIZE + 4) + value
    case SkipPiece(blocks) => ChunkHeader(CHUNK_DONT_CARE, blocks, CHUNK_HEADER_SIZE)
    case CrcPiece(blocks, checksum) => ChunkHeader(CHUNK_CRC, blocks, CHUNK_HEADER_SIZE + |checksum|) + checksum
  }

  ghost predicate AllPrintable(ps: seq<Piece>, blockSize: u32) {
    forall i :: 0 <= i < |ps| ==> Printable(ps[i], blockSize)
  }

  ghost function PrintPieces(ps: seq<Piece>, blockSize: u32): seq<byte>
    requires AllPrintable(ps, blockSize)
  {
    if ps == [] then [] else PrintPiece(ps[0], blockSize) + PrintPieces(ps[1..], blockSize)
  }

  function FileHeader(blockSize: u32, totalBlocks: u32, totalChunks: u32): (h: seq<byte>)
    ensures |h| == HEADER_SIZE
  {
    U32Bytes(SPARSE_MAGIC) + U16Bytes(1) + U16Bytes(0) + U16Bytes(HEADER_SIZE) + U16Bytes(CHUNK_HEADER_SIZE)
    + U32Bytes(blockSize) + U32Bytes(totalBlocks) + U32Bytes(totalChunks) + U32Bytes(0)
  }

  ghost function PrintFile(ps: seq<Piece>, blockSize: u32, totalBlocks: u32): seq<byte>
    requires AllPrintable(ps, blockSize) && |ps| <= U32_MAX
  {
    FileHeader(blockSize, totalBlocks, |ps|) + PrintPieces(ps, blockSize)
  }

  /** The bytes a piece stands for: a fill repeats its pattern from the piece's start, a checksum stands for zeros. */
  ghost function ExpandPiece(p: Piece, blockSize: u32): (b: seq<byte>)
    ensures |b| == PieceLength(p, blockSize)
  {
    match p
    case RawPiece(data) => data
    case FillPiece(blocks, value) => seq(blocks * blockSize, i requires 0 <= i => value[i % 4])
    case SkipPiece(blocks) => Zeros(blocks * blockSize)
    case CrcPiece(blocks, _) => Zeros(blocks * blockSize)
  }

  ghost function Expand(ps: seq<Piece>, blockSize: u32): seq<byte> {
    if ps == [] then [] else ExpandPiece(ps[0], blockSize) + Expand(ps[1..], blockSize)
  }

  lemma {:induction false} ExpandAppend(ps: seq<Piece>, p: Piece, blockSize: u32)
    ensures Expand(ps + [p], blockSize) == Expand(ps, blockSize) + ExpandPiece(p, blockSize)
  {
    hide ExpandPiece;
    if ps == [] {
      assert ps + [p] == [p];
      assert [p][1..] == [];
    } else {
      ExpandAppend(ps[1..], p, blockSize);
      assert (ps + [p])[1..] == ps[1..] + [p];
    }
  }

  lemma {:induction false} PrintAppend(ps: seq<Piece>, p: Piece, blockSize: u32)
    requires AllPrintable(ps, blockSize) && Printable(p, blockSize)
    ensures PrintPieces(ps + [p], blockSize) == PrintPieces(ps, blockSize) + PrintPiece(p, blockSize)
  {
    hide PrintPiece;
    if ps == [] {
      assert ps + [p] == [p];
      assert [p][1..] == [];
    } else {
      PrintAppend(ps[1..], p, blockSize);
      assert (ps + [p])[1..] == ps[1..] + [p];
    }
  }

  /** The chunk the reader records for a piece printed at `pos`. */
  ghost function ChunkOf(p: Piece, blockSize: u32, pos: u64, start: u64): Chunk
    requires pos + CHUNK_HEADER_SIZE <= U64_MAX && PieceLength(p, blockSize) <= U64_MAX
  {
    match p
    case RawPiece(data) => Chunk(CHUNK_RAW, start, |data|, pos + CHUNK_HEADER_SIZE, [0, 0, 0, 0])
    case FillPiece(blocks, value) => Chunk(CHUNK_FILL, start, blocks * blockSize, pos + CHUNK_HEADER_SIZE, value)
    case SkipPiece(blocks) => Chunk(CHUNK_DONT_CARE, start, blocks * blockSize, pos + CHUNK_HEADER_SIZE, [0, 0, 0, 0])
    case CrcPiece(blocks, _) => Chunk(CHUNK_CRC, start, blocks * blockSize, pos + CHUNK_HEADER_SIZE, [0, 0, 0, 0])
  }

  lemma HeaderFields(kind: u16, blocks: u32, totalSize: u32)
    ensures var h := ChunkHeader(kind, blocks, totalSize);
            U16Of(h[0..2]) == kind && U32Of(h[4..8]) == blocks && U32Of(h[8..12]) == totalSize
  {
    hide U16Bytes, U32Bytes;
    var h := ChunkHeader(kind, blocks, totalSize);
    assert h[0..2] == U16Bytes(kind);
    assert h[4..8] == U32Bytes(blocks);
    assert h[8..12] == U32Bytes(totalSize);
  }

  /** Reading a chunk header back. */
  lemma ReadHeader(file: seq<byte>, pos: nat, kind: u16, blocks: u32, totalSize: u32)
    requires At(file, pos, ChunkHeader(kind, blocks, totalSize))
    ensures var h := ReadExact(file, pos, CHUNK_HEADER_SIZE);
            h.Ok? && U16Of(h.value[0..2]) == kind && U32Of(h.value[4..8]) == blocks
                && U32Of(h.value[8..12]) == totalSize
  {
    HeaderFields(kind, blocks, totalSize);
  }

  /** Parsing one printed piece. */
  ghost predicate ParsesAs(file: seq<byte>, pos: u64, p: Piece, blockSize: u32, start: u64) {
    && Printable(p, blockSize) && pos + CHUNK_HEADER_SIZE <= U64_MAX && PieceLength(p, blockSize) <= U64_MAX
    && ParseChunk(file, pos, CHUNK_HEADER_SIZE, blockSize, start)
       == Ok(ParsedChunk(ChunkOf(p, blockSize, pos, start), pos + |PrintPiece(p, blockSize)|))
  }

  lemma ParsePrintedRaw(file: seq<byte>, pos: u64, data: seq<byte>, blockSize: u32, start: u64)
    requires Printable(RawPiece(data), blockSize) && At(file, pos, PrintPiece(RawPiece(data), blockSize))
    requires |file| <= U64_MAX && start + |data| <= U64_MAX
    ensures ParsesAs(file, pos, RawPiece(data), blockSize, start)
  {
    hide U16Of, U32Of, ChunkHeader;
    var blocks, total := |data| / blockSize, |data| + CHUNK_HEADER_SIZE;
    AtSplit(file, pos, ChunkHeader(CHUNK_RAW, blocks, total), data);
    ReadHeader(file, pos, CHUNK_RAW, blocks, total);
    assert blocks * blockSize == |data|;
  }

  lemma ParsePrintedFill(file: seq<byte>, pos: u64, blocks: u32, value: FillValue, blockSize: u32, start: u64)
    requires At(file, pos, PrintPiece(FillPiece(blocks, value), blockSize))
    requires |file| <= U64_MAX && start + blocks * blockSize <= U64_MAX
    ensures ParsesAs(file, pos, FillPiece(blocks, value), blockSize, start)
  {
    hide U16Of, U32Of, ChunkHeader;
    AtSplit(file, pos, ChunkHeader(CHUNK_FILL, blocks, CHUNK_HEADER_SIZE + 4), value);
    ReadHeader(file, pos, CHUNK_FILL, blocks, CHUNK_HEADER_SIZE + 4);
  }

  lemma ParsePrintedSkip(file: seq<byte>, pos: u64, blocks: u32, blockSize: u32, start: u64)
    requires At(file, pos, PrintPiece(SkipPiece(blocks), blockSize))
    requires |file| <= U64_MAX && start + blocks * blockSize <= U64_MAX
    ensures ParsesAs(file, pos, SkipPiece(blocks), blockSize, start)
  {
    hide U16Of, U32Of, ChunkHeader;
    ReadHeader(file, pos, CHUNK_DONT_CARE, blocks, CHUNK_HEADER_SIZE);
  }

  lemma ParsePrintedCrc(file: seq<byte>, pos: u64, blocks: u32, checksum: seq<byte>, blockSize: u32, start: u64)
    requires |checksum| == 0 || |checksum| == 4
    requires At(file, pos, PrintPiece(CrcPiece(blocks, checksum), blockSize))
    requires |file| <= U64_MAX && start + blocks * blockSize <= U64_MAX
    ensures ParsesAs(file, pos, CrcPiece(blocks, checksum), blockSize, start)
  {
    hide U16Of, U32Of, ChunkHeader;
    AtSplit(file, pos, ChunkHeader(CHUNK_CRC, blocks, CHUNK_HEADER_SIZE + |checksum|), checksum);
    ReadHeader(file, pos, CHUNK_CRC, blocks, CHUNK_HEADER_SIZE + |checksum|);
  }

  lemma ParsePrintedPiece(file: seq<byte>, pos: u64, p: Piece, blockSize: u32, start: u64)
    requires Printable(p, blockSize) && At(file, pos, PrintPiece(p, blockSize))
    requires |file| <= U64_MAX && start + PieceLength(p, blockSize) <= U64_MAX
    ensures ParsesAs(file, pos, p, blockSize, start)
  {
    match p {
      case RawPiece(data) => ParsePrintedRaw(file, pos, data, blockSize, start);
      case FillPiece(blocks, value) => ParsePrintedFill(file, pos, blocks, value, blockSize, start);
      case SkipPiece(blocks) => ParsePrintedSkip(file, pos, blocks, blockSize, start);
      case CrcPiece(blocks, checksum) => ParsePrintedCrc(file, pos, blocks, checksum, blockSize, start);
    }
  }

  /** The chunk table delivers byte `k` of an expansion that begins at `start`. */
  ghost predicate Delivers(file: seq<byte>, chunks: seq<Chunk>, k: int, start: int, expansion: seq<byte>) {
    var c := ScanChunk(chunks, k);
    && c.Some? && Contains(c.value, k)
    && 0 <= k - start < |expansion| && ChunkByte(file, c.value, k) == Some(expansion[k - start])
  }

  /** Fill patterns only land in phase when every piece starts at a multiple of four. */
  ghost predicate InFillPhase(ps: seq<Piece>, blockSize: u32) {
    blockSize % 4 == 0 || forall i :: 0 <= i < |ps| ==> !ps[i].FillPiece?
  }

  /** The data of a RAW piece sits right behind its chunk header. */
  ghost predicate DataAt(file: seq<byte>, pos: nat, p: Piece) {
    p.RawPiece? ==>
      && pos + CHUNK_HEADER_SIZE + |p.data| <= |file|
      && forall i :: 0 <= i < |p.data| ==> file[pos + CHUNK_HEADER_SIZE + i] == p.data[i]
  }

  lemma PrintedData(file: seq<byte>, pos: nat, p: Piece, blockSize: u32)
    requires Printable(p, blockSize) && At(file, pos, PrintPiece(p, blockSize))
    ensures DataAt(file, pos, p)
  {
    if p.RawPiece? {
      var data := p.data;
      AtSplit(file, pos, ChunkHeader(CHUNK_RAW, |data| / blockSize, |data| + CHUNK_HEADER_SIZE), data);
      var from := pos + CHUNK_HEADER_SIZE;
      forall i | 0 <= i < |data| ensures file[from + i] == data[i] {
        assert file[from + i] == file[from..from + |data|][i];
      }
    }
  }

  lemma FillPosition(start: int, k: int)
    requires start % 4 == 0
    ensures k % 4 == (k - start) % 4
  {}

  /** A chunk holding `data` from `start` on. */
  ghost predicate ChunkHolds(file: seq<byte>, c: Chunk, start: nat, data: seq<byte>) {
    && c.logicalStart == start && c.logicalLen == |data|
    && forall k {:trigger Contains(c, k)} :: Contains(c, k) ==> ChunkByte(file, c, k) == Some(data[k - start])
  }

  lemma PieceHeld(file: seq<byte>, pos: u64, p: Piece, blockSize: u32, start: u64)
    requires DataAt(file, pos, p) && pos + CHUNK_HEADER_SIZE <= U64_MAX
    requires start + PieceLength(p, blockSize) <= U64_MAX
    requires p.FillPiece? ==> start % 4 == 0
    ensures ChunkHolds(file, ChunkOf(p, blockSize, pos, start), start, ExpandPiece(p, blockSize))
  {
    var c, data := ChunkOf(p, blockSize, pos, start), ExpandPiece(p, blockSize);
    forall k {:trigger Contains(c, k)} | Contains(c, k)
      ensures ChunkByte(file, c, k) == Some(data[k - start])
    {
      match p {
        case RawPiece(raw) =>
          assert file[pos + CHUNK_HEADER_SIZE + (k - start)] == raw[k - start];
        case FillPiece(blocks, value) =>
          FillPosition(start, k);
        case SkipPiece(_) =>
        case CrcPiece(_, _) =>
      }
    }
  }

  ghost predicate DeliversAll(file: seq<byte>, chunks: seq<Chunk>, start: int, expansion: seq<byte>) {
    forall k :: start <= k < start + |expansion| ==> Delivers(file, chunks, k, start, expansion)
  }

  /** A chunk in front of a table that delivers the rest. */
  lemma DeliversCons(file: seq<byte>, c: Chunk, data: seq<byte>, tail: seq<Chunk>, rest: seq<byte>, start: nat)
    requires ChunkHolds(file, c, start, data)
    requires DeliversAll(file, tail, start + |data|, rest)
    ensures DeliversAll(file, [c] + tail, start, data + rest)
  {
    var table, all, next := [c] + tail, data + rest, start + |data|;
    assert table[1..] == tail;
    forall k | start <= k < start + |all|
      ensures Delivers(file, table, k, start, all)
    {
      if k < next {
        assert Contains(c, k);
        assert all[k - start] == data[k - start];
      } else {
        assert Delivers(file, tail, k, next, rest);
        assert all[k - start] == rest[k - next];
      }
    }
  }

  /**
   Parsing a printed piece list yields a chunk table that delivers exactly the
   bytes the list expands to.
   */
  ghost predicate Understood(file: seq<byte>, pos: nat, ps: seq<Piece>, blockSize: u32, start: u64) {
    var r := ParseChunks(file, pos, |ps|, CHUNK_HEADER_SIZE, blockSize, start);
    var all := Expand(ps, blockSize);
    r.Ok? && r.value.1 == start + |all| && DeliversAll(file, r.value.0, start, all)
  }

  lemma {:induction false} UnderstoodCons(file: seq<byte>, pos: u64, p: Piece, rest: seq<Piece>, blockSize: u32,
                                          start: u64)
    requires ParsesAs(file, pos, p, blockSize, start) && DataAt(file, pos, p)
    requires p.FillPiece? ==> start % 4 == 0
    requires start + PieceLength(p, blockSize) <= U64_MAX
    requires Understood(file, pos + |PrintPiece(p, blockSize)|, rest, blockSize, start + PieceLength(p, blockSize))
    ensures Understood(file, pos, [p] + rest, blockSize, start)
  {
    hide PrintPiece, ParseChunk, ScanChunk;
    var ps := [p] + rest;
    assert ps[1..] == rest;
    var c, data := ChunkOf(p, blockSize, pos, start), ExpandPiece(p, blockSize);
    var tail := ParseChunks(file, pos + |PrintPiece(p, blockSize)|, |rest|, CHUNK_HEADER_SIZE, blockSize,
                            start + |data|).value;
    PieceHeld(file, pos, p, blockSize, start);
    DeliversCons(file, c, data, tail.0, Expand(rest, blockSize), start);
    assert ParseChunks(file, pos, |ps|, CHUNK_HEADER_SIZE, blockSize, start) == Ok(([c] + tail.0, tail.1));
  }

  lemma UnderstoodNil(file: seq<byte>, pos: nat, blockSize: u32, start: u64)
    ensures Understood(file, pos, [], blockSize, start)
  {}

  lemma {:induction false} ParsePrinted(file: seq<byte>, pos: u64, ps: seq<Piece>, blockSize: u32, start: u64)
    requires AllPrintable(ps, blockSize) && At(file, pos, PrintPieces(ps, blockSize)) && |file| <= U64_MAX
    requires start + |Expand(ps, blockSize)| <= U64_MAX
    requires InFillPhase(ps, blockSize) && (blockSize % 4 == 0 ==> start % 4 == 0)
    ensures Understood(file, pos, ps, blockSize, start)
    decreases |ps|
  {
    hide PrintPiece, Understood, ParsesAs, DataAt, At;
    if ps == [] {
      UnderstoodNil(file, pos, blockSize, start);
    } else {
      var p, rest := ps[0], ps[1..];
      assert ps == [p] + rest;
      var next, after := StepOver(file, pos, p, rest, blockSize, start);
      ParsePrinted(file, next, rest, blockSize, after);
      UnderstoodCons(file, pos, p, rest, blockSize, start);
    }
  }

  /** The first piece parses and leaves the remaining ones behind it. */
  lemma StepOver(file: seq<byte>, pos: u64, p: Piece, rest: seq<Piece>, blockSize: u32, start: u64)
    returns (next: u64, after: u64)
    requires Printable(p, blockSize) && AllPrintable(rest, blockSize) && |file| <= U64_MAX
    requires At(file, pos, PrintPiece(p, blockSize) + PrintPieces(rest, blockSize))
    requires start + PieceLength(p, blockSize) + |Expand(rest, blockSize)| <= U64_MAX
    requires blockSize % 4 == 0 ==> start % 4 == 0
    ensures next == pos + |PrintPiece(p, blockSize)| && after == start + PieceLength(p, blockSize)
    ensures ParsesAs(file, pos, p, blockSize, start) && DataAt(file, pos, p)
    ensures At(file, next, PrintPieces(rest, blockSize))
    ensures blockSize % 4 == 0 ==> after % 4 == 0
  {
    hide PrintPiece, PrintPieces, ParseChunk, ChunkOf;
    AtSplit(file, pos, PrintPiece(p, blockSize), PrintPieces(rest, blockSize));
    next, after := pos + |PrintPiece(p, blockSize)|, start + PieceLength(p, blockSize);
    ParsePrintedPiece(file, pos, p, blockSize, start);
    PrintedData(file, pos, p, blockSize);
    if blockSize % 4 == 0 {
      PieceKeepsPhase(p, blockSize, start);
    }
  }

  /** A printable piece is whole blocks. */
  lemma PieceBlocksOf(p: Piece, blockSize: u32) returns (n: nat)
    requires Printable(p, blockSize)
    ensures PieceLength(p, blockSize) == n * blockSize
  {
    n := match p
      case RawPiece(data) => |data| / blockSize
      case FillPiece(blocks, _) => blocks
      case SkipPiece(blocks) => blocks
      case CrcPiece(blocks, _) => blocks;
  }

  lemma ProductOfFours(n: nat, b: nat)
    requires b % 4 == 0
    ensures n * b % 4 == 0
  {
    var q := b / 4;
    assert n * (q * 4) == (n * q) * 4;
  }

  lemma SumOfFours(a: nat, b: nat)
    requires a % 4 == 0 && b % 4 == 0
    ensures (a + b) % 4 == 0
  {}

  lemma PieceOfFours(p: Piece, blockSize: u32)
    requires Printable(p, blockSize) && blockSize % 4 == 0
    ensures PieceLength(p, blockSize) % 4 == 0
  {
    hide PieceLength;
    var n := PieceBlocksOf(p, blockSize);
    ProductOfFours(n, blockSize);
  }

  lemma PieceKeepsPhase(p: Piece, blockSize: u32, start: nat)
    requires Printable(p, blockSize) && blockSize % 4 == 0 && start % 4 == 0
    ensures (start + PieceLength(p, blockSize)) % 4 == 0
  {
    hide PieceLength, Printable;
    PieceOfFours(p, blockSize);
    SumOfFours(start, PieceLength(p, blockSize));
  }

  lemma FileHeaderFields(blockSize: u32, totalBlocks: u32, totalChunks: u32)
    ensures var h := FileHeader(blockSize, totalBlocks, totalChunks);
            && U32Of(h[0..4]) == SPARSE_MAGIC && U16Of(h[4..6]) == 1
            && U16Of(h[8..10]) == HEADER_SIZE && U16Of(h[10..12]) == CHUNK_HEADER_SIZE
            && U32Of(h[12..16]) == blockSize && U32Of(h[16..20]) == totalBlocks && U32Of(h[20..24]) == totalChunks
  {
    hide U16Bytes, U32Bytes;
    var h := FileHeader(blockSize, totalBlocks, totalChunks);
    assert h[0..4] == U32Bytes(SPARSE_MAGIC);
    assert h[4..6] == U16Bytes(1);
    assert h[8..10] == U16Bytes(HEADER_SIZE);
    assert h[10..12] == U16Bytes(CHUNK_HEADER_SIZE);
    assert h[12..16] == U32Bytes(blockSize);
    assert h[16..20] == U32Bytes(totalBlocks);
    assert h[20..24] == U32Bytes(totalChunks);
  }

  /** With the header read back, opening a printed file is parsing its pieces. */
  lemma OpenPrintedHeader(ps: seq<Piece>, blockSize: u32, totalBlocks: u32)
    requires blockSize > 0 && AllPrintable(ps, blockSize) && |ps| <= U32_MAX
    ensures var file := PrintFile(ps, blockSize, totalBlocks);
            var parsed := ParseChunks(file, HEADER_SIZE, |ps|, CHUNK_HEADER_SIZE, blockSize, 0);
            Opened(file) ==
            if |ps| > MAX_CHUNKS then Err(Invalid)
            else if parsed.Err? then Err(parsed.error)
            else if parsed.value.1 != totalBlocks * blockSize then Err(Invalid)
            else Ok(Sparse(file, blockSize, parsed.value.1, parsed.value.0))
  {
    hide U16Of, U32Of, ParseChunks, PrintPieces, FileHeader;
    var file := PrintFile(ps, blockSize, totalBlocks);
    var h := FileHeader(blockSize, totalBlocks, |ps|);
    ProductFits(totalBlocks, blockSize);
    FileHeaderFields(blockSize, totalBlocks, |ps|);
    SameHeader(file, h);
  }

  lemma SameHeader(file: seq<byte>, h: seq<byte>)
    requires |h| == HEADER_SIZE && h <= file
    ensures file[0..4] == h[0..4] && file[4..6] == h[4..6] && file[8..10] == h[8..10] && file[10..12] == h[10..12]
    ensures file[12..16] == h[12..16] && file[16..20] == h[16..20] && file[20..24] == h[20..24]
  {}

  /**
   Opening a printed file: it is accepted exactly when the chunk count is within
   the reader's cap, and the opened image is the expansion, byte for byte.
   */
  lemma OpenPrinted(ps: seq<Piece>, blockSize: u32, totalBlocks: u32)
    requires blockSize > 0 && AllPrintable(ps, blockSize) && |ps| <= U32_MAX
    requires |Expand(ps, blockSize)| == totalBlocks * blockSize
    requires |PrintFile(ps, blockSize, totalBlocks)| <= U64_MAX
    requires InFillPhase(ps, blockSize)
    ensures var r := Opened(PrintFile(ps, blockSize, totalBlocks));
            && (r.Ok? <==> |ps| <= MAX_CHUNKS)
            && (r.Ok? ==> ValidImage(r.value) && r.value.Sparse? && Holds(r.value, Expand(ps, blockSize)))
  {
    var file := PrintFile(ps, blockSize, totalBlocks);
    hide PrintPieces, FileHeader, ParseChunks, ParsedSparse, Opened, ValidImage, Expand, PrintFile;
    ProductFits(totalBlocks, blockSize);
    OpenedIsValid(file);
    OpenPrintedHeader(ps, blockSize, totalBlocks);
    PiecesAfterHeader(ps, blockSize, totalBlocks);
    ParsePrinted(file, HEADER_SIZE, ps, blockSize, 0);
    UnderstoodImage(file, ps, blockSize);
  }

  lemma PiecesAfterHeader(ps: seq<Piece>, blockSize: u32, totalBlocks: u32)
    requires AllPrintable(ps, blockSize) && |ps| <= U32_MAX
    ensures At(PrintFile(ps, blockSize, totalBlocks), HEADER_SIZE, PrintPieces(ps, blockSize))
  {
    hide PrintPieces, FileHeader;
  }

  lemma UnderstoodImage(file: seq<byte>, ps: seq<Piece>, blockSize: u32)
    requires Understood(file, HEADER_SIZE, ps, blockSize, 0) && |Expand(ps, blockSize)| <= U64_MAX
    ensures var parsed := ParseChunks(file, HEADER_SIZE, |ps|, CHUNK_HEADER_SIZE, blockSize, 0);
            Holds(Sparse(file, blockSize, parsed.value.1, parsed.value.0), Expand(ps, blockSize))
  {
    hide ParseChunks, Expand, ChunkByte, ScanChunk;
    var parsed := ParseChunks(file, HEADER_SIZE, |ps|, CHUNK_HEADER_SIZE, blockSize, 0);
    forall k | 0 <= k < |Expand(ps, blockSize)|
      ensures ByteAt(Sparse(file, blockSize, parsed.value.1, parsed.value.0), k) == Some(Expand(ps, blockSize)[k])
    {
      assert Delivers(file, parsed.value.0, k, 0, Expand(ps, blockSize));
    }
  }

  // ------------------------------------------------------ the fill phase

  /** Every fill chunk reads as its pattern repeated from the chunk's own start. */
  ghost predicate FillsRepeat(img: Image)
    requires img.Sparse?
  {
    forall i, k {:trigger Contains(img.chunks[i], k)} ::
      0 <= i < |img.chunks| && img.chunks[i].kind == CHUNK_FILL && Contains(img.chunks[i], k) ==>
        ChunkByte(img.file, img.chunks[i], k) == Some(img.chunks[i].fillValue[(k - img.chunks[i].logicalStart) % 4])
  }

  lemma MultipleOfMultiple(x: nat, b: nat)
    requires b > 0 && x % b == 0 && b % 4 == 0
    ensures x % 4 == 0
  {
    assert x == (x / b) * b;
    assert (x / b) * b == ((x / b) * (b / 4)) * 4;
  }

  /** The file opens as a sparse image of that block size. */
  ghost predicate OpensWith(file: seq<byte>, blockSize: u32) {
    |file| <= U64_MAX && Opened(file).Ok? && Opened(file).value.Sparse? && Opened(file).value.blockSize == blockSize
  }

  /** A skipped block followed by a filled one. */
  ghost function SkipThenFill(blockSize: u32): seq<byte> {
    PrintFile([SkipPiece(1), FillPiece(1, [0, 1, 2, 3])], blockSize, 2)
  }

  lemma SkipThenFillOpens(blockSize: u32)
    requires blockSize > 0
    ensures var r := Opened(SkipThenFill(blockSize));
            && |SkipThenFill(blockSize)| <= U64_MAX && r.Ok? && r.value.Sparse? && r.value.blockSize == blockSize
            && |r.value.chunks| == 2
            && r.value.chunks[1].kind == CHUNK_FILL && r.value.chunks[1].fillValue == [0, 1, 2, 3]
            && r.value.chunks[1].logicalStart == blockSize && r.value.chunks[1].logicalLen == blockSize
  {
    hide ChunkHeader, ParseChunk, U16Of, U32Of, Opened, FileHeader;
    var skip, fill := SkipPiece(1), FillPiece(1, [0, 1, 2, 3]);
    var ps := [skip, fill];
    assert ps[1..] == [fill] && ps[1..][1..] == [];
    var file := SkipThenFill(blockSize);
    var a, b := PrintPiece(skip, blockSize), PrintPiece(fill, blockSize);
    assert PrintPieces(ps[1..], blockSize) == b + PrintPieces(ps[1..][1..], blockSize) == b;
    assert PrintPieces(ps, blockSize) == a + b;
    PiecesAfterHeader(ps, blockSize, 2);
    AtSplit(file, HEADER_SIZE, a, b);
    ParsePrintedPiece(file, HEADER_SIZE, skip, blockSize, 0);
    ParsePrintedPiece(file, HEADER_SIZE + |a|, fill, blockSize, blockSize);
    OpenPrintedHeader(ps, blockSize, 2);
    var c, d := ChunkOf(skip, blockSize, HEADER_SIZE, 0), ChunkOf(fill, blockSize, HEADER_SIZE + |a|, blockSize);
    var last := ParseChunks(file, HEADER_SIZE + |a|, 1, CHUNK_HEADER_SIZE, blockSize, blockSize);
    assert last == Ok(([d] + [], 2 * blockSize));
    assert ParseChunks(file, HEADER_SIZE, 2, CHUNK_HEADER_SIZE, blockSize, 0)
        == Ok(([c] + last.value.0, 2 * blockSize));
  }

  /**
   The reader indexes a fill pattern by the absolute position. For a block size
   this agrees with repeating the pattern per chunk on every accepted file if and
   only if the block size is a multiple of four.
   */
  lemma FillPhaseExact(blockSize: u32)
    requires blockSize > 0
    ensures blockSize % 4 == 0 <==>
            forall file :: OpensWith(file, blockSize) ==> FillsRepeat(Opened(file).value)
  {
    hide Opened, SkipThenFill;
    if blockSize % 4 == 0 {
      forall file | OpensWith(file, blockSize)
        ensures FillsRepeat(Opened(file).value)
      {
        OpenedIsValid(file);
        FillsInPhase(Opened(file).value);
      }
    } else {
      SkipThenFillOpens(blockSize);
      assert OpensWith(SkipThenFill(blockSize), blockSize);
      var img := Opened(SkipThenFill(blockSize)).value;
      assert Contains(img.chunks[1], blockSize);
      assert ChunkByte(img.file, img.chunks[1], blockSize) == Some(img.chunks[1].fillValue[blockSize % 4]);
    }
  }

  predicate SurvivesAt(c: Chunk, o: nat)
    requires o < 4
  {
    o < c.logicalLen ==> c.fillValue[(c.logicalStart + o) % 4] == c.fillValue[o]
  }

  /** Shifting the pattern by the chunk's start does not show in the chunk. */
  predicate PatternSurvives(c: Chunk) {
    SurvivesAt(c, 0) && SurvivesAt(c, 1) && SurvivesAt(c, 2) && SurvivesAt(c, 3)
  }

  /** What one position of a fill chunk reads, and what the repeated pattern has there. */
  lemma FillByteAt(file: seq<byte>, c: Chunk, k: int)
    requires c.kind == CHUNK_FILL && Contains(c, k)
    ensures ChunkByte(file, c, k) == Some(c.fillValue[(k - c.logicalStart) % 4])
            <==> c.fillValue[(c.logicalStart + (k - c.logicalStart) % 4) % 4] == c.fillValue[(k - c.logicalStart) % 4]
  {
    assert (c.logicalStart + (k - c.logicalStart) % 4) % 4 == k % 4;
  }

  lemma ChunkSurvives(img: Image, i: nat)
    requires img.Sparse? && FillsRepeat(img) && i < |img.chunks| && img.chunks[i].kind == CHUNK_FILL
    ensures PatternSurvives(img.chunks[i])
  {
    var c := img.chunks[i];
    forall o: nat | o < 4 ensures SurvivesAt(c, o) {
      if o < c.logicalLen {
        assert Contains(img.chunks[i], c.logicalStart + o);
        FillByteAt(img.file, c, c.logicalStart + o);
      }
    }
  }

  /** For one image: its fill chunks repeat if and only if each pattern survives its shift. */
  lemma FillsRepeatExactly(img: Image)
    requires img.Sparse?
    ensures FillsRepeat(img)
            <==> forall i :: 0 <= i < |img.chunks| && img.chunks[i].kind == CHUNK_FILL ==>
                PatternSurvives(img.chunks[i])
  {
    hide PatternSurvives;
    if FillsRepeat(img) {
      forall i | 0 <= i < |img.chunks| && img.chunks[i].kind == CHUNK_FILL ensures PatternSurvives(img.chunks[i]) {
        ChunkSurvives(img, i);
      }
    } else {
      var i, k {:trigger Contains(img.chunks[i], k)} :|
        0 <= i < |img.chunks| && img.chunks[i].kind == CHUNK_FILL && Contains(img.chunks[i], k)
        && ChunkByte(img.file, img.chunks[i], k) != Some(img.chunks[i].fillValue[(k - img.chunks[i].logicalStart) % 4]);
      NotSurvived(img.file, img.chunks[i], k);
    }
  }

  lemma NotSurvived(file: seq<byte>, c: Chunk, k: int)
    requires c.kind == CHUNK_FILL && Contains(c, k)
    requires ChunkByte(file, c, k) != Some(c.fillValue[(k - c.logicalStart) % 4])
    ensures !PatternSurvives(c)
  {
    FillByteAt(file, c, k);
    var o := (k - c.logicalStart) % 4;
    assert o <= k - c.logicalStart;
    assert !SurvivesAt(c, o);
  }

  lemma FillsInPhase(img: Image)
    requires img.Sparse? && ValidImage(img) && img.blockSize > 0 && img.blockSize % 4 == 0
    ensures FillsRepeat(img)
  {
    forall i, k {:trigger Contains(img.chunks[i], k)} |
        0 <= i < |img.chunks| && img.chunks[i].kind == CHUNK_FILL && Contains(img.chunks[i], k)
      ensures ChunkByte(img.file, img.chunks[i], k)
              == Some(img.chunks[i].fillValue[(k - img.chunks[i].logicalStart) % 4])
    {
      MultipleOfMultiple(img.chunks[i].logicalStart, img.blockSize);
      FillPosition(img.chunks[i].logicalStart, k);
    }
  }
}
