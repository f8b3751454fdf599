/**
 The streaming raw-to-sparse encoder (`sparse.rs`): zero blocks become DONT_CARE
 chunks, other blocks RAW chunks, with two mutually exclusive run accumulators
 and a capped raw buffer.
 */
module SparseEncoder {
  import opened Arithmetic
  import opened Base
  import opened SparseFormat
  import opened SparseImage

  const MIN_BLOCK: int := 512
  const MAX_BLOCK: int := 1024 * 1024
  const MAX_RAW_RUN: int := 8 * 1024 * 1024
  const WINDOW: int := 4 * 1024 * 1024

  predicate AllZero(block: seq<byte>) {
    forall i :: 0 <= i < |block| ==> block[i] == 0
  }

  /** `data` is cut into whole blocks, none of which is all zero. */
  ghost predicate NonZeroBlocks(data: seq<byte>, blockSize: nat)
    decreases |data|
  {
    data == [] ||
    (0 < blockSize <= |data| && !AllZero(data[..blockSize]) && NonZeroBlocks(data[blockSize..], blockSize))
  }

  /**
   RAW pieces store non-zero blocks only, and end with the block that fills the
   buffer; no piece is empty and none is a fill.
   */
  ghost predicate Tight(p: Piece, blockSize: u32) {
    match p
    case RawPiece(data) => data != [] && NonZeroBlocks(data, blockSize) && |data| < MAX_RAW_RUN + blockSize
    case SkipPiece(blocks) => blocks > 0
    case FillPiece(_, _) => false
    case CrcPiece(_, _) => false
  }

  /** Runs are maximal: only a full raw buffer splits one. */
  ghost predicate MayFollow(before: Piece, p: Piece) {
    && (before.SkipPiece? ==> p.RawPiece?)
    && (before.RawPiece? && p.RawPiece? ==> |before.data| >= MAX_RAW_RUN)
  }

  ghost predicate MayEnd(ps: seq<Piece>, p: Piece) {
    ps != [] ==> MayFollow(ps[|ps| - 1], p)
  }

  /**
   A faithful encoding expands to the raw data, stores no zero block, splits no
   run needlessly, and fits the format.
   */
  ghost predicate Encoding(ps: seq<Piece>, raw: seq<byte>, blockSize: u32) {
    && AllPrintable(ps, blockSize)
    && (forall i :: 0 <= i < |ps| ==> Tight(ps[i], blockSize) && MayEnd(ps[..i], ps[i]))
    && Expand(ps, blockSize) == raw
  }

  /** `file` is a printed faithful encoding of `raw`. */
  ghost predicate Encodes(file: seq<byte>, raw: seq<byte>, blockSize: u32, ps: seq<Piece>) {
    && blockSize > 0 && |raw| % blockSize == 0 && |raw| / blockSize <= U32_MAX && |ps| <= |raw| / blockSize
    && Encoding(ps, raw, blockSize)
    && file == PrintFile(ps, blockSize, |raw| / blockSize)
  }

  /** A pending raw run of a number of whole non-zero blocks. */
  ghost predicate IsRun(run: seq<byte>, blocks: nat, blockSize: nat) {
    |run| == blocks * blockSize && NonZeroBlocks(run, blockSize) && (run == [] <==> blocks == 0)
  }

  lemma RunGrows(run: seq<byte>, blocks: nat, block: seq<byte>, blockSize: nat)
    requires IsRun(run, blocks, blockSize) && |block| == blockSize > 0 && !AllZero(block)
    ensures IsRun(run + block, blocks + 1, blockSize)
  {
    MulSucc(blocks, blockSize);
    NonZeroAppend(run, block, blockSize);
  }

  lemma RunIsPrintable(run: seq<byte>, blocks: nat, blockSize: u32)
    requires IsRun(run, blocks, blockSize) && 0 < blocks <= U32_MAX && blockSize > 0
             && |run| + CHUNK_HEADER_SIZE <= U32_MAX
    requires |run| < MAX_RAW_RUN + blockSize
    ensures Printable(RawPiece(run), blockSize) && Tight(RawPiece(run), blockSize) && |run| / blockSize == blocks
  {
    DivModUnique(|run|, blocks, blockSize, 0);
  }

  lemma {:induction false} NonZeroAppend(data: seq<byte>, block: seq<byte>, blockSize: nat)
    requires NonZeroBlocks(data, blockSize) && |block| == blockSize > 0 && !AllZero(block)
    ensures NonZeroBlocks(data + block, blockSize)
    decreases |data|
  {
    if data == [] {
      assert data + block == block && block[..blockSize] == block && block[blockSize..] == [];
    } else {
      NonZeroAppend(data[blockSize..], block, blockSize);
      assert (data + block)[..blockSize] == data[..blockSize];
      assert (data + block)[blockSize..] == data[blockSize..] + block;
    }
  }

  function ZeroRun(blocks: nat, blockSize: nat): seq<byte> {
    Zeros(blocks * blockSize)
  }

  lemma ZerosAppend(n: nat, m: nat)
    ensures Zeros(n) + Zeros(m) == Zeros(n + m)
  {}

  /** Appending one piece to a file and to its encoding. */
  lemma PieceAppended(ps: seq<Piece>, p: Piece, raw: seq<byte>, blockSize: u32)
    requires Encoding(ps, raw, blockSize) && Printable(p, blockSize) && Tight(p, blockSize) && MayEnd(ps, p)
    ensures Encoding(ps + [p], raw + ExpandPiece(p, blockSize), blockSize)
    ensures PrintPieces(ps + [p], blockSize) == PrintPieces(ps, blockSize) + PrintPiece(p, blockSize)
  {
    hide Expand, PrintPiece, PrintPieces, ExpandPiece, Tight, Printable, MayEnd;
    ExpandAppend(ps, p, blockSize);
    PrintAppend(ps, p, blockSize);
    var all := ps + [p];
    assert forall i :: 0 <= i < |ps| ==> all[..i] == ps[..i];
    assert all[..|ps|] == ps;
  }

  class Encoder {
    const blockSize: u32
    var out: seq<byte>
    var rawRun: seq<byte>
    var rawRunBlocks: u64
    var careRunBlocks: u64
    var totalChunks: u32
    ghost const header: seq<byte>
    ghost var pieces: seq<Piece>
    ghost var encoded: seq<byte>
    ghost var blocksSeen: nat

    /** Everything read so far: what is encoded, then the one pending run. */
    ghost function Seen(): seq<byte>
      reads this
    {
      encoded + rawRun + ZeroRun(careRunBlocks, blockSize)
    }

    /** The file so far is the header and the printed encoding of `encoded`. */
    ghost predicate Consistent()
      reads `pieces, `encoded, `out, `totalChunks
    {
      && Encoding(pieces, encoded, blockSize)
      && out == header + PrintPieces(pieces, blockSize)
      && totalChunks == |pieces|
    }

    /** The pending run, once written, continues the pieces without a needless split. */
    ghost predicate Valid()
      reads this
    {
      && MIN_BLOCK <= blockSize <= MAX_BLOCK
      && Consistent()
      && IsRun(rawRun, rawRunBlocks, blockSize)
      && (rawRunBlocks == 0 || careRunBlocks == 0)
      && (rawRunBlocks > 0 ==> MayEnd(pieces, RawPiece(rawRun)))
      && (careRunBlocks > 0 ==> MayEnd(pieces, SkipPiece(1)))
      && |pieces| + rawRunBlocks + careRunBlocks <= blocksSeen <= U32_MAX
    }

    /** Between blocks: with nothing pending, the last piece is a full raw run. */
    ghost predicate Ready()
      reads this
    {
      && Valid() && |rawRun| < MAX_RAW_RUN
      && (rawRunBlocks == 0 && careRunBlocks == 0 && pieces != [] ==>
            pieces[|pieces| - 1].RawPiece? && |pieces[|pieces| - 1].data| >= MAX_RAW_RUN)
    }

    constructor (blockSize: u32, header: seq<byte>)
      requires MIN_BLOCK <= blockSize <= MAX_BLOCK
      ensures Ready() && Seen() == [] && blocksSeen == 0
      ensures this.blockSize == blockSize && this.header == header
    {
      this.blockSize := blockSize;
      this.header := header;
      out := header;
      rawRun, rawRunBlocks, careRunBlocks, totalChunks := [], 0, 0, 0;
      pieces, encoded, blocksSeen := [], [], 0;
    }

    /** Appends one printed piece to the file. */
    method Emit(printed: seq<byte>, ghost p: Piece)
      requires Consistent() && |pieces| < U32_MAX
      requires Printable(p, blockSize) && Tight(p, blockSize) && MayEnd(pieces, p)
               && printed == PrintPiece(p, blockSize)
      modifies `out, `totalChunks, `pieces, `encoded
      ensures Consistent() && pieces == old(pieces) + [p]
      ensures encoded == old(encoded) + ExpandPiece(p, blockSize)
    {
      hide PrintPieces, PrintPiece, ExpandPiece, Encoding, Printable, Tight, MayEnd;
      PieceAppended(pieces, p, encoded, blockSize);
      out := out + printed;
      totalChunks := Min(totalChunks + 1, U32_MAX);
      pieces, encoded := pieces + [p], encoded + ExpandPiece(p, blockSize);
    }

    /** Writes the pending RAW run as one chunk. */
    method FlushRaw() returns (r: Result<()>)
      requires Valid() && |rawRun| < MAX_RAW_RUN + blockSize
      modifies this
      ensures Valid() && r.Ok? && Seen() == old(Seen()) && blocksSeen == old(blocksSeen)
      ensures rawRunBlocks == 0 && rawRun == [] && careRunBlocks == old(careRunBlocks)
      ensures pieces == if old(rawRunBlocks) == 0 then old(pieces) else old(pieces) + [RawPiece(old(rawRun))]
    {
      hide PrintPieces, Encoding, MayEnd, Printable, Tight, Consistent;
      if rawRunBlocks == 0 {
        return Ok(());
      }
      if rawRunBlocks > U32_MAX {
        return Err(Invalid);
      }
      var totalSize := SaturatingAdd(CHUNK_HEADER_SIZE, |rawRun|);
      if totalSize > U32_MAX {
        return Err(Invalid);
      }
      RunIsPrintable(rawRun, rawRunBlocks, blockSize);
      Emit(ChunkHeader(CHUNK_RAW, rawRunBlocks, totalSize) + rawRun, RawPiece(rawRun));
      rawRun := [];
      rawRunBlocks := 0;
      assert IsRun(rawRun, 0, blockSize);
      r := Ok(());
    }

    /** Writes the pending zero run as DONT_CARE chunks of at most 2^32 - 1 blocks. */
    method FlushCare()
      requires Valid() && rawRunBlocks == 0
      modifies this
      ensures Valid() && Seen() == old(Seen()) && blocksSeen == old(blocksSeen)
      ensures careRunBlocks == 0 && rawRunBlocks == 0 && rawRun == []
      ensures pieces == if old(careRunBlocks) == 0 then old(pieces) else old(pieces) + [SkipPiece(old(careRunBlocks))]
    {
      hide PrintPieces, Encoding, Consistent, IsRun;
      EmptyRun(rawRun, rawRunBlocks, blockSize);
      var left := careRunBlocks;
      ghost var before, start, all := pieces, encoded, Seen();
      assert Seen() == encoded + ZeroRun(careRunBlocks, blockSize);
      while left > 0
        invariant Consistent() && (left == 0 || left == careRunBlocks)
        invariant rawRun == [] && rawRunBlocks == 0
        invariant blocksSeen == old(blocksSeen) && careRunBlocks == old(careRunBlocks)
        invariant left > 0 ==> pieces == before && encoded == start
        invariant left == 0 ==> pieces == if careRunBlocks == 0 then before else before + [SkipPiece(careRunBlocks)]
        invariant left == 0 ==> encoded == all
        decreases left
      {
        var n: u32 := Min(left, U32_MAX);
        Emit(ChunkHeader(CHUNK_DONT_CARE, n, CHUNK_HEADER_SIZE), SkipPiece(n));
        left := left - n;
      }
      careRunBlocks := 0;
      assert Seen() == encoded;
    }

    method AddZero(block: seq<byte>)
      requires Ready() && |block| == blockSize && blocksSeen < U32_MAX && AllZero(block)
      modifies this
      ensures Ready() && Seen() == old(Seen()) + block && blocksSeen == old(blocksSeen) + 1
    {
      hide Expand, Encoding, IsRun, Consistent, ZeroRun;
      if rawRunBlocks > 0 {
        var flushed := FlushRaw();
      }
      assert rawRun == [] by { EmptyRun(rawRun, rawRunBlocks, blockSize); }
      assert encoded + rawRun == encoded;
      ZeroGrows(encoded, careRunBlocks, block, blockSize);
      careRunBlocks := careRunBlocks + 1;
      blocksSeen := blocksSeen + 1;
    }

    method AddData(block: seq<byte>)
      requires Ready() && |block| == blockSize && blocksSeen < U32_MAX && !AllZero(block)
      modifies this
      ensures Ready() && Seen() == old(Seen()) + block && blocksSeen == old(blocksSeen) + 1
    {
      hide Expand, Encoding, IsRun, Consistent, ZeroRun;
      if careRunBlocks > 0 {
        FlushCare();
      }
      RunGrows(rawRun, rawRunBlocks, block, blockSize);
      NoZeros(encoded + rawRun, block, blockSize);
      rawRun := rawRun + block;
      rawRunBlocks := rawRunBlocks + 1;
      blocksSeen := blocksSeen + 1;
      if |rawRun| >= MAX_RAW_RUN {
        var flushed := FlushRaw();
      }
    }

    /** Classifies one block and adds it to the matching run. */
    method Add(block: seq<byte>)
      requires Ready() && |block| == blockSize && blocksSeen < U32_MAX
      modifies this
      ensures Ready() && Seen() == old(Seen()) + block && blocksSeen == old(blocksSeen) + 1
    {
      if AllZero(block) {
        AddZero(block);
      } else {
        AddData(block);
      }
    }

    /** Adds a window of whole blocks, block by block. */
    method AddWindow(window: seq<byte>)
      requires Ready()
      requires |window| % blockSize == 0 && blocksSeen + |window| / blockSize <= U32_MAX
      modifies this
      ensures Ready()
      ensures Seen() == old(Seen()) + window && blocksSeen == old(blocksSeen) + |window| / blockSize
    {
      hide Consistent, IsRun, Seen, MayEnd;
      var blocksHere := |window| / blockSize;
      for b := 0 to blocksHere
        invariant Ready() && blocksSeen == old(blocksSeen) + b
        invariant 0 <= b * blockSize <= |window| && Seen() == old(Seen()) + window[..b * blockSize]
      {
        WindowBlock(window, blockSize, b, blocksHere);
        Add(window[b * blockSize..b * blockSize + blockSize]);
      }
      assert window[..blocksHere * blockSize] == window;
    }

    /** Flushes both runs and patches the chunk counter into the header. */
    method Finish(totalBlocks: u32) returns (file: seq<byte>)
      requires Ready() && header == FileHeader(blockSize, totalBlocks, 0)
      modifies this
      ensures Consistent() && |pieces| <= blocksSeen == old(blocksSeen) && encoded == old(Seen())
      ensures file == PrintFile(pieces, blockSize, totalBlocks)
    {
      hide PrintPieces, Expand, NonZeroBlocks, FileHeader;
      var flushed := FlushRaw();
      FlushCare();
      assert Seen() == encoded;
      PatchCount(blockSize, totalBlocks, totalChunks, PrintPieces(pieces, blockSize));
      file := Overwrite(out, 20, U32Bytes(totalChunks));
    }
  }

  lemma EmptyRun(run: seq<byte>, blocks: nat, blockSize: nat)
    requires IsRun(run, blocks, blockSize) && blocks == 0
    ensures run == []
  {}

  lemma NoZeros(data: seq<byte>, block: seq<byte>, blockSize: nat)
    ensures data + ZeroRun(0, blockSize) + block == data + block + ZeroRun(0, blockSize)
  {}

  /** A zero block lengthens the pending zero run. */
  lemma ZeroGrows(encoded: seq<byte>, blocks: nat, block: seq<byte>, blockSize: nat)
    requires |block| == blockSize && AllZero(block)
    ensures encoded + ZeroRun(blocks, blockSize) + block == encoded + ZeroRun(blocks + 1, blockSize)
  {
    MulSucc(blocks, blockSize);
    assert block == Zeros(blockSize);
    ZerosAppend(blocks * blockSize, blockSize);
  }

  /** Patching the chunk counter turns the provisional header into the final one. */
  lemma PatchCount(blockSize: u32, totalBlocks: u32, count: u32, body: seq<byte>)
    ensures Overwrite(FileHeader(blockSize, totalBlocks, 0) + body, 20, U32Bytes(count))
            == FileHeader(blockSize, totalBlocks, count) + body
  {
    hide U16Bytes, U32Bytes;
    var h, h' := FileHeader(blockSize, totalBlocks, 0), FileHeader(blockSize, totalBlocks, count);
    assert h'[..20] == h[..20] && h'[20..24] == U32Bytes(count) && h'[24..] == h[24..];
    PatchField(h + body, h' + body, 20, U32Bytes(count));
  }

  lemma PatchField(before: seq<byte>, after: seq<byte>, at: nat, field: seq<byte>)
    requires |before| == |after| && at + |field| <= |before|
    requires before[..at] == after[..at] && after[at..at + |field|] == field
             && before[at + |field|..] == after[at + |field|..]
    ensures Overwrite(before, at, field) == after
  {
    assert after == after[..at] + after[at..at + |field|] + after[at + |field|..];
  }

  /** Cutting the `b`-th block off a window of whole blocks. */
  lemma WindowBlock(window: seq<byte>, blockSize: nat, b: nat, blocks: nat)
    requires |window| == blocks * blockSize && b < blocks
    ensures 0 <= b * blockSize && b * blockSize + blockSize <= |window|
            && (b + 1) * blockSize == b * blockSize + blockSize
    ensures window[..b * blockSize] + window[b * blockSize..b * blockSize + blockSize] == window[..(b + 1) * blockSize]
  {
    MulSucc(b, blockSize);
    MulMonotone(b + 1, blocks, blockSize);
    MulMonotone(0, b, blockSize);
  }

  /**
   Encodes a raw image. It succeeds exactly for a supported block size and a
   non-empty image of whole blocks, at most 2^32 - 1 of them; the file is the
   printed faithful encoding of the image.
   */
  method RawToSparse(raw: seq<byte>, blockSize: u32) returns (r: Result<seq<byte>>, ghost ps: seq<Piece>)
    requires |raw| <= U64_MAX
    ensures r.Ok? <==>
              512 <= blockSize <= 1048576 && raw != [] && |raw| % blockSize == 0 && |raw| / blockSize <= 0xFFFF_FFFF
    ensures r.Ok? ==> Encodes(r.value, raw, blockSize, ps)
  {
    hide PrintPieces, PrintFile, Expand, Encoding, NonZeroBlocks, FileHeader;
    ps := [];
    if !(MIN_BLOCK <= blockSize <= MAX_BLOCK) {
      return Err(Invalid), ps;
    }
    var rawLen := |raw|;
    if rawLen == 0 {
      return Err(Invalid), ps;
    }
    if rawLen % blockSize != 0 {
      return Err(Invalid), ps;
    }
    var totalBlocks := rawLen / blockSize;
    if totalBlocks > U32_MAX {
      return Err(Invalid), ps;
    }
    var e := new Encoder(blockSize, FileHeader(blockSize, totalBlocks, 0));
    var windowBytes := Max(1, Min(WINDOW / blockSize, 0x10_0000)) * blockSize;
    var remaining := rawLen;
    ghost var left := totalBlocks;
    while remaining > 0
      invariant e.Ready() && e.blockSize == blockSize && fresh(e)
      invariant e.header == FileHeader(blockSize, totalBlocks, 0)
      invariant 0 <= left <= totalBlocks && e.blocksSeen == totalBlocks - left
      invariant 0 <= remaining <= rawLen && remaining == left * blockSize
      invariant e.Seen() == raw[..rawLen - remaining]
    {
      var want := Min(remaining, windowBytes);
      ghost var here := WindowBlocks(left, Max(1, Min(WINDOW / blockSize, 0x10_0000)), blockSize, want);
      e.AddWindow(raw[rawLen - remaining..rawLen - remaining + want]);
      assert raw[..rawLen - remaining] + raw[rawLen - remaining..rawLen - remaining + want]
          == raw[..rawLen - remaining + want];
      remaining := remaining - want;
      left := left - here;
    }
    assert raw[..rawLen] == raw;
    var file := e.Finish(totalBlocks);
    ps := e.pieces;
    r := Ok(file);
  }

  /** A window is whole blocks: the smaller of what is left and the window capacity. */
  lemma WindowBlocks(left: nat, capacity: nat, blockSize: nat, want: int) returns (here: nat)
    requires left > 0 && capacity > 0 && blockSize > 0 && want == Min(left * blockSize, capacity * blockSize)
    ensures 1 <= here <= left && want == here * blockSize && want / blockSize == here && want % blockSize == 0
    ensures 0 < want && left * blockSize - want == (left - here) * blockSize
  {
    here := Min(left, capacity);
    MulMonotone(here, left, blockSize);
    MulMonotone(here, capacity, blockSize);
    MulMonotone(1, here, blockSize);
    DivModUnique(want, here, blockSize, 0);
  }
}
