/**
 How many chunks a raw image is encoded to, told from the image alone, and what
 that means for reading it back: the reader caps the number of chunks, the encoder
 does not.
 */
module SparseCount {
  import opened Arithmetic
  import opened Base
  import opened SparseEncoder
  import opened SparseFormat
  import opened SparseImage

  // ------------------------------------------------------- counting chunks

  /** Which blocks are all zero. */
  function ZeroFlags(raw: seq<byte>, blockSize: nat): seq<bool>
    requires blockSize > 0
    decreases |raw|
  {
    if |raw| < blockSize then []
    else ZeroFlags(raw[..|raw| - blockSize], blockSize) + [AllZero(raw[|raw| - blockSize..])]
  }

  /** Length of the run of non-zero blocks at the end. */
  function TrailingRun(flags: seq<bool>): nat {
    if flags == [] || flags[|flags| - 1] then 0 else TrailingRun(flags[..|flags| - 1]) + 1
  }

  /** A non-zero run of that length leaves the buffer empty. */
  predicate Flushed(run: nat, cap: nat)
    requires cap > 0
  {
    run % cap == 0
  }

  lemma FlushedAgain(run: nat, cap: nat, k: nat)
    requires cap > 0 && Flushed(run, cap) && k <= cap
    ensures Flushed(0, cap)
    ensures Flushed(run + k, cap) <==> k == 0 || k == cap
  {
    var q := run / cap;
    assert run == q * cap;
    if k < cap {
      DivModUnique(run + k, q, cap, k);
    } else {
      MulSucc(q, cap);
      DivModUnique(run + k, q + 1, cap, 0);
    }
    DivModUnique(0, 0, cap, 0);
  }

  lemma NothingBuffered(cap: nat)
    requires cap > 0
    ensures Flushed(0, cap)
  {
    DivModUnique(0, 0, cap, 0);
  }

  /** The next block, zero or not, opens a chunk: it changes the kind of run, or the buffer was just flushed. */
  predicate Opens(flags: seq<bool>, zero: bool, cap: nat)
    requires cap > 0
  {
    if zero then flags == [] || !flags[|flags| - 1] else Flushed(TrailingRun(flags), cap)
  }

  function CountOpens(flags: seq<bool>, cap: nat): nat
    requires cap > 0
  {
    if flags == [] then 0
    else
      var n := |flags| - 1;
      CountOpens(flags[..n], cap) + (if Opens(flags[..n], flags[n], cap) then 1 else 0)
  }

  /** Blocks that fill the raw buffer. */
  function BufferBlocks(blockSize: nat): (n: nat)
    requires blockSize > 0
    ensures n > 0
  {
    CeilCovers(MAX_RAW_RUN, blockSize);
    assert DivCeil(MAX_RAW_RUN, blockSize) > 0;
    DivCeil(MAX_RAW_RUN, blockSize)
  }

  /** Chunks of a raw image: one per zero run, one per started buffer of a non-zero run. */
  function ChunkCount(raw: seq<byte>, blockSize: nat): nat
    requires blockSize > 0
  {
    CountOpens(ZeroFlags(raw, blockSize), BufferBlocks(blockSize))
  }

  function Repeat(b: bool, n: nat): (r: seq<bool>)
    ensures |r| == n
  {
    seq(n, _ => b)
  }

  lemma FlagsOfBlock(raw: seq<byte>, block: seq<byte>, blockSize: nat)
    requires |block| == blockSize > 0
    ensures ZeroFlags(raw + block, blockSize) == ZeroFlags(raw, blockSize) + [AllZero(block)]
  {
    assert (raw + block)[..|raw|] == raw && (raw + block)[|raw|..] == block;
  }

  lemma SomeBlocks(m: nat, blockSize: nat)
    requires m * blockSize > 0
    ensures m > 0
  {}

  lemma {:induction false} FlagsOfData(raw: seq<byte>, data: seq<byte>, blockSize: nat, m: nat)
    requires blockSize > 0 && |data| == m * blockSize && NonZeroBlocks(data, blockSize)
    ensures ZeroFlags(raw + data, blockSize) == ZeroFlags(raw, blockSize) + Repeat(false, m)
    decreases |data|
  {
    hide ZeroFlags;
    if data == [] {
      SmallMultiple(m, blockSize);
      assert raw + data == raw && Repeat(false, 0) == [];
    } else {
      var block, rest := data[..blockSize], data[blockSize..];
      SomeBlocks(m, blockSize);
      MulSucc(m - 1, blockSize);
      FlagsOfBlock(raw, block, blockSize);
      FlagsOfData(raw + block, rest, blockSize, m - 1);
      assert raw + data == raw + block + rest;
      assert [false] + Repeat(false, m - 1) == Repeat(false, m);
    }
  }

  lemma {:induction false} FlagsOfZeros(raw: seq<byte>, blockSize: nat, m: nat)
    requires blockSize > 0
    ensures ZeroFlags(raw + Zeros(m * blockSize), blockSize) == ZeroFlags(raw, blockSize) + Repeat(true, m)
  {
    hide ZeroFlags;
    if m == 0 {
      assert raw + Zeros(0) == raw && Repeat(true, 0) == [];
    } else {
      MulSucc(m - 1, blockSize);
      FlagsOfZeros(raw, blockSize, m - 1);
      FlagsOfBlock(raw + Zeros((m - 1) * blockSize), Zeros(blockSize), blockSize);
      assert raw + Zeros(m * blockSize) == raw + Zeros((m - 1) * blockSize) + Zeros(blockSize);
      assert Repeat(true, m - 1) + [true] == Repeat(true, m);
    }
  }

  /** A buffer of non-zero blocks is one more chunk. */
  lemma {:induction false} CountData(flags: seq<bool>, m: nat, cap: nat)
    requires 0 < m <= cap && Flushed(TrailingRun(flags), cap)
    ensures CountOpens(flags + Repeat(false, m), cap) == CountOpens(flags, cap) + 1
    ensures TrailingRun(flags + Repeat(false, m)) == TrailingRun(flags) + m
  {
    hide Flushed;
    var all, before := flags + Repeat(false, m), flags + Repeat(false, m - 1);
    assert all[..|all| - 1] == before && !all[|all| - 1];
    if m == 1 {
      assert before == flags;
    } else {
      CountData(flags, m - 1, cap);
      FlushedAgain(TrailingRun(flags), cap, m - 1);
    }
  }

  /** A run of zero blocks is one more chunk. */
  lemma {:induction false} CountZeros(flags: seq<bool>, m: nat, cap: nat)
    requires 0 < m && cap > 0 && (flags == [] || !flags[|flags| - 1])
    ensures CountOpens(flags + Repeat(true, m), cap) == CountOpens(flags, cap) + 1
  {
    var all, before := flags + Repeat(true, m), flags + Repeat(true, m - 1);
    assert all[..|all| - 1] == before && all[|all| - 1];
    if m == 1 {
      assert before == flags;
    } else {
      CountZeros(flags, m - 1, cap);
    }
  }

  /** Blocks of an image without zero blocks, `held` of which are the first to fill 8 MiB: one chunk for each `held`. */
  lemma DenseCount(raw: seq<byte>, blockSize: nat, blocks: nat, held: nat)
    requires blockSize > 0 && |raw| == blocks * blockSize && (held - 1) * blockSize < 8388608 <= held * blockSize
    requires NonZeroBlocks(raw, blockSize)
    ensures ChunkCount(raw, blockSize) == (blocks + held - 1) / held
  {
    hide CountOpens, ZeroFlags, NonZeroBlocks;
    FlagsOfData([], raw, blockSize, blocks);
    assert [] + raw == raw && ZeroFlags([], blockSize) + Repeat(false, blocks) == Repeat(false, blocks) by {
      NoChunks(blockSize);
    }
    HeldBlocks(blockSize, held);
    DenseOpens(blocks, held);
  }

  lemma HeldBlocks(blockSize: nat, held: nat)
    requires blockSize > 0 && (held - 1) * blockSize < 8388608 <= held * blockSize
    ensures held == BufferBlocks(blockSize)
  {
    CeilCovers(8388608, blockSize);
    var cap := BufferBlocks(blockSize);
    if held < cap {
      MulMonotone(held, cap - 1, blockSize);
      MulSucc(cap - 1, blockSize);
    } else if held > cap {
      MulMonotone(cap, held - 1, blockSize);
    }
  }

  lemma {:induction false} DenseOpens(blocks: nat, cap: nat)
    requires cap > 0
    ensures CountOpens(Repeat(false, blocks), cap) == (blocks + cap - 1) / cap
    ensures TrailingRun(Repeat(false, blocks)) == blocks
  {
    if blocks == 0 {
      DivModUnique(cap - 1, 0, cap, cap - 1);
    } else {
      var n := blocks - 1;
      assert Repeat(false, blocks)[..n] == Repeat(false, n);
      DenseOpens(n, cap);
      var q, r := n / cap, n % cap;
      assert n == q * cap + r;
      MulSucc(q, cap);
      DivModUnique(blocks + cap - 1, q + 1, cap, r);
      if r == 0 {
        DivModUnique(n + cap - 1, q, cap, cap - 1);
      } else {
        DivModUnique(n + cap - 1, q + 1, cap, r - 1);
      }
    }
  }

  /** A run of whole blocks within the buffer: it has at most the buffer's blocks, and all of them once it is full. */
  lemma BufferFill(len: nat, m: nat, blockSize: nat)
    requires blockSize > 0 && len == m * blockSize && len < MAX_RAW_RUN + blockSize
    ensures m <= BufferBlocks(blockSize) && (len >= MAX_RAW_RUN ==> m == BufferBlocks(blockSize))
  {
    var cap := BufferBlocks(blockSize);
    CeilCovers(MAX_RAW_RUN, blockSize);
    if m > cap {
      MulMonotone(cap + 1, m, blockSize);
      MulSucc(cap, blockSize);
    } else if m < cap {
      MulMonotone(m + 1, cap, blockSize);
      MulSucc(m, blockSize);
    }
  }

  /** Where an encoding stands after its pieces: the count, and how the last run ended. */
  ghost predicate CountState(ps: seq<Piece>, flags: seq<bool>, cap: nat)
    requires cap > 0
  {
    && CountOpens(flags, cap) == |ps|
    && (ps == [] ==> flags == [])
    && (ps != [] && ps[|ps| - 1].SkipPiece? ==> flags != [] && flags[|flags| - 1])
    && (ps != [] && ps[|ps| - 1].RawPiece? ==>
          && flags != [] && !flags[|flags| - 1]
          && (|ps[|ps| - 1].data| >= MAX_RAW_RUN ==> Flushed(TrailingRun(flags), cap)))
  }

  predicate RawOrSkip(p: Piece) {
    p.RawPiece? || p.SkipPiece?
  }

  /** Before a RAW piece the buffer is empty. */
  lemma RawStarts(ps: seq<Piece>, p: Piece, flags: seq<bool>, cap: nat)
    requires cap > 0 && CountState(ps, flags, cap) && p.RawPiece? && MayEnd(ps, p)
    requires ps != [] ==> RawOrSkip(ps[|ps| - 1])
    ensures Flushed(TrailingRun(flags), cap)
  {
    hide Flushed, CountOpens;
    NothingBuffered(cap);
  }

  lemma CountRaw(ps: seq<Piece>, p: Piece, raw: seq<byte>, blockSize: nat, m: nat)
    requires blockSize > 0 && p.RawPiece? && |p.data| == m * blockSize && 0 < |p.data| < MAX_RAW_RUN + blockSize
    requires NonZeroBlocks(p.data, blockSize) && MayEnd(ps, p) && (ps != [] ==> RawOrSkip(ps[|ps| - 1]))
    requires CountState(ps, ZeroFlags(raw, blockSize), BufferBlocks(blockSize))
    ensures CountState(ps + [p], ZeroFlags(raw + p.data, blockSize), BufferBlocks(blockSize))
  {
    hide ZeroFlags, CountOpens, BufferBlocks, NonZeroBlocks, Flushed;
    var flags, cap := ZeroFlags(raw, blockSize), BufferBlocks(blockSize);
    SomeBlocks(m, blockSize);
    FlagsOfData(raw, p.data, blockSize, m);
    BufferFill(|p.data|, m, blockSize);
    RawStarts(ps, p, flags, cap);
    CountData(flags, m, cap);
    FlushedAgain(TrailingRun(flags), cap, m);
  }

  lemma CountSkip(ps: seq<Piece>, p: Piece, raw: seq<byte>, blockSize: nat, blocks: u32)
    requires blockSize > 0 && p == SkipPiece(blocks) && blocks > 0 && MayEnd(ps, p)
             && (ps != [] ==> RawOrSkip(ps[|ps| - 1]))
    requires CountState(ps, ZeroFlags(raw, blockSize), BufferBlocks(blockSize))
    ensures CountState(ps + [p], ZeroFlags(raw + Zeros(blocks * blockSize), blockSize), BufferBlocks(blockSize))
  {
    hide ZeroFlags, CountOpens, BufferBlocks, Flushed, TrailingRun;
    FlagsOfZeros(raw, blockSize, blocks);
    CountZeros(ZeroFlags(raw, blockSize), blocks, BufferBlocks(blockSize));
  }

  lemma CountPiece(ps: seq<Piece>, p: Piece, raw: seq<byte>, blockSize: u32)
    requires blockSize > 0 && CountState(ps, ZeroFlags(raw, blockSize), BufferBlocks(blockSize))
    requires Printable(p, blockSize) && Tight(p, blockSize) && MayEnd(ps, p)
    requires ps != [] ==> RawOrSkip(ps[|ps| - 1])
    ensures CountState(ps + [p], ZeroFlags(raw + ExpandPiece(p, blockSize), blockSize), BufferBlocks(blockSize))
  {
    hide ZeroFlags, BufferBlocks, NonZeroBlocks, CountState, MayEnd;
    match p {
      case RawPiece(data) =>
        CountRaw(ps, p, raw, blockSize, |data| / blockSize);
      case SkipPiece(blocks) =>
        CountSkip(ps, p, raw, blockSize, blocks);
    }
  }

  /** Every faithful encoding of an image has exactly its chunk count. */
  lemma {:induction false} EncodingCount(ps: seq<Piece>, raw: seq<byte>, blockSize: u32)
    requires blockSize > 0 && Encoding(ps, raw, blockSize)
    ensures |ps| == ChunkCount(raw, blockSize)
    ensures CountState(ps, ZeroFlags(raw, blockSize), BufferBlocks(blockSize))
    decreases |ps|
  {
    hide CountState, ZeroFlags, ExpandPiece, Tight, Printable, MayEnd;
    if ps == [] {
      NothingCounted(raw, blockSize);
    } else {
      var n := |ps| - 1;
      var qs := ps[..n];
      assert forall i :: 0 <= i < n ==> qs[i] == ps[i] && qs[..i] == ps[..i];
      assert ps == qs + [ps[n]];
      ExpandAppend(qs, ps[n], blockSize);
      EncodingCount(qs, Expand(qs, blockSize), blockSize);
      assert Tight(ps[n], blockSize) && MayEnd(qs, ps[n]);
      if n > 0 {
        assert Tight(ps[n - 1], blockSize);
        NoFill(ps[n - 1], blockSize);
      }
      CountPiece(qs, ps[n], Expand(qs, blockSize), blockSize);
    }
    CountIs(ps, raw, blockSize);
  }

  lemma NoFill(p: Piece, blockSize: u32)
    requires Tight(p, blockSize)
    ensures RawOrSkip(p)
  {}

  lemma NothingCounted(raw: seq<byte>, blockSize: u32)
    requires blockSize > 0 && raw == []
    ensures CountState([], ZeroFlags(raw, blockSize), BufferBlocks(blockSize))
  {}

  lemma CountIs(ps: seq<Piece>, raw: seq<byte>, blockSize: u32)
    requires blockSize > 0 && CountState(ps, ZeroFlags(raw, blockSize), BufferBlocks(blockSize))
    ensures |ps| == ChunkCount(raw, blockSize)
  {}

  // ------------------------------------------------------------ round trip

  lemma {:induction false} PrintedLength(ps: seq<Piece>, raw: seq<byte>, blockSize: u32)
    requires Encoding(ps, raw, blockSize)
    ensures |PrintPieces(ps, blockSize)| <= CHUNK_HEADER_SIZE * |ps| + |raw|
    decreases |ps|
  {
    if ps != [] {
      assert Tight(ps[0], blockSize);
      PrintedLength(ps[1..], Expand(ps[1..], blockSize), blockSize);
    }
  }

  /**
   Sparse round trip. The reader accepts an encoded image exactly when the raw image
   has no more chunks than the reader's cap, and then every byte it delivers is the
   raw byte at that position.
   */
  lemma SparseRoundTrip(file: seq<byte>, raw: seq<byte>, blockSize: u32, ps: seq<Piece>)
    requires Encodes(file, raw, blockSize, ps) && blockSize <= MAX_BLOCK
    ensures |file| <= U64_MAX
    ensures Opened(file).Ok? <==> ChunkCount(raw, blockSize) <= 1_000_000
    ensures Opened(file).Ok? ==>
              ValidImage(Opened(file).value) && Opened(file).value.Sparse? && Holds(Opened(file).value, raw)
  {
    hide PrintPieces, Expand, FileHeader, ValidImage, Holds, Opened, ChunkCount, CountState;
    var totalBlocks := |raw| / blockSize;
    PrintedLength(ps, raw, blockSize);
    MulMonotone(totalBlocks, U32_MAX, blockSize);
    assert |raw| == totalBlocks * blockSize;
    EncodingCount(ps, raw, blockSize);
    assert InFillPhase(ps, blockSize) by {
      assert forall i :: 0 <= i < |ps| ==> Tight(ps[i], blockSize);
    }
    OpenPrinted(ps, blockSize, totalBlocks);
  }

  // ---------------------------------------------------------- too many chunks

  function TurnBlock(k: nat, blockSize: nat): (block: seq<byte>)
    ensures |block| == blockSize
  {
    if k % 2 == 0 then Zeros(blockSize) else seq(blockSize, _ => 1)
  }

  /** Zero and non-zero blocks in turn. */
  function Alternating(blocks: nat, blockSize: nat): (raw: seq<byte>)
    ensures |raw| == blocks * blockSize
  {
    if blocks == 0 then []
    else
      MulSucc(blocks - 1, blockSize);
      Alternating(blocks - 1, blockSize) + TurnBlock(blocks - 1, blockSize)
  }

  lemma TurnFlag(k: nat, blockSize: nat)
    requires blockSize > 0
    ensures AllZero(TurnBlock(k, blockSize)) <==> k % 2 == 0
  {
    var block := TurnBlock(k, blockSize);
    assert block[0] == 0 <==> k % 2 == 0;
  }

  lemma CountNext(flags: seq<bool>, zero: bool, cap: nat)
    requires cap > 0 && (flags != [] ==> flags[|flags| - 1] != zero)
    ensures CountOpens(flags + [zero], cap) == CountOpens(flags, cap) + 1
  {
    hide Flushed;
    assert (flags + [zero])[..|flags|] == flags;
    NothingBuffered(cap);
  }

  /** Every block of such an image is a chunk of its own. */
  lemma {:induction false} AlternatingCount(blocks: nat, blockSize: nat)
    requires blockSize > 0
    ensures ChunkCount(Alternating(blocks, blockSize), blockSize) == blocks
    ensures var flags := ZeroFlags(Alternating(blocks, blockSize), blockSize);
            |flags| == blocks && (blocks > 0 ==> flags[blocks - 1] == ((blocks - 1) % 2 == 0))
  {
    hide BufferBlocks, TurnBlock, AllZero, CountOpens;
    if blocks == 0 {
      NoChunks(blockSize);
    } else {
      hide ZeroFlags;
      AlternatingCount(blocks - 1, blockSize);
      FlagsOfBlock(Alternating(blocks - 1, blockSize), TurnBlock(blocks - 1, blockSize), blockSize);
      TurnFlag(blocks - 1, blockSize);
      CountNext(ZeroFlags(Alternating(blocks - 1, blockSize), blockSize), (blocks - 1) % 2 == 0,
                BufferBlocks(blockSize));
    }
  }

  lemma NoChunks(blockSize: nat)
    requires blockSize > 0
    ensures ZeroFlags([], blockSize) == [] && ChunkCount([], blockSize) == 0
  {}

  /**
   An image the encoder accepts and the reader refuses, for every block size: a
   million and one blocks, zero and non-zero in turn. Whatever file the encoder
   writes for it does not open.
   */
  lemma TooManyChunks(blockSize: u32, file: seq<byte>, ps: seq<Piece>)
    requires 512 <= blockSize <= 1048576
    ensures var raw := Alternating(1_000_001, blockSize);
            && raw != [] && |raw| <= U64_MAX && |raw| % blockSize == 0 && |raw| / blockSize <= U32_MAX
            && (Encodes(file, raw, blockSize, ps) ==> Opened(file).Err?)
  {
    hide Alternating, ChunkCount, Opened, Encodes;
    var raw := Alternating(1_000_001, blockSize);
    AlternatingCount(1_000_001, blockSize);
    DivModUnique(|raw|, 1_000_001, blockSize, 0);
    if Encodes(file, raw, blockSize, ps) {
      SparseRoundTrip(file, raw, blockSize, ps);
    }
  }
}
