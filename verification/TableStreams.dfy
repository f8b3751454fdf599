/**
 The bytes behind the table edits: resizing preserves what the partition already
 held, and the container format of an image does not matter to a reader.
 */
module TableStreams {
  import Allocator
  import opened Base
  import opened ExtentStream
  import opened Format
  import opened MetadataCodec
  import SparseCount
  import opened SparseEncoder
  import SparseFormat
  import opened SparseImage
  import opened TableLaws
  import opened TableResize

  lemma {:induction false} BytesAreSectors(es: seq<Extent>)
    ensures TotalBytes(es) == Sectors(es) * SECTOR_SIZE
  {
    if es != [] {
      BytesAreSectors(es[1..]);
    }
  }

  lemma {:induction false} StreamConcat(backing: Backing, a: seq<Extent>, b: seq<Extent>)
    ensures Stream(backing, a + b) == Stream(backing, a) + Stream(backing, b)
  {
    hide Stream;
    if a == [] {
      assert a + b == b;
      EmptyStream(backing);
    } else {
      StreamConcat(backing, a[1..], b);
      assert (a + b)[1..] == a[1..] + b;
      StreamHead(backing, a);
      StreamHead(backing, a + b);
    }
  }

  lemma StreamHead(backing: Backing, es: seq<Extent>)
    requires es != []
    ensures Stream(backing, es) == ExtentBytes(backing, es[0]) + Stream(backing, es[1..])
  {}

  lemma StreamOne(backing: Backing, e: Extent)
    ensures Stream(backing, [e]) == ExtentBytes(backing, e)
  {
    assert [e][1..] == [];
  }

  /** A cut extent holds a prefix of the bytes. */
  lemma CutExtent(backing: Backing, e: Extent, n: u64)
    requires n <= e.numSectors
    ensures ExtentBytes(backing, e.(numSectors := n)) == ExtentBytes(backing, e)[..n * SECTOR_SIZE]
  {}

  lemma SectorsHead(es: seq<Extent>)
    ensures es == [] ==> Sectors(es) == 0
    ensures es != [] ==> Sectors(es) == es[0].numSectors + Sectors(es[1..])
  {}

  /** Shrinking: on any disk the new stream is exactly the prefix of the requested sectors. */
  lemma {:induction false} TruncateStream(backing: Backing, es: seq<Extent>, n: nat)
    requires n <= Sectors(es)
    ensures n * SECTOR_SIZE <= |Stream(backing, es)|
    ensures Stream(backing, Truncate(es, n)) == Stream(backing, es)[..n * SECTOR_SIZE]
  {
    hide ExtentBytes, Sectors;
    BytesAreSectors(es);
    SectorsHead(es);
    if n > 0 && es != [] {
      var e, rest := es[0], es[1..];
      if e.numSectors <= n {
        TruncateStream(backing, rest, n - e.numSectors);
        StreamOne(backing, e);
        StreamConcat(backing, [e], Truncate(rest, n - e.numSectors));
      } else {
        CutExtent(backing, e, n);
        StreamOne(backing, e.(numSectors := n));
      }
    }
  }

  lemma EmptyStream(backing: Backing)
    ensures Stream(backing, []) == []
  {}

  /** Growing: on any disk the old stream is a prefix of the new one. */
  lemma GrownStream(backing: Backing, t: Tables, es: seq<Extent>, es': seq<Extent>, extra: nat)
    requires Grown(t, es, es', extra)
    ensures Stream(backing, es) <= Stream(backing, es')
  {
    hide Stream, ExtentBytes, IsNew, Allocator.RangeFree;
    if es == [] {
      EmptyStream(backing);
    } else {
      if |es'| == |es| {
        var n := |es| - 1;
        assert es == es[..n] + [es[n]] && es' == es[..n] + [es'[n]];
        StreamConcat(backing, es[..n], [es[n]]);
        StreamConcat(backing, es[..n], [es'[n]]);
        StreamOne(backing, es[n]);
        StreamOne(backing, es'[n]);
        CutExtent(backing, es'[n], es[n].numSectors);
      } else {
        StreamConcat(backing, es, [es'[|es|]]);
      }
    }
  }

  /** Reading through an encoded image is reading the raw one. */
  lemma {:induction false} SameContentSameStream(sparse: Image, raw: seq<byte>, es: seq<Extent>)
    requires ValidImage(sparse) && Holds(sparse, raw)
    ensures Stream(Single(sparse), es) == Stream(Single(Raw(raw)), es)
  {
    if es != [] {
      SameContentSameStream(sparse, raw, es[1..]);
      forall k ensures ByteAt(sparse, k) == ByteAt(Raw(raw), k) {
        BytesEndAtSize(sparse, k);
      }
      assert ExtentBytes(Single(sparse), es[0]) == ExtentBytes(Single(Raw(raw)), es[0]);
    }
  }

  /** A sparse output file, while the reader accepts it, streams every partition like the raw image. */
  lemma SparseOutputStreams(file: seq<byte>, raw: seq<byte>, blockSize: u32, ps: seq<SparseFormat.Piece>,
                            es: seq<Extent>)
    requires Encodes(file, raw, blockSize, ps) && blockSize <= MAX_BLOCK && Opened(file).Ok?
    ensures Stream(Single(Opened(file).value), es) == Stream(Single(Raw(raw)), es)
  {
    hide Opened, Encodes;
    SparseCount.SparseRoundTrip(file, raw, blockSize, ps);
    SameContentSameStream(Opened(file).value, raw, es);
  }
}
