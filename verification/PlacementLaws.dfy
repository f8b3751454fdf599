/**
 Placement and reading in bytes, with the numbers of the format: where a run may lie on
 its device, and which bytes an extent stands for.
 */
module PlacementLaws {
  import opened Alignment
  import opened Allocator
  import opened Arithmetic
  import opened Base
  import opened ExtentStream
  import opened Format
  import opened Payload
  import opened SparseImage
  import opened TableLaws
  import opened TableStreams

  // ------------------------------------------------------------- placement

  /** Where runs may start: at the byte phase of a whole-sector alignment, else at multiples of it in sectors. */
  lemma PhaseExactly(s: nat, alignment: u32, alignmentOffset: u32)
    ensures InPhase(s, alignment, alignmentOffset) <==>
              if alignment == 0 then true
              else if alignment % 512 == 0 && alignmentOffset % 512 == 0 then
                (s * 512 - alignmentOffset) % alignment == 0
              else s % ((alignment + 511) / 512) == 0
  {
    if alignment > 0 && alignment % 512 == 0 {
      WholeOffset(alignment, alignmentOffset);
      SameRemainder(s * 512, alignmentOffset, alignment);
    }
  }

  lemma WholeOffset(alignment: nat, alignmentOffset: nat)
    requires alignment > 0 && alignment % 512 == 0
    ensures alignmentOffset % alignment % 512 == 0 <==> alignmentOffset % 512 == 0
  {
    var q, m := alignmentOffset / alignment, alignment / 512;
    assert alignmentOffset == q * alignment + alignmentOffset % alignment;
    assert q * alignment == q * m * 512;
  }

  lemma SameRemainder(a: nat, b: nat, m: nat)
    requires m > 0
    ensures a % m == b % m <==> (a - b) % m == 0
  {
    var p, q, k := a / m, b / m, (a - b) / m;
    assert a == p * m + a % m && b == q * m + b % m && a - b == k * m + (a - b) % m;
    if a % m == b % m {
      assert a - b == (p - q) * m;
      DivModUnique(a - b, p - q, m, 0);
    }
    if (a - b) % m == 0 {
      assert a == (q + k) * m + b % m;
      DivModUnique(a, q + k, m, b % m);
    }
  }

  /** No linear extent of device `index` shares a sector with `[from, to)`. */
  ghost predicate Untaken(extents: seq<Extent>, index: int, from: nat, to: nat) {
    forall i :: 0 <= i < |extents| && extents[i].targetType == 0 && extents[i].targetSource == index ==>
      to <= extents[i].targetData || extents[i].targetData + extents[i].numSectors <= from
  }

  /** A start is admissible exactly if it is in phase, past the first sector, and the run is untaken and inside. */
  lemma FitExactly(extents: seq<Extent>, d: BlockDevice, index: int, len: nat, s: nat)
    requires s < 0xFFFF_FFFF_FFFF_FFFF
    ensures IsFit(extents, d, index, len, s) <==>
              && d.firstLogicalSector <= s && InPhase(s, d.alignment, d.alignmentOffset)
              && (512 <= d.size ==> (s + len) * 512 <= d.size) && Untaken(extents, index, s, s + len)
  {
    hide InPhase;
    if RangeFree(extents, d, index, s, len) {
      forall i | 0 <= i < |extents| && extents[i].targetType == 0 && extents[i].targetSource == index
        ensures s + len <= extents[i].targetData || extents[i].targetData + extents[i].numSectors <= s
      {
        assert extents[i] in extents && OnDevice(extents[i], index);
      }
    }
    if Untaken(extents, index, s, s + len) {
      forall e | e in extents && OnDevice(e, index)
        ensures !(s < Min(End(e), U64_MAX) && e.targetData < s + len)
      {
        var i :| 0 <= i < |extents| && extents[i] == e;
      }
    }
  }

  // --------------------------------------------------------------- reading

  /** The bytes of a linear extent in its file: a missing byte fails. */
  ghost predicate ReadsFrom(backing: Backing, e: Extent, file: Image) {
    forall p: nat :: p < e.numSectors * 512 ==> ExtentByte(backing, e, p) == ByteAt(file, e.targetData * 512 + p)
  }

  ghost predicate ReadsNothing(backing: Backing, e: Extent) {
    forall p: nat :: p < e.numSectors * 512 ==> ExtentByte(backing, e, p) == None
  }

  /** Linear extents come from the one image, or from the image of device 0 and the file bound to theirs. */
  lemma LinearExtents(backing: Backing, e: Extent)
    requires e.targetType == 0
    ensures match backing
            case Single(image) => ReadsFrom(backing, e, image)
            case Split(primary, extra) =>
              && (e.targetSource == 0 ==> ReadsFrom(backing, e, primary))
              && (e.targetSource != 0 && e.targetSource in extra ==> ReadsFrom(backing, e, extra[e.targetSource]))
              && (e.targetSource != 0 && e.targetSource !in extra ==> ReadsNothing(backing, e))
  {
    hide ByteAt;
  }

  /** Zero extents read as zeros without any file; extents of another type cannot be read. */
  lemma OtherExtents(backing: Backing, e: Extent)
    requires e.targetType != 0
    ensures e.targetType == 1 ==> ExtentBytes(backing, e) == Somes(Zeros(e.numSectors * 512))
    ensures e.targetType != 1 ==> ReadsNothing(backing, e)
  {}

  /** What a reader counts: the bytes of all sectors, up to the largest 64-bit number. */
  lemma CountedExactly(extents: seq<Extent>)
    ensures Counted(extents) == (if 512 * Sectors(extents) < 0x1_0000_0000_0000_0000 then 512 * Sectors(extents)
                                 else 0xFFFF_FFFF_FFFF_FFFF)
  {
    BytesAreSectors(extents);
  }

  /** A raw file has exactly the bytes it holds. */
  lemma RawBytes(bytes: seq<byte>, pos: int)
    ensures ByteAt(Raw(bytes), pos) == if 0 <= pos < |bytes| then Some(bytes[pos]) else None
  {}
}
