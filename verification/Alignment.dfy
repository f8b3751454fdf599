/**
 Alignment of allocation starts (`LpWriter::align_up`).

 `alignment` and `alignmentOffset` are bytes. A sector is in phase when the
 allocator may start a run there; `AlignUp` is the least in-phase sector at or
 after its argument.
 */
module Alignment {
  import opened Arithmetic
  import opened Base
  import opened Format

  /** Sector granularity: both quantities are whole sectors. */
  predicate SectorMultiple(alignment: u32, alignmentOffset: u32)
    requires alignment > 0
  {
    alignment % SECTOR_SIZE == 0 && (alignmentOffset % alignment) % SECTOR_SIZE == 0
  }

  function AlignUp(v: u64, alignment: u32, alignmentOffset: u32): Option<u64> {
    if alignment == 0 then Some(v)
    else
      var offset := alignmentOffset % alignment;
      if SectorMultiple(alignment, alignmentOffset) then
        if v * SECTOR_SIZE > U64_MAX then None else
        var rem := v * SECTOR_SIZE % alignment;
        var shift := if rem <= offset then offset - rem else alignment + offset - rem;
        CheckedAdd(v, shift / SECTOR_SIZE)
      else
        var sectors := SaturatingAdd(alignment, SECTOR_SIZE - 1) / SECTOR_SIZE;
        if sectors == 0 then Some(v) else
        var rem := v % sectors;
        if rem == 0 then Some(v) else CheckedAdd(v, sectors - rem)
  }

  /**
   The byte-level phase law for whole-sector alignments, the rounded-up sector
   alignment otherwise, no constraint for alignment zero.
   */
  ghost predicate InPhase(s: int, alignment: u32, alignmentOffset: u32) {
    alignment == 0 ||
    if SectorMultiple(alignment, alignmentOffset)
    then s * SECTOR_SIZE % alignment == alignmentOffset % alignment
    else s % DivCeil(alignment, SECTOR_SIZE) == 0
  }

  /** `s` is the least in-phase sector at or after `v`. */
  ghost predicate LeastInPhase(v: int, s: int, alignment: u32, alignmentOffset: u32) {
    v <= s && InPhase(s, alignment, alignmentOffset) &&
    forall t :: v <= t && InPhase(t, alignment, alignmentOffset) ==> s <= t
  }

  /** Sectors below this bound have byte offsets that fit in 64 bits. */
  const SECTOR_BOUND: int := 0x80_0000_0000_0000

  /** The next multiple-plus-phase at or after `v`: nothing in `[v, v + gap)` is congruent to `o`. */
  lemma NextCongruent(v: nat, m: nat, o: nat, gap: nat)
    requires o < m
    requires gap == if v % m <= o then o - v % m else m + o - v % m
    ensures (v + gap) % m == o
    ensures forall t :: v <= t && t % m == o ==> v + gap <= t
  {
    var q := v / m;
    assert v == q * m + v % m;
    var k := if v % m <= o then q else q + 1;
    MulSucc(q, m);
    DivModUnique(v + gap, k, m, o);
    forall t | v <= t && t % m == o ensures v + gap <= t {
      NothingBetween(v, t, m, o, k);
    }
  }

  lemma NothingBetween(v: nat, t: int, m: nat, o: nat, k: int)
    requires o < m && v <= t && t % m == o && (k - 1) * m + o < v
    ensures k * m + o <= t
  {
    var p := t / m;
    assert t == p * m + o;
    if p < k {
      MulMonotone(p, k - 1, m);
    } else {
      MulMonotone(k, p, m);
    }
  }

  /** In sectors: the phase law is a congruence modulo `Period` with residue `Residue`. */
  function Period(alignment: u32, alignmentOffset: u32): (m: nat)
    ensures m > 0
  {
    if alignment == 0 then 1 else DivCeil(alignment, SECTOR_SIZE)
  }

  function Residue(alignment: u32, alignmentOffset: u32): (o: nat)
    ensures o < Period(alignment, alignmentOffset)
  {
    if alignment == 0 then 0
    else if SectorMultiple(alignment, alignmentOffset) then (alignmentOffset % alignment) / SECTOR_SIZE
    else 0
  }

  lemma PhaseIsCongruence(s: int, alignment: u32, alignmentOffset: u32)
    ensures InPhase(s, alignment, alignmentOffset)
            <==> s % Period(alignment, alignmentOffset) == Residue(alignment, alignmentOffset)
  {
    if alignment != 0 && SectorMultiple(alignment, alignmentOffset) {
      var m := alignment / SECTOR_SIZE;
      assert alignment == m * SECTOR_SIZE && Period(alignment, alignmentOffset) == m;
      ScaledRemainder(s, m, SECTOR_SIZE);
    }
  }

  /**
   `align_up` is a closure: its result is the least in-phase sector at or after
   the argument. It fails only for arguments no device sector reaches.
   */
  lemma AlignUpIsLeast(v: u64, alignment: u32, alignmentOffset: u32)
    ensures AlignUp(v, alignment, alignmentOffset).Some? ==>
              LeastInPhase(v, AlignUp(v, alignment, alignmentOffset).value, alignment, alignmentOffset)
    ensures v < SECTOR_BOUND ==> AlignUp(v, alignment, alignmentOffset).Some?
  {
    var m, o := Period(alignment, alignmentOffset), Residue(alignment, alignmentOffset);
    var gap := if v % m <= o then o - v % m else m + o - v % m;
    NextCongruent(v, m, o, gap);
    forall t ensures InPhase(t, alignment, alignmentOffset) <==> t % m == o {
      PhaseIsCongruence(t, alignment, alignmentOffset);
    }
    if alignment != 0 && SectorMultiple(alignment, alignmentOffset) {
      assert alignment == m * SECTOR_SIZE;
      ScaledRemainder(v, m, SECTOR_SIZE);
    }
  }

  /** Consequences of the closure law: monotone and idempotent. */
  lemma AlignUpMonotoneIdempotent(v: u64, w: u64, alignment: u32, alignmentOffset: u32)
    requires v <= w
    requires AlignUp(v, alignment, alignmentOffset).Some? && AlignUp(w, alignment, alignmentOffset).Some?
    ensures AlignUp(v, alignment, alignmentOffset).value <= AlignUp(w, alignment, alignmentOffset).value
    ensures AlignUp(AlignUp(v, alignment, alignmentOffset).value, alignment, alignmentOffset).Some? ==>
              AlignUp(AlignUp(v, alignment, alignmentOffset).value, alignment, alignmentOffset)
              == AlignUp(v, alignment, alignmentOffset)
  {
    hide AlignUp, InPhase;
    var s := AlignUp(v, alignment, alignmentOffset).value;
    AlignUpIsLeast(v, alignment, alignmentOffset);
    AlignUpIsLeast(w, alignment, alignmentOffset);
    AlignUpIsLeast(s, alignment, alignmentOffset);
  }
}
