/**
 Machine integers, results and byte strings shared by every other module.

 The program computes on `u8`, `u16`, `u32` and `u64`; here these are subset
 types of `int`, so every checked, saturating or truncating operation of the
 program is written out where it happens.
 */
module Base {
  import opened Arithmetic

  const U32_MAX: int := 0xFFFF_FFFF
  const U64_MAX: int := 0xFFFF_FFFF_FFFF_FFFF

  type byte = x: int | 0 <= x < 0x100
  type u16 = x: int | 0 <= x < 0x1_0000
  type u32 = x: int | 0 <= x <= U32_MAX
  type u64 = x: int | 0 <= x <= U64_MAX

  datatype Option<+T> = None | Some(value: T)

  /** The three error kinds of the program's error type; messages are dropped. */
  datatype Error = Invalid | NotFound | Io

  datatype Result<+T> = Ok(value: T) | Err(error: Error) {
    predicate IsFailure() {
      Err?
    }

    function PropagateFailure<U>(): Result<U>
      requires Err?
    {
      Err(error)
    }

    function Extract(): T
      requires Ok?
    {
      value
    }
  }

  function Min(a: int, b: int): int {
    if a <= b then a else b
  }

  function Max(a: int, b: int): int {
    if a <= b then b else a
  }

  /** The product of two 32-bit numbers fits in 64 bits. */
  lemma ProductFits(a: u32, b: u32)
    ensures a * b <= U64_MAX
  {
    MulMonotone(a, U32_MAX, b);
  }

  function CheckedAdd(a: u64, b: u64): Option<u64> {
    if a + b <= U64_MAX then Some(a + b) else None
  }

  function SaturatingAdd(a: u64, b: u64): u64 {
    Min(a + b, U64_MAX)
  }

  function SaturatingMul(a: u64, b: u64): u64 {
    Min(a * b, U64_MAX)
  }

  /** `v` divided by a positive `d`, rounded up (`u64::div_ceil`). */
  function DivCeil(v: nat, d: nat): nat
    requires d > 0
  {
    (v + d - 1) / d
  }

  lemma CeilCovers(v: nat, d: nat)
    requires d > 0
    ensures v <= DivCeil(v, d) * d < v + d
  {
    var q := (v + d - 1) / d;
    assert v + d - 1 == q * d + (v + d - 1) % d;
  }

  // ---------------------------------------------------------------- bytes

  function Zeros(n: nat): (z: seq<byte>)
    ensures |z| == n && forall i :: 0 <= i < n ==> z[i] == 0
  {
    seq(n, _ => 0)
  }

  lemma SliceOfSlice<T>(s: seq<T>, a: nat, b: nat, i: nat, j: nat)
    requires a <= b <= |s| && i <= j <= b - a
    ensures s[a..b][i..j] == s[a + i..a + j]
  {
    var inner, outer := s[a..b][i..j], s[a + i..a + j];
    assert |inner| == |outer|;
    forall k | 0 <= k < j - i ensures inner[k] == outer[k] {
      assert inner[k] == s[a..b][i + k] == s[a + (i + k)];
    }
  }

  /** `part` occurs in `file` at `pos`. */
  ghost predicate At(file: seq<byte>, pos: nat, part: seq<byte>) {
    pos + |part| <= |file| && file[pos..pos + |part|] == part
  }

  lemma AtSplit(file: seq<byte>, pos: nat, a: seq<byte>, b: seq<byte>)
    requires At(file, pos, a + b)
    ensures At(file, pos, a) && At(file, pos + |a|, b)
  {
    var whole := file[pos..pos + |a + b|];
    assert whole[..|a|] == a && whole[|a|..] == b;
    assert file[pos..pos + |a|] == whole[..|a|];
    assert file[pos + |a|..pos + |a| + |b|] == whole[|a|..];
  }

  /** The content of a file after `data` was written at `at`: a gap reads as zero. */
  function Overwrite(file: seq<byte>, at: nat, data: seq<byte>): seq<byte> {
    if data == [] then file
    else if at <= |file| then
      file[..at] + data + (if at + |data| <= |file| then file[at + |data|..] else [])
    else
      file + Zeros(at - |file|) + data
  }

  /** Exactly the written range changes; the file grows to hold it, with zeros in a gap. */
  lemma OverwriteEffect(file: seq<byte>, at: nat, data: seq<byte>)
    ensures var r := Overwrite(file, at, data);
            && |r| == (if data == [] then |file| else Max(|file|, at + |data|))
            && (forall i :: at <= i < at + |data| ==> r[i] == data[i - at])
            && (forall i :: 0 <= i < |file| && !(at <= i < at + |data|) ==> r[i] == file[i])
            && (forall i :: |file| <= i < |r| && !(at <= i < at + |data|) ==> r[i] == 0)
  {}

  /** The byte a write leaves at `i`. */
  function ByteAfter(file: seq<byte>, at: nat, data: seq<byte>, i: nat): byte {
    if at <= i < at + |data| then data[i - at] else if i < |file| then file[i] else 0
  }

  lemma OverwriteByte(file: seq<byte>, at: nat, data: seq<byte>, i: nat)
    requires i < |Overwrite(file, at, data)|
    ensures Overwrite(file, at, data)[i] == ByteAfter(file, at, data, i)
  {
    hide Overwrite;
    OverwriteEffect(file, at, data);
  }

  /** Writing two pieces back to back is writing their concatenation. */
  lemma OverwriteJoin(file: seq<byte>, at: nat, a: seq<byte>, b: seq<byte>)
    ensures Overwrite(Overwrite(file, at, a), at + |a|, b) == Overwrite(file, at, a + b)
  {
    hide Overwrite;
    var m := Overwrite(file, at, a);
    var l, r := Overwrite(m, at + |a|, b), Overwrite(file, at, a + b);
    assert |l| == |r| by {
      OverwriteEffect(file, at, a); OverwriteEffect(m, at + |a|, b); OverwriteEffect(file, at, a + b);
    }
    assert |m| == if a == [] then |file| else Max(|file|, at + |a|) by {
      OverwriteEffect(file, at, a);
    }
    forall i | 0 <= i < |l| ensures l[i] == r[i] {
      OverwriteByte(m, at + |a|, b, i);
      OverwriteByte(file, at, a + b, i);
      if i < |m| {
        OverwriteByte(file, at, a, i);
      }
    }
  }

  // ------------------------------------------------- little-endian numbers

  function Pow256(n: nat): (p: nat)
    ensures p > 0
  {
    if n == 0 then 1 else 256 * Pow256(n - 1)
  }

  function LeBytes(v: nat, n: nat): (b: seq<byte>)
    ensures |b| == n
  {
    if n == 0 then [] else [v % 256] + LeBytes(v / 256, n - 1)
  }

  function LeValue(b: seq<byte>): (v: nat) {
    if b == [] then 0 else b[0] + 256 * LeValue(b[1..])
  }

  /** Decoding undoes encoding for every value that fits in `n` bytes. */
  lemma {:induction false} LeRoundTrip(v: nat, n: nat)
    requires v < Pow256(n)
    ensures LeValue(LeBytes(v, n)) == v
  {
    if n > 0 {
      LeRoundTrip(v / 256, n - 1);
      assert LeBytes(v, n)[1..] == LeBytes(v / 256, n - 1);
    }
  }

  lemma {:induction false} LeValueBound(b: seq<byte>)
    ensures LeValue(b) < Pow256(|b|)
  {
    if b != [] {
      LeValueBound(b[1..]);
    }
  }

  /** Encoding undoes decoding: equal values come from equal bytes. */
  lemma {:induction false} LeInverse(b: seq<byte>)
    ensures LeBytes(LeValue(b), |b|) == b
  {
    if b != [] {
      LeInverse(b[1..]);
      assert LeValue(b) % 256 == b[0] && LeValue(b) / 256 == LeValue(b[1..]);
      assert b == [b[0]] + b[1..];
    }
  }

  lemma Pow256Values()
    ensures Pow256(2) == 0x1_0000 && Pow256(4) == U32_MAX + 1 && Pow256(8) == U64_MAX + 1
  {
    assert Pow256(1) == 256;
    assert Pow256(3) == 256 * Pow256(2);
    assert Pow256(5) == 256 * Pow256(4);
    assert Pow256(6) == 256 * Pow256(5);
    assert Pow256(7) == 256 * Pow256(6);
  }

  function U16Bytes(v: u16): (b: seq<byte>)
    ensures |b| == 2 && LeValue(b) == v
  {
    Pow256Values(); LeRoundTrip(v, 2);
    LeBytes(v, 2)
  }

  function U32Bytes(v: u32): (b: seq<byte>)
    ensures |b| == 4 && LeValue(b) == v
  {
    Pow256Values(); LeRoundTrip(v, 4);
    LeBytes(v, 4)
  }

  function U64Bytes(v: u64): (b: seq<byte>)
    ensures |b| == 8 && LeValue(b) == v
  {
    Pow256Values(); LeRoundTrip(v, 8);
    LeBytes(v, 8)
  }

  function U16Of(b: seq<byte>): u16
    requires |b| == 2
  {
    Pow256Values(); LeValueBound(b);
    LeValue(b)
  }

  function U32Of(b: seq<byte>): u32
    requires |b| == 4
  {
    Pow256Values(); LeValueBound(b);
    LeValue(b)
  }

  function U64Of(b: seq<byte>): u64
    requires |b| == 8
  {
    Pow256Values(); LeValueBound(b);
    LeValue(b)
  }
}
