/** Bytes, little-endian words and C strings, as the C program lays them out in memory. */
module Bytes {

  type byte = x: int | 0 <= x < 256 witness 0

  /** The word range of a `width`-byte unsigned integer. */
  function Radix(width: nat): (r: nat)
    ensures r >= 1
  {
    if width == 0 then 1 else 256 * Radix(width - 1)
  }

  /** Little-endian image of the low `width` bytes of `v`. */
  function Le(v: nat, width: nat): (bs: seq<byte>)
    ensures |bs| == width
  {
    if width == 0 then [] else [v % 256] + Le(v / 256, width - 1)
  }

  function FromLe(bs: seq<byte>): (v: nat)
    ensures v < Radix(|bs|)
  {
    if bs == [] then 0 else bs[0] + 256 * FromLe(bs[1..])
  }

  lemma {:induction false} LeRoundTrip(v: nat, width: nat)
    requires v < Radix(width)
    ensures FromLe(Le(v, width)) == v
  {
    if width > 0 {
      LeRoundTrip(v / 256, width - 1);
      assert Le(v, width)[1..] == Le(v / 256, width - 1);
    }
  }

  lemma {:induction false} FromLeRoundTrip(bs: seq<byte>)
    ensures Le(FromLe(bs), |bs|) == bs
  {
    if bs != [] {
      FromLeRoundTrip(bs[1..]);
      assert FromLe(bs) % 256 == bs[0] && FromLe(bs) / 256 == FromLe(bs[1..]);
    }
  }

  lemma FourBytes()
    ensures Radix(4) == 0x1_0000_0000
  {
    assert Radix(4) == 256 * 256 * Radix(2);
  }

  lemma FourLe(v: nat)
    ensures Le(v, 4) == [v % 256, v / 256 % 256, v / 65536 % 256, v / 16777216 % 256]
  {
    assert Le(v, 4) == [v % 256] + Le(v / 256, 3);
    assert Le(v / 256, 3) == [v / 256 % 256] + Le(v / 65536, 2);
    assert Le(v / 65536, 2) == [v / 65536 % 256] + Le(v / 16777216, 1);
    assert Le(v / 16777216, 1) == [v / 16777216 % 256];
  }

  /** `n` copies of `v`: what memset leaves behind. */
  function Fill(v: byte, n: nat): (bs: seq<byte>)
    ensures |bs| == n && forall i :: 0 <= i < n ==> bs[i] == v
  {
    seq(n, _ => v)
  }

  /** The bytes of `a` with those from `at` on replaced by `patch`. */
  function Splice(a: seq<byte>, at: nat, patch: seq<byte>): (r: seq<byte>)
    requires at + |patch| <= |a|
    ensures |r| == |a|
    ensures forall i :: 0 <= i < |a| ==> r[i] == if at <= i < at + |patch| then patch[i - at] else a[i]
  {
    a[..at] + patch + a[at + |patch|..]
  }

  method CopyIn(a: array<byte>, at: nat, patch: seq<byte>)
    requires at + |patch| <= a.Length
    modifies a
    ensures a[..] == Splice(old(a[..]), at, patch)
  {
    for i := 0 to |patch|
      invariant a[..] == Splice(old(a[..]), at, patch[..i])
    {
      a[at + i] := patch[i];
    }
  }

  /** Neighbouring stores make one store. */
  lemma SpliceNext(a: seq<byte>, at: nat, x: seq<byte>, y: seq<byte>)
    requires at + |x| + |y| <= |a|
    ensures Splice(Splice(a, at, x), at + |x|, y) == Splice(a, at, x + y)
  {
  }

  /** A store inside bytes already known to be `whole`. */
  lemma SpliceInside(a: seq<byte>, at: nat, whole: seq<byte>, off: nat, patch: seq<byte>)
    requires at + |whole| <= |a| && off + |patch| <= |whole|
    ensures Splice(Splice(a, at, whole), at + off, patch) == Splice(a, at, Splice(whole, off, patch))
  {
  }

  /** Storing what is already there changes nothing. */
  lemma SpliceSame(a: seq<byte>, at: nat, n: nat)
    requires at + n <= |a|
    ensures Splice(a, at, a[at..at + n]) == a
  {
  }

  lemma SliceSlice(a: seq<byte>, off: nat, i: nat, j: nat)
    requires off + j <= |a| && i <= j
    ensures a[off..][i..j] == a[off + i..off + j]
  {
  }

  lemma SliceTail(a: seq<byte>, off: nat, i: nat)
    requires off + i <= |a|
    ensures a[off..][i..] == a[off + i..]
  {
  }

  /** The C string held in a buffer: the bytes before the first NUL. */
  function CStr(buf: seq<byte>): (s: seq<byte>)
    ensures |s| <= |buf| && s == buf[..|s|]
    ensures 0 !in s
    ensures |s| < |buf| ==> buf[|s|] == 0
  {
    if buf == [] || buf[0] == 0 then [] else [buf[0]] + CStr(buf[1..])
  }
}
