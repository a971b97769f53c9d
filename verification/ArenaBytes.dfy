/** What the arena of src/chaos/chaos_mem.c does, said of its bytes alone: offsets and values in
    numbers, without the block list's own vocabulary for redzones, headers and poison. */
module ArenaBytes {
  import opened Basics
  import opened Bytes
  import opened Blocks
  import opened ArenaModel

  // ---- headers ----

  /** Four bytes, the least significant first. */
  function Number(s: seq<byte>, at: nat): int
    requires at + 4 <= |s|
  {
    s[at] as int + 256 * s[at + 1] as int + 65536 * s[at + 2] as int + 16777216 * s[at + 3] as int
  }

  /** Block `i`'s eight header bytes: the magic, then the size, both little-endian; the user area starts
      24 bytes after the header. */
  lemma HeaderInNumbers(s: seq<byte>, used: nat, bs: seq<Block>, i: nat)
    requires Refines(s, used, bs) && i < |bs|
    ensures Offset(bs, i) + 40 <= used <= |s| && UserOffset(bs, i) == Offset(bs, i) + 24
    ensures var o := Offset(bs, i);
            && s[o..o + 4] == (if bs[i].live then [0xAA, 0x11, 0x1A, 0xA1] else [0xED, 0xFE, 0xED, 0xFE])
            && bs[i].size == Number(s, o + 4)
  {
    hide Image, BlockBytes;
    var o := Offset(bs, i);
    HeaderAt(s, used, bs, i);
    MagicBytes(bs[i].live);
    WordIsMagic(s[o..], bs[i].live);
    assert s[o..][0..4] == s[o..o + 4] == s[o..][..4];
    WordInNumbers(s, o + 4);
  }

  lemma WordInNumbers(s: seq<byte>, at: nat)
    requires at + 4 <= |s|
    ensures Word(s, at) == Number(s, at)
  {
    FourFrom(s[at..at + 4]);
  }

  lemma FourFrom(b: seq<byte>)
    requires |b| == 4
    ensures FromLe(b) == b[0] as int + 256 * b[1] as int + 65536 * b[2] as int + 16777216 * b[3] as int
  {
    assert FromLe(b) == b[0] as int + 256 * FromLe(b[1..]);
    assert FromLe(b[1..]) == b[1] as int + 256 * FromLe(b[1..][1..]);
    assert b[1..][1..] == b[2..] && b[2..][1..] == b[3..] && b[3..][1..] == [];
    assert FromLe(b[2..]) == b[2] as int + 256 * FromLe(b[3..]);
    assert FromLe(b[3..]) == b[3] as int + 256 * FromLe([]);
  }

  // ---- what a scan counts ----

  /** Where block `i`'s pre- or post-redzone starts. */
  function ZoneStart(bs: seq<Block>, i: nat, post: bool): nat
    requires i < |bs|
  {
    Offset(bs, i) + if post then 24 + Round8(bs[i].size) else 8
  }

  predicate Damaged(s: seq<byte>, from: nat) {
    exists k :: from <= k < from + 16 && k < |s| && s[k] != 0xCD
  }

  /** The damaged redzones among those of the first `n` blocks, as (block, side) pairs. */
  ghost function DamagedZones(s: seq<byte>, bs: seq<Block>, n: nat): set<(nat, bool)>
    requires n <= |bs|
  {
    set i: nat, post: bool | 0 <= i < n && Damaged(s, ZoneStart(bs, i, post)) :: (i, post)
  }

  lemma ZoneBytes(s: seq<byte>, used: nat, bs: seq<Block>, i: nat, post: bool)
    requires Refines(s, used, bs) && i < |bs|
    ensures ZoneStart(bs, i, post) + 16 <= used
    ensures s[ZoneStart(bs, i, post)..ZoneStart(bs, i, post) + 16] == if post then bs[i].post else bs[i].pre
  {
    hide Image, BlockBytes, HeaderBytes;
    var b, o := bs[i], Offset(bs, i);
    HeaderAt(s, used, bs, i);
    ImageSplit(bs, i);
    assert WellFormed(b);
    var tail := Image(bs[i + 1..]) + s[used..];
    assert s == Image(bs[..i]) + (BlockBytes(b) + tail);
    assert s[o..o + |BlockBytes(b)|] == BlockBytes(b);
    BlockZones(b);
    var from := ZoneStart(bs, i, post) - o;
    assert s[o + from..o + from + 16] == s[o..o + |BlockBytes(b)|][from..from + 16];
  }

  lemma BlockZones(b: Block)
    requires WellFormed(b)
    ensures |BlockBytes(b)| == 40 + Round8(b.size)
    ensures BlockBytes(b)[8..24] == b.pre && BlockBytes(b)[24 + Round8(b.size)..40 + Round8(b.size)] == b.post
  {
    hide HeaderBytes;
  }

  lemma DirtIsDamage(s: seq<byte>, from: nat, z: seq<byte>)
    requires from + 16 <= |s| && z == s[from..from + 16]
    ensures Dirt(z) == if Damaged(s, from) then 1 else 0
  {
    if DirtyZone(z) {
      var i :| 0 <= i < |z| && z[i] != REDZONE_BYTE;
      assert s[from + i] == z[i];
    }
    if Damaged(s, from) {
      var k :| from <= k < from + 16 && k < |s| && s[k] != 0xCD;
      assert z[k - from] == s[k];
    }
  }

  lemma {:induction false} CountUpTo(s: seq<byte>, used: nat, bs: seq<Block>, n: nat)
    requires Refines(s, used, bs) && n <= |bs|
    ensures DirtyZones(bs[..n]) == |DamagedZones(s, bs, n)|
  {
    hide Image, Dirt, Damaged, ZoneStart, Refines;
    if n == 0 {
      assert DamagedZones(s, bs, 0) == {};
    } else {
      var m := n - 1;
      CountUpTo(s, used, bs, m);
      assert bs[..n] == bs[..m] + [bs[m]];
      DirtyZonesAppend(bs[..m], [bs[m]]);
      OneDirty(bs[m]);
      ZoneBytes(s, used, bs, m, false);
      ZoneBytes(s, used, bs, m, true);
      Within(s, used, bs);
      DirtIsDamage(s, ZoneStart(bs, m, false), bs[m].pre);
      DirtIsDamage(s, ZoneStart(bs, m, true), bs[m].post);
      OneBlockMore(s, bs, m);
    }
  }

  lemma OneDirty(b: Block)
    ensures DirtyZones([b]) == Dirt(b.pre) + Dirt(b.post)
  {
    assert [b][1..] == [];
  }

  lemma Within(s: seq<byte>, used: nat, bs: seq<Block>)
    requires Refines(s, used, bs)
    ensures used <= |s|
  {
  }

  /** Block `m`'s damaged sides. */
  ghost function Own(s: seq<byte>, bs: seq<Block>, m: nat, post: bool): set<(nat, bool)>
    requires m < |bs|
  {
    if Damaged(s, ZoneStart(bs, m, post)) then {(m, post)} else {}
  }

  lemma OneBlockMore(s: seq<byte>, bs: seq<Block>, m: nat)
    requires m < |bs|
    ensures |DamagedZones(s, bs, m + 1)| == |DamagedZones(s, bs, m)|
              + (if Damaged(s, ZoneStart(bs, m, false)) then 1 else 0)
              + (if Damaged(s, ZoneStart(bs, m, true)) then 1 else 0)
  {
    hide Damaged, ZoneStart, DamagedZones;
    SidesAdded(s, bs, m);
    SidesApart(s, bs, m);
    Add(DamagedZones(s, bs, m), Own(s, bs, m, false), Own(s, bs, m, true));
  }

  lemma SidesAdded(s: seq<byte>, bs: seq<Block>, m: nat)
    requires m < |bs|
    ensures DamagedZones(s, bs, m + 1) == DamagedZones(s, bs, m) + Own(s, bs, m, false) + Own(s, bs, m, true)
  {
    hide Damaged, ZoneStart;
    forall z: (nat, bool)
      ensures z in DamagedZones(s, bs, m + 1)
              <==> z in DamagedZones(s, bs, m) + Own(s, bs, m, false) + Own(s, bs, m, true)
    {
    }
  }

  lemma SidesApart(s: seq<byte>, bs: seq<Block>, m: nat)
    requires m < |bs|
    ensures DamagedZones(s, bs, m) !! Own(s, bs, m, false) !! Own(s, bs, m, true)
  {
    hide Damaged, ZoneStart;
  }

  lemma Add<T>(x: set<T>, y: set<T>, z: set<T>)
    requires x !! y !! z
    ensures |x + y + z| == |x| + |y| + |z|
  {
    assert x !! y && (x + y) !! z;
  }

  /** A scan of an arena whose headers are intact answers exactly the number of redzones in which some
      one of the 16 bytes is not 0xCD. */
  lemma ScanCounts(s: seq<byte>, used: nat, bs: seq<Block>)
    requires Refines(s, used, bs)
    ensures Scannable(s, used) && Verdict(Walk(s, used)) == |DamagedZones(s, bs, |bs|)|
  {
    hide Image, DirtyZones;
    RefinementIsTheWalk(s, used, bs);
    CountUpTo(s, used, bs, |bs|);
    assert bs[..|bs|] == bs;
  }

  // ---- one stray byte ----

  /** Block `i` with one redzone byte overwritten. */
  function Scratched(b: Block, post: bool, k: nat, v: byte): (r: Block)
    requires WellFormed(b) && k < 16
    ensures WellFormed(r) && r.size == b.size
  {
    if post then b.(post := b.post[k := v]) else b.(pre := b.pre[k := v])
  }

  lemma ScratchedBytes(b: Block, post: bool, k: nat, v: byte)
    requires WellFormed(b) && k < 16
    ensures var at := if post then 24 + Round8(b.size) + k else 8 + k;
            at < |BlockBytes(b)| && BlockBytes(Scratched(b, post, k, v)) == BlockBytes(b)[at := v]
  {
    hide HeaderBytes;
  }

  lemma ScratchRefines(s: seq<byte>, used: nat, bs: seq<Block>, i: nat, post: bool, k: nat, v: byte)
    requires Refines(s, used, bs) && i < |bs| && k < 16
    ensures ZoneStart(bs, i, post) + k < used <= |s| && WellFormed(bs[i])
    ensures Refines(s[ZoneStart(bs, i, post) + k := v], used, bs[i := Scratched(bs[i], post, k, v)])
  {
    hide Image, BlockBytes, Scratched;
    ZoneBytes(s, used, bs, i, post);
    var b, o, at := bs[i], Offset(bs, i), ZoneStart(bs, i, post) + k;
    assert WellFormed(b);
    UpdateImage(bs, i, b);
    UpdateImage(bs, i, Scratched(b, post, k, v));
    ScratchedBytes(b, post, k, v);
    assert bs[i := b] == bs;
    var image := Image(bs);
    SpliceOne(image, o, BlockBytes(b), at - o, v);
    assert s[at := v][..used] == s[..used][at := v];
  }

  lemma SpliceOne(a: seq<byte>, at: nat, whole: seq<byte>, k: nat, v: byte)
    requires at + |whole| <= |a| && k < |whole| && Splice(a, at, whole) == a
    ensures Splice(a, at, whole[k := v]) == a[at + k := v]
  {
    assert forall j :: 0 <= j < |whole| ==> a[at + j] == Splice(a, at, whole)[at + j] == whole[j];
  }

  /** In an arena with all redzones intact, one byte other than 0xCD anywhere in any redzone is found:
      the next scan answers 1. */
  lemma StrayStore(s: seq<byte>, used: nat, bs: seq<Block>, i: nat, post: bool, k: nat, v: byte)
    requires Refines(s, used, bs) && DamagedZones(s, bs, |bs|) == {}
    requires i < |bs| && k < 16 && v != 0xCD && ZoneStart(bs, i, post) + k < |s|
    ensures var hit := s[ZoneStart(bs, i, post) + k := v];
            Scannable(hit, used) && Verdict(Walk(hit, used)) == 1
  {
    hide Image, Walk, Scannable, Verdict, Refines;
    var at := ZoneStart(bs, i, post) + k;
    var hit := s[at := v];
    ScratchRefines(s, used, bs, i, post, k, v);
    var cs := bs[i := Scratched(bs[i], post, k, v)];
    ScanCounts(hit, used, cs);
    forall j: nat, side: bool | j < |bs| ensures ZoneStart(cs, j, side) == ZoneStart(bs, j, side) {
      SameSizes(s, used, bs, hit, cs, j);
    }
    forall j: nat, side: bool | j < |bs|
      ensures Damaged(hit, ZoneStart(bs, j, side)) <==> j == i && side == post
    {
      ZoneApart(s, used, bs, i, post, j, side);
      assert (j, side) !in DamagedZones(s, bs, |bs|);
      HitIsOneZone(s, at, v, ZoneStart(bs, j, side));
    }
    assert DamagedZones(hit, cs, |cs|) == {(i, post)};
  }

  lemma SameSizes(s: seq<byte>, used: nat, bs: seq<Block>, t: seq<byte>, cs: seq<Block>, j: nat)
    requires Refines(s, used, bs) && Refines(t, used, cs) && |bs| == |cs| && j < |bs|
    requires forall k :: 0 <= k < |bs| ==> cs[k].size == bs[k].size
    ensures Offset(cs, j) == Offset(bs, j)
  {
    OffsetBySizes(cs, bs, j);
  }

  /** Redzones are 16 bytes each and do not overlap. */
  lemma ZoneApart(s: seq<byte>, used: nat, bs: seq<Block>, i: nat, p: bool, j: nat, q: bool)
    requires Refines(s, used, bs) && i < |bs| && j < |bs|
    ensures (i, p) != (j, q) ==>
              ZoneStart(bs, i, p) + 16 <= ZoneStart(bs, j, q) || ZoneStart(bs, j, q) + 16 <= ZoneStart(bs, i, p)
    ensures ZoneStart(bs, i, p) + 16 <= |s| && ZoneStart(bs, j, q) + 16 <= |s|
  {
    hide Image;
    ZoneBytes(s, used, bs, i, p);
    ZoneBytes(s, used, bs, j, q);
    if i < j { Layout(bs, i, j); }
    if j < i { Layout(bs, j, i); }
  }

  lemma HitIsOneZone(s: seq<byte>, at: nat, v: byte, from: nat)
    requires at < |s| && from + 16 <= |s| && v != 0xCD && !Damaged(s, from)
    ensures Damaged(s[at := v], from) <==> from <= at < from + 16
  {
    var hit := s[at := v];
    if from <= at < from + 16 {
      assert hit[at] != 0xCD;
    }
    if Damaged(hit, from) {
      var k :| from <= k < from + 16 && k < |hit| && hit[k] != 0xCD;
      assert k != at ==> hit[k] == s[k];
    }
  }

  // ---- alloc and free, byte by byte ----

  /** After a free of live block `i`: four header bytes spell the freed magic, the `size` bytes asked for
      are 0xDE, and every other byte, slack and redzones included, is as it was. */
  lemma FreedInNumbers(s: seq<byte>, used: nat, bs: seq<Block>, i: nat, t: seq<byte>, total: nat, redzones: bool)
    requires Refines(s, used, bs) && i < |bs| && bs[i].live && total <= 0x1_0000_0000
    requires |t| == |s| && t[used..] == s[used..] && Refines(t, used, Apply(Op.Free(i), bs, total, redzones))
    ensures var o, u := Offset(bs, i), UserOffset(bs, i);
            && u == o + 24 && u + bs[i].size <= used
            && t[o..o + 4] == [0xED, 0xFE, 0xED, 0xFE]
            && (forall k :: u <= k < u + bs[i].size ==> t[k] == 0xDE)
            && forall k :: 0 <= k < |s| && !(o <= k < o + 4) && !(u <= k < u + bs[i].size) ==> t[k] == s[k]
  {
    hide Image, BlockBytes, FreedBlock, Le, Fill, Splice;
    FreedBytes(bs, i, s, used);
    HeaderInNumbers(s, used, bs, i);
    MagicBytes(false);
    var o, u := Offset(bs, i), UserOffset(bs, i);
    var flipped := Splice(s, o, Le(MAGIC_FREE, 4));
    var after := Splice(flipped, u, Fill(POISON_BYTE, bs[i].size));
    Halves(t, after, used);
    TwoSplices(s, o, Le(MAGIC_FREE, 4), u, Fill(POISON_BYTE, bs[i].size));
  }

  lemma Halves(a: seq<byte>, b: seq<byte>, n: nat)
    requires n <= |a| == |b| && a[..n] == b[..n] && a[n..] == b[n..]
    ensures a == b
  {
    assert a == a[..n] + a[n..] && b == b[..n] + b[n..];
  }

  lemma TwoSplices(s: seq<byte>, o: nat, x: seq<byte>, u: nat, y: seq<byte>)
    requires o + |x| <= u && u + |y| <= |s|
    ensures var t := Splice(Splice(s, o, x), u, y);
            && t[o..o + |x|] == x && (forall k :: u <= k < u + |y| ==> t[k] == y[k - u])
            && forall k :: 0 <= k < |s| && !(o <= k < o + |x|) && !(u <= k < u + |y|) ==> t[k] == s[k]
  {
  }

  /** After a successful alloc of `n` bytes at `used`: a live header with the size, with redzones asked
      for 16 bytes of 0xCD before and after the rounded area, and every other byte as it was. */
  lemma AllocatedInNumbers(s: seq<byte>, used: nat, bs: seq<Block>, n: nat, redzones: bool, p: Pointer,
                           t: seq<byte>, used': nat, bs': seq<Block>)
    requires Refines(s, used, bs) && Refines(t, used', bs') && Allocated(n, redzones, p, s, used, bs, t, used', bs')
    ensures p == At(used + 24) && used' == used + 40 + Round8(n) <= |t| == |s|
    ensures t[used..used + 4] == [0xAA, 0x11, 0x1A, 0xA1] && n == Number(t, used + 4)
    ensures forall k :: 0 <= k < |s| && !(used <= k < used + 8) ==>
              t[k] == if redzones && (used + 8 <= k < used + 24 || used' - 16 <= k < used') then 0xCD else s[k]
  {
    hide Image, BlockBytes, HeaderBytes, NewBlock, Refines;
    var i := |bs|;
    var area := s[used + 8..used'];
    var b := NewBlock(n, redzones, area);
    Bumped(n, redzones, p, s, used, bs, t, used', bs');
    HeaderInNumbers(t, used', bs', i);
    ZoneBytes(t, used', bs', i, false);
    ZoneBytes(t, used', bs', i, true);
    DataBytes(t, used', bs', i);
    NewParts(n, redzones, area);
    hide ZoneStart, Offset, UserOffset, Number;
    SliceOf(s, used + 8, used', 16, 16 + Round8(n));
    Laid(s, t, used, used', if redzones then Fill(0xCD, 16) else area[..16], area[16..16 + Round8(n)],
         if redzones then Fill(0xCD, 16) else area[16 + Round8(n)..], redzones);
  }

  lemma SliceOf(s: seq<byte>, from: nat, to: nat, i: nat, j: nat)
    requires from <= to <= |s| && i <= j <= to - from
    ensures s[from..to][i..j] == s[from + i..from + j]
    ensures s[from..to][..i] == s[from..from + i]
    ensures s[from..to][j..] == s[from + j..to]
  {
    SliceMid(s, from, to, i, j);
    SliceMid(s, from, to, 0, i);
    SliceMid(s, from, to, j, to - from);
    var whole := s[from..to];
    assert whole[0..i] == whole[..i] && whole[j..|whole|] == whole[j..];
  }

  lemma SliceMid(s: seq<byte>, from: nat, to: nat, i: nat, j: nat)
    requires from <= to <= |s| && i <= j <= to - from
    ensures s[from..to][i..j] == s[from + i..from + j]
  {
    forall k | 0 <= k < j - i ensures s[from..to][i..j][k] == s[from + i..from + j][k] {
      assert s[from..to][i + k] == s[from + i + k];
    }
  }

  lemma Bumped(n: nat, redzones: bool, p: Pointer, s: seq<byte>, used: nat, bs: seq<Block>,
               t: seq<byte>, used': nat, bs': seq<Block>)
    requires Refines(s, used, bs) && Refines(t, used', bs') && Allocated(n, redzones, p, s, used, bs, t, used', bs')
    ensures used' == used + 40 + Round8(n) <= |t| == |s|
    ensures bs' == bs + [NewBlock(n, redzones, s[used + 8..used'])]
    ensures Offset(bs', |bs|) == used && bs'[|bs|].size == n && bs'[|bs|].live && p == At(used + 24)
    ensures ZoneStart(bs', |bs|, false) == used + 8 && ZoneStart(bs', |bs|, true) == used' - 16
    ensures t[..used] == s[..used] && t[used'..] == s[used'..]
  {
    hide Image, BlockBytes;
    var b := NewBlock(n, redzones, s[used + 8..used']);
    assert bs' == bs + [b] && bs'[..|bs|] == bs && bs'[|bs|] == b;
  }

  lemma NewParts(n: nat, redzones: bool, area: seq<byte>)
    requires |area| == 32 + Round8(n)
    ensures var b := NewBlock(n, redzones, area);
            && b.pre == (if redzones then Fill(0xCD, 16) else area[..16])
            && b.data == area[16..16 + Round8(n)]
            && b.post == (if redzones then Fill(0xCD, 16) else area[16 + Round8(n)..])
  {
  }

  lemma Laid(s: seq<byte>, t: seq<byte>, from: nat, to: nat, pre: seq<byte>, data: seq<byte>, post: seq<byte>,
             redzones: bool)
    requires from + 40 <= to <= |s| == |t| && |pre| == |post| == 16 && |data| == to - from - 40
    requires t[..from] == s[..from] && t[to..] == s[to..]
    requires t[from + 8..from + 24] == pre && t[from + 24..to - 16] == data && t[to - 16..to] == post
    requires data == s[from + 24..to - 16]
    requires pre == (if redzones then Fill(0xCD, 16) else s[from + 8..from + 24])
    requires post == (if redzones then Fill(0xCD, 16) else s[to - 16..to])
    ensures forall k :: 0 <= k < |s| && !(from <= k < from + 8) ==>
              t[k] == if redzones && (from + 8 <= k < from + 24 || to - 16 <= k < to) then 0xCD else s[k]
  {
    forall k | 0 <= k < |s| && !(from <= k < from + 8)
      ensures t[k] == if redzones && (from + 8 <= k < from + 24 || to - 16 <= k < to) then 0xCD else s[k]
    {
      if k < from {
        assert t[k] == t[..from][k] && s[k] == s[..from][k];
      } else if k < from + 24 {
        assert t[k] == pre[k - from - 8];
      } else if k < to - 16 {
        assert t[k] == data[k - from - 24];
      } else if k < to {
        assert t[k] == post[k - (to - 16)];
      } else {
        assert t[k] == t[to..][k - to] && s[k] == s[to..][k - to];
      }
    }
  }

  lemma DataBytes(s: seq<byte>, used: nat, bs: seq<Block>, i: nat)
    requires Refines(s, used, bs) && i < |bs|
    ensures Offset(bs, i) + 40 + Round8(bs[i].size) <= used
    ensures s[Offset(bs, i) + 24..Offset(bs, i) + 24 + Round8(bs[i].size)] == bs[i].data
  {
    hide Image, BlockBytes, HeaderBytes;
    var b, o := bs[i], Offset(bs, i);
    HeaderAt(s, used, bs, i);
    ImageSplit(bs, i);
    assert WellFormed(b);
    var tail := Image(bs[i + 1..]) + s[used..];
    assert s == Image(bs[..i]) + (BlockBytes(b) + tail);
    assert s[o..o + |BlockBytes(b)|] == BlockBytes(b);
    BlockData(b);
    assert s[o + 24..o + 24 + Round8(b.size)] == s[o..o + |BlockBytes(b)|][24..24 + Round8(b.size)];
  }

  lemma BlockData(b: Block)
    requires WellFormed(b)
    ensures |BlockBytes(b)| == 40 + Round8(b.size) && BlockBytes(b)[24..24 + Round8(b.size)] == b.data
  {
    hide HeaderBytes;
  }

  // ---- the scenarios ----

  /** One store of `v`, `k` bytes into the redzone before or after a lone block of `n` bytes. */
  method StrayByte(bytes: nat, n: nat, post: bool, k: nat, v: byte) returns (corrupted: int)
    requires MIN_ARENA <= bytes <= MAX_ARENA && BlockTotal(n) <= bytes && k < 16
    ensures corrupted == if v == 0xCD then 0 else 1
  {
    hide Image, Walk, Scannable, Verdict, Splice, Fill, NewBlock, BlockTotal, Allocated, Apply, Refines, Damaged,
         Round8;
    var a := new Arena(bytes, true);
    ghost var blank := a.base[..];
    var p := a.Alloc(n);
    FirstAlloc(n, p, blank, a.base[..], a.used, a.blocks);
    ghost var s := a.base[..];
    CleanMeansUndamaged(s, a.used, a.blocks);
    ZoneBytes(s, a.used, a.blocks, 0, post);
    RefinesWithin(s, a.used, a.blocks);
    var at := p.offset + if post then Round8(n) + k else k - 16;
    assert at == ZoneStart(a.blocks, 0, post) + k;
    if v != 0xCD {
      StrayStore(s, a.used, a.blocks, 0, post, k, v);
    } else {
      SameByte(s, at, ZoneStart(a.blocks, 0, post), a.blocks, post);
      ScanCounts(s, a.used, a.blocks);
    }
    a.base[at] := v;
    assert a.base[..] == s[at := v];
    corrupted := a.Check();
  }

  lemma CleanMeansUndamaged(s: seq<byte>, used: nat, bs: seq<Block>)
    requires Refines(s, used, bs) && Clean(bs)
    ensures DamagedZones(s, bs, |bs|) == {}
  {
    hide Image;
    CleanIsZero(bs);
    CountUpTo(s, used, bs, |bs|);
    assert bs[..|bs|] == bs;
  }

  /** Writing 0xCD where there is no damage changes nothing. */
  lemma SameByte(s: seq<byte>, at: nat, from: nat, bs: seq<Block>, post: bool)
    requires |bs| == 1 && from == ZoneStart(bs, 0, post) && from <= at < from + 16 && at < |s|
    requires DamagedZones(s, bs, 1) == {}
    ensures s[at := 0xCD] == s
  {
    assert (0, post) !in DamagedZones(s, bs, 1);
  }

  /** src/scenarios/memory/uaf_callback.c for any block of at least four bytes: the 16 bits read through
      the dangling pointer are 0xDEDE, which is 57054, whatever was stored there. */
  method UseAfterFree(bytes: nat, n: nat, secret: nat) returns (seen: nat)
    requires MIN_ARENA <= bytes <= MAX_ARENA && BlockTotal(n) <= bytes && n >= 4 && secret < 0x1_0000_0000
    ensures seen == 57054
  {
    hide Image, Splice, Fill, Le, NewBlock, BlockTotal, Allocated, Apply, Refines, Round8, UserOffset, FreedBlock;
    var a := new Arena(bytes, true);
    ghost var blank := a.base[..];
    var p := a.Alloc(n);
    FirstAlloc(n, p, blank, a.base[..], a.used, a.blocks);
    assert Denotes(p, a.blocks, 0);
    ghost var before := a.blocks;
    RefinesWithin(a.base[..], a.used, before);
    a.UserWrite(p, 0, Le(secret, 4), 0);
    OneWritten(before, Le(secret, 4), a.base.Length);
    assert Denotes(p, a.blocks, 0);
    MayFree(a.base[..], a.used, a.blocks, 0);
    ghost var s, bs := a.base[..], a.blocks;
    var r := a.Free(p);
    FreedInNumbers(s, a.used, bs, 0, a.base[..], a.base.Length, true);
    seen := a.base[p.offset] as int + 256 * a.base[p.offset + 1] as int;
  }

  lemma OneWritten(bs: seq<Block>, patch: seq<byte>, total: nat)
    requires AllWellFormed(bs) && |bs| == 1 && |patch| <= bs[0].size && total <= MAX_ARENA
    ensures var after := Apply(Op.Write(0, 0, patch), bs, total, true);
            |after| == 1 && after[0].size == bs[0].size && after[0].live == bs[0].live
            && UserOffset(after, 0) == UserOffset(bs, 0) == 24
  {
    hide Image, BlockBytes;
    OffsetZero(bs);
    OffsetZero(Apply(Op.Write(0, 0, patch), bs, total, true));
  }
}
