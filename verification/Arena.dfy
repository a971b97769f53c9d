/** src/chaos/chaos_mem.c as it runs: one byte array, a bump index and no other block list. */
module ArenaModel {
  import opened Basics
  import opened Bytes
  import opened Blocks

  /** A C pointer, as NULL or as a distance from the arena's base (possibly outside it). */
  datatype Pointer = Null | At(offset: int)

  const MIN_ARENA := 4096
  const MAX_ARENA := 0x1_0000_0000
  // Requests this small cannot make round8, block_total or `used + need` wrap a 64-bit size_t.
  const MAX_REQUEST := 0xFFFF_FFFE_0000_0000

  method Memset(a: array<byte>, at: nat, v: byte, n: nat)
    requires at + n <= a.Length
    modifies a
    ensures a[..] == Splice(old(a[..]), at, Fill(v, n))
  {
    for i := 0 to n
      invariant a[..] == Splice(old(a[..]), at, Fill(v, i))
    {
      a[at + i] := v;
    }
  }

  /** `*(uint32_t *)p = v` on a little-endian machine. */
  method StoreWord(a: array<byte>, at: nat, v: nat)
    requires at + 4 <= a.Length
    modifies a
    ensures a[..] == Splice(old(a[..]), at, Le(v, 4))
  {
    FourLe(v);
    hide Le;
    a[at], a[at + 1], a[at + 2], a[at + 3] := v % 256, v / 256 % 256, v / 65536 % 256, v / 16777216 % 256;
  }

  method LoadWord(a: array<byte>, at: nat) returns (w: nat)
    requires at + 4 <= a.Length
    ensures w == Word(a[..], at) < MAX_ARENA
  {
    w := FromLe(a[at..at + 4]);
    assert a[at..at + 4] == a[..][at..at + 4];
  }

  /** Four stores lay out a block: header words and, when asked for, the two redzones. */
  lemma LaidOut(s: seq<byte>, at: nat, n: nat, redzones: bool)
    requires at + BlockTotal(n) <= |s| <= MAX_ARENA
    ensures var s1 := Splice(Splice(s, at, Le(MAGIC_LIVE, 4)), at + 4, Le(n, 4));
            var post := at + HEADER + ZONE + Round8(n);
            var s2 := if redzones then
                        Splice(Splice(s1, at + HEADER, Fill(REDZONE_BYTE, ZONE)), post, Fill(REDZONE_BYTE, ZONE))
                      else s1;
            s2 == Splice(s, at, BlockBytes(NewBlock(n, redzones, s[at + HEADER..at + BlockTotal(n)])))
  {
    hide Le, Splice, Fill, HeaderBytes, BlockBytes, NewBlock, Round8;
    var whole := s[at..at + BlockTotal(n)];
    HeaderLaid(s, at, n);
    if redzones { ZonesLaid(s, at, n, Splice(whole, 0, HeaderBytes(n, true))); }
    assert whole[HEADER..] == s[at + HEADER..at + BlockTotal(n)] by { TakeDrop(s, at, HEADER, BlockTotal(n)); }
    WholeLaidOut(whole, n, redzones);
  }

  lemma HeaderLaid(s: seq<byte>, at: nat, n: nat)
    requires at + BlockTotal(n) <= |s|
    ensures Splice(Splice(s, at, Le(MAGIC_LIVE, 4)), at + 4, Le(n, 4))
            == Splice(s, at, Splice(s[at..at + BlockTotal(n)], 0, HeaderBytes(n, true)))
  {
    hide Le, Splice, HeaderBytes, Round8, BlockTotal;
    var whole := s[at..at + BlockTotal(n)];
    SpliceSame(s, at, BlockTotal(n));
    SpliceNext(s, at, Le(MAGIC_LIVE, 4), Le(n, 4));
    HeaderIs(n);
    SpliceInside(s, at, whole, 0, HeaderBytes(n, true));
  }

  lemma ZonesLaid(s: seq<byte>, at: nat, n: nat, w: seq<byte>)
    requires |w| == BlockTotal(n) && at + BlockTotal(n) <= |s|
    ensures var zone, post := Fill(REDZONE_BYTE, ZONE), HEADER + ZONE + Round8(n);
            Splice(Splice(Splice(s, at, w), at + HEADER, zone), at + post, zone)
            == Splice(s, at, Splice(Splice(w, HEADER, zone), post, zone))
  {
    hide Splice, Fill, Round8;
    var zone := Fill(REDZONE_BYTE, ZONE);
    SpliceInside(s, at, w, HEADER, zone);
    SpliceInside(s, at, Splice(w, HEADER, zone), HEADER + ZONE + Round8(n), zone);
  }

  lemma TakeDrop(s: seq<byte>, at: nat, i: nat, n: nat)
    requires at + n <= |s| && i <= n
    ensures s[at..at + n][i..] == s[at + i..at + n]
  {
  }

  lemma HeaderIs(n: nat)
    ensures HeaderBytes(n, true) == Le(MAGIC_LIVE, 4) + Le(n, 4)
  {
    hide Le;
  }

  lemma WholeLaidOut(whole: seq<byte>, n: nat, redzones: bool)
    requires |whole| == BlockTotal(n)
    ensures var zone := Fill(REDZONE_BYTE, ZONE);
            var w1 := Splice(whole, 0, HeaderBytes(n, true));
            (if redzones then Splice(Splice(w1, HEADER, zone), HEADER + ZONE + Round8(n), zone) else w1)
            == BlockBytes(NewBlock(n, redzones, whole[HEADER..]))
  {
    hide HeaderBytes, BlockBytes, NewBlock, Splice, Round8, Fill;
    var h, area := HeaderBytes(n, true), whole[HEADER..];
    SpliceAfter([], whole, h);
    Empty(whole);
    Empty(h);
    NewBlockBytes(n, redzones, area);
    if redzones {
      ZonesOver(h, area, Fill(REDZONE_BYTE, ZONE), Round8(n));
    } else {
      AreaParts(h, area, Round8(n));
    }
  }

  lemma NewBlockBytes(n: nat, redzones: bool, area: seq<byte>)
    requires |area| == BlockTotal(n) - HEADER
    ensures var post := ZONE + Round8(n);
            BlockBytes(NewBlock(n, redzones, area)) == HeaderBytes(n, true)
            + (if redzones then Fill(REDZONE_BYTE, ZONE) else area[..ZONE]) + area[ZONE..post]
            + (if redzones then Fill(REDZONE_BYTE, ZONE) else area[post..])
  {
    hide HeaderBytes, Round8, Fill;
  }

  lemma AreaParts(h: seq<byte>, area: seq<byte>, r: nat)
    requires |area| == ZONE + r + ZONE
    ensures h + area == h + area[..ZONE] + area[ZONE..ZONE + r] + area[ZONE + r..]
  {
    assert area == area[..ZONE] + area[ZONE..ZONE + r] + area[ZONE + r..];
  }

  lemma ZonesOver(h: seq<byte>, area: seq<byte>, zone: seq<byte>, r: nat)
    requires |h| == HEADER && |zone| == ZONE && |area| == ZONE + r + ZONE
    ensures Splice(Splice(h + area, HEADER, zone), HEADER + ZONE + r, zone) == h + zone + area[ZONE..ZONE + r] + zone
  {
    hide Splice;
    var mid := area[ZONE..ZONE + r];
    SpliceAfter(h, area, zone);
    assert area[ZONE..] == mid + area[ZONE + r..];
    Regroup(h + zone, mid, area[ZONE + r..]);
    SpliceAfter(h + zone + mid, area[ZONE + r..], zone);
    assert area[ZONE + r..][ZONE..] == [];
    Empty(h + zone + mid + zone);
  }

  lemma SpliceAfter(head: seq<byte>, a: seq<byte>, patch: seq<byte>)
    requires |patch| <= |a|
    ensures Splice(head + a, |head|, patch) == head + patch + a[|patch|..]
  {
  }

  /** `used` bytes of `s` spell out exactly the list `bs`. */
  ghost predicate Refines(s: seq<byte>, used: nat, bs: seq<Block>) {
    used <= |s| <= MAX_ARENA && AllWellFormed(bs) && s[..used] == Image(bs)
  }

  /** The bytes alone determine the block list: the header walk from offset 0 ends at `used` and
      returns it, so a scan counts exactly its damaged redzones. */
  lemma RefinementIsTheWalk(s: seq<byte>, used: nat, bs: seq<Block>)
    requires Refines(s, used, bs)
    ensures Scannable(s, used) && Walk(s, used) == Parsed(bs) && Verdict(Walk(s, used)) == DirtyZones(bs)
  {
    WalkOfImage(bs, s[used..]);
    assert s == Image(bs) + s[used..];
  }

  /** Block `i`'s header words, read where the list says they are. */
  lemma HeaderAt(s: seq<byte>, used: nat, bs: seq<Block>, i: nat)
    requires Refines(s, used, bs) && i < |bs|
    ensures Offset(bs, i) + BlockTotal(bs[i].size) <= used
    ensures Word(s, Offset(bs, i)) == Magic(bs[i].live) && Word(s, Offset(bs, i) + 4) == bs[i].size
  {
    hide BlockBytes, Image;
    var b, at := bs[i], Offset(bs, i);
    assert WellFormed(b);
    ImageSplit(bs, i);
    var tail := Image(bs[i + 1..]) + s[used..];
    assert s == Image(bs[..i]) + (BlockBytes(b) + tail);
    FirstBlockParses(b, tail);
    assert s[at..at + 4] == (BlockBytes(b) + tail)[0..4];
    assert s[at + 4..at + 8] == (BlockBytes(b) + tail)[4..8];
  }

  lemma RefinesWithin(s: seq<byte>, used: nat, bs: seq<Block>)
    requires Refines(s, used, bs)
    ensures used <= |s| <= MAX_ARENA && AllWellFormed(bs) && forall i :: 0 <= i < |bs| ==> WellFormed(bs[i])
  {
  }

  lemma UserOffsetIs(bs: seq<Block>, i: nat)
    requires i < |bs|
    ensures UserOffset(bs, i) == Offset(bs, i) + HEADER + ZONE
  {
  }

  lemma FreeingIs(bs: seq<Block>, i: nat, total: nat, redzones: bool)
    requires AllWellFormed(bs) && i < |bs| && WellFormed(bs[i]) && total <= MAX_ARENA
    ensures Apply(Op.Free(i), bs, total, redzones) == if bs[i].live then bs[i := FreedBlock(bs[i])] else bs
  {
  }

  /** `p` is the pointer alloc returned for block `i` of `bs`. */
  ghost predicate Denotes(p: Pointer, bs: seq<Block>, i: nat) {
    i < |bs| && p == At(UserOffset(bs, i))
  }

  /** A successful alloc: the list grows by one live block over the bytes that were there, its
      pointer comes back, and no other byte changes. */
  ghost predicate Allocated(n: nat, redzones: bool, p: Pointer,
                            before: seq<byte>, used: nat, bs: seq<Block>,
                            after: seq<byte>, used': nat, bs': seq<Block>)
    requires AllWellFormed(bs)
  {
    && used' == used + BlockTotal(n) <= |before| == |after| <= MAX_ARENA
    && bs' == Apply(Op.Alloc(n, before[used + HEADER..used']), bs, |before|, redzones)
    && |bs'| == |bs| + 1 && Denotes(p, bs', |bs|)
    && after[..used] == before[..used] && after[used'..] == before[used'..]
  }

  lemma BumpAllocates(n: nat, redzones: bool, before: seq<byte>, used: nat, bs: seq<Block>)
    requires Refines(before, used, bs) && used + BlockTotal(n) <= |before|
    ensures var used' := used + BlockTotal(n);
            var b := NewBlock(n, redzones, before[used + HEADER..used']);
            var after := Splice(before, used, BlockBytes(b));
            && Refines(after, used', bs + [b])
            && Allocated(n, redzones, At(used + HEADER + ZONE), before, used, bs, after, used', bs + [b])
  {
    hide BlockBytes, Image, NewBlock;
    var b := NewBlock(n, redzones, before[used + HEADER..used + BlockTotal(n)]);
    ImageSnoc(bs, b);
    assert (bs + [b])[..|bs|] == bs;
  }

  lemma OnlyOne(p: Pointer, bs: seq<Block>, i: nat)
    requires AllWellFormed(bs)
    requires i < |bs| && p == At(UserOffset(bs, i))
    ensures forall j :: 0 <= j < |bs| && p == At(UserOffset(bs, j)) ==> j == i
  {
    forall j | 0 <= j < |bs| && j != i ensures UserOffset(bs, j) != UserOffset(bs, i) {
      if i < j { Layout(bs, i, j); } else { Layout(bs, j, i); }
    }
  }

  /** Flipping the magic and poisoning `size` bytes is exactly FreedBlock on the image. */
  lemma FreedBytes(bs: seq<Block>, i: nat, s: seq<byte>, used: nat)
    requires Refines(s, used, bs) && i < |bs|
    ensures Offset(bs, i) + BlockTotal(bs[i].size) <= used
    ensures var flipped := Splice(s, Offset(bs, i), Le(MAGIC_FREE, 4));
            && Word(flipped, Offset(bs, i) + 4) == bs[i].size
            && var after := Splice(flipped, UserOffset(bs, i), Fill(POISON_BYTE, bs[i].size));
               Refines(after, used, bs[i := FreedBlock(bs[i])]) && after[used..] == s[used..]
  {
    hide Image, BlockBytes, FreedBlock, Splice, Le;
    var b := bs[i];
    var tail := s[used..];
    HeaderAt(s, used, bs, i);
    assert WellFormed(b);
    UpdateImage(bs, i, b);
    UpdateImage(bs, i, FreedBlock(b));
    assert bs[i := b] == bs && s == Image(bs) + tail;
    var at := Offset(bs, i);
    assert Splice(s, at, Le(MAGIC_FREE, 4))[at + 4..at + 8] == s[at + 4..at + 8];
    SpliceTail(Image(bs), tail, at, BlockBytes(b));
    SpliceTail(Image(bs), tail, at, BlockBytes(FreedBlock(b)));
    SpliceInside(s, at, BlockBytes(b), 0, Le(MAGIC_FREE, 4));
    SpliceInside(s, at, Splice(BlockBytes(b), 0, Le(MAGIC_FREE, 4)), HEADER + ZONE, Fill(POISON_BYTE, b.size));
    FreedBlockBytes(b);
  }

  lemma SpliceTail(s: seq<byte>, tail: seq<byte>, at: nat, patch: seq<byte>)
    requires at + |patch| <= |s|
    ensures Splice(s + tail, at, patch) == Splice(s, at, patch) + tail
  {
  }

  lemma FreedBlockBytes(b: Block)
    requires WellFormed(b)
    ensures Splice(Splice(BlockBytes(b), 0, Le(MAGIC_FREE, 4)), HEADER + ZONE, Fill(POISON_BYTE, b.size))
            == BlockBytes(FreedBlock(b))
  {
    hide Le;
    var poisoned := Splice(b.data, 0, Fill(POISON_BYTE, b.size));
    assert BlockBytes(b) == Le(Magic(b.live), 4) + Le(b.size, 4) + b.pre + b.data + b.post;
    assert BlockBytes(FreedBlock(b)) == Le(MAGIC_FREE, 4) + Le(b.size, 4) + b.pre + poisoned + b.post;
    hide BlockBytes, HeaderBytes, FreedBlock;
  }

  lemma WrittenBytes(bs: seq<Block>, i: nat, at: nat, patch: seq<byte>, s: seq<byte>, used: nat)
    requires Refines(s, used, bs) && i < |bs| && at + |patch| <= bs[i].size
    ensures UserOffset(bs, i) + at + |patch| <= used
    ensures var after := Splice(s, UserOffset(bs, i) + at, patch);
            Refines(after, used, bs[i := WrittenBlock(bs[i], at, patch)]) && after[used..] == s[used..]
  {
    hide Image, BlockBytes, Splice;
    var b := bs[i];
    var w := WrittenBlock(b, at, patch);
    HeaderAt(s, used, bs, i);
    UpdateImage(bs, i, b);
    UpdateImage(bs, i, w);
    var tail := s[used..];
    assert bs[i := b] == bs && s == Image(bs) + tail;
    SpliceTail(Image(bs), tail, Offset(bs, i), BlockBytes(b));
    SpliceTail(Image(bs), tail, Offset(bs, i), BlockBytes(w));
    SpliceInside(s, Offset(bs, i), BlockBytes(b), HEADER + ZONE + at, patch);
    WrittenBlockBytes(b, at, patch);
  }

  lemma WrittenBlockBytes(b: Block, at: nat, patch: seq<byte>)
    requires WellFormed(b) && at + |patch| <= b.size
    ensures Splice(BlockBytes(b), HEADER + ZONE + at, patch) == BlockBytes(WrittenBlock(b, at, patch))
  {
    hide HeaderBytes;
  }

  /** The scan's running total: `corrupted` zones so far, the rest still to walk. */
  function AddTo(corrupted: nat, rest: Parsed): int {
    match rest
    case Wrecked => -1
    case Parsed(bs) => corrupted + DirtyZones(bs)
  }

  lemma NothingYet(s: seq<byte>, used: nat)
    requires Scannable(s, used)
    ensures Scannable(s[0..], used) && AddTo(0, Walk(s[0..], used)) == Verdict(Walk(s, used))
  {
    assert s[0..] == s;
  }

  lemma NothingLeft(s: seq<byte>, left: int, corrupted: nat)
    requires left <= 0
    ensures Scannable(s, left) && AddTo(corrupted, Walk(s, left)) == corrupted
  {
  }

  /** One turn of the scan, at offset `off` of the bytes `s`. */
  lemma ScanStep(s: seq<byte>, off: nat, left: int, corrupted: nat)
    requires off <= |s| && 0 < left && Scannable(s[off..], left)
    ensures off + HEADER <= |s|
    ensures var magic := Word(s, off);
            if magic != MAGIC_LIVE && magic != MAGIC_FREE then AddTo(corrupted, Walk(s[off..], left)) == -1
            else
              var size := Word(s, off + 4);
              var total := BlockTotal(size);
              var pre, post := off + HEADER, off + HEADER + ZONE + Round8(size);
              && off + total <= |s| && Scannable(s[off + total..], left - total)
              && AddTo(corrupted, Walk(s[off..], left))
                 == AddTo(corrupted + Dirt(s[pre..pre + ZONE]) + Dirt(s[post..post + ZONE]),
                           Walk(s[off + total..], left - total))
  {
    hide Dirt, DirtyZones, AddTo, Prepend, Round8, BlockTotal;
    var rest := s[off..];
    SliceSlice(s, off, 0, 4);
    SliceSlice(s, off, 4, 8);
    var size := Word(s, off + 4);
    var total := BlockTotal(size);
    if Word(s, off) == MAGIC_LIVE || Word(s, off) == MAGIC_FREE {
      SliceTail(s, off, total);
      SliceSlice(s, off, HEADER, HEADER + ZONE);
      SliceSlice(s, off, HEADER + ZONE + Round8(size), HEADER + ZONE + Round8(size) + ZONE);
      AddToStep(corrupted, FirstBlock(rest), Walk(rest[total..], left - total));
    } else {
      AddToWrecked(corrupted);
    }
  }

  lemma AddToStep(corrupted: nat, b: Block, p: Parsed)
    ensures AddTo(corrupted, Prepend([b], p)) == AddTo(corrupted + Dirt(b.pre) + Dirt(b.post), p)
  {
    hide Dirt;
    match p
    case Wrecked =>
    case Parsed(bs) => assert ([b] + bs)[1..] == bs;
  }

  lemma AddToWrecked(corrupted: nat)
    ensures AddTo(corrupted, Wrecked) == -1
  {
  }

  class Arena {
    const base: array<byte>
    const redzones: bool
    var used: nat
    ghost var blocks: seq<Block>

    ghost predicate Valid()
      reads this, base
    {
      MIN_ARENA <= base.Length && Refines(base[..], used, blocks)
    }

    /** The mapping is zeroed by mmap. */
    constructor (bytes: nat, redzones: bool)
      requires MIN_ARENA <= bytes <= MAX_ARENA
      ensures Valid() && fresh(base)
      ensures base.Length == bytes && this.redzones == redzones
      ensures blocks == [] && used == 0 && base[..] == Fill(0, bytes)
    {
      base := new byte[bytes](_ => 0);
      this.redzones := redzones;
      used := 0;
      blocks := [];
    }

    method Alloc(n: nat) returns (p: Pointer)
      requires Valid() && n <= MAX_REQUEST
      modifies this`used, this`blocks, base
      ensures Valid()
      ensures p == Null <==> old(used) + BlockTotal(n) > base.Length
      ensures p == Null ==> used == old(used) && blocks == old(blocks) && base[..] == old(base[..])
      ensures p != Null ==> Allocated(n, redzones, p, old(base[..]), old(used), old(blocks), base[..], used, blocks)
    {
      hide Image, NewBlock, BlockBytes, Splice, Fill, Le, Allocated, Apply, Refines, Round8, BlockTotal;
      RefinesWithin(base[..], used, blocks);
      var need := BlockTotal(n);
      if used + need > base.Length {
        return Null;
      }
      ghost var before := base[..];
      LaidOut(before, used, n, redzones);
      BumpAllocates(n, redzones, before, used, blocks);
      StoreWord(base, used, MAGIC_LIVE);
      StoreWord(base, used + 4, n);
      var pre := used + HEADER;
      var user := pre + ZONE;
      var post := user + Round8(n);
      if redzones {
        Memset(base, pre, REDZONE_BYTE, ZONE);
        Memset(base, post, REDZONE_BYTE, ZONE);
      }
      blocks := blocks + [NewBlock(n, redzones, before[used + HEADER..used + need])];
      used := used + need;
      return At(user);
    }

    /** free may be handed any address; the one thing a caller must not do is forge a live magic
        where no block starts. */
    ghost predicate NoForgedHeader(p: Pointer)
      requires Valid()
      reads this, base
    {
      p != Null ==>
        var h := p.offset - ZONE - HEADER;
        0 <= h < base.Length ==>
          && h + 4 <= base.Length
          && (Word(base[..], h) == MAGIC_LIVE ==> exists i: nat :: Denotes(p, blocks, i))
    }

    method Free(p: Pointer) returns (r: int)
      requires Valid() && NoForgedHeader(p)
      modifies this`blocks, base
      ensures Valid()
      ensures r == 0 || r == -1
      ensures r == 0 <==> exists i: nat :: Denotes(p, old(blocks), i) && old(blocks)[i].live
      ensures r == -1 ==> blocks == old(blocks) && base[..] == old(base[..])
      ensures forall i: nat :: Denotes(p, old(blocks), i) ==>
                blocks == Apply(Op.Free(i), old(blocks), base.Length, redzones)
      ensures base[used..] == old(base[used..])
    {
      hide Splice, Fill, Le, Image, BlockBytes, FreedBlock, Refines, Word, Apply, UserOffset;
      RefinesWithin(base[..], used, blocks);
      forall i: nat | Denotes(p, blocks, i)
        ensures 0 <= p.offset - ZONE - HEADER < used
        ensures Word(base[..], p.offset - ZONE - HEADER) == Magic(blocks[i].live)
        ensures Apply(Op.Free(i), blocks, base.Length, redzones)
                == if blocks[i].live then blocks[i := FreedBlock(blocks[i])] else blocks
      {
        HeaderAt(base[..], used, blocks, i);
        UserOffsetIs(blocks, i);
        FreeingIs(blocks, i, base.Length, redzones);
      }
      if p == Null { return -1; }
      var u := p.offset;
      var h := u - ZONE - HEADER;
      if h < 0 || h >= base.Length { return -1; }
      var magic := LoadWord(base, h);
      if magic == MAGIC_FREE { return -1; }
      if magic != MAGIC_LIVE { return -1; }
      ghost var i: nat :| Denotes(p, blocks, i);
      OnlyOne(p, blocks, i);
      UserOffsetIs(blocks, i);
      FreedBytes(blocks, i, base[..], used);
      StoreWord(base, h, MAGIC_FREE);
      var size := LoadWord(base, h + 4);
      Memset(base, u, POISON_BYTE, size);
      blocks := blocks[i := FreedBlock(blocks[i])];
      return 0;
    }

    /** A client storing through the pointer it was given for block `i`, inside the size it asked
        for, whether or not it has freed it since. */
    method UserWrite(p: Pointer, at: nat, patch: seq<byte>, ghost i: nat)
      requires Valid() && Denotes(p, blocks, i) && at + |patch| <= blocks[i].size
      modifies this`blocks, base
      ensures Valid() && p.offset + at + |patch| <= base.Length
      ensures base[..] == Splice(old(base[..]), p.offset + at, patch)
      ensures blocks == Apply(Op.Write(i, at, patch), old(blocks), base.Length, redzones)
    {
      hide Splice, Image, BlockBytes, WrittenBlock;
      HeaderAt(base[..], used, blocks, i);
      WrittenBytes(blocks, i, at, patch, base[..], used);
      CopyIn(base, p.offset + at, patch);
      blocks := blocks[i := WrittenBlock(blocks[i], at, patch)];
    }

    method ZoneDirt(at: nat) returns (d: nat)
      requires at + ZONE <= base.Length
      ensures d == Dirt(base[..][at..at + ZONE])
    {
      ghost var zone := base[..][at..at + ZONE];
      for i := 0 to ZONE
        invariant forall k :: 0 <= k < i ==> zone[k] == REDZONE_BYTE
      {
        assert base[at + i] == zone[i];
        if base[at + i] != REDZONE_BYTE {
          return 1;
        }
      }
      return 0;
    }

    /** The scan says -1 at the first bad magic, else how many redzones hold a byte other than
        0xCD. It may run on a damaged arena, as long as the sizes it meets keep it in the mapping. */
    method Check() returns (r: int)
      requires used <= base.Length && Scannable(base[..], used)
      ensures !redzones ==> r == 0
      ensures redzones ==> r == Verdict(Walk(base[..], used))
    {
      hide Walk, Scannable, Dirt, DirtyZones, AddTo, Round8, BlockTotal;
      if !redzones { return 0; }
      ghost var s := base[..];
      NothingYet(s, used);
      var corrupted, off := 0, 0;
      while off < used
        invariant 0 <= off <= |s|
        invariant Scannable(s[off..], used - off)
        invariant AddTo(corrupted, Walk(s[off..], used - off)) == Verdict(Walk(s, used))
        decreases used - off
      {
        ScanStep(s, off, used - off, corrupted);
        var magic := LoadWord(base, off);
        if magic != MAGIC_LIVE && magic != MAGIC_FREE { return -1; }
        var size := LoadWord(base, off + 4);
        var pad := Round8(size);
        var blksz := HEADER + ZONE + pad + ZONE;
        var pre := off + HEADER;
        var post := pre + ZONE + pad;
        var d1 := ZoneDirt(pre);
        var d2 := ZoneDirt(post);
        corrupted := corrupted + d1 + d2;
        off := off + blksz;
      }
      NothingLeft(s[off..], used - off, corrupted);
      return corrupted;
    }
  }

  /** chaos_arena_create: an undersized request is refused; the system may refuse any other. */
  method Create(bytes: nat, redzones: bool, outOfMemory: bool) returns (a: Arena?)
    requires bytes <= MAX_ARENA
    ensures a == null <==> bytes < 4096 || outOfMemory
    ensures a != null ==> fresh(a) && fresh(a.base) && a.Valid() && a.blocks == []
                          && a.base.Length == bytes && a.redzones == redzones
  {
    if bytes < MIN_ARENA || outOfMemory { return null; }
    a := new Arena(bytes, redzones);
  }

  /** A freed block's pointer is refused for ever, whatever allocs, frees and in-bounds writes
      happen in between. */
  lemma FreedForever(ops: seq<Op>, bs: seq<Block>, i: nat, total: nat, redzones: bool)
    requires Sound(bs, total, redzones) && LegalRun(ops, bs, total, redzones)
    requires i < |bs| && !bs[i].live
    ensures var later := Run(ops, bs, total, redzones);
            && Denotes(At(UserOffset(bs, i)), later, i)
            && forall j: nat :: Denotes(At(UserOffset(bs, i)), later, j) ==> !later[j].live
  {
    hide Image, Run;
    RunKeeps(ops, bs, total, redzones);
    OnlyOne(At(UserOffset(bs, i)), Run(ops, bs, total, redzones), i);
  }

  lemma FirstAlloc(n: nat, p: Pointer, before: seq<byte>, after: seq<byte>, used: nat, bs: seq<Block>)
    requires Allocated(n, true, p, before, 0, [], after, used, bs)
    ensures |bs| == 1 && bs[0].size == n && bs[0].live && Clean(bs) && UserOffset(bs, 0) == HEADER + ZONE
    ensures p == At(HEADER + ZONE)
  {
    assert bs[..0] == [];
  }

  /** src/scenarios/memory/arena_corrupt.c for any sizes: one block of `n` bytes, `len` bytes of
      `v` stored from its start. */
  method ArenaCorrupt(bytes: nat, n: nat, v: byte, len: nat) returns (corrupted: int)
    requires MIN_ARENA <= bytes <= MAX_ARENA && BlockTotal(n) <= bytes
    requires HEADER + ZONE + len <= bytes
    ensures corrupted == if len <= Round8(n) || v == REDZONE_BYTE then 0 else 1
  {
    hide Image, Walk, Scannable, Splice, Fill, NewBlock, BlockTotal;
    var a := new Arena(bytes, true);
    assert BlockTotal(n) <= a.base.Length;
    var p := a.Alloc(n);
    FirstAlloc(n, p, Fill(0, bytes), a.base[..], a.used, a.blocks);
    assert a.base[..] == Image(a.blocks) + a.base[a.used..];
    MemsetVerdict(a.blocks, 0, a.base[a.used..], v, len);
    Memset(a.base, p.offset, v, len);
    corrupted := a.Check();
  }

  /** src/scenarios/memory/double_free.c for any size. */
  method DoubleFree(bytes: nat, n: nat) returns (r1: int, r2: int)
    requires MIN_ARENA <= bytes <= MAX_ARENA && BlockTotal(n) <= bytes
    ensures r1 == 0 && r2 == -1
  {
    hide Image, Fill, BlockTotal, Allocated, Apply, Refines, UserOffset;
    var a := new Arena(bytes, true);
    var p := a.Alloc(n);
    FirstAlloc(n, p, Fill(0, bytes), a.base[..], a.used, a.blocks);
    assert Denotes(p, a.blocks, 0);
    ghost var bs := a.blocks;
    MayFree(a.base[..], a.used, bs, 0);
    r1 := a.Free(p);
    FreedOnce(bs, 0, a.base.Length, true, p);
    MayFree(a.base[..], a.used, a.blocks, 0);
    r2 := a.Free(p);
  }

  /** A block's own pointer always meets free's precondition. */
  lemma MayFree(s: seq<byte>, used: nat, bs: seq<Block>, i: nat)
    requires Refines(s, used, bs) && i < |bs|
    ensures AllWellFormed(bs) && HEADER + ZONE <= UserOffset(bs, i) && UserOffset(bs, i) - ZONE - HEADER + 4 <= |s|
  {
    HeaderAt(s, used, bs, i);
  }

  lemma FreedOnce(bs: seq<Block>, i: nat, total: nat, redzones: bool, p: Pointer)
    requires AllWellFormed(bs) && i < |bs| && Denotes(p, bs, i) && total <= MAX_ARENA
    ensures var after := Apply(Op.Free(i), bs, total, redzones);
            && Denotes(p, after, i) && !after[i].live
            && forall j: nat :: Denotes(p, after, j) ==> j == i
  {
    hide Image, BlockBytes;
    var after := Apply(Op.Free(i), bs, total, redzones);
    OffsetBySizes(bs, after, i);
    OnlyOne(p, after, i);
  }
}
