/** The red-zoned bump arena of src/chaos/chaos_mem.c: its only block list is the headers it
    writes into its own byte array. `Block` lists are the meaning of that array. */
module Blocks {
  import opened Basics
  import opened Bytes

  const HEADER := 8
  const ZONE := 16
  const REDZONE_BYTE: byte := 0xCD
  const POISON_BYTE: byte := 0xDE
  const MAGIC_LIVE := 0xA11A11AA
  const MAGIC_FREE := 0xFEEDFEED

  /** One block as the bytes hold it: the size asked for, whether its magic says live, its two
      redzones and the whole user area, including the slack after `size`. */
  datatype Block = Block(size: nat, live: bool, pre: seq<byte>, data: seq<byte>, post: seq<byte>)

  function Round8(n: nat): (r: nat)
    ensures r % 8 == 0 && n <= r < n + 8
  {
    (n + 7) / 8 * 8
  }

  function BlockTotal(n: nat): (t: nat)
    ensures t == HEADER + ZONE + Round8(n) + ZONE
    ensures t % 8 == 0 && t >= 40
  {
    HEADER + ZONE + Round8(n) + ZONE
  }

  predicate WellFormed(b: Block) {
    b.size < 0x1_0000_0000 && |b.pre| == ZONE && |b.data| == Round8(b.size) && |b.post| == ZONE
  }

  predicate AllWellFormed(bs: seq<Block>) {
    forall b :: b in bs ==> WellFormed(b)
  }

  function Magic(live: bool): (m: nat)
    ensures live <==> m == MAGIC_LIVE
  {
    if live then MAGIC_LIVE else MAGIC_FREE
  }

  function HeaderBytes(size: nat, live: bool): (h: seq<byte>)
    ensures |h| == HEADER
  {
    Le(Magic(live), 4) + Le(size, 4)
  }

  function BlockBytes(b: Block): (s: seq<byte>)
    ensures |s| == HEADER + |b.pre| + |b.data| + |b.post|
  {
    HeaderBytes(b.size, b.live) + b.pre + b.data + b.post
  }

  /** The bytes of the arena below `used`. */
  function Image(bs: seq<Block>): seq<byte> {
    if bs == [] then [] else BlockBytes(bs[0]) + Image(bs[1..])
  }

  /** Offset of block `i`'s header: the blocks tile the arena from 0 with no gap. */
  function Offset(bs: seq<Block>, i: nat): nat
    requires i <= |bs|
  {
    |Image(bs[..i])|
  }

  /** The pointer handed to the user for block `i`. */
  function UserOffset(bs: seq<Block>, i: nat): nat
    requires i < |bs|
  {
    Offset(bs, i) + HEADER + ZONE
  }

  function Word(s: seq<byte>, at: nat): (w: nat)
    requires at + 4 <= |s|
    ensures w < 0x1_0000_0000
  {
    FourBytes();
    FromLe(s[at..at + 4])
  }

  predicate DirtyZone(z: seq<byte>) {
    exists i :: 0 <= i < |z| && z[i] != REDZONE_BYTE
  }

  function Dirt(z: seq<byte>): nat {
    if DirtyZone(z) then 1 else 0
  }

  /** How many redzones of the list hold a byte other than 0xCD. */
  function DirtyZones(bs: seq<Block>): nat {
    if bs == [] then 0 else Dirt(bs[0].pre) + Dirt(bs[0].post) + DirtyZones(bs[1..])
  }

  predicate Clean(bs: seq<Block>) {
    forall b :: b in bs ==> !DirtyZone(b.pre) && !DirtyZone(b.post)
  }

  // ---- reading the bytes back: the header walk ----

  /** What the walk at src/chaos/chaos_mem.c:104-122 may read without leaving the mapping, when
      `left` bytes of `s` are still below `used`. */
  predicate Scannable(s: seq<byte>, left: int)
    decreases |s|
  {
    left <= 0 || (
      HEADER <= |s| && (
        Word(s, 0) == MAGIC_LIVE || Word(s, 0) == MAGIC_FREE ==>
          var total := BlockTotal(Word(s, 4));
          total <= |s| && Scannable(s[total..], left - total)))
  }

  function FirstBlock(s: seq<byte>): Block
    requires HEADER <= |s| && BlockTotal(Word(s, 4)) <= |s|
  {
    var size := Word(s, 4);
    var post := HEADER + ZONE + Round8(size);
    Block(size, Word(s, 0) == MAGIC_LIVE, s[HEADER..HEADER + ZONE], s[HEADER + ZONE..post], s[post..post + ZONE])
  }

  datatype Parsed = Wrecked | Parsed(blocks: seq<Block>)

  /** The block list the headers spell out, or `Wrecked` at the first bad magic. */
  function Walk(s: seq<byte>, left: int): Parsed
    requires Scannable(s, left)
    decreases |s|
  {
    if left <= 0 then Parsed([])
    else if Word(s, 0) != MAGIC_LIVE && Word(s, 0) != MAGIC_FREE then Wrecked
    else
      var b := FirstBlock(s);
      var total := BlockTotal(b.size);
      Prepend([b], Walk(s[total..], left - total))
  }

  function Prepend(bs: seq<Block>, p: Parsed): Parsed {
    match p
    case Wrecked => Wrecked
    case Parsed(rest) => Parsed(bs + rest)
  }

  /** What chaos_arena_check answers, as a property of the parsed list. */
  function Verdict(p: Parsed): int {
    match p
    case Wrecked => -1
    case Parsed(bs) => DirtyZones(bs)
  }

  // ---- lemmas about images ----

  lemma ImageCons(b: Block, bs: seq<Block>)
    ensures Image([b] + bs) == BlockBytes(b) + Image(bs)
  {
    hide BlockBytes;
    assert ([b] + bs)[1..] == bs;
  }

  lemma {:induction false} ImageAppend(xs: seq<Block>, ys: seq<Block>)
    ensures Image(xs + ys) == Image(xs) + Image(ys)
  {
    if xs == [] {
      Empty(ys);
      Empty(Image(ys));
    } else {
      hide *;
      var b, more := xs[0], xs[1..];
      ImageAppend(more, ys);
      HeadTail(xs);
      Regroup([b], more, ys);
      ImageCons(b, more);
      ImageCons(b, more + ys);
      Regroup(BlockBytes(b), Image(more), Image(ys));
    }
  }

  /** Bumping: a new block's bytes go right after the others. */
  lemma ImageSnoc(bs: seq<Block>, b: Block)
    ensures Image(bs + [b]) == Image(bs) + BlockBytes(b)
  {
    hide BlockBytes;
    ImageAppend(bs, [b]);
  }

  /** The image, split around block `i`. */
  lemma ImageSplit(bs: seq<Block>, i: nat)
    requires i < |bs|
    ensures Image(bs) == Image(bs[..i]) + BlockBytes(bs[i]) + Image(bs[i + 1..])
    ensures Offset(bs, i + 1) == Offset(bs, i) + |BlockBytes(bs[i])| <= |Image(bs)|
  {
    hide BlockBytes, Image;
    var upTo := bs[..i] + [bs[i]];
    assert bs[..i + 1] == upTo && upTo + bs[i + 1..] == bs;
    ImageAppend(upTo, bs[i + 1..]);
    ImageSnoc(bs[..i], bs[i]);
  }

  lemma HeaderParses(size: nat, live: bool, tail: seq<byte>)
    requires size < 0x1_0000_0000
    ensures Word(HeaderBytes(size, live) + tail, 0) == Magic(live)
    ensures Word(HeaderBytes(size, live) + tail, 4) == size
  {
    FourBytes();
    var s := HeaderBytes(size, live) + tail;
    assert s[0..4] == Le(Magic(live), 4) && s[4..8] == Le(size, 4);
    LeRoundTrip(Magic(live), 4);
    LeRoundTrip(size, 4);
  }

  lemma FirstBlockParses(b: Block, tail: seq<byte>)
    requires WellFormed(b)
    ensures var s := BlockBytes(b) + tail;
            && Word(s, 0) == Magic(b.live) && Word(s, 4) == b.size && BlockTotal(b.size) == |BlockBytes(b)|
            && FirstBlock(s) == b && s[BlockTotal(b.size)..] == tail
  {
    var s := BlockBytes(b) + tail;
    var rest := b.pre + b.data + b.post + tail;
    assert s == HeaderBytes(b.size, b.live) + rest;
    HeaderParses(b.size, b.live, rest);
    var post := HEADER + ZONE + Round8(b.size);
    assert s[HEADER..HEADER + ZONE] == b.pre;
    assert s[HEADER + ZONE..post] == b.data;
    assert s[post..post + ZONE] == b.post;
  }

  lemma WalkStep(b: Block, rest: seq<byte>, left: int)
    requires WellFormed(b) && Scannable(rest, left) && left >= 0
    ensures Scannable(BlockBytes(b) + rest, |BlockBytes(b)| + left)
    ensures Walk(BlockBytes(b) + rest, |BlockBytes(b)| + left) == Prepend([b], Walk(rest, left))
  {
    hide BlockBytes, FirstBlock, WellFormed;
    FirstBlockParses(b, rest);
  }

  /** The header walk reads a run of intact blocks back exactly, whatever follows them. */
  lemma {:induction false} WalkPast(bs: seq<Block>, rest: seq<byte>, left: int)
    requires AllWellFormed(bs) && Scannable(rest, left) && left >= 0
    ensures Scannable(Image(bs) + rest, |Image(bs)| + left)
    ensures Walk(Image(bs) + rest, |Image(bs)| + left) == Prepend(bs, Walk(rest, left))
  {
    hide BlockBytes, Walk, Scannable, WellFormed;
    if bs == [] {
      assert Image(bs) + rest == rest;
      assert forall more: seq<Block> :: bs + more == more;
    } else {
      WalkPast(bs[1..], rest, left);
      WalkStep(bs[0], Image(bs[1..]) + rest, |Image(bs[1..])| + left);
      assert Image(bs) + rest == BlockBytes(bs[0]) + (Image(bs[1..]) + rest);
      assert [bs[0]] + bs[1..] == bs;
      assert forall more :: [bs[0]] + (bs[1..] + more) == bs + more;
    }
  }

  /** Walking the headers of an image recovers exactly the list, and ends exactly at `used`,
      whatever lies beyond. */
  lemma WalkOfImage(bs: seq<Block>, tail: seq<byte>)
    requires AllWellFormed(bs)
    ensures Scannable(Image(bs) + tail, |Image(bs)|)
    ensures Walk(Image(bs) + tail, |Image(bs)|) == Parsed(bs)
  {
    WalkPast(bs, tail, 0);
    assert bs + [] == bs;
  }

  // ---- layout ----

  /** Blocks tile: block `i` ends at or before block `j` starts, user areas are 8-aligned and
      separated by two redzones and a header. */
  lemma {:induction false} Layout(bs: seq<Block>, i: nat, j: nat)
    requires AllWellFormed(bs) && i < j <= |bs|
    ensures Offset(bs, i) % 8 == 0 && UserOffset(bs, i) % 8 == 0
    ensures Offset(bs, i) + BlockTotal(bs[i].size) <= Offset(bs, j) <= |Image(bs)|
    ensures j == i + 1 ==> Offset(bs, i) + BlockTotal(bs[i].size) == Offset(bs, j)
    decreases j
  {
    hide BlockBytes, Image, Round8;
    assert WellFormed(bs[j - 1]);
    ImageSplit(bs, j - 1);
    if i < j - 1 {
      Layout(bs, i, j - 1);
    } else if i > 0 {
      Layout(bs, i - 1, i);
    } else {
      OffsetZero(bs);
    }
  }

  lemma OffsetZero(bs: seq<Block>)
    ensures Offset(bs, 0) == 0
  {
  }

  /** Replacing a block by one of the same extent touches only its own bytes and moves nothing. */
  lemma UpdateImage(bs: seq<Block>, i: nat, b: Block)
    requires AllWellFormed(bs) && i < |bs| && WellFormed(b) && b.size == bs[i].size
    ensures AllWellFormed(bs[i := b])
    ensures Offset(bs, i) + BlockTotal(b.size) <= |Image(bs)| == |Image(bs[i := b])|
    ensures Image(bs[i := b]) == Splice(Image(bs), Offset(bs, i), BlockBytes(b))
  {
    hide BlockBytes, Image;
    assert WellFormed(bs[i]);
    var cs := bs[i := b];
    ImageSplit(bs, i);
    ImageSplit(cs, i);
    assert cs[..i] == bs[..i] && cs[i + 1..] == bs[i + 1..];
  }

  lemma {:induction false} OffsetBySizes(xs: seq<Block>, ys: seq<Block>, i: nat)
    requires AllWellFormed(xs) && AllWellFormed(ys) && i <= |xs| && i <= |ys|
    requires forall k :: 0 <= k < i ==> xs[k].size == ys[k].size
    ensures Offset(xs, i) == Offset(ys, i)
  {
    hide BlockBytes, Image;
    if i == 0 {
      assert xs[..0] == ys[..0];
    } else {
      OffsetBySizes(xs, ys, i - 1);
      assert WellFormed(xs[i - 1]) && WellFormed(ys[i - 1]);
      ImageSplit(xs, i - 1);
      ImageSplit(ys, i - 1);
    }
  }

  // ---- what the operations mean ----

  /** The block chaos_arena_alloc lays over the bytes `area` that follow the new header. */
  function NewBlock(n: nat, redzones: bool, area: seq<byte>): (b: Block)
    requires |area| == BlockTotal(n) - HEADER
    ensures b.size == n && |b.pre| == ZONE && |b.data| == Round8(n) && |b.post| == ZONE
  {
    var post := ZONE + Round8(n);
    Block(n, true,
          if redzones then Fill(REDZONE_BYTE, ZONE) else area[..ZONE],
          area[ZONE..post],
          if redzones then Fill(REDZONE_BYTE, ZONE) else area[post..])
  }

  /** Freed: the magic flips and the first `size` user bytes, not the slack, are poisoned. */
  function FreedBlock(b: Block): (f: Block)
    requires WellFormed(b)
    ensures WellFormed(f) && f.size == b.size && !f.live
  {
    b.(live := false, data := Splice(b.data, 0, Fill(POISON_BYTE, b.size)))
  }

  function WrittenBlock(b: Block, at: nat, patch: seq<byte>): (w: Block)
    requires WellFormed(b) && at + |patch| <= b.size
    ensures WellFormed(w)
  {
    b.(data := Splice(b.data, at, patch))
  }

  /** One call, by the client, on the arena: allocate `n` bytes where the memory happens to hold
      `area`; free block `i`'s pointer; write inside block `i`, live or freed. */
  datatype Op = Alloc(n: nat, area: seq<byte>) | Free(i: nat) | Write(i: nat, at: nat, patch: seq<byte>)

  predicate Legal(op: Op, bs: seq<Block>) {
    match op
    case Alloc(n, area) => |area| == BlockTotal(n) - HEADER
    case Free(i) => i < |bs|
    case Write(i, at, patch) => i < |bs| && at + |patch| <= bs[i].size
  }

  function Apply(op: Op, bs: seq<Block>, total: nat, redzones: bool): (r: seq<Block>)
    requires AllWellFormed(bs) && Legal(op, bs) && total <= 0x1_0000_0000
    ensures AllWellFormed(r)
  {
    match op
    case Alloc(n, area) =>
      if |Image(bs)| + BlockTotal(n) > total then bs else bs + [NewBlock(n, redzones, area)]
    case Free(i) => if bs[i].live then bs[i := FreedBlock(bs[i])] else bs
    case Write(i, at, patch) => bs[i := WrittenBlock(bs[i], at, patch)]
  }

  /** `later` is a state the arena may be in after `earlier`: no block moved, shrank or came back
      from being freed. */
  ghost predicate Extends(earlier: seq<Block>, later: seq<Block>) {
    && |earlier| <= |later|
    && forall i :: 0 <= i < |earlier| ==>
         && later[i].size == earlier[i].size
         && (later[i].live ==> earlier[i].live)
  }

  ghost predicate Sound(bs: seq<Block>, total: nat, redzones: bool) {
    AllWellFormed(bs) && |Image(bs)| <= total <= 0x1_0000_0000 && (redzones ==> Clean(bs))
  }

  lemma ApplyKeeps(op: Op, bs: seq<Block>, total: nat, redzones: bool)
    requires Sound(bs, total, redzones) && Legal(op, bs)
    ensures Sound(Apply(op, bs, total, redzones), total, redzones)
    ensures Extends(bs, Apply(op, bs, total, redzones))
  {
    hide BlockBytes, Image;
    match op
    case Alloc(n, area) =>
      var b := NewBlock(n, redzones, area);
      ImageSnoc(bs, b);
      assert |BlockBytes(b)| == BlockTotal(n);
    case Free(i) =>
      assert bs[i] in bs;
      UpdateImage(bs, i, FreedBlock(bs[i]));
    case Write(i, at, patch) =>
      assert bs[i] in bs;
      UpdateImage(bs, i, WrittenBlock(bs[i], at, patch));
  }

  /** A run is a list of operations, each legal where it is applied. */
  ghost predicate LegalRun(ops: seq<Op>, bs: seq<Block>, total: nat, redzones: bool)
    requires AllWellFormed(bs) && total <= 0x1_0000_0000
  {
    ops == [] || (Legal(ops[0], bs) && LegalRun(ops[1..], Apply(ops[0], bs, total, redzones), total, redzones))
  }

  ghost function Run(ops: seq<Op>, bs: seq<Block>, total: nat, redzones: bool): seq<Block>
    requires AllWellFormed(bs) && total <= 0x1_0000_0000 && LegalRun(ops, bs, total, redzones)
  {
    if ops == [] then bs else Run(ops[1..], Apply(ops[0], bs, total, redzones), total, redzones)
  }

  /** Over every run: redzones stay intact (so a check answers 0), nothing outgrows the mapping,
      every user pointer keeps its place and freed blocks stay freed. */
  lemma {:induction false} RunKeeps(ops: seq<Op>, bs: seq<Block>, total: nat, redzones: bool)
    requires Sound(bs, total, redzones) && LegalRun(ops, bs, total, redzones)
    ensures var r := Run(ops, bs, total, redzones);
            && Sound(r, total, redzones) && Extends(bs, r)
            && (redzones ==> DirtyZones(r) == 0)
            && forall i :: 0 <= i < |bs| ==> UserOffset(r, i) == UserOffset(bs, i)
  {
    hide Image, BlockBytes, Apply;
    var r := Run(ops, bs, total, redzones);
    if ops != [] {
      ApplyKeeps(ops[0], bs, total, redzones);
      RunKeeps(ops[1..], Apply(ops[0], bs, total, redzones), total, redzones);
    }
    if redzones { CleanIsZero(r); }
    forall i | 0 <= i < |bs| ensures UserOffset(r, i) == UserOffset(bs, i) {
      OffsetBySizes(r, bs, i);
    }
  }

  lemma {:induction false} CleanIsZero(bs: seq<Block>)
    ensures DirtyZones(bs) == 0 <==> Clean(bs)
  {
    if bs != [] {
      CleanIsZero(bs[1..]);
      assert bs == [bs[0]] + bs[1..];
    }
  }

  // ---- running off the end of a block ----

  function FirstMagicByte(live: bool): byte {
    if live then 0xAA else 0xED
  }

  lemma MagicBytes(live: bool)
    ensures Le(Magic(live), 4) == if live then [0xAA, 0x11, 0x1A, 0xA1] else [0xED, 0xFE, 0xED, 0xFE]
  {
    FourLe(Magic(live));
  }

  /** A word holds a magic only if its four bytes spell it. */
  lemma WordIsMagic(s: seq<byte>, live: bool)
    requires 4 <= |s|
    ensures Word(s, 0) == Magic(live) <==> s[..4] == Le(Magic(live), 4)
  {
    FourBytes();
    assert s[0..4] == s[..4];
    FromLeRoundTrip(s[..4]);
    LeRoundTrip(Magic(live), 4);
  }

  /** memset over a header wrecks its magic unless it reaches one byte only, and that with the
      byte already there. */
  lemma FilledHeaderWrecked(b: Block, rest: seq<byte>, v: byte, k: nat)
    requires WellFormed(b) && 1 <= k <= |BlockBytes(b) + rest|
    requires !(k == 1 && v == FirstMagicByte(b.live))
    ensures var s := Splice(BlockBytes(b) + rest, 0, Fill(v, k));
            Word(s, 0) != MAGIC_LIVE && Word(s, 0) != MAGIC_FREE
  {
    var s := Splice(BlockBytes(b) + rest, 0, Fill(v, k));
    MagicBytes(true);
    MagicBytes(false);
    WordIsMagic(s, true);
    WordIsMagic(s, false);
    assert (BlockBytes(b) + rest)[..4] == Le(Magic(b.live), 4);
    assert s[0] == v && s[1] == (if k > 1 then v else Le(Magic(b.live), 4)[1]);
    assert s[..4][0] == s[0] && s[..4][1] == s[1];
  }

  /** Block `b` after a memset of `len` bytes of `v` from its user pointer. */
  function Overrun(b: Block, v: byte, len: nat): (o: Block)
    requires WellFormed(b)
    ensures WellFormed(o)
  {
    var room := Round8(b.size);
    if len <= room then b.(data := Splice(b.data, 0, Fill(v, len)))
    else
      var over := if len - room < ZONE then len - room else ZONE;
      b.(data := Fill(v, room), post := Splice(b.post, 0, Fill(v, over)))
  }

  /** How far past the post-redzone the memset reaches. */
  function Past(size: nat, len: nat): nat {
    if len <= Round8(size) + ZONE then 0 else len - Round8(size) - ZONE
  }

  lemma FillAcross(head: seq<byte>, data: seq<byte>, post: seq<byte>, rest: seq<byte>, v: byte, len: nat)
    requires len <= |data| + |post| + |rest|
    ensures var inData, inPost := Min(len, |data|), Min(len - Min(len, |data|), |post|);
            Splice(head + data + post + rest, |head|, Fill(v, len))
            == head + Splice(data, 0, Fill(v, inData)) + Splice(post, 0, Fill(v, inPost))
               + Splice(rest, 0, Fill(v, len - inData - inPost))
  {
    hide Splice, Fill;
    var inData := Min(len, |data|);
    var inPost := Min(len - inData, |post|);
    assert head + data + post + rest == head + (data + (post + rest));
    SplicePast(head, data + (post + rest), Fill(v, len));
    FillTwo(data, post + rest, v, len);
    FillTwo(post, rest, v, len - inData);
    var x, y := Splice(data, 0, Fill(v, inData)), Splice(post, 0, Fill(v, inPost));
    var z := Splice(rest, 0, Fill(v, len - inData - inPost));
    assert head + (x + (y + z)) == head + x + y + z;
  }

  lemma SplicePast(head: seq<byte>, s: seq<byte>, patch: seq<byte>)
    requires |patch| <= |s|
    ensures Splice(head + s, |head|, patch) == head + Splice(s, 0, patch)
  {
  }

  lemma FillTwo(x: seq<byte>, y: seq<byte>, v: byte, len: nat)
    requires len <= |x| + |y|
    ensures var inX := Min(len, |x|);
            Splice(x + y, 0, Fill(v, len)) == Splice(x, 0, Fill(v, inX)) + Splice(y, 0, Fill(v, len - inX))
  {
  }

  lemma OverrunBytes(b: Block, rest: seq<byte>, v: byte, len: nat)
    requires WellFormed(b) && HEADER + ZONE + len <= |BlockBytes(b) + rest|
    ensures Past(b.size, len) <= |rest|
    ensures Splice(BlockBytes(b) + rest, HEADER + ZONE, Fill(v, len))
            == BlockBytes(Overrun(b, v, len)) + Splice(rest, 0, Fill(v, Past(b.size, len)))
  {
    hide HeaderBytes, Splice, Fill;
    FillAcross(HeaderBytes(b.size, b.live) + b.pre, b.data, b.post, rest, v, len);
    SpliceAll(b.data, Fill(v, |b.data|));
    SpliceNone(b.post, Fill(v, 0));
  }

  lemma SpliceAll(a: seq<byte>, patch: seq<byte>)
    requires |patch| == |a|
    ensures Splice(a, 0, patch) == patch
  {
  }

  lemma SpliceNone(a: seq<byte>, patch: seq<byte>)
    requires |patch| == 0
    ensures Splice(a, 0, patch) == a
  {
  }

  /** What a check answers after memset(p, v, len) from block `i`'s pointer in a clean arena:
      nothing as long as the write stays in the rounded area, one redzone once it leaves it (none if
      `v` is the redzone byte itself), and -1 as soon as the next header's magic changes. The magic
      survives only a one-byte touch with the byte already there. */
  function MemsetAnswer(bs: seq<Block>, i: nat, v: byte, len: nat): int
    requires i < |bs|
  {
    var room := Round8(bs[i].size);
    var seen := if v == REDZONE_BYTE then 0 else 1;
    if len <= room then 0
    else if len <= room + ZONE || i + 1 == |bs| then seen
    else if len == room + ZONE + 1 && v == FirstMagicByte(bs[i + 1].live) then seen
    else -1
  }

  lemma OverrunDirt(b: Block, v: byte, len: nat)
    requires WellFormed(b) && !DirtyZone(b.pre) && !DirtyZone(b.post)
    ensures var o := Overrun(b, v, len);
            Dirt(o.pre) + Dirt(o.post) == if len <= Round8(b.size) || v == REDZONE_BYTE then 0 else 1
  {
    var o := Overrun(b, v, len);
    if len > Round8(b.size) {
      assert o.post[0] == v;
    }
  }

  lemma {:induction false} DirtyZonesAppend(xs: seq<Block>, ys: seq<Block>)
    ensures DirtyZones(xs + ys) == DirtyZones(xs) + DirtyZones(ys)
  {
    if xs == [] {
      assert xs + ys == ys;
    } else {
      DirtyZonesAppend(xs[1..], ys);
      assert (xs + ys)[1..] == xs[1..] + ys;
    }
  }

  /** The walk over what follows the overrun block. */
  lemma WalkAfterOverrun(bs: seq<Block>, tail: seq<byte>, v: byte, past: nat)
    requires AllWellFormed(bs) && past <= |Image(bs) + tail|
    ensures var s := Splice(Image(bs) + tail, 0, Fill(v, past));
            && Scannable(s, |Image(bs)|)
            && Walk(s, |Image(bs)|) ==
               if bs == [] || past == 0 || (past == 1 && v == FirstMagicByte(bs[0].live)) then Parsed(bs) else Wrecked
  {
    hide BlockBytes;
    var s := Splice(Image(bs) + tail, 0, Fill(v, past));
    if bs == [] {
    } else {
      var rest := Image(bs[1..]) + tail;
      assert WellFormed(bs[0]);
      assert Image(bs) + tail == BlockBytes(bs[0]) + rest;
      if past == 0 || (past == 1 && v == FirstMagicByte(bs[0].live)) {
        MagicSurvives(bs[0], rest, v, past);
        WalkOfImage(bs, tail);
      } else {
        FilledHeaderWrecked(bs[0], rest, v, past);
      }
    }
  }

  lemma MagicSurvives(b: Block, rest: seq<byte>, v: byte, past: nat)
    requires past == 0 || (past == 1 && v == FirstMagicByte(b.live))
    ensures Splice(BlockBytes(b) + rest, 0, Fill(v, past)) == BlockBytes(b) + rest
  {
    MagicBytes(b.live);
    assert BlockBytes(b)[0] == Le(Magic(b.live), 4)[0];
  }

  lemma MemsetVerdict(bs: seq<Block>, i: nat, tail: seq<byte>, v: byte, len: nat)
    requires AllWellFormed(bs) && Clean(bs) && i < |bs|
    requires UserOffset(bs, i) + len <= |Image(bs) + tail|
    ensures var s := Splice(Image(bs) + tail, UserOffset(bs, i), Fill(v, len));
            && Scannable(s, |Image(bs)|)
            && Verdict(Walk(s, |Image(bs)|)) == MemsetAnswer(bs, i, v, len)
  {
    hide BlockBytes, Image, Walk, Scannable, Overrun, DirtyZones;
    var s := Splice(Image(bs) + tail, UserOffset(bs, i), Fill(v, len));
    var before, b, after := bs[..i], bs[i], bs[i + 1..];
    assert WellFormed(b) && Clean(before) && Clean(after);
    ImageSplit(bs, i);
    var rest := Image(after) + tail;
    var o := Overrun(b, v, len);
    var past := Past(b.size, len);
    assert Image(bs) + tail == Image(before) + (BlockBytes(b) + rest);
    OverrunBytes(b, rest, v, len);
    assert s == Image(before) + (BlockBytes(o) + Splice(rest, 0, Fill(v, past)));
    WalkAfterOverrun(after, tail, v, past);
    WalkStep(o, Splice(rest, 0, Fill(v, past)), |Image(after)|);
    WalkPast(before, BlockBytes(o) + Splice(rest, 0, Fill(v, past)), |BlockBytes(o)| + |Image(after)|);
    OverrunDirt(b, v, len);
    CleanIsZero(before);
    CleanIsZero(after);
    CountAround(before, o, after);
  }

  lemma CountAround(before: seq<Block>, o: Block, after: seq<Block>)
    ensures DirtyZones(before + ([o] + after)) == DirtyZones(before) + Dirt(o.pre) + Dirt(o.post) + DirtyZones(after)
  {
    DirtyZonesAppend(before, [o] + after);
    assert ([o] + after)[1..] == after;
  }
}
